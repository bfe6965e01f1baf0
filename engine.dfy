/**
 * The copy-on-write tree mutation engine of src/hooks/useTree.ts: the node and
 * project factories and the three recursive operations that return a new tree
 * (update a node, add a child, delete subtrees). Fresh ids and timestamps are
 * supplied by the caller.
 */
module Engine {
  import opened Wrappers
  import opened Tree
  import opened Seqs

  /** The fields a caller may overwrite on a node; `None` leaves the field as it is. */
  datatype Patch = Patch(title: Option<string>, content: Option<string>)

  /**
   * The node with the patch's fields spread over it: its id and children stay,
   * and its visible fields are exactly the patched fields of its old ones.
   */
  function Patched(n: Node, p: Patch): (r: Node)
    ensures r.child == n.child && InfoOf(r) == PatchedInfo(InfoOf(n), p)
  {
    n.(title := p.title.GetOr(n.title), content := p.content.GetOr(n.content))
  }

  function PatchedInfo(e: Info, p: Patch): Info {
    e.(title := p.title.GetOr(e.title), content := p.content.GetOr(e.content))
  }

  /** A new leaf note with the given (fresh) id. */
  function GenerateNode(freshId: string): (r: Node)
    ensures r.id == freshId && r.title == "New Note" && r.content == "" && r.child == []
    ensures Size(r) == 1 && IdSet(r) == {freshId} && Unique(r)
  {
    Node(freshId, "New Note", "", [])
  }

  /** The root note's title: a rocket emoji, a space and the project name. */
  function RootTitle(name: string): string {
    "\U{1F680} " + name
  }

  /**
   * The root note's content: a heading with the name, the description as its own
   * paragraph when it is not empty, then the fixed welcome text.
   */
  function RootContent(name: string, description: string, welcome: string): string {
    "# " + name + "\n\n" + (if description != "" then description + "\n\n" else "") + welcome
  }

  /**
   * A new project whose tree is a single root note with id "root". The two
   * timestamps are the two clock readings taken while building it.
   * `welcome` stands for the fixed welcome markdown.
   */
  function CreateDefaultProject(projectId: string, name: string, description: string,
                                createdAt: string, updatedAt: string, welcome: string): (r: Project)
    ensures r.id == projectId && r.name == name && r.description == description
    ensures r.createdAt == createdAt && r.updatedAt == updatedAt
    ensures r.tree.id == RootId && r.tree.child == [] && WellFormed(r.tree)
    ensures r.tree.title == RootTitle(name) && r.tree.content == RootContent(name, description, welcome)
  {
    var root := Node(RootId, RootTitle(name), RootContent(name, description, welcome), []);
    assert Unique(root);
    Project(projectId, name, description, root, createdAt, updatedAt)
  }

  // ------------------------------------------------------------------
  // updateNodeRecursive
  // ------------------------------------------------------------------

  /**
   * Patch the node whose id is `id`. A matching node is patched and not
   * descended into; any other node keeps its fields and is rebuilt over its
   * updated children. Ids and the arrangement of nodes never change.
   */
  function UpdateNodeRecursive(t: Node, id: string, p: Patch): (r: Node)
    ensures SameShape(r, t)
    decreases t
  {
    if t.id == id then
      SameShapeAllRefl(t.child);
      Patched(t, p)
    else
      t.(child := UpdateAll(t.child, id, p))
  }

  function UpdateAll(cs: seq<Node>, id: string, p: Patch): (r: seq<Node>)
    ensures SameShapeAll(r, cs)
    decreases cs
  {
    if cs == [] then [] else [UpdateNodeRecursive(cs[0], id, p)] + UpdateAll(cs[1..], id, p)
  }

  /** An id that occurs nowhere leaves the tree as it was. */
  lemma {:induction false} UpdateMissing(t: Node, id: string, p: Patch)
    requires id !in IdSet(t)
    ensures UpdateNodeRecursive(t, id, p) == t
    decreases t
  {
    UpdateAllMissing(t.child, id, p);
  }

  lemma {:induction false} UpdateAllMissing(cs: seq<Node>, id: string, p: Patch)
    requires id !in IdSetAll(cs)
    ensures UpdateAll(cs, id, p) == cs
    decreases cs
  {
    if cs != [] {
      UpdateMissing(cs[0], id, p);
      UpdateAllMissing(cs[1..], id, p);
      assert cs == [cs[0]] + cs[1..];
    }
  }

  /** The outline with every entry carrying id `id` patched, and no other entry touched. */
  function PatchInfos(s: seq<Info>, id: string, p: Patch): (r: seq<Info>)
    ensures |r| == |s|
    ensures forall i :: 0 <= i < |s| ==> r[i] == if s[i].id == id then PatchedInfo(s[i], p) else s[i]
  {
    if s == [] then [] else [if s[0].id == id then PatchedInfo(s[0], p) else s[0]] + PatchInfos(s[1..], id, p)
  }

  lemma PatchInfosAppend(a: seq<Info>, b: seq<Info>, id: string, p: Patch)
    ensures PatchInfos(a + b, id, p) == PatchInfos(a, id, p) + PatchInfos(b, id, p)
  {
  }

  /**
   * With unique ids, updating patches exactly the entry of `id` in the pre-order
   * outline: every other node keeps its id, title and content, and (by the
   * function's own contract) the tree keeps its shape.
   */
  lemma {:induction false} UpdateOutline(t: Node, id: string, p: Patch)
    requires Unique(t)
    ensures Outline(UpdateNodeRecursive(t, id, p)) == PatchInfos(Outline(t), id, p)
    decreases t
  {
    var r := UpdateNodeRecursive(t, id, p);
    PatchInfosAppend([InfoOf(t)], OutlineAll(t.child), id, p);
    if t.id == id {
      OutlineAllIds(t.child);
      assert PatchInfos(OutlineAll(t.child), id, p) == OutlineAll(t.child);
    } else {
      UpdateAllOutline(t.child, id, p);
    }
  }

  lemma {:induction false} UpdateAllOutline(cs: seq<Node>, id: string, p: Patch)
    requires UniqueAll(cs)
    ensures OutlineAll(UpdateAll(cs, id, p)) == PatchInfos(OutlineAll(cs), id, p)
    decreases cs
  {
    if cs != [] {
      var r := UpdateAll(cs, id, p);
      assert r[0] == UpdateNodeRecursive(cs[0], id, p);
      assert r[1..] == UpdateAll(cs[1..], id, p);
      UpdateOutline(cs[0], id, p);
      UpdateAllOutline(cs[1..], id, p);
      PatchInfosAppend(Outline(cs[0]), OutlineAll(cs[1..]), id, p);
    }
  }

  /** Updating never breaks id uniqueness, nor moves the root id. */
  lemma UpdateWellFormed(t: Node, id: string, p: Patch)
    requires WellFormed(t)
    ensures WellFormed(UpdateNodeRecursive(t, id, p))
  {
    SameShapeMeasures(UpdateNodeRecursive(t, id, p), t);
  }

  // ------------------------------------------------------------------
  // addChildRecursive
  // ------------------------------------------------------------------

  /**
   * Append a new leaf with id `freshId` to the children of the node whose id is
   * `parentId`. A matching node is not descended into; any other node is
   * rebuilt over its children. The root's own fields are never changed.
   */
  function AddChildRecursive(t: Node, parentId: string, freshId: string): (r: Node)
    ensures r.id == t.id && r.title == t.title && r.content == t.content
    ensures IdSet(r) == IdSet(t) + (if parentId in IdSet(t) then {freshId} else {})
    decreases t
  {
    if t.id == parentId then
      IdSetAllAppend(t.child, [GenerateNode(freshId)]);
      t.(child := t.child + [GenerateNode(freshId)])
    else
      t.(child := AddChildAll(t.child, parentId, freshId))
  }

  function AddChildAll(cs: seq<Node>, parentId: string, freshId: string): (r: seq<Node>)
    ensures |r| == |cs|
    ensures forall i :: 0 <= i < |cs| ==> r[i].id == cs[i].id
    ensures IdSetAll(r) == IdSetAll(cs) + (if parentId in IdSetAll(cs) then {freshId} else {})
    decreases cs
  {
    if cs == [] then [] else [AddChildRecursive(cs[0], parentId, freshId)] + AddChildAll(cs[1..], parentId, freshId)
  }

  /** A parent id that occurs nowhere leaves the tree as it was. */
  lemma {:induction false} AddChildMissing(t: Node, parentId: string, freshId: string)
    requires parentId !in IdSet(t)
    ensures AddChildRecursive(t, parentId, freshId) == t
    decreases t
  {
    AddChildAllMissing(t.child, parentId, freshId);
  }

  lemma {:induction false} AddChildAllMissing(cs: seq<Node>, parentId: string, freshId: string)
    requires parentId !in IdSetAll(cs)
    ensures AddChildAll(cs, parentId, freshId) == cs
    decreases cs
  {
    if cs != [] {
      AddChildMissing(cs[0], parentId, freshId);
      AddChildAllMissing(cs[1..], parentId, freshId);
      assert cs == [cs[0]] + cs[1..];
    }
  }

  /** With unique ids and an existing parent, the tree grows by exactly one node. */
  lemma {:induction false} AddChildSize(t: Node, parentId: string, freshId: string)
    requires Unique(t) && parentId in IdSet(t)
    ensures Size(AddChildRecursive(t, parentId, freshId)) == Size(t) + 1
    decreases t
  {
    if t.id == parentId {
      SizeAllAppend(t.child, [GenerateNode(freshId)]);
    } else {
      AddChildAllSize(t.child, parentId, freshId);
    }
  }

  lemma {:induction false} AddChildAllSize(cs: seq<Node>, parentId: string, freshId: string)
    requires UniqueAll(cs) && parentId in IdSetAll(cs)
    ensures SizeAll(AddChildAll(cs, parentId, freshId)) == SizeAll(cs) + 1
    decreases cs
  {
    var r := AddChildAll(cs, parentId, freshId);
    assert r[0] == AddChildRecursive(cs[0], parentId, freshId);
    assert r[1..] == AddChildAll(cs[1..], parentId, freshId);
    if parentId in IdSet(cs[0]) {
      AddChildSize(cs[0], parentId, freshId);
      AddChildAllMissing(cs[1..], parentId, freshId);
    } else {
      AddChildMissing(cs[0], parentId, freshId);
      AddChildAllSize(cs[1..], parentId, freshId);
    }
  }

  /**
   * With unique ids, an existing parent and a fresh id, the tree holds exactly
   * one more distinct id afterwards, and the number of ids still equals the node count.
   */
  lemma AddChildIdCount(t: Node, parentId: string, freshId: string)
    requires Unique(t) && parentId in IdSet(t) && freshId !in IdSet(t)
    ensures var r := AddChildRecursive(t, parentId, freshId);
            |IdSet(r)| == |IdSet(t)| + 1 && |IdSet(r)| == Size(r)
  {
    var r := AddChildRecursive(t, parentId, freshId);
    AddChildSize(t, parentId, freshId);
    AddChildUnique(t, parentId, freshId);
    UniqueCount(t);
    UniqueCount(r);
  }

  /** A fresh id keeps the ids unique. */
  lemma {:induction false} AddChildUnique(t: Node, parentId: string, freshId: string)
    requires Unique(t) && freshId !in IdSet(t)
    ensures Unique(AddChildRecursive(t, parentId, freshId))
    decreases t
  {
    if t.id == parentId {
      var g := GenerateNode(freshId);
      IdSetAllAppend(t.child, [g]);
      assert UniqueAll([g]);
      UniqueAllAppend(t.child, [g]);
    } else {
      AddChildAllUnique(t.child, parentId, freshId);
    }
  }

  lemma {:induction false} AddChildAllUnique(cs: seq<Node>, parentId: string, freshId: string)
    requires UniqueAll(cs) && freshId !in IdSetAll(cs)
    ensures UniqueAll(AddChildAll(cs, parentId, freshId))
    decreases cs
  {
    if cs != [] {
      var r := AddChildAll(cs, parentId, freshId);
      assert r[0] == AddChildRecursive(cs[0], parentId, freshId);
      assert r[1..] == AddChildAll(cs[1..], parentId, freshId);
      AddChildUnique(cs[0], parentId, freshId);
      AddChildAllUnique(cs[1..], parentId, freshId);
    }
  }

  /** Adding under any parent keeps a well-formed project tree well-formed. */
  lemma AddChildWellFormed(t: Node, parentId: string, freshId: string)
    requires WellFormed(t) && freshId !in IdSet(t)
    ensures WellFormed(AddChildRecursive(t, parentId, freshId))
  {
    AddChildUnique(t, parentId, freshId);
  }

  // ------------------------------------------------------------------
  // deleteNodeRecursive
  // ------------------------------------------------------------------

  /**
   * Drop every direct child whose id is `id`, with its whole subtree, at every
   * level; then rebuild each remaining child the same way. The node itself is
   * kept, so the root always survives.
   */
  function DeleteNodeRecursive(t: Node, id: string): (r: Node)
    ensures r.id == t.id && r.title == t.title && r.content == t.content
    ensures id !in IdSetAll(r.child)
    ensures IdSet(r) <= IdSet(t) && Size(r) <= Size(t)
    decreases t
  {
    t.(child := DeleteAll(t.child, id))
  }

  /** Drop the children that carry `id`, then clean each remaining child the same way. */
  function DeleteAll(cs: seq<Node>, id: string): (r: seq<Node>)
    ensures id !in IdSetAll(r)
    ensures IdSetAll(r) <= IdSetAll(cs) && SizeAll(r) <= SizeAll(cs)
    decreases cs
  {
    if cs == [] then []
    else if cs[0].id == id then DeleteAll(cs[1..], id)
    else [DeleteNodeRecursive(cs[0], id)] + DeleteAll(cs[1..], id)
  }

  /** The ids of the cleaned child list: the old child ids with `id` dropped. */
  lemma {:induction false} IdsDeleteAll(cs: seq<Node>, id: string)
    ensures Ids(DeleteAll(cs, id)) == Without(Ids(cs), id)
    decreases cs
  {
    if cs != [] {
      IdsDeleteAll(cs[1..], id);
    }
  }

  lemma {:induction false} DeleteAllAppend(a: seq<Node>, b: seq<Node>, id: string)
    ensures DeleteAll(a + b, id) == DeleteAll(a, id) + DeleteAll(b, id)
    decreases |a|
  {
    if a == [] {
      assert a + b == b;
    } else {
      assert (a + b)[0] == a[0];
      assert (a + b)[1..] == a[1..] + b;
      DeleteAllAppend(a[1..], b, id);
    }
  }

  /** Deleting an id that occurs nowhere leaves the tree as it was. */
  lemma {:induction false} DeleteMissing(t: Node, id: string)
    requires id !in IdSet(t)
    ensures DeleteNodeRecursive(t, id) == t
    decreases t
  {
    DeleteAllMissing(t.child, id);
  }

  lemma {:induction false} DeleteAllMissing(cs: seq<Node>, id: string)
    requires id !in IdSetAll(cs)
    ensures DeleteAll(cs, id) == cs
    decreases cs
  {
    if cs != [] {
      DeleteMissing(cs[0], id);
      DeleteAllMissing(cs[1..], id);
      assert cs == [cs[0]] + cs[1..];
    }
  }

  /** A well-formed project tree is left as it is by deleting "root". */
  lemma DeleteRoot(t: Node)
    requires WellFormed(t)
    ensures DeleteNodeRecursive(t, RootId) == t
  {
    DeleteAllMissing(t.child, RootId);
  }

  /** Every remaining node existed before, in the same relative pre-order. */
  lemma {:induction false} DeleteOrder(t: Node, id: string)
    ensures IsSubseq(Outline(DeleteNodeRecursive(t, id)), Outline(t))
    decreases t
  {
    DeleteAllOrder(t.child, id);
    SubseqRefl([InfoOf(t)]);
    SubseqConcat([InfoOf(t)], [InfoOf(t)], OutlineAll(DeleteAll(t.child, id)), OutlineAll(t.child));
  }

  lemma {:induction false} DeleteAllOrder(cs: seq<Node>, id: string)
    ensures IsSubseq(OutlineAll(DeleteAll(cs, id)), OutlineAll(cs))
    decreases cs
  {
    if cs == [] {
    } else if cs[0].id == id {
      DeleteAllOrder(cs[1..], id);
      SubseqSkipPrefix(OutlineAll(DeleteAll(cs[1..], id)), Outline(cs[0]), OutlineAll(cs[1..]));
    } else {
      var r := DeleteAll(cs, id);
      assert r[0] == DeleteNodeRecursive(cs[0], id);
      assert r[1..] == DeleteAll(cs[1..], id);
      DeleteOrder(cs[0], id);
      DeleteAllOrder(cs[1..], id);
      SubseqConcat(Outline(r[0]), Outline(cs[0]), OutlineAll(r[1..]), OutlineAll(cs[1..]));
    }
  }

  /** Deleting never breaks id uniqueness. */
  lemma {:induction false} DeleteUnique(t: Node, id: string)
    requires Unique(t)
    ensures Unique(DeleteNodeRecursive(t, id))
    decreases t
  {
    DeleteAllUnique(t.child, id);
  }

  lemma {:induction false} DeleteAllUnique(cs: seq<Node>, id: string)
    requires UniqueAll(cs)
    ensures UniqueAll(DeleteAll(cs, id))
    decreases cs
  {
    if cs != [] {
      DeleteAllUnique(cs[1..], id);
      if cs[0].id != id {
        var r := DeleteAll(cs, id);
        assert r[0] == DeleteNodeRecursive(cs[0], id);
        assert r[1..] == DeleteAll(cs[1..], id);
        DeleteUnique(cs[0], id);
      }
    }
  }

  lemma DeleteWellFormed(t: Node, id: string)
    requires WellFormed(t)
    ensures WellFormed(DeleteNodeRecursive(t, id))
  {
    DeleteUnique(t, id);
  }

  /** Deleting the node just added (under a fresh id) gives back the original tree. */
  lemma {:induction false} DeleteUndoesAddChild(t: Node, parentId: string, freshId: string)
    requires freshId !in IdSet(t)
    ensures DeleteNodeRecursive(AddChildRecursive(t, parentId, freshId), freshId) == t
    decreases t
  {
    if t.id == parentId {
      DeleteAllAppend(t.child, [GenerateNode(freshId)], freshId);
      DeleteAllMissing(t.child, freshId);
      assert DeleteAll([GenerateNode(freshId)], freshId) == [];
    } else {
      DeleteAllUndoesAddChild(t.child, parentId, freshId);
    }
  }

  lemma {:induction false} DeleteAllUndoesAddChild(cs: seq<Node>, parentId: string, freshId: string)
    requires freshId !in IdSetAll(cs)
    ensures DeleteAll(AddChildAll(cs, parentId, freshId), freshId) == cs
    decreases cs
  {
    if cs != [] {
      var r := AddChildAll(cs, parentId, freshId);
      assert r[0] == AddChildRecursive(cs[0], parentId, freshId);
      assert r[1..] == AddChildAll(cs[1..], parentId, freshId);
      DeleteUndoesAddChild(cs[0], parentId, freshId);
      DeleteAllUndoesAddChild(cs[1..], parentId, freshId);
      assert cs == [cs[0]] + cs[1..];
    }
  }
}
