/**
 * The mutation engine seen through findNodeById: what a lookup returns after
 * each operation of src/hooks/useTree.ts, for trees whose ids are unique.
 */
module Lookup {
  import opened Wrappers
  import opened Tree
  import opened Engine
  import opened NodeFindId
  import opened Seqs

  /**
   * After an update of an existing id, looking the id up gives the node found
   * before with the patch applied: same id, same children, unpatched fields kept.
   */
  lemma {:induction false} UpdateTargets(t: Node, id: string, p: Patch)
    requires Unique(t) && id in IdSet(t)
    ensures FindNodeById(UpdateNodeRecursive(t, id, p), id) == Some(Patched(FindNodeById(t, id).value, p))
    decreases t
  {
    if t.id != id {
      UpdateAllTargets(t.child, id, p);
    }
  }

  lemma {:induction false} UpdateAllTargets(cs: seq<Node>, id: string, p: Patch)
    requires UniqueAll(cs) && id in IdSetAll(cs)
    ensures FindIn(UpdateAll(cs, id, p), id) == Some(Patched(FindIn(cs, id).value, p))
    decreases cs
  {
    var r := UpdateAll(cs, id, p);
    assert r[0] == UpdateNodeRecursive(cs[0], id, p);
    assert r[1..] == UpdateAll(cs[1..], id, p);
    if id in IdSet(cs[0]) {
      UpdateTargets(cs[0], id, p);
    } else {
      UpdateMissing(cs[0], id, p);
      UpdateAllTargets(cs[1..], id, p);
    }
  }

  /**
   * After adding under an existing parent, looking the parent up gives the
   * node found before with one new leaf appended to its children.
   */
  lemma {:induction false} AddChildTargets(t: Node, parentId: string, freshId: string)
    requires Unique(t) && parentId in IdSet(t)
    ensures var before := FindNodeById(t, parentId).value;
            FindNodeById(AddChildRecursive(t, parentId, freshId), parentId) ==
              Some(before.(child := before.child + [GenerateNode(freshId)]))
    decreases t
  {
    if t.id != parentId {
      AddChildAllTargets(t.child, parentId, freshId);
    }
  }

  lemma {:induction false} AddChildAllTargets(cs: seq<Node>, parentId: string, freshId: string)
    requires UniqueAll(cs) && parentId in IdSetAll(cs)
    ensures var before := FindIn(cs, parentId).value;
            FindIn(AddChildAll(cs, parentId, freshId), parentId) ==
              Some(before.(child := before.child + [GenerateNode(freshId)]))
    decreases cs
  {
    var r := AddChildAll(cs, parentId, freshId);
    assert r[0] == AddChildRecursive(cs[0], parentId, freshId);
    assert r[1..] == AddChildAll(cs[1..], parentId, freshId);
    if parentId in IdSet(cs[0]) {
      AddChildTargets(cs[0], parentId, freshId);
    } else {
      AddChildMissing(cs[0], parentId, freshId);
      AddChildAllTargets(cs[1..], parentId, freshId);
    }
  }

  /**
   * Find/insert coherence: the parent shows exactly one more child, the new
   * child is the last one and its id was absent from the tree.
   */
  lemma AddChildOneMore(t: Node, parentId: string, freshId: string)
    requires Unique(t) && parentId in IdSet(t) && freshId !in IdSet(t)
    ensures var after := FindNodeById(AddChildRecursive(t, parentId, freshId), parentId);
            after.Some? &&
            |after.value.child| == |FindNodeById(t, parentId).value.child| + 1 &&
            after.value.child[|after.value.child| - 1].id == freshId &&
            FindNodeById(t, freshId).None?
  {
    AddChildTargets(t, parentId, freshId);
  }

  /**
   * Deleting a non-root id removes exactly the subtree that the lookup finds:
   * its nodes, and no others, leave the tree.
   */
  lemma {:induction false} DeleteRemovesFound(t: Node, id: string)
    requires Unique(t) && id in IdSetAll(t.child)
    ensures var gone := FindNodeById(t, id).value;
            Size(DeleteNodeRecursive(t, id)) == Size(t) - Size(gone) &&
            IdSet(DeleteNodeRecursive(t, id)) == IdSet(t) - IdSet(gone)
    decreases t
  {
    DeleteAllRemovesFound(t.child, id);
  }

  lemma {:induction false} DeleteAllRemovesFound(cs: seq<Node>, id: string)
    requires UniqueAll(cs) && id in IdSetAll(cs)
    ensures var gone := FindIn(cs, id).value;
            SizeAll(DeleteAll(cs, id)) == SizeAll(cs) - Size(gone) &&
            IdSetAll(DeleteAll(cs, id)) == IdSetAll(cs) - IdSet(gone)
    decreases cs
  {
    var gone := FindIn(cs, id).value;
    if cs[0].id == id {
      DeleteAllMissing(cs[1..], id);
    } else if id in IdSet(cs[0]) {
      DeleteAllMissing(cs[1..], id);
      DeleteRemovesFound(cs[0], id);
    } else {
      DeleteMissing(cs[0], id);
      DeleteAllRemovesFound(cs[1..], id);
    }
  }

  /**
   * Deleting leaves every surviving node where it was: a node that is still in
   * the tree existed before, and its children are exactly its old children
   * without those carrying the deleted id, in the same order.
   */
  lemma {:induction false} DeleteKeepsSurvivors(t: Node, id: string, x: string)
    requires Unique(t) && x in IdSet(DeleteNodeRecursive(t, id))
    ensures FindNodeById(t, x).Some?
    ensures Ids(FindNodeById(DeleteNodeRecursive(t, id), x).value.child) ==
              Without(Ids(FindNodeById(t, x).value.child), id)
    decreases t
  {
    if t.id == x {
      IdsDeleteAll(t.child, id);
    } else {
      DeleteAllKeepsSurvivors(t.child, id, x);
    }
  }

  lemma {:induction false} DeleteAllKeepsSurvivors(cs: seq<Node>, id: string, x: string)
    requires UniqueAll(cs) && x in IdSetAll(DeleteAll(cs, id))
    ensures FindIn(cs, x).Some?
    ensures Ids(FindIn(DeleteAll(cs, id), x).value.child) == Without(Ids(FindIn(cs, x).value.child), id)
    decreases cs
  {
    if cs[0].id == id {
      DeleteAllKeepsSurvivors(cs[1..], id, x);
    } else {
      var r := DeleteAll(cs, id);
      assert r[0] == DeleteNodeRecursive(cs[0], id);
      assert r[1..] == DeleteAll(cs[1..], id);
      if x in IdSet(r[0]) {
        DeleteKeepsSurvivors(cs[0], id, x);
      } else {
        DeleteAllKeepsSurvivors(cs[1..], id, x);
      }
    }
  }

  /**
   * A root with no children; add a child c1 under it, retitle c1 "Hi", then
   * delete c1: the root ends with no children again.
   */
  lemma AddUpdateDeleteScenario(root: Node, c1: string)
    requires root.id == RootId && root.child == [] && c1 != RootId
    ensures var t1 := AddChildRecursive(root, RootId, c1);
            var t2 := UpdateNodeRecursive(t1, c1, Patch(Some("Hi"), None));
            |t1.child| == 1 && t1.child[0].id == c1 &&
            FindNodeById(t2, c1).Some? && FindNodeById(t2, c1).value.title == "Hi" &&
            DeleteNodeRecursive(t2, c1).child == []
  {
    var p := Patch(Some("Hi"), None);
    var t1 := AddChildRecursive(root, RootId, c1);
    var t2 := UpdateNodeRecursive(t1, c1, p);
    assert t1.child == [GenerateNode(c1)];
    assert t1.child[1..] == [];
    assert UpdateAll(t1.child, c1, p) == [UpdateNodeRecursive(t1.child[0], c1, p)];
    assert t2.child == [Patched(GenerateNode(c1), p)];
    assert FindIn(t2.child, c1) == Some(t2.child[0]);
  }
}
