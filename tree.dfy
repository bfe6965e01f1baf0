/**
 * The note tree and the project record (src/hooks/useTree.ts, types `TreeNode`
 * and `Project`), with the measures the rest of the model states its
 * properties in: node count, the set of ids, id uniqueness, the pre-order
 * list of nodes and its outline of (id, title, content) entries.
 */
module Tree {

  /** A note. `child` is the ordered list of sub-notes, each owned by this node. */
  datatype Node = Node(id: string, title: string, content: string, child: seq<Node>)

  /** A project: one tree plus metadata; timestamps are opaque strings. */
  datatype Project = Project(
    id: string,
    name: string,
    description: string,
    tree: Node,
    createdAt: string,
    updatedAt: string)

  /** The reserved id of every project's root note. */
  const RootId: string := "root"

  /** Number of nodes in the tree. */
  function Size(t: Node): (n: nat)
    ensures n >= 1
    decreases t
  {
    1 + SizeAll(t.child)
  }

  function SizeAll(cs: seq<Node>): nat
    decreases cs
  {
    if cs == [] then 0 else Size(cs[0]) + SizeAll(cs[1..])
  }

  /** The ids of a list of nodes, in order. */
  function Ids(cs: seq<Node>): seq<string> {
    if cs == [] then [] else [cs[0].id] + Ids(cs[1..])
  }

  /** Every id that occurs in the tree. */
  function IdSet(t: Node): set<string>
    decreases t
  {
    {t.id} + IdSetAll(t.child)
  }

  function IdSetAll(cs: seq<Node>): set<string>
    decreases cs
  {
    if cs == [] then {} else IdSet(cs[0]) + IdSetAll(cs[1..])
  }

  /** No id occurs twice in the tree. */
  predicate Unique(t: Node)
    decreases t
  {
    t.id !in IdSetAll(t.child) && UniqueAll(t.child)
  }

  /** The trees are each unique and pairwise id-disjoint. */
  predicate UniqueAll(cs: seq<Node>)
    decreases cs
  {
    cs == [] || (Unique(cs[0]) && IdSet(cs[0]) !! IdSetAll(cs[1..]) && UniqueAll(cs[1..]))
  }

  /** A project tree as the store keeps it: rooted at "root", ids unique. */
  predicate WellFormed(t: Node) {
    t.id == RootId && Unique(t)
  }

  /** All nodes in pre-order: the node itself, then each child's nodes in order. */
  function Flatten(t: Node): (r: seq<Node>)
    ensures |r| == Size(t) && r[0] == t
    decreases t
  {
    [t] + FlattenAll(t.child)
  }

  function FlattenAll(cs: seq<Node>): (r: seq<Node>)
    ensures |r| == SizeAll(cs)
    decreases cs
  {
    if cs == [] then [] else Flatten(cs[0]) + FlattenAll(cs[1..])
  }

  lemma {:induction false} FlattenAllAppend(a: seq<Node>, b: seq<Node>)
    ensures FlattenAll(a + b) == FlattenAll(a) + FlattenAll(b)
    decreases |a|
  {
    if a == [] {
      assert a + b == b;
    } else {
      assert (a + b)[0] == a[0];
      assert (a + b)[1..] == a[1..] + b;
      FlattenAllAppend(a[1..], b);
    }
  }

  /**
   * The ids met in the pre-order list are exactly the ids of the tree.
   */
  lemma {:induction false} FlattenIds(t: Node)
    ensures forall n :: n in Flatten(t) ==> n.id in IdSet(t)
    ensures forall x :: x in IdSet(t) ==> exists n :: n in Flatten(t) && n.id == x
    decreases t
  {
    FlattenAllIds(t.child);
  }

  lemma {:induction false} FlattenAllIds(cs: seq<Node>)
    ensures forall n :: n in FlattenAll(cs) ==> n.id in IdSetAll(cs)
    ensures forall x :: x in IdSetAll(cs) ==> exists n :: n in FlattenAll(cs) && n.id == x
    decreases cs
  {
    if cs != [] {
      FlattenIds(cs[0]);
      FlattenAllIds(cs[1..]);
    }
  }

  /** The user-visible fields of one node. */
  datatype Info = Info(id: string, title: string, content: string)

  function InfoOf(n: Node): Info {
    Info(n.id, n.title, n.content)
  }

  /** The fields of every node, in pre-order. */
  function Outline(t: Node): (r: seq<Info>)
    ensures |r| == Size(t) && r[0] == InfoOf(t)
    decreases t
  {
    [InfoOf(t)] + OutlineAll(t.child)
  }

  function OutlineAll(cs: seq<Node>): (r: seq<Info>)
    ensures |r| == SizeAll(cs)
    decreases cs
  {
    if cs == [] then [] else Outline(cs[0]) + OutlineAll(cs[1..])
  }

  /** The entries of the outline carry exactly the tree's ids. */
  lemma {:induction false} OutlineIds(t: Node)
    ensures forall e :: e in Outline(t) ==> e.id in IdSet(t)
    decreases t
  {
    OutlineAllIds(t.child);
  }

  lemma {:induction false} OutlineAllIds(cs: seq<Node>)
    ensures forall e :: e in OutlineAll(cs) ==> e.id in IdSetAll(cs)
    decreases cs
  {
    if cs != [] {
      OutlineIds(cs[0]);
      OutlineAllIds(cs[1..]);
    }
  }

  /** Two trees with the same ids arranged the same way; titles and contents may differ. */
  predicate SameShape(a: Node, b: Node)
    decreases a
  {
    a.id == b.id && SameShapeAll(a.child, b.child)
  }

  predicate SameShapeAll(xs: seq<Node>, ys: seq<Node>)
    decreases xs
  {
    |xs| == |ys| && (xs == [] || (SameShape(xs[0], ys[0]) && SameShapeAll(xs[1..], ys[1..])))
  }

  /** With unique ids, the number of distinct ids is the number of nodes. */
  lemma {:induction false} UniqueCount(t: Node)
    requires Unique(t)
    ensures |IdSet(t)| == Size(t)
    decreases t
  {
    UniqueAllCount(t.child);
  }

  lemma {:induction false} UniqueAllCount(cs: seq<Node>)
    requires UniqueAll(cs)
    ensures |IdSetAll(cs)| == SizeAll(cs)
    decreases cs
  {
    if cs != [] {
      UniqueCount(cs[0]);
      UniqueAllCount(cs[1..]);
    }
  }

  lemma {:induction false} SameShapeRefl(t: Node)
    ensures SameShape(t, t)
    decreases t
  {
    SameShapeAllRefl(t.child);
  }

  lemma {:induction false} SameShapeAllRefl(cs: seq<Node>)
    ensures SameShapeAll(cs, cs)
    decreases cs
  {
    if cs != [] {
      SameShapeRefl(cs[0]);
      SameShapeAllRefl(cs[1..]);
    }
  }

  /** Trees of the same shape have the same ids, the same size and the same uniqueness. */
  lemma {:induction false} SameShapeMeasures(a: Node, b: Node)
    requires SameShape(a, b)
    ensures IdSet(a) == IdSet(b) && Size(a) == Size(b) && (Unique(a) <==> Unique(b))
    decreases a
  {
    SameShapeAllMeasures(a.child, b.child);
  }

  lemma {:induction false} SameShapeAllMeasures(xs: seq<Node>, ys: seq<Node>)
    requires SameShapeAll(xs, ys)
    ensures IdSetAll(xs) == IdSetAll(ys) && SizeAll(xs) == SizeAll(ys)
    ensures UniqueAll(xs) <==> UniqueAll(ys)
    decreases xs
  {
    if xs != [] {
      SameShapeMeasures(xs[0], ys[0]);
      SameShapeAllMeasures(xs[1..], ys[1..]);
    }
  }

  lemma {:induction false} IdSetAllAppend(a: seq<Node>, b: seq<Node>)
    ensures IdSetAll(a + b) == IdSetAll(a) + IdSetAll(b)
    decreases |a|
  {
    if a == [] {
      assert a + b == b;
    } else {
      assert (a + b)[0] == a[0];
      assert (a + b)[1..] == a[1..] + b;
      IdSetAllAppend(a[1..], b);
    }
  }

  lemma {:induction false} SizeAllAppend(a: seq<Node>, b: seq<Node>)
    ensures SizeAll(a + b) == SizeAll(a) + SizeAll(b)
    decreases |a|
  {
    if a == [] {
      assert a + b == b;
    } else {
      assert (a + b)[0] == a[0];
      assert (a + b)[1..] == a[1..] + b;
      SizeAllAppend(a[1..], b);
    }
  }

  /** Two id-disjoint unique forests concatenate to a unique forest. */
  lemma {:induction false} UniqueAllAppend(a: seq<Node>, b: seq<Node>)
    requires UniqueAll(a) && UniqueAll(b) && IdSetAll(a) !! IdSetAll(b)
    ensures UniqueAll(a + b)
    decreases |a|
  {
    if a == [] {
      assert a + b == b;
    } else {
      assert (a + b)[0] == a[0];
      assert (a + b)[1..] == a[1..] + b;
      UniqueAllAppend(a[1..], b);
      IdSetAllAppend(a[1..], b);
    }
  }
}
