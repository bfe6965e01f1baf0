/**
 * findNodeById (src/app/libs/nodeFindId.ts): depth-first, pre-order search for
 * the first node carrying an id, or `None` (the source's `null`).
 */
module NodeFindId {
  import opened Wrappers
  import opened Tree

  /**
   * A node whose own id matches is returned without looking at its children;
   * otherwise the children are searched in order and the first hit is returned.
   */
  function FindNodeById(t: Node, id: string): (r: Option<Node>)
    ensures t.id == id ==> r == Some(t)
    ensures r.Some? <==> id in IdSet(t)
    ensures r.Some? ==> r.value.id == id && r.value in Flatten(t) && IdSet(r.value) <= IdSet(t)
    decreases t
  {
    if t.id == id then Some(t) else FindIn(t.child, id)
  }

  /** The loop over the children: the first child subtree that yields a node wins. */
  function FindIn(cs: seq<Node>, id: string): (r: Option<Node>)
    ensures r.Some? <==> id in IdSetAll(cs)
    ensures r.Some? ==> r.value.id == id && r.value in FlattenAll(cs) && IdSet(r.value) <= IdSetAll(cs)
    decreases cs
  {
    if cs == [] then None
    else
      var found := FindNodeById(cs[0], id);
      if found.Some? then found else FindIn(cs[1..], id)
  }

  /** Reference definition: the first node of a list that carries `id`. */
  function FirstMatch(s: seq<Node>, id: string): (r: Option<Node>)
    ensures r.Some? <==> exists n :: n in s && n.id == id
    ensures r.Some? ==> exists i :: 0 <= i < |s| && s[i] == r.value && r.value.id == id &&
                                    forall j :: 0 <= j < i ==> s[j].id != id
  {
    if s == [] then None
    else if s[0].id == id then
      Some(s[0])
    else
      var r := FirstMatch(s[1..], id);
      assert forall n :: n in s && n != s[0] ==> n in s[1..];
      if r.Some? then
        var i :| 0 <= i < |s[1..]| && s[1..][i] == r.value && forall j :: 0 <= j < i ==> s[1..][j].id != id;
        assert s[i + 1] == r.value && forall j :: 0 <= j < i + 1 ==> s[j].id != id;
        r
      else
        r
  }

  lemma {:induction false} FirstMatchAppend(a: seq<Node>, b: seq<Node>, id: string)
    ensures FirstMatch(a + b, id) == if FirstMatch(a, id).Some? then FirstMatch(a, id) else FirstMatch(b, id)
    decreases |a|
  {
    if a == [] {
      assert a + b == b;
    } else {
      assert (a + b)[0] == a[0];
      assert (a + b)[1..] == a[1..] + b;
      FirstMatchAppend(a[1..], b, id);
    }
  }

  /**
   * The search visits nodes in pre-order: its result is the first node of the
   * pre-order list that carries `id`, even when ids are not unique.
   */
  lemma {:induction false} FindIsFirstInPreOrder(t: Node, id: string)
    ensures FindNodeById(t, id) == FirstMatch(Flatten(t), id)
    decreases t
  {
    var s := Flatten(t);
    assert s[0] == t && s[1..] == FlattenAll(t.child);
    FindInIsFirst(t.child, id);
  }

  lemma {:induction false} FindInIsFirst(cs: seq<Node>, id: string)
    ensures FindIn(cs, id) == FirstMatch(FlattenAll(cs), id)
    decreases cs
  {
    if cs != [] {
      FindIsFirstInPreOrder(cs[0], id);
      FindInIsFirst(cs[1..], id);
      FirstMatchAppend(Flatten(cs[0]), FlattenAll(cs[1..]), id);
    }
  }
}
