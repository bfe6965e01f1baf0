/**
 * The search overlay of src/components/SearchNavigator.tsx: `getAllNodes`,
 * which flattens a tree into an array in pre-order, and the filter that keeps
 * the nodes whose title or content contains the search term, ignoring case.
 */
module SearchNavigator {
  import opened Wrappers
  import opened Tree
  import opened Seqs
  import opened NodeFindId

  /**
   * Start the list with the node itself, then push the nodes of each child's
   * subtree, child by child.
   */
  method GetAllNodes(t: Node) returns (nodes: seq<Node>)
    ensures nodes == Flatten(t)
    ensures |nodes| == Size(t) && nodes[0] == t
    decreases t
  {
    nodes := [t];
    for i := 0 to |t.child|
      invariant nodes == [t] + FlattenAll(t.child[..i])
    {
      var sub := GetAllNodes(t.child[i]);
      assert t.child[..i + 1] == t.child[..i] + [t.child[i]];
      FlattenAllAppend(t.child[..i], [t.child[i]]);
      nodes := nodes + sub;
    }
    assert t.child[..|t.child|] == t.child;
  }

  /** A node with a given id is in the flattened list exactly when findNodeById finds one. */
  lemma AllNodesHaveIdIffFound(t: Node, id: string)
    ensures (exists n :: n in Flatten(t) && n.id == id) <==> FindNodeById(t, id).Some?
  {
    FindIsFirstInPreOrder(t, id);
  }

  /** ASCII lower-casing of one character. */
  function LowerChar(c: char): char {
    if 'A' <= c <= 'Z' then (c as int + 32) as char else c
  }

  function ToLower(s: string): string {
    seq(|s|, i requires 0 <= i < |s| => LowerChar(s[i]))
  }

  /** `needle` occurs in `hay` starting at position `i`. */
  predicate OccursAt(hay: string, needle: string, i: int) {
    0 <= i && i + |needle| <= |hay| && hay[i..i + |needle|] == needle
  }

  /** Substring test: some position of `hay` starts an occurrence of `needle`. */
  function Includes(hay: string, needle: string): (r: bool)
    ensures r <==> exists i :: OccursAt(hay, needle, i)
    decreases |hay|
  {
    if |needle| > |hay| then
      assert forall i :: !OccursAt(hay, needle, i);
      false
    else if hay[..|needle|] == needle then
      assert OccursAt(hay, needle, 0);
      true
    else
      var r := Includes(hay[1..], needle);
      assert forall i :: OccursAt(hay[1..], needle, i) <==> OccursAt(hay, needle, i + 1);
      assert forall i :: OccursAt(hay, needle, i) ==> i == 0 || OccursAt(hay[1..], needle, i - 1);
      r
  }

  /** The search predicate: the lower-cased term occurs in the lower-cased title or content. */
  predicate Matches(n: Node, term: string) {
    Includes(ToLower(n.title), ToLower(term)) || Includes(ToLower(n.content), ToLower(term))
  }

  /** The matching nodes of a list, each as often as it occurs, in their original order. */
  function FilterMatches(s: seq<Node>, term: string): (r: seq<Node>)
    ensures forall n :: n in r <==> n in s && Matches(n, term)
    ensures forall n :: multiset(r)[n] == if Matches(n, term) then multiset(s)[n] else 0
    ensures IsSubseq(r, s)
  {
    if s == [] then []
    else
      assert s == [s[0]] + s[1..];
      if Matches(s[0], term) then [s[0]] + FilterMatches(s[1..], term)
      else FilterMatches(s[1..], term)
  }

  /**
   * The first effect of the search overlay: with a non-empty term and a
   * current tree, the nodes of `getAllNodes` that match, in pre-order; an
   * empty term (or no tree) gives an empty result.
   */
  method FilteredNodes(tree: Option<Node>, searchTerm: string) returns (filtered: seq<Node>)
    ensures |searchTerm| == 0 || tree.None? ==> filtered == []
    ensures tree.Some? && |searchTerm| > 0 ==>
              IsSubseq(filtered, Flatten(tree.value)) &&
              (forall n :: n in filtered <==> n in Flatten(tree.value) && Matches(n, searchTerm)) &&
              forall n :: multiset(filtered)[n] ==
                           if Matches(n, searchTerm) then multiset(Flatten(tree.value))[n] else 0
  {
    if |searchTerm| > 0 && tree.Some? {
      var allNodes := GetAllNodes(tree.value);
      filtered := FilterMatches(allNodes, searchTerm);
    } else {
      filtered := [];
    }
  }
}
