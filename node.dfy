/**
 * The node and edge store of the automaton: a trie node with a growable list of
 * outgoing edges (looked up linearly while the trie is being built and by binary
 * search once the edges are sorted) and a growable list of matched patterns that
 * refuses a pattern whose length is already listed.
 *
 * Node pointers are arena indices: an edge names its target by its index in the
 * automaton's list of all nodes, and a failure link is `Some(index)` or `None`.
 */
module AcNode {
  import opened AcTypes

  /** Growth step of a node's matched-pattern list. */
  const ReallocChunkMatchStr: nat := 8

  /** Growth step of a node's outgoing-edge list. */
  const ReallocChunkOutgoing: nat := 8

  /** An outgoing edge: its symbol and the arena index of its target. */
  datatype Edge = Edge(alpha: Alpha, next: nat)

  /** What a node holds, as a value: the automaton keeps one per arena slot. */
  datatype NodeV = NodeV(final: bool, failure: Option<nat>, depth: nat, matched: seq<Str>, outgoing: seq<Edge>)

  /** The value of a node just created: no edges, no patterns, not final, depth 0, no failure link. */
  const FreshNode: NodeV := NodeV(false, None, 0, [], [])

  predicate DistinctAlphas(edges: seq<Edge>) {
    forall i, j :: 0 <= i < j < |edges| ==> edges[i].alpha != edges[j].alpha
  }

  predicate StrictlySorted(edges: seq<Edge>) {
    forall i, j :: 0 <= i < j < |edges| ==> edges[i].alpha < edges[j].alpha
  }

  predicate NonDecreasing(edges: seq<Edge>) {
    forall i, j :: 0 <= i < j < |edges| ==> edges[i].alpha <= edges[j].alpha
  }

  /** Some pattern in `list` has the length of `s` (the duplicate test of the matched list). */
  predicate LengthListed(list: seq<Str>, s: Str) {
    exists i :: 0 <= i < |list| && |list[i].symbols| == |s.symbols|
  }

  /** The matched list after registering each of `list` in turn: a pattern whose length is listed already is skipped. */
  function RegisterEach(matched: seq<Str>, list: seq<Str>): seq<Str>
    decreases |list|
  {
    if list == [] then matched
    else
      var pre := RegisterEach(matched, list[..|list| - 1]);
      if LengthListed(pre, list[|list| - 1]) then pre else pre + [list[|list| - 1]]
  }

  /** The target of the first edge labelled `alpha`, if any. */
  function Find(edges: seq<Edge>, alpha: Alpha): Option<nat> {
    if edges == [] then None
    else if edges[0].alpha == alpha then Some(edges[0].next)
    else Find(edges[1..], alpha)
  }

  /** `Find` answers `None` exactly when no edge carries `alpha`, and otherwise the target of the first such edge. */
  lemma {:induction false} FindIsFirstMatch(edges: seq<Edge>, alpha: Alpha)
    ensures Find(edges, alpha).None? <==> forall i :: 0 <= i < |edges| ==> edges[i].alpha != alpha
    ensures Find(edges, alpha).Some? ==>
              exists i :: 0 <= i < |edges| && edges[i] == Edge(alpha, Find(edges, alpha).value) &&
                          forall j :: 0 <= j < i ==> edges[j].alpha != alpha
  {
    if edges != [] && edges[0].alpha != alpha {
      var rest := edges[1..];
      FindIsFirstMatch(rest, alpha);
      if Find(rest, alpha).Some? {
        var i :| 0 <= i < |rest| && rest[i] == Edge(alpha, Find(rest, alpha).value) &&
                 forall j :: 0 <= j < i ==> rest[j].alpha != alpha;
        assert edges[i + 1] == rest[i];
        forall j | 0 <= j < i + 1
          ensures edges[j].alpha != alpha
        {
          if j > 0 { assert edges[j] == rest[j - 1]; }
        }
      } else {
        forall i | 0 <= i < |edges|
          ensures edges[i].alpha != alpha
        {
          if i > 0 { assert edges[i] == rest[i - 1]; }
        }
      }
    }
  }

  /** With distinct symbols, the first-match lookup is plain membership of the edge. */
  lemma FindDistinct(edges: seq<Edge>, alpha: Alpha, t: nat)
    requires DistinctAlphas(edges)
    ensures Find(edges, alpha) == Some(t) <==> Edge(alpha, t) in edges
  {
    FindIsFirstMatch(edges, alpha);
    if Edge(alpha, t) in edges {
      var k :| 0 <= k < |edges| && edges[k] == Edge(alpha, t);
      var i :| 0 <= i < |edges| && edges[i] == Edge(alpha, Find(edges, alpha).value) &&
               forall j :: 0 <= j < i ==> edges[j].alpha != alpha;
      assert i == k;
    }
  }

  /** Two edge lists with the same edges and distinct symbols answer every lookup alike. */
  lemma FindPermutation(edges: seq<Edge>, edges': seq<Edge>, alpha: Alpha)
    requires DistinctAlphas(edges) && DistinctAlphas(edges')
    requires multiset(edges) == multiset(edges')
    ensures Find(edges, alpha) == Find(edges', alpha)
  {
    FindIsFirstMatch(edges, alpha);
    FindIsFirstMatch(edges', alpha);
    if Find(edges, alpha).Some? {
      var t := Find(edges, alpha).value;
      FindDistinct(edges, alpha, t);
      assert Edge(alpha, t) in multiset(edges');
      FindDistinct(edges', alpha, t);
    } else if Find(edges', alpha).Some? {
      var t := Find(edges', alpha).value;
      FindDistinct(edges', alpha, t);
      assert Edge(alpha, t) in multiset(edges);
      FindDistinct(edges, alpha, t);
    }
  }

  /**
   * The comparator handed to the sort. It never answers 0, and it is negative
   * exactly when the left symbol is below the right one; on equal symbols it
   * answers 1 both ways, so it is a valid comparator only because a node's
   * symbols are distinct.
   */
  function EdgeCompare(l: Edge, r: Edge): (c: int)
    ensures c == 1 || c == -1
    ensures c < 0 <==> l.alpha < r.alpha
  {
    if l.alpha >= r.alpha then 1 else -1
  }

  /** `[h] + rest` keeps the order of `rest` when `h` is not above any of its symbols. */
  lemma ConsOrdered(h: Edge, rest: seq<Edge>)
    ensures NonDecreasing(rest) && (forall k :: 0 <= k < |rest| ==> h.alpha <= rest[k].alpha) ==>
              NonDecreasing([h] + rest)
    ensures StrictlySorted(rest) && (forall k :: 0 <= k < |rest| ==> h.alpha < rest[k].alpha) ==>
              StrictlySorted([h] + rest)
  {
    var r := [h] + rest;
    assert forall k :: 1 <= k < |r| ==> r[k] == rest[k - 1];
  }

  /** Inserts `x` before the first edge that the comparator places after it. */
  function InsertEdge(x: Edge, s: seq<Edge>): seq<Edge> {
    if s == [] then [x]
    else if EdgeCompare(x, s[0]) < 0 then [x] + s
    else [s[0]] + InsertEdge(x, s[1..])
  }

  /** Insertion adds exactly `x` to the edges. */
  lemma {:induction false} InsertEdgeElements(x: Edge, s: seq<Edge>)
    ensures |InsertEdge(x, s)| == |s| + 1
    ensures multiset(InsertEdge(x, s)) == multiset(s) + multiset{x}
  {
    if s != [] && EdgeCompare(x, s[0]) >= 0 {
      InsertEdgeElements(x, s[1..]);
      assert s == [s[0]] + s[1..];
    }
  }

  /** A lower bound on the symbols of `s` and of `x` bounds the symbols after insertion. */
  lemma InsertEdgeAbove(x: Edge, s: seq<Edge>, lo: Alpha, strict: bool)
    requires if strict then lo < x.alpha else lo <= x.alpha
    requires forall k :: 0 <= k < |s| ==> if strict then lo < s[k].alpha else lo <= s[k].alpha
    ensures forall k :: 0 <= k < |InsertEdge(x, s)| ==>
              if strict then lo < InsertEdge(x, s)[k].alpha else lo <= InsertEdge(x, s)[k].alpha
  {
    var r := InsertEdge(x, s);
    InsertEdgeElements(x, s);
    forall k | 0 <= k < |r|
      ensures if strict then lo < r[k].alpha else lo <= r[k].alpha
    {
      assert r[k] in multiset(r);
      if r[k] != x {
        var j :| 0 <= j < |s| && s[j] == r[k];
      }
    }
  }

  /** Insertion into an ascending list keeps it ascending, and strictly so when `x`'s symbol is new. */
  lemma {:induction false} InsertEdgeOrdered(x: Edge, s: seq<Edge>)
    ensures NonDecreasing(s) ==> NonDecreasing(InsertEdge(x, s))
    ensures StrictlySorted(s) && (forall k :: 0 <= k < |s| ==> s[k].alpha != x.alpha) ==>
              StrictlySorted(InsertEdge(x, s))
  {
    if s == [] {
    } else if EdgeCompare(x, s[0]) < 0 {
      ConsOrdered(x, s);
    } else {
      var t := s[1..];
      var rest := InsertEdge(x, t);
      assert InsertEdge(x, s) == [s[0]] + rest;
      InsertEdgeOrdered(x, t);
      if NonDecreasing(s) {
        assert forall k :: 0 <= k < |t| ==> s[0].alpha <= t[k].alpha by {
          forall k | 0 <= k < |t| ensures s[0].alpha <= t[k].alpha { assert t[k] == s[k + 1]; }
        }
        InsertEdgeAbove(x, t, s[0].alpha, false);
        ConsOrdered(s[0], rest);
      }
      if StrictlySorted(s) && (forall k :: 0 <= k < |s| ==> s[k].alpha != x.alpha) {
        assert s[0].alpha != x.alpha;
        assert forall k :: 0 <= k < |t| ==> s[0].alpha < t[k].alpha && t[k].alpha != x.alpha by {
          forall k | 0 <= k < |t| ensures s[0].alpha < t[k].alpha && t[k].alpha != x.alpha { assert t[k] == s[k + 1]; }
        }
        InsertEdgeAbove(x, t, s[0].alpha, true);
        ConsOrdered(s[0], rest);
      }
    }
  }

  /** Insertion sort with `EdgeCompare`, the order the sort leaves the edges in. */
  function SortedEdges(s: seq<Edge>): seq<Edge> {
    if s == [] then [] else InsertEdge(s[0], SortedEdges(s[1..]))
  }

  /** Sorting permutes the edges: same multiset of symbol/target pairs, same degree. */
  lemma {:induction false} SortedEdgesElements(s: seq<Edge>)
    ensures |SortedEdges(s)| == |s|
    ensures multiset(SortedEdges(s)) == multiset(s)
  {
    if s != [] {
      SortedEdgesElements(s[1..]);
      InsertEdgeElements(s[0], SortedEdges(s[1..]));
      assert s == [s[0]] + s[1..];
      assert multiset(s) == multiset{s[0]} + multiset(s[1..]);
    }
  }

  /** Sorting leaves the edges ascending by symbol, and strictly ascending when the symbols are distinct. */
  lemma {:induction false} SortedEdgesOrdered(s: seq<Edge>)
    ensures NonDecreasing(SortedEdges(s))
    ensures DistinctAlphas(s) ==> StrictlySorted(SortedEdges(s))
  {
    if s != [] {
      var rest := SortedEdges(s[1..]);
      SortedEdgesOrdered(s[1..]);
      SortedEdgesElements(s[1..]);
      InsertEdgeOrdered(s[0], rest);
      if DistinctAlphas(s) {
        forall k | 0 <= k < |rest|
          ensures rest[k].alpha != s[0].alpha
        {
          assert rest[k] in multiset(s[1..]);
          var j :| 0 <= j < |s[1..]| && s[1..][j] == rest[k];
          assert s[j + 1] == rest[k];
        }
      }
    }
  }

  /** A trie node, updated in place by the automaton while patterns are added and while it is closed. */
  class Node {
    var final: bool
    var failure: Option<nat>
    var depth: nat
    var matched: seq<Str>
    var matchedMax: nat
    var outgoing: seq<Edge>
    var outgoingMax: nat

    /** Each list stays within its allocated capacity. */
    ghost predicate Valid()
      reads this
    {
      |matched| <= matchedMax && |outgoing| <= outgoingMax
    }

    function Value(): NodeV
      reads this
    {
      NodeV(final, failure, depth, matched, outgoing)
    }

    /** A fresh node: empty lists with one chunk of capacity each. */
    constructor ()
      ensures Valid() && Value() == FreshNode
      ensures matchedMax == ReallocChunkMatchStr && outgoingMax == ReallocChunkOutgoing
    {
      final := false;
      failure := None;
      depth := 0;
      matched := [];
      matchedMax := ReallocChunkMatchStr;
      outgoing := [];
      outgoingMax := ReallocChunkOutgoing;
    }

    /** Linear lookup, used while the edges are still in insertion order. */
    method FindNext(alpha: Alpha) returns (r: Option<nat>)
      ensures r == Find(outgoing, alpha)
    {
      var i := 0;
      while i < |outgoing|
        invariant 0 <= i <= |outgoing|
        invariant Find(outgoing[i..], alpha) == Find(outgoing, alpha)
      {
        if outgoing[i].alpha == alpha {
          return Some(outgoing[i].next);
        }
        assert outgoing[i..][1..] == outgoing[i + 1..];
        i := i + 1;
      }
      return None;
    }

    /**
     * Binary search over the edges. Whatever the order, a target it returns is
     * that of an edge labelled `alpha`; on strictly ascending edges it agrees with
     * the linear lookup. With no edges the upper bound starts at -1 and the answer is `None`.
     */
    method FindBsNext(alpha: Alpha) returns (r: Option<nat>)
      ensures r.Some? ==> Edge(alpha, r.value) in outgoing
      ensures StrictlySorted(outgoing) ==> r == Find(outgoing, alpha)
    {
      var min: int, max: int := 0, |outgoing| - 1;
      while min <= max
        invariant 0 <= min <= max + 1 <= |outgoing|
        invariant StrictlySorted(outgoing) ==>
                    forall k :: 0 <= k < |outgoing| && outgoing[k].alpha == alpha ==> min <= k <= max
      {
        // (min + max) >> 1 in the source: both bounds are non-negative here
        var mid := (min + max) / 2;
        var amid := outgoing[mid].alpha;
        if alpha > amid {
          min := mid + 1;
        } else if alpha < amid {
          max := mid - 1;
        } else {
          if StrictlySorted(outgoing) {
            FindDistinct(outgoing, alpha, outgoing[mid].next);
          }
          return Some(outgoing[mid].next);
        }
      }
      FindIsFirstMatch(outgoing, alpha);
      return None;
    }

    /**
     * The duplicate test of the matched list. The symbol comparison only
     * continues its own inner loop, so the answer depends on lengths alone.
     */
    method HasMatchStr(newstr: Str) returns (has: bool)
      ensures has <==> LengthListed(matched, newstr)
    {
      var i := 0;
      while i < |matched|
        invariant 0 <= i <= |matched|
        invariant forall k :: 0 <= k < i ==> |matched[k].symbols| != |newstr.symbols|
      {
        var str := matched[i];
        if |str.symbols| != |newstr.symbols| {
          i := i + 1;
          continue;
        }
        var j := 0;
        while j < |str.symbols|
          invariant 0 <= j <= |str.symbols|
        {
          if str.symbols[j] != newstr.symbols[j] {
            j := j + 1;
            continue;
          }
          j := j + 1;
        }
        if j == |str.symbols| {
          return true;
        }
        i := i + 1;
      }
      return false;
    }

    /**
     * Adds an edge labelled `alpha` to a fresh node that the caller will place at
     * arena index `slot`; answers `null` and changes nothing when such an edge exists.
     */
    method CreateNext(alpha: Alpha, slot: nat) returns (next: Node?)
      requires Valid()
      modifies this
      ensures Valid() && matchedMax == old(matchedMax)
      ensures Find(old(outgoing), alpha).Some? ==>
                next == null && Value() == old(Value()) && outgoingMax == old(outgoingMax)
      ensures Find(old(outgoing), alpha).None? ==>
                && next != null && fresh(next) && next.Valid() && next.Value() == FreshNode
                && Value() == old(Value()).(outgoing := old(outgoing) + [Edge(alpha, slot)])
                && outgoingMax == (if old(|outgoing|) >= old(outgoingMax) then old(outgoingMax) + ReallocChunkOutgoing else old(outgoingMax))
    {
      var existing := FindNext(alpha);
      if existing.Some? {
        return null;
      }
      next := new Node();
      RegisterOutgoing(slot, alpha);
    }

    /** Appends `str` to the matched list unless a pattern of its length is already listed. */
    method RegisterMatchStr(str: Str)
      requires Valid()
      modifies this
      ensures Valid() && outgoingMax == old(outgoingMax)
      ensures LengthListed(old(matched), str) ==> Value() == old(Value()) && matchedMax == old(matchedMax)
      ensures !LengthListed(old(matched), str) ==>
                && Value() == old(Value()).(matched := old(matched) + [str])
                && matchedMax == (if old(|matched|) >= old(matchedMax) then old(matchedMax) + ReallocChunkMatchStr else old(matchedMax))
    {
      var has := HasMatchStr(str);
      if has {
        return;
      }
      if |matched| >= matchedMax {
        matchedMax := matchedMax + ReallocChunkMatchStr;
      }
      matched := matched + [str];
    }

    /** Appends the edge `alpha -> next` at index `|outgoing|`, growing the capacity by one chunk when full. */
    method RegisterOutgoing(next: nat, alpha: Alpha)
      requires Valid()
      modifies this
      ensures Valid() && matchedMax == old(matchedMax)
      ensures Value() == old(Value()).(outgoing := old(outgoing) + [Edge(alpha, next)])
      ensures outgoingMax == (if old(|outgoing|) >= old(outgoingMax) then old(outgoingMax) + ReallocChunkOutgoing else old(outgoingMax))
    {
      if |outgoing| >= outgoingMax {
        outgoingMax := outgoingMax + ReallocChunkOutgoing;
      }
      outgoing := outgoing + [Edge(alpha, next)];
    }

    /** Sorts the edges by symbol with `EdgeCompare`; see `SortedEdges` for what the order is. */
    method SortEdges()
      requires Valid()
      modifies this
      ensures Valid() && outgoingMax == old(outgoingMax) && matchedMax == old(matchedMax)
      ensures Value() == old(Value()).(outgoing := SortedEdges(old(outgoing)))
    {
      SortedEdgesElements(outgoing);
      outgoing := SortedEdges(outgoing);
    }
  }
}
