/**
 * The automaton object: the node arena, the open phase in which patterns are
 * added, locating the failure links that closes it, and the resumable search.
 * Nodes live in `allNodes` and refer to each other by arena index; the ghost
 * fields mirror the arena as values (`view`) and explain it (`paths`,
 * `parent`, `patterns`, `ends`, see the `Trie` module).
 */
module AhoCorasick {
  import opened AcTypes
  import opened AcNode
  import opened Trie
  import opened Scanning
  import opened Matching

  /** Growth step of the capacity of `allNodes`. */
  const ReallocChunkAllNodes: nat := 200

  class Automaton {
    var root: Node
    var allNodes: seq<Node>
    var allNodesMax: nat
    /** The last match handed to the callback. */
    var matchRecord: Match
    var matchCallback: Callback
    /** Set from initialisation until the failure links are located. */
    var acceptStrings: bool
    /** Search state kept between calls: the current node and the symbols consumed so far. */
    var currentNode: nat
    var basePosition: nat
    var totalStrings: nat

    ghost var view: seq<NodeV>
    ghost var paths: seq<seq<Alpha>>
    ghost var parent: seq<nat>
    ghost var patterns: seq<Str>
    ghost var ends: seq<nat>
    /** The symbols consumed by the searches since the last reset. */
    ghost var history: seq<Alpha>

    /** Node object `i` is within capacity and equal to its value in `view`. */
    ghost predicate MirrorAt(i: nat)
      reads this`allNodes, this`view, if i < |allNodes| then {allNodes[i]} else {}
    {
      i < |allNodes| && i < |view| && allNodes[i].Valid() && allNodes[i].Value() == view[i]
    }

    /** The node objects are distinct and each mirrors its value. */
    ghost predicate Mirrors()
      reads this`allNodes, this`view, allNodes
    {
      && |allNodes| == |view|
      && (forall i, j :: 0 <= i < j < |allNodes| ==> allNodes[i] != allNodes[j])
      && (forall i :: 0 <= i < |allNodes| ==> MirrorAt(i))
    }

    /** The arena: a trie of the added patterns, rooted at `root`. */
    ghost predicate Arena()
      reads this`allNodes, this`view, this`root, this`allNodesMax, this`paths, this`parent
      reads this`patterns, this`ends, this`totalStrings, allNodes
    {
      && Mirrors()
      && |allNodes| >= 1 && allNodes[Root] == root && |allNodes| <= allNodesMax
      && Shape(view, paths, parent) && PatternsIn(paths, patterns, ends)
      && totalStrings == |patterns|
    }

    /** The invariant of every phase: the arena, and a current node inside it. */
    ghost predicate Consistent()
      reads this`allNodes, this`view, this`root, this`allNodesMax, this`paths, this`parent
      reads this`patterns, this`ends, this`currentNode, this`totalStrings, allNodes
    {
      Arena() && currentNode < |view|
    }

    /**
     * The search state explained: `basePosition` counts the consumed symbols;
     * while patterns are accepted nothing has been searched, and once closed
     * the current node spells the longest suffix of the consumed symbols that
     * any node spells.
     */
    ghost predicate Tracking()
      reads this`history, this`basePosition, this`acceptStrings, this`currentNode, this`paths
    {
      && |history| == basePosition
      && (acceptStrings ==> history == [] && currentNode == Root)
      && (!acceptStrings ==> Longest(paths, history, currentNode))
    }

    /** Between public calls: open while patterns are accepted, closed afterwards. */
    ghost predicate Valid()
      reads this`allNodes, this`view, this`root, this`allNodesMax, this`paths, this`parent
      reads this`patterns, this`ends, this`currentNode, this`totalStrings, this`acceptStrings, allNodes
      reads this`history, this`basePosition
    {
      && Consistent()
      && (acceptStrings ==> Open(view, paths, patterns))
      && (!acceptStrings ==> Closed(view, paths, patterns))
      && Tracking()
    }

    /** A root alone, accepting patterns, with the search state at the root. */
    constructor (mc: Callback)
      ensures Valid() && fresh(root)
      ensures allNodes == [root] && view == [FreshNode] && patterns == []
      ensures allNodesMax == ReallocChunkAllNodes && matchCallback == mc
      ensures acceptStrings && currentNode == Root && basePosition == 0 && totalStrings == 0
    {
      root := new Node();
      allNodes := [];
      allNodesMax := ReallocChunkAllNodes;
      matchRecord := Match(0, []);
      matchCallback := mc;
      currentNode := Root;
      basePosition := 0;
      // Both counters start zeroed and the flag raised; no step below reads them.
      totalStrings := 0;
      acceptStrings := true;
      view, paths, parent, patterns, ends, history := [FreshNode], [[]], [Root], [], [], [];
      new;
      RegisterNodePtr(root);
      RootAlone();
      assert Consistent();
      Reset();
    }

    /** Puts the search state back at the root with nothing consumed. */
    method Reset()
      requires Consistent()
      modifies this`currentNode, this`basePosition, this`history
      ensures Consistent() && currentNode == Root && basePosition == 0 && history == []
      ensures Tracking()
    {
      currentNode := Root;
      basePosition := 0;
      history := [];
      LongestEmpty(view, paths, parent);
    }

    /** Appends `node` to the arena, growing the capacity by one chunk when it is full. */
    method RegisterNodePtr(node: Node)
      modifies this`allNodes, this`allNodesMax
      ensures allNodes == old(allNodes) + [node]
      ensures allNodesMax == if old(|allNodes|) >= old(allNodesMax) then old(allNodesMax) + ReallocChunkAllNodes else old(allNodesMax)
    {
      if |allNodes| >= allNodesMax {
        allNodesMax := allNodesMax + ReallocChunkAllNodes;
      }
      allNodes := allNodes + [node];
    }
 
    /**
     * Adds one pattern. A closed automaton, an empty pattern and one longer than
     * the maximum are refused, in that order, before anything is touched; otherwise
     * the symbols are walked from the root, the missing nodes created along the
     * way, and the last node, unless it is already final, is marked final with the
     * pattern as its matched list.
     */
    method AddString(str: Str) returns (err: AcError)
      requires Valid()
      modifies this`allNodes, this`allNodesMax, this`totalStrings, this`view, this`paths, this`parent,
               this`patterns, this`ends, allNodes
      ensures Valid()
      ensures err == (if !old(acceptStrings) then StringClosed
                      else if |str.symbols| == 0 then ZeroString
                      else if |str.symbols| > MaxPatternLength then LongString
                      else if exists k :: 0 <= k < |old(patterns)| && old(patterns)[k].symbols == str.symbols then DuplicateString
                      else NoError)
      ensures err != NoError ==> unchanged(this) && unchanged(old(allNodes))
      ensures err == NoError ==>
                && patterns == old(patterns) + [str] && totalStrings == old(totalStrings) + 1
                && |view| >= old(|view|) && paths[..old(|paths|)] == old(paths)
                && allNodes[..old(|allNodes|)] == old(allNodes)
                && (forall v :: old(|allNodes|) <= v < |allNodes| ==> fresh(allNodes[v]))
                && (forall v :: old(|view|) <= v < |view| ==> paths[v] <= str.symbols)
                && (forall k :: 0 <= k <= |str.symbols| ==> exists v :: 0 <= v < |view| && paths[v] == str.symbols[..k])
    {
      if !acceptStrings {
        return StringClosed;
      }
      if |str.symbols| == 0 {
        return ZeroString;
      }
      if |str.symbols| > MaxPatternLength {
        return LongString;
      }
      var n := WalkCreating(str);
      forall k | 0 <= k <= |str.symbols|
        ensures exists v :: 0 <= v < |view| && paths[v] == str.symbols[..k]
      {
        var t := AncestorAt(view, paths, parent, n, k);
      }
      FinalIffPattern(view, paths, patterns, n);
      assert MirrorAt(n);
      if allNodes[n].final {
        return DuplicateString;
      }
      MarkFinal(n, str);
      return NoError;
    }

    /**
     * The walk of `AddString`: follows `str` from the root, creating the missing
     * nodes, and returns the node that spells it. Nothing changes when `str`
     * is already a pattern.
     */
    method WalkCreating(str: Str) returns (n: nat)
      requires Valid() && acceptStrings && |str.symbols| <= MaxPatternLength
      modifies this`allNodes, this`allNodesMax, this`view, this`paths, this`parent, allNodes
      ensures Valid() && n < |view| && paths[n] == str.symbols
      ensures |view| >= old(|view|) && paths[..old(|paths|)] == old(paths)
      ensures allNodes[..old(|allNodes|)] == old(allNodes)
      ensures forall v :: old(|allNodes|) <= v < |allNodes| ==> fresh(allNodes[v])
      ensures forall v :: old(|view|) <= v < |view| ==> paths[v] <= str.symbols
      ensures (exists k :: 0 <= k < |patterns| && patterns[k].symbols == str.symbols) ==>
                unchanged(this) && unchanged(old(allNodes))
    {
      ghost var dup := exists k :: 0 <= k < |patterns| && patterns[k].symbols == str.symbols;
      n := Root;
      var i := 0;
      while i < |str.symbols|
        invariant 0 <= i <= |str.symbols|
        invariant Valid() && acceptStrings
        invariant n < |view| && paths[n] == str.symbols[..i]
        invariant |view| >= old(|view|) && paths[..old(|paths|)] == old(paths)
        invariant allNodes[..old(|allNodes|)] == old(allNodes)
        invariant forall v :: old(|allNodes|) <= v < |allNodes| ==> fresh(allNodes[v])
        invariant forall v :: old(|view|) <= v < |view| ==> paths[v] <= str.symbols[..i]
        invariant dup ==> unchanged(this) && unchanged(old(allNodes))
      {
        if dup {
          var k :| 0 <= k < |patterns| && patterns[k].symbols == str.symbols;
          PatternStep(view, paths, parent, patterns, ends, k, n, i);
        }
        n := Step(n, str.symbols[i]);
        assert str.symbols[..i + 1] == str.symbols[..i] + [str.symbols[i]];
        i := i + 1;
      }
      assert str.symbols[..i] == str.symbols;
    }

    /** One iteration of the walk in `AddString`: the child of `n` for `alpha`, created when missing. */
    method Step(n: nat, alpha: Alpha) returns (next: nat)
      requires Valid() && acceptStrings
      requires n < |view| && |paths[n]| < MaxPatternLength
      modifies this`allNodes, this`allNodesMax, this`view, this`paths, this`parent, allNodes[n]
      ensures Valid() && next < |view| && paths[next] == old(paths[n]) + [alpha]
      ensures Find(old(view[n].outgoing), alpha).Some? ==> unchanged(this) && unchanged(old(allNodes))
      ensures |view| >= old(|view|) && paths[..old(|paths|)] == old(paths)
      ensures allNodes[..old(|allNodes|)] == old(allNodes)
      ensures forall v :: old(|allNodes|) <= v < |allNodes| ==> fresh(allNodes[v]) && paths[v] == paths[next]
    {
      assert MirrorAt(n);
      var found := allNodes[n].FindNext(alpha);
      FindChild(view, paths, parent, n, alpha);
      if found.Some? {
        next := found.value;
      } else {
        next := AppendChild(n, alpha);
      }
    }

    /**
     * The creation step of `AddString`: a fresh child of node `n` for `alpha`,
     * one level deeper, registered at the end of the arena.
     */
    method AppendChild(n: nat, alpha: Alpha) returns (child: nat)
      requires Valid() && acceptStrings
      requires n < |view| && Find(view[n].outgoing, alpha).None? && |paths[n]| < MaxPatternLength
      modifies this`allNodes, this`allNodesMax, this`view, this`paths, this`parent, allNodes[n]
      ensures Valid()
      ensures child == old(|allNodes|) && |allNodes| == child + 1 && fresh(allNodes[child])
      ensures allNodes[..child] == old(allNodes)
      ensures view == AddChild(old(view), n, alpha)
      ensures paths == old(paths) + [old(paths[n]) + [alpha]] && parent == old(parent) + [n]
    {
      assert MirrorAt(n);
      AddChildShape(view, paths, parent, n, alpha);
      AddChildOpen(view, paths, parent, patterns, ends, n, alpha);
      var node := allNodes[n].CreateNext(alpha, |allNodes|);
      node.depth := allNodes[n].depth + 1;
      RegisterNodePtr(node);
      view, paths, parent := AddChild(view, n, alpha), paths + [paths[n] + [alpha]], parent + [n];
      child := |allNodes| - 1;
      assert allNodes[..child] == old(allNodes);
      forall i | 0 <= i < |allNodes|
        ensures MirrorAt(i)
      {
        if i < child && i != n {
          assert old(MirrorAt(i)) && allNodes[i] == old(allNodes[i]);
        }
      }
      forall i, j | 0 <= i < j < |allNodes|
        ensures allNodes[i] != allNodes[j]
      {
        if j < child {
          assert allNodes[i] == old(allNodes[i]) && allNodes[j] == old(allNodes[j]);
        }
      }
    }

    /** The success step of `AddString`: node `n`, spelling the new pattern, becomes final with it as its matched list. */
    method MarkFinal(n: nat, str: Str)
      requires Valid() && acceptStrings
      requires n < |view| && paths[n] == str.symbols && !view[n].final && 1 <= |str.symbols| <= MaxPatternLength
      modifies this`totalStrings, this`view, this`patterns, this`ends, allNodes[n]
      ensures Valid()
      ensures view == old(view)[n := old(view[n]).(final := true, matched := [str])]
      ensures patterns == old(patterns) + [str] && ends == old(ends) + [n] && totalStrings == old(totalStrings) + 1
    {
      assert MirrorAt(n);
      AddPatternOpen(view, paths, parent, patterns, ends, n, str);
      assert OpenAt(view, paths, patterns, n);
      allNodes[n].final := true;
      allNodes[n].RegisterMatchStr(str);
      totalStrings := totalStrings + 1;
      view := view[n := view[n].(final := true, matched := [str])];
      patterns := patterns + [str];
      ends := ends + [n];
      forall i | 0 <= i < |allNodes|
        ensures MirrorAt(i)
      {
        if i != n {
          assert old(MirrorAt(i)) && allNodes[i] == old(allNodes[i]);
        }
      }
    }

    /**
     * Closes the automaton: a depth-first traversal from the root sets every
     * failure link, then each node in arena order receives the patterns of
     * its failure chain and has its edges sorted, and no more patterns are
     * accepted.
     */
    method LocateFailure()
      requires Valid()
      modifies this`view, this`acceptStrings, allNodes
      ensures Valid() && !acceptStrings && Closed(view, paths, patterns)
      ensures |view| == old(|view|)
      ensures forall v :: 0 <= v < |view| ==> view[v].outgoing == SortedEdges(old(view[v].outgoing))
    {
      ghost var g0 := view;
      LinkAll();
      ghost var g1 := view;
      ClosingStart(g0, g1, paths, parent, patterns);
      CloseNodes(g1);
      Seal();
    }

    /** Lowers the flag once the links are located: no more patterns, searches allowed. */
    method Seal()
      requires Consistent() && Closed(view, paths, patterns) && Tracking()
      modifies this`acceptStrings
      ensures Valid() && !acceptStrings
    {
      LongestEmpty(view, paths, parent);
      acceptStrings := false;
    }

    /** The depth-first traversal from the root that sets the failure link of every other node. */
    method LinkAll()
      requires Consistent() && (Open(view, paths, patterns) || Closed(view, paths, patterns))
      modifies this`view, allNodes
      ensures Consistent() && LinkedWhere(old(view), view, paths, Below(paths, Root))
    {
      var alphas := new Alpha[MaxPatternLength];
      LinksBeforeSearch(view, paths, parent, patterns);
      DfsTraverse(Root, alphas);
    }

    /** The loop over all nodes: each receives what its failure chain matches, then has its edges sorted. */
    method CloseNodes(ghost g1: seq<NodeV>)
      requires Consistent() && Shape(g1, paths, parent) && LinksComplete(g1, paths) && ChainOk(g1, paths)
      requires Closing(g1, view, paths, patterns, 0)
      modifies this`view, allNodes
      ensures Consistent() && Closed(view, paths, patterns) && |view| == |g1|
      ensures forall u :: 0 <= u < |view| ==> view[u].outgoing == SortedEdges(g1[u].outgoing)
    {
      var i := 0;
      while i < |allNodes|
        invariant Consistent() && i <= |view|
        invariant Closing(g1, view, paths, patterns, i)
      {
        ClosingStep(g1, view, paths, patterns, i);
        ghost var g := view;
        ghost var r := UnionChain(g, paths, g[i].matched, g[i].final, g[i].failure);
        UnionMatchStrs(i);
        SortNodeEdges(i);
        assert view == g[i := g[i].(matched := r.0, final := r.1, outgoing := SortedEdges(g[i].outgoing))];
        i := i + 1;
      }
      ClosingDone(g1, view, paths, parent, patterns);
    }

    /** Sorts the edges of node `v` in place: the same trie, with `v`'s edges in ascending symbol order. */
    method SortNodeEdges(v: nat)
      requires Consistent() && v < |view|
      modifies this`view, allNodes[v]
      ensures Consistent()
      ensures view == old(view)[v := old(view[v]).(outgoing := SortedEdges(old(view[v].outgoing)))]
    {
      assert MirrorAt(v) && NodeOk(view, paths, parent, v);
      allNodes[v].SortEdges();
      SortedEdgesElements(old(view[v].outgoing));
      SortedEdgesOrdered(old(view[v].outgoing));
      view := view[v := view[v].(outgoing := allNodes[v].outgoing)];
      forall u | 0 <= u < |allNodes|
        ensures MirrorAt(u)
      {
        if u != v {
          assert old(MirrorAt(u));
        }
      }
      forall u | 0 <= u < |view|
        ensures DistinctAlphas(view[u].outgoing)
      {
        assert NodeOk(old(view), paths, parent, u);
      }
      ShapeFrame(old(view), view, paths, parent);
    }

    /**
     * Sets the failure link of node `v`, whose path the first `depth` entries of
     * `alphas` spell: its proper suffixes are walked from the root, longest
     * first, and the first that reaches a node gives the link; when none does
     * and no link is set yet, the root does.
     */
    method SetFailure(v: nat, alphas: array<Alpha>)
      requires Consistent() && 0 < v < |view|
      requires alphas.Length == MaxPatternLength && |paths[v]| <= alphas.Length && alphas[..|paths[v]|] == paths[v]
      modifies this`view, allNodes[v]
      ensures Consistent()
      ensures view == old(view)[v := old(view[v]).(failure := view[v].failure)]
      ensures view[v].failure == FailureAfter(old(view), paths[v], old(view[v].failure))
    {
      assert MirrorAt(v);
      var found := SuffixSearch(v, alphas);
      if found.Some? {
        allNodes[v].failure := found;
      }
      if allNodes[v].failure.None? {
        allNodes[v].failure := Some(Root);
      }
      view := view[v := view[v].(failure := allNodes[v].failure)];
      ShapeSameEdges(old(view), view, paths, parent);
      forall u | 0 <= u < |allNodes|
        ensures MirrorAt(u)
      {
        if u != v {
          assert old(MirrorAt(u)) && allNodes[u] == old(allNodes[u]);
        }
      }
    }

    /** The suffix search of `SetFailure`: the node reached by the longest proper suffix of `v`'s path that walks from the root. */
    method SuffixSearch(v: nat, alphas: array<Alpha>) returns (found: Option<nat>)
      requires Mirrors() && Shape(view, paths, parent) && v < |view|
      requires |paths[v]| <= alphas.Length && alphas[..|paths[v]|] == paths[v]
      ensures found == FirstSuffixNode(view, paths[v], 1)
    {
      ghost var w := paths[v];
      assert MirrorAt(v) && NodeOk(view, paths, parent, v);
      var depth := allNodes[v].depth;
      var i := 1;
      while i < depth
        invariant 1 <= i
        invariant FirstSuffixNode(view, w, i) == FirstSuffixNode(view, w, 1)
      {
        var m := WalkSuffix(alphas, i, depth);
        if m.Some? {
          return m;
        }
        i := i + 1;
      }
      return None;
    }

    /** The inner walk of the suffix search: follows `alphas[i..depth]` from the root while edges exist. */
    method WalkSuffix(alphas: array<Alpha>, i: nat, depth: nat) returns (m: Option<nat>)
      requires Mirrors() && Shape(view, paths, parent) && i <= depth <= alphas.Length
      ensures m == Walk(view, Root, alphas[i..depth])
    {
      m := Some(Root);
      var j := i;
      while j < depth && m.Some?
        invariant i <= j <= depth
        invariant m == Walk(view, Root, alphas[i..j])
        invariant m.Some? ==> m.value < |view|
      {
        assert MirrorAt(m.value);
        FindChild(view, paths, parent, m.value, alphas[j]);
        m := allNodes[m.value].FindNext(alphas[j]);
        assert alphas[i..j + 1][..j - i] == alphas[i..j];
        j := j + 1;
      }
      if m.None? {
        WalkNoneExtends(view, Root, alphas[i..j], alphas[j..depth]);
        assert alphas[i..j] + alphas[j..depth] == alphas[i..depth];
      }
    }

    /**
     * Visits the nodes below `n` depth first, recording each edge symbol in
     * `alphas` at the depth it leads from and setting the failure link of each
     * node reached before descending into it.
     */
    method DfsTraverse(n: nat, alphas: array<Alpha>)
      requires Consistent() && n < |view|
      requires alphas.Length == MaxPatternLength && |paths[n]| <= alphas.Length && alphas[..|paths[n]|] == paths[n]
      requires forall v :: v in Below(paths, n) ==> view[v].failure.None? || IsFailureLink(paths, v, view[v].failure.value)
      modifies this`view, allNodes, alphas
      ensures Consistent()
      ensures LinkedWhere(old(view), view, paths, Below(paths, n))
      ensures alphas[..|paths[n]|] == old(alphas[..|paths[n]|])
      decreases MaxPatternLength - |paths[n]|, 1
    {
      assert MirrorAt(n);
      SubtreeSplit(view, paths, parent, n);
      ghost var g0 := view;
      ghost var done: set<nat> := {};
      var i := 0;
      while i < |allNodes[n].outgoing|
        invariant Consistent() && view[n] == g0[n] && i <= |g0[n].outgoing|
        invariant LinkedWhere(g0, view, paths, done) && done <= Below(paths, n)
        invariant forall j :: 0 <= j < i ==> Subtree(paths, g0[n].outgoing[j].next) <= done
        invariant forall j :: i <= j < |g0[n].outgoing| ==> Subtree(paths, g0[n].outgoing[j].next) !! done
        invariant alphas[..|paths[n]|] == paths[n]
        decreases |g0[n].outgoing| - i
      {
        assert MirrorAt(n);
        ChildSubtrees(view, paths, parent, n, i);
        ghost var g1 := view;
        DfsChild(n, i, alphas);
        LinkedWhereTrans(g0, g1, view, paths, done, Subtree(paths, g0[n].outgoing[i].next));
        done := done + Subtree(paths, g0[n].outgoing[i].next);
        i := i + 1;
      }
      assert MirrorAt(n);
      BelowCovered(g0, paths, parent, n, done);
    }

    /** One turn of the loop of `DfsTraverse`: links the target of `n`'s edge `i`, then everything below it. */
    method DfsChild(n: nat, i: nat, alphas: array<Alpha>)
      requires Consistent() && n < |view| && i < |view[n].outgoing|
      requires alphas.Length == MaxPatternLength && |paths[n]| <= alphas.Length && alphas[..|paths[n]|] == paths[n]
      requires forall v :: v in Subtree(paths, view[n].outgoing[i].next) ==>
                 view[v].failure.None? || IsFailureLink(paths, v, view[v].failure.value)
      modifies this`view, allNodes, alphas
      ensures Consistent()
      ensures LinkedWhere(old(view), view, paths, Subtree(paths, old(view[n].outgoing[i].next)))
      ensures alphas[..|paths[n]|] == old(alphas[..|paths[n]|])
      decreases MaxPatternLength - |paths[n]|, 0
    {
      assert MirrorAt(n) && NodeOk(view, paths, parent, n);
      var e := allNodes[n].outgoing[i];
      assert EdgeOk(view, paths, n, e);
      assert NodeOk(view, paths, parent, e.next);
      ghost var before := alphas[..];
      alphas[allNodes[n].depth] := e.alpha;
      assert alphas[..] == before[|paths[n]| := e.alpha];
      assert alphas[..|paths[e.next]|] == paths[e.next];
      ghost var g0, written := view, alphas[..];
      SetFailure(e.next, alphas);
      FailureAfterIsLink(g0, paths, parent, e.next, g0[e.next].failure);
      ghost var g1 := view;
      DfsTraverse(e.next, alphas);
      LinkedSubtree(g0, g1, view, paths, parent, e.next);
      PrefixKept(before, written, alphas[..], |paths[n]|, |paths[e.next]|);
    }

    /**
     * Adds to node `v`'s matched list every pattern held by the nodes down its
     * failure chain whose length is not listed yet, and makes `v` final when any
     * of those nodes is.
     */
    method UnionMatchStrs(v: nat)
      requires Consistent() && v < |view| && ChainOk(view, paths)
      modifies this`view, allNodes[v]
      ensures Consistent()
      ensures var r := UnionChain(old(view), paths, old(view[v].matched), old(view[v].final), old(view[v].failure));
              view == old(view)[v := old(view[v]).(matched := r.0, final := r.1)]
    {
      ghost var g, ps := view, paths;
      assert MirrorAt(v);
      var node := allNodes[v];
      var m: Option<nat> := node.failure;
      while m.Some?
        modifies node
        invariant node.Valid() && node.Value() == g[v].(final := node.final, matched := node.matched)
        invariant m.Some? ==> m.value < |g| && |ps[m.value]| < |ps[v]|
        invariant UnionChain(g, ps, node.matched, node.final, m) == UnionChain(g, ps, g[v].matched, g[v].final, g[v].failure)
        decreases if m.Some? then |ps[m.value]| + 1 else 0
      {
        var other := allNodes[m.value];
        assert MirrorAt(m.value);
        RegisterAll(node, other);
        if other.final {
          node.final := true;
        }
        m := other.failure;
      }
      view := view[v := node.Value()];
      forall u | 0 <= u < |allNodes|
        ensures MirrorAt(u)
      {
        if u != v {
          assert old(MirrorAt(u));
        }
      }
      ShapeSameEdges(old(view), view, paths, parent);
    }

    /**
     * Searches `text`, resuming from the saved node and position. Refused
     * silently while patterns are still accepted. Each match is recorded and
     * handed to the callback, and a nonzero answer ends the search; the node
     * reached and the number of symbols consumed are saved for the next call.
     * `reports` lists the match records handed to the callback, in order.
     */
    method Search(text: seq<Alpha>, an: int, tn: int) returns (reports: seq<Match>)
      requires Valid()
      modifies this`currentNode, this`basePosition, this`matchRecord, this`history
      ensures Valid()
      ensures old(acceptStrings) ==> reports == [] && unchanged(this)
      ensures !old(acceptStrings) ==>
                && Linked(view, paths)
                && var o := Scan(view, paths, old(currentNode), old(basePosition), text, matchCallback, an, tn);
                && reports == o.reports && currentNode == o.node && basePosition == old(basePosition) + o.consumed
                && matchRecord == (if reports == [] then old(matchRecord) else reports[|reports| - 1])
                && history == old(history) + text[..o.consumed]
                && reports == Occurrences(patterns, old(history), text[..o.consumed])
    {
      reports := [];
      if acceptStrings {
        return;
      }
      reports := SearchClosed(text, an, tn);
    }

    /** `Search` once the failure links are located: the loop, then the saved state. */
    method SearchClosed(text: seq<Alpha>, an: int, tn: int) returns (reports: seq<Match>)
      requires Valid() && !acceptStrings
      modifies this`currentNode, this`basePosition, this`matchRecord, this`history
      ensures Valid() && Linked(view, paths)
      ensures var o := Scan(view, paths, old(currentNode), old(basePosition), text, matchCallback, an, tn);
              && reports == o.reports && currentNode == o.node && basePosition == old(basePosition) + o.consumed
              && matchRecord == (if reports == [] then old(matchRecord) else reports[|reports| - 1])
              && history == old(history) + text[..o.consumed]
              && reports == Occurrences(patterns, old(history), text[..o.consumed])
    {
      ClosedLinked(view, paths, parent, patterns);
      ScanFinds(view, paths, parent, patterns, ends, currentNode, history, text, matchCallback, an, tn);
      var current, position;
      reports, current, position := SearchLoop(currentNode, basePosition, text, an, tn);
      Advance(current, text, position);
    }

    /** Saves the search state after `position` more symbols of `text` were consumed, ending at `current`. */
    method Advance(current: nat, ghost text: seq<Alpha>, position: nat)
      requires Valid() && !acceptStrings && position <= |text|
      requires Longest(paths, history + text[..position], current)
      modifies this`currentNode, this`basePosition, this`history
      ensures Valid() && currentNode == current && basePosition == old(basePosition) + position
      ensures history == old(history) + text[..position]
    {
      currentNode := current;
      basePosition := basePosition + position;
      history := history + text[..position];
    }

    /**
     * The search loop from node `start` with `base` symbols consumed by earlier
     * calls: the node it stops in and how many symbols of `text` it consumed.
     */
    method SearchLoop(start: nat, base: nat, text: seq<Alpha>, an: int, tn: int)
        returns (reports: seq<Match>, current: nat, position: nat)
      requires Mirrors() && Linked(view, paths) && start < |view|
      requires forall v :: 0 <= v < |view| ==> StrictlySorted(view[v].outgoing)
      modifies this`matchRecord
      ensures var o := Scan(view, paths, start, base, text, matchCallback, an, tn);
              reports == o.reports && current == o.node && position == o.consumed
      ensures matchRecord == if reports == [] then old(matchRecord) else reports[|reports| - 1]
    {
      ghost var g, ps, cb := view, paths, matchCallback;
      ghost var o0 := Scan(g, ps, start, base, text, cb, an, tn);
      reports, current, position := [], start, 0;
      assert text[0..] == text;
      while position < |text|
        invariant current < |g| && position <= |text|
        invariant Resumes(g, ps, o0, reports, position, current, base, text, cb, an, tn)
        invariant matchRecord == if reports == [] then old(matchRecord) else reports[|reports| - 1]
        decreases |text| - position, |ps[current]|
      {
        var stop;
        reports, current, position, stop := SearchStep(o0, reports, current, position, base, text, an, tn);
        if stop {
          return;
        }
      }
      ResumesEnd(g, ps, o0, reports, position, current, base, text, matchCallback, an, tn);
    }

    /**
     * One turn of the search loop: take the edge for the next symbol and consume
     * it, reporting a final target; or follow the failure link; or, at the root,
     * skip the symbol. `stop` is the callback's request to end the search.
     */
    method SearchStep(ghost o: Outcome, reports: seq<Match>, current: nat, position: nat, base: nat, text: seq<Alpha>, an: int, tn: int)
        returns (reports': seq<Match>, current': nat, position': nat, stop: bool)
      requires Mirrors() && position < |text| && forall v :: 0 <= v < |view| ==> StrictlySorted(view[v].outgoing)
      requires Linked(view, paths) && Resumes(view, paths, o, reports, position, current, base, text, matchCallback, an, tn)
      modifies this`matchRecord
      ensures stop ==> o == Outcome(reports', current', position', true)
      ensures !stop ==> Resumes(view, paths, o, reports', position', current', base, text, matchCallback, an, tn)
      ensures position < position' || (position' == position && |paths[current']| < |paths[current]|)
      ensures reports' == reports || (reports' == reports + [matchRecord])
      ensures reports' == reports ==> unchanged(this`matchRecord)
      // the edge for the next symbol: consume it, and report exactly when the target is final
      ensures Find(view[current].outgoing, text[position]).Some? ==>
                && current' == Find(view[current].outgoing, text[position]).value && position' == position + 1
                && (reports' != reports <==> view[current'].final)
                && (reports' != reports ==> matchRecord == Match(base + position', view[current'].matched))
      // no edge, a failure link: follow it without consuming or reporting
      ensures Find(view[current].outgoing, text[position]).None? && view[current].failure.Some? ==>
                current' == view[current].failure.value && position' == position && reports' == reports && !stop
      // no edge and no failure link (the root): skip the symbol without reporting
      ensures Find(view[current].outgoing, text[position]).None? && view[current].failure.None? ==>
                current' == current && position' == position + 1 && reports' == reports && !stop
      ensures stop <==> reports' != reports && matchCallback(matchRecord, an, tn) != 0
    {
      ghost var g, ps, cb := view, paths, matchCallback;
      reports', current', position', stop := reports, current, position, false;
      assert MirrorAt(current);
      var next := allNodes[current].FindBsNext(text[position]);
      if next.None? {
        if allNodes[current].failure.Some? {
          ResumesFollow(g, ps, o, reports, position, current, base, text, cb, an, tn);
          current' := allNodes[current].failure.value;
        } else {
          ResumesSkip(g, ps, o, reports, position, current, base, text, cb, an, tn);
          position' := position + 1;
        }
      } else {
        var t := next.value;
        ResumesEdge(g, ps, o, reports, position, current, base, text, cb, an, tn, t);
        ghost var m := Match(base + position + 1, g[t].matched);
        current', position' := t, position + 1;
        assert MirrorAt(t);
        if allNodes[t].final {
          matchRecord := Match(position' + base, allNodes[t].matched);
          assert matchRecord == m;
          reports' := reports + [matchRecord];
          stop := matchCallback(matchRecord, an, tn) != 0;
        }
      }
    }
  }

  /** The inner loop of `UnionMatchStrs`: registers each pattern `other` holds with `node`. */
  method RegisterAll(node: Node, other: Node)
    requires node.Valid() && node != other
    modifies node
    ensures node.Valid() && node.Value() == old(node.Value()).(matched := RegisterEach(old(node.matched), other.matched))
  {
    var i := 0;
    while i < |other.matched|
      invariant i <= |other.matched|
      invariant node.Valid() && node.Value() == old(node.Value()).(matched := RegisterEach(old(node.matched), other.matched[..i]))
    {
      node.RegisterMatchStr(other.matched[i]);
      assert other.matched[..i + 1][..i] == other.matched[..i];
      i := i + 1;
    }
    assert other.matched[..i] == other.matched;
  }
}