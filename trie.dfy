/**
 * The trie as a value: the arena of node values `g`, together with the ghost
 * bookkeeping that explains it — the symbol path `paths[v]` spelling node `v`
 * from the root, the arena index `parent[v]` of the node it hangs from, the
 * patterns added so far and `ends[k]`, the node where pattern `k` ends.
 *
 * Everything here is stated on values; the automaton keeps its node objects
 * equal to `g` and proves its operations against these definitions.
 */
module Trie {
  import opened AcTypes
  import opened AcNode

  /** The root is the first node registered in the arena. */
  const Root: nat := 0

  predicate IsSuffix(u: seq<Alpha>, w: seq<Alpha>) {
    |u| <= |w| && w[|w| - |u|..] == u
  }

  predicate DistinctSymbols(ps: seq<Str>) {
    forall i, j :: 0 <= i < j < |ps| ==> ps[i].symbols != ps[j].symbols
  }

  /** The added patterns that spell exactly `w`, in insertion order. */
  function Own(ps: seq<Str>, w: seq<Alpha>): seq<Str> {
    if ps == [] then []
    else Own(ps[..|ps| - 1], w) + (if ps[|ps| - 1].symbols == w then [ps[|ps| - 1]] else [])
  }

  /** `Own` holds exactly the patterns that spell `w`, and at most one of them when symbols are distinct. */
  lemma {:induction false} OwnSpec(ps: seq<Str>, w: seq<Alpha>)
    ensures forall x :: x in Own(ps, w) <==> x in ps && x.symbols == w
    ensures DistinctSymbols(ps) ==> |Own(ps, w)| <= 1
    ensures Own(ps, w) == [] <==> forall k :: 0 <= k < |ps| ==> ps[k].symbols != w
  {
    if ps != [] {
      var init := ps[..|ps| - 1];
      OwnSpec(init, w);
      assert ps == init + [ps[|ps| - 1]];
      if DistinctSymbols(ps) && ps[|ps| - 1].symbols == w {
        forall k | 0 <= k < |init|
          ensures init[k].symbols != w
        {
          assert init[k] == ps[k];
        }
      }
    }
  }

  /**
   * Follows first-match edges from `n` along `w`, one symbol at a time from the
   * front; `None` once the walk falls off the trie.
   */
  function Walk(g: seq<NodeV>, n: nat, w: seq<Alpha>): Option<nat>
    decreases |w|
  {
    if w == [] then Some(n)
    else match Walk(g, n, w[..|w| - 1])
      case None => None
      case Some(m) => if m < |g| then Find(g[m].outgoing, w[|w| - 1]) else None
  }

  /** An edge of `v` leads to a node spelled by `v`'s path followed by the edge's symbol. */
  ghost predicate EdgeOk(g: seq<NodeV>, paths: seq<seq<Alpha>>, v: nat, e: Edge) {
    v < |paths| && e.next < |g| && e.next < |paths| && paths[e.next] == paths[v] + [e.alpha]
  }

  /** A non-root node hangs from its parent by an edge labelled with the last symbol of its path. */
  ghost predicate ParentOk(g: seq<NodeV>, paths: seq<seq<Alpha>>, parent: seq<nat>, v: nat) {
    && v < |g| && v < |paths| && v < |parent| && parent[v] < |g| && parent[v] < |paths|
    && |paths[v]| >= 1
    && paths[parent[v]] == paths[v][..|paths[v]| - 1]
    && Edge(paths[v][|paths[v]| - 1], v) in g[parent[v]].outgoing
  }

  /**
   * Node `v` is in place: its depth is its path length (at most the maximum
   * pattern length), its edge symbols are distinct, every edge extends its path
   * by the edge's symbol, and unless it is the root it hangs from its parent.
   */
  ghost predicate NodeOk(g: seq<NodeV>, paths: seq<seq<Alpha>>, parent: seq<nat>, v: nat) {
    && v < |g| && v < |paths| && v < |parent|
    && g[v].depth == |paths[v]| <= MaxPatternLength
    && DistinctAlphas(g[v].outgoing)
    && (forall i :: 0 <= i < |g[v].outgoing| ==> EdgeOk(g, paths, v, g[v].outgoing[i]))
    && (v != Root ==> ParentOk(g, paths, parent, v))
  }

  /** The arena is a trie rooted at index 0, spelling the empty path, with every node in place. */
  ghost predicate Shape(g: seq<NodeV>, paths: seq<seq<Alpha>>, parent: seq<nat>) {
    && |g| >= 1 && |paths| == |g| && |parent| == |g|
    && paths[Root] == []
    && forall v :: 0 <= v < |g| ==> NodeOk(g, paths, parent, v)
  }

  /** Distinct nodes are spelled by distinct paths. */
  lemma {:induction false} PathsInjective(g: seq<NodeV>, paths: seq<seq<Alpha>>, parent: seq<nat>, u: nat, v: nat)
    requires Shape(g, paths, parent) && u < |g| && v < |g|
    requires paths[u] == paths[v]
    ensures u == v
    decreases |paths[v]|
  {
    if u != Root {
      assert NodeOk(g, paths, parent, u);
    }
    if v != Root {
      assert NodeOk(g, paths, parent, v);
    }
    if u != Root && v != Root {
      PathsInjective(g, paths, parent, parent[u], parent[v]);
      var p, a := parent[u], paths[u][|paths[u]| - 1];
      var i :| 0 <= i < |g[p].outgoing| && g[p].outgoing[i] == Edge(a, u);
      var j :| 0 <= j < |g[p].outgoing| && g[p].outgoing[j] == Edge(a, v);
      assert NodeOk(g, paths, parent, p);
    }
  }

  /** Walking from the root along `w` ends at the node spelled by `w`. */
  lemma {:induction false} WalkSound(g: seq<NodeV>, paths: seq<seq<Alpha>>, parent: seq<nat>, w: seq<Alpha>, v: nat)
    requires Shape(g, paths, parent)
    requires Walk(g, Root, w) == Some(v)
    ensures v < |g| && paths[v] == w
    decreases |w|
  {
    if w != [] {
      var init, a := w[..|w| - 1], w[|w| - 1];
      var m := Walk(g, Root, init).value;
      WalkSound(g, paths, parent, init, m);
      FindIsFirstMatch(g[m].outgoing, a);
      var i :| 0 <= i < |g[m].outgoing| && g[m].outgoing[i] == Edge(a, v) &&
               forall j :: 0 <= j < i ==> g[m].outgoing[j].alpha != a;
      assert NodeOk(g, paths, parent, m);
      assert EdgeOk(g, paths, m, g[m].outgoing[i]);
      assert w == init + [a];
    }
  }

  /** Every node is reached by walking its own path from the root. */
  lemma {:induction false} WalkReaches(g: seq<NodeV>, paths: seq<seq<Alpha>>, parent: seq<nat>, v: nat)
    requires Shape(g, paths, parent) && v < |g|
    ensures Walk(g, Root, paths[v]) == Some(v)
    decreases |paths[v]|
  {
    if v != Root {
      assert NodeOk(g, paths, parent, v);
      var p, a := parent[v], paths[v][|paths[v]| - 1];
      WalkReaches(g, paths, parent, p);
      assert NodeOk(g, paths, parent, p);
      FindDistinct(g[p].outgoing, a, v);
    }
  }

  /** A walk from the root resolves exactly on the paths that spell a node. */
  lemma WalkIffPath(g: seq<NodeV>, paths: seq<seq<Alpha>>, parent: seq<nat>, w: seq<Alpha>, v: nat)
    requires Shape(g, paths, parent)
    ensures Walk(g, Root, w) == Some(v) <==> v < |g| && paths[v] == w
  {
    if Walk(g, Root, w) == Some(v) {
      WalkSound(g, paths, parent, w, v);
    }
    if v < |g| && paths[v] == w {
      WalkReaches(g, paths, parent, v);
    }
  }

  /** Once a walk falls off the trie, walking further keeps it off. */
  lemma {:induction false} WalkNoneExtends(g: seq<NodeV>, n: nat, u: seq<Alpha>, x: seq<Alpha>)
    requires Walk(g, n, u).None?
    ensures Walk(g, n, u + x).None?
    decreases |x|
  {
    if x == [] {
      assert u + x == u;
    } else {
      var x' := x[..|x| - 1];
      WalkNoneExtends(g, n, u, x');
      assert (u + x)[..|u + x| - 1] == u + x';
    }
  }

  /** An edge of `n` labelled `a` leads to `t` exactly when `t` is spelled by `n`'s path followed by `a`. */
  lemma ChildByPath(g: seq<NodeV>, paths: seq<seq<Alpha>>, parent: seq<nat>, n: nat, a: Alpha, t: nat)
    requires Shape(g, paths, parent) && n < |g| && t < |g|
    ensures Find(g[n].outgoing, a) == Some(t) <==> paths[t] == paths[n] + [a]
  {
    FindChild(g, paths, parent, n, a);
    if paths[t] == paths[n] + [a] {
      ChildFound(g, paths, parent, n, a, t);
    }
  }

  /** Walking the path of an added pattern, every step finds its edge. */
  lemma PatternStep(g: seq<NodeV>, paths: seq<seq<Alpha>>, parent: seq<nat>, patterns: seq<Str>, ends: seq<nat>,
                    k: nat, n: nat, i: nat)
    requires Shape(g, paths, parent) && PatternsIn(paths, patterns, ends) && k < |patterns|
    requires n < |g| && i < |patterns[k].symbols| && paths[n] == patterns[k].symbols[..i]
    ensures Find(g[n].outgoing, patterns[k].symbols[i]).Some?
  {
    assert PatternOk(paths, patterns, ends, k);
    var w := patterns[k].symbols;
    var t := AncestorAt(g, paths, parent, ends[k], i + 1);
    assert w[..i + 1] == paths[n] + [w[i]];
    ChildFound(g, paths, parent, n, w[i], t);
  }

  /** The node spelled by `n`'s path followed by `a` hangs from `n` by an edge labelled `a`. */
  lemma ChildFound(g: seq<NodeV>, paths: seq<seq<Alpha>>, parent: seq<nat>, n: nat, a: Alpha, t: nat)
    requires Shape(g, paths, parent) && n < |g| && t < |g| && paths[t] == paths[n] + [a]
    ensures Find(g[n].outgoing, a) == Some(t)
  {
    assert t != Root;
    assert NodeOk(g, paths, parent, t) && ParentOk(g, paths, parent, t);
    assert paths[parent[t]] == paths[n];
    PathsInjective(g, paths, parent, parent[t], n);
    assert NodeOk(g, paths, parent, n);
    FindDistinct(g[n].outgoing, a, t);
  }

  /** An edge found by symbol leads inside the arena, to the node spelling the path extended by that symbol. */
  lemma FindChild(g: seq<NodeV>, paths: seq<seq<Alpha>>, parent: seq<nat>, n: nat, a: Alpha)
    requires Shape(g, paths, parent) && n < |g|
    ensures Find(g[n].outgoing, a).Some? ==>
              Find(g[n].outgoing, a).value < |g| && paths[Find(g[n].outgoing, a).value] == paths[n] + [a]
  {
    assert NodeOk(g, paths, parent, n);
    FindIsFirstMatch(g[n].outgoing, a);
    if Find(g[n].outgoing, a).Some? {
      var i :| 0 <= i < |g[n].outgoing| && g[n].outgoing[i] == Edge(a, Find(g[n].outgoing, a).value) &&
               forall j :: 0 <= j < i ==> g[n].outgoing[j].alpha != a;
      assert EdgeOk(g, paths, n, g[n].outgoing[i]);
    }
  }

  /** The node spelled by the first `k` symbols of `v`'s path: its ancestor at depth `k`. */
  function AncestorAt(g: seq<NodeV>, paths: seq<seq<Alpha>>, parent: seq<nat>, v: nat, k: nat): (u: nat)
    requires Shape(g, paths, parent) && v < |g| && k <= |paths[v]|
    ensures u < |g| && paths[u] == paths[v][..k]
    decreases |paths[v]|
  {
    if |paths[v]| == k then v
    else
      assert NodeOk(g, paths, parent, v);
      AncestorAt(g, paths, parent, parent[v], k)
  }

  /** `v` lies in the subtree of `n`: `n`'s path is a prefix of `v`'s. */
  ghost predicate Desc(paths: seq<seq<Alpha>>, n: nat, v: nat) {
    n < |paths| && v < |paths| && paths[n] <= paths[v]
  }

  /** A strict descendant of `n` lies in the subtree of one of `n`'s edge targets. */
  lemma ChildCover(g: seq<NodeV>, paths: seq<seq<Alpha>>, parent: seq<nat>, n: nat, v: nat)
    requires Shape(g, paths, parent) && n < |g| && v < |g|
    requires Desc(paths, n, v) && |paths[n]| < |paths[v]|
    ensures exists j :: 0 <= j < |g[n].outgoing| && Desc(paths, g[n].outgoing[j].next, v)
  {
    var d := |paths[n]|;
    var c := AncestorAt(g, paths, parent, v, d + 1);
    assert c != Root;
    assert NodeOk(g, paths, parent, c);
    assert paths[parent[c]] == paths[v][..d] == paths[n];
    PathsInjective(g, paths, parent, parent[c], n);
    var j :| 0 <= j < |g[n].outgoing| && g[n].outgoing[j] == Edge(paths[c][d], c);
    assert Desc(paths, c, v);
  }

  /**
   * Edges may be permuted and other node data changed, as long as depths stay
   * and each node's edge symbols stay distinct: the arena is still the same trie.
   */
  lemma ShapeFrame(g: seq<NodeV>, g': seq<NodeV>, paths: seq<seq<Alpha>>, parent: seq<nat>)
    requires Shape(g, paths, parent) && |g'| == |g|
    requires forall v :: 0 <= v < |g| ==> g'[v].depth == g[v].depth
    requires forall v :: 0 <= v < |g| ==> multiset(g'[v].outgoing) == multiset(g[v].outgoing)
    requires forall v :: 0 <= v < |g| ==> DistinctAlphas(g'[v].outgoing)
    ensures Shape(g', paths, parent)
  {
    forall v | 0 <= v < |g'|
      ensures NodeOk(g', paths, parent, v)
    {
      assert NodeOk(g, paths, parent, v);
      forall i | 0 <= i < |g'[v].outgoing|
        ensures EdgeOk(g', paths, v, g'[v].outgoing[i])
      {
        assert g'[v].outgoing[i] in multiset(g[v].outgoing);
        var j :| 0 <= j < |g[v].outgoing| && g[v].outgoing[j] == g'[v].outgoing[i];
        assert EdgeOk(g, paths, v, g[v].outgoing[j]);
      }
      if v != Root {
        assert Edge(paths[v][|paths[v]| - 1], v) in multiset(g'[parent[v]].outgoing);
      }
    }
  }

  /** Changing anything but edges and depths keeps the arena the same trie. */
  lemma ShapeSameEdges(g: seq<NodeV>, g': seq<NodeV>, paths: seq<seq<Alpha>>, parent: seq<nat>)
    requires Shape(g, paths, parent) && |g'| == |g|
    requires forall v :: 0 <= v < |g| ==> g'[v].depth == g[v].depth && g'[v].outgoing == g[v].outgoing
    ensures Shape(g', paths, parent)
  {
    forall v | 0 <= v < |g'|
      ensures NodeOk(g', paths, parent, v)
    {
      assert NodeOk(g, paths, parent, v);
      if v != Root {
        assert g'[parent[v]].outgoing == g[parent[v]].outgoing;
      }
    }
  }

  /** `f` spells the longest proper suffix of `v`'s path that is the path of some node. */
  ghost predicate IsFailureLink(paths: seq<seq<Alpha>>, v: nat, f: nat) {
    && v < |paths| && f < |paths|
    && |paths[f]| < |paths[v]| && IsSuffix(paths[f], paths[v])
    && forall u :: 0 <= u < |paths| && |paths[u]| < |paths[v]| && IsSuffix(paths[u], paths[v]) ==> |paths[u]| <= |paths[f]|
  }

  /** A node has at most one failure link. */
  lemma FailureLinkUnique(g: seq<NodeV>, paths: seq<seq<Alpha>>, parent: seq<nat>, v: nat, f: nat, f': nat)
    requires Shape(g, paths, parent)
    requires IsFailureLink(paths, v, f) && IsFailureLink(paths, v, f')
    ensures f == f'
  {
    PathsInjective(g, paths, parent, f, f');
  }

  /**
   * Tries the suffixes of `w` starting at `i`, `i + 1`, … in turn, longest first,
   * and yields the node reached by the first one that walks from the root.
   */
  function FirstSuffixNode(g: seq<NodeV>, w: seq<Alpha>, i: nat): Option<nat>
    decreases |w| - i
  {
    if i >= |w| then None
    else match Walk(g, Root, w[i..])
      case Some(m) => Some(m)
      case None => FirstSuffixNode(g, w, i + 1)
  }

  /** The suffix search finds the longest suffix of `w`, no longer than `|w| - i`, that spells a node. */
  lemma {:induction false} FirstSuffixNodeSpec(g: seq<NodeV>, paths: seq<seq<Alpha>>, parent: seq<nat>, w: seq<Alpha>, i: nat)
    requires Shape(g, paths, parent)
    ensures FirstSuffixNode(g, w, i).Some? ==>
      var m := FirstSuffixNode(g, w, i).value;
      && m < |g| && 0 < |paths[m]| <= |w| - i && IsSuffix(paths[m], w)
      && forall u :: 0 <= u < |g| && |paths[u]| <= |w| - i && IsSuffix(paths[u], w) ==> |paths[u]| <= |paths[m]|
    ensures FirstSuffixNode(g, w, i).None? ==>
      forall u :: 0 <= u < |g| && |paths[u]| <= |w| - i && IsSuffix(paths[u], w) ==> |paths[u]| == 0
    decreases |w| - i
  {
    if i < |w| {
      match Walk(g, Root, w[i..])
      case Some(m) =>
        WalkSound(g, paths, parent, w[i..], m);
      case None =>
        FirstSuffixNodeSpec(g, paths, parent, w, i + 1);
        forall u | 0 <= u < |g| && |paths[u]| <= |w| - i && IsSuffix(paths[u], w)
          ensures |paths[u]| <= |w| - (i + 1)
        {
          WalkIffPath(g, paths, parent, w[i..], u);
        }
    }
  }

  /** What the failure search of a non-root node yields — the node found, or the root when none is — is its failure link. */
  lemma FirstSuffixNodeIsLink(g: seq<NodeV>, paths: seq<seq<Alpha>>, parent: seq<nat>, v: nat)
    requires Shape(g, paths, parent) && 0 < v < |g|
    ensures FirstSuffixNode(g, paths[v], 1).Some? ==> IsFailureLink(paths, v, FirstSuffixNode(g, paths[v], 1).value)
    ensures FirstSuffixNode(g, paths[v], 1).None? ==> IsFailureLink(paths, v, Root)
  {
    assert NodeOk(g, paths, parent, v);
    FirstSuffixNodeSpec(g, paths, parent, paths[v], 1);
  }

  /**
   * The link left on a node spelled by `w` whose link was `link`: the node of
   * the longest proper suffix of `w` that walks from the root, else the link
   * already set, else the root.
   */
  function FailureAfter(g: seq<NodeV>, w: seq<Alpha>, link: Option<nat>): Option<nat> {
    var found := FirstSuffixNode(g, w, 1);
    if found.Some? then found else if link.Some? then link else Some(Root)
  }

  /** Unless a wrong link was already set, the link left on a non-root node is its failure link. */
  lemma FailureAfterIsLink(g: seq<NodeV>, paths: seq<seq<Alpha>>, parent: seq<nat>, v: nat, link: Option<nat>)
    requires Shape(g, paths, parent) && 0 < v < |g|
    requires link.None? || IsFailureLink(paths, v, link.value)
    ensures FailureAfter(g, paths[v], link).Some? && IsFailureLink(paths, v, FailureAfter(g, paths[v], link).value)
  {
    FirstSuffixNodeIsLink(g, paths, parent, v);
    if link.Some? && FirstSuffixNode(g, paths[v], 1).None? {
      FailureLinkUnique(g, paths, parent, v, link.value, Root);
    }
  }

  /** The failure search only looks at edges. */
  lemma {:induction false} WalkFrame(g: seq<NodeV>, g': seq<NodeV>, n: nat, w: seq<Alpha>)
    requires |g'| == |g| && forall v :: 0 <= v < |g| ==> g'[v].outgoing == g[v].outgoing
    ensures Walk(g', n, w) == Walk(g, n, w)
    decreases |w|
  {
    if w != [] {
      WalkFrame(g, g', n, w[..|w| - 1]);
    }
  }

  lemma {:induction false} FirstSuffixNodeFrame(g: seq<NodeV>, g': seq<NodeV>, w: seq<Alpha>, i: nat)
    requires |g'| == |g| && forall v :: 0 <= v < |g| ==> g'[v].outgoing == g[v].outgoing
    ensures FirstSuffixNode(g', w, i) == FirstSuffixNode(g, w, i)
    decreases |w| - i
  {
    if i < |w| {
      WalkFrame(g, g', Root, w[i..]);
      FirstSuffixNodeFrame(g, g', w, i + 1);
    }
  }

  /** Every failure link that is set leads to a node of strictly smaller depth. */
  ghost predicate ChainOk(g: seq<NodeV>, paths: seq<seq<Alpha>>) {
    |paths| == |g| &&
    forall v :: 0 <= v < |g| && g[v].failure.Some? ==>
      g[v].failure.value < |g| && |paths[g[v].failure.value]| < |paths[v]|
  }

  /** Every failure link that is set is the right one. */
  ghost predicate LinksSound(g: seq<NodeV>, paths: seq<seq<Alpha>>) {
    |paths| == |g| &&
    forall v :: 0 <= v < |g| && g[v].failure.Some? ==> IsFailureLink(paths, v, g[v].failure.value)
  }

  /** Every node but the root has its failure link. */
  ghost predicate LinksComplete(g: seq<NodeV>, paths: seq<seq<Alpha>>) {
    LinksSound(g, paths) && forall v :: 0 < v < |g| ==> g[v].failure.Some?
  }

  lemma LinksSoundChainOk(g: seq<NodeV>, paths: seq<seq<Alpha>>)
    requires LinksSound(g, paths)
    ensures ChainOk(g, paths)
  {
  }

  /**
   * The patterns a node accepts: its own pattern, then everything its failure
   * node accepts, down the failure chain.
   */
  function Collect(g: seq<NodeV>, paths: seq<seq<Alpha>>, patterns: seq<Str>, v: nat): seq<Str>
    requires ChainOk(g, paths) && v < |g|
    decreases |paths[v]|
  {
    Own(patterns, paths[v]) +
      match g[v].failure
      case None => []
      case Some(f) => Collect(g, paths, patterns, f)
  }

  /** What the failure chain collects from `m` on: nothing once the chain has ended. */
  function Rest(g: seq<NodeV>, paths: seq<seq<Alpha>>, patterns: seq<Str>, m: Option<nat>): seq<Str>
    requires ChainOk(g, paths) && (m.Some? ==> m.value < |g|)
  {
    if m.Some? then Collect(g, paths, patterns, m.value) else []
  }

  /** Pattern lengths strictly decrease along a list. */
  predicate DecreasingLengths(list: seq<Str>) {
    forall i, j :: 0 <= i < j < |list| ==> |list[i].symbols| > |list[j].symbols|
  }

  /** The collected patterns are added patterns, no longer than the node's path, listed longest first. */
  lemma {:induction false} CollectShape(g: seq<NodeV>, paths: seq<seq<Alpha>>, patterns: seq<Str>, v: nat)
    requires ChainOk(g, paths) && v < |g| && DistinctSymbols(patterns)
    ensures forall x :: x in Collect(g, paths, patterns, v) ==> x in patterns && |x.symbols| <= |paths[v]|
    ensures DecreasingLengths(Collect(g, paths, patterns, v))
    decreases |paths[v]|
  {
    OwnSpec(patterns, paths[v]);
    if g[v].failure.Some? {
      CollectShape(g, paths, patterns, g[v].failure.value);
    }
  }

  /** `Collect` reads only the failure links. */
  lemma {:induction false} CollectFrame(g: seq<NodeV>, g': seq<NodeV>, paths: seq<seq<Alpha>>, patterns: seq<Str>, v: nat)
    requires ChainOk(g, paths) && |g'| == |g| && v < |g|
    requires forall u :: 0 <= u < |g| ==> g'[u].failure == g[u].failure
    ensures ChainOk(g', paths)
    ensures Collect(g', paths, patterns, v) == Collect(g, paths, patterns, v)
    decreases |paths[v]|
  {
    if g[v].failure.Some? {
      CollectFrame(g, g', paths, patterns, g[v].failure.value);
    }
  }

  /** Pattern `k` is of an accepted length and ends at the node `ends[k]`, which spells it. */
  ghost predicate PatternOk(paths: seq<seq<Alpha>>, patterns: seq<Str>, ends: seq<nat>, k: nat) {
    && k < |patterns| && k < |ends|
    && 1 <= |patterns[k].symbols| <= MaxPatternLength
    && ends[k] < |paths| && paths[ends[k]] == patterns[k].symbols
  }

  /** The added patterns, with distinct symbol sequences, each in place. */
  ghost predicate PatternsIn(paths: seq<seq<Alpha>>, patterns: seq<Str>, ends: seq<nat>) {
    && |ends| == |patterns| && DistinctSymbols(patterns)
    && forall k :: 0 <= k < |patterns| ==> PatternOk(paths, patterns, ends, k)
  }

  /**
   * With every failure link in place, a node accepts exactly the added patterns
   * that are suffixes of its path.
   */
  lemma {:induction false} CollectSuffixes(g: seq<NodeV>, paths: seq<seq<Alpha>>, parent: seq<nat>, patterns: seq<Str>, ends: seq<nat>, v: nat)
    requires Shape(g, paths, parent) && LinksComplete(g, paths) && PatternsIn(paths, patterns, ends) && v < |g|
    ensures ChainOk(g, paths)
    ensures forall x :: x in Collect(g, paths, patterns, v) <==> x in patterns && IsSuffix(x.symbols, paths[v])
    decreases |paths[v]|
  {
    LinksSoundChainOk(g, paths);
    OwnSpec(patterns, paths[v]);
    if v != Root {
      var f := g[v].failure.value;
      CollectSuffixes(g, paths, parent, patterns, ends, f);
      forall x | x in patterns && IsSuffix(x.symbols, paths[v]) && x.symbols != paths[v]
        ensures x in Collect(g, paths, patterns, f)
      {
        var k :| 0 <= k < |patterns| && patterns[k] == x;
        assert PatternOk(paths, patterns, ends, k);
        assert IsSuffix(paths[ends[k]], paths[v]);
        assert |x.symbols| <= |paths[f]|;
        assert paths[f][|paths[f]| - |x.symbols|..] == paths[v][|paths[v]| - |x.symbols|..];
      }
      forall x | x in Collect(g, paths, patterns, f)
        ensures IsSuffix(x.symbols, paths[v])
      {
        assert paths[v][|paths[v]| - |x.symbols|..] == paths[f][|paths[f]| - |x.symbols|..];
      }
    } else {
      forall x | x in patterns
        ensures !IsSuffix(x.symbols, paths[v])
      {
        var k :| 0 <= k < |patterns| && patterns[k] == x;
        assert PatternOk(paths, patterns, ends, k);
      }
    }
  }

  /** While patterns are being added, node `v` holds just its own pattern, is final exactly then, and has no failure link. */
  ghost predicate OpenAt(g: seq<NodeV>, paths: seq<seq<Alpha>>, patterns: seq<Str>, v: nat) {
    && v < |g| && v < |paths|
    && g[v].matched == Own(patterns, paths[v]) && g[v].final == (g[v].matched != []) && g[v].failure.None?
  }

  /** The open phase, in which patterns are added. */
  ghost predicate Open(g: seq<NodeV>, paths: seq<seq<Alpha>>, patterns: seq<Str>) {
    |paths| == |g| && forall v :: 0 <= v < |g| ==> OpenAt(g, paths, patterns, v)
  }

  /**
   * After the failure links are located: every node but the root has its link,
   * accepts what its failure chain collects, is final exactly when that is
   * not empty, and has its edges in strictly increasing symbol order.
   */
  ghost predicate Closed(g: seq<NodeV>, paths: seq<seq<Alpha>>, patterns: seq<Str>) {
    && LinksComplete(g, paths) && ChainOk(g, paths)
    && forall v :: 0 <= v < |g| ==> ClosedAt(g, paths, patterns, v)
  }

  /** Node `v` of the closed phase. */
  ghost predicate ClosedAt(g: seq<NodeV>, paths: seq<seq<Alpha>>, patterns: seq<Str>, v: nat)
    requires ChainOk(g, paths) && v < |g|
  {
    && g[v].matched == Collect(g, paths, patterns, v)
    && g[v].final == (g[v].matched != [])
    && StrictlySorted(g[v].outgoing)
  }

  /**
   * During the union pass: node `u` of `g` holds its own pattern, then part of
   * what its chain collects in `g1`, the arena whose failure links it follows.
   */
  ghost predicate Partial(g1: seq<NodeV>, g: seq<NodeV>, paths: seq<seq<Alpha>>, patterns: seq<Str>, u: nat)
    requires ChainOk(g1, paths) && u < |g1| && |g| == |g1|
  {
    && Own(patterns, paths[u]) <= g[u].matched <= Collect(g1, paths, patterns, u)
    && g[u].final == (g[u].matched != [])
  }

  /**
   * `g` is `g0` with the failure links of the nodes in `inside` set to the right
   * ones; nothing else differs.
   */
  ghost predicate LinkedWhere(g0: seq<NodeV>, g: seq<NodeV>, paths: seq<seq<Alpha>>, inside: set<nat>) {
    && |g| == |g0| == |paths|
    && forall v :: 0 <= v < |g| ==>
         if v in inside then
           g[v].failure.Some? && IsFailureLink(paths, v, g[v].failure.value) && g[v] == g0[v].(failure := g[v].failure)
         else g[v] == g0[v]
  }

  /** Setting the right link on node `c` and then linking everything below it links its subtree. */
  lemma LinkedSubtree(g0: seq<NodeV>, g1: seq<NodeV>, g: seq<NodeV>, paths: seq<seq<Alpha>>, parent: seq<nat>, c: nat)
    requires Shape(g0, paths, parent) && c < |g0| == |g1| && g1 == g0[c := g0[c].(failure := g1[c].failure)]
    requires g1[c].failure.Some? && IsFailureLink(paths, c, g1[c].failure.value)
    requires LinkedWhere(g1, g, paths, Below(paths, c))
    ensures LinkedWhere(g0, g, paths, Subtree(paths, c))
  {
    SubtreeSplit(g0, paths, parent, c);
    assert LinkedWhere(g0, g1, paths, {c});
    LinkedWhereTrans(g0, g1, g, paths, {c}, Below(paths, c));
  }

  /** Linking two disjoint sets of nodes one after the other links their union. */
  lemma LinkedWhereTrans(g0: seq<NodeV>, g1: seq<NodeV>, g2: seq<NodeV>, paths: seq<seq<Alpha>>, a: set<nat>, b: set<nat>)
    requires LinkedWhere(g0, g1, paths, a) && LinkedWhere(g1, g2, paths, b) && a !! b
    ensures LinkedWhere(g0, g2, paths, a + b)
  {
  }

  /** The nodes strictly below `n`. */
  ghost function Below(paths: seq<seq<Alpha>>, n: nat): set<nat> {
    set v | 0 <= v < |paths| && Desc(paths, n, v) && |paths[n]| < |paths[v]|
  }

  /** The nodes at or below `n`. */
  ghost function Subtree(paths: seq<seq<Alpha>>, n: nat): set<nat> {
    set v | 0 <= v < |paths| && Desc(paths, n, v)
  }

  /** In the open phase a node is final exactly when an added pattern spells its path. */
  lemma FinalIffPattern(g: seq<NodeV>, paths: seq<seq<Alpha>>, patterns: seq<Str>, n: nat)
    requires Open(g, paths, patterns) && n < |g|
    ensures g[n].final <==> exists k :: 0 <= k < |patterns| && patterns[k].symbols == paths[n]
  {
    assert OpenAt(g, paths, patterns, n);
    OwnSpec(patterns, paths[n]);
    if g[n].final {
      var x := Own(patterns, paths[n])[0];
      assert x in Own(patterns, paths[n]);
      var k :| 0 <= k < |patterns| && patterns[k] == x;
    }
    if exists k :: 0 <= k < |patterns| && patterns[k].symbols == paths[n] {
      var k :| 0 <= k < |patterns| && patterns[k].symbols == paths[n];
      assert patterns[k] in Own(patterns, paths[n]);
    }
  }

  /** The arena after a new child of `n` labelled `a` is appended to it. */
  function AddChild(g: seq<NodeV>, n: nat, a: Alpha): (g': seq<NodeV>)
    requires n < |g|
    ensures |g'| == |g| + 1
  {
    g[n := g[n].(outgoing := g[n].outgoing + [Edge(a, |g|)])] + [FreshNode.(depth := g[n].depth + 1)]
  }

  /** After a child is appended to `n`, each node is still in place. */
  lemma AddChildNodeOk(g: seq<NodeV>, paths: seq<seq<Alpha>>, parent: seq<nat>, n: nat, a: Alpha, v: nat)
    requires Shape(g, paths, parent) && n < |g| && Find(g[n].outgoing, a).None?
    requires |paths[n]| < MaxPatternLength && v <= |g|
    ensures NodeOk(AddChild(g, n, a), paths + [paths[n] + [a]], parent + [n], v)
  {
    if v < |g| {
      AddChildOldNode(g, paths, parent, n, a, v);
    } else {
      var g' := AddChild(g, n, a);
      assert NodeOk(g, paths, parent, n);
      assert g'[n].outgoing[|g[n].outgoing|] == Edge(a, v);
    }
  }

  /** After a child is appended to `n`, each node that was there is still in place. */
  lemma AddChildOldNode(g: seq<NodeV>, paths: seq<seq<Alpha>>, parent: seq<nat>, n: nat, a: Alpha, v: nat)
    requires Shape(g, paths, parent) && n < |g| && Find(g[n].outgoing, a).None?
    requires |paths[n]| < MaxPatternLength && v < |g|
    ensures NodeOk(AddChild(g, n, a), paths + [paths[n] + [a]], parent + [n], v)
  {
    var g', paths', parent' := AddChild(g, n, a), paths + [paths[n] + [a]], parent + [n];
    assert NodeOk(g, paths, parent, v);
    if v == n {
      FindIsFirstMatch(g[n].outgoing, a);
    }
    forall i | 0 <= i < |g'[v].outgoing|
      ensures EdgeOk(g', paths', v, g'[v].outgoing[i])
    {
      if v != n || i < |g[n].outgoing| {
        assert g'[v].outgoing[i] == g[v].outgoing[i];
        assert EdgeOk(g, paths, v, g[v].outgoing[i]);
      } else {
        assert NodeOk(g, paths, parent, n);
      }
    }
    if v != Root {
      assert g[parent[v]].outgoing <= g'[parent[v]].outgoing;
    }
  }

  /** Appending a child for a symbol `n` has no edge for keeps the arena a trie, the new node spelling `n`'s path and `a`. */
  lemma AddChildShape(g: seq<NodeV>, paths: seq<seq<Alpha>>, parent: seq<nat>, n: nat, a: Alpha)
    requires Shape(g, paths, parent) && n < |g| && Find(g[n].outgoing, a).None?
    requires |paths[n]| < MaxPatternLength
    ensures Shape(AddChild(g, n, a), paths + [paths[n] + [a]], parent + [n])
  {
    forall v | 0 <= v < |g| + 1
      ensures NodeOk(AddChild(g, n, a), paths + [paths[n] + [a]], parent + [n], v)
    {
      AddChildNodeOk(g, paths, parent, n, a, v);
    }
  }

  /** Appending a child keeps the open phase: the new node has no pattern of its own, since none spells its path yet. */
  lemma AddChildOpen(g: seq<NodeV>, paths: seq<seq<Alpha>>, parent: seq<nat>, patterns: seq<Str>, ends: seq<nat>, n: nat, a: Alpha)
    requires Shape(g, paths, parent) && PatternsIn(paths, patterns, ends) && Open(g, paths, patterns)
    requires n < |g| && Find(g[n].outgoing, a).None?
    ensures PatternsIn(paths + [paths[n] + [a]], patterns, ends)
    ensures Open(AddChild(g, n, a), paths + [paths[n] + [a]], patterns)
  {
    var w := paths[n] + [a];
    forall k | 0 <= k < |patterns|
      ensures patterns[k].symbols != w
    {
      assert PatternOk(paths, patterns, ends, k);
      ChildByPath(g, paths, parent, n, a, ends[k]);
    }
    assert Own(patterns, w) == [] by {
      OwnSpec(patterns, w);
    }
    var g', paths' := AddChild(g, n, a), paths + [w];
    forall v | 0 <= v < |g'|
      ensures OpenAt(g', paths', patterns, v)
    {
      if v < |g| {
        assert OpenAt(g, paths, patterns, v);
        assert g'[v].matched == g[v].matched && g'[v].final == g[v].final && g'[v].failure == g[v].failure;
        assert paths'[v] == paths[v];
      }
    }
    forall k | 0 <= k < |patterns|
      ensures PatternOk(paths', patterns, ends, k)
    {
      assert PatternOk(paths, patterns, ends, k);
    }
  }

  /** Marking the node that spells a new pattern final adds the pattern and keeps the open phase. */
  lemma AddPatternOpen(g: seq<NodeV>, paths: seq<seq<Alpha>>, parent: seq<nat>, patterns: seq<Str>, ends: seq<nat>, n: nat, s: Str)
    requires Shape(g, paths, parent) && PatternsIn(paths, patterns, ends) && Open(g, paths, patterns)
    requires n < |g| && paths[n] == s.symbols && !g[n].final && 1 <= |s.symbols| <= MaxPatternLength
    ensures Shape(g[n := g[n].(final := true, matched := [s])], paths, parent)
    ensures PatternsIn(paths, patterns + [s], ends + [n])
    ensures Open(g[n := g[n].(final := true, matched := [s])], paths, patterns + [s])
  {
    var g' := g[n := g[n].(final := true, matched := [s])];
    ShapeSameEdges(g, g', paths, parent);
    FinalIffPattern(g, paths, patterns, n);
    var patterns' := patterns + [s];
    forall v | 0 <= v < |g|
      ensures OpenAt(g', paths, patterns', v)
    {
      assert OpenAt(g, paths, patterns, v);
      assert patterns'[..|patterns|] == patterns;
      if v == n {
        OwnSpec(patterns, paths[n]);
      } else if paths[v] == paths[n] {
        PathsInjective(g, paths, parent, v, n);
      }
    }
    forall k | 0 <= k < |patterns'|
      ensures PatternOk(paths, patterns', ends + [n], k)
    {
      if k < |patterns| {
        assert PatternOk(paths, patterns, ends, k);
      }
    }
  }

  /**
   * One registration step of the union pass: when the node's list is a prefix of
   * the length-ordered list it is heading for and the next entry sits at or
   * beyond its end, the length check skips it exactly when it is already there.
   */
  lemma PrefixRegister(c: seq<Str>, m: seq<Str>, z: nat)
    requires DecreasingLengths(c) && m <= c && z < |c| && z <= |m|
    ensures LengthListed(m, c[z]) <==> z < |m|
    ensures z == |m| ==> m + [c[z]] <= c
  {
    if z < |m| {
      assert m[z] == c[z];
    }
  }

  /**
   * Registering a stretch of a longest-first list `c`, starting at or before the
   * end of a prefix `l` of it, keeps a prefix of `c` and reaches at least the
   * end of the stretch.
   */
  lemma {:induction false} RegisterEachPrefix(c: seq<Str>, l: seq<Str>, off: nat, list: seq<Str>)
    requires DecreasingLengths(c) && l <= c && off <= |l| && off + |list| <= |c| && list == c[off..off + |list|]
    ensures l <= RegisterEach(l, list) <= c && off + |list| <= |RegisterEach(l, list)|
    decreases |list|
  {
    if list != [] {
      var init := list[..|list| - 1];
      assert init == c[off..off + |init|];
      RegisterEachPrefix(c, l, off, init);
      PrefixRegister(c, RegisterEach(l, init), off + |init|);
    }
  }

  /**
   * The union pass over one node, as a value: starting from its list `l` and
   * flag `fin`, each node `m` down the failure chain has its patterns
   * registered in turn and makes the flag true when it is final.
   */
  function UnionChain(g: seq<NodeV>, paths: seq<seq<Alpha>>, l: seq<Str>, fin: bool, m: Option<nat>): (seq<Str>, bool)
    requires ChainOk(g, paths) && (m.Some? ==> m.value < |g|)
    decreases if m.Some? then |paths[m.value]| + 1 else 0
  {
    if m.None? then (l, fin)
    else UnionChain(g, paths, RegisterEach(l, g[m.value].matched), fin || g[m.value].final, g[m.value].failure)
  }

  /**
   * One node of the chain, on lists alone: `c` from `off` on is `own` then
   * `next`, the node holds `mt`, which starts with `own` and lies within
   * `own + next`. Registering `mt` keeps `l` a prefix of `c` that now covers
   * everything before `next`, and leaves it empty only when both were.
   */
  lemma UnionStep(c: seq<Str>, l: seq<Str>, off: nat, own: seq<Str>, next: seq<Str>, mt: seq<Str>)
    requires DecreasingLengths(c) && l <= c && off <= |l| && off + |own| + |next| == |c|
    requires c[off..] == own + next && own <= mt <= own + next
    ensures RegisterEach(l, mt) <= c && off + |own| <= |RegisterEach(l, mt)|
    ensures c[off + |own|..] == next
    ensures (RegisterEach(l, mt) != []) == (l != [] || mt != [])
  {
    assert mt == c[off..off + |mt|];
    RegisterEachPrefix(c, l, off, mt);
    if mt == [] {
      assert RegisterEach(l, mt) == l;
    }
  }

  /**
   * Part way down the chain, with the node's list a prefix of `c` that covers
   * everything before what `m`'s chain collects, the rest of the pass completes
   * the list to `c` and leaves the flag set exactly when `c` is not empty.
   */
  lemma {:induction false} UnionChainRest(g1: seq<NodeV>, g: seq<NodeV>, paths: seq<seq<Alpha>>, patterns: seq<Str>,
                                          c: seq<Str>, l: seq<Str>, fin: bool, m: Option<nat>)
    requires ChainOk(g1, paths) && |g| == |g1| && (m.Some? ==> m.value < |g|)
    requires forall u :: 0 <= u < |g| ==> g[u].failure == g1[u].failure
    requires forall u :: 0 <= u < |g| ==> Partial(g1, g, paths, patterns, u)
    requires DecreasingLengths(c) && l <= c && fin == (l != [])
    requires |Rest(g1, paths, patterns, m)| <= |c| && |c| - |Rest(g1, paths, patterns, m)| <= |l|
    requires c[|c| - |Rest(g1, paths, patterns, m)|..] == Rest(g1, paths, patterns, m)
    ensures ChainOk(g, paths)
    ensures UnionChain(g, paths, l, fin, m) == (c, c != [])
    decreases if m.Some? then |paths[m.value]| + 1 else 0
  {
    if m.Some? {
      var mv := m.value;
      assert Partial(g1, g, paths, patterns, mv);
      var next := g1[mv].failure;
      var off := |c| - |Rest(g1, paths, patterns, m)|;
      UnionStep(c, l, off, Own(patterns, paths[mv]), Rest(g1, paths, patterns, next), g[mv].matched);
      UnionChainRest(g1, g, paths, patterns, c, RegisterEach(l, g[mv].matched), fin || g[mv].final, next);
    } else {
      assert l == c;
    }
  }

  /**
   * The union pass gives a node exactly what its chain collects in `g1`, and
   * makes it final exactly when that is not empty, provided every node holds
   * at least its own pattern and at most what its chain collects.
   */
  lemma UnionCollects(g1: seq<NodeV>, g: seq<NodeV>, paths: seq<seq<Alpha>>, patterns: seq<Str>, v: nat)
    requires ChainOk(g1, paths) && |g| == |g1| && v < |g| && DistinctSymbols(patterns)
    requires forall u :: 0 <= u < |g| ==> g[u].failure == g1[u].failure
    requires forall u :: 0 <= u < |g| ==> Partial(g1, g, paths, patterns, u)
    ensures ChainOk(g, paths)
    ensures UnionChain(g, paths, g[v].matched, g[v].final, g[v].failure) ==
              (Collect(g1, paths, patterns, v), Collect(g1, paths, patterns, v) != [])
  {
    assert Partial(g1, g, paths, patterns, v);
    CollectShape(g1, paths, patterns, v);
    UnionChainRest(g1, g, paths, patterns, Collect(g1, paths, patterns, v), g[v].matched, g[v].final, g[v].failure);
  }

  /**
   * Node `u` while the nodes before `i` are being closed against `g1`, the
   * arena as the failure search left it: links and depths as in `g1`, the
   * matched list between its own pattern and what its chain collects; closed
   * nodes hold all of that with their edges sorted, the others their edges as
   * they were.
   */
  ghost predicate ClosingAt(g1: seq<NodeV>, g: seq<NodeV>, paths: seq<seq<Alpha>>, patterns: seq<Str>, i: nat, u: nat)
    requires ChainOk(g1, paths) && u < |g1| == |g|
  {
    && g[u].failure == g1[u].failure && g[u].depth == g1[u].depth
    && Partial(g1, g, paths, patterns, u)
    && (u < i ==> g[u].matched == Collect(g1, paths, patterns, u) && g[u].outgoing == SortedEdges(g1[u].outgoing))
    && (u >= i ==> g[u].outgoing == g1[u].outgoing)
  }

  ghost predicate Closing(g1: seq<NodeV>, g: seq<NodeV>, paths: seq<seq<Alpha>>, patterns: seq<Str>, i: nat)
    requires ChainOk(g1, paths)
  {
    |g| == |g1| && i <= |g| && forall u :: 0 <= u < |g| ==> ClosingAt(g1, g, paths, patterns, i, u)
  }

  /**
   * Before the union pass, after the failure search linked every node below
   * the root of an open or closed arena `g0`: every link is in place, and every
   * node holds between its own pattern and what its chain collects.
   */
  lemma ClosingStart(g0: seq<NodeV>, g1: seq<NodeV>, paths: seq<seq<Alpha>>, parent: seq<nat>, patterns: seq<Str>)
    requires Shape(g0, paths, parent) && (Open(g0, paths, patterns) || Closed(g0, paths, patterns))
    requires LinkedWhere(g0, g1, paths, Below(paths, Root))
    ensures LinksComplete(g1, paths) && ChainOk(g1, paths) && Closing(g1, g1, paths, patterns, 0)
    ensures forall u :: 0 <= u < |g1| ==> g1[u].outgoing == g0[u].outgoing
  {
    BelowRoot(g0, paths, parent);
    assert Root !in Below(paths, Root);
    if Open(g0, paths, patterns) {
      assert OpenAt(g0, paths, patterns, Root);
    }
    assert LinksSound(g1, paths);
    forall u | 0 <= u < |g1|
      ensures ClosingAt(g1, g1, paths, patterns, 0, u)
    {
      if Open(g0, paths, patterns) {
        assert OpenAt(g0, paths, patterns, u);
      } else {
        assert ClosedAt(g0, paths, patterns, u);
        forall w | 0 <= w < |g0|
          ensures g1[w].failure == g0[w].failure
        {
          if w != Root {
            FailureLinkUnique(g0, paths, parent, w, g0[w].failure.value, g1[w].failure.value);
          }
        }
        CollectFrame(g0, g1, paths, patterns, u);
      }
    }
  }

  /**
   * The symbol buffer of the failure search: writing position `d` and then
   * keeping the first `e > d` symbols keeps the first `d` of the original.
   */
  lemma PrefixKept(a: seq<Alpha>, b: seq<Alpha>, c: seq<Alpha>, d: nat, e: nat)
    requires d < e <= |a| == |b| == |c| && b == a[d := b[d]] && c[..e] == b[..e]
    ensures c[..d] == a[..d]
  {
    assert forall k :: 0 <= k < d ==> c[k] == c[..e][k] == b[k] == a[k];
  }

  /** In an open or closed arena every failure link below the root is absent or right. */
  lemma LinksBeforeSearch(g: seq<NodeV>, paths: seq<seq<Alpha>>, parent: seq<nat>, patterns: seq<Str>)
    requires Shape(g, paths, parent) && (Open(g, paths, patterns) || Closed(g, paths, patterns))
    ensures forall v :: v in Below(paths, Root) ==> g[v].failure.None? || IsFailureLink(paths, v, g[v].failure.value)
  {
    forall v | v in Below(paths, Root)
      ensures g[v].failure.None? || IsFailureLink(paths, v, g[v].failure.value)
    {
      if Open(g, paths, patterns) {
        assert OpenAt(g, paths, patterns, v);
      }
    }
  }

  /** Closing node `i` — its union pass, then its edges sorted — moves the boundary past it. */
  lemma ClosingStep(g1: seq<NodeV>, g: seq<NodeV>, paths: seq<seq<Alpha>>, patterns: seq<Str>, i: nat)
    requires ChainOk(g1, paths) && DistinctSymbols(patterns) && Closing(g1, g, paths, patterns, i) && i < |g|
    ensures ChainOk(g, paths)
    ensures var r := UnionChain(g, paths, g[i].matched, g[i].final, g[i].failure);
            Closing(g1, g[i := g[i].(matched := r.0, final := r.1, outgoing := SortedEdges(g[i].outgoing))], paths, patterns, i + 1)
  {
    forall u | 0 <= u < |g|
      ensures g[u].failure == g1[u].failure && Partial(g1, g, paths, patterns, u)
    {
      assert ClosingAt(g1, g, paths, patterns, i, u);
    }
    UnionCollects(g1, g, paths, patterns, i);
    var r := UnionChain(g, paths, g[i].matched, g[i].final, g[i].failure);
    var g', j := g[i := g[i].(matched := r.0, final := r.1, outgoing := SortedEdges(g[i].outgoing))], i + 1;
    forall u | 0 <= u < |g|
      ensures ClosingAt(g1, g', paths, patterns, j, u)
    {
      assert ClosingAt(g1, g, paths, patterns, i, u);
    }
  }

  /** Once every node is closed, the arena is closed. */
  lemma ClosingDone(g1: seq<NodeV>, g: seq<NodeV>, paths: seq<seq<Alpha>>, parent: seq<nat>, patterns: seq<Str>)
    requires Shape(g1, paths, parent) && LinksComplete(g1, paths) && ChainOk(g1, paths)
    requires Closing(g1, g, paths, patterns, |g|)
    ensures Closed(g, paths, patterns)
    ensures forall u :: 0 <= u < |g| ==> g[u].outgoing == SortedEdges(g1[u].outgoing)
  {
    forall u | 0 <= u < |g|
      ensures g[u].failure == g1[u].failure
    {
      assert ClosingAt(g1, g, paths, patterns, |g|, u);
    }
    forall u | 0 <= u < |g|
      ensures ClosedAt(g, paths, patterns, u) && g[u].outgoing == SortedEdges(g1[u].outgoing)
    {
      assert ClosingAt(g1, g, paths, patterns, |g|, u);
      assert NodeOk(g1, paths, parent, u);
      SortedEdgesOrdered(g1[u].outgoing);
      CollectFrame(g1, g, paths, patterns, u);
    }
  }

  /** The subtree of each child of `n` lies below `n`, and the subtrees of two different children are disjoint. */
  lemma ChildSubtrees(g: seq<NodeV>, paths: seq<seq<Alpha>>, parent: seq<nat>, n: nat, i: nat)
    requires Shape(g, paths, parent) && n < |g| && i < |g[n].outgoing|
    ensures Subtree(paths, g[n].outgoing[i].next) <= Below(paths, n)
    ensures forall j :: 0 <= j < |g[n].outgoing| && j != i ==>
              Subtree(paths, g[n].outgoing[i].next) !! Subtree(paths, g[n].outgoing[j].next)
  {
    var e := g[n].outgoing[i];
    assert NodeOk(g, paths, parent, n);
    forall j, v | 0 <= j < |g[n].outgoing| && v in Subtree(paths, g[n].outgoing[j].next)
      ensures |paths[n]| < |paths[v]| && paths[v][|paths[n]|] == g[n].outgoing[j].alpha
    {
      var e' := g[n].outgoing[j];
      assert EdgeOk(g, paths, n, e');
      assert paths[e'.next][|paths[n]|] == e'.alpha;
    }
    assert DistinctAlphas(g[n].outgoing);
  }

  /** The subtree of `n` is `n` itself and what lies below it. */
  lemma SubtreeSplit(g: seq<NodeV>, paths: seq<seq<Alpha>>, parent: seq<nat>, n: nat)
    requires Shape(g, paths, parent) && n < |g|
    ensures Subtree(paths, n) == {n} + Below(paths, n) && n !in Below(paths, n)
  {
    forall v | v in Subtree(paths, n) && v !in Below(paths, n)
      ensures v == n
    {
      assert paths[v] == paths[n];
      PathsInjective(g, paths, parent, v, n);
    }
  }

  /**
   * Closing determines the arena: two closed arenas of the same trie, with the
   * same edges at every node, are equal, whatever order the nodes were closed in.
   */
  lemma ClosedDetermined(g: seq<NodeV>, g': seq<NodeV>, paths: seq<seq<Alpha>>, parent: seq<nat>, patterns: seq<Str>)
    requires Shape(g, paths, parent) && Shape(g', paths, parent)
    requires Closed(g, paths, patterns) && Closed(g', paths, patterns)
    requires forall v :: 0 <= v < |g| ==> g'[v].outgoing == g[v].outgoing
    ensures g' == g
  {
    forall v | 0 <= v < |g|
      ensures g'[v].failure == g[v].failure
    {
      if v == Root {
        assert g[v].failure.None? && g'[v].failure.None?;
      } else {
        FailureLinkUnique(g, paths, parent, v, g[v].failure.value, g'[v].failure.value);
      }
    }
    forall v | 0 <= v < |g|
      ensures g'[v] == g[v]
    {
      assert NodeOk(g, paths, parent, v) && NodeOk(g', paths, parent, v);
      assert ClosedAt(g, paths, patterns, v) && ClosedAt(g', paths, patterns, v);
      CollectFrame(g, g', paths, patterns, v);
    }
  }

  /** Once the subtrees of all children of `n` are covered, everything below `n` is. */
  lemma BelowCovered(g: seq<NodeV>, paths: seq<seq<Alpha>>, parent: seq<nat>, n: nat, done: set<nat>)
    requires Shape(g, paths, parent) && n < |g|
    requires forall j :: 0 <= j < |g[n].outgoing| ==> Subtree(paths, g[n].outgoing[j].next) <= done
    requires done <= Below(paths, n)
    ensures done == Below(paths, n)
  {
    forall v | v in Below(paths, n)
      ensures v in done
    {
      ChildCover(g, paths, parent, n, v);
      var j :| 0 <= j < |g[n].outgoing| && Desc(paths, g[n].outgoing[j].next, v);
      assert v in Subtree(paths, g[n].outgoing[j].next);
    }
  }

  /** Everything but the root lies below the root. */
  lemma BelowRoot(g: seq<NodeV>, paths: seq<seq<Alpha>>, parent: seq<nat>)
    requires Shape(g, paths, parent)
    ensures forall v :: 0 <= v < |g| ==> (v in Below(paths, Root) <==> v != Root)
  {
    forall v | 0 <= v < |g| && v != Root
      ensures v in Below(paths, Root)
    {
      assert NodeOk(g, paths, parent, v);
    }
  }

  /** A lone fresh root is the trie of no patterns. */
  lemma RootAlone()
    ensures Shape([FreshNode], [[]], [Root]) && PatternsIn([[]], [], []) && Open([FreshNode], [[]], [])
  {
    assert Own([], []) == [];
  }
}
