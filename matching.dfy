/**
 * What the search finds, stated against a naive reference: after every
 * symbol, the added patterns that end there, longest first. The automaton's
 * search state is explained by the longest suffix of everything consumed so
 * far that some node spells.
 */
module Matching {
  import opened AcTypes
  import opened AcNode
  import opened Trie
  import opened Scanning

  /** The added patterns that are suffixes of `s` and at most `len` long, longest first. */
  function SuffixList(patterns: seq<Str>, s: seq<Alpha>, len: nat): seq<Str>
    requires len <= |s|
    decreases len
  {
    if len == 0 then [] else Own(patterns, s[|s| - len..]) + SuffixList(patterns, s, len - 1)
  }

  /** `SuffixList` holds exactly the nonempty added patterns that are suffixes of `s` no longer than `len`. */
  lemma {:induction false} SuffixListMember(patterns: seq<Str>, s: seq<Alpha>, len: nat, x: Str)
    requires len <= |s|
    ensures x in SuffixList(patterns, s, len) <==> x in patterns && 1 <= |x.symbols| <= len && IsSuffix(x.symbols, s)
  {
    if len > 0 {
      var w := s[|s| - len..];
      SuffixListMember(patterns, s, len - 1, x);
      OwnMember(patterns, w, x);
      if |x.symbols| == len {
        assert IsSuffix(x.symbols, s) <==> x.symbols == w;
      }
    }
  }

  /** `x` is in `Own(ps, w)` exactly when it is one of `ps` spelling `w`. */
  lemma {:induction false} OwnMember(ps: seq<Str>, w: seq<Alpha>, x: Str)
    ensures x in Own(ps, w) <==> x in ps && x.symbols == w
  {
    if ps != [] {
      OwnMember(ps[..|ps| - 1], w, x);
      assert ps == ps[..|ps| - 1] + [ps[|ps| - 1]];
    }
  }

  /** `SuffixList` only looks at the last `len` symbols. */
  lemma {:induction false} SuffixListSame(patterns: seq<Str>, s: seq<Alpha>, s': seq<Alpha>, len: nat)
    requires len <= |s| && len <= |s'| && s[|s| - len..] == s'[|s'| - len..]
    ensures SuffixList(patterns, s, len) == SuffixList(patterns, s', len)
    decreases len
  {
    if len > 0 {
      assert s[|s| - (len - 1)..] == s[|s| - len..][1..];
      assert s'[|s'| - (len - 1)..] == s'[|s'| - len..][1..];
      SuffixListSame(patterns, s, s', len - 1);
    }
  }

  /** No added pattern spells the last `len` symbols of `s` when none of that length is a suffix of `s`. */
  lemma NoOwn(patterns: seq<Str>, s: seq<Alpha>, len: nat)
    requires len <= |s|
    requires forall k :: 0 <= k < |patterns| && |patterns[k].symbols| == len ==> !IsSuffix(patterns[k].symbols, s)
    ensures Own(patterns, s[|s| - len..]) == []
  {
    forall k | 0 <= k < |patterns|
      ensures patterns[k].symbols != s[|s| - len..]
    {
      assert patterns[k].symbols == s[|s| - len..] ==> IsSuffix(patterns[k].symbols, s);
    }
    OwnNone(patterns, s[|s| - len..]);
  }

  /** No pattern spelling `w`, nothing owned. */
  lemma {:induction false} OwnNone(ps: seq<Str>, w: seq<Alpha>)
    requires forall k :: 0 <= k < |ps| ==> ps[k].symbols != w
    ensures Own(ps, w) == []
  {
    if ps != [] {
      OwnNone(ps[..|ps| - 1], w);
    }
  }

  /** Lengths in `(lo, hi]` that no added pattern has as a suffix of `s` add nothing to the list. */
  lemma {:induction false} SuffixListGap(patterns: seq<Str>, s: seq<Alpha>, lo: nat, hi: nat)
    requires lo <= hi <= |s|
    requires forall k :: 0 <= k < |patterns| && lo < |patterns[k].symbols| <= hi ==> !IsSuffix(patterns[k].symbols, s)
    ensures SuffixList(patterns, s, hi) == SuffixList(patterns, s, lo)
    decreases hi
  {
    if lo < hi {
      NoOwn(patterns, s, hi);
      SuffixListGap(patterns, s, lo, hi - 1);
    }
  }

  /**
   * Once every failure link is in place, what a node collects down its failure
   * chain is exactly the naive list: the added patterns that are suffixes of
   * its path, longest first.
   */
  lemma {:induction false} CollectIsSuffixList(g: seq<NodeV>, paths: seq<seq<Alpha>>, parent: seq<nat>,
                                                 patterns: seq<Str>, ends: seq<nat>, v: nat)
    requires Shape(g, paths, parent) && LinksComplete(g, paths) && PatternsIn(paths, patterns, ends) && v < |g|
    ensures ChainOk(g, paths)
    ensures Collect(g, paths, patterns, v) == SuffixList(patterns, paths[v], |paths[v]|)
    decreases |paths[v]|
  {
    LinksSoundChainOk(g, paths);
    var w := paths[v];
    if v == Root {
      forall k | 0 <= k < |patterns|
        ensures patterns[k].symbols != w
      {
        assert PatternOk(paths, patterns, ends, k);
      }
      OwnNone(patterns, w);
    } else {
      var f := g[v].failure.value;
      assert IsFailureLink(paths, v, f);
      CollectIsSuffixList(g, paths, parent, patterns, ends, f);
      assert w[|w| - |w|..] == w;
      forall k | 0 <= k < |patterns| && |paths[f]| < |patterns[k].symbols| <= |w| - 1
        ensures !IsSuffix(patterns[k].symbols, w)
      {
        assert PatternOk(paths, patterns, ends, k);
      }
      SuffixListGap(patterns, w, |paths[f]|, |w| - 1);
      SuffixListSame(patterns, w, paths[f], |paths[f]|);
    }
  }

  /** `c` spells the longest suffix of the history `h` that some node spells. */
  ghost predicate Longest(paths: seq<seq<Alpha>>, h: seq<Alpha>, c: nat) {
    && c < |paths| && IsSuffix(paths[c], h)
    && forall u :: 0 <= u < |paths| && IsSuffix(paths[u], h) ==> |paths[u]| <= |paths[c]|
  }

  /**
   * Looking for an edge for `a` after the history `h`: `c` spells a suffix of
   * `h`, and every node spelling a suffix of `h + [a]` extends one no longer
   * than `c`'s path.
   */
  ghost predicate Bound(paths: seq<seq<Alpha>>, h: seq<Alpha>, a: Alpha, c: nat) {
    && c < |paths| && IsSuffix(paths[c], h)
    && forall u :: 0 <= u < |paths| && 1 <= |paths[u]| && IsSuffix(paths[u], h + [a]) ==> |paths[u]| <= |paths[c]| + 1
  }

  /** Before a search, at the root with nothing consumed, the root spells the longest suffix. */
  lemma LongestEmpty(g: seq<NodeV>, paths: seq<seq<Alpha>>, parent: seq<nat>)
    requires Shape(g, paths, parent)
    ensures Longest(paths, [], Root)
  {
  }

  /** A node spelling a suffix of `h + [a]` hangs from a node spelling a suffix of `h`. */
  lemma ParentSuffix(g: seq<NodeV>, paths: seq<seq<Alpha>>, parent: seq<nat>, h: seq<Alpha>, a: Alpha, u: nat)
    requires Shape(g, paths, parent) && u < |g| && 1 <= |paths[u]| && IsSuffix(paths[u], h + [a])
    ensures u != Root && parent[u] < |g| && paths[u] == paths[parent[u]] + [a] && IsSuffix(paths[parent[u]], h)
  {
    assert NodeOk(g, paths, parent, u) && ParentOk(g, paths, parent, u);
    var s := h + [a];
    var p := paths[u];
    assert p[|p| - 1] == s[|s| - 1];
    assert p == p[..|p| - 1] + [a];
    assert h[|h| - (|p| - 1)..] == s[|s| - |p|..][..|p| - 1];
  }

  /** The longest suffix bounds the nodes that the next symbol can reach. */
  lemma LongestBound(g: seq<NodeV>, paths: seq<seq<Alpha>>, parent: seq<nat>, h: seq<Alpha>, a: Alpha, c: nat)
    requires Shape(g, paths, parent) && Longest(paths, h, c)
    ensures Bound(paths, h, a, c)
  {
    forall u | 0 <= u < |paths| && 1 <= |paths[u]| && IsSuffix(paths[u], h + [a])
      ensures |paths[u]| <= |paths[c]| + 1
    {
      ParentSuffix(g, paths, parent, h, a, u);
    }
  }

  /** Taking the edge for `a` reaches the longest suffix of `h + [a]`. */
  lemma BoundEdge(g: seq<NodeV>, paths: seq<seq<Alpha>>, parent: seq<nat>, h: seq<Alpha>, a: Alpha, c: nat, t: nat)
    requires Shape(g, paths, parent) && Bound(paths, h, a, c) && Find(g[c].outgoing, a) == Some(t)
    ensures Longest(paths, h + [a], t)
  {
    FindChild(g, paths, parent, c, a);
    var s := h + [a];
    assert s[|s| - |paths[t]|..] == h[|h| - |paths[c]|..] + [a];
  }

  /** With no edge for `a`, the failure node keeps the bound. */
  lemma BoundFailure(g: seq<NodeV>, paths: seq<seq<Alpha>>, parent: seq<nat>, h: seq<Alpha>, a: Alpha, c: nat)
    requires Shape(g, paths, parent) && LinksSound(g, paths) && Bound(paths, h, a, c)
    requires Find(g[c].outgoing, a).None? && g[c].failure.Some?
    ensures Bound(paths, h, a, g[c].failure.value)
  {
    var f := g[c].failure.value;
    assert IsFailureLink(paths, c, f);
    assert h[|h| - |paths[f]|..] == h[|h| - |paths[c]|..][|paths[c]| - |paths[f]|..];
    forall u | 0 <= u < |paths| && 1 <= |paths[u]| && IsSuffix(paths[u], h + [a])
      ensures |paths[u]| <= |paths[f]| + 1
    {
      ParentSuffix(g, paths, parent, h, a, u);
      var w := paths[parent[u]];
      if w == paths[c] {
        ChildFound(g, paths, parent, c, a, u);
      }
      assert w != paths[c];
      assert |w| < |paths[c]|;
      assert paths[c][|paths[c]| - |w|..] == h[|h| - |w|..];
    }
  }

  /** At the root with no edge for `a`, the root is the longest suffix of `h + [a]`. */
  lemma BoundRoot(g: seq<NodeV>, paths: seq<seq<Alpha>>, parent: seq<nat>, h: seq<Alpha>, a: Alpha)
    requires Shape(g, paths, parent) && Bound(paths, h, a, Root) && Find(g[Root].outgoing, a).None?
    ensures Longest(paths, h + [a], Root)
  {
    forall u | 0 <= u < |paths| && IsSuffix(paths[u], h + [a])
      ensures |paths[u]| <= |paths[Root]|
    {
      if 1 <= |paths[u]| {
        ParentSuffix(g, paths, parent, h, a, u);
        assert NodeOk(g, paths, parent, u) && ParentOk(g, paths, parent, u);
        PathsInjective(g, paths, parent, parent[u], Root);
        ChildFound(g, paths, parent, Root, a, u);
      }
    }
  }

  /**
   * In a closed trie, the node spelling the longest suffix of `s` holds the
   * naive list for `s`, and is final exactly when that list is not empty.
   */
  lemma NodeList(g: seq<NodeV>, paths: seq<seq<Alpha>>, parent: seq<nat>, patterns: seq<Str>, ends: seq<nat>,
                 s: seq<Alpha>, t: nat)
    requires Built(g, paths, parent, patterns, ends) && Longest(paths, s, t)
    ensures g[t].matched == SuffixList(patterns, s, |s|)
    ensures g[t].final <==> g[t].matched != []
  {
    assert ClosedAt(g, paths, patterns, t);
    CollectIsSuffixList(g, paths, parent, patterns, ends, t);
    forall k | 0 <= k < |patterns| && |paths[t]| < |patterns[k].symbols| <= |s|
      ensures !IsSuffix(patterns[k].symbols, s)
    {
      assert PatternOk(paths, patterns, ends, k);
    }
    SuffixListGap(patterns, s, |paths[t]|, |s|);
    SuffixListSame(patterns, s, paths[t], |paths[t]|);
  }

  /** A trie of added patterns with every failure link located. */
  ghost predicate Built(g: seq<NodeV>, paths: seq<seq<Alpha>>, parent: seq<nat>, patterns: seq<Str>, ends: seq<nat>) {
    Shape(g, paths, parent) && PatternsIn(paths, patterns, ends) && Closed(g, paths, patterns)
  }

  /**
   * The naive search over `w` after the history `h`: after each symbol, the
   * added patterns that end there, reported at the symbol's 1-based position
   * in `h + w` when there are any.
   */
  function Occurrences(patterns: seq<Str>, h: seq<Alpha>, w: seq<Alpha>): seq<Match>
    decreases |w|
  {
    if w == [] then []
    else
      var s := h + [w[0]];
      var l := SuffixList(patterns, s, |s|);
      (if l == [] then [] else [Match(|s|, l)]) + Occurrences(patterns, s, w[1..])
  }

  /** The naive search over `x + y` is the search over `x` followed by the search over `y` after it. */
  lemma {:induction false} OccurrencesConcat(patterns: seq<Str>, h: seq<Alpha>, x: seq<Alpha>, y: seq<Alpha>)
    ensures Occurrences(patterns, h, x + y) == Occurrences(patterns, h, x) + Occurrences(patterns, h + x, y)
    decreases |x|
  {
    if x == [] {
      assert x + y == y && h + x == h;
    } else {
      var s := h + [x[0]];
      var l := SuffixList(patterns, s, |s|);
      var r: seq<Match> := if l == [] then [] else [Match(|s|, l)];
      assert (x + y)[0] == x[0] && (x + y)[1..] == x[1..] + y;
      OccurrencesConcat(patterns, s, x[1..], y);
      assert s + x[1..] == h + x;
      assert r + (Occurrences(patterns, s, x[1..]) + Occurrences(patterns, h + x, y)) ==
             (r + Occurrences(patterns, s, x[1..])) + Occurrences(patterns, h + x, y);
    }
  }

  /**
   * `o` is explained by the naive search after the history `h`: over the
   * symbols of `text` it consumed it reported what the naive search reports,
   * and it stopped at the node spelling the longest suffix of the extended
   * history.
   */
  ghost predicate Found(paths: seq<seq<Alpha>>, patterns: seq<Str>, h: seq<Alpha>, text: seq<Alpha>, o: Outcome) {
    && o.consumed <= |text|
    && Longest(paths, h + text[..o.consumed], o.node)
    && o.reports == Occurrences(patterns, h, text[..o.consumed])
  }

  /**
   * The search is correct: started where the current node spells the longest
   * suffix of the history `h` (or is on its way to the next symbol's edge),
   * with `|h|` symbols consumed before, it reports exactly what the naive
   * search reports over the symbols it consumes, and ends at the node spelling
   * the longest suffix of the extended history.
   */
  lemma {:induction false} ScanFinds(g: seq<NodeV>, paths: seq<seq<Alpha>>, parent: seq<nat>, patterns: seq<Str>,
                                     ends: seq<nat>, cur: nat, h: seq<Alpha>, text: seq<Alpha>,
                                     cb: Callback, an: int, tn: int)
    requires Built(g, paths, parent, patterns, ends) && cur < |g|
    requires Longest(paths, h, cur) || (text != [] && Bound(paths, h, text[0], cur))
    ensures Linked(g, paths)
    ensures Found(paths, patterns, h, text, Scan(g, paths, cur, |h|, text, cb, an, tn))
    decreases |text|, |paths[cur]|, 1
  {
    ClosedLinked(g, paths, parent, patterns);
    if text == [] {
      assert h + text[..0] == h;
      return;
    }
    var a := text[0];
    if Longest(paths, h, cur) {
      LongestBound(g, paths, parent, h, a, cur);
    }
    FindTarget(g, paths, cur, a);
    match Find(g[cur].outgoing, a)
    case Some(t) =>
      FindsEdge(g, paths, parent, patterns, ends, cur, h, text, cb, an, tn, t);
    case None =>
      if g[cur].failure.Some? {
        FindsFollow(g, paths, parent, patterns, ends, cur, h, text, cb, an, tn);
      } else {
        FindsSkip(g, paths, parent, patterns, ends, cur, h, text, cb, an, tn);
      }
  }

  /** `ScanFinds` when the next symbol has an edge to `t`. */
  lemma {:induction false} FindsEdge(g: seq<NodeV>, paths: seq<seq<Alpha>>, parent: seq<nat>, patterns: seq<Str>,
                                     ends: seq<nat>, cur: nat, h: seq<Alpha>, text: seq<Alpha>,
                                     cb: Callback, an: int, tn: int, t: nat)
    requires Built(g, paths, parent, patterns, ends) && cur < |g| && text != [] && Bound(paths, h, text[0], cur)
    requires Find(g[cur].outgoing, text[0]) == Some(t)
    ensures Linked(g, paths)
    ensures Found(paths, patterns, h, text, Scan(g, paths, cur, |h|, text, cb, an, tn))
    decreases |text|, |paths[cur]|, 0
  {
    BoundEdge(g, paths, parent, h, text[0], cur, t);
    ScanFinds(g, paths, parent, patterns, ends, t, h + [text[0]], text[1..], cb, an, tn);
    EdgeStep(g, paths, parent, patterns, ends, cur, h, text, cb, an, tn, t);
  }

  /** `ScanFinds` when the next symbol has no edge and there is a failure link to follow. */
  lemma {:induction false} FindsFollow(g: seq<NodeV>, paths: seq<seq<Alpha>>, parent: seq<nat>, patterns: seq<Str>,
                                       ends: seq<nat>, cur: nat, h: seq<Alpha>, text: seq<Alpha>,
                                       cb: Callback, an: int, tn: int)
    requires Built(g, paths, parent, patterns, ends) && cur < |g| && text != [] && Bound(paths, h, text[0], cur)
    requires Find(g[cur].outgoing, text[0]).None? && g[cur].failure.Some?
    ensures Linked(g, paths)
    ensures Found(paths, patterns, h, text, Scan(g, paths, cur, |h|, text, cb, an, tn))
    decreases |text|, |paths[cur]|, 0
  {
    ClosedLinked(g, paths, parent, patterns);
    BoundFailure(g, paths, parent, h, text[0], cur);
    ScanFinds(g, paths, parent, patterns, ends, g[cur].failure.value, h, text, cb, an, tn);
    ScanFollow(g, paths, cur, |h|, text, cb, an, tn);
  }

  /** `ScanFinds` when the next symbol has no edge from a node without failure link: the root. */
  lemma {:induction false} FindsSkip(g: seq<NodeV>, paths: seq<seq<Alpha>>, parent: seq<nat>, patterns: seq<Str>,
                                     ends: seq<nat>, cur: nat, h: seq<Alpha>, text: seq<Alpha>,
                                     cb: Callback, an: int, tn: int)
    requires Built(g, paths, parent, patterns, ends) && cur < |g| && text != [] && Bound(paths, h, text[0], cur)
    requires Find(g[cur].outgoing, text[0]).None? && g[cur].failure.None?
    ensures Linked(g, paths)
    ensures Found(paths, patterns, h, text, Scan(g, paths, cur, |h|, text, cb, an, tn))
    decreases |text|, |paths[cur]|, 0
  {
    ClosedLinked(g, paths, parent, patterns);
    var s := h + [text[0]];
    assert cur == Root;
    BoundRoot(g, paths, parent, h, text[0]);
    NodeList(g, paths, parent, patterns, ends, s, Root);
    CollectIsSuffixList(g, paths, parent, patterns, ends, Root);
    assert ClosedAt(g, paths, patterns, Root);
    ScanFinds(g, paths, parent, patterns, ends, Root, s, text[1..], cb, an, tn);
    SkipStep(g, paths, patterns, h, text, cb, an, tn);
  }

  /** `ScanFinds` across an edge, from what it states after the edge. */
  lemma EdgeStep(g: seq<NodeV>, paths: seq<seq<Alpha>>, parent: seq<nat>, patterns: seq<Str>, ends: seq<nat>,
                 cur: nat, h: seq<Alpha>, text: seq<Alpha>, cb: Callback, an: int, tn: int, t: nat)
    requires Built(g, paths, parent, patterns, ends) && Linked(g, paths)
    requires cur < |g| && text != [] && Find(g[cur].outgoing, text[0]) == Some(t)
    requires Longest(paths, h + [text[0]], t)
    requires Found(paths, patterns, h + [text[0]], text[1..], Scan(g, paths, t, |h| + 1, text[1..], cb, an, tn))
    ensures Found(paths, patterns, h, text, Scan(g, paths, cur, |h|, text, cb, an, tn))
  {
    NodeList(g, paths, parent, patterns, ends, h + [text[0]], t);
    ScanEdge(g, paths, cur, |h|, text, cb, an, tn, t);
    var o := Scan(g, paths, cur, |h|, text, cb, an, tn);
    var o' := Scan(g, paths, t, |h| + 1, text[1..], cb, an, tn);
    var m := Match(|h| + 1, g[t].matched);
    if !g[t].final {
      Compose(paths, patterns, h, text, [], o', o);
    } else if cb(m, an, tn) != 0 {
      var last := Outcome([], t, 0, true);
      assert (h + [text[0]]) + text[1..][..0] == h + [text[0]];
      Compose(paths, patterns, h, text, [m], last, o);
    } else {
      Compose(paths, patterns, h, text, [m], o', o);
    }
  }

  /** `ScanFinds` across a skipped symbol at the root, from what it states after it. */
  lemma SkipStep(g: seq<NodeV>, paths: seq<seq<Alpha>>, patterns: seq<Str>, h: seq<Alpha>, text: seq<Alpha>,
                 cb: Callback, an: int, tn: int)
    requires Linked(g, paths) && Root < |g| && text != [] && Find(g[Root].outgoing, text[0]).None? && g[Root].failure.None?
    requires SuffixList(patterns, h + [text[0]], |h| + 1) == []
    requires Found(paths, patterns, h + [text[0]], text[1..], Scan(g, paths, Root, |h| + 1, text[1..], cb, an, tn))
    ensures Found(paths, patterns, h, text, Scan(g, paths, Root, |h|, text, cb, an, tn))
  {
    ScanSkip(g, paths, Root, |h|, text, cb, an, tn);
    var o' := Scan(g, paths, Root, |h| + 1, text[1..], cb, an, tn);
    Compose(paths, patterns, h, text, [], o', Scan(g, paths, Root, |h|, text, cb, an, tn));
  }

  /**
   * One consumed symbol in front of an outcome that matches the naive search
   * on the rest: when the symbol reports what the naive search reports for it,
   * the whole matches the naive search too.
   */
  lemma Compose(paths: seq<seq<Alpha>>, patterns: seq<Str>, h: seq<Alpha>, text: seq<Alpha>,
                rs: seq<Match>, o': Outcome, o: Outcome)
    requires text != []
    requires o.reports == rs + o'.reports && o.consumed == 1 + o'.consumed && o.node == o'.node
    requires var l := SuffixList(patterns, h + [text[0]], |h| + 1);
             rs == if l == [] then [] else [Match(|h| + 1, l)]
    requires Found(paths, patterns, h + [text[0]], text[1..], o')
    ensures Found(paths, patterns, h, text, o)
  {
    ConsumedSplit(patterns, h, text, o'.consumed);
  }

  /** Consuming the first symbol and then `k` more is consuming `k + 1`, and so is the naive search over them. */
  lemma ConsumedSplit(patterns: seq<Str>, h: seq<Alpha>, text: seq<Alpha>, k: nat)
    requires k < |text|
    ensures (h + [text[0]]) + text[1..][..k] == h + text[..k + 1]
    ensures var l := SuffixList(patterns, h + [text[0]], |h| + 1);
            Occurrences(patterns, h, text[..k + 1]) ==
              (if l == [] then [] else [Match(|h| + 1, l)]) + Occurrences(patterns, h + [text[0]], text[1..][..k])
  {
    assert text[..k + 1] == [text[0]] + text[1..][..k];
    assert text[..k + 1][1..] == text[1..][..k];
  }
}
