/**
 * What one search call over a closed automaton does, as a function of the
 * arena, the state it starts from and the text: the reports handed to the
 * match callback, the node it stops in, how many symbols it consumed and
 * whether the callback asked it to stop.
 */
module Scanning {
  import opened AcTypes
  import opened AcNode
  import opened Trie

  /** The match callback: a nonzero answer stops the search. */
  type Callback = (Match, int, int) -> int

  datatype Outcome = Outcome(reports: seq<Match>, node: nat, consumed: nat, stopped: bool)

  /** `o`, preceded by the reports `rs` made while consuming `k` earlier symbols. */
  function Then(rs: seq<Match>, k: nat, o: Outcome): Outcome {
    Outcome(rs + o.reports, o.node, k + o.consumed, o.stopped)
  }

  /** Edge targets stay in the arena and failure links lead strictly upwards. */
  ghost predicate Linked(g: seq<NodeV>, paths: seq<seq<Alpha>>) {
    && ChainOk(g, paths)
    && forall v, i :: 0 <= v < |g| && 0 <= i < |g[v].outgoing| ==> g[v].outgoing[i].next < |g|
  }

  /** A closed trie is linked, and every node's edges are strictly sorted, as the binary search needs. */
  lemma ClosedLinked(g: seq<NodeV>, paths: seq<seq<Alpha>>, parent: seq<nat>, patterns: seq<Str>)
    requires Shape(g, paths, parent) && Closed(g, paths, patterns)
    ensures Linked(g, paths)
    ensures forall v :: 0 <= v < |g| ==> StrictlySorted(g[v].outgoing)
  {
    forall v, i | 0 <= v < |g| && 0 <= i < |g[v].outgoing|
      ensures g[v].outgoing[i].next < |g|
    {
      assert NodeOk(g, paths, parent, v);
      assert g[v].outgoing[i] in g[v].outgoing;
    }
    forall v | 0 <= v < |g|
      ensures StrictlySorted(g[v].outgoing)
    {
      assert ClosedAt(g, paths, patterns, v);
    }
  }

  lemma FindTarget(g: seq<NodeV>, paths: seq<seq<Alpha>>, v: nat, a: Alpha)
    requires Linked(g, paths) && v < |g|
    ensures Find(g[v].outgoing, a).Some? ==> Find(g[v].outgoing, a).value < |g|
  {
    FindIsFirstMatch(g[v].outgoing, a);
  }

  /**
   * The search loop from node `cur` with `base` symbols consumed before `text`:
   * an edge for the next symbol is taken and the symbol consumed, reporting the
   * target's matched list at the symbol's 1-based position when the target is
   * final; with no edge the failure link is followed without consuming; at the
   * root, which has none, the symbol is skipped.
   */
  function Scan(g: seq<NodeV>, paths: seq<seq<Alpha>>, cur: nat, base: nat, text: seq<Alpha>,
                cb: Callback, an: int, tn: int): (r: Outcome)
    requires Linked(g, paths) && cur < |g|
    ensures r.node < |g| && r.consumed <= |text|
    ensures !r.stopped ==> r.consumed == |text|
    ensures r.stopped ==> 1 <= r.consumed && r.reports != [] && cb(r.reports[|r.reports| - 1], an, tn) != 0
    decreases |text|, |paths[cur]|
  {
    if text == [] then Outcome([], cur, 0, false)
    else
      FindTarget(g, paths, cur, text[0]);
      match Find(g[cur].outgoing, text[0])
      case Some(t) =>
        if g[t].final then
          var m := Match(base + 1, g[t].matched);
          if cb(m, an, tn) != 0 then Outcome([m], t, 1, true)
          else Then([m], 1, Scan(g, paths, t, base + 1, text[1..], cb, an, tn))
        else Then([], 1, Scan(g, paths, t, base + 1, text[1..], cb, an, tn))
      case None =>
        match g[cur].failure
        case Some(f) => Scan(g, paths, f, base, text, cb, an, tn)
        case None => Then([], 1, Scan(g, paths, cur, base + 1, text[1..], cb, an, tn))
  }

  /** `Then` composes: reports and consumption add up. */
  lemma ThenThen(rs: seq<Match>, k: nat, ms: seq<Match>, j: nat, o: Outcome)
    ensures Then(rs, k, Then(ms, j, o)) == Then(rs + ms, k + j, o)
  {
    assert rs + (ms + o.reports) == (rs + ms) + o.reports;
  }

  /** With no edge for the next symbol and a failure link, the search goes on from the failure node. */
  lemma ScanFollow(g: seq<NodeV>, paths: seq<seq<Alpha>>, cur: nat, base: nat, text: seq<Alpha>, cb: Callback, an: int, tn: int)
    requires Linked(g, paths) && cur < |g| && text != []
    requires Find(g[cur].outgoing, text[0]).None? && g[cur].failure.Some?
    ensures g[cur].failure.value < |g|
    ensures Scan(g, paths, cur, base, text, cb, an, tn) == Scan(g, paths, g[cur].failure.value, base, text, cb, an, tn)
  {
  }

  /** With no edge for the next symbol and no failure link, the symbol is skipped. */
  lemma ScanSkip(g: seq<NodeV>, paths: seq<seq<Alpha>>, cur: nat, base: nat, text: seq<Alpha>, cb: Callback, an: int, tn: int)
    requires Linked(g, paths) && cur < |g| && text != []
    requires Find(g[cur].outgoing, text[0]).None? && g[cur].failure.None?
    ensures Scan(g, paths, cur, base, text, cb, an, tn) == Then([], 1, Scan(g, paths, cur, base + 1, text[1..], cb, an, tn))
  {
  }

  /** Taking the edge to `t` consumes the symbol, and reports `t`'s list when it is final. */
  lemma ScanEdge(g: seq<NodeV>, paths: seq<seq<Alpha>>, cur: nat, base: nat, text: seq<Alpha>, cb: Callback, an: int, tn: int, t: nat)
    requires Linked(g, paths) && cur < |g| && text != []
    requires Find(g[cur].outgoing, text[0]) == Some(t)
    ensures t < |g|
    ensures var m := Match(base + 1, g[t].matched);
            var rest := Scan(g, paths, t, base + 1, text[1..], cb, an, tn);
            Scan(g, paths, cur, base, text, cb, an, tn) ==
              if !g[t].final then Then([], 1, rest)
              else if cb(m, an, tn) != 0 then Outcome([m], t, 1, true)
              else Then([m], 1, rest)
  {
    FindTarget(g, paths, cur, text[0]);
  }

  /** Searching `x + y` from `cur` in one call is searching `x` and then, unless stopped, `y`. */
  ghost predicate Chunks(g: seq<NodeV>, paths: seq<seq<Alpha>>, cur: nat, base: nat, x: seq<Alpha>, y: seq<Alpha>,
                         cb: Callback, an: int, tn: int)
    requires Linked(g, paths) && cur < |g|
  {
    var o := Scan(g, paths, cur, base, x, cb, an, tn);
    Scan(g, paths, cur, base, x + y, cb, an, tn) ==
      if o.stopped then o else Then(o.reports, |x|, Scan(g, paths, o.node, base + |x|, y, cb, an, tn))
  }

  /**
   * Searching `x + y` in one call is searching `x`, then, unless the callback
   * stopped it, resuming from the node and position it ended at over `y`.
   */
  lemma {:induction false} ScanConcat(g: seq<NodeV>, paths: seq<seq<Alpha>>, cur: nat, base: nat, x: seq<Alpha>, y: seq<Alpha>,
                                      cb: Callback, an: int, tn: int)
    requires Linked(g, paths) && cur < |g|
    ensures Chunks(g, paths, cur, base, x, y, cb, an, tn)
    decreases |x|, |paths[cur]|, 1
  {
    if x == [] {
      var o' := Scan(g, paths, cur, base, y, cb, an, tn);
      assert x + y == y && [] + o'.reports == o'.reports;
      return;
    }
    var a := x[0];
    FindTarget(g, paths, cur, a);
    match Find(g[cur].outgoing, a)
    case Some(t) =>
      ConcatEdge(g, paths, cur, base, x, y, cb, an, tn, t);
    case None =>
      if g[cur].failure.Some? {
        ScanFollow(g, paths, cur, base, x, cb, an, tn);
        ScanFollow(g, paths, cur, base, x + y, cb, an, tn);
        ScanConcat(g, paths, g[cur].failure.value, base, x, y, cb, an, tn);
      } else {
        ConcatSkip(g, paths, cur, base, x, y, cb, an, tn);
      }
  }

  /** `ScanConcat` when the first symbol has an edge to `t`. */
  lemma {:induction false} ConcatEdge(g: seq<NodeV>, paths: seq<seq<Alpha>>, cur: nat, base: nat, x: seq<Alpha>, y: seq<Alpha>,
                                      cb: Callback, an: int, tn: int, t: nat)
    requires Linked(g, paths) && cur < |g| && x != [] && Find(g[cur].outgoing, x[0]) == Some(t)
    ensures Chunks(g, paths, cur, base, x, y, cb, an, tn)
    decreases |x|, |paths[cur]|, 0
  {
    assert (x + y)[0] == x[0] && (x + y)[1..] == x[1..] + y;
    ScanEdge(g, paths, cur, base, x, cb, an, tn, t);
    ScanEdge(g, paths, cur, base, x + y, cb, an, tn, t);
    ScanConcat(g, paths, t, base + 1, x[1..], y, cb, an, tn);
    var o1 := Scan(g, paths, t, base + 1, x[1..], cb, an, tn);
    var rest := Scan(g, paths, o1.node, base + |x|, y, cb, an, tn);
    var m := Match(base + 1, g[t].matched);
    if !g[t].final {
      ThenChunks([], o1, Scan(g, paths, t, base + 1, x[1..] + y, cb, an, tn), rest, |x| - 1);
    } else if cb(m, an, tn) == 0 {
      ThenChunks([m], o1, Scan(g, paths, t, base + 1, x[1..] + y, cb, an, tn), rest, |x| - 1);
    }
  }

  /** `ScanConcat` when the first symbol is skipped at a node without edge or failure link. */
  lemma {:induction false} ConcatSkip(g: seq<NodeV>, paths: seq<seq<Alpha>>, cur: nat, base: nat, x: seq<Alpha>, y: seq<Alpha>,
                                      cb: Callback, an: int, tn: int)
    requires Linked(g, paths) && cur < |g| && x != [] && Find(g[cur].outgoing, x[0]).None? && g[cur].failure.None?
    ensures Chunks(g, paths, cur, base, x, y, cb, an, tn)
    decreases |x|, |paths[cur]|, 0
  {
    assert (x + y)[0] == x[0] && (x + y)[1..] == x[1..] + y;
    ScanSkip(g, paths, cur, base, x, cb, an, tn);
    ScanSkip(g, paths, cur, base, x + y, cb, an, tn);
    ScanConcat(g, paths, cur, base + 1, x[1..], y, cb, an, tn);
    var o1 := Scan(g, paths, cur, base + 1, x[1..], cb, an, tn);
    var rest := Scan(g, paths, o1.node, base + |x|, y, cb, an, tn);
    ThenChunks([], o1, Scan(g, paths, cur, base + 1, x[1..] + y, cb, an, tn), rest, |x| - 1);
  }

  /** Consuming one symbol with reports `rs` in front of a chunked search keeps it chunked. */
  lemma ThenChunks(rs: seq<Match>, o1: Outcome, whole: Outcome, rest: Outcome, k: nat)
    requires whole == if o1.stopped then o1 else Then(o1.reports, k, rest)
    ensures var o := Then(rs, 1, o1);
            Then(rs, 1, whole) == if o.stopped then o else Then(o.reports, k + 1, rest)
  {
    if !o1.stopped {
      ThenThen(rs, 1, o1.reports, k, rest);
    }
  }

  /**
   * Every report of a call lies among the symbols it consumed: at a position
   * after `base` and at most `base` plus the consumed count, strictly
   * increasing from one report to the next.
   */
  lemma {:induction false} ScanPositions(g: seq<NodeV>, paths: seq<seq<Alpha>>, cur: nat, base: nat, text: seq<Alpha>,
                                         cb: Callback, an: int, tn: int)
    requires Linked(g, paths) && cur < |g|
    ensures var o := Scan(g, paths, cur, base, text, cb, an, tn);
            && (forall i :: 0 <= i < |o.reports| ==> base < o.reports[i].position <= base + o.consumed)
            && (forall i, j :: 0 <= i < j < |o.reports| ==> o.reports[i].position < o.reports[j].position)
    decreases |text|, |paths[cur]|
  {
    if text == [] {
      return;
    }
    var a := text[0];
    FindTarget(g, paths, cur, a);
    match Find(g[cur].outgoing, a)
    case Some(t) =>
      ScanEdge(g, paths, cur, base, text, cb, an, tn, t);
      ScanPositions(g, paths, t, base + 1, text[1..], cb, an, tn);
    case None =>
      if g[cur].failure.Some? {
        ScanFollow(g, paths, cur, base, text, cb, an, tn);
        ScanPositions(g, paths, g[cur].failure.value, base, text, cb, an, tn);
      } else {
        ScanSkip(g, paths, cur, base, text, cb, an, tn);
        ScanPositions(g, paths, cur, base + 1, text[1..], cb, an, tn);
      }
  }

  /**
   * The search loop's state: `o` is what the whole call yields when `reports`
   * were made while consuming the first `pos` symbols and the search is at `cur`.
   */
  ghost predicate Resumes(g: seq<NodeV>, paths: seq<seq<Alpha>>, o: Outcome, reports: seq<Match>, pos: nat, cur: nat,
                          base: nat, text: seq<Alpha>, cb: Callback, an: int, tn: int)
    requires Linked(g, paths)
  {
    && cur < |g| && pos <= |text|
    && o == Then(reports, pos, Scan(g, paths, cur, base + pos, text[pos..], cb, an, tn))
  }

  /** Loop step with no edge and a failure link: the same position, the failure node, a shorter path. */
  lemma ResumesFollow(g: seq<NodeV>, paths: seq<seq<Alpha>>, o: Outcome, reports: seq<Match>, pos: nat, cur: nat,
                      base: nat, text: seq<Alpha>, cb: Callback, an: int, tn: int)
    requires Linked(g, paths) && Resumes(g, paths, o, reports, pos, cur, base, text, cb, an, tn) && pos < |text|
    requires Find(g[cur].outgoing, text[pos]).None? && g[cur].failure.Some?
    ensures |paths[g[cur].failure.value]| < |paths[cur]|
    ensures Resumes(g, paths, o, reports, pos, g[cur].failure.value, base, text, cb, an, tn)
  {
    var rest := text[pos..];
    assert rest[0] == text[pos];
    ScanFollow(g, paths, cur, base + pos, rest, cb, an, tn);
  }

  /** Loop step with no edge at the root: the symbol is skipped. */
  lemma ResumesSkip(g: seq<NodeV>, paths: seq<seq<Alpha>>, o: Outcome, reports: seq<Match>, pos: nat, cur: nat,
                    base: nat, text: seq<Alpha>, cb: Callback, an: int, tn: int)
    requires Linked(g, paths) && Resumes(g, paths, o, reports, pos, cur, base, text, cb, an, tn) && pos < |text|
    requires Find(g[cur].outgoing, text[pos]).None? && g[cur].failure.None?
    ensures Resumes(g, paths, o, reports, pos + 1, cur, base, text, cb, an, tn)
  {
    var rest := text[pos..];
    assert rest[0] == text[pos] && rest[1..] == text[pos + 1..];
    ScanSkip(g, paths, cur, base + pos, rest, cb, an, tn);
    ThenThen(reports, pos, [], 1, Scan(g, paths, cur, base + pos + 1, text[pos + 1..], cb, an, tn));
  }

  /**
   * Loop step along the edge to `t`: the symbol is consumed and, when `t` is
   * final, its list is reported at the new position; a nonzero answer of the
   * callback ends the whole call there.
   */
  lemma ResumesEdge(g: seq<NodeV>, paths: seq<seq<Alpha>>, o: Outcome, reports: seq<Match>, pos: nat, cur: nat,
                    base: nat, text: seq<Alpha>, cb: Callback, an: int, tn: int, t: nat)
    requires Linked(g, paths) && Resumes(g, paths, o, reports, pos, cur, base, text, cb, an, tn) && pos < |text|
    requires Find(g[cur].outgoing, text[pos]) == Some(t)
    ensures t < |g|
    ensures !g[t].final ==> Resumes(g, paths, o, reports, pos + 1, t, base, text, cb, an, tn)
    ensures var m := Match(base + pos + 1, g[t].matched);
            g[t].final ==>
              if cb(m, an, tn) != 0 then o == Outcome(reports + [m], t, pos + 1, true)
              else Resumes(g, paths, o, reports + [m], pos + 1, t, base, text, cb, an, tn)
  {
    var rest := text[pos..];
    assert rest[0] == text[pos] && rest[1..] == text[pos + 1..];
    ScanEdge(g, paths, cur, base + pos, rest, cb, an, tn, t);
    var m := Match(base + pos + 1, g[t].matched);
    var after := Scan(g, paths, t, base + pos + 1, text[pos + 1..], cb, an, tn);
    if !g[t].final {
      ThenThen(reports, pos, [], 1, after);
    } else if cb(m, an, tn) != 0 {
      assert Scan(g, paths, cur, base + pos, rest, cb, an, tn) == Outcome([m], t, 1, true);
    } else {
      ThenThen(reports, pos, [m], 1, after);
    }
  }

  /** At the end of the text the loop state is the whole outcome. */
  lemma ResumesEnd(g: seq<NodeV>, paths: seq<seq<Alpha>>, o: Outcome, reports: seq<Match>, pos: nat, cur: nat,
                   base: nat, text: seq<Alpha>, cb: Callback, an: int, tn: int)
    requires Linked(g, paths) && Resumes(g, paths, o, reports, pos, cur, base, text, cb, an, tn) && pos == |text|
    ensures o == Outcome(reports, cur, pos, false)
  {
    assert text[pos..] == [];
  }
}
