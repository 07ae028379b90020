/** Counting transitions in tool sequences. */
module Transitions {

  type Tool = string
  type Pair = (Tool, Tool)

  function PairsOf(s: seq<Tool>): seq<Pair> {
    if |s| < 2 then [] else PairsOf(s[..|s| - 1]) + [(s[|s| - 2], s[|s| - 1])]
  }

  /** The pairs are the neighbours, in order. */
  lemma {:induction false} PairsAre(s: seq<Tool>)
    ensures |PairsOf(s)| == if s == [] then 0 else |s| - 1
    ensures forall i :: 0 <= i < |PairsOf(s)| ==> PairsOf(s)[i] == (s[i], s[i + 1])
  {
    if |s| >= 2 {
      PairsAre(s[..|s| - 1]);
    }
  }

  /** Counting is taking the multiplicity. */
  lemma {:induction false} CountIs(ps: seq<Pair>, from: Tool, to: Tool)
    ensures Count(ps, from, to) == multiset(ps)[(from, to)]
  {
    if ps != [] {
      var rest := ps[..|ps| - 1];
      assert ps == rest + [ps[|ps| - 1]];
      CountIs(rest, from, to);
    }
  }

  /** How often `from` is followed by `to`. */
  function Count(ps: seq<Pair>, from: Tool, to: Tool): nat {
    if ps == [] then 0
    else Count(ps[..|ps| - 1], from, to) + if ps[|ps| - 1] == (from, to) then 1 else 0
  }

  /** How often `from` is left. */
  function Departures(ps: seq<Pair>, from: Tool): nat {
    if ps == [] then 0
    else Departures(ps[..|ps| - 1], from) + if ps[|ps| - 1].0 == from then 1 else 0
  }

  predicate Distinct(ts: seq<Tool>) {
    forall i, j :: 0 <= i < j < |ts| ==> ts[i] != ts[j]
  }

  function RowSum(ps: seq<Pair>, from: Tool, ts: seq<Tool>): nat {
    if ts == [] then 0 else RowSum(ps, from, ts[..|ts| - 1]) + Count(ps, from, ts[|ts| - 1])
  }

  function DepartureSum(ps: seq<Pair>, ts: seq<Tool>): nat {
    if ts == [] then 0 else DepartureSum(ps, ts[..|ts| - 1]) + Departures(ps, ts[|ts| - 1])
  }

  lemma {:induction false} RowSumStep(ps: seq<Pair>, p: Pair, from: Tool, ts: seq<Tool>)
    requires Distinct(ts)
    ensures RowSum(ps + [p], from, ts) == RowSum(ps, from, ts) + if p.0 == from && p.1 in ts then 1 else 0
    decreases |ts|
  {
    assert (ps + [p])[..|ps|] == ps;
    if ts != [] {
      var front, t := ts[..|ts| - 1], ts[|ts| - 1];
      assert ts == front + [t];
      RowSumStep(ps, p, from, front);
    }
  }

  lemma {:induction false} DepartureSumStep(ps: seq<Pair>, p: Pair, ts: seq<Tool>)
    requires Distinct(ts)
    ensures DepartureSum(ps + [p], ts) == DepartureSum(ps, ts) + if p.0 in ts then 1 else 0
    decreases |ts|
  {
    assert (ps + [p])[..|ps|] == ps;
    if ts != [] {
      var front, t := ts[..|ts| - 1], ts[|ts| - 1];
      assert ts == front + [t];
      DepartureSumStep(ps, p, front);
    }
  }

  lemma {:induction false} NothingCounted(from: Tool, ts: seq<Tool>)
    ensures RowSum([], from, ts) == 0 && DepartureSum([], ts) == 0
    decreases |ts|
  {
    if ts != [] {
      NothingCounted(from, ts[..|ts| - 1]);
    }
  }

  /** A row of the matrix adds up to the departures from its source. */
  lemma {:induction false} RowSumIsTotal(ps: seq<Pair>, from: Tool, ts: seq<Tool>)
    requires Distinct(ts) && forall i :: 0 <= i < |ps| ==> ps[i].1 in ts
    ensures RowSum(ps, from, ts) == Departures(ps, from)
    decreases |ps|
  {
    if ps == [] {
      NothingCounted(from, ts);
    } else {
      var front, p := ps[..|ps| - 1], ps[|ps| - 1];
      assert ps == front + [p];
      RowSumIsTotal(front, from, ts);
      RowSumStep(front, p, from, ts);
    }
  }

  lemma {:induction false} DepartureSumIsAll(ps: seq<Pair>, ts: seq<Tool>)
    requires Distinct(ts) && forall i :: 0 <= i < |ps| ==> ps[i].0 in ts
    ensures DepartureSum(ps, ts) == |ps|
    decreases |ps|
  {
    if ps == [] {
      NothingCounted("", ts);
    } else {
      var front, p := ps[..|ps| - 1], ps[|ps| - 1];
      assert ps == front + [p];
      DepartureSumIsAll(front, ts);
      DepartureSumStep(front, p, ts);
    }
  }

  // --- the pairs and the vocabulary of a whole history --------------------------------------

  function AllPairs(h: seq<seq<Tool>>): seq<Pair> {
    if h == [] then [] else AllPairs(h[..|h| - 1]) + PairsOf(h[|h| - 1])
  }

  function Vocabulary(h: seq<seq<Tool>>): set<Tool> {
    set i, j | 0 <= i < |h| && |h[i]| >= 2 && 0 <= j < |h[i]| :: h[i][j]
  }

  lemma {:induction false} PairsInSequence(s: seq<Tool>)
    ensures forall p :: p in PairsOf(s) ==> p.0 in s && p.1 in s
    ensures |s| < 2 ==> PairsOf(s) == []
  {
    if |s| >= 2 {
      PairsInSequence(s[..|s| - 1]);
    }
  }

  lemma {:induction false} PairsInVocabulary(h: seq<seq<Tool>>)
    ensures forall p :: p in AllPairs(h) ==> p.0 in Vocabulary(h) && p.1 in Vocabulary(h)
  {
    if h != [] {
      var front, s := h[..|h| - 1], h[|h| - 1];
      PairsInVocabulary(front);
      PairsInSequence(s);
      VocabularySnoc(front, s);
      assert h == front + [s];
    }
  }

  lemma VocabularySnoc(h: seq<seq<Tool>>, s: seq<Tool>)
    ensures Vocabulary(h + [s]) == Vocabulary(h) + if |s| < 2 then {} else set t | t in s
  {
    var all := h + [s];
    forall t | t in Vocabulary(h) + (if |s| < 2 then {} else set t | t in s) ensures t in Vocabulary(all) {
      if t in Vocabulary(h) {
        var i, j :| 0 <= i < |h| && |h[i]| >= 2 && 0 <= j < |h[i]| && h[i][j] == t;
        assert all[i][j] == t;
      } else {
        var j :| 0 <= j < |s| && s[j] == t;
        assert all[|h|][j] == t;
      }
    }
  }

  lemma {:induction false} CountConcat(ps: seq<Pair>, qs: seq<Pair>, from: Tool, to: Tool)
    ensures Count(ps + qs, from, to) == Count(ps, from, to) + Count(qs, from, to)
    ensures Departures(ps + qs, from) == Departures(ps, from) + Departures(qs, from)
    decreases |qs|
  {
    if qs == [] {
      assert ps + qs == ps;
    } else {
      assert (ps + qs)[..|ps + qs| - 1] == ps + qs[..|qs| - 1];
      CountConcat(ps, qs[..|qs| - 1], from, to);
    }
  }

  // --- order does not matter ----------------------------------------------------------------

  lemma {:induction false} CountWithout(h: seq<seq<Tool>>, k: nat, from: Tool, to: Tool)
    requires k < |h|
    ensures Count(AllPairs(h), from, to) ==
            Count(AllPairs(h[..k] + h[k + 1..]), from, to) + Count(PairsOf(h[k]), from, to)
    ensures Departures(AllPairs(h), from) ==
            Departures(AllPairs(h[..k] + h[k + 1..]), from) + Departures(PairsOf(h[k]), from)
    decreases |h|
  {
    var front, s := h[..|h| - 1], h[|h| - 1];
    CountConcat(AllPairs(front), PairsOf(s), from, to);
    var rest := h[..k] + h[k + 1..];
    if k == |h| - 1 {
      assert rest == front;
    } else {
      CountWithout(front, k, from, to);
      assert rest[..|rest| - 1] == front[..k] + front[k + 1..];
      CountConcat(AllPairs(front[..k] + front[k + 1..]), PairsOf(s), from, to);
    }
  }

  lemma Partner(g: seq<seq<Tool>>, h: seq<seq<Tool>>) returns (k: nat)
    requires g != [] && multiset(g) == multiset(h)
    ensures k < |h| && h[k] == g[|g| - 1]
    ensures multiset(g[..|g| - 1]) == multiset(h[..k] + h[k + 1..])
  {
    var s := g[|g| - 1];
    assert s in multiset(h);
    k :| 0 <= k < |h| && h[k] == s;
    assert g == g[..|g| - 1] + [s];
    assert h == h[..k] + [s] + h[k + 1..];
    assert multiset(g) == multiset(g[..|g| - 1]) + multiset{s};
    assert multiset(h) == multiset(h[..k]) + multiset{s} + multiset(h[k + 1..]);
    assert multiset(h[..k] + h[k + 1..]) == multiset(h[..k]) + multiset(h[k + 1..]) == multiset(h) - multiset{s};
    assert multiset(g[..|g| - 1]) == multiset(g) - multiset{s};
  }

  /** Histories that are permutations of each other count every transition equally often. */
  lemma {:induction false} OrderIrrelevant(g: seq<seq<Tool>>, h: seq<seq<Tool>>, from: Tool, to: Tool)
    requires multiset(g) == multiset(h)
    ensures Count(AllPairs(g), from, to) == Count(AllPairs(h), from, to)
    ensures Departures(AllPairs(g), from) == Departures(AllPairs(h), from)
    decreases |g|
  {
    if g == [] {
      assert |h| == |multiset(h)| == 0;
    } else {
      var k := Partner(g, h);
      OrderIrrelevant(g[..|g| - 1], h[..k] + h[k + 1..], from, to);
      CountConcat(AllPairs(g[..|g| - 1]), PairsOf(g[|g| - 1]), from, to);
      CountWithout(h, k, from, to);
    }
  }

  lemma VocabularyOrderIrrelevant(g: seq<seq<Tool>>, h: seq<seq<Tool>>)
    requires multiset(g) == multiset(h)
    ensures Vocabulary(g) == Vocabulary(h)
  {
    VocabularyWithin(g, h);
    VocabularyWithin(h, g);
  }

  lemma VocabularyWithin(g: seq<seq<Tool>>, h: seq<seq<Tool>>)
    requires multiset(g) == multiset(h)
    ensures Vocabulary(g) <= Vocabulary(h)
  {
    forall t | t in Vocabulary(g) ensures t in Vocabulary(h) {
      var i, j :| 0 <= i < |g| && |g[i]| >= 2 && 0 <= j < |g[i]| && g[i][j] == t;
      assert g[i] in multiset(h);
      var k :| 0 <= k < |h| && h[k] == g[i];
      assert h[k][j] == t;
    }
  }
}

/** pkg/swarm/surprise_markov.go: MarkovMatrix. */
module Markov {
  import opened Transitions

  function Lookup(m: map<Tool, nat>, k: Tool): nat {
    if k in m then m[k] else 0
  }

  type Matrix = map<Tool, map<Tool, nat>>

  function Cell(counts: Matrix, from: Tool, to: Tool): nat {
    if from in counts then Lookup(counts[from], to) else 0
  }

  /** The maps count exactly the pairs `ps`. */
  ghost predicate CountsOf(counts: Matrix, totals: map<Tool, nat>, ps: seq<Pair>) {
    && (forall from, to :: Cell(counts, from, to) == Count(ps, from, to))
    && (forall from :: Lookup(totals, from) == Departures(ps, from))
    && (forall i :: 0 <= i < |ps| ==> ps[i].0 in totals)
  }

  lemma BumpCell(counts: Matrix, ps: seq<Pair>, from: Tool, to: Tool, row: map<Tool, nat>)
    requires forall f, t :: Cell(counts, f, t) == Count(ps, f, t)
    requires row == if from in counts then counts[from] else map[]
    ensures var more := counts[from := row[to := Lookup(row, to) + 1]];
            forall f, t :: Cell(more, f, t) == Count(ps + [(from, to)], f, t)
  {
    assert (ps + [(from, to)])[..|ps|] == ps;
    assert Lookup(row, to) == Cell(counts, from, to);
    var more := counts[from := row[to := Lookup(row, to) + 1]];
    forall f, t ensures Cell(more, f, t) == Count(ps + [(from, to)], f, t) {
      if f != from {
        assert Cell(more, f, t) == Cell(counts, f, t);
      } else if t != to {
        assert Cell(more, f, t) == Lookup(row, t) == Cell(counts, f, t);
      }
    }
  }

  lemma Bump(counts: Matrix, totals: map<Tool, nat>, ps: seq<Pair>, from: Tool, to: Tool, row: map<Tool, nat>)
    requires CountsOf(counts, totals, ps) && row == if from in counts then counts[from] else map[]
    ensures CountsOf(counts[from := row[to := Lookup(row, to) + 1]], totals[from := Lookup(totals, from) + 1],
                     ps + [(from, to)])
  {
    BumpCell(counts, ps, from, to, row);
    var all, more := ps + [(from, to)], totals[from := Lookup(totals, from) + 1];
    assert all[..|ps|] == ps;
    forall f ensures Lookup(more, f) == Departures(all, f) {
      assert f != from ==> Lookup(more, f) == Lookup(totals, f);
      assert Lookup(totals, f) == Departures(ps, f);
    }
    forall i | 0 <= i < |all| ensures all[i].0 in more {
      assert i < |ps| ==> ps[i].0 in totals;
    }
  }

  lemma OneMorePair(before: seq<Pair>, s: seq<Tool>, i: nat)
    requires 1 <= i < |s|
    ensures before + PairsOf(s[..i + 1]) == before + PairsOf(s[..i]) + [(s[i - 1], s[i])]
  {
    assert s[..i + 1][..i] == s[..i];
  }

  // --- smoothed probabilities ---------------------------------------------------------------

  function Prob(counts: Matrix, totals: map<Tool, nat>, vocab: set<Tool>, from: Tool, to: Tool): real {
    if |vocab| == 0 then 0.5
    else (Cell(counts, from, to) + 1) as real / (Lookup(totals, from) + |vocab|) as real
  }

  ghost function ProbSum(counts: Matrix, totals: map<Tool, nat>, vocab: set<Tool>, from: Tool, ts: seq<Tool>): real {
    if ts == [] then 0.0
    else ProbSum(counts, totals, vocab, from, ts[..|ts| - 1]) + Prob(counts, totals, vocab, from, ts[|ts| - 1])
  }

  /** `x` is `r` parts of `d`. */
  ghost predicate Parts(x: real, d: nat, r: nat) {
    x * d as real == r as real
  }

  lemma OneProb(counts: Matrix, totals: map<Tool, nat>, vocab: set<Tool>, from: Tool, t: Tool)
    requires |vocab| > 0
    ensures Parts(Prob(counts, totals, vocab, from, t), Lookup(totals, from) + |vocab|, Cell(counts, from, t) + 1)
  {
  }

  lemma AddParts(x: real, p: real, d: nat, r: nat, c: nat)
    requires Parts(x, d, r) && Parts(p, d, c)
    ensures Parts(x + p, d, r + c)
  {
  }

  lemma {:induction false} ProbSumParts(counts: Matrix, totals: map<Tool, nat>, vocab: set<Tool>, ps: seq<Pair>,
                                        from: Tool, ts: seq<Tool>)
    requires (forall t :: Cell(counts, from, t) == Count(ps, from, t)) && |vocab| > 0
    ensures Parts(ProbSum(counts, totals, vocab, from, ts), Lookup(totals, from) + |vocab|, RowSum(ps, from, ts) + |ts|)
    decreases |ts|
  {
    if ts != [] {
      var front, t := ts[..|ts| - 1], ts[|ts| - 1];
      ProbSumParts(counts, totals, vocab, ps, from, front);
      OneProb(counts, totals, vocab, from, t);
      AddParts(ProbSum(counts, totals, vocab, from, front), Prob(counts, totals, vocab, from, t),
               Lookup(totals, from) + |vocab|, RowSum(ps, from, front) + |front|, Cell(counts, from, t) + 1);
      assert RowSum(ps, from, front) + |front| + (Cell(counts, from, t) + 1) == RowSum(ps, from, ts) + |ts|;
    }
  }

  lemma WholeIsOne(x: real, d: nat)
    requires Parts(x, d, d) && d > 0
    ensures x == 1.0
  {
    assert x * d as real / d as real == x;
  }

  lemma {:induction false} VocabularyCoversRows(h: seq<seq<Tool>>, from: Tool, ts: seq<Tool>)
    requires Distinct(ts) && (set t | t in ts) == Vocabulary(h)
    ensures RowSum(AllPairs(h), from, ts) + |ts| == Departures(AllPairs(h), from) + |Vocabulary(h)|
  {
    var ps := AllPairs(h);
    PairsInVocabulary(h);
    forall i | 0 <= i < |ps| ensures ps[i].1 in ts {
      assert ps[i] in ps;
      assert ps[i].1 in Vocabulary(h);
    }
    RowSumIsTotal(ps, from, ts);
    DistinctSize(ts);
  }

  /** The smoothed probabilities over the vocabulary add up to one for every source, seen or not. */
  lemma ProbabilitiesSumToOne(m: MarkovMatrix, from: Tool, ts: seq<Tool>)
    requires m.Valid() && m.vocab != {} && Distinct(ts) && (set t | t in ts) == m.vocab
    ensures ProbSum(m.counts, m.totals, m.vocab, from, ts) == 1.0
  {
    VocabularyCoversRows(m.history, from, ts);
    ProbSumParts(m.counts, m.totals, m.vocab, AllPairs(m.history), from, ts);
    WholeIsOne(ProbSum(m.counts, m.totals, m.vocab, from, ts), Lookup(m.totals, from) + |m.vocab|);
  }

  /** The probability in terms of the sequences: one more than how often the step was taken, out of how often the source was
      left and one for every tool; one half while nothing has been seen. */
  lemma ProbExactly(m: MarkovMatrix, from: Tool, to: Tool)
    requires m.Valid()
    ensures var ps, v := AllPairs(m.history), |Vocabulary(m.history)|;
            if v == 0 then m.TransitionProb(from, to) == 0.5
            else Parts(m.TransitionProb(from, to), Departures(ps, from) + v, Count(ps, from, to) + 1)
  {
    assert Cell(m.counts, from, to) == Count(AllPairs(m.history), from, to);
    assert Lookup(m.totals, from) == Departures(AllPairs(m.history), from);
    if |m.vocab| > 0 {
      OneProb(m.counts, m.totals, m.vocab, from, to);
    }
  }

  /** An unseen source spreads its probability evenly over the vocabulary. */
  lemma UnseenSource(m: MarkovMatrix, from: Tool, to: Tool)
    requires m.Valid() && m.vocab != {} && Departures(AllPairs(m.history), from) == 0
    ensures m.TransitionProb(from, to) == 1.0 / |m.vocab| as real
  {
    NeverLeft(AllPairs(m.history), from, to);
  }

  class MarkovMatrix {
    var counts: Matrix
    var totals: map<Tool, nat>
    var vocab: set<Tool>
    ghost var history: seq<seq<Tool>>

    ghost predicate Valid()
      reads this
    {
      CountsOf(counts, totals, AllPairs(history)) && vocab == Vocabulary(history)
    }

    constructor ()
      ensures Valid() && history == []
    {
      counts, totals, vocab := map[], map[], {};
      history := [];
    }

    method Update(s: seq<Tool>)
      requires Valid()
      modifies this
      ensures Valid() && history == old(history) + [s]
    {
      assert (history + [s])[..|history|] == history;
      VocabularySnoc(history, s);
      if |s| < 2 {
        assert AllPairs(history + [s]) == AllPairs(history);
        history := history + [s];
        return;
      }
      vocab := vocab + set t | t in s;
      AddPairs(AllPairs(history), s);
      history := history + [s];
    }

    /** The counting loop of Update. */
    method AddPairs(ghost before: seq<Pair>, s: seq<Tool>)
      requires |s| >= 2 && CountsOf(counts, totals, before)
      modifies this`counts, this`totals
      ensures CountsOf(counts, totals, before + PairsOf(s))
    {
      assert before + PairsOf(s[..1]) == before;
      for i := 1 to |s|
        invariant CountsOf(counts, totals, before + PairsOf(s[..i]))
      {
        OneMorePair(before, s, i);
        AddPair(before + PairsOf(s[..i]), s[i - 1], s[i]);
      }
      assert s[..|s|] == s;
    }

    method AddPair(ghost ps: seq<Pair>, from: Tool, to: Tool)
      requires CountsOf(counts, totals, ps)
      modifies this`counts, this`totals
      ensures CountsOf(counts, totals, ps + [(from, to)])
    {
      ghost var was := counts;
      if from !in counts {
        counts := counts[from := map[]];
      }
      var row: map<Tool, nat> := counts[from];
      Bump(was, totals, ps, from, to, row);
      var more := row[to := Lookup(row, to) + 1];
      counts := counts[from := more];
      totals := totals[from := Lookup(totals, from) + 1];
      assert counts == was[from := more];
    }

    function TransitionProb(from: Tool, to: Tool): real
      reads this
    {
      Prob(counts, totals, vocab, from, to)
    }

    method TotalTransitions() returns (total: nat)
      requires Valid()
      ensures total == |AllPairs(history)|
    {
      total := 0;
      var left := totals.Keys;
      ghost var done: seq<Tool> := [];
      while left != {}
        invariant left <= totals.Keys && Distinct(done)
        invariant forall t :: t in done <==> t in totals.Keys - left
        invariant total == DepartureSum(AllPairs(history), done)
        decreases |left|
      {
        var from :| from in left;
        assert from !in done;
        total := total + totals[from];
        left := left - {from};
        assert (done + [from])[..|done|] == done;
        done := done + [from];
      }
      ghost var ps := AllPairs(history);
      assert forall i :: 0 <= i < |ps| ==> ps[i].0 in done;
      DepartureSumIsAll(ps, done);
    }
  }

  lemma {:induction false} DistinctSize(ts: seq<Tool>)
    requires Distinct(ts)
    ensures |set t | t in ts| == |ts|
  {
    if ts != [] {
      var front, t := ts[..|ts| - 1], ts[|ts| - 1];
      DistinctSize(front);
      assert (set x | x in ts) == (set x | x in front) + {t};
    }
  }

  lemma {:induction false} NeverLeft(ps: seq<Pair>, from: Tool, to: Tool)
    requires Departures(ps, from) == 0
    ensures Count(ps, from, to) == 0
  {
    if ps != [] {
      NeverLeft(ps[..|ps| - 1], from, to);
    }
  }

  /** Two matrices fed the same sequences in different orders answer every question alike. */
  lemma SameAfterAnyOrder(m: MarkovMatrix, m': MarkovMatrix, from: Tool, to: Tool)
    requires m.Valid() && m'.Valid() && multiset(m.history) == multiset(m'.history)
    ensures Cell(m.counts, from, to) == Cell(m'.counts, from, to)
    ensures m.TransitionProb(from, to) == m'.TransitionProb(from, to)
  {
    OrderIrrelevant(m.history, m'.history, from, to);
    VocabularyOrderIrrelevant(m.history, m'.history);
  }
}
