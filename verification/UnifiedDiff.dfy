/** Edit scripts between two lists of lines, and the longest common subsequence. */
module DiffScripts {

  import opened Sequences

  type Line = string

  datatype Kind = Keep | Add | Remove
  datatype Op = Op(kind: Kind, line: Line)

  /** The old lines: what is left when the added lines are dropped. */
  function OldOf(ops: seq<Op>): seq<Line> {
    if ops == [] then [] else (if ops[0].kind == Add then [] else [ops[0].line]) + OldOf(ops[1..])
  }

  /** The new lines: what is left when the removed lines are dropped. */
  function NewOf(ops: seq<Op>): seq<Line> {
    if ops == [] then [] else (if ops[0].kind == Remove then [] else [ops[0].line]) + NewOf(ops[1..])
  }

  predicate IsScript(ops: seq<Op>, a: seq<Line>, b: seq<Line>) {
    OldOf(ops) == a && NewOf(ops) == b
  }

  function Kept(ops: seq<Op>): nat {
    if ops == [] then 0 else (if ops[0].kind == Keep then 1 else 0) + Kept(ops[1..])
  }

  function KeptLines(ops: seq<Op>): (c: seq<Line>)
    ensures |c| == Kept(ops)
  {
    if ops == [] then [] else (if ops[0].kind == Keep then [ops[0].line] else []) + KeptLines(ops[1..])
  }

  function Edits(ops: seq<Op>): nat {
    if ops == [] then 0 else (if ops[0].kind == Keep then 0 else 1) + Edits(ops[1..])
  }

  lemma {:induction false} EditsByKept(ops: seq<Op>)
    ensures Edits(ops) == |OldOf(ops)| + |NewOf(ops)| - 2 * Kept(ops)
  {
    if ops != [] {
      EditsByKept(ops[1..]);
    }
  }

  lemma ScriptCons(o: Op, rest: seq<Op>)
    ensures OldOf([o] + rest) == (if o.kind == Add then [] else [o.line]) + OldOf(rest)
    ensures NewOf([o] + rest) == (if o.kind == Remove then [] else [o.line]) + NewOf(rest)
    ensures Kept([o] + rest) == (if o.kind == Keep then 1 else 0) + Kept(rest)
    ensures KeptLines([o] + rest) == (if o.kind == Keep then [o.line] else []) + KeptLines(rest)
  {
    assert ([o] + rest)[1..] == rest;
  }

  lemma {:induction false} OldSnoc(ops: seq<Op>, o: Op)
    ensures OldOf(ops + [o]) == OldOf(ops) + (if o.kind == Add then [] else [o.line])
  {
    if ops == [] {
      assert [o][1..] == [];
    } else {
      OldSnoc(ops[1..], o);
      assert (ops + [o])[1..] == ops[1..] + [o];
    }
  }

  lemma {:induction false} NewSnoc(ops: seq<Op>, o: Op)
    ensures NewOf(ops + [o]) == NewOf(ops) + (if o.kind == Remove then [] else [o.line])
  {
    if ops == [] {
      assert [o][1..] == [];
    } else {
      NewSnoc(ops[1..], o);
      assert (ops + [o])[1..] == ops[1..] + [o];
    }
  }

  lemma {:induction false} KeptSnoc(ops: seq<Op>, o: Op)
    ensures Kept(ops + [o]) == Kept(ops) + (if o.kind == Keep then 1 else 0)
  {
    if ops == [] {
      assert [o][1..] == [];
    } else {
      KeptSnoc(ops[1..], o);
      assert (ops + [o])[1..] == ops[1..] + [o];
    }
  }

  lemma {:induction false} OldConcat(p: seq<Op>, s: seq<Op>)
    ensures OldOf(p + s) == OldOf(p) + OldOf(s)
  {
    if p == [] {
      assert p + s == s;
    } else {
      OldConcat(p[1..], s);
      assert (p + s)[1..] == p[1..] + s && (p + s)[0] == p[0];
      var head := if p[0].kind == Add then [] else [p[0].line];
      assert head + (OldOf(p[1..]) + OldOf(s)) == (head + OldOf(p[1..])) + OldOf(s);
    }
  }

  lemma {:induction false} NewConcat(p: seq<Op>, s: seq<Op>)
    ensures NewOf(p + s) == NewOf(p) + NewOf(s)
  {
    if p == [] {
      assert p + s == s;
    } else {
      NewConcat(p[1..], s);
      assert (p + s)[1..] == p[1..] + s && (p + s)[0] == p[0];
      var head := if p[0].kind == Remove then [] else [p[0].line];
      assert head + (NewOf(p[1..]) + NewOf(s)) == (head + NewOf(p[1..])) + NewOf(s);
    }
  }

  lemma {:induction false} KeptConcat(p: seq<Op>, s: seq<Op>)
    ensures Kept(p + s) == Kept(p) + Kept(s)
  {
    if p == [] {
      assert p + s == s;
    } else {
      KeptConcat(p[1..], s);
      assert (p + s)[1..] == p[1..] + s;
    }
  }

  lemma ScriptConcat(p: seq<Op>, s: seq<Op>)
    ensures OldOf(p + s) == OldOf(p) + OldOf(s) && NewOf(p + s) == NewOf(p) + NewOf(s) && Kept(p + s) == Kept(p) + Kept(s)
  {
    OldConcat(p, s);
    NewConcat(p, s);
    KeptConcat(p, s);
  }

  // --- longest common subsequence -----------------------------------------------------------

  function Lcs(a: seq<Line>, b: seq<Line>): nat
    decreases |a| + |b|
  {
    if a == [] || b == [] then 0
    else if Last(a) == Last(b) then Lcs(Init(a), Init(b)) + 1
    else if Lcs(Init(a), b) >= Lcs(a, Init(b)) then Lcs(Init(a), b) else Lcs(a, Init(b))
  }

  lemma {:induction false} LcsSteps(a: seq<Line>, b: seq<Line>)
    ensures a != [] ==> Lcs(Init(a), b) <= Lcs(a, b) <= Lcs(Init(a), b) + 1
    ensures b != [] ==> Lcs(a, Init(b)) <= Lcs(a, b) <= Lcs(a, Init(b)) + 1
    decreases |a| + |b|
  {
    if a != [] && b != [] {
      LcsSteps(Init(a), b);
      LcsSteps(a, Init(b));
    }
  }

  /** No script keeps more lines than a longest common subsequence has. */
  lemma {:induction false} KeptAtMostLcs(ops: seq<Op>)
    ensures Kept(ops) <= Lcs(OldOf(ops), NewOf(ops))
    decreases |ops|
  {
    if ops != [] {
      var rest, o := Init(ops), Last(ops);
      assert ops == rest + [o];
      OldSnoc(rest, o);
      NewSnoc(rest, o);
      KeptSnoc(rest, o);
      KeptAtMostLcs(rest);
      var a, b := OldOf(ops), NewOf(ops);
      LcsSteps(a, b);
      if o.kind == Keep {
        assert Init(a) == OldOf(rest) && Init(b) == NewOf(rest);
      } else if o.kind == Add {
        assert a == OldOf(rest) && Init(b) == NewOf(rest);
      } else {
        assert b == NewOf(rest) && Init(a) == OldOf(rest);
      }
    }
  }

  /** A script keeping that many lines has the fewest edits of all scripts between the same lines. */
  lemma FewestEdits(ops: seq<Op>, other: seq<Op>)
    requires OldOf(other) == OldOf(ops) && NewOf(other) == NewOf(ops)
    requires Kept(ops) == Lcs(OldOf(ops), NewOf(ops))
    ensures Edits(ops) <= Edits(other)
  {
    EditsByKept(ops);
    EditsByKept(other);
    KeptAtMostLcs(other);
  }

  // --- the recurrence is the length of a longest common subsequence --------------------------

  predicate Subsequence(c: seq<Line>, a: seq<Line>) {
    c == [] || (a != [] && Subsequence(if c[0] == a[0] then c[1..] else c, a[1..]))
  }

  lemma {:induction false} SubsequenceDropFirst(c: seq<Line>, a: seq<Line>)
    requires c != [] && Subsequence(c, a)
    ensures Subsequence(c[1..], a)
    decreases |a|, 0
  {
    if c[0] == a[0] {
      if |c| > 1 && c[1] == a[0] {
        SubsequenceDropFirst(c[1..], a[1..]);
      }
    } else {
      SubsequenceDropFirst(c, a[1..]);
      SubsequenceBehind(c[1..], a[1..], a[0]);
      assert a == [a[0]] + a[1..];
    }
  }

  lemma {:induction false} SubsequenceBehind(c: seq<Line>, a: seq<Line>, x: Line)
    requires Subsequence(c, a)
    ensures Subsequence(c, [x] + a)
    decreases |a|, 1
  {
    assert ([x] + a)[1..] == a;
    if c != [] && c[0] == x {
      SubsequenceDropFirst(c, a);
    }
  }

  /** The kept lines stand in both lists, in order. */
  lemma {:induction false} KeptIsCommon(ops: seq<Op>)
    ensures Subsequence(KeptLines(ops), OldOf(ops)) && Subsequence(KeptLines(ops), NewOf(ops))
  {
    if ops != [] {
      KeptIsCommon(ops[1..]);
      var c, a, b, x := KeptLines(ops[1..]), OldOf(ops[1..]), NewOf(ops[1..]), ops[0].line;
      match ops[0].kind {
        case Keep =>
          assert ([x] + a)[1..] == a && ([x] + b)[1..] == b && ([x] + c)[1..] == c;
        case Add =>
          assert KeptLines(ops) == c && OldOf(ops) == a;
          SubsequenceBehind(c, b, x);
        case Remove =>
          assert KeptLines(ops) == c && NewOf(ops) == b;
          SubsequenceBehind(c, a, x);
      }
    }
  }

  /** A script between `a` and `b` that keeps the lines `c`. */
  predicate Keeps(ops: seq<Op>, a: seq<Line>, b: seq<Line>, c: seq<Line>) {
    IsScript(ops, a, b) && KeptLines(ops) == c
  }

  lemma KeepsCons(rest: seq<Op>, a: seq<Line>, b: seq<Line>, c: seq<Line>, x: Line)
    requires Keeps(rest, a, b, c)
    ensures Keeps([Op(Remove, x)] + rest, [x] + a, b, c)
    ensures Keeps([Op(Add, x)] + rest, a, [x] + b, c)
    ensures Keeps([Op(Keep, x)] + rest, [x] + a, [x] + b, [x] + c)
  {
    ScriptCons(Op(Remove, x), rest);
    ScriptCons(Op(Add, x), rest);
    ScriptCons(Op(Keep, x), rest);
  }

  /** Every common subsequence is what some script keeps. */
  lemma {:induction false} ScriptOfCommon(c: seq<Line>, a: seq<Line>, b: seq<Line>) returns (ops: seq<Op>)
    requires Subsequence(c, a) && Subsequence(c, b)
    ensures Keeps(ops, a, b, c)
    decreases |a| + |b|, 1
  {
    if a == [] && b == [] {
      ops := [];
    } else if a != [] && (c == [] || c[0] != a[0]) {
      var rest := ScriptOfCommon(c, a[1..], b);
      KeepsCons(rest, a[1..], b, c, a[0]);
      HeadTail(a);
      ops := [Op(Remove, a[0])] + rest;
    } else if b != [] && (c == [] || c[0] != b[0]) {
      var rest := ScriptOfCommon(c, a, b[1..]);
      KeepsCons(rest, a, b[1..], c, b[0]);
      HeadTail(b);
      ops := [Op(Add, b[0])] + rest;
    } else {
      ops := KeepHead(c, a, b);
    }
  }

  lemma {:induction false} KeepHead(c: seq<Line>, a: seq<Line>, b: seq<Line>) returns (ops: seq<Op>)
    requires c != [] && a != [] && b != [] && c[0] == a[0] == b[0]
    requires Subsequence(c[1..], a[1..]) && Subsequence(c[1..], b[1..])
    ensures Keeps(ops, a, b, c)
    decreases |a| + |b|, 0
  {
    var rest := ScriptOfCommon(c[1..], a[1..], b[1..]);
    KeepsCons(rest, a[1..], b[1..], c[1..], a[0]);
    HeadTail(a);
    HeadTail(b);
    HeadTail(c);
    ops := [Op(Keep, a[0])] + rest;
  }

  lemma HeadTail(a: seq<Line>)
    requires a != []
    ensures [a[0]] + a[1..] == a
  {
  }

  lemma {:induction false} CommonAtMostLcs(c: seq<Line>, a: seq<Line>, b: seq<Line>)
    requires Subsequence(c, a) && Subsequence(c, b)
    ensures |c| <= Lcs(a, b)
  {
    var ops := ScriptOfCommon(c, a, b);
    KeptAtMostLcs(ops);
  }
}

/** pkg/action/tool/builtin_tools.go: computeUnifiedDiff. */
module UnifiedDiff {
  import opened DiffScripts
  import opened Sequences

  const CONTEXT := 3
  const HEADER := "--- old\n+++ new\n"

  // --- the table ----------------------------------------------------------------------------

  ghost predicate Filled(dp: array2<int>, a: seq<Line>, b: seq<Line>, i: int, j: int)
    reads dp
    requires dp.Length0 == |a| + 1 && dp.Length1 == |b| + 1
  {
    forall p, q :: 0 <= p <= |a| && 0 <= q <= |b| && (p < i || (p == i && q < j) || q == 0) ==>
      dp[p, q] == Lcs(a[..p], b[..q])
  }

  lemma CellValue(a: seq<Line>, b: seq<Line>, i: nat, j: nat)
    requires 0 < i <= |a| && 0 < j <= |b|
    ensures Lcs(a[..i], b[..j]) ==
            if a[i - 1] == b[j - 1] then Lcs(a[..i - 1], b[..j - 1]) + 1
            else if Lcs(a[..i - 1], b[..j]) >= Lcs(a[..i], b[..j - 1]) then Lcs(a[..i - 1], b[..j])
            else Lcs(a[..i], b[..j - 1])
  {
    assert Init(a[..i]) == a[..i - 1] && Init(b[..j]) == b[..j - 1];
  }

  method FillTable(a: seq<Line>, b: seq<Line>) returns (dp: array2<int>)
    ensures fresh(dp) && dp.Length0 == |a| + 1 && dp.Length1 == |b| + 1
    ensures Filled(dp, a, b, |a| + 1, 0)
  {
    var m, n := |a|, |b|;
    dp := new int[m + 1, n + 1]((_, _) => 0);
    for i := 1 to m + 1
      invariant Filled(dp, a, b, i, 0)
      invariant forall p :: i <= p <= m ==> dp[p, 0] == 0
    {
      for j := 1 to n + 1
        invariant Filled(dp, a, b, i, j)
        invariant forall p :: i <= p <= m ==> dp[p, 0] == 0
      {
        CellValue(a, b, i, j);
        if a[i - 1] == b[j - 1] {
          dp[i, j] := dp[i - 1, j - 1] + 1;
        } else if dp[i - 1, j] >= dp[i, j - 1] {
          dp[i, j] := dp[i - 1, j];
        } else {
          dp[i, j] := dp[i, j - 1];
        }
      }
    }
  }

  // --- walking back -------------------------------------------------------------------------

  /** `script` turns the lines from `i` and `j` on into each other and keeps as many as can be kept there. */
  ghost predicate SuffixScript(script: seq<Op>, a: seq<Line>, b: seq<Line>, i: int, j: int) {
    && 0 <= i <= |a| && 0 <= j <= |b|
    && IsScript(script, a[i..], b[j..])
    && Kept(script) + Lcs(a[..i], b[..j]) == Lcs(a, b)
  }

  lemma PushFront(ops: seq<Op>, script: seq<Op>, o: Op)
    requires BackToFront(ops, script)
    ensures BackToFront(ops + [o], [o] + script)
  {
  }

  lemma StepKeep(script: seq<Op>, a: seq<Line>, b: seq<Line>, i: int, j: int)
    requires SuffixScript(script, a, b, i, j) && i > 0 && j > 0 && a[i - 1] == b[j - 1]
    ensures SuffixScript([Op(Keep, a[i - 1])] + script, a, b, i - 1, j - 1)
  {
    CellValue(a, b, i, j);
    assert ([Op(Keep, a[i - 1])] + script)[1..] == script;
  }

  lemma StepAdd(script: seq<Op>, a: seq<Line>, b: seq<Line>, i: int, j: int)
    requires SuffixScript(script, a, b, i, j) && j > 0 && Lcs(a[..i], b[..j]) == Lcs(a[..i], b[..j - 1])
    ensures SuffixScript([Op(Add, b[j - 1])] + script, a, b, i, j - 1)
  {
    assert ([Op(Add, b[j - 1])] + script)[1..] == script;
  }

  lemma StepRemove(script: seq<Op>, a: seq<Line>, b: seq<Line>, i: int, j: int)
    requires SuffixScript(script, a, b, i, j) && i > 0 && Lcs(a[..i], b[..j]) == Lcs(a[..i - 1], b[..j])
    ensures SuffixScript([Op(Remove, a[i - 1])] + script, a, b, i - 1, j)
  {
    assert ([Op(Remove, a[i - 1])] + script)[1..] == script;
  }

  /** The table entry decides between adding and removing, ties going to adding. */
  lemma WhichStep(a: seq<Line>, b: seq<Line>, i: nat, j: nat)
    requires i <= |a| && j <= |b| && (i > 0 || j > 0) && (i == 0 || j == 0 || a[i - 1] != b[j - 1])
    ensures j > 0 && (i == 0 || Lcs(a[..i], b[..j - 1]) >= Lcs(a[..i - 1], b[..j])) ==>
              Lcs(a[..i], b[..j]) == Lcs(a[..i], b[..j - 1])
    ensures !(j > 0 && (i == 0 || Lcs(a[..i], b[..j - 1]) >= Lcs(a[..i - 1], b[..j]))) ==>
              i > 0 && Lcs(a[..i], b[..j]) == Lcs(a[..i - 1], b[..j]) && (j > 0 ==> Lcs(a[..i], b[..j - 1]) < Lcs(a[..i], b[..j]))
  {
    if i > 0 && j > 0 {
      CellValue(a, b, i, j);
    }
  }

  // --- which of the best scripts it is ------------------------------------------------------

  function Weight(k: Kind): nat {
    match k case Keep => 2 case Add => 1 case Remove => 0
  }

  /** Read from the end the two agree for `n` ops; the next one keeps where the other script adds or removes, or adds where
      the other one removes. */
  predicate OutranksAt(ops: seq<Op>, other: seq<Op>, n: nat) {
    && n < |ops| && n < |other| && ops[|ops| - n..] == other[|other| - n..]
    && Weight(ops[|ops| - 1 - n].kind) > Weight(other[|other| - 1 - n].kind)
  }

  ghost predicate Outranks(ops: seq<Op>, other: seq<Op>) {
    exists n: nat :: OutranksAt(ops, other, n)
  }

  predicate Longest(ops: seq<Op>, a: seq<Line>, b: seq<Line>) {
    IsScript(ops, a, b) && Kept(ops) == Lcs(a, b)
  }

  predicate EndsWith(ops: seq<Op>, script: seq<Op>) {
    |script| <= |ops| && ops[|ops| - |script|..] == script
  }

  /** Every script that keeps as much ends with this one or is outranked by it. */
  ghost predicate Preferred(script: seq<Op>, a: seq<Line>, b: seq<Line>) {
    forall other :: Longest(other, a, b) ==> EndsWith(other, script) || Outranks(script, other)
  }

  /** The op that the walk back takes at `i` and `j`. */
  predicate Takes(a: seq<Line>, b: seq<Line>, i: nat, j: nat, o: Op)
    requires i <= |a| && j <= |b|
  {
    match o.kind
    case Keep => i > 0 && j > 0 && a[i - 1] == b[j - 1] == o.line
    case Add => j > 0 && b[j - 1] == o.line && (i == 0 || a[i - 1] != b[j - 1])
    case Remove => i > 0 && a[i - 1] == o.line && (j > 0 ==> a[i - 1] != b[j - 1] && Lcs(a[..i], b[..j - 1]) < Lcs(a[..i], b[..j]))
  }

  /** How a script that keeps as much can end instead: not better. */
  lemma LastOp(pre: seq<Op>, a: seq<Line>, b: seq<Line>, i: nat, j: nat, o: Op)
    requires i <= |a| && j <= |b| && (i > 0 || j > 0) && Longest(pre, a[..i], b[..j]) && Takes(a, b, i, j, o)
    ensures pre != [] && (Last(pre) == o || Weight(Last(pre).kind) < Weight(o.kind))
  {
    assert pre != [];
    var init, y := Init(pre), Last(pre);
    InitLast(pre);
    OldSnoc(init, y);
    NewSnoc(init, y);
    KeptSnoc(init, y);
    if y.kind != Add {
      assert OldOf(pre)[|OldOf(pre)| - 1] == y.line == a[i - 1];
    }
    if y.kind != Remove {
      assert NewOf(pre)[|NewOf(pre)| - 1] == y.line == b[j - 1];
    }
    if y.kind == Add && o.kind == Remove {
      assert OldOf(init) == a[..i] && NewOf(init) == b[..j - 1] by {
        assert NewOf(pre) == NewOf(init) + [y.line] && NewOf(init) == NewOf(pre)[..j - 1];
      }
      KeptAtMostLcs(init);
    }
  }

  lemma OutranksMore(script: seq<Op>, other: seq<Op>, o: Op)
    requires Outranks(script, other)
    ensures Outranks([o] + script, other)
  {
    var n: nat :| OutranksAt(script, other, n);
    var more := [o] + script;
    assert more[|more| - n..] == script[|script| - n..];
    assert OutranksAt(more, other, n);
  }

  lemma PreferredStep(script: seq<Op>, a: seq<Line>, b: seq<Line>, i: nat, j: nat, o: Op)
    requires SuffixScript(script, a, b, i, j) && Preferred(script, a, b) && (i > 0 || j > 0) && Takes(a, b, i, j, o)
    ensures Preferred([o] + script, a, b)
  {
    var more := [o] + script;
    forall other | Longest(other, a, b) ensures EndsWith(other, more) || Outranks(more, other) {
      if Outranks(script, other) {
        OutranksMore(script, other, o);
      } else {
        PreferredLast(script, other, a, b, i, j, o);
      }
    }
  }

  lemma PreferredLast(script: seq<Op>, other: seq<Op>, a: seq<Line>, b: seq<Line>, i: nat, j: nat, o: Op)
    requires SuffixScript(script, a, b, i, j) && (i > 0 || j > 0) && Takes(a, b, i, j, o)
    requires Longest(other, a, b) && EndsWith(other, script)
    ensures EndsWith(other, [o] + script) || Outranks([o] + script, other)
  {
    var n := |script|;
    var pre, more := other[..|other| - n], [o] + script;
    FrontLongest(pre, script, other, a, b, i, j);
    LastOp(pre, a, b, i, j, o);
    assert other[|other| - n - 1] == Last(pre) && more[|more| - n..] == script;
    if Last(pre) == o {
      assert other[|other| - n - 1..] == more;
    } else {
      assert OutranksAt(more, other, n);
    }
  }

  lemma FrontLongest(pre: seq<Op>, script: seq<Op>, other: seq<Op>, a: seq<Line>, b: seq<Line>, i: nat, j: nat)
    requires SuffixScript(script, a, b, i, j) && Longest(other, a, b) && other == pre + script
    ensures Longest(pre, a[..i], b[..j])
  {
    ScriptConcat(pre, script);
    assert a == a[..i] + a[i..] && b == b[..j] + b[j..];
    assert OldOf(pre) == a[..i] && NewOf(pre) == b[..j];
  }

  /** Of all the scripts that keep as much, the walk back finds the one that outranks all others. */
  ghost predicate IsChosen(ops: seq<Op>, a: seq<Line>, b: seq<Line>) {
    Longest(ops, a, b) && forall other :: Longest(other, a, b) ==> other == ops || Outranks(ops, other)
  }

  lemma PreferredIsChosen(ops: seq<Op>, a: seq<Line>, b: seq<Line>)
    requires Longest(ops, a, b) && Preferred(ops, a, b)
    ensures IsChosen(ops, a, b)
  {
    forall other | Longest(other, a, b) ensures other == ops || Outranks(ops, other) {
      if EndsWith(other, ops) {
        var pre := other[..|other| - |ops|];
        assert other == pre + ops;
        ScriptConcat(pre, ops);
        assert OldOf(pre) == [] && NewOf(pre) == [];
      }
    }
  }

  lemma SameFromEnd(s: seq<Op>, t: seq<Op>, n: nat, m: nat)
    requires m < n <= |s| && n <= |t| && s[|s| - n..] == t[|t| - n..]
    ensures s[|s| - 1 - m] == t[|t| - 1 - m]
  {
    assert s[|s| - n..][n - 1 - m] == t[|t| - n..][n - 1 - m];
  }

  lemma OutranksBoth(s: seq<Op>, t: seq<Op>)
    requires Outranks(s, t)
    ensures !Outranks(t, s)
  {
    var m: nat :| OutranksAt(s, t, m);
    forall n: nat ensures !OutranksAt(t, s, n) {
      if OutranksAt(t, s, n) {
        if n < m {
          SameFromEnd(s, t, m, n);
        } else if n > m {
          SameFromEnd(s, t, n, m);
        }
      }
    }
  }

  /** There is only one such script. */
  lemma ChosenUnique(s: seq<Op>, t: seq<Op>, a: seq<Line>, b: seq<Line>)
    requires IsChosen(s, a, b) && IsChosen(t, a, b)
    ensures s == t
  {
    if s != t {
      OutranksBoth(s, t);
    }
  }

  /** Where lines are replaced, the old ones come first. */
  predicate RemovesFirst(ops: seq<Op>) {
    forall k :: 0 < k < |ops| ==> !(ops[k - 1].kind == Add && ops[k].kind == Remove)
  }

  lemma SwapPair(pre: seq<Op>, x: Op, y: Op)
    requires x.kind == Add && y.kind == Remove
    ensures OldOf(pre + [x] + [y]) == OldOf(pre + [y] + [x]) && NewOf(pre + [x] + [y]) == NewOf(pre + [y] + [x])
    ensures Kept(pre + [x] + [y]) == Kept(pre + [y] + [x])
  {
    OldSnoc(pre, x);
    OldSnoc(pre + [x], y);
    OldSnoc(pre, y);
    OldSnoc(pre + [y], x);
    NewSnoc(pre, x);
    NewSnoc(pre + [x], y);
    NewSnoc(pre, y);
    NewSnoc(pre + [y], x);
    KeptSnoc(pre, x);
    KeptSnoc(pre + [x], y);
    KeptSnoc(pre, y);
    KeptSnoc(pre + [y], x);
  }

  lemma SwapScript(pre: seq<Op>, x: Op, y: Op, post: seq<Op>)
    requires x.kind == Add && y.kind == Remove
    ensures OldOf(pre + [x] + [y] + post) == OldOf(pre + [y] + [x] + post)
    ensures NewOf(pre + [x] + [y] + post) == NewOf(pre + [y] + [x] + post)
    ensures Kept(pre + [x] + [y] + post) == Kept(pre + [y] + [x] + post)
  {
    SwapPair(pre, x, y);
    ScriptConcat(pre + [x] + [y], post);
    ScriptConcat(pre + [y] + [x], post);
  }

  lemma ChosenRemovesFirst(ops: seq<Op>, a: seq<Line>, b: seq<Line>)
    requires IsChosen(ops, a, b)
    ensures RemovesFirst(ops)
  {
    forall k | 0 < k < |ops| ensures !(ops[k - 1].kind == Add && ops[k].kind == Remove) {
      var x, y := ops[k - 1], ops[k];
      if x.kind == Add && y.kind == Remove {
        var pre, post := ops[..k - 1], ops[k + 1..];
        assert ops == pre + [x] + [y] + post;
        var other := pre + [y] + [x] + post;
        SwapScript(pre, x, y, post);
        assert ops[|ops| - |post|..] == post == other[|other| - |post|..];
        assert OutranksAt(other, ops, |post|) && other[k] == x;
        OutranksBoth(other, ops);
        assert false;
      }
    }
  }

  method Backtrack(a: seq<Line>, b: seq<Line>, dp: array2<int>) returns (ops: seq<Op>)
    requires dp.Length0 == |a| + 1 && dp.Length1 == |b| + 1 && Filled(dp, a, b, |a| + 1, 0)
    ensures IsChosen(Flipped(ops), a, b)
  {
    ops := [];
    ghost var script: seq<Op> := [];
    var i, j := |a|, |b|;
    assert a[..i] == a && b[..j] == b;
    while i > 0 || j > 0
      invariant SuffixScript(script, a, b, i, j) && BackToFront(ops, script) && Preferred(script, a, b)
      decreases i + j
    {
      if i > 0 && j > 0 && a[i - 1] == b[j - 1] {
        StepKeep(script, a, b, i, j);
        PreferredStep(script, a, b, i, j, Op(Keep, a[i - 1]));
        PushFront(ops, script, Op(Keep, a[i - 1]));
        ops, script := ops + [Op(Keep, a[i - 1])], [Op(Keep, a[i - 1])] + script;
        i, j := i - 1, j - 1;
        continue;
      }
      WhichStep(a, b, i, j);
      if j > 0 && (i == 0 || dp[i, j - 1] >= dp[i - 1, j]) {
        StepAdd(script, a, b, i, j);
        PreferredStep(script, a, b, i, j, Op(Add, b[j - 1]));
        PushFront(ops, script, Op(Add, b[j - 1]));
        ops, script := ops + [Op(Add, b[j - 1])], [Op(Add, b[j - 1])] + script;
        j := j - 1;
      } else {
        StepRemove(script, a, b, i, j);
        PreferredStep(script, a, b, i, j, Op(Remove, a[i - 1]));
        PushFront(ops, script, Op(Remove, a[i - 1]));
        ops, script := ops + [Op(Remove, a[i - 1])], [Op(Remove, a[i - 1])] + script;
        i := i - 1;
      }
    }
    assert script == Flipped(ops);
    PreferredIsChosen(script, a, b);
  }

  /** The script between the two lists of lines that keeps a longest common subsequence of them and outranks the others. */
  method EditScript(a: seq<Line>, b: seq<Line>) returns (ops: seq<Op>)
    ensures IsChosen(ops, a, b)
  {
    var dp := FillTable(a, b);
    var back := Backtrack(a, b, dp);
    ops := Reverse(back);
  }

  // --- the hunk window ----------------------------------------------------------------------

  ghost predicate NearBefore(ops: seq<Op>, k: int, upto: int) {
    exists c :: 0 <= c < upto && c < |ops| && k - CONTEXT <= c <= k + CONTEXT && ops[c].kind != Keep
  }

  /** Position `k` stands within three positions of a change. */
  ghost predicate Near(ops: seq<Op>, k: int) {
    NearBefore(ops, k, |ops|)
  }

  function Render(o: Op): string {
    (match o.kind case Add => "+" case Remove => "-" case Keep => " ") + o.line + "\n"
  }

  /** The selected ops below `k`, rendered once each and in order. */
  function Selected(ops: seq<Op>, sel: seq<bool>, k: nat): string
    requires |sel| == |ops| && k <= |ops|
  {
    if k == 0 then "" else Selected(ops, sel, k - 1) + if sel[k - 1] then Render(ops[k - 1]) else ""
  }

  ghost function Window(ops: seq<Op>): (sel: seq<bool>)
    ensures |sel| == |ops| && forall k :: 0 <= k < |ops| ==> (sel[k] <==> Near(ops, k))
  {
    seq(|ops|, k => Near(ops, k))
  }

  /** What is printed of a script: the ops near a change, once each and in order. */
  ghost function Printed(ops: seq<Op>): string {
    HEADER + Selected(ops, Window(ops), |ops|)
  }

  // --- reading a diff -----------------------------------------------------------------------

  predicate OneLine(s: string) {
    '\n' !in s
  }

  /** How many characters come before the first line break. */
  function FirstBreak(text: string): (n: nat)
    ensures n <= |text|
  {
    if text == "" || text[0] == '\n' then 0 else FirstBreak(text[1..]) + 1
  }

  lemma {:induction false} BreakBehind(line: string, rest: string)
    requires OneLine(line)
    ensures FirstBreak(line + "\n" + rest) == |line|
  {
    var text := line + "\n" + rest;
    if line != "" {
      assert text[0] == line[0] && line[0] in line;
      assert text[1..] == line[1..] + "\n" + rest;
      BreakBehind(line[1..], rest);
    }
  }

  /** The reader of a diff: a plus adds, a minus removes, anything else keeps. */
  function Read(text: string): seq<Op> {
    var n := FirstBreak(text);
    if n == |text| then []
    else (if n == 0 then [] else [ReadLine(text[..n])]) + Read(text[n + 1..])
  }

  function ReadLine(line: string): Op
    requires line != ""
  {
    Op(if line[0] == '+' then Add else if line[0] == '-' then Remove else Keep, line[1..])
  }

  function SelectedOps(ops: seq<Op>, sel: seq<bool>, k: nat): seq<Op>
    requires |sel| == |ops| && k <= |ops|
  {
    if k == 0 then [] else SelectedOps(ops, sel, k - 1) + if sel[k - 1] then [ops[k - 1]] else []
  }

  lemma RenderedLine(o: Op) returns (line: string)
    ensures line != "" && Render(o) == line + "\n" && ReadLine(line) == o && (OneLine(o.line) ==> OneLine(line))
  {
    line := (match o.kind case Add => "+" case Remove => "-" case Keep => " ") + o.line;
    assert line[1..] == o.line;
  }

  lemma ReadRender(o: Op, rest: string)
    requires OneLine(o.line)
    ensures Read(Render(o) + rest) == [o] + Read(rest)
  {
    var line := RenderedLine(o);
    var text := line + "\n" + rest;
    BreakBehind(line, rest);
    assert text[..|line|] == line && text[|line| + 1..] == rest;
  }

  function RenderAll(ops: seq<Op>): string {
    if ops == [] then "" else Render(ops[0]) + RenderAll(ops[1..])
  }

  lemma {:induction false} RenderAllSnoc(ops: seq<Op>, o: Op)
    ensures RenderAll(ops + [o]) == RenderAll(ops) + Render(o)
  {
    if ops == [] {
      assert [o][1..] == [];
    } else {
      RenderAllSnoc(ops[1..], o);
      assert (ops + [o])[1..] == ops[1..] + [o];
    }
  }

  lemma {:induction false} SelectedRenders(ops: seq<Op>, sel: seq<bool>, k: nat)
    requires |sel| == |ops| && k <= |ops|
    ensures Selected(ops, sel, k) == RenderAll(SelectedOps(ops, sel, k))
  {
    if k > 0 {
      SelectedRenders(ops, sel, k - 1);
      RenderAllSnoc(SelectedOps(ops, sel, k - 1), ops[k - 1]);
      assert SelectedOps(ops, sel, k - 1) + [] == SelectedOps(ops, sel, k - 1);
    }
  }

  lemma {:induction false} SelectedFrom(ops: seq<Op>, sel: seq<bool>, k: nat)
    requires |sel| == |ops| && k <= |ops|
    ensures forall o :: o in SelectedOps(ops, sel, k) ==> o in ops
  {
    if k > 0 {
      SelectedFrom(ops, sel, k - 1);
    }
  }

  lemma {:induction false} ReadAll(ops: seq<Op>)
    requires forall o :: o in ops ==> OneLine(o.line)
    ensures Read(RenderAll(ops)) == ops
  {
    if ops != [] {
      ReadAll(ops[1..]);
      ReadRender(ops[0], RenderAll(ops[1..]));
    }
  }

  /** Whoever reads the printed diff finds the header, and then exactly the ops near a change. */
  lemma PrintedReads(ops: seq<Op>)
    requires forall k :: 0 <= k < |ops| ==> OneLine(ops[k].line)
    ensures Printed(ops)[..16] == "--- old\n+++ new\n"
    ensures Read(Printed(ops)[16..]) == SelectedOps(ops, Window(ops), |ops|)
  {
    var body := Selected(ops, Window(ops), |ops|);
    assert |HEADER| == 16 && Printed(ops)[16..] == body;
    SelectedRenders(ops, Window(ops), |ops|);
    SelectedFrom(ops, Window(ops), |ops|);
    ReadAll(SelectedOps(ops, Window(ops), |ops|));
  }

  lemma {:induction false} AllSelected(ops: seq<Op>, sel: seq<bool>, k: nat)
    requires |sel| == |ops| && k <= |ops| && forall p :: 0 <= p < k ==> sel[p]
    ensures SelectedOps(ops, sel, k) == ops[..k]
  {
    if k > 0 {
      AllSelected(ops, sel, k - 1);
    }
  }

  /** If every line is near a change the printed diff is the whole script: old and new lines can be read off it. */
  lemma PrintedIsPatch(ops: seq<Op>, a: seq<Line>, b: seq<Line>)
    requires IsScript(ops, a, b) && forall k :: 0 <= k < |ops| ==> OneLine(ops[k].line) && Near(ops, k)
    ensures OldOf(Read(Printed(ops)[16..])) == a && NewOf(Read(Printed(ops)[16..])) == b
  {
    PrintedReads(ops);
    AllSelected(ops, Window(ops), |ops|);
    assert ops[..|ops|] == ops;
  }

  lemma {:induction false} SelectedAgrees(ops: seq<Op>, s: seq<bool>, t: seq<bool>, k: nat)
    requires |s| == |t| == |ops| && k <= |ops| && forall p :: 0 <= p < k ==> s[p] == t[p]
    ensures Selected(ops, s, k) == Selected(ops, t, k)
  {
    if k > 0 {
      SelectedAgrees(ops, s, t, k - 1);
    }
  }

  lemma {:induction false} SelectMore(ops: seq<Op>, sel: seq<bool>, k: nat, upto: nat)
    requires |sel| == |ops| && k < upto <= |ops| && forall p :: k <= p < upto ==> !sel[p]
    ensures Selected(ops, sel[k := true], upto) == Selected(ops, sel, upto) + Render(ops[k])
  {
    var more := sel[k := true];
    if upto == k + 1 {
      SelectedAgrees(ops, sel, more, k);
      assert Selected(ops, sel, upto) == Selected(ops, sel, k);
    } else {
      SelectMore(ops, sel, k, upto - 1);
      assert Selected(ops, sel, upto) == Selected(ops, sel, upto - 1);
      assert Selected(ops, more, upto) == Selected(ops, more, upto - 1);
    }
  }

  lemma {:induction false} SelectedNone(ops: seq<Op>, sel: seq<bool>, k: nat)
    requires |sel| == |ops| && k <= |ops| && forall p :: 0 <= p < |sel| ==> !sel[p]
    ensures Selected(ops, sel, k) == ""
  {
    if k > 0 {
      SelectedNone(ops, sel, k - 1);
    }
  }

  /** Printed while the window of the change at `idx` is being printed up to `k`. */
  ghost predicate PrintedSoFar(ops: seq<Op>, sel: seq<bool>, idx: int, k: int) {
    |sel| == |ops| &&
    forall p :: 0 <= p < |ops| ==> (sel[p] <==> NearBefore(ops, p, idx) || (idx - CONTEXT <= p < k))
  }

  lemma NearDown(ops: seq<Op>, p: int, k: int, idx: int)
    requires NearBefore(ops, p, idx) && idx - CONTEXT <= k <= p
    ensures NearBefore(ops, k, idx)
  {
    var c :| 0 <= c < idx && c < |ops| && p - CONTEXT <= c <= p + CONTEXT && ops[c].kind != Keep;
    assert k - CONTEXT <= c <= k + CONTEXT;
  }

  lemma NothingPrintedAbove(ops: seq<Op>, sel: seq<bool>, idx: int, k: int)
    requires 0 <= idx < |ops| && idx - CONTEXT <= k <= idx + CONTEXT && 0 <= k < |ops|
    requires PrintedSoFar(ops, sel, idx, k) && !sel[k]
    ensures forall p :: k <= p < |ops| ==> !sel[p]
  {
    forall p | k <= p < |ops| ensures !sel[p] {
      if NearBefore(ops, p, idx) {
        NearDown(ops, p, k, idx);
      }
    }
  }

  lemma NearGrows(ops: seq<Op>, idx: int, p: int)
    requires 0 <= idx < |ops|
    ensures NearBefore(ops, p, idx + 1) <==>
            NearBefore(ops, p, idx) || (ops[idx].kind != Keep && p - CONTEXT <= idx <= p + CONTEXT)
  {
  }

  lemma PrintOne(ops: seq<Op>, sel: seq<bool>, idx: int, k: int)
    requires 0 <= idx < |ops| && idx - CONTEXT <= k <= idx + CONTEXT && 0 <= k < |ops|
    requires PrintedSoFar(ops, sel, idx, k) && !sel[k]
    ensures PrintedSoFar(ops, sel[k := true], idx, k + 1)
    ensures Selected(ops, sel[k := true], |ops|) == Selected(ops, sel, |ops|) + Render(ops[k])
  {
    NothingPrintedAbove(ops, sel, idx, k);
    SelectMore(ops, sel, k, |ops|);
  }

  lemma PrintedAlready(ops: seq<Op>, sel: seq<bool>, idx: int, k: int)
    requires 0 <= k < |ops| && PrintedSoFar(ops, sel, idx, k) && sel[k]
    ensures PrintedSoFar(ops, sel, idx, k + 1)
  {
  }

  /** The window of one change: every position in it that is not printed yet is printed now. */
  method PrintHunk(ops: seq<Op>, printed: array<bool>, idx: nat, before: string) returns (out: string)
    requires idx < |ops| && PrintedSoFar(ops, printed[..], idx, idx - CONTEXT)
    requires before == HEADER + Selected(ops, printed[..], |ops|)
    modifies printed
    ensures PrintedSoFar(ops, printed[..], idx, idx + CONTEXT + 1)
    ensures out == HEADER + Selected(ops, printed[..], |ops|)
  {
    out := before;
    var start := if idx - CONTEXT > 0 then idx - CONTEXT else 0;
    var end := if idx + CONTEXT + 1 < |ops| then idx + CONTEXT + 1 else |ops|;
    for k := start to end
      invariant PrintedSoFar(ops, printed[..], idx, k)
      invariant out == HEADER + Selected(ops, printed[..], |ops|)
    {
      ghost var sel := printed[..];
      if printed[k] {
        PrintedAlready(ops, sel, idx, k);
      } else {
        PrintOne(ops, sel, idx, k);
        printed[k] := true;
        assert printed[..] == sel[k := true];
        out := out + Render(ops[k]);
      }
    }
  }

  method PrintWindow(ops: seq<Op>) returns (out: string)
    ensures out == Printed(ops)
  {
    var changed := new bool[|ops|](_ => false);
    for idx := 0 to |ops|
      invariant forall p :: 0 <= p < |ops| ==> (changed[p] <==> p < idx && ops[p].kind != Keep)
    {
      if ops[idx].kind != Keep { changed[idx] := true; }
    }
    out := HEADER;
    var printed := new bool[|ops|](_ => false);
    SelectedNone(ops, printed[..], |ops|);
    for idx := 0 to |ops|
      invariant forall p :: 0 <= p < |ops| ==> (changed[p] <==> ops[p].kind != Keep)
      invariant PrintedSoFar(ops, printed[..], idx, idx - CONTEXT)
      invariant out == HEADER + Selected(ops, printed[..], |ops|)
    {
      forall p {
        NearGrows(ops, idx, p);
      }
      if changed[idx] {
        out := PrintHunk(ops, printed, idx, out);
      }
    }
    SelectedAgrees(ops, printed[..], Window(ops), |ops|);
  }

  /** A script from `a` to `b` that no other one beats: none has fewer edits, and no common subsequence of the two lists
      is longer than what it keeps. */
  ghost predicate IsBest(ops: seq<Op>, a: seq<Line>, b: seq<Line>) {
    && IsScript(ops, a, b)
    && (forall other :: IsScript(other, a, b) ==> Edits(ops) <= Edits(other))
    && (forall c :: Subsequence(c, a) && Subsequence(c, b) ==> |c| <= Kept(ops))
  }

  lemma {:induction false} LongestIsBest(ops: seq<Op>, a: seq<Line>, b: seq<Line>)
    requires IsScript(ops, a, b) && Kept(ops) == Lcs(a, b)
    ensures IsBest(ops, a, b)
  {
    forall other | IsScript(other, a, b) ensures Edits(ops) <= Edits(other) {
      FewestEdits(ops, other);
    }
    forall c | Subsequence(c, a) && Subsequence(c, b) ensures |c| <= Kept(ops) {
      CommonAtMostLcs(c, a, b);
    }
  }

  method ComputeUnifiedDiff(oldLines: seq<Line>, newLines: seq<Line>) returns (out: string)
    ensures exists ops :: IsBest(ops, oldLines, newLines) && IsChosen(ops, oldLines, newLines) && RemovesFirst(ops) &&
                          out == Printed(ops)
  {
    var ops := EditScript(oldLines, newLines);
    LongestIsBest(ops, oldLines, newLines);
    ChosenRemovesFirst(ops, oldLines, newLines);
    out := PrintWindow(ops);
  }
}
