/** What the two rolling-row programs share: one row of the distance table. */
module RollingRows {
  import opened Sequences
  import opened GoStrings
  import opened EditScripts

  /** `row` holds the distances from the first `i` runes of `a` to every prefix of `b`. */
  predicate RowDone(row: seq<int>, a: seq<Rune>, i: nat, b: seq<Rune>) {
    i <= |a| && RowPrefix(row, a, i, b, |b| + 1)
  }

  /** The same while only the cells below `upto` are filled. */
  predicate RowPrefix(row: seq<int>, a: seq<Rune>, i: nat, b: seq<Rune>, upto: nat)
    requires i <= |a|
  {
    |row| == |b| + 1 && upto <= |b| + 1 && forall j :: 0 <= j < upto ==> row[j] == Dist(a[..i], b[..j])
  }

  lemma StartRow(row: seq<int>, a: seq<Rune>, b: seq<Rune>)
    requires |row| == |b| + 1 && forall j :: 0 <= j <= |b| ==> row[j] == j
    ensures RowDone(row, a, 0, b)
  {
  }

  /** One more cell, computed from its three neighbours. */
  lemma CellFills(prev: seq<int>, cur: seq<int>, a: seq<Rune>, i: nat, b: seq<Rune>, j: nat, cell: int)
    requires 0 < i <= |a| && 0 < j <= |b|
    requires RowDone(prev, a, i - 1, b) && RowPrefix(cur, a, i, b, j)
    requires cell == Min(prev[j] + 1, Min(cur[j - 1] + 1, prev[j - 1] + Cost(a[i - 1], b[j - 1])))
    ensures RowPrefix(cur[j := cell], a, i, b, j + 1)
  {
    assert Init(a[..i]) == a[..i - 1] && Init(b[..j]) == b[..j - 1];
    assert Last(a[..i]) == a[i - 1] && Last(b[..j]) == b[j - 1];
    assert cell == Dist(a[..i], b[..j]);
  }

  lemma {:induction false} LastCell(row: seq<int>, a: seq<Rune>, b: seq<Rune>)
    requires RowDone(row, a, |a|, b)
    ensures row[|b|] == Dist(a, b)
  {
    assert a[..|a|] == a && b[..|b|] == b;
  }
}

/** When the distance of two strings tells the strings themselves apart. */
module StringDistance {
  import opened EditScripts
  import opened GoStrings

  /** On valid UTF-8 the distance is zero exactly for equal strings. */
  lemma {:induction false} ZeroOnValidStrings(x: seq<Rune>, y: seq<Rune>)
    requires ValidRunes(x) && ValidRunes(y)
    ensures Dist(Runes(Encode(x)), Runes(Encode(y))) == 0 <==> Encode(x) == Encode(y)
  {
    RunesOfEncode(x);
    RunesOfEncode(y);
    DistZero(x, y);
  }

  /** One string stands alone, equal to everything at distance 0 from it, exactly if it is valid UTF-8 without the
      replacement rune U+FFFD. */
  lemma {:induction false} AloneExactly(s: GoString)
    ensures (forall t :: Dist(Runes(s), Runes(t)) == 0 ==> t == s) <==> IsUtf8(s) && RUNE_ERROR !in Runes(s)
  {
    NoReplacementExactly(s);
    if RUNE_ERROR in Runes(s) {
      var t := Twin(s);
      DistZero(Runes(s), Runes(t));
    } else {
      forall t | Dist(Runes(s), Runes(t)) == 0 ensures t == s {
        DistZero(Runes(s), Runes(t));
        EncodeRunes(s);
        EncodeRunes(t);
      }
    }
  }

  /** Two examples: two broken bytes, and a broken byte against the valid encoding of U+FFFD. */
  lemma BrokenBytesCollide()
    ensures Dist(Runes([0xFF]), Runes([0xFE])) == 0 && Dist(Runes([0xFF]), Runes([0xEF, 0xBF, 0xBD])) == 0
  {
    assert DecodeRune([0xFF]) == (RUNE_ERROR, 1) && DecodeRune([0xFE]) == (RUNE_ERROR, 1);
    ReplacementDecodes([]);
    assert [0xEF, 0xBF, 0xBD] + [] == [0xEF, 0xBF, 0xBD] && [0xFF] + [] == [0xFF];
    DistZero(Runes([0xFF]), Runes([0xFE]));
    DistZero(Runes([0xFF]), Runes([0xEF, 0xBF, 0xBD]));
  }
}

/** cmd/polaris/migrate_openclaw_memory.go */
module MigrateMemory {
  import opened EditScripts
  import opened GoStrings
  import opened RollingRows

  const COMPARED_BYTES := 500

  function Min3(a: int, b: int, c: int): (m: int)
    ensures m <= a && m <= b && m <= c && m in {a, b, c}
  {
    if a < b then if a < c then a else c else if b < c then b else c
  }

  method LevenshteinDistance(a: GoString, b: GoString) returns (d: nat)
    ensures d == Dist(Runes(a), Runes(b))
  {
    var ar, br := Runes(a), Runes(b);
    var n, m := |ar|, |br|;
    if n == 0 { return m; }
    if m == 0 { return n; }
    var prev := new int[m + 1];
    var cur := new int[m + 1];
    for j := 0 to m + 1
      invariant forall k :: 0 <= k < j ==> prev[k] == k
    {
      prev[j] := j;
    }
    StartRow(prev[..], ar, br);
    for i := 1 to n + 1
      invariant prev != cur && prev.Length == cur.Length == m + 1 && fresh(prev) && fresh(cur)
      invariant RowDone(prev[..], ar, i - 1, br)
    {
      cur[0] := i;
      for j := 1 to m + 1
        invariant RowDone(prev[..], ar, i - 1, br)
        invariant RowPrefix(cur[..], ar, i, br, j)
      {
        var cost := 1;
        if ar[i - 1] == br[j - 1] { cost := 0; }
        var cell := Min3(prev[j] + 1, cur[j - 1] + 1, prev[j - 1] + cost);
        CellFills(prev[..], cur[..], ar, i, br, j, cell);
        ghost var row := cur[..];
        cur[j] := cell;
        assert cur[..] == row[j := cell];
      }
      prev, cur := cur, prev;
    }
    LastCell(prev[..], ar, br);
    return prev[m];
  }

  /** The bytes that are compared: a cut at byte 500, which may fall inside a rune. */
  function Compared(s: GoString): GoString {
    if |s| > COMPARED_BYTES then s[..COMPARED_BYTES] else s
  }

  /** What the comment of the source promises instead: the first `n` runes. */
  function FirstRunes(s: GoString, n: nat): seq<Rune> {
    if |Runes(s)| <= n then Runes(s) else Runes(s)[..n]
  }

  /** On valid UTF-8 without U+FFFD, the cut keeps the first 500 runes exactly if there is nothing to cut or the bytes it
      keeps are all ASCII. */
  lemma {:induction false} CutKeepsRunesExactly(s: GoString)
    requires RUNE_ERROR !in Runes(s)
    ensures Runes(Compared(s)) == FirstRunes(s, COMPARED_BYTES) <==>
              |s| <= COMPARED_BYTES || AllAscii(s, COMPARED_BYTES)
  {
    if |s| > COMPARED_BYTES {
      var cut := s[..COMPARED_BYTES];
      if AllAscii(s, COMPARED_BYTES) {
        AsciiRunes(cut, s[COMPARED_BYTES..]);
        AsciiRunes(cut, []);
        assert cut + s[COMPARED_BYTES..] == s && cut + [] == cut;
      } else if Runes(cut) == FirstRunes(s, COMPARED_BYTES) {
        CutIsAscii(s, cut);
      }
    }
  }

  lemma CutIsAscii(s: GoString, cut: GoString)
    requires RUNE_ERROR !in Runes(s) && cut < s && |cut| == COMPARED_BYTES
    requires Runes(cut) == FirstRunes(s, COMPARED_BYTES)
    ensures AllAscii(cut, |cut|)
  {
    assert forall r :: r in Runes(cut) ==> r in Runes(s);
    EncodeRunes(cut);
    EncodeRunes(s);
    ManyRunesAreAscii(cut);
  }

  /** `n` times the two bytes of the rune U+00E9. */
  function Accents(n: nat): (s: GoString)
    ensures |s| == 2 * n
  {
    if n == 0 then [] else [0xC3, 0xA9] + Accents(n - 1)
  }

  lemma {:induction false} AccentRunes(n: nat, m: nat)
    requires m <= n
    ensures Runes(Accents(n)) == seq(n, _ => 0xE9) && Accents(n)[..2 * m] == Accents(m)
  {
    if n > 0 {
      assert Accents(n)[2..] == Accents(n - 1);
      AccentRunes(n - 1, if m > 0 then m - 1 else 0);
      if m > 0 {
        assert Accents(n)[..2 * m] == [0xC3, 0xA9] + Accents(n - 1)[..2 * (m - 1)];
      }
    }
  }

  /** Of 300 accented letters only 250 are compared. */
  lemma CutLosesRunes()
    ensures |Runes(Accents(300))| == 300 && |Runes(Compared(Accents(300)))| == 250
  {
    AccentRunes(300, 250);
    AccentRunes(250, 250);
  }

  lemma Score(d: nat, m: nat, s: real)
    requires d <= m && m > 0 && s == 1.0 - d as real / m as real
    ensures 0.0 <= s <= 1.0
    ensures s == 1.0 <==> d == 0
    ensures (1.0 - s) * m as real == d as real
  {
  }

  /** `s` is one minus the distance as a fraction of `m`, between 0 and 1, and 1 for equal runes only. */
  ghost predicate MeasuresSimilarity(s: real, ra: seq<Rune>, rb: seq<Rune>, m: nat) {
    && 0.0 <= s <= 1.0
    && (s == 1.0 <==> ra == rb)
    && (1.0 - s) * m as real == Dist(ra, rb) as real
  }

  lemma ScoreMeasures(ra: seq<Rune>, rb: seq<Rune>, m: nat, s: real)
    requires |ra| <= m && |rb| <= m && m > 0 && s == 1.0 - Dist(ra, rb) as real / m as real
    ensures MeasuresSimilarity(s, ra, rb, m)
  {
    DistBounds(ra, rb);
    DistZero(ra, rb);
    Score(Dist(ra, rb), m, s);
  }

  method Similarity(a: GoString, b: GoString) returns (s: real)
    ensures MeasuresSimilarity(s, Runes(Compared(a)), Runes(Compared(b)), Max(|Compared(a)|, |Compared(b)|))
  {
    if |a| == 0 && |b| == 0 {
      return 1.0;
    }
    var a', b' := Compared(a), Compared(b);
    var distance := LevenshteinDistance(a', b');
    var maxLen := |a'|;
    if |b'| > maxLen { maxLen := |b'|; }
    ghost var longest := Max(|Compared(a)|, |Compared(b)|);
    assert maxLen == longest;
    s := 1.0 - distance as real / maxLen as real;
    ScoreMeasures(Runes(Compared(a)), Runes(Compared(b)), longest, s);
  }
}

/** pkg/swarm/graph_entity.go */
module GraphEntity {
  import opened EditScripts
  import opened GoStrings
  import opened RollingRows

  method MinInt(a: int, b: int) returns (m: int)
    ensures m <= a && m <= b && m in {a, b}
  {
    if a < b { return a; }
    return b;
  }

  method EditDistance(a: GoString, b: GoString) returns (d: nat)
    ensures d == Dist(Runes(a), Runes(b))
  {
    var ar, br := Runes(a), Runes(b);
    var n, m := |ar|, |br|;
    if n == 0 { return m; }
    if m == 0 { return n; }
    var prev := new int[m + 1];
    var cur := new int[m + 1];
    for j := 0 to m + 1
      invariant forall k :: 0 <= k < j ==> prev[k] == k
    {
      prev[j] := j;
    }
    StartRow(prev[..], ar, br);
    for i := 1 to n + 1
      invariant prev != cur && prev.Length == cur.Length == m + 1 && fresh(prev) && fresh(cur)
      invariant RowDone(prev[..], ar, i - 1, br)
    {
      cur[0] := i;
      for j := 1 to m + 1
        invariant RowDone(prev[..], ar, i - 1, br)
        invariant RowPrefix(cur[..], ar, i, br, j)
      {
        var cost := 1;
        if ar[i - 1] == br[j - 1] { cost := 0; }
        var inner := MinInt(cur[j - 1] + 1, prev[j - 1] + cost);
        var cell := MinInt(prev[j] + 1, inner);
        CellFills(prev[..], cur[..], ar, i, br, j, cell);
        ghost var row := cur[..];
        cur[j] := cell;
        assert cur[..] == row[j := cell];
      }
      prev, cur := cur, prev;
    }
    LastCell(prev[..], ar, br);
    return prev[m];
  }
}
