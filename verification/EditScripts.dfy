/** Rune strings, the single-rune edits on them, and the edit distance both rolling-row
    implementations of the repository compute. */
module EditScripts {

  import opened GoStrings
  import opened Sequences

  function Min(x: int, y: int): int {
    if x < y then x else y
  }

  function Max(x: int, y: int): int {
    if x < y then y else x
  }

  // --- edit scripts: what the distance is about ---------------------------------------------

  datatype Edit = Insert(at: nat, r: Rune) | Delete(at: nat) | Substitute(at: nat, r: Rune)

  predicate Applies(e: Edit, s: seq<Rune>) {
    match e
    case Insert(at, _) => at <= |s|
    case Delete(at) => at < |s|
    case Substitute(at, _) => at < |s|
  }

  function Perform(e: Edit, s: seq<Rune>): seq<Rune>
    requires Applies(e, s)
  {
    match e
    case Insert(at, r) => s[..at] + [r] + s[at..]
    case Delete(at) => s[..at] + s[at + 1..]
    case Substitute(at, r) => s[..at] + [r] + s[at + 1..]
  }

  /** The script `es`, performed edit by edit, turns `s` into `t`. */
  predicate Turns(s: seq<Rune>, es: seq<Edit>, t: seq<Rune>)
    decreases |es|
  {
    if es == [] then s == t else Applies(es[0], s) && Turns(Perform(es[0], s), es[1..], t)
  }

  // --- the distance by its recurrence -------------------------------------------------------

  function Cost(x: Rune, y: Rune): nat {
    if x == y then 0 else 1
  }

  function Dist(a: seq<Rune>, b: seq<Rune>): nat
    decreases |a| + |b|
  {
    if a == [] then |b|
    else if b == [] then |a|
    else Min(Dist(Init(a), b) + 1, Min(Dist(a, Init(b)) + 1, Dist(Init(a), Init(b)) + Cost(Last(a), Last(b))))
  }

  lemma {:induction false} DistBounds(a: seq<Rune>, b: seq<Rune>)
    ensures |a| - |b| <= Dist(a, b) && |b| - |a| <= Dist(a, b)
    ensures Dist(a, b) <= Max(|a|, |b|)
    decreases |a| + |b|
  {
    if a != [] && b != [] {
      DistBounds(Init(a), b);
      DistBounds(a, Init(b));
      DistBounds(Init(a), Init(b));
    }
  }

  lemma {:induction false} DistSymmetric(a: seq<Rune>, b: seq<Rune>)
    ensures Dist(a, b) == Dist(b, a)
    decreases |a| + |b|
  {
    if a != [] && b != [] {
      DistSymmetric(Init(a), b);
      DistSymmetric(a, Init(b));
      DistSymmetric(Init(a), Init(b));
    }
  }

  lemma {:induction false} DistZero(a: seq<Rune>, b: seq<Rune>)
    ensures Dist(a, b) == 0 <==> a == b
    decreases |a| + |b|
  {
    if a != [] && b != [] {
      DistZero(Init(a), Init(b));
      assert a == Init(a) + [Last(a)] && b == Init(b) + [Last(b)];
    }
  }

  lemma {:induction false} DistTriangle(a: seq<Rune>, b: seq<Rune>, c: seq<Rune>)
    ensures Dist(a, c) <= Dist(a, b) + Dist(b, c)
    decreases |a| + |b| + |c|
  {
    DistBounds(a, b);
    DistBounds(b, c);
    DistBounds(a, c);
    if a != [] && b != [] && c != [] {
      var a', b', c' := Init(a), Init(b), Init(c);
      if Dist(a, b) == Dist(a', b) + 1 {
        DistTriangle(a', b, c);
      } else if Dist(b, c) == Dist(b, c') + 1 {
        DistTriangle(a, b, c');
      } else if Dist(a, b) == Dist(a, b') + 1 {
        DistTriangle(a, b', c);
        DistTriangle(a, b', c');
      } else {
        DistTriangle(a', b', c);
        DistTriangle(a', b', c');
      }
    }
  }

  // --- the recurrence is the least number of edits ------------------------------------------

  lemma {:induction false} CommonSuffix(a: seq<Rune>, b: seq<Rune>, z: seq<Rune>)
    ensures Dist(a + z, b + z) <= Dist(a, b)
    decreases |z|
  {
    if z == [] {
      assert a + z == a && b + z == b;
    } else {
      CommonSuffix(a, b, Init(z));
      assert Init(a + z) == a + Init(z) && Init(b + z) == b + Init(z);
    }
  }

  lemma AppendOne(p: seq<Rune>, r: Rune)
    ensures Dist(p, p + [r]) <= 1 && Dist(p + [r], p) <= 1
  {
    assert Init(p + [r]) == p;
    DistZero(p, p);
    DistSymmetric(p, p + [r]);
  }

  lemma SubstituteLast(p: seq<Rune>, x: Rune, y: Rune)
    ensures Dist(p + [x], p + [y]) <= 1
  {
    assert Init(p + [x]) == p && Init(p + [y]) == p;
    DistZero(p, p);
  }

  lemma OneInsert(p: seq<Rune>, r: Rune, z: seq<Rune>)
    ensures Dist(p + z, p + [r] + z) <= 1 && Dist(p + [r] + z, p + z) <= 1
  {
    AppendOne(p, r);
    CommonSuffix(p, p + [r], z);
    CommonSuffix(p + [r], p, z);
  }

  lemma OneSubstitute(p: seq<Rune>, x: Rune, y: Rune, z: seq<Rune>)
    ensures Dist(p + [x] + z, p + [y] + z) <= 1
  {
    SubstituteLast(p, x, y);
    CommonSuffix(p + [x], p + [y], z);
  }

  lemma OneEdit(s: seq<Rune>, e: Edit)
    requires Applies(e, s)
    ensures Dist(s, Perform(e, s)) <= 1
  {
    match e
    case Insert(at, r) =>
      assert s == s[..at] + s[at..];
      OneInsert(s[..at], r, s[at..]);
    case Delete(at) =>
      assert s == s[..at] + [s[at]] + s[at + 1..];
      OneInsert(s[..at], s[at], s[at + 1..]);
    case Substitute(at, r) =>
      assert s == s[..at] + [s[at]] + s[at + 1..];
      OneSubstitute(s[..at], s[at], r, s[at + 1..]);
  }

  /** No script is shorter than the distance. */
  lemma {:induction false} NoShorterScript(a: seq<Rune>, es: seq<Edit>, b: seq<Rune>)
    requires Turns(a, es, b)
    ensures Dist(a, b) <= |es|
    decreases |es|
  {
    if es == [] {
      DistZero(a, b);
    } else {
      var s := Perform(es[0], a);
      OneEdit(a, es[0]);
      NoShorterScript(s, es[1..], b);
      DistTriangle(a, s, b);
    }
  }

  lemma {:induction false} Then(s: seq<Rune>, es: seq<Edit>, t: seq<Rune>, e: Edit)
    requires Turns(s, es, t) && Applies(e, t)
    ensures Turns(s, es + [e], Perform(e, t))
    decreases |es|
  {
    if es != [] {
      Then(Perform(es[0], s), es[1..], t, e);
      assert (es + [e])[1..] == es[1..] + [e];
    }
  }

  /** A script does not notice a rune standing behind the string it works on. */
  lemma {:induction false} Frame(s: seq<Rune>, es: seq<Edit>, t: seq<Rune>, x: Rune)
    requires Turns(s, es, t)
    ensures Turns(s + [x], es, t + [x])
    decreases |es|
  {
    if es != [] {
      assert Perform(es[0], s + [x]) == Perform(es[0], s) + [x];
      Frame(Perform(es[0], s), es[1..], t, x);
    }
  }

  lemma DropLastFirst(a: seq<Rune>, rest: seq<Edit>, b: seq<Rune>)
    requires a != [] && Turns(Init(a), rest, b)
    ensures Turns(a, [Delete(|a| - 1)] + rest, b)
  {
    assert Perform(Delete(|a| - 1), a) == Init(a);
    assert ([Delete(|a| - 1)] + rest)[1..] == rest;
  }

  lemma PushLast(a: seq<Rune>, rest: seq<Edit>, b: seq<Rune>)
    requires b != [] && Turns(a, rest, Init(b))
    ensures Turns(a, rest + [Insert(|b| - 1, Last(b))], b)
  {
    Then(a, rest, Init(b), Insert(|b| - 1, Last(b)));
    assert Perform(Insert(|b| - 1, Last(b)), Init(b)) == b;
  }

  lemma SubstituteAtEnd(p: seq<Rune>, x: Rune, y: Rune)
    ensures Perform(Substitute(|p|, y), p + [x]) == p + [y]
  {
  }

  lemma {:induction false} KeepOrSubstitute(a: seq<Rune>, rest: seq<Edit>, b: seq<Rune>, x: Rune, y: Rune) returns (es: seq<Edit>)
    requires Turns(a, rest, b)
    ensures Turns(a + [x], es, b + [y]) && |es| == |rest| + Cost(x, y)
  {
    Frame(a, rest, b, x);
    es := rest;
    if x != y {
      SubstituteAtEnd(b, x, y);
      Then(a + [x], rest, b + [x], Substitute(|b|, y));
      es := rest + [Substitute(|b|, y)];
    }
  }

  lemma {:induction false} MatchLast(a: seq<Rune>, rest: seq<Edit>, b: seq<Rune>) returns (es: seq<Edit>)
    requires a != [] && b != [] && Turns(Init(a), rest, Init(b))
    ensures Turns(a, es, b) && |es| == |rest| + Cost(Last(a), Last(b))
  {
    es := KeepOrSubstitute(Init(a), rest, Init(b), Last(a), Last(b));
    InitLast(a);
    InitLast(b);
  }

  /** Some script is as short as the distance. */
  lemma {:induction false} OptimalScript(a: seq<Rune>, b: seq<Rune>) returns (es: seq<Edit>)
    ensures Turns(a, es, b) && |es| == Dist(a, b)
    decreases |a| + |b|
  {
    if a == [] && b == [] {
      es := [];
    } else if b == [] || (a != [] && Dist(a, b) == Dist(Init(a), b) + 1) {
      var rest := OptimalScript(Init(a), b);
      DropLastFirst(a, rest, b);
      es := [Delete(|a| - 1)] + rest;
    } else if a == [] || Dist(a, b) == Dist(a, Init(b)) + 1 {
      var rest := OptimalScript(a, Init(b));
      PushLast(a, rest, b);
      es := rest + [Insert(|b| - 1, Last(b))];
    } else {
      var rest := OptimalScript(Init(a), Init(b));
      es := MatchLast(a, rest, b);
    }
  }
}
