/** A value that may be missing: a SQL NULL, a nil pointer or slice, the absence of an error. */
module Options {
  datatype Option<T> = None | Some(value: T)
}

/** Sequence helpers that more than one component needs. */
module Sequences {

  function Init<T>(s: seq<T>): seq<T>
    requires s != []
  {
    s[..|s| - 1]
  }

  function Last<T>(s: seq<T>): T
    requires s != []
  {
    s[|s| - 1]
  }

  lemma InitLast<T>(s: seq<T>)
    requires s != []
    ensures Init(s) + [Last(s)] == s
  {
  }

  ghost predicate BackToFront<T>(back: seq<T>, front: seq<T>) {
    |back| == |front| && forall k :: 0 <= k < |back| ==> back[k] == front[|front| - 1 - k]
  }

  ghost function Flipped<T>(s: seq<T>): (t: seq<T>)
    ensures BackToFront(s, t)
  {
    seq(|s|, k requires 0 <= k < |s| => s[|s| - 1 - k])
  }

  /** Between `l` and `r` still as in `back`, elsewhere already as in `front`. */
  ghost predicate HalfTurned<T>(s: seq<T>, back: seq<T>, front: seq<T>, l: int, r: int) {
    |s| == |back| == |front| && 0 <= l && r == |s| - 1 - l &&
    forall k :: 0 <= k < |s| ==> s[k] == if l <= k <= r then back[k] else front[k]
  }

  lemma Swap<T>(s: seq<T>, back: seq<T>, front: seq<T>, l: int, r: int)
    requires BackToFront(back, front) && HalfTurned(s, back, front, l, r) && l < r
    ensures HalfTurned(s[l := s[r]][r := s[l]], back, front, l + 1, r - 1)
  {
    assert back[r] == front[l] && back[l] == front[r];
  }

  lemma AllTurned<T>(s: seq<T>, back: seq<T>, front: seq<T>, l: int, r: int)
    requires BackToFront(back, front) && HalfTurned(s, back, front, l, r) && r <= l <= r + 2
    ensures s == front
  {
    forall k | 0 <= k < |s| ensures s[k] == front[k] {
      assert l <= k <= r ==> k == |front| - 1 - k && back[k] == front[k];
    }
  }

  /** The loop with which slices that were built back to front are turned round. */
  method Reverse<T>(back: seq<T>) returns (s: seq<T>)
    ensures BackToFront(back, s) && s == Flipped(back)
  {
    s := back;
    ghost var front := Flipped(back);
    var l, r := 0, |s| - 1;
    while l < r
      invariant HalfTurned(s, back, front, l, r) && l <= r + 2
      decreases r - l
    {
      Swap(s, back, front, l, r);
      s := s[l := s[r]][r := s[l]];
      l, r := l + 1, r - 1;
    }
    AllTurned(s, back, front, l, r);
  }
}
