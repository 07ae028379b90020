/** Go strings as byte sequences, and the conversion `[]rune(s)`: UTF-8 decoding in which every byte that
    starts no valid encoding becomes the replacement rune U+FFFD on its own. */
module GoStrings {
  type Rune = int

  type Byte = x: int | 0 <= x < 256
  type GoString = seq<Byte>

  const RUNE_ERROR: Rune := 0xFFFD

  predicate Continues(s: GoString, at: nat) {
    at < |s| && 0x80 <= s[at] <= 0xBF
  }

  /** Bounds on the second byte that rule out overlong forms, surrogates and runes above U+10FFFF. */
  predicate SecondByteFits(b0: Byte, b1: Byte) {
    (b0 == 0xE0 ==> 0xA0 <= b1) && (b0 == 0xED ==> b1 <= 0x9F) &&
    (b0 == 0xF0 ==> 0x90 <= b1) && (b0 == 0xF4 ==> b1 <= 0x8F)
  }

  /** The six bits a continuation byte carries. */
  function Tail(b: Byte): int {
    b - 0x80
  }

  /** The bits a leading byte carries above its marker. */
  function Lead(b: Byte, marker: int): int {
    b - marker
  }

  /** The first rune of `s` and the number of bytes it takes. */
  function DecodeRune(s: GoString): (r: (Rune, nat))
    requires s != []
    ensures 1 <= r.1 <= |s|
  {
    var b0 := s[0];
    if b0 < 0x80 then (b0, 1)
    else if 0xC2 <= b0 <= 0xDF && Continues(s, 1) then (Lead(b0, 0xC0) * 64 + Tail(s[1]), 2)
    else if 0xE0 <= b0 <= 0xEF && Continues(s, 1) && SecondByteFits(b0, s[1]) && Continues(s, 2) then
      (Lead(b0, 0xE0) * 4096 + Tail(s[1]) * 64 + Tail(s[2]), 3)
    else if 0xF0 <= b0 <= 0xF4 && Continues(s, 1) && SecondByteFits(b0, s[1]) && Continues(s, 2) && Continues(s, 3) then
      (Lead(b0, 0xF0) * 262144 + Tail(s[1]) * 4096 + Tail(s[2]) * 64 + Tail(s[3]), 4)
    else (RUNE_ERROR, 1)
  }

  function Runes(s: GoString): (rs: seq<Rune>)
    ensures |rs| <= |s|
    ensures rs == [] <==> s == []
  {
    if s == [] then [] else [DecodeRune(s).0] + Runes(s[DecodeRune(s).1..])
  }

  // --- the encoding that Go writes for a list of valid runes --------------------------------

  predicate ValidRune(r: Rune) {
    0 <= r < 0xD800 || 0xE000 <= r <= 0x10FFFF
  }

  predicate ValidRunes(rs: seq<Rune>) {
    forall i :: 0 <= i < |rs| ==> ValidRune(rs[i])
  }

  function EncodeRune(r: Rune): GoString
    requires ValidRune(r)
  {
    if r < 0x80 then [r]
    else if r < 0x800 then [0xC0 + r / 64, 0x80 + r % 64]
    else if r < 0x10000 then [0xE0 + r / 4096, 0x80 + r / 64 % 64, 0x80 + r % 64]
    else [0xF0 + r / 262144, 0x80 + r / 4096 % 64, 0x80 + r / 64 % 64, 0x80 + r % 64]
  }

  function Encode(rs: seq<Rune>): GoString
    requires ValidRunes(rs)
  {
    if rs == [] then [] else EncodeRune(rs[0]) + Encode(rs[1..])
  }

  lemma DecodeEncodeRune(r: Rune, rest: GoString)
    requires ValidRune(r)
    ensures DecodeRune(EncodeRune(r) + rest) == (r, |EncodeRune(r)|)
  {
    assert r / 4096 == r / 64 / 64 && r / 262144 == r / 4096 / 64;
  }

  /** Decoding gives back every valid rune list, so distinct valid UTF-8 strings have distinct runes. */
  lemma {:induction false} RunesOfEncode(rs: seq<Rune>)
    requires ValidRunes(rs)
    ensures Runes(Encode(rs)) == rs
  {
    if rs != [] {
      DecodeEncodeRune(rs[0], Encode(rs[1..]));
      var e := EncodeRune(rs[0]);
      assert Encode(rs)[|e|..] == Encode(rs[1..]);
      RunesOfEncode(rs[1..]);
    }
  }

  // --- which strings their runes determine --------------------------------------------------

  ghost predicate IsUtf8(s: GoString) {
    exists rs :: ValidRunes(rs) && Encode(rs) == s
  }

  lemma Digits64(x: int, y: int)
    requires 0 <= y < 64
    ensures (x * 64 + y) / 64 == x && (x * 64 + y) % 64 == y
  {
  }

  lemma Encode3(r: Rune, a: int, b: int, c: int)
    requires r == a * 4096 + b * 64 + c && 0 <= a < 16 && 0 <= b < 64 && 0 <= c < 64
    requires (a == 0 ==> b >= 32) && (a == 13 ==> b < 32)
    ensures ValidRune(r) && EncodeRune(r) == [0xE0 + a, 0x80 + b, 0x80 + c]
  {
    Digits64(a * 64 + b, c);
    Digits64(a, b);
    assert r == (a * 64 + b) * 64 + c && r / 4096 == r / 64 / 64;
  }

  lemma Encode4(r: Rune, a: int, b: int, c: int, d: int)
    requires r == a * 262144 + b * 4096 + c * 64 + d && 0 <= a < 5 && 0 <= b < 64 && 0 <= c < 64 && 0 <= d < 64
    requires (a == 0 ==> b >= 16) && (a == 4 ==> b < 16)
    ensures ValidRune(r) && EncodeRune(r) == [0xF0 + a, 0x80 + b, 0x80 + c, 0x80 + d]
  {
    Digits64((a * 64 + b) * 64 + c, d);
    Digits64(a * 64 + b, c);
    Digits64(a, b);
    assert r == ((a * 64 + b) * 64 + c) * 64 + d && r / 4096 == r / 64 / 64 && r / 262144 == r / 4096 / 64;
  }

  /** Encoding gives back the bytes that were decoded. */
  lemma EncodeDecodeRune(s: GoString)
    requires s != [] && DecodeRune(s).0 != RUNE_ERROR
    ensures ValidRune(DecodeRune(s).0) && EncodeRune(DecodeRune(s).0) == s[..DecodeRune(s).1]
  {
    var (r, n) := DecodeRune(s);
    if n == 2 {
      Digits64(Lead(s[0], 0xC0), Tail(s[1]));
    } else if n == 3 {
      Encode3(r, Lead(s[0], 0xE0), Tail(s[1]), Tail(s[2]));
    } else if n == 4 {
      Encode4(r, Lead(s[0], 0xF0), Tail(s[1]), Tail(s[2]), Tail(s[3]));
    }
  }

  /** A valid encoding stands at the front of the string. */
  ghost predicate StartsWith(s: GoString, r: Rune) {
    ValidRune(r) && EncodeRune(r) <= s
  }

  /** Decoding takes the valid encoding at the front if there is one, and a single byte for U+FFFD otherwise. */
  lemma DecodeExactly(s: GoString)
    requires s != []
    ensures forall r :: StartsWith(s, r) ==> DecodeRune(s) == (r, |EncodeRune(r)|)
    ensures (forall r :: !StartsWith(s, r)) ==> DecodeRune(s) == (RUNE_ERROR, 1)
  {
    forall r | StartsWith(s, r) ensures DecodeRune(s) == (r, |EncodeRune(r)|) {
      var e := EncodeRune(r);
      assert s == e + s[|e|..];
      DecodeEncodeRune(r, s[|e|..]);
    }
    var (r, n) := DecodeRune(s);
    if r != RUNE_ERROR {
      EncodeDecodeRune(s);
      assert StartsWith(s, r);
    } else if n == 3 {
      Encode3(r, Lead(s[0], 0xE0), Tail(s[1]), Tail(s[2]));
      assert StartsWith(s, r);
    }
  }

  lemma RunesStep(e: GoString, rest: GoString)
    requires e != [] && DecodeRune(e + rest).1 == |e|
    ensures Runes(e + rest) == [DecodeRune(e + rest).0] + Runes(rest)
  {
    assert (e + rest)[|e|..] == rest;
  }

  /** The first rune and what follows it. */
  lemma FirstRune(s: GoString) returns (r: Rune, e: GoString, rest: GoString)
    requires s != []
    ensures s == e + rest && e != [] && (r, |e|) == DecodeRune(s) && Runes(s) == [r] + Runes(rest)
    ensures r != RUNE_ERROR ==> ValidRune(r) && EncodeRune(r) == e
  {
    var n := DecodeRune(s).1;
    r, e, rest := DecodeRune(s).0, s[..n], s[n..];
    if r != RUNE_ERROR {
      EncodeDecodeRune(s);
    }
  }

  /** A string whose runes include no replacement rune is the encoding of its runes. */
  lemma {:induction false} EncodeRunes(s: GoString)
    requires RUNE_ERROR !in Runes(s)
    ensures ValidRunes(Runes(s)) && Encode(Runes(s)) == s
    decreases |s|
  {
    if s != [] {
      var r, e, rest := FirstRune(s);
      EncodeRunes(rest);
      EncodeCons(r, Runes(rest));
    }
  }

  lemma EncodeCons(r: Rune, rs: seq<Rune>)
    requires ValidRune(r) && ValidRunes(rs)
    ensures ValidRunes([r] + rs) && Encode([r] + rs) == EncodeRune(r) + Encode(rs)
  {
    assert ([r] + rs)[1..] == rs;
  }

  lemma ReplacementDecodes(rest: GoString)
    ensures DecodeRune([0xEF, 0xBF, 0xBD] + rest) == (RUNE_ERROR, 3) && DecodeRune([0xFF] + rest) == (RUNE_ERROR, 1)
    ensures Runes([0xEF, 0xBF, 0xBD] + rest) == [RUNE_ERROR] + Runes(rest) == Runes([0xFF] + rest)
  {
    assert ([0xEF, 0xBF, 0xBD] + rest)[3..] == rest && ([0xFF] + rest)[1..] == rest;
  }

  /** Every string with a replacement rune among its runes has a different string with the same runes: a broken byte and
      the encoded replacement rune can stand for each other. */
  lemma {:induction false} Twin(s: GoString) returns (t: GoString)
    requires RUNE_ERROR in Runes(s)
    ensures t != s && Runes(t) == Runes(s)
    decreases |s|
  {
    var r, e, rest := FirstRune(s);
    ReplacementDecodes(rest);
    if r == RUNE_ERROR && |e| == 1 {
      t := [0xEF, 0xBF, 0xBD] + rest;
      assert |t| != |s|;
    } else if r == RUNE_ERROR {
      t := [0xFF] + rest;
      assert |t| != |s|;
    } else {
      var t' := Twin(rest);
      DecodeEncodeRune(r, t');
      RunesStep(e, t');
      t := e + t';
      assert t[|e|..] == t' && s[|e|..] == rest;
    }
  }

  /** The condition in terms of the runes. */
  lemma {:induction false} NoReplacementExactly(s: GoString)
    ensures RUNE_ERROR !in Runes(s) ==> IsUtf8(s)
    ensures IsUtf8(s) ==> ValidRunes(Runes(s)) && Encode(Runes(s)) == s
  {
    if RUNE_ERROR !in Runes(s) {
      EncodeRunes(s);
    }
    if IsUtf8(s) {
      var rs :| ValidRunes(rs) && Encode(rs) == s;
      RunesOfEncode(rs);
    }
  }

  // --- single-byte runes --------------------------------------------------------------------

  predicate AllAscii(s: GoString, n: nat)
    requires n <= |s|
  {
    forall k :: 0 <= k < n ==> s[k] < 0x80
  }

  /** As long as the bytes are ASCII, each is its own rune, whatever follows. */
  lemma {:induction false} AsciiRunes(a: GoString, rest: GoString)
    requires AllAscii(a, |a|)
    ensures Runes(a + rest) == a + Runes(rest)
    decreases |a|
  {
    if a == [] {
      assert a + rest == rest;
    } else {
      var a' := a[1..];
      AsciiRunes(a', rest);
      RunesStep([a[0]], a' + rest);
      assert [a[0]] + (a' + rest) == a + rest && [a[0]] + (a' + Runes(rest)) == a + Runes(rest);
    }
  }

  /** A string with as many runes as bytes, none of them a replacement, is all ASCII. */
  lemma {:induction false} ManyRunesAreAscii(s: GoString)
    requires RUNE_ERROR !in Runes(s) && |Runes(s)| == |s|
    ensures AllAscii(s, |s|)
  {
    if s != [] {
      var r, e, rest := FirstRune(s);
      ManyRunesAreAscii(rest);
      forall k | 0 <= k < |s| ensures s[k] < 0x80 {
        if k > 0 {
          assert s[k] == rest[k - 1];
        }
      }
    }
  }
}
