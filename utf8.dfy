/**
 * The first half of `utf8ToBase64` (index.js:82-83): `new TextEncoder().encode(str)`
 * turns a JavaScript string into UTF-8 bytes. The string is first read as
 * Unicode scalar values (a surrogate pair gives one value, a lone surrogate
 * gives U+FFFD), then each value is written in UTF-8 as section 3 of
 * RFC 3629 lays it out. A decoder for both steps closes the round trip.
 */
module Utf8 {
  import opened Wrappers
  import opened JsString

  type Byte = x: int | 0 <= x < 0x100

  predicate IsScalar(cp: int) {
    0 <= cp <= 0x10FFFF && !(0xD800 <= cp <= 0xDFFF)
  }

  /** A Unicode scalar value: a code point that is not a surrogate. */
  type Scalar = cp: int | 0 <= cp <= 0x10FFFF && !(0xD800 <= cp <= 0xDFFF)

  predicate IsHighSurrogate(c: CodeUnit) { 0xD800 <= c <= 0xDBFF }
  predicate IsLowSurrogate(c: CodeUnit) { 0xDC00 <= c <= 0xDFFF }

  const Replacement: Scalar := 0xFFFD

  /** The scalar values the encoder reads from a JavaScript string. */
  function Scalars(s: Str): seq<Scalar>
  {
    if s == [] then []
    else if |s| >= 2 && IsHighSurrogate(s[0]) && IsLowSurrogate(s[1]) then
      [0x10000 + (s[0] - 0xD800) * 0x400 + (s[1] - 0xDC00)] + Scalars(s[2..])
    else if IsHighSurrogate(s[0]) || IsLowSurrogate(s[0]) then
      [Replacement] + Scalars(s[1..])
    else
      [s[0]] + Scalars(s[1..])
  }

  /** A string with no lone surrogate: every high surrogate is followed by a
      low one and every low surrogate follows a high one. */
  predicate WellFormed(s: Str) {
    if s == [] then true
    else if |s| >= 2 && IsHighSurrogate(s[0]) && IsLowSurrogate(s[1]) then WellFormed(s[2..])
    else !IsHighSurrogate(s[0]) && !IsLowSurrogate(s[0]) && WellFormed(s[1..])
  }

  /** UTF-16 code units of one scalar value. */
  function ScalarToUnits(cp: Scalar): (r: Str)
    ensures 1 <= |r| <= 2
  {
    if cp < 0x10000 then [cp]
    else [0xD800 + (cp - 0x10000) / 0x400, 0xDC00 + (cp - 0x10000) % 0x400]
  }

  /** The JavaScript string holding the given scalar values. */
  function ToUnits(cps: seq<Scalar>): Str {
    if cps == [] then [] else ScalarToUnits(cps[0]) + ToUnits(cps[1..])
  }

  /** Reading a well-formed string as scalar values loses nothing. */
  lemma {:induction false} ScalarsRoundTrip(s: Str)
    requires WellFormed(s)
    ensures ToUnits(Scalars(s)) == s
  {
    if s == [] {
    } else if |s| >= 2 && IsHighSurrogate(s[0]) && IsLowSurrogate(s[1]) {
      ScalarsRoundTrip(s[2..]);
      assert s == s[..2] + s[2..];
    } else {
      ScalarsRoundTrip(s[1..]);
      assert s == s[..1] + s[1..];
    }
  }

  /** A well-formed prefix is read on its own: no surrogate pair straddles
      its end. */
  lemma {:induction false} ScalarsAppend(p: Str, q: Str)
    requires WellFormed(p)
    ensures Scalars(p + q) == Scalars(p) + Scalars(q)
  {
    if p == [] {
      assert p + q == q;
    } else if |p| >= 2 && IsHighSurrogate(p[0]) && IsLowSurrogate(p[1]) {
      ScalarsAppend(p[2..], q);
      PairStep(p, q);
    } else {
      ScalarsAppend(p[1..], q);
      SingleStep(p, q);
    }
  }

  lemma ScalarsHead(s: Str)
    requires s != [] && !IsHighSurrogate(s[0])
    ensures Scalars(s) == [if IsLowSurrogate(s[0]) then Replacement else s[0]] + Scalars(s[1..])
  {
  }

  lemma ScalarsPair(s: Str)
    requires |s| >= 2 && IsHighSurrogate(s[0]) && IsLowSurrogate(s[1])
    ensures Scalars(s) == [0x10000 + (s[0] as int - 0xD800) * 0x400 + (s[1] as int - 0xDC00)] + Scalars(s[2..])
  {
  }

  lemma ConcatAssoc<T>(x: seq<T>, y: seq<T>, z: seq<T>)
    ensures x + (y + z) == (x + y) + z
  {
  }

  lemma PairStep(p: Str, q: Str)
    requires |p| >= 2 && IsHighSurrogate(p[0]) && IsLowSurrogate(p[1])
    requires Scalars(p[2..] + q) == Scalars(p[2..]) + Scalars(q)
    ensures Scalars(p + q) == Scalars(p) + Scalars(q)
  {
    var pq := p + q;
    assert pq[2..] == p[2..] + q;
    ScalarsPair(p);
    ScalarsPair(pq);
    var h: seq<Scalar> := [0x10000 + (p[0] as int - 0xD800) * 0x400 + (p[1] as int - 0xDC00)];
    var a, b := Scalars(p[2..]), Scalars(q);
    calc {
      Scalars(pq);
      h + Scalars(pq[2..]);
      h + (a + b);
      { ConcatAssoc(h, a, b); }
      (h + a) + b;
    }
  }

  lemma SingleStep(p: Str, q: Str)
    requires p != [] && !IsHighSurrogate(p[0])
    requires Scalars(p[1..] + q) == Scalars(p[1..]) + Scalars(q)
    ensures Scalars(p + q) == Scalars(p) + Scalars(q)
  {
    var pq := p + q;
    assert pq[0] == p[0];
    assert pq[1..] == p[1..] + q;
    ScalarsHead(p);
    ScalarsHead(pq);
    var h: seq<Scalar> := [if IsLowSurrogate(p[0]) then Replacement else p[0]];
    var a, b := Scalars(p[1..]), Scalars(q);
    calc {
      Scalars(pq);
      h + Scalars(pq[1..]);
      h + (a + b);
      { ConcatAssoc(h, a, b); }
      (h + a) + b;
    }
  }

  /** A lone surrogate is never passed on: wherever it stands after a
      well-formed prefix, a low surrogate, or a high surrogate that no low
      surrogate follows, is read as U+FFFD and the rest is read on its own. */
  lemma LoneSurrogateReplaced(p: Str, c: CodeUnit, q: Str)
    requires WellFormed(p)
    requires IsLowSurrogate(c) || (IsHighSurrogate(c) && (q == [] || !IsLowSurrogate(q[0])))
    ensures Scalars(p + [c] + q) == Scalars(p) + [Replacement] + Scalars(q)
  {
    ScalarsAppend(p, [c] + q);
    ScalarsLone(c, q);
    var r: seq<Scalar> := [Replacement];
    calc {
      Scalars(p + [c] + q);
      { assert p + [c] + q == p + ([c] + q); }
      Scalars(p + ([c] + q));
      Scalars(p) + (r + Scalars(q));
      { ConcatAssoc(Scalars(p), r, Scalars(q)); }
      Scalars(p) + r + Scalars(q);
    }
  }

  lemma ScalarsLone(c: CodeUnit, q: Str)
    requires IsLowSurrogate(c) || (IsHighSurrogate(c) && (q == [] || !IsLowSurrogate(q[0])))
    ensures Scalars([c] + q) == [Replacement] + Scalars(q)
  {
    var x := [c] + q;
    assert x[0] == c && x[1..] == q;
    assert |x| >= 2 ==> x[1] == q[0];
  }

  /** A high surrogate cut off from its pair at the end of a string is
      written as the three bytes of U+FFFD. */
  lemma TrailingHighSurrogate(p: Str, h: CodeUnit)
    requires WellFormed(p) && IsHighSurrogate(h)
    ensures Encode(p + [h]) == Encode(p) + [0xEF, 0xBF, 0xBD]
  {
    LoneSurrogateReplaced(p, h, []);
    assert p + [h] + [] == p + [h];
    var r: seq<Scalar> := [Replacement];
    calc {
      Encode(p + [h]);
      EncodeScalars(Scalars(p) + r + Scalars([]));
      { assert Scalars(p) + r + Scalars([]) == Scalars(p) + r; }
      EncodeScalars(Scalars(p) + r);
      { EncodeScalarsAppend(Scalars(p), r); }
      Encode(p) + EncodeScalars(r);
      { EncodeReplacement(); }
      Encode(p) + [0xEF, 0xBF, 0xBD];
    }
  }

  lemma EncodeReplacement()
    ensures EncodeScalars([Replacement]) == [0xEF, 0xBF, 0xBD]
  {
    assert EncodeScalar(Replacement) == [0xEF, 0xBF, 0xBD];
    assert [Replacement][1..] == [];
  }

  /** UTF-8 bytes of one scalar value (RFC 3629, section 3). */
  function EncodeScalar(cp: Scalar): (r: seq<Byte>)
    ensures 1 <= |r| <= 4
  {
    if cp < 0x80 then [cp]
    else if cp < 0x800 then [0xC0 + cp / 0x40, 0x80 + cp % 0x40]
    else if cp < 0x1_0000 then [0xE0 + cp / 0x1000, 0x80 + (cp / 0x40) % 0x40, 0x80 + cp % 0x40]
    else [0xF0 + cp / 0x4_0000, 0x80 + (cp / 0x1000) % 0x40, 0x80 + (cp / 0x40) % 0x40, 0x80 + cp % 0x40]
  }

  function EncodeScalars(cps: seq<Scalar>): seq<Byte> {
    if cps == [] then [] else EncodeScalar(cps[0]) + EncodeScalars(cps[1..])
  }

  lemma {:induction false} EncodeScalarsAppend(a: seq<Scalar>, b: seq<Scalar>)
    ensures EncodeScalars(a + b) == EncodeScalars(a) + EncodeScalars(b)
  {
    if a == [] {
      assert a + b == b;
    } else {
      EncodeScalarsAppend(a[1..], b);
      var ab := a + b;
      assert ab[0] == a[0] && ab[1..] == a[1..] + b;
      var h, x, y := EncodeScalar(a[0]), EncodeScalars(a[1..]), EncodeScalars(b);
      calc {
        EncodeScalars(ab);
        h + EncodeScalars(ab[1..]);
        h + (x + y);
        { ConcatAssoc(h, x, y); }
        (h + x) + y;
      }
    }
  }

  /** `new TextEncoder().encode(s)`. */
  function Encode(s: Str): seq<Byte> {
    EncodeScalars(Scalars(s))
  }

  predicate IsContinuation(b: Byte) { 0x80 <= b < 0xC0 }

  /** The number of bytes of the sequence a lead byte starts, or 0 for a
      byte that cannot start one. */
  function SequenceLength(b: Byte): nat {
    if b < 0x80 then 1
    else if 0xC2 <= b < 0xE0 then 2
    else if 0xE0 <= b < 0xF0 then 3
    else if 0xF0 <= b < 0xF5 then 4
    else 0
  }

  /** The scalar value of the first UTF-8 sequence of `b`, with its length;
      None for a malformed, overlong or surrogate sequence. */
  function DecodeFirst(b: seq<Byte>): (r: Option<(Scalar, nat)>)
    ensures r.Some? ==> 1 <= r.value.1 <= |b|
  {
    if b == [] then None
    else
      var n := SequenceLength(b[0]);
      if n == 0 || |b| < n then None
      else if n == 1 then Some((b[0], 1))
      else if !(forall i :: 1 <= i < n ==> IsContinuation(b[i])) then None
      else
        var cp: int :=
          if n == 2 then (b[0] as int - 0xC0) * 0x40 + (b[1] as int - 0x80)
          else if n == 3 then (b[0] as int - 0xE0) * 0x1000 + (b[1] as int - 0x80) * 0x40 + (b[2] as int - 0x80)
          else (b[0] as int - 0xF0) * 0x4_0000 + (b[1] as int - 0x80) * 0x1000 + (b[2] as int - 0x80) * 0x40 + (b[3] as int - 0x80);
        var least: int := if n == 2 then 0x80 else if n == 3 then 0x800 else 0x1_0000;
        if least <= cp && IsScalar(cp) then Some((cp, n)) else None
  }

  /** Decoding UTF-8: None when the bytes are not valid UTF-8. */
  function Decode(b: seq<Byte>): Option<seq<Scalar>>
    decreases |b|
  {
    if b == [] then Some([])
    else match DecodeFirst(b)
      case None => None
      case Some((cp, n)) =>
        match Decode(b[n..])
        case None => None
        case Some(rest) => Some([cp] + rest)
  }

  /** The encoding of one value is read back as that value, whatever follows. */
  lemma DecodeFirstEncodeScalar(cp: Scalar, tail: seq<Byte>)
    ensures DecodeFirst(EncodeScalar(cp) + tail) == Some((cp, |EncodeScalar(cp)|))
  {
    if cp < 0x80 {
    } else if cp < 0x800 {
      DecodeTwo(cp, tail);
    } else if cp < 0x1_0000 {
      DecodeThree(cp, tail);
    } else {
      DecodeFour(cp, tail);
    }
  }

  lemma DecodeTwo(cp: Scalar, tail: seq<Byte>)
    requires 0x80 <= cp < 0x800
    ensures DecodeFirst(EncodeScalar(cp) + tail) == Some((cp, 2))
  {
    var b := EncodeScalar(cp) + tail;
    var b0, b1 := cp / 0x40, cp % 0x40;
    assert b[0] == 0xC0 + b0 && b[1] == 0x80 + b1;
    assert b0 * 0x40 + b1 == cp;
  }

  lemma DecodeThree(cp: Scalar, tail: seq<Byte>)
    requires 0x800 <= cp < 0x1_0000
    ensures DecodeFirst(EncodeScalar(cp) + tail) == Some((cp, 3))
  {
    var b := EncodeScalar(cp) + tail;
    var q := cp / 0x40;
    var b0, b1, b2 := q / 0x40, q % 0x40, cp % 0x40;
    assert cp / 0x1000 == b0;
    assert b[0] == 0xE0 + b0 && b[1] == 0x80 + b1 && b[2] == 0x80 + b2;
    assert q == b0 * 0x40 + b1;
    assert cp == q * 0x40 + b2;
    assert b0 * 0x1000 + b1 * 0x40 + b2 == cp;
  }

  lemma DecodeFour(cp: Scalar, tail: seq<Byte>)
    requires 0x1_0000 <= cp
    ensures DecodeFirst(EncodeScalar(cp) + tail) == Some((cp, 4))
  {
    var b := EncodeScalar(cp) + tail;
    var q := cp / 0x40;
    var r := q / 0x40;
    var b0, b1, b2, b3 := r / 0x40, r % 0x40, q % 0x40, cp % 0x40;
    assert cp / 0x1000 == r;
    assert cp / 0x4_0000 == b0;
    assert b[0] == 0xF0 + b0 && b[1] == 0x80 + b1 && b[2] == 0x80 + b2 && b[3] == 0x80 + b3;
    assert r == b0 * 0x40 + b1;
    assert q == r * 0x40 + b2;
    assert cp == q * 0x40 + b3;
    assert b0 * 0x4_0000 + b1 * 0x1000 + b2 * 0x40 + b3 == cp;
  }

  /** UTF-8 decoding undoes UTF-8 encoding. */
  lemma {:induction false} DecodeEncode(cps: seq<Scalar>)
    ensures Decode(EncodeScalars(cps)) == Some(cps)
  {
    if cps != [] {
      var e := EncodeScalar(cps[0]);
      var b := EncodeScalars(cps);
      DecodeFirstEncodeScalar(cps[0], EncodeScalars(cps[1..]));
      assert b[|e|..] == EncodeScalars(cps[1..]);
      DecodeEncode(cps[1..]);
      assert cps == [cps[0]] + cps[1..];
    }
  }

  /** What `TextEncoder` produces is read back, by a UTF-8 decoder and a
      UTF-16 re-encoder, as exactly the original well-formed string. */
  lemma EncodeRoundTrip(s: Str)
    requires WellFormed(s)
    ensures Decode(Encode(s)).Some? && ToUnits(Decode(Encode(s)).value) == s
  {
    DecodeEncode(Scalars(s));
    ScalarsRoundTrip(s);
  }

  /** ASCII text is encoded one byte per code unit, unchanged. */
  lemma {:induction false} EncodeAscii(s: Str)
    requires forall i :: 0 <= i < |s| ==> s[i] < 0x80
    ensures Encode(s) == s
  {
    if s != [] {
      EncodeAscii(s[1..]);
      assert s == [s[0]] + s[1..];
    }
  }
}
