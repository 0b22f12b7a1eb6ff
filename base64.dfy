/**
 * `utf8ToBase64` (index.js:82-86): the UTF-8 bytes of a string, passed one
 * byte per character to `btoa`, which writes them in the base64 encoding of
 * section 4 of RFC 4648 (alphabet A-Z, a-z, 0-9, '+', '/', with '=' padding).
 * The relay sends author names and message bodies this way.
 */
module Base64 {
  import opened Wrappers
  import opened JsString
  import Utf8

  type Byte = Utf8.Byte

  /** A six-bit value, the index of one base64 symbol. */
  type Sextet = x: int | 0 <= x < 64

  const Pad: CodeUnit := '=' as int

  /** The symbol of a six-bit value in the base64 alphabet. The first 62
      symbols are also the charset of the fragment-group tag. */
  function Symbol(v: Sextet): CodeUnit {
    if v < 26 then 'A' as int + v
    else if v < 52 then 'a' as int + (v - 26)
    else if v < 62 then '0' as int + (v - 52)
    else if v == 62 then '+' as int
    else '/' as int
  }

  /** The value of a base64 symbol; None for any other code unit. */
  function SymbolValue(c: CodeUnit): Option<Sextet> {
    if 'A' as int <= c <= 'Z' as int then Some(c - 'A' as int)
    else if 'a' as int <= c <= 'z' as int then Some(c - 'a' as int + 26)
    else if '0' as int <= c <= '9' as int then Some(c - '0' as int + 52)
    else if c == '+' as int then Some(62)
    else if c == '/' as int then Some(63)
    else None
  }

  predicate IsAlphanumeric(c: CodeUnit) {
    ('A' as int <= c <= 'Z' as int) || ('a' as int <= c <= 'z' as int) || ('0' as int <= c <= '9' as int)
  }

  /** Every symbol is read back as its value; the first 62 are letters and
      digits. */
  lemma SymbolValueOfSymbol(v: Sextet)
    ensures SymbolValue(Symbol(v)) == Some(v)
    ensures v < 62 <==> IsAlphanumeric(Symbol(v))
  {
  }

  /** A character base64 output may contain: a symbol or the padding. */
  predicate IsBase64Char(c: CodeUnit) {
    SymbolValue(c).Some? || c == Pad
  }

  /** Four symbols for three bytes. */
  function EncodeGroup(b0: Byte, b1: Byte, b2: Byte): Str {
    [Symbol(b0 / 4), Symbol((b0 % 4) * 16 + b1 / 16), Symbol((b1 % 16) * 4 + b2 / 64), Symbol(b2 % 64)]
  }

  /** `btoa` of the given bytes: four characters for every three bytes, the
      last group padded with '='. */
  function Encode(b: seq<Byte>): (r: Str)
    ensures |r| == 4 * ((|b| + 2) / 3)
    decreases |b|
  {
    if |b| >= 3 then EncodeGroup(b[0], b[1], b[2]) + Encode(b[3..])
    else if |b| == 2 then [Symbol(b[0] / 4), Symbol((b[0] % 4) * 16 + b[1] / 16), Symbol((b[1] % 16) * 4), Pad]
    else if |b| == 1 then [Symbol(b[0] / 4), Symbol((b[0] % 4) * 16), Pad, Pad]
    else []
  }

  /** Every symbol is a base64 character other than the padding. */
  lemma SymbolsAreBase64()
    ensures forall v: Sextet :: IsBase64Char(Symbol(v)) && Symbol(v) != Pad
  {
    forall v: Sextet ensures IsBase64Char(Symbol(v)) && Symbol(v) != Pad {
      SymbolValueOfSymbol(v);
    }
  }

  /** `btoa` writes only base64 symbols, and '=' only in the last two
      positions. */
  lemma {:induction false} EncodeAlphabet(b: seq<Byte>)
    ensures var r := Encode(b);
            && (forall i :: 0 <= i < |r| ==> IsBase64Char(r[i]))
            && (forall i :: 0 <= i < |r| - 2 ==> r[i] != Pad)
    decreases |b|
  {
    SymbolsAreBase64();
    var r := Encode(b);
    if |b| >= 3 {
      EncodeAlphabet(b[3..]);
      assert r == EncodeGroup(b[0], b[1], b[2]) + Encode(b[3..]);
    } else if |b| == 2 {
      assert r == [Symbol(b[0] / 4), Symbol((b[0] % 4) * 16 + b[1] / 16), Symbol((b[1] % 16) * 4), Pad];
    } else if |b| == 1 {
      assert r == [Symbol(b[0] / 4), Symbol((b[0] % 4) * 16), Pad, Pad];
    }
  }

  /** Decodes one group of four characters; padding is accepted only in the
      final group. */
  function DecodeGroup(s: Str, final: bool): Option<seq<Byte>>
    requires |s| == 4
  {
    var v0, v1 := SymbolValue(s[0]), SymbolValue(s[1]);
    if v0.None? || v1.None? then None
    else if s[2] == Pad && s[3] == Pad then
      if final then Some([v0.value * 4 + v1.value / 16]) else None
    else
      var v2 := SymbolValue(s[2]);
      if v2.None? then None
      else if s[3] == Pad then
        if final then Some([v0.value * 4 + v1.value / 16, (v1.value % 16) * 16 + v2.value / 4]) else None
      else
        var v3 := SymbolValue(s[3]);
        if v3.None? then None
        else Some([v0.value * 4 + v1.value / 16, (v1.value % 16) * 16 + v2.value / 4, (v2.value % 4) * 64 + v3.value])
  }

  /** Base64 decoding; None when the text is not base64. */
  function Decode(s: Str): Option<seq<Byte>>
    decreases |s|
  {
    if s == [] then Some([])
    else if |s| < 4 then None
    else match DecodeGroup(s[..4], |s| == 4)
      case None => None
      case Some(g) =>
        match Decode(s[4..])
        case None => None
        case Some(rest) => Some(g + rest)
  }

  lemma DecodeEncodeGroup(b0: Byte, b1: Byte, b2: Byte, final: bool)
    ensures DecodeGroup(EncodeGroup(b0, b1, b2), final) == Some([b0, b1, b2])
  {
    var v0, v1, v2, v3 := b0 / 4, (b0 % 4) * 16 + b1 / 16, (b1 % 16) * 4 + b2 / 64, b2 % 64;
    SymbolValueOfSymbol(v0);
    SymbolValueOfSymbol(v1);
    SymbolValueOfSymbol(v2);
    SymbolValueOfSymbol(v3);
    assert v1 / 16 == b0 % 4 && v1 % 16 == b1 / 16;
    assert v2 / 4 == b1 % 16 && v2 % 4 == b2 / 64;
    assert v0 * 4 + v1 / 16 == b0;
    assert (v1 % 16) * 16 + v2 / 4 == b1;
    assert (v2 % 4) * 64 + v3 == b2;
  }

  /** Decoding a group followed by more text: the group, then the rest. */
  lemma DecodeCons(g: Str, rest: Str)
    requires |g| == 4
    ensures Decode(g + rest) ==
            match DecodeGroup(g, rest == [])
            case None => None
            case Some(x) => match Decode(rest) case None => None case Some(y) => Some(x + y)
  {
    assert (g + rest)[..4] == g && (g + rest)[4..] == rest;
  }

  /** A last group padded once decodes to its two bytes. */
  lemma DecodePaddedOnce(b0: Byte, b1: Byte)
    ensures Decode([Symbol(b0 / 4), Symbol((b0 % 4) * 16 + b1 / 16), Symbol((b1 % 16) * 4), Pad]) == Some([b0, b1])
  {
    var v1 := (b0 % 4) * 16 + b1 / 16;
    SymbolValueOfSymbol(b0 / 4);
    SymbolValueOfSymbol(v1);
    SymbolValueOfSymbol((b1 % 16) * 4);
    assert v1 / 16 == b0 % 4 && v1 % 16 == b1 / 16;
    DecodeCons([Symbol(b0 / 4), Symbol(v1), Symbol((b1 % 16) * 4), Pad], []);
    assert [Symbol(b0 / 4), Symbol(v1), Symbol((b1 % 16) * 4), Pad] + [] == [Symbol(b0 / 4), Symbol(v1), Symbol((b1 % 16) * 4), Pad];
    assert [b0, b1] + [] == [b0, b1];
  }

  /** A last group padded twice decodes to its one byte. */
  lemma DecodePaddedTwice(b0: Byte)
    ensures Decode([Symbol(b0 / 4), Symbol((b0 % 4) * 16), Pad, Pad]) == Some([b0])
  {
    SymbolValueOfSymbol(b0 / 4);
    SymbolValueOfSymbol((b0 % 4) * 16);
    DecodeCons([Symbol(b0 / 4), Symbol((b0 % 4) * 16), Pad, Pad], []);
    assert [Symbol(b0 / 4), Symbol((b0 % 4) * 16), Pad, Pad] + [] == [Symbol(b0 / 4), Symbol((b0 % 4) * 16), Pad, Pad];
    assert [b0] + [] == [b0];
  }

  /** One full group in front of text that decodes back. */
  lemma DecodeEncodeStep(b0: Byte, b1: Byte, b2: Byte, rest: seq<Byte>)
    requires Decode(Encode(rest)) == Some(rest)
    ensures Decode(EncodeGroup(b0, b1, b2) + Encode(rest)) == Some([b0, b1, b2] + rest)
  {
    DecodeEncodeGroup(b0, b1, b2, Encode(rest) == []);
    DecodeCons(EncodeGroup(b0, b1, b2), Encode(rest));
  }

  /** Decoding undoes `btoa`: the bytes come back exactly. */
  lemma {:induction false} DecodeEncode(b: seq<Byte>)
    ensures Decode(Encode(b)) == Some(b)
    decreases |b|
  {
    if |b| >= 3 {
      DecodeEncode(b[3..]);
      DecodeEncodeStep(b[0], b[1], b[2], b[3..]);
      assert Encode(b) == EncodeGroup(b[0], b[1], b[2]) + Encode(b[3..]);
      assert [b[0], b[1], b[2]] + b[3..] == b;
    } else if |b| == 2 {
      DecodePaddedOnce(b[0], b[1]);
      assert [b[0], b[1]] == b;
    } else if |b| == 1 {
      DecodePaddedTwice(b[0]);
      assert [b[0]] == b;
    }
  }

  /** `utf8ToBase64(str)`. */
  function Utf8ToBase64(s: Str): Str {
    Encode(Utf8.Encode(s))
  }

  /** The relay's text encoding: base64 characters only, four for every three
      UTF-8 bytes (rounded up), empty exactly for the empty string, and
      decoded back to the original string when it has no lone surrogate. */
  lemma Utf8ToBase64Facts(s: Str)
    ensures var r := Utf8ToBase64(s);
            && |r| == 4 * ((|Utf8.Encode(s)| + 2) / 3)
            && (forall i :: 0 <= i < |r| ==> IsBase64Char(r[i]))
            && (r == [] <==> s == [])
            && Decode(r) == Some(Utf8.Encode(s))
    ensures Utf8.WellFormed(s) ==>
              Utf8.Decode(Decode(Utf8ToBase64(s)).value).Some?
              && Utf8.ToUnits(Utf8.Decode(Decode(Utf8ToBase64(s)).value).value) == s
  {
    DecodeEncode(Utf8.Encode(s));
    EncodeAlphabet(Utf8.Encode(s));
    EncodeEmpty(s);
    if Utf8.WellFormed(s) {
      Utf8.EncodeRoundTrip(s);
    }
  }

  /** A string has no UTF-8 bytes only when it is empty. */
  lemma EncodeEmpty(s: Str)
    ensures Utf8.Encode(s) == [] <==> s == []
  {
    if s != [] {
      var cps := Utf8.Scalars(s);
      assert cps != [];
      assert |Utf8.EncodeScalars(cps)| >= |Utf8.EncodeScalar(cps[0])|;
    }
  }
}
