/**
 * `generateHash` (index.js:89-101): the four-character fragment-group tag a
 * long message's fragments share. A rolling hash over the UTF-16 code units
 * of the message id, kept to 32 bits by `>>> 0` after every step, is read
 * six bits at a time into four symbols of a 62-character alphabet.
 */
module FragmentHash {
  import opened JsString
  import Base64

  const Modulus: nat := 0x1_0000_0000

  /** The hash after folding in every code unit of `s`, as the first loop of
      `generateHash` computes it: `h := (h * 15 + c) >>> 0`. In JavaScript
      `h * 15 + c` stays below 2^53, so the double arithmetic is exact and
      `>>> 0` is reduction modulo 2^32. */
  function Fold(s: Str): (h: nat)
    ensures h < Modulus
  {
    if s == [] then 0 else (Fold(s[..|s| - 1]) * 15 + s[|s| - 1]) % Modulus
  }

  /** The same rolling hash without any reduction: the polynomial
      s[0]*15^(n-1) + ... + s[n-1]. */
  function Polynomial(s: Str): nat {
    if s == [] then 0 else Polynomial(s[..|s| - 1]) * 15 + s[|s| - 1]
  }

  lemma ModStep(a: nat, c: nat)
    ensures ((a % Modulus) * 15 + c) % Modulus == (a * 15 + c) % Modulus
  {
    var q, r := a / Modulus, a % Modulus;
    assert a * 15 + c == (q * 15) * Modulus + (r * 15 + c);
    ModMultiple(q * 15, r * 15 + c);
  }

  lemma ModMultiple(k: nat, x: nat)
    ensures (k * Modulus + x) % Modulus == x % Modulus
  {
  }

  /** Reducing after every step, as `>>> 0` does, gives the unbounded
      polynomial hash reduced once modulo 2^32. */
  lemma {:induction false} FoldIsPolynomial(s: Str)
    ensures Fold(s) == Polynomial(s) % Modulus
  {
    if s != [] {
      var init := s[..|s| - 1];
      FoldIsPolynomial(init);
      ModStep(Polynomial(init), s[|s| - 1]);
    }
  }

  /** 2^(6i), the divisor that `>>> (i * 6)` stands for. */
  function Shift6(i: nat): (p: nat)
    ensures p >= 1
  {
    if i == 0 then 1 else 64 * Shift6(i - 1)
  }

  /** Symbol i of the tag: `charset[((h >>> 6i) & 0x3F) % 62]`. */
  function TagSymbol(h: nat, i: nat): CodeUnit {
    Base64.Symbol(((h / Shift6(i)) % 64) % 62)
  }

  /** The tag of a message id: four letters or digits, symbol i taken from
      bits 6i to 6i+5 of the 32-bit hash. */
  function Tag(id: Str): (r: Str)
    ensures |r| == 4
    ensures forall i :: 0 <= i < 4 ==> Base64.IsAlphanumeric(r[i]) && r[i] == TagSymbol(Fold(id), i)
  {
    var h := Fold(id);
    var r := [TagSymbol(h, 0), TagSymbol(h, 1), TagSymbol(h, 2), TagSymbol(h, 3)];
    forall i | 0 <= i < 4 ensures Base64.IsAlphanumeric(r[i]) {
      Base64.SymbolValueOfSymbol(((h / Shift6(i)) % 64) % 62);
    }
    r
  }

  /** `generateHash(str)`. */
  method GenerateHash(str: Str) returns (result: Str)
    ensures result == Tag(str)
  {
    var hash: nat := 0;
    for i := 0 to |str|
      invariant hash == Fold(str[..i])
    {
      assert str[..i + 1][..i] == str[..i];
      hash := (hash * 15 + str[i]) % Modulus;
    }
    assert str[..|str|] == str;
    result := [];
    for i := 0 to 4
      invariant |result| == i
      invariant forall k :: 0 <= k < i ==> result[k] == TagSymbol(hash, k)
    {
      var index := (hash / Shift6(i)) % 64;
      result := result + [Base64.Symbol(index % 62)];
    }
  }
}
