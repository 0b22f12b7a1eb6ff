/**
 * JavaScript strings as the relay sees them: sequences of UTF-16 code units.
 * `length`, `substring`, `startsWith`, `charCodeAt`, `trim`, `replace` with a
 * one-character pattern, `toLowerCase().includes(...)` and number-to-string
 * conversion are the string operations the relay's core uses.
 */
module JsString {

  /** One UTF-16 code unit, the value `charCodeAt` returns. */
  type CodeUnit = x: int | 0 <= x < 0x1_0000

  /** A JavaScript string value. */
  type Str = seq<CodeUnit>

  /** The double quote, which delimits names and bodies in log lines and
      is replaced in RCON commands. */
  const Quote: CodeUnit := '"' as int

  /** The code unit of a character of a Dafny literal. All literals of this
      model are ASCII; a character outside the Basic Multilingual Plane would
      need two code units and is mapped to U+FFFD instead. */
  function Unit(c: char): CodeUnit {
    if c as int < 0x1_0000 then c as int else 0xFFFD
  }

  /** The JavaScript string written by a Dafny literal. */
  function Units(s: string): Str {
    seq(|s|, i requires 0 <= i < |s| => Unit(s[i]))
  }

  /** The line terminators of ECMAScript: what `.` in a regular expression
      does not match. */
  predicate IsLineTerminator(c: CodeUnit) {
    c == 0x0A || c == 0x0D || c == 0x2028 || c == 0x2029
  }

  /** ECMAScript WhiteSpace and LineTerminator code units: what `trim()`
      removes and what `\s` in a regular expression matches. */
  predicate IsWhiteSpace(c: CodeUnit) {
    || c == 0x09 || c == 0x0B || c == 0x0C || c == 0x20 || c == 0xA0 || c == 0xFEFF
    || c == 0x1680 || (0x2000 <= c <= 0x200A) || c == 0x202F || c == 0x205F || c == 0x3000
    || IsLineTerminator(c)
  }

  predicate IsDigit(c: CodeUnit) {
    '0' as int <= c <= '9' as int
  }

  predicate AllDigits(s: Str) {
    forall i :: 0 <= i < |s| ==> IsDigit(s[i])
  }

  /** `s.startsWith(p)`. */
  predicate StartsWith(s: Str, p: Str) {
    |p| <= |s| && s[..|p|] == p
  }

  /** The Dafny literal `lit` occurs in s at p, code unit by code unit. */
  predicate TextAt(s: Str, p: nat, lit: string) {
    p + |lit| <= |s| && forall k {:trigger lit[k]} :: 0 <= k < |lit| ==> s[p + k] == Unit(lit[k])
  }

  /** `s.substring(a, b)`: both ends are clamped to [0, |s|] and swapped when
      the first exceeds the second. */
  function Substring(s: Str, a: int, b: int): (r: Str)
    ensures var lo := Clamp(if a <= b then a else b, |s|);
            var hi := Clamp(if a <= b then b else a, |s|);
            lo <= hi && r == s[lo..hi]
  {
    var x := Clamp(a, |s|);
    var y := Clamp(b, |s|);
    if x <= y then s[x..y] else s[y..x]
  }

  function Clamp(x: int, n: nat): (r: nat)
    ensures r <= n
  {
    if x < 0 then 0 else if x > n then n else x
  }

  /** The number of code units `trim()` strips from the front. */
  function LeadingSpace(s: Str): (k: nat)
    ensures k <= |s|
    ensures forall i :: 0 <= i < k ==> IsWhiteSpace(s[i])
    ensures k < |s| ==> !IsWhiteSpace(s[k])
  {
    if s == [] || !IsWhiteSpace(s[0]) then 0 else 1 + LeadingSpace(s[1..])
  }

  /** The number of code units `trim()` strips from the back. */
  function TrailingSpace(s: Str): (k: nat)
    ensures k <= |s|
    ensures forall i :: |s| - k <= i < |s| ==> IsWhiteSpace(s[i])
    ensures k < |s| ==> !IsWhiteSpace(s[|s| - 1 - k])
  {
    if s == [] || !IsWhiteSpace(s[|s| - 1]) then 0 else 1 + TrailingSpace(s[..|s| - 1])
  }

  /** `s.trim()`: the longest slice of `s` that neither starts nor ends with
      white space, obtained by removing only white space from both ends. */
  function Trim(s: Str): (r: Str)
    ensures exists i, j :: 0 <= i <= j <= |s| && r == s[i..j]
                           && (forall k :: 0 <= k < i ==> IsWhiteSpace(s[k]))
                           && (forall k :: j <= k < |s| ==> IsWhiteSpace(s[k]))
    ensures r != [] ==> !IsWhiteSpace(r[0]) && !IsWhiteSpace(r[|r| - 1])
  {
    var i := LeadingSpace(s);
    if i == |s| then s[i..i]
    else
      var t := TrailingSpace(s[i..]);
      s[i..|s| - t]
  }

  /** The index of the first occurrence of `c`, or `|s|` when there is none. */
  function IndexOf(s: Str, c: CodeUnit): (k: nat)
    ensures k <= |s|
    ensures c !in s[..k]
    ensures k < |s| ==> s[k] == c
  {
    if s == [] then 0
    else if s[0] == c then 0
    else 1 + IndexOf(s[1..], c)
  }

  /** `s.replace(c, t)` with a one-character string pattern: only the FIRST
      occurrence of `c` is replaced. */
  function ReplaceFirst(s: Str, c: CodeUnit, t: Str): (r: Str)
    ensures c !in s ==> r == s
    ensures c in s ==> exists k :: 0 <= k < |s| && s[k] == c && c !in s[..k]
                                   && r == s[..k] + t + s[k + 1..]
  {
    var k := IndexOf(s, c);
    if k == |s| then s else s[..k] + t + s[k + 1..]
  }

  /** ASCII upper case to lower case; the only letters of "error" that
      `toLowerCase` can produce come from ASCII letters. */
  function LowerAscii(c: CodeUnit): CodeUnit {
    if 'A' as int <= c <= 'Z' as int then c + 32 else c
  }

  predicate ErrorWordAt(s: Str, i: nat)
    requires i + 5 <= |s|
  {
    forall j :: 0 <= j < 5 ==> LowerAscii(s[i + j]) == Unit("error"[j])
  }

  /** `s.length > 0 && s.toLowerCase().includes('error')`: how the relay
      decides that an RCON result reports a failure. */
  predicate LooksLikeError(s: Str) {
    |s| > 0 && exists i :: 0 <= i && i + 5 <= |s| && ErrorWordAt(s, i)
  }

  /** Decimal digits of a natural number, as `String(n)` and template
      strings render it. */
  function Decimal(n: nat): (r: Str)
    ensures 1 <= |r|
    ensures AllDigits(r)
    ensures |r| > 1 ==> r[0] != '0' as int
  {
    if n < 10 then [Unit('0') + n] else Decimal(n / 10) + [Unit('0') + n % 10]
  }

  /** The value of a string of decimal digits, as `parseInt` reads it. */
  function DigitsValue(s: Str): nat
    requires AllDigits(s)
  {
    if s == [] then 0 else DigitsValue(s[..|s| - 1]) * 10 + (s[|s| - 1] - '0' as int)
  }

  /** Reading back the digits of `n` gives `n`. */
  lemma {:induction false} DecimalRoundTrip(n: nat)
    ensures DigitsValue(Decimal(n)) == n
  {
    if n >= 10 {
      var d := Decimal(n);
      assert d[..|d| - 1] == Decimal(n / 10);
      DecimalRoundTrip(n / 10);
    }
  }

  /** `Decimal` is one-to-one: two numbers render alike only if equal. */
  lemma DecimalInjective(m: nat, n: nat)
    requires Decimal(m) == Decimal(n)
    ensures m == n
  {
    DecimalRoundTrip(m);
    DecimalRoundTrip(n);
  }
}
