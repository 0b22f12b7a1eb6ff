/**
 * The classification body of the log handler (index.js:198-229): a server
 * log line is either a chat line (a player said something), a Lua error
 * report, or nothing of interest. Each regular expression of the handler is
 * written out here as a matcher over code units that tries candidate
 * positions in the same order as the backtracking regular-expression engine
 * and so selects the same match and the same capture.
 */
module LogClassifier {
  import opened Wrappers
  import opened JsString
  import Avatar

  const AtSign: CodeUnit := '@' as int

  /** The length of the run of ASCII digits starting at p: `\d+` and
      `[0-9]+` are greedy, and every pattern here needs a non-digit after
      them, so only the whole run can match. */
  function DigitRun(s: Str, p: nat): (n: nat)
    ensures p + n <= |s| || n == 0
    ensures forall i :: p <= i < p + n ==> IsDigit(s[i])
    ensures p + n < |s| ==> !IsDigit(s[p + n])
    decreases |s| - p
  {
    if p < |s| && IsDigit(s[p]) then 1 + DigitRun(s, p + 1) else 0
  }

  /** The length of the run of `\s` code units starting at p. */
  function SpaceRun(s: Str, p: nat): (n: nat)
    ensures p + n <= |s| || n == 0
    ensures forall i :: p <= i < p + n ==> IsWhiteSpace(s[i])
    ensures p + n < |s| ==> !IsWhiteSpace(s[p + n])
    decreases |s| - p
  {
    if p < |s| && IsWhiteSpace(s[p]) then 1 + SpaceRun(s, p + 1) else 0
  }

  /** `STEAM_[0-5]:[01]:\d+` (any universe) or `STEAM_0:[01]:\d+` at p;
      the position just after the digits. */
  function SteamEnd(s: Str, p: nat, anyUniverse: bool): (e: Option<nat>)
    ensures e.Some? ==> p + 11 <= e.value <= |s| && Avatar.IsSteamText(s[p..e.value])
    ensures e.Some? && !anyUniverse ==> s[p + 6] == '0' as int
  {
    if TextAt(s, p, "STEAM_") && p + 10 <= |s|
       && (if anyUniverse then '0' as int <= s[p + 6] <= '5' as int else s[p + 6] == '0' as int)
       && s[p + 7] == ':' as int && (s[p + 8] == '0' as int || s[p + 8] == '1' as int)
       && s[p + 9] == ':' as int && DigitRun(s, p + 10) >= 1
    then
      var e := p + 10 + DigitRun(s, p + 10);
      assert s[p..e][10..] == s[p + 10..e];
      Some(e)
    else None
  }

  /** `<\d+><STEAM_…:[01]:\d+><` at b; the position after the last `<`. */
  function IdTagEnd(s: Str, b: nat, anyUniverse: bool): (r: Option<nat>)
    ensures r.Some? ==> b < |s| && s[b] == '<' as int
    ensures r.Some? ==> b + 16 <= r.value <= |s| && s[r.value - 1] == '<' as int
  {
    if b < |s| && s[b] == '<' as int && DigitRun(s, b + 1) >= 1 then
      var q := b + 1 + DigitRun(s, b + 1);
      if TextAt(s, q, "><") then
        match SteamEnd(s, q + 2, anyUniverse)
        case None => None
        case Some(e) =>
          if TextAt(s, e, "><") then
            assert s[e + 1] == Unit("><"[1]);
            Some(e + 2)
          else None
      else None
    else None
  }

  // ---- index.js:199: is this a chat line? ----

  /** `<[0-9]+><STEAM_[0-5]:[01]:\d+><Team>" (say|say_team) "` at p. */
  predicate ChatTagAt(s: Str, p: nat) {
    match IdTagEnd(s, p, true)
    case None => false
    case Some(r) => TextAt(s, r, "Team>\" ")
                    && (TextAt(s, r + 7, "say \"") || TextAt(s, r + 7, "say_team \""))
  }

  /** The unanchored search of index.js:199, from position p on. */
  function ChatTagFrom(s: Str, p: nat): (found: bool)
    ensures found <==> exists i :: p <= i < |s| && ChatTagAt(s, i)
    decreases |s| - p
  {
    if p >= |s| then false
    else if ChatTagAt(s, p) then true
    else ChatTagFrom(s, p + 1)
  }

  predicate IsChatLine(s: Str) {
    ChatTagFrom(s, 0)
  }

  /** A chat tag contains the literal team tag `<Team>" ` followed by
      `say "` or `say_team "`: a line whose only tags name another team is
      not a chat line. */
  lemma ChatTagHasTeamLiteral(s: Str, p: nat) returns (i: nat)
    requires ChatTagAt(s, p)
    ensures p < i < |s| && s[i - 1] == '<' as int && TextAt(s, i, "Team>\" ")
    ensures TextAt(s, i + 7, "say \"") || TextAt(s, i + 7, "say_team \"")
  {
    i := IdTagEnd(s, p, true).value;
  }

  // ---- index.js:224: the SteamID ----

  /** The leftmost `STEAM_[0-5]:[01]:\d+` at or after p. */
  function FindSteam(s: Str, p: nat): (r: Option<Str>)
    ensures r.Some? ==> Avatar.IsSteamText(r.value)
                        && exists i :: p <= i < |s| && SteamEnd(s, i, true).Some?
                                       && r.value == s[i..SteamEnd(s, i, true).value]
                                       && forall j :: p <= j < i ==> SteamEnd(s, j, true).None?
    ensures r.None? ==> forall i :: p <= i < |s| ==> SteamEnd(s, i, true).None?
  {
    match SteamFrom(s, p)
    case None => None
    case Some(i) => Some(s[i..SteamEnd(s, i, true).value])
  }

  /** Where the leftmost SteamID at or after p starts. */
  function SteamFrom(s: Str, p: nat): (i: Option<nat>)
    ensures i.Some? ==> p <= i.value < |s| && SteamEnd(s, i.value, true).Some?
    ensures i.Some? ==> forall j :: p <= j < i.value ==> SteamEnd(s, j, true).None?
    ensures i.None? ==> forall j :: p <= j < |s| ==> SteamEnd(s, j, true).None?
    decreases |s| - p
  {
    if p >= |s| then None
    else if SteamEnd(s, p, true).Some? then Some(p)
    else SteamFrom(s, p + 1)
  }

  /** Every chat tag holds a SteamID: the one inside its id tag. */
  lemma SteamInChatTag(s: Str, p: nat)
    requires ChatTagAt(s, p)
    ensures FindSteam(s, 0).Some?
  {
    var q := p + 1 + DigitRun(s, p + 1);
    assert SteamEnd(s, q + 2, true).Some?;
  }

  /** On a chat line the SteamID search of index.js:224 always succeeds, so
      that line never reads `[0]` of null. */
  lemma SteamFoundOnChatLine(s: Str)
    requires IsChatLine(s)
    ensures FindSteam(s, 0).Some?
  {
    var p :| 0 <= p < |s| && ChatTagAt(s, p);
    SteamInChatTag(s, p);
  }

  // ---- index.js:225: the player name ----

  /** `<\d+><STEAM_0:[01]:\d+><.*?>"` at b. */
  predicate NameTailAt(s: Str, b: nat) {
    match IdTagEnd(s, b, false)
    case None => false
    case Some(r) => CloseFrom(s, r)
  }

  /** `.*?>"` from c: a `>"` before the next line terminator. */
  predicate CloseFrom(s: Str, c: nat)
    decreases |s| - c
  {
    if c >= |s| then false
    else if TextAt(s, c, ">\"") then true
    else if IsLineTerminator(s[c]) then false
    else CloseFrom(s, c + 1)
  }

  /** No line terminator in s[x..y]: a stretch `.` can cover. */
  predicate NoBreak(s: Str, x: nat, y: nat) {
    forall k :: x <= k < y && k < |s| ==> !IsLineTerminator(s[k])
  }

  /** Only `\s` code units in s[x..y]. */
  predicate AllSpace(s: Str, x: nat, y: nat) {
    forall k :: x <= k < y && k < |s| ==> IsWhiteSpace(s[k])
  }

  /** The lazy `(.*?)` after the opening quote: the least b >= from, with no
      line terminator before it, where the tail matches; None when the tail
      matches nowhere on the rest of the line. */
  function NameEnd(s: Str, from: nat): (b: Option<nat>)
    ensures b.Some? ==> from <= b.value < |s| && NameTailAt(s, b.value) && NoBreak(s, from, b.value)
    ensures b.Some? ==> forall i :: from <= i < b.value ==> !NameTailAt(s, i)
    ensures b.None? ==> forall i :: from <= i < |s| && NoBreak(s, from, i) ==> !NameTailAt(s, i)
    decreases |s| - from
  {
    if from >= |s| then None
    else if NameTailAt(s, from) then Some(from)
    else if IsLineTerminator(s[from]) then None
    else NameEnd(s, from + 1)
  }

  /** `^.*?"(.*?)<\d+><STEAM_0:[01]:\d+><.*?>"` with the lazy prefix at a:
      each `"` before the first line terminator is tried in turn. */
  function NameFrom(s: Str, a: nat): (r: Option<Str>)
    decreases |s| - a
  {
    if a >= |s| || IsLineTerminator(s[a]) then None
    else if s[a] == Quote then
      match NameEnd(s, a + 1)
      case Some(b) => Some(s[a + 1..b])
      case None => NameFrom(s, a + 1)
    else NameFrom(s, a + 1)
  }

  /** A match of index.js:225 read from a: the name opens with a `"` at i
      and runs to j, where the id tag and `<…>"` follow, with no line
      terminator from a to j. */
  predicate NameSpan(s: Str, a: nat, i: nat, j: nat) {
    a <= i < j < |s| && s[i] == Quote && NoBreak(s, a, j) && NameTailAt(s, j)
  }

  /** NameFrom finds the match a backtracking engine finds: the leftmost
      opening quote, then the shortest name; None when there is no match. */
  lemma {:induction false} NameFromMatches(s: Str, a: nat) returns (i: nat, j: nat)
    ensures NameFrom(s, a).Some? ==> NameSpan(s, a, i, j) && NameFrom(s, a).value == s[i + 1..j]
    ensures NameFrom(s, a).Some? ==>
              forall i': nat, j': nat :: NameSpan(s, a, i', j') ==> i < i' || (i == i' && j <= j')
    ensures NameFrom(s, a).None? ==> forall i': nat, j': nat :: !NameSpan(s, a, i', j')
    decreases |s| - a
  {
    if a >= |s| || IsLineTerminator(s[a]) {
      i, j := a, a;
    } else if s[a] == Quote && NameEnd(s, a + 1).Some? {
      i := a;
      j := NameHere(s, a);
    } else {
      NameSkip(s, a);
      i, j := NameFromMatches(s, a + 1);
    }
  }

  /** The step of NameFromMatches where the quote at a opens the name. */
  lemma NameHere(s: Str, a: nat) returns (j: nat)
    requires a < |s| && s[a] == Quote && NameEnd(s, a + 1).Some?
    ensures NameSpan(s, a, a, j) && NameFrom(s, a) == Some(s[a + 1..j])
    ensures forall i': nat, j': nat :: NameSpan(s, a, i', j') ==> a < i' || (a == i' && j <= j')
  {
    j := NameEnd(s, a + 1).value;
    forall i': nat, j': nat | NameSpan(s, a, i', j') && i' == a ensures j <= j' {
      assert NoBreak(s, a + 1, j');
    }
  }

  /** The step of NameFromMatches where no name opens at a: every match
      from a is a match from a + 1. */
  lemma NameSkip(s: Str, a: nat)
    requires a < |s| && !IsLineTerminator(s[a]) && !(s[a] == Quote && NameEnd(s, a + 1).Some?)
    ensures NameFrom(s, a) == NameFrom(s, a + 1)
    ensures forall i': nat, j': nat :: NameSpan(s, a, i', j') ==> NameSpan(s, a + 1, i', j')
    ensures forall j: nat :: NoBreak(s, a + 1, j) ==> NoBreak(s, a, j)
  {
    forall i': nat, j': nat | NameSpan(s, a, i', j') ensures NameSpan(s, a + 1, i', j') {
      if i' == a {
        assert NoBreak(s, a + 1, j');
      }
    }
  }

  // ---- index.js:226: the chat text ----

  /** The first `>` at or after r, or |s|. */
  function AngleClose(s: Str, r: nat): (t: nat)
    ensures r <= t <= |s| || (r > |s| && t == r)
    ensures forall i :: r <= i < t && i < |s| ==> s[i] != '>' as int
    ensures r <= t < |s| ==> s[t] == '>' as int
    decreases |s| - r
  {
    if r >= |s| || s[r] == '>' as int then r else AngleClose(s, r + 1)
  }

  /** The first line terminator at or after q, or |s|. */
  function LineEnd(s: Str, q: nat): (e: nat)
    requires q <= |s|
    ensures q <= e <= |s|
    ensures forall i :: q <= i < e ==> !IsLineTerminator(s[i])
    ensures e < |s| ==> IsLineTerminator(s[e])
    decreases |s| - q
  {
    if q == |s| || IsLineTerminator(s[q]) then q else LineEnd(s, q + 1)
  }

  /** The last `"` in s[q..e], if any: where the greedy `(.*)"` stops. */
  function LastQuote(s: Str, q: nat, e: nat): (l: Option<nat>)
    requires q <= e <= |s|
    ensures l.Some? ==> q <= l.value < e && s[l.value] == Quote
                        && forall i :: l.value < i < e ==> s[i] != Quote
    ensures l.None? ==> forall i :: q <= i < e ==> s[i] != Quote
    decreases e - q
  {
    if e == q then None
    else if s[e - 1] == Quote then Some(e - 1)
    else LastQuote(s, q, e - 1)
  }

  /** `<\d+><STEAM_0:[01]:\d+><[^>]+>"\s+say(?:_team)?\s+"(.*)"` at b; the
      capture. */
  function BodyAt(s: Str, b: nat): (r: Option<Str>)
    ensures r.Some? ==> forall k :: 0 <= k < |r.value| ==> !IsLineTerminator(r.value[k])
  {
    match IdTagEnd(s, b, false)
    case None => None
    case Some(r) => SayFrom(s, r)
  }

  /** `[^>]+>"\s+say(?:_team)?` from r: where the quoted tail starts. */
  function SayEnd(s: Str, r: nat): Option<nat> {
    var t := AngleClose(s, r);
    if t == r || !TextAt(s, t, ">\"") then None
    else
      var u := t + 2 + SpaceRun(s, t + 2);
      if u == t + 2 || !TextAt(s, u, "say") then None
      else Some(if TextAt(s, u + 3, "_team") then u + 8 else u + 3)
  }

  /** `[^>]+>"\s+say(?:_team)?` from r, then the quoted text. */
  function SayFrom(s: Str, r: nat): (c: Option<Str>)
    ensures c.Some? ==> forall k :: 0 <= k < |c.value| ==> !IsLineTerminator(c.value[k])
  {
    match SayEnd(s, r)
    case None => None
    case Some(v) => QuotedFrom(s, v)
  }

  /** `\s+"(.*)"` from v: the greedy `(.*)` ends at the last quote before
      the next line terminator. */
  function QuotedFrom(s: Str, v: nat): (c: Option<Str>)
    ensures c.Some? ==> forall k :: 0 <= k < |c.value| ==> !IsLineTerminator(c.value[k])
  {
    var w := SpaceRun(s, v);
    if w == 0 || v + w >= |s| || s[v + w] != Quote then None
    else
      var q := v + w + 1;
      match LastQuote(s, q, LineEnd(s, q))
      case None => None
      case Some(l) => Some(s[q..l])
  }

  /** A matcher for the rest of a pattern, tried at each position. */
  type Tail = nat -> Option<Str>

  /** The greedy `[^"]*` gives back one code unit at a time: the rest of
      the pattern is tried at hi, then hi - 1, down to lo. */
  function BodyDown(tail: Tail, lo: nat, hi: nat): Option<Str>
    requires lo <= hi
    decreases hi - lo
  {
    match tail(hi)
    case Some(x) => Some(x)
    case None => if hi == lo then None else BodyDown(tail, lo, hi - 1)
  }

  /** `^.*?"[^"]*` and then the rest of the pattern, with the lazy prefix
      at a: each `"` before the first line terminator is tried in turn. */
  function OpenThen(s: Str, tail: Tail, a: nat): Option<Str>
    decreases |s| - a
  {
    if a >= |s| || IsLineTerminator(s[a]) then None
    else if s[a] == Quote then
      match BodyDown(tail, a + 1, a + 1 + IndexOf(s[a + 1..], Quote))
      case Some(x) => Some(x)
      case None => OpenThen(s, tail, a + 1)
    else OpenThen(s, tail, a + 1)
  }

  /** The capture of index.js:226. */
  function ContentFrom(s: Str): Option<Str> {
    OpenThen(s, b => BodyAt(s, b), 0)
  }

  // The matches of index.js:226, stated without any search order: every
  // way the pattern can match, with a witness position for each part.

  /** `\s+"(.*)"` from v: the opening quote at q - 1, the capture s[q..l],
      the closing quote at l. */
  predicate QuotedSpan(s: Str, v: nat, q: nat, l: nat) {
    && v + 2 <= q <= l < |s| && AllSpace(s, v, q - 1)
    && s[q - 1] == Quote && s[l] == Quote && NoBreak(s, q, l)
  }

  /** `[^>]+>"\s+say(?:_team)?` from r: `>"` at t, `say` at u, and v just
      after `say` or after `say_team`. */
  predicate SaySpan(s: Str, r: nat, t: nat, u: nat, v: nat) {
    && r < t && (forall k :: r <= k < t && k < |s| ==> s[k] != '>' as int)
    && TextAt(s, t, ">\"") && t + 2 < u && AllSpace(s, t + 2, u) && TextAt(s, u, "say")
    && (v == u + 3 || (v == u + 8 && TextAt(s, u + 3, "_team")))
  }

  /** The pattern from `<\d+>` on, matched at b. */
  predicate BodySpan(s: Str, b: nat, t: nat, u: nat, v: nat, q: nat, l: nat) {
    && IdTagEnd(s, b, false).Some?
    && SaySpan(s, IdTagEnd(s, b, false).value, t, u, v) && QuotedSpan(s, v, q, l)
  }

  /** `^.*?"[^"]*` from a0: the opening quote at a, no line terminator
      before it, and no quote between it and b. */
  predicate ContentOpen(s: Str, a0: nat, a: nat, b: nat) {
    && a0 <= a < b <= |s| && s[a] == Quote && NoBreak(s, a0, a)
    && forall k :: a < k < b ==> s[k] != Quote
  }

  /** A whole match of index.js:226 with its capture s[q..l]. */
  predicate ContentSpan(s: Str, a: nat, b: nat, t: nat, u: nat, v: nat, q: nat, l: nat) {
    ContentOpen(s, 0, a, b) && BodySpan(s, b, t, u, v, q, l)
  }

  /** In a quoted tail only the closing quote can vary. */
  lemma QuotedSpanForced(s: Str, v: nat, q: nat, l: nat)
    requires QuotedSpan(s, v, q, l)
    ensures q == v + SpaceRun(s, v) + 1 && l < LineEnd(s, q)
    ensures LastQuote(s, q, LineEnd(s, q)).Some? && l <= LastQuote(s, q, LineEnd(s, q)).value
    ensures QuotedFrom(s, v) == Some(s[q..LastQuote(s, q, LineEnd(s, q)).value])
  {
  }

  /** QuotedFrom finds the match with the last closing quote on the line;
      None when there is no match. */
  lemma QuotedFromMatches(s: Str, v: nat) returns (q: nat, l: nat)
    ensures QuotedFrom(s, v).Some? ==> QuotedSpan(s, v, q, l) && QuotedFrom(s, v).value == s[q..l]
    ensures QuotedFrom(s, v).Some? ==> forall q': nat, l': nat :: QuotedSpan(s, v, q', l') ==> q' == q && l' <= l
    ensures QuotedFrom(s, v).None? ==> forall q': nat, l': nat :: !QuotedSpan(s, v, q', l')
  {
    q, l := v + SpaceRun(s, v) + 1, 0;
    if QuotedFrom(s, v).Some? {
      l := QuotedFromSome(s, v);
    }
    forall q': nat, l': nat | QuotedSpan(s, v, q', l') ensures QuotedFrom(s, v).Some? && q' == q && l' <= l {
      QuotedSpanForced(s, v, q', l');
    }
  }

  /** What QuotedFrom reads is a quoted tail ending at the last quote of
      the line. */
  lemma QuotedFromSome(s: Str, v: nat) returns (l: nat)
    requires QuotedFrom(s, v).Some?
    ensures var q := v + SpaceRun(s, v) + 1;
            && q <= |s| && LastQuote(s, q, LineEnd(s, q)) == Some(l)
            && QuotedSpan(s, v, q, l) && QuotedFrom(s, v).value == s[q..l]
  {
    var q := v + SpaceRun(s, v) + 1;
    l := LastQuote(s, q, LineEnd(s, q)).value;
  }

  /** Everything before the quoted tail is forced: the first `>` after r,
      the whole run of spaces, and `_team` taken whenever it is there. */
  lemma SaySpanForced(s: Str, r: nat, t: nat, u: nat, v: nat, q: nat, l: nat)
    requires SaySpan(s, r, t, u, v) && QuotedSpan(s, v, q, l)
    ensures t == AngleClose(s, r) && u == t + 2 + SpaceRun(s, t + 2)
    ensures v == if TextAt(s, u + 3, "_team") then u + 8 else u + 3
  {
    assert s[t] == Unit(">\""[0]);
    assert s[u] == Unit("say"[0]);
    if TextAt(s, u + 3, "_team") {
      assert s[u + 3] == Unit("_team"[0]);
    }
  }

  /** SayFrom finds the one match from r with the last closing quote; None
      when there is no match. */
  lemma SayFromMatches(s: Str, r: nat) returns (t: nat, u: nat, v: nat, q: nat, l: nat)
    ensures SayFrom(s, r).Some? ==>
              SaySpan(s, r, t, u, v) && QuotedSpan(s, v, q, l) && SayFrom(s, r).value == s[q..l]
    ensures SayFrom(s, r).Some? ==>
              forall t': nat, u': nat, v': nat, q': nat, l': nat ::
                SaySpan(s, r, t', u', v') && QuotedSpan(s, v', q', l') ==>
                  t' == t && u' == u && v' == v && q' == q && l' <= l
    ensures SayFrom(s, r).None? ==>
              forall t': nat, u': nat, v': nat, q': nat, l': nat ::
                !(SaySpan(s, r, t', u', v') && QuotedSpan(s, v', q', l'))
  {
    t, u, v := SayEndForced(s, r);
    q, l := QuotedFromMatches(s, v);
    forall t': nat, u': nat, v': nat, q': nat, l': nat | SaySpan(s, r, t', u', v') && QuotedSpan(s, v', q', l')
      ensures SayEnd(s, r) == Some(v') && t' == t && u' == u && v' == v
    {
      SaySpanPins(s, r, t', u', v', q', l');
    }
  }

  /** A match from r is where SayEnd lands. */
  lemma SaySpanPins(s: Str, r: nat, t: nat, u: nat, v: nat, q: nat, l: nat)
    requires SaySpan(s, r, t, u, v) && QuotedSpan(s, v, q, l)
    ensures t == AngleClose(s, r) && u == t + 2 + SpaceRun(s, t + 2)
    ensures v == (if TextAt(s, u + 3, "_team") then u + 8 else u + 3)
    ensures SayEnd(s, r) == Some(v)
  {
    SaySpanForced(s, r, t, u, v, q, l);
    assert t != r && TextAt(s, t, ">\"") && u != t + 2 && TextAt(s, u, "say");
  }

  /** SayEnd lands on the forced positions whenever the part before the
      quoted tail matches there. */
  lemma SayEndForced(s: Str, r: nat) returns (t: nat, u: nat, v: nat)
    ensures t == AngleClose(s, r) && u == t + 2 + SpaceRun(s, t + 2)
    ensures v == if TextAt(s, u + 3, "_team") then u + 8 else u + 3
    ensures SayEnd(s, r) == if SaySpan(s, r, t, u, v) then Some(v) else None
  {
    t := AngleClose(s, r);
    u := t + 2 + SpaceRun(s, t + 2);
    v := if TextAt(s, u + 3, "_team") then u + 8 else u + 3;
  }

  /** BodyAt finds the one match at b with the last closing quote; None
      when there is no match at b. */
  lemma BodyAtMatches(s: Str, b: nat) returns (t: nat, u: nat, v: nat, q: nat, l: nat)
    ensures BodyAt(s, b).Some? ==> BodySpan(s, b, t, u, v, q, l) && BodyAt(s, b).value == s[q..l]
    ensures BodyAt(s, b).Some? ==>
              forall t': nat, u': nat, v': nat, q': nat, l': nat :: BodySpan(s, b, t', u', v', q', l') ==> q' == q && l' <= l
    ensures BodyAt(s, b).None? ==> forall t': nat, u': nat, v': nat, q': nat, l': nat :: !BodySpan(s, b, t', u', v', q', l')
  {
    t, u, v, q, l := 0, 0, 0, 0, 0;
    if IdTagEnd(s, b, false).Some? {
      t, u, v, q, l := SayFromMatches(s, IdTagEnd(s, b, false).value);
    }
  }

  /** BodyDown answers with the greatest position in [lo, hi] where the
      rest of the pattern matches; None when it matches at none of them. */
  lemma {:induction false} BodyDownMatches(tail: Tail, lo: nat, hi: nat) returns (b: nat)
    requires lo <= hi
    ensures BodyDown(tail, lo, hi).Some? ==>
              lo <= b <= hi && tail(b) == BodyDown(tail, lo, hi)
              && forall b' :: b < b' <= hi ==> tail(b').None?
    ensures BodyDown(tail, lo, hi).None? ==> forall b' :: lo <= b' <= hi ==> tail(b').None?
    decreases hi - lo
  {
    if tail(hi).Some? || hi == lo {
      b := hi;
    } else {
      b := BodyDownMatches(tail, lo, hi - 1);
    }
  }

  /** The quotes the greedy `[^"]*` cannot pass: an opening at a reaches at
      most the next quote after it. */
  lemma OpenBound(s: Str, a0: nat, a: nat, b: nat)
    requires ContentOpen(s, a0, a, b)
    ensures b <= a + 1 + IndexOf(s[a + 1..], Quote)
  {
  }

  /** Every position up to the next quote is a possible end of `[^"]*`. */
  lemma OpenUpTo(s: Str, a0: nat, a: nat, b: nat)
    requires a0 <= a < |s| && s[a] == Quote && NoBreak(s, a0, a)
    requires a < b <= a + 1 + IndexOf(s[a + 1..], Quote)
    ensures ContentOpen(s, a0, a, b)
  {
    var t := s[a + 1..];
    var k := IndexOf(t, Quote);
    forall m | a < m < b ensures s[m] != Quote {
      assert s[m] == t[..k][m - a - 1];
    }
  }

  /** OpenThen answers with the rest of the pattern at the leftmost
      opening quote where it matches, and there at the greatest end of
      `[^"]*`; None when it matches after no opening. */
  lemma {:induction false} OpenThenMatches(s: Str, tail: Tail, a0: nat) returns (a: nat, b: nat)
    ensures OpenThen(s, tail, a0).Some? ==> ContentOpen(s, a0, a, b) && tail(b) == OpenThen(s, tail, a0)
    ensures OpenThen(s, tail, a0).Some? ==>
              forall a': nat, b': nat :: ContentOpen(s, a0, a', b') && tail(b').Some? ==>
                a < a' || (a == a' && b' <= b)
    ensures OpenThen(s, tail, a0).None? ==>
              forall a': nat, b': nat :: ContentOpen(s, a0, a', b') ==> tail(b').None?
    decreases |s| - a0
  {
    if a0 >= |s| || IsLineTerminator(s[a0]) {
      a, b := a0, a0;
    } else if s[a0] == Quote && BodyDown(tail, a0 + 1, a0 + 1 + IndexOf(s[a0 + 1..], Quote)).Some? {
      a := a0;
      b := OpenHere(s, tail, a0);
    } else {
      OpenSkip(s, tail, a0);
      a, b := OpenThenMatches(s, tail, a0 + 1);
      if OpenThen(s, tail, a0).Some? {
        assert NoBreak(s, a0, a);
      }
    }
  }

  /** At an opening quote where the rest of the pattern matches, the
      answer is BodyDown's, at the greatest end of `[^"]*`. */
  lemma OpenHere(s: Str, tail: Tail, a0: nat) returns (b: nat)
    requires a0 < |s| && s[a0] == Quote
    requires BodyDown(tail, a0 + 1, a0 + 1 + IndexOf(s[a0 + 1..], Quote)).Some?
    ensures ContentOpen(s, a0, a0, b) && tail(b) == OpenThen(s, tail, a0)
    ensures forall b': nat :: ContentOpen(s, a0, a0, b') && tail(b').Some? ==> b' <= b
  {
    var hi := a0 + 1 + IndexOf(s[a0 + 1..], Quote);
    b := BodyDownMatches(tail, a0 + 1, hi);
    OpenUpTo(s, a0, a0, b);
    forall b': nat | ContentOpen(s, a0, a0, b') && tail(b').Some? ensures b' <= b {
      OpenBound(s, a0, a0, b');
    }
  }

  /** Where the search moves past a0, the openings that can still match are
      the ones after it. */
  lemma OpenSkip(s: Str, tail: Tail, a0: nat)
    requires a0 < |s| && !IsLineTerminator(s[a0])
    requires !(s[a0] == Quote && BodyDown(tail, a0 + 1, a0 + 1 + IndexOf(s[a0 + 1..], Quote)).Some?)
    ensures OpenThen(s, tail, a0) == OpenThen(s, tail, a0 + 1)
    ensures forall a': nat, b': nat :: ContentOpen(s, a0, a', b') && tail(b').Some? ==> ContentOpen(s, a0 + 1, a', b')
  {
    var hi := a0 + 1 + IndexOf(s[a0 + 1..], Quote);
    forall a': nat, b': nat | ContentOpen(s, a0, a', b') && tail(b').Some?
      ensures ContentOpen(s, a0 + 1, a', b')
    {
      if a' == a0 {
        OpenBound(s, a0, a', b');
        var _ := BodyDownMatches(tail, a0 + 1, hi);
      }
    }
  }

  /** ContentFrom(s) is the capture of the match a backtracking engine
      picks for index.js:226: the leftmost opening quote, then the greatest
      end of `[^"]*`, then the last closing quote; None when the pattern
      does not match. */
  lemma ContentFromMatches(s: Str) returns (a: nat, b: nat, t: nat, u: nat, v: nat, q: nat, l: nat)
    ensures ContentFrom(s).Some? ==>
              ContentSpan(s, a, b, t, u, v, q, l) && ContentFrom(s).value == s[q..l]
    ensures ContentFrom(s).Some? ==>
              forall a': nat, b': nat, t': nat, u': nat, v': nat, q': nat, l': nat :: ContentSpan(s, a', b', t', u', v', q', l') ==>
                a < a' || (a == a' && (b' < b || (b' == b && q' == q && l' <= l)))
    ensures ContentFrom(s).None? ==>
              forall a': nat, b': nat, t': nat, u': nat, v': nat, q': nat, l': nat :: !ContentSpan(s, a', b', t', u', v', q', l')
  {
    var tail: Tail := b => BodyAt(s, b);
    a, b := OpenThenMatches(s, tail, 0);
    t, u, v, q, l := BodyAtMatches(s, b);
    forall a': nat, b': nat, t': nat, u': nat, v': nat, q': nat, l': nat | ContentSpan(s, a', b', t', u', v', q', l')
      ensures ContentFrom(s).Some? && (a < a' || (a == a' && b' <= b))
    {
      var _, _, _, _, _ := BodyAtMatches(s, b');
      assert tail(b') == BodyAt(s, b');
    }
  }

  // ---- index.js:204: Lua errors ----

  /** The time stamp `\d{2}/\d{2}/\d{4} - \d{2}:\d{2}:\d{2}: `; 'd' stands
      for a digit. */
  const Stamp: string := "dd/dd/dddd - dd:dd:dd: "

  predicate StampAt(s: Str, p: nat) {
    p + |Stamp| <= |s|
    && forall j :: 0 <= j < |Stamp| ==>
         if Stamp[j] == 'd' then IsDigit(s[p + j]) else s[p + j] == Unit(Stamp[j])
  }

  /** `(?:stamp)(Lua Error:\s*\n\[ERROR\][\s\S]*)$` at p: the greedy `\s*`
      gives back one code unit, which must be the `\n`. */
  predicate LuaErrorAt(s: Str, p: nat) {
    StampAt(s, p) && TextAt(s, p + 23, "Lua Error:")
    && var w := SpaceRun(s, p + 33);
       w >= 1 && s[p + 33 + w - 1] == '\n' as int && TextAt(s, p + 33 + w, "[ERROR]")
  }

  /** The multi-line `^` holds at 0 and after every line terminator. */
  predicate LineStart(s: Str, p: nat) {
    p == 0 || (p <= |s| && IsLineTerminator(s[p - 1]))
  }

  /** The least position in [p, n] where `at` holds: how an unanchored
      search tries start positions. */
  function FirstAt(at: nat -> bool, p: nat, n: nat): (r: Option<nat>)
    ensures r.Some? ==> p <= r.value <= n && at(r.value) && forall k :: p <= k < r.value ==> !at(k)
    ensures r.None? ==> forall k :: p <= k <= n ==> !at(k)
    decreases n + 1 - p
  {
    if p > n then None else if at(p) then Some(p) else FirstAt(at, p + 1, n)
  }

  /** Where index.js:204 can match: a line start where the pattern fits. */
  predicate LuaMatchAt(s: Str, k: nat) {
    LineStart(s, k) && LuaErrorAt(s, k)
  }

  /** The first match of index.js:204 at or after p; its capture. */
  function LuaFrom(s: Str, p: nat): (r: Option<Str>)
    ensures r.Some? ==> exists i :: p <= i && i + 23 <= |s| && LuaMatchAt(s, i) && r.value == s[i + 23..]
    ensures r.Some? ==> TextAt(r.value, 0, "Lua Error:")
    ensures r.None? ==> forall i :: p <= i <= |s| ==> !LuaMatchAt(s, i)
  {
    var at := (k: nat) => LuaMatchAt(s, k);
    match FirstAt(at, p, |s|)
    case None =>
      assert forall i: nat {:trigger LuaMatchAt(s, i)} :: p <= i <= |s| ==> !at(i);
      None
    case Some(i) =>
      assert LuaMatchAt(s, i);
      Some(s[i + 23..])
  }

  /** LuaFrom answers with the capture at the first line start, at or
      after p, where the pattern matches. */
  lemma LuaFromMatches(s: Str, p: nat) returns (i: nat)
    ensures LuaFrom(s, p).Some? ==>
              && p <= i && i + 23 <= |s| && LuaMatchAt(s, i) && LuaFrom(s, p).value == s[i + 23..]
              && forall k :: p <= k < i ==> !LuaMatchAt(s, k)
  {
    var at := (k: nat) => LuaMatchAt(s, k);
    var r := FirstAt(at, p, |s|);
    i := if r.Some? then r.value else p;
    if r.Some? {
      assert at(i);
      forall k | p <= k < i ensures !LuaMatchAt(s, k) {
        assert !at(k);
      }
    }
  }

  // ---- the classification ----

  /** What the log handler makes of one payload. */
  datatype LogLine =
    | Chat(steamId: Str, name: Str, body: Str)
    | LuaError(text: Str)
    | Ignored
    | Crash        // index.js:225 reads `[1]` of a failed match and throws

  /** `content_match[1].replace('@', '@ ')`: a space after the first `@`. */
  function SpaceAt(c: Str): Str {
    ReplaceFirst(c, AtSign, Units("@ "))
  }

  /** Removes the code unit after the first `@`: the inverse of SpaceAt. */
  function UnspaceAt(c: Str): Str {
    var k := IndexOf(c, AtSign);
    if k + 1 >= |c| then c else c[..k + 1] + c[k + 2..]
  }

  lemma {:induction false} UnspaceSpace(c: Str)
    ensures UnspaceAt(SpaceAt(c)) == c
    ensures |SpaceAt(c)| == |c| + (if AtSign in c then 1 else 0)
  {
    var k := IndexOf(c, AtSign);
    if k < |c| {
      var r := SpaceAt(c);
      assert r == c[..k] + Units("@ ") + c[k + 1..];
      assert r[..k] == c[..k];
      assert IndexOf(r, AtSign) == k by {
        IndexOfAt(r, AtSign, k);
      }
      assert r[..k + 1] + r[k + 2..] == c;
    }
  }

  /** The first occurrence is where IndexOf stops. */
  lemma IndexOfAt(s: Str, c: CodeUnit, k: nat)
    requires k < |s| && s[k] == c && c !in s[..k]
    ensures IndexOf(s, c) == k
  {
  }

  /** Lines 198-229 of the log handler, up to the webhook. */
  function Classify(s: Str, showLuaErrors: bool): (r: LogLine)
    ensures r.LuaError? ==> showLuaErrors && !IsChatLine(s) && TextAt(r.text, 0, "Lua Error:")
    ensures r.Chat? ==> IsChatLine(s) && Avatar.IsSteamText(r.steamId) && r.body != []
    ensures r.Crash? ==> IsChatLine(s)
  {
    if !IsChatLine(s) then
      if !showLuaErrors then Ignored
      else match LuaFrom(s, 0)
        case None => Ignored
        case Some(t) => LuaError(t)
    else match FindSteam(s, 0)
      case None => Crash
      case Some(steamId) =>
        match NameFrom(s, 0)
        case None => Crash
        case Some(name) =>
          match ContentFrom(s)
          case None => Ignored
          case Some(c) => if c == [] then Ignored else Chat(steamId, name, SpaceAt(c))
  }

  /** Only the name extractor can throw: a chat line crashes the handler
      exactly when the `STEAM_0`-only name pattern finds no match. */
  lemma CrashIffNoName(s: Str, showLuaErrors: bool)
    ensures Classify(s, showLuaErrors).Crash? <==> IsChatLine(s) && NameFrom(s, 0).None?
  {
    if IsChatLine(s) {
      SteamFoundOnChatLine(s);
    }
  }

  /** With the Lua-error switch off, nothing but chat is ever relayed. */
  lemma LuaErrorsNeedSwitch(s: Str)
    ensures !Classify(s, false).LuaError?
  {
  }

  /** A chat line's body is the extracted text with one space after its
      first `@`, and nothing else changed. */
  lemma ChatBody(s: Str, showLuaErrors: bool)
    requires Classify(s, showLuaErrors).Chat?
    ensures ContentFrom(s).Some? && ContentFrom(s).value != []
    ensures Classify(s, showLuaErrors).body == SpaceAt(ContentFrom(s).value)
    ensures UnspaceAt(Classify(s, showLuaErrors).body) == ContentFrom(s).value
  {
    SteamFoundOnChatLine(s);
    UnspaceSpace(ContentFrom(s).value);
  }

  /** Each outcome of Classify, in both directions and with its fields. */
  lemma ClassifyCases(s: Str, showLuaErrors: bool)
    ensures Classify(s, showLuaErrors).LuaError? <==>
              !IsChatLine(s) && showLuaErrors && LuaFrom(s, 0).Some?
    ensures Classify(s, showLuaErrors).LuaError? ==>
              LuaFrom(s, 0) == Some(Classify(s, showLuaErrors).text)
    ensures Classify(s, showLuaErrors).Chat? <==>
              IsChatLine(s) && NameFrom(s, 0).Some? && ContentFrom(s).Some? && ContentFrom(s).value != []
    ensures Classify(s, showLuaErrors).Chat? ==>
              && FindSteam(s, 0) == Some(Classify(s, showLuaErrors).steamId)
              && NameFrom(s, 0) == Some(Classify(s, showLuaErrors).name)
              && Classify(s, showLuaErrors).body == SpaceAt(ContentFrom(s).value)
  {
    if IsChatLine(s) {
      SteamFoundOnChatLine(s);
    }
  }
}
