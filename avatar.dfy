/**
 * `fetchAvatarUrl` (index.js:143-159): the avatar of a chatting player,
 * looked up once per SteamID text through the Steam Web API and kept in a
 * cache for the life of the process. The SteamID "STEAM_X:Y:Z" is turned
 * into the 64-bit community id Z*2 + Y + 76561197960265728.
 *
 * The web API is a parameter: `players` maps a community id to the
 * `avatarfull` field of its first player ("" when the field is missing); an
 * id absent from it is a response with no player, where reading
 * `players[0].avatarfull` throws.
 */
module Avatar {
  import opened JsString

  /** The community id of "STEAM_0:0:0"; universe X does not enter the sum. */
  const CommunityBase: nat := 76561197960265728

  /** The text shape of a SteamID as the log line matcher extracts it:
      "STEAM_", a digit 0-5, ':', a digit 0 or 1, ':', one or more digits. */
  predicate IsSteamText(s: Str) {
    && |s| >= 11
    && TextAt(s, 0, "STEAM_")
    && '0' as int <= s[6] <= '5' as int
    && s[7] == ':' as int
    && (s[8] == '0' as int || s[8] == '1' as int)
    && s[9] == ':' as int
    && AllDigits(s[10..])
  }

  /** Y, the low bit of the account number. */
  function AuthBit(s: Str): (y: nat)
    requires IsSteamText(s)
    ensures y <= 1
  {
    s[8] - '0' as int
  }

  /** Z, the account number without its low bit. */
  function AccountHalf(s: Str): nat
    requires IsSteamText(s)
  {
    DigitsValue(s[10..])
  }

  /** The 64-bit community id of index.js:149-154. */
  function CommunityId(s: Str): (id: nat)
    requires IsSteamText(s)
    ensures id >= CommunityBase
  {
    AccountHalf(s) * 2 + AuthBit(s) + CommunityBase
  }

  /** The community id determines Y and Z: it is one-to-one on the account
      number and the low bit. */
  lemma CommunityIdParts(s: Str)
    requires IsSteamText(s)
    ensures (CommunityId(s) - CommunityBase) % 2 == AuthBit(s)
    ensures (CommunityId(s) - CommunityBase) / 2 == AccountHalf(s)
  {
  }

  /** Two SteamIDs share a community id exactly when their Y and Z agree. */
  lemma CommunityIdInjective(s: Str, t: Str)
    requires IsSteamText(s) && IsSteamText(t)
    ensures CommunityId(s) == CommunityId(t) <==> AuthBit(s) == AuthBit(t) && AccountHalf(s) == AccountHalf(t)
  {
    CommunityIdParts(s);
    CommunityIdParts(t);
  }

  /** "STEAM_X:Y:Z" for a number Z written in plain decimal. */
  function SteamText(x: nat, y: nat, z: nat): Str
    requires x <= 5 && y <= 1
  {
    Units("STEAM_") + [Unit('0') + x] + Units(":") + [Unit('0') + y] + Units(":") + Decimal(z)
  }

  /** Reading back a written SteamID gives its Y and Z. */
  lemma SteamTextRoundTrip(x: nat, y: nat, z: nat)
    requires x <= 5 && y <= 1
    ensures IsSteamText(SteamText(x, y, z))
    ensures AuthBit(SteamText(x, y, z)) == y && AccountHalf(SteamText(x, y, z)) == z
    ensures CommunityId(SteamText(x, y, z)) == z * 2 + y + CommunityBase
  {
    var s := SteamText(x, y, z);
    assert s[10..] == Decimal(z);
    assert s[..6] == Units("STEAM_");
    DecimalRoundTrip(z);
  }

  /** What one call of `fetchAvatarUrl` does. */
  datatype Fetch =
    | NoKey                                // no usable API key: returns undefined
    | Hit(url: Str)                        // cached, non-empty avatar
    | Fetched(communityId: nat, url: Str)  // asked the web API and stored the answer
    | NoPlayer(communityId: nat)           // asked the web API, which named no player: throws

  /** The API key must be present and at least 20 code units long. */
  predicate UsableKey(apiKey: Str) {
    |apiKey| >= 20
  }

  /** The outcome of `fetchAvatarUrl(steamid)` against a cache. */
  function FetchOf(cache: map<Str, Str>, apiKey: Str, steamid: Str, players: map<nat, Str>): (f: Fetch)
    requires IsSteamText(steamid)
    ensures f.NoKey? <==> !UsableKey(apiKey)
    ensures f.Hit? <==> UsableKey(apiKey) && steamid in cache && cache[steamid] != []
    ensures f.Hit? ==> f.url == cache[steamid]
    ensures (f.Fetched? || f.NoPlayer?) ==> f.communityId == CommunityId(steamid)
    ensures f.Fetched? ==> f.communityId in players && f.url == players[f.communityId]
    ensures f.NoPlayer? ==> f.communityId !in players
  {
    if !UsableKey(apiKey) then NoKey
    else if steamid in cache && cache[steamid] != [] then Hit(cache[steamid])
    else
      var id := CommunityId(steamid);
      if id in players then Fetched(id, players[id]) else NoPlayer(id)
  }

  /** The cache after the call: only a completed request stores anything. */
  function CacheAfter(cache: map<Str, Str>, steamid: Str, f: Fetch): map<Str, Str> {
    if f.Fetched? then cache[steamid := f.url] else cache
  }

  /** Once a non-empty avatar is stored, later calls for the same SteamID
      are served from the cache and make no request. */
  lemma SecondCallHits(cache: map<Str, Str>, apiKey: Str, steamid: Str, players: map<nat, Str>)
    requires IsSteamText(steamid)
    requires FetchOf(cache, apiKey, steamid, players).Fetched?
    requires FetchOf(cache, apiKey, steamid, players).url != []
    ensures var f := FetchOf(cache, apiKey, steamid, players);
            FetchOf(CacheAfter(cache, steamid, f), apiKey, steamid, players) == Hit(f.url)
  {
  }

  /** An empty or missing avatar is stored but does not count as a hit:
      the next call asks the web API again. */
  lemma EmptyAvatarRefetched(cache: map<Str, Str>, apiKey: Str, steamid: Str, players: map<nat, Str>)
    requires IsSteamText(steamid)
    requires FetchOf(cache, apiKey, steamid, players).Fetched?
    requires FetchOf(cache, apiKey, steamid, players).url == []
    ensures var f := FetchOf(cache, apiKey, steamid, players);
            FetchOf(CacheAfter(cache, steamid, f), apiKey, steamid, players) == f
  {
  }

  /** The module-level `avatarCache` with `fetchAvatarUrl` as its method. */
  class AvatarCache {
    var entries: map<Str, Str>

    constructor()
      ensures entries == map[]
    {
      entries := map[];
    }

    /** `fetchAvatarUrl(steamid)`; `avatar` is the value it resolves to
        ("" for undefined), meaningful unless the outcome is `NoPlayer`. */
    method FetchAvatar(apiKey: Str, steamid: Str, players: map<nat, Str>) returns (outcome: Fetch, avatar: Str)
      requires IsSteamText(steamid)
      modifies this
      ensures outcome == FetchOf(old(entries), apiKey, steamid, players)
      ensures entries == CacheAfter(old(entries), steamid, outcome)
      ensures avatar == (if outcome.Hit? || outcome.Fetched? then outcome.url else [])
    {
      if |apiKey| < 20 {
        return NoKey, [];
      }
      if steamid in entries && entries[steamid] != [] {
        return Hit(entries[steamid]), entries[steamid];
      }
      var y := steamid[8] - '0' as int;
      var z := DigitsValue(steamid[10..]);
      var id := z * 2 + y + 76561197960265728;
      if id !in players {
        return NoPlayer(id), [];
      }
      entries := entries[steamid := players[id]];
      outcome, avatar := Fetched(id, players[id]), entries[steamid];
    }
  }
}
