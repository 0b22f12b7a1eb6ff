/**
 * The log receiver's handler (index.js:193-249): a UDP log line from a game
 * server is looked up by the sender's "ip:port", classified, and either
 * posted to the server's relay channel through its webhook (a chat line
 * with the player's name and avatar, or a Lua error under the name
 * "Lua Error") or dropped.
 *
 * Discord is a parameter: `channels` holds the ids the client's channel
 * cache knows, `webhooks` the ids `relayWebhooks` holds a webhook for.
 * A post is the `webhook.send` call the handler makes.
 */
module LogRelay {
  import opened Wrappers
  import opened JsString
  import opened Routes
  import Avatar
  import opened LogClassifier

  /** What the handler does with one log line. */
  datatype Post =
    | NoPost                                               // returns without posting
    | LuaPost(channel: Str, text: Str)                     // sent as 'Lua Error'
    | ChatPost(channel: Str, name: Str, body: Str, avatar: Str)
    | Throws                                               // the handler's promise rejects

  /** The test of index.js:195: the value under "ip:port" is truthy. An
      endpoint object is truthy; a channel id is truthy when non-empty. */
  predicate Routed(t: Table, key: Str) {
    key in t && (t[key].Endpoint? || t[key].id != [])
  }

  /** The avatar `fetchAvatarUrl` resolves to ("" for undefined). */
  function AvatarUrl(f: Avatar.Fetch): Str {
    if f.Hit? || f.Fetched? then f.url else []
  }

  /** What the handler does with a classified line from the address `key`:
      what it posts and the avatar cache it leaves behind. */
  function Dispatch(t: Table, channels: set<Str>, webhooks: set<Str>, cache: map<Str, Str>, apiKey: Str,
                    players: map<nat, Str>, key: Str, line: LogLine): (Post, map<Str, Str>)
    requires line.Chat? ==> Avatar.IsSteamText(line.steamId)
  {
    if !Routed(t, key) then (NoPost, cache)
    else
      var channel := ChannelFor(t, key);
      match line
      case Ignored => (NoPost, cache)
      case Crash => (Throws, cache)
      case LuaError(text) =>
        if channel.Some? && channel.value in webhooks then (LuaPost(channel.value, text), cache)
        else (NoPost, cache)
      case Chat(steamId, name, body) =>
        if channel.Some? && channel.value in channels then
          var f := Avatar.FetchOf(cache, apiKey, steamId, players);
          var after := Avatar.CacheAfter(cache, steamId, f);
          if f.NoPlayer? then (Throws, after)
          else if channel.value in webhooks then (ChatPost(channel.value, name, body, AvatarUrl(f)), after)
          else (NoPost, after)
        else (NoPost, cache)
  }

  /** The handler's effect on one log line. */
  function LogOutcome(t: Table, channels: set<Str>, webhooks: set<Str>, showLuaErrors: bool,
                      cache: map<Str, Str>, apiKey: Str, players: map<nat, Str>,
                      key: Str, payload: Str): (Post, map<Str, Str>)
  {
    Dispatch(t, channels, webhooks, cache, apiKey, players, key, Classify(payload, showLuaErrors))
  }

  /** `receiver.on('log', ...)` with the avatar cache as its only state:
      the line is classified, then delivered. */
  method OnLog(t: Table, channels: set<Str>, webhooks: set<Str>, showLuaErrors: bool,
               cache: Avatar.AvatarCache, apiKey: Str, players: map<nat, Str>,
               key: Str, payload: Str) returns (post: Post)
    modifies cache
    ensures (post, cache.entries) ==
            LogOutcome(t, channels, webhooks, showLuaErrors, old(cache.entries), apiKey, players, key, payload)
  {
    var line := Classify(payload, showLuaErrors);
    post := Deliver(t, channels, webhooks, cache, apiKey, players, key, line);
  }

  /** The handler's steps once the line is classified: the route test of
      index.js:195, then the Lua error branch (lines 200-220) or the chat
      branch (lines 222-248). */
  method Deliver(t: Table, channels: set<Str>, webhooks: set<Str>, cache: Avatar.AvatarCache, apiKey: Str,
                 players: map<nat, Str>, key: Str, line: LogLine) returns (post: Post)
    requires line.Chat? ==> Avatar.IsSteamText(line.steamId)
    modifies cache
    ensures (post, cache.entries) == Dispatch(t, channels, webhooks, old(cache.entries), apiKey, players, key, line)
  {
    if !(key in t && (t[key].Endpoint? || t[key].id != [])) {
      return NoPost;
    }
    var channelId := t[key];
    match line
    case Ignored =>
      return NoPost;
    case Crash =>
      return Throws;
    case LuaError(text) =>
      if channelId.Channel? && channelId.id in webhooks {
        return LuaPost(channelId.id, text);
      }
      return NoPost;
    case Chat(steamId, name, body) =>
      if channelId.Channel? && channelId.id in channels {
        var outcome, avatar := cache.FetchAvatar(apiKey, steamId, players);
        if outcome.NoPlayer? {
          return Throws;
        }
        if channelId.id in webhooks {
          return ChatPost(channelId.id, name, body, avatar);
        }
      }
      return NoPost;
  }

  /** A line from an address that is not configured is dropped untouched. */
  lemma UnroutedDropped(t: Table, channels: set<Str>, webhooks: set<Str>, showLuaErrors: bool,
                        cache: map<Str, Str>, apiKey: Str, players: map<nat, Str>, key: Str, payload: Str)
    requires key !in t
    ensures LogOutcome(t, channels, webhooks, showLuaErrors, cache, apiKey, players, key, payload) == (NoPost, cache)
  {
  }

  /** Every post goes to the channel the sender's address is bound to, and
      only through a webhook that channel has. */
  lemma PostsGoToBoundChannel(t: Table, channels: set<Str>, webhooks: set<Str>, showLuaErrors: bool,
                              cache: map<Str, Str>, apiKey: Str, players: map<nat, Str>, key: Str, payload: Str)
    ensures var p := LogOutcome(t, channels, webhooks, showLuaErrors, cache, apiKey, players, key, payload).0;
            (p.LuaPost? || p.ChatPost?) ==>
              key in t && t[key] == Channel(p.channel) && p.channel != [] && p.channel in webhooks
    ensures var p := LogOutcome(t, channels, webhooks, showLuaErrors, cache, apiKey, players, key, payload).0;
            p.ChatPost? ==> p.channel in channels
  {
  }

  /** A classified Lua error is posted exactly when its sender is bound to
      a channel with a webhook, and the post is the error text. */
  lemma DispatchLua(t: Table, channels: set<Str>, webhooks: set<Str>, cache: map<Str, Str>, apiKey: Str,
                    players: map<nat, Str>, key: Str, line: LogLine)
    requires line.Chat? ==> Avatar.IsSteamText(line.steamId)
    ensures var p := Dispatch(t, channels, webhooks, cache, apiKey, players, key, line).0;
            p.LuaPost? <==> line.LuaError? && ChannelFor(t, key).Some? && ChannelFor(t, key).value in webhooks
    ensures var p := Dispatch(t, channels, webhooks, cache, apiKey, players, key, line).0;
            p.LuaPost? ==> p == LuaPost(ChannelFor(t, key).value, line.text)
  {
  }

  /** A Lua error is posted exactly when the switch is on, the line is not
      chat, the pattern of index.js:204 matches, and the sender is bound to
      a channel with a webhook; the text is the capture, which begins with
      "Lua Error:". */
  lemma LuaPostFacts(t: Table, channels: set<Str>, webhooks: set<Str>, showLuaErrors: bool,
                     cache: map<Str, Str>, apiKey: Str, players: map<nat, Str>, key: Str, payload: Str)
    ensures var p := LogOutcome(t, channels, webhooks, showLuaErrors, cache, apiKey, players, key, payload).0;
            p.LuaPost? <==>
              && showLuaErrors && !IsChatLine(payload) && LuaFrom(payload, 0).Some?
              && ChannelFor(t, key).Some? && ChannelFor(t, key).value in webhooks
    ensures var p := LogOutcome(t, channels, webhooks, showLuaErrors, cache, apiKey, players, key, payload).0;
            p.LuaPost? ==>
              && p == LuaPost(ChannelFor(t, key).value, LuaFrom(payload, 0).value)
              && TextAt(p.text, 0, "Lua Error:")
  {
    var c := Classify(payload, showLuaErrors);
    ClassifyCases(payload, showLuaErrors);
    DispatchLua(t, channels, webhooks, cache, apiKey, players, key, c);
  }

  /** A classified chat line is posted exactly when its sender is bound to
      a channel the client knows and that has a webhook, and the web API
      returns the player; the post is the line's name and body with the
      resolved avatar, which the cache then holds for the speaker. */
  lemma DispatchChat(t: Table, channels: set<Str>, webhooks: set<Str>, cache: map<Str, Str>, apiKey: Str,
                     players: map<nat, Str>, key: Str, line: LogLine)
    requires line.Chat? ==> Avatar.IsSteamText(line.steamId)
    ensures var p := Dispatch(t, channels, webhooks, cache, apiKey, players, key, line).0;
            p.ChatPost? <==>
              && line.Chat? && ChannelFor(t, key).Some?
              && ChannelFor(t, key).value in channels && ChannelFor(t, key).value in webhooks
              && !Avatar.FetchOf(cache, apiKey, line.steamId, players).NoPlayer?
    ensures var (p, after) := Dispatch(t, channels, webhooks, cache, apiKey, players, key, line);
            p.ChatPost? ==>
              && p == ChatPost(ChannelFor(t, key).value, line.name, line.body,
                               AvatarUrl(Avatar.FetchOf(cache, apiKey, line.steamId, players)))
              && (p.avatar != [] ==> line.steamId in after && after[line.steamId] == p.avatar)
  {
  }

  /** A log line is posted as chat exactly when it is a chat line with a
      name and a non-empty text, its sender is bound to a channel the
      client knows and that has a webhook, and the player is found; the post
      is the name of index.js:225 and the text of index.js:226 with a space
      after its first `@`, with the speaker's avatar. */
  lemma ChatPostFacts(t: Table, channels: set<Str>, webhooks: set<Str>, showLuaErrors: bool,
                      cache: map<Str, Str>, apiKey: Str, players: map<nat, Str>, key: Str, payload: Str)
    ensures var p := LogOutcome(t, channels, webhooks, showLuaErrors, cache, apiKey, players, key, payload).0;
            p.ChatPost? <==>
              && IsChatLine(payload) && NameFrom(payload, 0).Some?
              && ContentFrom(payload).Some? && ContentFrom(payload).value != []
              && ChannelFor(t, key).Some?
              && ChannelFor(t, key).value in channels && ChannelFor(t, key).value in webhooks
              && FindSteam(payload, 0).Some?
              && !Avatar.FetchOf(cache, apiKey, FindSteam(payload, 0).value, players).NoPlayer?
    ensures var (p, after) := LogOutcome(t, channels, webhooks, showLuaErrors, cache, apiKey, players, key, payload);
            p.ChatPost? ==>
              && FindSteam(payload, 0).Some? && ContentFrom(payload).Some?
              && p == ChatPost(ChannelFor(t, key).value, NameFrom(payload, 0).value,
                               SpaceAt(ContentFrom(payload).value),
                               AvatarUrl(Avatar.FetchOf(cache, apiKey, FindSteam(payload, 0).value, players)))
              && p.body != []
              && (p.avatar != [] ==> FindSteam(payload, 0).value in after
                                     && after[FindSteam(payload, 0).value] == p.avatar)
  {
    var c := Classify(payload, showLuaErrors);
    ClassifyCases(payload, showLuaErrors);
    DispatchChat(t, channels, webhooks, cache, apiKey, players, key, c);
  }

  /** The handler rejects exactly on a chat line it cannot read a name
      from, or on a chat line for a known channel whose player the web API
      does not return. */
  lemma ThrowsExactly(t: Table, channels: set<Str>, webhooks: set<Str>, showLuaErrors: bool,
                      cache: map<Str, Str>, apiKey: Str, players: map<nat, Str>, key: Str, payload: Str)
    ensures var p := LogOutcome(t, channels, webhooks, showLuaErrors, cache, apiKey, players, key, payload).0;
            var c := Classify(payload, showLuaErrors);
            p.Throws? <==>
              Routed(t, key) &&
              (c.Crash? ||
               (c.Chat? && ChannelFor(t, key).Some? && ChannelFor(t, key).value in channels
                && Avatar.FetchOf(cache, apiKey, c.steamId, players).NoPlayer?))
  {
  }

  /** The avatar cache only gains or refreshes the entry of the SteamID on
      a chat line; every other entry is kept. */
  lemma DispatchCache(t: Table, channels: set<Str>, webhooks: set<Str>, cache: map<Str, Str>, apiKey: Str,
                      players: map<nat, Str>, key: Str, line: LogLine)
    requires line.Chat? ==> Avatar.IsSteamText(line.steamId)
    ensures var after := Dispatch(t, channels, webhooks, cache, apiKey, players, key, line).1;
            && (forall id :: id in cache ==> id in after)
            && (forall id :: id in after && !(line.Chat? && id == line.steamId) ==> id in cache && after[id] == cache[id])
  {
  }

  /** The same for a log line: only the speaker's cache entry can change. */
  lemma CacheOnlyTouchesSpeaker(t: Table, channels: set<Str>, webhooks: set<Str>, showLuaErrors: bool,
                                cache: map<Str, Str>, apiKey: Str, players: map<nat, Str>, key: Str, payload: Str)
    ensures var after := LogOutcome(t, channels, webhooks, showLuaErrors, cache, apiKey, players, key, payload).1;
            var c := Classify(payload, showLuaErrors);
            && (forall id :: id in cache ==> id in after)
            && (forall id :: id in after && !(c.Chat? && id == c.steamId) ==> id in cache && after[id] == cache[id])
  {
    DispatchCache(t, channels, webhooks, cache, apiKey, players, key, Classify(payload, showLuaErrors));
  }

  /** With a consistent configuration, a line from server j's address is
      posted to server j's relay channel and nowhere else. */
  lemma LogGoesToOwnChannel(servers: seq<Server>, j: nat, channels: set<Str>, webhooks: set<Str>,
                            showLuaErrors: bool, cache: map<Str, Str>, apiKey: Str, players: map<nat, Str>,
                            payload: Str)
    requires j < |servers|
    requires forall a, b :: 0 <= a < b < |servers| ==>
               AddressKey(servers[a].ip, servers[a].port) != AddressKey(servers[b].ip, servers[b].port)
               && servers[a].relayChannel != servers[b].relayChannel
    requires forall a, b :: 0 <= a < |servers| && 0 <= b < |servers| ==>
               servers[a].relayChannel != AddressKey(servers[b].ip, servers[b].port)
    ensures var s := servers[j];
            var p := LogOutcome(TableOf(servers), channels, webhooks, showLuaErrors, cache, apiKey, players,
                                AddressKey(s.ip, s.port), payload).0;
            (p.LuaPost? || p.ChatPost?) ==> p.channel == s.relayChannel
  {
    var s := servers[j];
    Bijective(servers, j);
    PostsGoToBoundChannel(TableOf(servers), channels, webhooks, showLuaErrors, cache, apiKey, players,
                          AddressKey(s.ip, s.port), payload);
  }
}
