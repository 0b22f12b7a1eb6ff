# GM-DiscordRelay core, modelled in Dafny

GM-DiscordRelay is a bridge between Discord and Source-engine game servers (Garry's Mod).
In one direction, it listens for UDP log lines from the game servers. Chat lines are posted to
the server's Discord relay channel through a webhook, with the player's name and Steam avatar.
Lua errors are also posted when they are switched on. In the other direction, a human message in
a relay channel goes to the game server over RCON. If it starts with a command alias and its
author is allowed, it runs as an RCON command. Otherwise it is relayed as one or more base64
`say_relay` frames.

This project models the logic of `index.js`:

- `JsString`: JavaScript strings as UTF-16 code units, and the string operations the handlers
  use (`substring`, `trim`, `replace` with a one-character pattern, `startsWith`, the "looks
  like an error" test, decimal numerals).
- `Utf8`, `Base64`: `utf8ToBase64`. This is UTF-8 as `TextEncoder` writes it (RFC 3629; lone
  surrogates become U+FFFD), followed by `btoa` (section 4 of RFC 4648). A decoder is included
  for the round trip.
- `FragmentHash`: `generateHash`. It is a 32-bit rolling hash written as a loop, proved against
  a recursive fold and against the polynomial the fold computes.
- `Fragment`: the relay branch of the message handler. It covers truncation, the choice between
  one frame and a chunked frame group, the frames and their order, and stopping after a refused
  initiation frame.
- `Rcon`: `sendRCON`. It is an event-driven state machine: a class whose methods are the `auth`,
  `response`, timer, `error` and `end` handlers, plus a pure `Step`/`Run` over event traces.
- `Routes`: the allow-list and the one dictionary `serverChannelIDs`, which holds both
  directions of the server/channel binding.
- `Avatar`: `fetchAvatarUrl`. It covers the SteamID to 64-bit community id arithmetic, and the
  per-process cache as a class with a map field.
- `LogClassifier`: hand-written matchers for the regular expressions the log handler applies.
  They classify a payload as a chat line, a Lua error, a line that crashes the handler, or
  nothing. For the patterns of `index.js:204`, `:225` and `:226`, each match is also stated as
  a declarative predicate over positions (`LuaMatchAt`, `NameSpan`, `ContentSpan`). The matcher
  is proved to return the match a backtracking engine picks among them: the leftmost start, then
  the shortest lazy and the longest greedy runs. It returns none exactly when no match exists.
  For the search of `:199`, the proof covers existence of a match. For `:224`, it covers
  existence and the leftmost position.
- `LogRelay`, `MessageRelay`: the two event handlers, built from the pieces above.

Everything outside the process is a parameter:
- Discord's channel cache and webhooks are parameters.
- The Steam Web API's answer is a parameter.
- The values the RCON calls resolve to are parameters.
- The RCON connection's events are a trace.
- The configuration is a parameter: servers, `CommandPrefix`, `MaxMessageLength`,
  `ShowLuaErrors`, the allow-list and the API key.

Where the configuration file's comments and the code disagree, the model follows the code:
- The chat matcher requires the literal team tag `<Team>` (`index.js:199`); an example with
  another team tag does not match.
- There is no configurable chat pattern and no prefix blacklist. `MessagesStartsWithBlacklist`
  and `AnnounceMessageTrim` in `config.cjs` are never read, and the scissors reaction is
  unconditional.
- An `error` event resolves without clearing the idle timer. The timer later fires without
  effect.
- The allow-list is read from `config.AllowedForRCON` (`index.js:34-35`), but `config.cjs:46`
  exports it as `AllowedForCommands`. With that file the list is empty, so every alias-prefixed
  message is denied and no command ever runs (`MessageRelay.CommandsNeedAllowList` with an empty
  `allowed`). The model keeps the list as a parameter so the command path can still be stated.
- The command aliases are the three hard-coded names of `index.js:47`.
- `message.length` at `index.js:269` is undefined, so the command is the rest of the content.

## Model

| member | source | states |
|---|---|---|
| JsString.Substring | index.js:269 | `substring` clamps both ends to the string and swaps them when reversed; the result is that slice |
| JsString.Trim | index.js:269 | the result is a slice of the input, only white space is removed around it, and its ends are not white space |
| JsString.ReplaceFirst | index.js:269 | only the first occurrence of the code unit is replaced; without one the string is unchanged |
| JsString.DecimalRoundTrip | index.js:303 | reading back the decimal numeral of `n` gives `n` |
| JsString.DecimalInjective | index.js:311 | distinct numbers have distinct numerals |
| Utf8.ScalarsRoundTrip | index.js:83 | a string with no lone surrogate is recovered from its code points |
| Utf8.LoneSurrogateReplaced | index.js:83 | after any well-formed prefix, a lone surrogate is read as exactly one U+FFFD, and the text after it is read as on its own. A lone surrogate is a low one, or a high one not followed by a low one |
| Utf8.ScalarsAppend | index.js:83 | reading a well-formed string followed by any text gives the string's code points followed by those of the text |
| Utf8.EncodeScalarsAppend | index.js:83 | the UTF-8 bytes of two code point sequences are the bytes of the first followed by those of the second |
| Utf8.TrailingHighSurrogate | index.js:83 | a high surrogate at the end of a well-formed string is written as the bytes EF BF BD |
| Utf8.DecodeEncode | index.js:83 | decoding the UTF-8 bytes of any code points gives them back |
| Utf8.EncodeRoundTrip | index.js:83 | for a string without lone surrogates, its UTF-8 bytes decode back to it |
| Utf8.EncodeAscii | index.js:83 | an ASCII string is its own UTF-8 encoding |
| Base64.Encode | index.js:85 | `btoa` writes four symbols per three bytes, rounded up |
| Base64.EncodeAlphabet | index.js:85 | every output symbol is in the base64 alphabet, and '=' occurs only in the last two positions |
| Base64.DecodeEncodeGroup | index.js:85 | one full three-byte group decodes back to its bytes |
| Base64.DecodeEncode | index.js:85 | decoding `btoa`'s output gives back the bytes |
| Base64.Utf8ToBase64Facts | index.js:82-86 | `utf8ToBase64` writes base64 symbols only, `4*ceil(n/3)` of them for n UTF-8 bytes; it is empty exactly for the empty string; it decodes to the UTF-8 bytes, and then to the string when the string has no lone surrogate |
| Base64.EncodeEmpty | index.js:83 | a string has no UTF-8 bytes exactly when it is empty |
| FragmentHash.Fold | index.js:91-94 | the rolling hash stays below 2^32 |
| FragmentHash.FoldIsPolynomial | index.js:91-94 | the loop's 32-bit reduction at every step equals the polynomial `sum c_i * 15^(n-1-i)` taken mod 2^32 once |
| FragmentHash.Tag | index.js:95-100 | the tag is four characters, each alphanumeric and equal to `charset[((h >>> 6i) & 63) % 62]` |
| FragmentHash.GenerateHash | index.js:89-101 | the two loops compute exactly the tag of the input |
| Fragment.Truncate | index.js:284-287 | a message longer than the maximum becomes exactly its first `max` code units; a shorter one is unchanged |
| Fragment.TruncateSplitsPair | index.js:284-287 | a cut that splits a surrogate pair leaves its high half last, and that half is written as the bytes of U+FFFD |
| Fragment.WholeFrameIff | index.js:292-298 | one frame is sent exactly when `say_relay <user> <body>` is at most 500 characters, and that frame carries no tag |
| Fragment.ChunkedFrames | index.js:299-313 | on the chunked path the initiation frame comes first with N = ceil(len/485) and the message's tag; frames 1..N follow in increasing order with the same tag; every chunk is non-empty, and all but the last are 485 long |
| Fragment.ChunkedJoin | index.js:309-311 | the continuation chunks concatenated in order are exactly the encoded body |
| Fragment.JoinPrefix | index.js:310 | the first m chunks concatenate to the first `m*485` code units of the body, or all of it when it is shorter |
| Fragment.ChunkBounds | index.js:310 | chunk i of N is non-empty, and full unless it is the last |
| Fragment.ChunkSizeLayout | index.js:300 | the chunk size is 500 minus the command name, two separators and the four-symbol tag |
| Fragment.FrameLengths | index.js:294-311 | a whole frame is 11 + len(user) + len(body) long, an initiation frame 18 + digits(N) + len(user), a continuation frame 16 + digits(i) + len(chunk) |
| Fragment.FullPartExceedsCeiling | index.js:300-311 | a full continuation frame is longer than 500 characters, because line 300 reserves room for two separators but the frame has three plus the index digits |
| Fragment.SentIsPrefix | index.js:304-313 | what is sent is a prefix of all the frames in order: only the initiation frame when its answer looks like an error, otherwise every frame |
| Fragment.SentWhole | index.js:293-295 | a message that fits is sent as its single whole frame |
| Fragment.SentChunked | index.js:303-313 | a chunked message sends the initiation frame, then all continuation frames unless the first answer looks like an error |
| Fragment.Relay | index.js:284-314 | the relay branch sends exactly the planned frames, cut after a refused initiation frame; it marks trimming exactly for an over-long message, and failure exactly for an error-looking first answer |
| Fragment.SendFrames | index.js:289-313 | the commands sent are those of the frame plan, and the failure mark is the error test of the first answer |
| Fragment.SendParts | index.js:309-313 | the loop sends continuation frames 1..N in increasing order, each with chunk i |
| Rcon.StepKeepsInv | index.js:110-136 | no handler resolves twice, and none changes the resolution or the disconnect once resolved |
| Rcon.RunKeepsInv | index.js:107-136 | after any events, `resolve` was called at most once, exactly when `resolved` is set, and a disconnect happens only after it |
| Rcon.BufferAndCommands | index.js:110-116 | the buffer is all response chunks in arrival order, and the command is written once per `auth` and nothing else is written |
| Rcon.PendingIsArmed | index.js:113-123 | the timer is armed exactly when a response arrived after it last fired |
| Rcon.Resolution | index.js:117-136 | the call resolves exactly when an error, an end or an armed timer occurred, with the value of the FIRST of them (the error text, or the chunks before it); it disconnects exactly when that first event was the timer |
| Rcon.ResolvedIsFinal | index.js:118-133 | once resolved, later events change neither the value nor the disconnect |
| Rcon.QuietAfterTwoChunks | index.js:113-123 | two chunks followed by silence resolve once with both chunks and disconnect |
| Rcon.ErrorThenTimer | index.js:117-130 | an error before the timer resolves with the error text; the timer then fires without effect and without disconnecting |
| Rcon.RconExchange.OnAuth | index.js:110-112 | `auth` writes the command |
| Rcon.RconExchange.OnResponse | index.js:113-124 | a response appends to the buffer and re-arms the timer |
| Rcon.RconExchange.OnTimerFires | index.js:117-123 | the timer resolves with the buffer and disconnects, unless already resolved |
| Rcon.RconExchange.OnError | index.js:125-130 | an error resolves with its text unless already resolved; the timer stays armed |
| Rcon.RconExchange.OnEnd | index.js:131-136 | the end resolves with the buffer unless already resolved |
| Rcon.SendRcon | index.js:104-139 | driving the handlers with a trace yields the single value the trace resolves with, and its disconnect |
| Routes.BuildAllowList | index.js:33-36 | a user is allowed exactly when listed |
| Routes.BuildRoutes | index.js:39-44 | the loop builds the table of the servers inserted in order |
| Routes.TableKeys | index.js:39-44 | the keys are exactly the addresses and relay channels of the servers |
| Routes.LastWriterWins | index.js:40-43 | a key holds what the last server writing it wrote, with the channel entry after the address entry |
| Routes.Bijective | index.js:39-44 | with distinct addresses and channels, each address leads to its channel and each channel to its endpoint |
| Routes.ChannelFor | index.js:194-197 | a log sender is routed only to a non-empty channel id stored under its "ip:port" |
| Routes.EndpointFor | index.js:255 | a message's channel routes only to an endpoint with a non-empty ip and a non-zero port |
| Avatar.CommunityId | index.js:149-154 | the community id is `Z*2 + Y + 76561197960265728`, at least the base |
| Avatar.CommunityIdParts | index.js:149-154 | the community id gives back Y as its low bit and Z as the rest |
| Avatar.CommunityIdInjective | index.js:149-154 | two SteamIDs share a community id exactly when their Y and Z agree; X is ignored |
| Avatar.SteamTextRoundTrip | index.js:149-152 | a written "STEAM_X:Y:Z" parses back to its Y and Z |
| Avatar.FetchOf | index.js:144-158 | no lookup without a key of at least 20 characters; a non-empty cached avatar is a hit; otherwise the web API is asked for the community id, and a missing player throws |
| Avatar.SecondCallHits | index.js:147-148 | after a non-empty avatar is fetched, the next call is served from the cache |
| Avatar.EmptyAvatarRefetched | index.js:147 | an empty avatar is cached but does not count, so the next call asks again |
| Avatar.AvatarCache.FetchAvatar | index.js:144-158 | the method's outcome and the new cache are those of the lookup |
| LogClassifier.ChatTagFrom | index.js:199 | finds the chat tag exactly when it occurs somewhere after the position |
| LogClassifier.ChatTagHasTeamLiteral | index.js:199 | a chat tag contains `<Team>" ` followed by `say "` or `say_team "` |
| LogClassifier.FindSteam | index.js:224 | the SteamID found is well formed and is the one at the leftmost position where the pattern matches; none is found only when it matches nowhere |
| LogClassifier.SteamFoundOnChatLine | index.js:199-224 | every chat line has a SteamID, so line 224 never fails |
| LogClassifier.NameEnd | index.js:225 | the lazy `(.*?)`: the name ends at the least position on the same line where an id tag with universe 0 and a closing `>"` follow; none only when no such position exists before the line ends |
| LogClassifier.NameFromMatches | index.js:225 | the name read is the capture of a match (`NameSpan`: an opening quote, no line break, then the tail); among all matches, it has the leftmost quote and then the shortest name; there is none only when no match exists |
| LogClassifier.QuotedFromMatches | index.js:226 | `\s+"(.*)"` after `say`: the opening quote is the one after the white space, and the capture ends at the last quote before the line ends; none only when no such pair exists |
| LogClassifier.SayFromMatches | index.js:226 | `[^>]+>"\s+say(?:_team)?` followed by the quoted text: every position of the match is forced, `_team` is taken whenever present, and the closing quote is the last possible one; none only when no match exists |
| LogClassifier.BodyAtMatches | index.js:226 | from the end of `[^"]*`, the id tag with universe 0 and the rest match in one way only, up to the closing quote, which is the last possible one; none only when no match exists |
| LogClassifier.BodyDownMatches | index.js:226 | the greedy `[^"]*`: the search returns the rest of the pattern at the greatest end where it matches; none only when it matches at no end |
| LogClassifier.OpenThenMatches | index.js:226 | the lazy `^.*?"`: the leftmost opening quote on the first line after which the rest matches, and there the greatest end of `[^"]*`; none only when it matches after no opening |
| LogClassifier.ContentFromMatches | index.js:226 | the capture is that of a match (`ContentSpan`); among all matches, it has the leftmost opening quote, then the longest `[^"]*`, then the last closing quote; there is none only when no match exists |
| LogClassifier.LuaFrom | index.js:204 | the capture starts 23 units after a line start with a time stamp and `Lua Error:\s*\n[ERROR]`, runs to the end of the payload, and begins with "Lua Error:"; none is found only when no position matches |
| LogClassifier.LuaFromMatches | index.js:204 | the capture is taken at the least position that is a line start where the pattern matches |
| LogClassifier.UnspaceSpace | index.js:229 | only the first '@' becomes "@ ": the text comes back, one unit longer when it had an '@' |
| LogClassifier.Classify | index.js:199-229 | a Lua error needs the switch on and a non-chat line; a chat result has a well-formed SteamID and a non-empty body; a crash is a chat line |
| LogClassifier.ClassifyCases | index.js:199-229 | a Lua error exactly when the line is not chat, the switch is on and :204 matches, with the capture as its text; chat exactly when the line is chat, a name is read and the capture of :226 is non-empty, with the SteamID of :224, the name of :225 and the spaced capture |
| LogClassifier.CrashIffNoName | index.js:225 | the handler crashes exactly on a chat line from which no name can be read |
| LogClassifier.LuaErrorsNeedSwitch | index.js:202-203 | with `ShowLuaErrors` off, no Lua error is posted |
| LogClassifier.ChatBody | index.js:226-229 | a chat body is exactly the capture of index.js:226 with its first '@' spaced; the capture is non-empty, and unspacing the body gives it back |
| LogRelay.OnLog | index.js:193-249 | the handler's post and new avatar cache are those of the classified line |
| LogRelay.Deliver | index.js:195-248 | the route test, then the Lua-error or chat branch, with the cache updated by the avatar fetch |
| LogRelay.UnroutedDropped | index.js:195-196 | a line from an unknown address is dropped and leaves the cache unchanged |
| LogRelay.PostsGoToBoundChannel | index.js:195-240 | every post goes to the channel bound to the sender's address, through that channel's webhook |
| LogRelay.DispatchLua | index.js:200-216 | a classified Lua error is posted exactly when its channel has a webhook, and the post is its text |
| LogRelay.LuaPostFacts | index.js:200-216 | a Lua error is posted exactly when the switch is on, the line is not chat, the pattern matches, and the sender's channel has a webhook; the post is the capture, which begins with "Lua Error:" |
| LogRelay.DispatchChat | index.js:222-240 | a classified chat line is posted exactly when its channel is known and has a webhook and the player is found; the post is the line's name and body with the fetched avatar, which the cache then holds for the speaker |
| LogRelay.ChatPostFacts | index.js:222-240 | a payload is posted as chat exactly when it is a chat line with a name and a non-empty capture, its channel is known and has a webhook, and the player is found; the post is the name of :225, the spaced capture of :226 and the avatar of the SteamID of :224 |
| LogRelay.ThrowsExactly | index.js:225-231 | the handler rejects exactly on a routed chat line without a readable name, or a known channel's player the web API does not return |
| LogRelay.DispatchCache | index.js:231 | only the speaker's cache entry can be added or changed |
| LogRelay.CacheOnlyTouchesSpeaker | index.js:231 | the same for a payload |
| LogRelay.LogGoesToOwnChannel | index.js:39-44 | with a consistent configuration, server j's lines go only to server j's channel |
| MessageRelay.FirstAlias | index.js:265-266 | the alias chosen is the first in list order the content starts with; none only when none matches |
| MessageRelay.OnMessage | index.js:254-315 | the handler does exactly what `Handle` describes |
| MessageRelay.CommandsNeedAllowList | index.js:255-276 | a command runs exactly when the channel is bound, the author is a human on the allow-list, and the content starts with an alias; it is then the text after the first matching alias, with its notice and the edit for the answer. An alias from anyone else is denied, exactly |
| MessageRelay.AliasNeverRelayed | index.js:265-268 | an alias-prefixed message is never relayed; from an author not allowed it does nothing |
| MessageRelay.CommandIsAliasTail | index.js:266-270 | the command is what follows the first matching alias, trimmed, with its first `"` made `'`, and the notice repeats it |
| MessageRelay.LongAliasFirst | index.js:47 | "command" is tried before its prefix "c", so the long alias is stripped whole |
| MessageRelay.CommandShape | index.js:269 | the command is as long as the trimmed tail, has no surrounding white space, and equals it when it has no `"` |
| MessageRelay.QuoteSwapShape | index.js:269 | swapping the first `"` keeps the length and the non-blank ends |
| MessageRelay.EditFits | index.js:272-276 | the reply fits in 1999 characters and says "no results" exactly for an empty answer; an answer of at most 1993 characters is fenced in full, and a longer one is cut to its first 1993 characters inside the fence |
| MessageRelay.RelayedIsPlan | index.js:281-314 | a relayed message is non-empty, from a named human and without an alias; it is trimmed exactly when longer than the maximum, and its frames are the plan, cut after a refused first frame |
| MessageRelay.RelayedExactly | index.js:255-314 | a message is relayed exactly when its channel is bound, its author is a named human with an id, it is non-empty and starts with no alias; the relay is to the bound endpoint with the plan's frames, the trim mark and the failure mark |
| MessageRelay.HandledGoesToEndpoint | index.js:255-260 | commands and relays go to the endpoint bound to the channel |
| MessageRelay.MessageGoesToOwnServer | index.js:39-44 | with a consistent configuration, server j's channel reaches server j only |

## Left out

- Discord I/O is not modelled: the client, its intents and login, webhook lookup and creation,
  message replies, edits and reactions. A post is recorded as a value. The retry of
  `webhook.send` with a leading space (`index.js:241-246`) only catches synchronous throws, and
  is not modelled.
- The log socket (`SrcdsLogReceiver`) and its server list are not modelled. The handler
  receives the sender's "ip:port" and the payload.
- The rcon library's TCP connection and the real 500 ms `setTimeout` are not modelled. Both
  become events of a trace.
- A `sendRCON` that never resolves would suspend the message handler. The model takes the
  resolved value as a parameter.
- The Steam Web API `fetch` and its JSON are a map from community id to `avatarfull`.
- Configuration loading and console logging are not modelled. Configuration values are
  parameters.
- Fragment.ChunkCount: `Math.ceil` on a floating-point division is integer ceiling division.
  The two agree for lengths far beyond any message.
- Avatar.CommunityId: `parseInt` loses precision for Z above 2^53 before `BigInt` is applied;
  the model uses exact integers.
- Base64.Utf8ToBase64Facts: the spread into `String.fromCharCode(...)` has an argument-count
  limit, so very long messages would throw there. The model has no such limit.
- JsString.LooksLikeError: `toLowerCase` is modelled on ASCII letters only. Only they can
  produce the letters of "error".
- Routes.ChannelFor: a server whose relay channel id equals another server's "ip:port" puts an
  endpoint object under an address key. The log handler then looks up a channel by that
  object; the model treats that case as no channel.
- LogClassifier.Classify: its own contract gives only what each outcome implies. Both
  directions and the exact fields of each outcome are stated by `LogClassifier.ClassifyCases`.
- The classifier has no worked example on a concrete log line. The chat test of `index.js:199`
  and the SteamID search of `:224` are stated by their matchers and by existence lemmas.
  Unlike `:204`, `:225` and `:226`, they have no separate declarative match predicate.
- The handlers are modelled as running to completion, one event at a time. The interleavings
  that JavaScript allows at each `await` are not modelled. These are the avatar fetch
  (`index.js:231`), where two log lines can race on the avatar cache, and the RCON calls
  (`index.js:271`, `:295`, `:304`, `:312`), where other messages can be handled in between.
