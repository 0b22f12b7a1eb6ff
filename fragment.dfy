/**
 * The outbound fragment codec and dispatch policy of the message handler
 * (index.js:284-314): a Discord message is cut to the configured maximum,
 * its author name and body are written in base64, and it is relayed to the
 * game server as one `say_relay <user> <body>` RCON command when that fits
 * in 500 characters, or else as an initiation frame
 * `say_relay 0 <N> <tag> <user>` followed by N continuation frames
 * `say_relay <i> <tag> <chunk>`, i = 1..N, each sent after the previous one
 * has completed.
 */
module Fragment {
  import opened JsString
  import Base64
  import FragmentHash
  import Utf8

  /** `relayCommand` (index.js:29). */
  const RelayCommand: Str := Units("say_relay")

  /** The per-command ceiling the dispatch policy is written against. */
  const Ceiling: int := 500

  /** Length of a fragment-group tag; `generateHash` always returns four
      symbols. */
  const TagLength: nat := 4

  /** `chunkSize` (index.js:300): 500 - (|"say_relay"| + 2 + 4). */
  const ChunkSize: nat := 485

  lemma ChunkSizeLayout()
    ensures ChunkSize == Ceiling - (|RelayCommand| + 2 + TagLength)
  {
  }

  /** One RCON command of the relay protocol. */
  datatype Frame =
    | Whole(user: Str, body: Str)            // say_relay <user> <body>
    | Start(count: nat, tag: Str, user: Str) // say_relay 0 <count> <tag> <user>
    | Part(index: nat, tag: Str, chunk: Str) // say_relay <index> <tag> <chunk>

  /** The command text of a frame (index.js:294, 303, 311). */
  function Render(f: Frame): Str {
    match f
    case Whole(u, b) => RelayCommand + Units(" ") + u + Units(" ") + b
    case Start(n, t, u) => RelayCommand + Units(" 0 ") + Decimal(n) + Units(" ") + t + Units(" ") + u
    case Part(i, t, c) => RelayCommand + Units(" ") + Decimal(i) + Units(" ") + t + Units(" ") + c
  }

  /** Lines 284-287: a message longer than the maximum keeps its first
      `max` code units and is marked as trimmed; a shorter one is kept. */
  function Truncate(content: Str, max: nat): (r: Str)
    ensures |content| <= max ==> r == content
    ensures |content| > max ==> |r| == max
    ensures r == content[..|r|]
  {
    if |content| > max then Substring(content, 0, max) else content
  }

  /** Cutting at `max` code units can split a surrogate pair; the high
      half left at the end is then written as the bytes of U+FFFD. */
  lemma TruncateSplitsPair(content: Str, max: nat)
    requires 1 <= max < |content|
    requires Utf8.WellFormed(content[..max - 1]) && Utf8.IsHighSurrogate(content[max - 1])
    ensures Utf8.Encode(Truncate(content, max)) == Utf8.Encode(content[..max - 1]) + [0xEF, 0xBF, 0xBD]
  {
    assert Truncate(content, max) == content[..max - 1] + [content[max - 1]];
    Utf8.TrailingHighSurrogate(content[..max - 1], content[max - 1]);
  }

  /** `startSize` (index.js:292). */
  function StartSize(userB64: Str): int {
    |RelayCommand| + 2 + |userB64|
  }

  /** The test of line 293: the encoded body fits beside the name. */
  predicate FitsWhole(userB64: Str, bodyB64: Str) {
    |bodyB64| <= Ceiling - StartSize(userB64)
  }

  /** `requestsAmount` (index.js:301): Math.ceil(len / chunkSize). */
  function ChunkCount(len: nat): nat {
    (len + ChunkSize - 1) / ChunkSize
  }

  /** `contentb64.substring((i-1)*chunkSize, i*chunkSize)` (index.js:310). */
  function Chunk(s: Str, i: nat): Str {
    Substring(s, (i - 1) * ChunkSize, i * ChunkSize)
  }

  /** The continuation frames 1..n of a chunked message, in order. */
  function Parts(tag: Str, bodyB64: Str, n: nat): (ps: seq<Frame>)
    ensures |ps| == n
  {
    seq(n, k requires 0 <= k < n => Part(k + 1, tag, Chunk(bodyB64, k + 1)))
  }

  /** The commands a message is relayed as, in sending order, before any
      RCON result is known. */
  function Frames(messageId: Str, userB64: Str, bodyB64: Str): seq<Frame> {
    if FitsWhole(userB64, bodyB64) then [Whole(userB64, bodyB64)]
    else
      var tag := FragmentHash.Tag(messageId);
      var n := ChunkCount(|bodyB64|);
      [Start(n, tag, userB64)] + Parts(tag, bodyB64, n)
  }

  /** The frames of a Discord message (lines 284-301). */
  function Plan(messageId: Str, username: Str, content: Str, max: nat): seq<Frame> {
    Frames(messageId, Base64.Utf8ToBase64(username), Base64.Utf8ToBase64(Truncate(content, max)))
  }

  function RenderAll(fs: seq<Frame>): seq<Str> {
    seq(|fs|, k requires 0 <= k < |fs| => Render(fs[k]))
  }

  /** The commands actually sent, given the result of the first: on the
      chunked path an error-looking answer to the initiation frame stops
      everything after it (lines 305-308). */
  function Sent(fs: seq<Frame>, firstResult: Str): seq<Str> {
    if fs != [] && fs[0].Start? && LooksLikeError(firstResult) then [Render(fs[0])]
    else RenderAll(fs)
  }

  /** The concatenation of a sequence of chunks. */
  function Join(parts: seq<Str>): Str {
    if parts == [] then [] else Join(parts[..|parts| - 1]) + parts[|parts| - 1]
  }

  /** The chunks carried by the continuation frames, in order. */
  function Chunks(fs: seq<Frame>): seq<Str> {
    if fs == [] then []
    else seq(|fs| - 1, k requires 0 <= k < |fs| - 1 => if fs[k + 1].Part? then fs[k + 1].chunk else [])
  }

  lemma {:induction false} JoinPrefix(s: Str, m: nat)
    requires m <= ChunkCount(|s|)
    ensures var cs := seq(m, k requires 0 <= k < m => Chunk(s, k + 1));
            Join(cs) == s[..if m * ChunkSize <= |s| then m * ChunkSize else |s|]
  {
    var cs := seq(m, k requires 0 <= k < m => Chunk(s, k + 1));
    if m > 0 {
      var cs' := seq(m - 1, k requires 0 <= k < m - 1 => Chunk(s, k + 1));
      assert cs[..m - 1] == cs';
      JoinPrefix(s, m - 1);
      assert (m - 1) * ChunkSize < |s|;
    }
  }

  /** Line 293: a message goes out as one frame exactly when the whole
      command `say_relay <user> <body>` is at most 500 characters; no tag is
      then used. */
  lemma WholeFrameIff(messageId: Str, userB64: Str, bodyB64: Str)
    ensures var fs := Frames(messageId, userB64, bodyB64);
            (|fs| == 1 && fs[0].Whole?) <==> |Render(Whole(userB64, bodyB64))| <= Ceiling
    ensures var fs := Frames(messageId, userB64, bodyB64);
            fs[0].Whole? ==> fs == [Whole(userB64, bodyB64)]
  {
  }

  /** The chunked frames spelled out: the initiation frame, then one
      continuation frame per chunk. */
  lemma ChunkedShape(messageId: Str, userB64: Str, bodyB64: Str)
    requires !FitsWhole(userB64, bodyB64)
    ensures var n := ChunkCount(|bodyB64|);
            Frames(messageId, userB64, bodyB64) ==
              [Start(n, FragmentHash.Tag(messageId), userB64)]
              + Parts(FragmentHash.Tag(messageId), bodyB64, n)
  {
  }

  /** Lines 299-313: on the chunked path the initiation frame comes first
      with the chunk count N = ceil(|body| / 485) and the tag of the message
      id; it is followed by frames 1..N in increasing order, all with that
      tag; their chunks are non-empty and all but the last are 485 long. */
  lemma ChunkedFrames(messageId: Str, userB64: Str, bodyB64: Str)
    requires !FitsWhole(userB64, bodyB64)
    ensures |Frames(messageId, userB64, bodyB64)| == ChunkCount(|bodyB64|) + 1
    ensures Frames(messageId, userB64, bodyB64)[0] == Start(ChunkCount(|bodyB64|), FragmentHash.Tag(messageId), userB64)
    ensures forall k :: 1 <= k <= ChunkCount(|bodyB64|) ==>
              var f := Frames(messageId, userB64, bodyB64)[k];
              f.Part? && f.index == k && f.tag == FragmentHash.Tag(messageId) && f.chunk != []
              && (k < ChunkCount(|bodyB64|) ==> |f.chunk| == ChunkSize)
  {
    var fs := Frames(messageId, userB64, bodyB64);
    var n := ChunkCount(|bodyB64|);
    var tag := FragmentHash.Tag(messageId);
    var ps := Parts(tag, bodyB64, n);
    ChunkedShape(messageId, userB64, bodyB64);
    assert fs == [Start(n, tag, userB64)] + ps;
    forall k | 1 <= k <= n
      ensures fs[k] == Part(k, tag, Chunk(bodyB64, k)) && Chunk(bodyB64, k) != []
      ensures k < n ==> |Chunk(bodyB64, k)| == ChunkSize
    {
      assert fs[k] == ps[k - 1];
      ChunkBounds(bodyB64, k);
    }
  }

  /** The chunks of the continuation frames, joined in order, give back the
      encoded body exactly. */
  lemma ChunkedJoin(messageId: Str, userB64: Str, bodyB64: Str)
    requires !FitsWhole(userB64, bodyB64)
    ensures Join(Chunks(Frames(messageId, userB64, bodyB64))) == bodyB64
  {
    var n := ChunkCount(|bodyB64|);
    var cs := seq(n, k requires 0 <= k < n => Chunk(bodyB64, k + 1));
    ChunkedShape(messageId, userB64, bodyB64);
    ChunksOfParts(FragmentHash.Tag(messageId), userB64, bodyB64, n);
    JoinPrefix(bodyB64, n);
    CountCovers(|bodyB64|);
  }

  /** The continuation frames carry the chunks in order. */
  lemma ChunksOfParts(tag: Str, userB64: Str, bodyB64: Str, n: nat)
    ensures Chunks([Start(n, tag, userB64)] + Parts(tag, bodyB64, n))
            == seq(n, k requires 0 <= k < n => Chunk(bodyB64, k + 1))
  {
  }

  /** N chunks of 485 cover the body. */
  lemma CountCovers(len: nat)
    ensures ChunkCount(len) * ChunkSize >= len
  {
  }

  /** Chunk i of n is non-empty, and full unless it is the last. */
  lemma ChunkBounds(s: Str, i: nat)
    requires 1 <= i <= ChunkCount(|s|)
    ensures Chunk(s, i) != []
    ensures i < ChunkCount(|s|) ==> |Chunk(s, i)| == ChunkSize
  {
    assert (i - 1) * ChunkSize < |s|;
    if i < ChunkCount(|s|) {
      assert i * ChunkSize < |s|;
    }
  }

  /** The length of the rendered frames. The continuation frame spends three
      separators and the digits of its index beside its chunk, while line
      300 sets aside room for two separators only. */
  lemma FrameLengths(n: nat, i: nat, tag: Str, user: Str, chunk: Str, body: Str)
    requires |tag| == TagLength
    ensures |Render(Whole(user, body))| == |RelayCommand| + 2 + |user| + |body|
    ensures |Render(Start(n, tag, user))| == 18 + |Decimal(n)| + |user|
    ensures |Render(Part(i, tag, chunk))| == 16 + |Decimal(i)| + |chunk|
  {
  }

  /** Consequently a full continuation frame is longer than the 500-character
      ceiling that the single-frame test respects. */
  lemma FullPartExceedsCeiling(i: nat, tag: Str, chunk: Str)
    requires |tag| == TagLength && |chunk| == ChunkSize
    ensures |Render(Part(i, tag, chunk))| > Ceiling
  {
    FrameLengths(0, i, tag, [], chunk, []);
  }

  /** Whatever the RCON results, the frames go out in order: what is sent is
      a prefix of all the frames, all of them unless the initiation frame
      was answered with an error. */
  lemma SentIsPrefix(fs: seq<Frame>, firstResult: Str)
    ensures var sent := Sent(fs, firstResult);
            |sent| <= |fs| && sent == RenderAll(fs)[..|sent|]
    ensures fs != [] && fs[0].Start? && LooksLikeError(firstResult) ==> |Sent(fs, firstResult)| == 1
    ensures !(fs != [] && fs[0].Start? && LooksLikeError(firstResult)) ==> |Sent(fs, firstResult)| == |fs|
  {
  }

  /** The relay branch of the message handler (index.js:284-314), from the
      truncation of the message to the last command sent. `firstResult` is
      what the first `sendRCON` call resolves to; the results of the
      continuation frames are awaited and ignored. Returns the commands sent
      in order, whether the message was trimmed (the scissors reaction) and
      whether it was marked failed (the cross reaction). */
  method Relay(messageId: Str, username: Str, content: Str, max: nat, firstResult: Str)
    returns (sent: seq<Str>, trimmed: bool, failed: bool)
    ensures trimmed == (|content| > max)
    ensures failed == LooksLikeError(firstResult)
    ensures sent == Sent(Plan(messageId, username, content, max), firstResult)
  {
    var body := content;
    trimmed := false;
    if |body| > max {
      body := Substring(body, 0, max);
      trimmed := true;
    }
    assert body == Truncate(content, max);
    var userB64 := Base64.Utf8ToBase64(username);
    var bodyB64 := Base64.Utf8ToBase64(body);
    sent, failed := SendFrames(messageId, userB64, bodyB64, firstResult);
  }

  /** The commands of a message that fits in one frame. */
  lemma SentWhole(messageId: Str, userB64: Str, bodyB64: Str, firstResult: Str)
    requires FitsWhole(userB64, bodyB64)
    ensures Sent(Frames(messageId, userB64, bodyB64), firstResult) == [Render(Whole(userB64, bodyB64))]
  {
  }

  /** Rendering distributes over a leading frame. */
  lemma RenderAllCons(f: Frame, fs: seq<Frame>)
    ensures RenderAll([f] + fs) == [Render(f)] + RenderAll(fs)
  {
  }

  /** The commands of a chunked message: the initiation frame alone when
      it is refused, else every frame rendered in order. */
  lemma SentChunked(messageId: Str, userB64: Str, bodyB64: Str, firstResult: Str)
    requires !FitsWhole(userB64, bodyB64)
    ensures var n := ChunkCount(|bodyB64|);
            var tag := FragmentHash.Tag(messageId);
            Sent(Frames(messageId, userB64, bodyB64), firstResult) ==
              if LooksLikeError(firstResult) then [Render(Start(n, tag, userB64))]
              else [Render(Start(n, tag, userB64))] + RenderAll(Parts(tag, bodyB64, n))
  {
    var n := ChunkCount(|bodyB64|);
    var tag := FragmentHash.Tag(messageId);
    RenderAllCons(Start(n, tag, userB64), Parts(tag, bodyB64, n));
  }

  /** Lines 289-313 once the name and the body are encoded: one whole frame,
      or the initiation frame and then, unless it was refused, every
      continuation frame in order. */
  method SendFrames(messageId: Str, userB64: Str, bodyB64: Str, firstResult: Str)
    returns (sent: seq<Str>, failed: bool)
    ensures failed == LooksLikeError(firstResult)
    ensures sent == Sent(Frames(messageId, userB64, bodyB64), firstResult)
  {
    var messageHash := FragmentHash.GenerateHash(messageId);
    var startSize := |RelayCommand| + 2 + |userB64|;
    failed := LooksLikeError(firstResult);
    if |bodyB64| <= Ceiling - startSize {
      SentWhole(messageId, userB64, bodyB64, firstResult);
      var command := RelayCommand + Units(" ") + userB64 + Units(" ") + bodyB64;
      return [command], failed;
    }
    SentChunked(messageId, userB64, bodyB64, firstResult);
    var chunkSize := Ceiling - (|RelayCommand| + 2 + |messageHash|);
    var requestsAmount := (|bodyB64| + chunkSize - 1) / chunkSize;
    assert chunkSize == ChunkSize && requestsAmount == ChunkCount(|bodyB64|);
    var first := RelayCommand + Units(" 0 ") + Decimal(requestsAmount) + Units(" ") + messageHash + Units(" ") + userB64;
    if failed {
      return [first], failed;
    }
    var rest := SendParts(messageHash, bodyB64, requestsAmount, chunkSize);
    sent := [first] + rest;
  }

  /** The loop of lines 309-313: continuation frames 1..n, in order. */
  method SendParts(messageHash: Str, bodyB64: Str, requestsAmount: nat, chunkSize: nat) returns (sent: seq<Str>)
    requires chunkSize == ChunkSize
    ensures sent == RenderAll(Parts(messageHash, bodyB64, requestsAmount))
  {
    ghost var ps := Parts(messageHash, bodyB64, requestsAmount);
    sent := [];
    for i := 1 to requestsAmount + 1
      invariant |sent| == i - 1
      invariant forall k :: 0 <= k < i - 1 ==> sent[k] == Render(ps[k])
    {
      var chunk := Substring(bodyB64, (i - 1) * chunkSize, i * chunkSize);
      var command := RelayCommand + Units(" ") + Decimal(i) + Units(" ") + messageHash + Units(" ") + chunk;
      PartRendered(messageHash, bodyB64, requestsAmount, i);
      sent := sent + [command];
    }
  }

  /** Continuation frame i is the command line 311 builds. */
  lemma PartRendered(tag: Str, bodyB64: Str, n: nat, i: nat)
    requires 1 <= i <= n
    ensures Render(Parts(tag, bodyB64, n)[i - 1]) ==
            RelayCommand + Units(" ") + Decimal(i) + Units(" ") + tag + Units(" ")
            + Substring(bodyB64, (i - 1) * ChunkSize, i * ChunkSize)
  {
    var f := Parts(tag, bodyB64, n)[i - 1];
    assert f == Part(i, tag, Chunk(bodyB64, i));
  }
}
