/**
 * The Discord message handler (index.js:254-315). A message in a relay
 * channel either runs an RCON command on the channel's server (when it
 * starts with one of the command aliases and its author is allowed) or is
 * relayed to that server as `say_relay` frames.
 *
 * The value each `sendRCON` call resolves to is a parameter: `rconResult`
 * is the answer to the command, or to the first relay frame.
 */
module MessageRelay {
  import opened Wrappers
  import opened JsString
  import opened Routes
  import Fragment

  /** The fields of a Discord message the handler reads. */
  datatype Message = Message(
    id: Str,
    channelId: Str,
    authorId: Str,
    authorIsBot: bool,
    globalName: Str,   // the author's display name; "" when Discord gives none
    content: Str)

  /** What the handler does with one message. */
  datatype Handled =
    | Skipped                                        // one of the guards returns early
    | Denied                                         // an alias from an author not allowed: silently ignored
    | Command(to: Entry, command: Str, notice: Str, edit: Str)
    | Relayed(to: Entry, sent: seq<Str>, trimmed: bool, failed: bool)

  /** `rconAliases` (index.js:47), in the order they are tried. */
  function Aliases(prefix: Str): seq<Str> {
    [prefix + Units("rcon"), prefix + Units("command"), prefix + Units("c")]
  }

  /** The first alias, in list order, that the content starts with. */
  function FirstAlias(aliases: seq<Str>, content: Str): (r: Option<nat>)
    ensures r.Some? ==> r.value < |aliases| && StartsWith(content, aliases[r.value])
                        && forall k :: 0 <= k < r.value ==> !StartsWith(content, aliases[k])
    ensures r.None? ==> forall k :: 0 <= k < |aliases| ==> !StartsWith(content, aliases[k])
  {
    if aliases == [] then None
    else if StartsWith(content, aliases[0]) then Some(0)
    else match FirstAlias(aliases[1..], content)
      case None => None
      case Some(i) => Some(i + 1)
  }

  /** The command of index.js:269: what follows the alias, trimmed, with
      its first double quote turned into a single quote. */
  function CommandText(content: Str, alias: Str): Str {
    ReplaceFirst(Trim(Substring(content, |alias|, |content|)), Quote, Units("'"))
  }

  /** The reply posted before the command runs (index.js:270). */
  function Notice(command: Str): Str {
    Units("Executing command : ") + command
  }

  /** The text the reply is edited to once the command answers
      (index.js:272-276): a fixed line for an empty answer, else the first
      1993 code units of it in a code block. */
  function EditText(result: Str): Str {
    if result == [] then Units("Command executed but returned no results.")
    else Units("```") + Substring(result, 0, 1993) + Units("```")
  }

  /** The handler's effect on one message. */
  function Handle(t: Table, allowed: set<Str>, prefix: Str, max: nat, m: Message, rconResult: Str): Handled {
    match EndpointFor(t, m.channelId)
    case None => Skipped
    case Some(to) =>
      if m.authorIsBot then Skipped
      else match FirstAlias(Aliases(prefix), m.content)
        case Some(i) =>
          if m.authorId !in allowed then Denied
          else
            var command := CommandText(m.content, Aliases(prefix)[i]);
            Command(to, command, Notice(command), EditText(rconResult))
        case None =>
          if m.globalName == [] || m.authorId == [] || m.content == [] then Skipped
          else
            var plan := Fragment.Plan(m.id, m.globalName, m.content, max);
            Relayed(to, Fragment.Sent(plan, rconResult), |m.content| > max, LooksLikeError(rconResult))
  }

  /** `client.on(Events.MessageCreate, ...)`. */
  method OnMessage(t: Table, allowed: set<Str>, prefix: Str, max: nat, m: Message, rconResult: Str)
    returns (h: Handled)
    ensures h == Handle(t, allowed, prefix, max, m, rconResult)
  {
    if !(m.channelId in t && t[m.channelId].Endpoint? && t[m.channelId].ip != [] && t[m.channelId].port != 0)
       || m.authorIsBot {
      return Skipped;
    }
    var to := t[m.channelId];
    var content := m.content;
    var aliases := Aliases(prefix);
    var i := 0;
    while i < |aliases|
      invariant 0 <= i <= |aliases|
      invariant forall k :: 0 <= k < i ==> !StartsWith(content, aliases[k])
    {
      if StartsWith(content, aliases[i]) {
        if m.authorId !in allowed {
          return Denied;
        }
        var command := ReplaceFirst(Trim(Substring(content, |aliases[i]|, |content|)), Quote, Units("'"));
        var notice := Units("Executing command : ") + command;
        var edit: Str;
        if |rconResult| <= 0 {
          edit := Units("Command executed but returned no results.");
        } else {
          edit := Units("```") + Substring(rconResult, 0, 1993) + Units("```");
        }
        assert FirstAlias(aliases, content) == Some(i);
        return Command(to, command, notice, edit);
      }
      i := i + 1;
    }
    assert FirstAlias(aliases, content).None?;
    if m.globalName == [] || m.authorId == [] || content == [] {
      return Skipped;
    }
    var sent, trimmed, failed := Fragment.Relay(m.id, m.globalName, content, max, rconResult);
    return Relayed(to, sent, trimmed, failed);
  }

  /** A command runs exactly when the channel is bound to a server, the
      author is a human on the allow-list, and the message starts with an
      alias; it is then the text after the first matching alias, with its
      notice and the edit for the answer. An alias from anyone else is
      denied. */
  lemma CommandsNeedAllowList(t: Table, allowed: set<Str>, prefix: Str, max: nat, m: Message, rconResult: Str)
    ensures Handle(t, allowed, prefix, max, m, rconResult).Command? <==>
              && EndpointFor(t, m.channelId).Some? && !m.authorIsBot
              && FirstAlias(Aliases(prefix), m.content).Some? && m.authorId in allowed
    ensures Handle(t, allowed, prefix, max, m, rconResult).Denied? <==>
              && EndpointFor(t, m.channelId).Some? && !m.authorIsBot
              && FirstAlias(Aliases(prefix), m.content).Some? && m.authorId !in allowed
    ensures var h := Handle(t, allowed, prefix, max, m, rconResult);
            h.Command? ==>
              && EndpointFor(t, m.channelId).Some? && FirstAlias(Aliases(prefix), m.content).Some?
              && var command := CommandText(m.content, Aliases(prefix)[FirstAlias(Aliases(prefix), m.content).value]);
                 h == Command(EndpointFor(t, m.channelId).value, command, Notice(command), EditText(rconResult))
    ensures Handle(t, allowed, prefix, max, m, rconResult).Command? ==>
              exists k :: 0 <= k < 3 && StartsWith(m.content, Aliases(prefix)[k])
  {
  }

  /** A message that starts with an alias is never relayed as chat, whoever
      sent it. */
  lemma AliasNeverRelayed(t: Table, allowed: set<Str>, prefix: Str, max: nat, m: Message, rconResult: Str, k: nat)
    requires k < 3 && StartsWith(m.content, Aliases(prefix)[k])
    ensures !Handle(t, allowed, prefix, max, m, rconResult).Relayed?
    ensures m.authorId !in allowed ==> Handle(t, allowed, prefix, max, m, rconResult) in {Skipped, Denied}
  {
  }

  /** The command runs what follows the first matching alias: the text
      after it, trimmed, with its first double quote made a single quote;
      the notice repeats it. */
  lemma CommandIsAliasTail(t: Table, allowed: set<Str>, prefix: Str, max: nat, m: Message, rconResult: Str)
    requires Handle(t, allowed, prefix, max, m, rconResult).Command?
    ensures var h := Handle(t, allowed, prefix, max, m, rconResult);
            exists k :: 0 <= k < 3 && StartsWith(m.content, Aliases(prefix)[k])
                        && (forall j :: 0 <= j < k ==> !StartsWith(m.content, Aliases(prefix)[j]))
                        && h.command == CommandText(m.content, Aliases(prefix)[k])
    ensures var h := Handle(t, allowed, prefix, max, m, rconResult);
            h.notice == Units("Executing command : ") + h.command
  {
    var i := FirstAlias(Aliases(prefix), m.content).value;
    assert i < 3;
  }

  /** "command" is tried before "c", which is a prefix of it: a message
      starting with the long alias runs what follows the long alias. */
  lemma LongAliasFirst(t: Table, allowed: set<Str>, prefix: Str, max: nat, m: Message, rconResult: Str)
    requires StartsWith(m.content, prefix + Units("command"))
    requires Handle(t, allowed, prefix, max, m, rconResult).Command?
    ensures Handle(t, allowed, prefix, max, m, rconResult).command == CommandText(m.content, prefix + Units("command"))
  {
    var a := Aliases(prefix);
    assert a[1] == prefix + Units("command");
    assert m.content[|prefix|] == a[1][|prefix|] == Unit('c');
    assert a[0][|prefix|] == Unit('r');
    assert !StartsWith(m.content, a[0]);
  }

  /** The command is as long as the trimmed text after the alias, carries
      no surrounding white space, and is that text itself when it holds no
      double quote. */
  lemma CommandShape(content: Str, alias: Str)
    ensures var c := CommandText(content, alias);
            && |c| == |Trim(Substring(content, |alias|, |content|))|
            && (c != [] ==> !IsWhiteSpace(c[0]) && !IsWhiteSpace(c[|c| - 1]))
            && (Quote !in Trim(Substring(content, |alias|, |content|)) ==> c == Trim(Substring(content, |alias|, |content|)))
  {
    QuoteSwapShape(Trim(Substring(content, |alias|, |content|)));
  }

  /** Swapping the first double quote for a single quote keeps the length
      and keeps the ends non-blank. */
  lemma QuoteSwapShape(s: Str)
    ensures var c := ReplaceFirst(s, Quote, Units("'"));
            && |c| == |s|
            && (s != [] && !IsWhiteSpace(s[0]) && !IsWhiteSpace(s[|s| - 1]) ==>
                  !IsWhiteSpace(c[0]) && !IsWhiteSpace(c[|c| - 1]))
  {
    var k := IndexOf(s, Quote);
    if k < |s| {
      var u := Units("'");
      assert u == [Unit('\'')];
      var c := s[..k] + u + s[k + 1..];
      assert c == ReplaceFirst(s, Quote, u);
      assert c[0] == if k == 0 then Unit('\'') else s[0];
      assert c[|c| - 1] == if k == |s| - 1 then Unit('\'') else s[|s| - 1];
    }
  }

  /** The edited reply fits in a Discord message (at most 1999 code units),
      says "no results" exactly for an empty answer, and shows an answer of
      at most 1993 code units in full. */
  lemma EditFits(result: Str)
    ensures |EditText(result)| <= 1999
    ensures result == [] <==> EditText(result) == Units("Command executed but returned no results.")
    ensures 0 < |result| <= 1993 ==> EditText(result) == Units("```") + result + Units("```")
    ensures |result| > 1993 ==> EditText(result) == Units("```") + result[..1993] + Units("```")
  {
    if result != [] {
      assert EditText(result)[0] == '`' as int;
      var noResults := "Command executed but returned no results.";
      assert noResults[0] == 'C';
      assert Units(noResults)[0] == Unit('C');
    }
  }

  /** A relayed message comes from a named, human author, does not start
      with an alias, and its frames are the relay plan of its content,
      cut short after the first frame when that frame is refused. */
  lemma RelayedIsPlan(t: Table, allowed: set<Str>, prefix: Str, max: nat, m: Message, rconResult: Str)
    requires Handle(t, allowed, prefix, max, m, rconResult).Relayed?
    ensures !m.authorIsBot && m.globalName != [] && m.authorId != [] && m.content != []
    ensures forall k :: 0 <= k < 3 ==> !StartsWith(m.content, Aliases(prefix)[k])
    ensures var h := Handle(t, allowed, prefix, max, m, rconResult);
            && h.trimmed == (|m.content| > max)
            && h.sent == Fragment.Sent(Fragment.Plan(m.id, m.globalName, m.content, max), rconResult)
            && 1 <= |h.sent| <= |Fragment.Plan(m.id, m.globalName, m.content, max)|
  {
    Fragment.SentIsPrefix(Fragment.Plan(m.id, m.globalName, m.content, max), rconResult);
  }

  /** A message is relayed exactly when its channel is bound to a server,
      its author is a named human with an id, it is not empty and it starts
      with no alias; the relay goes to that server with the plan's frames. */
  lemma RelayedExactly(t: Table, allowed: set<Str>, prefix: Str, max: nat, m: Message, rconResult: Str)
    ensures Handle(t, allowed, prefix, max, m, rconResult).Relayed? <==>
              && EndpointFor(t, m.channelId).Some? && !m.authorIsBot
              && FirstAlias(Aliases(prefix), m.content).None?
              && m.globalName != [] && m.authorId != [] && m.content != []
    ensures var h := Handle(t, allowed, prefix, max, m, rconResult);
            h.Relayed? ==>
              && EndpointFor(t, m.channelId).Some?
              && h == Relayed(EndpointFor(t, m.channelId).value,
                              Fragment.Sent(Fragment.Plan(m.id, m.globalName, m.content, max), rconResult),
                              |m.content| > max, LooksLikeError(rconResult))
  {
  }

  /** A command or a relay goes to the endpoint bound to the message's
      channel. */
  lemma HandledGoesToEndpoint(t: Table, allowed: set<Str>, prefix: Str, max: nat, m: Message, rconResult: Str)
    ensures var h := Handle(t, allowed, prefix, max, m, rconResult);
            (h.Command? || h.Relayed?) ==> EndpointFor(t, m.channelId) == Some(h.to)
  {
  }

  /** With a consistent configuration, a message in server j's relay
      channel reaches server j and no other. */
  lemma MessageGoesToOwnServer(servers: seq<Server>, j: nat, allowed: set<Str>, prefix: Str, max: nat,
                               m: Message, rconResult: Str)
    requires j < |servers| && m.channelId == servers[j].relayChannel
    requires forall a, b :: 0 <= a < b < |servers| ==>
               AddressKey(servers[a].ip, servers[a].port) != AddressKey(servers[b].ip, servers[b].port)
               && servers[a].relayChannel != servers[b].relayChannel
    requires forall a, b :: 0 <= a < |servers| && 0 <= b < |servers| ==>
               servers[a].relayChannel != AddressKey(servers[b].ip, servers[b].port)
    ensures var h := Handle(TableOf(servers), allowed, prefix, max, m, rconResult);
            var s := servers[j];
            (h.Command? || h.Relayed?) ==> h.to == Endpoint(s.ip, s.port, s.password)
  {
    Bijective(servers, j);
    HandledGoesToEndpoint(TableOf(servers), allowed, prefix, max, m, rconResult);
  }
}
