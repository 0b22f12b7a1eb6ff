/**
 * The lookup tables built at start-up (index.js:33-44): the allow-list of
 * Discord users who may run RCON commands, and `serverChannelIDs`, ONE
 * dictionary holding both directions of the server/channel binding:
 * "ip:port" -> relay channel id and relay channel id -> {ip, port, password}.
 * Servers are inserted in configuration order, so a later server overwrites
 * the keys of an earlier one.
 */
module Routes {
  import opened Wrappers
  import opened JsString

  /** One entry of the configured servers (`publicip` is not used here). */
  datatype Server = Server(ip: Str, port: nat, password: Str, relayChannel: Str)

  /** A value of `serverChannelIDs`. */
  datatype Entry =
    | Channel(id: Str)                              // under an "ip:port" key
    | Endpoint(ip: Str, port: nat, password: Str)   // under a channel-id key

  type Table = map<Str, Entry>

  /** `ip + ':' + port`, the key the log receiver is looked up by. */
  function AddressKey(ip: Str, port: nat): Str {
    ip + Units(":") + Decimal(port)
  }

  /** The two insertions one server makes (index.js:41-43), in order. */
  function AddServer(t: Table, s: Server): Table {
    t[AddressKey(s.ip, s.port) := Channel(s.relayChannel)][s.relayChannel := Endpoint(s.ip, s.port, s.password)]
  }

  /** The table after inserting every server in order. */
  function TableOf(servers: seq<Server>): Table {
    if servers == [] then map[] else AddServer(TableOf(servers[..|servers| - 1]), servers[|servers| - 1])
  }

  /** The loop of index.js:39-44. */
  method BuildRoutes(servers: seq<Server>) returns (table: Table)
    ensures table == TableOf(servers)
  {
    table := map[];
    for i := 0 to |servers|
      invariant table == TableOf(servers[..i])
    {
      assert servers[..i + 1][..i] == servers[..i];
      var s := servers[i];
      var ipAndPort := s.ip + Units(":") + Decimal(s.port);
      table := table[ipAndPort := Channel(s.relayChannel)];
      table := table[s.relayChannel := Endpoint(s.ip, s.port, s.password)];
    }
    assert servers[..|servers|] == servers;
  }

  /** Whether a server inserts the given key. */
  predicate Writes(s: Server, key: Str) {
    key == AddressKey(s.ip, s.port) || key == s.relayChannel
  }

  /** The keys of the table are exactly the keys some server writes. */
  lemma {:induction false} TableKeys(servers: seq<Server>, key: Str)
    ensures key in TableOf(servers) <==> exists k :: 0 <= k < |servers| && Writes(servers[k], key)
  {
    if servers != [] {
      var init := servers[..|servers| - 1];
      TableKeys(init, key);
      if exists k :: 0 <= k < |init| && Writes(init[k], key) {
        var k :| 0 <= k < |init| && Writes(init[k], key);
        assert Writes(servers[k], key);
      }
      if exists k :: 0 <= k < |servers| && Writes(servers[k], key) {
        var k :| 0 <= k < |servers| && Writes(servers[k], key);
        if k < |init| {
          assert Writes(init[k], key);
        }
      }
    }
  }

  /** Last writer wins: the value under a key is the one written by the
      last server that writes it, and within one server the channel entry
      is written after the address entry. */
  lemma {:induction false} LastWriterWins(servers: seq<Server>, j: nat, key: Str)
    requires j < |servers| && Writes(servers[j], key)
    requires forall k :: j < k < |servers| ==> !Writes(servers[k], key)
    ensures key in TableOf(servers)
    ensures var s := servers[j];
            TableOf(servers)[key] ==
              if key == s.relayChannel then Endpoint(s.ip, s.port, s.password) else Channel(s.relayChannel)
  {
    var init := servers[..|servers| - 1];
    if j < |servers| - 1 {
      forall k | j < k < |init| ensures !Writes(init[k], key) {
        assert init[k] == servers[k];
      }
      LastWriterWins(init, j, key);
    }
  }

  /** With distinct addresses and channels, none equal to an address, the
      table is a two-way binding: each server's address leads to its channel
      and its channel to its endpoint. */
  lemma Bijective(servers: seq<Server>, j: nat)
    requires j < |servers|
    requires forall a, b :: 0 <= a < b < |servers| ==>
               AddressKey(servers[a].ip, servers[a].port) != AddressKey(servers[b].ip, servers[b].port)
               && servers[a].relayChannel != servers[b].relayChannel
    requires forall a, b :: 0 <= a < |servers| && 0 <= b < |servers| ==>
               servers[a].relayChannel != AddressKey(servers[b].ip, servers[b].port)
    ensures var s := servers[j];
            && AddressKey(s.ip, s.port) in TableOf(servers)
            && TableOf(servers)[AddressKey(s.ip, s.port)] == Channel(s.relayChannel)
            && s.relayChannel in TableOf(servers)
            && TableOf(servers)[s.relayChannel] == Endpoint(s.ip, s.port, s.password)
    ensures var s := servers[j];
            s.relayChannel != [] ==> ChannelFor(TableOf(servers), AddressKey(s.ip, s.port)) == Some(s.relayChannel)
    ensures var s := servers[j];
            s.ip != [] && s.port != 0 ==>
              EndpointFor(TableOf(servers), s.relayChannel) == Some(Endpoint(s.ip, s.port, s.password))
  {
    var s := servers[j];
    forall k | j < k < |servers|
      ensures !Writes(servers[k], AddressKey(s.ip, s.port)) && !Writes(servers[k], s.relayChannel)
    {
      assert servers[k].relayChannel != AddressKey(s.ip, s.port);
      assert s.relayChannel != AddressKey(servers[k].ip, servers[k].port);
    }
    LastWriterWins(servers, j, AddressKey(s.ip, s.port));
    LastWriterWins(servers, j, s.relayChannel);
  }

  /** The channel a log line's sender is relayed to (index.js:194-197): the
      value under "ip:port" must be a non-empty channel id. */
  function ChannelFor(t: Table, ipAndPort: Str): (r: Option<Str>)
    ensures r.Some? ==> ipAndPort in t && t[ipAndPort] == Channel(r.value) && r.value != []
  {
    if ipAndPort in t && t[ipAndPort].Channel? && t[ipAndPort].id != [] then Some(t[ipAndPort].id) else None
  }

  /** The server a channel's messages go to (index.js:255): the value under
      the channel id must be an endpoint with a non-empty ip and a non-zero
      port. */
  function EndpointFor(t: Table, channelId: Str): (r: Option<Entry>)
    ensures r.Some? ==> channelId in t && t[channelId] == r.value && r.value.Endpoint?
                        && r.value.ip != [] && r.value.port != 0
  {
    if channelId in t && t[channelId].Endpoint? && t[channelId].ip != [] && t[channelId].port != 0
    then Some(t[channelId]) else None
  }

  /** The loop of index.js:33-36: the users allowed to run commands. */
  method BuildAllowList(ids: seq<Str>) returns (allowed: set<Str>)
    ensures forall u :: u in allowed <==> u in ids
  {
    allowed := {};
    for i := 0 to |ids|
      invariant forall u :: u in allowed <==> u in ids[..i]
    {
      assert ids[..i + 1] == ids[..i] + [ids[i]];
      allowed := allowed + {ids[i]};
    }
    assert ids[..|ids|] == ids;
  }
}
