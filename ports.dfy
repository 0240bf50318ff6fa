/**
 * Server ports (PortManager): the map from port numbers to the ports the plugin keeps
 * open, the `ports.open` section it is saved in, and the commands and passes over it.
 */
module Ports {
  import opened Wrappers
  import opened JavaText
  import opened Collections
  import opened Config
  import opened Gateway

  /** What the plugin knows about an open port. */
  datatype PortInfo = PortInfo(port: int, protocol: string, description: string, ruleName: string)

  /** A `ports.open.<key>` entry; a missing field reads as `None`. */
  datatype PortEntry = PortEntry(port: Option<int>, protocol: Option<string>, description: Option<string>)

  datatype PortReply = Opened | FailedToOpen | Closed | NotOpened | InvalidNumber | InvalidRange | InvalidProtocol

  /** The port numbers a command or the loader accepts. */
  predicate InRange(port: int) {
    1 <= port <= 65535
  }

  /** The invariant of openPorts: every key is a port in range, stored under its own number. */
  predicate PortsValid(m: map<int, PortInfo>) {
    forall p :: p in m ==> InRange(p) && m[p].port == p
  }

  // ---------------------------------------------------------------------------
  // Loading `ports.open`

  /** The port an entry names: getInt gives 0 for a missing port and wraps a stored number to 32 bits. */
  function EntryPort(e: PortEntry): (p: int)
    ensures IsInt32(p)
    ensures e.port.Some? && IsInt32(e.port.value) ==> p == e.port.value
  {
    ToInt32(e.port.GetOr(0))
  }

  /** What an entry loads as, with the defaults "TCP" and "Minecraft Server"; nothing for a port out of range. */
  function EntryInfo(item: Item<PortEntry>): (r: Option<PortInfo>)
    ensures r.Some? <==> InRange(EntryPort(item.entry))
    ensures r.Some? ==> r.value.port == EntryPort(item.entry) && r.value.ruleName == item.key
  {
    var port := EntryPort(item.entry);
    if InRange(port) then
      Some(PortInfo(port, item.entry.protocol.GetOr("TCP"), item.entry.description.GetOr("Minecraft Server"), item.key))
    else None
  }

  /**
   * getInt wraps a stored number to 32 bits: an entry holding 4294967297 loads as port 1,
   * and closePort(1) deletes it.
   */
  lemma WrappedPortLoads(key: string)
    ensures var e := PortEntry(Some(0x1_0000_0001), None, None);
            EntryPort(e) == 1 &&
            EntryInfo(Item(key, e)) == Some(PortInfo(1, "TCP", "Minecraft Server", key)) &&
            DeleteFirstWithPort([Item(key, e)], 1) == []
  {
    ToInt32Wraps();
  }

  /** loadPortSettings: the entries put into an empty map in key order, so a later entry for a port replaces an earlier one. */
  function LoadedPorts(config: Section<PortEntry>): (m: map<int, PortInfo>)
    ensures PortsValid(m)
  {
    if config == [] then map[]
    else
      var prior := LoadedPorts(config[..|config| - 1]);
      var info := EntryInfo(config[|config| - 1]);
      if info.Some? then prior[info.value.port := info.value] else prior
  }

  /** A port is loaded exactly when some entry names it in range. */
  lemma {:induction false} LoadedKeys(config: Section<PortEntry>, p: int)
    ensures p in LoadedPorts(config) <==> exists k :: 0 <= k < |config| && InRange(EntryPort(config[k].entry)) && EntryPort(config[k].entry) == p
  {
    if config != [] {
      var init := config[..|config| - 1];
      LoadedKeys(init, p);
      assert forall k :: 0 <= k < |init| ==> init[k] == config[k];
    }
  }

  /** The last entry naming a port is the one loaded for it. */
  lemma {:induction false} LoadLastWins(config: Section<PortEntry>, k: int)
    requires 0 <= k < |config| && InRange(EntryPort(config[k].entry))
    requires forall j :: k < j < |config| ==> EntryPort(config[j].entry) != EntryPort(config[k].entry)
    ensures EntryPort(config[k].entry) in LoadedPorts(config)
    ensures LoadedPorts(config)[EntryPort(config[k].entry)] == EntryInfo(config[k]).value
  {
    var init := config[..|config| - 1];
    if k < |config| - 1 {
      assert forall j :: k < j < |init| ==> init[j] == config[j];
      LoadLastWins(init, k);
      assert init[k] == config[k];
    }
  }

  /** openPort writes the port, the upper-case protocol and the description. */
  function EntryOf(info: PortInfo): PortEntry {
    PortEntry(Some(info.port), Some(info.protocol), Some(info.description))
  }

  /**
   * A port saved under a new key loads back with the same port, protocol and description;
   * its name becomes the key ("port_" + time) rather than the "cmd_" name it was opened under.
   */
  lemma SaveThenLoad(config: Section<PortEntry>, key: string, info: PortInfo)
    requires !HasKey(config, key) && InRange(info.port)
    ensures LoadedPorts(Put(config, key, EntryOf(info))) ==
            LoadedPorts(config)[info.port := PortInfo(info.port, info.protocol, info.description, key)]
  {
    PutNewKeyAppends(config, key, EntryOf(info));
    var config' := config + [Item(key, EntryOf(info))];
    assert config'[..|config'| - 1] == config;
  }

  /** closePort's config loop: the first entry whose port is `port` is deleted. */
  function DeleteFirstWithPort(entries: Section<PortEntry>, port: int): (r: Section<PortEntry>)
    ensures |r| <= |entries|
  {
    if entries == [] then []
    else if EntryPort(entries[0].entry) == port then entries[1..]
    else [entries[0]] + DeleteFirstWithPort(entries[1..], port)
  }

  lemma {:induction false} DeleteFirstWithPortAt(entries: Section<PortEntry>, port: int, k: int)
    requires 0 <= k <= |entries|
    requires forall j :: 0 <= j < k ==> EntryPort(entries[j].entry) != port
    requires k < |entries| ==> EntryPort(entries[k].entry) == port
    ensures DeleteFirstWithPort(entries, port) == if k < |entries| then entries[..k] + entries[k + 1..] else entries
  {
    if k > 0 {
      var tail := entries[1..];
      assert EntryPort(entries[0].entry) != port;
      assert DeleteFirstWithPort(entries, port) == [entries[0]] + DeleteFirstWithPort(tail, port);
      assert forall j :: 0 <= j < k - 1 ==> tail[j] == entries[j + 1];
      DeleteFirstWithPortAt(tail, port, k - 1);
      if k < |entries| {
        DropAtCons(entries, k);
      } else {
        assert entries == [entries[0]] + tail;
      }
    } else if k < |entries| {
      assert entries[..0] + entries[1..] == entries[1..];
    }
  }

  /**
   * closePort deletes only the first entry for the port: when two entries name it (opening
   * an already open port saves a second one), the port is loaded again on the next reload.
   */
  lemma CloseLeavesLaterDuplicate(entries: Section<PortEntry>, port: int, i: int, j: int)
    requires 0 <= i < j < |entries| && InRange(port)
    requires EntryPort(entries[i].entry) == port && EntryPort(entries[j].entry) == port
    ensures port in LoadedPorts(DeleteFirstWithPort(entries, port))
  {
    var k := FirstPortIndex(entries, port);
    DeleteFirstWithPortAt(entries, port, k);
    var rest := DeleteFirstWithPort(entries, port);
    assert k <= i;
    DropAtShifts(entries, k, j);
    assert rest[j - 1] == entries[j];
    LoadedKeys(rest, port);
  }

  /** The index of the first entry naming `port`, or the length when there is none. */
  function FirstPortIndex(entries: Section<PortEntry>, port: int): (k: nat)
    ensures k <= |entries|
    ensures forall j :: 0 <= j < k ==> EntryPort(entries[j].entry) != port
    ensures k < |entries| ==> EntryPort(entries[k].entry) == port
  {
    if entries == [] then 0
    else if EntryPort(entries[0].entry) == port then 0
    else
      var k := FirstPortIndex(entries[1..], port);
      assert forall j :: 1 <= j < k + 1 ==> entries[j] == entries[1..][j - 1];
      1 + k
  }

  // ---------------------------------------------------------------------------
  // The checks of openPort

  datatype Request = Rejected(reply: PortReply) | Accepted(info: PortInfo)

  /**
   * openPort's checks, in order: the port must parse and lie in 1..65535, the protocol
   * must be TCP or UDP ignoring case; the port is opened as "cmd_" + the time, with the
   * protocol upper-cased.
   */
  function OpenRequest(portStr: string, protocol: string, description: string, ruleStamp: string): (r: Request)
    ensures r.Accepted? <==> ParseInt(portStr).Some? && InRange(ParseInt(portStr).value) &&
                             (EqualsIgnoreCase("TCP", protocol) || EqualsIgnoreCase("UDP", protocol))
    ensures r.Accepted? ==> r.info.port == ParseInt(portStr).value && (r.info.protocol == "TCP" || r.info.protocol == "UDP") &&
                            r.info.description == description && r.info.ruleName == "cmd_" + ruleStamp
    ensures r.Rejected? ==> r.reply == (if ParseInt(portStr).None? then InvalidNumber
                                        else if !InRange(ParseInt(portStr).value) then InvalidRange
                                        else InvalidProtocol)
  {
    var port := ParseInt(portStr);
    if port.None? then Rejected(InvalidNumber)
    else if port.value < 1 || port.value > 65535 then Rejected(InvalidRange)
    else if !EqualsIgnoreCase("TCP", protocol) && !EqualsIgnoreCase("UDP", protocol) then Rejected(InvalidProtocol)
    else
      UpperProtocol(protocol);
      Accepted(PortInfo(port.value, ToUpper(protocol), description, "cmd_" + ruleStamp))
  }


  /**
   * manageServerPorts hands the server port to openPort as text; the text parses back, so
   * the request is accepted exactly when the server port is in 1..65535.
   */
  lemma ServerPortRequest(serverPort: int, description: string, ruleStamp: string)
    requires IsInt32(serverPort)
    ensures OpenRequest(IntToString(serverPort), "TCP", description, ruleStamp) ==
            if InRange(serverPort) then Accepted(PortInfo(serverPort, "TCP", description, "cmd_" + ruleStamp))
            else Rejected(InvalidRange)
  {
    ParseIntValueOf(serverPort);
  }

  // ---------------------------------------------------------------------------
  // The manager

  class PortManager {
    /** openPorts. */
    var openPorts: map<int, PortInfo>
    /** The `ports.open` section of the plugin configuration. */
    var config: Section<PortEntry>

    ghost predicate Valid()
      reads this
    {
      PortsValid(openPorts) && KeysDistinct(config)
    }

    constructor (config: Section<PortEntry>)
      requires KeysDistinct(config)
      ensures Valid()
      ensures openPorts == map[] && this.config == config
    {
      openPorts := map[];
      this.config := config;
    }

    /** getOpenPortCount: the number of ports open, never more than there are port numbers. */
    function OpenPortCount(): (n: nat)
      reads this
      requires Valid()
      ensures n == |openPorts.Keys| && n <= 65535
    {
      var keys := openPorts.Keys;
      assert keys <= IntRange(1, 65535);
      SubsetCardinality(keys, IntRange(1, 65535));
      |openPorts|
    }

    /** loadPortSettings. */
    method LoadPortSettings()
      requires Valid()
      modifies this
      ensures Valid()
      ensures openPorts == LoadedPorts(config) && config == old(config)
    {
      openPorts := map[];
      var i := 0;
      while i < |config|
        invariant 0 <= i <= |config|
        invariant openPorts == LoadedPorts(config[..i]) && config == old(config)
      {
        var item := config[i];
        assert config[..i + 1][..i] == config[..i];
        var port := ToInt32(item.entry.port.GetOr(0));
        if port >= 1 && port <= 65535 {
          openPorts := openPorts[port := PortInfo(port, item.entry.protocol.GetOr("TCP"), item.entry.description.GetOr("Minecraft Server"), item.key)];
        }
        i := i + 1;
      }
      assert config[..|config|] == config;
    }

    /**
     * openPort: a port that passes the checks and can be opened is put into the map (over
     * any earlier entry for it) and saved under "port_" + the time.
     */
    method OpenPort(portStr: string, protocol: string, description: string, ruleStamp: string, keyStamp: string, env: Env)
      returns (reply: PortReply, calls: seq<Call>)
      requires Valid()
      modifies this
      ensures Valid()
      ensures var req := OpenRequest(portStr, protocol, description, ruleStamp);
              req.Rejected? ==> reply == req.reply && calls == [] && openPorts == old(openPorts) && config == old(config)
      ensures var req := OpenRequest(portStr, protocol, description, ruleStamp);
              req.Accepted? ==>
                var done := OpenPortInternally(req.info.port, req.info.protocol, description, env);
                calls == done.calls &&
                (done.succeeded ==> reply == Opened && openPorts == old(openPorts)[req.info.port := req.info] &&
                                    config == Put(old(config), "port_" + keyStamp, EntryOf(req.info))) &&
                (!done.succeeded ==> reply == FailedToOpen && openPorts == old(openPorts) && config == old(config))
    {
      var req := OpenRequest(portStr, protocol, description, ruleStamp);
      if req.Rejected? {
        return req.reply, [];
      }
      var info := req.info;
      var done := OpenPortInternally(info.port, info.protocol, info.description, env);
      calls := done.calls;
      if done.succeeded {
        openPorts := openPorts[info.port := info];
        PutThenGet(config, "port_" + keyStamp, EntryOf(info), "");
        config := Put(config, "port_" + keyStamp, EntryOf(info));
        reply := Opened;
      } else {
        reply := FailedToOpen;
      }
    }

    /** closePort: the gateway is asked to close, the first entry for the port deleted, the port removed. */
    method ClosePort(portStr: string, env: Env) returns (reply: PortReply, calls: seq<Call>)
      requires Valid()
      modifies this
      ensures Valid()
      ensures ParseInt(portStr).None? ==> reply == InvalidNumber && calls == [] && openPorts == old(openPorts) && config == old(config)
      ensures ParseInt(portStr).Some? && ParseInt(portStr).value !in old(openPorts) ==>
                reply == NotOpened && calls == [] && openPorts == old(openPorts) && config == old(config)
      ensures ParseInt(portStr).Some? && ParseInt(portStr).value in old(openPorts) ==>
                var port := ParseInt(portStr).value;
                reply == Closed && calls == (if env.available then [CloseCall(port)] else []) &&
                openPorts == old(openPorts) - {port} && config == DeleteFirstWithPort(old(config), port)
    {
      var parsed := ParseInt(portStr);
      if parsed.None? {
        return InvalidNumber, [];
      }
      var port := parsed.value;
      if port !in openPorts {
        return NotOpened, [];
      }
      calls := if env.available then [CloseCall(port)] else [];
      var i := 0;
      while i < |config| && EntryPort(config[i].entry) != port
        invariant 0 <= i <= |config|
        invariant forall j :: 0 <= j < i ==> EntryPort(config[j].entry) != port
      {
        i := i + 1;
      }
      DeleteFirstWithPortAt(config, port, i);
      if i < |config| {
        DeleteAtKeepsDistinct(config, i);
        config := config[..i] + config[i + 1..];
      }
      openPorts := openPorts - {port};
      reply := Closed;
    }

    /**
     * closeAllPorts: every port is closed at the gateway, once each, and the map emptied;
     * the saved entries stay, so the next load opens them all again.
     */
    method CloseAllPorts(env: Env) returns (calls: seq<Call>)
      requires Valid()
      modifies this
      ensures Valid()
      ensures forall c :: c in calls <==> env.available && c.CloseCall? && c.port in old(openPorts)
      ensures |calls| == if env.available then |old(openPorts)| else 0
      ensures openPorts == map[] && config == old(config)
    {
      calls := [];
      var remaining := openPorts.Keys;
      ghost var done: set<int> := {};
      while remaining != {}
        invariant openPorts == old(openPorts) && config == old(config)
        invariant remaining + done == openPorts.Keys && remaining !! done
        invariant forall c :: c in calls <==> env.available && c.CloseCall? && c.port in done
        invariant |calls| == if env.available then |done| else 0
        decreases remaining
      {
        NonEmptyHasMember(remaining);
        var port :| port in remaining;
        if env.available {
          calls := calls + [CloseCall(port)];
        }
        remaining := remaining - {port};
        done := done + {port};
      }
      openPorts := map[];
    }

    /**
     * manageServerPorts: with `auto-port-management.open-server-port` (true when missing) the
     * server port, unless something listens on it, goes through openPort; then every port of
     * the map that nothing listens on is opened again. A server port outside 0..65535 makes
     * InetSocketAddress throw, which ends the pass before anything happens.
     */
    method ManageServerPorts(openServerPort: Option<bool>, serverPort: int, defaultDescription: string,
                             ruleStamp: string, keyStamp: string, env: Env)
      returns (calls: seq<Call>, aborted: bool)
      requires Valid() && IsInt32(serverPort)
      modifies this
      ensures Valid()
      ensures aborted <==> openServerPort.GetOr(true) && !SocketPort(serverPort)
      ensures aborted ==> calls == [] && openPorts == old(openPorts) && config == old(config)
      ensures var done := OpenPortInternally(serverPort, "TCP", defaultDescription, env);
              var info := ServerPortInfo(serverPort, defaultDescription, ruleStamp);
              OpensServerPort(openServerPort, serverPort, env) && done.succeeded ==>
                openPorts == old(openPorts)[serverPort := info] &&
                config == Put(old(config), "port_" + keyStamp, EntryOf(info))
      ensures var done := OpenPortInternally(serverPort, "TCP", defaultDescription, env);
              !(OpensServerPort(openServerPort, serverPort, env) && done.succeeded) ==>
                openPorts == old(openPorts) && config == old(config)
      ensures var first := ServerPortCalls(openServerPort, serverPort, defaultDescription, env);
              !aborted ==>
                |first| <= |calls| && calls[..|first|] == first &&
                Reopened(openPorts, openPorts.Keys, calls[|first|..], env)
      ensures calls != [] ==> env.available
    {
      calls := [];
      aborted := false;
      if openServerPort.GetOr(true) {
        if !SocketPort(serverPort) {
          return [], true;
        }
        if serverPort !in env.listening {
          ServerPortRequest(serverPort, defaultDescription, ruleStamp);
          var reply;
          reply, calls := OpenPort(IntToString(serverPort), "TCP", defaultDescription, ruleStamp, keyStamp, env);
        }
      }
      ghost var first := calls;
      assert first == ServerPortCalls(openServerPort, serverPort, defaultDescription, env);
      var reopened := ReopenPorts(env);
      calls := calls + reopened;
      assert calls[..|first|] == first && calls[|first|..] == reopened;
    }

    /**
     * The second half of manageServerPorts: every port of the map that nothing listens on
     * goes to the gateway again, once, with the protocol and description it was opened with.
     */
    method ReopenPorts(env: Env) returns (calls: seq<Call>)
      ensures calls != [] ==> env.available
      ensures env.available ==> forall p :: p in openPorts && p !in env.listening ==> Reopen(openPorts, p) in calls
      ensures forall c :: c in calls ==> c.OpenCall? && c.port in openPorts && c.port !in env.listening && c == Reopen(openPorts, c.port)
      ensures |calls| == if env.available then |Unheard(openPorts.Keys, env)| else 0
    {
      var m := openPorts;
      calls := [];
      var remaining := m.Keys;
      ghost var done: set<int> := {};
      assert Unheard(done, env) == {};
      while remaining != {}
        invariant remaining + done == m.Keys && remaining !! done
        invariant Reopened(m, done, calls, env)
        decreases remaining
      {
        NonEmptyHasMember(remaining);
        var port :| port in remaining;
        var info := m[port];
        ReopenedStep(m, done, calls, port, env);
        if port !in env.listening {
          calls := calls + OpenPortInternally(port, info.protocol, info.description, env).calls;
        }
        remaining := remaining - {port};
        done := done + {port};
      }
    }
  }

  /** Whether manageServerPorts hands the server port to openPort and openPort accepts it. */
  predicate OpensServerPort(openServerPort: Option<bool>, serverPort: int, env: Env) {
    openServerPort.GetOr(true) && InRange(serverPort) && serverPort !in env.listening
  }

  /** What openPort records for the server port. */
  function ServerPortInfo(serverPort: int, description: string, ruleStamp: string): PortInfo {
    PortInfo(serverPort, "TCP", description, "cmd_" + ruleStamp)
  }

  /** The gateway requests of the first half of manageServerPorts. */
  function ServerPortCalls(openServerPort: Option<bool>, serverPort: int, description: string, env: Env): seq<Call> {
    if OpensServerPort(openServerPort, serverPort, env) then OpenPortInternally(serverPort, "TCP", description, env).calls
    else []
  }

  /** The ports among `ports` that nothing listens on. */
  function Unheard(ports: set<int>, env: Env): set<int> {
    set p | p in ports && p !in env.listening
  }

  /**
   * `calls` are the requests re-opening exactly the ports of `done` that nothing listens
   * on, one for each, and there are none while the gateway is unavailable.
   */
  predicate Reopened(m: map<int, PortInfo>, done: set<int>, calls: seq<Call>, env: Env) {
    done <= m.Keys &&
    (calls != [] ==> env.available) &&
    (env.available ==> forall p :: p in done && p !in env.listening ==> Reopen(m, p) in calls) &&
    (forall c :: c in calls ==> c.OpenCall? && c.port in done && c.port !in env.listening && c == Reopen(m, c.port)) &&
    |calls| == if env.available then |Unheard(done, env)| else 0
  }

  /** One more port of the map: its request is added exactly when nothing listens on it. */
  lemma ReopenedStep(m: map<int, PortInfo>, done: set<int>, calls: seq<Call>, port: int, env: Env)
    requires port in m && port !in done && Reopened(m, done, calls, env)
    ensures Reopened(m, done + {port},
                     calls + (if port !in env.listening then OpenPortInternally(port, m[port].protocol, m[port].description, env).calls else []),
                     env)
  {
    if port !in env.listening {
      assert Unheard(done + {port}, env) == Unheard(done, env) + {port};
    } else {
      assert Unheard(done + {port}, env) == Unheard(done, env);
    }
  }

  /** The gateway request that re-opens a port of the map. */
  function Reopen(m: map<int, PortInfo>, p: int): Call
    requires p in m
  {
    OpenCall(p, m[p].protocol, m[p].description)
  }

  lemma NonEmptyHasMember(s: set<int>)
    requires s != {}
    ensures exists x :: x in s
  {
    if forall x :: x !in s {
      assert false;
    }
  }

  lemma SubsetCardinality(a: set<int>, b: set<int>)
    requires a <= b
    ensures |a| <= |b|
  {
    assert b == a + (b - a);
  }
}
