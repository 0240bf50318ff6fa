/**
 * The outside world the port managers talk to: the port-mapping gateway
 * (SimpleUPnPManager: `isUPnPAvailable`, `openPort`, `closePort`) and the two socket
 * probes `isPortOpen` (connect to localhost with a one-second timeout) and
 * `isPortAvailable` (bind a ServerSocket and release it). Their answers are a snapshot
 * taken as a parameter; the calls made to the gateway are returned as a trace.
 */
module Gateway {
  import opened JavaText

  /** What the environment answers during one operation. */
  datatype Env = Env(
    available: bool,     // isUPnPAvailable()
    refused: set<int>,   // ports whose gateway openPort(...) returns false
    bindable: set<int>,  // ports on which a ServerSocket can be bound
    listening: set<int>  // ports on which a localhost connection succeeds
  )

  /** A request sent to the gateway. */
  datatype Call = OpenCall(port: int, protocol: string, description: seq<char>) | CloseCall(port: int)


  /** The ports java.net.InetSocketAddress and java.net.ServerSocket accept; others throw IllegalArgumentException. */
  predicate SocketPort(port: int) {
    0 <= port <= 65535
  }

  /** The outcome of openPortInternally: whether the port counts as open, and the gateway calls made. */
  datatype Realization = Realization(succeeded: bool, calls: seq<Call>)

  /**
   * openPortInternally: ask the gateway when it is available; if it is not, or it refuses,
   * fall back to the bind probe. The IllegalArgumentException the probe throws for a port
   * outside 0..65535 is caught and gives false.
   */
  function OpenPortInternally(port: int, protocol: string, description: string, env: Env): (r: Realization)
    ensures r.succeeded <==> (env.available && port !in env.refused) || (SocketPort(port) && port in env.bindable)
    ensures env.available <==> r.calls == [OpenCall(port, protocol, description)]
    ensures !env.available <==> r.calls == []
  {
    var calls := if env.available then [OpenCall(port, protocol, description)] else [];
    if env.available && port !in env.refused then Realization(true, calls)
    else if !SocketPort(port) then Realization(false, calls)
    else Realization(port in env.bindable, calls)
  }

  /** The close requests `closePort(port)` issued for `ports` while the gateway is available. */
  function CloseCalls(ports: seq<int>, env: Env): (r: seq<Call>)
    ensures |r| == if env.available then |ports| else 0
    ensures forall i :: 0 <= i < |r| ==> r[i] == CloseCall(ports[i])
  {
    if !env.available || ports == [] then [] else [CloseCall(ports[0])] + CloseCalls(ports[1..], env)
  }

  /** One more port closes one more port, at the end. */
  lemma CloseCallsSnoc(ports: seq<int>, port: int, env: Env)
    ensures CloseCalls(ports + [port], env) == CloseCalls(ports, env) + (if env.available then [CloseCall(port)] else [])
  {
    var a := CloseCalls(ports + [port], env);
    var b := CloseCalls(ports, env) + (if env.available then [CloseCall(port)] else []);
    assert |a| == |b|;
    forall i | 0 <= i < |a| ensures a[i] == b[i] {
      if i < |ports| {
        assert (ports + [port])[i] == ports[i];
      }
    }
  }

  /** A protocol accepted as TCP or UDP ignoring case is sent to the gateway upper-cased as exactly that. */
  lemma UpperProtocol(protocol: string)
    ensures EqualsIgnoreCase("TCP", protocol) ==> ToUpper(protocol) == "TCP"
    ensures EqualsIgnoreCase("UDP", protocol) ==> ToUpper(protocol) == "UDP"
  {
    if EqualsIgnoreCase("TCP", protocol) {
      UpperOfEqualIgnoringCase(protocol, "TCP");
    }
    if EqualsIgnoreCase("UDP", protocol) {
      UpperOfEqualIgnoringCase(protocol, "UDP");
    }
  }
}
