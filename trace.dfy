/** The hop verdict `ping` (Traceroute/main.go, lines 155-177) and the sweep
    `tracert` (lines 179-196). The network is a parameter: for a destination
    and a hop limit it says what the exchange's socket operations report.
    Name resolution is a parameter too. What both functions print is left
    out; the summary string is modelled in `Peers`. */
module Trace {
  import opened Icmp
  import opened Outcomes
  import opened Exchange
  import Packet

  /** What the socket operations report for a probe sent to a destination
      with a given hop limit. */
  type Network = (Addr, int) -> ExchangeEnv

  /** The bytes every probe carries: the serialised Echo request of
      `MsgLength` payload bytes, or no bytes when serialisation fails, since
      the source drops that error. */
  function ProbeBytes(pid: nat, marshal: EchoMessage -> Result<seq<byte>>): seq<byte>
  {
    match marshal(Packet.EchoRequest(Icmp.Echo, MsgLength, pid))
    case Ok(b) => b
    case Err(_) => []
  }

  /** A hop is reached when the socket opens, all `AttemptsCount` attempts
      succeed, and at least one reply is an Echo Reply. */
  predicate Reaches(env: ExchangeEnv, probeLen: int)
  {
    SetupOk(env) && AttemptsOk(env, probeLen, AttemptsCount) && EchoReplied(env, AttemptsCount)
  }

  /** Probes one hop limit and tells whether the destination answered. */
  method Ping(net: Network, dest: Addr, ttl: int, pid: nat, marshal: EchoMessage -> Result<seq<byte>>)
    returns (reached: bool)
    ensures reached <==> Reaches(net(dest, ttl), |ProbeBytes(pid, marshal)|)
  {
    var _, wire := Packet.BuildEchoRequest(Icmp.Echo, MsgLength, pid, marshal);
    var b := if wire.Ok? then wire.value else [];
    var r := SocketExchange(net(dest, ttl), |b|, AttemptsCount);
    if r.err.None? {
      if r.icmpType.Some? {
        if r.icmpType.value == EchoReply {
          return true;
        } else if r.icmpType.value == TimeExceeded {
          return false;
        } else {
          return false;
        }
      }
    } else {
      return false;
    }
    return false;
  }

  /** Resolves `addr` and probes hop limits 1, 2, ... up to `MaxTTL`,
      stopping after the first hop that is reached. Returns the hop limits
      probed, in order, and whether the sweep stopped because the destination
      answered. Nothing is probed when resolution fails. */
  method Tracert(addr: string, resolve: string -> Option<Addr>, net: Network, pid: nat,
                 marshal: EchoMessage -> Result<seq<byte>>)
    returns (probed: seq<int>, reached: bool)
    ensures resolve(addr).None? ==> probed == [] && !reached
    ensures resolve(addr).Some? ==> 1 <= |probed| <= MaxTTL
    ensures forall k :: 0 <= k < |probed| ==> probed[k] == k + 1
    ensures resolve(addr).Some? ==> forall k :: 0 <= k < |probed| - 1 ==>
      !Reaches(net(resolve(addr).value, probed[k]), |ProbeBytes(pid, marshal)|)
    ensures reached <==> (resolve(addr).Some? && probed != [] &&
                          Reaches(net(resolve(addr).value, probed[|probed| - 1]), |ProbeBytes(pid, marshal)|))
    ensures resolve(addr).Some? && !reached ==> |probed| == MaxTTL
  {
    probed := [];
    reached := false;
    var destination := resolve(addr);
    if destination.None? {
      return;
    }
    var dest := destination.value;
    var i := 1;
    while i <= MaxTTL
      invariant 1 <= i <= MaxTTL + 1
      invariant |probed| == i - 1
      invariant forall k :: 0 <= k < |probed| ==> probed[k] == k + 1
      invariant forall k :: 0 <= k < |probed| ==> !Reaches(net(dest, probed[k]), |ProbeBytes(pid, marshal)|)
      invariant !reached
    {
      var hit := Ping(net, dest, i, pid, marshal);
      probed := probed + [i];
      if hit {
        reached := true;
        break;
      }
      i := i + 1;
    }
  }
}
