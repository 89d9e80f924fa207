/** The per-hop exchange: the attempt loop and the reduction of its replies
    in `socketExchange` (Traceroute/main.go, lines 50-122).

    The socket, the clock and the ICMP parser are outside this model. What
    each of them reports is gathered in an `ExchangeEnv`: whether opening the
    socket and setting the read deadline failed, and for attempt `i` what the
    write returned and what the read returned (the reply's round-trip time,
    its sender, and the result of parsing it). The read deadline is set once,
    before the loop, so a late attempt may see less time than an early one;
    that too is part of what the environment reports. */
module Exchange {
  import opened Icmp
  import opened Outcomes

  /** A round-trip time in nanoseconds, as Go's `time.Duration`. */
  type Duration = int

  /** A network address, by its textual form (`net.Addr.String()`). */
  type Addr = string

  /** A received datagram: the time since the send, the sender, and what
      parsing it as ICMP gave (its message type, or the parser's error). */
  datatype Reply = Reply(duration: Duration, peer: Addr, parsed: Result<IcmpType>)

  /** What one attempt's write and read report. The read is consulted only
      when the write succeeded in full. */
  datatype AttemptIO = AttemptIO(write: Result<int>, read: Result<Reply>)

  /** Everything the socket reports during one exchange. */
  datatype ExchangeEnv = ExchangeEnv(
    listenErr: Option<string>,
    deadlineErr: Option<string>,
    attempt: nat -> AttemptIO)

  datatype ExchangeError =
    | IoError(cause: string)
    | ShortWrite(got: int, want: int)
    | InvalidType(message: Option<IcmpType>, peer: Option<Addr>)

  /** The four results of `socketExchange`: durations, peers, the reply type
      (nil when absent) and the error (nil when absent). */
  datatype ExchangeResult = ExchangeResult(
    durations: seq<Duration>,
    peers: seq<Addr>,
    icmpType: Option<IcmpType>,
    err: Option<ExchangeError>)

  /** The shape of every failure after the socket is open: one zero duration,
      no peers, no type. */
  function Failed(e: ExchangeError): ExchangeResult
  {
    ExchangeResult([0], [], None, Some(e))
  }

  predicate SetupOk(env: ExchangeEnv)
  {
    env.listenErr.None? && env.deadlineErr.None?
  }

  /** What goes wrong in one attempt, in the order the loop checks: a send
      error, a short write, a read error, a parse error. */
  function AttemptError(a: AttemptIO, probeLen: int): Option<ExchangeError>
  {
    match a.write
    case Err(c) => Some(IoError(c))
    case Ok(n) =>
      if n != probeLen then Some(ShortWrite(n, probeLen))
      else match a.read
        case Err(c) => Some(IoError(c))
        case Ok(reply) =>
          match reply.parsed
          case Err(c) => Some(IoError(c))
          case Ok(_) => None
  }

  predicate AttemptOk(a: AttemptIO, probeLen: int)
  {
    AttemptError(a, probeLen).None?
  }

  /** The first `n` attempts all succeed. */
  predicate AttemptsOk(env: ExchangeEnv, probeLen: int, n: int)
  {
    forall i :: 0 <= i < n ==> AttemptOk(env.attempt(i), probeLen)
  }

  /** Some reply among the first `n` attempts parsed as an Echo Reply. */
  predicate EchoReplied(env: ExchangeEnv, n: int)
  {
    exists i :: 0 <= i < n && env.attempt(i).read.Ok? && env.attempt(i).read.value.parsed == Ok(EchoReply)
  }

  /** How many times `for i := 0; i < attempts; i++` runs. */
  function Count(attempts: int): nat
  {
    if attempts > 0 then attempts else 0
  }

  /** Runs `attempts` probes over one socket. It returns at once on the first
      failing attempt; otherwise it returns one duration and one peer per
      attempt, in order, and the type EchoReply when any reply was an Echo
      Reply and TimeExceeded in every other case, whatever the other
      replies' types were. */
  method SocketExchange(env: ExchangeEnv, probeLen: int, attempts: int) returns (r: ExchangeResult)
    ensures env.listenErr.Some? ==> r == ExchangeResult([], [], None, Some(IoError(env.listenErr.value)))
    ensures env.listenErr.None? && env.deadlineErr.Some? ==> r == Failed(IoError(env.deadlineErr.value))
    ensures SetupOk(env) ==> (r.err.None? <==> AttemptsOk(env, probeLen, attempts))
    ensures SetupOk(env) && r.err.Some? ==>
      exists k :: 0 <= k < attempts && AttemptsOk(env, probeLen, k) &&
        AttemptError(env.attempt(k), probeLen).Some? &&
        r == Failed(AttemptError(env.attempt(k), probeLen).value)
    ensures r.err.Some? ==> r.icmpType.None? && r.peers == [] && !r.err.value.InvalidType?
    ensures r.err.None? ==> |r.durations| == Count(attempts) && |r.peers| == Count(attempts)
    ensures r.err.None? ==> forall i :: 0 <= i < |r.durations| ==>
      env.attempt(i).read.Ok? &&
      r.durations[i] == env.attempt(i).read.value.duration &&
      r.peers[i] == env.attempt(i).read.value.peer
    ensures r.err.None? ==> r.icmpType == Some(if EchoReplied(env, attempts) then EchoReply else TimeExceeded)
  {
    if env.listenErr.Some? {
      return ExchangeResult([], [], None, Some(IoError(env.listenErr.value)));
    }
    if env.deadlineErr.Some? {
      return Failed(IoError(env.deadlineErr.value));
    }
    var durations: seq<Duration> := [];
    var peers: seq<Addr> := [];
    var peer: Option<Addr> := None;
    var msg: Option<IcmpType> := None;
    var t := TimeExceeded;
    var i := 0;
    while i < attempts
      invariant 0 <= i <= Count(attempts)
      invariant AttemptsOk(env, probeLen, i)
      invariant |durations| == i && |peers| == i
      invariant forall k :: 0 <= k < i ==>
        env.attempt(k).read.Ok? &&
        durations[k] == env.attempt(k).read.value.duration &&
        peers[k] == env.attempt(k).read.value.peer
      invariant t == if EchoReplied(env, i) then EchoReply else TimeExceeded
    {
      var a := env.attempt(i);
      if a.write.Err? {
        return Failed(IoError(a.write.cause));
      } else if a.write.value != probeLen {
        return Failed(ShortWrite(a.write.value, probeLen));
      }
      if a.read.Err? {
        return Failed(IoError(a.read.cause));
      }
      var reply := a.read.value;
      peer := Some(reply.peer);
      durations := durations + [reply.duration];
      peers := peers + [reply.peer];
      if reply.parsed.Err? {
        return Failed(IoError(reply.parsed.cause));
      }
      msg := Some(reply.parsed.value);
      if reply.parsed.value == EchoReply {
        t := EchoReply;
      }
      i := i + 1;
    }
    if t == EchoReply {
      r := ExchangeResult(durations, peers, Some(t), None);
    } else if t == TimeExceeded {
      r := ExchangeResult(durations, peers, Some(t), None);
    } else {
      r := Failed(InvalidType(msg, peer));
    }
  }
}
