# Traceroute probing engine, modelled in Dafny

This project models the probing engine of a small ICMP traceroute written in Go
(`Traceroute/main.go`). The traceroute sends ICMP Echo probes with growing
hop limits and listens for Echo Reply or Time Exceeded messages. It has four
sequential pieces of logic, and each one is a Dafny module here:

- `Packet`: the probe builder `buildEchoRequest`. It fills a payload of
  `size` bytes with repeated ASCII `"DATA"`, cutting the last repetition
  short. It puts that payload in an RFC 792 Echo message with code 0,
  identifier `pid & 0xffff` and sequence number 1.
- `Exchange`: the attempt loop of `socketExchange`. Each attempt writes the
  probe, reads one reply and parses it. The first failure ends the exchange.
  On success the replies reduce to one type: EchoReply if any reply was an
  Echo Reply, and TimeExceeded otherwise.
- `Peers`: `createPeersString`, the bracketed summary of the responders, with
  their reverse-DNS names.
- `Trace`: the hop verdict `ping`, and `tracert`, which sweeps hop limits
  1 to 64 and stops at the first hop where the destination answers.

Supporting modules: `Outcomes` (Option, and Result for Go's `(value, err)`
pairs), `Icmp` (the source's constants, the ICMP message types it uses and the Echo message)
and `Bits` (bitwise AND on naturals, for the identifier mask).

Sockets, the clock, the ICMP codec and DNS are parameters.
An `Exchange.ExchangeEnv` says what the socket reports during one exchange:

- whether opening the socket failed;
- whether setting the read deadline failed;
- for attempt `i`, what the write returned and what the read returned.

A successful read carries the round-trip time, the sender and the parse
result. A `Trace.Network` maps a destination and a hop limit to such an
environment. Reverse lookup is a function from an address to its names.
Name resolution is a function from a host string to an optional address.
Serialisation (`Marshal`) is a function from an Echo message to bytes or an
error.

The model follows the code where the documented design says otherwise:

- Reply types other than Echo Reply count as Time Exceeded, so the
  invalid-type branch of `socketExchange` is never taken. The design calls
  such a hop an error.
- The read deadline is set once, before the loop, and not once per attempt.
  In the model this is part of what the environment reports for each read.
- Every entry of the peer summary carries the reverse names of the first
  peer, whichever address the entry shows. The design resolves each address
  on its own.
- An attempt error ends the whole exchange, and the hop counts as not reached.

## Model

| member | source | states |
|---|---|---|
| `Bits.BitAndLowMask` | Traceroute/main.go:41 | A mask of k one-bits keeps the k low bits: `a & (2^k - 1) == a mod 2^k`, proved by induction over the bits. |
| `Bits.Mask16` | Traceroute/main.go:41 | The Echo identifier `pid & 0xffff` equals `pid mod 65536`, so it lies in 0..65535. |
| `Packet.RepeatChunk` | Traceroute/main.go:27-31 | `k` turns of the chunk loop write `4k` bytes, and byte `i` is `"DATA"[i mod 4]`. |
| `Packet.PayloadIsChunks` | Traceroute/main.go:29-35 | For every size ≥ 0, the payload is `size / 4` whole `"DATA"` chunks followed by the first `size mod 4` bytes of a chunk. |
| `Packet.BuildEchoRequest` | Traceroute/main.go:24-48 | The payload has exactly `size` bytes (none when `size` ≤ 0, since Go's truncating division skips the loop). Byte `i` is `"DATA"[i mod 4]`. The message has the given type, code 0, sequence 1 and identifier `pid mod 65536` in 0..65535. The wire bytes are what the serialiser returns for that message. |
| `Exchange.SocketExchange` | Traceroute/main.go:50-122 | A socket-open error returns no durations; a deadline error returns the `[0]` failure shape. After setup, the exchange fails iff some attempt fails. A failure is that of the first failing attempt (send error, short write `n != len(b)`, read error or parse error, in that order) with the shape `([0], [], nil, err)`. On success there are exactly `attempts` durations and peers, in attempt order, taken from the replies. The type is EchoReply iff some reply parsed as Echo Reply, and TimeExceeded otherwise, whatever the other types were. The invalid-type error is never returned. |
| `Peers.Trimmed` | Traceroute/main.go:143 | Each reverse name loses exactly its last character. |
| `Peers.AllIdenticalIff` | Traceroute/main.go:125-130 | Comparing neighbours is equivalent to every peer equalling the first, in both directions. |
| `Peers.PeersAreIdentical` | Traceroute/main.go:125-130 | The flag loop ends true iff all peers are textually equal to the first. |
| `Peers.ReverseNamesSuffix` | Traceroute/main.go:139-147 | The name loop gives `" ("`, the trimmed names joined by two spaces, and `")"`. It gives the empty string when there are no names. |
| `Peers.CreatePeersString` | Traceroute/main.go:124-153 | The accumulate-then-cut loops produce the bracketed summary. The shown addresses collapse to the first when all are equal. Entries are joined by two spaces, and each one carries the first peer's reverse names. |
| `Peers.PeersStringBracketed` | Traceroute/main.go:136-151 | The summary has at least two characters, starts with `[` and ends with `]`. |
| `Peers.IdenticalPeersCollapse` | Traceroute/main.go:125-134 | Any number of copies of one address give the same summary as that address alone: `[` address, names, `]`. |
| `Peers.NoNamesBareAddresses` | Traceroute/main.go:138-148 | When the lookup returns no names, the summary lists the bare shown addresses joined by two spaces. |
| `Peers.SecondPeerGetsFirstPeersNames` | Traceroute/main.go:137-148 | For two different responders, the second entry carries the reverse names of the first responder. |
| `Peers.ThreeRepliesFromOneResolver` | Traceroute/main.go:124-153 | Three replies from `8.8.8.8`, whose name is `dns.google.`, give `[8.8.8.8 (dns.google)]`. |
| `Trace.Ping` | Traceroute/main.go:155-177 | `ping` is true iff the exchange for that hop limit succeeds with EchoReply. That means the socket set up, all 3 attempts succeeded in sending the serialised Echo request with its 56-byte payload, and at least one reply was an Echo Reply. |
| `Trace.Tracert` | Traceroute/main.go:179-196 | A failed resolution means no probe at all. Otherwise it probes hop limits 1, 2, … in order, at most `MaxTTL` = 64 of them. Every probe except the last was not reached. It reports reached iff the last probe was. It probes all 64 when none is reached. |

## Left out

- Socket handling (`net.ListenPacket`, `SetReadDeadline`, `ipv4.NewPacketConn`, `SetTTL`, `WriteTo`, `ReadFrom`, `Close`) is operating-system and network I/O. Its reports are the inputs of `Exchange.ExchangeEnv`. The error of `SetTTL`, which the source ignores, is not modelled.
- Wall-clock time (`time.Now`, `time.Since`, the `MaxWaitSec` deadline) is not modelled. Durations are opaque numbers carried from the environment to the result.
- `icmp.Message.Marshal` and `icmp.ParseMessage` (checksum and wire layout of RFC 792) belong to the golang.org/x/net library, which is not part of this model. They are parameters.
- `net.LookupAddr` and `net.ResolveIPAddr` are network lookups and are parameters. The source ignores the lookup's error, so the returned names are used whatever the error.
- Peers.Trimmed: strings are modelled as sequences of characters, while Go's slices at Traceroute/main.go:143, 145 and 150 cut bytes. The two agree on ASCII text. Addresses and the domain names a reverse lookup returns are ASCII. For a name whose last character is not ASCII, Go would keep a broken partial byte sequence, and the model drops the whole character.
- Peers.CreatePeersString: the source looks up the first peer again for every entry of one summary (a separate network call each time). The model assumes that these repeated lookups return the same names, so every entry gets the same suffix. A changed DNS answer or a timeout between two calls is not captured.
- The `fmt.Printf` lines of `ping` and `tracert`, and the argument handling in `main`, are output and command-line plumbing. So `Trace.Ping` returns only the verdict. The summary string it prints is `Peers.CreatePeersString`.
- The panics of `createPeersString` on an empty peer list and on an empty reverse name are preconditions of `Peers.CreatePeersString`, not modelled behaviour.
- Go's 64-bit `int` wrap-around is not modelled: the counters and lengths involved stay far below 2^63. The process id is a natural number, as `os.Getpid` returns.
- The message value in the unreachable invalid-type error is kept as its type only, because the parsed message is opaque.
