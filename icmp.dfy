/** Constants and wire-level types shared by the traceroute's components
    (Traceroute/main.go, lines 14-22). */
module Icmp {

  newtype byte = x: int | 0 <= x < 0x100

  /** An ICMP message type for IPv4, as the 8-bit type field of RFC 792. */
  newtype IcmpType = x: int | 0 <= x < 0x100

  const EchoReply: IcmpType := 0
  const Echo: IcmpType := 8
  const TimeExceeded: IcmpType := 11

  /** Attempts per hop, the largest hop limit probed, the read deadline in
      seconds, and the payload length of a probe. The read deadline belongs
      to the socket handling, which is not modelled, so `MaxWaitSec` is kept
      only as the source's value. */
  const AttemptsCount: int := 3
  const MaxTTL: int := 64
  const MaxWaitSec: int := 4
  const MsgLength: int := 56

  /** Protocol number of ICMP over IPv4, handed to the reply parser. The
      parser is a parameter of the model, so this value is not used. */
  const ProtocolIPv4ICMP: int := 1

  /** An ICMP Echo message before serialisation: the header's type and code,
      and the Echo body of RFC 792 section "Echo or Echo Reply Message". */
  datatype EchoMessage = EchoMessage(
    msgType: IcmpType,
    code: int,
    id: int,
    sequence: int,
    data: seq<byte>)
}
