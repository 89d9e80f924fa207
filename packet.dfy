/** The probe builder: `buildEchoRequest` (Traceroute/main.go, lines 24-48).
    The payload is the ASCII chunk "DATA" repeated, the last repetition cut
    short, and it travels in an ICMP Echo message with code 0, identifier
    `pid & 0xffff` and sequence number 1. Serialisation (`Marshal`) belongs
    to the ICMP library and is a parameter here. */
module Packet {
  import opened Icmp
  import opened Outcomes
  import Bits

  /** The filler pattern, ASCII "DATA". */
  const DataChunk: seq<byte> := [0x44, 0x41, 0x54, 0x41]

  /** `k` copies of `chunk`, back to back. */
  function Repeat(chunk: seq<byte>, k: nat): seq<byte>
  {
    if k == 0 then [] else Repeat(chunk, k - 1) + chunk
  }

  /** Go's integer division, which truncates toward zero. */
  function TruncDiv(a: int, d: int): int
    requires d > 0
  {
    if a >= 0 then a / d else -((-a) / d)
  }

  /** The payload the builder should produce for a requested size: byte `i`
      is `"DATA"[i mod 4]`, and nothing at all for a size that is not positive. */
  function Payload(size: int): seq<byte>
  {
    seq(if size > 0 then size else 0, i => DataChunk[i % 4])
  }

  /** The Echo message for a type, payload size and process id, before
      serialisation. */
  function EchoRequest(t: IcmpType, size: int, pid: nat): EchoMessage
  {
    EchoMessage(t, 0, Bits.BitAnd(pid, 0xffff), 1, Payload(size))
  }

  lemma {:induction false} RepeatChunk(k: nat)
    ensures |Repeat(DataChunk, k)| == 4 * k
    ensures forall i :: 0 <= i < 4 * k ==> Repeat(DataChunk, k)[i] == DataChunk[i % 4]
  {
    if k > 0 {
      RepeatChunk(k - 1);
      var prev := Repeat(DataChunk, k - 1);
      forall i | 0 <= i < 4 * k
        ensures Repeat(DataChunk, k)[i] == DataChunk[i % 4]
      {
        if i >= 4 * (k - 1) {
          assert Repeat(DataChunk, k)[i] == DataChunk[i - 4 * (k - 1)];
          assert i % 4 == i - 4 * (k - 1);
        } else {
          assert Repeat(DataChunk, k)[i] == prev[i];
        }
      }
    }
  }

  /** A payload of `size` bytes is `size / 4` whole chunks followed by the
      first `size mod 4` bytes of a chunk. */
  lemma PayloadIsChunks(size: nat)
    ensures Payload(size) == Repeat(DataChunk, size / 4) + DataChunk[..size % 4]
  {
    var whole := Repeat(DataChunk, size / 4);
    RepeatChunk(size / 4);
    var rhs := whole + DataChunk[..size % 4];
    assert |rhs| == size;
    forall i | 0 <= i < size
      ensures Payload(size)[i] == rhs[i]
    {
      if i >= 4 * (size / 4) {
        assert rhs[i] == DataChunk[i - 4 * (size / 4)];
        assert i % 4 == i - 4 * (size / 4);
      }
    }
  }

  /** Builds the Echo message of `size` payload bytes and serialises it with
      `marshal`. Returns the message as well as the serialiser's result, so
      that its fields can be stated while serialisation stays opaque. */
  method BuildEchoRequest(t: IcmpType, size: int, pid: nat, marshal: EchoMessage -> Result<seq<byte>>)
    returns (msg: EchoMessage, wire: Result<seq<byte>>)
    ensures msg == EchoRequest(t, size, pid)
    ensures |msg.data| == (if size > 0 then size else 0)
    ensures forall i :: 0 <= i < |msg.data| ==> msg.data[i] == DataChunk[i % 4]
    ensures msg.msgType == t && msg.code == 0 && msg.sequence == 1
    ensures msg.id == pid % 0x10000 && 0 <= msg.id < 0x10000
    ensures wire == marshal(msg)
  {
    var buf: seq<byte> := [];
    var count := TruncDiv(size, |DataChunk|);
    ghost var whole := count;
    while count > 0
      invariant whole > 0 ==> 0 <= count <= whole
      invariant whole <= 0 ==> count == whole
      invariant buf == Repeat(DataChunk, whole - count)
    {
      buf := buf + DataChunk;
      count := count - 1;
    }
    RepeatChunk(whole - count);
    var diff := size - |buf|;
    if diff > 0 {
      buf := buf + DataChunk[..diff];
    }
    if size >= 0 {
      PayloadIsChunks(size);
    }
    Bits.Mask16(pid);
    msg := EchoMessage(t, 0, Bits.BitAnd(pid, 0xffff), 1, buf);
    wire := marshal(msg);
  }
}
