/** Packets and their wire form (Packet.cpp). */
module Packets {
  import opened Results
  import opened Bytes
  import opened Sequences

  /** Size of a TCP and of a UDP packet header (PacketHeaders.h). */
  const STANDARD := 4
  const UDP := 5

  /** The longest payload whose length field is exact: 65535 less the TCP header. */
  const MAX_TCP_PAYLOAD := 0xFFFF - STANDARD

  datatype Packet = Packet(id: byte, isCompressed: byte, isReliable: byte, length: uint16, data: seq<byte>, isUDP: bool)

  /** The TCP constructor: an empty payload throws. */
  function NewTcp(id: byte, data: seq<byte>, compressed: bool): Result<Packet> {
    if data == [] then Failure(InvalidArgument)
    else Success(Packet(id, if compressed then 1 else 0, 0, Uint16(STANDARD + |data|), data, false))
  }

  /** The UDP constructor. */
  function NewUdp(id: byte, data: seq<byte>, compressed: bool, reliable: bool): Result<Packet> {
    if data == [] then Failure(InvalidArgument)
    else Success(Packet(id, if compressed then 1 else 0, if reliable then 1 else 0, Uint16(UDP + |data|), data, true))
  }

  /** The packets that the TCP (resp. UDP) constructor can return. */
  ghost predicate IsTcp(p: Packet) {
    exists id, data, compressed :: NewTcp(id, data, compressed) == Success(p)
  }

  ghost predicate IsUdp(p: Packet) {
    exists id, data, compressed, reliable :: NewUdp(id, data, compressed, reliable) == Success(p)
  }

  /** TCP packets whose 16-bit length field did not wrap. */
  predicate Framable(p: Packet) {
    && !p.isUDP && p.isReliable == 0 && p.isCompressed <= 1
    && 1 <= |p.data| <= MAX_TCP_PAYLOAD
    && p.length == STANDARD + |p.data|
  }

  lemma FramableMeaning(p: Packet)
    ensures Framable(p) <==> IsTcp(p) && |p.data| <= MAX_TCP_PAYLOAD
  {
    if Framable(p) {
      assert NewTcp(p.id, p.data, p.isCompressed == 1) == Success(p);
    }
  }

  /** The four bytes of a TCP header. */
  function HeaderOf(id: byte, flag: byte, length: uint16): (s: seq<byte>)
    ensures |s| == STANDARD
  {
    [id, flag, length % 256, length / 256 % 256]
  }

  /** The wire form of a packet. */
  function Built(p: Packet): seq<byte> {
    (if p.isUDP then [p.id, p.isCompressed, p.isReliable, p.length % 256, p.length / 256 % 256]
     else HeaderOf(p.id, p.isCompressed, p.length)) + p.data
  }

  /** The header's fields byte by byte, the reliability flag for UDP only, the length low byte first; then the data. */
  method BuildPacket(p: Packet) returns (packetData: seq<byte>)
    ensures packetData == Built(p)
    ensures var h := if p.isUDP then 5 else 4;
            && |packetData| == h + |p.data|
            && packetData[0] == p.id
            && packetData[1] == p.isCompressed
            && (p.isUDP ==> packetData[2] == p.isReliable)
            && packetData[h - 1] as int * 256 + packetData[h - 2] == p.length
            && packetData[h..] == p.data
  {
    packetData := [];
    packetData := packetData + [p.id];
    packetData := packetData + [p.isCompressed];
    if p.isUDP {
      packetData := packetData + [p.isReliable];
    }
    packetData := packetData + [p.length % 256];
    packetData := packetData + [p.length / 256 % 256];
    packetData := packetData + p.data;
    HeaderBytes(p.length);
  }

  /** The bytes on the wire of what the TCP constructor returns. */
  lemma TcpWire(id: byte, data: seq<byte>, compressed: bool)
    ensures NewTcp(id, data, compressed) == Failure(InvalidArgument) <==> data == []
    ensures data != [] ==>
              && NewTcp(id, data, compressed).Success?
              && var s := Built(NewTcp(id, data, compressed).value);
                 && |s| == 4 + |data|
                 && s[0] == id
                 && s[1] == (if compressed then 1 else 0)
                 && s[3] as int * 256 + s[2] == (4 + |data|) % 0x1_0000
                 && s[4..] == data
  {
    HeaderBytes(Uint16(STANDARD + |data|));
  }

  /** The bytes on the wire of what the UDP constructor returns. */
  lemma UdpWire(id: byte, data: seq<byte>, compressed: bool, reliable: bool)
    ensures NewUdp(id, data, compressed, reliable) == Failure(InvalidArgument) <==> data == []
    ensures data != [] ==>
              && NewUdp(id, data, compressed, reliable).Success?
              && var s := Built(NewUdp(id, data, compressed, reliable).value);
                 && |s| == 5 + |data|
                 && s[0] == id
                 && s[1] == (if compressed then 1 else 0)
                 && s[2] == (if reliable then 1 else 0)
                 && s[4] as int * 256 + s[3] == (5 + |data|) % 0x1_0000
                 && s[5..] == data
  {
    HeaderBytes(Uint16(UDP + |data|));
  }

  lemma HeaderBytes(n: uint16)
    ensures n / 256 % 256 * 256 + n % 256 == n
  {
  }

  /** The 5-byte UDP framing (and the TCP one) loses nothing of a packet, even when the length field wrapped. */
  lemma BuiltInjective(p: Packet, q: Packet)
    requires (IsTcp(p) && IsTcp(q)) || (IsUdp(p) && IsUdp(q))
    requires Built(p) == Built(q)
    ensures p == q
  {
    var h := if p.isUDP then UDP else STANDARD;
    assert p.data == Built(p)[h..] && q.data == Built(q)[h..];
    assert p.id == Built(p)[0] && q.id == Built(q)[0];
    assert p.isCompressed == Built(p)[1] && q.isCompressed == Built(q)[1];
    if p.isUDP {
      assert p.isReliable == Built(p)[2] && q.isReliable == Built(q)[2];
    }
  }

  function EncodeAll(ps: seq<Packet>): seq<byte> {
    if ps == [] then [] else Built(ps[0]) + EncodeAll(ps[1..])
  }

  lemma {:induction false} EncodeAppend(ps: seq<Packet>, qs: seq<Packet>)
    ensures EncodeAll(ps + qs) == EncodeAll(ps) + EncodeAll(qs)
  {
    if ps == [] {
      EmptyNeutral(qs);
      EmptyNeutral(EncodeAll(qs));
    } else {
      EncodeAppend(ps[1..], qs);
      TailOfConcat(ps, qs);
      Associative(Built(ps[0]), EncodeAll(ps[1..]), EncodeAll(qs));
    }
  }
}
