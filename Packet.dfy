/** The ZFM frame codec: the checksum, the command-frame encoder and the
    acknowledgement decoder.

    Wire layout, all multi-byte fields big-endian:
      [EF 01] [FF FF FF FF] [kind] [len_hi len_lo] [payload ...] [chk_hi chk_lo]
    where len = |payload| + 2 and the checksum is the low 16 bits of the sum of
    the kind, length and payload bytes. */
module Packet {
  import opened Bytes
  import opened Results

  const Header: seq<byte> := [0xEF, 0x01]
  const Address: seq<byte> := [0xFF, 0xFF, 0xFF, 0xFF]

  /** Packet kinds. */
  const CommandPacket: byte := 0x01
  const AckPacket: byte := 0x07

  /** The shortest byte sequence the decoder will look into. */
  const MinAckSize: nat := 12

  /** A decoded acknowledgement: the confirmation code and the whole payload
      slice it was read from. */
  datatype Ack = Ack(code: byte, payload: seq<byte>)

  /** The length field of a frame: the payload length plus the two checksum
      bytes, written in 16 bits. */
  function LengthBytes(payload: seq<byte>): (r: seq<byte>)
    ensures |r| == 2 && Unpack16(r[0], r[1]) == (|payload| + 2) % 0x1_0000
  {
    Pack16(|payload| + 2)
  }

  /** `calc_checksum(packet_type, payload)`. */
  function Checksum(kind: byte, payload: seq<byte>): (r: seq<byte>)
    ensures |r| == 2
    // the checksum is the 16-bit sum of the kind, length and payload bytes
    // exactly as they stand on the wire
    ensures Unpack16(r[0], r[1]) == Sum([kind] + LengthBytes(payload) + payload) % 0x1_0000
  {
    var length := LengthBytes(payload);
    SumConcat([kind] + length, payload);
    SumConcat([kind], length);
    SumConcat([length[0]], [length[1]]);
    assert length == [length[0]] + [length[1]];
    Pack16(kind + length[0] + length[1] + Sum(payload))
  }

  /** A frame of any kind around a payload. */
  function FrameOf(kind: byte, payload: seq<byte>): (r: seq<byte>)
    ensures |r| == |payload| + 11
    ensures r[..2] == Header && r[2..6] == Address && r[6] == kind
    ensures Unpack16(r[7], r[8]) == (|payload| + 2) % 0x1_0000
    ensures r[9..|r| - 2] == payload
    ensures r[|r| - 2..] == Checksum(kind, payload)
  {
    Header + Address + [kind] + LengthBytes(payload) + payload + Checksum(kind, payload)
  }

  /** `build_packet(cmd, params)`: a command frame whose payload is the command
      byte followed by the parameters. */
  function BuildPacket(cmd: byte, params: seq<byte>): (r: seq<byte>)
    ensures |r| == 12 + |params|
    ensures r[..2] == Header && r[2..6] == Address && r[6] == CommandPacket
    ensures Unpack16(r[7], r[8]) == (|params| + 3) % 0x1_0000
    ensures r[9] == cmd && r[10..|r| - 2] == params
    ensures r[|r| - 2..] == Checksum(CommandPacket, [cmd] + params)
    ensures WellFormedCommand(r)
  {
    var payload := [cmd] + params;
    var r := FrameOf(CommandPacket, payload);
    assert r[10..|r| - 2] == r[9..|r| - 2][1..];
    FrameChecksumValid(CommandPacket, payload);
    r
  }

  /** What a receiver that recomputes the checksum would accept: the last two
      bytes are the 16-bit sum of everything from the kind byte up to them. */
  predicate ChecksumValid(frame: seq<byte>)
  {
    |frame| >= 11 && Unpack16(frame[|frame| - 2], frame[|frame| - 1]) == Sum(frame[6..|frame| - 2]) % 0x1_0000
  }

  /** A complete command frame as the sensor would accept it: fixed header and
      address, command kind, a length field that matches the frame's size,
      at least the instruction byte, and a checksum that matches its bytes. */
  predicate WellFormedCommand(frame: seq<byte>)
  {
    && |frame| >= 12
    && frame[..6] == Header + Address
    && frame[6] == CommandPacket
    && Unpack16(frame[7], frame[8]) == (|frame| - 9) % 0x1_0000
    && ChecksumValid(frame)
  }

  /** Decoding a well-formed command frame into its instruction byte and
      parameters and encoding them again gives back the same frame: the
      encoder's output is the only well-formed frame for its command. */
  lemma BuildPacketUnique(frame: seq<byte>)
    requires WellFormedCommand(frame)
    ensures frame == BuildPacket(frame[9], frame[10..|frame| - 2])
  {
    var n := |frame|;
    var r := BuildPacket(frame[9], frame[10..n - 2]);
    assert frame[9..n - 2] == [frame[9]] + frame[10..n - 2];
    WellFormedCommandUnique(frame, r);
  }

  /** Two well-formed command frames with the same payload are equal. */
  lemma WellFormedCommandUnique(f: seq<byte>, g: seq<byte>)
    requires WellFormedCommand(f) && WellFormedCommand(g)
    requires |f| == |g| && f[9..|f| - 2] == g[9..|g| - 2]
    ensures f == g
  {
    var n := |f|;
    Unpack16Injective(f[7..9], g[7..9]);
    assert f[6..n - 2] == g[6..n - 2] by {
      assert f[6..n - 2] == [f[6]] + f[7..9] + f[9..n - 2];
      assert g[6..n - 2] == [g[6]] + g[7..9] + g[9..n - 2];
    }
    ChecksumDetermined(f, g);
    Reassemble(f, g, 6, n - 2);
  }

  lemma Reassemble(f: seq<byte>, g: seq<byte>, i: nat, j: nat)
    requires i <= j <= |f| == |g|
    requires f[..i] == g[..i] && f[i..j] == g[i..j] && f[j..] == g[j..]
    ensures f == g
  {
    assert f == f[..i] + f[i..j] + f[j..];
    assert g == g[..i] + g[i..j] + g[j..];
  }

  /** Frames with valid checksums and the same checked bytes carry the same
      checksum bytes. */
  lemma ChecksumDetermined(f: seq<byte>, g: seq<byte>)
    requires ChecksumValid(f) && ChecksumValid(g)
    requires |f| == |g| && f[6..|f| - 2] == g[6..|g| - 2]
    ensures f[|f| - 2..] == g[|g| - 2..]
  {
    Unpack16Injective(f[|f| - 2..], g[|g| - 2..]);
  }

  /** Every frame the encoder builds carries a checksum that matches its own
      kind, length and payload bytes, whatever the payload length. */
  lemma FrameChecksumValid(kind: byte, payload: seq<byte>)
    ensures ChecksumValid(FrameOf(kind, payload))
  {
    var f := FrameOf(kind, payload);
    assert f[6..|f| - 2] == [kind] + LengthBytes(payload) + payload;
  }

  /** The value of the 16-bit length field; needs the nine leading bytes. */
  function LengthField(packet: seq<byte>): (n: nat)
    requires |packet| >= 9
    ensures n < 0x1_0000
  {
    Unpack16(packet[7], packet[8])
  }

  /** `parse_ack(packet)`. The header, address and checksum bytes are never
      looked at; the payload is `packet[9 : 9 + length - 2]`, clamped. */
  function ParseAck(packet: seq<byte>): (r: Result<Ack>)
    ensures r == Err(MalformedFrame) <==> |packet| < MinAckSize || packet[6] != AckPacket
    ensures r == Err(IndexError) <==>
      |packet| >= MinAckSize && packet[6] == AckPacket && LengthField(packet) < 3
    ensures r.Ok? <==>
      |packet| >= MinAckSize && packet[6] == AckPacket && LengthField(packet) >= 3
    ensures r.Ok? ==>
      && |packet| >= MinAckSize && packet[6] == AckPacket && LengthField(packet) >= 3
      && |r.value.payload| == Min(LengthField(packet) - 2, |packet| - 9)
      && r.value.payload == packet[9..9 + |r.value.payload|]
      && r.value.code == packet[9] == r.value.payload[0]
  {
    if |packet| < MinAckSize || packet[6] != AckPacket then
      Err(MalformedFrame)
    else
      var length := LengthField(packet);
      var payload := Slice(packet, 9, 9 + length - 2);
      if |payload| == 0 then Err(IndexError) else Ok(Ack(payload[0], payload))
  }

  /** On a packet whose announced payload fits, the decoder returns exactly
      the announced payload and its first byte. */
  lemma ParseAckWellFormed(packet: seq<byte>)
    requires |packet| >= MinAckSize && packet[6] == AckPacket
    requires 3 <= LengthField(packet) && 7 + LengthField(packet) <= |packet|
    ensures ParseAck(packet) == Ok(Ack(packet[9], packet[9..7 + LengthField(packet)]))
  {
  }

  /** The decoder refuses every frame the encoder produces: a command frame's
      kind byte is 0x01, never 0x07. */
  lemma ParseAckRejectsCommandFrames(cmd: byte, params: seq<byte>)
    ensures ParseAck(BuildPacket(cmd, params)) == Err(MalformedFrame)
  {
  }

  /** An acknowledgement framed with the same layout and checksum formula
      decodes to its first byte and its whole payload. */
  lemma AckRoundTrip(payload: seq<byte>)
    requires 1 <= |payload| <= 0x1_0000 - 3
    ensures ParseAck(FrameOf(AckPacket, payload)) == Ok(Ack(payload[0], payload))
  {
    var n := |payload|;
    assert (n + 2) % 0x1_0000 == n + 2;
    var f := FrameOf(AckPacket, payload);
    assert LengthField(f) == n + 2;
    ParseAckWellFormed(f);
    assert f[9..7 + LengthField(f)] == payload;
  }

  /** The decoder's result depends only on the packet length, the kind and
      length bytes, and the bytes of the payload slice: neither the header,
      the address, nor bytes after the announced payload (the checksum) are
      inspected, so a frame with a wrong checksum decodes like a right one. */
  lemma ParseAckReadsOnlyKindLengthPayload(p: seq<byte>, q: seq<byte>)
    requires |p| == |q| >= MinAckSize
    requires p[6..9] == q[6..9]
    requires forall i :: 9 <= i < Min(7 + LengthField(p), |p|) ==> p[i] == q[i]
    ensures ParseAck(p) == ParseAck(q)
  {
    assert p[6] == p[6..9][0] && q[6] == q[6..9][0];
    assert p[7] == p[6..9][1] && q[7] == q[6..9][1];
    assert p[8] == p[6..9][2] && q[8] == q[6..9][2];
    if p[6] == AckPacket && LengthField(p) >= 3 {
      var n := Min(LengthField(p) - 2, |p| - 9);
      assert p[9..9 + n] == q[9..9 + n];
    }
  }

  /** The checksum does not depend on the order of the payload bytes. */
  lemma ChecksumOrderIndependent(kind: byte, p: seq<byte>, q: seq<byte>)
    requires multiset(p) == multiset(q)
    ensures Checksum(kind, p) == Checksum(kind, q)
  {
    assert |p| == |multiset(p)| == |q|;
    SumPermutation(p, q);
  }
}
