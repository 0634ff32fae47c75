/** The power packet of the NI server and its acceptance by the meter client. */
module Netmeter {
  import opened Bytes
  import SocketUtils

  /** Channels measured and sent by the NI server. */
  const CHANNELS := 16

  const CMD_POWER := 2
  const MUNITS_WATTS := 0x000400
  const MUNITS_MILLI := 0x040000

  /** Size of netmeter_req_t; num_chs lies at offset 16. */
  const HEADER := 32
  const BUFFER := 1024

  function Words(v: seq<uint32>): (bytes: seq<byte>)
    ensures |bytes| == 4 * |v|
  {
    if v == [] then [] else LittleEndian(4, v[0]) + Words(v[1..])
  }

  function Unwords(bytes: seq<byte>): (v: seq<uint32>)
    requires |bytes| % 4 == 0
    ensures |v| == |bytes| / 4
  {
    if bytes == [] then []
    else
      Pow256Values();
      [FromLittleEndian(bytes[..4])] + Unwords(bytes[4..])
  }

  lemma {:induction false} WordsRoundTrip(v: seq<uint32>)
    ensures Unwords(Words(v)) == v
  {
    if v != [] {
      Pow256Values();
      LittleEndianRoundTrip(4, v[0]);
      assert Words(v)[..4] == LittleEndian(4, v[0]);
      assert Words(v)[4..] == Words(v[1..]);
      WordsRoundTrip(v[1..]);
    }
  }

  /**
   * A packet; gap and tail are the header fields the server leaves unset
   * (padding and last_read, rc and padding).
   */
  function Packet(v: seq<uint32>, gap: seq<byte>, tail: seq<byte>): (bytes: seq<byte>)
  {
    LittleEndian(4, CMD_POWER) + gap + LittleEndian(4, |v|)
    + LittleEndian(4, MUNITS_MILLI + MUNITS_WATTS) + tail + Words(v)
  }

  /** Copies the snapshot behind the header and sends the used part of the buffer. */
  method SendPower(powers: array<uint32>, gap: seq<byte>, tail: seq<byte>) returns (sent: seq<byte>)
    requires powers.Length == CHANNELS && |gap| == 12 && |tail| == 8
    ensures sent == Packet(powers[..], gap, tail)
  {
    hide LittleEndian;
    var pkg := new byte[BUFFER];
    var header := LittleEndian(4, CMD_POWER) + gap + LittleEndian(4, CHANNELS)
      + LittleEndian(4, MUNITS_MILLI + MUNITS_WATTS) + tail;
    SocketUtils.Memcpy(pkg, 0, header);
    SocketUtils.Memcpy(pkg, HEADER, Words(powers[..]));
    var pkgLen := HEADER + 4 * CHANNELS;
    sent := pkg[..pkgLen];
  }

  // ---------------------------------------------------------------- client

  datatype Reply =
    | TooShort                            // -4
    | WrongLength                         // -5
    | Accepted(readings: seq<uint32>)

  /** A value in an unsigned 64-bit comparison. */
  function SizeT(x: int): int
    requires -0x1_0000_0000_0000_0000 <= x < 0x1_0000_0000_0000_0000
  {
    if x >= 0 then x else x + 0x1_0000_0000_0000_0000
  }

  /** num_chs is a signed field. */
  function NumChs(buf: seq<byte>): (n: int)
    requires |buf| == BUFFER
    ensures -0x8000_0000 <= n < 0x8000_0000
  {
    Pow256Values();
    var raw := FromLittleEndian(buf[16..20]);
    if raw < 0x8000_0000 then raw else raw - 0x1_0000_0000
  }

  /** What the client makes of one read: r is its result, -1 for an error. */
  function Receive(r: int, buf: seq<byte>): (reply: Reply)
    requires -1 <= r <= BUFFER == |buf|
    ensures reply.Accepted? <==> HEADER <= r == HEADER + 4 * NumChs(buf)
    ensures reply.TooShort? <==> 0 <= r < HEADER
  {
    if SizeT(r) < HEADER then TooShort
    else if SizeT(r) != SizeT(HEADER + 4 * NumChs(buf)) then WrongLength
    else Accepted(Unwords(buf[HEADER..r]))
  }

  /** The client accepts a packet, whatever the unset fields, and reads back the same vector. */
  lemma PacketRoundTrip(v: seq<uint32>, gap: seq<byte>, tail: seq<byte>, buf: seq<byte>)
    requires |v| == CHANNELS && |gap| == 12 && |tail| == 8
    requires |buf| == BUFFER && Packet(v, gap, tail) <= buf
    ensures Receive(|Packet(v, gap, tail)|, buf) == Accepted(v)
  {
    hide LittleEndian;
    var p := Packet(v, gap, tail);
    Pow256Values();
    LittleEndianRoundTrip(4, CHANNELS);
    assert p[16..20] == LittleEndian(4, CHANNELS);
    assert buf[16..20] == p[16..20];
    assert buf[HEADER..|p|] == p[HEADER..] == Words(v);
    WordsRoundTrip(v);
  }

  /** The packet byte by byte: POWER, the number of channels, milliwatts, and the vector word by word. */
  lemma PacketLayout(v: seq<uint32>, gap: seq<byte>, tail: seq<byte>)
    requires |v| == 16 && |gap| == 12 && |tail| == 8
    ensures var p := Packet(v, gap, tail);
      && |p| == 96
      && p[..4] == [2, 0, 0, 0] && p[4..16] == gap
      && p[16..20] == [16, 0, 0, 0] && p[20..24] == [0, 4, 4, 0] && p[24..32] == tail
      && forall i :: 0 <= i < 16 ==> p[32 + 4 * i..36 + 4 * i] == LittleEndian(4, v[i])
  {
    FourBytes(2);
    FourBytes(16);
    FourBytes(0x040400);
    hide LittleEndian, Words;
    var p := Packet(v, gap, tail);
    assert p[32..] == Words(v);
    forall i | 0 <= i < 16 ensures p[32 + 4 * i..36 + 4 * i] == LittleEndian(4, v[i]) {
      WordAt(v, i);
      assert p[32 + 4 * i..36 + 4 * i] == p[32..][4 * i..4 * i + 4];
    }
  }

  lemma FourBytes(x: nat)
    requires x < 0x100_0000
    ensures LittleEndian(4, x) == [x % 256, x / 256 % 256, x / 256 / 256, 0]
  {
    assert LittleEndian(2, x / 256 / 256) == [x / 256 / 256, 0];
    assert LittleEndian(3, x / 256) == [x / 256 % 256] + LittleEndian(2, x / 256 / 256);
  }

  lemma {:induction false} WordAt(v: seq<uint32>, i: nat)
    requires i < |v|
    ensures Words(v)[4 * i..4 * i + 4] == LittleEndian(4, v[i])
  {
    hide LittleEndian;
    if i > 0 {
      WordAt(v[1..], i - 1);
      assert Words(v)[4..] == Words(v[1..]);
      assert Words(v)[4 * i..4 * i + 4] == Words(v)[4..][4 * (i - 1)..4 * (i - 1) + 4];
    }
  }
}
