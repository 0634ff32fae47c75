/** Bytes on a wire, and the little-endian integers that memcpy puts there. */
module Bytes {
  type byte = x: int | 0 <= x < 256

  type uint32 = x: int | 0 <= x < 0x1_0000_0000

  type uint64 = x: int | 0 <= x < 0x1_0000_0000_0000_0000

  function Pow256(n: nat): (p: nat)
    ensures p > 0
  {
    if n == 0 then 1 else 256 * Pow256(n - 1)
  }

  lemma Pow256Values()
    ensures Pow256(4) == 0x1_0000_0000
    ensures Pow256(8) == 0x1_0000_0000_0000_0000
  {
    assert Pow256(2) == 0x1_0000;
    assert Pow256(4) == 0x1_0000_0000;
    assert Pow256(6) == 0x1_0000_0000_0000;
  }

  function LittleEndian(width: nat, value: nat): (bytes: seq<byte>)
    ensures |bytes| == width
  {
    if width == 0 then [] else [value % 256] + LittleEndian(width - 1, value / 256)
  }

  function FromLittleEndian(bytes: seq<byte>): (value: nat)
    ensures value < Pow256(|bytes|)
  {
    if bytes == [] then 0 else bytes[0] + 256 * FromLittleEndian(bytes[1..])
  }

  /** Reading back what was written gives the number, when the width can hold it. */
  lemma {:induction false} LittleEndianRoundTrip(width: nat, value: nat)
    requires value < Pow256(width)
    ensures FromLittleEndian(LittleEndian(width, value)) == value
  {
    if width > 0 {
      LittleEndianRoundTrip(width - 1, value / 256);
      assert LittleEndian(width, value)[1..] == LittleEndian(width - 1, value / 256);
    }
  }

  /** Byte i of a number on the wire is its digit of weight 256^i, the lowest first. */
  lemma {:induction false} ByteOrder(width: nat, value: nat, i: nat)
    requires i < width
    ensures LittleEndian(width, value)[i] == value / Pow256(i) % 256
  {
    if i > 0 {
      ByteOrder(width - 1, value / 256, i - 1);
      DivideTwice(value, Pow256(i - 1));
    }
  }

  lemma DivideTwice(x: nat, b: nat)
    requires b > 0
    ensures x / 256 / b == x / (256 * b)
  {
    var q, rest := x / 256 / b, 256 * (x / 256 % b) + x % 256;
    Regroup(b, q);
    assert x / 256 == b * q + x / 256 % b;
    QuotientIs(x, 256 * b, q, rest);
  }

  lemma Regroup(b: nat, q: nat)
    ensures (256 * b) * q == 256 * (b * q)
  {
  }

  lemma QuotientIs(x: nat, d: nat, q: nat, rest: nat)
    requires d > 0 && x == d * q + rest && rest < d
    ensures x / d == q
  {
    if q < x / d {
      OneMore(d, q, x / d);
    } else if x / d < q {
      OneMore(d, x / d, q);
    }
  }

  lemma OneMore(d: nat, low: nat, high: nat)
    requires low < high
    ensures d * high >= d * low + d
  {
    var more := high - low - 1;
    assert d * high == d * low + d + d * more;
  }

  /** Writing back what was read gives the bytes. */
  lemma {:induction false} BytesRoundTrip(bytes: seq<byte>)
    ensures LittleEndian(|bytes|, FromLittleEndian(bytes)) == bytes
  {
    if bytes != [] {
      hide Pow256;
      BytesRoundTrip(bytes[1..]);
      var rest := FromLittleEndian(bytes[1..]);
      assert (bytes[0] + 256 * rest) % 256 == bytes[0] && (bytes[0] + 256 * rest) / 256 == rest;
    }
  }
}
