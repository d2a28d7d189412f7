/** Synchsafe integers (section 6.2 of the ID3v2.4.0 structure document): a
    28-bit value spread over four bytes whose high bits are kept clear. */
module Synchsafe {
  import opened JavaRuntime

  /** `b & 0x7F`: the seven low bits of a byte. */
  function Low7(b: Byte): (r: int)
    ensures 0 <= r < 0x80
    ensures b < 0x80 ==> r == b
    ensures b >= 0x80 ==> r == b - 0x80
  {
    b % 0x80
  }

  /** `(b0 & 0x7F) << 21 | (b1 & 0x7F) << 14 | (b2 & 0x7F) << 7 | (b3 & 0x7F)`.
      The four seven-bit fields do not overlap, so or-ing the shifted fields is
      adding them. */
  function Decode(b0: Byte, b1: Byte, b2: Byte, b3: Byte): (r: int)
    ensures 0 <= r < 0x1000_0000
  {
    Low7(b0) * 0x20_0000 + Low7(b1) * 0x4000 + Low7(b2) * 0x80 + Low7(b3)
  }

  /** The source's mask `b & 0x7F` on a byte is `Low7`. */
  lemma MaskIsLow7(b: bv8)
    ensures (b & 0x7F) as int == Low7(b as int)
  {
  }

  /** On 32-bit ints, or-ing the four shifted seven-bit fields is adding them
      with the shifts written as multiplications: the fields do not overlap,
      and the sum stays below 2^28, so nothing wraps around. */
  lemma OrOfShiftsIsSum(x: bv32, y: bv32, z: bv32, w: bv32)
    requires x < 0x80 && y < 0x80 && z < 0x80 && w < 0x80
    ensures (x << 21) | (y << 14) | (z << 7) | w == x * 0x20_0000 + y * 0x4000 + z * 0x80 + w
    ensures x * 0x20_0000 + y * 0x4000 + z * 0x80 + w < 0x1000_0000
  {
  }

  /** The synchsafe bytes of a 28-bit value, most significant first. */
  function Encode(n: int): (bytes: seq<Byte>)
    requires 0 <= n < 0x1000_0000
    ensures |bytes| == 4 && forall i :: 0 <= i < 4 ==> bytes[i] < 0x80
  {
    var m1 := n / 0x80;
    var m2 := m1 / 0x80;
    [m2 / 0x80, m2 % 0x80, m1 % 0x80, n % 0x80]
  }

  /** Every 28-bit value is the decoding of its encoding. */
  lemma DecodeEncode(n: int)
    requires 0 <= n < 0x1000_0000
    ensures var b := Encode(n); Decode(b[0], b[1], b[2], b[3]) == n
  {
    var b := Encode(n);
    var m1 := n / 0x80;
    var m2 := m1 / 0x80;
    assert n == m1 * 0x80 + b[3];
    assert m1 == m2 * 0x80 + b[2];
    assert m2 == b[0] as int * 0x80 + b[1];
  }

  /** Four bytes with clear high bits are the encoding of their decoding. */
  lemma EncodeDecode(b0: Byte, b1: Byte, b2: Byte, b3: Byte)
    requires b0 < 0x80 && b1 < 0x80 && b2 < 0x80 && b3 < 0x80
    ensures Encode(Decode(b0, b1, b2, b3)) == [b0, b1, b2, b3]
  {
    var n := Decode(b0, b1, b2, b3);
    assert n == b0 * 0x20_0000 + (b1 * 0x4000 + b2 * 0x80 + b3);
    assert n / 0x80 == b0 * 0x4000 + b1 * 0x80 + b2;
    assert n / 0x80 / 0x80 == b0 * 0x80 + b1;
  }

  /** The high bit of every byte is ignored. */
  lemma DecodeIgnoresHighBits(b0: Byte, b1: Byte, b2: Byte, b3: Byte)
    ensures Decode(b0, b1, b2, b3) == Decode(Low7(b0), Low7(b1), Low7(b2), Low7(b3))
  {
  }

  /** Two quadruples of seven-bit bytes decode to the same value only when
      they are the same bytes. */
  lemma DecodeInjective(a: seq<Byte>, b: seq<Byte>)
    requires |a| == 4 && |b| == 4
    requires forall i :: 0 <= i < 4 ==> a[i] < 0x80 && b[i] < 0x80
    requires Decode(a[0], a[1], a[2], a[3]) == Decode(b[0], b[1], b[2], b[3])
    ensures a == b
  {
    EncodeDecode(a[0], a[1], a[2], a[3]);
    EncodeDecode(b[0], b[1], b[2], b[3]);
    assert a == [a[0], a[1], a[2], a[3]];
    assert b == [b[0], b[1], b[2], b[3]];
  }
}
