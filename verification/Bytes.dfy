/** Bytes, 512-byte sectors and little-endian fields: the units in which the
    FAT32 driver and the block device exchange data. */
module Bytes {
  type byte = b: int | 0 <= b < 256

  const U32: nat := 0x1_0000_0000

  type Sector = s: seq<byte> | |s| == 512 witness seq(512, _ => 0)

  /** The block device: a total array of sectors. */
  type Disk = seq<Sector>

  /** The little-endian 16-bit field at `o`: s[o] | s[o + 1] << 8. */
  function Le16(s: seq<byte>, o: nat): (v: nat)
    requires o + 2 <= |s|
    ensures v < 0x1_0000
  {
    s[o] as int + 0x100 * s[o + 1] as int
  }

  /** The little-endian 32-bit field at `o`. */
  function Le32(s: seq<byte>, o: nat): (v: nat)
    requires o + 4 <= |s|
    ensures v < U32
  {
    Le16(s, o) + 0x1_0000 * Le16(s, o + 2)
  }

  /** The four bytes `v & 0xFF`, `(v >> 8) & 0xFF`, ... of a 32-bit value, lowest first. */
  function Bytes32(v: nat): (bs: seq<byte>)
    ensures |bs| == 4
  {
    [v % 0x100, v / 0x100 % 0x100, v / 0x1_0000 % 0x100, v / 0x100_0000 % 0x100]
  }

  /** One byte split off, and where the next ones begin. */
  lemma SplitByte(v: nat)
    ensures v == 0x100 * (v / 0x100) + v % 0x100
  {
  }

  lemma SecondByte(v: nat)
    ensures v / 0x1_0000 == v / 0x100 / 0x100
  {
  }

  lemma ThirdByte(v: nat)
    ensures v / 0x100_0000 == v / 0x1_0000 / 0x100
  {
  }

  lemma LowPart(v: nat, low: nat, high: nat)
    requires v == low + U32 * high && low < U32
    ensures v % 0x1_0000_0000 == low
  {
  }

  /** Splitting into bytes and assembling again loses only what does not fit in 32 bits. */
  lemma BytesRoundTrip(v: nat)
    ensures Le32(Bytes32(v), 0) == v % 0x1_0000_0000
  {
    var v1, v2, v3 := v / 0x100, v / 0x1_0000, v / 0x100_0000;
    SecondByte(v);
    ThirdByte(v);
    SplitByte(v);
    SplitByte(v1);
    SplitByte(v2);
    SplitByte(v3);
    LowPart(v, Le32(Bytes32(v), 0), v3 / 0x100);
  }

  /** The field at o holds n when its four bytes are those of n, lowest first. */
  lemma Le32OfBytes(s: seq<byte>, o: nat, n: nat)
    requires o + 4 <= |s| && n < 0x1_0000_0000
    requires s[o] == n % 0x100 && s[o + 1] == n / 0x100 % 0x100
    requires s[o + 2] == n / 0x1_0000 % 0x100 && s[o + 3] == n / 0x100_0000
    ensures Le32(s, o) == n
  {
    SecondByte(n);
    ThirdByte(n);
  }

  /** `s` with `patch` written over it from `off` on: a memcpy into a buffer.  Exactly the window
      changes. */
  function Patched(s: seq<byte>, off: nat, patch: seq<byte>): (r: seq<byte>)
    requires off + |patch| <= |s|
    ensures |r| == |s|
    ensures forall i :: 0 <= i < |s| ==> r[i] == if off <= i < off + |patch| then patch[i - off] else s[i]
  {
    seq(|s|, i requires 0 <= i < |s| => if off <= i < off + |patch| then patch[i - off] else s[i])
  }
}
