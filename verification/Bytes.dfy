/** Fixed-width little-endian integers inside byte buffers (`rd_u16`, `rd_u32`, `wr_u16`, `wr_u32`). */
module Bytes {
  type Byte = b: int | 0 <= b < 0x100
  type U16 = n: int | 0 <= n < 0x1_0000
  type U32 = n: int | 0 <= n < 0x1_0000_0000
  type U64 = n: int | 0 <= n < 0x1_0000_0000_0000_0000

  function Le16(v: U16): (s: seq<Byte>)
    ensures |s| == 2
  {
    [v % 0x100, v / 0x100]
  }

  function Le32(v: U32): (s: seq<Byte>)
    ensures |s| == 4
  {
    Le16(v % 0x1_0000) + Le16(v / 0x1_0000)
  }

  function Le64(v: U64): (s: seq<Byte>)
    ensures |s| == 8
  {
    Le32(v % 0x1_0000_0000) + Le32(v / 0x1_0000_0000)
  }

  function ReadU16(s: seq<Byte>, off: nat): U16
    requires off + 2 <= |s|
  {
    var hi: int := s[off + 1];
    s[off] + 0x100 * hi
  }

  function ReadU32(s: seq<Byte>, off: nat): U32
    requires off + 4 <= |s|
  {
    ReadU16(s, off) + 0x1_0000 * ReadU16(s, off + 2)
  }

  function ReadU64(s: seq<Byte>, off: nat): U64
    requires off + 8 <= |s|
  {
    ReadU32(s, off) + 0x1_0000_0000 * ReadU32(s, off + 4)
  }

  /** The byte of lowest weight comes first. */
  lemma LowestFirst(v: U32)
    ensures Le32(v) == [v % 0x100, v / 0x100 % 0x100, v / 0x1_0000 % 0x100, v / 0x100_0000]
  {
    var low, high := v % 0x1_0000, v / 0x1_0000;
    Shifted(v);
    assert Le16(low) == [low % 0x100, low / 0x100] && Le16(high) == [high % 0x100, high / 0x100];
    hide Le16;
  }

  lemma LowHalfFirst(v: U64)
    ensures Le64(v) == Le32(v % 0x1_0000_0000) + Le32(v / 0x1_0000_0000)
  {
  }

  lemma Shifted(v: int)
    ensures v % 0x1_0000 % 0x100 == v % 0x100 && v % 0x1_0000 / 0x100 == v / 0x100 % 0x100
    ensures v / 0x1_0000 / 0x100 == v / 0x100_0000
  {
  }

  // Reading back what was written, wherever the written bytes ended up.

  lemma Read16Back(s: seq<Byte>, off: nat, v: U16)
    requires off + 2 <= |s| && s[off..off + 2] == Le16(v)
    ensures ReadU16(s, off) == v
  {
    assert s[off] == s[off..off + 2][0] && s[off + 1] == s[off..off + 2][1];
  }

  lemma Read32Back(s: seq<Byte>, off: nat, v: U32)
    requires off + 4 <= |s| && s[off..off + 4] == Le32(v)
    ensures ReadU32(s, off) == v
  {
    assert s[off..off + 2] == s[off..off + 4][..2] == Le16(v % 0x1_0000);
    assert s[off + 2..off + 4] == s[off..off + 4][2..] == Le16(v / 0x1_0000);
    Read16Back(s, off, v % 0x1_0000);
    Read16Back(s, off + 2, v / 0x1_0000);
  }

  lemma Read64Back(s: seq<Byte>, off: nat, v: U64)
    requires off + 8 <= |s| && s[off..off + 8] == Le64(v)
    ensures ReadU64(s, off) == v
  {
    assert s[off..off + 4] == s[off..off + 8][..4] == Le32(v % 0x1_0000_0000);
    assert s[off + 4..off + 8] == s[off..off + 8][4..] == Le32(v / 0x1_0000_0000);
    Read32Back(s, off, v % 0x1_0000_0000);
    Read32Back(s, off + 4, v / 0x1_0000_0000);
  }

  /** Overwrites `|bytes|` bytes of a buffer at `off` (`memcpy` into a fixed buffer). */
  method CopyInto(buf: array<Byte>, off: nat, bytes: seq<Byte>)
    requires off + |bytes| <= buf.Length
    modifies buf
    ensures buf[off..off + |bytes|] == bytes
    ensures forall j :: 0 <= j < buf.Length && !(off <= j < off + |bytes|) ==> buf[j] == old(buf[j])
  {
    for i := 0 to |bytes|
      invariant forall j :: 0 <= j < off ==> buf[j] == old(buf[j])
      invariant forall j :: 0 <= j < i ==> buf[off + j] == bytes[j]
      invariant forall j :: off + i <= j < buf.Length ==> buf[j] == old(buf[j])
    {
      buf[off + i] := bytes[i];
    }
  }
}
