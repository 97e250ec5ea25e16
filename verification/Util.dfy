/**
 * util.c: the BIS access address of a stream and the byte-wise XOR helper.
 * The access address follows section 2.1.2 of Part B, Volume 6 of the
 * Bluetooth Core Specification, version 5.2.
 */
module Util {
  import opened Octet
  import opened Bytes

  /** Bit k of a byte. */
  predicate Bit(x: byte, k: nat)
    requires k < 8
  {
    (x >> k) & 1 == 1
  }

  /** Bit k of a 32-bit word. */
  predicate Bit32(x: bv32, k: nat)
    requires k < 32
  {
    (x >> k) & 1 == 1
  }

  /** The diversifier d of BIS number `bis`, as util.c:32 computes it. */
  function Diversifier(bis: byte): byte
  {
    (35 * bis + 42) & 0x7f
  }

  /** d is (35 * bis + 42) mod 128, so it lies in [0, 127]. */
  lemma DiversifierIsMod128(bis: byte)
    ensures Diversifier(bis) as int == (35 * bis as int + 42) % 128
    ensures 0 <= Diversifier(bis) as int < 128
  {
    ByteTimes35(bis);
    BytePlus42(35 * bis);
    ByteLow7(35 * bis + 42);
    WrapThenLow7(35 * bis as int);
  }

  /**
   * The C evaluates `35 * bis + 42` in int (at most 8967, so 16 bits are
   * exact) before masking; wrapping at 8 bits gives the same low seven bits.
   */
  lemma DiversifierEightBitsSuffice(bis: byte)
    ensures Diversifier(bis) == ((35 * (bis as bv16) + 42) & 0x7f) as byte
  {
  }

  /** The two most significant bytes of the 32-bit word DW: dwh[0] and dwh[1]. */
  datatype DwHigh = DwHigh(lo: byte, hi: byte)

  /** dwh[0] and dwh[1] of util_bis_aa_le32, from d. */
  function Dwh(d: byte): DwHigh
  {
    var hi: byte := if d & 1 != 0 then 0xFC else 0;
    DwHigh(((d & 0x02) << 6) | (d & 0x30) | ((d & 0x0C) >> 1),
           hi | (d & 0x02) | ((d >> 6) & 0x01))
  }

  /**
   * dwh[1] is six copies of bit 0 of d, then bit 1 and bit 6 of d;
   * dwh[0] holds bits 1, 5, 4, 3, 2 of d, with bits 6, 3 and 0 left zero.
   */
  lemma DwhBits(d: byte)
    ensures forall k :: 2 <= k < 8 ==> Bit(Dwh(d).hi, k) == Bit(d, 0)
    ensures Bit(Dwh(d).hi, 1) == Bit(d, 1) && Bit(Dwh(d).hi, 0) == Bit(d, 6)
    ensures Bit(Dwh(d).lo, 7) == Bit(d, 1) && !Bit(Dwh(d).lo, 6)
    ensures Bit(Dwh(d).lo, 5) == Bit(d, 5) && Bit(Dwh(d).lo, 4) == Bit(d, 4) && !Bit(Dwh(d).lo, 3)
    ensures Bit(Dwh(d).lo, 2) == Bit(d, 3) && Bit(Dwh(d).lo, 1) == Bit(d, 2) && !Bit(Dwh(d).lo, 0)
  {
  }

  /** Bit k of d as a 32-bit word, 0 or 1. */
  function BitWord(d: byte, k: nat): bv32
    requires k < 8
  {
    ((d >> k) & 1) as bv32
  }

  /**
   * DW as util.c:37-45 builds it, most significant bit first: bits 31..26
   * repeat d0, then d1 d6 d1 0 d5 d4 0 d3 d2, and the low seventeen bits are
   * zero. (The comment at util.c:42 says only that bits 25 to 17 are set;
   * this layout is read from the expressions at util.c:44-45.)
   */
  function DwWord(d: byte): bv32
    requires d < 128
  {
    (if Bit(d, 0) then 0xFC00_0000 else 0)
    | (BitWord(d, 1) << 25) | (BitWord(d, 6) << 24) | (BitWord(d, 1) << 23) | (BitWord(d, 5) << 21)
    | (BitWord(d, 4) << 20) | (BitWord(d, 3) << 18) | (BitWord(d, 2) << 17)
  }

  /** A little-endian 32-bit word from four bytes. */
  function Le32(s: seq<byte>): bv32
    requires |s| == 4
  {
    (s[0] as bv32) | ((s[1] as bv32) << 8) | ((s[2] as bv32) << 16) | ((s[3] as bv32) << 24)
  }

  /** The access address of BIS `bis` for seed access address `saa`, as util_bis_aa_le32 leaves it in dst. */
  function AccessAddress(bis: byte, saa: seq<byte>): (aa: seq<byte>)
    requires |saa| == 4
    ensures |aa| == 4
  {
    var w := Dwh(Diversifier(bis));
    [saa[0], saa[1], saa[2] ^ w.lo, saa[3] ^ w.hi]
  }

  /** util_bis_aa_le32: copy the seed into dst, then perturb its two high bytes. */
  method UtilBisAaLe32(bis: byte, saa: seq<byte>, dst: array<byte>)
    requires |saa| == 4 && dst.Length >= 4
    modifies dst
    ensures dst[..4] == AccessAddress(bis, saa)
    ensures forall k :: 4 <= k < dst.Length ==> dst[k] == old(dst[k])
  {
    ghost var aa := AccessAddress(bis, saa);
    var dwh := Dwh(Diversifier(bis));
    dst[0], dst[1], dst[2], dst[3] := saa[0], saa[1], saa[2], saa[3];
    dst[3] := dst[3] ^ dwh.hi;
    dst[2] := dst[2] ^ dwh.lo;
    assert dst[0] == aa[0] && dst[1] == aa[1] && dst[2] == aa[2] && dst[3] == aa[3];
  }

  /** Only bytes 2 and 3 of the seed change. */
  lemma AccessAddressKeepsLowBytes(bis: byte, saa: seq<byte>)
    requires |saa| == 4
    ensures AccessAddress(bis, saa)[0] == saa[0] && AccessAddress(bis, saa)[1] == saa[1]
  {
  }

  /** dwh[0] and dwh[1] are bytes 2 and 3 of DW. */
  lemma DwhIsDwWord(d: byte)
    requires d < 128
    ensures ((Dwh(d).lo as bv32) << 16) | ((Dwh(d).hi as bv32) << 24) == DwWord(d)
  {
  }

  /** XORing bytes 2 and 3 of a word is XORing the word with those bytes shifted into place. */
  lemma Le32XorHigh(s: seq<byte>, lo: byte, hi: byte)
    requires |s| == 4
    ensures Le32([s[0], s[1], s[2] ^ lo, s[3] ^ hi]) == Le32(s) ^ (((lo as bv32) << 16) | ((hi as bv32) << 24))
  {
  }

  /** The access address is the seed XOR DW, read as little-endian 32-bit words. */
  lemma AccessAddressIsSeedXorDw(bis: byte, saa: seq<byte>)
    requires |saa| == 4
    ensures Le32(AccessAddress(bis, saa)) == Le32(saa) ^ DwWord(Diversifier(bis))
  {
    var d := Diversifier(bis);
    var w := Dwh(d);
    DwhIsDwWord(d);
    Le32XorHigh(saa, w.lo, w.hi);
  }

  /** dst XOR saa depends on the stream number only. */
  lemma AccessAddressMaskIndependentOfSeed(bis: byte, saa1: seq<byte>, saa2: seq<byte>)
    requires |saa1| == 4 && |saa2| == 4
    ensures forall k :: 0 <= k < 4 ==>
      AccessAddress(bis, saa1)[k] ^ saa1[k] == AccessAddress(bis, saa2)[k] ^ saa2[k]
  {
  }

  /** BIS 1: d = 77, byte 2 flips by 0x06 and byte 3 by 0xFD. */
  lemma AccessAddressBis1(saa: seq<byte>)
    requires |saa| == 4
    ensures Diversifier(1) == 77
    ensures AccessAddress(1, saa) == [saa[0], saa[1], saa[2] ^ 0x06, saa[3] ^ 0xFD]
  {
  }

  /** mem_xor_n: dst[k] = src1[k] ^ src2[k] for the first len bytes, the rest untouched. */
  method MemXorN(dst: array<byte>, src1: seq<byte>, src2: seq<byte>, len: nat)
    requires len <= dst.Length && len <= |src1| && len <= |src2|
    modifies dst
    ensures forall k :: 0 <= k < len ==> dst[k] == src1[k] ^ src2[k]
    ensures forall k :: len <= k < dst.Length ==> dst[k] == old(dst[k])
  {
    var n, i := len, 0;
    while n > 0
      invariant 0 <= n && i + n == len
      invariant forall k :: 0 <= k < i ==> dst[k] == src1[k] ^ src2[k]
      invariant forall k :: i <= k < dst.Length ==> dst[k] == old(dst[k])
    {
      dst[i] := src1[i] ^ src2[i];
      i, n := i + 1, n - 1;
    }
  }
}
