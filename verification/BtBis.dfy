/**
 * bt_bis.c: the IV and nonce of a BIS, the Group Session Key derivation
 * chain h7 -> h6 -> h8, and the CCM decryption of one encrypted BIS PDU.
 */
module BtBis {
  import opened Octet
  import opened Bytes
  import opened Util
  import opened Crypto

  /* ---------------------------------------------------------------- IV */

  /** The GIV with its low four bytes XORed with the access address `aa`. */
  function XorIv(giv: seq<byte>, aa: seq<byte>): (iv: seq<byte>)
    requires |giv| == 8 && |aa| == 4
  {
    [giv[0] ^ aa[0], giv[1] ^ aa[1], giv[2] ^ aa[2], giv[3] ^ aa[3]] + giv[4..8]
  }

  /** The IV of stream `bisNum`, from the GIV and the seed access address. */
  function Iv(giv: seq<byte>, saa: seq<byte>, bisNum: byte): (iv: seq<byte>)
    requires |giv| == 8 && |saa| == 4
  {
    XorIv(giv, AccessAddress(bisNum, saa))
  }

  /** bt_bis_iv: copy the high half of the GIV, then XOR the low half with the access address. */
  method BisIv(giv: seq<byte>, saa: seq<byte>, bisNum: byte, iv: array<byte>)
    requires |giv| == 8 && |saa| == 4 && iv.Length == 8
    modifies iv
    ensures iv[..] == Iv(giv, saa, bisNum)
  {
    var aa := new byte[4];
    iv[4], iv[5], iv[6], iv[7] := giv[4], giv[5], giv[6], giv[7];
    UtilBisAaLe32(bisNum, saa, aa);
    ghost var a := aa[..];
    assert a == aa[..4];
    MemXorN(iv, giv, aa[..], 4);
    assert iv[..] == XorIv(giv, a);
  }

  /** iv = giv XOR (aa, 0, 0, 0, 0) where aa is util_bis_aa_le32(bis_num, saa): XORing aa back gives the GIV. */
  lemma IvIsGivXorAccessAddress(giv: seq<byte>, saa: seq<byte>, bisNum: byte)
    requires |giv| == 8 && |saa| == 4
    ensures |Iv(giv, saa, bisNum)| == 8
    ensures Iv(giv, saa, bisNum)[4..] == giv[4..]
    ensures var iv, aa := Iv(giv, saa, bisNum), AccessAddress(bisNum, saa);
      iv[0] ^ aa[0] == giv[0] && iv[1] ^ aa[1] == giv[1] && iv[2] ^ aa[2] == giv[2] && iv[3] ^ aa[3] == giv[3]
  {
  }

  /** For BIS 1, the stream the search uses, the IV differs from GIV XOR SAA in bytes 2 and 3 only. */
  lemma IvOfBis1(giv: seq<byte>, saa: seq<byte>)
    requires |giv| == 8 && |saa| == 4
    ensures Iv(giv, saa, 1) ==
      [giv[0] ^ saa[0], giv[1] ^ saa[1], giv[2] ^ saa[2] ^ 0x06, giv[3] ^ saa[3] ^ 0xFD] + giv[4..]
  {
    AccessAddressBis1(saa);
  }

  /* ------------------------------------------------------------- nonce */

  /**
   * Byte 4 of the nonce: `nonce[4] |= direction << 7`, evaluated in int and
   * stored back into a uint8_t.
   */
  function DirectionByte(pc4: byte, direction: byte): byte
  {
    (((pc4 as bv16) | ((direction as bv16) << 7)) & 0xFF) as byte
  }

  /** The 13-byte CCM nonce: five payload-count bytes (direction in the top bit) then the IV. */
  function Nonce(pc: seq<byte>, iv: seq<byte>, direction: byte): (n: seq<byte>)
    requires |pc| >= 5 && |iv| == 8
  {
    pc[..4] + [DirectionByte(pc[4], direction)] + iv
  }

  /** bt_bis_nonce: memcpy five count bytes, OR in the direction bit, memcpy the IV behind them. */
  method BisNonce(pc: seq<byte>, iv: seq<byte>, direction: byte, nonce: array<byte>)
    requires |pc| >= 5 && |iv| == 8 && nonce.Length == 13
    modifies nonce
    ensures nonce[..] == Nonce(pc, iv, direction)
  {
    nonce[0], nonce[1], nonce[2], nonce[3], nonce[4] := pc[0], pc[1], pc[2], pc[3], pc[4];
    nonce[4] := DirectionByte(nonce[4], direction);
    forall k | 0 <= k < 8 {
      nonce[5 + k] := iv[k];
    }
    assert nonce[..4] == pc[..4] && nonce[5..] == iv;
    assert nonce[..] == nonce[..4] + [nonce[4]] + nonce[5..];
  }

  /**
   * The nonce is the count bytes 0..3, then count byte 4 with bit 7 raised
   * when bit 0 of `direction` is set (bits 0..6 untouched, bit 7 never
   * cleared), then the IV unchanged.
   */
  lemma NonceLayout(pc: seq<byte>, iv: seq<byte>, direction: byte)
    requires |pc| >= 5 && |iv| == 8
    ensures |Nonce(pc, iv, direction)| == 13
    ensures Nonce(pc, iv, direction)[..4] == pc[..4]
    ensures Nonce(pc, iv, direction)[5..] == iv
    ensures Nonce(pc, iv, direction)[4] & 0x7F == pc[4] & 0x7F
    ensures Bit(Nonce(pc, iv, direction)[4], 7) == (Bit(pc[4], 7) || Bit(direction, 0))
  {
    var b := Nonce(pc, iv, direction)[4];
    assert b == pc[4] | (direction << 7);
  }

  /* --------------------------------------------------------------- GSK */

  /** The h7 salt "BIG1", least significant octet first, padded with twelve zero bytes. */
  const BigSalt: Block := [0x31, 0x47, 0x49, 0x42] + Zeros(12)

  /** The h6 key id "BIG2". */
  const KeyIdBig2: seq<byte> := [0x32, 0x47, 0x49, 0x42]

  /** The h8 key id "BIG3". */
  const KeyIdBig3: seq<byte> := [0x33, 0x47, 0x49, 0x42]

  /** The three constants spell "BIG1", "BIG2" and "BIG3" with the octets in reverse order. */
  lemma GskConstantsSpellBig()
    ensures forall k :: 0 <= k < 4 ==> BigSalt[k] as int == "BIG1"[3 - k] as int
    ensures forall k :: 0 <= k < 4 ==> KeyIdBig2[k] as int == "BIG2"[3 - k] as int
    ensures forall k :: 0 <= k < 4 ==> KeyIdBig3[k] as int == "BIG3"[3 - k] as int
    ensures AllZero(BigSalt[4..])
  {
  }

  /**
   * What bt_bis_gsk leaves behind: its return value, and what it wrote to
   * `gsk` (None when the chain stopped before h8 wrote there).
   */
  datatype GskOutcome = GskOutcome(ret: int, wrote: Option<Block>)

  /** The 16-byte reversal of a block, as sys_mem_swap(gsk, 16) leaves it. */
  function Swapped(b: Block): Block
  {
    ReverseAt(b);
    Reverse(b)
  }

  /** IGLTK = h7("BIG1", code); GLTK = h6(IGLTK, "BIG2"); GSK = h8(GLTK, GSKD, "BIG3"), octet-swapped. */
  function DeriveGsk(tb: Toolbox, code: Block, gskd: Block): GskOutcome
  {
    var igltk := tb.h7(BigSalt, code);
    if igltk.ret != 0 then GskOutcome(igltk.ret, None)
    else
      var gltk := tb.h6(igltk.out, KeyIdBig2);
      if gltk.ret != 0 then GskOutcome(gltk.ret, None)
      else
        var gsk := tb.h8(gltk.out, gskd, KeyIdBig3);
        if gsk.ret != 0 then GskOutcome(gsk.ret, Some(gsk.out))
        else GskOutcome(0, Some(Swapped(gsk.out)))
  }

  /** sys_mem_swap(buf, 16): reverse the buffer in place. */
  method SysMemSwap(buf: array<byte>)
    requires buf.Length == 16
    modifies buf
    ensures buf[..] == Swapped(old(buf[..]))
  {
    ghost var was := buf[..];
    forall k | 0 <= k < 16 {
      buf[k] := buf[15 - k];
    }
    ReverseAt(was);
    assert buf[..] == Reverse(was);
  }

  /** bt_bis_gsk: the three stages, each returning its nonzero status at once. */
  method BisGsk(tb: Toolbox, broadcastCode: Block, gskd: Block, gsk: array<byte>) returns (ret: int)
    requires gsk.Length == 16
    modifies gsk
    ensures ret == DeriveGsk(tb, broadcastCode, gskd).ret
    ensures DeriveGsk(tb, broadcastCode, gskd).wrote.None? ==> gsk[..] == old(gsk[..])
    ensures DeriveGsk(tb, broadcastCode, gskd).wrote.Some? ==>
      gsk[..] == DeriveGsk(tb, broadcastCode, gskd).wrote.value
  {
    var salt := BigSalt;
    var igltk := tb.h7(salt, broadcastCode);
    ret := igltk.ret;
    if ret != 0 {
      return;
    }
    var gltk := tb.h6(igltk.out, KeyIdBig2);
    ret := gltk.ret;
    if ret != 0 {
      return;
    }
    var h8 := tb.h8(gltk.out, gskd, KeyIdBig3);
    forall k | 0 <= k < 16 {
      gsk[k] := h8.out[k];
    }
    assert gsk[..] == h8.out;
    ret := h8.ret;
    if ret != 0 {
      return;
    }
    SysMemSwap(gsk);
    return 0;
  }

  /** A failing h7 decides the result alone: h6 and h8 play no part. */
  lemma GskStopsAfterH7(tb: Toolbox, code: Block, gskd: Block)
    requires tb.h7(BigSalt, code).ret != 0
    ensures DeriveGsk(tb, code, gskd) == GskOutcome(tb.h7(BigSalt, code).ret, None)
  {
  }

  /** After a good h7, a failing h6 decides the result: h8 plays no part. */
  lemma GskStopsAfterH6(tb: Toolbox, code: Block, gskd: Block)
    requires tb.h7(BigSalt, code).ret == 0
    requires tb.h6(tb.h7(BigSalt, code).out, KeyIdBig2).ret != 0
    ensures DeriveGsk(tb, code, gskd) ==
      GskOutcome(tb.h6(tb.h7(BigSalt, code).out, KeyIdBig2).ret, None)
  {
  }

  /**
   * The return value is 0 exactly when all three stages return 0; a failing
   * h8's status comes back unchanged with its raw output left in gsk; on
   * success gsk is h8's output octet-swapped, and swapping it back gives
   * h8's output.
   */
  lemma GskResult(tb: Toolbox, code: Block, gskd: Block)
    ensures var r := DeriveGsk(tb, code, gskd);
      var k1 := tb.h7(BigSalt, code);
      var k2 := tb.h6(k1.out, KeyIdBig2);
      var k3 := tb.h8(k2.out, gskd, KeyIdBig3);
      && (r.ret == 0 <==> k1.ret == 0 && k2.ret == 0 && k3.ret == 0)
      && (k1.ret == 0 && k2.ret == 0 && k3.ret != 0 ==> r.ret == k3.ret && r.wrote == Some(k3.out))
      && (r.ret == 0 ==> r.wrote.Some? && Reverse(r.wrote.value) == k3.out
                         && forall j :: 0 <= j < 16 ==> r.wrote.value[j] == k3.out[15 - j])
  {
    var k1 := tb.h7(BigSalt, code);
    var k2 := tb.h6(k1.out, KeyIdBig2);
    var k3 := tb.h8(k2.out, gskd, KeyIdBig3);
    ReverseReverse(k3.out);
    ReverseAt(k3.out);
  }

  /* ------------------------------------------------------- PDU decrypt */

  /** The header bits kept in the associated data: LLID and RFU; CSSN and CSTF are masked out. */
  const AadMask: byte := 0xC3

  /** An int handed to an `unsigned int` parameter. */
  function U32(x: int): nat
  {
    x % 0x1_0000_0000
  }

  /**
   * The arguments bt_bis_pdu_decrypt hands to tc_ccm_decryption_verification:
   * output length `pdu[1] - 4`, the one-byte AAD `pdu[0] & 0xC3`, and the
   * payload at `pdu + 2 + nrf` of length `plen - 2 - nrf`.
   */
  function DecryptArgsOf(pdu: seq<byte>, plen: byte, nrf: byte): DecryptArgs
    requires |pdu| >= 2
  {
    DecryptArgs(U32(pdu[1] as int - 4), [pdu[0] & AadMask], 2 + nrf as int,
                U32(plen as int - 2 - nrf as int))
  }

  /** The CCM configuration: key schedule from the GSK, 13-byte nonce, 4-byte tag. */
  function CcmContextOf(gsk: Block, nonce: seq<byte>): CcmContext
    requires |nonce| >= 13
  {
    CcmContext(gsk, nonce[..13], 13, 4)
  }

  /** What bt_bis_pdu_decrypt returns, and the bytes TinyCrypt wrote to `out` (none when it never ran). */
  datatype DecryptOutcome = DecryptOutcome(ret: int, written: seq<byte>)

  function PduDecrypt(ccm: Ccm, pdu: seq<byte>, plen: byte, gsk: Block, nonce: seq<byte>, nrf: byte): DecryptOutcome
    requires |pdu| >= 2 && |nonce| >= 13
  {
    if nrf != 0 && nrf != 1 then DecryptOutcome(-1, [])
    else
      var c := CcmContextOf(gsk, nonce);
      if ccm.config(c) == 0 then DecryptOutcome(-1, [])
      else
        var r := ccm.decryptVerify(c, pdu, DecryptArgsOf(pdu, plen, nrf));
        DecryptOutcome(if r.ret == 0 then -1 else 0, r.plaintext)
  }

  /** bt_bis_pdu_decrypt: check nrf, configure CCM, decrypt and verify; 0 on success, -1 otherwise. */
  method BisPduDecrypt(ccm: Ccm, pdu: seq<byte>, plen: byte, gsk: Block, nonce: seq<byte>, nrf: byte,
                       out: array<byte>) returns (ret: int)
    requires |pdu| >= 2 && |nonce| >= 13
    modifies out
    ensures ret == PduDecrypt(ccm, pdu, plen, gsk, nonce, nrf).ret
    ensures var w := PduDecrypt(ccm, pdu, plen, gsk, nonce, nrf).written;
      forall k :: 0 <= k < out.Length ==>
        out[k] == if k < |w| then w[k] else old(out[k])
  {
    if nrf != 0 && nrf != 1 {
      return -1;
    }
    var c := CcmContextOf(gsk, nonce);
    ret := ccm.config(c);
    if ret == 0 {
      return -1;
    }
    var aad := pdu[0] & AadMask;
    var r := ccm.decryptVerify(c, pdu, DecryptArgs(U32(pdu[1] as int - 4), [aad], 2 + nrf as int,
                                                  U32(plen as int - 2 - nrf as int)));
    forall k | 0 <= k < out.Length && k < |r.plaintext| {
      out[k] := r.plaintext[k];
    }
    ret := r.ret;
    if ret == 0 {
      return -1;
    }
    return 0;
  }

  /** An nrf other than 0 or 1 gives -1 before any CCM work, whatever CCM would do. */
  lemma PduDecryptRejectsBadNrf(ccm: Ccm, pdu: seq<byte>, plen: byte, gsk: Block, nonce: seq<byte>, nrf: byte)
    requires |pdu| >= 2 && |nonce| >= 13
    requires nrf > 1
    ensures PduDecrypt(ccm, pdu, plen, gsk, nonce, nrf) == DecryptOutcome(-1, [])
  {
  }

  /**
   * The result is 0 or -1, and 0 exactly when nrf is 0 or 1, the CCM
   * configuration with a 13-byte nonce and a 4-byte tag succeeds, and the
   * tag verifies.
   */
  lemma PduDecryptResult(ccm: Ccm, pdu: seq<byte>, plen: byte, gsk: Block, nonce: seq<byte>, nrf: byte)
    requires |pdu| >= 2 && |nonce| >= 13
    ensures var r := PduDecrypt(ccm, pdu, plen, gsk, nonce, nrf);
      var c := CcmContext(gsk, nonce[..13], 13, 4);
      && (r.ret == 0 || r.ret == -1)
      && (r.ret == 0 <==> nrf <= 1 && ccm.config(c) != 0
                          && ccm.decryptVerify(c, pdu, DecryptArgsOf(pdu, plen, nrf)).ret != 0)
  {
  }

  /**
   * The associated data is one byte keeping the LLID and RFU bits of the
   * header and zeroing CSSN and CSTF; the output length is `pdu[1] - 4`
   * (wrapping as an unsigned int below 4); the payload starts 2 + nrf bytes
   * in and, when `plen` reaches past it, spans the remaining `plen - 2 - nrf`
   * bytes of the PDU.
   */
  lemma DecryptArgsLayout(pdu: seq<byte>, plen: byte, nrf: byte)
    requires |pdu| >= 2 && nrf <= 1
    ensures var a := DecryptArgsOf(pdu, plen, nrf);
      && |a.aad| == 1
      && a.aad[0] & 0x3C == 0
      && a.aad[0] & 0xC3 == pdu[0] & 0xC3
      && (pdu[1] >= 4 ==> a.outLen == pdu[1] as int - 4)
      && (pdu[1] < 4 ==> a.outLen == 0x1_0000_0000 + pdu[1] as int - 4)
      && a.payloadStart == 2 + nrf as int
      && (plen as int >= 2 + nrf as int ==>
            a.payloadLen == plen as int - 2 - nrf as int
            && (plen as int <= |pdu| ==> |pdu[a.payloadStart .. a.payloadStart + a.payloadLen]| == a.payloadLen))
  {
  }
}
