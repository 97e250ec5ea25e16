/**
 * The foreign primitives the core orchestrates, as parameters: the Bluetooth
 * crypto toolbox functions h6, h7 and h8 (section 2.2 of Part H, Volume 3 of
 * the Bluetooth Core Specification) and TinyCrypt's AES-128 key schedule with
 * CCM decryption and verification. Their code is not part of this model, so
 * the model states nothing about what they compute.
 */
module Crypto {
  import opened Octet
  import opened Bytes

  /** A 16-byte block: a salt, a key, a Broadcast Code, an h-function's output. */
  type Block = s: seq<byte> | |s| == 16 witness Zeros(16)

  /** What an h-function hands back: its int status (0 is success) and the 16 bytes it wrote to `out`. */
  datatype KdfOut = KdfOut(ret: int, out: Block)

  /**
   * bt_crypto_h7(salt, w, out), bt_crypto_h6(w, key_id, out) and
   * bt_crypto_h8(k, s, key_id, out); a key_id is four bytes.
   */
  datatype Toolbox = Toolbox(
    h7: (Block, Block) -> KdfOut,
    h6: (Block, seq<byte>) -> KdfOut,
    h8: (Block, Block, seq<byte>) -> KdfOut)

  /**
   * The CCM state tc_ccm_config fills: the AES key schedule (expanded from
   * `key` by tc_aes128_set_encrypt_key), the nonce bytes, the nonce length and
   * the tag length.
   */
  datatype CcmContext = CcmContext(key: Block, nonce: seq<byte>, nonceLen: nat, tagLen: nat)

  /**
   * The other arguments of tc_ccm_decryption_verification: the output length,
   * the associated data (its length is the length of `aad`), and the payload
   * given as an offset into the PDU buffer with a length.
   */
  datatype DecryptArgs = DecryptArgs(outLen: nat, aad: seq<byte>, payloadStart: nat, payloadLen: nat)

  /** TinyCrypt's status (0 is failure) and the bytes it wrote to `out`. */
  datatype CcmOut = CcmOut(ret: int, plaintext: seq<byte>)

  /** tc_ccm_config and tc_ccm_decryption_verification; the PDU buffer is the second argument of the latter. */
  datatype Ccm = Ccm(
    config: CcmContext -> int,
    decryptVerify: (CcmContext, seq<byte>, DecryptArgs) -> CcmOut)
}
