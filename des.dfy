/*
 * DES and triple-DES request preparation of the EIP-93 driver: the key
 * set-up that derives the inbound and outbound SA records, and the
 * encrypt/decrypt entry points that fill the per-request context before it
 * is handed to the common skcipher submission path.
 *
 * The key checks of the crypto framework, mtk_set_saRecord and the DMA
 * mapping calls are outside this model: their results are parameters.
 */
module Des {
  import opened Common

  const DES_BLOCK_SIZE: int := 8
  const DES3_EDE_BLOCK_SIZE: int := 8

  /** Bit 3 of saCmd0 (after the 3-bit opCode) is the direction: 0 outbound, 1 inbound. */
  const DIRECTION_BIT: bv32 := 0x8

  /** The key lengths the DES and 3DES templates accept (min_keysize == max_keysize). */
  const DES_KEY_SIZE: int := 8
  const DES3_EDE_KEY_SIZE: int := 24

  /**
   * The bytes of an SA record after its two command words (saRecord_s):
   * saKey at 0, saIDigest at 32, saODigest at 64, saSpi at 96, saSeqNum at
   * 100, saSeqNumMask at 108 and saNonce at 116, 120 bytes in all.
   */
  const SA_BODY_SIZE: int := 120
  const SA_KEY_BYTES: int := 32
  const SA_IDIGEST: int := 32
  const SA_SPI: int := 96

  /** An SA record as the engine reads it: the two command words and the bytes after them. */
  datatype SaRecord = SaRecord(saCmd0: bv32, saCmd1: bv32, body: seq<bv8>)

  datatype Option<T> = None | Some(value: T)

  predicate WellFormed(r: SaRecord) {
    |r.body| == SA_BODY_SIZE
  }

  function Zeros(n: nat): (z: seq<bv8>)
    ensures |z| == n && forall i :: 0 <= i < n ==> z[i] == 0
  {
    seq(n, _ => 0)
  }

  /** The all-zero record kzalloc hands out. */
  const ZERO_RECORD: SaRecord := SaRecord(0, 0, Zeros(SA_BODY_SIZE))

  /** The key field, saKey. */
  function SaKey(r: SaRecord): (k: seq<bv8>)
    requires WellFormed(r)
    ensures |k| == SA_KEY_BYTES
  {
    r.body[..SA_KEY_BYTES]
  }

  function Direction(r: SaRecord): (d: bv32)
    ensures d == 0 || d == 1
  {
    (r.saCmd0 >> 3) & 1
  }

  /** The record with its saCmd0 direction bit set to `d`. */
  function WithDirection(r: SaRecord, d: bv32): (s: SaRecord)
    requires d == 0 || d == 1
    ensures Direction(s) == d
    ensures s.saCmd0 & !DIRECTION_BIT == r.saCmd0 & !DIRECTION_BIT
    ensures s.saCmd1 == r.saCmd1 && s.body == r.body
  {
    r.(saCmd0 := (r.saCmd0 & !DIRECTION_BIT) | (d << 3))
  }

  /** Setting the direction twice is setting it once, to the second value. */
  lemma WithDirectionTwice(r: SaRecord, d: bv32, e: bv32)
    requires (d == 0 || d == 1) && (e == 0 || e == 1)
    ensures WithDirection(WithDirection(r, d), e) == WithDirection(r, e)
  {
    assert WithDirection(r, d).saCmd0 & !DIRECTION_BIT == r.saCmd0 & !DIRECTION_BIT;
  }

  /**
   * The memset at eip93-des.c:96. saKey is an array of u32, so `saKey + keylen`
   * lies keylen words, 4 * keylen bytes, into the record body, and 32 - keylen
   * bytes are zeroed from there. The bytes of saKey after the key are not
   * among them unless the key is shorter than 8 bytes.
   */
  function ClearPastKey(body: seq<bv8>, keylen: nat): (b: seq<bv8>)
    requires |body| == SA_BODY_SIZE && keylen <= DES3_EDE_KEY_SIZE
    ensures |b| == SA_BODY_SIZE
  {
    body[..4 * keylen] + Zeros(SA_KEY_BYTES - keylen) + body[3 * keylen + SA_KEY_BYTES..]
  }

  /** The memset zeroes exactly the bytes from 4 * keylen up to 3 * keylen + 32. */
  lemma ClearPastKeyBytes(body: seq<bv8>, keylen: nat)
    requires |body| == SA_BODY_SIZE && keylen <= DES3_EDE_KEY_SIZE
    ensures forall i :: 0 <= i < SA_BODY_SIZE ==>
              ClearPastKey(body, keylen)[i] == if 4 * keylen <= i < 3 * keylen + SA_KEY_BYTES then 0 else body[i]
  {
  }

  /** memcpy of the key into the front of the key field; the bytes after it keep their value. */
  function CopyKey(body: seq<bv8>, key: seq<bv8>): (b: seq<bv8>)
    requires |key| <= SA_KEY_BYTES <= |body|
    ensures |b| == |body| && b[..|key|] == key && b[|key|..] == body[|key|..]
  {
    key + body[|key|..]
  }

  /** The record body mtk_des_setkey leaves: the memset, then the key copied in. */
  function KeyedBody(body: seq<bv8>, key: seq<bv8>): (b: seq<bv8>)
    requires |body| == SA_BODY_SIZE && |key| <= DES3_EDE_KEY_SIZE
    ensures |b| == SA_BODY_SIZE
  {
    CopyKey(ClearPastKey(body, |key|), key)
  }

  /**
   * With an 8-byte DES key the record body starts with the key, the other 24
   * bytes of saKey keep their programmed value, and the zeroing lands on the
   * first 24 bytes of saIDigest (saIDigest[0..6)).
   */
  lemma KeyedBodyDes(body: seq<bv8>, key: seq<bv8>)
    requires |body| == SA_BODY_SIZE && |key| == DES_KEY_SIZE
    ensures var b := KeyedBody(body, key);
            b[..DES_KEY_SIZE] == key &&
            b[DES_KEY_SIZE..SA_IDIGEST] == body[DES_KEY_SIZE..SA_IDIGEST] &&
            b[SA_IDIGEST..SA_IDIGEST + 24] == Zeros(24) &&
            b[SA_IDIGEST + 24..] == body[SA_IDIGEST + 24..]
  {
    var c, b := ClearPastKey(body, |key|), KeyedBody(body, key);
    ClearPastKeyBytes(body, |key|);
    assert b[DES_KEY_SIZE..SA_IDIGEST] == c[DES_KEY_SIZE..SA_IDIGEST] == body[DES_KEY_SIZE..SA_IDIGEST];
    assert b[SA_IDIGEST..SA_IDIGEST + 24] == c[SA_IDIGEST..SA_IDIGEST + 24];
    assert b[SA_IDIGEST + 24..] == c[SA_IDIGEST + 24..] == body[SA_IDIGEST + 24..];
  }

  /**
   * With a 24-byte 3DES key the record body starts with the key, the last 8
   * bytes of saKey and both digests keep their programmed value, and the
   * zeroing lands on saSpi and saSeqNum[0].
   */
  lemma KeyedBody3Des(body: seq<bv8>, key: seq<bv8>)
    requires |body| == SA_BODY_SIZE && |key| == DES3_EDE_KEY_SIZE
    ensures var b := KeyedBody(body, key);
            b[..DES3_EDE_KEY_SIZE] == key &&
            b[DES3_EDE_KEY_SIZE..SA_SPI] == body[DES3_EDE_KEY_SIZE..SA_SPI] &&
            b[SA_SPI..SA_SPI + 8] == Zeros(8) &&
            b[SA_SPI + 8..] == body[SA_SPI + 8..]
  {
    var c, b := ClearPastKey(body, |key|), KeyedBody(body, key);
    ClearPastKeyBytes(body, |key|);
    assert b[DES3_EDE_KEY_SIZE..SA_SPI] == c[DES3_EDE_KEY_SIZE..SA_SPI] == body[DES3_EDE_KEY_SIZE..SA_SPI];
    assert b[SA_SPI..SA_SPI + 8] == c[SA_SPI..SA_SPI + 8];
    assert b[SA_SPI + 8..] == c[SA_SPI + 8..] == body[SA_SPI + 8..];
  }

  /** The key length the template's algorithm takes. */
  function KeySize(algFlags: bv32): (n: int)
    requires algFlags & ALG_MASK == ALG_DES || algFlags & ALG_MASK == ALG_3DES
    ensures algFlags & ALG_MASK == ALG_DES ==> n == DES_KEY_SIZE
    ensures algFlags & ALG_MASK == ALG_3DES ==> n == DES3_EDE_KEY_SIZE
  {
    if algFlags & ALG_MASK == ALG_DES then DES_KEY_SIZE else DES3_EDE_KEY_SIZE
  }

  /** The block size mtk_des_setkey records for the algorithm a template names. */
  function BlockSize(algFlags: bv32): (n: int)
    requires algFlags & ALG_MASK == ALG_DES || algFlags & ALG_MASK == ALG_3DES
    ensures algFlags & ALG_MASK == ALG_DES ==> n == DES_BLOCK_SIZE
    ensures algFlags & ALG_MASK == ALG_3DES ==> n == DES3_EDE_BLOCK_SIZE
  {
    if algFlags & ALG_MASK == ALG_DES then DES_BLOCK_SIZE else DES3_EDE_BLOCK_SIZE
  }

  /**
   * The request flags mtk_des_crypt submits: DESC_DMA_IV is added exactly
   * when the mode is not ECB, and every other bit is kept.
   */
  function CryptFlags(flags: bv32): (f: bv32)
    ensures IsDmaIv(f) <==> IsDmaIv(flags) || !IsEcb(flags)
    ensures f & !DESC_DMA_IV == flags & !DESC_DMA_IV
  {
    if !IsEcb(flags) then flags | DESC_DMA_IV else flags
  }

  /** The DES templates: ECB carries no IV, CBC has the engine load it from the request. */
  lemma TemplateIvs()
    ensures !IsDmaIv(CryptFlags(MODE_ECB | ALG_DES | ENCRYPT))
    ensures !IsDmaIv(CryptFlags(MODE_ECB | ALG_3DES | DECRYPT))
    ensures IsDmaIv(CryptFlags(MODE_CBC | ALG_DES | ENCRYPT))
    ensures IsDmaIv(CryptFlags(MODE_CBC | ALG_3DES | DECRYPT))
  {
  }

  /** The request flags of mtk_des_encrypt or mtk_des_decrypt: the template's, plus the direction. */
  function DirectedFlags(tmplFlags: bv32, encrypt: bool): (f: bv32)
    ensures f & !(ENCRYPT | DECRYPT) == tmplFlags & !(ENCRYPT | DECRYPT)
    ensures encrypt ==> IsEncrypt(f) && IsDecrypt(f) == IsDecrypt(tmplFlags)
    ensures !encrypt ==> IsDecrypt(f) && IsEncrypt(f) == IsEncrypt(tmplFlags)
  {
    if encrypt then tmplFlags | ENCRYPT else tmplFlags | DECRYPT
  }

  /**
   * The transform context (mtk_crypto_ctx) as far as DES uses it: the two SA
   * records, their bus addresses and the cipher block size.
   */
  class CryptoCtx {
    var saIn: SaRecord
    var saOut: SaRecord
    var saBaseIn: int
    var saBaseOut: int
    var blksize: int

    ghost predicate Valid()
      reads this
    {
      WellFormed(saIn) && WellFormed(saOut)
    }

    /** mtk_des_cra_init: both records all zero, mapped at `baseIn` and `baseOut`. */
    constructor (baseIn: int, baseOut: int)
      ensures Valid()
      ensures saIn == ZERO_RECORD && saOut == ZERO_RECORD && saBaseIn == baseIn && saBaseOut == baseOut
      ensures saIn.saCmd0 == 0 && saIn.saCmd1 == 0 && forall i :: 0 <= i < SA_BODY_SIZE ==> saIn.body[i] == 0
      ensures blksize == 0
    {
      saIn, saOut := ZERO_RECORD, ZERO_RECORD;
      saBaseIn, saBaseOut := baseIn, baseOut;
      blksize := 0;
    }

    /**
     * mtk_des_setkey. `key` is None for a null key pointer, otherwise the
     * `len` key bytes. `verifyDes` and `verifyDes3` stand for the framework's
     * key checks, `setSaRecord` for mtk_set_saRecord, and `mapOut`, `mapIn`
     * for the bus addresses dma_map_single returns for the two records.
     */
    method SetKey(algFlags: bv32, key: Option<seq<bv8>>,
                  verifyDes: seq<bv8> -> int, verifyDes3: seq<bv8> -> int,
                  setSaRecord: (SaRecord, nat, bv32) -> SaRecord,
                  mapOut: int, mapIn: int) returns (err: int)
      requires Valid()
      requires algFlags & ALG_MASK == ALG_DES || algFlags & ALG_MASK == ALG_3DES
      requires key.Some? && key.value != [] ==> |key.value| == KeySize(algFlags)
      requires key.Some? ==> WellFormed(setSaRecord(saOut, |key.value|, algFlags))
      modifies this
      ensures Valid()
      ensures key.None? || key.value == [] ==>
                err == -EINVAL && blksize == old(blksize) &&
                saIn == old(saIn) && saOut == old(saOut) &&
                saBaseIn == old(saBaseIn) && saBaseOut == old(saBaseOut)
      ensures key.Some? && key.value != [] ==>
                blksize == BlockSize(algFlags) &&
                var check := if algFlags & ALG_MASK == ALG_DES then verifyDes(key.value) else verifyDes3(key.value);
                (check != 0 ==> err == check && saIn == old(saIn) && saOut == old(saOut) &&
                                saBaseIn == old(saBaseIn) && saBaseOut == old(saBaseOut)) &&
                (check == 0 ==> err == 0 &&
                                var programmed := setSaRecord(old(saOut), |key.value|, algFlags);
                                saOut == WithDirection(programmed.(body := KeyedBody(programmed.body, key.value)), 0) &&
                                saIn == WithDirection(saOut, 1) &&
                                saBaseOut == mapOut && saBaseIn == mapIn)
    {
      if key.None? || |key.value| == 0 {
        return -EINVAL;
      }
      var keylen := |key.value|;
      if algFlags & ALG_MASK == ALG_DES {
        blksize := DES_BLOCK_SIZE;
        err := verifyDes(key.value);
      } else {
        blksize := DES3_EDE_BLOCK_SIZE;
        err := verifyDes3(key.value);
      }
      if err != 0 {
        return;
      }
      var saRecord := setSaRecord(saOut, keylen, algFlags);
      saRecord := saRecord.(body := ClearPastKey(saRecord.body, keylen));
      saRecord := saRecord.(body := CopyKey(saRecord.body, key.value));
      saRecord := WithDirection(saRecord, 0);
      assert WellFormed(saRecord);
      saOut := saRecord;
      saIn := WithDirection(saRecord, 1);
      saBaseOut := mapOut;
      saBaseIn := mapIn;
      return 0;
    }
  }

  /** After a successful setkey the two records differ in their direction bit alone. */
  lemma DirectionSplit(programmed: SaRecord)
    ensures var out := WithDirection(programmed, 0);
            var in_ := WithDirection(out, 1);
            Direction(out) == 0 && Direction(in_) == 1 &&
            in_ == WithDirection(programmed, 1) &&
            in_.saCmd0 & !DIRECTION_BIT == out.saCmd0 & !DIRECTION_BIT &&
            in_.saCmd1 == out.saCmd1 && in_.body == out.body
  {
    WithDirectionTwice(programmed, 0, 1);
  }

  /** The per-request context (mtk_cipher_reqctx) as far as DES fills it. */
  class ReqCtx {
    var flags: bv32
    var blksize: int
    var ivsize: int
    var textsize: int
    var assoclen: int
    var authsize: int
    var saRecordBase: int

    constructor ()
      ensures flags == 0 && saRecordBase == 0
    {
      flags, blksize, ivsize, textsize, assoclen, authsize, saRecordBase := 0, 0, 0, 0, 0, 0, 0;
    }

    /**
     * mtk_des_crypt. An empty request returns 0 and submits nothing;
     * otherwise the sizes are filled in and the request is submitted, and
     * `sendReq` is what mtk_skcipher_send_req returns.
     */
    method Crypt(ctx: CryptoCtx, cryptlen: nat, cipherIvsize: nat, sendReq: int)
      returns (err: int, submitted: bool)
      modifies this
      ensures cryptlen == 0 ==>
                err == 0 && !submitted &&
                flags == old(flags) && blksize == old(blksize) && ivsize == old(ivsize) &&
                textsize == old(textsize) && assoclen == old(assoclen) && authsize == old(authsize)
      ensures cryptlen != 0 ==>
                err == sendReq && submitted &&
                assoclen == 0 && authsize == 0 && textsize == cryptlen &&
                ivsize == cipherIvsize && blksize == ctx.blksize &&
                flags == CryptFlags(old(flags))
      ensures saRecordBase == old(saRecordBase)
    {
      if cryptlen == 0 {
        return 0, false;
      }
      assoclen := 0;
      textsize := cryptlen;
      authsize := 0;
      ivsize := cipherIvsize;
      blksize := ctx.blksize;
      if !IsEcb(flags) {
        flags := flags | DESC_DMA_IV;
      }
      return sendReq, true;
    }

    /** mtk_des_encrypt: the template's flags with ENCRYPT, and the outbound record. */
    method Encrypt(ctx: CryptoCtx, tmplFlags: bv32, cryptlen: nat, cipherIvsize: nat, sendReq: int)
      returns (err: int, submitted: bool)
      modifies this
      ensures saRecordBase == ctx.saBaseOut
      ensures cryptlen == 0 ==>
                !submitted && err == 0 && flags == DirectedFlags(tmplFlags, true) &&
                textsize == old(textsize) && assoclen == old(assoclen) && authsize == old(authsize) &&
                ivsize == old(ivsize) && blksize == old(blksize)
      ensures cryptlen != 0 ==>
                submitted && err == sendReq && flags == CryptFlags(DirectedFlags(tmplFlags, true)) &&
                assoclen == 0 && authsize == 0 && textsize == cryptlen &&
                ivsize == cipherIvsize && blksize == ctx.blksize
    {
      flags := DirectedFlags(tmplFlags, true);
      saRecordBase := ctx.saBaseOut;
      err, submitted := Crypt(ctx, cryptlen, cipherIvsize, sendReq);
    }

    /** mtk_des_decrypt: the template's flags with DECRYPT, and the inbound record. */
    method Decrypt(ctx: CryptoCtx, tmplFlags: bv32, cryptlen: nat, cipherIvsize: nat, sendReq: int)
      returns (err: int, submitted: bool)
      modifies this
      ensures saRecordBase == ctx.saBaseIn
      ensures cryptlen == 0 ==>
                !submitted && err == 0 && flags == DirectedFlags(tmplFlags, false) &&
                textsize == old(textsize) && assoclen == old(assoclen) && authsize == old(authsize) &&
                ivsize == old(ivsize) && blksize == old(blksize)
      ensures cryptlen != 0 ==>
                submitted && err == sendReq && flags == CryptFlags(DirectedFlags(tmplFlags, false)) &&
                assoclen == 0 && authsize == 0 && textsize == cryptlen &&
                ivsize == cipherIvsize && blksize == ctx.blksize
    {
      flags := DirectedFlags(tmplFlags, false);
      saRecordBase := ctx.saBaseIn;
      err, submitted := Crypt(ctx, cryptlen, cipherIvsize, sendReq);
    }
  }

  /**
   * For the DES templates (one algorithm bit, one mode bit, no direction
   * bit), encryption and decryption submit the same algorithm and mode with
   * opposite directions, and the IV is loaded exactly for CBC.
   */
  lemma DirectionsOpposite(tmplFlags: bv32)
    requires tmplFlags in {MODE_ECB | ALG_DES, MODE_CBC | ALG_DES, MODE_ECB | ALG_3DES, MODE_CBC | ALG_3DES}
    ensures var enc := CryptFlags(DirectedFlags(tmplFlags, true));
            var dec := CryptFlags(DirectedFlags(tmplFlags, false));
            IsEncrypt(enc) && !IsDecrypt(enc) && IsDecrypt(dec) && !IsEncrypt(dec) &&
            enc & (ALG_MASK | MODE_MASK) == tmplFlags && dec & (ALG_MASK | MODE_MASK) == tmplFlags &&
            (IsDmaIv(enc) <==> IsCbc(tmplFlags)) && (IsDmaIv(dec) <==> IsCbc(tmplFlags))
  {
  }
}
