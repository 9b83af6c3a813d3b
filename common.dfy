/**
 * Shared vocabulary of the EIP-93 driver: ring constants, the request flag
 * word and its tests, the interrupt cause bits, and the bit layout of the
 * eight-word hardware descriptor.
 *
 * Bit fields of the C unions are modelled with explicit shifts and masks,
 * allocated least significant bit first (the layout GCC uses on the
 * little-endian MIPS target of this driver).
 */
module Common {

  /** Slots per descriptor ring, and the headroom kept below the command threshold. */
  const RING_SIZE: int := 512
  const RING_BUSY: int := 32
  const CRA_PRIORITY: int := 1500

  /** Linux error numbers used by the core (returned negated). */
  const EINVAL: int := 22
  const ENOENT: int := 2
  const ENOMEM: int := 12
  const EIO: int := 5

  // ---------------------------------------------------------------------
  // Request flag word (eip93-common.h lines 18-52)
  // ---------------------------------------------------------------------

  /** cipher algorithms */
  const ALG_DES: bv32 := 0x1
  const ALG_3DES: bv32 := 0x2
  const ALG_AES: bv32 := 0x4
  const ALG_MASK: bv32 := 0x7            // GENMASK(2, 0)
  /** hash and hmac algorithms */
  const HASH_MD5: bv32 := 0x8
  const HASH_SHA1: bv32 := 0x10
  const HASH_SHA224: bv32 := 0x20
  const HASH_SHA256: bv32 := 0x40
  const HASH_HMAC: bv32 := 0x80
  const HASH_MASK: bv32 := 0x78          // GENMASK(6, 3)
  /** cipher modes */
  const MODE_CBC: bv32 := 0x100
  const MODE_ECB: bv32 := 0x200
  const MODE_CTR: bv32 := 0x400
  const MODE_RFC3686: bv32 := 0x800
  const MODE_MASK: bv32 := 0x700         // GENMASK(10, 8)
  /** operation direction and the busy marker */
  const ENCRYPT: bv32 := 0x1000
  const DECRYPT: bv32 := 0x2000
  const BUSY: bv32 := 0x4000

  /** descriptor tag bits, carried in a descriptor's userId word */
  const DESC_ASYNC: bv32 := 0x8000_0000
  const DESC_SKCIPHER: bv32 := 0x4000_0000
  const DESC_AEAD: bv32 := 0x2000_0000
  const DESC_AHASH: bv32 := 0x1000_0000
  const DESC_PRNG: bv32 := 0x0800_0000
  const DESC_FAKE_HMAC: bv32 := 0x0400_0000
  const DESC_LAST: bv32 := 0x0200_0000
  const DESC_FINISH: bv32 := 0x0100_0000
  const DESC_IPSEC: bv32 := 0x0080_0000
  const DESC_DMA_IV: bv32 := 0x0040_0000

  /** The ten descriptor tag bits, and the fifteen algorithm, mode, direction and busy bits. */
  const DESC_TAGS: seq<bv32> := [DESC_ASYNC, DESC_SKCIPHER, DESC_AEAD, DESC_AHASH, DESC_PRNG,
                                 DESC_FAKE_HMAC, DESC_LAST, DESC_FINISH, DESC_IPSEC, DESC_DMA_IV]
  const REQUEST_BITS: seq<bv32> := [ALG_DES, ALG_3DES, ALG_AES, HASH_MD5, HASH_SHA1, HASH_SHA224,
                                    HASH_SHA256, HASH_HMAC, MODE_CBC, MODE_ECB, MODE_CTR,
                                    MODE_RFC3686, ENCRYPT, DECRYPT, BUSY]

  /** A single set bit. */
  predicate SingleBit(x: bv32) {
    x != 0 && x & (x - 1) == 0
  }

  /** The tag bits are single bits, and pairwise distinct. */
  lemma TagBitsDistinct()
    ensures forall i :: 0 <= i < |DESC_TAGS| ==> SingleBit(DESC_TAGS[i])
    ensures forall i, j :: 0 <= i < j < |DESC_TAGS| ==> DESC_TAGS[i] & DESC_TAGS[j] == 0
  {
  }

  /**
   * The tag bits lie in the top ten bits of the word and the algorithm, hash,
   * mode, direction and busy bits in the low fifteen, so none overlaps another.
   */
  lemma FlagBitsDisjoint()
    ensures forall i :: 0 <= i < |DESC_TAGS| ==> DESC_TAGS[i] & 0x003F_FFFF == 0
    ensures forall j :: 0 <= j < |REQUEST_BITS| ==> REQUEST_BITS[j] & 0xFFFF_8000 == 0
    ensures forall i, j :: 0 <= i < |DESC_TAGS| && 0 <= j < |REQUEST_BITS| ==>
              DESC_TAGS[i] & REQUEST_BITS[j] == 0
  {
    forall i, j | 0 <= i < |DESC_TAGS| && 0 <= j < |REQUEST_BITS|
      ensures DESC_TAGS[i] & REQUEST_BITS[j] == 0
    {
      SplitMasks(DESC_TAGS[i], REQUEST_BITS[j]);
    }
  }

  lemma SplitMasks(x: bv32, y: bv32)
    requires x & 0x003F_FFFF == 0 && y & 0xFFFF_8000 == 0
    ensures x & y == 0
  {
  }

  /**
   * The group masks are the unions of their group's bits; the RFC 3686 mode
   * lies outside the mode mask and HMAC outside the hash mask.
   */
  lemma MaskContents()
    ensures ALG_MASK == ALG_DES | ALG_3DES | ALG_AES
    ensures HASH_MASK == HASH_MD5 | HASH_SHA1 | HASH_SHA224 | HASH_SHA256
    ensures MODE_MASK == MODE_CBC | MODE_ECB | MODE_CTR
    ensures MODE_MASK & MODE_RFC3686 == 0
    ensures HASH_MASK & HASH_HMAC == 0
  {
  }

  /** The flag tests of the header; each is the C truth value of `flags & BIT`. */
  predicate IsDes(flags: bv32) { flags & ALG_DES != 0 }
  predicate Is3Des(flags: bv32) { flags & ALG_3DES != 0 }
  predicate IsAes(flags: bv32) { flags & ALG_AES != 0 }
  predicate IsHmac(flags: bv32) { flags & HASH_HMAC != 0 }
  predicate IsCbc(mode: bv32) { mode & MODE_CBC != 0 }
  predicate IsEcb(mode: bv32) { mode & MODE_ECB != 0 }
  predicate IsCtr(mode: bv32) { mode & MODE_CTR != 0 }
  predicate IsRfc3686(mode: bv32) { mode & MODE_RFC3686 != 0 }
  predicate IsBusy(flags: bv32) { flags & BUSY != 0 }
  predicate IsDmaIv(flags: bv32) { flags & DESC_DMA_IV != 0 }
  predicate IsEncrypt(dir: bv32) { dir & ENCRYPT != 0 }
  predicate IsDecrypt(dir: bv32) { dir & DECRYPT != 0 }

  /** C's logical `a || b` on two words: the int 1 when either is non-zero, else 0. */
  function LogicalOr(a: bv32, b: bv32): (r: bv32)
    ensures r == 0 || r == 1
    ensures r == 1 <==> a != 0 || b != 0
  {
    if a != 0 || b != 0 then 1 else 0
  }

  /**
   * IS_CIPHER as written: the operand is the logical OR of three non-zero
   * constants, which is 1, so the test is that of bit 0 (DES) alone.
   */
  function IsCipher(flags: bv32): (r: bool)
    ensures r <==> flags & 1 != 0
    ensures r <==> IsDes(flags)
  {
    flags & LogicalOr(LogicalOr(ALG_DES, ALG_3DES), ALG_AES) != 0
  }

  /** IS_HASH as written: likewise reduces to bit 0, a cipher bit. */
  function IsHash(flags: bv32): (r: bool)
    ensures r <==> flags & 1 != 0
  {
    flags & LogicalOr(LogicalOr(LogicalOr(HASH_MD5, HASH_SHA1), HASH_SHA224), HASH_SHA256) != 0
  }

  /** The tests as written give the wrong answer for AES, for every hash, and for DES as a hash. */
  lemma CipherHashTestsAsWritten()
    ensures !IsCipher(ALG_AES) && !IsCipher(ALG_3DES | MODE_CBC)
    ensures !IsHash(HASH_SHA256) && !IsHash(HASH_MD5 | HASH_HMAC)
    ensures IsHash(ALG_DES | MODE_ECB)
  {
  }

  /** IS_CIPHER as evidently intended: any cipher algorithm bit. */
  function IsCipherIntended(flags: bv32): (r: bool)
    ensures r <==> IsDes(flags) || Is3Des(flags) || IsAes(flags)
  {
    var m := flags & (ALG_DES | ALG_3DES | ALG_AES);
    assert m == (flags & ALG_DES) | (flags & ALG_3DES) | (flags & ALG_AES);
    m != 0
  }

  /** IS_HASH as evidently intended: any hash algorithm bit. */
  function IsHashIntended(flags: bv32): (r: bool)
    ensures r <==> flags & HASH_MD5 != 0 || flags & HASH_SHA1 != 0 ||
                   flags & HASH_SHA224 != 0 || flags & HASH_SHA256 != 0
  {
    var m := flags & (HASH_MD5 | HASH_SHA1 | HASH_SHA224 | HASH_SHA256);
    assert m == (flags & HASH_MD5) | (flags & HASH_SHA1) | (flags & HASH_SHA224) | (flags & HASH_SHA256);
    m != 0
  }

  /** The corrected tests agree with the group masks. */
  lemma IntendedTestsUseMasks(flags: bv32)
    ensures IsCipherIntended(flags) <==> flags & ALG_MASK != 0
    ensures IsHashIntended(flags) <==> flags & HASH_MASK != 0
  {
  }

  // ---------------------------------------------------------------------
  // Interrupt sources (enum EIP93_InterruptSource_t)
  // ---------------------------------------------------------------------

  const INT_PE_CDRTHRESH_REQ: bv32 := 0x1
  const INT_PE_RDRTHRESH_REQ: bv32 := 0x2
  const INT_PE_OPERATION_DONE: bv32 := 0x200
  const INT_PE_INBUFTHRESH_REQ: bv32 := 0x400
  const INT_PE_OUTBURTHRSH_REQ: bv32 := 0x800
  const INT_PE_PRNG_IRQ: bv32 := 0x1000
  const INT_PE_ERR_REG: bv32 := 0x2000
  const INT_PE_RD_DONE_IRQ: bv32 := 0x1_0000

  /** All 32 causes, as cleared and masked at initialisation and teardown. */
  const INT_ALL: bv32 := 0xFFFF_FFFF

  // ---------------------------------------------------------------------
  // Control/status word of a descriptor (union peCrtlStat_w)
  // ---------------------------------------------------------------------

  datatype CtrlStat = CtrlStat(hostReady: bv1, peReady: bv1, reserved: bv1, initArc4: bv1,
                               hashFinal: bv1, haltMode: bv1, prngMode: bv2, padValue: bv8,
                               errStatus: bv8, padCrtlStat: bv8)

  /** Reads the bit fields out of the word: bits 0..7 flags, 8..15 pad, 16..23 error, 24..31 pad. */
  function UnpackCtrlStat(w: bv32): CtrlStat {
    CtrlStat(hostReady := (w & 1) as bv1,
             peReady := ((w >> 1) & 1) as bv1,
             reserved := ((w >> 2) & 1) as bv1,
             initArc4 := ((w >> 3) & 1) as bv1,
             hashFinal := ((w >> 4) & 1) as bv1,
             haltMode := ((w >> 5) & 1) as bv1,
             prngMode := ((w >> 6) & 3) as bv2,
             padValue := ((w >> 8) & 0xFF) as bv8,
             errStatus := ((w >> 16) & 0xFF) as bv8,
             padCrtlStat := ((w >> 24) & 0xFF) as bv8)
  }

  /** Writes the bit fields back into one word. */
  function PackCtrlStat(c: CtrlStat): bv32 {
    (c.hostReady as bv32) | ((c.peReady as bv32) << 1) | ((c.reserved as bv32) << 2) |
    ((c.initArc4 as bv32) << 3) | ((c.hashFinal as bv32) << 4) | ((c.haltMode as bv32) << 5) |
    ((c.prngMode as bv32) << 6) | ((c.padValue as bv32) << 8) | ((c.errStatus as bv32) << 16) |
    ((c.padCrtlStat as bv32) << 24)
  }

  /** The layout covers the word exactly: unpacking then packing is the identity, and back. */
  lemma CtrlStatRoundTrip(w: bv32, c: CtrlStat)
    ensures PackCtrlStat(UnpackCtrlStat(w)) == w
    ensures UnpackCtrlStat(PackCtrlStat(c)) == c
  {
  }

  /** peReady is bit 1 and errStatus is bits 16..23. */
  lemma CtrlStatPositions(c: CtrlStat)
    ensures PackCtrlStat(c) & 0x2 == (c.peReady as bv32) << 1
    ensures PackCtrlStat(c) & 0xFF_0000 == (c.errStatus as bv32) << 16
  {
  }

  // ---------------------------------------------------------------------
  // Length word of a descriptor (union peLength_w)
  // ---------------------------------------------------------------------

  datatype LengthWord = LengthWord(length: bv20, reserved: bv2, hostReady: bv1, peReady: bv1,
                                   byPass: bv8)

  function UnpackLength(w: bv32): LengthWord {
    LengthWord(length := (w & 0xF_FFFF) as bv20,
               reserved := ((w >> 20) & 3) as bv2,
               hostReady := ((w >> 22) & 1) as bv1,
               peReady := ((w >> 23) & 1) as bv1,
               byPass := ((w >> 24) & 0xFF) as bv8)
  }

  function PackLength(l: LengthWord): bv32 {
    (l.length as bv32) | ((l.reserved as bv32) << 20) | ((l.hostReady as bv32) << 22) |
    ((l.peReady as bv32) << 23) | ((l.byPass as bv32) << 24)
  }

  lemma LengthRoundTrip(w: bv32, l: LengthWord)
    ensures PackLength(UnpackLength(w)) == w
    ensures UnpackLength(PackLength(l)) == l
  {
  }

  /** length is bits 0..19 and peReady is bit 23. */
  lemma LengthPositions(l: LengthWord)
    ensures PackLength(l) & 0xF_FFFF == l.length as bv32
    ensures PackLength(l) & 0x80_0000 == (l.peReady as bv32) << 23
  {
  }

  // ---------------------------------------------------------------------
  // Descriptor (struct eip93_descriptor_s)
  // ---------------------------------------------------------------------

  datatype Descriptor = Descriptor(peCrtlStat: bv32, srcAddr: bv32, dstAddr: bv32, saAddr: bv32,
                                   stateAddr: bv32, arc4Addr: bv32, userId: bv32, peLength: bv32)

  /** An all-zero slot, as left by memset. */
  const ZERO_DESCRIPTOR: Descriptor := Descriptor(0, 0, 0, 0, 0, 0, 0, 0)

  /** Words per descriptor and bytes per descriptor (the slot stride). */
  const DESCRIPTOR_WORDS: int := 8
  const DESCRIPTOR_SIZE: int := 4 * DESCRIPTOR_WORDS

  /** Bytes of one saState_s: a 4-word IV, a 2-word byte count and an 8-word digest. */
  const SA_STATE_SIZE: int := 4 * (4 + 2 + 8)

  /** The packed in-memory order of the descriptor's words. */
  function Words(d: Descriptor): (ws: seq<bv32>)
    ensures |ws| == DESCRIPTOR_WORDS
  {
    [d.peCrtlStat, d.srcAddr, d.dstAddr, d.saAddr, d.stateAddr, d.arc4Addr, d.userId, d.peLength]
  }

  /** The descriptor eight packed words hold; `WordsRoundTrip` shows it inverts `Words`. */
  function FromWords(ws: seq<bv32>): Descriptor
    requires |ws| == DESCRIPTOR_WORDS
  {
    Descriptor(ws[0], ws[1], ws[2], ws[3], ws[4], ws[5], ws[6], ws[7])
  }

  lemma WordsRoundTrip(d: Descriptor, ws: seq<bv32>)
    requires |ws| == DESCRIPTOR_WORDS
    ensures FromWords(Words(d)) == d
    ensures Words(FromWords(ws)) == ws
  {
  }

  /** The zero slot has every word zero. */
  lemma ZeroDescriptorWords()
    ensures forall i :: 0 <= i < DESCRIPTOR_WORDS ==> Words(ZERO_DESCRIPTOR)[i] == 0
  {
  }

  /**
   * The hardware has finished a slot once both peReady bits are set: bit 1 of
   * the control/status word and bit 23 of the length word.
   */
  predicate BothReady(d: Descriptor) {
    d.peCrtlStat & 0x2 != 0 && d.peLength & 0x80_0000 != 0
  }

  /** Those are the peReady fields of the two words' layouts. */
  lemma BothReadyFields(d: Descriptor)
    ensures BothReady(d) <==> UnpackCtrlStat(d.peCrtlStat).peReady == 1 && UnpackLength(d.peLength).peReady == 1
  {
  }

  /** The error status the drain reports for a slot: bits 16..23 of the control/status word. */
  function ErrStatus(d: Descriptor): bv8 {
    ((d.peCrtlStat >> 16) & 0xFF) as bv8
  }

  /** That is the errStatus field of the word's layout. */
  lemma ErrStatusField(d: Descriptor)
    ensures ErrStatus(d) == UnpackCtrlStat(d.peCrtlStat).errStatus
  {
  }

  predicate IsLast(d: Descriptor) { d.userId & DESC_LAST != 0 }
}
