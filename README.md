# EIP-93 descriptor ring and completion core, in Dafny

A model of the control core of the Mediatek EIP-93 crypto engine driver. It covers:

- **The ring pair.** The command descriptor ring (CDR) and the result descriptor ring (RDR) each have 512 slots, with a read and a write cursor, a shared `free` counter and a first-fit pool of state records (`eip93-ring.c`).
- **The driver side** (`eip93-main.c`):
  - the interrupt mask-enable, mask-disable and clear helpers and the interrupt handler;
  - the completion drain, which empties the result ring and hands each finished request to its algorithm's result handler;
  - ring and state-pool set-up;
  - the reset and teardown register sequences;
  - algorithm registration with rollback.
- **The flag and bit-field vocabulary** of `eip93-common.h`: constants, flag tests, the control/status and length words and the descriptor layout.
- **The DES slice of `eip93-des.c`:** key set-up, which derives the outbound and inbound SA records, and the encrypt, decrypt and crypt entry points, which fill the request context.

Files:

- common.dfy (module `Common`) holds:
  - the constants;
  - the `IS_*` tests on `bv32`;
  - the `peCrtlStat_w` and `peLength_w` layouts, with pack/unpack round trips;
  - the eight-word `Descriptor`.
- ring.dfy (module `Ring`) holds:
  - class `DescRing`: a slot `array` and two cursors, which are slot indices in `[0, 512)`;
  - class `RingPair`: both rings, `free` and the pool `array`;
  - `Lockstep()`, the accounting invariant: both rings have the same cursors and `free + occupancy == 511`.
- device.dfy (module `Driver`) holds class `Device`. Its state:
  - the log of register writes;
  - the enabled-source and pending-cause masks;
  - a flag for "drain scheduled".

  It also holds the specification functions the drain is proved against:
  - `Completions`, the completions a run of drained descriptors causes;
  - `AckTrace`, the acknowledgement writes;
  - `Drained` / `Advanced`, the relation between the state before and after.
  - `DrainLen`, how many descriptors the passes of a drain take for given count readings, and `CountsReady`, what those readings promise: `PE_RD_COUNT` is a level, so each non-zero reading reports finished slots from the read cursor of its own pass.
- des.dfy (module `Des`) holds classes `CryptoCtx` and `ReqCtx`.

Inputs the driver reads from the outside world are parameters:

- successive `PE_RD_COUNT` readings;
- allocation outcomes;
- framework registration results;
- key-check results;
- `mtk_set_saRecord` as a function;
- DMA addresses;
- the return value of the skcipher submission.

Two behaviours of the code that a reader of the ring design might not expect:

- The drain does not release state-pool entries. No code in the core clears `in_use`.
- The rings are registered with the engine (`mtk_desc_init`) before the engine reset (`mtk_initialize`), not after it.

## Model

| member | source | states |
|---|---|---|
| `Common.TagBitsDistinct` | crypto/mtk-eip93/eip93-common.h:43-52 | every descriptor tag is a single bit and no two tags share a bit |
| `Common.FlagBitsDisjoint` | crypto/mtk-eip93/eip93-common.h:18-52 | tags lie in bits 22-31, algorithm/hash/mode/direction/busy bits in 0-14, so no tag overlaps a request bit |
| `Common.MaskContents` | crypto/mtk-eip93/eip93-common.h:18-34 | each group mask is the union of its group's bits; RFC 3686 is outside the mode mask, HMAC outside the hash mask |
| `Common.IsCipher` | crypto/mtk-eip93/eip93-common.h:75-77 | IS_CIPHER as written holds exactly when bit 0 (DES) is set |
| `Common.IsHash` | crypto/mtk-eip93/eip93-common.h:79-82 | IS_HASH as written holds exactly when bit 0 is set |
| `Common.CipherHashTestsAsWritten` | crypto/mtk-eip93/eip93-common.h:75-82 | IS_CIPHER rejects AES and 3DES, IS_HASH rejects SHA-256 and MD5 and accepts plain DES |
| `Common.IsCipherIntended` | crypto/mtk-eip93/eip93-common.h:75-77 | the corrected test holds exactly when a DES, 3DES or AES bit is set |
| `Common.IsHashIntended` | crypto/mtk-eip93/eip93-common.h:79-82 | the corrected test holds exactly when an MD5, SHA-1, SHA-224 or SHA-256 bit is set |
| `Common.IntendedTestsUseMasks` | crypto/mtk-eip93/eip93-common.h:21-28 | the corrected tests agree with the ALG and HASH masks |
| `Common.CtrlStatRoundTrip` | crypto/mtk-eip93/eip93-common.h:162-176 | the bit fields cover the control/status word exactly: unpack-then-pack and pack-then-unpack are identities |
| `Common.CtrlStatPositions` | crypto/mtk-eip93/eip93-common.h:162-176 | peReady is bit 1 and errStatus bits 16-23 |
| `Common.LengthRoundTrip` | crypto/mtk-eip93/eip93-common.h:178-187 | the bit fields cover the length word exactly, both directions |
| `Common.LengthPositions` | crypto/mtk-eip93/eip93-common.h:178-187 | length is bits 0-19 and peReady bit 23 |
| `Common.Words` | crypto/mtk-eip93/eip93-common.h:189-198 | a descriptor packs into exactly eight 32-bit words (the 32-byte slot stride) |
| `Common.WordsRoundTrip` | crypto/mtk-eip93/eip93-common.h:189-198 | `FromWords` inverts `Words`: descriptor to words and back, and eight words to a descriptor and back, are both the identity |
| `Common.ZeroDescriptorWords` | crypto/mtk-eip93/eip93-ring.c:67 | the zeroed slot has every word zero |
| `Common.BothReadyFields` | crypto/mtk-eip93/eip93-main.c:172-175 | the drain's completion test is the two peReady fields of the layouts |
| `Common.ErrStatusField` | crypto/mtk-eip93/eip93-main.c:177 | the error the drain reports is the errStatus field |
| `Ring.NextIsModular` | crypto/mtk-eip93/eip93-ring.c:20-23 | a cursor step wraps from base_end to base and is addition modulo R |
| `Ring.AdvanceIsModular` | crypto/mtk-eip93/eip93-ring.c:20-23 | n steps from slot c reach slot (c + n) mod R |
| `Ring.WriteBlockedIffFull` | crypto/mtk-eip93/eip93-ring.c:16-18 | the two-case full test holds exactly when (write+1) mod R == read, that is when R-1 slots are occupied |
| `Ring.EmptyIffZero` | crypto/mtk-eip93/eip93-ring.c:33-34 | empty is exactly zero occupancy, and occupancy never exceeds R-1 |
| `Ring.OccupancyAfterWrite` | crypto/mtk-eip93/eip93-ring.c:20-23 | an unblocked write step fills exactly one more slot |
| `Ring.OccupancyAfterRead` | crypto/mtk-eip93/eip93-ring.c:36-39 | a read step on a non-empty ring frees exactly one slot |
| `Ring.AddressFullTest` | crypto/mtk-eip93/eip93-ring.c:16-17 | the full test written on addresses is the index test, for any positive stride |
| `Ring.AddressInRegion` | crypto/mtk-eip93/eip93-main.c:319 | every slot address lies in [base, base_end] |
| `Ring.FirstFree` | crypto/mtk-eip93/eip93-ring.c:110-119 | -ENOENT exactly when every entry is in use, otherwise the lowest free index |
| `Ring.DescRing.NextWptr` | crypto/mtk-eip93/eip93-ring.c:11-26 | -ENOMEM with write unchanged exactly when full; otherwise returns the old write slot and steps write, filling one slot |
| `Ring.DescRing.NextRptr` | crypto/mtk-eip93/eip93-ring.c:28-42 | -ENOENT with read unchanged exactly when empty; otherwise returns the old read slot and steps read, freeing one slot |
| `Ring.RingPair.LayOutPool` | crypto/mtk-eip93/eip93-main.c:365-370 | pool entry i gets state address base + i*56 and bus address likewise, not in use |
| `Ring.RingPair.PutDescriptor` | crypto/mtk-eip93/eip93-ring.c:44-75 | success exactly when neither ring is full: the command slot holds the descriptor, the result slot is zeroed, free drops by one; on -ENOENT free and slots are unchanged and an RDR step already taken stays; Lockstep is preserved, and then success is exactly free > 0 |
| `Ring.RingPair.GetDescriptor` | crypto/mtk-eip93/eip93-ring.c:77-103 | success exactly when both rings are non-empty: the command slot is zeroed, the old RDR read slot is returned, free rises by one; Lockstep is preserved, and then success is exactly free < R-1 |
| `Ring.RingPair.GetFreeSaState` | crypto/mtk-eip93/eip93-ring.c:105-120 | returns the first-fit index and marks only that entry in use; -ENOENT leaves the pool unchanged |
| `Driver.Ready` | crypto/mtk-eip93/eip93-main.c:153 | the ready count is the reading's low eleven bits |
| `Driver.Dispatched` | crypto/mtk-eip93/eip93-main.c:196-203 | a skcipher completion exactly when skcipher is built in and the SKCIPHER tag is set, likewise aead, skcipher first, each with the request and error |
| `Driver.DescCompletions` | crypto/mtk-eip93/eip93-main.c:177-191 | a descriptor without DESC_LAST completes nothing; completions carry its arc4Addr and errStatus |
| `Driver.NoLastNoCompletions` | crypto/mtk-eip93/eip93-main.c:194-195 | any run of descriptors without DESC_LAST dispatches nothing |
| `Driver.RequestCompletesOnce` | crypto/mtk-eip93/eip93-main.c:188-204 | a request completes once, through its final descriptor, and no prefix of it completes anything |
| `Driver.RequestsCompleteInOrder` | crypto/mtk-eip93/eip93-main.c:140-205 | back-to-back requests complete each through its final descriptor, in submission order |
| `Driver.PassLen` | crypto/mtk-eip93/eip93-main.c:163-192 | one pass takes no more descriptors than the ready count and the ring hold |
| `Driver.PassLenIsFirstStop` | crypto/mtk-eip93/eip93-main.c:163-192 | m descriptors are one pass exactly when only the m-th may carry DESC_LAST and the pass stops there: on DESC_LAST, on the count reaching zero, or on the ring running empty |
| `Driver.PassTakesRequest` | crypto/mtk-eip93/eip93-main.c:163-192 | a pass whose count covers the whole request at the head of the ring takes exactly that request |
| `Driver.DrainLen` | crypto/mtk-eip93/eip93-main.c:150-204 | a drain takes no more descriptors than the ring holds |
| `Driver.DrainTakesRequests` | crypto/mtk-eip93/eip93-main.c:150-204 | requests queued back to back, each with a count that covers it, then a zero count: the drain takes exactly those requests |
| `Driver.CountsReadyPass` | crypto/mtk-eip93/eip93-main.c:150-160 | a non-zero PE_RD_COUNT reading vouches for the slots of its own pass, and the later readings for what that pass leaves |
| `Driver.TwoDoneOneInFlight` | crypto/mtk-eip93/eip93-main.c:150-204 | two finished one-descriptor requests ahead of one in flight, with counts read as 2, 1, 0: the readings are consistent with the ring and the drain takes exactly the two finished ones |
| `Driver.VouchedPass` | crypto/mtk-eip93/eip93-main.c:150-204 | one `get_more` round keeps the drain invariant `Vouched`: a zero count finishes with the whole `DrainLen` taken; any other count takes `PassLen` descriptors, and the later readings still vouch for what is left |
| `Driver.OneRequestDrain` | crypto/mtk-eip93/eip93-main.c:150-204 | one finished single-descriptor request drained with the counts 1 then 0: exactly that descriptor is taken, and its handlers are called with its back-reference and error status |
| `Driver.RetiredSlots` | crypto/mtk-eip93/eip93-ring.c:85-92 | after n reads from `start` the n command slots from `start` are zeroed and every other slot keeps its descriptor |
| `Driver.AckTrace` | crypto/mtk-eip93/eip93-main.c:182-183 | n acknowledgements are 2n writes |
| `Driver.Acked` | crypto/mtk-eip93/eip93-main.c:183 | acknowledging clears the RDR threshold cause |
| `Driver.AckEffect` | crypto/mtk-eip93/eip93-main.c:182-183 | acknowledgements leave the source mask alone and clear only the RDR cause |
| `Driver.AckTraceShape` | crypto/mtk-eip93/eip93-main.c:182-183 | each acknowledgement writes 1 to PE_RD_COUNT once, then clears the RDR cause |
| `Driver.RearmEffect` | crypto/mtk-eip93/eip93-main.c:156-157 | re-arming enables the RDR source and clears its cause, whatever the state |
| `Driver.RearmIdempotent` | crypto/mtk-eip93/eip93-main.c:156-157 | re-arming twice leaves the state of re-arming once |
| `Driver.DrainRegisters` | crypto/mtk-eip93/eip93-main.c:150-195 | after n acknowledgements and an optional re-arm, the RDR source is enabled only if re-armed and the RDR cause is clear unless nothing happened |
| `Driver.InitializeOrder` | crypto/mtk-eip93/eip93-main.c:244-299 | a reset pulse with mode 3 and CDR update on, then all causes cleared and masked before the ring threshold is written |
| `Driver.InitializeThreshold` | crypto/mtk-eip93/eip93-main.c:293-299 | the ring threshold left in force is CDR 480, RDR 0, timeout 5, timeout enabled |
| `Driver.InitializeMasks` | crypto/mtk-eip93/eip93-main.c:288-290 | initialisation leaves every source masked and every cause clear |
| `Driver.CleanupMasksAll` | crypto/mtk-eip93/eip93-main.c:379-381 | teardown leaves every source masked and every cause clear from any state, and a second teardown changes nothing |
| `Driver.CleanupLastWrites` | crypto/mtk-eip93/eip93-main.c:383-385 | after teardown the clock register, ring configuration and both base registers were last written 0 |
| `Driver.FirstFailure` | crypto/mtk-eip93/eip93-main.c:111-130 | the first entry whose kind is not built in or whose registration fails; all earlier entries succeeded |
| `Driver.UnregisterCallsMembers` | crypto/mtk-eip93/eip93-main.c:88-103 | unregister(i) unregisters exactly the built-in entries below i |
| `Driver.RegisterCallsMembers` | crypto/mtk-eip93/eip93-main.c:111-124 | registration attempts are exactly entries below n, with the framework's results |
| `Driver.RegistrationOutcome` | crypto/mtk-eip93/eip93-main.c:106-138 | all entries live on success; none after a failed registration (rollback); exactly the earlier ones after an unknown kind (no rollback) |
| `Driver.UnregisterAlgs` | crypto/mtk-eip93/eip93-main.c:84-104 | unregisters entries 0..i-1 in index order, skipping kinds not built in (the membership is `UnregisterCallsMembers`) |
| `Driver.RegisterAlgs` | crypto/mtk-eip93/eip93-main.c:106-138 | 0 after registering all; -EINVAL with no rollback on a kind not built in; the failing error after registering 0..i and unregistering 0..i-1 |
| `Driver.Device.IrqDisable` | crypto/mtk-eip93/eip93-main.c:69-72 | one mask-disable write; the sources in the mask become disabled |
| `Driver.Device.IrqEnable` | crypto/mtk-eip93/eip93-main.c:74-77 | one mask-enable write; the sources in the mask become enabled |
| `Driver.Device.IrqClear` | crypto/mtk-eip93/eip93-main.c:79-82 | one clear write; the causes in the mask are acknowledged |
| `Driver.Device.IrqHandler` | crypto/mtk-eip93/eip93-main.c:214-232 | RDR threshold pending and enabled: only that source disabled, drain scheduled, IRQ_HANDLED; otherwise clear the status, disable it if non-zero, IRQ_NONE |
| `Driver.Device.AckResult` | crypto/mtk-eip93/eip93-main.c:182-183 | writes 1 to PE_RD_COUNT, clears the RDR cause, mask unchanged |
| `Driver.Device.FetchResult` | crypto/mtk-eip93/eip93-main.c:164-180 | needs only the slot at the read cursor to be finished; under Lockstep it fails exactly when the result ring is empty; on success it reads the first occupied result slot, zeroes the matching command slot, raises free by one and leaves the rest of the results in place; on failure the RDR side is unchanged |
| `Driver.Device.TakeOne` | crypto/mtk-eip93/eip93-main.c:164-186 | a fetched slot is taken and acknowledged (PE_RD_COUNT 1, RDR cause cleared); under Lockstep a slot is taken exactly when the ring is not empty |
| `Driver.Device.TakeNext` | crypto/mtk-eip93/eip93-main.c:163-186 | the batch taken so far grows by the slot fetched, if any, stays the ring's contents from the start slot, and the pass length left shrinks by one or ends at DESC_LAST |
| `Driver.Device.TakeBatch` | crypto/mtk-eip93/eip93-main.c:161-192 | takes and acknowledges slots in ring order; under Lockstep exactly `PassLen` of them: up to and including the first DESC_LAST, at most `ready`, fewer only when the ring runs empty; last_entry exactly when the final one carries DESC_LAST, and then its flags, back-reference and error |
| `Driver.Device.Rearm` | crypto/mtk-eip93/eip93-main.c:155-158 | appends the clear and enable writes, RDR source enabled, RDR cause clear |
| `Driver.Device.DrainBatch` | crypto/mtk-eip93/eip93-main.c:161-204 | one pass extends the descriptors taken by exactly `PassLen` under Lockstep, and the completions it dispatches are exactly what those descriptors cause |
| `Driver.Device.Pass` | crypto/mtk-eip93/eip93-main.c:150-204 | one `get_more` round: needs only that this reading's count of slots is finished (`CountsReady`, part of `Vouched`); a zero count stops and takes nothing; any other count runs one batch; `Vouched` holds again one reading on, so the taken descriptors plus what the later readings take stay `DrainLen` of the whole drain; completions are those of the descriptors taken |
| `Driver.Device.DrainPasses` | crypto/mtk-eip93/eip93-main.c:150-204 | passes until the first zero count or the end of the readings; exactly `DrainLen` descriptors are taken, from the old read cursor on; completions are those of the descriptors taken; Lockstep is preserved |
| `Driver.Device.FinishDrain` | crypto/mtk-eip93/eip93-main.c:155-158 | re-arms exactly when the drain finished |
| `Driver.Device.HandleResultDescriptor` | crypto/mtk-eip93/eip93-main.c:140-205 | needs each non-zero count reading to report slots that are finished at the read cursor of that pass (`CountsReady`: the count is a level, so a later reading re-counts what an earlier pass left); the completions are exactly those of the descriptors taken, in ring order; exactly `DrainLen` descriptors are taken from the old read cursor on, and their command slots are zeroed; it ends exactly at a zero count, with nothing taken if the first count is zero; each slot is acknowledged, and the RDR interrupt re-armed once finished; Lockstep is preserved |
| `Driver.Device.SetRing` | crypto/mtk-eip93/eip93-main.c:309-323 | -ENOMEM on a failed allocation; otherwise both cursors at base and base_end = base + offset*(R-1) |
| `Driver.Device.AttachRings` | crypto/mtk-eip93/eip93-main.c:333-350 | both rings at their allocations with stride 32; then the CDR base, RDR base and ring config (size 511, offset 8) are written; nothing is written on failure |
| `Driver.Device.DescInit` | crypto/mtk-eip93/eip93-main.c:325-373 | -ENOMEM on any failed allocation; otherwise Lockstep with free = 511 and the pool laid out, every entry free |
| `Driver.Device.Initialize` | crypto/mtk-eip93/eip93-main.c:234-300 | the log grows by the initialisation trace and both interrupt masks end zero |
| `Driver.Device.ConfigureEngine` | crypto/mtk-eip93/eip93-main.c:243-286 | the reset, endian, interrupt-config, clock and buffer-threshold writes, in order |
| `Driver.Device.DescFree` | crypto/mtk-eip93/eip93-main.c:302-307 | ring config, CDR base, RDR base written 0 |
| `Driver.Device.Cleanup` | crypto/mtk-eip93/eip93-main.c:375-386 | drain cancelled, the teardown trace written, both interrupt masks zero |
| `Des.Direction` | crypto/mtk-eip93/eip93-common.h:101-103 | the direction field of saCmd0 is one bit |
| `Des.WithDirection` | crypto/mtk-eip93/eip93-des.c:99-102 | setting the direction sets that bit and leaves the rest of the record alone |
| `Des.WithDirectionTwice` | crypto/mtk-eip93/eip93-des.c:99-102 | setting the direction twice is setting it once to the second value |
| `Des.CopyKey` | crypto/mtk-eip93/eip93-des.c:97 | the key occupies the front of the key field; the bytes after it keep their value |
| `Des.ClearPastKeyBytes` | crypto/mtk-eip93/eip93-des.c:96 | the memset zeroes exactly bytes 4*keylen up to 3*keylen+32 of the record after the command words, because `saKey + keylen` steps a `u32` pointer |
| `Des.KeyedBodyDes` | crypto/mtk-eip93/eip93-des.c:94-97 | with an 8-byte key: the key first, the rest of saKey as programmed, saIDigest[0..6) zeroed, everything else as programmed |
| `Des.KeyedBody3Des` | crypto/mtk-eip93/eip93-des.c:94-97 | with a 24-byte key: the key first, the rest of saKey and both digests as programmed, saSpi and saSeqNum[0] zeroed, everything else as programmed |
| `Des.BlockSize` | crypto/mtk-eip93/eip93-des.c:76-84 | DES gives DES_BLOCK_SIZE and 3DES gives DES3_EDE_BLOCK_SIZE |
| `Des.CryptFlags` | crypto/mtk-eip93/eip93-des.c:133-134 | DESC_DMA_IV is set exactly when it was or the mode is not ECB; every other bit kept |
| `Des.TemplateIvs` | crypto/mtk-eip93/eip93-des.c:169-249 | the ECB templates submit without DESC_DMA_IV, the CBC templates with it |
| `Des.DirectedFlags` | crypto/mtk-eip93/eip93-des.c:146-161 | encrypt adds ENCRYPT, decrypt adds DECRYPT, every other bit kept |
| `Des.DirectionSplit` | crypto/mtk-eip93/eip93-des.c:99-102 | the outbound record has direction 0, the inbound 1, and they differ in nothing else |
| `Des.DirectionsOpposite` | crypto/mtk-eip93/eip93-des.c:139-165 | for the four DES templates, encrypt and decrypt submit the same algorithm and mode with opposite directions, IV loaded exactly for CBC |
| `Des.CryptoCtx.constructor` | crypto/mtk-eip93/eip93-des.c:17-45 | both records all zero (every command word and byte), mapped at the given bus addresses |
| `Des.CryptoCtx.SetKey` | crypto/mtk-eip93/eip93-des.c:60-110 | -EINVAL and no change for a null or empty key; otherwise the block size is set; a key-check error is returned with the records unchanged; on success the outbound record is the programmed record after the memset and the key copy (`KeyedBody`) with direction 0, the inbound record is it with direction 1, and both are re-mapped |
| `Des.ReqCtx.Crypt` | crypto/mtk-eip93/eip93-des.c:112-137 | cryptlen 0 returns 0, submits nothing and changes nothing; otherwise assoclen 0, authsize 0, textsize cryptlen, block size from the transform, DESC_DMA_IV exactly when not ECB, and the submission's result |
| `Des.ReqCtx.Encrypt` | crypto/mtk-eip93/eip93-des.c:139-151 | template flags with ENCRYPT and the outbound record's address; an empty request returns 0 unsubmitted with the lengths untouched; otherwise the request is submitted as a plain cipher (no assoc data, no auth tag), text size the request length, IV size the cipher's, block size the context's, flags the directed template flags with DESC_DMA_IV added when the mode is not ECB (`CryptFlags`) |
| `Des.ReqCtx.Decrypt` | crypto/mtk-eip93/eip93-des.c:153-165 | template flags with DECRYPT and the inbound record's address; an empty request returns 0 unsubmitted with the lengths untouched; otherwise the request is submitted as a plain cipher (no assoc data, no auth tag), text size the request length, IV size the cipher's, block size the context's, flags the directed template flags with DESC_DMA_IV added when the mode is not ECB (`CryptFlags`) |

## Left out

- Locks, atomics, tasklets and interrupt context are left out. The locks are at eip93-ring.c:51 and :83. The model is single-threaded:
  - `free` is an `int`;
  - scheduling the drain sets `drainScheduled`;
  - `tasklet_kill` clears it.
- The pool scan of `mtk_get_free_saState` is not synchronised in the source. That race is not modelled.
- Driver.Device.FetchResult: the busy-wait on the two peReady bits is replaced by a precondition, because the spin has no bound. `ReadyPrefix` asks that the slot fetched has both bits set; the drain asks it, through `CountsReady`, of the slots each non-zero count reading reports, counted from the read cursor at the start of that reading's pass.
- Driver.Device.HandleResultDescriptor: the drain is stated for a ring in Lockstep, the state `mtk_desc_init` sets up and every put and get keeps. Outside it a fetch can fail on an empty command ring and end a pass early, and then which slots a later count reading covers is not modelled.
- Driver.Device.HandleResultDescriptor: the `goto get_more` loop has no bound in the source. Here it is driven by a finite sequence of count readings, and `finished` is false when the readings run out before a zero count.
- Driver.Device.TakeBatch: the `err = -EIO` on a failed fetch is not modelled. The following `goto get_more` always overwrites it before it is used. The `dev_err` message and the `handled` counter, which feeds only that message, are also left out.
- Driver.Ready: a reading is an unsigned value, and its ready count is the reading mod 2048.
- Driver.Dispatched: the result handlers of the skcipher and aead code are recorded as completions and not modelled. They are not part of this model.
- Driver.Device.WriteReg: it only models writes to registers outside the interrupt block. Writes to the interrupt registers go through the three helpers, which also update the masks.
- The register bit layouts: `mtk_initialize`, `mtk_desc_init` and `mtk_cleanup` write registers field by field, as named fields. The bit layout of those registers is in `eip93-regs.h`, which is not part of this model.
- The 10 microsecond delay in `mtk_initialize` is left out.
- Platform plumbing is left out:
  - `mtk_crypto_probe` and `mtk_crypto_remove`;
  - resource and interrupt lookup;
  - interrupt registration;
  - module boilerplate.

  Coherent allocations are an `Allocation` parameter that may be `NoMemory`.
- The `(u32)` cast of a bus address before it is written to a base register is reduction modulo 2^32 (`Driver.ToU32`).
- Driver.RegisterAlgs: the crypto framework's registration calls are recorded, together with the result each one returned, which is a parameter. The template table is reduced to its `type` field. The back-pointer `mtk_algs[i]->mtk` is not modelled.
- Des.CryptoCtx.SetKey requires the template's algorithm to be DES or 3DES. In the source `err` is uninitialised otherwise. Every DES template satisfies this.
- Des.CryptoCtx.SetKey also requires a non-empty key to have the algorithm's key length, 8 or 24 bytes. The templates' `min_keysize`/`max_keysize` (eip93-des.c:176-177, 228-229) make the framework refuse any other length before it calls setkey.
- Des.CryptoCtx.SetKey: the `memset` at eip93-des.c:96 is modelled as the code does it (`ClearPastKey`). It does not zero-pad the key field; the bytes of saKey after the key keep the value `mtk_set_saRecord` left.
- Des.CryptoCtx.SetKey takes these as parameters:
  - the key checks of the crypto framework;
  - `mtk_set_saRecord`, as a function on records;
  - `dma_map_single`, as the addresses it returns.

  `dma_unmap_single` is not modelled.
- Des.CryptoCtx.constructor: the `kzalloc` failures of `mtk_des_cra_init` and `mtk_des_cra_exit` are left out.
- Des.ReqCtx.Crypt does not model the scatterlist pointers `sg_src`/`sg_dst`. The IV size is a parameter, and `mtk_skcipher_send_req` is its return value.
- Des.ReqCtx.Crypt: `flags` is `unsigned long` in the source and `bv32` here. Every flag lies in the low 32 bits.
- The AES and AEAD parts of the algorithm table are not part of this model.
- Releasing a state-pool entry is not modelled. No code in the core does it.

## Findings

| source | as written | input that shows it | evidently intended | confidence | as-written member | corrected member |
|---|---|---|---|---|---|---|
| crypto/mtk-eip93/eip93-common.h:75-82 | `IS_CIPHER` and `IS_HASH` join the bits with C's logical OR, so the mask is the int 1 and both test bit 0 (DES) alone | `IS_CIPHER(MTK_ALG_AES)` and `IS_HASH(MTK_HASH_SHA256)` are 0, and `IS_HASH(MTK_ALG_DES)` is non-zero | a bitwise OR of the group's bits, the same as testing `MTK_ALG_MASK` or `MTK_HASH_MASK` | not executed | `Common.CipherHashTestsAsWritten` | `Common.IntendedTestsUseMasks` |
