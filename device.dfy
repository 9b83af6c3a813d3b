/**
 * The device side of the EIP-93 driver (eip93-main.c): the engine's
 * interrupt registers, the interrupt handler, the completion drain that
 * empties the result ring, ring and pool set-up, the reset/teardown
 * register sequences, and algorithm registration with rollback.
 *
 * Registers are modelled by the log of every value the driver writes, plus
 * the two pieces of engine state the core depends on: the set of enabled
 * interrupt sources and the set of pending causes. Values read from the
 * engine (the ready count) are inputs.
 */
module Driver {
  import opened Common
  import opened Ring

  /** The compile-time options that select code in the core. */
  datatype BuildConfig = BuildConfig(skcipher: bool, aead: bool, des: bool, aes: bool, hmac: bool)

  /**
   * One register write. Registers whose bit layout is not part of this model
   * are written field by field; a zero word is every field zero.
   */
  datatype RegWrite =
    | MaskEnable(enable: bv32)
    | MaskDisable(disable: bv32)
    | IntClr(clear: bv32)
    | RdCount(count: bv32)
    | PeConfig(resetPE: int, resetRing: int, peMode: int, enCDRupdate: int)
    | EndianConfig(word: bv32)
    | IntConfig(word: bv32)
    | ClockCtrl(enPE: bool, enDES: bool, enAES: bool, enHASH: bool)
    | BufThresh(inputBuffer: int, outputBuffer: int)
    | RingThresh(cdrThresh: int, rdrThresh: int, rdTimeout: int, enTimeout: int)
    | RingConfig(ringSize: int, ringOffset: int)
    | CdrBase(addr: bv32)
    | RdrBase(addr: bv32)

  /** The register a write goes to. */
  datatype Reg = MASK_ENABLE | MASK_DISABLE | INT_CLR | PE_RD_COUNT | PE_CONFIG | PE_ENDIAN_CONFIG
               | INT_CFG | PE_CLOCK_CTRL | PE_BUF_THRESH | PE_RING_THRESH | PE_RING_CONFIG
               | PE_CDR_BASE | PE_RDR_BASE

  function RegOf(w: RegWrite): Reg {
    match w
    case MaskEnable(_) => MASK_ENABLE
    case MaskDisable(_) => MASK_DISABLE
    case IntClr(_) => INT_CLR
    case RdCount(_) => PE_RD_COUNT
    case PeConfig(_, _, _, _) => PE_CONFIG
    case EndianConfig(_) => PE_ENDIAN_CONFIG
    case IntConfig(_) => INT_CFG
    case ClockCtrl(_, _, _, _) => PE_CLOCK_CTRL
    case BufThresh(_, _) => PE_BUF_THRESH
    case RingThresh(_, _, _, _) => PE_RING_THRESH
    case RingConfig(_, _) => PE_RING_CONFIG
    case CdrBase(_) => PE_CDR_BASE
    case RdrBase(_) => PE_RDR_BASE
  }

  datatype Option<T> = None | Some(value: T)

  /** The most recent write to `reg` in a log, if any. */
  function LastWrite(log: seq<RegWrite>, reg: Reg): (r: Option<RegWrite>)
    ensures r.Some? ==> r.value in log && RegOf(r.value) == reg
    ensures r.None? <==> forall i :: 0 <= i < |log| ==> RegOf(log[i]) != reg
  {
    if log == [] then None
    else if RegOf(log[|log| - 1]) == reg then Some(log[|log| - 1])
    else LastWrite(log[..|log| - 1], reg)
  }

  /** Writes after a history decide the last value, unless they never touch the register. */
  lemma {:induction false} LastWriteAppend(h: seq<RegWrite>, t: seq<RegWrite>, reg: Reg)
    ensures LastWrite(h + t, reg) == if LastWrite(t, reg).Some? then LastWrite(t, reg) else LastWrite(h, reg)
    decreases |t|
  {
    if t != [] {
      assert (h + t)[..|h + t| - 1] == h + t[..|t| - 1];
      LastWriteAppend(h, t[..|t| - 1], reg);
    } else {
      assert h + t == h;
    }
  }

  /** A write followed only by writes to other registers is the last one to its register. */
  lemma LastWriteBefore(h: seq<RegWrite>, w: RegWrite, t: seq<RegWrite>)
    requires forall i :: 0 <= i < |t| ==> RegOf(t[i]) != RegOf(w)
    ensures LastWrite(h + [w] + t, RegOf(w)) == Some(w)
  {
    LastWriteAppend(h + [w], t, RegOf(w));
  }

  /**
   * The two interrupt registers the driver changes: the mask of enabled
   * sources and the pending causes (INT_MASK_STAT reports their intersection).
   * Mask-enable sets sources, mask-disable clears sources, int-clear
   * acknowledges causes; no other write touches them.
   */
  function MaskStep(x: bv32, w: RegWrite): bv32 {
    if w.MaskEnable? then x | w.enable
    else if w.MaskDisable? then x & !w.disable
    else x
  }

  function CauseStep(x: bv32, w: RegWrite): bv32 {
    if w.IntClr? then x & !w.clear else x
  }

  /** The source mask after a run of writes. */
  function MaskAfter(x: bv32, ws: seq<RegWrite>): bv32
    decreases |ws|
  {
    if ws == [] then x else MaskStep(MaskAfter(x, ws[..|ws| - 1]), ws[|ws| - 1])
  }

  /** The pending causes after a run of writes. */
  function CauseAfter(x: bv32, ws: seq<RegWrite>): bv32
    decreases |ws|
  {
    if ws == [] then x else CauseStep(CauseAfter(x, ws[..|ws| - 1]), ws[|ws| - 1])
  }

  /** Replaying a log in two pieces is replaying it whole. */
  lemma {:induction false} AfterAppend(e: bv32, c: bv32, a: seq<RegWrite>, b: seq<RegWrite>)
    ensures MaskAfter(e, a + b) == MaskAfter(MaskAfter(e, a), b)
    ensures CauseAfter(c, a + b) == CauseAfter(CauseAfter(c, a), b)
    decreases |b|
  {
    if b == [] {
      assert a + b == a;
    } else {
      assert (a + b)[..|a + b| - 1] == a + b[..|b| - 1];
      AfterAppend(e, c, a, b[..|b| - 1]);
    }
  }

  lemma AfterTwo(e: bv32, c: bv32, a: RegWrite, b: RegWrite)
    ensures MaskAfter(e, [a, b]) == MaskStep(MaskStep(e, a), b)
    ensures CauseAfter(c, [a, b]) == CauseStep(CauseStep(c, a), b)
  {
    assert [a][..0] == [];
    assert MaskAfter(e, [a]) == MaskStep(e, a);
    assert CauseAfter(c, [a]) == CauseStep(c, a);
    assert [a, b][..1] == [a];
  }

  predicate TouchesIrq(w: RegWrite) {
    w.MaskEnable? || w.MaskDisable? || w.IntClr?
  }

  /** Writes outside the interrupt block leave both interrupt registers alone. */
  lemma {:induction false} NoIrqWrites(e: bv32, c: bv32, t: seq<RegWrite>)
    requires forall i :: 0 <= i < |t| ==> !TouchesIrq(t[i])
    ensures MaskAfter(e, t) == e && CauseAfter(c, t) == c
    decreases |t|
  {
    if t != [] {
      NoIrqWrites(e, c, t[..|t| - 1]);
    }
  }

  /** Interrupt handler results. */
  datatype IrqReturn = IrqNone | IrqHandled

  /** Algorithm kinds of the template table (enum mtk_alg_type). */
  datatype AlgType = Aead | Skcipher

  predicate CompiledIn(cfg: BuildConfig, t: AlgType) {
    match t
    case Skcipher => cfg.skcipher
    case Aead => cfg.aead
  }

  /** One completion handed to an algorithm's result handler. */
  datatype Completion = Completion(kind: AlgType, request: bv32, err: bv8)

  /**
   * The ready count in a PE_RD_COUNT reading: its low eleven bits
   * (GENMASK(10, 0)). Readings are taken as unsigned values.
   */
  function Ready(reading: nat): (n: nat)
    ensures n < 2048
  {
    reading % 2048
  }

  /**
   * The drain ends exactly when some reading reports a zero count.
   */
  ghost predicate StopsAtZero(readings: seq<nat>, finished: bool) {
    finished <==> exists q :: 0 <= q < |readings| && Ready(readings[q]) == 0
  }

  /** No reading before position k reports a zero count. */
  ghost predicate NoZeroBefore(readings: seq<nat>, k: int)
    requires 0 <= k <= |readings|
  {
    forall q :: 0 <= q < k ==> Ready(readings[q]) != 0
  }

  lemma NoZeroStep(readings: seq<nat>, k: int)
    requires 0 <= k < |readings| && NoZeroBefore(readings, k) && Ready(readings[k]) != 0
    ensures NoZeroBefore(readings, k + 1)
  {
  }

  /** The drain loop stops just after the first zero count, at position p. */
  lemma StopsAtZeroAt(readings: seq<nat>, p: int)
    requires 0 <= p < |readings| && Ready(readings[p]) == 0
    ensures StopsAtZero(readings, true)
  {
    assert Ready(readings[p]) == 0;
  }

  /** The drain loop runs to the end of readings that hold no zero count. */
  lemma StopsAtZeroNone(readings: seq<nat>)
    requires NoZeroBefore(readings, |readings|)
    ensures StopsAtZero(readings, false)
  {
  }

  /**
   * The handlers a DESC_LAST descriptor goes to: the skcipher handler and
   * then the aead handler, each when compiled in and named by the tag bits in
   * `flags`, each given the request back-reference and the error status.
   */
  function Dispatched(cfg: BuildConfig, flags: bv32, request: bv32, err: bv8): (cs: seq<Completion>)
    ensures Completion(Skcipher, request, err) in cs <==> cfg.skcipher && flags & DESC_SKCIPHER != 0
    ensures Completion(Aead, request, err) in cs <==> cfg.aead && flags & DESC_AEAD != 0
    ensures forall c :: c in cs ==> c == Completion(Skcipher, request, err) || c == Completion(Aead, request, err)
    ensures |cs| <= 2 && (|cs| == 2 ==> cs[0].kind == Skcipher && cs[1].kind == Aead)
  {
    (if cfg.skcipher && flags & DESC_SKCIPHER != 0 then [Completion(Skcipher, request, err)] else []) +
    (if cfg.aead && flags & DESC_AEAD != 0 then [Completion(Aead, request, err)] else [])
  }

  /**
   * The completions one drained descriptor causes: none unless it carries
   * DESC_LAST; then those its tag bits name, with this descriptor's request
   * back-reference and error status.
   */
  function DescCompletions(cfg: BuildConfig, d: Descriptor): (cs: seq<Completion>)
    ensures !IsLast(d) ==> cs == []
    ensures forall c :: c in cs ==> c.request == d.arc4Addr && c.err == ErrStatus(d)
    ensures |cs| <= 2
  {
    if !IsLast(d) then [] else Dispatched(cfg, d.userId, d.arc4Addr, ErrStatus(d))
  }

  /** The completions a run of drained descriptors causes, in ring order. */
  function Completions(cfg: BuildConfig, ds: seq<Descriptor>): seq<Completion>
    decreases |ds|
  {
    if ds == [] then [] else Completions(cfg, ds[..|ds| - 1]) + DescCompletions(cfg, ds[|ds| - 1])
  }

  lemma {:induction false} CompletionsAppend(cfg: BuildConfig, a: seq<Descriptor>, b: seq<Descriptor>)
    ensures Completions(cfg, a + b) == Completions(cfg, a) + Completions(cfg, b)
    decreases |b|
  {
    if b == [] {
      assert a + b == a;
    } else {
      var init, last := b[..|b| - 1], b[|b| - 1];
      SplitLast(a, b);
      CompletionsAppend(cfg, a, init);
      CompletionsSnoc(cfg, a + init, last);
      CompletionsSnoc(cfg, init, last);
      AppendAssoc(Completions(cfg, a), Completions(cfg, init), DescCompletions(cfg, last));
    }
  }

  lemma SplitLast<T>(a: seq<T>, b: seq<T>)
    requires b != []
    ensures b == b[..|b| - 1] + [b[|b| - 1]]
    ensures a + b == (a + b[..|b| - 1]) + [b[|b| - 1]]
  {
  }

  lemma AppendAssoc<T>(x: seq<T>, y: seq<T>, z: seq<T>)
    ensures (x + y) + z == x + (y + z)
  {
  }

  /** One more descriptor adds its own completions at the end. */
  lemma CompletionsSnoc(cfg: BuildConfig, ds: seq<Descriptor>, d: Descriptor)
    ensures Completions(cfg, ds + [d]) == Completions(cfg, ds) + DescCompletions(cfg, d)
  {
    var s := ds + [d];
    assert s[..|s| - 1] == ds;
    assert s[|s| - 1] == d;
  }

  /** No descriptor of `ds` carries DESC_LAST. */
  predicate NoLast(ds: seq<Descriptor>) {
    forall k :: 0 <= k < |ds| ==> !IsLast(ds[k])
  }

  /** Only the final descriptor of `ds`, if any, may carry DESC_LAST. */
  predicate LastOnlyAtEnd(ds: seq<Descriptor>) {
    forall k :: 0 <= k < |ds| - 1 ==> !IsLast(ds[k])
  }

  /** A run without DESC_LAST stays so when one more such descriptor is added, and may end in any. */
  lemma NoLastSnoc(ds: seq<Descriptor>, d: Descriptor)
    requires NoLast(ds)
    ensures !IsLast(d) ==> NoLast(ds + [d])
    ensures LastOnlyAtEnd(ds) && LastOnlyAtEnd(ds + [d])
  {
    assert forall k :: 0 <= k < |ds| ==> (ds + [d])[k] == ds[k];
  }

  /** Descriptors without DESC_LAST dispatch nothing, however many there are. */
  lemma {:induction false} NoLastNoCompletions(cfg: BuildConfig, ds: seq<Descriptor>)
    requires NoLast(ds)
    ensures Completions(cfg, ds) == []
    decreases |ds|
  {
    if ds != [] {
      NoLastNoCompletions(cfg, ds[..|ds| - 1]);
    }
  }

  /** A request: one or more descriptors of which exactly the final one carries DESC_LAST. */
  predicate IsRequest(ds: seq<Descriptor>) {
    |ds| > 0 && IsLast(ds[|ds| - 1]) && LastOnlyAtEnd(ds)
  }

  /**
   * A request completes once, with the final descriptor's status and
   * back-reference, and not before its final descriptor is drained.
   */
  lemma RequestCompletesOnce(cfg: BuildConfig, ds: seq<Descriptor>)
    requires IsRequest(ds)
    ensures Completions(cfg, ds) == DescCompletions(cfg, ds[|ds| - 1])
    ensures forall n :: 0 <= n < |ds| ==> Completions(cfg, ds[..n]) == []
  {
    NoLastNoCompletions(cfg, ds[..|ds| - 1]);
    forall n | 0 <= n < |ds|
      ensures Completions(cfg, ds[..n]) == []
    {
      NoLastNoCompletions(cfg, ds[..n]);
    }
  }

  /** Requests queued back to back, in submission order. */
  function Flatten(reqs: seq<seq<Descriptor>>): seq<Descriptor>
    decreases |reqs|
  {
    if reqs == [] then [] else reqs[0] + Flatten(reqs[1..])
  }

  /** For each request, in order, the completions of its final descriptor. */
  function RequestCompletions(cfg: BuildConfig, reqs: seq<seq<Descriptor>>): seq<Completion>
    requires forall i :: 0 <= i < |reqs| ==> |reqs[i]| > 0
    decreases |reqs|
  {
    if reqs == [] then []
    else DescCompletions(cfg, reqs[0][|reqs[0]| - 1]) + RequestCompletions(cfg, reqs[1..])
  }

  /**
   * Draining back-to-back requests completes each exactly once, in submission
   * order, never interleaved within a request.
   */
  lemma {:induction false} RequestsCompleteInOrder(cfg: BuildConfig, reqs: seq<seq<Descriptor>>)
    requires forall i :: 0 <= i < |reqs| ==> |reqs[i]| > 0 && IsRequest(reqs[i])
    ensures Completions(cfg, Flatten(reqs)) == RequestCompletions(cfg, reqs)
    decreases |reqs|
  {
    if reqs != [] {
      RequestsCompleteInOrder(cfg, reqs[1..]);
      CompletionsAppend(cfg, reqs[0], Flatten(reqs[1..]));
      RequestCompletesOnce(cfg, reqs[0]);
    }
  }

  /** The register writes acknowledging n drained descriptors. */
  function AckTrace(n: nat): (t: seq<RegWrite>)
    ensures |t| == 2 * n
    decreases n
  {
    if n == 0 then [] else AckTrace(n - 1) + [RdCount(1), IntClr(INT_PE_RDRTHRESH_REQ)]
  }

  /** Re-arming the result threshold interrupt. */
  const REARM_TRACE: seq<RegWrite> := [IntClr(INT_PE_RDRTHRESH_REQ), MaskEnable(INT_PE_RDRTHRESH_REQ)]

  /** The pending causes with the RDR threshold cause acknowledged. */
  function Acked(c: bv32): (r: bv32)
    ensures r & INT_PE_RDRTHRESH_REQ == 0
  {
    c & !INT_PE_RDRTHRESH_REQ
  }

  lemma AckedTwice(c: bv32)
    ensures Acked(Acked(c)) == Acked(c)
  {
  }

  /** One acknowledgement leaves the source mask alone and clears the RDR cause. */
  lemma AckStep(e: bv32, c: bv32, h: seq<RegWrite>)
    ensures MaskAfter(e, h + [RdCount(1), IntClr(INT_PE_RDRTHRESH_REQ)]) == MaskAfter(e, h)
    ensures CauseAfter(c, h + [RdCount(1), IntClr(INT_PE_RDRTHRESH_REQ)]) == Acked(CauseAfter(c, h))
  {
    AfterAppend(e, c, h, [RdCount(1), IntClr(INT_PE_RDRTHRESH_REQ)]);
    AfterTwo(MaskAfter(e, h), CauseAfter(c, h), RdCount(1), IntClr(INT_PE_RDRTHRESH_REQ));
  }

  /** Acknowledging descriptors leaves the source mask alone and clears only the RDR cause. */
  lemma {:induction false} AckEffect(e: bv32, c: bv32, n: nat)
    ensures MaskAfter(e, AckTrace(n)) == e
    ensures CauseAfter(c, AckTrace(n)) == if n == 0 then c else Acked(c)
    decreases n
  {
    if n > 0 {
      AckEffect(e, c, n - 1);
      AckStep(e, c, AckTrace(n - 1));
      AckedTwice(c);
    }
  }

  /** Each acknowledgement writes 1 to PE_RD_COUNT and then clears the RDR cause. */
  lemma {:induction false} AckTraceShape(n: nat)
    ensures forall i :: 0 <= i < n ==> AckTrace(n)[2 * i] == RdCount(1) &&
                                         AckTrace(n)[2 * i + 1] == IntClr(INT_PE_RDRTHRESH_REQ)
    decreases n
  {
    if n > 0 {
      AckTraceShape(n - 1);
    }
  }

  /** Re-arming after any history: the RDR source enabled and its cause cleared. */
  lemma RearmStep(e: bv32, c: bv32, h: seq<RegWrite>)
    ensures MaskAfter(e, h + REARM_TRACE) == MaskAfter(e, h) | INT_PE_RDRTHRESH_REQ
    ensures CauseAfter(c, h + REARM_TRACE) == Acked(CauseAfter(c, h))
  {
    AfterAppend(e, c, h, REARM_TRACE);
    RearmEffect(MaskAfter(e, h), CauseAfter(c, h));
  }

  /**
   * Re-arming enables the RDR source and clears its cause, whatever the state;
   * re-arming twice leaves the same state as re-arming once.
   */
  lemma RearmIdempotent(e: bv32, c: bv32)
    ensures MaskAfter(MaskAfter(e, REARM_TRACE), REARM_TRACE) == MaskAfter(e, REARM_TRACE)
    ensures CauseAfter(CauseAfter(c, REARM_TRACE), REARM_TRACE) == CauseAfter(c, REARM_TRACE)
  {
    RearmEffect(e, c);
    var e1, c1 := MaskAfter(e, REARM_TRACE), CauseAfter(c, REARM_TRACE);
    RearmEffect(e1, c1);
    AckedTwice(c);
  }

  lemma RearmEffect(e: bv32, c: bv32)
    ensures MaskAfter(e, REARM_TRACE) == e | INT_PE_RDRTHRESH_REQ
    ensures CauseAfter(c, REARM_TRACE) == Acked(c)
  {
    AfterTwo(e, c, IntClr(INT_PE_RDRTHRESH_REQ), MaskEnable(INT_PE_RDRTHRESH_REQ));
    RearmSteps(e, c);
  }

  lemma RearmSteps(e: bv32, c: bv32)
    ensures MaskStep(MaskStep(e, IntClr(INT_PE_RDRTHRESH_REQ)), MaskEnable(INT_PE_RDRTHRESH_REQ)) ==
            e | INT_PE_RDRTHRESH_REQ
    ensures CauseStep(CauseStep(c, IntClr(INT_PE_RDRTHRESH_REQ)), MaskEnable(INT_PE_RDRTHRESH_REQ)) == Acked(c)
  {
  }

  /**
   * The interrupt registers after a drain that acknowledged n descriptors and,
   * if it finished, re-armed the RDR threshold interrupt.
   */
  lemma DrainRegisters(e: bv32, c: bv32, n: nat, finished: bool)
    ensures MaskAfter(e, AckTrace(n) + (if finished then REARM_TRACE else [])) ==
            if finished then e | INT_PE_RDRTHRESH_REQ else e
    ensures CauseAfter(c, AckTrace(n) + (if finished then REARM_TRACE else [])) ==
            if finished || n > 0 then Acked(c) else c
  {
    AckEffect(e, c, n);
    if finished {
      RearmStep(e, c, AckTrace(n));
      AckedTwice(c);
    } else {
      assert AckTrace(n) + [] == AckTrace(n);
    }
  }

  /** mtk_initialize's writes, in order (the 10 microsecond reset delay is not a write). */
  function InitializeTrace(cfg: BuildConfig): seq<RegWrite> {
    [PeConfig(1, 1, 3, 1),
     PeConfig(0, 0, 3, 1),
     EndianConfig(0),
     IntConfig(0),
     ClockCtrl(true, cfg.des, cfg.aes, cfg.hmac),
     BufThresh(128, 128),
     IntClr(INT_ALL),
     MaskDisable(INT_ALL),
     RingThresh(RING_SIZE - RING_BUSY, 0, 5, 1)]
  }

  /** Clearing then masking every cause zeroes both interrupt registers. */
  lemma ClearAndMaskAll(e: bv32, c: bv32)
    ensures MaskAfter(e, [IntClr(INT_ALL), MaskDisable(INT_ALL)]) == 0
    ensures CauseAfter(c, [IntClr(INT_ALL), MaskDisable(INT_ALL)]) == 0
  {
    AfterTwo(e, c, IntClr(INT_ALL), MaskDisable(INT_ALL));
  }

  /**
   * Initialisation pulses the reset bits with mode 3 and CDR update kept on,
   * and clears and masks every cause before it programs the ring threshold.
   */
  lemma InitializeOrder(cfg: BuildConfig)
    ensures var t := InitializeTrace(cfg);
      t[0] == PeConfig(1, 1, 3, 1) && t[1] == t[0].(resetPE := 0, resetRing := 0) &&
      t[6] == IntClr(INT_ALL) && t[7] == MaskDisable(INT_ALL) &&
      forall i :: 0 <= i < |t| && RegOf(t[i]) == PE_RING_THRESH ==> i > 7
  {
  }

  /** The ring threshold initialisation leaves in force is 480 descriptors. */
  lemma InitializeThreshold(cfg: BuildConfig)
    ensures LastWrite(InitializeTrace(cfg), PE_RING_THRESH) == Some(RingThresh(480, 0, 5, 1))
  {
    var t := InitializeTrace(cfg);
    var w := RingThresh(RING_SIZE - RING_BUSY, 0, 5, 1);
    assert t == t[..8] + [w] + [];
    LastWriteBefore(t[..8], w, []);
  }

  /** Initialisation leaves every source disabled and every cause acknowledged. */
  lemma InitializeMasks(cfg: BuildConfig, e: bv32, c: bv32)
    ensures MaskAfter(e, InitializeTrace(cfg)) == 0 && CauseAfter(c, InitializeTrace(cfg)) == 0
  {
    var t := InitializeTrace(cfg);
    var head := t[..6];
    var masks := [IntClr(INT_ALL), MaskDisable(INT_ALL)];
    var tail := [t[8]];
    assert t == head + masks + tail;
    AfterAppend(e, c, head + masks, tail);
    AfterAppend(e, c, head, masks);
    NoIrqWrites(e, c, head);
    ClearAndMaskAll(MaskAfter(e, head), CauseAfter(c, head));
    NoIrqWrites(0, 0, tail);
  }

  /** mtk_desc_free's writes. */
  const DESC_FREE_TRACE: seq<RegWrite> := [RingConfig(0, 0), CdrBase(0), RdrBase(0)]

  /** mtk_cleanup's writes. */
  const CLEANUP_TRACE: seq<RegWrite> :=
    [IntClr(INT_ALL), MaskDisable(INT_ALL), ClockCtrl(false, false, false, false)] + DESC_FREE_TRACE

  /**
   * Whatever the state, teardown leaves every source masked and every cause
   * acknowledged; doing it twice changes nothing more.
   */
  lemma CleanupMasksAll(e: bv32, c: bv32)
    ensures MaskAfter(e, CLEANUP_TRACE) == 0 && CauseAfter(c, CLEANUP_TRACE) == 0
    ensures MaskAfter(MaskAfter(e, CLEANUP_TRACE), CLEANUP_TRACE) == MaskAfter(e, CLEANUP_TRACE)
    ensures CauseAfter(CauseAfter(c, CLEANUP_TRACE), CLEANUP_TRACE) == CauseAfter(c, CLEANUP_TRACE)
  {
    var head := [IntClr(INT_ALL), MaskDisable(INT_ALL)];
    var tail := [ClockCtrl(false, false, false, false)] + DESC_FREE_TRACE;
    assert CLEANUP_TRACE == head + tail;
    AfterAppend(e, c, head, tail);
    AfterAppend(0, 0, head, tail);
    ClearAndMaskAll(e, c);
    ClearAndMaskAll(0, 0);
    NoIrqWrites(0, 0, tail);
  }

  /**
   * Whatever was written before, after teardown the clocks are off and the
   * ring configuration and both ring base registers are zero.
   */
  lemma CleanupLastWrites(h: seq<RegWrite>)
    ensures LastWrite(h + CLEANUP_TRACE, PE_CLOCK_CTRL) == Some(ClockCtrl(false, false, false, false))
    ensures LastWrite(h + CLEANUP_TRACE, PE_RING_CONFIG) == Some(RingConfig(0, 0))
    ensures LastWrite(h + CLEANUP_TRACE, PE_CDR_BASE) == Some(CdrBase(0))
    ensures LastWrite(h + CLEANUP_TRACE, PE_RDR_BASE) == Some(RdrBase(0))
  {
    CleanupClock(h);
    CleanupRingConfig(h);
    CleanupCdrBase(h);
    CleanupRdrBase(h);
  }

  lemma CleanupClock(h: seq<RegWrite>)
    ensures LastWrite(h + CLEANUP_TRACE, PE_CLOCK_CTRL) == Some(ClockCtrl(false, false, false, false))
  {
    var masks := h + [IntClr(INT_ALL), MaskDisable(INT_ALL)];
    assert h + CLEANUP_TRACE == masks + [ClockCtrl(false, false, false, false)] + DESC_FREE_TRACE;
    LastWriteBefore(masks, ClockCtrl(false, false, false, false), DESC_FREE_TRACE);
  }

  lemma CleanupRingConfig(h: seq<RegWrite>)
    ensures LastWrite(h + CLEANUP_TRACE, PE_RING_CONFIG) == Some(RingConfig(0, 0))
  {
    var pre := h + [IntClr(INT_ALL), MaskDisable(INT_ALL), ClockCtrl(false, false, false, false)];
    assert h + CLEANUP_TRACE == pre + [RingConfig(0, 0)] + [CdrBase(0), RdrBase(0)];
    LastWriteBefore(pre, RingConfig(0, 0), [CdrBase(0), RdrBase(0)]);
  }

  lemma CleanupCdrBase(h: seq<RegWrite>)
    ensures LastWrite(h + CLEANUP_TRACE, PE_CDR_BASE) == Some(CdrBase(0))
  {
    var pre := h + [IntClr(INT_ALL), MaskDisable(INT_ALL), ClockCtrl(false, false, false, false), RingConfig(0, 0)];
    assert h + CLEANUP_TRACE == pre + [CdrBase(0)] + [RdrBase(0)];
    LastWriteBefore(pre, CdrBase(0), [RdrBase(0)]);
  }

  lemma CleanupRdrBase(h: seq<RegWrite>)
    ensures LastWrite(h + CLEANUP_TRACE, PE_RDR_BASE) == Some(RdrBase(0))
  {
    var pre := h + [IntClr(INT_ALL), MaskDisable(INT_ALL), ClockCtrl(false, false, false, false),
                    RingConfig(0, 0), CdrBase(0)];
    assert h + CLEANUP_TRACE == pre + [RdrBase(0)] + [];
    LastWriteBefore(pre, RdrBase(0), []);
  }

  /** A bus address as the 32-bit value written to a base register. */
  function ToU32(addr: int): bv32 {
    (addr % 0x1_0000_0000) as bv32
  }

  /** The outcome of a coherent DMA allocation. */
  datatype Allocation = Allocated(cpu: int, bus: int) | NoMemory

  /** Calls into the crypto framework, with the result each registration returned. */
  datatype FrameworkCall = RegisterAlg(index: int, kind: AlgType, result: int)
                         | UnregisterAlg(index: int, kind: AlgType)

  /** mtk_unregister_algs(i): unregisters entries 0..i-1; kinds not compiled in are skipped. */
  function UnregisterCalls(cfg: BuildConfig, table: seq<AlgType>, i: nat): seq<FrameworkCall>
    requires i <= |table|
    decreases i
  {
    if i == 0 then []
    else UnregisterCalls(cfg, table, i - 1) +
         (if CompiledIn(cfg, table[i - 1]) then [UnregisterAlg(i - 1, table[i - 1])] else [])
  }

  /** Registration attempts for entries 0..n-1, with the results the framework returns. */
  function RegisterCalls(table: seq<AlgType>, outcome: seq<int>, n: nat): seq<FrameworkCall>
    requires n <= |table| && |outcome| == |table|
    decreases n
  {
    if n == 0 then []
    else RegisterCalls(table, outcome, n - 1) + [RegisterAlg(n - 1, table[n - 1], outcome[n - 1])]
  }

  /** The first entry whose kind is not compiled in or whose registration fails, or |table|. */
  function FirstFailure(cfg: BuildConfig, table: seq<AlgType>, outcome: seq<int>, from: nat): (i: int)
    requires from <= |table| && |outcome| == |table|
    ensures from <= i <= |table|
    ensures forall k :: from <= k < i ==> CompiledIn(cfg, table[k]) && outcome[k] == 0
    ensures i < |table| ==> !CompiledIn(cfg, table[i]) || outcome[i] != 0
    decreases |table| - from
  {
    if from == |table| then |table|
    else if !CompiledIn(cfg, table[from]) || outcome[from] != 0 then from
    else FirstFailure(cfg, table, outcome, from + 1)
  }

  lemma {:induction false} UnregisterCallsMembers(cfg: BuildConfig, table: seq<AlgType>, i: nat, c: FrameworkCall)
    requires i <= |table|
    ensures c in UnregisterCalls(cfg, table, i) <==>
      c.UnregisterAlg? && 0 <= c.index < i && c.kind == table[c.index] && CompiledIn(cfg, c.kind)
    decreases i
  {
    if i > 0 {
      UnregisterCallsMembers(cfg, table, i - 1, c);
    }
  }

  lemma {:induction false} RegisterCallsMembers(table: seq<AlgType>, outcome: seq<int>, n: nat, c: FrameworkCall)
    requires n <= |table| && |outcome| == |table|
    ensures c in RegisterCalls(table, outcome, n) <==>
      c.RegisterAlg? && 0 <= c.index < n && c.kind == table[c.index] && c.result == outcome[c.index]
    decreases n
  {
    if n > 0 {
      RegisterCallsMembers(table, outcome, n - 1, c);
    }
  }

  /** Entry k is left registered with the framework after these calls. */
  predicate Live(calls: seq<FrameworkCall>, k: int) {
    (exists c :: c in calls && c.RegisterAlg? && c.index == k && c.result == 0) &&
    !(exists c :: c in calls && c.UnregisterAlg? && c.index == k)
  }

  /**
   * What registration leaves behind: everything after success, nothing after a
   * failed registration (the rollback undoes exactly the earlier successes),
   * and the earlier entries still registered after an unknown kind, which
   * returns without rollback.
   */
  lemma RegistrationOutcome(cfg: BuildConfig, table: seq<AlgType>, outcome: seq<int>, k: int)
    requires |outcome| == |table|
    ensures var i := FirstFailure(cfg, table, outcome, 0);
      (i == |table| ==> (Live(RegisterCalls(table, outcome, i), k) <==> 0 <= k < |table|)) &&
      (i < |table| && !CompiledIn(cfg, table[i]) ==>
         (Live(RegisterCalls(table, outcome, i), k) <==> 0 <= k < i)) &&
      (i < |table| && CompiledIn(cfg, table[i]) ==>
         !Live(RegisterCalls(table, outcome, i + 1) + UnregisterCalls(cfg, table, i), k))
  {
    var i := FirstFailure(cfg, table, outcome, 0);
    if 0 <= k < |table| {
      RegisterCallsMembers(table, outcome, i, RegisterAlg(k, table[k], outcome[k]));
      if i < |table| {
        RegisterCallsMembers(table, outcome, i + 1, RegisterAlg(k, table[k], outcome[k]));
      }
    }
    forall c | c in RegisterCalls(table, outcome, i)
      ensures c.RegisterAlg? && 0 <= c.index < i
    {
      RegisterCallsMembers(table, outcome, i, c);
    }
    if i < |table| && CompiledIn(cfg, table[i]) {
      var calls := RegisterCalls(table, outcome, i + 1) + UnregisterCalls(cfg, table, i);
      if 0 <= k < i {
        UnregisterCallsMembers(cfg, table, i, UnregisterAlg(k, table[k]));
        assert UnregisterAlg(k, table[k]) in calls;
      } else {
        forall c | c in calls && c.RegisterAlg? && c.index == k
          ensures c.result != 0
        {
          RegisterCallsMembers(table, outcome, i + 1, c);
          UnregisterCallsMembers(cfg, table, i, c);
        }
      }
    }
  }

  /** mtk_unregister_algs. */
  method UnregisterAlgs(cfg: BuildConfig, table: seq<AlgType>, i: nat) returns (calls: seq<FrameworkCall>)
    requires i <= |table|
    ensures calls == UnregisterCalls(cfg, table, i)
  {
    calls := [];
    for j := 0 to i
      invariant calls == UnregisterCalls(cfg, table, j)
    {
      match table[j]
      case Skcipher =>
        if cfg.skcipher {
          calls := calls + [UnregisterAlg(j, Skcipher)];
        }
      case Aead =>
        if cfg.aead {
          calls := calls + [UnregisterAlg(j, Aead)];
        }
    }
  }

  /**
   * mtk_register_algs: registers the table in order. `outcome[i]` is what the
   * framework returns for entry i. A kind that is not compiled in returns
   * -EINVAL at once; a failed registration of entry i unregisters entries
   * 0..i-1 and returns that error.
   */
  method RegisterAlgs(cfg: BuildConfig, table: seq<AlgType>, outcome: seq<int>)
    returns (err: int, calls: seq<FrameworkCall>)
    requires |outcome| == |table|
    ensures var i := FirstFailure(cfg, table, outcome, 0);
      (i == |table| ==> err == 0 && calls == RegisterCalls(table, outcome, |table|)) &&
      (i < |table| && !CompiledIn(cfg, table[i]) ==>
         err == -EINVAL && calls == RegisterCalls(table, outcome, i)) &&
      (i < |table| && CompiledIn(cfg, table[i]) ==>
         err == outcome[i] && err != 0 &&
         calls == RegisterCalls(table, outcome, i + 1) + UnregisterCalls(cfg, table, i))
  {
    calls := [];
    err := 0;
    var i := 0;
    while i < |table|
      invariant 0 <= i <= |table|
      decreases |table| - i
      invariant FirstFailure(cfg, table, outcome, 0) == FirstFailure(cfg, table, outcome, i)
      invariant calls == RegisterCalls(table, outcome, i)
      invariant forall k :: 0 <= k < i ==> CompiledIn(cfg, table[k]) && outcome[k] == 0
    {
      match table[i] {
        case Skcipher =>
          if !cfg.skcipher {
            return -EINVAL, calls;
          }
        case Aead =>
          if !cfg.aead {
            return -EINVAL, calls;
          }
      }
      err := outcome[i];
      calls := calls + [RegisterAlg(i, table[i], err)];
      if err != 0 {
        var undo := UnregisterAlgs(cfg, table, i);
        calls := calls + undo;
        return;
      }
      i := i + 1;
    }
  }

  /**
   * The occupied part of a ring, in ring order: the slots from `read` up to,
   * and not including, `write`.
   */
  function WindowOf(slots: seq<Descriptor>, read: int, write: int): (w: seq<Descriptor>)
    requires |slots| == R
    ensures |w| == Occupancy(read, write)
    ensures forall k {:trigger w[k]} :: 0 <= k < |w| ==> w[k] == slots[Window(read, k)]
  {
    seq(Occupancy(read, write), k => slots[Window(read, k)])
  }

  /** Taking the slot at `read` takes the head of the window and leaves its tail. */
  lemma WindowAfterRead(slots: seq<Descriptor>, read: int, write: int)
    requires |slots| == R && InRing(read) && InRing(write) && read != write
    ensures WindowOf(slots, read, write) != [] && WindowOf(slots, read, write)[0] == slots[read]
    ensures WindowOf(slots, Next(read), write) == WindowOf(slots, read, write)[1..]
  {
    OccupancyAfterRead(read, write);
    WindowTail(slots, read, Next(read), write);
  }

  lemma WindowTail(slots: seq<Descriptor>, read: int, next: int, write: int)
    requires |slots| == R && InRing(read) && next == (read + 1) % R
    requires Occupancy(next, write) == Occupancy(read, write) - 1
    ensures WindowOf(slots, next, write) == WindowOf(slots, read, write)[1..]
  {
    var w, w' := WindowOf(slots, read, write), WindowOf(slots, next, write);
    forall k | 0 <= k < |w'|
      ensures w'[k] == w[k + 1]
    {
      WindowShift(read, 1, k);
    }
  }

  /** The first n slots of a window, as far as it reaches, are completed by the engine. */
  predicate ReadyPrefix(w: seq<Descriptor>, n: int) {
    forall k :: 0 <= k < |w| && k < n ==> BothReady(w[k])
  }

  lemma ReadyPrefixTail(w: seq<Descriptor>, n: int)
    requires ReadyPrefix(w, n) && w != []
    ensures ReadyPrefix(w[1..], n - 1)
  {
    forall k | 0 <= k < |w| - 1 && k < n - 1
      ensures BothReady(w[1..][k])
    {
      assert w[1..][k] == w[k + 1];
    }
  }

  /**
   * The number of descriptors one pass with ready count `ready` takes from
   * the window `w` when a fetch fails only on an empty ring: up to and
   * including the first one carrying DESC_LAST, at most `ready`, and no more
   * than the window holds.
   */
  function PassLen(w: seq<Descriptor>, ready: nat): (n: nat)
    ensures n <= |w| && n <= ready
    decreases ready
  {
    if ready == 0 || w == [] then 0
    else if IsLast(w[0]) then 1
    else 1 + PassLen(w[1..], ready - 1)
  }

  /** A pass that finds a slot takes it, and stops there or goes on with one count fewer. */
  lemma PassLenStep(w: seq<Descriptor>, ready: nat)
    requires w != [] && ready > 0
    ensures PassLen(w, ready) == if IsLast(w[0]) then 1 else 1 + PassLen(w[1..], ready - 1)
  {
  }

  /**
   * PassLen is the first place a pass may stop: m descriptors are what a
   * pass takes exactly when none but the m-th carries DESC_LAST and the m-th
   * carries it, or m has reached the ready count or the end of the window.
   */
  lemma {:induction false} PassLenIsFirstStop(w: seq<Descriptor>, ready: nat, m: nat)
    requires m <= ready && m <= |w|
    ensures m == PassLen(w, ready) <==>
            LastOnlyAtEnd(w[..m]) && (m == ready || m == |w| || (m > 0 && IsLast(w[m - 1])))
    decreases ready
  {
    if ready == 0 || w == [] {
    } else if m == 0 {
      assert PassLen(w, ready) >= 1;
    } else if IsLast(w[0]) {
      if m > 1 {
        assert w[..m][0] == w[0];
        assert !LastOnlyAtEnd(w[..m]);
      }
    } else {
      PassLenIsFirstStop(w[1..], ready - 1, m - 1);
      LastOnlyAtEndCons(w, m);
    }
  }

  /** Only the final descriptor of w[..m] may carry DESC_LAST exactly when that holds of w[1..m] and w[0] does not carry it (or is final). */
  lemma LastOnlyAtEndCons(w: seq<Descriptor>, m: nat)
    requires 0 < m <= |w|
    ensures LastOnlyAtEnd(w[..m]) <==> (m == 1 || !IsLast(w[0])) && LastOnlyAtEnd(w[1..][..m - 1])
  {
    assert w[1..][..m - 1] == w[..m][1..];
    if LastOnlyAtEnd(w[..m]) {
      if m > 1 {
        assert w[..m][0] == w[0];
      }
    }
    if (m == 1 || !IsLast(w[0])) && LastOnlyAtEnd(w[1..][..m - 1]) {
      forall k | 0 <= k < m - 1
        ensures !IsLast(w[..m][k])
      {
        if k > 0 {
          assert w[..m][k] == w[1..][..m - 1][k - 1];
        }
      }
    }
  }

  /** A pass whose count covers a whole request at the front of the window takes exactly that request. */
  lemma PassTakesRequest(w: seq<Descriptor>, m: nat, ready: nat)
    requires m <= |w| && m <= ready && IsRequest(w[..m])
    ensures PassLen(w, ready) == m
  {
    assert w[..m][m - 1] == w[m - 1];
    PassLenIsFirstStop(w, ready, m);
  }

  /**
   * The number of descriptors the drain takes from a window for a run of
   * count readings, when a fetch fails only on an empty ring: none once a
   * reading reports zero, otherwise one pass for the first reading and then
   * the drain of what is left for the rest.
   */
  function DrainLen(w: seq<Descriptor>, readings: seq<nat>): (n: nat)
    ensures n <= |w|
    decreases |readings|
  {
    if readings == [] || Ready(readings[0]) == 0 then 0
    else PassLen(w, Ready(readings[0])) + DrainLen(w[PassLen(w, Ready(readings[0]))..], readings[1..])
  }

  /** A zero reading at p ends the drain there. */
  lemma DrainLenStop(w: seq<Descriptor>, readings: seq<nat>, p: int)
    requires 0 <= p < |readings| && Ready(readings[p]) == 0
    ensures DrainLen(w, readings[p..]) == 0
  {
    assert readings[p..][0] == readings[p];
  }

  /** A non-zero reading at p takes one pass and leaves the drain of the rest of the window to the later readings. */
  lemma DrainLenPass(w: seq<Descriptor>, readings: seq<nat>, p: int, n: nat)
    requires 0 <= p < |readings| && Ready(readings[p]) != 0 && n == PassLen(w, Ready(readings[p]))
    ensures DrainLen(w, readings[p..]) == n + DrainLen(w[n..], readings[p + 1..])
  {
    assert readings[p..][0] == readings[p];
    assert readings[p..][1..] == readings[p + 1..];
  }

  /** Once the readings are used up the drain takes nothing more. */
  lemma DrainLenEnd(w: seq<Descriptor>, readings: seq<nat>)
    ensures DrainLen(w, readings[|readings|..]) == 0
  {
    assert readings[|readings|..] == [];
  }

  /**
   * What the count readings promise about the ring: PE_RD_COUNT is the
   * number of finished results not yet acknowledged, so each non-zero
   * reading says that many slots from the read cursor of that moment are
   * finished, the moment being after the passes of the earlier readings.
   */
  ghost predicate CountsReady(w: seq<Descriptor>, readings: seq<nat>)
    decreases |readings|
  {
    readings == [] || Ready(readings[0]) == 0 ||
    (ReadyPrefix(w, Ready(readings[0])) &&
     CountsReady(w[PassLen(w, Ready(readings[0]))..], readings[1..]))
  }

  /** A non-zero reading at p vouches for its own pass and leaves the later readings to vouch for the rest. */
  lemma CountsReadyPass(w: seq<Descriptor>, readings: seq<nat>, p: int)
    requires 0 <= p < |readings| && Ready(readings[p]) != 0 && CountsReady(w, readings[p..])
    ensures ReadyPrefix(w, Ready(readings[p]))
    ensures CountsReady(w[PassLen(w, Ready(readings[p]))..], readings[p + 1..])
  {
    assert readings[p..][0] == readings[p];
    assert readings[p..][1..] == readings[p + 1..];
  }

  /**
   * The drain after the readings before p, `taken` the descriptors taken
   * and `rest` the results left: either a zero count has been seen, and the
   * drain took its whole `DrainLen`, or no zero count was seen yet, the
   * readings from p on still vouch for `rest`, and together with what was
   * taken they make up the whole `DrainLen`.
   */
  ghost predicate Vouched(w0: seq<Descriptor>, taken: seq<Descriptor>, rest: seq<Descriptor>,
                          readings: seq<nat>, p: int, finished: bool)
  {
    0 <= p <= |readings| && w0 == taken + rest &&
    (if finished then StopsAtZero(readings, true) && DrainLen(w0, readings) == |taken|
     else NoZeroBefore(readings, p) && CountsReady(rest, readings[p..]) &&
          DrainLen(w0, readings) == |taken| + DrainLen(rest, readings[p..]))
  }

  /** Nothing taken yet: the readings vouch for the whole window. */
  lemma VouchedStart(w0: seq<Descriptor>, readings: seq<nat>)
    requires CountsReady(w0, readings)
    ensures Vouched(w0, [], w0, readings, 0, false)
  {
    assert readings[0..] == readings;
    assert [] + w0 == w0;
  }

  /**
   * The pass with reading p keeps `Vouched`: a zero count takes nothing and
   * finishes, any other count takes `PassLen` descriptors and goes on.
   */
  lemma VouchedPass(w0: seq<Descriptor>, taken: seq<Descriptor>, rest: seq<Descriptor>,
                    taken': seq<Descriptor>, rest': seq<Descriptor>, readings: seq<nat>, p: int)
    requires p < |readings| && Vouched(w0, taken, rest, readings, p, false) && w0 == taken' + rest'
    requires Ready(readings[p]) == 0 ==> |taken'| == |taken|
    requires Ready(readings[p]) != 0 ==>
               |taken'| - |taken| == PassLen(rest, Ready(readings[p])) && rest' == rest[|taken'| - |taken|..]
    ensures Vouched(w0, taken', rest', readings, p + 1, Ready(readings[p]) == 0)
  {
    if Ready(readings[p]) == 0 {
      StopsAtZeroAt(readings, p);
      DrainLenStop(rest, readings, p);
    } else {
      NoZeroStep(readings, p);
      CountsReadyPass(rest, readings, p);
      DrainLenPass(rest, readings, p, |taken'| - |taken|);
    }
  }

  /** Readings that run out before a zero count leave nothing more to take. */
  lemma VouchedEnd(w0: seq<Descriptor>, taken: seq<Descriptor>, rest: seq<Descriptor>, readings: seq<nat>)
    requires Vouched(w0, taken, rest, readings, |readings|, false)
    ensures Vouched(w0, taken, rest, readings, |readings|, false) && StopsAtZero(readings, false)
    ensures DrainLen(w0, readings) == |taken|
  {
    StopsAtZeroNone(readings);
    DrainLenEnd(rest, readings);
  }

  /**
   * Two finished single-descriptor requests ahead of one still in flight,
   * with the count read as 2, then 1, then 0: the readings vouch only for
   * the two finished slots, and the drain takes exactly those two.
   */
  lemma TwoDoneOneInFlight(a: Descriptor, b: Descriptor, x: Descriptor)
    requires IsLast(a) && BothReady(a) && IsLast(b) && BothReady(b)
    ensures CountsReady([a, b, x], [2, 1, 0])
    ensures DrainLen([a, b, x], [2, 1, 0]) == 2
  {
    var w := [a, b, x];
    assert PassLen(w, 2) == 1;
    assert w[1..] == [b, x];
    assert PassLen([b, x], 1) == 1;
    assert [b, x][1..] == [x];
    assert [2, 1, 0][1..] == [1, 0] && [1, 0][1..] == [0];
    assert CountsReady([x], [0]);
    assert ReadyPrefix([b, x], 1);
    assert CountsReady([b, x], [1, 0]);
    assert ReadyPrefix(w, 2);
  }

  /**
   * Requests queued back to back, with a reading per request that covers it
   * and a zero reading after them: the drain takes exactly those requests.
   */
  lemma {:induction false} DrainTakesRequests(reqs: seq<seq<Descriptor>>, rest: seq<Descriptor>, readings: seq<nat>)
    requires forall i :: 0 <= i < |reqs| ==> IsRequest(reqs[i])
    requires |readings| == |reqs| + 1 && Ready(readings[|reqs|]) == 0
    requires forall i :: 0 <= i < |reqs| ==> |reqs[i]| <= Ready(readings[i])
    ensures DrainLen(Flatten(reqs) + rest, readings) == |Flatten(reqs)|
    decreases |reqs|
  {
    var w := Flatten(reqs) + rest;
    if reqs == [] {
      assert Ready(readings[0]) == 0;
    } else {
      var m := |reqs[0]|;
      assert w == reqs[0] + (Flatten(reqs[1..]) + rest);
      assert w[..m] == reqs[0];
      PassTakesRequest(w, m, Ready(readings[0]));
      assert w[m..] == Flatten(reqs[1..]) + rest;
      DrainTakesRequests(reqs[1..], rest, readings[1..]);
    }
  }

  /**
   * One finished single-descriptor request at the read cursor, drained with
   * the counts 1 and then 0: the drain takes that descriptor alone and
   * dispatches its completions, with its back-reference and error status.
   */
  lemma OneRequestDrain(cfg: BuildConfig, d: Descriptor, rest: seq<Descriptor>)
    requires IsLast(d)
    ensures DrainLen([d] + rest, [1, 0]) == 1
    ensures Completions(cfg, [d]) == Dispatched(cfg, d.userId, d.arc4Addr, ErrStatus(d))
  {
    assert IsRequest([d]);
    assert Flatten([[d]]) == [d] by {
      assert Flatten([[d]][1..]) == [];
    }
    DrainTakesRequests([[d]], rest, [1, 0]);
    assert [d][..0] == [];
  }

  /**
   * The command slots after the n slots from `start` on were retired, each
   * zeroed as get_descriptor does before it hands out the matching result slot.
   */
  function Retired(cmd: seq<Descriptor>, start: int, n: nat): (r: seq<Descriptor>)
    requires |cmd| == R
    ensures |r| == R
    decreases n
  {
    if n == 0 then cmd else Retired(cmd, start, n - 1)[Window(start, n - 1) := ZERO_DESCRIPTOR]
  }

  /** Retiring exactly zeroes the slots fewer than n places on from `start`; every other slot keeps its descriptor. */
  lemma {:induction false} RetiredSlots(cmd: seq<Descriptor>, start: int, n: nat, i: int)
    requires |cmd| == R && InRing(start) && n <= R && InRing(i)
    ensures Retired(cmd, start, n)[i] == if (i - start) % R < n then ZERO_DESCRIPTOR else cmd[i]
    decreases n
  {
    if n > 0 {
      RetiredSlots(cmd, start, n - 1, i);
      WindowDistance(start, n - 1, i);
    }
  }

  /** Slot i is k places on from `start` exactly when its distance from `start` is k. */
  lemma WindowDistance(start: int, k: int, i: int)
    requires InRing(start) && 0 <= k < R && InRing(i)
    ensures i == Window(start, k) <==> (i - start) % R == k
  {
    if i >= start {
      assert (i - start) % R == i - start;
    } else {
      assert (i - start) % R == i - start + R;
    }
    if start + k >= R {
      assert Window(start, k) == start + k - R;
    }
  }

  /** Retiring a runs and then the b slots after them is retiring a + b slots. */
  lemma {:induction false} RetiredAppend(cmd: seq<Descriptor>, start: int, a: nat, b: nat)
    requires |cmd| == R
    ensures Retired(Retired(cmd, start, a), Window(start, a), b) == Retired(cmd, start, a + b)
    decreases b
  {
    if b > 0 {
      RetiredAppend(cmd, start, a, b - 1);
      WindowShift(start, a, b - 1);
    }
  }

  /**
   * A snapshot of the state the drain changes: both cursors of the result
   * ring, `free`, the command slots, the log and the interrupt registers.
   */
  datatype DrainMark = DrainMark(read: int, write: int, free: int, lockstep: bool, cmd: seq<Descriptor>,
                                 log: seq<RegWrite>, enabled: bv32, pending: bv32)

  /**
   * The ring of `m1` is that of `m0` after n result slots were taken: the
   * read cursor moved n slots on, `free` grew by n, occupancy shrank by n, the
   * write cursor is unchanged and lock-step was kept; under lock-step the
   * matching n command slots were retired and no other command slot changed.
   */
  ghost predicate RingAdvanced(m0: DrainMark, m1: DrainMark, n: nat) {
    n <= Occupancy(m0.read, m0.write) &&
    m1.write == m0.write && m1.read == Window(m0.read, n) &&
    Occupancy(m1.read, m1.write) == Occupancy(m0.read, m0.write) - n &&
    m1.free == m0.free + n && (m0.lockstep ==> m1.lockstep) &&
    |m0.cmd| == R && |m1.cmd| == R && (m0.lockstep ==> m1.cmd == Retired(m0.cmd, m0.read, n))
  }

  /** The registers of `m1` are those of `m0` after n slots were acknowledged one by one. */
  ghost predicate Acknowledged(m0: DrainMark, m1: DrainMark, n: nat) {
    m1.log == m0.log + AckTrace(n) && m1.enabled == m0.enabled &&
    m1.pending == (if n == 0 then m0.pending else Acked(m0.pending))
  }

  /** `m1` is `m0` after n result slots were taken and acknowledged, and nothing else. */
  ghost predicate Advanced(m0: DrainMark, m1: DrainMark, n: nat) {
    RingAdvanced(m0, m1, n) && Acknowledged(m0, m1, n)
  }

  lemma AdvancedNone(m: DrainMark)
    requires 0 <= m.read < R && |m.cmd| == R
    ensures Advanced(m, m, 0)
  {
    assert m.log + AckTrace(0) == m.log;
  }

  lemma AdvancedTrans(m0: DrainMark, m1: DrainMark, m2: DrainMark, a: nat, b: nat)
    requires Advanced(m0, m1, a) && Advanced(m1, m2, b)
    ensures Advanced(m0, m2, a + b)
  {
    RingAdvancedTrans(m0, m1, m2, a, b);
    AcknowledgedTrans(m0, m1, m2, a, b);
  }

  lemma RingAdvancedTrans(m0: DrainMark, m1: DrainMark, m2: DrainMark, a: nat, b: nat)
    requires RingAdvanced(m0, m1, a) && RingAdvanced(m1, m2, b)
    ensures RingAdvanced(m0, m2, a + b)
  {
    WindowShift(m0.read, a, b);
    if m0.lockstep {
      RetiredAppend(m0.cmd, m0.read, a, b);
    }
  }

  lemma AcknowledgedTrans(m0: DrainMark, m1: DrainMark, m2: DrainMark, a: nat, b: nat)
    requires Acknowledged(m0, m1, a) && Acknowledged(m1, m2, b)
    ensures Acknowledged(m0, m2, a + b)
  {
    AckTraceAppend(a, b);
    AppendAssoc(m0.log, AckTrace(a), AckTrace(b));
    AckedTwice(m0.pending);
  }

  /**
   * The registers of `m1` are those of `m0` after n slots were acknowledged
   * and the RDR threshold interrupt was then re-armed.
   */
  ghost predicate Rearmed(m0: DrainMark, m1: DrainMark, n: nat) {
    m1.log == m0.log + AckTrace(n) + REARM_TRACE &&
    m1.enabled == m0.enabled | INT_PE_RDRTHRESH_REQ && m1.pending == Acked(m0.pending)
  }

  /**
   * The state a complete drain leaves: n descriptors taken from the ring, each
   * acknowledged, and the RDR threshold interrupt re-armed if it finished.
   */
  ghost predicate Drained(m0: DrainMark, m1: DrainMark, n: nat, finished: bool) {
    RingAdvanced(m0, m1, n) && (if finished then Rearmed(m0, m1, n) else Acknowledged(m0, m1, n))
  }

  lemma DrainedUnfinished(m0: DrainMark, m1: DrainMark, n: nat)
    requires Advanced(m0, m1, n)
    ensures Drained(m0, m1, n, false)
  {
  }

  /** The registers of `m` after the RDR threshold interrupt was re-armed. */
  ghost function AfterRearm(m: DrainMark): DrainMark {
    m.(log := m.log + REARM_TRACE, enabled := m.enabled | INT_PE_RDRTHRESH_REQ, pending := Acked(m.pending))
  }

  lemma DrainedRearmed(m0: DrainMark, m1: DrainMark, n: nat)
    requires Advanced(m0, m1, n)
    ensures Drained(m0, AfterRearm(m1), n, true)
  {
    AckedTwice(m0.pending);
  }

  /** AdvancedTrans, counted by the runs of descriptors taken. */
  lemma AdvancedAppend(m0: DrainMark, m1: DrainMark, m2: DrainMark, taken: seq<Descriptor>, batch: seq<Descriptor>)
    requires Advanced(m0, m1, |taken|) && Advanced(m1, m2, |batch|)
    ensures Advanced(m0, m2, |taken + batch|)
  {
    AdvancedTrans(m0, m1, m2, |taken|, |batch|);
  }

  /** A batch with DESC_LAST at most on its final descriptor completes only through that one. */
  lemma BatchOnly(cfg: BuildConfig, batch: seq<Descriptor>)
    requires LastOnlyAtEnd(batch)
    ensures Completions(cfg, batch) == if batch == [] then [] else DescCompletions(cfg, batch[|batch| - 1])
  {
    if batch != [] {
      NoLastNoCompletions(cfg, batch[..|batch| - 1]);
    }
  }

  /** What a batch adds to the drain's completions: those of its last descriptor, if it carries DESC_LAST. */
  lemma BatchCompletions(cfg: BuildConfig, taken: seq<Descriptor>, batch: seq<Descriptor>, lastEntry: bool)
    requires LastOnlyAtEnd(batch)
    requires lastEntry <==> |batch| > 0 && IsLast(batch[|batch| - 1])
    ensures Completions(cfg, taken + batch) ==
            Completions(cfg, taken) + (if lastEntry then DescCompletions(cfg, batch[|batch| - 1]) else [])
  {
    CompletionsAppend(cfg, taken, batch);
    BatchOnly(cfg, batch);
  }

  /** The engine as the driver sees it (mtk_device): registers, the rings, the drain tasklet. */
  class Device {
    const ring: RingPair
    const cfg: BuildConfig
    var enabled: bv32
    var pending: bv32
    var log: seq<RegWrite>
    var drainScheduled: bool

    ghost predicate Valid()
      reads this, ring, ring.cdr, ring.rdr
    {
      ring.Valid()
    }

    /** The result slots handed to the engine and not yet taken by the driver, in ring order. */
    ghost function Results(): seq<Descriptor>
      reads ring.rdr, ring.rdr.slots
      requires ring.rdr.Valid()
    {
      WindowOf(ring.rdr.slots[..], ring.rdr.read, ring.rdr.write)
    }

    constructor (cfg: BuildConfig, ring: RingPair)
      requires ring.Valid()
      ensures Valid() && this.cfg == cfg && this.ring == ring
      ensures enabled == 0 && pending == 0 && log == [] && !drainScheduled
    {
      this.cfg := cfg;
      this.ring := ring;
      enabled, pending := 0, 0;
      log := [];
      drainScheduled := false;
    }

    /** writel: appends to the log and updates the interrupt registers. */
    method WriteReg(w: RegWrite)
      requires !TouchesIrq(w)
      modifies this`log
      ensures log == old(log) + [w] && enabled == old(enabled) && pending == old(pending)
    {
      log := log + [w];
    }

    /** mtk_irq_disable */
    method IrqDisable(mask: bv32)
      modifies this`log, this`enabled
      ensures log == old(log) + [MaskDisable(mask)]
      ensures enabled == old(enabled) & !mask && pending == old(pending)
    {
      log, enabled := log + [MaskDisable(mask)], enabled & !mask;
    }

    /** mtk_irq_enable */
    method IrqEnable(mask: bv32)
      modifies this`log, this`enabled
      ensures log == old(log) + [MaskEnable(mask)]
      ensures enabled == old(enabled) | mask && pending == old(pending)
    {
      log, enabled := log + [MaskEnable(mask)], enabled | mask;
    }

    /** mtk_irq_clear */
    method IrqClear(mask: bv32)
      modifies this`log, this`pending
      ensures log == old(log) + [IntClr(mask)]
      ensures enabled == old(enabled) && pending == old(pending) & !mask
    {
      log, pending := log + [IntClr(mask)], pending & !mask;
    }

    /**
     * mtk_irq_handler. The masked status is the pending causes of enabled
     * sources. A pending RDR threshold is masked at the source and the drain
     * is scheduled; anything else is acknowledged, masked, and not claimed.
     */
    method IrqHandler() returns (ret: IrqReturn)
      modifies this
      ensures var status := old(pending & enabled);
        if status & INT_PE_RDRTHRESH_REQ != 0 then
          ret == IrqHandled && drainScheduled &&
          log == old(log) + [MaskDisable(INT_PE_RDRTHRESH_REQ)] &&
          enabled == old(enabled) & !INT_PE_RDRTHRESH_REQ && pending == old(pending)
        else
          ret == IrqNone && drainScheduled == old(drainScheduled) &&
          log == old(log) + [IntClr(status)] + (if status != 0 then [MaskDisable(status)] else []) &&
          enabled == old(enabled) & !status && pending == old(pending) & !status
    {
      var status := pending & enabled;
      if status & INT_PE_RDRTHRESH_REQ != 0 {
        IrqDisable(INT_PE_RDRTHRESH_REQ);
        drainScheduled := true;
        return IrqHandled;
      }
      IrqClear(status);
      if status != 0 {
        IrqDisable(status);
      }
      return IrqNone;
    }

    /** Hands one result slot back: writes 1 to PE_RD_COUNT and acknowledges the RDR cause. */
    method AckResult()
      modifies this`log, this`pending
      ensures log == old(log) + [RdCount(1), IntClr(INT_PE_RDRTHRESH_REQ)]
      ensures enabled == old(enabled) && pending == Acked(old(pending))
    {
      WriteReg(RdCount(1));
      IrqClear(INT_PE_RDRTHRESH_REQ);
    }

    /**
     * The cursors and free count of the result ring, the command slots, the
     * log and the interrupt registers, as a value.
     */
    ghost function Mark(): DrainMark
      reads this, ring, ring.cdr, ring.rdr, ring.cdr.slots
      requires Valid()
    {
      DrainMark(ring.rdr.read, ring.rdr.write, ring.free, ring.Lockstep(), ring.cdr.slots[..],
                log, enabled, pending)
    }

    /**
     * The ring half of a drain step: fetches the next result slot, retiring
     * the matching command slot, and reads the descriptor in it. The busy-wait
     * on both ready bits ends at once: the engine has finished the slot.
     * Under lock-step the fetch fails exactly when the result ring is empty.
     */
    method FetchResult() returns (r: SlotResult, d: Descriptor)
      requires Valid() && ReadyPrefix(Results(), 1)
      modifies ring`free, ring.cdr`read, ring.rdr`read, ring.cdr.slots
      ensures Valid() && ring.rdr.write == old(ring.rdr.write)
      ensures old(ring.Lockstep()) ==>
                ring.Lockstep() && (r.Slot? <==> old(Results()) != []) &&
                ring.cdr.slots[..] == Retired(old(ring.cdr.slots[..]), old(ring.rdr.read), if r.Slot? then 1 else 0)
      ensures r.ErrPtr? ==> ring.rdr.read == old(ring.rdr.read) && ring.free == old(ring.free)
      ensures r.Slot? ==> old(Results()) != [] && d == old(Results())[0] && BothReady(d) &&
                          Results() == old(Results())[1..] &&
                          ring.rdr.read == Window(old(ring.rdr.read), 1) && ring.free == old(ring.free) + 1
    {
      ghost var before := ring.rdr.read;
      EmptyIffZero(ring.rdr.read, ring.rdr.write);
      d := ZERO_DESCRIPTOR;
      r := ring.GetDescriptor();
      if r.ErrPtr? {
        return;
      }
      WindowAfterRead(ring.rdr.slots[..], before, ring.rdr.write);
      NextIsModular(before);
      d := ring.rdr.slots[r.index];
    }

    /**
     * One step of the drain's inner loop: fetches the next result slot and,
     * when there is one, acknowledges it to the engine.
     */
    method TakeOne() returns (r: SlotResult, d: Descriptor)
      requires Valid() && ReadyPrefix(Results(), 1)
      modifies this`log, this`pending, ring`free, ring.cdr`read, ring.rdr`read, ring.cdr.slots
      ensures Valid()
      ensures Advanced(old(Mark()), Mark(), if r.Slot? then 1 else 0)
      ensures old(ring.Lockstep()) ==> (r.Slot? <==> old(Results()) != [])
      ensures r.ErrPtr? ==> Results() == old(Results())
      ensures r.Slot? ==> old(Results()) != [] && d == old(Results())[0] && BothReady(d) &&
                          Results() == old(Results())[1..]
    {
      ghost var m0 := Mark();
      r, d := FetchResult();
      ghost var m1 := Mark();
      if r.Slot? {
        AckResult();
        assert Mark() == m1.(log := m0.log + AckTrace(1), pending := Acked(m0.pending));
      } else {
        assert log == m0.log + AckTrace(0);
      }
    }

    /**
     * TakeOne within a batch that has already taken `batch` from the window
     * `w0` of the ring as it stood at `m0`, with `remaining` slots still
     * known to be ready: the batch grows by the slot taken, if any, and the
     * window is still the batch followed by the slots left.
     */
    method TakeNext(ghost m0: DrainMark, ghost w0: seq<Descriptor>, ghost batch: seq<Descriptor>, ghost remaining: nat)
      returns (got: bool, d: Descriptor, ghost batch': seq<Descriptor>)
      requires Valid() && remaining > 0 && ReadyPrefix(Results(), remaining)
      requires Advanced(m0, Mark(), |batch|) && w0 == batch + Results()
      modifies this`log, this`pending, ring`free, ring.cdr`read, ring.rdr`read, ring.cdr.slots
      ensures Valid()
      ensures batch' == if got then batch + [d] else batch
      ensures Advanced(m0, Mark(), |batch'|) && w0 == batch' + Results()
      ensures old(ring.Lockstep()) ==> (got <==> old(Results()) != [])
      ensures got ==> d == old(Results())[0] && BothReady(d) && Results() == old(Results())[1..] &&
                      ReadyPrefix(Results(), remaining - 1)
      ensures !got ==> Results() == old(Results())
      ensures m0.lockstep ==>
                PassLen(old(Results()), remaining) ==
                  if !got then 0 else if IsLast(d) then 1 else 1 + PassLen(Results(), remaining - 1)
    {
      ghost var m1, rest := Mark(), Results();
      var r;
      r, d := TakeOne();
      got := r.Slot?;
      if got {
        AdvancedAppend(m0, m1, Mark(), batch, [d]);
        batch' := batch + [d];
        assert rest == [d] + Results();
        AppendAssoc(batch, [d], Results());
        ReadyPrefixTail(rest, remaining);
        PassLenStep(rest, remaining);
      } else {
        AdvancedTrans(m0, m1, Mark(), |batch|, 0);
        batch' := batch;
      }
    }

    /**
     * The inner `while (ready)` loop of the drain: takes at most `ready`
     * descriptors from the result ring, acknowledging each, and stops after
     * the first one carrying DESC_LAST or when no slot can be fetched.
     */
    method TakeBatch(ready: int) returns (lastEntry: bool, flags: bv32, request: bv32, err: bv8,
                                           ghost batch: seq<Descriptor>)
      requires Valid() && ready > 0 && ReadyPrefix(Results(), ready)
      modifies this`log, this`pending, ring`free, ring.cdr`read, ring.rdr`read, ring.cdr.slots
      ensures Valid()
      ensures |batch| <= ready && Advanced(old(Mark()), Mark(), |batch|) && old(Results()) == batch + Results()
      ensures old(ring.Lockstep()) ==> |batch| == PassLen(old(Results()), ready)
      ensures LastOnlyAtEnd(batch)
      ensures lastEntry <==> |batch| > 0 && IsLast(batch[|batch| - 1])
      ensures lastEntry ==> flags == batch[|batch| - 1].userId && request == batch[|batch| - 1].arc4Addr &&
                            err == ErrStatus(batch[|batch| - 1])
    {
      ghost var m0, w0 := Mark(), Results();
      var remaining := ready;
      lastEntry, flags, request, err := false, 0, 0, 0;
      batch := [];
      AdvancedNone(m0);
      while remaining > 0
        invariant Valid()
        invariant |batch| + remaining == ready && remaining >= 0
        invariant Advanced(m0, Mark(), |batch|) && w0 == batch + Results()
        invariant ReadyPrefix(Results(), remaining)
        invariant m0.lockstep ==> PassLen(w0, ready) == |batch| + PassLen(Results(), remaining)
        invariant NoLast(batch)
        invariant !lastEntry
        decreases remaining
      {
        var got, d;
        ghost var prev := batch;
        got, d, batch := TakeNext(m0, w0, batch, remaining);
        NoLastSnoc(prev, d);
        if !got {
          // the source logs the counts seen so far and goes back for a new count
          break;
        }
        err := ErrStatus(d);
        flags := d.userId;
        request := d.arc4Addr;
        remaining := remaining - 1;
        if flags & DESC_LAST != 0 {
          lastEntry := true;
          break;
        }
      }
    }

    /** Re-arms the RDR threshold interrupt: acknowledges its cause, then enables it. */
    method Rearm()
      requires Valid()
      modifies this`log, this`enabled, this`pending
      ensures Valid()
      ensures Mark() == AfterRearm(old(Mark()))
    {
      IrqClear(INT_PE_RDRTHRESH_REQ);
      IrqEnable(INT_PE_RDRTHRESH_REQ);
    }

    /**
     * One pass of the drain with a non-zero ready count: takes a batch and,
     * when it ends in a DESC_LAST descriptor, dispatches that descriptor to
     * the compiled-in handlers its tag bits name (skcipher first, then aead).
     */
    method DrainBatch(ghost m0: DrainMark, ghost w0: seq<Descriptor>, ghost taken: seq<Descriptor>, ready: int)
      returns (cs: seq<Completion>, ghost taken': seq<Descriptor>)
      requires Valid() && ready > 0 && ReadyPrefix(Results(), ready)
      requires Advanced(m0, Mark(), |taken|) && w0 == taken + Results()
      modifies this`log, this`pending, ring`free, ring.cdr`read, ring.rdr`read, ring.cdr.slots
      ensures Valid()
      ensures Advanced(m0, Mark(), |taken'|) && w0 == taken' + Results()
      ensures |taken| <= |taken'| <= |taken| + ready && taken'[..|taken|] == taken
      ensures Results() == old(Results())[|taken'| - |taken|..]
      ensures old(ring.Lockstep()) ==> |taken'| - |taken| == PassLen(old(Results()), ready)
      ensures Completions(cfg, taken') == Completions(cfg, taken) + cs
    {
      ghost var m1, rest := Mark(), Results();
      var lastEntry, flags, request, err;
      ghost var batch;
      lastEntry, flags, request, err, batch := TakeBatch(ready);
      AdvancedAppend(m0, m1, Mark(), taken, batch);
      BatchCompletions(cfg, taken, batch, lastEntry);
      taken' := taken + batch;
      assert taken'[..|taken|] == taken;
      assert Results() == rest[|batch|..];
      AppendAssoc(taken, batch, Results());
      cs := if lastEntry then Dispatched(cfg, flags, request, err) else [];
    }

    /**
     * mtk_handle_result_descriptor. `readings` are the successive values the
     * engine returns from PE_RD_COUNT. Each pass (the `get_more` label) reads
     * one: a zero count re-arms the RDR threshold interrupt and ends the
     * drain; otherwise a batch is taken, and a batch ending in a DESC_LAST
     * descriptor dispatches that descriptor's completions. A batch without
     * DESC_LAST, a failed fetch, and a dispatch all go back for a new count.
     * `finished` is false when the readings ran out before a zero count.
     */
    method HandleResultDescriptor(readings: seq<nat>)
      returns (done: seq<Completion>, finished: bool, ghost taken: seq<Descriptor>)
      requires Valid() && ring.Lockstep() && CountsReady(Results(), readings)
      modifies this`log, this`enabled, this`pending, ring`free, ring.cdr`read, ring.rdr`read, ring.cdr.slots
      ensures Valid() && ring.Lockstep()
      ensures done == Completions(cfg, taken) && (taken == [] ==> done == [])
      ensures old(Results()) == taken + Results()
      ensures |taken| == DrainLen(old(Results()), readings)
      ensures StopsAtZero(readings, finished)
      ensures |readings| > 0 && Ready(readings[0]) == 0 ==> taken == []
      ensures Drained(old(Mark()), Mark(), |taken|, finished)
    {
      ghost var m0 := Mark();
      done, finished, taken := DrainPasses(readings);
      FinishDrain(finished, m0, |taken|);
    }

    /** The end of mtk_handle_result_descriptor: re-arm the RDR threshold interrupt once finished. */
    method FinishDrain(finished: bool, ghost m0: DrainMark, ghost n: nat)
      requires Valid() && Advanced(m0, Mark(), n)
      modifies this`log, this`enabled, this`pending
      ensures Valid()
      ensures Drained(m0, Mark(), n, finished)
    {
      ghost var m1 := Mark();
      if finished {
        Rearm();
        DrainedRearmed(m0, m1, n);
      } else {
        DrainedUnfinished(m0, m1, n);
      }
    }

    /**
     * One pass of mtk_handle_result_descriptor (the `get_more` label) with
     * reading p: a zero count stops the drain and takes nothing, any other
     * count runs DrainBatch.
     */
    method Pass(ghost m0: DrainMark, ghost w0: seq<Descriptor>, ghost taken: seq<Descriptor>, done: seq<Completion>,
                readings: seq<nat>, p: int)
      returns (done': seq<Completion>, stop: bool, ghost taken': seq<Descriptor>)
      requires Valid() && m0.lockstep && p < |readings| && done == Completions(cfg, taken)
      requires Advanced(m0, Mark(), |taken|) && Vouched(w0, taken, Results(), readings, p, false)
      modifies this`log, this`pending, ring`free, ring.cdr`read, ring.rdr`read, ring.cdr.slots
      ensures Valid() && ring.Lockstep()
      ensures Advanced(m0, Mark(), |taken'|) && Vouched(w0, taken', Results(), readings, p + 1, stop)
      ensures |taken| <= |taken'| && taken'[..|taken|] == taken
      ensures done' == Completions(cfg, taken')
      ensures stop <==> Ready(readings[p]) == 0
      ensures stop ==> taken' == taken && done' == done
    {
      ghost var rest, lockstep := Results(), ring.Lockstep();
      assert lockstep;
      var ready := Ready(readings[p]);
      if ready == 0 {
        done', stop, taken' := done, true, taken;
        assert taken'[..|taken|] == taken;
        VouchedPass(w0, taken, rest, taken', rest, readings, p);
      } else {
        stop := false;
        CountsReadyPass(rest, readings, p);
        var cs;
        cs, taken' := DrainBatch(m0, w0, taken, ready);
        done' := done + cs;
        ghost var n := |taken'| - |taken|;
        assert n == PassLen(rest, ready) && Results() == rest[n..];
        VouchedPass(w0, taken, rest, taken', Results(), readings, p);
      }
    }

    /**
     * The passes of mtk_handle_result_descriptor up to the first zero count
     * (`finished`) or to the end of the readings, without the re-arm.
     */
    method DrainPasses(readings: seq<nat>)
      returns (done: seq<Completion>, finished: bool, ghost taken: seq<Descriptor>)
      requires Valid() && ring.Lockstep() && CountsReady(Results(), readings)
      modifies this`log, this`pending, ring`free, ring.cdr`read, ring.rdr`read, ring.cdr.slots
      ensures Valid() && ring.Lockstep()
      ensures done == Completions(cfg, taken)
      ensures Advanced(old(Mark()), Mark(), |taken|) && old(Results()) == taken + Results()
      ensures |taken| == DrainLen(old(Results()), readings)
      ensures StopsAtZero(readings, finished)
      ensures |readings| > 0 && Ready(readings[0]) == 0 ==> taken == []
      ensures taken == [] ==> done == []
    {
      done, finished, taken := [], false, [];
      ghost var m0, w0 := Mark(), Results();
      AdvancedNone(m0);
      VouchedStart(w0, readings);
      var p := 0;
      while p < |readings| && !finished
        invariant Valid() && m0.lockstep
        invariant done == Completions(cfg, taken)
        invariant Advanced(m0, Mark(), |taken|) && Vouched(w0, taken, Results(), readings, p, finished)
      {
        done, finished, taken := Pass(m0, w0, taken, done, readings, p);
        p := p + 1;
      }
      if !finished {
        VouchedEnd(w0, taken, Results(), readings);
      }
    }

    /**
     * mtk_set_ring: records the stride, then allocates the slot memory; on
     * success both cursors are at base and base_end is the last slot.
     */
    method SetRing(r: DescRing, offset: int, alloc: Allocation) returns (err: int)
      requires r.Valid()
      modifies r
      ensures r.Valid() && r.offset == offset && r.baseDma == (if alloc.Allocated? then alloc.bus else old(r.baseDma))
      ensures alloc.NoMemory? ==> err == -ENOMEM && r.base == 0 && r.read == old(r.read) && r.write == old(r.write)
      ensures alloc.Allocated? ==> err == 0 && r.base == alloc.cpu && r.read == 0 && r.write == 0 &&
                                   r.BaseEnd() == alloc.cpu + offset * (RING_SIZE - 1)
    {
      r.offset := offset;
      if alloc.NoMemory? {
        r.base := 0;
        return -ENOMEM;
      }
      r.base := alloc.cpu;
      r.baseDma := alloc.bus;
      r.write := 0;
      r.read := 0;
      return 0;
    }

    /**
     * mtk_desc_init: sets up both rings with the descriptor size as stride,
     * programs their bus addresses and the ring size and stride, sets `free`
     * to R - 1, and lays the state pool out over one allocation, all entries free.
     */
    method DescInit(cdrAlloc: Allocation, rdrAlloc: Allocation, stateAlloc: Allocation) returns (err: int)
      requires Valid()
      modifies this, ring, ring.cdr, ring.rdr, ring.pool
      ensures Valid() && drainScheduled == old(drainScheduled)
      ensures enabled == old(enabled) && pending == old(pending)
      ensures cdrAlloc.NoMemory? ==> err == -ENOMEM && log == old(log)
      ensures cdrAlloc.Allocated? && rdrAlloc.NoMemory? ==> err == -ENOMEM && log == old(log)
      ensures cdrAlloc.Allocated? && rdrAlloc.Allocated? ==>
        log == old(log) + [CdrBase(ToU32(cdrAlloc.bus)), RdrBase(ToU32(rdrAlloc.bus)),
                           RingConfig(RING_SIZE - 1, DESCRIPTOR_SIZE / 4)] &&
        ring.Lockstep() && ring.free == R - 1 &&
        ring.cdr.read == 0 && ring.cdr.write == 0 && ring.cdr.offset == DESCRIPTOR_SIZE &&
        ring.rdr.offset == DESCRIPTOR_SIZE &&
        ring.cdr.base == cdrAlloc.cpu && ring.rdr.base == rdrAlloc.cpu &&
        (err == 0 <==> stateAlloc.Allocated?) && (err != 0 ==> err == -ENOMEM)
      ensures err == 0 ==> stateAlloc.Allocated? &&
                           (forall i :: 0 <= i < R ==>
                              ring.pool[i] == StateEntry(stateAlloc.cpu + i * SA_STATE_SIZE,
                                                         stateAlloc.bus + i * SA_STATE_SIZE, false))
    {
      err := AttachRings(cdrAlloc, rdrAlloc);
      if err != 0 {
        return;
      }
      ring.free := RING_SIZE - 1;
      if stateAlloc.NoMemory? {
        ring.saState := 0;
        return -ENOMEM;
      }
      ring.LayOutPool(stateAlloc.cpu, stateAlloc.bus);
      return 0;
    }

    /**
     * The ring half of mtk_desc_init: both rings at their allocations with the
     * descriptor size as stride, and their bus addresses, size and stride
     * written to the engine; nothing is written when an allocation failed.
     */
    method AttachRings(cdrAlloc: Allocation, rdrAlloc: Allocation) returns (err: int)
      requires Valid()
      modifies this, ring.cdr, ring.rdr
      ensures Valid() && drainScheduled == old(drainScheduled)
      ensures enabled == old(enabled) && pending == old(pending)
      ensures err == 0 || err == -ENOMEM
      ensures err == 0 <==> cdrAlloc.Allocated? && rdrAlloc.Allocated?
      ensures err != 0 ==> log == old(log)
      ensures err == 0 ==>
        log == old(log) + [CdrBase(ToU32(cdrAlloc.bus)), RdrBase(ToU32(rdrAlloc.bus)),
                           RingConfig(RING_SIZE - 1, DESCRIPTOR_SIZE / 4)] &&
        ring.cdr.read == 0 && ring.cdr.write == 0 && ring.rdr.read == 0 && ring.rdr.write == 0 &&
        ring.cdr.offset == DESCRIPTOR_SIZE && ring.rdr.offset == DESCRIPTOR_SIZE &&
        ring.cdr.base == cdrAlloc.cpu && ring.rdr.base == rdrAlloc.cpu
    {
      var ringOffset := DESCRIPTOR_SIZE;
      err := SetRing(ring.cdr, ringOffset, cdrAlloc);
      if err != 0 {
        return;
      }
      err := SetRing(ring.rdr, ringOffset, rdrAlloc);
      if err != 0 {
        return;
      }
      WriteReg(CdrBase(ToU32(ring.cdr.baseDma)));
      WriteReg(RdrBase(ToU32(ring.rdr.baseDma)));
      WriteReg(RingConfig(RING_SIZE - 1, ringOffset / 4));
    }

    /** mtk_initialize: engine reset and configuration, as the fixed write sequence. */
    method Initialize()
      modifies this
      ensures log == old(log) + InitializeTrace(cfg) && enabled == 0 && pending == 0
      ensures drainScheduled == old(drainScheduled)
    {
      ConfigureEngine();
      IrqClear(INT_ALL);
      IrqDisable(INT_ALL);
      WriteReg(RingThresh(RING_SIZE - RING_BUSY, 0, 5, 1));
      assert InitializeTrace(cfg) == InitializeTrace(cfg)[..6] +
        [IntClr(INT_ALL), MaskDisable(INT_ALL), RingThresh(RING_SIZE - RING_BUSY, 0, 5, 1)];
    }

    /** The first six writes of mtk_initialize: reset pulse, mode, byte order, interrupt mode, clocks, buffer thresholds. */
    method ConfigureEngine()
      modifies this
      ensures log == old(log) + InitializeTrace(cfg)[..6]
      ensures enabled == old(enabled) && pending == old(pending) && drainScheduled == old(drainScheduled)
    {
      WriteReg(PeConfig(1, 1, 3, 1));
      WriteReg(PeConfig(0, 0, 3, 1));
      WriteReg(EndianConfig(0));
      WriteReg(IntConfig(0));
      WriteReg(ClockCtrl(true, cfg.des, cfg.aes, cfg.hmac));
      WriteReg(BufThresh(128, 128));
    }

    /** mtk_desc_free: unregisters the rings from the engine. */
    method DescFree()
      modifies this
      ensures log == old(log) + DESC_FREE_TRACE && enabled == old(enabled) && pending == old(pending)
      ensures drainScheduled == old(drainScheduled)
    {
      WriteReg(RingConfig(0, 0));
      WriteReg(CdrBase(0));
      WriteReg(RdrBase(0));
    }

    /** mtk_cleanup: cancels the drain, masks and clears all causes, stops the clocks, frees the rings. */
    method Cleanup()
      modifies this
      ensures log == old(log) + CLEANUP_TRACE && enabled == 0 && pending == 0 && !drainScheduled
    {
      drainScheduled := false;
      IrqClear(INT_ALL);
      IrqDisable(INT_ALL);
      WriteReg(ClockCtrl(false, false, false, false));
      DescFree();
    }
  }

  lemma {:induction false} AckTraceAppend(a: nat, b: nat)
    ensures AckTrace(a) + AckTrace(b) == AckTrace(a + b)
    decreases b
  {
    if b > 0 {
      AckTraceAppend(a, b - 1);
    }
  }

  /** The slot k places after `read`. */
  function Window(read: int, k: int): int {
    (read + k) % R
  }

  lemma WindowShift(r: int, b: int, k: int)
    ensures Window(Window(r, b), k) == Window(r, b + k)
  {
    ModAdd(r + b, k);
  }

  lemma ModStep(a: int)
    ensures (a % R + 1) % R == (a + 1) % R
  {
  }

  lemma ModAdd(a: int, b: int)
    ensures (a % R + b) % R == (a + b) % R
  {
  }
}
