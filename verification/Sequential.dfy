/**
 What a whole handler run, capture or mirror read does to the software registers, for every word the
 hardware may return: closed forms for the automaton's paths.
 */
module Sequential {
  import opened Bits
  import opened Options
  import opened Protocol

  // ----- rollover of the overflow words

  function IncTimes(v: u64, n: nat): u64 {
    if n == 0 then v else VInc(IncTimes(v, n - 1))
  }

  /** One increment below bit 63, and the only start value there that rolls over. */
  lemma {:induction false} VIncBelow(v: u64)
    requires v < TWO_63
    ensures VInc(v) == if v == TWO_63 - 1 then 0 else v + 1
    ensures Rolls(v) <==> v == TWO_63 - 1
  {
  }

  lemma {:induction false} ModNext(x: nat)
    ensures (x + 1) % 0x8000_0000_0000_0000
            == if x % 0x8000_0000_0000_0000 == 0x7FFF_FFFF_FFFF_FFFF then 0 else x % 0x8000_0000_0000_0000 + 1
  {
  }

  /** A start value with bit 63 set is dropped by the first increment, and only 2^64 - 1 wraps without a rollover. */
  lemma {:induction false} VIncAbove(v: u64)
    requires v >= TWO_63
    ensures VInc(v) == 0
    ensures Rolls(v) <==> v != TWO_64 - 1
  {
    if v < TWO_64 - 1 {
      assert (v + 1) % TWO_64 == v + 1;
    }
  }

  /**
   Overflow words count modulo 2^63, whatever the start.  The n-th increment reports a rollover exactly when
   it reaches bit 63: from below, when the count reaches a multiple of 2^63; a start value with bit 63 set
   is reported by the first increment, unless that wraps the whole word, and then counts from zero.
   */
  lemma {:induction false} IncTimesClosedForm(v: u64, n: nat)
    requires n >= 1
    ensures IncTimes(v, n) == if v < TWO_63 then (v + n) % TWO_63 else (n - 1) % TWO_63
    ensures v < TWO_63 ==> (Rolls(IncTimes(v, n - 1)) <==> (v + n) % TWO_63 == 0)
    ensures v >= TWO_63 ==>
              (Rolls(IncTimes(v, n - 1)) <==> if n == 1 then v != TWO_64 - 1 else (n - 1) % TWO_63 == 0)
  {
    if n == 1 {
      assert IncTimes(v, 0) == v && IncTimes(v, 1) == VInc(v);
      if v < TWO_63 {
        VIncBelow(v);
      } else {
        VIncAbove(v);
      }
    } else {
      IncTimesClosedForm(v, n - 1);
      VIncBelow(IncTimes(v, n - 1));
      var x := if v < TWO_63 then v + n - 1 else n - 2;
      ModNext(x);
      assert IncTimes(v, n - 1) == x % TWO_63;
      assert IncTimes(v, n) == (x + 1) % TWO_63;
    }
  }

  // ----- update_vcounters over any map size, the status register at 0x30 and counter k at 0xA00 + 4k

  /** The accesses `update_vcounters` makes from bit `i` on, cut off at the first refused one. */
  function UpdTail(size: nat, mask: u32, i: Count): seq<Ev>
    decreases Shr(mask, i)
  {
    NonZeroIsLow(mask, i);
    if Shr(mask, i) == 0 then []
    else if !Bit(mask, i) then UpdTail(size, mask, i + 1)
    else if 0xA00 + 4 * i < size then [Inc(i), Wr(0xA00 + 4 * i, 0)] + UpdTail(size, mask, i + 1)
    else [Inc(i), Fault(0xA00 + 4 * i)]
  }

  function UpdTrace(size: nat, mask: u32): seq<Ev> {
    if 0x30 < size then [Wr(0x30, mask)] + UpdTail(size, mask, 0) else [Fault(0x30)]
  }

  /** `update_vcounters` returns 0: the status register and every counter named by the mask are mapped. */
  predicate UpdSucceeds(size: nat, mask: u32) {
    0x30 < size && forall k: nat | k < 32 :: Bit(mask, k) ==> 0xA00 + 4 * k < size
  }

  /** Where `update_vcounters` leaves a caller with continuation `k`. */
  function UpdReturn(size: nat, mask: u32, k: Cont): Pc {
    if UpdSucceeds(size, mask) then Resume(mask, k) else Abort(k)
  }

  /** Counter `k` is incremented: its bit is set and no lower set bit names an unmapped counter. */
  predicate Counted(size: nat, mask: u32, k: nat) {
    0x30 < size && Bit(mask, k) && forall j: nat | j < k :: Bit(mask, j) ==> 0xA00 + 4 * j < size
  }

  function CountedFrom(size: nat, mask: u32, i: nat, v: Counters): Counters {
    seq(32, k requires 0 <= k < 32 => if k >= i && Counted(size, mask, k) then VInc(v[k]) else v[k])
  }

  /** `k` is the lowest set bit whose counter is not mapped. */
  predicate FirstUnmapped(size: nat, mask: u32, k: nat) {
    Bit(mask, k) && 0xA00 + 4 * k >= size && forall j: nat | j < k :: Bit(mask, j) ==> 0xA00 + 4 * j < size
  }

  lemma {:induction false} ReplayTwo(r: Soft, a: Ev, b: Ev)
    ensures Replay(r, [a, b]) == Effect(Effect(r, a), b)
  {
    assert [a, b][1..] == [b] && [b][1..] == [];
    assert Replay(Effect(r, a), [b]) == Replay(Effect(Effect(r, a), b), []);
  }

  lemma {:induction false} UpdTailEffect(size: nat, mask: u32, i: Count, r: Soft)
    requires 0x30 < size
    requires forall j: nat | j < i :: Bit(mask, j) ==> 0xA00 + 4 * j < size
    ensures Replay(r, UpdTail(size, mask, i)) == r.(vcntr := CountedFrom(size, mask, i, r.vcntr))
    decreases Shr(mask, i)
  {
    NonZeroIsLow(mask, i);
    if Shr(mask, i) == 0 {
      forall k: nat | i <= k ensures !Bit(mask, k) { NoBitsAbove(mask, i, k); }
      assert CountedFrom(size, mask, i, r.vcntr) == r.vcntr;
    } else if !Bit(mask, i) {
      UpdTailEffect(size, mask, i + 1, r);
      assert CountedFrom(size, mask, i, r.vcntr) == CountedFrom(size, mask, i + 1, r.vcntr);
    } else if 0xA00 + 4 * i < size {
      var r1 := Effect(r, Inc(i));
      UpdTailEffect(size, mask, i + 1, r1);
      ReplayConcat(r, [Inc(i), Wr(0xA00 + 4 * i, 0)], UpdTail(size, mask, i + 1));
      ReplayTwo(r, Inc(i), Wr(0xA00 + 4 * i, 0));
      assert CountedFrom(size, mask, i, r.vcntr) == CountedFrom(size, mask, i + 1, r1.vcntr);
    } else {
      ReplayTwo(r, Inc(i), Fault(0xA00 + 4 * i));
      assert CountedFrom(size, mask, i, r.vcntr) == Effect(r, Inc(i)).vcntr;
    }
  }

  lemma {:induction false} UpdTailWrites(size: nat, mask: u32, i: Count, k: nat)
    requires 0x30 < size && k < 32
    requires forall j: nat | j < i :: Bit(mask, j) ==> 0xA00 + 4 * j < size
    ensures Wr(0xA00 + 4 * k, 0) in UpdTail(size, mask, i)
            <==> k >= i && Counted(size, mask, k) && 0xA00 + 4 * k < size
    decreases Shr(mask, i)
  {
    NonZeroIsLow(mask, i);
    if Shr(mask, i) == 0 {
      if k >= i { NoBitsAbove(mask, i, k); }
    } else if !Bit(mask, i) {
      UpdTailWrites(size, mask, i + 1, k);
    } else if 0xA00 + 4 * i < size {
      UpdTailWrites(size, mask, i + 1, k);
      var rest := UpdTail(size, mask, i + 1);
      assert UpdTail(size, mask, i) == [Inc(i), Wr(0xA00 + 4 * i, 0)] + rest;
      assert Wr(0xA00 + 4 * k, 0) in [Inc(i), Wr(0xA00 + 4 * i, 0)] <==> k == i;
    } else {
      assert UpdTail(size, mask, i) == [Inc(i), Fault(0xA00 + 4 * i)];
    }
  }

  lemma {:induction false} UpdTailLegal(size: nat, mask: u32, i: Count)
    requires 0x30 < size
    requires forall j: nat | j < i :: Bit(mask, j) ==> 0xA00 + 4 * j < size
    ensures AllLegal(size, UpdTail(size, mask, i))
    ensures (forall k: nat | k < 32 :: Bit(mask, k) ==> 0xA00 + 4 * k < size)
            <==> forall off :: Fault(off) !in UpdTail(size, mask, i)
    decreases Shr(mask, i)
  {
    NonZeroIsLow(mask, i);
    if Shr(mask, i) == 0 {
      forall k: nat | i <= k ensures !Bit(mask, k) { NoBitsAbove(mask, i, k); }
    } else if !Bit(mask, i) {
      UpdTailLegal(size, mask, i + 1);
    } else if 0xA00 + 4 * i < size {
      UpdTailLegal(size, mask, i + 1);
      var rest := UpdTail(size, mask, i + 1);
      forall off ensures Fault(off) in UpdTail(size, mask, i) <==> Fault(off) in rest {
        assert UpdTail(size, mask, i) == [Inc(i), Wr(0xA00 + 4 * i, 0)] + rest;
      }
    } else {
      assert UpdTail(size, mask, i)[1] == Fault(0xA00 + 4 * i);
    }
  }

  /**
   `update_vcounters` for every mask and every size of the EPU map: which counters are incremented,
   which hardware counters are cleared, when it fails and what a failed call has already done.
   */
  lemma {:induction false} UpdateMeaning(size: nat, mask: u32, r: Soft)
    ensures Replay(r, UpdTrace(size, mask)) == r.(vcntr := CountedFrom(size, mask, 0, r.vcntr))
    ensures forall k: nat | k < 32 :: Wr(0xA00 + 4 * k, 0) in UpdTrace(size, mask)
                                      <==> Counted(size, mask, k) && 0xA00 + 4 * k < size
    ensures Wr(0x30, mask) in UpdTrace(size, mask) <==> 0x30 < size
    ensures UpdSucceeds(size, mask) <==> forall off :: Fault(off) !in UpdTrace(size, mask)
    ensures AllLegal(size, UpdTrace(size, mask))
  {
    var tr := UpdTrace(size, mask);
    if 0x30 < size {
      UpdTailEffect(size, mask, 0, r);
      UpdTailLegal(size, mask, 0);
      forall k: nat | k < 32
        ensures Wr(0xA00 + 4 * k, 0) in UpdTail(size, mask, 0) <==> Counted(size, mask, k) && 0xA00 + 4 * k < size
      {
        UpdTailWrites(size, mask, 0, k);
      }
      assert tr[0] == Wr(0x30, mask) && tr[1..] == UpdTail(size, mask, 0);
      forall ev ensures ev in tr <==> ev == Wr(0x30, mask) || ev in UpdTail(size, mask, 0) {}
    } else {
      assert Fault(0x30) in tr;
      assert CountedFrom(size, mask, 0, r.vcntr) == r.vcntr;
    }
  }

  /** A mapped status register: the call fails iff some set bit is unmapped; the lowest one decides who counts. */
  lemma {:induction false} UpdatePartialFailure(size: nat, mask: u32, k: nat)
    requires 0x30 < size && k < 32
    ensures FirstUnmapped(size, mask, k) ==>
              !UpdSucceeds(size, mask)
              && forall j: nat | j < 32 :: Counted(size, mask, j) <==> Bit(mask, j) && j <= k
    ensures !UpdSucceeds(size, mask) ==> exists f: nat :: FirstUnmapped(size, mask, f)
  {
    if !UpdSucceeds(size, mask) {
      var f: nat :| f < 32 && Bit(mask, f) && 0xA00 + 4 * f >= size;
      var low := LowestUnmapped(size, mask, f);
    }
  }

  lemma {:induction false} LowestUnmapped(size: nat, mask: u32, f: nat) returns (low: nat)
    requires Bit(mask, f) && 0xA00 + 4 * f >= size
    ensures FirstUnmapped(size, mask, low)
  {
    low := f;
    if j: nat :| j < f && Bit(mask, j) && 0xA00 + 4 * j >= size {
      low := LowestUnmapped(size, mask, j);
    }
  }

  /** The automaton makes exactly these accesses between entry and return of `update_vcounters`. */
  lemma {:induction false} UpdateFollowsProtocol(size: nat, mask: u32, k: Cont)
    ensures Path(Clear(mask, k), UpdTrace(size, mask), UpdReturn(size, mask, k))
  {
    if 0x30 < size {
      UpdTailFollowsProtocol(size, mask, 0, k);
      assert UpdTrace(size, mask)[1..] == UpdTail(size, mask, 0);
    }
  }

  lemma {:induction false} PathCons(pc: Pc, ev: Ev, mid: Pc, rest: seq<Ev>, end: Pc)
    requires Next(pc, ev) == Some(mid) && Path(mid, rest, end)
    ensures Path(pc, [ev] + rest, end)
  {
    assert ([ev] + rest)[1..] == rest;
  }

  /** Bit `i` is counted and its counter mapped: two steps, then the rest of the word. */
  lemma {:induction false} CountedBitPath(size: nat, mask: u32, i: Index, k: Cont, end: Pc)
    requires 0x30 < size && Bit(mask, i) && 0xA00 + 4 * i < size
    requires Path(Scan(mask, i + 1, k), UpdTail(size, mask, i + 1), end)
    ensures Path(Bump(mask, i, k), [Inc(i), Wr(0xA00 + 4 * i, 0)] + UpdTail(size, mask, i + 1), end)
  {
    var rest, write := UpdTail(size, mask, i + 1), Wr(0xA00 + 4 * i, 0);
    PathCons(Zero(mask, i, k), write, Scan(mask, i + 1, k), rest, end);
    PathCons(Bump(mask, i, k), Inc(i), Zero(mask, i, k), [write] + rest, end);
    assert [Inc(i), write] + rest == [Inc(i)] + ([write] + rest);
  }

  /** Bit `i` is counted and its counter is not mapped: the update gives up. */
  lemma {:induction false} RefusedBitPath(mask: u32, i: Index, k: Cont)
    ensures Path(Bump(mask, i, k), [Inc(i), Fault(0xA00 + 4 * i)], Abort(k))
  {
    PathCons(Zero(mask, i, k), Fault(0xA00 + 4 * i), Abort(k), [], Abort(k));
    PathCons(Bump(mask, i, k), Inc(i), Zero(mask, i, k), [Fault(0xA00 + 4 * i)] + [], Abort(k));
    assert [Inc(i)] + ([Fault(0xA00 + 4 * i)] + []) == [Inc(i), Fault(0xA00 + 4 * i)];
  }

  lemma {:induction false} UpdTailFollowsProtocol(size: nat, mask: u32, i: Count, k: Cont)
    requires 0x30 < size
    requires forall j: nat | j < i :: Bit(mask, j) ==> 0xA00 + 4 * j < size
    ensures Path(Scan(mask, i, k), UpdTail(size, mask, i), UpdReturn(size, mask, k))
    decreases Shr(mask, i)
  {
    NonZeroIsLow(mask, i);
    NonZero(mask, i);
    if Shr(mask, i) == 0 {
      forall j: nat | i <= j ensures !Bit(mask, j) { NoBitsAbove(mask, i, j); }
    } else if !Bit(mask, i) {
      UpdTailFollowsProtocol(size, mask, i + 1, k);
    } else if 0xA00 + 4 * i < size {
      UpdTailFollowsProtocol(size, mask, i + 1, k);
      CountedBitPath(size, mask, i, k, UpdReturn(size, mask, k));
    } else {
      RefusedBitPath(mask, i, k);
    }
  }

  // ----- closed forms of complete operations

  /** One overflow increment for every set bit of `mask` below `n`. */
  function Bumped(v: Counters, mask: u32, n: nat): Counters {
    seq(32, k requires 0 <= k < 32 => if k < n && Bit(mask, k) then VInc(v[k]) else v[k])
  }

  /** The captured words while the first pass has stored the old capture words of group members below `n`. */
  function Saved(d: Cap, capt: Counters, n: nat): Counters {
    seq(32, k requires 0 <= k < 32 => if k < n && Bit(d.g, k) then d.c0[k] else capt[k])
  }

  /** The overflow words once both status words have been counted. */
  function BothBumped(d: Cap, v: Counters): Counters {
    Bumped(Bumped(v, d.s, 32), d.t, 32)
  }

  /** The state after the second pass has handled the group members below `n`. */
  function Merged(d: Cap, r: Soft, n: nat): Soft {
    var v := BothBumped(d, r.vcntr);
    r.(vcntr := seq(32, k requires 0 <= k < 32 =>
                     if k < n && Bit(d.g, k) then Adjusted(v[k], d.c0[k], d.c1[k]) else v[k]),
       capt := seq(32, k requires 0 <= k < 32 =>
                    if !Bit(d.g, k) then r.capt[k]
                    else if k < n then Compose(Adjusted(v[k], d.c0[k], d.c1[k]), d.c1[k])
                    else d.c0[k]))
  }

  /** A whole successful capture. */
  function CaptureResult(d: Cap, r: Soft): Soft {
    Merged(d, r, 32)
  }

  function BeforeUpdate(k: Cont, r: Soft): Soft {
    match k
    case KIrq => r
    case KFire(d) => r.(capt := Saved(d, r.capt, 32))
    case KNew(d) => r.(capt := Saved(d, r.capt, 32), vcntr := Bumped(r.vcntr, d.s, 32))
  }

  /** `r0` held when the operation started and `r` holds now, at control point `pc`. */
  predicate Holds(pc: Pc, r0: Soft, r: Soft) {
    match pc
    case CapOld(d, i) => r == r0.(capt := Saved(d, r0.capt, i))
    case CapSave(d, i) => r == r0.(capt := Saved(d, r0.capt, i))
    case CapCtl(d) => r == r0.(capt := Saved(d, r0.capt, 32))
    case CapLast(d) => r == r0.(capt := Saved(d, r0.capt, 32))
    case Clear(mask, k) => r == BeforeUpdate(k, r0)
    case Bump(mask, i, k) => AtBit(mask, i, k, r0, r)
    case Zero(mask, i, k) => AtBit(mask, i + 1, k, r0, r)
    case CapFire(d) => r == r0.(capt := Saved(d, r0.capt, 32), vcntr := Bumped(r0.vcntr, d.s, 32))
    case CapLate(d) => r == r0.(capt := Saved(d, r0.capt, 32), vcntr := Bumped(r0.vcntr, d.s, 32))
    case CapNew(d, i) => r == Merged(d, r0, i)
    case CapMerge(d, i) => r == Merged(d, r0, i)
    case Exit(out) => Result(out, r0, r)
    case Rest(out) => Result(out, r0, r)
    case _ => r == r0
  }

  /** What an operation with outcome `out` has done to the software registers. */
  predicate Result(out: Outcome, r0: Soft, r: Soft) {
    match out
    case IrqDone(mask) => r == r0.(vcntr := Bumped(r0.vcntr, mask, 32))
    case Captured(d) => r == CaptureResult(d, r0)
    case Mirrored(e, val) => r == r0.(mirror := r0.mirror[e := val])
    case _ => r == r0
  }

  predicate AtBit(mask: u32, n: nat, k: Cont, r0: Soft, r: Soft) {
    var b := BeforeUpdate(k, r0);
    r == b.(vcntr := Bumped(b.vcntr, mask, n))
  }

  lemma {:induction false} ScanOldHolds(d: Cap, i: Count, r0: Soft, r: Soft)
    requires r == r0.(capt := Saved(d, r0.capt, i))
    ensures Holds(ScanOld(d, i), r0, r)
  {
    var j := NextBit(d.g, i);
    NextBitIs(d.g, i);
    assert Saved(d, r0.capt, i) == Saved(d, r0.capt, j);
    assert !Bit(d.g, j) ==> Saved(d, r0.capt, i) == Saved(d.(n := j), r0.capt, 32);
  }

  lemma {:induction false} ScanNewHolds(d: Cap, i: Count, r0: Soft, r: Soft)
    requires r == Merged(d, r0, i)
    ensures Holds(ScanNew(d, i), r0, r)
  {
    var j := NextBit(d.g, i);
    NextBitIs(d.g, i);
    assert Merged(d, r0, i) == Merged(d, r0, j);
    assert !Bit(d.g, j) ==> Merged(d, r0, i) == Merged(d, r0, 32);
  }

  /** Entering the second pass with the new status word counted. */
  lemma {:induction false} EnterScanNew(d: Cap, r0: Soft, r: Soft)
    requires r == r0.(capt := Saved(d, r0.capt, 32), vcntr := BothBumped(d, r0.vcntr))
    ensures Holds(ScanNew(d, 0), r0, r)
  {
    assert r == Merged(d, r0, 0);
    ScanNewHolds(d, 0, r0, r);
  }

  lemma {:induction false} ScanHolds(mask: u32, i: Count, k: Cont, r0: Soft, r: Soft)
    requires MaskOf(mask, k) && AtBit(mask, i, k, r0, r)
    ensures Holds(Scan(mask, i, k), r0, r)
  {
    var b, j := BeforeUpdate(k, r0), NextBit(mask, i);
    NextBitIs(mask, i);
    assert Bumped(b.vcntr, mask, i) == Bumped(b.vcntr, mask, j);
    if !Bit(mask, j) {
      assert Bumped(b.vcntr, mask, i) == Bumped(b.vcntr, mask, 32);
      if k.KNew? {
        EnterScanNew(k.d, r0, r);
      }
    }
  }

  /** Events of the operation itself, as opposed to the start of a new one. */
  predicate Own(ev: Ev) {
    !ev.Begin?
  }

  predicate AllOwn(tr: seq<Ev>) {
    forall i :: 0 <= i < |tr| ==> Own(tr[i])
  }

  lemma {:induction false} ZeroMaskBumps(v: Counters)
    ensures Bumped(v, 0, 32) == v
  {
    forall k: nat ensures !Bit(0, k) { ShrZeroStays(0, 0, k); }
  }

  /** Every action keeps the closed form: first pass, status updates, second pass, everything else. */
  lemma {:induction false} StepHolds(pc: Pc, ev: Ev, r0: Soft, r: Soft)
    requires Sound(pc) && Holds(pc, r0, r) && Next(pc, ev).Some? && Own(ev)
    requires !ev.Fault? || pc.CapGrp?
    ensures Holds(Next(pc, ev).value, r0, Effect(r, ev))
  {
    match pc
    case CapGrp(_, _) => StepHoldsFirstPass(pc, ev, r0, r);
    case CapOld(_, _) => StepHoldsFirstPass(pc, ev, r0, r);
    case CapSave(_, _) => StepHoldsFirstPass(pc, ev, r0, r);
    case Clear(_, _) => StepHoldsUpdate(pc, ev, r0, r);
    case Bump(_, _, _) => StepHoldsUpdate(pc, ev, r0, r);
    case Zero(_, _, _) => StepHoldsUpdate(pc, ev, r0, r);
    case CapLast(_) => ZeroMaskBumps(r0.vcntr);
    case CapLate(_) => StepHoldsSecondPass(pc, ev, r0, r);
    case CapNew(_, _) => StepHoldsSecondPass(pc, ev, r0, r);
    case CapMerge(_, _) => StepHoldsSecondPass(pc, ev, r0, r);
    case _ =>
  }

  lemma {:induction false} StepHoldsFirstPass(pc: Pc, ev: Ev, r0: Soft, r: Soft)
    requires pc.CapGrp? || pc.CapOld? || pc.CapSave?
    requires Sound(pc) && Holds(pc, r0, r) && Next(pc, ev).Some?
    requires !ev.Fault? || pc.CapGrp?
    ensures Holds(Next(pc, ev).value, r0, Effect(r, ev))
  {
    match pc
    case CapGrp(e, sel) =>
      if ev.Rd? {
        var d := Cap(e, sel, ev.val, 0, 0, 0, 0, ZeroRow(), ZeroRow());
        assert Saved(d, r0.capt, 0) == r0.capt;
        ScanOldHolds(d, 0, r0, r);
      }
    case CapOld(d, i) =>
      assert Saved(d.(c0 := d.c0[i := ev.val]), r0.capt, i) == Saved(d, r0.capt, i);
    case CapSave(d, i) =>
      assert Saved(d, r0.capt, i + 1) == Saved(d, r0.capt, i)[i := d.c0[i]];
      ScanOldHolds(d, i + 1, r0, Effect(r, ev));
  }

  lemma {:induction false} StepHoldsUpdate(pc: Pc, ev: Ev, r0: Soft, r: Soft)
    requires pc.Clear? || pc.Bump? || pc.Zero?
    requires Sound(pc) && Holds(pc, r0, r) && Next(pc, ev).Some? && !ev.Fault?
    ensures Holds(Next(pc, ev).value, r0, Effect(r, ev))
  {
    NextIsAfter(pc, ev);
    if pc.Bump? {
      BumpHolds(pc.mask, pc.i, pc.k, r0, r);
    } else if pc.Clear? {
      assert ev.Wr?;
      ClearHolds(pc.mask, pc.k, r0, r);
    } else {
      assert ev.Wr?;
      ScanHolds(pc.mask, pc.i + 1, pc.k, r0, r);
    }
  }

  lemma {:induction false} ClearHolds(mask: u32, k: Cont, r0: Soft, r: Soft)
    requires MaskOf(mask, k) && r == BeforeUpdate(k, r0)
    ensures Holds(Scan(mask, 0, k), r0, r)
  {
    assert Bumped(r.vcntr, mask, 0) == r.vcntr;
    ScanHolds(mask, 0, k, r0, r);
  }

  lemma {:induction false} BumpHolds(mask: u32, i: Index, k: Cont, r0: Soft, r: Soft)
    requires Bit(mask, i) && AtBit(mask, i, k, r0, r)
    ensures AtBit(mask, i + 1, k, r0, Effect(r, Inc(i)))
  {
    var v := BeforeUpdate(k, r0).vcntr;
    assert Bumped(v, mask, i + 1) == Bumped(v, mask, i)[i := VInc(v[i])];
  }

  lemma {:induction false} StepHoldsSecondPass(pc: Pc, ev: Ev, r0: Soft, r: Soft)
    requires pc.CapLate? || pc.CapNew? || pc.CapMerge?
    requires Sound(pc) && Holds(pc, r0, r) && Next(pc, ev).Some? && !ev.Fault?
    ensures Holds(Next(pc, ev).value, r0, Effect(r, ev))
  {
    match pc
    case CapLate(d) =>
      LateHolds(d, ev.val, r0, r);
    case CapNew(d, i) =>
      MergedIgnores(d, i, ev.val, r0);
    case CapMerge(d, i) =>
      MergedNext(d, i, r0);
      ScanNewHolds(d, i + 1, r0, Effect(r, ev));
  }

  lemma {:induction false} LateHolds(d: Cap, v: u32, r0: Soft, r: Soft)
    requires Holds(CapLate(d), r0, r)
    ensures Holds(After(CapLate(d), v), r0, r)
  {
    var d' := d.(t := v);
    assert Saved(d', r0.capt, 32) == Saved(d, r0.capt, 32);
    if v == 0 {
      ZeroMaskBumps(Bumped(r0.vcntr, d.s, 32));
      EnterScanNew(d', r0, r);
    }
  }

  /** The second pass has not used the capture word of counter `i` before it reaches it. */
  lemma {:induction false} MergedIgnores(d: Cap, i: Index, val: u32, r: Soft)
    ensures Merged(d.(c1 := d.c1[i := val]), r, i) == Merged(d, r, i)
  {
    assert Merged(d.(c1 := d.c1[i := val]), r, i).vcntr == Merged(d, r, i).vcntr;
    assert Merged(d.(c1 := d.c1[i := val]), r, i).capt == Merged(d, r, i).capt;
  }

  lemma {:induction false} MergedNext(d: Cap, i: Index, r: Soft)
    requires Bit(d.g, i)
    ensures Merged(d, r, i + 1) == Effect(Merged(d, r, i), Merge(i, d.c1[i]))
  {
    var now, next := Merged(d, r, i), Merged(d, r, i + 1);
    assert now.capt[i] == d.c0[i] && now.vcntr[i] == BothBumped(d, r.vcntr)[i];
    assert next.vcntr == now.vcntr[i := next.vcntr[i]];
    assert next.capt == now.capt[i := next.capt[i]];
  }

  /**
   Every complete operation over a map that covers the EPU, for every sequence of words the hardware returns: the final registers are
   the closed form of what was read.
   */
  lemma {:induction false} OperationMeaning(size: nat, pc: Pc, tr: seq<Ev>, end: Pc, r0: Soft, r: Soft)
    requires Sound(pc) && Holds(pc, r0, r) && Path(pc, tr, end) && AllOwn(tr)
    requires size >= EPU_SPAN && AllLegal(size, tr)
    ensures Holds(end, r0, Replay(r, tr))
    decreases tr
  {
    if tr != [] {
      var ev := tr[0];
      if ev.Fault? { FarFault(pc, ev); }
      StepHolds(pc, ev, r0, r);
      SoundStep(pc, ev);
      OperationMeaning(size, Next(pc, ev).value, tr[1..], end, r0, Effect(r, ev));
    }
  }

  /** Only the group-mask read can be far out of the map. */
  lemma {:induction false} FarFault(pc: Pc, ev: Ev)
    requires ev.Fault? && ev.off >= EPU_SPAN && Next(pc, ev).Some?
    ensures pc.CapGrp? && ev.off == 0x540 + 4 * Group(pc.sel)
  {
  }
}
