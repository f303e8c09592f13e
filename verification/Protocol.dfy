/**
 The accesses one thread of control makes while it runs the overflow interrupt handler, the group
 capture or the read of an event-control mirror register, as a deterministic automaton, together
 with the effect of each action on the software registers (`struct vcounters`).

 The automaton knows nothing about the hardware or about other threads.  `Interleaving` composes
 any number of such threads with the hardware; `Driver` proves that the imperative code follows it.
 */
module Protocol {
  import opened Bits
  import opened Options

  // ----- EPU register map (byte offsets)

  const EPCTRISR: nat := 0x030
  const EPECR: nat := 0x300
  const EPGACR: nat := 0x480
  const EPCTRGCR: nat := 0x540
  const EPCCR: nat := 0x800
  const EPCTR: nat := 0xA00
  const EPCAPR: nat := 0xB00

  /** First offset past the last EPU register that any operation here names directly. */
  const EPU_SPAN: nat := 0xB7D

  const STS: u32 := 0x0100_0000

  type Index = i: nat | i < 32
  type Count = i: nat | i <= 32
  /** `vcntrepecr` has 16 words; index 16 stands for the four padding bytes behind them. */
  type Event = e: nat | e < 17
  type Row = s: seq<u32> | |s| == 32 witness seq(32, i => 0)
  type Counters = s: seq<u64> | |s| == 32 witness seq(32, i => 0)
  type Mirrors = s: seq<u32> | |s| == 17 witness seq(17, i => 0)

  function ZeroRow(): Row {
    seq(32, i => 0)
  }

  /** The group number as the code computes it: `(epgacr & 0x70) << 20`. */
  function Group(epgacr: u32): nat {
    epgacr / 0x10 % 8 * 0x10 * 0x10_0000
  }

  // ----- software registers

  /** The counter overflow words, the captured values and the event-control mirrors. */
  datatype Soft = Soft(vcntr: Counters, capt: Counters, mirror: Mirrors)

  /** One overflow increment; bit 63 set after the increment restarts the counter at zero. */
  function VInc(v: u64): u64 {
    if Rolls(v) then 0 else (v + 1) % TWO_64
  }

  /** `v_counter_inc` returns 1. */
  predicate Rolls(v: u64) {
    (v + 1) % TWO_64 >= TWO_63
  }

  /** The plain `++` of the capture path. */
  function PlainInc(v: u64): u64 {
    (v + 1) % TWO_64
  }

  /** The overflow word of counter `k` after the capture path has compared old and new capture words. */
  function Adjusted(v: u64, before: u64, after: u32): u64 {
    if after < before then PlainInc(v) else v
  }

  /** `(v << 32) | low` in 64 bits. */
  function Compose(v: u64, low: u32): u64 {
    v % TWO_32 * TWO_32 + low
  }

  // ----- actions

  datatype Op = OpIrq | OpCapture(e: Event) | OpMirror(e: Event)

  datatype Ev =
    | Begin(op: Op)
    | Lock
    | Unlock
    | Rd(off: nat, val: u32)       // a read inside the EPU map
    | Wr(off: nat, val: u32)       // a write inside the EPU map
    | Fault(off: nat)              // an access refused by the bound of the EPU map
    | Inc(k: Index)                // v_counter_inc(k)
    | Save(k: Index, low: u32)     // vcntrcapt[k] = low
    | Merge(k: Index, low: u32)    // compare, adjust vcntr[k], compose vcntrcapt[k]
    | Mirror(e: Event, val: u32)   // vcntrepecr[e] = val

  function Effect(r: Soft, ev: Ev): Soft {
    match ev
    case Inc(k) => r.(vcntr := r.vcntr[k := VInc(r.vcntr[k])])
    case Save(k, low) => r.(capt := r.capt[k := low])
    case Merge(k, low) =>
      var v := Adjusted(r.vcntr[k], r.capt[k], low);
      r.(vcntr := r.vcntr[k := v], capt := r.capt[k := Compose(v, low)])
    case Mirror(e, val) => r.(mirror := r.mirror[e := val])
    case _ => r
  }

  function Replay(r: Soft, tr: seq<Ev>): Soft
    decreases tr
  {
    if tr == [] then r else Replay(Effect(r, tr[0]), tr[1..])
  }

  /** The bound check of the map: an access happens iff its offset is below `size`. */
  predicate Legal(size: nat, ev: Ev) {
    match ev
    case Rd(off, _) => off < size
    case Wr(off, _) => off < size
    case Fault(off) => off >= size
    case _ => true
  }

  predicate AllLegal(size: nat, tr: seq<Ev>) {
    forall i :: 0 <= i < |tr| ==> Legal(size, tr[i])
  }

  // ----- control points

  /** What a capture has read so far. */
  datatype Cap = Cap(
    e: Event,      // event index
    sel: u32,      // EPGACR word
    g: u32,        // group mask, EPCTRGCR word
    n: Count,      // loop index left by the first scan
    ctl: u32,      // EPECR word
    s: u32,        // word read as "last cycle" overflow status
    t: u32,        // EPCTRISR after the capture
    c0: Row,       // capture words before
    c1: Row)       // capture words after

  /** Where `update_vcounters` returns to. */
  datatype Cont = KIrq | KFire(d: Cap) | KNew(d: Cap)

  datatype Outcome =
    | Fresh
    | NoIrq
    | IrqDone(mask: u32)
    | IrqFailed
    | Captured(d: Cap)
    | CaptureFailed
    | Mirrored(e: Event, val: u32)

  datatype Pc =
    | Rest(out: Outcome)
    | IrqRead
    | IrqLock(mask: u32)
    | CapLock(e: Event)
    | CapSel(e: Event)
    | CapGrp(e: Event, sel: u32)
    | CapOld(d: Cap, i: Index)
    | CapSave(d: Cap, i: Index)
    | CapCtl(d: Cap)
    | CapLast(d: Cap)
    | Clear(mask: u32, k: Cont)
    | Bump(mask: u32, i: Index, k: Cont)
    | Zero(mask: u32, i: Index, k: Cont)
    | CapFire(d: Cap)
    | CapLate(d: Cap)
    | CapNew(d: Cap, i: Index)
    | CapMerge(d: Cap, i: Index)
    | MirLock(e: Event)
    | MirRead(e: Event)
    | MirStore(e: Event, val: u32)
    | Exit(out: Outcome)
    | Leaked

  /** Control points at which the thread holds `vc_lock`. */
  predicate Critical(pc: Pc) {
    !(pc.Rest? || pc.IrqRead? || pc.IrqLock? || pc.CapLock? || pc.MirLock?)
  }

  function Start(op: Op): Pc {
    match op
    case OpIrq => IrqRead
    case OpCapture(e) => CapLock(e)
    case OpMirror(e) => MirLock(e)
  }

  /** Where a shift loop over `w` that stands at bit `i` stops next: at a set bit, or behind the last one. */
  function NextBit(w: u32, i: Count): (j: Count)
    ensures i <= j && (Bit(w, j) ==> j < 32)
    decreases Shr(w, i)
  {
    NonZeroIsLow(w, i);
    if Shr(w, i) == 0 || Bit(w, i) then
      NextBitLow(w, i);
      i
    else NextBit(w, i + 1)
  }

  lemma NextBitLow(w: u32, i: Count)
    ensures Bit(w, i) ==> i < 32
  {
    if Bit(w, i) { SetBitIsLow(w, i); }
  }

  /** Nothing is skipped, and a loop that stops without a set bit is through with the word. */
  lemma {:induction false} NextBitIs(w: u32, i: Count)
    ensures forall m: nat | i <= m < NextBit(w, i) :: !Bit(w, m)
    ensures !Bit(w, NextBit(w, i)) ==> Shr(w, NextBit(w, i)) == 0 && forall m: nat | i <= m :: !Bit(w, m)
    ensures w == 0 || !Bit(w, NextBit(w, i)) ==> NextBit(w, i) == i
    decreases Shr(w, i)
  {
    NonZeroIsLow(w, i);
    NonZero(w, i);
    if Shr(w, i) == 0 {
      forall m: nat | i <= m ensures !Bit(w, m) { NoBitsAbove(w, i, m); }
    } else if !Bit(w, i) {
      NextBitIs(w, i + 1);
    }
  }

  /** The overflow bits owed by `update_vcounters` once it has cleared the status register. */
  function Scan(mask: u32, i: Count, k: Cont): Pc {
    var j := NextBit(mask, i);
    if Bit(mask, j) then Bump(mask, j, k) else Resume(mask, k)
  }

  /** First pass over the group: the capture words before the capture. */
  function ScanOld(d: Cap, i: Count): Pc {
    var j := NextBit(d.g, i);
    if Bit(d.g, j) then CapOld(d, j) else CapCtl(d.(n := j))
  }

  /** Second pass over the group: the capture words after the capture. */
  function ScanNew(d: Cap, i: Count): Pc {
    var j := NextBit(d.g, i);
    if Bit(d.g, j) then CapNew(d, j) else Exit(Captured(d))
  }

  function Resume(mask: u32, k: Cont): Pc {
    match k
    case KIrq => Exit(IrqDone(mask))
    case KFire(d) => CapFire(d)
    case KNew(d) => ScanNew(d, 0)
  }

  /** Where a failed `update_vcounters` leaves its caller; the first capture call ignores the result. */
  function Abort(k: Cont): Pc {
    match k
    case KIrq => Exit(IrqFailed)
    case KFire(d) => CapFire(d)
    case KNew(d) => Exit(CaptureFailed)
  }

  /** The action a control point is waiting to make. */
  datatype Want =
    | WNone
    | WLock
    | WUnlock
    | WRead(off: nat)
    | WWrite(off: nat, val: u32)
    | WSoft(ev: Ev)

  function Wanted(pc: Pc): Want {
    match pc
    case Rest(_) => WNone
    case IrqRead => WRead(EPCTRISR)
    case IrqLock(_) => WLock
    case CapLock(_) => WLock
    case CapSel(e) => WRead(EPGACR + 4 * e)
    case CapGrp(_, sel) => WRead(EPCTRGCR + 4 * Group(sel))
    case CapOld(_, i) => WRead(EPCAPR + 4 * i)
    case CapSave(d, i) => WSoft(Save(i, d.c0[i]))
    case CapCtl(d) => WRead(EPECR + 4 * d.e)
    case CapLast(d) => WRead(EPCTRISR + 4 * d.n)
    case Clear(mask, _) => WWrite(EPCTRISR, mask)
    case Bump(_, i, _) => WSoft(Inc(i))
    case Zero(_, i, _) => WWrite(EPCTR + 4 * i, 0)
    case CapFire(d) => WWrite(EPECR + 4 * d.e, OrWord(d.ctl, STS))
    case CapLate(_) => WRead(EPCTRISR)
    case CapNew(_, i) => WRead(EPCAPR + 4 * i)
    case CapMerge(d, i) => WSoft(Merge(i, d.c1[i]))
    case MirLock(_) => WLock
    case MirRead(e) => WRead(EPECR + 4 * e)
    case MirStore(e, val) => WSoft(Mirror(e, val))
    case Exit(_) => WUnlock
    case Leaked => WNone
  }

  /** The control point after the wanted action; `v` is the word a read returned. */
  function After(pc: Pc, v: u32): Pc {
    match pc
    case Rest(_) => pc
    case IrqRead => if v == 0 then Rest(NoIrq) else IrqLock(v)
    case IrqLock(mask) => Clear(mask, KIrq)
    case CapLock(e) => CapSel(e)
    case CapSel(e) => CapGrp(e, v)
    case CapGrp(e, sel) => ScanOld(Cap(e, sel, v, 0, 0, 0, 0, ZeroRow(), ZeroRow()), 0)
    case CapOld(d, i) => CapSave(d.(c0 := d.c0[i := v]), i)
    case CapSave(d, i) => ScanOld(d, i + 1)
    case CapCtl(d) => CapLast(d.(ctl := v))
    case CapLast(d) => if v == 0 then CapFire(d.(s := v)) else Clear(v, KFire(d.(s := v)))
    case Clear(mask, k) => Scan(mask, 0, k)
    case Bump(mask, i, k) => Zero(mask, i, k)
    case Zero(mask, i, k) => Scan(mask, i + 1, k)
    case CapFire(d) => CapLate(d)
    case CapLate(d) => if v == 0 then ScanNew(d.(t := v), 0) else Clear(v, KNew(d.(t := v)))
    case CapNew(d, i) => CapMerge(d.(c1 := d.c1[i := v]), i)
    case CapMerge(d, i) => ScanNew(d, i + 1)
    case MirLock(e) => MirRead(e)
    case MirRead(e) => MirStore(e, v)
    case MirStore(e, val) => Exit(Mirrored(e, val))
    case Exit(out) => Rest(out)
    case Leaked => pc
  }

  /** The control point after a refused access. */
  function OnFault(pc: Pc): Pc {
    match pc
    case IrqRead => Rest(IrqFailed)
    case Clear(_, k) => Abort(k)
    case Zero(_, _, k) => Abort(k)
    case MirRead(_) => Leaked
    case _ => Exit(CaptureFailed)
  }

  /** The automaton: at rest a thread starts an operation, elsewhere it makes the wanted action. */
  function Next(pc: Pc, ev: Ev): Option<Pc> {
    match ev
    case Begin(op) => if pc.Rest? then Some(Start(op)) else None
    case Lock => if Wanted(pc) == WLock then Some(After(pc, 0)) else None
    case Unlock => if Wanted(pc) == WUnlock then Some(After(pc, 0)) else None
    case Rd(off, val) => if Wanted(pc) == WRead(off) then Some(After(pc, val)) else None
    case Wr(off, val) => if Wanted(pc) == WWrite(off, val) then Some(After(pc, 0)) else None
    case Fault(off) =>
      if Wanted(pc) == WRead(off) || (Wanted(pc).WWrite? && Wanted(pc).off == off) then Some(OnFault(pc)) else None
    case _ => if Wanted(pc) == WSoft(ev) then Some(After(pc, 0)) else None
  }

  /** The automaton accepts `tr` from `pc` and ends in `end`. */
  predicate Path(pc: Pc, tr: seq<Ev>, end: Pc)
    decreases tr
  {
    if tr == [] then pc == end
    else Next(pc, tr[0]).Some? && Path(Next(pc, tr[0]).value, tr[1..], end)
  }

  /** The answer a thread takes from its own event. */
  function ValueOf(ev: Ev): u32 {
    if ev.Rd? then ev.val else 0
  }

  /** Outside rest there are two ways to move: the wanted action, or its refusal. At rest nothing else starts. */
  lemma {:induction false} NextIsAfter(pc: Pc, ev: Ev)
    requires !pc.Rest? && Next(pc, ev).Some?
    ensures Next(pc, ev).value == if ev.Fault? then OnFault(pc) else After(pc, ValueOf(ev))
    ensures ev.Fault? ==> Wanted(pc).WRead? || Wanted(pc).WWrite?
    ensures ev.Unlock? <==> pc.Exit?
    ensures !ev.Begin?
  {
  }

  /** Locking enters and unlocking leaves the critical control points; nothing else does. */
  lemma {:induction false} CriticalStep(pc: Pc, ev: Ev)
    requires Next(pc, ev).Some?
    ensures ev.Lock? ==> !Critical(pc) && Critical(Next(pc, ev).value)
    ensures ev.Unlock? ==> Critical(pc) && !Critical(Next(pc, ev).value)
    ensures !ev.Lock? && !ev.Unlock? ==> (Critical(pc) <==> Critical(Next(pc, ev).value))
  {
  }

  // ----- control points that are reached

  predicate MaskOf(mask: u32, k: Cont) {
    match k
    case KIrq => true
    case KFire(d) => mask == d.s && Scanned(d)
    case KNew(d) => mask == d.t && Scanned(d)
  }

  /** The first pass stops right behind the highest group member: its index is 0 only for an empty group. */
  predicate Scanned(d: Cap) {
    Shr(d.g, d.n) == 0 && (d.n > 0 ==> Bit(d.g, d.n - 1))
  }

  predicate Sound(pc: Pc) {
    match pc
    case CapOld(d, i) => Bit(d.g, i)
    case CapSave(d, i) => Bit(d.g, i)
    case CapCtl(d) => Scanned(d)
    case CapLast(d) => Scanned(d)
    case Clear(mask, k) => MaskOf(mask, k)
    case Bump(mask, i, k) => MaskOf(mask, k) && Bit(mask, i)
    case Zero(mask, i, k) => MaskOf(mask, k) && Bit(mask, i)
    case CapFire(d) => Scanned(d)
    case CapLate(d) => Scanned(d)
    case CapNew(d, i) => Scanned(d) && Bit(d.g, i)
    case CapMerge(d, i) => Scanned(d) && Bit(d.g, i)
    case Exit(out) => out.Captured? ==> Scanned(out.d)
    case _ => true
  }

  lemma {:induction false} SoundAfter(pc: Pc, v: u32)
    requires Sound(pc)
    ensures Sound(After(pc, v))
  {
    match pc
    case CapGrp(_, _) => NextBitIs(v, 0);
    case CapSave(d, i) =>
      NonZero(d.g, i);
      NextBitIs(d.g, i + 1);
    case _ =>
  }

  lemma {:induction false} SoundStep(pc: Pc, ev: Ev)
    requires Sound(pc) && Next(pc, ev).Some?
    ensures Sound(Next(pc, ev).value)
  {
    if !pc.Rest? {
      NextIsAfter(pc, ev);
      SoundAfter(pc, ValueOf(ev));
    }
  }

  // ----- histories

  lemma {:induction false} PathAppend(pc: Pc, tr: seq<Ev>, mid: Pc, ev: Ev)
    requires Path(pc, tr, mid) && Next(mid, ev).Some?
    ensures Path(pc, tr + [ev], Next(mid, ev).value)
    decreases tr
  {
    if tr == [] {
      assert tr + [ev] == [ev];
    } else {
      PathAppend(Next(pc, tr[0]).value, tr[1..], mid, ev);
      assert (tr + [ev])[1..] == tr[1..] + [ev];
    }
  }

  lemma {:induction false} ReplayAppend(r: Soft, tr: seq<Ev>, ev: Ev)
    ensures Replay(r, tr + [ev]) == Effect(Replay(r, tr), ev)
    decreases tr
  {
    if tr == [] {
      assert tr + [ev] == [ev];
    } else {
      ReplayAppend(Effect(r, tr[0]), tr[1..], ev);
      assert (tr + [ev])[1..] == tr[1..] + [ev];
    }
  }

  lemma {:induction false} ReplayConcat(r: Soft, a: seq<Ev>, b: seq<Ev>)
    ensures Replay(r, a + b) == Replay(Replay(r, a), b)
    decreases a
  {
    if a == [] {
      assert a + b == b;
    } else {
      assert (a + b)[1..] == a[1..] + b;
      ReplayConcat(Effect(r, a[0]), a[1..], b);
    }
  }
}
