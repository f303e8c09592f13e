/**
 Any number of threads of the automaton in `Protocol`, sharing `vc_lock`, the software registers and
 the EPU, in any interleaving with the counting hardware.

 Assumptions on the hardware: counters are 32 bits wide and wrap to zero, a wrap raises the status bit
 of the counter, a write to the status register clears the bits written as ones, and firing an event
 replaces the capture words of counters of the captured group only.  Assumption on users: nobody
 stores to EPU or virtual counter registers outside these operations.
 */
module Interleaving {
  import opened Bits
  import opened Options
  import opened Protocol
  import opened Sequential
  import opened Epu

  // ----- states

  /** The history of one counter. */
  datatype Account = Account(
    v0: u64,            // overflow word at the start
    base: u32,          // hardware counter at the start
    events: nat,        // events counted by the hardware
    raises: nat,        // times the status bit went from 0 to 1
    incs: nat,          // v_counter_inc calls
    stale: nat,         // clearing writes that named the counter although its bit was already clear
    dropped: nat,       // cleared overflows lost because update_vcounters gave up
    wiped: nat,         // overflows lost because binding the interrupt cleared every status bit
    adj: nat,           // increments by the capture comparison
    discarded: nat,     // events lost: counter words overwritten with zero, wraps found already pending
    last: Option<u64>)  // last captured 64-bit value

  type Ledger = s: seq<Account> | |s| == 32 witness seq(32, i => Account(0, 0, 0, 0, 0, 0, 0, 0, 0, 0, None))

  datatype State = State(
    size: nat,               // bytes of the EPU map
    hw: Hw,
    soft: Soft,
    snap: Soft,              // software registers when the lock was last taken
    lock: Option<nat>,
    pcs: seq<Pc>,
    hits: seq<set<nat>>,     // bits cleared, and not raised again, since the thread read the status
    book: Ledger)

  /** Increments of the overflow word of a counter since the start. */
  function Total(a: Account): nat {
    a.v0 + a.incs + a.adj
  }

  ghost predicate Init(s: State) {
    && s.hw.isr == 0
    && s.lock == None
    && |s.hits| == |s.pcs|
    && (forall t :: 0 <= t < |s.pcs| ==> s.pcs[t] == Rest(Fresh))
    && (forall k :: 0 <= k < 32 ==>
          s.book[k] == Account(s.soft.vcntr[k], s.hw.ctr[k], 0, 0, 0, 0, 0, 0, 0, 0, None))
  }

  // ----- transitions

  datatype Action =
    | Count(k: Index)                        // the hardware counts one event
    | Wipe                                   // binding the interrupt clears all status bits, without the lock
    | Act(t: nat, ev: Ev, latch: Row)        // thread `t` acts; `latch` are the words a capture latches

  /** The words the hardware returns. */
  predicate Answered(hw: Hw, ev: Ev) {
    ev.Rd? ==> Returns(hw, ev.off, ev.val)
  }

  predicate Enabled(s: State, a: Action) {
    match a
    case Count(_) => true
    case Wipe => 0x30 < s.size
    case Act(t, ev, latch) =>
      && t < |s.pcs| == |s.hits|
      && Next(s.pcs[t], ev).Some?
      && Legal(s.size, ev)
      && (ev.Lock? ==> s.lock == None)
      && Answered(s.hw, ev)
      && (s.pcs[t].CapFire? ==>
            forall k :: 0 <= k < 32 ==> (!Bit(s.pcs[t].d.g, k) ==> latch[k] == s.hw.capr[k]))
  }

  function Pend(hw: Hw, k: nat): nat {
    if Bit(hw.isr, k) then 1 else 0
  }

  /** One hardware event on counter `k`. */
  function DoCount(s: State, k: Index): State {
    var a := s.book[k];
    if s.hw.ctr[k] < 0xFFFF_FFFF then
      s.(hw := s.hw.(ctr := s.hw.ctr[k := s.hw.ctr[k] + 1]), book := s.book[k := a.(events := a.events + 1)])
    else if Bit(s.hw.isr, k) then
      s.(hw := s.hw.(ctr := s.hw.ctr[k := 0]),
         book := s.book[k := a.(events := a.events + 1, discarded := a.discarded + TWO_32)])
    else
      s.(hw := s.hw.(ctr := s.hw.ctr[k := 0], isr := OrWord(s.hw.isr, BitMask(k))),
         hits := seq(|s.hits|, t requires 0 <= t < |s.hits| => s.hits[t] - {k}),
         book := s.book[k := a.(events := a.events + 1, raises := a.raises + 1)])
  }

  /** The write of all ones to the status register by `ls_dbg_epu_bind_irq`. */
  function DoWipe(s: State): (s': State)
    ensures s'.hw == s.hw.(isr := 0)
  {
    AllCleared(s.hw.isr);
    s.(hw := Write(s.hw, 0x30, 0xFFFF_FFFF, s.hw.capr),
       hits := seq(|s.hits|, t requires 0 <= t < |s.hits| => s.hits[t] + SetOf(s.hw.isr)),
       book := seq(32, k requires 0 <= k < 32 => s.book[k].(wiped := s.book[k].wiped + Pend(s.hw, k))))
  }

  /** What the only accesses that change the hardware amount to; firing event 16, the padding, captures nothing. */
  predicate WritesMeant(pc: Pc, off: nat, val: u32) {
    match pc
    case Clear(mask, _) => Decode(off) == Status && val == mask
    case Zero(_, i, _) => Decode(off) == Counter(i) && val == 0
    case CapFire(d) => if d.e < 16 then Captures(off, val) else Decode(off) == Elsewhere
    case _ => false
  }

  lemma {:induction false} WrittenByDriver(pc: Pc, off: nat, val: u32)
    requires Next(pc, Wr(off, val)).Some?
    ensures WritesMeant(pc, off, val)
  {
    match pc
    case Zero(_, i, _) => AddressesMeant(i, 0);
    case CapFire(d) =>
      AddressesMeant(0, d.e);
      FiringBit(d.ctl, 24);
    case _ =>
  }

  /** The words in the capture registers after thread `t` fires. */
  function AfterFire(hw: Hw, d: Cap, latch: Row): Row {
    if d.e < 16 then latch else hw.capr
  }

  /** The hardware sees the access alone; `pc` only says what that comes to at each control point. */
  function HwAfter(hw: Hw, pc: Pc, ev: Ev, latch: Row): (r: Hw)
    requires Next(pc, ev).Some?
    ensures !ev.Wr? ==> r == hw
    ensures ev.Wr? ==>
              r == match pc
                   case Clear(mask, _) => hw.(isr := AndNot(hw.isr, mask))
                   case Zero(_, i, _) => hw.(ctr := hw.ctr[i := 0])
                   case CapFire(d) => hw.(capr := AfterFire(hw, d, latch))
                   case _ => hw
  {
    if !ev.Wr? then hw
    else
      WrittenByDriver(pc, ev.off, ev.val);
      Write(hw, ev.off, ev.val, latch)
  }

  /** A read of the status register starts a new record of hits; a write to it is a hit for everybody. */
  function HitsAfter(hits: seq<set<nat>>, t: nat, pc: Pc, ev: Ev): (r: seq<set<nat>>)
    requires t < |hits| && Next(pc, ev).Some?
    ensures |r| == |hits|
    ensures ev.Rd? && (pc.IrqRead? || pc.CapLate? || (pc.CapLast? && pc.d.n == 0)) ==> r == hits[t := {}]
    ensures ev.Wr? && pc.Clear? ==> r == seq(|hits|, u requires 0 <= u < |hits| => hits[u] + SetOf(pc.mask))
    ensures !ev.Rd? && !(ev.Wr? && pc.Clear?) ==> r == hits
    ensures forall u :: 0 <= u < |hits| && u != t && !ev.Wr? ==> r[u] == hits[u]
    ensures ev.Rd? ==> r == hits || r == hits[t := {}]
  {
    match ev
    case Rd(off, _) => if Decode(off).Status? then hits[t := {}] else hits
    case Wr(off, val) =>
      WrittenByDriver(pc, off, val);
      if Decode(off).Status? then seq(|hits|, u requires 0 <= u < |hits| => hits[u] + SetOf(val)) else hits
    case _ => hits
  }

  function AccountAfter(s: State, pc: Pc, ev: Ev, k: Index): (r: Account)
    requires Next(pc, ev).Some?
    ensures var a := s.book[k];
            ev.Wr? ==>
              r == if pc.Clear? && Bit(pc.mask, k) && !Bit(s.hw.isr, k) then a.(stale := a.stale + 1)
                   else if pc.Zero? && pc.i == k then a.(discarded := a.discarded + s.hw.ctr[k])
                   else a
  {
    var a := s.book[k];
    match ev
    case Wr(off, val) =>
      WrittenByDriver(pc, off, val);
      (match Decode(off)
       case Status => if Bit(val, k) && !Bit(s.hw.isr, k) then a.(stale := a.stale + 1) else a
       case Counter(j) => if j == k then a.(discarded := a.discarded + s.hw.ctr[k]) else a
       case _ => a)
    case Inc(i) => if i == k then a.(incs := a.incs + 1) else a
    case Merge(i, low) =>
      if i == k then
        a.(adj := a.adj + (if low < s.soft.capt[k] then 1 else 0), last := Some(Effect(s.soft, ev).capt[k]))
      else a
    case Fault(_) => if pc.Zero? && k > pc.i && Bit(pc.mask, k) then a.(dropped := a.dropped + 1) else a
    case _ => a
  }

  function DoAct(s: State, t: nat, ev: Ev, latch: Row): State
    requires Enabled(s, Act(t, ev, latch))
  {
    var pc := s.pcs[t];
    State(
      s.size,
      HwAfter(s.hw, pc, ev, latch),
      Effect(s.soft, ev),
      if ev.Lock? then s.soft else s.snap,
      if ev.Lock? then Some(t) else if ev.Unlock? then None else s.lock,
      s.pcs[t := Next(pc, ev).value],
      HitsAfter(s.hits, t, pc, ev),
      seq(32, k requires 0 <= k < 32 => AccountAfter(s, pc, ev, k)))
  }

  function Do(s: State, a: Action): State
    requires Enabled(s, a)
  {
    match a
    case Count(k) => DoCount(s, k)
    case Wipe => DoWipe(s)
    case Act(t, ev, latch) => DoAct(s, t, ev, latch)
  }

  /** A run of the system: `None` if some action was not enabled. */
  function Exec(s: State, run: seq<Action>): Option<State>
    decreases run
  {
    if run == [] then Some(s)
    else if Enabled(s, run[0]) then Exec(Do(s, run[0]), run[1..])
    else None
  }

  lemma {:induction false} ExecAppend(s0: State, run: seq<Action>, s: State, a: Action)
    requires Exec(s0, run) == Some(s) && Enabled(s, a)
    ensures Exec(s0, run + [a]) == Some(Do(s, a))
    decreases run
  {
    if run == [] {
      assert run + [a] == [a] && [a][1..] == [];
      assert Exec(Do(s, a), []) == Some(Do(s, a));
    } else {
      ExecAppend(Do(s0, run[0]), run[1..], s, a);
      assert (run + [a])[0] == run[0] && (run + [a])[1..] == run[1..] + [a];
    }
  }

  /** The last action of a run. */
  lemma {:induction false} ExecLast(s0: State, run: seq<Action>, s: State) returns (s': State)
    requires Exec(s0, run) == Some(s) && run != []
    ensures Exec(s0, run[..|run| - 1]) == Some(s')
    ensures Enabled(s', run[|run| - 1]) && Do(s', run[|run| - 1]) == s
    decreases run
  {
    if |run| == 1 {
      s' := s0;
      assert run[1..] == [] && run[..0] == [];
    } else {
      s' := ExecLast(Do(s0, run[0]), run[1..], s);
      assert run[..|run| - 1][0] == run[0] && run[..|run| - 1][1..] == run[1..][..|run| - 2];
    }
  }

  // ----- invariant

  /** The control point of the lock holder. */
  function Holder(s: State): Pc {
    if s.lock.Some? && s.lock.value < |s.pcs| then s.pcs[s.lock.value] else Rest(Fresh)
  }

  predicate OwedAt(pc: Pc, k: nat) {
    match pc
    case Bump(mask, i, _) => k >= i && Bit(mask, k)
    case Zero(mask, i, _) => k > i && Bit(mask, k)
    case _ => false
  }

  /** Cleared status bits whose increment is still to come. */
  function Owed(pc: Pc, k: nat): nat {
    if OwedAt(pc, k) then 1 else 0
  }

  predicate Exclusion(s: State) {
    && |s.hits| == |s.pcs|
    && (s.lock.Some? ==> s.lock.value < |s.pcs|)
    && (forall t :: 0 <= t < |s.pcs| ==> Sound(s.pcs[t]) && (Critical(s.pcs[t]) <==> s.lock == Some(t)))
  }

  /** The books of counter `k`: overflows, events and the overflow word. */
  predicate Balanced(s: State, k: Index) {
    var a := s.book[k];
    && a.raises + a.stale == a.incs + Owed(Holder(s), k) + a.dropped + a.wiped + Pend(s.hw, k)
    && a.base + a.events == TWO_32 * a.raises + s.hw.ctr[k] + a.discarded
    && (Total(a) < TWO_63 ==> s.soft.vcntr[k] == Total(a))
    && (s.size >= EPU_SPAN ==> a.dropped == 0)
  }

  /** The status word a thread has read, against the status register now. */
  predicate MaskTracked(s: State, t: nat)
    requires t < |s.pcs| == |s.hits|
  {
    match s.pcs[t]
    case IrqLock(mask) => Tracks(s.hw.isr, mask, s.hits[t])
    case Clear(mask, KFire(d)) => d.n == 0 ==> Tracks(s.hw.isr, mask, s.hits[t])
    case Clear(mask, _) => Tracks(s.hw.isr, mask, s.hits[t])
    case _ => true
  }

  predicate Tracks(isr: u32, mask: u32, hits: set<nat>) {
    forall k: Index :: Bit(mask, k) ==> (Bit(isr, k) <==> k !in hits)
  }

  /** Counter `k` is between its old and its new capture word. */
  predicate Open(pc: Pc, k: nat) {
    match pc
    case CapOld(d, i) => Bit(d.g, k) && k < i
    case CapSave(d, i) => Bit(d.g, k) && k < i
    case CapCtl(d) => Bit(d.g, k)
    case CapLast(d) => Bit(d.g, k)
    case CapFire(d) => Bit(d.g, k)
    case CapLate(d) => Bit(d.g, k)
    case Clear(_, c) => OpenCont(c, k)
    case Bump(_, _, c) => OpenCont(c, k)
    case Zero(_, _, c) => OpenCont(c, k)
    case CapNew(d, i) => Bit(d.g, k) && k >= i
    case CapMerge(d, i) => Bit(d.g, k) && k >= i
    case _ => false
  }

  predicate OpenCont(c: Cont, k: nat) {
    !c.KIrq? && Bit(c.d.g, k)
  }

  predicate Fired(pc: Pc) {
    match pc
    case CapLate(_) => true
    case CapNew(_, _) => true
    case CapMerge(_, _) => true
    case Clear(_, c) => c.KNew?
    case Bump(_, _, c) => c.KNew?
    case Zero(_, _, c) => c.KNew?
    case _ => false
  }

  /** The capture word of counter `k`, the saved word of a capture in progress and the last captured value. */
  predicate Latched(s: State, k: Index) {
    LatchedAt(Holder(s), s.hw.capr[k], s.soft.capt[k], s.book[k], k)
  }

  predicate LatchedAt(pc: Pc, capr: u32, capt: u64, a: Account, k: Index) {
    && (pc.CapSave? && pc.i == k ==> pc.d.c0[k] == capr)
    && (pc.CapMerge? && pc.i == k ==> pc.d.c1[k] == capr)
    && (Open(pc, k) ==> capt < TWO_32)
    && (Open(pc, k) && !Fired(pc) ==> capt == capr)
    && (a.last.Some? ==>
          && a.last.value % TWO_32 == (if Open(pc, k) then capt else capr)
          && (Total(a) < TWO_32 ==> a.last.value / TWO_32 <= Total(a))
          && (!Open(pc, k) ==> a.last.value == capt))
  }

  ghost predicate Inv(s: State) {
    && Exclusion(s)
    && (forall k: Index :: Balanced(s, k))
    && (forall t :: 0 <= t < |s.pcs| ==> MaskTracked(s, t))
    && (s.size >= EPU_SPAN ==>
          && (forall k: Index :: Latched(s, k))
          && (s.lock.Some? ==> Holds(Holder(s), s.snap, s.soft)))
  }

  lemma {:induction false} InvInit(s: State)
    requires Init(s)
    ensures Inv(s)
  {
    forall k: Index ensures Balanced(s, k) {
      ShrZeroStays(0, 0, k);
    }
  }

  // ----- the lock

  lemma {:induction false} ExclusionStep(s: State, a: Action)
    requires Exclusion(s) && Enabled(s, a)
    ensures Exclusion(Do(s, a))
  {
    if a.Act? {
      CriticalStep(s.pcs[a.t], a.ev);
      SoundStep(s.pcs[a.t], a.ev);
    }
  }

  /** How the holder's control point moves. */
  lemma {:induction false} HolderStep(s: State, t: nat, ev: Ev, latch: Row)
    requires Exclusion(s) && Enabled(s, Act(t, ev, latch))
    ensures var s', pc := DoAct(s, t, ev, latch), s.pcs[t];
            var pc' := Next(pc, ev).value;
            && s'.pcs[t] == pc'
            && (Critical(pc) ==> Holder(s) == pc)
            && (Critical(pc') ==> Holder(s') == pc')
            && (!Critical(pc) && !Critical(pc') ==> Holder(s') == Holder(s))
            && (ev.Lock? ==> Holder(s) == Rest(Fresh))
            && (ev.Unlock? ==> Holder(s') == Rest(Fresh))
  {
    CriticalStep(s.pcs[t], ev);
  }

  /** A thread outside the critical section touches nothing but itself. */
  lemma {:induction false} OutsideStep(s: State, t: nat, ev: Ev, latch: Row)
    requires Exclusion(s) && Enabled(s, Act(t, ev, latch))
    requires !Critical(s.pcs[t]) || ev.Unlock?
    ensures var s' := DoAct(s, t, ev, latch);
            s'.hw == s.hw && s'.soft == s.soft && s'.book == s.book
  {
  }

  // ----- overflow and event accounting

  lemma {:induction false} OwedAfter(pc: Pc, v: u32, k: Index)
    requires Sound(pc) && Critical(pc) && !pc.Exit?
    ensures OwedAt(After(pc, v), k)
            <==> if pc.Clear? then Bit(pc.mask, k) else OwedAt(pc, k) && !(pc.Bump? && pc.i == k)
  {
    match pc
    case Clear(mask, _) => NextBitIs(mask, 0);
    case Zero(mask, i, _) => NextBitIs(mask, i + 1);
    case _ =>
  }

  /** Bits owed before and after one action of the lock holder. */
  lemma {:induction false} OwedStep(pc: Pc, ev: Ev, k: Index)
    requires Sound(pc) && Critical(pc) && Next(pc, ev).Some? && !ev.Unlock?
    ensures var pc' := Next(pc, ev).value;
            OwedAt(pc', k) <==>
              (if ev.Fault? then false
               else if pc.Clear? then Bit(pc.mask, k)
               else OwedAt(pc, k) && !(pc.Bump? && pc.i == k))
    ensures ev.Fault? && OwedAt(pc, k) ==> pc.Zero?
  {
    NextIsAfter(pc, ev);
    if !ev.Fault? {
      OwedAfter(pc, ValueOf(ev), k);
    }
  }

  lemma {:induction false} BalancedCount(s: State, k: Index, j: Index)
    requires Exclusion(s) && Balanced(s, j)
    ensures Balanced(DoCount(s, k), j)
  {
    if s.hw.ctr[k] == 0xFFFF_FFFF && !Bit(s.hw.isr, k) {
      OrBit(s.hw.isr, BitMask(k), j);
      Pow2Bit(k, j);
    }
  }

  lemma {:induction false} NothingPending(k: nat)
    ensures !Bit(0, k)
  {
    ShrZeroStays(0, 0, k);
  }

  lemma {:induction false} BalancedWipe(s: State, k: Index)
    requires Exclusion(s) && Balanced(s, k)
    ensures Exclusion(DoWipe(s)) && Balanced(DoWipe(s), k)
  {
    NothingPending(k);
    assert Holder(DoWipe(s)) == Holder(s);
  }

  lemma {:induction false} MaskWipe(s: State, u: nat)
    requires Exclusion(s) && u < |s.pcs| && MaskTracked(s, u)
    ensures MaskTracked(DoWipe(s), u)
  {
    assert DoWipe(s).hits[u] == s.hits[u] + SetOf(s.hw.isr);
    forall k: Index ensures !Bit(0, k) && (k in SetOf(s.hw.isr) <==> Bit(s.hw.isr, k)) { NothingPending(k); }
  }

  /** Actions of the lock holder that change no account, no counter and no overflow word. */
  predicate Quiet(pc: Pc) {
    !pc.Clear? && !pc.Bump? && !pc.Zero? && !pc.CapMerge?
  }

  lemma {:induction false} QuietStep(s: State, t: nat, ev: Ev, latch: Row)
    requires Enabled(s, Act(t, ev, latch)) && Quiet(s.pcs[t])
    ensures var s' := DoAct(s, t, ev, latch);
            s'.hw.isr == s.hw.isr && s'.hw.ctr == s.hw.ctr && s'.soft.vcntr == s.soft.vcntr
    ensures forall k: Index ::
              DoAct(s, t, ev, latch).book[k].(last := s.book[k].last) == s.book[k]
  {
  }

  lemma {:induction false} BalancedQuiet(s: State, t: nat, ev: Ev, latch: Row, k: Index)
    requires Exclusion(s) && Balanced(s, k) && Enabled(s, Act(t, ev, latch))
    requires Quiet(s.pcs[t]) && Critical(s.pcs[t]) && !ev.Unlock?
    ensures Balanced(DoAct(s, t, ev, latch), k)
  {
    HolderStep(s, t, ev, latch);
    OwedStep(s.pcs[t], ev, k);
    QuietStep(s, t, ev, latch);
  }

  lemma {:induction false} BalancedClear(s: State, t: nat, ev: Ev, latch: Row, k: Index)
    requires Exclusion(s) && Balanced(s, k) && Enabled(s, Act(t, ev, latch)) && s.pcs[t].Clear?
    ensures Balanced(DoAct(s, t, ev, latch), k)
  {
    HolderStep(s, t, ev, latch);
    OwedStep(s.pcs[t], ev, k);
    AndNotBit(s.hw.isr, s.pcs[t].mask, k);
  }

  lemma {:induction false} BalancedBump(s: State, t: nat, ev: Ev, latch: Row, k: Index)
    requires Exclusion(s) && Balanced(s, k) && Enabled(s, Act(t, ev, latch)) && s.pcs[t].Bump?
    ensures Balanced(DoAct(s, t, ev, latch), k)
  {
    HolderStep(s, t, ev, latch);
    OwedStep(s.pcs[t], ev, k);
  }

  lemma {:induction false} BalancedZero(s: State, t: nat, ev: Ev, latch: Row, k: Index)
    requires Exclusion(s) && Balanced(s, k) && Enabled(s, Act(t, ev, latch)) && s.pcs[t].Zero?
    ensures Balanced(DoAct(s, t, ev, latch), k)
  {
    HolderStep(s, t, ev, latch);
    OwedStep(s.pcs[t], ev, k);
  }

  lemma {:induction false} BalancedMerge(s: State, t: nat, ev: Ev, latch: Row, k: Index)
    requires Exclusion(s) && Balanced(s, k) && Enabled(s, Act(t, ev, latch)) && s.pcs[t].CapMerge?
    ensures Balanced(DoAct(s, t, ev, latch), k)
  {
    HolderStep(s, t, ev, latch);
    OwedStep(s.pcs[t], ev, k);
  }

  lemma {:induction false} BalancedStep(s: State, t: nat, ev: Ev, latch: Row, k: Index)
    requires Exclusion(s) && Balanced(s, k) && Enabled(s, Act(t, ev, latch))
    ensures Balanced(DoAct(s, t, ev, latch), k)
  {
    var pc := s.pcs[t];
    if !Critical(pc) || ev.Unlock? {
      HolderStep(s, t, ev, latch);
      OutsideStep(s, t, ev, latch);
      assert Owed(Holder(DoAct(s, t, ev, latch)), k) == Owed(Holder(s), k);
    } else {
      match pc
      case Clear(_, _) => BalancedClear(s, t, ev, latch, k);
      case Bump(_, _, _) => BalancedBump(s, t, ev, latch, k);
      case Zero(_, _, _) => BalancedZero(s, t, ev, latch, k);
      case CapMerge(_, _) => BalancedMerge(s, t, ev, latch, k);
      case _ => BalancedQuiet(s, t, ev, latch, k);
    }
  }

  // ----- status words in flight

  lemma {:induction false} MaskCount(s: State, k: Index, u: nat)
    requires Exclusion(s) && u < |s.pcs| && MaskTracked(s, u)
    ensures MaskTracked(DoCount(s, k), u)
  {
    var s' := DoCount(s, k);
    if s.hw.ctr[k] == 0xFFFF_FFFF && !Bit(s.hw.isr, k) {
      forall j: Index ensures Bit(s'.hw.isr, j) <==> Bit(s.hw.isr, j) || j == k {
        OrBit(s.hw.isr, BitMask(k), j);
        Pow2Bit(k, j);
      }
    }
  }

  /** A clearing write makes hits of the bits it names, for every thread that has a status word in flight. */
  lemma {:induction false} MaskClear(s: State, t: nat, ev: Ev, latch: Row, u: nat)
    requires Exclusion(s) && Enabled(s, Act(t, ev, latch)) && s.pcs[t].Clear? && ev.Wr?
    requires u < |s.pcs| && MaskTracked(s, u)
    ensures MaskTracked(DoAct(s, t, ev, latch), u)
  {
    var s', pc := DoAct(s, t, ev, latch), s.pcs[t];
    forall j: Index ensures Bit(s'.hw.isr, j) <==> Bit(s.hw.isr, j) && j !in SetOf(pc.mask) {
      AndNotBit(s.hw.isr, pc.mask, j);
    }
  }

  lemma {:induction false} MaskOwn(s: State, t: nat, ev: Ev, latch: Row)
    requires Exclusion(s) && Enabled(s, Act(t, ev, latch)) && !(s.pcs[t].Clear? && ev.Wr?)
    requires MaskTracked(s, t)
    ensures MaskTracked(DoAct(s, t, ev, latch), t)
  {
    var pc := s.pcs[t];
    if !pc.Rest? {
      NextIsAfter(pc, ev);
      if !ev.Fault? {
        WaitingFrom(pc, ValueOf(ev));
        match pc
        case IrqLock(_) => assert ev.Lock?;
        case IrqRead => assert ev.Rd?;
        case CapLast(_) => assert ev.Rd?;
        case CapLate(_) => assert ev.Rd?;
        case _ =>
      } else {
        assert !Waiting(OnFault(pc));
      }
    }
  }

  /** Only four control points lead to a thread with a status word in flight. */
  lemma {:induction false} WaitingFrom(pc: Pc, v: u32)
    ensures Waiting(After(pc, v)) ==> pc.IrqRead? || pc.IrqLock? || pc.CapLast? || (pc.CapLate? && v != 0)
  {
  }

  /** What a thread has read stays a description of the status register, up to the recorded hits. */
  lemma {:induction false} MaskStep(s: State, a: Action, u: nat)
    requires Exclusion(s) && Enabled(s, a) && u < |s.pcs| && MaskTracked(s, u)
    ensures u < |Do(s, a).pcs| == |Do(s, a).hits| && MaskTracked(Do(s, a), u)
  {
    match a
    case Count(k) => MaskCount(s, k, u);
    case Wipe => MaskWipe(s, u);
    case Act(t, ev, latch) =>
      if s.pcs[t].Clear? && ev.Wr? {
        MaskClear(s, t, ev, latch, u);
      } else if u == t {
        MaskOwn(s, t, ev, latch);
      }
  }

  predicate Waiting(pc: Pc) {
    pc.Clear? || pc.IrqLock?
  }

  // ----- the window of a capture

  lemma {:induction false} OpenOld(d: Cap, i: Count, k: Index)
    ensures var pc := ScanOld(d, i); !Fired(pc) && (Open(pc, k) <==> Bit(d.g, k) && k < i)
  {
    NextBitIs(d.g, i);
  }

  lemma {:induction false} OpenNew(d: Cap, i: Count, k: Index)
    ensures var pc := ScanNew(d, i); (Open(pc, k) <==> Bit(d.g, k) && k >= i) && (Open(pc, k) ==> Fired(pc))
  {
    NextBitIs(d.g, i);
  }

  lemma {:induction false} OpenScan(mask: u32, i: Count, c: Cont, k: Index)
    ensures var pc := Scan(mask, i, c);
            (Open(pc, k) <==> OpenCont(c, k)) && (Open(pc, k) ==> (Fired(pc) <==> c.KNew?))
  {
    if c.KNew? { OpenNew(c.d, 0, k); }
  }

  /** Control points that end in one of the two passes over a group. */
  predicate EntersPass(pc: Pc) {
    pc.CapGrp? || pc.CapSave? || pc.CapLate? || pc.CapMerge?
  }

  predicate WindowMoves(pc: Pc, pc': Pc, k: Index) {
    && (Open(pc', k) <==> (Open(pc, k) || (pc.CapSave? && pc.i == k)) && !(pc.CapMerge? && pc.i == k))
    && (Open(pc', k) ==> (Fired(pc') <==> Fired(pc) || pc.CapFire?))
  }

  lemma {:induction false} OpenPass(pc: Pc, v: u32, k: Index)
    requires Sound(pc) && EntersPass(pc)
    ensures WindowMoves(pc, After(pc, v), k)
  {
    match pc
    case CapGrp(e, sel) => OpenOld(Cap(e, sel, v, 0, 0, 0, 0, ZeroRow(), ZeroRow()), 0, k);
    case CapSave(d, i) => OpenOld(d, i + 1, k);
    case CapLate(d) => OpenNew(d.(t := v), 0, k);
    case CapMerge(d, i) => OpenNew(d, i + 1, k);
  }

  lemma {:induction false} OpenAfter(pc: Pc, v: u32, k: Index)
    requires Sound(pc) && Critical(pc) && !pc.Exit?
    ensures WindowMoves(pc, After(pc, v), k)
  {
    if EntersPass(pc) {
      OpenPass(pc, v, k);
    } else if pc.Clear? {
      OpenScan(pc.mask, 0, pc.k, k);
    } else if pc.Zero? {
      OpenScan(pc.mask, pc.i + 1, pc.k, k);
    }
  }

  /** A word is saved or merged right after it has been read. */
  lemma {:induction false} WordAfter(pc: Pc, v: u32)
    requires Sound(pc) && Critical(pc) && !pc.Exit?
    ensures var pc' := After(pc, v);
            && (pc'.CapSave? ==> pc.CapOld? && pc'.i == pc.i && pc'.d.c0[pc.i] == v)
            && (pc'.CapMerge? ==> pc.CapNew? && pc'.i == pc.i && pc'.d.c1[pc.i] == v)
  {
  }

  /** How one action of the lock holder moves the window of counter `k`. */
  lemma {:induction false} OpenStep(pc: Pc, ev: Ev, k: Index)
    requires Sound(pc) && Critical(pc) && Next(pc, ev).Some? && !ev.Unlock?
    requires ev.Fault? ==> pc.CapGrp? || pc.MirRead?
    ensures var pc' := Next(pc, ev).value;
            && (Open(pc', k) <==> (Open(pc, k) || (pc.CapSave? && pc.i == k)) && !(pc.CapMerge? && pc.i == k))
            && (Open(pc', k) ==> (Fired(pc') <==> Fired(pc) || pc.CapFire?))
            && (pc'.CapSave? ==> pc.CapOld? && pc'.i == pc.i && pc'.d.c0[pc.i] == ValueOf(ev))
            && (pc'.CapMerge? ==> pc.CapNew? && pc'.i == pc.i && pc'.d.c1[pc.i] == ValueOf(ev))
  {
    NextIsAfter(pc, ev);
    if !ev.Fault? {
      OpenAfter(pc, ValueOf(ev), k);
      WordAfter(pc, ValueOf(ev));
    }
  }

  /** A new captured value is not below the old one: a falling low word is paid for by the high word. */
  lemma {:induction false} ComposeGrows(last: u64, total: nat, saved: u64, low: u32)
    requires saved < TWO_32 && last % TWO_32 == saved && last / TWO_32 <= total
    requires total + (if low < saved then 1 else 0) < TWO_32
    ensures Compose(Adjusted(total, saved, low), low) >= last
    ensures Compose(Adjusted(total, saved, low), low) / TWO_32 == total + (if low < saved then 1 else 0)
    ensures Compose(Adjusted(total, saved, low), low) % TWO_32 == low
  {
    var v := Adjusted(total, saved, low);
    assert v == total + (if low < saved then 1 else 0);
    assert Compose(v, low) == v * TWO_32 + low;
    assert last == last / TWO_32 * TWO_32 + saved;
  }

  lemma {:induction false} ComposeParts(v: u64, low: u32)
    ensures Compose(v, low) % TWO_32 == low
    ensures Compose(v, low) / TWO_32 == v % TWO_32
  {
  }

  /** The last captured value of an account never shrinks while the overflow word fits 32 bits. */
  predicate Grows(a: Account, b: Account) {
    && (a.last.Some? ==> b.last.Some?)
    && (a.last.Some? && Total(b) < TWO_32 ==> b.last.value >= a.last.value)
  }

  /** Merging counter `k`: its window closes on the new captured value. */
  lemma {:induction false} MergeCloses(pc: Pc, pc': Pc, v: u64, capr: u32, capt: u64, a: Account, k: Index)
    requires pc.CapMerge? && pc.i == k && Bit(pc.d.g, k) && LatchedAt(pc, capr, capt, a, k)
    requires !Open(pc', k) && !pc'.CapSave? && !pc'.CapMerge?
    requires Total(a) < TWO_63 ==> v == Total(a)
    ensures var low := pc.d.c1[k];
            var w := Compose(Adjusted(v, capt, low), low);
            var b := a.(adj := a.adj + (if low < capt then 1 else 0), last := Some(w));
            LatchedAt(pc', capr, w, b, k) && Grows(a, b)
  {
    var low := pc.d.c1[k];
    ComposeParts(Adjusted(v, capt, low), low);
    var step := if low < capt then 1 else 0;
    if a.last.Some? && Total(a) + step < TWO_32 {
      ComposeGrows(a.last.value, Total(a), capt, low);
    }
  }

  lemma {:induction false} LatchedMerge(s: State, t: nat, ev: Ev, latch: Row, k: Index)
    requires Exclusion(s) && Balanced(s, k) && Latched(s, k)
    requires Enabled(s, Act(t, ev, latch)) && s.pcs[t].CapMerge? && s.pcs[t].i == k && ev.Merge?
    ensures Latched(DoAct(s, t, ev, latch), k)
    ensures Grows(s.book[k], DoAct(s, t, ev, latch).book[k])
  {
    var pc := s.pcs[t];
    HolderStep(s, t, ev, latch);
    OpenStep(pc, ev, k);
    MergeCloses(pc, Next(pc, ev).value, s.soft.vcntr[k], s.hw.capr[k], s.soft.capt[k], s.book[k], k);
  }

  /** The only actions of the lock holder that change the capture word, the saved word or the last value. */
  lemma {:induction false} Untouched(s: State, t: nat, ev: Ev, latch: Row, k: Index)
    requires Enabled(s, Act(t, ev, latch))
    requires !s.pcs[t].CapFire? && !(s.pcs[t].CapMerge? && s.pcs[t].i == k) && !(s.pcs[t].CapSave? && s.pcs[t].i == k)
    ensures var s' := DoAct(s, t, ev, latch);
            && s'.hw.capr == s.hw.capr
            && s'.soft.capt[k] == s.soft.capt[k]
            && s'.book[k].last == s.book[k].last
            && Total(s'.book[k]) >= Total(s.book[k])
  {
  }

  lemma {:induction false} LatchedSave(s: State, t: nat, ev: Ev, latch: Row, k: Index)
    requires Exclusion(s) && Latched(s, k) && Enabled(s, Act(t, ev, latch))
    requires s.pcs[t].CapSave? && s.pcs[t].i == k
    ensures Latched(DoAct(s, t, ev, latch), k) && Grows(s.book[k], DoAct(s, t, ev, latch).book[k])
  {
    HolderStep(s, t, ev, latch);
    OpenStep(s.pcs[t], ev, k);
  }

  lemma {:induction false} LatchedFire(s: State, t: nat, ev: Ev, latch: Row, k: Index)
    requires Exclusion(s) && Latched(s, k) && s.size >= EPU_SPAN && Enabled(s, Act(t, ev, latch))
    requires s.pcs[t].CapFire?
    ensures Latched(DoAct(s, t, ev, latch), k) && Grows(s.book[k], DoAct(s, t, ev, latch).book[k])
  {
    HolderStep(s, t, ev, latch);
    OpenStep(s.pcs[t], ev, k);
  }

  lemma {:induction false} LatchedQuiet(pc: Pc, ev: Ev, hw: Hw, capt: u64, a: Account, b: Account, k: Index)
    requires Sound(pc) && Critical(pc) && Next(pc, ev).Some? && !ev.Unlock? && Answered(hw, ev)
    requires ev.Fault? ==> pc.CapGrp?
    requires !pc.CapFire? && !(pc.CapMerge? && pc.i == k) && !(pc.CapSave? && pc.i == k)
    requires LatchedAt(pc, hw.capr[k], capt, a, k) && a.last == b.last && Total(b) >= Total(a)
    ensures LatchedAt(Next(pc, ev).value, hw.capr[k], capt, b, k)
  {
    OpenStep(pc, ev, k);
  }

  lemma {:induction false} LatchedStep(s: State, t: nat, ev: Ev, latch: Row, k: Index)
    requires Exclusion(s) && Balanced(s, k) && Latched(s, k) && s.size >= EPU_SPAN
    requires Enabled(s, Act(t, ev, latch))
    ensures Latched(DoAct(s, t, ev, latch), k)
    ensures Grows(s.book[k], DoAct(s, t, ev, latch).book[k])
  {
    var pc := s.pcs[t];
    if !Critical(pc) || ev.Unlock? {
      HolderStep(s, t, ev, latch);
      OutsideStep(s, t, ev, latch);
      if ev.Lock? { LockOpensNothing(pc, ev, k); }
    } else if pc.CapMerge? && pc.i == k {
      LatchedMerge(s, t, ev, latch, k);
    } else if pc.CapSave? && pc.i == k {
      LatchedSave(s, t, ev, latch, k);
    } else if pc.CapFire? {
      LatchedFire(s, t, ev, latch, k);
    } else {
      if ev.Fault? { FarFault(pc, ev); }
      HolderStep(s, t, ev, latch);
      Untouched(s, t, ev, latch, k);
      LatchedQuiet(pc, ev, s.hw, s.soft.capt[k], s.book[k], DoAct(s, t, ev, latch).book[k], k);
    }
  }

  lemma {:induction false} LockOpensNothing(pc: Pc, ev: Ev, k: Index)
    requires ev.Lock? && Next(pc, ev).Some?
    ensures var pc' := Next(pc, ev).value; !Open(pc', k) && !pc'.CapSave? && !pc'.CapMerge?
  {
  }

  // ----- every run

  lemma {:induction false} InvStep(s: State, a: Action)
    requires Inv(s) && Enabled(s, a)
    ensures Inv(Do(s, a))
    ensures s.size >= EPU_SPAN ==> forall k: Index :: Grows(s.book[k], Do(s, a).book[k])
  {
    var s' := Do(s, a);
    ExclusionStep(s, a);
    forall u | 0 <= u < |s'.pcs| ensures MaskTracked(s', u) { MaskStep(s, a, u); }
    match a
    case Count(k) =>
      forall j: Index ensures Balanced(s', j) { BalancedCount(s, k, j); }
      assert Holder(s') == Holder(s);
      assert forall j: Index :: s'.book[j].last == s.book[j].last && Total(s'.book[j]) == Total(s.book[j]);
      if s.size >= EPU_SPAN {
        forall j: Index ensures Latched(s', j) { assert Latched(s, j); }
      }
    case Wipe => WipeKeepsInv(s);
    case Act(t, ev, latch) =>
      forall k: Index ensures Balanced(s', k) { BalancedStep(s, t, ev, latch, k); }
      if s.size >= EPU_SPAN {
        forall k: Index ensures Latched(s', k) && Grows(s.book[k], s'.book[k]) { LatchedStep(s, t, ev, latch, k); }
        HoldsStep(s, t, ev, latch);
      }
  }

  lemma {:induction false} WipeKeepsInv(s: State)
    requires Inv(s)
    ensures Inv(DoWipe(s))
    ensures s.size >= EPU_SPAN ==> forall k: Index :: Grows(s.book[k], DoWipe(s).book[k])
  {
    var s' := DoWipe(s);
    forall k: Index ensures Exclusion(s') && Balanced(s', k) { BalancedWipe(s, k); }
    forall u | 0 <= u < |s'.pcs| ensures MaskTracked(s', u) { MaskWipe(s, u); }
    assert Holder(s') == Holder(s);
    assert forall j: Index :: s'.book[j].last == s.book[j].last && Total(s'.book[j]) == Total(s.book[j]);
    if s.size >= EPU_SPAN {
      forall j: Index ensures Latched(s', j) { assert Latched(s, j); }
    }
  }

  /** The lock holder's own view stays valid: nobody else changes the software registers meanwhile. */
  lemma {:induction false} HoldsStep(s: State, t: nat, ev: Ev, latch: Row)
    requires Exclusion(s) && s.size >= EPU_SPAN && Enabled(s, Act(t, ev, latch))
    requires s.lock.Some? ==> Holds(Holder(s), s.snap, s.soft)
    ensures var s' := DoAct(s, t, ev, latch); s'.lock.Some? ==> Holds(Holder(s'), s'.snap, s'.soft)
  {
    var pc := s.pcs[t];
    HolderStep(s, t, ev, latch);
    if !Critical(pc) {
      OutsideStep(s, t, ev, latch);
    } else if !ev.Unlock? {
      if ev.Fault? { FarFault(pc, ev); }
      StepHolds(pc, ev, s.snap, s.soft);
    }
  }

  lemma {:induction false} InvRun(s: State, run: seq<Action>, s': State)
    requires Inv(s) && Exec(s, run) == Some(s')
    ensures Inv(s') && s'.size == s.size && |s'.pcs| == |s.pcs|
    decreases run
  {
    if run != [] {
      InvStep(s, run[0]);
      InvRun(Do(s, run[0]), run[1..], s');
    }
  }

  /**
   Overflow accounting in every interleaving: each rise of a status bit is counted, still pending, owed
   by the lock holder, dropped by a failed update or wiped by a re-binding; every further increment is a stale one or an
   adjustment of a capture.
   */
  lemma {:induction false} OverflowAccounting(s0: State, run: seq<Action>, s: State, k: Index)
    requires Init(s0) && Exec(s0, run) == Some(s)
    ensures s.book[k].raises + s.book[k].stale
            == s.book[k].incs + Owed(Holder(s), k) + s.book[k].dropped + s.book[k].wiped + Pend(s.hw, k)
    ensures s.size >= EPU_SPAN ==> s.book[k].dropped == 0
    ensures s.lock == None ==> Owed(Holder(s), k) == 0
    ensures Total(s.book[k]) < TWO_63 ==> s.soft.vcntr[k] == s.book[k].v0 + s.book[k].incs + s.book[k].adj
  {
    InvInit(s0);
    InvRun(s0, run, s);
    assert Balanced(s, k);
  }

  /** No event disappears: counted overflows, the counter word and the recorded losses add up in every run. */
  lemma {:induction false} EventConservation(s0: State, run: seq<Action>, s: State, k: Index)
    requires Init(s0) && Exec(s0, run) == Some(s)
    ensures var a := s.book[k];
            a.base + a.events + TWO_32 * a.stale
            == TWO_32 * (a.incs + Owed(Holder(s), k) + a.dropped + a.wiped + Pend(s.hw, k)) + s.hw.ctr[k] + a.discarded
  {
    InvInit(s0);
    InvRun(s0, run, s);
    assert Balanced(s, k);
  }

  // ----- stale increments

  predicate Clears(s: State, a: Action) {
    a.Act? && a.t < |s.pcs| && s.pcs[a.t].Clear? && a.ev.Wr?
  }

  /**
   A clearing write that does not count counter `k` twice: nobody else has cleared the bit since the thread
   read it, or it was raised again.  A capture whose first status word is not the status register (a group
   that is not empty) must find the bit pending.
   */
  predicate CleanAction(s: State, a: Action, k: Index) {
    Clears(s, a) && |s.hits| == |s.pcs| && Bit(s.pcs[a.t].mask, k) ==>
      match s.pcs[a.t].k
      case KFire(d) => if d.n == 0 then k !in s.hits[a.t] else Bit(s.hw.isr, k)
      case _ => k !in s.hits[a.t]
  }

  predicate CleanRun(s: State, run: seq<Action>, k: Index)
    decreases run
  {
    run == [] || (CleanAction(s, run[0], k) && (Enabled(s, run[0]) ==> CleanRun(Do(s, run[0]), run[1..], k)))
  }

  /** One clearing write: which counters it makes the thread count twice. */
  lemma {:induction false} StaleExactly(s: State, a: Action, k: Index)
    requires Inv(s) && Enabled(s, a)
    ensures Do(s, a).book[k].stale > s.book[k].stale
            <==> Clears(s, a) && Bit(s.pcs[a.t].mask, k) && !Bit(s.hw.isr, k)
    ensures Clears(s, a) && !s.pcs[a.t].k.KFire? ==>
              (Do(s, a).book[k].stale > s.book[k].stale <==> Bit(s.pcs[a.t].mask, k) && k in s.hits[a.t])
    ensures Do(s, a).book[k].stale >= s.book[k].stale
  {
    if a.Act? {
      assert MaskTracked(s, a.t);
    }
  }

  lemma {:induction false} StaleRun(s: State, run: seq<Action>, s': State, k: Index)
    requires Inv(s) && Exec(s, run) == Some(s')
    ensures s'.book[k].stale >= s.book[k].stale
    ensures CleanRun(s, run, k) <==> s'.book[k].stale == s.book[k].stale
    decreases run
  {
    if run != [] {
      InvStep(s, run[0]);
      StaleExactly(s, run[0], k);
      StaleRun(Do(s, run[0]), run[1..], s', k);
      if Clears(s, run[0]) {
        assert MaskTracked(s, run[0].t);
      }
    }
  }

  /** A counter has no stale increment iff every clearing write of the run was clean for it. */
  lemma {:induction false} NoStaleIncrements(s0: State, run: seq<Action>, s: State, k: Index)
    requires Init(s0) && Exec(s0, run) == Some(s)
    ensures CleanRun(s0, run, k) <==> s.book[k].stale == 0
  {
    InvInit(s0);
    StaleRun(s0, run, s, k);
  }

  /** Nothing clears a status bit in the run. */
  predicate Undisturbed(s: State, run: seq<Action>)
    decreases run
  {
    run == [] || (!Clears(s, run[0]) && !run[0].Wipe? && (Enabled(s, run[0]) ==> Undisturbed(Do(s, run[0]), run[1..])))
  }

  lemma {:induction false} NoHits(s: State, run: seq<Action>, s': State, t: nat)
    requires Exec(s, run) == Some(s') && Undisturbed(s, run)
    requires t < |s.hits| && s.hits[t] == {}
    ensures t < |s'.hits| && s'.hits[t] == {}
    decreases run
  {
    if run != [] {
      NoHits(Do(s, run[0]), run[1..], s', t);
    }
  }

  /**
   A handler reads the status register, then anything but a clearing write happens, then the handler makes
   its own clearing write: no counter is counted twice.
   */
  lemma {:induction false} UndisturbedHandler(
      s0: State, before: seq<Action>, s: State, read: Action, between: seq<Action>, s1: State, clear: Action, k: Index)
    requires Init(s0) && Exec(s0, before) == Some(s)
    requires Enabled(s, read) && read.Act? && s.pcs[read.t].IrqRead? && read.ev.Rd?
    requires Exec(Do(s, read), between) == Some(s1) && Undisturbed(Do(s, read), between)
    requires Enabled(s1, clear) && Clears(s1, clear) && clear.t == read.t && s1.pcs[clear.t].k.KIrq?
    ensures Do(s1, clear).book[k].stale == s1.book[k].stale
  {
    InvInit(s0);
    InvRun(s0, before, s);
    InvStep(s, read);
    InvRun(Do(s, read), between, s1);
    NoHits(Do(s, read), between, s1, read.t);
    StaleExactly(s1, clear, k);
  }

  // ----- runs without interference

  /** The status words two threads hold have a bit in common. */
  predicate Share(a: u32, b: u32) {
    exists k: Index :: Bit(a, k) && Bit(b, k)
  }

  /** Every bit of `mask` is pending. */
  predicate AllPending(mask: u32, isr: u32) {
    forall k: Index :: Bit(mask, k) ==> Bit(isr, k)
  }

  /**
   No thread clears a bit that a handler between its status read and its lock has read, no re-binding
   happens while a status word is in flight, and the word a
   capture reads as "last cycle" status names pending bits only.
   */
  predicate CalmAction(s: State, a: Action) {
    && (Clears(s, a) ==>
          forall u :: 0 <= u < |s.pcs| && s.pcs[u].IrqLock? ==> !Share(s.pcs[a.t].mask, s.pcs[u].mask))
    && (a.Wipe? ==> forall u :: 0 <= u < |s.pcs| ==> !Waiting(s.pcs[u]))
    && (a.Act? && a.t < |s.pcs| && s.pcs[a.t].CapLast? && a.ev.Rd? ==> AllPending(a.ev.val, s.hw.isr))
  }

  predicate CalmRun(s: State, run: seq<Action>)
    decreases run
  {
    run == [] || (CalmAction(s, run[0]) && (Enabled(s, run[0]) ==> CalmRun(Do(s, run[0]), run[1..])))
  }

  /** Every status word in flight still names pending bits only. */
  predicate Timely(s: State) {
    forall u :: 0 <= u < |s.pcs| && Waiting(s.pcs[u]) ==> AllPending(s.pcs[u].mask, s.hw.isr)
  }

  lemma {:induction false} TimelyCount(s: State, k: Index)
    requires Timely(s)
    ensures Timely(DoCount(s, k))
  {
    if s.hw.ctr[k] == 0xFFFF_FFFF && !Bit(s.hw.isr, k) {
      forall j: Index ensures Bit(s.hw.isr, j) ==> Bit(DoCount(s, k).hw.isr, j) {
        OrBit(s.hw.isr, BitMask(k), j);
      }
    }
  }

  lemma {:induction false} TimelyClear(s: State, a: Action)
    requires Exclusion(s) && Timely(s) && Enabled(s, a) && Clears(s, a) && CalmAction(s, a)
    ensures Timely(Do(s, a))
  {
    var s', pc := Do(s, a), s.pcs[a.t];
    WaitingFrom(pc, 0);
    forall u, j: Index | 0 <= u < |s'.pcs| && Waiting(s'.pcs[u]) && Bit(s'.pcs[u].mask, j)
      ensures Bit(s'.hw.isr, j)
    {
      assert u != a.t && s.pcs[u].IrqLock? && !Share(pc.mask, s.pcs[u].mask);
      AndNotBit(s.hw.isr, pc.mask, j);
      assert AllPending(s.pcs[u].mask, s.hw.isr);
    }
  }

  lemma {:induction false} TimelyOwn(s: State, t: nat, ev: Ev, latch: Row)
    requires Exclusion(s) && Timely(s) && Enabled(s, Act(t, ev, latch))
    requires !Clears(s, Act(t, ev, latch)) && CalmAction(s, Act(t, ev, latch))
    ensures Timely(DoAct(s, t, ev, latch))
  {
    var pc := s.pcs[t];
    if !pc.Rest? {
      NextIsAfter(pc, ev);
      WaitingFrom(pc, ValueOf(ev));
      assert Waiting(pc) ==> AllPending(pc.mask, s.hw.isr);
    }
  }

  /** In a calm run no overflow is ever counted twice through a status word. */
  lemma {:induction false} CalmStep(s: State, a: Action, k: Index)
    requires Inv(s) && Timely(s) && Enabled(s, a) && CalmAction(s, a)
    ensures Timely(Do(s, a)) && Do(s, a).book[k].stale == s.book[k].stale
  {
    StaleExactly(s, a, k);
    match a
    case Count(j) => TimelyCount(s, j);
    case Wipe =>
    case Act(t, ev, latch) =>
      if Clears(s, a) {
        TimelyClear(s, a);
        assert AllPending(s.pcs[t].mask, s.hw.isr);
      } else {
        TimelyOwn(s, t, ev, latch);
      }
  }

  lemma {:induction false} CalmSteps(s: State, run: seq<Action>, s': State, k: Index)
    requires Inv(s) && Timely(s) && Exec(s, run) == Some(s') && CalmRun(s, run)
    ensures s'.book[k].stale == s.book[k].stale
    decreases run
  {
    if run != [] {
      InvStep(s, run[0]);
      CalmStep(s, run[0], k);
      CalmSteps(Do(s, run[0]), run[1..], s', k);
    }
  }

  /**
   Runs in which nobody clears a bit between another handler's status read and its lock, and no capture
   reads spurious bits, have no stale increment: raises equal increments plus what is owed or pending.
   */
  lemma {:induction false} CalmRunsAreExact(s0: State, run: seq<Action>, s: State, k: Index)
    requires Init(s0) && Exec(s0, run) == Some(s) && CalmRun(s0, run)
    ensures s.book[k].stale == 0 && CleanRun(s0, run, k)
    ensures s.book[k].raises
            == s.book[k].incs + Owed(Holder(s), k) + s.book[k].dropped + s.book[k].wiped + Pend(s.hw, k)
  {
    InvInit(s0);
    CalmSteps(s0, run, s, k);
    NoStaleIncrements(s0, run, s, k);
    OverflowAccounting(s0, run, s, k);
  }

  // ----- adjustments

  /** A capture of the run finds the new capture word of counter `k` below the saved one. */
  predicate Falls(s: State, a: Action, k: Index) {
    a.Act? && a.ev.Merge? && a.ev.k == k && a.ev.low < s.soft.capt[k]
  }

  predicate NeverFalls(s: State, run: seq<Action>, k: Index)
    decreases run
  {
    run == [] || (!Falls(s, run[0], k) && (Enabled(s, run[0]) ==> NeverFalls(Do(s, run[0]), run[1..], k)))
  }

  lemma {:induction false} AdjustedRun(s: State, run: seq<Action>, s': State, k: Index)
    requires Exec(s, run) == Some(s')
    ensures s'.book[k].adj >= s.book[k].adj
    ensures NeverFalls(s, run, k) <==> s'.book[k].adj == s.book[k].adj
    decreases run
  {
    if run != [] {
      AdjustedRun(Do(s, run[0]), run[1..], s', k);
      assert Do(s, run[0]).book[k].adj == s.book[k].adj + if Falls(s, run[0], k) then 1 else 0;
    }
  }

  /**
   With the lock free and nothing pending, the overflow word has counted every rise of the status bit once,
   except those wiped by a re-binding, iff all clearing writes of the run were clean and no capture found a
   fallen word.
   */
  lemma {:induction false} OverflowWordExact(s0: State, run: seq<Action>, s: State, k: Index)
    requires Init(s0) && Exec(s0, run) == Some(s)
    requires s.lock == None && !Bit(s.hw.isr, k) && s.size >= EPU_SPAN && Total(s.book[k]) < TWO_63
    ensures s.soft.vcntr[k] + s.book[k].wiped == s.book[k].v0 + s.book[k].raises
            <==> CleanRun(s0, run, k) && NeverFalls(s0, run, k)
  {
    OverflowAccounting(s0, run, s, k);
    NoStaleIncrements(s0, run, s, k);
    AdjustedRun(s0, run, s, k);
  }

  // ----- firing

  /**
   In every run a capture that gets as far as firing writes its event's control register, with bit 24 set and
   every other bit as it was read; the words latched are then in the capture registers.
   */
  lemma {:induction false} FiringWrite(s0: State, run: seq<Action>, s: State, t: nat, ev: Ev, latch: Row, j: nat)
    requires Init(s0) && Exec(s0, run) == Some(s) && s.size >= EPU_SPAN
    requires Enabled(s, Act(t, ev, latch)) && s.pcs[t].CapFire? && j < 32
    ensures var d := s.pcs[t].d;
            && ev.Wr? && ev.off == 0x300 + 4 * d.e
            && (Bit(ev.val, j) <==> Bit(d.ctl, j) || j == 24)
            && (d.e < 16 ==> Captures(ev.off, ev.val) && DoAct(s, t, ev, latch).hw.capr == latch)
  {
    var pc := s.pcs[t];
    NextIsAfter(pc, ev);
    if ev.Fault? { FarFault(pc, ev); }
    FiringBit(pc.d.ctl, j);
    WrittenByDriver(pc, ev.off, ev.val);
  }

  // ----- captured values

  lemma {:induction false} TotalGrows(s: State, a: Action, k: Index)
    requires Enabled(s, a)
    ensures Total(Do(s, a).book[k]) >= Total(s.book[k])
  {
  }

  lemma {:induction false} GrowsRun(s: State, run: seq<Action>, s': State, k: Index)
    requires Inv(s) && s.size >= EPU_SPAN && Exec(s, run) == Some(s')
    ensures Total(s'.book[k]) >= Total(s.book[k])
    ensures Grows(s.book[k], s'.book[k])
    decreases run
  {
    if run != [] {
      InvStep(s, run[0]);
      TotalGrows(s, run[0], k);
      GrowsRun(Do(s, run[0]), run[1..], s', k);
      assert Grows(s.book[k], Do(s, run[0]).book[k]);
    }
  }

  /**
   Captured 64-bit values never decrease, in any interleaving of handlers, captures and counting, while
   the overflow word fits 32 bits; a falling low word comes with a larger high word.
   */
  lemma {:induction false} MonotoneCaptures(
      s0: State, run: seq<Action>, s: State, more: seq<Action>, s': State, k: Index)
    requires Init(s0) && Exec(s0, run) == Some(s) && Exec(s, more) == Some(s')
    requires s.size >= EPU_SPAN && s.book[k].last.Some? && Total(s'.book[k]) < TWO_32
    ensures s'.book[k].last.Some? && s'.book[k].last.value >= s.book[k].last.value
    ensures s'.book[k].last.value % TWO_32 < s.book[k].last.value % TWO_32 ==>
              s'.book[k].last.value / TWO_32 > s.book[k].last.value / TWO_32
    ensures !Open(Holder(s'), k) ==> s'.soft.capt[k] == s'.book[k].last.value
  {
    InvInit(s0);
    InvRun(s0, run, s);
    GrowsRun(s, more, s', k);
    InvRun(s, more, s');
    assert Latched(s', k);
  }

  /** In every interleaving a capture has the effect of one uninterrupted capture from the state it locked. */
  lemma {:induction false} CaptureIsAtomic(s0: State, run: seq<Action>, s: State, t: nat)
    requires Init(s0) && Exec(s0, run) == Some(s) && s.size >= EPU_SPAN
    requires t < |s.pcs| && s.pcs[t].Exit?
    ensures s.pcs[t].out.Captured? ==> s.soft == CaptureResult(s.pcs[t].out.d, s.snap)
    ensures s.pcs[t].out.IrqDone? ==>
              s.soft == s.snap.(vcntr := Bumped(s.snap.vcntr, s.pcs[t].out.mask, 32))
    ensures s.pcs[t].out.CaptureFailed? ==> s.soft == s.snap
  {
    InvInit(s0);
    InvRun(s0, run, s);
  }
}
