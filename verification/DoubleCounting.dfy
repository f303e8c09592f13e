/**
 Three runs in which a count is off: one overflow counted twice by a handler whose status word a capture
 has already served, one counted again by the comparison of capture words, and a captured value that
 contains a wrap from after its capture.
 */
module DoubleCounting {
  import opened Bits
  import opened Options
  import opened Protocol
  import opened Sequential
  import opened Epu
  import opened Interleaving

  /** The part of a state the two runs look at: status, counter 0, software word 0 and its books. */
  datatype View = View(lock: Option<nat>, isr: u32, ctr: u32, capr: u32, vcntr: u64, capt: u64, a: Account)

  function ViewOf(s: State): View {
    View(s.lock, s.hw.isr, s.hw.ctr[0], s.hw.capr[0], s.soft.vcntr[0], s.soft.capt[0], s.book[0])
  }

  ghost predicate Ready(s: State) {
    s.size == 0x1000 && |s.hits| == |s.pcs|
  }

  /** Nothing but thread `t` has moved. */
  ghost predicate OthersWait(s: State, s': State, t: nat) {
    |s'.pcs| == |s.pcs| && t < |s.pcs| && s'.pcs == s.pcs[t := s'.pcs[t]] && Ready(s')
  }

  /** A set of states that contains the successors of its members. */
  ghost predicate Closed(reach: State -> bool) {
    forall s: State, a: Action :: reach(s) && Enabled(s, a) ==> reach(Do(s, a))
  }

  /** One action of thread `t`, seen through the view. */
  function ViewAfter(v: View, t: nat, pc: Pc, ev: Ev, latch: u32): View {
    match ev
    case Lock => v.(lock := Some(t))
    case Unlock => v.(lock := None)
    case Wr(_, val) =>
      if pc.Clear? then
        v.(isr := AndNot(v.isr, pc.mask),
           a := if Bit(pc.mask, 0) && !Bit(v.isr, 0) then v.a.(stale := v.a.stale + 1) else v.a)
      else if pc.Zero? && pc.i == 0 then v.(ctr := 0, a := v.a.(discarded := v.a.discarded + v.ctr))
      else if pc.CapFire? && pc.d.e < 16 then v.(capr := latch)
      else v
    case Inc(k) => if k == 0 then v.(vcntr := VInc(v.vcntr), a := v.a.(incs := v.a.incs + 1)) else v
    case Save(k, low) => if k == 0 then v.(capt := low) else v
    case Merge(k, low) =>
      if k == 0 then
        var w := Adjusted(v.vcntr, v.capt, low);
        v.(vcntr := w, capt := Compose(w, low),
           a := v.a.(adj := v.a.adj + (if low < v.capt then 1 else 0), last := Some(Compose(w, low))))
      else v
    case _ => v
  }

  /** What the hardware may answer and latch, seen through the view. */
  predicate Plausible(v: View, pc: Pc, ev: Ev, latch: u32) {
    && (ev.Lock? ==> v.lock == None)
    && (ev.Rd? ==> ev.off < 0x1000)
    && (ev.Rd? && ev.off == EPCTRISR ==> ev.val == v.isr)
    && (ev.Rd? && ev.off == EPCAPR ==> ev.val == v.capr)
    && (ev.Rd? ==> ev.off <= EPCAPR)
    && (ev.Wr? ==> ev.off < 0x1000)
    && (pc.CapFire? ==> Bit(pc.d.g, 0) || latch == v.capr)
    && !ev.Fault?
  }

  lemma {:induction false} PlausibleIsEnabled(s: State, t: nat, pc: Pc, ev: Ev, latch: u32)
    requires Ready(s) && t < |s.pcs| && s.pcs[t] == pc && Next(pc, ev).Some?
    requires Plausible(ViewOf(s), pc, ev, latch)
    ensures Enabled(s, Act(t, ev, s.hw.capr[0 := latch]))
  {
  }

  lemma {:induction false} ViewStep(s: State, t: nat, ev: Ev, latch: Row)
    requires Ready(s) && Enabled(s, Act(t, ev, latch)) && !ev.Fault? && !s.pcs[t].Rest?
    ensures ViewOf(DoAct(s, t, ev, latch)) == ViewAfter(ViewOf(s), t, s.pcs[t], ev, latch[0])
  {
    assert DoAct(s, t, ev, latch).book[0] == AccountAfter(s, s.pcs[t], ev, 0);
  }

  /** Thread `t` moves from `pc` to `pc'`; a capture latches `latch` for counter 0 and nothing else. */
  lemma {:induction false} Then(reach: State -> bool, s: State, t: nat, pc: Pc, ev: Ev, latch: u32, pc': Pc)
      returns (s': State)
    requires Closed(reach) && reach(s) && Ready(s)
    requires t < |s.pcs| && s.pcs[t] == pc && Next(pc, ev) == Some(pc')
    requires Plausible(ViewOf(s), pc, ev, latch)
    ensures reach(s') && OthersWait(s, s', t) && s'.pcs[t] == pc'
    ensures ViewOf(s') == ViewAfter(ViewOf(s), t, pc, ev, latch)
  {
    var a := Act(t, ev, s.hw.capr[0 := latch]);
    PlausibleIsEnabled(s, t, pc, ev, latch);
    s' := Do(s, a);
    if pc.Rest? {
      assert s'.book == s.book;
    } else {
      ViewStep(s, t, ev, s.hw.capr[0 := latch]);
    }
  }

  lemma {:induction false} OneBit()
    ensures AndNot(1, 1) == 0 && AndNot(0, 1) == 0 && BitMask(0) == 1 && OrWord(0, 1) == 1
    ensures Bit(1, 0) && !Bit(0, 0) && Shr(1, 1) == 0 && Shr(1, 0) == 1
    ensures forall k: Cont :: Scan(1, 0, k) == Bump(1, 0, k) && Scan(1, 1, k) == Resume(1, k)
  {
    assert And(0, Not(1) / 2) == 0;
  }

  // ----- one handler run

  /** Bit 0 of a status word that is 0 or 1 is clear. */
  function Missing(isr: u32): nat {
    if isr == 0 then 1 else 0
  }

  lemma {:induction false} ServeClear(reach: State -> bool, s: State, t: nat)
      returns (s': State)
    requires Closed(reach) && reach(s) && Ready(s) && t < |s.pcs|
    requires s.pcs[t] == Clear(1, KIrq) && s.hw.isr <= 1
    ensures reach(s') && OthersWait(s, s', t) && s'.pcs[t] == Bump(1, 0, KIrq)
    ensures var v := ViewOf(s); ViewOf(s') == v.(isr := 0, a := v.a.(stale := v.a.stale + Missing(v.isr)))
  {
    OneBit();
    s' := Then(reach, s, t, Clear(1, KIrq), Wr(EPCTRISR, 1), 0, Bump(1, 0, KIrq));
  }

  /** `update_vcounters` counts bit 0 and goes on at `next`. */
  lemma {:induction false} CountBit(reach: State -> bool, s: State, t: nat, k: Cont, next: Pc)
      returns (s': State)
    requires Closed(reach) && reach(s) && Ready(s) && t < |s.pcs|
    requires s.pcs[t] == Bump(1, 0, k) && Resume(1, k) == next
    ensures reach(s') && OthersWait(s, s', t) && s'.pcs[t] == next
    ensures var v := ViewOf(s);
            ViewOf(s') == v.(ctr := 0, vcntr := VInc(v.vcntr),
                             a := v.a.(incs := v.a.incs + 1, discarded := v.a.discarded + v.ctr))
  {
    OneBit();
    s' := Then(reach, s, t, Bump(1, 0, k), Inc(0), 0, Zero(1, 0, k));
    s' := Then(reach, s', t, Zero(1, 0, k), Wr(EPCTR, 0), 0, next);
  }

  lemma {:induction false} ServeRest(reach: State -> bool, s: State, t: nat)
      returns (s': State)
    requires Closed(reach) && reach(s) && Ready(s) && t < |s.pcs| && s.pcs[t] == Bump(1, 0, KIrq)
    ensures reach(s') && OthersWait(s, s', t) && s'.pcs[t].Rest?
    ensures var v := ViewOf(s);
            ViewOf(s') == v.(lock := None, ctr := 0, vcntr := VInc(v.vcntr),
                             a := v.a.(incs := v.a.incs + 1, discarded := v.a.discarded + v.ctr))
  {
    s' := CountBit(reach, s, t, KIrq, Exit(IrqDone(1)));
    s' := Then(reach, s', t, Exit(IrqDone(1)), Unlock, 0, Rest(IrqDone(1)));
  }

  /** The handler serves the status word 1 it has read earlier. */
  lemma {:induction false} Serve(reach: State -> bool, s: State, t: nat)
      returns (s': State)
    requires Closed(reach) && reach(s) && Ready(s) && t < |s.pcs|
    requires s.pcs[t] == IrqLock(1) && s.lock == None && s.hw.isr <= 1
    ensures reach(s') && OthersWait(s, s', t) && s'.pcs[t].Rest?
    ensures var v := ViewOf(s);
            ViewOf(s') == v.(isr := 0, ctr := 0, vcntr := VInc(v.vcntr),
                             a := v.a.(incs := v.a.incs + 1, stale := v.a.stale + Missing(v.isr),
                                       discarded := v.a.discarded + v.ctr))
  {
    s' := Then(reach, s, t, IrqLock(1), Lock, 0, Clear(1, KIrq));
    s' := ServeClear(reach, s', t);
    s' := ServeRest(reach, s', t);
  }

  /** The handler is entered and reads the status word 1. */
  lemma {:induction false} Enter(reach: State -> bool, s: State, t: nat)
      returns (s': State)
    requires Closed(reach) && reach(s) && Ready(s) && t < |s.pcs| && s.pcs[t].Rest? && s.hw.isr == 1
    ensures reach(s') && OthersWait(s, s', t) && s'.pcs[t] == IrqLock(1) && ViewOf(s') == ViewOf(s)
  {
    s' := Then(reach, s, t, s.pcs[t], Begin(OpIrq), 0, IrqRead);
    s' := Then(reach, s', t, IrqRead, Rd(EPCTRISR, 1), 0, IrqLock(1));
  }

  // ----- one capture of the group {0}

  /** A capture of event 0, group word 1, old capture word `c0`, new one `c1`, late status `t`. */
  function Grab(c0: u32, t: u32, c1: u32): Cap {
    Cap(0, 0, 1, 1, 0, 0, t, ZeroRow()[0 := c0], ZeroRow()[0 := c1])
  }

  lemma {:induction false} GroupOfOne(d: Cap)
    requires d.g == 1
    ensures ScanOld(d, 0) == CapOld(d, 0) && ScanOld(d, 1) == CapCtl(d.(n := 1))
    ensures ScanNew(d, 0) == CapNew(d, 0) && ScanNew(d, 1) == Exit(Captured(d))
  {
    OneBit();
  }

  lemma {:induction false} GrabSelect(reach: State -> bool, s: State, t: nat)
      returns (s': State)
    requires Closed(reach) && reach(s) && Ready(s) && t < |s.pcs| && s.pcs[t].Rest? && s.lock == None
    ensures reach(s') && OthersWait(s, s', t) && s'.pcs[t] == CapGrp(0, 0)
    ensures ViewOf(s') == ViewOf(s).(lock := Some(t))
  {
    s' := Then(reach, s, t, s.pcs[t], Begin(OpCapture(0)), 0, CapLock(0));
    s' := Then(reach, s', t, CapLock(0), Lock, 0, CapSel(0));
    s' := Then(reach, s', t, CapSel(0), Rd(EPGACR, 0), 0, CapGrp(0, 0));
  }

  lemma {:induction false} GrabSave(reach: State -> bool, s: State, t: nat)
      returns (s': State)
    requires Closed(reach) && reach(s) && Ready(s) && t < |s.pcs| && s.pcs[t] == CapGrp(0, 0)
    ensures reach(s') && OthersWait(s, s', t)
    ensures s'.pcs[t] == CapCtl(Grab(s.hw.capr[0], 0, 0)) && ViewOf(s') == ViewOf(s).(capt := s.hw.capr[0])
  {
    var c0 := s.hw.capr[0];
    var d0 := Cap(0, 0, 1, 0, 0, 0, 0, ZeroRow(), ZeroRow());
    var d1 := d0.(c0 := d0.c0[0 := c0]);
    GroupOfOne(d0);
    GroupOfOne(d1);
    assert ZeroRow()[0 := 0] == ZeroRow();
    s' := Then(reach, s, t, CapGrp(0, 0), Rd(EPCTRGCR, 1), 0, CapOld(d0, 0));
    s' := Then(reach, s', t, CapOld(d0, 0), Rd(EPCAPR, c0), 0, CapSave(d1, 0));
    s' := Then(reach, s', t, CapSave(d1, 0), Save(0, c0), 0, CapCtl(d1.(n := 1)));
  }

  lemma {:induction false} GrabFire(reach: State -> bool, s: State, t: nat, c0: u32, c1: u32)
      returns (s': State)
    requires Closed(reach) && reach(s) && Ready(s) && t < |s.pcs| && s.pcs[t] == CapCtl(Grab(c0, 0, 0))
    ensures reach(s') && OthersWait(s, s', t) && s'.pcs[t] == CapLate(Grab(c0, 0, 0))
    ensures ViewOf(s') == ViewOf(s).(capr := c1)
  {
    var d := Grab(c0, 0, 0);
    OneBit();
    assert OrWord(0, STS) == STS;
    s' := Then(reach, s, t, CapCtl(d), Rd(EPECR, 0), 0, CapLast(d));
    s' := Then(reach, s', t, CapLast(d), Rd(EPCTRISR + 4, 0), 0, CapFire(d));
    s' := Then(reach, s', t, CapFire(d), Wr(EPECR, STS), c1, CapLate(d));
  }

  /** The late status word: nothing pending. */
  lemma {:induction false} GrabQuiet(reach: State -> bool, s: State, t: nat, c0: u32)
      returns (s': State)
    requires Closed(reach) && reach(s) && Ready(s) && t < |s.pcs| && s.pcs[t] == CapLate(Grab(c0, 0, 0))
    requires s.hw.isr == 0
    ensures reach(s') && OthersWait(s, s', t) && s'.pcs[t] == CapNew(Grab(c0, 0, 0), 0)
    ensures ViewOf(s') == ViewOf(s)
  {
    var d := Grab(c0, 0, 0);
    GroupOfOne(d);
    s' := Then(reach, s, t, CapLate(d), Rd(EPCTRISR, 0), 0, CapNew(d, 0));
  }

  /** The late status word: counter 0 pending. */
  lemma {:induction false} GrabLate(reach: State -> bool, s: State, t: nat, c0: u32)
      returns (s': State)
    requires Closed(reach) && reach(s) && Ready(s) && t < |s.pcs| && s.pcs[t] == CapLate(Grab(c0, 0, 0))
    requires s.hw.isr == 1
    ensures reach(s') && OthersWait(s, s', t) && s'.pcs[t] == CapNew(Grab(c0, 1, 0), 0)
    ensures var v := ViewOf(s);
            ViewOf(s') == v.(isr := 0, ctr := 0, vcntr := VInc(v.vcntr),
                             a := v.a.(incs := v.a.incs + 1, discarded := v.a.discarded + v.ctr))
  {
    var d := Grab(c0, 1, 0);
    OneBit();
    GroupOfOne(d);
    s' := Then(reach, s, t, CapLate(Grab(c0, 0, 0)), Rd(EPCTRISR, 1), 0, Clear(1, KNew(d)));
    s' := Then(reach, s', t, Clear(1, KNew(d)), Wr(EPCTRISR, 1), 0, Bump(1, 0, KNew(d)));
    s' := CountBit(reach, s', t, KNew(d), CapNew(d, 0));
  }

  lemma {:induction false} GrabMerge(reach: State -> bool, s: State, t: nat, c0: u32, late: u32)
      returns (s': State)
    requires Closed(reach) && reach(s) && Ready(s) && t < |s.pcs| && s.pcs[t] == CapNew(Grab(c0, late, 0), 0)
    ensures reach(s') && OthersWait(s, s', t) && s'.pcs[t].Rest?
    ensures var v := ViewOf(s); var c1 := v.capr; var w := Adjusted(v.vcntr, v.capt, c1);
            ViewOf(s') == v.(lock := None, vcntr := w, capt := Compose(w, c1),
                             a := v.a.(adj := v.a.adj + (if c1 < v.capt then 1 else 0), last := Some(Compose(w, c1))))
  {
    var c1 := s.hw.capr[0];
    var d, d1 := Grab(c0, late, 0), Grab(c0, late, c1);
    assert d.c1[0 := c1] == d1.c1;
    GroupOfOne(d1);
    s' := Then(reach, s, t, CapNew(d, 0), Rd(EPCAPR, c1), 0, CapMerge(d1, 0));
    s' := Then(reach, s', t, CapMerge(d1, 0), Merge(0, c1), 0, Exit(Captured(d1)));
    s' := Then(reach, s', t, Exit(Captured(d1)), Unlock, 0, Rest(Captured(d1)));
  }

  /** A whole capture that latches `c1`. */
  lemma {:induction false} GrabAll(reach: State -> bool, s: State, t: nat, c1: u32)
      returns (s': State)
    requires Closed(reach) && reach(s) && Ready(s) && t < |s.pcs| && s.pcs[t].Rest?
    requires s.lock == None && s.hw.isr <= 1
    ensures reach(s') && OthersWait(s, s', t) && s'.pcs[t].Rest?
    ensures var v := ViewOf(s);
            var u := if v.isr == 0 then v
                     else v.(isr := 0, ctr := 0, vcntr := VInc(v.vcntr),
                             a := v.a.(incs := v.a.incs + 1, discarded := v.a.discarded + v.ctr));
            var w := Adjusted(u.vcntr, v.capr, c1);
            ViewOf(s') == u.(capr := c1, vcntr := w, capt := Compose(w, c1),
                             a := u.a.(adj := u.a.adj + (if c1 < v.capr then 1 else 0), last := Some(Compose(w, c1))))
  {
    var c0 := s.hw.capr[0];
    s' := GrabSelect(reach, s, t);
    s' := GrabSave(reach, s', t);
    s' := GrabFire(reach, s', t, c0, c1);
    if s.hw.isr == 0 {
      s' := GrabQuiet(reach, s', t, c0);
    } else {
      s' := GrabLate(reach, s', t, c0);
    }
    s' := GrabMerge(reach, s', t, c0, s.hw.isr);
  }

  // ----- the three runs

  /** Two threads at rest, counter 0 one event short of its wrap. */
  function Brink(): State {
    State(0x1000, Hw(0, ZeroRow()[0 := 0xFFFF_FFFF], ZeroRow()),
          Soft(seq(32, i => 0), seq(32, i => 0), seq(17, i => 0)),
          Soft(seq(32, i => 0), seq(32, i => 0), seq(17, i => 0)),
          None, [Rest(Fresh), Rest(Fresh)], [{}, {}],
          seq(32, k requires 0 <= k < 32 => Account(0, ZeroRow()[0 := 0xFFFF_FFFF][k], 0, 0, 0, 0, 0, 0, 0, 0, None)))
  }

  /** Counter 0 wraps. */
  lemma {:induction false} Wrap(reach: State -> bool, s: State)
      returns (s': State)
    requires Closed(reach) && reach(s) && Ready(s) && s.hw.ctr[0] == 0xFFFF_FFFF && s.hw.isr == 0
    ensures reach(s') && Ready(s') && s'.pcs == s.pcs
    ensures var v := ViewOf(s);
            ViewOf(s') == v.(isr := 1, ctr := 0, a := v.a.(events := v.a.events + 1, raises := v.a.raises + 1))
  {
    OneBit();
    s' := Do(s, Count(0));
  }

  ghost predicate Reached(s: State) {
    exists run: seq<Action> :: Exec(Brink(), run) == Some(s)
  }

  lemma {:induction false} ReachedIsClosed() returns (reach: State -> bool)
    ensures Closed(reach) && reach(Brink())
    ensures forall s :: reach(s) ==> Reached(s)
  {
    reach := s => Reached(s);
    assert Exec(Brink(), []) == Some(Brink());
    forall s: State, a: Action | reach(s) && Enabled(s, a)
      ensures reach(Do(s, a))
    {
      var run: seq<Action> :| Exec(Brink(), run) == Some(s);
      ExecAppend(Brink(), run, s, a);
    }
  }

  lemma {:induction false} SmallValues()
    ensures VInc(0) == 1 && Adjusted(0, 0, 0xFFFF_FFFF) == 0 && Adjusted(1, 0xFFFF_FFFF, 0) == 2
    ensures Compose(0, 0xFFFF_FFFF) == 0xFFFF_FFFF && Compose(2, 0) == 2 * TWO_32
    ensures Adjusted(1, 0, 0xFFFF_FFFF) == 1 && Compose(1, 0xFFFF_FFFF) == TWO_32 + 0xFFFF_FFFF
  {
  }

  lemma {:induction false} BrinkIsInitial()
    ensures Init(Brink()) && Ready(Brink())
  {
  }

  /**
   One overflow, two increments: the handler reads the status, a capture serves and clears the bit, the
   handler then takes the lock and counts the bit again.
   */
  lemma {:induction false} StaleIncrementHappens() returns (s: State)
    ensures Init(Brink()) && Reached(s)
    ensures s.lock == None && s.hw.isr == 0 && s.book[0].raises == 1 && s.book[0].stale == 1 && s.book[0].adj == 0
    ensures s.soft.vcntr[0] == 2
  {
    BrinkIsInitial();
    var reach := ReachedIsClosed();
    s := Wrap(reach, Brink());
    s := Enter(reach, s, 0);
    s := GrabAll(reach, s, 1, 0);
    s := Serve(reach, s, 0);
  }

  /**
   One overflow, two increments: the counter wraps between two captures, the handler counts the wrap, and
   the second capture counts it again because the new capture word is below the old one.
   */
  lemma {:induction false} AdjustmentCountsTwice() returns (s: State)
    ensures Init(Brink()) && Reached(s)
    ensures s.lock == None && s.hw.isr == 0 && s.book[0].raises == 1 && s.book[0].stale == 0 && s.book[0].adj == 1
    ensures s.soft.vcntr[0] == 2 && s.soft.capt[0] == 2 * TWO_32
  {
    BrinkIsInitial();
    var reach := ReachedIsClosed();
    SmallValues();
    s := GrabAll(reach, Brink(), 0, 0xFFFF_FFFF);
    assert s.soft.vcntr[0] == 0 && s.hw.capr[0] == 0xFFFF_FFFF && s.book[0].adj == 0;
    s := Wrap(reach, s);
    s := Enter(reach, s, 0);
    s := Serve(reach, s, 0);
    assert s.soft.vcntr[0] == 1 && s.hw.capr[0] == 0xFFFF_FFFF && s.book[0].adj == 0 && s.book[0].stale == 0;
    s := GrabAll(reach, s, 0, 0);
  }

  /**
   A captured value ahead of its time: the counter wraps between the firing write and the late status read, so
   the word of before the wrap is put under the overflow word of after it.  Nothing is stale, adjusted or lost.
   */
  lemma {:induction false} LateWrapMiscounts() returns (s: State)
    ensures Init(Brink()) && Reached(s)
    ensures s.lock == None && s.book[0].base == 0xFFFF_FFFF && s.book[0].v0 == 0 && s.book[0].events == 1
    ensures s.book[0].stale == 0 && s.book[0].adj == 0 && s.book[0].discarded == 0
    ensures s.soft.capt[0] == TWO_32 + 0xFFFF_FFFF
  {
    BrinkIsInitial();
    var reach := ReachedIsClosed();
    SmallValues();
    s := GrabSelect(reach, Brink(), 0);
    s := GrabSave(reach, s, 0);
    s := GrabFire(reach, s, 0, 0, 0xFFFF_FFFF);
    s := Wrap(reach, s);
    s := GrabLate(reach, s, 0, 0);
    s := GrabMerge(reach, s, 0, 0, 1);
  }
}
