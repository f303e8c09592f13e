/**
 What a captured 64-bit value says about the number of events: over any run, with every source of error
 named.  Three moments matter: the firing write, the late status read, and the merge of the counter.
 */
module CapturedValues {
  import opened Bits
  import opened Options
  import opened Protocol
  import opened Sequential
  import opened Epu
  import opened Interleaving

  predicate NotBy(t: nat, run: seq<Action>) {
    forall i :: 0 <= i < |run| ==> !(run[i].Act? && run[i].t == t)
  }

  predicate StaysLocked(t: nat, run: seq<Action>) {
    forall i :: 0 <= i < |run| ==> !(run[i].Act? && run[i].t == t && run[i].ev.Unlock?)
  }

  predicate SameOrigin(a: Account, b: Account) {
    a.v0 == b.v0 && a.base == b.base
  }

  // ----- from the firing write to the late status read

  /** Thread `t` has fired and not yet read the status again; `a1` are the books at the firing write. */
  predicate Waits(s: State, t: nat, k: Index, a1: Account, w: u32) {
    && s.lock == Some(t) && t < |s.pcs| && s.pcs[t].CapLate?
    && s.hw.capr[k] == w
    && SameOrigin(s.book[k], a1) && s.book[k].incs == a1.incs && s.book[k].stale == a1.stale
  }

  lemma {:induction false} FireWaits(s: State, t: nat, ev: Ev, latch: Row, k: Index)
    requires Inv(s) && s.size >= EPU_SPAN && Enabled(s, Act(t, ev, latch)) && s.pcs[t].CapFire?
    ensures Waits(DoAct(s, t, ev, latch), t, k, s.book[k], AfterFire(s.hw, s.pcs[t].d, latch)[k])
  {
    NextIsAfter(s.pcs[t], ev);
    if ev.Fault? { FarFault(s.pcs[t], ev); }
    assert Critical(s.pcs[t]);
  }

  /** Threads outside the critical section leave the books and the capture words alone. */
  lemma {:induction false} OthersKeep(s: State, a: Action, t: nat, k: Index)
    requires Exclusion(s) && s.lock == Some(t) && t < |s.pcs| && Enabled(s, a) && !(a.Act? && a.t == t)
    ensures var s', b, b' := Do(s, a), s.book[k], Do(s, a).book[k];
            && s'.lock == s.lock && t < |s'.pcs| && s'.pcs[t] == s.pcs[t] && s'.hw.capr == s.hw.capr
            && SameOrigin(b, b') && b'.incs == b.incs && b'.stale == b.stale && b'.adj == b.adj
  {
    if a.Act? {
      assert !Critical(s.pcs[a.t]);
      CriticalStep(s.pcs[a.t], a.ev);
      OutsideStep(s, a.t, a.ev, a.latch);
    }
  }

  lemma {:induction false} WaitsOn(s: State, run: seq<Action>, s': State, t: nat, k: Index, a1: Account, w: u32)
    requires Inv(s) && Exec(s, run) == Some(s') && NotBy(t, run) && Waits(s, t, k, a1, w)
    ensures Inv(s') && Waits(s', t, k, a1, w)
    decreases run
  {
    if run != [] {
      InvStep(s, run[0]);
      OthersKeep(s, run[0], t, k);
      WaitsOn(Do(s, run[0]), run[1..], s', t, k, a1, w);
    }
  }

  // ----- from the late status read to the merge

  /** The late status word `v` of thread `t` is being counted, or has been. */
  predicate Serves(s: State, t: nat, k: Index, a1: Account, w: u32, v: u32) {
    && s.lock == Some(t) && t < |s.pcs|
    && s.hw.capr[k] == w
    && SameOrigin(s.book[k], a1)
    && var counted := a1.incs + if Bit(v, k) then 1 else 0;
       match s.pcs[t]
       case Clear(mask, c) => c.KNew? && mask == v && s.book[k].incs == a1.incs
       case Bump(mask, _, c) => c.KNew? && mask == v && s.book[k].incs + Owed(s.pcs[t], k) == counted
       case Zero(mask, _, c) => c.KNew? && mask == v && s.book[k].incs + Owed(s.pcs[t], k) == counted
       case CapNew(_, _) => s.book[k].incs == counted
       case CapMerge(_, _) => s.book[k].incs == counted
       case Exit(_) => true
       case _ => false
  }

  lemma {:induction false} LateServes(s: State, t: nat, ev: Ev, latch: Row, k: Index, a1: Account, w: u32)
    requires Inv(s) && s.size >= EPU_SPAN && Waits(s, t, k, a1, w) && Enabled(s, Act(t, ev, latch))
    ensures ev.Rd? && ev.val == s.hw.isr && Serves(DoAct(s, t, ev, latch), t, k, a1, w, ev.val)
  {
    NextIsAfter(s.pcs[t], ev);
    if ev.Fault? { FarFault(s.pcs[t], ev); }
    ShrZeroStays(0, 0, k);
  }

  /** Where the second status update and the second pass lead. */
  lemma {:induction false} TailAfter(pc: Pc, v: u32)
    requires pc.Clear? || pc.Bump? || pc.Zero? ==> pc.k.KNew?
    requires pc.Clear? || pc.Bump? || pc.Zero? || pc.CapNew? || pc.CapMerge?
    ensures var pc' := After(pc, v);
            && (pc'.Bump? || pc'.Zero? || pc'.CapNew? || pc'.CapMerge? || pc'.Exit?)
            && (pc'.Bump? || pc'.Zero? ==> !pc.CapNew? && !pc.CapMerge? && pc'.mask == pc.mask && pc'.k.KNew?)
  {
  }

  lemma {:induction false} ServesStep(s: State, t: nat, ev: Ev, latch: Row, k: Index, a1: Account, w: u32, v: u32)
    requires Inv(s) && s.size >= EPU_SPAN && Serves(s, t, k, a1, w, v)
    requires Enabled(s, Act(t, ev, latch)) && !ev.Unlock?
    ensures Serves(DoAct(s, t, ev, latch), t, k, a1, w, v)
  {
    var pc := s.pcs[t];
    NextIsAfter(pc, ev);
    if ev.Fault? {
      FarFault(pc, ev);
    } else {
      assert Critical(pc) && Sound(pc);
      TailAfter(pc, ValueOf(ev));
      OwedStep(pc, ev, k);
      TailBooks(s, t, ev, latch, k);
    }
  }

  /** In the tail of a capture only the increments of the status update change `incs`. */
  lemma {:induction false} TailBooks(s: State, t: nat, ev: Ev, latch: Row, k: Index)
    requires Enabled(s, Act(t, ev, latch)) && !ev.Unlock? && !ev.Lock? && !s.pcs[t].Rest? && !s.pcs[t].CapFire?
    ensures var s', b, b' := DoAct(s, t, ev, latch), s.book[k], DoAct(s, t, ev, latch).book[k];
            && s'.lock == s.lock && s'.hw.capr == s.hw.capr && SameOrigin(b, b')
            && b'.incs == b.incs + if s.pcs[t].Bump? && s.pcs[t].i == k then 1 else 0
  {
    NextIsAfter(s.pcs[t], ev);
  }

  lemma {:induction false} ServesOn(
      s: State, run: seq<Action>, s': State, t: nat, k: Index, a1: Account, w: u32, v: u32)
    requires Inv(s) && s.size >= EPU_SPAN && Exec(s, run) == Some(s') && StaysLocked(t, run)
    requires Serves(s, t, k, a1, w, v)
    ensures Inv(s') && Serves(s', t, k, a1, w, v)
    decreases run
  {
    if run != [] {
      var a := run[0];
      InvStep(s, a);
      if a.Act? && a.t == t {
        ServesStep(s, t, a.ev, a.latch, k, a1, w, v);
      } else {
        OthersKeep(s, a, t, k);
      }
      ServesOn(Do(s, a), run[1..], s', t, k, a1, w, v);
    }
  }

  // ----- the merge

  /** The value a merge records: the overflow word above the latched word. */
  lemma {:induction false} MergeRecords(s: State, t: nat, ev: Ev, latch: Row, k: Index)
    requires Inv(s) && s.size >= EPU_SPAN && Enabled(s, Act(t, ev, latch))
    requires s.pcs[t].CapMerge? && s.pcs[t].i == k
    ensures var b := DoAct(s, t, ev, latch).book[k];
            && b.last.Some? && SameOrigin(b, s.book[k]) && b.incs == s.book[k].incs
            && b.last.value == Compose(DoAct(s, t, ev, latch).soft.vcntr[k], s.hw.capr[k])
  {
    NextIsAfter(s.pcs[t], ev);
    assert Critical(s.pcs[t]) && Latched(s, k);
  }

  lemma {:induction false} MergedTotal(s: State, t: nat, ev: Ev, latch: Row, k: Index)
    requires Inv(s) && Enabled(s, Act(t, ev, latch))
    ensures var s' := DoAct(s, t, ev, latch); Total(s'.book[k]) < TWO_63 ==> s'.soft.vcntr[k] == Total(s'.book[k])
  {
    InvStep(s, Act(t, ev, latch));
    assert Balanced(DoAct(s, t, ev, latch), k);
  }

  /**
   One capture of a counter by thread `t`, cut at its firing write (which latches `latch`), its late status
   read and the merge of the counter.
   */
  datatype Capture = Capture(
    t: nat,
    s1: State, fire: Ev, latch: Row,
    wait: seq<Action>, s2: State, late: Ev,
    rest: seq<Action>, s3: State, merge: Ev, s4: State)

  ghost predicate Fires(c: Capture, k: Index) {
    && Enabled(c.s1, Act(c.t, c.fire, c.latch)) && c.s1.pcs[c.t].CapFire? && Bit(c.s1.pcs[c.t].d.g, k)
    && Exec(DoAct(c.s1, c.t, c.fire, c.latch), c.wait) == Some(c.s2) && NotBy(c.t, c.wait)
  }

  ghost predicate Merges(c: Capture, k: Index) {
    && Enabled(c.s2, Act(c.t, c.late, c.latch))
    && Exec(DoAct(c.s2, c.t, c.late, c.latch), c.rest) == Some(c.s3) && StaysLocked(c.t, c.rest)
    && Enabled(c.s3, Act(c.t, c.merge, c.latch)) && c.s3.pcs[c.t].CapMerge? && c.s3.pcs[c.t].i == k
    && c.s4 == DoAct(c.s3, c.t, c.merge, c.latch)
  }

  /** The capture word of the counter right after the firing write. */
  function Word(c: Capture, k: Index): u32 {
    if c.t < |c.s1.pcs| && c.s1.pcs[c.t].CapFire? then AfterFire(c.s1.hw, c.s1.pcs[c.t].d, c.latch)[k] else 0
  }

  /** How often the status bit of the counter rose between the firing write and the late status read. */
  function LateRises(c: Capture, k: Index): int {
    c.s2.book[k].raises - c.s1.book[k].raises
  }

  /** The word a capture latches, against the counter at that moment. */
  function Skew(c: Capture, k: Index): int {
    var latched: int, counter: int := Word(c, k), c.s1.hw.ctr[k];
    latched - counter
  }

  /** The count of a counter: where it started, and the events since. */
  function TrueCount(a: Account): nat {
    a.base + TWO_32 * a.v0 + a.events
  }

  lemma {:induction false} CountsFire(c: Capture, k: Index)
    requires Inv(c.s1) && c.s1.size >= EPU_SPAN && Fires(c, k)
    ensures Inv(c.s2) && c.s2.size >= EPU_SPAN && Waits(c.s2, c.t, k, c.s1.book[k], Word(c, k))
  {
    InvStep(c.s1, Act(c.t, c.fire, c.latch));
    FireWaits(c.s1, c.t, c.fire, c.latch, k);
    InvRun(DoAct(c.s1, c.t, c.fire, c.latch), c.wait, c.s2);
    WaitsOn(DoAct(c.s1, c.t, c.fire, c.latch), c.wait, c.s2, c.t, k, c.s1.book[k], Word(c, k));
  }

  lemma {:induction false} CountsLate(c: Capture, k: Index)
    requires Inv(c.s2) && c.s2.size >= EPU_SPAN && Waits(c.s2, c.t, k, c.s1.book[k], Word(c, k)) && Merges(c, k)
    ensures Inv(c.s3) && c.s3.size >= EPU_SPAN
    ensures Serves(c.s3, c.t, k, c.s1.book[k], Word(c, k), c.s2.hw.isr)
  {
    var s := DoAct(c.s2, c.t, c.late, c.latch);
    InvStep(c.s2, Act(c.t, c.late, c.latch));
    LateServes(c.s2, c.t, c.late, c.latch, k, c.s1.book[k], Word(c, k));
    ServesOn(s, c.rest, c.s3, c.t, k, c.s1.book[k], Word(c, k), c.s2.hw.isr);
    InvRun(s, c.rest, c.s3);
  }

  /** Books of a lock holder that owes nothing, over a map that holds the EPU. */
  lemma {:induction false} BooksNow(s: State, t: nat, k: Index)
    requires Inv(s) && s.size >= EPU_SPAN && t < |s.pcs| && (s.pcs[t].CapFire? || s.pcs[t].CapLate?)
    ensures var a := s.book[k];
            && a.raises + a.stale == a.incs + a.wiped + Pend(s.hw, k)
            && a.base + a.events == TWO_32 * a.raises + s.hw.ctr[k] + a.discarded
  {
    assert Critical(s.pcs[t]) && Balanced(s, k);
  }

  /** The books at the firing write and at the late status read. */
  lemma {:induction false} FireEquations(c: Capture, k: Index)
    requires Inv(c.s1) && c.s1.size >= EPU_SPAN && Fires(c, k)
    ensures var a := c.s1.book[k];
            && a.base + a.events == TWO_32 * a.raises + c.s1.hw.ctr[k] + a.discarded
            && a.incs + c.s2.book[k].wiped + Pend(c.s2.hw, k) == a.raises + a.stale + LateRises(c, k)
            && a.incs + a.wiped + Pend(c.s1.hw, k) == a.raises + a.stale
  {
    CountsFire(c, k);
    BooksNow(c.s1, c.t, k);
    BooksNow(c.s2, c.t, k);
  }

  /** The books after the merge. */
  lemma {:induction false} MergeEquations(c: Capture, k: Index)
    requires Inv(c.s1) && c.s1.size >= EPU_SPAN && Fires(c, k) && Merges(c, k)
    ensures var a, b := c.s1.book[k], c.s4.book[k];
            && b.v0 == a.v0 && b.incs == a.incs + Pend(c.s2.hw, k)
            && b.last == Some(Compose(c.s4.soft.vcntr[k], Word(c, k)))
            && (Total(b) < TWO_63 ==> c.s4.soft.vcntr[k] == Total(b))
  {
    CountsFire(c, k);
    CountsLate(c, k);
    MergeRecords(c.s3, c.t, c.merge, c.latch, k);
    MergedTotal(c.s3, c.t, c.merge, c.latch, k);
  }

  /**
   What a captured value should be, from the books `a` at the firing write, `l` at the late status read and `b`
   after the merge: the events up to the firing write, less the discarded and the wiped ones, plus 2^32 for
   each stale increment, each adjustment and each rise of the status bit between firing and the late read,
   plus the `skew` of the latched word.
   */
  function Explained(a: Account, l: Account, b: Account, skew: int): int {
    TrueCount(a) - a.discarded + TWO_32 * (a.stale + b.adj + (l.raises - a.raises) - l.wiped) + skew
  }

  /** The captured value is explained: modulo 2^64, and exactly if the overflow word fits 32 bits. */
  predicate Accounted(a: Account, l: Account, b: Account, skew: int) {
    && b.last.Some?
    && b.last.value == Explained(a, l, b, skew) % TWO_64
    && (Total(b) < TWO_32 ==> b.last.value == Explained(a, l, b, skew))
  }

  lemma ComposeWraps(v: u64, low: u32)
    ensures Compose(v, low) == (TWO_32 * v + low) % TWO_64
    ensures v < TWO_32 ==> Compose(v, low) == TWO_32 * v + low
  {
    var q, r := v / TWO_32, v % TWO_32;
    assert TWO_32 * v + low == TWO_64 * q + (TWO_32 * r + low);
    assert 0 <= TWO_32 * r + low < TWO_64;
  }

  lemma {:induction false} Sum(a: Account, l: Account, b: Account, v: u64, low: u32, ctr: u32)
    requires v == Total(b) < TWO_63 && b.last == Some(Compose(v, low)) && b.v0 == a.v0
    requires b.incs == a.raises + a.stale + (l.raises - a.raises) - l.wiped
    requires a.base + a.events == TWO_32 * a.raises + ctr + a.discarded
    ensures Accounted(a, l, b, low - ctr)
  {
    ComposeWraps(v, low);
    assert Explained(a, l, b, low - ctr) == TWO_32 * v + low;
  }

  datatype Marker = Marker

  ghost predicate IsCaptureIn(m: Marker, s0: State, before: seq<Action>, c: Capture, k: Index) {
    Init(s0) && s0.size >= EPU_SPAN && Exec(s0, before) == Some(c.s1) && Fires(c, k) && Merges(c, k)
  }

  /**
   `c` is a capture of counter `k` in a run from `s0` that did `before` first, over a map that holds the EPU;
   kept folded, the solver looks inside only where a proof asks it to.
   */
  ghost predicate CaptureIn(s0: State, before: seq<Action>, c: Capture, k: Index) {
    forall m: Marker :: IsCaptureIn(m, s0, before, c, k)
  }

  lemma {:induction false} InCapture(s0: State, before: seq<Action>, c: Capture, k: Index)
    requires CaptureIn(s0, before, c, k)
    ensures Inv(c.s1) && c.s1.size >= EPU_SPAN && Fires(c, k) && Merges(c, k)
  {
    assert IsCaptureIn(Marker, s0, before, c, k);
    InvInit(s0);
    InvRun(s0, before, c.s1);
  }

  /** The equations of the three moments, all in one. */
  predicate Booked(c: Capture, k: Index) {
    var a, l, b := c.s1.book[k], c.s2.book[k], c.s4.book[k];
    && b.v0 == a.v0 && b.incs == a.raises + a.stale + (l.raises - a.raises) - l.wiped
    && b.last == Some(Compose(c.s4.soft.vcntr[k], Word(c, k)))
    && (Total(b) < TWO_63 ==> c.s4.soft.vcntr[k] == Total(b))
    && a.base + a.events == TWO_32 * a.raises + c.s1.hw.ctr[k] + a.discarded
    && 0 <= LateRises(c, k) + Pend(c.s1.hw, k) - (l.wiped - a.wiped) <= 1
  }

  lemma {:induction false} CaptureIsBooked(s0: State, before: seq<Action>, c: Capture, k: Index)
    requires CaptureIn(s0, before, c, k)
    ensures Booked(c, k)
  {
    InCapture(s0, before, c, k);
    FireEquations(c, k);
    MergeEquations(c, k);
  }

  /** Every captured value is accounted for; without a wipe the bit rises at most once in the late window. */
  lemma {:induction false} CapturedValueExact(s0: State, before: seq<Action>, c: Capture, k: Index)
    requires CaptureIn(s0, before, c, k)
    requires Total(c.s4.book[k]) < TWO_63
    ensures Accounted(c.s1.book[k], c.s2.book[k], c.s4.book[k], Skew(c, k))
    ensures 0 <= LateRises(c, k) + Pend(c.s1.hw, k) - (c.s2.book[k].wiped - c.s1.book[k].wiped) <= 1
  {
    CaptureIsBooked(s0, before, c, k);
    Sum(c.s1.book[k], c.s2.book[k], c.s4.book[k], c.s4.soft.vcntr[k], Word(c, k), c.s1.hw.ctr[k]);
  }

  /** The word that is merged is the one the firing write put into the capture register: a latched one. */
  lemma {:induction false} MergedWordIsLatched(s0: State, before: seq<Action>, c: Capture, k: Index)
    requires CaptureIn(s0, before, c, k)
    ensures c.t < |c.s3.pcs| && c.s3.pcs[c.t].CapMerge? && c.s3.pcs[c.t].d.c1[k] == Word(c, k)
    ensures c.t < |c.s1.pcs| && c.s1.pcs[c.t].CapFire? && (c.s1.pcs[c.t].d.e < 16 ==> Word(c, k) == c.latch[k])
  {
    InCapture(s0, before, c, k);
    CountsFire(c, k);
    CountsLate(c, k);
    assert Latched(c.s3, k) && Critical(c.s3.pcs[c.t]);
  }

  /**
   If the counter itself is latched and nothing was lost, counted twice or adjusted, the captured value is the
   number of events at the firing write iff the status bit did not rise between firing and the late status read.
   */
  lemma {:induction false} CapturedValueRight(s0: State, before: seq<Action>, c: Capture, k: Index)
    requires CaptureIn(s0, before, c, k)
    requires Total(c.s4.book[k]) < TWO_32 && Word(c, k) == c.s1.hw.ctr[k]
    requires c.s1.book[k].discarded == 0 && c.s1.book[k].stale == 0 && c.s4.book[k].adj == 0 && c.s2.book[k].wiped == 0
    ensures c.s4.book[k].last == Some(TrueCount(c.s1.book[k])) <==> c.s2.book[k].raises == c.s1.book[k].raises
  {
    CapturedValueExact(s0, before, c, k);
  }

  // ----- every merge of a run belongs to such a capture

  /** Control points from the late status read to the last merge. */
  predicate Tail(pc: Pc) {
    pc.CapNew? || pc.CapMerge? || ((pc.Clear? || pc.Bump? || pc.Zero?) && pc.k.KNew?)
  }

  function TailGroup(pc: Pc): u32
    requires Tail(pc)
  {
    if pc.CapNew? || pc.CapMerge? then pc.d.g else pc.k.d.g
  }

  /** The tail is entered by the late status read only, and the late status read is reached by firing only. */
  lemma {:induction false} TailFrom(pc: Pc, ev: Ev)
    requires !pc.Rest? && Next(pc, ev).Some?
    ensures var pc' := Next(pc, ev).value;
            && (Tail(pc') ==> !ev.Unlock? && (pc.CapLate? || Tail(pc)))
            && (Tail(pc') && pc.CapLate? ==> pc.d.g == TailGroup(pc'))
            && (Tail(pc') && Tail(pc) ==> TailGroup(pc) == TailGroup(pc'))
            && (pc'.CapLate? ==> pc.CapFire? && pc.d == pc'.d)
  {
    NextIsAfter(pc, ev);
  }

  lemma {:induction false} StartsElsewhere(op: Op)
    ensures !Tail(Start(op)) && !Start(op).CapLate?
  {
  }

  lemma {:induction false} FindLate(s0: State, run: seq<Action>, s: State, t: nat)
      returns (before: seq<Action>, s2: State, late: Ev, latch: Row, rest: seq<Action>)
    requires Init(s0) && Exec(s0, run) == Some(s) && t < |s.pcs| && Tail(s.pcs[t])
    ensures Exec(s0, before) == Some(s2) && Enabled(s2, Act(t, late, latch))
    ensures s2.pcs[t].CapLate? && s2.pcs[t].d.g == TailGroup(s.pcs[t])
    ensures Exec(DoAct(s2, t, late, latch), rest) == Some(s) && StaysLocked(t, rest)
    decreases |run|
  {
    assert run != [];
    var s' := ExecLast(s0, run, s);
    var a := run[|run| - 1];
    if a.Act? && a.t == t {
      if s'.pcs[t].Rest? { StartsElsewhere(a.ev.op); } else { TailFrom(s'.pcs[t], a.ev); }
    }
    if a.Act? && a.t == t && s'.pcs[t].CapLate? {
      before, s2, late, latch, rest := run[..|run| - 1], s', a.ev, a.latch, [];
    } else {
      before, s2, late, latch, rest := FindLate(s0, run[..|run| - 1], s', t);
      ExecAppend(DoAct(s2, t, late, latch), rest, s', a);
      rest := rest + [a];
    }
  }

  lemma {:induction false} FindFire(s0: State, run: seq<Action>, s: State, t: nat)
      returns (before: seq<Action>, s1: State, fire: Ev, latch: Row, wait: seq<Action>)
    requires Init(s0) && Exec(s0, run) == Some(s) && t < |s.pcs| && s.pcs[t].CapLate?
    ensures Exec(s0, before) == Some(s1) && Enabled(s1, Act(t, fire, latch))
    ensures s1.pcs[t].CapFire? && s1.pcs[t].d == s.pcs[t].d
    ensures Exec(DoAct(s1, t, fire, latch), wait) == Some(s) && NotBy(t, wait)
    decreases |run|
  {
    assert run != [];
    var s' := ExecLast(s0, run, s);
    var a := run[|run| - 1];
    if a.Act? && a.t == t {
      if s'.pcs[t].Rest? { StartsElsewhere(a.ev.op); } else { TailFrom(s'.pcs[t], a.ev); }
      before, s1, fire, latch, wait := run[..|run| - 1], s', a.ev, a.latch, [];
    } else {
      before, s1, fire, latch, wait := FindFire(s0, run[..|run| - 1], s', t);
      ExecAppend(DoAct(s1, t, fire, latch), wait, s', a);
      wait := wait + [a];
    }
  }

  /** Only the firing write looks at the words to latch. */
  lemma {:induction false} LatchUnused(s: State, t: nat, ev: Ev, latch: Row, other: Row)
    requires Enabled(s, Act(t, ev, latch)) && !s.pcs[t].CapFire?
    ensures Enabled(s, Act(t, ev, other)) && DoAct(s, t, ev, other) == DoAct(s, t, ev, latch)
  {
  }

  /** Every merge of every run ends a capture that fired and read the late status before it. */
  lemma {:induction false} EveryMergeHasACapture(
      s0: State, run: seq<Action>, s: State, t: nat, ev: Ev, latch: Row, k: Index)
      returns (before: seq<Action>, c: Capture)
    requires Init(s0) && s0.size >= EPU_SPAN && Exec(s0, run) == Some(s)
    requires Enabled(s, Act(t, ev, latch)) && s.pcs[t].CapMerge? && s.pcs[t].i == k
    ensures CaptureIn(s0, before, c, k) && c.t == t && c.s3 == s && c.s4 == DoAct(s, t, ev, latch)
  {
    InvInit(s0);
    InvRun(s0, run, s);
    var upto, s2, late, latch2, rest := FindLate(s0, run, s, t);
    var s1, fire, latch1, wait;
    before, s1, fire, latch1, wait := FindFire(s0, upto, s2, t);
    LatchUnused(s2, t, late, latch2, latch1);
    LatchUnused(s, t, ev, latch, latch1);
    c := Capture(t, s1, fire, latch1, wait, s2, late, rest, s, ev, DoAct(s, t, ev, latch));
    assert Sound(s.pcs[t]);
    assert Fires(c, k) && Merges(c, k);
    assert forall m: Marker :: IsCaptureIn(m, s0, before, c, k);
  }

  /**
   Every value a run captures, while the overflow word stays below 2^63: from the books at its firing write and
   its late status read it is explained modulo 2^64, and exactly below 2^32.
   */
  lemma {:induction false} EveryCapturedValue(
      s0: State, run: seq<Action>, s: State, t: nat, ev: Ev, latch: Row, k: Index)
      returns (before: seq<Action>, c: Capture)
    requires Init(s0) && s0.size >= EPU_SPAN && Exec(s0, run) == Some(s)
    requires Enabled(s, Act(t, ev, latch)) && s.pcs[t].CapMerge? && s.pcs[t].i == k
    requires Total(DoAct(s, t, ev, latch).book[k]) < TWO_63
    ensures CaptureIn(s0, before, c, k) && c.t == t && c.s3 == s && c.s4 == DoAct(s, t, ev, latch)
    ensures Accounted(c.s1.book[k], c.s2.book[k], DoAct(s, t, ev, latch).book[k], Skew(c, k))
  {
    before, c := EveryMergeHasACapture(s0, run, s, t, ev, latch, k);
    CapturedValueExact(s0, before, c, k);
  }
}
