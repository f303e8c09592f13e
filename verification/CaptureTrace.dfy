/**
 The accesses of a successful capture written out in order, and the automaton's captures: it accepts
 exactly these, and over a map that holds the EPU it fails exactly when the group field is non-zero.
 */
module CaptureTrace {
  import opened Bits
  import opened Options
  import opened Protocol
  import opened Sequential

  // ----- reference order, in the offsets of the hardware

  /** The group number as it is computed: the bits 4 to 6 of the word, shifted left by 20. */
  function GroupNumber(sel: u32): nat {
    And(sel, 0x70) * 0x10_0000
  }

  lemma {:induction false} AndStep(a: nat, b: nat)
    ensures And(a, b) == 2 * And(a / 2, b / 2) + (if a % 2 == 1 && b % 2 == 1 then 1 else 0)
  {
  }

  lemma Sixteenth(a: nat)
    ensures a / 2 / 2 / 2 / 2 == a / 16
  {
  }

  lemma {:induction false} FieldBits(sel: nat)
    ensures And(sel, 0x70) == 16 * And(sel / 2 / 2 / 2 / 2, 7)
  {
    AndStep(sel, 0x70);
    AndStep(sel / 2, 0x38);
    AndStep(sel / 2 / 2, 0x1C);
    AndStep(sel / 2 / 2 / 2, 0xE);
  }

  lemma {:induction false} GroupNumberIs(sel: u32)
    ensures GroupNumber(sel) == Group(sel)
  {
    FieldBits(sel);
    Sixteenth(sel);
    ThreeBits(sel / 16);
  }

  lemma {:induction false} NoMask(a: nat)
    ensures And(a, 0) == 0
  {
    if a > 0 { NoMask(a / 2); }
  }

  lemma ThreeParts(a: nat)
    ensures a % 8 == 4 * (a / 2 / 2 % 2) + 2 * (a / 2 % 2) + a % 2
  {
    var b := a / 2;
    var c := b / 2;
    assert a == 8 * (c / 2) + (4 * (c % 2) + 2 * (b % 2) + a % 2);
  }

  lemma {:induction false} TwoBits(b: nat)
    ensures And(b, 3) == 2 * (b / 2 % 2) + b % 2
  {
    AndStep(b, 3);
    AndStep(b / 2, 1);
    NoMask(b / 2 / 2);
  }

  lemma {:induction false} ThreeBits(a: nat)
    ensures And(a, 7) == a % 8
  {
    AndStep(a, 7);
    TwoBits(a / 2);
    ThreeParts(a);
  }

  /** Old capture words of the group members from `i` on, each saved as it is read. */
  function OldTail(d: Cap, i: Count): seq<Ev>
    decreases Shr(d.g, i)
  {
    NonZeroIsLow(d.g, i);
    if Shr(d.g, i) == 0 then []
    else if Bit(d.g, i) then [Rd(0xB00 + 4 * i, d.c0[i]), Save(i, d.c0[i])] + OldTail(d, i + 1)
    else OldTail(d, i + 1)
  }

  /** New capture words of the group members from `i` on, each merged as it is read. */
  function NewTail(d: Cap, i: Count): seq<Ev>
    decreases Shr(d.g, i)
  {
    NonZeroIsLow(d.g, i);
    if Shr(d.g, i) == 0 then []
    else if Bit(d.g, i) then [Rd(0xB00 + 4 * i, d.c1[i]), Merge(i, d.c1[i])] + NewTail(d, i + 1)
    else NewTail(d, i + 1)
  }

  /** Serving a status word: nothing for a zero word. */
  function Served(size: nat, mask: u32): seq<Ev> {
    if mask == 0 then [] else UpdTrace(size, mask)
  }

  function FromLate(size: nat, d: Cap): seq<Ev> {
    [Rd(0x30, d.t)] + (Served(size, d.t) + NewTail(d, 0))
  }

  function FromFire(size: nat, d: Cap): seq<Ev> {
    [Wr(0x300 + 4 * d.e, OrWord(d.ctl, 0x0100_0000))] + FromLate(size, d)
  }

  function FromLast(size: nat, d: Cap): seq<Ev> {
    [Rd(0x30 + 4 * d.n, d.s)] + (Served(size, d.s) + FromFire(size, d))
  }

  function FromControl(size: nat, d: Cap): seq<Ev> {
    [Rd(0x300 + 4 * d.e, d.ctl)] + FromLast(size, d)
  }

  function FromGroup(size: nat, d: Cap): seq<Ev> {
    [Rd(0x540 + 4 * GroupNumber(d.sel), d.g)] + (OldTail(d, 0) + FromControl(size, d))
  }

  function FromSelect(size: nat, d: Cap): seq<Ev> {
    [Rd(0x480 + 4 * d.e, d.sel)] + FromGroup(size, d)
  }

  /** Lock, select the group, save the old words, serve the status, fire, serve the late status, merge. */
  function FullTrace(size: nat, d: Cap): seq<Ev> {
    [Lock] + FromSelect(size, d)
  }

  // ----- what remains at a control point

  predicate SameStart(d: Cap, f: Cap) {
    d.e == f.e && d.sel == f.sel && d.g == f.g
  }

  predicate SameSaved(d: Cap, f: Cap, i: nat) {
    SameStart(d, f) && forall k :: 0 <= k < i && k < 32 ==> d.c0[k] == f.c0[k]
  }

  /** Everything read before the capture fired. */
  predicate SameFired(d: Cap, f: Cap) {
    SameSaved(d, f, 32) && d.n == f.n && d.ctl == f.ctl && d.s == f.s
  }

  predicate SameLate(d: Cap, f: Cap, i: nat) {
    SameFired(d, f) && d.t == f.t && forall k :: 0 <= k < i && k < 32 ==> d.c1[k] == f.c1[k]
  }

  predicate AgreeCont(k: Cont, f: Cap) {
    match k
    case KIrq => false
    case KFire(d) => SameFired(d, f)
    case KNew(d) => SameLate(d, f, 0)
  }

  /** What has been read at `pc` is a part of `f`. */
  predicate Agree(pc: Pc, f: Cap) {
    match pc
    case CapLock(e) => e == f.e
    case CapSel(e) => e == f.e
    case CapGrp(e, sel) => e == f.e && sel == f.sel
    case CapOld(d, i) => SameSaved(d, f, i)
    case CapSave(d, i) => SameSaved(d, f, i + 1)
    case CapCtl(d) => SameSaved(d, f, 32) && d.n == f.n
    case CapLast(d) => SameSaved(d, f, 32) && d.n == f.n && d.ctl == f.ctl
    case Clear(_, k) => AgreeCont(k, f)
    case Bump(_, _, k) => AgreeCont(k, f)
    case Zero(_, _, k) => AgreeCont(k, f)
    case CapFire(d) => SameFired(d, f)
    case CapLate(d) => SameFired(d, f)
    case CapNew(d, i) => SameLate(d, f, i)
    case CapMerge(d, i) => SameLate(d, f, i + 1)
    case Exit(out) => out == Captured(f)
    case _ => false
  }

  function RestCont(size: nat, k: Cont, f: Cap): seq<Ev> {
    match k
    case KIrq => []
    case KFire(_) => FromFire(size, f)
    case KNew(_) => NewTail(f, 0)
  }

  /** An update that has just counted bit `i`. */
  function ZeroTail(size: nat, mask: u32, i: Index): seq<Ev> {
    if 0xA00 + 4 * i < size then [Wr(0xA00 + 4 * i, 0)] + UpdTail(size, mask, i + 1) else [Fault(0xA00 + 4 * i)]
  }

  /** The accesses still to come at `pc` in a capture that ends as `f`. */
  function Remaining(size: nat, pc: Pc, f: Cap): seq<Ev> {
    match pc
    case CapLock(_) => FullTrace(size, f)
    case CapSel(_) => FromSelect(size, f)
    case CapGrp(_, _) => FromGroup(size, f)
    case CapOld(_, i) => OldTail(f, i) + FromControl(size, f)
    case CapSave(_, i) => [Save(i, f.c0[i])] + (OldTail(f, i + 1) + FromControl(size, f))
    case CapCtl(_) => FromControl(size, f)
    case CapLast(_) => FromLast(size, f)
    case Clear(mask, k) => UpdTrace(size, mask) + RestCont(size, k, f)
    case Bump(mask, i, k) => UpdTail(size, mask, i) + RestCont(size, k, f)
    case Zero(mask, i, k) => ZeroTail(size, mask, i) + RestCont(size, k, f)
    case CapFire(_) => FromFire(size, f)
    case CapLate(_) => FromLate(size, f)
    case CapNew(_, i) => NewTail(f, i)
    case CapMerge(_, i) => [Merge(i, f.c1[i])] + NewTail(f, i + 1)
    case _ => []
  }

  lemma {:induction false} OldRemaining(size: nat, d: Cap, i: Count, f: Cap)
    requires Agree(ScanOld(d, i), f)
    ensures SameSaved(d, f, i)
    ensures Remaining(size, ScanOld(d, i), f) == OldTail(f, i) + FromControl(size, f)
    decreases Shr(d.g, i)
  {
    NonZeroIsLow(d.g, i);
    if Shr(d.g, i) != 0 && !Bit(d.g, i) {
      OldRemaining(size, d, i + 1, f);
    } else if Shr(d.g, i) == 0 {
      assert d.g == f.g;
    }
  }

  lemma {:induction false} NewRemaining(size: nat, d: Cap, i: Count, f: Cap)
    requires Agree(ScanNew(d, i), f)
    ensures SameLate(d, f, i)
    ensures Remaining(size, ScanNew(d, i), f) == NewTail(f, i)
    decreases Shr(d.g, i)
  {
    NonZeroIsLow(d.g, i);
    if Shr(d.g, i) != 0 && !Bit(d.g, i) {
      NewRemaining(size, d, i + 1, f);
    }
  }

  lemma {:induction false} ScanRemaining(size: nat, mask: u32, i: Count, k: Cont, f: Cap)
    requires Agree(Scan(mask, i, k), f)
    ensures AgreeCont(k, f)
    ensures Remaining(size, Scan(mask, i, k), f) == UpdTail(size, mask, i) + RestCont(size, k, f)
    decreases Shr(mask, i)
  {
    NonZeroIsLow(mask, i);
    if Shr(mask, i) == 0 {
      if k.KNew? { NewRemaining(size, k.d, 0, f); }
    } else if !Bit(mask, i) {
      ScanRemaining(size, mask, i + 1, k, f);
    }
  }

  /** One access of a capture that ends as `f`: the reference order names it next. */
  lemma {:induction false} StepRemaining(size: nat, pc: Pc, ev: Ev, f: Cap)
    requires Sound(pc) && (Critical(pc) || pc.CapLock?) && Own(ev) && Legal(size, ev) && !ev.Unlock?
    requires Next(pc, ev).Some? && Agree(Next(pc, ev).value, f)
    ensures Agree(pc, f) && Remaining(size, pc, f) == [ev] + Remaining(size, Next(pc, ev).value, f)
  {
    NextIsAfter(pc, ev);
    if ev.Fault? {
      FaultRemaining(size, pc, ev, f);
    } else {
      StepRemainingAfter(size, pc, ev, f);
    }
  }

  lemma {:induction false} StepRemainingAfter(size: nat, pc: Pc, ev: Ev, f: Cap)
    requires !pc.Rest? && !pc.Exit?
    requires Sound(pc) && !ev.Fault? && !ev.Unlock? && Legal(size, ev)
    requires Next(pc, ev) == Some(After(pc, ValueOf(ev))) && Agree(After(pc, ValueOf(ev)), f)
    ensures Agree(pc, f) && Remaining(size, pc, f) == [ev] + Remaining(size, After(pc, ValueOf(ev)), f)
  {
    if pc.CapLock? || pc.CapSel? || pc.CapGrp? {
      SelectRemaining(size, pc, ev, f);
    } else if pc.CapOld? || pc.CapSave? {
      SaveRemaining(size, pc, ev, f);
    } else if pc.CapLast? {
      LastRemaining(size, pc.d, ev.val, f);
    } else if pc.Bump? {
      BumpRemaining(size, pc, ev, f);
    } else if pc.Clear? || pc.Zero? {
      UpdateRemaining(size, pc, ev, f);
    } else if pc.CapLate? {
      LateRemaining(size, pc.d, ev.val, f);
    } else if pc.CapNew? {
      NewRemainingRead(size, pc, ev, f);
    } else if pc.CapMerge? {
      MergeRemaining(size, pc, ev, f);
    } else {
      FireRemaining(size, pc, ev, f);
    }
  }

  lemma {:induction false} SelectRemaining(size: nat, pc: Pc, ev: Ev, f: Cap)
    requires pc.CapLock? || pc.CapSel? || pc.CapGrp?
    requires Sound(pc) && !ev.Fault? && !ev.Unlock? && Legal(size, ev)
    requires Next(pc, ev) == Some(After(pc, ValueOf(ev))) && Agree(After(pc, ValueOf(ev)), f)
    ensures Agree(pc, f) && Remaining(size, pc, f) == [ev] + Remaining(size, After(pc, ValueOf(ev)), f)
  {
    if pc.CapGrp? {
      GroupNumberIs(pc.sel);
      OldRemaining(size, Cap(pc.e, pc.sel, ev.val, 0, 0, 0, 0, ZeroRow(), ZeroRow()), 0, f);
    }
  }

  lemma {:induction false} SaveRemaining(size: nat, pc: Pc, ev: Ev, f: Cap)
    requires pc.CapOld? || pc.CapSave?
    requires Sound(pc) && !ev.Fault? && !ev.Unlock? && Legal(size, ev)
    requires Next(pc, ev) == Some(After(pc, ValueOf(ev))) && Agree(After(pc, ValueOf(ev)), f)
    ensures Agree(pc, f) && Remaining(size, pc, f) == [ev] + Remaining(size, After(pc, ValueOf(ev)), f)
  {
    if pc.CapOld? {
      OldTailFirst(size, pc.d, pc.i, ev, f);
    } else {
      OldRemaining(size, pc.d, pc.i + 1, f);
    }
  }

  /** The read of an old capture word. */
  lemma {:induction false} OldTailFirst(size: nat, d: Cap, i: Index, ev: Ev, f: Cap)
    requires ev.Rd? && ev.off == 0xB00 + 4 * i && Bit(d.g, i)
    requires Agree(CapSave(d.(c0 := d.c0[i := ev.val]), i), f)
    ensures Agree(CapOld(d, i), f)
    ensures OldTail(f, i) + FromControl(size, f)
         == [ev] + ([Save(i, f.c0[i])] + (OldTail(f, i + 1) + FromControl(size, f)))
  {
    NonZero(f.g, i);
    assert ev == Rd(0xB00 + 4 * i, f.c0[i]);
    assert OldTail(f, i) == [ev, Save(i, f.c0[i])] + OldTail(f, i + 1);
    FirstOfTwo(ev, Save(i, f.c0[i]), OldTail(f, i + 1), FromControl(size, f));
  }

  lemma {:induction false} FirstOfTwo(a: Ev, b: Ev, more: seq<Ev>, rest: seq<Ev>)
    ensures ([a, b] + more) + rest == [a] + ([b] + (more + rest))
  {
  }

  lemma {:induction false} NewRemainingRead(size: nat, pc: Pc, ev: Ev, f: Cap)
    requires pc.CapNew? && Sound(pc) && !ev.Fault?
    requires Next(pc, ev) == Some(After(pc, ValueOf(ev))) && Agree(After(pc, ValueOf(ev)), f)
    ensures Agree(pc, f) && Remaining(size, pc, f) == [ev] + Remaining(size, After(pc, ValueOf(ev)), f)
  {
    assert ev.Rd?;
    NewTailFirst(pc.d, pc.i, ev, f);
  }

  lemma {:induction false} MergeRemaining(size: nat, pc: Pc, ev: Ev, f: Cap)
    requires pc.CapMerge? && !ev.Fault? && !ev.Unlock?
    requires Next(pc, ev) == Some(After(pc, ValueOf(ev))) && Agree(After(pc, ValueOf(ev)), f)
    ensures Agree(pc, f) && Remaining(size, pc, f) == [ev] + Remaining(size, After(pc, ValueOf(ev)), f)
  {
    assert ev == Merge(pc.i, pc.d.c1[pc.i]);
    NewRemaining(size, pc.d, pc.i + 1, f);
  }

  /** The read of a new capture word. */
  lemma {:induction false} NewTailFirst(d: Cap, i: Index, ev: Ev, f: Cap)
    requires ev.Rd? && ev.off == 0xB00 + 4 * i && Bit(d.g, i)
    requires Agree(CapMerge(d.(c1 := d.c1[i := ev.val]), i), f)
    ensures Agree(CapNew(d, i), f)
    ensures NewTail(f, i) == [ev] + ([Merge(i, f.c1[i])] + NewTail(f, i + 1))
  {
    NonZero(f.g, i);
    assert ev == Rd(0xB00 + 4 * i, f.c1[i]);
    assert NewTail(f, i) == [ev, Merge(i, f.c1[i])] + NewTail(f, i + 1);
  }

  lemma {:induction false} FireRemaining(size: nat, pc: Pc, ev: Ev, f: Cap)
    requires !pc.Rest? && !pc.Exit? && !pc.CapLock? && !pc.CapSel? && !pc.CapGrp? && !pc.CapOld? && !pc.CapSave?
    requires !pc.CapLast? && !pc.Clear? && !pc.Bump? && !pc.Zero? && !pc.CapLate? && !pc.CapNew? && !pc.CapMerge?
    requires Sound(pc) && !ev.Fault? && !ev.Unlock? && Legal(size, ev)
    requires Next(pc, ev) == Some(After(pc, ValueOf(ev))) && Agree(After(pc, ValueOf(ev)), f)
    ensures Agree(pc, f) && Remaining(size, pc, f) == [ev] + Remaining(size, After(pc, ValueOf(ev)), f)
  {
    assert pc.CapCtl? || pc.CapFire?;
  }

  lemma {:induction false} UpdateRemaining(size: nat, pc: Pc, ev: Ev, f: Cap)
    requires pc.Clear? || pc.Zero?
    requires Sound(pc) && !ev.Fault? && !ev.Unlock? && Legal(size, ev)
    requires Next(pc, ev) == Some(After(pc, ValueOf(ev))) && Agree(After(pc, ValueOf(ev)), f)
    ensures Agree(pc, f) && Remaining(size, pc, f) == [ev] + Remaining(size, After(pc, ValueOf(ev)), f)
  {
    if pc.Clear? {
      assert ev == Wr(0x30, pc.mask);
      ScanRemaining(size, pc.mask, 0, pc.k, f);
      Associate([ev], UpdTail(size, pc.mask, 0), RestCont(size, pc.k, f));
    } else {
      assert ev == Wr(0xA00 + 4 * pc.i, 0);
      ScanRemaining(size, pc.mask, pc.i + 1, pc.k, f);
      Associate([ev], UpdTail(size, pc.mask, pc.i + 1), RestCont(size, pc.k, f));
    }
  }

  lemma {:induction false} BumpRemaining(size: nat, pc: Pc, ev: Ev, f: Cap)
    requires pc.Bump?
    requires Sound(pc) && !ev.Fault? && !ev.Unlock? && Legal(size, ev)
    requires Next(pc, ev) == Some(After(pc, ValueOf(ev))) && Agree(After(pc, ValueOf(ev)), f)
    ensures Agree(pc, f) && Remaining(size, pc, f) == [ev] + Remaining(size, After(pc, ValueOf(ev)), f)
  {
    var i: Index := pc.i;
    NonZero(pc.mask, i);
    assert ev == Inc(i);
    BumpTail(size, pc.mask, i);
    Associate([ev], ZeroTail(size, pc.mask, i), RestCont(size, pc.k, f));
  }

  lemma {:induction false} BumpTail(size: nat, mask: u32, i: Index)
    requires Bit(mask, i)
    ensures UpdTail(size, mask, i) == [Inc(i)] + ZeroTail(size, mask, i)
  {
  }

  lemma {:induction false} Associate(a: seq<Ev>, b: seq<Ev>, c: seq<Ev>)
    ensures (a + b) + c == a + (b + c)
  {
  }

  /** The one refusal a capture survives: an access of its first status update. */
  lemma {:induction false} FaultRemaining(size: nat, pc: Pc, ev: Ev, f: Cap)
    requires Critical(pc) && ev.Fault? && Legal(size, ev)
    requires Next(pc, ev) == Some(OnFault(pc)) && Agree(OnFault(pc), f)
    ensures Agree(pc, f) && Remaining(size, pc, f) == [ev] + Remaining(size, OnFault(pc), f)
  {
    assert (pc.Clear? || pc.Zero?) && pc.k.KFire?;
  }

  lemma {:induction false} LastRemaining(size: nat, d: Cap, v: u32, f: Cap)
    requires Agree(After(CapLast(d), v), f)
    ensures Agree(CapLast(d), f) && v == f.s
    ensures Remaining(size, CapLast(d), f)
            == [Rd(0x30 + 4 * d.n, v)] + Remaining(size, After(CapLast(d), v), f)
  {
    if v == 0 {
      assert Served(size, 0) + FromFire(size, f) == FromFire(size, f);
    }
  }

  lemma {:induction false} LateRemaining(size: nat, d: Cap, v: u32, f: Cap)
    requires Agree(After(CapLate(d), v), f)
    ensures Agree(CapLate(d), f) && v == f.t
    ensures Remaining(size, CapLate(d), f) == [Rd(0x30, v)] + Remaining(size, After(CapLate(d), v), f)
  {
    if v == 0 {
      NewRemaining(size, d.(t := v), 0, f);
      assert Served(size, 0) + NewTail(f, 0) == NewTail(f, 0);
    }
  }

  /** Events of one operation up to, and not including, its unlock. */
  predicate Body(tr: seq<Ev>) {
    AllOwn(tr) && forall i :: 0 <= i < |tr| ==> !tr[i].Unlock?
  }

  lemma {:induction false} PathRemaining(size: nat, pc: Pc, tr: seq<Ev>, f: Cap)
    requires Sound(pc) && (Critical(pc) || pc.CapLock?) && Body(tr) && AllLegal(size, tr)
    requires Path(pc, tr, Exit(Captured(f)))
    ensures Agree(pc, f) && tr == Remaining(size, pc, f) && Scanned(f)
    decreases tr
  {
    if tr != [] {
      var ev := tr[0];
      SoundStep(pc, ev);
      CriticalStep(pc, ev);
      assert Legal(size, ev);
      PathRemaining(size, Next(pc, ev).value, tr[1..], f);
      StepRemaining(size, pc, ev, f);
      assert tr == [ev] + tr[1..];
    }
  }

  // ----- the second update must succeed

  predicate NewUpdate(pc: Pc) {
    (pc.Clear? || pc.Bump? || pc.Zero?) && pc.k.KNew?
  }

  predicate MappedFrom(size: nat, mask: u32, i: nat) {
    forall j: nat | i <= j < 32 :: Bit(mask, j) ==> 0xA00 + 4 * j < size
  }

  /** What is left of the second update of a capture that succeeds is mapped. */
  lemma {:induction false} NewUpdateMapped(size: nat, pc: Pc, tr: seq<Ev>, f: Cap)
    requires NewUpdate(pc) && Body(tr) && AllLegal(size, tr) && Path(pc, tr, Exit(Captured(f)))
    ensures pc.Clear? ==> 0x30 < size
    ensures MappedFrom(size, pc.mask, if pc.Clear? then 0 else pc.i)
    decreases tr
  {
    var ev, rest := tr[0], tr[1..];
    assert Legal(size, ev);
    NextIsAfter(pc, ev);
    if ev.Fault? {
      NothingAfterEnd(Exit(CaptureFailed), rest, Captured(f));
    } else {
      var pc', i := After(pc, ValueOf(ev)), if pc.Clear? then 0 else if pc.Bump? then pc.i else pc.i + 1;
      if !pc.Bump? { NextBitIs(pc.mask, i); }
      if NewUpdate(pc') {
        NewUpdateMapped(size, pc', rest, f);
      }
    }
  }

  /** Points of a capture before the late status word is served. */
  predicate BeforeLate(pc: Pc) {
    match pc
    case Clear(_, k) => k.KFire?
    case Bump(_, _, k) => k.KFire?
    case Zero(_, _, k) => k.KFire?
    case CapNew(_, _) => false
    case CapMerge(_, _) => false
    case Exit(_) => false
    case _ => true
  }

  lemma {:induction false} BeforeLateStep(pc: Pc, ev: Ev, f: Cap)
    requires BeforeLate(pc) && (Critical(pc) || pc.CapLock?) && Next(pc, ev).Some? && !ev.Unlock?
    requires Agree(Next(pc, ev).value, f)
    ensures BeforeLate(Next(pc, ev).value) || (pc.CapLate? && ev.Rd? && ev.val == f.t)
    ensures pc.CapLate? && ev.val != 0 ==> Next(pc, ev).value == Clear(f.t, KNew(pc.d.(t := f.t)))
  {
    NextIsAfter(pc, ev);
  }

  lemma {:induction false} LateSucceeds(size: nat, pc: Pc, tr: seq<Ev>, f: Cap)
    requires Sound(pc) && BeforeLate(pc) && (Critical(pc) || pc.CapLock?)
    requires Body(tr) && AllLegal(size, tr) && Path(pc, tr, Exit(Captured(f)))
    ensures f.t == 0 || UpdSucceeds(size, f.t)
    decreases tr
  {
    var ev, rest := tr[0], tr[1..];
    var pc' := Next(pc, ev).value;
    SoundStep(pc, ev);
    CriticalStep(pc, ev);
    PathRemaining(size, pc', rest, f);
    BeforeLateStep(pc, ev, f);
    if BeforeLate(pc') {
      LateSucceeds(size, pc', rest, f);
    } else if f.t != 0 {
      NewUpdateMapped(size, pc', rest, f);
    }
  }

  /**
   Over any map, a successful capture makes exactly the reference accesses, in order, those of a failed first
   update included; its second update has not failed, and the index that the first pass leaves is the one
   right behind the highest group member.
   */
  lemma {:induction false} CaptureAccesses(size: nat, e: Event, tr: seq<Ev>, f: Cap)
    requires Body(tr) && AllLegal(size, tr)
    requires Path(CapLock(e), tr, Exit(Captured(f)))
    ensures f.e == e && tr == FullTrace(size, f)
    ensures f.t == 0 || UpdSucceeds(size, f.t)
    ensures Shr(f.g, f.n) == 0 && (f.n > 0 ==> Bit(f.g, f.n - 1))
  {
    PathRemaining(size, CapLock(e), tr, f);
    LateSucceeds(size, CapLock(e), tr, f);
  }

  /** Control points inside the critical section of a capture. */
  predicate Capturing(pc: Pc) {
    pc.CapSel? || pc.CapGrp? || (PastGroup(pc) && !pc.Exit?)
  }

  lemma {:induction false} CapturingStep(pc: Pc, ev: Ev)
    requires Capturing(pc) && Next(pc, ev).Some?
    ensures var pc' := Next(pc, ev).value;
            Capturing(pc') || pc' == Exit(CaptureFailed) || (pc'.Exit? && pc'.out.Captured?)
    ensures Next(pc, ev).value == Exit(CaptureFailed) ==> ev.Fault?
    ensures ev.Fault? ==> Next(pc, ev).value == Exit(CaptureFailed) || Next(pc, ev).value.CapFire?
  {
    NextIsAfter(pc, ev);
  }

  /** Over any map: the locked part of a capture fails iff the last access it makes is refused. */
  lemma {:induction false} FailsIffRefused(pc: Pc, tr: seq<Ev>, out: Outcome)
    requires Capturing(pc) && Body(tr) && Path(pc, tr, Exit(out))
    ensures tr != [] && (out.Captured? || out == CaptureFailed)
    ensures out == CaptureFailed <==> tr[|tr| - 1].Fault?
    decreases tr
  {
    var pc' := Next(pc, tr[0]).value;
    CapturingStep(pc, tr[0]);
    if Capturing(pc') {
      FailsIffRefused(pc', tr[1..], out);
    } else {
      NothingAfterEnd(pc', tr[1..], out);
    }
  }

  // ----- all or nothing

  /** The group was read: only the end of the capture is left to reach. */
  predicate PastGroup(pc: Pc) {
    match pc
    case CapOld(_, _) => true
    case CapSave(_, _) => true
    case CapCtl(_) => true
    case CapLast(_) => true
    case Clear(_, k) => !k.KIrq?
    case Bump(_, _, k) => !k.KIrq?
    case Zero(_, _, k) => !k.KIrq?
    case CapFire(_) => true
    case CapLate(_) => true
    case CapNew(_, _) => true
    case CapMerge(_, _) => true
    case Exit(out) => out.Captured?
    case _ => false
  }

  lemma {:induction false} PastAfter(pc: Pc, v: u32)
    requires PastGroup(pc) && !pc.Exit?
    ensures PastGroup(After(pc, v))
  {
  }

  lemma {:induction false} PastPath(size: nat, pc: Pc, tr: seq<Ev>, end: Pc)
    requires size >= EPU_SPAN && PastGroup(pc) && Body(tr) && AllLegal(size, tr) && Path(pc, tr, end)
    ensures PastGroup(end)
    decreases tr
  {
    if tr != [] {
      var ev := tr[0];
      NextIsAfter(pc, ev);
      if ev.Fault? {
        FarFault(pc, ev);
      } else {
        PastAfter(pc, ValueOf(ev));
        PastPath(size, Next(pc, ev).value, tr[1..], end);
      }
    }
  }

  /** The accesses of a capture whose group-mask read is refused. */
  function RefusedTrace(e: Event, sel: u32): seq<Ev> {
    [Lock, Rd(0x480 + 4 * e, sel), Fault(0x540 + 4 * GroupNumber(sel))]
  }

  /** A non-zero group field addresses the mask register far behind any map of the EPU. */
  lemma {:induction false} GroupIsFar(sel: u32)
    ensures Group(sel) == 0 || Group(sel) >= 0x100_0000
    ensures Group(sel) == 0 <==> sel / 0x10 % 8 == 0
  {
  }

  /**
   For every EPU map from the end of the register file up to the first non-zero group, a capture fails
   exactly when its event's group field is non-zero, before any register or counter is touched.
   */
  lemma {:induction false} CaptureAllOrNothing(size: nat, e: Event, tr: seq<Ev>, out: Outcome, r: Soft)
    requires EPU_SPAN <= size <= 0x0400_0540 && Body(tr) && AllLegal(size, tr)
    requires Path(CapLock(e), tr, Exit(out))
    ensures |tr| > 1 && tr[1].Rd?
    ensures out.Captured? || out == CaptureFailed
    ensures out == CaptureFailed <==> tr[1].val / 0x10 % 8 != 0
    ensures out == CaptureFailed ==> tr == RefusedTrace(e, tr[1].val) && Replay(r, tr) == r
  {
    GroupIsFar(tr[1].val);
    GroupNumberIs(tr[1].val);
    var sel := tr[1].val;
    var t2 := tr[1..][1..];
    assert Path(CapSel(e), tr[1..], Exit(out)) && Path(CapGrp(e, sel), t2, Exit(out));
    assert t2[0] == tr[2];
    if Group(sel) == 0 {
      assert t2[0].Rd?;
      var pc := ScanOld(Cap(e, sel, t2[0].val, 0, 0, 0, 0, ZeroRow(), ZeroRow()), 0);
      PastPath(size, pc, t2[1..], Exit(out));
    } else {
      assert t2[0] == Fault(0x540 + 4 * GroupNumber(sel));
      assert Path(Exit(CaptureFailed), t2[1..], Exit(out));
      assert t2[1..] == [];
      assert tr == RefusedTrace(e, sel);
      RefusedChangesNothing(e, sel, r);
    }
  }

  lemma {:induction false} RefusedChangesNothing(e: Event, sel: u32, r: Soft)
    ensures Replay(r, RefusedTrace(e, sel)) == r
  {
    var tr := RefusedTrace(e, sel);
    assert tr[1..] == [Rd(0x480 + 4 * e, sel), Fault(0x540 + 4 * GroupNumber(sel))];
    ReplayTwo(r, Rd(0x480 + 4 * e, sel), Fault(0x540 + 4 * GroupNumber(sel)));
  }

  /**
   The registers after any complete capture over a map that holds the EPU, as a function of the words
   read: one overflow increment per set bit of either status word, one more for each group member whose
   capture word fell, and the composed value of every group member.
   */
  lemma {:induction false} CaptureEffect(size: nat, e: Event, tr: seq<Ev>, f: Cap, r: Soft, k: Index)
    requires size >= EPU_SPAN && Body(tr) && AllLegal(size, tr)
    requires Path(CapLock(e), tr, Exit(Captured(f)))
    ensures var twice := IncTimes(r.vcntr[k], (if Bit(f.s, k) then 1 else 0) + (if Bit(f.t, k) then 1 else 0));
            var high := if Bit(f.g, k) && f.c1[k] < f.c0[k] then PlainInc(twice) else twice;
            && Replay(r, tr).vcntr[k] == high
            && Replay(r, tr).capt[k] == (if Bit(f.g, k) then high % TWO_32 * TWO_32 + f.c1[k] else r.capt[k])
            && Replay(r, tr).mirror == r.mirror
  {
    OperationMeaning(size, CapLock(e), tr, Exit(Captured(f)), r, r);
    assert IncTimes(r.vcntr[k], 1) == VInc(IncTimes(r.vcntr[k], 0));
  }

  // ----- the mirror read and the handler

  /** At the end of a critical section only the unlock is left, and a leaked lock leaves nothing. */
  lemma {:induction false} NothingAfterEnd(pc: Pc, tr: seq<Ev>, out: Outcome)
    requires pc.Exit? || pc.Leaked?
    requires Body(tr) && Path(pc, tr, Exit(out))
    ensures tr == [] && pc == Exit(out)
  {
    if tr != [] { NextIsAfter(pc, tr[0]); }
  }

  /** A mirror read that succeeds reads the event's control register once, and stores and returns that word. */
  lemma {:induction false} MirrorAccesses(e: Event, tr: seq<Ev>, out: Outcome)
    requires Body(tr) && Path(MirLock(e), tr, Exit(out))
    ensures |tr| == 3 && tr[1].Rd? && out == Mirrored(e, tr[1].val)
    ensures tr == [Lock, Rd(0x300 + 4 * e, tr[1].val), Mirror(e, tr[1].val)]
  {
    var t1 := tr[1..];
    MirrorTail(e, t1, out);
    assert tr == [Lock] + t1;
  }

  lemma {:induction false} MirrorTail(e: Event, tr: seq<Ev>, out: Outcome)
    requires Body(tr) && Path(MirRead(e), tr, Exit(out))
    ensures |tr| == 2 && tr[0].Rd? && out == Mirrored(e, tr[0].val)
    ensures tr == [Rd(0x300 + 4 * e, tr[0].val), Mirror(e, tr[0].val)]
  {
    var ev, rest := tr[0], tr[1..];
    if ev.Fault? {
      NothingAfterEnd(Leaked, rest, out);
    } else {
      NothingAfterEnd(Exit(Mirrored(e, ev.val)), rest[1..], out);
      assert tr == [ev, rest[0]] + rest[1..];
    }
  }

  /** Control points of an update that a handler makes. */
  predicate Updating(pc: Pc) {
    (pc.Clear? || pc.Bump? || pc.Zero?) && pc.k.KIrq?
  }

  lemma {:induction false} UpdateStep(size: nat, pc: Pc, a: Ev, b: Ev)
    requires Updating(pc) && Legal(size, a) && Legal(size, b) && Next(pc, a).Some? && Next(pc, b).Some?
    ensures a == b && (Updating(Next(pc, a).value) || Next(pc, a).value.Exit?)
  {
    NextIsAfter(pc, a);
  }

  /** An update reads nothing, so the size of the map decides all of its accesses. */
  lemma {:induction false} UpdateIsDetermined(
      size: nat, pc: Pc, a: seq<Ev>, b: seq<Ev>, enda: Outcome, endb: Outcome)
    requires Updating(pc) || pc.Exit?
    requires Body(a) && AllLegal(size, a) && Path(pc, a, Exit(enda))
    requires Body(b) && AllLegal(size, b) && Path(pc, b, Exit(endb))
    ensures a == b && enda == endb
    decreases a
  {
    if Updating(pc) {
      assert Legal(size, a[0]) && Legal(size, b[0]);
      UpdateStep(size, pc, a[0], b[0]);
      UpdateIsDetermined(size, Next(pc, a[0]).value, a[1..], b[1..], enda, endb);
      assert a == [a[0]] + a[1..] && b == [b[0]] + b[1..];
    } else {
      NothingAfterEnd(pc, a, enda);
      NothingAfterEnd(pc, b, endb);
    }
  }

  lemma {:induction false} UpdTraceLegal(size: nat, mask: u32)
    ensures Body(UpdTrace(size, mask)) && AllLegal(size, UpdTrace(size, mask))
  {
    UpdateMeaning(size, mask, Soft(ZeroRow(), ZeroRow(), seq(17, i => 0)));
    UpdTailOwn(size, mask, 0);
  }

  lemma {:induction false} UpdTailOwn(size: nat, mask: u32, i: Count)
    ensures Body(UpdTail(size, mask, i))
    decreases Shr(mask, i)
  {
    NonZeroIsLow(mask, i);
    if Shr(mask, i) != 0 { UpdTailOwn(size, mask, i + 1); }
  }

  /** A handler that takes the lock reads the status register before, and then serves exactly the word it read. */
  lemma {:induction false} HandlerAccesses(size: nat, tr: seq<Ev>, out: Outcome)
    requires Body(tr) && AllLegal(size, tr) && Path(IrqRead, tr, Exit(out))
    ensures |tr| > 1 && tr[0].Rd? && tr[0].val != 0
    ensures tr == [Rd(0x30, tr[0].val), Lock] + UpdTrace(size, tr[0].val)
    ensures out == if UpdSucceeds(size, tr[0].val) then IrqDone(tr[0].val) else IrqFailed
  {
    var t1 := tr[1..];
    RestIsStuck(t1, out);
    var mask := tr[0].val;
    assert Path(IrqLock(mask), t1, Exit(out));
    var t2 := t1[1..];
    assert Path(Clear(mask, KIrq), t2, Exit(out));
    UpdateFollowsProtocol(size, mask, KIrq);
    UpdTraceLegal(size, mask);
    UpdateIsDetermined(size, Clear(mask, KIrq), t2, UpdTrace(size, mask), out, UpdReturn(size, mask, KIrq).out);
    assert tr == [tr[0], t1[0]] + t2;
  }

  /** Within one operation nothing follows a return that took no lock. */
  lemma {:induction false} RestIsStuck(tr: seq<Ev>, out: Outcome)
    requires Body(tr)
    ensures forall o: Outcome :: !Path(Rest(o), tr, Exit(out))
  {
    forall o: Outcome ensures !Path(Rest(o), tr, Exit(out)) {
      if tr != [] { assert Own(tr[0]); }
    }
  }
}
