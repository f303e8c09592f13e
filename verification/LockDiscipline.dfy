/**
 `vc_lock` over every run: mutual exclusion, the one path that never releases it, and a bound on the
 number of actions after which every other holder has released it.
 */
module LockDiscipline {
  import opened Bits
  import opened Options
  import opened Protocol
  import opened Sequential
  import opened Epu
  import opened Interleaving

  lemma {:induction false} MutualExclusion(s0: State, run: seq<Action>, s: State, t: nat, u: nat)
    requires Init(s0) && Exec(s0, run) == Some(s)
    requires t < |s.pcs| && u < |s.pcs| && Critical(s.pcs[t]) && Critical(s.pcs[u])
    ensures t == u && s.lock == Some(t)
  {
    InvInit(s0);
    InvRun(s0, run, s);
  }

  // ----- the leak

  /** First offset behind the last event-control register a mirror read can name. */
  const MIRROR_SPAN: nat := 0x341

  ghost predicate NobodyLeaked(s: State) {
    forall t :: 0 <= t < |s.pcs| ==> s.pcs[t] != Leaked
  }

  lemma {:induction false} OnlyMirrorReadLeaks(pc: Pc, ev: Ev)
    requires Next(pc, ev).Some? && pc != Leaked
    ensures Next(pc, ev).value == Leaked <==> pc.MirRead? && ev.Fault?
  {
    if !pc.Rest? {
      NextIsAfter(pc, ev);
    }
  }

  lemma {:induction false} NoLeakRun(s: State, run: seq<Action>, s': State)
    requires NobodyLeaked(s) && s.size >= MIRROR_SPAN && Exec(s, run) == Some(s')
    ensures NobodyLeaked(s')
    decreases run
  {
    if run != [] {
      var a := run[0];
      if a.Act? {
        OnlyMirrorReadLeaks(s.pcs[a.t], a.ev);
      }
      NoLeakRun(Do(s, a), run[1..], s');
    }
  }

  /** Over a map that holds the event-control registers the lock is never left behind. */
  lemma {:induction false} NeverLeaked(s0: State, run: seq<Action>, s: State)
    requires Init(s0) && Exec(s0, run) == Some(s) && s0.size >= MIRROR_SPAN
    ensures NobodyLeaked(s)
  {
    NoLeakRun(s0, run, s);
  }

  /** Over any smaller map a read of the refused mirror register leaves the lock held. */
  lemma {:induction false} LeakReached(s0: State, t: nat, e: Event, latch: Row)
      returns (run: seq<Action>, s: State)
    requires Init(s0) && t < |s0.pcs| && s0.size <= EPECR + 4 * e
    ensures Exec(s0, run) == Some(s) && t < |s.pcs| && s.pcs[t] == Leaked && s.lock == Some(t)
  {
    var a, b, c := Act(t, Begin(OpMirror(e)), latch), Act(t, Lock, latch), Act(t, Fault(EPECR + 4 * e), latch);
    var s1 := Do(s0, a);
    var s2 := Do(s1, b);
    run, s := [a, b, c], Do(s2, c);
    ExecOne(s2, c);
    ExecCons(s1, b, [c]);
    ExecCons(s0, a, [b, c]);
    assert [b] + [c] == [b, c] && [a] + [b, c] == run;
  }

  lemma {:induction false} ExecOne(s: State, a: Action)
    requires Enabled(s, a)
    ensures Exec(s, [a]) == Some(Do(s, a))
  {
    assert [a][1..] == [];
    assert Exec(Do(s, a), []) == Some(Do(s, a));
  }

  lemma {:induction false} ExecCons(s: State, a: Action, run: seq<Action>)
    requires Enabled(s, a)
    ensures Exec(s, [a] + run) == Exec(Do(s, a), run)
  {
    assert ([a] + run)[1..] == run;
  }

  /** A leaked lock stays taken in every continuation: no handler, capture or mirror read runs again. */
  lemma {:induction false} LeakIsFinal(s: State, run: seq<Action>, s': State, t: nat)
    requires Inv(s) && Exec(s, run) == Some(s') && t < |s.pcs| && s.pcs[t] == Leaked
    ensures t < |s'.pcs| && s'.pcs[t] == Leaked && s'.lock == Some(t)
    decreases run
  {
    assert Critical(s.pcs[t]);
    if run != [] {
      InvStep(s, run[0]);
      LeakIsFinal(Do(s, run[0]), run[1..], s', t);
    }
  }

  // ----- release

  function LoopRank(i: Index): nat {
    2 * (32 - i)
  }

  function ContRank(k: Cont): nat {
    match k
    case KIrq => 1
    case KNew(_) => 67
    case KFire(_) => 136
  }

  /** Bounds the number of actions up to and including the unlock. */
  function Rank(pc: Pc): nat {
    match pc
    case Exit(_) => 1
    case MirStore(_, _) => 2
    case MirRead(_) => 3
    case CapMerge(_, i) => LoopRank(i) + 1
    case CapNew(_, i) => LoopRank(i) + 2
    case Zero(_, i, k) => ContRank(k) + LoopRank(i) + 1
    case Bump(_, i, k) => ContRank(k) + LoopRank(i) + 2
    case Clear(_, k) => ContRank(k) + 67
    case CapLate(_) => 135
    case CapFire(_) => 136
    case CapLast(_) => 204
    case CapCtl(_) => 205
    case CapSave(_, i) => 205 + LoopRank(i) + 1
    case CapOld(_, i) => 205 + LoopRank(i) + 2
    case CapGrp(_, _) => 272
    case CapSel(_) => 273
    case _ => 0
  }

  lemma {:induction false} RankFallsAfter(pc: Pc, v: u32)
    requires Critical(pc) && pc != Leaked && !pc.Exit?
    ensures Rank(After(pc, v)) < Rank(pc)
  {
  }

  lemma {:induction false} RankFallsOnFault(pc: Pc)
    requires Critical(pc) && !pc.MirRead? && (Wanted(pc).WRead? || Wanted(pc).WWrite?)
    ensures Rank(OnFault(pc)) < Rank(pc)
  {
  }

  lemma {:induction false} RankFalls(pc: Pc, ev: Ev)
    requires Critical(pc) && pc != Leaked && Next(pc, ev).Some? && !ev.Unlock?
    requires !(pc.MirRead? && ev.Fault?)
    ensures Rank(Next(pc, ev).value) < Rank(pc)
  {
    NextIsAfter(pc, ev);
    if ev.Fault? {
      RankFallsOnFault(pc);
    } else {
      RankFallsAfter(pc, ValueOf(ev));
    }
  }

  /** The word the hardware answers a read with; words the model does not keep read as zero. */
  function Answer(hw: Hw, off: nat): u32 {
    match Decode(off)
    case Status => hw.isr
    case Counter(k) => hw.ctr[k]
    case CaptureWord(k) => hw.capr[k]
    case _ => 0
  }

  /** What the lock holder does next. */
  function NextEvent(s: State, pc: Pc): Ev {
    match Wanted(pc)
    case WRead(off) => if off < s.size then Rd(off, Answer(s.hw, off)) else Fault(off)
    case WWrite(off, val) => if off < s.size then Wr(off, val) else Fault(off)
    case WSoft(ev) => ev
    case _ => Unlock
  }

  /** A lock holder is never stuck. */
  lemma {:induction false} HolderCanAct(s: State, t: nat)
    requires Inv(s) && s.lock == Some(t) && s.pcs[t] != Leaked
    ensures Enabled(s, Act(t, NextEvent(s, s.pcs[t]), s.hw.capr))
  {
    var pc := s.pcs[t];
    assert Critical(pc);
  }

  predicate OnlyThread(run: seq<Action>, t: nat) {
    forall i :: 0 <= i < |run| ==> run[i].Act? && run[i].t == t
  }

  /** From every reachable state the holder can release the lock by at most 273 actions of its own. */
  lemma {:induction false} ReleaseWithin(s: State, t: nat) returns (run: seq<Action>, s': State)
    requires Inv(s) && s.lock == Some(t) && s.pcs[t] != Leaked && s.size >= MIRROR_SPAN
    ensures Exec(s, run) == Some(s') && OnlyThread(run, t) && s'.lock == None
    ensures |run| <= Rank(s.pcs[t]) <= 273
    decreases Rank(s.pcs[t])
  {
    HolderCanAct(s, t);
    var pc := s.pcs[t];
    var ev := NextEvent(s, pc);
    var a := Act(t, ev, s.hw.capr);
    var s1 := Do(s, a);
    InvStep(s, a);
    if ev.Unlock? {
      run, s' := [a], s1;
      ExecOne(s, a);
      assert pc.Exit?;
    } else {
      OnlyMirrorReadLeaks(pc, ev);
      RankFalls(pc, ev);
      assert s1.lock == Some(t) && s1.pcs[t] == Next(pc, ev).value;
      var rest;
      rest, s' := ReleaseWithin(s1, t);
      run := [a] + rest;
      ExecCons(s, a, rest);
    }
  }

  /** The lock can always be released: no reachable state leaves its holder stuck. */
  lemma {:induction false} LockCanBeReleased(s0: State, before: seq<Action>, s: State, t: nat)
    requires Init(s0) && Exec(s0, before) == Some(s) && s0.size >= MIRROR_SPAN && s.lock == Some(t)
    ensures exists run: seq<Action> ::
              |run| <= 273 && OnlyThread(run, t) && Exec(s, run).Some? && Exec(s, run).value.lock == None
  {
    InvInit(s0);
    InvRun(s0, before, s);
    NeverLeaked(s0, before, s);
    var run, s' := ReleaseWithin(s, t);
  }

  /** How often thread `t` acts in a run. */
  function Turns(run: seq<Action>, t: nat): nat {
    if run == [] then 0 else (if run[0].Act? && run[0].t == t then 1 else 0) + Turns(run[1..], t)
  }

  predicate FreeAfter(s: State, run: seq<Action>, n: nat) {
    n <= |run| && Exec(s, run[..n]).Some? && Exec(s, run[..n]).value.lock == None
  }

  lemma {:induction false} FreeLater(s: State, run: seq<Action>, n: nat)
    requires run != [] && Enabled(s, run[0]) && FreeAfter(Do(s, run[0]), run[1..], n)
    ensures FreeAfter(s, run, n + 1)
  {
    assert run[..n + 1] == [run[0]] + run[1..][..n];
    ExecCons(s, run[0], run[1..][..n]);
  }

  lemma {:induction false} ReleasesAfter(s: State, run: seq<Action>, s': State, t: nat) returns (n: nat)
    requires Inv(s) && Exec(s, run) == Some(s') && s.size >= MIRROR_SPAN
    requires s.lock == Some(t) && s.pcs[t] != Leaked && Turns(run, t) >= Rank(s.pcs[t])
    ensures FreeAfter(s, run, n)
    decreases run
  {
    var pc := s.pcs[t];
    assert Critical(pc) && Rank(pc) >= 1;
    var a := run[0];
    var s1 := Do(s, a);
    InvStep(s, a);
    if a.Act? && a.t == t && a.ev.Unlock? {
      ExecOne(s, a);
      assert run[..1] == [a];
      n := 1;
    } else {
      if a.Act? && a.t == t {
        NextIsAfter(pc, a.ev);
        OnlyMirrorReadLeaks(pc, a.ev);
        RankFalls(pc, a.ev);
      }
      StillHeld(s, a, t);
      n := ReleasesAfter(s1, run[1..], s', t);
      FreeLater(s, run, n);
      n := n + 1;
    }
  }

  /** Only the holder's own unlock releases the lock. */
  lemma {:induction false} StillHeld(s: State, a: Action, t: nat)
    requires Inv(s) && Enabled(s, a) && s.lock == Some(t) && !(a.Act? && a.t == t && a.ev.Unlock?)
    ensures var s1 := Do(s, a);
            s1.lock == Some(t) && s1.size == s.size && t < |s1.pcs|
            && s1.pcs[t] == if a.Act? && a.t == t then Next(s.pcs[t], a.ev).value else s.pcs[t]
  {
    if a.Act? {
      CriticalStep(s.pcs[a.t], a.ev);
    }
  }

  /**
   Every run, whatever the hardware answers and the other threads do: once the holder has acted 273 times
   the lock has been released.
   */
  lemma {:induction false} LockReleased(s0: State, before: seq<Action>, s: State, run: seq<Action>, s': State, t: nat)
    requires Init(s0) && Exec(s0, before) == Some(s) && Exec(s, run) == Some(s')
    requires s0.size >= MIRROR_SPAN && s.lock == Some(t) && Turns(run, t) >= 273
    ensures exists n: nat :: FreeAfter(s, run, n)
  {
    InvInit(s0);
    InvRun(s0, before, s);
    NeverLeaked(s0, before, s);
    RankBound(s.pcs[t]);
    var n := ReleasesAfter(s, run, s', t);
  }

  lemma {:induction false} RankBound(pc: Pc)
    ensures Rank(pc) <= 273
  {
  }
}
