/** Any number of clients reserving and relinquishing at once, access by access. */
module ReservationRuns {
  import opened Bits
  import opened Options
  import opened RegMap
  import opened Reservation

  /** A successful operation. */
  datatype Done = Done(g: Grp, i: nat, reserve: bool)

  /** A usage read of group `g` that returned `val` after the first `at` successful operations. */
  datatype Peek = Peek(g: Grp, val: u32, at: nat)

  type Words = w: seq<u32> | |w| == 4 witness [0, 0, 0, 0]

  datatype State = State(words: Words, lock: Option<nat>, clients: seq<Client>, hist: seq<Done>, peeks: seq<Peek>)

  ghost predicate Init(s: State) {
    s.words == [0, 0, 0, 0] && s.lock == None && s.hist == [] && s.peeks == []
    && forall t :: 0 <= t < |s.clients| ==> s.clients[t] == Ready
  }

  datatype Action =
    | Ask(t: nat, cmd: Cmd, g: Grp, i: Slot)
    | Step(t: nat)
    | Look(t: nat, g: Grp)                             // GET_USAGE, without the lock

  predicate Enabled(s: State, a: Action) {
    && a.t < |s.clients|
    && match a
       case Ask(t, cmd, g, i) => s.clients[t].Ready? && i < Bound(g) && (cmd == Reserve || cmd == Relinq)
       case Look(t, _) => s.clients[t].Ready?
       case Step(t) => !s.clients[t].Ready? && (s.clients[t].Asking? ==> s.lock == None)
  }

  function Do(s: State, a: Action): State
    requires Enabled(s, a)
  {
    match a
    case Ask(t, cmd, g, i) => s.(clients := s.clients[t := Asking(cmd, g, i)])
    case Look(_, g) => s.(peeks := s.peeks + [Peek(g, s.words[g], |s.hist|)])
    case Step(t) =>
      var c := s.clients[t];
      var clients := s.clients[t := Advance(c, if c.Locked? then s.words[c.g] else 0)];
      match c
      case Asking(_, _, _) => s.(lock := Some(t), clients := clients)
      case Storing(cmd, g, i, val) =>
        s.(words := s.words[g := val], clients := clients, hist := s.hist + [Done(g, i, cmd == Reserve)])
      case Leaving(_) => s.(lock := None, clients := clients)
      case _ => s.(clients := clients)
  }

  function Exec(s: State, run: seq<Action>): Option<State>
    decreases run
  {
    if run == [] then Some(s)
    else if Enabled(s, run[0]) then Exec(Do(s, run[0]), run[1..])
    else None
  }

  // ----- what the words mean

  /** The sets the four groups hold. */
  function Sets(s: State): seq<set<nat>> {
    [SetOf(s.words[0]), SetOf(s.words[1]), SetOf(s.words[2]), SetOf(s.words[3])]
  }

  /** Atomic specification: one index of one group is added or removed, or nothing happens. */
  predicate AtomicStep(x: seq<set<nat>>, y: seq<set<nat>>, g: Grp, i: nat, reserve: bool)
    requires |x| == |y| == 4
  {
    && (reserve <==> i !in x[g])
    && y == x[g := if reserve then x[g] + {i} else x[g] - {i}]
  }

  /** The last successful operation on `(g, i)` was a RESERVE. */
  predicate Taken(hist: seq<Done>, g: Grp, i: nat) {
    if hist == [] then false
    else
      var d := hist[|hist| - 1];
      if d.g == g && d.i == i then d.reserve else Taken(hist[..|hist| - 1], g, i)
  }

  /** Every RESERVE finds its resource free and every RELINQ finds it taken. */
  predicate Alternates(hist: seq<Done>) {
    forall p :: 0 <= p < |hist| ==> hist[p].reserve == !Taken(hist[..p], hist[p].g, hist[p].i)
  }

  predicate Holding(c: Client) {
    !c.Ready? && !c.Asking?
  }

  predicate Consistent(words: Words, c: Client) {
    match c
    case Ready => true
    case Asking(cmd, g, i) => i < Bound(g) && (cmd == Reserve || cmd == Relinq)
    case Locked(cmd, g, i) => i < Bound(g) && (cmd == Reserve || cmd == Relinq)
    case Loaded(cmd, g, i, prev) => i < Bound(g) && (cmd == Reserve || cmd == Relinq) && prev == words[g]
    case Storing(cmd, g, i, val) =>
      i < Bound(g) && (cmd == Reserve || cmd == Relinq) && Change(words[g], cmd, i) == (Ok, val)
    case Leaving(_) => true
  }

  ghost predicate Inv(s: State) {
    && (s.lock.Some? ==> s.lock.value < |s.clients|)
    && (forall t :: 0 <= t < |s.clients| ==>
          Consistent(s.words, s.clients[t]) && (Holding(s.clients[t]) <==> s.lock == Some(t)))
    && (forall g: Grp, i: nat :: i in SetOf(s.words[g]) ==> i < Bound(g))
    && (forall g: Grp, i: nat :: i in SetOf(s.words[g]) <==> Taken(s.hist, g, i))
    && Alternates(s.hist)
    && (forall n :: 0 <= n < |s.peeks| ==> TruePeek(s.hist, s.peeks[n]))
  }

  /** The value read is the set left by the operations that were complete at the time, inside its bound. */
  ghost predicate TruePeek(hist: seq<Done>, p: Peek) {
    && p.at <= |hist|
    && (forall i: nat :: i in SetOf(p.val) <==> Taken(hist[..p.at], p.g, i))
    && (forall i: nat :: i in SetOf(p.val) ==> i < Bound(p.g))
  }

  lemma {:induction false} InvInit(s: State)
    requires Init(s)
    ensures Inv(s)
  {
    forall k: nat ensures !Bit(0, k) { ShrZeroStays(0, 0, k); }
  }

  /** A store is one atomic addition or removal; no other index, of any group, is affected. */
  lemma {:induction false} StoreIsAtomic(s: State, t: nat)
    requires Inv(s) && t < |s.clients| && s.clients[t].Storing?
    ensures var c := s.clients[t];
            AtomicStep(Sets(s), Sets(Do(s, Step(t))), c.g, c.i, c.cmd == Reserve)
  {
    var c := s.clients[t];
    ChangeOnSets(s.words[c.g], c.cmd, c.i);
  }

  /** After a store the words still say which resources are taken, all of them inside their bounds. */
  lemma {:induction false} StoreKeepsTaken(s: State, t: nat)
    requires Inv(s) && t < |s.clients| && s.clients[t].Storing?
    ensures var s' := Do(s, Step(t));
            forall g: Grp, i: nat ::
              (i in SetOf(s'.words[g]) <==> Taken(s'.hist, g, i)) && (i in SetOf(s'.words[g]) ==> i < Bound(g))
  {
    var s', c := Do(s, Step(t)), s.clients[t];
    ChangeOnSets(s.words[c.g], c.cmd, c.i);
    assert s'.hist[..|s.hist|] == s.hist;
    forall g: Grp, i: nat
      ensures i in SetOf(s'.words[g]) <==> Taken(s'.hist, g, i)
      ensures i in SetOf(s'.words[g]) ==> i < Bound(g)
    {
      assert i in SetOf(s.words[g]) <==> Taken(s.hist, g, i);
    }
  }

  lemma {:induction false} StoreAlternates(s: State, t: nat)
    requires Inv(s) && t < |s.clients| && s.clients[t].Storing?
    ensures Alternates(Do(s, Step(t)).hist)
  {
    var s', c := Do(s, Step(t)), s.clients[t];
    ChangeOnSets(s.words[c.g], c.cmd, c.i);
    forall p | 0 <= p < |s'.hist|
      ensures s'.hist[p].reserve == !Taken(s'.hist[..p], s'.hist[p].g, s'.hist[p].i)
    {
      if p < |s.hist| {
        assert s'.hist[..p] == s.hist[..p] && s'.hist[p] == s.hist[p];
      } else {
        assert s'.hist[..p] == s.hist && s'.hist[p] == Done(c.g, c.i, c.cmd == Reserve);
        assert c.i in SetOf(s.words[c.g]) <==> Taken(s.hist, c.g, c.i);
      }
    }
  }

  lemma {:induction false} StoreKeepsClients(s: State, t: nat)
    requires Inv(s) && t < |s.clients| && s.clients[t].Storing?
    ensures var s' := Do(s, Step(t));
            forall u :: 0 <= u < |s'.clients| ==>
              Consistent(s'.words, s'.clients[u]) && (Holding(s'.clients[u]) <==> s'.lock == Some(u))
  {
    var s' := Do(s, Step(t));
    assert Holding(s.clients[t]);
    forall u | 0 <= u < |s'.clients|
      ensures Consistent(s'.words, s'.clients[u]) && (Holding(s'.clients[u]) <==> s'.lock == Some(u))
    {
      assert Holding(s.clients[u]) <==> s.lock == Some(u);
    }
  }

  lemma {:induction false} StoreKeepsInv(s: State, t: nat)
    requires Inv(s) && t < |s.clients| && s.clients[t].Storing?
    ensures Inv(Do(s, Step(t)))
  {
    var s' := Do(s, Step(t));
    StoreKeepsTaken(s, t);
    StoreAlternates(s, t);
    StoreKeepsClients(s, t);
    forall n | 0 <= n < |s'.peeks| ensures TruePeek(s'.hist, s'.peeks[n]) {
      assert TruePeek(s.hist, s.peeks[n]);
      assert s'.hist[..s.peeks[n].at] == s.hist[..s.peeks[n].at];
    }
  }

  lemma {:induction false} InvStep(s: State, a: Action)
    requires Inv(s) && Enabled(s, a)
    ensures Inv(Do(s, a))
  {
    if a.Step? && s.clients[a.t].Storing? {
      StoreKeepsInv(s, a.t);
    } else {
      var s' := Do(s, a);
      assert s'.words == s.words && s'.hist == s.hist;
      forall u | 0 <= u < |s'.clients|
        ensures Consistent(s'.words, s'.clients[u]) && (Holding(s'.clients[u]) <==> s'.lock == Some(u))
      {
        assert Consistent(s.words, s.clients[u]) && (Holding(s.clients[u]) <==> s.lock == Some(u));
        assert Consistent(s.words, s.clients[a.t]) && (Holding(s.clients[a.t]) <==> s.lock == Some(a.t));
      }
      forall n | 0 <= n < |s'.peeks| ensures TruePeek(s'.hist, s'.peeks[n]) {
        assert s.hist[..|s.hist|] == s.hist;
        if n < |s.peeks| { assert TruePeek(s.hist, s.peeks[n]); }
      }
    }
  }

  lemma {:induction false} InvRun(s: State, run: seq<Action>, s': State)
    requires Inv(s) && Exec(s, run) == Some(s')
    ensures Inv(s')
    decreases run
  {
    if run != [] {
      InvStep(s, run[0]);
      InvRun(Do(s, run[0]), run[1..], s');
    }
  }

  // ----- results

  /**
   Refinement: in every reachable state every access either leaves the four sets alone or is the store of
   one client and changes exactly its index; a request that fails does so because of the set held then.
   */
  lemma {:induction false} RefinesAtomicSets(s0: State, run: seq<Action>, s: State, a: Action)
    requires Init(s0) && Exec(s0, run) == Some(s) && Enabled(s, a)
    ensures var s', c := Do(s, a), s.clients[a.t];
            if a.Step? && c.Storing? then AtomicStep(Sets(s), Sets(s'), c.g, c.i, c.cmd == Reserve)
            else Sets(s') == Sets(s) && s'.words == s.words
    ensures a.Step? && s.clients[a.t].Loaded? ==>
              var c := s.clients[a.t];
              && (Do(s, a).clients[a.t] == Leaving(EBusy) <==> c.cmd == Reserve && c.i in Sets(s)[c.g])
              && (Do(s, a).clients[a.t] == Leaving(EPerm) <==> c.cmd == Relinq && c.i !in Sets(s)[c.g])
              && (Do(s, a).clients[a.t].Leaving? || Do(s, a).clients[a.t].Storing?)
  {
    InvInit(s0);
    InvRun(s0, run, s);
    var c := s.clients[a.t];
    if a.Step? && c.Storing? {
      StoreIsAtomic(s, a.t);
    }
    if a.Step? && c.Loaded? {
      assert Consistent(s.words, c);
      ChangeOnSets(s.words[c.g], c.cmd, c.i);
    }
  }

  /**
   A lock-free usage read, even in the middle of another client's update, returns the one word that encodes the
   set the group held after some number of complete operations; that set is within the group's bound.
   */
  lemma {:induction false} UsageReadsASet(s0: State, run: seq<Action>, s: State, n: nat, w: u32)
    requires Init(s0) && Exec(s0, run) == Some(s) && n < |s.peeks|
    ensures var p := s.peeks[n];
            && p.at <= |s.hist|
            && (w == p.val <==> forall i: nat :: i in SetOf(w) <==> Taken(s.hist[..p.at], p.g, i))
            && (forall i: nat :: i in SetOf(p.val) ==> i < Bound(p.g))
  {
    InvInit(s0);
    InvRun(s0, run, s);
    var p := s.peeks[n];
    assert TruePeek(s.hist, p);
    if forall i: nat :: i in SetOf(w) <==> Taken(s.hist[..p.at], p.g, i) {
      assert SetOf(w) == SetOf(p.val);
      SetOfInjective(w, p.val);
    }
  }

  /** The words encode the reservations in force, and no bit at or above a group's bound is ever set. */
  lemma {:induction false} WordsEncodeReservations(s0: State, run: seq<Action>, s: State, g: Grp, i: nat)
    requires Init(s0) && Exec(s0, run) == Some(s)
    ensures Bit(s.words[g], i) <==> Taken(s.hist, g, i)
    ensures Bit(s.words[g], i) ==> i < (match g case 0 => 32 case 1 => 4 case _ => 16)
  {
    InvInit(s0);
    InvRun(s0, run, s);
    if Bit(s.words[g], i) { SetBitIsLow(s.words[g], i); }
    assert i in SetOf(s.words[g]) <==> Taken(s.hist, g, i);
  }

  /** Two successive operations on the same resource are of different kinds, and the first one is a RESERVE. */
  lemma {:induction false} ExclusiveReservation(s0: State, run: seq<Action>, s: State, p: nat, q: nat)
    requires Init(s0) && Exec(s0, run) == Some(s) && p < q < |s.hist|
    requires s.hist[p].g == s.hist[q].g && s.hist[p].i == s.hist[q].i
    requires forall m :: p < m < q ==> !(s.hist[m].g == s.hist[q].g && s.hist[m].i == s.hist[q].i)
    ensures s.hist[p].reserve != s.hist[q].reserve
  {
    InvInit(s0);
    InvRun(s0, run, s);
    TakenSkips(s.hist, p, q);
  }

  lemma {:induction false} FirstIsReserve(s0: State, run: seq<Action>, s: State, q: nat)
    requires Init(s0) && Exec(s0, run) == Some(s) && q < |s.hist|
    requires forall m :: 0 <= m < q ==> !(s.hist[m].g == s.hist[q].g && s.hist[m].i == s.hist[q].i)
    ensures s.hist[q].reserve
  {
    InvInit(s0);
    InvRun(s0, run, s);
    TakenNever(s.hist[..q], s.hist[q].g, s.hist[q].i);
  }

  // ----- one call

  /** Steps of one client alone. */
  predicate Alone(run: seq<Action>, t: nat) {
    forall n :: 0 <= n < |run| ==> run[n].t == t
  }

  lemma {:induction false} ExecStep(s: State, a: Action, rest: seq<Action>)
    requires Enabled(s, a)
    ensures Exec(s, [a] + rest) == Exec(Do(s, a), rest)
  {
    assert ([a] + rest)[1..] == rest;
  }

  /** From its test on, a client that is alone ends with the change made and the lock free. */
  lemma {:induction false} FinishAlone(s: State, t: nat) returns (run: seq<Action>, s': State)
    requires t < |s.clients| && s.lock == Some(t) && s.clients[t].Loaded?
    requires s.clients[t].prev == s.words[s.clients[t].g]
    ensures Exec(s, run) == Some(s') && Alone(run, t)
    ensures var c := s.clients[t];
            s'.words == s.words[c.g := Change(s.words[c.g], c.cmd, c.i).1]
            && s'.lock == None && s'.clients == s.clients[t := Ready]
  {
    var c := s.clients[t];
    ChangeOnSets(s.words[c.g], c.cmd, c.i);
    var s1 := Do(s, Step(t));
    var s2 := Do(s1, Step(t));
    if s1.clients[t].Storing? {
      s' := Do(s2, Step(t));
      run := [Step(t)] + ([Step(t)] + ([Step(t)] + []));
      ExecStep(s2, Step(t), []);
      ExecStep(s1, Step(t), [Step(t)] + []);
      ExecStep(s, Step(t), [Step(t)] + ([Step(t)] + []));
    } else {
      s' := s2;
      run := [Step(t)] + ([Step(t)] + []);
      ExecStep(s1, Step(t), []);
      ExecStep(s, Step(t), [Step(t)] + []);
      assert s'.words == s.words[c.g := s.words[c.g]];
    }
  }

  /**
   A call that nobody disturbs, as the ioctl's contract describes it: from free lock to free lock the words of
   the four groups change as `Change` says, at the index of the group alone.
   */
  lemma {:induction false} CallAlone(s: State, t: nat, cmd: Cmd, g: Grp, i: Slot)
      returns (run: seq<Action>, s': State)
    requires t < |s.clients| && s.lock == None && Enabled(s, Ask(t, cmd, g, i))
    ensures Exec(s, run) == Some(s') && Alone(run, t)
    ensures s'.words == s.words[g := Change(s.words[g], cmd, i).1]
    ensures s'.lock == None && s'.clients == s.clients
  {
    var s1 := Do(s, Ask(t, cmd, g, i));
    var s2 := Do(s1, Step(t));
    var s3 := Do(s2, Step(t));
    var rest;
    rest, s' := FinishAlone(s3, t);
    ExecStep(s2, Step(t), rest);
    ExecStep(s1, Step(t), [Step(t)] + rest);
    ExecStep(s, Ask(t, cmd, g, i), [Step(t)] + ([Step(t)] + rest));
    run := [Ask(t, cmd, g, i)] + ([Step(t)] + ([Step(t)] + rest));
    assert s'.clients == s.clients;
  }

  // ----- the lock

  /** Between lock and unlock a client is alone, and it owns the lock. */
  lemma {:induction false} MutualExclusion(s0: State, run: seq<Action>, s: State, t: nat, u: nat)
    requires Init(s0) && Exec(s0, run) == Some(s)
    requires t < |s.clients| && u < |s.clients| && Holding(s.clients[t]) && Holding(s.clients[u])
    ensures t == u && s.lock == Some(t)
  {
    InvInit(s0);
    InvRun(s0, run, s);
  }

  /** Steps a client has left up to and including its unlock. */
  function Rank(c: Client): nat {
    match c
    case Locked(_, _, _) => 4
    case Loaded(_, _, _, _) => 3
    case Storing(_, _, _, _) => 2
    case Leaving(_) => 1
    case _ => 0
  }

  /** How often client `t` acts in a run. */
  function Turns(run: seq<Action>, t: nat): nat {
    if run == [] then 0 else (if run[0].t == t then 1 else 0) + Turns(run[1..], t)
  }

  predicate FreeAfter(s: State, run: seq<Action>, n: nat) {
    n <= |run| && Exec(s, run[..n]).Some? && Exec(s, run[..n]).value.lock == None
  }

  lemma {:induction false} FreeLater(s: State, run: seq<Action>, n: nat)
    requires run != [] && Enabled(s, run[0]) && FreeAfter(Do(s, run[0]), run[1..], n)
    ensures FreeAfter(s, run, n + 1)
  {
    var head := run[..n + 1];
    assert head[0] == run[0] && head[1..] == run[1..][..n];
  }

  lemma {:induction false} ReleasesAfter(s: State, run: seq<Action>, s': State, t: nat) returns (n: nat)
    requires Inv(s) && Exec(s, run) == Some(s') && s.lock == Some(t) && Turns(run, t) >= Rank(s.clients[t])
    ensures FreeAfter(s, run, n)
    decreases run
  {
    assert Holding(s.clients[t]);
    var a := run[0];
    var s1 := Do(s, a);
    InvStep(s, a);
    if s1.lock == None {
      n := 0;
      assert run[1..][..0] == [];
    } else {
      assert s1.lock == Some(t);
      n := ReleasesAfter(s1, run[1..], s', t);
    }
    FreeLater(s, run, n);
    n := n + 1;
  }

  /** In every run the lock has been released by the time its holder has acted four times. */
  lemma {:induction false} LockReleased(s0: State, before: seq<Action>, s: State, run: seq<Action>, s': State, t: nat)
    requires Init(s0) && Exec(s0, before) == Some(s) && Exec(s, run) == Some(s')
    requires s.lock == Some(t) && Turns(run, t) >= 4
    ensures exists n: nat :: FreeAfter(s, run, n)
  {
    InvInit(s0);
    InvRun(s0, before, s);
    var n := ReleasesAfter(s, run, s', t);
  }

  // ----- histories

  /** Operations on other resources do not matter. */
  lemma {:induction false} TakenSkips(hist: seq<Done>, p: nat, q: nat)
    requires p < q < |hist| && hist[p].g == hist[q].g && hist[p].i == hist[q].i
    requires forall m :: p < m < q ==> !(hist[m].g == hist[q].g && hist[m].i == hist[q].i)
    ensures Taken(hist[..q], hist[q].g, hist[q].i) == hist[p].reserve
  {
    TakenUpTo(hist, p, q, hist[q].g, hist[q].i);
  }

  lemma {:induction false} TakenUpTo(hist: seq<Done>, p: nat, n: nat, g: Grp, i: nat)
    requires p < n <= |hist| && hist[p].g == g && hist[p].i == i
    requires forall m :: p < m < n ==> !(hist[m].g == g && hist[m].i == i)
    ensures Taken(hist[..n], g, i) == hist[p].reserve
    decreases n
  {
    assert hist[..n][..n - 1] == hist[..n - 1] && hist[..n][n - 1] == hist[n - 1];
    if p < n - 1 {
      TakenUpTo(hist, p, n - 1, g, i);
    }
  }

  lemma {:induction false} TakenNever(hist: seq<Done>, g: Grp, i: nat)
    requires forall m :: 0 <= m < |hist| ==> !(hist[m].g == g && hist[m].i == i)
    ensures !Taken(hist, g, i)
    decreases hist
  {
    if hist != [] {
      TakenNever(hist[..|hist| - 1], g, i);
    }
  }
}
