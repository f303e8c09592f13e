/** Binding and unbinding the overflow interrupt through the control register. */
module IrqControl {
  import opened Bits
  import opened Protocol
  import opened RegMap
  import opened Epu

  /** EPCCR word that turns a counter's overflow interrupt on: action 1, enable. */
  const EPCCR_ON: u32 := 0x180

  /** First offset behind the last EPCCR word. */
  const EPCCR_SPAN: nat := 0x87D

  /** Control word, stored interrupt number, requests and frees made of the kernel, the EPCCR words. */
  datatype Irq = Irq(ctrl: u32, num: nat, requests: nat, frees: nat, epccr: Row)

  /** What the kernel answers to a request: the mapped number (0: none) and whether it is granted. */
  datatype Grant = Grant(num: nat, granted: bool)

  predicate Mapped(size: nat, i: nat) {
    0x800 + 4 * i < size
  }

  function Filled(size: nat, epccr: Row, val: u32): Row {
    seq(32, i requires 0 <= i < 32 => if Mapped(size, i) then val else epccr[i])
  }

  predicate AllMapped(size: nat) {
    Mapped(size, 31)
  }

  function Bind(size: nat, q: Irq, g: Grant): (Status, Irq) {
    if 0x30 >= size then (EFault, q)
    else if g.num == 0 then (Ok, q.(num := 0))
    else if !g.granted then (EOther, q.(num := g.num))
    else (if AllMapped(size) then Ok else EFault,
          q.(num := g.num, requests := q.requests + 1, epccr := Filled(size, q.epccr, EPCCR_ON)))
  }

  function Unbind(size: nat, q: Irq): (Status, Irq) {
    (if AllMapped(size) then Ok else EFault,
     q.(num := 0,
        frees := if q.num != 0 then q.frees + 1 else q.frees,
        epccr := Filled(size, q.epccr, 0)))
  }

  predicate Enabled(ctrl: u32) {
    ctrl % 2 == 1
  }

  /** A write to the control register: bit 0 set binds, bit 0 clear unbinds, the word is stored either way. */
  function CtrlWrite(size: nat, q: Irq, val: u64, g: Grant): (Status, Irq) {
    var ctrl: u32 := val % TWO_32;
    var (ret, q') :=
      if Enabled(ctrl) && !Enabled(q.ctrl) then Bind(size, q, g)
      else if !Enabled(ctrl) && Enabled(q.ctrl) then Unbind(size, q)
      else (Ok, q);
    (ret, q'.(ctrl := ctrl))
  }

  // ----- results

  /** Every result of binding: what was refused, what the kernel refused, and silence about a missing interrupt. */
  lemma {:induction false} BindResult(size: nat, q: Irq, g: Grant)
    ensures var ret := Bind(size, q, g).0;
            && (ret == EFault <==> size <= 0x30 || (g.num != 0 && g.granted && size <= 0x87C))
            && (ret == EOther <==> size > 0x30 && g.num != 0 && !g.granted)
            && (ret == Ok <==> size > 0x30 && (g.num == 0 || (g.granted && size > 0x87C)))
    ensures Bind(size, q, g).1.requests == q.requests + if size > 0x30 && g.num != 0 && g.granted then 1 else 0
    ensures Bind(size, q, g).1.num == if size > 0x30 then g.num else q.num
    ensures Bind(size, q, g).1.frees == q.frees && Bind(size, q, g).1.ctrl == q.ctrl
  {
  }

  /** A control write returns the result of the binding or unbinding it causes, and stores the word in any case. */
  lemma {:induction false} CtrlResult(size: nat, q: Irq, val: u64, g: Grant)
    ensures var (ret, z) := CtrlWrite(size, q, val, g);
            && z.ctrl == val % 0x1_0000_0000
            && (val % 2 == 1 && q.ctrl % 2 == 0 ==> (ret, z.(ctrl := q.ctrl)) == Bind(size, q, g))
            && (val % 2 == 0 && q.ctrl % 2 == 1 ==>
                  ret == (if size > 0x87C then Ok else EFault) && z.num == 0
                  && z.frees == q.frees + if q.num != 0 then 1 else 0)
            && (val % 2 == q.ctrl % 2 ==> ret == Ok && z == q.(ctrl := z.ctrl))
  {
    assert val % 0x1_0000_0000 % 2 == val % 2;
  }

  // ----- accesses and calls

  /** What the driver does outside the locked operations, in order. */
  datatype Io =
    | Read(id: int, off: nat, val: u32)
    | Wrote(id: int, off: nat, val: u32)
    | Refused(id: int, off: nat)               // by the bound of the map
    | Requested(num: nat, granted: bool)
    | Freed(num: nat)

  /** Writing `val` to the EPCCR words from `i` on, up to the first refused one. */
  function FillSteps(size: nat, val: u32, i: Count): seq<Io>
    decreases 32 - i
  {
    if i == 32 then []
    else if Mapped(size, i) then [Wrote(EPU, 0x800 + 4 * i, val)] + FillSteps(size, val, i + 1)
    else [Refused(EPU, 0x800 + 4 * i)]
  }

  function RequestSteps(size: nat, g: Grant): seq<Io> {
    [Requested(g.num, g.granted)] + (if g.granted then FillSteps(size, 0x180, 0) else [])
  }

  /** Clear whatever is pending, then request the interrupt, then let the counters raise it. */
  function BindSteps(size: nat, g: Grant): seq<Io> {
    if size <= 0x30 then [Refused(EPU, 0x30)]
    else [Wrote(EPU, 0x30, 0xFFFF_FFFF)] + (if g.num == 0 then [] else RequestSteps(size, g))
  }

  lemma FillNext(size: nat, val: u32, i: Index, before: seq<Io>)
    ensures before + FillSteps(size, val, i)
         == if Mapped(size, i) then (before + [Wrote(EPU, 0x800 + 4 * i, val)]) + FillSteps(size, val, i + 1)
            else before + [Refused(EPU, 0x800 + 4 * i)]
  {
  }

  lemma RequestJoined(size: nat, g: Grant, before: seq<Io>)
    ensures before + RequestSteps(size, g)
         == if g.granted then (before + [Requested(g.num, g.granted)]) + FillSteps(size, 0x180, 0)
            else before + [Requested(g.num, g.granted)]
  {
  }

  lemma BindJoined(size: nat, g: Grant, before: seq<Io>)
    requires size > 0x30
    ensures before + BindSteps(size, g)
         == if g.num == 0 then before + [Wrote(EPU, 0x30, 0xFFFF_FFFF)]
            else (before + [Wrote(EPU, 0x30, 0xFFFF_FFFF)]) + RequestSteps(size, g)
  {
  }

  /** Silence the counters, then free the interrupt. */
  function UnbindSteps(size: nat, num: nat): seq<Io> {
    FillSteps(size, 0, 0) + (if num != 0 then [Freed(num)] else [])
  }

  function CtrlSteps(size: nat, q: Irq, val: u64, g: Grant): seq<Io> {
    if val % 2 == 1 && q.ctrl % 2 == 0 then BindSteps(size, g)
    else if val % 2 == 0 && q.ctrl % 2 == 1 then UnbindSteps(size, q.num)
    else []
  }

  /** What the hardware makes of the writes among the steps. */
  function Carried(hw: Hw, steps: seq<Io>): Hw
    decreases steps
  {
    if steps == [] then hw
    else
      var io := steps[0];
      Carried(if io.Wrote? && io.id == EPU then Write(hw, io.off, io.val, hw.capr) else hw, steps[1..])
  }

  lemma {:induction false} FillsNothingElse(hw: Hw, size: nat, val: u32, i: Count)
    ensures Carried(hw, FillSteps(size, val, i)) == hw
    decreases 32 - i
  {
    if i < 32 && Mapped(size, i) {
      var rest := FillSteps(size, val, i + 1);
      assert ([Wrote(EPU, 0x800 + 4 * i, val)] + rest)[1..] == rest;
      FillsNothingElse(hw, size, val, i + 1);
    }
  }

  /** Binding clears every pending bit before it requests the interrupt, and changes no counter or capture word. */
  lemma {:induction false} BindWipes(hw: Hw, size: nat, g: Grant)
    requires size > 0x30
    ensures BindSteps(size, g)[0] == Wrote(EPU, 0x30, 0xFFFF_FFFF)
    ensures Carried(hw, BindSteps(size, g)[..1]) == hw.(isr := 0)
    ensures Carried(hw, BindSteps(size, g)) == hw.(isr := 0)
    ensures forall n :: 0 <= n < |BindSteps(size, g)| && BindSteps(size, g)[n].Requested? ==> n == 1
  {
    var steps := BindSteps(size, g);
    AllCleared(hw.isr);
    var h1, rest := hw.(isr := 0), steps[1..];
    assert steps[..1] == [Wrote(EPU, 0x30, 0xFFFF_FFFF)] && steps[..1][1..] == [];
    assert Carried(h1, []) == h1;
    assert rest == if g.num == 0 then [] else RequestSteps(size, g);
    if g.num != 0 {
      assert rest[1..] == if g.granted then FillSteps(size, 0x180, 0) else [];
      FillsNothingElse(h1, size, 0x180, 0);
      FillsAreWrites(size, 0x180, 0);
    }
  }

  lemma {:induction false} FillsAreWrites(size: nat, val: u32, i: Count)
    ensures forall n :: 0 <= n < |FillSteps(size, val, i)| ==>
              FillSteps(size, val, i)[n].Wrote? || FillSteps(size, val, i)[n].Refused?
    decreases 32 - i
  {
    if i < 32 && Mapped(size, i) { FillsAreWrites(size, val, i + 1); }
  }

  /** The interrupt is freed after every counter has been silenced, as the last thing unbinding does. */
  lemma {:induction false} FreedLast(size: nat, num: nat)
    ensures var steps := UnbindSteps(size, num);
            && (forall n :: 0 <= n < |steps| && steps[n].Freed? ==> n == |steps| - 1 && steps[n].num == num)
            && (num != 0 ==> |steps| > 0 && steps[|steps| - 1] == Freed(num))
  {
    FillsAreWrites(size, 0, 0);
  }

  // ----- consistency

  /** Control bit, stored number, registration and counter interrupts tell the same story. */
  predicate Consistent(q: Irq) {
    && (Enabled(q.ctrl) <==> q.num != 0)
    && q.requests == q.frees + (if Enabled(q.ctrl) then 1 else 0)
    && (Enabled(q.ctrl) ==> forall i :: 0 <= i < 32 ==> q.epccr[i] == 0x180)
    && (!Enabled(q.ctrl) && q.frees > 0 ==> forall i :: 0 <= i < 32 ==> q.epccr[i] == 0)
  }

  datatype Call = Call(val: u64, g: Grant)

  predicate Binds(q: Irq, c: Call) {
    Enabled(c.val % TWO_32) && !Enabled(q.ctrl)
  }

  /** From a consistent state a write stays consistent iff it does not bind or the kernel grants the request. */
  lemma {:induction false} WriteKeepsConsistent(size: nat, q: Irq, c: Call)
    requires size >= EPCCR_SPAN && Consistent(q)
    ensures Consistent(CtrlWrite(size, q, c.val, c.g).1) <==> (Binds(q, c) ==> c.g.num != 0 && c.g.granted)
  {
    assert forall i: nat :: i < 32 ==> Mapped(size, i);
    var q' := CtrlWrite(size, q, c.val, c.g).1;
    if Binds(q, c) && !(c.g.num != 0 && c.g.granted) {
      assert q'.requests == q.requests == q.frees == q'.frees;
      assert Enabled(q'.ctrl);
    }
  }

  function CtrlRun(size: nat, q: Irq, calls: seq<Call>): Irq
    decreases calls
  {
    if calls == [] then q else CtrlRun(size, CtrlWrite(size, q, calls[0].val, calls[0].g).1, calls[1..])
  }

  /** Every binding write of the run is granted a non-zero interrupt. */
  predicate AllGranted(size: nat, q: Irq, calls: seq<Call>)
    decreases calls
  {
    calls == []
    || ((Binds(q, calls[0]) ==> calls[0].g.num != 0 && calls[0].g.granted)
        && AllGranted(size, CtrlWrite(size, q, calls[0].val, calls[0].g).1, calls[1..]))
  }

  /** Every state the run passes through is consistent. */
  predicate AlwaysConsistent(size: nat, q: Irq, calls: seq<Call>)
    decreases calls
  {
    Consistent(q)
    && (calls == [] || AlwaysConsistent(size, CtrlWrite(size, q, calls[0].val, calls[0].g).1, calls[1..]))
  }

  /** A run stays consistent throughout iff every binding write of it is granted a non-zero interrupt. */
  lemma {:induction false} ConsistentIffGranted(size: nat, q: Irq, calls: seq<Call>)
    requires size >= EPCCR_SPAN && Consistent(q)
    ensures AlwaysConsistent(size, q, calls) <==> AllGranted(size, q, calls)
    decreases calls
  {
    if calls != [] {
      var q' := CtrlWrite(size, q, calls[0].val, calls[0].g).1;
      WriteKeepsConsistent(size, q, calls[0]);
      if Consistent(q') {
        ConsistentIffGranted(size, q', calls[1..]);
      }
    }
  }

  /** Over any sequence of control writes with granted requests, at most one handler is registered at a time. */
  lemma {:induction false} LifecycleConsistent(size: nat, q: Irq, calls: seq<Call>)
    requires size >= EPCCR_SPAN && Consistent(q) && AllGranted(size, q, calls)
    ensures var z := CtrlRun(size, q, calls);
            Consistent(z) && 0 <= z.requests - z.frees <= 1
    decreases calls
  {
    if calls != [] {
      WriteKeepsConsistent(size, q, calls[0]);
      LifecycleConsistent(size, CtrlWrite(size, q, calls[0].val, calls[0].g).1, calls[1..]);
    }
  }

  /** Every interrupt requested has been freed, none is stored, and no counter can raise one. */
  predicate Released(q: Irq) {
    q.requests == q.frees && q.num == 0 && forall i :: 0 <= i < 32 ==> q.epccr[i] == 0
  }

  /** Unbinding from a consistent state returns the interrupt and silences every counter. */
  lemma {:induction false} UnbindReleases(size: nat, q: Irq)
    requires size >= EPCCR_SPAN && Consistent(q)
    ensures Released(Unbind(size, q).1)
  {
    assert forall i: nat :: i < 32 ==> Mapped(size, i);
  }

  /** When the device tree names no interrupt, enabling reports success although no handler is bound. */
  lemma {:induction false} MissingInterruptIsSilent(size: nat, q: Irq, val: u64)
    requires size >= EPCCR_SPAN && Consistent(q) && Binds(q, Call(val, Grant(0, false)))
    ensures var (ret, z) := CtrlWrite(size, q, val, Grant(0, false));
            ret == Ok && Enabled(z.ctrl) && z.num == 0 && z.requests == z.frees && !Consistent(z)
  {
    WriteKeepsConsistent(size, q, Call(val, Grant(0, false)));
  }

  /** A refused request is freed by the next disabling write although it was never registered. */
  lemma {:induction false} RefusedRequestIsFreed(size: nat, q: Irq, num: nat)
    requires size >= EPCCR_SPAN && Consistent(q) && !Enabled(q.ctrl) && num != 0
    ensures var z := CtrlRun(size, q, [Call(1, Grant(num, false)), Call(0, Grant(0, false))]);
            z.frees == z.requests + 1
  {
    var a, b := Call(1, Grant(num, false)), Call(0, Grant(0, false));
    var q1 := CtrlWrite(size, q, a.val, a.g).1;
    assert q1.num == num && Enabled(q1.ctrl);
    assert [a, b][1..] == [b] && [b][1..] == [];
    assert CtrlRun(size, q1, [b]) == CtrlRun(size, CtrlWrite(size, q1, b.val, b.g).1, []);
  }
}
