/**
 The register access path and the virtual counters as they are written: global tables updated in place
 under `vc_lock`, bit-scan loops and error codes, one mutually recursive dispatch.

 The ghost control point `pc` only moves through the primitives at the top, each of which demands that
 the automaton of `Protocol` allows the action; so every operation that verifies follows the automaton.
 The hardware is not constrained here: a read may return any word.
 */
module Driver {
  import opened Bits
  import opened Options
  import opened Protocol
  import opened Sequential
  import opened CaptureTrace
  import opened VirtualRegisters
  import opened RegMap
  import IrqControl

  /** What is known of an operation in progress or just before its unlock. */
  predicate Record(o: Op, size: nat, r0: Soft, tr: seq<Ev>, pc: Pc, r: Soft) {
    Sound(pc) && Path(Start(o), tr, pc) && Body(tr) && AllLegal(size, tr) && r == Replay(r0, tr)
  }

  datatype Key = Key

  predicate Unfolded(key: Key, o: Op, size: nat, r0: Soft, tr: seq<Ev>, pc: Pc, r: Soft) {
    Record(o, size, r0, tr, pc, r)
  }

  /** `Record`, kept folded: the solver looks inside only where `Unfold` asks it to. */
  ghost predicate Recorded(o: Op, size: nat, r0: Soft, tr: seq<Ev>, pc: Pc, r: Soft) {
    forall key: Key :: Unfolded(key, o, size, r0, tr, pc, r)
  }

  lemma {:induction false} Unfold(o: Op, size: nat, r0: Soft, tr: seq<Ev>, pc: Pc, r: Soft)
    requires Recorded(o, size, r0, tr, pc, r)
    ensures Record(o, size, r0, tr, pc, r)
  {
    assert Unfolded(Key, o, size, r0, tr, pc, r);
  }

  /** A record grows by one legal event of the automaton. */
  lemma {:induction false} Extend(o: Op, size: nat, r0: Soft, tr: seq<Ev>, pc: Pc, r: Soft, ev: Ev)
    requires Recorded(o, size, r0, tr, pc, r) && !pc.Rest?
    requires Next(pc, ev).Some? && !ev.Unlock? && Legal(size, ev)
    ensures Recorded(o, size, r0, tr + [ev], Next(pc, ev).value, Effect(r, ev))
    ensures Critical(Next(pc, ev).value) <==> Critical(pc) || ev.Lock?
  {
    Unfold(o, size, r0, tr, pc, r);
    NextIsAfter(pc, ev);
    PathAppend(Start(o), tr, pc, ev);
    ReplayAppend(r0, tr, ev);
    SoundStep(pc, ev);
    CriticalStep(pc, ev);
    assert Record(o, size, r0, tr + [ev], Next(pc, ev).value, Effect(r, ev));
  }

  /** A finished capture: its result, its accesses and the registers `after` it. */
  predicate CaptureFact(e: Event, size: nat, ret: Status, before: Soft, tr: seq<Ev>, out: Outcome, after: Soft) {
    && (ret == Ok <==> out.Captured?)
    && (ret != Ok ==> ret == EFault && out == CaptureFailed)
    && |tr| > 1 && tr[0] == Lock && (ret != Ok <==> tr[|tr| - 1].Fault?)
    && Path(CapLock(e), tr, Exit(out)) && Body(tr) && AllLegal(size, tr)
    && after == Replay(before, tr)
    && (ret == Ok ==> tr == FullTrace(size, out.d) && (out.d.t == 0 || UpdSucceeds(size, out.d.t)))
    && (ret == Ok && size >= EPU_SPAN ==> after == CaptureResult(out.d, before))
    && (EPU_SPAN <= size <= 0x0400_0540 ==>
          && tr[1].Rd?
          && (ret != Ok <==> tr[1].val / 0x10 % 8 != 0)
          && (ret != Ok ==> tr == RefusedTrace(e, tr[1].val) && after == before))
  }

  predicate CaptureUnfolded(
      key: Key, e: Event, size: nat, ret: Status, before: Soft, tr: seq<Ev>, out: Outcome, after: Soft)
  {
    CaptureFact(e, size, ret, before, tr, out, after)
  }

  /** `CaptureFact`, kept folded. */
  ghost predicate CaptureKnown(
      e: Event, size: nat, ret: Status, before: Soft, tr: seq<Ev>, out: Outcome, after: Soft)
  {
    forall key: Key :: CaptureUnfolded(key, e, size, ret, before, tr, out, after)
  }

  /** All that is known at the end of the critical section. */
  lemma {:induction false} CaptureFacts(
      e: Event, size: nat, ret: Status, before: Soft, tr: seq<Ev>, out: Outcome, after: Soft)
    requires Recorded(OpCapture(e), size, before, tr, Exit(out), after)
    requires (ret == Ok <==> out.Captured?) && (ret != Ok ==> ret == EFault && out == CaptureFailed)
    ensures CaptureKnown(e, size, ret, before, tr, out, after)
  {
    Unfold(OpCapture(e), size, before, tr, Exit(out), after);
    CaptureEnds(e, tr, out);
    if ret == Ok {
      CaptureAccesses(size, e, tr, out.d);
    }
    if ret == Ok && size >= EPU_SPAN {
      OperationMeaning(size, CapLock(e), tr, Exit(out), before, before);
    }
    if EPU_SPAN <= size <= 0x0400_0540 {
      CaptureAllOrNothing(size, e, tr, out, before);
    }
    assert CaptureFact(e, size, ret, before, tr, out, after);
  }

  /** A capture fails at the access that is refused. */
  lemma {:induction false} CaptureEnds(e: Event, tr: seq<Ev>, out: Outcome)
    requires Path(CapLock(e), tr, Exit(out)) && Body(tr)
    ensures |tr| > 1 && tr[0] == Lock && (out.Captured? || out == CaptureFailed)
    ensures out == CaptureFailed <==> tr[|tr| - 1].Fault?
  {
    FailsIffRefused(CapSel(e), tr[1..], out);
  }

  class LsDbg {
    const table: MapTable
    const vbase: nat                    // address of ls_dbg_vcnt

    // struct vcounters
    var vcntctrl: u32
    const vcntrepecr: array<u32>
    const vcntr: array<u64>
    const vcntrcapt: array<u64>

    const epccr: array<u32>             // EPCCR words: only software writes them
    var irqNum: nat                     // intr_overflow.num
    ghost var requests: nat             // request_irq calls granted
    ghost var frees: nat                // free_irq calls

    var vcLock: bool

    ghost var io: seq<IrqControl.Io>    // accesses and kernel calls made outside the locked operations

    ghost var pc: Pc
    ghost var op: Op                    // current or last operation,
    ghost var cur: seq<Ev>              // what it has done so far
    ghost var r0: Soft                  // and the registers it started from

    // ----- invariant

    ghost predicate Shape() {
      && table.Valid()
      && vcntrepecr.Length == 17 && vcntr.Length == 32 && vcntrcapt.Length == 32 && epccr.Length == 32
      && vcntr != vcntrcapt && vcntrepecr != epccr
    }

    ghost function Registers(): Soft
      requires Shape()
      reads vcntr, vcntrcapt, vcntrepecr
    {
      Soft(vcntr[..], vcntrcapt[..], vcntrepecr[..])
    }

    /** Bytes mapped for the EPU. */
    ghost function EpuSize(): nat
      requires Shape()
      reads table.maps
    {
      table.maps[EPU].size
    }

    /** The virtual counters are not yet registered, or registered at their own address and size. */
    ghost predicate Registered()
      requires Shape()
      reads table.maps
    {
      table.maps[VCOUNT].size == 0 || table.maps[VCOUNT] == MapInfo(vbase, STRUCT_SIZE)
    }

    ghost predicate Valid()
      reads this, table.maps, vcntr, vcntrcapt, vcntrepecr
    {
      && Shape()
      && Registered()
      && (vcLock <==> Critical(pc))
      && (!pc.Rest? ==> Recorded(op, EpuSize(), r0, cur, pc, Registers()))
    }

    constructor (base: nat)
      ensures Valid() && pc.Rest? && !vcLock && vbase == base && vcntctrl == 0
      ensures forall k :: 0 <= k < 32 ==> vcntr[k] == 0 && vcntrcapt[k] == 0
      ensures IrqState() == IrqControl.Irq(0, 0, 0, 0, ZeroRow()) && io == []
      ensures forall i :: 0 <= i < MAX_TRACE_MODULES ==> table.maps[i] == MapInfo(0, 0)
      ensures fresh(table) && fresh(table.maps) && fresh(vcntrepecr) && fresh(vcntr) && fresh(vcntrcapt) && fresh(epccr)
    {
      table := new MapTable();
      vbase, vcntctrl, irqNum, requests, frees, vcLock := base, 0, 0, 0, 0, false;
      vcntrepecr := new u32[17](_ => 0);
      vcntr := new u64[32](_ => 0);
      vcntrcapt := new u64[32](_ => 0);
      epccr := new u32[32](_ => 0);
      pc, cur, io := Rest(Fresh), [], [];
      new;
      assert epccr[..] == ZeroRow();
    }

    // ----- primitives

    /** An operation starts. */
    ghost method Begin(o: Op)
      requires Valid() && pc.Rest?
      modifies `pc, `op, `cur, `r0
      ensures Valid() && pc == Start(o) && op == o && cur == [] && r0 == Registers()
    {
      op, cur, r0, pc := o, [], Registers(), Start(o);
      assert Record(op, EpuSize(), r0, cur, pc, Registers());
    }

    /** The automaton moves by `ev`; `was` are the registers before the event. */
    ghost method Take(ev: Ev, was: Soft)
      requires Shape() && !pc.Rest? && Recorded(op, EpuSize(), r0, cur, pc, was)
      requires Next(pc, ev).Some? && !ev.Unlock? && Legal(EpuSize(), ev)
      modifies `pc, `cur
      ensures pc == Next(old(pc), ev).value && cur == old(cur) + [ev]
      ensures Recorded(op, EpuSize(), r0, cur, pc, Effect(was, ev))
      ensures Critical(pc) <==> Critical(old(pc)) || ev.Lock?
    {
      Extend(op, EpuSize(), r0, cur, pc, was, ev);
      cur, pc := cur + [ev], Next(pc, ev).value;
    }

    method SpinLock()
      requires Valid() && !vcLock && Wanted(pc) == WLock
      modifies `pc, `cur, `vcLock
      ensures Valid() && vcLock && pc == After(old(pc), 0) && cur == old(cur) + [Lock]
    {
      Take(Lock, Registers());
      vcLock := true;
    }

    method SpinUnlock()
      requires Valid() && vcLock && pc.Exit?
      modifies `pc, `vcLock
      ensures Valid() && !vcLock && pc == Rest(old(pc).out)
    {
      pc := Rest(pc.out);
      vcLock := false;
    }

    /** ioread32 of an EPU register that passed the bound check: any word may come back. */
    method IoRead32(off: nat) returns (val: u32)
      requires Valid() && off < EpuSize() && (pc.Rest? || Wanted(pc) == WRead(off))
      modifies `pc, `cur
      ensures Valid()
      ensures if old(pc).Rest? then pc == old(pc) && cur == old(cur)
              else pc == After(old(pc), val) && cur == old(cur) + [Rd(off, val)]
      ensures 0x800 <= off < 0x880 ==> val == epccr[(off - 0x800) / 4]
    {
      if 0x800 <= off < 0x880 {
        val := epccr[(off - 0x800) / 4];
      } else {
        val := *;
      }
      if !pc.Rest? {
        Take(Rd(off, val), Registers());
      }
    }

    /** iowrite32 to an EPU register that passed the bound check. */
    method IoWrite32(val: u64, off: nat)
      requires Valid() && off < EpuSize() && (pc.Rest? || Wanted(pc) == WWrite(off, val % TWO_32))
      modifies `pc, `cur, (if 0x800 <= off < 0x880 then {epccr} else {})
      ensures Valid()
      ensures if old(pc).Rest? then pc == old(pc) && cur == old(cur)
              else pc == After(old(pc), 0) && cur == old(cur) + [Wr(off, val % TWO_32)]
      ensures 0x800 <= off < 0x880 ==>
                epccr[..] == old(epccr[..])[(off - 0x800) / 4 := val % TWO_32]
    {
      if 0x800 <= off < 0x880 {
        epccr[(off - 0x800) / 4] := val % TWO_32;
      }
      if !pc.Rest? {
        Take(Wr(off, val % TWO_32), Registers());
      }
    }

    /** An access refused by the bound of the EPU map. */
    ghost method Refuse(off: nat)
      requires Valid() && off >= EpuSize()
      requires pc.Rest? || Wanted(pc) == WRead(off) || (Wanted(pc).WWrite? && Wanted(pc).off == off)
      modifies `pc, `cur
      ensures Valid()
      ensures if old(pc).Rest? then pc == old(pc) && cur == old(cur)
              else pc == OnFault(old(pc)) && cur == old(cur) + [Fault(off)]
    {
      if !pc.Rest? {
        Take(Fault(off), Registers());
      }
    }

    // ----- reg_access.c: register dispatch

    method ReadReg(id: int, off: nat) returns (ret: Status, val: u64)
      requires Valid()
      requires id == EPU && !pc.Rest? ==> Wanted(pc) == WRead(off)
      requires id == VCOUNT ==> pc.Rest?
      modifies `pc, `cur, (if id == VCOUNT then {this} else {})`op, (if id == VCOUNT then {this} else {})`r0,
               (if id == VCOUNT then {this} else {})`vcLock, (if id == VCOUNT then {vcntrepecr} else {}),
               (if pc.Rest? then {this} else {})`io
      decreases if IsIoMapped(id) then 0 else 3, 0
      ensures Valid()
      ensures IsIoMapped(id) ==> ret == IoLookup(table.maps[..], id, off)
      ensures id == EPU && !old(pc).Rest? ==>
                if ret == Ok then val < TWO_32 && pc == After(old(pc), val) && cur == old(cur) + [Rd(off, val)]
                else pc == OnFault(old(pc)) && cur == old(cur) + [Fault(off)]
      ensures id != VCOUNT && (id != EPU || old(pc).Rest?) ==> unchanged(`pc, `cur)
      ensures id == EPU && ret == Ok && 0x800 <= off < 0x880 ==> val == epccr[(off - 0x800) / 4]
      ensures IsIoMapped(id) && ret == Ok ==> val < TWO_32
      ensures io == old(io) + if !IsIoMapped(id) || !old(pc).Rest? then []
                              else [if ret == Ok then IrqControl.Read(id, off, val) else IrqControl.Refused(id, off)]
      ensures !IsIoMapped(id) && RamLookup(table.maps[..], id, off) != Ok ==>
                ret == RamLookup(table.maps[..], id, off)
                && unchanged(`pc, `cur, `op, `r0, `vcLock) && vcntrepecr[..] == old(vcntrepecr[..])
      ensures RamLookup(table.maps[..], id, off) == Ok ==> off < STRUCT_SIZE
      ensures RamLookup(table.maps[..], id, off) == Ok && !ReadRegion(off).RMirror? ==>
                ret == Ok && val == Load(Words(vcntctrl, Registers()), ReadRegion(off))
                && unchanged(`pc, `cur, `op, `r0, `vcLock) && vcntrepecr[..] == old(vcntrepecr[..])
      ensures RamLookup(table.maps[..], id, off) == Ok && ReadRegion(off).RMirror? ==>
                MirrorDone(ReadRegion(off).e, ret, val, old(vcntrepecr[..]))
    {
      val := 0;
      var addr;
      if IsIoMapped(id) {
        ret, addr := table.RegFindMapIo(id, off);
        ghost var atRest := pc.Rest?;
        if ret != Ok {
          if id == EPU { Refuse(off); }
          if atRest { io := io + [IrqControl.Refused(id, off)]; }
          return;
        }
        if id == EPU {
          val := IoRead32(off);
        } else {
          val :| 0 <= val < TWO_32;
        }
        if atRest { io := io + [IrqControl.Read(id, off, val)]; }
        ret := Ok;
      } else {
        ret, addr := table.RegFindMapRam(id, off);
        if ret != Ok {
          return;
        }
        DispatchAgrees(off);
        ret, val := VcounterRegRead(addr);
      }
    }

    method WriteReg(id: int, off: nat, inVal: u64) returns (ret: Status)
      requires Valid()
      requires id == EPU && !pc.Rest? ==> Wanted(pc) == WWrite(off, inVal % TWO_32)
      requires id == VCOUNT ==> pc.Rest?
      modifies `pc, `cur, (if id == VCOUNT then {this} else {})`op, (if id == VCOUNT then {this} else {})`r0,
               (if id == VCOUNT then {this} else {})`vcLock, (if id == VCOUNT then {this} else {})`vcntctrl,
               (if id == VCOUNT then {vcntr, vcntrcapt} else {}),
               (if id == EPU && 0x800 <= off < 0x880 then {epccr} else {}), (if pc.Rest? then {this} else {})`io
      decreases if IsIoMapped(id) then 0 else 4, 0
      ensures Valid()
      ensures IsIoMapped(id) ==> ret == IoLookup(table.maps[..], id, off)
      ensures id == EPU && !old(pc).Rest? ==>
                if ret == Ok then pc == After(old(pc), 0) && cur == old(cur) + [Wr(off, inVal % TWO_32)]
                else pc == OnFault(old(pc)) && cur == old(cur) + [Fault(off)]
      ensures id != VCOUNT && (id != EPU || old(pc).Rest?) ==> unchanged(`pc, `cur)
      ensures id == EPU && 0x800 <= off < 0x880 ==>
                epccr[..] == if ret == Ok then old(epccr[..])[(off - 0x800) / 4 := inVal % TWO_32] else old(epccr[..])
      ensures io == old(io) + if !IsIoMapped(id) || !old(pc).Rest? then []
                              else [if ret == Ok then IrqControl.Wrote(id, off, inVal % TWO_32)
                                    else IrqControl.Refused(id, off)]
      ensures !IsIoMapped(id) && RamLookup(table.maps[..], id, off) != Ok ==>
                ret == RamLookup(table.maps[..], id, off) && unchanged(`pc, `cur, `op, `r0, `vcLock, `vcntctrl)
                && Registers() == old(Registers())
      ensures RamLookup(table.maps[..], id, off) == Ok ==> off < STRUCT_SIZE
      ensures RamLookup(table.maps[..], id, off) == Ok && !WriteRegion(off).RMirror? ==>
                ret == Ok && unchanged(`pc, `cur, `op, `r0, `vcLock)
                && Words(vcntctrl, Registers())
                   == Store(Words(old(vcntctrl), old(Registers())), WriteRegion(off), inVal)
      ensures RamLookup(table.maps[..], id, off) == Ok && WriteRegion(off).RMirror? ==>
                vcntctrl == old(vcntctrl)
                && CaptureDone(WriteRegion(off).e, ret, old(Registers()))
    {
      var addr;
      if IsIoMapped(id) {
        ret, addr := table.RegFindMapIo(id, off);
        ghost var atRest := pc.Rest?;
        if ret != Ok {
          if id == EPU { Refuse(off); }
          if atRest { io := io + [IrqControl.Refused(id, off)]; }
          return;
        }
        if id == EPU {
          IoWrite32(inVal, off);
        }
        if atRest { io := io + [IrqControl.Wrote(id, off, inVal % TWO_32)]; }
        ret := Ok;
      } else {
        ret, addr := table.RegFindMapRam(id, off);
        if ret != Ok {
          return;
        }
        DispatchAgrees(off);
        ret := VcounterRegWrite(addr, inVal);
      }
    }

    /** The nested read of an EPU register in the middle of an operation. */
    method ReadEpu(off: nat) returns (ret: Status, val: u32)
      requires Valid() && Wanted(pc) == WRead(off)
      modifies `pc, `cur
      decreases 0, 1
      ensures Valid() && ret == (if off < EpuSize() then Ok else EFault)
      ensures if off < EpuSize() then pc == After(old(pc), val) && cur == old(cur) + [Rd(off, val)]
              else pc == OnFault(old(pc)) && cur == old(cur) + [Fault(off)]
    {
      var reg64;
      ret, reg64 := ReadReg(EPU, off);
      val := reg64 % TWO_32;
    }

    /** The nested write of an EPU register in the middle of an operation; none of these is an EPCCR word. */
    method WriteEpu(off: nat, val: u32) returns (ret: Status)
      requires Valid() && Wanted(pc) == WWrite(off, val) && !(0x800 <= off < 0x880)
      modifies `pc, `cur
      decreases 0, 1
      ensures Valid() && ret == (if off < EpuSize() then Ok else EFault)
      ensures if off < EpuSize() then pc == After(old(pc), 0) && cur == old(cur) + [Wr(off, val)]
              else pc == OnFault(old(pc)) && cur == old(cur) + [Fault(off)]
    {
      ret := WriteReg(EPU, off, val);
    }

    // ----- vir_cntrs.c: overflow counting

    method VCounterInc(ctr: Index) returns (ret: int)
      requires Valid() && Wanted(pc) == WSoft(Inc(ctr))
      modifies `pc, `cur, vcntr
      ensures Valid() && pc == After(old(pc), 0) && cur == old(cur) + [Inc(ctr)]
      ensures vcntr[..] == old(vcntr[..])[ctr := VInc(old(vcntr[ctr]))]
      ensures ret == if Rolls(old(vcntr[ctr])) then 1 else 0
    {
      ghost var was := Registers();
      vcntr[ctr] := (vcntr[ctr] + 1) % TWO_64;
      ret := if vcntr[ctr] >= TWO_63 then 1 else 0;
      if ret != 0 {
        vcntr[ctr] := 0;
      }
      Take(Inc(ctr), was);
      assert vcntr[..] == old(vcntr[..])[ctr := VInc(old(vcntr[ctr]))];
    }

    /** Count the overflow of counter `i` and clear its hardware counter. */
    method CountOverflow(ctrisr: u32, i: Index, ghost k: Cont) returns (ret: Status)
      requires Valid() && pc == Bump(ctrisr, i, k)
      modifies `pc, `cur, vcntr
      decreases 1, 0
      ensures Valid() && ret == (if EPCTR + 4 * i < EpuSize() then Ok else EFault)
      ensures if EPCTR + 4 * i < EpuSize()
              then pc == Scan(ctrisr, i + 1, k) && cur == old(cur) + [Inc(i), Wr(EPCTR + 4 * i, 0)]
              else pc == Abort(k) && cur == old(cur) + [Inc(i), Fault(EPCTR + 4 * i)]
    {
      var rolled := VCounterInc(i);
      ret := WriteEpu(EPCTR + 4 * i, 0);
    }

    method UpdateVcounters(ctrisr: u32, ghost k: Cont) returns (ret: Status)
      requires Valid() && pc == Clear(ctrisr, k)
      modifies `pc, `cur, vcntr
      decreases 1, 4
      ensures Valid()
      ensures ret == if UpdSucceeds(EpuSize(), ctrisr) then Ok else EFault
      ensures cur == old(cur) + UpdTrace(EpuSize(), ctrisr)
      ensures pc == UpdReturn(EpuSize(), ctrisr, k)
      ensures vcntr[..] == CountedFrom(EpuSize(), ctrisr, 0, old(vcntr[..]))
    {
      ghost var was, before := Registers(), cur;
      Unfold(op, EpuSize(), r0, cur, pc, Registers());
      ret := ServeStatus(ctrisr, k);
      Unfold(op, EpuSize(), r0, cur, pc, Registers());
      UpdMeans(ctrisr, was, before);
    }

    /** The body of `update_vcounters`: clear the status bits, then shift through them. */
    method ServeStatus(ctrisr: u32, ghost k: Cont) returns (ret: Status)
      requires Valid() && pc == Clear(ctrisr, k)
      modifies `pc, `cur, vcntr
      decreases 1, 3
      ensures Valid()
      ensures ret == if UpdSucceeds(EpuSize(), ctrisr) then Ok else EFault
      ensures cur == old(cur) + UpdTrace(EpuSize(), ctrisr)
      ensures pc == UpdReturn(EpuSize(), ctrisr, k)
    {
      ret := WriteEpu(EPCTRISR, ctrisr);
      if ret != Ok {
        return;
      }
      ret := ShiftThrough(ctrisr, k);
      Regroup(old(cur), [Wr(EPCTRISR, ctrisr)], UpdTail(EpuSize(), ctrisr, 0));
    }

    /** One turn of the loop: bit `i` is the lowest bit of what remains of the word. */
    method ServeBit(ctrisr: u32, rem: u32, i: Index, ghost k: Cont) returns (ret: Status)
      requires Valid() && pc == Scan(ctrisr, i, k) && EPCTRISR < EpuSize()
      requires rem == Shr(ctrisr, i) != 0 && MappedBelow(EpuSize(), ctrisr, i)
      modifies `pc, `cur, vcntr
      decreases 1, 1
      ensures Valid()
      ensures if ret == Ok
              then pc == Scan(ctrisr, i + 1, k) && MappedBelow(EpuSize(), ctrisr, i + 1)
                   && cur + UpdTail(EpuSize(), ctrisr, i + 1) == old(cur) + UpdTail(EpuSize(), ctrisr, i)
              else ret == EFault && !UpdSucceeds(EpuSize(), ctrisr) && pc == Abort(k)
                   && cur == old(cur) + UpdTail(EpuSize(), ctrisr, i)
    {
      UpdTailNext(EpuSize(), ctrisr, i, k);
      ret := Ok;
      if rem % 2 == 1 {
        ret := CountOverflow(ctrisr, i, k);
        Regroup(old(cur), [Inc(i), Wr(EPCTR + 4 * i, 0)], UpdTail(EpuSize(), ctrisr, i + 1));
      }
    }

    /** The shift loop: the next bit of the word is always bit 0 of what remains. */
    method ShiftThrough(ctrisr: u32, ghost k: Cont) returns (ret: Status)
      requires Valid() && pc == Scan(ctrisr, 0, k) && EPCTRISR < EpuSize()
      modifies `pc, `cur, vcntr
      decreases 1, 2
      ensures Valid()
      ensures ret == if UpdSucceeds(EpuSize(), ctrisr) then Ok else EFault
      ensures cur == old(cur) + UpdTail(EpuSize(), ctrisr, 0)
      ensures pc == UpdReturn(EpuSize(), ctrisr, k)
    {
      ghost var size, all := EpuSize(), cur + UpdTail(EpuSize(), ctrisr, 0);
      var rem, ctr := ctrisr, 31;
      ghost var i: Count := 0;
      while rem != 0
        invariant i == 31 - ctr && rem == Shr(ctrisr, i)
        invariant Valid() && size == EpuSize()
        invariant pc == Scan(ctrisr, i, k)
        invariant cur + UpdTail(size, ctrisr, i) == all
        invariant MappedBelow(size, ctrisr, i)
        decreases rem
      {
        NonZeroIsLow(ctrisr, i);
        ret := ServeBit(ctrisr, rem, 31 - ctr, k);
        if ret != Ok {
          return;
        }
        ctr := ctr - 1;
        rem := rem / 2;
        i := i + 1;
      }
      UpdTailEnd(size, ctrisr, i, k);
      ret := Ok;
    }

    /** The replayed actions of an update are its closed form. */
    lemma {:induction false} UpdMeans(mask: u32, was: Soft, before: seq<Ev>)
      requires Shape() && Registers() == Replay(r0, cur) && was == Replay(r0, before)
      requires cur == before + UpdTrace(EpuSize(), mask)
      ensures Registers() == was.(vcntr := CountedFrom(EpuSize(), mask, 0, was.vcntr))
    {
      ReplayConcat(r0, before, UpdTrace(EpuSize(), mask));
      UpdateMeaning(EpuSize(), mask, was);
    }

    /** What a handler run leaves behind when its status read was answered with `mask`. */
    ghost predicate Handled(mask: u32, handled: bool)
      requires Shape() && pc.Rest?
      reads this, table.maps, vcntr, vcntrcapt, vcntrepecr
    {
      if mask == 0 then !handled && cur == [Rd(0x30, 0)] && pc.out == NoIrq && Registers() == r0
      else
        && handled
        && cur == [Rd(0x30, mask), Lock] + UpdTrace(EpuSize(), mask)
        && pc.out == (if UpdSucceeds(EpuSize(), mask) then IrqDone(mask) else IrqFailed)
        && Registers() == r0.(vcntr := CountedFrom(EpuSize(), mask, 0, r0.vcntr))
    }

    method CntrOverflowInterrupt() returns (handled: bool)
      requires Valid() && pc.Rest?
      modifies `pc, `cur, `op, `r0, `vcLock, vcntr
      ensures Valid() && pc.Rest? && !vcLock && op == OpIrq && r0 == old(Registers())
      ensures EpuSize() <= 0x30 ==>
                handled && pc.out == IrqFailed && cur == [Fault(0x30)] && Registers() == r0
      ensures EpuSize() > 0x30 ==>
                |cur| > 0 && cur[0].Rd? && cur[0].off == 0x30 && Handled(cur[0].val, handled)
    {
      Begin(OpIrq);
      var ret, ctrisr := ReadEpu(EPCTRISR);
      if ret == Ok && ctrisr == 0 {
        return false;
      }
      if ret != Ok {
        return true;
      }
      ServeInterrupt(ctrisr);
      handled := true;
    }

    /** The locked part of the handler. */
    method ServeInterrupt(ctrisr: u32)
      requires Valid() && pc == IrqLock(ctrisr) && cur == [Rd(EPCTRISR, ctrisr)] && Registers() == r0 && ctrisr != 0
      modifies `pc, `cur, `vcLock, vcntr
      ensures Valid() && pc.Rest? && !vcLock && Handled(ctrisr, true)
    {
      SpinLock();
      var ret := UpdateVcounters(ctrisr, KIrq);
      SpinUnlock();
    }

    // ----- vir_cntrs.c: group capture

    /** What a capture of event `e` leaves behind; `ret` is its result and `before` the registers it found. */
    ghost predicate CaptureDone(e: Event, ret: Status, before: Soft)
      requires Shape()
      reads this, table.maps, vcntr, vcntrcapt, vcntrepecr
    {
      && pc.Rest? && !vcLock && op == OpCapture(e) && r0 == before
      && CaptureKnown(e, EpuSize(), ret, before, cur, pc.out, Registers())
    }

    method VcntepecrSet(e: Event) returns (ret: Status)
      requires Valid() && pc.Rest?
      modifies `pc, `cur, `op, `r0, `vcLock, vcntr, vcntrcapt
      decreases 2, 0
      ensures Valid() && CaptureDone(e, ret, old(Registers()))
    {
      Begin(OpCapture(e));
      SpinLock();
      ret := CaptureLocked(e);
      CaptureFacts(e, EpuSize(), ret, r0, cur, pc.out, Registers());
      SpinUnlock();
    }

    /** The body of the capture between lock and unlock. */
    method CaptureLocked(e: Event) returns (ret: Status)
      requires Valid() && pc == CapSel(e) && vcLock
      modifies `pc, `cur, vcntr, vcntrcapt
      decreases 1, 7
      ensures Valid() && pc.Exit?
      ensures (ret == Ok <==> pc.out.Captured?) && (ret != Ok ==> ret == EFault && pc.out == CaptureFailed)
    {
      var regVal, regVal2;
      ret, regVal := ReadEpu(EPGACR + 4 * e);
      if ret != Ok { return; }
      var groupJ := Group(regVal);
      ret, regVal2 := ReadEpu(EPCTRGCR + 4 * groupJ);
      if ret != Ok { return; }
      ghost var d := Cap(e, regVal, regVal2, 0, 0, 0, 0, ZeroRow(), ZeroRow());
      var n;
      ret, n, d := SaveOldWords(regVal2, d);
      if ret != Ok { return; }
      var ctl;
      ret, ctl, d := ServeLastCycle(e, n, d);
      if ret != Ok { return; }
      ret, d := FireAndServe(e, ctl, d);
      if ret != Ok { return; }
      ret := MergeNewWords(regVal2, d);
    }

    method SaveOldWord(i: Index, ghost d0: Cap) returns (ret: Status, ghost d: Cap)
      requires Valid() && pc == CapOld(d0, i)
      modifies `pc, `cur, vcntrcapt
      decreases 0, 2
      ensures Valid() && ret == (if EPCAPR + 4 * i < EpuSize() then Ok else EFault)
      ensures if ret == Ok then pc == ScanOld(d, i + 1) && d.g == d0.g && d.e == d0.e else pc == Exit(CaptureFailed)
    {
      var regVal;
      d := d0;
      ret, regVal := ReadEpu(EPCAPR + 4 * i);
      if ret != Ok { return; }
      d := d.(c0 := d.c0[i := regVal]);
      StoreSaved(i, regVal, d);
    }

    method MergeNewWord(i: Index, ghost d0: Cap) returns (ret: Status, ghost d: Cap)
      requires Valid() && pc == CapNew(d0, i)
      modifies `pc, `cur, vcntr, vcntrcapt
      decreases 0, 2
      ensures Valid() && ret == (if EPCAPR + 4 * i < EpuSize() then Ok else EFault)
      ensures if ret == Ok then pc == ScanNew(d, i + 1) && d.g == d0.g else pc == Exit(CaptureFailed)
    {
      var regVal;
      d := d0;
      ret, regVal := ReadEpu(EPCAPR + 4 * i);
      if ret != Ok { return; }
      d := d.(c1 := d.c1[i := regVal]);
      MergeCaptured(i, regVal, d);
    }

    /** First pass: the capture word of every group member goes to `vcntrcapt`. */
    method SaveOldWords(group: u32, ghost d0: Cap) returns (ret: Status, i: Count, ghost d: Cap)
      requires Valid() && pc == ScanOld(d0, 0) && d0.g == group
      modifies `pc, `cur, vcntrcapt
      decreases 1, 0
      ensures Valid() && (ret == Ok || ret == EFault)
      ensures if ret == Ok then pc == CapCtl(d) && d.n == i && d.g == group && d.e == d0.e
              else pc == Exit(CaptureFailed)
    {
      var epctrgcr := group;
      ret, i, d := Ok, 0, d0;
      while epctrgcr != 0
        invariant epctrgcr == Shr(group, i) && d.g == group && d.e == d0.e && ret == Ok
        invariant Valid() && pc == ScanOld(d, i)
        decreases epctrgcr
      {
        NonZeroIsLow(group, i);
        if epctrgcr % 2 == 1 {
          ret, d := SaveOldWord(i, d);
          if ret != Ok { return; }
        }
        i := i + 1;
        epctrgcr := epctrgcr / 2;
      }
      d := d.(n := i);
    }

    /** Read the event's control word and serve the "last cycle" status word; its failures are ignored. */
    method ServeLastCycle(e: Event, i: Count, ghost d0: Cap) returns (ret: Status, ctl: u32, ghost d: Cap)
      requires Valid() && pc == CapCtl(d0) && d0.n == i && d0.e == e
      modifies `pc, `cur, vcntr
      decreases 1, 5
      ensures Valid() && (ret == Ok || ret == EFault)
      ensures ret == Ok <==> 0x300 + 4 * e < EpuSize() && 0x30 + 4 * i < EpuSize()
      ensures if ret == Ok then pc == CapFire(d) && d.g == d0.g && d.e == e && d.ctl == ctl
              else pc == Exit(CaptureFailed)
    {
      d := d0;
      var epctrisr;
      ret, ctl := ReadEpu(EPECR + 4 * e);
      if ret != Ok { return; }
      d := d.(ctl := ctl);
      ret, epctrisr := ReadEpu(EPCTRISR + 4 * i);
      if ret != Ok { return; }
      d := d.(s := epctrisr);
      if epctrisr != 0 {
        var ignored := UpdateVcounters(epctrisr, KFire(d));
      }
    }

    /** Fire the event and serve the overflows that came with it. */
    method FireAndServe(e: Event, ctl: u32, ghost d0: Cap) returns (ret: Status, ghost d: Cap)
      requires Valid() && pc == CapFire(d0) && d0.e == e && d0.ctl == ctl
      modifies `pc, `cur, vcntr
      decreases 1, 6
      ensures Valid() && (ret == Ok || ret == EFault)
      ensures if ret == Ok then pc == ScanNew(d, 0) && d.g == d0.g else pc == Exit(CaptureFailed)
    {
      d := d0;
      ret := WriteEpu(EPECR + 4 * e, OrWord(ctl, STS));
      if ret != Ok { return; }
      ret, d := ServeLate(d);
    }

    method ServeLate(ghost d0: Cap) returns (ret: Status, ghost d: Cap)
      requires Valid() && pc == CapLate(d0)
      modifies `pc, `cur, vcntr
      decreases 1, 5
      ensures Valid() && (ret == Ok || ret == EFault)
      ensures if ret == Ok then pc == ScanNew(d, 0) && d.g == d0.g else pc == Exit(CaptureFailed)
    {
      d := d0;
      var epctrisr;
      ret, epctrisr := ReadEpu(EPCTRISR);
      if ret != Ok { return; }
      d := d.(t := epctrisr);
      if epctrisr != 0 {
        ret := UpdateVcounters(epctrisr, KNew(d));
      }
    }

    /** Second pass: compare, adjust and compose every group member. */
    method MergeNewWords(group: u32, ghost d0: Cap) returns (ret: Status)
      requires Valid() && pc == ScanNew(d0, 0) && d0.g == group
      modifies `pc, `cur, vcntr, vcntrcapt
      decreases 1, 0
      ensures Valid() && pc.Exit?
      ensures (ret == Ok <==> pc.out.Captured?) && (ret != Ok ==> ret == EFault && pc.out == CaptureFailed)
    {
      var i, epctrgcr := 0, group;
      ghost var d := d0;
      ret := Ok;
      while epctrgcr != 0
        invariant 0 <= i <= 32 && epctrgcr == Shr(group, i) && d.g == group && ret == Ok
        invariant Valid() && pc == ScanNew(d, i)
        decreases epctrgcr
      {
        NonZeroIsLow(group, i);
        if epctrgcr % 2 == 1 {
          ret, d := MergeNewWord(i, d);
          if ret != Ok { return; }
        }
        i := i + 1;
        epctrgcr := epctrgcr / 2;
      }
    }

    /** `vcntrcapt[i] = regVal`. */
    method StoreSaved(i: Index, regVal: u32, ghost d: Cap)
      requires Valid() && pc == CapSave(d, i) && d.c0[i] == regVal
      modifies `pc, `cur, vcntrcapt
      ensures Valid() && pc == ScanOld(d, i + 1) && cur == old(cur) + [Save(i, regVal)]
      ensures vcntrcapt[..] == old(vcntrcapt[..])[i := regVal]
    {
      ghost var was := Registers();
      vcntrcapt[i] := regVal;
      Take(Save(i, regVal), was);
      assert vcntrcapt[..] == old(vcntrcapt[..])[i := regVal];
    }

    /** Compare with the saved word, adjust the overflow word, compose the captured value. */
    method MergeCaptured(i: Index, regVal: u32, ghost d: Cap)
      requires Valid() && pc == CapMerge(d, i) && d.c1[i] == regVal
      modifies `pc, `cur, vcntr, vcntrcapt
      ensures Valid() && pc == ScanNew(d, i + 1) && cur == old(cur) + [Merge(i, regVal)]
      ensures vcntr[..] == old(vcntr[..])[i := Adjusted(old(vcntr[i]), old(vcntrcapt[i]), regVal)]
      ensures vcntrcapt[..]
              == old(vcntrcapt[..])[i := Compose(Adjusted(old(vcntr[i]), old(vcntrcapt[i]), regVal), regVal)]
    {
      ghost var was := Registers();
      MergeWords(i, regVal);
      Take(Merge(i, regVal), was);
    }

    method MergeWords(i: Index, regVal: u32)
      requires Shape()
      modifies vcntr, vcntrcapt
      ensures vcntr[..] == old(vcntr[..])[i := Adjusted(old(vcntr[i]), old(vcntrcapt[i]), regVal)]
      ensures vcntrcapt[..]
              == old(vcntrcapt[..])[i := Compose(Adjusted(old(vcntr[i]), old(vcntrcapt[i]), regVal), regVal)]
    {
      if regVal < vcntrcapt[i] {
        vcntr[i] := (vcntr[i] + 1) % TWO_64;
      }
      ComposedByOr(vcntr[i], regVal);
      vcntrcapt[i] := vcntr[i] * TWO_32 % TWO_64;
      vcntrcapt[i] := Or(vcntrcapt[i], regVal);
    }

    // ----- vir_cntrs.c: mirror read and dispatch

    /**
     What a read of mirror `e` leaves behind; `mirrors` are those it found.  It reads the control register of
     the event once and returns and stores that word; when the read is refused it keeps the lock.
     */
    ghost predicate MirrorDone(e: Event, ret: Status, val: u64, mirrors: Mirrors)
      requires Shape()
      reads this, table.maps, vcntrepecr
    {
      if 0x300 + 4 * e < EpuSize()
      then ret == Ok && val < TWO_32 && cur == [Lock, Rd(0x300 + 4 * e, val), Mirror(e, val)]
           && pc == Rest(Mirrored(e, val)) && !vcLock && vcntrepecr[..] == mirrors[e := val]
      else ret == EFault && cur == [Lock, Fault(0x300 + 4 * e)] && pc == Leaked && vcLock && vcntrepecr[..] == mirrors
    }

    method VcntepecrGet(e: Event) returns (ret: Status, val: u64)
      requires Valid() && pc.Rest?
      modifies `pc, `cur, `op, `r0, `vcLock, vcntrepecr
      decreases 1, 0
      ensures Valid()
      ensures op == OpMirror(e) && r0 == old(Registers())
      ensures MirrorDone(e, ret, val, old(vcntrepecr[..]))
    {
      Begin(OpMirror(e));
      SpinLock();
      var reg;
      val := 0;
      ret, reg := ReadEpu(EPECR + 4 * e);
      if ret != Ok {
        return;
      }
      var epecrVal := reg;
      ghost var was := Registers();
      vcntrepecr[e] := epecrVal;
      Take(Mirror(e, epecrVal), was);
      assert vcntrepecr[..] == old(vcntrepecr[..])[e := epecrVal];
      val := epecrVal;
      SpinUnlock();
    }

    /** `data` is the address of a word of the struct. */
    method VcounterRegRead(data: nat) returns (ret: Status, val: u64)
      requires Valid() && pc.Rest? && vbase <= data < vbase + STRUCT_SIZE
      modifies `pc, `cur, `op, `r0, `vcLock, vcntrepecr
      decreases 2, 0
      ensures Valid()
      ensures !ReadRegion(data - vbase).RMirror? ==>
                ret == Ok && val == Load(Words(vcntctrl, Registers()), ReadRegion(data - vbase))
                && unchanged(`pc, `cur, `op, `r0, `vcLock) && vcntrepecr[..] == old(vcntrepecr[..])
      ensures ReadRegion(data - vbase).RMirror? ==>
                MirrorDone(ReadRegion(data - vbase).e, ret, val, old(vcntrepecr[..]))
    {
      ret := Ok;
      val := 0;
      DispatchAgrees(data - vbase);
      match ReadRegion(data - vbase)
      case RCtrl => val := vcntctrl;
      case RMirror(e) => ret, val := VcntepecrGet(e);
      case RCount(k) => val := vcntr[k];
      case RCapt(k) => val := vcntrcapt[k];
      case _ => assert false;
    }

    method VcounterRegWrite(data: nat, val: u64) returns (ret: Status)
      requires Valid() && pc.Rest? && vbase <= data < vbase + STRUCT_SIZE
      modifies `pc, `cur, `op, `r0, `vcLock, `vcntctrl, vcntr, vcntrcapt
      decreases 3, 0
      ensures Valid()
      ensures !WriteRegion(data - vbase).RMirror? ==>
                ret == Ok && unchanged(`pc, `cur, `op, `r0, `vcLock)
                && Words(vcntctrl, Registers())
                   == Store(Words(old(vcntctrl), old(Registers())), WriteRegion(data - vbase), val)
      ensures WriteRegion(data - vbase).RMirror? ==>
                vcntctrl == old(vcntctrl) && CaptureDone(WriteRegion(data - vbase).e, ret, old(Registers()))
    {
      ret := Ok;
      DispatchAgrees(data - vbase);
      match WriteRegion(data - vbase)
      case RCtrl => vcntctrl := val % TWO_32;
      case RMirror(e) => ret := VcntepecrSet(e);
      case RCount(k) =>
        vcntr[k] := val;
        assert vcntr[..] == old(vcntr[..])[k := val];
      case RCapt(k) =>
        vcntrcapt[k] := val;
        assert vcntrcapt[..] == old(vcntrcapt[..])[k := val];
      case _ => assert false;
    }

    // ----- vir_cntrs.c: control register and interrupt binding

    ghost function IrqState(): IrqControl.Irq
      requires Shape()
      reads `vcntctrl, `irqNum, `requests, `frees, epccr
    {
      IrqControl.Irq(vcntctrl, irqNum, requests, frees, epccr[..])
    }

    /** One EPCCR word. */
    method FillOne(i: Index, val: u32) returns (ret: Status)
      requires Valid() && pc.Rest?
      modifies `pc, `cur, `io, epccr
      ensures Valid() && unchanged(`pc, `cur)
      ensures ret == if IrqControl.Mapped(EpuSize(), i) then Ok else EFault
      ensures io == old(io) + [if ret == Ok then IrqControl.Wrote(EPU, 0x800 + 4 * i, val)
                               else IrqControl.Refused(EPU, 0x800 + 4 * i)]
      ensures epccr[..] == if ret == Ok then old(epccr[..])[i := val] else old(epccr[..])
    {
      ret := WriteReg(EPU, EPCCR + 4 * i, val);
    }

    /** Write `val` to the EPCCR words in order, up to the first refused one. */
    method FillEpccr(val: u32) returns (ret: Status)
      requires Valid() && pc.Rest?
      modifies `pc, `cur, `io, epccr
      ensures Valid() && unchanged(`pc, `cur)
      ensures io == old(io) + IrqControl.FillSteps(EpuSize(), val, 0)
      ensures ret == if IrqControl.AllMapped(EpuSize()) then Ok else EFault
      ensures epccr[..] == IrqControl.Filled(EpuSize(), old(epccr[..]), val)
    {
      ghost var size, was := EpuSize(), epccr[..];
      ret := Ok;
      for i := 0 to 32
        invariant Valid() && pc == old(pc) && cur == old(cur) && size == EpuSize() && ret == Ok
        invariant forall j: nat :: j < i ==> IrqControl.Mapped(size, j)
        invariant io + IrqControl.FillSteps(size, val, i) == old(io) + IrqControl.FillSteps(size, val, 0)
        invariant forall j :: 0 <= j < 32 ==> epccr[..][j] == if j < i then val else was[j]
      {
        IrqControl.FillNext(size, val, i, io);
        ret := FillOne(i, val);
        if ret != Ok {
          assert epccr[..] == IrqControl.Filled(size, was, val);
          return;
        }
      }
      assert epccr[..] == IrqControl.Filled(size, was, val);
    }

    method EpuBindIrq(g: IrqControl.Grant) returns (ret: Status)
      requires Valid() && pc.Rest?
      modifies `pc, `cur, `io, `irqNum, `requests, epccr
      ensures Valid() && unchanged(`pc, `cur)
      ensures io == old(io) + IrqControl.BindSteps(EpuSize(), g)
      ensures (ret, IrqState()) == IrqControl.Bind(EpuSize(), old(IrqState()), g)
    {
      ret := ClearPending();
      if ret != Ok {
        return;
      }
      irqNum := g.num;
      if irqNum != 0 {
        ret := RequestIrq(g);
      }
      IrqControl.BindJoined(EpuSize(), g, old(io));
    }

    method ClearPending() returns (ret: Status)
      requires Valid() && pc.Rest?
      modifies `pc, `cur, `io
      ensures Valid() && unchanged(`pc, `cur) && ret == if EpuSize() > 0x30 then Ok else EFault
      ensures io == old(io) + [if ret == Ok then IrqControl.Wrote(EPU, 0x30, 0xFFFF_FFFF)
                               else IrqControl.Refused(EPU, 0x30)]
    {
      ret := WriteReg(EPU, EPCTRISR, 0xFFFF_FFFF);
    }

    /** request_irq and, when it is granted, the overflow interrupts of the counters. */
    method RequestIrq(g: IrqControl.Grant) returns (ret: Status)
      requires Valid() && pc.Rest? && irqNum == g.num != 0
      modifies `pc, `cur, `io, `requests, epccr
      ensures Valid() && unchanged(`pc, `cur)
      ensures io == old(io) + IrqControl.RequestSteps(EpuSize(), g)
      ensures if g.granted
              then ret == (if IrqControl.AllMapped(EpuSize()) then Ok else EFault) && requests == old(requests) + 1
                   && epccr[..] == IrqControl.Filled(EpuSize(), old(epccr[..]), 0x180)
              else ret == EOther && requests == old(requests) && epccr[..] == old(epccr[..])
    {
      IrqControl.RequestJoined(EpuSize(), g, io);
      io := io + [IrqControl.Requested(g.num, g.granted)];
      if !g.granted {
        return EOther;
      }
      requests := requests + 1;
      var val: u32 := 0x1 * 0x100 + 0x80;
      ret := FillEpccr(val);
    }

    method EpuUnbindIrq() returns (ret: Status)
      requires Valid() && pc.Rest?
      modifies `pc, `cur, `io, `irqNum, `frees, epccr
      ensures Valid() && unchanged(`pc, `cur)
      ensures io == old(io) + IrqControl.UnbindSteps(EpuSize(), old(irqNum))
      ensures (ret, IrqState()) == IrqControl.Unbind(EpuSize(), old(IrqState()))
    {
      ret := FillEpccr(0);
      if irqNum != 0 {
        io := io + [IrqControl.Freed(irqNum)];
        frees := frees + 1;
        irqNum := 0;
      }
    }

    method VcntrctrlSet(val: u64, g: IrqControl.Grant) returns (ret: Status)
      requires Valid() && pc.Rest?
      modifies `pc, `cur, `io, `vcntctrl, `irqNum, `requests, `frees, epccr
      ensures Valid() && unchanged(`pc, `cur)
      ensures io == old(io) + IrqControl.CtrlSteps(EpuSize(), old(IrqState()), val, g)
      ensures (ret, IrqState()) == IrqControl.CtrlWrite(EpuSize(), old(IrqState()), val, g)
    {
      var origVal := vcntctrl;
      var newVal: u32 := val % TWO_32;
      ret := Ok;
      if newVal % 2 == 1 {
        if origVal % 2 == 0 {
          ret := EpuBindIrq(g);
        }
      } else {
        if origVal % 2 == 1 {
          ret := EpuUnbindIrq();
        }
      }
      vcntctrl := val % TWO_32;
    }

    /** The end of `vcounters_init`: the struct becomes a register module. */
    method VcountersInit()
      requires Shape() && pc.Rest? && !vcLock
      modifies table.maps
      ensures Valid() && RamLookup(table.maps[..], VCOUNT, STRUCT_SIZE) == EFault
      ensures forall off: nat :: off < STRUCT_SIZE <==> RamLookup(table.maps[..], VCOUNT, off) == Ok
      ensures EpuSize() == old(EpuSize())
    {
      var ret := table.RegAddMap(VCOUNT, vbase, STRUCT_SIZE);
      assert forall i :: 0 <= i < 16 ==> table.maps[i] == table.maps[..][i];
    }

    // ----- reg_access.c: user requests

    /** DBG_READ_REG: `copied` and `stored` say whether the user copies succeed. */
    method UserRead(id: int, off: nat, size: nat, copied: bool, stored: bool) returns (ret: Status, buffer: u64)
      requires Valid() && pc.Rest?
      modifies `pc, `cur, (if id == VCOUNT then {this} else {})`op, (if id == VCOUNT then {this} else {})`r0,
               (if id == VCOUNT then {this} else {})`vcLock, (if id == VCOUNT then {vcntrepecr} else {}), `io
      ensures Valid()
      ensures !copied ==> ret == EFault
      ensures !copied || !ValidSize(size) || !IsIoMapped(id) ==> io == old(io)
      ensures copied && ValidSize(size) && IsIoMapped(id) ==>
                && |io| > 0 && io[..|io| - 1] == old(io)
                && var done := io[|io| - 1];
                   if IoLookup(table.maps[..], id, off) != Ok then done == IrqControl.Refused(id, off)
                   else done.Read? && done.id == id && done.off == off && (ret == Ok ==> buffer == done.val)
      ensures copied && !ValidSize(size) ==> ret == EInval
      ensures copied && ValidSize(size) && IsIoMapped(id) ==>
                ret == if IoLookup(table.maps[..], id, off) != Ok then IoLookup(table.maps[..], id, off)
                       else if stored then Ok else EFault
      ensures copied && ValidSize(size) && RamLookup(table.maps[..], id, off) == Ok && !ReadRegion(off).RMirror? ==>
                off < STRUCT_SIZE
                && (if stored then ret == Ok && buffer == Cut(Load(Words(vcntctrl, Registers()), ReadRegion(off)), size)
                    else ret == EFault)
      ensures copied && ValidSize(size) && RamLookup(table.maps[..], id, off) == Ok && ReadRegion(off).RMirror? ==>
                var e := ReadRegion(off).e;
                if 0x300 + 4 * e < EpuSize()
                then pc.Rest? && pc.out.Mirrored? && MirrorDone(e, Ok, pc.out.val, old(vcntrepecr[..]))
                     && (if stored then ret == Ok && buffer == pc.out.val else ret == EFault)
                else MirrorDone(e, ret, 0, old(vcntrepecr[..]))
      ensures copied && ValidSize(size) && id == EPU && ret == Ok && 0x800 <= off < 0x880 ==>
                buffer == epccr[(off - 0x800) / 4]
      ensures copied && ValidSize(size) && !IsIoMapped(id) && RamLookup(table.maps[..], id, off) != Ok ==>
                ret == RamLookup(table.maps[..], id, off)
    {
      buffer := 0;
      if !copied { return EFault, 0; }
      if size != 32 && size != 64 { return EInval, 0; }
      var val;
      ret, val := ReadReg(id, off);
      if ret == Ok {
        buffer := if size == 32 then val % TWO_32 else val;
        if !stored { ret := EFault; }
      }
    }

    /** DBG_WRITE_REG: `copied` and `fetched` say whether the user copies succeed. */
    method UserWrite(id: int, off: nat, size: nat, buffer: u64, copied: bool, fetched: bool) returns (ret: Status)
      requires Valid() && pc.Rest?
      modifies `pc, `cur, (if id == VCOUNT then {this} else {})`op, (if id == VCOUNT then {this} else {})`r0,
               (if id == VCOUNT then {this} else {})`vcLock, (if id == VCOUNT then {this} else {})`vcntctrl,
               (if id == VCOUNT then {vcntr, vcntrcapt} else {}),
               (if id == EPU && 0x800 <= off < 0x880 then {epccr} else {}), `io
      ensures Valid()
      ensures !copied ==> ret == EFault
      ensures !copied || !ValidSize(size) || !fetched || !IsIoMapped(id) ==> io == old(io)
      ensures copied && ValidSize(size) && fetched && IsIoMapped(id) ==>
                io == old(io) + [if ret == Ok then IrqControl.Wrote(id, off, buffer % TWO_32)
                                 else IrqControl.Refused(id, off)]
      ensures copied && !ValidSize(size) ==> ret == EInval
      ensures copied && ValidSize(size) && !fetched ==> ret == EFault
      ensures !copied || !ValidSize(size) || !fetched ==> Registers() == old(Registers()) && vcntctrl == old(vcntctrl)
      ensures copied && ValidSize(size) && fetched && IsIoMapped(id) ==> ret == IoLookup(table.maps[..], id, off)
      ensures copied && ValidSize(size) && fetched
              && RamLookup(table.maps[..], id, off) == Ok && !WriteRegion(off).RMirror? ==>
                off < STRUCT_SIZE && ret == Ok
                && Words(vcntctrl, Registers())
                   == Store(Words(old(vcntctrl), old(Registers())), WriteRegion(off), Cut(buffer, size))
      ensures copied && ValidSize(size) && fetched
              && RamLookup(table.maps[..], id, off) == Ok && WriteRegion(off).RMirror? ==>
                CaptureDone(WriteRegion(off).e, ret, old(Registers()))
      ensures copied && ValidSize(size) && fetched && id == EPU && ret == Ok && 0x800 <= off < 0x880 ==>
                epccr[..] == old(epccr[..])[(off - 0x800) / 4 := Cut(buffer, size) % TWO_32]
      ensures id == EPU && ret != Ok ==> epccr[..] == old(epccr[..])
      ensures copied && ValidSize(size) && fetched && !IsIoMapped(id) && RamLookup(table.maps[..], id, off) != Ok ==>
                ret == RamLookup(table.maps[..], id, off) && Registers() == old(Registers()) && vcntctrl == old(vcntctrl)
    {
      if !copied { return EFault; }
      if size != 32 && size != 64 { return EInval; }
      var val := if size == 32 then buffer % TWO_32 else buffer;
      if !fetched { return EFault; }
      ret := WriteReg(id, off, val);
    }
  }

  lemma {:induction false} Regroup(a: seq<Ev>, b: seq<Ev>, c: seq<Ev>)
    ensures a + (b + c) == (a + b) + c
  {
  }

  /** Every counter named by the mask below bit `i` is mapped. */
  ghost predicate MappedBelow(size: nat, mask: u32, i: nat) {
    forall j: nat | j < i :: Bit(mask, j) ==> EPCTR + 4 * j < size
  }

  /** One turn of the bit-scan loop. */
  lemma {:induction false} UpdTailNext(size: nat, mask: u32, i: Index, k: Cont)
    requires EPCTRISR < size && Shr(mask, i) != 0 && MappedBelow(size, mask, i)
    ensures !Bit(mask, i) ==>
              UpdTail(size, mask, i) == UpdTail(size, mask, i + 1) && Scan(mask, i, k) == Scan(mask, i + 1, k)
              && MappedBelow(size, mask, i + 1)
    ensures Bit(mask, i) && EPCTR + 4 * i < size ==>
              UpdTail(size, mask, i) == [Inc(i), Wr(EPCTR + 4 * i, 0)] + UpdTail(size, mask, i + 1)
              && MappedBelow(size, mask, i + 1)
    ensures Bit(mask, i) && EPCTR + 4 * i >= size ==>
              UpdTail(size, mask, i) == [Inc(i), Fault(EPCTR + 4 * i)] && !UpdSucceeds(size, mask)
    ensures Bit(mask, i) ==> Scan(mask, i, k) == Bump(mask, i, k)
  {
  }

  /** The end of the bit-scan loop. */
  lemma {:induction false} UpdTailEnd(size: nat, mask: u32, i: Count, k: Cont)
    requires EPCTRISR < size && Shr(mask, i) == 0 && MappedBelow(size, mask, i)
    ensures UpdTail(size, mask, i) == [] && UpdSucceeds(size, mask) && Scan(mask, i, k) == Resume(mask, k)
  {
    forall j: nat | i <= j ensures !Bit(mask, j) { NoBitsAbove(mask, i, j); }
  }

  /** The low half of a shifted word is free for the capture word. */
  lemma {:induction false} LowHalfFree(v: u32, low: u32)
    ensures Or(v * TWO_32, low) == v * TWO_32 + low
  {
    Pow2Values();
    OrIsSum(v, low, 32);
  }

  /** Shifting the overflow word up and or-ing the capture word in composes the captured value. */
  lemma {:induction false} ComposedByOr(v: u64, low: u32)
    ensures Or(v * TWO_32 % TWO_64, low) == Compose(v, low)
  {
    ShiftedHigh(v);
    LowHalfFree(v % TWO_32, low);
  }

  lemma {:induction false} ShiftedHigh(v: u64)
    ensures v * TWO_32 % TWO_64 == v % TWO_32 * TWO_32
  {
    var q, r := v / TWO_32, v % TWO_32;
    assert v * TWO_32 == q * TWO_64 + r * TWO_32;
  }
}
