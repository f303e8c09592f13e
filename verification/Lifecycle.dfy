/** The module from loading to unloading, over any device tree and any sequence of control writes. */
module Lifecycle {
  import opened RegMap
  import opened Protocol
  import opened Platform
  import opened IrqControl
  import Driver

  /** Control writes from user space, one after the other. */
  method ControlWrites(dbg: Driver.LsDbg, calls: seq<Call>)
    requires dbg.Valid() && dbg.pc.Rest?
    modifies dbg`vcntctrl, dbg`pc, dbg`cur, dbg`io, dbg`irqNum, dbg`requests, dbg`frees, dbg.epccr
    ensures dbg.Valid() && dbg.pc.Rest?
    ensures dbg.IrqState() == CtrlRun(dbg.EpuSize(), old(dbg.IrqState()), calls)
  {
    for n := 0 to |calls|
      invariant dbg.Valid() && dbg.pc.Rest?
      invariant CtrlRun(dbg.EpuSize(), dbg.IrqState(), calls[n..]) == CtrlRun(dbg.EpuSize(), old(dbg.IrqState()), calls)
    {
      assert calls[n..][1..] == calls[n + 1..] && calls[n..][0] == calls[n];
      var _ := dbg.VcntrctrlSet(calls[n].val, calls[n].g);
    }
  }

  /** Nothing probed, nothing requested. */
  function Unloaded(): Irq {
    Irq(0, 0, 0, 0, ZeroRow())
  }

  function EmptyTable(): (maps: seq<MapInfo>)
    ensures |maps| == MAX_TRACE_MODULES
  {
    seq(MAX_TRACE_MODULES, i => MapInfo(0, 0))
  }

  /** Loading: the devices are probed into a fresh table, then the virtual counters are registered in it. */
  method Load(vbase: nat, tree: seq<Compatible>, rootCreated: bool, init: Status)
      returns (ret: Status, drv: DcsrDriver, dbg: Driver.LsDbg)
    requires ProbeOrder(tree)
    ensures ret == if !rootCreated then ENoMem else init
    ensures fresh(drv) && fresh(dbg) && fresh(dbg.epccr) && drv.table == dbg.table
    ensures forall k :: 0 <= k < |drv.devs| ==> fresh(drv.devs[k])
    ensures drv.Sound() && dbg.Valid() && dbg.pc.Rest? && dbg.IrqState() == Unloaded()
    ensures drv.mapped == ProbeTree(tree, Probed(EmptyTable(), [], [])).mapped
    ensures ret != Ok ==> drv.devs == []
  {
    dbg := new Driver.LsDbg(vbase);
    drv := new DcsrDriver(dbg.table);
    assert drv.Now() == Probed(EmptyTable(), [], []);
    ret := drv.DcsrProbe(tree, rootCreated, init);
    Register(drv, dbg);
  }

  /** Registering the virtual counters touches nothing of the devices. */
  method Register(drv: DcsrDriver, dbg: Driver.LsDbg)
    requires drv.Sound() && drv.table == dbg.table && dbg.Shape() && dbg.pc.Rest? && !dbg.vcLock
    modifies dbg.table.maps
    ensures drv.Sound() && dbg.Valid()
  {
    ghost var p := drv.Now();
    dbg.VcountersInit();
    assert drv.Now() == p.(maps := drv.Now().maps);
  }

  /**
   Load, any control writes and, if the probe succeeded, remove.  Every address has been unmapped as often as
   the probe mapped it.  If the EPU map reaches over EPCCR and every binding write was granted, every interrupt
   requested has been freed and every EPCCR word is 0.
   */
  method LoadAndUnload(vbase: nat, tree: seq<Compatible>, rootCreated: bool, init: Status, calls: seq<Call>)
      returns (ret: Status, drv: DcsrDriver, dbg: Driver.LsDbg)
    requires ProbeOrder(tree)
    ensures ret == if !rootCreated then ENoMem else init
    ensures drv.devs == [] && Settled(drv.mapped, drv.unmapped)
    ensures drv.mapped == ProbeTree(tree, Probed(EmptyTable(), [], [])).mapped
    ensures dbg.Shape() && dbg.table == drv.table
    ensures ret == Ok && dbg.EpuSize() >= EPCCR_SPAN && AllGranted(dbg.EpuSize(), Unloaded(), calls) ==>
              Released(dbg.IrqState())
  {
    ret, drv, dbg := Load(vbase, tree, rootCreated, init);
    ghost var p, size := drv.Now(), dbg.EpuSize();
    ControlWrites(dbg, calls);
    assert drv.Now() == p && drv.Valid();
    ghost var q := dbg.IrqState();
    if ret == Ok {
      drv.DcsrRemove(dbg);
      if size >= EPCCR_SPAN && AllGranted(size, Unloaded(), calls) {
        LifecycleConsistent(size, Unloaded(), calls);
        UnbindReleases(size, q);
      }
    } else {
      GivenBack(p, drv.unmapped);
      assert drv.unmapped + AllLive([]) == drv.unmapped;
    }
  }
}
