/** Probing the device tree into the map table, and tearing the devices down. */
module Platform {
  import opened RegMap
  import Driver
  import IrqControl

  /** One memory range of a node: the address `of_iomap` returned, 0 for none, and its size. */
  datatype Range = Range(ptr: nat, size: nat)

  type Ranges = r: seq<Range> | |r| == 2 witness [Range(0, 0), Range(0, 0)]

  /** A compatible node: whether memory for a device structure was found, and its ranges. */
  datatype Node = Node(gotMemory: bool, ranges: Ranges)

  type Ptrs = p: seq<nat> | |p| == 2 witness [0, 0]

  /** What the device list shows of a device. */
  datatype Device = Device(dtIdx: nat, ptrs: Ptrs)

  class DbgDevice {
    const dtIdx: nat
    var memPtr: Ptrs

    constructor (idx: nat)
      ensures dtIdx == idx && memPtr == [0, 0]
    {
      dtIdx, memPtr := idx, [0, 0];
    }
  }

  // ----- the writes of the probe loops

  datatype Entry = Entry(slot: int, info: MapInfo)

  function RangeWrites(id: int, node: Node, index: nat, i: nat): seq<Entry>
    requires i <= 2
    decreases 2 - i
  {
    if i == 2 then []
    else if node.ranges[i].ptr == 0 then RangeWrites(id, node, index, i + 1)
    else [Entry(id + index + i, MapInfo(node.ranges[i].ptr, node.ranges[i].size))] + RangeWrites(id, node, index, i + 1)
  }

  /** What the loop over `nodes` records, the first allocated device having ordinal `index`. */
  function Writes(id: int, nodes: seq<Node>, index: nat): seq<Entry>
    decreases nodes
  {
    if nodes == [] then []
    else if !nodes[0].gotMemory then Writes(id, nodes[1..], index)
    else RangeWrites(id, nodes[0], index, 0) + Writes(id, nodes[1..], index + 1)
  }

  function Apply(maps: seq<MapInfo>, ws: seq<Entry>): (r: seq<MapInfo>)
    requires |maps| == MAX_TRACE_MODULES
    ensures |r| == MAX_TRACE_MODULES
    decreases ws
  {
    if ws == [] then maps else Apply(WithMap(maps, ws[0].slot, ws[0].info), ws[1..])
  }

  function PtrsOf(node: Node): Ptrs {
    [node.ranges[0].ptr, node.ranges[1].ptr]
  }

  /** The addresses a device holds, and those a list of devices holds, in order. */
  function Live(p: Ptrs): seq<nat> {
    (if p[0] != 0 then [p[0]] else []) + (if p[1] != 0 then [p[1]] else [])
  }

  function AllLive(devices: seq<Device>): seq<nat> {
    if devices == [] then [] else Live(devices[0].ptrs) + AllLive(devices[1..])
  }

  // ----- what probing leaves behind

  /** The map table, the device list and every address mapped so far. */
  datatype Probed = Probed(maps: seq<MapInfo>, devices: seq<Device>, mapped: seq<nat>) {
    predicate Valid() {
      |maps| == MAX_TRACE_MODULES
    }
  }

  /** One node: its ranges are recorded and its device goes to the head of the list. */
  function ProbeNode(id: int, node: Node, index: nat, p: Probed): (r: Probed)
    requires p.Valid()
    ensures r.Valid()
  {
    Probed(Apply(p.maps, RangeWrites(id, node, index, 0)),
           [Device(index, PtrsOf(node))] + p.devices,
           p.mapped + Live(PtrsOf(node)))
  }

  /** The nodes of one compatible; one without memory for its device is passed over and takes no ordinal. */
  function ProbeNodes(id: int, nodes: seq<Node>, index: nat, p: Probed): (r: Probed)
    requires p.Valid()
    ensures r.Valid()
    decreases nodes
  {
    if nodes == [] then p
    else if !nodes[0].gotMemory then ProbeNodes(id, nodes[1..], index, p)
    else ProbeNodes(id, nodes[1..], index + 1, ProbeNode(id, nodes[0], index, p))
  }

  function ProbeTree(tree: seq<Compatible>, p: Probed): (r: Probed)
    requires p.Valid()
    ensures r.Valid()
    decreases tree
  {
    if tree == [] then p else ProbeTree(tree[1..], ProbeNodes(tree[0].id, tree[0].nodes, 0, p))
  }

  lemma {:induction false} ProbeNodesTable(id: int, nodes: seq<Node>, index: nat, p: Probed)
    requires p.Valid()
    ensures ProbeNodes(id, nodes, index, p).maps == Apply(p.maps, Writes(id, nodes, index))
    ensures |ProbeNodes(id, nodes, index, p).devices| == |p.devices| + Count(nodes)
    decreases nodes
  {
    if nodes != [] {
      if nodes[0].gotMemory {
        ApplyConcat(p.maps, RangeWrites(id, nodes[0], index, 0), Writes(id, nodes[1..], index + 1));
        ProbeNodesTable(id, nodes[1..], index + 1, ProbeNode(id, nodes[0], index, p));
      } else {
        ProbeNodesTable(id, nodes[1..], index, p);
      }
    }
  }

  /** The table after probing is what the recorded ranges, in order, make of it. */
  lemma {:induction false} ProbeTreeTable(tree: seq<Compatible>, p: Probed)
    requires p.Valid()
    ensures ProbeTree(tree, p).maps == Apply(p.maps, ProbeWrites(tree))
    decreases tree
  {
    if tree != [] {
      ProbeNodesTable(tree[0].id, tree[0].nodes, 0, p);
      ApplyConcat(p.maps, Writes(tree[0].id, tree[0].nodes, 0), ProbeWrites(tree[1..]));
      ProbeTreeTable(tree[1..], ProbeNodes(tree[0].id, tree[0].nodes, 0, p));
    }
  }

  /** Every node that gets memory becomes one device, the latest first, numbered in the order of the nodes. */
  lemma {:induction false} DevicesListed(id: int, nodes: seq<Node>, index: nat, p: Probed)
    requires p.Valid()
    ensures var after, devices := ProbeNodes(id, nodes, index, p).devices, Devices(nodes);
            && |after| == |devices| + |p.devices|
            && after[|devices|..] == p.devices
            && forall o :: 0 <= o < |devices| ==>
                 after[|devices| - 1 - o]
                 == Device(index + o, [devices[o].ranges[0].ptr, devices[o].ranges[1].ptr])
    decreases nodes
  {
    if nodes != [] {
      var rest := Devices(nodes[1..]);
      if nodes[0].gotMemory {
        var p1 := ProbeNode(id, nodes[0], index, p);
        DevicesListed(id, nodes[1..], index + 1, p1);
        var after := ProbeNodes(id, nodes, index, p).devices;
        assert Devices(nodes) == [nodes[0]] + rest;
        assert after[|rest| + 1..] == after[|rest|..][1..] == p1.devices[1..] == p.devices;
        forall o | 0 <= o < |rest| + 1
          ensures after[|rest| - o] == Device(index + o, PtrsOf(Devices(nodes)[o]))
        {
          if o == 0 {
            assert after[|rest|] == after[|rest|..][0];
          } else {
            assert after[|rest| - 1 - (o - 1)] == Device(index + 1 + (o - 1), PtrsOf(rest[o - 1]));
          }
        }
      } else {
        DevicesListed(id, nodes[1..], index, p);
        assert Devices(nodes) == rest;
      }
    }
  }

  /** Every mapped address has been given back once, or is held by one listed device. */
  ghost predicate Balanced(p: Probed, unmapped: seq<nat>) {
    forall x: nat :: multiset(p.mapped)[x] == multiset(unmapped)[x] + multiset(AllLive(p.devices))[x]
  }

  /** Every address has been given back as often as it was mapped. */
  ghost predicate Settled(mapped: seq<nat>, unmapped: seq<nat>) {
    forall x: nat :: multiset(mapped)[x] == multiset(unmapped)[x]
  }

  /** Giving back what the devices hold, and forgetting the devices, keeps the balance; nothing is owed then. */
  lemma GivenBack(p: Probed, unmapped: seq<nat>)
    requires Balanced(p, unmapped)
    ensures Balanced(p.(devices := []), unmapped + AllLive(p.devices))
    ensures Settled(p.mapped, unmapped + AllLive(p.devices))
  {
    assert multiset(unmapped + AllLive(p.devices)) == multiset(unmapped) + multiset(AllLive(p.devices));
  }

  lemma NodeKeepsBalance(id: int, node: Node, index: nat, p: Probed, unmapped: seq<nat>)
    requires p.Valid() && Balanced(p, unmapped)
    ensures Balanced(ProbeNode(id, node, index, p), unmapped)
  {
    var device := Device(index, PtrsOf(node));
    assert ([device] + p.devices)[1..] == p.devices;
    assert AllLive([device] + p.devices) == Live(PtrsOf(node)) + AllLive(p.devices);
  }

  lemma {:induction false} NodesKeepBalance(id: int, nodes: seq<Node>, index: nat, p: Probed, unmapped: seq<nat>)
    requires p.Valid() && Balanced(p, unmapped)
    ensures Balanced(ProbeNodes(id, nodes, index, p), unmapped)
    decreases nodes
  {
    if nodes != [] {
      if nodes[0].gotMemory {
        NodeKeepsBalance(id, nodes[0], index, p, unmapped);
        NodesKeepBalance(id, nodes[1..], index + 1, ProbeNode(id, nodes[0], index, p), unmapped);
      } else {
        NodesKeepBalance(id, nodes[1..], index, p, unmapped);
      }
    }
  }

  /** Probing any device tree loses no address: what it maps stays held by the listed devices, each once. */
  lemma {:induction false} ProbeKeepsBalance(tree: seq<Compatible>, p: Probed, unmapped: seq<nat>)
    requires p.Valid() && Balanced(p, unmapped)
    ensures Balanced(ProbeTree(tree, p), unmapped)
    decreases tree
  {
    if tree != [] {
      NodesKeepBalance(tree[0].id, tree[0].nodes, 0, p, unmapped);
      ProbeKeepsBalance(tree[1..], ProbeNodes(tree[0].id, tree[0].nodes, 0, p), unmapped);
    }
  }

  // ----- what the table holds

  lemma {:induction false} ApplyConcat(maps: seq<MapInfo>, a: seq<Entry>, b: seq<Entry>)
    requires |maps| == MAX_TRACE_MODULES
    ensures Apply(maps, a + b) == Apply(Apply(maps, a), b)
    decreases a
  {
    if a == [] {
      assert a + b == b;
    } else {
      assert (a + b)[1..] == a[1..] + b;
      ApplyConcat(WithMap(maps, a[0].slot, a[0].info), a[1..], b);
    }
  }

  /** A slot nobody writes keeps its entry. */
  lemma {:induction false} Untouched(maps: seq<MapInfo>, ws: seq<Entry>, slot: nat)
    requires |maps| == MAX_TRACE_MODULES && slot < MAX_TRACE_MODULES
    requires forall n :: 0 <= n < |ws| ==> ws[n].slot != slot
    ensures Apply(maps, ws)[slot] == maps[slot]
    decreases ws
  {
    if ws != [] {
      assert ws[0].slot != slot;
      Untouched(WithMap(maps, ws[0].slot, ws[0].info), ws[1..], slot);
    }
  }

  /** Every slot holds what its last writer recorded. */
  lemma {:induction false} LastWriterWins(maps: seq<MapInfo>, ws: seq<Entry>, n: nat)
    requires |maps| == MAX_TRACE_MODULES && n < |ws| && 0 <= ws[n].slot < NUM_IDS
    requires forall m :: n < m < |ws| ==> ws[m].slot != ws[n].slot
    ensures Apply(maps, ws)[ws[n].slot] == ws[n].info
    decreases ws
  {
    var maps' := WithMap(maps, ws[0].slot, ws[0].info);
    if n == 0 {
      Untouched(maps', ws[1..], ws[0].slot);
    } else {
      LastWriterWins(maps', ws[1..], n - 1);
    }
  }

  // ----- staying inside the slots of a module

  /** The nodes that become devices; the position here is the ordinal of the device. */
  function Devices(nodes: seq<Node>): seq<Node> {
    if nodes == [] then []
    else (if nodes[0].gotMemory then [nodes[0]] else []) + Devices(nodes[1..])
  }

  predicate Maps(node: Node, i: nat) {
    i < 2 && node.ranges[i].ptr != 0
  }

  /** Every mapped range of every device lands below `hi`, the first device having ordinal `index`. */
  predicate Lands(devices: seq<Node>, index: nat, hi: nat) {
    forall o, i :: 0 <= o < |devices| && 0 <= i < 2 && Maps(devices[o], i) ==> index + o + i < hi
  }

  /** No device's second range and its successor's first range claim the same slot. */
  predicate Apart(devices: seq<Node>) {
    forall o :: 0 <= o < |devices| - 1 && Maps(devices[o], 1) ==> !Maps(devices[o + 1], 0)
  }

  /** The devices of a compatible fit the `slots` consecutive ids reserved for it. */
  predicate Fits(nodes: seq<Node>, slots: nat) {
    Lands(Devices(nodes), 0, slots) && Apart(Devices(nodes))
  }

  predicate Inside(ws: seq<Entry>, lo: int, hi: int) {
    forall n :: 0 <= n < |ws| ==> lo <= ws[n].slot < hi
  }

  predicate Distinct(ws: seq<Entry>) {
    forall m, n :: 0 <= m < n < |ws| ==> ws[m].slot != ws[n].slot
  }

  predicate HasSlot(ws: seq<Entry>, slot: int) {
    exists n :: 0 <= n < |ws| && ws[n].slot == slot
  }

  predicate Disjoint(a: seq<Entry>, b: seq<Entry>) {
    forall n :: 0 <= n < |a| ==> !HasSlot(b, a[n].slot)
  }

  /** Concatenation, slot by slot. */
  lemma SlotsOfConcat(a: seq<Entry>, b: seq<Entry>, lo: int, hi: int)
    ensures Inside(a + b, lo, hi) <==> Inside(a, lo, hi) && Inside(b, lo, hi)
    ensures Distinct(a + b) <==>
              Distinct(a) && Distinct(b) && Disjoint(a, b)
  {
    var ws := a + b;
    assert forall n :: 0 <= n < |a| ==> ws[n] == a[n];
    assert forall n :: 0 <= n < |b| ==> ws[|a| + n] == b[n];
    if Inside(ws, lo, hi) {
      forall n | 0 <= n < |b| ensures lo <= b[n].slot < hi { assert ws[|a| + n] == b[n]; }
    }
    if Distinct(ws) {
      forall m, n | 0 <= m < n < |b| ensures b[m].slot != b[n].slot { assert ws[|a| + m] == b[m] && ws[|a| + n] == b[n]; }
      forall n | 0 <= n < |a| ensures !HasSlot(b, a[n].slot) {
        forall m | 0 <= m < |b| ensures b[m].slot != a[n].slot { assert ws[n] == a[n] && ws[|a| + m] == b[m]; }
      }
    }
  }

  /** The entries of one node. */
  lemma {:induction false} RangeEntries(id: int, node: Node, index: nat)
    ensures var ws := RangeWrites(id, node, index, 0);
            ws == (if Maps(node, 0) then [Entry(id + index, MapInfo(node.ranges[0].ptr, node.ranges[0].size))] else [])
                + (if Maps(node, 1) then [Entry(id + index + 1, MapInfo(node.ranges[1].ptr, node.ranges[1].size))] else [])
  {
    assert RangeWrites(id, node, index, 2) == [];
    assert RangeWrites(id, node, index, 1)
        == if Maps(node, 1) then [Entry(id + index + 1, MapInfo(node.ranges[1].ptr, node.ranges[1].size))] else [];
  }

  /** Nodes without memory leave no trace. */
  lemma {:induction false} WritesOfDevices(id: int, nodes: seq<Node>, index: nat)
    ensures Writes(id, nodes, index) == Writes(id, Devices(nodes), index)
    decreases nodes
  {
    if nodes != [] {
      var rest := Devices(nodes[1..]);
      WritesOfDevices(id, nodes[1..], if nodes[0].gotMemory then index + 1 else index);
      if nodes[0].gotMemory {
        assert Devices(nodes)[0] == nodes[0] && Devices(nodes)[1..] == rest;
      } else {
        assert Devices(nodes) == rest;
      }
    }
  }

  predicate AllAllocated(devices: seq<Node>) {
    forall o :: 0 <= o < |devices| ==> devices[o].gotMemory
  }

  lemma {:induction false} DevicesAllocated(nodes: seq<Node>)
    ensures AllAllocated(Devices(nodes))
    decreases nodes
  {
    if nodes != [] { DevicesAllocated(nodes[1..]); }
  }

  /** The lowest slot is written by the first range of the first device, and by nothing else. */
  lemma {:induction false} LowestSlot(id: int, devices: seq<Node>, index: nat)
    requires AllAllocated(devices)
    ensures forall n :: 0 <= n < |Writes(id, devices, index)| ==> Writes(id, devices, index)[n].slot >= id + index
    ensures HasSlot(Writes(id, devices, index), id + index) <==> devices != [] && Maps(devices[0], 0)
    decreases devices
  {
    if devices != [] {
      RangeEntries(id, devices[0], index);
      LowestSlot(id, devices[1..], index + 1);
      var ws := Writes(id, devices, index);
      assert Maps(devices[0], 0) ==> ws[0].slot == id + index;
    }
  }

  /** The first device's entries against those of the others. */
  predicate FirstApartFrom(devices: seq<Node>) {
    |devices| > 1 && Maps(devices[0], 1) ==> !Maps(devices[1], 0)
  }

  predicate FirstLands(devices: seq<Node>, index: nat, hi: nat) {
    devices != [] ==> (Maps(devices[0], 0) ==> index < hi) && (Maps(devices[0], 1) ==> index + 1 < hi)
  }

  lemma {:induction false} FirstInside(id: int, devices: seq<Node>, index: nat, hi: nat)
    requires devices != []
    ensures var first := RangeWrites(id, devices[0], index, 0);
            Distinct(first) && (Inside(first, id + index, id + hi) <==> FirstLands(devices, index, hi))
  {
    var first := RangeWrites(id, devices[0], index, 0);
    RangeEntries(id, devices[0], index);
    assert Maps(devices[0], 0) ==> first[0].slot == id + index;
    assert Maps(devices[0], 1) ==> first[|first| - 1].slot == id + index + 1;
  }

  lemma {:induction false} FirstApart(id: int, devices: seq<Node>, index: nat)
    requires devices != [] && AllAllocated(devices)
    ensures var first, rest := RangeWrites(id, devices[0], index, 0), Writes(id, devices[1..], index + 1);
            Disjoint(first, rest) <==> FirstApartFrom(devices)
  {
    var first, rest := RangeWrites(id, devices[0], index, 0), Writes(id, devices[1..], index + 1);
    RangeEntries(id, devices[0], index);
    LowestSlot(id, devices[1..], index + 1);
    assert !HasSlot(rest, id + index);
    if Maps(devices[0], 1) {
      assert first[|first| - 1].slot == id + index + 1;
    }
  }

  /** The devices' writes stay inside and apart exactly when they land inside and claim no slot twice. */
  lemma {:induction false} WritesExactly(id: int, devices: seq<Node>, index: nat, hi: nat)
    requires AllAllocated(devices)
    ensures Inside(Writes(id, devices, index), id + index, id + hi) && Distinct(Writes(id, devices, index))
            <==> Lands(devices, index, hi) && Apart(devices)
    decreases devices
  {
    if devices != [] {
      var first, rest := RangeWrites(id, devices[0], index, 0), Writes(id, devices[1..], index + 1);
      FirstInside(id, devices, index, hi);
      FirstApart(id, devices, index);
      RestInside(id, devices[1..], index, hi);
      WritesExactly(id, devices[1..], index + 1, hi);
      SlotsOfConcat(first, rest, id + index, id + hi);
      LandsFirst(devices, index, hi);
      ApartFirst(devices);
    }
  }

  lemma RestInside(id: int, others: seq<Node>, index: nat, hi: nat)
    requires AllAllocated(others)
    ensures var rest := Writes(id, others, index + 1);
            Inside(rest, id + index, id + hi) <==> Inside(rest, id + (index + 1), id + hi)
  {
    LowestSlot(id, others, index + 1);
  }

  lemma LandsFirst(devices: seq<Node>, index: nat, hi: nat)
    requires devices != []
    ensures Lands(devices, index, hi) <==> FirstLands(devices, index, hi) && Lands(devices[1..], index + 1, hi)
  {
    if Lands(devices, index, hi) {
      forall o, i | 0 <= o < |devices[1..]| && 0 <= i < 2 && Maps(devices[1..][o], i) ensures index + 1 + o + i < hi {
        assert Maps(devices[o + 1], i);
      }
    } else {
      var o, i :| 0 <= o < |devices| && 0 <= i < 2 && Maps(devices[o], i) && index + o + i >= hi;
      if o > 0 { assert Maps(devices[1..][o - 1], i); }
    }
  }

  lemma ApartFirst(devices: seq<Node>)
    requires devices != []
    ensures Apart(devices) <==> FirstApartFrom(devices) && Apart(devices[1..])
  {
    if Apart(devices) {
      forall o | 0 <= o < |devices[1..]| - 1 && Maps(devices[1..][o], 1) ensures !Maps(devices[1..][o + 1], 0) {
        assert Maps(devices[o + 1], 1);
      }
    } else {
      var o :| 0 <= o < |devices| - 1 && Maps(devices[o], 1) && Maps(devices[o + 1], 0);
      if o > 0 { assert Maps(devices[1..][o - 1], 1) && Maps(devices[1..][o], 0); }
    }
  }

  /** A compatible's writes stay in the ids reserved for it, all in different ones, iff its devices fit. */
  lemma {:induction false} FitsExactly(id: int, nodes: seq<Node>, slots: nat)
    ensures Fits(nodes, slots) <==> Inside(Writes(id, nodes, 0), id, id + slots) && Distinct(Writes(id, nodes, 0))
  {
    WritesOfDevices(id, nodes, 0);
    DevicesAllocated(nodes);
    WritesExactly(id, Devices(nodes), 0, slots);
  }

  /** 2 if some device has its second range mapped, else 1. */
  function Span(devices: seq<Node>): nat {
    if exists o :: 0 <= o < |devices| && Maps(devices[o], 1) then 2 else 1
  }

  /** Counting: nodes + ranges - 1 fits the reserved ids. */
  predicate CountFits(nodes: seq<Node>, slots: nat) {
    |Devices(nodes)| == 0 || |Devices(nodes)| + Span(Devices(nodes)) - 1 <= slots
  }

  /** For one or two reserved ids the count is enough, and it is exact if every device maps its first range. */
  lemma {:induction false} FitsByCount(nodes: seq<Node>, slots: nat)
    requires 1 <= slots <= 2
    ensures CountFits(nodes, slots) ==> Fits(nodes, slots)
    ensures (forall o :: 0 <= o < |Devices(nodes)| ==> Maps(Devices(nodes)[o], 0)) ==>
              (Fits(nodes, slots) <==> CountFits(nodes, slots))
  {
    var devices := Devices(nodes);
    if (forall o :: 0 <= o < |devices| ==> Maps(devices[o], 0)) && Fits(nodes, slots) && |devices| > 0 {
      assert Maps(devices[|devices| - 1], 0) && |devices| - 1 + 0 < slots;
      if Span(devices) == 2 {
        var o :| 0 <= o < |devices| && Maps(devices[o], 1);
        assert 0 + o + 1 < slots;
        assert o == |devices| - 1;
      }
    }
  }

  /** How many nodes become devices. */
  function Count(nodes: seq<Node>): nat {
    |Devices(nodes)|
  }

  /** The slots reserved for the module that starts at `id`. */
  function Slots(id: int): nat {
    if id == ETM0 || id == ETF0 || id == CSTF0 then 2 else 1
  }

  datatype Compatible = Compatible(id: int, nodes: seq<Node>)

  /** The seven compatibles in probing order. */
  predicate ProbeOrder(tree: seq<Compatible>) {
    |tree| == 7 && tree[0].id == ETF0 && tree[1].id == ETR && tree[2].id == ETM0 && tree[3].id == CSTF0
    && tree[4].id == EPU && tree[5].id == GDI && tree[6].id == CORE
  }

  function ProbeWrites(tree: seq<Compatible>): seq<Entry> {
    if tree == [] then [] else Writes(tree[0].id, tree[0].nodes, 0) + ProbeWrites(tree[1..])
  }

  /** Slots of different modules do not meet. */
  lemma {:induction false} SlotsApart(tree: seq<Compatible>, a: nat, b: nat)
    requires ProbeOrder(tree) && a < b < 7
    ensures tree[a].id + Slots(tree[a].id) <= tree[b].id || tree[b].id + Slots(tree[b].id) <= tree[a].id
    ensures 0 <= tree[a].id && tree[a].id + Slots(tree[a].id) <= VCOUNT
  {
  }

  /** The ids below the virtual counters are shared out among the seven compatibles, each to exactly one. */
  lemma {:induction false} SlotsPartition(tree: seq<Compatible>, slot: nat)
    requires ProbeOrder(tree)
    ensures slot < 10 <==> exists b :: 0 <= b < 7 && tree[b].id <= slot < tree[b].id + Slots(tree[b].id)
    ensures forall a, b :: 0 <= a < b < 7 ==>
              !(tree[a].id <= slot < tree[a].id + Slots(tree[a].id))
              || !(tree[b].id <= slot < tree[b].id + Slots(tree[b].id))
  {
    if slot < 10 {
      var b := if slot < 2 then 2 else if slot < 3 then 1 else if slot < 5 then 0 else if slot < 7 then 3
               else if slot < 8 then 4 else if slot < 9 then 5 else 6;
      assert tree[b].id <= slot < tree[b].id + Slots(tree[b].id);
    }
  }

  /** `slot` is reserved for one of the compatibles from `a` on. */
  predicate Home(tree: seq<Compatible>, a: nat, slot: int) {
    exists b :: a <= b < |tree| && tree[b].id <= slot < tree[b].id + Slots(tree[b].id)
  }

  predicate AllHome(tree: seq<Compatible>, a: nat, ws: seq<Entry>) {
    forall n :: 0 <= n < |ws| ==> Home(tree, a, ws[n].slot)
  }

  lemma HomeApart(tree: seq<Compatible>, a: nat, slot: int)
    requires ProbeOrder(tree) && a < 7 && Home(tree, a + 1, slot)
    ensures !(tree[a].id <= slot < tree[a].id + Slots(tree[a].id)) && Home(tree, a, slot)
  {
    var b :| a + 1 <= b < 7 && tree[b].id <= slot < tree[b].id + Slots(tree[b].id);
    SlotsApart(tree, a, b);
  }

  lemma FittingOne(tree: seq<Compatible>, a: nat)
    requires ProbeOrder(tree) && a < 7 && Fits(tree[a].nodes, Slots(tree[a].id))
    ensures var ws := Writes(tree[a].id, tree[a].nodes, 0);
            Distinct(ws) && Inside(ws, tree[a].id, tree[a].id + Slots(tree[a].id)) && AllHome(tree, a, ws)
  {
    FitsExactly(tree[a].id, tree[a].nodes, Slots(tree[a].id));
  }

  /** The slots written for the compatibles from `a` on, all fitting, are distinct and stay with their modules. */
  lemma {:induction false} FittingWrites(tree: seq<Compatible>, a: nat)
    requires Fitting(tree) && a <= 7
    ensures Distinct(ProbeWrites(tree[a..])) && AllHome(tree, a, ProbeWrites(tree[a..]))
    decreases 7 - a
  {
    if a < 7 {
      assert tree[a..][1..] == tree[a + 1..] && tree[a..][0] == tree[a];
      FittingWrites(tree, a + 1);
      FittingOne(tree, a);
      FittingConcat(tree, a, Writes(tree[a].id, tree[a].nodes, 0), ProbeWrites(tree[a + 1..]));
    } else {
      assert tree[a..] == [];
    }
  }

  lemma FittingConcat(tree: seq<Compatible>, a: nat, mine: seq<Entry>, rest: seq<Entry>)
    requires ProbeOrder(tree) && a < 7
    requires Distinct(mine) && Inside(mine, tree[a].id, tree[a].id + Slots(tree[a].id)) && AllHome(tree, a, mine)
    requires Distinct(rest) && AllHome(tree, a + 1, rest)
    ensures Distinct(mine + rest) && AllHome(tree, a, mine + rest)
  {
    forall n | 0 <= n < |rest|
      ensures !(tree[a].id <= rest[n].slot < tree[a].id + Slots(tree[a].id)) && Home(tree, a, rest[n].slot)
    {
      HomeApart(tree, a, rest[n].slot);
    }
  }

  /** The seven compatibles in probing order, each fitting the ids reserved for it. */
  predicate Fitting(tree: seq<Compatible>) {
    ProbeOrder(tree) && forall b :: 0 <= b < 7 ==> Fits(tree[b].nodes, Slots(tree[b].id))
  }

  lemma HomeBelow(tree: seq<Compatible>, slot: int)
    requires ProbeOrder(tree) && Home(tree, 0, slot)
    ensures 0 <= slot < VCOUNT
  {
    var b :| 0 <= b < 7 && tree[b].id <= slot < tree[b].id + Slots(tree[b].id);
    if b < 6 { SlotsApart(tree, b, b + 1); } else { SlotsApart(tree, 0, b); }
  }

  /** Every write for a compatible goes to the ids reserved for it. */
  predicate OwnSlots(tree: seq<Compatible>) {
    forall b :: 0 <= b < |tree| ==>
      Inside(Writes(tree[b].id, tree[b].nodes, 0), tree[b].id, tree[b].id + Slots(tree[b].id))
  }

  /** Every recorded range is found in its slot after probing. */
  predicate AllKept(tree: seq<Compatible>, p: Probed)
    requires p.Valid()
  {
    forall n :: 0 <= n < |ProbeWrites(tree)| ==>
      var w := ProbeWrites(tree)[n];
      0 <= w.slot < VCOUNT && ProbeTree(tree, p).maps[w.slot] == w.info
  }

  /** `of_iomap` hands out no address twice. */
  predicate DistinctBases(ws: seq<Entry>) {
    forall m, n :: 0 <= m < n < |ws| ==> ws[m].info.base != ws[n].info.base
  }

  /** If every compatible fits, no range is lost and the entry of the virtual counters is not touched. */
  lemma {:induction false} ProbeLosesNothing(tree: seq<Compatible>, p: Probed)
    requires p.Valid() && Fitting(tree)
    ensures AllKept(tree, p) && OwnSlots(tree) && Distinct(ProbeWrites(tree))
    ensures ProbeTree(tree, p).maps[VCOUNT] == p.maps[VCOUNT]
  {
    var ws := ProbeWrites(tree);
    assert tree[0..] == tree;
    FittingWrites(tree, 0);
    forall m | 0 <= m < |ws| ensures 0 <= ws[m].slot < VCOUNT {
      HomeBelow(tree, ws[m].slot);
    }
    ProbeTreeTable(tree, p);
    forall n | 0 <= n < |ws| ensures ProbeTree(tree, p).maps[ws[n].slot] == ws[n].info {
      LastWriterWins(p.maps, ws, n);
    }
    Untouched(p.maps, ws, VCOUNT);
    forall b | 0 <= b < 7
      ensures Inside(Writes(tree[b].id, tree[b].nodes, 0), tree[b].id, tree[b].id + Slots(tree[b].id))
    {
      FittingOne(tree, b);
    }
  }

  lemma {:induction false} OwnWritesDistinct(tree: seq<Compatible>, b: nat)
    requires b < |tree| && Distinct(ProbeWrites(tree))
    ensures Distinct(Writes(tree[b].id, tree[b].nodes, 0))
    decreases b
  {
    SlotsOfConcat(Writes(tree[0].id, tree[0].nodes, 0), ProbeWrites(tree[1..]), 0, 0);
    if b > 0 {
      OwnWritesDistinct(tree[1..], b - 1);
    }
  }

  /** Probing keeps every recorded range, each in a slot of its own module, iff all seven compatibles fit. */
  lemma {:induction false} ProbeKeepsIffFitting(tree: seq<Compatible>, p: Probed)
    requires p.Valid() && ProbeOrder(tree) && DistinctBases(ProbeWrites(tree))
    ensures Fitting(tree) <==> AllKept(tree, p) && OwnSlots(tree)
    ensures Fitting(tree) <==> Distinct(ProbeWrites(tree)) && OwnSlots(tree)
  {
    var ws := ProbeWrites(tree);
    if Fitting(tree) {
      ProbeLosesNothing(tree, p);
    }
    if AllKept(tree, p) {
      forall m, n | 0 <= m < n < |ws| ensures ws[m].slot != ws[n].slot {
        assert ws[m].info.base != ws[n].info.base;
      }
    }
    if Distinct(ws) && OwnSlots(tree) {
      forall b | 0 <= b < 7 ensures Fits(tree[b].nodes, Slots(tree[b].id)) {
        OwnWritesDistinct(tree, b);
        FitsExactly(tree[b].id, tree[b].nodes, Slots(tree[b].id));
      }
    }
  }

  /** A module that loses its mapping: a second EPU node takes the entry of the GDI. */
  lemma {:induction false} SecondNodeClobbers(p: Probed, node: Node)
    requires p.Valid() && node.gotMemory && node.ranges[0].ptr != 0
    ensures !Fits([node, node], Slots(EPU))
    ensures ProbeNodes(EPU, [node, node], 0, p).maps[GDI] == MapInfo(node.ranges[0].ptr, node.ranges[0].size)
  {
    var nodes := [node, node];
    assert nodes[1..] == [node] && [node][1..] == [];
    assert Devices([node]) == [node] + Devices([]) && Devices(nodes) == [node] + Devices([node]);
    assert Maps(Devices(nodes)[1], 0);
    var ws := Writes(EPU, nodes, 0);
    RangeEntries(EPU, node, 1);
    ProbeNodesTable(EPU, nodes, 0, p);
    var first, second := RangeWrites(EPU, node, 0, 0), RangeWrites(EPU, node, 1, 0);
    assert Writes(EPU, [node], 1) == second + Writes(EPU, [], 2);
    assert ws == first + second;
    assert second[0] == Entry(GDI, MapInfo(node.ranges[0].ptr, node.ranges[0].size));
    LastWriterWins(p.maps, ws, |first|);
  }

  /** The address of every entry probing records is held by some device of the list. */
  predicate Held(ws: seq<Entry>, devices: seq<Device>) {
    forall n :: 0 <= n < |ws| ==> ws[n].info.base in AllLive(devices)
  }

  lemma {:induction false} NodesHeld(id: int, nodes: seq<Node>, index: nat, p: Probed)
    requires p.Valid()
    ensures Held(Writes(id, nodes, index), ProbeNodes(id, nodes, index, p).devices)
    ensures forall x :: x in AllLive(p.devices) ==> x in AllLive(ProbeNodes(id, nodes, index, p).devices)
    decreases nodes
  {
    if nodes != [] {
      if nodes[0].gotMemory {
        var p1 := ProbeNode(id, nodes[0], index, p);
        assert p1.devices[1..] == p.devices;
        assert AllLive(p1.devices) == Live(PtrsOf(nodes[0])) + AllLive(p.devices);
        RangeEntries(id, nodes[0], index);
        NodesHeld(id, nodes[1..], index + 1, p1);
        HeldConcat(RangeWrites(id, nodes[0], index, 0), Writes(id, nodes[1..], index + 1), p1.devices,
                   ProbeNodes(id, nodes, index, p).devices);
      } else {
        NodesHeld(id, nodes[1..], index, p);
      }
    }
  }

  lemma HeldConcat(a: seq<Entry>, b: seq<Entry>, mid: seq<Device>, end: seq<Device>)
    requires Held(a, mid) && Held(b, end) && forall x :: x in AllLive(mid) ==> x in AllLive(end)
    ensures Held(a + b, end)
  {
  }

  /** Every entry that probing writes points at memory held by a listed device: unmapping those leaves it dangling. */
  lemma {:induction false} EntriesAreHeld(tree: seq<Compatible>, p: Probed)
    requires p.Valid()
    ensures Held(ProbeWrites(tree), ProbeTree(tree, p).devices)
    ensures forall x :: x in AllLive(p.devices) ==> x in AllLive(ProbeTree(tree, p).devices)
    decreases tree
  {
    if tree != [] {
      var p1 := ProbeNodes(tree[0].id, tree[0].nodes, 0, p);
      NodesHeld(tree[0].id, tree[0].nodes, 0, p);
      EntriesAreHeld(tree[1..], p1);
      HeldConcat(Writes(tree[0].id, tree[0].nodes, 0), ProbeWrites(tree[1..]), p1.devices, ProbeTree(tree, p).devices);
    }
  }

  /** What a probe leaves behind: a late failure unmaps and forgets all devices, and touches no entry. */
  function ProbeOutcome(tree: seq<Compatible>, p: Probed, ok: bool): (r: Probed)
    requires p.Valid()
    ensures r.Valid()
  {
    if ok then ProbeTree(tree, p) else ProbeTree(tree, p).(devices := [])
  }

  predicate InTable(slot: int) {
    0 <= slot < NUM_IDS
  }

  /** Every entry the probe has written points at memory that a listed device holds. */
  predicate EntriesLive(ws: seq<Entry>, after: Probed)
    requires after.Valid()
  {
    forall n :: 0 <= n < |ws| && InTable(ws[n].slot) ==> after.maps[ws[n].slot].base in AllLive(after.devices)
  }

  lemma {:induction false} LastWriter(ws: seq<Entry>, n: nat) returns (m: nat)
    requires n < |ws|
    ensures n <= m < |ws| && ws[m].slot == ws[n].slot
    ensures forall l :: m < l < |ws| ==> ws[l].slot != ws[m].slot
    decreases |ws| - n
  {
    if l :| n < l < |ws| && ws[l].slot == ws[n].slot {
      m := LastWriter(ws, l);
    } else {
      m := n;
    }
  }

  /** Whoever wrote a slot last, its address is held by a device of the tree. */
  lemma {:induction false} WrittenSlotHeld(tree: seq<Compatible>, p: Probed, n: nat)
    requires p.Valid() && n < |ProbeWrites(tree)| && InTable(ProbeWrites(tree)[n].slot)
    ensures var end := ProbeTree(tree, p); end.maps[ProbeWrites(tree)[n].slot].base in AllLive(end.devices)
  {
    var m := LastWriter(ProbeWrites(tree), n);
    ProbeTreeTable(tree, p);
    LastWriterWins(p.maps, ProbeWrites(tree), m);
    EntriesAreHeld(tree, p);
  }

  /**
   Any device tree: after a probe all written entries are live iff the probe succeeded or wrote none.  After
   a failure each of them points at an address that has been given back.
   */
  lemma {:induction false} EntriesLiveIff(tree: seq<Compatible>, p: Probed, ok: bool)
    requires p.Valid()
    ensures var ws := ProbeWrites(tree);
            EntriesLive(ws, ProbeOutcome(tree, p, ok))
            <==> ok || forall n :: 0 <= n < |ws| ==> !InTable(ws[n].slot)
    ensures var ws, end := ProbeWrites(tree), ProbeTree(tree, p);
            forall n :: 0 <= n < |ws| && InTable(ws[n].slot) ==>
              ProbeOutcome(tree, p, ok).maps[ws[n].slot].base in AllLive(end.devices)
  {
    var ws := ProbeWrites(tree);
    forall n | 0 <= n < |ws| && InTable(ws[n].slot)
      ensures ProbeTree(tree, p).maps[ws[n].slot].base in AllLive(ProbeTree(tree, p).devices)
    {
      WrittenSlotHeld(tree, p, n);
    }
  }

  /** The entries of a fitting tree: after a late failure each range is still in its slot, and unmapped. */
  lemma {:induction false} DanglingEntries(tree: seq<Compatible>, p: Probed, unmapped: seq<nat>, n: nat)
    requires p.Valid() && Fitting(tree) && n < |ProbeWrites(tree)|
    ensures var w, end := ProbeWrites(tree)[n], ProbeTree(tree, p);
            0 <= w.slot < VCOUNT && ProbeOutcome(tree, p, false).maps[w.slot] == w.info
            && w.info.base in unmapped + AllLive(end.devices)
  {
    ProbeLosesNothing(tree, p);
    EntriesAreHeld(tree, p);
    assert ProbeWrites(tree)[n].info.base in AllLive(ProbeTree(tree, p).devices);
  }

  // ----- the driver

  predicate NoRepeats(devs: seq<DbgDevice>) {
    devs == [] || (devs[0] !in devs[1..] && NoRepeats(devs[1..]))
  }

  ghost function ListOf(devs: seq<DbgDevice>): (r: seq<Device>)
    reads devs
  {
    if devs == [] then [] else [Device(devs[0].dtIdx, devs[0].memPtr)] + ListOf(devs[1..])
  }

  lemma AddedFirst(dev: DbgDevice, devs: seq<DbgDevice>)
    requires dev !in devs && NoRepeats(devs)
    ensures NoRepeats([dev] + devs)
    ensures ListOf([dev] + devs) == [Device(dev.dtIdx, dev.memPtr)] + ListOf(devs)
  {
    assert ([dev] + devs)[1..] == devs;
  }

  class DcsrDriver {
    const table: MapTable
    var devs: seq<DbgDevice>
    ghost var mapped: seq<nat>      // addresses of_iomap has handed out
    ghost var unmapped: seq<nat>    // addresses given to iounmap

    ghost predicate Valid()
      reads this, devs
    {
      table.Valid() && NoRepeats(devs)
    }

    ghost function Now(): (p: Probed)
      reads this, table.maps, devs
    {
      Probed(table.maps[..], ListOf(devs), mapped)
    }

    /** Over every history each mapped address is held by one listed device or has been given back. */
    ghost predicate Sound()
      reads this, table.maps, devs
    {
      Valid() && Balanced(Now(), unmapped)
    }

    constructor (maps: MapTable)
      requires maps.Valid()
      ensures Sound() && table == maps && devs == [] && mapped == [] && unmapped == []
    {
      table := maps;
      devs, mapped, unmapped := [], [], [];
    }

    /** Maps the ranges of a node and records them. */
    method MapRanges(dev: DbgDevice, id: int, node: Node, index: nat)
      requires table.Valid() && dev.memPtr == [0, 0]
      modifies this`mapped, dev`memPtr, table.maps
      ensures table.maps[..] == Apply(old(table.maps[..]), RangeWrites(id, node, index, 0))
      ensures dev.memPtr == PtrsOf(node)
      ensures mapped == old(mapped) + Live(PtrsOf(node))
    {
      for i := 0 to 2
        invariant Apply(table.maps[..], RangeWrites(id, node, index, i))
               == Apply(old(table.maps[..]), RangeWrites(id, node, index, 0))
        invariant forall k :: 0 <= k < 2 ==> dev.memPtr[k] == if k < i then node.ranges[k].ptr else 0
        invariant mapped == old(mapped) + Live(dev.memPtr)
      {
        dev.memPtr := dev.memPtr[i := node.ranges[i].ptr];
        if dev.memPtr[i] != 0 {
          mapped := mapped + [dev.memPtr[i]];
          var _ := table.RegAddMap(id + index + i, dev.memPtr[i], node.ranges[i].size);
        }
      }
      assert dev.memPtr == PtrsOf(node);
    }

    /** Maps one node and puts its device at the head of the list. */
    method AddDevice(id: int, node: Node, index: nat)
      requires Valid()
      modifies this`mapped, this`devs, table.maps
      ensures Valid()
      ensures Now() == ProbeNode(id, node, index, old(Now()))
      ensures |devs| > 0 && fresh(devs[0]) && devs[1..] == old(devs)
    {
      var dev := new DbgDevice(index);
      MapRanges(dev, id, node, index);
      assert ListOf(devs) == old(ListOf(devs));
      AddedFirst(dev, devs);
      devs := [dev] + devs;
    }

    /** Probes the nodes of one compatible. */
    method AddCompatibleDevices(id: int, nodes: seq<Node>) returns (numFound: nat)
      requires Valid()
      modifies this`mapped, this`devs, table.maps
      ensures Valid()
      ensures Now() == ProbeNodes(id, nodes, 0, old(Now()))
      ensures forall k :: 0 <= k < |devs| ==> devs[k] in old(devs) || fresh(devs[k])
      ensures numFound == Count(nodes)
    {
      var index := 0;
      numFound := 0;
      for n := 0 to |nodes|
        invariant Valid()
        invariant ProbeNodes(id, nodes[n..], index, Now()) == ProbeNodes(id, nodes, 0, old(Now()))
        invariant forall k :: 0 <= k < |devs| ==> devs[k] in old(devs) || fresh(devs[k])
        invariant numFound + Count(nodes[n..]) == Count(nodes)
      {
        assert nodes[n..][1..] == nodes[n + 1..];
        if !nodes[n].gotMemory {
          continue;
        }
        AddDevice(id, nodes[n], index);
        index := index + 1;
        numFound := numFound + 1;
      }
    }

    method UnmapDevice(dev: DbgDevice)
      modifies this`unmapped, dev`memPtr
      ensures dev.memPtr == [0, 0]
      ensures unmapped == old(unmapped) + Live(old(dev.memPtr))
    {
      ghost var held := dev.memPtr;
      for i := 0 to 2
        invariant forall k :: 0 <= k < 2 ==> dev.memPtr[k] == if k < i then 0 else held[k]
        invariant unmapped + Live(dev.memPtr) == old(unmapped) + Live(held)
      {
        if dev.memPtr[i] != 0 {
          var mem := dev.memPtr[i];
          dev.memPtr := dev.memPtr[i := 0];
          unmapped := unmapped + [mem];
        }
      }
    }

    /** What the devices from the `n`th on hold. */
    ghost function HeldFrom(n: nat): seq<nat>
      requires n <= |devs|
      reads this, devs
    {
      AllLive(ListOf(devs[n..]))
    }

    method UnmapNth(n: nat, dev: DbgDevice)
      requires n < |devs| && devs[n] == dev && NoRepeats(devs[n..])
      modifies this`unmapped, dev`memPtr
      ensures NoRepeats(devs[n + 1..])
      ensures unmapped + HeldFrom(n + 1) == old(unmapped) + old(HeldFrom(n))
      ensures dev.memPtr == [0, 0]
    {
      assert devs[n..][1..] == devs[n + 1..];
      ghost var rest := ListOf(devs[n + 1..]);
      assert ListOf(devs[n..]) == [Device(dev.dtIdx, dev.memPtr)] + rest;
      UnmapDevice(dev);
      assert ListOf(devs[n + 1..]) == rest;
    }

    /** Unmaps what the listed devices hold, each address once, in list order. */
    method UnmapDevices()
      requires NoRepeats(devs)
      modifies this`unmapped, devs
      ensures unmapped == old(unmapped) + AllLive(old(ListOf(devs)))
      ensures forall k :: 0 <= k < |devs| ==> devs[k].memPtr == [0, 0]
    {
      assert devs[0..] == devs;
      for n := 0 to |devs|
        invariant NoRepeats(devs[n..])
        invariant unmapped + HeldFrom(n) == old(unmapped) + old(HeldFrom(0))
        invariant forall k :: 0 <= k < n ==> devs[k].memPtr == [0, 0]
      {
        UnmapNth(n, devs[n]);
      }
      NothingHeldAtEnd();
    }

    lemma NothingHeldAtEnd()
      ensures HeldFrom(|devs|) == []
    {
    }

    /** Gives every held address back and empties the list; no device is left holding an address. */
    method RemoveDevices()
      requires Valid()
      modifies this`devs, this`unmapped, devs
      ensures Valid() && devs == []
      ensures unmapped == old(unmapped) + AllLive(old(ListOf(devs)))
      ensures forall k :: 0 <= k < |old(devs)| ==> old(devs)[k].memPtr == [0, 0]
    {
      UnmapDevices();
      while devs != []
        modifies this`devs
        decreases |devs|
      {
        devs := devs[1..];
      }
    }

    /** Teardown of the devices settles the books. */
    method GiveBack()
      requires Sound()
      modifies this`devs, this`unmapped, devs
      ensures Sound() && devs == [] && Settled(mapped, unmapped)
      ensures Now() == old(Now()).(devices := []) && unmapped == old(unmapped) + AllLive(old(ListOf(devs)))
    {
      ghost var before, owed := Now(), unmapped;
      GivenBack(before, owed);
      RemoveDevices();
      assert Now() == before.(devices := []);
      assert unmapped == owed + AllLive(before.devices);
    }

    /**
     Probing: all compatibles in order, then the debugfs root and `reg_access_init`.  When either of these
     fails every mapping is given back, but the table keeps the entries that point at them.
     */
    method DcsrProbe(tree: seq<Compatible>, rootCreated: bool, init: Status) returns (ret: Status)
      requires Sound() && ProbeOrder(tree)
      modifies this, table.maps, devs
      ensures Sound()
      ensures forall k :: 0 <= k < |devs| ==> devs[k] in old(devs) || fresh(devs[k])
      ensures ret == if !rootCreated then ENoMem else init
      ensures Now() == ProbeOutcome(tree, old(Now()), ret == Ok)
      ensures unmapped == old(unmapped) + if ret == Ok then [] else AllLive(ProbeTree(tree, old(Now())).devices)
    {
      ProbeAll(tree);
      ret := if !rootCreated then ENoMem else init;
      if ret != Ok {
        GiveBack();
      }
    }

    method ProbeAll(tree: seq<Compatible>)
      requires Sound()
      modifies this`mapped, this`devs, table.maps
      ensures Sound() && Now() == ProbeTree(tree, old(Now()))
      ensures forall k :: 0 <= k < |devs| ==> devs[k] in old(devs) || fresh(devs[k])
    {
      for c := 0 to |tree|
        invariant Valid()
        invariant forall k :: 0 <= k < |devs| ==> devs[k] in old(devs) || fresh(devs[k])
        invariant ProbeTree(tree[c..], Now()) == ProbeTree(tree, old(Now()))
      {
        assert tree[c..][1..] == tree[c + 1..];
        var _ := AddCompatibleDevices(tree[c].id, tree[c].nodes);
      }
      ProbeKeepsBalance(tree, old(Now()), unmapped);
    }

    /** Unbinding touches nothing of the devices. */
    method UnbindFirst(dbg: Driver.LsDbg)
      requires Sound() && dbg.Valid() && dbg.pc.Rest? && dbg.table == table
      modifies dbg`pc, dbg`cur, dbg`io, dbg`irqNum, dbg`frees, dbg.epccr
      ensures Sound() && Now() == old(Now()) && dbg.Valid() && dbg.pc.Rest?
      ensures dbg.IrqState() == IrqControl.Unbind(dbg.EpuSize(), old(dbg.IrqState())).1
    {
      var _ := dbg.EpuUnbindIrq();
      assert Now() == old(Now()) && Valid();
    }

    /** Giving the mappings back touches nothing of the virtual counters. */
    method GiveBackLast(dbg: Driver.LsDbg)
      requires Sound() && dbg.Valid() && dbg.pc.Rest?
      modifies this`devs, this`unmapped, devs
      ensures Sound() && devs == [] && Settled(mapped, unmapped)
      ensures Now() == old(Now()).(devices := []) && unmapped == old(unmapped) + AllLive(old(ListOf(devs)))
      ensures dbg.Valid() && dbg.pc.Rest? && dbg.IrqState() == old(dbg.IrqState())
    {
      GiveBack();
    }

    /** Removal: the interrupt is unbound, then every address still held is given back. */
    method DcsrRemove(dbg: Driver.LsDbg)
      requires Sound() && dbg.Valid() && dbg.pc.Rest? && dbg.table == table
      modifies this`devs, this`unmapped, devs, dbg`pc, dbg`cur, dbg`io, dbg`irqNum, dbg`frees, dbg.epccr
      ensures Sound() && devs == [] && Settled(mapped, unmapped)
      ensures Now() == old(Now()).(devices := []) && unmapped == old(unmapped) + AllLive(old(ListOf(devs)))
      ensures dbg.Valid() && dbg.pc.Rest?
      ensures dbg.IrqState() == IrqControl.Unbind(dbg.EpuSize(), old(dbg.IrqState())).1
    {
      UnbindFirst(dbg);
      GiveBackLast(dbg);
    }
  }
}
