/** The table of mapped register modules and its bound checks. */
module RegMap {

  // enum TRACEIP_MODULE
  const ETM0: int := 0
  const ETR: int := 2
  const ETF0: int := 3
  const CSTF0: int := 5
  const EPU: int := 7
  const GDI: int := 8
  const CORE: int := 9
  const NUM_IO_IDS: int := 10
  const VCOUNT: int := 10
  const NUM_IDS: int := 11

  const MAX_TRACE_MODULES: nat := 16

  datatype Status = Ok | EInval | EFault | ENoMem | EBusy | EPerm | ENoTty | EOther

  datatype MapInfo = MapInfo(base: nat, size: nat)

  predicate IsIoMapped(id: int) {
    0 <= id < NUM_IO_IDS
  }

  /** Outcome of looking up `offset` among the IO-mapped modules. */
  function IoLookup(maps: seq<MapInfo>, id: int, offset: nat): Status
    requires |maps| == MAX_TRACE_MODULES
  {
    if !IsIoMapped(id) then EInval else if offset >= maps[id].size then EFault else Ok
  }

  /** Outcome of looking up `offset` among the modules kept in memory. */
  function RamLookup(maps: seq<MapInfo>, id: int, offset: nat): Status
    requires |maps| == MAX_TRACE_MODULES
  {
    if id < VCOUNT || id >= NUM_IDS then EInval else if offset >= maps[id].size then EFault else Ok
  }

  /** The table after recording a mapping; ids outside the enumeration leave it alone. */
  function WithMap(maps: seq<MapInfo>, id: int, info: MapInfo): seq<MapInfo>
    requires |maps| == MAX_TRACE_MODULES
  {
    if 0 <= id < NUM_IDS then maps[id := info] else maps
  }

  class MapTable {
    const maps: array<MapInfo>

    ghost predicate Valid() {
      maps.Length == MAX_TRACE_MODULES
    }

    constructor ()
      ensures Valid() && fresh(maps)
      ensures forall i :: 0 <= i < MAX_TRACE_MODULES ==> maps[i] == MapInfo(0, 0)
    {
      maps := new MapInfo[MAX_TRACE_MODULES](_ => MapInfo(0, 0));
    }

    method RegAddMap(id: int, addr: nat, size: nat) returns (ret: Status)
      requires Valid()
      modifies maps
      ensures maps[..] == WithMap(old(maps[..]), id, MapInfo(addr, size))
      ensures ret == if 0 <= id < NUM_IDS then Ok else EInval
    {
      if id < 0 || id >= NUM_IDS {
        return EInval;
      }
      maps[id] := MapInfo(addr, size);
      ret := Ok;
    }

    method RegFindMapIo(id: int, offset: nat) returns (ret: Status, addr: nat)
      requires Valid()
      ensures ret == IoLookup(maps[..], id, offset)
      ensures ret == if id < 0 || id >= 10 then EInval else if offset >= maps[id].size then EFault else Ok
      ensures ret == Ok ==> maps[id].base <= addr < maps[id].base + maps[id].size && addr - maps[id].base == offset
    {
      addr := 0;
      if id < 0 || id >= NUM_IO_IDS {
        return EInval, 0;
      }
      if offset >= maps[id].size {
        return EFault, 0;
      }
      return Ok, maps[id].base + offset;
    }

    method RegFindMapRam(id: int, offset: nat) returns (ret: Status, addr: nat)
      requires Valid()
      ensures ret == RamLookup(maps[..], id, offset)
      ensures ret == if id != 10 then EInval else if offset >= maps[10].size then EFault else Ok
      ensures ret == Ok ==> maps[id].base <= addr < maps[id].base + maps[id].size && addr - maps[id].base == offset
    {
      addr := 0;
      if id < VCOUNT || id >= NUM_IDS {
        return EInval, 0;
      }
      if offset >= maps[id].size {
        return EFault, 0;
      }
      return Ok, maps[id].base + offset;
    }
  }
}
