/**
 The layout of `struct vcounters` and what user reads and writes of its words do.  With 8-byte alignment
 the regions start at 0 (control), 4 (event-control mirrors), 0x48 (overflow words) and 0x148 (captured
 values); the struct ends at 0x248.  The four padding bytes at 0x44 belong to the mirror region.
 */
module VirtualRegisters {
  import opened Bits
  import opened Protocol

  const MIRRORS_AT: int := 0x4
  const COUNTS_AT: int := 0x48
  const CAPTS_AT: int := 0x148
  const STRUCT_SIZE: nat := 0x248

  datatype Region =
    | RCtrl
    | RMirror(e: Event)
    | RCount(k: Index)
    | RCapt(k: Index)
    | RPast          // accepted, but behind the struct
    | RNone          // -ENOMEM

  /** Classification of the address `rel` bytes into the struct, with upper bound `end` of the last region. */
  function Classify(rel: int, end: int): Region {
    if 0 <= rel < MIRRORS_AT then RCtrl
    else if MIRRORS_AT <= rel < COUNTS_AT then RMirror((rel - MIRRORS_AT) / 4)
    else if COUNTS_AT <= rel < CAPTS_AT then RCount((rel - COUNTS_AT) / 8)
    else if CAPTS_AT <= rel < end then
      if (rel - CAPTS_AT) / 8 < 32 then RCapt((rel - CAPTS_AT) / 8) else RPast
    else RNone
  }

  /** The read path adds 32 * 8 elements, not bytes, to the start of the last region. */
  function ReadRegion(rel: int): Region {
    Classify(rel, CAPTS_AT + 32 * 8 * 8)
  }

  function WriteRegion(rel: int): Region {
    Classify(rel, CAPTS_AT + 32 * 8)
  }

  /**
   Behind the map bound both paths classify every offset the same way and never report -ENOMEM; without
   it they differ exactly on the bytes between the two bounds.
   */
  lemma {:induction false} DispatchAgrees(rel: int)
    ensures 0 <= rel < STRUCT_SIZE ==>
              ReadRegion(rel) == WriteRegion(rel) && ReadRegion(rel) != RNone && ReadRegion(rel) != RPast
    ensures ReadRegion(rel) != WriteRegion(rel) <==> STRUCT_SIZE <= rel < 0x948
  {
    assert STRUCT_SIZE == CAPTS_AT + 32 * 8;
    if CAPTS_AT <= rel < STRUCT_SIZE {
      assert (rel - CAPTS_AT) / 8 < 32;
    }
  }

  // ----- user access to plain words

  datatype Words = Words(ctrl: u32, soft: Soft)

  function Load(w: Words, region: Region): u64 {
    match region
    case RCtrl => w.ctrl
    case RMirror(e) => w.soft.mirror[e]
    case RCount(k) => w.soft.vcntr[k]
    case RCapt(k) => w.soft.capt[k]
    case _ => 0
  }

  /** A store to a control, overflow or captured word; stores to mirrors start a capture instead. */
  function Store(w: Words, region: Region, val: u64): Words {
    match region
    case RCtrl => w.(ctrl := val % TWO_32)
    case RCount(k) => w.(soft := w.soft.(vcntr := w.soft.vcntr[k := val]))
    case RCapt(k) => w.(soft := w.soft.(capt := w.soft.capt[k := val]))
    case _ => w
  }

  /** A value passed through a user buffer of 32 or 64 bits. */
  function Cut(val: u64, size: nat): u64 {
    if size == 32 then val % TWO_32 else val
  }

  predicate ValidSize(size: nat) {
    size == 32 || size == 64
  }

  /** The number of values a word of `size` bits can hold. */
  function Range(size: nat): nat {
    if size == 32 then TWO_32 else TWO_64
  }

  /** What a plain register holds after a store, and that no other register changes. */
  lemma {:induction false} StoreThenLoad(w: Words, region: Region, val: u64, other: Region)
    requires region.RCtrl? || region.RCount? || region.RCapt?
    ensures Load(Store(w, region, val), region) == if region.RCtrl? then val % TWO_32 else val
    ensures other != region ==> Load(Store(w, region, val), other) == Load(w, other)
  {
  }

  /** Cutting to two sizes is cutting to the smaller. */
  lemma CutTwice(val: u64, a: nat, b: nat)
    requires ValidSize(a) && ValidSize(b)
    ensures Cut(Cut(val, a), b) == val % (if Range(a) < Range(b) then Range(a) else Range(b))
    ensures Cut(Cut(val, a) % TWO_32, b) == val % TWO_32
  {
    assert val % TWO_64 == val;
  }

  /**
   Writing a word with one access size and reading it with another gives the value modulo the smaller
   size; a read of any other word gives what it gave before.
   */
  lemma {:induction false} RegisterRoundTrip(
      w: Words, rel: int, val: u64, wsize: nat, rsize: nat, other: int)
    requires ValidSize(wsize) && ValidSize(rsize)
    requires 0 <= rel < STRUCT_SIZE && 0 <= other < STRUCT_SIZE && !WriteRegion(rel).RMirror?
    ensures var w' := Store(w, WriteRegion(rel), Cut(val, wsize));
            && (!WriteRegion(rel).RCtrl? ==>
                  Cut(Load(w', ReadRegion(rel)), rsize)
                  == val % (if Range(wsize) < Range(rsize) then Range(wsize) else Range(rsize)))
            && (WriteRegion(rel).RCtrl? ==> Cut(Load(w', ReadRegion(rel)), rsize) == val % TWO_32)
            && (ReadRegion(other) != ReadRegion(rel) ==> Load(w', ReadRegion(other)) == Load(w, ReadRegion(other)))
  {
    DispatchAgrees(rel);
    DispatchAgrees(other);
    StoreThenLoad(w, WriteRegion(rel), Cut(val, wsize), ReadRegion(other));
    CutTwice(val, wsize, rsize);
  }
}
