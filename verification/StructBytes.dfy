/**
 `struct vcounters` as the bytes it occupies.  The typed accesses of the register dispatch are loads and
 stores of four or eight little-endian bytes at the address the caller asked for.
 */
module StructBytes {
  import opened Bits
  import opened Protocol
  import opened VirtualRegisters

  type Byte = x: int | 0 <= x < 256

  function Encode(v: nat, n: nat): (r: seq<Byte>)
    ensures |r| == n
  {
    if n == 0 then [] else [v % 256] + Encode(v / 256, n - 1)
  }

  function Decode(bytes: seq<Byte>): nat {
    if bytes == [] then 0 else bytes[0] + 256 * Decode(bytes[1..])
  }

  function Pow256(n: nat): (r: nat)
    ensures r > 0
  {
    if n == 0 then 1 else 256 * Pow256(n - 1)
  }

  function Get(mem: seq<Byte>, at: nat, n: nat): nat
    requires at + n <= |mem|
  {
    Decode(mem[at..at + n])
  }

  function Put(mem: seq<Byte>, at: nat, v: nat, n: nat): (r: seq<Byte>)
    requires at + n <= |mem|
    ensures |r| == |mem|
  {
    mem[..at] + Encode(v, n) + mem[at + n..]
  }

  // ----- encoding

  /** Splitting off the low byte of a remainder. */
  lemma LowByte(v: nat, m: nat)
    requires m > 0
    ensures v % 256 + 256 * (v / 256 % m) == v % (256 * m)
    ensures v % (256 * m) % 256 == v % 256 && v % (256 * m) / 256 == v / 256 % m
  {
    var q := v / 256;
    var low, rest := v % 256, q % m;
    assert v == 256 * q + low && q == m * (q / m) + rest;
    assert v == (256 * m) * (q / m) + (256 * rest + low) by {
      assert 256 * (m * (q / m) + rest) == (256 * m) * (q / m) + 256 * rest;
    }
    RemainderIs(v, 256 * m, q / m, 256 * rest + low);
  }

  lemma Multiples(m: nat, d: int)
    ensures d >= 1 ==> m * d >= m
    ensures d <= -1 ==> m * d <= 0 - m
  {
  }

  lemma RemainderIs(v: int, m: int, q: int, r: int)
    requires 0 <= r < m && v == m * q + r
    ensures v % m == r
  {
    assert m * (q - v / m) == v % m - r;
    Multiples(m, q - v / m);
  }

  lemma {:induction false} DecodeEncode(v: nat, n: nat)
    ensures Decode(Encode(v, n)) == v % Pow256(n)
  {
    if n > 0 {
      DecodeEncode(v / 256, n - 1);
      LowByte(v, Pow256(n - 1));
      assert Encode(v, n)[1..] == Encode(v / 256, n - 1);
    }
  }

  /** Of an encoded value, the first bytes encode the same value. */
  lemma {:induction false} EncodePrefix(v: nat, n: nat, k: nat)
    requires k <= n
    ensures Encode(v, n)[..k] == Encode(v, k)
  {
    if k > 0 {
      EncodePrefix(v / 256, n - 1, k - 1);
      assert Encode(v, n)[..k] == [v % 256] + Encode(v / 256, n - 1)[..k - 1];
    }
  }

  // ----- round trip on bytes

  lemma {:induction false} DecodeConcat(a: seq<Byte>, b: seq<Byte>)
    ensures Decode(a + b) == Decode(a) + Pow256(|a|) * Decode(b)
  {
    if a == [] {
      assert a + b == b;
    } else {
      assert (a + b)[1..] == a[1..] + b && (a + b)[0] == a[0];
      DecodeConcat(a[1..], b);
      assert Pow256(|a|) == 256 * Pow256(|a| - 1);
      Times256(Pow256(|a| - 1), Decode(b));
    }
  }

  lemma Times256(m: nat, x: nat)
    ensures 256 * (m * x) == (256 * m) * x
  {
  }

  /**
   At any offset, aligned or not: storing `wn` bytes and loading `rn` gives the value modulo the smaller size,
   and above it, when the load is wider, the bytes that were there; a load that shares no byte with the store
   gives what it gave before.
   */
  lemma {:induction false} BytesRoundTrip(
      mem: seq<Byte>, at: nat, v: nat, wn: nat, rn: nat, other: nat, n: nat)
    requires at + wn <= |mem| && at + rn <= |mem| && other + n <= |mem|
    ensures Get(Put(mem, at, v, wn), at, rn)
         == if rn <= wn then v % Pow256(rn)
            else v % Pow256(wn) + Pow256(wn) * Get(mem, at + wn, rn - wn)
    ensures other + n <= at || at + wn <= other ==> Get(Put(mem, at, v, wn), other, n) == Get(mem, other, n)
  {
    var mem' := Put(mem, at, v, wn);
    if rn <= wn {
      assert mem'[at..at + rn] == Encode(v, wn)[..rn];
      EncodePrefix(v, wn, rn);
      DecodeEncode(v, rn);
    } else {
      SliceOver(mem[..at], Encode(v, wn), mem[at + wn..], rn - wn);
      assert mem[at + wn..][..rn - wn] == mem[at + wn..at + rn];
      DecodeConcat(Encode(v, wn), mem[at + wn..at + rn]);
      DecodeEncode(v, wn);
    }
    if other + n <= at || at + wn <= other {
      SliceBeside(mem, at, v, wn, other, n);
    }
  }

  lemma SliceOver(x: seq<Byte>, e: seq<Byte>, y: seq<Byte>, m: nat)
    requires m <= |y|
    ensures (x + e + y)[|x|..|x| + |e| + m] == e + y[..m]
  {
  }

  lemma SliceBeside(mem: seq<Byte>, at: nat, v: nat, wn: nat, other: nat, n: nat)
    requires at + wn <= |mem| && other + n <= |mem| && (other + n <= at || at + wn <= other)
    ensures Put(mem, at, v, wn)[other..other + n] == mem[other..other + n]
  {
  }

  // ----- arrays of words

  function EncodeAll(vs: seq<nat>, n: nat): (r: seq<Byte>)
    ensures |r| == |vs| * n
  {
    if vs == [] then [] else Encode(vs[0], n) + EncodeAll(vs[1..], n)
  }

  lemma {:induction false} EncodeConcat(a: seq<nat>, b: seq<nat>, n: nat)
    ensures EncodeAll(a + b, n) == EncodeAll(a, n) + EncodeAll(b, n)
  {
    if a == [] {
      assert a + b == b;
    } else {
      assert (a + b)[1..] == a[1..] + b;
      EncodeConcat(a[1..], b, n);
    }
  }

  /** The bytes before, of, and behind element `k`. */
  lemma {:induction false} ElementBytes(vs: seq<nat>, n: nat, k: nat)
    requires k < |vs|
    ensures EncodeAll(vs, n) == EncodeAll(vs[..k], n) + Encode(vs[k], n) + EncodeAll(vs[k + 1..], n)
    ensures |EncodeAll(vs[..k], n)| == k * n
  {
    EncodeConcat(vs[..k], vs[k..], n);
    assert vs == vs[..k] + vs[k..] && vs[k..][0] == vs[k] && vs[k..][1..] == vs[k + 1..];
  }

  // ----- the struct

  /** Bytes of a 32-bit and of a 64-bit register. */
  const SINGLE: nat := 4
  const DOUBLE: nat := 8

  /** The bytes of the struct; the seventeenth mirror is its padding. */
  function Image(w: Words): (r: seq<Byte>)
    ensures |r| == STRUCT_SIZE
  {
    EncodeAll([w.ctrl], SINGLE) + EncodeAll(w.soft.mirror, SINGLE) + EncodeAll(w.soft.vcntr, DOUBLE) + EncodeAll(w.soft.capt, DOUBLE)
  }

  /** The bytes of the register that a region of the dispatch accesses. */
  function Width(region: Region): nat {
    if region.RCtrl? || region.RMirror? then SINGLE else DOUBLE
  }

  /** `rel` is the first byte of a register. */
  predicate Aligned(rel: nat) {
    rel < STRUCT_SIZE && if rel < COUNTS_AT then rel % 4 == 0 else rel % 8 == 0
  }

  lemma {:induction false} AlignedFits(rel: nat)
    requires Aligned(rel)
    ensures rel + Width(WriteRegion(rel)) <= STRUCT_SIZE
    ensures match WriteRegion(rel)
            case RCtrl => rel == 0
            case RMirror(e) => rel == MIRRORS_AT + e * 4
            case RCount(k) => rel == COUNTS_AT + k * 8
            case RCapt(k) => rel == CAPTS_AT + k * 8
            case _ => false
  {
    assert STRUCT_SIZE == CAPTS_AT + 32 * 8;
  }

  lemma SpliceAt(x: seq<Byte>, b: seq<Byte>, y: seq<Byte>, v: nat)
    ensures Get(x + b + y, |x|, |b|) == Decode(b)
    ensures Put(x + b + y, |x|, v, |b|) == x + Encode(v, |b|) + y
  {
    var mem := x + b + y;
    assert mem[|x|..|x| + |b|] == b && mem[..|x|] == x && mem[|x| + |b|..] == y;
  }

  lemma Regroup(h: seq<Byte>, a: seq<Byte>, b: seq<Byte>, c: seq<Byte>, t: seq<Byte>)
    ensures h + (a + b + c) + t == (h + a) + b + (c + t)
  {
  }

  lemma Splice(h: seq<Byte>, a: seq<Byte>, b: seq<Byte>, c: seq<Byte>, t: seq<Byte>, v: nat)
    ensures var mem := h + (a + b + c) + t;
            && |h| + |a| + |b| <= |mem|
            && Get(mem, |h| + |a|, |b|) == Decode(b)
            && Put(mem, |h| + |a|, v, |b|) == h + (a + Encode(v, |b|) + c) + t
  {
    Regroup(h, a, b, c, t);
    Regroup(h, a, Encode(v, |b|), c, t);
    SpliceAt(h + a, b, c + t, v);
  }

  /** Loading and storing element `k` of an array that lies between `h` and `t`. */
  lemma {:induction false} PartElement(h: seq<Byte>, vs: seq<nat>, t: seq<Byte>, n: nat, k: nat, v: nat)
    requires k < |vs|
    ensures var mem := h + EncodeAll(vs, n) + t;
            && 0 <= |h| + k * n && |h| + k * n + n <= |mem|
            && Get(mem, |h| + k * n, n) == vs[k] % Pow256(n)
            && Put(mem, |h| + k * n, v, n) == h + EncodeAll(vs[k := v], n) + t
  {
    var vs' := vs[k := v];
    var a, c := EncodeAll(vs[..k], n), EncodeAll(vs[k + 1..], n);
    ElementBytes(vs, n, k);
    ElementBytes(vs', n, k);
    assert vs'[..k] == vs[..k] && vs'[k + 1..] == vs[k + 1..];
    Splice(h, a, Encode(vs[k], n), c, t, v);
    DecodeEncode(vs[k], n);
  }

  lemma Pow256Values()
    ensures Pow256(SINGLE) == TWO_32 && Pow256(DOUBLE) == TWO_64
  {
    assert Pow256(4) == 256 * Pow256(3) && Pow256(3) == 256 * Pow256(2) && Pow256(2) == 256 * Pow256(1);
    assert Pow256(8) == 256 * Pow256(7) && Pow256(7) == 256 * Pow256(6) && Pow256(6) == 256 * Pow256(5);
    assert Pow256(5) == 256 * Pow256(4);
  }

  lemma MirrorBytes(w: Words, e: Event)
    ensures Get(Image(w), MIRRORS_AT + e * 4, SINGLE) == w.soft.mirror[e] % Pow256(SINGLE)
  {
    var h, t := EncodeAll([w.ctrl], SINGLE), EncodeAll(w.soft.vcntr, DOUBLE) + EncodeAll(w.soft.capt, DOUBLE);
    PartElement(h, w.soft.mirror, t, 4, e, 0);
    assert Image(w) == h + EncodeAll(w.soft.mirror, SINGLE) + t;
  }

  lemma CountBytes(w: Words, k: Index, v: u64)
    ensures Get(Image(w), COUNTS_AT + k * 8, DOUBLE) == w.soft.vcntr[k] % Pow256(DOUBLE)
    ensures Put(Image(w), COUNTS_AT + k * 8, v, DOUBLE) == Image(Store(w, RCount(k), v))
  {
    PartElement(EncodeAll([w.ctrl], SINGLE) + EncodeAll(w.soft.mirror, SINGLE), w.soft.vcntr, EncodeAll(w.soft.capt, DOUBLE), 8, k, v);
  }

  lemma CaptBytes(w: Words, k: Index, v: u64)
    ensures Get(Image(w), CAPTS_AT + k * 8, DOUBLE) == w.soft.capt[k] % Pow256(DOUBLE)
    ensures Put(Image(w), CAPTS_AT + k * 8, v, DOUBLE) == Image(Store(w, RCapt(k), v))
  {
    PartElement(Head(w), w.soft.capt, [], 8, k, v);
    CaptLast(w);
    CaptLast(Store(w, RCapt(k), v));
  }

  function Head(w: Words): seq<Byte> {
    EncodeAll([w.ctrl], SINGLE) + EncodeAll(w.soft.mirror, SINGLE) + EncodeAll(w.soft.vcntr, DOUBLE)
  }

  lemma CaptLast(w: Words)
    ensures Image(w) == Head(w) + EncodeAll(w.soft.capt, DOUBLE) + []
    ensures |Head(w)| == CAPTS_AT
  {
  }

  lemma CtrlBytes(w: Words, v: u64)
    ensures Get(Image(w), 0, SINGLE) == w.ctrl % Pow256(SINGLE)
    ensures Put(Image(w), 0, v, SINGLE) == Image(Store(w, RCtrl, v))
  {
    var t := EncodeAll(w.soft.mirror, SINGLE) + EncodeAll(w.soft.vcntr, DOUBLE) + EncodeAll(w.soft.capt, DOUBLE);
    PartElement([], [w.ctrl], t, 4, 0, v);
    assert [w.ctrl][0 := v] == [v];
    EncodeLow(v, SINGLE);
    Pow256Values();
    CtrlFirst(w);
    CtrlFirst(Store(w, RCtrl, v));
  }

  lemma CtrlFirst(w: Words)
    ensures Image(w) == [] + EncodeAll([w.ctrl], SINGLE)
                 + (EncodeAll(w.soft.mirror, SINGLE) + EncodeAll(w.soft.vcntr, DOUBLE) + EncodeAll(w.soft.capt, DOUBLE))
  {
    FirstOfFour(EncodeAll([w.ctrl], SINGLE), EncodeAll(w.soft.mirror, SINGLE),
                EncodeAll(w.soft.vcntr, DOUBLE), EncodeAll(w.soft.capt, DOUBLE));
  }

  lemma FirstOfFour(a: seq<Byte>, b: seq<Byte>, c: seq<Byte>, d: seq<Byte>)
    ensures a + b + c + d == [] + a + (b + c + d)
  {
  }

  /** Every register fits its bytes. */
  lemma LoadSmall(w: Words, region: Region)
    ensures Load(w, region) % Pow256(Width(region)) == Load(w, region)
  {
    Pow256Values();
  }

  /** The typed load of an aligned register is the load of its bytes. */
  lemma {:induction false} LoadIsBytes(w: Words, rel: nat)
    requires Aligned(rel)
    ensures rel + Width(ReadRegion(rel)) <= STRUCT_SIZE
    ensures Load(w, ReadRegion(rel)) == Get(Image(w), rel, Width(ReadRegion(rel)))
  {
    DispatchAgrees(rel);
    AlignedFits(rel);
    LoadSmall(w, ReadRegion(rel));
    match ReadRegion(rel)
    case RCtrl => CtrlBytes(w, 0);
    case RMirror(e) => MirrorBytes(w, e);
    case RCount(k) => CountBytes(w, k, 0);
    case RCapt(k) => CaptBytes(w, k, 0);
    case _ =>
  }

  lemma {:induction false} EncodeLow(v: nat, n: nat)
    ensures Encode(v % Pow256(n), n) == Encode(v, n)
    ensures EncodeAll([v % Pow256(n)], n) == EncodeAll([v], n)
  {
    if n > 0 {
      LowByte(v, Pow256(n - 1));
      EncodeLow(v / 256, n - 1);
    }
  }

  /** The typed store to an aligned plain register is the store of its bytes: no other byte changes. */
  lemma {:induction false} StoreIsBytes(w: Words, rel: nat, val: u64)
    requires Aligned(rel) && !WriteRegion(rel).RMirror?
    ensures rel + Width(WriteRegion(rel)) <= STRUCT_SIZE
    ensures Image(Store(w, WriteRegion(rel), val)) == Put(Image(w), rel, val, Width(WriteRegion(rel)))
  {
    AlignedFits(rel);
    match WriteRegion(rel)
    case RCtrl => CtrlBytes(w, val);
    case RCount(k) => CountBytes(w, k, val);
    case RCapt(k) => CaptBytes(w, k, val);
    case _ =>
  }

  // ----- user accesses

  /** The bytes after a user write of `val` with access size `wsize` to the register at `rel`. */
  function UserPut(mem: seq<Byte>, rel: nat, val: u64, wsize: nat): (r: seq<Byte>)
    requires |mem| == STRUCT_SIZE && Aligned(rel)
    ensures |r| == |mem|
  {
    AlignedFits(rel);
    Put(mem, rel, Cut(val, wsize), Width(WriteRegion(rel)))
  }

  /** What a user read of the register at `rel` with access size `rsize` returns. */
  function UserGet(mem: seq<Byte>, rel: nat, rsize: nat): nat
    requires |mem| == STRUCT_SIZE && Aligned(rel)
  {
    AlignedFits(rel);
    DispatchAgrees(rel);
    var val := Get(mem, rel, Width(ReadRegion(rel)));
    if rsize == 32 then val % TWO_32 else val
  }

  lemma UserPutIs(w: Words, rel: nat, val: u64, wsize: nat)
    requires Aligned(rel) && !WriteRegion(rel).RMirror?
    ensures UserPut(Image(w), rel, val, wsize) == Image(Store(w, WriteRegion(rel), Cut(val, wsize)))
  {
    StoreIsBytes(w, rel, Cut(val, wsize));
  }

  lemma UserGetIs(w: Words, rel: nat, rsize: nat)
    requires Aligned(rel)
    ensures UserGet(Image(w), rel, rsize) == Cut(Load(w, ReadRegion(rel)), rsize)
  {
    LoadIsBytes(w, rel);
  }

  /**
   On the bytes of the struct, for all four pairs of access sizes: a plain register written and read again gives
   the value modulo the smaller size (and never more than 32 bits of the control word), and every other
   register reads as before.
   */
  lemma {:induction false} UserRoundTrip(w: Words, rel: nat, val: u64, wsize: nat, rsize: nat, other: nat)
    requires ValidSize(wsize) && ValidSize(rsize) && Aligned(rel) && Aligned(other) && !WriteRegion(rel).RMirror?
    ensures var mem := UserPut(Image(w), rel, val, wsize);
            && UserGet(mem, rel, rsize)
               == (if WriteRegion(rel).RCtrl? || wsize == 32 || rsize == 32 then val % TWO_32 else val)
            && (other != rel ==> UserGet(mem, other, rsize) == UserGet(Image(w), other, rsize))
  {
    OwnRoundTrip(w, rel, val, wsize, rsize);
    if other != rel { OtherRoundTrip(w, rel, val, wsize, rsize, other); }
  }

  lemma WordRoundTrip(w: Words, rel: nat, val: u64, wsize: nat, rsize: nat)
    requires ValidSize(wsize) && ValidSize(rsize) && Aligned(rel) && !WriteRegion(rel).RMirror?
    ensures Cut(Load(Store(w, WriteRegion(rel), Cut(val, wsize)), ReadRegion(rel)), rsize)
         == if WriteRegion(rel).RCtrl? || wsize == 32 || rsize == 32 then val % TWO_32 else val
  {
    RegisterRoundTrip(w, rel, val, wsize, rsize, rel);
    assert val % TWO_64 == val;
  }

  lemma OwnRoundTrip(w: Words, rel: nat, val: u64, wsize: nat, rsize: nat)
    requires ValidSize(wsize) && ValidSize(rsize) && Aligned(rel) && !WriteRegion(rel).RMirror?
    ensures UserGet(UserPut(Image(w), rel, val, wsize), rel, rsize)
         == if WriteRegion(rel).RCtrl? || wsize == 32 || rsize == 32 then val % TWO_32 else val
  {
    UserPutIs(w, rel, val, wsize);
    UserGetIs(Store(w, WriteRegion(rel), Cut(val, wsize)), rel, rsize);
    WordRoundTrip(w, rel, val, wsize, rsize);
  }

  lemma OtherRoundTrip(w: Words, rel: nat, val: u64, wsize: nat, rsize: nat, other: nat)
    requires ValidSize(wsize) && ValidSize(rsize) && Aligned(rel) && Aligned(other) && !WriteRegion(rel).RMirror?
    requires other != rel
    ensures UserGet(UserPut(Image(w), rel, val, wsize), other, rsize) == UserGet(Image(w), other, rsize)
  {
    UserPutIs(w, rel, val, wsize);
    UserGetIs(Store(w, WriteRegion(rel), Cut(val, wsize)), other, rsize);
    UserGetIs(w, other, rsize);
    AlignedApart(rel, other);
    RegisterRoundTrip(w, rel, val, wsize, rsize, other);
  }

  lemma AlignedApart(rel: nat, other: nat)
    requires Aligned(rel) && Aligned(other) && rel != other
    ensures ReadRegion(rel) != ReadRegion(other)
  {
    DispatchAgrees(rel);
    DispatchAgrees(other);
    AlignedFits(rel);
    AlignedFits(other);
  }
}
