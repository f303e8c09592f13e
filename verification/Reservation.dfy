/** Resource reservation: four bitmaps in EPU registers, updated by locked read-modify-write. */
module Reservation {
  import opened Bits
  import opened RegMap

  // enum RESOURCE_GROUP_ID: counters, counter groups, SCU events, GDPESCR
  type Grp = g: nat | g < 4

  /** Number of resources of a group. */
  function Bound(g: Grp): nat {
    if g == 0 then 32 else if g == 1 then 4 else 16
  }

  /** Index of the group's word in the reservation registers, which are numbered downwards. */
  function Word(g: Grp): nat {
    60 - 1 - (if g == 0 then 0 else if g == 1 then 4 else if g == 2 then 8 else 32)
  }

  datatype Cmd = Reserve | Relinq | GetUsage | OtherCmd

  // ----- the index mask

  /** `1 << i` in a 32-bit signed int; for 32 and more the shift is undefined and its value never used. */
  function SignedOne(i: nat): int {
    if i < 31 then Pow2(i) else if i == 31 then -0x8000_0000 else 0
  }

  /** Converted to 64 bits unsigned, sign included, and then cut to 32. */
  function IndexMask(i: nat): (r: u32) {
    (if SignedOne(i) < 0 then TWO_64 + SignedOne(i) else SignedOne(i)) % TWO_32
  }

  /** The detour over a negative int gives the mask of bit `i` for every valid index, 31 included. */
  lemma {:induction false} IndexMaskValue(i: nat)
    requires i < 32
    ensures IndexMask(i) == BitMask(i)
  {
    Pow2Values();
    assert Pow2(32) == 2 * Pow2(31);
    if i < 31 {
      Pow2IsWord(i);
      Pow2Positive(i);
    }
  }

  // ----- one word

  /** Test and modify: result and new word of a RESERVE or RELINQ of bit `i`. */
  function Change(word: u32, cmd: Cmd, i: nat): (Status, u32)
    requires i < 32
  {
    match cmd
    case Reserve => if Bit(word, i) then (EBusy, word) else (Ok, OrWord(word, BitMask(i)))
    case Relinq => if Bit(word, i) then (Ok, AndNot(word, BitMask(i))) else (EPerm, word)
    case _ => (ENoTty, word)
  }

  /** On sets: RESERVE adds an absent index, RELINQ removes a present one, anything else fails and changes nothing. */
  lemma {:induction false} ChangeOnSets(word: u32, cmd: Cmd, i: nat)
    requires i < 32
    ensures var (ret, word') := Change(word, cmd, i);
            && (cmd == Reserve ==>
                  if i in SetOf(word) then ret == EBusy && word' == word
                  else ret == Ok && SetOf(word') == SetOf(word) + {i})
            && (cmd == Relinq ==>
                  if i in SetOf(word) then ret == Ok && SetOf(word') == SetOf(word) - {i}
                  else ret == EPerm && word' == word)
            && (ret != Ok ==> word' == word)
  {
    var word' := Change(word, cmd, i).1;
    forall k: nat | k < 32
      ensures cmd == Reserve && !Bit(word, i) ==> (Bit(word', k) <==> Bit(word, k) || k == i)
      ensures cmd == Relinq && Bit(word, i) ==> (Bit(word', k) <==> Bit(word, k) && k != i)
    {
      OrBit(word, BitMask(i), k);
      AndNotBit(word, BitMask(i), k);
      Pow2Bit(i, k);
    }
  }

  /** The masked test of the code is the bit test. */
  lemma {:induction false} MaskTest(word: u32, i: nat)
    requires i < 32
    ensures And(word, BitMask(i)) != 0 <==> Bit(word, i)
  {
    Pow2Bit(i, i);
    AndBit(word, BitMask(i), i);
    NonZero(And(word, BitMask(i)), i);
    if And(word, BitMask(i)) != 0 {
      var k := SomeBit(And(word, BitMask(i)));
      AndBit(word, BitMask(i), k);
      Pow2Bit(i, k);
    }
  }

  // ----- one client

  type Slot = i: nat | i < 32

  /** Where a client stands between two accesses. */
  datatype Client =
    | Ready
    | Asking(cmd: Cmd, g: Grp, i: Slot)                // request accepted, lock not yet taken
    | Locked(cmd: Cmd, g: Grp, i: Slot)
    | Loaded(cmd: Cmd, g: Grp, i: Slot, prev: u32)     // register read
    | Storing(cmd: Cmd, g: Grp, i: Slot, val: u32)     // test passed, new value computed
    | Leaving(ret: Status)

  /** The next control point; `word` is what the register holds when it is read. */
  function Advance(c: Client, word: u32): Client {
    match c
    case Ready => Ready
    case Asking(cmd, g, i) => Locked(cmd, g, i)
    case Locked(cmd, g, i) => Loaded(cmd, g, i, word)
    case Loaded(cmd, g, i, prev) =>
      var (ret, val) := Change(prev, cmd, i);
      if ret == Ok then Storing(cmd, g, i, val) else Leaving(ret)
    case Storing(_, _, _, _) => Leaving(Ok)
    case Leaving(_) => Ready
  }

  // ----- the ioctl

  /** Every access moves the ghost `client`, which must be waiting for just that access. */
  class Registers {
    const eprsrv: array<u32>
    var regAccLock: bool
    ghost var client: Client

    ghost predicate Valid() {
      eprsrv.Length == 60
    }

    constructor ()
      ensures Valid() && !regAccLock && client.Ready? && fresh(eprsrv)
      ensures forall g: Grp :: Held(g) == {}
    {
      eprsrv := new u32[60](_ => 0);
      regAccLock := false;
      client := Ready;
      new;
      forall k: nat ensures !Bit(0, k) { ShrZeroStays(0, 0, k); }
    }

    /** The words of the four groups: counters, counter groups, SCU events, GDPESCR. */
    ghost function Words(): (w: seq<u32>)
      requires Valid()
      reads eprsrv
      ensures |w| == 4
    {
      [eprsrv[59], eprsrv[55], eprsrv[51], eprsrv[27]]
    }

    /** The indices of group `g` that are reserved. */
    ghost function Held(g: Grp): set<nat>
      requires Valid()
      reads eprsrv
    {
      SetOf(Words()[g])
    }

    /** 32 counters, 4 counter groups, 16 SCU events and 16 GDPESCR registers can be reserved. */
    predicate Acceptable(grp: nat, index: nat) {
      || (grp == 0 && index < 32)
      || (grp == 1 && index < 4)
      || (grp == 2 && index < 16)
      || (grp == 3 && index < 16)
    }

    method Lock()
      requires !regAccLock && client.Asking?
      modifies `regAccLock, `client
      ensures regAccLock && client == Advance(old(client), 0)
    {
      regAccLock := true;
      client := Advance(client, 0);
    }

    method Unlock()
      requires regAccLock && client.Leaving?
      modifies `regAccLock, `client
      ensures !regAccLock && client == Ready
    {
      regAccLock := false;
      client := Advance(client, 0);
    }

    /** A register is read under the lock in an update, and without it for a usage query. */
    method IoRead32(reg: nat) returns (val: u32)
      requires Valid() && reg < 60
      requires client.Ready? || (client.Locked? && regAccLock && reg == Word(client.g))
      modifies `client
      ensures val == eprsrv[reg] && client == Advance(old(client), val)
      ensures forall g: Grp :: reg == Word(g) ==> val == Words()[g]
    {
      val := eprsrv[reg];
      client := Advance(client, val);
    }

    /** Only the value computed from the word read under the lock is ever written. */
    method IoWrite32(val: u32, reg: nat)
      requires Valid() && client.Storing? && regAccLock && reg == Word(client.g) && val == client.val
      modifies `client, eprsrv
      ensures Words() == old(Words())[old(client).g := val] && client == Advance(old(client), 0)
      ensures forall w :: 0 <= w < 60 && w !in {59, 55, 51, 27} ==> eprsrv[w] == old(eprsrv[w])
    {
      eprsrv[reg] := val;
      client := Advance(client, 0);
    }

    /**
     `copied` and `stored` say whether the user copies succeed, `usagePtr` whether the result address is
     non-null.
     */
    method ResourceReserve(cmd: Cmd, grp: nat, index: nat, copied: bool, usagePtr: bool, stored: bool)
        returns (ret: Status, usage: u32)
      requires Valid() && !regAccLock && client.Ready?
      modifies `regAccLock, `client, eprsrv
      ensures !regAccLock && client.Ready?
      ensures !copied ==> ret == EFault
      ensures copied && !Acceptable(grp, index) ==> ret == EInval
      ensures copied && Acceptable(grp, index) ==>
                match cmd
                case Reserve => ret == if index in old(Held(grp)) then EBusy else Ok
                case Relinq => ret == if index in old(Held(grp)) then Ok else EPerm
                case GetUsage =>
                  ret == (if !usagePtr then EInval else if stored then Ok else EFault)
                  && (ret == Ok ==> usage == Words()[grp] && SetOf(usage) == Held(grp))
                case OtherCmd => ret == ENoTty
      ensures ret != Ok || cmd == GetUsage ==> eprsrv[..] == old(eprsrv[..])
      ensures ret == Ok && cmd != GetUsage ==>
                && grp < 4 && index < 32
                && Held(grp) == (if cmd == Reserve then old(Held(grp)) + {index} else old(Held(grp)) - {index})
                && (forall h: Grp :: h != grp ==> Held(h) == old(Held(h)))
                && Words() == old(Words())[grp := Change(old(Words())[grp], cmd, index).1]
                && (forall w :: 0 <= w < 60 && w !in {59, 55, 51, 27} ==> eprsrv[w] == old(eprsrv[w]))
    {
      usage := 0;
      if !copied { return EFault, 0; }
      var indxMask := IndexMask(index);
      if grp >= 4 { return EInval, 0; }
      var g: Grp := grp;
      if index >= Bound(g) { return EInval, 0; }
      IndexMaskValue(index);
      var reg := Word(g);
      match cmd
      case Reserve =>
        client := Asking(cmd, g, index);
        Lock();
        var prevVal := IoRead32(reg);
        MaskTest(prevVal, index);
        ChangeOnSets(prevVal, cmd, index);
        client := Advance(client, 0);
        if And(prevVal, indxMask) != 0 {
          ret := EBusy;
        } else {
          IoWrite32(OrWord(prevVal, indxMask), reg);
          ret := Ok;
        }
        Unlock();
      case Relinq =>
        client := Asking(cmd, g, index);
        Lock();
        var prevVal := IoRead32(reg);
        MaskTest(prevVal, index);
        ChangeOnSets(prevVal, cmd, index);
        client := Advance(client, 0);
        if And(prevVal, indxMask) == 0 {
          ret := EPerm;
        } else {
          IoWrite32(AndNot(prevVal, indxMask), reg);
          ret := Ok;
        }
        Unlock();
      case GetUsage =>
        if !usagePtr { return EInval, 0; }
        usage := IoRead32(reg);
        ret := if stored then Ok else EFault;
      case OtherCmd =>
        ret := ENoTty;
    }
  }
}
