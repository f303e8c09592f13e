/**
 The Event Processing Unit as software sees it: which register answers at which byte offset of its map, and
 what reading and writing it does.  The offsets here are those of the hardware; nothing in this module knows
 the offsets the driver computes.
 */
module Epu {
  import opened Bits
  import opened Protocol

  datatype Register =
    | Status                    // EPCTRISR, write 1 to clear
    | EventControl(e: nat)      // EPECR
    | GroupSelect(e: nat)       // EPGACR
    | GroupMask(g: nat)         // EPCTRGCR
    | CounterControl(k: Index)  // EPCCR
    | Counter(k: Index)         // EPCTR
    | CaptureWord(k: Index)     // EPCAPR
    | Elsewhere

  /** Word `off` of a register file that starts at `base` and has `n` words. */
  predicate Among(off: nat, base: nat, n: nat) {
    base <= off < base + 4 * n && off % 4 == 0
  }

  function Decode(off: nat): Register {
    if off == 0x030 then Status
    else if Among(off, 0x300, 16) then EventControl((off - 0x300) / 4)
    else if Among(off, 0x480, 16) then GroupSelect((off - 0x480) / 4)
    else if Among(off, 0x540, 4) then GroupMask((off - 0x540) / 4)
    else if Among(off, 0x800, 32) then CounterControl((off - 0x800) / 4)
    else if Among(off, 0xA00, 32) then Counter((off - 0xA00) / 4)
    else if Among(off, 0xB00, 32) then CaptureWord((off - 0xB00) / 4)
    else Elsewhere
  }

  /** The registers the overflow accounting depends on: pending bits, counters and capture words. */
  datatype Hw = Hw(isr: u32, ctr: Row, capr: Row)

  /** The word `val` may be what a read at `off` returns; registers that are not kept may return any word. */
  predicate Returns(hw: Hw, off: nat, val: u32) {
    match Decode(off)
    case Status => val == hw.isr
    case Counter(k) => val == hw.ctr[k]
    case CaptureWord(k) => val == hw.capr[k]
    case _ => true
  }

  /** A write to an event's control register with bit 24 set captures. */
  predicate Captures(off: nat, val: u32) {
    Decode(off).EventControl? && Bit(val, 24)
  }

  /** The hardware after a write; `latch` are the words a capture puts into the capture registers. */
  function Write(hw: Hw, off: nat, val: u32, latch: Row): Hw {
    match Decode(off)
    case Status => hw.(isr := AndNot(hw.isr, val))
    case Counter(k) => hw.(ctr := hw.ctr[k := val])
    case CaptureWord(k) => hw.(capr := hw.capr[k := val])
    case EventControl(_) => if Bit(val, 24) then hw.(capr := latch) else hw
    case _ => hw
  }

  // ----- the driver's addresses

  /** Every address the driver computes is that of the register it means. */
  lemma {:induction false} AddressesMeant(k: Index, e: Event)
    ensures Decode(EPCTRISR) == Status
    ensures Decode(EPCCR + 4 * k) == CounterControl(k)
    ensures Decode(EPCTR + 4 * k) == Counter(k)
    ensures Decode(EPCAPR + 4 * k) == CaptureWord(k)
    ensures e < 16 ==> Decode(EPECR + 4 * e) == EventControl(e) && Decode(EPGACR + 4 * e) == GroupSelect(e)
    ensures e == 16 ==> Decode(EPECR + 4 * e) == Elsewhere
    ensures Decode(EPCTRGCR) == GroupMask(0)
  {
  }

  /** The "last cycle" address is the status register for an empty group, and no register kept here otherwise. */
  lemma {:induction false} LastCycleAddress(n: Count)
    ensures n == 0 ==> Decode(EPCTRISR + 4 * n) == Status
    ensures n > 0 ==> Decode(EPCTRISR + 4 * n) == Elsewhere
  {
  }

  /** The firing bit, and only it, is added to a control word. */
  lemma {:induction false} FiringBit(ctl: u32, j: nat)
    requires j < 32
    ensures Bit(OrWord(ctl, STS), j) <==> Bit(ctl, j) || j == 24
  {
    assert Pow2(24) == STS by {
      assert Pow2(8) == 256;
      assert Pow2(16) == 256 * Pow2(8) && Pow2(24) == 256 * Pow2(16);
    }
    OrBit(ctl, STS, j);
    Pow2Bit(24, j);
  }

  /** Writing all ones to the status register leaves nothing pending. */
  lemma {:induction false} AllCleared(isr: u32)
    ensures AndNot(isr, 0xFFFF_FFFF) == 0
  {
    if AndNot(isr, 0xFFFF_FFFF) != 0 {
      var k := SomeBit(AndNot(isr, 0xFFFF_FFFF));
      SetBitIsLow(AndNot(isr, 0xFFFF_FFFF), k);
      AndNotBit(isr, 0xFFFF_FFFF, k);
      AllOnes(k);
    }
  }

  lemma {:induction false} AllOnes(k: nat)
    requires k < 32
    ensures Bit(0xFFFF_FFFF, k)
  {
    ShrZeroStays(0, 0, k);
    NotBit(0, k);
  }
}
