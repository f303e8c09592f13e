/** Machine words as bounded integers, with shifts, masks and the bitwise operators the driver uses. */
module Bits {

  const TWO_32: nat := 0x1_0000_0000
  const TWO_63: nat := 0x8000_0000_0000_0000
  const TWO_64: nat := 0x1_0000_0000_0000_0000

  type u32 = x: int | 0 <= x < 0x1_0000_0000
  type u64 = x: int | 0 <= x < 0x1_0000_0000_0000_0000

  /** `m >> i`. */
  function Shr(m: nat, i: nat): nat {
    if i == 0 then m else Shr(m, i - 1) / 2
  }

  /** Bit `k` of `m`. */
  predicate Bit(m: nat, k: nat) {
    Shr(m, k) % 2 == 1
  }

  /** `1 << i`. */
  function Pow2(i: nat): nat {
    if i == 0 then 1 else 2 * Pow2(i - 1)
  }

  /** `a & b`. */
  function And(a: nat, b: nat): nat {
    if a == 0 then 0
    else 2 * And(a / 2, b / 2) + (if a % 2 == 1 && b % 2 == 1 then 1 else 0)
  }

  /** `a | b`. */
  function Or(a: nat, b: nat): nat
    decreases a + b
  {
    if a == 0 then b
    else 2 * Or(a / 2, b / 2) + (if a % 2 == 1 || b % 2 == 1 then 1 else 0)
  }

  /** `~a` on 32 bits. */
  function Not(a: u32): u32 {
    0xFFFF_FFFF - a
  }

  /** The bit positions set in `w`. */
  function SetOf(w: u32): set<nat> {
    set k: nat | k < 32 && Bit(w, k)
  }

  // ----- shifts

  lemma {:induction false} ShrBit(m: nat, i: nat, k: nat)
    ensures Shr(Shr(m, i), k) == Shr(m, i + k)
  {
    if k > 0 {
      ShrBit(m, i, k - 1);
    }
  }

  lemma {:induction false} Pow2Values()
    ensures Pow2(32) == TWO_32
  {
    assert Pow2(8) == 256;
    assert Pow2(16) == 256 * Pow2(8);
    assert Pow2(24) == 256 * Pow2(16);
    assert Pow2(32) == 256 * Pow2(24);
  }

  lemma {:induction false} Pow2Positive(n: nat)
    ensures Pow2(n) > 0
  {
    if n > 0 {
      Pow2Positive(n - 1);
    }
  }

  lemma {:induction false} ShrBound(m: nat, n: nat, i: nat)
    requires m < Pow2(n) && i <= n
    ensures Shr(m, i) < Pow2(n - i)
  {
    if i > 0 {
      ShrBound(m, n, i - 1);
      assert Pow2(n - i + 1) == 2 * Pow2(n - i);
    }
  }

  lemma {:induction false} ShrZeroStays(m: nat, i: nat, k: nat)
    requires i <= k && Shr(m, i) == 0
    ensures Shr(m, k) == 0
  {
    if i < k {
      ShrZeroStays(m, i, k - 1);
    }
  }

  /** A 32-bit word has no bits at 32 or above. */
  lemma {:induction false} WordBits(m: u32, k: nat)
    requires k >= 32
    ensures Shr(m, k) == 0 && !Bit(m, k)
  {
    Pow2Values();
    ShrBound(m, 32, 32);
    ShrZeroStays(m, 32, k);
  }

  /** Once the shifted mask is zero, no higher bit is set. */
  lemma {:induction false} NoBitsAbove(m: nat, i: nat, k: nat)
    requires Shr(m, i) == 0 && i <= k
    ensures !Bit(m, k)
  {
    ShrZeroStays(m, i, k);
  }

  lemma {:induction false} SetBitIsLow(m: u32, k: nat)
    requires Bit(m, k)
    ensures k < 32
  {
    if k >= 32 {
      WordBits(m, k);
    }
  }

  lemma {:induction false} NonZeroIsLow(m: u32, i: nat)
    requires i <= 32
    ensures Shr(m, i) != 0 ==> i < 32
  {
    if i == 32 {
      WordBits(m, 32);
    }
  }

  lemma {:induction false} NonZero(m: nat, i: nat)
    ensures Shr(m, i) != 0 ==> m != 0
    ensures Bit(m, i) ==> m != 0
  {
    if m == 0 {
      ShrZeroStays(m, 0, i);
    }
  }

  /** A non-zero mask has a set bit. */
  lemma {:induction false} SomeBit(m: nat) returns (k: nat)
    requires m > 0
    ensures Bit(m, k)
  {
    if m % 2 == 1 {
      k := 0;
    } else {
      var j := SomeBit(m / 2);
      assert Shr(m, 1) == m / 2;
      ShrBit(m, 1, j);
      k := j + 1;
    }
  }

  // ----- extensionality

  /** Words with the same bits are the same word. */
  lemma {:induction false} SameBits(a: nat, b: nat)
    requires forall k: nat :: Bit(a, k) <==> Bit(b, k)
    ensures a == b
    decreases a + b
  {
    if a != 0 || b != 0 {
      forall k: nat
        ensures Bit(a / 2, k) <==> Bit(b / 2, k)
      {
        assert Shr(a, 1) == a / 2 && Shr(b, 1) == b / 2;
        ShrBit(a, 1, k);
        ShrBit(b, 1, k);
        assert Bit(a, k + 1) <==> Bit(b, k + 1);
      }
      SameBits(a / 2, b / 2);
      assert Bit(a, 0) <==> Bit(b, 0);
    }
  }

  /** A word is determined by its set of bit positions. */
  lemma {:induction false} SetOfInjective(a: u32, b: u32)
    requires SetOf(a) == SetOf(b)
    ensures a == b
  {
    forall k: nat
      ensures Bit(a, k) <==> Bit(b, k)
    {
      if k >= 32 {
        WordBits(a, k);
        WordBits(b, k);
      } else {
        assert k in SetOf(a) <==> k in SetOf(b);
      }
    }
    SameBits(a, b);
  }

  // ----- bitwise operators

  lemma {:induction false} ShrAnd(a: nat, b: nat, k: nat)
    ensures Shr(And(a, b), k) == And(Shr(a, k), Shr(b, k))
  {
    if k > 0 {
      ShrAnd(a, b, k - 1);
      AndHalf(Shr(a, k - 1), Shr(b, k - 1));
    }
  }

  lemma {:induction false} AndHalf(a: nat, b: nat)
    ensures And(a, b) / 2 == And(a / 2, b / 2)
    ensures And(a, b) % 2 == 1 <==> a % 2 == 1 && b % 2 == 1
  {
  }

  lemma {:induction false} AndBit(a: nat, b: nat, k: nat)
    ensures Bit(And(a, b), k) <==> Bit(a, k) && Bit(b, k)
  {
    ShrAnd(a, b, k);
    AndHalf(Shr(a, k), Shr(b, k));
  }

  lemma {:induction false} AndBound(a: nat, b: nat)
    ensures And(a, b) <= a
  {
    if a != 0 {
      AndBound(a / 2, b / 2);
    }
  }

  lemma {:induction false} OrHalf(a: nat, b: nat)
    ensures Or(a, b) / 2 == Or(a / 2, b / 2)
    ensures Or(a, b) % 2 == 1 <==> a % 2 == 1 || b % 2 == 1
  {
  }

  lemma {:induction false} ShrOr(a: nat, b: nat, k: nat)
    ensures Shr(Or(a, b), k) == Or(Shr(a, k), Shr(b, k))
  {
    if k > 0 {
      ShrOr(a, b, k - 1);
      OrHalf(Shr(a, k - 1), Shr(b, k - 1));
    }
  }

  lemma {:induction false} OrBit(a: nat, b: nat, k: nat)
    ensures Bit(Or(a, b), k) <==> Bit(a, k) || Bit(b, k)
  {
    ShrOr(a, b, k);
    OrHalf(Shr(a, k), Shr(b, k));
  }

  lemma {:induction false} OrBound(a: nat, b: nat, n: nat)
    requires a < Pow2(n) && b < Pow2(n)
    ensures Or(a, b) < Pow2(n)
  {
    if n > 0 {
      OrBound(a / 2, b / 2, n - 1);
      OrHalf(a, b);
    }
  }

  lemma {:induction false} OrZero(a: nat)
    ensures Or(a, 0) == a
  {
    if a > 0 { OrZero(a / 2); }
  }

  lemma {:induction false} OrStep(y: nat, b: nat)
    requires Or(y, b / 2) == y + b / 2
    ensures Or(2 * y, b) == 2 * y + b
  {
    OrHalf(2 * y, b);
    assert 2 * y / 2 == y;
  }

  lemma {:induction false} Doubled(a: nat, m: nat)
    ensures 0 <= a * m && a * (2 * m) == 2 * (a * m)
  {
  }

  /** Or-ing into zero bits is adding. */
  lemma {:induction false} OrIsSum(a: nat, b: nat, n: nat)
    requires b < Pow2(n)
    ensures a * Pow2(n) >= 0 && Or(a * Pow2(n), b) == a * Pow2(n) + b
    decreases n
  {
    if n == 0 {
      OrZero(a);
    } else {
      OrIsSum(a, b / 2, n - 1);
      Doubled(a, Pow2(n - 1));
      OrStep(a * Pow2(n - 1), b);
    }
  }

  lemma {:induction false} OrIsWord(a: u32, b: u32)
    ensures Or(a, b) < TWO_32
  {
    Pow2Values();
    OrBound(a, b, 32);
  }

  lemma {:induction false} ShrComplement(a: nat, n: nat, k: nat)
    requires a < Pow2(n) && k <= n
    ensures Shr(a, k) < Pow2(n - k)
    ensures Shr(Pow2(n) - 1 - a, k) == Pow2(n - k) - 1 - Shr(a, k)
  {
    if k > 0 {
      ShrComplement(a, n, k - 1);
      assert Pow2(n - k + 1) == 2 * Pow2(n - k);
    }
  }

  lemma {:induction false} NotBit(a: u32, k: nat)
    requires k < 32
    ensures Bit(Not(a), k) <==> !Bit(a, k)
  {
    Pow2Values();
    ShrComplement(a, 32, k);
    assert Pow2(32 - k) == 2 * Pow2(31 - k);
  }

  lemma {:induction false} Pow2Bit(i: nat, k: nat)
    ensures Bit(Pow2(i), k) <==> i == k
  {
    if k == 0 {
      if i > 0 { assert Pow2(i) == 2 * Pow2(i - 1); }
    } else if i == 0 {
      assert Shr(1, 1) == 0;
      ShrZeroStays(1, 1, k);
    } else {
      assert Shr(Pow2(i), 1) == Pow2(i - 1);
      ShrBit(Pow2(i), 1, k - 1);
      Pow2Bit(i - 1, k - 1);
    }
  }

  lemma {:induction false} Pow2IsWord(i: nat)
    requires i < 32
    ensures Pow2(i) < TWO_32
  {
    Pow2Values();
    Pow2Less(i, 32);
  }

  lemma {:induction false} Pow2Less(i: nat, n: nat)
    requires i < n
    ensures Pow2(i) < Pow2(n)
  {
    Pow2Positive(n - 1);
    if i < n - 1 {
      Pow2Less(i, n - 1);
    }
  }

  /** `a & ~b`: what a write of `b` leaves of a write-1-to-clear register holding `a`. */
  function AndNot(a: u32, b: u32): (r: u32)
  {
    AndBound(a, Not(b));
    And(a, Not(b))
  }

  lemma {:induction false} AndNotBit(a: u32, b: u32, k: nat)
    ensures Bit(AndNot(a, b), k) <==> Bit(a, k) && !Bit(b, k)
  {
    AndBit(a, Not(b), k);
    if k < 32 {
      NotBit(b, k);
    } else {
      WordBits(a, k);
    }
  }

  /** `a | b` on 32-bit words. */
  function OrWord(a: u32, b: u32): (r: u32)
  {
    OrIsWord(a, b);
    Or(a, b)
  }

  /** The mask with only bit `i`. */
  function BitMask(i: nat): (r: u32)
    requires i < 32
  {
    Pow2IsWord(i);
    Pow2(i)
  }
}
