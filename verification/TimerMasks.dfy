// The bit macros of timer.h on 32-bit words, and which bit positions they set
// and clear.
module TimerMasks {

  /** 1U << i */
  function Mask(i: nat): bv32 {
    if i == 0 then 1 else Mask(i - 1) << 1
  }

  /** The positions of the bits that are one. */
  function Bits(w: bv32): set<nat> {
    set i: nat | i < 32 && IsOne(w, i)
  }

  predicate IsOne(w: bv32, i: nat) {
    Hits(w, Mask(i))
  }

  predicate Hits(w: bv32, m: bv32) {
    w & m != 0
  }

  // ----- Different masks have no bit in common -----------------------------

  lemma ShiftedApart(a: bv32, b: bv32)
    requires a & b == 0
    ensures (a << 1) & (b << 1) == 0
  {
  }

  lemma ShiftedIsEven(b: bv32)
    ensures 1 & (b << 1) == 0
  {
  }

  lemma {:induction false} MasksApart(i: nat, j: nat)
    requires i < j
    ensures Mask(i) & Mask(j) == 0 && Mask(j) & Mask(i) == 0
  {
    if i == 0 {
      ShiftedIsEven(Mask(j - 1));
    } else {
      MasksApart(i - 1, j - 1);
      ShiftedApart(Mask(i - 1), Mask(j - 1));
    }
    Swapped(Mask(i), Mask(j));
  }

  lemma Swapped(a: bv32, b: bv32)
    ensures a & b == b & a
  {
  }

  lemma LowMasks()
    ensures Mask(0) == 0x01 && Mask(1) == 0x02 && Mask(2) == 0x04 && Mask(3) == 0x08
    ensures Mask(5) == 0x20 && Mask(6) == 0x40 && Mask(7) == 0x80
  {
    assert Mask(0) == 1;
    assert Mask(1) == 2;
    assert Mask(2) == 4;
    assert Mask(3) == 8;
    assert Mask(4) == 16;
    assert Mask(5) == 32;
    assert Mask(6) == 64;
  }

  // ----- Setting and clearing one bit --------------------------------------

  lemma OrSame(w: bv32, m: bv32)
    requires m != 0
    ensures Hits(w | m, m)
  {
  }

  lemma OrOther(w: bv32, m: bv32, n: bv32)
    requires !Hits(m, n)
    ensures Hits(w | m, n) <==> Hits(w, n)
  {
  }

  lemma AndNotSame(w: bv32, m: bv32)
    ensures !Hits(w & !m, m)
  {
  }

  lemma AndNotOther(w: bv32, m: bv32, n: bv32)
    requires !Hits(m, n)
    ensures Hits(w & !m, n) <==> Hits(w, n)
  {
  }

  lemma Apart(k: nat, i: nat)
    requires k != i
    ensures !Hits(Mask(k), Mask(i))
  {
    if k < i {
      MasksApart(k, i);
    } else {
      MasksApart(i, k);
    }
  }

  lemma OrOne(w: bv32, k: nat, m: bv32, i: nat)
    requires m == Mask(k) && i != k
    ensures IsOne(w | m, i) <==> IsOne(w, i)
  {
    Apart(k, i);
    OrOther(w, m, Mask(i));
  }

  lemma AndNotOne(w: bv32, k: nat, m: bv32, i: nat)
    requires m == Mask(k) && i != k
    ensures IsOne(w & !m, i) <==> IsOne(w, i)
  {
    Apart(k, i);
    AndNotOther(w, m, Mask(i));
  }

  lemma SetsBit(w: bv32, k: nat, m: bv32, r: bv32)
    requires k < 32 && m == Mask(k) && m != 0 && r == w | m
    ensures Bits(r) == Bits(w) + {k}
  {
    OrSame(w, m);
    forall i: nat | i < 32 && i != k ensures IsOne(r, i) <==> IsOne(w, i) {
      OrOne(w, k, m, i);
    }
  }

  lemma ClearsBit(w: bv32, k: nat, m: bv32, r: bv32)
    requires k < 32 && m == Mask(k) && r == w & !m
    ensures Bits(r) == Bits(w) - {k}
  {
    AndNotSame(w, m);
    forall i: nat | i < 32 && i != k ensures IsOne(r, i) <==> IsOne(w, i) {
      AndNotOne(w, k, m, i);
    }
  }

  // ----- The macros --------------------------------------------------------

  function TimerEnable(reg: bv32): (r: bv32)
    ensures Bits(r) == Bits(reg) + {7}
  {
    LowMasks();
    SetsBit(reg, 7, 1 << 7, reg | (1 << 7));
    reg | (1 << 7)
  }

  function TimerDisable(reg: bv32): (r: bv32)
    ensures Bits(r) == Bits(reg) - {7}
  {
    LowMasks();
    ClearsBit(reg, 7, 1 << 7, reg & !(1 << 7));
    reg & !(1 << 7)
  }

  function TimerFreeRunning(reg: bv32): (r: bv32)
    ensures Bits(r) == Bits(reg) + {6}
  {
    LowMasks();
    SetsBit(reg, 6, 1 << 6, reg | (1 << 6));
    reg | (1 << 6)
  }

  function TimerPeriodic(reg: bv32): (r: bv32)
    ensures Bits(r) == Bits(reg) - {6}
  {
    LowMasks();
    ClearsBit(reg, 6, 1 << 6, reg & !(1 << 6));
    reg & !(1 << 6)
  }

  function TimerEnableInt(reg: bv32): (r: bv32)
    ensures Bits(r) == Bits(reg) + {5}
  {
    LowMasks();
    SetsBit(reg, 5, 1 << 5, reg | (1 << 5));
    reg | (1 << 5)
  }

  function TimerDisableInt(reg: bv32): (r: bv32)
    ensures Bits(r) == Bits(reg) - {5}
  {
    LowMasks();
    ClearsBit(reg, 5, 1 << 5, reg & !(1 << 5));
    reg & !(1 << 5)
  }

  /** Two bits at once. */
  function TimerPrescale1(reg: bv32): (r: bv32)
    ensures Bits(r) == Bits(reg) - {3, 2}
  {
    LowMasks();
    BothCleared(reg);
    TwoBitsCleared(reg, reg & !8, reg & !(3 << 2));
    reg & !(3 << 2)
  }

  lemma BothCleared(w: bv32)
    ensures (w & !8) & !4 == w & !(3 << 2)
  {
  }

  lemma Bit3Cleared(w: bv32)
    ensures Bits(w & !8) == Bits(w) - {3}
  {
    LowMasks();
    ClearsBit(w, 3, 8, w & !8);
  }

  lemma Bit2Cleared(w: bv32)
    ensures Bits(w & !4) == Bits(w) - {2}
  {
    LowMasks();
    ClearsBit(w, 2, 4, w & !4);
  }

  lemma TwoBitsCleared(w: bv32, v: bv32, r: bv32)
    requires v == w & !8 && r == v & !4
    ensures Bits(r) == Bits(w) - {3, 2}
  {
    Bit3Cleared(w);
    Bit2Cleared(v);
  }

  function TimerSize32Bit(reg: bv32): (r: bv32)
    ensures Bits(r) == Bits(reg) + {1}
  {
    LowMasks();
    SetsBit(reg, 1, 1 << 1, reg | (1 << 1));
    reg | (1 << 1)
  }

  function TimerOneShot(reg: bv32): (r: bv32)
    ensures Bits(r) == Bits(reg) + {0}
  {
    LowMasks();
    SetsBit(reg, 0, 1 << 0, reg | (1 << 0));
    reg | (1 << 0)
  }

  function TimerWrapping(reg: bv32): (r: bv32)
    ensures Bits(r) == Bits(reg) - {0}
  {
    LowMasks();
    ClearsBit(reg, 0, 1 << 0, reg & !(1 << 0));
    reg & !(1 << 0)
  }
}
