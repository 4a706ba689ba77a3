/** 32-bit words read most significant bit first: bit 0 of a word is its top bit, as in the
    packed bitmaps of the RTPS wire format.  The lemmas turn the shifts and masks of the
    bitmap code into statements about single bits. */
module WordBits {

  type Word = bv32

  const FULL_MASK: Word := 0xFFFF_FFFF

  function ShlOnce(w: Word): Word {
    w << 1
  }

  function ShrOnce(w: Word): Word {
    w >> 1
  }

  function And(a: Word, b: Word): Word {
    a & b
  }

  function Or(a: Word, b: Word): Word {
    a | b
  }

  function Not(a: Word): Word {
    !a
  }

  /** `1 << (31 - j)`, see `MaskIsShift`. */
  function Mask(j: nat): Word
    requires j < 32
    decreases 31 - j
  {
    if j == 31 then 1 else ShlOnce(Mask(j + 1))
  }

  /** `w << n`, one place at a time, see `ShlIsShift`. */
  function Shl(w: Word, n: nat): Word {
    if n == 0 then w else ShlOnce(Shl(w, n - 1))
  }

  /** `w >> n`, one place at a time, see `ShrIsShift`. */
  function Shr(w: Word, n: nat): Word {
    if n == 0 then w else ShrOnce(Shr(w, n - 1))
  }

  predicate Selects(m: Word, w: Word) {
    w & m != 0
  }

  predicate Bit(w: Word, j: nat)
    requires j < 32
  {
    Selects(Mask(j), w)
  }

  /** The number of leading zeros of a non-zero word. */
  function Clz(w: Word): (k: nat)
    requires w != 0
    ensures k < 32 && Bit(w, k)
    ensures forall j: nat :: j < k ==> !Bit(w, j)
  {
    NonZeroHasBit(w);
    FirstBit(w, 0)
  }

  function FirstBit(w: Word, from: nat): (k: nat)
    requires from < 32
    requires exists j: nat :: from <= j < 32 && Bit(w, j)
    ensures from <= k < 32 && Bit(w, k)
    ensures forall j: nat :: from <= j < k ==> !Bit(w, j)
    decreases 32 - from
  {
    if Bit(w, from) then from else FirstBit(w, from + 1)
  }

  // ----- masks and shifts against the built-in operators

  predicate Under32(j: nat) {
    || j == 0 || j == 1 || j == 2 || j == 3 || j == 4 || j == 5 || j == 6 || j == 7
    || j == 8 || j == 9 || j == 10 || j == 11 || j == 12 || j == 13 || j == 14 || j == 15
    || j == 16 || j == 17 || j == 18 || j == 19 || j == 20 || j == 21 || j == 22 || j == 23
    || j == 24 || j == 25 || j == 26 || j == 27 || j == 28 || j == 29 || j == 30 || j == 31
  }

  function BuiltInShl(w: Word, n: nat): Word
    requires n < 32
  {
    w << n
  }

  function BuiltInShr(w: Word, n: nat): Word
    requires n < 32
  {
    w >> n
  }

  lemma ShlStep(w: Word, n: nat)
    requires 0 < n < 32
    ensures w << n == (w << (n - 1)) << 1
  {
    assert Under32(n);
  }

  lemma ShrStep(w: Word, n: nat)
    requires 0 < n < 32
    ensures w >> n == (w >> (n - 1)) >> 1
  {
    assert Under32(n);
  }

  lemma BuiltInStep(w: Word, n: nat)
    requires n < 32
    ensures n == 0 ==> BuiltInShl(w, n) == w && BuiltInShr(w, n) == w
    ensures 0 < n ==> BuiltInShl(w, n) == ShlOnce(BuiltInShl(w, n - 1))
    ensures 0 < n ==> BuiltInShr(w, n) == ShrOnce(BuiltInShr(w, n - 1))
  {
    if 0 < n {
      ShlStep(w, n);
      ShrStep(w, n);
    }
  }

  lemma {:induction false} ShlIsShift(w: Word, n: nat)
    requires n < 32
    ensures Shl(w, n) == BuiltInShl(w, n)
  {
    hide BuiltInShl, BuiltInShr, ShlOnce, ShrOnce;
    BuiltInStep(w, n);
    if 0 < n {
      ShlIsShift(w, n - 1);
    }
  }

  lemma {:induction false} ShrIsShift(w: Word, n: nat)
    requires n < 32
    ensures Shr(w, n) == BuiltInShr(w, n)
  {
    hide BuiltInShl, BuiltInShr, ShlOnce, ShrOnce;
    BuiltInStep(w, n);
    if 0 < n {
      ShrIsShift(w, n - 1);
    }
  }

  lemma {:induction false} MaskIsShift(j: nat)
    requires j < 32
    ensures Mask(j) == BuiltInShl(1, 31 - j)
    decreases 31 - j
  {
    hide BuiltInShl, BuiltInShr, ShlOnce, ShrOnce;
    BuiltInStep(1, 31 - j);
    if j < 31 {
      MaskIsShift(j + 1);
    }
  }

  // ----- one-bit words

  /** A single bit, and not the top one unless `top`. */
  predicate OneHot(m: Word, top: bool) {
    m != 0 && m & (m - 1) == 0 && (top || m & 0x8000_0000 == 0)
  }

  lemma {:induction false} MaskIsOneHot(j: nat)
    requires j < 32
    ensures OneHot(Mask(j), j == 0)
    decreases 31 - j
  {
    hide BuiltInShl, OneHot;
    MaskIsShift(j);
    ShiftIsOneHot(j);
  }

  lemma ShiftIsOneHot(j: nat)
    requires j < 32
    ensures OneHot(BuiltInShl(1, 31 - j), j == 0)
  {
    assert Under32(j);
  }

  /** `low` is a bit strictly after `high`. */
  predicate After(low: Word, high: Word) {
    low & (high - 1) == low && high & low == 0
  }

  lemma {:induction false} MaskOrder(i: nat, j: nat)
    requires i < j < 32
    ensures After(Mask(j), Mask(i))
    decreases j - i
  {
    MaskIsOneHot(i + 1);
    if i + 1 < j {
      MaskOrder(i + 1, j);
      AfterTransitive(Mask(i + 1), Mask(j));
    } else {
      AfterNext(Mask(j));
    }
  }

  lemma AfterNext(m: Word)
    requires OneHot(m, false)
    ensures After(m, ShlOnce(m))
  {
  }

  lemma AfterTransitive(mid: Word, low: Word)
    requires OneHot(mid, false) && After(low, mid)
    ensures After(low, ShlOnce(mid))
  {
  }

  lemma AfterSelects(high: Word, low: Word)
    requires After(low, high)
    ensures !Selects(high, low) && !Selects(low, high)
  {
  }

  lemma SelfSelects(m: Word, top: bool)
    requires OneHot(m, top)
    ensures Selects(m, m)
  {
  }

  lemma MaskBit(i: nat, j: nat)
    requires i < 32 && j < 32
    ensures Bit(Mask(i), j) <==> i == j
  {
    if i < j {
      MaskOrder(i, j);
      AfterSelects(Mask(i), Mask(j));
    } else if j < i {
      MaskOrder(j, i);
      AfterSelects(Mask(j), Mask(i));
    } else {
      MaskIsOneHot(i);
      SelfSelects(Mask(i), i == 0);
    }
  }

  predicate All(m: Word, w: Word) {
    w & m == m
  }

  /** A mask that selects something of a word lies wholly inside it. */
  lemma {:induction false} MaskInside(w: Word, j: nat)
    requires j < 32 && Bit(w, j)
    ensures All(Mask(j), w)
    decreases 31 - j
  {
    hide Selects, All, OneHot, ShlOnce, ShrOnce;
    if j < 31 {
      MaskIsOneHot(j + 1);
      ShiftInside(w, Mask(j + 1));
      MaskInside(ShrOnce(w), j + 1);
      InsideShifted(w, Mask(j + 1));
    } else {
      InsideLow(w);
    }
  }

  lemma InsideLow(w: Word)
    requires Selects(1, w)
    ensures All(1, w)
  {
  }

  lemma ShiftInside(w: Word, m: Word)
    requires OneHot(m, false)
    ensures Selects(ShlOnce(m), w) <==> Selects(m, ShrOnce(w))
  {
  }

  lemma InsideShifted(w: Word, m: Word)
    requires OneHot(m, false) && All(m, ShrOnce(w))
    ensures All(ShlOnce(m), w)
  {
  }

  // ----- bitwise operators, bit by bit

  lemma SelectsOr(m: Word, a: Word, b: Word)
    ensures Selects(m, Or(a, b)) <==> Selects(m, a) || Selects(m, b)
  {
    assert (a | b) & m == (a & m) | (b & m);
  }

  lemma AndOff(m: Word, a: Word, b: Word)
    requires !Selects(m, a)
    ensures !Selects(m, And(a, b)) && !Selects(m, And(b, a))
  {
  }

  lemma AndOn(m: Word, a: Word, b: Word)
    requires m != 0 && All(m, a) && All(m, b)
    ensures Selects(m, And(a, b))
  {
  }

  lemma NotOn(m: Word, a: Word)
    requires All(m, a)
    ensures !Selects(m, Not(a))
  {
  }

  lemma NotOff(m: Word, a: Word)
    requires m != 0 && !Selects(m, a)
    ensures Selects(m, Not(a))
  {
    assert !a & m == m;
  }

  lemma OrBit(a: Word, b: Word, j: nat)
    requires j < 32
    ensures Bit(Or(a, b), j) <==> Bit(a, j) || Bit(b, j)
  {
    hide Selects, Or;
    SelectsOr(Mask(j), a, b);
  }

  lemma AndBit(a: Word, b: Word, j: nat)
    requires j < 32
    ensures Bit(And(a, b), j) <==> Bit(a, j) && Bit(b, j)
  {
    hide Selects, All, And, Not;
    if !Bit(a, j) {
      AndOff(Mask(j), a, b);
    } else if !Bit(b, j) {
      AndOff(Mask(j), b, a);
    } else {
      MaskIsOneHot(j);
      MaskInside(a, j);
      MaskInside(b, j);
      AndOn(Mask(j), a, b);
    }
  }

  lemma NotBit(a: Word, j: nat)
    requires j < 32
    ensures Bit(Not(a), j) <==> !Bit(a, j)
  {
    hide Selects, All, And, Not;
    MaskIsOneHot(j);
    if Bit(a, j) {
      MaskInside(a, j);
      NotOn(Mask(j), a);
    } else {
      NotOff(Mask(j), a);
    }
  }

  lemma ZeroBit(j: nat)
    requires j < 32
    ensures !Bit(0, j)
  {
  }

  lemma FullBit(j: nat)
    requires j < 32
    ensures Bit(FULL_MASK, j)
  {
    MaskIsOneHot(j);
    SelectsFull(Mask(j));
  }

  lemma SelectsFull(m: Word)
    requires m != 0
    ensures Selects(m, FULL_MASK)
  {
  }

  // ----- shifts, bit by bit

  lemma SelectsShl(m: Word, w: Word)
    requires OneHot(m, false)
    ensures Selects(ShlOnce(m), ShlOnce(w)) <==> Selects(m, w)
  {
  }

  lemma SelectsShlLow(w: Word)
    ensures !Selects(1, ShlOnce(w))
  {
  }

  lemma SelectsShrTop(w: Word)
    ensures !Selects(0x8000_0000, ShrOnce(w))
  {
  }

  lemma ShlOne(w: Word, j: nat)
    requires j < 32
    ensures Bit(ShlOnce(w), j) <==> j < 31 && Bit(w, j + 1)
  {
    if j < 31 {
      MaskIsOneHot(j + 1);
      SelectsShl(Mask(j + 1), w);
    } else {
      SelectsShlLow(w);
    }
  }

  lemma ShrOne(w: Word, j: nat)
    requires j < 32
    ensures Bit(ShrOnce(w), j) <==> 0 < j && Bit(w, j - 1)
  {
    if 0 < j {
      MaskIsOneHot(j);
      ShiftInside(w, Mask(j));
    } else {
      MaskIsShift(0);
      SelectsShrTop(w);
    }
  }

  /** A left shift by n moves bit j + n to place j. */
  lemma {:induction false} ShlBit(w: Word, n: nat, j: nat)
    requires n < 32 && j < 32
    ensures Bit(Shl(w, n), j) <==> j + n < 32 && Bit(w, j + n)
  {
    if 0 < n {
      ShlOne(Shl(w, n - 1), j);
      if j < 31 {
        ShlBit(w, n - 1, j + 1);
      }
    }
  }

  /** A right shift by n moves bit j - n to place j. */
  lemma {:induction false} ShrBit(w: Word, n: nat, j: nat)
    requires n < 32 && j < 32
    ensures Bit(Shr(w, n), j) <==> n <= j && Bit(w, j - n)
  {
    if 0 < n {
      ShrOne(Shr(w, n - 1), j);
      if 0 < j {
        ShrBit(w, n - 1, j - 1);
      }
    }
  }

  // ----- words as sets of bits

  /** Some bit of w at the place of the one-bit word m or after it. */
  predicate Reaches(m: Word, w: Word) {
    w & (m | (m - 1)) != 0
  }

  lemma {:induction false} ReachesHasBit(w: Word, from: nat)
    requires from < 32 && Reaches(Mask(from), w)
    ensures exists j: nat :: from <= j < 32 && Bit(w, j)
    decreases 32 - from
  {
    if !Bit(w, from) {
      if from < 31 {
        MaskIsOneHot(from + 1);
        ReachesOn(Mask(from + 1), w);
        ReachesHasBit(w, from + 1);
      } else {
        ReachesLow(w);
      }
    }
  }

  lemma ReachesOn(m: Word, w: Word)
    requires OneHot(m, false) && Reaches(ShlOnce(m), w) && !Selects(ShlOnce(m), w)
    ensures Reaches(m, w)
  {
  }

  lemma ReachesLow(w: Word)
    requires Reaches(1, w)
    ensures Selects(1, w)
  {
  }

  lemma ReachesTop(w: Word)
    requires w != 0
    ensures Reaches(0x8000_0000, w)
  {
  }

  lemma NonZeroHasBit(w: Word)
    requires w != 0
    ensures exists j: nat :: j < 32 && Bit(w, j)
  {
    MaskIsShift(0);
    ReachesTop(w);
    ReachesHasBit(w, 0);
  }

  lemma NoBitIsZero(w: Word)
    requires forall j: nat :: j < 32 ==> !Bit(w, j)
    ensures w == 0
  {
    hide Selects;
    if w != 0 {
      NonZeroHasBit(w);
    }
  }

  lemma WordsEqual(a: Word, b: Word)
    requires forall j: nat :: j < 32 ==> (Bit(a, j) <==> Bit(b, j))
    ensures a == b
  {
    hide Selects, And, Not;
    NotContained(a, b);
    NotContained(b, a);
    Antisymmetry(a, b);
  }

  lemma NotContained(a: Word, b: Word)
    ensures And(a, Not(b)) == 0 || exists j: nat :: j < 32 && Bit(a, j) && !Bit(b, j)
  {
    hide Selects, And, Not;
    if And(a, Not(b)) != 0 {
      NonZeroHasBit(And(a, Not(b)));
      var j: nat :| j < 32 && Bit(And(a, Not(b)), j);
      AndBit(a, Not(b), j);
      NotBit(b, j);
    }
  }

  lemma Antisymmetry(a: Word, b: Word)
    requires And(a, Not(b)) == 0 && And(b, Not(a)) == 0
    ensures a == b
  {
  }

  /** The bits strictly after the one-bit word m are all clear in w. */
  predicate ClearAfter(m: Word, w: Word) {
    w & (m - 1) == 0
  }

  lemma ClearAfterBits(w: Word, j: nat)
    requires j < 32
    ensures ClearAfter(Mask(j), w) <==> forall i: nat :: j < i < 32 ==> !Bit(w, i)
  {
    hide ClearAfter, Selects, OneHot, After, Reaches;
    if ClearAfter(Mask(j), w) {
      forall i: nat | j < i < 32 ensures !Bit(w, i) {
        MaskOrder(j, i);
        ClearAfterSelects(Mask(j), Mask(i), w);
      }
    } else if j < 31 {
      MaskIsOneHot(j + 1);
      NotClearReaches(Mask(j + 1), w);
      ReachesHasBit(w, j + 1);
    } else {
      ClearAfterLow(w);
    }
  }

  lemma ClearAfterSelects(high: Word, low: Word, w: Word)
    requires After(low, high) && ClearAfter(high, w)
    ensures !Selects(low, w)
  {
  }

  lemma NotClearReaches(m: Word, w: Word)
    requires OneHot(m, false) && !ClearAfter(ShlOnce(m), w)
    ensures Reaches(m, w)
  {
  }

  lemma ClearAfterLow(w: Word)
    ensures ClearAfter(1, w)
  {
  }

  /** `w & ~(w - 1)` */
  function LastBit(w: Word): Word {
    w & !(w - 1)
  }

  /** Only the last bit that is set is kept. */
  lemma LastBitIsolated(w: Word, j: nat)
    requires j < 32
    ensures Bit(LastBit(w), j) <==> Bit(w, j) && forall i: nat :: j < i < 32 ==> !Bit(w, i)
  {
    MaskIsOneHot(j);
    Isolate(Mask(j), j == 0, w);
    ClearAfterBits(w, j);
  }

  lemma Isolate(m: Word, top: bool, w: Word)
    requires OneHot(m, top)
    ensures Selects(m, LastBit(w)) <==> Selects(m, w) && ClearAfter(m, w)
  {
    if w & (m - 1) == 0 {
      IsolateClear(m, top, w);
    } else {
      IsolateTaken(m, top, w);
    }
  }

  lemma IsolateClear(m: Word, top: bool, w: Word)
    requires OneHot(m, top) && w & (m - 1) == 0
    ensures (w & !(w - 1)) & m == w & m
  {
  }

  lemma IsolateTaken(m: Word, top: bool, w: Word)
    requires OneHot(m, top) && w & (m - 1) != 0
    ensures (w & !(w - 1)) & m == 0
  {
  }
}
