/** Sequences of 32-bit words read as one long row of bits, and what the word operations of
    the sliding bitmap do to that row. */
module BitWindows {
  import opened WordBits

  function Width(ws: seq<Word>): nat {
    32 * |ws|
  }

  predicate BitAt(ws: seq<Word>, k: nat)
    requires k < Width(ws)
  {
    Bit(ws[k / 32], k % 32)
  }

  /** The integers that the row denotes when its bit 0 stands for `base`. */
  ghost function Members(base: int, ws: seq<Word>): set<int> {
    set v | base <= v < base + Width(ws) && Holds(base, ws, v)
  }

  predicate Holds(base: int, ws: seq<Word>, v: int) {
    base <= v < base + Width(ws) && BitAt(ws, v - base)
  }

  lemma MembersFromBase(base: int, ws: seq<Word>)
    ensures forall v :: v in Members(base, ws) ==> base <= v < base + Width(ws)
  {
  }

  ghost function Interval(lo: int, hi: int): set<int> {
    set v | lo <= v < hi && Between(lo, v, hi)
  }

  predicate Between(lo: int, v: int, hi: int) {
    lo <= v < hi
  }

  /** `n` is one more than the last set bit, or 0 when no bit is set. */
  ghost predicate Tight(ws: seq<Word>, n: nat) {
    && n <= Width(ws)
    && (forall k: nat :: n <= k < Width(ws) ==> !BitAt(ws, k))
    && (0 < n ==> BitAt(ws, n - 1))
  }

  lemma TightIsUnique(ws: seq<Word>, m: nat, n: nat)
    requires Tight(ws, m) && Tight(ws, n)
    ensures m == n
  {
    hide Bit, Or, And, Not, Shl, Shr, Mask;
  }

  lemma NoBitIsEmpty(ws: seq<Word>, n: nat, upTo: nat)
    requires Tight(ws, n) && n <= upTo && ClearBefore(ws, upTo)
    ensures n == 0
  {
    hide Bit;
  }

  /** In terms of the denoted set: `n` is 0 exactly for the empty set, and otherwise
      `base + n - 1` is its maximum. */
  lemma TightIsMaximum(base: int, ws: seq<Word>, n: nat)
    requires Tight(ws, n)
    ensures n == 0 <==> Members(base, ws) == {}
    ensures 0 < n ==> base + n - 1 in Members(base, ws)
    ensures forall v :: v in Members(base, ws) ==> v <= base + n - 1
  {
    hide Bit, Or, And, Not, Shl, Shr, Mask;
    forall v | v in Members(base, ws) ensures 0 < n && v <= base + n - 1 {
      assert Holds(base, ws, v);
    }
    if 0 < n {
      assert Holds(base, ws, base + n - 1);
      assert base + n - 1 in Members(base, ws);
    } else {
      assert Members(base, ws) == {};
    }
  }

  // ----- one bit set or cleared

  function WithBit(ws: seq<Word>, k: nat): seq<Word>
    requires k < Width(ws)
  {
    ws[k / 32 := Or(ws[k / 32], Mask(k % 32))]
  }

  function WithoutBit(ws: seq<Word>, k: nat): seq<Word>
    requires k < Width(ws)
  {
    ws[k / 32 := And(ws[k / 32], Not(Mask(k % 32)))]
  }

  lemma WithBitAt(ws: seq<Word>, k: nat, i: nat)
    requires k < Width(ws) && i < Width(ws)
    ensures BitAt(WithBit(ws, k), i) <==> i == k || BitAt(ws, i)
  {
    hide Bit, Or, And, Not, Shl, Shr, Mask;
    if i / 32 == k / 32 {
      OrBit(ws[k / 32], Mask(k % 32), i % 32);
      MaskBit(k % 32, i % 32);
    }
  }

  lemma WithoutBitAt(ws: seq<Word>, k: nat, i: nat)
    requires k < Width(ws) && i < Width(ws)
    ensures BitAt(WithoutBit(ws, k), i) <==> i != k && BitAt(ws, i)
  {
    hide Bit, Or, And, Not, Shl, Shr, Mask;
    if i / 32 == k / 32 {
      AndBit(ws[k / 32], Not(Mask(k % 32)), i % 32);
      NotBit(Mask(k % 32), i % 32);
      MaskBit(k % 32, i % 32);
    }
  }

  /** Setting bit k adds exactly `base + k`, and raises the tight bound to at least k + 1. */
  lemma WithBitAdds(base: int, ws: seq<Word>, k: nat, n: nat)
    requires k < Width(ws) && Tight(ws, n)
    ensures Members(base, WithBit(ws, k)) == Members(base, ws) + {base + k}
    ensures Tight(WithBit(ws, k), if n < k + 1 then k + 1 else n)
  {
    hide Bit, Or, And, Not, Shl, Shr, Mask;
    var r := WithBit(ws, k);
    forall i: nat | i < Width(ws) ensures BitAt(r, i) <==> i == k || BitAt(ws, i) {
      WithBitAt(ws, k, i);
    }
    forall v ensures v in Members(base, r) <==> v in Members(base, ws) || v == base + k {
      if base <= v < base + Width(ws) {
        assert BitAt(r, v - base) <==> v - base == k || BitAt(ws, v - base);
      }
    }
  }

  lemma WithoutBitRemoves(base: int, ws: seq<Word>, k: nat)
    requires k < Width(ws)
    ensures Members(base, WithoutBit(ws, k)) == Members(base, ws) - {base + k}
  {
    var r := WithoutBit(ws, k);
    assert |r| == |ws|;
    hide Bit, BitAt, WithoutBit, Or, And, Not, Shl, Shr, Mask;
    forall v ensures v in Members(base, r) <==> v in Members(base, ws) && v != base + k {
      if base <= v < base + Width(ws) {
        WithoutBitAt(ws, k, v - base);
      }
      assert Holds(base, r, v) <==> Holds(base, ws, v) && v != base + k;
    }
  }

  lemma WithoutBitTight(ws: seq<Word>, k: nat, n: nat)
    requires k < n && Tight(ws, n)
    ensures k < n - 1 ==> Tight(WithoutBit(ws, k), n)
    ensures forall i: nat :: n <= i < Width(ws) ==> !BitAt(WithoutBit(ws, k), i)
    ensures k == n - 1 ==> forall i: nat :: k <= i < Width(ws) ==> !BitAt(WithoutBit(ws, k), i)
  {
    hide Bit, Or, And, Not, Shl, Shr, Mask;
    var r := WithoutBit(ws, k);
    forall i: nat | i < Width(ws) ensures BitAt(r, i) <==> i != k && BitAt(ws, i) {
      WithoutBitAt(ws, k, i);
    }
  }

  /** Clearing a bit of an empty row changes nothing. */
  lemma WithoutNoBit(ws: seq<Word>, k: nat)
    requires k < Width(ws) && Tight(ws, 0)
    ensures WithoutBit(ws, k) == ws
  {
    var r := WithoutBit(ws, k);
    assert |r| == |ws| && !BitAt(ws, k);
    hide Bit, BitAt, WithoutBit, Or, And, Not, Shl, Shr, Mask;
    forall i: nat | i < Width(ws) ensures BitAt(r, i) <==> BitAt(ws, i) {
      WithoutBitAt(ws, k, i);
    }
    RowsEqual(r, ws);
  }

  // ----- the whole row shifted towards bit 0

  /** Word i of the row moved `q` words and `s` bits towards bit 0, with the carry from the
      word after. */
  function ShiftedWord(ws: seq<Word>, q: nat, s: nat, i: nat): Word
    requires i < |ws| && s < 32
  {
    var from := i + q;
    if from >= |ws| then 0
    else if s == 0 then ws[from]
    else if from == |ws| - 1 then Shl(ws[from], s)
    else Or(Shl(ws[from], s), Shr(ws[from + 1], 32 - s))
  }

  function ShiftedRow(ws: seq<Word>, q: nat, s: nat): seq<Word>
    requires s < 32
  {
    seq(|ws|, i requires 0 <= i < |ws| => ShiftedWord(ws, q, s, i))
  }

  lemma ShiftedRowAt(ws: seq<Word>, q: nat, s: nat, k: nat)
    requires k < Width(ws) && s < 32
    ensures var to := k + 32 * q + s;
      BitAt(ShiftedRow(ws, q, s), k) <==> to < Width(ws) && BitAt(ws, to)
  {
    hide Bit, Or, And, Not, Shl, Shr, Mask;
    var i, j := k / 32, k % 32;
    var from := i + q;
    assert ShiftedRow(ws, q, s)[i] == ShiftedWord(ws, q, s, i);
    if from >= |ws| {
      ZeroBit(j);
    } else if s != 0 {
      ShlBit(ws[from], s, j);
      if from < |ws| - 1 {
        ShrBit(ws[from + 1], 32 - s, j);
        OrBit(Shl(ws[from], s), Shr(ws[from + 1], 32 - s), j);
      }
    }
    var to := k + 32 * q + s;
    if j + s < 32 {
      assert to / 32 == from && to % 32 == j + s;
    } else {
      assert to / 32 == from + 1 && to % 32 == j + s - 32;
    }
  }

  /** Every bit n places nearer to bit 0. */
  ghost predicate Moved(ws: seq<Word>, r: seq<Word>, n: nat) {
    && |r| == |ws|
    && forall k: nat :: k < Width(ws) ==> (BitAt(r, k) <==> k + n < Width(ws) && BitAt(ws, k + n))
  }

  lemma ShiftedRowMoves(ws: seq<Word>, q: nat, s: nat)
    requires s < 32
    ensures Moved(ws, ShiftedRow(ws, q, s), 32 * q + s)
  {
    hide Bit, BitAt, ShiftedWord;
    forall k: nat | k < Width(ws)
      ensures var to := k + (32 * q + s);
        BitAt(ShiftedRow(ws, q, s), k) <==> to < Width(ws) && BitAt(ws, to)
    {
      ShiftedRowAt(ws, q, s, k);
    }
  }

  /** The integers of `items` from `b0 + n` on, moved along so that `b0 + n` becomes `b1`. */
  ghost function Relocated(items: set<int>, b0: int, b1: int, n: nat): set<int> {
    set v | v in items && b0 + n <= v :: v + (b1 - b0 - n)
  }

  lemma MovedMembers(b0: int, b1: int, ws: seq<Word>, r: seq<Word>, n: nat, bits: nat)
    requires Tight(ws, bits) && Moved(ws, r, n)
    ensures Members(b1, r) == Relocated(Members(b0, ws), b0, b1, n)
    ensures Tight(r, if n < bits then bits - n else 0)
  {
    hide Bit, Or, And, Not, Shl, Shr, Mask;
    forall v ensures v in Members(b1, r) <==> v in Relocated(Members(b0, ws), b0, b1, n) {
      var u := v - (b1 - b0 - n);
      assert v in Members(b1, r) <==> Holds(b1, r, v);
      assert u in Members(b0, ws) <==> Holds(b0, ws, u);
      assert v in Relocated(Members(b0, ws), b0, b1, n) <==> u in Members(b0, ws) && b0 + n <= u;
    }
  }

  /** With the true distance, relocation is: keep what is at or above the new base. */
  lemma RelocatedByDistance(items: set<int>, b0: int, b1: int)
    requires b0 <= b1
    ensures Relocated(items, b0, b1, b1 - b0) == set v | v in items && b1 <= v
  {
  }

  // ----- rows without any bit

  predicate AllZero(ws: seq<Word>) {
    forall i :: 0 <= i < |ws| ==> ws[i] == 0
  }

  lemma ZeroRow(ws: seq<Word>, base: int)
    requires AllZero(ws)
    ensures Tight(ws, 0)
    ensures Members(base, ws) == {}
  {
    hide Bit, Or, And, Not, Shl, Shr, Mask;
    forall k: nat | k < Width(ws) ensures !BitAt(ws, k) {
      ZeroBit(k % 32);
    }
  }

  lemma ZeroRowMoves(ws: seq<Word>, r: seq<Word>, n: nat, bits: nat)
    requires AllZero(r) && |r| == |ws| && Tight(ws, bits) && bits <= n
    ensures Moved(ws, r, n)
  {
    hide Bit, Or, And, Not, Shl, Shr, Mask;
    ZeroRow(r, 0);
  }

  // ----- a word whose bits [lo, hi) are set

  /** The mask that `addRange` writes: bits from `lo` on, cut after `len` of them. */
  function RangeMask(lo: nat, len: nat): Word
    requires lo < 32 && lo + len <= 32
  {
    if lo + len == 32 then Shr(FULL_MASK, lo) else And(Shr(FULL_MASK, lo), Shl(FULL_MASK, 32 - lo - len))
  }

  lemma RangeMaskBit(lo: nat, len: nat, j: nat)
    requires lo < 32 && lo + len <= 32 && 0 < len && j < 32
    ensures Bit(RangeMask(lo, len), j) <==> lo <= j < lo + len
  {
    hide Bit, Or, And, Not, Shl, Shr, Mask;
    ShrBit(FULL_MASK, lo, j);
    if lo <= j {
      FullBit(j - lo);
    }
    if lo + len < 32 {
      var cut := 32 - lo - len;
      ShlBit(FULL_MASK, cut, j);
      if j + cut < 32 {
        FullBit(j + cut);
      }
      AndBit(Shr(FULL_MASK, lo), Shl(FULL_MASK, cut), j);
    }
  }

  /** Bits [lo, lo + len) of word i set, all others kept. */
  function WithRange(ws: seq<Word>, i: nat, lo: nat, len: nat): seq<Word>
    requires i < |ws| && lo < 32 && lo + len <= 32
  {
    ws[i := Or(ws[i], RangeMask(lo, len))]
  }

  lemma WithRangeAt(ws: seq<Word>, i: nat, lo: nat, len: nat, k: nat)
    requires i < |ws| && lo < 32 && lo + len <= 32 && 0 < len && k < Width(ws)
    ensures BitAt(WithRange(ws, i, lo, len), k) <==> 32 * i + lo <= k < 32 * i + lo + len || BitAt(ws, k)
  {
    hide Bit, Or, And, Not, Shl, Shr, Mask;
    if k / 32 == i {
      OrBit(ws[i], RangeMask(lo, len), k % 32);
      RangeMaskBit(lo, len, k % 32);
    }
  }

  /** Two rows that differ in an interval only: r has it filled, ws has what it had. */
  ghost predicate Filled(ws: seq<Word>, r: seq<Word>, lo: nat, hi: nat) {
    && |r| == |ws|
    && forall k: nat :: k < Width(ws) ==> (BitAt(r, k) <==> lo <= k < hi || BitAt(ws, k))
  }

  lemma FilledNothing(ws: seq<Word>, at: nat)
    ensures Filled(ws, ws, at, at)
  {
    hide Bit;
  }

  lemma FilledExtends(ws: seq<Word>, r: seq<Word>, lo: nat, i: nat, at: nat, len: nat)
    requires Filled(ws, r, lo, 32 * i + at)
    requires lo <= 32 * i + at && i < |ws| && at < 32 && at + len <= 32 && 0 < len
    ensures Filled(ws, WithRange(r, i, at, len), lo, 32 * i + at + len)
  {
    hide Bit, Or, And, Not, Shl, Shr, Mask;
    forall k: nat | k < Width(ws)
      ensures BitAt(WithRange(r, i, at, len), k) <==> lo <= k < 32 * i + at + len || BitAt(ws, k)
    {
      WithRangeAt(r, i, at, len, k);
    }
  }

  /** Filling an interval adds exactly its integers: the same set as adding them one by one. */
  lemma FilledAdds(base: int, ws: seq<Word>, r: seq<Word>, lo: nat, hi: nat, n: nat)
    requires Filled(ws, r, lo, hi) && lo < hi <= Width(ws) && Tight(ws, n)
    ensures Members(base, r) == Members(base, ws) + Interval(base + lo, base + hi)
    ensures Tight(r, if n < hi then hi else n)
  {
    hide Bit, Or, And, Not, Shl, Shr, Mask;
    forall v ensures v in Members(base, r) <==> v in Members(base, ws) || base + lo <= v < base + hi {
      if base <= v < base + Width(ws) {
        assert BitAt(r, v - base) <==> lo <= v - base < hi || BitAt(ws, v - base);
      }
    }
  }

  /** The row after setting the bits [lo, hi) one at a time. */
  ghost function WithEach(ws: seq<Word>, lo: nat, hi: nat): (r: seq<Word>)
    requires lo <= hi <= Width(ws)
    ensures |r| == |ws|
    decreases hi
  {
    if lo == hi then ws else WithBit(WithEach(ws, lo, hi - 1), hi - 1)
  }

  lemma {:induction false} WithEachFills(ws: seq<Word>, lo: nat, hi: nat)
    requires lo <= hi <= Width(ws)
    ensures Filled(ws, WithEach(ws, lo, hi), lo, hi)
    decreases hi
  {
    hide Bit, WithBit;
    if lo < hi {
      WithEachFills(ws, lo, hi - 1);
      var r := WithEach(ws, lo, hi - 1);
      FilledByOne(ws, r, lo, hi - 1);
    }
  }

  lemma FilledByOne(ws: seq<Word>, r: seq<Word>, lo: nat, at: nat)
    requires lo <= at < Width(ws) && Filled(ws, r, lo, at)
    ensures Filled(ws, WithBit(r, at), lo, at + 1)
  {
    hide Bit, Or, And, Not, Shl, Shr, Mask;
    forall k: nat | k < Width(ws) ensures BitAt(WithBit(r, at), k) <==> lo <= k < at + 1 || BitAt(ws, k) {
      WithBitAt(r, at, k);
    }
  }

  /** Filling by masks gives, word for word, the row of the single additions. */
  lemma FilledIsEach(ws: seq<Word>, r: seq<Word>, lo: nat, hi: nat)
    requires lo <= hi <= Width(ws) && Filled(ws, r, lo, hi)
    ensures r == WithEach(ws, lo, hi)
  {
    hide Bit, WithEach;
    WithEachFills(ws, lo, hi);
    RowsEqual(r, WithEach(ws, lo, hi));
  }

  // ----- the bits before a cut

  /** `~(full >> s)` keeps the first s bits of a word. */
  lemma HeadMaskBit(w: Word, s: nat, j: nat)
    requires s < 32 && j < 32
    ensures Bit(And(w, Not(Shr(FULL_MASK, s))), j) <==> j < s && Bit(w, j)
  {
    hide Bit, Or, And, Not, Shl, Shr, Mask;
    AndBit(w, Not(Shr(FULL_MASK, s)), j);
    NotBit(Shr(FULL_MASK, s), j);
    ShrBit(FULL_MASK, s, j);
    if s <= j {
      FullBit(j - s);
    }
  }

  lemma RowsEqual(a: seq<Word>, b: seq<Word>)
    requires |a| == |b|
    requires forall k: nat :: k < Width(a) ==> (BitAt(a, k) <==> BitAt(b, k))
    ensures a == b
  {
    hide Bit, Or, And, Not, Shl, Shr, Mask;
    forall i | 0 <= i < |a| ensures a[i] == b[i] {
      forall j: nat | j < 32 ensures Bit(a[i], j) <==> Bit(b[i], j) {
        assert (32 * i + j) / 32 == i && (32 * i + j) % 32 == j;
        assert BitAt(a, 32 * i + j) <==> BitAt(b, 32 * i + j);
      }
      WordsEqual(a[i], b[i]);
    }
  }

  /** Nothing set before k in word i, bit k set: it is the last one of `w & ~(w - 1)`. */
  lemma LastOfWord(w: Word)
    requires w != 0
    ensures LastBit(w) != 0
    ensures var k := Clz(LastBit(w)); Bit(w, k) && forall i: nat :: k < i < 32 ==> !Bit(w, i)
  {
    hide Bit, LastBit;
    IsolatedIsNonZero(w);
    LastBitIsolated(w, Clz(LastBit(w)));
  }

  lemma IsolatedIsNonZero(w: Word)
    requires w != 0
    ensures LastBit(w) != 0
  {
  }

  // ----- queries

  /** No bit before place `upTo`. */
  ghost predicate ClearBefore(ws: seq<Word>, upTo: nat) {
    forall k: nat :: k < upTo && k < Width(ws) ==> !BitAt(ws, k)
  }

  lemma ClearAtStart(ws: seq<Word>)
    ensures ClearBefore(ws, 0)
  {
  }

  lemma TightFits(ws: seq<Word>, n: nat)
    requires Tight(ws, n)
    ensures (n + 31) / 32 <= |ws|
  {
  }

  lemma ClearWord(ws: seq<Word>, i: nat)
    requires i < |ws| && ws[i] == 0 && ClearBefore(ws, 32 * i)
    ensures ClearBefore(ws, 32 * (i + 1))
  {
    hide Bit;
    forall k: nat | 32 * i <= k < 32 * (i + 1) ensures !BitAt(ws, k) {
      ZeroBit(k % 32);
    }
  }

  lemma FirstOfWord(ws: seq<Word>, i: nat)
    requires i < |ws| && ws[i] != 0 && ClearBefore(ws, 32 * i)
    ensures var first := 32 * i + Clz(ws[i]); BitAt(ws, first) && ClearBefore(ws, first)
  {
    hide Bit;
    var offset := Clz(ws[i]);
    var first := 32 * i + offset;
    assert first / 32 == i && first % 32 == offset;
    forall k: nat | 32 * i <= k < first ensures !BitAt(ws, k) {
      assert k / 32 == i && k % 32 < offset;
    }
  }

  lemma FirstIsMinimum(base: int, ws: seq<Word>, k: nat)
    requires k < Width(ws) && BitAt(ws, k) && ClearBefore(ws, k)
    ensures base + k in Members(base, ws)
    ensures forall v :: v in Members(base, ws) ==> base + k <= v
  {
    hide Bit;
    assert Holds(base, ws, base + k);
    forall v | v in Members(base, ws) ensures base + k <= v {
      assert Holds(base, ws, v);
    }
  }

  /** The last used word of a tight row is not zero, and the words after it are. */
  lemma UsedWords(ws: seq<Word>, n: nat)
    requires Tight(ws, n)
    ensures var used := (n + 31) / 32;
      used <= |ws| && AllZero(ws[used..]) && (0 < used ==> ws[used - 1] != 0)
  {
    hide Selects;
    var used := (n + 31) / 32;
    forall i | used <= i < |ws| ensures ws[i] == 0 {
      forall j: nat | j < 32 ensures !Bit(ws[i], j) {
        assert (32 * i + j) / 32 == i && (32 * i + j) % 32 == j;
        assert !BitAt(ws, 32 * i + j);
      }
      NoBitIsZero(ws[i]);
    }
    if 0 < n {
      assert (n - 1) / 32 == used - 1;
      ZeroBit((n - 1) % 32);
    }
  }

  /** `seen` lists, in increasing order, exactly the members below `base + upTo`. */
  ghost predicate VisitedUpTo(base: int, ws: seq<Word>, seen: seq<int>, upTo: nat) {
    && (forall i, j :: 0 <= i < j < |seen| ==> seen[i] < seen[j])
    && (forall i :: 0 <= i < |seen| ==> seen[i] in Members(base, ws) && seen[i] < base + upTo)
    && (forall v :: v in Members(base, ws) && v < base + upTo ==> v in seen)
  }

  lemma VisitNext(base: int, ws: seq<Word>, seen: seq<int>, i: nat, next: nat, offset: nat)
    requires i < |ws| && next <= offset < 32 && Bit(ws[i], offset)
    requires forall j: nat :: next <= j < offset ==> !Bit(ws[i], j)
    requires VisitedUpTo(base, ws, seen, 32 * i + next)
    ensures VisitedUpTo(base, ws, seen + [base + 32 * i + offset], 32 * i + offset + 1)
  {
    hide Bit;
    var x := base + 32 * i + offset;
    assert Holds(base, ws, x);
    forall k: nat | 32 * i + next <= k < 32 * i + offset ensures !BitAt(ws, k) {
      assert k / 32 == i && next <= k % 32 < offset;
    }
    assert forall v :: v in Members(base, ws) && v < x + 1 ==> v < base + 32 * i + next || v == x;
  }

  lemma VisitRest(base: int, ws: seq<Word>, seen: seq<int>, i: nat, next: nat)
    requires i < |ws| && next <= 32
    requires forall j: nat :: next <= j < 32 ==> !Bit(ws[i], j)
    requires VisitedUpTo(base, ws, seen, 32 * i + next)
    ensures VisitedUpTo(base, ws, seen, 32 * i + 32)
  {
    hide Bit;
    forall k: nat | 32 * i + next <= k < 32 * i + 32 ensures !BitAt(ws, k) {
      assert k / 32 == i && next <= k % 32;
    }
    assert forall v :: v in Members(base, ws) && v < base + 32 * i + 32 ==> v < base + 32 * i + next;
  }

  lemma VisitedAll(base: int, ws: seq<Word>, seen: seq<int>, upTo: nat, n: nat)
    requires VisitedUpTo(base, ws, seen, upTo) && Tight(ws, n) && n <= upTo
    ensures forall v :: v in Members(base, ws) <==> v in seen
  {
    hide Bit;
    TightIsMaximum(base, ws, n);
  }
}
