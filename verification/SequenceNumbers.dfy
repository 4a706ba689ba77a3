/** The (high, low) sequence number of RTPS, read as one signed 64-bit integer. */
module SequenceNumbers {
  import opened MachineInts
  import opened SlidingIndex

  const MAX_HIGH: Int32 := 0x7FFF_FFFF

  datatype SequenceNumber = SequenceNumber(high: Int32, low: UInt32)

  function Value(sn: SequenceNumber): int {
    sn.high * TWO32 + sn.low
  }

  // ----- 64-bit conversions

  function ToInt32(x: UInt32): Int32 {
    if x < 0x8000_0000 then x else x - TWO32
  }

  function FromUInt64(u: UInt64): SequenceNumber {
    SequenceNumber(ToInt32(u / TWO32), u % TWO32)
  }

  /** The declared return type is 32 bits wide, which would drop `high`; 64 bits are meant. */
  function To64Long(sn: SequenceNumber): UInt64 {
    sn.high % TWO32 * TWO32 + sn.low
  }

  lemma ConversionsAreInverse(sn: SequenceNumber, u: UInt64)
    ensures FromUInt64(To64Long(sn)) == sn
    ensures To64Long(FromUInt64(u)) == u
    ensures To64Long(sn) == Value(sn) % TWO64
    ensures 0 <= sn.high ==> To64Long(sn) == Value(sn)
  {
    assert sn.high % TWO32 == if sn.high < 0 then sn.high + TWO32 else sn.high;
    var h := ToInt32(u / TWO32);
    assert h % TWO32 == u / TWO32;
  }

  // ----- ordering

  predicate Greater(a: SequenceNumber, b: SequenceNumber) {
    if a.high == b.high then a.low > b.low else a.high > b.high
  }

  predicate Less(a: SequenceNumber, b: SequenceNumber) {
    if a.high == b.high then a.low < b.low else a.high < b.high
  }

  predicate AtLeast(a: SequenceNumber, b: SequenceNumber) {
    if a.high == b.high then a.low >= b.low else a.high >= b.high
  }

  predicate AtMost(a: SequenceNumber, b: SequenceNumber) {
    if a.high == b.high then a.low <= b.low else a.high <= b.high
  }

  lemma OrderIsIntegerOrder(a: SequenceNumber, b: SequenceNumber)
    ensures Greater(a, b) <==> Value(a) > Value(b)
    ensures Less(a, b) <==> Value(a) < Value(b)
    ensures AtLeast(a, b) <==> Value(a) >= Value(b)
    ensures AtMost(a, b) <==> Value(a) <= Value(b)
    ensures a == b <==> Value(a) == Value(b)
  {
  }

  // ----- carry and borrow

  /** The assertion behind every carry into `high`. */
  predicate CarryFits(sn: SequenceNumber, inc: UInt32) {
    sn.low + inc >= TWO32 ==> sn.high < MAX_HIGH
  }

  /** `sn + inc`.  When the carry assertion fails the code aborts; the value given here for
      that case stands for nothing. */
  function Plus(sn: SequenceNumber, inc: UInt32): (r: SequenceNumber)
    ensures CarryFits(sn, inc) ==> Value(r) == Value(sn) + inc
  {
    var low := (sn.low + inc) % TWO32;
    if low < sn.low && sn.high < MAX_HIGH then SequenceNumber(sn.high + 1, low)
    else SequenceNumber(sn.high, low)
  }

  lemma CarryFitsIffRepresentable(sn: SequenceNumber, inc: UInt32)
    ensures CarryFits(sn, inc) <==> Value(sn) + inc < TWO32 * (MAX_HIGH + 1)
  {
  }

  function Minus(sn: SequenceNumber, inc: UInt32): (r: SequenceNumber)
    requires inc > sn.low ==> 0 < sn.high
    ensures Value(r) == Value(sn) - inc
  {
    var low := (sn.low - inc) % TWO32;
    if inc > sn.low then SequenceNumber(sn.high - 1, low) else SequenceNumber(sn.high, low)
  }

  /** `minuend - subtrahend`, with the lost result line and borrow test restored.  The inner
      assertion `0 < res.high` of the source holds whenever the borrow is taken. */
  function Difference(minuend: SequenceNumber, subtrahend: SequenceNumber): (r: SequenceNumber)
    requires AtLeast(minuend, subtrahend)
    requires minuend.high - subtrahend.high <= MAX_HIGH
    ensures Value(r) == Value(minuend) - Value(subtrahend)
  {
    var high := minuend.high - subtrahend.high;
    var low := (minuend.low - subtrahend.low) % TWO32;
    if minuend.low < subtrahend.low then
      assert 0 < high;
      SequenceNumber(high - 1, low)
    else SequenceNumber(high, low)
  }

  /** The functor the bitmap uses: the low word of the difference.  The source also subtracts the
      high words on the way, which overflows when they are more than MAX_HIGH apart. */
  function DiffLow(a: SequenceNumber, b: SequenceNumber): UInt32 {
    (a.low - b.low) % TWO32
  }

  lemma DiffLowIsExactBelow32Bits(a: SequenceNumber, b: SequenceNumber)
    requires AtLeast(a, b)
    ensures a.high - b.high <= MAX_HIGH ==> DiffLow(a, b) == Difference(a, b).low
    ensures DiffLow(a, b) == (Value(a) - Value(b)) % TWO32
    ensures DiffLow(a, b) == Value(a) - Value(b) <==> Value(a) - Value(b) < TWO32
  {
    var d := a.high - b.high;
    assert Value(a) - Value(b) == d * TWO32 + (a.low - b.low);
    assert (a.low - b.low) % TWO32 == if a.low < b.low then a.low - b.low + TWO32 else a.low - b.low;
    ModOfSum(d, a.low - b.low);
    var v := Value(a) - Value(b);
    assert 0 <= v;
  }

  lemma ModOfSum(d: int, l: int)
    ensures (d * TWO32 + l) % TWO32 == l % TWO32
  {
    var q := l / TWO32;
    assert d * TWO32 + l == (d + q) * TWO32 + l % TWO32;
  }

  function SequenceNumberIndex(): Index<SequenceNumber> {
    Index(Value, Plus, CarryFits, DiffLow, AtLeast, Greater, TWO32 * (MAX_HIGH + 1))
  }

  lemma SequenceNumberIndexIsLawful()
    ensures Lawful(SequenceNumberIndex())
  {
    var ix := SequenceNumberIndex();
    forall a: SequenceNumber, n: UInt32 | ix.val(a) + n < ix.top
      ensures ix.fits(a, n) && ix.val(ix.plus(a, n)) == ix.val(a) + n
    {
      CarryFitsIffRepresentable(a, n);
    }
    forall a: SequenceNumber, b: SequenceNumber
      ensures ix.val(b) <= ix.val(a) ==> ix.diff(a, b) == (ix.val(a) - ix.val(b)) % TWO32
    {
      if ix.val(b) <= ix.val(a) {
        OrderIsIntegerOrder(a, b);
        DiffLowIsExactBelow32Bits(a, b);
      }
    }
    forall a: SequenceNumber, b: SequenceNumber
      ensures ix.atLeast(a, b) <==> ix.val(a) >= ix.val(b)
      ensures ix.greater(a, b) <==> ix.val(a) > ix.val(b)
      ensures ix.val(a) == ix.val(b) ==> a == b
    {
      OrderIsIntegerOrder(a, b);
    }
  }

  /** The operators that change a sequence number in place. */
  class SequenceCounter {
    var high: Int32
    var low: UInt32

    function Now(): SequenceNumber
      reads this
    {
      SequenceNumber(high, low)
    }

    constructor (sn: SequenceNumber)
      ensures Now() == sn
    {
      high, low := sn.high, sn.low;
    }

    method Increment() returns (before: SequenceNumber)
      requires CarryFits(Now(), 1)
      modifies this
      ensures before == old(Now())
      ensures Value(Now()) == Value(old(Now())) + 1
    {
      before := Now();
      low := (low + 1) % TWO32;
      if low == 0 {
        high := high + 1;
      }
    }

    method AddAssign(inc: Int32)
      requires 0 <= inc && CarryFits(Now(), inc)
      modifies this
      ensures Value(Now()) == Value(old(Now())) + inc
      ensures Now() == Plus(old(Now()), inc)
    {
      var auxLow := low;
      low := (low + inc) % TWO32;
      if low < auxLow {
        high := high + 1;
      }
    }
  }
}
