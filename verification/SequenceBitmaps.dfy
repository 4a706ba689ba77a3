/** What the sliding bitmap does at its edges when its items are sequence numbers. */
module SequenceBitmaps {
  import opened MachineInts
  import opened SlidingIndex
  import opened SequenceNumbers
  import opened BitmapRanges

  /** `remove` on an empty bitmap is safe exactly when the carry assertion of `max()` holds and
      the item is below the base, in the window, or at least 2^32 away. */
  lemma EmptyRemoveIff(base: SequenceNumber, item: SequenceNumber, nbits: nat)
    requires nbits <= TWO32
    ensures EmptyRemoveIsSafe(SequenceNumberIndex(), base, item, nbits)
      <==> (CarryFits(base, TWO32 - 1) && var d := Value(item) - Value(base); d < nbits || TWO32 <= d)
  {
    SequenceNumberIndexIsLawful();
    var ix := SequenceNumberIndex();
    hide Lawful, CarryFits, Value, Plus, DiffLow, AtLeast;
    CarryFitsIffRepresentable(base, TWO32 - 1);
    if CarryFits(base, TWO32 - 1) {
      PlusLaw(ix, base, TWO32 - 1);
      Laws(ix, item, base);
      Laws(ix, ix.plus(base, TWO32 - 1), item);
    }
  }

  /** With 256 bits from (0, 1) on, removing (0, 257) from the empty set would write word 8
      of 8. */
  lemma EmptyRemoveFails()
    ensures var base, item := SequenceNumber(0, 1), SequenceNumber(0, 257);
      && !EmptyRemoveIsSafe(SequenceNumberIndex(), base, item, 256)
      && AtLeast(item, base) && AtLeast(Plus(base, TWO32 - 1), item) && DiffLow(item, base) / 32 == 8
  {
    EmptyRemoveIff(SequenceNumber(0, 1), SequenceNumber(0, 257), 256);
  }

  /** Moving the base from (0, 1) to (1, 1) should drop every member and keeps them all: the
      low word of the distance is 0, and so (0, 1) comes out as (1, 1). */
  lemma UpdateBaseKeepsAll(items: set<int>)
    requires forall v :: v in items ==> 1 <= v < 1 + TWO32
    ensures var b0, b1 := SequenceNumber(0, 1), SequenceNumber(1, 1);
      && DiffLow(b1, b0) == 0
      && (forall v :: v in items ==> v < Value(b1))
      && Rebased(items, Value(b0), Value(b1)) == set v | v in items :: v + TWO32
  {
  }
}
