/** The index type of a sliding bitmap: a template argument `T` with its operators, and the
    integer each `T` stands for. */
module SlidingIndex {
  import opened MachineInts

  datatype Index<!T> = Index(
    val: T -> int,
    plus: (T, UInt32) -> T,
    fits: (T, UInt32) -> bool,
    diff: (T, T) -> UInt32,
    atLeast: (T, T) -> bool,
    greater: (T, T) -> bool,
    top: int)

  /** The operators act on `T` as on the integers below `top`; `diff` gives the low 32 bits of
      the distance, and `fits` is the assertion that `plus` makes. */
  ghost predicate Lawful<T(!new)>(ix: Index<T>) {
    (forall a: T :: ix.val(a) < ix.top) && PlusLawful(ix) && DiffLawful(ix) && OrderLawful(ix)
  }

  ghost predicate PlusLawful<T(!new)>(ix: Index<T>) {
    forall a: T, n: UInt32 {:trigger ix.plus(a, n)} ::
      ix.val(a) + n < ix.top ==> ix.fits(a, n) && ix.val(ix.plus(a, n)) == ix.val(a) + n
  }

  ghost predicate DiffLawful<T(!new)>(ix: Index<T>) {
    forall a: T, b: T {:trigger ix.diff(a, b)} ::
      ix.val(b) <= ix.val(a) ==> ix.diff(a, b) == (ix.val(a) - ix.val(b)) % TWO32
  }

  ghost predicate OrderLawful<T(!new)>(ix: Index<T>) {
    && (forall a: T, b: T {:trigger ix.atLeast(a, b)} :: ix.atLeast(a, b) <==> ix.val(a) >= ix.val(b))
    && (forall a: T, b: T {:trigger ix.greater(a, b)} :: ix.greater(a, b) <==> ix.val(a) > ix.val(b))
    && (forall a: T, b: T {:trigger ix.val(a), ix.val(b)} :: ix.val(a) == ix.val(b) ==> a == b)
  }

  lemma Laws<T(!new)>(ix: Index<T>, a: T, b: T)
    requires Lawful(ix)
    ensures ix.val(a) < ix.top
    ensures ix.val(b) <= ix.val(a) ==> ix.diff(a, b) == (ix.val(a) - ix.val(b)) % TWO32
    ensures ix.val(b) <= ix.val(a) < ix.val(b) + TWO32 ==> ix.diff(a, b) == ix.val(a) - ix.val(b)
    ensures ix.atLeast(a, b) <==> ix.val(a) >= ix.val(b)
    ensures ix.greater(a, b) <==> ix.val(a) > ix.val(b)
    ensures ix.val(a) == ix.val(b) <==> a == b
  {
  }

  lemma PlusLaw<T(!new)>(ix: Index<T>, a: T, n: UInt32)
    requires Lawful(ix) && ix.val(a) + n < ix.top
    ensures ix.fits(a, n) && ix.val(ix.plus(a, n)) == ix.val(a) + n
  {
  }

  // `uint32_t` with the default difference functor.

  function UInt32Val(a: UInt32): int {
    a
  }

  function UInt32Plus(a: UInt32, n: UInt32): UInt32 {
    if a + n < TWO32 then a + n else a + n - TWO32
  }

  /** Plain integers wrap and assert nothing. */
  predicate UInt32Fits(a: UInt32, n: UInt32) {
    true
  }

  function UInt32Diff(a: UInt32, b: UInt32): UInt32 {
    (a - b) % TWO32
  }

  predicate UInt32AtLeast(a: UInt32, b: UInt32) {
    a >= b
  }

  predicate UInt32Greater(a: UInt32, b: UInt32) {
    a > b
  }

  function UInt32Index(): Index<UInt32> {
    Index(UInt32Val, UInt32Plus, UInt32Fits, UInt32Diff, UInt32AtLeast, UInt32Greater, TWO32)
  }

  lemma UInt32Values()
    ensures forall a: UInt32 :: UInt32Index().val(a) == a
    ensures UInt32Index().top == TWO32
  {
  }

  /** Beyond the top an addition wraps. */
  lemma UInt32PlusWraps(a: UInt32, n: UInt32)
    ensures UInt32Index().plus(a, n) == UInt32Plus(a, n) == (a + n) % TWO32
  {
  }

  lemma UInt32OrderIsLawful()
    ensures OrderLawful(UInt32Index())
  {
  }

  lemma UInt32PlusIsLawful()
    ensures PlusLawful(UInt32Index())
  {
    var ix := UInt32Index();
    forall a: UInt32, n: UInt32 | ix.val(a) + n < ix.top
      ensures ix.fits(a, n) && ix.val(ix.plus(a, n)) == ix.val(a) + n
    {
      assert ix.plus(a, n) == UInt32Plus(a, n);
    }
  }

  lemma UInt32IndexIsLawful()
    ensures Lawful(UInt32Index())
  {
    var ix := UInt32Index();
    UInt32OrderIsLawful();
    UInt32PlusIsLawful();
    hide OrderLawful, PlusLawful;
    forall a: UInt32, b: UInt32 | ix.val(b) <= ix.val(a)
      ensures ix.diff(a, b) == (ix.val(a) - ix.val(b)) % TWO32
    {
      UInt32DiffIsLow(a, b);
    }
  }

  lemma UInt32DiffIsLow(a: UInt32, b: UInt32)
    ensures UInt32Index().diff(a, b) == UInt32Diff(a, b) == (UInt32Index().val(a) - UInt32Index().val(b)) % TWO32
  {
  }
}
