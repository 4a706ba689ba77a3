/** Receiver-side assembly of a fragmented payload (section 8.3.7.3 of DDSI-RTPS 2.2). */
module Reassembly {
  import opened MachineInts
  import opened FragmentLists
  import opened SlidingIndex
  import opened BitmapRanges
  import BitWindows

  /** One DataFrag submessage: `num` fragments from `start` on, counted from 1. */
  datatype Submessage = Submessage(data: seq<Byte>, start: UInt32, num: UInt32)

  // ----- the 32-bit arithmetic of `addFragments`

  /** The first fragment index, `fragment_starting_num - 1`. */
  function Lo(m: Submessage): UInt32 {
    (m.start - 1) % TWO32
  }

  /** One past the last fragment index, `last_fragment_index`. */
  function Hi(m: Submessage): UInt32 {
    (m.start + m.num - 1) % TWO32
  }

  /** The product that the code forms, in 32 bits. */
  function Times32(fs: nat, n: UInt32): (r: UInt32)
    ensures r == Off(fs, n) % TWO32
  {
    OffIsProduct(fs, n);
    fs * n % TWO32
  }

  function Offset32(c: Change, m: Submessage): UInt32 {
    Off(c.fs, Lo(m)) % TWO32
  }

  function Length32(c: Change, m: Submessage): UInt32 {
    if Hi(m) < c.count then Off(c.fs, m.num) % TWO32 else (c.length - Offset32(c, m)) % TWO32
  }

  /** The three early `return false`. */
  predicate Rejected(c: Change, m: Submessage) {
    || Hi(m) > c.count
    || (Hi(m) < c.count && |m.data| < Length32(c, m))
    || (Offset32(c, m) + Length32(c, m)) % TWO32 > c.length
  }

  /** m is accepted and some fragment of its range is still missing. */
  ghost predicate Brings(c: Change, missing: set<nat>, m: Submessage) {
    !Rejected(c, m) && Lo(m) < c.count && Meets(missing, Lo(m), Hi(m))
  }

  /** For a range that reaches into the payload nothing wraps, whatever the three numbers of
      the submessage are; the copy is exactly the bytes of its fragments. */
  lemma RangeIsExact(c: Change, m: Submessage)
    requires Sized(c) && !Rejected(c, m) && Lo(m) < Hi(m)
    ensures Hi(m) <= c.count && m.start == Lo(m) + 1 && m.num == Hi(m) - Lo(m)
    ensures Offset32(c, m) == Off(c.fs, Lo(m))
    ensures Offset32(c, m) + Length32(c, m) == EndOf(c, Hi(m) - 1) <= c.length
    ensures Hi(m) < c.count ==> Length32(c, m) <= |m.data|
  {
    LaidRangeIsExact(c, m);
  }

  lemma LaidRangeIsExact(c: Change, m: Submessage)
    requires Laid(c) && !Rejected(c, m) && Lo(m) < Hi(m)
    ensures Hi(m) <= c.count && m.start == Lo(m) + 1 && m.num == Hi(m) - Lo(m)
    ensures Offset32(c, m) == Off(c.fs, Lo(m))
    ensures Offset32(c, m) + Length32(c, m) == EndOf(c, Hi(m) - 1) <= c.length
    ensures Hi(m) < c.count ==> Length32(c, m) <= |m.data|
  {
    hide Off, Slot, SlotsFit;
    StartIsExact(m);
    var lo, hi := Lo(m), Hi(m);
    OffMonotone(c.fs, lo, hi);
    OffMonotone(c.fs, hi, c.count);
    OffMonotone(c.fs, lo, c.count - 1);
    OffSplit(c.fs, lo, m.num);
    if hi < c.count {
      OffMonotone(c.fs, hi, c.count - 1);
    }
  }

  /** m names fragments of a payload of `count` fragments: at least one, counted from 1. */
  predicate InPayload(m: Submessage, count: nat) {
    1 <= m.start && 1 <= m.num && m.start + m.num - 1 <= count
  }

  /** Which submessages are accepted and can bring something, in terms of what they say: those
      that name fragments of the payload and, unless they reach its end, hold as much as those
      fragments. */
  lemma AcceptedIff(c: Change, m: Submessage)
    requires Laid(c)
    ensures !Rejected(c, m) && Lo(m) < Hi(m) <==>
      InPayload(m, c.count) && (m.start + m.num - 1 < c.count ==> m.num * c.fs <= |m.data|)
    ensures InPayload(m, c.count) ==> Lo(m) == m.start - 1 && Hi(m) == m.start + m.num - 1
  {
    hide Off, Slot, Rejected, Laid;
    OffIsProduct(c.fs, m.num);
    assert m.num * c.fs == c.fs * m.num;
    if InPayload(m, c.count) {
      RangeOf(c, m);
      InPayloadSpan(c, m);
      RejectedInPayload(c, m);
    } else if !Rejected(c, m) && Lo(m) < Hi(m) {
      LaidRangeIsExact(c, m);
    }
  }

  /** A message that names no fragment is accepted as long as it starts inside, or just past the
      end. */
  lemma EmptyRangeAcceptedIff(c: Change, m: Submessage)
    requires Laid(c) && m.num == 0
    ensures !Rejected(c, m) <==> (m.start - 1) % TWO32 <= c.count
  {
    hide Off, Slot;
    OffBase(c.fs);
    if Lo(m) <= c.count {
      OffMonotone(c.fs, Lo(m), c.count);
      InRange(Off(c.fs, Lo(m)));
      if Lo(m) < c.count {
        OffMonotone(c.fs, Lo(m), c.count - 1);
      }
    }
  }

  lemma RangeOf(c: Change, m: Submessage)
    requires InPayload(m, c.count)
    ensures Lo(m) == m.start - 1 && Hi(m) == m.start + m.num - 1
  {
  }

  /** Where the range of m lies. */
  lemma InPayloadSpan(c: Change, m: Submessage)
    requires Laid(c) && InPayload(m, c.count)
    ensures var lo, hi := m.start - 1, m.start + m.num - 1;
      && Off(c.fs, lo) + Off(c.fs, m.num) == Off(c.fs, hi) < TWO32 && Off(c.fs, lo) < c.length
      && (hi < c.count ==> Off(c.fs, hi) <= c.length)
  {
    hide Off, Slot;
    OffSplit(c.fs, m.start - 1, m.num);
    OffMonotone(c.fs, m.start + m.num - 1, c.count);
    OffMonotone(c.fs, m.start - 1, c.count - 1);
    if m.start + m.num - 1 < c.count {
      OffMonotone(c.fs, m.start + m.num - 1, c.count - 1);
    }
  }

  lemma RejectedInPayload(c: Change, m: Submessage)
    requires InPayload(m, c.count) && Lo(m) == m.start - 1 && Hi(m) == m.start + m.num - 1
    requires Off(c.fs, Lo(m)) + Off(c.fs, m.num) == Off(c.fs, Hi(m)) < TWO32 && Off(c.fs, Lo(m)) < c.length
    requires Hi(m) < c.count ==> Off(c.fs, Hi(m)) <= c.length
    ensures Rejected(c, m) <==> Hi(m) < c.count && |m.data| < Off(c.fs, m.num)
  {
    hide Off, Lo, Hi;
    InRange(Off(c.fs, Lo(m)));
    InRange(Off(c.fs, m.num));
    InRange(c.length - Off(c.fs, Lo(m)));
    assert Offset32(c, m) == Off(c.fs, Lo(m));
    assert Length32(c, m) == if Hi(m) < c.count then Off(c.fs, m.num) else c.length - Off(c.fs, Lo(m));
    InRange(Offset32(c, m) + Length32(c, m));
    hide Offset32, Length32;
  }

  lemma InRange(x: int)
    requires 0 <= x < TWO32
    ensures x % TWO32 == x
  {
  }

  lemma StartIsExact(m: Submessage)
    requires Lo(m) < Hi(m)
    ensures m.start == Lo(m) + 1 && m.num == Hi(m) - Lo(m)
  {
  }

  // ----- what one submessage does

  /** c2 and missing2 are what c and missing become on receipt of m. */
  ghost predicate Received(c: Change, missing: set<nat>, m: Submessage, c2: Change, missing2: set<nat>) {
    && c2.length == c.length && c2.fs == c.fs && c2.count == c.count && |c2.buf| == |c.buf|
    && (Listed(c, missing) ==> Listed(c2, missing2))
    && if Brings(c, missing, m) then
         && missing2 == Without(missing, Lo(m), Hi(m))
         && Holds(c2, Lo(m), Hi(m), m)
         && forall j: nat :: j < c.count && j !in missing && !(Lo(m) <= j < Hi(m)) ==> SameFragment(c, c2, j)
       else
         c2 == c && missing2 == missing
  }

  /** The bytes of fragments [lo, hi) are those m carries. */
  ghost predicate Holds(c: Change, lo: nat, hi: nat, m: Submessage)
    requires lo < hi
  {
    forall k :: Off(c.fs, lo) <= k < EndOf(c, hi - 1) ==>
      k < |c.buf| && k - Off(c.fs, lo) < |m.data| && c.buf[k] == m.data[k - Off(c.fs, lo)]
  }

  /** `setFragmentSize` computes the count in 32 bits: it is the number of fragments unless
      `length + fragment_size - 1` wraps. */
  function Count32(length: UInt32, fs: nat): UInt32
    requires 0 < fs < 0x1_0000
  {
    (length + fs - 1) % TWO32 / fs
  }

  lemma CountIsExactIff(length: UInt32, fs: nat)
    requires 0 < fs < 0x1_0000
    ensures Count32(length, fs) == CountFor(length, fs) <==> length + fs - 1 < TWO32
    ensures length + fs - 1 >= TWO32 ==> Count32(length, fs) == (length + fs - 1 - TWO32) / fs
  {
    if length + fs - 1 >= TWO32 {
      var x := length + fs - 1 - TWO32;
      assert (length + fs - 1) % TWO32 == x;
      DivGrows(x, fs);
    }
  }

  /** 2^32 - 1 bytes in fragments of 2: the sum wraps to 0, and so does the count. */
  lemma CountWraps()
    ensures Count32(0xFFFF_FFFF, 2) == 0 && CountFor(0xFFFF_FFFF, 2) == 0x8000_0000
  {
  }

  lemma DivGrows(x: nat, fs: nat)
    requires 0 < fs < 0x1_0000
    ensures x / fs < (x + TWO32) / fs
  {
    var p, q := x / fs, (x + TWO32) / fs;
    assert x == fs * p + x % fs && x + TWO32 == fs * q + (x + TWO32) % fs;
    if q == p {
    } else if q < p {
      MulStep(fs, q, p);
    }
  }

  lemma CeilingBounds(length: nat, fs: nat)
    requires 0 < fs
    ensures length <= Off(fs, CountFor(length, fs)) < length + fs
    ensures 0 < CountFor(length, fs) ==> Off(fs, CountFor(length, fs) - 1) < length
  {
    var n := CountFor(length, fs);
    OffIsProduct(fs, n);
    assert length + fs - 1 == fs * n + (length + fs - 1) % fs;
    if 0 < n {
      OffIsProduct(fs, n - 1);
      assert fs * (n - 1) + fs == fs * n;
    }
  }

  ghost function AllBelow(n: nat): set<nat> {
    set j: nat | j < n && Below(j, n)
  }

  predicate Below(j: nat, n: nat) {
    j < n
  }

  lemma FreshIsSized(c: Change)
    requires 0 < c.fs < 0x1_0000 && c.count == Count32(c.length, c.fs) && c.length <= |c.buf|
    requires c.length + c.fs - 1 < TWO32 && SlotsFit(c.fs, CountFor(c.length, c.fs))
    requires 0 < CountFor(c.length, c.fs) ==> Slot(c.fs, CountFor(c.length, c.fs) - 1) + 4 <= |c.buf|
    ensures Sized(c)
  {
    hide Off, Slot, SlotsFit;
    CountIsExactIff(c.length, c.fs);
    CeilingBounds(c.length, c.fs);
  }

  lemma OneMoreLink(c: Change, i: nat)
    requires Sized(c) && i < c.count && Slot(c.fs, i) + 4 <= |c.buf|
    requires forall j: nat :: j < i ==> LinksOn(c, j)
    ensures var d := WithLink(c, i, i + 1);
      && Sized(d) && d.fs == c.fs
      && forall j: nat :: j < i + 1 ==> LinksOn(d, j)
  {
    hide Off, Slot, SlotsFit, Sized, Link;
    var d := WithLink(c, i, i + 1);
    SizedOfBuffer(c, d.buf);
    forall j: nat | j < i + 1 ensures LinksOn(d, j) {
      SlotBounds(c, j);
      assert j < i ==> LinksOn(c, j);
      WithLinkReads(c, i, i + 1, j);
    }
  }

  lemma NoFragments(c: Change)
    requires c.fs == c.count == c.first == 0 && c.length <= |c.buf|
    ensures Listed(c, AllBelow(0)) && AllBelow(0) == {}
  {
    SlotsFitIff(0, 0);
    assert AllBelow(0) == {};
  }

  ghost predicate LinksOn(c: Change, i: nat) {
    LinkIs(c, i, i + 1)
  }

  /** The links that `setFragmentSize` writes list every fragment. */
  lemma FreshListIsComplete(c: Change)
    requires Sized(c) && c.first == 0
    requires forall i: nat :: i < c.count ==> LinksOn(c, i)
    ensures Listed(c, AllBelow(c.count))
  {
    hide Sized, Off, Slot, Link;
    var all := AllBelow(c.count);
    NextInIs(all, 0, c.count, 0);
    forall i | i in all ensures Linked(c, all, i) {
      assert LinksOn(c, i);
      NextInIs(all, i + 1, c.count, i + 1);
    }
  }

  /** Byte k is in no fragment's link. */
  ghost predicate InNoLink(fs: nat, count: nat, k: int) {
    forall i: nat {:trigger Slot(fs, i)} :: i < count ==> !(Slot(fs, i) <= k < Slot(fs, i) + 4)
  }

  class CacheChange {
    const data: array<Byte>
    var length: UInt32
    var fragmentSize: nat
    var fragmentCount: UInt32
    var firstMissing: UInt32
    ghost var missing: set<nat>

    ghost function Now(): Change
      reads this, data
    {
      Change(data[..], length, fragmentSize, fragmentCount, firstMissing)
    }

    /** The list is intact, or nothing is missing at all. */
    ghost predicate Valid()
      reads this, data
    {
      && length <= data.Length && fragmentSize < 0x1_0000
      && (Listed(Now(), missing) || (missing == {} && firstMissing == fragmentCount))
    }

    constructor (capacity: nat, length: UInt32)
      requires length <= capacity
      ensures Valid() && fresh(data) && data.Length == capacity && this.length == length
      ensures FullyAssembled(Now())
    {
      data := new Byte[capacity](_ => 0);
      this.length := length;
      fragmentSize, fragmentCount, firstMissing, missing := 0, 0, 0, {};
    }

    method IsFullyAssembled() returns (r: bool)
      requires Valid()
      ensures r <==> missing == {}
      ensures r == FullyAssembled(Now())
    {
      if Listed(Now(), missing) {
        FullyAssembledIff(Now(), missing);
      }
      r := firstMissing >= fragmentCount;
    }

    method GetNextMissingFragment(i: UInt32) returns (next: UInt32)
      requires Slot(fragmentSize, i) + 4 <= data.Length
      ensures next == Read32(data[..], Slot(fragmentSize, i))
    {
      var p := Slot(fragmentSize, i);
      next := Read32(data[..], p);
    }

    method SetNextMissingFragment(i: UInt32, next: UInt32)
      requires Slot(fragmentSize, i) + 4 <= data.Length
      modifies data
      ensures Now() == WithLink(old(Now()), i, next)
      ensures forall k :: 0 <= k < data.Length && !(Slot(fragmentSize, i) <= k < Slot(fragmentSize, i) + 4) ==>
        data[k] == old(data[k])
    {
      var p := Slot(fragmentSize, i);
      var bytes := Bytes32(next);
      data[p], data[p + 1], data[p + 2], data[p + 3] := bytes[0], bytes[1], bytes[2], bytes[3];
      assert data[..] == Overwrite(old(data[..]), p, bytes);
    }

    /** `setFragmentSize`.  With the list, the caller answers for a length whose count does not
        wrap, for fragments that hold their links, and for a buffer with room for the last
        one. */
    method SetFragmentSize(size: nat, createList: bool)
      requires Valid() && size < 0x1_0000
      requires createList && 0 < size ==>
        var n := CountFor(length, size);
        && length + size - 1 < TWO32 && SlotsFit(size, n)
        && (0 < n ==> Slot(size, n - 1) + 4 <= data.Length)
      modifies this`fragmentSize, this`fragmentCount, this`firstMissing, this`missing, data
      ensures Valid() && fragmentSize == size
      ensures fragmentCount == if 0 < size then Count32(length, size) else 0
      ensures missing == if createList then AllBelow(fragmentCount) else {}
      ensures createList ==> Listed(Now(), missing)
      ensures !createList ==> data[..] == old(data[..])
      ensures forall k :: 0 <= k < data.Length && InNoLink(fragmentSize, fragmentCount, k) ==> data[k] == old(data[k])
    {
      hide InNoLink, Sized, Off, Slot, Listed, AllBelow, SlotsFit, LinksOn;
      fragmentSize := size;
      fragmentCount := 0;
      firstMissing := 0;
      missing := {};
      if size > 0 {
        fragmentCount := (length + size - 1) % TWO32 / size;
        if createList {
          FreshIsSized(Now());
          WriteLinks();
          missing := AllBelow(fragmentCount);
          FreshListIsComplete(Now());
        } else {
          firstMissing := fragmentCount;
        }
      } else {
        NoFragments(Now());
      }
    }

    /** The loop of `setFragmentSize`. */
    method WriteLinks()
      requires Sized(Now()) && firstMissing == 0
      modifies data
      ensures Sized(Now())
      ensures forall i: nat :: i < fragmentCount ==> LinksOn(Now(), i)
      ensures forall k :: 0 <= k < data.Length && InNoLink(fragmentSize, fragmentCount, k) ==> data[k] == old(data[k])
    {
      hide Off, Slot, SlotsFit, Sized, LinksOn, WithLink;
      var i := 1;
      while i <= fragmentCount
        invariant 1 <= i <= fragmentCount + 1
        invariant Sized(Now())
        invariant forall j: nat :: j < i - 1 ==> LinksOn(Now(), j)
        invariant forall k ::
          0 <= k < data.Length && InNoLink(fragmentSize, fragmentCount, k) ==> data[k] == old(data[k])
      {
        ghost var before := Now();
        SlotBounds(before, i - 1);
        SetNextMissingFragment(i - 1, i);
        OneMoreLink(before, i - 1);
        assert Now() == WithLink(before, i - 1, i);
        i := i + 1;
      }
    }

    /** `receivedFragments`: take [initial, initial + count) off the list.  Link writes stay
        inside fragments that are still missing. */
    method ReceivedFragments(initial: UInt32, num: UInt32) returns (changed: bool)
      requires Valid()
      modifies this`firstMissing, this`missing, data
      ensures Valid()
      ensures var last := Cut((initial + num) % TWO32, fragmentCount);
        && (changed <==> initial < fragmentCount && Meets(old(missing), initial, last))
        && (changed ==> Listed(old(Now()), old(missing)) && Listed(Now(), missing))
        && (changed ==> missing == Without(old(missing), initial, last))
        && (forall j: nat :: changed && j < fragmentCount && j !in missing ==> SameFragment(old(Now()), Now(), j))
      ensures !changed ==> Now() == old(Now()) && missing == old(missing)
    {
      changed := false;
      if fragmentSize > 0 && initial < fragmentCount {
        var last := (initial + num) % TWO32;
        if last > fragmentCount {
          last := fragmentCount;
        }
        if initial <= firstMissing {
          changed := UnlinkFirst(initial, last);
        } else {
          changed := UnlinkLater(initial, last);
        }
      }
    }

    /** `getMissingFragments`: fragment numbers, counted from 1, in a window of 256 from the
        first missing one. */
    method GetMissingFragments(sns: BitmapRange<UInt32>)
      requires Valid() && sns.Valid() && sns.index == UInt32Index() && sns.Nbits() == 256
      requires sns.bitmap as object != data && (Listed(Now(), missing) || firstMissing + 1 + 256 < TWO32)
      modifies sns, sns.bitmap
      ensures sns.Valid() && sns.base == firstMissing + 1 && sns.FullWindow()
      ensures sns.Items() == Numbers(missing, fragmentCount, firstMissing + sns.Nbits())
      ensures Now() == old(Now())
    {
      UInt32Values();
      hide Sized, Off, Slot, Read32, NextIn, Listed, SlotsFit, Lawful, Numbers, UInt32Index, BitWindows.Tight,
        BitWindows.Members;
      ghost var c := Now();
      FirstIsMissing(c, missing);
      if Listed(c, missing) {
        ListFitsWindow(c, missing);
      }
      sns.Rebase(firstMissing + 1, sns.Nbits() - 1);
      var current := firstMissing;
      NumbersBelowFirst(c, missing, firstMissing + sns.Nbits());
      while current < fragmentCount
        invariant Now() == c && sns.Valid() && sns.base == firstMissing + 1 && sns.FullWindow()
        invariant firstMissing <= current <= fragmentCount
        invariant current < fragmentCount ==> Listed(c, missing) && current in missing
        invariant sns.Items() == Numbers(missing, current, firstMissing + sns.Nbits())
        decreases fragmentCount - current
      {
        var added := sns.Add(current + 1);
        NextStep(c, missing, current, fragmentCount);
        NumbersStep(missing, current, Link(c, current), firstMissing + sns.Nbits());
        current := GetNextMissingFragment(current);
      }
    }

    /** `addFragments`.  A message that ends the payload is copied to its last byte without a
        look at how much data there is, so the caller answers for that. */
    method AddFragments(m: Submessage) returns (full: bool)
      requires Valid()
      requires Brings(Now(), missing, m) && Hi(m) == fragmentCount ==> Length32(Now(), m) <= |m.data|
      modifies this`firstMissing, this`missing, data
      ensures Valid()
      ensures Received(old(Now()), old(missing), m, Now(), missing)
      ensures full == (!Rejected(old(Now()), m) && FullyAssembled(Now()))
      ensures full ==> missing == {}
      ensures var enough := m.start + m.num - 1 < fragmentCount ==> m.num * fragmentSize <= |m.data|;
        Listed(old(Now()), old(missing)) && InPayload(m, fragmentCount) && enough ==> full == (missing == {})
    {
      hide Off, Times32, Slot, Read32, Listed, Sized, SlotsFit, Meets, Without, SameFragment;
      ghost var c, before := Now(), missing;
      var originalOffset: UInt32 := Times32(fragmentSize, (m.start - 1) % TWO32);
      var incomingLength: UInt32 := Times32(fragmentSize, m.num);
      var lastFragmentIndex: UInt32 := (m.start + m.num - 1) % TWO32;
      AcceptsInPayload(c, before, m);
      if lastFragmentIndex > fragmentCount {
        return false;
      }
      if lastFragmentIndex < fragmentCount {
        if |m.data| < incomingLength {
          return false;
        }
      } else {
        incomingLength := (length - originalOffset) % TWO32;
      }
      if (originalOffset + incomingLength) % TWO32 > length {
        return false;
      }
      LastIsHi(m);
      var changed := ReceivedFragments((m.start - 1) % TWO32, m.num);
      if changed {
        MeetsSpans(before, Lo(m), Hi(m));
        ListedIsSized(c, before);
        RangeIsExact(c, m);
        ghost var linked := Now();
        CopyIn(originalOffset, m.data[..incomingLength]);
        Arrived(c, linked, before, m);
      }
      full := IsFullyAssembled();
    }

    /** `memcpy` into the payload. */
    method CopyIn(p: nat, bytes: seq<Byte>)
      requires p + |bytes| <= data.Length
      modifies data
      ensures Now() == old(Now()).(buf := Overwrite(old(data[..]), p, bytes))
    {
      forall k | 0 <= k < |bytes| {
        data[p + k] := bytes[k];
      }
      assert data[..] == Overwrite(old(data[..]), p, bytes);
    }

    /** The branch `initial_fragment <= first_missing_fragment_`. */
    method UnlinkFirst(initial: UInt32, last: UInt32) returns (changed: bool)
      requires Valid() && initial < fragmentCount && last <= fragmentCount && initial <= firstMissing
      modifies this`firstMissing, this`missing
      ensures Valid()
      ensures changed <==> Meets(old(missing), initial, last)
      ensures changed ==> Listed(old(Now()), old(missing)) && Listed(Now(), missing)
      ensures changed ==> missing == Without(old(missing), initial, last)
      ensures !changed ==> firstMissing == old(firstMissing) && missing == old(missing)
    {
      hide Sized, Off, Slot, Read32, NextIn, Listed, Meets, Without, SlotsFit;
      changed := false;
      ghost var c := Now();
      FirstMeets(c, missing, initial, last);
      while firstMissing < last
        invariant missing == old(missing) && c.first <= firstMissing <= fragmentCount
        invariant changed <==> c.first < firstMissing
        invariant !changed ==> firstMissing == c.first
        invariant firstMissing < last ==> Listed(c, missing) && firstMissing in missing
        invariant changed ==> Listed(c, missing) && c.first < last
        invariant changed && last <= firstMissing ==> firstMissing == NextIn(missing, last, fragmentCount)
        decreases fragmentCount - firstMissing
      {
        NextStep(c, missing, firstMissing, last);
        firstMissing := GetNextMissingFragment(firstMissing);
        changed := true;
      }
      if changed {
        UnlinkFront(c, missing, initial, last);
        missing := Without(missing, initial, last);
        assert Now() == c.(first := firstMissing);
      }
    }

    method UnlinkLater(initial: UInt32, last: UInt32) returns (changed: bool)
      requires Valid() && initial < fragmentCount && last <= fragmentCount && firstMissing < initial
      modifies this`missing, data
      ensures Valid()
      ensures changed <==> Meets(old(missing), initial, last)
      ensures changed ==> Listed(old(Now()), old(missing)) && Listed(Now(), missing)
      ensures changed ==> missing == Without(old(missing), initial, last)
      ensures forall j: nat :: changed && j < fragmentCount && j !in missing ==> SameFragment(old(Now()), Now(), j)
      ensures !changed ==> Now() == old(Now()) && missing == old(missing)
    {
      hide Sized, Off, Slot, Read32, NextIn, Listed, Meets, Without, SlotsFit, SameFragment, WithLink;
      ghost var c := Now();
      FirstMeets(c, missing, initial, last);
      var current := firstMissing;
      while current < initial
        invariant Now() == c && missing == old(missing) && Listed(c, missing)
        invariant current < initial && current in missing
        decreases fragmentCount - current
      {
        NextStep(c, missing, current, initial);
        var next := GetNextMissingFragment(current);
        if next >= initial {
          MiddleMeets(missing, current, initial, last, next, fragmentCount);
          var nextMissing;
          nextMissing, changed := SkipTo(next, last);
          if changed {
            UnlinkMiddle(c, missing, initial, last, current, nextMissing);
            SetNextMissingFragment(current, nextMissing);
            UnlinkedOthers(c, missing, initial, last, current, nextMissing);
            missing := Without(missing, initial, last);
          }
          return;
        }
        current := next;
      }
      changed := false;
    }

    /** The innermost loop of `receivedFragments`: on to the first missing fragment from
        `last` on. */
    method SkipTo(from: UInt32, last: UInt32) returns (to: UInt32, changed: bool)
      requires Listed(Now(), missing) && from <= fragmentCount && last <= fragmentCount
      requires from < fragmentCount ==> from in missing
      ensures changed <==> from < last
      ensures to == if changed then NextIn(missing, last, fragmentCount) else from
    {
      hide Sized, Off, Slot, Read32, NextIn, Listed, SlotsFit;
      changed := false;
      to := from;
      while to < last
        invariant from <= to <= fragmentCount
        invariant changed <==> from < to
        invariant to < last ==> to in missing
        invariant changed ==> from < last
        invariant changed && last <= to ==> to == NextIn(missing, last, fragmentCount)
        decreases fragmentCount - to
      {
        NextStep(Now(), missing, to, last);
        to := GetNextMissingFragment(to);
        changed := true;
      }
    }
  }

  /** The numbers, counted from 1, of the missing fragments before `end`, up to `max`. */
  ghost function Numbers(missing: set<nat>, end: nat, max: nat): set<int> {
    set j | j in missing && j < end && j + 1 <= max :: j + 1
  }

  lemma NumbersBelowFirst(c: Change, missing: set<nat>, max: nat)
    requires Listed(c, missing) || (missing == {} && c.first == c.count)
    ensures Numbers(missing, c.first, max) == {}
  {
    hide Sized;
  }

  lemma NumbersStep(missing: set<nat>, i: nat, next: nat, max: nat)
    requires i in missing && i < next
    requires forall j :: i < j < next ==> j !in missing
    ensures Numbers(missing, next, max) == Numbers(missing, i, max) + if i + 1 <= max then {i + 1} else {}
  {
    var a, b := Numbers(missing, next, max), Numbers(missing, i, max) + if i + 1 <= max then {i + 1} else {};
    forall v ensures v in a <==> v in b {
      assert v in a <==> v - 1 in missing && v - 1 < next && v <= max;
      assert v in Numbers(missing, i, max) <==> v - 1 in missing && v - 1 < i && v <= max;
    }
  }

  /** With a list the 256-bit window never wraps. */
  lemma ListFitsWindow(c: Change, missing: set<nat>)
    requires Listed(c, missing)
    ensures c.first + 1 + 256 < TWO32
  {
    SlotsFitIff(c.fs, c.count);
    if 1 < c.count {
      OffAtLeast(c.fs, c.count);
    }
  }

  lemma {:induction false} OffAtLeast(fs: nat, i: nat)
    requires 4 <= fs
    ensures 4 * i <= Off(fs, i)
  {
    hide Off;
    if 0 < i {
      OffAtLeast(fs, i - 1);
      OffStep(fs, i - 1);
    }
  }

  /** The clamp in `receivedFragments`. */
  function Cut(last: nat, count: nat): nat {
    if last > count then count else last
  }

  lemma LastIsHi(m: Submessage)
    ensures (Lo(m) + m.num) % TWO32 == Hi(m)
  {
  }

  lemma MeetsSpans(missing: set<nat>, lo: nat, hi: nat)
    requires Meets(missing, lo, hi)
    ensures lo < hi
  {
  }

  lemma ListedIsSized(c: Change, missing: set<nat>)
    requires Listed(c, missing)
    ensures Sized(c)
  {
  }

  predicate SameGeometry(c: Change, d: Change) {
    d.length == c.length && d.fs == c.fs && d.count == c.count
  }

  predicate SameShape(c: Change, d: Change) {
    SameGeometry(c, d) && |d.buf| == |c.buf|
  }

  /** From the list after unlinking to the state after the copy. */
  lemma Arrived(c: Change, linked: Change, missing: set<nat>, m: Submessage)
    requires Sized(c) && Brings(c, missing, m) && Lo(m) < Hi(m) <= c.count
    requires SameShape(c, linked)
    requires Listed(linked, Without(missing, Lo(m), Hi(m)))
    requires forall j: nat :: j < c.count && j !in Without(missing, Lo(m), Hi(m)) ==> SameFragment(c, linked, j)
    requires Length32(c, m) <= |m.data|
    ensures Offset32(c, m) + Length32(c, m) <= |linked.buf|
    ensures var d := linked.(buf := Overwrite(linked.buf, Offset32(c, m), m.data[..Length32(c, m)]));
      Listed(d, Without(missing, Lo(m), Hi(m))) && Received(c, missing, m, d, Without(missing, Lo(m), Hi(m)))
  {
    RangeIsExact(c, m);
    hide Off, Slot, SlotsFit, Read32, Sized, Listed;
    var lo, hi := Lo(m), Hi(m);
    var rest := Without(missing, lo, hi);
    var bytes := m.data[..Length32(c, m)];
    CopyKeepsList(linked, rest, lo, hi, bytes);
    CopyHolds(linked, lo, hi, m, bytes);
    hide SameFragment, Holds, Without, EndOf, Rejected, Meets;
    var d := linked.(buf := Overwrite(linked.buf, Off(c.fs, lo), bytes));
    forall j: nat | j < c.count && j !in missing && !(lo <= j < hi) ensures SameFragment(c, d, j) {
      assert SameFragment(c, linked, j);
      CopyKeepsFragment(linked, lo, hi, bytes, j);
    }
  }

  lemma CopyHolds(c: Change, lo: nat, hi: nat, m: Submessage, bytes: seq<Byte>)
    requires lo < hi && bytes <= m.data && Off(c.fs, lo) + |bytes| == EndOf(c, hi - 1) <= |c.buf|
    ensures Holds(c.(buf := Overwrite(c.buf, Off(c.fs, lo), bytes)), lo, hi, m)
  {
    hide Off;
    var d := c.(buf := Overwrite(c.buf, Off(c.fs, lo), bytes));
    assert EndOf(d, hi - 1) == EndOf(c, hi - 1);
    assert forall i :: 0 <= i < |bytes| ==> bytes[i] == m.data[i];
  }

  lemma CopyKeepsFragment(c: Change, lo: nat, hi: nat, bytes: seq<Byte>, j: nat)
    requires lo < hi && !(lo <= j < hi) && Off(c.fs, lo) + |bytes| == EndOf(c, hi - 1) <= |c.buf|
    ensures SameFragment(c, c.(buf := Overwrite(c.buf, Off(c.fs, lo), bytes)), j)
  {
    hide Off;
    if j < lo {
      OffMonotone(c.fs, j + 1, lo);
    } else {
      OffMonotone(c.fs, hi, j);
    }
  }

  // ----- links that do not fit

  /** 15 bytes in fragments of 5, with the list that `setFragmentSize` writes. */
  ghost predicate ThreeOfFive(c: Change) {
    && c.fs == 5 && c.length == 15 && c.count == 3 && c.first == 0 && |c.buf| == 16
    && LinksOn(c, 0) && LinksOn(c, 1) && LinksOn(c, 2)
  }

  /** The list without the third fragment. */
  function WithoutThird(c: Change): Change
    requires ThreeOfFive(c)
  {
    OffBase(5);
    WithLink(c, 1, 3)
  }

  lemma FiveByteSlots()
    ensures Slot(5, 0) == 0 && Slot(5, 1) == 8 && Off(5, 2) == 10
  {
    OffBase(5);
  }

  lemma ThirdIsAccepted(c: Change, m: Submessage)
    requires ThreeOfFive(c) && m.start == 3 && m.num == 1 && |m.data| == 5
    ensures !Rejected(c, m) && Lo(m) == 2 && Hi(m) == 3 && Offset32(c, m) == 10 && Length32(c, m) == 5
  {
    FiveByteSlots();
    hide Off, LinksOn;
  }

  lemma ThirdIsUnlinked(c: Change)
    requires ThreeOfFive(c)
    ensures Linked(WithoutThird(c), {0, 1}, 0) && Linked(WithoutThird(c), {0, 1}, 1)
  {
    FiveByteSlots();
    hide Off, NextIn, Read32, Bytes32;
    NextInIs({0, 1}, 1, 3, 1);
    NextInIs({0, 1}, 2, 3, 3);
    ReadOwnWrite(c.buf, 8, 3);
    ReadElsewhere(c.buf, 8, Bytes32(3), 0);
  }

  /** The link of the second fragment reaches into the third.  When the third arrives first,
      its copy overwrites the link that was just redirected past it, and the list leads far
      beyond its end. */
  lemma FiveByteFragmentsBreakTheList(c: Change, m: Submessage)
    requires ThreeOfFive(c) && m.start == 3 && m.num == 1 && |m.data| == 5 && m.data[0] != 0
    ensures !Rejected(c, m) && Offset32(c, m) == 10 && Length32(c, m) == 5
    ensures var linked := WithoutThird(c);
      && Linked(linked, {0, 1}, 0) && Linked(linked, {0, 1}, 1)
      && |linked.buf| == 16
      && var d := linked.(buf := Overwrite(linked.buf, 10, m.data));
      && !Linked(d, {0, 1}, 1)
      && Slot(d.fs, 1) + 4 <= |d.buf| && Link(d, 1) > 0x1_0000
  {
    ThirdIsAccepted(c, m);
    ThirdIsUnlinked(c);
    FiveByteSlots();
    hide Off, ThreeOfFive, NextIn;
    NextInIs({0, 1}, 2, 3, 3);
    OverwrittenLink(WithoutThird(c).buf, 8, m.data);
  }

  lemma OverwrittenLink(buf: seq<Byte>, p: nat, data: seq<Byte>)
    requires p + 2 + |data| <= |buf| && 2 <= |data| && data[0] != 0 && Read32(buf, p) == 3
    ensures Read32(Overwrite(buf, p + 2, data), p) > 0x1_0000
  {
    var r := Overwrite(buf, p + 2, data);
    assert buf[p] == 3 && buf[p + 1] == 0 by {
      assert Read32(buf, p) == buf[p] + 0x100 * (buf[p + 1] + 0x100 * buf[p + 2] + 0x1_0000 * buf[p + 3]);
    }
    assert r[p] == buf[p] && r[p + 1] == buf[p + 1] && r[p + 2] == data[0] && r[p + 3] == data[1];
  }

  /** That list is what `setFragmentSize` writes into any buffer of 16 bytes. */
  lemma ThreeOfFiveIsWritten(buf: seq<Byte>)
    requires |buf| == 16
    ensures Slot(5, 0) == 0 && Slot(5, 1) == 8 && Slot(5, 2) == 12
    ensures ThreeOfFive(WithLink(WithLink(WithLink(Change(buf, 15, 5, 3, 0), 0, 1), 1, 2), 2, 3))
    ensures CountFor(15, 5) == 3
  {
    FiveByteSlots();
    hide Off, Read32, Bytes32;
    var b1 := Overwrite(buf, 0, Bytes32(1));
    var b2 := Overwrite(b1, 8, Bytes32(2));
    ReadOwnWrite(buf, 0, 1);
    ReadOwnWrite(b1, 8, 2);
    ReadOwnWrite(b2, 12, 3);
    ReadElsewhere(b1, 8, Bytes32(2), 0);
    ReadElsewhere(b2, 12, Bytes32(3), 0);
    ReadElsewhere(b2, 12, Bytes32(3), 8);
  }

  /** m passes the three tests, reaches the payload, and has the bytes that are copied. */
  predicate Accepted(c: Change, m: Submessage) {
    !Rejected(c, m) && Lo(m) < Hi(m) && Length32(c, m) <= |m.data|
  }

  /** A link n written for fragment k is still there after the copy of a message that does not
      bring fragment k. */
  ghost predicate LinkSurvives(c: Change, m: Submessage, k: nat, n: UInt32)
    requires Laid(c) && Accepted(c, m) && k < c.count
  {
    LaidSlotInBuffer(c, k);
    LaidRangeIsExact(c, m);
    var buf := WithLink(c, k, n).buf;
    Read32(Overwrite(buf, Offset32(c, m), m.data[..Length32(c, m)]), Slot(c.fs, k)) == n
  }

  /** Copies spare all links of fragments that they do not bring if and only if every link but
      the last fits into its fragment: whenever one does not, some accepted message destroys
      the link of a missing fragment. */
  lemma LinksSurviveIff(c: Change)
    requires Laid(c)
    ensures SlotsFit(c.fs, c.count) <==>
      forall m: Submessage, k: nat, n: UInt32 | Accepted(c, m) && k < c.count && !(Lo(m) <= k < Hi(m)) ::
        LinkSurvives(c, m, k, n)
  {
    hide Off, Slot, SlotsFit, Laid, Accepted, LinkSurvives;
    if SlotsFit(c.fs, c.count) {
      forall m: Submessage, k: nat, n: UInt32 | Accepted(c, m) && k < c.count && !(Lo(m) <= k < Hi(m))
        ensures LinkSurvives(c, m, k, n)
      {
        FittingLinkSurvives(c, m, k, n);
      }
    } else {
      var m, k := CrossingLinkIsLost(c);
    }
  }

  lemma LaidSlotInBuffer(c: Change, k: nat)
    requires Laid(c) && k < c.count
    ensures Slot(c.fs, k) + 4 <= |c.buf|
  {
    hide Off;
    OffMonotone(c.fs, k, c.count - 1);
  }

  lemma FittingLinkSurvives(c: Change, m: Submessage, k: nat, n: UInt32)
    requires Laid(c) && SlotsFit(c.fs, c.count) && Accepted(c, m) && k < c.count && !(Lo(m) <= k < Hi(m))
    ensures LinkSurvives(c, m, k, n)
  {
    LaidSlotInBuffer(c, k);
    LaidRangeIsExact(c, m);
    hide Off, Slot, SlotsFit, Read32;
    var linked := WithLink(c, k, n);
    SizedOfBuffer(c, linked.buf);
    WithLinkReads(c, k, n, k);
    assert EndOf(linked, Hi(m) - 1) == EndOf(c, Hi(m) - 1);
    CopyKeepsLink(linked, Lo(m), Hi(m), m.data[..Length32(c, m)], k);
  }

  /** The message that brings fragment j alone. */
  function Single(c: Change, j: nat): Submessage
    requires j < c.count
  {
    Submessage(seq(c.fs, _ => 1), j + 1, 1)
  }

  lemma SingleRange(c: Change, j: nat)
    requires j < c.count
    ensures Lo(Single(c, j)) == j && Hi(Single(c, j)) == j + 1
    ensures Single(c, j).num == 1 && |Single(c, j).data| == c.fs
  {
  }

  /** The end and the length of fragment j in 32 bits. */
  lemma SingleSpan(c: Change, j: nat)
    requires Laid(c) && j < c.count
    ensures Off(c.fs, j) < c.length && Off(c.fs, 1) == c.fs < TWO32
    ensures j + 1 < c.count ==> Off(c.fs, j) + c.fs < c.length
    ensures c.length <= Off(c.fs, j) + c.fs || j + 1 < c.count
    ensures 0 < c.fs
  {
    hide Off, Slot;
    OffBase(c.fs);
    OffStep(c.fs, j);
    OffMonotone(c.fs, j, c.count - 1);
    OffMonotone(c.fs, 1, c.count);
    if j + 1 < c.count {
      OffMonotone(c.fs, j + 1, c.count - 1);
    }
  }

  lemma SingleIsAccepted(c: Change, j: nat)
    requires Laid(c) && j < c.count
    ensures var m := Single(c, j);
      Accepted(c, m) && Lo(m) == j && Hi(m) == j + 1 && Offset32(c, m) == Off(c.fs, j) && 0 < Length32(c, m)
  {
    SingleRange(c, j);
    SingleSpan(c, j);
    hide Off, Slot, Lo, Hi, Laid, Single;
    var m := Single(c, j);
    InRange(Off(c.fs, j));
    InRange(Off(c.fs, 1));
    InRange(c.length - Off(c.fs, j));
    assert Offset32(c, m) == Off(c.fs, j);
    var length := if j + 1 < c.count then c.fs else c.length - Off(c.fs, j);
    assert Length32(c, m) == length;
    InRange(Off(c.fs, j) + length);
    hide Offset32, Length32;
  }

  lemma CrossingLinkIsLost(c: Change) returns (m: Submessage, k: nat)
    requires Laid(c) && !SlotsFit(c.fs, c.count)
    ensures Accepted(c, m) && k < c.count && !(Lo(m) <= k < Hi(m)) && !LinkSurvives(c, m, k, 0)
  {
    SlotsFitIff(c.fs, c.count);
    OffBase(c.fs);
    hide Off, SlotsFit;
    k := if c.fs == 5 then 1 else 0;
    m := Single(c, k + 1);
    SingleIsAccepted(c, k + 1);
    LaidSlotInBuffer(c, k);
    LaidRangeIsExact(c, m);
    var copied := Overwrite(WithLink(c, k, 0).buf, Offset32(c, m), m.data[..Length32(c, m)]);
    NonZeroIsRead(copied, Slot(c.fs, k), Off(c.fs, k + 1));
  }

  lemma NonZeroIsRead(buf: seq<Byte>, p: nat, q: nat)
    requires p <= q < p + 4 <= |buf| && buf[q] != 0
    ensures Read32(buf, p) != 0
  {
  }

  lemma AcceptsInPayload(c: Change, missing: set<nat>, m: Submessage)
    ensures Listed(c, missing) && InPayload(m, c.count) && (m.start + m.num - 1 < c.count ==> m.num * c.fs <= |m.data|)
      ==> !Rejected(c, m)
  {
    if Listed(c, missing) {
      hide Off, Slot, SlotsFit, Rejected;
      AcceptedIff(c, m);
    }
  }

  // ----- any number of submessages, in any order

  /** If m names fragments of the payload, it carries their bytes of the source. */
  ghost predicate Carries(c: Change, source: seq<Byte>, m: Submessage) {
    InPayload(m, c.count) ==> IsSlice(m.data, source, Off(c.fs, m.start - 1), EndOf(c, m.start + m.num - 2))
  }

  /** m names fragment j of a payload of `count` fragments. */
  predicate Names(m: Submessage, count: nat, j: nat) {
    InPayload(m, count) && m.start <= j + 1 < m.start + m.num
  }

  /** Such a message is accepted. */
  lemma CarriedIsAccepted(c: Change, source: seq<Byte>, m: Submessage)
    requires Laid(c) && |source| == c.length && Carries(c, source, m)
    ensures InPayload(m, c.count) <==> !Rejected(c, m) && Lo(m) < Hi(m)
    ensures InPayload(m, c.count) ==> Lo(m) == m.start - 1 && Hi(m) == m.start + m.num - 1
  {
    hide Off, Slot, Rejected, Laid, Lo, Hi;
    AcceptedIff(c, m);
    if InPayload(m, c.count) && m.start + m.num - 1 < c.count {
      InPayloadSpan(c, m);
      OffIsProduct(c.fs, m.num);
      assert m.num * c.fs == c.fs * m.num;
      assert IsSlice(m.data, source, Off(c.fs, m.start - 1), Off(c.fs, m.start + m.num - 1));
      if 0 < Off(c.fs, m.num) {
        var last := source[Off(c.fs, m.start + m.num - 1) - 1];
      }
    }
  }

  /** `data` starts with bytes [from, to) of the source. */
  ghost predicate IsSlice(data: seq<Byte>, source: seq<Byte>, from: nat, to: nat) {
    forall k :: from <= k < to && k < |source| ==> k - from < |data| && data[k - from] == source[k]
  }

  /** A run of `addFragments` calls: all states, the missing sets and the messages between. */
  ghost predicate Run(states: seq<Change>, missing: seq<set<nat>>, ms: seq<Submessage>) {
    && |states| == |missing| == |ms| + 1
    && Listed(states[0], missing[0])
    && (forall i :: 0 <= i < |ms| ==> Received(states[i], missing[i], ms[i], states[i + 1], missing[i + 1]))
  }

  /** The list is intact all along. */
  lemma {:induction false} RunListed(states: seq<Change>, missing: seq<set<nat>>, ms: seq<Submessage>, i: nat)
    requires Run(states, missing, ms) && i <= |ms|
    ensures Listed(states[i], missing[i])
  {
    hide Listed, Brings, Without, Holds, SameFragment;
    if 0 < i {
      RunListed(states, missing, ms, i - 1);
      assert Received(states[i - 1], missing[i - 1], ms[i - 1], states[i], missing[i]);
    }
  }

  /** Some message of the run names fragment j. */
  ghost predicate Covered(count: nat, ms: seq<Submessage>, j: nat) {
    exists i :: 0 <= i < |ms| && Names(ms[i], count, j)
  }

  ghost predicate AgreesWith(c: Change, missing: set<nat>, source: seq<Byte>) {
    forall j: nat :: j < c.count && j !in missing ==> FragmentIs(c, source, j)
  }

  ghost predicate FragmentIs(c: Change, source: seq<Byte>, j: nat) {
    forall k :: Off(c.fs, j) <= k < EndOf(c, j) && k < |c.buf| && k < |source| ==> c.buf[k] == source[k]
  }

  /** One call: received fragments agree with the source afterwards if they did before. */
  lemma {:induction false} ReceivedAgrees(c: Change, missing: set<nat>, m: Submessage, d: Change,
    missing2: set<nat>, source: seq<Byte>)
    requires Sized(c) && AgreesWith(c, missing, source) && Received(c, missing, m, d, missing2)
    requires Carries(c, source, m) && |source| == c.length
    ensures AgreesWith(d, missing2, source) && SameShape(c, d)
    ensures forall j: nat :: j < c.count ==>
      (j in missing2 <==> j in missing && !Names(m, c.count, j))
  {
    assert Laid(c);
    hide Off, Slot, SlotsFit, Sized, FragmentIs, Holds, SameFragment, Carries, Laid, Rejected, Lo, Hi;
    CarriedIsAccepted(c, source, m);
    if Brings(c, missing, m) {
      MeetsSpans(missing, Lo(m), Hi(m));
      RangeIsExact(c, m);
      forall j: nat | j < c.count && j !in missing2 ensures FragmentIs(d, source, j) {
        if Lo(m) <= j < Hi(m) {
          ArrivedIsSource(c, m, d, source, j);
        } else {
          assert SameFragment(c, d, j) && FragmentIs(c, source, j);
          SameIsSource(c, d, source, j);
        }
      }
    }
  }

  lemma SameIsSource(c: Change, d: Change, source: seq<Byte>, j: nat)
    requires SameShape(c, d) && SameFragment(c, d, j) && FragmentIs(c, source, j)
    ensures FragmentIs(d, source, j)
  {
    hide Off;
  }

  lemma ArrivedIsSource(c: Change, m: Submessage, d: Change, source: seq<Byte>, j: nat)
    requires InPayload(m, c.count) && Lo(m) == m.start - 1 && Hi(m) == m.start + m.num - 1
    requires Lo(m) <= j < Hi(m) && |source| == c.length
    requires SameShape(c, d) && Holds(d, Lo(m), Hi(m), m) && Carries(c, source, m)
    ensures FragmentIs(d, source, j)
  {
    hide Off, Rejected;
    OffMonotone(c.fs, Lo(m), j);
    OffMonotone(c.fs, j + 1, Hi(m));
  }

  /** Whatever the order, the duplicates and the overlaps: every received fragment holds the
      source's bytes, and the fragments received are the ones that messages have named. */
  lemma {:induction false} RunAgrees(states: seq<Change>, missing: seq<set<nat>>, ms: seq<Submessage>,
    source: seq<Byte>)
    requires Run(states, missing, ms) && missing[0] == AllBelow(states[0].count)
    requires |source| == states[0].length
    requires forall i :: 0 <= i < |ms| ==> Carries(states[0], source, ms[i])
    ensures AgreesWith(states[|ms|], missing[|ms|], source) && SameShape(states[0], states[|ms|])
    ensures forall j: nat :: j < states[0].count ==> (j !in missing[|ms|] <==> Covered(states[0].count, ms, j))
    decreases |ms|
  {
    hide AgreesWith, Carries, Sized, Received, Rejected;
    var n := |ms|;
    if n == 0 {
      NothingReceived(states[0], missing[0], source);
    } else {
      assert Received(states[n - 1], missing[n - 1], ms[n - 1], states[n], missing[n]);
      RunListed(states, missing, ms, n - 1);
      RunAgrees(states[..n], missing[..n], ms[..n - 1], source);
      ShapeDecides(states[0], states[n - 1], ms[n - 1], source);
      ReceivedAgrees(states[n - 1], missing[n - 1], ms[n - 1], states[n], missing[n], source);
      var count := states[0].count;
      forall j: nat
        ensures Covered(count, ms, j) <==> Covered(count, ms[..n - 1], j) || Names(ms[n - 1], count, j)
      {
        CoveredByLast(count, ms, j);
      }
    }
  }

  lemma NothingReceived(c: Change, missing: set<nat>, source: seq<Byte>)
    requires missing == AllBelow(c.count)
    ensures AgreesWith(c, missing, source)
  {
  }

  lemma ShapeDecides(c: Change, d: Change, m: Submessage, source: seq<Byte>)
    requires SameGeometry(c, d)
    ensures Rejected(c, m) == Rejected(d, m) && Carries(c, source, m) == Carries(d, source, m)
  {
    hide Off, IsSlice;
  }

  lemma CoveredByLast(count: nat, ms: seq<Submessage>, j: nat)
    requires 0 < |ms|
    ensures Covered(count, ms, j) <==> Covered(count, ms[..|ms| - 1], j) || Names(ms[|ms| - 1], count, j)
  {
    hide Names;
    var front := ms[..|ms| - 1];
    if Covered(count, front, j) {
      var i :| 0 <= i < |front| && Names(front[i], count, j);
      assert ms[i] == front[i];
    }
    if Covered(count, ms, j) {
      var i :| 0 <= i < |ms| && Names(ms[i], count, j);
      assert i < |front| ==> front[i] == ms[i];
    }
  }

  /** `isFullyAssembled` holds exactly when every fragment has been named by some message, and
      then the payload is the source, byte for byte. */
  lemma {:induction false} FullMeansSource(states: seq<Change>, missing: seq<set<nat>>, ms: seq<Submessage>,
    source: seq<Byte>)
    requires Run(states, missing, ms) && missing[0] == AllBelow(states[0].count)
    requires |source| == states[0].length
    requires 0 < states[0].fs && states[0].count == CountFor(states[0].length, states[0].fs)
    requires forall i :: 0 <= i < |ms| ==> Carries(states[0], source, ms[i])
    ensures var last := states[|ms|];
      && (FullyAssembled(last) <==> forall j: nat :: j < last.count ==> Covered(last.count, ms, j))
      && (FullyAssembled(last) ==> last.length <= |last.buf| && last.buf[..last.length] == source)
  {
    hide Sized, Off, Carries, AgreesWith, Received, Covered;
    RunAgrees(states, missing, ms, source);
    var last := states[|ms|];
    RunListed(states, missing, ms, |ms|);
    FullyAssembledIff(last, missing[|ms|]);
    if FullyAssembled(last) {
      CeilingBounds(last.length, last.fs);
      OffBase(last.fs);
      EveryByteHasFragment(last, source);
    }
  }

  /** A message that carries its slice of the source has the bytes that are copied. */
  lemma CarriesEnough(c: Change, missing: set<nat>, source: seq<Byte>, m: Submessage)
    requires Sized(c) && |source| == c.length && Carries(c, source, m) && Brings(c, missing, m)
    ensures Length32(c, m) <= |m.data|
  {
    hide Off;
    MeetsSpans(missing, Lo(m), Hi(m));
    RangeIsExact(c, m);
    hide Rejected, EndOf, Length32, Offset32;
    var from, to := Off(c.fs, Lo(m)), EndOf(c, Hi(m) - 1);
    assert IsSlice(m.data, source, from, to);
    if 0 < Length32(c, m) {
      var last := source[to - 1];
    }
  }

  /** The geometry of a payload of that length, for what a message means. */
  function Sent(length: UInt32, size: nat): Change
    requires 0 < size < 0x1_0000
  {
    Change([], length, size, Count32(length, size), 0)
  }

  lemma RunBegins(c: Change, missing: set<nat>)
    requires Listed(c, missing)
    ensures Run([c], [missing], [])
  {
  }

  lemma RunExtends(states: seq<Change>, missing: seq<set<nat>>, ms: seq<Submessage>, m: Submessage, c: Change,
    left: set<nat>)
    requires Run(states, missing, ms) && Received(states[|ms|], missing[|ms|], m, c, left)
    ensures Run(states + [c], missing + [left], ms + [m])
    ensures SameShape(states[|ms|], c)
  {
    hide Listed, Brings, Without, Holds, SameFragment;
  }

  /** A receiver at work, from the fragment size to the last of any submessages cut from one
      source: it reports completion exactly when they have covered every fragment, and then
      has the source. */
  method Assemble(change: CacheChange, size: nat, ms: seq<Submessage>, ghost source: seq<Byte>) returns (full: bool)
    requires change.Valid() && 0 < size < 0x1_0000 && |source| == change.length
    requires var n := CountFor(change.length, size);
      && change.length + size - 1 < TWO32 && SlotsFit(size, n)
      && (0 < n ==> Slot(size, n - 1) + 4 <= change.data.Length)
    requires forall m :: m in ms ==> Carries(Sent(change.length, size), source, m)
    modifies change, change.data
    ensures change.Valid() && change.length == old(change.length)
    ensures change.fragmentCount == CountFor(change.length, size)
    ensures full <==> forall j: nat :: j < change.fragmentCount ==> Covered(change.fragmentCount, ms, j)
    ensures full ==> change.data[..change.length] == source
  {
    hide Listed, Off, SlotsFit, Slot, Received, Run, Carries, Covered, Rejected, Sized, Brings;
    ghost var sent := Sent(change.length, size);
    change.SetFragmentSize(size, true);
    CountIsExactIff(change.length, size);
    ghost var states, missing := [change.Now()], [change.missing];
    RunBegins(change.Now(), change.missing);
    assert ms[..0] == [];
    for i := 0 to |ms|
      invariant change.Valid() && change.length == sent.length && SameGeometry(sent, change.Now())
      invariant |states| == |missing| == i + 1 && Run(states, missing, ms[..i])
      invariant SameGeometry(sent, states[0]) && missing[0] == AllBelow(sent.count)
      invariant states[i] == change.Now() && missing[i] == change.missing
    {
      RunListed(states, missing, ms[..i], i);
      ListedIsSized(change.Now(), change.missing);
      ShapeDecides(sent, change.Now(), ms[i], source);
      if Brings(change.Now(), change.missing, ms[i]) {
        CarriesEnough(change.Now(), change.missing, source, ms[i]);
      }
      var _ := change.AddFragments(ms[i]);
      RunExtends(states, missing, ms[..i], ms[i], change.Now(), change.missing);
      assert ms[..i] + [ms[i]] == ms[..i + 1];
      states, missing := states + [change.Now()], missing + [change.missing];
    }
    assert ms[..|ms|] == ms;
    full := change.IsFullyAssembled();
    forall i | 0 <= i < |ms| ensures Carries(states[0], source, ms[i]) {
      ShapeDecides(sent, states[0], ms[i], source);
    }
    FullMeansSource(states, missing, ms, source);
  }

  lemma EveryByteHasFragment(c: Change, source: seq<Byte>)
    requires Sized(c) && AgreesWith(c, {}, source) && |source| == c.length && (c.count == 0 ==> c.length == 0)
    ensures c.length <= |c.buf| && c.buf[..c.length] == source
  {
    hide Off, Slot, SlotsFit, AgreesWith;
    forall k | 0 <= k < c.length ensures c.buf[k] == source[k] {
      var j := FragmentOf(c, k, c.count);
      assert FragmentIs(c, source, j) by {
        AgreesAt(c, source, j);
      }
    }
  }

  lemma AgreesAt(c: Change, source: seq<Byte>, j: nat)
    requires AgreesWith(c, {}, source) && j < c.count
    ensures FragmentIs(c, source, j)
  {
  }

  lemma {:induction false} FragmentOf(c: Change, k: nat, n: nat) returns (j: nat)
    requires k < Off(c.fs, n) && k < c.length && n <= c.count
    ensures j < n && Off(c.fs, j) <= k < EndOf(c, j)
  {
    hide Off;
    OffBase(c.fs);
    if Off(c.fs, n - 1) <= k {
      j := n - 1;
    } else {
      j := FragmentOf(c, k, n - 1);
    }
  }

  // ----- the walk along the list

  /** Following the link of a missing fragment: the next missing one, and when that is the
      first past `last`, the least missing one from `last` on. */
  lemma NextStep(c: Change, missing: set<nat>, i: nat, last: nat)
    requires Listed(c, missing) && i in missing && i < last <= c.count
    ensures Slot(c.fs, i) + 4 <= |c.buf| && i < Link(c, i) <= c.count
    ensures Link(c, i) == NextIn(missing, i + 1, c.count)
    ensures forall j :: i < j < Link(c, i) ==> j !in missing
    ensures Link(c, i) < c.count ==> Link(c, i) in missing
    ensures last <= Link(c, i) ==> Link(c, i) == NextIn(missing, last, c.count)
  {
    hide Sized, Off, Slot, Link, NextIn;
    assert Linked(c, missing, i);
    if last <= Link(c, i) {
      NextInIs(missing, last, c.count, Link(c, i));
    }
  }

  lemma FirstIsMissing(c: Change, missing: set<nat>)
    requires Listed(c, missing) || (missing == {} && c.first == c.count)
    ensures c.first < c.count ==> Listed(c, missing) && c.first in missing
    ensures c.first <= c.count
  {
  }

  lemma FirstMeets(c: Change, missing: set<nat>, lo: nat, hi: nat)
    requires Listed(c, missing) || (missing == {} && c.first == c.count)
    requires lo < c.count && hi <= c.count
    ensures c.first < c.count ==> Listed(c, missing) && c.first in missing
    ensures c.first <= c.count
    ensures lo <= c.first ==> (c.first < hi <==> Meets(missing, lo, hi))
  {
    hide Sized, Off, Slot, Link;
    if lo <= c.first < hi {
      assert c.first in missing;
    }
  }

  lemma MiddleMeets(missing: set<nat>, before: nat, lo: nat, hi: nat, next: nat, n: nat)
    requires before < lo <= next <= n && hi <= n && next == NextIn(missing, before + 1, n)
    ensures next < hi <==> Meets(missing, lo, hi)
  {
  }

  lemma UnlinkedOthers(c: Change, missing: set<nat>, lo: nat, hi: nat, before: nat, next: UInt32)
    requires Listed(c, missing) && before in missing && before < lo && Slot(c.fs, before) + 4 <= |c.buf|
    ensures forall j: nat :: j < c.count && j !in Without(missing, lo, hi) ==>
      SameFragment(c, WithLink(c, before, next), j)
  {
    hide Sized, Off, Slot, SameFragment, WithLink;
    forall j: nat | j < c.count && j !in Without(missing, lo, hi)
      ensures SameFragment(c, WithLink(c, before, next), j)
    {
      StaysMissing(missing, lo, hi, before);
      WithLinkKeepsOthers(c, before, next, j);
    }
  }

  lemma StaysMissing(missing: set<nat>, lo: nat, hi: nat, i: nat)
    requires i in missing && i < lo
    ensures i in Without(missing, lo, hi)
  {
  }
}
