/** The list of missing fragments of a payload, threaded through the payload buffer: the link
    of a missing fragment is stored in that fragment's own bytes, which have not arrived. */
module FragmentLists {
  import opened MachineInts

  // ----- 32-bit words in a byte buffer (little-endian host)

  function Read32(buf: seq<Byte>, p: nat): UInt32
    requires p + 4 <= |buf|
  {
    var b0: int, b1: int, b2: int, b3: int := buf[p], buf[p + 1], buf[p + 2], buf[p + 3];
    b0 + 0x100 * b1 + 0x1_0000 * b2 + 0x100_0000 * b3
  }

  function Bytes32(v: UInt32): (r: seq<Byte>)
    ensures |r| == 4
  {
    [v % 0x100, v / 0x100 % 0x100, v / 0x1_0000 % 0x100, v / 0x100_0000]
  }

  /** `memcpy` of `data` to offset p. */
  function Overwrite(buf: seq<Byte>, p: nat, data: seq<Byte>): (r: seq<Byte>)
    requires p + |data| <= |buf|
    ensures |r| == |buf|
    ensures forall k :: 0 <= k < |buf| ==> r[k] == if p <= k < p + |data| then data[k - p] else buf[k]
  {
    buf[..p] + data + buf[p + |data|..]
  }

  lemma ReadOwnWrite(buf: seq<Byte>, p: nat, v: UInt32)
    requires p + 4 <= |buf|
    ensures Read32(Overwrite(buf, p, Bytes32(v)), p) == v
  {
    var r := Overwrite(buf, p, Bytes32(v));
    assert r[p] == v % 0x100 && r[p + 1] == v / 0x100 % 0x100;
    assert r[p + 2] == v / 0x1_0000 % 0x100 && r[p + 3] == v / 0x100_0000;
    assert v / 0x1_0000 == v / 0x100 / 0x100 && v / 0x100_0000 == v / 0x1_0000 / 0x100;
  }

  lemma ReadElsewhere(buf: seq<Byte>, p: nat, data: seq<Byte>, q: nat)
    requires p + |data| <= |buf| && q + 4 <= |buf|
    requires q + 4 <= p || p + |data| <= q
    ensures Read32(Overwrite(buf, p, data), q) == Read32(buf, q)
  {
  }

  // ----- where fragments and links lie

  /** The offset of fragment i: one fragment size for each fragment before it. */
  function Off(fs: nat, i: nat): nat {
    if i == 0 then 0 else Off(fs, i - 1) + fs
  }

  /** The code multiplies. */
  lemma {:induction false} OffIsProduct(fs: nat, i: nat)
    ensures Off(fs, i) == fs * i
  {
    if 0 < i {
      OffIsProduct(fs, i - 1);
      assert fs * i == fs * (i - 1) + fs;
    }
  }

  lemma OffStep(fs: nat, i: nat)
    ensures Off(fs, i + 1) == Off(fs, i) + fs
  {
  }

  lemma OffMonotone(fs: nat, i: nat, j: nat)
    requires i <= j
    ensures Off(fs, i) <= Off(fs, j)
    ensures i < j ==> Off(fs, i) + fs <= Off(fs, j)
  {
    OffSplit(fs, i, j - i);
    if i < j {
      OffSplit(fs, i + 1, j - i - 1);
      OffStep(fs, i);
    }
  }

  lemma {:induction false} OffSplit(fs: nat, i: nat, d: nat)
    ensures Off(fs, i + d) == Off(fs, i) + Off(fs, d)
    decreases d
  {
    if 0 < d {
      OffSplit(fs, i, d - 1);
    }
  }

  /** The link offset: `(offset + 3) & ~3`, the fragment offset rounded up to a multiple of 4.
      (The complement is missing where the source writes it.) */
  function Slot(fs: nat, i: nat): nat {
    (Off(fs, i) + 3) / 4 * 4
  }

  lemma SlotIsAligned(fs: nat, i: nat)
    ensures Slot(fs, i) % 4 == 0 && Off(fs, i) <= Slot(fs, i) < Off(fs, i) + 4
  {
    hide Off;
  }

  /** Every link but the last lies inside its own fragment. */
  ghost predicate SlotsFit(fs: nat, count: nat) {
    forall i: nat {:trigger Slot(fs, i)} :: i + 1 < count ==> Slot(fs, i) + 4 <= Off(fs, i + 1)
  }

  /** When that is: fragments of 4, or of at least 6 bytes, always do; 5 bytes do until the
      second link would need bytes of the third fragment. */
  lemma SlotsFitIff(fs: nat, count: nat)
    ensures SlotsFit(fs, count) <==> count <= 1 || (fs == 5 && count == 2) || fs == 4 || fs >= 6
  {
    hide Off;
    OffBase(fs);
    if fs == 4 || fs >= 6 {
      LargeSlotsFit(fs, count);
    } else if fs < 4 {
      assert Slot(fs, 0) + 4 > Off(fs, 0 + 1);
    } else {
      assert Slot(fs, 1) + 4 > Off(fs, 1 + 1);
    }
  }

  lemma LargeSlotsFit(fs: nat, count: nat)
    requires fs == 4 || fs >= 6
    ensures SlotsFit(fs, count)
  {
    hide Off, Slot;
    forall i: nat {:trigger Slot(fs, i)} | i + 1 < count ensures Slot(fs, i) + 4 <= Off(fs, i + 1) {
      LargeSlotFits(fs, i);
    }
  }

  lemma LargeSlotFits(fs: nat, i: nat)
    requires fs == 4 || fs >= 6
    ensures Slot(fs, i) + 4 <= Off(fs, i + 1)
  {
    OffStep(fs, i);
    hide Off;
    if fs == 4 {
      OffOfFour(i);
    } else if fs == 6 {
      OffOfSix(i);
    }
  }

  lemma NoWidth(i: nat)
    ensures Off(0, i) == 0
  {
    OffIsProduct(0, i);
  }

  lemma OffBase(fs: nat)
    ensures Off(fs, 0) == 0 && Off(fs, 1) == fs && Off(fs, 2) == 2 * fs
  {
  }

  lemma {:induction false} OffOfFour(i: nat)
    ensures Off(4, i) == 4 * i
  {
    if 0 < i {
      OffOfFour(i - 1);
    }
  }

  lemma {:induction false} OffOfSix(i: nat)
    ensures Off(6, i) == 6 * i
  {
    if 0 < i {
      OffOfSix(i - 1);
    }
  }

  // ----- the list

  /** The received state of one cache change: the payload buffer and the fragment fields. */
  datatype Change = Change(buf: seq<Byte>, length: UInt32, fs: nat, count: UInt32, first: UInt32)

  /** The least member of `missing` from i on, or n when there is none. */
  ghost function NextIn(missing: set<nat>, i: nat, n: nat): (r: nat)
    requires i <= n
    ensures i <= r <= n
    ensures r < n ==> r in missing
    ensures forall j :: i <= j < r ==> j !in missing
    decreases n - i
  {
    if i == n || i in missing then i else NextIn(missing, i + 1, n)
  }

  lemma NextInIs(missing: set<nat>, i: nat, n: nat, r: nat)
    requires i <= r <= n && (r < n ==> r in missing)
    requires forall j :: i <= j < r ==> j !in missing
    ensures NextIn(missing, i, n) == r
  {
  }

  function CountFor(length: nat, fs: nat): nat
    requires 0 < fs
  {
    (length + fs - 1) / fs
  }

  /** The geometry that `setFragmentSize` establishes and nothing changes afterwards, when the
      fragments hold their links. */
  ghost predicate Sized(c: Change) {
    Laid(c) && SlotsFit(c.fs, c.count)
  }

  /** The same for any fragment size. */
  ghost predicate Laid(c: Change) {
    && c.length <= |c.buf|
    && (c.fs == 0 ==> c.count == 0)
    && (0 < c.count ==> Off(c.fs, c.count - 1) < c.length <= Off(c.fs, c.count))
    && (0 < c.count ==> Slot(c.fs, c.count - 1) + 4 <= |c.buf|)
    && Off(c.fs, c.count) < TWO32
  }

  function Link(c: Change, i: nat): UInt32
    requires Slot(c.fs, i) + 4 <= |c.buf|
  {
    Read32(c.buf, Slot(c.fs, i))
  }

  /** The chain from `first` visits exactly `missing`, in increasing order, and ends at
      `count`. */
  ghost predicate Listed(c: Change, missing: set<nat>) {
    && Sized(c)
    && (forall i :: i in missing ==> i < c.count)
    && c.first == NextIn(missing, 0, c.count)
    && (forall i {:trigger Linked(c, missing, i)} :: i in missing ==> Linked(c, missing, i))
  }

  /** The link of fragment i leads to the next missing one. */
  ghost predicate Linked(c: Change, missing: set<nat>, i: nat) {
    i < c.count && LinkIs(c, i, NextIn(missing, i + 1, c.count))
  }

  ghost predicate LinkIs(c: Change, i: nat, next: nat) {
    Slot(c.fs, i) + 4 <= |c.buf| && Link(c, i) == next
  }

  /** `isFullyAssembled` */
  predicate FullyAssembled(c: Change) {
    c.first >= c.count
  }

  lemma FullyAssembledIff(c: Change, missing: set<nat>)
    requires Listed(c, missing)
    ensures FullyAssembled(c) <==> missing == {}
  {
    if missing != {} {
      var i :| i in missing;
      assert c.first <= i;
    }
  }

  /** The chain as the code walks it. */
  ghost function Chain(c: Change, missing: set<nat>, from: nat): seq<nat>
    requires Listed(c, missing) && (from == c.count || from in missing)
    decreases c.count - from
  {
    if from == c.count then [] else
      assert Linked(c, missing, from);
      [from] + Chain(c, missing, Link(c, from))
  }

  lemma ConsAscending(x: nat, rest: seq<nat>, missing: set<nat>, next: nat)
    requires x < next && x in missing
    requires forall j :: x < j < next ==> j !in missing
    requires forall m :: m in rest <==> m in missing && next <= m
    requires forall i, j :: 0 <= i < j < |rest| ==> rest[i] < rest[j]
    ensures forall m :: m in [x] + rest <==> m in missing && x <= m
    ensures forall i, j :: 0 <= i < j < |[x] + rest| ==> ([x] + rest)[i] < ([x] + rest)[j]
  {
    var all := [x] + rest;
    forall i, j | 0 <= i < j < |all| ensures all[i] < all[j] {
      assert all[j] == rest[j - 1] && rest[j - 1] in rest;
    }
    forall m ensures m in all <==> m in missing && x <= m {
      assert m in all <==> m == x || m in rest;
    }
  }

  lemma {:induction false} ChainVisitsMissing(c: Change, missing: set<nat>, from: nat)
    requires Listed(c, missing) && (from == c.count || from in missing)
    ensures forall m :: m in Chain(c, missing, from) <==> m in missing && from <= m
    ensures forall i, j :: 0 <= i < j < |Chain(c, missing, from)| ==>
      Chain(c, missing, from)[i] < Chain(c, missing, from)[j]
    decreases c.count - from
  {
    if from < c.count {
      assert Linked(c, missing, from);
      var next := Link(c, from);
      ChainVisitsMissing(c, missing, next);
      ConsAscending(from, Chain(c, missing, next), missing, next);
    } else {
      assert forall m :: m in missing ==> m < c.count;
    }
  }

  /** From `first`, the walk visits all missing fragments. */
  lemma ChainFromFirst(c: Change, missing: set<nat>)
    requires Listed(c, missing)
    ensures c.first == c.count || c.first in missing
    ensures forall m :: m in Chain(c, missing, c.first) <==> m in missing
  {
    ChainVisitsMissing(c, missing, c.first);
  }

  /** The end of fragment i's bytes in the payload. */
  function EndOf(c: Change, i: nat): nat {
    if Off(c.fs, i + 1) < c.length then Off(c.fs, i + 1) else c.length
  }

  /** Where links and fragments lie relative to each other. */
  lemma SlotBounds(c: Change, i: nat)
    requires Sized(c) && i < c.count
    ensures Off(c.fs, i) <= Slot(c.fs, i) && Slot(c.fs, i) + 4 <= |c.buf|
    ensures i + 1 < c.count ==> Slot(c.fs, i) + 4 <= Off(c.fs, i + 1)
    ensures Off(c.fs, i) < c.length
  {
    hide Off;
    OffMonotone(c.fs, i, c.count - 1);
    if i + 1 < c.count {
      OffMonotone(c.fs, i + 1, c.count - 1);
    }
  }

  /** A link never shares a byte with another fragment. */
  lemma SlotMissesOthers(c: Change, i: nat, j: nat)
    requires Sized(c) && i < c.count && j < c.count && i != j
    ensures Slot(c.fs, i) + 4 <= Off(c.fs, j) || EndOf(c, j) <= Slot(c.fs, i)
  {
    hide Off;
    SlotBounds(c, i);
    if i < j {
      OffMonotone(c.fs, i + 1, j);
    } else {
      OffMonotone(c.fs, j + 1, i);
    }
  }

  ghost predicate Apart(c: Change, i: nat, j: nat) {
    Slot(c.fs, i) + 4 <= Off(c.fs, j) || EndOf(c, j) <= Slot(c.fs, i)
  }

  /** The links of missing fragments keep off the bytes of all other fragments if and only if
      every link but the last fits in its fragment. */
  lemma {:induction false} LinksKeepApartIff(c: Change)
    requires 0 < c.count ==> Off(c.fs, c.count - 1) < c.length <= Off(c.fs, c.count)
    ensures SlotsFit(c.fs, c.count) <==>
      forall i: nat, j: nat :: i < c.count && j < c.count && i != j ==> Apart(c, i, j)
  {
    hide Off, SlotsFit, Apart;
    if SlotsFit(c.fs, c.count) {
      forall i: nat, j: nat | i < c.count && j < c.count && i != j ensures Apart(c, i, j) {
        FittingSlotsApart(c, i, j);
      }
    } else {
      SmallSlotsCross(c);
    }
  }

  lemma SmallSlotsCross(c: Change)
    requires 0 < c.count ==> Off(c.fs, c.count - 1) < c.length <= Off(c.fs, c.count)
    requires !SlotsFit(c.fs, c.count)
    ensures 1 < c.count && (!Apart(c, 0, 1) || (2 < c.count && !Apart(c, 1, 2)))
  {
    hide Off, SlotsFit, Apart;
    SlotsFitIff(c.fs, c.count);
    if c.fs < 4 {
      FirstSlotCrosses(c);
    } else {
      SecondSlotCrosses(c);
    }
  }

  lemma FirstSlotCrosses(c: Change)
    requires 1 < c.count && c.fs < 4 && Off(c.fs, c.count - 1) < c.length <= Off(c.fs, c.count)
    ensures !Apart(c, 0, 1)
  {
    NoWidth(c.count);
    hide Off;
    OffBase(c.fs);
    OffMonotone(c.fs, 1, c.count - 1);
  }

  lemma SecondSlotCrosses(c: Change)
    requires 2 < c.count && c.fs == 5 && Off(c.fs, c.count - 1) < c.length
    ensures !Apart(c, 1, 2)
  {
    hide Off;
    OffBase(c.fs);
    OffStep(c.fs, 2);
    OffMonotone(c.fs, 2, c.count - 1);
  }

  lemma FittingSlotsApart(c: Change, i: nat, j: nat)
    requires SlotsFit(c.fs, c.count) && i < c.count && j < c.count && i != j
    ensures Apart(c, i, j)
  {
    hide Off;
    if i < j {
      OffMonotone(c.fs, i + 1, j);
    } else {
      OffMonotone(c.fs, j + 1, i);
    }
  }

  lemma SlotsDisjoint(c: Change, i: nat, j: nat)
    requires Sized(c) && i < j < c.count
    ensures Slot(c.fs, i) + 4 <= Slot(c.fs, j)
  {
    hide Off;
    SlotBounds(c, i);
    SlotBounds(c, j);
    OffMonotone(c.fs, i + 1, j);
  }

  // ----- writing one link

  function WithLink(c: Change, i: nat, next: UInt32): Change
    requires Slot(c.fs, i) + 4 <= |c.buf|
  {
    c.(buf := Overwrite(c.buf, Slot(c.fs, i), Bytes32(next)))
  }

  lemma WithLinkReads(c: Change, i: nat, next: UInt32, j: nat)
    requires Sized(c) && i < c.count && j < c.count && Slot(c.fs, i) + 4 <= |c.buf| && Slot(c.fs, j) + 4 <= |c.buf|
    ensures Link(WithLink(c, i, next), j) == if j == i then next else Link(c, j)
  {
    hide Off, Slot, Read32, Bytes32;
    if i == j {
      ReadOwnWrite(c.buf, Slot(c.fs, i), next);
    } else {
      if i < j {
        SlotsDisjoint(c, i, j);
      } else {
        SlotsDisjoint(c, j, i);
      }
      ReadElsewhere(c.buf, Slot(c.fs, i), Bytes32(next), Slot(c.fs, j));
    }
  }

  /** A link write in a missing fragment leaves the bytes of every other fragment alone. */
  lemma WithLinkKeepsOthers(c: Change, i: nat, next: UInt32, j: nat)
    requires Sized(c) && i < c.count && j < c.count && i != j && Slot(c.fs, i) + 4 <= |c.buf|
    ensures SameFragment(c, WithLink(c, i, next), j)
  {
    hide Off, Slot, Sized;
    SlotMissesOthers(c, i, j);
  }

  /** Fragment j has the same bytes in both buffers. */
  ghost predicate SameFragment(c: Change, d: Change, j: nat) {
    forall k :: Off(c.fs, j) <= k < EndOf(c, j) && k < |c.buf| && k < |d.buf| ==> d.buf[k] == c.buf[k]
  }

  // ----- unlinking a range that has arrived

  ghost function Without(missing: set<nat>, lo: nat, hi: nat): set<nat> {
    set j | j in missing && !(lo <= j < hi)
  }

  ghost predicate Meets(missing: set<nat>, lo: nat, hi: nat) {
    exists j :: j in missing && lo <= j < hi
  }

  /** Beyond the range, or with nothing of it in between, the next missing one is as before. */
  lemma NextKept(missing: set<nat>, lo: nat, hi: nat, i: nat, n: nat)
    requires i <= n && (hi <= i || NextIn(missing, i, n) < lo)
    ensures NextIn(Without(missing, lo, hi), i, n) == NextIn(missing, i, n)
  {
    hide NextIn;
    NextInIs(Without(missing, lo, hi), i, n, NextIn(missing, i, n));
  }

  /** When the next missing one is in the range or past it, the range is skipped. */
  lemma NextSkips(missing: set<nat>, lo: nat, hi: nat, i: nat, n: nat)
    requires i <= n && hi <= n && lo <= NextIn(missing, i, n)
    ensures var at := NextIn(missing, i, n);
      NextIn(Without(missing, lo, hi), i, n) == NextIn(missing, if at < hi then hi else at, n)
  {
    hide NextIn;
    var at := NextIn(missing, i, n);
    NextInIs(Without(missing, lo, hi), i, n, NextIn(missing, if at < hi then hi else at, n));
  }

  /** Nothing missing before `lo`: only `first` has to move. */
  lemma UnlinkFront(c: Change, missing: set<nat>, lo: nat, hi: nat)
    requires Listed(c, missing) && lo <= c.first && hi <= c.count
    ensures var first := NextIn(missing, if c.first < hi then hi else c.first, c.count);
      Listed(c.(first := first), Without(missing, lo, hi))
  {
    hide Sized, Off, Slot, Read32, SlotsFit, NextIn;
    var rest := Without(missing, lo, hi);
    RestIsBeyond(missing, lo, hi, c.count);
    hide Without, Link;
    var d := c.(first := NextIn(missing, if c.first < hi then hi else c.first, c.count));
    SizedOfFirst(c, d.first);
    NextSkips(missing, lo, hi, 0, c.count);
    forall i | i in rest ensures Linked(d, rest, i) {
      assert Linked(c, missing, i);
      NextKept(missing, lo, hi, i + 1, c.count);
      LinkOfFirst(c, d.first, i);
    }
  }

  lemma LinkOfFirst(c: Change, first: UInt32, i: nat)
    requires Slot(c.fs, i) + 4 <= |c.buf|
    ensures Link(c.(first := first), i) == Link(c, i)
  {
  }

  lemma RestIsBeyond(missing: set<nat>, lo: nat, hi: nat, n: nat)
    requires lo <= NextIn(missing, 0, n)
    ensures forall i :: i in Without(missing, lo, hi) ==> i in missing && hi <= i
  {
    hide NextIn;
  }

  lemma SizedOfFirst(c: Change, first: UInt32)
    requires Sized(c)
    ensures Sized(c.(first := first))
  {
  }

  /** `before` is the last missing fragment before the range: its link has to skip it. */
  lemma {:induction false} UnlinkMiddle(c: Change, missing: set<nat>, lo: nat, hi: nat, before: nat, next: UInt32)
    requires Listed(c, missing) && lo <= hi <= c.count && before in missing && before < lo
    requires var at := NextIn(missing, before + 1, c.count);
      lo <= at && next == NextIn(missing, if at < hi then hi else at, c.count)
    requires Slot(c.fs, before) + 4 <= |c.buf|
    ensures Listed(WithLink(c, before, next), Without(missing, lo, hi))
  {
    hide Sized, Off, Slot, Link, SlotsFit, NextIn;
    var rest := Without(missing, lo, hi);
    var d := WithLink(c, before, next);
    SizedOfBuffer(c, d.buf);
    NextKept(missing, lo, hi, 0, c.count);
    forall i | i in rest ensures Linked(d, rest, i) {
      assert Linked(c, missing, i);
      WithLinkReads(c, before, next, i);
      MiddleNext(missing, lo, hi, before, i, c.count);
    }
  }

  lemma MiddleNext(missing: set<nat>, lo: nat, hi: nat, before: nat, i: nat, n: nat)
    requires before in missing && before < lo <= hi <= n && i < n
    requires lo <= NextIn(missing, before + 1, n)
    requires i in Without(missing, lo, hi)
    ensures var at := NextIn(missing, before + 1, n);
      NextIn(Without(missing, lo, hi), i + 1, n) ==
        if i == before then NextIn(missing, if at < hi then hi else at, n) else NextIn(missing, i + 1, n)
  {
    hide NextIn;
    if i == before {
      NextSkips(missing, lo, hi, i + 1, n);
    } else {
      NextKept(missing, lo, hi, i + 1, n);
    }
  }

  lemma SizedOfBuffer(c: Change, buf: seq<Byte>)
    requires Sized(c) && |buf| == |c.buf|
    ensures Sized(c.(buf := buf))
  {
  }

  /** Copying the range's bytes in cannot reach the link of a fragment outside the range. */
  lemma {:induction false} CopyKeepsList(c: Change, missing: set<nat>, lo: nat, hi: nat, data: seq<Byte>)
    requires Listed(c, missing) && lo < hi <= c.count && !Meets(missing, lo, hi)
    requires Off(c.fs, lo) + |data| == EndOf(c, hi - 1)
    ensures Off(c.fs, lo) + |data| <= |c.buf|
    ensures Listed(c.(buf := Overwrite(c.buf, Off(c.fs, lo), data)), missing)
  {
    assert EndOf(c, hi - 1) <= |c.buf|;
    hide Off, Slot, SlotsFit, Read32, Meets, Sized, NextIn, Overwrite;
    var d := c.(buf := Overwrite(c.buf, Off(c.fs, lo), data));
    SizedOfBuffer(c, d.buf);
    forall i | i in missing ensures Linked(d, missing, i) {
      assert Linked(c, missing, i);
      NotInRange(missing, lo, hi, i);
      CopyKeepsLink(c, lo, hi, data, i);
    }
  }

  lemma CopyKeepsLink(c: Change, lo: nat, hi: nat, data: seq<Byte>, i: nat)
    requires Sized(c) && lo < hi <= c.count && i < c.count && (i < lo || hi <= i)
    requires Off(c.fs, lo) + |data| == EndOf(c, hi - 1) <= |c.buf|
    requires Slot(c.fs, i) + 4 <= |c.buf|
    ensures Link(c.(buf := Overwrite(c.buf, Off(c.fs, lo), data)), i) == Link(c, i)
  {
    hide Off, Slot, SlotsFit, Read32, Sized;
    SlotBounds(c, i);
    if i < lo {
      OffMonotone(c.fs, i + 1, lo);
    } else {
      OffMonotone(c.fs, hi, i);
    }
    ReadElsewhere(c.buf, Off(c.fs, lo), data, Slot(c.fs, i));
  }

  lemma NotInRange(missing: set<nat>, lo: nat, hi: nat, i: nat)
    requires !Meets(missing, lo, hi) && i in missing
    ensures i < lo || hi <= i
  {
  }
}
