/** The sliding-window bitmap `BitmapRange<T, Diff, NBITS>` as a set of integers. */
module BitmapRanges {
  import opened MachineInts
  import opened SlidingIndex
  import opened WordBits
  import opened BitWindows

  function KeptWord(source: seq<Word>, n: nat, items: nat, m: nat): Word
    requires items <= |source|
  {
    if m >= items then 0
    else if m == items - 1 && n % 32 != 0 then And(source[m], Not(Shr(FULL_MASK, n % 32)))
    else source[m]
  }

  /** The words after `setBitmap` has copied and masked: the kept bits and no others. */
  lemma KeptWords(source: seq<Word>, ws: seq<Word>, n: nat, items: nat)
    requires 0 < |ws| && items == ((if n < Width(ws) then n else Width(ws)) + 31) / 32 && items <= |source|
    requires forall m :: 0 <= m < |ws| ==> ws[m] == KeptWord(source, n, items, m)
    ensures forall k: nat :: k < Width(ws) ==> (BitAt(ws, k) <==> k < Kept(n, Width(ws)) && BitAt(source, k))
    ensures forall k: nat :: 32 * items <= k < Width(ws) ==> !BitAt(ws, k)
  {
    hide Bit, Shr, And, Not;
    forall k: nat | k < Width(ws)
      ensures BitAt(ws, k) <==> k < Kept(n, Width(ws)) && BitAt(source, k)
    {
      ZeroBit(k % 32);
      if k / 32 < items {
        HeadMaskBit(source[k / 32], n % 32, k % 32);
      }
    }
  }

  /** `NBITS` is the width of the word array, a multiple of 32. */
  class BitmapRange<T(!new, ==)> {
    const index: Index<T>
    const bitmap: array<Word>
    var base: T
    var rangeMax: T
    var numBits: nat

    ghost predicate Valid()
      reads this, bitmap
    {
      && Lawful(index)
      && 0 < bitmap.Length && Nbits() < TWO32
      && index.val(base) + Nbits() < index.top
      && index.val(base) <= index.val(rangeMax) < index.val(base) + Nbits()
      && Tight(bitmap[..], numBits)
    }

    function Nbits(): nat {
      32 * bitmap.Length
    }

    /** The absolute values of the set bits. */
    ghost function Items(): set<int>
      reads this, bitmap
    {
      Members(index.val(base), bitmap[..])
    }

    ghost predicate InWindow(item: T)
      reads this
    {
      index.val(base) <= index.val(item) <= index.val(rangeMax)
    }

    ghost predicate FullWindow()
      reads this
    {
      index.val(rangeMax) == index.val(base) + Nbits() - 1
    }

    constructor (index: Index<T>, nitems: nat, base: T, maxBits: UInt32)
      requires Lawful(index) && 0 < nitems && 32 * nitems < TWO32
      requires index.val(base) + 32 * nitems < index.top
      ensures Valid() && Items() == {} && this.base == base && this.index == index
      ensures Nbits() == 32 * nitems && fresh(bitmap)
      ensures index.val(rangeMax) == index.val(base) + if maxBits < 32 * nitems - 1 then maxBits else 32 * nitems - 1
    {
      this.index := index;
      this.base := base;
      bitmap := new Word[nitems](_ => 0);
      rangeMax := index.plus(base, if maxBits < 32 * nitems - 1 then maxBits else 32 * nitems - 1);
      numBits := 0;
      new;
      ZeroRow(bitmap[..], index.val(base));
    }

    /** `bitmap_.fill(0u)` */
    method Fill()
      modifies bitmap
      ensures AllZero(bitmap[..])
    {
      for i := 0 to bitmap.Length
        invariant AllZero(bitmap[..i])
      {
        bitmap[i] := 0;
      }
    }

    /** `base(base, max_bits)` */
    method Rebase(base: T, maxBits: UInt32)
      requires Valid() && index.val(base) + Nbits() < index.top
      modifies this, bitmap
      ensures Valid() && Items() == {} && this.base == base
      ensures index.val(rangeMax) == index.val(base) + if maxBits < Nbits() - 1 then maxBits else Nbits() - 1
    {
      this.base := base;
      rangeMax := index.plus(base, if maxBits < Nbits() - 1 then maxBits else Nbits() - 1);
      numBits := 0;
      Fill();
      ZeroRow(bitmap[..], index.val(base));
    }

    method Empty() returns (r: bool)
      requires Valid()
      ensures r <==> Items() == {}
    {
      TightIsMaximum(index.val(base), bitmap[..], numBits);
      r := numBits == 0;
    }

    method Max() returns (r: T)
      requires Valid() && Items() != {}
      ensures index.val(r) in Items()
      ensures forall v :: v in Items() ==> v <= index.val(r)
    {
      TightIsMaximum(index.val(base), bitmap[..], numBits);
      r := index.plus(base, numBits - 1);
    }

    /** The smallest member; `base` when there is none. */
    method Min() returns (r: T)
      requires Valid()
      ensures Items() == {} ==> r == base
      ensures Items() != {} ==> index.val(r) in Items() && forall v :: v in Items() ==> index.val(r) <= v
    {
      hide Bit, Lawful, BitAt, Tight, Members, ClearBefore;
      TightIsMaximum(index.val(base), bitmap[..], numBits);
      ClearAtStart(bitmap[..]);
      var item := base;
      var nLongs := (numBits + 31) / 32;
      TightFits(bitmap[..], numBits);
      for i := 0 to nLongs
        invariant index.val(item) == index.val(base) + 32 * i
        invariant ClearBefore(bitmap[..], 32 * i)
      {
        var bits := bitmap[i];
        if bits != 0 {
          var offset := Clz(bits);
          PlusLaw(index, item, offset);
          FirstOfWord(bitmap[..], i);
          FirstIsMinimum(index.val(base), bitmap[..], 32 * i + offset);
          return index.plus(item, offset);
        }
        ClearWord(bitmap[..], i);
        PlusLaw(index, item, 32);
        item := index.plus(item, 32);
      }
      NoBitIsEmpty(bitmap[..], numBits, 32 * nLongs);
      return base;
    }

    /** `for_each(f)`: the items in the order in which `f` is applied to them. */
    method ForEach() returns (visited: seq<T>)
      requires Valid()
      ensures forall i, j :: 0 <= i < j < |visited| ==> index.val(visited[i]) < index.val(visited[j])
      ensures forall v :: v in Items() <==> exists i :: 0 <= i < |visited| && index.val(visited[i]) == v
    {
      hide Lawful, Bit, Mask;
      ghost var b, ws := index.val(base), bitmap[..];
      visited := [];
      var item := base;
      var nLongs := (numBits + 31) / 32;
      for i := 0 to nLongs
        invariant nLongs <= bitmap.Length
        invariant index.val(item) == b + 32 * i
        invariant VisitedUpTo(b, ws, Vals(visited), 32 * i)
      {
        visited := VisitWord(item, bitmap[i], i, visited);
        PlusLaw(index, item, 32);
        item := index.plus(item, 32);
      }
      VisitedAll(b, ws, Vals(visited), 32 * nLongs, numBits);
      ghost var vals := Vals(visited);
      assert forall i :: 0 <= i < |visited| ==> vals[i] == index.val(visited[i]);
    }

    ghost function Vals(items: seq<T>): seq<int> {
      seq(|items|, i requires 0 <= i < |items| => index.val(items[i]))
    }

    /** The inner loop of `for_each`, on one word. */
    method VisitWord(item: T, w: Word, ghost i: nat, before: seq<T>) returns (visited: seq<T>)
      requires Valid() && i < bitmap.Length && w == bitmap[i]
      requires index.val(item) == index.val(base) + 32 * i
      requires VisitedUpTo(index.val(base), bitmap[..], Vals(before), 32 * i)
      ensures VisitedUpTo(index.val(base), bitmap[..], Vals(visited), 32 * i + 32)
    {
      hide Lawful, Bit, Mask, And, Not, VisitedUpTo;
      visited := before;
      var bits := w;
      ghost var next: nat := 0;
      ghost var b, ws := index.val(base), bitmap[..];
      while bits != 0
        invariant next <= 32
        invariant forall j: nat :: j < 32 ==> (Bit(bits, j) <==> next <= j && Bit(w, j))
        invariant VisitedUpTo(b, ws, Vals(visited), 32 * i + next)
        decreases 32 - next
      {
        var offset := Clz(bits);
        assert next <= offset;
        VisitNext(b, ws, Vals(visited), i, next, offset);
        PlusLaw(index, item, offset);
        assert Vals(visited + [index.plus(item, offset)]) == Vals(visited) + [b + 32 * i + offset];
        visited := visited + [index.plus(item, offset)];
        ghost var was := bits;
        bits := And(bits, Not(Mask(offset)));
        forall j: nat | j < 32 ensures Bit(bits, j) <==> offset < j && Bit(w, j) {
          AndBit(was, Not(Mask(offset)), j);
          NotBit(Mask(offset), j);
          MaskBit(offset, j);
        }
        next := offset + 1;
      }
      forall j: nat | next <= j < 32 ensures !Bit(w, j) {
        ZeroBit(j);
      }
      VisitRest(b, ws, Vals(visited), i, next);
    }

    method GetBitmap() returns (n: nat, words: seq<Word>, longsUsed: nat)
      requires Valid()
      ensures words == bitmap[..] && n == numBits
      ensures longsUsed <= |words| && AllZero(words[longsUsed..])
      ensures 0 < longsUsed ==> words[longsUsed - 1] != 0
    {
      hide Selects;
      n := numBits;
      longsUsed := (numBits + 31) / 32;
      words := bitmap[..];
      UsedWords(words, n);
    }

    /** `setBitmap(num_bits, bitmap)`, reading as many words as the bits need.  How many bits
        it keeps is `Kept`. */
    method SetBitmap(n: UInt32, source: seq<Word>)
      requires Valid() && (if n < Nbits() then n else Nbits()) <= Width(source)
      modifies `numBits, bitmap
      ensures Valid()
      ensures forall k: nat :: k < Nbits() ==> (BitAt(bitmap[..], k) <==> k < Kept(n, Nbits()) && Supplied(source, k))
    {
      hide Bit, Shr, And, Not;
      numBits := if n < Nbits() then n else Nbits();
      var numItems := (numBits + 31) / 32;
      Fill();
      for i := 0 to numItems
        invariant numItems <= bitmap.Length && numItems <= |source|
        invariant forall m :: 0 <= m < bitmap.Length ==> bitmap[m] == if m < i then source[m] else 0
      {
        bitmap[i] := source[i];
      }
      var shift := n % 32;
      if 0 < n && shift != 0 {
        bitmap[numItems - 1] := And(bitmap[numItems - 1], Not(Shr(FULL_MASK, shift)));
      }
      KeptWords(source, bitmap[..], n, numItems);
      CalcMaximumBitSet(numItems);
    }

    method IsSet(item: T) returns (r: bool)
      requires Valid()
      ensures r <==> index.val(item) in Items() && index.val(item) <= index.val(rangeMax)
    {
      hide Bit, Mask, Lawful;
      Laws(index, item, base);
      Laws(index, rangeMax, item);
      var k := index.val(item) - index.val(base);
      if index.atLeast(item, base) && index.atLeast(rangeMax, item) {
        var diff := index.diff(item, base);
        assert diff == k;
        assert index.val(item) in Items() <==> BitAt(bitmap[..], k);
        if diff < numBits {
          var pos := diff / 32;
          diff := diff % 32;
          return Bit(bitmap[pos], diff);
        }
      }
      return false;
    }

    method Add(item: T) returns (r: bool)
      requires Valid()
      modifies `numBits, bitmap
      ensures Valid()
      ensures r <==> InWindow(item)
      ensures Items() == old(Items()) + if r then {index.val(item)} else {}
    {
      hide Bit, Mask, Or, Lawful;
      Laws(index, item, base);
      Laws(index, rangeMax, item);
      if index.atLeast(item, base) && index.atLeast(rangeMax, item) {
        var diff := index.diff(item, base);
        WithBitAdds(index.val(base), bitmap[..], diff, numBits);
        ghost var ws := bitmap[..];
        numBits := if diff + 1 > numBits then diff + 1 else numBits;
        ghost var k := diff;
        var pos := diff / 32;
        diff := diff % 32;
        bitmap[pos] := Or(bitmap[pos], Mask(diff));
        assert bitmap[..] == WithBit(ws, k);
        return true;
      }
      return false;
    }

    /** The loop of `calc_maximum_bit_set` with lower word index 0. */
    method CalcMaximumBitSet(start: nat)
      requires start <= bitmap.Length
      requires forall k: nat :: 32 * start <= k < Nbits() ==> !BitAt(bitmap[..], k)
      modifies `numBits
      ensures Tight(bitmap[..], numBits)
    {
      hide Bit, LastBit;
      numBits := 0;
      var i := start;
      while i > 0
        invariant 0 <= i <= start && numBits == 0
        invariant forall k: nat :: 32 * i <= k < Nbits() ==> !BitAt(bitmap[..], k)
      {
        i := i - 1;
        var bits := bitmap[i];
        if bits != 0 {
          LastOfWord(bits);
          bits := LastBit(bits);
          var offset := Clz(bits) + 1;
          numBits := 32 * i + offset;
          assert BitAt(bitmap[..], numBits - 1);
          forall k: nat | numBits <= k < Nbits() ensures !BitAt(bitmap[..], k) {
            if k < 32 * (i + 1) {
              assert k / 32 == i && offset - 1 < k % 32;
            }
          }
          break;
        }
        forall k: nat | 32 * i <= k < 32 * (i + 1) ensures !BitAt(bitmap[..], k) {
          ZeroBit(k % 32);
        }
      }
    }

    /** On an empty bitmap the code's `max()` wraps; then nothing may change, which is so for
        the items of `EmptyRemoveIsSafe`, and the caller answers for that. */
    method Remove(item: T)
      requires Valid() && (Items() == {} ==> EmptyRemoveIsSafe(index, base, item, Nbits()))
      modifies `numBits, bitmap
      ensures Valid()
      ensures Items() == old(Items()) - {index.val(item)}
      ensures old(Items()) == {} ==> bitmap[..] == old(bitmap[..]) && numBits == old(numBits)
    {
      hide Bit, Lawful, Members, WithoutBit;
      TightIsMaximum(index.val(base), bitmap[..], numBits);
      MembersFromBase(index.val(base), bitmap[..]);
      assert numBits <= Nbits();
      hide Tight;
      if numBits > 0 {
        PlusLaw(index, base, numBits - 1);
      }
      var maxValue := index.plus(base, (numBits - 1) % TWO32);
      Laws(index, item, base);
      Laws(index, maxValue, item);
      if index.atLeast(item, base) && index.atLeast(maxValue, item) {
        var diff := index.diff(item, base);
        WithoutBitRemoves(index.val(base), bitmap[..], diff);
        ClearBit(diff, item == maxValue);
      }
    }

    /** The part of `remove` that writes; `last` says that the highest bit is cleared. */
    method ClearBit(k: UInt32, last: bool)
      requires k < Nbits() && Tight(bitmap[..], numBits)
      requires 0 < numBits ==> k < numBits && (last <==> k == numBits - 1)
      modifies `numBits, bitmap
      ensures Tight(bitmap[..], numBits) && bitmap[..] == WithoutBit(old(bitmap[..]), k)
      ensures old(numBits) == 0 ==> bitmap[..] == old(bitmap[..]) && numBits == 0
    {
      hide Bit, Mask, And, Not;
      ghost var ws := bitmap[..];
      if numBits == 0 {
        WithoutNoBit(ws, k);
      } else {
        WithoutBitTight(ws, k, numBits);
      }
      var pos := k / 32;
      var diff := k % 32;
      bitmap[pos] := And(bitmap[pos], Not(Mask(diff)));
      assert bitmap[..] == WithoutBit(ws, k);
      if last {
        ghost var bits := numBits;
        CalcMaximumBitSet(pos + 1);
        if bits == 0 {
          TightIsUnique(ws, numBits, bits);
        }
      }
    }

    /** `addRange(from, to)`: word masks instead of one `add` per item.  It looks at the full
        width, so in a window that was narrowed it adds items that `add` would refuse. */
    method AddRange(from: T, to: T)
      requires Valid()
      modifies `numBits, bitmap
      ensures Valid()
      ensures var window := Interval(index.val(base), index.val(base) + Nbits());
        Items() == old(Items()) + Interval(index.val(from), index.val(to)) * window
    {
      hide Bit, Lawful, Tight, Members, Filled, WithEach;
      ghost var b := index.val(base);
      PlusLaw(index, base, Nbits());
      var end := index.plus(base, Nbits());
      Laws(index, base, from);
      Laws(index, to, end);
      var min := if index.atLeast(base, from) then base else from;
      var max := if index.atLeast(to, end) then end else to;
      Laws(index, min, max);
      if index.atLeast(min, max) {
        assert Interval(index.val(from), index.val(to)) * Interval(b, b + Nbits()) == {};
        return;
      }
      Laws(index, min, base);
      Laws(index, max, min);
      var offset := index.diff(min, base);
      var nBits := index.diff(max, min);
      ghost var ws, bits := bitmap[..], numBits;
      numBits := if numBits > offset + nBits then numBits else offset + nBits;
      FillBits(offset, nBits);
      FilledAdds(b, ws, bitmap[..], offset, offset + nBits, bits);
      assert Interval(b + offset, b + offset + nBits) ==
        Interval(index.val(from), index.val(to)) * Interval(b, b + Nbits());
    }

    /** The part of `addRange` that writes the words. */
    method FillBits(start: nat, count: nat)
      requires start + count <= Nbits() && 0 < count
      modifies bitmap
      ensures Filled(old(bitmap[..]), bitmap[..], start, start + count)
      ensures bitmap[..] == WithEach(old(bitmap[..]), start, start + count)
    {
      hide Bit, And, Or, Shl, ShrOnce, BitAt, Filled, WithEach;
      var offset, nBits := start, count;
      ghost var ws := bitmap[..];
      var pos := offset / 32;
      offset := offset % 32;
      var mask := Shr(FULL_MASK, offset);
      var bitsInMask := 32 - offset;
      FilledNothing(ws, start);
      while nBits >= bitsInMask
        invariant 1 <= bitsInMask <= 32 && mask == Shr(FULL_MASK, 32 - bitsInMask)
        invariant start <= 32 * pos + 32 - bitsInMask
        invariant 32 * pos + 32 - bitsInMask + nBits == start + count
        invariant Filled(ws, bitmap[..], start, 32 * pos + 32 - bitsInMask)
      {
        ghost var r := bitmap[..];
        FilledExtends(ws, r, start, pos, 32 - bitsInMask, bitsInMask);
        bitmap[pos] := Or(bitmap[pos], mask);
        assert bitmap[..] == WithRange(r, pos, 32 - bitsInMask, bitsInMask);
        pos := pos + 1;
        nBits := nBits - bitsInMask;
        mask := FULL_MASK;
        bitsInMask := 32;
      }
      if nBits > 0 {
        ghost var r := bitmap[..];
        FilledExtends(ws, r, start, pos, 32 - bitsInMask, nBits);
        bitmap[pos] := Or(bitmap[pos], And(mask, Shl(FULL_MASK, bitsInMask - nBits)));
        assert bitmap[..] == WithRange(r, pos, 32 - bitsInMask, nBits);
      }
      FilledIsEach(ws, bitmap[..], start, start + count);
    }

    /** `shift_map_left(n_bits)`. */
    method ShiftMapLeft(n: UInt32)
      requires Tight(bitmap[..], numBits) && 0 < bitmap.Length
      modifies `numBits, bitmap
      ensures if n < old(numBits) then bitmap[..] == ShiftedRow(old(bitmap[..]), n / 32, n % 32)
        else AllZero(bitmap[..])
      ensures numBits == if n < old(numBits) then old(numBits) - n else 0
    {
      assert numBits <= Nbits();
      hide Bit, Moved, Tight, ShiftedRow, AllZero;
      ghost var ws, bits := bitmap[..], numBits;
      if n >= numBits {
        numBits := 0;
        Fill();
      } else {
        numBits := numBits - n;
        ShiftWords(n / 32, n % 32);
      }
    }

    /** The last two branches of `shift_map_left`. */
    method ShiftWords(nItems: nat, s: nat)
      requires nItems < bitmap.Length && s < 32
      modifies bitmap
      ensures bitmap[..] == ShiftedRow(old(bitmap[..]), nItems, s)
    {
      hide Or, Shl, Shr;
      ghost var ws := bitmap[..];
      if s == 0 {
        CopyDown(nItems);
      } else {
        CarryDown(nItems, s);
      }
      FillTail(nItems);
      assert forall m :: 0 <= m < bitmap.Length ==> bitmap[m] == ShiftedWord(ws, nItems, s, m);
    }

    /** `std::copy` of the words from `nItems` on to the front, in place. */
    method CopyDown(nItems: nat)
      requires nItems < bitmap.Length
      modifies bitmap
      ensures forall m :: 0 <= m < bitmap.Length - nItems ==> bitmap[m] == old(bitmap[m + nItems])
    {
      for i := 0 to bitmap.Length - nItems
        invariant forall m :: 0 <= m < i ==> bitmap[m] == old(bitmap[m + nItems])
        invariant forall m :: i <= m < bitmap.Length ==> bitmap[m] == old(bitmap[m])
      {
        bitmap[i] := bitmap[i + nItems];
      }
    }

    /** The same with `s` more places, each word taking a carry from the one after; the loop
        reads ahead of what it has written. */
    method CarryDown(nItems: nat, s: nat)
      requires nItems < bitmap.Length && 0 < s < 32
      modifies bitmap
      ensures forall m :: 0 <= m < bitmap.Length - nItems ==> bitmap[m] == ShiftedWord(old(bitmap[..]), nItems, s, m)
    {
      hide Or, Shl, Shr;
      ghost var ws := bitmap[..];
      var last := bitmap.Length - 1;
      for i := 0 to last - nItems
        invariant forall m :: 0 <= m < i ==> bitmap[m] == ShiftedWord(ws, nItems, s, m)
        invariant forall m :: i <= m < bitmap.Length ==> bitmap[m] == ws[m]
      {
        bitmap[i] := Or(Shl(bitmap[i + nItems], s), Shr(bitmap[i + nItems + 1], 32 - s));
      }
      bitmap[last - nItems] := Shl(bitmap[last], s);
    }

    /** `std::fill_n(bitmap_.rbegin(), n_items, 0)` */
    method FillTail(nItems: nat)
      requires nItems <= bitmap.Length
      modifies bitmap
      ensures forall m :: 0 <= m < bitmap.Length ==>
        bitmap[m] == if m < bitmap.Length - nItems then old(bitmap[m]) else 0
    {
      for i := bitmap.Length - nItems to bitmap.Length
        invariant forall m :: 0 <= m < bitmap.Length ==>
          bitmap[m] == if m < bitmap.Length - nItems || i <= m then old(bitmap[m]) else 0
      {
        bitmap[i] := 0;
      }
    }

    /** `updateBase(base)` to a base that is not smaller.  The index type gives the distance
        modulo 2^32; `UpdateIsExactIff` says when that loses nothing. */
    method UpdateBase(base: T)
      requires Valid() && index.val(this.base) <= index.val(base)
      requires index.val(base) + Nbits() < index.top
      modifies this, bitmap
      ensures Valid() && this.base == base
      ensures base != old(this.base) ==> FullWindow()
      ensures base == old(this.base) ==>
        rangeMax == old(rangeMax) && bitmap[..] == old(bitmap[..]) && numBits == old(numBits)
      ensures Items() == Rebased(old(Items()), index.val(old(this.base)), index.val(base))
    {
      hide Bit, Lawful, Relocated, Moved, Members, Tight;
      Laws(index, base, this.base);
      ghost var b0, b1 := index.val(this.base), index.val(base);
      if base == this.base {
        RelocatedByDistance(Items(), b0, b1);
        assert Items() == set v | v in Items() && b1 <= v by {
          MembersFromBase(b0, bitmap[..]);
        }
        return;
      }
      var n := index.diff(base, this.base);
      ghost var ws, bits := bitmap[..], numBits;
      ShiftMapLeft(n);
      if n < bits {
        ShiftedRowMoves(ws, n / 32, n % 32);
      } else {
        ZeroRowMoves(ws, bitmap[..], n, bits);
      }
      MovedMembers(b0, b1, ws, bitmap[..], n, bits);
      PlusLaw(index, base, Nbits() - 1);
      this.base := base;
      rangeMax := index.plus(base, Nbits() - 1);
    }
  }

  /** How many of the supplied bits `setBitmap` keeps: the mask for the last word comes from
      `num_bits` as given, not from `num_bits` cut to the width. */
  function Kept(n: nat, nbits: nat): nat
    requires 0 < nbits && nbits % 32 == 0
  {
    if n <= nbits then n else if n % 32 == 0 then nbits else nbits - 32 + n % 32
  }

  /** Bit k of the supplied words, if there are that many. */
  predicate Supplied(source: seq<Word>, k: nat) {
    k < Width(source) && BitAt(source, k)
  }

  /** `setBitmap` denotes the supplied bits below min(num_bits, NBITS) if and only if
      `num_bits` fits, or is a multiple of 32, or nothing is set where the mask bites. */
  lemma SetBitmapIsExactIff(source: seq<Word>, n: nat, nbits: nat)
    requires 0 < nbits && nbits % 32 == 0 && (if n < nbits then n else nbits) <= Width(source)
    ensures
      (forall k: nat :: k < nbits ==> (k < Kept(n, nbits) && Supplied(source, k) <==> k < n && Supplied(source, k)))
       <==> n <= nbits || n % 32 == 0 || forall k: nat :: nbits - 32 + n % 32 <= k < nbits ==> !Supplied(source, k)
  {
    hide Bit;
  }

  /** With 256 bits and `num_bits` 257 a bit at place 230 is lost. */
  lemma SetBitmapLosesABit(source: seq<Word>, after: seq<Word>)
    requires |source| == 9 && source[7] == Mask(6) && |after| == 8
    requires forall k: nat :: k < 256 ==> (BitAt(after, k) <==> k < Kept(257, 256) && Supplied(source, k))
    ensures Supplied(source, 230) && !BitAt(after, 230)
  {
    hide Bit, Mask;
    MaskBit(6, 6);
  }

  /** Feeding `getBitmap` into `setBitmap` gives back the same words and bit count. */
  lemma SetOfGetRestores(words: seq<Word>, n: nat, after: seq<Word>, afterBits: nat)
    requires Tight(words, n) && |after| == |words| && 0 < |words|
    requires forall k: nat :: k < Width(words) ==>
      (BitAt(after, k) <==> k < Kept(n, Width(words)) && Supplied(words, k))
    requires Tight(after, afterBits)
    ensures after == words && afterBits == n
  {
    hide Bit;
    forall k: nat | k < Width(words) ensures BitAt(after, k) <==> BitAt(words, k) {
    }
    RowsEqual(after, words);
    TightIsUnique(words, n, afterBits);
  }

  /** `remove` on an empty bitmap: `max()` is `base_ + (0 - 1)` with the bit count wrapped.
      That addition must not fail its assertion, and the guard must not let through an item
      beyond the array; what it lets through inside is not set anyway. */
  ghost predicate EmptyRemoveIsSafe<T(!new)>(ix: Index<T>, base: T, item: T, nbits: nat) {
    && ix.fits(base, TWO32 - 1)
    && (ix.atLeast(item, base) && ix.atLeast(ix.plus(base, TWO32 - 1), item) ==> ix.diff(item, base) < nbits)
  }

  /** For plain integers: exactly when the base is not 0, where `max()` wraps to below the base
      and the guard lets nothing through, or the item is in the window. */
  lemma UInt32EmptyRemoveIff(base: UInt32, item: UInt32, nbits: nat)
    ensures EmptyRemoveIsSafe(UInt32Index(), base, item, nbits) <==> 0 < base || item < nbits
  {
    assert UInt32Index().plus(base, TWO32 - 1) == UInt32Plus(base, TWO32 - 1);
    assert UInt32Index().diff(item, base) == UInt32Diff(item, base);
  }

  /** With base 0 and 256 bits, removing 256 from the empty set would write word 8 of 8. */
  lemma UInt32EmptyRemoveFails()
    ensures !EmptyRemoveIsSafe(UInt32Index(), 0, 256, 256)
    ensures UInt32Index().atLeast(UInt32Index().plus(0, TWO32 - 1), 256) && UInt32Index().diff(256, 0) / 32 == 8
  {
    UInt32EmptyRemoveIff(0, 256, 256);
    assert UInt32Index().diff(256, 0) == UInt32Diff(256, 0);
  }

  /** What `updateBase` leaves of a set when the base moves from b0 up to b1. */
  ghost function Rebased(items: set<int>, b0: int, b1: int): set<int> {
    Relocated(items, b0, b1, (b1 - b0) % TWO32)
  }

  /** Moving the base up keeps exactly the members at or above it, unless the distance
      reaches 2^32 and its low 32 bits fall short of the highest member. */
  lemma UpdateIsExactIff(items: set<int>, b0: int, b1: int)
    requires b0 <= b1 && forall v :: v in items ==> b0 <= v < b0 + TWO32
    ensures Rebased(items, b0, b1) == (set v | v in items && b1 <= v)
       <==> b1 - b0 < TWO32 || forall v :: v in items ==> v < b0 + (b1 - b0) % TWO32
  {
    var n := (b1 - b0) % TWO32;
    if b1 - b0 < TWO32 {
      RelocatedByDistance(items, b0, b1);
    } else {
      assert (set v | v in items && b1 <= v) == {};
      if v :| v in items && b0 + n <= v {
        assert v + (b1 - b0 - n) in Rebased(items, b0, b1);
      } else {
        assert Rebased(items, b0, b1) == {};
      }
    }
  }
}
