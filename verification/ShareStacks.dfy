/** Size and alignment arithmetic of a shared stack, and of the private save buffers. */
module ShareStacks {
  import opened MachineInts
  import opened Options

  // ----- the size of the mapping

  function EffectiveSize(sz: UInt64): UInt64 {
    var s := if sz == 0 then 1024 * 1024 * 2 else sz;
    if s < 4096 then 4096 else s
  }

  predicate SafeAdd(a: UInt64, b: UInt64) {
    (a + b) % TWO64 >= a
  }

  /** The rounding for a guarded stack when the branch test has the value `ragged`; None when
      an assertion on the way fails.  `x & (pg - 1)` is `x % pg` for a power of two. */
  function MapSizeWhen(sz: UInt64, pg: UInt64, ragged: bool): Option<UInt64>
    requires 0 < pg && 2 * pg < TWO64
  {
    if sz <= pg then Some(2 * pg)
    else if ragged then
      var floor := sz - sz % pg;
      if floor >= pg && SafeAdd(floor, 2 * pg) && sz / pg + 2 == (floor + 2 * pg) / pg then Paged(floor + 2 * pg, pg)
      else None
    else
      if SafeAdd(sz, pg) && sz / pg + 1 == (sz + pg) / pg then Paged(sz + pg, pg) else None
  }

  /** The last assertion of the rounding. */
  function Paged(sz: int, pg: UInt64): Option<UInt64>
    requires 0 < pg && 0 <= sz
  {
    if sz < TWO64 && sz / pg > 1 && sz % pg == 0 then Some(sz) else None
  }

  /** The rounding as meant: the test is `(sz & (pg - 1)) != 0`. */
  function MapSize(sz: UInt64, pg: UInt64): Option<UInt64>
    requires 0 < pg && 2 * pg < TWO64
  {
    MapSizeWhen(sz, pg, sz % pg != 0)
  }

  /** The rounding as printed: the test groups as `sz & ((pg - 1) != 0)`, the lowest bit. */
  function MapSizePrinted(sz: UInt64, pg: UInt64): Option<UInt64>
    requires 1 < pg && 2 * pg < TWO64
  {
    MapSizeWhen(sz, pg, sz % 2 != 0)
  }

  /** The least multiple of pg that is at least sz. */
  ghost predicate IsCeiling(r: int, sz: int, pg: nat)
    requires 0 < pg
  {
    r % pg == 0 && sz <= r < sz + pg
  }

  /** A guarded stack is whole pages, at least two of them, and what is left of it after the
      guard page is the requested size rounded up to a page.  It fails only on overflow. */
  lemma MapSizeIsTight(sz: UInt64, pg: UInt64)
    requires 0 < sz && 0 < pg && 2 * pg < TWO64
    ensures MapSize(sz, pg).Some? ==>
      var r := MapSize(sz, pg).value; r % pg == 0 && r >= 2 * pg && IsCeiling(r - pg, sz, pg)
    ensures MapSize(sz, pg).None? <==> pg < sz && sz - sz % pg + (if sz % pg == 0 then pg else 2 * pg) >= TWO64
  {
    if pg < sz {
      if sz % pg != 0 {
        RaggedSize(sz, pg);
      } else {
        WholeSize(sz, pg);
      }
    } else {
      PageMultiple(2, pg);
      PageMultiple(1, pg);
    }
  }

  lemma RaggedSize(sz: UInt64, pg: UInt64)
    requires 0 < pg < sz && 2 * pg < TWO64 && sz % pg != 0
    ensures var r := sz - sz % pg + 2 * pg;
      && r % pg == 0 && r >= 2 * pg && IsCeiling(r - pg, sz, pg)
      && MapSizeWhen(sz, pg, true) == if r < TWO64 then Some(r) else None
  {
    var q := sz / pg;
    assert sz == pg * q + sz % pg;
    Quotient(sz, pg);
    PageMultiple(q + 2, pg);
    PageMultiple(q + 1, pg);
    assert pg * (q + 2) == pg * q + 2 * pg && pg * (q + 1) == pg * q + pg;
  }

  lemma WholeSize(sz: UInt64, pg: UInt64)
    requires 0 < pg < sz && 2 * pg < TWO64 && sz % pg == 0
    ensures var r := sz + pg;
      && r % pg == 0 && r >= 2 * pg && IsCeiling(r - pg, sz, pg)
      && MapSizeWhen(sz, pg, false) == if r < TWO64 then Some(r) else None
  {
    var q := sz / pg;
    assert sz == pg * q;
    Quotient(sz, pg);
    PageMultiple(q + 1, pg);
    assert pg * (q + 1) == pg * q + pg;
  }

  /** The printed test takes the wrong branch for even sizes that are no page multiple, and
      the closing assertion then aborts; otherwise nothing differs. */
  lemma PrintedAgreesIff(sz: UInt64, half: UInt64)
    requires 0 < sz && 0 < half && 4 * half < TWO64
    ensures var pg := 2 * half;
      MapSizePrinted(sz, pg) == MapSize(sz, pg) <==>
        sz <= pg || sz % 2 != 0 || sz % pg == 0 || sz - sz % pg + 2 * pg >= TWO64
  {
    var pg := 2 * half;
    if pg < sz {
      var q := sz / pg;
      assert sz == pg * q + sz % pg;
      assert pg * q == 2 * (half * q);
      if sz % pg != 0 {
        RaggedSize(sz, pg);
        WrongBranch(sz, pg);
      }
    }
  }

  /** 5000 bytes with pages of 4096: three pages are meant, and the printed test aborts. */
  lemma PrintedAborts()
    ensures MapSize(5000, 4096) == Some(12288) && MapSizePrinted(5000, 4096) == None
  {
  }

  lemma WrongBranch(sz: UInt64, pg: UInt64)
    requires 0 < pg < sz && 2 * pg < TWO64 && sz % pg != 0
    ensures MapSizeWhen(sz, pg, false) == None
  {
    var q := sz / pg;
    assert sz == pg * q + sz % pg;
    assert pg * (q + 1) == pg * q + pg;
    NonNegative(pg, q);
    DivUnique(sz + pg, pg, q + 1, sz % pg);
  }

  lemma Quotient(sz: nat, pg: nat)
    requires 0 < pg <= sz
    ensures 1 <= sz / pg && pg <= sz - sz % pg
  {
    assert sz == pg * (sz / pg) + sz % pg;
    if 0 < sz / pg {
      MulStep(pg, 0, sz / pg);
    }
  }

  lemma PageMultiple(k: nat, pg: nat)
    requires 0 < pg
    ensures pg * k % pg == 0 && pg * k / pg == k
  {
    NonNegative(pg, k);
    DivUnique(pg * k, pg, k, 0);
  }

  // ----- addresses inside a stack

  /** `ptr` to `ptr + sz` is the stack; `word` is `sizeof(void*)`. */
  datatype Layout = Layout(ptr: nat, sz: nat, high: nat, ret: nat, limit: nat, word: nat)

  function MakeLayout(ptr: nat, sz: nat, word: nat): Layout
    requires word == 4 || word == 8
    requires sz > 16 + 2 * word + word
  {
    var high := (ptr + sz - 2 * word) / 16 * 16;
    Layout(ptr, sz, high, high - word, sz - 16 - 2 * word, word)
  }

  /** For every request and either kind of stack, what is usable is at least what was asked
      for, and enough for the alignment arithmetic: the size assertion never fails. */
  lemma StackIsLargeEnough(sz: UInt64, pg: UInt64, word: nat)
    requires 0 < pg && 2 * pg < TWO64 && (word == 4 || word == 8)
    ensures sz <= EffectiveSize(sz) && EffectiveSize(sz) > 16 + 2 * word + word
    ensures EffectiveSize(sz) == if sz == 0 then 0x20_0000 else if sz < 0x1000 then 0x1000 else sz
    ensures var r := MapSize(EffectiveSize(sz), pg);
      r.Some? ==> r.value - pg >= sz && r.value - pg > 16 + 2 * word + word
  {
    MapSizeIsTight(EffectiveSize(sz), pg);
  }

  /** What the rest of the runtime needs of a layout. */
  predicate LayoutOk(lay: Layout) {
    && 0 < lay.word && lay.ret + lay.word == lay.high && lay.high + 2 * lay.word <= lay.ptr + lay.sz
    && lay.word <= lay.limit <= lay.sz
    && lay.ptr < lay.high - lay.limit <= lay.ret
    && lay.ptr + lay.sz <= 0x8000_0000_0000_0000
  }

  /** The eviction bound on a saved SP keeps it above the bottom of the stack, and the bytes it
      saves then pass the size check at restore and fit below the return slot, which itself
      is 16-byte aligned at its upper end and inside the stack, as high as alignment allows with
      two words to spare.  All but 16 bytes and three words of the stack may be in use. */
  lemma LayoutFits(ptr: nat, sz: nat, word: nat, sp: nat)
    requires word == 4 || word == 8
    requires sz > 16 + 2 * word + word && ptr + sz <= 0x8000_0000_0000_0000
    ensures var lay := MakeLayout(ptr, sz, word);
      && LayoutOk(lay) && lay.high % 16 == 0 && ptr + sz - 2 * word - 16 < lay.high <= ptr + sz - 2 * word
      && lay.ret == lay.high - word && lay.ptr == ptr && lay.sz == sz && lay.word == word
      && (lay.high - lay.limit <= sp <= lay.ret ==> lay.ptr < sp && lay.ret - sp <= lay.limit - word)
      && (lay.high - lay.limit <= sp <= lay.ret <==> sp <= lay.ret && lay.ret - sp <= lay.limit - word)
      && (lay.high - lay.limit <= sp <= lay.ret <==> sp <= lay.ret && lay.ret - sp <= sz - 16 - 3 * word)
  {
  }

  // ----- save buffers

  /** The size that the doubling loop ends with. */
  function Grow(sz: nat, need: nat): (r: nat)
    requires 0 < sz
    ensures need <= r
    decreases need - sz
  {
    if need <= sz then sz else Grow(2 * sz, need)
  }

  function Pow2(k: nat): nat {
    if k == 0 then 1 else 2 * Pow2(k - 1)
  }

  /** Doubling stops at the first size that suffices: less than twice what is needed, a power
      of two times the old size, and without overflow for anything that fits a stack. */
  lemma {:induction false} GrowIsTight(sz: nat, need: nat) returns (k: nat)
    requires 0 < sz
    ensures Grow(sz, need) == Pow2(k) * sz && (k == 0 <==> need <= sz)
    ensures need <= Grow(sz, need) && (sz < need ==> Grow(sz, need) < 2 * need)
    ensures sz < need <= 0x8000_0000_0000_0000 ==> Grow(sz, need) < TWO64
    decreases need - sz
  {
    if need <= sz {
      k := 0;
    } else if need <= 2 * sz {
      k := 1;
      assert Pow2(1) == 2 * Pow2(0);
    } else {
      var j := GrowIsTight(2 * sz, need);
      k := j + 1;
      assert Pow2(k) * sz == Pow2(j) * (2 * sz);
    }
  }

  lemma GrowBounds(sz: nat, need: nat)
    requires 0 < sz < need <= 0x8000_0000_0000_0000
    ensures need <= Grow(sz, need) < 2 * need
  {
    var k := GrowIsTight(sz, need);
  }
}
