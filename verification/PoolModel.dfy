/** The fixed-capacity object pool: which cell is handed out, and what is constructed and
    destroyed, over any sequence of operations. */
module PoolModel {
  import opened MachineInts
  import opened Options

  /** `isUsed`, `wasConstructed` and the object's address. */
  datatype Cell = Cell(used: bool, constructed: bool, data: Option<nat>)

  /** The pool's fields, where its slots lie (`first`, `width` is `sizeof(T)`), and a ledger:
      constructor and destructor calls, objects let go without destruction, and destructor
      calls on cells that held no object. */
  datatype Pool = Pool(
    cells: seq<Cell>, cursor: nat, size: nat, first: nat, width: nat,
    ctors: nat, dtors: nat, leaks: nat, strays: nat)

  const NO_INDEX := -1

  function Fresh(capacity: nat, first: nat, width: nat): Pool {
    Pool(seq(capacity, _ => Cell(false, false, None)), 0, 0, first, width, 0, 0, 0, 0)
  }

  // ----- counting

  function UsedCount(cells: seq<Cell>): nat {
    if cells == [] then 0 else (if cells[0].used then 1 else 0) + UsedCount(cells[1..])
  }

  predicate IsLive(c: Cell) {
    c.used && c.constructed
  }

  /** Cells that hold a constructed object. */
  function LiveCount(cells: seq<Cell>): nat {
    if cells == [] then 0 else (if IsLive(cells[0]) then 1 else 0) + LiveCount(cells[1..])
  }

  lemma {:induction false} CountsUpdated(cells: seq<Cell>, i: nat, c: Cell)
    requires i < |cells|
    ensures UsedCount(cells[i := c]) + (if cells[i].used then 1 else 0) == UsedCount(cells) + if c.used then 1 else 0
    ensures LiveCount(cells[i := c]) + (if IsLive(cells[i]) then 1 else 0) ==
      LiveCount(cells) + if IsLive(c) then 1 else 0
  {
    if i == 0 {
      assert cells[0 := c][1..] == cells[1..];
    } else {
      CountsUpdated(cells[1..], i - 1, c);
      assert cells[i := c][1..] == cells[1..][i - 1 := c];
    }
  }

  lemma {:induction false} NotFullHasFree(cells: seq<Cell>) returns (i: nat)
    requires UsedCount(cells) < |cells|
    ensures i < |cells| && !cells[i].used
  {
    if !cells[0].used {
      i := 0;
    } else {
      var j := NotFullHasFree(cells[1..]);
      i := j + 1;
    }
  }

  lemma {:induction false} CountsBounded(cells: seq<Cell>)
    ensures LiveCount(cells) <= UsedCount(cells) <= |cells|
    ensures (forall i :: 0 <= i < |cells| ==> cells[i].used) ==> UsedCount(cells) == |cells|
  {
    if cells != [] {
      CountsBounded(cells[1..]);
      assert (forall i :: 0 <= i < |cells| ==> cells[i].used) ==>
        forall i :: 0 <= i < |cells[1..]| ==> cells[1..][i].used;
    }
  }

  lemma FullMeansAllUsed(cells: seq<Cell>)
    requires UsedCount(cells) >= |cells|
    ensures forall i :: 0 <= i < |cells| ==> cells[i].used
  {
    forall i | 0 <= i < |cells| ensures cells[i].used {
      CountsUpdated(cells, i, cells[i].(used := true));
      CountsBounded(cells[i := cells[i].(used := true)]);
    }
  }

  // ----- the circular search

  /** `(i + 1) % kCapacity` */
  function Succ(i: nat, n: nat): nat
    requires i < n
  {
    if i + 1 == n then 0 else i + 1
  }

  /** Steps from i to j going round. */
  function Distance(i: nat, j: nat, n: nat): nat
    requires i < n && j < n
  {
    if i <= j then j - i else j + n - i
  }

  /** The first unused cell from i on, going round at most `steps` times. */
  function Search(cells: seq<Cell>, i: nat, steps: nat): nat
    requires i < |cells|
    decreases steps
  {
    if steps == 0 || !cells[i].used then i else Search(cells, Succ(i, |cells|), steps - 1)
  }

  /** `nextFree`, -1 when the pool is full. */
  function NextFree(p: Pool): int
    requires p.cursor < |p.cells|
  {
    if p.size >= |p.cells| then NO_INDEX else Search(p.cells, p.cursor, |p.cells|)
  }

  lemma {:induction false} SearchFinds(cells: seq<Cell>, i: nat, steps: nat, free: nat)
    requires i < |cells| && free < |cells| && !cells[free].used && Distance(i, free, |cells|) <= steps
    ensures var r := Search(cells, i, steps); r < |cells| && !cells[r].used
    ensures var r := Search(cells, i, steps);
      forall k :: 0 <= k < |cells| && Distance(i, k, |cells|) < Distance(i, r, |cells|) ==> cells[k].used
    decreases steps
  {
    if cells[i].used {
      var next := Succ(i, |cells|);
      SearchFinds(cells, next, steps - 1, free);
      var r := Search(cells, next, steps - 1);
      forall k | 0 <= k < |cells| && Distance(i, k, |cells|) < Distance(i, r, |cells|) ensures cells[k].used {
        if k != i {
          assert Distance(next, k, |cells|) < Distance(next, r, |cells|);
        }
      }
    }
  }

  /** One step of the search loop: nearer to every free cell, by the same road. */
  lemma SearchStep(cells: seq<Cell>, i: nat, steps: nat, free: nat)
    requires i < |cells| && free < |cells| && cells[i].used && !cells[free].used
    requires Distance(i, free, |cells|) <= steps
    ensures 0 < steps && (i + 1) % |cells| == Succ(i, |cells|) < |cells|
    ensures Distance(Succ(i, |cells|), free, |cells|) == Distance(i, free, |cells|) - 1
    ensures Search(cells, i, steps) == Search(cells, Succ(i, |cells|), steps - 1)
  {
    if i + 1 == |cells| {
      DivUnique(i + 1, |cells|, 1, 0);
    } else {
      DivUnique(i + 1, |cells|, 0, i + 1);
    }
  }

  lemma SearchEnds(cells: seq<Cell>, i: nat, steps: nat)
    requires i < |cells| && !cells[i].used
    ensures Search(cells, i, steps) == i
  {
  }

  lemma FreeIsNear(i: nat, free: nat, n: nat)
    requires i < n && free < n
    ensures Distance(i, free, n) <= n
  {
  }

  // ----- operations

  /** `reserve` */
  function Reserve(p: Pool): Pool
    requires Inv(p)
  {
    var i := NextFree(p);
    if i < 0 then p
    else
      NextFreeIsFree(p);
      p.(cursor := i, cells := p.cells[i := p.cells[i].(used := true, constructed := false)], size := p.size + 1)
  }

  /** `construct` and `add`, with the object at the slot's address. */
  function Construct(p: Pool): Pool
    requires Inv(p)
  {
    var i := NextFree(p);
    if i < 0 then p
    else
      NextFreeIsFree(p);
      var cells := p.cells[i := Cell(true, true, Some(Address(p, i)))];
      p.(cursor := i, cells := cells, size := p.size + 1, ctors := p.ctors + 1)
  }

  /** `remove(index, destruct)` */
  function Remove(p: Pool, i: nat, destruct: bool): Pool
    requires Inv(p) && i < |p.cells|
  {
    var c := p.cells[i];
    if !c.used then p
    else
      UsedIsCounted(p.cells, i);
      p.(cells := p.cells[i := c.(used := false)], size := p.size - 1,
         dtors := if destruct then p.dtors + 1 else p.dtors,
         leaks := if !destruct && c.constructed then p.leaks + 1 else p.leaks,
         strays := if destruct && !c.constructed then p.strays + 1 else p.strays)
  }

  /** `free(ptr)` */
  function Free(p: Pool, ptr: nat): Pool
    requires Inv(p)
  {
    var i := PointerToIndex(p, ptr);
    if i < 0 then p else Remove(p, i, p.cells[i].constructed)
  }

  // ----- addresses

  function Address(p: Pool, i: nat): nat {
    p.first + i * p.width
  }

  /** The slots lie one after the other. */
  lemma SlotsAreAnArray(p: Pool, i: nat)
    ensures Address(p, 0) == p.first && Address(p, i + 1) == Address(p, i) + p.width
  {
  }

  /** `pointerToIndex` */
  function PointerToIndex(p: Pool, ptr: nat): (i: int)
    requires Inv(p)
    ensures i == NO_INDEX || 0 <= i < |p.cells|
  {
    var last := Address(p, |p.cells| - 1);
    if ptr < p.first || ptr > last then NO_INDEX
    else
      var delta := ptr - p.first;
      if delta % p.width != 0 then NO_INDEX
      else
        var i := delta / p.width;
        SlotInRange(delta, p.width, |p.cells|);
        var c := p.cells[i];
        if c.used && c.data.Some? && c.data.value != ptr then NO_INDEX else i
  }

  lemma SlotInRange(delta: nat, width: nat, n: nat)
    requires 0 < width && 0 < n && delta <= (n - 1) * width
    ensures delta / width < n
  {
    var q := delta / width;
    assert delta == width * q + delta % width;
    assert width * (n - 1) == (n - 1) * width;
    if n <= q {
      MulStep(width, n - 1, q);
    }
  }

  // ----- the invariant

  ghost predicate Inv(p: Pool) {
    && 0 < p.width && p.cursor < |p.cells|
    && p.size == UsedCount(p.cells)
    && (forall i :: 0 <= i < |p.cells| ==> CellInv(p, i))
  }

  /** A cell's object, if it ever had one, is at the cell's own slot. */
  ghost predicate CellInv(p: Pool, i: nat)
    requires i < |p.cells|
  {
    && (p.cells[i].data.None? || p.cells[i].data.value == Address(p, i))
    && (IsLive(p.cells[i]) ==> p.cells[i].data.Some?)
  }

  lemma UsedIsCounted(cells: seq<Cell>, i: nat)
    requires i < |cells| && cells[i].used
    ensures 0 < UsedCount(cells)
  {
    CountsUpdated(cells, i, cells[i].(used := false));
  }

  /** As long as the pool is not full the search ends at an unused cell, and it passes over no
      other one. */
  lemma NextFreeIsFree(p: Pool)
    requires Inv(p)
    ensures NextFree(p) == NO_INDEX <==> forall i :: 0 <= i < |p.cells| ==> p.cells[i].used
    ensures NextFree(p) != NO_INDEX ==>
      var r := NextFree(p);
      && 0 <= r < |p.cells| && !p.cells[r].used
      && var n := |p.cells|;
      forall k :: 0 <= k < n && Distance(p.cursor, k, n) < Distance(p.cursor, r, n) ==> p.cells[k].used
  {
    CountsBounded(p.cells);
    if p.size < |p.cells| {
      var free := NotFullHasFree(p.cells);
      SearchFinds(p.cells, p.cursor, |p.cells|, free);
    } else {
      FullMeansAllUsed(p.cells);
    }
  }

  /** A pointer has an index exactly when it is the address of a slot, and then that slot's:
      the branch for a used cell with another address is never taken. */
  lemma PointerToIndexInverts(p: Pool, ptr: nat)
    requires Inv(p)
    ensures forall i :: 0 <= i < |p.cells| ==> (PointerToIndex(p, ptr) == i <==> ptr == Address(p, i))
  {
    forall i | 0 <= i < |p.cells| ensures PointerToIndex(p, ptr) == i <==> ptr == Address(p, i) {
      if ptr == Address(p, i) {
        AddressHasIndex(p, i);
      } else if PointerToIndex(p, ptr) == i {
        IndexHasAddress(p, ptr);
      }
    }
  }

  lemma AddressHasIndex(p: Pool, i: nat)
    requires Inv(p) && i < |p.cells|
    ensures PointerToIndex(p, Address(p, i)) == i
  {
    var delta := i * p.width;
    assert delta == p.width * i;
    NonNegative(p.width, i);
    DivUnique(delta, p.width, i, 0);
    if i < |p.cells| - 1 {
      MulStep(p.width, i, |p.cells| - 1);
    }
    assert CellInv(p, i);
  }

  lemma IndexHasAddress(p: Pool, ptr: nat)
    requires Inv(p) && PointerToIndex(p, ptr) != NO_INDEX
    ensures ptr == Address(p, PointerToIndex(p, ptr))
  {
    var delta := ptr - p.first;
    assert delta == p.width * (delta / p.width) + delta % p.width;
  }

  // ----- any sequence of operations

  datatype Op = DoReserve | DoConstruct | DoRemove(i: nat, destruct: bool) | DoFree(ptr: nat)

  /** One operation; a removal outside the cells is outside the contract and changes nothing. */
  function Apply(p: Pool, op: Op): Pool
    requires Inv(p)
  {
    match op
    case DoReserve => Reserve(p)
    case DoConstruct => Construct(p)
    case DoRemove(i, destruct) => if i < |p.cells| then Remove(p, i, destruct) else p
    case DoFree(ptr) => Free(p, ptr)
  }

  /** Constructor and destructor calls balance against live objects, up to what was let go of
      undestroyed and what was destroyed without being there. */
  ghost predicate Balanced(p: Pool) {
    p.ctors + p.strays == p.dtors + LiveCount(p.cells) + p.leaks
  }

  lemma OccupyKeeps(p: Pool, i: nat, c: Cell, q: Pool)
    requires Inv(p) && Balanced(p) && i < |p.cells| && !p.cells[i].used && c.used
    requires c.data.None? || c.data.value == Address(p, i)
    requires c.constructed ==> c.data.Some?
    requires var ctors := if c.constructed then p.ctors + 1 else p.ctors;
      q == p.(cursor := i, cells := p.cells[i := c], size := p.size + 1, ctors := ctors)
    ensures Inv(q) && Balanced(q)
  {
    CountsUpdated(p.cells, i, c);
    forall k | 0 <= k < |q.cells| ensures CellInv(q, k) {
      assert CellInv(p, k);
    }
  }

  lemma RemoveKeeps(p: Pool, i: nat, destruct: bool)
    requires Inv(p) && Balanced(p) && i < |p.cells|
    ensures Inv(Remove(p, i, destruct)) && Balanced(Remove(p, i, destruct))
  {
    var q := Remove(p, i, destruct);
    if p.cells[i].used {
      CountsUpdated(p.cells, i, p.cells[i].(used := false));
      forall k | 0 <= k < |q.cells| ensures CellInv(q, k) {
        assert CellInv(p, k);
      }
    }
  }

  lemma ApplyKeeps(p: Pool, op: Op)
    requires Inv(p) && Balanced(p)
    ensures var q := Apply(p, op);
      Inv(q) && Balanced(q) && |q.cells| == |p.cells| && q.first == p.first && q.width == p.width
    ensures op.DoReserve? || op.DoConstruct? || op.DoFree? ==>
      Apply(p, op).leaks == p.leaks && Apply(p, op).strays == p.strays
  {
    hide Balanced;
    match op
    case DoReserve => {
      NextFreeIsFree(p);
      var i := NextFree(p);
      if 0 <= i {
        assert CellInv(p, i);
        OccupyKeeps(p, i, p.cells[i].(used := true, constructed := false), Reserve(p));
      }
    }
    case DoConstruct => {
      NextFreeIsFree(p);
      var i := NextFree(p);
      if 0 <= i {
        OccupyKeeps(p, i, Cell(true, true, Some(Address(p, i))), Construct(p));
      }
    }
    case DoRemove(i, destruct) => {
      if i < |p.cells| {
        RemoveKeeps(p, i, destruct);
      }
    }
    case DoFree(ptr) => {
      var i := PointerToIndex(p, ptr);
      if 0 <= i {
        RemoveKeeps(p, i, p.cells[i].constructed);
      }
    }
  }

  /** The pool after a list of operations. */
  ghost function After(p: Pool, ops: seq<Op>): Pool
    requires Inv(p) && Balanced(p)
    decreases |ops|
  {
    if ops == [] then p
    else
      ApplyKeeps(p, ops[0]);
      After(Apply(p, ops[0]), ops[1..])
  }

  predicate ReleasesByFree(ops: seq<Op>) {
    forall k :: 0 <= k < |ops| ==> !ops[k].DoRemove?
  }

  lemma {:induction false} AfterKeeps(p: Pool, ops: seq<Op>)
    requires Inv(p) && Balanced(p)
    ensures Inv(After(p, ops)) && Balanced(After(p, ops))
    ensures ReleasesByFree(ops) ==> After(p, ops).leaks == p.leaks && After(p, ops).strays == p.strays
    decreases |ops|
  {
    if ops != [] {
      ApplyKeeps(p, ops[0]);
      hide Inv, Balanced, Apply;
      AfterKeeps(Apply(p, ops[0]), ops[1..]);
      assert ReleasesByFree(ops) ==> !ops[0].DoRemove?;
    }
  }

  /** The state before operation k of the list. */
  ghost function Before(p: Pool, ops: seq<Op>, k: nat): (q: Pool)
    requires Inv(p) && Balanced(p) && k <= |ops|
    ensures Inv(q) && Balanced(q)
  {
    AfterKeeps(p, ops[..k]);
    After(p, ops[..k])
  }

  lemma {:induction false} FreshIsValid(capacity: nat, first: nat, width: nat)
    requires 0 < capacity && 0 < width
    ensures var p := Fresh(capacity, first, width); Inv(p) && Balanced(p)
  {
    FreshCounts(Fresh(capacity, first, width).cells);
  }

  lemma {:induction false} FreshCounts(cells: seq<Cell>)
    requires forall i :: 0 <= i < |cells| ==> !cells[i].used
    ensures UsedCount(cells) == 0 && LiveCount(cells) == 0
  {
    if cells != [] {
      FreshCounts(cells[1..]);
    }
  }

  /** `~ObjectPool`: every live object is destroyed. */
  function DestroyAll(p: Pool): Pool {
    p.(dtors := p.dtors + LiveCount(p.cells))
  }

  /** op tells `remove` the truth about whether the cell it empties holds an object. */
  predicate Truthful(p: Pool, op: Op) {
    op.DoRemove? && op.i < |p.cells| && p.cells[op.i].used ==> op.destruct == p.cells[op.i].constructed
  }

  /** Every removal of the list does, in the state that it meets. */
  ghost predicate AllTruthful(p: Pool, ops: seq<Op>)
    requires Inv(p) && Balanced(p)
  {
    forall k :: 0 <= k < |ops| ==> Truthful(Before(p, ops, k), ops[k])
  }

  lemma TruthfulOp(p: Pool, op: Op)
    requires Inv(p) && Balanced(p)
    ensures var q := Apply(p, op);
      && p.leaks + p.strays <= q.leaks + q.strays && p.leaks <= q.leaks && p.strays <= q.strays
      && (q.leaks == p.leaks && q.strays == p.strays <==> Truthful(p, op))
  {
    ApplyKeeps(p, op);
  }

  lemma {:induction false} AfterLast(p: Pool, ops: seq<Op>)
    requires Inv(p) && Balanced(p) && ops != []
    ensures var q := After(p, ops[..|ops| - 1]);
      Inv(q) && Balanced(q) && After(p, ops) == Apply(q, ops[|ops| - 1])
    decreases |ops|
  {
    var front := ops[..|ops| - 1];
    AfterKeeps(p, front);
    if |ops| > 1 {
      ApplyKeeps(p, ops[0]);
      AfterLast(Apply(p, ops[0]), ops[1..]);
      assert ops[1..][..|ops| - 2] == front[1..];
    }
  }

  lemma {:induction false} LedgerCleanIff(p: Pool, ops: seq<Op>)
    requires Inv(p) && Balanced(p)
    ensures var q := After(p, ops);
      && p.leaks <= q.leaks && p.strays <= q.strays
      && (q.leaks == p.leaks && q.strays == p.strays <==> AllTruthful(p, ops))
    decreases |ops|
  {
    hide Inv, Balanced, Apply, Truthful, After;
    if ops == [] {
      AfterNothing(p);
    } else {
      var front, last := ops[..|ops| - 1], ops[|ops| - 1];
      LedgerCleanIff(p, front);
      AfterLast(p, ops);
      AllTruthfulLast(p, ops);
      TruthfulOp(After(p, front), last);
    }
  }

  lemma AfterNothing(p: Pool)
    requires Inv(p) && Balanced(p)
    ensures After(p, []) == p
  {
  }

  /** Over the whole life of a pool no object is dropped undestroyed and no destructor runs
      where there is no object, if and only if every `remove` of a used cell asked for
      destruction exactly when the cell held an object.  `free` always does; and then
      destructor calls equal constructor calls. */
  lemma LifetimeBalanceIff(capacity: nat, first: nat, width: nat, ops: seq<Op>)
    requires 0 < capacity && 0 < width
    ensures var p := Fresh(capacity, first, width);
      && Inv(p) && Balanced(p)
      && var q := DestroyAll(After(p, ops));
      && (q.leaks == 0 && q.strays == 0 <==> AllTruthful(p, ops))
      && (AllTruthful(p, ops) ==> q.dtors == q.ctors)
      && (q.dtors == q.ctors <==> q.leaks == q.strays)
      && (ReleasesByFree(ops) ==> AllTruthful(p, ops))
  {
    FreshIsValid(capacity, first, width);
    var p := Fresh(capacity, first, width);
    AfterKeeps(p, ops);
    LedgerCleanIff(p, ops);
  }

  /** The input that fails: an object dropped by `remove` with its default `destruct` is never
      destroyed. */
  lemma DroppedObjectLeaks(capacity: nat, first: nat, width: nat)
    requires 0 < capacity && 0 < width
    ensures var p := Fresh(capacity, first, width);
      && Inv(p) && Balanced(p)
      && var q := After(p, [DoConstruct, DoRemove(0, false)]);
      && q.leaks == 1 && q.ctors == 1 && DestroyAll(q).dtors == 0
  {
    FreshIsValid(capacity, first, width);
    var p := Fresh(capacity, first, width);
    FirstIsFree(p);
    AfterTwo(p, DoConstruct, DoRemove(0, false));
    AfterKeeps(p, [DoConstruct, DoRemove(0, false)]);
  }

  /** And the opposite one: a destructor runs on a slot in which nothing was constructed. */
  lemma ReservedSlotIsDestroyed(capacity: nat, first: nat, width: nat)
    requires 0 < capacity && 0 < width
    ensures var p := Fresh(capacity, first, width);
      && Inv(p) && Balanced(p)
      && var q := After(p, [DoReserve, DoRemove(0, true)]);
      && q.strays == 1 && q.ctors == 0 && q.dtors == 1
  {
    FreshIsValid(capacity, first, width);
    var p := Fresh(capacity, first, width);
    FirstIsFree(p);
    AfterTwo(p, DoReserve, DoRemove(0, true));
  }

  lemma FirstIsFree(p: Pool)
    requires Inv(p) && p.cursor == 0 && !p.cells[0].used
    ensures NextFree(p) == 0
  {
    NextFreeIsFree(p);
  }

  lemma AfterTwo(p: Pool, a: Op, b: Op)
    requires Inv(p) && Balanced(p)
    ensures Inv(Apply(p, a)) && After(p, [a, b]) == Apply(Apply(p, a), b)
  {
    ApplyKeeps(p, a);
    ApplyKeeps(Apply(p, a), b);
    assert [a, b][1..] == [b] && [b][1..] == [];
    assert After(Apply(p, a), [b]) == After(Apply(Apply(p, a), b), []);
  }

  // ----- the life of each cell

  /** What happens to a cell: it is handed out, an object is constructed in it, a destructor
      runs on it, it is given back. */
  datatype Call = Taken | Constructed | Destructed | Given

  /** Every time the cell is out it is empty throughout, or holds one object that is constructed
      once and then destroyed once. */
  predicate WellLived(h: seq<Call>)
    decreases |h|
  {
    || h == []
    || (|h| >= 2 && h[..2] == [Taken, Given] && WellLived(h[2..]))
    || (|h| >= 4 && h[..4] == [Taken, Constructed, Destructed, Given] && WellLived(h[4..]))
  }

  /** What one operation does to cell i. */
  function CallsOn(p: Pool, op: Op, i: nat): seq<Call>
    requires Inv(p)
  {
    match op
    case DoReserve => if NextFree(p) == i then [Taken] else []
    case DoConstruct => if NextFree(p) == i then [Taken, Constructed] else []
    case DoRemove(k, destruct) =>
      if k != i || k >= |p.cells| || !p.cells[k].used then [] else if destruct then [Destructed, Given] else [Given]
    case DoFree(ptr) =>
      var k := PointerToIndex(p, ptr);
      if k != i || !p.cells[k].used then [] else if p.cells[k].constructed then [Destructed, Given] else [Given]
  }

  /** What `~ObjectPool` does to it. */
  function CallsAtEnd(c: Cell): seq<Call> {
    if IsLive(c) then [Destructed, Given] else if c.used then [Given] else []
  }

  ghost function History(p: Pool, ops: seq<Op>, i: nat): seq<Call>
    requires Inv(p) && Balanced(p)
    decreases |ops|
  {
    if ops == [] then []
    else
      var front := ops[..|ops| - 1];
      AfterKeeps(p, front);
      History(p, front, i) + CallsOn(After(p, front), ops[|ops| - 1], i)
  }

  /** Where a cell is in its life; Spoilt once something was out of order. */
  datatype Stage = In | Empty | Full | Finished | Spoilt

  function Follow(s: Stage, c: Call): Stage {
    match (s, c)
    case (In, Taken) => Empty
    case (Empty, Constructed) => Full
    case (Empty, Given) => In
    case (Full, Destructed) => Finished
    case (Finished, Given) => In
    case _ => Spoilt
  }

  function Scan(s: Stage, h: seq<Call>): Stage
    decreases |h|
  {
    if h == [] then s else Scan(Follow(s, h[0]), h[1..])
  }

  function StageOf(c: Cell): Stage {
    if !c.used then In else if c.constructed then Full else Empty
  }

  lemma {:induction false} ScanJoined(s: Stage, g: seq<Call>, h: seq<Call>)
    ensures Scan(s, g + h) == Scan(Scan(s, g), h)
    decreases |g|
  {
    if g == [] {
      assert g + h == h;
    } else {
      ScanJoined(Follow(s, g[0]), g[1..], h);
      assert (g + h)[1..] == g[1..] + h;
    }
  }

  lemma {:induction false} SpoiltStays(h: seq<Call>)
    ensures Scan(Spoilt, h) == Spoilt
  {
    if h != [] {
      SpoiltStays(h[1..]);
    }
  }

  lemma Scan2(s: Stage, a: Call, b: Call, rest: seq<Call>)
    ensures Scan(s, [a, b] + rest) == Scan(Follow(Follow(s, a), b), rest)
  {
    ScanJoined(s, [a, b], rest);
    assert [a, b][1..] == [b] && [b][1..] == [];
  }

  /** The automaton accepts exactly the lives in order. */
  lemma {:induction false} ScanIsWellLived(h: seq<Call>)
    ensures Scan(In, h) == In <==> WellLived(h)
    decreases |h|
  {
    if |h| >= 2 {
      var two := h[2..];
      assert h == [h[0], h[1]] + two;
      Scan2(In, h[0], h[1], two);
      if h[..2] == [Taken, Given] {
        ScanIsWellLived(two);
      } else if h[0] == Taken && h[1] == Constructed && |h| >= 4 {
        assert two == [h[2], h[3]] + h[4..];
        Scan2(Full, h[2], h[3], h[4..]);
        if h[2] == Destructed && h[3] == Given {
          ScanIsWellLived(h[4..]);
        } else {
          SpoiltStays(h[4..]);
        }
      } else if h[0] == Taken && h[1] == Constructed {
        ShortScan(Full, two);
      } else {
        SpoiltStays(two);
      }
    } else {
      ShortScan(In, h);
    }
  }

  lemma ShortScan(s: Stage, h: seq<Call>)
    requires |h| <= 1
    ensures Scan(s, h) == if h == [] then s else Follow(s, h[0])
  {
  }

  /** One operation leads each cell from its stage to its next one, unless it is an untruthful
      removal of that cell. */
  lemma OpFollows(p: Pool, op: Op, i: nat)
    requires Inv(p) && Balanced(p) && i < |p.cells|
    ensures i < |Apply(p, op).cells|
    ensures Truthful(p, op) || !Releases(p, op, i) ==>
      Scan(StageOf(p.cells[i]), CallsOn(p, op, i)) == StageOf(Apply(p, op).cells[i])
    ensures !Truthful(p, op) && Releases(p, op, i) ==> Scan(StageOf(p.cells[i]), CallsOn(p, op, i)) == Spoilt
  {
    ApplyKeeps(p, op);
    NextFreeIsFree(p);
    var s := StageOf(p.cells[i]);
    ShortScan(s, []);
    ShortScan(s, [Taken]);
    ShortScan(s, [Given]);
    Scan2(s, Taken, Constructed, []);
    Scan2(s, Destructed, Given, []);
    assert forall a: Call, b: Call :: [a, b] + [] == [a, b];
    if op.DoFree? {
      PointerToIndexInverts(p, op.ptr);
    }
  }

  /** Up to now every cell is where its history says, as long as all removals were truthful;
      and from the first untruthful one on, that cell's history is out of order. */
  lemma {:induction false} HistoryFollows(p: Pool, ops: seq<Op>) returns (bad: nat)
    requires Inv(p) && Balanced(p) && forall i :: 0 <= i < |p.cells| ==> !p.cells[i].used
    ensures |After(p, ops).cells| == |p.cells|
    ensures if AllTruthful(p, ops)
      then forall i :: 0 <= i < |p.cells| ==> Scan(In, History(p, ops, i)) == StageOf(After(p, ops).cells[i])
      else bad < |p.cells| && Scan(In, History(p, ops, bad)) == Spoilt
    decreases |ops|
  {
    hide Inv, Balanced, Apply, Truthful, After, CallsOn, Releases, Scan, StageOf;
    bad := 0;
    if ops == [] {
      AfterNothing(p);
      NeverTouched(p);
    } else {
      var front, last := ops[..|ops| - 1], ops[|ops| - 1];
      bad := HistoryFollows(p, front);
      AfterLast(p, ops);
      AllTruthfulLast(p, ops);
      var q := After(p, front);
      ApplyKeeps(q, last);
      forall i | 0 <= i < |p.cells|
        ensures Scan(In, History(p, ops, i)) == Scan(Scan(In, History(p, front, i)), CallsOn(q, last, i))
      {
        ScanJoined(In, History(p, front, i), CallsOn(q, last, i));
      }
      if AllTruthful(p, front) {
        forall i | 0 <= i < |p.cells|
          ensures Truthful(q, last) || !Releases(q, last, i) ==>
            Scan(In, History(p, ops, i)) == StageOf(After(p, ops).cells[i])
          ensures !Truthful(q, last) && Releases(q, last, i) ==> Scan(In, History(p, ops, i)) == Spoilt
        {
          OpFollows(q, last, i);
        }
        if !Truthful(q, last) {
          bad := UntruthfulReleases(q, last);
        }
      } else {
        SpoiltStays(CallsOn(q, last, bad));
      }
    }
  }

  lemma AllTruthfulLast(p: Pool, ops: seq<Op>)
    requires Inv(p) && Balanced(p) && ops != []
    ensures var front := ops[..|ops| - 1];
      && Inv(After(p, front)) && Balanced(After(p, front))
      && (AllTruthful(p, ops) <==> AllTruthful(p, front) && Truthful(After(p, front), ops[|ops| - 1]))
  {
    hide Truthful;
    var front := ops[..|ops| - 1];
    AfterKeeps(p, front);
    assert forall k :: 0 <= k < |front| ==> front[..k] == ops[..k];
    assert Before(p, ops, |front|) == After(p, front);
  }

  lemma UntruthfulReleases(p: Pool, op: Op) returns (i: nat)
    requires Inv(p) && !Truthful(p, op)
    ensures i < |p.cells| && Releases(p, op, i)
  {
    i := op.i;
  }

  lemma NeverTouched(p: Pool)
    requires Inv(p) && Balanced(p) && forall i :: 0 <= i < |p.cells| ==> !p.cells[i].used
    ensures forall i :: 0 <= i < |p.cells| ==> Scan(In, History(p, [], i)) == StageOf(p.cells[i])
  {
  }

  lemma EndFollows(c: Cell)
    ensures Scan(StageOf(c), CallsAtEnd(c)) == In
  {
    var s := StageOf(c);
    ShortScan(s, []);
    ShortScan(s, [Given]);
    Scan2(s, Destructed, Given, []);
    assert [Destructed, Given] + [] == [Destructed, Given];
  }

  /** Over the life of a pool every cell lives in order, every object in it constructed once
      and destroyed once before the cell is given back, if and only if all removals were
      truthful. */
  lemma LivesInOrderIff(capacity: nat, first: nat, width: nat, ops: seq<Op>)
    requires 0 < capacity && 0 < width
    ensures var p := Fresh(capacity, first, width);
      && Inv(p) && Balanced(p) && |After(p, ops).cells| == capacity
      && ((forall i: nat :: i < capacity ==> WellLived(History(p, ops, i) + CallsAtEnd(After(p, ops).cells[i])))
         <==> AllTruthful(p, ops))
  {
    FreshIsValid(capacity, first, width);
    var p := Fresh(capacity, first, width);
    hide Inv, Balanced, After, CallsOn, Scan, StageOf, CallsAtEnd, History, WellLived, AllTruthful;
    var bad := HistoryFollows(p, ops);
    var q := After(p, ops);
    forall i: nat | i < capacity
      ensures WellLived(History(p, ops, i) + CallsAtEnd(q.cells[i]))
        <==> Scan(Scan(In, History(p, ops, i)), CallsAtEnd(q.cells[i])) == In
    {
      ScanIsWellLived(History(p, ops, i) + CallsAtEnd(q.cells[i]));
      ScanJoined(In, History(p, ops, i), CallsAtEnd(q.cells[i]));
      EndFollows(q.cells[i]);
    }
    if AllTruthful(p, ops) {
      forall i: nat | i < capacity ensures WellLived(History(p, ops, i) + CallsAtEnd(q.cells[i])) {
        EndFollows(q.cells[i]);
      }
    } else {
      SpoiltStays(CallsAtEnd(q.cells[bad]));
    }
  }

  /** The same at any time before: with `free` alone, what was constructed and not destroyed is
      what the cells hold. */
  lemma LiveObjects(capacity: nat, first: nat, width: nat, ops: seq<Op>)
    requires 0 < capacity && 0 < width && ReleasesByFree(ops)
    ensures var p := Fresh(capacity, first, width);
      && Inv(p) && Balanced(p)
      && var q := After(p, ops); q.ctors - q.dtors == LiveCount(q.cells) && q.size == UsedCount(q.cells)
  {
    FreshIsValid(capacity, first, width);
    AfterKeeps(Fresh(capacity, first, width), ops);
  }

  /** op gives cell i back. */
  predicate Releases(p: Pool, op: Op, i: nat)
    requires Inv(p)
  {
    (op.DoRemove? && op.i == i) || (op.DoFree? && op.ptr == Address(p, i))
  }

  lemma StaysOut(p: Pool, op: Op, i: nat)
    requires Inv(p) && Balanced(p) && i < |p.cells| && p.cells[i].used && !Releases(p, op, i)
    ensures NextFree(p) != i
    ensures i < |Apply(p, op).cells| && Apply(p, op).cells[i] == p.cells[i]
  {
    NextFreeIsFree(p);
    ApplyKeeps(p, op);
    if op.DoFree? {
      PointerToIndexInverts(p, op.ptr);
    }
  }

  /** op hands out cell i. */
  predicate HandsOut(p: Pool, op: Op, i: nat)
    requires Inv(p)
  {
    (op.DoReserve? || op.DoConstruct?) && NextFree(p) == i
  }

  lemma BeforeNext(p: Pool, ops: seq<Op>, k: nat)
    requires Inv(p) && Balanced(p) && k < |ops|
    ensures Before(p, ops, k + 1) == Apply(Before(p, ops, k), ops[k])
  {
    hide Inv, Balanced, Apply;
    assert ops[..k + 1][..k] == ops[..k];
    AfterLast(p, ops[..k + 1]);
  }

  lemma HandedOutIsUsed(p: Pool, op: Op, i: nat)
    requires Inv(p) && HandsOut(p, op, i)
    ensures i < |Apply(p, op).cells| && Apply(p, op).cells[i].used
  {
    NextFreeIsFree(p);
  }

  /** From its being handed out by operation a up to operation b, with no release between, a
      cell stays in use. */
  lemma {:induction false} OutUntil(p: Pool, ops: seq<Op>, i: nat, a: nat, b: nat)
    requires Inv(p) && Balanced(p) && a < b <= |ops| && HandsOut(Before(p, ops, a), ops[a], i)
    requires forall k :: a < k < b ==> !Releases(Before(p, ops, k), ops[k], i)
    ensures var q := Before(p, ops, b); i < |q.cells| && q.cells[i].used
    ensures var q := Before(p, ops, a + 1); i < |q.cells| && q.cells[i] == Before(p, ops, b).cells[i]
    decreases b
  {
    hide Inv, Balanced, Apply, Before, Releases, HandsOut, NextFree;
    BeforeNext(p, ops, b - 1);
    if a + 1 == b {
      HandedOutIsUsed(Before(p, ops, a), ops[a], i);
    } else {
      OutUntil(p, ops, i, a, b - 1);
      StaysOut(Before(p, ops, b - 1), ops[b - 1], i);
    }
  }

  /** A cell that op neither hands out nor takes back is as before; the cursor stays at the cell
      handed out, and moves for nothing else. */
  lemma OnlyOneCell(p: Pool, op: Op)
    requires Inv(p) && Balanced(p)
    ensures var q := Apply(p, op);
      && |q.cells| == |p.cells| && q.first == p.first && q.width == p.width
      && (forall k :: 0 <= k < |p.cells| && !HandsOut(p, op, k) && !Releases(p, op, k) ==> q.cells[k] == p.cells[k])
      && (forall k :: 0 <= k < |p.cells| && HandsOut(p, op, k) ==>
        q.cells[k].used && q.cells[k].constructed == op.DoConstruct? && q.cursor == k)
      && (forall k :: 0 <= k < |p.cells| && Releases(p, op, k) ==> q.cells[k] == p.cells[k].(used := false))
      && ((forall k :: 0 <= k < |p.cells| ==> !HandsOut(p, op, k)) ==> q.cursor == p.cursor)
  {
    NextFreeIsFree(p);
    ApplyKeeps(p, op);
    if op.DoFree? {
      PointerToIndexInverts(p, op.ptr);
    }
    hide Inv, Balanced;
    if op.DoReserve? || op.DoConstruct? {
      assert NextFree(p) != NO_INDEX ==> HandsOut(p, op, NextFree(p));
    }
  }

  /** The pool hands cells out going round: after cell i the next one is the nearest free cell
      from i on, however many cells were released in between. */
  lemma RoundRobin(p: Pool, ops: seq<Op>, i: nat, a: nat, b: nat, k: nat)
    requires Inv(p) && Balanced(p) && a < b < |ops|
    requires HandsOut(Before(p, ops, a), ops[a], i) && HandsOut(Before(p, ops, b), ops[b], k)
    requires forall m :: a < m < b ==> ops[m].DoRemove? || ops[m].DoFree?
    ensures var q := Before(p, ops, b);
      && i < |q.cells| && k < |q.cells| && !q.cells[k].used
      && forall j :: 0 <= j < |q.cells| && Distance(i, j, |q.cells|) < Distance(i, k, |q.cells|) ==> q.cells[j].used
  {
    HandedOutIsUsed(Before(p, ops, a), ops[a], i);
    CursorStands(p, ops, i, a, b);
    NextFreeIsFree(Before(p, ops, b));
  }

  lemma {:induction false} CursorStands(p: Pool, ops: seq<Op>, i: nat, a: nat, b: nat)
    requires Inv(p) && Balanced(p) && a < b <= |ops| && HandsOut(Before(p, ops, a), ops[a], i)
    requires forall m :: a < m < b ==> ops[m].DoRemove? || ops[m].DoFree?
    ensures Before(p, ops, b).cursor == i && i < |Before(p, ops, b).cells|
    decreases b
  {
    hide Inv, Balanced, Apply, Before, NextFree;
    BeforeNext(p, ops, b - 1);
    if a + 1 == b {
      HandedOutIsUsed(Before(p, ops, a), ops[a], i);
      NextFreeIsFree(Before(p, ops, a));
      OnlyOneCell(Before(p, ops, a), ops[a]);
    } else {
      CursorStands(p, ops, i, a, b - 1);
      OnlyOneCell(Before(p, ops, b - 1), ops[b - 1]);
    }
  }

  /** No cell is handed out twice without having been given back: between two operations that
      return index i there is one that releases it. */
  lemma HandedOutOnce(p: Pool, ops: seq<Op>, i: nat, a: nat, b: nat)
    requires Inv(p) && Balanced(p) && a < b < |ops|
    requires HandsOut(Before(p, ops, a), ops[a], i) && HandsOut(Before(p, ops, b), ops[b], i)
    ensures exists k :: a < k < b && Releases(Before(p, ops, k), ops[k], i)
  {
    if forall k :: a < k < b ==> !Releases(Before(p, ops, k), ops[k], i) {
      OutUntil(p, ops, i, a, b);
      NextFreeIsFree(Before(p, ops, b));
    }
  }

  // ----- iteration

  /** The first used cell from i on; the capacity when there is none. */
  function NextUsed(cells: seq<Cell>, i: nat): (r: nat)
    requires i <= |cells|
    ensures i <= r <= |cells|
    ensures r < |cells| ==> cells[r].used
    ensures forall k :: i <= k < r ==> !cells[k].used
    decreases |cells| - i
  {
    if i == |cells| || cells[i].used then i else NextUsed(cells, i + 1)
  }

  /** The cells that a walk from `begin()` with `++` to `end()` visits. */
  function Visits(cells: seq<Cell>, at: nat): seq<nat>
    requires at <= |cells|
    decreases |cells| - at
  {
    if at == |cells| then [] else [at] + Visits(cells, NextUsed(cells, at + 1))
  }

  lemma {:induction false} VisitsExactlyUsed(cells: seq<Cell>, from: nat)
    requires from <= |cells|
    ensures var v := Visits(cells, NextUsed(cells, from));
      && (forall i: nat :: i in v <==> from <= i < |cells| && cells[i].used)
      && (forall i, j :: 0 <= i < j < |v| ==> v[i] < v[j])
    decreases |cells| - from
  {
    hide NextUsed;
    var at := NextUsed(cells, from);
    if at < |cells| {
      VisitsExactlyUsed(cells, at + 1);
      assert Visits(cells, at) == [at] + Visits(cells, NextUsed(cells, at + 1));
      hide Visits;
      ConsVisits(cells, from, at, Visits(cells, NextUsed(cells, at + 1)));
    }
  }

  lemma VisitsEnd(cells: seq<Cell>)
    ensures Visits(cells, |cells|) == []
  {
  }

  lemma VisitsStep(cells: seq<Cell>, at: nat, seen: seq<nat>)
    requires at < |cells|
    ensures seen + Visits(cells, at) == seen + [at] + Visits(cells, NextUsed(cells, at + 1))
  {
  }

  lemma ConsVisits(cells: seq<Cell>, from: nat, at: nat, rest: seq<nat>)
    requires from <= at < |cells| && cells[at].used && forall k :: from <= k < at ==> !cells[k].used
    requires forall i: nat :: i in rest <==> at + 1 <= i < |cells| && cells[i].used
    requires forall i, j :: 0 <= i < j < |rest| ==> rest[i] < rest[j]
    ensures forall i: nat :: i in [at] + rest <==> from <= i < |cells| && cells[i].used
    ensures forall i, j :: 0 <= i < j < |[at] + rest| ==> ([at] + rest)[i] < ([at] + rest)[j]
  {
    var v := [at] + rest;
    forall i, j | 0 <= i < j < |v| ensures v[i] < v[j] {
      assert v[j] == rest[j - 1] && rest[j - 1] in rest;
    }
    forall i: nat ensures i in v <==> from <= i < |cells| && cells[i].used {
      assert i in v <==> i == at || i in rest;
    }
  }
}
