/** `ObjectPool` in place, over an array of cells. */
module ObjectPools {
  import opened Options
  import opened PoolModel

  class ObjectPool {
    const cell: array<Cell>
    const first: nat
    const width: nat
    var freeIndex: nat
    var size: nat
    // the ledger
    ghost var ctors: nat
    ghost var dtors: nat
    ghost var leaks: nat
    ghost var strays: nat

    ghost function Abs(): Pool
      reads this, cell
    {
      Pool(cell[..], freeIndex, size, first, width, ctors, dtors, leaks, strays)
    }

    ghost predicate Valid()
      reads this, cell
    {
      Inv(Abs()) && Balanced(Abs())
    }

    constructor (capacity: nat, first: nat, width: nat)
      requires 0 < capacity && 0 < width
      ensures Valid() && Abs() == Fresh(capacity, first, width) && fresh(cell)
    {
      cell := new Cell[capacity](_ => Cell(false, false, None));
      this.first, this.width := first, width;
      freeIndex, size, ctors, dtors, leaks, strays := 0, 0, 0, 0, 0, 0;
      new;
      assert cell[..] == Fresh(capacity, first, width).cells;
      FreshIsValid(capacity, first, width);
    }

    /** `nextFree`: the loop has no bound of its own; it ends because the pool is not full, and
        every step comes nearer to a free cell. */
    method NextFree() returns (index: int)
      requires Valid()
      modifies this`freeIndex
      ensures Abs() == old(Abs()).(cursor := freeIndex)
      ensures index == PoolModel.NextFree(old(Abs()))
      ensures freeIndex == if index < 0 then old(freeIndex) else index
    {
      ghost var p := Abs();
      assert Inv(p);
      hide Inv, Balanced, Search, Distance, Succ;
      if size >= cell.Length {
        return NO_INDEX;
      }
      ghost var free := NotFullHasFree(p.cells);
      FreeIsNear(freeIndex, free, cell.Length);
      ghost var steps: nat := cell.Length;
      while cell[freeIndex].used
        invariant freeIndex < cell.Length && Distance(freeIndex, free, cell.Length) <= steps
        invariant Search(p.cells, freeIndex, steps) == Search(p.cells, old(freeIndex), cell.Length)
        decreases Distance(freeIndex, free, cell.Length)
      {
        SearchStep(p.cells, freeIndex, steps, free);
        freeIndex := (freeIndex + 1) % cell.Length;
        steps := steps - 1;
      }
      SearchEnds(p.cells, freeIndex, steps);
      index := freeIndex;
    }

    method Reserve() returns (index: int)
      requires Valid()
      modifies this`freeIndex, this`size, cell
      ensures Valid() && Abs() == PoolModel.Reserve(old(Abs()))
      ensures index == PoolModel.NextFree(old(Abs()))
    {
      ApplyKeeps(Abs(), DoReserve);
      NextFreeIsFree(Abs());
      index := NextFree();
      if index >= 0 {
        freeIndex := index;
        cell[freeIndex] := cell[freeIndex].(used := true, constructed := false);
        size := size + 1;
        assert Abs().cells == PoolModel.Reserve(old(Abs())).cells;
      }
    }

    /** `construct`, with any arguments, and `add`. */
    method Construct() returns (index: int)
      requires Valid()
      modifies this`freeIndex, this`size, this`ctors, cell
      ensures Valid() && Abs() == PoolModel.Construct(old(Abs()))
      ensures index == PoolModel.NextFree(old(Abs()))
    {
      ApplyKeeps(Abs(), DoConstruct);
      NextFreeIsFree(Abs());
      index := NextFree();
      if index >= 0 {
        freeIndex := index;
        ctors := ctors + 1;
        cell[freeIndex] := Cell(true, true, Some(first + index * width));
        size := size + 1;
        assert Abs().cells == PoolModel.Construct(old(Abs())).cells;
      }
    }

    method Remove(index: nat, destruct: bool)
      requires Valid() && index < cell.Length
      modifies this`size, this`dtors, this`leaks, this`strays, cell
      ensures Valid() && Abs() == PoolModel.Remove(old(Abs()), index, destruct)
    {
      ApplyKeeps(Abs(), DoRemove(index, destruct));
      if cell[index].used {
        UsedIsCounted(cell[..], index);
        if destruct {
          dtors := dtors + 1;
          strays := if cell[index].constructed then strays else strays + 1;
        } else {
          leaks := if cell[index].constructed then leaks + 1 else leaks;
        }
        cell[index] := cell[index].(used := false);
        size := size - 1;
        assert Abs().cells == PoolModel.Remove(old(Abs()), index, destruct).cells;
      }
    }

    method PointerToIndex(ptr: nat) returns (index: int)
      requires Valid()
      ensures index == NO_INDEX || (0 <= index < cell.Length && ptr == Address(Abs(), index))
      ensures index == NO_INDEX ==> forall i :: 0 <= i < cell.Length ==> ptr != Address(Abs(), i)
      ensures index == PoolModel.PointerToIndex(Abs(), ptr)
    {
      ghost var p := Abs();
      PointerToIndexInverts(p, ptr);
      index := NO_INDEX;
      var last := first + (cell.Length - 1) * width;
      if ptr < first || ptr > last {
        return;
      }
      var delta := ptr - first;
      if delta % width != 0 {
        return;
      }
      SlotInRange(delta, width, cell.Length);
      var i := delta / width;
      if cell[i].used && cell[i].data.Some? {
        if cell[i].data.value == ptr {
          return i;
        } else {
          return NO_INDEX;
        }
      }
      return i;
    }

    /** `free(ptr)` */
    method Free(ptr: nat)
      requires Valid()
      modifies this`size, this`dtors, this`leaks, this`strays, cell
      ensures Valid() && Abs() == PoolModel.Free(old(Abs()), ptr)
    {
      var index := PointerToIndex(ptr);
      if index >= 0 {
        Remove(index, cell[index].constructed);
      }
    }

    /** A walk from `begin()` to `end()`. */
    method Iterate() returns (visited: seq<nat>)
      requires Valid()
      ensures visited == Visits(cell[..], NextUsed(cell[..], 0))
      ensures forall i: nat :: i in visited <==> i < cell.Length && cell[i].used
    {
      hide Inv, Balanced, NextUsed, Visits;
      ghost var cells := cell[..];
      visited := [];
      var at := FirstUsedFrom(0);
      ghost var all := Visits(cells, at);
      while at < cell.Length
        invariant at <= cell.Length && cells == cell[..]
        invariant visited + Visits(cells, at) == all
        decreases cell.Length - at
      {
        VisitsStep(cells, at, visited);
        visited := visited + [at];
        at := FirstUsedFrom(at + 1);
      }
      VisitsEnd(cells);
      assert visited == visited + [];
      VisitsExactlyUsed(cells, 0);
    }

    /** The loop of `begin()` and of both `operator++`. */
    method FirstUsedFrom(from: nat) returns (r: nat)
      requires from <= cell.Length
      ensures r == NextUsed(cell[..], from)
    {
      for i := from to cell.Length
        invariant NextUsed(cell[..], i) == NextUsed(cell[..], from)
      {
        if cell[i].used {
          return i;
        }
      }
      return cell.Length;
    }

    /** Any of the operations; a removal outside the cells is passed over. */
    method Do(op: Op)
      requires Valid()
      modifies this`freeIndex, this`size, this`ctors, this`dtors, this`leaks, this`strays, cell
      ensures Valid() && Abs() == Apply(old(Abs()), op)
    {
      match op
      case DoReserve => var _ := Reserve();
      case DoConstruct => var _ := Construct();
      case DoRemove(i, destruct) => {
        if i < cell.Length {
          Remove(i, destruct);
        }
      }
      case DoFree(ptr) => Free(ptr);
    }

    /** A whole life: any operations on a new pool, then its destructor.  If all removals were
        truthful, constructor and destructor calls balance and nothing was lost. */
    static method Live(capacity: nat, first: nat, width: nat, ops: seq<Op>) returns (pool: ObjectPool)
      requires 0 < capacity && 0 < width
      ensures Inv(Fresh(capacity, first, width)) && Balanced(Fresh(capacity, first, width))
      ensures fresh(pool) && pool.Abs() == DestroyAll(After(Fresh(capacity, first, width), ops))
      ensures AllTruthful(Fresh(capacity, first, width), ops) <==> pool.leaks == 0 && pool.strays == 0
      ensures AllTruthful(Fresh(capacity, first, width), ops) ==> pool.dtors == pool.ctors
    {
      pool := new ObjectPool(capacity, first, width);
      ghost var p := pool.Abs();
      hide Inv, Balanced, After, Apply, AllTruthful;
      AfterNothing(p);
      assert ops[..0] == [];
      for i := 0 to |ops|
        invariant pool.Valid() && fresh(pool) && fresh(pool.cell) && pool.Abs() == After(p, ops[..i])
      {
        pool.Do(ops[i]);
        assert ops[..i + 1][..i] == ops[..i];
        AfterLast(p, ops[..i + 1]);
      }
      assert ops[..|ops|] == ops;
      var _ := pool.Destroy();
      LifetimeBalanceIff(capacity, first, width, ops);
    }

    /** `~ObjectPool`: the objects that are left are destroyed, each once, and nothing else. */
    method Destroy() returns (destroyed: seq<nat>)
      requires Valid()
      modifies this`dtors
      ensures Abs() == DestroyAll(old(Abs()))
      ensures |destroyed| == dtors - old(dtors)
      ensures forall k: nat :: k in destroyed <==> k < cell.Length && IsLive(cell[k])
      ensures forall i, j :: 0 <= i < j < |destroyed| ==> destroyed[i] < destroyed[j]
    {
      ghost var before := dtors;
      destroyed := [];
      for i := 0 to cell.Length
        invariant dtors + LiveCount(cell[i..]) == before + LiveCount(cell[..])
        invariant |destroyed| == dtors - before
        invariant forall k: nat :: k in destroyed <==> k < i && IsLive(cell[k])
        invariant forall m, n :: 0 <= m < n < |destroyed| ==> destroyed[m] < destroyed[n]
      {
        assert cell[i..][1..] == cell[i + 1..];
        if cell[i].used && cell[i].constructed {
          dtors := dtors + 1;
          assert forall m :: 0 <= m < |destroyed| ==> destroyed[m] in destroyed;
          destroyed := destroyed + [i];
        }
      }
      assert cell[..][0..] == cell[..];
    }
  }
}
