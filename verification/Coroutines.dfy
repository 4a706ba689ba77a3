/** The copy-stack runtime in place: coroutine and stack objects, byte copies between stack
    memory and save buffers.  Each operation is proved to be the step of the state machine. */
module Coroutines {
  import opened MachineInts
  import opened Options
  import opened ShareStacks
  import opened CoroutineModel
  import opened CoroutineRuns

  /** `mz_amd64_inline_short_aligned_memcpy_test_ok` */
  predicate ShortAligned(dst: nat, src: nat, sz: nat) {
    src % 16 == 0 && dst % 16 == 0 && sz % 16 == 8 && sz / 16 <= 8
  }

  function Patched(a: seq<Byte>, p: nat, bytes: seq<Byte>): seq<Byte>
    requires p + |bytes| <= |a|
  {
    a[..p] + bytes + a[p + |bytes|..]
  }

  lemma PatchedAt(a: seq<Byte>, p: nat, bytes: seq<Byte>)
    requires p + |bytes| <= |a|
    ensures |Patched(a, p, bytes)| == |a| && Patched(a, p, bytes)[p..p + |bytes|] == bytes
  {
  }

  lemma PatchedWithNothing(a: seq<Byte>, p: nat)
    requires p <= |a|
    ensures Patched(a, p, []) == a
  {
  }

  lemma PatchedTwice(a: seq<Byte>, p: nat, x: seq<Byte>, y: seq<Byte>)
    requires p + |x| + |y| <= |a|
    ensures |Patched(a, p, x)| == |a|
    ensures Patched(Patched(a, p, x), p + |x|, y) == Patched(a, p, x + y)
  {
  }

  lemma PatchedIsPoke(st: Stack, at: nat, bytes: seq<Byte>)
    requires st.lay.ptr <= at && at + |bytes| <= st.lay.ptr + |st.mem|
    ensures Poke(st, at, bytes) == st.(mem := Patched(st.mem, at - st.lay.ptr, bytes))
  {
  }

  /** The doubling loop, in 64 bits; its assertion never fails for what fits a stack. */
  method DoubleUntil(sz: UInt64, need: nat) returns (r: UInt64)
    requires 0 < sz < need <= 0x8000_0000_0000_0000
    ensures r == Grow(sz, need) && need <= r < 2 * need
  {
    GrowBounds(sz, need);
    r := sz;
    while true
      invariant 0 < r < need && Grow(r, need) == Grow(sz, need)
      decreases need - r
    {
      assert Grow(r, need) == Grow(2 * r, need);
      r := 2 * r % TWO64;
      assert r > 0;
      if r >= need {
        break;
      }
    }
  }

  /** Store a run of bytes. */
  method Store(dst: array<Byte>, d: nat, bytes: seq<Byte>)
    requires d + |bytes| <= dst.Length
    modifies dst
    ensures dst[..] == Patched(old(dst[..]), d, bytes)
  {
    forall k | 0 <= k < |bytes| {
      dst[d + k] := bytes[k];
    }
    assert dst[..] == Patched(old(dst[..]), d, bytes);
  }

  /** `mz_amd64_inline_short_aligned_memcpy`: up to eight 16-byte registers, all loaded before
      any is stored, and the 8 bytes at the end. */
  method CopyShort(dst: array<Byte>, d: nat, src: array<Byte>, s: nat, sz: nat)
    requires dst != src && d + sz <= dst.Length && s + sz <= src.Length
    requires sz % 16 == 8 && sz / 16 <= 8
    modifies dst
    ensures dst[..] == Patched(old(dst[..]), d, src[s..s + sz])
  {
    var n := sz / 16 * 16;
    assert n + 8 == sz;
    var registers := src[s..s + n];
    ghost var tail := src[s + sz - 8..s + sz];
    PatchedTwice(dst[..], d, registers, tail);
    hide Patched;
    Store(dst, d, registers);
    Store(dst, d + sz - 8, src[s + sz - 8..s + sz]);
    assert src[s..s + sz] == registers + tail;
  }

  /** `mz_amd64_optimized_memcpy_drop_in`: the same copy as `memcpy`, whatever the alignment. */
  method CopyDropIn(dst: array<Byte>, d: nat, dstAddr: nat, src: array<Byte>, s: nat, srcAddr: nat, sz: nat)
    requires dst != src && d + sz <= dst.Length && s + sz <= src.Length
    modifies dst
    ensures dst[..] == Patched(old(dst[..]), d, src[s..s + sz])
  {
    if ShortAligned(dstAddr, srcAddr, sz) {
      CopyShort(dst, d, src, s, sz);
    } else {
      Store(dst, d, src[s..s + sz]);
    }
  }

  class ShareStack {
    ghost const id: StackId
    const lay: Layout
    const mem: array<Byte>
    var owner: Coroutine?
    var alignValid: nat

    /** `mz_share_stack_new2` from the point where `sz` bytes at address `ptr` are there. */
    constructor (ghost id: StackId, ptr: nat, sz: nat, word: nat, protector: seq<Byte>)
      requires (word == 4 || word == 8) && |protector| == word
      requires sz > 16 + 2 * word + word && ptr + sz <= 0x8000_0000_0000_0000
      ensures this.id == id && lay == MakeLayout(ptr, sz, word) && LayoutOk(lay) && lay.sz == mem.Length
      ensures owner == null && alignValid == 0 && fresh(mem)
      ensures mem[lay.ret - ptr..lay.high - ptr] == protector
    {
      this.id := id;
      lay := MakeLayout(ptr, sz, word);
      mem := new Byte[sz];
      owner, alignValid := null, 0;
      new;
      LayoutFits(ptr, sz, word, lay.ret);
      Store(mem, lay.ret - ptr, protector);
    }

    ghost function Abs(): Stack
      reads this, mem
    {
      Stack(lay, mem[..], if owner == null then None else Some(owner.id), alignValid)
    }
  }

  class Coroutine {
    ghost const id: CoId
    const stack: ShareStack
    var sp: nat
    var isEnd: bool
    var save: array<Byte>
    var saveAddr: nat
    var saveSz: nat
    var validSz: nat
    var maxCpsz: nat
    var ctSave: nat
    var ctRestore: nat

    /** `mz_create` with a main coroutine. */
    constructor (ghost id: CoId, stack: ShareStack, saveStackSz: UInt64)
      ensures this.id == id && this.stack == stack && fresh(save) && BufferOk()
      ensures Abs() == Co(stack.id, stack.lay.ret, false, [], if saveStackSz == 0 then 64 else saveStackSz, 0, 0, 0)
    {
      this.id, this.stack := id, stack;
      sp, isEnd := stack.lay.ret, false;
      var size := if saveStackSz == 0 then 64 else saveStackSz;
      save := new Byte[size];
      saveAddr := *;
      saveSz, validSz, maxCpsz, ctSave, ctRestore := size, 0, 0, 0, 0;
    }

    ghost function Abs(): Co
      reads this, save
    {
      Co(stack.id, sp, isEnd,
         if validSz <= save.Length then save[..validSz] else [], saveSz, maxCpsz, ctSave, ctRestore)
    }

    /** The buffer is as large as `save_stack.sz` says and holds the valid bytes. */
    ghost predicate BufferOk()
      reads this
    {
      validSz <= save.Length && save.Length == saveSz
    }

    /** Make room for `validSz` bytes: free, double the size until it suffices, allocate. */
    method GrowSave()
      requires 0 < saveSz == save.Length && saveSz < TWO64 && validSz <= 0x8000_0000_0000_0000
      modifies this`saveSz, this`save, this`saveAddr
      ensures saveSz == Grow(old(saveSz), validSz) && save.Length == saveSz
      ensures save == old(save) || fresh(save)
    {
      if saveSz < validSz {
        saveSz := DoubleUntil(saveSz, validSz);
        save := new Byte[saveSz];
        saveAddr := *;
      }
    }

    /** Room for `validSz` bytes of the stack, and the copy. */
    method SaveBytes(from: nat)
      requires 0 < saveSz == save.Length && saveSz < TWO64 && validSz <= 0x8000_0000_0000_0000
      requires save != stack.mem && from + validSz <= stack.mem.Length
      modifies this`saveSz, this`save, this`saveAddr, this`ctSave, save
      ensures saveSz == Grow(old(saveSz), validSz) && save.Length == saveSz
      ensures save == old(save) || fresh(save)
      ensures save[..validSz] == stack.mem[from..from + validSz]
      ensures ctSave == if validSz > 0 then old(ctSave) + 1 else old(ctSave)
    {
      hide Grow, Patched;
      GrowSave();
      if validSz > 0 {
        PatchedAt(save[..], 0, stack.mem[from..from + validSz]);
        CopyDropIn(save, 0, saveAddr, stack.mem, from, sp, validSz);
        ctSave := ctSave + 1;
      }
    }

    /** The owner's side of its eviction: `valid_sz`, the copy and the counters. */
    method SaveOwnStack()
      requires BufferOk() && 0 < saveSz < TWO64 && save != stack.mem
      requires LayoutOk(stack.lay) && stack.mem.Length == stack.lay.sz && SpInBounds(stack.lay, sp)
      modifies this`validSz, this`saveSz, this`save, this`saveAddr, this`ctSave, this`maxCpsz, save
      ensures BufferOk() && (save == old(save) || fresh(save))
      ensures Abs() == Saved(old(Abs()), Slice(stack.Abs(), sp, stack.lay.ret))
    {
      hide Grow;
      validSz := stack.lay.ret - sp;
      SaveBytes(sp - stack.lay.ptr);
      if validSz > maxCpsz {
        maxCpsz := validSz;
      }
    }

    /** The resumed coroutine's side of its restore: the copy back and the counters. */
    method RestoreBytes(to: nat)
      requires validSz <= save.Length && save != stack.mem && to + validSz <= stack.mem.Length
      modifies this`ctRestore, this`maxCpsz, stack.mem
      ensures stack.mem[..] == Patched(old(stack.mem[..]), to, save[..validSz])
      ensures ctRestore == if validSz > 0 then old(ctRestore) + 1 else old(ctRestore)
      ensures maxCpsz == Max(old(maxCpsz), validSz)
    {
      if validSz > 0 {
        CopyDropIn(stack.mem, to, stack.lay.ptr + to, save, 0, saveAddr, validSz);
        ctRestore := ctRestore + 1;
      } else {
        PatchedWithNothing(stack.mem[..], to);
        assert save[..validSz] == [];
      }
      if validSz > maxCpsz {
        maxCpsz := validSz;
      }
    }

    /** The same in terms of the machine: the stack with the saved bytes poked in. */
    method RestoreOwnStack()
      requires BufferOk() && save != stack.mem
      requires LayoutOk(stack.lay) && stack.mem.Length == stack.lay.sz && validSz <= stack.lay.limit - stack.lay.word
      modifies this`ctRestore, this`maxCpsz, stack.mem
      ensures BufferOk()
      ensures Abs() == old(Abs()).(
        ctRestore := if validSz > 0 then old(ctRestore) + 1 else old(ctRestore), maxCpsz := Max(old(maxCpsz), validSz))
      ensures stack.Abs() == Poke(old(stack.Abs()), stack.lay.ret - validSz, Abs().saved)
    {
      var at := stack.lay.ret - validSz;
      PatchedIsPoke(stack.Abs(), at, Abs().saved);
      hide Patched, Poke, Max, LayoutOk;
      RestoreBytes(at - stack.lay.ptr);
    }

    /** This coroutine and its stack are what state rt of the machine says. */
    ghost predicate Depicts(rt: Runtime)
      reads this, save, stack, stack.mem
    {
      && id in rt.cos && rt.cos[id] == Abs() && BufferOk() && save != stack.mem
      && stack.id in rt.stacks && rt.stacks[stack.id] == stack.Abs()
    }

    /** The part of `mz_resume` that evicts an owner, here `this`. */
    method GiveUpStack(ghost rt: Runtime) returns (ok: bool)
      requires Inv(rt) && rt.running.None? && Depicts(rt) && stack.owner == this
      modifies this`validSz, this`saveSz, this`save, this`saveAddr, this`ctSave, this`maxCpsz, save
      modifies stack`owner, stack`alignValid
      ensures ok <==> Evict(rt, stack.id).Some?
      ensures ok <==> stack.lay.high - stack.lay.limit <= sp <= stack.lay.ret
      ensures ok ==> Depicts(Evict(rt, stack.id).value) && stack.owner == null
      ensures save == old(save) || fresh(save)
    {
      hide Inv, WellFormed, Saved, Slice, Evict;
      OwnerFacts(rt, stack.id, id);
      if !(stack.lay.ret >= sp && stack.lay.high - stack.lay.limit <= sp) {
        return false;
      }
      SaveOwnStack();
      stack.owner := null;
      stack.alignValid := 0;
      ok := true;
    }

    /** `mz_resume`, up to the control transfer.  Objects that are not named here keep their
        state, and so does the rest of rt.  Ids are those of objects: the caller answers for
        one coroutine and one stack to each. */
    method Resume(tls: ThreadLocal, ghost rt: Runtime) returns (ok: bool)
      requires Inv(rt) && rt.running.None? && Depicts(rt)
      requires stack.owner != null && stack.owner != this ==>
        && stack.owner.Depicts(rt) && stack.owner.save != save && stack.owner.id != id
        && (stack.owner.stack.id == stack.id ==> stack.owner.stack == stack)
      requires stack.owner == null ==> rt.stacks[stack.id].owner == None
      modifies tls, this`ctRestore, this`maxCpsz, stack`owner, stack`alignValid, stack.mem
      modifies if stack.owner != null && stack.owner != this then {stack.owner, stack.owner.save} else {}
      ensures ok <==> CoroutineModel.Resume(rt, id).Some?
      ensures ok ==> !isEnd
      ensures !isEnd && (old(stack.owner) == null || old(stack.owner) == this) ==> ok
      ensures !isEnd && old(stack.owner) != null && old(stack.owner) != this ==>
        (ok <==> stack.lay.high - stack.lay.limit <= old(stack.owner.sp) <= stack.lay.ret)
      ensures ok ==> Depicts(CoroutineModel.Resume(rt, id).value) && tls.current == this && stack.owner == this
      ensures ok && old(stack.owner) != null ==> old(stack.owner).Depicts(CoroutineModel.Resume(rt, id).value)
      ensures old(stack.owner) != null ==>
        old(stack.owner).save == old(stack.owner.save) || fresh(old(stack.owner).save)
    {
      hide Inv, WellFormed, Evict, Restore, Saved, Slice, Poke;
      if isEnd {
        ResumeByParts(rt, id);
        return false;
      }
      ResumeByParts(rt, id);
      ghost var now := rt;
      if stack.owner != this {
        if stack.owner != null {
          OwnerFacts(rt, stack.id, stack.owner.id);
          assert stack.owner.stack == stack;
          ok := stack.owner.GiveUpStack(rt);
          if !ok {
            return;
          }
        }
        now := Evict(rt, stack.id).value;
        RestoreFacts(now, id);
        assert validSz <= stack.lay.limit - stack.lay.word;
        RestoreOwnStack();
        stack.alignValid := validSz + stack.lay.word;
        stack.owner := this;
      }
      tls.current := this;
      ok := true;
    }

    /** `mz_yield1`: `mzswap` saves the SP, and the main coroutine goes on. */
    method Yield(tls: ThreadLocal, newSp: nat, ghost rt: Runtime)
      requires Inv(rt) && Depicts(rt) && rt.running == Some(id) && tls.current == this
      requires Allowed(rt, Yielded(newSp))
      modifies this`sp, tls
      ensures Depicts(CoroutineModel.Yield(rt, newSp)) && tls.current == null
    {
      hide Inv, WellFormed, Allowed;
      sp := newSp;
      tls.current := null;
    }

    /** `mz_exit1`; its assertion is the one in the body. */
    method Exit(tls: ThreadLocal, newSp: nat, ghost rt: Runtime)
      requires Inv(rt) && Depicts(rt) && rt.running == Some(id) && tls.current == this
      requires Allowed(rt, Exited(newSp))
      requires stack.owner != null && stack.owner.id == id ==> stack.owner == this
      modifies this`sp, this`isEnd, stack`owner, stack`alignValid, tls
      ensures CoroutineModel.Exit(rt, newSp).Some?
      ensures Depicts(CoroutineModel.Exit(rt, newSp).value) && tls.current == null && stack.owner == null
      ensures isEnd && sp == newSp
    {
      hide Inv, WellFormed, Allowed;
      ExitKeeps(rt, newSp);
      isEnd := true;
      assert stack.owner == this;
      stack.owner := null;
      stack.alignValid := 0;
      sp := newSp;
      tls.current := null;
    }

    /** `mz_destory` of a coroutine that is not running: the stack is let go of. */
    method Destroy(ghost rt: Runtime)
      requires Inv(rt) && Depicts(rt) && Allowed(rt, Destroyed(id))
      requires stack.owner != null && stack.owner.id == id ==> stack.owner == this
      modifies stack`owner, stack`alignValid
      ensures stack.id in CoroutineModel.Destroy(rt, id).stacks
      ensures stack.Abs() == CoroutineModel.Destroy(rt, id).stacks[stack.id]
      ensures stack.owner == if old(stack.owner) == this then null else old(stack.owner)
    {
      hide Inv, WellFormed, Allowed;
      if stack.owner == this {
        stack.owner := null;
        stack.alignValid := 0;
      }
    }
  }

  /** `mz_gtls_co`; null stands for the main coroutine. */
  class ThreadLocal {
    var current: Coroutine?

    constructor ()
      ensures current == null
    {
      current := null;
    }
  }

  /** The runtime with one coroutine and one stack replaced. */
  ghost function Replaced(rt: Runtime, c: CoId, co: Co, s: StackId, st: Stack): Runtime {
    rt.(cos := rt.cos[c := co], stacks := rt.stacks[s := st])
  }

  lemma OwnerFacts(rt: Runtime, s: StackId, o: CoId)
    requires Inv(rt) && s in rt.stacks && rt.stacks[s].owner == Some(o) && o in rt.cos
    ensures WellFormed(rt) && rt.cos[o].stack == s && 0 < rt.cos[o].saveSz < TWO64
    ensures LayoutOk(rt.stacks[s].lay) && |rt.stacks[s].mem| == rt.stacks[s].lay.sz
    ensures Evict(rt, s) ==
      if SpInBounds(rt.stacks[s].lay, rt.cos[o].sp) then
        Some(Replaced(rt, o, Saved(rt.cos[o], Slice(rt.stacks[s], rt.cos[o].sp, rt.stacks[s].lay.ret)),
          s, rt.stacks[s].(owner := None, alignValid := 0)))
      else None
  {
    assert StackInv(rt, s) && StackOk(rt, s) && CoInv(rt, o) && CoOk(rt, o);
  }

  /** Resume in terms of its two halves, with the facts that each half starts from. */
  lemma ResumeByParts(rt: Runtime, c: CoId)
    requires Inv(rt) && rt.running.None? && c in rt.cos
    ensures WellFormed(rt) && rt.cos[c].stack in rt.stacks
    ensures rt.cos[c].ended ==> CoroutineModel.Resume(rt, c).None?
    ensures rt.stacks[rt.cos[c].stack].owner == None ==> Evict(rt, rt.cos[c].stack) == Some(rt)
    ensures var s := rt.cos[c].stack;
      !rt.cos[c].ended ==>
        if rt.stacks[s].owner == Some(c) then CoroutineModel.Resume(rt, c) == Some(rt.(running := Some(c)))
        else if Evict(rt, s).None? then CoroutineModel.Resume(rt, c).None?
        else
          var e := Evict(rt, s).value;
          && Inv(e) && e.running.None? && c in e.cos && e.cos[c] == rt.cos[c]
          && s in e.stacks && e.stacks[s].owner == None
          && (rt.stacks[s].owner == None ==> e == rt)
          && Restore(e, c).Some?
          && CoroutineModel.Resume(rt, c) == Some(Restore(e, c).value.(running := Some(c)))
  {
    assert CoOk(rt, c) && CoInv(rt, c);
    var s := rt.cos[c].stack;
    if !rt.cos[c].ended && rt.stacks[s].owner != Some(c) && Evict(rt, s).Some? {
      EvictKeeps(rt, s);
      RestoreKeeps(Evict(rt, s).value, c);
    }
  }

  lemma RestoreFacts(rt: Runtime, c: CoId)
    requires Inv(rt) && c in rt.cos && !rt.cos[c].ended && rt.cos[c].stack in rt.stacks
    requires rt.stacks[rt.cos[c].stack].owner == None
    ensures var co := rt.cos[c]; var st := rt.stacks[co.stack];
      && LayoutOk(st.lay) && |st.mem| == st.lay.sz && |co.saved| <= st.lay.limit - st.lay.word
      && Restore(rt, c) == Some(Replaced(rt, c,
          co.(ctRestore := if |co.saved| > 0 then co.ctRestore + 1 else co.ctRestore,
              maxCpsz := Max(co.maxCpsz, |co.saved|)),
          co.stack,
          Poke(st, st.lay.ret - |co.saved|, co.saved).(owner := Some(c), alignValid := |co.saved| + st.lay.word)))
  {
    assert CoInv(rt, c) && CoOk(rt, c) && StackOk(rt, rt.cos[c].stack);
  }

  /** A resume leaves every other coroutine and every other stack of the machine alone. */
  lemma ResumeElsewhere(rt: Runtime, c: CoId)
    requires Inv(rt) && rt.running.None? && c in rt.cos && CoroutineModel.Resume(rt, c).Some?
    ensures var r := CoroutineModel.Resume(rt, c).value; var s := rt.cos[c].stack;
      && s in rt.stacks && r.cos.Keys == rt.cos.Keys && r.stacks.Keys == rt.stacks.Keys
      && (forall i :: i in rt.cos && i != c && rt.stacks[s].owner != Some(i) ==> r.cos[i] == rt.cos[i])
      && (forall t :: t in rt.stacks && t != s ==> r.stacks[t] == rt.stacks[t])
  {
    hide Saved, Poke, Slice, LayoutOk;
    assert CoOk(rt, c) && StackOk(rt, rt.cos[c].stack);
    ResumeByParts(rt, c);
  }
}
