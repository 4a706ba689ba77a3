/** The copy-stack runtime as a state machine: many coroutines take turns on shared stacks, and
    whoever loses a stack has its live bytes copied to a private buffer. */
module CoroutineModel {
  import opened MachineInts
  import opened Options
  import opened ShareStacks

  type CoId = nat
  type StackId = nat

  /** `mz_share_stack_t`; address a of the stack is `mem[a - lay.ptr]`. */
  datatype Stack = Stack(lay: Layout, mem: seq<Byte>, owner: Option<CoId>, alignValid: nat)

  /** `mz_t` of a coroutine other than the main one.  `saved` is the valid part of the save
      buffer, so `valid_sz` is its length. */
  datatype Co = Co(
    stack: StackId, sp: nat, ended: bool,
    saved: seq<Byte>, saveSz: nat, maxCpsz: nat, ctSave: nat, ctRestore: nat)

  /** All coroutines and stacks of one thread; `running` is None while the main coroutine is. */
  datatype Runtime = Runtime(cos: map<CoId, Co>, stacks: map<StackId, Stack>, running: Option<CoId>)

  const EMPTY_RUNTIME := Runtime(map[], map[], None)

  // ----- bytes by address

  /** The bytes at addresses [from, to). */
  function Slice(s: Stack, from: nat, to: nat): seq<Byte>
    requires s.lay.ptr <= from <= to <= s.lay.ptr + |s.mem|
  {
    s.mem[from - s.lay.ptr..to - s.lay.ptr]
  }

  function Poke(s: Stack, at: nat, bytes: seq<Byte>): Stack
    requires s.lay.ptr <= at && at + |bytes| <= s.lay.ptr + |s.mem|
  {
    var i := at - s.lay.ptr;
    s.(mem := s.mem[..i] + bytes + s.mem[i + |bytes|..])
  }

  lemma PokeSlice(s: Stack, at: nat, bytes: seq<Byte>, from: nat, to: nat)
    requires s.lay.ptr <= at && at + |bytes| <= s.lay.ptr + |s.mem|
    requires s.lay.ptr <= from <= to <= s.lay.ptr + |s.mem|
    ensures |Poke(s, at, bytes).mem| == |s.mem|
    ensures from == at && to == at + |bytes| ==> Slice(Poke(s, at, bytes), from, to) == bytes
    ensures to <= at || at + |bytes| <= from ==> Slice(Poke(s, at, bytes), from, to) == Slice(s, from, to)
  {
    var r, i := Poke(s, at, bytes).mem, at - s.lay.ptr;
    forall k | 0 <= k < |s.mem| ensures r[k] == if i <= k < i + |bytes| then bytes[k - i] else s.mem[k] {
    }
    if to <= at || at + |bytes| <= from {
      assert r[from - s.lay.ptr..to - s.lay.ptr] == s.mem[from - s.lay.ptr..to - s.lay.ptr];
    } else if from == at && to == at + |bytes| {
      assert r[i..i + |bytes|] == bytes;
    }
  }

  // ----- mz_resume

  /** The check on the SP of a coroutine that is about to be evicted. */
  predicate SpInBounds(lay: Layout, sp: nat) {
    sp <= lay.ret && lay.high - lay.limit <= sp
  }

  function Max(a: nat, b: nat): nat {
    if a < b then b else a
  }

  /** The owner's side of an eviction. */
  function Saved(co: Co, bytes: seq<Byte>): Co
    requires 0 < co.saveSz
  {
    co.(saved := bytes,
        saveSz := Grow(co.saveSz, |bytes|),
        ctSave := if |bytes| > 0 then co.ctSave + 1 else co.ctSave,
        maxCpsz := Max(co.maxCpsz, |bytes|))
  }

  /** `mz_resume` up to the assertion that the stack has no owner; None when one fails. */
  function Evict(rt: Runtime, s: StackId): Option<Runtime>
    requires WellFormed(rt) && s in rt.stacks
  {
    var st := rt.stacks[s];
    if st.owner.None? then Some(rt)
    else
      var o := st.owner.value;
      var co := rt.cos[o];
      if co.stack != s || !SpInBounds(st.lay, co.sp) then None
      else Some(rt.(
        cos := rt.cos[o := Saved(co, Slice(st, co.sp, st.lay.ret))],
        stacks := rt.stacks[s := st.(owner := None, alignValid := 0)]))
  }

  /** The resumed coroutine's bytes go back and it becomes the owner. */
  function Restore(rt: Runtime, c: CoId): Option<Runtime>
    requires WellFormed(rt) && c in rt.cos
  {
    var co := rt.cos[c];
    var st := rt.stacks[co.stack];
    if st.owner != None || |co.saved| > st.lay.limit - st.lay.word then None
    else Some(rt.(
      cos := rt.cos[c := co.(
        ctRestore := if |co.saved| > 0 then co.ctRestore + 1 else co.ctRestore,
        maxCpsz := Max(co.maxCpsz, |co.saved|))],
      stacks := rt.stacks[co.stack := Poke(st, st.lay.ret - |co.saved|, co.saved).(
        owner := Some(c), alignValid := |co.saved| + st.lay.word)]))
  }

  /** `mz_resume(c)` up to the control transfer. */
  function Resume(rt: Runtime, c: CoId): Option<Runtime>
    requires WellFormed(rt) && c in rt.cos
  {
    var co := rt.cos[c];
    if co.ended then None
    else if rt.stacks[co.stack].owner == Some(c) then Some(rt.(running := Some(c)))
    else
      var evicted := Evict(rt, co.stack);
      if evicted.None? then None
      else
        EvictWellFormed(rt, co.stack);
        var restored := Restore(evicted.value, c);
        if restored.None? then None else Some(restored.value.(running := Some(c)))
  }

  /** What every function above needs: references resolve and layouts are sound. */
  ghost predicate WellFormed(rt: Runtime) {
    && (forall s :: s in rt.stacks ==> StackOk(rt, s))
    && (forall c :: c in rt.cos ==> CoOk(rt, c))
    && (rt.running.Some? ==> rt.running.value in rt.cos)
  }

  ghost predicate StackOk(rt: Runtime, s: StackId)
    requires s in rt.stacks
  {
    var st := rt.stacks[s];
    LayoutOk(st.lay) && |st.mem| == st.lay.sz && (st.owner.Some? ==> st.owner.value in rt.cos)
  }

  ghost predicate CoOk(rt: Runtime, c: CoId)
    requires c in rt.cos
  {
    rt.cos[c].stack in rt.stacks && 0 < rt.cos[c].saveSz
  }

  lemma EvictWellFormed(rt: Runtime, s: StackId)
    requires WellFormed(rt) && s in rt.stacks && Evict(rt, s).Some?
    ensures WellFormed(Evict(rt, s).value) && Evict(rt, s).value.cos.Keys == rt.cos.Keys
  {
    var r := Evict(rt, s).value;
    forall t | t in r.stacks ensures StackOk(r, t) {
      assert StackOk(rt, t);
    }
    forall c | c in r.cos ensures CoOk(r, c) {
      assert CoOk(rt, c);
    }
  }

  // ----- the other steps

  /** `mz_create` with a main coroutine. */
  function Create(rt: Runtime, c: CoId, s: StackId, saveSz: UInt64): Runtime
    requires s in rt.stacks
  {
    var co := Co(s, rt.stacks[s].lay.ret, false, [], if saveSz == 0 then 64 else saveSz, 0, 0, 0);
    rt.(cos := rt.cos[c := co])
  }

  /** The running coroutine stores a byte on its stack. */
  function Write(rt: Runtime, at: nat, b: Byte): Runtime
    requires WellFormed(rt) && rt.running.Some?
    requires var st := StackOf(rt, rt.running.value); st.lay.ptr <= at < st.lay.ret
  {
    var s := rt.cos[rt.running.value].stack;
    rt.(stacks := rt.stacks[s := Poke(rt.stacks[s], at, [b])])
  }

  function StackOf(rt: Runtime, c: CoId): Stack
    requires WellFormed(rt) && c in rt.cos
  {
    assert CoOk(rt, c);
    rt.stacks[rt.cos[c].stack]
  }

  /** `mz_yield1`: control goes back to the main coroutine, which saves this SP. */
  function Yield(rt: Runtime, sp: nat): Runtime
    requires WellFormed(rt) && rt.running.Some?
  {
    var c := rt.running.value;
    rt.(cos := rt.cos[c := rt.cos[c].(sp := sp)], running := None)
  }

  /** `mz_exit1`; None when its assertion on the owner fails. */
  function Exit(rt: Runtime, sp: nat): Option<Runtime>
    requires WellFormed(rt) && rt.running.Some?
  {
    var c := rt.running.value;
    var s := rt.cos[c].stack;
    assert CoOk(rt, c);
    if rt.stacks[s].owner != Some(c) then None
    else Some(rt.(
      cos := rt.cos[c := rt.cos[c].(sp := sp, ended := true)],
      stacks := rt.stacks[s := rt.stacks[s].(owner := None, alignValid := 0)],
      running := None))
  }

  /** `mz_destory` */
  function Destroy(rt: Runtime, c: CoId): Runtime
    requires WellFormed(rt) && c in rt.cos
  {
    var s := rt.cos[c].stack;
    var st := StackOf(rt, c);
    rt.(
      cos := rt.cos - {c},
      stacks := if st.owner == Some(c) then rt.stacks[s := st.(owner := None, alignValid := 0)] else rt.stacks)
  }

  // ----- events and runs

  datatype Event =
    | NewStack(s: StackId, lay: Layout, mem: seq<Byte>)
    | DropStack(s: StackId)
    | Created(c: CoId, s: StackId, saveSz: UInt64)
    | Resumed(c: CoId)
    | Wrote(at: nat, b: Byte)
    | Yielded(sp: nat)
    | Exited(sp: nat)
    | Destroyed(c: CoId)

  /** Correct use of the interface: resume from the main coroutine only, no destruction of the
      running coroutine or of a stack still in use; the running coroutine stays inside its
      stack, below the return slot. */
  ghost predicate Allowed(rt: Runtime, e: Event)
    requires WellFormed(rt)
  {
    match e
    case NewStack(s, lay, mem) => s !in rt.stacks && LayoutOk(lay) && |mem| == lay.sz
    case DropStack(s) => s in rt.stacks && forall c :: c in rt.cos ==> rt.cos[c].stack != s
    case Created(c, s, saveSz) => c !in rt.cos && s in rt.stacks
    case Resumed(c) => rt.running.None? && c in rt.cos
    case Wrote(at, b) => rt.running.Some? && var lay := StackOf(rt, rt.running.value).lay; lay.ptr <= at < lay.ret
    case Yielded(sp) => rt.running.Some? && var lay := StackOf(rt, rt.running.value).lay; lay.ptr <= sp <= lay.ret
    case Exited(sp) => rt.running.Some? && var lay := StackOf(rt, rt.running.value).lay; lay.ptr <= sp <= lay.ret
    case Destroyed(c) => c in rt.cos && rt.running != Some(c)
  }

  /** One step; None is an abort on a failed assertion. */
  ghost function Step(rt: Runtime, e: Event): Option<Runtime>
    requires WellFormed(rt) && Allowed(rt, e)
  {
    match e
    case NewStack(s, lay, mem) => Some(rt.(stacks := rt.stacks[s := Stack(lay, mem, None, 0)]))
    case DropStack(s) => Some(rt.(stacks := rt.stacks - {s}))
    case Created(c, s, saveSz) => Some(Create(rt, c, s, saveSz))
    case Resumed(c) => Resume(rt, c)
    case Wrote(at, b) => Some(Write(rt, at, b))
    case Yielded(sp) => Some(Yield(rt, sp))
    case Exited(sp) => Exit(rt, sp)
    case Destroyed(c) => Some(Destroy(rt, c))
  }

  // ----- the invariant

  ghost predicate Inv(rt: Runtime) {
    && WellFormed(rt)
    && (forall s {:trigger StackInv(rt, s)} :: s in rt.stacks ==> StackInv(rt, s))
    && (forall c {:trigger CoInv(rt, c)} :: c in rt.cos ==> CoInv(rt, c))
    && (rt.running.Some? ==> Owns(rt, rt.running.value))
  }

  /** c is alive and owns its stack. */
  ghost predicate Owns(rt: Runtime, c: CoId)
    requires WellFormed(rt)
  {
    c in rt.cos && !rt.cos[c].ended && StackOf(rt, c).owner == Some(c)
  }

  /** A stack's owner is a live coroutine bound to it, and `align_validsz` records what was
      copied back for it. */
  ghost predicate StackInv(rt: Runtime, s: StackId)
    requires WellFormed(rt) && s in rt.stacks
  {
    var st := rt.stacks[s];
    assert StackOk(rt, s);
    match st.owner
    case None => st.alignValid == 0
    case Some(o) =>
      rt.cos[o].stack == s && !rt.cos[o].ended && st.alignValid == |rt.cos[o].saved| + st.lay.word
  }

  ghost predicate CoInv(rt: Runtime, c: CoId)
    requires WellFormed(rt) && c in rt.cos
  {
    var co := rt.cos[c];
    var st := StackOf(rt, c);
    && BufferInv(co)
    && (!co.ended ==> st.lay.ptr <= co.sp <= st.lay.ret)
    && (!co.ended && st.owner == Some(c) ==> co.ctSave == co.ctRestore)
    && (!co.ended && st.owner != Some(c) ==> EvictedInv(st.lay, co))
  }

  ghost predicate BufferInv(co: Co) {
    |co.saved| <= co.maxCpsz <= co.saveSz < TWO64
  }

  /** A live coroutine without its stack has everything from its SP to the return slot in the
      save buffer, within the bound that restore checks; saves lead restores by one exactly
      when there is something to restore. */
  ghost predicate EvictedInv(lay: Layout, co: Co) {
    && lay.high - lay.limit <= co.sp <= lay.ret && |co.saved| == lay.ret - co.sp
    && co.ctSave == co.ctRestore + if |co.saved| > 0 then 1 else 0
  }

  // ----- the logical stack of a suspended coroutine

  ghost predicate Suspended(rt: Runtime, c: CoId) {
    c in rt.cos && !rt.cos[c].ended && rt.running != Some(c)
  }

  /** The bytes from the saved SP to the return slot, wherever they are kept. */
  ghost function Logical(rt: Runtime, c: CoId): seq<Byte>
    requires Inv(rt) && c in rt.cos && !rt.cos[c].ended
  {
    assert CoInv(rt, c);
    var st := StackOf(rt, c);
    assert StackOk(rt, rt.cos[c].stack);
    if st.owner == Some(c) then Slice(st, rt.cos[c].sp, st.lay.ret) else rt.cos[c].saved
  }
}
