/** What every run of the copy-stack runtime keeps. */
module CoroutineRuns {
  import opened MachineInts
  import opened Options
  import opened ShareStacks
  import opened CoroutineModel

  /** Coroutine c is as alive as before, with the same stack, SP and logical stack. */
  ghost predicate Keeps(rt: Runtime, r: Runtime, c: CoId)
    requires Inv(rt) && Inv(r) && c in rt.cos && !rt.cos[c].ended
  {
    && c in r.cos && !r.cos[c].ended
    && r.cos[c].stack == rt.cos[c].stack && r.cos[c].sp == rt.cos[c].sp
    && StackOf(r, c).lay == StackOf(rt, c).lay
    && Logical(r, c) == Logical(rt, c)
  }

  ghost predicate KeepsAll(rt: Runtime, r: Runtime)
    requires Inv(rt) && Inv(r)
  {
    forall c {:trigger Keeps(rt, r, c)} :: c in rt.cos && !rt.cos[c].ended ==> Keeps(rt, r, c)
  }

  lemma KeepsTransitive(a: Runtime, b: Runtime, c: Runtime)
    requires Inv(a) && Inv(b) && Inv(c) && KeepsAll(a, b) && KeepsAll(b, c)
    ensures KeepsAll(a, c)
  {
    forall i | i in a.cos && !a.cos[i].ended ensures Keeps(a, c, i) {
      assert Keeps(a, b, i) && Keeps(b, c, i);
    }
  }

  // ----- eviction

  /** An owner is a live coroutine of that stack, so only the SP bound can fail. */
  lemma EvictAbortsIff(rt: Runtime, s: StackId)
    requires Inv(rt) && s in rt.stacks
    ensures var st := rt.stacks[s];
      Evict(rt, s).None? <==>
        st.owner.Some? && !(st.lay.high - st.lay.limit <= rt.cos[st.owner.value].sp <= st.lay.ret)
  {
    assert StackInv(rt, s);
  }

  lemma EvictKeeps(rt: Runtime, s: StackId)
    requires Inv(rt) && s in rt.stacks && rt.running.None? && Evict(rt, s).Some?
    ensures var r := Evict(rt, s).value;
      && Inv(r) && KeepsAll(rt, r) && r.running.None? && r.cos.Keys == rt.cos.Keys
      && s in r.stacks && r.stacks[s].owner == None
      && SameLife(rt, r)
  {
    EvictInv(rt, s);
    var r := Evict(rt, s).value;
    assert StackInv(rt, s);
    forall c | c in rt.cos && !rt.cos[c].ended ensures Keeps(rt, r, c) {
      assert CoOk(rt, c);
    }
  }

  ghost predicate SameLife(rt: Runtime, r: Runtime) {
    && r.cos.Keys == rt.cos.Keys
    && forall c :: c in rt.cos ==> r.cos[c].ended == rt.cos[c].ended && r.cos[c].stack == rt.cos[c].stack
  }

  lemma EvictInv(rt: Runtime, s: StackId)
    requires Inv(rt) && s in rt.stacks && rt.running.None? && Evict(rt, s).Some?
    ensures Inv(Evict(rt, s).value)
  {
    hide Saved, Slice, BufferInv, EvictedInv;
    var r := Evict(rt, s).value;
    EvictWellFormed(rt, s);
    assert StackInv(rt, s) && StackOk(rt, s);
    if rt.stacks[s].owner.Some? {
      var o := rt.stacks[s].owner.value;
      OwnerEvicted(rt, s, o);
      forall t | t in r.stacks ensures StackInv(r, t) {
        assert StackInv(rt, t);
      }
      forall c | c in r.cos ensures CoInv(r, c) {
        assert CoInv(rt, c) && CoOk(rt, c);
      }
    }
  }

  lemma OwnerEvicted(rt: Runtime, s: StackId, o: CoId)
    requires Inv(rt) && s in rt.stacks && Evict(rt, s).Some? && rt.stacks[s].owner == Some(o)
    ensures var r := Evict(rt, s).value; WellFormed(r) && o in r.cos && CoInv(r, o)
    ensures forall c :: c in rt.cos && c != o ==> Evict(rt, s).value.cos[c] == rt.cos[c]
  {
    EvictWellFormed(rt, s);
    assert StackInv(rt, s) && StackOk(rt, s) && CoInv(rt, o);
    SavedIsEvicted(rt.stacks[s], rt.cos[o]);
  }

  /** What eviction leaves of its owner satisfies the invariant of one without a stack. */
  lemma SavedIsEvicted(st: Stack, co: Co)
    requires LayoutOk(st.lay) && |st.mem| == st.lay.sz && st.lay.high - st.lay.limit <= co.sp <= st.lay.ret
    requires BufferInv(co) && 0 < co.saveSz && co.ctSave == co.ctRestore
    ensures var bytes := Slice(st, co.sp, st.lay.ret); var after := Saved(co, bytes);
      && BufferInv(after) && 0 < after.saveSz && EvictedInv(st.lay, after)
      && after.saved == bytes && after.maxCpsz == (if |bytes| > co.maxCpsz then |bytes| else co.maxCpsz)
      && after.stack == co.stack && after.sp == co.sp && after.ended == co.ended && after.ctRestore == co.ctRestore
  {
    var need := st.lay.ret - co.sp;
    if co.saveSz < need {
      GrowBounds(co.saveSz, need);
    }
  }

  // ----- restore

  lemma RestoreKeeps(rt: Runtime, c: CoId)
    requires Inv(rt) && rt.running.None? && c in rt.cos && !rt.cos[c].ended
    requires StackOf(rt, c).owner == None
    ensures Restore(rt, c).Some?
    ensures var r := Restore(rt, c).value;
      Inv(r) && KeepsAll(rt, r) && r.running.None? && Owns(r, c) && SameLife(rt, r)
  {
    RestoreInv(rt, c);
    var r := Restore(rt, c).value;
    assert CoOk(rt, c);
    RestoredSelf(rt, c);
    forall d | d in rt.cos && !rt.cos[d].ended ensures Keeps(rt, r, d) {
      if d != c {
        RestoredOther(rt, c, d);
      }
    }
  }

  lemma RestoredSelf(rt: Runtime, c: CoId)
    requires Inv(rt) && c in rt.cos && !rt.cos[c].ended && StackOf(rt, c).owner == None
    requires Restore(rt, c).Some? && Inv(Restore(rt, c).value)
    ensures Keeps(rt, Restore(rt, c).value, c)
  {
    var s := rt.cos[c].stack;
    assert CoInv(rt, c) && CoOk(rt, c) && StackOk(rt, s);
    var co, st := rt.cos[c], rt.stacks[s];
    PokeSlice(st, st.lay.ret - |co.saved|, co.saved, co.sp, st.lay.ret);
  }

  lemma RestoredOther(rt: Runtime, c: CoId, d: CoId)
    requires Inv(rt) && c in rt.cos && !rt.cos[c].ended && StackOf(rt, c).owner == None
    requires Restore(rt, c).Some? && Inv(Restore(rt, c).value)
    requires d in rt.cos && !rt.cos[d].ended && d != c
    ensures Keeps(rt, Restore(rt, c).value, d)
  {
    hide Slice, CoInv, StackInv;
    assert CoOk(rt, c) && CoOk(rt, d);
  }

  lemma RestoreInv(rt: Runtime, c: CoId)
    requires Inv(rt) && rt.running.None? && c in rt.cos && !rt.cos[c].ended
    requires StackOf(rt, c).owner == None
    ensures Restore(rt, c).Some? && Inv(Restore(rt, c).value)
  {
    assert CoInv(rt, c) && CoOk(rt, c);
    var s := rt.cos[c].stack;
    assert StackOk(rt, s) && StackInv(rt, s);
    RestoreWellFormed(rt, c);
    var r := Restore(rt, c).value;
    hide Poke, Slice;
    assert CoInv(r, c);
    hide EvictedInv, BufferInv;
    forall t | t in r.stacks ensures StackInv(r, t) {
      assert StackInv(rt, t);
    }
    forall d | d in r.cos ensures CoInv(r, d) {
      assert CoInv(rt, d) && CoOk(rt, d);
    }
  }

  lemma RestoreWellFormed(rt: Runtime, c: CoId)
    requires WellFormed(rt) && c in rt.cos && Restore(rt, c).Some?
    ensures WellFormed(Restore(rt, c).value)
  {
    var r := Restore(rt, c).value;
    assert CoOk(rt, c);
    forall t | t in r.stacks ensures StackOk(r, t) {
      assert StackOk(rt, t);
    }
    forall d | d in r.cos ensures CoOk(r, d) {
      assert CoOk(rt, d);
    }
  }

  // ----- resume

  /** Under correct use `mz_resume` aborts in two cases only: the coroutine has ended, or the
      coroutine it would evict had left its SP out of bounds.  The assertions on ownership and
      on the restored size never fail. */
  lemma ResumeAbortsIff(rt: Runtime, c: CoId)
    requires Inv(rt) && rt.running.None? && c in rt.cos
    ensures var st := StackOf(rt, c);
      var evicts := st.owner.Some? && st.owner != Some(c);
      Resume(rt, c).None? <==>
        rt.cos[c].ended || (evicts && !(st.lay.high - st.lay.limit <= rt.cos[st.owner.value].sp <= st.lay.ret))
  {
    assert CoOk(rt, c);
    var s := rt.cos[c].stack;
    assert StackOk(rt, s);
    EvictAbortsIff(rt, s);
    if !rt.cos[c].ended && Evict(rt, s).Some? {
      EvictKeeps(rt, s);
      RestoreKeeps(Evict(rt, s).value, c);
    }
  }

  /** A resumed coroutine owns its stack, and nobody's logical stack has changed. */
  lemma ResumeKeeps(rt: Runtime, c: CoId)
    requires Inv(rt) && rt.running.None? && c in rt.cos && Resume(rt, c).Some?
    ensures var r := Resume(rt, c).value;
      Inv(r) && KeepsAll(rt, r) && r.running == Some(c) && Owns(r, c)
  {
    assert CoOk(rt, c) && CoInv(rt, c);
    var s := rt.cos[c].stack;
    if StackOf(rt, c).owner == Some(c) {
      StartRunning(rt, c);
    } else {
      EvictKeeps(rt, s);
      var e := Evict(rt, s).value;
      RestoreKeeps(e, c);
      var r := Restore(e, c).value;
      KeepsTransitive(rt, e, r);
      StartRunning(r, c);
      KeepsTransitive(rt, r, r.(running := Some(c)));
    }
  }

  lemma StartRunning(rt: Runtime, c: CoId)
    requires Inv(rt) && Owns(rt, c) && rt.running.None?
    ensures var r := rt.(running := Some(c)); Inv(r) && KeepsAll(rt, r) && Owns(r, c)
  {
    var r := rt.(running := Some(c));
    forall s | s in r.stacks ensures StackOk(r, s) && StackInv(r, s) {
      assert StackOk(rt, s) && StackInv(rt, s);
    }
    forall d | d in r.cos ensures CoOk(r, d) {
      assert CoOk(rt, d);
    }
    forall d | d in r.cos ensures CoInv(r, d) {
      assert CoInv(rt, d);
    }
    forall d | d in rt.cos && !rt.cos[d].ended ensures Keeps(rt, r, d) {
    }
  }

  // ----- the other steps

  lemma WriteKeeps(rt: Runtime, at: nat, b: Byte)
    requires Inv(rt) && Allowed(rt, Wrote(at, b))
    ensures Inv(Write(rt, at, b))
    ensures forall c {:trigger Keeps(rt, Write(rt, at, b), c)} :: Suspended(rt, c) ==> Keeps(rt, Write(rt, at, b), c)
  {
    var c := rt.running.value;
    var s := rt.cos[c].stack;
    assert CoOk(rt, c) && StackOk(rt, s);
    var r := Write(rt, at, b);
    hide Slice, EvictedInv, BufferInv;
    forall t | t in r.stacks ensures StackOk(r, t) {
      assert StackOk(rt, t);
    }
    forall d | d in r.cos ensures CoOk(r, d) {
      assert CoOk(rt, d);
    }
    forall t | t in r.stacks ensures StackInv(r, t) {
      assert StackInv(rt, t);
    }
    forall d | d in r.cos ensures CoInv(r, d) {
      assert CoInv(rt, d);
    }
    forall d | Suspended(rt, d) ensures Keeps(rt, r, d) {
      assert CoInv(rt, d);
    }
  }

  lemma YieldKeeps(rt: Runtime, sp: nat)
    requires Inv(rt) && Allowed(rt, Yielded(sp))
    ensures Inv(Yield(rt, sp))
    ensures forall c {:trigger Keeps(rt, Yield(rt, sp), c)} :: Suspended(rt, c) ==> Keeps(rt, Yield(rt, sp), c)
  {
    var c := rt.running.value;
    var r := Yield(rt, sp);
    hide Slice, EvictedInv, BufferInv;
    assert CoInv(rt, c) && CoOk(rt, c);
    forall t | t in r.stacks ensures StackOk(r, t) {
      assert StackOk(rt, t);
    }
    forall d | d in r.cos ensures CoOk(r, d) {
      assert CoOk(rt, d);
    }
    forall t | t in r.stacks ensures StackInv(r, t) {
      assert StackInv(rt, t);
    }
    forall d | d in r.cos ensures CoInv(r, d) {
      assert CoInv(rt, d);
    }
  }

  /** `mz_exit1`: its assertion holds, because the running coroutine owns its stack. */
  lemma ExitKeeps(rt: Runtime, sp: nat)
    requires Inv(rt) && Allowed(rt, Exited(sp))
    ensures Exit(rt, sp).Some? && Inv(Exit(rt, sp).value)
    ensures forall c {:trigger Keeps(rt, Exit(rt, sp).value, c)} ::
      Suspended(rt, c) ==> Keeps(rt, Exit(rt, sp).value, c)
  {
    ExitInv(rt, sp);
    var c := rt.running.value;
    var r := Exit(rt, sp).value;
    hide Slice;
    assert CoOk(rt, c);
    forall d | Suspended(rt, d) ensures Keeps(rt, r, d) {
      assert CoOk(rt, d) && StackInv(rt, rt.cos[d].stack);
    }
  }

  lemma ExitInv(rt: Runtime, sp: nat)
    requires Inv(rt) && Allowed(rt, Exited(sp))
    ensures Exit(rt, sp).Some? && Inv(Exit(rt, sp).value)
  {
    var c := rt.running.value;
    var r := Exit(rt, sp).value;
    hide Slice, EvictedInv, BufferInv;
    assert CoInv(rt, c) && CoOk(rt, c);
    forall t | t in r.stacks ensures StackOk(r, t) {
      assert StackOk(rt, t);
    }
    forall d | d in r.cos ensures CoOk(r, d) {
      assert CoOk(rt, d);
    }
    forall t | t in r.stacks ensures StackInv(r, t) {
      assert StackInv(rt, t);
    }
    forall d | d in r.cos ensures CoInv(r, d) {
      assert CoInv(rt, d);
    }
  }

  lemma DestroyKeeps(rt: Runtime, c: CoId)
    requires Inv(rt) && Allowed(rt, Destroyed(c))
    ensures Inv(Destroy(rt, c))
    ensures forall d {:trigger Keeps(rt, Destroy(rt, c), d)} ::
      Suspended(rt, d) && d != c ==> Keeps(rt, Destroy(rt, c), d)
  {
    DestroyInv(rt, c);
    var r := Destroy(rt, c);
    hide Slice;
    assert CoOk(rt, c);
    forall d | Suspended(rt, d) && d != c ensures Keeps(rt, r, d) {
      assert CoOk(rt, d);
    }
  }

  lemma DestroyInv(rt: Runtime, c: CoId)
    requires Inv(rt) && Allowed(rt, Destroyed(c))
    ensures Inv(Destroy(rt, c))
  {
    var r := Destroy(rt, c);
    hide Slice, EvictedInv, BufferInv;
    DestroyWellFormed(rt, c);
    assert CoOk(rt, c);
    forall t | t in r.stacks ensures StackInv(r, t) {
      assert StackInv(rt, t);
    }
    forall d | d in r.cos ensures CoInv(r, d) {
      assert CoInv(rt, d);
    }
  }

  lemma DestroyWellFormed(rt: Runtime, c: CoId)
    requires Inv(rt) && Allowed(rt, Destroyed(c))
    ensures WellFormed(Destroy(rt, c))
  {
    var r := Destroy(rt, c);
    assert CoOk(rt, c);
    forall t | t in r.stacks ensures StackOk(r, t) {
      assert StackOk(rt, t) && StackInv(rt, t);
    }
    forall d | d in r.cos ensures CoOk(r, d) {
      assert CoOk(rt, d);
    }
  }

  lemma CreateKeeps(rt: Runtime, c: CoId, s: StackId, saveSz: UInt64)
    requires Inv(rt) && Allowed(rt, Created(c, s, saveSz))
    ensures Inv(Create(rt, c, s, saveSz)) && KeepsAll(rt, Create(rt, c, s, saveSz))
  {
    var r := Create(rt, c, s, saveSz);
    hide Slice;
    assert StackOk(rt, s) && StackInv(rt, s);
    forall t | t in r.stacks ensures StackOk(r, t) {
      assert StackOk(rt, t);
    }
    forall d | d in r.cos ensures CoOk(r, d) {
      assert d != c ==> CoOk(rt, d);
    }
    forall t | t in r.stacks ensures StackInv(r, t) {
      assert StackInv(rt, t) && StackOk(rt, t);
    }
    forall d | d in r.cos ensures CoInv(r, d) {
      assert d != c ==> CoInv(rt, d);
    }
  }

  lemma StacksKeep(rt: Runtime, r: Runtime)
    requires Inv(rt) && r.cos == rt.cos && r.running == rt.running
    requires forall c :: c in rt.cos ==> rt.cos[c].stack in r.stacks
    requires forall s :: s in r.stacks && s in rt.stacks ==> r.stacks[s] == rt.stacks[s]
    requires forall s :: s in r.stacks && s !in rt.stacks ==>
      && LayoutOk(r.stacks[s].lay) && |r.stacks[s].mem| == r.stacks[s].lay.sz
      && r.stacks[s].owner == None && r.stacks[s].alignValid == 0
    ensures Inv(r) && KeepsAll(rt, r)
  {
    hide Slice, LayoutOk;
    forall t | t in r.stacks ensures StackOk(r, t) {
      assert t in rt.stacks ==> StackOk(rt, t);
    }
    forall d | d in r.cos ensures CoOk(r, d) {
      assert CoOk(rt, d);
    }
    forall t | t in r.stacks ensures StackInv(r, t) {
      assert t in rt.stacks ==> StackInv(rt, t);
    }
    forall d | d in r.cos ensures CoInv(r, d) {
      assert CoInv(rt, d);
    }
  }

  // ----- one step

  /** Coroutine c is resumed or destroyed by e. */
  predicate Touches(e: Event, c: CoId) {
    e == Resumed(c) || e == Destroyed(c)
  }

  /** Every step keeps the invariant, and the logical stack of every suspended coroutine that
      it does not resume or destroy.  Resuming keeps the logical stack as well. */
  lemma StepKeeps(rt: Runtime, e: Event)
    requires Inv(rt) && Allowed(rt, e) && Step(rt, e).Some?
    ensures var r := Step(rt, e).value;
      && Inv(r)
      && (forall c {:trigger Keeps(rt, r, c)} :: Suspended(rt, c) && e != Destroyed(c) ==> Keeps(rt, r, c))
      && (e.Resumed? ==> r.running == Some(e.c) && Owns(r, e.c))
  {
    var r := Step(rt, e).value;
    hide Keeps;
    match e
    case NewStack(s, lay, mem) => {
      assert forall c :: c in rt.cos ==> CoOk(rt, c);
      StacksKeep(rt, r);
    }
    case DropStack(s) => {
      assert forall c :: c in rt.cos ==> CoOk(rt, c);
      StacksKeep(rt, r);
    }
    case Created(c, s, saveSz) => CreateKeeps(rt, c, s, saveSz);
    case Resumed(c) => ResumeKeeps(rt, c);
    case Wrote(at, b) => WriteKeeps(rt, at, b);
    case Yielded(sp) => YieldKeeps(rt, sp);
    case Exited(sp) => ExitKeeps(rt, sp);
    case Destroyed(c) => DestroyKeeps(rt, c);
  }

  /** Under correct use only `mz_resume` can abort. */
  lemma OnlyResumeAborts(rt: Runtime, e: Event)
    requires Inv(rt) && Allowed(rt, e)
    ensures Step(rt, e).None? ==> e.Resumed?
  {
    if e.Exited? {
      ExitKeeps(rt, e.sp);
    }
  }

  lemma StaysSuspended(rt: Runtime, e: Event, c: CoId)
    requires Inv(rt) && Allowed(rt, e) && Step(rt, e).Some? && Suspended(rt, c) && !Touches(e, c)
    ensures var r := Step(rt, e).value; Inv(r) && Suspended(r, c) && Keeps(rt, r, c)
  {
    StepKeeps(rt, e);
    var r := Step(rt, e).value;
    assert Keeps(rt, r, c);
    hide Inv, WellFormed, Allowed, Logical, Evict, Restore;
  }

  /** A stack keeps its layout and the word in its return slot: nothing writes at or above
      `align_retptr`. */
  lemma StepKeepsSlots(rt: Runtime, e: Event, s: StackId)
    requires Inv(rt) && Allowed(rt, e) && Step(rt, e).Some?
    requires s in rt.stacks && s in Step(rt, e).value.stacks
    ensures SlotKept(rt.stacks[s], Step(rt, e).value.stacks[s])
  {
    hide Resume, Write, Exit, Destroy, Yield, Create, SlotKept, Inv, WellFormed;
    match e
    case Resumed(c) => ResumeKeepsSlots(rt, c, s);
    case Wrote(at, b) => WriteKeepsSlots(rt, at, b, s);
    case _ => OthersKeepSlots(rt, e, s);
  }

  lemma OthersKeepSlots(rt: Runtime, e: Event, s: StackId)
    requires Inv(rt) && Allowed(rt, e) && Step(rt, e).Some? && !e.Resumed? && !e.Wrote?
    requires s in rt.stacks && s in Step(rt, e).value.stacks
    ensures SlotKept(rt.stacks[s], Step(rt, e).value.stacks[s])
  {
    assert StackOk(rt, s);
    hide Slice, Inv, WellFormed;
  }

  lemma WriteKeepsSlots(rt: Runtime, at: nat, b: Byte, s: StackId)
    requires Inv(rt) && Allowed(rt, Wrote(at, b)) && s in rt.stacks
    ensures s in Write(rt, at, b).stacks && SlotKept(rt.stacks[s], Write(rt, at, b).stacks[s])
  {
    var c := rt.running.value;
    assert CoOk(rt, c) && StackOk(rt, s);
    var st := StackOf(rt, c);
    assert StackOk(rt, rt.cos[c].stack);
    PokeSlice(st, at, [b], st.lay.ret, st.lay.high);
    hide Poke, Slice;
  }

  ghost predicate SlotKept(a: Stack, b: Stack) {
    && a.lay == b.lay && LayoutOk(a.lay) && |a.mem| == |b.mem| == a.lay.sz
    && Slice(b, a.lay.ret, a.lay.high) == Slice(a, a.lay.ret, a.lay.high)
  }

  lemma ResumeKeepsSlots(rt: Runtime, c: CoId, s: StackId)
    requires Inv(rt) && rt.running.None? && c in rt.cos && Resume(rt, c).Some? && s in rt.stacks
    ensures s in Resume(rt, c).value.stacks && SlotKept(rt.stacks[s], Resume(rt, c).value.stacks[s])
  {
    assert StackOk(rt, s) && CoOk(rt, c);
    if StackOf(rt, c).owner != Some(c) {
      EvictKeeps(rt, rt.cos[c].stack);
      var e := Evict(rt, rt.cos[c].stack).value;
      EvictKeepsSlots(rt, rt.cos[c].stack, s);
      RestoreKeepsSlots(e, c, s);
      SlotKeptTransitive(rt.stacks[s], e.stacks[s], Restore(e, c).value.stacks[s]);
      hide SlotKept, Evict, Restore, Inv;
    }
  }

  lemma SlotKeptTransitive(a: Stack, b: Stack, c: Stack)
    requires SlotKept(a, b) && SlotKept(b, c)
    ensures SlotKept(a, c)
  {
  }

  lemma EvictKeepsSlots(rt: Runtime, s: StackId, t: StackId)
    requires Inv(rt) && s in rt.stacks && t in rt.stacks && Evict(rt, s).Some?
    ensures t in Evict(rt, s).value.stacks && SlotKept(rt.stacks[t], Evict(rt, s).value.stacks[t])
  {
    assert StackOk(rt, t);
  }

  lemma RestoreKeepsSlots(rt: Runtime, c: CoId, s: StackId)
    requires Inv(rt) && c in rt.cos && Restore(rt, c).Some? && s in rt.stacks
    ensures s in Restore(rt, c).value.stacks && SlotKept(rt.stacks[s], Restore(rt, c).value.stacks[s])
  {
    assert CoOk(rt, c) && StackOk(rt, s);
    var co, st := rt.cos[c], StackOf(rt, c);
    assert StackOk(rt, co.stack);
    PokeSlice(st, st.lay.ret - |co.saved|, co.saved, st.lay.ret, st.lay.high);
    hide Poke, Slice;
  }

  lemma StepGrowsBuffers(rt: Runtime, e: Event, c: CoId)
    requires Inv(rt) && Allowed(rt, e) && Step(rt, e).Some?
    requires c in rt.cos && c in Step(rt, e).value.cos
    ensures var r := Step(rt, e).value;
      rt.cos[c].saveSz <= r.cos[c].saveSz && rt.cos[c].maxCpsz <= r.cos[c].maxCpsz <= r.cos[c].saveSz
  {
    StepKeeps(rt, e);
    assert CoInv(Step(rt, e).value, c);
    if e.Resumed? && StackOf(rt, e.c).owner != Some(e.c) {
      assert CoOk(rt, e.c);
      GrowKeeps(rt, rt.cos[e.c].stack, c);
    }
  }

  lemma GrowKeeps(rt: Runtime, s: StackId, c: CoId)
    requires Inv(rt) && s in rt.stacks && c in rt.cos && Evict(rt, s).Some?
    ensures c in Evict(rt, s).value.cos && rt.cos[c].saveSz <= Evict(rt, s).value.cos[c].saveSz
    ensures rt.cos[c].maxCpsz <= Evict(rt, s).value.cos[c].maxCpsz
  {
    assert StackInv(rt, s) && StackOk(rt, s) && CoOk(rt, c);
    if rt.stacks[s].owner == Some(c) {
      GrowsUp(rt.cos[c].saveSz, rt.stacks[s].lay.ret - rt.cos[c].sp);
    }
  }

  lemma GrowsUp(sz: nat, need: nat)
    requires 0 < sz
    ensures sz <= Grow(sz, need)
    decreases need - sz
  {
    if sz < need {
      GrowsUp(2 * sz, need);
    }
  }

  /** No coroutine owns two stacks. */
  lemma OneStackEach(rt: Runtime, s: StackId, t: StackId)
    requires Inv(rt) && s in rt.stacks && t in rt.stacks
    requires rt.stacks[s].owner.Some? && rt.stacks[s].owner == rt.stacks[t].owner
    ensures s == t
  {
    assert StackInv(rt, s) && StackInv(rt, t);
  }

  // ----- whole runs

  ghost predicate StepsTo(rt: Runtime, e: Event, r: Runtime) {
    WellFormed(rt) && Allowed(rt, e) && Step(rt, e) == Some(r)
  }

  /** A run from nothing: every state, and the event between each two. */
  ghost predicate Trace(states: seq<Runtime>, events: seq<Event>) {
    && |states| == |events| + 1 && states[0] == EMPTY_RUNTIME
    && forall i :: 0 <= i < |events| ==> StepsTo(states[i], events[i], states[i + 1])
  }

  lemma {:induction false} TraceInv(states: seq<Runtime>, events: seq<Event>, i: nat)
    requires Trace(states, events) && i <= |events|
    ensures Inv(states[i])
  {
    if 0 < i {
      TraceInv(states, events, i - 1);
      assert StepsTo(states[i - 1], events[i - 1], states[i]);
      hide Inv, WellFormed, Allowed, Step;
      StepKeeps(states[i - 1], events[i - 1]);
    }
  }

  /** While nobody resumes or destroys a suspended coroutine, its logical stack stands still,
      whatever else runs on its stack. */
  lemma {:induction false} LogicalStands(states: seq<Runtime>, events: seq<Event>, c: CoId, i: nat, j: nat)
    requires Trace(states, events) && i <= j <= |events|
    requires Suspended(states[i], c)
    requires forall k :: i <= k < j ==> !Touches(events[k], c)
    ensures Inv(states[i]) && Inv(states[j]) && Suspended(states[j], c) && Keeps(states[i], states[j], c)
    decreases j - i
  {
    TraceInv(states, events, i);
    TraceInv(states, events, j);
    if i < j {
      LogicalStands(states, events, c, i, j - 1);
      assert StepsTo(states[j - 1], events[j - 1], states[j]);
      StaysSuspended(states[j - 1], events[j - 1], c);
    }
  }

  /** A coroutine that yields at step i and regains control at step j finds its SP, and every
      byte from there to the return slot, exactly as it left them. */
  lemma RegainsItsStack(states: seq<Runtime>, events: seq<Event>, c: CoId, i: nat, j: nat)
    requires Trace(states, events) && i < j < |events|
    requires states[i].running == Some(c) && events[i].Yielded? && events[j] == Resumed(c)
    requires forall k :: i < k < j ==> !Touches(events[k], c)
    ensures Inv(states[i]) && Inv(states[j + 1])
    ensures Owns(states[i], c) && Owns(states[j + 1], c) && states[j + 1].running == Some(c)
    ensures states[j + 1].cos[c].sp == events[i].sp
    ensures var before, after := StackOf(states[i], c), StackOf(states[j + 1], c);
      && before.lay == after.lay && before.lay.ptr <= events[i].sp <= before.lay.ret
      && |before.mem| == |after.mem| == before.lay.sz && LayoutOk(before.lay)
      && Slice(after, events[i].sp, after.lay.ret) == Slice(before, events[i].sp, before.lay.ret)
  {
    TraceInv(states, events, i);
    assert StepsTo(states[i], events[i], states[i + 1]);
    YieldsItsStack(states[i], c, events[i].sp);
    LogicalStands(states, events, c, i + 1, j);
    assert StepsTo(states[j], events[j], states[j + 1]);
    StepKeeps(states[j], events[j]);
    assert Keeps(states[j], states[j + 1], c);
    OwnedLogical(states[j + 1], c);
  }

  lemma OwnedLogical(rt: Runtime, c: CoId)
    requires Inv(rt) && Owns(rt, c)
    ensures var st := StackOf(rt, c);
      && LayoutOk(st.lay) && |st.mem| == st.lay.sz && st.lay.ptr <= rt.cos[c].sp <= st.lay.ret
      && Logical(rt, c) == Slice(st, rt.cos[c].sp, st.lay.ret)
  {
    assert CoInv(rt, c) && CoOk(rt, c) && StackOk(rt, rt.cos[c].stack);
  }

  lemma YieldsItsStack(rt: Runtime, c: CoId, sp: nat)
    requires Inv(rt) && rt.running == Some(c) && Allowed(rt, Yielded(sp))
    ensures var r := Yield(rt, sp);
      && Inv(r) && Suspended(r, c) && r.cos[c].sp == sp && Owns(r, c) && Owns(rt, c)
      && StackOf(r, c) == StackOf(rt, c)
      && LayoutOk(StackOf(rt, c).lay) && |StackOf(rt, c).mem| == StackOf(rt, c).lay.sz
      && Logical(r, c) == Slice(StackOf(rt, c), sp, StackOf(rt, c).lay.ret)
  {
    YieldKeeps(rt, sp);
    OwnedLogical(Yield(rt, sp), c);
    assert CoOk(rt, c);
  }

  lemma StartsAtSlot(states: seq<Runtime>, events: seq<Event>, c: CoId, i: nat, j: nat)
    requires Trace(states, events) && i < j < |events|
    requires events[i].Created? && events[i].c == c && events[j] == Resumed(c)
    requires forall k :: i < k < j ==> !Touches(events[k], c)
    ensures Inv(states[j + 1]) && Owns(states[j + 1], c)
    ensures states[j + 1].cos[c].sp == StackOf(states[j + 1], c).lay.ret
    ensures states[j + 1].cos[c].stack == events[i].s
  {
    TraceInv(states, events, i);
    assert StepsTo(states[i], events[i], states[i + 1]);
    LogicalStands(states, events, c, i + 1, j);
    assert StepsTo(states[j], events[j], states[j + 1]);
    StepKeeps(states[j], events[j]);
    assert Keeps(states[j], states[j + 1], c);
  }

  /** From the creation of a stack to its end, the word in its return slot stays. */
  lemma {:induction false} SlotStands(states: seq<Runtime>, events: seq<Event>, s: StackId, i: nat, j: nat)
    requires Trace(states, events) && i <= j <= |events| && s in states[i].stacks
    requires forall k :: i <= k < j ==> events[k] != DropStack(s)
    ensures s in states[j].stacks && SlotKept(states[i].stacks[s], states[j].stacks[s])
    decreases j - i
  {
    TraceInv(states, events, i);
    assert StackOk(states[i], s);
    if i < j {
      SlotStands(states, events, s, i, j - 1);
      TraceInv(states, events, j - 1);
      assert StepsTo(states[j - 1], events[j - 1], states[j]);
      StackStays(states[j - 1], events[j - 1], s);
      StepKeepsSlots(states[j - 1], events[j - 1], s);
    }
  }

  /** A coroutine that has never run starts at the return slot, with nothing below it, and finds
      in the slot the word that was put there when its stack was made: its first return goes
      where the maker of the stack meant, whatever ran there before. */
  lemma FirstEntry(states: seq<Runtime>, events: seq<Event>, c: CoId, h: nat, i: nat, j: nat)
    requires Trace(states, events) && h < i < j < |events|
    requires events[i].Created? && events[i].c == c && events[j] == Resumed(c)
    requires forall k :: i < k < j ==> !Touches(events[k], c)
    requires events[h].NewStack? && events[h].s == events[i].s
    requires forall k :: h < k < j ==> events[k] != DropStack(events[i].s)
    ensures Inv(states[j + 1]) && Owns(states[j + 1], c)
    ensures states[j + 1].cos[c].sp == StackOf(states[j + 1], c).lay.ret
    ensures var made, now := Stack(events[h].lay, events[h].mem, None, 0), StackOf(states[j + 1], c);
      && LayoutOk(made.lay) && |made.mem| == |now.mem| == made.lay.sz && now.lay == made.lay
      && Slice(now, made.lay.ret, made.lay.high) == Slice(made, made.lay.ret, made.lay.high)
  {
    StartsAtSlot(states, events, c, i, j);
    assert StepsTo(states[h], events[h], states[h + 1]);
    SlotStands(states, events, events[i].s, h + 1, j + 1);
  }

  lemma StackStays(rt: Runtime, e: Event, s: StackId)
    requires Inv(rt) && Allowed(rt, e) && Step(rt, e).Some? && s in rt.stacks && e != DropStack(s)
    ensures s in Step(rt, e).value.stacks
  {
    if e.Resumed? {
      ResumeKeepsSlots(rt, e.c, s);
    }
  }

  // ----- runs without overflow

  /** From `align_highptr - align_limit` to `align_retptr`. */
  predicate InBounds(lay: Layout, sp: nat) {
    lay.high - lay.limit <= sp <= lay.ret
  }

  /** Everybody who is not running has left its SP where eviction accepts it. */
  ghost predicate SpsInBounds(rt: Runtime)
    requires WellFormed(rt)
  {
    forall c {:trigger Suspended(rt, c)} :: Suspended(rt, c) ==> InBounds(StackOf(rt, c).lay, rt.cos[c].sp)
  }

  ghost predicate YieldsInBounds(rt: Runtime, e: Event)
    requires WellFormed(rt) && Allowed(rt, e)
  {
    e.Yielded? ==> InBounds(StackOf(rt, rt.running.value).lay, e.sp)
  }

  lemma StepKeepsBounds(rt: Runtime, e: Event)
    requires Inv(rt) && Allowed(rt, e) && Step(rt, e).Some? && SpsInBounds(rt) && YieldsInBounds(rt, e)
    ensures Inv(Step(rt, e).value) && SpsInBounds(Step(rt, e).value)
  {
    StepKeeps(rt, e);
    var r := Step(rt, e).value;
    forall c | Suspended(r, c) ensures InBounds(StackOf(r, c).lay, r.cos[c].sp) {
      if Suspended(rt, c) {
        NotDestroyed(rt, e, c);
        assert Keeps(rt, r, c);
      } else {
        NewlySuspended(rt, e, c);
      }
    }
  }

  lemma NotDestroyed(rt: Runtime, e: Event, c: CoId)
    requires Inv(rt) && Allowed(rt, e) && Step(rt, e).Some? && c in Step(rt, e).value.cos
    ensures e != Destroyed(c)
  {
  }

  /** A coroutine becomes suspended by being created, at the return slot, or by yielding. */
  lemma NewlySuspended(rt: Runtime, e: Event, c: CoId)
    requires Inv(rt) && Allowed(rt, e) && Step(rt, e).Some? && Inv(Step(rt, e).value)
    requires !Suspended(rt, c) && Suspended(Step(rt, e).value, c) && YieldsInBounds(rt, e)
    ensures var r := Step(rt, e).value; InBounds(StackOf(r, c).lay, r.cos[c].sp)
  {
    match e
    case Resumed(d) => {
      ResumeKeeps(rt, d);
      ResumeAbortsIff(rt, d);
      ResumeAddsNobody(rt, d, c);
    }
    case Created(d, s, saveSz) => {
      assert StackOk(rt, s);
    }
    case Yielded(sp) => {
      assert CoOk(rt, rt.running.value);
    }
    case _ =>
  }

  lemma ResumeAddsNobody(rt: Runtime, c: CoId, d: CoId)
    requires Inv(rt) && rt.running.None? && c in rt.cos && Resume(rt, c).Some?
    requires d in Resume(rt, c).value.cos && !Resume(rt, c).value.cos[d].ended
    ensures d in rt.cos && !rt.cos[d].ended
  {
    assert CoOk(rt, c);
    if StackOf(rt, c).owner != Some(c) {
      EvictKeeps(rt, rt.cos[c].stack);
      RestoreKeeps(Evict(rt, rt.cos[c].stack).value, c);
    }
  }

  /** If every yield of a run leaves the SP in bounds, no resume of a live coroutine aborts. */
  lemma {:induction false} DisciplinedRun(states: seq<Runtime>, events: seq<Event>, i: nat)
    requires Trace(states, events) && i <= |events|
    requires forall k :: 0 <= k < |events| && events[k].Yielded? ==>
      && WellFormed(states[k]) && Allowed(states[k], events[k])
      && var lay := StackOf(states[k], states[k].running.value).lay; lay.high - lay.limit <= events[k].sp <= lay.ret
    ensures Inv(states[i]) && SpsInBounds(states[i])
    ensures forall c :: c in states[i].cos && !states[i].cos[c].ended && states[i].running.None? ==>
      Resume(states[i], c).Some?
  {
    if 0 < i {
      DisciplinedRun(states, events, i - 1);
      assert StepsTo(states[i - 1], events[i - 1], states[i]);
      StepKeepsBounds(states[i - 1], events[i - 1]);
    }
    var rt := states[i];
    forall c | c in rt.cos && !rt.cos[c].ended && rt.running.None? ensures Resume(rt, c).Some? {
      ResumeAbortsIff(rt, c);
      assert CoOk(rt, c) && StackInv(rt, rt.cos[c].stack) && StackOk(rt, rt.cos[c].stack);
      if StackOf(rt, c).owner.Some? {
        assert Suspended(rt, StackOf(rt, c).owner.value);
      }
    }
  }

  // ----- after the end

  /** Nothing but its destruction changes a coroutine that has ended. */
  lemma StaysEnded(rt: Runtime, e: Event, c: CoId)
    requires Inv(rt) && Allowed(rt, e) && Step(rt, e).Some? && c in rt.cos && rt.cos[c].ended && e != Destroyed(c)
    ensures c in Step(rt, e).value.cos && Step(rt, e).value.cos[c] == rt.cos[c]
  {
    if e.Resumed? {
      var s := rt.cos[e.c].stack;
      assert CoOk(rt, e.c) && StackInv(rt, s);
      hide Saved, Slice, Poke, LayoutOk;
    }
  }

  /** What `mz_exit1` leaves: the coroutine has ended with this SP, its stack is free, control is
      back in the main coroutine, and nothing else has changed. */
  lemma ExitEnds(rt: Runtime, sp: nat)
    requires Inv(rt) && Allowed(rt, Exited(sp))
    ensures Exit(rt, sp).Some?
    ensures var c, r := rt.running.value, Exit(rt, sp).value;
      && c in rt.cos && c in r.cos && r.cos[c].ended && r.cos[c] == rt.cos[c].(sp := sp, ended := true)
      && (forall d :: d in rt.cos && d != c ==> d in r.cos && r.cos[d] == rt.cos[d]) && r.cos.Keys == rt.cos.Keys
      && r.stacks.Keys == rt.stacks.Keys && r.running == None
      && (forall s :: s in rt.stacks ==>
        r.stacks[s].mem == rt.stacks[s].mem && r.stacks[s].lay == rt.stacks[s].lay && r.stacks[s].owner != Some(c))
  {
    ExitKeeps(rt, sp);
    var c, r := rt.running.value, Exit(rt, sp).value;
    assert CoOk(rt, c);
    forall s | s in rt.stacks ensures r.stacks[s].owner != Some(c) {
      assert StackInv(r, s);
    }
  }

  /** Over every run: a coroutine that has exited has ended for good.  Until it is destroyed it
      stays as its exit left it, owns no stack, and resuming it aborts. */
  lemma {:induction false} EndedForGood(states: seq<Runtime>, events: seq<Event>, c: CoId, i: nat, j: nat)
    requires Trace(states, events) && i < j <= |events|
    requires states[i].running == Some(c) && events[i].Exited?
    requires forall k :: i < k < j ==> events[k] != Destroyed(c)
    ensures c in states[i].cos && c in states[j].cos && Inv(states[j])
    ensures states[j].cos[c].ended && states[j].cos[c] == states[i].cos[c].(sp := events[i].sp, ended := true)
    ensures states[j].running != Some(c) && forall s :: s in states[j].stacks ==> states[j].stacks[s].owner != Some(c)
    ensures Resume(states[j], c) == None
    decreases j
  {
    hide Inv, WellFormed, Allowed, Step, Resume;
    TraceInv(states, events, j);
    TraceInv(states, events, j - 1);
    assert StepsTo(states[j - 1], events[j - 1], states[j]);
    if j == i + 1 {
      ExitIsStep(states[i], events[i]);
      ExitEnds(states[i], events[i].sp);
    } else {
      EndedForGood(states, events, c, i, j - 1);
      StaysEnded(states[j - 1], events[j - 1], c);
    }
    EndedOwnsNothing(states[j], c);
  }

  lemma ExitIsStep(rt: Runtime, e: Event)
    requires WellFormed(rt) && Allowed(rt, e) && e.Exited?
    ensures rt.running.Some? && Step(rt, e) == Exit(rt, e.sp) && Allowed(rt, Exited(e.sp))
  {
  }

  lemma EndedOwnsNothing(rt: Runtime, c: CoId)
    requires Inv(rt) && c in rt.cos && rt.cos[c].ended
    ensures rt.running != Some(c) && forall s :: s in rt.stacks ==> rt.stacks[s].owner != Some(c)
    ensures Resume(rt, c) == None
  {
    forall s | s in rt.stacks ensures rt.stacks[s].owner != Some(c) {
      assert StackInv(rt, s);
    }
  }

  /** A store changes the one byte, and nothing else of the machine. */
  lemma WriteStores(rt: Runtime, at: nat, b: Byte)
    requires Inv(rt) && Allowed(rt, Wrote(at, b))
    ensures var c := rt.running.value; var s := rt.cos[c].stack; var r := Write(rt, at, b);
      && c in rt.cos && s in rt.stacks && s in r.stacks
      && var st, after := rt.stacks[s], r.stacks[s];
      && st.lay.ptr <= at < st.lay.ptr + |st.mem| && |after.mem| == |st.mem|
      && (forall k :: 0 <= k < |st.mem| ==> after.mem[k] == if k == at - st.lay.ptr then b else st.mem[k])
      && r == rt.(stacks := rt.stacks[s := st.(mem := after.mem)])
  {
    assert CoOk(rt, rt.running.value) && StackOk(rt, rt.cos[rt.running.value].stack);
  }
}
