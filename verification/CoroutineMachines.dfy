/** All coroutine and stack objects of a thread together: under any schedule of commands they
    go through a run of the state machine, so that what holds in every run holds of them. */
module CoroutineMachines {
  import opened MachineInts
  import opened Options
  import opened ShareStacks
  import opened CoroutineModel
  import opened CoroutineRuns
  import opened Coroutines

  /** What the program does next; the ids name the objects. */
  datatype Command =
    | MakeStack(s: StackId, ptr: nat, sz: nat, word: nat, protector: seq<Byte>)
    | LoseStack(s: StackId)
    | MakeCoroutine(c: CoId, s: StackId, saveSz: UInt64)
    | ResumeIt(c: CoId)
    | Store(at: nat, b: Byte)
    | YieldAt(sp: nat)
    | ExitAt(sp: nat)
    | DestroyIt(c: CoId)

  /** Coroutine c takes its stack from another one, or from itself. */
  datatype Taking = Taking(c: CoId, from: CoId)

  /** A coroutine or a stack more, or one less. */
  datatype Change = CoAdded(c: CoId) | StackAdded(s: StackId) | CoRemoved(c: CoId) | StackRemoved(s: StackId)

  /** A command against the rules is refused; a failed assertion aborts the program. */
  datatype Outcome = Done | Refused | Aborted

  predicate FitsStack(ptr: nat, sz: nat, word: nat, protector: seq<Byte>) {
    && (word == 4 || word == 8) && |protector| == word
    && sz > 16 + 2 * word + word && ptr + sz <= 0x8000_0000_0000_0000
  }

  /** A command that keeps the rules of the interface in state rt. */
  ghost predicate Legal(rt: Runtime, cmd: Command)
    requires WellFormed(rt)
  {
    match cmd
    case MakeStack(s, ptr, sz, word, protector) => s !in rt.stacks && FitsStack(ptr, sz, word, protector)
    case LoseStack(s) => Allowed(rt, DropStack(s))
    case MakeCoroutine(c, s, saveSz) => Allowed(rt, Created(c, s, saveSz))
    case ResumeIt(c) => Allowed(rt, Resumed(c))
    case Store(at, b) => Allowed(rt, Wrote(at, b))
    case YieldAt(sp) => Allowed(rt, Yielded(sp))
    case ExitAt(sp) => Allowed(rt, Exited(sp))
    case DestroyIt(c) => Allowed(rt, Destroyed(c))
  }

  /** e is the event of cmd. */
  predicate Records(cmd: Command, e: Event) {
    match cmd
    case MakeStack(s, ptr, sz, word, protector) =>
      && FitsStack(ptr, sz, word, protector) && e.NewStack? && e.s == s && e.lay == MakeLayout(ptr, sz, word)
      && LayoutOk(e.lay) && |e.mem| == sz && e.mem[e.lay.ret - ptr..e.lay.high - ptr] == protector
    case LoseStack(s) => e == DropStack(s)
    case MakeCoroutine(c, s, saveSz) => e == Created(c, s, saveSz)
    case ResumeIt(c) => e == Resumed(c)
    case Store(at, b) => e == Wrote(at, b)
    case YieldAt(sp) => e == Yielded(sp)
    case ExitAt(sp) => e == Exited(sp)
    case DestroyIt(c) => e == Destroyed(c)
  }

  /** The first n commands have led to this run: `at[k]` events came before command k, a legal
      command is the next event, and an illegal one is passed over. */
  ghost predicate Follows(schedule: seq<Command>, n: nat, states: seq<Runtime>, events: seq<Event>, at: seq<nat>) {
    && n <= |schedule| && |states| == |events| + 1 && |at| == n + 1 && at[0] == 0 && at[n] == |events|
    && forall k :: 0 <= k < n ==> CommandDone(schedule[k], states, events, at[k], at[k + 1])
  }

  ghost predicate CommandDone(cmd: Command, states: seq<Runtime>, events: seq<Event>, from: nat, to: nat)
    requires |states| == |events| + 1
  {
    && from <= |events| && WellFormed(states[from])
    && if Legal(states[from], cmd) then to == from + 1 <= |events| && Records(cmd, events[from]) else to == from
  }

  lemma FollowsOn(schedule: seq<Command>, n: nat, states: seq<Runtime>, events: seq<Event>, at: seq<nat>,
    states2: seq<Runtime>, events2: seq<Event>)
    requires Follows(schedule, n, states, events, at) && n < |schedule| && |states2| == |events2| + 1
    requires states <= states2 && events <= events2
    requires CommandDone(schedule[n], states2, events2, |events|, |events2|)
    ensures Follows(schedule, n + 1, states2, events2, at + [|events2|])
  {
    hide WellFormed, Legal, Records;
    var at2 := at + [|events2|];
    forall k | 0 <= k < n + 1 ensures CommandDone(schedule[k], states2, events2, at2[k], at2[k + 1]) {
      assert k < n ==> CommandDone(schedule[k], states, events, at[k], at[k + 1]);
    }
  }

  ghost predicate CoHolds(co: Coroutine, rt: Runtime)
    reads co, co.save
  {
    co.id in rt.cos && rt.cos[co.id] == co.Abs() && co.BufferOk()
  }

  ghost predicate StackHolds(st: ShareStack, rt: Runtime)
    reads st, st.mem
  {
    st.id in rt.stacks && rt.stacks[st.id] == st.Abs()
  }

  lemma CoHoldsStill(co: Coroutine, rt: Runtime, r: Runtime)
    requires CoHolds(co, rt) && co.id in r.cos && r.cos[co.id] == rt.cos[co.id]
    ensures CoHolds(co, r)
  {
  }

  lemma DepictsIsBoth(co: Coroutine, rt: Runtime)
    ensures co.Depicts(rt) <==> CoHolds(co, rt) && StackHolds(co.stack, rt) && co.save != co.stack.mem
  {
  }

  class Machine {
    const tls: ThreadLocal
    var cos: map<CoId, Coroutine>
    var stacks: map<StackId, ShareStack>
    ghost var rt: Runtime
    ghost var Repr: set<object>

    /** The objects are those of the state rt, each with its own memory. */
    ghost predicate Valid()
      reads this, Repr
    {
      && this in Repr && tls in Repr
      && Inv(rt) && rt.cos.Keys == cos.Keys && rt.stacks.Keys == stacks.Keys
      && CosInPlace() && StacksInPlace() && Apart() && Running()
    }

    ghost predicate CosInPlace()
      reads this, Repr
    {
      forall c {:trigger CoInPlace(c)} :: c in cos ==> CoInPlace(c)
    }

    ghost predicate StacksInPlace()
      reads this, Repr
    {
      forall s {:trigger StackInPlace(s)} :: s in stacks ==> StackInPlace(s)
    }

    ghost predicate CoInPlace(c: CoId)
      requires c in cos
      reads this, Repr
    {
      && cos[c] in Repr && cos[c].save in Repr
      && cos[c].id == c && CoHolds(cos[c], rt)
      && cos[c].stack.id in stacks && stacks[cos[c].stack.id] == cos[c].stack
    }

    ghost predicate StackInPlace(s: StackId)
      requires s in stacks
      reads this, Repr
    {
      && stacks[s] in Repr && stacks[s].mem in Repr
      && stacks[s].id == s && StackHolds(stacks[s], rt)
      && Owned(stacks[s])
    }

    /** No two of them share memory. */
    ghost predicate Apart()
      reads this, Repr
    {
      && (forall c, d {:trigger SavesApart(c, d)} :: c in cos && d in cos ==> SavesApart(c, d))
      && (forall s, t {:trigger MemsApart(s, t)} :: s in stacks && t in stacks ==> MemsApart(s, t))
      && (forall c, s {:trigger SaveMemApart(c, s)} :: c in cos && s in stacks ==> SaveMemApart(c, s))
    }

    ghost predicate SavesApart(c: CoId, d: CoId)
      requires c in cos && d in cos
      reads this, Repr
    {
      c != d && cos[c] in Repr && cos[d] in Repr ==> cos[c].save != cos[d].save
    }

    ghost predicate MemsApart(s: StackId, t: StackId)
      requires s in stacks && t in stacks
      reads this
    {
      s != t ==> stacks[s].mem != stacks[t].mem
    }

    ghost predicate SaveMemApart(c: CoId, s: StackId)
      requires c in cos && s in stacks
      reads this, Repr
    {
      cos[c] in Repr ==> cos[c].save != stacks[s].mem
    }

    ghost predicate Running()
      reads this, tls
    {
      if tls.current == null then rt.running == None
      else rt.running == Some(tls.current.id) && tls.current.id in cos && cos[tls.current.id] == tls.current
    }

    constructor ()
      ensures Valid() && fresh(Repr) && rt == EMPTY_RUNTIME
      ensures cos == map[] && stacks == map[] && tls.current == null
    {
      tls := new ThreadLocal();
      cos, stacks := map[], map[];
      rt := EMPTY_RUNTIME;
      new;
      Repr := {this, tls};
    }

    lemma Basics()
      requires Valid()
      ensures this in Repr && tls in Repr && Running()
      ensures Inv(rt) && rt.cos.Keys == cos.Keys && rt.stacks.Keys == stacks.Keys
    {
    }

    lemma ByParts()
      requires this in Repr && tls in Repr && Running()
      requires Inv(rt) && rt.cos.Keys == cos.Keys && rt.stacks.Keys == stacks.Keys
      requires CosInPlace() && StacksInPlace() && Apart()
      ensures Valid()
    {
    }

    /** What a coroutine in the machine may rely on. */
    lemma CoFacts(c: CoId)
      requires Valid() && c in cos
      ensures cos[c] in Repr && cos[c].save in Repr && cos[c].id == c && CoHolds(cos[c], rt)
      ensures var st := cos[c].stack;
        && st in Repr && st.mem in Repr && st.id in stacks && stacks[st.id] == st && StackHolds(st, rt)
        && cos[c].save != st.mem && c in rt.cos && rt.cos[c].stack == st.id
    {
      hide Inv, StackHolds, Running;
      assert CoInPlace(c) && StackInPlace(cos[c].stack.id) && SaveMemApart(c, cos[c].stack.id);
    }

    /** And about the owner of its stack. */
    lemma OwnerOf(c: CoId)
      requires Valid() && c in cos && cos[c].stack in Repr && cos[c].stack.owner != null
      ensures var st := cos[c].stack; var o := st.owner;
        && o.id in cos && cos[o.id] == o && o in Repr && o.save in Repr && CoHolds(o, rt) && o.stack == st
        && o.save != st.mem && (o != cos[c] ==> o.id != c && o.save != cos[c].save)
    {
      CoFacts(c);
      var o := cos[c].stack.owner;
      assert StackInPlace(cos[c].stack.id);
      assert SavesApart(c, o.id);
      CoFacts(o.id);
      hide Inv, CoHolds, StackHolds, Running;
      OwnedStack(o, cos[c].stack, rt);
    }

    // ----- commands that touch one stack, its coroutine c, and its owner o (or c again)

    twostate function Touched(t: Taking): set<object>
      requires t.c in old(cos) && t.from in old(cos)
    {
      old({this, tls, cos[t.c], cos[t.c].stack, cos[t.c].stack.mem, cos[t.from], cos[t.from].save})
    }

    twostate predicate OthersUnchanged(t: Taking)
      requires t.c in old(cos) && t.from in old(cos)
      reads *
    {
      forall x :: x in old(Repr) && x !in Touched(t) ==> unchanged(x)
    }

    twostate predicate OnlyTouched(t: Taking)
      reads *
    {
      && old(Valid()) && t.c in old(cos) && t.from in old(cos)
      && cos == old(cos) && stacks == old(stacks)
      && OthersUnchanged(t)
      && Repr == old(Repr) + {cos[t.from].save}
      && cos[t.c].save == old(cos[t.c].save)
      && (cos[t.from].save == old(cos[t.from].save) || fresh(cos[t.from].save))
      && Owned(cos[t.c].stack)
    }

    /** An owner is one of the coroutines. */
    ghost predicate Owned(st: ShareStack)
      reads this, st
    {
      st.owner != null ==> st.owner in Repr && st.owner.id in cos && cos[st.owner.id] == st.owner
    }

    /** The state of the machine has changed in c, o and their stack at most, and is that of
        the objects there. */
    twostate predicate OnlyChanged(t: Taking)
      reads *
    {
      && t.c in cos && t.from in cos
      && old(rt).cos.Keys == rt.cos.Keys == cos.Keys && old(rt).stacks.Keys == rt.stacks.Keys == stacks.Keys
      && (forall d :: d in cos && d != t.c && d != t.from ==> rt.cos[d] == old(rt).cos[d])
      && (forall s :: s in stacks && stacks[s] != cos[t.c].stack ==> rt.stacks[s] == old(rt).stacks[s])
      && CoHolds(cos[t.c], rt) && CoHolds(cos[t.from], rt) && StackHolds(cos[t.c].stack, rt)
    }

    twostate predicate SaveKept(d: CoId, o: CoId)
      requires d in cos && d in old(cos) && cos[d] == old(cos)[d]
      reads *
    {
      cos[d].save == old(cos[d].save) || (o == d && fresh(cos[d].save))
    }

    twostate lemma CosStay(t: Taking)
      requires OnlyTouched(t) && OnlyChanged(t)
      ensures forall d {:trigger CoInPlace(d)} :: d in cos ==> CoInPlace(d) && SaveKept(d, t.from)
    {
      hide Inv, StackHolds, Running;
      assert old(CoInPlace(t.c)) && old(CoInPlace(t.from));
      var s := old(cos[t.c].stack.id);
      assert old(StackInPlace(s));
      forall d {:trigger CoInPlace(d)} | d in cos ensures CoInPlace(d) && SaveKept(d, t.from) {
        assert old(CoInPlace(d));
        if d != t.c && d != t.from {
          assert old(SavesApart(d, t.c)) && old(SavesApart(d, t.from)) && old(SaveMemApart(d, s));
          assert unchanged(cos[d]) && unchanged(cos[d].save);
          assert cos[d].save[..] == old(cos[d].save[..]);
          assert cos[d].Abs() == old(cos[d].Abs());
        }
      }
    }

    twostate lemma StacksStay(t: Taking)
      requires OnlyTouched(t) && OnlyChanged(t)
      ensures StacksInPlace()
    {
      hide Inv, CoHolds, Running;
      assert old(CoInPlace(t.c)) && old(CoInPlace(t.from));
      var u := old(cos[t.c].stack.id);
      assert old(StackInPlace(u));
      forall s {:trigger StackInPlace(s)} | s in stacks ensures StackInPlace(s) {
        assert old(StackInPlace(s));
        if stacks[s] != cos[t.c].stack {
          assert old(MemsApart(s, u)) && old(SaveMemApart(t.c, s)) && old(SaveMemApart(t.from, s));
          assert unchanged(stacks[s]) && unchanged(stacks[s].mem);
          assert stacks[s].mem[..] == old(stacks[s].mem[..]);
        }
      }
    }

    twostate lemma StaysApart(t: Taking)
      requires OnlyTouched(t)
      requires forall d {:trigger CoInPlace(d)} :: d in cos ==> CoInPlace(d) && SaveKept(d, t.from)
      ensures Apart()
    {
      hide Inv, CoHolds, StackHolds, Running;
      forall d, e | d in cos && e in cos ensures SavesApart(d, e) {
        assert CoInPlace(d) && CoInPlace(e);
        assert old(CoInPlace(d)) && old(CoInPlace(e)) && old(SavesApart(d, e));
      }
      forall s, u | s in stacks && u in stacks ensures MemsApart(s, u) {
        assert old(MemsApart(s, u));
      }
      forall d, s | d in cos && s in stacks ensures SaveMemApart(d, s) {
        assert CoInPlace(d) && old(CoInPlace(d)) && old(StackInPlace(s)) && old(SaveMemApart(d, s));
      }
    }

    twostate lemma AllStay(t: Taking)
      requires OnlyTouched(t) && OnlyChanged(t)
      ensures CosInPlace() && StacksInPlace() && Apart()
    {
      assert cos == old(cos);
      hide OnlyTouched, OnlyChanged, Valid, CoInPlace, StackInPlace, SaveKept, Apart;
      CosStay(t);
      StacksStay(t);
      StaysApart(t);
    }

    ghost function TakingOf(c: CoId): Taking
      requires c in cos
      reads this, cos[c], cos[c].stack
    {
      Taking(c, if cos[c].stack.owner == null then c else cos[c].stack.owner.id)
    }

    /** The objects' part of a resume. */
    method TakeStack(c: CoId, ghost t: Taking) returns (ok: bool)
      requires Valid() && tls.current == null && c in cos && t == TakingOf(c)
      modifies Repr - {this}
      ensures t.from in cos && c in rt.cos && WellFormed(rt)
      ensures ok <==> CoroutineModel.Resume(rt, c).Some?
      ensures OthersUnchanged(t)
      ensures cos[c].save == old(cos[c].save) && (cos[t.from].save == old(cos[t.from].save) || fresh(cos[t.from].save))
      ensures fresh({cos[t.from].save} - old(Repr))
      ensures ok ==> var r := CoroutineModel.Resume(rt, c).value;
        && CoHolds(cos[c], r) && CoHolds(cos[t.from], r) && StackHolds(cos[c].stack, r)
        && cos[c].stack.owner == cos[c] && tls.current == cos[c]
    {
      hide Inv, WellFormed, CoHolds, StackHolds, CoroutineModel.Resume, Coroutine.Depicts, CosInPlace,
        StacksInPlace, Apart, Valid;
      Basics();
      CoFacts(c);
      WellFormedByInv(rt);
      var co := cos[c];
      var st := co.stack;
      ghost var o := st.owner;
      DepictsIsBoth(co, rt);
      StackOwner(st, rt);
      if o != null {
        OwnerOf(c);
        DepictsIsBoth(o, rt);
      }
      ok := co.Resume(tls, rt);
      if ok {
        DepictsIsBoth(co, CoroutineModel.Resume(rt, c).value);
        if o != null {
          DepictsIsBoth(o, CoroutineModel.Resume(rt, c).value);
        }
      }
    }

    /** What a resume of c leaves alone, in terms of the objects. */
    lemma SparedByResume(c: CoId)
      requires Valid() && rt.running == None && c in cos
      ensures c in rt.cos && WellFormed(rt) && cos[c].id == c && cos[c] in Repr
      ensures CoroutineModel.Resume(rt, c).Some? ==>
        var r := CoroutineModel.Resume(rt, c).value;
        && rt.cos.Keys == r.cos.Keys == cos.Keys && rt.stacks.Keys == r.stacks.Keys == stacks.Keys
        && (forall d :: d in cos && d != c && d != TakingOf(c).from ==> r.cos[d] == rt.cos[d])
        && (forall s :: s in stacks && stacks[s] != cos[c].stack ==> r.stacks[s] == rt.stacks[s])
    {
      hide Inv, WellFormed, CoHolds, StackHolds, CoroutineModel.Resume, CosInPlace, StacksInPlace, Apart, Valid;
      Basics();
      CoFacts(c);
      WellFormedByInv(rt);
      StackOwner(cos[c].stack, rt);
      if CoroutineModel.Resume(rt, c).Some? {
        ResumeSpares(rt, c, TakingOf(c).from);
      }
    }

    /** And the state of the machine with it. */
    method TakeStackAndRecord(c: CoId, ghost t: Taking) returns (ok: bool)
      requires Valid() && tls.current == null && c in cos && t == TakingOf(c)
      modifies Repr
      ensures c in old(rt).cos && WellFormed(old(rt)) && ok == CoroutineModel.Resume(old(rt), c).Some?
      ensures ok ==> OnlyTouched(t) && OnlyChanged(t) && tls.current == cos[c]
      ensures ok ==> rt == CoroutineModel.Resume(old(rt), c).value && fresh(Repr - old(Repr))
    {
      hide Inv, WellFormed, CoHolds, StackHolds, CoroutineModel.Resume, CosInPlace, StacksInPlace, Apart, Valid;
      assert this in Repr && tls in Repr && rt.running == None by {
        Basics();
      }
      SparedByResume(c);
      ghost var was := rt;
      ok := TakeStack(c, t);
      if ok {
        rt := CoroutineModel.Resume(was, c).value;
        Repr := Repr + {cos[t.from].save};
        assert OnlyTouched(t);
        hide OnlyTouched, OthersUnchanged, Touched;
        assert OnlyChanged(t);
        hide OnlyChanged;
      }
    }

    /** `mz_resume`; without success the program has aborted. */
    method Resume(c: CoId) returns (ok: bool)
      requires Valid() && tls.current == null && c in cos
      modifies Repr
      ensures c in old(rt).cos && WellFormed(old(rt)) && ok == CoroutineModel.Resume(old(rt), c).Some?
      ensures ok ==> Valid() && rt == CoroutineModel.Resume(old(rt), c).value && fresh(Repr - old(Repr))
    {
      hide Inv, WellFormed, CoroutineModel.Resume, CosInPlace, StacksInPlace, Apart, Valid, OnlyChanged;
      Basics();
      CoFacts(c);
      ghost var t := TakingOf(c);
      ghost var was := rt;
      ok := TakeStackAndRecord(c, t);
      if ok {
        ResumeRuns(was, c);
        AllStay(t);
        SameKeys(was, c);
        ByParts();
      }
    }

    // ----- commands of the running coroutine

    /** The running coroutine is one of the objects, and owns its stack. */
    lemma RunningFacts()
      requires Valid() && tls.current != null
      ensures var c := tls.current.id;
        && c in cos && cos[c] == tls.current && rt.running == Some(c) && WellFormed(rt)
        && cos[c].stack.owner == cos[c] && StackOf(rt, c).lay == cos[c].stack.lay
        && LayoutOk(cos[c].stack.lay) && cos[c].stack.mem.Length == cos[c].stack.lay.sz
    {
      hide Inv, CosInPlace, StacksInPlace, Apart, Valid;
      Basics();
      var c := tls.current.id;
      CoFacts(c);
      RunningOwns(rt);
      StackOwner(cos[c].stack, rt);
      OwnerOf(c);
    }

    /** `mz_yield1` */
    method Yield(newSp: nat)
      requires Valid() && tls.current != null
      requires var lay := tls.current.stack.lay; lay.ptr <= newSp <= lay.ret
      modifies Repr
      ensures Valid() && old(rt).running.Some? && WellFormed(old(rt)) && rt == CoroutineModel.Yield(old(rt), newSp)
      ensures fresh(Repr - old(Repr))
    {
      hide Inv, CosInPlace, StacksInPlace, Apart, Valid, Coroutine.Depicts, CoHolds, StackHolds;
      Basics();
      RunningFacts();
      var co := tls.current;
      ghost var c := co.id;
      CoFacts(c);
      DepictsIsBoth(co, rt);
      ghost var was := rt;
      StepKeeps(was, Yielded(newSp));
      co.Yield(tls, newSp, was);
      rt := CoroutineModel.Yield(was, newSp);
      DepictsIsBoth(co, rt);
      assert OnlyTouched(Taking(c, c));
      assert OnlyChanged(Taking(c, c));
      hide OnlyTouched, OnlyChanged;
      AllStay(Taking(c, c));
      ByParts();
    }

    /** `mz_exit1` */
    method Exit(newSp: nat)
      requires Valid() && tls.current != null
      requires var lay := tls.current.stack.lay; lay.ptr <= newSp <= lay.ret
      modifies Repr
      ensures Valid() && old(rt).running.Some? && WellFormed(old(rt))
      ensures CoroutineModel.Exit(old(rt), newSp) == Some(rt) && fresh(Repr - old(Repr))
    {
      hide Inv, CosInPlace, StacksInPlace, Apart, Valid, Coroutine.Depicts, CoHolds, StackHolds;
      Basics();
      RunningFacts();
      var co := tls.current;
      ghost var c := co.id;
      CoFacts(c);
      DepictsIsBoth(co, rt);
      ghost var was := rt;
      assert Allowed(was, Exited(newSp));
      hide Allowed, WellFormed, CoroutineModel.StackOf, LayoutOk;
      co.Exit(tls, newSp, was);
      ExitSpares(was, newSp);
      hide CoroutineModel.Exit;
      rt := CoroutineModel.Exit(was, newSp).value;
      DepictsIsBoth(co, rt);
      assert OnlyTouched(Taking(c, c));
      assert OnlyChanged(Taking(c, c));
      hide OnlyTouched, OnlyChanged;
      AllStay(Taking(c, c));
      ByParts();
    }

    /** The running coroutine stores a byte on its stack. */
    method Store(at: nat, b: Byte)
      requires Valid() && tls.current != null
      requires var lay := tls.current.stack.lay; lay.ptr <= at < lay.ret
      modifies Repr
      ensures Valid() && old(rt).running.Some? && WellFormed(old(rt))
      ensures Allowed(old(rt), Wrote(at, b)) && rt == Write(old(rt), at, b) && fresh(Repr - old(Repr))
    {
      hide Inv, CosInPlace, StacksInPlace, Apart, Valid, Coroutine.Depicts;
      Basics();
      RunningFacts();
      var co := tls.current;
      ghost var c := co.id;
      CoFacts(c);
      ghost var was := rt;
      assert Allowed(was, Wrote(at, b));
      StepKeeps(was, Wrote(at, b));
      var st := co.stack;
      st.mem[at - st.lay.ptr] := b;
      rt := Write(was, at, b);
      assert st.mem[..] == Poke(was.stacks[st.id], at, [b]).mem;
      assert OnlyTouched(Taking(c, c));
      assert OnlyChanged(Taking(c, c));
      hide OnlyTouched, OnlyChanged;
      AllStay(Taking(c, c));
      ByParts();
    }

    // ----- objects that come and go

    /** Nothing but the maps and the state of the machine has changed, and they in one place. */
    twostate predicate OnlyMapsChanged(k: Change)
      reads *
    {
      && old(CosInPlace() && StacksInPlace() && Apart())
      && old(Repr) <= Repr && (forall x :: x in old(Repr) && x != this ==> unchanged(x))
      && (forall d :: d in cos && d in old(cos) ==> d in rt.cos && d in old(rt).cos && rt.cos[d] == old(rt).cos[d])
      && (forall s :: s in stacks && s in old(stacks) ==>
        s in rt.stacks && s in old(rt).stacks && rt.stacks[s] == old(rt).stacks[s])
      && match k
         case CoAdded(c) =>
           && c !in old(cos) && c in cos && cos == old(cos)[c := cos[c]] && stacks == old(stacks)
           && CoInPlace(c) && cos[c].save !in old(Repr)
         case StackAdded(s) =>
           && s !in old(stacks) && s in stacks && stacks == old(stacks)[s := stacks[s]] && cos == old(cos)
           && StackInPlace(s) && stacks[s].mem !in old(Repr)
         case CoRemoved(c) =>
           && cos == old(cos) - {c} && stacks == old(stacks)
           && (forall s :: s in stacks ==> stacks[s].owner == null || stacks[s].owner.id != c)
         case StackRemoved(s) =>
           && s in old(stacks) && stacks == old(stacks) - {s} && cos == old(cos)
           && (forall c :: c in cos ==> cos[c].stack != old(stacks)[s])
    }

    twostate lemma CosStillInPlace(k: Change)
      requires OnlyMapsChanged(k)
      ensures CosInPlace()
    {
      hide StackHolds;
      forall d {:trigger CoInPlace(d)} | d in cos ensures CoInPlace(d) {
        if d in old(cos) {
          assert old(CoInPlace(d));
          assert unchanged(cos[d]) && unchanged(cos[d].save);
          assert cos[d].save[..] == old(cos[d].save[..]);
          assert cos[d].Abs() == old(cos[d].Abs());
        }
      }
    }

    twostate lemma StacksStillInPlace(k: Change)
      requires OnlyMapsChanged(k)
      ensures StacksInPlace()
    {
      hide CoHolds;
      forall s {:trigger StackInPlace(s)} | s in stacks ensures StackInPlace(s) {
        if s in old(stacks) {
          assert old(StackInPlace(s));
          assert unchanged(stacks[s]) && unchanged(stacks[s].mem);
          assert stacks[s].mem[..] == old(stacks[s].mem[..]);
        }
      }
    }

    twostate lemma StillApart(k: Change)
      requires OnlyMapsChanged(k)
      ensures Apart()
    {
      hide CoHolds, StackHolds;
      forall d, e {:trigger SavesApart(d, e)} | d in cos && e in cos ensures SavesApart(d, e) {
        assert d in old(cos) ==> old(CoInPlace(d));
        assert e in old(cos) ==> old(CoInPlace(e));
        assert d in old(cos) && e in old(cos) ==> old(SavesApart(d, e));
      }
      forall s, u {:trigger MemsApart(s, u)} | s in stacks && u in stacks ensures MemsApart(s, u) {
        assert s in old(stacks) ==> old(StackInPlace(s));
        assert u in old(stacks) ==> old(StackInPlace(u));
        assert s in old(stacks) && u in old(stacks) ==> old(MemsApart(s, u));
      }
      forall d, s {:trigger SaveMemApart(d, s)} | d in cos && s in stacks ensures SaveMemApart(d, s) {
        assert d in old(cos) ==> old(CoInPlace(d));
        assert s in old(stacks) ==> old(StackInPlace(s));
        assert d in old(cos) && s in old(stacks) ==> old(SaveMemApart(d, s));
      }
    }

    twostate lemma Regrouped(k: Change)
      requires OnlyMapsChanged(k)
      ensures CosInPlace() && StacksInPlace() && Apart()
    {
      hide OnlyMapsChanged, CosInPlace, StacksInPlace, Apart;
      CosStillInPlace(k);
      StacksStillInPlace(k);
      StillApart(k);
    }

    /** `mz_share_stack_new2` */
    method MakeStack(s: StackId, ptr: nat, sz: nat, word: nat, protector: seq<Byte>) returns (ghost mem: seq<Byte>)
      requires Valid() && s !in stacks && FitsStack(ptr, sz, word, protector)
      modifies this
      ensures Valid() && fresh(Repr - old(Repr)) && WellFormed(old(rt))
      ensures var lay := MakeLayout(ptr, sz, word);
        LayoutOk(lay) && lay.ptr == ptr && |mem| == lay.sz == sz && mem[lay.ret - ptr..lay.high - ptr] == protector
      ensures var e := NewStack(s, MakeLayout(ptr, sz, word), mem);
        Allowed(old(rt), e) && Step(old(rt), e) == Some(rt)
    {
      hide Inv, Valid, WellFormed, LayoutOk;
      Basics();
      var st := new ShareStack(s, ptr, sz, word, protector);
      mem := st.mem[..];
      NewStackRuns(rt, s, st.lay, mem);
      hide Step, Allowed;
      TakeInStack(s, st);
    }

    /** A new stack joins the others. */
    method TakeInStack(s: StackId, st: ShareStack)
      requires Valid() && st.id == s && s !in stacks && st.owner == null && st.alignValid == 0
      requires st !in Repr && st.mem !in Repr
      requires Inv(rt.(stacks := rt.stacks[s := st.Abs()]))
      modifies this
      ensures Valid() && Repr == old(Repr) + {st, st.mem}
      ensures rt == old(rt).(stacks := old(rt).stacks[s := Stack(st.lay, st.mem[..], None, 0)])
    {
      hide Inv, CoHolds, StackHolds, CosInPlace, StacksInPlace, Apart, WellFormed;
      assert CosInPlace() && StacksInPlace() && Apart();
      Basics();
      hide Valid;
      stacks := stacks[s := st];
      rt := rt.(stacks := rt.stacks[s := Stack(st.lay, st.mem[..], None, 0)]);
      Repr := Repr + {st, st.mem};
      NewStackHolds(st, rt);
      assert StackInPlace(s);
      hide StackInPlace;
      assert OnlyMapsChanged(StackAdded(s));
      hide OnlyMapsChanged;
      Regrouped(StackAdded(s));
      ByParts();
    }

    /** The end of a stack to which no coroutine is bound. */
    method LoseStack(s: StackId)
      requires Valid() && s in stacks && forall c :: c in cos ==> cos[c].stack != stacks[s]
      modifies this
      ensures Valid() && Repr == old(Repr) && WellFormed(old(rt))
      ensures Allowed(old(rt), DropStack(s)) && Step(old(rt), DropStack(s)) == Some(rt)
    {
      hide Inv, CoHolds, StackHolds, CosInPlace, StacksInPlace, Apart, WellFormed;
      assert CosInPlace() && StacksInPlace() && Apart();
      Basics();
      forall c | c in cos ensures rt.cos[c].stack != s {
        CoFacts(c);
      }
      hide Valid;
      ghost var was := rt;
      DropStackRuns(was, s);
      hide Step, Allowed;
      stacks := stacks - {s};
      rt := was.(stacks := was.stacks - {s});
      assert OnlyMapsChanged(StackRemoved(s));
      hide OnlyMapsChanged;
      Regrouped(StackRemoved(s));
      ByParts();
    }

    /** `mz_create` */
    method MakeCoroutine(c: CoId, s: StackId, saveSz: UInt64)
      requires Valid() && c !in cos && s in stacks
      modifies this
      ensures Valid() && fresh(Repr - old(Repr)) && WellFormed(old(rt))
      ensures Allowed(old(rt), Created(c, s, saveSz)) && Step(old(rt), Created(c, s, saveSz)) == Some(rt)
    {
      hide Inv, Valid, WellFormed;
      StackFacts(s);
      Basics();
      CreatedRuns(rt, c, s, saveSz);
      hide Step, Allowed;
      var co := new Coroutine(c, stacks[s], saveSz);
      TakeIn(c, co);
    }

    /** A new coroutine joins the others. */
    method TakeIn(c: CoId, co: Coroutine)
      requires Valid() && co.id == c && c !in cos && co.stack.id in stacks && stacks[co.stack.id] == co.stack
      requires co !in Repr && co.save !in Repr && co.BufferOk()
      requires Inv(rt.(cos := rt.cos[c := co.Abs()]))
      modifies this
      ensures Valid() && Repr == old(Repr) + {co, co.save}
      ensures rt == old(rt).(cos := old(rt).cos[c := co.Abs()])
    {
      hide Inv, CoHolds, StackHolds, CosInPlace, StacksInPlace, Apart, WellFormed;
      assert CosInPlace() && StacksInPlace() && Apart();
      Basics();
      hide Valid;
      cos := cos[c := co];
      rt := rt.(cos := rt.cos[c := co.Abs()]);
      Repr := Repr + {co, co.save};
      NewCoHolds(co, rt);
      assert CoInPlace(c);
      hide CoInPlace, Coroutine.Abs, Coroutine.BufferOk;
      assert OnlyMapsChanged(CoAdded(c));
      hide OnlyMapsChanged;
      Regrouped(CoAdded(c));
      ByParts();
    }

    lemma StackFacts(s: StackId)
      requires Valid() && s in stacks
      ensures stacks[s].id == s && stacks[s] in Repr && s in rt.stacks && rt.stacks[s].lay == stacks[s].lay
    {
      hide Inv, Running;
      assert StackInPlace(s);
    }

    /** `mz_destory` of a coroutine that is not running. */
    method Destroy(c: CoId)
      requires Valid() && c in cos && tls.current != cos[c]
      modifies Repr
      ensures Valid() && Repr == old(Repr) && WellFormed(old(rt))
      ensures Allowed(old(rt), Destroyed(c)) && Step(old(rt), Destroyed(c)) == Some(rt)
    {
      hide Inv, CoHolds, StackHolds, CosInPlace, StacksInPlace, Apart, WellFormed;
      Basics();
      ghost var was := rt;
      CoFacts(c);
      DestroyedRuns(was, c);
      hide Step, Allowed, CoroutineModel.Destroy, Valid;
      LetGo(c);
      label Between:
      cos := cos - {c};
      rt := CoroutineModel.Destroy(was, c);
      assert OnlyMapsChanged@Between(CoRemoved(c));
      hide OnlyMapsChanged;
      Regrouped@Between(CoRemoved(c));
      ByParts();
    }

    /** Its first half: the stack is free, the coroutine is still there. */
    method LetGo(c: CoId)
      requires Valid() && c in cos && tls.current != cos[c]
      modifies Repr
      ensures this in Repr && tls in Repr && Running() && rt.cos.Keys == cos.Keys && rt.stacks.Keys == stacks.Keys
      ensures CosInPlace() && StacksInPlace() && Apart()
      ensures cos == old(cos) && stacks == old(stacks) && Repr == old(Repr)
      ensures c in old(rt).cos && WellFormed(old(rt))
      ensures rt == old(rt).(stacks := CoroutineModel.Destroy(old(rt), c).stacks)
      ensures forall s :: s in stacks ==> stacks[s].owner == null || stacks[s].owner.id != c
    {
      hide Inv, CoHolds, StackHolds, CosInPlace, StacksInPlace, Apart, Valid, WellFormed, CoroutineModel.Destroy;
      Basics();
      CoFacts(c);
      WellFormedByInv(rt);
      DestroySpares(rt, c);
      ghost var was := rt;
      LetGoOf(c);
      rt := was.(stacks := CoroutineModel.Destroy(was, c).stacks);
      CoHoldsStill(cos[c], was, rt);
      assert OnlyTouched(Taking(c, c));
      hide OnlyTouched, OthersUnchanged, Touched;
      assert OnlyChanged(Taking(c, c));
      hide OnlyChanged;
      AllStay(Taking(c, c));
    }

    /** The objects' part of that. */
    method LetGoOf(c: CoId)
      requires Valid() && c in cos && tls.current != cos[c]
      modifies Repr - {this}
      ensures tls in Repr && tls.current == old(tls.current)
      ensures c in rt.cos && WellFormed(rt) && OnlyTouched(Taking(c, c)) && CoHolds(cos[c], rt)
      ensures StackHolds(cos[c].stack, rt.(stacks := CoroutineModel.Destroy(rt, c).stacks))
      ensures forall s :: s in stacks ==> stacks[s].owner == null || stacks[s].owner.id != c
    {
      hide Inv, CoHolds, StackHolds, CosInPlace, StacksInPlace, Apart, Valid, WellFormed;
      Basics();
      CoFacts(c);
      var co := cos[c];
      WellFormedByInv(rt);
      DepictsIsBoth(co, rt);
      OwnsOneStack(c);
      if co.stack.owner != null {
        OwnerOf(c);
      }
      hide CoroutineModel.Destroy;
      FreeStack(co, rt);
      AbsHolds(co.stack, rt.(stacks := CoroutineModel.Destroy(rt, c).stacks));
    }

    /** A coroutine owns no stack but its own. */
    lemma OwnsOneStack(c: CoId)
      requires Valid() && c in cos
      ensures forall s :: s in stacks ==>
        stacks[s] in Repr && (stacks[s] == cos[c].stack || stacks[s].owner == null || stacks[s].owner.id != c)
    {
      hide Inv, CoHolds, Running, Apart;
      assert CoInPlace(c);
      forall s | s in stacks
        ensures stacks[s] in Repr && (stacks[s] == cos[c].stack || stacks[s].owner == null || stacks[s].owner.id != c)
      {
        assert StackInPlace(s);
        if stacks[s].owner != null && stacks[s].owner.id == c {
          OwnedStack(cos[c], stacks[s], rt);
        }
      }
    }

    // ----- schedules

    /** The rules in terms of the objects. */
    lemma LegalHere(cmd: Command)
      requires Valid()
      ensures WellFormed(rt)
      ensures match cmd
        case MakeStack(s, ptr, sz, word, protector) =>
          Legal(rt, cmd) <==> s !in stacks && FitsStack(ptr, sz, word, protector)
        case LoseStack(s) => Legal(rt, cmd) <==> s in stacks && forall c :: c in cos ==> cos[c].stack != stacks[s]
        case MakeCoroutine(c, s, saveSz) => Legal(rt, cmd) <==> c !in cos && s in stacks
        case ResumeIt(c) => Legal(rt, cmd) <==> tls.current == null && c in cos
        case Store(at, b) =>
          Legal(rt, cmd) <==> tls.current != null && var lay := tls.current.stack.lay; lay.ptr <= at < lay.ret
        case YieldAt(sp) =>
          Legal(rt, cmd) <==> tls.current != null && var lay := tls.current.stack.lay; lay.ptr <= sp <= lay.ret
        case ExitAt(sp) =>
          Legal(rt, cmd) <==> tls.current != null && var lay := tls.current.stack.lay; lay.ptr <= sp <= lay.ret
        case DestroyIt(c) => Legal(rt, cmd) <==> c in cos && tls.current != cos[c]
    {
      hide Inv, CosInPlace, StacksInPlace, Apart, Valid, CoHolds, StackHolds;
      Basics();
      WellFormedByInv(rt);
      match cmd
      case LoseStack(s) => MayLose(s);
      case DestroyIt(c) => MayDestroy(c);
      case MakeStack(_, _, _, _, _) =>
      case MakeCoroutine(_, _, _) =>
      case ResumeIt(_) =>
      case _ => {
        if tls.current != null {
          RunningFacts();
        }
        hide WellFormed, CoroutineModel.StackOf, Running, LayoutOk;
      }
    }

    lemma MayLose(s: StackId)
      requires Valid()
      ensures WellFormed(rt)
      ensures Allowed(rt, DropStack(s)) <==> s in stacks && forall c :: c in cos ==> cos[c].stack != stacks[s]
    {
      hide Inv, CosInPlace, StacksInPlace, Apart, Valid, CoHolds, StackHolds;
      Basics();
      WellFormedByInv(rt);
      if s in stacks {
        StackFacts(s);
        forall c | c in cos ensures cos[c].stack == stacks[s] <==> rt.cos[c].stack == s {
          CoFacts(c);
        }
      }
    }

    lemma MayDestroy(c: CoId)
      requires Valid()
      ensures WellFormed(rt)
      ensures Allowed(rt, Destroyed(c)) <==> c in cos && tls.current != cos[c]
    {
      hide Inv, CosInPlace, StacksInPlace, Apart, Valid, CoHolds, StackHolds;
      Basics();
      WellFormedByInv(rt);
      if c in cos {
        CoFacts(c);
      }
    }

    /** Whatever the command: it is refused if and only if it breaks the rules; else it is the
        step of the machine, or aborts where that does. */
    method Turn(cmd: Command) returns (outcome: Outcome, ghost e: Event)
      requires Valid()
      modifies Repr
      ensures WellFormed(old(rt)) && (outcome.Refused? <==> !Legal(old(rt), cmd))
      ensures outcome.Refused? ==> Valid() && rt == old(rt) && Repr == old(Repr)
      ensures !outcome.Refused? ==> Records(cmd, e) && Allowed(old(rt), e)
      ensures outcome.Done? ==> Valid() && Step(old(rt), e) == Some(rt) && fresh(Repr - old(Repr))
      ensures outcome.Aborted? ==> Step(old(rt), e) == None
    {
      hide Inv, Valid, WellFormed, MakeLayout;
      LegalHere(cmd);
      Basics();
      outcome := Refused;
      e := Resumed(0);
      match cmd
      case MakeStack(s, ptr, sz, word, protector) => {
        if s !in stacks && FitsStack(ptr, sz, word, protector) {
          ghost var mem := MakeStack(s, ptr, sz, word, protector);
          outcome, e := Done, NewStack(s, MakeLayout(ptr, sz, word), mem);
        }
      }
      case LoseStack(s) => {
        if s in stacks && forall c :: c in cos ==> cos[c].stack != stacks[s] {
          LoseStack(s);
          outcome, e := Done, DropStack(s);
        }
      }
      case MakeCoroutine(c, s, saveSz) => {
        if c !in cos && s in stacks {
          MakeCoroutine(c, s, saveSz);
          outcome, e := Done, Created(c, s, saveSz);
        }
      }
      case ResumeIt(c) => {
        if tls.current == null && c in cos {
          var ok := Resume(c);
          outcome, e := if ok then Done else Aborted, Resumed(c);
        }
      }
      case Store(at, b) => {
        if tls.current != null && tls.current.stack.lay.ptr <= at < tls.current.stack.lay.ret {
          Store(at, b);
          outcome, e := Done, Wrote(at, b);
        }
      }
      case YieldAt(sp) => {
        if tls.current != null && tls.current.stack.lay.ptr <= sp <= tls.current.stack.lay.ret {
          Yield(sp);
          outcome, e := Done, Yielded(sp);
        }
      }
      case ExitAt(sp) => {
        if tls.current != null && tls.current.stack.lay.ptr <= sp <= tls.current.stack.lay.ret {
          Exit(sp);
          outcome, e := Done, Exited(sp);
        }
      }
      case DestroyIt(c) => {
        if c in cos && tls.current != cos[c] {
          Destroy(c);
          outcome, e := Done, Destroyed(c);
        }
      }
    }

    /** A whole schedule from nothing, up to its end or to a failed assertion: the objects have
        gone through the run of the machine that the legal commands make. */
    static method Play(schedule: seq<Command>)
      returns (m: Machine, done: nat, ghost states: seq<Runtime>, ghost events: seq<Event>)
      ensures fresh(m) && Trace(states, events) && done <= |schedule|
      ensures exists at :: Follows(schedule, done, states, events, at)
      ensures done == |schedule| ==> m.Valid() && m.rt == states[|events|]
      ensures done < |schedule| ==>
        exists e ::
          && Records(schedule[done], e)
          && WellFormed(states[|events|]) && Allowed(states[|events|], e) && Step(states[|events|], e) == None
    {
      hide Inv, Records, Trace, Step, Allowed, WellFormed, Legal, Follows, CommandDone;
      m := new Machine();
      states, events, done := [EMPTY_RUNTIME], [], 0;
      TraceBegins();
      ghost var at: seq<nat> := [0];
      FollowsFromStart(schedule);
      while done < |schedule|
        invariant done <= |schedule| && m.Valid() && fresh(m.Repr) && fresh(m)
        invariant |states| == |events| + 1 && Trace(states, events) && m.rt == states[|events|]
        invariant Follows(schedule, done, states, events, at)
      {
        var outcome, e := m.Turn(schedule[done]);
        if outcome == Aborted {
          return;
        }
        ghost var states1, events1 := states, events;
        if outcome == Done {
          TraceExtends(states, events, e, m.rt);
          states, events := states + [m.rt], events + [e];
          LegalDone(schedule[done], states1, events1, m.rt, e);
        } else {
          IllegalDone(schedule[done], states, events);
        }
        FollowsOn(schedule, done, states1, events1, at, states, events);
        at := at + [|events|];
        done := done + 1;
      }
    }

    /** `RegainsItsStack` of the objects: a coroutine that has just been resumed has on its stack,
        from its SP to the return slot, the bytes that were there when it yielded (event i). */
    lemma RegainedInPlace(states: seq<Runtime>, events: seq<Event>, i: nat)
      requires Valid() && tls.current != null && Trace(states, events) && i + 1 < |events| && rt == states[|events|]
      requires var c := tls.current.id;
        && states[i].running == Some(c) && events[i].Yielded? && events[|events| - 1] == Resumed(c)
        && forall k :: i < k < |events| - 1 ==> !Touches(events[k], c)
      ensures var co := tls.current; var lay := co.stack.lay;
        && co.sp == events[i].sp && lay.ptr <= co.sp <= lay.ret && lay.ret - lay.ptr <= co.stack.mem.Length
        && WellFormed(states[i]) && co.id in states[i].cos
        && var before := CoroutineModel.StackOf(states[i], co.id);
        && before.lay == lay && |before.mem| == co.stack.mem.Length
        && co.stack.mem[co.sp - lay.ptr..lay.ret - lay.ptr] == before.mem[co.sp - lay.ptr..lay.ret - lay.ptr]
    {
      var c := tls.current.id;
      hide Inv, CosInPlace, StacksInPlace, Apart, Valid, Trace;
      RunningFacts();
      CoFacts(c);
      RegainedBytes(states, events, c, i);
      hide LayoutOk, WellFormed, CoroutineModel.StackOf, Running;
      assert tls.current.stack.mem[..] == rt.stacks[rt.cos[c].stack].mem;
    }
  }

  /** `mz_destory` of one coroutine, in a state it may be called in. */
  method FreeStack(co: Coroutine, ghost rt: Runtime)
    requires Inv(rt) && co.Depicts(rt) && rt.running != Some(co.id)
    requires co.stack.owner != null && co.stack.owner.id == co.id ==> co.stack.owner == co
    modifies co.stack`owner, co.stack`alignValid
    ensures WellFormed(rt) && co.id in rt.cos && co.stack.id in CoroutineModel.Destroy(rt, co.id).stacks
    ensures co.stack.Abs() == CoroutineModel.Destroy(rt, co.id).stacks[co.stack.id]
    ensures co.stack.owner == if old(co.stack.owner) == co then null else old(co.stack.owner)
  {
    co.Destroy(rt);
  }

  lemma NewStackRuns(rt: Runtime, s: StackId, lay: Layout, mem: seq<Byte>)
    requires Inv(rt) && s !in rt.stacks && LayoutOk(lay) && |mem| == lay.sz
    ensures var e := NewStack(s, lay, mem); var r := rt.(stacks := rt.stacks[s := Stack(lay, mem, None, 0)]);
      WellFormed(rt) && Allowed(rt, e) && Step(rt, e) == Some(r) && Inv(r)
  {
    StepKeeps(rt, NewStack(s, lay, mem));
  }

  lemma DropStackRuns(rt: Runtime, s: StackId)
    requires Inv(rt) && s in rt.stacks && forall c :: c in rt.cos ==> rt.cos[c].stack != s
    ensures var e := DropStack(s); var r := rt.(stacks := rt.stacks - {s});
      WellFormed(rt) && Allowed(rt, e) && Step(rt, e) == Some(r) && Inv(r)
  {
    StepKeeps(rt, DropStack(s));
  }

  lemma CreatedRuns(rt: Runtime, c: CoId, s: StackId, saveSz: UInt64)
    requires Inv(rt) && c !in rt.cos && s in rt.stacks
    ensures var e := Created(c, s, saveSz);
      var co := Co(s, rt.stacks[s].lay.ret, false, [], if saveSz == 0 then 64 else saveSz, 0, 0, 0);
      var r := rt.(cos := rt.cos[c := co]);
      WellFormed(rt) && Allowed(rt, e) && Step(rt, e) == Some(r) && Inv(r)
  {
    StepKeeps(rt, Created(c, s, saveSz));
  }

  lemma DestroyedRuns(rt: Runtime, c: CoId)
    requires Inv(rt) && c in rt.cos && rt.running != Some(c)
    ensures var e := Destroyed(c);
      && WellFormed(rt) && Allowed(rt, e)
      && var r := CoroutineModel.Destroy(rt, c);
      && Step(rt, e) == Some(r) && Inv(r) && r.cos == rt.cos - {c} && r.running == rt.running
  {
    StepKeeps(rt, Destroyed(c));
  }

  lemma AbsHolds(st: ShareStack, rt: Runtime)
    requires st.id in rt.stacks && rt.stacks[st.id] == st.Abs()
    ensures StackHolds(st, rt)
  {
  }

  lemma DestroySpares(rt: Runtime, c: CoId)
    requires Inv(rt) && WellFormed(rt) && c in rt.cos && rt.running != Some(c)
    ensures var r := CoroutineModel.Destroy(rt, c);
      && r.cos == rt.cos - {c} && r.stacks.Keys == rt.stacks.Keys && r.running == rt.running
      && (forall s :: s in rt.stacks && s != rt.cos[c].stack ==> r.stacks[s] == rt.stacks[s])
  {
    assert CoOk(rt, c);
  }

  lemma RegainedBytes(states: seq<Runtime>, events: seq<Event>, c: CoId, i: nat)
    requires Trace(states, events) && i + 1 < |events|
    requires states[i].running == Some(c) && events[i].Yielded? && events[|events| - 1] == Resumed(c)
    requires forall k :: i < k < |events| - 1 ==> !Touches(events[k], c)
    ensures var r := states[|events|];
      && WellFormed(states[i]) && WellFormed(r) && c in states[i].cos && c in r.cos && r.cos[c].sp == events[i].sp
      && var before, after, sp := StackOf(states[i], c), StackOf(r, c), events[i].sp;
      && before.lay == after.lay && before.lay.ptr <= sp <= before.lay.ret
      && |before.mem| == |after.mem| && before.lay.ret - before.lay.ptr <= |before.mem|
      && var from, to := sp - before.lay.ptr, before.lay.ret - before.lay.ptr;
        after.mem[from..to] == before.mem[from..to]
  {
    hide Inv, WellFormed, StepsTo, Touches;
    RegainsItsStack(states, events, c, i, |events| - 1);
    WellFormedByInv(states[i]);
    WellFormedByInv(states[|events|]);
    hide Trace;
  }

  lemma FollowsFromStart(schedule: seq<Command>)
    ensures Follows(schedule, 0, [EMPTY_RUNTIME], [], [0])
  {
  }

  lemma LegalDone(cmd: Command, states: seq<Runtime>, events: seq<Event>, r: Runtime, e: Event)
    requires |states| == |events| + 1 && WellFormed(states[|events|]) && Legal(states[|events|], cmd) && Records(cmd, e)
    ensures CommandDone(cmd, states + [r], events + [e], |events|, |events| + 1)
  {
    hide WellFormed, Legal, Records;
  }

  lemma IllegalDone(cmd: Command, states: seq<Runtime>, events: seq<Event>)
    requires |states| == |events| + 1 && WellFormed(states[|events|]) && !Legal(states[|events|], cmd)
    ensures CommandDone(cmd, states, events, |events|, |events|)
  {
  }

  lemma TraceBegins()
    ensures Trace([EMPTY_RUNTIME], [])
  {
  }

  lemma TraceExtends(states: seq<Runtime>, events: seq<Event>, e: Event, r: Runtime)
    requires Trace(states, events) && StepsTo(states[|events|], e, r)
    ensures Trace(states + [r], events + [e]) && |states| == |events| + 1
  {
  }

  lemma NewCoHolds(co: Coroutine, rt: Runtime)
    requires co.id in rt.cos && rt.cos[co.id] == co.Abs() && co.BufferOk()
    ensures CoHolds(co, rt)
  {
  }

  lemma NewStackHolds(st: ShareStack, rt: Runtime)
    requires st.owner == null && st.alignValid == 0 && st.id in rt.stacks
    requires rt.stacks[st.id] == Stack(st.lay, st.mem[..], None, 0)
    ensures StackHolds(st, rt)
  {
  }

  lemma ExitSpares(rt: Runtime, sp: nat)
    requires Inv(rt) && WellFormed(rt) && Allowed(rt, Exited(sp)) && CoroutineModel.Exit(rt, sp).Some?
    ensures var r := CoroutineModel.Exit(rt, sp).value; var c := rt.running.value;
      && c in rt.cos && Inv(r) && r.running.None? && r.cos.Keys == rt.cos.Keys && r.stacks.Keys == rt.stacks.Keys
      && (forall d :: d in rt.cos && d != c ==> r.cos[d] == rt.cos[d])
      && (forall s :: s in rt.stacks && s != rt.cos[c].stack ==> r.stacks[s] == rt.stacks[s])
  {
    StepKeeps(rt, Exited(sp));
    hide Inv;
  }

  lemma RunningOwns(rt: Runtime)
    requires Inv(rt) && rt.running.Some?
    ensures WellFormed(rt) && Owns(rt, rt.running.value)
    ensures LayoutOk(StackOf(rt, rt.running.value).lay)
    ensures |StackOf(rt, rt.running.value).mem| == StackOf(rt, rt.running.value).lay.sz
  {
    assert CoOk(rt, rt.running.value) && StackOk(rt, rt.cos[rt.running.value].stack);
  }

  lemma SameKeys(rt: Runtime, c: CoId)
    requires Inv(rt) && rt.running.None? && c in rt.cos && CoroutineModel.Resume(rt, c).Some?
    ensures var r := CoroutineModel.Resume(rt, c).value; r.cos.Keys == rt.cos.Keys && r.stacks.Keys == rt.stacks.Keys
  {
    ResumeElsewhere(rt, c);
  }

  lemma ResumeSpares(rt: Runtime, c: CoId, from: CoId)
    requires Inv(rt) && rt.running.None? && c in rt.cos && CoroutineModel.Resume(rt, c).Some?
    requires rt.cos[c].stack in rt.stacks && rt.stacks[rt.cos[c].stack].owner in {None, Some(from)}
    ensures var r := CoroutineModel.Resume(rt, c).value;
      && r.cos.Keys == rt.cos.Keys && r.stacks.Keys == rt.stacks.Keys
      && (forall d :: d in rt.cos && d != c && d != from ==> r.cos[d] == rt.cos[d])
      && (forall s :: s in rt.stacks && s != rt.cos[c].stack ==> r.stacks[s] == rt.stacks[s])
  {
    ResumeElsewhere(rt, c);
  }

  lemma WellFormedByInv(rt: Runtime)
    requires Inv(rt)
    ensures WellFormed(rt)
  {
  }

  lemma StackOwner(st: ShareStack, rt: Runtime)
    requires StackHolds(st, rt)
    ensures st.id in rt.stacks && rt.stacks[st.id].owner == if st.owner == null then None else Some(st.owner.id)
  {
  }

  lemma OwnedStack(o: Coroutine, st: ShareStack, rt: Runtime)
    requires Inv(rt) && StackHolds(st, rt) && CoHolds(o, rt) && st.owner == o
    ensures o.stack.id == st.id
  {
    OwnerFacts(rt, st.id, o.id);
  }

  lemma ResumeRuns(rt: Runtime, c: CoId)
    requires Inv(rt) && rt.running.None? && c in rt.cos && CoroutineModel.Resume(rt, c).Some?
    ensures var r := CoroutineModel.Resume(rt, c).value; Inv(r) && r.running == Some(c)
  {
    StepKeeps(rt, Resumed(c));
    ResumeByParts(rt, c);
  }
}
