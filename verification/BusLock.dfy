/**
 * The two locks around every transaction of src/spi_reg.c as a transition system: a thread
 * mutex inside each process and a file lock between processes. All threads of a process
 * share one handle, so one mutex and one open file description; a file lock belongs to
 * the description, and taking it again through the same description succeeds at once.
 */
module BusLock {
  import opened Options

  /** Thread `t` of process `p`. */
  datatype Thread = Thread(p: nat, t: nat)

  datatype Pc =
    | Idle
    | Outer      // holds the outer lock, wants the inner one
    | InTransaction
    | Leaving    // inner lock given back, or refused; still holds the outer one

  /** mutex[p] is the owner inside process p; flock is the process whose description holds the file lock. */
  datatype State = State(pc: map<Thread, Pc>, mutex: map<nat, Thread>, flock: Option<nat>)

  datatype Lock = Mutex | Flock

  /** Which lock encloses the other. The code takes the mutex first. */
  datatype Order = MutexOutside | FlockOutside {
    function Outer(): Lock { if MutexOutside? then Mutex else Flock }
    function Inner(): Lock { if MutexOutside? then Flock else Mutex }
  }

  datatype Step =
    | Enter(who: Thread)   // take the outer lock
    | Begin(who: Thread)   // take the inner lock
    | Refuse(who: Thread)  // the file lock, taken second, reports an error
    | End(who: Thread)     // release the inner lock
    | Exit(who: Thread)    // release the outer lock

  predicate Free(s: State, l: Lock, who: Thread) {
    match l
    case Mutex => who.p !in s.mutex
    case Flock => s.flock == None || s.flock == Some(who.p)
  }

  function Take(s: State, l: Lock, who: Thread): State {
    match l
    case Mutex => s.(mutex := s.mutex[who.p := who])
    case Flock => s.(flock := Some(who.p))
  }

  function Release(s: State, l: Lock, who: Thread): State {
    match l
    case Mutex => s.(mutex := s.mutex - {who.p})
    case Flock => if s.flock == Some(who.p) then s.(flock := None) else s
  }

  predicate Enabled(o: Order, s: State, step: Step) {
    && step.who in s.pc
    && match step
       case Enter(t) => s.pc[t] == Idle && Free(s, o.Outer(), t)
       case Begin(t) => s.pc[t] == Outer && Free(s, o.Inner(), t)
       case Refuse(t) => s.pc[t] == Outer && o.Inner() == Flock
       case End(t) => s.pc[t] == InTransaction
       case Exit(t) => s.pc[t] == Leaving
  }

  function Do(o: Order, s: State, step: Step): State {
    match step
    case Enter(t) => Take(s, o.Outer(), t).(pc := s.pc[t := Outer])
    case Begin(t) => Take(s, o.Inner(), t).(pc := s.pc[t := InTransaction])
    case Refuse(t) => s.(pc := s.pc[t := Leaving])
    case End(t) => Release(s, o.Inner(), t).(pc := s.pc[t := Leaving])
    case Exit(t) => Release(s, o.Outer(), t).(pc := s.pc[t := Idle])
  }

  /** The state after a run, if every step of it was possible. */
  function Run(o: Order, s: State, steps: seq<Step>): Option<State>
    decreases steps
  {
    if steps == [] then Some(s)
    else if Enabled(o, s, steps[0]) then Run(o, Do(o, s, steps[0]), steps[1..])
    else None
  }

  function Init(threads: set<Thread>): State {
    State(map t | t in threads :: Idle, map[], None)
  }

  ghost predicate Reachable(o: Order, threads: set<Thread>, s: State) {
    exists steps :: Run(o, Init(threads), steps) == Some(s)
  }

  ghost predicate Exclusive(s: State) {
    forall a, b :: a in s.pc && b in s.pc && s.pc[a] == InTransaction && s.pc[b] == InTransaction ==> a == b
  }

  /** What one register transaction of a thread does to the locks. */
  function CallSteps(who: Thread, granted: bool): seq<Step> {
    if granted then [Enter(who), Begin(who), End(who), Exit(who)] else [Enter(who), Refuse(who), Exit(who)]
  }

  // ------------------------------------------------------------ safety

  /** Who owns what, for the order the code uses. */
  ghost predicate Inv(s: State) {
    && (forall t :: t in s.pc && s.pc[t] != Idle ==> t.p in s.mutex && s.mutex[t.p] == t)
    && (forall p :: p in s.mutex ==> s.mutex[p].p == p && s.mutex[p] in s.pc && s.pc[s.mutex[p]] != Idle)
    && (forall t :: t in s.pc && s.pc[t] == InTransaction ==> s.flock == Some(t.p))
    && (s.flock.Some? ==> s.flock.value in s.mutex && s.pc[s.mutex[s.flock.value]] == InTransaction)
  }

  lemma InvStep(s: State, step: Step)
    requires Inv(s) && Enabled(MutexOutside, s, step)
    ensures Inv(Do(MutexOutside, s, step))
  {
  }

  lemma {:induction false} InvRun(s: State, steps: seq<Step>)
    requires Inv(s) && Run(MutexOutside, s, steps).Some?
    ensures Inv(Run(MutexOutside, s, steps).value)
    decreases steps
  {
    if steps == [] {
    } else {
      InvStep(s, steps[0]);
      InvRun(Do(MutexOutside, s, steps[0]), steps[1..]);
    }
  }

  lemma ReachableInv(threads: set<Thread>, s: State)
    requires Reachable(MutexOutside, threads, s)
    ensures Inv(s)
  {
    var steps :| Run(MutexOutside, Init(threads), steps) == Some(s);
    InvRun(Init(threads), steps);
  }

  /** At most one thread of all processes is ever inside a transaction. */
  lemma MutualExclusion(threads: set<Thread>, s: State)
    requires Reachable(MutexOutside, threads, s)
    ensures Exclusive(s)
  {
    ReachableInv(threads, s);
  }

  // ------------------------------------------------------------ the order matters

  /** Two threads of process 0 share the description's lock; the first to leave drops it for both. */
  lemma SwappedOrderFails() returns (threads: set<Thread>, s: State)
    ensures Reachable(FlockOutside, threads, s) && !Exclusive(s)
  {
    var a, b, c := Thread(0, 0), Thread(0, 1), Thread(1, 0);
    threads := {a, b, c};
    var steps1, s1 := OneOfTwoLeaves(threads, a, b);
    s := s1;
    var steps := steps1;
    var s2 := Do(FlockOutside, s, Enter(c));
    RunSnoc(FlockOutside, Init(threads), steps, s, Enter(c));
    steps := steps + [Enter(c)];
    var s3 := Do(FlockOutside, s2, Begin(c));
    RunSnoc(FlockOutside, Init(threads), steps, s2, Begin(c));
    steps := steps + [Begin(c)];
    s := Do(FlockOutside, s3, Begin(b));
    RunSnoc(FlockOutside, Init(threads), steps, s3, Begin(b));
    assert s.pc[b] == InTransaction && s.pc[c] == InTransaction;
  }

  /** With the file lock outside, a thread can be left believing it holds what its sibling released. */
  lemma OneOfTwoLeaves(threads: set<Thread>, a: Thread, b: Thread) returns (steps: seq<Step>, s: State)
    requires a in threads && b in threads && a != b && a.p == b.p
    ensures Run(FlockOutside, Init(threads), steps) == Some(s)
    ensures s == State(Init(threads).pc[a := Idle][b := Outer], map[], None)
  {
    var s0 := Init(threads);
    var s1 := Do(FlockOutside, s0, Enter(a));
    var s2 := Do(FlockOutside, s1, Enter(b));
    var s3 := Do(FlockOutside, s2, Begin(a));
    var s4 := Do(FlockOutside, s3, End(a));
    s := Do(FlockOutside, s4, Exit(a));
    RunSnoc(FlockOutside, s0, [], s0, Enter(a));
    steps := [] + [Enter(a)];
    RunSnoc(FlockOutside, s0, steps, s1, Enter(b));
    steps := steps + [Enter(b)];
    RunSnoc(FlockOutside, s0, steps, s2, Begin(a));
    steps := steps + [Begin(a)];
    RunSnoc(FlockOutside, s0, steps, s3, End(a));
    steps := steps + [End(a)];
    RunSnoc(FlockOutside, s0, steps, s4, Exit(a));
    steps := steps + [Exit(a)];
    assert s.mutex == map[] && s.pc == s0.pc[a := Idle][b := Outer];
  }

  lemma {:induction false} RunSnoc(o: Order, s0: State, steps: seq<Step>, s: State, step: Step)
    requires Run(o, s0, steps) == Some(s) && Enabled(o, s, step)
    ensures Run(o, s0, steps + [step]) == Some(Do(o, s, step))
    decreases steps
  {
    if steps == [] {
      assert ([] + [step])[1..] == [];
    } else {
      assert (steps + [step])[1..] == steps[1..] + [step];
      RunSnoc(o, Do(o, s0, steps[0]), steps[1..], s, step);
    }
  }

  /** Exclusion holds in every reachable state exactly when the mutex encloses the file lock. */
  lemma ExclusionNeedsOrder(o: Order)
    ensures (forall threads, s :: Reachable(o, threads, s) ==> Exclusive(s)) <==> o == MutexOutside
  {
    if o == MutexOutside {
      forall threads, s | Reachable(o, threads, s)
        ensures Exclusive(s)
      {
        MutualExclusion(threads, s);
      }
    } else {
      var threads, s := SwappedOrderFails();
    }
  }

  // ------------------------------------------------------------ no deadlock

  /** A run of one or more steps that keeps the invariant. */
  ghost predicate Leads(s: State, steps: seq<Step>, s': State) {
    Run(MutexOutside, s, steps) == Some(s')
  }

  lemma {:induction false} LeadsTrans(s: State, a: seq<Step>, m: State, b: seq<Step>, s': State)
    requires Leads(s, a, m) && Leads(m, b, s')
    ensures Leads(s, a + b, s')
    decreases a
  {
    if a == [] {
      assert a + b == b;
    } else {
      assert (a + b)[1..] == a[1..] + b;
      LeadsTrans(Do(MutexOutside, s, a[0]), a[1..], m, b, s');
    }
  }

  lemma LeadsOne(s: State, step: Step) returns (s': State)
    requires Inv(s) && Enabled(MutexOutside, s, step)
    ensures s' == Do(MutexOutside, s, step) && Leads(s, [step], s') && Inv(s')
  {
    s' := Do(MutexOutside, s, step);
    InvStep(s, step);
    assert [step][1..] == [];
  }

  /** The holder of the file lock can always give it back. */
  lemma FreeFlock(s: State) returns (steps: seq<Step>, s': State)
    requires Inv(s)
    ensures Leads(s, steps, s') && |steps| <= 1 && Inv(s') && s'.flock == None && s'.pc.Keys == s.pc.Keys
  {
    if s.flock == None {
      return [], s;
    }
    var holder := s.mutex[s.flock.value];
    s' := LeadsOne(s, End(holder));
    steps := [End(holder)];
  }

  /** With the file lock free, whoever holds a process's mutex can run to the end. */
  lemma FreeMutex(s: State, p: nat) returns (steps: seq<Step>, s': State)
    requires Inv(s) && s.flock == None
    ensures Leads(s, steps, s') && |steps| <= 3 && Inv(s') && s'.flock == None && p !in s'.mutex
    ensures s'.pc.Keys == s.pc.Keys
  {
    if p !in s.mutex {
      return [], s;
    }
    var owner := s.mutex[p];
    s' := s;
    steps := [];
    if s.pc[owner] == Outer {
      s' := LeadsOne(s, Begin(owner));
      var m := LeadsOne(s', End(owner));
      LeadsTrans(s, [Begin(owner)], s', [End(owner)], m);
      steps := [Begin(owner)] + [End(owner)];
      s' := m;
    }
    var last := LeadsOne(s', Exit(owner));
    LeadsTrans(s, steps, s', [Exit(owner)], last);
    steps := steps + [Exit(owner)];
    s' := last;
  }

  /** From every reachable state every thread can still get into a transaction, within six steps. */
  lemma NoDeadlock(threads: set<Thread>, s: State, t: Thread) returns (steps: seq<Step>, s': State)
    requires Reachable(MutexOutside, threads, s) && t in s.pc
    ensures Leads(s, steps, s') && |steps| <= 6 && t in s'.pc && s'.pc[t] == InTransaction
  {
    ReachableInv(threads, s);
    var a, s1 := FreeFlock(s);
    var b, s2 := FreeMutex(s1, t.p);
    LeadsTrans(s, a, s1, b, s2);
    var s3 := LeadsOne(s2, Enter(t));
    LeadsTrans(s, a + b, s2, [Enter(t)], s3);
    s' := LeadsOne(s3, Begin(t));
    LeadsTrans(s, a + b + [Enter(t)], s3, [Begin(t)], s');
    steps := a + b + [Enter(t)] + [Begin(t)];
  }

  // ------------------------------------------------------------ the calls of one thread

  /** A thread's own steps, in order. */
  function Own(who: Thread, steps: seq<Step>): seq<Step> {
    if steps == [] then []
    else
      var last := steps[|steps| - 1];
      Own(who, steps[..|steps| - 1]) + if last.who == who then [last] else []
  }

  /** The steps are those of complete calls followed by the part of a last one that leads to `pc`. */
  ghost predicate Calls(who: Thread, own: seq<Step>, pc: Pc)
    decreases |own|
  {
    match pc
    case Idle => own == [] || exists g: bool ::
      && |own| >= |CallSteps(who, g)| && own[|own| - |CallSteps(who, g)|..] == CallSteps(who, g)
      && Calls(who, own[..|own| - |CallSteps(who, g)|], Idle)
    case Outer => |own| >= 1 && own[|own| - 1] == Enter(who) && Calls(who, own[..|own| - 1], Idle)
    case InTransaction => |own| >= 1 && own[|own| - 1] == Begin(who) && Calls(who, own[..|own| - 1], Outer)
    case Leaving =>
      && |own| >= 1
      && ((own[|own| - 1] == End(who) && Calls(who, own[..|own| - 1], InTransaction))
          || (own[|own| - 1] == Refuse(who) && Calls(who, own[..|own| - 1], Outer)))
  }

  lemma CallsSnoc(who: Thread, own: seq<Step>, s: State, step: Step)
    requires step.who == who && Enabled(MutexOutside, s, step) && Calls(who, own, s.pc[who])
    ensures Calls(who, own + [step], Do(MutexOutside, s, step).pc[who])
  {
    var now := own + [step];
    assert now[..|own|] == own;
    if step.Exit? {
      Finished(who, own);
    }
  }

  lemma WasEntered(who: Thread, own: seq<Step>) returns (earlier: seq<Step>)
    requires Calls(who, own, Outer)
    ensures own == earlier + [Enter(who)] && Calls(who, earlier, Idle)
  {
    earlier := own[..|own| - 1];
  }

  lemma WasBegun(who: Thread, own: seq<Step>) returns (earlier: seq<Step>)
    requires Calls(who, own, InTransaction)
    ensures own == earlier + [Begin(who)] && Calls(who, earlier, Outer)
  {
    earlier := own[..|own| - 1];
  }

  lemma WasLeft(who: Thread, own: seq<Step>) returns (earlier: seq<Step>, granted: bool)
    requires Calls(who, own, Leaving)
    ensures own == earlier + [if granted then End(who) else Refuse(who)]
    ensures Calls(who, earlier, if granted then InTransaction else Outer)
  {
    earlier := own[..|own| - 1];
    granted := own[|own| - 1] == End(who);
  }

  lemma OneMoreCall(who: Thread, earlier: seq<Step>, granted: bool)
    requires Calls(who, earlier, Idle)
    ensures Calls(who, earlier + CallSteps(who, granted), Idle)
  {
    var own := earlier + CallSteps(who, granted);
    assert own[|earlier|..] == CallSteps(who, granted) && own[..|earlier|] == earlier;
  }

  /** Leaving completes a call. */
  lemma Finished(who: Thread, own: seq<Step>)
    requires Calls(who, own, Leaving)
    ensures Calls(who, own + [Exit(who)], Idle)
  {
    hide Calls;
    var rest, granted := WasLeft(who, own);
    if granted {
      rest := WasBegun(who, rest);
    }
    var earlier := WasEntered(who, rest);
    OneMoreCall(who, earlier, granted);
    assert own + [Exit(who)] == earlier + CallSteps(who, granted);
  }

  /** In every run each thread's own steps are those of its calls one after the other, the last perhaps unfinished. */
  lemma {:induction false} ThreadsCall(threads: set<Thread>, steps: seq<Step>, s: State, who: Thread)
    requires Run(MutexOutside, Init(threads), steps) == Some(s) && who in threads
    ensures who in s.pc && Calls(who, Own(who, steps), s.pc[who])
    decreases |steps|
  {
    hide Calls, Enabled, Do;
    if steps == [] {
      assert Calls(who, [], Idle) by { NoCalls(who); }
    } else {
      var n := |steps| - 1;
      var before := RunInit(MutexOutside, Init(threads), steps, s);
      ThreadsCall(threads, steps[..n], before, who);
      OneStep(who, Own(who, steps[..n]), before, steps[n]);
    }
  }

  lemma NoCalls(who: Thread)
    ensures Calls(who, [], Idle)
  {
  }

  lemma OneStep(who: Thread, own: seq<Step>, s: State, step: Step)
    requires Enabled(MutexOutside, s, step) && who in s.pc && Calls(who, own, s.pc[who])
    ensures var t := Do(MutexOutside, s, step);
            who in t.pc && Calls(who, own + if step.who == who then [step] else [], t.pc[who])
  {
    hide Calls;
    if step.who == who {
      CallsSnoc(who, own, s, step);
    } else {
      assert own + [] == own;
    }
  }

  /** A run without its last step. */
  lemma {:induction false} RunInit(o: Order, s0: State, steps: seq<Step>, s: State) returns (before: State)
    requires steps != [] && Run(o, s0, steps) == Some(s)
    ensures Run(o, s0, steps[..|steps| - 1]) == Some(before)
    ensures Enabled(o, before, steps[|steps| - 1]) && s == Do(o, before, steps[|steps| - 1])
    decreases steps
  {
    hide Enabled, Do;
    if |steps| == 1 {
      before := s0;
      assert steps[1..] == [] && steps[..0] == [];
    } else {
      before := RunInit(o, Do(o, s0, steps[0]), steps[1..], s);
      assert steps[..|steps| - 1][1..] == steps[1..][..|steps| - 2];
    }
  }
}
