/**
  Access to a dependency from any number of threads: double checked locking as a system of
  steps, each of which is one access to shared state. Between two reconfigurations, at most
  one object is built, and every thread gets that object.
*/
module DependAccess {

  datatype Option<+T> = None | Some(value: T)

  type Obj = nat
  type Thread = nat

  /** How the factory builds its target; by default, or with a configured function, or not any more. */
  datatype Creator = Default | Managed | Delegate | Mock | Disabled

  datatype Action = Delete(obj: Obj) | ResetInstance

  /** Where a thread is in the access function. */
  datatype Pc =
    | Idle
    | MustLock            // found no instance, passed the zombie check
    | Entered             // holds the lock, before the second check
    | Built(obj: Obj)     // has built the target
    | Exposing(obj: Obj)  // has the object to be published
    | Leaving(obj: Obj)   // has published it, still holds the lock
    | Returning(obj: Obj)

  datatype State = State(
    instance: Option<Obj>,
    creator: Creator,
    deleter: seq<Action>,
    lock: Option<Thread>,
    pcs: map<Thread, Pc>,
    next: Obj,
    built: seq<Obj>,
    returned: set<Obj>)

  ghost predicate Start(s: State) {
    && s.lock.None? && s.built == [] && s.returned == {}
    && (s.instance.Some? ==> s.creator.Disabled?)
    && forall t :: t in s.pcs ==> s.pcs[t].Idle?
  }

  /** The deleter after building an object: a default or managed one is deleted with the factory. */
  function DeleterFor(creator: Creator, deleter: seq<Action>, obj: Obj): seq<Action> {
    if creator.Default? || creator.Managed? then deleter + [Delete(obj)] else deleter
  }

  datatype Step =
    | Load(t: Thread)
    | Lock(t: Thread)
    | LoadAgain(t: Thread)
    | Build(t: Thread)
    | BuildFails(t: Thread)
    | Retire(t: Thread)
    | Store(t: Thread)
    | Unlock(t: Thread)
    | Return(t: Thread)

  predicate Enabled(s: State, a: Step) {
    a.t in s.pcs
    && match a
       case Load(t) => s.pcs[t].Idle?
       case Lock(t) => s.pcs[t].MustLock? && s.lock.None?
       case LoadAgain(t) => s.pcs[t].Entered? && s.instance.Some?
       case Build(t) => s.pcs[t].Entered? && s.instance.None? && !s.creator.Disabled?
       case BuildFails(t) => s.pcs[t].Entered? && s.instance.None?
       case Retire(t) => s.pcs[t].Built?
       case Store(t) => s.pcs[t].Exposing?
       case Unlock(t) => s.pcs[t].Leaving?
       case Return(t) => s.pcs[t].Returning?
  }

  function After(s: State, a: Step): State
    requires Enabled(s, a)
  {
    match a
    case Load(t) =>
      s.(pcs := s.pcs[t := if s.instance.Some? then Returning(s.instance.value) else MustLock])
    case Lock(t) =>
      s.(lock := Some(t), pcs := s.pcs[t := Entered])
    case LoadAgain(t) =>
      s.(pcs := s.pcs[t := Exposing(s.instance.value)])
    case Build(t) =>
      s.(deleter := DeleterFor(s.creator, s.deleter, s.next), next := s.next + 1, built := s.built + [s.next],
         pcs := s.pcs[t := Built(s.next)])
    case BuildFails(t) =>
      s.(lock := None, pcs := s.pcs[t := Idle])
    case Retire(t) =>
      s.(creator := Disabled, deleter := s.deleter + [ResetInstance], pcs := s.pcs[t := Exposing(s.pcs[t].obj)])
    case Store(t) =>
      s.(instance := Some(s.pcs[t].obj), pcs := s.pcs[t := Leaving(s.pcs[t].obj)])
    case Unlock(t) =>
      s.(lock := None, pcs := s.pcs[t := Returning(s.pcs[t].obj)])
    case Return(t) =>
      s.(returned := s.returned + {s.pcs[t].obj}, pcs := s.pcs[t := Idle])
  }

  predicate Inside(pc: Pc) {
    pc.Entered? || pc.Built? || pc.Exposing? || pc.Leaving?
  }

  /** What a thread knows at its position. */
  ghost predicate PcOk(s: State, t: Thread)
    requires t in s.pcs
  {
    && (Inside(s.pcs[t]) ==> s.lock == Some(t))
    && match s.pcs[t]
       case Idle => true
       case MustLock => true
       case Entered => true
       case Built(o) => s.instance.None? && s.built == [o]
       case Exposing(o) => s.creator.Disabled? && (s.instance == Some(o) || (s.instance.None? && s.built == [o]))
       case Leaving(o) => s.instance == Some(o)
       case Returning(o) => s.instance == Some(o)
  }

  ghost predicate Inv(s: State) {
    && (forall t :: t in s.pcs ==> PcOk(s, t))
    && (s.lock.Some? ==> s.lock.value in s.pcs && Inside(s.pcs[s.lock.value]))
    && (s.instance.Some? ==> s.creator.Disabled? && forall o :: o in s.built ==> o == s.instance.value)
    && |s.built| <= 1
    && (s.instance.None? && (s.lock.None? || s.pcs[s.lock.value].Entered?) ==> s.built == [])
    && (forall o :: o in s.returned ==> s.instance == Some(o))
  }

  lemma StartInv(s: State)
    requires Start(s)
    ensures Inv(s)
  {
  }

  lemma StepInv(s: State, a: Step)
    requires Inv(s) && Enabled(s, a)
    ensures Inv(After(s, a))
  {
    var s' := After(s, a);
    forall t | t in s'.pcs ensures PcOk(s', t) {
      assert PcOk(s, t) && PcOk(s, a.t);
    }
  }

  /** A run: any interleaving of steps. */
  ghost predicate IsRun(states: seq<State>, steps: seq<Step>) {
    && |states| == |steps| + 1 && Start(states[0])
    && forall i :: 0 <= i < |steps| ==> Enabled(states[i], steps[i]) && states[i + 1] == After(states[i], steps[i])
  }

  lemma {:induction false} RunInv(states: seq<State>, steps: seq<Step>, k: nat)
    requires IsRun(states, steps) && k < |states|
    ensures Inv(states[k])
  {
    if k == 0 {
      StartInv(states[0]);
    } else {
      RunInv(states, steps, k - 1);
      StepInv(states[k - 1], steps[k - 1]);
    }
  }

  lemma StepMonotone(s: State, a: Step)
    requires Inv(s) && Enabled(s, a)
    ensures s.returned <= After(s, a).returned && s.built <= After(s, a).built
    ensures s.instance.Some? ==> After(s, a).instance == s.instance && After(s, a).built == s.built
  {
    assert PcOk(s, a.t);
  }

  lemma {:induction false} RunMonotone(states: seq<State>, steps: seq<Step>, i: nat, k: nat)
    requires IsRun(states, steps) && i <= k < |states|
    ensures states[i].returned <= states[k].returned && states[i].built <= states[k].built
    ensures states[i].instance.Some? ==> states[k].instance == states[i].instance && states[k].built == states[i].built
    decreases k - i
  {
    if i < k {
      RunMonotone(states, steps, i, k - 1);
      RunInv(states, steps, k - 1);
      hide After, Inv, Enabled;
      StepMonotone(states[k - 1], steps[k - 1]);
    }
  }

  /**
    In every run, at most one object is built, all threads that return get the same object, it is the one
    published from then on, and a published object means that the factory is disabled.
  */
  lemma OneInstanceForAll(states: seq<State>, steps: seq<Step>, i: nat, j: nat)
    requires IsRun(states, steps) && i <= j < |states|
    ensures |states[j].built| <= 1
    ensures forall o, p :: o in states[i].returned && p in states[j].returned ==>
              o == p && states[j].instance == Some(o)
    ensures states[j].instance.Some? ==> states[j].creator.Disabled?
    ensures states[i].instance.Some? ==> states[j].instance == states[i].instance && states[j].built == states[i].built
  {
    RunInv(states, steps, i);
    RunInv(states, steps, j);
    RunMonotone(states, steps, i, j);
  }

  /** A factory disabled without an instance, as after the shutdown of a service, never yields one. */
  lemma {:induction false} DisabledStaysClosed(states: seq<State>, steps: seq<Step>, k: nat)
    requires IsRun(states, steps) && k < |states|
    requires states[0].creator.Disabled? && states[0].instance.None?
    ensures states[k].creator.Disabled? && states[k].instance.None? && states[k].built == [] && states[k].returned == {}
  {
    if k > 0 {
      DisabledStaysClosed(states, steps, k - 1);
      RunInv(states, steps, k - 1);
      assert PcOk(states[k - 1], steps[k - 1].t);
    }
  }

  /**
    After a build that throws nobody is inside and nothing is built. Any thread waiting gets the lock and tries again,
    with the same factory, and its build succeeds unless the factory is disabled.
  */
  lemma FailedBuildLeavesNoTrace(s: State, t: Thread, u: Thread)
    requires Inv(s) && Enabled(s, BuildFails(t)) && u in s.pcs && s.pcs[u].MustLock?
    ensures var s' := After(s, BuildFails(t));
            && Inv(s') && s'.built == [] && s'.instance.None? && (forall v :: v in s'.pcs ==> !Inside(s'.pcs[v]))
            && Enabled(s', Lock(u)) && !Enabled(After(s', Lock(u)), LoadAgain(u))
            && (Enabled(After(s', Lock(u)), Build(u)) <==> !s.creator.Disabled?)
            && (!s.creator.Disabled? ==>
                  After(After(s', Lock(u)), Build(u)).deleter == DeleterFor(s.creator, s.deleter, s.next))
  {
    var s' := After(s, BuildFails(t));
    StepInv(s, BuildFails(t));
    assert PcOk(s, t);
    forall v | v in s'.pcs ensures !Inside(s'.pcs[v]) {
      assert PcOk(s, v);
    }
  }

  // ---- what a thread gets

  /**
    In every run, an access ends only by returning the instance published by then, or by a build that throws while there
    is none.
  */
  lemma AccessEnds(states: seq<State>, steps: seq<Step>, i: nat, t: Thread)
    requires IsRun(states, steps) && i < |steps|
    requires t in states[i].pcs && !states[i].pcs[t].Idle?
    requires t in states[i + 1].pcs ==> states[i + 1].pcs[t].Idle?
    ensures var s, s' := states[i], states[i + 1];
            || (&& steps[i] == Return(t) && s.instance.Some? && s.pcs[t] == Returning(s.instance.value)
                && s'.returned == s.returned + {s.instance.value} && s'.instance == s.instance)
            || (&& steps[i] == BuildFails(t) && s.instance.None? && s'.instance.None?
                && s'.returned == s.returned && s'.lock.None?)
  {
    RunInv(states, steps, i);
    assert PcOk(states[i], t);
  }

  /** With an instance published, an access returns it without the lock, whoever holds that. */
  lemma AccessWithoutLock(s: State, t: Thread)
    requires Inv(s) && t in s.pcs && s.pcs[t].Idle? && s.instance.Some?
    ensures Enabled(s, Load(t)) && Enabled(After(s, Load(t)), Return(t))
    ensures var s' := After(After(s, Load(t)), Return(t));
            s' == s.(returned := s.returned + {s.instance.value})
  {
    assert s.pcs[t := Returning(s.instance.value)][t := Idle] == s.pcs;
  }

  /** A thread that is inside, or about to return, or next to get the lock. */
  predicate UnderWay(s: State, t: Thread) {
    t in s.pcs && !s.pcs[t].Idle? && (s.pcs[t].MustLock? ==> s.lock.None?)
  }

  /** Its next step, which either builds or fails when there is something to be built. */
  function NextStep(s: State, t: Thread, builds: bool): Step
    requires UnderWay(s, t)
  {
    match s.pcs[t]
    case MustLock => Lock(t)
    case Entered =>
      if s.instance.Some? then LoadAgain(t) else if builds && !s.creator.Disabled? then Build(t) else BuildFails(t)
    case Built(_) => Retire(t)
    case Exposing(_) => Store(t)
    case Leaving(_) => Unlock(t)
    case Returning(_) => Return(t)
  }

  /** The number of steps to go, at most. */
  function ToGo(pc: Pc): nat {
    match pc
    case Idle => 0
    case MustLock => 6
    case Entered => 5
    case Built(_) => 4
    case Exposing(_) => 3
    case Leaving(_) => 2
    case Returning(_) => 1
  }

  lemma GoesOn(s: State, t: Thread, builds: bool)
    requires Inv(s) && UnderWay(s, t)
    ensures Enabled(s, NextStep(s, t, builds))
    ensures var s' := After(s, NextStep(s, t, builds));
            Inv(s') && (UnderWay(s', t) || s'.pcs[t].Idle?) && ToGo(s'.pcs[t]) < ToGo(s.pcs[t])
  {
    assert PcOk(s, t);
    StepInv(s, NextStep(s, t, builds));
  }

  /** After the thread has gone on by itself to the end of its access. */
  ghost function Finished(s: State, t: Thread, builds: bool): (r: State)
    requires Inv(s) && UnderWay(s, t)
    ensures Inv(r) && t in r.pcs && r.pcs[t].Idle?
    decreases ToGo(s.pcs[t])
  {
    GoesOn(s, t, builds);
    var s' := After(s, NextStep(s, t, builds));
    if UnderWay(s', t) then Finished(s', t, builds) else s'
  }

  /** Whether the access has an object to return: one that is there or has been built, or can be built now. */
  predicate HasObject(s: State, t: Thread, builds: bool)
    requires UnderWay(s, t)
  {
    s.instance.Some? || (s.pcs[t].MustLock? || s.pcs[t].Entered? ==> builds && !s.creator.Disabled?)
  }

  /**
    From every state that can be reached, a thread under way gets through by its own steps: with the published instance,
    exactly if there is one or a build succeeds. The one published before stays. The lock is free again.
  */
  lemma {:induction false} AccessGetsThrough(s: State, t: Thread, builds: bool)
    requires Inv(s) && UnderWay(s, t)
    ensures var r := Finished(s, t, builds);
            && (r.instance.Some? <==> HasObject(s, t, builds))
            && (r.instance.Some? ==> r.instance.value in r.returned)
            && (r.instance.None? ==> r.returned == s.returned && r.built == [])
            && (s.instance.Some? ==> r.instance == s.instance)
            && (s.pcs[t].Returning? || r.lock.None?)
    decreases ToGo(s.pcs[t])
  {
    hide Inv;
    GoesOn(s, t, builds);
    var a := NextStep(s, t, builds);
    var s' := After(s, a);
    StepFacts(s, t, builds);
    if UnderWay(s', t) {
      AccessGetsThrough(s', t, builds);
    }
  }

  lemma StepFacts(s: State, t: Thread, builds: bool)
    requires Inv(s) && UnderWay(s, t) && Enabled(s, NextStep(s, t, builds))
    ensures var s' := After(s, NextStep(s, t, builds));
            && (s.instance.Some? ==> s'.instance == s.instance)
            && (UnderWay(s', t) ==> (HasObject(s', t, builds) <==> HasObject(s, t, builds)))
            && (UnderWay(s', t) ==> s'.returned == s.returned)
            && (!UnderWay(s', t) ==>
                  if s.pcs[t].Returning? then s'.instance.Some? && s'.instance.value in s'.returned
                  else !HasObject(s, t, builds) && s'.instance.None? && s'.returned == s.returned && s'.built == []
                       && s'.lock.None?)
            && (s'.pcs[t].Returning? ==> s'.lock.None?)
            && (s.pcs[t].Returning? ==> s'.lock == s.lock)
  {
    assert PcOk(s, t);
  }

  /** All that has changed when a thread has built the object. */
  lemma AccessBuilds(s: State, t: Thread)
    requires Inv(s) && t in s.pcs && s.pcs[t].MustLock? && s.lock.None? && s.instance.None? && !s.creator.Disabled?
    ensures var r := Finished(s, t, true);
            && r.instance == Some(s.next) && r.next == s.next + 1 && r.creator == Disabled
            && r.deleter == DeleterFor(s.creator, s.deleter, s.next) + [ResetInstance]
            && r.returned == s.returned + {s.next} && r.pcs == s.pcs[t := Idle]
  {
    var s1 := NextOf(s, t);
    var s2 := NextOf(s1, t);
    var s3 := NextOf(s2, t);
    var s4 := NextOf(s3, t);
    var s5 := NextOf(s4, t);
    var s6 := NextOf(s5, t);
    assert s6.pcs == s.pcs[t := Idle];
  }

  lemma NextOf(s: State, t: Thread) returns (s': State)
    requires Inv(s) && UnderWay(s, t)
    ensures Enabled(s, NextStep(s, t, true)) && s' == After(s, NextStep(s, t, true)) && Inv(s')
    ensures Finished(s, t, true) == if UnderWay(s', t) then Finished(s', t, true) else s'
  {
    GoesOn(s, t, true);
    s' := After(s, NextStep(s, t, true));
  }
}
