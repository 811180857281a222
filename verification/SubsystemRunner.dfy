/**
  Starting subsystems after their prerequisites, and bringing all of them down again.
*/
module SubsystemRunner {
  import opened SubsystemStartup

  /** A termination signal, with the report of a problem or without. */
  datatype Signal = Signal(susy: Subsys, problem: bool)

  /** Remove every occurrence of `s`. */
  function Without(running: seq<Subsys>, s: Subsys): (r: seq<Subsys>)
    ensures forall t :: t in r <==> t in running && t != s
    ensures |r| <= |running|
  {
    if running == [] then []
    else if running[0] == s then Without(running[1..], s)
    else [running[0]] + Without(running[1..], s)
  }

  lemma {:induction false} WithoutAbsent(running: seq<Subsys>, s: Subsys)
    requires s !in running
    ensures Without(running, s) == running
  {
    if running != [] {
      WithoutAbsent(running[1..], s);
    }
  }

  /** Removal from a list without duplicates cuts out the one entry. */
  lemma {:induction false} WithoutCutsOut(running: seq<Subsys>, k: nat)
    requires NoDuplicates(running) && k < |running|
    ensures Without(running, running[k]) == running[..k] + running[k + 1..]
  {
    if k == 0 {
      WithoutAbsent(running[1..], running[0]);
    } else {
      WithoutCutsOut(running[1..], k - 1);
      assert running[1..][..k - 1] == running[1..k] && running[1..][k..] == running[k + 1..];
    }
  }

  lemma WithoutShrinks(running: seq<Subsys>, s: Subsys)
    requires NoDuplicates(running)
    ensures NoDuplicates(Without(running, s))
    ensures |Without(running, s)| == if s in running then |running| - 1 else |running|
  {
    if s in running {
      var k :| 0 <= k < |running| && running[k] == s;
      WithoutCutsOut(running, k);
    } else {
      WithoutAbsent(running, s);
    }
  }

  /** What remains after all of the signals. */
  function Remaining(running: seq<Subsys>, signals: seq<Signal>): seq<Subsys> {
    if signals == [] then running
    else Without(Remaining(running, signals[..|signals| - 1]), signals[|signals| - 1].susy)
  }

  predicate Signalled(signals: seq<Signal>, s: Subsys) {
    exists i :: 0 <= i < |signals| && signals[i].susy == s
  }

  predicate SomeProblem(signals: seq<Signal>) {
    exists i :: 0 <= i < |signals| && signals[i].problem
  }

  /** Exactly the managed subsystems that did not signal remain, whatever the order of the signals. */
  lemma {:induction false} RemainingAre(running: seq<Subsys>, signals: seq<Signal>, s: Subsys)
    ensures s in Remaining(running, signals) <==> s in running && !Signalled(signals, s)
  {
    if signals != [] {
      var n := |signals| - 1;
      RemainingAre(running, signals[..n], s);
      assert Signalled(signals, s) <==> Signalled(signals[..n], s) || signals[n].susy == s by {
        if Signalled(signals, s) && signals[n].susy != s {
          var i :| 0 <= i < |signals| && signals[i].susy == s;
          assert signals[..n][i].susy == s;
        }
      }
    }
  }

  lemma SomeProblemMore(signals: seq<Signal>, i: nat)
    requires i < |signals|
    ensures SomeProblem(signals[..i + 1]) <==> SomeProblem(signals[..i]) || signals[i].problem
  {
    if SomeProblem(signals[..i + 1]) && !signals[i].problem {
      var j :| 0 <= j < i + 1 && signals[..i + 1][j].problem;
      assert signals[..i][j].problem;
    }
    if SomeProblem(signals[..i]) {
      var j :| 0 <= j < i && signals[..i][j].problem;
      assert signals[..i + 1][j].problem;
    }
    if signals[i].problem {
      assert signals[..i + 1][i].problem;
    }
  }

  class Runner {
    const g: Graph
    const how: Behaviours

    var emergency: bool
    var running: seq<Subsys>
    /** the subsystems that report to be running */
    var up: set<Subsys>
    /** the subsystems asked to shut down, in order of the requests */
    var requests: seq<Subsys>
    /** the calls of `start` */
    ghost var started: seq<Subsys>

    ghost predicate WellFormed() {
      Ranked(g) && how.Keys == g.prereqs.Keys
    }

    /** The managed subsystems are known and run, each listed once and in order. */
    ghost predicate Valid()
      reads this
    {
      && WellFormed()
      && NoDuplicates(running) && Ordered(g, running)
      && (forall i :: 0 <= i < |running| ==> running[i] in g.prereqs && running[i] in up)
      && Supported(g, up)
    }

    constructor (g: Graph, how: Behaviours, up: set<Subsys>)
      requires Ranked(g) && how.Keys == g.prereqs.Keys && Supported(g, up)
      ensures Valid() && !emergency && running == [] && requests == [] && started == []
      ensures this.g == g && this.how == how && this.up == up
    {
      this.g, this.how, this.up := g, how, up;
      emergency, running, requests, started := false, [], [], [];
    }

    ghost function Current(): Situation
      reads this
    {
      Situation(running, up, requests, started)
    }

    predicate IsRunning(s: Subsys)
      reads this
    {
      s in up
    }

    /** Also after a failure, the managed subsystems are running, each listed once, and none got lost. */
    twostate predicate Kept()
      reads this
    {
      && WellFormed() && NoDuplicates(running)
      && (forall i :: 0 <= i < |running| ==> running[i] in g.prereqs && running[i] in up)
      && Started(g, how, old(up), up) && Managed(how, old(running), old(up), running, up)
      && old(started) <= started
    }

    /** Run `start`; the subsystem may come up, report so without coming up, decline, or throw. */
    method Start(s: Subsys) returns (reported: bool, thrown: bool)
      requires s in how
      modifies this`up, this`started
      ensures started == old(started) + [s] && thrown == how[s].Throws?
      ensures reported == (how[s].Starts? && how[s].reported)
      ensures up == if how[s].Starts? && how[s].comesUp then old(up) + {s} else old(up)
    {
      started := started + [s];
      match how[s]
      case Throws =>
        reported, thrown := false, true;
      case Starts(r, u) =>
        reported, thrown := r, false;
        if u {
          up := up + {s};
        }
    }

    /** Start a subsystem after its prerequisites, unless it runs already. */
    method TriggerStartup(s: Subsys) returns (o: Outcome)
      requires Valid() && s in g.prereqs
      modifies this`running, this`up, this`requests, this`started
      ensures Kept()
      ensures (o, Current()) == Startup(g, how, s, old(Current()))
      ensures o.Fine? ==> Valid() && PrereqsUp(g, up, s) && requests == old(requests)
      ensures o.Fine? ==> Result(g, how, s, old(up), up, started[|old(started)|..])
      ensures CanRun(g, how, s, old(up)) ==> o.Fine?
      decreases g.rank(s), 1
    {
      hide CanRun, StartedInOrder, OnlyNeeded, Ordered, Managed;
      NothingManaged(how, running, up);
      if IsRunning(s) {
        NothingToDo(g, how, s, up);
        assert started[|started|..] == [];
        return Fine;
      }
      o := StartPrerequisites(s);
      if o.Fine? {
        ghost var up', running', calls := up, running, started;
        if CanRun(g, how, s, old(up)) {
          CanRunItself(g, how, s, old(up));
        }
        o := StartItself(s);
        ManagedMore(how, old(running), old(up), running', up', running, up);
        if o.Fine? {
          ResultOf(g, how, s, old(up), up', up, calls[|old(started)|..]);
          assert started[|old(started)|..] == calls[|old(started)|..] + [s];
        }
      }
    }

    method StartPrerequisites(s: Subsys) returns (o: Outcome)
      requires Valid() && s in g.prereqs && s !in up
      modifies this`running, this`up, this`requests, this`started
      ensures Kept()
      ensures (o, Current()) == StartupFrom(g, how, s, 0, old(Current()))
      ensures o.Fine? ==> Valid() && requests == old(requests) && s !in up
      ensures o.Fine? ==> Progress(g, how, s, |g.prereqs[s]|, old(up), up, started[|old(started)|..])
      ensures CanRun(g, how, s, old(up)) ==> o.Fine? && PrereqsUp(g, up, s)
      decreases g.rank(s), 0
    {
      hide CanRun, StartedInOrder, OnlyNeeded, Ordered, Supported, NoDuplicates, Result, Called, Managed;
      NothingManaged(how, running, up);
      NoProgress(g, how, s, up);
      assert started[|started|..] == [];
      var i := 0;
      while i < |g.prereqs[s]|
        invariant i <= |g.prereqs[s]| && Valid() && Kept() && requests == old(requests)
        invariant StartupFrom(g, how, s, i, Current()) == StartupFrom(g, how, s, 0, old(Current()))
        invariant Progress(g, how, s, i, old(up), up, started[|old(started)|..])
      {
        ghost var up', running', calls := up, running, started;
        if CanRun(g, how, s, old(up)) {
          PrerequisiteCanRun(g, how, s, i, old(up), up);
        }
        o := TriggerStartup(g.prereqs[s][i]);
        ManagedMore(how, old(running), old(up), running', up', running, up);
        if !o.Fine? {
          return;
        }
        ProgressMore(g, how, s, i, old(up), up', up, calls[|old(started)|..], started[|calls|..]);
        assert started[|old(started)|..] == calls[|old(started)|..] + started[|calls|..];
        i := i + 1;
      }
      o := Fine;
    }

    method StartItself(s: Subsys) returns (o: Outcome)
      requires Valid() && s in g.prereqs && s !in up
      modifies this`running, this`up, this`requests, this`started
      ensures Kept() && started == old(started) + [s]
      ensures (o, Current()) == StartupItself(g, how, s, old(Current()))
      ensures o.Fine? ==> Valid() && PrereqsUp(g, up, s) && requests == old(requests)
      ensures o.Fine? ==> s in up || how[s] == Starts(false, false)
      ensures o.Fine? && s in up ==> up == old(up) + {s}
      ensures o.Fine? && s !in up ==> up == old(up)
      ensures PrereqsUp(g, old(up), s) && how[s].Starts? && how[s].comesUp ==> o.Fine? && s in up
    {
      var reported, thrown := Start(s);
      if thrown {
        return StartFailure;
      }
      if reported {
        if IsRunning(s) {
          OrderedAppend(g, old(up), running, s);
          running := running + [s];
        } else {
          return NotComingUp;
        }
      }
      if !PrereqsUp(g, up, s) {
        requests := requests + [s];
        return PrerequisiteMissing;
      }
      o := Fine;
    }

    /** Provide a subsystem for startup: it runs only together with everything it needs, directly or indirectly. */
    method MaybeRun(s: Subsys, shouldStart: bool) returns (o: Outcome)
      requires Valid() && s in g.prereqs
      modifies this`running, this`up, this`requests, this`started
      ensures Kept() && (o.Fine? ==> Valid())
      ensures shouldStart ==> (o, Current()) == Startup(g, how, s, old(Current()))
      ensures !shouldStart || s in old(up) ==> o.Fine? && Current() == old(Current())
      ensures o.Fine? && s in up <==> s in old(up) || (shouldStart && CanRun(g, how, s, old(up)))
      ensures o.Fine? && shouldStart ==> s in up || how[s] == Starts(false, false)
      ensures o.Fine? && s in up ==> forall p :: Needs(g, s, p) ==> p in up
      ensures o.Fine? && s in up ==> StartedInOrder(g, started[|old(started)|..], old(up), up)
      ensures o.Fine? ==> OnlyNeeded(g, s, old(up), up)
    {
      if !IsRunning(s) && shouldStart {
        o := TriggerStartup(s);
      } else {
        o := Fine;
      }
      if o.Fine? && s in up {
        forall p | Needs(g, s, p)
          ensures p in up
        {
          NeedsUp(g, up, s, p);
        }
      }
    }

    /** Ask every managed subsystem to shut down. */
    method ShutdownAll()
      modifies this`requests
      ensures requests == old(requests) + running
    {
      var i := 0;
      while i < |running|
        invariant i <= |running| && requests == old(requests) + running[..i]
      {
        requests := requests + [running[i]];
        i := i + 1;
      }
    }

    method TriggerEmergency(cond: bool)
      modifies this`emergency
      ensures emergency == (old(emergency) || cond)
    {
      if cond {
        emergency := true;
      }
    }

    /** A subsystem has terminated. It is not managed any longer, and all the others are asked to shut down as well. */
    method SigTerm(signal: Signal)
      requires NoDuplicates(running)
      modifies this`emergency, this`running, this`requests
      ensures emergency == (old(emergency) || signal.problem)
      ensures running == Without(old(running), signal.susy) && NoDuplicates(running)
      ensures |running| == if signal.susy in old(running) then |old(running)| - 1 else |old(running)|
      ensures requests == old(requests) + running
    {
      TriggerEmergency(signal.problem);
      WithoutShrinks(running, signal.susy);
      running := Without(running, signal.susy);
      ShutdownAll();
    }

    /** Every managed subsystem was asked to shut down, not counting the first `n` requests. */
    ghost predicate AllRequested(n: nat)
      reads this
      requires n <= |requests|
    {
      forall s :: s in running ==> s in requests[n..]
    }

    /** All subsystems that were asked to shut down, not counting the first `n` requests, have signalled. */
    ghost predicate AllAnswered(n: nat, signals: seq<Signal>)
      reads this
      requires n <= |requests|
    {
      forall s :: s in requests[n..] ==> Signalled(signals, s)
    }

    /**
      Wind-down: termination signals arrive in any order, while nothing is started. Whatever remains was asked to shut
      down; once every one of these requests is answered, nothing remains.
    */
    method WindDown(signals: seq<Signal>)
      requires NoDuplicates(running)
      modifies this`emergency, this`running, this`requests
      ensures emergency == (old(emergency) || SomeProblem(signals))
      ensures running == Remaining(old(running), signals) && NoDuplicates(running)
      ensures old(requests) <= requests && |old(requests)| <= |requests|
      ensures signals != [] ==> AllRequested(|old(requests)|)
      ensures signals != [] && AllAnswered(|old(requests)|, signals) ==> running == []
    {
      var i := 0;
      while i < |signals|
        invariant i <= |signals| && NoDuplicates(running)
        invariant emergency == (old(emergency) || SomeProblem(signals[..i]))
        invariant running == Remaining(old(running), signals[..i])
        invariant old(requests) <= requests && |old(requests)| <= |requests|
        invariant i > 0 ==> AllRequested(|old(requests)|)
      {
        assert signals[..i + 1][..i] == signals[..i] && signals[..i + 1][i] == signals[i];
        SomeProblemMore(signals, i);
        ghost var before := requests;
        SigTerm(signals[i]);
        assert requests[|old(requests)|..] == before[|old(requests)|..] + running;
        i := i + 1;
      }
      assert signals[..i] == signals;
      assert running == [] || running[0] in running;
      forall s | s in running
        ensures !Signalled(signals, s)
      {
        RemainingAre(old(running), signals, s);
      }
    }

    /** The wait ends when nothing runs any longer, or, after a limited time, in an emergency. */
    predicate MayReturn()
      reads this
    {
      running == [] || emergency
    }

    /**
      Startup went well and signals arrived; then `wait` returns. Without an emergency that means every managed
      subsystem has signalled, and no signal ever reported a problem.
    */
    method Wait(signals: seq<Signal>) returns (done: bool, failed: bool)
      requires NoDuplicates(running)
      modifies this`emergency, this`running, this`requests
      ensures done && !failed ==> running == [] && !old(emergency) && !SomeProblem(signals)
      ensures done && !failed ==> forall s :: s in old(running) ==> Signalled(signals, s)
      ensures done && failed ==> old(emergency) || SomeProblem(signals)
      ensures old(emergency) || SomeProblem(signals) ==> done && failed
      ensures done <==>
              old(emergency) || SomeProblem(signals) || forall s :: s in old(running) ==> Signalled(signals, s)
      ensures |old(requests)| <= |requests|
      ensures signals != [] && AllAnswered(|old(requests)|, signals) ==> done && running == []
    {
      WindDown(signals);
      done, failed := MayReturn(), emergency;
      forall s | s in old(running) && running == []
        ensures Signalled(signals, s)
      {
        RemainingAre(old(running), signals, s);
      }
      if running != [] {
        RemainingAre(old(running), signals, running[0]);
      }
    }
  }
}
