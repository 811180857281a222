/**
  Starting subsystems after their prerequisites: what one startup comes to.
*/
module SubsystemStartup {

  type Subsys = nat

  /** The prerequisites of all subsystems, with ranks that witness the absence of cycles. */
  datatype Graph = Graph(prereqs: map<Subsys, seq<Subsys>>, rank: Subsys -> nat)

  type Behaviours = map<Subsys, Behaviour>

  /** What the `start` function of a subsystem does: it reports a result and comes up or not, or throws. */
  datatype Behaviour = Starts(reported: bool, comesUp: bool) | Throws

  datatype Outcome = Fine | StartFailure | NotComingUp | PrerequisiteMissing

  ghost predicate NoDuplicates(s: seq<Subsys>) {
    forall i, j :: 0 <= i < j < |s| ==> s[i] != s[j]
  }

  /** Prerequisites are known subsystems, and the relation is acyclic as witnessed by a rank. */
  ghost predicate Ranked(g: Graph) {
    forall s, i :: s in g.prereqs && 0 <= i < |g.prereqs[s]| ==>
      g.prereqs[s][i] in g.prereqs && g.rank(g.prereqs[s][i]) < g.rank(s)
  }

  /** `p` is `s` itself or one of its direct or indirect prerequisites. */
  ghost predicate Needs(g: Graph, s: Subsys, p: Subsys)
    requires Ranked(g) && s in g.prereqs
    decreases g.rank(s)
  {
    s == p || exists i :: 0 <= i < |g.prereqs[s]| && Needs(g, g.prereqs[s][i], p)
  }

  predicate PrereqsUp(g: Graph, up: set<Subsys>, s: Subsys)
    requires s in g.prereqs
  {
    forall i :: 0 <= i < |g.prereqs[s]| ==> g.prereqs[s][i] in up
  }

  /** Whatever is running has its prerequisites running. */
  ghost predicate Supported(g: Graph, up: set<Subsys>) {
    forall s :: s in up && s in g.prereqs ==> PrereqsUp(g, up, s)
  }

  /** In a supported state, all that a running subsystem needs is running. */
  lemma {:induction false} NeedsUp(g: Graph, up: set<Subsys>, s: Subsys, p: Subsys)
    requires Ranked(g) && Supported(g, up) && s in g.prereqs && s in up && Needs(g, s, p)
    ensures p in up
    decreases g.rank(s)
  {
    if s != p {
      var i :| 0 <= i < |g.prereqs[s]| && Needs(g, g.prereqs[s][i], p);
      assert PrereqsUp(g, up, s);
      NeedsUp(g, up, g.prereqs[s][i], p);
    }
  }

  /** Each managed subsystem comes after those of its prerequisites that are managed as well. */
  ghost predicate Ordered(g: Graph, running: seq<Subsys>) {
    forall i, k :: 0 <= i < |running| && running[i] in g.prereqs && 0 <= k < |g.prereqs[running[i]]|
        && g.prereqs[running[i]][k] in running
      ==> g.prereqs[running[i]][k] in running[..i]
  }

  lemma {:induction false} NeedsRank(g: Graph, s: Subsys, p: Subsys)
    requires Ranked(g) && s in g.prereqs && Needs(g, s, p)
    ensures g.rank(p) <= g.rank(s)
    decreases g.rank(s)
  {
    if s != p {
      var i :| 0 <= i < |g.prereqs[s]| && Needs(g, g.prereqs[s][i], p);
      NeedsRank(g, g.prereqs[s][i], p);
    }
  }

  /** A subsystem newly started goes last, after its prerequisites. */
  lemma OrderedAppend(g: Graph, up: set<Subsys>, running: seq<Subsys>, s: Subsys)
    requires Ordered(g, running) && NoDuplicates(running) && Supported(g, up) && s !in up && s in g.prereqs
    requires forall i :: 0 <= i < |running| ==> running[i] in g.prereqs && running[i] in up
    requires forall k :: 0 <= k < |g.prereqs[s]| ==> g.prereqs[s][k] != s
    ensures Ordered(g, running + [s]) && NoDuplicates(running + [s])
  {
    var r := running + [s];
    forall i, k | 0 <= i < |r| && r[i] in g.prereqs && 0 <= k < |g.prereqs[r[i]]| && g.prereqs[r[i]][k] in r
      ensures g.prereqs[r[i]][k] in r[..i]
    {
      var p := g.prereqs[r[i]][k];
      if i < |running| {
        assert PrereqsUp(g, up, running[i]);
        assert p in running && r[..i] == running[..i];
      } else {
        assert r[..i] == running;
      }
    }
  }

  /** What a startup may change: subsystems come up and are appended, each of them needed by `s` and able to come up. */
  ghost predicate Started(g: Graph, how: Behaviours, up: set<Subsys>, up': set<Subsys>) {
    && up <= up'
    && forall t :: t in up' && t !in up ==> t in g.prereqs && t in how && how[t].Starts? && how[t].comesUp
  }

  ghost predicate OnlyNeeded(g: Graph, s: Subsys, up: set<Subsys>, up': set<Subsys>)
    requires Ranked(g) && s in g.prereqs
  {
    forall t :: t in up' && t !in up ==> Needs(g, s, t)
  }

  /** The calls of `start`: one for each subsystem that came up, and after its prerequisites. */
  ghost predicate StartedInOrder(g: Graph, calls: seq<Subsys>, up: set<Subsys>, up': set<Subsys>) {
    && NoDuplicates(calls)
    && (forall t :: t in calls <==> t !in up && t in up')
    && forall i, k :: 0 <= i < |calls| && calls[i] in g.prereqs && 0 <= k < |g.prereqs[calls[i]]|
         ==> g.prereqs[calls[i]][k] in up || g.prereqs[calls[i]][k] in calls[..i]
  }

  /** Two startups in sequence. */
  lemma StartedInOrderMore(g: Graph, a: seq<Subsys>, b: seq<Subsys>, up: set<Subsys>, up': set<Subsys>,
                           up'': set<Subsys>)
    requires StartedInOrder(g, a, up, up') && StartedInOrder(g, b, up', up'') && up <= up' <= up''
    ensures StartedInOrder(g, a + b, up, up'')
  {
    var c := a + b;
    assert forall i :: 0 <= i < |a| ==> a[i] in a;
    assert forall i :: 0 <= i < |b| ==> b[i] in b;
    forall i, k | 0 <= i < |c| && c[i] in g.prereqs && 0 <= k < |g.prereqs[c[i]]|
      ensures g.prereqs[c[i]][k] in up || g.prereqs[c[i]][k] in c[..i]
    {
      if i < |a| {
        assert c[..i] == a[..i];
      } else {
        assert c[..i] == a + b[..i - |a|];
      }
    }
  }

  /** A prerequisite only brings up what the subsystem needs as well, and never the subsystem itself. */
  lemma NeededThrough(g: Graph, s: Subsys, i: nat, up: set<Subsys>, up': set<Subsys>, up'': set<Subsys>)
    requires Ranked(g) && s in g.prereqs && i < |g.prereqs[s]| && s !in up'
    requires OnlyNeeded(g, s, up, up') && OnlyNeeded(g, g.prereqs[s][i], up', up'')
    ensures OnlyNeeded(g, s, up, up'') && s !in up''
  {
    if s in up'' {
      NeedsRank(g, g.prereqs[s][i], s);
    }
  }

  /** Everything that `s` needs, and `s` itself, runs already or does come up when started. */
  ghost predicate CanRun(g: Graph, how: Behaviours, s: Subsys, up: set<Subsys>)
    requires Ranked(g) && s in g.prereqs
  {
    forall p :: Needs(g, s, p) ==> p in up || (p in how && how[p].Starts? && how[p].comesUp)
  }

  lemma CanRunItself(g: Graph, how: Behaviours, s: Subsys, up: set<Subsys>)
    requires Ranked(g) && s in g.prereqs && CanRun(g, how, s, up)
    ensures s in up || (s in how && how[s].Starts? && how[s].comesUp)
  {
    assert Needs(g, s, s);
  }

  lemma PrerequisiteCanRun(g: Graph, how: Behaviours, s: Subsys, i: nat, up: set<Subsys>, up': set<Subsys>)
    requires Ranked(g) && s in g.prereqs && i < |g.prereqs[s]| && CanRun(g, how, s, up) && up <= up'
    ensures CanRun(g, how, g.prereqs[s][i], up')
  {
    forall p | Needs(g, g.prereqs[s][i], p)
      ensures Needs(g, s, p)
    {
    }
  }

  /** The first `n` prerequisites were called: each is up, or declined. */
  ghost predicate Called(g: Graph, how: Behaviours, up: set<Subsys>, s: Subsys, n: nat)
    requires s in g.prereqs && n <= |g.prereqs[s]| && how.Keys == g.prereqs.Keys
  {
    forall k :: 0 <= k < n ==> g.prereqs[s][k] in up || Declines(how, g.prereqs[s][k])
  }

  ghost predicate FirstUp(g: Graph, up: set<Subsys>, s: Subsys, n: nat)
    requires s in g.prereqs && n <= |g.prereqs[s]|
  {
    forall k :: 0 <= k < n ==> g.prereqs[s][k] in up
  }

  /** What a startup of `s` came to, when it did not fail: with `calls` of `start`, `up` grew to `up'`. */
  ghost predicate Result(g: Graph, how: Behaviours, s: Subsys, up: set<Subsys>, up': set<Subsys>, calls: seq<Subsys>)
    requires Ranked(g) && how.Keys == g.prereqs.Keys && s in g.prereqs
  {
    && OnlyNeeded(g, s, up, up')
    && (s in up' || Declines(how, s))
    && (s in up' ==> StartedInOrder(g, calls, up, up'))
    && (CanRun(g, how, s, up) ==> s in up')
  }

  /** What the startup of the first `n` prerequisites came to. */
  ghost predicate Progress(g: Graph, how: Behaviours, s: Subsys, n: nat, up: set<Subsys>, up': set<Subsys>,
                           calls: seq<Subsys>)
    requires Ranked(g) && how.Keys == g.prereqs.Keys && s in g.prereqs && n <= |g.prereqs[s]|
  {
    && s !in up' && OnlyNeeded(g, s, up, up')
    && Called(g, how, up', s, n)
    && (CanRun(g, how, s, up) ==> FirstUp(g, up', s, n))
    && (FirstUp(g, up', s, n) ==> StartedInOrder(g, calls, up, up'))
  }

  lemma NothingToDo(g: Graph, how: Behaviours, s: Subsys, up: set<Subsys>)
    requires Ranked(g) && how.Keys == g.prereqs.Keys && s in g.prereqs && s in up
    ensures Result(g, how, s, up, up, [])
  {
  }

  lemma NothingManaged(how: Behaviours, running: seq<Subsys>, up: set<Subsys>)
    ensures Managed(how, running, up, running, up)
  {
  }

  lemma NoProgress(g: Graph, how: Behaviours, s: Subsys, up: set<Subsys>)
    requires Ranked(g) && how.Keys == g.prereqs.Keys && s in g.prereqs && s !in up
    ensures Progress(g, how, s, 0, up, up, [])
  {
  }

  /** One that declined never comes up later, so that all called are up only if they were right away. */
  lemma ProgressMore(g: Graph, how: Behaviours, s: Subsys, n: nat,
                     up: set<Subsys>, up': set<Subsys>, up'': set<Subsys>, a: seq<Subsys>, b: seq<Subsys>)
    requires Ranked(g) && how.Keys == g.prereqs.Keys && s in g.prereqs && n < |g.prereqs[s]|
    requires up <= up' && Started(g, how, up', up'')
    requires Progress(g, how, s, n, up, up', a) && Result(g, how, g.prereqs[s][n], up', up'', b)
    ensures Progress(g, how, s, n + 1, up, up'', a + b)
  {
    hide StartedInOrder, CanRun, OnlyNeeded;
    NeededThrough(g, s, n, up, up', up'');
    if CanRun(g, how, s, up) {
      PrerequisiteCanRun(g, how, s, n, up, up');
    }
    if FirstUp(g, up'', s, n + 1) {
      assert FirstUp(g, up', s, n);
      StartedInOrderMore(g, a, b, up, up', up'');
    }
  }

  /** The subsystem itself is called last. */
  lemma ResultOf(g: Graph, how: Behaviours, s: Subsys,
                 up: set<Subsys>, up': set<Subsys>, up'': set<Subsys>, calls: seq<Subsys>)
    requires Ranked(g) && how.Keys == g.prereqs.Keys && s in g.prereqs && up <= up'
    requires Progress(g, how, s, |g.prereqs[s]|, up, up', calls) && PrereqsUp(g, up'', s)
    requires up'' == up' + {s} || (up'' == up' && how[s] == Starts(false, false))
    ensures Result(g, how, s, up, up'', calls + [s])
  {
    hide CanRun;
    assert FirstUp(g, up', s, |g.prereqs[s]|);
    if CanRun(g, how, s, up) {
      CanRunItself(g, how, s, up);
    }
    if s in up'' {
      assert StartedInOrder(g, [s], up', up'');
      StartedInOrderMore(g, calls, [s], up, up', up'');
    }
  }

  /** From then on, exactly those of the subsystems newly started are managed that reported so. */
  ghost predicate Managed(how: Behaviours, running: seq<Subsys>, up: set<Subsys>, running': seq<Subsys>,
                          up': set<Subsys>) {
    && running <= running' && up <= up'
    && (forall t :: t in up' && t !in up ==>
         (t in running' <==> t in how && how[t].Starts? && how[t].reported))
    && forall i :: |running| <= i < |running'| ==> running'[i] !in up
  }

  lemma ManagedMore(how: Behaviours, running: seq<Subsys>, up: set<Subsys>, running': seq<Subsys>, up': set<Subsys>,
                    running'': seq<Subsys>, up'': set<Subsys>)
    requires Managed(how, running, up, running', up') && Managed(how, running', up', running'', up'')
    ensures Managed(how, running, up, running'', up'')
  {
    forall t | t in up' && t !in up
      ensures t in running'' <==> t in running'
    {
      if t in running'' {
        var i :| 0 <= i < |running''| && running''[i] == t;
        assert i < |running'| ==> running'[i] == t;
      }
      if t in running' {
        var i :| 0 <= i < |running'| && running'[i] == t;
        assert running''[i] == t;
      }
    }
  }

  // ---- what a startup comes to, also when it fails

  datatype Situation = Situation(running: seq<Subsys>, up: set<Subsys>, requests: seq<Subsys>, started: seq<Subsys>)

  /** The startup of `s` after its prerequisites, up to the first failure. */
  ghost function Startup(g: Graph, how: Behaviours, s: Subsys, c: Situation): (Outcome, Situation)
    requires Ranked(g) && how.Keys == g.prereqs.Keys && s in g.prereqs
    decreases g.rank(s), 1, 0
  {
    if s in c.up then (Fine, c)
    else
      var p := StartupFrom(g, how, s, 0, c);
      if p.0.Fine? then StartupItself(g, how, s, p.1) else p
  }

  /** The startup of the prerequisites from the `i`-th on. */
  ghost function StartupFrom(g: Graph, how: Behaviours, s: Subsys, i: nat, c: Situation): (Outcome, Situation)
    requires Ranked(g) && how.Keys == g.prereqs.Keys && s in g.prereqs && i <= |g.prereqs[s]|
    decreases g.rank(s), 0, |g.prereqs[s]| - i
  {
    if i == |g.prereqs[s]| then (Fine, c)
    else
      var p := Startup(g, how, g.prereqs[s][i], c);
      if p.0.Fine? then StartupFrom(g, how, s, i + 1, p.1) else p
  }

  ghost function StartupItself(g: Graph, how: Behaviours, s: Subsys, c: Situation): (Outcome, Situation)
    requires how.Keys == g.prereqs.Keys && s in g.prereqs
  {
    var called := c.(started := c.started + [s]);
    match how[s]
    case Throws => (StartFailure, called)
    case Starts(reported, comesUp) =>
      var up := if comesUp then c.up + {s} else c.up;
      if reported && s !in up then (NotComingUp, called)
      else
        var managed := called.(up := up, running := if reported then c.running + [s] else c.running);
        if PrereqsUp(g, up, s) then (Fine, managed)
        else (PrerequisiteMissing, managed.(requests := c.requests + [s]))
  }

  predicate Declines(how: Behaviours, s: Subsys) {
    s in how && how[s] == Starts(false, false)
  }

  /**
    Only a subsystem that declines is called again; all others were down before, and come up unless the startup fails
    there.
  */
  ghost predicate CalledProperly(how: Behaviours, calls: seq<Subsys>, up: set<Subsys>, up': set<Subsys>, o: Outcome) {
    && up <= up'
    && (forall i, j :: 0 <= i < j < |calls| && calls[i] == calls[j] ==> Declines(how, calls[i]))
    && forall i :: 0 <= i < |calls| ==>
         calls[i] !in up && (calls[i] in up' || Declines(how, calls[i]) || (!o.Fine? && i == |calls| - 1))
  }

  lemma CalledProperlyMore(how: Behaviours, a: seq<Subsys>, b: seq<Subsys>, up: set<Subsys>, up': set<Subsys>,
                           up'': set<Subsys>, o: Outcome)
    requires CalledProperly(how, a, up, up', Fine) && CalledProperly(how, b, up', up'', o)
    ensures CalledProperly(how, a + b, up, up'', o)
  {
    var c := a + b;
    forall i, j | 0 <= i < j < |c| && c[i] == c[j]
      ensures Declines(how, c[i])
    {
      if i < |a| <= j {
        assert c[i] == a[i] && c[j] == b[j - |a|];
      } else if i < |a| {
        assert c[i] == a[i] && c[j] == a[j];
      } else {
        assert c[i] == b[i - |a|] && c[j] == b[j - |a|];
      }
    }
  }

  /**
    A failure is due to the last subsystem called; it is asked to shut down if nothing but a prerequisite is missing.
  */
  ghost predicate Accounted(g: Graph, how: Behaviours, calls: seq<Subsys>, c: Situation, p: (Outcome, Situation)) {
    && p.1.started == c.started + calls
    && (p.0.Fine? ==> p.1.requests == c.requests)
    && (!p.0.Fine? ==> calls != [] && FailedBy(g, how, calls[|calls| - 1], c, p))
  }

  ghost predicate FailedBy(g: Graph, how: Behaviours, s: Subsys, c: Situation, p: (Outcome, Situation)) {
    && s in how && s in g.prereqs
    && match p.0
       case Fine => false
       case StartFailure => how[s].Throws? && p.1.requests == c.requests
       case NotComingUp => how[s] == Starts(true, false) && p.1.requests == c.requests
       case PrerequisiteMissing => !PrereqsUp(g, p.1.up, s) && p.1.requests == c.requests + [s]
  }

  /** All calls are needed, and proper, and account for the outcome. */
  lemma {:induction false} StartupCalls(g: Graph, how: Behaviours, s: Subsys, c: Situation)
    returns (calls: seq<Subsys>)
    requires Ranked(g) && how.Keys == g.prereqs.Keys && s in g.prereqs
    ensures var p := Startup(g, how, s, c);
            Accounted(g, how, calls, c, p) && CalledProperly(how, calls, c.up, p.1.up, p.0)
    ensures forall i :: 0 <= i < |calls| ==> Needs(g, s, calls[i])
    decreases g.rank(s), 1, 0
  {
    if s in c.up {
      calls := [];
      assert c.started + [] == c.started;
    } else {
      calls := StartupFromCalls(g, how, s, 0, c);
      var p := StartupFrom(g, how, s, 0, c);
      if p.0.Fine? {
        var q := StartupItself(g, how, s, p.1);
        assert s !in p.1.up by { StartupFromLeavesDown(g, how, s, 0, c); }
        assert CalledProperly(how, [s], p.1.up, q.1.up, q.0);
        CalledProperlyMore(how, calls, [s], c.up, p.1.up, q.1.up, q.0);
        assert q.1.started == c.started + (calls + [s]);
        assert Needs(g, s, s);
        calls := calls + [s];
      }
    }
  }

  lemma {:induction false} StartupFromCalls(g: Graph, how: Behaviours, s: Subsys, i: nat, c: Situation)
    returns (calls: seq<Subsys>)
    requires Ranked(g) && how.Keys == g.prereqs.Keys && s in g.prereqs && i <= |g.prereqs[s]|
    ensures var p := StartupFrom(g, how, s, i, c);
            Accounted(g, how, calls, c, p) && CalledProperly(how, calls, c.up, p.1.up, p.0)
    ensures forall k :: 0 <= k < |calls| ==> Needs(g, s, calls[k])
    decreases g.rank(s), 0, |g.prereqs[s]| - i
  {
    if i == |g.prereqs[s]| {
      calls := [];
      assert c.started + [] == c.started;
    } else {
      calls := StartupCalls(g, how, g.prereqs[s][i], c);
      var p := Startup(g, how, g.prereqs[s][i], c);
      assert forall k :: 0 <= k < |calls| ==> Needs(g, s, calls[k]);
      if p.0.Fine? {
        var more := StartupFromCalls(g, how, s, i + 1, p.1);
        var q := StartupFrom(g, how, s, i + 1, p.1);
        CalledProperlyMore(how, calls, more, c.up, p.1.up, q.1.up, q.0);
        assert q.1.started == c.started + (calls + more);
        calls := calls + more;
      }
    }
  }

  /** What comes up is ranked no higher than the subsystem started. */
  lemma {:induction false} StartupComesUp(g: Graph, how: Behaviours, s: Subsys, c: Situation)
    requires Ranked(g) && how.Keys == g.prereqs.Keys && s in g.prereqs
    ensures forall t :: t in Startup(g, how, s, c).1.up && t !in c.up ==> g.rank(t) <= g.rank(s)
    decreases g.rank(s), 1, 0
  {
    if s !in c.up {
      StartupFromLeavesDown(g, how, s, 0, c);
    }
  }

  lemma {:induction false} StartupFromLeavesDown(g: Graph, how: Behaviours, s: Subsys, i: nat, c: Situation)
    requires Ranked(g) && how.Keys == g.prereqs.Keys && s in g.prereqs && i <= |g.prereqs[s]|
    ensures forall t :: t in StartupFrom(g, how, s, i, c).1.up && t !in c.up ==> g.rank(t) < g.rank(s)
    decreases g.rank(s), 0, |g.prereqs[s]| - i
  {
    if i < |g.prereqs[s]| {
      StartupComesUp(g, how, g.prereqs[s][i], c);
      var p := Startup(g, how, g.prereqs[s][i], c);
      if p.0.Fine? {
        StartupFromLeavesDown(g, how, s, i + 1, p.1);
      }
    }
  }

  /** Also when it fails, a startup calls each subsystem once at most, if none of those needed declines. */
  lemma StartedOnceAtMost(g: Graph, how: Behaviours, s: Subsys, c: Situation)
    requires Ranked(g) && how.Keys == g.prereqs.Keys && s in g.prereqs
    requires forall t :: Needs(g, s, t) ==> !Declines(how, t)
    ensures c.started <= Startup(g, how, s, c).1.started
    ensures NoDuplicates(Startup(g, how, s, c).1.started[|c.started|..])
  {
    var calls := StartupCalls(g, how, s, c);
    assert (c.started + calls)[|c.started|..] == calls;
  }

  /**
    Otherwise a subsystem can be called several times: one that declines is called for each that needs it, until one
    of these has come up without it. That one remains managed.
  */
  lemma DecliningIsCalledAgain()
    ensures var g := Graph(map[0 := [], 1 := [0], 2 := [0, 1]], s => s);
            var how := map[0 := Starts(false, false), 1 := Starts(true, true), 2 := Starts(true, true)];
            && Ranked(g)
            && Startup(g, how, 2, Situation([], {}, [], []))
                 == (PrerequisiteMissing, Situation([1], {1}, [1], [0, 0, 1]))
  {
    hide Startup, StartupFrom, StartupItself;
    var g := Graph(map[0 := [], 1 := [0], 2 := [0, 1]], (s: Subsys) => s);
    var how := map[0 := Starts(false, false), 1 := Starts(true, true), 2 := Starts(true, true)];
    var c0, c1, c2 := Situation([], {}, [], []), Situation([], {}, [], [0]), Situation([], {}, [], [0, 0]);
    DecliningLeaf(g, how, 0, c0);
    DecliningLeaf(g, how, 0, c1);
    assert c0.(started := [] + [0]) == c1 && c1.(started := [0] + [0]) == c2;
    StartupNext(g, how, 1, 0, c1);
    StartupEnds(g, how, 1, c2);
    StartupStart(g, how, 1, c1);
    ComesUpAlone(g, how, c2);
    StartupNext(g, how, 2, 1, c1);
    StartupNext(g, how, 2, 0, c0);
    StartupStart(g, how, 2, c0);
  }

  lemma ComesUpAlone(g: Graph, how: Behaviours, c: Situation)
    requires how.Keys == g.prereqs.Keys && 1 in g.prereqs && g.prereqs[1] == [0] && how[1] == Starts(true, true)
    requires c == Situation([], {}, [], [0, 0])
    ensures StartupItself(g, how, 1, c) == (PrerequisiteMissing, Situation([1], {1}, [1], [0, 0, 1]))
  {
    assert g.prereqs[1][0] !in {} + {1} && {} + {1} == {1};
    assert [0, 0] + [1] == [0, 0, 1] && [] + [1] == [1];
  }

  lemma StartupStart(g: Graph, how: Behaviours, s: Subsys, c: Situation)
    requires Ranked(g) && how.Keys == g.prereqs.Keys && s in g.prereqs && s !in c.up
    ensures var p := StartupFrom(g, how, s, 0, c);
            Startup(g, how, s, c) == if p.0.Fine? then StartupItself(g, how, s, p.1) else p
  {
  }

  lemma StartupNext(g: Graph, how: Behaviours, s: Subsys, i: nat, c: Situation)
    requires Ranked(g) && how.Keys == g.prereqs.Keys && s in g.prereqs && i < |g.prereqs[s]|
    ensures var p := Startup(g, how, g.prereqs[s][i], c);
            StartupFrom(g, how, s, i, c) == if p.0.Fine? then StartupFrom(g, how, s, i + 1, p.1) else p
  {
  }

  lemma StartupEnds(g: Graph, how: Behaviours, s: Subsys, c: Situation)
    requires Ranked(g) && how.Keys == g.prereqs.Keys && s in g.prereqs
    ensures StartupFrom(g, how, s, |g.prereqs[s]|, c) == (Fine, c)
  {
  }

  lemma DecliningLeaf(g: Graph, how: Behaviours, s: Subsys, c: Situation)
    requires Ranked(g) && how.Keys == g.prereqs.Keys && s in g.prereqs
    requires g.prereqs[s] == [] && Declines(how, s) && s !in c.up
    ensures Startup(g, how, s, c) == (Fine, c.(started := c.started + [s]))
  {
    assert PrereqsUp(g, c.up, s);
  }
}
