/**
  When a startup calls the same subsystem twice, and for which prerequisites this cannot happen.
*/
module StartupRepeats {
  import opened SubsystemStartup

  /** Each subsystem has a behaviour. */
  ghost predicate Known(g: Graph, how: Behaviours) {
    Ranked(g) && how.Keys == g.prereqs.Keys
  }

  /** Started with nothing running, `s` and what it needs are called once at most. */
  ghost predicate CallsOnce(g: Graph, how: Behaviours, s: Subsys)
    requires Known(g, how) && s in g.prereqs
  {
    NoDuplicates(Startup(g, how, s, Situation([], {}, [], [])).1.started)
  }

  /** A prerequisite of `t` that none of those before it needs, but one of those after it does. */
  ghost predicate Repeats(g: Graph, t: Subsys, i: nat, j: nat)
    requires Ranked(g)
  {
    && t in g.prereqs && i < j < |g.prereqs[t]|
    && Needs(g, g.prereqs[t][j], g.prereqs[t][i])
    && forall k :: 0 <= k < i ==> !Needs(g, g.prereqs[t][k], g.prereqs[t][i])
  }

  /** What runs is known and has its prerequisites running, and does not decline. */
  ghost predicate Sane(g: Graph, how: Behaviours, up: set<Subsys>) {
    Supported(g, up) && forall t :: t in up ==> t in g.prereqs && !Declines(how, t)
  }

  /** The startup of a prerequisite went well. */
  ghost predicate Settled(g: Graph, how: Behaviours, up: set<Subsys>, x: Subsys)
    requires x in g.prereqs
  {
    PrereqsUp(g, up, x) && (x in up || Declines(how, x))
  }

  lemma {:induction false} StartupSettles(g: Graph, how: Behaviours, s: Subsys, c: Situation)
    requires Known(g, how) && s in g.prereqs && Sane(g, how, c.up)
    ensures var p := Startup(g, how, s, c);
            c.up <= p.1.up && (p.0.Fine? ==> Sane(g, how, p.1.up) && Settled(g, how, p.1.up, s))
    decreases g.rank(s), 1, 0
  {
    if s !in c.up {
      StartupFromSettles(g, how, s, 0, c);
    }
  }

  lemma {:induction false} StartupFromSettles(g: Graph, how: Behaviours, s: Subsys, i: nat, c: Situation)
    requires Known(g, how) && s in g.prereqs && i <= |g.prereqs[s]| && Sane(g, how, c.up)
    ensures var p := StartupFrom(g, how, s, i, c);
            c.up <= p.1.up && (p.0.Fine? ==> Sane(g, how, p.1.up))
    decreases g.rank(s), 0, |g.prereqs[s]| - i
  {
    if i < |g.prereqs[s]| {
      StartupSettles(g, how, g.prereqs[s][i], c);
      var p := Startup(g, how, g.prereqs[s][i], c);
      if p.0.Fine? {
        StartupFromSettles(g, how, s, i + 1, p.1);
      }
    }
  }

  /** A subsystem with all prerequisites running needs none that declines, but maybe itself. */
  lemma DeclinesItself(g: Graph, how: Behaviours, up: set<Subsys>, x: Subsys, d: Subsys)
    requires Known(g, how) && x in g.prereqs && Sane(g, how, up) && PrereqsUp(g, up, x)
    requires Needs(g, x, d) && Declines(how, d)
    ensures d == x
  {
    if d != x {
      var i :| 0 <= i < |g.prereqs[x]| && Needs(g, g.prereqs[x][i], d);
      NeedsUp(g, up, g.prereqs[x][i], d);
    }
  }

  // ---- without such a prerequisite, nobody is called twice

  ghost predicate NoRepeats(g: Graph)
    requires Ranked(g)
  {
    forall t, i: nat, j: nat :: !Repeats(g, t, i, j)
  }

  /** If one that declines was called right now, and is needed by a later prerequisite, then there is a repetition. */
  lemma RepeatedOne(g: Graph, how: Behaviours, s: Subsys, i: nat, j: nat, up: set<Subsys>)
    requires Known(g, how) && s in g.prereqs && i < j < |g.prereqs[s]| && Sane(g, how, up)
    requires forall k :: 0 <= k < i ==> Settled(g, how, up, g.prereqs[s][k])
    requires Declines(how, g.prereqs[s][i]) && Needs(g, g.prereqs[s][j], g.prereqs[s][i])
    ensures !NoRepeats(g)
  {
    var d := g.prereqs[s][i];
    if k :| 0 <= k < i && Needs(g, g.prereqs[s][k], d) && forall l :: 0 <= l < k ==> !Needs(g, g.prereqs[s][l], d) {
      DeclinesItself(g, how, up, g.prereqs[s][k], d);
      assert Needs(g, d, d);
      assert Repeats(g, s, k, i);
    } else {
      FirstNeed(g, s, i, d);
      assert Repeats(g, s, i, j);
    }
  }

  /** If any of the first prerequisites needs `d`, there is a first one. */
  lemma {:induction false} FirstNeed(g: Graph, s: Subsys, n: nat, d: Subsys)
    requires Ranked(g) && s in g.prereqs && n <= |g.prereqs[s]|
    ensures (forall k :: 0 <= k < n ==> !Needs(g, g.prereqs[s][k], d))
         || exists k :: 0 <= k < n && Needs(g, g.prereqs[s][k], d) &&
              forall l :: 0 <= l < k ==> !Needs(g, g.prereqs[s][l], d)
  {
    if n > 0 {
      FirstNeed(g, s, n - 1, d);
    }
  }

  lemma {:induction false} StartupOnce(g: Graph, how: Behaviours, s: Subsys, c: Situation)
    returns (calls: seq<Subsys>)
    requires Known(g, how) && s in g.prereqs && Sane(g, how, c.up) && NoRepeats(g)
    ensures var p := Startup(g, how, s, c);
            p.1.started == c.started + calls && NoDuplicates(calls) && CalledProperly(how, calls, c.up, p.1.up, p.0)
    ensures forall k :: 0 <= k < |calls| ==> Needs(g, s, calls[k])
    decreases g.rank(s), 1, 0
  {
    calls := StartupCalls(g, how, s, c);
    if s !in c.up {
      var before := StartupFromOnce(g, how, s, 0, c);
      var p := StartupFrom(g, how, s, 0, c);
      if p.0.Fine? {
        assert calls == before + [s] by {
          assert c.started + calls == c.started + before + [s];
          SameRest(c.started, calls, before + [s]);
        }
        forall k | 0 <= k < |before| ensures before[k] != s {
          NeededBelow(g, s, 0, before[k]);
        }
      } else {
        SameRest(c.started, calls, before);
      }
    } else {
      SameRest(c.started, calls, []);
    }
  }

  lemma SameRest(a: seq<Subsys>, b: seq<Subsys>, c: seq<Subsys>)
    requires a + b == a + c
    ensures b == c
  {
    assert b == (a + b)[|a|..] && c == (a + c)[|a|..];
  }

  ghost predicate NeededFrom(g: Graph, s: Subsys, i: nat, t: Subsys)
    requires Ranked(g) && s in g.prereqs
  {
    exists j :: i <= j < |g.prereqs[s]| && Needs(g, g.prereqs[s][j], t)
  }

  lemma NeededBelow(g: Graph, s: Subsys, i: nat, t: Subsys)
    requires Ranked(g) && s in g.prereqs && NeededFrom(g, s, i, t)
    ensures t != s
  {
    var j :| i <= j < |g.prereqs[s]| && Needs(g, g.prereqs[s][j], t);
    NeedsRank(g, g.prereqs[s][j], t);
  }

  lemma {:induction false} StartupFromOnce(g: Graph, how: Behaviours, s: Subsys, i: nat, c: Situation)
    returns (calls: seq<Subsys>)
    requires Known(g, how) && s in g.prereqs && i <= |g.prereqs[s]| && Sane(g, how, c.up) && NoRepeats(g)
    requires forall k :: 0 <= k < i ==> Settled(g, how, c.up, g.prereqs[s][k])
    ensures var p := StartupFrom(g, how, s, i, c);
            p.1.started == c.started + calls && NoDuplicates(calls) && CalledProperly(how, calls, c.up, p.1.up, p.0)
    ensures forall k :: 0 <= k < |calls| ==> NeededFrom(g, s, i, calls[k])
    decreases g.rank(s), 0, |g.prereqs[s]| - i
  {
    if i == |g.prereqs[s]| {
      calls := [];
    } else {
      var x := g.prereqs[s][i];
      calls := StartupOnce(g, how, x, c);
      assert forall k :: 0 <= k < |calls| ==> NeededFrom(g, s, i, calls[k]);
      var p := Startup(g, how, x, c);
      if p.0.Fine? {
        StartupSettles(g, how, x, c);
        SettledFurther(g, how, s, i, c.up, p.1.up);
        var more := StartupFromOnce(g, how, s, i + 1, p.1);
        var q := StartupFrom(g, how, s, i + 1, p.1);
        NeededFromNext(g, s, i, more);
        ApartCalls(g, how, s, i, p.1.up, calls, more, c.up, q);
        CalledProperlyMore(how, calls, more, c.up, p.1.up, q.1.up, q.0);
        assert q.1.started == c.started + (calls + more);
        calls := calls + more;
      }
    }
  }

  lemma NeededFromNext(g: Graph, s: Subsys, i: nat, calls: seq<Subsys>)
    requires Ranked(g) && s in g.prereqs
    requires forall k :: 0 <= k < |calls| ==> NeededFrom(g, s, i + 1, calls[k])
    ensures forall k :: 0 <= k < |calls| ==> NeededFrom(g, s, i, calls[k])
  {
    forall k | 0 <= k < |calls| ensures NeededFrom(g, s, i, calls[k]) {
      var j :| i + 1 <= j < |g.prereqs[s]| && Needs(g, g.prereqs[s][j], calls[k]);
    }
  }

  lemma SettledFurther(g: Graph, how: Behaviours, s: Subsys, i: nat, up: set<Subsys>, up': set<Subsys>)
    requires Known(g, how) && s in g.prereqs && i < |g.prereqs[s]| && up <= up'
    requires forall k :: 0 <= k < i ==> Settled(g, how, up, g.prereqs[s][k])
    requires Settled(g, how, up', g.prereqs[s][i])
    ensures forall k :: 0 <= k < i + 1 ==> Settled(g, how, up', g.prereqs[s][k])
  {
    forall k | 0 <= k < i + 1 ensures Settled(g, how, up', g.prereqs[s][k]) {
      assert k < i ==> Settled(g, how, up, g.prereqs[s][k]);
    }
  }

  /** What is called for one prerequisite is not called again for those after it. */
  lemma ApartCalls(g: Graph, how: Behaviours, s: Subsys, i: nat, up: set<Subsys>, a: seq<Subsys>, b: seq<Subsys>,
                   before: set<Subsys>, q: (Outcome, Situation))
    requires Known(g, how) && s in g.prereqs && i < |g.prereqs[s]| && Sane(g, how, up) && NoRepeats(g)
    requires forall k :: 0 <= k < i + 1 ==> Settled(g, how, up, g.prereqs[s][k])
    requires CalledProperly(how, a, before, up, Fine) && CalledProperly(how, b, up, q.1.up, q.0)
    requires NoDuplicates(a) && NoDuplicates(b)
    requires forall k :: 0 <= k < |a| ==> Needs(g, g.prereqs[s][i], a[k])
    requires forall k :: 0 <= k < |b| ==> NeededFrom(g, s, i + 1, b[k])
    ensures NoDuplicates(a + b)
  {
    forall k, l | 0 <= k < |a| && 0 <= l < |b| ensures a[k] != b[l] {
      if a[k] == b[l] {
        assert Settled(g, how, up, g.prereqs[s][i]);
        DeclinesItself(g, how, up, g.prereqs[s][i], a[k]);
        var j :| i + 1 <= j < |g.prereqs[s]| && Needs(g, g.prereqs[s][j], b[l]);
        RepeatedOne(g, how, s, i, j, up);
      }
    }
  }

  // ---- with such a prerequisite, it is called twice if it declines

  /** All subsystems come up but one, which declines. */
  ghost function AllBut(g: Graph, d: Subsys): Behaviours {
    map s | s in g.prereqs :: if s == d then Starts(false, false) else Starts(true, true)
  }

  /** Whatever does not need the one that declines comes up. */
  lemma {:induction false} RunsWithout(g: Graph, d: Subsys, s: Subsys, c: Situation)
    requires Ranked(g) && s in g.prereqs && Sane(g, AllBut(g, d), c.up) && !Needs(g, s, d)
    ensures var p := Startup(g, AllBut(g, d), s, c); p.0.Fine? && s in p.1.up && Sane(g, AllBut(g, d), p.1.up)
    decreases g.rank(s), 1, 0
  {
    StartupSettles(g, AllBut(g, d), s, c);
    if s !in c.up {
      RunsWithoutFrom(g, d, s, 0, c);
    }
  }

  lemma {:induction false} RunsWithoutFrom(g: Graph, d: Subsys, s: Subsys, i: nat, c: Situation)
    requires Ranked(g) && s in g.prereqs && i <= |g.prereqs[s]| && Sane(g, AllBut(g, d), c.up)
    requires forall k :: i <= k < |g.prereqs[s]| ==> !Needs(g, g.prereqs[s][k], d)
    requires forall k :: 0 <= k < i ==> g.prereqs[s][k] in c.up
    ensures var p := StartupFrom(g, AllBut(g, d), s, i, c);
            p.0.Fine? && PrereqsUp(g, p.1.up, s) && Sane(g, AllBut(g, d), p.1.up)
    decreases g.rank(s), 0, |g.prereqs[s]| - i
  {
    if i < |g.prereqs[s]| {
      StartupSettles(g, AllBut(g, d), g.prereqs[s][i], c);
      RunsWithout(g, d, g.prereqs[s][i], c);
      RunsWithoutFrom(g, d, s, i + 1, Startup(g, AllBut(g, d), g.prereqs[s][i], c).1);
    }
  }

  /** The one itself is called, once its prerequisites run. */
  lemma DecliningIsCalled(g: Graph, d: Subsys, c: Situation)
    requires Ranked(g) && d in g.prereqs && Sane(g, AllBut(g, d), c.up)
    ensures var p := Startup(g, AllBut(g, d), d, c);
            p.0.Fine? && Sane(g, AllBut(g, d), p.1.up) && c.started < p.1.started && d in p.1.started[|c.started|..]
  {
    var how := AllBut(g, d);
    assert Declines(how, d);
    forall k | 0 <= k < |g.prereqs[d]| ensures !Needs(g, g.prereqs[d][k], d) {
      if Needs(g, g.prereqs[d][k], d) {
        NeedsRank(g, g.prereqs[d][k], d);
      }
    }
    RunsWithoutFrom(g, d, d, 0, c);
    StartupSettles(g, how, d, c);
    var before := StartupFromCalls(g, how, d, 0, c);
    var p := StartupFrom(g, how, d, 0, c);
    assert p.1.started + [d] == c.started + (before + [d]);
    assert (c.started + (before + [d]))[|c.started|..] == before + [d];
  }

  /** Whatever needs the one that declines calls it. */
  lemma {:induction false} NeedCalls(g: Graph, d: Subsys, s: Subsys, c: Situation)
    requires Ranked(g) && s in g.prereqs && d in g.prereqs && Sane(g, AllBut(g, d), c.up) && Needs(g, s, d)
    ensures var p := Startup(g, AllBut(g, d), s, c); c.started < p.1.started && d in p.1.started[|c.started|..]
    decreases g.rank(s), 1, 0
  {
    var how := AllBut(g, d);
    if s == d {
      DecliningIsCalled(g, d, c);
    } else {
      assert Declines(how, d);
      if s in c.up {
        NeedsUp(g, c.up, s, d);
      }
      NeedCallsFrom(g, d, s, 0, c);
      var p := StartupFrom(g, how, s, 0, c);
      assert p.0.Fine? ==> StartupItself(g, how, s, p.1).1.started == p.1.started + [s];
      StillIn(c.started, p.1.started, p.1.started + [s], d);
    }
  }

  lemma StillIn(a: seq<Subsys>, b: seq<Subsys>, c: seq<Subsys>, d: Subsys)
    requires a <= b <= c && d in b[|a|..]
    ensures a <= c && d in c[|a|..]
  {
    var k :| 0 <= k < |b[|a|..]| && b[|a|..][k] == d;
    assert c[|a|..][k] == d;
  }

  lemma {:induction false} NeedCallsFrom(g: Graph, d: Subsys, s: Subsys, i: nat, c: Situation)
    requires Ranked(g) && s in g.prereqs && d in g.prereqs && i <= |g.prereqs[s]| && Sane(g, AllBut(g, d), c.up)
    requires NeededFrom(g, s, i, d)
    ensures var p := StartupFrom(g, AllBut(g, d), s, i, c); c.started < p.1.started && d in p.1.started[|c.started|..]
    decreases g.rank(s), 0, |g.prereqs[s]| - i
  {
    var how, x := AllBut(g, d), g.prereqs[s][i];
    var p := Startup(g, how, x, c);
    var first := StartupCalls(g, how, x, c);
    if Needs(g, x, d) {
      NeedCalls(g, d, x, c);
      if p.0.Fine? {
        var more := StartupFromCalls(g, how, s, i + 1, p.1);
        StillIn(c.started, p.1.started, StartupFrom(g, how, s, i + 1, p.1).1.started, d);
      }
    } else {
      RunsWithout(g, d, x, c);
      NeedCallsFrom(g, d, s, i + 1, p.1);
      var q := StartupFrom(g, how, s, i + 1, p.1);
      var k :| 0 <= k < |q.1.started[|p.1.started|..]| && q.1.started[|p.1.started|..][k] == d;
      assert q.1.started[|c.started|..][|p.1.started| - |c.started| + k] == d;
    }
  }

  /** The startup gets to the `i`-th prerequisite if those before do not need the one that declines. */
  lemma {:induction false} GetsTo(g: Graph, d: Subsys, s: Subsys, i: nat, c: Situation) returns (c': Situation)
    requires Ranked(g) && s in g.prereqs && i <= |g.prereqs[s]| && Sane(g, AllBut(g, d), c.up)
    requires forall k :: 0 <= k < i ==> !Needs(g, g.prereqs[s][k], d)
    ensures Sane(g, AllBut(g, d), c'.up)
    ensures StartupFrom(g, AllBut(g, d), s, 0, c) == StartupFrom(g, AllBut(g, d), s, i, c')
    decreases i
  {
    if i == 0 {
      c' := c;
    } else {
      var b := GetsTo(g, d, s, i - 1, c);
      RunsWithout(g, d, g.prereqs[s][i - 1], b);
      c' := Startup(g, AllBut(g, d), g.prereqs[s][i - 1], b).1;
    }
  }

  lemma CalledTwice(g: Graph, t: Subsys, i: nat, j: nat)
    requires Ranked(g) && Repeats(g, t, i, j)
    ensures !CallsOnce(g, AllBut(g, g.prereqs[t][i]), t)
  {
    var d, none := g.prereqs[t][i], Situation([], {}, [], []);
    var how := AllBut(g, d);
    var c := GetsTo(g, d, t, i, none);
    DecliningIsCalled(g, d, c);
    var p := Startup(g, how, d, c);
    assert NeededFrom(g, t, i + 1, d);
    NeedCallsFrom(g, d, t, i + 1, p.1);
    var q := StartupFrom(g, how, t, i + 1, p.1);
    assert StartupFrom(g, how, t, i, c) == q;
    Twice(c.started, p.1.started, q.1.started, d);
    assert q.0.Fine? ==> StartupItself(g, how, t, q.1).1.started == q.1.started + [t];
    StillIn(p.1.started, q.1.started, q.1.started + [t], d);
    Twice(c.started, p.1.started, q.1.started + [t], d);
  }

  lemma Twice(a: seq<Subsys>, b: seq<Subsys>, c: seq<Subsys>, d: Subsys)
    requires a <= b && d in b[|a|..]
    requires b <= c && d in c[|b|..]
    ensures !NoDuplicates(c)
  {
    var k :| 0 <= k < |b[|a|..]| && b[|a|..][k] == d;
    var l :| 0 <= l < |c[|b|..]| && c[|b|..][l] == d;
    assert c[|a| + k] == d && c[|b| + l] == d;
  }

  /**
    Whatever the subsystems do when started: none is ever called twice in one startup, exactly if no subsystem has a
    prerequisite that a later one of its prerequisites needs too, but none of those before.
  */
  lemma StartedOnceExactly(g: Graph)
    requires Ranked(g)
    ensures (forall how: Behaviours, s: Subsys :: Known(g, how) && s in g.prereqs ==> CallsOnce(g, how, s))
       <==> !exists t, i: nat, j: nat :: Repeats(g, t, i, j)
  {
    if NoRepeats(g) {
      forall how: Behaviours, s: Subsys | Known(g, how) && s in g.prereqs ensures CallsOnce(g, how, s) {
        var calls := StartupOnce(g, how, s, Situation([], {}, [], []));
        assert [] + calls == calls;
      }
    } else {
      var t, i: nat, j: nat :| Repeats(g, t, i, j);
      CalledTwice(g, t, i, j);
      assert Known(g, AllBut(g, g.prereqs[t][i]));
    }
  }
}
