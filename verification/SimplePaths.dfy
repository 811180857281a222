/**
  Dependency multigraphs and their simple paths.

  `Visits` is the number of times a depth first walk that never re-enters a node on
  its own stack arrives at a given node. It is what opening or closing an interface
  adds to or subtracts from a reference counter. `CountsSimplePaths` connects it to an
  independent definition: the set of all simple paths, given as sequences of edges.
*/
module SimplePaths {

  /** Every edge leads to a node of the graph. A node may list a target several times. */
  ghost predicate Closed<T>(g: map<T, seq<T>>) {
    forall n, i :: n in g && 0 <= i < |g[n]| ==> g[n][i] in g
  }

  ghost predicate Within<T>(g: map<T, seq<T>>, ds: seq<T>) {
    forall i :: 0 <= i < |ds| ==> ds[i] in g
  }

  /** Arrivals at `m` of the walk that enters `n` while `stack` is in progress. */
  ghost function Visits<T>(g: map<T, seq<T>>, stack: set<T>, n: T, m: T): nat
    requires Closed(g) && n in g && n !in stack
    decreases g.Keys - stack, 0, 0
  {
    (if n == m then 1 else 0) + VisitsAll(g, stack + {n}, g[n], m)
  }

  /** Arrivals at `m` when all of `ds` are entered in turn, skipping those on the stack. */
  ghost function VisitsAll<T>(g: map<T, seq<T>>, stack: set<T>, ds: seq<T>, m: T): nat
    requires Closed(g) && Within(g, ds)
    decreases g.Keys - stack, 1, |ds|
  {
    if ds == [] then 0
    else (if ds[0] in stack then 0 else Visits(g, stack, ds[0], m)) + VisitsAll(g, stack, ds[1..], m)
  }

  // ---- a second, independent definition: simple paths as edge sequences

  /** `p` picks an outgoing edge at each node it passes, starting from `n`. */
  ghost predicate Follows<T>(g: map<T, seq<T>>, n: T, p: seq<nat>)
    requires Closed(g) && n in g
    decreases p
  {
    p != [] ==> p[0] < |g[n]| && Follows(g, g[n][p[0]], p[1..])
  }

  /** The nodes passed by `p`, both ends included. */
  ghost function Stops<T>(g: map<T, seq<T>>, n: T, p: seq<nat>): (s: seq<T>)
    requires Closed(g) && n in g && Follows(g, n, p)
    ensures |s| == |p| + 1 && s[0] == n
    decreases p
  {
    if p == [] then [n] else [n] + Stops(g, g[n][p[0]], p[1..])
  }

  ghost predicate Distinct<T>(s: seq<T>) {
    forall i, j :: 0 <= i < j < |s| ==> s[i] != s[j]
  }

  /** A path from `n` to `m` that passes no node twice and none of `avoid`. */
  ghost predicate SimplePath<T>(g: map<T, seq<T>>, avoid: set<T>, n: T, p: seq<nat>, m: T)
    requires Closed(g) && n in g
  {
    Follows(g, n, p)
    && var s := Stops(g, n, p);
       Distinct(s) && (forall i :: 0 <= i < |s| ==> s[i] !in avoid) && s[|p|] == m
  }

  /** The simple paths from `n`, collected edge by edge. */
  ghost function Paths<T>(g: map<T, seq<T>>, avoid: set<T>, n: T, m: T): set<seq<nat>>
    requires Closed(g) && n in g && n !in avoid
    decreases g.Keys - avoid, 1, 0
  {
    (if n == m then {[]} else {}) + PathsVia(g, avoid + {n}, n, 0, m)
  }

  /** Those that leave `n` through its `i`-th or a later edge; `n` itself is to be avoided. */
  ghost function PathsVia<T>(g: map<T, seq<T>>, avoid: set<T>, n: T, i: nat, m: T): set<seq<nat>>
    requires Closed(g) && n in g && i <= |g[n]| && n in avoid
    decreases g.Keys - avoid, 2, |g[n]| - i
  {
    if i == |g[n]| then {}
    else (if g[n][i] in avoid then {} else Starting(i, Paths(g, avoid, g[n][i], m)))
         + PathsVia(g, avoid, n, i + 1, m)
  }

  ghost function Starting(i: nat, ps: set<seq<nat>>): set<seq<nat>> {
    set p | p in ps :: [i] + p
  }

  lemma {:induction false} StartingSize(i: nat, ps: set<seq<nat>>)
    ensures |Starting(i, ps)| == |ps|
    decreases |ps|
  {
    if ps == {} {
      assert Starting(i, ps) == {};
    } else {
      var p :| p in ps;
      StartingSize(i, ps - {p});
      assert forall q :: q in ps - {p} ==> ([i] + q)[1..] == q && ([i] + p)[1..] == p;
      assert [i] + p !in Starting(i, ps - {p});
      assert Starting(i, ps) == Starting(i, ps - {p}) + {[i] + p};
    }
  }

  lemma PrependDistinct<T>(n: T, t: seq<T>, avoid: set<T>)
    ensures Distinct([n] + t) && (forall i :: 0 <= i < |t| + 1 ==> ([n] + t)[i] !in avoid)
            <==> n !in avoid && Distinct(t) && forall i :: 0 <= i < |t| ==> t[i] !in avoid + {n}
  {
    var s := [n] + t;
    assert s[0] == n && forall i :: 0 <= i < |t| ==> t[i] == s[i + 1];
    if Distinct(s) {
      assert forall j :: 1 <= j < |s| ==> s[j] != s[0];
      assert forall i :: 0 <= i < |t| ==> t[i] != n;
    }
    if Distinct(t) && (forall i :: 0 <= i < |t| ==> t[i] !in avoid + {n}) {
      assert forall i :: 1 <= i < |s| ==> s[i] == t[i - 1] && s[i] != n;
    }
  }

  lemma {:induction false} SimplePathStep<T>(g: map<T, seq<T>>, avoid: set<T>, n: T, p: seq<nat>, m: T)
    requires Closed(g) && n in g && n !in avoid
    ensures SimplePath(g, avoid, n, p, m)
            <==> if p == [] then n == m
                 else p[0] < |g[n]| && g[n][p[0]] !in avoid + {n}
                      && SimplePath(g, avoid + {n}, g[n][p[0]], p[1..], m)
  {
    if p != [] && p[0] < |g[n]| && Follows(g, n, p) {
      var t := Stops(g, g[n][p[0]], p[1..]);
      assert Stops(g, n, p) == [n] + t;
      PrependDistinct(n, t, avoid);
      assert ([n] + t)[|p|] == t[|p| - 1];
    }
  }

  lemma {:induction false} PathsViaStart<T>(g: map<T, seq<T>>, avoid: set<T>, n: T, i: nat, m: T, p: seq<nat>)
    requires Closed(g) && n in g && i <= |g[n]| && n in avoid
    ensures p in PathsVia(g, avoid, n, i, m)
            <==> p != [] && i <= p[0] < |g[n]| && g[n][p[0]] !in avoid && p[1..] in Paths(g, avoid, g[n][p[0]], m)
    decreases |g[n]| - i
  {
    if i < |g[n]| {
      PathsViaStart(g, avoid, n, i + 1, m, p);
      if g[n][i] !in avoid {
        var ps := Paths(g, avoid, g[n][i], m);
        assert p in Starting(i, ps) <==> p != [] && p[0] == i && p[1..] in ps by {
          if p != [] && p[0] == i && p[1..] in ps {
            assert p == [i] + p[1..];
          }
          if q :| q in ps && p == [i] + q {
            assert p[1..] == q;
          }
        }
      }
    }
  }

  /** `Paths` holds exactly the simple paths. */
  lemma {:induction false} PathsAreSimple<T>(g: map<T, seq<T>>, avoid: set<T>, n: T, p: seq<nat>, m: T)
    requires Closed(g) && n in g && n !in avoid
    ensures p in Paths(g, avoid, n, m) <==> SimplePath(g, avoid, n, p, m)
    decreases |p|
  {
    SimplePathStep(g, avoid, n, p, m);
    PathsViaStart(g, avoid + {n}, n, 0, m, p);
    if p != [] && p[0] < |g[n]| && g[n][p[0]] !in avoid + {n} {
      PathsAreSimple(g, avoid + {n}, g[n][p[0]], p[1..], m);
    }
  }

  lemma {:induction false} PathsSize<T>(g: map<T, seq<T>>, avoid: set<T>, n: T, m: T)
    requires Closed(g) && n in g && n !in avoid
    ensures |Paths(g, avoid, n, m)| == Visits(g, avoid, n, m)
    decreases g.Keys - avoid, 1, 0
  {
    PathsViaSize(g, avoid + {n}, n, 0, m);
    PathsViaStart(g, avoid + {n}, n, 0, m, []);
    assert g[n][0..] == g[n];
  }

  lemma {:induction false} PathsViaSize<T>(g: map<T, seq<T>>, avoid: set<T>, n: T, i: nat, m: T)
    requires Closed(g) && n in g && i <= |g[n]| && n in avoid
    ensures |PathsVia(g, avoid, n, i, m)| == VisitsAll(g, avoid, g[n][i..], m)
    decreases g.Keys - avoid, 2, |g[n]| - i
  {
    if i < |g[n]| {
      assert g[n][i..][1..] == g[n][i + 1..];
      PathsViaSize(g, avoid, n, i + 1, m);
      if g[n][i] !in avoid {
        var ps := Paths(g, avoid, g[n][i], m);
        PathsSize(g, avoid, g[n][i], m);
        StartingSize(i, ps);
        forall p | p in Starting(i, ps) ensures p !in PathsVia(g, avoid, n, i + 1, m) {
          PathsViaStart(g, avoid, n, i + 1, m, p);
        }
      }
    }
  }

  /** The walk arrives at `m` as often as there are simple paths from `n` to `m`. */
  lemma CountsSimplePaths<T>(g: map<T, seq<T>>, n: T, m: T) returns (paths: set<seq<nat>>)
    requires Closed(g) && n in g
    ensures forall p :: p in paths <==> SimplePath(g, {}, n, p, m)
    ensures |paths| == Visits(g, {}, n, m)
  {
    paths := Paths(g, {}, n, m);
    PathsSize(g, {}, n, m);
    forall p ensures p in paths <==> SimplePath(g, {}, n, p, m) {
      PathsAreSimple(g, {}, n, p, m);
    }
  }

  // ---- algebra of the counts

  lemma {:induction false} VisitsAllConcat<T>(g: map<T, seq<T>>, stack: set<T>, a: seq<T>, b: seq<T>, m: T)
    requires Closed(g) && Within(g, a) && Within(g, b)
    ensures VisitsAll(g, stack, a + b, m) == VisitsAll(g, stack, a, m) + VisitsAll(g, stack, b, m)
    decreases |a|
  {
    if a == [] {
      assert a + b == b;
    } else {
      assert (a + b)[1..] == a[1..] + b;
      VisitsAllConcat(g, stack, a[1..], b, m);
    }
  }

  function Without<T>(s: seq<T>, i: nat): (r: seq<T>)
    requires i < |s|
    ensures multiset(r) == multiset(s) - multiset{s[i]}
  {
    assert s == s[..i] + [s[i]] + s[i + 1..];
    s[..i] + s[i + 1..]
  }

  /** Leaving out one of the entered nodes takes off exactly its own arrivals. */
  lemma VisitsAllWithout<T>(g: map<T, seq<T>>, stack: set<T>, ds: seq<T>, i: nat, m: T)
    requires Closed(g) && Within(g, ds) && i < |ds|
    ensures VisitsAll(g, stack, ds, m)
            == VisitsAll(g, stack, [ds[i]], m) + VisitsAll(g, stack, Without(ds, i), m)
  {
    assert ds == ds[..i] + ([ds[i]] + ds[i + 1..]);
    VisitsAllConcat(g, stack, ds[..i], ds[i + 1..], m);
    VisitsAllConcat(g, stack, ds[..i], [ds[i]] + ds[i + 1..], m);
    VisitsAllConcat(g, stack, [ds[i]], ds[i + 1..], m);
  }

  /** The order in which nodes are entered does not matter. */
  lemma {:induction false} VisitsAllPermuted<T>(g: map<T, seq<T>>, stack: set<T>, a: seq<T>, b: seq<T>, m: T)
    requires Closed(g) && Within(g, a) && Within(g, b) && multiset(a) == multiset(b)
    ensures VisitsAll(g, stack, a, m) == VisitsAll(g, stack, b, m)
    decreases |a|
  {
    if a == [] {
      assert |multiset(b)| == 0;
    } else {
      assert a[0] in multiset(b);
      var i :| 0 <= i < |b| && b[i] == a[0];
      assert Without(a, 0) == a[1..];
      VisitsAllPermuted(g, stack, a[1..], Without(b, i), m);
      VisitsAllWithout(g, stack, a, 0, m);
      VisitsAllWithout(g, stack, b, i, m);
    }
  }

  /** An entered node is arrived at. */
  lemma {:induction false} EnteredIsVisited<T>(g: map<T, seq<T>>, stack: set<T>, ds: seq<T>, d: T, m: T)
    requires Closed(g) && Within(g, ds) && d in ds && d !in stack
    ensures VisitsAll(g, stack, ds, m) >= Visits(g, stack, d, m)
    ensures VisitsAll(g, stack, ds, d) >= 1
    decreases |ds|
  {
    if ds[0] != d {
      EnteredIsVisited(g, stack, ds[1..], d, m);
    }
  }

  /** Nodes on the stack are not arrived at. */
  lemma {:induction false} StackIsNotVisited<T>(g: map<T, seq<T>>, stack: set<T>, ds: seq<T>, m: T)
    requires Closed(g) && Within(g, ds) && m in stack
    ensures VisitsAll(g, stack, ds, m) == 0
    decreases g.Keys - stack, |ds|
  {
    if ds != [] {
      StackIsNotVisited(g, stack, ds[1..], m);
      if ds[0] !in stack {
        StackIsNotVisited(g, stack + {ds[0]}, g[ds[0]], m);
      }
    }
  }

  /** Whatever an arrived-at node depends on is arrived at as well, or on the stack. */
  lemma {:induction false} VisitedIsClosed<T>(g: map<T, seq<T>>, stack: set<T>, ds: seq<T>, k: T, d: T)
    requires Closed(g) && Within(g, ds) && k in g && d in g[k] && d !in stack
    requires VisitsAll(g, stack, ds, k) >= 1
    ensures VisitsAll(g, stack, ds, d) >= 1
    decreases g.Keys - stack, |ds|
  {
    var n := ds[0];
    if n in stack || Visits(g, stack, n, k) == 0 {
      VisitedIsClosed(g, stack, ds[1..], k, d);
    } else if n != d {
      if n == k {
        EnteredIsVisited(g, stack + {n}, g[n], d, d);
      } else {
        VisitedIsClosed(g, stack + {n}, g[n], k, d);
      }
    }
  }

  /**
    Of two graphs that agree on a closed set of nodes, the walk from these is the same, and it arrives at these only.
  */
  lemma {:induction false} VisitsAgree<T>(g: map<T, seq<T>>, h: map<T, seq<T>>, kept: set<T>,
                                          stack: set<T>, ds: seq<T>, m: T)
    requires Closed(g) && Closed(h) && kept <= g.Keys && kept <= h.Keys
    requires forall n :: n in kept ==> g[n] == h[n] && forall i :: 0 <= i < |g[n]| ==> g[n][i] in kept
    requires forall i :: 0 <= i < |ds| ==> ds[i] in kept
    ensures Within(g, ds) && Within(h, ds) && VisitsAll(g, stack, ds, m) == VisitsAll(h, stack, ds, m)
    ensures m !in kept ==> VisitsAll(g, stack, ds, m) == 0
    decreases kept - stack, |ds|
  {
    if ds != [] {
      VisitsAgree(g, h, kept, stack, ds[1..], m);
      if ds[0] !in stack {
        VisitsAgree(g, h, kept, stack + {ds[0]}, g[ds[0]], m);
      }
    }
  }
}
