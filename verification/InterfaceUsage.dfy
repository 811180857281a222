/**
  What the bookkeeping of interfaces has to keep, stated on plain values: `u` holds the
  reference counter, the acquired state and the recorded dependencies of every node,
  `g` what the `acquire` function of each node opens.
*/
module InterfaceUsage {
  import opened SimplePaths

  datatype Usage<T> = Usage(refcnt: nat, acquired: bool, recorded: seq<T>)

  ghost predicate DepsInUse<T>(g: map<T, seq<T>>, u: map<T, Usage<T>>, n: T)
    requires Closed(g) && u.Keys == g.Keys && n in g
  {
    forall i :: 0 <= i < |g[n]| ==> 1 <= u[g[n][i]].refcnt
  }

  /**
    The records of a node are absent, or tell what it opens; but those of a stale node are from before, when it
    opened something else, and stay as they are.
  */
  ghost predicate Recorded<T>(g: map<T, seq<T>>, stale: map<T, seq<T>>, u: map<T, Usage<T>>, n: T)
    requires u.Keys == g.Keys && n in g
  {
    if n in stale then u[n].recorded == stale[n] != [] else u[n].recorded == [] || u[n].recorded == g[n]
  }

  /** A node at rest: acquired iff in use, and then with all its dependencies in use and recorded, unless stale. */
  ghost predicate Settled<T>(g: map<T, seq<T>>, stale: map<T, seq<T>>, u: map<T, Usage<T>>, n: T)
    requires Closed(g) && u.Keys == g.Keys && n in g
  {
    && u[n].acquired == (1 <= u[n].refcnt) && Recorded(g, stale, u, n)
    && (u[n].acquired ==> (n !in stale ==> u[n].recorded == g[n]) && DepsInUse(g, u, n))
  }

  /** The records of stale nodes are not relied upon: none is entered again while it is in use. */
  ghost predicate Single<T>(g: map<T, seq<T>>, stale: map<T, seq<T>>, stack: set<T>, ds: seq<T>, u: map<T, Usage<T>>)
    requires Closed(g) && u.Keys == g.Keys && Within(g, ds)
  {
    forall z :: z in stale && z in g ==> u[z].refcnt + VisitsAll(g, stack, ds, z) <= 1
  }

  /** While the nodes on `stack` are being opened, these are in use and all others are at rest. */
  ghost predicate Sound<T>(g: map<T, seq<T>>, stale: map<T, seq<T>>, u: map<T, Usage<T>>, stack: set<T>) {
    && Closed(g) && u.Keys == g.Keys && stack <= g.Keys
    && (forall n :: n in stack ==> 1 <= u[n].refcnt && (n in stale ==> u[n].recorded == stale[n] != []))
    && (forall n :: n in g && n !in stack ==> Settled(g, stale, u, n))
  }

  /** Opening or walking `ds` has been carried out up to the remaining `rest`. */
  ghost predicate AddedUpTo<T>(g: map<T, seq<T>>, stack: set<T>, ds: seq<T>, rest: seq<T>,
                               u: map<T, Usage<T>>, v: map<T, Usage<T>>)
    requires Closed(g) && u.Keys == v.Keys == g.Keys && Within(g, ds) && Within(g, rest)
  {
    forall m :: m in g ==> v[m].refcnt + VisitsAll(g, stack, rest, m) == u[m].refcnt + VisitsAll(g, stack, ds, m)
  }

  ghost predicate StackKept<T>(stack: set<T>, u: map<T, Usage<T>>, v: map<T, Usage<T>>)
    requires stack <= u.Keys && stack <= v.Keys
  {
    forall n :: n in stack ==> v[n].acquired == u[n].acquired && v[n].recorded == u[n].recorded
  }

  function Bumped<T>(u: map<T, Usage<T>>, n: T): map<T, Usage<T>>
    requires n in u
  {
    u[n := u[n].(refcnt := u[n].refcnt + 1)]
  }

  function Recording<T>(u: map<T, Usage<T>>, n: T, d: T): map<T, Usage<T>>
    requires n in u
  {
    u[n := u[n].(recorded := u[n].recorded + [d])]
  }

  lemma EnterSound<T>(g: map<T, seq<T>>, stale: map<T, seq<T>>, u: map<T, Usage<T>>, stack: set<T>, n: T)
    requires Sound(g, stale, u, stack) && n in g && n !in stack
    ensures Sound(g, stale, Bumped(u, n), stack + {n})
    ensures u[n].acquired ==> DepsInUse(g, Bumped(u, n), n)
  {
    var v := Bumped(u, n);
    forall k | k in g && k !in stack + {n} ensures Settled(g, stale, v, k) {
      assert Settled(g, stale, u, k);
    }
  }

  lemma RecordingSound<T>(g: map<T, seq<T>>, stale: map<T, seq<T>>, u: map<T, Usage<T>>, stack: set<T>, n: T, d: T)
    requires Sound(g, stale, u, stack) && n in stack && n !in stale
    ensures Sound(g, stale, Recording(u, n, d), stack)
  {
    var v := Recording(u, n, d);
    forall k | k in g && k !in stack ensures Settled(g, stale, v, k) {
      assert Settled(g, stale, u, k);
    }
  }

  /** A node leaves the stack once it is acquired, fully recorded and its dependencies are in use. */
  lemma LeaveSound<T>(g: map<T, seq<T>>, stale: map<T, seq<T>>, u: map<T, Usage<T>>, stack: set<T>, n: T)
    requires Sound(g, stale, u, stack + {n}) && n !in stack
    requires u[n].acquired && (n !in stale ==> u[n].recorded == g[n]) && DepsInUse(g, u, n)
    ensures Sound(g, stale, u, stack)
  {
  }

  ghost predicate SameCounts<T>(u: map<T, Usage<T>>, v: map<T, Usage<T>>) {
    u.Keys == v.Keys && forall n :: n in u ==> u[n].refcnt == v[n].refcnt
  }

  /** Entering a node and then all its dependencies is entering the node. */
  lemma EnterAdds<T>(g: map<T, seq<T>>, u: map<T, Usage<T>>, v: map<T, Usage<T>>, stack: set<T>, n: T)
    requires Closed(g) && u.Keys == v.Keys == g.Keys && n in g && n !in stack
    requires AddedUpTo(g, stack + {n}, g[n], [], Bumped(u, n), v)
    ensures AddedUpTo(g, stack, [n], [], u, v)
  {
    forall m | m in g ensures v[m].refcnt == u[m].refcnt + VisitsAll(g, stack, [n], m) {
      assert VisitsAll(g, stack, [n], m) == Visits(g, stack, n, m);
    }
  }

  /** A node in progress is not counted again. */
  lemma CycleAdds<T>(g: map<T, seq<T>>, u: map<T, Usage<T>>, v: map<T, Usage<T>>, stack: set<T>, n: T)
    requires Closed(g) && v.Keys == g.Keys && SameCounts(u, v) && n in g && n in stack
    ensures AddedUpTo(g, stack, [n], [], u, v)
  {
  }

  lemma AddsFrom<T>(g: map<T, seq<T>>, u: map<T, Usage<T>>, u': map<T, Usage<T>>, v: map<T, Usage<T>>,
                    stack: set<T>, ds: seq<T>)
    requires Closed(g) && v.Keys == u'.Keys == g.Keys && SameCounts(u, u') && Within(g, ds)
    requires AddedUpTo(g, stack, ds, [], u', v)
    ensures AddedUpTo(g, stack, ds, [], u, v)
  {
  }

  lemma AddedNext<T>(g: map<T, seq<T>>, stack: set<T>, ds: seq<T>, rest: seq<T>,
                     u: map<T, Usage<T>>, v: map<T, Usage<T>>, w: map<T, Usage<T>>)
    requires Closed(g) && u.Keys == v.Keys == w.Keys == g.Keys && Within(g, ds) && Within(g, rest) && rest != []
    requires AddedUpTo(g, stack, ds, rest, u, v)
    requires AddedUpTo(g, stack, [rest[0]], [], v, w)
    ensures AddedUpTo(g, stack, ds, rest[1..], u, w)
    ensures rest[0] !in stack ==> 1 <= w[rest[0]].refcnt
    ensures forall m :: m in g ==> v[m].refcnt <= w[m].refcnt
  {
    forall m | m in g
      ensures w[m].refcnt + VisitsAll(g, stack, rest[1..], m) == u[m].refcnt + VisitsAll(g, stack, ds, m)
    {
      VisitsAllConcat(g, stack, [rest[0]], rest[1..], m);
      assert rest == [rest[0]] + rest[1..];
    }
    if rest[0] !in stack {
      EnteredIsVisited(g, stack, [rest[0]], rest[0], rest[0]);
    }
  }

  function Acquired<T>(u: map<T, Usage<T>>, n: T, recorded: seq<T>): map<T, Usage<T>>
    requires n in u
  {
    u[n := u[n].(acquired := true, recorded := recorded)]
  }

  /** `acquire` of node `n` has opened its first `i` dependencies. */
  ghost predicate Acquiring<T>(g: map<T, seq<T>>, stack: set<T>, n: T, collect: bool, i: nat,
                               u: map<T, Usage<T>>, v: map<T, Usage<T>>)
    requires Closed(g) && u.Keys == v.Keys == g.Keys && n in stack && stack <= g.Keys && i <= |g[n]|
  {
    && AddedUpTo(g, stack, g[n], g[n][i..], u, v)
    && (forall j :: 0 <= j < i ==> 1 <= v[g[n][j]].refcnt)
    && StackKept(stack, Acquired(u, n, if collect then g[n][..i] else u[n].recorded), v)
  }

  lemma AcquiringNext<T>(g: map<T, seq<T>>, stale: map<T, seq<T>>, stack: set<T>, n: T, collect: bool, i: nat,
                         u: map<T, Usage<T>>, v: map<T, Usage<T>>, w: map<T, Usage<T>>)
    requires Closed(g) && u.Keys == v.Keys == w.Keys == g.Keys && n in stack && stack <= g.Keys && i < |g[n]|
    requires Sound(g, stale, v, stack) && Acquiring(g, stack, n, collect, i, u, v)
    requires AddedUpTo(g, stack, [g[n][i]], [], v, w)
    requires StackKept(stack, if collect then Recording(v, n, g[n][i]) else v, w)
    ensures Acquiring(g, stack, n, collect, i + 1, u, w)
  {
    assert g[n][i..][0] == g[n][i] && g[n][i..][1..] == g[n][i + 1..];
    AddedNext(g, stack, g[n], g[n][i..], u, v, w);
    forall j | 0 <= j < i + 1 ensures 1 <= w[g[n][j]].refcnt {
      assert v[g[n][j]].refcnt <= w[g[n][j]].refcnt;
    }
    assert g[n][..i + 1] == g[n][..i] + [g[n][i]];
  }

  lemma AcquiringAdds<T>(g: map<T, seq<T>>, stack: set<T>, n: T, collect: bool, i: nat,
                         u: map<T, Usage<T>>, v: map<T, Usage<T>>)
    requires Closed(g) && u.Keys == v.Keys == g.Keys && n in stack && stack <= g.Keys && i <= |g[n]|
    requires Acquiring(g, stack, n, collect, i, u, v)
    ensures AddedUpTo(g, stack, g[n], g[n][i..], u, v)
  {
  }

  lemma AcquiringDone<T>(g: map<T, seq<T>>, stack: set<T>, n: T, collect: bool,
                         u: map<T, Usage<T>>, v: map<T, Usage<T>>)
    requires Closed(g) && u.Keys == v.Keys == g.Keys && n in stack && stack <= g.Keys
    requires Acquiring(g, stack, n, collect, |g[n]|, u, v)
    ensures AddedUpTo(g, stack, g[n], [], u, v) && DepsInUse(g, v, n)
    ensures StackKept(stack, Acquired(u, n, if collect then g[n] else u[n].recorded), v)
  {
    assert g[n][|g[n]|..] == [] && g[n][..|g[n]|] == g[n];
  }

  /** Only acquired nodes have been counted up, and nothing else has changed. */
  ghost predicate OnlyWalked<T>(u: map<T, Usage<T>>, v: map<T, Usage<T>>) {
    && u.Keys == v.Keys && StackKept(u.Keys, u, v)
    && forall n :: n in u ==> u[n].refcnt <= v[n].refcnt && (u[n].refcnt != v[n].refcnt ==> v[n].acquired)
  }

  /** The walk over the recorded dependencies of `n` has done the first `i` of them. */
  ghost predicate Walking<T>(g: map<T, seq<T>>, stack: set<T>, n: T, i: nat, u: map<T, Usage<T>>, v: map<T, Usage<T>>)
    requires Closed(g) && u.Keys == v.Keys == g.Keys && n in g && i <= |g[n]|
  {
    && AddedUpTo(g, stack, g[n], g[n][i..], u, v)
    && OnlyWalked(u, v)
  }

  lemma WalkingStart<T>(g: map<T, seq<T>>, stack: set<T>, n: T, u: map<T, Usage<T>>)
    requires Closed(g) && u.Keys == g.Keys && n in g && DepsInUse(g, u, n)
    ensures Walking(g, stack, n, 0, u, u)
  {
    assert g[n][0..] == g[n];
  }

  lemma WalkingInUse<T>(g: map<T, seq<T>>, stack: set<T>, n: T, i: nat, u: map<T, Usage<T>>, v: map<T, Usage<T>>)
    requires Closed(g) && u.Keys == v.Keys == g.Keys && n in g && i < |g[n]|
    requires DepsInUse(g, u, n) && Walking(g, stack, n, i, u, v)
    ensures 1 <= v[g[n][i]].refcnt
  {
  }

  lemma WalkingAdds<T>(g: map<T, seq<T>>, stack: set<T>, n: T, i: nat, u: map<T, Usage<T>>, v: map<T, Usage<T>>)
    requires Closed(g) && u.Keys == v.Keys == g.Keys && n in g && i < |g[n]| && Walking(g, stack, n, i, u, v)
    ensures AddedUpTo(g, stack, g[n], g[n][i..], u, v)
  {
  }

  lemma WalkingNext<T>(g: map<T, seq<T>>, stack: set<T>, n: T, i: nat,
                       u: map<T, Usage<T>>, v: map<T, Usage<T>>, w: map<T, Usage<T>>)
    requires Closed(g) && u.Keys == v.Keys == w.Keys == g.Keys && n in g && i < |g[n]|
    requires Walking(g, stack, n, i, u, v)
    requires AddedUpTo(g, stack, [g[n][i]], [], v, w) && OnlyWalked(v, w)
    ensures Walking(g, stack, n, i + 1, u, w)
  {
    assert g[n][i..][0] == g[n][i] && g[n][i..][1..] == g[n][i + 1..];
    AddedNext(g, stack, g[n], g[n][i..], u, v, w);
  }

  lemma WalkingDone<T>(g: map<T, seq<T>>, stack: set<T>, n: T, u: map<T, Usage<T>>, v: map<T, Usage<T>>)
    requires Closed(g) && u.Keys == v.Keys == g.Keys && n in g
    requires Walking(g, stack, n, |g[n]|, u, v)
    ensures AddedUpTo(g, stack, g[n], [], u, v) && OnlyWalked(u, v)
    ensures DepsInUse(g, u, n) ==> DepsInUse(g, v, n)
  {
    assert g[n][|g[n]|..] == [];
  }

  lemma NothingWalked<T>(u: map<T, Usage<T>>)
    ensures OnlyWalked(u, u)
  {
  }

  lemma RecordedKept<T>(u: map<T, Usage<T>>, v: map<T, Usage<T>>, n: T)
    requires OnlyWalked(u, v) && n in u
    ensures n in v && v[n].recorded == u[n].recorded && v[n].acquired == u[n].acquired
  {
  }

  lemma EnterWalked<T>(u: map<T, Usage<T>>, v: map<T, Usage<T>>, n: T)
    requires n in u && u[n].acquired && OnlyWalked(Bumped(u, n), v)
    ensures OnlyWalked(u, v)
  {
    assert u.Keys == Bumped(u, n).Keys;
    forall k | k in u ensures u[k].refcnt <= v[k].refcnt && (u[k].refcnt != v[k].refcnt ==> v[k].acquired) {
      assert k in Bumped(u, n);
    }
  }

  // ---- stale records

  /** Entering a node takes its own arrival off; a stale one was not in use. */
  lemma SingleEnter<T>(g: map<T, seq<T>>, stale: map<T, seq<T>>, stack: set<T>, n: T, u: map<T, Usage<T>>)
    requires Closed(g) && u.Keys == g.Keys && n in g && n !in stack && Single(g, stale, stack, [n], u)
    ensures Single(g, stale, stack + {n}, g[n], Bumped(u, n))
    ensures n in stale ==> u[n].refcnt == 0
  {
    forall z | z in g
      ensures VisitsAll(g, stack, [n], z) == (if n == z then 1 else 0) + VisitsAll(g, stack + {n}, g[n], z)
    {
      EnteredOnce(g, stack, n, z);
    }
  }

  lemma SingleNext<T>(g: map<T, seq<T>>, stale: map<T, seq<T>>, stack: set<T>, ds: seq<T>, i: nat,
                      u: map<T, Usage<T>>, v: map<T, Usage<T>>)
    requires Closed(g) && u.Keys == v.Keys == g.Keys && Within(g, ds) && i < |ds|
    requires Single(g, stale, stack, ds, u) && AddedUpTo(g, stack, ds, ds[i..], u, v)
    ensures Single(g, stale, stack, [ds[i]], v)
  {
    assert ds[i..] == [ds[i]] + ds[i + 1..];
    forall z | z in stale && z in g ensures v[z].refcnt + VisitsAll(g, stack, [ds[i]], z) <= 1 {
      VisitsAllConcat(g, stack, [ds[i]], ds[i + 1..], z);
    }
  }

  lemma SingleSame<T>(g: map<T, seq<T>>, stale: map<T, seq<T>>, stack: set<T>, ds: seq<T>,
                      u: map<T, Usage<T>>, v: map<T, Usage<T>>)
    requires Closed(g) && v.Keys == g.Keys && SameCounts(u, v) && Within(g, ds) && Single(g, stale, stack, ds, u)
    ensures Single(g, stale, stack, ds, v)
  {
  }

  // ---- closing

  /** While the nodes on `stack` are being closed: dependencies may be gone already for those, but not the records. */
  ghost predicate Closing<T>(g: map<T, seq<T>>, stale: map<T, seq<T>>, u: map<T, Usage<T>>, stack: set<T>) {
    && Closed(g) && u.Keys == g.Keys && stack <= g.Keys
    && (forall n :: n in stack ==> 1 <= u[n].refcnt)
    && (forall n :: n in g ==> Recorded(g, stale, u, n) && (n in stale ==> u[n].refcnt <= 1))
    && (forall n :: n in g && 1 <= u[n].refcnt && n !in stale ==> u[n].recorded == g[n])
    && (forall n :: n in g && n !in stack ==> u[n].acquired == (1 <= u[n].refcnt))
  }

  /** Enough uses are counted for all of `ds` to be closed. */
  ghost predicate Covered<T>(g: map<T, seq<T>>, stack: set<T>, ds: seq<T>, u: map<T, Usage<T>>)
    requires Closed(g) && u.Keys == g.Keys && Within(g, ds)
  {
    forall m :: m in g ==> VisitsAll(g, stack, ds, m) <= u[m].refcnt
  }

  /** The first `i` of `ds` have been closed: the opening of the same nodes read backwards. */
  ghost predicate ClosedSoFar<T>(g: map<T, seq<T>>, stack: set<T>, ds: seq<T>, i: nat,
                                 u: map<T, Usage<T>>, v: map<T, Usage<T>>)
    requires Closed(g) && u.Keys == v.Keys == g.Keys && stack <= g.Keys && Within(g, ds) && i <= |ds|
  {
    && AddedUpTo(g, stack, ds[i..], ds, u, v)
    && StackKept(stack, u, v)
    && forall n :: n in g ==> v[n].recorded == u[n].recorded
  }

  function Released<T>(u: map<T, Usage<T>>, n: T): map<T, Usage<T>>
    requires n in u
  {
    u[n := u[n].(acquired := false)]
  }

  function Dropped<T>(u: map<T, Usage<T>>, n: T): map<T, Usage<T>>
    requires n in u && 1 <= u[n].refcnt
  {
    u[n := u[n].(refcnt := u[n].refcnt - 1)]
  }

  lemma ClosedNothing<T>(g: map<T, seq<T>>, stack: set<T>, ds: seq<T>, u: map<T, Usage<T>>)
    requires Closed(g) && u.Keys == g.Keys && stack <= g.Keys && Within(g, ds)
    ensures ClosedSoFar(g, stack, ds, 0, u, u)
  {
    assert ds[0..] == ds;
  }

  lemma CycleCloses<T>(g: map<T, seq<T>>, stack: set<T>, n: T, u: map<T, Usage<T>>)
    requires Closed(g) && u.Keys == g.Keys && stack <= g.Keys && n in g && n in stack
    ensures ClosedSoFar(g, stack, [n], 1, u, u)
  {
    assert [n][1..] == [];
  }

  lemma ClosedCovers<T>(g: map<T, seq<T>>, stack: set<T>, ds: seq<T>, i: nat, u: map<T, Usage<T>>, v: map<T, Usage<T>>)
    requires Closed(g) && u.Keys == v.Keys == g.Keys && stack <= g.Keys && Within(g, ds) && i < |ds|
    requires Covered(g, stack, ds, u) && ClosedSoFar(g, stack, ds, i, u, v)
    ensures Covered(g, stack, [ds[i]], v)
  {
    forall m | m in g ensures VisitsAll(g, stack, [ds[i]], m) <= v[m].refcnt {
      assert ds[i..] == [ds[i]] + ds[i + 1..];
      VisitsAllConcat(g, stack, [ds[i]], ds[i + 1..], m);
    }
  }

  lemma ClosedNext<T>(g: map<T, seq<T>>, stack: set<T>, ds: seq<T>, i: nat,
                      u: map<T, Usage<T>>, v: map<T, Usage<T>>, w: map<T, Usage<T>>)
    requires Closed(g) && u.Keys == v.Keys == w.Keys == g.Keys && stack <= g.Keys && Within(g, ds) && i < |ds|
    requires ClosedSoFar(g, stack, ds, i, u, v) && ClosedSoFar(g, stack, [ds[i]], 1, v, w)
    ensures ClosedSoFar(g, stack, ds, i + 1, u, w)
  {
    assert [ds[i]][1..] == [];
    forall m | m in g
      ensures w[m].refcnt + VisitsAll(g, stack, ds, m) == u[m].refcnt + VisitsAll(g, stack, ds[i + 1..], m)
    {
      assert ds[i..] == [ds[i]] + ds[i + 1..];
      VisitsAllConcat(g, stack, [ds[i]], ds[i + 1..], m);
    }
  }

  /** A node about to be closed is in use, and so are all its dependencies. */
  lemma CoveredInUse<T>(g: map<T, seq<T>>, stale: map<T, seq<T>>, stack: set<T>, n: T, u: map<T, Usage<T>>)
    requires Closing(g, stale, u, stack) && n in g && Covered(g, stack, [n], u)
    ensures 1 <= u[n].refcnt
    ensures n !in stack ==> Covered(g, stack + {n}, g[n], u) && DepsInUse(g, u, n)
  {
    if n !in stack {
      EnteredIsVisited(g, stack, [n], n, n);
      forall m | m in g ensures VisitsAll(g, stack + {n}, g[n], m) <= u[m].refcnt {
        assert VisitsAll(g, stack, [n], m) == Visits(g, stack, n, m);
      }
      forall i | 0 <= i < |g[n]| ensures 1 <= u[g[n][i]].refcnt {
        if g[n][i] !in stack + {n} {
          EnteredIsVisited(g, stack + {n}, g[n], g[n][i], g[n][i]);
        }
      }
    }
  }

  lemma CoveredPermuted<T>(g: map<T, seq<T>>, stack: set<T>, ds: seq<T>, es: seq<T>, u: map<T, Usage<T>>)
    requires Closed(g) && u.Keys == g.Keys && Within(g, ds) && Within(g, es) && multiset(ds) == multiset(es)
    requires Covered(g, stack, ds, u)
    ensures Covered(g, stack, es, u)
  {
    forall m | m in g ensures VisitsAll(g, stack, es, m) <= u[m].refcnt {
      VisitsAllPermuted(g, stack, ds, es, m);
    }
  }

  lemma ClosedPermuted<T>(g: map<T, seq<T>>, stack: set<T>, ds: seq<T>, es: seq<T>,
                          u: map<T, Usage<T>>, v: map<T, Usage<T>>)
    requires Closed(g) && u.Keys == v.Keys == g.Keys && stack <= g.Keys
    requires Within(g, ds) && Within(g, es) && multiset(ds) == multiset(es)
    requires ClosedSoFar(g, stack, es, |es|, u, v)
    ensures ClosedSoFar(g, stack, ds, |ds|, u, v)
  {
    assert ds[|ds|..] == [] && es[|es|..] == [];
    forall m | m in g ensures v[m].refcnt + VisitsAll(g, stack, ds, m) == u[m].refcnt {
      VisitsAllPermuted(g, stack, ds, es, m);
    }
  }

  /** Closing all dependencies of a node and then dropping it is closing the node. */
  lemma CloseDrops<T>(g: map<T, seq<T>>, stale: map<T, seq<T>>, u: map<T, Usage<T>>, v: map<T, Usage<T>>,
                      stack: set<T>, n: T)
    requires Closed(g) && u.Keys == v.Keys == g.Keys && stack <= g.Keys && n in g && n !in stack
    requires Closing(g, stale, v, stack + {n}) && v[n].acquired == (u[n].refcnt != 1)
    requires AddedUpTo(g, stack + {n}, [], g[n], u, v) && StackKept(stack, u, v)
    requires forall k :: k in g ==> v[k].recorded == u[k].recorded
    ensures v[n].refcnt == u[n].refcnt
    ensures Closing(g, stale, Dropped(v, n), stack) && ClosedSoFar(g, stack, [n], 1, u, Dropped(v, n))
  {
    StackIsNotVisited(g, stack + {n}, g[n], n);
    assert [n][1..] == [];
    hide VisitsAll, Visits, Closing;
    forall m | m in g
      ensures VisitsAll(g, stack, [n], m) == (if n == m then 1 else 0) + VisitsAll(g, stack + {n}, g[n], m)
    {
      EnteredOnce(g, stack, n, m);
    }
    NothingEntered(g, stack);
    NothingEntered(g, stack + {n});
    DropCloses(g, stale, v, stack, n);
  }

  lemma NothingEntered<T>(g: map<T, seq<T>>, stack: set<T>)
    requires Closed(g)
    ensures forall m :: m in g ==> VisitsAll(g, stack, [], m) == 0
  {
  }

  lemma DropCloses<T>(g: map<T, seq<T>>, stale: map<T, seq<T>>, v: map<T, Usage<T>>, stack: set<T>, n: T)
    requires Closing(g, stale, v, stack + {n}) && n in g && n !in stack && v[n].acquired == (v[n].refcnt != 1)
    ensures Closing(g, stale, Dropped(v, n), stack)
  {
  }

  lemma EnteredOnce<T>(g: map<T, seq<T>>, stack: set<T>, n: T, m: T)
    requires Closed(g) && n in g && n !in stack
    ensures VisitsAll(g, stack, [n], m) == (if n == m then 1 else 0) + VisitsAll(g, stack + {n}, g[n], m)
  {
    var none: seq<T> := [n][1..];
    assert none == [];
  }

  // ---- runs of opens and closes

  /** With `handles` outstanding and nothing in progress, every counter is the number of arrivals at its node. */
  ghost predicate Balanced<T>(g: map<T, seq<T>>, stale: map<T, seq<T>>, u: map<T, Usage<T>>, handles: seq<T>) {
    && Closing(g, stale, u, {}) && Within(g, handles)
    && forall m :: m in g ==> u[m].refcnt == VisitsAll(g, {}, handles, m)
  }

  /** Between calls, the dependencies of every node in use are in use: opening again is safe. */
  lemma BalancedIsSound<T>(g: map<T, seq<T>>, stale: map<T, seq<T>>, u: map<T, Usage<T>>, handles: seq<T>)
    requires Balanced(g, stale, u, handles)
    ensures Sound(g, stale, u, {})
  {
    forall n | n in g ensures Settled(g, stale, u, n) {
      if u[n].acquired {
        forall i | 0 <= i < |g[n]| ensures 1 <= u[g[n][i]].refcnt {
          VisitedIsClosed(g, {}, handles, n, g[n][i]);
        }
      }
    }
  }

  lemma OpenBalances<T>(g: map<T, seq<T>>, stale: map<T, seq<T>>, u: map<T, Usage<T>>, v: map<T, Usage<T>>,
                        handles: seq<T>, n: T)
    requires Balanced(g, stale, u, handles) && n in g
    requires Sound(g, stale, v, {}) && AddedUpTo(g, {}, [n], [], u, v) && Single(g, stale, {}, [n], u)
    ensures Balanced(g, stale, v, handles + [n])
  {
    assert forall k :: k in g ==> Settled(g, stale, v, k);
    forall m | m in g ensures v[m].refcnt == VisitsAll(g, {}, handles + [n], m) {
      VisitsAllConcat(g, {}, handles, [n], m);
    }
  }

  /** The counters always cover the closing of any outstanding handle. */
  lemma HandleIsCovered<T>(g: map<T, seq<T>>, stale: map<T, seq<T>>, u: map<T, Usage<T>>, handles: seq<T>, i: nat)
    requires Balanced(g, stale, u, handles) && i < |handles|
    ensures Covered(g, {}, [handles[i]], u)
  {
    forall m | m in g ensures VisitsAll(g, {}, [handles[i]], m) <= u[m].refcnt {
      VisitsAllWithout(g, {}, handles, i, m);
    }
  }

  lemma CloseBalances<T>(g: map<T, seq<T>>, stale: map<T, seq<T>>, u: map<T, Usage<T>>, v: map<T, Usage<T>>,
                         handles: seq<T>, i: nat)
    requires Balanced(g, stale, u, handles) && i < |handles|
    requires Closing(g, stale, v, {}) && ClosedSoFar(g, {}, [handles[i]], 1, u, v)
    ensures Balanced(g, stale, v, Without(handles, i))
  {
    assert [handles[i]][1..] == [];
    forall m | m in g ensures v[m].refcnt == VisitsAll(g, {}, Without(handles, i), m) {
      VisitsAllWithout(g, {}, handles, i, m);
    }
  }

  /** All simple paths from the outstanding handles to `m`, counted. */
  ghost function SimplePathCount<T>(g: map<T, seq<T>>, handles: seq<T>, m: T): nat
    requires Closed(g) && Within(g, handles)
  {
    if handles == [] then 0
    else |Paths(g, {}, handles[0], m)| + SimplePathCount(g, handles[1..], m)
  }

  /** A reference counter is the number of simple dependency paths from the outstanding handles. */
  lemma {:induction false} VisitsAreSimplePaths<T>(g: map<T, seq<T>>, handles: seq<T>, m: T)
    requires Closed(g) && Within(g, handles)
    ensures VisitsAll(g, {}, handles, m) == SimplePathCount(g, handles, m)
  {
    if handles != [] {
      VisitsAreSimplePaths(g, handles[1..], m);
      PathsSize(g, {}, handles[0], m);
    }
  }

  /** Only the outstanding handles matter, not the calls that led to them: opening and closing cancel out. */
  lemma SameHandlesSameCounts<T>(g: map<T, seq<T>>, stale: map<T, seq<T>>, u: map<T, Usage<T>>, v: map<T, Usage<T>>,
                                 hs: seq<T>, ks: seq<T>)
    requires Balanced(g, stale, u, hs) && Balanced(g, stale, v, ks) && multiset(hs) == multiset(ks)
    ensures SameCounts(u, v)
  {
    forall m | m in g ensures u[m].refcnt == v[m].refcnt {
      VisitsAllPermuted(g, {}, hs, ks, m);
    }
  }

  // ---- nodes come and go

  /** The state of the nodes of `h`, of which those not in `u` are new. */
  function Continued<T>(u: map<T, Usage<T>>, h: map<T, seq<T>>): map<T, Usage<T>> {
    map n | n in h :: if n in u then u[n] else Usage(0, false, [])
  }

  /** The records that are present and do not tell what the nodes of `h` open. */
  function StaleTables<T>(u: map<T, Usage<T>>, h: map<T, seq<T>>): map<T, seq<T>> {
    map n | n in h && n in u && u[n].recorded !in {[], h[n]} :: u[n].recorded
  }

  /** While the nodes in use stay and open what they did, the counters remain exact when others are replaced. */
  lemma ContinueBalances<T>(g: map<T, seq<T>>, stale: map<T, seq<T>>, u: map<T, Usage<T>>, handles: seq<T>,
                            h: map<T, seq<T>>)
    requires Balanced(g, stale, u, handles) && Closed(h)
    requires forall n :: n in g && 0 < u[n].refcnt ==> n in h && h[n] == g[n]
    ensures Balanced(h, StaleTables(u, h), Continued(u, h), handles)
  {
    var kept := set n | n in g && 0 < u[n].refcnt;
    BalancedIsSound(g, stale, u, handles);
    forall n | n in kept ensures g[n] == h[n] && forall i :: 0 <= i < |g[n]| ==> g[n][i] in kept {
      assert Settled(g, stale, u, n);
    }
    forall i | 0 <= i < |handles| ensures handles[i] in kept {
      EnteredIsVisited(g, {}, handles, handles[i], handles[i]);
    }
    forall m ensures Within(h, handles) && VisitsAll(g, {}, handles, m) == VisitsAll(h, {}, handles, m) {
      VisitsAgree(g, h, kept, {}, handles, m);
    }
    forall m | m in h ensures Continued(u, h)[m].refcnt == VisitsAll(h, {}, handles, m) {
      VisitsAgree(g, h, kept, {}, handles, m);
    }
  }
}
