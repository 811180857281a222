/**
  Integrals over a timeline of events: the time spent in each state of activity.
*/
module IncidenceIntegrals {
  import opened IncidenceTimeline

  /** How many of the first `n` threads are active after `s`. */
  function Concurrent(s: seq<Inc>, n: nat): (c: nat)
    ensures c <= n
  {
    if n == 0 then 0 else Concurrent(s, n - 1) + if 0 < Balance(s, OfThread(n - 1)) then 1 else 0
  }

  /** What to integrate: a count of activations, whether a thread is busy, or the degree of concurrency. */
  datatype Weight =
    | Elapsed
    | Active(sel: Selector)
    | Busy(t: nat)
    | Concurrency(n: nat)
    | AtConcurrency(n: nat, j: nat)
    | ScaledAt(n: nat, j: nat)
  {
    function At(s: seq<Inc>): int {
      match this
      case Elapsed => 1
      case Active(sel) => Balance(s, sel)
      case Busy(t) => if Balance(s, OfThread(t)) != 0 then 1 else 0
      case Concurrency(n) => Concurrent(s, n)
      case AtConcurrency(n, j) => if Concurrent(s, n) == j then 1 else 0
      case ScaledAt(n, j) => if Concurrent(s, n) == j then j else 0
    }
  }

  /** The time that has passed since the preceding event. */
  function Slice(tl: seq<Inc>, k: nat): real
    requires k < |tl|
  {
    if k == 0 then 0.0 else tl[k].when - tl[k - 1].when
  }

  /** What a slice of time contributes. */
  function Area(weight: int, time: real): real {
    weight as real * time
  }

  /** The weighted time up to event `k - 1`. */
  ghost function Integral(tl: seq<Inc>, k: nat, w: Weight): real
    requires k <= |tl|
  {
    if k == 0 then 0.0 else Integral(tl, k - 1, w) + Area(w.At(tl[..k - 1]), Slice(tl, k - 1))
  }

  /** Weights that add up: one for each case, thread or degree of concurrency. */
  datatype Family = EachCase | EachThread | EachDegree(n: nat) | EachDegreeScaled(n: nat) {
    function Member(i: nat): Weight {
      match this
      case EachCase => Active(OfCase(i))
      case EachThread => Busy(i)
      case EachDegree(n) => AtConcurrency(n, i)
      case EachDegreeScaled(n) => ScaledAt(n, i)
    }
  }

  /** The sum of the first `m` weights of a family. */
  ghost function WeightSum(m: nat, f: Family, s: seq<Inc>): int {
    if m == 0 then 0 else WeightSum(m - 1, f, s) + f.Member(m - 1).At(s)
  }

  /** The sum of their integrals. */
  ghost function IntegralSum(m: nat, f: Family, tl: seq<Inc>, k: nat): real
    requires k <= |tl|
  {
    if m == 0 then 0.0 else IntegralSum(m - 1, f, tl, k) + Integral(tl, k, f.Member(m - 1))
  }

  lemma {:induction false} IntegralSumStep(m: nat, f: Family, tl: seq<Inc>, k: nat)
    requires 0 < k <= |tl|
    ensures IntegralSum(m, f, tl, k)
            == IntegralSum(m, f, tl, k - 1) + Area(WeightSum(m, f, tl[..k - 1]), Slice(tl, k - 1))
  {
    hide Area, Slice;
    AreaUnits(Slice(tl, k - 1));
    if m > 0 {
      IntegralSumStep(m - 1, f, tl, k);
      Distribute(WeightSum(m - 1, f, tl[..k - 1]), f.Member(m - 1).At(tl[..k - 1]), Slice(tl, k - 1));
    }
  }

  lemma Distribute(a: int, b: int, x: real)
    ensures Area(a + b, x) == Area(a, x) + Area(b, x)
  {
  }

  lemma AreaUnits(x: real)
    ensures Area(0, x) == 0.0 && Area(1, x) == x
  {
  }

  lemma {:induction false} IntegralSumZero(m: nat, f: Family, tl: seq<Inc>)
    ensures IntegralSum(m, f, tl, 0) == 0.0
  {
    if m > 0 {
      IntegralSumZero(m - 1, f, tl);
    }
  }

  /**
    Integration is linear: a weight that is the sum of a family at all times integrates to the sum of the integrals.
  */
  lemma {:induction false} IntegralOfSum(tl: seq<Inc>, k: nat, w: Weight, m: nat, f: Family)
    requires k <= |tl|
    requires forall i :: 0 <= i < k ==> w.At(tl[..i]) == WeightSum(m, f, tl[..i])
    ensures Integral(tl, k, w) == IntegralSum(m, f, tl, k)
  {
    if k == 0 {
      IntegralSumZero(m, f, tl);
    } else {
      IntegralOfSum(tl, k - 1, w, m, f);
      IntegralSumStep(m, f, tl, k);
    }
  }

  /** Elapsed time telescopes. */
  lemma {:induction false} IntegralElapsed(tl: seq<Inc>, k: nat)
    requires 0 < k <= |tl|
    ensures Integral(tl, k, Elapsed) == tl[k - 1].when - tl[0].when
  {
    if k > 1 {
      IntegralElapsed(tl, k - 1);
    }
  }

  /** The times of all enter events picked, and of all leave events. */
  ghost function EnterTimes(s: seq<Inc>, sel: Selector): real {
    if s == [] then 0.0
    else var e := s[|s| - 1];
         EnterTimes(s[..|s| - 1], sel) + if sel.Picks(e) && !e.isLeave then e.when else 0.0
  }

  ghost function LeaveTimes(s: seq<Inc>, sel: Selector): real {
    if s == [] then 0.0
    else var e := s[|s| - 1];
         LeaveTimes(s[..|s| - 1], sel) + if sel.Picks(e) && e.isLeave then e.when else 0.0
  }

  lemma AreaParts(b: int, t0: real, t1: real)
    ensures Area(b, t1 - t0) == Area(b, t1) - Area(b, t0)
    ensures Area(b + 1, t1) == Area(b, t1) + t1 && Area(b - 1, t1) == Area(b, t1) - t1
  {
  }

  /** Summation by parts: active time so far is leave times less enter times, and what is open counts up to now. */
  lemma {:induction false} IntegralByParts(tl: seq<Inc>, k: nat, sel: Selector)
    requires 0 < k <= |tl|
    ensures Integral(tl, k, Active(sel))
            == LeaveTimes(tl[..k], sel) - EnterTimes(tl[..k], sel) + Area(Balance(tl[..k], sel), tl[k - 1].when)
  {
    hide Area;
    assert tl[..k][..k - 1] == tl[..k - 1];
    AreaUnits(tl[k - 1].when);
    AreaUnits(0.0);
    if k > 1 {
      IntegralByParts(tl, k - 1, sel);
      AreaParts(Balance(tl[..k - 1], sel), tl[k - 2].when, tl[k - 1].when);
    } else {
      assert tl[..0] == [];
      AreaParts(0, 0.0, tl[0].when);
    }
  }

  lemma Scale(j: nat, a: int, y: real, x: real)
    ensures Times(j, y) + Area(j * a, x) == Times(j, y + Area(a, x))
  {
  }

  function Times(j: nat, y: real): real {
    j as real * y
  }

  lemma {:induction false} IntegralScaled(tl: seq<Inc>, k: nat, n: nat, j: nat)
    requires k <= |tl|
    ensures Integral(tl, k, ScaledAt(n, j)) == Times(j, Integral(tl, k, AtConcurrency(n, j)))
  {
    hide Area, Slice;
    TimesZero(j);
    if k > 0 {
      IntegralScaled(tl, k - 1, n, j);
      var at := AtConcurrency(n, j).At(tl[..k - 1]);
      assert ScaledAt(n, j).At(tl[..k - 1]) == j * at;
      hide Times;
      Scale(j, at, Integral(tl, k - 1, AtConcurrency(n, j)), Slice(tl, k - 1));
    }
  }

  lemma TimesZero(j: nat)
    ensures Times(j, 0.0) == 0.0
  {
  }

  /** A case without events so far has not been active. */
  lemma {:induction false} IntegralUnseen(tl: seq<Inc>, k: nat, c: nat)
    requires k <= |tl| && forall i :: 0 <= i < k - 1 ==> tl[i].caseID != c
    ensures Integral(tl, k, Active(OfCase(c))) == 0.0
  {
    if k > 0 {
      IntegralUnseen(tl, k - 1, c);
      BalanceUnseen(tl[..k - 1], c);
    }
  }

  lemma {:induction false} BalanceUnseen(s: seq<Inc>, c: nat)
    requires forall i :: 0 <= i < |s| ==> s[i].caseID != c
    ensures Balance(s, OfCase(c)) == 0
  {
    if s != [] {
      BalanceUnseen(s[..|s| - 1], c);
    }
  }

  // ---- the time of a thread, from its own log

  lemma {:induction false} PickedTwice(s: seq<Inc>, sel: Selector)
    ensures Picked(Picked(s, sel), sel) == Picked(s, sel)
  {
    if s != [] {
      PickedTwice(s[..|s| - 1], sel);
      PickedAppend(Picked(s[..|s| - 1], sel), s[|s| - 1], sel);
    }
  }

  lemma BusyByPicked(s: seq<Inc>, t: nat)
    ensures Busy(t).At(s) == Busy(t).At(Picked(s, OfThread(t)))
  {
    BalanceOfThread(s, t);
    BalanceOfThread(Picked(s, OfThread(t)), t);
    PickedTwice(s, OfThread(t));
  }

  /** Later events do not matter. */
  lemma {:induction false} IntegralPrefix(s: seq<Inc>, e: Inc, k: nat, w: Weight)
    requires k <= |s|
    ensures Integral(s + [e], k, w) == Integral(s, k, w)
  {
    if k > 0 {
      IntegralPrefix(s, e, k - 1, w);
      assert (s + [e])[..k - 1] == s[..k - 1];
    }
  }

  /** The time since the last event of the log `p`, if it is busy by then. */
  ghost function BusySince(p: seq<Inc>, t: nat, now: real): real {
    if p == [] then 0.0 else Area(Busy(t).At(p), now - p[|p| - 1].when)
  }

  /** Events of other threads cut the time of a thread into slices, which add up. */
  lemma {:induction false} BusyInOwnLog(tl: seq<Inc>, k: nat, t: nat)
    requires 0 < k <= |tl|
    ensures var p := Picked(tl[..k], OfThread(t));
            Integral(tl, k, Busy(t)) == Integral(p, |p|, Busy(t)) + BusySince(p, t, tl[k - 1].when)
  {
    var e, q := tl[k - 1], Picked(tl[..k - 1], OfThread(t));
    assert tl[..k] == tl[..k - 1] + [e];
    PickedAppend(tl[..k - 1], e, OfThread(t));
    BusyByPicked(tl[..k - 1], t);
    if k > 1 {
      BusyInOwnLog(tl, k - 1, t);
    } else {
      assert tl[..0] == [] && q == [];
    }
    BusyStep(q, e, t, Integral(tl, k - 1, Busy(t)), if k == 1 then e.when else tl[k - 2].when);
  }

  lemma BusyStep(q: seq<Inc>, e: Inc, t: nat, before: real, prev: real)
    requires before == Integral(q, |q|, Busy(t)) + BusySince(q, t, prev)
    ensures before + Area(Busy(t).At(q), e.when - prev) == Integral(q, |q|, Busy(t)) + BusySince(q, t, e.when)
    ensures var p := q + [e]; Integral(p, |p|, Busy(t)) == Integral(q, |q|, Busy(t)) + BusySince(q, t, e.when)
    ensures BusySince(q + [e], t, e.when) == 0.0
  {
    var w := Busy(t).At(q);
    IntegralLast(q, e, Busy(t));
    hide Integral, Weight.At;
    AreaNothing(Busy(t).At(q + [e]));
    if q == [] {
      assert w == 0 by { NothingBusy(t); }
      AreaUnits(e.when - prev);
      AreaUnits(0.0);
    } else {
      AreaJoins(w, prev - q[|q| - 1].when, e.when - prev);
    }
  }

  lemma NothingBusy(t: nat)
    ensures Busy(t).At([]) == 0
  {
  }

  lemma AreaNothing(b: int)
    ensures Area(b, 0.0) == 0.0
  {
  }

  lemma AreaJoins(b: int, x: real, y: real)
    ensures Area(b, x) + Area(b, y) == Area(b, x + y)
  {
  }

  lemma IntegralLast(q: seq<Inc>, e: Inc, w: Weight)
    ensures Integral(q + [e], |q| + 1, w)
            == Integral(q, |q|, w) + Area(w.At(q), if q == [] then 0.0 else e.when - q[|q| - 1].when)
  {
    var p := q + [e];
    assert p[..|q|] == q && |p| == |q| + 1;
    IntegralStep(p, |p|, w);
    hide Integral, Area, Weight.At;
    IntegralPrefix(q, e, |q|, w);
    assert Slice(p, |q|) == if q == [] then 0.0 else e.when - q[|q| - 1].when;
  }

  lemma IntegralStep(tl: seq<Inc>, k: nat, w: Weight)
    requires 0 < k <= |tl|
    ensures Integral(tl, k, w) == Integral(tl, k - 1, w) + Area(w.At(tl[..k - 1]), Slice(tl, k - 1))
  {
  }

  /** With everything left in the end, the time of a thread is that of its own log. */
  lemma BusyIsOwn(tl: seq<Inc>, t: nat)
    requires Balance(tl, OfThread(t)) == 0
    ensures var p := Picked(tl, OfThread(t)); Integral(tl, |tl|, Busy(t)) == Integral(p, |p|, Busy(t))
  {
    if tl == [] {
      NothingPicked(OfThread(t));
    } else {
      var p := Picked(tl, OfThread(t));
      BusyInOwnLog(tl, |tl|, t);
      assert tl[..|tl|] == tl;
      BusyByPicked(tl, t);
      assert Busy(t).At(tl) == 0;
      hide Weight.At, Integral, Picked, Area;
      if p != [] {
        AreaUnits(tl[|tl| - 1].when - p[|p| - 1].when);
      }
    }
  }

  // ---- how the partial sums belong together

  lemma {:induction false} CaseWeightSum(m: nat, s: seq<Inc>)
    ensures WeightSum(m, EachCase, s) == Sum(m, CaseBalance(s))
  {
    if m > 0 {
      CaseWeightSum(m - 1, s);
    }
  }

  /** The cumulated time is the sum of the times of all cases. */
  lemma CaseTimesAddUp(tl: seq<Inc>, cases: nat)
    requires forall i :: 0 <= i < |tl| ==> tl[i].caseID < cases
    ensures Integral(tl, |tl|, Active(All)) == IntegralSum(cases, EachCase, tl, |tl|)
  {
    forall i | 0 <= i < |tl| ensures Active(All).At(tl[..i]) == WeightSum(cases, EachCase, tl[..i]) {
      BalanceByCase(tl[..i], cases);
      CaseWeightSum(cases, tl[..i]);
    }
    IntegralOfSum(tl, |tl|, Active(All), cases, EachCase);
  }

  lemma {:induction false} ConcurrentIsBusy(tl: seq<Inc>, k: nat, n: nat)
    requires Covered(tl) && k <= |tl|
    ensures WeightSum(n, EachThread, tl[..k]) == Concurrent(tl[..k], n)
  {
    if n > 0 {
      ConcurrentIsBusy(tl, k, n - 1);
      CoveredNonNegative(tl, k, OfThread(n - 1));
    }
  }

  /** The time of activity of all threads together is the integral of the concurrency. */
  lemma ThreadTimesAddUp(tl: seq<Inc>, n: nat)
    requires Covered(tl)
    ensures Integral(tl, |tl|, Concurrency(n)) == IntegralSum(n, EachThread, tl, |tl|)
  {
    forall i | 0 <= i < |tl| ensures Concurrency(n).At(tl[..i]) == WeightSum(n, EachThread, tl[..i]) {
      ConcurrentIsBusy(tl, i, n);
    }
    IntegralOfSum(tl, |tl|, Concurrency(n), n, EachThread);
  }

  lemma {:induction false} OneDegree(s: seq<Inc>, n: nat, m: nat)
    ensures WeightSum(m, EachDegree(n), s) == if Concurrent(s, n) < m then 1 else 0
    ensures WeightSum(m, EachDegreeScaled(n), s) == if Concurrent(s, n) < m then Concurrent(s, n) else 0
  {
    if m > 0 {
      OneDegree(s, n, m - 1);
    }
  }

  /** The times at each degree of concurrency cover the whole timeline. */
  lemma ConcurrencyTimesCover(tl: seq<Inc>, n: nat)
    requires tl != []
    ensures IntegralSum(n + 1, EachDegree(n), tl, |tl|) == tl[|tl| - 1].when - tl[0].when
  {
    forall i | 0 <= i < |tl| ensures Elapsed.At(tl[..i]) == WeightSum(n + 1, EachDegree(n), tl[..i]) {
      OneDegree(tl[..i], n, n + 1);
    }
    IntegralOfSum(tl, |tl|, Elapsed, n + 1, EachDegree(n));
    IntegralElapsed(tl, |tl|);
  }

  /** The sum of `j` times the time at concurrency `j`. */
  ghost function DegreeTimes(m: nat, tl: seq<Inc>, k: nat, n: nat): real
    requires k <= |tl|
  {
    if m == 0 then 0.0
    else DegreeTimes(m - 1, tl, k, n) + Times(m - 1, Integral(tl, k, AtConcurrency(n, m - 1)))
  }

  lemma {:induction false} DegreeTimesAreScaled(m: nat, tl: seq<Inc>, k: nat, n: nat)
    requires k <= |tl|
    ensures IntegralSum(m, EachDegreeScaled(n), tl, k) == DegreeTimes(m, tl, k, n)
  {
    if m > 0 {
      DegreeTimesAreScaled(m - 1, tl, k, n);
      IntegralScaled(tl, k, n, m - 1);
    }
  }

  /** Weighted by their degree, they add up to the integral of the concurrency. */
  lemma ConcurrencyTimesWeighted(tl: seq<Inc>, n: nat)
    ensures DegreeTimes(n + 1, tl, |tl|, n) == Integral(tl, |tl|, Concurrency(n))
  {
    forall i | 0 <= i < |tl| ensures Concurrency(n).At(tl[..i]) == WeightSum(n + 1, EachDegreeScaled(n), tl[..i]) {
      OneDegree(tl[..i], n, n + 1);
    }
    IntegralOfSum(tl, |tl|, Concurrency(n), n + 1, EachDegreeScaled(n));
    DegreeTimesAreScaled(n + 1, tl, |tl|, n);
  }

  /** Active time as leave times less enter times, where what is still active counts up to the last event. */
  ghost function ActiveTime(tl: seq<Inc>, sel: Selector): real
    requires tl != []
  {
    LeaveTimes(tl, sel) - EnterTimes(tl, sel) + Area(Balance(tl, sel), tl[|tl| - 1].when)
  }

  lemma TimeByParts(tl: seq<Inc>, sel: Selector)
    requires tl != []
    ensures Integral(tl, |tl|, Active(sel)) == ActiveTime(tl, sel)
  {
    assert tl[..|tl|] == tl;
    IntegralByParts(tl, |tl|, sel);
  }

  /** With everything left in the end, active time is leave times less enter times. */
  lemma BalancedTime(tl: seq<Inc>, sel: Selector)
    requires tl != [] && Balance(tl, sel) == 0
    ensures ActiveTime(tl, sel) == LeaveTimes(tl, sel) - EnterTimes(tl, sel)
  {
    AreaUnits(tl[|tl| - 1].when);
  }

  lemma SliceNonNegative(tl: seq<Inc>, k: nat)
    requires Ordered(tl) && k < |tl|
    ensures 0.0 <= Slice(tl, k)
  {
  }

  lemma BoundStep(n: nat, c: nat, y: real, e: real, x: real)
    requires 0.0 <= y <= Times(n, e) && c <= n && 0.0 <= x
    ensures 0.0 <= y + Area(c, x) <= Times(n, e + x)
  {
    Distribute(c, n - c, x);
    assert 0.0 <= Area(c, x) && 0.0 <= Area(n - c, x);
    assert Times(n, e + x) == Times(n, e) + Area(n, x);
  }

  /** The concurrency never exceeds the number of threads, and neither does its integral. */
  lemma {:induction false} IntegralBounded(tl: seq<Inc>, k: nat, n: nat)
    requires k <= |tl| && Ordered(tl)
    ensures 0.0 <= Integral(tl, k, Concurrency(n)) <= Times(n, Integral(tl, k, Elapsed))
  {
    hide Ordered, Slice, Concurrent, Times, Area;
    TimesZero(n);
    if k > 0 {
      IntegralBounded(tl, k - 1, n);
      SliceNonNegative(tl, k - 1);
      AreaUnits(Slice(tl, k - 1));
      BoundStep(n, Concurrent(tl[..k - 1], n), Integral(tl, k - 1, Concurrency(n)),
                Integral(tl, k - 1, Elapsed), Slice(tl, k - 1));
    }
  }

  lemma ConcurrencyBound(tl: seq<Inc>, n: nat)
    requires tl != [] && Ordered(tl)
    ensures 0.0 <= Integral(tl, |tl|, Concurrency(n)) <= Times(n, tl[|tl| - 1].when - tl[0].when)
  {
    hide Times, Area;
    IntegralElapsed(tl, |tl|);
    IntegralBounded(tl, |tl|, n);
  }
}
