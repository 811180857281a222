/**
  Recording of concurrent activations, and the statistics evaluated from the records.
*/
module IncidenceCount {
  import opened IncidenceTimeline
  import opened IncidenceIntegrals

  datatype Option<+T> = None | Some(value: T)

  /** The average is missing (not a number) when no time is covered. */
  datatype Statistic = Statistic(
    eventCnt: nat,
    activationCnt: nat,
    cumulatedTime: real,
    activeTime: real,
    coveredTime: real,
    avgConcurrency: Option<real>,
    caseCntr: seq<nat>,
    thrdCntr: seq<nat>,
    caseTime: seq<real>,
    thrdTime: seq<real>,
    concTime: seq<real>)

  const NO_STATISTIC := Statistic(0, 0, 0.0, 0.0, 0.0, Some(0.0), [], [], [], [], [])

  /** The running counters and partial sums of the evaluation. */
  datatype Tally = Tally(
    active: int,
    activeCase: seq<int>,
    activeThrd: seq<int>,
    activationCnt: nat,
    caseCntr: seq<nat>,
    thrdCntr: seq<nat>,
    cumulatedTime: real,
    concurrencyTime: real,
    caseTime: seq<real>,
    thrdTime: seq<real>,
    concTime: seq<real>)

  /** The number of enter events picked. */
  function Enters(s: seq<Inc>, sel: Selector): nat {
    if s == [] then 0
    else var e := s[|s| - 1];
         Enters(s[..|s| - 1], sel) + if sel.Picks(e) && !e.isLeave then 1 else 0
  }

  /** The counters stand for the events in `s`. */
  ghost predicate Counts(y: Tally, s: seq<Inc>, n: nat) {
    && y.active == Balance(s, All) && y.activationCnt == Enters(s, All)
    && |y.activeCase| == |y.caseCntr| && |y.activeThrd| == |y.thrdCntr| == n
    && (forall c :: 0 <= c < |y.activeCase| ==>
          y.activeCase[c] == Balance(s, OfCase(c)) && y.caseCntr[c] == Enters(s, OfCase(c)))
    && (forall t :: 0 <= t < n ==>
          y.activeThrd[t] == Balance(s, OfThread(t)) && y.thrdCntr[t] == Enters(s, OfThread(t)))
  }

  /** The partial sums are the integrals up to event `k - 1`. */
  ghost predicate Sums(y: Tally, tl: seq<Inc>, k: nat, n: nat)
    requires k <= |tl|
  {
    && y.cumulatedTime == Integral(tl, k, Active(All))
    && y.concurrencyTime == Integral(tl, k, Concurrency(n))
    && |y.caseTime| == |y.caseCntr| && |y.thrdTime| == n && |y.concTime| == n + 1
    && (forall c :: 0 <= c < |y.caseTime| ==> y.caseTime[c] == Integral(tl, k, Active(OfCase(c))))
    && (forall t :: 0 <= t < n ==> y.thrdTime[t] == Integral(tl, k, Busy(t)))
    && (forall j :: 0 <= j <= n ==> y.concTime[j] == Integral(tl, k, AtConcurrency(n, j)))
  }

  function Zeros<T>(n: nat, zero: T): (s: seq<T>)
    ensures |s| == n && forall i :: 0 <= i < n ==> s[i] == zero
  {
    seq(n, _ => zero)
  }

  /** Make room for a further case. */
  method Widen(y: Tally, caseID: nat, ghost tl: seq<Inc>, ghost k: nat, ghost n: nat) returns (w: Tally)
    requires k < |tl| && caseID == tl[k].caseID && Counts(y, tl[..k], n) && Sums(y, tl, k, n)
    requires |y.caseCntr| == Cases(tl[..k])
    ensures Counts(w, tl[..k], n) && Sums(w, tl, k, n) && |w.caseCntr| == Cases(tl[..k + 1])
  {
    w := y;
    assert tl[..k + 1][..k] == tl[..k];
    if |y.caseCntr| <= caseID {
      var more := caseID + 1 - |y.caseCntr|;
      w := y.(activeCase := y.activeCase + Zeros(more, 0),
              caseCntr := y.caseCntr + Zeros(more, 0),
              caseTime := y.caseTime + Zeros(more, 0.0));
      forall c: nat | |y.caseCntr| <= c
        ensures Balance(tl[..k], OfCase(c)) == 0 && Enters(tl[..k], OfCase(c)) == 0
        ensures Integral(tl, k, Active(OfCase(c))) == 0.0
      {
        UnseenCase(tl, k, c);
      }
    }
  }

  lemma UnseenCase(tl: seq<Inc>, k: nat, c: nat)
    requires k <= |tl| && Cases(tl[..k]) <= c
    ensures Balance(tl[..k], OfCase(c)) == 0 && Enters(tl[..k], OfCase(c)) == 0
    ensures Integral(tl, k, Active(OfCase(c))) == 0.0
  {
    assert forall i :: 0 <= i < k ==> tl[i] == tl[..k][i];
    BalanceUnseen(tl[..k], c);
    EntersUnseen(tl[..k], c);
    IntegralUnseen(tl, k, c);
  }

  lemma {:induction false} EntersUnseen(s: seq<Inc>, c: nat)
    requires forall i :: 0 <= i < |s| ==> s[i].caseID != c
    ensures Enters(s, OfCase(c)) == 0
  {
    if s != [] {
      EntersUnseen(s[..|s| - 1], c);
    }
  }

  /** Book a slice of time into the partial sums, weighted by what is active. */
  method BookEach(sums: seq<real>, active: seq<int>, slice: real) returns (r: seq<real>)
    requires |sums| == |active|
    ensures |r| == |sums| && forall i :: 0 <= i < |r| ==> r[i] == sums[i] + Area(active[i], slice)
  {
    r := sums;
    var i := 0;
    while i < |sums|
      invariant i <= |sums| == |r|
      invariant forall j :: 0 <= j < |r| ==> r[j] == if j < i then sums[j] + Area(active[j], slice) else sums[j]
    {
      r := r[i := r[i] + Area(active[i], slice)];
      i := i + 1;
    }
  }

  /** Book it once for each thread that is active at all, without counting overlapping cases. */
  method BookBusy(sums: seq<real>, active: seq<int>, slice: real) returns (r: seq<real>)
    requires |sums| == |active|
    ensures |r| == |sums| && forall i :: 0 <= i < |r| ==> r[i] == sums[i] + Area(if active[i] != 0 then 1 else 0, slice)
  {
    r := sums;
    var i := 0;
    while i < |sums|
      invariant i <= |sums| == |r|
      invariant forall j :: 0 <= j < |r| ==>
                  r[j] == if j < i then sums[j] + Area(if active[j] != 0 then 1 else 0, slice) else sums[j]
    {
      AreaUnits(slice);
      if active[i] != 0 {
        r := r[i := r[i] + slice];
      }
      i := i + 1;
    }
  }

  method CountActive(active: seq<int>, ghost s: seq<Inc>) returns (concurr: nat)
    requires forall t :: 0 <= t < |active| ==> active[t] == Balance(s, OfThread(t))
    ensures concurr == Concurrent(s, |active|)
  {
    concurr := 0;
    var i := 0;
    while i < |active|
      invariant i <= |active| && concurr == Concurrent(s, i)
    {
      if 0 < active[i] {
        concurr := concurr + 1;
      }
      i := i + 1;
    }
  }

  /** Book the time since the preceding event into all partial sums. */
  method BookSlice(y: Tally, slice: real, ghost tl: seq<Inc>, ghost k: nat, n: nat) returns (w: Tally)
    requires k < |tl| && slice == Slice(tl, k) && Counts(y, tl[..k], n) && Sums(y, tl, k, n)
    ensures Counts(w, tl[..k], n) && Sums(w, tl, k + 1, n) && w.caseCntr == y.caseCntr
  {
    hide Area, Slice;
    var concurr := CountActive(y.activeThrd, tl[..k]);
    var caseTime := BookEach(y.caseTime, y.activeCase, slice);
    var thrdTime := BookBusy(y.thrdTime, y.activeThrd, slice);
    AreaUnits(slice);
    w := y.(cumulatedTime := y.cumulatedTime + Area(y.active, slice),
            caseTime := caseTime,
            thrdTime := thrdTime,
            concurrencyTime := y.concurrencyTime + Area(concurr, slice),
            concTime := y.concTime[concurr := y.concTime[concurr] + slice]);
    BookedSums(y, w, tl, k, n);
  }

  lemma BookedSums(y: Tally, w: Tally, tl: seq<Inc>, k: nat, n: nat)
    requires k < |tl| && Counts(y, tl[..k], n) && Sums(y, tl, k, n)
    requires w.caseCntr == y.caseCntr && w.cumulatedTime == y.cumulatedTime + Area(y.active, Slice(tl, k))
    requires w.concurrencyTime == y.concurrencyTime + Area(Concurrent(tl[..k], n), Slice(tl, k))
    requires |w.caseTime| == |y.caseTime| && |w.thrdTime| == |y.thrdTime| && |w.concTime| == |y.concTime|
    requires forall c :: 0 <= c < |y.caseTime| ==> w.caseTime[c] == y.caseTime[c] + Area(y.activeCase[c], Slice(tl, k))
    requires forall t :: 0 <= t < n ==>
               w.thrdTime[t] == y.thrdTime[t] + Area(if y.activeThrd[t] != 0 then 1 else 0, Slice(tl, k))
    requires forall j :: 0 <= j <= n ==>
               w.concTime[j] == if j == Concurrent(tl[..k], n) then y.concTime[j] + Slice(tl, k) else y.concTime[j]
    ensures Sums(w, tl, k + 1, n)
  {
    hide Area, Slice;
    AreaUnits(Slice(tl, k));
  }

  /** Adjust the counters in accordance with an event, asserting that those to be decremented are positive. */
  method Adjust(y: Tally, e: Inc, ghost tl: seq<Inc>, ghost k: nat, ghost n: nat) returns (ok: bool, w: Tally)
    requires k < |tl| && e == tl[k] && InThreads(tl, n)
    requires Counts(y, tl[..k], n) && Sums(y, tl, k + 1, n) && e.caseID < |y.caseCntr|
    ensures ok <==> CoveredAt(tl, k)
    ensures ok ==> Counts(w, tl[..k + 1], n) && Sums(w, tl, k + 1, n) && |w.caseCntr| == |y.caseCntr|
  {
    assert tl[..k + 1][..k] == tl[..k];
    ok, w := true, y;
    if e.isLeave {
      if !(0 < y.active && 0 < y.activeCase[e.caseID] && 0 < y.activeThrd[e.thread]) {
        return false, y;
      }
      w := y.(active := y.active - 1,
              activeCase := y.activeCase[e.caseID := y.activeCase[e.caseID] - 1],
              activeThrd := y.activeThrd[e.thread := y.activeThrd[e.thread] - 1]);
    } else {
      w := y.(active := y.active + 1,
              activeCase := y.activeCase[e.caseID := y.activeCase[e.caseID] + 1],
              activeThrd := y.activeThrd[e.thread := y.activeThrd[e.thread] + 1],
              caseCntr := y.caseCntr[e.caseID := y.caseCntr[e.caseID] + 1],
              thrdCntr := y.thrdCntr[e.thread := y.thrdCntr[e.thread] + 1],
              activationCnt := y.activationCnt + 1);
    }
  }

  // ---- the evaluation

  function SumOf(s: seq<real>): real {
    if s == [] then 0.0 else SumOf(s[..|s| - 1]) + s[|s| - 1]
  }

  /** Each element times its index. */
  function IndexWeighted(s: seq<real>): real {
    if s == [] then 0.0 else IndexWeighted(s[..|s| - 1]) + Times(|s| - 1, s[|s| - 1])
  }

  method ResultSum(s: seq<real>) returns (sum: real)
    ensures sum == SumOf(s)
  {
    sum := 0.0;
    var i := 0;
    while i < |s|
      invariant i <= |s| && sum == SumOf(s[..i])
    {
      assert s[..i + 1][..i] == s[..i];
      sum := sum + s[i];
      i := i + 1;
    }
    assert s[..i] == s;
  }

  lemma {:induction false} SumIsIntegralSum(s: seq<real>, f: Family, tl: seq<Inc>, k: nat)
    requires k <= |tl| && forall i :: 0 <= i < |s| ==> s[i] == Integral(tl, k, f.Member(i))
    ensures SumOf(s) == IntegralSum(|s|, f, tl, k)
  {
    if s != [] {
      SumIsIntegralSum(s[..|s| - 1], f, tl, k);
    }
  }

  lemma {:induction false} WeightedIsDegreeTimes(s: seq<real>, tl: seq<Inc>, k: nat, n: nat)
    requires k <= |tl| && forall j :: 0 <= j < |s| ==> s[j] == Integral(tl, k, AtConcurrency(n, j))
    ensures IndexWeighted(s) == DegreeTimes(|s|, tl, k, n)
  {
    if s != [] {
      WeightedIsDegreeTimes(s[..|s| - 1], tl, k, n);
    }
  }

  /** Whatever is picked enters or leaves. */
  lemma {:induction false} EntersAndLeaves(s: seq<Inc>, sel: Selector)
    ensures 2 * Enters(s, sel) == |Picked(s, sel)| + Balance(s, sel)
  {
    if s != [] {
      EntersAndLeaves(s[..|s| - 1], sel);
    }
  }

  function CaseEnters(s: seq<Inc>): nat -> int {
    (c: nat) => Enters(s, OfCase(c))
  }

  function ThreadEnters(s: seq<Inc>): nat -> int {
    (t: nat) => Enters(s, OfThread(t))
  }

  /** All activations are the sum over the cases, and over the threads. */
  lemma {:induction false} EntersAddUp(s: seq<Inc>, cases: nat, threads: nat)
    requires forall i :: 0 <= i < |s| ==> s[i].caseID < cases && s[i].thread < threads
    ensures Enters(s, All) == Sum(cases, CaseEnters(s)) == Sum(threads, ThreadEnters(s))
  {
    if s == [] {
      SumZero(cases, CaseEnters(s));
      SumZero(threads, ThreadEnters(s));
    } else {
      var front, e := s[..|s| - 1], s[|s| - 1];
      EntersAddUp(front, cases, threads);
      var d := if e.isLeave then 0 else 1;
      SumOne(cases, CaseEnters(front), CaseEnters(s), e.caseID, d);
      SumOne(threads, ThreadEnters(front), ThreadEnters(s), e.thread, d);
    }
  }

  function Total(s: seq<nat>): nat {
    if s == [] then 0 else Total(s[..|s| - 1]) + s[|s| - 1]
  }

  lemma {:induction false} TotalIsSum(s: seq<nat>, f: nat -> int)
    requires forall i :: 0 <= i < |s| ==> s[i] == f(i)
    ensures Total(s) == Sum(|s|, f)
  {
    if s != [] {
      TotalIsSum(s[..|s| - 1], f);
    }
  }

  /** All events of all threads in the order of time. */
  function Timeline(rec: seq<seq<Inc>>): seq<Inc> {
    StableSorted(Joined(rec))
  }

  ghost predicate CountsConsistent(stat: Statistic, tl: seq<Inc>, n: nat) {
    && stat.eventCnt == |tl| && stat.activationCnt == Enters(tl, All) && 0 < stat.activationCnt
    && |stat.caseCntr| == |stat.caseTime| == Cases(tl)
    && |stat.thrdCntr| == |stat.thrdTime| == n && |stat.concTime| == n + 1
    && (forall c :: 0 <= c < Cases(tl) ==> stat.caseCntr[c] == Enters(tl, OfCase(c)))
    && (forall t :: 0 <= t < n ==> stat.thrdCntr[t] == Enters(tl, OfThread(t)))
  }

  /** Each activation counts for one case and one thread; of the events of each, half the excess over what is open. */
  ghost predicate ActivationsConsistent(stat: Statistic, tl: seq<Inc>) {
    && Total(stat.caseCntr) == Total(stat.thrdCntr) == stat.activationCnt
    && (forall c :: 0 <= c < |stat.caseCntr| ==>
          2 * stat.caseCntr[c] == |Picked(tl, OfCase(c))| + Balance(tl, OfCase(c)))
    && (forall t :: 0 <= t < |stat.thrdCntr| ==>
          2 * stat.thrdCntr[t] == |Picked(tl, OfThread(t))| + Balance(tl, OfThread(t)))
  }

  /** The times of all cases: leave times less enter times, and together the cumulated time. */
  ghost predicate CaseTimesConsistent(stat: Statistic, tl: seq<Inc>)
    requires tl != []
  {
    && stat.cumulatedTime == ActiveTime(tl, All)
    && (forall c :: 0 <= c < |stat.caseTime| ==> stat.caseTime[c] == ActiveTime(tl, OfCase(c)))
    && SumOf(stat.caseTime) == stat.cumulatedTime
  }

  /** The times of the threads and of the degrees of concurrency. */
  ghost predicate ThreadTimesConsistent(stat: Statistic, tl: seq<Inc>, n: nat)
    requires tl != []
  {
    && stat.coveredTime == tl[|tl| - 1].when - tl[0].when
    && (forall t :: 0 <= t < |stat.thrdTime| ==> stat.thrdTime[t] == Integral(tl, |tl|, Busy(t)))
    && (forall j :: 0 <= j < |stat.concTime| ==> stat.concTime[j] == Integral(tl, |tl|, AtConcurrency(n, j)))
    && SumOf(stat.concTime) == stat.coveredTime
    && SumOf(stat.thrdTime) == stat.activeTime == IndexWeighted(stat.concTime)
    && 0.0 <= stat.activeTime <= Times(n, stat.coveredTime)
  }

  ghost predicate AverageConsistent(stat: Statistic) {
    && (stat.avgConcurrency.None? <==> stat.coveredTime == 0.0)
    && (stat.avgConcurrency.Some? ==> stat.avgConcurrency.value * stat.coveredTime == stat.activeTime)
  }

  /** What the evaluation promises about its result. */
  ghost predicate Consistent(stat: Statistic, rec: seq<seq<Inc>>) {
    var tl := Timeline(rec);
    && tl != []
    && CountsConsistent(stat, tl, |rec|) && ActivationsConsistent(stat, tl) && CaseTimesConsistent(stat, tl)
    && ThreadTimesConsistent(stat, tl, |rec|) && AverageConsistent(stat)
  }

  lemma ActivationsAddUp(stat: Statistic, tl: seq<Inc>, n: nat)
    requires CountsConsistent(stat, tl, n) && InThreads(tl, n)
    ensures ActivationsConsistent(stat, tl)
  {
    hide Picked, Balance, Enters;
    EntersAddUp(tl, Cases(tl), n);
    TotalIsSum(stat.caseCntr, CaseEnters(tl));
    TotalIsSum(stat.thrdCntr, ThreadEnters(tl));
    forall c | 0 <= c < |stat.caseCntr|
      ensures 2 * stat.caseCntr[c] == |Picked(tl, OfCase(c))| + Balance(tl, OfCase(c))
    {
      EntersAndLeaves(tl, OfCase(c));
    }
    forall t | 0 <= t < |stat.thrdCntr|
      ensures 2 * stat.thrdCntr[t] == |Picked(tl, OfThread(t))| + Balance(tl, OfThread(t))
    {
      EntersAndLeaves(tl, OfThread(t));
    }
  }

  lemma CasesEvaluated(y: Tally, tl: seq<Inc>, n: nat)
    requires Covered(tl) && tl != []
    requires Counts(y, tl, n) && Sums(y, tl, |tl|, n) && |y.caseCntr| == Cases(tl)
    ensures y.activationCnt == Enters(tl, All)
    ensures y.cumulatedTime == ActiveTime(tl, All) == SumOf(y.caseTime)
    ensures forall c :: 0 <= c < Cases(tl) ==> y.caseTime[c] == ActiveTime(tl, OfCase(c))
  {
    hide Integral, ActiveTime, Covered;
    var k := |tl|;
    TimeByParts(tl, All);
    forall c: nat | c < Cases(tl) ensures y.caseTime[c] == ActiveTime(tl, OfCase(c)) {
      TimeByParts(tl, OfCase(c));
    }
    CaseTimesAddUp(tl, Cases(tl));
    SumIsIntegralSum(y.caseTime, EachCase, tl, k);
  }

  lemma ThreadsEvaluated(y: Tally, tl: seq<Inc>, n: nat)
    requires Covered(tl) && tl != [] && Ordered(tl)
    requires |y.caseTime| == |y.caseCntr| && Sums(y, tl, |tl|, n)
    ensures SumOf(y.concTime) == tl[|tl| - 1].when - tl[0].when
    ensures SumOf(y.thrdTime) == y.concurrencyTime == IndexWeighted(y.concTime)
    ensures 0.0 <= y.concurrencyTime <= Times(n, tl[|tl| - 1].when - tl[0].when)
  {
    hide Covered, Integral, Ordered, Times;
    var k := |tl|;
    ThreadTimesAddUp(tl, n);
    SumIsIntegralSum(y.thrdTime, EachThread, tl, k);
    ConcurrencyTimesCover(tl, n);
    SumIsIntegralSum(y.concTime, EachDegree(n), tl, k);
    ConcurrencyTimesWeighted(tl, n);
    WeightedIsDegreeTimes(y.concTime, tl, k, n);
    ConcurrencyBound(tl, n);
  }

  /** With the leaves covered, the first event enters. */
  lemma SomethingEntered(tl: seq<Inc>)
    requires Covered(tl) && tl != []
    ensures 0 < Enters(tl, All)
  {
    assert CoveredAt(tl, 0);
    assert tl[..0] == [];
    EntersMonotone(tl, 1);
    assert tl[..1][..0] == [];
  }

  lemma {:induction false} EntersMonotone(tl: seq<Inc>, k: nat)
    requires k <= |tl|
    ensures Enters(tl[..k], All) <= Enters(tl, All)
    decreases |tl| - k
  {
    if k < |tl| {
      assert tl[..k + 1][..k] == tl[..k];
      EntersMonotone(tl, k + 1);
    } else {
      assert tl[..k] == tl;
    }
  }

  /** The result put together from the final tally. */
  function ResultOf(y: Tally, tl: seq<Inc>, active: real): Statistic
    requires tl != []
  {
    var covered := tl[|tl| - 1].when - tl[0].when;
    Statistic(|tl|, y.activationCnt, y.cumulatedTime, active, covered,
              if covered == 0.0 then None else Some(y.concurrencyTime / covered),
              y.caseCntr, y.thrdCntr, y.caseTime, y.thrdTime, y.concTime)
  }

  lemma QuotientTimes(a: real, b: real)
    requires b != 0.0
    ensures (a / b) * b == a
  {
  }

  lemma ResultIsConsistent(y: Tally, tl: seq<Inc>, rec: seq<seq<Inc>>)
    requires Covered(tl) && Ordered(tl) && InThreads(tl, |rec|) && tl == Timeline(rec) != []
    requires Counts(y, tl, |rec|) && Sums(y, tl, |tl|, |rec|) && |y.caseCntr| == Cases(tl)
    ensures Consistent(ResultOf(y, tl, SumOf(y.thrdTime)), rec)
  {
    hide Covered, Integral, Ordered, Times, ActiveTime, SumOf, IndexWeighted, StableSorted, Timeline;
    hide ActivationsConsistent, Enters, Balance, Cases, InThreads;
    CasesEvaluated(y, tl, |rec|);
    ThreadsEvaluated(y, tl, |rec|);
    SomethingEntered(tl);
    var covered := tl[|tl| - 1].when - tl[0].when;
    if covered != 0.0 {
      QuotientTimes(y.concurrencyTime, covered);
    }
    ActivationsAddUp(ResultOf(y, tl, SumOf(y.thrdTime)), tl, |rec|);
  }

  lemma BracketedCounts(tl: seq<Inc>, rec: seq<seq<Inc>>)
    requires LogsOk(rec) && Merged(tl, rec)
    ensures forall c: nat :: |Picked(tl, OfCase(c))| == 2 * Enters(tl, OfCase(c))
    ensures forall t: nat :: t < |rec| ==>
              && |rec[t]| == 2 * Enters(tl, OfThread(t))
              && Integral(tl, |tl|, Busy(t)) == Integral(rec[t], |rec[t]|, Busy(t))
  {
    BracketedIsCovered(tl, rec);
    forall c: nat ensures |Picked(tl, OfCase(c))| == 2 * Enters(tl, OfCase(c)) {
      EntersAndLeaves(tl, OfCase(c));
    }
    forall t: nat | t < |rec|
      ensures |rec[t]| == 2 * Enters(tl, OfThread(t))
      ensures Integral(tl, |tl|, Busy(t)) == Integral(rec[t], |rec[t]|, Busy(t))
    {
      assert tl[..|tl|] == tl && Picked(tl, OfThread(t)) == rec[t];
      hide LogsOk, Merged, Integral, Balance, Picked;
      EntersAndLeaves(tl, OfThread(t));
      ThreadNonNegative(tl, rec, |tl|, t);
      BusyIsOwn(tl, t);
    }
  }

  /**
    For properly bracketed logs all assertions hold, half of the events are activations, of each case and thread as
    well, the times of the cases are leave times less enter times, and the time of a thread is that of its own log.
  */
  lemma BracketedIsEvaluated(rec: seq<seq<Inc>>)
    requires LogsOk(rec)
    ensures var tl := Timeline(rec);
            && Covered(tl) && |tl| == 2 * Enters(tl, All)
            && (forall c: nat :: |Picked(tl, OfCase(c))| == 2 * Enters(tl, OfCase(c)))
            && (forall t: nat :: t < |rec| ==>
                  && |rec[t]| == 2 * Enters(tl, OfThread(t))
                  && Integral(tl, |tl|, Busy(t)) == Integral(rec[t], |rec[t]|, Busy(t)))
            && (tl != [] ==> ActiveTime(tl, All) == LeaveTimes(tl, All) - EnterTimes(tl, All))
            && (tl != [] ==> forall c: nat ::
                  ActiveTime(tl, OfCase(c)) == LeaveTimes(tl, OfCase(c)) - EnterTimes(tl, OfCase(c)))
  {
    hide ActiveTime, Merged, LogsOk, Covered, LeaveTimes, EnterTimes;
    var tl := Timeline(rec);
    SortMerges(rec);
    BracketedIsCovered(tl, rec);
    EntersAndLeaves(tl, All);
    PickedAllOrNone(tl, All);
    BracketedCounts(tl, rec);
    if tl != [] {
      BalancedTime(tl, All);
      forall c: nat ensures ActiveTime(tl, OfCase(c)) == LeaveTimes(tl, OfCase(c)) - EnterTimes(tl, OfCase(c)) {
        BalancedTime(tl, OfCase(c));
      }
    }
  }

  lemma SweepStart(y: Tally, tl: seq<Inc>, n: nat)
    requires y == Tally(0, [], Zeros(n, 0), 0, [], Zeros(n, 0), 0.0, 0.0, [], Zeros(n, 0.0), Zeros(n + 1, 0.0))
    ensures Counts(y, tl[..0], n) && Sums(y, tl, 0, n) && Cases(tl[..0]) == 0
  {
    assert tl[..0] == [];
  }

  lemma SliceIs(tl: seq<Inc>, k: nat)
    requires k < |tl|
    ensures Slice(tl, k) == tl[k].when - if k == 0 then tl[0].when else tl[k - 1].when
  {
  }

  lemma CaseInRange(tl: seq<Inc>, k: nat)
    requires k < |tl|
    ensures tl[k].caseID < Cases(tl[..k + 1])
  {
    assert tl[..k + 1][k] == tl[k];
  }

  class IncidenceCount {
    /** one log for each thread */
    var rec: seq<seq<Inc>>

    constructor ()
      ensures rec == []
    {
      rec := [];
    }

    /** Make room for the log of a thread. */
    method EnsureSequence(threadID: nat)
      modifies this
      ensures |rec| == if threadID < |old(rec)| then |old(rec)| else threadID + 1
      ensures forall t :: 0 <= t < |rec| ==> rec[t] == if t < |old(rec)| then old(rec)[t] else []
    {
      var i := |rec|;
      while i < threadID + 1
        invariant |rec| == i && |old(rec)| <= i && (i <= threadID + 1 || i == |old(rec)|)
        invariant forall t :: 0 <= t < |rec| ==> rec[t] == if t < |old(rec)| then old(rec)[t] else []
      {
        rec := rec + [[]];
        i := i + 1;
      }
    }

    /** Record an event at the current time, which a steady clock never turns back. */
    method AddEntry(threadID: nat, caseID: nat, isLeave: bool, now: real)
      requires forall t, i :: 0 <= t < |rec| && 0 <= i < |rec[t]| ==> rec[t][i].thread == t && rec[t][i].when <= now
      requires forall t :: 0 <= t < |rec| ==> Ordered(rec[t])
      modifies this
      ensures threadID < |rec|
      ensures forall t :: 0 <= t < |rec| ==>
                rec[t] == (if t < |old(rec)| then old(rec)[t] else [])
                          + (if t == threadID then [Inc(now, threadID, caseID, isLeave)] else [])
      ensures forall t, i :: 0 <= t < |rec| && 0 <= i < |rec[t]| ==> rec[t][i].thread == t && rec[t][i].when <= now
      ensures forall t :: 0 <= t < |rec| ==> Ordered(rec[t])
    {
      EnsureSequence(threadID);
      rec := rec[threadID := rec[threadID] + [Inc(now, threadID, caseID, isLeave)]];
    }

    /** Append all logs, one after the other. */
    method JoinAll() returns (timeline: seq<Inc>)
      ensures timeline == Joined(rec)
    {
      timeline := [];
      var i := 0;
      while i < |rec|
        invariant i <= |rec| && timeline == Joined(rec[..i])
      {
        assert rec[..i + 1][..i] == rec[..i];
        timeline := timeline + rec[i];
        i := i + 1;
      }
      assert rec[..i] == rec;
    }

    /** Integrate over the unified timeline, until an assertion fails. */
    method Sweep(tl: seq<Inc>) returns (ok: bool, y: Tally)
      requires tl != [] && InThreads(tl, |rec|)
      ensures ok <==> Covered(tl)
      ensures ok ==> Counts(y, tl, |rec|) && Sums(y, tl, |tl|, |rec|) && |y.caseCntr| == Cases(tl)
    {
      hide Counts, Sums, Slice, CoveredAt;
      var n := |rec|;
      y := Tally(0, [], Zeros(n, 0), 0, [], Zeros(n, 0), 0.0, 0.0, [], Zeros(n, 0.0), Zeros(n + 1, 0.0));
      SweepStart(y, tl, n);
      var prev := tl[0].when;
      var k := 0;
      while k < |tl|
        invariant k <= |tl| && Counts(y, tl[..k], n) && Sums(y, tl, k, n) && |y.caseCntr| == Cases(tl[..k])
        invariant prev == if k == 0 then tl[0].when else tl[k - 1].when
        invariant forall i :: 0 <= i < k ==> CoveredAt(tl, i)
      {
        var event := tl[k];
        SliceIs(tl, k);
        y := Widen(y, event.caseID, tl, k, n);
        y := BookSlice(y, event.when - prev, tl, k, n);
        CaseInRange(tl, k);
        ok, y := Adjust(y, event, tl, k, n);
        if !ok {
          return;
        }
        prev := event.when;
        k := k + 1;
      }
      assert tl[..k] == tl;
      ok := true;
    }

    /**
      Visit all data captured thus far, construct a unified timeline and compute the statistics. An assertion fails
      exactly if some leave is not covered, or the number of events is odd.
    */
    method Evaluate() returns (ok: bool, stat: Statistic)
      requires OwnThreads(rec)
      ensures Joined(rec) == [] ==> ok && stat == NO_STATISTIC
      ensures Joined(rec) != [] ==> (ok <==> Covered(Timeline(rec)) && |Timeline(rec)| % 2 == 0)
      ensures Joined(rec) != [] && ok ==> Consistent(stat, rec)
    {
      stat := NO_STATISTIC;
      var timeline := JoinAll();
      if timeline == [] {
        return true, stat;
      }
      hide Counts, Sums, Covered, Consistent, Joined, OwnThreads, InThreads, Ordered, Integral, Concurrent, Weight.At;
      SortedOrdered(timeline);
      SortedThreads(rec);
      timeline := StableSorted(timeline);
      var y;
      ok, y := Sweep(timeline);
      if !ok {
        return;
      }
      var active := ResultSum(y.thrdTime);
      ResultIsConsistent(y, timeline, rec);
      stat := ResultOf(y, timeline, active);
      EntersCounted(y, timeline, |rec|);
      ok := 0 < stat.activationCnt && stat.eventCnt % 2 == 0;
    }

    lemma EntersCounted(y: Tally, tl: seq<Inc>, n: nat)
      requires Covered(tl) && tl != [] && Counts(y, tl, n)
      ensures 0 < y.activationCnt
    {
      SomethingEntered(tl);
    }
  }
}
