/**
  Timelines of enter and leave events, merged from the logs of several threads: ordering,
  counters of activity, and integrals over them.
*/
module IncidenceTimeline {

  datatype Inc = Inc(when: real, thread: nat, caseID: nat, isLeave: bool)

  /** Which events to look at. */
  datatype Selector = All | OfCase(c: nat) | OfThread(t: nat) | AtTime(w: real) {
    predicate Picks(e: Inc) {
      match this
      case All => true
      case AtTime(w) => e.when == w
      case OfCase(c) => e.caseID == c
      case OfThread(t) => e.thread == t
    }
  }

  ghost predicate Ordered(s: seq<Inc>) {
    forall i, j :: 0 <= i < j < |s| ==> s[i].when <= s[j].when
  }

  // ---- stable sorting by time

  /** Insert behind everything that is not later. */
  function Insert(s: seq<Inc>, e: Inc): (r: seq<Inc>)
    ensures |r| == |s| + 1 && multiset(r) == multiset(s) + multiset{e}
  {
    if s == [] || s[|s| - 1].when <= e.when then s + [e]
    else
      assert s == s[..|s| - 1] + [s[|s| - 1]];
      Insert(s[..|s| - 1], e) + [s[|s| - 1]]
  }

  /** What `std::stable_sort` yields when comparing by time. */
  function StableSorted(s: seq<Inc>): (r: seq<Inc>)
    ensures |r| == |s| && multiset(r) == multiset(s)
  {
    if s == [] then []
    else
      assert s == s[..|s| - 1] + [s[|s| - 1]];
      Insert(StableSorted(s[..|s| - 1]), s[|s| - 1])
  }

  lemma AppendOrdered(s: seq<Inc>, e: Inc)
    requires Ordered(s) && forall k :: k in s ==> k.when <= e.when
    ensures Ordered(s + [e])
  {
  }

  lemma {:induction false} InsertOrdered(s: seq<Inc>, e: Inc)
    requires Ordered(s)
    ensures Ordered(Insert(s, e))
  {
    if s == [] || s[|s| - 1].when <= e.when {
      AppendOrdered(s, e);
    } else {
      var front, last := s[..|s| - 1], s[|s| - 1];
      InsertOrdered(front, e);
      forall k | k in Insert(front, e) ensures k.when <= last.when {
        assert k in multiset(front) + multiset{e};
      }
      AppendOrdered(Insert(front, e), last);
    }
  }

  lemma {:induction false} SortedOrdered(s: seq<Inc>)
    ensures Ordered(StableSorted(s))
  {
    if s != [] {
      SortedOrdered(s[..|s| - 1]);
      InsertOrdered(StableSorted(s[..|s| - 1]), s[|s| - 1]);
    }
  }

  /** The events picked, in their order. */
  function Picked(s: seq<Inc>, sel: Selector): (r: seq<Inc>)
    ensures |r| <= |s|
  {
    if s == [] then []
    else if sel.Picks(s[|s| - 1]) then Picked(s[..|s| - 1], sel) + [s[|s| - 1]]
    else Picked(s[..|s| - 1], sel)
  }

  lemma PickedAppend(s: seq<Inc>, e: Inc, sel: Selector)
    ensures Picked(s + [e], sel) == if sel.Picks(e) then Picked(s, sel) + [e] else Picked(s, sel)
  {
    assert (s + [e])[..|s|] == s;
  }

  ghost predicate NoneLater(s: seq<Inc>, sel: Selector, e: Inc) {
    forall k :: k in s && sel.Picks(k) ==> k.when <= e.when
  }

  /** The events picked come in the order of time. */
  ghost predicate OrderedIn(s: seq<Inc>, sel: Selector) {
    s == [] || (OrderedIn(s[..|s| - 1], sel)
                && (sel.Picks(s[|s| - 1]) ==> NoneLater(s[..|s| - 1], sel, s[|s| - 1])))
  }

  lemma {:induction false} PickedInsert(s: seq<Inc>, e: Inc, sel: Selector)
    requires sel.Picks(e) ==> NoneLater(s, sel, e)
    ensures Picked(Insert(s, e), sel) == if sel.Picks(e) then Picked(s, sel) + [e] else Picked(s, sel)
  {
    if s == [] || s[|s| - 1].when <= e.when {
      PickedAppend(s, e, sel);
    } else {
      var front, last := s[..|s| - 1], s[|s| - 1];
      assert !(sel.Picks(e) && sel.Picks(last)) by {
        assert last in s;
      }
      assert sel.Picks(e) ==> NoneLater(front, sel, e);
      hide NoneLater;
      PickedInsert(front, e, sel);
      PickedAppend(Insert(front, e), last, sel);
    }
  }

  /** Sorting keeps the order of any selection that is ordered already: each thread keeps its own order of events. */
  lemma {:induction false} SortKeepsOrdered(s: seq<Inc>, sel: Selector)
    requires OrderedIn(s, sel)
    ensures Picked(StableSorted(s), sel) == Picked(s, sel)
  {
    if s != [] {
      var front, last := s[..|s| - 1], s[|s| - 1];
      SortKeepsOrdered(front, sel);
      forall k | k in StableSorted(front) ensures k in front {
        assert k in multiset(front);
      }
      PickedInsert(StableSorted(front), last, sel);
    }
  }

  /** Events at the same time stay in the order in which they come. */
  lemma SortIsStable(s: seq<Inc>, w: real)
    ensures Picked(StableSorted(s), AtTime(w)) == Picked(s, AtTime(w))
  {
    SameTimeOrdered(s, w);
    SortKeepsOrdered(s, AtTime(w));
  }

  lemma {:induction false} SameTimeOrdered(s: seq<Inc>, w: real)
    ensures OrderedIn(s, AtTime(w))
  {
    if s != [] {
      SameTimeOrdered(s[..|s| - 1], w);
    }
  }

  // ---- counters of activity

  function Sign(e: Inc): int {
    if e.isLeave then -1 else 1
  }

  /** Enter events less leave events among those picked: what is active after `s`. */
  function Balance(s: seq<Inc>, sel: Selector): int {
    if s == [] then 0
    else Balance(s[..|s| - 1], sel) + if sel.Picks(s[|s| - 1]) then Sign(s[|s| - 1]) else 0
  }

  lemma BalanceAppend(s: seq<Inc>, e: Inc, sel: Selector)
    ensures Balance(s + [e], sel) == Balance(s, sel) + if sel.Picks(e) then Sign(e) else 0
  {
    assert (s + [e])[..|s|] == s;
  }

  /** The sum of `f(0), .., f(n - 1)`. */
  function Sum(n: nat, f: nat -> int): int {
    if n == 0 then 0 else Sum(n - 1, f) + f(n - 1)
  }

  lemma {:induction false} SumOne(n: nat, f: nat -> int, g: nat -> int, k: nat, d: int)
    requires forall i: nat :: i < n ==> g(i) == f(i) + if i == k then d else 0
    ensures Sum(n, g) == Sum(n, f) + if k < n then d else 0
  {
    if n > 0 {
      SumOne(n - 1, f, g, k, d);
    }
  }

  lemma {:induction false} SumNonNegative(n: nat, f: nat -> int)
    requires forall i: nat :: i < n ==> 0 <= f(i)
    ensures 0 <= Sum(n, f)
  {
    if n > 0 {
      SumNonNegative(n - 1, f);
    }
  }

  lemma {:induction false} SumZero(n: nat, f: nat -> int)
    requires forall i: nat :: i < n ==> f(i) == 0
    ensures Sum(n, f) == 0
  {
    if n > 0 {
      SumZero(n - 1, f);
    }
  }

  function CaseBalance(s: seq<Inc>): nat -> int {
    (c: nat) => Balance(s, OfCase(c))
  }

  function ThreadCaseBalance(s: seq<Inc>, c: nat): nat -> int {
    (t: nat) => Balance(Picked(s, OfThread(t)), OfCase(c))
  }

  /** All activity is the sum over the cases. */
  lemma {:induction false} BalanceByCase(s: seq<Inc>, cases: nat)
    requires forall i :: 0 <= i < |s| ==> s[i].caseID < cases
    ensures Balance(s, All) == Sum(cases, CaseBalance(s))
  {
    if s == [] {
      SumZero(cases, CaseBalance(s));
    } else {
      var front, e := s[..|s| - 1], s[|s| - 1];
      BalanceByCase(front, cases);
      SumOne(cases, CaseBalance(front), CaseBalance(s), e.caseID, Sign(e));
    }
  }

  /** The activity in a case is the sum over the threads. */
  lemma {:induction false} BalanceByThread(s: seq<Inc>, threads: nat, c: nat)
    requires forall i :: 0 <= i < |s| ==> s[i].thread < threads
    ensures Balance(s, OfCase(c)) == Sum(threads, ThreadCaseBalance(s, c))
  {
    if s == [] {
      SumZero(threads, ThreadCaseBalance(s, c));
    } else {
      var front, e := s[..|s| - 1], s[|s| - 1];
      BalanceByThread(front, threads, c);
      var d := if e.caseID == c then Sign(e) else 0;
      forall t: nat | t < threads
        ensures ThreadCaseBalance(s, c)(t) == ThreadCaseBalance(front, c)(t) + if t == e.thread then d else 0
      {
        if t == e.thread {
          BalanceAppend(Picked(front, OfThread(t)), e, OfCase(c));
        }
      }
      SumOne(threads, ThreadCaseBalance(front, c), ThreadCaseBalance(s, c), e.thread, d);
    }
  }

  /** Picking the events of a thread first does not matter for its own balance. */
  lemma {:induction false} BalanceOfThread(s: seq<Inc>, t: nat)
    ensures Balance(s, OfThread(t)) == Balance(Picked(s, OfThread(t)), All)
  {
    if s != [] {
      BalanceOfThread(s[..|s| - 1], t);
      if s[|s| - 1].thread == t {
        BalanceAppend(Picked(s[..|s| - 1], OfThread(t)), s[|s| - 1], All);
      }
    }
  }

  /** The log of one thread: each case is left no more often than entered at any time, and equally often in the end. */
  ghost predicate WellBracketed(s: seq<Inc>) {
    && (forall k, c: nat :: 0 <= k <= |s| ==> 0 <= Balance(s[..k], OfCase(c)))
    && (forall c: nat :: Balance(s, OfCase(c)) == 0)
  }

  // ---- the logs of all threads, joined and merged

  /** The log of thread `t`: its own events in the order of time, properly bracketed. */
  ghost predicate LogOk(log: seq<Inc>, t: nat) {
    Ordered(log) && WellBracketed(log) && forall i :: 0 <= i < |log| ==> log[i].thread == t
  }

  ghost predicate LogsOk(rec: seq<seq<Inc>>) {
    forall t: nat :: t < |rec| ==> LogOk(rec[t], t)
  }

  /** Each log holds events of its own thread. */
  ghost predicate OwnThreads(rec: seq<seq<Inc>>) {
    forall t, i :: 0 <= t < |rec| && 0 <= i < |rec[t]| ==> rec[t][i].thread == t
  }

  function Joined(rec: seq<seq<Inc>>): seq<Inc> {
    if rec == [] then [] else Joined(rec[..|rec| - 1]) + rec[|rec| - 1]
  }

  lemma {:induction false} PickedConcat(a: seq<Inc>, b: seq<Inc>, sel: Selector)
    ensures Picked(a + b, sel) == Picked(a, sel) + Picked(b, sel)
    decreases |b|
  {
    if b == [] {
      assert a + b == a;
    } else {
      assert (a + b)[..|a + b| - 1] == a + b[..|b| - 1];
      PickedConcat(a, b[..|b| - 1], sel);
    }
  }

  lemma {:induction false} PickedAllOrNone(s: seq<Inc>, sel: Selector)
    ensures (forall i :: 0 <= i < |s| ==> sel.Picks(s[i])) ==> Picked(s, sel) == s
    ensures (forall i :: 0 <= i < |s| ==> !sel.Picks(s[i])) ==> Picked(s, sel) == []
  {
    if s != [] {
      PickedAllOrNone(s[..|s| - 1], sel);
    }
  }

  lemma LogPicked(log: seq<Inc>, u: nat, t: nat)
    requires LogOk(log, u)
    ensures Picked(log, OfThread(t)) == if t == u then log else []
  {
    PickedAllOrNone(log, OfThread(t));
  }

  lemma {:induction false} JoinedByThread(rec: seq<seq<Inc>>, t: nat)
    requires LogsOk(rec)
    ensures Picked(Joined(rec), OfThread(t)) == if t < |rec| then rec[t] else []
  {
    hide LogOk, Picked;
    if rec == [] {
      NothingPicked(OfThread(t));
    } else {
      var front, n := rec[..|rec| - 1], |rec| - 1;
      JoinedByThread(front, t);
      PickedConcat(Joined(front), rec[n], OfThread(t));
      LogPicked(rec[n], n, t);
    }
  }

  lemma NothingPicked(sel: Selector)
    ensures Picked([], sel) == []
  {
  }

  lemma {:induction false} JoinedThreads(rec: seq<seq<Inc>>)
    requires OwnThreads(rec)
    ensures forall i :: 0 <= i < |Joined(rec)| ==> Joined(rec)[i].thread < |rec|
  {
    if rec != [] {
      JoinedThreads(rec[..|rec| - 1]);
    }
  }

  ghost predicate InThreads(tl: seq<Inc>, n: nat) {
    forall i :: 0 <= i < |tl| ==> tl[i].thread < n
  }

  lemma SortedThreads(rec: seq<seq<Inc>>)
    requires OwnThreads(rec)
    ensures InThreads(StableSorted(Joined(rec)), |rec|)
  {
    var s := Joined(rec);
    forall i | 0 <= i < |s| ensures StableSorted(s)[i].thread < |rec| {
      assert StableSorted(s)[i] in multiset(StableSorted(s));
      JoinedThreads(rec);
    }
  }

  /** A selection that is ordered, read in the order of the joined logs. */
  lemma {:induction false} OrderedInPicked(s: seq<Inc>, sel: Selector)
    requires Ordered(Picked(s, sel))
    ensures OrderedIn(s, sel)
  {
    if s != [] {
      var front, e := s[..|s| - 1], s[|s| - 1];
      var p := Picked(s, sel);
      assert Ordered(Picked(front, sel)) by {
        assert forall i :: 0 <= i < |Picked(front, sel)| ==> Picked(front, sel)[i] == p[i];
      }
      OrderedInPicked(front, sel);
      if sel.Picks(e) {
        forall k | k in front && sel.Picks(k) ensures k.when <= e.when {
          PickedHas(front, sel, k);
          var i :| 0 <= i < |Picked(front, sel)| && Picked(front, sel)[i] == k;
          assert p[i] == k && p[|p| - 1] == e;
        }
      }
    }
  }

  lemma {:induction false} PickedHas(s: seq<Inc>, sel: Selector, e: Inc)
    requires e in s && sel.Picks(e)
    ensures e in Picked(s, sel)
  {
    if s[|s| - 1] != e {
      assert e in s[..|s| - 1];
      PickedHas(s[..|s| - 1], sel, e);
    }
  }

  /** The timeline holds the events of each thread in their own order. */
  ghost predicate Merged(tl: seq<Inc>, rec: seq<seq<Inc>>) {
    && Ordered(tl)
    && (forall i :: 0 <= i < |tl| ==> tl[i].thread < |rec|)
    && forall t: nat :: t < |rec| ==> Picked(tl, OfThread(t)) == rec[t]
  }

  lemma SortMerges(rec: seq<seq<Inc>>)
    requires LogsOk(rec)
    ensures Merged(StableSorted(Joined(rec)), rec)
  {
    var s := Joined(rec);
    SortedOrdered(s);
    forall t: nat | t < |rec| ensures Picked(StableSorted(s), OfThread(t)) == rec[t] {
      JoinedByThread(rec, t);
      assert LogOk(rec[t], t);
      OrderedInPicked(s, OfThread(t));
      SortKeepsOrdered(s, OfThread(t));
    }
    forall t, i | 0 <= t < |rec| && 0 <= i < |rec[t]| ensures rec[t][i].thread == t {
      assert LogOk(rec[t], t);
    }
    SortedThreads(rec);
  }

  lemma {:induction false} PickedPrefix(s: seq<Inc>, k: nat, sel: Selector)
    requires k <= |s|
    ensures Picked(s[..k], sel) <= Picked(s, sel)
    decreases |s| - k
  {
    if k < |s| {
      assert s[..k + 1][..k] == s[..k];
      PickedPrefix(s, k + 1, sel);
    } else {
      assert s[..k] == s;
    }
  }

  /** At no time are there more leaves than enters for a case within a thread. */
  lemma ThreadCaseNonNegative(tl: seq<Inc>, rec: seq<seq<Inc>>, k: nat, t: nat, c: nat)
    requires LogsOk(rec) && Merged(tl, rec) && k <= |tl| && t < |rec|
    ensures 0 <= Balance(Picked(tl[..k], OfThread(t)), OfCase(c))
    ensures k == |tl| ==> Balance(Picked(tl[..k], OfThread(t)), OfCase(c)) == 0
  {
    var p := Picked(tl[..k], OfThread(t));
    PickedPrefix(tl, k, OfThread(t));
    assert LogOk(rec[t], t);
    assert p == rec[t][..|p|];
    assert tl[..|tl|] == tl;
  }

  lemma CaseNonNegative(tl: seq<Inc>, rec: seq<seq<Inc>>, k: nat, c: nat)
    requires LogsOk(rec) && Merged(tl, rec) && k <= |tl|
    ensures 0 <= Balance(tl[..k], OfCase(c))
    ensures k == |tl| ==> Balance(tl[..k], OfCase(c)) == 0
  {
    forall t: nat | t < |rec|
      ensures 0 <= ThreadCaseBalance(tl[..k], c)(t)
      ensures k == |tl| ==> ThreadCaseBalance(tl[..k], c)(t) == 0
    {
      ThreadCaseNonNegative(tl, rec, k, t, c);
    }
    BalanceByThread(tl[..k], |rec|, c);
    SumNonNegative(|rec|, ThreadCaseBalance(tl[..k], c));
    if k == |tl| {
      SumZero(|rec|, ThreadCaseBalance(tl[..k], c));
    }
  }

  /** The least bound for all case IDs of a timeline. */
  function Cases(s: seq<Inc>): (n: nat)
    ensures forall i :: 0 <= i < |s| ==> s[i].caseID < n
    ensures 0 < n ==> exists i :: 0 <= i < |s| && s[i].caseID == n - 1
  {
    if s == [] then 0
    else var n := Cases(s[..|s| - 1]);
         if n <= s[|s| - 1].caseID then s[|s| - 1].caseID + 1 else n
  }

  lemma TotalNonNegative(tl: seq<Inc>, rec: seq<seq<Inc>>, k: nat)
    requires LogsOk(rec) && Merged(tl, rec) && k <= |tl|
    ensures 0 <= Balance(tl[..k], All)
    ensures k == |tl| ==> Balance(tl[..k], All) == 0
  {
    var n := Cases(tl[..k]);
    BalanceByCase(tl[..k], n);
    forall c: nat | c < n
      ensures 0 <= CaseBalance(tl[..k])(c)
      ensures k == |tl| ==> CaseBalance(tl[..k])(c) == 0
    {
      CaseNonNegative(tl, rec, k, c);
    }
    SumNonNegative(n, CaseBalance(tl[..k]));
    if k == |tl| {
      SumZero(n, CaseBalance(tl[..k]));
    }
  }

  lemma ThreadNonNegative(tl: seq<Inc>, rec: seq<seq<Inc>>, k: nat, t: nat)
    requires LogsOk(rec) && Merged(tl, rec) && k <= |tl| && t < |rec|
    ensures 0 <= Balance(tl[..k], OfThread(t))
    ensures k == |tl| ==> Balance(tl[..k], OfThread(t)) == 0
  {
    var p := Picked(tl[..k], OfThread(t));
    var n := Cases(p);
    BalanceOfThread(tl[..k], t);
    BalanceByCase(p, n);
    forall c: nat | c < n
      ensures 0 <= CaseBalance(p)(c)
      ensures k == |tl| ==> CaseBalance(p)(c) == 0
    {
      ThreadCaseNonNegative(tl, rec, k, t, c);
    }
    SumNonNegative(n, CaseBalance(p));
    if k == |tl| {
      SumZero(n, CaseBalance(p));
    }
  }

  /** Whatever is left was active: the counters to be decremented are positive. */
  lemma LeaveWasActive(tl: seq<Inc>, rec: seq<seq<Inc>>, k: nat)
    requires LogsOk(rec) && Merged(tl, rec) && k < |tl| && tl[k].isLeave
    ensures 0 < Balance(tl[..k], All)
    ensures 0 < Balance(tl[..k], OfCase(tl[k].caseID))
    ensures 0 < Balance(tl[..k], OfThread(tl[k].thread))
  {
    assert tl[..k + 1] == tl[..k] + [tl[k]];
    TotalNonNegative(tl, rec, k + 1);
    CaseNonNegative(tl, rec, k + 1, tl[k].caseID);
    ThreadNonNegative(tl, rec, k + 1, tl[k].thread);
    BalanceAppend(tl[..k], tl[k], All);
    BalanceAppend(tl[..k], tl[k], OfCase(tl[k].caseID));
    BalanceAppend(tl[..k], tl[k], OfThread(tl[k].thread));
  }

  // ---- what the evaluation relies on

  /** The counters to be decremented by event `k` are positive before. */
  ghost predicate CoveredAt(tl: seq<Inc>, k: nat)
    requires k < |tl|
  {
    tl[k].isLeave ==>
      && 0 < Balance(tl[..k], All)
      && 0 < Balance(tl[..k], OfCase(tl[k].caseID))
      && 0 < Balance(tl[..k], OfThread(tl[k].thread))
  }

  ghost predicate Covered(tl: seq<Inc>) {
    forall k :: 0 <= k < |tl| ==> CoveredAt(tl, k)
  }

  /** Then no counter ever is negative. */
  lemma {:induction false} CoveredNonNegative(tl: seq<Inc>, k: nat, sel: Selector)
    requires k <= |tl| && Covered(tl) && !sel.AtTime?
    ensures 0 <= Balance(tl[..k], sel)
  {
    if k > 0 {
      CoveredNonNegative(tl, k - 1, sel);
      assert CoveredAt(tl, k - 1);
      assert tl[..k] == tl[..k - 1] + [tl[k - 1]];
      BalanceAppend(tl[..k - 1], tl[k - 1], sel);
    }
  }

  /** Properly bracketed logs of all threads meet this, and end with nothing active. */
  lemma BracketedIsCovered(tl: seq<Inc>, rec: seq<seq<Inc>>)
    requires LogsOk(rec) && Merged(tl, rec)
    ensures Covered(tl) && Balance(tl, All) == 0 && forall c: nat :: Balance(tl, OfCase(c)) == 0
  {
    assert tl[..|tl|] == tl;
    forall k | 0 <= k < |tl| ensures CoveredAt(tl, k) {
      if tl[k].isLeave {
        LeaveWasActive(tl, rec, k);
      }
    }
    TotalNonNegative(tl, rec, |tl|);
    forall c: nat ensures Balance(tl, OfCase(c)) == 0 {
      CaseNonNegative(tl, rec, |tl|, c);
    }
  }

  /**
    Logs can do so without being properly bracketed: two threads each leave the case that the other one has entered.
  */
  lemma CrossedIsCovered()
    ensures var a, b := Inc(1.0, 0, 0, false), Inc(2.0, 1, 1, false);
            var c, d := Inc(3.0, 0, 1, true), Inc(4.0, 1, 0, true);
            && StableSorted(Joined([[a, c], [b, d]])) == [a, b, c, d]
            && Covered([a, b, c, d]) && !LogsOk([[a, c], [b, d]])
  {
    hide StableSorted, Joined, Covered, WellBracketed;
    var a, b, c, d := Inc(1.0, 0, 0, false), Inc(2.0, 1, 1, false), Inc(3.0, 0, 1, true), Inc(4.0, 1, 0, true);
    CrossedIsSorted(a, b, c, d);
    CrossedCovers(a, b, c, d);
    CrossedIsNotBracketed(a, c);
    assert [[a, c], [b, d]][0] == [a, c];
    assert !LogOk([a, c], 0);
  }

  lemma CrossedCovers(a: Inc, b: Inc, c: Inc, d: Inc)
    requires !a.isLeave && !b.isLeave && c.isLeave && d.isLeave
    requires a.thread == c.thread != b.thread == d.thread && a.caseID == d.caseID != b.caseID == c.caseID
    ensures Covered([a, b, c, d])
  {
    var tl := [a, b, c, d];
    assert tl[..2] == [] + [a] + [b] && tl[..3] == [] + [a] + [b] + [c];
    forall sel: Selector
      ensures Balance([] + [a] + [b], sel) == (if sel.Picks(a) then 1 else 0) + if sel.Picks(b) then 1 else 0
    {
      BalanceAppend([], a, sel);
      BalanceAppend([] + [a], b, sel);
    }
    forall sel: Selector
      ensures Balance([] + [a] + [b] + [c], sel) == Balance([] + [a] + [b], sel) - if sel.Picks(c) then 1 else 0
    {
      BalanceAppend([] + [a] + [b], c, sel);
    }
    hide Balance;
    forall k | 0 <= k < |tl| ensures CoveredAt(tl, k) {
      assert k == 2 || k == 3 || !tl[k].isLeave;
    }
  }

  lemma CrossedIsNotBracketed(a: Inc, c: Inc)
    requires !a.isLeave && c.isLeave && a.caseID == 0 && c.caseID == 1
    ensures !WellBracketed([a, c])
  {
    var log := [a, c];
    assert log == [a] + [c] && [a] == [] + [a];
    BalanceAppend([], a, OfCase(1));
    BalanceAppend([a], c, OfCase(1));
    assert log[..2] == log;
  }

  lemma CrossedIsSorted(a: Inc, b: Inc, c: Inc, d: Inc)
    requires a.when <= b.when < c.when <= d.when
    ensures StableSorted(Joined([[a, c], [b, d]])) == [a, b, c, d]
  {
    JoinedTwo([a, c], [b, d]);
    hide Insert, StableSorted, Joined;
    SortedTwo(a, c);
    SortedAppend([a, c], b);
    assert [a] + [c] == [a, c];
    InsertBefore([a], c, b);
    InsertBehind([a], b);
    LastSorted([a, c] + [b], [a] + [b] + [c], d);
    assert [a, c] + [b] + [d] == [a, c] + [b, d];
  }

  lemma JoinedTwo(x: seq<Inc>, y: seq<Inc>)
    ensures Joined([x, y]) == x + y
  {
    assert [x, y][..1] == [x] && [x][..0] == [];
    assert Joined([x]) == Joined([]) + x;
    assert [] + x == x;
  }

  lemma SortedTwo(a: Inc, c: Inc)
    requires a.when <= c.when
    ensures StableSorted([a, c]) == [a, c]
  {
    assert [a, c][..1] == [a] && [a][..0] == [];
  }

  lemma LastSorted(s: seq<Inc>, sorted: seq<Inc>, e: Inc)
    requires StableSorted(s) == sorted != [] && sorted[|sorted| - 1].when <= e.when
    ensures StableSorted(s + [e]) == sorted + [e]
  {
    SortedAppend(s, e);
  }

  lemma InsertBehind(s: seq<Inc>, e: Inc)
    requires s == [] || s[|s| - 1].when <= e.when
    ensures Insert(s, e) == s + [e]
  {
  }

  lemma InsertBefore(s: seq<Inc>, last: Inc, e: Inc)
    requires e.when < last.when
    ensures Insert(s + [last], e) == Insert(s, e) + [last]
  {
    assert (s + [last])[..|s|] == s;
  }

  lemma SortedAppend(s: seq<Inc>, e: Inc)
    ensures StableSorted(s + [e]) == Insert(StableSorted(s), e)
  {
    assert (s + [e])[..|s|] == s;
  }
}
