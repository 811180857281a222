/**
  Chained search with backtracking: the set of solutions.

  A chain of search steps is applied to a filtered sequence one by one: after a match for
  the first step, the next step starts a search of its own from there, and so on. `From` lists
  all solutions in the order of a depth first search.
*/
module ChainedSearch {

  datatype Option<+T> = None | Some(value: T)

  /** A filtered iteration over `src`, which has arrived at `pos`. Without predicate it is disabled. */
  datatype Filter<!V> = Filter(src: seq<V>, pos: nat, pred: Option<V -> bool>) {

    predicate IsValid() {
      pos < |src|
    }

    function Left(): nat {
      if pos < |src| then |src| - pos else 0
    }

    predicate Approves() {
      pos < |src| && (pred.None? || pred.value(src[pos]))
    }

    /** The filter moved to the next element approved, or to the end. */
    function Pulled(): (f: Filter<V>)
      ensures f.src == src && f.pred == pred && pos <= f.pos && f.Left() <= Left()
      ensures f.IsValid() ==> f.Approves()
      ensures forall i :: pos <= i < f.pos && i < |src| ==> pred.Some? && !pred.value(src[i])
      decreases Left()
    {
      if Approves() || pos >= |src| then this else this.(pos := pos + 1).Pulled()
    }

    /** One step of the iteration. */
    function Next(): (f: Filter<V>)
      ensures f.src == src && f.pred == pred && pos < f.pos
      ensures IsValid() ==> f.Left() < Left()
    {
      this.(pos := pos + 1).Pulled()
    }

    /** Replace the predicate and move to the next element it approves, maybe the current one. */
    function WithPredicate(p: V -> bool): Filter<V> {
      this.(pred := Some(p)).Pulled()
    }
  }

  /** A step of the search reconfigures a copy of the filter that found the preceding match. */
  type Step<!V> = Filter<V> -> Filter<V>

  type Chain<!V> = seq<Filter<V>>

  ghost function Prefixed<V>(f: Filter<V>, cs: seq<Chain<V>>): (r: seq<Chain<V>>)
    ensures |r| == |cs| && forall i :: 0 <= i < |r| ==> r[i] == [f] + cs[i]
  {
    seq(|cs|, i requires 0 <= i < |cs| => [f] + cs[i])
  }

  /** All solutions whose first match is at `f` or later: each is the chain of filters that found its matches. */
  ghost function From<V>(f: Filter<V>, steps: seq<Step<V>>): seq<Chain<V>>
    decreases |steps|, f.Left()
  {
    if !f.IsValid() then []
    else Prefixed(f, if steps == [] then [[]] else From(steps[0](f), steps[1..])) + From(f.Next(), steps)
  }

  /** The solutions still to come when the search is in the middle of its work. */
  ghost function Pending<V>(stack: Chain<V>, steps: seq<Step<V>>): seq<Chain<V>>
    requires 1 <= |stack| <= |steps| + 1
    decreases |stack|
  {
    if |stack| == 1 then From(stack[0], steps)
    else Prefixed(stack[0], Pending(stack[1..], steps[1..])) + From(stack[0].Next(), steps)
  }

  lemma PrefixedConcat<V>(f: Filter<V>, a: seq<Chain<V>>, b: seq<Chain<V>>)
    ensures Prefixed(f, a + b) == Prefixed(f, a) + Prefixed(f, b)
  {
  }

  ghost predicate ParentsValid<V>(stack: Chain<V>) {
    forall i :: 0 <= i < |stack| - 1 ==> stack[i].IsValid()
  }

  function Top<V>(stack: Chain<V>): Filter<V>
    requires stack != []
  {
    stack[|stack| - 1]
  }

  /** Opening a child search for the next step leaves the solutions as they are. */
  lemma {:induction false} PushKeepsPending<V>(stack: Chain<V>, steps: seq<Step<V>>)
    requires 1 <= |stack| <= |steps| && Top(stack).IsValid()
    ensures Pending(stack + [steps[|stack| - 1](Top(stack))], steps) == Pending(stack, steps)
    decreases |stack|
  {
    var push := stack + [steps[|stack| - 1](Top(stack))];
    if |stack| == 1 {
      assert push[1..] == [push[1]];
    } else {
      PushKeepsPending(stack[1..], steps[1..]);
      assert push[1..] == stack[1..] + [steps[1..][|stack[1..]| - 1](Top(stack[1..]))];
    }
  }

  lemma NothingPending<V>(f: Filter<V>, steps: seq<Step<V>>, parent: Filter<V>)
    requires !f.IsValid()
    ensures Prefixed(parent, From(f, steps)) == []
  {
  }

  /** So does giving up an exhausted child search and moving its parent on. */
  lemma {:induction false} DropKeepsPending<V>(stack: Chain<V>, steps: seq<Step<V>>)
    requires 2 <= |stack| <= |steps| + 1 && !Top(stack).IsValid()
    ensures Pending(stack[..|stack| - 2] + [stack[|stack| - 2].Next()], steps) == Pending(stack, steps)
    decreases |stack|
  {
    hide From;
    var drop := stack[..|stack| - 2] + [stack[|stack| - 2].Next()];
    if |stack| == 2 {
      NothingPending(Top(stack), steps[1..], stack[0]);
      assert stack[1..] == [Top(stack)] && drop == [stack[0].Next()];
    } else {
      DropKeepsPending(stack[1..], steps[1..]);
      var s := stack[1..];
      assert drop[1..] == s[..|s| - 2] + [s[|s| - 2].Next()];
    }
  }

  lemma FromLast<V>(f: Filter<V>)
    requires f.IsValid()
    ensures From(f, []) == [[f]] + From(f.Next(), [])
  {
    var none: Chain<V> := [];
    PrefixedSingle(f, none);
    assert [f] + none == [f];
  }

  lemma PrefixedSingle<V>(f: Filter<V>, c: Chain<V>)
    ensures Prefixed(f, [c]) == [[f] + c]
  {
  }

  /** With all levels established, the stack is the first solution; moving on at the top removes just that one. */
  lemma {:induction false} StackIsSolution<V>(stack: Chain<V>, steps: seq<Step<V>>)
    requires |stack| == |steps| + 1 && Top(stack).IsValid()
    ensures Pending(stack, steps) == [stack] + Pending(stack[..|stack| - 1] + [Top(stack).Next()], steps)
    decreases |stack|
  {
    hide Prefixed, From;
    var next := stack[..|stack| - 1] + [Top(stack).Next()];
    if |stack| == 1 {
      assert stack == [stack[0]];
      FromLast(stack[0]);
    } else {
      var rest := stack[1..];
      StackIsSolution(rest, steps[1..]);
      assert next[1..] == rest[..|rest| - 1] + [Top(rest).Next()];
      PrefixedConcat(stack[0], [rest], Pending(next[1..], steps[1..]));
      PrefixedSingle(stack[0], rest);
      assert [stack[0]] + rest == stack;
    }
  }

  // ---- termination: how many filter positions are still to be visited

  ghost function Work<V>(f: Filter<V>, steps: seq<Step<V>>): nat
    decreases |steps|, f.Left()
  {
    if !f.IsValid() then 0
    else 1 + (if steps == [] then 0 else Work(steps[0](f), steps[1..])) + Work(f.Next(), steps)
  }

  ghost function PendingWork<V>(stack: Chain<V>, steps: seq<Step<V>>): nat
    requires 1 <= |stack| <= |steps| + 1
    decreases |stack|
  {
    if |stack| == 1 then Work(stack[0], steps)
    else PendingWork(stack[1..], steps[1..]) + Work(stack[0].Next(), steps)
  }

  lemma {:induction false} PushTakesWork<V>(stack: Chain<V>, steps: seq<Step<V>>)
    requires 1 <= |stack| <= |steps| && Top(stack).IsValid()
    ensures PendingWork(stack + [steps[|stack| - 1](Top(stack))], steps) < PendingWork(stack, steps)
    decreases |stack|
  {
    var push := stack + [steps[|stack| - 1](Top(stack))];
    if |stack| == 1 {
      assert push[1..] == [push[1]];
    } else {
      PushTakesWork(stack[1..], steps[1..]);
      assert push[1..] == stack[1..] + [steps[1..][|stack[1..]| - 1](Top(stack[1..]))];
    }
  }

  lemma {:induction false} DropTakesNoWork<V>(stack: Chain<V>, steps: seq<Step<V>>)
    requires 2 <= |stack| <= |steps| + 1 && !Top(stack).IsValid()
    ensures PendingWork(stack[..|stack| - 2] + [stack[|stack| - 2].Next()], steps) == PendingWork(stack, steps)
    decreases |stack|
  {
    var drop := stack[..|stack| - 2] + [stack[|stack| - 2].Next()];
    if |stack| > 2 {
      DropTakesNoWork(stack[1..], steps[1..]);
      var s := stack[1..];
      assert drop[1..] == s[..|s| - 2] + [s[|s| - 2].Next()];
    }
  }

  // ---- a second definition of the solutions: step after step instead of depth first

  /** Extend one chain by all matches of a further step. */
  ghost function Extended<V>(c: Chain<V>, step: Step<V>): (r: seq<Chain<V>>)
    requires c != []
  {
    var ends := From(step(Top(c)), []);
    seq(|ends|, i requires 0 <= i < |ends| => c + ends[i])
  }

  ghost predicate NonEmpty<V>(cs: seq<Chain<V>>) {
    forall i :: 0 <= i < |cs| ==> cs[i] != []
  }

  /** Apply a further step to all chains found so far. */
  ghost function Refined<V>(cs: seq<Chain<V>>, step: Step<V>): seq<Chain<V>>
    requires NonEmpty(cs)
  {
    if cs == [] then [] else Extended(cs[0], step) + Refined(cs[1..], step)
  }

  lemma {:induction false} RefinedConcat<V>(a: seq<Chain<V>>, b: seq<Chain<V>>, step: Step<V>)
    requires NonEmpty(a) && NonEmpty(b)
    ensures NonEmpty(a + b) && Refined(a + b, step) == Refined(a, step) + Refined(b, step)
    decreases |a|
  {
    if a == [] {
      assert a + b == b;
    } else {
      assert (a + b)[1..] == a[1..] + b;
      RefinedConcat(a[1..], b, step);
    }
  }

  lemma ExtendedPrefixed<V>(f: Filter<V>, c: Chain<V>, step: Step<V>)
    requires c != []
    ensures Extended([f] + c, step) == Prefixed(f, Extended(c, step))
  {
    assert Top([f] + c) == Top(c);
    var e, e' := Extended(c, step), Extended([f] + c, step);
    forall i | 0 <= i < |e| ensures e'[i] == [f] + e[i] {
      assert ([f] + c) + From(step(Top(c)), [])[i] == [f] + (c + From(step(Top(c)), [])[i]);
    }
  }

  lemma {:induction false} RefinedPrefixed<V>(f: Filter<V>, cs: seq<Chain<V>>, step: Step<V>)
    requires NonEmpty(cs)
    ensures Refined(Prefixed(f, cs), step) == Prefixed(f, Refined(cs, step))
    decreases |cs|
  {
    hide Extended;
    if cs != [] {
      RefinedPrefixed(f, cs[1..], step);
      assert Prefixed(f, cs)[1..] == Prefixed(f, cs[1..]);
      ExtendedPrefixed(f, cs[0], step);
      PrefixedConcat(f, Extended(cs[0], step), Refined(cs[1..], step));
    }
  }

  lemma {:induction false} FromNonEmpty<V>(f: Filter<V>, steps: seq<Step<V>>)
    ensures NonEmpty(From(f, steps))
    decreases |steps|, f.Left()
  {
    if f.IsValid() {
      FromNonEmpty(f.Next(), steps);
    }
  }

  lemma RefinedSingle<V>(c: Chain<V>, step: Step<V>)
    requires c != []
    ensures Refined([c], step) == Extended(c, step)
  {
    assert Refined([c], step) == Extended(c, step) + Refined([], step);
  }

  lemma ExtendedSingle<V>(f: Filter<V>, step: Step<V>)
    ensures Extended([f], step) == Prefixed(f, From(step(f), []))
  {
  }

  /** Searching with one more step is refining the solutions found without it. */
  lemma {:induction false} FromRefines<V>(f: Filter<V>, steps: seq<Step<V>>, step: Step<V>)
    ensures NonEmpty(From(f, steps)) && From(f, steps + [step]) == Refined(From(f, steps), step)
    decreases |steps|, f.Left()
  {
    hide Prefixed, Extended, Refined, NonEmpty;
    FromNonEmpty(f, steps);
    if f.IsValid() {
      FromRefines(f.Next(), steps, step);
      FromNonEmpty(f.Next(), steps);
      if steps == [] {
        assert (steps + [step])[1..] == [];
        FromLast(f);
        SingleNonEmpty(f);
        RefinedConcat([[f]], From(f.Next(), []), step);
        RefinedSingle([f], step);
        ExtendedSingle(f, step);
      } else {
        assert (steps + [step])[1..] == steps[1..] + [step];
        var tails := From(steps[0](f), steps[1..]);
        FromRefines(steps[0](f), steps[1..], step);
        RefinedPrefixed(f, tails, step);
        PrefixedNonEmpty(f, tails);
        RefinedConcat(Prefixed(f, tails), From(f.Next(), steps), step);
      }
    } else {
      RefinedNothing(step);
    }
  }

  lemma SingleNonEmpty<V>(f: Filter<V>)
    ensures NonEmpty([[f]])
  {
  }

  lemma PrefixedNonEmpty<V>(f: Filter<V>, cs: seq<Chain<V>>)
    ensures NonEmpty(Prefixed(f, cs))
  {
  }

  lemma RefinedNothing<V>(step: Step<V>)
    ensures Refined([], step) == []
  {
  }

  /** The same holds in the middle of a search: adding a step refines whatever is still to come. */
  lemma {:induction false} PendingRefines<V>(stack: Chain<V>, steps: seq<Step<V>>, step: Step<V>)
    requires 1 <= |stack| <= |steps| + 1
    ensures NonEmpty(Pending(stack, steps))
    ensures Pending(stack, steps + [step]) == Refined(Pending(stack, steps), step)
    decreases |stack|
  {
    if |stack| == 1 {
      FromRefines(stack[0], steps, step);
    } else {
      assert (steps + [step])[1..] == steps[1..] + [step];
      PendingRefines(stack[1..], steps[1..], step);
      FromRefines(stack[0].Next(), steps, step);
      var tails := Pending(stack[1..], steps[1..]);
      RefinedPrefixed(stack[0], tails, step);
      RefinedConcat(Prefixed(stack[0], tails), From(stack[0].Next(), steps), step);
    }
  }

  // ---- searching for a sequence of conditions

  /** The step installed by `search`: a new predicate for the copied filter. */
  function SearchStep<V>(p: V -> bool): Step<V> {
    (f: Filter<V>) => f.WithPredicate(p)
  }

  function SearchSteps<V>(ps: seq<V -> bool>): (r: seq<Step<V>>)
    ensures |r| == |ps|
  {
    if ps == [] then [] else [SearchStep(ps[0])] + SearchSteps(ps[1..])
  }

  function Positions<V>(c: Chain<V>): (q: seq<nat>)
    ensures |q| == |c| && forall i :: 0 <= i < |q| ==> q[i] == c[i].pos
  {
    seq(|c|, i requires 0 <= i < |c| => c[i].pos)
  }

  /** Positions `q`, from `lo` on and never going back, at which the conditions hold one after the other. */
  ghost predicate IsMatch<V>(src: seq<V>, ps: seq<V -> bool>, lo: nat, q: seq<nat>) {
    && |q| == |ps|
    && (forall i :: 0 <= i < |q| ==> lo <= q[i] < |src| && ps[i](src[q[i]]))
    && forall i, j :: 0 <= i < j < |q| ==> q[i] <= q[j]
  }

  predicate LexLess(a: seq<nat>, b: seq<nat>) {
    a != [] && b != [] && (a[0] < b[0] || (a[0] == b[0] && LexLess(a[1..], b[1..])))
  }

  lemma {:induction false} LexLessIsStrict(a: seq<nat>, b: seq<nat>)
    requires LexLess(a, b)
    ensures a != b && !LexLess(b, a)
  {
    if a[0] == b[0] {
      LexLessIsStrict(a[1..], b[1..]);
    }
  }

  lemma IsMatchStep<V>(src: seq<V>, ps: seq<V -> bool>, lo: nat, q: seq<nat>)
    requires ps != []
    ensures IsMatch(src, ps, lo, q)
            <==> q != [] && lo <= q[0] < |src| && ps[0](src[q[0]]) && IsMatch(src, ps[1..], q[0], q[1..])
  {
    if q != [] && |q| == |ps| {
      var p', q' := ps[1..], q[1..];
      assert forall i :: 0 <= i < |q'| ==> q'[i] == q[i + 1] && p'[i] == ps[i + 1];
      if IsMatch(src, ps, lo, q) {
        assert forall j :: 1 <= j < |q| ==> q[0] <= q[j];
      }
      if q[0] < |src| && lo <= q[0] && ps[0](src[q[0]]) && IsMatch(src, p', q[0], q') {
        forall i | 0 <= i < |q| ensures lo <= q[i] < |src| && ps[i](src[q[i]]) {
          if i > 0 { assert q[i] == q'[i - 1] && ps[i] == p'[i - 1]; }
        }
        forall i, j | 0 <= i < j < |q| ensures q[i] <= q[j] {
          assert q[j] == q'[j - 1];
          if i > 0 { assert q[i] == q'[i - 1]; }
        }
      }
    }
  }

  ghost function Preceded(i: nat, qs: seq<seq<nat>>): (r: seq<seq<nat>>)
    ensures |r| == |qs| && forall k :: 0 <= k < |r| ==> r[k] == [i] + qs[k]
  {
    seq(|qs|, k requires 0 <= k < |qs| => [i] + qs[k])
  }

  /** All matches from `lo` on, by trying position after position. */
  ghost function Matches<V>(src: seq<V>, ps: seq<V -> bool>, lo: nat): seq<seq<nat>>
    decreases |ps|, |src| - lo
  {
    if ps == [] then [[]]
    else if lo >= |src| then []
    else (if ps[0](src[lo]) then Preceded(lo, Matches(src, ps[1..], lo)) else []) + Matches(src, ps, lo + 1)
  }

  /** Trying every position finds exactly the matches. */
  lemma {:induction false} MatchesAreAll<V>(src: seq<V>, ps: seq<V -> bool>, lo: nat, q: seq<nat>)
    ensures q in Matches(src, ps, lo) <==> IsMatch(src, ps, lo, q)
    decreases |ps|, |src| - lo
  {
    if ps == [] {
    } else {
      IsMatchStep(src, ps, lo, q);
      if lo < |src| {
        IsMatchStep(src, ps, lo + 1, q);
        MatchesAreAll(src, ps, lo + 1, q);
        var here := Matches(src, ps[1..], lo);
        if q != [] {
          MatchesAreAll(src, ps[1..], lo, q[1..]);
          assert q == [q[0]] + q[1..];
        }
        assert q in Preceded(lo, here) <==> q != [] && q[0] == lo && q[1..] in here by {
          if k :| 0 <= k < |here| && q == [lo] + here[k] {
            assert q[1..] == here[k];
          }
          if q != [] && q[0] == lo && q[1..] in here {
            var k :| 0 <= k < |here| && here[k] == q[1..];
            assert Preceded(lo, here)[k] == q;
          }
        }
      }
    }
  }

  lemma MatchesHere<V>(src: seq<V>, ps: seq<V -> bool>, lo: nat)
    requires ps != [] && lo < |src|
    ensures Matches(src, ps, lo)
            == (if ps[0](src[lo]) then Preceded(lo, Matches(src, ps[1..], lo)) else []) + Matches(src, ps, lo + 1)
  {
  }

  /** Strictly increasing, hence each entry once. */
  ghost predicate Increasing(qs: seq<seq<nat>>) {
    forall i, j :: 0 <= i < j < |qs| ==> LexLess(qs[i], qs[j])
  }

  lemma IncreasingPreceded(n: nat, qs: seq<seq<nat>>)
    requires Increasing(qs)
    ensures Increasing(Preceded(n, qs))
  {
    var r := Preceded(n, qs);
    forall i, j | 0 <= i < j < |r| ensures LexLess(r[i], r[j]) {
      LexLessPrepend(n, qs[i], qs[j]);
    }
  }

  lemma LexLessPrepend(n: nat, a: seq<nat>, b: seq<nat>)
    requires LexLess(a, b)
    ensures LexLess([n] + a, [n] + b)
  {
    assert ([n] + a)[1..] == a && ([n] + b)[1..] == b;
  }

  lemma IncreasingConcat(n: nat, a: seq<seq<nat>>, b: seq<seq<nat>>)
    requires Increasing(a) && Increasing(b)
    requires forall i :: 0 <= i < |a| ==> a[i] != [] && a[i][0] == n
    requires forall i :: 0 <= i < |b| ==> b[i] != [] && n < b[i][0]
    ensures Increasing(a + b)
  {
    var r := a + b;
    forall i, j | 0 <= i < j < |r| ensures LexLess(r[i], r[j]) {
      if i < |a| <= j {
        assert r[i] == a[i] && r[j] == b[j - |a|];
      } else if i < |a| {
        assert r[i] == a[i] && r[j] == a[j];
      } else {
        assert r[i] == b[i - |a|] && r[j] == b[j - |a|];
      }
    }
  }

  lemma LaterMatches<V>(src: seq<V>, ps: seq<V -> bool>, lo: nat)
    requires ps != []
    ensures forall i :: 0 <= i < |Matches(src, ps, lo)| ==>
              Matches(src, ps, lo)[i] != [] && lo <= Matches(src, ps, lo)[i][0]
  {
    forall i | 0 <= i < |Matches(src, ps, lo)|
      ensures Matches(src, ps, lo)[i] != [] && lo <= Matches(src, ps, lo)[i][0]
    {
      MatchesAreAll(src, ps, lo, Matches(src, ps, lo)[i]);
    }
  }

  /** The matches come in strictly increasing lexicographic order, hence each of them once. */
  lemma {:induction false} MatchesAreOrdered<V>(src: seq<V>, ps: seq<V -> bool>, lo: nat)
    ensures Increasing(Matches(src, ps, lo))
    decreases |ps|, |src| - lo
  {
    if ps != [] && lo < |src| {
      hide Matches, Preceded, Increasing;
      var later := Matches(src, ps, lo + 1);
      MatchesHere(src, ps, lo);
      MatchesAreOrdered(src, ps, lo + 1);
      if ps[0](src[lo]) {
        MatchesAreOrdered(src, ps[1..], lo);
        IncreasingPreceded(lo, Matches(src, ps[1..], lo));
        LaterMatches(src, ps, lo + 1);
        IncreasingConcat(lo, Preceded(lo, Matches(src, ps[1..], lo)), later);
      } else {
        assert Matches(src, ps, lo) == later;
      }
    }
  }

  lemma MatchesAreExact<V>(src: seq<V>, ps: seq<V -> bool>)
    ensures Increasing(Matches(src, ps, 0)) && forall q :: q in Matches(src, ps, 0) <==> IsMatch(src, ps, 0, q)
  {
    MatchesAreOrdered(src, ps, 0);
    forall q ensures q in Matches(src, ps, 0) <==> IsMatch(src, ps, 0, q) {
      MatchesAreAll(src, ps, 0, q);
    }
  }

  lemma {:induction false} MatchesSkip<V>(src: seq<V>, ps: seq<V -> bool>, lo: nat, hi: nat)
    requires ps != [] && lo <= hi && forall i :: lo <= i < hi && i < |src| ==> !ps[0](src[i])
    ensures Matches(src, ps, lo) == Matches(src, ps, hi)
    decreases hi - lo
  {
    if lo < hi {
      MatchesSkip(src, ps, lo + 1, hi);
    }
  }

  ghost function AllPositions<V>(cs: seq<Chain<V>>): (r: seq<seq<nat>>)
    ensures |r| == |cs| && forall i :: 0 <= i < |r| ==> r[i] == Positions(cs[i])
  {
    seq(|cs|, i requires 0 <= i < |cs| => Positions(cs[i]))
  }

  lemma AllPositionsConcat<V>(a: seq<Chain<V>>, b: seq<Chain<V>>)
    ensures AllPositions(a + b) == AllPositions(a) + AllPositions(b)
  {
  }

  lemma AllPositionsPrefixed<V>(f: Filter<V>, cs: seq<Chain<V>>)
    ensures AllPositions(Prefixed(f, cs)) == Preceded(f.pos, AllPositions(cs))
  {
    forall i | 0 <= i < |cs| ensures Positions([f] + cs[i]) == [f.pos] + Positions(cs[i]) {
      var c := [f] + cs[i];
      assert Positions(c) == [f.pos] + Positions(cs[i]);
    }
  }

  lemma MatchesLast<V>(src: seq<V>, ps: seq<V -> bool>, lo: nat)
    requires |ps| == 1
    ensures Preceded(lo, Matches(src, ps[1..], lo)) == [[lo]]
  {
    var none: seq<nat> := [];
    assert [lo] + none == [lo];
  }

  lemma AllPositionsSingle<V>(f: Filter<V>)
    ensures AllPositions([[f]]) == [[f.pos]]
  {
    assert Positions([f]) == [f.pos];
  }

  lemma FromFirst<V>(f: Filter<V>, ps: seq<V -> bool>)
    requires f.IsValid() && 2 <= |ps|
    ensures From(f, SearchSteps(ps[1..]))
            == Prefixed(f, From(f.WithPredicate(ps[1]), SearchSteps(ps[1..][1..])))
               + From(f.Next(), SearchSteps(ps[1..]))
  {
    assert SearchSteps(ps[1..])[0](f) == f.WithPredicate(ps[1]);
    assert SearchSteps(ps[1..])[1..] == SearchSteps(ps[1..][1..]);
  }

  /** The backtracking search visits exactly the matches, in their order. */
  lemma {:induction false} SearchFindsMatches<V>(f: Filter<V>, ps: seq<V -> bool>, lo: nat)
    requires ps != [] && f == Filter(f.src, lo, Some(ps[0])).Pulled()
    ensures AllPositions(From(f, SearchSteps(ps[1..]))) == Matches(f.src, ps, lo)
    decreases |ps|, f.Left()
  {
    hide AllPositions, Matches, Preceded, Prefixed, From;
    MatchesSkip(f.src, ps, lo, f.pos);
    if f.IsValid() {
      assert f.Next() == Filter(f.src, f.pos + 1, Some(ps[0])).Pulled();
      var later := From(f.Next(), SearchSteps(ps[1..]));
      SearchFindsMatches(f.Next(), ps, f.pos + 1);
      MatchesHere(f.src, ps, f.pos);
      if |ps| == 1 {
        assert SearchSteps(ps[1..]) == [];
        FromLast(f);
        AllPositionsConcat([[f]], later);
        AllPositionsSingle(f);
        MatchesLast(f.src, ps, f.pos);
      } else {
        var g := f.WithPredicate(ps[1]);
        var tails := From(g, SearchSteps(ps[1..][1..]));
        SearchFindsMatches(g, ps[1..], f.pos);
        FromFirst(f, ps);
        AllPositionsPrefixed(f, tails);
        AllPositionsConcat(Prefixed(f, tails), later);
      }
    } else {
      NoMatches(f.src, ps, f.pos);
      NothingFrom(f, SearchSteps(ps[1..]));
    }
  }

  lemma NothingFrom<V>(f: Filter<V>, steps: seq<Step<V>>)
    requires !f.IsValid()
    ensures From(f, steps) == []
  {
  }

  lemma NoMatches<V>(src: seq<V>, ps: seq<V -> bool>, lo: nat)
    requires ps != [] && |src| <= lo
    ensures Matches(src, ps, lo) == [] && AllPositions<V>([]) == []
  {
  }
}
