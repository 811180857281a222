/**
  The backtracking search machine: a stack of copied filters that is driven through the
  solutions of a growing chain of search steps.
*/
module IterChainSearch {
  import opened ChainedSearch

  class ChainSearch<V> {
    var root: Filter<V>
    /** filters copied for the search steps after the first, innermost last */
    var expansions: Chain<V>
    var stepChain: seq<Step<V>>

    function Stack(): (s: Chain<V>)
      reads this
      ensures |s| == |expansions| + 1
    {
      [root] + expansions
    }

    /** All levels below the top have a match, and so has the top unless it is the root. */
    ghost predicate Valid()
      reads this
    {
      && |expansions| <= |stepChain| && (root.pred.None? ==> stepChain == [])
      && (expansions != [] ==> root.IsValid())
      && forall i :: 0 <= i < |expansions| ==> expansions[i].IsValid()
    }

    /** The solutions still to come, the current one included. */
    ghost function Solutions(): seq<Chain<V>>
      requires |expansions| <= |stepChain|
      reads this
    {
      Pending(Stack(), stepChain)
    }

    /** All conditions are matched, or the search is exhausted. */
    ghost predicate Established()
      reads this
    {
      Valid() && (CheckPoint() ==> !NeedsExpansion())
    }

    constructor (src: seq<V>)
      ensures Established() && stepChain == [] && root == Filter(src, 0, None) && expansions == []
    {
      root, expansions, stepChain := Filter(src, 0, None), [], [];
    }

    predicate HasChildren()
      reads this
    {
      0 < |expansions|
    }

    predicate CheckPoint()
      reads this
    {
      HasChildren() || root.IsValid()
    }

    predicate NeedsExpansion()
      reads this
    {
      |expansions| < |stepChain|
    }

    function Current(): Filter<V>
      reads this
    {
      if HasChildren() then expansions[|expansions| - 1] else root
    }

    /** Move the innermost filter on. */
    method IncrementCurrent()
      modifies this`root, this`expansions
      ensures Stack() == old(Stack())[|old(expansions)| := old(Current()).Next()]
      ensures |expansions| == |old(expansions)| && root.pred == old(root.pred)
    {
      if HasChildren() {
        expansions := expansions[|expansions| - 1 := Current().Next()];
      } else {
        root := root.Next();
      }
    }

    method DropChild()
      requires |expansions| <= |stepChain| && ParentsValid(Stack()) && HasChildren() && !Current().IsValid()
      modifies this`root, this`expansions
      ensures root.pred == old(root.pred) && |expansions| == |old(expansions)| - 1
      ensures ParentsValid(Stack()) && Solutions() == old(Solutions())
      ensures PendingWork(Stack(), stepChain) == old(PendingWork(Stack(), stepChain))
    {
      hide Pending, PendingWork, ParentsValid;
      DropKeepsPending(Stack(), stepChain);
      DropTakesNoWork(Stack(), stepChain);
      ghost var s := Stack();
      DroppedParents(s);
      expansions := expansions[..|expansions| - 1];
      IncrementCurrent();
      assert Stack() == s[..|s| - 2] + [s[|s| - 2].Next()];
    }

    lemma DroppedParents(s: Chain<V>)
      requires ParentsValid(s) && 2 <= |s|
      ensures ParentsValid(s[..|s| - 2] + [s[|s| - 2].Next()])
    {
    }

    lemma ValidFromParents()
      requires root.pred.None? ==> stepChain == []
      requires |expansions| <= |stepChain| && ParentsValid(Stack()) && (HasChildren() ==> Current().IsValid())
      ensures Valid()
    {
      assert Stack()[0] == root;
      forall i | 0 <= i < |expansions| ensures expansions[i].IsValid() {
        assert Stack()[i + 1] == expansions[i];
      }
    }

    lemma ParentsFromValid()
      requires Valid()
      ensures ParentsValid(Stack()) && Top(Stack()) == Current()
    {
    }

    /** Pop exhausted child filters, each time moving on the filter they were copied from. */
    method DropExhaustedChildren()
      requires root.pred.None? ==> stepChain == []
      requires |expansions| <= |stepChain| && ParentsValid(Stack())
      modifies this`root, this`expansions
      ensures root.pred == old(root.pred)
      ensures Valid() && Solutions() == old(Solutions())
      ensures PendingWork(Stack(), stepChain) == old(PendingWork(Stack(), stepChain))
    {
      hide Pending, PendingWork, ParentsValid;
      while HasChildren() && !expansions[|expansions| - 1].IsValid()
        invariant |expansions| <= |stepChain| && ParentsValid(Stack()) && root.pred == old(root.pred)
        invariant Solutions() == old(Solutions())
        invariant PendingWork(Stack(), stepChain) == old(PendingWork(Stack(), stepChain))
        decreases |expansions|
      {
        DropChild();
      }
      ValidFromParents();
    }

    /** Copy the current filter into a new child level; the source of the expansion is retained. */
    method ExpandChildren()
      requires CheckPoint() && Valid()
      modifies this`expansions
      ensures expansions == old(expansions) + [old(Current())]
    {
      expansions := expansions + [Current()];
    }

    /** One round of the backtracking loop: open a child level and let the next step reconfigure it. */
    method Descend()
      requires Valid() && NeedsExpansion() && CheckPoint()
      modifies this`root, this`expansions
      ensures root.pred == old(root.pred)
      ensures Valid() && Solutions() == old(Solutions())
      ensures PendingWork(Stack(), stepChain) < old(PendingWork(Stack(), stepChain))
    {
      hide Pending, PendingWork;
      ghost var s := Stack();
      ParentsFromValid();
      PushKeepsPending(s, stepChain);
      PushTakesWork(s, stepChain);
      var depth := |expansions|;
      ExpandChildren();
      expansions := expansions[depth := stepChain[depth](expansions[depth])];
      assert Stack() == s + [stepChain[depth](Top(s))];
      DropExhaustedChildren();
    }

    /** Backtracking loop: attempt to establish all conditions, possibly trying further combinations until success. */
    method Establish()
      requires Valid()
      modifies this`root, this`expansions
      ensures root.pred == old(root.pred)
      ensures Established() && Solutions() == old(Solutions())
    {
      while NeedsExpansion() && CheckPoint()
        invariant Valid() && Solutions() == old(Solutions()) && root.pred == old(root.pred)
        decreases PendingWork(Stack(), stepChain)
      {
        hide Pending, PendingWork;
        Descend();
      }
    }

    /** Without match left there is no solution; else the levels of the stack are the first one. */
    lemma CurrentIsFirst()
      requires Established()
      ensures CheckPoint() <==> Solutions() != []
      ensures CheckPoint() ==> Solutions()[0] == Stack()
    {
      if CheckPoint() {
        StackIsSolution(Stack(), stepChain);
      } else {
        assert Stack() == [root];
      }
    }

    /**
      Move on: at first past the current solution, if there is one, and then to where all conditions hold.
      An exhausted search refuses.
    */
    method IterNext() returns (done: bool)
      requires Valid()
      modifies this`root, this`expansions
      ensures root.pred == old(root.pred)
      ensures done == old(CheckPoint()) && Established()
      ensures !done ==> root == old(root) && expansions == old(expansions)
      ensures done && old(NeedsExpansion()) ==> Solutions() == old(Solutions())
      ensures done && !old(NeedsExpansion()) ==> old(Solutions()) != [] && Solutions() == old(Solutions())[1..]
    {
      if !CheckPoint() {
        return false;
      }
      hide Pending;
      if !NeedsExpansion() {
        NextAtTop();
      }
      Establish();
      done := true;
    }

    method NextAtTop()
      requires Established() && CheckPoint()
      modifies this`root, this`expansions
      ensures root.pred == old(root.pred)
      ensures Valid() && old(Solutions()) != [] && Solutions() == old(Solutions())[1..]
    {
      hide Pending, PendingWork;
      ghost var s := Stack();
      ParentsFromValid();
      StackIsSolution(s, stepChain);
      IncrementCurrent();
      assert Stack() == s[..|s| - 1] + [Top(s).Next()];
      NextParents(s);
      DropExhaustedChildren();
    }

    lemma NextParents(s: Chain<V>)
      requires ParentsValid(s) && s != []
      ensures ParentsValid(s[..|s| - 1] + [Top(s).Next()])
    {
    }

    predicate IsDisabled()
      reads this
    {
      root.pred.None?
    }

    /** Add a further search step; it refines what is still to come. */
    method AddStep(step: Step<V>)
      requires Established()
      modifies this
      ensures Established()
      ensures !old(CheckPoint()) ==> root == old(root) && expansions == old(expansions) && stepChain == old(stepChain)
      ensures old(CheckPoint() && IsDisabled()) ==>
                root == step(old(root)) && stepChain == [] && Solutions() == From(step(old(root)), [])
      ensures old(CheckPoint() && !IsDisabled()) ==>
                && stepChain == old(stepChain) + [step]
                && NonEmpty(old(Solutions())) && Solutions() == Refined(old(Solutions()), step)
                && root.pred == old(root.pred)
    {
      if CheckPoint() {
        if IsDisabled() {
          root := step(root);
        } else {
          hide Pending, Refined, NonEmpty;
          PendingRefines(Stack(), stepChain, step);
          stepChain := stepChain + [step];
          var _ := IterNext();
        }
      }
    }

    /** Attach an additional search with the given predicate. */
    method Search(p: V -> bool)
      requires Established()
      modifies this
      ensures Established()
      ensures !old(CheckPoint()) ==> root == old(root) && expansions == old(expansions) && stepChain == old(stepChain)
      ensures old(CheckPoint() && IsDisabled()) ==>
                stepChain == [] && Solutions() == From(old(root).WithPredicate(p), [])
      ensures old(CheckPoint() && !IsDisabled()) ==>
                NonEmpty(old(Solutions())) && Solutions() == Refined(old(Solutions()), SearchStep(p))
      ensures CheckPoint() ==> root.pred.Some?
    {
      hide Pending, Refined, NonEmpty;
      AddStep(SearchStep(p));
    }

    /** Drop all search conditions and pass through the rest of the source, from the current position on. */
    method ClearFilter()
      requires Established()
      modifies this
      ensures Established() && stepChain == [] && expansions == []
      ensures root == old(Current()).(pred := None)
      ensures Solutions() == EveryPosition(root)
    {
      stepChain := [];
      if HasChildren() {
        root := Current();
        expansions := [];
      }
      root := root.(pred := None);
      PassThrough(root);
      assert Stack() == [root];
    }

    /** Drive the search to its end. */
    method DrainAll() returns (found: seq<Chain<V>>)
      requires Established()
      modifies this`root, this`expansions
      ensures found == old(Solutions()) && !CheckPoint()
    {
      hide Pending;
      found := [];
      while CheckPoint()
        invariant Established() && found + Solutions() == old(Solutions())
        decreases |Solutions()|
      {
        CurrentIsFirst();
        found := found + [Stack()];
        var _ := IterNext();
      }
      CurrentIsFirst();
    }
  }

  lemma FromExhausted<V>(f: Filter<V>, steps: seq<Step<V>>)
    requires !f.IsValid()
    ensures From(f, steps) == []
  {
  }

  ghost function EveryPosition<V>(f: Filter<V>): (r: seq<Chain<V>>)
    ensures |r| == f.Left() && forall i :: 0 <= i < |r| ==> r[i] == [f.(pos := f.pos + i)]
  {
    seq(f.Left(), i requires 0 <= i < f.Left() => [f.(pos := f.pos + i)])
  }

  /** A disabled filter passes through everything. */
  lemma {:induction false} PassThrough<V>(f: Filter<V>)
    requires f.pred.None?
    ensures From(f, []) == EveryPosition(f)
    decreases f.Left()
  {
    if f.IsValid() {
      FromLast(f);
      assert f.Next() == f.(pos := f.pos + 1);
      PassThrough(f.Next());
      assert f.(pos := f.pos + 0) == f;
      var rest := EveryPosition(f.Next());
      assert forall i :: 0 <= i < |rest| ==> rest[i] == EveryPosition(f)[i + 1];
    }
  }

  lemma {:induction false} SearchStepsAppend<V>(ps: seq<V -> bool>, p: V -> bool)
    ensures SearchSteps(ps + [p]) == SearchSteps(ps) + [SearchStep(p)]
  {
    if ps == [] {
      assert ps + [p] == [p];
      assert [p][1..] == [];
    } else {
      assert (ps + [p])[1..] == ps[1..] + [p];
      SearchStepsAppend(ps[1..], p);
    }
  }

  /** A search for a sequence of conditions yields all matches, each once, in lexicographic order. */
  method SearchAll<V>(src: seq<V>, ps: seq<V -> bool>) returns (found: seq<Chain<V>>)
    requires ps != []
    ensures AllPositions(found) == Matches(src, ps, 0)
    ensures Increasing(AllPositions(found)) && forall q :: q in AllPositions(found) <==> IsMatch(src, ps, 0, q)
  {
    hide Pending, Refined, NonEmpty, Matches, AllPositions, From, IsMatch, Increasing;
    MatchesAreExact(src, ps);
    var f := Filter(src, 0, Some(ps[0])).Pulled();
    var search := new ChainSearch(src);
    search.Search(ps[0]);
    if src == [] {
      search.CurrentIsFirst();
      FromExhausted(f, []);
    }
    var i := 1;
    while i < |ps|
      invariant 1 <= i <= |ps| && search.Established() && fresh(search)
      invariant search.CheckPoint() ==> search.root.pred.Some?
      invariant search.Solutions() == From(f, SearchSteps(ps[1..i]))
    {
      search.CurrentIsFirst();
      FromRefines(f, SearchSteps(ps[1..i]), SearchStep(ps[i]));
      SearchStepsAppend(ps[1..i], ps[i]);
      assert ps[1..i] + [ps[i]] == ps[1..i + 1];
      RefinedNothing(SearchStep(ps[i]));
      search.Search(ps[i]);
      i := i + 1;
    }
    assert ps[1..i] == ps[1..];
    SearchFindsMatches(f, ps, 0);
    found := search.DrainAll();
  }
}
