/**
  Two access points: that of a base type, which may delegate to that of a subclass. Objects that the subclass owns,
  by its factory or by one of its handles, are foreign to the base type, even when they are exposed there.
*/
module DependDelegates {
  import opened DependAccess
  import opened DependHandles

  datatype Joint = Joint(base: Situation, sub: Situation)

  /** A move at one of the access points; `OfSub(Elsewhere(_, _))` is what happens at any further ones. */
  datatype Turn = OfBase(move: Move) | OfSub(move: Move)

  /** What exists as seen from `s`. */
  function There(s: Situation): set<Obj> {
    s.live + s.foreign
  }

  predicate Mentions(s: Situation, o: Obj) {
    o in There(s) || Published(s, o)
  }

  /** What the subclass has is foreign to the base type, and apart from what the base type owns. */
  ghost predicate Linked(j: Joint) {
    && j.base.foreign == There(j.sub) && j.base.next == j.sub.next
    && (forall o :: o in j.base.live ==> o < j.base.next)
    && forall o: Obj :: Mentions(j.sub, o) ==> o !in j.base.live && o < j.base.next
  }

  ghost predicate BothOk(j: Joint) {
    Ok(j.base) && Ok(j.sub) && Linked(j)
  }

  /**
    An access of the base type that delegates yields what the subclass exposes by then: the access to the subclass is a
    turn of its own, and comes first.
  */
  predicate MayTurn(j: Joint, t: Turn) {
    match t
    case OfBase(m) =>
      && Allowed(j.base, m) && !m.Elsewhere?
      && (m.DoAccess? && Delegates(j.base, m.buildable) ==> j.sub.config.instance == Some(m.via))
    case OfSub(m) =>
      && Allowed(j.sub, m)
      && (m.DoAccess? && Delegates(j.sub, m.buildable) ==> m.via !in j.base.live && m.via < j.sub.next)
  }

  function Turned(j: Joint, t: Turn): Joint
    requires MayTurn(j, t)
  {
    match t
    case OfBase(m) => var b := Moved(j.base, m); Joint(b, j.sub.(next := b.next))
    case OfSub(m) => var c := Moved(j.sub, m); Joint(j.base.(foreign := There(c), next := c.next), c)
  }

  /** No step is unsafe by itself, and nothing of the subclass goes away that the base type exposes or has stashed. */
  predicate SafeTurn(j: Joint, t: Turn)
    requires MayTurn(j, t)
  {
    match t
    case OfBase(m) => Safe(j.base, m)
    case OfSub(m) => Safe(j.sub, m) && forall o :: o in There(j.sub) - There(Moved(j.sub, m)) ==> !Published(j.base, o)
  }

  // ---- each access point for itself

  /** The turn as seen from the base type. */
  function BaseMove(j: Joint, t: Turn): Move
    requires MayTurn(j, t)
  {
    match t
    case OfBase(m) => m
    case OfSub(m) => var c := Moved(j.sub, m); Elsewhere(There(c), c.next)
  }

  /** The turn as seen from the subclass. */
  function SubMove(j: Joint, t: Turn): Move
    requires MayTurn(j, t)
  {
    match t
    case OfBase(m) => Elsewhere(j.sub.foreign, Moved(j.base, m).next)
    case OfSub(m) => m
  }

  /** Objects that come up are new, and only such an object, or one yielded by a delegate, is mentioned newly. */
  lemma MoveMentions(s: Situation, m: Move, o: Obj)
    requires Allowed(s, m)
    ensures s.next <= Moved(s, m).next
    ensures Mentions(Moved(s, m), o) ==>
              || Mentions(s, o) || s.next <= o < Moved(s, m).next
              || (m.DoAccess? && Delegates(s, m.buildable) && o == m.via)
    ensures o in There(Moved(s, m)) ==> o in There(s) || s.next <= o < Moved(s, m).next
  {
    var t := Moved(s, m);
    if m.Elsewhere? {
      assert o in m.foreign && o !in s.foreign ==> o in m.foreign - s.foreign;
    }
  }

  lemma BaseTurnLinked(j: Joint, m: Move)
    requires Linked(j) && MayTurn(j, OfBase(m))
    ensures Linked(Turned(j, OfBase(m)))
  {
    hide Moved, Allowed, Published;
    var t := Moved(j.base, m);
    MoveMentions(j.base, m, 0);
    MoveKeepsForeign(j.base, m);
    forall o | o in t.live ensures o < t.next && !Mentions(j.sub, o) {
      MoveMentions(j.base, m, o);
      assert o in There(t);
      if o !in j.base.live && o < j.base.next {
        MoveLives(j.base, m, o);
      }
    }
    SameMentions(j.sub, t.next);
  }

  lemma SameMentions(s: Situation, next: Obj)
    ensures forall o: Obj :: Mentions(s.(next := next), o) <==> Mentions(s, o)
  {
  }

  lemma MoveKeepsForeign(s: Situation, m: Move)
    requires Allowed(s, m) && !m.Elsewhere?
    ensures Moved(s, m).foreign == s.foreign
  {
  }

  /** What is owned newly is new. */
  lemma MoveLives(s: Situation, m: Move, o: Obj)
    requires Allowed(s, m) && o in Moved(s, m).live
    ensures o in s.live || s.next <= o < Moved(s, m).next
  {
  }

  lemma SubTurnLinked(j: Joint, m: Move)
    requires Linked(j) && MayTurn(j, OfSub(m))
    ensures Linked(Turned(j, OfSub(m))) && Allowed(j.base, BaseMove(j, OfSub(m)))
  {
    hide Moved, Published;
    var t := Moved(j.sub, m);
    MoveMentions(j.sub, m, 0);
    forall o: Obj | Mentions(t, o) ensures o !in j.base.live && o < t.next {
      MoveMentions(j.sub, m, o);
    }
    forall o | o in There(t) - There(j.sub) ensures j.sub.next <= o < t.next {
      MoveMentions(j.sub, m, o);
    }
  }

  /** The turn is a move allowed at either access point, and keeps them apart. */
  lemma TurnLinked(j: Joint, t: Turn)
    requires Linked(j) && MayTurn(j, t)
    ensures Allowed(j.base, BaseMove(j, t)) && Turned(j, t).base == Moved(j.base, BaseMove(j, t))
    ensures Allowed(j.sub, SubMove(j, t)) && Turned(j, t).sub == Moved(j.sub, SubMove(j, t))
    ensures SafeTurn(j, t) <==> Safe(j.base, BaseMove(j, t)) && Safe(j.sub, SubMove(j, t))
    ensures Linked(Turned(j, t))
  {
    match t {
      case OfBase(m) =>
        BaseTurnLinked(j, m);
        MoveMentions(j.base, m, 0);
      case OfSub(m) => SubTurnLinked(j, m);
    }
    hide Linked, Published;
  }

  // ---- runs

  predicate CanTurn(j: Joint, ts: seq<Turn>)
    decreases |ts|
  {
    ts == [] || (MayTurn(j, ts[0]) && CanTurn(Turned(j, ts[0]), ts[1..]))
  }

  function TurnedBy(j: Joint, ts: seq<Turn>): Joint
    requires CanTurn(j, ts)
    decreases |ts|
  {
    if ts == [] then j else TurnedBy(Turned(j, ts[0]), ts[1..])
  }

  predicate AllSafeTurns(j: Joint, ts: seq<Turn>)
    requires CanTurn(j, ts)
    decreases |ts|
  {
    ts == [] || (SafeTurn(j, ts[0]) && AllSafeTurns(Turned(j, ts[0]), ts[1..]))
  }

  /** At no time does either access point publish an object that is gone. */
  predicate NeitherDangling(j: Joint, ts: seq<Turn>)
    requires CanTurn(j, ts)
    decreases |ts|
  {
    NullOrLive(j.base) && NullOrLive(j.sub) && (ts != [] ==> NeitherDangling(Turned(j, ts[0]), ts[1..]))
  }

  function BaseMoves(j: Joint, ts: seq<Turn>): seq<Move>
    requires CanTurn(j, ts)
    decreases |ts|
  {
    if ts == [] then [] else [BaseMove(j, ts[0])] + BaseMoves(Turned(j, ts[0]), ts[1..])
  }

  function SubMoves(j: Joint, ts: seq<Turn>): seq<Move>
    requires CanTurn(j, ts)
    decreases |ts|
  {
    if ts == [] then [] else [SubMove(j, ts[0])] + SubMoves(Turned(j, ts[0]), ts[1..])
  }

  /** A joint run is a run of either access point, among objects of the other that come and go. */
  lemma {:induction false} Projected(j: Joint, ts: seq<Turn>)
    requires Linked(j) && CanTurn(j, ts)
    ensures CanDo(j.base, BaseMoves(j, ts)) && Done(j.base, BaseMoves(j, ts)) == TurnedBy(j, ts).base
    ensures CanDo(j.sub, SubMoves(j, ts)) && Done(j.sub, SubMoves(j, ts)) == TurnedBy(j, ts).sub
    ensures NeitherDangling(j, ts) <==>
            NeverDangling(j.base, BaseMoves(j, ts)) && NeverDangling(j.sub, SubMoves(j, ts))
    ensures AllSafeTurns(j, ts) <==> AllSafe(j.base, BaseMoves(j, ts)) && AllSafe(j.sub, SubMoves(j, ts))
    ensures Linked(TurnedBy(j, ts))
    decreases |ts|
  {
    hide Linked, MayTurn, Turned, SafeTurn, BaseMove, SubMove, Allowed, Moved, Safe, NullOrLive;
    if ts != [] {
      TurnLinked(j, ts[0]);
      Projected(Turned(j, ts[0]), ts[1..]);
      assert BaseMoves(j, ts)[1..] == BaseMoves(Turned(j, ts[0]), ts[1..]);
      assert SubMoves(j, ts)[1..] == SubMoves(Turned(j, ts[0]), ts[1..]);
    }
  }

  /**
    Any use of both access points, after which no handle is left at either: what they publish is null or live at all
    times exactly if all turns are safe.
  */
  lemma NeitherDanglingExactly(j: Joint, ts: seq<Turn>)
    requires BothOk(j) && CanTurn(j, ts)
    requires TurnedBy(j, ts).base.handles == [] && TurnedBy(j, ts).sub.handles == []
    ensures NeitherDangling(j, ts) <==> AllSafeTurns(j, ts)
    ensures AllSafeTurns(j, ts) ==> BothOk(TurnedBy(j, ts))
  {
    Projected(j, ts);
    NeverDanglingExactly(j.base, BaseMoves(j, ts));
    NeverDanglingExactly(j.sub, SubMoves(j, ts));
  }

  // ---- a run that fails

  /** The last handle of the subclass is a mock handle, whose mock is exposed, and the base type is to delegate. */
  ghost predicate MockDelegated(j: Joint, o: Obj) {
    && BothOk(j) && j.sub.config.instance == Some(o)
    && j.sub.handles != [] && j.sub.handles[|j.sub.handles| - 1].Local?
    && j.sub.handles[|j.sub.handles| - 1].mock == Some(o)
    && j.base.config.instance.None? && j.base.config.creator.Delegate?
  }

  /** The base type then publishes the mock, and goes on to do so when the mock is gone. */
  lemma DelegateDies(j: Joint, o: Obj)
    requires MockDelegated(j, o)
    ensures var access := OfBase(DoAccess(true, o));
            && MayTurn(j, access) && SafeTurn(j, access)
            && var k := Turned(j, access);
            && MayTurn(k, OfSub(Pop)) && !SafeTurn(k, OfSub(Pop))
            && var l := Turned(k, OfSub(Pop));
            && l.base.config.instance == Some(o) && !NullOrLive(l.base) && l.base.handles == j.base.handles
  {
    var n := |j.sub.handles| - 1;
    assert j.sub.handles[n].Owned() == {o} && o in j.sub.live;
    var k := Turned(j, OfBase(DoAccess(true, o)));
    assert o in There(k.sub) - There(Moved(k.sub, Pop));
    assert Published(k.base, o);
  }

  /** Such a state is reached from the start. */
  lemma MockGetsDelegated() returns (ts: seq<Turn>)
    ensures var s := Situation(Config(None, Default, []), [], {}, 0, {});
            CanTurn(Joint(s, s), ts) && AllSafeTurns(Joint(s, s), ts) && MockDelegated(TurnedBy(Joint(s, s), ts), 0)
  {
    hide MayTurn, Turned, SafeTurn, CanTurn, TurnedBy, AllSafeTurns, MockDelegated, TurnsTo;
    var s := Situation(Config(None, Default, []), [], {}, 0, {});
    var c := Situation(Config(None, Mock, []), [Local(None, s.config)], {}, 0, {});
    var d := Situation(Config(Some(0), Disabled, [ResetInstance]), [Local(Some(0), s.config)], {0}, 1, {});
    var b := s.(next := 1, foreign := {0});
    var e := b.(config := Config(None, Delegate, []));
    var r, t, u := OfSub(PushMock), OfSub(DoAccess(true, 0)), OfBase(DoUseSingleton(Delegating));
    PrepareMock(s, c, d, b, e);
    RunNone(Joint(e, d));
    RunMore(Joint(e, d), [], u, Joint(b, d));
    RunMore(Joint(b, d), [u] + [], t, Joint(s, c));
    RunMore(Joint(s, c), [t] + ([u] + []), r, Joint(s, s));
    ts := [r] + ([t] + ([u] + []));
    assert BothOk(Joint(s, s));
    TurnOk(Joint(s, s), r, Joint(s, c));
    TurnOk(Joint(s, c), t, Joint(b, d));
    TurnOk(Joint(b, d), u, Joint(e, d));
    IsMockDelegated(Joint(e, d), s);
  }

  lemma PrepareMock(s: Situation, c: Situation, d: Situation, b: Situation, e: Situation)
    requires s == Situation(Config(None, Default, []), [], {}, 0, {})
    requires c == Situation(Config(None, Mock, []), [Local(None, s.config)], {}, 0, {})
    requires d == Situation(Config(Some(0), Disabled, [ResetInstance]), [Local(Some(0), s.config)], {0}, 1, {})
    requires b == s.(next := 1, foreign := {0}) && e == b.(config := Config(None, Delegate, []))
    ensures TurnsTo(Joint(s, s), OfSub(PushMock), Joint(s, c))
    ensures TurnsTo(Joint(s, c), OfSub(DoAccess(true, 0)), Joint(b, d))
    ensures TurnsTo(Joint(b, d), OfBase(DoUseSingleton(Delegating)), Joint(e, d))
  {
    assert Moved(s, PushMock) == c;
    assert There(c) == {};
    assert Moved(c, DoAccess(true, 0)) == d;
    assert There(d) == {0};
    assert Moved(b, DoUseSingleton(Delegating)) == e;
    assert There(c) - There(d) == {};
  }

  predicate TurnsTo(j: Joint, t: Turn, k: Joint) {
    MayTurn(j, t) && Turned(j, t) == k && SafeTurn(j, t)
  }

  lemma RunMore(k: Joint, ts: seq<Turn>, t: Turn, j: Joint)
    requires TurnsTo(j, t, k) && CanTurn(k, ts) && AllSafeTurns(k, ts)
    ensures CanTurn(j, [t] + ts) && AllSafeTurns(j, [t] + ts) && TurnedBy(j, [t] + ts) == TurnedBy(k, ts)
  {
    hide MayTurn, Turned, SafeTurn;
    assert ([t] + ts)[1..] == ts;
  }

  lemma IsMockDelegated(j: Joint, s: Situation)
    requires BothOk(j) && j.sub.config.instance == Some(0) && j.sub.handles == [Local(Some(0), s.config)]
    requires j.base.config == Config(None, Delegate, [])
    ensures MockDelegated(j, 0)
  {
  }

  lemma RunNone(j: Joint)
    ensures CanTurn(j, []) && AllSafeTurns(j, []) && TurnedBy(j, []) == j
  {
  }

  /** A safe turn keeps both access points in order. */
  lemma TurnOk(j: Joint, t: Turn, k: Joint)
    requires BothOk(j) && TurnsTo(j, t, k)
    ensures BothOk(k)
  {
    hide Ok, Linked, MayTurn, Turned, SafeTurn, BaseMove, SubMove;
    TurnLinked(j, t);
    StepOk(j.base, BaseMove(j, t));
    StepOk(j.sub, SubMove(j, t));
  }
}
