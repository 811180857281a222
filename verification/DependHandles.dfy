/**
  Configuration of a dependency: singletons, services with a lifecycle and temporary mocks.
  The handles in use are kept in the order of their creation and go away last first.
*/
module DependHandles {
  import opened DependAccess

  /** The configurable part of the access point. */
  datatype Config = Config(instance: Option<Obj>, creator: Creator, deleter: seq<Action>)

  /** A service handle owns its service while active; a mock handle owns its mock and the stashed configuration. */
  datatype Handle =
    | ServiceInstance(service: Option<Obj>)
    | Local(mock: Option<Obj>, stash: Config)
  {
    function Owned(): set<Obj> {
      match this
      case ServiceInstance(o) => if o.Some? then {o.value} else {}
      case Local(o, _) => if o.Some? then {o.value} else {}
    }
  }

  function DeletedBy(deleter: seq<Action>): seq<Obj> {
    if deleter == [] then []
    else (if deleter[0].Delete? then [deleter[0].obj] else []) + DeletedBy(deleter[1..])
  }

  ghost predicate NoDuplicates(s: seq<Obj>) {
    forall i, j :: 0 <= i < j < |s| ==> s[i] != s[j]
  }

  /**
    The exposed instance exists and rules out building another; what the factory is to delete
    exists, each listed once, and in the end the instance is reset. Foreign objects belong to somebody else.
  */
  ghost predicate ConfigOk(c: Config, live: set<Obj>, foreign: set<Obj>) {
    && (c.instance.Some? ==> c.instance.value in live + foreign && c.creator.Disabled?)
    && (forall o :: o in DeletedBy(c.deleter) ==> o in live)
    && NoDuplicates(DeletedBy(c.deleter))
    && (c.deleter != [] ==> c.deleter[|c.deleter| - 1].ResetInstance?)
  }

  lemma DeletedByStep(deleter: seq<Action>)
    ensures deleter == [] ==> DeletedBy(deleter) == []
    ensures deleter != [] && deleter[0].Delete? ==> DeletedBy(deleter) == [deleter[0].obj] + DeletedBy(deleter[1..])
    ensures deleter != [] && !deleter[0].Delete? ==> DeletedBy(deleter) == DeletedBy(deleter[1..])
  {
  }

  lemma {:induction false} DeletedByConcat(a: seq<Action>, b: seq<Action>)
    ensures DeletedBy(a + b) == DeletedBy(a) + DeletedBy(b)
  {
    hide DeletedBy;
    DeletedByStep(a);
    DeletedByStep(a + b);
    if a == [] {
      assert a + b == b;
    } else {
      assert (a + b)[0] == a[0] && (a + b)[1..] == a[1..] + b;
      DeletedByConcat(a[1..], b);
    }
  }

  lemma NextDeleted(deleter: seq<Action>, i: nat)
    requires i < |deleter| && NoDuplicates(DeletedBy(deleter[i..]))
    ensures DeletedBy(deleter[i..])
            == (if deleter[i].Delete? then [deleter[i].obj] else []) + DeletedBy(deleter[i + 1..])
    ensures NoDuplicates(DeletedBy(deleter[i + 1..]))
    ensures deleter[i].Delete? ==> deleter[i].obj !in DeletedBy(deleter[i + 1..])
  {
    assert deleter[i..][1..] == deleter[i + 1..];
    var all, rest := DeletedBy(deleter[i..]), DeletedBy(deleter[i + 1..]);
    var n := |all| - |rest|;
    assert forall k :: 0 <= k < |rest| ==> rest[k] == all[n + k];
    if deleter[i].Delete? {
      assert all[0] == deleter[i].obj && n == 1;
    }
  }

  // ---- the invariant

  /** The instance exposed by `c` does not go away with handle `h`. */
  ghost predicate Outlives(c: Config, h: Handle) {
    c.instance.Some? ==> c.instance.value !in h.Owned()
  }

  /** Nothing that `h` owns is deleted by the factory. */
  ghost predicate Apart(c: Config, h: Handle) {
    forall o :: o in DeletedBy(c.deleter) ==> o !in h.Owned()
  }

  /** The innermost mock handle, if there is one. */
  function Innermost(hs: seq<Handle>): (i: int)
    ensures -1 <= i < |hs| && (0 <= i ==> hs[i].Local?)
    ensures forall j :: i < j < |hs| ==> !hs[j].Local?
  {
    if hs == [] then -1 else if hs[|hs| - 1].Local? then |hs| - 1 else Innermost(hs[..|hs| - 1])
  }

  /** A mock that is still to be built belongs to the innermost mock handle of `hs`. */
  ghost predicate MockPending(c: Config, hs: seq<Handle>) {
    c.creator.Mock? ==> 0 <= Innermost(hs) && hs[Innermost(hs)].mock.None?
  }

  /** What is stashed is in order, and survives the handles further in. */
  ghost predicate HandlesOk(hs: seq<Handle>, live: set<Obj>, foreign: set<Obj>) {
    && (forall i :: 0 <= i < |hs| ==> hs[i].Owned() <= live)
    && (forall i :: 0 <= i < |hs| && hs[i].Local? ==>
          ConfigOk(hs[i].stash, live, foreign) && MockPending(hs[i].stash, hs[..i]))
    && (forall i, j :: 0 <= i <= j < |hs| && hs[i].Local? ==> Outlives(hs[i].stash, hs[j]))
    && (forall i, j :: 0 <= i < |hs| && 0 <= j < |hs| && hs[i].Local? ==> Apart(hs[i].stash, hs[j]))
    && (forall i, j :: 0 <= i < j < |hs| ==> hs[i].Owned() !! hs[j].Owned())
  }

  /** Of the objects that exist, `live` are owned here, and `foreign` by the access points of other types. */
  datatype Situation =
    Situation(config: Config, handles: seq<Handle>, live: set<Obj>, next: Obj, foreign: set<Obj>)

  ghost predicate Ok(s: Situation) {
    && (forall o :: o in s.live + s.foreign ==> o < s.next) && s.live !! s.foreign
    && ConfigOk(s.config, s.live, s.foreign) && HandlesOk(s.handles, s.live, s.foreign)
    && (forall i :: 0 <= i < |s.handles| ==> Apart(s.config, s.handles[i]))
    && MockPending(s.config, s.handles)
  }

  /** Clients are never given an object that does not exist any more. */
  predicate NullOrLive(s: Situation) {
    s.config.instance.Some? ==> s.config.instance.value in s.live + s.foreign
  }

  // ---- what can be done

  /** How a singleton is configured: as before, by a function for the same type, or by delegation to a subclass. */
  datatype Singleton = SameDefault | Managing | Delegating

  datatype Move =
    | DoAccess(buildable: bool, via: Obj)
    | DoUseSingleton(kind: Singleton)
    | PushIdle
    | PushService(buildable: bool)
    | PushMock
    | DoCreate(i: nat, buildable: bool)
    | DoShutdown(i: nat)
    | Pop
    | Elsewhere(foreign: set<Obj>, next: Obj)

  /** An access has to ask the access point of the subclass. */
  predicate Delegates(s: Situation, buildable: bool) {
    s.config.instance.None? && s.config.creator.Delegate? && buildable
  }

  /** Handles are addressed by their level. A delegate yields foreign objects; those that come up are new. */
  predicate Allowed(s: Situation, a: Move) {
    match a
    case DoAccess(buildable, via) => Delegates(s, buildable) ==> via !in s.live
    case Elsewhere(foreign, next) => s.next <= next && forall o :: o in foreign - s.foreign ==> s.next <= o < next
    case DoCreate(i, _) => i < |s.handles| && s.handles[i].ServiceInstance?
    case DoShutdown(i) => i < |s.handles| && s.handles[i].ServiceInstance?
    case Pop => s.handles != []
    case _ => true
  }

  /** The configuration and handles after the factory has built `o`. */
  function BuiltConfig(c: Config, o: Obj): Config {
    Config(Some(o), Disabled, DeleterFor(c.creator, c.deleter, o) + [ResetInstance])
  }

  function BuiltHandles(c: Config, hs: seq<Handle>, o: Obj): seq<Handle> {
    if c.creator.Mock? && 0 <= Innermost(hs) then hs[Innermost(hs) := hs[Innermost(hs)].(mock := Some(o))] else hs
  }

  /** Access from within one thread; `via` is what the subclass yields if access is delegated to it. */
  function Accessed(s: Situation, buildable: bool, via: Obj): Situation {
    if s.config.instance.Some? || s.config.creator.Disabled? || !buildable then s
    else if Delegates(s, buildable) then s.(config := BuiltConfig(s.config, via))
    else s.(config := BuiltConfig(s.config, s.next), handles := BuiltHandles(s.config, s.handles, s.next),
            live := s.live + {s.next}, next := s.next + 1)
  }

  /** This is what the threads do, one of which waits for the lock: see `Finished`. */
  lemma AccessedByThread(s: Situation, p: State, t: Thread)
    requires Inv(p) && t in p.pcs && p.pcs[t].MustLock? && p.lock.None? && p.next == s.next
    requires Config(p.instance, p.creator, p.deleter) == s.config && s.config.instance.None?
    requires !s.config.creator.Disabled?
    ensures var r := Finished(p, t, true);
            Accessed(s, true, s.next).config == Config(r.instance, r.creator, r.deleter)
  {
    AccessBuilds(p, t);
  }

  function Reconfigured(s: Situation, kind: Singleton): Situation {
    if kind.SameDefault? || s.config.instance.Some? then s
    else s.(config := s.config.(creator := if kind.Delegating? then Delegate else Managed))
  }

  /** A new service takes the place of what handle `i` has; it is exposed unless something else is. */
  function Created(s: Situation, i: nat, buildable: bool): Situation
    requires i < |s.handles| && s.handles[i].ServiceInstance?
  {
    if !buildable then s
    else s.(config := if s.config.instance.Some? then s.config else Config(Some(s.next), Disabled, s.config.deleter),
            handles := s.handles[i := ServiceInstance(Some(s.next))],
            live := s.live - s.handles[i].Owned() + {s.next}, next := s.next + 1)
  }

  /** The service of handle `i` is gone; whatever is exposed by then, access is closed and inhibited. */
  function ShutDown(s: Situation, i: nat): Situation
    requires i < |s.handles| && s.handles[i].ServiceInstance?
  {
    if s.handles[i].service.None? then s
    else s.(config := Config(None, Disabled, s.config.deleter), handles := s.handles[i := ServiceInstance(None)],
            live := s.live - s.handles[i].Owned())
  }

  /** The last handle goes away: a service is shut down, a mock handle restores what it has stashed. */
  function Popped(s: Situation): Situation
    requires s.handles != []
  {
    var n := |s.handles| - 1;
    match s.handles[n]
    case ServiceInstance(_) => var t := ShutDown(s, n); t.(handles := t.handles[..n])
    case Local(_, stash) =>
      s.(config := stash, handles := s.handles[..n], live := s.live - s.handles[n].Owned())
  }

  function Pushed(s: Situation, h: Handle): Situation {
    s.(handles := s.handles + [h])
  }

  function Moved(s: Situation, a: Move): Situation
    requires Allowed(s, a)
  {
    match a
    case DoAccess(buildable, via) => Accessed(s, buildable, via)
    case DoUseSingleton(kind) => Reconfigured(s, kind)
    case PushIdle => Pushed(s, ServiceInstance(None))
    case PushService(buildable) =>
      if buildable && s.config.instance.None? then Created(Pushed(s, ServiceInstance(None)), |s.handles|, true) else s
    case PushMock => Pushed(s, Local(None, s.config)).(config := Config(None, Mock, []))
    case DoCreate(i, buildable) => Created(s, i, buildable)
    case DoShutdown(i) => ShutDown(s, i)
    case Pop => Popped(s)
    case Elsewhere(foreign, next) => s.(foreign := foreign, next := next)
  }

  /** A mock handle further in has stashed the service of handle `i` as the instance to be restored. */
  predicate Shadowed(hs: seq<Handle>, i: nat)
    requires i < |hs| && hs[i].ServiceInstance?
  {
    hs[i].service.Some? && exists j :: i < j < |hs| && hs[j].Local? && hs[j].stash.instance == hs[i].service
  }

  /** The object is exposed, or stashed as the instance to be restored. */
  predicate Published(s: Situation, o: Obj) {
    s.config.instance == Some(o)
    || exists j :: 0 <= j < |s.handles| && s.handles[j].Local? && s.handles[j].stash.instance == Some(o)
  }

  /**
    No step destroys a service that is stashed, or replaces one that is exposed; no foreign object is exposed that is
    gone, or goes away while it is exposed or stashed.
  */
  predicate Safe(s: Situation, a: Move)
    requires Allowed(s, a)
  {
    match a
    case DoAccess(buildable, via) => Delegates(s, buildable) ==> via in s.foreign
    case Elsewhere(foreign, _) => forall o :: o in s.foreign - foreign ==> !Published(s, o)
    case DoCreate(i, buildable) =>
      !buildable || s.handles[i].service.None?
      || (s.config.instance != s.handles[i].service && !Shadowed(s.handles, i))
    case DoShutdown(i) => !Shadowed(s.handles, i)
    case _ => true
  }

  // ---- safe steps keep the invariant

  lemma BuiltDeletes(c: Config, o: Obj)
    ensures DeletedBy(BuiltConfig(c, o).deleter)
            == DeletedBy(c.deleter) + if c.creator.Default? || c.creator.Managed? then [o] else []
  {
    DeletedByConcat(c.deleter, [Delete(o)]);
    DeletedByConcat(DeleterFor(c.creator, c.deleter, o), [ResetInstance]);
    assert DeletedBy([Delete(o)]) == [o];
    assert DeletedBy([ResetInstance]) == [];
  }

  lemma HandlesGrow(hs: seq<Handle>, live: set<Obj>, live': set<Obj>, foreign: set<Obj>)
    requires HandlesOk(hs, live, foreign) && live <= live'
    ensures HandlesOk(hs, live', foreign)
  {
  }

  lemma {:induction false} InnermostAppend(hs: seq<Handle>, h: Handle)
    ensures Innermost(hs + [h]) == if h.Local? then |hs| else Innermost(hs)
  {
    assert (hs + [h])[..|hs|] == hs;
  }

  lemma {:induction false} InnermostKept(hs: seq<Handle>, i: nat, h: Handle)
    requires i < |hs| && (h.Local? <==> hs[i].Local?)
    ensures Innermost(hs[i := h]) == Innermost(hs)
  {
    var n := |hs| - 1;
    if i < n {
      assert hs[i := h][..n] == hs[..n][i := h];
      InnermostKept(hs[..n], i, h);
    } else {
      assert hs[i := h][..n] == hs[..n];
    }
  }

  /** A handle takes over an object just built: a mock handle without another further in, or a service handle. */
  lemma HandleTakes(hs: seq<Handle>, k: nat, h: Handle, live: set<Obj>, foreign: set<Obj>, o: Obj)
    requires HandlesOk(hs, live, foreign) && k < |hs| && hs[k].Owned() == {} && o !in live + foreign
    requires h.Owned() == {o}
    requires (h.Local? <==> hs[k].Local?) && (h.Local? ==> h.stash == hs[k].stash)
    requires h.Local? ==> forall j :: k < j < |hs| ==> !hs[j].Local?
    ensures HandlesOk(hs[k := h], live + {o}, foreign)
  {
    var hs' := hs[k := h];
    assert forall i :: 0 <= i < |hs| && i != k ==> hs'[i] == hs[i];
    forall i | 0 <= i < |hs'| && hs'[i].Local?
      ensures ConfigOk(hs'[i].stash, live + {o}, foreign) && MockPending(hs'[i].stash, hs'[..i])
    {
      assert ConfigOk(hs[i].stash, live, foreign) && MockPending(hs[i].stash, hs[..i]);
      PendingKept(hs[i].stash, hs, k, h, i);
    }
    forall i, j | 0 <= i < |hs'| && 0 <= j < |hs'| && hs'[i].Local?
      ensures Apart(hs'[i].stash, hs'[j]) && (i <= j ==> Outlives(hs'[i].stash, hs'[j]))
    {
      NewObjectIsApart(hs[i].stash, hs[j], hs'[j], live, foreign, o);
    }
    hide Handle.Owned;
    forall i, j | 0 <= i < j < |hs'| ensures hs'[i].Owned() !! hs'[j].Owned() {
      assert hs[i].Owned() !! hs[j].Owned();
    }
  }

  lemma PendingKept(c: Config, hs: seq<Handle>, k: nat, h: Handle, i: nat)
    requires k < |hs| && i <= |hs| && MockPending(c, hs[..i]) && (h.Local? <==> hs[k].Local?)
    requires h.Local? ==> i <= k
    ensures MockPending(c, hs[k := h][..i])
  {
    if k < i {
      assert hs[k := h][..i] == hs[..i][k := h];
      InnermostKept(hs[..i], k, h);
    } else {
      assert hs[k := h][..i] == hs[..i];
    }
  }

  lemma NewObjectIsApart(c: Config, h: Handle, h': Handle, live: set<Obj>, foreign: set<Obj>, o: Obj)
    requires ConfigOk(c, live, foreign) && Apart(c, h) && o !in live + foreign
    requires h' == h || h'.Owned() == {o}
    ensures Apart(c, h') && (Outlives(c, h) ==> Outlives(c, h'))
  {
  }

  /** A service handle loses its service, which no mock handle further in has stashed. */
  lemma HandleLoses(hs: seq<Handle>, k: nat, live: set<Obj>, foreign: set<Obj>)
    requires HandlesOk(hs, live, foreign) && k < |hs| && hs[k].ServiceInstance? && !Shadowed(hs, k)
    ensures HandlesOk(hs[k := ServiceInstance(None)], live - hs[k].Owned(), foreign)
  {
    var hs', live' := hs[k := ServiceInstance(None)], live - hs[k].Owned();
    assert forall i :: 0 <= i < |hs| && i != k ==> hs'[i] == hs[i];
    forall i | 0 <= i < |hs'| && hs'[i].Local?
      ensures ConfigOk(hs'[i].stash, live', foreign) && MockPending(hs'[i].stash, hs'[..i])
    {
      assert ConfigOk(hs[i].stash, live, foreign) && MockPending(hs[i].stash, hs[..i]) && Apart(hs[i].stash, hs[k]);
      assert i <= k ==> Outlives(hs[i].stash, hs[k]);
      PendingKept(hs[i].stash, hs, k, ServiceInstance(None), i);
    }
    hide ConfigOk, MockPending;
    forall i | 0 <= i < |hs'| ensures hs'[i].Owned() <= live' {
      if i != k {
        assert hs[i].Owned() !! hs[k].Owned();
      }
    }
  }

  lemma PushHandle(hs: seq<Handle>, live: set<Obj>, foreign: set<Obj>, h: Handle)
    requires HandlesOk(hs, live, foreign) && h.Owned() == {}
    requires h.Local? ==> ConfigOk(h.stash, live, foreign) && MockPending(h.stash, hs)
    requires h.Local? ==> forall i :: 0 <= i < |hs| ==> Apart(h.stash, hs[i])
    ensures HandlesOk(hs + [h], live, foreign)
  {
    hide ConfigOk, MockPending;
    var hs' := hs + [h];
    assert forall i :: 0 <= i < |hs| ==> hs'[i] == hs[i] && hs'[..i] == hs[..i];
    assert hs'[..|hs|] == hs;
    forall i | 0 <= i < |hs'| && hs'[i].Local? ensures MockPending(hs'[i].stash, hs'[..i]) {
      if i < |hs| {
        assert MockPending(hs[i].stash, hs[..i]);
      }
    }
  }

  /** What is owned by the last handle goes away with it, and nobody else refers to that. */
  lemma PopHandle(hs: seq<Handle>, live: set<Obj>, foreign: set<Obj>)
    requires HandlesOk(hs, live, foreign) && hs != []
    ensures HandlesOk(hs[..|hs| - 1], live - hs[|hs| - 1].Owned(), foreign)
  {
    var n := |hs| - 1;
    var hs', live' := hs[..n], live - hs[n].Owned();
    forall i | 0 <= i < n && hs'[i].Local?
      ensures ConfigOk(hs'[i].stash, live', foreign) && MockPending(hs'[i].stash, hs'[..i])
    {
      assert hs'[..i] == hs[..i];
      assert ConfigOk(hs[i].stash, live, foreign) && Outlives(hs[i].stash, hs[n]) && Apart(hs[i].stash, hs[n]);
    }
    hide ConfigOk, MockPending, Outlives, Apart;
  }

  /** A mock that is built goes to its handle. */
  lemma BuildMockOk(s: Situation, via: Obj)
    requires Ok(s) && s.config.instance.None? && s.config.creator.Mock?
    ensures Ok(Accessed(s, true, via))
  {
    var k := Innermost(s.handles);
    BuiltDeletes(s.config, s.next);
    HandleTakes(s.handles, k, s.handles[k].(mock := Some(s.next)), s.live, s.foreign, s.next);
    hide HandlesOk, NoDuplicates;
  }

  /** Building keeps all in order. */
  lemma BuildOk(s: Situation, via: Obj)
    requires Ok(s) && s.config.instance.None? && s.config.creator !in {Disabled, Delegate}
    ensures Ok(Accessed(s, true, via))
  {
    if s.config.creator.Mock? {
      BuildMockOk(s, via);
    } else {
      BuiltDeletes(s.config, s.next);
      HandlesGrow(s.handles, s.live, s.live + {s.next}, s.foreign);
      NewIsNotOwned(s);
    }
  }

  lemma NewIsNotOwned(s: Situation)
    requires Ok(s)
    ensures forall i :: 0 <= i < |s.handles| ==> s.next !in s.handles[i].Owned()
  {
  }

  /** What the subclass yields is not owned here, but by its own access point. */
  lemma DelegateOk(s: Situation, via: Obj)
    requires Ok(s) && Delegates(s, true) && via in s.foreign
    ensures Ok(Accessed(s, true, via))
  {
    BuiltDeletes(s.config, via);
  }

  /** Foreign objects come and go, but none goes away that is exposed or stashed. */
  lemma ElsewhereOk(s: Situation, foreign: set<Obj>, next: Obj)
    requires Ok(s) && Allowed(s, Elsewhere(foreign, next)) && Safe(s, Elsewhere(foreign, next))
    ensures Ok(Moved(s, Elsewhere(foreign, next)))
  {
    forall o | o in s.live + foreign ensures o < next && !(o in s.live && o in foreign) {
      if o in foreign && o !in s.foreign {
        assert o in foreign - s.foreign;
      } else {
        assert o in s.live + s.foreign;
      }
      if o in s.live {
        assert o in s.live + s.foreign;
      }
    }
    if s.config.instance.Some? {
      assert Published(s, s.config.instance.value);
      assert s.config.instance.value !in s.foreign - foreign;
    }
    HandlesElsewhere(s, foreign);
    hide HandlesOk, NoDuplicates;
  }

  lemma HandlesElsewhere(s: Situation, foreign: set<Obj>)
    requires HandlesOk(s.handles, s.live, s.foreign)
    requires forall o :: o in s.foreign - foreign ==> !Published(s, o)
    ensures HandlesOk(s.handles, s.live, foreign)
  {
    hide NoDuplicates, MockPending, Apart, Outlives, Handle.Owned;
    forall j | 0 <= j < |s.handles| && s.handles[j].Local? ensures ConfigOk(s.handles[j].stash, s.live, foreign) {
      var c := s.handles[j].stash;
      assert ConfigOk(c, s.live, s.foreign);
      assert c.instance.Some? ==> Published(s, c.instance.value);
    }
  }

  /** The last handle is a mock handle: nothing in the stash refers to what goes away with it. */
  lemma RestoreOk(s: Situation)
    requires Ok(s) && s.handles != [] && s.handles[|s.handles| - 1].Local?
    ensures Ok(Popped(s))
  {
    var n, hs := |s.handles| - 1, s.handles;
    PopHandle(hs, s.live, s.foreign);
    assert Outlives(hs[n].stash, hs[n]) && Apart(hs[n].stash, hs[n]);
    assert ConfigOk(hs[n].stash, s.live - hs[n].Owned(), s.foreign) && MockPending(hs[n].stash, hs[..n]);
    assert forall i :: 0 <= i < n ==> Apart(hs[n].stash, hs[i]);
    assert Popped(s).live + s.foreign <= s.live + s.foreign && Popped(s).live !! s.foreign;
    assert Popped(s).handles == hs[..n] && Popped(s).config == hs[n].stash;
    hide HandlesOk, ConfigOk;
  }

  /** The service of any handle may go away, unless a mock handle further in has stashed it. */
  lemma ShutdownOk(s: Situation, i: nat)
    requires Ok(s) && i < |s.handles| && s.handles[i].ServiceInstance? && !Shadowed(s.handles, i)
    ensures Ok(ShutDown(s, i))
  {
    if s.handles[i].service.Some? {
      HandleLoses(s.handles, i, s.live, s.foreign);
      InnermostKept(s.handles, i, ServiceInstance(None));
      hide HandlesOk;
      assert Apart(s.config, s.handles[i]);
    }
  }

  /** The service that is replaced goes away first. */
  lemma ReplaceOk(s: Situation, i: nat)
    requires Ok(s) && i < |s.handles| && s.handles[i].ServiceInstance? && s.handles[i].service.Some?
    requires !Shadowed(s.handles, i) && s.config.instance != s.handles[i].service
    ensures Ok(s.(handles := s.handles[i := ServiceInstance(None)], live := s.live - s.handles[i].Owned()))
  {
    HandleLoses(s.handles, i, s.live, s.foreign);
    InnermostKept(s.handles, i, ServiceInstance(None));
    hide HandlesOk;
    assert Apart(s.config, s.handles[i]);
  }

  lemma CreateOk(s: Situation, i: nat)
    requires Ok(s) && i < |s.handles| && s.handles[i] == ServiceInstance(None)
    ensures Ok(Created(s, i, true))
  {
    hide Innermost, NoDuplicates;
    assert s.live - s.handles[i].Owned() == s.live;
    HandleTakes(s.handles, i, ServiceInstance(Some(s.next)), s.live, s.foreign, s.next);
    InnermostKept(s.handles, i, ServiceInstance(Some(s.next)));
    hide HandlesOk;
  }

  lemma PushIdleOk(s: Situation)
    requires Ok(s)
    ensures Ok(Pushed(s, ServiceInstance(None)))
  {
    hide HandlesOk;
    PushHandle(s.handles, s.live, s.foreign, ServiceInstance(None));
    InnermostAppend(s.handles, ServiceInstance(None));
  }

  lemma PushMockOk(s: Situation)
    requires Ok(s)
    ensures Ok(Moved(s, PushMock))
  {
    hide HandlesOk;
    PushHandle(s.handles, s.live, s.foreign, Local(None, s.config));
    InnermostAppend(s.handles, Local(None, s.config));
  }

  lemma PopServiceOk(s: Situation)
    requires Ok(s) && s.handles != [] && s.handles[|s.handles| - 1].ServiceInstance?
    ensures Ok(Popped(s))
  {
    hide Ok;
    var n := |s.handles| - 1;
    ShutdownOk(s, n);
    DropIdleOk(ShutDown(s, n));
  }

  lemma DropIdleOk(s: Situation)
    requires Ok(s) && s.handles != [] && s.handles[|s.handles| - 1] == ServiceInstance(None)
    ensures Ok(s.(handles := s.handles[..|s.handles| - 1]))
  {
    hide HandlesOk, ConfigOk, Innermost;
    var n := |s.handles| - 1;
    PopHandle(s.handles, s.live, s.foreign);
    assert s.live - s.handles[n].Owned() == s.live;
    InnermostAppend(s.handles[..n], s.handles[n]);
    assert s.handles == s.handles[..n] + [s.handles[n]];
  }

  /** Every safe step keeps the invariant. */
  lemma StepOk(s: Situation, a: Move)
    requires Ok(s) && Allowed(s, a) && Safe(s, a)
    ensures Ok(Moved(s, a))
  {
    hide Ok;
    match a {
      case DoAccess(_, _) => AccessOk(s, a.buildable, a.via);
      case DoUseSingleton(_) => ReconfigureOk(s, a.kind);
      case PushIdle => PushIdleOk(s);
      case PushService(_) =>
        PushIdleOk(s);
        CreateOk(Pushed(s, ServiceInstance(None)), |s.handles|);
      case PushMock => PushMockOk(s);
      case DoCreate(i, _) =>
        if a.buildable {
          CreateSafely(s, i);
        }
      case DoShutdown(i) => ShutdownOk(s, i);
      case Pop =>
        if s.handles[|s.handles| - 1].Local? {
          RestoreOk(s);
        } else {
          PopServiceOk(s);
        }
      case Elsewhere(foreign, next) => ElsewhereOk(s, foreign, next);
    }
  }

  lemma AccessOk(s: Situation, buildable: bool, via: Obj)
    requires Ok(s) && (Delegates(s, buildable) ==> via in s.foreign)
    ensures Ok(Accessed(s, buildable, via))
  {
    if Delegates(s, buildable) {
      DelegateOk(s, via);
    } else if s.config.instance.None? && !s.config.creator.Disabled? && buildable {
      BuildOk(s, via);
    }
  }

  lemma ReconfigureOk(s: Situation, kind: Singleton)
    requires Ok(s)
    ensures Ok(Reconfigured(s, kind))
  {
    hide HandlesOk;
  }

  lemma CreateSafely(s: Situation, i: nat)
    requires Ok(s) && i < |s.handles| && s.handles[i].ServiceInstance? && Safe(s, DoCreate(i, true))
    ensures Ok(Created(s, i, true))
  {
    hide Ok;
    if s.handles[i].service.Some? {
      ReplaceOk(s, i);
      var t := s.(handles := s.handles[i := ServiceInstance(None)], live := s.live - s.handles[i].Owned());
      CreateOk(t, i);
      assert Created(t, i, true).handles == Created(s, i, true).handles;
      assert t.live - t.handles[i].Owned() == t.live;
    } else {
      CreateOk(s, i);
    }
  }

  lemma OkIsNullOrLive(s: Situation)
    requires Ok(s)
    ensures NullOrLive(s)
  {
  }

  // ---- closing

  /** After `k` handles have gone away. */
  function PoppedBy(s: Situation, k: nat): Situation
    requires k <= |s.handles|
    decreases k
  {
    if k == 0 then s else PoppedMore(s, k); Popped(PoppedBy(s, k - 1))
  }

  lemma {:induction false} PoppedMore(s: Situation, k: nat)
    requires 0 < k <= |s.handles|
    ensures |PoppedBy(s, k - 1).handles| == |s.handles| - (k - 1)
    decreases k, 0
  {
    if k > 1 {
      PoppedMore(s, k - 1);
    }
  }

  /** From now on until all handles have gone away, the published instance is null or live. */
  ghost predicate ClosesWell(s: Situation) {
    forall k :: 0 <= k <= |s.handles| ==> NullOrLive(PoppedBy(s, k))
  }

  lemma {:induction false} OkClosesWell(s: Situation, k: nat)
    requires Ok(s) && k <= |s.handles|
    ensures Ok(PoppedBy(s, k)) && NullOrLive(PoppedBy(s, k))
  {
    hide Ok, Popped;
    if k > 0 {
      OkClosesWell(s, k - 1);
      PoppedMore(s, k);
      StepOk(PoppedBy(s, k - 1), Pop);
    }
    OkIsNullOrLive(PoppedBy(s, k));
  }

  /** Closing takes handles off as they are, and no object comes back. */
  lemma {:induction false} PoppedKeeps(s: Situation, k: nat)
    requires k <= |s.handles|
    ensures PoppedBy(s, k).handles == s.handles[..|s.handles| - k]
    ensures PoppedBy(s, k).live <= s.live && PoppedBy(s, k).foreign == s.foreign
    decreases k
  {
    if k > 0 {
      PoppedMore(s, k);
      PoppedKeeps(s, k - 1);
      assert s.handles[..|s.handles| - (k - 1)][..|s.handles| - k] == s.handles[..|s.handles| - k];
    }
  }

  /** An object that is stashed and does not exist any more gets published when the mock handle goes away. */
  lemma StashedIsRestored(s: Situation, j: nat)
    requires j < |s.handles| && s.handles[j].Local? && s.handles[j].stash.instance.Some?
    requires s.handles[j].stash.instance.value !in s.live + s.foreign
    ensures !ClosesWell(s)
  {
    var k := |s.handles| - j;
    PoppedMore(s, k);
    PoppedKeeps(s, k - 1);
    PoppedKeeps(s, k);
    assert PoppedBy(s, k - 1).handles[j] == s.handles[j];
    assert PoppedBy(s, k).config == s.handles[j].stash;
    assert !NullOrLive(PoppedBy(s, k));
  }

  /**
    Starting from a state in order: the published instance stays null or live, until all handles have gone away,
    exactly if the step is safe.
  */
  lemma SafeExactly(s: Situation, a: Move)
    requires Ok(s) && Allowed(s, a)
    ensures ClosesWell(Moved(s, a)) <==> Safe(s, a)
  {
    var t := Moved(s, a);
    if Safe(s, a) {
      StepOk(s, a);
      forall k | 0 <= k <= |t.handles| ensures NullOrLive(PoppedBy(t, k)) {
        OkClosesWell(t, k);
      }
    } else {
      var o := UnsafeStep(s, a);
      if t.config.instance == Some(o) {
        assert !NullOrLive(PoppedBy(t, 0));
      } else {
        var j :| 0 <= j < |t.handles| && t.handles[j].Local? && t.handles[j].stash.instance == Some(o);
        StashedIsRestored(t, j);
      }
    }
  }

  /** An unsafe step leaves an object exposed or stashed that is gone. */
  lemma UnsafeStep(s: Situation, a: Move) returns (o: Obj)
    requires Ok(s) && Allowed(s, a) && !Safe(s, a)
    ensures var t := Moved(s, a); Published(t, o) && o !in t.live + t.foreign && (a.DoAccess? || o < t.next)
    ensures a.DoAccess? ==> !NullOrLive(Moved(s, a))
  {
    var t := Moved(s, a);
    if a.DoAccess? {
      o := a.via;
    } else if a.Elsewhere? {
      o :| o in s.foreign - a.foreign && Published(s, o);
      assert t.config == s.config && t.handles == s.handles;
    } else {
      var i := a.i;
      o := s.handles[i].service.value;
      assert o in s.handles[i].Owned() && o in s.live;
      if Shadowed(s.handles, i) {
        var j :| i < j < |s.handles| && s.handles[j].Local? && s.handles[j].stash.instance == s.handles[i].service;
        assert t.handles[j] == s.handles[j];
      }
    }
  }

  // ---- runs

  /** Any sequence of moves; handles come and go as scopes do, but can be addressed from further in. */
  predicate CanDo(s: Situation, ms: seq<Move>)
    decreases |ms|
  {
    ms == [] || (Allowed(s, ms[0]) && CanDo(Moved(s, ms[0]), ms[1..]))
  }

  function Done(s: Situation, ms: seq<Move>): Situation
    requires CanDo(s, ms)
    decreases |ms|
  {
    if ms == [] then s else Done(Moved(s, ms[0]), ms[1..])
  }

  predicate AllSafe(s: Situation, ms: seq<Move>)
    requires CanDo(s, ms)
    decreases |ms|
  {
    ms == [] || (Safe(s, ms[0]) && AllSafe(Moved(s, ms[0]), ms[1..]))
  }

  /** At no time does the published instance refer to an object that is gone. */
  predicate NeverDangling(s: Situation, ms: seq<Move>)
    requires CanDo(s, ms)
    decreases |ms|
  {
    NullOrLive(s) && (ms != [] ==> NeverDangling(Moved(s, ms[0]), ms[1..]))
  }

  /**
    Any use of the access point with services and mocks, after which no handle is left: the published instance is
    null or live at all times exactly if all moves are safe.
  */
  lemma {:induction false} NeverDanglingExactly(s: Situation, ms: seq<Move>)
    requires Ok(s) && CanDo(s, ms) && Done(s, ms).handles == []
    ensures NeverDangling(s, ms) <==> AllSafe(s, ms)
    ensures AllSafe(s, ms) ==> Ok(Done(s, ms))
    decreases |ms|
  {
    hide Ok, Moved, Safe, Allowed;
    OkIsNullOrLive(s);
    if ms != [] {
      if Safe(s, ms[0]) {
        StepOk(s, ms[0]);
        NeverDanglingExactly(Moved(s, ms[0]), ms[1..]);
      } else {
        UnsafeRun(s, ms);
      }
    }
  }

  lemma UnsafeRun(s: Situation, ms: seq<Move>)
    requires Ok(s) && ms != [] && CanDo(s, ms) && Done(s, ms).handles == [] && !Safe(s, ms[0])
    ensures !NeverDangling(s, ms)
  {
    var t := Moved(s, ms[0]);
    var o := UnsafeStep(s, ms[0]);
    if NullOrLive(t) {
      var j :| 0 <= j < |t.handles| && t.handles[j].Local? && t.handles[j].stash.instance == Some(o);
      DeadIsRestored(t, ms[1..], j, o);
    }
  }

  /** An object stashed by a mock handle that is gone gets published in the end, whatever is done until then. */
  lemma {:induction false} DeadIsRestored(s: Situation, ms: seq<Move>, j: nat, o: Obj)
    requires CanDo(s, ms) && Done(s, ms).handles == []
    requires j < |s.handles| && s.handles[j].Local? && s.handles[j].stash.instance == Some(o)
    requires o !in s.live + s.foreign && o < s.next
    ensures !NeverDangling(s, ms)
    decreases |ms|
  {
    hide NullOrLive;
    var t := Moved(s, ms[0]);
    if ms[0].Pop? && |s.handles| == j + 1 {
      DeadIsPublished(s, o);
    } else {
      StashStays(s, ms[0], j, o);
      DeadIsRestored(t, ms[1..], j, o);
    }
  }

  lemma DeadIsPublished(s: Situation, o: Obj)
    requires s.handles != [] && s.handles[|s.handles| - 1].Local?
    requires s.handles[|s.handles| - 1].stash.instance == Some(o) && o !in s.live + s.foreign
    ensures !NullOrLive(Popped(s))
  {
  }

  lemma StashStays(s: Situation, m: Move, j: nat, o: Obj)
    requires Allowed(s, m) && j < |s.handles| && s.handles[j].Local? && o !in s.live + s.foreign && o < s.next
    requires !(m.Pop? && |s.handles| == j + 1)
    ensures var t := Moved(s, m); j < |t.handles| && t.handles[j].Local? && t.handles[j].stash == s.handles[j].stash
    ensures o !in Moved(s, m).live + Moved(s, m).foreign && o < Moved(s, m).next
  {
    if m.Elsewhere? {
      assert o !in m.foreign - s.foreign;
    }
  }

  // ---- closed access

  /** Access fails. */
  predicate Closed(c: Config) {
    c.instance.None? && c.creator.Disabled?
  }

  /**
    No other configuration, no new service and no mock handle comes up, nor is a configuration restored by which access
    was open.
  */
  predicate KeepsClosed(s: Situation, m: Move)
    requires Allowed(s, m)
  {
    match m
    case DoAccess(_, _) => true
    case DoUseSingleton(kind) => kind.SameDefault?
    case PushIdle => true
    case PushService(buildable) => !buildable
    case PushMock => false
    case DoCreate(_, buildable) => !buildable
    case DoShutdown(_) => true
    case Pop => var h := s.handles[|s.handles| - 1]; h.Local? ==> Closed(h.stash)
    case Elsewhere(_, _) => true
  }

  predicate AllKeepClosed(s: Situation, ms: seq<Move>)
    requires CanDo(s, ms)
    decreases |ms|
  {
    ms == [] || (KeepsClosed(s, ms[0]) && AllKeepClosed(Moved(s, ms[0]), ms[1..]))
  }

  predicate AlwaysClosed(s: Situation, ms: seq<Move>)
    requires CanDo(s, ms)
    decreases |ms|
  {
    Closed(s.config) && (ms != [] ==> AlwaysClosed(Moved(s, ms[0]), ms[1..]))
  }

  lemma KeepsClosedExactly(s: Situation, m: Move)
    requires Allowed(s, m) && Closed(s.config)
    ensures Closed(Moved(s, m).config) <==> KeepsClosed(s, m)
  {
  }

  /** Once access is closed it stays so through a run exactly if each move keeps it closed. */
  lemma {:induction false} StaysClosed(s: Situation, ms: seq<Move>)
    requires CanDo(s, ms) && Closed(s.config)
    ensures AlwaysClosed(s, ms) <==> AllKeepClosed(s, ms)
    ensures AllKeepClosed(s, ms) ==> Closed(Done(s, ms).config)
    decreases |ms|
  {
    if ms != [] {
      KeepsClosedExactly(s, ms[0]);
      if KeepsClosed(s, ms[0]) {
        StaysClosed(Moved(s, ms[0]), ms[1..]);
      } else {
        assert !AlwaysClosed(Moved(s, ms[0]), ms[1..]);
      }
    }
  }

  /**
    A run that fails: a service is exposed, shadowed by a mock handle, and shut down from within that scope. When the
    mock handle goes away the service is published again, which does not exist any more.
  */
  lemma ShutdownUnderMock()
    ensures var s0 := Situation(Config(None, Default, []), [], {}, 0, {});
            var s3 := Moved(Moved(Moved(s0, PushService(true)), PushMock), DoShutdown(0));
            && s3.config.instance.None?
            && Popped(s3).config.instance == Some(0) && 0 !in Popped(s3).live
  {
    var s1 := Situation(Config(Some(0), Disabled, []), [ServiceInstance(Some(0))], {0}, 1, {});
    var s0 := Situation(Config(None, Default, []), [], {}, 0, {});
    assert Pushed(s0, ServiceInstance(None)).handles == [ServiceInstance(None)];
    assert [ServiceInstance(None)][0 := ServiceInstance(Some(0))] == [ServiceInstance(Some(0))];
    assert {} - ServiceInstance(None).Owned() + {0} == {0};
    assert Moved(s0, PushService(true)) == s1;
    var s2 := Moved(s1, PushMock);
    assert s2.handles == [ServiceInstance(Some(0)), Local(None, s1.config)];
    var s3 := Moved(s2, DoShutdown(0));
    assert s3.handles[1] == Local(None, s1.config) && |s3.handles| == 2;
  }

  /**
    A service that is created while a mock handle is in use, but none has been built, is exposed in place of a mock;
    when the mock handle goes away it is not exposed any more, and yet its end closes the access to what was restored.
  */
  lemma CreateUnderMock(s: Situation, i: nat)
    requires Ok(s) && i < |s.handles| && s.handles[i] == ServiceInstance(None)
    ensures var u := Created(Moved(s, PushMock), i, true);
            && Ok(u) && u.config == Config(Some(s.next), Disabled, [])
            && |u.handles| == |s.handles| + 1 && Popped(u).config == s.config
            && s.next in Popped(u).live && Popped(u).handles[i] == ServiceInstance(Some(s.next))
            && ShutDown(Popped(u), i).config == Config(None, Disabled, s.config.deleter)
  {
    var t := Moved(s, PushMock);
    PushMockOk(s);
    hide Ok;
    assert t.handles[i] == s.handles[i] && t.handles[|s.handles|] == Local(None, s.config);
    CreateOk(t, i);
    var u := Created(t, i, true);
    assert u.handles[|s.handles|] == Local(None, s.config);
    assert Popped(u).handles[i] == u.handles[i];
  }

  // ---- scopes

  /** A mock belongs to its handle, and nothing else remains but that an object has been numbered. */
  lemma MockComesAndGoes(s: Situation, via: Obj)
    requires s.next !in s.live
    ensures var u := Moved(Moved(s, PushMock), DoAccess(true, via));
            && u.handles == s.handles + [Local(Some(s.next), s.config)] && u.live == s.live + {s.next}
            && u.config == Config(Some(s.next), Disabled, [ResetInstance])
            && Moved(u, Pop) == s.(next := s.next + 1)
  {
    var t := Moved(s, PushMock);
    InnermostAppend(s.handles, Local(None, s.config));
    var u := Accessed(t, true, via);
    assert u.handles == s.handles + [Local(Some(s.next), s.config)];
    assert u.handles[..|s.handles|] == s.handles;
    assert s.live + {s.next} - {s.next} == s.live;
    assert DeleterFor(Mock, [], s.next) + [ResetInstance] == [ResetInstance];
  }

  /** Objects are numbered in the order of their creation. */
  ghost predicate Bounded(s: Situation) {
    && (forall o :: o in s.live ==> o < s.next)
    && (forall i, o :: 0 <= i < |s.handles| && o in s.handles[i].Owned() ==> o < s.next)
  }

  /**
    Handle `b` is what has become of handle `a`, with `n` the first object not in use before: a mock may have been
    built, and the service of a handle that is `touched` may be gone or be a new one.
  */
  ghost predicate KeptOne(a: Handle, b: Handle, n: Obj, touched: bool) {
    || a == b
    || (a.Local? && b.Local? && a.stash == b.stash && a.mock.None? && forall o :: o in b.Owned() ==> n <= o)
    || (touched && a.ServiceInstance? && b.ServiceInstance? && forall o :: o in b.Owned() ==> n <= o || o in a.Owned())
  }

  /**
    What has become of `s` within its innermost scope: its handles are still there, those further in own new objects
    only, and what was live is lost only if a touched handle had owned it.
  */
  ghost predicate Evolved(s: Situation, t: Situation, touched: set<nat>) {
    && Bounded(s) && Bounded(t) && s.next <= t.next && |s.handles| <= |t.handles|
    && (forall i :: 0 <= i < |s.handles| ==> KeptOne(s.handles[i], t.handles[i], s.next, i in touched))
    && (forall i, o :: |s.handles| <= i < |t.handles| && o in t.handles[i].Owned() ==> s.next <= o)
    && (forall o :: o in s.live && o !in t.live ==> OwnedByTouched(s.handles, touched, o))
  }

  ghost predicate OwnedByTouched(hs: seq<Handle>, touched: set<nat>, o: Obj) {
    exists i :: 0 <= i < |hs| && i in touched && o in hs[i].Owned()
  }

  function TouchedBy(m: Move): set<nat> {
    match m
    case DoCreate(i, _) => {i}
    case DoShutdown(i) => {i}
    case _ => {}
  }

  function Touched(ms: seq<Move>): set<nat> {
    if ms == [] then {} else TouchedBy(ms[0]) + Touched(ms[1..])
  }

  /** The scope with `n` handles is not left. */
  predicate StaysWithin(s: Situation, ms: seq<Move>, n: nat)
    requires CanDo(s, ms)
    decreases |ms|
  {
    n <= |s.handles| && (ms != [] ==> StaysWithin(Moved(s, ms[0]), ms[1..], n))
  }

  lemma TouchedMore(hs: seq<Handle>, touched: set<nat>, more: set<nat>, o: Obj)
    requires OwnedByTouched(hs, touched, o)
    ensures OwnedByTouched(hs, touched + more, o)
  {
    var i :| 0 <= i < |hs| && i in touched && o in hs[i].Owned();
    assert i in touched + more;
  }

  /** One handle has changed, and nothing was lost but what it had owned. */
  lemma EvolvedHandle(s: Situation, t: Situation, touched: set<nat>, i: nat, u: Situation)
    requires Evolved(s, t, touched) && i < |t.handles| && t.handles[i].ServiceInstance?
    requires |u.handles| == |t.handles| && u.handles == t.handles[i := u.handles[i]] && u.handles[i].ServiceInstance?
    requires t.next <= u.next && Bounded(u)
    requires forall o :: o in u.handles[i].Owned() ==> t.next <= o
    requires forall o :: o in t.live && o !in u.live ==> o in t.handles[i].Owned()
    ensures Evolved(s, u, touched + {i})
  {
    forall k | 0 <= k < |s.handles| ensures KeptOne(s.handles[k], u.handles[k], s.next, k in touched + {i}) {
      assert KeptOne(s.handles[k], t.handles[k], s.next, k in touched);
      assert k != i ==> u.handles[k] == t.handles[k];
    }
    forall o | o in s.live && o !in u.live ensures OwnedByTouched(s.handles, touched + {i}, o) {
      if o in t.live {
        assert o in t.handles[i].Owned() && o < s.next;
        assert i < |s.handles|;
        assert KeptOne(s.handles[i], t.handles[i], s.next, i in touched);
        assert o in s.handles[i].Owned() && i in touched + {i};
      } else {
        TouchedMore(s.handles, touched, {i}, o);
      }
    }
  }

  /** The handle further in goes away, and with it what it owns. */
  lemma EvolvedPop(s: Situation, t: Situation, touched: set<nat>)
    requires Evolved(s, t, touched) && |s.handles| < |t.handles|
    ensures Evolved(s, Popped(t), touched)
  {
    var u := Popped(t);
    forall k | 0 <= k < |s.handles| ensures KeptOne(s.handles[k], u.handles[k], s.next, k in touched) {
      assert u.handles[k] == t.handles[k];
    }
  }

  lemma EvolvedBuild(s: Situation, t: Situation, touched: set<nat>, via: Obj)
    requires Evolved(s, t, touched) && MockPending(t.config, t.handles)
    ensures Evolved(s, Accessed(t, true, via), touched)
  {
    var u := Accessed(t, true, via);
    forall k | 0 <= k < |s.handles| ensures KeptOne(s.handles[k], u.handles[k], s.next, k in touched) {
      assert KeptOne(s.handles[k], t.handles[k], s.next, k in touched);
    }
  }

  lemma EvolvedPush(s: Situation, t: Situation, touched: set<nat>, h: Handle, c: Config)
    requires Evolved(s, t, touched) && h.Owned() == {}
    ensures Evolved(s, Pushed(t, h).(config := c), touched)
  {
    var u := Pushed(t, h).(config := c);
    forall k | 0 <= k < |s.handles| ensures KeptOne(s.handles[k], u.handles[k], s.next, k in touched) {
      assert u.handles[k] == t.handles[k];
    }
  }

  lemma EvolvedCreate(s: Situation, t: Situation, touched: set<nat>, i: nat)
    requires Evolved(s, t, touched) && i < |t.handles| && t.handles[i].ServiceInstance?
    ensures Evolved(s, Created(t, i, true), touched + {i})
    ensures |s.handles| <= i ==> Evolved(s, Created(t, i, true), touched)
  {
    var u := Created(t, i, true);
    EvolvedHandle(s, t, touched, i, u);
    if |s.handles| <= i {
      forall o | o in s.live && o !in u.live ensures OwnedByTouched(s.handles, touched, o) {
        var k :| 0 <= k < |s.handles| && k in touched + {i} && o in s.handles[k].Owned();
        assert k in touched;
      }
    }
  }

  /** A mock that is pending has a handle. */
  ghost predicate Pending(s: Situation) {
    && MockPending(s.config, s.handles)
    && forall i :: 0 <= i < |s.handles| && s.handles[i].Local? ==> MockPending(s.handles[i].stash, s.handles[..i])
  }

  lemma PendingBuild(s: Situation, via: Obj)
    requires Pending(s)
    ensures Pending(Accessed(s, true, via))
  {
    var t := Accessed(s, true, via);
    if t != s && s.config.creator.Mock? {
      var k := Innermost(s.handles);
      forall i | 0 <= i < |t.handles| && t.handles[i].Local? ensures MockPending(t.handles[i].stash, t.handles[..i]) {
        assert s.handles[i].Local? && i <= k;
        PendingKept(s.handles[i].stash, s.handles, k, t.handles[k], i);
      }
    }
  }

  lemma PendingReplace(s: Situation, k: nat, h: Handle)
    requires Pending(s) && k < |s.handles| && s.handles[k].ServiceInstance? && h.ServiceInstance?
    ensures Pending(s.(handles := s.handles[k := h]))
  {
    var hs := s.handles[k := h];
    InnermostKept(s.handles, k, h);
    forall i | 0 <= i < |hs| && hs[i].Local? ensures MockPending(hs[i].stash, hs[..i]) {
      PendingKept(s.handles[i].stash, s.handles, k, h, i);
    }
  }

  lemma PendingPush(s: Situation, h: Handle)
    requires Pending(s) && (h.Local? ==> MockPending(h.stash, s.handles))
    ensures h.Local? || Pending(Pushed(s, h))
    ensures h == Local(None, s.config) ==> Pending(Pushed(s, h).(config := Config(None, Mock, [])))
  {
    var hs := s.handles + [h];
    InnermostAppend(s.handles, h);
    forall i | 0 <= i < |hs| && hs[i].Local? ensures MockPending(hs[i].stash, hs[..i]) {
      assert hs[..i] == s.handles[..i];
      if i == |s.handles| {
        assert s.handles[..i] == s.handles;
      }
    }
  }

  lemma PendingPop(s: Situation)
    requires Pending(s) && s.handles != []
    ensures Pending(Popped(s))
  {
    var n := |s.handles| - 1;
    var hs := s.handles[..n];
    InnermostAppend(hs, s.handles[n]);
    assert s.handles == hs + [s.handles[n]];
    forall i | 0 <= i < |hs| && hs[i].Local? ensures MockPending(hs[i].stash, hs[..i]) {
      assert hs[..i] == s.handles[..i];
    }
    var t := s.handles[n := ServiceInstance(None)];
    assert t[..n] == hs;
  }

  lemma PendingMove(s: Situation, m: Move)
    requires Pending(s) && Allowed(s, m)
    ensures Pending(Moved(s, m))
  {
    hide Innermost, MockPending;
    match m {
      case DoAccess(_, _) =>
        if m.buildable {
          PendingBuild(s, m.via);
        }
      case DoUseSingleton(_) => ReconfiguredPending(s, m.kind);
      case PushIdle => PendingPush(s, ServiceInstance(None));
      case PushService(_) =>
        PendingPush(s, ServiceInstance(None));
        CreatedPending(Pushed(s, ServiceInstance(None)), |s.handles|);
      case PushMock => PendingPush(s, Local(None, s.config));
      case DoCreate(i, _) =>
        if m.buildable {
          CreatedPending(s, i);
        }
      case DoShutdown(i) =>
        PendingReplace(s, i, ServiceInstance(None));
        DisabledPending(s.handles[i := ServiceInstance(None)], s.config.deleter);
      case Pop => PendingPop(s);
      case Elsewhere(_, _) => PendingElsewhere(s, m);
    }
  }

  lemma DisabledPending(hs: seq<Handle>, deleter: seq<Action>)
    ensures MockPending(Config(None, Disabled, deleter), hs)
  {
  }

  lemma PendingElsewhere(s: Situation, m: Move)
    requires Pending(s) && m.Elsewhere? && Allowed(s, m)
    ensures Pending(Moved(s, m))
  {
  }

  lemma ReconfiguredPending(s: Situation, kind: Singleton)
    requires Pending(s)
    ensures Pending(Reconfigured(s, kind))
  {
  }

  lemma CreatedPending(s: Situation, i: nat)
    requires Pending(s) && i < |s.handles| && s.handles[i].ServiceInstance?
    ensures Pending(Created(s, i, true))
  {
    PendingReplace(s, i, ServiceInstance(Some(s.next)));
  }

  lemma EvolvedMore(s: Situation, t: Situation, touched: set<nat>, more: set<nat>)
    requires Evolved(s, t, touched)
    ensures Evolved(s, t, touched + more)
  {
    forall k | 0 <= k < |s.handles| ensures KeptOne(s.handles[k], t.handles[k], s.next, k in touched + more) {
      assert KeptOne(s.handles[k], t.handles[k], s.next, k in touched);
    }
    forall o | o in s.live && o !in t.live ensures OwnedByTouched(s.handles, touched + more, o) {
      TouchedMore(s.handles, touched, more, o);
    }
  }

  /** A move within the scope. */
  lemma EvolvedMove(s: Situation, t: Situation, touched: set<nat>, m: Move)
    requires Evolved(s, t, touched) && Pending(t) && Allowed(t, m) && |s.handles| <= |Moved(t, m).handles|
    ensures Evolved(s, Moved(t, m), touched + TouchedBy(m))
  {
    var u := Moved(t, m);
    EvolvedMore(s, t, touched, TouchedBy(m));
    if m.DoAccess? {
      if m.buildable {
        EvolvedBuild(s, t, touched, m.via);
      }
    } else if m.PushIdle? || m.PushMock? || m.PushService? {
      EvolvedPush(s, t, touched, if m.PushMock? then Local(None, t.config) else ServiceInstance(None), u.config);
      if m.PushService? {
        var v := Pushed(t, ServiceInstance(None));
        EvolvedPush(s, t, touched, ServiceInstance(None), t.config);
        EvolvedCreate(s, v, touched, |t.handles|);
      }
    } else if m.DoCreate? {
      if m.buildable {
        EvolvedCreate(s, t, touched, m.i);
      }
    } else if m.DoShutdown? {
      EvolvedShutdown(s, t, touched, m.i);
    } else if m.Pop? {
      EvolvedPop(s, t, touched);
    }
    if !m.DoCreate? && !m.DoShutdown? {
      assert touched + TouchedBy(m) == touched;
    }
    if m.DoUseSingleton? || m.Elsewhere? {
      EvolvedConfig(s, t, touched, u);
    }
  }

  lemma EvolvedConfig(s: Situation, t: Situation, touched: set<nat>, u: Situation)
    requires Evolved(s, t, touched) && u.handles == t.handles && u.live == t.live && t.next <= u.next
    ensures Evolved(s, u, touched)
  {
  }

  lemma EvolvedShutdown(s: Situation, t: Situation, touched: set<nat>, i: nat)
    requires Evolved(s, t, touched) && i < |t.handles| && t.handles[i].ServiceInstance?
    ensures Evolved(s, ShutDown(t, i), touched + {i})
  {
    EvolvedHandle(s, t, touched, i, ShutDown(t, i));
  }

  lemma {:induction false} EvolvedThrough(s: Situation, t: Situation, touched: set<nat>, ms: seq<Move>)
    requires Evolved(s, t, touched) && Pending(t) && CanDo(t, ms) && StaysWithin(t, ms, |s.handles|)
    ensures Evolved(s, Done(t, ms), touched + Touched(ms)) && Pending(Done(t, ms))
    decreases |ms|
  {
    hide Evolved, Pending, Moved, Allowed;
    if ms == [] {
      assert touched + Touched(ms) == touched;
    } else {
      EvolvedMove(s, t, touched, ms[0]);
      PendingMove(t, ms[0]);
      EvolvedThrough(s, Moved(t, ms[0]), touched + TouchedBy(ms[0]), ms[1..]);
      assert touched + TouchedBy(ms[0]) + Touched(ms[1..]) == touched + Touched(ms);
    }
  }

  /**
    Whatever is done while a mock handle is in use, safe or not: in the end the configuration is exactly as before, the
    handles from before are still there, and nothing owned is lost from before but services shut down or replaced.
  */
  lemma MockScope(s: Situation, body: seq<Move>)
    requires Bounded(s) && Pending(s)
    requires var t := Moved(s, PushMock);
             CanDo(t, body) && StaysWithin(t, body, |t.handles|) && |Done(t, body).handles| == |t.handles|
    ensures var u := Popped(Done(Moved(s, PushMock), body));
            u.config == s.config && |u.handles| == |s.handles| && Evolved(s, u, Touched(body)) && Pending(u)
  {
    hide Evolved, Pending, Bounded, CanDo, StaysWithin, Done, Touched, Popped;
    var t := Moved(s, PushMock);
    BoundedPush(s);
    EvolvedHere(t);
    PendingMove(s, PushMock);
    EvolvedThrough(t, t, {}, body);
    assert {} + Touched(body) == Touched(body);
    var v := Done(t, body);
    PendingPop(v);
    MockEnds(s, t, v, Touched(body));
  }

  lemma BoundedPush(s: Situation)
    requires Bounded(s)
    ensures Bounded(Moved(s, PushMock)) && Bounded(Moved(s, PushService(true)))
  {
  }

  lemma EvolvedHere(t: Situation)
    requires Bounded(t)
    ensures Evolved(t, t, {})
  {
  }

  lemma MockEnds(s: Situation, t: Situation, v: Situation, touched: set<nat>)
    requires Bounded(s) && t == Moved(s, PushMock) && Evolved(t, v, touched) && |v.handles| == |t.handles|
    ensures Popped(v).config == s.config && |Popped(v).handles| == |s.handles| && Evolved(s, Popped(v), touched)
  {
    var n, u := |s.handles|, Popped(v);
    assert KeptOne(t.handles[n], v.handles[n], t.next, n in touched) && t.handles[n] == Local(None, s.config);
    forall k | 0 <= k < n ensures KeptOne(s.handles[k], u.handles[k], s.next, k in touched) {
      assert KeptOne(t.handles[k], v.handles[k], t.next, k in touched) && t.handles[k] == s.handles[k];
      assert u.handles[k] == v.handles[k];
    }
    forall o | o in s.live && o !in u.live ensures OwnedByTouched(s.handles, touched, o) {
      assert o !in v.live;
      var i :| 0 <= i < |t.handles| && i in touched && o in t.handles[i].Owned();
      assert i < n && s.handles[i] == t.handles[i];
    }
  }

  /** The end of a service handle inhibits access if it still has its service; else nothing changes. */
  lemma ServiceScope(s: Situation, body: seq<Move>)
    requires Bounded(s) && Pending(s) && s.config.instance.None?
    requires var t := Moved(s, PushService(true));
             CanDo(t, body) && StaysWithin(t, body, |t.handles|) && |Done(t, body).handles| == |t.handles|
    ensures var v := Done(Moved(s, PushService(true)), body); var u := Popped(v); var n := |s.handles|;
            && v.handles[n].ServiceInstance? && |u.handles| == n
            && (n !in Touched(body) ==> v.handles[n].service == Some(s.next))
            && (v.handles[n].service.Some? ==> u.config == Config(None, Disabled, v.config.deleter))
            && (v.handles[n].service.None? ==> u.config == v.config)
  {
    hide Pending, Bounded, CanDo, StaysWithin, Done, Touched;
    var t := Moved(s, PushService(true));
    var n := |s.handles|;
    BoundedPush(s);
    EvolvedHere(t);
    PendingMove(s, PushService(true));
    EvolvedThrough(t, t, {}, body);
    assert {} + Touched(body) == Touched(body);
    var v := Done(t, body);
    assert t.handles[n] == ServiceInstance(Some(s.next));
    assert KeptOne(t.handles[n], v.handles[n], t.next, n in Touched(body));
  }
}
