/**
  The access point of a dependency, and the handles that reconfigure it.
*/
module DependInject {
  import opened DependAccess
  import opened DependHandles

  class Dependency {
    var instance: Option<Obj>
    var creator: Creator
    var deleter: seq<Action>
    /** the handles in use, last created last */
    var handles: seq<Handle>
    var next: Obj

    /** the objects owned here, and those owned by the access points of other types */
    ghost var live: set<Obj>
    ghost var foreign: set<Obj>

    ghost function Current(): Situation
      reads this
    {
      Situation(Config(instance, creator, deleter), handles, live, next, foreign)
    }

    ghost predicate Valid()
      reads this
    {
      Ok(Current())
    }

    constructor ()
      ensures Valid() && Current() == Situation(Config(None, Default, []), [], {}, 0, {})
    {
      instance, creator, deleter, handles, next, live, foreign := None, Default, [], [], 0, {}, {};
    }

    /**
      Access from within one thread: `None` stands for an exception. When delegated, it publishes what the subclass
      yields, without owning it.
    */
    method Access(buildable: bool, via: Obj) returns (r: Option<Obj>)
      requires Allowed(Current(), DoAccess(buildable, via))
      modifies this
      ensures Current() == Moved(old(Current()), DoAccess(buildable, via))
      ensures old(Valid()) && Safe(old(Current()), DoAccess(buildable, via)) ==> Valid()
      ensures r.None? <==> old(instance.None? && (creator.Disabled? || !buildable))
      ensures r.None? ==> Current() == old(Current())
      ensures r.Some? ==> instance == r
      ensures r.Some? && old(Valid()) && Safe(old(Current()), DoAccess(buildable, via)) ==>
                r.value in live + foreign && creator.Disabled?
      ensures old(instance).Some? ==> r == old(instance) && Current() == old(Current())
      ensures old(instance).None? && r.Some? && old(creator).Delegate? ==>
                r.value == via && live == old(live) && handles == old(handles)
      ensures old(instance).None? && r.Some? && !old(creator).Delegate? ==>
                r.value == old(next) && live == old(live) + {r.value}
    {
      hide Ok, DeleterFor;
      ghost var s := Current();
      if Ok(s) && Safe(s, DoAccess(buildable, via)) {
        StepOk(s, DoAccess(buildable, via));
        OkIsNullOrLive(Moved(s, DoAccess(buildable, via)));
        ExposedIsFinal(Moved(s, DoAccess(buildable, via)));
      }
      if instance.Some? {
        return instance;
      }
      if creator.Disabled? || !buildable {
        return None;
      }
      var obj := via;
      if !creator.Delegate? {
        obj := next;
        next := next + 1;
        live := live + {obj};
        handles := BuiltHandles(Config(instance, creator, deleter), handles, obj);
      }
      deleter := DeleterFor(creator, deleter, obj);
      creator := Disabled;
      deleter := deleter + [ResetInstance];
      instance := Some(obj);
      r := instance;
    }

    lemma ExposedIsFinal(s: Situation)
      requires Ok(s)
      ensures s.config.instance.Some? ==> s.config.creator.Disabled?
    {
    }

    /** Configure a singleton; refused after the fact. */
    method UseSingleton(kind: Singleton) returns (done: bool)
      modifies this
      ensures Current() == Moved(old(Current()), DoUseSingleton(kind)) && (old(Valid()) ==> Valid())
      ensures done == (kind.SameDefault? || old(instance).None?)
      ensures !done ==> Current() == old(Current())
    {
      if Ok(Current()) {
        StepOk(Current(), DoUseSingleton(kind));
      }
      hide Ok;
      if kind.SameDefault? {
        return true;
      }
      if instance.Some? {
        return false;
      }
      creator := if kind.Delegating? then Delegate else Managed;
      done := true;
    }

    /** A handle for a service to be started later. */
    method NotYetStarted()
      modifies this`handles
      ensures Current() == Moved(old(Current()), PushIdle) && (old(Valid()) ==> Valid())
    {
      if Ok(Current()) {
        StepOk(Current(), PushIdle);
      }
      hide Ok;
      handles := handles + [ServiceInstance(None)];
    }

    /**
      Create the service of a handle, in place of what it has, and expose it. While another instance is exposed this
      fails, but leaves the service created within the handle.
    */
    method CreateInstance(i: nat, buildable: bool) returns (done: bool)
      requires i < |handles| && handles[i].ServiceInstance?
      modifies this
      ensures Current() == Moved(old(Current()), DoCreate(i, buildable))
      ensures old(Valid()) && Safe(old(Current()), DoCreate(i, buildable)) ==> Valid()
      ensures done == (buildable && old(instance).None?)
      ensures done ==> instance == Some(old(next)) && creator == Disabled
      ensures deleter == old(deleter) && (!done ==> instance == old(instance) && creator == old(creator))
      ensures buildable ==>
                && handles == old(handles)[i := ServiceInstance(Some(old(next)))]
                && live == old(live - handles[i].Owned()) + {old(next)}
      ensures !buildable ==> Current() == old(Current())
    {
      if Ok(Current()) && Safe(Current(), DoCreate(i, buildable)) {
        StepOk(Current(), DoCreate(i, buildable));
      }
      hide Ok;
      if !buildable {
        return false;
      }
      var obj := next;
      next := next + 1;
      live := live - handles[i].Owned() + {obj};
      handles := handles[i := ServiceInstance(Some(obj))];
      done := instance.None?;
      if done {
        instance := Some(obj);
        creator := Disabled;
      }
    }

    /** Shut down the service of a handle: access is closed and inhibited. */
    method Shutdown(i: nat)
      requires i < |handles| && handles[i].ServiceInstance?
      modifies this
      ensures Current() == Moved(old(Current()), DoShutdown(i))
      ensures old(Valid()) && Safe(old(Current()), DoShutdown(i)) ==> Valid()
      ensures handles == old(handles)[i := ServiceInstance(None)] && deleter == old(deleter)
      ensures live == old(live - handles[i].Owned())
      ensures old(handles)[i].service.Some? ==> instance == None && creator == Disabled
      ensures old(handles)[i].service.None? ==> Current() == old(Current())
    {
      if Ok(Current()) && Safe(Current(), DoShutdown(i)) {
        StepOk(Current(), DoShutdown(i));
      }
      hide Ok;
      if handles[i].service.Some? {
        instance := None;
        creator := Disabled;
        live := live - handles[i].Owned();
        handles := handles[i := ServiceInstance(None)];
      } else {
        assert handles[i := ServiceInstance(None)] == handles;
      }
    }

    /** Construct a service right with its handle; a failure leaves nothing behind. */
    method OpenService(buildable: bool) returns (done: bool)
      modifies this
      ensures Current() == Moved(old(Current()), PushService(buildable)) && (old(Valid()) ==> Valid())
      ensures done == (buildable && old(instance).None?)
      ensures !done ==> Current() == old(Current())
      ensures done ==> instance == Some(old(next)) && creator == Disabled && live == old(live) + {old(next)}
      ensures done ==> handles == old(handles) + [ServiceInstance(instance)] && deleter == old(deleter)
    {
      if Ok(Current()) {
        StepOk(Current(), PushService(buildable));
      }
      hide Ok;
      done := false;
      if buildable {
        if instance.None? {
          NotYetStarted();
          done := CreateInstance(|handles| - 1, true);
        }
      }
    }

    /** A mock handle stashes the configuration away and waits for an access to build the mock. */
    method OpenLocal()
      modifies this
      ensures Current() == Moved(old(Current()), PushMock) && (old(Valid()) ==> Valid())
      ensures instance == None && creator == Mock && deleter == []
      ensures handles == old(handles) + [Local(None, old(Config(instance, creator, deleter)))] && live == old(live)
    {
      if Ok(Current()) {
        StepOk(Current(), PushMock);
      }
      hide Ok;
      handles := handles + [Local(None, Config(instance, creator, deleter))];
      creator := Mock;
      deleter := [];
      instance := None;
    }

    method RestoreOriginalFactory(stash: Config)
      modifies this`instance, this`creator, this`deleter
      ensures Config(instance, creator, deleter) == stash
    {
      creator := stash.creator;
      deleter := stash.deleter;
      instance := stash.instance;
    }

    /** The last handle goes away. A mock handle restores the stashed configuration, then its mock is destroyed. */
    method CloseLast()
      requires handles != []
      modifies this
      ensures Current() == Moved(old(Current()), Pop) && (old(Valid()) ==> Valid())
      ensures handles == old(handles)[..|old(handles)| - 1]
      ensures var h := old(handles)[|old(handles)| - 1];
              && live == old(live) - h.Owned()
              && Config(instance, creator, deleter) ==
                   match h
                   case Local(_, stash) => stash
                   case ServiceInstance(o) =>
                     if o.Some? then Config(None, Disabled, old(deleter)) else old(Config(instance, creator, deleter))
    {
      if Ok(Current()) {
        StepOk(Current(), Pop);
      }
      hide Ok, Handle.Owned;
      match handles[|handles| - 1] {
        case ServiceInstance(_) =>
          Shutdown(|handles| - 1);
          handles := handles[..|handles| - 1];
        case Local(_, stash) =>
          RestoreOriginalFactory(stash);
          live := live - handles[|handles| - 1].Owned();
          handles := handles[..|handles| - 1];
      }
    }

    /** Objects of other types are created and destroyed. */
    method Others(others: set<Obj>, upTo: Obj)
      requires Allowed(Current(), Elsewhere(others, upTo))
      modifies this`foreign, this`next
      ensures Current() == Moved(old(Current()), Elsewhere(others, upTo))
      ensures old(Valid()) && Safe(old(Current()), Elsewhere(others, upTo)) ==> Valid()
    {
      if Ok(Current()) && Safe(Current(), Elsewhere(others, upTo)) {
        StepOk(Current(), Elsewhere(others, upTo));
      }
      hide Ok;
      foreign, next := others, upTo;
    }

    method Perform(m: Move)
      requires Allowed(Current(), m)
      modifies this
      ensures Current() == Moved(old(Current()), m)
      ensures old(Valid()) && Safe(old(Current()), m) ==> Valid()
    {
      hide Ok, Moved;
      match m {
        case DoAccess(buildable, via) => var _ := Access(buildable, via);
        case DoUseSingleton(kind) => var _ := UseSingleton(kind);
        case PushIdle => NotYetStarted();
        case PushService(buildable) => var _ := OpenService(buildable);
        case PushMock => OpenLocal();
        case DoCreate(i, buildable) => var _ := CreateInstance(i, buildable);
        case DoShutdown(i) => Shutdown(i);
        case Pop => CloseLast();
        case Elsewhere(others, upTo) => Others(others, upTo);
      }
    }

    /**
      Any use with services and mocks. When no handle is left, the published instance was null or live at all times
      exactly if all moves were safe.
    */
    method Execute(ms: seq<Move>)
      requires Valid() && CanDo(Current(), ms)
      modifies this
      ensures Current() == Done(old(Current()), ms)
      ensures handles == [] ==> (NeverDangling(old(Current()), ms) <==> AllSafe(old(Current()), ms))
      ensures handles == [] && AllSafe(old(Current()), ms) ==> Valid()
    {
      hide Ok, Moved, Allowed;
      if Done(Current(), ms).handles == [] {
        NeverDanglingExactly(Current(), ms);
      }
      var i := 0;
      assert ms[0..] == ms;
      while i < |ms|
        invariant i <= |ms| && CanDo(Current(), ms[i..]) && Done(Current(), ms[i..]) == Done(old(Current()), ms)
      {
        assert ms[i..][0] == ms[i] && ms[i..][1..] == ms[i + 1..];
        Perform(ms[i]);
        i := i + 1;
      }
    }

    /**
      The factory is destroyed: its deleter runs, oldest action first. Each object to be deleted
      exists up to then, and no exposed instance is left if there was anything to do.
    */
    method DestroyFactory() returns (log: seq<Action>)
      requires Valid() && handles == []
      modifies this`instance, this`live
      ensures log == deleter
      ensures live == old(live) - (set o | o in DeletedBy(deleter))
      ensures deleter != [] ==> instance == None
    {
      hide DeletedBy, NoDuplicates;
      log := [];
      var i := 0;
      assert deleter[0..] == deleter;
      while i < |deleter|
        invariant i <= |deleter| && log == deleter[..i]
        invariant NoDuplicates(DeletedBy(deleter[i..])) && forall o :: o in DeletedBy(deleter[i..]) ==> o in live
        invariant live - (set o | o in DeletedBy(deleter[i..])) == old(live) - (set o | o in DeletedBy(deleter))
        invariant 0 < i && deleter[i - 1].ResetInstance? ==> instance == None
      {
        NextDeleted(deleter, i);
        match deleter[i] {
          case Delete(o) =>
            assert o in live;
            live := live - {o};
          case ResetInstance =>
            instance := None;
        }
        log := log + [deleter[i]];
        i := i + 1;
      }
      DeletedByStep(deleter[i..]);
    }

    /**
      Creating an instance within a handle while another instance is exposed: the attempt fails, and yet the
      end of the handle closes the access to the other instance, which is still alive.
    */
    method CreateWhileExposed()
      requires Valid() && instance.Some?
      modifies this
      ensures Valid() && handles == old(handles)
      ensures old(instance).value in live + foreign
      ensures instance == None && creator == Disabled && deleter == old(deleter)
    {
      hide Ok;
      ghost var o := instance.value;
      OkIsNullOrLive(Current());
      NotYetStarted();
      assert handles[|handles| - 1] == ServiceInstance(None);
      FreshIsNotLive(Current(), o);
      var done := CreateInstance(|handles| - 1, true);
      CloseLast();
    }

    lemma FreshIsNotLive(s: Situation, o: Obj)
      requires Ok(s) && o in s.live + s.foreign
      ensures o < s.next
    {
    }

    // ---- what a configuration leads to

    /**
      Configure a singleton and access it: with a function of its own the object is built, owned and deleted with the
      factory; by delegation it is what the subclass yields, and owned there; for the default nothing has changed.
    */
    method AccessConfigured(kind: Singleton, via: Obj) returns (done: bool, r: Option<Obj>)
      requires Valid() && via in foreign
      modifies this
      ensures Valid() && foreign == old(foreign)
      ensures old(instance).None? && kind.Managing? ==>
                && done && r == Some(old(next)) && r.value !in old(live) && live == old(live) + {r.value}
                && handles == old(handles) && deleter == old(deleter) + [Delete(r.value)] + [ResetInstance]
      ensures old(instance).None? && kind.Delegating? ==>
                && done && r == Some(via) && live == old(live)
                && handles == old(handles) && deleter == old(deleter) + [ResetInstance]
      ensures kind.SameDefault? ==> done && Current() == Moved(old(Current()), DoAccess(true, via))
      ensures old(instance).Some? ==> done == kind.SameDefault? && r == old(instance) && Current() == old(Current())
    {
      NotLive(Current());
      hide Ok;
      done := UseSingleton(kind);
      r := Access(true, via);
    }

    /** When the factory is destroyed, a singleton of its own is deleted, a foreign one is not. */
    method ConfiguredLife(kind: Singleton, via: Obj) returns (r: Option<Obj>)
      requires Valid() && via in foreign && handles == [] && instance.None? && !kind.SameDefault?
      modifies this
      ensures r == Some(if kind.Managing? then old(next) else via) && old(next) !in old(live + foreign)
      ensures live == old(live) - (set o | o in DeletedBy(old(deleter))) && foreign == old(foreign) && instance == None
    {
      NotLive(Current());
      hide Ok, DeletedBy, Moved;
      var done;
      done, r := AccessConfigured(kind, via);
      ghost var own := if kind.Managing? then [Delete(r.value)] else [];
      assert deleter == old(deleter) + own + [ResetInstance];
      OwnIsDeleted(old(deleter), own);
      var _ := DestroyFactory();
    }

    lemma NotLive(s: Situation)
      requires Ok(s)
      ensures s.next !in s.live + s.foreign && forall o :: o in s.foreign ==> o !in s.live
    {
    }

    lemma OwnIsDeleted(deleter: seq<Action>, own: seq<Action>)
      ensures own == [] ==> DeletedBy(deleter + own + [ResetInstance]) == DeletedBy(deleter)
      ensures |own| == 1 && own[0].Delete? ==>
                DeletedBy(deleter + own + [ResetInstance]) == DeletedBy(deleter) + [own[0].obj]
    {
      DeletedByConcat(deleter, own);
      DeletedByConcat(deleter + own, [ResetInstance]);
    }

    /** A mock is built by the first access, belongs to its handle, and goes away with it. */
    method AccessMocked(via: Obj) returns (r: Option<Obj>)
      requires Valid()
      modifies this
      ensures Valid() && r == Some(old(next)) && r.value !in old(live)
      ensures Current() == old(Current()).(next := old(next) + 1)
    {
      NotLive(Current());
      MockComesAndGoes(Current(), via);
      hide Ok, Moved, Accessed, Popped;
      OpenLocal();
      r := Access(true, via);
      CloseLast();
    }
  }
}
