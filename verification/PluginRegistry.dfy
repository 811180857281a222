/**
  Registration of plugins and their interfaces, and the unloading of plugins.
*/
module PluginRegistry {
  import opened SimplePaths
  import opened InterfaceUsage
  import opened Interfaces

  /**
    The first `n` keys are registered besides those from before: each new one leads to its node, the first of a kind if
    it is listed repeatedly.
  */
  ghost predicate Added(before: map<InterfaceKey, InterfaceNode>, keys: seq<InterfaceKey>, nodes: seq<InterfaceNode>,
                        n: nat, after: map<InterfaceKey, InterfaceNode>)
    requires n <= |keys| == |nodes|
  {
    && after.Keys == before.Keys + (set k | k in keys[..n])
    && Grown(before, nodes, after)
    && forall i :: 0 <= i < n && keys[i] !in before && keys[i] !in keys[..i] ==>
         keys[i] in after && after[keys[i]] == nodes[i]
  }

  /** What was registered has been kept, and all that is new is one of `nodes`. */
  ghost predicate Grown(before: map<InterfaceKey, InterfaceNode>, nodes: seq<InterfaceNode>,
                        after: map<InterfaceKey, InterfaceNode>) {
    && (forall k :: k in before ==> k in after && after[k] == before[k])
    && forall k :: k in after && k !in before ==> after[k] in nodes
  }

  lemma GrownMore(before: map<InterfaceKey, InterfaceNode>, nodes: seq<InterfaceNode>,
                  after: map<InterfaceKey, InterfaceNode>, k: InterfaceKey, n: InterfaceNode)
    requires Grown(before, nodes, after) && k !in after && n in nodes
    ensures Grown(before, nodes, after[k := n])
  {
  }

  lemma AddedNone(before: map<InterfaceKey, InterfaceNode>, keys: seq<InterfaceKey>, nodes: seq<InterfaceNode>)
    requires |keys| == |nodes|
    ensures Added(before, keys, nodes, 0, before)
  {
  }

  lemma AddedMore(before: map<InterfaceKey, InterfaceNode>, keys: seq<InterfaceKey>, nodes: seq<InterfaceNode>, i: nat,
                  after: map<InterfaceKey, InterfaceNode>)
    requires i < |keys| == |nodes| && Added(before, keys, nodes, i, after)
    ensures Added(before, keys, nodes, i + 1, if keys[i] in after then after else after[keys[i] := nodes[i]])
  {
    hide Grown;
    assert keys[..i + 1] == keys[..i] + [keys[i]];
    if keys[i] !in after {
      assert Grown(before, nodes, after);
      GrownMore(before, nodes, after, keys[i], nodes[i]);
      assert keys[i] !in before;
    }
  }

  lemma AddedAll(before: map<InterfaceKey, InterfaceNode>, keys: seq<InterfaceKey>, nodes: seq<InterfaceNode>,
                 after: map<InterfaceKey, InterfaceNode>)
    requires |keys| == |nodes| && Added(before, keys, nodes, |keys|, after)
    ensures after.Keys == before.Keys + set k | k in keys
    ensures forall k :: k in before ==> k in after && after[k] == before[k]
    ensures forall k :: k in after && k !in before ==> after[k] in nodes
  {
    assert keys[..|keys|] == keys;
  }

  /** Where the search for a plugin to be removed stands: it ends at that plugin, or when nothing is found. */
  datatype Search = At(plugin: Plugin?) | NotFound

  /** The search looks up the name again in each round, of which `n` have been made. */
  function Searched(plugins: map<string, Plugin>, p: Plugin, n: nat): Search {
    if n == 0 then At(null)
    else
      var before := Searched(plugins, p, n - 1);
      if before in {NotFound, At(p)} then before
      else if p.name in plugins then At(plugins[p.name]) else NotFound
  }

  /** It never ends exactly if the name is found and leads to another plugin. */
  lemma SearchEndsExactly(plugins: map<string, Plugin>, p: Plugin)
    ensures (exists n :: Searched(plugins, p, n) in {NotFound, At(p)}) <==>
            p.name !in plugins || plugins[p.name] == p
  {
    if p.name !in plugins || plugins[p.name] == p {
      assert Searched(plugins, p, 0) == At(null);
      assert Searched(plugins, p, 1) in {NotFound, At(p)};
    } else {
      forall n ensures Searched(plugins, p, n) !in {NotFound, At(p)} {
        SearchGoesOn(plugins, p, n);
      }
    }
  }

  lemma {:induction false} SearchGoesOn(plugins: map<string, Plugin>, p: Plugin, n: nat)
    requires p.name in plugins && plugins[p.name] != p
    ensures Searched(plugins, p, n) == At(if n == 0 then null else plugins[p.name])
  {
    if n != 0 {
      SearchGoesOn(plugins, p, n - 1);
    }
  }

  /** All entries of the dependency table of `n` are among `nodes`. */
  ghost predicate TableWithin(n: InterfaceNode, nodes: set<InterfaceNode>)
    reads n`deps
  {
    forall i :: 0 <= i < |n.deps| && n.deps[i] != null ==> n.deps[i] in nodes
  }

  /** None of them is among `nodes`. */
  ghost predicate TableAvoids(n: InterfaceNode, nodes: set<InterfaceNode>)
    reads n`deps
  {
    forall i :: 0 <= i < |n.deps| && n.deps[i] != null ==> n.deps[i] !in nodes
  }

  lemma TableEntries(n: InterfaceNode, recorded: seq<InterfaceNode>, nodes: set<InterfaceNode>)
    ensures n.HasTable(recorded) ==> (TableWithin(n, nodes) <==> forall d :: d in recorded ==> d in nodes)
  {
    if n.HasTable(recorded) {
      assert forall i :: 0 <= i < |recorded| ==> n.deps[i] == recorded[i];
    }
  }

  lemma WithinWhatRemains(n: InterfaceNode, before: set<InterfaceNode>, after: set<InterfaceNode>)
    requires TableWithin(n, before) && after <= before
    ensures TableWithin(n, after) <==> TableAvoids(n, before - after)
  {
  }

  class PluginHost {
    /** the bookkeeping of the interfaces there are at present */
    var system: InterfaceSystem
    /** registered interfaces; a duplicate key is dropped on insertion */
    var interfaces: map<InterfaceKey, InterfaceNode>
    var plugins: map<string, Plugin>

    constructor (system: InterfaceSystem)
      ensures this.system == system && interfaces == map[] && plugins == map[]
    {
      this.system := system;
      interfaces, plugins := map[], map[];
    }

    ghost predicate Registered()
      reads this
    {
      forall k :: k in interfaces ==> interfaces[k] in system.opens
    }

    /** Whatever is opened is found in the registry. */
    ghost predicate OpensRegistered()
      reads this
    {
      Registered() && forall n, i :: n in interfaces.Values && 0 <= i < |system.opens[n]| ==>
        system.opens[n][i] in interfaces.Values
    }

    /** The dependency tables of registered interfaces lead to registered interfaces only. */
    ghost predicate TablesRegistered()
      reads this, interfaces.Values`deps
    {
      forall n :: n in interfaces.Values ==> TableWithin(n, interfaces.Values)
    }

    /** When all that is opened is registered, only tables from before can lead to interfaces that are gone. */
    lemma TablesRegisteredExactly()
      requires system.Valid() && OpensRegistered()
      ensures TablesRegistered() <==>
              forall n, d :: n in interfaces.Values && n in system.stale && d in system.stale[n] ==>
                d in interfaces.Values
    {
      hide InterfaceSystem.Valid, InterfaceNode.HasTable;
      forall n | n in interfaces.Values
        ensures TableWithin(n, interfaces.Values) <==>
                (n in system.stale ==> forall d :: d in system.stale[n] ==> d in interfaces.Values)
      {
        system.TableIsRecent(n);
        TableEntries(n, [], interfaces.Values);
        TableEntries(n, system.opens[n], interfaces.Values);
        if n in system.stale {
          TableEntries(n, system.stale[n], interfaces.Values);
        }
      }
    }

    /** So opening keeps the tables, whatever is recorded on the way. */
    method Open(n: InterfaceNode)
      requires system.Valid() && OpensRegistered() && n in system.opens && system.Spares(system.handles + [n])
      modifies system, system.opens.Keys, system.plugins
      ensures system.Valid() && OpensRegistered() && system.handles == old(system.handles) + [n]
      ensures TablesRegistered() <==> old(TablesRegistered())
    {
      hide InterfaceSystem.Valid, InterfaceSystem.Spares, TablesRegistered;
      TablesRegisteredExactly();
      system.Open(n);
      TablesRegisteredExactly();
    }

    /** New nodes have come with a plugin and others have gone, and interfaces may open something else now. */
    method Rewire(opens: map<InterfaceNode, seq<InterfaceNode>>, closes: map<InterfaceNode, seq<InterfaceNode>>,
                  ghost order: seq<InterfaceNode>, ghost plugins': set<Plugin>)
      requires system.Evolves(opens) && Distinct(order) && Nodes(order) == opens.Keys
      requires forall n :: n in opens ==>
                 n in closes && Within(opens, closes[n]) && multiset(closes[n]) == multiset(opens[n])
      requires forall n :: n in opens && n.plugin != null ==> n.plugin in plugins'
      requires forall p :: p in plugins' && p !in system.plugins ==> p.refcnt == 0
      modifies this`system
      ensures fresh(system) && system.Valid() && system.handles == old(system.handles)
      ensures system.opens == opens && system.plugins == plugins'
      ensures forall n :: n in system.stale <==> n in opens && n.deps != [] && !n.HasTable(opens[n])
    {
      hide InterfaceSystem.Valid, InterfaceSystem.Evolves, InterfaceNode.HasTable;
      system := new InterfaceSystem.Continue(system, opens, closes, order, plugins');
    }

    /** No key of `p` leads to an interface of somebody else. */
    ghost predicate OwnsItsKeys(p: Plugin)
      reads this
    {
      forall k :: k in p.interfaces && k in interfaces ==> interfaces[k].plugin == p
    }

    /** Register interfaces of a plugin; those with a key that is taken are dropped. */
    method BulkRegister(keys: seq<InterfaceKey>, nodes: seq<InterfaceNode>)
      requires Registered() && |nodes| == |keys|
      requires forall i :: 0 <= i < |nodes| ==> nodes[i] in system.opens
      modifies this`interfaces
      ensures Registered() && Added(old(interfaces), keys, nodes, |keys|, interfaces)
    {
      hide Added;
      AddedNone(interfaces, keys, nodes);
      var i := 0;
      while i < |keys|
        invariant i <= |keys| && Registered() && Added(old(interfaces), keys, nodes, i, interfaces)
      {
        AddedMore(old(interfaces), keys, nodes, i, interfaces);
        if keys[i] !in interfaces {
          interfaces := interfaces[keys[i] := nodes[i]];
        }
        i := i + 1;
      }
    }

    /** Register a plugin and, unless it reports an error, the interfaces it offers; an error may be pending before. */
    method RegisterPlugin(p: Plugin, nodes: seq<InterfaceNode>, pending: bool) returns (failed: bool)
      requires Registered() && |nodes| == |p.interfaces|
      requires forall i :: 0 <= i < |nodes| ==> nodes[i] in system.opens && nodes[i].plugin == p
      modifies this`interfaces, this`plugins
      ensures Registered() && failed == (pending || Refused(p, old(plugins)))
      ensures p.name in old(plugins) || (p.version != 0 && !p.error) ==> failed && interfaces == old(interfaces)
      ensures p.name !in old(plugins) && (p.version == 0 || p.error) ==> failed == pending
      ensures plugins == if p.name in old(plugins) then old(plugins) else old(plugins)[p.name := p]
      ensures forall k :: k in old(interfaces) ==> k in interfaces && interfaces[k] == old(interfaces)[k]
      ensures Refused(p, old(plugins)) || p.error ==> interfaces == old(interfaces)
      ensures !Refused(p, old(plugins)) && !p.error ==>
                interfaces.Keys == old(interfaces).Keys + (set k | k in p.interfaces)
      ensures forall k :: k in interfaces && k !in old(interfaces) ==> interfaces[k].plugin == p
      ensures !Refused(p, old(plugins)) && !p.error ==>
                Added(old(interfaces), p.interfaces, nodes, |p.interfaces|, interfaces)
      ensures OwnsItsKeys(p) <==> old(OwnsItsKeys(p))
      ensures old(TablesRegistered()) && (forall n :: n in nodes ==> n.deps == []) ==> TablesRegistered()
    {
      hide Added;
      failed := pending;
      if p.name in plugins {
        failed := true;
      } else {
        plugins := plugins[p.name := p];
        if !p.error {
          if p.version == 0 {
            BulkRegister(p.interfaces, nodes);
            AddedAll(old(interfaces), p.interfaces, nodes, interfaces);
            if old(TablesRegistered()) && forall n :: n in nodes ==> n.deps == [] {
              AdditionKeepsTables(old(interfaces), nodes);
            }
          } else {
            failed := true;
          }
        }
      }
    }

    lemma AdditionKeepsTables(before: map<InterfaceKey, InterfaceNode>, nodes: seq<InterfaceNode>)
      requires forall n :: n in before.Values ==> TableWithin(n, before.Values)
      requires forall n :: n in nodes ==> n.deps == []
      requires forall k :: k in before ==> k in interfaces && interfaces[k] == before[k]
      requires forall k :: k in interfaces && k !in before ==> interfaces[k] in nodes
      ensures TablesRegistered()
    {
      assert before.Values <= interfaces.Values by {
        forall n | n in before.Values ensures n in interfaces.Values {
          var k :| k in before && before[k] == n;
          assert interfaces[k] == n;
        }
      }
      forall n | n in interfaces.Values ensures n in before.Values || n.deps == [] {
        var k :| k in interfaces && interfaces[k] == n;
        assert k in before ==> before[k] == n;
      }
    }

    /** The name is taken, or the plugin has an interface version that is not known. */
    predicate Refused(p: Plugin, plugins: map<string, Plugin>) {
      p.name in plugins || (!p.error && p.version != 0)
    }

    /** Remove the given interfaces; `safe` is false when one to be removed is still in use. */
    method BulkRemove(keys: seq<InterfaceKey>) returns (safe: bool)
      modifies this`interfaces
      ensures safe == forall k :: k in keys && k in old(interfaces) ==> old(interfaces)[k].refcnt == 0
      ensures safe ==> interfaces == old(interfaces) - set k | k in keys
    {
      var i := 0;
      while i < |keys|
        invariant i <= |keys| && interfaces == old(interfaces) - set k | k in keys[..i]
        invariant forall k :: k in keys[..i] && k in old(interfaces) ==> old(interfaces)[k].refcnt == 0
      {
        if keys[i] in interfaces {
          var node := interfaces[keys[i]];
          if node.refcnt != 0 {
            return false;
          }
          interfaces := interfaces - {keys[i]};
        }
        i := i + 1;
      }
      assert keys[..i] == keys;
      safe := true;
    }

    /** The plugin is registered, reported no error and its file extension has a loader to undo. */
    ghost predicate Removable(p: Plugin)
      reads this, p
    {
      p.refcnt == 0 && p.loadable && p.name in plugins && plugins[p.name] == p && !p.error
    }

    /**
      Unload a plugin unless it is in use. The removal of its interfaces never meets one of its
      own that is still in use; it is safe exactly when no key it lists leads to a used interface
      of somebody else. It gets stuck exactly if another plugin is registered by the same name.
    */
    method Unload(p: Plugin) returns (users: nat, safe: bool, stuck: bool)
      requires Registered() && system.Valid() && p in system.plugins
      modifies this`interfaces, this`plugins
      ensures users == p.refcnt
      ensures stuck <==> p.refcnt == 0 && p.loadable && !exists n :: Searched(old(plugins), p, n) in {NotFound, At(p)}
      ensures plugins == if p.refcnt == 0 && p.loadable && !stuck then old(plugins) - {p.name} else old(plugins)
      ensures !old(Removable(p)) ==> safe && interfaces == old(interfaces)
      ensures old(Removable(p)) ==>
                safe == forall k :: k in p.interfaces && k in old(interfaces) && old(interfaces)[k].plugin != p
                                    ==> old(interfaces)[k].refcnt == 0
      ensures old(Removable(p)) && safe ==> interfaces == old(interfaces) - set k | k in p.interfaces
      ensures old(OwnsItsKeys(p)) ==> safe
      ensures safe && old(TablesRegistered()) ==>
                (TablesRegistered() <==>
                 forall n :: n in interfaces.Values && (n.refcnt == 0 || n in system.stale) ==>
                   TableAvoids(n, old(interfaces).Values - interfaces.Values))
    {
      hide InterfaceSystem.Valid, TableWithin, TableAvoids, Searched;
      users, safe, stuck := p.refcnt, true, false;
      if TablesRegistered() {
        NothingRemoved();
      }
      if p.refcnt != 0 {
        return;
      }
      forall k | k in interfaces && interfaces[k].plugin == p ensures interfaces[k].refcnt == 0 {
        system.UnusedPlugin(p, interfaces[k]);
      }
      SearchEndsExactly(plugins, p);
      if p.loadable && p.name in plugins {
        if plugins[p.name] != p {
          stuck := true;
          return;
        }
        plugins := plugins - {p.name};
        if !p.error {
          safe := BulkRemove(p.interfaces);
          if safe && old(TablesRegistered()) {
            RemovalKeepsTables(old(interfaces), p.interfaces);
          }
        }
      }
    }

    /**
      After unused interfaces have been removed, the tables lead to registered interfaces exactly if no interface that
      remains has an entry for one of those removed; of the remaining ones in use, only a table from before can.
    */
    lemma RemovalKeepsTables(before: map<InterfaceKey, InterfaceNode>, keys: seq<InterfaceKey>)
      requires system.Valid() && interfaces == before - set k | k in keys
      requires forall k :: k in before ==> before[k] in system.opens && TableWithin(before[k], before.Values)
      requires forall k :: k in keys && k in before ==> before[k].refcnt == 0
      ensures TablesRegistered() <==>
              forall n :: n in interfaces.Values && (n.refcnt == 0 || n in system.stale) ==>
                TableAvoids(n, before.Values - interfaces.Values)
    {
      hide InterfaceSystem.Valid, TableWithin, TableAvoids;
      forall n | n in interfaces.Values ensures n in before.Values && n in system.opens {
        var k :| k in interfaces && interfaces[k] == n;
        assert before[k] == n;
      }
      forall n | n in interfaces.Values
        ensures if n.refcnt == 0 || n in system.stale
                then TableWithin(n, interfaces.Values) == TableAvoids(n, before.Values - interfaces.Values)
                else TableWithin(n, interfaces.Values)
      {
        if n.refcnt == 0 || n in system.stale {
          WithinWhatRemains(n, before.Values, interfaces.Values);
        } else {
          UsedStay(n, before, keys);
        }
      }
    }

    lemma NothingRemoved()
      requires TablesRegistered()
      ensures forall n :: n in interfaces.Values ==> TableAvoids(n, interfaces.Values - interfaces.Values)
    {
    }

    lemma UsedStay(n: InterfaceNode, before: map<InterfaceKey, InterfaceNode>, keys: seq<InterfaceKey>)
      requires system.Valid() && n in system.opens && n.refcnt != 0 && n !in system.stale
      requires interfaces == before - (set k | k in keys) && TableWithin(n, before.Values)
      requires forall k :: k in keys && k in before ==> before[k].refcnt == 0
      ensures TableWithin(n, interfaces.Values)
    {
      hide InterfaceSystem.Valid;
      forall i | 0 <= i < |n.deps| && n.deps[i] != null ensures n.deps[i] in interfaces.Values {
        system.RecordedIsInUse(n, i);
        var k :| k in before && before[k] == n.deps[i];
        assert interfaces[k] == n.deps[i];
      }
    }
  }

  /** Two plugins with one interface each; that of the first may depend on that of the second. */
  method TwoPlugins(ka: InterfaceKey, kb: InterfaceKey, depends: bool)
    returns (a: Plugin, b: Plugin, na: InterfaceNode, nb: InterfaceNode, system: InterfaceSystem)
    ensures Offers(a, "a.so", ka) && Offers(b, "b.so", kb)
    ensures na.plugin == a && nb.plugin == b && na != nb && a != b
    ensures fresh(a) && fresh(b) && fresh(na) && fresh(nb) && fresh(system)
    ensures system.Valid() && system.handles == [] && system.stale == map[] && system.plugins == {a, b}
    ensures system.opens == map[na := if depends then [nb] else [], nb := []]
  {
    a := new Plugin("a.so", false, true, 0, [ka]);
    b := new Plugin("b.so", false, true, 0, [kb]);
    na := new InterfaceNode(a);
    nb := new InterfaceNode(b);
    var opens := map[na := if depends then [nb] else [], nb := []];
    ghost var order := [na, nb];
    assert order[0] == na && order[1] == nb && Nodes(order) == opens.Keys;
    system := new InterfaceSystem(opens, opens, order, {a, b});
  }

  predicate Offers(p: Plugin, name: string, key: InterfaceKey) {
    p.name == name && !p.error && p.loadable && p.version == 0 && p.interfaces == [key]
  }

  /** An interface without dependencies counts the handles on it. */
  lemma CountedAlone(g: map<InterfaceNode, seq<InterfaceNode>>, n: InterfaceNode, m: InterfaceNode)
    requires Closed(g) && n in g && g[n] == []
    ensures SimplePathCount(g, [n], m) == if n == m then 1 else 0
  {
    VisitsAreSimplePaths(g, [n], m);
    EnteredOnce(g, {}, n, m);
  }

  method RegisterTwo(system: InterfaceSystem, a: Plugin, b: Plugin, na: InterfaceNode, nb: InterfaceNode)
    returns (host: PluginHost)
    requires |a.interfaces| == 1 && Offers(a, "a.so", a.interfaces[0]) && na.plugin == a && na in system.opens
    requires |b.interfaces| == 1 && Offers(b, "b.so", b.interfaces[0]) && nb.plugin == b && nb in system.opens
    ensures fresh(host) && host.system == system && host.plugins == map[a.name := a, b.name := b]
    ensures var ka, kb := a.interfaces[0], b.interfaces[0];
            host.interfaces == if ka == kb then map[ka := na] else map[ka := na, kb := nb]
  {
    host := new PluginHost(system);
    var failed := host.RegisterPlugin(a, [na], false);
    RegisteredOne(map[], a.interfaces[0], na, host.interfaces);
    failed := host.RegisterPlugin(b, [nb], false);
    RegisteredOne(map[a.interfaces[0] := na], b.interfaces[0], nb, host.interfaces);
  }

  lemma RegisteredOne(before: map<InterfaceKey, InterfaceNode>, key: InterfaceKey, n: InterfaceNode,
                      after: map<InterfaceKey, InterfaceNode>)
    requires Added(before, [key], [n], 1, after)
    ensures after == if key in before then before else before[key := n]
  {
    AddedAll(before, [key], [n], after);
    assert [key][..0] == [];
  }

  /**
    A run where unloading fails: a plugin lists an interface that another one has registered before, and which is in
    use. The one to be unloaded is not in use itself.
  */
  method UnloadMeetsForeignInterface() returns (users: nat, safe: bool, stuck: bool)
    ensures users == 0 && !safe && !stuck
  {
    hide InterfaceSystem.Valid;
    var key := InterfaceKey("iface", 0, "name");
    var a, b, na, nb, system := TwoPlugins(key, key, false);
    var host := RegisterTwo(system, a, b, na, nb);
    assert [] + [na] == [na];
    system.SparesAll([na]);
    system.Open(na);
    Counts(system, na, nb, b);
    assert host.interfaces[b.interfaces[0]] == na;
    SearchEndsExactly(host.plugins, b);
    users, safe, stuck := host.Unload(b);
  }

  lemma Counts(system: InterfaceSystem, na: InterfaceNode, nb: InterfaceNode, b: Plugin)
    requires system.Valid() && system.handles == [na] && system.opens == map[na := [], nb := []] && na != nb
    requires b in system.plugins && na.plugin != b
    ensures na.refcnt == 1 && b.refcnt == 0
  {
    system.RefcntCountsSimplePaths(na);
    system.RefcntCountsSimplePaths(nb);
    CountedAlone(system.opens, na, na);
    CountedAlone(system.opens, na, nb);
    system.UnusedInterfaces(b);
  }

  /** No obstacle to unloading: the plugin is not in use and nobody else has its name or one of its keys. */
  method UnloadUnused(host: PluginHost, p: Plugin)
    requires host.Registered() && host.system.Valid() && p in host.system.plugins
    requires host.Removable(p) && host.OwnsItsKeys(p)
    modifies host`interfaces, host`plugins
    ensures host.interfaces == old(host.interfaces) - set k | k in p.interfaces
    ensures host.plugins == old(host.plugins) - {p.name}
  {
    hide InterfaceSystem.Valid, TableWithin, TableAvoids, Searched;
    SearchEndsExactly(host.plugins, p);
    var users, safe, stuck := host.Unload(p);
  }

  lemma UnloadsSecond(host: PluginHost, a: Plugin, b: Plugin, na: InterfaceNode, nb: InterfaceNode,
                      ka: InterfaceKey, kb: InterfaceKey)
    requires Offers(a, "a.so", ka) && Offers(b, "b.so", kb) && ka != kb && na.plugin == a && nb.plugin == b
    requires na in host.system.opens && nb in host.system.opens && b.refcnt == 0
    requires host.interfaces == map[ka := na, kb := nb] && host.plugins == map[a.name := a, b.name := b]
    ensures host.Registered() && host.Removable(b) && host.OwnsItsKeys(b)
    ensures host.interfaces - (set k | k in b.interfaces) == map[ka := na]
    ensures host.plugins - {b.name} == map[a.name := a]
  {
  }

  method DependingPlugins(kn: InterfaceKey, kd: InterfaceKey)
    returns (q: Plugin, p: Plugin, n: InterfaceNode, d: InterfaceNode, host: PluginHost)
    requires kn != kd
    ensures fresh(q) && fresh(p) && fresh(n) && fresh(d) && fresh(host) && fresh(host.system)
    ensures Offers(q, "a.so", kn) && Offers(p, "b.so", kd) && n.plugin == q && d.plugin == p && n != d && q != p
    ensures host.system.Valid() && host.system.handles == [] && host.system.stale == map[]
    ensures host.system.opens == map[n := [d], d := []] && host.system.plugins == {q, p}
    ensures host.interfaces == map[kn := n, kd := d] && host.plugins == map[q.name := q, p.name := p]
  {
    hide InterfaceSystem.Valid;
    var system;
    q, p, n, d, system := TwoPlugins(kn, kd, true);
    host := RegisterTwo(system, q, p, n, d);
  }

  /** An interface is opened and closed, and the plugin unloaded that it depends on. */
  method UsedOnce() returns (q: Plugin, n: InterfaceNode, d: InterfaceNode, host: PluginHost)
    ensures fresh(q) && fresh(n) && fresh(d) && fresh(host) && n != d && n.plugin == q
    ensures host.system.Valid() && host.system.handles == [] && host.system.opens == map[n := [d], d := []]
    ensures host.interfaces == map[InterfaceKey("n", 0, "n") := n] && host.plugins == map["a.so" := q]
    ensures n.HasTable([d]) && n.refcnt == 0 && d.refcnt == 0 && q.refcnt == 0 && q in host.system.plugins
  {
    hide InterfaceSystem.Valid, InterfaceSystem.Spares, InterfaceNode.HasTable, PluginHost.Registered,
      PluginHost.Removable, PluginHost.OwnsItsKeys;
    var kn, kd := InterfaceKey("n", 0, "n"), InterfaceKey("d", 0, "d");
    var p;
    q, p, n, d, host := DependingPlugins(kn, kd);
    host.system.SparesAll([n]);
    host.system.OpenAndClose(n);
    host.system.AllClosed();
    UnloadsSecond(host, q, p, n, d, kn, kd);
    UnloadUnused(host, p);
  }

  /** The plugin comes again, with a new node for its interface, which is what `n` now depends on. */
  method DiscoveredAnew(host: PluginHost, q: Plugin, n: InterfaceNode, d: InterfaceNode)
    returns (p: Plugin, d': InterfaceNode)
    requires host.system.Valid() && host.system.handles == [] && host.system.opens == map[n := [d], d := []]
    requires n.plugin == q && q in host.system.plugins && n.refcnt == 0 && d.refcnt == 0 && n != d
    modifies host`system
    ensures fresh(p) && fresh(d') && d'.plugin == p && d'.deps == [] && Offers(p, "b.so", InterfaceKey("d", 0, "d"))
    ensures fresh(host.system) && host.system.Valid() && host.system.handles == []
    ensures host.system.opens == map[n := [d'], d' := []] && host.system.plugins == {q, p}
    ensures forall k :: k in host.system.stale <==> k in {n, d'} && k.deps != [] && !k.HasTable(host.system.opens[k])
  {
    hide InterfaceSystem.Valid, InterfaceNode.HasTable, InterfaceSystem.Evolves;
    p := new Plugin("b.so", false, true, 0, [InterfaceKey("d", 0, "d")]);
    d' := NewNode(p);
    var opens := map[n := [d'], d' := []];
    Evolving(host.system, n, d, d', opens);
    ghost var order := [n, d'];
    assert order[0] == n && order[1] == d' && Nodes(order) == opens.Keys;
    host.Rewire(opens, opens, order, {q, p});
  }

  method NewNode(p: Plugin) returns (n: InterfaceNode)
    ensures fresh(n) && n.plugin == p && n.refcnt == 0 && n.lnk == null && n.HasTable([]) && n.deps == []
  {
    n := new InterfaceNode(p);
  }

  method RegisteredAnew(host: PluginHost, q: Plugin, n: InterfaceNode, d: InterfaceNode)
    returns (p: Plugin, d': InterfaceNode)
    requires host.system.Valid() && host.system.handles == [] && host.system.opens == map[n := [d], d := []]
    requires n.plugin == q && q in host.system.plugins && n.refcnt == 0 && d.refcnt == 0 && n != d
    requires host.interfaces == map[InterfaceKey("n", 0, "n") := n] && host.plugins == map["a.so" := q]
    requires n.HasTable([d])
    modifies host
    ensures fresh(p) && fresh(d') && fresh(host.system) && host.system.Valid() && host.system.handles == []
    ensures host.system.opens == map[n := [d'], d' := []] && host.system.plugins == {q, p}
    ensures host.interfaces == map[InterfaceKey("n", 0, "n") := n, InterfaceKey("d", 0, "d") := d']
    ensures host.system.stale == map[n := [d]]
  {
    hide InterfaceSystem.Valid, InterfaceNode.HasTable, InterfaceSystem.Evolves;
    p, d' := DiscoveredAnew(host, q, n, d);
    OneIsStale(host.system, n, d, d');
    var failed := host.RegisterPlugin(p, [d'], false);
    RegisteredOne(map[InterfaceKey("n", 0, "n") := n], InterfaceKey("d", 0, "d"), d', host.interfaces);
  }

  lemma OneIsStale(system: InterfaceSystem, n: InterfaceNode, d: InterfaceNode, d': InterfaceNode)
    requires system.Valid() && n in system.opens && n.HasTable([d]) && d' !in {n, d} && d'.deps == []
    requires n in system.opens && system.opens[n] == [d']
    requires forall k :: k in system.stale <==> k in {n, d'} && k.deps != [] && !k.HasTable(system.opens[k])
    ensures system.stale == map[n := [d]]
  {
    if n.HasTable([d']) {
      n.TableIsUnique([d], [d']);
    }
    system.TableIsRecent(n);
    n.TableIsUnique([d], system.stale[n]);
    assert system.stale.Keys == {n};
  }

  lemma Evolving(system: InterfaceSystem, n: InterfaceNode, d: InterfaceNode, d': InterfaceNode,
                 opens: map<InterfaceNode, seq<InterfaceNode>>)
    requires system.Valid() && system.opens == map[n := [d], d := []] && opens == map[n := [d'], d' := []]
    requires n.refcnt == 0 && d.refcnt == 0 && d' !in {n, d} && n != d
    requires d'.refcnt == 0 && d'.lnk == null && d'.HasTable([])
    ensures system.Evolves(opens)
  {
    hide InterfaceSystem.Valid, InterfaceNode.HasTable;
  }

  /** Entered once, a node with a cyclic dependency on nothing but a leaf is counted once; entered twice, twice. */
  lemma EnteredAgain(g: map<InterfaceNode, seq<InterfaceNode>>, n: InterfaceNode, d: InterfaceNode)
    requires n != d && g == map[n := [d], d := []]
    ensures Closed(g) && Within(g, [n]) && Within(g, [n] + [n])
    ensures VisitsAll(g, {}, [n], n) == 1 && VisitsAll(g, {}, [n] + [n], n) == 2
  {
    EnteredOnce(g, {}, n, n);
    StackIsNotVisited(g, {} + {n}, [d], n);
    VisitsAllConcat(g, {}, [n], [n], n);
  }

  lemma SparedOnce(system: InterfaceSystem, n: InterfaceNode, d: InterfaceNode)
    requires n != d && system.opens == map[n := [d], d := []] && system.stale.Keys == {n}
    ensures system.Spares([n]) && !system.Spares([n] + [n])
  {
    EnteredAgain(system.opens, n, d);
  }

  lemma OpenedAgain(host: PluginHost, n: InterfaceNode, d: InterfaceNode, d': InterfaceNode)
    requires host.system.Valid() && host.system.handles == [n] && host.system.stale == map[n := [d]]
    requires host.system.opens == map[n := [d'], d' := []] && d !in {n, d'} && n != d'
    requires host.interfaces == map[InterfaceKey("n", 0, "n") := n, InterfaceKey("d", 0, "d") := d']
    ensures host.interfaces.Values == {n, d'} && host.OpensRegistered()
    ensures n.refcnt == 1 && n.HasTable([d]) && !host.TablesRegistered()
  {
    hide InterfaceSystem.Valid;
    assert host.interfaces.Values == {n, d'} by {
      assert host.interfaces[InterfaceKey("n", 0, "n")] == n && host.interfaces[InterfaceKey("d", 0, "d")] == d';
    }
    host.system.TableIsRecent(n);
    assert n.deps[0] == d;
    assert !TableWithin(n, host.interfaces.Values);
    host.system.RefcntCountsSimplePaths(n);
    VisitsAreSimplePaths(host.system.opens, [n], n);
    EnteredAgain(host.system.opens, n, d');
  }

  /**
    A run after which an interface in use has a dependency table that leads to a node that is gone: it is opened and
    closed, and opened again after the plugin it depends on was unloaded and registered anew. With one more handle, that
    table would be walked.
  */
  method ReopenedAfterUnload() returns (n: InterfaceNode, d: InterfaceNode, d': InterfaceNode, host: PluginHost)
    ensures host.system.Valid() && host.system.handles == [n] && host.system.opens == map[n := [d'], d' := []]
    ensures host.OpensRegistered() && host.interfaces.Values == {n, d'} && d !in {n, d'}
    ensures n.refcnt == 1 && n.HasTable([d]) && !host.TablesRegistered()
    ensures host.system.stale == map[n := [d]] && !host.system.Spares(host.system.handles + [n])
  {
    hide InterfaceSystem.Valid, InterfaceSystem.Spares, InterfaceNode.HasTable, PluginHost.OpensRegistered,
      PluginHost.TablesRegistered;
    var q, p;
    q, n, d, host := UsedOnce();
    p, d' := RegisteredAnew(host, q, n, d);
    assert [] + [n] == [n];
    SparedOnce(host.system, n, d');
    host.system.Open(n);
    OpenedAgain(host, n, d, d');
  }
}
