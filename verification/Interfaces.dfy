/**
  Opening and closing of interfaces with arbitrary, also cyclic, dependencies.
*/
module Interfaces {
  import opened SimplePaths
  import opened InterfaceUsage

  /** The identity of an interface, by which it is looked up in the registry. */
  datatype InterfaceKey = InterfaceKey(iface: string, version: nat, name: string)

  /** A plugin: what it offers, and its use count over all of its interfaces. */
  class Plugin {
    const name: string
    const error: bool
    /** the file extension has a loader */
    const loadable: bool
    const version: nat
    const interfaces: seq<InterfaceKey>
    var refcnt: nat

    constructor (name: string, error: bool, loadable: bool, version: nat, interfaces: seq<InterfaceKey>)
      ensures this.name == name && this.error == error && this.loadable == loadable
      ensures this.version == version && this.interfaces == interfaces && refcnt == 0
    {
      this.name, this.error, this.loadable, this.version := name, error, loadable, version;
      this.interfaces := interfaces;
      refcnt := 0;
    }

    method RefInc()
      modifies this
      ensures refcnt == old(refcnt) + 1
    {
      refcnt := refcnt + 1;
    }

    method RefDec()
      requires 1 <= refcnt
      modifies this
      ensures refcnt == old(refcnt) - 1
    {
      refcnt := refcnt - 1;
    }
  }

  class InterfaceNode {
    const plugin: Plugin?
    var refcnt: nat
    var lnk: InterfaceNode?
    var depsSize: nat
    var deps: seq<InterfaceNode?>

    constructor (plugin: Plugin?)
      ensures this.plugin == plugin && refcnt == 0 && lnk == null && HasTable([])
    {
      this.plugin := plugin;
      refcnt, lnk, depsSize, deps := 0, null, 0, [];
    }

    /** The dependency table is absent, or holds `recorded`, a terminator and nothing behind it. */
    ghost predicate HasTable(recorded: seq<InterfaceNode>)
      reads this`deps, this`depsSize
    {
      && depsSize == |deps|
      && (deps == [] <==> recorded == [])
      && (deps != [] ==> 4 <= |deps| && |recorded| < |deps|)
      && forall i :: 0 <= i < |deps| ==> deps[i] == if i < |recorded| then recorded[i] else null
    }

    lemma TableIsUnique(a: seq<InterfaceNode>, b: seq<InterfaceNode>)
      requires HasTable(a) && HasTable(b)
      ensures a == b
    {
      assert deps != [] ==> deps[|a|] == null && deps[|b|] == null;
    }

    /** Append to the dependency table, which is allocated or doubled on demand. */
    method PushDependency(child: InterfaceNode, ghost recorded: seq<InterfaceNode>)
      requires HasTable(recorded)
      modifies this`deps, this`depsSize
      ensures HasTable(recorded + [child])
    {
      if depsSize == 0 {
        depsSize := 4;
        deps := seq(4, _ => null);
      }
      ghost var was := deps;
      var sz, itr := depsSize, 0;
      while deps[itr] != null
        invariant itr <= |recorded| < |deps| && depsSize == |deps| && 4 <= |was|
        invariant if |deps| == |was| then deps == was && sz == |was| - itr && 2 <= sz
                  else |recorded| == |was| - 1 == itr && |deps| == 2 * |was|
        invariant forall i :: 0 <= i < |deps| ==> deps[i] == if i < |recorded| then recorded[i] else null
        decreases |recorded| - itr
      {
        sz := sz - 1;
        itr := itr + 1;
        if sz == 1 {
          sz := depsSize + 1;
          depsSize := 2 * depsSize;
          var tail := Garbage(depsSize - |deps|);
          deps := deps + tail;
          itr := sz - 2;
          deps := deps[..itr] + seq(sz, _ => null);
        }
      }
      deps := deps[itr := child];
    }
  }

  /** What a grown memory block holds in its new part is not known. */
  method Garbage(n: nat) returns (cells: seq<InterfaceNode?>)
    ensures |cells| == n
  {
    cells := seq(n, _ => null);
  }

  ghost function Nodes(stk: seq<InterfaceNode>): set<InterfaceNode> {
    set n | n in stk
  }

  /** `stk` lists the nodes linked from `top` by their `lnk` pointers. */
  ghost predicate Linked(top: InterfaceNode?, stk: seq<InterfaceNode>)
    reads Nodes(stk)`lnk
    decreases stk
  {
    if stk == [] then top == null
    else top == stk[0] && stk[0] !in stk[1..] && Linked(stk[0].lnk, stk[1..])
  }

  /** The uses counted for the nodes among `order` that come from plugin `p`. */
  ghost function UseCount(order: seq<InterfaceNode>, u: map<InterfaceNode, Usage<InterfaceNode>>, p: Plugin): nat {
    if order == [] then 0
    else (if order[0].plugin == p && order[0] in u then u[order[0]].refcnt else 0) + UseCount(order[1..], u, p)
  }

  lemma {:induction false} UseCountSame(order: seq<InterfaceNode>, u: map<InterfaceNode, Usage<InterfaceNode>>,
                                        v: map<InterfaceNode, Usage<InterfaceNode>>, p: Plugin)
    requires u.Keys == v.Keys && forall n :: n in u && n in order ==> v[n].refcnt == u[n].refcnt
    ensures UseCount(order, v, p) == UseCount(order, u, p)
  {
    if order != [] {
      UseCountSame(order[1..], u, v, p);
    }
  }

  lemma {:induction false} UseCountShift(order: seq<InterfaceNode>, u: map<InterfaceNode, Usage<InterfaceNode>>,
                                         n: InterfaceNode, used: Usage<InterfaceNode>, p: Plugin)
    requires Distinct(order) && n in order && n in u
    ensures UseCount(order, u[n := used], p)
            == UseCount(order, u, p) + if n.plugin == p then used.refcnt - u[n].refcnt else 0
  {
    if order[0] == n {
      UseCountSame(order[1..], u, u[n := used], p);
    } else {
      UseCountShift(order[1..], u, n, used, p);
    }
  }

  lemma {:induction false} UseCountOfMember(order: seq<InterfaceNode>, u: map<InterfaceNode, Usage<InterfaceNode>>,
                                            n: InterfaceNode, p: Plugin)
    requires n in order && n in u && n.plugin == p
    ensures u[n].refcnt <= UseCount(order, u, p)
  {
    if order[0] != n {
      UseCountOfMember(order[1..], u, n, p);
    }
  }

  lemma {:induction false} UseCountZero(order: seq<InterfaceNode>, u: map<InterfaceNode, Usage<InterfaceNode>>,
                                        p: Plugin)
    requires forall n :: n in u ==> u[n].refcnt == 0
    ensures UseCount(order, u, p) == 0
  {
    if order != [] {
      UseCountZero(order[1..], u, p);
    }
  }

  lemma {:induction false} UseCountNone(order: seq<InterfaceNode>, u: map<InterfaceNode, Usage<InterfaceNode>>,
                                        p: Plugin)
    requires forall n :: n in u && n.plugin == p ==> u[n].refcnt == 0
    ensures UseCount(order, u, p) == 0
  {
    if order != [] {
      UseCountNone(order[1..], u, p);
    }
  }

  ghost function InUse(u: map<InterfaceNode, Usage<InterfaceNode>>, p: Plugin): set<InterfaceNode> {
    set n | n in u && n.plugin == p && 0 < u[n].refcnt
  }

  /** The count depends on the nodes in use only, not on which others there are, nor on their order. */
  lemma {:induction false} UseCountKept(a: seq<InterfaceNode>, u: map<InterfaceNode, Usage<InterfaceNode>>,
                                        b: seq<InterfaceNode>, v: map<InterfaceNode, Usage<InterfaceNode>>, p: Plugin)
    requires Distinct(a) && Nodes(a) == u.Keys && Distinct(b) && Nodes(b) == v.Keys
    requires forall n :: n in u && n.plugin == p && 0 < u[n].refcnt ==> n in v && v[n].refcnt == u[n].refcnt
    requires forall n :: n in v && n.plugin == p && 0 < v[n].refcnt ==> n in u && u[n].refcnt == v[n].refcnt
    ensures UseCount(a, u, p) == UseCount(b, v, p)
    decreases InUse(u, p)
  {
    if n :| n in u && n.plugin == p && 0 < u[n].refcnt {
      var none := u[n].(refcnt := 0);
      assert n in Nodes(a) && n in Nodes(b);
      UseCountShift(a, u, n, none, p);
      UseCountShift(b, v, n, none, p);
      assert InUse(u[n := none], p) == InUse(u, p) - {n};
      UseCountKept(a, u[n := none], b, v[n := none], p);
    } else {
      UseCountNone(a, u, p);
      UseCountNone(b, v, p);
    }
  }

  /** A run of the application: a sequence of opens and closes. */
  datatype Step = OpenStep(node: InterfaceNode) | CloseStep(node: InterfaceNode)

  /** The handles outstanding after `script`, started with `held`. */
  ghost function Outstanding(script: seq<Step>, held: multiset<InterfaceNode>): multiset<InterfaceNode>
    decreases |script|
  {
    if script == [] then held
    else var last := script[|script| - 1];
         var before := Outstanding(script[..|script| - 1], held);
         if last.OpenStep? then before + multiset{last.node} else before - multiset{last.node}
  }

  /** Every close in the script refers to a handle outstanding by then. */
  ghost predicate ClosesAreMatched(script: seq<Step>, held: multiset<InterfaceNode>) {
    forall i :: 0 <= i < |script| && script[i].CloseStep? ==> script[i].node in Outstanding(script[..i], held)
  }

  lemma OutstandingStart(script: seq<Step>, held: multiset<InterfaceNode>)
    ensures Outstanding(script[..0], held) == held
  {
  }

  lemma OutstandingNext(script: seq<Step>, i: nat, held: multiset<InterfaceNode>)
    requires i < |script|
    ensures Outstanding(script[..i + 1], held)
            == if script[i].OpenStep? then Outstanding(script[..i], held) + multiset{script[i].node}
               else Outstanding(script[..i], held) - multiset{script[i].node}
  {
    assert script[..i + 1][..i] == script[..i];
  }

  lemma LinkedTop(top: InterfaceNode?, stk: seq<InterfaceNode>)
    requires Linked(top, stk)
    ensures top == if stk == [] then null else stk[0]
  {
  }

  class InterfaceSystem {
    /** what the `acquire` function of each interface opens, in order */
    const opens: map<InterfaceNode, seq<InterfaceNode>>
    /** what its `release` function closes */
    const closes: map<InterfaceNode, seq<InterfaceNode>>

    /** the dependency tables that are from before, when their nodes opened something else */
    ghost const stale: map<InterfaceNode, seq<InterfaceNode>>
    /** all nodes, each once, and all their plugins */
    ghost const order: seq<InterfaceNode>
    ghost const plugins: set<Plugin>

    var collectDependencies: bool
    var openStack: InterfaceNode?
    var closeStack: InterfaceNode?

    /** one entry for each open that has not been closed yet */
    ghost var handles: seq<InterfaceNode>
    /** the state of all nodes: see `Mirrored` */
    ghost var use: map<InterfaceNode, Usage<InterfaceNode>>

    ghost predicate NodesMirrored()
      reads this`use, opens.Keys`refcnt, opens.Keys`deps, opens.Keys`depsSize
    {
      && use.Keys == opens.Keys
      && forall n :: n in opens ==> n.refcnt == use[n].refcnt && n.HasTable(use[n].recorded)
    }

    ghost predicate Mirrored()
      reads this`use, opens.Keys`refcnt, opens.Keys`deps, opens.Keys`depsSize, plugins
    {
      NodesMirrored() && PluginsOk(use)
    }

    /** A plugin counts the uses of all its interfaces. */
    ghost predicate PluginsOk(u: map<InterfaceNode, Usage<InterfaceNode>>)
      reads plugins
    {
      && Distinct(order) && Nodes(order) == opens.Keys
      && (forall n :: n in opens && n.plugin != null ==> n.plugin in plugins)
      && forall p :: p in plugins ==> p.refcnt == UseCount(order, u, p)
    }

    /** `stk` is what `top` leads to, and no other node is linked. */
    ghost predicate LinksOk(top: InterfaceNode?, stk: seq<InterfaceNode>)
      reads opens.Keys`lnk
    {
      && Nodes(stk) <= opens.Keys && Linked(top, stk)
      && forall n :: n in opens && n !in stk ==> n.lnk == null
    }

    ghost predicate OpenState(stk: seq<InterfaceNode>)
      reads this, opens.Keys, plugins
    {
      && Sound(opens, stale, use, Nodes(stk)) && Mirrored() && LinksOk(openStack, stk)
      && closeStack == null && (collectDependencies ==> stk != [])
    }

    /** Walk the intrusive list of nodes in progress. */
    method InProgress(top: InterfaceNode?, n: InterfaceNode, ghost stk: seq<InterfaceNode>) returns (cycle: bool)
      requires LinksOk(top, stk)
      ensures cycle == (n in stk)
    {
      var itr := top;
      ghost var rest := stk;
      cycle := false;
      while itr != null
        invariant Linked(itr, rest) && (n in stk ==> n in rest) && Nodes(rest) <= Nodes(stk)
        decreases |rest|
      {
        if itr == n {
          assert n in Nodes(rest);
          return true;
        }
        itr, rest := itr.lnk, rest[1..];
      }
    }

    /** Put `n` on top of a list of nodes in progress. */
    method Link(n: InterfaceNode, top: InterfaceNode?, ghost stk: seq<InterfaceNode>)
      requires LinksOk(top, stk) && n in opens && n !in stk
      modifies n`lnk
      ensures LinksOk(n, [n] + stk)
    {
      n.lnk := top;
      assert ([n] + stk)[1..] == stk;
    }

    method Unlink(n: InterfaceNode, ghost stk: seq<InterfaceNode>) returns (top: InterfaceNode?)
      requires LinksOk(n, [n] + stk) && n in opens && n !in stk
      modifies n`lnk
      ensures LinksOk(top, stk)
    {
      assert ([n] + stk)[1..] == stk;
      top := n.lnk;
      n.lnk := null;
    }

    method PluginInc(n: InterfaceNode)
      requires PluginsOk(use) && use.Keys == opens.Keys && n in opens
      modifies plugins
      ensures PluginsOk(Bumped(use, n))
    {
      Noted(n, use[n].(refcnt := use[n].refcnt + 1));
      if n.plugin != null {
        n.plugin.RefInc();
      }
    }

    method PluginDec(n: InterfaceNode)
      requires PluginsOk(use) && use.Keys == opens.Keys && n in opens && 1 <= use[n].refcnt
      modifies plugins
      ensures PluginsOk(Dropped(use, n))
    {
      Noted(n, use[n].(refcnt := use[n].refcnt - 1));
      if n.plugin != null {
        n.plugin.RefDec();
      }
    }

    method NodeCount(n: InterfaceNode, count: nat)
      requires NodesMirrored() && n in opens
      modifies n`refcnt, this`use
      ensures NodesMirrored() && use == old(use)[n := old(use)[n].(refcnt := count)]
    {
      n.refcnt := count;
      use := use[n := use[n].(refcnt := count)];
    }

    method IncRef(n: InterfaceNode)
      requires Mirrored() && n in opens
      modifies n`refcnt, this`use, plugins
      ensures Mirrored() && use == Bumped(old(use), n)
    {
      hide PluginsOk, InterfaceNode.HasTable;
      PluginInc(n);
      NodeCount(n, n.refcnt + 1);
    }

    method DecRef(n: InterfaceNode)
      requires Mirrored() && n in opens && 1 <= use[n].refcnt
      modifies n`refcnt, this`use, plugins
      ensures Mirrored() && use == Dropped(old(use), n)
    {
      hide PluginsOk, InterfaceNode.HasTable;
      PluginDec(n);
      NodeCount(n, n.refcnt - 1);
    }

    method NodeRecord(n: InterfaceNode, child: InterfaceNode)
      requires NodesMirrored() && n in opens
      modifies n`deps, n`depsSize, this`use
      ensures NodesMirrored() && use == Recording(old(use), n, child)
    {
      n.PushDependency(child, use[n].recorded);
      use := Recording(use, n, child);
    }

    /** Append to the dependency table of `n`. */
    method Record(n: InterfaceNode, child: InterfaceNode)
      requires Mirrored() && n in opens
      modifies n`deps, n`depsSize, this`use
      ensures Mirrored() && use == Recording(old(use), n, child)
    {
      hide InterfaceNode.HasTable;
      Noted(n, use[n].(recorded := use[n].recorded + [child]));
      NodeRecord(n, child);
    }

    ghost method NoteAcquired(n: InterfaceNode, acquired: bool)
      requires Mirrored() && n in opens
      modifies this`use
      ensures Mirrored() && use == old(use)[n := old(use)[n].(acquired := acquired)]
    {
      Noted(n, use[n].(acquired := acquired));
      use := use[n := use[n].(acquired := acquired)];
    }

    lemma Noted(n: InterfaceNode, used: Usage<InterfaceNode>)
      requires Distinct(order) && Nodes(order) == opens.Keys == use.Keys && n in opens
      ensures n.plugin != null ==> use[n].refcnt <= UseCount(order, use, n.plugin)
      ensures forall p :: p in plugins
                ==> UseCount(order, use[n := used], p)
                    == UseCount(order, use, p) + if n.plugin == p then used.refcnt - use[n].refcnt else 0
    {
      assert n in Nodes(order);
      if n.plugin != null {
        UseCountOfMember(order, use, n, n.plugin);
      }
      forall p | p in plugins
        ensures UseCount(order, use[n := used], p)
                == UseCount(order, use, p) + if n.plugin == p then used.refcnt - use[n].refcnt else 0
      {
        UseCountShift(order, use, n, used, p);
      }
    }

    method Enter(n: InterfaceNode, ghost stk: seq<InterfaceNode>)
      requires OpenState(stk) && n in opens && n !in stk
      modifies this`openStack, this`use, n`refcnt, n`lnk, plugins
      ensures OpenState([n] + stk) && use == Bumped(old(use), n)
      ensures use[n].acquired ==> DepsInUse(opens, use, n)
    {
      hide Sound, Mirrored, LinksOk;
      EnterSound(opens, stale, use, Nodes(stk), n);
      assert Nodes([n] + stk) == Nodes(stk) + {n};
      IncRef(n);
      Link(n, openStack, stk);
      openStack := n;
    }

    method Leave(n: InterfaceNode, collect: bool, ghost stk: seq<InterfaceNode>)
      requires OpenState([n] + stk) && n !in stk && (collect ==> stk != [])
      requires use[n].acquired && (n !in stale ==> use[n].recorded == opens[n]) && DepsInUse(opens, use, n)
      modifies this`openStack, this`collectDependencies, n`lnk
      ensures OpenState(stk) && collectDependencies == collect
    {
      hide Sound, Mirrored, DepsInUse, Linked;
      assert Nodes([n] + stk) == Nodes(stk) + {n};
      LeaveSound(opens, stale, use, Nodes(stk), n);
      collectDependencies := collect;
      assert openStack == n by { LinkedTop(openStack, [n] + stk); }
      openStack := Unlink(n, stk);
    }

    method Collect(n: InterfaceNode, ghost stk: seq<InterfaceNode>)
      requires OpenState(stk) && n in opens && (collectDependencies ==> stk[0] !in stale)
      modifies this`use, opens.Keys`deps, opens.Keys`depsSize
      ensures OpenState(stk)
      ensures use == if collectDependencies then Recording(old(use), stk[0], n) else old(use)
    {
      hide Sound, Mirrored;
      if collectDependencies {
        assert stk[0] in Nodes(stk);
        RecordingSound(opens, stale, use, Nodes(stk), stk[0], n);
        Record(openStack, n);
      }
    }

    ghost predicate NodesOk(stk: seq<InterfaceNode>)
      reads this`use
    {
      Closed(opens) && use.Keys == opens.Keys && Nodes(stk) <= opens.Keys
    }

    lemma NodeFacts(n: InterfaceNode, stk: seq<InterfaceNode>)
      requires OpenState(stk) && n in opens
      ensures n.refcnt == use[n].refcnt && (n.deps == [] <==> use[n].recorded == [])
      ensures n !in stk ==> Settled(opens, stale, use, n)
      ensures n in stk ==> n in Nodes(stk) && (use[n].recorded == [] ==> n !in stale)
      ensures NodesOk(stk)
    {
    }

    method OpenNode(self: InterfaceNode, ghost stk: seq<InterfaceNode>)
      requires OpenState(stk) && self in opens && (collectDependencies ==> stk[0] !in stale)
      requires NodesOk(stk) && Single(opens, stale, Nodes(stk), [self], use)
      modifies this`openStack, this`collectDependencies, this`use, opens.Keys, plugins
      ensures OpenState(stk) && collectDependencies == old(collectDependencies)
      ensures AddedUpTo(opens, Nodes(stk), [self], [], old(use), use)
      ensures StackKept(Nodes(stk), if collectDependencies then Recording(old(use), stk[0], self) else old(use), use)
      decreases opens.Keys - Nodes(stk), 3, 0
    {
      hide Sound, Mirrored, LinksOk;
      var cycle := InProgress(openStack, self, stk);
      NodeFacts(self, stk);
      Collect(self, stk);
      NodeFacts(self, stk);
      if cycle {
        CycleAdds(opens, old(use), use, Nodes(stk), self);
      } else {
        ghost var u := use;
        SingleSame(opens, stale, Nodes(stk), [self], old(use), use);
        OpenIdle(self, stk);
        NodeFacts(self, stk);
        AddsFrom(opens, old(use), u, use, Nodes(stk), [self]);
      }
    }

    /** The part of `OpenNode` that runs when `self` is not in progress already. */
    method OpenIdle(self: InterfaceNode, ghost stk: seq<InterfaceNode>)
      requires OpenState(stk) && self in opens && self !in stk
      requires NodesOk(stk) && Single(opens, stale, Nodes(stk), [self], use)
      modifies this`openStack, this`collectDependencies, this`use, opens.Keys, plugins
      ensures OpenState(stk) && collectDependencies == old(collectDependencies)
      ensures AddedUpTo(opens, Nodes(stk), [self], [], old(use), use)
      ensures StackKept(Nodes(stk), old(use), use)
      decreases opens.Keys - Nodes(stk), 2, 0
    {
      hide Sound, Mirrored, LinksOk, DepsInUse, AddedUpTo, Linked;
      NodeFacts(self, stk);
      var backup := collectDependencies;
      SingleEnter(opens, stale, Nodes(stk), self, use);
      Enter(self, stk);
      assert Nodes([self] + stk) == Nodes(stk) + {self};
      OpenDependencies(self, [self] + stk);
      Leave(self, backup, stk);
      NodeFacts(self, stk);
      EnterAdds(opens, old(use), use, Nodes(stk), self);
    }

    /** Run `acquire` on first use, or else walk the recorded dependencies. */
    method OpenDependencies(self: InterfaceNode, ghost stk: seq<InterfaceNode>)
      requires OpenState(stk) && stk != [] && self == stk[0] && self in opens
      requires NodesOk(stk) && Single(opens, stale, Nodes(stk), opens[self], use)
      requires use[self].refcnt == 1 ==> !use[self].acquired && Recorded(opens, stale, use, self)
      requires use[self].refcnt != 1 ==>
                 use[self].acquired && use[self].recorded == opens[self] && DepsInUse(opens, use, self)
      modifies this`openStack, this`collectDependencies, this`use, opens.Keys, plugins
      ensures OpenState(stk)
      ensures AddedUpTo(opens, Nodes(stk), opens[self], [], old(use), use)
      ensures StackKept(Nodes(stk) - {self}, old(use), use)
      ensures use[self].acquired && (self !in stale ==> use[self].recorded == opens[self])
      ensures DepsInUse(opens, use, self)
      decreases opens.Keys - Nodes(stk), 5, 0
    {
      hide Sound, Mirrored, LinksOk, DepsInUse, AddedUpTo, Linked;
      NodeFacts(self, stk);
      if self.refcnt == 1 {
        collectDependencies := self.deps == [];
        Acquire(self, stk);
      } else {
        collectDependencies := false;
        DepWalk(self, stk);
        NodeFacts(self, stk);
      }
    }

    method MarkAcquired(n: InterfaceNode, ghost stk: seq<InterfaceNode>)
      requires OpenState(stk) && stk != [] && n == stk[0] && n in opens && n.refcnt == 1 && !use[n].acquired
      requires collectDependencies ==> use[n].recorded == []
      modifies this`use
      ensures OpenState(stk) && NodesOk(stk)
      ensures Acquiring(opens, Nodes(stk), n, collectDependencies, 0, old(use), use)
    {
      hide Mirrored, LinksOk;
      NodeFacts(n, stk);
      NoteAcquired(n, true);
    }

    /** The interface's own function, run on first use: it opens what it depends on. */
    method Acquire(self: InterfaceNode, ghost stk: seq<InterfaceNode>)
      requires OpenState(stk) && stk != [] && self == stk[0] && self in opens && self.refcnt == 1
      requires !use[self].acquired && NodesOk(stk) && Single(opens, stale, Nodes(stk), opens[self], use)
      requires collectDependencies ==> use[self].recorded == [] && self !in stale
      modifies this`openStack, this`collectDependencies, this`use, opens.Keys, plugins
      ensures OpenState(stk)
      ensures AddedUpTo(opens, Nodes(stk), opens[self], [], old(use), use)
      ensures StackKept(Nodes(stk),
                        Acquired(old(use), self,
                                 if collectDependencies then opens[self] else old(use)[self].recorded), use)
      ensures collectDependencies == old(collectDependencies)
      ensures DepsInUse(opens, use, self)
      decreases opens.Keys - Nodes(stk), 4, 0
    {
      hide Sound, Mirrored, LinksOk, DepsInUse, AddedUpTo, Linked, Acquiring, StackKept;
      NodeFacts(self, stk);
      ghost var u := use;
      MarkAcquired(self, stk);
      var i := 0;
      while i < |opens[self]|
        invariant i <= |opens[self]| && OpenState(stk) && collectDependencies == old(collectDependencies)
        invariant NodesOk(stk) && Acquiring(opens, Nodes(stk), self, collectDependencies, i, old(use), use)
      {
        ghost var v := use;
        AcquiringAdds(opens, Nodes(stk), self, collectDependencies, i, old(use), use);
        SingleNext(opens, stale, Nodes(stk), opens[self], i, old(use), use);
        OpenNode(opens[self][i], stk);
        NodeFacts(self, stk);
        AcquiringNext(opens, stale, Nodes(stk), self, collectDependencies, i, old(use), v, use);
        i := i + 1;
      }
      AcquiringDone(opens, Nodes(stk), self, collectDependencies, old(use), use);
    }

    lemma TableEntry(n: InterfaceNode, stk: seq<InterfaceNode>, i: nat)
      requires OpenState(stk) && n in opens
      ensures use[n].recorded != [] ==> |use[n].recorded| < |n.deps|
      ensures i < |n.deps| ==> n.deps[i] == if i < |use[n].recorded| then use[n].recorded[i] else null
    {
    }

    method WalkOne(dep: InterfaceNode, ghost stk: seq<InterfaceNode>)
      requires OpenState(stk) && !collectDependencies && dep in opens && NodesOk(stk) && 1 <= use[dep].refcnt
      requires Single(opens, stale, Nodes(stk), [dep], use)
      modifies this`openStack, this`collectDependencies, this`use, opens.Keys, plugins
      ensures OpenState(stk) && !collectDependencies && NodesOk(stk)
      ensures AddedUpTo(opens, Nodes(stk), [dep], [], old(use), use) && OnlyWalked(old(use), use)
      decreases opens.Keys - Nodes(stk), 0, 0
    {
      hide Sound, Mirrored, LinksOk, DepsInUse, AddedUpTo, Linked, OnlyWalked, StackKept;
      NodeFacts(dep, stk);
      var cycle := InProgress(openStack, dep, stk);
      if cycle {
        CycleAdds(opens, use, use, Nodes(stk), dep);
        NothingWalked(use);
      } else {
        SingleEnter(opens, stale, Nodes(stk), dep, use);
        Enter(dep, stk);
        assert Nodes([dep] + stk) == Nodes(stk) + {dep};
        DepWalk(dep, [dep] + stk);
        RecordedKept(Bumped(old(use), dep), use, dep);
        Leave(dep, false, stk);
        NodeFacts(dep, stk);
        EnterAdds(opens, old(use), use, Nodes(stk), dep);
        EnterWalked(old(use), use, dep);
      }
    }

    /** Count one more use of all non-cyclic dependencies, recursively. */
    method DepWalk(self: InterfaceNode, ghost stk: seq<InterfaceNode>)
      requires OpenState(stk) && stk != [] && self == stk[0] && self in opens && !collectDependencies
      requires use[self].recorded == opens[self] && DepsInUse(opens, use, self)
      requires NodesOk(stk) && Single(opens, stale, Nodes(stk), opens[self], use)
      modifies this`openStack, this`collectDependencies, this`use, opens.Keys, plugins
      ensures OpenState(stk) && !collectDependencies && NodesOk(stk)
      ensures AddedUpTo(opens, Nodes(stk), opens[self], [], old(use), use)
      ensures OnlyWalked(old(use), use) && DepsInUse(opens, use, self)
      decreases opens.Keys - Nodes(stk), 1, 0
    {
      hide Sound, Mirrored, LinksOk, DepsInUse, AddedUpTo, Linked, Walking, OnlyWalked, StackKept;
      NodeFacts(self, stk);
      WalkingStart(opens, Nodes(stk), self, use);
      var i := 0;
      TableEntry(self, stk, i);
      if self.deps != [] {
        while self.deps[i] != null
          invariant i <= |opens[self]| && i < |self.deps| && OpenState(stk) && !collectDependencies && NodesOk(stk)
          invariant use[self].recorded == opens[self] && Walking(opens, Nodes(stk), self, i, old(use), use)
          decreases |opens[self]| - i
        {
          ghost var v := use;
          TableEntry(self, stk, i);
          WalkingInUse(opens, Nodes(stk), self, i, old(use), use);
          WalkingAdds(opens, Nodes(stk), self, i, old(use), use);
          SingleNext(opens, stale, Nodes(stk), opens[self], i, old(use), use);
          WalkOne(self.deps[i], stk);
          WalkingNext(opens, Nodes(stk), self, i, old(use), v, use);
          RecordedKept(v, use, self);
          i := i + 1;
          TableEntry(self, stk, i);
        }
        TableEntry(self, stk, i);
      }
      WalkingDone(opens, Nodes(stk), self, old(use), use);
    }

    // ---- closing

    ghost predicate CloseState(stk: seq<InterfaceNode>)
      reads this, opens.Keys, plugins
    {
      && Closing(opens, stale, use, Nodes(stk)) && Mirrored() && LinksOk(closeStack, stk)
      && openStack == null && !collectDependencies
    }

    /** `release` closes as often what `acquire` opened, in any order. */
    ghost predicate ReleaseMatches() {
      forall n :: n in opens ==> n in closes && Within(opens, closes[n]) && multiset(closes[n]) == multiset(opens[n])
    }

    lemma ClosingFacts(n: InterfaceNode, stk: seq<InterfaceNode>)
      requires CloseState(stk) && n in opens
      ensures NodesOk(stk) && n.refcnt == use[n].refcnt
      ensures n in stk ==> n in Nodes(stk)
      ensures n !in stk ==> use[n].acquired == (1 <= n.refcnt)
      ensures 1 <= n.refcnt && n !in stale ==> use[n].recorded == opens[n]
      ensures n in stale ==> n.refcnt <= 1
      ensures n.deps == [] <==> use[n].recorded == []
      ensures n.deps != [] ==> |use[n].recorded| < |n.deps|
      ensures forall i :: 0 <= i < |n.deps| ==> n.deps[i] == if i < |use[n].recorded| then use[n].recorded[i] else null
    {
    }

    method CloseEnter(n: InterfaceNode, ghost stk: seq<InterfaceNode>)
      requires CloseState(stk) && n in opens && n !in stk && 1 <= use[n].refcnt
      modifies this`closeStack, n`lnk
      ensures CloseState([n] + stk)
    {
      hide Mirrored, LinksOk, Linked;
      Link(n, closeStack, stk);
      closeStack := n;
      assert Nodes([n] + stk) == Nodes(stk) + {n};
    }

    method CloseLeave(n: InterfaceNode, ghost stk: seq<InterfaceNode>)
      requires CloseState([n] + stk) && n in opens && n !in stk && 1 <= use[n].refcnt
      requires Closing(opens, stale, Dropped(use, n), Nodes(stk))
      modifies this`closeStack, this`use, n`lnk, n`refcnt, plugins
      ensures CloseState(stk) && use == Dropped(old(use), n)
    {
      hide Closing, Mirrored, Linked;
      assert closeStack == n by { LinkedTop(closeStack, [n] + stk); }
      closeStack := Unlink(n, stk);
      DecRef(n);
    }

    method CloseNode(self: InterfaceNode, ghost stk: seq<InterfaceNode>)
      requires ReleaseMatches() && CloseState(stk) && NodesOk(stk) && self in opens
      requires Covered(opens, Nodes(stk), [self], use)
      modifies this`closeStack, this`use, opens.Keys, plugins
      ensures CloseState(stk) && NodesOk(stk)
      ensures ClosedSoFar(opens, Nodes(stk), [self], 1, old(use), use)
      decreases opens.Keys - Nodes(stk), 1, 0
    {
      hide Closing, Mirrored, LinksOk, Linked, Covered, ClosedSoFar, DepsInUse, ReleaseMatches, StackKept, AddedUpTo;
      ClosingFacts(self, stk);
      CoveredFacts(self, stk);
      assert 1 <= self.refcnt;
      var cycle := InProgress(closeStack, self, stk);
      if cycle {
        CycleCloses(opens, Nodes(stk), self, use);
      } else {
        CloseEnter(self, stk);
        assert Nodes([self] + stk) == Nodes(stk) + {self};
        if self.refcnt == 1 {
          Release(self, [self] + stk);
        } else {
          CloseDependencies(self, [self] + stk);
        }
        ClosingFacts(self, [self] + stk);
        DropsFacts(self, stk, old(use));
        CloseLeave(self, stk);
        ClosingFacts(self, stk);
      }
    }

    lemma CoveredFacts(n: InterfaceNode, stk: seq<InterfaceNode>)
      requires CloseState(stk) && NodesOk(stk) && n in opens && Covered(opens, Nodes(stk), [n], use)
      ensures 1 <= use[n].refcnt
      ensures n !in stk ==> Covered(opens, Nodes([n] + stk), opens[n], use) && DepsInUse(opens, use, n)
    {
      CoveredInUse(opens, stale, Nodes(stk), n, use);
      assert Nodes([n] + stk) == Nodes(stk) + {n};
    }

    /** The dependencies of `n` on top of the stack have been closed. */
    ghost predicate DependenciesClosed(n: InterfaceNode, stk: seq<InterfaceNode>,
                                       u: map<InterfaceNode, Usage<InterfaceNode>>)
      requires n in opens
      reads this`use
    {
      && NodesOk(stk) && u.Keys == opens.Keys
      && AddedUpTo(opens, Nodes(stk), [], opens[n], u, use) && StackKept(Nodes(stk) - {n}, u, use)
      && use[n].acquired == (u[n].refcnt != 1)
      && forall k :: k in opens ==> use[k].recorded == u[k].recorded
    }

    lemma DropsFacts(n: InterfaceNode, stk: seq<InterfaceNode>, u: map<InterfaceNode, Usage<InterfaceNode>>)
      requires CloseState([n] + stk) && n in opens && n !in stk
      requires DependenciesClosed(n, [n] + stk, u) && 1 <= u[n].refcnt
      ensures use[n].refcnt == u[n].refcnt
      ensures Closing(opens, stale, Dropped(use, n), Nodes(stk))
      ensures ClosedSoFar(opens, Nodes(stk), [n], 1, u, Dropped(use, n))
    {
      assert Nodes([n] + stk) == Nodes(stk) + {n};
      CloseDrops(opens, stale, u, use, Nodes(stk), n);
    }

    /** The interface's own function, run on last use: it closes what `acquire` opened. */
    method Release(self: InterfaceNode, ghost stk: seq<InterfaceNode>)
      requires ReleaseMatches() && CloseState(stk) && NodesOk(stk) && stk != [] && self == stk[0] && self in opens
      requires self.refcnt == 1 && use[self].acquired && DepsInUse(opens, use, self)
      requires Covered(opens, Nodes(stk), opens[self], use)
      modifies this`closeStack, this`use, opens.Keys, plugins
      ensures CloseState(stk) && DependenciesClosed(self, stk, old(use))
      decreases opens.Keys - Nodes(stk), 2, 0
    {
      hide Closing, Mirrored, LinksOk, Linked, Covered, ClosedSoFar, DepsInUse, ReleaseMatches, StackKept, AddedUpTo;
      ClosingFacts(self, stk);
      ReleaseStart(self, stk);
      MarkReleased(self, stk);
      ghost var u := use;
      var i := 0;
      while i < |closes[self]|
        invariant i <= |closes[self]| && CloseState(stk) && NodesOk(stk)
        invariant ClosedSoFar(opens, Nodes(stk), closes[self], i, u, use)
      {
        ghost var v := use;
        ClosedCovers(opens, Nodes(stk), closes[self], i, u, use);
        CloseNode(closes[self][i], stk);
        ClosedNext(opens, Nodes(stk), closes[self], i, u, v, use);
        i := i + 1;
      }
      ReleaseDone(self, stk, old(use));
    }

    method MarkReleased(n: InterfaceNode, ghost stk: seq<InterfaceNode>)
      requires CloseState(stk) && NodesOk(stk) && n in opens && Closing(opens, stale, Released(use, n), Nodes(stk))
      modifies this`use
      ensures CloseState(stk) && NodesOk(stk) && use == Released(old(use), n)
    {
      hide Closing, Mirrored;
      NoteAcquired(n, false);
    }

    lemma ReleaseDone(n: InterfaceNode, stk: seq<InterfaceNode>, u: map<InterfaceNode, Usage<InterfaceNode>>)
      requires ReleaseMatches() && NodesOk(stk) && n in stk && n in opens && u.Keys == opens.Keys && u[n].refcnt == 1
      requires ClosedSoFar(opens, Nodes(stk), closes[n], |closes[n]|, Released(u, n), use)
      ensures DependenciesClosed(n, stk, u)
    {
      ClosedPermuted(opens, Nodes(stk), opens[n], closes[n], Released(u, n), use);
      assert opens[n][|opens[n]|..] == [];
    }

    /** While further uses remain, close the recorded dependencies. */
    method CloseDependencies(self: InterfaceNode, ghost stk: seq<InterfaceNode>)
      requires ReleaseMatches() && CloseState(stk) && NodesOk(stk) && stk != [] && self == stk[0] && self in opens
      requires 1 < self.refcnt && use[self].acquired
      requires Covered(opens, Nodes(stk), opens[self], use)
      modifies this`closeStack, this`use, opens.Keys, plugins
      ensures CloseState(stk) && DependenciesClosed(self, stk, old(use))
      decreases opens.Keys - Nodes(stk), 2, 0
    {
      hide Closing, Mirrored, LinksOk, Linked, Covered, ClosedSoFar, DepsInUse, ReleaseMatches, StackKept, AddedUpTo;
      ClosingFacts(self, stk);
      ClosedNothing(opens, Nodes(stk), opens[self], use);
      var i := 0;
      if self.deps != [] {
        while self.deps[i] != null
          invariant i <= |opens[self]| && i < |self.deps| && CloseState(stk) && NodesOk(stk)
          invariant use[self].recorded == opens[self]
          invariant ClosedSoFar(opens, Nodes(stk), opens[self], i, old(use), use)
          decreases |opens[self]| - i
        {
          ghost var v := use;
          ClosingFacts(self, stk);
          ClosedCovers(opens, Nodes(stk), opens[self], i, old(use), use);
          CloseNode(self.deps[i], stk);
          ClosedNext(opens, Nodes(stk), opens[self], i, old(use), v, use);
          i := i + 1;
          StillRecorded(self, stk, i, old(use));
        }
        ClosingFacts(self, stk);
      }
      CloseDone(self, stk, old(use));
    }

    lemma StillRecorded(n: InterfaceNode, stk: seq<InterfaceNode>, i: nat, u: map<InterfaceNode, Usage<InterfaceNode>>)
      requires CloseState(stk) && NodesOk(stk) && n in opens && u.Keys == opens.Keys
      requires i <= |opens[n]| && opens[n] != [] && u[n].recorded == opens[n]
      requires ClosedSoFar(opens, Nodes(stk), opens[n], i, u, use)
      ensures use[n].recorded == opens[n] && i < |n.deps|
    {
    }

    lemma CloseDone(n: InterfaceNode, stk: seq<InterfaceNode>, u: map<InterfaceNode, Usage<InterfaceNode>>)
      requires NodesOk(stk) && n in stk && n in opens && u.Keys == opens.Keys && u[n].refcnt != 1 && u[n].acquired
      requires ClosedSoFar(opens, Nodes(stk), opens[n], |opens[n]|, u, use)
      ensures DependenciesClosed(n, stk, u)
    {
      assert opens[n][|opens[n]|..] == [];
    }

    lemma ReleaseStart(n: InterfaceNode, stk: seq<InterfaceNode>)
      requires ReleaseMatches() && CloseState(stk) && NodesOk(stk) && n in stk && n in opens
      requires Covered(opens, Nodes(stk), opens[n], use)
      ensures n in closes && Within(opens, closes[n])
      ensures Closing(opens, stale, Released(use, n), Nodes(stk))
      ensures Covered(opens, Nodes(stk), closes[n], Released(use, n))
      ensures ClosedSoFar(opens, Nodes(stk), closes[n], 0, Released(use, n), Released(use, n))
    {
      CoveredPermuted(opens, Nodes(stk), opens[n], closes[n], use);
      ClosedNothing(opens, Nodes(stk), closes[n], Released(use, n));
    }

    // ---- the interface offered to the application

    ghost predicate Valid()
      reads this, opens.Keys, plugins
    {
      && ReleaseMatches() && Mirrored() && LinksOk(null, [])
      && openStack == null && closeStack == null && !collectDependencies
      && Balanced(opens, stale, use, handles)
    }

    /** Before first use: freshly registered nodes, nothing opened. */
    constructor (opens: map<InterfaceNode, seq<InterfaceNode>>, closes: map<InterfaceNode, seq<InterfaceNode>>,
                 ghost order: seq<InterfaceNode>, ghost plugins: set<Plugin>)
      requires Closed(opens) && Distinct(order) && Nodes(order) == opens.Keys
      requires forall n :: n in opens ==>
                 n in closes && Within(opens, closes[n]) && multiset(closes[n]) == multiset(opens[n])
      requires forall n :: n in opens ==> n.refcnt == 0 && n.lnk == null && n.HasTable([])
      requires forall n :: n in opens && n.plugin != null ==> n.plugin in plugins
      requires forall p :: p in plugins ==> p.refcnt == 0
      ensures Valid() && handles == [] && stale == map[]
      ensures this.opens == opens && this.closes == closes && this.plugins == plugins
    {
      this.opens, this.closes, this.order, this.plugins, stale := opens, closes, order, plugins, map[];
      openStack, closeStack, collectDependencies := null, null, false;
      handles := [];
      use := map n | n in opens :: Usage(0, false, []);
      new;
      forall p | p in plugins ensures UseCount(order, use, p) == 0 {
        UseCountZero(order, use, p);
      }
    }

    /**
      After nodes have been registered and removed: those in use are still there and open what they did, while what
      others open may have changed. Tables that do not list what their nodes now open stay as they are.
    */
    constructor Continue(was: InterfaceSystem, opens: map<InterfaceNode, seq<InterfaceNode>>,
                         closes: map<InterfaceNode, seq<InterfaceNode>>,
                         ghost order: seq<InterfaceNode>, ghost plugins: set<Plugin>)
      requires was.Evolves(opens) && Distinct(order) && Nodes(order) == opens.Keys
      requires forall n :: n in opens ==>
                 n in closes && Within(opens, closes[n]) && multiset(closes[n]) == multiset(opens[n])
      requires forall n :: n in opens && n.plugin != null ==> n.plugin in plugins
      requires forall p :: p in plugins && p !in was.plugins ==> p.refcnt == 0
      ensures Valid() && handles == was.handles
      ensures this.opens == opens && this.closes == closes && this.plugins == plugins
      ensures forall n :: n in stale <==> n in opens && n.deps != [] && !n.HasTable(opens[n])
    {
      this.opens, this.closes, this.order, this.plugins := opens, closes, order, plugins;
      openStack, closeStack, collectDependencies := null, null, false;
      handles := was.handles;
      use := Continued(was.use, opens);
      stale := StaleTables(was.use, opens);
      new;
      hide InterfaceSystem.Valid, Balanced, Continued, StaleTables, InterfaceNode.HasTable, UseCount;
      was.BalanceContinues(opens);
      was.NodesContinue(opens);
      was.PluginsContinue(opens, order, plugins);
      Assembled();
    }

    lemma Assembled()
      requires ReleaseMatches() && Balanced(opens, stale, use, handles)
      requires use.Keys == opens.Keys && Distinct(order) && Nodes(order) == opens.Keys
      requires openStack == null && closeStack == null && !collectDependencies
      requires forall n :: n in opens ==> n.refcnt == use[n].refcnt && n.lnk == null && n.HasTable(use[n].recorded)
      requires forall n :: n in opens && n.plugin != null ==> n.plugin in plugins
      requires forall p :: p in plugins ==> p.refcnt == UseCount(order, use, p)
      ensures Valid()
    {
      hide Balanced, InterfaceNode.HasTable, UseCount;
    }

    /** `h` tells what is opened after nodes have been registered and removed. */
    ghost predicate Evolves(h: map<InterfaceNode, seq<InterfaceNode>>)
      reads this, opens.Keys, plugins, h.Keys
    {
      && Valid() && Closed(h)
      && (forall n :: n in opens && 0 < n.refcnt ==> n in h && h[n] == opens[n])
      && forall n :: n in h && n !in opens ==> n.refcnt == 0 && n.lnk == null && n.HasTable([])
    }

    lemma BalanceContinues(h: map<InterfaceNode, seq<InterfaceNode>>)
      requires Evolves(h)
      ensures Balanced(h, StaleTables(use, h), Continued(use, h), handles)
    {
      ContinueBalances(opens, stale, use, handles, h);
    }

    lemma NodesContinue(h: map<InterfaceNode, seq<InterfaceNode>>)
      requires Evolves(h)
      ensures Continued(use, h).Keys == h.Keys
      ensures forall n :: n in h ==> n.refcnt == Continued(use, h)[n].refcnt && n.lnk == null
      ensures forall n :: n in h ==> n.HasTable(Continued(use, h)[n].recorded)
      ensures forall n :: n in StaleTables(use, h) <==> n in h && n.deps != [] && !n.HasTable(h[n])
    {
      hide PluginsOk, Balanced;
      forall n | n in h ensures n in StaleTables(use, h) <==> n.deps != [] && !n.HasTable(h[n]) {
        if n.HasTable(h[n]) && n in opens {
          n.TableIsUnique(h[n], use[n].recorded);
        }
      }
    }

    lemma PluginsContinue(h: map<InterfaceNode, seq<InterfaceNode>>, order': seq<InterfaceNode>, plugins': set<Plugin>)
      requires Evolves(h) && Distinct(order') && Nodes(order') == h.Keys
      requires forall p :: p in plugins' && p !in plugins ==> p.refcnt == 0
      ensures forall p :: p in plugins' ==> p.refcnt == UseCount(order', Continued(use, h), p)
    {
      hide Balanced;
      forall p | p in plugins' ensures p.refcnt == UseCount(order', Continued(use, h), p) {
        if p in plugins {
          UseCountKept(order, use, order', Continued(use, h), p);
        } else {
          UseCountNone(order', Continued(use, h), p);
        }
      }
    }

    /** With these handles outstanding, no node with a table from before is entered twice. */
    ghost predicate Spares(hs: seq<InterfaceNode>) {
      Closed(opens) && Within(opens, hs) && forall z :: z in stale && z in opens ==> VisitsAll(opens, {}, hs, z) <= 1
    }

    lemma SparesAll(hs: seq<InterfaceNode>)
      requires stale == map[] && Closed(opens) && Within(opens, hs)
      ensures Spares(hs)
    {
    }

    lemma SparesNext(n: InterfaceNode)
      requires Valid() && n in opens && Spares(handles + [n])
      ensures Single(opens, stale, {}, [n], use)
    {
      forall z | z in stale && z in opens ensures use[z].refcnt + VisitsAll(opens, {}, [n], z) <= 1 {
        VisitsAllConcat(opens, {}, handles, [n], z);
      }
    }

    /** Every counter is the number of simple dependency paths from the outstanding handles to its node. */
    method Open(n: InterfaceNode)
      requires Valid() && n in opens && Spares(handles + [n])
      modifies this`openStack, this`collectDependencies, this`use, this`handles, opens.Keys, plugins
      ensures Valid() && handles == old(handles) + [n]
    {
      hide Mirrored, LinksOk, ReleaseMatches, Balanced, Sound, Single;
      AtRest();
      SparesNext(n);
      OpenNode(n, []);
      handles := handles + [n];
      assert Nodes([]) == {};
      NodeFacts(n, []);
      OpenBalances(opens, stale, old(use), use, old(handles), n);
      NothingLinked(openStack);
    }

    /** Close any one of the outstanding handles. */
    method Close(n: InterfaceNode)
      requires Valid() && n in handles
      modifies this`closeStack, this`use, this`handles, opens.Keys, plugins
      ensures Valid() && multiset(handles) == multiset(old(handles)) - multiset{n}
      ensures use.Keys == old(use).Keys && forall k :: k in use ==> use[k].recorded == old(use)[k].recorded
    {
      hide Mirrored, LinksOk, ReleaseMatches, Balanced, Closing, Covered;
      ghost var i :| 0 <= i < |handles| && handles[i] == n;
      AtRest();
      HandleIsCovered(opens, stale, use, handles, i);
      CloseNode(n, []);
      CloseBalances(opens, stale, old(use), use, handles, i);
      RecordsKept(old(use), use, n);
      NothingLinked(closeStack);
      handles := Without(handles, i);
    }

    lemma RecordsKept(u: map<InterfaceNode, Usage<InterfaceNode>>, v: map<InterfaceNode, Usage<InterfaceNode>>,
                      n: InterfaceNode)
      requires Closed(opens) && u.Keys == v.Keys == opens.Keys && n in opens && ClosedSoFar(opens, {}, [n], 1, u, v)
      ensures forall k :: k in v ==> v[k].recorded == u[k].recorded
    {
    }

    /**
      A record of dependencies outlives the use: with an interface opened and closed, nothing is in use, so that all
      plugins can be unloaded, and yet its table leads to everything that it has opened.
    */
    method OpenAndClose(n: InterfaceNode)
      requires Valid() && handles == [] && n in opens && n !in stale && Spares([n])
      modifies this, opens.Keys, plugins
      ensures Valid() && handles == [] && n.HasTable(opens[n])
      ensures forall p :: p in plugins ==> p.refcnt == 0
    {
      hide Valid, InterfaceNode.HasTable, Spares;
      assert handles + [n] == [n];
      Open(n);
      InUseIsRecorded(n);
      Close(n);
      assert |multiset(handles)| == 0;
      TableHolds(n);
      AllClosed();
    }

    lemma InUseIsRecorded(n: InterfaceNode)
      requires Valid() && n in opens && n in handles && n !in stale
      ensures n in use && use[n].recorded == opens[n]
    {
      EnteredIsVisited(opens, {}, handles, n, n);
    }

    lemma TableHolds(n: InterfaceNode)
      requires Valid() && n in opens && n in use
      ensures n.HasTable(use[n].recorded)
    {
    }

    /**
      While an interface is in use, its table leads to interfaces in use only, and none of an unused plugin; unless
      the table is from before.
    */
    lemma TableIsInUse(n: InterfaceNode, i: nat)
      requires Valid() && n in opens && n !in stale && 0 < n.refcnt && i < |n.deps| && n.deps[i] != null
      ensures n.deps[i] in opens && 0 < n.deps[i].refcnt
      ensures forall p :: p in plugins && p.refcnt == 0 ==> n.deps[i].plugin != p
    {
      var d := n.deps[i];
      assert d == opens[n][i] && 0 < d.refcnt by { RecordedIsInUse(n, i); }
      forall p | p in plugins && p.refcnt == 0 ensures d.plugin != p {
        if d.plugin == p {
          UnusedPlugin(p, d);
        }
      }
    }

    /** A table that is not from before is absent, or lists what the interface opens. */
    lemma TableIsRecent(n: InterfaceNode)
      requires Valid() && n in opens
      ensures if n in stale then n.HasTable(stale[n]) && stale[n] != [] else n.HasTable([]) || n.HasTable(opens[n])
    {
      hide PluginsOk;
    }

    lemma RecordedIsInUse(n: InterfaceNode, i: nat)
      requires Valid() && n in opens && n !in stale && 0 < n.refcnt && i < |n.deps| && n.deps[i] != null
      ensures i < |opens[n]| && n.deps[i] == opens[n][i] && opens[n][i] in opens && 0 < opens[n][i].refcnt
    {
      hide PluginsOk;
      BalancedIsSound(opens, stale, use, handles);
      assert Settled(opens, stale, use, n);
    }

    /**
      Any run of opens and matched closes keeps the counters exact, if at no time the handles outstanding enter a node
      twice that has a table from before.
    */
    method Run(script: seq<Step>)
      requires Valid() && (forall i :: 0 <= i < |script| ==> script[i].node in opens)
      requires ClosesAreMatched(script, multiset(handles))
      requires forall k, hs ::
                 0 <= k <= |script| && Within(opens, hs) && multiset(hs) == Outstanding(script[..k], multiset(handles))
                 ==> Spares(hs)
      modifies this, opens.Keys, plugins
      ensures Valid() && multiset(handles) == Outstanding(script, multiset(old(handles)))
      ensures forall n :: n in opens ==> Within(opens, handles) && n.refcnt == SimplePathCount(opens, handles, n)
    {
      hide Valid, Outstanding, Spares;
      OutstandingStart(script, multiset(handles));
      for i := 0 to |script|
        invariant Valid() && multiset(handles) == Outstanding(script[..i], multiset(old(handles)))
      {
        OutstandingNext(script, i, multiset(old(handles)));
        assert Within(opens, handles) by { AtRest(); }
        RunSpares(script, i, multiset(old(handles)));
        match script[i]
        case OpenStep(n) => Open(n);
        case CloseStep(n) => Close(n);
      }
      assert script[..|script|] == script;
      AllCounted();
    }

    lemma RunSpares(script: seq<Step>, i: nat, held: multiset<InterfaceNode>)
      requires Within(opens, handles) && i < |script| && script[i].node in opens
      requires forall k, hs ::
                 0 <= k <= |script| && Within(opens, hs) && multiset(hs) == Outstanding(script[..k], held)
                 ==> Spares(hs)
      requires multiset(handles) == Outstanding(script[..i], held)
      ensures script[i].OpenStep? ==> Spares(handles + [script[i].node])
    {
      hide Spares, Outstanding;
      if script[i].OpenStep? {
        var hs := handles + [script[i].node];
        OutstandingNext(script, i, held);
        assert multiset(hs) == Outstanding(script[..i + 1], held);
      }
    }

    lemma AllCounted()
      requires Valid()
      ensures forall n :: n in opens ==> Within(opens, handles) && n.refcnt == SimplePathCount(opens, handles, n)
    {
      forall n | n in opens ensures Within(opens, handles) && n.refcnt == SimplePathCount(opens, handles, n) {
        RefcntCountsSimplePaths(n);
      }
    }

    lemma NothingLinked(top: InterfaceNode?)
      requires LinksOk(top, [])
      ensures top == null
    {
    }

    lemma AtRest()
      requires Valid()
      ensures OpenState([]) && CloseState([]) && NodesOk([]) && Nodes([]) == {}
      ensures Within(opens, handles) && forall n :: n in handles ==> n in opens
    {
      assert Nodes([]) == {};
      BalancedIsSound(opens, stale, use, handles);
    }

    /** The counter of a node is the number of simple paths that lead to it from the outstanding handles. */
    lemma RefcntCountsSimplePaths(n: InterfaceNode)
      requires Valid() && n in opens
      ensures Within(opens, handles) && n.refcnt == SimplePathCount(opens, handles, n)
    {
      VisitsAreSimplePaths(opens, handles, n);
    }

    /** With everything closed, nothing is counted and no plugin is in use. */
    lemma AllClosed()
      requires Valid() && handles == []
      ensures forall n :: n in opens ==> n.refcnt == 0
      ensures forall p :: p in plugins ==> p.refcnt == 0
    {
      forall p | p in plugins ensures p.refcnt == 0 {
        UseCountZero(order, use, p);
      }
    }

    /** A plugin without any interface in use is not in use. */
    lemma UnusedInterfaces(p: Plugin)
      requires Valid() && p in plugins && forall n :: n in opens && n.plugin == p ==> n.refcnt == 0
      ensures p.refcnt == 0
    {
      UseCountNone(order, use, p);
    }

    /** An unused plugin has no interface in use. */
    lemma UnusedPlugin(p: Plugin, n: InterfaceNode)
      requires Valid() && p in plugins && p.refcnt == 0 && n in opens && n.plugin == p
      ensures n.refcnt == 0
    {
      assert n in Nodes(order);
      UseCountOfMember(order, use, n, p);
    }
  }
}
