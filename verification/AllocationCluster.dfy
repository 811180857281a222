/**
  A pile of objects allocated from extents of fixed size and discarded all at once.
*/
module AllocationCluster {
  import opened AllocationLayout

  /** What the storage manager keeps in the header of an extent; zero stands for the null pointer. */
  datatype Extent = Extent(next: nat, dtors: seq<nat>)

  datatype Outcome = Allotted(loc: nat) | CapacityError | OutOfMemory

  /** What happens while a cluster is discarded. */
  datatype Event = Destroyed(frame: nat) | Freed(extent: nat)

  ghost function Bases(chain: seq<nat>): set<nat> {
    set b | b in chain
  }

  function After(chain: seq<nat>, i: nat): nat {
    if i + 1 < |chain| then chain[i + 1] else 0
  }

  /** `memory` holds the headers of the extents in `chain`, each linked to the next. */
  ghost predicate Chained(memory: map<nat, Extent>, chain: seq<nat>) {
    && memory.Keys == Bases(chain)
    && forall i :: 0 <= i < |chain| ==> memory[chain[i]].next == After(chain, i)
  }

  /** No more has been handed out than the full older extents and the used part of the current one. */
  ghost predicate SizeBounded(live: seq<Block>, extents: nat, rest: nat) {
    TotalSize(live) <= (extents - 1) * MAX_SIZE + (MAX_SIZE - rest)
  }

  /** Each destructor hangs on the extent that holds its frame, or on a newer one. */
  ghost predicate Hosted(memory: map<nat, Extent>, chain: seq<nat>) {
    chain == [] || (chain[0] in memory && Hosted(memory, chain[1..])
                    && forall d :: d in memory[chain[0]].dtors ==> Housed(chain, Block(d, 1, 1)))
  }

  /** All destructors in the order in which the extents hold them, newest extent first. */
  ghost function AllDtors(memory: map<nat, Extent>, chain: seq<nat>): seq<nat>
    requires forall i :: 0 <= i < |chain| ==> chain[i] in memory
  {
    if chain == [] then [] else memory[chain[0]].dtors + AllDtors(memory, chain[1..])
  }

  /** Extents other than those in `chain` do not matter. */
  lemma {:induction false} DtorsKept(memory: map<nat, Extent>, memory': map<nat, Extent>, chain: seq<nat>)
    requires forall i :: 0 <= i < |chain| ==>
               chain[i] in memory && chain[i] in memory' && memory'[chain[i]] == memory[chain[i]]
    ensures Hosted(memory', chain) == Hosted(memory, chain) && AllDtors(memory', chain) == AllDtors(memory, chain)
  {
    if chain != [] {
      DtorsKept(memory, memory', chain[1..]);
    }
  }

  ghost predicate Distinct(s: seq<nat>) {
    forall i, j :: 0 <= i < j < |s| ==> s[i] != s[j]
  }

  lemma PermutedDistinct(a: seq<nat>, b: seq<nat>)
    requires Distinct(a) && multiset(a) == multiset(b)
    ensures Distinct(b)
  {
    forall i, j | 0 <= i < j < |b| ensures b[i] != b[j] {
      if b[i] == b[j] {
        assert b == b[..i] + [b[i]] + b[i + 1..j] + [b[j]] + b[j + 1..];
        assert 2 <= multiset(b)[b[i]];
        OnceAtMost(a, b[i]);
      }
    }
  }

  lemma {:induction false} OnceAtMost(a: seq<nat>, x: nat)
    requires Distinct(a)
    ensures multiset(a)[x] <= 1
  {
    if a != [] {
      assert a == [a[0]] + a[1..];
      OnceAtMost(a[1..], x);
      if a[0] == x {
        assert x !in multiset(a[1..]) by {
          assert x !in a[1..];
        }
      }
    }
  }

  ghost function Destroying(dtors: seq<nat>): (log: seq<Event>)
    ensures |log| == |dtors| && forall i :: 0 <= i < |log| ==> log[i] == Destroyed(dtors[i])
  {
    if dtors == [] then [] else [Destroyed(dtors[0])] + Destroying(dtors[1..])
  }

  /** Discarding: newest extent first, each after the destructors that hang on it. */
  ghost function Teardown(memory: map<nat, Extent>, chain: seq<nat>): seq<Event>
    requires forall i :: 0 <= i < |chain| ==> chain[i] in memory
  {
    if chain == [] then []
    else Destroying(memory[chain[0]].dtors) + [Freed(chain[0])] + Teardown(memory, chain[1..])
  }

  ghost function FramesDestroyed(log: seq<Event>): seq<nat> {
    if log == [] then []
    else (if log[0].Destroyed? then [log[0].frame] else []) + FramesDestroyed(log[1..])
  }

  lemma FramesDestroyedStep(log: seq<Event>)
    ensures log == [] ==> FramesDestroyed(log) == []
    ensures log != [] && log[0].Destroyed? ==> FramesDestroyed(log) == [log[0].frame] + FramesDestroyed(log[1..])
    ensures log != [] && !log[0].Destroyed? ==> FramesDestroyed(log) == FramesDestroyed(log[1..])
  {
  }

  lemma {:induction false} FramesDestroyedConcat(a: seq<Event>, b: seq<Event>)
    ensures FramesDestroyed(a + b) == FramesDestroyed(a) + FramesDestroyed(b)
  {
    hide FramesDestroyed;
    FramesDestroyedStep(a);
    FramesDestroyedStep(a + b);
    if a == [] {
      assert a + b == b;
    } else {
      assert (a + b)[0] == a[0] && (a + b)[1..] == a[1..] + b;
      FramesDestroyedConcat(a[1..], b);
    }
  }

  lemma {:induction false} DestroyingDestroys(dtors: seq<nat>)
    ensures FramesDestroyed(Destroying(dtors)) == dtors
  {
    if dtors != [] {
      DestroyingDestroys(dtors[1..]);
    }
  }

  /** Every destructor is called exactly as often as it is registered. */
  lemma {:induction false} TeardownDestroysAll(memory: map<nat, Extent>, chain: seq<nat>)
    requires forall i :: 0 <= i < |chain| ==> chain[i] in memory
    ensures FramesDestroyed(Teardown(memory, chain)) == AllDtors(memory, chain)
  {
    if chain != [] {
      var d, rest := memory[chain[0]].dtors, Teardown(memory, chain[1..]);
      TeardownDestroysAll(memory, chain[1..]);
      DestroyingDestroys(d);
      FramesDestroyedConcat(Destroying(d), [Freed(chain[0])]);
      FramesDestroyedConcat(Destroying(d) + [Freed(chain[0])], rest);
    }
  }

  /** When a destructor is called, the extent that holds its frame has not been freed yet. */
  lemma {:induction false} TeardownIsSafe(memory: map<nat, Extent>, chain: seq<nat>, k: nat) returns (j: nat)
    requires Spread(chain) && Hosted(memory, chain) && forall i :: 0 <= i < |chain| ==> chain[i] in memory
    requires k < |Teardown(memory, chain)| && Teardown(memory, chain)[k].Destroyed?
    ensures j < |chain| && InStorage(chain[j], Block(Teardown(memory, chain)[k].frame, 1, 1))
    ensures Freed(chain[j]) !in Teardown(memory, chain)[..k]
    decreases chain
  {
    var first := Destroying(memory[chain[0]].dtors);
    var log, rest := Teardown(memory, chain), Teardown(memory, chain[1..]);
    if k < |first| {
      assert log[k] == first[k] && log[..k] == first[..k];
      assert Housed(chain, Block(log[k].frame, 1, 1));
      j :| 0 <= j < |chain| && InStorage(chain[j], Block(log[k].frame, 1, 1));
    } else {
      var k' := k - |first| - 1;
      assert log[|first|] == Freed(chain[0]) && log[k] == rest[k'];
      var j' := TeardownIsSafe(memory, chain[1..], k');
      j := j' + 1;
      assert log[..k] == first + [Freed(chain[0])] + rest[..k'];
    }
  }

  /** Blocks the heap may hand out next, in turn: apart from all those in use by then, aligned at sixteen. */
  ghost predicate Supply(blocks: seq<nat>, chain: seq<nat>) {
    blocks == [] || (blocks[0] % 16 == 0 && Spread([blocks[0]] + chain) && Supply(blocks[1..], [blocks[0]] + chain))
  }

  /**
    The blocks have been used in turn up to the first one that the request fits, or none of them. The place is the first
    one aligned, from the position on or in the new extent. The rest of the blocks is still there to be used.
  */
  ghost predicate FirstFit(loc: nat, bytes: nat, align: nat, blocks: seq<nat>, used: nat, pos: nat, chain: seq<nat>)
    requires 0 < align
  {
    && used <= |blocks| && Supply(blocks[used..], chain)
    && (forall i :: 0 <= i < used - 1 ==> !FitsFresh(blocks[i], bytes, align))
    && if used == 0 then loc == pos + Padding(pos, align)
       else
         && chain != [] && chain[0] == blocks[used - 1] && FitsFresh(chain[0], bytes, align)
         && loc == chain[0] + ADMIN_OVERHEAD + Padding(chain[0] + ADMIN_OVERHEAD, align)
  }

  lemma FirstFitNow(bytes: nat, align: nat, blocks: seq<nat>, pos: nat, chain: seq<nat>)
    requires 0 < align && Supply(blocks, chain)
    ensures FirstFit(pos + Padding(pos, align), bytes, align, blocks, 0, pos, chain)
  {
    assert blocks[0..] == blocks;
  }

  lemma FirstFitLeaves(loc: nat, bytes: nat, align: nat, blocks: seq<nat>, used: nat, pos: nat, chain: seq<nat>)
    requires 0 < align && FirstFit(loc, bytes, align, blocks, used, pos, chain)
    ensures used <= |blocks| && Supply(blocks[used..], chain)
    ensures used == 0 ==> loc == pos + Padding(pos, align)
  {
  }

  lemma FirstFitNext(loc: nat, bytes: nat, align: nat, blocks: seq<nat>, used: nat, pos: nat, chain: seq<nat>)
    requires 0 < align && blocks != [] && chain != []
    requires FirstFit(loc, bytes, align, blocks[1..], used, blocks[0] + ADMIN_OVERHEAD, chain)
    requires used == 0 ==> chain[0] == blocks[0]
    requires used == 0 <==> FitsFresh(blocks[0], bytes, align)
    ensures FirstFit(loc, bytes, align, blocks, used + 1, pos, chain)
  {
    assert blocks[1..][used..] == blocks[used + 1..];
    assert forall i :: 0 < i < |blocks| ==> blocks[i] == blocks[1..][i - 1];
  }

  lemma AlignIsPositive(align: nat)
    requires IsPow2(align)
    ensures 0 < align
  {
  }

  lemma SupplyNext(blocks: seq<nat>, chain: seq<nat>)
    requires Supply(blocks, chain)
    ensures blocks != [] ==> blocks[0] % 16 == 0 && Spread([blocks[0]] + chain)
    ensures blocks != [] ==> Supply(blocks[1..], [blocks[0]] + chain)
    ensures blocks[0..] == blocks
  {
  }

  /** An upper limit for the addresses in use, in units of extents. */
  ghost function Beyond(chain: seq<nat>): (m: nat)
    ensures 0 < m && forall i :: 0 <= i < |chain| ==> chain[i] + EXTENT_SIZ <= EXTENT_SIZ * m
  {
    if chain == [] then 1
    else
      var m := Beyond(chain[1..]);
      var k := chain[0] / EXTENT_SIZ + 2;
      if k <= m then m else k
  }

  /**
    For a request that a fresh extent may miss, the heap can hand out any number of blocks such that all of them do.
  */
  lemma {:induction false} FailingSupply(bytes: nat, align: nat, n: nat, m: nat, chain: seq<nat>)
    returns (blocks: seq<nat>)
    requires IsPow2(align) && align <= MAX_SIZE && bytes <= MAX_SIZE < bytes + WorstPadding(align)
    requires Spread(chain) && 0 < m && forall i :: 0 <= i < |chain| ==> chain[i] + EXTENT_SIZ <= EXTENT_SIZ * m
    ensures |blocks| == n && Supply(blocks, chain) && forall i :: 0 <= i < n ==> !FitsFresh(blocks[i], bytes, align)
    decreases n
  {
    hide Spread, Padding, WorstPadding, IsPow2;
    if n == 0 {
      blocks := [];
    } else {
      var b := EXTENT_SIZ * m;
      var used := [b] + chain;
      WorstAtExtent(m, align);
      SpreadBeyond(m, chain);
      assert forall i :: 0 <= i < |used| ==> used[i] + EXTENT_SIZ <= EXTENT_SIZ * (m + 1);
      var more := FailingSupply(bytes, align, n - 1, m + 1, used);
      blocks := [b] + more;
      assert blocks[1..] == more;
    }
  }

  lemma SpreadBeyond(m: nat, chain: seq<nat>)
    requires Spread(chain) && 0 < m && forall i :: 0 <= i < |chain| ==> chain[i] + EXTENT_SIZ <= EXTENT_SIZ * m
    ensures Spread([EXTENT_SIZ * m] + chain)
  {
    var used := [EXTENT_SIZ * m] + chain;
    assert forall i :: 0 < i < |used| ==> used[i] == chain[i - 1];
  }

  /** So there is no limit to the number of blocks that a request can use up in vain. */
  lemma NeverAllotted(bytes: nat, align: nat, n: nat, chain: seq<nat>)
    requires IsPow2(align) && align <= MAX_SIZE && bytes <= MAX_SIZE && Spread(chain)
    ensures bytes + WorstPadding(align) <= MAX_SIZE
        <==> !exists blocks :: |blocks| == n + 1 && Supply(blocks, chain) && AllMissed(blocks, bytes, align)
  {
    if bytes + WorstPadding(align) <= MAX_SIZE {
      FitsEveryExtent(bytes, align);
      forall blocks | |blocks| == n + 1 && Supply(blocks, chain) ensures !AllMissed(blocks, bytes, align) {
        assert FitsFresh(blocks[0], bytes, align);
      }
    } else {
      var blocks := FailingSupply(bytes, align, n + 1, Beyond(chain), chain);
      assert AllMissed(blocks, bytes, align);
    }
  }

  /** The request fits none of the blocks. */
  ghost predicate AllMissed(blocks: seq<nat>, bytes: nat, align: nat)
    requires 0 < align
  {
    forall i :: 0 <= i < |blocks| ==> !FitsFresh(blocks[i], bytes, align)
  }

  lemma SpreadIsFresh(b: nat, chain: seq<nat>)
    requires Spread([b] + chain)
    ensures 0 < b && b !in chain
  {
    var s := [b] + chain;
    assert s[0] == b && forall i :: 0 <= i < |chain| ==> s[i + 1] == chain[i];
  }

  lemma ChainedPrepend(memory: map<nat, Extent>, chain: seq<nat>, b: nat)
    requires Chained(memory, chain) && b !in chain
    ensures Chained(memory[b := Extent(if chain == [] then 0 else chain[0], [])], [b] + chain)
  {
    var s, m := [b] + chain, memory[b := Extent(if chain == [] then 0 else chain[0], [])];
    assert Bases(s) == Bases(chain) + {b};
    forall i | 0 <= i < |s| ensures m[s[i]].next == After(s, i) {
      if i > 0 {
        assert s[i] == chain[i - 1] && chain[i - 1] in chain && After(s, i) == After(chain, i - 1);
      }
    }
  }

  lemma FreshHosted(memory: map<nat, Extent>, chain: seq<nat>, b: nat)
    requires Chained(memory, chain) && b !in chain && Hosted(memory, chain)
    ensures var m := memory[b := Extent(if chain == [] then 0 else chain[0], [])];
            Hosted(m, [b] + chain) && AllDtors(m, [b] + chain) == AllDtors(memory, chain)
  {
    var m := memory[b := Extent(if chain == [] then 0 else chain[0], [])];
    assert ([b] + chain)[1..] == chain;
    DtorsKept(memory, m, chain);
  }

  /** Push a destructor onto the newest extent. */
  function Attached(memory: map<nat, Extent>, b: nat, d: nat): map<nat, Extent>
    requires b in memory
  {
    memory[b := memory[b].(dtors := [d] + memory[b].dtors)]
  }

  lemma SpreadIsDistinct(chain: seq<nat>, i: nat)
    requires Spread(chain) && 0 < i < |chain|
    ensures chain[i] != chain[0]
  {
  }

  lemma AttachedChained(memory: map<nat, Extent>, chain: seq<nat>, d: nat)
    requires Chained(memory, chain) && chain != []
    ensures chain[0] in memory && Chained(Attached(memory, chain[0], d), chain)
  {
    assert chain[0] in chain;
  }

  lemma AttachedHosted(memory: map<nat, Extent>, chain: seq<nat>, d: nat)
    requires Chained(memory, chain) && Spread(chain) && Hosted(memory, chain) && chain != [] && chain[0] in memory
    requires Housed(chain, Block(d, 1, 1))
    ensures Hosted(Attached(memory, chain[0], d), chain)
    ensures AllDtors(Attached(memory, chain[0], d), chain) == [d] + AllDtors(memory, chain)
  {
    hide Spread, Housed, Chained;
    AllInMemory(memory, chain);
    var m := Attached(memory, chain[0], d);
    forall i | 0 <= i < |chain[1..]| ensures m[chain[1..][i]] == memory[chain[1..][i]] {
      SpreadIsDistinct(chain, i + 1);
    }
    DtorsKept(memory, m, chain[1..]);
    assert m[chain[0]].dtors == [d] + memory[chain[0]].dtors;
  }

  /** The headers left after the first `k` extents of `chain` have been freed. */
  ghost function Left(memory: map<nat, Extent>, chain: seq<nat>, k: nat): map<nat, Extent>
    requires k <= |chain|
  {
    if k == 0 then memory else Left(memory, chain, k - 1) - {chain[k - 1]}
  }

  lemma {:induction false} LeftHas(memory: map<nat, Extent>, chain: seq<nat>, k: nat, b: nat)
    requires k <= |chain|
    ensures b in Left(memory, chain, k) <==> b in memory && b !in chain[..k]
    ensures b in Left(memory, chain, k) ==> Left(memory, chain, k)[b] == memory[b]
  {
    if k > 0 {
      LeftHas(memory, chain, k - 1, b);
      assert chain[..k] == chain[..k - 1] + [chain[k - 1]];
    }
  }

  lemma SpreadIsNew(chain: seq<nat>, k: nat)
    requires Spread(chain) && k < |chain|
    ensures chain[k] !in chain[..k] && chain[k] != 0
  {
  }

  lemma AfterIsNext(chain: seq<nat>, k: nat)
    ensures After(chain, k) == if k + 1 < |chain| then chain[k + 1] else 0
  {
  }

  lemma DiscardNext(memory: map<nat, Extent>, chain: seq<nat>, k: nat)
    requires Spread(chain) && Chained(memory, chain) && k < |chain|
    ensures chain[k] in Left(memory, chain, k) && Left(memory, chain, k)[chain[k]] == memory[chain[k]]
    ensures memory[chain[k]].next == After(chain, k) && chain[k] != 0
    ensures chain[k..][0] == chain[k] && chain[k..][1..] == chain[k + 1..]
  {
    SpreadIsNew(chain, k);
    hide Spread;
    LeftHas(memory, chain, k, chain[k]);
    assert chain[k] in chain;
  }

  lemma AllDiscarded(memory: map<nat, Extent>, chain: seq<nat>)
    requires Chained(memory, chain)
    ensures Left(memory, chain, |chain|) == map[]
  {
    assert chain[..|chain|] == chain;
    forall b | b in Left(memory, chain, |chain|) ensures false {
      LeftHas(memory, chain, |chain|, b);
    }
  }

  lemma TeardownNext(memory: map<nat, Extent>, chain: seq<nat>, k: nat, log: seq<Event>)
    requires k < |chain| && forall i :: 0 <= i < |chain| ==> chain[i] in memory
    ensures log + Teardown(memory, chain[k..])
            == log + Destroying(memory[chain[k]].dtors) + [Freed(chain[k])] + Teardown(memory, chain[k + 1..])
  {
    assert chain[k..][1..] == chain[k + 1..];
  }

  /** No extents are freed but those in the list. */
  lemma {:induction false} FreedAreExtents(memory: map<nat, Extent>, chain: seq<nat>, b: nat)
    requires b !in chain && forall i :: 0 <= i < |chain| ==> chain[i] in memory
    ensures Freed(b) !in Teardown(memory, chain)
  {
    if chain != [] {
      FreedAreExtents(memory, chain[1..], b);
    }
  }

  lemma TeardownEnd(memory: map<nat, Extent>, chain: seq<nat>)
    requires chain == []
    ensures Teardown(memory, chain) == []
  {
  }

  lemma PlacedSpread(chain: seq<nat>, pos: nat, live: seq<Block>)
    requires Placed(chain, pos, live)
    ensures Spread(chain)
  {
  }

  lemma AllInMemory(memory: map<nat, Extent>, chain: seq<nat>)
    requires Chained(memory, chain)
    ensures forall i :: 0 <= i < |chain| ==> chain[i] in memory
  {
    assert forall i :: 0 <= i < |chain| ==> chain[i] in chain;
  }

  /** The storage bucket of a container placed into the cluster: some fields and then the buffer. */
  class Bucket {
    const loc: nat
    const buffOffset: nat
    var buffSiz: nat

    constructor (loc: nat, buffOffset: nat, buffSiz: nat)
      ensures this.loc == loc && this.buffOffset == buffOffset && this.buffSiz == buffSiz
    {
      this.loc, this.buffOffset, this.buffSiz := loc, buffOffset, buffSiz;
    }

    function AllocSize(): nat
      reads this
    {
      buffOffset + buffSiz
    }
  }

  const SIZE_T: nat := 0x1_0000_0000_0000_0000

  /** The conversion of a size to a signed 32-bit number. */
  function ToInt(n: nat): int {
    if n % 0x1_0000_0000 < 0x8000_0000 then n % 0x1_0000_0000 else n % 0x1_0000_0000 - 0x1_0000_0000
  }

  lemma SmallToInt(n: nat)
    requires n < 0x8000_0000
    ensures ToInt(n) == n
  {
  }

  /** The comparison of sizes by signed numbers: it is right exactly for these new sizes. */
  lemma CheckIsExact(oldSiz: nat, newSiz: nat, rest: nat)
    requires oldSiz + rest < 0x8000_0000
    ensures (ToInt(newSiz) - ToInt(oldSiz) <= ToInt(rest) <==> newSiz - oldSiz <= rest)
       <==> newSiz <= oldSiz + rest || oldSiz + rest < newSiz % 0x1_0000_0000 < 0x8000_0000
  {
  }

  class AllocationCluster {
    var pos: nat
    var rest: nat
    /** the headers of all extents, by address */
    var memory: map<nat, Extent>

    /** the extents, newest first */
    ghost var chain: seq<nat>
    /** everything allotted so far */
    ghost var live: seq<Block>
    /** the frames whose destructor is to be called */
    ghost var registered: seq<nat>

    ghost predicate Valid()
      reads this
    {
      && Chained(memory, chain) && Placed(chain, pos, live)
      && Hosted(memory, chain) && multiset(AllDtors(memory, chain)) == multiset(registered) && Distinct(registered)
      && (pos == 0 <==> chain == [])
      && (chain == [] ==> rest == 0 && live == [])
      && (chain != [] ==> pos + rest == chain[0] + EXTENT_SIZ && rest <= MAX_SIZE && SizeBounded(live, |chain|, rest))
    }

    constructor ()
      ensures Valid() && chain == [] && live == [] && registered == []
    {
      pos, rest, memory := 0, 0, map[];
      chain, live, registered := [], [], [];
    }

    /** What has been used up of all extents: the older ones in full, the current one up to the reserve. */
    ghost function BytesUsed(): int
      reads this
    {
      |chain| * MAX_SIZE - rest
    }

    /** `std::align` within the reserve, and on success the step behind the new allocation. */
    method StorageAllot(bytes: nat, align: nat) returns (loc: nat)
      requires Valid() && 0 < align && 0 < bytes
      modifies this`pos, this`rest, this`live
      ensures Valid()
      ensures (loc != 0) == (Padding(old(pos), align) + bytes <= old(rest))
      ensures loc != 0 ==> live == old(live) + [Block(loc, bytes, align)] && loc == old(pos) + Padding(old(pos), align)
      ensures loc != 0 ==> chain != [] && pos == loc + bytes && pos + rest == old(pos + rest)
      ensures loc != 0 ==> BytesUsed() == old(BytesUsed()) + Padding(old(pos), align) + bytes
      ensures loc == 0 ==> live == old(live) && pos == old(pos) && rest == old(rest)
    {
      hide Placed, Chained, Padding, Hosted, AllDtors, TotalSize;
      var pad := Padding(pos, align);
      if rest < pad + bytes {
        return 0;
      }
      ghost var k := Block(pos + pad, bytes, align);
      PlaceBlock(chain, pos, live, k);
      loc := pos + pad;
      pos := loc + bytes;
      rest := rest - pad - bytes;
      TotalSizeAppend(live, k);
      live := live + [k];
    }

    /** The start of the current extent, from the position and the reserve alone. */
    function CurrentBlockStart(): int
      reads this
    {
      pos + rest - EXTENT_SIZ
    }

    /** Step back to the start of the current extent, where the list of extents is anchored. */
    method CloseCurrentBlock()
      requires Valid()
      modifies this`pos, this`rest
      ensures pos == (if chain == [] then 0 else chain[0]) && rest == 0
    {
      if pos != 0 {
        pos := pos + rest - EXTENT_SIZ;
        rest := 0;
      }
    }

    /** The heap has failed to provide a new extent when the current one has been closed. */
    method GiveUp()
      requires Valid()
      modifies this`pos, this`rest
      ensures if chain == [] then Valid() else Failed()
    {
      hide Placed, Hosted, AllDtors, Chained, Spread, SizeBounded;
      PlacedSpread(chain, pos, live);
      AllInMemory(memory, chain);
      CloseCurrentBlock();
    }

    /** Open a new extent at the address handed out by the heap. */
    method AddBlock(b: nat)
      requires Valid() && Spread([b] + chain)
      modifies this`pos, this`rest, this`memory, this`chain
      ensures Valid() && chain == [b] + old(chain)
      ensures pos == b + ADMIN_OVERHEAD && rest == MAX_SIZE && BytesUsed() == |old(chain)| * MAX_SIZE
    {
      hide Placed, Chained, Spread, Hosted, AllDtors;
      SpreadIsFresh(b, chain);
      FreshHosted(memory, chain, b);
      ChainedPrepend(memory, chain, b);
      PlaceExtent(chain, pos, live, b);
      assert ([b] + chain)[0] == b;
      CloseCurrentBlock();
      memory := memory[b := Extent(pos, [])];
      pos := b + ADMIN_OVERHEAD;
      rest := MAX_SIZE;
      chain := [b] + chain;
    }

    /** Enforce the limits, then allot from the current extent or else open new ones until the request fits. */
    method AllotMemory(bytes: nat, align: nat, blocks: seq<nat>) returns (r: Outcome, used: nat)
      requires Valid() && 0 < bytes && IsPow2(align) && Supply(blocks, chain)
      modifies this
      ensures used <= |blocks| && used <= |chain| && chain[used..] == old(chain)
      ensures r.CapacityError? <==> MAX_SIZE < bytes || MAX_SIZE < align
      ensures r.CapacityError? ==> Valid() && used == 0 && live == old(live) && pos == old(pos) && rest == old(rest)
      ensures r.Allotted? ==> Valid() && live == old(live) + [Block(r.loc, bytes, align)]
      ensures r.Allotted? ==> chain != [] && pos == r.loc + bytes
      ensures r.Allotted? ==> FirstFit(r.loc, bytes, align, blocks, used, old(pos), chain)
      ensures r.Allotted? && used == 0
         <==> bytes <= MAX_SIZE && align <= MAX_SIZE && Padding(old(pos), align) + bytes <= old(rest)
      ensures bytes + WorstPadding(align) <= MAX_SIZE && blocks != [] ==> r.Allotted? && used <= 1
      ensures r.OutOfMemory? ==> live == old(live) && registered == old(registered)
      ensures r.OutOfMemory? && chain == [] ==> Valid()
      ensures r.OutOfMemory? && chain != [] ==> Failed()
      ensures r.OutOfMemory? ==> used == |blocks| && AllMissed(blocks, bytes, align)
      decreases |blocks|
    {
      hide Valid, Failed, Padding, WorstPadding, Supply, BytesUsed, IsPow2, FirstFit;
      AlignIsPositive(align);
      SupplyNext(blocks, chain);
      if bytes + WorstPadding(align) <= MAX_SIZE && blocks != [] {
        EnoughRoom(blocks[0], bytes, align);
      }
      if MAX_SIZE < bytes || MAX_SIZE < align {
        return CapacityError, 0;
      }
      ghost var p := pos;
      var loc := StorageAllot(bytes, align);
      if loc != 0 {
        FirstFitNow(bytes, align, blocks, p, chain);
        return Allotted(loc), 0;
      }
      if blocks == [] {
        GiveUp();
        return OutOfMemory, 0;
      }
      AddBlock(blocks[0]);
      r, used := AllotMemory(bytes, align, blocks[1..]);
      assert chain[used..][0] == blocks[0] && chain[used..][1..] == chain[used + 1..];
      if r.Allotted? {
        FirstFitNext(r.loc, bytes, align, blocks, used, p, chain);
      }
      used := used + 1;
    }

    /** What was allotted last can be resized, up to the end of its extent exactly. */
    lemma LastIsAdjustable(loc: nat, bytes: nat, newSiz: nat)
      requires Valid() && chain != [] && pos == loc + bytes && bytes < 0x8000_0000 && newSiz < 0x8000_0000
      ensures CanAdjust(loc, bytes, newSiz) <==> loc + newSiz <= chain[0] + EXTENT_SIZ
    {
      CheckFits(loc, bytes, newSiz);
    }

    /** The second one of two requests comes right behind the first one, if it fits there with the padding it needs. */
    method AllotTwo(bytes: nat, align: nat, bytes2: nat, align2: nat, blocks: seq<nat>)
      returns (r: Outcome, r2: Outcome, used: nat, used2: nat, ghost extent: nat)
      requires Valid() && 0 < bytes <= MAX_SIZE && IsPow2(align) && align <= MAX_SIZE && Supply(blocks, chain)
      requires 0 < bytes2 <= MAX_SIZE && IsPow2(align2) && align2 <= MAX_SIZE
      modifies this
      ensures r.Allotted? ==> extent in chain && InStorage(extent, Block(r.loc, bytes, align))
      ensures r.Allotted? && r2.Allotted? ==>
                live == old(live) + [Block(r.loc, bytes, align)] + [Block(r2.loc, bytes2, align2)]
      ensures r.Allotted? ==>
                var next := r.loc + bytes + Padding(r.loc + bytes, align2);
                if next + bytes2 <= extent + EXTENT_SIZ then r2 == Allotted(next) && used2 == 0
                else r2.OutOfMemory? || 0 < used2
    {
      hide Padding, IsPow2, Supply, Chained, Placed, Hosted, AllDtors, SizeBounded;
      r, used := AllotMemory(bytes, align, blocks);
      r2, used2, extent := OutOfMemory, 0, 0;
      if r.Allotted? {
        extent := chain[0];
        AdjustableIsNewest(|live| - 1);
        FirstFitLeaves(r.loc, bytes, align, blocks, used, old(pos), chain);
        r2, used2 := AllotMemory(bytes2, align2, blocks[used..]);
        assert chain[used2..][0] == extent;
      }
    }

    lemma EnoughRoom(b: nat, bytes: nat, align: nat)
      requires b % 16 == 0 && 0 < bytes && IsPow2(align) && bytes + WorstPadding(align) <= MAX_SIZE
      ensures FitsFresh(b, bytes, align) && bytes <= MAX_SIZE && align <= MAX_SIZE
    {
      FitsEveryExtent(bytes, align);
      AlignmentFits(align);
    }

    /** The current extent is found again by pointer arithmetic. */
    lemma BlockStartIsNewestExtent()
      requires Valid() && chain != []
      ensures CurrentBlockStart() == chain[0]
    {
    }

    /** The state after the heap has failed, unless there was no extent: closed, and no extent opened. */
    ghost predicate Failed()
      reads this
    {
      && chain != [] && pos == chain[0] && rest == 0 && Chained(memory, chain) && Spread(chain)
      && forall i :: 0 <= i < |chain| ==> chain[i] in memory
    }

    /**
      To discard the cluster then goes wrong: the step back leads away from the newest extent once more. It ends below
      all that was allotted, or at best at the start of an older extent, from where the newest one is not reached.
    */
    lemma DiscardMissesNewest(j: nat)
      requires Failed() && j < |chain|
      ensures CurrentBlockStart() == chain[0] - EXTENT_SIZ
      ensures CurrentBlockStart() == chain[j] ==> Freed(chain[0]) !in Teardown(memory, chain[j..])
    {
      hide Chained, Spread, Teardown;
      if CurrentBlockStart() == chain[j] {
        forall i | 0 <= i < |chain[j..]| ensures chain[j..][i] != chain[0] {
          SpreadIsDistinct(chain, j + i);
        }
        FreedAreExtents(memory, chain[j..], chain[0]);
      }
    }

    predicate CanAdjust(loc: nat, oldSiz: nat, newSiz: nat)
      reads this
    {
      loc == pos - oldSiz && ToInt(newSiz) - ToInt(oldSiz) <= ToInt(rest)
    }

    lemma CheckFits(loc: nat, oldSiz: nat, newSiz: nat)
      requires Valid() && oldSiz < 0x8000_0000 && newSiz < 0x8000_0000
      ensures CanAdjust(loc, oldSiz, newSiz) <==> loc == pos - oldSiz && newSiz <= oldSiz + rest
    {
      hide ToInt;
      SmallToInt(oldSiz);
      SmallToInt(newSiz);
      SmallToInt(rest);
    }

    /** Change the size of the latest allocation; refused (by an exception) for any other, or without reserve. */
    method DoAdjust(loc: nat, oldSiz: nat, newSiz: nat, ghost i: nat) returns (done: bool)
      requires Valid() && i < |live| && live[i].loc == loc && live[i].size == oldSiz
      requires oldSiz < 0x8000_0000 && newSiz < 0x8000_0000
      modifies this`pos, this`rest, this`live
      ensures Valid() && done == old(CanAdjust(loc, oldSiz, newSiz))
      ensures done == old(loc == pos - oldSiz && newSiz <= oldSiz + rest)
      ensures done ==> live == old(live)[i := old(live)[i].(size := newSiz)] && CanAdjust(loc, newSiz, oldSiz)
      ensures !done ==> live == old(live) && pos == old(pos)
      ensures pos + rest == old(pos + rest) && (done ==> pos == loc + newSiz)
    {
      hide Placed, Chained, TotalSize, Hosted, AllDtors, ToInt;
      CheckFits(loc, oldSiz, newSiz);
      done := CanAdjust(loc, oldSiz, newSiz);
      if done {
        ResizeLast(chain, pos, live, i, newSiz);
        TotalSizeUpdate(live, i, live[i].(size := newSiz));
        AdjustableIsNewest(i);
        SmallToInt(oldSiz);
        SmallToInt(newSiz);
        var offset := ToInt(newSiz) - ToInt(oldSiz);
        pos := pos + offset;
        rest := rest - offset;
        live := live[i := live[i].(size := newSiz)];
        CheckFits(loc, newSiz, oldSiz);
      }
    }

    /** `pos` is null exactly without extents: an allocation that can be adjusted lies in the current extent. */
    lemma AdjustableIsNewest(i: nat)
      requires Valid() && i < |live| && live[i].loc == pos - live[i].size
      ensures chain != [] && InStorage(chain[0], live[i])
      ensures forall j :: 0 <= j < |live| && 0 < live[j].size && InStorage(chain[0], live[j])
                ==> live[j].loc + live[j].size <= live[i].loc + live[i].size
    {
      assert Housed(chain, live[i]);
      assert forall j :: 0 <= j < |live| ==> Below(chain, pos, live[j]);
    }

    /** Expand or shrink the buffer of a container in place; the difference is computed in wrapping arithmetic. */
    method ReallocInPlace(bucket: Bucket, request: nat, ghost i: nat) returns (done: bool)
      requires Valid() && i < |live| && live[i].loc == bucket.loc && live[i].size == bucket.AllocSize()
      requires bucket.AllocSize() < 0x8000_0000 && bucket.buffOffset + request < 0x8000_0000
      modifies this`pos, this`rest, this`live, bucket
      ensures Valid() && bucket.buffSiz == (if done then request else old(bucket.buffSiz))
      ensures done == old(bucket.loc == pos - bucket.AllocSize() && request <= bucket.buffSiz + rest)
      ensures live == if done then old(live)[i := old(live)[i].(size := bucket.AllocSize())] else old(live)
      ensures pos + rest == old(pos + rest) && pos == if done then bucket.loc + bucket.AllocSize() else old(pos)
    {
      hide Placed, Chained, SizeBounded, Hosted, AllDtors, ToInt;
      var currSize := bucket.AllocSize();
      CheckFits(bucket.loc, currSize, bucket.buffOffset + request);
      if !CanAdjust(bucket.loc, currSize, currSize + request - bucket.buffSiz) {
        return false;
      }
      var delta := if bucket.buffSiz <= request then request - bucket.buffSiz else SIZE_T + request - bucket.buffSiz;
      done := DoAdjust(bucket.loc, currSize, (currSize + delta) % SIZE_T, i);
      bucket.buffSiz := (bucket.buffSiz + delta) % SIZE_T;
    }

    // ---- diagnostics

    method NumExtents() returns (count: nat)
      requires Valid()
      ensures count == |chain|
    {
      count := 0;
      if pos == 0 {
        return;
      }
      var p := CurrentBlockStart() as nat;
      while p != 0
        invariant Valid() && count <= |chain|
        invariant p == if count < |chain| then chain[count] else 0
        decreases |chain| - count
      {
        assert p == chain[count] && memory[chain[count]].next == After(chain, count);
        p := memory[p].next;
        count := count + 1;
      }
    }

    /** What has been used up, which bounds everything handed out. */
    method NumBytes() returns (bytes: nat)
      requires Valid()
      ensures bytes == BytesUsed() && TotalSize(live) <= bytes <= |chain| * MAX_SIZE
    {
      assert chain == [] ==> TotalSize(live) == 0;
      hide Placed, Chained, TotalSize, Hosted, AllDtors;
      var extents := NumExtents();
      if extents == 0 {
        return 0;
      }
      bytes := (extents - 1) * MAX_SIZE + (MAX_SIZE - rest);
      WithinExtents(extents, rest);
    }

    lemma WithinExtents(n: nat, unused: nat)
      requires 0 < n && unused <= MAX_SIZE
      ensures (n - 1) * MAX_SIZE + (MAX_SIZE - unused) == n * MAX_SIZE - unused
    {
    }

    // ---- destructors

    /** Hang the destructor of a frame, allotted before, on what is the current extent by now; each frame once. */
    method RegisterDestructor(frame: Block)
      requires Valid() && frame in live && 0 < frame.size && frame.loc !in registered
      modifies this`memory, this`registered
      ensures Valid() && registered == [frame.loc] + old(registered)
      ensures chain != [] && chain[0] in old(memory) && memory == Attached(old(memory), chain[0], frame.loc)
    {
      hide SizeBounded, Hosted, AllDtors, Chained, Spread, Attached;
      BlockStartIsNewestExtent();
      FrameIsHoused(frame);
      AttachedChained(memory, chain, frame.loc);
      PlacedSpread(chain, pos, live);
      AttachedHosted(memory, chain, frame.loc);
      hide Placed, Housed;
      memory := Attached(memory, CurrentBlockStart() as nat, frame.loc);
      registered := [frame.loc] + registered;
    }

    lemma FrameIsHoused(frame: Block)
      requires Valid() && frame in live && 0 < frame.size
      ensures chain != [] && Housed(chain, Block(frame.loc, 1, 1))
    {
      assert Housed(chain, frame);
      var j :| 0 <= j < |chain| && InStorage(chain[j], frame);
      assert InStorage(chain[j], Block(frame.loc, 1, 1));
    }

    lemma EmptyIsValid()
      ensures Chained(map[], []) && Placed([], 0, []) && Hosted(map[], []) && AllDtors(map[], []) == []
    {
    }

    /** Invoke the destructors that hang on an extent, last registered first. */
    method DestroyObjects(dtors: seq<nat>, past: seq<Event>) returns (log: seq<Event>)
      ensures log == past + Destroying(dtors)
    {
      var head := dtors;
      log := past;
      while head != []
        invariant log + Destroying(head) == past + Destroying(dtors)
        decreases |head|
      {
        var elm := head[0];
        head := head[1..];
        log := log + [Destroyed(elm)];
      }
    }

    /** Clear the list of extents anchored at `pos`, from its head. */
    method ClearExtents(ghost mem: map<nat, Extent>, ghost all: seq<nat>) returns (log: seq<Event>)
      requires Spread(all) && Chained(mem, all) && memory == mem && pos == (if all == [] then 0 else all[0])
      requires forall i :: 0 <= i < |all| ==> all[i] in mem
      modifies this`pos, this`memory
      ensures pos == 0 && memory == map[] && log == Teardown(mem, all)
    {
      hide Spread, Chained, After, Teardown;
      AllDiscarded(mem, all);
      log := [];
      ghost var k := 0;
      assert all[0..] == all;
      while pos != 0
        invariant k <= |all| && pos == (if k < |all| then all[k] else 0)
        invariant memory == Left(mem, all, k)
        invariant log + Teardown(mem, all[k..]) == Teardown(mem, all)
        decreases |all| - k
      {
        DiscardNext(mem, all, k);
        AfterIsNext(all, k);
        TeardownNext(mem, all, k, log);
        var elm := pos;
        pos := memory[elm].next;
        log := DestroyObjects(memory[elm].dtors, log);
        log := log + [Freed(elm)];
        memory := memory - {elm};
        k := k + 1;
      }
      if k < |all| {
        DiscardNext(mem, all, k);
      }
      TeardownEnd(mem, all[k..]);
    }

    /** Destroy all registered objects and free all extents. */
    method DiscardAll() returns (log: seq<Event>)
      requires Valid()
      modifies this
      ensures forall i :: 0 <= i < |old(chain)| ==> old(chain)[i] in old(memory)
      ensures log == Teardown(old(memory), old(chain))
      ensures Valid() && pos == 0 && memory == map[] && registered == []
    {
      hide Placed, Hosted, AllDtors, SizeBounded, Spread, Chained, Teardown;
      PlacedSpread(chain, pos, live);
      AllInMemory(memory, chain);
      CloseCurrentBlock();
      log := ClearExtents(memory, chain);
      EmptyIsValid();
      chain, live, registered := [], [], [];
    }

    /**
      What is destroyed on discarding is exactly what was registered, and each frame while its extent is still there.
    */
    lemma DiscardIsComplete()
      requires Valid()
      ensures forall i :: 0 <= i < |chain| ==> chain[i] in memory
      ensures multiset(FramesDestroyed(Teardown(memory, chain))) == multiset(registered)
      ensures Distinct(FramesDestroyed(Teardown(memory, chain)))
    {
      hide Placed, Hosted, SizeBounded, Distinct;
      AllInMemory(memory, chain);
      TeardownDestroysAll(memory, chain);
      PermutedDistinct(registered, FramesDestroyed(Teardown(memory, chain)));
    }

    lemma DiscardIsSafe(k: nat) returns (extent: nat)
      requires Valid() && forall i :: 0 <= i < |chain| ==> chain[i] in memory
      requires k < |Teardown(memory, chain)| && Teardown(memory, chain)[k].Destroyed?
      ensures extent in chain && InStorage(extent, Block(Teardown(memory, chain)[k].frame, 1, 1))
      ensures Freed(extent) !in Teardown(memory, chain)[..k]
    {
      PlacedSpread(chain, pos, live);
      var j := TeardownIsSafe(memory, chain, k);
      extent := chain[j];
    }
  }
}
