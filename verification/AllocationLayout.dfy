/**
  The arithmetic behind AllocationCluster: where allocations lie within their extents.
  Addresses are numbers. An extent at address `b` holds two header pointers in
  `b .. b + 16` and storage in `b + 16 .. b + 256`.
*/
module AllocationLayout {

  const EXTENT_SIZ: nat := 256
  const ADMIN_OVERHEAD: nat := 16
  const MAX_SIZE: nat := EXTENT_SIZ - ADMIN_OVERHEAD

  datatype Block = Block(loc: nat, size: nat, align: nat)

  predicate IsPow2(n: nat) {
    n == 1 || (n > 1 && n % 2 == 0 && IsPow2(n / 2))
  }

  lemma MulAtLeast(d: nat, k: int)
    requires 1 <= k
    ensures d <= d * k
  {
    assert d * k == d + d * (k - 1);
  }

  /** Quotient and remainder are unique. */
  lemma DivModIs(a: nat, d: nat, q: int, r: nat)
    requires 0 < d && a == d * q + r && r < d
    ensures a / d == q && a % d == r
  {
    var q', r' := a / d, a % d;
    assert d * q' + r' == a;
    assert d * (q - q') == r' - r;
    assert d * (q' - q) == r - r';
    if q < q' {
      MulAtLeast(d, q' - q);
    } else if q' < q {
      MulAtLeast(d, q - q');
    }
  }

  /** Bytes to skip at `pos` to reach the next multiple of `align`. */
  function Padding(pos: nat, align: nat): (p: nat)
    requires 0 < align
    ensures p < align && (pos + p) % align == 0
  {
    var r := pos % align;
    if r == 0 then 0
    else DivModIs(pos + (align - r), align, pos / align + 1, 0); align - r
  }

  /** The first aligned position wins: no smaller padding would do. */
  lemma PaddingIsLeast(pos: nat, align: nat, p: nat)
    requires 0 < align && (pos + p) % align == 0
    ensures Padding(pos, align) <= p
  {
    if p < Padding(pos, align) {
      DivModIs(pos + p, align, pos / align, pos % align + p);
    }
  }

  /** Whether a request can be placed into a fresh extent at `b`. */
  predicate FitsFresh(b: nat, bytes: nat, align: nat)
    requires 0 < align
  {
    Padding(b + ADMIN_OVERHEAD, align) + bytes <= MAX_SIZE
  }

  /** An alignment is either a divisor or a multiple of sixteen. */
  lemma {:induction false} Pow2AndSixteen(n: nat)
    requires IsPow2(n)
    ensures n == 1 || n == 2 || n == 4 || n == 8 || n % 16 == 0
  {
    if n > 1 {
      var m := n / 2;
      assert n == 2 * m;
      Pow2AndSixteen(m);
      if m % 16 == 0 {
        assert n == 16 * (2 * (m / 16));
      }
    }
  }

  /** Alignments up to sixteen cost nothing at the start of an extent's storage. */
  lemma SmallAlignmentIsFree(b: nat, align: nat)
    requires b % 16 == 0 && IsPow2(align) && align <= 16
    ensures Padding(b + ADMIN_OVERHEAD, align) == 0
  {
    Pow2AndSixteen(align);
    var k := (b + ADMIN_OVERHEAD) / 16;
    assert b + ADMIN_OVERHEAD == 16 * k;
    DivModIs(b + ADMIN_OVERHEAD, align, (16 / align) * k, 0);
  }

  /** What is always wasted at most on aligning a fresh extent whose address is a multiple of sixteen. */
  function WorstPadding(align: nat): nat {
    if align <= 16 then 0 else align - 16
  }

  /**
    The request limits admit requests that no fresh extent can hold: 240 bytes aligned at 128,
    for an extent at any multiple of 128.
  */
  lemma LimitsDoNotSuffice(k: nat)
    ensures 240 <= MAX_SIZE && 128 <= MAX_SIZE && IsPow2(128)
    ensures !FitsFresh(128 * k, 240, 128)
  {
    assert IsPow2(128) by { assert IsPow2(32) by { assert IsPow2(8); } }
    DivModIs(128 * k + ADMIN_OVERHEAD, 128, k, 16);
  }

  /** A request fits every fresh extent exactly if it leaves room for the worst padding. */
  lemma FitsEveryExtent(bytes: nat, align: nat)
    requires IsPow2(align)
    ensures (forall b: nat :: b % 16 == 0 ==> FitsFresh(b, bytes, align)) <==> bytes + WorstPadding(align) <= MAX_SIZE
  {
    if align <= 16 {
      forall b: nat | b % 16 == 0 ensures Padding(b + ADMIN_OVERHEAD, align) == 0 {
        SmallAlignmentIsFree(b, align);
      }
      if forall b: nat :: b % 16 == 0 ==> FitsFresh(b, bytes, align) {
        assert FitsFresh(16, bytes, align);
      }
    } else {
      Pow2AndSixteen(align);
      forall b: nat | b % 16 == 0 ensures Padding(b + ADMIN_OVERHEAD, align) <= align - 16 {
        PaddingInSixteens(b + ADMIN_OVERHEAD, align);
      }
      // an extent right at a multiple of the alignment needs the worst padding
      DivModIs(align + 16, align, 1, 16);
      assert Padding(align + ADMIN_OVERHEAD, align) == align - 16;
      if forall b: nat :: b % 16 == 0 ==> FitsFresh(b, bytes, align) {
        assert FitsFresh(align, bytes, align);
      }
    }
  }

  /** At the start of the storage of any extent at a multiple of 256, the padding is the worst. */
  lemma WorstAtExtent(m: nat, align: nat)
    requires IsPow2(align) && align <= MAX_SIZE
    ensures WorstPadding(align) == Padding(EXTENT_SIZ * m + ADMIN_OVERHEAD, align)
  {
    SmallPow2(align);
    if align <= 16 {
      SmallAlignmentIsFree(EXTENT_SIZ * m, align);
    } else {
      DivModIs(EXTENT_SIZ * m + ADMIN_OVERHEAD, align, EXTENT_SIZ / align * m, 16);
    }
  }

  lemma SmallPow2(n: nat)
    requires IsPow2(n) && n < 256
    ensures n in {1, 2, 4, 8, 16, 32, 64, 128}
  {
    Pow2AndSixteen(n);
    if 16 < n {
      var h := n / 2;
      assert IsPow2(h) && IsPow2(h / 2) && IsPow2(h / 2 / 2);
      Pow2AndSixteen(h);
      Pow2AndSixteen(h / 2);
      Pow2AndSixteen(h / 2 / 2);
    }
  }

  /** An alignment whose worst padding leaves any room is within the limits. */
  lemma AlignmentFits(align: nat)
    requires IsPow2(align)
    ensures WorstPadding(align) < MAX_SIZE ==> align <= MAX_SIZE
  {
    if align < 256 {
      SmallPow2(align);
    }
  }

  lemma PaddingInSixteens(pos: nat, align: nat)
    requires 0 < align && pos % 16 == 0 && align % 16 == 0
    ensures Padding(pos, align) <= align - 16
  {
    var p := Padding(pos, align);
    var q, a := (pos + p) / align, align / 16;
    assert pos + p == align * q;
    SixteenTimes(a, q, align);
    MultiplesApart(p, align, pos / 16, a * q, a);
  }

  lemma SixteenTimes(a: nat, q: nat, align: nat)
    requires align == 16 * a
    ensures align * q == 16 * (a * q)
  {
  }

  lemma MultiplesApart(p: nat, align: nat, k: nat, m: nat, a: nat)
    requires 16 * k + p == 16 * m && align == 16 * a && p < align
    ensures p <= align - 16
  {
  }

  // ---- placement of all live allocations

  /** Extents do not overlap. */
  ghost predicate Spread(chain: seq<nat>) {
    && (forall i :: 0 <= i < |chain| ==> 0 < chain[i])
    && forall i, j :: 0 <= i < j < |chain| ==> chain[i] + EXTENT_SIZ <= chain[j] || chain[j] + EXTENT_SIZ <= chain[i]
  }

  /** Inside the storage area of the extent at `b`, clear of its header. */
  predicate InStorage(b: nat, k: Block) {
    b + ADMIN_OVERHEAD <= k.loc && k.loc + k.size <= b + EXTENT_SIZ
  }

  ghost predicate Housed(chain: seq<nat>, k: Block) {
    exists j :: 0 <= j < |chain| && InStorage(chain[j], k)
  }

  predicate Overlap(k: Block, l: Block) {
    0 < k.size && 0 < l.size && k.loc < l.loc + l.size && l.loc < k.loc + k.size
  }

  ghost predicate Disjoint(live: seq<Block>) {
    forall i, j :: 0 <= i < j < |live| ==> !Overlap(live[i], live[j])
  }

  ghost predicate Aligned(k: Block) {
    0 < k.align && k.loc % k.align == 0
  }

  ghost predicate Below(chain: seq<nat>, pos: nat, k: Block) {
    chain != [] && InStorage(chain[0], k) && 0 < k.size ==> k.loc + k.size <= pos
  }

  /** All live allocations are disjoint, aligned and housed, and those of the current extent lie below `pos`. */
  ghost predicate Placed(chain: seq<nat>, pos: nat, live: seq<Block>) {
    && Spread(chain) && Disjoint(live)
    && (forall i :: 0 <= i < |live| ==> Aligned(live[i]) && Housed(chain, live[i]))
    && (forall i :: 0 <= i < |live| ==> Below(chain, pos, live[i]))
  }

  ghost function TotalSize(live: seq<Block>): nat {
    if live == [] then 0 else TotalSize(live[..|live| - 1]) + live[|live| - 1].size
  }

  lemma TotalSizeAppend(live: seq<Block>, k: Block)
    ensures TotalSize(live + [k]) == TotalSize(live) + k.size
  {
    assert (live + [k])[..|live|] == live;
  }

  lemma {:induction false} TotalSizeUpdate(live: seq<Block>, i: nat, k: Block)
    requires i < |live|
    ensures TotalSize(live[i := k]) == TotalSize(live) - live[i].size + k.size
    decreases |live|
  {
    var n := |live| - 1;
    if i < n {
      TotalSizeUpdate(live[..n], i, k);
      assert live[i := k][..n] == live[..n][i := k];
    } else {
      assert live[i := k][..n] == live[..n];
    }
  }

  /** Blocks of different extents are apart. */
  lemma HousedApart(chain: seq<nat>, j: nat, k: Block, l: Block)
    requires Spread(chain) && 0 < j < |chain| && InStorage(chain[j], k) && InStorage(chain[0], l)
    ensures !Overlap(k, l)
  {
  }

  lemma PlaceBlock(chain: seq<nat>, pos: nat, live: seq<Block>, k: Block)
    requires Placed(chain, pos, live) && chain != [] && Aligned(k)
    requires InStorage(chain[0], k) && pos <= k.loc
    ensures Placed(chain, k.loc + k.size, live + [k])
  {
    assert Housed(chain, k);
    forall i | 0 <= i < |live| ensures !Overlap(live[i], k) {
      var j :| 0 <= j < |chain| && InStorage(chain[j], live[i]);
      if j > 0 {
        HousedApart(chain, j, live[i], k);
      }
    }
  }

  lemma PlaceExtent(chain: seq<nat>, pos: nat, live: seq<Block>, b: nat)
    requires Placed(chain, pos, live) && Spread([b] + chain)
    ensures Placed([b] + chain, b + ADMIN_OVERHEAD, live)
  {
    forall i | 0 <= i < |live|
      ensures Housed([b] + chain, live[i])
      ensures Below([b] + chain, b + ADMIN_OVERHEAD, live[i])
    {
      assert Housed(chain, live[i]);
      var j :| 0 <= j < |chain| && InStorage(chain[j], live[i]);
      assert ([b] + chain)[0] == b;
      assert ([b] + chain)[j + 1] == chain[j];
    }
  }

  /** The last allocation of the current extent may grow into the reserve, or shrink. */
  lemma ResizeLast(chain: seq<nat>, pos: nat, live: seq<Block>, i: nat, size: nat)
    requires Placed(chain, pos, live) && chain != [] && i < |live|
    requires chain[0] + ADMIN_OVERHEAD <= pos <= chain[0] + EXTENT_SIZ
    requires live[i].loc + live[i].size == pos && live[i].loc + size <= chain[0] + EXTENT_SIZ
    ensures Placed(chain, live[i].loc + size, live[i := live[i].(size := size)])
  {
    var k := live[i].(size := size);
    var j :| 0 <= j < |chain| && InStorage(chain[j], live[i]);
    assert j == 0;
    assert Housed(chain, k);
    forall l | 0 <= l < |live| && l != i
      ensures !Overlap(live[l], k) && !Overlap(k, live[l])
      ensures Below(chain, k.loc + size, live[l])
    {
      var h :| 0 <= h < |chain| && InStorage(chain[h], live[l]);
      if h > 0 {
        HousedApart(chain, h, live[l], k);
      }
      assert !Overlap(live[l], live[i]) && !Overlap(live[i], live[l]);
    }
  }
}
