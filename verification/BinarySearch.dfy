/**
  Searching the breaking point of a probe over the reals, with a search domain that is shifted and expanded when the
  probe does not behave as expected at its ends.
*/
module BinarySearch {

  ghost predicate Monotone(f: real -> bool) {
    forall x, y :: x <= y && f(x) ==> f(y)
  }

  /** The probe fails below `t` and succeeds above. */
  ghost predicate IsThreshold(f: real -> bool, t: real) {
    && (forall x :: x < t ==> !f(x))
    && (forall x :: x > t ==> f(x))
  }

  ghost predicate Around(f: real -> bool, r: real, d: real) {
    d > 0.0 && !f(r - d) && f(r + d)
  }

  /** The probe changes from failure to success around `r`, closer than half of `epsilon` to both sides. */
  ghost predicate Breaks(f: real -> bool, r: real, epsilon: real) {
    exists d :: Around(f, r, d) && d < epsilon / 2.0
  }

  /** A breaking point of a probe with a threshold is close to the threshold. */
  lemma BreaksNearThreshold(f: real -> bool, r: real, epsilon: real, t: real)
    requires Breaks(f, r, epsilon) && IsThreshold(f, t)
    ensures r - epsilon / 2.0 < t < r + epsilon / 2.0
  {
  }

  /** A lower and an upper bound. */
  datatype Domain = Domain(lower: real, upper: real) {
    function Len(): real { upper - lower }

    /** Search above: the old upper bound gets close to the lower end. */
    function Up(): Domain {
      var l := upper - Len() / 10.0;
      Domain(l, l + 14.0 * Len() / 10.0)
    }

    /** Search below: the old lower bound gets close to the upper end. */
    function Down(): Domain {
      var u := lower + Len() / 10.0;
      Domain(u - 14.0 * Len() / 10.0, u)
    }

    function UpBy(n: nat): Domain {
      if n == 0 then this else UpBy(n - 1).Up()
    }

    function DownBy(n: nat): Domain {
      if n == 0 then this else DownBy(n - 1).Down()
    }
  }

  function Power2(n: nat): (r: real)
    ensures r >= 1.0
  {
    if n == 0 then 1.0 else 2.0 * Power2(n - 1)
  }

  lemma Distribute(n: nat, len: real)
    ensures (n + 1) as real * len == n as real * len + len
  {
    assert (n + 1) as real == n as real + 1.0;
  }

  /**
    A shift expands the domain to seven fifths of its length. The old end is still located within, a fourteenth of the
    way from the new lower to the new upper end, or in the other direction when going down.
  */
  lemma ShiftsOverlap(d: Domain)
    ensures d.Up().Len() == d.Down().Len() == 7.0 * d.Len() / 5.0
    ensures d.upper == d.Up().lower + d.Up().Len() / 14.0
    ensures d.lower == d.Down().upper - d.Down().Len() / 14.0
  {
  }

  /** The domain keeps its length at least, and moves on by more than that with each shift. */
  lemma {:induction false} UpMoves(d: Domain, n: nat)
    requires d.lower <= d.upper
    ensures d.UpBy(n).Len() >= d.Len() && d.UpBy(n).upper >= d.upper + n as real * d.Len()
    ensures n > 0 ==> d.UpBy(n).lower <= d.UpBy(n - 1).upper
  {
    if n > 0 {
      UpMoves(d, n - 1);
      Distribute(n - 1, d.Len());
    }
  }

  lemma {:induction false} DownMoves(d: Domain, n: nat)
    requires d.lower <= d.upper
    ensures d.DownBy(n).Len() >= d.Len() && d.DownBy(n).lower <= d.lower - n as real * d.Len()
    ensures n > 0 ==> d.DownBy(n).upper >= d.DownBy(n - 1).lower
  {
    if n > 0 {
      DownMoves(d, n - 1);
      Distribute(n - 1, d.Len());
    }
  }

  /** With steps of a positive length every distance is covered at some time. */
  lemma Covered(distance: real, len: real) returns (n: nat)
    requires len > 0.0
    ensures n as real * len >= distance
  {
    if distance <= 0.0 {
      n := 0;
    } else {
      var q := distance / len;
      n := q.Floor + 1;
      assert n as real >= q;
      assert q * len == distance;
      Scale(q, n as real, len);
    }
  }

  lemma Scale(a: real, b: real, len: real)
    requires a <= b && len > 0.0
    ensures a * len <= b * len
  {
    assert (b - a) * len >= 0.0;
  }

  /** Some number of shifts takes the upper end beyond any point. */
  lemma UpReaches(d: Domain, w: real) returns (n: nat)
    requires d.lower < d.upper
    ensures d.UpBy(n).upper >= w
  {
    n := Covered(w - d.upper, d.Len());
    UpMoves(d, n);
  }

  lemma DownReaches(d: Domain, w: real) returns (n: nat)
    requires d.lower < d.upper
    ensures d.DownBy(n).lower <= w
  {
    n := Covered(d.lower - w, d.Len());
    DownMoves(d, n);
  }

  /** A domain without extension stays where it is. */
  lemma {:induction false} EmptyStays(d: Domain, n: nat)
    requires d.lower == d.upper
    ensures d.UpBy(n) == d && d.DownBy(n) == d
  {
    if n > 0 {
      EmptyStays(d, n - 1);
    }
  }

  ghost predicate UpEnds(f: real -> bool, d: Domain) {
    exists n: nat :: f(d.UpBy(n).upper)
  }

  /** The shift downwards ends with the first lower bound where the probe fails. */
  ghost predicate DownEndsAt(f: real -> bool, d: Domain, n: nat) {
    !f(d.DownBy(n).lower) && forall k: nat :: k < n ==> f(d.DownBy(k).lower)
  }

  /** The shift upwards ends with the first upper bound where the probe succeeds. */
  ghost predicate UpEndsAt(f: real -> bool, d: Domain, n: nat) {
    f(d.UpBy(n).upper) && forall k: nat :: k < n ==> !f(d.UpBy(k).upper)
  }

  /** Some number of halvings gets below `epsilon`. */
  ghost predicate HalvingEnds(len: real, epsilon: real) {
    exists n: nat :: len < Power2(n) * epsilon
  }

  /** The search gets beyond both loops that shift the domain, and then the halving ends. */
  ghost predicate SearchEnds(f: real -> bool, d: Domain, epsilon: real) {
    exists n: nat, m: nat ::
      DownEndsAt(f, d, n) && UpEndsAt(f, d.DownBy(n), m) && HalvingEnds(d.DownBy(n).UpBy(m).Len(), epsilon)
  }

  /**
    Shifting upwards ends exactly if there is nothing to do, or the domain extends and the probe succeeds somewhere.
  */
  lemma UpEndsExactly(f: real -> bool, d: Domain)
    requires Monotone(f) && d.lower <= d.upper
    ensures UpEnds(f, d) <==> f(d.upper) || (d.lower < d.upper && exists x :: f(x))
  {
    if f(d.upper) {
      assert f(d.UpBy(0).upper);
    } else if d.lower < d.upper && exists x :: f(x) {
      var x :| f(x);
      var n := UpReaches(d, x);
      assert f(d.UpBy(n).upper);
    }
    if UpEnds(f, d) && d.lower == d.upper {
      var n: nat :| f(d.UpBy(n).upper);
      EmptyStays(d, n);
    }
  }

  lemma {:induction false} FirstFailure(f: real -> bool, d: Domain, n: nat) returns (k: nat)
    requires !f(d.DownBy(n).lower)
    ensures k <= n && DownEndsAt(f, d, k)
  {
    if j: nat :| j < n && !f(d.DownBy(j).lower) {
      k := FirstFailure(f, d, j);
    } else {
      k := n;
    }
  }

  lemma {:induction false} FirstSuccess(f: real -> bool, d: Domain, n: nat) returns (k: nat)
    requires f(d.UpBy(n).upper)
    ensures k <= n && UpEndsAt(f, d, k)
  {
    if j: nat :| j < n && f(d.UpBy(j).upper) {
      k := FirstSuccess(f, d, j);
    } else {
      k := n;
    }
  }

  /** A domain that extends gets below `epsilon` exactly if that is positive. */
  lemma HalvingEndsExactly(len: real, epsilon: real)
    requires 0.0 < len
    ensures HalvingEnds(len, epsilon) <==> 0.0 < epsilon
  {
    if 0.0 < epsilon {
      var n := HalvingsFor(len, epsilon);
    } else {
      forall n: nat ensures !(len < Power2(n) * epsilon) {
        Scaled(Power2(n), epsilon, 0.0);
      }
    }
  }

  /**
    The whole search ends exactly if the domain extends, the probe fails somewhere and succeeds somewhere, and `epsilon`
    is positive. In particular, it never ends for `lower == upper`, which the stated requirements admit.
  */
  lemma SearchEndsExactly(f: real -> bool, d: Domain, epsilon: real)
    requires Monotone(f) && d.lower <= d.upper
    ensures SearchEnds(f, d, epsilon)
       <==> d.lower < d.upper && (exists x :: f(x)) && (exists x :: !f(x)) && 0.0 < epsilon
  {
    if d.lower < d.upper && (exists x :: f(x)) && (exists x :: !f(x)) && 0.0 < epsilon {
      var x :| !f(x);
      var n := DownReaches(d, x);
      var k := FirstFailure(f, d, n);
      DownMoves(d, k);
      var y :| f(y);
      var u := UpReaches(d.DownBy(k), y);
      var m := FirstSuccess(f, d.DownBy(k), u);
      UpMoves(d.DownBy(k), m);
      HalvingEndsExactly(d.DownBy(k).UpBy(m).Len(), epsilon);
      assert DownEndsAt(f, d, k) && UpEndsAt(f, d.DownBy(k), m);
    }
    if SearchEnds(f, d, epsilon) {
      var n: nat, m: nat :|
        DownEndsAt(f, d, n) && UpEndsAt(f, d.DownBy(n), m) && HalvingEnds(d.DownBy(n).UpBy(m).Len(), epsilon);
      EndsOnlyIf(f, d, epsilon, n, m);
    }
  }

  lemma EndsOnlyIf(f: real -> bool, d: Domain, epsilon: real, n: nat, m: nat)
    requires Monotone(f) && d.lower <= d.upper
    requires DownEndsAt(f, d, n) && UpEndsAt(f, d.DownBy(n), m) && HalvingEnds(d.DownBy(n).UpBy(m).Len(), epsilon)
    ensures d.lower < d.upper && (exists x :: f(x)) && (exists x :: !f(x)) && 0.0 < epsilon
  {
    hide HalvingEnds;
    DownMoves(d, n);
    assert UpEnds(f, d.DownBy(n));
    UpEndsExactly(f, d.DownBy(n));
    assert f(d.DownBy(n).UpBy(m).upper);
    if d.lower == d.upper {
      EmptyStays(d, n);
    } else {
      UpMoves(d.DownBy(n), m);
      HalvingEndsExactly(d.DownBy(n).UpBy(m).Len(), epsilon);
    }
  }

  /** After `n` halvings of `len` the remainder is `width`, and all of them were necessary to get below `epsilon`. */
  ghost predicate Halved(len: real, epsilon: real, n: nat, width: real) {
    && Power2(n) * width == len
    && (n > 0 ==> Power2(n - 1) * epsilon <= len)
  }

  /** The least number of halvings that brings `len` below `epsilon`. */
  ghost predicate Halvings(len: real, epsilon: real, n: nat) {
    && len < Power2(n) * epsilon
    && (n > 0 ==> Power2(n - 1) * epsilon <= len)
  }

  lemma HalvedOnce(power: real, part: real)
    ensures (2.0 * power) * (part / 2.0) == power * part
  {
  }

  lemma NotYetHalved(len: real, epsilon: real)
    ensures Halved(len, epsilon, 0, len)
  {
  }

  lemma HalvedMore(len: real, epsilon: real, n: nat, width: real, total: nat)
    requires Halved(len, epsilon, n, width) && 0.0 < epsilon <= width && len < Power2(total) * epsilon
    ensures Halved(len, epsilon, n + 1, width / 2.0) && n < total
  {
    HalvedOnce(Power2(n), width);
    Scaled(Power2(n), epsilon, width);
    StillHalving(len, epsilon, n, total);
  }

  lemma HalvedEnough(len: real, epsilon: real, n: nat, width: real)
    requires Halved(len, epsilon, n, width) && width < epsilon
    ensures Halvings(len, epsilon, n)
  {
    ScaledLess(Power2(n), width, epsilon);
  }

  /** The actual search loop, for any probe that fails at the lower and succeeds at the upper end. */
  method Inner(f: real -> bool, lower: real, upper: real, epsilon: real) returns (r: real, ghost halvings: nat)
    requires lower <= upper && epsilon > 0.0 && !f(lower) && f(upper)
    ensures lower < r < upper && Breaks(f, r, epsilon)
    ensures Halvings(upper - lower, epsilon, halvings)
  {
    hide Halved, Power2, Halvings;
    NotYetHalved(upper - lower, epsilon);
    var lo, hi := lower, upper;
    halvings := 0;
    ghost var total := HalvingsFor(upper - lower, epsilon);
    while hi - lo >= epsilon
      invariant lower <= lo < hi <= upper && !f(lo) && f(hi)
      invariant Halved(upper - lower, epsilon, halvings, hi - lo) && halvings <= total
      decreases total - halvings
    {
      HalvedMore(upper - lower, epsilon, halvings, hi - lo, total);
      ghost var width := hi - lo;
      var div := (lo + hi) / 2.0;
      var hit := f(div);
      if hit {
        hi := div;
      } else {
        lo := div;
      }
      assert hi - lo == width / 2.0;
      halvings := halvings + 1;
    }
    HalvedEnough(upper - lower, epsilon, halvings, hi - lo);
    r := (lo + hi) / 2.0;
    ghost var d := (hi - lo) / 2.0;
    assert r - d == lo && r + d == hi;
    assert Around(f, r, d);
  }

  lemma Scaled(p: real, a: real, b: real)
    requires p >= 1.0 && a <= b
    ensures p * a <= p * b
  {
    assert p * (b - a) >= 0.0;
  }

  lemma ScaledLess(p: real, a: real, b: real)
    requires p >= 1.0 && a < b
    ensures p * a < p * b
  {
    assert p * (b - a) > 0.0;
  }

  lemma {:induction false} Power2Grows(n: nat)
    ensures Power2(n) >= (n + 1) as real
  {
    if n > 0 {
      Power2Grows(n - 1);
    }
  }

  lemma {:induction false} Power2Monotone(m: nat, n: nat)
    requires m <= n
    ensures Power2(m) <= Power2(n)
  {
    if m < n {
      Power2Monotone(m, n - 1);
    }
  }

  /** A number of halvings that is certainly sufficient. */
  lemma HalvingsFor(len: real, epsilon: real) returns (n: nat)
    requires epsilon > 0.0
    ensures Power2(n) * epsilon > len
  {
    n := Covered(len, epsilon);
    Power2Grows(n);
    assert Power2(n) * epsilon >= (n + 1) as real * epsilon by {
      Scale((n + 1) as real, Power2(n), epsilon);
    }
  }

  lemma StillHalving(len: real, epsilon: real, n: nat, total: nat)
    requires epsilon > 0.0 && Power2(n) * epsilon <= len < Power2(total) * epsilon
    ensures n < total
  {
    if total <= n {
      Power2Monotone(total, n);
      Scale(Power2(total), Power2(n), epsilon);
    }
  }

  /** Ensure the upper end succeeds, shifting the domain up as often as required, then search. */
  method Upper(f: real -> bool, lower: real, upper: real, epsilon: real, ghost success: real)
    returns (r: real, ghost shifts: nat)
    requires Monotone(f) && lower < upper && epsilon > 0.0 && !f(lower) && f(success)
    ensures Breaks(f, r, epsilon)
    ensures var d := Domain(lower, upper).UpBy(shifts); d.lower < r < d.upper && f(d.upper) && !f(d.lower)
    ensures shifts > 0 ==> !f(Domain(lower, upper).UpBy(shifts - 1).upper) && !f(upper)
  {
    ghost var d := Domain(lower, upper);
    ghost var total := UpReaches(d, success);
    var lo, hi := lower, upper;
    shifts := 0;
    while true
      invariant Domain(lo, hi) == d.UpBy(shifts) && lo < hi && !f(lo)
      invariant shifts > 0 ==> !f(d.UpBy(shifts - 1).upper) && !f(upper)
      invariant forall k: nat :: k < shifts ==> !f(d.UpBy(k).upper)
      invariant shifts <= total
      decreases total - shifts
    {
      var hit := f(hi);
      if hit { break; }
      var len := hi - lo;
      lo := hi - len / 10.0;
      hi := lo + 14.0 * len / 10.0;
      shifts := shifts + 1;
    }
    ghost var h;
    r, h := Inner(f, lo, hi, epsilon);
  }

  /** Ensure also the lower end fails, shifting the domain down as often as required, then search. */
  method Search(f: real -> bool, lower: real, upper: real, epsilon: real, ghost failure: real, ghost success: real)
    returns (r: real, ghost down: nat, ghost up: nat)
    requires Monotone(f) && lower < upper && epsilon > 0.0 && !f(failure) && f(success)
    ensures Breaks(f, r, epsilon)
    ensures forall t :: IsThreshold(f, t) ==> r - epsilon / 2.0 < t < r + epsilon / 2.0
    ensures DownEndsAt(f, Domain(lower, upper), down)
    ensures var d := Domain(lower, upper).DownBy(down).UpBy(up); d.lower < r < d.upper && f(d.upper) && !f(d.lower)
    ensures down > 0 ==> up == 0
  {
    ghost var d := Domain(lower, upper);
    ghost var total := DownReaches(d, failure);
    var lo, hi := lower, upper;
    down := 0;
    while true
      invariant Domain(lo, hi) == d.DownBy(down) && lo < hi
      invariant forall k: nat :: k < down ==> f(d.DownBy(k).lower)
      invariant down > 0 ==> f(hi)
      invariant down <= total
      decreases total - down
    {
      var hit := f(lo);
      if !hit { break; }
      var len := hi - lo;
      hi := lo + len / 10.0;
      lo := hi - 14.0 * len / 10.0;
      down := down + 1;
    }
    r, up := Upper(f, lo, hi, epsilon, success);
    forall t | IsThreshold(f, t)
      ensures r - epsilon / 2.0 < t < r + epsilon / 2.0
    {
      BreaksNearThreshold(f, r, epsilon, t);
    }
  }
}
