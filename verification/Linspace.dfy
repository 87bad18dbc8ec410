/** Evenly spaced points in an interval, at which liquidity sources are sampled. */
module Linspace {
  import opened FixedPoint

  datatype IntervalEndpoints = NoEndpoint | Left | Right | Both

  /** The number of points is a machine word. */
  const USIZE: nat := 0x1_0000_0000_0000_0000

  /** Inner point `i` of `m`: the distance is divided by the floored quotient of the
      width and the index. */
  function Point(a: Fixed, b: Fixed, m: nat, i: nat): Fx {
    var whole :- FromBalance(m * S);
    var width :- Add(whole, S);
    var index :- FromBalance(i * S);
    var ratio :- Div(width, index);
    var distance :- Sub(b, a);
    var step :- Div(distance, ratio);
    Add(a, step)
  }

  /** The divisor of the distance at inner point `i` of `m`. */
  function Ratio(m: nat, i: nat): (r: int)
    requires 1 <= i
    ensures r * i <= (m + 1) * S < r * i + i
    ensures i <= m + 1 ==> r >= S
  {
    var r := FloorDiv((m + 1) * S, i);
    assert i <= m + 1 ==> r >= S by {
      if i <= m + 1 && r < S { MulMono(r + 1, S, i); }
    }
    r
  }

  lemma StepRange(d: int, r: int)
    requires r >= S
    ensures d >= 0 ==> 0 <= FloorDiv(d * S, r) <= d
    ensures d <= 0 ==> d <= FloorDiv(d * S, r) <= 0
  {
    var q := FloorDiv(d * S, r);
    if d >= 0 {
      if q > d { MulMono(d + 1, q, r); MulMono(S, r, d + 1); }
    } else {
      if q < d { MulMono(q + 1, d, r); MulMono(S, r, -d); }
      if q >= 1 { MulMono(1, q, r); }
    }
  }

  /** The distance travelled from `a` when the whole distance is `d`: between none
      and all of it, whichever the direction. */
  function Step(d: int, r: int): (q: int)
    requires r >= S
    ensures q * r <= d * S < q * r + r
    ensures d >= 0 ==> 0 <= q <= d
    ensures d <= 0 ==> d <= q <= 0
  {
    StepRange(d, r);
    FloorDiv(d * S, r)
  }

  /** A quotient of fixed-point numbers that are both multiples of `S`. */
  lemma RatioIsDiv(m: nat, i: nat)
    requires 1 <= i <= m < USIZE
    ensures Div((m + 1) * S, i * S) == Val(Ratio(m, i))
  {
    var r := Ratio(m, i);
    assert (r * i) * S == r * (i * S);
    FloorUnique((m + 1) * S * S, i * S, r);
    if r > (m + 1) * S { MulMono(1, i, r); }
  }

  /** `unwrap` never fails: an inner point is a representable number on the way from
      `a` to `b`. */
  lemma PointValue(a: Fixed, b: Fixed, m: nat, i: nat)
    requires Sub(b, a).Val? && 1 <= i <= m < USIZE
    ensures Point(a, b, m, i) == Fit(a + Step(b - a, Ratio(m, i)))
    ensures Fit(a + Step(b - a, Ratio(m, i))).Val?
  {
    RatioIsDiv(m, i);
    var r, d := Ratio(m, i), b - a;
    FloorUnique(d * S, r, Step(d, r));
    assert Div(d, r) == Val(Step(d, r));
    assert m * S + S == (m + 1) * S;
  }

  function InnerPoint(a: Fixed, b: Fixed, m: nat, i: nat): (p: Fixed)
    requires Sub(b, a).Val? && 1 <= i <= m < USIZE
    ensures Point(a, b, m, i) == Val(p)
    ensures p == a + Step(b - a, Ratio(m, i))
  {
    PointValue(a, b, m, i);
    Point(a, b, m, i).v
  }

  function Inner(a: Fixed, b: Fixed, m: nat): (points: seq<Fixed>)
    requires Sub(b, a).Val? && m < USIZE
    ensures |points| == m
  {
    seq(m, i requires 0 <= i < m => InnerPoint(a, b, m, i + 1))
  }

  /** The distance between the endpoints must be representable: otherwise the first
      inner point makes the original panic. */
  function Points(a: Fixed, b: Fixed, n: nat, endpoints: IntervalEndpoints): seq<Fixed>
    requires Sub(b, a).Val? && n < USIZE
  {
    if n == 0 then []
    else if a == b then seq(n, _ => a)
    else match endpoints
      case NoEndpoint => Inner(a, b, n)
      case Left => [a] + Inner(a, b, n - 1)
      case Right => Inner(a, b, n - 1) + [b]
      case Both => if n == 1 then [b] else [a] + Inner(a, b, n - 2) + [b]
  }

  // ----- proofs

  lemma Swap(a: int, b: int, c: int)
    ensures (a * b) * c == (a * c) * b
  {
  }

  lemma ExactBelow(d: nat, m: nat, i: nat, r: int)
    requires r >= S && r * i <= (m + 1) * S
    ensures FloorDiv(d * i, m + 1) <= Step(d, r)
  {
    var q, e := Step(d, r), FloorDiv(d * i, m + 1);
    if e > q {
      Swap(e, r, m + 1);
      MulMono(e * (m + 1), d * i, r);
      Swap(d, i, r);
      Swap(d, r, i);
      assert d * (r * i) == (d * r) * i;
      MulMono(r * i, (m + 1) * S, d);
      CancelLe(e * r, d * S, m + 1);
      MulMono(q + 1, e, r);
    }
  }

  /** An inner point never falls short of the floor of the exact fraction of the way. */
  lemma PointNotBelowExact(a: Fixed, b: Fixed, m: nat, i: nat)
    requires a <= b && Sub(b, a).Val? && 1 <= i <= m < USIZE
    ensures a + FloorDiv((b - a) * i, m + 1) <= InnerPoint(a, b, m, i) <= b
  {
    ExactBelow(b - a, m, i, Ratio(m, i));
  }

  lemma RatioFalls(m: nat, i: nat, j: nat)
    requires 1 <= i <= j
    ensures Ratio(m, j) <= Ratio(m, i)
  {
    var p, q := Ratio(m, i), Ratio(m, j);
    if p < q {
      assert q >= 0 by { if q < 0 { MulMono(q, -1, j); } }
      MulMono(p + 1, q, i);
      MulMono(i, j, q);
    }
  }

  lemma StepFalls(d: nat, p: int, q: int)
    requires S <= q <= p
    ensures Step(d, p) <= Step(d, q)
  {
    var x, y := Step(d, p), Step(d, q);
    if x > y {
      MulMono(y + 1, x, q);
      MulMono(q, p, x);
    }
  }

  predicate Rising(points: seq<Fixed>) {
    forall i, j :: 0 <= i <= j < |points| ==> points[i] <= points[j]
  }

  predicate Within(points: seq<Fixed>, a: Fixed, b: Fixed) {
    forall i :: 0 <= i < |points| ==> a <= points[i] <= b
  }

  lemma InnerRises(a: Fixed, b: Fixed, m: nat, i: nat, j: nat)
    requires a <= b && Sub(b, a).Val? && 1 <= i <= j <= m < USIZE
    ensures InnerPoint(a, b, m, i) <= InnerPoint(a, b, m, j)
  {
    RatioFalls(m, i, j);
    StepFalls(b - a, Ratio(m, i), Ratio(m, j));
  }

  lemma InnerShape(a: Fixed, b: Fixed, m: nat)
    requires a <= b && Sub(b, a).Val? && m < USIZE
    ensures Rising(Inner(a, b, m)) && Within(Inner(a, b, m), a, b)
  {
    var points := Inner(a, b, m);
    forall i, j | 0 <= i <= j < m
      ensures points[i] <= points[j]
    {
      InnerRises(a, b, m, i + 1, j + 1);
    }
    forall i | 0 <= i < m
      ensures a <= points[i] <= b
    {
      assert points[i] == InnerPoint(a, b, m, i + 1);
    }
  }

  predicate Shaped(points: seq<Fixed>, a: Fixed, b: Fixed) {
    Rising(points) && Within(points, a, b)
  }

  lemma WithEnds(points: seq<Fixed>, a: Fixed, b: Fixed)
    requires a <= b && Shaped(points, a, b)
    ensures Shaped([a] + points, a, b) && Shaped(points + [b], a, b) && Shaped([a] + points + [b], a, b)
  {
  }

  /** As many points as asked for, on their way up within the interval, up to its end and from its
      start as the mode asks. */
  predicate ShapedFor(points: seq<Fixed>, a: Fixed, b: Fixed, n: nat, endpoints: IntervalEndpoints) {
    && |points| == n && Shaped(points, a, b)
    && (n > 0 && (endpoints.Right? || endpoints.Both?) ==> points[n - 1] == b)
    && ((n > 0 && endpoints.Left?) || (n > 1 && endpoints.Both?) ==> points[0] == a)
  }

  lemma ShapeOfOneEnd(a: Fixed, b: Fixed, n: nat)
    requires a < b && Sub(b, a).Val? && 0 < n < USIZE
    ensures ShapedFor(Points(a, b, n, Left), a, b, n, Left) && ShapedFor(Points(a, b, n, Right), a, b, n, Right)
  {
    InnerShape(a, b, n - 1);
    WithEnds(Inner(a, b, n - 1), a, b);
  }

  lemma ShapeOfBothEnds(a: Fixed, b: Fixed, n: nat)
    requires a < b && Sub(b, a).Val? && 1 < n < USIZE
    ensures ShapedFor(Points(a, b, n, Both), a, b, n, Both)
  {
    InnerShape(a, b, n - 2);
    WithEnds(Inner(a, b, n - 2), a, b);
  }

  /** On a rising interval the result is exactly `n` points that never fall and never
      leave the interval, and that reach the endpoints asked for. */
  lemma PointsShape(a: Fixed, b: Fixed, n: nat, endpoints: IntervalEndpoints)
    requires a <= b && Sub(b, a).Val? && n < USIZE
    ensures ShapedFor(Points(a, b, n, endpoints), a, b, n, endpoints)
  {
    if a < b {
      match endpoints
      case NoEndpoint => InnerShape(a, b, n);
      case Both => if n > 1 { ShapeOfBothEnds(a, b, n); }
      case _ => if n > 0 { ShapeOfOneEnd(a, b, n); }
    }
  }
  /** Close to `i` of `n` equal parts of the whole: at least the floor of the exact fraction,
      above the fraction by at most one part in `S` of it, and the whole itself for all parts. */
  predicate NearPart(x: int, whole: nat, i: nat, n: nat) {
    && whole * i < (x + 1) * n && x * n * S <= whole * i * (S + 1)
    && 0 <= x <= whole && (i == n ==> x == whole)
  }

  lemma PointAtMost(whole: nat, i: nat, n: nat, ratio: int, x: nat)
    requires n * S - i <= ratio * i && x * ratio <= whole * S && x <= whole
    ensures x * n * S <= whole * i * (S + 1)
  {
    MulMono(n * S - i, ratio * i, x);
    TimesDifference(n * S, i, x);
    Swap(n, S, x);
    assert (ratio * i) * x == (x * ratio) * i;
    MulMono(x * ratio, whole * S, i);
    Swap(whole, S, i);
    MulMono(x, whole, i);
  }

  lemma InnerNear(whole: nat, i: nat, n: nat)
    requires 0 < whole && 1 <= i < n
    ensures NearPart(Step(whole, Ratio(n - 1, i)), whole, i, n)
  {
    var x, exact := Step(whole, Ratio(n - 1, i)), FloorDiv(whole * i, n);
    ExactBelow(whole, n - 1, i, Ratio(n - 1, i));
    MulMono(exact + 1, x + 1, n);
    TimesSum(exact, 1, n);
    PointAtMost(whole, i, n, Ratio(n - 1, i), x);
  }

  lemma EndNear(whole: nat, i: nat, n: nat)
    requires i <= n && n > 0
    ensures i == n ==> NearPart(whole, whole, i, n)
    ensures whole == 0 || i == 0 ==> NearPart(0, whole, i, n)
  {
  }

  /** How many of how many equal parts of the way point `k` of `n` is to have gone. */
  function Position(endpoints: IntervalEndpoints, n: nat, k: nat): (nat, nat) {
    match endpoints
    case NoEndpoint => (k + 1, n + 1)
    case Left => (k, n)
    case Right => (k + 1, n)
    case Both => if n <= 1 then (1, 1) else (k, n - 1)
  }

  lemma InnerAt(a: Fixed, b: Fixed, m: nat, i: nat)
    requires Sub(b, a).Val? && 1 <= i <= m < USIZE
    ensures Inner(a, b, m)[i - 1] == a + Step(b - a, Ratio(m, i))
  {
    assert Inner(a, b, m)[i - 1] == InnerPoint(a, b, m, i);
  }

  lemma InnerPointNear(a: Fixed, b: Fixed, m: nat, i: nat)
    requires a < b && Sub(b, a).Val? && 1 <= i < m <= USIZE
    ensures NearPart(Inner(a, b, m - 1)[i - 1] - a, b - a, i, m)
  {
    InnerAt(a, b, m - 1, i);
    InnerNear(b - a, i, m);
  }

  /** Where the inner points are among those of each mode. */
  lemma Placed(inner: seq<Fixed>, a: Fixed, b: Fixed, i: nat)
    requires 0 < i <= |inner|
    ensures ([a] + inner)[i] == (inner + [b])[i - 1] == ([a] + inner + [b])[i] == inner[i - 1]
  {
  }

  /** What point `p` is when `i` of `m` parts of the way lead to it. */
  predicate IsPoint(p: Fixed, a: Fixed, b: Fixed, i: nat, m: nat)
    requires a <= b && Sub(b, a).Val?
  {
    && i <= m <= USIZE && m > 0
    && p == if a == b || i == 0 then a else if i == m then b else Inner(a, b, m - 1)[i - 1]
  }

  lemma PointWithout(a: Fixed, b: Fixed, n: nat, k: nat)
    requires a <= b && Sub(b, a).Val? && k < n < USIZE
    ensures |Points(a, b, n, NoEndpoint)| == n && IsPoint(Points(a, b, n, NoEndpoint)[k], a, b, k + 1, n + 1)
  {
  }

  lemma PointLeft(a: Fixed, b: Fixed, n: nat, k: nat)
    requires a <= b && Sub(b, a).Val? && k < n < USIZE
    ensures |Points(a, b, n, Left)| == n && IsPoint(Points(a, b, n, Left)[k], a, b, k, n)
  {
    if 0 < k { Placed(Inner(a, b, n - 1), a, b, k); }
  }

  lemma PointRight(a: Fixed, b: Fixed, n: nat, k: nat)
    requires a <= b && Sub(b, a).Val? && k < n < USIZE
    ensures |Points(a, b, n, Right)| == n && IsPoint(Points(a, b, n, Right)[k], a, b, k + 1, n)
  {
    if k + 1 < n { Placed(Inner(a, b, n - 1), a, b, k + 1); }
  }

  lemma PointBoth(a: Fixed, b: Fixed, n: nat, k: nat)
    requires a <= b && Sub(b, a).Val? && k < n < USIZE && n > 1
    ensures |Points(a, b, n, Both)| == n && IsPoint(Points(a, b, n, Both)[k], a, b, k, n - 1)
  {
    if 0 < k < n - 1 { Placed(Inner(a, b, n - 2), a, b, k); }
  }

  lemma PointIs(a: Fixed, b: Fixed, n: nat, endpoints: IntervalEndpoints, k: nat)
    requires a <= b && Sub(b, a).Val? && k < n < USIZE
    ensures |Points(a, b, n, endpoints)| == n
    ensures IsPoint(Points(a, b, n, endpoints)[k], a, b, Position(endpoints, n, k).0, Position(endpoints, n, k).1)
  {
    match endpoints
    case NoEndpoint => PointWithout(a, b, n, k);
    case Left => PointLeft(a, b, n, k);
    case Right => PointRight(a, b, n, k);
    case Both => if n > 1 { PointBoth(a, b, n, k); }
  }

  lemma PointNear(p: Fixed, a: Fixed, b: Fixed, i: nat, m: nat)
    requires a <= b && Sub(b, a).Val? && IsPoint(p, a, b, i, m)
    ensures NearPart(p - a, b - a, i, m)
  {
    EndNear(b - a, i, m);
    if a < b && 0 < i < m { InnerPointNear(a, b, m, i); }
  }

  /** In every mode the points are evenly spaced: each has gone its part of the way, but for
      rounding that is bounded on both sides. */
  lemma PointsEven(a: Fixed, b: Fixed, n: nat, endpoints: IntervalEndpoints, k: nat)
    requires a <= b && Sub(b, a).Val? && k < n < USIZE
    ensures |Points(a, b, n, endpoints)| == n
    ensures var (i, m) := Position(endpoints, n, k); NearPart(Points(a, b, n, endpoints)[k] - a, b - a, i, m)
  {
    PointIs(a, b, n, endpoints, k);
    PointNear(Points(a, b, n, endpoints)[k], a, b, Position(endpoints, n, k).0, Position(endpoints, n, k).1);
  }
}
