/** Checked 18-digit fixed-point arithmetic, as wrapped by `FixedWrapper`.
    A fixed-point number is represented by its raw bits: an integer number of
    base units, `S` of them to one whole. Multiplication, division and square
    root round towards minus infinity; every result is checked against the
    range of a signed 128-bit integer. */
module FixedPoint {
  const S: int := 1_000_000_000_000_000_000
  const MAX: int := 0x7FFF_FFFF_FFFF_FFFF_FFFF_FFFF_FFFF_FFFF
  const MIN: int := -0x8000_0000_0000_0000_0000_0000_0000_0000
  const U128: int := 0x1_0000_0000_0000_0000_0000_0000_0000_0000

  type Fixed = x: int | MIN <= x <= MAX witness 0

  /** The outcome of a fixed-point calculation: a number, or an arithmetic error. */
  datatype Fx = Val(v: Fixed) | Fail {

    predicate IsFailure() {
      Fail?
    }

    function PropagateFailure(): Fx
      requires Fail?
    {
      Fail
    }

    function Extract(): Fixed
      requires Val?
    {
      v
    }

    function GetOr(default: Fixed): Fixed {
      if Val? then v else default
    }
  }

  function Fit(v: int): (r: Fx)
    ensures r.Val? <==> MIN <= v <= MAX
    ensures r.Val? ==> r.v == v
  {
    if MIN <= v <= MAX then Val(v) else Fail
  }

  /** A balance enters fixed-point arithmetic when it fits in 127 bits. */
  function FromBalance(b: nat): Fx {
    Fit(b)
  }

  function Add(a: Fixed, b: Fixed): Fx {
    Fit(a + b)
  }

  function Sub(a: Fixed, b: Fixed): Fx {
    Fit(a - b)
  }

  /** Floored product: the largest number of base units not above the exact product. */
  function Mul(a: Fixed, b: Fixed): (r: Fx)
    ensures r.Val? ==> r.v * S <= a * b < r.v * S + S
    ensures a >= 0 && b >= 0 && r.Val? ==> r.v >= 0
  {
    Fit(a * b / S)
  }

  lemma FloorBounds(n: int, d: int)
    requires d > 0
    ensures n / d * d <= n < n / d * d + d
  {
    assert n == n / d * d + n % d;
  }

  function FloorDiv(n: int, d: int): (q: int)
    requires d > 0
    ensures q * d <= n < q * d + d
    ensures n >= 0 ==> q >= 0
  {
    FloorBounds(n, d);
    n / d
  }

  /** Floored quotient, an error on a zero divisor. */
  function Div(a: Fixed, b: Fixed): (r: Fx)
    ensures b == 0 ==> r == Fail
    ensures b > 0 && r.Val? ==> r.v * b <= a * S < r.v * b + b
    ensures b < 0 && r.Val? ==> r.v * b >= a * S > r.v * b + b
    ensures a >= 0 && b > 0 && r.Val? ==> r.v >= 0
  {
    if b == 0 then Fail
    else if b > 0 then Fit(FloorDiv(a * S, b))
    else Fit(FloorDiv(a * -S, -(b as int)))
  }

  lemma RootStep(n: nat, h: nat)
    requires h * h <= n / 4 < (h + 1) * (h + 1)
    ensures (2 * h) * (2 * h) <= n < (2 * h + 2) * (2 * h + 2)
  {
    assert (2 * h) * (2 * h) == 4 * (h * h);
    assert (2 * h + 2) * (2 * h + 2) == 4 * ((h + 1) * (h + 1));
  }

  function ISqrt(n: nat): (r: nat)
    ensures r * r <= n < (r + 1) * (r + 1)
  {
    if n == 0 then 0
    else
      var h := ISqrt(n / 4);
      RootStep(n, h);
      if (2 * h + 1) * (2 * h + 1) <= n then 2 * h + 1 else 2 * h
  }

  lemma MulMono(a: int, b: int, c: int)
    requires a <= b && c >= 0
    ensures a * c <= b * c
  {
  }

  /** A root of a number of at most 127 bits times `S` has far fewer than 127 bits. */
  lemma RootFits(r: nat, a: Fixed)
    requires a >= 0 && r * r <= a * S
    ensures r <= MAX
  {
    if r > MAX { MulMono(MAX + 1, r, r); MulMono(MAX + 1, r, MAX + 1); }
  }

  /** Floored square root, an error on a negative number. */
  function Sqrt(a: Fixed): (r: Fx)
    ensures r.Val? <==> a >= 0
    ensures r.Val? ==> r.v >= 0 && r.v * r.v <= a * S < (r.v + 1) * (r.v + 1)
  {
    if a < 0 then Fail
    else
      var r := ISqrt(a * S);
      RootFits(r, a);
      Val(r)
  }

  /** Square root of a product, as the floored product of the two floored roots. */
  function MultiplyAndSqrt(a: Fixed, b: Fixed): (r: Fx)
    ensures r.Val? ==> a >= 0 && b >= 0 && r.v >= 0
  {
    var ra :- Sqrt(a);
    var rb :- Sqrt(b);
    Mul(ra, rb)
  }

  /** `-` and `+` on unsigned 128-bit balances, as a release build performs them. */
  function WrapSub(a: nat, b: nat): (r: nat)
    ensures b <= a < U128 ==> r == a - b
    ensures a < b < U128 ==> r == U128 + a - b
  {
    (a - b) % U128
  }

  function WrapAdd(a: nat, b: nat): (r: nat)
    ensures a + b < U128 ==> r == a + b
    ensures U128 <= a + b < 2 * U128 ==> r == a + b - U128
  {
    (a + b) % U128
  }

  // ----- proofs

  lemma MulIs(a: Fixed, b: Fixed, p: Fixed)
    requires p == a * b / S
    ensures Mul(a, b) == Val(p)
  {
  }

  /** The defining bounds of a floored quotient determine it. */
  lemma FloorUnique(n: int, d: int, q: int)
    requires d > 0
    requires q * d <= n < q * d + d
    ensures n / d == q
  {
    FloorBounds(n, d);
    var p := n / d;
    if p < q { MulMono(p + 1, q, d); }
    if q < p { MulMono(q + 1, p, d); }
  }

  /** Cancelling a positive factor from an inequality. */
  lemma CancelLe(a: int, b: int, c: int)
    requires c > 0 && a * c <= b * c
    ensures a <= b
  {
    if a > b { MulMono(b + 1, a, c); }
  }

  lemma CancelLt(a: int, b: int, c: int)
    requires c > 0 && a * c < b * c
    ensures a < b
  {
    if a >= b { MulMono(b, a, c); }
  }

  lemma FloorMono(m: int, n: int, d: int)
    requires m <= n && d > 0
    ensures m / d <= n / d
  {
    FloorBounds(m, d);
    FloorBounds(n, d);
    if m / d > n / d { MulMono(n / d + 1, m / d, d); }
  }

  lemma SquareLe(a: nat, b: nat)
    requires a <= b
    ensures a * a <= b * b
  {
    MulMono(a, b, a);
    MulMono(a, b, b);
  }

  lemma SameRoot(n: nat, q: nat, r: nat)
    requires q * q <= n < (q + 1) * (q + 1) && r * r <= n < (r + 1) * (r + 1)
    ensures q == r
  {
    if q < r { SquareLe(q + 1, r); }
    if r < q { SquareLe(r + 1, q); }
  }

  /** The defining bounds of a floored root determine it. */
  lemma RootUnique(n: nat, r: nat)
    requires r * r <= n < (r + 1) * (r + 1)
    ensures ISqrt(n) == r
  {
    SameRoot(n, ISqrt(n), r);
  }

  lemma TimesSum(a: int, b: int, c: int)
    ensures (a + b) * c == a * c + b * c
  {
  }

  lemma TimesDifference(a: int, b: int, c: int)
    ensures (a - b) * c == a * c - b * c
  {
  }

  /** (a*b)*(c*d) regrouped. */
  lemma Regroup(a: int, b: int, c: int, d: int)
    ensures (a * b) * (c * d) == (a * c) * (b * d)
  {
    calc {
      (a * b) * (c * d);
      a * (b * (c * d));
      { assert b * (c * d) == c * (b * d); }
      a * (c * (b * d));
      (a * c) * (b * d);
    }
  }

  lemma ProductLe(a: nat, b: nat, c: nat, d: nat)
    requires a <= b && c <= d
    ensures a * c <= b * d
  {
    MulMono(a, b, c);
    MulMono(c, d, b);
  }

  lemma RootProduct(r: nat, ra: nat, rb: nat, a: nat, b: nat, s: nat)
    requires s > 0 && r * s <= ra * rb
    requires ra * ra <= a * s && rb * rb <= b * s
    ensures r * r <= a * b
  {
    SquareLe(r * s, ra * rb);
    ProductLe(ra * ra, a * s, rb * rb, b * s);
    Regroup(r, s, r, s);
    Regroup(ra, rb, ra, rb);
    Regroup(a, s, b, s);
    assert s * s > 0;
    CancelLe(r * r, a * b, s * s);
  }

  /** The two-root estimate never exceeds the geometric mean: its square is at most
      the exact product. */
  lemma MultiplyAndSqrtBelow(a: Fixed, b: Fixed)
    requires MultiplyAndSqrt(a, b).Val?
    ensures var r := MultiplyAndSqrt(a, b).v; r * r <= a * b
  {
    RootProduct(MultiplyAndSqrt(a, b).v, Sqrt(a).v, Sqrt(b).v, a, b, S);
  }

  lemma ProductLt(a: nat, b: nat, c: nat, d: nat)
    requires a < b && c < d
    ensures a * c < b * d
  {
    ProductLe(a + 1, b, c + 1, d);
    assert (a + 1) * (c + 1) == a * c + a + c + 1;
  }

  lemma RootOfProductFits(r: nat, ra: nat, rb: nat, x: nat, y: nat)
    requires r * S <= ra * rb && ra * ra <= x * S && rb * rb <= y * S && x <= MAX && y <= MAX
    ensures r <= MAX
  {
    RootProduct(r, ra, rb, x, y, S);
    ProductLe(x, MAX, y, MAX);
    if r > MAX { SquareLe(MAX + 1, r); }
  }

  lemma ProductOfRootsFits(ra: Fixed, rb: Fixed, x: Fixed, y: Fixed)
    requires 0 <= ra && 0 <= rb && ra * ra <= x * S && rb * rb <= y * S
    ensures Mul(ra, rb).Val?
  {
    FloorBounds(ra * rb, S);
    FloorMono(0, ra * rb, S);
    RootOfProductFits(ra * rb / S, ra, rb, x, y);
  }

  lemma RootProductAbove(r: nat, ra: nat, rb: nat, a: nat, b: nat)
    requires ra * rb < r * S + S && a * S < (ra + 1) * (ra + 1) && b * S < (rb + 1) * (rb + 1)
    ensures var w := r * S + (S + ra + rb + 1); (a * b) * (S * S) < w * w
  {
    var w := r * S + (S + ra + rb + 1);
    ProductLt(a * S, (ra + 1) * (ra + 1), b * S, (rb + 1) * (rb + 1));
    Regroup(ra + 1, ra + 1, rb + 1, rb + 1);
    assert (ra + 1) * (rb + 1) == ra * rb + ra + rb + 1;
    SquareLe((ra + 1) * (rb + 1), w);
    Regroup(a, S, b, S);
  }

  lemma FlooredProduct(a: Fixed, b: Fixed, r: Fixed)
    requires Mul(a, b) == Val(r)
    ensures a * b < r * S + S
  {
  }

  lemma ScaledBelowSquare(a: nat)
    ensures a * S < (a + S + 1) * (a + S + 1)
  {
    TimesSum(a, S + 1, a + S + 1);
    MulMono(S, a + S + 1, a);
  }

  lemma RootAtMost(r: nat, a: nat)
    requires r * r <= a * S
    ensures r <= a + S
  {
    ScaledBelowSquare(a);
    if r > a + S { SquareLe(a + S + 1, r); }
  }

  /** A square root of a product exists for all numbers that are not negative. */
  lemma MultiplyAndSqrtExists(a: Fixed, b: Fixed)
    ensures MultiplyAndSqrt(a, b).Val? <==> a >= 0 && b >= 0
  {
    if a >= 0 && b >= 0 { ProductOfRootsFits(Sqrt(a).v, Sqrt(b).v, a, b); }
  }

  lemma WiderSquare(v: int, w: nat, w': nat)
    requires v < w * w && w <= w'
    ensures v < w' * w'
  {
    SquareLe(w, w');
  }

  lemma RootsAbove(r: nat, ra: nat, rb: nat, a: nat, b: nat, slack: nat)
    requires ra * rb < r * S + S && a * S < (ra + 1) * (ra + 1) && b * S < (rb + 1) * (rb + 1)
    requires S + ra + rb + 1 <= slack
    ensures (a * b) * (S * S) < (r * S + slack) * (r * S + slack)
  {
    RootProductAbove(r, ra, rb, a, b);
    WiderSquare((a * b) * (S * S), r * S + (S + ra + rb + 1), r * S + slack);
  }

  /** In scaled units it falls short of the geometric mean by at most the sum of the two numbers,
      three wholes, and one. */
  lemma MultiplyAndSqrtAbove(a: Fixed, b: Fixed)
    requires MultiplyAndSqrt(a, b).Val?
    ensures var w := MultiplyAndSqrt(a, b).v * S + (a + b + 3 * S + 1); (a * b) * (S * S) < w * w
  {
    var r, ra, rb := MultiplyAndSqrt(a, b).v, Sqrt(a).v, Sqrt(b).v;
    FlooredProduct(ra, rb, r);
    RootAtMost(ra, a);
    RootAtMost(rb, b);
    RootsAbove(r, ra, rb, a, b, a + b + 3 * S + 1);
  }
}
