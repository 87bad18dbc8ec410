/** The liquidity aggregation optimiser: a dynamic program over sources and parts
    of the trade, which distributes `s` equal parts among the sources so that the
    sum of the samples is the largest (or the smallest) one. */
module Optimiser {
  import opened FixedPoint
  import opened Sums

  /** `data[i][k]` is what source `i` gives for `k + 1` parts of the trade. */
  type Samples = seq<seq<Fixed>>

  /** The rows that the algorithm may read: every source is sampled at least at
      each of the `s` parts (a shorter row makes the original panic). */
  predicate WellSampled(data: Samples) {
    data != [] && forall i :: 0 <= i < |data| ==> |data[0]| <= |data[i]|
  }

  predicate NonNegative(data: Samples) {
    forall i, k :: 0 <= i < |data| && 0 <= k < |data[i]| ==> data[i][k] >= 0
  }

  // ----- what is being optimised

  /** The sample that source `i` contributes when it is given `p` parts. */
  function Gain(data: Samples, i: nat, p: nat): int
    requires i < |data| && p <= |data[i]|
  {
    if p == 0 then 0 else data[i][p - 1]
  }

  /** A split of `j` parts among the sources `0..n`. */
  predicate IsSplit(data: Samples, parts: seq<nat>, n: nat, j: nat) {
    && |parts| == n <= |data|
    && Sum(parts) == j
    && forall i :: 0 <= i < n ==> parts[i] <= |data[i]|
  }

  /** The unbounded sum of the samples that a split selects. */
  function Value(data: Samples, parts: seq<nat>): int
    requires |parts| <= |data|
    requires forall i :: 0 <= i < |parts| ==> parts[i] <= |data[i]|
  {
    if parts == [] then 0
    else
      var i := |parts| - 1;
      Value(data, parts[..i]) + Gain(data, i, parts[i])
  }

  /** `parts` splits `j` parts among `n` sources, and its samples sum to `total`. */
  ghost predicate Selects(data: Samples, parts: seq<nat>, n: nat, j: nat, total: int) {
    IsSplit(data, parts, n, j) && Value(data, parts) == total
  }

  // ----- the recurrence that the two tables tabulate

  predicate Better(inversed: bool, candidate: Fixed, current: Fixed) {
    if inversed then candidate < current else candidate > current
  }

  /** Row `i`, column `j` of the tables: the accumulated amount, and the number of
      parts left for the sources before `i`. */
  function Cell(data: Samples, inversed: bool, i: nat, j: nat): (c: (Fixed, nat))
    requires WellSampled(data) && i < |data| && j <= |data[0]|
    ensures c.1 <= j
    decreases i, 1, 0
  {
    if j == 0 then (0, 0)
    else if i == 0 then (data[0][j - 1], 0)
    else Scan(data, inversed, i, j, j)
  }

  /** The cell after the first `k` candidates; a candidate whose sum does not fit
      is skipped. */
  function Scan(data: Samples, inversed: bool, i: nat, j: nat, k: nat): (c: (Fixed, nat))
    requires WellSampled(data) && 0 < i < |data| && k <= j <= |data[0]|
    ensures c.1 <= j
    decreases i, 0, k
  {
    if k == 0 then (Cell(data, inversed, i - 1, j).0, j)
    else
      var current := Scan(data, inversed, i, j, k - 1);
      match Add(Cell(data, inversed, i - 1, j - k).0, data[i][k - 1])
      case Fail => current
      case Val(candidate) =>
        if Better(inversed, candidate, current.0) then (candidate, j - k) else current
  }

  /** The parts that back-tracking hands out to the sources `0..i`. */
  function Parts(data: Samples, inversed: bool, i: nat, j: nat): (parts: seq<nat>)
    requires WellSampled(data) && i < |data| && j <= |data[0]|
    ensures |parts| == i + 1
  {
    var left := Cell(data, inversed, i, j).1;
    if i == 0 then [j - left] else Parts(data, inversed, i - 1, left) + [j - left]
  }

  // ----- exact reconstruction

  lemma ValueAppend(data: Samples, parts: seq<nat>, p: nat)
    requires IsSplit(data, parts, |parts|, Sum(parts))
    requires |parts| < |data| && p <= |data[|parts|]|
    ensures IsSplit(data, parts + [p], |parts| + 1, Sum(parts) + p)
    ensures Value(data, parts + [p]) == Value(data, parts) + Gain(data, |parts|, p)
  {
    SumAppend(parts, p);
    assert (parts + [p])[..|parts|] == parts;
  }

  /** A scanned cell is reached by giving source `i` the parts it does not leave. */
  lemma {:induction false} ScanReached(data: Samples, inversed: bool, i: nat, j: nat, k: nat)
    requires WellSampled(data) && 0 < i < |data| && k <= j <= |data[0]|
    ensures var c := Scan(data, inversed, i, j, k);
            c.0 == Cell(data, inversed, i - 1, c.1).0 + Gain(data, i, j - c.1)
  {
    if k > 0 {
      ScanReached(data, inversed, i, j, k - 1);
    }
  }

  lemma CellReached(data: Samples, inversed: bool, i: nat, j: nat)
    requires WellSampled(data) && 0 < i < |data| && j <= |data[0]|
    ensures var c := Cell(data, inversed, i, j);
            c.0 == Cell(data, inversed, i - 1, c.1).0 + Gain(data, i, j - c.1)
  {
    if j > 0 { ScanReached(data, inversed, i, j, j); }
  }

  lemma FirstSource(data: Samples, inversed: bool, j: nat)
    requires WellSampled(data) && j <= |data[0]|
    ensures Selects(data, Parts(data, inversed, 0, j), 1, j, Cell(data, inversed, 0, j).0)
  {
    assert Parts(data, inversed, 0, j) == [j];
    assert [j][..0] == [];
  }

  lemma HandOut(data: Samples, before: seq<nat>, i: nat, left: nat, p: nat, total: int)
    requires Selects(data, before, i, left, total) && i < |data| && p <= |data[i]|
    ensures Selects(data, before + [p], i + 1, left + p, total + Gain(data, i, p))
  {
    ValueAppend(data, before, p);
  }

  ghost predicate Rebuilt(data: Samples, inversed: bool, i: nat, j: nat)
    requires WellSampled(data) && i < |data| && j <= |data[0]|
  {
    Selects(data, Parts(data, inversed, i, j), i + 1, j, Cell(data, inversed, i, j).0)
  }

  lemma RebuiltStep(data: Samples, inversed: bool, i: nat, j: nat, left: nat)
    requires WellSampled(data) && 0 < i < |data| && j <= |data[0]|
    requires left == Cell(data, inversed, i, j).1 && Rebuilt(data, inversed, i - 1, left)
    ensures Rebuilt(data, inversed, i, j)
  {
    CellReached(data, inversed, i, j);
    HandOut(data, Parts(data, inversed, i - 1, left), i, left, j - left, Cell(data, inversed, i - 1, left).0);
  }

  /** Back-tracking hands out exactly `j` parts, and the samples at those part
      counts sum to exactly the amount accumulated in the cell. */
  lemma {:induction false} Reconstruction(data: Samples, inversed: bool, i: nat, j: nat)
    requires WellSampled(data) && i < |data| && j <= |data[0]|
    ensures Rebuilt(data, inversed, i, j)
  {
    if i == 0 {
      FirstSource(data, inversed, j);
    } else {
      var left := Cell(data, inversed, i, j).1;
      Reconstruction(data, inversed, i - 1, left);
      RebuiltStep(data, inversed, i, j, left);
    }
  }

  // ----- optimality

  /** A scanned cell is at least as good as every candidate that fits, the first of
      which gives source `i` no part. */
  lemma {:induction false} ScanBest(data: Samples, inversed: bool, i: nat, j: nat, k: nat, p: nat)
    requires WellSampled(data) && 0 < i < |data| && p <= k <= j <= |data[0]|
    requires Fit(Cell(data, inversed, i - 1, j - p).0 + Gain(data, i, p)).Val?
    ensures !Better(inversed, Cell(data, inversed, i - 1, j - p).0 + Gain(data, i, p), Scan(data, inversed, i, j, k).0)
  {
    if p < k {
      ScanBest(data, inversed, i, j, k - 1, p);
    }
  }

  lemma CellBest(data: Samples, inversed: bool, i: nat, j: nat, p: nat)
    requires WellSampled(data) && 0 < i < |data| && p <= j <= |data[0]|
    requires Fit(Cell(data, inversed, i - 1, j - p).0 + Gain(data, i, p)).Val?
    ensures !Better(inversed, Cell(data, inversed, i - 1, j - p).0 + Gain(data, i, p), Cell(data, inversed, i, j).0)
  {
    if j > 0 { ScanBest(data, inversed, i, j, j, p); }
  }

  lemma SplitPrefix(data: Samples, parts: seq<nat>, n: nat, j: nat)
    requires IsSplit(data, parts, n, j) && n > 0
    ensures parts[n - 1] <= j
    ensures IsSplit(data, parts[..n - 1], n - 1, j - parts[n - 1])
    ensures Value(data, parts) == Value(data, parts[..n - 1]) + Gain(data, n - 1, parts[n - 1])
  {
  }

  lemma {:induction false} NonNegativeValue(data: Samples, parts: seq<nat>, n: nat, j: nat)
    requires NonNegative(data) && IsSplit(data, parts, n, j)
    ensures Value(data, parts) >= 0
  {
    if n > 0 {
      SplitPrefix(data, parts, n, j);
      NonNegativeValue(data, parts[..n - 1], n - 1, j - parts[n - 1]);
    }
  }

  lemma NonNegativeCell(data: Samples, inversed: bool, i: nat, j: nat)
    requires WellSampled(data) && NonNegative(data) && i < |data| && j <= |data[0]|
    ensures Cell(data, inversed, i, j).0 >= 0
  {
    Reconstruction(data, inversed, i, j);
    NonNegativeValue(data, Parts(data, inversed, i, j), i + 1, j);
  }

  ghost predicate AtMost(data: Samples, n: nat, j: nat, bound: int) {
    forall q: seq<nat> :: IsSplit(data, q, n, j) ==> Value(data, q) <= bound
  }

  ghost predicate AtLeast(data: Samples, n: nat, j: nat, bound: int) {
    forall q: seq<nat> :: IsSplit(data, q, n, j) ==> Value(data, q) >= bound
  }

  /** Minimising, no split of the same parts is cheaper, whether or not its own sum
      is representable. */
  lemma {:induction false} MinimumBound(data: Samples, parts: seq<nat>, i: nat, j: nat)
    requires WellSampled(data) && NonNegative(data) && i < |data| && j <= |data[0]|
    requires IsSplit(data, parts, i + 1, j)
    ensures Cell(data, true, i, j).0 <= Value(data, parts)
  {
    SplitPrefix(data, parts, i + 1, j);
    var p := parts[i];
    if i == 0 {
      assert parts[..i] == [];
    } else {
      MinimumBound(data, parts[..i], i - 1, j - p);
      NonNegativeCell(data, true, i - 1, j - p);
      if Fit(Cell(data, true, i - 1, j - p).0 + Gain(data, i, p)).Val? {
        CellBest(data, true, i, j, p);
      }
    }
  }

  lemma MinimumOptimal(data: Samples, i: nat, j: nat)
    requires WellSampled(data) && NonNegative(data) && i < |data| && j <= |data[0]|
    ensures AtLeast(data, i + 1, j, Cell(data, true, i, j).0)
  {
    forall q: seq<nat> | IsSplit(data, q, i + 1, j)
      ensures Value(data, q) >= Cell(data, true, i, j).0
    {
      MinimumBound(data, q, i, j);
    }
  }

  /** If no split of `j` parts overflows, then neither does one that leaves `p` of
      them to the last source. */
  lemma NoOverflowPrefix(data: Samples, i: nat, j: nat, p: nat)
    requires WellSampled(data) && NonNegative(data) && 0 < i < |data| && p <= j <= |data[0]|
    requires AtMost(data, i + 1, j, MAX)
    ensures AtMost(data, i, j - p, MAX - Gain(data, i, p))
    ensures AtMost(data, i, j - p, MAX)
  {
    forall q: seq<nat> | IsSplit(data, q, i, j - p)
      ensures Value(data, q) <= MAX - Gain(data, i, p)
    {
      ValueAppend(data, q, p);
      assert IsSplit(data, q + [p], i + 1, j);
    }
  }

  lemma {:induction false} MaximumBound(data: Samples, parts: seq<nat>, i: nat, j: nat)
    requires WellSampled(data) && NonNegative(data) && i < |data| && j <= |data[0]|
    requires AtMost(data, i + 1, j, MAX)
    requires IsSplit(data, parts, i + 1, j)
    ensures Value(data, parts) <= Cell(data, false, i, j).0
  {
    SplitPrefix(data, parts, i + 1, j);
    var p := parts[i];
    if i == 0 {
      assert parts[..i] == [];
    } else {
      NoOverflowPrefix(data, i, j, p);
      MaximumBound(data, parts[..i], i - 1, j - p);
      Reconstruction(data, false, i - 1, j - p);
      NonNegativeCell(data, false, i - 1, j - p);
      CellBest(data, false, i, j, p);
    }
  }

  /** Maximising, no split yields more than the cell exactly when no split overflows:
      past an overflow, skipping the candidate can only lose the maximum. */
  lemma MaximumExactly(data: Samples, i: nat, j: nat)
    requires WellSampled(data) && NonNegative(data) && i < |data| && j <= |data[0]|
    ensures AtMost(data, i + 1, j, Cell(data, false, i, j).0) <==> AtMost(data, i + 1, j, MAX)
  {
    if AtMost(data, i + 1, j, MAX) {
      forall q: seq<nat> | IsSplit(data, q, i + 1, j)
        ensures Value(data, q) <= Cell(data, false, i, j).0
      {
        MaximumBound(data, q, i, j);
      }
    }
  }

  /** The largest sample of a row, or nothing. */
  function Peak(row: seq<Fixed>): (peak: nat)
    ensures forall k :: 0 <= k < |row| ==> row[k] <= peak
  {
    if row == [] then 0
    else
      var last, before := row[|row| - 1], Peak(row[..|row| - 1]);
      assert forall k :: 0 <= k < |row| - 1 ==> row[k] == row[..|row| - 1][k];
      if last > before then last else before
  }

  function Peaks(data: Samples): (peaks: seq<nat>)
    ensures |peaks| == |data|
  {
    seq(|data|, i requires 0 <= i < |data| => Peak(data[i]))
  }

  lemma {:induction false} ValueBelowPeaks(data: Samples, parts: seq<nat>, n: nat, j: nat)
    requires IsSplit(data, parts, n, j)
    ensures Value(data, parts) <= Sum(Peaks(data)[..n])
  {
    if n > 0 {
      SplitPrefix(data, parts, n, j);
      ValueBelowPeaks(data, parts[..n - 1], n - 1, j - parts[n - 1]);
      assert Peaks(data)[..n][..n - 1] == Peaks(data)[..n - 1];
    }
  }

  /** No split overflows if the largest samples of all sources sum to a representable
      number, and then the maximum is not missed. */
  lemma PeaksSuffice(data: Samples, j: nat)
    requires WellSampled(data) && NonNegative(data) && j <= |data[0]| && Sum(Peaks(data)) <= MAX
    ensures AtMost(data, |data|, j, MAX)
    ensures AtMost(data, |data|, j, Cell(data, false, |data| - 1, j).0)
  {
    forall q: seq<nat> | IsSplit(data, q, |data|, j)
      ensures Value(data, q) <= MAX
    {
      ValueBelowPeaks(data, q, |data|, j);
      assert Peaks(data)[..|data|] == Peaks(data);
    }
    MaximumExactly(data, |data| - 1, j);
  }

  /** Past an overflow the maximum is missed: one source gives nearly the largest number for
      one part or two, the other one 2. One part each would give more than `Fixed` holds,
      so both parts go to the first source. */
  lemma MaximumMissed()
    ensures var data: Samples := [[MAX - 1, MAX - 1], [2, 2]];
            && WellSampled(data) && NonNegative(data)
            && Cell(data, false, 1, 2) == (MAX - 1, 2)
            && Selects(data, [1, 1], 2, 2, MAX + 1)
            && !AtMost(data, 2, 2, MAX) && !AtMost(data, 2, 2, MAX - 1)
  {
    var data: Samples := [[MAX - 1, MAX - 1], [2, 2]];
    assert Scan(data, false, 1, 2, 0) == (MAX - 1, 2);
    assert Scan(data, false, 1, 2, 1) == (MAX - 1, 2);
    assert [1, 1][..1] == [1] && [1][..0] == [];
    assert Sum([1]) == 1 && Value(data, [1]) == MAX - 1;
    assert Selects(data, [1, 1], 2, 2, MAX + 1);
  }

  /** What the returned amount promises about every split of `j` parts among `n`
      sources: minimising, that none is cheaper; maximising, that none yields more,
      exactly when none overflows. */
  ghost predicate Extremal(data: Samples, inversed: bool, n: nat, j: nat, best: int) {
    if inversed then AtLeast(data, n, j, best)
    else AtMost(data, n, j, best) <==> AtMost(data, n, j, MAX)
  }

  lemma CellOptimal(data: Samples, inversed: bool, i: nat, j: nat)
    requires WellSampled(data) && i < |data| && j <= |data[0]|
    ensures Selects(data, Parts(data, inversed, i, j), i + 1, j, Cell(data, inversed, i, j).0)
    ensures NonNegative(data) ==> Extremal(data, inversed, i + 1, j, Cell(data, inversed, i, j).0)
  {
    Reconstruction(data, inversed, i, j);
    if NonNegative(data) {
      if inversed { MinimumOptimal(data, i, j); } else { MaximumExactly(data, i, j); }
    }
  }

  // ----- shares of the trade

  /** `p` of `s` parts as an 18-digit fraction. */
  function Share(p: nat, s: nat): nat
    requires s > 0
  {
    p * S / s
  }

  function Shares(parts: seq<nat>, s: nat): (shares: seq<nat>)
    requires s > 0
    ensures |shares| == |parts|
  {
    seq(|parts|, i requires 0 <= i < |parts| => Share(parts[i], s))
  }

  /** The share as the algorithm computes it from the parts left before and after. */
  function SharePart(partsLeft: nat, foreign: nat, totalParts: Fixed): Fx {
    var before :- FromBalance(partsLeft * S);
    var after :- FromBalance(foreign * S);
    var part :- Sub(before, after);
    Div(part, totalParts)
  }

  lemma SharePartIsShare(partsLeft: nat, foreign: nat, s: nat)
    requires foreign <= partsLeft <= s && 0 < s && s * S <= MAX
    ensures SharePart(partsLeft, foreign, s * S) == Val(Share(partsLeft - foreign, s))
    ensures Share(partsLeft - foreign, s) <= S
  {
    var p := partsLeft - foreign;
    FloorBounds(p * S, s);
    var q := p * S / s;
    MulMono(p * S, s * S, 1);
    if q > S { MulMono(S + 1, q, s); }
    assert (p * S) * S == (p * S / s * s) * S + (p * S % s) * S;
    assert q * (s * S) == (q * s) * S;
    FloorUnique(p * S * S, s * S, q);
  }

  /** Nothing to distribute: no source, no sample, or too many of them for `Fixed`. */
  predicate Degenerate(data: Samples) {
    data == [] || data[0] == [] || |data[0]| * S > MAX
  }

  /** With no parts left, the sources before get none. */
  lemma {:induction false} NoPartsLeft(data: Samples, inversed: bool, i: nat)
    requires WellSampled(data) && i < |data|
    ensures forall k :: 0 <= k <= i ==> Parts(data, inversed, i, 0)[k] == 0
  {
    if i > 0 { NoPartsLeft(data, inversed, i - 1); }
  }

  predicate Shaped(data: Samples, accumulator: array2<Fixed>, foreign: array2<nat>) {
    && data != []
    && accumulator.Length0 == foreign.Length0 == |data|
    && accumulator.Length1 == foreign.Length1 == |data[0]| + 1
  }

  /** The rows before `rows` are filled, and so are the first columns of that row;
      the rest of its first column still holds zeros. */
  ghost predicate Filled(data: Samples, inversed: bool, accumulator: array2<Fixed>, foreign: array2<nat>, rows: nat,
                         columns: nat)
    requires WellSampled(data) && Shaped(data, accumulator, foreign)
    reads accumulator, foreign
  {
    && (forall r, j :: 0 <= r < |data| && 0 <= j <= |data[0]| && (r < rows || (r == rows && j < columns)) ==>
          accumulator[r, j] == Cell(data, inversed, r, j).0 && foreign[r, j] == Cell(data, inversed, r, j).1)
    && (forall r :: rows <= r < |data| ==> accumulator[r, 0] == 0 && foreign[r, 0] == 0)
  }

  method FillCell(data: Samples, inversed: bool, accumulator: array2<Fixed>, foreign: array2<nat>, i: nat, j: nat)
    requires WellSampled(data) && Shaped(data, accumulator, foreign)
    requires 0 < i < |data| && 1 <= j <= |data[0]|
    requires Filled(data, inversed, accumulator, foreign, i, j)
    modifies accumulator, foreign
    ensures Filled(data, inversed, accumulator, foreign, i, j + 1)
  {
    accumulator[i, j] := accumulator[i - 1, j];
    foreign[i, j] := j;
    for k := 0 to j
      invariant Filled(data, inversed, accumulator, foreign, i, j)
      invariant accumulator[i, j] == Scan(data, inversed, i, j, k).0
      invariant foreign[i, j] == Scan(data, inversed, i, j, k).1
    {
      var tmp := Add(accumulator[i - 1, j - k - 1], data[i][k]);
      if tmp.Val? && Better(inversed, tmp.v, accumulator[i, j]) {
        accumulator[i, j] := tmp.v;
        foreign[i, j] := j - k - 1;
      }
    }
  }

  method FillTables(data: Samples, inversed: bool, accumulator: array2<Fixed>, foreign: array2<nat>)
    requires !Degenerate(data) && WellSampled(data) && Shaped(data, accumulator, foreign)
    requires forall i, j :: 0 <= i < |data| && 0 <= j <= |data[0]| ==> accumulator[i, j] == 0 && foreign[i, j] == 0
    modifies accumulator, foreign
    ensures Filled(data, inversed, accumulator, foreign, |data|, 0)
  {
    var n, s := |data|, |data[0]|;
    forall j | 1 <= j <= s {
      accumulator[0, j] := data[0][j - 1];
    }
    for i := 1 to n
      invariant Filled(data, inversed, accumulator, foreign, i, 1)
    {
      for j := 1 to s + 1
        invariant Filled(data, inversed, accumulator, foreign, i, j)
      {
        FillCell(data, inversed, accumulator, foreign, i, j);
      }
    }
  }

  /** The parts handed out to a source, and those of the sources before it. */
  lemma LastPart(data: Samples, inversed: bool, parts: seq<nat>, i: nat, j: nat)
    requires WellSampled(data) && i < |data| && j <= |data[0]| && i < |parts|
    requires parts[..i + 1] == Parts(data, inversed, i, j)
    ensures parts[i] == j - Cell(data, inversed, i, j).1
    ensures i > 0 ==> parts[..i] == Parts(data, inversed, i - 1, Cell(data, inversed, i, j).1)
  {
    assert parts[i] == parts[..i + 1][i];
    assert parts[..i] == parts[..i + 1][..i];
  }

  lemma HandedOut(data: Samples, inversed: bool, parts: seq<nat>, i: nat, j: nat, left: nat)
    requires !Degenerate(data) && WellSampled(data) && i < |data| && j <= |data[0]| && i < |parts|
    requires parts[..i + 1] == Parts(data, inversed, i, j) && left == Cell(data, inversed, i, j).1
    ensures SharePart(j, left, |data[0]| * S) == Val(Share(parts[i], |data[0]|))
    ensures i > 0 ==> parts[..i] == Parts(data, inversed, i - 1, left)
  {
    LastPart(data, inversed, parts, i, j);
    SharePartIsShare(j, left, |data[0]|);
  }

  method BackTrack(data: Samples, inversed: bool, accumulator: array2<Fixed>, foreign: array2<nat>)
    returns (distribution: seq<Fixed>)
    requires !Degenerate(data) && WellSampled(data) && Shaped(data, accumulator, foreign)
    requires Filled(data, inversed, accumulator, foreign, |data|, 0)
    ensures distribution == Shares(Parts(data, inversed, |data| - 1, |data[0]|), |data[0]|)
  {
    var n, s := |data|, |data[0]|;
    ghost var parts := Parts(data, inversed, n - 1, s);
    var partsLeft: nat, current := s, n;
    distribution := seq(n, _ => 0);
    while partsLeft > 0 && current != 0
      invariant 0 <= current <= n && partsLeft <= s && |distribution| == n
      invariant current > 0 ==> parts[..current] == Parts(data, inversed, current - 1, partsLeft)
      invariant forall k :: 0 <= k < current ==> distribution[k] == 0
      invariant forall k :: current <= k < n ==> distribution[k] == Share(parts[k], s)
      decreases current
    {
      current := current - 1;
      var left := foreign[current, partsLeft];
      HandedOut(data, inversed, parts, current, partsLeft, left);
      var part := SharePart(partsLeft, left, s * S);
      distribution := distribution[current := part.v];
      partsLeft := left;
    }
    if current > 0 {
      NoPartsLeft(data, inversed, current - 1);
      assert forall k :: 0 <= k < current ==> parts[k] == parts[..current][k];
    }
  }

  method Tabulate(data: Samples, inversed: bool) returns (distribution: seq<Fixed>, best: Fixed)
    requires !Degenerate(data) && WellSampled(data)
    ensures distribution == Shares(Parts(data, inversed, |data| - 1, |data[0]|), |data[0]|)
    ensures best == Cell(data, inversed, |data| - 1, |data[0]|).0
  {
    var n, s := |data|, |data[0]|;
    var accumulator := new Fixed[n, s + 1]((_, _) => 0);
    var foreign := new nat[n, s + 1]((_, _) => 0);
    FillTables(data, inversed, accumulator, foreign);
    distribution := BackTrack(data, inversed, accumulator, foreign);
    best := accumulator[n - 1, s];
  }

  method FindDistribution(data: Samples, inversed: bool) returns (distribution: seq<Fixed>, best: Fixed)
    requires data == [] || WellSampled(data)
    ensures Degenerate(data) ==> distribution == [] && best == 0
    ensures !Degenerate(data) ==>
              var parts := Parts(data, inversed, |data| - 1, |data[0]|);
              distribution == Shares(parts, |data[0]|) && Selects(data, parts, |data|, |data[0]|, best)
    ensures !Degenerate(data) && NonNegative(data) ==> Extremal(data, inversed, |data|, |data[0]|, best)
  {
    if Degenerate(data) {
      return [], 0;
    }
    distribution, best := Tabulate(data, inversed);
    CellOptimal(data, inversed, |data| - 1, |data[0]|);
  }
}
