/**
  Bounding boxes of the cube type and the distances its nearest-neighbour search
  orders by, over the real numbers.  A cube of fewer dimensions has zero in the
  missing ones.
 */
module Cube {
  import opened Machine

  /** NDBOX: a point stores one corner, a box two; the corners need not be ordered. */
  datatype Cube = Point(x: seq<real>) | Box(x: seq<real>)

  predicate Valid(c: Cube) { c.Box? ==> |c.x| % 2 == 0 }

  function Dim(c: Cube): nat { if c.Point? then |c.x| else |c.x| / 2 }

  function LL(c: Cube, i: nat): real
    requires Valid(c) && i < Dim(c)
  {
    c.x[i]
  }

  function UR(c: Cube, i: nat): real
    requires Valid(c) && i < Dim(c)
  {
    if c.Point? then c.x[i] else c.x[i + Dim(c)]
  }

  function Min(a: real, b: real): real { if a < b then a else b }
  function Max(a: real, b: real): real { if a > b then a else b }

  /** The extent of c along axis i. */
  function Lo(c: Cube, i: nat): real
    requires Valid(c)
  {
    if i < Dim(c) then Min(LL(c, i), UR(c, i)) else 0.0
  }

  function Hi(c: Cube, i: nat): real
    requires Valid(c)
  {
    if i < Dim(c) then Max(LL(c, i), UR(c, i)) else 0.0
  }

  // ---------------------------------------------------------------------- union

  /** u is the smallest box around a and b. */
  ghost predicate IsUnion(u: Cube, a: Cube, b: Cube) {
    && Valid(u) && Valid(a) && Valid(b)
    && forall i: nat :: UnionAt(u, a, b, i)
  }

  ghost predicate UnionAt(u: Cube, a: Cube, b: Cube, i: nat)
    requires Valid(u) && Valid(a) && Valid(b)
  {
    Lo(u, i) == Min(Lo(a, i), Lo(b, i)) && Hi(u, i) == Max(Hi(a, i), Hi(b, i))
  }

  /** The two corners of dimension i have been filled in. */
  predicate Filled(x: seq<real>, dim: nat, a: Cube, b: Cube, i: nat)
    requires Valid(a) && Valid(b) && |x| == 2 * dim && i < dim
  {
    x[i] == Min(Lo(a, i), Lo(b, i)) && x[i + dim] == Max(Hi(a, i), Hi(b, i))
  }

  predicate FilledTo(x: seq<real>, dim: nat, a: Cube, b: Cube, n: nat)
    requires Valid(a) && Valid(b) && |x| == 2 * dim && n <= dim
  {
    forall i :: 0 <= i < n ==> Filled(x, dim, a, b, i)
  }

  /** Fills in the two corners of dimension i. */
  method PutCorners(x: array<real>, dim: nat, i: nat, lo: real, hi: real, ghost a: Cube, ghost b: Cube)
    requires Valid(a) && Valid(b) && x.Length == 2 * dim && i < dim && FilledTo(x[..], dim, a, b, i)
    requires lo == Min(Lo(a, i), Lo(b, i)) && hi == Max(Hi(a, i), Hi(b, i))
    modifies x
    ensures FilledTo(x[..], dim, a, b, i + 1)
  {
    ghost var was := x[..];
    x[i] := lo;
    x[i + dim] := hi;
    forall j | 0 <= j < i + 1
      ensures Filled(x[..], dim, a, b, j)
    {
      if j < i { assert Filled(was, dim, a, b, j); }
    }
  }

  /** The loop of cube_union_v0 for a the cube with at least as many dimensions. */
  method FillUnion(a: Cube, b: Cube) returns (x: array<real>)
    requires Valid(a) && Valid(b) && Dim(b) <= Dim(a)
    ensures fresh(x) && x.Length == 2 * Dim(a) && FilledTo(x[..], Dim(a), a, b, Dim(a))
  {
    var dim := Dim(a);
    x := new real[2 * dim](_ => 0.0);
    var i := 0;
    while i < Dim(b)
      invariant 0 <= i <= Dim(b) && FilledTo(x[..], dim, a, b, i)
    {
      var lo, hi := Min(Min(LL(a, i), UR(a, i)), Min(LL(b, i), UR(b, i))), Max(Max(LL(a, i), UR(a, i)), Max(LL(b, i), UR(b, i)));
      PutCorners(x, dim, i, lo, hi, a, b);
      i := i + 1;
    }
    while i < dim
      invariant Dim(b) <= i <= dim && FilledTo(x[..], dim, a, b, i)
    {
      PutCorners(x, dim, i, Min(0.0, Min(LL(a, i), UR(a, i))), Max(0.0, Max(LL(a, i), UR(a, i))), a, b);
      i := i + 1;
    }
  }

  /** cube_is_point_internal */
  method IsPoint(x: seq<real>, dim: nat) returns (r: bool)
    requires |x| == 2 * dim
    ensures r <==> forall i :: 0 <= i < dim ==> x[i] == x[i + dim]
  {
    for i := 0 to dim
      invariant forall j :: 0 <= j < i ==> x[j] == x[j + dim]
    {
      if x[i] != x[i + dim] {
        return false;
      }
    }
    return true;
  }

  lemma {:induction false} FilledUnion(u: Cube, x: seq<real>, a: Cube, b: Cube, i: nat)
    requires Valid(a) && Valid(b) && Dim(b) <= Dim(a) && |x| == 2 * Dim(a)
    requires FilledTo(x, Dim(a), a, b, Dim(a))
    requires u == Box(x) || (u == Point(x[..Dim(a)]) && forall j :: 0 <= j < Dim(a) ==> x[j] == x[j + Dim(a)])
    ensures Valid(u) && Dim(u) == Dim(a) && UnionAt(u, a, b, i)
  {
    if i < Dim(a) {
      assert Filled(x, Dim(a), a, b, i);
      LoHi(a, i);
      LoHi(b, i);
    }
  }

  lemma {:induction false} LoHi(c: Cube, i: nat)
    requires Valid(c)
    ensures Lo(c, i) <= Hi(c, i)
  {
  }

  /** cube_union_v0; `same` says that both arguments are one and the same datum. */
  method UnionV0(a: Cube, b: Cube, same: bool) returns (u: Cube)
    requires Valid(a) && Valid(b) && (same ==> a == b)
    ensures IsUnion(u, a, b) && Dim(u) == if Dim(a) < Dim(b) then Dim(b) else Dim(a)
  {
    if same {
      return a;
    }
    var big, small := a, b;
    if Dim(a) < Dim(b) {
      big, small := b, a;
    }
    var dim := Dim(big);
    var x := FillUnion(big, small);
    var point := IsPoint(x[..], dim);
    u := if point then Point(x[..dim]) else Box(x[..]);
    ghost var xs := x[..];
    assert xs[..dim] == x[..dim];
    forall i: nat
      ensures Valid(u) && Dim(u) == dim && UnionAt(u, a, b, i)
    {
      FilledUnion(u, xs, big, small, i);
      UnionSwap(u, big, small, i);
    }
    FilledUnion(u, xs, big, small, 0);
  }

  lemma {:induction false} UnionSwap(u: Cube, a: Cube, b: Cube, i: nat)
    requires Valid(u) && Valid(a) && Valid(b) && UnionAt(u, a, b, i)
    ensures UnionAt(u, b, a, i)
  {
  }

  // ------------------------------------------------------------------- covering

  ghost predicate CoversAt(u: Cube, m: Cube, i: nat)
    requires Valid(u) && Valid(m)
  {
    Lo(u, i) <= Lo(m, i) && Hi(m, i) <= Hi(u, i)
  }

  ghost predicate Covers(u: Cube, m: Cube) {
    Valid(u) && Valid(m) && forall i: nat :: CoversAt(u, m, i)
  }

  /** Unions of unions, of any shape, over leaf cubes. */
  datatype Tree = Leaf(cube: Cube) | Node(cube: Cube, left: Tree, right: Tree)

  ghost predicate BuiltByUnions(t: Tree) {
    match t
    case Leaf(c) => Valid(c)
    case Node(c, l, r) => BuiltByUnions(l) && BuiltByUnions(r) && IsUnion(c, l.cube, r.cube)
  }

  ghost predicate Member(t: Tree, m: Cube) {
    match t
    case Leaf(c) => m == c
    case Node(_, l, r) => Member(l, m) || Member(r, m)
  }

  lemma {:induction false} CoversTrans(u: Cube, v: Cube, m: Cube)
    requires Covers(u, v) && Covers(v, m)
    ensures Covers(u, m)
  {
    forall i: nat
      ensures CoversAt(u, m, i)
    {
      assert CoversAt(u, v, i) && CoversAt(v, m, i);
    }
  }

  lemma {:induction false} UnionCovers(u: Cube, a: Cube, b: Cube)
    requires IsUnion(u, a, b)
    ensures Covers(u, a) && Covers(u, b)
  {
    forall i: nat
      ensures CoversAt(u, a, i) && CoversAt(u, b, i)
    {
      assert UnionAt(u, a, b, i);
    }
  }

  lemma {:induction false} TreeCovers(t: Tree, m: Cube)
    requires BuiltByUnions(t) && Member(t, m)
    ensures Covers(t.cube, m)
  {
    if t.Node? {
      UnionCovers(t.cube, t.left.cube, t.right.cube);
      if Member(t.left, m) {
        TreeCovers(t.left, m);
        CoversTrans(t.cube, t.left.cube, m);
      } else {
        TreeCovers(t.right, m);
        CoversTrans(t.cube, t.right.cube, m);
      }
    }
  }

  // ------------------------------------------------------------------ distances

  /** distance_1D on intervals given by unordered end points. */
  function Distance1D(a1: real, a2: real, b1: real, b2: real): real {
    if a1 <= b1 && a2 <= b1 && a1 <= b2 && a2 <= b2 then Min(b1, b2) - Max(a1, a2)
    else if a1 > b1 && a2 > b1 && a1 > b2 && a2 > b2 then Min(a1, a2) - Max(b1, b2)
    else 0.0
  }

  /** The gap between two ordered intervals. */
  function Gap(al: real, ah: real, bl: real, bh: real): (r: real)
    ensures r >= 0.0
  {
    if ah <= bl then bl - ah else if al > bh then al - bh else 0.0
  }

  lemma {:induction false} DistanceIsGap(a1: real, a2: real, b1: real, b2: real)
    ensures Distance1D(a1, a2, b1, b2) == Gap(Min(a1, a2), Max(a1, a2), Min(b1, b2), Max(b1, b2))
  {
  }

  /** The gap along axis i. */
  function AxisGap(a: Cube, b: Cube, i: nat): real
    requires Valid(a) && Valid(b)
  {
    Gap(Lo(a, i), Hi(a, i), Lo(b, i), Hi(b, i))
  }

  function MaxDim(a: Cube, b: Cube): nat { if Dim(a) < Dim(b) then Dim(b) else Dim(a) }

  /** Beyond both dimension counts there is no gap. */
  lemma {:induction false} NoGapBeyond(a: Cube, b: Cube, i: nat)
    requires Valid(a) && Valid(b) && i >= MaxDim(a, b)
    ensures AxisGap(a, b, i) == 0.0
  {
  }

  lemma {:induction false} GapSym(a: Cube, b: Cube, i: nat)
    requires Valid(a) && Valid(b)
    ensures AxisGap(a, b, i) == AxisGap(b, a, i)
  {
    LoHi(a, i);
    LoHi(b, i);
  }

  /** A larger box is no farther from the query along any axis. */
  lemma {:induction false} GapShrinks(u: Cube, m: Cube, q: Cube, i: nat)
    requires Valid(q) && Covers(u, m)
    ensures AxisGap(u, q, i) <= AxisGap(m, q, i)
  {
    assert CoversAt(u, m, i);
    LoHi(m, i);
    LoHi(q, i);
  }

  datatype Metric = Taxicab | Chebyshev | EuclideanSquared

  /** What one axis contributes to the distance so far. */
  function Accumulate(k: Metric, d: real, gap: real): real {
    match k
    case Taxicab => d + gap
    case Chebyshev => if gap > d then gap else d
    case EuclideanSquared => d + gap * gap
  }

  /** The distance over the first n axes. */
  function Distance(k: Metric, a: Cube, b: Cube, n: nat): (r: real)
    requires Valid(a) && Valid(b)
    ensures r >= 0.0
  {
    if n == 0 then 0.0
    else
      SquarePositive(AxisGap(a, b, n - 1));
      Accumulate(k, Distance(k, a, b, n - 1), AxisGap(a, b, n - 1))
  }

  lemma {:induction false} SquarePositive(x: real)
    ensures x * x >= 0.0
  {
  }

  lemma {:induction false} SquareMono(x: real, y: real)
    requires 0.0 <= x <= y
    ensures x * x <= y * y
  {
    assert y * y - x * x == (y - x) * (y + x);
  }

  lemma {:induction false} AccumulateMono(k: Metric, d: real, e: real, g: real, h: real)
    requires 0.0 <= d <= e && 0.0 <= g <= h
    ensures Accumulate(k, d, g) <= Accumulate(k, e, h)
  {
    SquareMono(g, h);
  }

  lemma {:induction false} MoreAxes(k: Metric, a: Cube, b: Cube, n: nat, m: nat)
    requires Valid(a) && Valid(b) && MaxDim(a, b) <= n <= m
    ensures Distance(k, a, b, n) == Distance(k, a, b, m)
  {
    if n < m {
      MoreAxes(k, a, b, n, m - 1);
      NoGapBeyond(a, b, m - 1);
    }
  }

  lemma {:induction false} DistanceShrinks(k: Metric, u: Cube, m: Cube, q: Cube, n: nat)
    requires Valid(q) && Covers(u, m)
    ensures Distance(k, u, q, n) <= Distance(k, m, q, n)
  {
    if n > 0 {
      DistanceShrinks(k, u, m, q, n - 1);
      GapShrinks(u, m, q, n - 1);
      AccumulateMono(k, Distance(k, u, q, n - 1), Distance(k, m, q, n - 1), AxisGap(u, q, n - 1), AxisGap(m, q, n - 1));
    }
  }

  lemma {:induction false} DistanceSym(k: Metric, a: Cube, b: Cube, n: nat)
    requires Valid(a) && Valid(b)
    ensures Distance(k, a, b, n) == Distance(k, b, a, n)
  {
    if n > 0 {
      DistanceSym(k, a, b, n - 1);
      GapSym(a, b, n - 1);
    }
  }

  /** The two loops that distance_taxicab, distance_chebyshev and cube_distance share (before the square root). */
  method DistanceLoops(k: Metric, a: Cube, b: Cube) returns (distance: real)
    requires Valid(a) && Valid(b)
    ensures distance == Distance(k, a, b, MaxDim(a, b))
  {
    var big, small := a, b;
    if Dim(a) < Dim(b) {
      big, small := b, a;
    }
    distance := 0.0;
    var i := 0;
    while i < Dim(small)
      invariant 0 <= i <= Dim(small) && distance == Distance(k, big, small, i)
    {
      DistanceIsGap(LL(big, i), UR(big, i), LL(small, i), UR(small, i));
      distance := Accumulate(k, distance, Distance1D(LL(big, i), UR(big, i), LL(small, i), UR(small, i)));
      i := i + 1;
    }
    while i < Dim(big)
      invariant Dim(small) <= i <= Dim(big) && distance == Distance(k, big, small, i)
    {
      DistanceIsGap(LL(big, i), UR(big, i), 0.0, 0.0);
      distance := Accumulate(k, distance, Distance1D(LL(big, i), UR(big, i), 0.0, 0.0));
      i := i + 1;
    }
    DistanceSym(k, a, b, Dim(big));
  }

  /** The gaps between two cubes along the first n axes. */
  function Gaps(a: Cube, b: Cube, n: nat): (gs: seq<real>)
    requires Valid(a) && Valid(b)
    ensures |gs| == n && forall i :: 0 <= i < n ==> gs[i] == AxisGap(a, b, i)
  {
    if n == 0 then [] else Gaps(a, b, n - 1) + [AxisGap(a, b, n - 1)]
  }

  function Total(gs: seq<real>): real {
    if gs == [] then 0.0 else gs[0] + Total(gs[1..])
  }

  function Square(x: real): real { x * x }

  /** The squares of the first n elements. */
  function Squares(gs: seq<real>, n: nat): (ss: seq<real>)
    requires n <= |gs|
    ensures |ss| == n && forall i :: 0 <= i < n ==> ss[i] == Square(gs[i])
  {
    if n == 0 then [] else Squares(gs, n - 1) + [Square(gs[n - 1])]
  }

  lemma {:induction false} SquaresSame(gs: seq<real>, hs: seq<real>, n: nat)
    requires n <= |gs| && n <= |hs| && forall i :: 0 <= i < n ==> gs[i] == hs[i]
    ensures Squares(gs, n) == Squares(hs, n)
  {
    if n > 0 { SquaresSame(gs, hs, n - 1); }
  }

  lemma {:induction false} TotalAppend(gs: seq<real>, g: real)
    ensures Total(gs + [g]) == Total(gs) + g
  {
    if gs == [] {
      assert [g][1..] == [];
    } else {
      assert (gs + [g])[1..] == gs[1..] + [g];
      TotalAppend(gs[1..], g);
    }
  }

  /** The taxicab distance is the sum of the gaps. */
  lemma {:induction false} TaxicabIsSum(a: Cube, b: Cube, n: nat)
    requires Valid(a) && Valid(b)
    ensures Distance(Taxicab, a, b, n) == Total(Gaps(a, b, n))
  {
    if n > 0 {
      TaxicabIsSum(a, b, n - 1);
      assert Gaps(a, b, n) == Gaps(a, b, n - 1) + [AxisGap(a, b, n - 1)];
      TotalAppend(Gaps(a, b, n - 1), AxisGap(a, b, n - 1));
    }
  }

  /** The Euclidean distance is the root of the sum of the squared gaps. */
  lemma {:induction false} EuclideanIsSum(a: Cube, b: Cube, n: nat)
    requires Valid(a) && Valid(b)
    ensures Distance(EuclideanSquared, a, b, n) == Total(Squares(Gaps(a, b, n), n))
  {
    if n > 0 {
      var g := AxisGap(a, b, n - 1);
      EuclideanIsSum(a, b, n - 1);
      SquaresSame(Gaps(a, b, n), Gaps(a, b, n - 1), n - 1);
      TotalAppend(Squares(Gaps(a, b, n - 1), n - 1), Square(g));
      assert Accumulate(EuclideanSquared, Distance(EuclideanSquared, a, b, n - 1), g)
          == Distance(EuclideanSquared, a, b, n - 1) + Square(g);
    }
  }

  /** The Chebyshev distance is the greatest gap, or zero where there is no axis. */
  lemma {:induction false} ChebyshevIsGreatest(a: Cube, b: Cube, n: nat)
    requires Valid(a) && Valid(b)
    ensures forall i :: 0 <= i < n ==> AxisGap(a, b, i) <= Distance(Chebyshev, a, b, n)
    ensures if n == 0 then Distance(Chebyshev, a, b, n) == 0.0
            else exists i :: 0 <= i < n && Distance(Chebyshev, a, b, n) == AxisGap(a, b, i)
  {
    if n > 0 {
      ChebyshevIsGreatest(a, b, n - 1);
      GapPositive(a, b, n - 1);
      if AxisGap(a, b, n - 1) >= Distance(Chebyshev, a, b, n - 1) {
        assert Distance(Chebyshev, a, b, n) == AxisGap(a, b, n - 1);
      }
    }
  }

  lemma {:induction false} GapPositive(a: Cube, b: Cube, i: nat)
    requires Valid(a) && Valid(b)
    ensures AxisGap(a, b, i) >= 0.0
  {
  }

  /** Every value of the axis that lies in the cube; a missing dimension is zero. */
  predicate Within(c: Cube, i: nat, x: real)
    requires Valid(c)
  {
    Lo(c, i) <= x <= Hi(c, i)
  }

  /** The gap along an axis is the least distance between values of the two cubes. */
  lemma {:induction false} GapIsLeast(a: Cube, b: Cube, i: nat)
    requires Valid(a) && Valid(b)
    ensures forall x, y :: Within(a, i, x) && Within(b, i, y) ==> AxisGap(a, b, i) <= Apart(x, y)
    ensures exists x, y :: Within(a, i, x) && Within(b, i, y) && AxisGap(a, b, i) == Apart(x, y)
  {
    LoHi(a, i);
    LoHi(b, i);
    var x := if Hi(a, i) < Lo(b, i) then Hi(a, i) else Max(Lo(a, i), Lo(b, i));
    var y := if Hi(b, i) < Lo(a, i) then Hi(b, i) else Max(Lo(a, i), Lo(b, i));
    var x', y' := if Hi(b, i) < Lo(a, i) then Lo(a, i) else x, if Hi(a, i) < Lo(b, i) then Lo(b, i) else y;
    assert Within(a, i, x') && Within(b, i, y') && AxisGap(a, b, i) == Apart(x', y');
  }

  function Apart(x: real, y: real): real { if x < y then y - x else x - y }

  /** What a distance means, in terms of the gaps along the axes. */
  predicate Measures(k: Metric, gs: seq<real>, d: real) {
    match k
    case Taxicab => d == Total(gs)
    case EuclideanSquared => d == Total(Squares(gs, |gs|))
    case Chebyshev => (if gs == [] then d == 0.0 else d in gs) && forall i :: 0 <= i < |gs| ==> gs[i] <= d
  }

  lemma {:induction false} DistanceMeasures(k: Metric, a: Cube, b: Cube, n: nat)
    requires Valid(a) && Valid(b)
    ensures Measures(k, Gaps(a, b, n), Distance(k, a, b, n))
  {
    match k
    case Taxicab => TaxicabIsSum(a, b, n);
    case EuclideanSquared => EuclideanIsSum(a, b, n);
    case Chebyshev =>
      ChebyshevIsGreatest(a, b, n);
      if n > 0 {
        var i :| 0 <= i < n && Distance(Chebyshev, a, b, n) == AxisGap(a, b, i);
        assert Gaps(a, b, n)[i] == AxisGap(a, b, i);
      }
  }

  /** The distance of two cubes over all their axes. */
  method ComputeDistance(k: Metric, a: Cube, b: Cube) returns (distance: real)
    requires Valid(a) && Valid(b)
    ensures distance == Distance(k, a, b, MaxDim(a, b)) && Measures(k, Gaps(a, b, MaxDim(a, b)), distance)
  {
    DistanceMeasures(k, a, b, MaxDim(a, b));
    distance := DistanceLoops(k, a, b);
  }

  /** Distances over all axes of the two cubes. */
  function FullDistance(k: Metric, a: Cube, b: Cube): real
    requires Valid(a) && Valid(b)
  {
    Distance(k, a, b, MaxDim(a, b))
  }

  /**
    The distance to any nesting of unions never exceeds the distance to a member,
    for all three metrics and any mix of dimension counts.
   */
  lemma {:induction false} UnionNoFarther(k: Metric, t: Tree, m: Cube, q: Cube)
    requires BuiltByUnions(t) && Member(t, m) && Valid(q)
    ensures Valid(t.cube) && Valid(m) && FullDistance(k, t.cube, q) <= FullDistance(k, m, q)
  {
    TreeCovers(t, m);
    var n := MaxDim(t.cube, q) + MaxDim(m, q);
    MoreAxes(k, t.cube, q, MaxDim(t.cube, q), n);
    MoreAxes(k, m, q, MaxDim(m, q), n);
    DistanceShrinks(k, t.cube, m, q, n);
  }

  // ------------------------------------------------------------------ coordinates

  const CUBE_MAX_DIM: nat := 100

  const LEAST: wrapped := -0x8000_0000

  /** The coordinate made positive, in 32 bits: the least integer is its own negative. */
  function Positive(coord: wrapped): wrapped { if coord < 0 then Wrap32(-(coord as int)) else coord }

  /** The dimension a coordinate selects: (coord - 1) / 2 in 32 bits. */
  function Index(coord: wrapped): int { Wrap32(Positive(coord) - 1) / 2 }

  /** A value to order by, the error for coordinate 0, or a read at an index the cube does not have. */
  datatype Order = Value(v: real) | ZeroCoord | Outside

  /** The coordinate branch of g_cube_distance. */
  function CoordDistance(c: Cube, coord: wrapped, isLeaf: bool): Order
    requires Valid(c)
  {
    var inverse, k, index := coord < 0, Positive(coord), Index(coord);
    if coord == 0 then ZeroCoord
    else if k > 2 * Dim(c) then Value(if inverse then -0.0 else 0.0)
    else if index >= Dim(c) then Outside
    else
      var upper := (k - 1) % 2 == 1;
      var v :=
        if c.Point? then c.x[index]
        else if (if isLeaf then upper else inverse) then Max(c.x[index], c.x[index + Dim(c)])
        else Min(c.x[index], c.x[index + Dim(c)]);
      Value(if inverse then -v else v)
  }

  lemma {:induction false} LeastWraps()
    ensures Positive(LEAST) == LEAST && Index(LEAST) == 0x3FFF_FFFF
  {
  }

  lemma {:induction false} OrdinaryIndex(coord: wrapped)
    requires coord != 0 && coord != LEAST
    ensures Positive(coord) == (if coord < 0 then -coord else coord) > 0 && Index(coord) == (Positive(coord) - 1) / 2
  {
  }

  /** The code reads outside the cube if and only if the coordinate is the least 32-bit integer. */
  lemma {:induction false} OutsideIff(c: Cube, coord: wrapped, isLeaf: bool)
    requires Valid(c) && Dim(c) <= CUBE_MAX_DIM
    ensures CoordDistance(c, coord, isLeaf) == Outside <==> coord == LEAST
  {
    LeastWraps();
    if coord != 0 && coord != LEAST { OrdinaryIndex(coord); }
  }

  /** On an inner page the ordering value is the lower end, or minus the upper end, of the axis. */
  lemma {:induction false} InnerCoord(c: Cube, coord: wrapped)
    requires Valid(c) && coord != 0 && coord != LEAST
    ensures Index(coord) >= 0
    ensures CoordDistance(c, coord, false) == Value(if coord < 0 then -Hi(c, Index(coord)) else Lo(c, Index(coord)))
  {
    OrdinaryIndex(coord);
  }

  /** On a leaf an odd coordinate selects the lower end of the axis and an even one the upper; a negative sign inverts it. */
  lemma {:induction false} LeafCoordExact(c: Cube, coord: wrapped)
    requires Valid(c) && coord != 0 && coord != LEAST
    ensures var k := if coord < 0 then -(coord as int) else coord;
            var end := if k % 2 == 1 then Lo(c, (k - 1) / 2) else Hi(c, (k - 2) / 2);
            CoordDistance(c, coord, true) == Value(if coord < 0 then -end else end)
  {
    OrdinaryIndex(coord);
  }

  lemma {:induction false} LeafCoord(c: Cube, coord: wrapped)
    requires Valid(c) && coord != 0 && coord != LEAST
    ensures Index(coord) >= 0 && CoordDistance(c, coord, true).Value?
    ensures var v := CoordDistance(c, coord, true).v;
            if coord < 0 then -Hi(c, Index(coord)) <= v <= -Lo(c, Index(coord)) else Lo(c, Index(coord)) <= v <= Hi(c, Index(coord))
  {
    OrdinaryIndex(coord);
  }

  /** The ordering value of any nesting of unions never exceeds that of a member, leaf or inner. */
  lemma {:induction false} CoordNoGreater(t: Tree, m: Cube, coord: wrapped, isLeaf: bool)
    requires BuiltByUnions(t) && Member(t, m) && coord != 0 && coord != LEAST
    ensures Valid(t.cube) && Valid(m)
    ensures var a, b := CoordDistance(t.cube, coord, false), CoordDistance(m, coord, isLeaf);
            a.Value? && b.Value? && a.v <= b.v
  {
    TreeCovers(t, m);
    InnerCoord(t.cube, coord);
    InnerCoord(m, coord);
    LeafCoord(m, coord);
    assert CoversAt(t.cube, m, Index(coord));
  }
}
