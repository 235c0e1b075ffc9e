/**
 Skill-aware cosine similarity between structural fingerprints and the penalty of a candidate
 against a bounded bank of recent ones, for fingerprints of any dimension.
 */
module Diversity {
  import opened RealFacts
  import opened Sequences

  type Vector = seq<real>

  function Dot(a: Vector, b: Vector): real
    requires |a| == |b|
  {
    if a == [] then 0.0 else Dot(a[1..], b[1..]) + a[0] * b[0]
  }

  /** A square root on the non-negative reals. */
  ghost predicate SquareRoot(root: real -> real) {
    forall x :: x >= 0.0 ==> root(x) >= 0.0 && root(x) * root(x) == x
  }

  function Norm(a: Vector, root: real -> real): real {
    root(Dot(a, a))
  }

  const NEGLIGIBLE := 0.000000000001

  function Ratio(d: real, na: real, nb: real): real
    requires na > 0.0 && nb > 0.0
  {
    assert na * nb > 0.0;
    d / (na * nb)
  }

  lemma RatioTimesNorms(d: real, na: real, nb: real)
    requires na > 0.0 && nb > 0.0
    ensures Ratio(d, na, nb) * (na * nb) == d
  {
    var n := na * nb;
    assert n > 0.0;
  }

  function Cosine(a: Vector, b: Vector, root: real -> real): real
    requires |a| == |b|
  {
    var na, nb := Norm(a, root), Norm(b, root);
    if na < NEGLIGIBLE || nb < NEGLIGIBLE then 0.0 else Ratio(Dot(a, b), na, nb)
  }

  // ---- Cauchy-Schwarz ----------------------------------------------------------------------

  lemma {:induction false} DotSquareNonNegative(a: Vector)
    ensures Dot(a, a) >= 0.0
  {
    if a != [] {
      DotSquareNonNegative(a[1..]);
    }
  }

  lemma {:induction false} DotSymmetric(a: Vector, b: Vector)
    requires |a| == |b|
    ensures Dot(a, b) == Dot(b, a)
  {
    if a != [] {
      DotSymmetric(a[1..], b[1..]);
    }
  }

  lemma CauchySchwarzStep(p: real, q: real, c: real, x: real, y: real)
    requires p >= 0.0 && q >= 0.0 && c * c <= p * q
    ensures (c + x * y) * (c + x * y) <= (p + x * x) * (q + y * y)
  {
    var xx, yy, xy := x * x, y * y, x * y;
    SquareNonNegative(x);
    SquareNonNegative(y);
    Regroup(x, y, x, y);
    Regroup(c, xy, c, xy);
    Regroup(p, yy, q, xx);
    SquareNonNegative(xy);
    ProductMonotone(c * c, p * q, xy * xy);
    MeanBoundsRoot(p * yy, q * xx, c * xy);
    SquareOfSum(c, xy);
    assert (p + xx) * (q + yy) == p * q + p * yy + q * xx + xx * yy;
  }

  /** One more coordinate, for the three products before and after. */
  lemma CauchySchwarzExtends(p: real, q: real, c: real, x: real, y: real, p': real, q': real, c': real)
    requires p >= 0.0 && q >= 0.0 && c * c <= p * q
    requires p' == p + x * x && q' == q + y * y && c' == c + x * y
    ensures c' * c' <= p' * q'
  {
    CauchySchwarzStep(p, q, c, x, y);
  }

  lemma {:induction false} CauchySchwarz(a: Vector, b: Vector)
    requires |a| == |b|
    ensures Dot(a, b) * Dot(a, b) <= Dot(a, a) * Dot(b, b)
  {
    if a == [] {
      assert Dot(a, b) == 0.0 && Dot(a, a) == 0.0;
    } else {
      CauchySchwarz(a[1..], b[1..]);
      DotSquareNonNegative(a[1..]);
      DotSquareNonNegative(b[1..]);
      CauchySchwarzExtends(Dot(a[1..], a[1..]), Dot(b[1..], b[1..]), Dot(a[1..], b[1..]), a[0], b[0],
                           Dot(a, a), Dot(b, b), Dot(a, b));
    }
  }

  lemma BoundedByRoots(d: real, p: real, q: real, na: real, nb: real)
    requires na > 0.0 && nb > 0.0 && na * na == p && nb * nb == q && d * d <= p * q
    ensures -1.0 <= Ratio(d, na, nb) <= 1.0
  {
    var m := na * nb;
    assert m > 0.0;
    assert d * d <= m * m by {
      Regroup(na, nb, na, nb);
    }
    RootMonotone(d, m);
    QuotientInRange(d, m);
  }

  lemma CosineInRange(a: Vector, b: Vector, root: real -> real)
    requires |a| == |b| && SquareRoot(root)
    ensures -1.0 <= Cosine(a, b, root) <= 1.0
  {
    DotSquareNonNegative(a);
    DotSquareNonNegative(b);
    var na, nb := Norm(a, root), Norm(b, root);
    if na >= NEGLIGIBLE && nb >= NEGLIGIBLE {
      CauchySchwarz(a, b);
      BoundedByRoots(Dot(a, b), Dot(a, a), Dot(b, b), na, nb);
    }
  }

  function Square(x: real): real { x * x }

  /** The summed squares of the coordinates of `x * a - y * b`. */
  function Gap(a: Vector, b: Vector, x: real, y: real): real
    requires |a| == |b|
  {
    if a == [] then 0.0 else Gap(a[1..], b[1..], x, y) + Square(a[0] * x - b[0] * y)
  }

  predicate Proportional(a: Vector, b: Vector, x: real, y: real)
    requires |a| == |b|
  {
    forall i :: 0 <= i < |a| ==> a[i] * x == b[i] * y
  }

  lemma SquareOfGap(p: real, q: real)
    ensures Square(p - q) >= 0.0 && (Square(p - q) == 0.0 <==> p == q)
  {
    SquareNonNegative(p - q);
    SquareIsZeroExactly(p - q);
  }

  lemma ProportionalSplits(a: Vector, b: Vector, x: real, y: real)
    requires |a| == |b| && a != []
    ensures Proportional(a, b, x, y) <==> a[0] * x == b[0] * y && Proportional(a[1..], b[1..], x, y)
  {
    assert forall i :: 1 <= i < |a| ==> a[i] == a[1..][i - 1] && b[i] == b[1..][i - 1];
  }

  lemma {:induction false} NoGapExactly(a: Vector, b: Vector, x: real, y: real)
    requires |a| == |b|
    ensures Gap(a, b, x, y) >= 0.0
    ensures Gap(a, b, x, y) == 0.0 <==> Proportional(a, b, x, y)
  {
    if a != [] {
      NoGapExactly(a[1..], b[1..], x, y);
      SquareOfGap(a[0] * x, b[0] * y);
      ProportionalSplits(a, b, x, y);
    }
  }

  function Quadratic(xx: real, xy: real, yy: real, p: real, d: real, q: real): real {
    xx * p - 2.0 * (xy * d) + yy * q
  }

  lemma GapStep(xx: real, xy: real, yy: real, p: real, d: real, q: real, uu: real, uv: real, vv: real)
    ensures Quadratic(xx, xy, yy, p, d, q) + Quadratic(xx, xy, yy, uu, uv, vv)
         == Quadratic(xx, xy, yy, p + uu, d + uv, q + vv)
  {
    Distributes(xx, p, uu);
    Distributes(xy, d, uv);
    Distributes(yy, q, vv);
  }

  lemma {:induction false} GapExpands(a: Vector, b: Vector, x: real, y: real)
    requires |a| == |b|
    ensures Gap(a, b, x, y) == Quadratic(x * x, x * y, y * y, Dot(a, a), Dot(a, b), Dot(b, b))
  {
    if a != [] {
      GapExpands(a[1..], b[1..], x, y);
      SquareOfDifference(a[0], x, b[0], y);
      GapStep(x * x, x * y, y * y, Dot(a[1..], a[1..]), Dot(a[1..], b[1..]), Dot(b[1..], b[1..]),
              a[0] * a[0], a[0] * b[0], b[0] * b[0]);
    }
  }

  lemma GapOfNorms(g: real, p: real, q: real, d: real, na: real, nb: real)
    requires na > 0.0 && nb > 0.0 && na * na == p && nb * nb == q
    requires g == Quadratic(nb * nb, nb * na, na * na, p, d, q)
    ensures g == 0.0 <==> Ratio(d, na, nb) == 1.0
  {
    var m, r := na * nb, Ratio(d, na, nb);
    assert m > 0.0 && r * m == d && nb * na == m;
    assert q * p == m * m by {
      Regroup(nb, nb, na, na);
      assert q * p == (nb * na) * (nb * na);
    }
    assert g == 2.0 * (m * m - m * d) by {
      assert p * q == q * p;
    }
    assert m * m - m * d == m * (m - d) by {
      Distributes(m, m, -d);
      assert m * -d == -(m * d);
    }
    NonZeroFactor(m, m - d);
    if r == 1.0 {
      assert d == m;
    } else if d == m {
      QuotientOfSelf(m);
    }
  }

  lemma RatioIsOneExactly(a: Vector, b: Vector, na: real, nb: real)
    requires |a| == |b| && na > 0.0 && nb > 0.0 && na * na == Dot(a, a) && nb * nb == Dot(b, b)
    ensures Ratio(Dot(a, b), na, nb) == 1.0 <==> Proportional(a, b, nb, na)
  {
    var g := Gap(a, b, nb, na);
    assert g == 0.0 <==> Ratio(Dot(a, b), na, nb) == 1.0 by {
      GapExpands(a, b, nb, na);
      GapOfNorms(g, Dot(a, a), Dot(b, b), Dot(a, b), na, nb);
    }
    NoGapExactly(a, b, nb, na);
  }

  lemma NormSquared(a: Vector, root: real -> real)
    requires SquareRoot(root)
    ensures Norm(a, root) * Norm(a, root) == Dot(a, a)
  {
    DotSquareNonNegative(a);
  }

  /** The equality case: a cosine is 1 exactly when neither vector is negligible and both point the
      same way. */
  lemma CosineIsOneExactly(a: Vector, b: Vector, root: real -> real)
    requires |a| == |b| && SquareRoot(root)
    ensures Cosine(a, b, root) == 1.0 <==>
              && Norm(a, root) >= NEGLIGIBLE && Norm(b, root) >= NEGLIGIBLE
              && Proportional(a, b, Norm(b, root), Norm(a, root))
  {
    var na, nb := Norm(a, root), Norm(b, root);
    if na >= NEGLIGIBLE && nb >= NEGLIGIBLE {
      NormSquared(a, root);
      NormSquared(b, root);
      RatioIsOneExactly(a, b, na, nb);
    }
  }

  /** The cosine times both norms is the dot product; a norm below 1e-12 makes it zero. */
  lemma CosineExactly(a: Vector, b: Vector, root: real -> real)
    requires |a| == |b| && SquareRoot(root)
    ensures var na, nb, c := Norm(a, root), Norm(b, root), Cosine(a, b, root);
            && na * na == Dot(a, a) && nb * nb == Dot(b, b)
            && (if na < 0.000000000001 || nb < 0.000000000001 then c == 0.0 else c * (na * nb) == Dot(a, b))
  {
    NormSquared(a, root);
    NormSquared(b, root);
    var na, nb := Norm(a, root), Norm(b, root);
    if na >= NEGLIGIBLE && nb >= NEGLIGIBLE {
      RatioTimesNorms(Dot(a, b), na, nb);
    }
  }

  lemma CosineSymmetric(a: Vector, b: Vector, root: real -> real)
    requires |a| == |b|
    ensures Cosine(a, b, root) == Cosine(b, a, root)
  {
    DotSymmetric(a, b);
    assert Norm(a, root) * Norm(b, root) == Norm(b, root) * Norm(a, root);
  }

  lemma SelfCosine(a: Vector, root: real -> real)
    requires SquareRoot(root)
    ensures Cosine(a, a, root) == if Norm(a, root) < NEGLIGIBLE then 0.0 else 1.0
  {
    DotSquareNonNegative(a);
    var na := Norm(a, root);
    if na >= NEGLIGIBLE {
      var d := Dot(a, a);
      assert na * na == d && d > 0.0;
      assert Cosine(a, a, root) == d / d;
      QuotientOfSelf(d);
    }
  }

  // ---- Similarity --------------------------------------------------------------------------

  datatype Fingerprint = Fingerprint(vector: Vector, fields: set<string>)

  function Overlap(a: set<string>, b: set<string>): real
    requires a + b != {}
  {
    |a * b| as real / |a + b| as real
  }

  function Sacs(a: Fingerprint, b: Fingerprint, root: real -> real): real
    requires |a.vector| == |b.vector|
  {
    if a.fields + b.fields == {} then 0.0
    else Cosine(a.vector, b.vector, root) * Overlap(a.fields, b.fields)
  }

  lemma SubsetCardinality<T>(a: set<T>, b: set<T>)
    requires a <= b
    ensures |a| <= |b|
    ensures |a| == |b| ==> a == b
  {
    assert b == a + (b - a);
    assert |b| == |a| + |b - a|;
  }

  lemma OverlapInRange(a: set<string>, b: set<string>)
    requires a + b != {}
    ensures 0.0 <= Overlap(a, b) <= 1.0 && Overlap(a, b) == Overlap(b, a)
    ensures Overlap(a, b) == 1.0 <==> a == b
    ensures Overlap(a, b) == 0.0 <==> a !! b
  {
    assert a * b == b * a && a + b == b + a;
    SubsetCardinality(a * b, a + b);
    Portion(|a * b|, |a + b|);
    assert a == b <==> a * b == a + b by {
      if a * b == a + b {
        assert forall x :: x in a ==> x in a * b;
        assert forall x :: x in b ==> x in a * b;
      }
    }
  }

  /** Two fingerprints that changed the same fields in the same direction, neither negligible. */
  predicate SameDirection(a: Fingerprint, b: Fingerprint, root: real -> real)
    requires |a.vector| == |b.vector|
  {
    && a.fields == b.fields && a.fields != {}
    && Norm(a.vector, root) >= NEGLIGIBLE && Norm(b.vector, root) >= NEGLIGIBLE
    && Proportional(a.vector, b.vector, Norm(b.vector, root), Norm(a.vector, root))
  }

  /** Similarity is symmetric, lies in [-1, 1], vanishes for disjoint fields, and reaches 1 exactly
      when the same fields were changed in the same direction. */
  lemma SacsInRange(a: Fingerprint, b: Fingerprint, root: real -> real)
    requires |a.vector| == |b.vector| && SquareRoot(root)
    ensures -1.0 <= Sacs(a, b, root) <= 1.0
    ensures Sacs(a, b, root) == Sacs(b, a, root)
    ensures a.fields !! b.fields ==> Sacs(a, b, root) == 0.0
    ensures Sacs(a, b, root) == 1.0 <==> SameDirection(a, b, root)
  {
    assert a.fields + b.fields == b.fields + a.fields;
    if a.fields + b.fields != {} {
      CosineInRange(a.vector, b.vector, root);
      CosineSymmetric(a.vector, b.vector, root);
      CosineIsOneExactly(a.vector, b.vector, root);
      OverlapInRange(a.fields, b.fields);
      Damped(Cosine(a.vector, b.vector, root), Overlap(a.fields, b.fields));
    }
  }

  /** The similarity is the cosine, scaled down to the share of the changed fields that both changed. */
  lemma SacsExactly(a: Fingerprint, b: Fingerprint, root: real -> real)
    requires |a.vector| == |b.vector|
    ensures var both, either := |a.fields * b.fields|, |a.fields + b.fields|;
            if either == 0 then Sacs(a, b, root) == 0.0
            else Sacs(a, b, root) * either as real == Cosine(a.vector, b.vector, root) * both as real
  {
    if a.fields + b.fields != {} {
      var c, both, either := Cosine(a.vector, b.vector, root), |a.fields * b.fields|, |a.fields + b.fields|;
      var share := both as real / either as real;
      assert share * either as real == both as real;
      assert (c * share) * either as real == c * (share * either as real);
    }
  }

  /** A fingerprint that is not negligible is fully similar to itself. */
  lemma SacsSelf(a: Fingerprint, root: real -> real)
    requires SquareRoot(root) && a.fields != {} && Norm(a.vector, root) >= NEGLIGIBLE
    ensures Sacs(a, a, root) == 1.0
  {
    SelfCosine(a.vector, root);
    assert a.fields + a.fields == a.fields;
    OverlapInRange(a.fields, a.fields);
  }

  // ---- Lineages ----------------------------------------------------------------------------

  datatype Lineage = Lineage(mean: Vector, fields: set<string>, deltas: nat)

  function LineageSimilarity(a: Lineage, b: Lineage, root: real -> real): real
    requires |a.mean| == |b.mean|
  {
    if a.deltas == 0 || b.deltas == 0 then 0.0
    else Sacs(Fingerprint(a.mean, a.fields), Fingerprint(b.mean, b.fields), root)
  }

  function LineageDistance(a: Lineage, b: Lineage, root: real -> real): real
    requires |a.mean| == |b.mean|
  {
    if a.deltas == 0 && b.deltas == 0 then 0.0
    else if a.deltas == 0 || b.deltas == 0 then 1.0
    else Max(0.0, Min(1.0, 1.0 - LineageSimilarity(a, b, root)))
  }

  /** A symmetric distance in [0, 1] whose lower clamp never acts; two lineages that changed
      something are at distance zero exactly when they changed the same fields in the same
      direction. */
  lemma LineageDistanceInRange(a: Lineage, b: Lineage, root: real -> real)
    requires |a.mean| == |b.mean| && SquareRoot(root)
    ensures 0.0 <= LineageDistance(a, b, root) <= 1.0
    ensures LineageDistance(a, b, root) == LineageDistance(b, a, root)
    ensures a.deltas > 0 && b.deltas > 0 ==>
              (LineageDistance(a, b, root) == 0.0 <==>
                 SameDirection(Fingerprint(a.mean, a.fields), Fingerprint(b.mean, b.fields), root))
    ensures a.deltas > 0 && b.deltas > 0 && LineageSimilarity(a, b, root) >= 0.0 ==>
              LineageDistance(a, b, root) == 1.0 - LineageSimilarity(a, b, root)
  {
    SacsInRange(Fingerprint(a.mean, a.fields), Fingerprint(b.mean, b.fields), root);
  }

  /** Two lineages without a change are at distance zero, one without and one with at distance one, all
      others as far as their positive similarity falls short of one. */
  lemma LineageDistanceExactly(a: Lineage, b: Lineage, root: real -> real)
    requires |a.mean| == |b.mean| && SquareRoot(root)
    ensures a.deltas == 0 && b.deltas == 0 ==> LineageDistance(a, b, root) == 0.0
    ensures (a.deltas == 0 <==> b.deltas > 0) ==> LineageDistance(a, b, root) == 1.0
    ensures a.deltas == 0 || b.deltas == 0 ==> LineageSimilarity(a, b, root) == 0.0
    ensures a.deltas > 0 && b.deltas > 0 ==>
              var sacs := Sacs(Fingerprint(a.mean, a.fields), Fingerprint(b.mean, b.fields), root);
              && LineageSimilarity(a, b, root) == sacs
              && LineageDistance(a, b, root) == if sacs > 0.0 then 1.0 - sacs else 1.0
  {
    SacsInRange(Fingerprint(a.mean, a.fields), Fingerprint(b.mean, b.fields), root);
  }

  // ---- The penalty -------------------------------------------------------------------------

  function Largest(xs: seq<real>): real
    requires xs != []
  {
    var init, last := Init(xs), Last(xs);
    if init == [] then last else Max(Largest(init), last)
  }

  lemma {:induction false} LargestIsMaximum(xs: seq<real>)
    requires xs != []
    ensures Largest(xs) in xs && forall i :: 0 <= i < |xs| ==> xs[i] <= Largest(xs)
  {
    var init := Init(xs);
    if init != [] {
      LargestIsMaximum(init);
      assert Largest(xs) == Largest(init) ==> Largest(xs) in init;
    }
  }

  function Mean(xs: seq<real>): real
    requires xs != []
  {
    Sum(xs) / |xs| as real
  }

  datatype Settings = Settings(beta: real, tauMax: real, tauMean: real, minBank: int)

  function Mixed(s: Settings, top: real, average: real): real {
    s.beta * top + (1.0 - s.beta) * average
  }

  function PenaltyOf(sims: seq<real>, s: Settings): real {
    if |sims| < s.minBank || sims == [] then 0.0
    else Mixed(s, Max(0.0, Largest(sims) - s.tauMax), Max(0.0, Mean(sims) - s.tauMean))
  }

  /** The amount by which `x` exceeds `limit`, if it does. */
  ghost predicate IsExcess(e: real, x: real, limit: real) {
    if x > limit then e == x - limit else e == 0.0
  }

  /** Nothing in the warm-up; later a beta share of the excess of the greatest similarity, and the other
      share of the excess of the mean similarity. */
  ghost predicate IsPenalty(penalty: real, sims: seq<real>, s: Settings) {
    if |sims| < s.minBank || sims == [] then penalty == 0.0
    else
      exists top: real, mean: real, e: real, f: real ::
        && top in sims && (forall i :: 0 <= i < |sims| ==> sims[i] <= top)
        && mean * |sims| as real == Sum(sims)
        && IsExcess(e, top, s.tauMax) && IsExcess(f, mean, s.tauMean)
        && penalty == s.beta * e + (1.0 - s.beta) * f
  }

  lemma PenaltyExactly(sims: seq<real>, s: Settings)
    ensures IsPenalty(PenaltyOf(sims, s), sims, s)
  {
    if |sims| >= s.minBank && sims != [] {
      LargestIsMaximum(sims);
      var top, mean := Largest(sims), Mean(sims);
      assert mean * |sims| as real == Sum(sims);
      assert IsExcess(Max(0.0, top - s.tauMax), top, s.tauMax);
      assert IsExcess(Max(0.0, mean - s.tauMean), mean, s.tauMean);
    }
  }

  lemma MixedMonotone(s: Settings, top: real, top': real, average: real, average': real)
    requires 0.0 <= s.beta <= 1.0 && top <= top' && average <= average'
    ensures Mixed(s, top, average) <= Mixed(s, top', average')
    ensures Mixed(s, 0.0, 0.0) == 0.0
  {
    MixMonotone(s.beta, 1.0 - s.beta, top, top', average, average');
  }

  lemma {:induction false} AggregatesMonotone(xs: seq<real>, ys: seq<real>)
    requires |xs| == |ys| > 0 && forall i :: 0 <= i < |xs| ==> xs[i] <= ys[i]
    ensures Largest(xs) <= Largest(ys) && Sum(xs) <= Sum(ys) && Mean(xs) <= Mean(ys)
  {
    if |xs| > 1 {
      AggregatesMonotone(Init(xs), Init(ys));
    }
    QuotientMonotone(Sum(xs), Sum(ys), |xs| as real);
  }

  lemma {:induction false} AggregatesOfConstant(xs: seq<real>, c: real)
    requires xs != [] && forall i :: 0 <= i < |xs| ==> xs[i] == c
    ensures Largest(xs) == c && Sum(xs) == c * |xs| as real && Mean(xs) == c
  {
    if |xs| > 1 {
      AggregatesOfConstant(Init(xs), c);
    }
    assert Sum(xs) == c * |xs| as real;
  }

  /** The penalty grows with every similarity. */
  lemma PenaltyMonotone(xs: seq<real>, ys: seq<real>, s: Settings)
    requires |xs| == |ys| && forall i :: 0 <= i < |xs| ==> xs[i] <= ys[i]
    requires 0.0 <= s.beta <= 1.0
    ensures PenaltyOf(xs, s) <= PenaltyOf(ys, s)
  {
    if xs != [] {
      AggregatesMonotone(xs, ys);
      MixedMonotone(s, Max(0.0, Largest(xs) - s.tauMax), Max(0.0, Largest(ys) - s.tauMax),
                    Max(0.0, Mean(xs) - s.tauMean), Max(0.0, Mean(ys) - s.tauMean));
    }
  }

  function PenaltyCeiling(s: Settings): real {
    Mixed(s, 1.0 - s.tauMax, 1.0 - s.tauMean)
  }

  lemma PenaltyNonNegative(sims: seq<real>, s: Settings)
    requires 0.0 <= s.beta <= 1.0
    ensures PenaltyOf(sims, s) >= 0.0
  {
    if sims != [] {
      MixedMonotone(s, 0.0, Max(0.0, Largest(sims) - s.tauMax), 0.0, Max(0.0, Mean(sims) - s.tauMean));
    }
  }

  /** Total recycling reaches the ceiling. */
  lemma RecyclingReachesCeiling(n: nat, s: Settings)
    requires n > 0 && n >= s.minBank && s.tauMax <= 1.0 && s.tauMean <= 1.0
    ensures PenaltyOf(seq(n, _ => 1.0), s) == PenaltyCeiling(s)
  {
    AggregatesOfConstant(seq(n, _ => 1.0), 1.0);
  }

  /** The penalty stays between zero and its ceiling. */
  lemma PenaltyInRange(sims: seq<real>, s: Settings)
    requires forall i :: 0 <= i < |sims| ==> sims[i] <= 1.0
    requires 0.0 <= s.beta <= 1.0 && s.tauMax <= 1.0 && s.tauMean <= 1.0
    ensures 0.0 <= PenaltyOf(sims, s) <= PenaltyCeiling(s)
  {
    PenaltyNonNegative(sims, s);
    if |sims| < s.minBank || sims == [] {
      MixedMonotone(s, 0.0, 1.0 - s.tauMax, 0.0, 1.0 - s.tauMean);
    } else {
      RecyclingReachesCeiling(|sims|, s);
      PenaltyMonotone(sims, seq(|sims|, _ => 1.0), s);
    }
  }

  lemma MixIsPositiveExactly(s: Settings, top: real, average: real)
    requires 0.0 <= s.beta <= 1.0 && top >= 0.0 && average >= 0.0
    ensures Mixed(s, top, average) > 0.0 <==> (s.beta > 0.0 && top > 0.0) || (s.beta < 1.0 && average > 0.0)
  {
    var a, b := s.beta * top, (1.0 - s.beta) * average;
    NonNegativeProduct(s.beta, top);
    NonNegativeProduct(1.0 - s.beta, average);
    NonZeroProduct(s.beta, top);
    NonZeroProduct(1.0 - s.beta, average);
    assert Mixed(s, top, average) == a + b && a >= 0.0 && b >= 0.0;
    assert a > 0.0 <==> s.beta > 0.0 && top > 0.0;
    assert b > 0.0 <==> 1.0 - s.beta > 0.0 && average > 0.0;
  }

  /** Past the warm-up there is a penalty exactly when some single similarity exceeds the one threshold,
      or the mean exceeds the other, and that part has any weight. */
  lemma PenaltyIsPositiveExactly(sims: seq<real>, s: Settings)
    requires 0.0 <= s.beta <= 1.0 && sims != [] && |sims| >= s.minBank
    ensures PenaltyOf(sims, s) > 0.0 <==>
              || (s.beta > 0.0 && exists i :: 0 <= i < |sims| && sims[i] > s.tauMax)
              || (s.beta < 1.0 && Sum(sims) / |sims| as real > s.tauMean)
  {
    LargestIsMaximum(sims);
    var k :| 0 <= k < |sims| && sims[k] == Largest(sims);
    assert (exists i :: 0 <= i < |sims| && sims[i] > s.tauMax) <==> sims[k] > s.tauMax;
    MixIsPositiveExactly(s, Max(0.0, Largest(sims) - s.tauMax), Max(0.0, Mean(sims) - s.tauMean));
  }

  // ---- The tracker -------------------------------------------------------------------------

  /** The last `size` entries, or all of them if there are fewer. */
  function Recent<T>(history: seq<T>, size: nat): seq<T> {
    if |history| <= size then history else history[|history| - size..]
  }

  lemma RecentIsSuffix<T>(history: seq<T>, size: nat)
    ensures Recent(history, size) == [] || Recent(history, size) == history[|history| - |Recent(history, size)|..]
    ensures |Recent(history, size)| == if |history| < size then |history| else size
  {}

  /** Appending to a full bank drops its oldest entry. */
  lemma RecentGrows<T>(history: seq<T>, x: T, size: nat)
    requires size > 0
    ensures var bank := Recent(history, size);
            Recent(history + [x], size) == (if |bank| == size then bank[1..] else bank) + [x]
  {
    var more := history + [x];
    if |history| >= size {
      assert more[|more| - size..] == history[|history| - size..][1..] + [x];
    }
  }

  class DiversityTracker {
    const dimension: nat
    const memorySize: nat
    const settings: Settings
    var bank: seq<Fingerprint>
    ghost var history: seq<Fingerprint>

    ghost predicate Valid()
      reads this
    {
      && bank == Recent(history, memorySize)
      && forall i :: 0 <= i < |history| ==> |history[i].vector| == dimension
    }

    constructor (dimension: nat, memorySize: nat, settings: Settings)
      ensures Valid() && history == []
      ensures this.dimension == dimension && this.memorySize == memorySize && this.settings == settings
    {
      this.dimension, this.memorySize, this.settings := dimension, memorySize, settings;
      bank, history := [], [];
    }

    /** A bounded deque: appending to a full one drops the oldest entry. */
    method Record(fp: Fingerprint)
      requires Valid() && |fp.vector| == dimension
      modifies this
      ensures Valid() && history == old(history) + [fp]
      ensures bank == Recent(old(history) + [fp], memorySize)
    {
      history := history + [fp];
      if memorySize > 0 {
        RecentGrows(old(history), fp, memorySize);
        if |bank| == memorySize {
          bank := bank[1..];
        }
        bank := bank + [fp];
      }
    }

    ghost function Similarities(fp: Fingerprint, root: real -> real): (sims: seq<real>)
      requires Valid() && |fp.vector| == dimension
      reads this
      ensures |sims| == |bank|
    {
      seq(|bank|, i requires 0 <= i < |bank| && |bank[i].vector| == |fp.vector| reads this =>
        Sacs(fp, bank[i], root))
    }

    /** Whatever was recorded before, the penalty of any candidate is in range. */
    lemma EveryPenaltyIsInRange(fp: Fingerprint, root: real -> real)
      requires Valid() && |fp.vector| == dimension && SquareRoot(root)
      requires 0.0 <= settings.beta <= 1.0 && settings.tauMax <= 1.0 && settings.tauMean <= 1.0
      ensures 0.0 <= PenaltyOf(Similarities(fp, root), settings) <= PenaltyCeiling(settings)
    {
      var all := Similarities(fp, root);
      forall i | 0 <= i < |all| ensures all[i] <= 1.0 {
        SacsInRange(fp, bank[i], root);
      }
      PenaltyInRange(all, settings);
    }

    method CollectSimilarities(fp: Fingerprint, root: real -> real) returns (sims: seq<real>)
      requires Valid() && |fp.vector| == dimension
      ensures sims == Similarities(fp, root)
    {
      sims := [];
      var i := 0;
      while i < |bank|
        invariant 0 <= i <= |bank|
        invariant sims == Similarities(fp, root)[..i]
      {
        sims := sims + [Sacs(fp, bank[i], root)];
        i := i + 1;
      }
    }

    method Weigh(sims: seq<real>) returns (penalty: real)
      requires sims != [] && |sims| >= settings.minBank
      ensures penalty == PenaltyOf(sims, settings)
    {
      var highest, mean := Largest(sims), Mean(sims);
      penalty := settings.beta * Max(0.0, highest - settings.tauMax)
               + (1.0 - settings.beta) * Max(0.0, mean - settings.tauMean);
    }

    method PenaltyFor(fp: Fingerprint, root: real -> real) returns (penalty: real)
      requires Valid() && |fp.vector| == dimension
      ensures penalty == PenaltyOf(Similarities(fp, root), settings)
      ensures IsPenalty(penalty, Similarities(fp, root), settings)
    {
      PenaltyExactly(Similarities(fp, root), settings);
      if |bank| < settings.minBank {
        return 0.0;
      }
      var sims := CollectSimilarities(fp, root);
      if sims == [] {
        return 0.0;
      }
      penalty := Weigh(sims);
    }
  }
}
