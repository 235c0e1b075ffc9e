/**
 The sphere-marching loop of the SDF tracer along one ray: `field` gives the signed distance at a
 point of the ray.
 */
module SphereMarch {
  import opened RealFacts

  const START := 0.001
  const MAX_STEPS := 96
  const HIT_RATIO := 0.0015
  const RELAXATION := 0.75
  const GROWTH := 1.001125

  type Field = real -> real

  function Abs(x: real): real { if x >= 0.0 then x else -x }

  /** The field changes no faster than the distance along the ray. */
  ghost predicate Lipschitz(field: Field) {
    forall x, y :: x >= START && y >= START ==> Abs(field(x) - field(y)) <= Abs(x - y)
  }

  predicate Stops(field: Field, d: real, maxD: real) {
    Abs(field(d)) < HIT_RATIO * d || d > maxD
  }

  /** Where one step leads. */
  function Advance(field: Field, d: real): real {
    d + field(d) * RELAXATION
  }

  /** The distance after at most `k` steps. */
  function Marched(field: Field, maxD: real, k: nat): real {
    if k == 0 then START
    else
      var d := Marched(field, maxD, k - 1);
      if Stops(field, d, maxD) then d else Advance(field, d)
  }

  function Power(b: real, k: nat): real {
    if k == 0 then 1.0 else Power(b, k - 1) * b
  }

  /** No surface between the start of the ray and `d`. */
  ghost predicate ClearUpTo(field: Field, d: real) {
    forall x :: START <= x <= d ==> field(x) > 0.0
  }

  /** One step from a clear position keeps the field positive on the whole interval it covers and
      moves on by at least the growth factor. */
  lemma StepIsSafe(field: Field, d: real, maxD: real)
    requires Lipschitz(field) && d >= START && ClearUpTo(field, d) && !Stops(field, d, maxD)
    ensures ClearUpTo(field, Advance(field, d))
    ensures Advance(field, d) >= GROWTH * d > d
  {
    var h, next := field(d), Advance(field, d);
    forall x | START <= x <= next ensures field(x) > 0.0 {
      if x > d {
        assert Abs(field(x) - h) <= Abs(x - d);
      }
    }
  }

  lemma PowerGrows(k: nat, d: real, next: real)
    requires d >= START * Power(GROWTH, k) && next >= GROWTH * d
    ensures next >= START * Power(GROWTH, k + 1)
  {
    calc {
      next;
    >= GROWTH * d;
    >= GROWTH * (START * Power(GROWTH, k));
    == START * (Power(GROWTH, k) * GROWTH);
    == START * Power(GROWTH, k + 1);
    }
  }

  lemma {:induction false} StoppedStays(field: Field, maxD: real, k: nat, n: nat)
    requires k <= n && Stops(field, Marched(field, maxD, k), maxD)
    ensures Marched(field, maxD, n) == Marched(field, maxD, k)
  {
    if k < n {
      StoppedStays(field, maxD, k, n - 1);
    }
  }

  /** On a Lipschitz ray that starts outside, no step passes a surface. */
  lemma {:induction false} MarchStaysClear(field: Field, maxD: real, k: nat)
    requires Lipschitz(field) && field(START) > 0.0
    ensures Marched(field, maxD, k) >= START && ClearUpTo(field, Marched(field, maxD, k))
  {
    if k > 0 {
      var d := Marched(field, maxD, k - 1);
      MarchStaysClear(field, maxD, k - 1);
      if !Stops(field, d, maxD) {
        StepIsSafe(field, d, maxD);
      }
    }
  }

  /** Every step of such a march moves on by at least the growth factor. */
  lemma StepOfMarchGrows(field: Field, maxD: real, k: nat)
    requires Lipschitz(field) && field(START) > 0.0 && !Stops(field, Marched(field, maxD, k), maxD)
    ensures Marched(field, maxD, k + 1) >= GROWTH * Marched(field, maxD, k) > Marched(field, maxD, k)
  {
    MarchStaysClear(field, maxD, k);
    StepIsSafe(field, Marched(field, maxD, k), maxD);
  }

  lemma {:induction false} GrowthAddsUp(field: Field, maxD: real, k: nat)
    requires forall j: nat :: !Stops(field, Marched(field, maxD, j), maxD) ==>
               Marched(field, maxD, j + 1) >= GROWTH * Marched(field, maxD, j)
    ensures Stops(field, Marched(field, maxD, k), maxD) || Marched(field, maxD, k) >= START * Power(GROWTH, k)
  {
    if k > 0 {
      GrowthAddsUp(field, maxD, k - 1);
      if !Stops(field, Marched(field, maxD, k - 1), maxD) {
        PowerGrows(k - 1, Marched(field, maxD, k - 1), Marched(field, maxD, k));
      }
    }
  }

  /** As long as it goes on the distance grows geometrically. */
  lemma MarchGrows(field: Field, maxD: real, k: nat)
    requires Lipschitz(field) && field(START) > 0.0
    ensures Stops(field, Marched(field, maxD, k), maxD) || Marched(field, maxD, k) >= START * Power(GROWTH, k)
  {
    forall j: nat | !Stops(field, Marched(field, maxD, j), maxD)
      ensures Marched(field, maxD, j + 1) >= GROWTH * Marched(field, maxD, j)
    {
      StepOfMarchGrows(field, maxD, j);
    }
    GrowthAddsUp(field, maxD, k);
  }

  lemma {:induction false} MarchMovesOn(field: Field, maxD: real, j: nat, k: nat)
    requires Lipschitz(field) && field(START) > 0.0 && j <= k
    ensures Marched(field, maxD, j) <= Marched(field, maxD, k)
  {
    if j < k {
      MarchMovesOn(field, maxD, j, k - 1);
      if !Stops(field, Marched(field, maxD, k - 1), maxD) {
        StepOfMarchGrows(field, maxD, k - 1);
      }
    }
  }

  /** The field keeps a margin on the stretch covered. */
  ghost predicate AtLeast(field: Field, d: real, margin: real) {
    forall x :: START <= x <= d ==> field(x) >= margin
  }

  /** Where `k` steps of the same size lead. */
  function Paced(stride: real, k: nat): real {
    if k == 0 then START else Paced(stride, k - 1) + stride
  }

  lemma {:induction false} PacedInClosedForm(stride: real, k: nat)
    ensures Paced(stride, k) == START + k as real * stride
  {
    if k > 0 {
      PacedInClosedForm(stride, k - 1);
      assert k as real * stride == (k - 1) as real * stride + stride;
    }
  }

  /** What one step gains when the field keeps a margin where the march leads. */
  lemma StrideIsGained(field: Field, maxD: real, j: nat, k: nat, margin: real)
    requires Lipschitz(field) && field(START) > 0.0 && j < k && !Stops(field, Marched(field, maxD, j), maxD)
    requires AtLeast(field, Marched(field, maxD, k), margin)
    ensures Marched(field, maxD, j + 1) >= Marched(field, maxD, j) + margin * RELAXATION
  {
    var d := Marched(field, maxD, j);
    MarchStaysClear(field, maxD, j);
    MarchMovesOn(field, maxD, j, k);
    ProductMonotone(margin, field(d), RELAXATION);
  }

  lemma {:induction false} StridesAddUp(field: Field, maxD: real, k: nat, stride: real)
    requires forall j :: 0 <= j < k && !Stops(field, Marched(field, maxD, j), maxD) ==>
               Marched(field, maxD, j + 1) >= Marched(field, maxD, j) + stride
    ensures Stops(field, Marched(field, maxD, k), maxD) || Marched(field, maxD, k) >= Paced(stride, k)
  {
    if k > 0 {
      StridesAddUp(field, maxD, k - 1, stride);
      assert Stops(field, Marched(field, maxD, k - 1), maxD) ==> Marched(field, maxD, k) == Marched(field, maxD, k - 1);
    }
  }

  /** With a margin the distance grows linearly. */
  lemma MarginIsGained(field: Field, maxD: real, k: nat, margin: real)
    requires Lipschitz(field) && field(START) > 0.0
    requires AtLeast(field, Marched(field, maxD, k), margin)
    ensures Stops(field, Marched(field, maxD, k), maxD)
         || Marched(field, maxD, k) >= Paced(margin * RELAXATION, k)
  {
    forall j | 0 <= j < k && !Stops(field, Marched(field, maxD, j), maxD)
      ensures Marched(field, maxD, j + 1) >= Marched(field, maxD, j) + margin * RELAXATION
    {
      StrideIsGained(field, maxD, j, k, margin);
    }
    StridesAddUp(field, maxD, k, margin * RELAXATION);
  }

  /** The margin with which a ray gets as far as `maxD` within the step budget. */
  function BudgetMargin(maxD: real): real {
    (maxD - START) / (RELAXATION * MAX_STEPS as real)
  }

  /** What the picture shows of such a ray.  Background: there is no surface before `maxD`.  A hit:
      the march ended near the surface, or the step budget was used up and the field has come below
      the budget margin on the way. */
  lemma HitOrBackground(field: Field, maxD: real)
    requires Lipschitz(field) && field(START) > 0.0
    ensures var d := Marched(field, maxD, MAX_STEPS);
            if d >= maxD then
              forall x :: START <= x <= maxD ==> field(x) > 0.0
            else
              0.0 < field(d) < 0.0015 * d || !AtLeast(field, d, (maxD - 0.001) / 72.0)
  {
    var d, margin := Marched(field, maxD, MAX_STEPS), BudgetMargin(maxD);
    MarchStaysClear(field, maxD, MAX_STEPS);
    assert field(d) > 0.0;
    if d < maxD && AtLeast(field, d, margin) {
      MarginIsGained(field, maxD, MAX_STEPS, margin);
      PacedInClosedForm(margin * RELAXATION, MAX_STEPS);
    }
  }

  lemma {:induction false} PacedGrows(stride: real, k: nat, n: nat)
    requires stride >= 0.0 && k <= n
    ensures START <= Paced(stride, k) <= Paced(stride, n)
  {
    if k < n {
      PacedGrows(stride, k, n - 1);
    } else if k > 0 {
      PacedGrows(stride, k - 1, k - 1);
    }
  }

  /** A constant field never looks near within the step budget. */
  lemma PacedIsBounded(c: real, k: nat)
    requires c >= 0.000002 && k <= MAX_STEPS
    ensures START <= Paced(c * RELAXATION, k) && HIT_RATIO * Paced(c * RELAXATION, k) <= c
  {
    PacedGrows(c * RELAXATION, k, MAX_STEPS);
    PacedInClosedForm(c * RELAXATION, MAX_STEPS);
    ProductMonotone(Paced(c * RELAXATION, k), START + 72.0 * c, HIT_RATIO);
  }

  function Constant(c: real): Field { _ => c }

  /** Where `k` steps over a constant field lead. */
  function Spot(c: real, k: nat): real {
    Paced(c * RELAXATION, k)
  }

  predicate LooksNearAt(c: real, k: nat) {
    c < HIT_RATIO * Spot(c, k)
  }

  predicate HaltsAt(c: real, maxD: real, k: nat) {
    LooksNearAt(c, k) || Spot(c, k) > maxD
  }

  /** Over a constant field the march takes equal steps until it stops. */
  lemma {:induction false} ConstantFieldMarch(c: real, maxD: real, k: nat) returns (j: nat)
    requires c > 0.0
    ensures j <= k && Marched(Constant(c), maxD, k) == Spot(c, j)
    ensures j == k || HaltsAt(c, maxD, j)
    ensures forall i :: 0 <= i < j ==> !HaltsAt(c, maxD, i)
  {
    j := 0;
    if k > 0 {
      j := ConstantFieldMarch(c, maxD, k - 1);
      assert Stops(Constant(c), Spot(c, j), maxD) <==> HaltsAt(c, maxD, j);
      if !HaltsAt(c, maxD, j) {
        j := k;
      }
    }
  }

  /** After some of the equal steps the constant looks near, still within range. */
  ghost predicate LooksNear(c: real, maxD: real) {
    exists k :: 0 <= k < MAX_STEPS && LooksNearAt(c, k) && Spot(c, k) < maxD
  }

  lemma SpotsGrow(c: real, j: nat, k: nat)
    requires c > 0.0 && j <= k
    ensures START <= Spot(c, j) <= Spot(c, k)
  {
    PacedGrows(c * RELAXATION, j, k);
  }

  lemma LastSpotExactly(c: real, maxD: real)
    ensures Spot(c, MAX_STEPS) < maxD <==> c < BudgetMargin(maxD)
  {
    PacedInClosedForm(c * RELAXATION, MAX_STEPS);
  }

  lemma NeverLooksNear(c: real, maxD: real)
    requires c >= 0.000002
    ensures !LooksNear(c, maxD)
  {
    forall k | 0 <= k < MAX_STEPS ensures !LooksNearAt(c, k) {
      PacedIsBounded(c, k);
    }
  }

  /** The margin is sharp: over a constant field, where there is no surface at all, a hit is painted
      exactly when the constant is below the margin or looks near; none from 0.000002 on does. */
  lemma ConstantFieldIsHitExactly(c: real, maxD: real)
    requires c > 0.0
    ensures Lipschitz(Constant(c))
    ensures Marched(Constant(c), maxD, MAX_STEPS) < maxD <==> c < BudgetMargin(maxD) || LooksNear(c, maxD)
    ensures c >= 0.000002 ==> !LooksNear(c, maxD)
  {
    var j := ConstantFieldMarch(c, maxD, MAX_STEPS);
    LastSpotExactly(c, maxD);
    SpotsGrow(c, j, MAX_STEPS);
    if LooksNear(c, maxD) {
      var k :| 0 <= k < MAX_STEPS && LooksNearAt(c, k) && Spot(c, k) < maxD;
      assert HaltsAt(c, maxD, k);
      SpotsGrow(c, j, k);
    }
    if c >= 0.000002 {
      NeverLooksNear(c, maxD);
    }
  }

  /** In numbers: over a field of at least 1 the background is painted for every range up to 72. */
  lemma WideFieldIsBackground(field: Field, maxD: real)
    requires Lipschitz(field) && (forall x :: x >= START ==> field(x) >= 1.0) && maxD <= 72.0
    ensures Marched(field, maxD, MAX_STEPS) >= maxD
  {
    var d := Marched(field, maxD, MAX_STEPS);
    MarchStaysClear(field, maxD, MAX_STEPS);
    HitOrBackground(field, maxD);
    assert AtLeast(field, d, 1.0);
    assert (maxD - 0.001) / 72.0 < 1.0;
  }

  /** Marches until the surface is near, the range is exceeded, or the step budget is used up; a
      hit is painted when the range is not reached.  On a Lipschitz ray that starts outside no
      surface is ever jumped over, and one before `maxD` is always painted. */
  method March(field: Field, maxD: real) returns (d: real, hit: bool)
    ensures d == Marched(field, maxD, MAX_STEPS)
    ensures hit <==> d < maxD
    ensures Lipschitz(field) && field(START) > 0.0 ==> forall x :: x >= START && field(x) <= 0.0 ==> d < x
    ensures Lipschitz(field) && field(START) > 0.0 ==>
              forall x :: START <= x <= maxD && field(x) <= 0.0 ==> hit
    ensures Lipschitz(field) && field(START) > 0.0 && hit ==>
              0.0 < field(d) < 0.0015 * d || !AtLeast(field, d, (maxD - 0.001) / 72.0)
  {
    d := START;
    var i := 0;
    while i < MAX_STEPS
      invariant 0 <= i <= MAX_STEPS && d == Marched(field, maxD, i)
    {
      var h := field(d);
      if Abs(h) < HIT_RATIO * d || d > maxD {
        StoppedStays(field, maxD, i, MAX_STEPS);
        break;
      }
      d := d + h * RELAXATION;
      i := i + 1;
    }
    if Lipschitz(field) && field(START) > 0.0 {
      MarchStaysClear(field, maxD, MAX_STEPS);
      HitOrBackground(field, maxD);
    }
    hit := d < maxD;
  }
}
