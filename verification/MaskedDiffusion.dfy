/**
 The masked Allen-Cahn step of the composition oracle on immutable grids: an explicit Euler step
 with no flux between wet and dry cells.  Results: mass balance on every body of water, a discrete
 maximum principle, and dry land that stays at zero, for every grid size and number of steps.
 */
module MaskedDiffusion {
  import opened Options
  import opened RealFacts

  const DT := 0.018
  const DIFFUSIVITY := 10.0
  const REACTION_LIMIT := 50.0

  type Grid = seq<seq<real>>
  type Mask = seq<seq<bool>>

  /** A user-supplied reaction; `None` stands for a result that is not finite. */
  type Reaction = (real, real) -> Option<real>

  predicate Square<T>(g: seq<seq<T>>, n: nat) {
    |g| == n && forall i :: 0 <= i < n ==> |g[i]| == n
  }

  predicate InBounds(n: nat, i: int, j: int) {
    0 <= i < n && 0 <= j < n
  }

  predicate Marked(m: Mask, n: nat, i: int, j: int)
    requires Square(m, n)
  {
    InBounds(n, i, j) && m[i][j]
  }

  /** The value the stencil reads at (i2, j2) for the cell (i, j): its own value when the
      neighbour is dry or outside the grid. */
  function Neighbour(phi: Grid, wet: Mask, n: nat, i: int, j: int, i2: int, j2: int): real
    requires Square(phi, n) && Square(wet, n) && InBounds(n, i, j)
  {
    if Marked(wet, n, i2, j2) then phi[i2][j2] else phi[i][j]
  }

  function Laplacian(phi: Grid, wet: Mask, n: nat, i: int, j: int): real
    requires Square(phi, n) && Square(wet, n) && InBounds(n, i, j)
  {
    Neighbour(phi, wet, n, i, j, i - 1, j) + Neighbour(phi, wet, n, i, j, i + 1, j)
    + Neighbour(phi, wet, n, i, j, i, j - 1) + Neighbour(phi, wet, n, i, j, i, j + 1)
    - 4.0 * phi[i][j]
  }

  /** A reaction value the solver goes on with. */
  predicate Bounded(r: Option<real>) {
    r.Some? && -REACTION_LIMIT <= r.value <= REACTION_LIMIT
  }

  predicate Stable(phi: Grid, wet: Mask, temp: Grid, reaction: Reaction, n: nat)
    requires Square(phi, n) && Square(wet, n) && Square(temp, n)
  {
    forall i, j :: 0 <= i < n && 0 <= j < n && wet[i][j] ==> Bounded(reaction(phi[i][j], temp[i][j]))
  }

  function Rate(phi: Grid, temp: Grid, reaction: Reaction, n: nat, i: int, j: int): real
    requires Square(phi, n) && Square(temp, n) && InBounds(n, i, j)
  {
    var r := reaction(phi[i][j], temp[i][j]);
    if r.Some? then r.value else 0.0
  }

  function StepCell(phi: Grid, wet: Mask, temp: Grid, reaction: Reaction, n: nat, i: int, j: int): real
    requires Square(phi, n) && Square(wet, n) && Square(temp, n) && InBounds(n, i, j)
  {
    if !wet[i][j] then 0.0
    else phi[i][j] + DT * (DIFFUSIVITY * Laplacian(phi, wet, n, i, j) + Rate(phi, temp, reaction, n, i, j))
  }

  /** All cells are updated from the previous grid. */
  function Step(phi: Grid, wet: Mask, temp: Grid, reaction: Reaction, n: nat): (g: Grid)
    requires Square(phi, n) && Square(wet, n) && Square(temp, n)
    ensures Square(g, n)
    ensures forall i, j :: 0 <= i < n && 0 <= j < n ==> g[i][j] == StepCell(phi, wet, temp, reaction, n, i, j)
  {
    seq(n, i requires 0 <= i < n => seq(n, j requires 0 <= j < n => StepCell(phi, wet, temp, reaction, n, i, j)))
  }

  /** The grid after `steps` steps, or `None` when a reaction diverged on the way. */
  function Run(phi: Grid, wet: Mask, temp: Grid, reaction: Reaction, n: nat, steps: nat): (r: Option<Grid>)
    requires Square(phi, n) && Square(wet, n) && Square(temp, n)
    ensures r.Some? ==> Square(r.value, n)
  {
    if steps == 0 then Some(phi)
    else
      var before := Run(phi, wet, temp, reaction, n, steps - 1);
      if before.None? || !Stable(before.value, wet, temp, reaction, n) then None
      else Some(Step(before.value, wet, temp, reaction, n))
  }

  lemma {:induction false} RunStaysStopped(phi: Grid, wet: Mask, temp: Grid, reaction: Reaction, n: nat,
                                           s: nat, steps: nat)
    requires Square(phi, n) && Square(wet, n) && Square(temp, n)
    requires s <= steps && Run(phi, wet, temp, reaction, n, s).None?
    ensures Run(phi, wet, temp, reaction, n, steps).None?
  {
    if s < steps {
      RunStaysStopped(phi, wet, temp, reaction, n, s, steps - 1);
    }
  }

  // ---- Mass balance ------------------------------------------------------------------------

  /** A wet cell and a wet neighbour above or to the left are both in the body or both outside. */
  ghost predicate SameBody(body: Mask, wet: Mask, n: nat, i: int, j: int)
    requires Square(body, n) && Square(wet, n) && InBounds(n, i, j)
  {
    wet[i][j] ==>
      && (Marked(wet, n, i - 1, j) ==> body[i - 1][j] == body[i][j])
      && (Marked(wet, n, i, j - 1) ==> body[i][j - 1] == body[i][j])
  }

  /** A set of wet cells that no wet neighbour leaves: one or more whole bodies of water. */
  ghost predicate WaterBody(body: Mask, wet: Mask, n: nat) {
    && Square(body, n) && Square(wet, n)
    && (forall i, j :: 0 <= i < n && 0 <= j < n && body[i][j] ==> wet[i][j])
    && (forall i, j :: InBounds(n, i, j) ==> SameBody(body, wet, n, i, j))
  }

  ghost function CellMass(phi: Grid, body: Mask, n: nat, i: int, j: int): real
    requires Square(phi, n) && Square(body, n)
  {
    if Marked(body, n, i, j) then phi[i][j] else 0.0
  }

  ghost function RowMass(phi: Grid, body: Mask, n: nat, i: int, k: nat): real
    requires Square(phi, n) && Square(body, n)
  {
    if k == 0 then 0.0 else RowMass(phi, body, n, i, k - 1) + CellMass(phi, body, n, i, k - 1)
  }

  /** The total of `phi` over the first `k` rows of a body of water. */
  ghost function Mass(phi: Grid, body: Mask, n: nat, k: nat): real
    requires Square(phi, n) && Square(body, n)
  {
    if k == 0 then 0.0 else Mass(phi, body, n, k - 1) + RowMass(phi, body, n, k - 1, n)
  }

  /** The reaction values of a step as a grid, so that their total is a `Mass` as well. */
  ghost function Rates(phi: Grid, temp: Grid, reaction: Reaction, n: nat): (g: Grid)
    requires Square(phi, n) && Square(temp, n)
    ensures Square(g, n)
    ensures forall i, j :: 0 <= i < n && 0 <= j < n ==> g[i][j] == Rate(phi, temp, reaction, n, i, j)
  {
    seq(n, i requires 0 <= i < n => seq(n, j requires 0 <= j < n => Rate(phi, temp, reaction, n, i, j)))
  }

  /** What flows into (i, j) from the cell above it; zero across the rim of the body. */
  ghost function FluxDown(phi: Grid, body: Mask, n: nat, i: int, j: int): real
    requires Square(phi, n) && Square(body, n)
  {
    if Marked(body, n, i - 1, j) && Marked(body, n, i, j) then phi[i - 1][j] - phi[i][j] else 0.0
  }

  /** What flows into (i, j) from the cell to its left. */
  ghost function FluxRight(phi: Grid, body: Mask, n: nat, i: int, j: int): real
    requires Square(phi, n) && Square(body, n)
  {
    if Marked(body, n, i, j - 1) && Marked(body, n, i, j) then phi[i][j - 1] - phi[i][j] else 0.0
  }

  ghost function RowFluxDown(phi: Grid, body: Mask, n: nat, i: int, k: nat): real
    requires Square(phi, n) && Square(body, n)
  {
    if k == 0 then 0.0 else RowFluxDown(phi, body, n, i, k - 1) + FluxDown(phi, body, n, i, k - 1)
  }

  /** In a body of water the stencil is the balance of the four fluxes of the cell. */
  lemma LaplacianIsFluxBalance(phi: Grid, body: Mask, wet: Mask, n: nat, i: int, j: int)
    requires Square(phi, n) && WaterBody(body, wet, n) && InBounds(n, i, j)
    ensures (if body[i][j] then Laplacian(phi, wet, n, i, j) else 0.0)
         == FluxDown(phi, body, n, i, j) - FluxDown(phi, body, n, i + 1, j)
          + FluxRight(phi, body, n, i, j) - FluxRight(phi, body, n, i, j + 1)
  {
    if body[i][j] {
      assert SameBody(body, wet, n, i, j);
      assert i + 1 < n ==> SameBody(body, wet, n, i + 1, j);
      assert j + 1 < n ==> SameBody(body, wet, n, i, j + 1);
      assert Neighbour(phi, wet, n, i, j, i - 1, j) - phi[i][j] == FluxDown(phi, body, n, i, j);
      assert Neighbour(phi, wet, n, i, j, i + 1, j) - phi[i][j] == -FluxDown(phi, body, n, i + 1, j);
      assert Neighbour(phi, wet, n, i, j, i, j - 1) - phi[i][j] == FluxRight(phi, body, n, i, j);
      assert Neighbour(phi, wet, n, i, j, i, j + 1) - phi[i][j] == -FluxRight(phi, body, n, i, j + 1);
    }
  }

  lemma {:induction false} RowBalance(phi: Grid, body: Mask, wet: Mask, temp: Grid, reaction: Reaction,
                                      n: nat, i: nat, k: nat)
    requires Square(phi, n) && WaterBody(body, wet, n) && Square(temp, n) && i < n && k <= n
    ensures RowMass(Step(phi, wet, temp, reaction, n), body, n, i, k)
         == RowMass(phi, body, n, i, k)
          + DT * RowMass(Rates(phi, temp, reaction, n), body, n, i, k)
          + DT * DIFFUSIVITY * (RowFluxDown(phi, body, n, i, k) - RowFluxDown(phi, body, n, i + 1, k)
                                - FluxRight(phi, body, n, i, k))
  {
    if k > 0 {
      RowBalance(phi, body, wet, temp, reaction, n, i, k - 1);
      LaplacianIsFluxBalance(phi, body, wet, n, i, k - 1);
    }
  }

  lemma {:induction false} NoFluxOutside(phi: Grid, body: Mask, n: nat, i: nat, k: nat)
    requires Square(phi, n) && Square(body, n) && (i == 0 || i == n)
    ensures RowFluxDown(phi, body, n, i, k) == 0.0
  {
    if k > 0 {
      NoFluxOutside(phi, body, n, i, k - 1);
    }
  }

  lemma {:induction false} RowsBalance(phi: Grid, body: Mask, wet: Mask, temp: Grid, reaction: Reaction,
                                       n: nat, k: nat)
    requires Square(phi, n) && WaterBody(body, wet, n) && Square(temp, n) && k <= n
    ensures Mass(Step(phi, wet, temp, reaction, n), body, n, k)
         == Mass(phi, body, n, k) + DT * Mass(Rates(phi, temp, reaction, n), body, n, k)
          - DT * DIFFUSIVITY * RowFluxDown(phi, body, n, k, n)
  {
    if k == 0 {
      NoFluxOutside(phi, body, n, 0, n);
    } else {
      RowsBalance(phi, body, wet, temp, reaction, n, k - 1);
      RowBalance(phi, body, wet, temp, reaction, n, k - 1, n);
    }
  }

  /** One step changes the total of every body of water by dt times its summed reaction, nothing
      else: diffusion neither creates nor destroys `phi` and moves none between bodies. */
  lemma MassBalance(phi: Grid, body: Mask, wet: Mask, temp: Grid, reaction: Reaction, n: nat)
    requires Square(phi, n) && WaterBody(body, wet, n) && Square(temp, n)
    ensures Mass(Step(phi, wet, temp, reaction, n), body, n, n)
         == Mass(phi, body, n, n) + DT * Mass(Rates(phi, temp, reaction, n), body, n, n)
  {
    RowsBalance(phi, body, wet, temp, reaction, n, n);
    NoFluxOutside(phi, body, n, n, n);
  }

  /** The summed reaction of all steps of a run that did not diverge. */
  ghost function Supplied(phi: Grid, body: Mask, wet: Mask, temp: Grid, reaction: Reaction, n: nat, steps: nat): real
    requires Square(phi, n) && Square(body, n) && Square(wet, n) && Square(temp, n)
    requires Run(phi, wet, temp, reaction, n, steps).Some?
  {
    if steps == 0 then 0.0
    else
      var before := Run(phi, wet, temp, reaction, n, steps - 1).value;
      Supplied(phi, body, wet, temp, reaction, n, steps - 1) + Mass(Rates(before, temp, reaction, n), body, n, n)
  }

  lemma {:induction false} MassBalanceOfRun(phi: Grid, body: Mask, wet: Mask, temp: Grid, reaction: Reaction,
                                            n: nat, steps: nat)
    requires Square(phi, n) && WaterBody(body, wet, n) && Square(temp, n)
    requires Run(phi, wet, temp, reaction, n, steps).Some?
    ensures Mass(Run(phi, wet, temp, reaction, n, steps).value, body, n, n)
         == Mass(phi, body, n, n) + DT * Supplied(phi, body, wet, temp, reaction, n, steps)
  {
    if steps > 0 {
      MassBalanceOfRun(phi, body, wet, temp, reaction, n, steps - 1);
      MassBalance(Run(phi, wet, temp, reaction, n, steps - 1).value, body, wet, temp, reaction, n);
    }
  }

  /** In particular for all wet cells together: a run that did not diverge changes their total by dt
      times everything the reaction supplied, and diffusion moves nothing onto dry land. */
  lemma MassBalanceOfAllWater(phi: Grid, wet: Mask, temp: Grid, reaction: Reaction, n: nat, steps: nat)
    requires Square(phi, n) && Square(wet, n) && Square(temp, n)
    requires Run(phi, wet, temp, reaction, n, steps).Some?
    ensures Mass(Run(phi, wet, temp, reaction, n, steps).value, wet, n, n)
         == Mass(phi, wet, n, n) + DT * Supplied(phi, wet, wet, temp, reaction, n, steps)
  {
    assert WaterBody(wet, wet, n);
    MassBalanceOfRun(phi, wet, wet, temp, reaction, n, steps);
  }

  // ---- Maximum principle -------------------------------------------------------------------

  ghost predicate WetWithin(phi: Grid, wet: Mask, n: nat, lo: real, hi: real)
    requires Square(phi, n) && Square(wet, n)
  {
    forall i, j :: 0 <= i < n && 0 <= j < n && wet[i][j] ==> lo <= phi[i][j] <= hi
  }

  ghost predicate RatesWithin(phi: Grid, wet: Mask, temp: Grid, reaction: Reaction, n: nat, lo: real, hi: real)
    requires Square(phi, n) && Square(wet, n) && Square(temp, n)
  {
    forall i, j :: 0 <= i < n && 0 <= j < n && wet[i][j] ==> lo <= Rate(phi, temp, reaction, n, i, j) <= hi
  }

  ghost predicate DryAtZero(phi: Grid, wet: Mask, n: nat)
    requires Square(phi, n) && Square(wet, n)
  {
    forall i, j :: 0 <= i < n && 0 <= j < n && !wet[i][j] ==> phi[i][j] == 0.0
  }

  /** A step in numbers: a wet cell keeps 28 percent of its value, takes 18 percent of what the stencil
      reads on each side, and 0.018 of the reaction. */
  lemma StepInNumbers(phi: Grid, wet: Mask, temp: Grid, reaction: Reaction, n: nat, i: int, j: int)
    requires Square(phi, n) && Square(wet, n) && Square(temp, n) && InBounds(n, i, j) && wet[i][j]
    ensures Step(phi, wet, temp, reaction, n)[i][j]
         == 0.28 * phi[i][j] + 0.018 * Rate(phi, temp, reaction, n, i, j)
          + 0.18 * (Neighbour(phi, wet, n, i, j, i - 1, j) + Neighbour(phi, wet, n, i, j, i + 1, j)
                    + Neighbour(phi, wet, n, i, j, i, j - 1) + Neighbour(phi, wet, n, i, j, i, j + 1))
  {}

  /** Diffusion alone never leaves the range of the wet values; the reaction moves the two ends of
      the range by at most dt times its own extremes. */
  lemma MaximumPrinciple(phi: Grid, wet: Mask, temp: Grid, reaction: Reaction, n: nat,
                         lo: real, hi: real, rlo: real, rhi: real)
    requires Square(phi, n) && Square(wet, n) && Square(temp, n)
    requires WetWithin(phi, wet, n, lo, hi) && RatesWithin(phi, wet, temp, reaction, n, rlo, rhi)
    ensures WetWithin(Step(phi, wet, temp, reaction, n), wet, n, lo + DT * rlo, hi + DT * rhi)
  {
    forall i, j | 0 <= i < n && 0 <= j < n && wet[i][j]
      ensures lo + DT * rlo <= Step(phi, wet, temp, reaction, n)[i][j] <= hi + DT * rhi
    {
      StepInNumbers(phi, wet, temp, reaction, n, i, j);
    }
  }

  /** After `steps` accepted steps every wet value lies in the initial wet range widened by 0.9 per
      step, and dry land is still exactly zero. */
  lemma {:induction false} RunStaysInRange(phi: Grid, wet: Mask, temp: Grid, reaction: Reaction, n: nat,
                                           steps: nat, lo: real, hi: real)
    requires Square(phi, n) && Square(wet, n) && Square(temp, n)
    requires WetWithin(phi, wet, n, lo, hi) && DryAtZero(phi, wet, n)
    requires Run(phi, wet, temp, reaction, n, steps).Some?
    ensures var g := Run(phi, wet, temp, reaction, n, steps).value;
            && WetWithin(g, wet, n, lo - 0.9 * steps as real, hi + 0.9 * steps as real)
            && DryAtZero(g, wet, n)
  {
    if steps > 0 {
      RunStaysInRange(phi, wet, temp, reaction, n, steps - 1, lo, hi);
      var before := Run(phi, wet, temp, reaction, n, steps - 1).value;
      MaximumPrinciple(before, wet, temp, reaction, n,
                       lo - 0.9 * (steps - 1) as real, hi + 0.9 * (steps - 1) as real,
                       -REACTION_LIMIT, REACTION_LIMIT);
    }
  }

  // ---- Runs with a constant reaction -------------------------------------------------------

  ghost predicate WetAt(phi: Grid, wet: Mask, n: nat, x: real)
    requires Square(phi, n) && Square(wet, n)
  {
    forall i, j :: 0 <= i < n && 0 <= j < n && wet[i][j] ==> phi[i][j] == x
  }

  function Always(c: real): Reaction { (_, _) => Some(c) }

  /** Level water rises by 0.018 times a constant reaction in every step, and the run goes on for
      every constant between -50 and 50. */
  lemma {:induction false} LevelWaterRises(phi: Grid, wet: Mask, temp: Grid, n: nat, steps: nat, x: real, c: real)
    requires Square(phi, n) && Square(wet, n) && Square(temp, n) && WetAt(phi, wet, n, x) && -50.0 <= c <= 50.0
    ensures Run(phi, wet, temp, Always(c), n, steps).Some?
    ensures WetAt(Run(phi, wet, temp, Always(c), n, steps).value, wet, n, x + 0.018 * Repeated(c, steps))
  {
    if steps > 0 {
      LevelWaterRises(phi, wet, temp, n, steps - 1, x, c);
      var before := Run(phi, wet, temp, Always(c), n, steps - 1).value;
      forall i, j | 0 <= i < n && 0 <= j < n && wet[i][j]
        ensures Step(before, wet, temp, Always(c), n)[i][j] == x + 0.018 * Repeated(c, steps)
      {
        StepInNumbers(before, wet, temp, Always(c), n, i, j);
      }
    }
  }

  /** With any other constant the run stops at once if there is water at all. */
  lemma StrongReactionStops(phi: Grid, wet: Mask, temp: Grid, n: nat, steps: nat, c: real, i: int, j: int)
    requires Square(phi, n) && Square(wet, n) && Square(temp, n) && InBounds(n, i, j) && wet[i][j]
    requires steps > 0 && !(-50.0 <= c <= 50.0)
    ensures Run(phi, wet, temp, Always(c), n, steps).None?
  {
    var always := Always(c);
    assert always(phi[i][j], temp[i][j]) == Some(c);
    assert Run(phi, wet, temp, Always(c), n, 0) == Some(phi);
    assert Run(phi, wet, temp, Always(c), n, 1).None?;
    RunStaysStopped(phi, wet, temp, Always(c), n, 1, steps);
  }
}
