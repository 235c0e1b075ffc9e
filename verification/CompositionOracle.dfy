/**
 The composition oracle's main program over real arithmetic: terrain grid, normalisation, water
 mask, seeded Allen-Cahn run on two buffers, and the scene score.
 */
module CompositionOracle {
  import opened MaskedDiffusion
  import opened Options
  import opened RealFacts

  const T_COLD := 0.25
  const T_HOT := 0.75
  const T_MID := 0.5
  const WET_BELOW := 0.4
  const FAR := 1000000000.0

  type Terrain = (real, real) -> Option<real>

  datatype Reason = TerrainNan | TerrainFlat | ReactionDiverged
  datatype Outcome = Invalid(reason: Reason) | Valid(fitness: real, valleyIce: real, dryIntact: real, hotWater: real)

  /** An array holds the values of a grid. */
  ghost predicate Holds<T>(a: array2<T>, g: seq<seq<T>>)
    reads a
  {
    && a.Length0 == a.Length1 && Square(g, a.Length0)
    && forall i, j :: 0 <= i < a.Length0 && 0 <= j < a.Length1 ==> a[i, j] == g[i][j]
  }

  // ---- The time loop -----------------------------------------------------------------------

  method SweepRow(phi: array2<real>, phiNew: array2<real>, wetMask: array2<bool>, temp: array2<real>,
                  reaction: Reaction, i: nat, ghost g: Grid, ghost wet: Mask, ghost t: Grid)
    returns (ok: bool)
    requires phi != phiNew && temp != phiNew
    requires Holds(phi, g) && Holds(wetMask, wet) && Holds(temp, t)
    requires phiNew.Length0 == phiNew.Length1 == phi.Length0 == wetMask.Length0 == temp.Length0
    requires i < phi.Length0
    modifies phiNew
    ensures ok <==> forall b :: 0 <= b < phi.Length0 && wet[i][b] ==> Bounded(reaction(g[i][b], t[i][b]))
    ensures ok ==> forall b :: 0 <= b < phi.Length0 ==> phiNew[i, b] == StepCell(g, wet, t, reaction, phi.Length0, i, b)
    ensures forall a, b :: 0 <= a < phi.Length0 && 0 <= b < phi.Length0 && a != i ==> phiNew[a, b] == old(phiNew[a, b])
  {
    var n := phi.Length0;
    var j := 0;
    while j < n
      invariant 0 <= j <= n
      invariant forall b :: 0 <= b < j && wet[i][b] ==> Bounded(reaction(g[i][b], t[i][b]))
      invariant forall b :: 0 <= b < j ==> phiNew[i, b] == StepCell(g, wet, t, reaction, n, i, b)
      invariant forall a, b :: 0 <= a < n && 0 <= b < n && a != i ==> phiNew[a, b] == old(phiNew[a, b])
    {
      if !wetMask[i, j] {
        phiNew[i, j] := 0.0;
      } else {
        var p := phi[i, j];
        var pL := if i > 0 && wetMask[i - 1, j] then phi[i - 1, j] else p;
        var pR := if i < n - 1 && wetMask[i + 1, j] then phi[i + 1, j] else p;
        var pD := if j > 0 && wetMask[i, j - 1] then phi[i, j - 1] else p;
        var pU := if j < n - 1 && wetMask[i, j + 1] then phi[i, j + 1] else p;
        var lap := pL + pR + pD + pU - 4.0 * p;
        assert lap == Laplacian(g, wet, n, i, j);
        var r := reaction(p, temp[i, j]);
        if r.None? || r.value > REACTION_LIMIT || r.value < -REACTION_LIMIT {
          assert !Bounded(reaction(g[i][j], t[i][j]));
          return false;
        }
        phiNew[i, j] := p + DT * (DIFFUSIVITY * lap + r.value);
      }
      j := j + 1;
    }
    ok := true;
  }

  /** One sweep over the grid, row by row, writing only the second buffer. */
  method SweepAll(phi: array2<real>, phiNew: array2<real>, wetMask: array2<bool>, temp: array2<real>,
                  reaction: Reaction, ghost g: Grid, ghost wet: Mask, ghost t: Grid)
    returns (ok: bool)
    requires phi != phiNew && temp != phiNew
    requires Holds(phi, g) && Holds(wetMask, wet) && Holds(temp, t)
    requires phiNew.Length0 == phiNew.Length1 == phi.Length0 == wetMask.Length0 == temp.Length0
    modifies phiNew
    ensures ok <==> Stable(g, wet, t, reaction, phi.Length0)
    ensures ok ==> Holds(phiNew, Step(g, wet, t, reaction, phi.Length0))
  {
    var n := phi.Length0;
    var i := 0;
    while i < n
      invariant 0 <= i <= n
      invariant forall a, b :: 0 <= a < i && 0 <= b < n && wet[a][b] ==> Bounded(reaction(g[a][b], t[a][b]))
      invariant forall a, b :: 0 <= a < i && 0 <= b < n ==> phiNew[a, b] == StepCell(g, wet, t, reaction, n, a, b)
    {
      ok := SweepRow(phi, phiNew, wetMask, temp, reaction, i, g, wet, t);
      if !ok {
        return;
      }
      i := i + 1;
    }
    ok := true;
  }

  method CopyBack(phi: array2<real>, phiNew: array2<real>, ghost g: Grid)
    requires phi != phiNew && Holds(phiNew, g) && phi.Length0 == phi.Length1 == phiNew.Length0
    modifies phi
    ensures Holds(phi, g)
  {
    var n := phi.Length0;
    var i := 0;
    while i < n
      invariant 0 <= i <= n
      invariant forall a, b :: 0 <= a < i && 0 <= b < n ==> phi[a, b] == g[a][b]
      invariant Holds(phiNew, g)
    {
      var j := 0;
      while j < n
        invariant 0 <= j <= n
        invariant forall a, b :: 0 <= a < i && 0 <= b < n ==> phi[a, b] == g[a][b]
        invariant forall b :: 0 <= b < j ==> phi[i, b] == g[i][b]
        invariant Holds(phiNew, g)
      {
        phi[i, j] := phiNew[i, j];
        j := j + 1;
      }
      i := i + 1;
    }
  }

  /** Runs the solver on two buffers; the result is the immutable run, or a divergence exactly when
      that run stops. */
  method Evolve(phi: array2<real>, phiNew: array2<real>, wetMask: array2<bool>, temp: array2<real>,
                reaction: Reaction, steps: nat, ghost g: Grid, ghost wet: Mask, ghost t: Grid)
    returns (failure: Option<Reason>)
    requires phi != phiNew && temp != phi && temp != phiNew
    requires Holds(phi, g) && Holds(wetMask, wet) && Holds(temp, t)
    requires phiNew.Length0 == phiNew.Length1 == phi.Length0 == wetMask.Length0 == temp.Length0
    modifies phi, phiNew
    ensures failure == None || failure == Some(ReactionDiverged)
    ensures failure == None <==> Run(g, wet, t, reaction, phi.Length0, steps).Some?
    ensures failure == None ==> Holds(phi, Run(g, wet, t, reaction, phi.Length0, steps).value)
  {
    var n := phi.Length0;
    var s := 0;
    while s < steps
      invariant 0 <= s <= steps
      invariant Run(g, wet, t, reaction, n, s).Some?
      invariant Holds(phi, Run(g, wet, t, reaction, n, s).value)
      invariant Holds(temp, t)
    {
      ghost var current := Run(g, wet, t, reaction, n, s).value;
      var ok := SweepAll(phi, phiNew, wetMask, temp, reaction, current, wet, t);
      if !ok {
        RunStaysStopped(g, wet, t, reaction, n, s + 1, steps);
        return Some(ReactionDiverged);
      }
      CopyBack(phi, phiNew, Step(current, wet, t, reaction, n));
      s := s + 1;
    }
    failure := None;
  }

  // ---- The scene on immutable grids --------------------------------------------------------

  function Coordinate(n: nat, k: int): real
    requires n >= 2
  {
    -1.0 + 2.0 * k as real / (n - 1) as real
  }

  function Sample(terrain: Terrain, n: nat, i: int, j: int): Option<real>
    requires n >= 2
  {
    terrain(Coordinate(n, j), Coordinate(n, i))
  }

  predicate FiniteTerrain(terrain: Terrain, n: nat)
    requires n >= 2
  {
    forall i, j :: 0 <= i < n && 0 <= j < n ==> Sample(terrain, n, i, j).Some?
  }

  function Raw(terrain: Terrain, n: nat): (g: Grid)
    requires n >= 2 && FiniteTerrain(terrain, n)
    ensures Square(g, n)
    ensures forall i, j :: 0 <= i < n && 0 <= j < n ==> g[i][j] == Sample(terrain, n, i, j).value
  {
    seq(n, i requires 0 <= i < n => seq(n, j requires 0 <= j < n => Sample(terrain, n, i, j).value))
  }

  /** The running minimum over the cells before (i, j) in row order. */
  function Lowest(g: Grid, n: nat, i: nat, j: nat): real
    requires Square(g, n) && i <= n && j <= n && (i == n ==> j == 0)
    decreases i, j
  {
    if j > 0 then Min(Lowest(g, n, i, j - 1), g[i][j - 1])
    else if i > 0 then Lowest(g, n, i - 1, n)
    else FAR
  }

  function Highest(g: Grid, n: nat, i: nat, j: nat): real
    requires Square(g, n) && i <= n && j <= n && (i == n ==> j == 0)
    decreases i, j
  {
    if j > 0 then Max(Highest(g, n, i, j - 1), g[i][j - 1])
    else if i > 0 then Highest(g, n, i - 1, n)
    else -FAR
  }

  function Normalised(raw: Grid, n: nat, lo: real, range: real): (g: Grid)
    requires Square(raw, n) && range >= 0.01
    ensures Square(g, n)
    ensures forall i, j :: 0 <= i < n && 0 <= j < n ==> g[i][j] == (raw[i][j] - lo) / range
  {
    seq(n, i requires 0 <= i < n => seq(n, j requires 0 <= j < n => (raw[i][j] - lo) / range))
  }

  predicate Seeded(n: nat, i: int, j: int)
    requires n >= 2
  {
    var c := (n - 1) / 2;
    -2 <= i - c <= 2 && -2 <= j - c <= 2
  }

  function InitialPhi(h: Grid, n: nat, i: int, j: int): real
    requires n >= 2 && Square(h, n) && InBounds(n, i, j)
  {
    if h[i][j] < WET_BELOW then (if Seeded(n, i, j) then 0.65 else 0.05) else 0.0
  }

  /** Cold inside a disc of radius 0.3 n around the grid centre; squares avoid the root. */
  function InitialTemperature(n: nat, i: int, j: int): real
    requires n >= 2
  {
    var c := (n - 1) as real * 0.5;
    var di, dj := i as real - c, j as real - c;
    if di * di + dj * dj < (n as real * 0.3) * (n as real * 0.3) then T_COLD else T_HOT
  }

  function PhiGrid(h: Grid, n: nat): (g: Grid)
    requires n >= 2 && Square(h, n)
    ensures Square(g, n)
    ensures forall i, j :: 0 <= i < n && 0 <= j < n ==> g[i][j] == InitialPhi(h, n, i, j)
  {
    seq(n, i requires 0 <= i < n => seq(n, j requires 0 <= j < n => InitialPhi(h, n, i, j)))
  }

  function TemperatureGrid(n: nat): (g: Grid)
    requires n >= 2
    ensures Square(g, n)
    ensures forall i, j :: 0 <= i < n && 0 <= j < n ==> g[i][j] == InitialTemperature(n, i, j)
  {
    seq(n, i requires 0 <= i < n => seq(n, j requires 0 <= j < n => InitialTemperature(n, i, j)))
  }

  function WetGrid(h: Grid, n: nat): (m: Mask)
    requires Square(h, n)
    ensures Square(m, n)
    ensures forall i, j :: 0 <= i < n && 0 <= j < n ==> (m[i][j] <==> h[i][j] < WET_BELOW)
  {
    seq(n, i requires 0 <= i < n => seq(n, j requires 0 <= j < n => h[i][j] < WET_BELOW))
  }

  // ---- Scoring -----------------------------------------------------------------------------

  datatype Cell = ColdWet | ColdDry | HotWet | HotDry

  function Classify(h: real, t: real): Cell {
    if t <= T_MID then (if h < WET_BELOW then ColdWet else ColdDry)
    else (if h < WET_BELOW then HotWet else HotDry)
  }

  /** The three successes that are counted: ice in cold water, dry cold land, liquid warm water. */
  predicate Success(c: Cell, p: real) {
    match c
    case ColdWet => p > 0.5
    case ColdDry => p < 0.1
    case HotWet => p < 0.5
    case HotDry => false
  }

  predicate IsCounted(h: Grid, t: Grid, g: Grid, n: nat, c: Cell, only: bool, a: int, b: int)
    requires Square(h, n) && Square(t, n) && Square(g, n) && InBounds(n, a, b)
  {
    Classify(h[a][b], t[a][b]) == c && (only ==> Success(c, g[a][b]))
  }

  /** Cells of a class before (i, j) in row order; with `only`, the successful ones among them. */
  function Tally(h: Grid, t: Grid, g: Grid, n: nat, c: Cell, only: bool, i: nat, j: nat): nat
    requires Square(h, n) && Square(t, n) && Square(g, n)
    requires i <= n && j <= n && (i == n ==> j == 0)
    decreases i, j
  {
    if j > 0 then
      Tally(h, t, g, n, c, only, i, j - 1)
      + if IsCounted(h, t, g, n, c, only, i, j - 1) then 1 else 0
    else if i > 0 then Tally(h, t, g, n, c, only, i - 1, n)
    else 0
  }

  function Share(part: nat, total: nat, whenEmpty: real): real {
    if total > 0 then part as real / total as real else whenEmpty
  }

  function ShareOf(h: Grid, t: Grid, g: Grid, n: nat, c: Cell, whenEmpty: real): real
    requires Square(h, n) && Square(t, n) && Square(g, n)
  {
    Share(Tally(h, t, g, n, c, true, n, 0), Tally(h, t, g, n, c, false, n, 0), whenEmpty)
  }

  function ScoreOf(h: Grid, t: Grid, g: Grid, n: nat): Outcome
    requires Square(h, n) && Square(t, n) && Square(g, n)
  {
    var valleyIce := ShareOf(h, t, g, n, ColdWet, 0.0);
    var dryIntact := ShareOf(h, t, g, n, ColdDry, 1.0);
    var hotWater := ShareOf(h, t, g, n, HotWet, 1.0);
    Valid(0.5 * valleyIce + 0.3 * dryIntact + 0.2 * hotWater, valleyIce, dryIntact, hotWater)
  }

  /** The outcome for normalised heights: the solver's run and its score. */
  function Freeze(h: Grid, reaction: Reaction, n: nat, steps: nat): Outcome
    requires n >= 2 && Square(h, n)
  {
    match Run(PhiGrid(h, n), WetGrid(h, n), TemperatureGrid(n), reaction, n, steps)
    case None => Invalid(ReactionDiverged)
    case Some(g) => ScoreOf(h, TemperatureGrid(n), g, n)
  }

  /** The outcome for terrain samples with their extremes. */
  function FromTerrain(raw: Grid, reaction: Reaction, n: nat, steps: nat, lo: real, hi: real): Outcome
    requires n >= 2 && Square(raw, n)
  {
    if hi - lo < 0.01 then Invalid(TerrainFlat) else Freeze(Normalised(raw, n, lo, hi - lo), reaction, n, steps)
  }

  lemma FromTerrainIs(raw: Grid, reaction: Reaction, n: nat, steps: nat, lo: real, hi: real)
    requires n >= 2 && Square(raw, n) && hi - lo >= 0.01
    ensures FromTerrain(raw, reaction, n, steps, lo, hi) == Freeze(Normalised(raw, n, lo, hi - lo), reaction, n, steps)
  {}

  /** The outcome of the whole program. */
  function Compose(terrain: Terrain, reaction: Reaction, n: nat, steps: nat): Outcome
    requires n >= 2
  {
    if !FiniteTerrain(terrain, n) then Invalid(TerrainNan)
    else
      var raw := Raw(terrain, n);
      FromTerrain(raw, reaction, n, steps, Lowest(raw, n, n, 0), Highest(raw, n, n, 0))
  }

  /** All cells of class `c` before (i, j) are successes. */
  ghost predicate AllSucceed(h: Grid, t: Grid, g: Grid, n: nat, c: Cell, i: nat, j: nat)
    requires Square(h, n) && Square(t, n) && Square(g, n)
  {
    forall a, b :: 0 <= a < n && 0 <= b < n && (a < i || (a == i && b < j)) && Classify(h[a][b], t[a][b]) == c
                   ==> Success(c, g[a][b])
  }

  lemma {:induction false} TallyOnly(h: Grid, t: Grid, g: Grid, n: nat, c: Cell, i: nat, j: nat)
    requires Square(h, n) && Square(t, n) && Square(g, n)
    requires i <= n && j <= n && (i == n ==> j == 0)
    ensures Tally(h, t, g, n, c, true, i, j) <= Tally(h, t, g, n, c, false, i, j)
    ensures Tally(h, t, g, n, c, true, i, j) == Tally(h, t, g, n, c, false, i, j)
       <==> AllSucceed(h, t, g, n, c, i, j)
    decreases i, j
  {
    if j > 0 {
      TallyOnly(h, t, g, n, c, i, j - 1);
    } else if i > 0 {
      TallyOnly(h, t, g, n, c, i - 1, n);
    }
  }

  lemma ShareBounds(h: Grid, t: Grid, g: Grid, n: nat, c: Cell, whenEmpty: real)
    requires Square(h, n) && Square(t, n) && Square(g, n) && 0.0 <= whenEmpty <= 1.0
    ensures 0.0 <= ShareOf(h, t, g, n, c, whenEmpty) <= 1.0
    ensures Tally(h, t, g, n, c, false, n, 0) > 0 || whenEmpty == 1.0 ==>
              (ShareOf(h, t, g, n, c, whenEmpty) == 1.0 <==> AllSucceed(h, t, g, n, c, n, 0))
  {
    TallyOnly(h, t, g, n, c, n, 0);
    var part, total := Tally(h, t, g, n, c, true, n, 0), Tally(h, t, g, n, c, false, n, 0);
    if total > 0 {
      Portion(part, total);
    }
  }

  /** With dry land at zero the dry-land share is always one, so a score is never below 0.3; it is
      one exactly when there is cold water, all of it froze, and no warm water did. */
  lemma ScoreBounds(h: Grid, t: Grid, g: Grid, n: nat)
    requires Square(h, n) && Square(t, n) && Square(g, n)
    requires DryAtZero(g, WetGrid(h, n), n)
    ensures ScoreOf(h, t, g, n).dryIntact == 1.0
    ensures 0.3 <= ScoreOf(h, t, g, n).fitness <= 1.0
    ensures ScoreOf(h, t, g, n).fitness == 1.0 <==>
              && Tally(h, t, g, n, ColdWet, false, n, 0) > 0
              && AllSucceed(h, t, g, n, ColdWet, n, 0) && AllSucceed(h, t, g, n, HotWet, n, 0)
  {
    ShareBounds(h, t, g, n, ColdWet, 0.0);
    ShareBounds(h, t, g, n, ColdDry, 1.0);
    ShareBounds(h, t, g, n, HotWet, 1.0);
    assert AllSucceed(h, t, g, n, ColdDry, n, 0);
  }

  lemma FrozenSceneScores(h: Grid, reaction: Reaction, n: nat, steps: nat)
    requires n >= 2 && Square(h, n) && Freeze(h, reaction, n, steps).Valid?
    ensures var o := Freeze(h, reaction, n, steps); 0.3 <= o.fitness <= 1.0 && o.dryIntact == 1.0
  {
    RunStaysInRange(PhiGrid(h, n), WetGrid(h, n), TemperatureGrid(n), reaction, n, steps, 0.05, 0.65);
    var field := Run(PhiGrid(h, n), WetGrid(h, n), TemperatureGrid(n), reaction, n, steps).value;
    ScoreBounds(h, TemperatureGrid(n), field, n);
  }

  /** Every outcome that is not a refusal scores between 0.3 and 1, with the dry-land term at its
      maximum, whatever terrain and reaction were supplied. */
  lemma EveryValidSceneScores(terrain: Terrain, reaction: Reaction, n: nat, steps: nat)
    requires n >= 2 && Compose(terrain, reaction, n, steps).Valid?
    ensures var o := Compose(terrain, reaction, n, steps);
            0.3 <= o.fitness <= 1.0 && o.dryIntact == 1.0
  {
    var raw := Raw(terrain, n);
    var lo, hi := Lowest(raw, n, n, 0), Highest(raw, n, n, 0);
    FromTerrainIs(raw, reaction, n, steps, lo, hi);
    FrozenSceneScores(Normalised(raw, n, lo, hi - lo), reaction, n, steps);
  }

  /** The running extremes bound every cell before (i, j) and stay within the sentinels. */
  lemma {:induction false} ExtremesBound(g: Grid, n: nat, i: nat, j: nat)
    requires Square(g, n) && i <= n && j <= n && (i == n ==> j == 0)
    ensures Lowest(g, n, i, j) <= FAR && Highest(g, n, i, j) >= -FAR
    ensures forall a, b :: 0 <= a < n && 0 <= b < n && (a < i || (a == i && b < j)) ==>
              Lowest(g, n, i, j) <= g[a][b] <= Highest(g, n, i, j)
    decreases i, j
  {
    if j > 0 {
      ExtremesBound(g, n, i, j - 1);
    } else if i > 0 {
      ExtremesBound(g, n, i - 1, n);
    }
  }

  lemma {:induction false} LowestIsAttained(g: Grid, n: nat, i: nat, j: nat) returns (a: int, b: int)
    requires Square(g, n) && i <= n && j <= n && (i == n ==> j == 0)
    ensures Lowest(g, n, i, j) == FAR || (InBounds(n, a, b) && g[a][b] == Lowest(g, n, i, j))
    decreases i, j
  {
    a, b := 0, 0;
    if j > 0 {
      a, b := LowestIsAttained(g, n, i, j - 1);
      if g[i][j - 1] < Lowest(g, n, i, j - 1) {
        a, b := i, j - 1;
      }
    } else if i > 0 {
      a, b := LowestIsAttained(g, n, i - 1, n);
    }
  }

  lemma {:induction false} HighestIsAttained(g: Grid, n: nat, i: nat, j: nat) returns (a: int, b: int)
    requires Square(g, n) && i <= n && j <= n && (i == n ==> j == 0)
    ensures Highest(g, n, i, j) == -FAR || (InBounds(n, a, b) && g[a][b] == Highest(g, n, i, j))
    decreases i, j
  {
    a, b := 0, 0;
    if j > 0 {
      a, b := HighestIsAttained(g, n, i, j - 1);
      if g[i][j - 1] > Highest(g, n, i, j - 1) {
        a, b := i, j - 1;
      }
    } else if i > 0 {
      a, b := HighestIsAttained(g, n, i - 1, n);
    }
  }

  /** Some cell holds the value. */
  ghost predicate Occurs(g: Grid, n: nat, x: real)
    requires Square(g, n)
  {
    exists a, b :: InBounds(n, a, b) && g[a][b] == x
  }

  /** The running minimum is a height of the terrain exactly when some height does not exceed the
      sentinel it starts from; likewise for the maximum. */
  lemma ExtremesOccurExactly(g: Grid, n: nat)
    requires Square(g, n)
    ensures Occurs(g, n, Lowest(g, n, n, 0)) <==> exists a, b :: InBounds(n, a, b) && g[a][b] <= 1000000000.0
    ensures Occurs(g, n, Highest(g, n, n, 0)) <==> exists a, b :: InBounds(n, a, b) && g[a][b] >= -1000000000.0
  {
    ExtremesBound(g, n, n, 0);
    var a, b := LowestIsAttained(g, n, n, 0);
    var c, d := HighestIsAttained(g, n, n, 0);
  }

  lemma UnitShare(x: real, range: real)
    requires 0.0 <= x <= range && range > 0.0
    ensures 0.0 <= x / range <= 1.0
    ensures x / range == 0.0 <==> x == 0.0
    ensures x / range == 1.0 <==> x == range
  {
    assert x / range * range == x;
  }

  /** Normalising sends the lowest value to 0, the highest to 1, and no other value there. */
  lemma NormalisedExtremes(raw: Grid, n: nat, lo: real, range: real)
    requires Square(raw, n) && range >= 0.01
    requires forall a, b :: 0 <= a < n && 0 <= b < n ==> lo <= raw[a][b] <= lo + range
    ensures var h := Normalised(raw, n, lo, range);
            && (forall a, b :: 0 <= a < n && 0 <= b < n ==> 0.0 <= h[a][b] <= 1.0)
            && (Occurs(h, n, 0.0) <==> Occurs(raw, n, lo)) && (Occurs(h, n, 1.0) <==> Occurs(raw, n, lo + range))
  {
    var h := Normalised(raw, n, lo, range);
    forall a, b | 0 <= a < n && 0 <= b < n
      ensures 0.0 <= h[a][b] <= 1.0
      ensures (h[a][b] == 0.0 <==> raw[a][b] == lo) && (h[a][b] == 1.0 <==> raw[a][b] == lo + range)
    {
      UnitShare(raw[a][b] - lo, range);
    }
  }

  /** The heights of a terrain that is not rejected lie between 0 and 1.  Its lowest cell is water
      at height 0, unless all samples exceed the sentinel; its highest cell is dry land at height 1,
      unless all lie below the other sentinel. */
  lemma SceneHasWaterAndLand(terrain: Terrain, n: nat)
    requires n >= 2 && FiniteTerrain(terrain, n)
    requires Highest(Raw(terrain, n), n, n, 0) - Lowest(Raw(terrain, n), n, n, 0) >= 0.01
    ensures var raw := Raw(terrain, n);
            var lo := Lowest(raw, n, n, 0);
            var h := Normalised(raw, n, lo, Highest(raw, n, n, 0) - lo);
            && (forall a, b :: 0 <= a < n && 0 <= b < n ==> 0.0 <= h[a][b] <= 1.0)
            && (Occurs(h, n, 0.0) <==> exists a, b :: InBounds(n, a, b) && raw[a][b] <= 1000000000.0)
            && (Occurs(h, n, 1.0) <==> exists a, b :: InBounds(n, a, b) && raw[a][b] >= -1000000000.0)
            && (forall a, b :: 0 <= a < n && 0 <= b < n && h[a][b] == 0.0 ==> WetGrid(h, n)[a][b])
            && (forall a, b :: 0 <= a < n && 0 <= b < n && h[a][b] == 1.0 ==> !WetGrid(h, n)[a][b])
  {
    var raw := Raw(terrain, n);
    var lo, range := Lowest(raw, n, n, 0), Highest(raw, n, n, 0) - Lowest(raw, n, n, 0);
    ExtremesBound(raw, n, n, 0);
    ExtremesOccurExactly(raw, n);
    NormalisedExtremes(raw, n, lo, range);
  }

  // ---- The score by sets of cells ----------------------------------------------------------

  type CellSet = set<(int, int)>

  /** Less than 0.3 n from the centre of the grid. */
  predicate Cold(n: nat, i: int, j: int) {
    var y, x := i as real - (n - 1) as real * 0.5, j as real - (n - 1) as real * 0.5;
    y * y + x * x < (0.3 * n as real) * (0.3 * n as real)
  }

  ghost function ColdCells(n: nat): CellSet {
    set i, j | 0 <= i < n && 0 <= j < n && Cold(n, i, j) :: (i, j)
  }

  ghost function Below(g: Grid, n: nat, x: real): CellSet
    requires Square(g, n)
  {
    set i, j | 0 <= i < n && 0 <= j < n && g[i][j] < x :: (i, j)
  }

  ghost function Water(h: Grid, n: nat): CellSet
    requires Square(h, n)
  {
    Below(h, n, 0.4)
  }

  ghost function ColdWater(h: Grid, n: nat): CellSet
    requires Square(h, n)
  {
    Water(h, n) * ColdCells(n)
  }

  ghost function WarmWater(h: Grid, n: nat): CellSet
    requires Square(h, n)
  {
    Water(h, n) - ColdCells(n)
  }

  ghost function ColdLand(h: Grid, n: nat): CellSet
    requires Square(h, n)
  {
    ColdCells(n) - Water(h, n)
  }

  ghost function Above(g: Grid, n: nat, x: real): CellSet
    requires Square(g, n)
  {
    set i, j | 0 <= i < n && 0 <= j < n && g[i][j] > x :: (i, j)
  }

  /** The share of the cells of `all` that lie in `good`. */
  ghost function Fraction(good: CellSet, all: CellSet, whenEmpty: real): real {
    if all == {} then whenEmpty else |good * all| as real / |all| as real
  }

  /** The score of a final field: half for cold water that froze, three tenths for cold land left
      alone, two tenths for warm water still liquid. */
  ghost predicate IsScore(o: Outcome, h: Grid, g: Grid, n: nat)
    requires Square(h, n) && Square(g, n)
  {
    && o.Valid?
    && o.valleyIce == Fraction(Above(g, n, 0.5), ColdWater(h, n), 0.0)
    && o.dryIntact == Fraction(Below(g, n, 0.1), ColdLand(h, n), 1.0)
    && o.hotWater == Fraction(Below(g, n, 0.5), WarmWater(h, n), 1.0)
    && o.fitness == 0.5 * o.valleyIce + 0.3 * o.dryIntact + 0.2 * o.hotWater
  }

  /** The cells that a tally counts, in row order. */
  ghost function Counted(h: Grid, t: Grid, g: Grid, n: nat, c: Cell, only: bool, i: nat, j: nat)
    : (cells: seq<(int, int)>)
    requires Square(h, n) && Square(t, n) && Square(g, n)
    requires i <= n && j <= n && (i == n ==> j == 0)
    ensures |cells| == Tally(h, t, g, n, c, only, i, j)
    decreases i, j
  {
    if j > 0 then
      Counted(h, t, g, n, c, only, i, j - 1)
      + if IsCounted(h, t, g, n, c, only, i, j - 1) then [(i as int, j - 1)] else []
    else if i > 0 then Counted(h, t, g, n, c, only, i - 1, n)
    else []
  }

  lemma {:induction false} CountedMembers(h: Grid, t: Grid, g: Grid, n: nat, c: Cell, only: bool, i: nat, j: nat)
    requires Square(h, n) && Square(t, n) && Square(g, n)
    requires i <= n && j <= n && (i == n ==> j == 0)
    ensures forall a, b :: (a, b) in Counted(h, t, g, n, c, only, i, j) <==>
              0 <= a < n && 0 <= b < n && (a < i || (a == i && b < j)) && IsCounted(h, t, g, n, c, only, a, b)
    decreases i, j
  {
    if j > 0 {
      CountedMembers(h, t, g, n, c, only, i, j - 1);
    } else if i > 0 {
      CountedMembers(h, t, g, n, c, only, i - 1, n);
    }
  }

  ghost predicate NoRepeats(cells: seq<(int, int)>) {
    forall x, y :: 0 <= x < y < |cells| ==> cells[x] != cells[y]
  }

  lemma NoRepeatOfNew(cells: seq<(int, int)>, cell: (int, int))
    requires NoRepeats(cells)
    ensures cell !in cells ==> NoRepeats(cells + [cell])
    ensures cells + [] == cells
  {}

  lemma {:induction false} CountedOnce(h: Grid, t: Grid, g: Grid, n: nat, c: Cell, only: bool, i: nat, j: nat)
    requires Square(h, n) && Square(t, n) && Square(g, n)
    requires i <= n && j <= n && (i == n ==> j == 0)
    ensures NoRepeats(Counted(h, t, g, n, c, only, i, j))
    decreases i, j
  {
    if j > 0 {
      CountedOnce(h, t, g, n, c, only, i, j - 1);
      CountedMembers(h, t, g, n, c, only, i, j - 1);
      NoRepeatOfNew(Counted(h, t, g, n, c, only, i, j - 1), (i as int, j - 1));
    } else if i > 0 {
      CountedOnce(h, t, g, n, c, only, i - 1, n);
    }
  }

  lemma {:induction false} CardinalityOfList(cells: seq<(int, int)>, all: CellSet)
    requires NoRepeats(cells) && forall p :: p in all <==> p in cells
    ensures |all| == |cells|
    decreases |cells|
  {
    if cells == [] {
      assert all == {};
    } else {
      var init, last := cells[..|cells| - 1], cells[|cells| - 1];
      assert cells == init + [last] && last !in init;
      CardinalityOfList(init, all - {last});
      assert last in all && |all - {last}| == |all| - 1;
    }
  }

  lemma TemperatureExactly(n: nat, i: int, j: int)
    requires n >= 2 && InBounds(n, i, j)
    ensures TemperatureGrid(n)[i][j] == if Cold(n, i, j) then 0.25 else 0.75
  {}

  /** Tells a cold grid cell by its temperature. */
  ghost predicate Separates(cold: CellSet, t: Grid, n: nat)
    requires Square(t, n)
  {
    && (forall p :: p in cold ==> InBounds(n, p.0, p.1))
    && forall i, j :: 0 <= i < n && 0 <= j < n ==> t[i][j] == if (i, j) in cold then 0.25 else 0.75
  }

  lemma TemperaturesSeparate(n: nat)
    requires n >= 2
    ensures Separates(ColdCells(n), TemperatureGrid(n), n)
  {
    var t := TemperatureGrid(n);
    forall i, j | 0 <= i < n && 0 <= j < n ensures t[i][j] == if (i, j) in ColdCells(n) then 0.25 else 0.75 {
      TemperatureExactly(n, i, j);
    }
  }

  lemma CountedIs(h: Grid, t: Grid, g: Grid, n: nat, c: Cell, only: bool, cells: CellSet)
    requires Square(h, n) && Square(t, n) && Square(g, n)
    requires forall p :: p in cells <==> InBounds(n, p.0, p.1) && IsCounted(h, t, g, n, c, only, p.0, p.1)
    ensures Tally(h, t, g, n, c, only, n, 0) == |cells|
  {
    CountedMembers(h, t, g, n, c, only, n, 0);
    CountedOnce(h, t, g, n, c, only, n, 0);
    forall p ensures p in cells <==> p in Counted(h, t, g, n, c, only, n, 0) {
      assert p == (p.0, p.1);
    }
    CardinalityOfList(Counted(h, t, g, n, c, only, n, 0), cells);
  }

  lemma ColdWaterCounted(h: Grid, t: Grid, g: Grid, n: nat, cold: CellSet)
    requires Square(h, n) && Square(t, n) && Square(g, n) && Separates(cold, t, n)
    ensures Tally(h, t, g, n, ColdWet, false, n, 0) == |Water(h, n) * cold|
    ensures Tally(h, t, g, n, ColdWet, true, n, 0) == |Above(g, n, 0.5) * (Water(h, n) * cold)|
  {
    CountedIs(h, t, g, n, ColdWet, false, Water(h, n) * cold);
    CountedIs(h, t, g, n, ColdWet, true, Above(g, n, 0.5) * (Water(h, n) * cold));
  }

  lemma ColdLandCounted(h: Grid, t: Grid, g: Grid, n: nat, cold: CellSet)
    requires Square(h, n) && Square(t, n) && Square(g, n) && Separates(cold, t, n)
    ensures Tally(h, t, g, n, ColdDry, false, n, 0) == |cold - Water(h, n)|
    ensures Tally(h, t, g, n, ColdDry, true, n, 0) == |Below(g, n, 0.1) * (cold - Water(h, n))|
  {
    CountedIs(h, t, g, n, ColdDry, false, cold - Water(h, n));
    CountedIs(h, t, g, n, ColdDry, true, Below(g, n, 0.1) * (cold - Water(h, n)));
  }

  lemma WarmWaterCounted(h: Grid, t: Grid, g: Grid, n: nat, cold: CellSet)
    requires Square(h, n) && Square(t, n) && Square(g, n) && Separates(cold, t, n)
    ensures Tally(h, t, g, n, HotWet, false, n, 0) == |Water(h, n) - cold|
    ensures Tally(h, t, g, n, HotWet, true, n, 0) == |Below(g, n, 0.5) * (Water(h, n) - cold)|
  {
    CountedIs(h, t, g, n, HotWet, false, Water(h, n) - cold);
    CountedIs(h, t, g, n, HotWet, true, Below(g, n, 0.5) * (Water(h, n) - cold));
  }

  lemma ScoreOfIsScore(h: Grid, g: Grid, n: nat)
    requires n >= 2 && Square(h, n) && Square(g, n)
    ensures IsScore(ScoreOf(h, TemperatureGrid(n), g, n), h, g, n)
  {
    var t := TemperatureGrid(n);
    TemperaturesSeparate(n);
    ColdWaterCounted(h, t, g, n, ColdCells(n));
    ColdLandCounted(h, t, g, n, ColdCells(n));
    WarmWaterCounted(h, t, g, n, ColdCells(n));
  }

  lemma FractionExactly(good: CellSet, all: CellSet, whenEmpty: real)
    requires all != {}
    ensures 0.0 <= Fraction(good, all, whenEmpty) <= 1.0
    ensures Fraction(good, all, whenEmpty) == 0.0 <==> good * all == {}
    ensures Fraction(good, all, whenEmpty) == 1.0 <==> all <= good
  {
    var both := good * all;
    assert all == both + (all - both) && |all| == |both| + |all - both|;
    Portion(|both|, |all|);
    assert both == all <==> all <= good;
    assert |all - both| == 0 <==> all - both == {};
  }

  /** The extreme scores when there is water of both kinds and dry land was left alone. */
  lemma ExtremeScores(o: Outcome, h: Grid, g: Grid, n: nat)
    requires Square(h, n) && Square(g, n) && IsScore(o, h, g, n) && o.dryIntact == 1.0
    requires ColdWater(h, n) != {} && WarmWater(h, n) != {}
    ensures var noneFroze, allFroze := Above(g, n, 0.5) * ColdWater(h, n) == {}, ColdWater(h, n) <= Above(g, n, 0.5);
            var noneLiquid, allLiquid := Below(g, n, 0.5) * WarmWater(h, n) == {}, WarmWater(h, n) <= Below(g, n, 0.5);
            && (o.fitness == 0.3 <==> noneFroze && noneLiquid)
            && (o.fitness == 1.0 <==> allFroze && allLiquid)
            && (allFroze && noneLiquid ==> o.fitness == 0.8)
            && (noneFroze && allLiquid ==> o.fitness == 0.5)
  {
    FractionExactly(Above(g, n, 0.5), ColdWater(h, n), 0.0);
    FractionExactly(Below(g, n, 0.5), WarmWater(h, n), 1.0);
  }

  /** Row `i` and column `j` are sampled from -1 to 1 in the second and the first coordinate. */
  function SampleInNumbers(terrain: Terrain, n: nat, i: int, j: int): Option<real>
    requires n >= 2
  {
    terrain(-1.0 + 2.0 * j as real / (n - 1) as real, -1.0 + 2.0 * i as real / (n - 1) as real)
  }

  /** Normalised samples between two bounds. */
  ghost predicate IsSceneWith(terrain: Terrain, n: nat, h: Grid, lo: real, hi: real)
    requires n >= 2 && Square(h, n)
  {
    && hi - lo >= 0.01
    && forall i, j :: 0 <= i < n && 0 <= j < n ==>
         var v := SampleInNumbers(terrain, n, i, j);
         v.Some? && lo <= v.value <= hi && h[i][j] == (v.value - lo) / (hi - lo)
  }

  /** Heights of the terrain, normalised. */
  ghost predicate IsScene(terrain: Terrain, n: nat, h: Grid)
    requires n >= 2 && Square(h, n)
  {
    exists lo, hi :: IsSceneWith(terrain, n, h, lo, hi)
  }

  lemma NormalisedIsSceneWith(terrain: Terrain, n: nat, lo: real, hi: real)
    requires n >= 2 && FiniteTerrain(terrain, n) && hi - lo >= 0.01
    requires forall i, j :: 0 <= i < n && 0 <= j < n ==> lo <= Raw(terrain, n)[i][j] <= hi
    ensures IsSceneWith(terrain, n, Normalised(Raw(terrain, n), n, lo, hi - lo), lo, hi)
  {
    forall i, j | 0 <= i < n && 0 <= j < n
      ensures var v := SampleInNumbers(terrain, n, i, j);
              v.Some? && lo <= v.value <= hi
              && Normalised(Raw(terrain, n), n, lo, hi - lo)[i][j] == (v.value - lo) / (hi - lo)
    {
      assert SampleInNumbers(terrain, n, i, j) == Sample(terrain, n, i, j);
      assert Raw(terrain, n)[i][j] == Sample(terrain, n, i, j).value;
    }
  }

  lemma NormalisedIsScene(terrain: Terrain, n: nat, lo: real, hi: real)
    requires n >= 2 && FiniteTerrain(terrain, n) && hi - lo >= 0.01
    requires lo == Lowest(Raw(terrain, n), n, n, 0) && hi == Highest(Raw(terrain, n), n, n, 0)
    ensures IsScene(terrain, n, Normalised(Raw(terrain, n), n, lo, hi - lo))
  {
    ExtremesBound(Raw(terrain, n), n, n, 0);
    NormalisedIsSceneWith(terrain, n, lo, hi);
  }

  lemma RefusalsExactly(terrain: Terrain, reaction: Reaction, n: nat, steps: nat)
    requires n >= 2
    ensures var o := Compose(terrain, reaction, n, steps);
            && (o == Invalid(TerrainNan) <==> !FiniteTerrain(terrain, n))
            && (o == Invalid(TerrainFlat) <==>
                  FiniteTerrain(terrain, n)
                  && Highest(Raw(terrain, n), n, n, 0) - Lowest(Raw(terrain, n), n, n, 0) < 0.01)
            && (o.Valid? ==> 0.3 <= o.fitness <= 1.0 && o.dryIntact == 1.0)
  {
    if Compose(terrain, reaction, n, steps).Valid? {
      EveryValidSceneScores(terrain, reaction, n, steps);
    }
  }

  /** The field at the start: dry land at 0, water at 0.05, and at 0.65 in the block of five by five
      around the middle cell, or the upper left of the four middle cells. */
  lemma StartExactly(h: Grid, n: nat, i: int, j: int)
    requires n >= 2 && Square(h, n) && InBounds(n, i, j)
    ensures PhiGrid(h, n)[i][j] == if h[i][j] >= 0.4 then 0.0
                                   else if -5 <= 2 * i - n + 1 <= 4 && -5 <= 2 * j - n + 1 <= 4 then 0.65
                                   else 0.05
    ensures WetGrid(h, n)[i][j] <==> h[i][j] < 0.4
  {}

  // ---- The program -------------------------------------------------------------------------

  ghost function RawOrZero(terrain: Terrain, n: nat): (g: Grid)
    requires n >= 2
    ensures Square(g, n)
    ensures forall i, j :: 0 <= i < n && 0 <= j < n && Sample(terrain, n, i, j).Some? ==>
              g[i][j] == Sample(terrain, n, i, j).value
  {
    seq(n, i requires 0 <= i < n => seq(n, j requires 0 <= j < n =>
      var v := Sample(terrain, n, i, j); if v.Some? then v.value else 0.0))
  }

  method ReadRow(heights: array2<real>, terrain: Terrain, i: nat, lo0: real, hi0: real, ghost raw: Grid)
    returns (ok: bool, lo: real, hi: real)
    requires heights.Length0 == heights.Length1 >= 2 && i < heights.Length0
    requires Square(raw, heights.Length0)
    requires forall b :: 0 <= b < heights.Length0 && Sample(terrain, heights.Length0, i, b).Some? ==>
               raw[i][b] == Sample(terrain, heights.Length0, i, b).value
    requires lo0 == Lowest(raw, heights.Length0, i, 0) && hi0 == Highest(raw, heights.Length0, i, 0)
    modifies heights
    ensures ok <==> forall b :: 0 <= b < heights.Length0 ==> Sample(terrain, heights.Length0, i, b).Some?
    ensures ok ==> forall b :: 0 <= b < heights.Length0 ==> heights[i, b] == raw[i][b]
    ensures forall a, b :: 0 <= a < heights.Length0 && 0 <= b < heights.Length0 && a != i ==>
              heights[a, b] == old(heights[a, b])
    ensures ok ==> lo == Lowest(raw, heights.Length0, i + 1, 0) && hi == Highest(raw, heights.Length0, i + 1, 0)
  {
    var n := heights.Length0;
    lo, hi := lo0, hi0;
    var j := 0;
    while j < n
      invariant 0 <= j <= n
      invariant forall b :: 0 <= b < j ==> Sample(terrain, n, i, b).Some?
      invariant forall b :: 0 <= b < j ==> heights[i, b] == raw[i][b]
      invariant forall a, b :: 0 <= a < n && 0 <= b < n && a != i ==> heights[a, b] == old(heights[a, b])
      invariant lo == Lowest(raw, n, i, j) && hi == Highest(raw, n, i, j)
    {
      var v := Sample(terrain, n, i, j);
      if v.None? {
        return false, lo, hi;
      }
      heights[i, j] := v.value;
      lo, hi := Min(lo, v.value), Max(hi, v.value);
      j := j + 1;
    }
    ok := true;
  }

  lemma RawAgrees(terrain: Terrain, n: nat)
    requires n >= 2 && FiniteTerrain(terrain, n)
    ensures RawOrZero(terrain, n) == Raw(terrain, n)
  {
    var a, b := RawOrZero(terrain, n), Raw(terrain, n);
    forall i | 0 <= i < n ensures a[i] == b[i] {
      assert forall j :: 0 <= j < n ==> a[i][j] == b[i][j];
    }
  }

  method ReadTerrain(heights: array2<real>, terrain: Terrain) returns (ok: bool, lo: real, hi: real)
    requires heights.Length0 == heights.Length1 >= 2
    modifies heights
    ensures ok <==> FiniteTerrain(terrain, heights.Length0)
    ensures ok ==> Holds(heights, Raw(terrain, heights.Length0))
    ensures ok ==> lo == Lowest(Raw(terrain, heights.Length0), heights.Length0, heights.Length0, 0)
    ensures ok ==> hi == Highest(Raw(terrain, heights.Length0), heights.Length0, heights.Length0, 0)
  {
    var n := heights.Length0;
    lo, hi := FAR, -FAR;
    ghost var raw := RawOrZero(terrain, n);
    var i := 0;
    while i < n
      invariant 0 <= i <= n
      invariant forall a, b :: 0 <= a < i && 0 <= b < n ==> Sample(terrain, n, a, b).Some?
      invariant forall a, b :: 0 <= a < i && 0 <= b < n ==> heights[a, b] == raw[a][b]
      invariant lo == Lowest(raw, n, i, 0) && hi == Highest(raw, n, i, 0)
    {
      ok, lo, hi := ReadRow(heights, terrain, i, lo, hi, raw);
      if !ok {
        return;
      }
      i := i + 1;
    }
    RawAgrees(terrain, n);
    ok := true;
  }

  method Normalise(heights: array2<real>, lo: real, range: real, ghost raw: Grid)
    requires Holds(heights, raw) && range >= 0.01
    modifies heights
    ensures Holds(heights, Normalised(raw, heights.Length0, lo, range))
  {
    var n := heights.Length0;
    ghost var h := Normalised(raw, n, lo, range);
    var i := 0;
    while i < n
      invariant 0 <= i <= n
      invariant forall a, b :: 0 <= a < i && 0 <= b < n ==> heights[a, b] == h[a][b]
      invariant forall a, b :: i <= a < n && 0 <= b < n ==> heights[a, b] == raw[a][b]
    {
      var j := 0;
      while j < n
        invariant 0 <= j <= n
        invariant forall a, b :: 0 <= a < i && 0 <= b < n ==> heights[a, b] == h[a][b]
        invariant forall b :: 0 <= b < j ==> heights[i, b] == h[i][b]
        invariant forall b :: j <= b < n ==> heights[i, b] == raw[i][b]
        invariant forall a, b :: i < a < n && 0 <= b < n ==> heights[a, b] == raw[a][b]
      {
        heights[i, j] := (heights[i, j] - lo) / range;
        j := j + 1;
      }
      i := i + 1;
    }
  }

  /** The field before the seed is planted. */
  function UnseededPhi(h: Grid, n: nat, a: int, b: int): real
    requires Square(h, n) && InBounds(n, a, b)
  {
    if h[a][b] < WET_BELOW then 0.05 else 0.0
  }

  /** The temperature of one cell. */
  method TemperatureAt(n: nat, i: nat, j: nat) returns (t: real)
    requires n >= 2
    ensures t == InitialTemperature(n, i, j)
  {
    var c := (n - 1) as real * 0.5;
    var di, dj := i as real - c, j as real - c;
    t := if di * di + dj * dj < (n as real * 0.3) * (n as real * 0.3) then T_COLD else T_HOT;
  }

  method FillRow(heights: array2<real>, phi: array2<real>, temp: array2<real>, wetMask: array2<bool>, i: nat,
                 ghost h: Grid)
    requires heights.Length0 >= 2 && Holds(heights, h) && i < heights.Length0
    requires phi != temp && phi != heights && temp != heights
    requires phi.Length0 == phi.Length1 == temp.Length0 == temp.Length1 == heights.Length0
    requires wetMask.Length0 == wetMask.Length1 == heights.Length0
    modifies phi, temp, wetMask
    ensures forall b :: 0 <= b < heights.Length0 ==> temp[i, b] == InitialTemperature(heights.Length0, i, b)
    ensures forall b :: 0 <= b < heights.Length0 ==> (wetMask[i, b] <==> h[i][b] < WET_BELOW)
    ensures forall b :: 0 <= b < heights.Length0 ==> phi[i, b] == UnseededPhi(h, heights.Length0, i, b)
    ensures forall a, b :: 0 <= a < heights.Length0 && 0 <= b < heights.Length0 && a != i ==>
              phi[a, b] == old(phi[a, b]) && temp[a, b] == old(temp[a, b]) && wetMask[a, b] == old(wetMask[a, b])
  {
    var n := heights.Length0;
    var j := 0;
    while j < n
      invariant 0 <= j <= n
      invariant forall b :: 0 <= b < j ==> temp[i, b] == InitialTemperature(n, i, b)
      invariant forall b :: 0 <= b < j ==> (wetMask[i, b] <==> h[i][b] < WET_BELOW)
      invariant forall b :: 0 <= b < j ==> phi[i, b] == UnseededPhi(h, n, i, b)
      invariant forall a, b :: 0 <= a < n && 0 <= b < n && a != i ==>
                  phi[a, b] == old(phi[a, b]) && temp[a, b] == old(temp[a, b]) && wetMask[a, b] == old(wetMask[a, b])
    {
      var wet := heights[i, j] < WET_BELOW;
      wetMask[i, j] := wet;
      phi[i, j] := if wet then 0.05 else 0.0;
      temp[i, j] := TemperatureAt(n, i, j);
      j := j + 1;
    }
  }

  /** Fills mask, temperatures and the unseeded field cell by cell. */
  method FillScene(heights: array2<real>, phi: array2<real>, temp: array2<real>, wetMask: array2<bool>, ghost h: Grid)
    requires heights.Length0 >= 2 && Holds(heights, h)
    requires phi != temp && phi != heights && temp != heights
    requires phi.Length0 == phi.Length1 == temp.Length0 == temp.Length1 == heights.Length0
    requires wetMask.Length0 == wetMask.Length1 == heights.Length0
    modifies phi, temp, wetMask
    ensures Holds(temp, TemperatureGrid(heights.Length0)) && Holds(wetMask, WetGrid(h, heights.Length0))
    ensures forall a, b :: 0 <= a < heights.Length0 && 0 <= b < heights.Length0 ==>
              phi[a, b] == UnseededPhi(h, heights.Length0, a, b)
  {
    var n := heights.Length0;
    var i := 0;
    while i < n
      invariant 0 <= i <= n
      invariant forall a, b :: 0 <= a < i && 0 <= b < n ==> temp[a, b] == InitialTemperature(n, a, b)
      invariant forall a, b :: 0 <= a < i && 0 <= b < n ==> (wetMask[a, b] <==> h[a][b] < WET_BELOW)
      invariant forall a, b :: 0 <= a < i && 0 <= b < n ==> phi[a, b] == UnseededPhi(h, n, a, b)
    {
      FillRow(heights, phi, temp, wetMask, i, h);
      i := i + 1;
    }
  }

  /** The field while the seed is planted: cells before (i, j) in row order are done. */
  function SeededUpTo(h: Grid, n: nat, a: int, b: int, i: int, j: int): real
    requires n >= 2 && Square(h, n) && InBounds(n, a, b)
  {
    if h[a][b] >= WET_BELOW then 0.0
    else if (a < i || (a == i && b < j)) && Seeded(n, a, b) then 0.65
    else 0.05
  }

  /** Raises the five by five cells around the centre that hold water. */
  method PlantSeed(phi: array2<real>, ghost h: Grid)
    requires phi.Length0 == phi.Length1 >= 2 && Square(h, phi.Length0)
    requires forall a, b :: 0 <= a < phi.Length0 && 0 <= b < phi.Length0 ==>
               phi[a, b] == UnseededPhi(h, phi.Length0, a, b)
    modifies phi
    ensures Holds(phi, PhiGrid(h, phi.Length0))
  {
    var n := phi.Length0;
    var c := (n - 1) / 2;
    var di := -2;
    while di <= 2
      invariant -2 <= di <= 3
      invariant forall a, b :: 0 <= a < n && 0 <= b < n ==>
                  phi[a, b] == SeededUpTo(h, n, a, b, c + di, c - 2)
    {
      var dj := -2;
      while dj <= 2
        invariant -2 <= dj <= 3
        invariant forall a, b :: 0 <= a < n && 0 <= b < n ==>
                    phi[a, b] == SeededUpTo(h, n, a, b, c + di, c + dj)
      {
        var ii, jj := c + di, c + dj;
        if ii >= 0 && ii < n && jj >= 0 && jj < n && phi[ii, jj] > 0.01 {
          phi[ii, jj] := 0.65;
        }
        dj := dj + 1;
      }
      di := di + 1;
    }
  }

  /** Everything between reading the terrain and the time loop. */
  method SetScene(heights: array2<real>, phi: array2<real>, temp: array2<real>, wetMask: array2<bool>,
                  lo: real, range: real, ghost raw: Grid)
    requires heights.Length0 >= 2 && Holds(heights, raw) && range >= 0.01
    requires phi != temp && phi != heights && temp != heights
    requires phi.Length0 == phi.Length1 == temp.Length0 == temp.Length1 == heights.Length0
    requires wetMask.Length0 == wetMask.Length1 == heights.Length0
    modifies heights, phi, temp, wetMask
    ensures var h := Normalised(raw, heights.Length0, lo, range);
            && Holds(heights, h) && Holds(phi, PhiGrid(h, heights.Length0))
            && Holds(temp, TemperatureGrid(heights.Length0)) && Holds(wetMask, WetGrid(h, heights.Length0))
  {
    ghost var h := Normalised(raw, heights.Length0, lo, range);
    Normalise(heights, lo, range, raw);
    FillScene(heights, phi, temp, wetMask, h);
    PlantSeed(phi, h);
  }

  method Score(heights: array2<real>, temp: array2<real>, phi: array2<real>,
               ghost h: Grid, ghost t: Grid, ghost g: Grid)
    returns (o: Outcome)
    requires Holds(heights, h) && Holds(temp, t) && Holds(phi, g)
    requires heights.Length0 == temp.Length0 == phi.Length0
    ensures o == ScoreOf(h, t, g, heights.Length0)
  {
    var n := heights.Length0;
    var coldWet, frozen, coldDry, intact, hotWet, liquid := 0, 0, 0, 0, 0, 0;
    var i := 0;
    while i < n
      invariant 0 <= i <= n
      invariant coldWet == Tally(h, t, g, n, ColdWet, false, i, 0) && frozen == Tally(h, t, g, n, ColdWet, true, i, 0)
      invariant coldDry == Tally(h, t, g, n, ColdDry, false, i, 0) && intact == Tally(h, t, g, n, ColdDry, true, i, 0)
      invariant hotWet == Tally(h, t, g, n, HotWet, false, i, 0) && liquid == Tally(h, t, g, n, HotWet, true, i, 0)
    {
      var j := 0;
      while j < n
        invariant 0 <= j <= n
        invariant coldWet == Tally(h, t, g, n, ColdWet, false, i, j) && frozen == Tally(h, t, g, n, ColdWet, true, i, j)
        invariant coldDry == Tally(h, t, g, n, ColdDry, false, i, j) && intact == Tally(h, t, g, n, ColdDry, true, i, j)
        invariant hotWet == Tally(h, t, g, n, HotWet, false, i, j) && liquid == Tally(h, t, g, n, HotWet, true, i, j)
      {
        var wet, cold, p := heights[i, j] < WET_BELOW, temp[i, j] <= T_MID, phi[i, j];
        if cold && wet {
          coldWet := coldWet + 1;
          if p > 0.5 { frozen := frozen + 1; }
        }
        if cold && !wet {
          coldDry := coldDry + 1;
          if p < 0.1 { intact := intact + 1; }
        }
        if !cold && wet {
          hotWet := hotWet + 1;
          if p < 0.5 { liquid := liquid + 1; }
        }
        j := j + 1;
      }
      i := i + 1;
    }
    var valleyIce := if coldWet > 0 then frozen as real / coldWet as real else 0.0;
    var dryIntact := if coldDry > 0 then intact as real / coldDry as real else 1.0;
    var hotWater := if hotWet > 0 then liquid as real / hotWet as real else 1.0;
    o := Valid(0.5 * valleyIce + 0.3 * dryIntact + 0.2 * hotWater, valleyIce, dryIntact, hotWater);
  }

  /** The final field of the run over a scene, and its score. */
  ghost predicate Froze(o: Outcome, h: Grid, reaction: Reaction, n: nat, steps: nat, field: Grid)
    requires n >= 2 && Square(h, n)
  {
    && Square(field, n) && Run(PhiGrid(h, n), WetGrid(h, n), TemperatureGrid(n), reaction, n, steps) == Some(field)
    && IsScore(o, h, field, n)
  }

  /** The time loop on the scene and the scoring of what it leaves. */
  method EvolveAndScore(heights: array2<real>, phi: array2<real>, phiNew: array2<real>, wetMask: array2<bool>,
                        temp: array2<real>, reaction: Reaction, steps: nat, ghost h: Grid)
    returns (o: Outcome, ghost field: Grid)
    requires heights.Length0 >= 2 && Holds(heights, h)
    requires phi != phiNew && temp != phi && temp != phiNew && heights != phi && heights != phiNew
    requires Holds(phi, PhiGrid(h, heights.Length0)) && Holds(wetMask, WetGrid(h, heights.Length0))
    requires Holds(temp, TemperatureGrid(heights.Length0))
    requires phiNew.Length0 == phiNew.Length1 == phi.Length0 == heights.Length0
    requires wetMask.Length0 == temp.Length0 == heights.Length0
    modifies phi, phiNew
    ensures o == Freeze(h, reaction, heights.Length0, steps)
    ensures o.Valid? || o == Invalid(ReactionDiverged)
    ensures o.Valid? ==> Froze(o, h, reaction, heights.Length0, steps, field)
  {
    ghost var n := heights.Length0;
    field := [];
    var failure := Evolve(phi, phiNew, wetMask, temp, reaction, steps,
                          PhiGrid(h, n), WetGrid(h, n), TemperatureGrid(n));
    if failure.Some? {
      return Invalid(failure.value), field;
    }
    field := Run(PhiGrid(h, n), WetGrid(h, n), TemperatureGrid(n), reaction, n, steps).value;
    o := Score(heights, temp, phi, h, TemperatureGrid(n), field);
    ScoreOfIsScore(h, field, n);
  }

  /** The program from the normalisation on. */
  method SimulateTerrain(heights: array2<real>, reaction: Reaction, steps: nat, lo: real, hi: real, ghost raw: Grid)
    returns (o: Outcome, ghost field: Grid)
    requires heights.Length0 >= 2 && Holds(heights, raw)
    modifies heights
    ensures o == FromTerrain(raw, reaction, heights.Length0, steps, lo, hi)
    ensures o.Valid? ==>
              hi - lo >= 0.01
              && Froze(o, Normalised(raw, heights.Length0, lo, hi - lo), reaction, heights.Length0, steps, field)
  {
    var n := heights.Length0;
    field := [];
    var range := hi - lo;
    if range < 0.01 {
      return Invalid(TerrainFlat), field;
    }
    var phi, temp, wetMask, phiNew := new real[n, n], new real[n, n], new bool[n, n], new real[n, n];
    SetScene(heights, phi, temp, wetMask, lo, range, raw);
    FromTerrainIs(raw, reaction, n, steps, lo, hi);
    o, field := EvolveAndScore(heights, phi, phiNew, wetMask, temp, reaction, steps, Normalised(raw, n, lo, range));
  }

  /** The program for any grid size and step count; the C++ `main` fixes 32 and 150.  For a valid
      outcome `h` are the heights of the scene and `field` is the final field. */
  method Simulate(terrain: Terrain, reaction: Reaction, n: nat, steps: nat)
    returns (o: Outcome, ghost h: Grid, ghost field: Grid)
    requires n >= 2
    ensures o == Compose(terrain, reaction, n, steps)
    ensures o.Valid? ==> 0.3 <= o.fitness <= 1.0 && o.dryIntact == 1.0
    ensures o.Valid? ==> Square(h, n) && IsScene(terrain, n, h) && Froze(o, h, reaction, n, steps, field)
    ensures o == Invalid(TerrainNan) <==> !FiniteTerrain(terrain, n)
    ensures o == Invalid(TerrainFlat) <==>
              FiniteTerrain(terrain, n) && Highest(Raw(terrain, n), n, n, 0) - Lowest(Raw(terrain, n), n, n, 0) < 0.01
  {
    RefusalsExactly(terrain, reaction, n, steps);
    h, field := [], [];
    var heights := new real[n, n];
    var ok, lo, hi := ReadTerrain(heights, terrain);
    if !ok {
      return Invalid(TerrainNan), h, field;
    }
    ghost var raw := Raw(terrain, n);
    o, field := SimulateTerrain(heights, reaction, steps, lo, hi, raw);
    if o.Valid? {
      h := Normalised(raw, n, lo, hi - lo);
      NormalisedIsScene(terrain, n, lo, hi);
    }
  }
}
