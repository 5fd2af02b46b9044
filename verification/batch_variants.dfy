/** Parameter sweeps over a batch, through the clamping of the generation parameters. */
module BatchVariants {
  import opened Wrappers
  import opened Numbers

  // ---------------------------------------------------------------------
  // models/schemas.py: GenerationParams
  // ---------------------------------------------------------------------

  /** The values of a GenerationParams, and those a caller may set; the rest have defaults. */
  datatype Params = Params(width: int, height: int, steps: int, cfg: real, seed: Option<int>)

  datatype Given = Given(width: Option<int>, height: Option<int>, steps: Option<int>, cfg: Option<real>,
                         seed: Option<int>)

  function Or<T>(o: Option<T>, default: T): T {
    if o.Some? then o.value else default
  }

  function ClampReal(low: real, high: real, x: real): real {
    var capped := if x < high then x else high;
    if capped > low then capped else low
  }

  /** What `__post_init__` makes of the given values. */
  function Validated(g: Given): Params {
    Params(ClampInt(256, 4096, Or(g.width, 1024)) / 8 * 8,
           ClampInt(256, 4096, Or(g.height, 1024)) / 8 * 8,
           ClampInt(1, 100, Or(g.steps, 20)),
           ClampReal(1.0, 30.0, Or(g.cfg, 7.0)),
           g.seed)
  }

  function AsGiven(p: Params): Given {
    Given(Some(p.width), Some(p.height), Some(p.steps), Some(p.cfg), p.seed)
  }

  /** In bounds, in steps of 8, off by less than 8 from the clamped value, and stable. */
  lemma ValidatedInBounds(g: Given)
    ensures var p := Validated(g);
      && 256 <= p.width <= 4096 && p.width % 8 == 0 && 0 <= ClampInt(256, 4096, Or(g.width, 1024)) - p.width < 8
      && 256 <= p.height <= 4096 && p.height % 8 == 0 && 0 <= ClampInt(256, 4096, Or(g.height, 1024)) - p.height < 8
      && 1 <= p.steps <= 100 && 1.0 <= p.cfg <= 30.0
      && Validated(AsGiven(p)) == p
  {
  }

  class GenerationParams {
    var width: int
    var height: int
    var steps: int
    var cfg: real
    var seed: Option<int>

    function Value(): Params
      reads this
    {
      Params(width, height, steps, cfg, seed)
    }

    constructor (g: Given)
      ensures Value() == Validated(g)
    {
      width, height, steps, cfg := Or(g.width, 1024), Or(g.height, 1024), Or(g.steps, 20), Or(g.cfg, 7.0);
      seed := g.seed;
      new;
      width := MaxInt(256, MinInt(4096, width));
      height := MaxInt(256, MinInt(4096, height));
      steps := MaxInt(1, MinInt(100, steps));
      cfg := ClampReal(1.0, 30.0, cfg);
      width := (width / 8) * 8;
      height := (height / 8) * 8;
    }
  }

  // ---------------------------------------------------------------------
  // nodes/batch_variants.py
  // ---------------------------------------------------------------------

  datatype SeedPolicy = Fixed | Increment | Randomized

  datatype Sweep = NoSweep | CfgSweep | StepsSweep | SizeSweep

  /** round(x): to the nearest integer, halves to the even one. */
  function Round(x: real): int {
    var n := x.Floor;
    var part := x - n as real;
    if part < 0.5 then n else if part > 0.5 then n + 1 else if n % 2 == 0 then n else n + 1
  }

  lemma RoundNearest(x: real, n: int)
    ensures -0.5 <= Round(x) as real - x <= 0.5
    ensures (Round(x) as real - x == 0.5 || Round(x) as real - x == -0.5) ==> Round(x) % 2 == 0
    ensures Round(n as real) == n
  {
  }

  lemma RoundMonotone(x: real, y: real)
    requires x <= y
    ensures Round(x) <= Round(y)
  {
    if x.Floor < y.Floor {
      assert Round(x) <= x.Floor + 1 <= y.Floor <= Round(y);
    }
  }

  function Interpolate(start: real, end: real, i: nat, count: nat): real
    requires count > 1
  {
    start + (end - start) * (i as real / (count - 1) as real)
  }

  function SeedOf(policy: SeedPolicy, base: int, i: nat, random: int -> int): int {
    match policy
    case Fixed => base
    case Increment => base + i
    case Randomized => random(base + i)
  }

  /** What variant i asks for before validation. */
  function Asked(base: Given, sweep: Sweep, start: real, end: real, i: nat, count: nat, seed: int): Given {
    var g := base.(seed := Some(seed));
    if sweep.NoSweep? || count <= 1 then g
    else
      var value := Interpolate(start, end, i, count);
      match sweep
      case CfgSweep => g.(cfg := Some(value))
      case StepsSweep => g.(steps := Some(Round(value)))
      case SizeSweep => g.(width := Some(Round(value)), height := Some(Round(value)))
      case NoSweep => g
  }

  function Variant(base: Given, policy: SeedPolicy, seedBase: int, random: int -> int, sweep: Sweep,
                   start: real, end: real, i: nat, count: nat): Params {
    Validated(Asked(base, sweep, start, end, i, count, SeedOf(policy, seedBase, i, random)))
  }

  /** `generate_variants`, with the parameters as values instead of their JSON text. */
  method GenerateVariants(positive: string, negative: string, count: nat, base: Given, policy: SeedPolicy,
                          seedBase: int, random: int -> int, sweep: Sweep, start: real, end: real)
    returns (positives: seq<string>, negatives: seq<string>, params: seq<Params>)
    ensures |positives| == |negatives| == |params| == count
    ensures forall i :: 0 <= i < count ==> positives[i] == positive && negatives[i] == negative
    ensures forall i :: 0 <= i < count ==>
      params[i] == Variant(base, policy, seedBase, random, sweep, start, end, i, count)
  {
    positives, negatives, params := [], [], [];
    for i := 0 to count
      invariant |positives| == |negatives| == |params| == i
      invariant forall j :: 0 <= j < i ==> positives[j] == positive && negatives[j] == negative
      invariant forall j :: 0 <= j < i ==>
        params[j] == Variant(base, policy, seedBase, random, sweep, start, end, j, count)
    {
      var currentSeed := seedBase;
      if policy.Increment? {
        currentSeed := seedBase + i;
      } else if policy.Randomized? {
        currentSeed := random(seedBase + i);
      }
      var current := base;
      current := current.(seed := Some(currentSeed));
      if !sweep.NoSweep? && count > 1 {
        var t := i as real / (count - 1) as real;
        var value := start + (end - start) * t;
        assert value == Interpolate(start, end, i, count);
        if sweep.CfgSweep? {
          current := current.(cfg := Some(value));
        } else if sweep.StepsSweep? {
          current := current.(steps := Some(Round(value)));
        } else if sweep.SizeSweep? {
          var s := Round(value);
          current := current.(width := Some(s), height := Some(s));
        }
      }
      assert current == Asked(base, sweep, start, end, i, count, currentSeed);
      var validated := new GenerationParams(current);
      positives := positives + [positive];
      negatives := negatives + [negative];
      params := params + [validated.Value()];
    }
  }

  lemma QuotientMonotone(x: real, y: real, n: real)
    requires x <= y && n > 0.0
    ensures x / n <= y / n
  {
    var a, b := x / n, y / n;
    assert a * n == x && b * n == y;
    assert b < a ==> (a - b) * n > 0.0;
  }

  lemma FractionMonotone(i: nat, j: nat, n: nat)
    requires i <= j <= n && n > 0
    ensures 0.0 <= i as real / n as real <= j as real / n as real <= 1.0
    ensures i == n ==> i as real / n as real == 1.0
  {
    QuotientMonotone(0.0, i as real, n as real);
    QuotientMonotone(i as real, j as real, n as real);
    QuotientMonotone(j as real, n as real, n as real);
  }

  lemma InterpolationEnds(start: real, end: real, count: nat)
    requires count > 1
    ensures Interpolate(start, end, 0, count) == start && Interpolate(start, end, count - 1, count) == end
  {
    FractionMonotone(count - 1, count - 1, count - 1);
    assert (count - 1) as real / (count - 1) as real == 1.0;
    assert 0.0 / (count - 1) as real == 0.0;
  }

  lemma BlendInRange(start: real, end: real, s: real, t: real)
    requires start <= end && 0.0 <= s <= t <= 1.0
    ensures start <= start + (end - start) * s <= start + (end - start) * t <= end
  {
    var d := end - start;
    ProductMonotone(0.0, s, d);
    ProductMonotone(s, t, d);
    ProductMonotone(t, 1.0, d);
    assert d * 1.0 == d;
  }

  lemma InterpolationMonotone(start: real, end: real, i: nat, j: nat, count: nat)
    requires start <= end && i <= j < count && count > 1
    ensures start <= Interpolate(start, end, i, count) <= Interpolate(start, end, j, count) <= end
  {
    FractionMonotone(i, j, count - 1);
    BlendInRange(start, end, i as real / (count - 1) as real, j as real / (count - 1) as real);
  }

  lemma ClampMonotone(low: int, high: int, m: int, n: int)
    requires m <= n
    ensures ClampInt(low, high, m) <= ClampInt(low, high, n)
  {
  }

  lemma ClampRealMonotone(low: real, high: real, x: real, y: real)
    requires x <= y
    ensures ClampReal(low, high, x) <= ClampReal(low, high, y)
  {
  }

  /** Along a sweep that goes up, the swept value never goes down: through interpolation,
      rounding, clamping and flooring to 8. What is not swept stays what it was. */
  lemma SweepMonotone(base: Given, policy: SeedPolicy, seedBase: int, random: int -> int, sweep: Sweep,
                      start: real, end: real, i: nat, j: nat, count: nat)
    requires start <= end && i <= j < count && count > 1
    ensures var p := Variant(base, policy, seedBase, random, sweep, start, end, i, count);
      var q := Variant(base, policy, seedBase, random, sweep, start, end, j, count);
      && (if sweep.CfgSweep? then p.cfg <= q.cfg else p.cfg == q.cfg)
      && (if sweep.StepsSweep? then p.steps <= q.steps else p.steps == q.steps)
      && (if sweep.SizeSweep? then p.width == p.height <= q.width == q.height
          else p.width == q.width && p.height == q.height)
  {
    hide Interpolate, Round, ClampInt, ClampReal, SeedOf;
    InterpolationMonotone(start, end, i, j, count);
    var x, y := Interpolate(start, end, i, count), Interpolate(start, end, j, count);
    RoundMonotone(x, y);
    ClampMonotone(256, 4096, Round(x), Round(y));
    ClampMonotone(1, 100, Round(x), Round(y));
    ClampRealMonotone(1.0, 30.0, x, y);
  }

  /** The sweep starts at the clamped start and ends at the clamped end. */
  lemma SweepEndpoints(base: Given, policy: SeedPolicy, seedBase: int, random: int -> int, sweep: Sweep,
                       start: real, end: real, count: nat)
    requires count > 1
    ensures var p := Variant(base, policy, seedBase, random, sweep, start, end, 0, count);
      var q := Variant(base, policy, seedBase, random, sweep, start, end, count - 1, count);
      && (sweep.CfgSweep? ==> p.cfg == ClampReal(1.0, 30.0, start) && q.cfg == ClampReal(1.0, 30.0, end))
      && (sweep.StepsSweep? ==> p.steps == ClampInt(1, 100, Round(start)) && q.steps == ClampInt(1, 100, Round(end)))
      && (sweep.SizeSweep? ==>
            p.width == ClampInt(256, 4096, Round(start)) / 8 * 8 && q.width == ClampInt(256, 4096, Round(end)) / 8 * 8)
  {
    InterpolationEnds(start, end, count);
  }

  /** Counting seeds up gives every variant a seed of its own; a fixed seed gives all the same. */
  lemma Seeds(base: Given, seedBase: int, random: int -> int, sweep: Sweep, start: real, end: real,
              i: nat, j: nat, count: nat)
    ensures (Variant(base, Increment, seedBase, random, sweep, start, end, i, count).seed ==
             Variant(base, Increment, seedBase, random, sweep, start, end, j, count).seed) <==> i == j
    ensures Variant(base, Fixed, seedBase, random, sweep, start, end, i, count).seed == Some(seedBase)
  {
  }

  // ---------------------------------------------------------------------
  // Read off the values
  // ---------------------------------------------------------------------

  /** What validation makes of each given value, and of one that is not given. */
  lemma ValidatedExactly(g: Given)
    ensures var p := Validated(g);
      && (g.width == None ==> p.width == 1024) && (g.height == None ==> p.height == 1024)
      && (g.steps == None ==> p.steps == 20) && (g.cfg == None ==> p.cfg == 7.0) && p.seed == g.seed
      && (g.width.Some? ==>
            p.width == if g.width.value < 256 then 256 else if g.width.value > 4096 then 4096
                       else g.width.value - g.width.value % 8)
      && (g.height.Some? ==>
            p.height == if g.height.value < 256 then 256 else if g.height.value > 4096 then 4096
                        else g.height.value - g.height.value % 8)
      && (g.steps.Some? ==>
            p.steps == if g.steps.value < 1 then 1 else if g.steps.value > 100 then 100 else g.steps.value)
      && (g.cfg.Some? ==>
            p.cfg == if g.cfg.value < 1.0 then 1.0 else if g.cfg.value > 30.0 then 30.0 else g.cfg.value)
  {
  }

  lemma QuotientTimes(x: real, n: real)
    requires n != 0.0
    ensures x / n * n == x
  {
  }

  lemma ProductAssociates(x: real, y: real, z: real)
    ensures (x * y) * z == x * (y * z)
  {
  }

  /** The values of a sweep lie at equal steps: after i of count - 1 steps, i of count - 1 parts of the
      way from start to end are behind. */
  lemma EqualSteps(start: real, end: real, i: nat, count: nat)
    requires count > 1
    ensures (Interpolate(start, end, i, count) - start) * (count - 1) as real == (end - start) * i as real
  {
    var n, t := (count - 1) as real, i as real / (count - 1) as real;
    QuotientTimes(i as real, n);
    ProductAssociates(end - start, t, n);
    assert Interpolate(start, end, i, count) - start == (end - start) * t;
  }

  /** The seed of each variant. */
  lemma SeedExactly(base: int, i: nat, random: int -> int)
    ensures SeedOf(Fixed, base, i, random) == base
    ensures SeedOf(Increment, base, i, random) == base + i
    ensures SeedOf(Randomized, base, i, random) == random(base + i)
  {
  }

  /** What each sweep asks for: its own value in place of the base's, rounded where it must be whole,
      and without a sweep, or for a single variant, nothing but the seed. */
  lemma AskedExactly(base: Given, start: real, end: real, i: nat, count: nat, seed: int)
    ensures var seeded := base.(seed := Some(seed));
      && Asked(base, NoSweep, start, end, i, count, seed) == seeded
      && (forall sweep :: count <= 1 ==> Asked(base, sweep, start, end, i, count, seed) == seeded)
      && (count > 1 ==>
            var x := Interpolate(start, end, i, count);
            && Asked(base, CfgSweep, start, end, i, count, seed) == seeded.(cfg := Some(x))
            && Asked(base, StepsSweep, start, end, i, count, seed) == seeded.(steps := Some(Round(x)))
            && Asked(base, SizeSweep, start, end, i, count, seed) ==
               seeded.(width := Some(Round(x)), height := Some(Round(x))))
  {
  }

  /** Rounding is to the nearest, and with a tie to the even one. */
  lemma RoundExactly(x: real, n: int)
    ensures n as real - 0.5 < x < n as real + 0.5 ==> Round(x) == n
    ensures n % 2 == 0 && n as real - 0.5 <= x <= n as real + 0.5 ==> Round(x) == n
  {
  }
}
