/** `Recombination.reproduce` of genalgs/Recombination.py: one tournament
    between two population slots. The fitter competitor (by the comparison as
    the source writes it) is the winner, the selected crossover infects the
    loser with the winner's genes, and the infected loser overwrites the
    loser's slot, which is flagged in `replaced` and returned.

    The step is a pure function of the engine state and the random draws. The
    Python list the crossover mutates in place is the loser's slot, so the
    in-place update is modelled as a functional update of that slot. */
module Recombination {
  import opened Outcomes
  import opened Crossover

  /** The settings `reproduce` reads: `prob_reproduction`, `minimise` and
      `crossover_method`. */
  datatype Config = Config(probReproduction: real, minimise: bool, crossoverMethod: int)

  /** The attributes of a `Recombination` instance that `reproduce` reads or
      writes: `population`, `fitness`, `replaced`, `loser_index` and the
      settings. */
  datatype Engine<T> = Engine(
    population: seq<Genotype<T>>,
    fitness: seq<real>,
    replaced: seq<int>,
    loserIndex: int,
    config: Config)

  /** What `reproduce` leaves behind: the engine afterwards and the index it
      returns. */
  datatype Step<T> = Step(engine: Engine<T>, replace: int)

  /** The shape the base class gives the engine: `fitness` and `replaced`
      parallel to `population`, and one genotype length for every slot. */
  predicate Valid<T>(e: Engine<T>) {
    && |e.fitness| == |e.population|
    && |e.replaced| == |e.population|
    && forall i, j :: 0 <= i < |e.population| && 0 <= j < |e.population| ==>
         |e.population[i]| == |e.population[j]|
  }

  /** The common genotype length (0 for an empty population). */
  function GenotypeLength<T>(e: Engine<T>): nat {
    if |e.population| == 0 then 0 else |e.population[0]|
  }

  // ---------------------------------------------------------------------------
  // Python list indexing
  // ---------------------------------------------------------------------------

  /** A Python list of length n accepts index i without IndexError. */
  predicate InBounds(n: nat, i: int) {
    -(n as int) <= i < n
  }

  /** The position a Python index denotes: negative indices count from the
      end. */
  function Slot(n: nat, i: int): (k: nat)
    requires InBounds(n, i)
    ensures k < n
    ensures k == i || k == i + n
  {
    if i < 0 then i + n else i
  }

  // ---------------------------------------------------------------------------
  // Choosing the winner
  // ---------------------------------------------------------------------------

  /** Python's `bool * float`: True acts as 1 and False as 0. */
  function Scale(flag: bool, x: real): real {
    if flag then x else 0.0
  }

  /** The guard of `reproduce` as written,
      `minimise * fitness[index1] < minimise * fitness[index2]`: when
      minimising, the first competitor wins exactly when its fitness is lower;
      when maximising, both sides are 0 and it never wins. */
  function FirstWins(minimise: bool, f1: real, f2: real): (b: bool)
    ensures minimise ==> (b <==> f1 < f2)
    ensures !minimise ==> !b
  {
    Scale(minimise, f1) < Scale(minimise, f2)
  }

  /** The survivor of a contest is at least as fit as the slot it replaced,
      in the configured direction. */
  predicate AtLeastAsFit(minimise: bool, survivor: real, replaced: real) {
    if minimise then survivor <= replaced else survivor >= replaced
  }

  /** The competitor that was not replaced. */
  function Survivor(index1: int, index2: int, replace: int): int {
    if replace == index1 then index2 else index1
  }

  // ---------------------------------------------------------------------------
  // The reproduction step
  // ---------------------------------------------------------------------------

  /** `s` is `e` after the contest the competitor at `win` won: the slot of
      `s.replace` holds the old occupant crossed by the winner, it is flagged in
      `replaced`, `loser_index` is `s.replace`, and no other slot, flag,
      fitness or setting changed. */
  ghost predicate Replaces<T>(e: Engine<T>, s: Step<T>, win: int, d: Draw)
    requires Valid(e)
  {
    var n := |e.population|;
    var m := e.config.crossoverMethod;
    && InBounds(n, win)
    && InBounds(n, s.replace)
    && var k := Slot(n, s.replace);
       var winner := e.population[Slot(n, win)];
       && DrawFits(m, |winner|, d)
       && |s.engine.population| == n
       && |s.engine.replaced| == n
       && s.engine.fitness == e.fitness
       && s.engine.config == e.config
       && s.engine.loserIndex == s.replace
       && s.engine.replaced[k] == 1
       && Cross(m, e.config.probReproduction, winner, e.population[k], d) == Ok(s.engine.population[k])
       && (forall j :: 0 <= j < n && j != k ==> s.engine.population[j] == e.population[j])
       && (forall j :: 0 <= j < n && j != k ==> s.engine.replaced[j] == e.replaced[j])
  }

  /** Everything after the comparison: the loser is `index2` when the first
      competitor won and `index1` otherwise; the loser is crossed with the
      winner and written back. Fails exactly when the crossover's draw raises. */
  function Contest<T>(e: Engine<T>, index1: int, index2: int, d: Draw, firstWins: bool): (r: Result<Step<T>>)
    requires Valid(e)
    requires InBounds(|e.population|, index1) && InBounds(|e.population|, index2)
    requires DrawFits(e.config.crossoverMethod, GenotypeLength(e), d)
    ensures r.Ok? <==> !CrossFails(e.config.crossoverMethod, GenotypeLength(e))
    ensures r.Err? ==> r.error == if e.config.crossoverMethod == 1 then EmptyRange else SampleLargerThanPopulation
    ensures r.Ok? ==> r.value.replace == if firstWins then index2 else index1
    ensures r.Ok? ==> Replaces(e, r.value, if firstWins then index1 else index2, d)
  {
    var n := |e.population|;
    var win := if firstWins then index1 else index2;
    var replace := if firstWins then index2 else index1;
    var k := Slot(n, replace);
    var winner := e.population[Slot(n, win)];
    var loser := e.population[k];
    match Cross(e.config.crossoverMethod, e.config.probReproduction, winner, loser, d)
    case Err(err) => Err(err)
    case Ok(child) =>
      Ok(Step(e.(population := e.population[k := child],
                 replaced := e.replaced[k := 1],
                 loserIndex := replace),
              replace))
  }

  /** `reproduce(index1, index2)` as written. It raises IndexError when an
      index is out of range, and the crossover's ValueError when the genotypes
      are too short for its draw. Otherwise it returns one of the two indices:
      when minimising, `index2` exactly when `index1` has the strictly lower
      fitness; when maximising, always `index1`, whatever the fitness values.
      The returned slot, and only it, is overwritten with the crossed loser. */
  function Reproduce<T>(e: Engine<T>, index1: int, index2: int, d: Draw): (r: Result<Step<T>>)
    requires Valid(e)
    requires DrawFits(e.config.crossoverMethod, GenotypeLength(e), d)
    ensures var n := |e.population|;
      r.Ok? <==> InBounds(n, index1) && InBounds(n, index2) && !CrossFails(e.config.crossoverMethod, GenotypeLength(e))
    ensures !InBounds(|e.population|, index1) || !InBounds(|e.population|, index2) ==> r == Err(IndexError)
    ensures InBounds(|e.population|, index1) && InBounds(|e.population|, index2) && r.Err? ==>
      r.error == if e.config.crossoverMethod == 1 then EmptyRange else SampleLargerThanPopulation
    ensures r.Ok? ==> r.value.replace == index1 || r.value.replace == index2
    ensures r.Ok? ==>
      var n := |e.population|;
      var f1 := e.fitness[Slot(n, index1)];
      var f2 := e.fitness[Slot(n, index2)];
      r.value.replace == if e.config.minimise && f1 < f2 then index2 else index1
    ensures r.Ok? && !e.config.minimise ==> r.value.replace == index1
    ensures r.Ok? ==> Replaces(e, r.value, Survivor(index1, index2, r.value.replace), d)
  {
    var n := |e.population|;
    if !InBounds(n, index1) || !InBounds(n, index2) then Err(IndexError)
    else
      var f1 := e.fitness[Slot(n, index1)];
      var f2 := e.fitness[Slot(n, index2)];
      Contest(e, index1, index2, d, FirstWins(e.config.minimise, f1, f2))
  }

  /** A successful step keeps the engine's shape and its genotype length. */
  lemma ReproduceKeepsValid<T>(e: Engine<T>, index1: int, index2: int, d: Draw)
    requires Valid(e)
    requires DrawFits(e.config.crossoverMethod, GenotypeLength(e), d)
    ensures var r := Reproduce(e, index1, index2, d);
      r.Ok? ==> Valid(r.value.engine) && GenotypeLength(r.value.engine) == GenotypeLength(e)
  {
  }

  /** The `replaced` flags are cumulative: a step never clears one, and it
      sets the flag of the returned slot. */
  lemma ReplacedIsCumulative<T>(e: Engine<T>, index1: int, index2: int, d: Draw)
    requires Valid(e)
    requires DrawFits(e.config.crossoverMethod, GenotypeLength(e), d)
    ensures var r := Reproduce(e, index1, index2, d);
      r.Ok? ==>
        && r.value.engine.replaced[Slot(|e.population|, r.value.replace)] == 1
        && forall j :: 0 <= j < |e.replaced| && e.replaced[j] == 1 ==> r.value.engine.replaced[j] == 1
  {
  }

  /** A successful contest overwrites the loser's slot with a genotype of the
      common length, so the engine keeps its shape. */
  lemma ContestKeepsValid<T>(e: Engine<T>, index1: int, index2: int, d: Draw, firstWins: bool)
    requires Valid(e)
    requires InBounds(|e.population|, index1) && InBounds(|e.population|, index2)
    requires DrawFits(e.config.crossoverMethod, GenotypeLength(e), d)
    ensures var r := Contest(e, index1, index2, d, firstWins);
      r.Ok? ==> Valid(r.value.engine) && GenotypeLength(r.value.engine) == GenotypeLength(e)
  {
  }

  /** The contest part of a step, repeated with the same arguments, changes
      nothing more: the winner's slot still holds the winner and the loser's
      slot already holds what the crossover produces from it. */
  lemma {:induction false} ContestIdempotent<T>(e: Engine<T>, index1: int, index2: int, d: Draw, firstWins: bool)
    requires Valid(e)
    requires InBounds(|e.population|, index1) && InBounds(|e.population|, index2)
    requires DrawFits(e.config.crossoverMethod, GenotypeLength(e), d)
    ensures var r := Contest(e, index1, index2, d, firstWins);
      r.Ok? ==>
        && Valid(r.value.engine)
        && GenotypeLength(r.value.engine) == GenotypeLength(e)
        && Contest(r.value.engine, index1, index2, d, firstWins) == r
  {
    ContestKeepsValid(e, index1, index2, d, firstWins);
    var n := |e.population|;
    var m := e.config.crossoverMethod;
    var prob := e.config.probReproduction;
    var replace := if firstWins then index2 else index1;
    var k := Slot(n, replace);
    var w := Slot(n, if firstWins then index1 else index2);
    var winner := e.population[w];
    var loser := e.population[k];
    var c := Cross(m, prob, winner, loser, d);
    if c.Ok? {
      var child := c.value;
      var e' := e.(population := e.population[k := child], replaced := e.replaced[k := 1], loserIndex := replace);
      assert Contest(e, index1, index2, d, firstWins) == Ok(Step(e', replace));
      if w == k {
        CrossSelf(m, prob, winner, d);
      }
      assert e'.population[w] == winner;
      CrossIdempotent(m, prob, winner, loser, d);
      assert e'.population[k := child] == e'.population;
      assert e'.replaced[k := 1] == e'.replaced;
    }
  }

  /** Fitness is only refreshed from outside, so repeating a step with the
      same indices and draws before the refresh changes nothing more: the same
      slot loses again and the winner's genes are already in place. */
  lemma {:induction false} ReproduceIdempotent<T>(e: Engine<T>, index1: int, index2: int, d: Draw)
    requires Valid(e)
    requires DrawFits(e.config.crossoverMethod, GenotypeLength(e), d)
    ensures var r := Reproduce(e, index1, index2, d);
      r.Ok? ==>
        && Valid(r.value.engine)
        && DrawFits(e.config.crossoverMethod, GenotypeLength(r.value.engine), d)
        && Reproduce(r.value.engine, index1, index2, d) == r
  {
    var n := |e.population|;
    if InBounds(n, index1) && InBounds(n, index2) {
      var firstWins := FirstWins(e.config.minimise, e.fitness[Slot(n, index1)], e.fitness[Slot(n, index2)]);
      ContestIdempotent(e, index1, index2, d, firstWins);
    }
  }

  // ---------------------------------------------------------------------------
  // Repeated steps
  // ---------------------------------------------------------------------------

  /** The arguments and draws of one call of `reproduce`. */
  datatype Call = Call(index1: int, index2: int, draw: Draw)

  /** `reproduce` applied call after call, stopping at the first exception.
      However many steps run, the engine keeps its shape, its population size
      and its genotype length; fitness is never touched. */
  function ReproduceEach<T>(e: Engine<T>, calls: seq<Call>): (r: Result<Engine<T>>)
    requires Valid(e)
    requires forall c :: c in calls ==> DrawFits(e.config.crossoverMethod, GenotypeLength(e), c.draw)
    ensures r.Ok? ==>
      && Valid(r.value)
      && |r.value.population| == |e.population|
      && GenotypeLength(r.value) == GenotypeLength(e)
      && r.value.fitness == e.fitness
      && r.value.config == e.config
    decreases |calls|
  {
    if |calls| == 0 then Ok(e)
    else
      var c := calls[0];
      match Reproduce(e, c.index1, c.index2, c.draw)
      case Err(err) => Err(err)
      case Ok(s) =>
        ReproduceKeepsValid(e, c.index1, c.index2, c.draw);
        ReproduceEach(s.engine, calls[1..])
  }

  // ---------------------------------------------------------------------------
  // The comparison when maximising, and its correction
  // ---------------------------------------------------------------------------

  /** When maximising, the guard as written replaces the fitter competitor:
      with fitness 2.0 at index 0 and 1.0 at index 1, slot 0 is overwritten. */
  lemma MaximiseReplacesFitter()
    ensures var e := Engine([[0], [1]], [2.0, 1.0], [0, 0], 0, Config(0.5, false, 1));
      && Valid(e)
      && DrawFits(1, GenotypeLength(e), PointDraw(0))
      && var r := Reproduce(e, 0, 1, PointDraw(0));
         && r.Ok?
         && r.value.replace == 0
         && !AtLeastAsFit(false, e.fitness[Survivor(0, 1, r.value.replace)], e.fitness[r.value.replace])
  {
  }

  /** A signed comparison: the fitness negated when minimising. */
  function Signed(minimise: bool, x: real): real {
    if minimise then -x else x
  }

  /** The comparison with a signed multiplier: the first competitor wins
      exactly when its fitness is strictly better in the configured direction. */
  function FirstWinsCorrected(minimise: bool, f1: real, f2: real): (b: bool)
    ensures b <==> if minimise then f1 < f2 else f1 > f2
  {
    Signed(minimise, f1) > Signed(minimise, f2)
  }

  /** `reproduce` with the corrected comparison. It raises what `Reproduce`
      raises. Otherwise it replaces `index2` exactly when `index1` is strictly
      fitter in the configured direction, so ties replace `index1` as in the
      source, and the competitor it replaces is never strictly fitter than the
      survivor. */
  function ReproduceCorrected<T>(e: Engine<T>, index1: int, index2: int, d: Draw): (r: Result<Step<T>>)
    requires Valid(e)
    requires DrawFits(e.config.crossoverMethod, GenotypeLength(e), d)
    ensures var n := |e.population|;
      r.Ok? <==> InBounds(n, index1) && InBounds(n, index2) && !CrossFails(e.config.crossoverMethod, GenotypeLength(e))
    ensures !InBounds(|e.population|, index1) || !InBounds(|e.population|, index2) ==> r == Err(IndexError)
    ensures InBounds(|e.population|, index1) && InBounds(|e.population|, index2) && r.Err? ==>
      r.error == if e.config.crossoverMethod == 1 then EmptyRange else SampleLargerThanPopulation
    ensures r.Ok? ==> r.value.replace == index1 || r.value.replace == index2
    ensures r.Ok? ==>
      var n := |e.population|;
      var f1 := e.fitness[Slot(n, index1)];
      var f2 := e.fitness[Slot(n, index2)];
      r.value.replace == if (if e.config.minimise then f1 < f2 else f1 > f2) then index2 else index1
    ensures r.Ok? && e.fitness[Slot(|e.population|, index1)] == e.fitness[Slot(|e.population|, index2)] ==>
      r.value.replace == index1
    ensures r.Ok? ==>
      var n := |e.population|;
      AtLeastAsFit(e.config.minimise,
                   e.fitness[Slot(n, Survivor(index1, index2, r.value.replace))],
                   e.fitness[Slot(n, r.value.replace)])
    ensures r.Ok? ==> Replaces(e, r.value, Survivor(index1, index2, r.value.replace), d)
  {
    var n := |e.population|;
    if !InBounds(n, index1) || !InBounds(n, index2) then Err(IndexError)
    else
      var f1 := e.fitness[Slot(n, index1)];
      var f2 := e.fitness[Slot(n, index2)];
      Contest(e, index1, index2, d, FirstWinsCorrected(e.config.minimise, f1, f2))
  }

  /** When minimising, the source's comparison is already right: the corrected
      step and the step as written agree on every input. */
  lemma CorrectedAgreesWhenMinimising<T>(e: Engine<T>, index1: int, index2: int, d: Draw)
    requires Valid(e)
    requires DrawFits(e.config.crossoverMethod, GenotypeLength(e), d)
    requires e.config.minimise
    ensures ReproduceCorrected(e, index1, index2, d) == Reproduce(e, index1, index2, d)
  {
  }
}
