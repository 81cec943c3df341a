/** The three crossover operators of genalgs/Recombination.py.

    Each operator takes the winner's and the loser's genotype together with the
    random draws the source makes, and returns the loser after infection by the
    winner. Genes are only ever copied position for position, so every operator
    is `Infect` for a mask of positions that the draws determine; the masks are
    the reference definitions the operators are proved against. */
module Crossover {
  import opened Outcomes

  /** A genotype: a fixed-length sequence of genes. */
  type Genotype<T> = seq<T>

  // ---------------------------------------------------------------------------
  // Reference definition: infection through a mask of positions
  // ---------------------------------------------------------------------------

  /** The loser after infection: position i holds the winner's gene where
      `mask[i]` holds and keeps the loser's gene elsewhere. */
  function Infect<T>(winner: Genotype<T>, loser: Genotype<T>, mask: seq<bool>): Genotype<T>
    requires |winner| == |loser| == |mask|
  {
    seq(|loser|, i requires 0 <= i < |loser| => if mask[i] then winner[i] else loser[i])
  }

  /** The positions a mask copies from the winner. */
  function Copied(mask: seq<bool>): set<int> {
    set i | 0 <= i < |mask| && mask[i]
  }

  /** Mask of single-point crossover: every position from `point` on. */
  function PointMask(len: nat, point: int): seq<bool> {
    seq(len, i => point <= i)
  }

  /** Mask of two-point crossover: the inclusive span [lo, hi]. */
  function SpanMask(len: nat, lo: int, hi: int): seq<bool> {
    seq(len, i => lo <= i <= hi)
  }

  /** Mask of uniform crossover: the positions whose draw is at most `prob`. */
  function UniformMask(infect: seq<real>, prob: real): seq<bool> {
    seq(|infect|, i requires 0 <= i < |infect| => infect[i] <= prob)
  }

  /** Infecting a genotype with itself leaves it as it was; this is the case of
      a winner and a loser that are the same list. */
  lemma InfectSelf<T>(g: Genotype<T>, mask: seq<bool>)
    requires |g| == |mask|
    ensures Infect(g, g, mask) == g
  {
  }

  /** A second infection by the same winner through the same mask changes
      nothing. */
  lemma InfectIdempotent<T>(winner: Genotype<T>, loser: Genotype<T>, mask: seq<bool>)
    requires |winner| == |loser| == |mask|
    ensures Infect(winner, Infect(winner, loser, mask), mask) == Infect(winner, loser, mask)
  {
  }

  // ---------------------------------------------------------------------------
  // The random draws
  // ---------------------------------------------------------------------------

  /** `rd.randint(0, len - 1)` can return `point`. */
  predicate IsPointDraw(len: nat, point: int) {
    0 <= point <= len - 1
  }

  /** `rd.sample(range(0, len), 2)` can return `[first, second]`. */
  predicate IsSampleDraw(len: nat, first: int, second: int) {
    0 <= first < len && 0 <= second < len && first != second
  }

  /** `len` successive calls of `np.random.uniform(0, 1)` can return `infect`. */
  predicate IsUniformDraws(len: nat, infect: seq<real>) {
    |infect| == len && forall i :: 0 <= i < len ==> 0.0 <= infect[i] < 1.0
  }

  /** `sorted([first, second])` for two distinct values. */
  function SortPair(first: int, second: int): (p: (int, int))
    requires first != second
    ensures p.0 < p.1
    ensures {p.0, p.1} == {first, second}
  {
    if first < second then (first, second) else (second, first)
  }

  // ---------------------------------------------------------------------------
  // Single-point crossover
  // ---------------------------------------------------------------------------

  /** `point_crossover`: from `point` to the end the winner's genes replace the
      loser's; before `point` the loser keeps its own. */
  function PointCrossover<T>(winner: Genotype<T>, loser: Genotype<T>, point: int): (r: Genotype<T>)
    requires |winner| == |loser|
    requires IsPointDraw(|winner|, point)
    ensures |r| == |loser|
    ensures forall i :: 0 <= i < point ==> r[i] == loser[i]
    ensures forall i :: point <= i < |r| ==> r[i] == winner[i]
    ensures r[|r| - 1] == winner[|winner| - 1]
    ensures r == Infect(winner, loser, PointMask(|winner|, point))
  {
    var r := loser[..point] + winner[point..];
    assert forall i :: 0 <= i < |r| ==> r[i] == Infect(winner, loser, PointMask(|winner|, point))[i];
    r
  }

  /** The loop of `point_crossover` as written, assigning `loser[i] = winner[i]`
      for i in `range(point, len(winner))`; it computes `PointCrossover`. */
  method PointCrossoverLoop<T>(winner: Genotype<T>, loser: Genotype<T>, point: int) returns (r: Genotype<T>)
    requires |winner| == |loser|
    requires IsPointDraw(|winner|, point)
    ensures r == PointCrossover(winner, loser, point)
  {
    r := loser;
    for i := point to |winner|
      invariant |r| == |loser|
      invariant forall k :: 0 <= k < point ==> r[k] == loser[k]
      invariant forall k :: point <= k < i ==> r[k] == winner[k]
      invariant forall k :: i <= k < |r| ==> r[k] == loser[k]
    {
      r := r[i := winner[i]];
    }
    assert forall k :: 0 <= k < |r| ==> r[k] == PointCrossover(winner, loser, point)[k];
  }

  // ---------------------------------------------------------------------------
  // Two-point crossover
  // ---------------------------------------------------------------------------

  /** `two_point_crossover`: with the two distinct draws sorted into lo < hi,
      the winner's genes replace the loser's exactly on the inclusive span
      [lo, hi]. */
  function TwoPointCrossover<T>(winner: Genotype<T>, loser: Genotype<T>, first: int, second: int): (r: Genotype<T>)
    requires |winner| == |loser|
    requires IsSampleDraw(|winner|, first, second)
    ensures |r| == |loser|
    ensures var p := SortPair(first, second);
      && (forall i :: p.0 <= i <= p.1 ==> r[i] == winner[i])
      && (forall i :: 0 <= i < p.0 ==> r[i] == loser[i])
      && (forall i :: p.1 < i < |r| ==> r[i] == loser[i])
    ensures var p := SortPair(first, second);
      r == Infect(winner, loser, SpanMask(|winner|, p.0, p.1))
  {
    var p := SortPair(first, second);
    var r := loser[..p.0] + winner[p.0..p.1 + 1] + loser[p.1 + 1..];
    assert forall i :: 0 <= i < |r| ==> r[i] == Infect(winner, loser, SpanMask(|winner|, p.0, p.1))[i];
    r
  }

  /** The loop of `two_point_crossover` as written, assigning
      `loser[i] = winner[i]` for i in `range(points[0], points[1] + 1)`; it
      computes `TwoPointCrossover`. */
  method TwoPointCrossoverLoop<T>(winner: Genotype<T>, loser: Genotype<T>, first: int, second: int)
    returns (r: Genotype<T>)
    requires |winner| == |loser|
    requires IsSampleDraw(|winner|, first, second)
    ensures r == TwoPointCrossover(winner, loser, first, second)
  {
    var points := SortPair(first, second);
    r := loser;
    for i := points.0 to points.1 + 1
      invariant |r| == |loser|
      invariant forall k :: 0 <= k < points.0 ==> r[k] == loser[k]
      invariant forall k :: points.0 <= k < i ==> r[k] == winner[k]
      invariant forall k :: i <= k < |r| ==> r[k] == loser[k]
    {
      r := r[i := winner[i]];
    }
    assert forall k :: 0 <= k < |r| ==> r[k] == TwoPointCrossover(winner, loser, first, second)[k];
  }

  /** The span [lo, hi] of a mask over `len` positions holds hi - lo + 1
      positions. */
  lemma {:induction false} SpanSize(len: nat, lo: int, hi: int)
    requires 0 <= lo <= hi + 1 && hi < len
    ensures |Copied(SpanMask(len, lo, hi))| == hi - lo + 1
    decreases hi - lo
  {
    if lo > hi {
      assert Copied(SpanMask(len, lo, hi)) == {};
    } else {
      SpanSize(len, lo, hi - 1);
      assert Copied(SpanMask(len, lo, hi)) == Copied(SpanMask(len, lo, hi - 1)) + {hi};
    }
  }

  /** Two-point crossover takes the winner's genes on exactly hi - lo + 1
      positions, and so on at least two. */
  lemma TwoPointCopiesAtLeastTwo<T>(winner: Genotype<T>, loser: Genotype<T>, first: int, second: int)
    requires |winner| == |loser|
    requires IsSampleDraw(|winner|, first, second)
    ensures var p := SortPair(first, second);
      var mask := SpanMask(|winner|, p.0, p.1);
      && TwoPointCrossover(winner, loser, first, second) == Infect(winner, loser, mask)
      && (forall i :: i in Copied(mask) ==> TwoPointCrossover(winner, loser, first, second)[i] == winner[i])
      && |Copied(mask)| == p.1 - p.0 + 1 >= 2
  {
    var p := SortPair(first, second);
    SpanSize(|winner|, p.0, p.1);
  }

  /** Single-point crossover at `point` is two-point crossover whose second
      point is the last position, whichever order `rd.sample` returned them in. */
  lemma PointIsTwoPointToEnd<T>(winner: Genotype<T>, loser: Genotype<T>, point: int)
    requires |winner| == |loser|
    requires 0 <= point < |winner| - 1
    ensures PointCrossover(winner, loser, point) == TwoPointCrossover(winner, loser, point, |winner| - 1)
    ensures PointCrossover(winner, loser, point) == TwoPointCrossover(winner, loser, |winner| - 1, point)
  {
  }

  // ---------------------------------------------------------------------------
  // Uniform crossover
  // ---------------------------------------------------------------------------

  /** `Recombination.uniform_crossover`: position i takes the winner's gene when
      its draw is at most `prob`, and keeps the loser's gene otherwise. */
  function UniformCrossover<T>(winner: Genotype<T>, loser: Genotype<T>, infect: seq<real>, prob: real)
    : (r: Genotype<T>)
    requires |winner| == |loser|
    requires IsUniformDraws(|winner|, infect)
    ensures |r| == |loser|
    ensures forall i :: 0 <= i < |r| ==> r[i] == if infect[i] <= prob then winner[i] else loser[i]
    ensures 1.0 <= prob ==> r == winner
    ensures prob < 0.0 ==> r == loser
  {
    Infect(winner, loser, UniformMask(infect, prob))
  }

  /** The loop of `uniform_crossover` as written, one draw per position; it
      computes `UniformCrossover`. */
  method UniformCrossoverLoop<T>(winner: Genotype<T>, loser: Genotype<T>, infect: seq<real>, prob: real)
    returns (r: Genotype<T>)
    requires |winner| == |loser|
    requires IsUniformDraws(|winner|, infect)
    ensures r == UniformCrossover(winner, loser, infect, prob)
  {
    r := loser;
    for i := 0 to |winner|
      invariant |r| == |loser|
      invariant forall k :: 0 <= k < i ==> r[k] == if infect[k] <= prob then winner[k] else loser[k]
      invariant forall k :: i <= k < |r| ==> r[k] == loser[k]
    {
      if infect[i] <= prob {
        r := r[i := winner[i]];
      }
    }
    assert forall k :: 0 <= k < |r| ==> r[k] == UniformCrossover(winner, loser, infect, prob)[k];
  }

  /** Uniform crossover whose draws fall at or below `prob` exactly from
      `point` on is single-point crossover at `point`. */
  lemma UniformCoversPoint<T>(winner: Genotype<T>, loser: Genotype<T>, infect: seq<real>, prob: real, point: int)
    requires |winner| == |loser|
    requires IsUniformDraws(|winner|, infect)
    requires IsPointDraw(|winner|, point)
    requires forall i :: 0 <= i < |infect| ==> (infect[i] <= prob <==> point <= i)
    ensures UniformCrossover(winner, loser, infect, prob) == PointCrossover(winner, loser, point)
  {
  }

  /** Uniform crossover whose draws fall at or below `prob` exactly on the
      sorted span of a two-point draw is two-point crossover with that draw. */
  lemma UniformCoversTwoPoint<T>(winner: Genotype<T>, loser: Genotype<T>, infect: seq<real>, prob: real,
                                 first: int, second: int)
    requires |winner| == |loser|
    requires IsUniformDraws(|winner|, infect)
    requires IsSampleDraw(|winner|, first, second)
    requires var p := SortPair(first, second);
      forall i :: 0 <= i < |infect| ==> (infect[i] <= prob <==> p.0 <= i <= p.1)
    ensures UniformCrossover(winner, loser, infect, prob) == TwoPointCrossover(winner, loser, first, second)
  {
  }

  // ---------------------------------------------------------------------------
  // Dispatch on `crossover_method`
  // ---------------------------------------------------------------------------

  /** The random draws of one crossover. */
  datatype Draw =
    | UniformDraws(infect: seq<real>)
    | PointDraw(point: int)
    | SampleDraw(first: int, second: int)

  /** `d` is a draw the crossover selected by `selector` can make on genotypes of
      length `len`. Where that crossover's draw raises, any draw of the right
      kind fits, since it is never used. */
  predicate DrawFits(selector: int, len: nat, d: Draw) {
    if selector == 0 then d.UniformDraws? && IsUniformDraws(len, d.infect)
    else if selector == 1 then d.PointDraw? && (len >= 1 ==> IsPointDraw(len, d.point))
    else d.SampleDraw? && (len >= 2 ==> IsSampleDraw(len, d.first, d.second))
  }

  /** The draw of the selected crossover raises on genotypes of length `len`:
      `rd.randint(0, -1)` for single-point on an empty genotype, and
      `rd.sample` of two from fewer than two positions for two-point. */
  predicate CrossFails(selector: int, len: nat) {
    (selector == 1 && len == 0) || (selector != 0 && selector != 1 && len < 2)
  }

  /** The positions the crossover selected by `selector` copies from the winner. */
  function MaskOf(selector: int, prob: real, len: nat, d: Draw): (m: seq<bool>)
    requires DrawFits(selector, len, d) && !CrossFails(selector, len)
    ensures |m| == len
  {
    if selector == 0 then UniformMask(d.infect, prob)
    else if selector == 1 then PointMask(len, d.point)
    else
      var p := SortPair(d.first, d.second);
      SpanMask(len, p.0, p.1)
  }

  /** The crossover step of `reproduce`: selector 0 is uniform, 1 is
      single-point and every other value two-point. It fails exactly when the
      selected crossover's draw raises, and otherwise infects the loser through
      that crossover's mask. */
  function Cross<T>(selector: int, prob: real, winner: Genotype<T>, loser: Genotype<T>, d: Draw)
    : (r: Result<Genotype<T>>)
    requires |winner| == |loser|
    requires DrawFits(selector, |winner|, d)
    ensures r.Err? <==> CrossFails(selector, |winner|)
    ensures r.Err? ==> r.error == if selector == 1 then EmptyRange else SampleLargerThanPopulation
    ensures r.Ok? ==> r.value == Infect(winner, loser, MaskOf(selector, prob, |winner|, d))
  {
    if selector == 0 then
      Ok(UniformCrossover(winner, loser, d.infect, prob))
    else if selector == 1 then
      if |winner| == 0 then Err(EmptyRange) else Ok(PointCrossover(winner, loser, d.point))
    else
      if |winner| < 2 then Err(SampleLargerThanPopulation)
      else Ok(TwoPointCrossover(winner, loser, d.first, d.second))
  }

  /** Each crossover keeps the length of the loser and takes every gene from
      the winner or the loser at the same position. */
  lemma CrossOnlyCopies<T>(selector: int, prob: real, winner: Genotype<T>, loser: Genotype<T>, d: Draw)
    requires |winner| == |loser|
    requires DrawFits(selector, |winner|, d)
    ensures var r := Cross(selector, prob, winner, loser, d);
      r.Ok? ==> |r.value| == |loser| && forall i :: 0 <= i < |loser| ==> r.value[i] == winner[i] || r.value[i] == loser[i]
  {
  }

  /** Crossing the winner with itself yields the winner, whatever the draw. */
  lemma CrossSelf<T>(selector: int, prob: real, g: Genotype<T>, d: Draw)
    requires DrawFits(selector, |g|, d)
    ensures var r := Cross(selector, prob, g, g, d);
      r.Ok? ==> r.value == g
  {
  }

  /** Crossing the crossed loser again with the same winner and draw changes
      nothing. */
  lemma CrossIdempotent<T>(selector: int, prob: real, winner: Genotype<T>, loser: Genotype<T>, d: Draw)
    requires |winner| == |loser|
    requires DrawFits(selector, |winner|, d)
    ensures var r := Cross(selector, prob, winner, loser, d);
      r.Ok? ==> |r.value| == |winner| && Cross(selector, prob, winner, r.value, d) == r
  {
    if !CrossFails(selector, |winner|) {
      InfectIdempotent(winner, loser, MaskOf(selector, prob, |winner|, d));
    }
  }
}
