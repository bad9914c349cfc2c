/**
 * First pass of the segmenter: splitting a duration into one count per unit,
 * finest to coarsest, as digits of a mixed-radix number.
 */
module Decompose {
  import opened Arith
  import opened Gradings
  import opened Sorting

  /** One unit's count; `index` is the unit's position in the caller's grading list. */
  datatype Part = Part(index: nat, count: nat)

  /** Factors finest to coarsest, each no larger than the next and dividing it. */
  ghost predicate Chain(fs: seq<Factor>)
  {
    forall k :: 0 <= k < |fs| - 1 ==> fs[k] <= fs[k + 1] && fs[k + 1] as nat % fs[k] as nat == 0
  }

  /** The factors of the units in the order given by `order`. */
  function Factors(g: seq<Grading>, order: seq<nat>): seq<Factor>
    requires forall k :: 0 <= k < |order| ==> order[k] < |g|
  {
    seq(|order|, k requires 0 <= k < |order| => g[order[k]].milliseconds)
  }

  /** Sorting a commensurable list makes every factor divide the next. */
  lemma SortedFactorsChain(g: seq<Grading>, order: seq<nat>)
    requires Commensurable(g) && SortedByFactor(g, order)
    ensures Chain(Factors(g, order))
  {
    var fs := Factors(g, order);
    forall k | 0 <= k < |fs| - 1 ensures fs[k] <= fs[k + 1] && fs[k + 1] as nat % fs[k] as nat == 0 {
      assert g[order[k]].milliseconds <= g[order[k + 1]].milliseconds;
    }
  }

  /** In a chain no factor is smaller than the one before it. */
  lemma ChainIncreases(fs: seq<Factor>)
    requires Chain(fs)
    ensures forall k :: 0 <= k < |fs| - 1 ==> fs[k] <= fs[k + 1]
  {
    forall k | 0 <= k < |fs| - 1 ensures fs[k] <= fs[k + 1] {
      ChainStep(fs, k);
    }
  }

  lemma ChainStep(fs: seq<Factor>, k: nat)
    requires Chain(fs) && k + 1 < |fs|
    ensures fs[k] <= fs[k + 1]
  {
    ExactQuotient(fs[k], fs[k + 1]);
  }

  /** How many units `k` make up one unit `k + 1`. */
  function Ratio(fs: seq<Factor>, k: nat): (r: nat)
    requires k + 1 < |fs| && fs[k] <= fs[k + 1]
    ensures r >= 1
  {
    fs[k + 1] as nat / fs[k] as nat
  }

  /** In a chain, one unit `k + 1` is exactly `Ratio(fs, k)` units `k`, at least one. */
  lemma RatioExact(fs: seq<Factor>, k: nat)
    requires Chain(fs) && k + 1 < |fs|
    ensures fs[k] <= fs[k + 1] && fs[k + 1] == fs[k] * Ratio(fs, k)
  {
    ExactQuotient(fs[k], fs[k + 1]);
  }

  /**
   * The count shown for unit `k`: the whole units `k` in `d` that do not
   * make up a whole unit `k + 1`; the coarsest unit takes all that is left.
   */
  function Count(d: nat, fs: seq<Factor>, k: nat): (c: nat)
    requires k < |fs| && (k + 1 < |fs| ==> fs[k] <= fs[k + 1])
    ensures k + 1 < |fs| ==> c < Ratio(fs, k)
  {
    if k + 1 == |fs| then d / fs[k] else (d / fs[k]) % Ratio(fs, k)
  }

  /** A unit larger than the whole duration counts zero, whatever the units around it. */
  lemma CountBelowUnit(d: nat, fs: seq<Factor>, k: nat)
    requires k < |fs| && (k + 1 < |fs| ==> fs[k] <= fs[k + 1]) && d < fs[k]
    ensures Count(d, fs, k) == 0
  {
    var x := d / fs[k];
    assert x == 0;
  }

  /**
   * Every count but the coarsest is below the ratio to the next unit
   * (minutes below 60, hours below 24); a unit larger than the whole
   * duration counts zero.
   */
  lemma CountBounds(d: nat, fs: seq<Factor>, k: nat)
    requires Chain(fs) && k < |fs|
    ensures k + 1 < |fs| ==> Count(d, fs, k) < Ratio(fs, k)
    ensures k + 1 == |fs| ==> Count(d, fs, k) == d / fs[k]
    ensures d < fs[k] ==> Count(d, fs, k) == 0
  {
    if k + 1 < |fs| {
      ChainStep(fs, k);
      var x, r := d / fs[k], Ratio(fs, k);
      assert Count(d, fs, k) == x % r;
      assert d < fs[k] ==> x == 0;
    } else {
      assert d < fs[k] ==> d / fs[k] == 0;
    }
  }

  function Counts(d: nat, fs: seq<Factor>): (cs: seq<nat>)
    requires Chain(fs)
    ensures |cs| == |fs|
    ensures |fs| > 0 ==> cs[|fs| - 1] == d / fs[|fs| - 1]
  {
    ChainIncreases(fs);
    seq(|fs|, k requires 0 <= k < |fs| => Count(d, fs, k))
  }

  /** The parts the first pass produces for the sorted units from position `i` on. */
  function DecompositionFrom(d: nat, g: seq<Grading>, order: seq<nat>, i: nat): (parts: seq<Part>)
    requires SortedByFactor(g, order) && i <= |order|
    ensures |parts| == |order| - i
    ensures forall k :: 0 <= k < |parts| ==> parts[k].index == order[i + k]
    decreases |order| - i
  {
    if i == |order| then []
    else [Part(order[i], Count(d, Factors(g, order), i))] + DecompositionFrom(d, g, order, i + 1)
  }

  /** The parts the first pass produces, finest unit first. */
  function Decomposition(d: nat, g: seq<Grading>, order: seq<nat>): (parts: seq<Part>)
    requires SortedByFactor(g, order)
    ensures |parts| == |order|
    ensures forall k :: 0 <= k < |order| ==> parts[k].index == order[k]
  {
    DecompositionFrom(d, g, order, 0)
  }

  lemma {:induction false} DecompositionFromAt(d: nat, g: seq<Grading>, order: seq<nat>, i: nat, k: nat)
    requires SortedByFactor(g, order) && i <= k < |order|
    ensures DecompositionFrom(d, g, order, i)[k - i] == Part(order[k], Count(d, Factors(g, order), k))
    decreases k - i
  {
    if i < k {
      DecompositionFromAt(d, g, order, i + 1, k);
    }
  }

  /** Each part of the first pass holds the count of its unit. */
  lemma DecompositionAt(d: nat, g: seq<Grading>, order: seq<nat>, k: nat)
    requires SortedByFactor(g, order) && k < |order|
    ensures Decomposition(d, g, order)[k] == Part(order[k], Count(d, Factors(g, order), k))
  {
    DecompositionFromAt(d, g, order, 0, k);
  }

  /**
   * Walks the sorted factors finest to coarsest with a running value in
   * units of the current factor, taking its remainder modulo the ratio to
   * the next factor and then dividing by that ratio; the coarsest unit takes
   * what is left.
   */
  method Digits(d: nat, fs: seq<Factor>) returns (cs: seq<nat>)
    requires Chain(fs) && |fs| > 0
    ensures cs == Counts(d, fs)
  {
    ghost var spec := Counts(d, fs);
    var running: nat := d / fs[0];
    cs := [];
    var i := 0;
    while i < |fs|
      invariant 0 <= i <= |fs|
      invariant |cs| == i
      invariant forall k :: 0 <= k < i ==> cs[k] == spec[k]
      invariant i < |fs| ==> running == d / fs[i]
    {
      if i == |fs| - 1 {
        cs := cs + [running];
      } else {
        var ratio := Ratio(fs, i);
        SplitStep(d, fs, i, running);
        var count, next := running % ratio, running / ratio;
        assert count == spec[i];
        cs := cs + [count];
        running := next;
      }
      i := i + 1;
    }
  }

  /**
   * The first pass: the counts of the sorted units, each paired with its
   * unit.
   */
  method Split(d: nat, g: seq<Grading>, order: seq<nat>) returns (parts: seq<Part>)
    requires |order| > 0 && Commensurable(g) && SortedByFactor(g, order)
    ensures parts == Decomposition(d, g, order)
  {
    SortedFactorsChain(g, order);
    var cs := Digits(d, Factors(g, order));
    parts := seq(|order|, k requires 0 <= k < |order| => Part(order[k], cs[k]));
    forall k | 0 <= k < |order| ensures parts[k] == Decomposition(d, g, order)[k] {
      DecompositionAt(d, g, order, k);
    }
  }

  /** The running value in units `i`, divided by the ratio, is in units `i + 1`. */
  lemma NextRunning(d: nat, fs: seq<Factor>, i: nat)
    requires Chain(fs) && i + 1 < |fs|
    ensures d / fs[i] / Ratio(fs, i) == d / fs[i + 1]
  {
    var a, r := fs[i] as nat, Ratio(fs, i);
    RatioExact(fs, i);
    DivDiv(d, a, r);
    assert a * r == fs[i + 1] as nat;
  }

  /** One step of the first pass, from the running value in units `i`. */
  lemma SplitStep(d: nat, fs: seq<Factor>, i: nat, running: nat)
    requires Chain(fs) && i + 1 < |fs| && running == d / fs[i]
    ensures fs[i] <= fs[i + 1]
    ensures running % Ratio(fs, i) == Count(d, fs, i)
    ensures running / Ratio(fs, i) == d / fs[i + 1]
  {
    ChainStep(fs, i);
    NextRunning(d, fs, i);
  }

  /** Sum of `cs[k] * fs[k]` over the units from `i` on. */
  function WeightedSum(cs: seq<nat>, fs: seq<Factor>, i: nat): nat
    requires |cs| == |fs| && i <= |fs|
    decreases |fs| - i
  {
    if i == |fs| then 0 else cs[i] * fs[i] + WeightedSum(cs, fs, i + 1)
  }

  /** The counts from unit `i` on make up `d` rounded down to a whole unit `i`. */
  lemma {:induction false} RecombineFrom(d: nat, fs: seq<Factor>, i: nat)
    requires Chain(fs) && i < |fs|
    ensures WeightedSum(Counts(d, fs), fs, i) == (d / fs[i]) * fs[i]
    decreases |fs| - i
  {
    var cs := Counts(d, fs);
    if i + 1 < |fs| {
      RecombineFrom(d, fs, i + 1);
      var x, r := d / fs[i], Ratio(fs, i);
      RatioExact(fs, i);
      DivDiv(d, fs[i], r);
      assert cs[i] == x % r;
      assert WeightedSum(cs, fs, i) == cs[i] * fs[i] + (d / fs[i + 1]) * fs[i + 1];
      DigitStep(WeightedSum(cs, fs, i), x, r, fs[i], d / fs[i + 1], fs[i + 1], cs[i]);
    } else {
      assert cs[i] == d / fs[i];
    }
  }

  /**
   * Recombination: the counts times their factors add up to the duration
   * with the part finer than the finest unit dropped.
   */
  lemma Recombine(d: nat, fs: seq<Factor>)
    requires Chain(fs) && |fs| > 0
    ensures WeightedSum(Counts(d, fs), fs, 0) == d - d % fs[0]
  {
    RecombineFrom(d, fs, 0);
    RoundDown(d, fs[0]);
  }

  /** A weighted sum from unit `j` on is a whole number of units `j`. */
  lemma {:induction false} WeightedSumMultiple(cs: seq<nat>, fs: seq<Factor>, j: nat)
    requires Chain(fs) && |cs| == |fs| && j < |fs|
    ensures WeightedSum(cs, fs, j) % fs[j] == 0
    decreases |fs| - j
  {
    if j + 1 == |fs| {
      MulMod(cs[j], fs[j]);
    } else {
      var w := WeightedSum(cs, fs, j + 1);
      var a, b, r := fs[j] as nat, fs[j + 1] as nat, Ratio(fs, j);
      WeightedSumMultiple(cs, fs, j + 1);
      RatioExact(fs, j);
      RoundDown(w, b);
      var m := w / b;
      Carry(cs[j], a, m, b, r);
      assert WeightedSum(cs, fs, j) == cs[j] * a + m * b;
      MulMod(cs[j] + m * r, a);
    }
  }

  /**
   * One digit of the uniqueness argument: a digit below its ratio, whose
   * weighted sum from unit `i` on is `d` rounded down to unit `i`, is the
   * count of unit `i`, and the rest is `d` rounded down to unit `i + 1`.
   */
  lemma DigitUnique(d: nat, fs: seq<Factor>, cs: seq<nat>, i: nat)
    requires Chain(fs) && |cs| == |fs| && i + 1 < |fs|
    requires fs[i] <= fs[i + 1] && cs[i] < Ratio(fs, i)
    requires WeightedSum(cs, fs, i) == (d / fs[i]) * fs[i]
    ensures cs[i] == Count(d, fs, i)
    ensures WeightedSum(cs, fs, i + 1) == (d / fs[i + 1]) * fs[i + 1]
  {
    var x := d / fs[i];
    var w := WeightedSum(cs, fs, i + 1);
    var a, b, r := fs[i] as nat, fs[i + 1] as nat, Ratio(fs, i);
    RatioExact(fs, i);
    WeightedSumMultiple(cs, fs, i + 1);
    RoundDown(w, b);
    var m := w / b;
    Carry(cs[i], a, m, b, r);
    assert WeightedSum(cs, fs, i) == cs[i] * a + m * b;
    CancelMul(cs[i] + m * r, x, a);
    UniqueDivision(x, r, m, cs[i]);
    NextRunning(d, fs, i);
  }

  /**
   * Digits within their bounds that make up `d` rounded down to a whole
   * unit `i` are the counts from unit `i` on.
   */
  lemma {:induction false} DigitsUnique(d: nat, fs: seq<Factor>, cs: seq<nat>, i: nat)
    requires Chain(fs) && |cs| == |fs| && i < |fs|
    requires forall k :: i <= k < |fs| - 1 ==> cs[k] < Ratio(fs, k)
    requires WeightedSum(cs, fs, i) == (d / fs[i]) * fs[i]
    ensures forall k :: i <= k < |fs| ==> cs[k] == Count(d, fs, k)
    decreases |fs| - i
  {
    if i + 1 == |fs| {
      assert WeightedSum(cs, fs, i) == cs[i] * fs[i];
      CancelMul(cs[i], d / fs[i], fs[i]);
    } else {
      assert cs[i] == Count(d, fs, i) && WeightedSum(cs, fs, i + 1) == (d / fs[i + 1]) * fs[i + 1] by {
        ChainStep(fs, i);
        DigitUnique(d, fs, cs, i);
      }
      DigitsUnique(d, fs, cs, i + 1);
    }
  }

  /**
   * The counts are the one and only way to write the duration, rounded
   * down to the finest unit, with every non-coarsest digit below its ratio.
   */
  lemma MixedRadixUnique(d: nat, fs: seq<Factor>, cs: seq<nat>)
    requires Chain(fs) && |cs| == |fs| && |fs| > 0
    requires forall k :: 0 <= k < |fs| - 1 ==> cs[k] < Ratio(fs, k)
    ensures WeightedSum(cs, fs, 0) == d - d % fs[0] <==> cs == Counts(d, fs)
  {
    RoundDown(d, fs[0]);
    if WeightedSum(cs, fs, 0) == d - d % fs[0] {
      DigitsUnique(d, fs, cs, 0);
      assert forall k :: 0 <= k < |fs| ==> cs[k] == Counts(d, fs)[k];
    }
    if cs == Counts(d, fs) {
      Recombine(d, fs);
    }
  }
}
