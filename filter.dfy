/**
 * Second pass of the segmenter: walking the parts coarsest first, skipping
 * zero counts until the first non-zero one and then keeping at most `max`
 * parts.
 */
module Filter {
  import opened Wrappers
  import opened Decompose

  /** The position of the first part with a non-zero count, or `|parts|` if none. */
  function FirstNonZero(parts: seq<Part>): (s: nat)
    ensures s <= |parts|
    ensures forall k :: 0 <= k < s ==> parts[k].count == 0
    ensures s < |parts| ==> parts[s].count > 0
  {
    if parts == [] then 0
    else if parts[0].count > 0 then 0
    else 1 + FirstNonZero(parts[1..])
  }

  function Min(a: nat, b: nat): nat
  {
    if a <= b then a else b
  }

  /**
   * A budget that never reaches zero by counting down: an absent one, which
   * stands for an infinite budget, or a negative one.
   */
  predicate Unbounded(max: Option<int>)
  {
    max.None? || max.value < 0
  }

  /** Where the kept run ends: `max` parts after its start, or at the finest part. */
  function WindowEnd(n: nat, start: nat, max: Option<int>): nat
  {
    if Unbounded(max) then n else Min(n, start + max.value)
  }

  /**
   * The parts a coarsest-first list keeps: the run that starts at the first
   * non-zero count and holds at most `max` parts.
   */
  function Window(rev: seq<Part>, max: Option<int>): (w: seq<Part>)
    ensures !Unbounded(max) ==> |w| <= max.value
    ensures !Unbounded(max) ==> |w| == Min(|rev| - FirstNonZero(rev), max.value)
    ensures w != [] ==> w[0].count > 0
    ensures (forall k :: 0 <= k < |rev| ==> rev[k].count == 0) ==> w == []
    ensures max != Some(0) && (exists k :: 0 <= k < |rev| && rev[k].count > 0) ==> w != []
    ensures Unbounded(max) ==> |w| == |rev| - FirstNonZero(rev)
    ensures FirstNonZero(rev) + |w| <= |rev|
    ensures forall k :: 0 <= k < |w| ==> w[k] == rev[FirstNonZero(rev) + k]
  {
    var s := FirstNonZero(rev);
    rev[s .. WindowEnd(|rev|, s, max)]
  }

  /** The budget after one more kept part: an absent budget stays absent. */
  function Decrement(budget: Option<int>): (r: Option<int>)
    ensures r.Some? <==> budget.Some?
    ensures budget.Some? ==> r.value < budget.value
    ensures Unbounded(budget) ==> Unbounded(r)
  {
    if budget.Some? then Some(budget.value - 1) else None
  }

  /**
   * The filter callback applied from position `i` on, in state `started`
   * with `budget` left: with no budget left nothing is kept and the flag
   * stays as it is; otherwise the flag turns on at a non-zero count and
   * every part from then on is kept, each one spending a unit of budget.
   */
  function Keep(rev: seq<Part>, i: nat, started: bool, budget: Option<int>): (kept: seq<Part>)
    requires i <= |rev|
    ensures |kept| <= |rev| - i
    ensures !Unbounded(budget) ==> |kept| <= budget.value
    ensures forall p :: p in kept ==> p in rev[i..]
    ensures !started && kept != [] ==> kept[0].count > 0
    decreases |rev| - i
  {
    if i == |rev| then []
    else if budget != Some(0) && (started || rev[i].count > 0) then
      [rev[i]] + Keep(rev, i + 1, true, Decrement(budget))
    else
      Keep(rev, i + 1, started, budget)
  }

  /**
   * One more unit of budget never takes a part away: the window for `n`
   * is a prefix of the window for `n + 1`.
   */
  lemma WindowMonotone(rev: seq<Part>, n: nat)
    ensures Window(rev, Some(n)) <= Window(rev, Some(n + 1))
    ensures |Window(rev, Some(n + 1))| <= |Window(rev, Some(n))| + 1
  {
  }

  /** With no budget left the callback keeps nothing. */
  lemma {:induction false} KeepExhausted(rev: seq<Part>, i: nat, started: bool)
    requires i <= |rev|
    ensures Keep(rev, i, started, Some(0)) == []
    decreases |rev| - i
  {
    if i < |rev| {
      KeepExhausted(rev, i + 1, started);
    }
  }

  /** Once started, the callback keeps the next `budget` parts (all of them if unbounded). */
  lemma {:induction false} KeepStarted(rev: seq<Part>, i: nat, budget: Option<int>)
    requires i <= |rev|
    ensures Keep(rev, i, true, budget) == rev[i .. WindowEnd(|rev|, i, budget)]
    decreases |rev| - i
  {
    if i == |rev| {
    } else if budget == Some(0) {
      KeepExhausted(rev, i, true);
    } else {
      KeepStarted(rev, i + 1, Decrement(budget));
      assert WindowEnd(|rev|, i + 1, Decrement(budget)) == WindowEnd(|rev|, i, budget);
      assert rev[i .. WindowEnd(|rev|, i, budget)]
          == [rev[i]] + rev[i + 1 .. WindowEnd(|rev|, i, budget)];
    }
  }

  /** Before the first non-zero count nothing is kept and nothing is spent. */
  lemma {:induction false} KeepSkips(rev: seq<Part>, i: nat, budget: Option<int>)
    requires i <= FirstNonZero(rev)
    ensures Keep(rev, i, false, budget) == Keep(rev, FirstNonZero(rev), false, budget)
    decreases |rev| - i
  {
    if i < FirstNonZero(rev) {
      if budget == Some(0) {
        KeepExhausted(rev, i, false);
        KeepExhausted(rev, FirstNonZero(rev), false);
      } else {
        assert rev[i].count == 0;
        KeepSkips(rev, i + 1, budget);
      }
    }
  }

  /** The filter callback, run over the whole list from its initial state, keeps the window. */
  lemma KeepIsWindow(rev: seq<Part>, max: Option<int>)
    ensures Keep(rev, 0, false, max) == Window(rev, max)
  {
    var s := FirstNonZero(rev);
    var e := WindowEnd(|rev|, s, max);
    assert Window(rev, max) == rev[s .. e];
    KeepSkips(rev, 0, max);
    if s == |rev| {
    } else if max == Some(0) {
      KeepExhausted(rev, s, false);
    } else {
      KeepStarted(rev, s + 1, Decrement(max));
      assert WindowEnd(|rev|, s + 1, Decrement(max)) == e;
      assert rev[s .. e] == [rev[s]] + rev[s + 1 .. e];
    }
  }

  /**
   * The filter pass: a `started` flag that turns on at the first non-zero
   * count, and a budget that every kept part decrements; once the budget
   * is zero nothing more is kept and the flag no longer changes.
   */
  method KeepWindow(rev: seq<Part>, max: Option<int>) returns (kept: seq<Part>)
    ensures kept == Window(rev, max)
  {
    var started := false;
    var budget := max;
    kept := [];
    for i := 0 to |rev|
      invariant kept + Keep(rev, i, started, budget) == Keep(rev, 0, false, max)
    {
      if budget != Some(0) && (started || rev[i].count > 0) {
        started := true;
        budget := Decrement(budget);
        kept := kept + [rev[i]];
      }
    }
    KeepIsWindow(rev, max);
  }
}
