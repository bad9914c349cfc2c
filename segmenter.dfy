/**
 * The whole formatting pipeline of `Duration.segments`: sort a copy of the
 * grading list, split the duration into counts, keep the window of parts to
 * show, put them back in the caller's order, render and join them.
 */
module Segmenter {
  import opened Wrappers
  import opened Text
  import opened Gradings
  import opened Sorting
  import opened Decompose
  import opened Filter

  /** The parts coarsest first. */
  function Reverse(parts: seq<Part>): (rev: seq<Part>)
    ensures |rev| == |parts|
    ensures forall p :: p in rev <==> p in parts
  {
    var rev := seq(|parts|, k requires 0 <= k < |parts| => parts[|parts| - 1 - k]);
    assert forall p :: p in parts ==> p in rev by {
      forall p | p in parts ensures p in rev {
        var k :| 0 <= k < |parts| && parts[k] == p;
        assert rev[|parts| - 1 - k] == p;
      }
    }
    rev
  }

  /** The first part for the unit at position `i` of the caller's list, if any. */
  function Find(parts: seq<Part>, i: nat): (r: Option<Part>)
    ensures r.None? <==> forall p :: p in parts ==> p.index != i
    ensures r.Some? ==> r.value in parts && r.value.index == i
  {
    if parts == [] then None
    else if parts[0].index == i then Some(parts[0])
    else Find(parts[1..], i)
  }

  /**
   * Walks the first `n` units of the caller's list in order and takes the
   * kept part of each; a unit with no kept part contributes nothing.
   */
  function Arrange(kept: seq<Part>, n: nat): (shown: seq<Part>)
    ensures forall p :: p in shown ==> p in kept && p.index < n
  {
    if n == 0 then []
    else
      var prefix := Arrange(kept, n - 1);
      match Find(kept, n - 1)
      case None => prefix
      case Some(p) => prefix + [p]
  }

  /** The parts are in strictly increasing order of their units' positions. */
  predicate Increasing(parts: seq<Part>)
  {
    forall a, b :: 0 <= a < b < |parts| ==> parts[a].index < parts[b].index
  }

  /** The arranged parts follow the order of their units in the caller's list. */
  lemma {:induction false} ArrangeIncreasing(kept: seq<Part>, n: nat)
    ensures Increasing(Arrange(kept, n))
  {
    if n > 0 {
      ArrangeIncreasing(kept, n - 1);
      var prefix := Arrange(kept, n - 1);
      match Find(kept, n - 1)
      case None =>
        assert Arrange(kept, n) == prefix;
      case Some(p) =>
        var shown := prefix + [p];
        assert Arrange(kept, n) == shown && p.index == n - 1;
        forall a, b | 0 <= a < b < |shown| ensures shown[a].index < shown[b].index {
          assert shown[a] == prefix[a] && prefix[a] in prefix;
          if b == |prefix| {
            assert shown[b] == p;
          } else {
            assert shown[b] == prefix[b];
          }
        }
    }
  }

  /** No two parts belong to the same unit. */
  predicate DistinctIndices(parts: seq<Part>)
  {
    forall a, b :: 0 <= a < b < |parts| ==> parts[a].index != parts[b].index
  }

  /** The parts of units before position `m`, in their own order. */
  function Below(parts: seq<Part>, m: nat): seq<Part>
  {
    if parts == [] then []
    else (if parts[0].index < m then [parts[0]] else []) + Below(parts[1..], m)
  }

  lemma {:induction false} BelowStep(parts: seq<Part>, m: nat)
    requires DistinctIndices(parts)
    ensures |Below(parts, m + 1)| == |Below(parts, m)| + (if Find(parts, m).Some? then 1 else 0)
  {
    if parts != [] {
      assert DistinctIndices(parts[1..]) by {
        forall a, b | 0 <= a < b < |parts[1..]| ensures parts[1..][a].index != parts[1..][b].index {
          assert parts[1..][a] == parts[a + 1] && parts[1..][b] == parts[b + 1];
        }
      }
      BelowStep(parts[1..], m);
      if parts[0].index == m {
        forall p | p in parts[1..] ensures p.index != m {
          var j :| 0 <= j < |parts[1..]| && parts[1..][j] == p;
          assert parts[j + 1] == p;
        }
      }
    }
  }

  lemma {:induction false} BelowAll(parts: seq<Part>, n: nat)
    requires forall p :: p in parts ==> p.index < n
    ensures Below(parts, n) == parts
  {
    if parts != [] {
      BelowAll(parts[1..], n);
      assert parts == [parts[0]] + parts[1..];
    }
  }

  lemma {:induction false} ArrangeCount(kept: seq<Part>, m: nat)
    requires DistinctIndices(kept)
    ensures |Arrange(kept, m)| == |Below(kept, m)|
  {
    if m == 0 {
      BelowNone(kept);
    } else {
      ArrangeCount(kept, m - 1);
      BelowStep(kept, m - 1);
      match Find(kept, m - 1)
      case None =>
        assert Arrange(kept, m) == Arrange(kept, m - 1);
      case Some(p) =>
        assert Arrange(kept, m) == Arrange(kept, m - 1) + [p];
    }
  }

  lemma {:induction false} BelowNone(parts: seq<Part>)
    ensures Below(parts, 0) == []
  {
    if parts != [] {
      BelowNone(parts[1..]);
    }
  }

  lemma {:induction false} ArrangeComplete(kept: seq<Part>, n: nat)
    requires DistinctIndices(kept)
    ensures forall p :: p in kept && p.index < n ==> p in Arrange(kept, n)
  {
    if n > 0 {
      ArrangeComplete(kept, n - 1);
      forall p | p in kept && p.index == n - 1 ensures p in Arrange(kept, n) {
        var q := Find(kept, n - 1).value;
        var a :| 0 <= a < |kept| && kept[a] == p;
        var b :| 0 <= b < |kept| && kept[b] == q;
        assert a == b;
      }
    }
  }

  /**
   * Put back in display order, the kept parts are all shown, each once:
   * the arrangement is a permutation of them.
   */
  lemma ArrangePermutes(kept: seq<Part>, n: nat)
    requires DistinctIndices(kept)
    requires forall p :: p in kept ==> p.index < n
    ensures |Arrange(kept, n)| == |kept|
    ensures forall p :: p in Arrange(kept, n) <==> p in kept
  {
    ArrangeCount(kept, n);
    BelowAll(kept, n);
    ArrangeComplete(kept, n);
  }

  lemma HeadIsMember(parts: seq<Part>)
    ensures parts != [] ==> parts[0] in parts
  {
  }

  /** Past the head of an increasing list, the rest is increasing and of larger units. */
  lemma IncreasingTail(a: seq<Part>)
    requires Increasing(a) && a != []
    ensures Increasing(a[1..])
    ensures forall p :: p in a[1..] ==> a[0].index < p.index
    ensures forall p :: p in a ==> p == a[0] || p in a[1..]
  {
    var t := a[1..];
    forall x, y | 0 <= x < y < |t| ensures t[x].index < t[y].index {
      assert t[x] == a[x + 1] && t[y] == a[y + 1];
    }
    forall p | p in t ensures a[0].index < p.index {
      var k :| 0 <= k < |t| && t[k] == p;
      assert p == a[k + 1];
    }
    assert a == [a[0]] + t;
  }

  /** Two lists in increasing unit order with the same members are the same list. */
  lemma {:induction false} IncreasingUnique(a: seq<Part>, b: seq<Part>)
    requires Increasing(a) && Increasing(b)
    requires forall p :: p in a <==> p in b
    ensures a == b
  {
    if a == [] {
      HeadIsMember(b);
    } else {
      HeadIsMember(a);
      assert b != [];
      HeadIsMember(b);
      IncreasingTail(a);
      IncreasingTail(b);
      var a', b' := a[1..], b[1..];
      assert a[0] == b[0];
      forall p ensures p in a' <==> p in b' {
        if p in a' {
          assert p in b && p != b[0];
        }
        if p in b' {
          assert p in a && p != a[0];
        }
      }
      IncreasingUnique(a', b');
      assert a == [a[0]] + a' && b == [b[0]] + b';
    }
  }

  /** Parts already in the caller's order, of units before `n`, are arranged as they are. */
  lemma ArrangeInOrder(kept: seq<Part>, n: nat)
    requires Increasing(kept)
    requires forall p :: p in kept ==> p.index < n
    ensures Arrange(kept, n) == kept
  {
    ArrangePermutes(kept, n);
    ArrangeIncreasing(kept, n);
    IncreasingUnique(Arrange(kept, n), kept);
  }

  /** The parts the filter keeps, coarsest first. */
  function Kept(d: nat, g: seq<Grading>, max: Option<int>): (kept: seq<Part>)
    ensures |kept| <= |g|
    ensures !Unbounded(max) ==> |kept| <= max.value
    ensures kept != [] ==> kept[0].count > 0
  {
    Window(Reverse(Decomposition(d, g, SortedCopy(g))), max)
  }

  /** The parts shown, in the order of the caller's grading list. */
  function Displayed(d: nat, g: seq<Grading>, max: Option<int>): (shown: seq<Part>)
    ensures forall p :: p in shown ==> p.index < |g|
  {
    Arrange(Kept(d, g, max), |g|)
  }

  /** The display text of each part, in order. */
  function RenderAll(g: seq<Grading>, parts: seq<Part>): (texts: seq<string>)
    requires forall p :: p in parts ==> p.index < |g|
    ensures |texts| == |parts|
    ensures forall k :: 0 <= k < |parts| && g[parts[k].index].unit.Template? ==> '%' !in texts[k]
  {
    seq(|parts|, k requires 0 <= k < |parts| => Render(g[parts[k].index], parts[k].count))
  }

  /** The string `Duration.segments(max)` returns. */
  function Format(d: nat, g: seq<Grading>, sep: string, max: Option<int>): (text: string)
    ensures Displayed(d, g, max) == [] ==> text == ""
    ensures var texts := RenderAll(g, Displayed(d, g, max));
      (|texts| == 1 ==> text == texts[0]) && (texts != [] ==> texts[0] <= text)
  {
    var texts := RenderAll(g, Displayed(d, g, max));
    if |g| == 0 then "" else Join(texts, sep)
  }

  /** Read back from a reversed list, the window is a run of the original read backwards. */
  lemma WindowOfReversed(parts: seq<Part>, max: Option<int>)
    ensures var rev := Reverse(parts);
      var w, s := Window(rev, max), FirstNonZero(rev);
      s + |w| <= |parts| && forall a :: 0 <= a < |w| ==> w[a] == parts[|parts| - 1 - (s + a)]
  {
  }

  /**
   * Kept parts, coarsest first, form a run of the units read
   * backwards from the first non-zero count.
   */
  lemma RunAt(parts: seq<Part>, order: seq<nat>, max: Option<int>, a: nat)
    requires |parts| == |order|
    requires forall k :: 0 <= k < |order| ==> parts[k].index == order[k]
    requires a < |Window(Reverse(parts), max)|
    ensures FirstNonZero(Reverse(parts)) + a < |order|
    ensures Window(Reverse(parts), max)[a].index == order[|order| - 1 - (FirstNonZero(Reverse(parts)) + a)]
  {
    WindowOfReversed(parts, max);
  }

  /** Parts taken from units before `n` stay so through the filter. */
  lemma RunBelow(parts: seq<Part>, order: seq<nat>, n: nat, max: Option<int>)
    requires |parts| == |order|
    requires forall k :: 0 <= k < |order| ==> parts[k].index == order[k]
    requires forall x :: x in order ==> x < n
    ensures forall p :: p in Window(Reverse(parts), max) ==> p.index < n
  {
    var w, s := Window(Reverse(parts), max), FirstNonZero(Reverse(parts));
    forall p | p in w ensures p.index < n {
      var a :| 0 <= a < |w| && w[a] == p;
      RunAt(parts, order, max, a);
      assert order[|order| - 1 - (s + a)] in order;
    }
  }

  /** Parts taken from distinct units keep distinct units through the filter. */
  lemma RunUnits(parts: seq<Part>, order: seq<nat>, n: nat, max: Option<int>)
    requires |parts| == |order| && Distinct(order)
    requires forall k :: 0 <= k < |order| ==> parts[k].index == order[k]
    requires forall x :: x in order ==> x < n
    ensures DistinctIndices(Window(Reverse(parts), max))
    ensures forall p :: p in Window(Reverse(parts), max) ==> p.index < n
  {
    RunBelow(parts, order, n, max);
    var w := Window(Reverse(parts), max);
    forall a, b | 0 <= a < b < |w| ensures w[a].index != w[b].index {
      RunAt(parts, order, max, a);
      RunAt(parts, order, max, b);
    }
  }

  /** The kept parts belong to distinct units of the caller's list. */
  lemma KeptUnits(d: nat, g: seq<Grading>, max: Option<int>)
    ensures DistinctIndices(Kept(d, g, max))
    ensures forall p :: p in Kept(d, g, max) ==> p.index < |g|
  {
    var order := SortedCopy(g);
    RunUnits(Decomposition(d, g, order), order, |g|, max);
  }

  /**
   * The shown parts are exactly the kept parts, each once, ordered as the
   * caller's grading list orders their units.
   */
  lemma DisplayedIsKept(d: nat, g: seq<Grading>, max: Option<int>)
    ensures |Displayed(d, g, max)| == |Kept(d, g, max)|
    ensures forall p :: p in Displayed(d, g, max) <==> p in Kept(d, g, max)
    ensures Increasing(Displayed(d, g, max))
  {
    KeptUnits(d, g, max);
    ArrangePermutes(Kept(d, g, max), |g|);
    ArrangeIncreasing(Kept(d, g, max), |g|);
  }

  /** At most `max` segments are shown, and none when `max` is zero. */
  lemma SegmentLimit(d: nat, g: seq<Grading>, sep: string, max: Option<int>)
    ensures !Unbounded(max) ==> |Displayed(d, g, max)| <= max.value
    ensures max == Some(0) ==> Format(d, g, sep, max) == ""
  {
    DisplayedIsKept(d, g, max);
  }

  /**
   * Truncation is monotone: every segment shown with budget `n` is still
   * shown with budget `n + 1`, and at most one more appears.
   */
  lemma DisplayedMonotone(d: nat, g: seq<Grading>, n: nat)
    ensures forall p :: p in Displayed(d, g, Some(n)) ==> p in Displayed(d, g, Some(n + 1))
    ensures |Displayed(d, g, Some(n))| <= |Displayed(d, g, Some(n + 1))| <= |Displayed(d, g, Some(n))| + 1
  {
    WindowMonotone(Reverse(Decomposition(d, g, SortedCopy(g))), n);
    DisplayedIsKept(d, g, Some(n));
    DisplayedIsKept(d, g, Some(n + 1));
  }

  /** A negative budget never counts down to zero: it shows as much as no budget. */
  lemma NegativeIsUnlimited(d: nat, g: seq<Grading>, sep: string, m: int)
    requires m < 0
    ensures Displayed(d, g, Some(m)) == Displayed(d, g, None)
    ensures Format(d, g, sep, Some(m)) == Format(d, g, sep, None)
  {
  }

  /** With a non-zero budget the window over the reversed parts is empty exactly when every count is zero. */
  lemma WindowEmptyIffAllZero(parts: seq<Part>, max: Option<int>)
    requires max != Some(0)
    ensures Window(Reverse(parts), max) == [] <==> forall k :: 0 <= k < |parts| ==> parts[k].count == 0
  {
    var rev := Reverse(parts);
    if forall k :: 0 <= k < |parts| ==> parts[k].count == 0 {
      forall k | 0 <= k < |rev| ensures rev[k].count == 0 {
        assert rev[k] == parts[|parts| - 1 - k];
      }
    } else {
      var k :| 0 <= k < |parts| && parts[k].count > 0;
      assert rev[|parts| - 1 - k] == parts[k];
    }
  }

  /**
   * With a non-zero budget, nothing is shown exactly when every count is
   * zero; then the result is the empty string.
   */
  lemma EmptyIffAllZero(d: nat, g: seq<Grading>, sep: string, max: Option<int>)
    requires max != Some(0)
    ensures var parts := Decomposition(d, g, SortedCopy(g));
      Displayed(d, g, max) == [] <==> forall k :: 0 <= k < |parts| ==> parts[k].count == 0
    ensures var parts := Decomposition(d, g, SortedCopy(g));
      (forall k :: 0 <= k < |parts| ==> parts[k].count == 0) ==> Format(d, g, sep, max) == ""
  {
    DisplayedIsKept(d, g, max);
    WindowEmptyIffAllZero(Decomposition(d, g, SortedCopy(g)), max);
  }

  /**
   * A duration shorter than every unit, zero among them, formats as the
   * empty string: there is no special case for it.
   */
  lemma ShorterThanEveryUnit(d: nat, g: seq<Grading>, sep: string, max: Option<int>)
    requires forall i :: 0 <= i < |g| ==> d < g[i].milliseconds
    ensures Format(d, g, sep, max) == ""
  {
    if max != Some(0) {
      var order := SortedCopy(g);
      var parts := Decomposition(d, g, order);
      forall k | 0 <= k < |parts| ensures parts[k].count == 0 {
        DecompositionAt(d, g, order, k);
        CountBelowUnit(d, Factors(g, order), k);
      }
      EmptyIffAllZero(d, g, sep, max);
    } else {
      SegmentLimit(d, g, sep, max);
    }
  }

  /**
   * Over parts in ascending order of unit size, the first part the filter
   * keeps has a non-zero count and the largest unit of those kept.
   */
  lemma RunCoarsest(parts: seq<Part>, g: seq<Grading>, order: seq<nat>, max: Option<int>)
    requires |parts| == |order| && SortedByFactor(g, order)
    requires forall k :: 0 <= k < |order| ==> parts[k].index == order[k]
    ensures var w := Window(Reverse(parts), max);
      w != [] ==>
        w[0].count > 0 && w[0].index < |g| &&
        forall q :: q in w ==> q.index < |g| && g[q.index].milliseconds <= g[w[0].index].milliseconds
  {
    var w := Window(Reverse(parts), max);
    if w != [] {
      RunAt(parts, order, max, 0);
      forall q | q in w ensures q.index < |g| && g[q.index].milliseconds <= g[w[0].index].milliseconds {
        var a :| 0 <= a < |w| && w[a] == q;
        RunAt(parts, order, max, a);
      }
    }
  }

  /**
   * Among the shown parts, the one of the coarsest unit has a non-zero
   * count: leading zero units are suppressed.
   */
  lemma CoarsestShownIsNonZero(d: nat, g: seq<Grading>, max: Option<int>)
    ensures var shown := Displayed(d, g, max);
      shown != [] ==>
        exists p :: p in shown && p.count > 0 &&
          (forall q :: q in shown ==> g[q.index].milliseconds <= g[p.index].milliseconds)
  {
    var shown := Displayed(d, g, max);
    var w := Kept(d, g, max);
    DisplayedIsKept(d, g, max);
    var order := SortedCopy(g);
    RunCoarsest(Decomposition(d, g, order), g, order, max);
    if shown != [] {
      assert w[0] in shown;
    }
  }
}
