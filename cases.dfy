/**
 * Worked cases of `Duration.segments`: each lemma fixes a duration, a
 * grading list, a separator and a budget, and states the exact string the
 * formatter produces. Each case is proved in small steps (sorted order,
 * counts, kept window, arrangement, texts, join) so that no step has to
 * unfold the whole pipeline at once.
 */
module Cases {
  import opened Wrappers
  import opened Text
  import opened Gradings
  import opened Sorting
  import opened Decompose
  import opened Filter
  import opened Segmenter

  /** Sorted by size, the default units are seconds, minutes, hours, days. */
  lemma DefaultOrder()
    ensures SortedCopy(DefaultGrading) == [3, 2, 1, 0]
  {
    DescendingOrder(DefaultGrading);
  }

  /** A position whose unit is smaller than the first sorted one goes in front. */
  lemma InsertFront(g: seq<Grading>, sorted: seq<nat>, i: nat)
    requires i < |g| && SortedByFactor(g, sorted)
    requires sorted == [] || g[i].milliseconds < g[sorted[0]].milliseconds
    ensures Insert(g, sorted, i) == [i] + sorted
  {
  }

  /** Four units listed largest first sort into the reverse order. */
  lemma DescendingOrder(g: seq<Grading>)
    requires |g| == 4
    requires g[3].milliseconds < g[2].milliseconds < g[1].milliseconds < g[0].milliseconds
    ensures SortedCopy(g) == [3, 2, 1, 0]
  {
    var p1, p2, p3 := SortedPrefix(g, 1), SortedPrefix(g, 2), SortedPrefix(g, 3);
    InsertFront(g, [], 0);
    assert p1 == [0];
    InsertFront(g, p1, 1);
    assert p2 == [1, 0];
    InsertFront(g, p2, 2);
    assert p3 == [2, 1, 0];
    InsertFront(g, p3, 3);
  }

  /** Under the default units a duration splits into seconds, minutes, hours and days. */
  lemma DefaultParts(d: nat)
    ensures Decomposition(d, DefaultGrading, [3, 2, 1, 0])
      == [Part(3, d / 1000 % 60), Part(2, d / 60000 % 60), Part(1, d / 3600000 % 24), Part(0, d / 86400000)]
  {
    DefaultOrder();
    assert Factors(DefaultGrading, [3, 2, 1, 0]) == [1000, 60000, 3600000, 86400000];
    FourParts(d, DefaultGrading, [3, 2, 1, 0], 1000, 60000, 3600000, 86400000, 60, 60, 24);
  }

  /** Over four sorted units, each part is the quotient by its unit modulo the ratio to the next. */
  lemma FourParts(d: nat, g: seq<Grading>, order: seq<nat>, a: Factor, b: Factor, c: Factor, e: Factor,
                  r1: Factor, r2: Factor, r3: Factor)
    requires SortedByFactor(g, order) && |order| == 4
    requires Factors(g, order) == [a, b, c, e] && a <= b <= c <= e
    requires b / a == r1 && c / b == r2 && e / c == r3
    ensures Decomposition(d, g, order)
      == [Part(order[0], d / a % r1), Part(order[1], d / b % r2), Part(order[2], d / c % r3), Part(order[3], d / e)]
  {
    DecompositionAt(d, g, order, 0);
    DecompositionAt(d, g, order, 1);
    DecompositionAt(d, g, order, 2);
    DecompositionAt(d, g, order, 3);
  }

  /** The shown parts, assembled from the stages of the pipeline. */
  lemma ShownFrom(d: nat, g: seq<Grading>, max: Option<int>, rev: seq<Part>, kept: seq<Part>, shown: seq<Part>)
    requires Reverse(Decomposition(d, g, SortedCopy(g))) == rev
    requires Window(rev, max) == kept && Arrange(kept, |g|) == shown
    ensures Displayed(d, g, max) == shown
  {
  }

  /** Once the shown parts and their texts are known, the result is their join. */
  lemma FormatFrom(d: nat, g: seq<Grading>, sep: string, max: Option<int>, shown: seq<Part>, texts: seq<string>)
    requires |g| > 0 && Displayed(d, g, max) == shown && RenderAll(g, shown) == texts
    ensures Format(d, g, sep, max) == Join(texts, sep)
  {
  }

  /** A template of one `%` followed by a suffix renders as the count then the suffix. */
  lemma PrefixTemplate(suffix: string, ms: Factor, count: nat)
    requires '%' !in suffix
    ensures Render(Grading(Template("%" + suffix), ms), count) == Decimal(count) + suffix
  {
    assert ("%" + suffix)[1..] == suffix;
  }

  lemma SmallDecimals()
    ensures Decimal(0) == "0" && Decimal(1) == "1" && Decimal(7) == "7" && Decimal(8) == "8"
    ensures Decimal(10) == "10" && Decimal(13) == "13" && Decimal(30) == "30"
    ensures Decimal(1200) == "1200"
  {
    assert Decimal(12) == "12";
    assert Decimal(120) == "120";
  }

  lemma DayText(count: nat, text: string)
    requires text == Decimal(count) + "d"
    ensures Render(Day, count) == text
  {
    PrefixTemplate("d", Day.milliseconds, count);
  }

  lemma HourText(count: nat, text: string)
    requires text == Decimal(count) + "h"
    ensures Render(Hour, count) == text
  {
    PrefixTemplate("h", Hour.milliseconds, count);
  }

  lemma MinuteText(count: nat, text: string)
    requires text == Decimal(count) + "m"
    ensures Render(Minute, count) == text
  {
    PrefixTemplate("m", Minute.milliseconds, count);
  }

  lemma SecondText(count: nat, text: string)
    requires text == Decimal(count) + "s"
    ensures Render(Second, count) == text
  {
    PrefixTemplate("s", Second.milliseconds, count);
  }

  lemma MillisecondText(count: nat, text: string)
    requires text == Decimal(count) + "ms"
    ensures Render(Millisecond, count) == text
  {
    PrefixTemplate("ms", Millisecond.milliseconds, count);
  }

  lemma JoinTwo(a: string, b: string, sep: string)
    ensures Join([a, b], sep) == a + sep + b
  {
    assert [a, b][1..] == [b];
  }

  lemma JoinThree(a: string, b: string, c: string, sep: string)
    ensures Join([a, b, c], sep) == a + sep + b + sep + c
  {
    assert [a, b, c][1..] == [b, c];
    JoinTwo(b, c, sep);
  }

  lemma JoinFour(a: string, b: string, c: string, e: string, sep: string)
    ensures Join([a, b, c, e], sep) == a + sep + b + sep + c + sep + e
  {
    assert [a, b, c, e][1..] == [b, c, e];
    JoinThree(b, c, e, sep);
  }

  lemma OneHourJoin()
    ensures Join(["1h", "0m", "0s"], " ") == "1h 0m 0s"
  {
    JoinThree("1h", "0m", "0s", " ");
  }

  lemma OneHourColonJoin()
    ensures Join(["1h", "0m", "0s"], ":") == "1h:0m:0s"
  {
    JoinThree("1h", "0m", "0s", ":");
  }

  lemma OneHourLimitedJoin()
    ensures Join(["1h", "0m"], " ") == "1h 0m"
  {
    JoinTwo("1h", "0m", " ");
  }

  lemma NinetySecondsJoin()
    ensures Join(["1m", "30s"], " ") == "1m 30s"
  {
    JoinTwo("1m", "30s", " ");
  }

  lemma AllUnitsJoin()
    ensures Join(["1d", "7h", "10m", "13s"], " ") == "1d 7h 10m 13s"
  {
    JoinFour("1d", "7h", "10m", "13s", " ");
  }

  lemma MillisecondHourJoin()
    ensures Join(["1200ms", "1h"], " ") == "1200ms 1h"
  {
    JoinTwo("1200ms", "1h", " ");
  }

  // One hour under the default units, with and without a budget.

  lemma OneHourParts()
    ensures Decomposition(3600000, DefaultGrading, [3, 2, 1, 0]) == [Part(3, 0), Part(2, 0), Part(1, 1), Part(0, 0)]
  {
    DefaultParts(3600000);
    assert 3600000 / 1000 == 3600 && 3600 % 60 == 0;
    assert 3600000 / 60000 == 60 && 60 % 60 == 0;
    assert 3600000 / 3600000 == 1 && 1 % 24 == 1;
    assert 3600000 / 86400000 == 0;
  }

  lemma OneHourRun()
    ensures Reverse(Decomposition(3600000, DefaultGrading, SortedCopy(DefaultGrading)))
      == [Part(0, 0), Part(1, 1), Part(2, 0), Part(3, 0)]
  {
    DefaultOrder();
    OneHourParts();
    assert Reverse([Part(3, 0), Part(2, 0), Part(1, 1), Part(0, 0)]) == [Part(0, 0), Part(1, 1), Part(2, 0), Part(3, 0)];
  }

  lemma OneHourWindows()
    ensures var rev := [Part(0, 0), Part(1, 1), Part(2, 0), Part(3, 0)];
      Window(rev, None) == [Part(1, 1), Part(2, 0), Part(3, 0)] &&
      Window(rev, Some(2)) == [Part(1, 1), Part(2, 0)] &&
      Window(rev, Some(1)) == [Part(1, 1)]
  {
    assert FirstNonZero([Part(0, 0), Part(1, 1), Part(2, 0), Part(3, 0)]) == 1;
  }

  lemma OneHourArranged()
    ensures Arrange([Part(1, 1), Part(2, 0), Part(3, 0)], 4) == [Part(1, 1), Part(2, 0), Part(3, 0)]
  {
    ArrangeInOrder([Part(1, 1), Part(2, 0), Part(3, 0)], 4);
  }

  lemma OneHourArrangedTwo()
    ensures Arrange([Part(1, 1), Part(2, 0)], 4) == [Part(1, 1), Part(2, 0)]
  {
    ArrangeInOrder([Part(1, 1), Part(2, 0)], 4);
  }

  lemma OneHourArrangedOne()
    ensures Arrange([Part(1, 1)], 4) == [Part(1, 1)]
  {
    ArrangeInOrder([Part(1, 1)], 4);
  }

  lemma OneHourShown()
    ensures Displayed(3600000, DefaultGrading, None) == [Part(1, 1), Part(2, 0), Part(3, 0)]
    ensures Displayed(3600000, DefaultGrading, Some(2)) == [Part(1, 1), Part(2, 0)]
    ensures Displayed(3600000, DefaultGrading, Some(1)) == [Part(1, 1)]
  {
    var rev := [Part(0, 0), Part(1, 1), Part(2, 0), Part(3, 0)];
    OneHourRun();
    OneHourWindows();
    OneHourArranged();
    OneHourArrangedTwo();
    OneHourArrangedOne();
    ShownFrom(3600000, DefaultGrading, None, rev, [Part(1, 1), Part(2, 0), Part(3, 0)], [Part(1, 1), Part(2, 0), Part(3, 0)]);
    ShownFrom(3600000, DefaultGrading, Some(2), rev, [Part(1, 1), Part(2, 0)], [Part(1, 1), Part(2, 0)]);
    ShownFrom(3600000, DefaultGrading, Some(1), rev, [Part(1, 1)], [Part(1, 1)]);
  }

  lemma OneHourTexts()
    ensures RenderAll(DefaultGrading, [Part(1, 1), Part(2, 0), Part(3, 0)]) == ["1h", "0m", "0s"]
    ensures RenderAll(DefaultGrading, [Part(1, 1), Part(2, 0)]) == ["1h", "0m"]
    ensures RenderAll(DefaultGrading, [Part(1, 1)]) == ["1h"]
  {
    SmallDecimals();
    HourText(1, "1h");
    MinuteText(0, "0m");
    SecondText(0, "0s");
  }

  /** Units below the coarsest non-zero one are shown even when their count is zero. */
  lemma OneHour()
    ensures Format(3600000, DefaultGrading, " ", None) == "1h 0m 0s"
  {
    OneHourShown();
    OneHourTexts();
    FormatFrom(3600000, DefaultGrading, " ", None, [Part(1, 1), Part(2, 0), Part(3, 0)], ["1h", "0m", "0s"]);
    OneHourJoin();
  }

  /** The separator is what goes between the segments. */
  lemma OneHourColon()
    ensures Format(3600000, DefaultGrading, ":", None) == "1h:0m:0s"
  {
    OneHourShown();
    OneHourTexts();
    FormatFrom(3600000, DefaultGrading, ":", None, [Part(1, 1), Part(2, 0), Part(3, 0)], ["1h", "0m", "0s"]);
    OneHourColonJoin();
  }

  /** The budget cuts the result short, coarsest unit first; a zero budget shows nothing. */
  lemma OneHourLimited()
    ensures Format(3600000, DefaultGrading, " ", Some(1)) == "1h"
    ensures Format(3600000, DefaultGrading, " ", Some(2)) == "1h 0m"
    ensures Format(3600000, DefaultGrading, " ", Some(0)) == ""
  {
    OneHourShown();
    OneHourTexts();
    FormatFrom(3600000, DefaultGrading, " ", Some(1), [Part(1, 1)], ["1h"]);
    FormatFrom(3600000, DefaultGrading, " ", Some(2), [Part(1, 1), Part(2, 0)], ["1h", "0m"]);
    OneHourLimitedJoin();
    SegmentLimit(3600000, DefaultGrading, " ", Some(0));
  }

  /** A zero duration formats as the empty string under the default units. */
  lemma ZeroDuration()
    ensures Format(0, DefaultGrading, " ", None) == ""
  {
    ShorterThanEveryUnit(0, DefaultGrading, " ", None);
  }

  // Ninety seconds: leading zero units are dropped.

  lemma NinetySecondsParts()
    ensures Decomposition(90000, DefaultGrading, [3, 2, 1, 0]) == [Part(3, 30), Part(2, 1), Part(1, 0), Part(0, 0)]
  {
    DefaultParts(90000);
    assert 90000 / 1000 == 90 && 90 % 60 == 30;
    assert 90000 / 60000 == 1 && 1 % 60 == 1;
    assert 90000 / 3600000 == 0 && 0 % 24 == 0;
    assert 90000 / 86400000 == 0;
  }

  lemma NinetySecondsRun()
    ensures Reverse(Decomposition(90000, DefaultGrading, SortedCopy(DefaultGrading)))
      == [Part(0, 0), Part(1, 0), Part(2, 1), Part(3, 30)]
  {
    DefaultOrder();
    NinetySecondsParts();
    assert Reverse([Part(3, 30), Part(2, 1), Part(1, 0), Part(0, 0)]) == [Part(0, 0), Part(1, 0), Part(2, 1), Part(3, 30)];
  }

  lemma NinetySecondsWindow()
    ensures Window([Part(0, 0), Part(1, 0), Part(2, 1), Part(3, 30)], None) == [Part(2, 1), Part(3, 30)]
  {
    assert FirstNonZero([Part(0, 0), Part(1, 0), Part(2, 1), Part(3, 30)]) == 2;
  }

  lemma NinetySecondsArranged()
    ensures Arrange([Part(2, 1), Part(3, 30)], 4) == [Part(2, 1), Part(3, 30)]
  {
    ArrangeInOrder([Part(2, 1), Part(3, 30)], 4);
  }

  lemma NinetySecondsTexts()
    ensures RenderAll(DefaultGrading, [Part(2, 1), Part(3, 30)]) == ["1m", "30s"]
  {
    SmallDecimals();
    MinuteText(1, "1m");
    SecondText(30, "30s");
  }

  /** Leading units with a zero count are not shown. */
  lemma NinetySeconds()
    ensures Format(90000, DefaultGrading, " ", None) == "1m 30s"
  {
    var shown := [Part(2, 1), Part(3, 30)];
    NinetySecondsRun();
    NinetySecondsWindow();
    NinetySecondsArranged();
    ShownFrom(90000, DefaultGrading, None, [Part(0, 0), Part(1, 0), Part(2, 1), Part(3, 30)], shown, shown);
    NinetySecondsTexts();
    FormatFrom(90000, DefaultGrading, " ", None, shown, ["1m", "30s"]);
    NinetySecondsJoin();
  }

  // One point two seconds: the remainder below the finest unit is dropped.

  lemma OneSecondParts()
    ensures Decomposition(1200, DefaultGrading, [3, 2, 1, 0]) == [Part(3, 1), Part(2, 0), Part(1, 0), Part(0, 0)]
  {
    DefaultParts(1200);
    assert 1200 / 1000 == 1 && 1 % 60 == 1;
    assert 1200 / 60000 == 0 && 0 % 60 == 0;
    assert 1200 / 3600000 == 0 && 0 % 24 == 0;
    assert 1200 / 86400000 == 0;
  }

  lemma OneSecondRun()
    ensures Reverse(Decomposition(1200, DefaultGrading, SortedCopy(DefaultGrading)))
      == [Part(0, 0), Part(1, 0), Part(2, 0), Part(3, 1)]
  {
    DefaultOrder();
    OneSecondParts();
    assert Reverse([Part(3, 1), Part(2, 0), Part(1, 0), Part(0, 0)]) == [Part(0, 0), Part(1, 0), Part(2, 0), Part(3, 1)];
  }

  lemma OneSecondWindow()
    ensures Window([Part(0, 0), Part(1, 0), Part(2, 0), Part(3, 1)], None) == [Part(3, 1)]
  {
    assert FirstNonZero([Part(0, 0), Part(1, 0), Part(2, 0), Part(3, 1)]) == 3;
  }

  lemma OneSecondArranged()
    ensures Arrange([Part(3, 1)], 4) == [Part(3, 1)]
  {
    ArrangeInOrder([Part(3, 1)], 4);
  }

  lemma OneSecondShown()
    ensures Displayed(1200, DefaultGrading, None) == [Part(3, 1)]
  {
    OneSecondRun();
    OneSecondWindow();
    OneSecondArranged();
    ShownFrom(1200, DefaultGrading, None, [Part(0, 0), Part(1, 0), Part(2, 0), Part(3, 1)], [Part(3, 1)], [Part(3, 1)]);
  }

  lemma OneSecondTexts()
    ensures RenderAll(DefaultGrading, [Part(3, 1)]) == ["1s"]
  {
    SmallDecimals();
    SecondText(1, "1s");
  }

  /** Milliseconds below the finest unit do not show. */
  lemma OneSecond()
    ensures Format(1200, DefaultGrading, " ", None) == "1s"
  {
    OneSecondShown();
    OneSecondTexts();
    FormatFrom(1200, DefaultGrading, " ", None, [Part(3, 1)], ["1s"]);
  }

  // Seventy minutes and thirteen seconds: minutes carry into an hour.

  lemma SeventyMinutesParts()
    ensures Decomposition(4213000, DefaultGrading, [3, 2, 1, 0]) == [Part(3, 13), Part(2, 10), Part(1, 1), Part(0, 0)]
  {
    DefaultParts(4213000);
    assert 4213000 / 1000 == 4213 && 4213 % 60 == 13;
    assert 4213000 / 60000 == 70 && 70 % 60 == 10;
    assert 4213000 / 3600000 == 1 && 1 % 24 == 1;
    assert 4213000 / 86400000 == 0;
  }

  lemma SeventyMinutesRun()
    ensures Reverse(Decomposition(4213000, DefaultGrading, SortedCopy(DefaultGrading)))
      == [Part(0, 0), Part(1, 1), Part(2, 10), Part(3, 13)]
  {
    DefaultOrder();
    SeventyMinutesParts();
    assert Reverse([Part(3, 13), Part(2, 10), Part(1, 1), Part(0, 0)]) == [Part(0, 0), Part(1, 1), Part(2, 10), Part(3, 13)];
  }

  lemma SeventyMinutesWindow()
    ensures Window([Part(0, 0), Part(1, 1), Part(2, 10), Part(3, 13)], None) == [Part(1, 1), Part(2, 10), Part(3, 13)]
  {
    assert FirstNonZero([Part(0, 0), Part(1, 1), Part(2, 10), Part(3, 13)]) == 1;
  }

  lemma SeventyMinutesTexts()
    ensures RenderAll(DefaultGrading, [Part(1, 1), Part(2, 10), Part(3, 13)]) == ["1h", "10m", "13s"]
  {
    SmallDecimals();
    HourText(1, "1h");
    MinuteText(10, "10m");
    SecondText(13, "13s");
  }

  lemma SeventyMinutesJoin()
    ensures Join(["1h", "10m", "13s"], " ") == "1h 10m 13s"
  {
    JoinThree("1h", "10m", "13s", " ");
  }

  lemma SeventyMinutesArranged()
    ensures Arrange([Part(1, 1), Part(2, 10), Part(3, 13)], 4) == [Part(1, 1), Part(2, 10), Part(3, 13)]
  {
    ArrangeInOrder([Part(1, 1), Part(2, 10), Part(3, 13)], 4);
  }

  lemma SeventyMinutesShown()
    ensures Displayed(4213000, DefaultGrading, None) == [Part(1, 1), Part(2, 10), Part(3, 13)]
  {
    var shown := [Part(1, 1), Part(2, 10), Part(3, 13)];
    SeventyMinutesRun();
    SeventyMinutesWindow();
    SeventyMinutesArranged();
    ShownFrom(4213000, DefaultGrading, None, [Part(0, 0), Part(1, 1), Part(2, 10), Part(3, 13)], shown, shown);
  }

  /** Seventy minutes carry into an hour and ten minutes. */
  lemma SeventyMinutes()
    ensures Format(4213000, DefaultGrading, " ", None) == "1h 10m 13s"
  {
    var shown := [Part(1, 1), Part(2, 10), Part(3, 13)];
    SeventyMinutesShown();
    SeventyMinutesTexts();
    FormatFrom(4213000, DefaultGrading, " ", None, shown, ["1h", "10m", "13s"]);
    SeventyMinutesJoin();
  }

  // Thirty hours, seventy minutes and thirteen seconds: every unit carries.

  lemma AllUnitsParts()
    ensures Decomposition(112213000, DefaultGrading, [3, 2, 1, 0]) == [Part(3, 13), Part(2, 10), Part(1, 7), Part(0, 1)]
  {
    DefaultParts(112213000);
    assert 112213000 / 1000 == 112213 && 112213 % 60 == 13;
    assert 112213000 / 60000 == 1870 && 1870 % 60 == 10;
    assert 112213000 / 3600000 == 31 && 31 % 24 == 7;
    assert 112213000 / 86400000 == 1;
  }

  lemma AllUnitsRun()
    ensures Reverse(Decomposition(112213000, DefaultGrading, SortedCopy(DefaultGrading)))
      == [Part(0, 1), Part(1, 7), Part(2, 10), Part(3, 13)]
  {
    DefaultOrder();
    AllUnitsParts();
    assert Reverse([Part(3, 13), Part(2, 10), Part(1, 7), Part(0, 1)]) == [Part(0, 1), Part(1, 7), Part(2, 10), Part(3, 13)];
  }

  lemma AllUnitsArranged()
    ensures Arrange([Part(0, 1), Part(1, 7), Part(2, 10), Part(3, 13)], 4) == [Part(0, 1), Part(1, 7), Part(2, 10), Part(3, 13)]
  {
    ArrangeInOrder([Part(0, 1), Part(1, 7), Part(2, 10), Part(3, 13)], 4);
  }

  lemma AllUnitsTexts()
    ensures RenderAll(DefaultGrading, [Part(0, 1), Part(1, 7), Part(2, 10), Part(3, 13)]) == ["1d", "7h", "10m", "13s"]
  {
    SmallDecimals();
    DayText(1, "1d");
    HourText(7, "7h");
    MinuteText(10, "10m");
    SecondText(13, "13s");
  }

  /** Seconds, minutes and hours carry over into the next unit. */
  lemma AllUnits()
    ensures Format(112213000, DefaultGrading, " ", None) == "1d 7h 10m 13s"
  {
    var parts := [Part(0, 1), Part(1, 7), Part(2, 10), Part(3, 13)];
    AllUnitsRun();
    assert Window(parts, None) == parts;
    AllUnitsArranged();
    ShownFrom(112213000, DefaultGrading, None, parts, parts, parts);
    AllUnitsTexts();
    FormatFrom(112213000, DefaultGrading, " ", None, parts, ["1d", "7h", "10m", "13s"]);
    AllUnitsJoin();
  }

  // A caller's list with the finer unit first.

  lemma MillisecondHourOrder()
    ensures SortedCopy([Millisecond, Hour]) == [0, 1]
  {
    var g := [Millisecond, Hour];
    assert SortedPrefix(g, 1) == [0];
    assert SortedPrefix(g, 2) == Insert(g, [0], 1) == [0, 1];
  }

  lemma MillisecondHourParts()
    ensures Decomposition(3601200, [Millisecond, Hour], [0, 1]) == [Part(0, 1200), Part(1, 1)]
  {
    var g := [Millisecond, Hour];
    assert Factors(g, [0, 1]) == [1, 3600000];
    DecompositionAt(3601200, g, [0, 1], 0);
    DecompositionAt(3601200, g, [0, 1], 1);
  }

  lemma MillisecondHourRun()
    ensures Reverse(Decomposition(3601200, [Millisecond, Hour], SortedCopy([Millisecond, Hour])))
      == [Part(1, 1), Part(0, 1200)]
  {
    MillisecondHourOrder();
    MillisecondHourParts();
    assert Reverse([Part(0, 1200), Part(1, 1)]) == [Part(1, 1), Part(0, 1200)];
  }

  lemma MillisecondHourArranged()
    ensures Arrange([Part(1, 1), Part(0, 1200)], 2) == [Part(0, 1200), Part(1, 1)]
  {
    assert Arrange([Part(1, 1), Part(0, 1200)], 1) == [Part(0, 1200)];
  }

  lemma MillisecondHourTexts()
    ensures RenderAll([Millisecond, Hour], [Part(0, 1200), Part(1, 1)]) == ["1200ms", "1h"]
  {
    SmallDecimals();
    MillisecondText(1200, "1200ms");
    HourText(1, "1h");
  }

  /**
   * The finer unit listed first is shown first, even though the filter
   * walks the units coarsest first.
   */
  lemma MillisecondHour()
    ensures Format(3601200, [Millisecond, Hour], " ", None) == "1200ms 1h"
  {
    var rev, shown := [Part(1, 1), Part(0, 1200)], [Part(0, 1200), Part(1, 1)];
    MillisecondHourRun();
    assert Window(rev, None) == rev;
    MillisecondHourArranged();
    ShownFrom(3601200, [Millisecond, Hour], None, rev, rev, shown);
    MillisecondHourTexts();
    FormatFrom(3601200, [Millisecond, Hour], " ", None, shown, ["1200ms", "1h"]);
    MillisecondHourJoin();
  }

  // A unit rendered by a function of the count.

  /** Five milliseconds, named by a function of the count. */
  function JiffyText(x: nat): string
  {
    if x == 1 then "a jiffy" else Decimal(x) + " jiffies"
  }

  const Jiffy := Grading(Callback(JiffyText), 5)

  lemma JiffyRun(d: nat)
    ensures Reverse(Decomposition(d, [Jiffy], SortedCopy([Jiffy]))) == [Part(0, d / 5)]
  {
    var g := [Jiffy];
    assert SortedCopy(g) == [0] by {
      assert SortedPrefix(g, 1) == Insert(g, [], 0) == [0];
    }
    DecompositionAt(d, g, [0], 0);
  }

  lemma JiffyShown(d: nat)
    requires d >= 5
    ensures Displayed(d, [Jiffy], None) == [Part(0, d / 5)]
  {
    var kept := [Part(0, d / 5)];
    JiffyRun(d);
    assert Window(kept, None) == kept;
    ArrangeInOrder(kept, 1);
    ShownFrom(d, [Jiffy], None, kept, kept, kept);
  }

  lemma JiffyTexts()
    ensures RenderAll([Jiffy], [Part(0, 1)]) == ["a jiffy"]
    ensures RenderAll([Jiffy], [Part(0, 8)]) == ["8 jiffies"]
  {
    SmallDecimals();
    assert RenderAll([Jiffy], [Part(0, 8)])[0] == "8" + " jiffies" == "8 jiffies";
  }

  /** A callback unit is called with the count: one jiffy, then eight. */
  lemma Jiffies()
    ensures Format(5, [Jiffy], " ", None) == "a jiffy"
    ensures Format(40, [Jiffy], " ", None) == "8 jiffies"
  {
    JiffyShown(5);
    JiffyShown(40);
    JiffyTexts();
    FormatFrom(5, [Jiffy], " ", None, [Part(0, 1)], ["a jiffy"]);
    FormatFrom(40, [Jiffy], " ", None, [Part(0, 8)], ["8 jiffies"]);
  }
}
