/**
 * Time units ("gradings"): how many milliseconds one unit holds and how a
 * count of it is written, plus the five standard units.
 */
module Gradings {
  import opened Text

  /** Milliseconds in one unit; always positive. */
  type Factor = n: nat | n > 0 witness 1

  /**
   * How a count is displayed: a template whose every `%` becomes the
   * count's digits, or a caller-supplied function given the count.
   */
  datatype Unit = Template(pattern: string) | Callback(render: nat -> string)

  datatype Grading = Grading(unit: Unit, milliseconds: Factor)

  const Millisecond := Grading(Template("%ms"), 1)
  const Second := Grading(Template("%s"), 1000)
  const Minute := Grading(Template("%m"), 60 * 1000)
  const Hour := Grading(Template("%h"), 60 * 60 * 1000)
  const Day := Grading(Template("%d"), 24 * 60 * 60 * 1000)

  /** The grading a new duration starts with, in display order. */
  const DefaultGrading := [Day, Hour, Minute, Second]

  /**
   * Of any two units in the list, the smaller factor divides the larger
   * one, so every unit is a whole number of the next finer unit.
   */
  predicate Commensurable(g: seq<Grading>)
  {
    forall i, j :: 0 <= i < |g| && 0 <= j < |g| && g[i].milliseconds <= g[j].milliseconds ==>
      g[j].milliseconds % g[i].milliseconds == 0
  }

  /** The display text of `count` units of `grade`. */
  function Render(grade: Grading, count: nat): (text: string)
    ensures grade.unit.Template? ==> '%' !in text
    ensures grade.unit.Template? && '%' !in grade.unit.pattern ==> text == grade.unit.pattern
  {
    match grade.unit
    case Template(pattern) => ReplaceAll(pattern, '%', Decimal(count))
    case Callback(render) => render(count)
  }

  /**
   * A template segment is the template's `%`-free pieces with the count's
   * digits between them; it keeps no `%`, and those digits read back as
   * the count.
   */
  lemma RenderTemplate(grade: Grading, count: nat)
    requires grade.unit.Template?
    ensures Render(grade, count) == Join(SplitOn(grade.unit.pattern, '%'), Decimal(count))
    ensures '%' !in Render(grade, count)
    ensures ParseDecimal(Decimal(count)) == count
  {
    ReplaceAllIsSplitJoin(grade.unit.pattern, '%', Decimal(count));
    DecimalRoundTrip(count);
  }

  /** The standard units all fit into one another. */
  lemma StandardCommensurable()
    ensures Commensurable([Millisecond, Second, Minute, Hour, Day])
    ensures Commensurable(DefaultGrading)
  {
    var all := [Millisecond, Second, Minute, Hour, Day];
    forall i, j | 0 <= i < 5 && 0 <= j < 5 && all[i].milliseconds <= all[j].milliseconds
      ensures all[j].milliseconds % all[i].milliseconds == 0
    {
    }
    forall i, j | 0 <= i < 4 && 0 <= j < 4 && DefaultGrading[i].milliseconds <= DefaultGrading[j].milliseconds
      ensures DefaultGrading[j].milliseconds % DefaultGrading[i].milliseconds == 0
    {
      assert DefaultGrading[i] == all[4 - i] && DefaultGrading[j] == all[4 - j];
    }
  }
}
