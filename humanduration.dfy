/**
 * The `Duration` object: a fixed number of milliseconds, a grading list and
 * a separator that chainable setters replace, and `segments`, which formats
 * the duration with them.
 */
module HumanDuration {
  import opened Wrappers
  import opened Text
  import opened Gradings
  import opened Sorting
  import opened Decompose
  import opened Filter
  import opened Segmenter

  class Duration {
    const duration: nat
    var grading: seq<Grading>
    var separator: string

    /** A new duration uses days, hours, minutes and seconds, separated by a space. */
    constructor (duration: nat)
      ensures this.duration == duration
      ensures grading == DefaultGrading && separator == " "
    {
      this.duration := duration;
      grading := DefaultGrading;
      separator := " ";
    }

    /** Replaces the grading list and returns the same object, for chaining. */
    method SetGrading(g: seq<Grading>) returns (self: Duration)
      modifies this
      ensures self == this
      ensures grading == g && separator == old(separator)
    {
      grading := g;
      self := this;
    }

    /** Replaces the separator and returns the same object, for chaining. */
    method SetSeparator(sep: string) returns (self: Duration)
      modifies this
      ensures self == this
      ensures separator == sep && grading == old(grading)
    {
      separator := sep;
      self := this;
    }

    /**
     * Formats the duration in at most `max` segments (`None` is the default,
     * an infinite budget): split it over the sorted units, keep the window
     * coarsest first, then render the kept parts in the grading list's order
     * and join them with the separator.
     */
    method Segments(max: Option<int>) returns (s: string)
      requires Commensurable(grading)
      ensures s == Format(duration, grading, separator, max)
    {
      var order := SortedCopy(grading);
      if |order| == 0 {
        return "";
      }
      var parts := Split(duration, grading, order);
      var kept := KeepWindow(Reverse(parts), max);
      var shown := Arrange(kept, |grading|);
      s := Join(RenderAll(grading, shown), separator);
    }

    /** The string form is the segments with the given budget. */
    method ToString(max: Option<int>) returns (s: string)
      requires Commensurable(grading)
      ensures s == Format(duration, grading, separator, max)
    {
      s := Segments(max);
    }
  }

  /** A new duration of `d` milliseconds with the default grading and separator. */
  method Fmt(d: nat) returns (r: Duration)
    ensures fresh(r)
    ensures r.duration == d && r.grading == DefaultGrading && r.separator == " "
  {
    r := new Duration(d);
  }
}
