/**
 * The string operations a segment is rendered with: the decimal digits of a
 * count (`String(count)` on an integer), replacing every occurrence of one
 * character (`replace(/%/g, ...)`), and joining a list with a separator
 * (`Array.prototype.join`).
 */
module Text {

  predicate IsDigit(c: char) {
    '0' <= c <= '9'
  }

  function DigitChar(d: nat): (c: char)
    requires d < 10
    ensures IsDigit(c)
  {
    ('0' as int + d) as char
  }

  function DigitValue(c: char): nat
    requires IsDigit(c)
  {
    c as int - '0' as int
  }

  /** The decimal representation of `n`, most significant digit first. */
  function Decimal(n: nat): (s: string)
    ensures |s| >= 1
    ensures forall k :: 0 <= k < |s| ==> IsDigit(s[k])
    ensures s[0] == '0' ==> n == 0 && s == "0"
  {
    if n < 10 then [DigitChar(n)] else Decimal(n / 10) + [DigitChar(n % 10)]
  }

  /** Reads a string of digits as a number; the partner of `Decimal`. */
  function ParseDecimal(s: string): nat
    requires forall k :: 0 <= k < |s| ==> IsDigit(s[k])
  {
    if s == [] then 0 else ParseDecimal(s[..|s| - 1]) * 10 + DigitValue(s[|s| - 1])
  }

  /** Reading back the digits of `n` gives `n`. */
  lemma {:induction false} DecimalRoundTrip(n: nat)
    ensures ParseDecimal(Decimal(n)) == n
  {
    var s := Decimal(n);
    if n >= 10 {
      assert s[..|s| - 1] == Decimal(n / 10);
      DecimalRoundTrip(n / 10);
    }
  }

  /** Number of occurrences of `c` in `t`. */
  function Occurrences(t: string, c: char): nat
  {
    if t == [] then 0 else (if t[0] == c then 1 else 0) + Occurrences(t[1..], c)
  }

  /** `t` with every occurrence of `c` replaced by `rep`. */
  function ReplaceAll(t: string, c: char, rep: string): (r: string)
    ensures c !in rep ==> c !in r
    ensures c !in t ==> r == t
  {
    if t == [] then []
    else (if t[0] == c then rep else [t[0]]) + ReplaceAll(t[1..], c, rep)
  }

  /** The pieces of `t` between occurrences of `c`. */
  function SplitOn(t: string, c: char): (pieces: seq<string>)
    ensures |pieces| == Occurrences(t, c) + 1
    ensures forall k :: 0 <= k < |pieces| ==> c !in pieces[k]
  {
    if t == [] then [[]]
    else
      var rest := SplitOn(t[1..], c);
      if t[0] == c then [[]] + rest else [[t[0]] + rest[0]] + rest[1..]
  }

  /** The parts with `sep` between consecutive ones. */
  function Join(parts: seq<string>, sep: string): (text: string)
    ensures |parts| > 0 ==> parts[0] <= text
    ensures |text| >= SumLengths(parts)
  {
    if |parts| == 0 then ""
    else if |parts| == 1 then parts[0]
    else parts[0] + sep + Join(parts[1..], sep)
  }

  function SumLengths(parts: seq<string>): nat
  {
    if parts == [] then 0 else |parts[0]| + SumLengths(parts[1..])
  }

  /** Joining two non-empty lists puts exactly one separator between them. */
  lemma {:induction false} JoinAppend(a: seq<string>, b: seq<string>, sep: string)
    requires a != [] && b != []
    ensures Join(a + b, sep) == Join(a, sep) + sep + Join(b, sep)
  {
    if |a| == 1 {
      assert a + b == [a[0]] + b;
    } else {
      assert (a + b)[1..] == a[1..] + b;
      JoinAppend(a[1..], b, sep);
    }
  }

  /**
   * A joined string starts with the first part and ends with the last, so
   * no separator leads or trails, and it holds one separator per gap.
   */
  lemma {:induction false} JoinShape(parts: seq<string>, sep: string)
    ensures |Join(parts, sep)| == SumLengths(parts) + (if parts == [] then 0 else (|parts| - 1) * |sep|)
    ensures parts != [] ==> |parts[0]| <= |Join(parts, sep)| && Join(parts, sep)[..|parts[0]|] == parts[0]
    ensures parts != [] ==>
      var r, last := Join(parts, sep), parts[|parts| - 1];
      |last| <= |r| && r[|r| - |last|..] == last
  {
    if |parts| > 1 {
      JoinShape(parts[1..], sep);
      var r, last := Join(parts, sep), parts[|parts| - 1];
      var tail := Join(parts[1..], sep);
      assert r == parts[0] + sep + tail;
      assert parts[1..][|parts[1..]| - 1] == last;
      assert r[|r| - |last|..] == tail[|tail| - |last|..];
    }
  }

  lemma {:induction false} JoinConsHead(x: string, y: string, ys: seq<string>, sep: string)
    ensures Join([x + y] + ys, sep) == x + Join([y] + ys, sep)
  {
    if ys != [] {
      assert ([x + y] + ys)[1..] == ys;
      assert ([y] + ys)[1..] == ys;
    }
  }

  /** Splitting on `c` and joining with `c` gives back the original string. */
  lemma {:induction false} SplitJoinRoundTrip(t: string, c: char)
    ensures Join(SplitOn(t, c), [c]) == t
  {
    ReplaceAllIsSplitJoin(t, c, [c]);
    ReplaceWithSelf(t, c);
  }

  lemma {:induction false} ReplaceWithSelf(t: string, c: char)
    ensures ReplaceAll(t, c, [c]) == t
  {
    if t != [] {
      ReplaceWithSelf(t[1..], c);
      assert t == [t[0]] + t[1..];
    }
  }

  /**
   * Replacing every `c` by `rep` interleaves the `c`-free pieces of `t`
   * with `rep`.
   */
  lemma {:induction false} ReplaceAllIsSplitJoin(t: string, c: char, rep: string)
    ensures ReplaceAll(t, c, rep) == Join(SplitOn(t, c), rep)
  {
    if t != [] {
      var rest := SplitOn(t[1..], c);
      ReplaceAllIsSplitJoin(t[1..], c, rep);
      if t[0] == c {
        assert ([[]] + rest)[1..] == rest;
      } else {
        assert rest == [rest[0]] + rest[1..];
        JoinConsHead([t[0]], rest[0], rest[1..], rep);
      }
    }
  }
}
