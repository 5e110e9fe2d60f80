/** Sequences of lines as the picker exchanges them with the selector:
    deduplication in first-occurrence order, newline termination, and
    splitting text back into its lines. */
module Lines {

  /** No value occurs at two positions of `xs`. */
  ghost predicate Distinct<X>(xs: seq<X>) {
    forall i, j :: 0 <= i < j < |xs| ==> xs[i] != xs[j]
  }

  /** The set of values occurring in `xs`. */
  ghost function Elements<X>(xs: seq<X>): set<X> {
    set x | x in xs
  }

  /** Position of the first occurrence of `x` in `xs`. */
  function FirstIndex<X(==)>(xs: seq<X>, x: X): (i: nat)
    requires x in xs
    ensures i < |xs| && xs[i] == x
    ensures x !in xs[..i]
  {
    if xs[0] == x then 0
    else
      var k := FirstIndex(xs[1..], x);
      assert xs[..k + 1] == [xs[0]] + xs[1..][..k];
      1 + k
  }

  /** The value-level behaviour of an iterator's `unique` adaptor started with
      the values in `seen` already reported: each value of `xs` is emitted the
      first time it is met, in the order met. */
  function UniqueFrom<X(==,!new)>(xs: seq<X>, seen: set<X>): (r: seq<X>)
    ensures Distinct(r)
    ensures forall x :: x in r <==> x in xs && x !in seen
  {
    if xs == [] then []
    else if xs[0] in seen then UniqueFrom(xs[1..], seen)
    else [xs[0]] + UniqueFrom(xs[1..], seen + {xs[0]})
  }

  /** Deduplication keeping the first occurrence of each value. */
  function Unique<X(==,!new)>(xs: seq<X>): (r: seq<X>)
    ensures Distinct(r)
    ensures forall x :: x in r <==> x in xs
  {
    UniqueFrom(xs, {})
  }

  /** Orders values by where they first occur in `xs`. */
  ghost predicate InFirstOccurrenceOrder<X>(xs: seq<X>, r: seq<X>) {
    forall i, j :: 0 <= i < j < |r| && r[i] in xs && r[j] in xs ==> FirstIndex(xs, r[i]) < FirstIndex(xs, r[j])
  }

  /** Past a head that differs from `y`, the first index of `y` is one more
      than in the tail. */
  lemma FirstIndexPastHead<X>(xs: seq<X>, y: X)
    requires xs != [] && y in xs[1..] && y != xs[0]
    ensures FirstIndex(xs, y) == 1 + FirstIndex(xs[1..], y)
  {
  }

  /** The output of `UniqueFrom` lists its values in the order of their first
      occurrence in the input. */
  lemma {:induction false} UniqueFromOrdered<X(!new)>(xs: seq<X>, seen: set<X>)
    ensures InFirstOccurrenceOrder(xs, UniqueFrom(xs, seen))
  {
    if xs != [] {
      var seen' := if xs[0] in seen then seen else seen + {xs[0]};
      var tail := UniqueFrom(xs[1..], seen');
      UniqueFromOrdered(xs[1..], seen');
      // values of the tail differ from xs[0], so their first index shifts by one
      forall y | y in tail
        ensures y in xs[1..] && y in xs && FirstIndex(xs, y) == 1 + FirstIndex(xs[1..], y)
      {
        FirstIndexPastHead(xs, y);
      }
      if xs[0] !in seen {
        var r := [xs[0]] + tail;
        forall j | 0 < j < |r| && r[j] in xs
          ensures FirstIndex(xs, r[0]) < FirstIndex(xs, r[j])
        {
          assert r[j] in tail;
        }
        forall i, j | 0 < i < j < |r| && r[i] in xs && r[j] in xs
          ensures FirstIndex(xs, r[i]) < FirstIndex(xs, r[j])
        {
          assert r[i] == tail[i - 1] && r[j] == tail[j - 1];
        }
      }
    }
  }

  /** `Unique` keeps first-occurrence order. */
  lemma UniqueOrdered<X(!new)>(xs: seq<X>)
    ensures InFirstOccurrenceOrder(xs, Unique(xs))
  {
    assert Unique(xs) == UniqueFrom(xs, {});
    UniqueFromOrdered(xs, {});
  }

  /** A sequence without repetitions has as many positions as values. */
  lemma {:induction false} DistinctCardinality<X>(xs: seq<X>)
    requires Distinct(xs)
    ensures |Elements(xs)| == |xs|
  {
    if xs != [] {
      DistinctCardinality(xs[1..]);
      assert Elements(xs) == {xs[0]} + Elements(xs[1..]);
      assert xs[0] !in Elements(xs[1..]);
    }
  }

  /** `Unique` yields exactly one entry per distinct value of its input. */
  lemma UniqueCount<X(!new)>(xs: seq<X>)
    ensures |Unique(xs)| == |Elements(xs)|
  {
    var r := Unique(xs);
    DistinctCardinality(r);
    assert Elements(r) == Elements(xs);
  }

  /** Left fold appending each line followed by a newline, starting from the
      empty string. */
  function Terminated(lines: seq<string>): (text: string)
    ensures text == [] <==> lines == []
    ensures text != [] ==> text[|text| - 1] == '\n'
  {
    if lines == [] then ""
    else Terminated(lines[..|lines| - 1]) + lines[|lines| - 1] + "\n"
  }

  /** The fold of `[line] + rest` is `line`, a newline, then the fold of
      `rest`. */
  lemma {:induction false} TerminatedCons(line: string, rest: seq<string>)
    ensures Terminated([line] + rest) == line + "\n" + Terminated(rest)
    decreases |rest|
  {
    if rest != [] {
      var all := [line] + rest;
      var front := rest[..|rest| - 1];
      assert all[..|all| - 1] == [line] + front;
      TerminatedCons(line, front);
    }
  }

  /** No line contains a newline. */
  ghost predicate SingleLines(lines: seq<string>) {
    forall k :: 0 <= k < |lines| ==> '\n' !in lines[k]
  }

  /** Reads text as a sequence of lines, each ended by a newline; a last
      fragment without a newline is still a line. */
  function SplitLines(text: string): (lines: seq<string>)
    ensures SingleLines(lines)
    decreases |text|
  {
    if text == [] then []
    else if '\n' in text then
      var i := FirstIndex(text, '\n');
      [text[..i]] + SplitLines(text[i + 1..])
    else [text]
  }

  /** Round trip: terminating each line and reading the text back gives the
      original lines, provided none of them contains a newline. */
  lemma {:induction false} SplitTerminated(lines: seq<string>)
    requires SingleLines(lines)
    ensures SplitLines(Terminated(lines)) == lines
    decreases |lines|
  {
    if lines != [] {
      var line, rest := lines[0], lines[1..];
      assert lines == [line] + rest;
      TerminatedCons(line, rest);
      var text := Terminated(lines);
      assert text == line + "\n" + Terminated(rest);
      assert text[|line|] == '\n';
      var i := FirstIndex(text, '\n');
      assert text[..|line|] == line;
      assert i == |line|;
      assert text[i + 1..] == Terminated(rest);
      SplitTerminated(rest);
    }
  }
}
