/** The fuzzy-finder picker of src/picker/fzf.rs: the text handed to the
    selector program, the reverse lookup from a selected line to its item,
    and the reading of the selector's exit status and output.

    An item's `formatted()` representation is the parameter `fmt`; cloning is
    the identity. The subprocess is not run: what happened when it was
    spawned, fed and waited on is the input `ChildRun`. */
module FzfPicker {
  import opened Wrappers
  import Lines

  /** The width of the exit code Rust's `ExitStatus::code` reports. */
  newtype i32 = x: int | -0x8000_0000 <= x < 0x8000_0000

  /** The failures `pick` reports as a `PickerError`. */
  datatype PickerError = Cancelled | FzfNotInstalled | Generic

  /** The failures that leave `pick` through `?` instead: writing the input to
      the selector's stdin, and decoding its stdout as UTF-8. */
  datatype PropagatedError = StdinWriteError | Utf8Error

  /** The kind of I/O error a failed spawn carries; only `NotFound` is told apart. */
  datatype IoErrorKind = NotFound | OtherKind

  /** What running the selector produced. `stdout` is `None` when the bytes
      it wrote are not valid UTF-8. */
  datatype ChildRun =
    | SpawnFailed(kind: IoErrorKind)
    | StdinWriteFailed
    | WaitFailed
    | Exited(code: Option<i32>, stdout: Option<string>)

  /** The outcome of `pick`. `Panicked` is the `unwrap` of a failed lookup. */
  datatype PickResult<T> =
    | Picked(item: T)
    | Failed(error: PickerError)
    | Propagated(cause: PropagatedError)
    | Panicked

  /** How the exit status of a selector that ran to completion is read. */
  datatype ExitClass = Selection | Cancellation | Failure

  // ---------------------------------------------------------------------------
  // remove_trailing_newline

  /** Drops the last character of the selector's output, whatever it is; the
      empty string stays empty. */
  function RemoveTrailingNewline(value: string): (r: string)
    ensures value == [] ==> r == []
    ensures value != [] ==> r + [value[|value| - 1]] == value
  {
    if value == [] then value else value[..|value| - 1]
  }

  /** A line terminated by a newline is recovered by `RemoveTrailingNewline`. */
  lemma RemoveTrailingNewlineRoundTrip(line: string)
    ensures RemoveTrailingNewline(line + "\n") == line
  {
  }

  // ---------------------------------------------------------------------------
  // format_as_fzf_input

  /** The formatted representation of each item, in order. */
  function Formatted<T>(items: seq<T>, fmt: T -> string): (r: seq<string>)
    ensures |r| == |items|
    ensures forall i :: 0 <= i < |items| ==> r[i] == fmt(items[i])
  {
    seq(|items|, i requires 0 <= i < |items| => fmt(items[i]))
  }

  /** The set of formatted representations of the items. */
  ghost function FormattedSet<T>(items: seq<T>, fmt: T -> string): set<string> {
    Lines.Elements(Formatted(items, fmt))
  }

  /** No item's formatted representation contains a newline: the condition
      under which each item occupies exactly one line of `FormatAsFzfInput`. */
  ghost predicate NoNewlines<T>(items: seq<T>, fmt: T -> string) {
    Lines.SingleLines(Formatted(items, fmt))
  }

  /** The text `format_as_fzf_input` returns: each distinct formatted
      representation, in first-occurrence order, followed by a newline. The
      selector receives this text and one more newline (`writeln!`). */
  function FormatAsFzfInput<T>(items: seq<T>, fmt: T -> string): (input: string)
    ensures input == [] <==> items == []
    ensures input != [] ==> input[|input| - 1] == '\n'
  {
    var lines := Lines.Unique(Formatted(items, fmt));
    assert items != [] ==> Formatted(items, fmt)[0] in lines;
    Lines.Terminated(lines)
  }

  /** The lines of `FormatAsFzfInput` are the distinct formatted
      representations, each once, in first-occurrence order, and one line per
      distinct representation. */
  lemma FormatAsFzfInputLines<T>(items: seq<T>, fmt: T -> string)
    requires NoNewlines(items, fmt)
    ensures var lines := Lines.SplitLines(FormatAsFzfInput(items, fmt));
            && lines == Lines.Unique(Formatted(items, fmt))
            && Lines.Distinct(lines)
            && (forall line :: line in lines <==> line in FormattedSet(items, fmt))
            && |lines| == |FormattedSet(items, fmt)|
            && Lines.InFirstOccurrenceOrder(Formatted(items, fmt), lines)
  {
    var all := Formatted(items, fmt);
    var lines := Lines.Unique(all);
    assert Lines.SingleLines(lines) by {
      forall k | 0 <= k < |lines|
        ensures '\n' !in lines[k]
      {
        assert lines[k] in all;
      }
    }
    Lines.SplitTerminated(lines);
    Lines.UniqueCount(all);
    Lines.UniqueOrdered(all);
  }

  // ---------------------------------------------------------------------------
  // create_element_hash_map

  /** The reverse lookup from formatted representation to item, built by
      inserting the items in order so that a later item overwrites an earlier
      one with the same representation. */
  function CreateElementHashMap<T>(items: seq<T>, fmt: T -> string): (m: map<string, T>)
    ensures m.Keys == FormattedSet(items, fmt)
    ensures forall k :: k in m ==> fmt(m[k]) == k
  {
    if items == [] then map[]
    else
      var front := items[..|items| - 1];
      var last := items[|items| - 1];
      assert FormattedSet(items, fmt) == FormattedSet(front, fmt) + {fmt(last)} by {
        forall k | k in FormattedSet(items, fmt)
          ensures k in FormattedSet(front, fmt) + {fmt(last)}
        {
          var i :| 0 <= i < |items| && fmt(items[i]) == k;
          if i < |front| {
            assert front[i] == items[i];
          }
        }
        forall k | k in FormattedSet(front, fmt)
          ensures k in FormattedSet(items, fmt)
        {
          var i :| 0 <= i < |front| && fmt(front[i]) == k;
          assert items[i] == front[i];
        }
      }
      CreateElementHashMap(front, fmt)[fmt(last) := last]
  }

  /** The position of the last item whose formatted representation is `k`. */
  function LastIndexWithKey<T>(items: seq<T>, fmt: T -> string, k: string): (i: nat)
    requires k in FormattedSet(items, fmt)
    ensures i < |items| && fmt(items[i]) == k
    ensures forall j :: i < j < |items| ==> fmt(items[j]) != k
  {
    var n := |items| - 1;
    if fmt(items[n]) == k then n
    else
      assert k in FormattedSet(items[..n], fmt) by {
        var i :| 0 <= i < |items| && fmt(items[i]) == k;
        assert items[..n][i] == items[i];
      }
      var i := LastIndexWithKey(items[..n], fmt, k);
      assert items[i] == items[..n][i];
      assert forall j :: i < j < n ==> items[j] == items[..n][j];
      i
  }

  /** Last writer wins: the item stored under a key is the last item, in
      input order, with that formatted representation. */
  lemma {:induction false} LastWriterWins<T>(items: seq<T>, fmt: T -> string, k: string)
    requires k in CreateElementHashMap(items, fmt)
    ensures CreateElementHashMap(items, fmt)[k] == items[LastIndexWithKey(items, fmt, k)]
  {
    var n := |items| - 1;
    var front := items[..n];
    if fmt(items[n]) != k {
      LastWriterWins(front, fmt, k);
      var i := LastIndexWithKey(front, fmt, k);
      assert items[i] == front[i];
      assert forall j :: i < j < n ==> items[j] == front[j];
      assert LastIndexWithKey(items, fmt, k) == i;
    }
  }

  /** Every value of the reverse lookup is one of the items. */
  lemma LookupYieldsItem<T>(items: seq<T>, fmt: T -> string, k: string)
    requires k in CreateElementHashMap(items, fmt)
    ensures CreateElementHashMap(items, fmt)[k] in items
  {
  }

  /** The lines of `FormatAsFzfInput` are exactly the keys of the reverse
      lookup. */
  lemma InputLinesAreKeys<T>(items: seq<T>, fmt: T -> string)
    requires NoNewlines(items, fmt)
    ensures forall line :: line in Lines.SplitLines(FormatAsFzfInput(items, fmt))
                           <==> line in CreateElementHashMap(items, fmt)
  {
    FormatAsFzfInputLines(items, fmt);
  }

  // ---------------------------------------------------------------------------
  // pick

  /** The exit-status table: 0 is a selection, 128 to 254 or no code at all
      (termination by a signal) is a cancellation, anything else a failure. */
  function ClassifyExit(code: Option<i32>): (c: ExitClass)
    ensures c == Selection <==> code == Some(0)
    ensures c == Cancellation <==> code.None? || 128 <= code.value <= 254
    ensures c == Failure <==> code.Some? && code.value != 0 && !(128 <= code.value <= 254)
  {
    match code
    case None => Cancellation
    case Some(n) =>
      if n == 0 then Selection
      else if 128 <= n <= 254 then Cancellation
      else Failure
  }

  /** A selection made: the selector exited with 0 and wrote valid UTF-8. */
  ghost predicate SelectionMade(run: ChildRun) {
    run.Exited? && run.code == Some(0) && run.stdout.Some?
  }

  /** The result of `pick` for the given items, given what running the
      selector produced. */
  function Pick<T>(items: seq<T>, fmt: T -> string, run: ChildRun): (r: PickResult<T>)
    ensures r.Picked? <==> SelectionMade(run)
                           && RemoveTrailingNewline(run.stdout.value) in FormattedSet(items, fmt)
    ensures r.Picked? ==> r.item in items && fmt(r.item) == RemoveTrailingNewline(run.stdout.value)
    ensures r.Picked? ==> r.item == items[LastIndexWithKey(items, fmt, RemoveTrailingNewline(run.stdout.value))]
    ensures r.Panicked? <==> SelectionMade(run)
                             && RemoveTrailingNewline(run.stdout.value) !in FormattedSet(items, fmt)
    ensures r == Failed(Cancelled) <==> run.Exited? && (run.code.None? || 128 <= run.code.value <= 254)
    ensures r == Failed(FzfNotInstalled) <==> run == SpawnFailed(NotFound)
    ensures r == Failed(Generic) <==>
              || (run.SpawnFailed? && run.kind != NotFound)
              || run == WaitFailed
              || (run.Exited? && run.code.Some? && run.code.value != 0 && !(128 <= run.code.value <= 254))
    ensures r == Propagated(StdinWriteError) <==> run == StdinWriteFailed
    ensures r == Propagated(Utf8Error) <==> run.Exited? && run.code == Some(0) && run.stdout.None?
  {
    match run
    case SpawnFailed(kind) =>
      if kind == NotFound then Failed(FzfNotInstalled) else Failed(Generic)
    case StdinWriteFailed => Propagated(StdinWriteError)
    case WaitFailed => Failed(Generic)
    case Exited(code, stdout) =>
      match ClassifyExit(code)
      case Selection =>
        (match stdout
         case None => Propagated(Utf8Error)
         case Some(out) =>
           var elements := CreateElementHashMap(items, fmt);
           var line := RemoveTrailingNewline(out);
           // the `unwrap` of the lookup panics when the line is not a key
           if line in elements then
             LookupYieldsItem(items, fmt, line);
             LastWriterWins(items, fmt, line);
             Picked(elements[line])
           else Panicked)
      case Cancellation => Failed(Cancelled)
      case Failure => Failed(Generic)
  }

  /** Choosing any line of the input makes `pick` return the last item with
      that formatted representation. */
  lemma PickReturnsChosenLine<T>(items: seq<T>, fmt: T -> string, line: string)
    requires NoNewlines(items, fmt)
    requires line in Lines.SplitLines(FormatAsFzfInput(items, fmt))
    ensures var r := Pick(items, fmt, Exited(Some(0), Some(line + "\n")));
            && r.Picked?
            && fmt(r.item) == line
            && r.item == items[LastIndexWithKey(items, fmt, line)]
  {
    InputLinesAreKeys(items, fmt);
    RemoveTrailingNewlineRoundTrip(line);
    LastWriterWins(items, fmt, line);
  }

  /** Two items `a` and `a'` with the same representation around a different
      `b`: the input lists the shared line once, and choosing it gives `a'`. */
  lemma DuplicateCollapses<T>(a: T, b: T, a': T, fmt: T -> string)
    requires fmt(a) == fmt(a') && fmt(a) != fmt(b)
    ensures FormatAsFzfInput([a, b, a'], fmt) == fmt(a) + "\n" + fmt(b) + "\n"
    ensures CreateElementHashMap([a, b, a'], fmt)[fmt(a)] == a'
  {
    var all := Formatted([a, b, a'], fmt);
    assert all == [fmt(a), fmt(b), fmt(a)];
    var x, y := fmt(a), fmt(b);
    assert Lines.UniqueFrom(all, {}) == [x, y] by {
      assert all[1..] == [y, x] && [y, x][1..] == [x] && [x][1..] == [];
      assert {} + {x} == {x} && {x} + {y} == {x, y};
      assert Lines.UniqueFrom([x], {x, y}) == Lines.UniqueFrom([], {x, y}) == [];
      assert Lines.UniqueFrom([y, x], {x}) == [y] + Lines.UniqueFrom([x], {x, y});
      assert Lines.UniqueFrom(all, {}) == [x] + Lines.UniqueFrom([y, x], {x});
    }
    assert Lines.Terminated([x, y]) == x + "\n" + y + "\n" by {
      assert [x, y][..1] == [x] && [x][..0] == [];
      assert Lines.Terminated([x]) == x + "\n";
    }
  }

  /** The extra newline `writeln!` sends after the text shows the selector one
      more, empty, line. Choosing it echoes "\n", and unless some item's
      representation is empty, the lookup's `unwrap` panics. */
  lemma ChoosingExtraEmptyLinePanics<T>(items: seq<T>, fmt: T -> string)
    requires forall i :: 0 <= i < |items| ==> fmt(items[i]) != ""
    ensures Pick(items, fmt, Exited(Some(0), Some("\n"))) == Panicked
  {
    assert RemoveTrailingNewline("\n") == "";
  }

  /** fzf's documented exit statuses: 130 (interrupted) is a
      cancellation, 1 (no match) and 2 are failures, a missing `fzf` is
      reported as not installed. */
  lemma ExitStatusExamples<T>(items: seq<T>, fmt: T -> string, out: Option<string>)
    ensures Pick(items, fmt, Exited(Some(130), out)) == Failed(Cancelled)
    ensures Pick(items, fmt, Exited(None, out)) == Failed(Cancelled)
    ensures Pick(items, fmt, Exited(Some(1), out)) == Failed(Generic)
    ensures Pick(items, fmt, Exited(Some(2), out)) == Failed(Generic)
    ensures Pick(items, fmt, Exited(Some(255), out)) == Failed(Generic)
    ensures Pick(items, fmt, SpawnFailed(NotFound)) == Failed(FzfNotInstalled)
  {
  }
}
