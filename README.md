# Fuzzy-finder picker of toggl-cli, modelled in Dafny

toggl-cli lets the user choose one of several items through the external
fuzzy finder `fzf`. The picker in
`src/picker/fzf.rs` renders each item through its `formatted()`
representation, writes the distinct representations one per line to the
selector's standard input, builds a reverse lookup from representation back to
item, and reads the selector's exit status and output to decide between a
selection, a cancellation and an error.

This project models that protocol as pure functions and proves what it
guarantees:

- `lines.dfy` (module `Lines`): the line-level building blocks. `UniqueFrom` /
  `Unique` are the value-level behaviour of the iterator adaptor `unique`
  (first occurrence kept, order kept); `Terminated` is the left fold that
  appends each line and a newline; `SplitLines` reads text back into lines the
  way a line-oriented reader does, and is the inverse of `Terminated` for lines
  without newlines.
- `picker.dfy` (module `FzfPicker`): `remove_trailing_newline`,
  `format_as_fzf_input`, `create_element_hash_map`, and the decision part of
  `FzfPicker::pick`. An item's `formatted()` is the function parameter `fmt`,
  and `clone` is the identity. The subprocess is an input value `ChildRun`:
  the spawn failed (with an error kind), writing its stdin failed, waiting
  failed, or it exited with an optional exit code (an `i32`, absent when a
  signal ended it) and a standard output that is valid UTF-8 or not.
- `wrappers.dfy` (module `Wrappers`): the `Option` type.

`PickResult` keeps apart the three ways `pick` can end besides a selection:
a `PickerError` (`Cancelled`, `FzfNotInstalled`, `Generic`), an error that
`?` propagates unchanged (the stdin write, the UTF-8 decoding), and the panic
of the `unwrap` at `src/picker/fzf.rs:59` when the selected line is not a key.

Two points of the code worth stating plainly:

- A selected line that is not a key of the lookup is not reported as a
  `PickerError`: the `unwrap` at src/picker/fzf.rs:59 panics, and the model
  returns `Panicked`.
- The fold at src/picker/fzf.rs:26 ends every line, the last included, with a
  newline; it is not a separator join.

Characters are Dafny's `char`, a Unicode scalar value, as Rust's `char` is, so
"the last character" removed by `RemoveTrailingNewline` is the same in both.

## Model

| member | source | states |
|---|---|---|
| `FzfPicker.RemoveTrailingNewline` | src/picker/fzf.rs:15-19 | The result followed by the input's last character is the input: exactly one character, whatever it is, is dropped; the empty string stays empty. |
| `FzfPicker.RemoveTrailingNewlineRoundTrip` | src/picker/fzf.rs:15-19 | For every string `s`, removing the trailing character of `s + "\n"` gives back `s`, which is how a line the selector echoes with its newline is recovered. |
| `Lines.UniqueFrom` | src/picker/fzf.rs:25 | The deduplicated sequence has no repeated value and contains exactly the values of the input not already seen. |
| `Lines.Unique` | src/picker/fzf.rs:25 | Deduplication yields no repeated value and exactly the values of its input. |
| `Lines.UniqueFromOrdered` | src/picker/fzf.rs:25 | The values `UniqueFrom` emits appear in the order of their first occurrence in the input. |
| `Lines.UniqueOrdered` | src/picker/fzf.rs:25 | `Unique` keeps first-occurrence order. |
| `Lines.UniqueCount` | src/picker/fzf.rs:24-26 | The deduplicated sequence has exactly one entry per distinct input value. |
| `Lines.Terminated` | src/picker/fzf.rs:26 | The `fold` that appends each line and a newline: the text is empty exactly when there are no lines and otherwise ends with a newline; `TerminatedCons` and `SplitTerminated` describe the rest of it. |
| `FzfPicker.Formatted` | src/picker/fzf.rs:24 | The `map` of each item to its `formatted()` representation (also line 32): one entry per item, and entry `i` is the `i`-th item's representation. |
| `Lines.TerminatedCons` | src/picker/fzf.rs:26 | The left fold that appends line and newline produces the first line and its newline, then the text of the remaining lines. |
| `Lines.SplitTerminated` | src/picker/fzf.rs:26 | Round trip: reading the folded text back into lines yields the original lines whenever none contains a newline. |
| `FzfPicker.FormatAsFzfInput` | src/picker/fzf.rs:21-27 | The text `format_as_fzf_input` returns is empty exactly when there are no items, and otherwise ends with a newline. |
| `FzfPicker.FormatAsFzfInputLines` | src/picker/fzf.rs:21-27 | When no representation contains a newline, the lines of the text `format_as_fzf_input` returns are the deduplicated representations: no line twice, exactly the set of representations, one line per distinct representation, in first-occurrence order. |
| `FzfPicker.CreateElementHashMap` | src/picker/fzf.rs:29-34 | The keys of the reverse lookup are exactly the items' representations, and the item stored under each key has that key as its representation. |
| `FzfPicker.LastIndexWithKey` | src/picker/fzf.rs:32-33 | Gives the position of an item with representation `k` after which no item has representation `k`. |
| `FzfPicker.LastWriterWins` | src/picker/fzf.rs:32-33 | The item stored under a key is the last item, in input order, with that representation. |
| `FzfPicker.LookupYieldsItem` | src/picker/fzf.rs:59-60 | Whatever the reverse lookup returns is an element of the items. |
| `FzfPicker.InputLinesAreKeys` | src/picker/fzf.rs:46-47 | When no representation contains a newline, a string is a line of the text `format_as_fzf_input` returns exactly when it is a key of the reverse lookup. |
| `FzfPicker.ClassifyExit` | src/picker/fzf.rs:53-64 | Exit code 0 is a selection; 128 to 254 or no code is a cancellation; every other code is a failure; each code falls in exactly one class. |
| `FzfPicker.Pick` | src/picker/fzf.rs:43-69 | Spawn `NotFound` gives `FzfNotInstalled`; any other spawn error, a failed wait or an exit code outside 0 and 128 to 254 gives `Generic`; 128 to 254 or no code gives `Cancelled`; exit 0 with a line that is a representation gives the last item, in input order, with that representation; exit 0 with any other line panics; the stdin write and UTF-8 errors propagate. |
| `FzfPicker.PickReturnsChosenLine` | src/picker/fzf.rs:46-60 | When no representation contains a newline, choosing any line of the text `format_as_fzf_input` returns (echoed with its newline) makes `pick` return the last item with that representation. |
| `FzfPicker.ChoosingExtraEmptyLinePanics` | src/picker/fzf.rs:49-59 | When no item's representation is empty, choosing the extra empty line that `writeln!` adds (stdout `"\n"`) makes the `unwrap` panic. |
| `FzfPicker.DuplicateCollapses` | src/picker/fzf.rs:21-34 | For items `a, b, a'` where `a` and `a'` share a representation, the input lists it once before `b`'s line, and the lookup maps it to `a'`. |
| `FzfPicker.ExitStatusExamples` | src/picker/fzf.rs:63-69 | Exit 130 and a missing code give `Cancelled`; exit 1, 2 and 255 give `Generic`; a missing `fzf` gives `FzfNotInstalled`. |

## Left out

- The subprocess itself: the `fzf` arguments `-n2..` and `--ansi`, spawning,
  writing to its stdin, waiting and capturing its output are I/O; their
  outcome is the input `ChildRun`.
- The extra newline that `writeln!` adds after the already newline-terminated
  input (src/picker/fzf.rs:49): the model of the input is the value of
  `format_as_fzf_input`, not the bytes the selector receives. That newline
  shows fzf one more, empty, line; choosing it sends stdout `"\n"`, and `Pick`
  then returns `Panicked` unless some item's representation is empty
  (`ChoosingExtraEmptyLinePanics`).
- UTF-8 decoding of the selector's output: the model receives the decoded
  string, or `None` for invalid bytes, which becomes the propagated `Utf8Error`.
- The two debug `println!` calls in `pick` (src/picker/fzf.rs:56, 58): output only.
- `HashMap` hashing and iteration order: the lookup is a Dafny `map`.
- src/main.rs (the command dispatcher, credentials and output) and
  src/models.rs (serialisation records without behaviour) are not part of
  this model; the time-entry start/stop engine and the API client live in
  modules that are not part of this model either.
