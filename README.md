# Reverse line reader of the log service

The log service answers `GET /logs/{relative_path}` with the last lines of a
file, latest first. The reading is done by `read_file_in_reverse`, a Python
generator:

- it seeks to the end of the file to learn its size;
- it walks a cursor backwards in steps of `chunk_size` (default 1000), clamped at 0;
- each round reads `chunk_size` characters at the cursor and prepends them to a carried text;
- it splits the result with `splitlines`;
- it yields every line but the first, latest first, and carries the first line on;
- when the cursor reaches 0 it yields the carried text.

The handler clamps the requested `max_results` (default 10) to the configured
maximum (default 100). It then takes that many items with
`list(itertools.islice(...))`.

This project models that reader and the handler's take-N step.

- `lines.dfy` (module `Lines`): `splitlines` restricted to the line feed, and
  `reversed`, with their algebra.
- `reader_spec.dfy` (module `ReaderSpec`): the whole output of the generator
  as a pure function `ReadInReverse(data, chunkSize)` over the text, plus the
  properties proved about it.
- `reader.dfy` (module `Reader`): the generator object as the class
  `ReverseLineReader`. Its fields are the cursor, the carry, the pending lines
  of the current round and a finished flag. Its `Next` method performs one
  `next(...)` call. The invariant `Valid` ties the lines yielded so far and
  the lines still to come to `ReadInReverse`.
- `handler.dfy` (module `Handler`): `min(max_results, settings.max_results)`
  and `list(islice(reader, limit))`, as a method over the reader object and
  the pure function that specifies it.
- `reader_examples.dfy` (module `ReaderExamples`): the repository's two unit
  tests, and one concrete input for each quirk below.

The model follows the code as written, including three ways in which the
output is not simply the reversed lines of the file:

- **Overlapping last read.** The read at offset 0 still reads a full chunk.
  When the size is above `chunk_size` and not a multiple of it, text that was
  already consumed is read again. `ReadsWholeTextIff` states exactly when
  the reads cover the text once. `OverlappingLastRead` shows `"a\nbc"` with
  chunk size 3 yielding `["bc", "b", "a"]`.
- **Carry kept raw.** The carry is replaced only inside the `for` loop. So a
  round that splits into a single line keeps its whole text, including a
  final line feed: `"abc\n"` yields `["abc\n"]`.
- **Empty line lost at a chunk boundary.** `splitlines` drops a trailing
  empty piece. An empty line whose two line feeds fall on either side of a
  chunk boundary is therefore never yielded. `ChunkingInvisible` proves
  that, when no boundary falls between two line feeds and the reads do not
  overlap, the output equals `WholeTextOutput(data)`: the lines reversed
  when there are two or more, and otherwise the text itself (so `"abc\n"`
  still yields `["abc\n"]`, and `""` yields `[""]`).

A non-positive `chunk_size` on a non-empty source does not loop forever.
- The first seek target is at or past the end, so the read returns `""`.
- `"".splitlines()` is `[]`.
- So `lines[0]` raises `IndexError` before anything is yielded.

`ReadInReverse` records this in its `raised` flag, and `Next` returns
`IndexError`.

Positions are character indices into the text, as with `io.StringIO`, the
source type the unit tests use.

## Model

| member | source | states |
|---|---|---|
| Lines.Split | cribl_python_interview/main.py:75 | cutting a text at every line feed gives at least one piece (an empty text is one empty piece) |
| Lines.Join | cribl_python_interview/main.py:75 | joining pieces with line feeds starts with the first piece, followed by a line feed when more pieces follow |
| Lines.SplitLines | cribl_python_interview/main.py:75 | `splitlines` gives no lines exactly for the empty text |
| Lines.SplitLinesDropsTrailingEmpty | cribl_python_interview/main.py:75 | a final line feed ends the last line; the split minus exactly one trailing empty piece is the lines |
| Lines.JoinSplit | cribl_python_interview/main.py:75 | splitting at line feeds loses nothing: joining the pieces with line feeds gives the text back |
| Lines.SplitJoin | cribl_python_interview/main.py:75 | splitting the join of line-feed-free pieces gives the pieces back |
| Lines.OneLineIff | cribl_python_interview/main.py:75-76 | a text splits into at most one line exactly when its only line feed, if any, is its last character |
| Lines.ReverseAppend | cribl_python_interview/main.py:77 | reversal turns a concatenation around |
| Lines.ReverseAt | cribl_python_interview/main.py:77 | item k of the reversal is item n-1-k of the original |
| ReaderSpec.ReadAt | cribl_python_interview/main.py:71-73 | `seek(at)` then `read(size)` on the text gives a prefix of the text from `at`: empty at or past the end, exactly `size` characters when that many remain, everything to the end when fewer remain, and everything to the end for a negative size |
| ReaderSpec.SeekTarget | cribl_python_interview/main.py:69 | `max(pos - chunk_size, 0)` is 0 or `pos - chunk_size`; with a positive chunk size it falls strictly below a positive cursor, and with a non-positive one it does not fall |
| ReaderSpec.RoundRead | cribl_python_interview/main.py:73 | with a positive chunk size and a cursor inside the text, a round reads a non-empty text of at most one chunk; with a non-positive chunk size at the end of the text it reads nothing |
| ReaderSpec.Chunk | cribl_python_interview/main.py:74 | the round's read is prepended to the carry: the carry stays at the end, and a round below the end with a positive chunk size adds one to chunk-size characters in front of it |
| ReaderSpec.NextCarry | cribl_python_interview/main.py:76-79 | the carry for the next round is a prefix of the round's chunk: the whole chunk, line feed included, when it splits into at most one line; otherwise a line-feed-free text followed in the chunk by a line feed |
| ReaderSpec.Rounds | cribl_python_interview/main.py:65-81 | the loop raises only with a non-positive chunk size, and then yields nothing; when it does not raise it yields at least one item |
| ReaderSpec.ReadInReverse | cribl_python_interview/main.py:58-81 | an empty source yields exactly `[""]`; the generator raises exactly when the chunk size is non-positive and the source non-empty, and then yields nothing; otherwise every item but the last is free of line feeds and the last is a single line |
| ReaderSpec.RoundsShape | cribl_python_interview/main.py:75-81 | with a positive chunk size no round raises, and the output ends with the one carried text after line-feed-free items |
| ReaderSpec.SplitLinesHaveNoBreak | cribl_python_interview/main.py:75-78 | no line of `splitlines` contains a line feed, so no item of `lines[1:]` does |
| ReaderSpec.SingleChunk | cribl_python_interview/main.py:73-81 | a source no longer than one chunk yields its lines reversed when there are two or more, and otherwise the source text unchanged |
| ReaderSpec.RoundsMatchWholeText | cribl_python_interview/main.py:65-81 | from a cursor on a chunk multiple, with no blank line across a boundary below it, the rounds yield what one split of the text before the cursor plus the carry would |
| ReaderSpec.ChunkingInvisible | cribl_python_interview/main.py:65-81 | when the size is at most one chunk or a multiple of it, and no chunk boundary falls between two line feeds, the output equals `WholeTextOutput(data)`: the lines reversed when there are two or more, otherwise the source text itself |
| ReaderSpec.ScheduleShape | cribl_python_interview/main.py:63-71 | the loop runs ceil(size / chunk size) rounds; each seeks chunk size below the previous cursor clamped at 0; the targets fall strictly, stay below the size and end at 0 |
| ReaderSpec.RoundsFollowSchedule | cribl_python_interview/main.py:65-79 | the loop performs exactly one round per target of `Schedule`, in order, reading one chunk at that target; with `ScheduleShape`, it runs ceil(size / chunk size) rounds |
| ReaderSpec.AlignedReadCoverage | cribl_python_interview/main.py:69-74 | from a cursor on a chunk multiple, the reads prepended across all rounds are exactly the text before it |
| ReaderSpec.UnalignedReadCoverage | cribl_python_interview/main.py:69-74 | otherwise the reads are the first full chunk followed again by the text from `pos % chunk` to the cursor: the overlap is duplicated |
| ReaderSpec.ReadsWholeTextIff | cribl_python_interview/main.py:69-74 | the reads cover the source exactly once if and only if its size is at most one chunk or a multiple of it |
| Reader.ReverseLineReader.constructor | cribl_python_interview/main.py:62-63 | the carry starts empty and the cursor at the size of the source; everything the generator will yield is `ReadInReverse` |
| Reader.ReverseLineReader.Next | cribl_python_interview/main.py:65-81 | one `next(...)` returns the first item still to come and leaves the rest, or returns `IndexError` when the output raises there, or `StopIteration` once finished; no seek while lines of a round are pending |
| Reader.ReverseLineReader.Advance | cribl_python_interview/main.py:69-79 | one round moves the cursor to `max(cursor - chunk, 0)`; when it raises, the raise was all that was still to come; otherwise the cursor falls strictly and what is still to come is unchanged |
| Reader.ReverseLineReader.Yield | cribl_python_interview/main.py:77-81 | after the loop, the next pending line or the final carried text is the first item still to come |
| Reader.ReverseLineReader.Raise | cribl_python_interview/main.py:75-76 | a round whose chunk has no lines ends the generator with `IndexError`, and that raise was all that was still to come |
| Reader.ReverseLineReader.Carry | cribl_python_interview/main.py:76-79 | storing a round's later lines as pending and its first line as the carry leaves what is still to come unchanged |
| Handler.Limit | cribl_python_interview/main.py:37 | the limit is at most both maxima and equal to one of them |
| Handler.TakeFrom | cribl_python_interview/main.py:46 | `islice` takes the first min(n, available) items, and lets the generator's error through exactly when it runs short |
| Handler.Take | cribl_python_interview/main.py:46 | calling `Next` until n items are out gives `TakeFrom` of what the reader still had; after n items the reader is left on the rest, and after a short take or a raise it has nothing more to give |
| Handler.ReadFile | cribl_python_interview/main.py:37-46 | the reply is a prefix of the reader's output, never longer than either maximum, the whole output when it is shorter than both, and a `ValueError` exactly when one maximum is negative |
| Handler.HandleRead | cribl_python_interview/main.py:37-46 | building the reader with the default chunk size and taking the clamped limit gives `ReadFile` |
| ReaderExamples.SimpleFile | tests/file_reading_test.py:4-7 | `"line1\nline2"` with the default chunk size yields `["line2", "line1"]` |
| ReaderExamples.Utf8OneCharacterChunks | tests/file_reading_test.py:9-12 | two one-emoji lines read one character at a time come out whole, latest first |
| ReaderExamples.SingleLineKeepsItsLineFeed | cribl_python_interview/main.py:76-81 | `"abc\n"` yields `["abc\n"]`, line feed included |
| ReaderExamples.OverlappingLastRead | cribl_python_interview/main.py:69-74 | `"a\nbc"` with chunk size 3 reads `"\nbc"` and then `"a\nb"`, and yields `["bc", "b", "a"]` although its lines are `["a", "bc"]` |
| ReaderExamples.EmptyLineLostAtBoundary | cribl_python_interview/main.py:74-79 | `"x\na\n\nb"` with chunk size 2 yields `["b", "a", "x"]` while its lines reversed are `["b", "", "a", "x"]` |
| ReaderExamples.DefaultRequest | cribl_python_interview/main.py:32-46 | with the request's default of ten results, `"line1\nline2"` comes back whole, latest first |
| ReaderExamples.FirstResultOnly | cribl_python_interview/main.py:37-46 | asking for one result over `"line1\nline2"` returns `["line2"]` |

## Left out

- The web layer is not modelled: the FastAPI route, `Settings` and `get_settings` with `lru_cache`, the `print` logging, path joining and normalisation, `open`, and the mapping of `OSError` to 404. The model takes the file's text as a parameter.
- The `keywords` parameter is never used by the handler. The keyword trie (`keywords_to_tree`, `contains_keywords`) that tests/tree_test.py imports is not defined in cribl_python_interview/main.py and is not part of this model.
- `splitlines` is modelled with the line feed as the only line break. Python also breaks lines at `\r`, `\r\n`, `\v`, `\f`, `\x1c`-`\x1e`, `\x85`, `\u2028` and `\u2029`.
- Positions are character indices, as for `io.StringIO`. The opaque seek cookies of a real text-mode file are not modelled. Neither is any byte-level UTF-8 behaviour.
- The integration test's expected line depends on `question.md`, which is not part of this model.
- Handler.Limit: `max_results=None` is not modelled. `min` would raise `TypeError` for it.
- Handler.Limit: a limit above `sys.maxsize` is not modelled. `islice` would refuse it.
- Handler.HandleRead: the reader's `IndexError` cannot reach the handler, because it always uses the positive default chunk size.
- Reader.ReverseLineReader.constructor: Python runs the first two statements of the generator body at the first `next` call, not at creation. The model runs them in the constructor. Seeking to the end of the source cannot fail, so the difference is not observable.
- Reader.ReverseLineReader.Advance: `current_chunk = leftover` runs when the generator resumes after each yield. The model sets the new carry as soon as the round is split. No read happens in between, so the difference is not observable.
- Reader.ReverseLineReader.Next: laziness is stated per call: no seek or read happens while lines of a round are pending. The object does not count its rounds. The number of rounds, ceil(size / chunk size), is proved about the seek schedule (`ReaderSpec.ScheduleShape`). The rounds follow that schedule (`ReaderSpec.RoundsFollowSchedule`), and `Advance` performs one of them per call.
