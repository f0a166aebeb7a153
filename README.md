# BibTeX record splitter

This project models the record splitter of a small BibTeX note tool: the
function `get_BibTex_file_contents`. It reads a BibTeX file line by line and
cuts it into raw text chunks, one chunk per bibliography record. The steps
are as follows:

- Every line is stripped of the whitespace at both ends before any test.
- A line whose stripped form starts with `%` is a comment and is skipped.
- A line whose stripped form is empty is blank and is skipped.
- A line starting with `@` opens a new record. The lines gathered so far are
  joined into one chunk first, but only if at least one line was gathered.
- Any other kept line joins the record being gathered.
- At the end of the file, the gathered lines are joined into a final chunk.
  This happens even when nothing was gathered, so a file with no kept line
  yields one empty chunk.
- Lines are joined with no separator.

The project has three files:

- `py_str.dfy` (module `PyStr`) models the three Python string builtins the
  splitter uses.
  - `str.strip()` with no argument is modelled over the exact set of code
    points that `str.isspace()` accepts.
  - `str.startswith` is modelled with a one-character prefix.
  - `''.join` is modelled as `Concat`.
- `splitter.dfy` (module `BibSplitter`) holds the splitter itself.
  - `GetBibTexFileContents` is a method whose loop keeps the two lists of
    the source: `tmpLines`, the lines of the open record, and `contents`,
    the finished chunks.
  - It is proved equal to `Split`, a fold over the raw lines that the loop
    invariants follow line by line.
- `splitter_properties.dfy` (module `SplitterProperties`) describes the same
  output a second way.
  - `KeptLines` is the list of stripped lines that are kept.
  - `Groups` cuts the kept lines into records.
  - `WellGrouped` is an independent, non-algorithmic description of a correct
    grouping. `GroupsWellGrouped` proves that the splitter's groups meet it,
    and `GroupsUnique` proves that no other grouping does.
  - The remaining lemmas state what the splitter promises about its chunks.

## Model

| member | source | states |
|---|---|---|
| PyStr.IsWhitespace | insert_citekey_to_note_bib.py:18 | The exact code points for which Python's `str.isspace()` is true: U+0009 to U+000D, U+001C to U+0020, U+0085, U+00A0, U+1680, U+2000 to U+200A, U+2028, U+2029, U+202F, U+205F and U+3000. |
| PyStr.LStrip | insert_citekey_to_note_bib.py:18 | `lstrip()`: drops whitespace from the front of the line one character at a time, until the line is empty or starts with something else. |
| PyStr.RStrip | insert_citekey_to_note_bib.py:18 | `rstrip()`: drops whitespace from the end of the line one character at a time, until the line is empty or ends with something else. |
| PyStr.Strip | insert_citekey_to_note_bib.py:18 | `strip()` with no argument: the line with whitespace removed at both ends, computed as `rstrip` after `lstrip`. |
| PyStr.StartsWith | insert_citekey_to_note_bib.py:21 | `startswith` with a one-character prefix: true when the line is non-empty and its first character is that character. It is used for both `%` (line 21) and `@` (line 28). |
| PyStr.Concat | insert_citekey_to_note_bib.py:30 | `''.join`: the lines concatenated in order with no separator, and `""` for no lines. It is used at lines 30 and 37. |
| BibSplitter.Contributes | insert_citekey_to_note_bib.py:18-26 | A raw line is kept when its stripped form does not start with `%` and is not empty. Otherwise the loop continues with the next line. |
| BibSplitter.IsRecordStart | insert_citekey_to_note_bib.py:28 | A stripped line opens a record when it starts with `@`. |
| BibSplitter.Feed | insert_citekey_to_note_bib.py:28-35 | An `@` line closes the open group only if that group is non-empty, then opens the group `[line]`. Any other line is appended to the open group. |
| BibSplitter.JoinEach | insert_citekey_to_note_bib.py:30 | Each group of lines is joined into one chunk, giving one chunk per group in the same order. |
| BibSplitter.Step | insert_citekey_to_note_bib.py:18-35 | One iteration of the loop. A skipped line leaves the state unchanged. A kept line is fed in its stripped form. |
| BibSplitter.Run | insert_citekey_to_note_bib.py:12-35 | The state after the loop has read the given lines, starting from no closed chunk and an empty `tmp_lines`. |
| BibSplitter.Split | insert_citekey_to_note_bib.py:12-38 | The returned list: the chunks closed during the loop, then the final unconditional flush of the open group, even when that group is empty. |
| SplitterProperties.KeptLines | insert_citekey_to_note_bib.py:16-26 | The stripped forms of the lines the loop keeps, in input order. |
| SplitterProperties.WellGrouped | insert_citekey_to_note_bib.py:28-35 | An independent description of a correct cut of the kept lines into records: in order and without loss; every group after the first starts with an `@` line; no `@` line appears other than at the head of a group; only a sole group may be empty. |
| SplitterProperties.CountRecordStarts | insert_citekey_to_note_bib.py:28 | The number of kept lines that start with `@`. |
| BibSplitter.GetBibTexFileContents | insert_citekey_to_note_bib.py:11-38 | The loop over the lines returns exactly `Split(lines)`: every closed chunk in order, then the final flush. Its invariants tie `contents` and `tmpLines` to the state after the lines read so far. |
| PyStr.LStripSpec | insert_citekey_to_note_bib.py:18 | Left stripping removes an all-whitespace prefix and leaves a suffix of the line that does not start with whitespace. |
| PyStr.RStripSpec | insert_citekey_to_note_bib.py:18 | Right stripping removes an all-whitespace suffix and leaves a prefix of the line that does not end with whitespace. |
| PyStr.StripParts | insert_citekey_to_note_bib.py:18 | Every line is its stripped form with only whitespace on either side, and the stripped form has no whitespace at either end. |
| PyStr.StripUnique | insert_citekey_to_note_bib.py:18 | For any whitespace `w1`, `w2` and any text `t` with no whitespace at either end, `strip` of `w1 + t + w2` is `t`. So `strip` is fully determined. |
| PyStr.StripTrimmed | insert_citekey_to_note_bib.py:18 | A line with no whitespace at either end is left unchanged by `strip`. |
| PyStr.StripIdempotent | insert_citekey_to_note_bib.py:18 | Stripping twice gives the same result as stripping once. |
| PyStr.StripIgnoresSurroundingWhitespace | insert_citekey_to_note_bib.py:18 | Adding whitespace around a line does not change its stripped form. |
| PyStr.StripEmptyIffWhitespace | insert_citekey_to_note_bib.py:18-26 | A line strips to the empty string if and only if it is all whitespace. |
| PyStr.ConcatAppend | insert_citekey_to_note_bib.py:30 | Joining two lists of lines one after the other gives the join of the first followed by the join of the second. |
| SplitterProperties.KeptLinesShape | insert_citekey_to_note_bib.py:18-26 | There are no more kept lines than input lines. Every kept line is non-empty, is not a `%` line and has no whitespace at either end. |
| SplitterProperties.KeptLinesAppend | insert_citekey_to_note_bib.py:16-26 | The line filter works line by line: the kept lines of `a + b` are the kept lines of `a` followed by those of `b`. |
| SplitterProperties.RunIsGroupAllOfKept | insert_citekey_to_note_bib.py:16-35 | Processing the raw lines one at a time ends in the same state as first filtering them and then grouping only the kept stripped lines. |
| SplitterProperties.SplitIsJoinedGroups | insert_citekey_to_note_bib.py:16-37 | The output is the groups of the kept lines, each one joined into a chunk. |
| SplitterProperties.FeedWellGrouped | insert_citekey_to_note_bib.py:28-35 | Taking one more kept line, whether it starts a record or continues one, keeps the groups well formed. |
| SplitterProperties.GroupsWellGrouped | insert_citekey_to_note_bib.py:28-35 | The splitter's groups meet all of the following: they flatten back to the kept lines in order; every group after the first is non-empty and starts with an `@` line; no `@` line appears anywhere other than at the head of a group; only a sole group may be empty. |
| SplitterProperties.GroupsUnique | insert_citekey_to_note_bib.py:28-35 | Any grouping that meets that description is the splitter's grouping. |
| SplitterProperties.GroupsCount | insert_citekey_to_note_bib.py:29-37 | The number of groups is the number of `@` lines, plus one when the first kept line is not an `@` line or there is no kept line. |
| SplitterProperties.SplitCharacterised | insert_citekey_to_note_bib.py:28-37 | The chunks are exactly the joins of a well-formed grouping of the kept lines. Such a grouping exists, and joining any well-formed grouping gives the output. |
| SplitterProperties.SplitPreservesText | insert_citekey_to_note_bib.py:28-37 | Nothing is lost, added or reordered: the chunks laid end to end equal the kept stripped lines laid end to end, in input order. |
| SplitterProperties.SplitChunksStartWithRecordMarker | insert_citekey_to_note_bib.py:28-35 | A chunk starts with `@` if and only if it is not the first chunk, or it is the first and the first kept line is an `@` line. |
| SplitterProperties.SplitEmptyChunks | insert_citekey_to_note_bib.py:29-37 | The output always has at least one chunk. A chunk is empty if and only if no line was kept. No line was kept if and only if the output is exactly `[""]`. |
| SplitterProperties.SplitCount | insert_citekey_to_note_bib.py:29-37 | The number of chunks is the number of `@` lines, plus one when the first kept line is not an `@` line or there is no kept line. |
| SplitterProperties.WhitespaceLineSkipped | insert_citekey_to_note_bib.py:24-26 | A line made only of whitespace counts as blank and is skipped. |
| SplitterProperties.SplitIgnoresSkippedLine | insert_citekey_to_note_bib.py:20-26 | Inserting a comment or blank line anywhere in the input leaves the output unchanged. Read the other way, removing one also leaves it unchanged. |
| SplitterProperties.SplitIgnoresSurroundingWhitespace | insert_citekey_to_note_bib.py:18-28 | Indenting a line, or padding it with trailing whitespace, leaves the output unchanged. So an indented `%` or `@` line is treated like an unindented one. |
| SplitterProperties.NothingKept | insert_citekey_to_note_bib.py:20-37 | A file holding one comment line and one whitespace-only line yields exactly one empty chunk. |
| SplitterProperties.StepPlain | insert_citekey_to_note_bib.py:18-35 | A line that has no whitespace at either end, is non-empty and does not start with `%` is fed to the grouping unchanged. |
| SplitterProperties.LeadingLineThenRecord | insert_citekey_to_note_bib.py:16-37 | For any three kept lines where only the middle one starts with `@`, the output is the first line as its own chunk, followed by the other two joined. |
| SplitterProperties.TwoRecords | insert_citekey_to_note_bib.py:16-37 | For any four kept lines where only the first and the third start with `@`, the output is two chunks: the first pair joined, then the second pair joined. |
| SplitterProperties.LeadingLineThenRecordExample | insert_citekey_to_note_bib.py:16-37 | The file `foo`, `@a`, `bar` yields `["foo", "@abar"]`. |
| SplitterProperties.TwoRecordsExample | insert_citekey_to_note_bib.py:16-37 | The file `@a{k,`, `x=1`, `@b{j,`, `}` yields `["@a{k,x=1", "@b{j,}"]`. |

## Left out

- Opening and reading the file (insert_citekey_to_note_bib.py:15-16). The method takes the lines that the file iterator would yield, as a `seq<string>`. Splitting the file into lines and decoding its bytes into text are not modelled.
- The `BibTexItem` named tuple (insert_citekey_to_note_bib.py:6-9). It is declared but never built or used.
- The per-line field parser and the duplicate-key checks (insert_citekey_to_note_bib.py:44-69). They are commented out and never run.
- Record decoding and encoding, note-field insertion, the command line, configuration and output writing. They are not part of this model because they do not exist as live code in this file.
- Python strings are modelled as sequences of Unicode code points. Surrogate code points and any normalisation are out of scope.
