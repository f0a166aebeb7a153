/** The record splitter of the BibTeX note tool: it reads a file line by
    line, drops comment and blank lines, and groups the remaining lines into
    one raw text chunk per record, a record starting at every `@` line. */
module BibSplitter {
  import opened PyStr

  const CommentMarker: char := '%'
  const RecordMarker: char := '@'

  /** A raw line is kept when its stripped form neither starts with the
      comment marker nor is empty; every other line is skipped. */
  predicate Contributes(raw: string) {
    var line := Strip(raw);
    !StartsWith(line, CommentMarker) && line != ""
  }

  /** A (stripped) line that opens a new record. */
  predicate IsRecordStart(line: string) {
    StartsWith(line, RecordMarker)
  }

  /** The splitter's state between two lines: the records already complete
      (`closed`, each a list of lines) and the lines gathered for the record
      being read (`open`). */
  datatype Grouping = Grouping(closed: seq<seq<string>>, open: seq<string>)

  /** Take one kept line: a record-start line closes the open record, if it
      holds any line, and opens a new one; any other line joins the open one. */
  function Feed(g: Grouping, line: string): (g': Grouping) {
    if IsRecordStart(line) then
      Grouping(if |g.open| > 0 then g.closed + [g.open] else g.closed, [line])
    else
      Grouping(g.closed, g.open + [line])
  }

  /** Each group joined into one chunk with no separator. */
  function JoinEach(gs: seq<seq<string>>): (chunks: seq<string>)
    ensures |chunks| == |gs|
  {
    seq(|gs|, j requires 0 <= j < |gs| => Concat(gs[j]))
  }

  /** The state after one raw line: a skipped line changes nothing, a kept
      line is fed in its stripped form. */
  function Step(g: Grouping, raw: string): (g': Grouping) {
    if Contributes(raw) then Feed(g, Strip(raw)) else g
  }

  /** The state after reading all of `lines`. */
  function Run(lines: seq<string>): (g: Grouping) {
    if lines == [] then Grouping([], [])
    else Step(Run(lines[..|lines| - 1]), lines[|lines| - 1])
  }

  /** The chunks the splitter returns for a file with these lines: every
      closed record, then the open one, flushed even when empty. */
  function Split(lines: seq<string>): (chunks: seq<string>) {
    var g := Run(lines);
    JoinEach(g.closed + [g.open])
  }

  /** The splitting loop as the source runs it: `tmpLines` gathers the lines
      of the current record, `contents` receives each finished chunk. */
  method GetBibTexFileContents(lines: seq<string>) returns (contents: seq<string>)
    ensures contents == Split(lines)
  {
    contents := [];
    var tmpLines: seq<string> := [];
    for i := 0 to |lines|
      invariant contents == JoinEach(Run(lines[..i]).closed)
      invariant tmpLines == Run(lines[..i]).open
    {
      assert lines[..i + 1][..i] == lines[..i];
      var line := Strip(lines[i]);
      if StartsWith(line, CommentMarker) {
        continue;
      }
      if line == "" {
        continue;
      }
      if StartsWith(line, RecordMarker) {
        if |tmpLines| > 0 {
          JoinEachSnoc(Run(lines[..i]).closed, tmpLines);
          contents := contents + [Concat(tmpLines)];
        }
        tmpLines := [];
        tmpLines := tmpLines + [line];
      } else {
        tmpLines := tmpLines + [line];
      }
    }
    assert lines[..|lines|] == lines;
    JoinEachSnoc(Run(lines).closed, tmpLines);
    contents := contents + [Concat(tmpLines)];
  }

  lemma JoinEachSnoc(gs: seq<seq<string>>, g: seq<string>)
    ensures JoinEach(gs + [g]) == JoinEach(gs) + [Concat(g)]
  {
  }
}
