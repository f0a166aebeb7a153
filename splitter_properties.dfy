/** What the record splitter guarantees about its output. The splitter reads
    raw lines one at a time; here the same output is described a second way,
    first filtering the kept lines and then cutting them into groups, and
    that grouping is characterised independently of the algorithm. */
module SplitterProperties {
  import opened PyStr
  import opened BibSplitter

  // ---------------------------------------------------------------------
  // The kept lines

  /** The stripped forms of the lines that contribute, in input order. */
  function KeptLines(lines: seq<string>): (kept: seq<string>) {
    if lines == [] then []
    else
      var last := lines[|lines| - 1];
      KeptLines(lines[..|lines| - 1]) + (if Contributes(last) then [Strip(last)] else [])
  }

  /** Every kept line is non-empty, is not a comment and carries no
      surrounding whitespace. */
  lemma {:induction false} KeptLinesShape(lines: seq<string>)
    ensures |KeptLines(lines)| <= |lines|
    ensures forall k :: 0 <= k < |KeptLines(lines)| ==>
              KeptLines(lines)[k] != "" && !StartsWith(KeptLines(lines)[k], CommentMarker)
              && Trimmed(KeptLines(lines)[k])
  {
    if lines != [] {
      var last := lines[|lines| - 1];
      KeptLinesShape(lines[..|lines| - 1]);
      var pre, post := StripParts(last);
    }
  }

  lemma {:induction false} KeptLinesAppend(a: seq<string>, b: seq<string>)
    ensures KeptLines(a + b) == KeptLines(a) + KeptLines(b)
    decreases |b|
  {
    if b == [] {
      assert a + b == a;
    } else {
      var b' := b[..|b| - 1];
      assert (a + b)[..|a + b| - 1] == a + b';
      KeptLinesAppend(a, b');
    }
  }

  // ---------------------------------------------------------------------
  // Grouping the kept lines

  /** The state after feeding all of `kept` in order. */
  function GroupAll(kept: seq<string>): (g: Grouping) {
    if kept == [] then Grouping([], [])
    else Feed(GroupAll(kept[..|kept| - 1]), kept[|kept| - 1])
  }

  /** The line groups the splitter ends with, the open one included. */
  function Groups(kept: seq<string>): (gs: seq<seq<string>>) {
    var g := GroupAll(kept);
    g.closed + [g.open]
  }

  lemma GroupAllSnoc(kept: seq<string>, line: string)
    ensures GroupAll(kept + [line]) == Feed(GroupAll(kept), line)
  {
    assert (kept + [line])[..|kept|] == kept;
  }

  /** Reading the raw lines one by one ends in the same state as filtering
      them first and feeding only the kept ones. */
  lemma {:induction false} RunIsGroupAllOfKept(lines: seq<string>)
    ensures Run(lines) == GroupAll(KeptLines(lines))
  {
    if lines != [] {
      var init, last := lines[..|lines| - 1], lines[|lines| - 1];
      RunIsGroupAllOfKept(init);
      if Contributes(last) {
        GroupAllSnoc(KeptLines(init), Strip(last));
      } else {
        assert lines[..|lines| - 1] == init;
        assert KeptLines(lines) == KeptLines(init) + [];
        assert KeptLines(init) + [] == KeptLines(init);
      }
    }
  }

  lemma SplitIsJoinedGroups(lines: seq<string>)
    ensures Split(lines) == JoinEach(Groups(KeptLines(lines)))
  {
    RunIsGroupAllOfKept(lines);
  }

  // ---------------------------------------------------------------------
  // An independent description of the grouping

  /** The groups laid end to end. */
  function Flatten(gs: seq<seq<string>>): (lines: seq<string>) {
    if gs == [] then [] else Flatten(gs[..|gs| - 1]) + gs[|gs| - 1]
  }

  lemma FlattenSnoc(gs: seq<seq<string>>, g: seq<string>)
    ensures Flatten(gs + [g]) == Flatten(gs) + g
  {
    assert (gs + [g])[..|gs|] == gs;
  }

  /** The first group is where the flattened lines begin. */
  lemma {:induction false} FlattenStartsWithFirst(gs: seq<seq<string>>)
    requires gs != []
    ensures |gs[0]| <= |Flatten(gs)| && Flatten(gs)[..|gs[0]|] == gs[0]
  {
    if |gs| == 1 {
      assert Flatten(gs) == Flatten([]) + gs[0];
    } else {
      FlattenStartsWithFirst(gs[..|gs| - 1]);
    }
  }

  /** `gs` cuts `kept` into records the way the splitter does: in order and
      without loss; every group after the first starts with a record-start
      line; no record-start line sits anywhere but at the head of a group;
      and only a sole group may be empty. */
  predicate WellGrouped(gs: seq<seq<string>>, kept: seq<string>) {
    |gs| >= 1
    && Flatten(gs) == kept
    && (|gs| > 1 ==> gs[0] != [])
    && (forall j :: 1 <= j < |gs| ==> gs[j] != [] && IsRecordStart(gs[j][0]))
    && (forall j, k :: 0 <= j < |gs| && 1 <= k < |gs[j]| ==> !IsRecordStart(gs[j][k]))
  }

  /** Feeding one more line keeps the groups well formed. */
  lemma FeedWellGrouped(g: Grouping, kept: seq<string>, t: string)
    requires WellGrouped(g.closed + [g.open], kept)
    ensures WellGrouped(Feed(g, t).closed + [Feed(g, t).open], kept + [t])
  {
    if IsRecordStart(t) {
      if |g.open| > 0 {
        assert Feed(g, t).closed + [Feed(g, t).open] == (g.closed + [g.open]) + [[t]];
        FeedRecordStartWellGrouped(g.closed + [g.open], kept, t);
      } else {
        assert Feed(g, t).closed + [Feed(g, t).open] == g.closed + [[t]];
        FeedFirstRecordWellGrouped(g.closed, kept, t);
      }
    } else {
      assert Feed(g, t).closed + [Feed(g, t).open] == g.closed + [g.open + [t]];
      FeedContinuationWellGrouped(g.closed, g.open, kept, t);
    }
  }

  /** A record-start line arriving while nothing has been gathered can only
      be the first kept line. */
  lemma FeedFirstRecordWellGrouped(closed: seq<seq<string>>, kept: seq<string>, t: string)
    requires WellGrouped(closed + [[]], kept) && IsRecordStart(t)
    ensures closed == [] && kept == []
    ensures WellGrouped(closed + [[t]], kept + [t])
  {
    var old_gs := closed + [[]];
    assert old_gs[|closed|] == [];
    assert closed == [];
    assert Flatten(old_gs) == Flatten([]) + [];
    assert Flatten([[t]]) == Flatten([]) + [t];
  }

  lemma FeedRecordStartWellGrouped(old_gs: seq<seq<string>>, kept: seq<string>, t: string)
    requires WellGrouped(old_gs, kept) && old_gs[|old_gs| - 1] != [] && IsRecordStart(t)
    ensures WellGrouped(old_gs + [[t]], kept + [t])
  {
    var gs := old_gs + [[t]];
    FlattenSnoc(old_gs, [t]);
    forall j | 1 <= j < |gs| ensures gs[j] != [] && IsRecordStart(gs[j][0]) {
      if j < |old_gs| { assert gs[j] == old_gs[j]; }
    }
    forall j, k | 0 <= j < |gs| && 1 <= k < |gs[j]| ensures !IsRecordStart(gs[j][k]) {
      assert gs[j] == old_gs[j];
    }
  }

  lemma FeedContinuationWellGrouped(closed: seq<seq<string>>, open: seq<string>,
                                    kept: seq<string>, t: string)
    requires WellGrouped(closed + [open], kept) && !IsRecordStart(t)
    ensures WellGrouped(closed + [open + [t]], kept + [t])
  {
    var old_gs := closed + [open];
    var last := open + [t];
    var gs := closed + [last];
    FlattenSnoc(closed, open);
    FlattenSnoc(closed, last);
    assert old_gs[|closed|] == open;
    forall j | 1 <= j < |gs| ensures gs[j] != [] && IsRecordStart(gs[j][0]) {
      if j < |closed| {
        assert gs[j] == old_gs[j];
      } else {
        assert last[0] == open[0];
      }
    }
    forall j, k | 0 <= j < |gs| && 1 <= k < |gs[j]| ensures !IsRecordStart(gs[j][k]) {
      if j < |closed| {
        assert gs[j] == old_gs[j];
      } else if k < |open| {
        assert gs[j][k] == old_gs[j][k];
      }
    }
  }

  /** The splitter's groups meet that description. */
  lemma {:induction false} GroupsWellGrouped(kept: seq<string>)
    ensures WellGrouped(Groups(kept), kept)
  {
    if kept == [] {
      assert Groups(kept) == [[]];
      assert Flatten([[]]) == Flatten([]) + [];
    } else {
      var init, t := kept[..|kept| - 1], kept[|kept| - 1];
      assert kept == init + [t];
      GroupsWellGrouped(init);
      var g := GroupAll(init);
      assert GroupAll(kept) == Feed(g, t);
      assert Groups(kept) == Feed(g, t).closed + [Feed(g, t).open];
      FeedWellGrouped(g, init, t);
    }
  }

  /** Only the splitter's groups meet that description: it determines the
      grouping of any list of kept lines. */
  lemma {:induction false} GroupsUnique(gs: seq<seq<string>>, kept: seq<string>)
    requires WellGrouped(gs, kept)
    ensures gs == Groups(kept)
    decreases |kept|, 1
  {
    var n := |gs|;
    var prefix, last := gs[..n - 1], gs[n - 1];
    assert gs == prefix + [last];
    if last == [] {
      LastGroupEmpty(prefix, kept);
      assert Groups([]) == [[]];
    } else if |last| == 1 && n == 1 {
      UniqueSoleLine(last, kept);
    } else if |last| == 1 {
      UniqueLastRecord(prefix, last[0], kept);
    } else {
      var shorter := last[..|last| - 1];
      assert last == shorter + [last[|last| - 1]];
      UniqueLastContinuation(prefix, shorter, last[|last| - 1], kept);
    }
  }

  /** A single group of one line is the splitter's grouping of that line. */
  lemma UniqueSoleLine(last: seq<string>, kept: seq<string>)
    requires WellGrouped([last], kept) && |last| == 1
    ensures [last] == Groups(kept)
  {
    FlattenSnoc([], last);
    assert [] + last == kept;
    GroupAllSnoc([], last[0]);
    assert [] + [last[0]] == kept;
  }

  /** A one-line last group after others: the grouping of the remaining
      lines is determined, and the last line opens a record of its own. */
  lemma UniqueLastRecord(prefix: seq<seq<string>>, t: string, kept: seq<string>)
    requires |prefix| >= 1 && WellGrouped(prefix + [[t]], kept)
    ensures prefix + [[t]] == Groups(kept)
    decreases |kept|, 0
  {
    LastLineOfLastGroup(prefix, [t], kept);
    var init := kept[..|kept| - 1];
    assert kept == init + [t];
    UniqueRecordStart(prefix, init, t);
    GroupsUnique(prefix, init);
    GroupsAfterRecordStart(prefix, init, t);
  }

  /** A last group of several lines: its last line continues that record,
      and the grouping without it is determined. */
  lemma UniqueLastContinuation(prefix: seq<seq<string>>, shorter: seq<string>, t: string,
                               kept: seq<string>)
    requires shorter != [] && WellGrouped(prefix + [shorter + [t]], kept)
    ensures prefix + [shorter + [t]] == Groups(kept)
    decreases |kept|, 0
  {
    LastLineOfLastGroup(prefix, shorter + [t], kept);
    var init := kept[..|kept| - 1];
    assert kept == init + [t];
    UniqueContinuation(prefix, shorter, init, t);
    GroupsUnique(prefix + [shorter], init);
    GroupsAfterContinuation(prefix, shorter, init, t);
  }

  lemma GroupsAfterRecordStart(prefix: seq<seq<string>>, init: seq<string>, t: string)
    requires prefix == Groups(init) && IsRecordStart(t) && prefix[|prefix| - 1] != []
    ensures Groups(init + [t]) == prefix + [[t]]
  {
    GroupAllSnoc(init, t);
  }

  lemma GroupsAfterContinuation(prefix: seq<seq<string>>, shorter: seq<string>,
                                init: seq<string>, t: string)
    requires prefix + [shorter] == Groups(init) && !IsRecordStart(t)
    ensures Groups(init + [t]) == prefix + [shorter + [t]]
  {
    GroupAllSnoc(init, t);
    var g := GroupAll(init);
    assert g.closed == (prefix + [shorter])[..|prefix|] == prefix;
  }

  lemma LastGroupEmpty(prefix: seq<seq<string>>, kept: seq<string>)
    requires WellGrouped(prefix + [[]], kept)
    ensures prefix == [] && kept == []
  {
    var gs := prefix + [[]];
    assert gs[|prefix|] == [];
    assert Flatten(gs) == Flatten([]) + [];
  }

  lemma LastLineOfLastGroup(prefix: seq<seq<string>>, last: seq<string>, kept: seq<string>)
    requires WellGrouped(prefix + [last], kept) && last != []
    ensures kept != [] && kept[|kept| - 1] == last[|last| - 1]
    ensures Flatten(prefix) + last == kept
  {
    FlattenSnoc(prefix, last);
  }

  /** A last group of one line that is not the only group: that line is a
      record start, and dropping the group leaves a well-formed grouping. */
  lemma UniqueRecordStart(prefix: seq<seq<string>>, init: seq<string>, t: string)
    requires |prefix| >= 1 && WellGrouped(prefix + [[t]], init + [t])
    ensures IsRecordStart(t) && prefix[|prefix| - 1] != []
    ensures WellGrouped(prefix, init)
  {
    var gs := prefix + [[t]];
    FlattenSnoc(prefix, [t]);
    assert Flatten(prefix) + [t] == init + [t];
    assert Flatten(prefix) == (init + [t])[..|init|];
    assert gs[|prefix|] == [t];
    assert gs[|prefix| - 1] == prefix[|prefix| - 1];
    if |prefix| > 1 {
      assert gs[0] == prefix[0];
    }
    forall j | 1 <= j < |prefix| ensures prefix[j] != [] && IsRecordStart(prefix[j][0]) {
      assert prefix[j] == gs[j];
    }
    forall j, k | 0 <= j < |prefix| && 1 <= k < |prefix[j]| ensures !IsRecordStart(prefix[j][k]) {
      assert prefix[j] == gs[j];
    }
  }

  /** A last group of two or more lines: its last line is not a record
      start, and removing that line leaves a well-formed grouping. */
  lemma UniqueContinuation(prefix: seq<seq<string>>, shorter: seq<string>, init: seq<string>, t: string)
    requires shorter != [] && WellGrouped(prefix + [shorter + [t]], init + [t])
    ensures !IsRecordStart(t)
    ensures WellGrouped(prefix + [shorter], init)
  {
    var gs := prefix + [shorter + [t]];
    var gs' := prefix + [shorter];
    var n := |gs|;
    FlattenSnoc(prefix, shorter + [t]);
    FlattenSnoc(prefix, shorter);
    assert Flatten(prefix) + shorter + [t] == init + [t];
    assert Flatten(gs') == (init + [t])[..|init|];
    assert gs[n - 1][|shorter|] == t;
    forall j | 1 <= j < |gs'| ensures gs'[j] != [] && IsRecordStart(gs'[j][0]) {
      if j < n - 1 {
        assert gs'[j] == gs[j];
      } else {
        assert gs'[j][0] == gs[j][0];
      }
    }
    forall j, k | 0 <= j < |gs'| && 1 <= k < |gs'[j]| ensures !IsRecordStart(gs'[j][k]) {
      if j < n - 1 {
        assert gs'[j] == gs[j];
      } else {
        assert gs'[j][k] == gs[j][k];
      }
    }
    if |gs'| > 1 {
      assert gs'[0] == gs[0];
    }
  }

  /** How many record-start lines `kept` holds. */
  function CountRecordStarts(kept: seq<string>): (n: nat) {
    if kept == [] then 0
    else CountRecordStarts(kept[..|kept| - 1]) + (if IsRecordStart(kept[|kept| - 1]) then 1 else 0)
  }

  /** One group per record-start line, plus a leading group when the first
      kept line is not a record start (or there is no kept line at all). */
  lemma {:induction false} GroupsCount(kept: seq<string>)
    ensures |Groups(kept)| == CountRecordStarts(kept)
                              + (if kept != [] && IsRecordStart(kept[0]) then 0 else 1)
  {
    if kept != [] {
      var init, t := kept[..|kept| - 1], kept[|kept| - 1];
      assert kept == init + [t];
      GroupsCount(init);
      GroupsWellGrouped(init);
      var g := GroupAll(init);
      FlattenSnoc(g.closed, g.open);
      if init != [] {
        assert init[0] == kept[0];
      }
      if IsRecordStart(t) && |g.open| == 0 {
        assert (g.closed + [g.open])[|g.closed|] == g.open;
        assert g.closed == [];
        assert Flatten([[]]) == Flatten([]) + [];
      }
    }
  }

  // ---------------------------------------------------------------------
  // Group-level facts carried to the chunks

  /** A joined list of lines begins with its first line. */
  lemma ConcatStartsWithFirst(ls: seq<string>)
    requires ls != []
    ensures |ls[0]| <= |Concat(ls)| && Concat(ls)[..|ls[0]|] == ls[0]
  {
    assert ls == [ls[0]] + ls[1..];
    ConcatAppend([ls[0]], ls[1..]);
    ConcatSingle(ls[0]);
  }

  lemma {:induction false} ConcatOfJoinEach(gs: seq<seq<string>>)
    ensures Concat(JoinEach(gs)) == Concat(Flatten(gs))
  {
    if gs != [] {
      var init, last := gs[..|gs| - 1], gs[|gs| - 1];
      assert gs == init + [last];
      ConcatOfJoinEach(init);
      JoinEachSnoc(init, last);
      assert JoinEach(gs)[..|gs| - 1] == JoinEach(init);
      ConcatAppend(Flatten(init), last);
    }
  }

  /** Chunks are the records' lines glued back together; any other chunk
      list is not the splitter's output. */
  lemma SplitCharacterised(lines: seq<string>, gs: seq<seq<string>>)
    ensures WellGrouped(gs, KeptLines(lines)) ==> Split(lines) == JoinEach(gs)
    ensures exists gs' :: WellGrouped(gs', KeptLines(lines)) && Split(lines) == JoinEach(gs')
  {
    SplitIsJoinedGroups(lines);
    GroupsWellGrouped(KeptLines(lines));
    if WellGrouped(gs, KeptLines(lines)) {
      GroupsUnique(gs, KeptLines(lines));
    }
  }

  /** Nothing is lost, added or reordered: the chunks, laid end to end, are
      the kept lines laid end to end. */
  lemma SplitPreservesText(lines: seq<string>)
    ensures Concat(Split(lines)) == Concat(KeptLines(lines))
  {
    SplitIsJoinedGroups(lines);
    GroupsWellGrouped(KeptLines(lines));
    ConcatOfJoinEach(Groups(KeptLines(lines)));
  }

  /** A chunk starts with `@` exactly when it is not the first one, or it is
      the first one and the first kept line is a record start. */
  lemma SplitChunksStartWithRecordMarker(lines: seq<string>)
    ensures forall j :: 0 <= j < |Split(lines)| ==>
              (StartsWith(Split(lines)[j], RecordMarker)
               <==> j > 0 || (KeptLines(lines) != [] && IsRecordStart(KeptLines(lines)[0])))
  {
    var kept := KeptLines(lines);
    var gs := Groups(kept);
    SplitIsJoinedGroups(lines);
    GroupsWellGrouped(kept);
    KeptLinesShape(lines);
    forall j | 0 <= j < |gs|
      ensures StartsWith(Concat(gs[j]), RecordMarker)
              <==> j > 0 || (kept != [] && IsRecordStart(kept[0]))
    {
      if gs[j] == [] {
        assert j == 0 && |gs| == 1;
        assert Flatten(gs) == Flatten([]) + [];
        assert Concat([]) == "";
      } else {
        ConcatStartsWithFirst(gs[j]);
        if j == 0 {
          FlattenStartsWithFirst(gs);
          assert gs[0][0] == kept[0];
        }
      }
    }
  }

  /** When no kept line is empty, a group joins to the empty string only
      if nothing was kept at all. */
  lemma GroupJoinsEmpty(gs: seq<seq<string>>, kept: seq<string>, j: nat)
    requires WellGrouped(gs, kept) && j < |gs|
    requires forall k :: 0 <= k < |kept| ==> kept[k] != ""
    ensures Concat(gs[j]) == "" <==> kept == []
  {
    if gs[j] == [] {
      assert j == 0 && |gs| == 1;
      assert gs == [[]];
      assert Flatten(gs) == Flatten([]) + [];
    } else {
      ConcatStartsWithFirst(gs[j]);
      FlattenPart(gs, j);
    }
  }

  /** The output is never empty, and a chunk is empty only in the one case
      where nothing was kept: then the output is exactly one empty chunk. */
  lemma SplitEmptyChunks(lines: seq<string>)
    ensures |Split(lines)| >= 1
    ensures forall j :: 0 <= j < |Split(lines)| ==> (Split(lines)[j] == "" <==> KeptLines(lines) == [])
    ensures KeptLines(lines) == [] <==> Split(lines) == [""]
  {
    var kept := KeptLines(lines);
    var gs := Groups(kept);
    SplitIsJoinedGroups(lines);
    GroupsWellGrouped(kept);
    KeptLinesShape(lines);
    forall j | 0 <= j < |gs| ensures Split(lines)[j] == "" <==> kept == [] {
      GroupJoinsEmpty(gs, kept, j);
    }
    if Split(lines) == [""] {
      assert Split(lines)[0] == "";
    }
  }

  /** The first line of a non-empty group is one of the flattened lines. */
  lemma {:induction false} FlattenPart(gs: seq<seq<string>>, j: nat)
    requires j < |gs| && gs[j] != []
    ensures gs[j][0] in Flatten(gs)
  {
    var init, last := gs[..|gs| - 1], gs[|gs| - 1];
    assert gs == init + [last];
    FlattenSnoc(init, last);
    if j < |gs| - 1 {
      assert gs[j] == init[j];
      FlattenPart(init, j);
    } else {
      assert Flatten(gs)[|Flatten(init)|] == last[0];
    }
  }

  /** One chunk per record-start line, plus a leading chunk when the first
      kept line is not a record start: no empty chunk is flushed at the
      first `@` line. */
  lemma SplitCount(lines: seq<string>)
    ensures |Split(lines)| == CountRecordStarts(KeptLines(lines))
              + (if KeptLines(lines) != [] && IsRecordStart(KeptLines(lines)[0]) then 0 else 1)
  {
    SplitIsJoinedGroups(lines);
    GroupsCount(KeptLines(lines));
  }

  // ---------------------------------------------------------------------
  // Skipped lines and surrounding whitespace

  /** A whitespace-only line is a blank line and is skipped. */
  lemma WhitespaceLineSkipped(raw: string)
    requires AllWhitespace(raw)
    ensures !Contributes(raw)
  {
    StripEmptyIffWhitespace(raw);
  }

  /** Inserting a comment or blank line anywhere leaves the output as it was. */
  lemma SplitIgnoresSkippedLine(a: seq<string>, skipped: string, b: seq<string>)
    requires !Contributes(skipped)
    ensures Split(a + [skipped] + b) == Split(a + b)
  {
    KeptLinesAppend(a + [skipped], b);
    KeptLinesAppend(a, [skipped]);
    KeptLinesAppend(a, b);
    assert [skipped][..0] == [];
    assert KeptLines([skipped]) == KeptLines([]) + [];
    assert KeptLines(a + [skipped]) == KeptLines(a);
    SplitIsJoinedGroups(a + [skipped] + b);
    SplitIsJoinedGroups(a + b);
  }

  /** Tests apply to the stripped line: indenting a line or padding it with
      trailing whitespace leaves the output as it was. */
  lemma SplitIgnoresSurroundingWhitespace(a: seq<string>, w1: string, raw: string,
                                          w2: string, b: seq<string>)
    requires AllWhitespace(w1) && AllWhitespace(w2)
    ensures Split(a + [w1 + raw + w2] + b) == Split(a + [raw] + b)
  {
    StripIgnoresSurroundingWhitespace(w1, raw, w2);
    KeptLinesAppend(a + [w1 + raw + w2], b);
    KeptLinesAppend(a, [w1 + raw + w2]);
    KeptLinesAppend(a + [raw], b);
    KeptLinesAppend(a, [raw]);
    assert [w1 + raw + w2][..0] == [raw][..0];
    SplitIsJoinedGroups(a + [w1 + raw + w2] + b);
    SplitIsJoinedGroups(a + [raw] + b);
  }

  // ---------------------------------------------------------------------
  // A worked file

  lemma RunSnoc(init: seq<string>, raw: string)
    ensures Run(init + [raw]) == Step(Run(init), raw)
  {
    assert (init + [raw])[..|init|] == init;
  }

  /** A file holding only a comment line and a whitespace-only line yields
      one empty chunk. */
  lemma NothingKept()
    ensures Split(["% nothing here", " \t"]) == [""]
  {
    var l0, l1 := "% nothing here", " \t";
    StripTrimmed(l0);
    StripEmptyIffWhitespace(l1);
    RunSnoc([], l0);
    RunSnoc([l0], l1);
    assert Run([l0, l1]) == Grouping([], []);
  }

  /** A kept line: trimmed, neither empty nor a comment. */
  predicate PlainLine(raw: string) {
    Trimmed(raw) && raw != "" && raw[0] != CommentMarker
  }

  /** A plain line is fed to the splitter as it is. */
  lemma StepPlain(g: Grouping, raw: string)
    requires PlainLine(raw)
    ensures Step(g, raw) == Feed(g, raw)
  {
    StripTrimmed(raw);
  }

  /** Lines before the first record form a chunk of their own; the record
      that follows is its lines joined. */
  lemma LeadingLineThenRecord(l0: string, l1: string, l2: string)
    requires PlainLine(l0) && PlainLine(l1) && PlainLine(l2)
    requires !IsRecordStart(l0) && IsRecordStart(l1) && !IsRecordStart(l2)
    ensures Split([l0, l1, l2]) == [l0, l1 + l2]
  {
    RunSnoc([], l0);
    StepPlain(Run([]), l0);
    assert [] + [l0] == [l0];
    assert Run([l0]) == Grouping([], [l0]);
    RunSnoc([l0], l1);
    StepPlain(Run([l0]), l1);
    assert [l0] + [l1] == [l0, l1];
    assert Run([l0, l1]) == Grouping([[l0]], [l1]);
    RunSnoc([l0, l1], l2);
    StepPlain(Run([l0, l1]), l2);
    assert [l0, l1] + [l2] == [l0, l1, l2];
    assert Run([l0, l1, l2]) == Grouping([[l0]], [l1, l2]);
    ConcatSingle(l0);
    ConcatSingle(l1);
    assert Concat([l1, l2]) == Concat([l1]) + l2;
  }

  /** Two records of two lines each: one chunk per record, its lines joined
      with no separator. */
  lemma TwoRecords(l0: string, l1: string, l2: string, l3: string)
    requires PlainLine(l0) && PlainLine(l1) && PlainLine(l2) && PlainLine(l3)
    requires IsRecordStart(l0) && !IsRecordStart(l1) && IsRecordStart(l2) && !IsRecordStart(l3)
    ensures Split([l0, l1, l2, l3]) == [l0 + l1, l2 + l3]
  {
    RunSnoc([], l0);
    StepPlain(Run([]), l0);
    assert [] + [l0] == [l0];
    assert Run([l0]) == Grouping([], [l0]);
    RunSnoc([l0], l1);
    StepPlain(Run([l0]), l1);
    assert [l0] + [l1] == [l0, l1];
    assert Run([l0, l1]) == Grouping([], [l0, l1]);
    RunSnoc([l0, l1], l2);
    StepPlain(Run([l0, l1]), l2);
    assert [l0, l1] + [l2] == [l0, l1, l2];
    assert Run([l0, l1, l2]) == Grouping([[l0, l1]], [l2]);
    RunSnoc([l0, l1, l2], l3);
    StepPlain(Run([l0, l1, l2]), l3);
    assert [l0, l1, l2] + [l3] == [l0, l1, l2, l3];
    assert Run([l0, l1, l2, l3]) == Grouping([[l0, l1]], [l2, l3]);
    ConcatSingle(l0);
    ConcatSingle(l2);
    assert Concat([l0, l1]) == Concat([l0]) + l1;
    assert Concat([l2, l3]) == Concat([l2]) + l3;
  }

  /** An ordinary file: a stray line, then one record over two lines. */
  lemma LeadingLineThenRecordExample()
    ensures Split(["foo", "@a", "bar"]) == ["foo", "@abar"]
  {
    LeadingLineThenRecord("foo", "@a", "bar");
    assert "@a" + "bar" == "@abar";
  }

  /** An ordinary file of two records. */
  lemma TwoRecordsExample()
    ensures Split(["@a{k,", "x=1", "@b{j,", "}"]) == ["@a{k,x=1", "@b{j,}"]
  {
    TwoRecords("@a{k,", "x=1", "@b{j,", "}");
    assert "@a{k," + "x=1" == "@a{k,x=1";
    assert "@b{j," + "}" == "@b{j,}";
  }
}
