/** The splitting loop over lines, and what it conserves. */
module SplitBlocks {
  import opened Text
  import opened Markdown
  import opened Blocks

  // ------------------------------------------------------------ texts of blocks

  function Glue(lines: seq<string>): string {
    if lines == [] then "" else Glue(lines[..|lines| - 1]) + lines[|lines| - 1] + "\n"
  }

  function HeadingPath(headings: seq<string>): string {
    if headings == [] then ""
    else
      var front, last := HeadingPath(headings[..|headings| - 1]), headings[|headings| - 1];
      if TrimSpace(last) == "" then front else if front == "" then last else front + " > " + last
  }

  /** The block of a range of lines, under the headings in force before it. */
  function BlockOf(lines: seq<string>, kinds: seq<Kind>, r: Range): Block
    requires r.from <= r.to <= |lines| == |kinds|
  {
    Block(TrimSpace(Glue(lines[r.from..r.to])), HeadingPath(Headings(kinds[..r.from])))
  }

  predicate Within(ranges: seq<Range>, n: nat) {
    forall k :: 0 <= k < |ranges| ==> ranges[k].from <= ranges[k].to <= n
  }

  function BlocksAt(lines: seq<string>, kinds: seq<Kind>, ranges: seq<Range>): (blocks: seq<Block>)
    requires Within(ranges, |lines|) && |lines| == |kinds|
    ensures |blocks| == |ranges|
  {
    if ranges == [] then []
    else BlocksAt(lines, kinds, ranges[..|ranges| - 1]) + [BlockOf(lines, kinds, ranges[|ranges| - 1])]
  }

  lemma BlocksAtAppend(lines: seq<string>, kinds: seq<Kind>, ranges: seq<Range>, r: Range)
    requires Within(ranges + [r], |lines|) && |lines| == |kinds|
    ensures Within(ranges, |lines|) && r.from <= r.to <= |lines|
    ensures BlocksAt(lines, kinds, ranges + [r]) == BlocksAt(lines, kinds, ranges) + [BlockOf(lines, kinds, r)]
  {
    hide BlockOf;
    assert (ranges + [r])[|ranges|] == r;
    assert (ranges + [r])[..|ranges|] == ranges;
  }

  function BlocksOf(lines: seq<string>): seq<Block> {
    FencesAreProtected(lines);
    BlocksAt(lines, KindsOf(lines), Ranges(MarksOf(KindsOf(lines))))
  }

  // -------------------------------------------------- ranges closed and growing

  predicate IsOpen(marks: Marks) { marks != [] && !marks[|marks| - 1].Dropped? }

  /** The ranges no longer growing after some lines, and where the growing one starts. */
  function Closed(marks: Marks): (ranges: seq<Range>)
    requires WellMarked(marks)
    ensures Within(ranges, |marks|)
  {
    var all := Ranges(marks);
    if IsOpen(marks) then all[..|all| - 1] else all
  }

  function OpenFrom(marks: Marks): (from: nat)
    requires WellMarked(marks)
    ensures from <= |marks|
  {
    var all := Ranges(marks);
    if IsOpen(marks) then all[|all| - 1].from else |marks|
  }

  /** The growing range, if any. */
  function Growing(marks: Marks): (ranges: seq<Range>)
    requires WellMarked(marks)
  {
    if IsOpen(marks) then [Range(OpenFrom(marks), |marks|)] else []
  }

  lemma RangesOfParts(marks: Marks)
    requires WellMarked(marks)
    ensures Ranges(marks) == Closed(marks) + Growing(marks)
  {
    hide Ranges, WellMarked;
    var all := Ranges(marks);
    if IsOpen(marks) {
      assert all == all[..|all| - 1] + [all[|all| - 1]];
    }
  }

  lemma NextLine(marks: Marks, n: nat)
    requires n == |marks| - 1 && WellMarked(marks)
    ensures WellMarked(marks[..n])
    ensures var before := marks[..n];
      && (marks[n].Dropped? ==> Closed(marks) == Closed(before) + Growing(before) && OpenFrom(marks) == n + 1)
      && (marks[n].Start? ==> Closed(marks) == Closed(before) + Growing(before) && OpenFrom(marks) == n)
      && (marks[n].More? ==> Closed(marks) == Closed(before) && OpenFrom(marks) == OpenFrom(before))
  {
    var before := marks[..n];
    assert WellMarked(before);
    hide WellMarked;
    RangesOfParts(before);
    if n > 0 {
      assert before[n - 1] == marks[n - 1];
    }
    if marks[n].Start? {
      assert Ranges(marks)[..|Ranges(before)|] == Ranges(before);
    } else if marks[n].More? {
      assert Ranges(marks)[..|Ranges(before)| - 1] == Ranges(before)[..|Ranges(before)| - 1];
    }
  }

  lemma OpenRange(marks: Marks)
    requires WellMarked(marks) && IsOpen(marks)
    ensures OpenFrom(marks) < |marks| && IsBlock(marks, Range(OpenFrom(marks), |marks|))
  {
    RangesAreBlocking(marks);
  }

  // --------------------------------------------------------------- the loop

  /** A starting line has content, whatever the lines are. */
  predicate StartsHaveContent(lines: seq<string>, marks: Marks)
    requires |marks| == |lines|
  {
    forall n :: 0 <= n < |lines| && marks[n].Start? ==> Solid(lines[n]) != ""
  }

  lemma {:induction false} ContainsSolid(s: string, i: nat)
    requires i < |s| && !IsSpace(s[i])
    ensures Solid(s) != ""
  {
    if i > 0 {
      ContainsSolid(s[1..], i - 1);
    }
  }

  lemma ScannedStartsHaveContent(lines: seq<string>)
    ensures StartsHaveContent(lines, MarksOf(KindsOf(lines)))
  {
    hide MatchAnyHeading, FenceBefore, TrimSpace, Solid;
    forall n | 0 <= n < |lines| && MarksOf(KindsOf(lines))[n].Start?
      ensures Solid(lines[n]) != ""
    {
      if KindsOf(lines)[n].Opener? {
        OpenerHasContent(lines[n]);
      } else {
        TrimEmptyIffNoSolid(lines[n]);
      }
    }
  }

  lemma OpenerHasContent(line: string)
    requires FenceOpen(line) != ""
    ensures Solid(line) != ""
  {
    ContainsSolid(line, |line| - |DropBlanks(line)|);
  }

  lemma SolidGlue(lines: seq<string>, n: nat)
    requires n == |lines| - 1
    ensures Solid(Glue(lines)) == Solid(Glue(lines[..n])) + Solid(lines[n])
  {
    SolidConcat(Glue(lines[..n]), lines[n]);
    SolidConcat(Glue(lines[..n]) + lines[n], "\n");
    assert Solid("\n") == "";
  }

  lemma {:induction false} GlueHasFirst(lines: seq<string>)
    requires lines != [] && Solid(lines[0]) != ""
    ensures Solid(Glue(lines)) != ""
  {
    SolidGlue(lines, |lines| - 1);
    if |lines| > 1 {
      GlueHasFirst(lines[..|lines| - 1]);
    }
  }

  /** No heading changes while nothing is dropped. */
  lemma {:induction false} HeadingsHold(kinds: seq<Kind>, from: nat)
    requires from <= |kinds| && forall n :: from <= n < |kinds| ==> !kinds[n].Title?
    ensures Headings(kinds) == Headings(kinds[..from])
    decreases |kinds|
  {
    if from < |kinds| {
      var front := kinds[..|kinds| - 1];
      HeadingsHold(front, from);
      assert front[..from] == kinds[..from];
    } else {
      assert kinds[..from] == kinds;
    }
  }

  /** What the loop has after some lines: the closed blocks and the text of the growing one. */
  ghost predicate SplitSoFar(lines: seq<string>, kinds: seq<Kind>, marks: Marks, n: nat, blocks: seq<Block>,
                             current: string)
    requires |marks| == |kinds| == |lines| && n <= |lines| && WellMarked(marks[..n])
  {
    blocks == BlocksAt(lines, kinds, Closed(marks[..n])) && current == Glue(lines[OpenFrom(marks[..n])..n])
  }

  lemma Prefixes(marks: Marks, n: nat)
    requires WellMarked(marks) && n <= |marks|
    ensures WellMarked(marks[..n])
    ensures n < |marks| ==>
      WellMarked(marks[..n + 1]) && marks[..n + 1][..n] == marks[..n] && marks[..n + 1][n] == marks[n]
  {
  }

  lemma GlueOne(line: string)
    ensures Glue([line]) == line + "\n"
  {
    assert [line][..0] == [];
    assert "" + line == line;
  }

  lemma GlueNext(lines: seq<string>, from: nat, n: nat)
    requires from <= n < |lines|
    ensures Glue(lines[from..n + 1]) == Glue(lines[from..n]) + lines[n] + "\n"
  {
    assert lines[from..n + 1][..n - from] == lines[from..n];
  }

  /** Flushing appends the growing block, trimmed, under the headings in force now. */
  method Flush(blocks: seq<Block>, current: string, headings: seq<string>,
               ghost lines: seq<string>, ghost kinds: seq<Kind>, ghost marks: Marks, ghost n: nat)
    returns (flushed: seq<Block>)
    requires |marks| == |kinds| == |lines| && n <= |lines| && WellMarked(marks[..n]) && marks == MarksOf(kinds)
    requires headings == Headings(kinds[..n]) && StartsHaveContent(lines, marks)
    requires SplitSoFar(lines, kinds, marks, n, blocks, current)
    ensures flushed == BlocksAt(lines, kinds, Ranges(marks[..n]))
  {
    hide Ranges, TrimSpace, HeadingPath;
    ghost var sofar := marks[..n];
    RangesOfParts(sofar);
    var trimmed := TrimSpace(current);
    if IsOpen(sofar) {
      OpenRangeHasContent(lines, kinds, sofar);
      BlocksAtAppend(lines, kinds, Closed(sofar), Range(OpenFrom(sofar), n));
    } else {
      assert current == "" by { assert lines[n..n] == []; }
      NothingTrims();
      assert Closed(sofar) + [] == Closed(sofar);
    }
    if trimmed != "" {
      return blocks + [Block(trimmed, HeadingPath(headings))];
    }
    return blocks;
  }

  lemma NothingTrims()
    ensures TrimSpace("") == ""
  {
  }

  lemma OpenRangeHasContent(lines: seq<string>, kinds: seq<Kind>, marks: Marks)
    requires |marks| <= |kinds| == |lines| && WellMarked(marks) && IsOpen(marks) && marks == MarksOf(kinds)[..|marks|]
    requires StartsHaveContent(lines, MarksOf(kinds))
    ensures var from := OpenFrom(marks);
      && from < |marks| && TrimSpace(Glue(lines[from..|marks|])) != ""
      && Headings(kinds[..|marks|]) == Headings(kinds[..from])
  {
    hide Ranges, Headings, TrimSpace, Solid, Glue;
    var from := OpenFrom(marks);
    OpenRange(marks);
    assert MarksOf(kinds)[from] == marks[from];
    GlueHasFirst(lines[from..|marks|]);
    TrimEmptyIffNoSolid(Glue(lines[from..|marks|]));
    var sofar := kinds[..|marks|];
    forall i | from <= i < |marks|
      ensures !sofar[i].Title?
    {
      assert MarksOf(kinds)[i] == marks[i];
    }
    HeadingsHold(sofar, from);
    assert sofar[..from] == kinds[..from];
  }

  /** The line loop: fences protect their lines, headings and blank lines outside them
      end a block, and every block comes out trimmed under the headings in force. */
  method Split(lines: seq<string>) returns (blocks: seq<Block>)
    ensures blocks == BlocksOf(lines)
  {
    hide Ranges, KindOf, KindsOf, FenceAfter, FenceBefore, WithTitle, WellMarked, Headings, MarksOf, BlocksAt,
      SplitSoFar,
      StartsHaveContent;
    ghost var kinds := KindsOf(lines);
    ghost var marks := MarksOf(kinds);
    FencesAreProtected(lines);
    ScannedStartsHaveContent(lines);
    blocks := [];
    var current, headings, fence := "", [], "";
    SplitStarts(lines, kinds, marks);
    for n := 0 to |lines|
      invariant fence == FenceBefore(lines, n) && headings == Headings(kinds[..n])
      invariant WellMarked(marks[..n]) && SplitSoFar(lines, kinds, marks, n, blocks, current)
    {
      var line := lines[n];
      var kind := KindOf(fence, line);
      ScanStep(lines, n);
      Prefixes(marks, n);
      MarkOfKind(kinds, n);
      if kind.InFence? {
        AfterMore(lines, kinds, marks, n, blocks, current);
        current := current + line + "\n";
      } else if kind.Plain? {
        if marks[n].More? {
          AfterMore(lines, kinds, marks, n, blocks, current);
        } else {
          StartIsFlushed(lines, kinds, marks, n, blocks, current);
          AfterFlush(lines, kinds, marks, n, blocks);
          assert current + line == line;
        }
        current := current + line + "\n";
      } else {
        blocks := Flush(blocks, current, headings, lines, kinds, marks, n);
        AfterFlush(lines, kinds, marks, n, blocks);
        current := if kind.Opener? then line + "\n" else "";
        if kind.Title? {
          headings := WithTitle(headings, kind.heading);
        }
      }
      fence := FenceAfter(fence, line);
    }
    assert marks[..|lines|] == marks;
    blocks := Flush(blocks, current, headings, lines, kinds, marks, |lines|);
  }

  lemma ScanStep(lines: seq<string>, n: nat)
    requires n < |lines|
    ensures KindsOf(lines)[n] == KindOf(FenceBefore(lines, n), lines[n])
    ensures FenceBefore(lines, n + 1) == FenceAfter(FenceBefore(lines, n), lines[n])
  {
    hide KindOf, FenceAfter;
  }

  lemma MarkOfKind(kinds: seq<Kind>, n: nat)
    requires n < |kinds|
    ensures match kinds[n]
      case InFence => MarksOf(kinds)[n].More?
      case Opener => MarksOf(kinds)[n].Start?
      case Plain => !MarksOf(kinds)[n].Dropped?
      case _ => MarksOf(kinds)[n].Dropped?
    ensures kinds[n].Plain? && MarksOf(kinds)[n].Start? && n > 0 ==> MarksOf(kinds)[n - 1].Dropped?
    ensures Headings(kinds[..n + 1]) ==
      if kinds[n].Title? then WithTitle(Headings(kinds[..n]), kinds[n].heading) else Headings(kinds[..n])
  {
    assert kinds[..n + 1][..n] == kinds[..n];
  }

  lemma SplitStarts(lines: seq<string>, kinds: seq<Kind>, marks: Marks)
    requires |marks| == |kinds| == |lines|
    ensures WellMarked(marks[..0]) && SplitSoFar(lines, kinds, marks, 0, [], "")
    ensures Headings(kinds[..0]) == [] && FenceBefore(lines, 0) == ""
  {
    assert marks[..0] == [] && lines[0..0] == [];
  }

  /** A dropped or starting line after a flush. */
  lemma AfterFlush(lines: seq<string>, kinds: seq<Kind>, marks: Marks, n: nat, blocks: seq<Block>)
    requires |marks| == |kinds| == |lines| && n < |lines| && WellMarked(marks) && !marks[n].More?
    requires WellMarked(marks[..n]) && blocks == BlocksAt(lines, kinds, Ranges(marks[..n]))
    ensures WellMarked(marks[..n + 1])
    ensures SplitSoFar(lines, kinds, marks, n + 1, blocks, if marks[n].Dropped? then "" else lines[n] + "\n")
  {
    hide BlocksAt, Ranges, WellMarked, Glue;
    Prefixes(marks, n);
    NextLine(marks[..n + 1], n);
    RangesOfParts(marks[..n]);
    NoLinesGlue();
    GlueOne(lines[n]);
    assert lines[n..n + 1] == [lines[n]] && lines[n + 1..n + 1] == [];
  }

  lemma NoLinesGlue()
    ensures Glue([]) == ""
  {
  }

  /** A line that goes on with the growing block. */
  lemma AfterMore(lines: seq<string>, kinds: seq<Kind>, marks: Marks, n: nat, blocks: seq<Block>, current: string)
    requires |marks| == |kinds| == |lines| && n < |lines| && WellMarked(marks) && marks[n].More?
    requires WellMarked(marks[..n]) && SplitSoFar(lines, kinds, marks, n, blocks, current)
    ensures WellMarked(marks[..n + 1]) && SplitSoFar(lines, kinds, marks, n + 1, blocks, current + lines[n] + "\n")
  {
    hide BlocksAt, Ranges, WellMarked, Glue;
    Prefixes(marks, n);
    NextLine(marks[..n + 1], n);
    GlueNext(lines, OpenFrom(marks[..n]), n);
  }

  /** Nothing grows after a dropped line, so there is nothing to flush before the next. */
  lemma StartIsFlushed(lines: seq<string>, kinds: seq<Kind>, marks: Marks, n: nat, blocks: seq<Block>, current: string)
    requires |marks| == |kinds| == |lines| && n <= |lines| && WellMarked(marks[..n])
      && (n > 0 ==> marks[n - 1].Dropped?)
    requires SplitSoFar(lines, kinds, marks, n, blocks, current)
    ensures current == "" && blocks == BlocksAt(lines, kinds, Ranges(marks[..n]))
  {
    hide BlocksAt, Ranges, WellMarked, Glue;
    assert !IsOpen(marks[..n]);
    NoLinesGlue();
    assert lines[n..n] == [];
  }

  // -------------------------------------------------------------- conservation

  /** The lines that are not dropped, in order. */
  function KeptLines(lines: seq<string>, marks: Marks): seq<string>
    requires |marks| <= |lines|
  {
    if marks == [] then []
    else
      var n := |marks| - 1;
      KeptLines(lines, marks[..n]) + if marks[n].Dropped? then [] else [lines[n]]
  }

  function TextsOf(blocks: seq<Block>): seq<string> { seq(|blocks|, k requires 0 <= k < |blocks| => blocks[k].text) }

  lemma TextsOfAppend(blocks: seq<Block>, b: Block)
    ensures TextsOf(blocks + [b]) == TextsOf(blocks) + [b.text]
  {
  }

  /** The content of the lines of some ranges. */
  function RangedContent(lines: seq<string>, ranges: seq<Range>): string
    requires Within(ranges, |lines|)
  {
    if ranges == [] then ""
    else
      var r := ranges[|ranges| - 1];
      RangedContent(lines, ranges[..|ranges| - 1]) + Solid(Glue(lines[r.from..r.to]))
  }

  lemma RangedAppend(lines: seq<string>, ranges: seq<Range>, r: Range)
    requires Within(ranges + [r], |lines|)
    ensures Within(ranges, |lines|) && r.from <= r.to <= |lines|
    ensures RangedContent(lines, ranges + [r]) == RangedContent(lines, ranges) + Solid(Glue(lines[r.from..r.to]))
  {
    hide Solid, Glue;
    assert (ranges + [r])[|ranges|] == r;
    assert (ranges + [r])[..|ranges|] == ranges;
  }

  /** Blocks hold the content of their ranges. */
  lemma {:induction false} BlocksHoldRanges(lines: seq<string>, kinds: seq<Kind>, ranges: seq<Range>)
    requires Within(ranges, |lines|) && |lines| == |kinds|
    ensures Content(TextsOf(BlocksAt(lines, kinds, ranges))) == RangedContent(lines, ranges)
  {
    hide Solid, Glue, TrimSpace, TextsOf, Content, HeadingPath, Headings;
    if ranges == [] {
      NoBlocks();
    } else {
      var front, r := ranges[..|ranges| - 1], ranges[|ranges| - 1];
      BlocksHoldRanges(lines, kinds, front);
      var b := BlockOf(lines, kinds, r);
      TextsOfAppend(BlocksAt(lines, kinds, front), b);
      ContentAppend(TextsOf(BlocksAt(lines, kinds, front)), b.text);
      SolidTrim(Glue(lines[r.from..r.to]));
    }
  }

  lemma NoBlocks()
    ensures Content(TextsOf([])) == ""
  {
  }

  lemma GrownContent(lines: seq<string>, from: nat, n: nat)
    requires from <= n < |lines|
    ensures Solid(Glue(lines[from..n + 1])) == Solid(Glue(lines[from..n])) + Solid(lines[n])
  {
    SolidGlue(lines[from..n + 1], n - from);
    assert lines[from..n + 1][..n - from] == lines[from..n];
  }

  lemma OneLineContent(lines: seq<string>, n: nat)
    requires n < |lines|
    ensures Solid(Glue(lines[n..n + 1])) == Solid(lines[n])
  {
    GrownContent(lines, n, n);
    assert lines[n..n] == [];
    NoLinesGlue();
    assert Solid("") == "";
  }

  lemma MoreContent(lines: seq<string>, before: seq<Range>, n: nat)
    requires n < |lines| && before != [] && Within(before, n) && before[|before| - 1].to == n
    ensures var grown := before[|before| - 1 := Range(before[|before| - 1].from, n + 1)];
      Within(grown, |lines|) && RangedContent(lines, grown) == RangedContent(lines, before) + Solid(lines[n])
  {
    hide RangedContent, Glue, Solid;
    var front, last := before[..|before| - 1], before[|before| - 1];
    assert before == front + [last];
    assert before[|before| - 1 := Range(last.from, n + 1)] == front + [Range(last.from, n + 1)];
    RangedAppend(lines, front, last);
    RangedAppend(lines, front, Range(last.from, n + 1));
    GrownContent(lines, last.from, n);
  }

  lemma OpenBeforeMore(marks: Marks, n: nat)
    requires n == |marks| - 1 && WellMarked(marks) && marks[n].More?
    ensures WellMarked(marks[..n]) && IsOpen(marks[..n])
  {
    assert marks[..n][n - 1] == marks[n - 1];
  }

  /** Not one symbol of a kept line is lost, added or moved, white space aside. */
  lemma {:induction false} RangesHoldKeptLines(lines: seq<string>, marks: Marks)
    requires |marks| <= |lines| && WellMarked(marks)
    ensures RangedContent(lines, Ranges(marks)) == Content(KeptLines(lines, marks))
    decreases |marks|
  {
    hide WellMarked, RangedContent, Glue, Solid, Content;
    if marks == [] {
      NothingKept(lines);
    } else {
      var n := |marks| - 1;
      Prefixes(marks, n);
      var before := Ranges(marks[..n]);
      RangesHoldKeptLines(lines, marks[..n]);
      ContentAppend(KeptLines(lines, marks[..n]), lines[n]);
      assert KeptLines(lines, marks[..n]) + [] == KeptLines(lines, marks[..n]);
      match marks[n]
      case Dropped =>
      case Start =>
        RangedAppend(lines, before, Range(n, n + 1));
        OneLineContent(lines, n);
      case More =>
        OpenBeforeMore(marks, n);
        MoreContent(lines, before, n);
    }
  }

  lemma NothingKept(lines: seq<string>)
    ensures RangedContent(lines, []) == "" == Content(KeptLines(lines, []))
  {
  }

  /** Blocks hold exactly the content of the kept lines. */
  lemma SplitKeepsContent(lines: seq<string>)
    ensures Content(TextsOf(BlocksOf(lines))) == Content(KeptLines(lines, MarksOf(KindsOf(lines))))
  {
    hide BlocksAt, Content, KeptLines, TextsOf, Ranges, WellMarked, MarksOf, KindsOf, RangedContent;
    FencesAreProtected(lines);
    BlocksHoldRanges(lines, KindsOf(lines), Ranges(MarksOf(KindsOf(lines))));
    RangesHoldKeptLines(lines, MarksOf(KindsOf(lines)));
  }

  lemma RangeHasContent(lines: seq<string>, marks: Marks, r: Range)
    requires |marks| == |lines| && StartsHaveContent(lines, marks) && IsBlock(marks, r)
    ensures Solid(Glue(lines[r.from..r.to])) != ""
  {
    hide Solid, Glue;
    GlueHasFirst(lines[r.from..r.to]);
  }

  /** A block always has content, so lines without content make no block. */
  lemma BlocksHaveContent(lines: seq<string>)
    ensures BlocksOf(lines) != [] ==> Content(TextsOf(BlocksOf(lines))) != ""
  {
    var kinds := KindsOf(lines);
    var marks := MarksOf(kinds);
    hide Content, TextsOf, Ranges, MarksOf, KindsOf, Solid, Glue, StartsHaveContent, WellMarked;
    FencesAreProtected(lines);
    var ranges := Ranges(marks);
    BlocksHoldRanges(lines, kinds, ranges);
    if ranges != [] {
      RangesAreBlocking(marks);
      ScannedStartsHaveContent(lines);
      RangeHasContent(lines, marks, ranges[|ranges| - 1]);
    }
  }
}
