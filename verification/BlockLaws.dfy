/** What the blocks of a document are, said of its lines: which lines are in a fence, which are
    headings, which lines make a block, and which titles its heading path names. */
module BlockLaws {
  import opened Text
  import opened Markdown
  import opened Blocks
  import opened SplitBlocks
  import opened Wrappers

  // ------------------------------------------------------------ which lines are what

  /** After its indent the line goes on with a run of that mark of exactly that length. */
  predicate StartsWithRun(line: string, indent: int, c: char, length: int) {
    && 0 <= indent && 0 < length && indent + length <= |line|
    && (forall i :: 0 <= i < indent ==> IsBlank(line[i]))
    && (forall i :: indent <= i < indent + length ==> line[i] == c)
    && (indent + length < |line| ==> line[indent + length] != c)
  }

  lemma {:induction false} RunOfIs(s: string, c: char, n: nat)
    requires n <= |s| && (forall i :: 0 <= i < n ==> s[i] == c) && (n < |s| ==> s[n] != c)
    ensures RunOf(s, c) == n
  {
    if n > 0 {
      RunOfIs(s[1..], c, n - 1);
    }
  }

  lemma RunAfterIndent(line: string, indent: int, c: char, length: int)
    requires StartsWithRun(line, indent, c, length) && !IsBlank(c)
    ensures DropBlanks(line) == line[indent..] && RunOf(line[indent..], c) == length
  {
    DropBlanksAt(line, indent);
    assert forall i :: 0 <= i < length ==> line[indent..][i] == line[indent + i];
    RunOfIs(line[indent..], c, length);
  }

  lemma LeadingRun(line: string, c: char)
    requires var t := DropBlanks(line); t != "" && t[0] == c
    ensures var t := DropBlanks(line); StartsWithRun(line, |line| - |t|, c, RunOf(t, c))
  {
    var t, n := DropBlanks(line), RunOf(DropBlanks(line), c);
    hide DropBlanks, RunOf, IsBlank;
    forall i | 0 <= i < |t|
      ensures t[i] == line[|line| - |t| + i]
    {
    }
    assert forall i :: |line| - |t| <= i < |line| - |t| + n ==> line[i] == t[i - |line| + |t|];
  }

  /** A run of three or more backticks or tildes after blanks. */
  predicate OpensFence(line: string, opener: string) {
    && |opener| >= 3 && (opener[0] == '`' || opener[0] == '~') && AllAre(opener, opener[0])
    && exists indent | 0 <= indent <= |line| :: StartsWithRun(line, indent, opener[0], |opener|)
  }

  /** A fence is opened exactly by such a run, and by all of it. */
  lemma FenceOpensIff(line: string, opener: string)
    requires opener != ""
    ensures FenceOpen(line) == opener <==> OpensFence(line, opener)
  {
    hide StartsWithRun, IsBlank, DropBlanks;
    var t := DropBlanks(line);
    if FenceOpen(line) == opener {
      LeadingRun(line, t[0]);
    }
    if OpensFence(line, opener) {
      var indent :| 0 <= indent <= |line| && StartsWithRun(line, indent, opener[0], |opener|);
      MarksAreNoBlanks();
      RunAfterIndent(line, indent, opener[0], |opener|);
      RunGivesMarks(line, indent, opener);
    }
  }

  lemma MarksAreNoBlanks()
    ensures !IsBlank('`') && !IsBlank('~') && !IsBlank('#')
  {
  }

  lemma RunGivesMarks(line: string, indent: int, opener: string)
    requires |opener| >= 3 && AllAre(opener, opener[0]) && StartsWithRun(line, indent, opener[0], |opener|)
    ensures indent >= 0 && indent + |opener| <= |line| && line[indent..][..|opener|] == opener
    ensures line[indent..][0] == opener[0]
  {
  }

  /** One to six number signs after blanks, then a blank, then the title. */
  predicate IsHeadingLine(line: string, level: int, title: string) {
    && 1 <= level <= 6
    && exists indent | 0 <= indent < |line| - level ::
         && StartsWithRun(line, indent, '#', level) && IsBlank(line[indent + level])
         && title == TrimSpace(line[indent + level..])
  }

  lemma HeadingMatchesIff(line: string, level: Level, title: string)
    ensures MatchHeading(line) == Some(Heading(level, title)) <==> IsHeadingLine(line, level, title)
  {
    hide MatchHeading, IsHeadingLine;
    if MatchHeading(line) == Some(Heading(level, title)) {
      MatchedIsHeading(line, level, title);
    }
    if IsHeadingLine(line, level, title) {
      HeadingIsMatched(line, level, title);
    }
  }

  lemma MatchedIsHeading(line: string, level: Level, title: string)
    requires MatchHeading(line) == Some(Heading(level, title))
    ensures IsHeadingLine(line, level, title)
  {
    hide StartsWithRun, DropBlanks, TrimSpace, IsBlank;
    var t := DropBlanks(line);
    var at := |line| - |t|;
    LeadingRun(line, '#');
    assert t[level] == line[at + level] && t[level..] == line[at + level..];
  }

  lemma HeadingIsMatched(line: string, level: Level, title: string)
    requires IsHeadingLine(line, level, title)
    ensures MatchHeading(line) == Some(Heading(level, title))
  {
    hide StartsWithRun, DropBlanks, TrimSpace, IsBlank, RunOf;
    var indent :| 0 <= indent < |line| - level && StartsWithRun(line, indent, '#', level)
      && IsBlank(line[indent + level]) && title == TrimSpace(line[indent + level..]);
    MarksAreNoBlanks();
    RunAfterIndent(line, indent, '#', level);
    var t := line[indent..];
    assert t[level] == line[indent + level] && t[level..] == line[indent + level..];
  }

  /** The text opens with a number of digit groups with single dots between them, and at least one dot. */
  predicate IsSectionNumber(number: string) {
    && (forall i :: 0 <= i < |number| ==> IsDigit(number[i]) || number[i] == '.')
    && '.' in number && number[|number| - 1] != '.'
    && (forall i :: 0 <= i < |number| - 1 ==> number[i] != '.' || number[i + 1] != '.')
  }

  function DotPlaces(number: string): set<int> { set i | 0 <= i < |number| && number[i] == '.' }

  /** A section number, then a blank, then something more; the level is one more than the dots, and six at most. */
  predicate IsNumberedLine(line: string, level: int, title: string) {
    var t := TrimSpace(line);
    exists n | 0 < n < |t| ::
      && IsSectionNumber(t[..n]) && IsBlank(t[n]) && TrimSpace(t[n..]) != ""
      && level == Min(6, |DotPlaces(t[..n])| + 1)
      && title == TrimSpace(t[..n] + " " + TrimSpace(t[n..]))
  }

  lemma {:induction false} DotsAppend(number: string, c: char)
    ensures Dots(number + [c]) == Dots(number) + if c == '.' then 1 else 0
  {
    if number == "" {
      assert number + [c] == [c];
    } else {
      DotsAppend(number[1..], c);
      assert (number + [c])[1..] == number[1..] + [c];
    }
  }

  lemma {:induction false} DotsAreCounted(number: string)
    ensures Dots(number) == |DotPlaces(number)|
    ensures Dots(number) > 0 <==> '.' in number
  {
    if number == "" {
      assert DotPlaces(number) == {};
    } else {
      var front, c := number[..|number| - 1], number[|number| - 1];
      assert number == front + [c];
      DotsAreCounted(front);
      DotsAppend(front, c);
      DotPlacesAppend(front, c);
      hide Dots, DotPlaces;
    }
  }

  lemma DotPlacesAppend(front: string, c: char)
    ensures DotPlaces(front + [c]) == DotPlaces(front) + if c == '.' then {|front|} else {}
    ensures |front| !in DotPlaces(front)
  {
  }

  lemma {:induction false} NumberLengthIs(s: string, n: nat)
    requires n <= |s| && (forall i :: 0 <= i < n ==> IsDigit(s[i]) || s[i] == '.')
    requires n < |s| ==> !IsDigit(s[n]) && s[n] != '.'
    ensures NumberLength(s) == n
  {
    if n > 0 {
      NumberLengthIs(s[1..], n - 1);
    }
  }

  lemma NumberedMatchesIff(line: string, level: Level, title: string)
    ensures MatchNumberedHeading(line) == Some(Heading(level, title)) <==> IsNumberedLine(line, level, title)
  {
    hide TrimSpace, Dots, DotPlaces, NumberLength, IsSectionNumber, IsDigit, IsBlank;
    var t := TrimSpace(line);
    var i := NumberLength(t);
    DotsAreCounted(t[..i]);
    SectionNumberIff(t, i);
    forall n | 0 < n < |t| && IsSectionNumber(t[..n]) && IsBlank(t[n])
      ensures n == i
    {
      NumberEnds(t, n);
    }
  }

  lemma SectionNumberIff(t: string, i: nat)
    requires i == NumberLength(t)
    ensures IsSectionNumber(t[..i]) <==>
      '.' in t[..i] && t[i - 1] != '.' && !(exists k :: 0 <= k < i - 1 && t[..i][k] == '.' && t[..i][k + 1] == '.')
  {
    hide NumberLength;
  }

  lemma NumberEnds(t: string, n: nat)
    requires n < |t| && IsSectionNumber(t[..n]) && IsBlank(t[n])
    ensures NumberLength(t) == n
  {
    hide NumberLength;
    assert forall k :: 0 <= k < n ==> t[..n][k] == t[k];
    NumberLengthIs(t, n);
  }

  // ---------------------------------------------------------- the kind of each line

  /** Line o opens a fence that no line after it, up to n, closes. */
  predicate OpenSince(lines: seq<string>, kinds: seq<Kind>, o: int, n: int)
    requires 0 <= n <= |lines| == |kinds|
  {
    && 0 <= o < n && kinds[o].Opener? && FenceOpen(lines[o]) != ""
    && forall m :: o < m < n ==> !FenceClose(FenceOpen(lines[o]), lines[m])
  }

  predicate InOpenFence(lines: seq<string>, kinds: seq<Kind>, n: int)
    requires 0 <= n <= |lines| == |kinds|
  {
    exists o | 0 <= o < n :: OpenSince(lines, kinds, o, n)
  }

  /** The rule that gives every line its kind from the line and those before it. */
  predicate HasKind(lines: seq<string>, kinds: seq<Kind>, n: int)
    requires 0 <= n < |lines| == |kinds|
  {
    if InOpenFence(lines, kinds, n) then kinds[n] == InFence
    else if FenceOpen(lines[n]) != "" then kinds[n] == Opener
    else if MatchHeading(lines[n]).Some? then kinds[n] == Title(MatchHeading(lines[n]).value)
    else if MatchNumberedHeading(lines[n]).Some? then kinds[n] == Title(MatchNumberedHeading(lines[n]).value)
    else if TrimSpace(lines[n]) == "" then kinds[n] == Empty
    else kinds[n] == Plain
  }

  lemma FenceStep(lines: seq<string>, n: nat)
    requires n < |lines|
    ensures FenceBefore(lines, n + 1) == FenceAfter(FenceBefore(lines, n), lines[n])
    ensures KindsOf(lines)[n].Opener? <==> FenceBefore(lines, n) == "" && FenceOpen(lines[n]) != ""
  {
    hide FenceAfter, FenceOpen, MatchAnyHeading, TrimSpace;
    ScanStep(lines, n);
  }

  lemma {:induction false} FenceStays(lines: seq<string>, o: nat, n: nat)
    requires n <= |lines| && OpenSince(lines, KindsOf(lines), o, n)
    ensures FenceBefore(lines, n) == FenceOpen(lines[o])
    decreases n
  {
    hide FenceOpen, FenceClose, KindsOf, FenceBefore;
    FenceStep(lines, n - 1);
    if n > o + 1 {
      FenceStays(lines, o, n - 1);
    }
  }

  lemma {:induction false} FenceHasOpener(lines: seq<string>, n: nat) returns (o: nat)
    requires n <= |lines| && FenceBefore(lines, n) != ""
    ensures OpenSince(lines, KindsOf(lines), o, n) && FenceOpen(lines[o]) == FenceBefore(lines, n)
  {
    hide FenceOpen, FenceClose, KindsOf, FenceBefore;
    if n == 0 {
      NoFenceAtFirst(lines);
    } else {
      FenceStep(lines, n - 1);
      if FenceBefore(lines, n - 1) != "" {
        o := FenceHasOpener(lines, n - 1);
      } else {
        o := n - 1;
      }
    }
  }

  lemma NoFenceAtFirst(lines: seq<string>)
    ensures FenceBefore(lines, 0) == ""
  {
  }

  lemma KindsAre(lines: seq<string>)
    ensures forall n :: 0 <= n < |lines| ==> HasKind(lines, KindsOf(lines), n)
  {
    hide FenceOpen, FenceClose, MatchHeading, MatchNumberedHeading, TrimSpace, OpenSince, FenceBefore;
    var kinds := KindsOf(lines);
    forall n | 0 <= n < |lines|
      ensures HasKind(lines, kinds, n)
    {
      if FenceBefore(lines, n) != "" {
        var o := FenceHasOpener(lines, n);
        assert o < n by { OpenedBefore(lines, kinds, o, n); }
      } else if InOpenFence(lines, kinds, n) {
        var o :| 0 <= o < n && OpenSince(lines, kinds, o, n);
        OpenedBefore(lines, kinds, o, n);
        FenceStays(lines, o, n);
      }
    }
  }

  lemma OpenedBefore(lines: seq<string>, kinds: seq<Kind>, o: int, n: int)
    requires 0 <= n <= |lines| == |kinds| && OpenSince(lines, kinds, o, n)
    ensures 0 <= o < n && FenceOpen(lines[o]) != ""
  {
  }

  lemma SameFences(lines: seq<string>, a: seq<Kind>, b: seq<Kind>, n: nat)
    requires n <= |a| == |b| == |lines| && forall o :: 0 <= o < n ==> a[o] == b[o]
    requires InOpenFence(lines, a, n)
    ensures InOpenFence(lines, b, n)
  {
    hide FenceOpen, FenceClose;
    var o :| 0 <= o < n && OpenSince(lines, a, o, n);
    assert OpenSince(lines, b, o, n);
  }

  /** The rule leaves no choice. */
  lemma {:induction false} KindsAreUnique(lines: seq<string>, a: seq<Kind>, b: seq<Kind>, n: nat)
    requires |a| == |b| == |lines| && n <= |lines|
    requires forall k :: 0 <= k < |lines| ==> HasKind(lines, a, k) && HasKind(lines, b, k)
    ensures forall k :: 0 <= k < n ==> a[k] == b[k]
  {
    hide InOpenFence, FenceOpen, FenceClose, MatchHeading, MatchNumberedHeading, TrimSpace;
    if n > 0 {
      KindsAreUnique(lines, a, b, n - 1);
      assert HasKind(lines, a, n - 1) && HasKind(lines, b, n - 1);
      if InOpenFence(lines, a, n - 1) {
        SameFences(lines, a, b, n - 1);
      }
      if InOpenFence(lines, b, n - 1) {
        SameFences(lines, b, a, n - 1);
      }
    }
  }

  // ----------------------------------------------------------- the lines of a block

  /** The lines from one to another make one block: none is a heading or, outside a fence, blank;
      only the first may open a fence; and the block begins and ends only where such a line, the
      opening of a fence, or the text does. */
  predicate IsBlockOf(kinds: seq<Kind>, from: int, to: int) {
    && 0 <= from < to <= |kinds|
    && (forall n :: from <= n < to ==> !kinds[n].Title? && !kinds[n].Empty?)
    && (forall n :: from < n < to ==> !kinds[n].Opener?)
    && (from == 0 || kinds[from].Opener? || kinds[from - 1].Title? || kinds[from - 1].Empty?)
    && (to == |kinds| || kinds[to].Opener? || kinds[to].Title? || kinds[to].Empty?)
  }

  lemma MarkOf(kinds: seq<Kind>, n: nat)
    requires n < |kinds|
    ensures MarksOf(kinds)[n].Dropped? <==> kinds[n].Title? || kinds[n].Empty?
    ensures kinds[n].InFence? ==> MarksOf(kinds)[n].More?
    ensures kinds[n].Opener? ==> MarksOf(kinds)[n].Start?
    ensures kinds[n].Plain? ==>
      (MarksOf(kinds)[n].Start? <==> n == 0 || kinds[n - 1].Title? || kinds[n - 1].Empty?)
  {
  }

  lemma MarkedBlockIsBlock(kinds: seq<Kind>, r: Range)
    requires FencesGoOn(kinds) && IsBlock(MarksOf(kinds), r)
    ensures IsBlockOf(kinds, r.from, r.to)
  {
    hide MarksOf;
    forall n | r.from < n < r.to
      ensures !kinds[n].Opener? && !kinds[n].Title? && !kinds[n].Empty?
    {
      MarkOf(kinds, n);
    }
    MarkOf(kinds, r.from);
    if r.to < |kinds| {
      MarkOf(kinds, r.to);
    }
  }

  /** Line j is a heading with a title, the last of its level, with no higher-ranking heading after it. */
  predicate Counts(kinds: seq<Kind>, j: nat) {
    && j < |kinds| && kinds[j].Title? && TrimSpace(kinds[j].heading.title) != ""
    && Governs(kinds, j, kinds[j].heading.level)
  }

  /** The lines that count, with levels up to some level, in order of their levels. */
  predicate IsPath(kinds: seq<Kind>, at: seq<nat>, deepest: nat) {
    && (forall k :: 0 <= k < |at| ==> Counts(kinds, at[k]) && kinds[at[k]].heading.level <= deepest)
    && (forall j, k :: 0 <= j < k < |at| ==> kinds[at[j]].heading.level < kinds[at[k]].heading.level)
    && (forall j :: 0 <= j < |kinds| && Counts(kinds, j) && kinds[j].heading.level <= deepest ==> j in at)
  }

  function Titles(kinds: seq<Kind>, at: seq<nat>): (titles: seq<string>)
    requires forall k :: 0 <= k < |at| ==> at[k] < |kinds| && kinds[at[k]].Title?
    ensures |titles| == |at| && forall k :: 0 <= k < |at| ==> titles[k] == kinds[at[k]].heading.title
  {
    seq(|at|, k requires 0 <= k < |at| => kinds[at[k]].heading.title)
  }

  lemma BlankTrims(s: string)
    requires TrimSpace(s) != ""
    ensures s != ""
  {
  }

  /** Some heading governs wherever an entry has a title. */
  lemma TitleIsGoverned(kinds: seq<Kind>, level: nat) returns (j: nat)
    requires 1 <= level <= |Headings(kinds)| && TrimSpace(Headings(kinds)[level - 1]) != ""
    ensures Governs(kinds, j, level) && kinds[j].heading.title == Headings(kinds)[level - 1]
  {
    hide TrimSpace, Governs, Headings;
    BlankTrims(Headings(kinds)[level - 1]);
    if forall j: nat :: !Governs(kinds, j, level) {
      NoGoverningTitle(kinds, level);
      assert false;
    }
    j :| Governs(kinds, j, level);
    GoverningTitle(kinds, j, level);
  }

  lemma GovernsOne(kinds: seq<Kind>, i: nat, j: nat, level: nat)
    requires Governs(kinds, i, level) && Governs(kinds, j, level)
    ensures i == j
  {
  }

  lemma PathGrows(kinds: seq<Kind>, front: seq<nat>, j: nat, n: nat)
    requires n > 0 && IsPath(kinds, front, n - 1) && Counts(kinds, j) && kinds[j].heading.level == n
    ensures IsPath(kinds, front + [j], n)
  {
    hide TrimSpace, Governs;
    var at := front + [j];
    forall i | 0 <= i < |kinds| && Counts(kinds, i) && kinds[i].heading.level <= n
      ensures i in at
    {
      if kinds[i].heading.level == n {
        GovernsOne(kinds, i, j, n);
      }
    }
  }

  lemma PathStays(kinds: seq<Kind>, front: seq<nat>, n: nat)
    requires 0 < n <= |Headings(kinds)| && IsPath(kinds, front, n - 1) && TrimSpace(Headings(kinds)[n - 1]) == ""
    ensures IsPath(kinds, front, n)
  {
    hide TrimSpace, Governs, Headings;
    NoTitleAt(kinds, n);
  }

  lemma PathHasTitles(kinds: seq<Kind>, at: seq<nat>, n: nat)
    requires IsPath(kinds, at, n)
    ensures forall k :: 0 <= k < |at| ==> at[k] < |kinds| && kinds[at[k]].Title?
  {
  }

  lemma HeadingPathStep(headings: seq<string>, n: nat)
    requires 0 < n <= |headings|
    ensures var front, last := HeadingPath(headings[..n - 1]), headings[n - 1];
      HeadingPath(headings[..n]) ==
        if TrimSpace(last) == "" then front else if front == "" then last else front + " > " + last
  {
    hide TrimSpace;
    assert headings[..n][..n - 1] == headings[..n - 1];
  }

  lemma {:induction false} PathUpTo(kinds: seq<Kind>, n: nat) returns (at: seq<nat>)
    requires n <= |Headings(kinds)|
    ensures IsPath(kinds, at, n) && forall k :: 0 <= k < |at| ==> at[k] < |kinds| && kinds[at[k]].Title?
    ensures HeadingPath(Headings(kinds)[..n]) == Join(Titles(kinds, at), " > ")
    ensures HeadingPath(Headings(kinds)[..n]) == "" <==> at == []
  {
    hide TrimSpace, Governs, Headings, IsPath, Join, HeadingPath, Counts;
    var all := Headings(kinds);
    if n == 0 {
      at := [];
      NoLevelZero(kinds);
    } else {
      var front := PathUpTo(kinds, n - 1);
      HeadingPathStep(all, n);
      if TrimSpace(all[n - 1]) == "" {
        at := front;
        PathStays(kinds, front, n);
      } else {
        var j := TitleIsGoverned(kinds, n);
        at := front + [j];
        LevelOf(kinds, j, n);
        TitleCounts(kinds, j, n);
        PathGrows(kinds, front, j, n);
        BlankTrims(all[n - 1]);
        JoinAppend(Titles(kinds, front), all[n - 1], " > ");
        assert Titles(kinds, at) == Titles(kinds, front) + [all[n - 1]];
      }
    }
  }

  lemma TitleCounts(kinds: seq<Kind>, j: nat, level: nat)
    requires Governs(kinds, j, level) && TrimSpace(kinds[j].heading.title) != ""
    ensures Counts(kinds, j) && kinds[j].heading.level == level
  {
    hide TrimSpace;
  }

  lemma NoLevelZero(kinds: seq<Kind>)
    ensures IsPath(kinds, [], 0) && HeadingPath(Headings(kinds)[..0]) == "" == Join(Titles(kinds, []), " > ")
  {
  }

  lemma LevelOf(kinds: seq<Kind>, j: nat, level: nat)
    requires Governs(kinds, j, level)
    ensures j < |kinds| && kinds[j].Title? && kinds[j].heading.level == level
  {
  }

  lemma NoTitleAt(kinds: seq<Kind>, level: nat)
    requires 1 <= level <= |Headings(kinds)| && TrimSpace(Headings(kinds)[level - 1]) == ""
    ensures forall i :: 0 <= i < |kinds| && Counts(kinds, i) ==> kinds[i].heading.level != level
  {
    hide TrimSpace, Governs, Headings;
    forall i | 0 <= i < |kinds| && Counts(kinds, i)
      ensures kinds[i].heading.level != level
    {
      GoverningTitle(kinds, i, kinds[i].heading.level);
    }
  }

  lemma PathIsWhole(kinds: seq<Kind>, at: seq<nat>)
    requires IsPath(kinds, at, |Headings(kinds)|)
    ensures IsPath(kinds, at, 6)
  {
    hide TrimSpace, Governs, Headings;
    forall j | 0 <= j < |kinds| && Counts(kinds, j)
      ensures j in at
    {
      GoverningTitle(kinds, j, kinds[j].heading.level);
    }
  }

  /** The titles that count before a line, joined; empty exactly when there is none. */
  ghost predicate IsHeadingPath(kinds: seq<Kind>, heading: string) {
    exists at: seq<nat> | IsPath(kinds, at, 6) ::
      && (forall k :: 0 <= k < |at| ==> at[k] < |kinds| && kinds[at[k]].Title?)
      && heading == Join(Titles(kinds, at), " > ")
      && (heading == "" <==> at == [])
  }

  lemma HeadingPathIs(kinds: seq<Kind>)
    ensures IsHeadingPath(kinds, HeadingPath(Headings(kinds)))
  {
    hide IsPath, HeadingPath, Headings, Titles;
    var all := Headings(kinds);
    var at := PathUpTo(kinds, |all|);
    assert all[..|all|] == all;
    PathIsWhole(kinds, at);
  }

  lemma {:induction false} GlueIsJoin(lines: seq<string>)
    requires lines != []
    ensures Glue(lines) == Join(lines, "\n") + "\n"
  {
    var front := lines[..|lines| - 1];
    if front == [] {
      assert Glue(front) == "" && "" + lines[0] == lines[0];
    } else {
      GlueIsJoin(front);
    }
  }

  /** The block of those lines: their text, trimmed, under the titles that count before them. */
  ghost predicate IsBlockAt(lines: seq<string>, kinds: seq<Kind>, from: int, to: int, b: Block)
    requires |lines| == |kinds|
  {
    && IsBlockOf(kinds, from, to)
    && b.text == TrimSpace(Join(lines[from..to], "\n") + "\n")
    && IsHeadingPath(kinds[..from], b.heading)
  }

  lemma {:induction false} BlocksAtIs(lines: seq<string>, kinds: seq<Kind>, ranges: seq<Range>, k: nat)
    requires Within(ranges, |lines|) && |lines| == |kinds| && k < |ranges|
    ensures BlocksAt(lines, kinds, ranges)[k] == BlockOf(lines, kinds, ranges[k])
    decreases |ranges|
  {
    hide BlockOf;
    if k < |ranges| - 1 {
      BlocksAtIs(lines, kinds, ranges[..|ranges| - 1], k);
    }
  }

  lemma BlockOfIs(lines: seq<string>, kinds: seq<Kind>, r: Range)
    requires |lines| == |kinds| && IsBlockOf(kinds, r.from, r.to)
    ensures IsBlockAt(lines, kinds, r.from, r.to, BlockOf(lines, kinds, r))
  {
    hide HeadingPath, Headings, IsHeadingPath, Glue, Join, TrimSpace;
    GlueIsJoin(lines[r.from..r.to]);
    HeadingPathIs(kinds[..r.from]);
  }

  /** Where each block of the document lies: the blocks follow one another, leave out only headings and
      blank lines outside fences, and hold their lines under the titles that count before them. */
  lemma BlocksAre(lines: seq<string>) returns (kinds: seq<Kind>, ranges: seq<Range>)
    ensures |kinds| == |lines| && forall n :: 0 <= n < |lines| ==> HasKind(lines, kinds, n)
    ensures |ranges| == |BlocksOf(lines)|
    ensures forall k :: 0 <= k < |ranges| ==>
      IsBlockAt(lines, kinds, ranges[k].from, ranges[k].to, BlocksOf(lines)[k])
    ensures forall j, k :: 0 <= j < k < |ranges| ==> ranges[j].to <= ranges[k].from
    ensures forall n :: 0 <= n < |lines| ==> Covered(ranges, n) || kinds[n].Title? || kinds[n].Empty?
  {
    hide KindsOf, HasKind, BlockOf, BlocksAt, Ranges, IsBlock, IsBlockOf, IsBlockAt, Covered, WellMarked;
    kinds := KindsOf(lines);
    var marks := MarksOf(kinds);
    KindsAre(lines);
    FencesAreProtected(lines);
    FencesDoGoOn(lines);
    ranges := Ranges(marks);
    RangesAreBlocking(marks);
    forall k | 0 <= k < |ranges|
      ensures IsBlockAt(lines, kinds, ranges[k].from, ranges[k].to, BlocksOf(lines)[k])
    {
      MarkedBlockIsBlock(kinds, ranges[k]);
      BlockOfIs(lines, kinds, ranges[k]);
      BlocksAtIs(lines, kinds, ranges, k);
    }
    hide IsBlocking;
    forall n | 0 <= n < |lines| && !kinds[n].Title? && !kinds[n].Empty?
      ensures Covered(ranges, n)
    {
      assert !marks[n].Dropped?;
      KeptIsCovered(marks, n);
    }
  }

  lemma KeptIsCovered(marks: Marks, n: nat)
    requires WellMarked(marks) && n < |marks| && !marks[n].Dropped?
    ensures Covered(Ranges(marks), n)
  {
    hide IsBlock, Covered;
    RangesAreBlocking(marks);
  }

  lemma FencesDoGoOn(lines: seq<string>)
    ensures FencesGoOn(KindsOf(lines))
  {
    hide FenceOpen, FenceAfter, MatchAnyHeading, TrimSpace, FenceBefore;
    forall n | 0 <= n < |lines| && KindsOf(lines)[n].InFence?
      ensures n > 0 && (KindsOf(lines)[n - 1].InFence? || KindsOf(lines)[n - 1].Opener?)
    {
      FenceGoesOn(lines, n);
    }
  }
}
