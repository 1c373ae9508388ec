/** Splitting a document into paragraph blocks under its heading path, with code
    fences protected. */
module Blocks {
  import opened Text
  import opened Markdown

  datatype Block = Block(text: string, heading: string)

  // ------------------------------------------------------ what each line is

  datatype Kind = InFence | Opener | Title(heading: Heading) | Empty | Plain

  function KindOf(fence: string, line: string): Kind {
    if fence != "" then InFence
    else if FenceOpen(line) != "" then Opener
    else if MatchAnyHeading(line).Some? then Title(MatchAnyHeading(line).value)
    else if TrimSpace(line) == "" then Empty
    else Plain
  }

  /** The fence open after a line. */
  function FenceAfter(fence: string, line: string): string {
    if fence != "" then (if FenceClose(fence, line) then "" else fence) else FenceOpen(line)
  }

  /** The fence open before line n, if any. */
  function FenceBefore(lines: seq<string>, n: nat): string
    requires n <= |lines|
  {
    if n == 0 then "" else FenceAfter(FenceBefore(lines, n - 1), lines[n - 1])
  }

  function KindsOf(lines: seq<string>): (kinds: seq<Kind>)
    ensures |kinds| == |lines|
  {
    seq(|lines|, n requires 0 <= n < |lines| => KindOf(FenceBefore(lines, n), lines[n]))
  }

  // ------------------------------------------------------- headings in force

  /** A new title replaces its level and drops the deeper ones; gaps are blank. */
  function WithTitle(headings: seq<string>, h: Heading): (r: seq<string>)
    ensures |r| == h.level && r[h.level - 1] == h.title
    ensures forall l :: 0 <= l < h.level - 1 ==> r[l] == if l < |headings| then headings[l] else ""
  {
    seq(h.level - 1, l requires l >= 0 => if l < |headings| then headings[l] else "") + [h.title]
  }

  /** The title by level after some lines. */
  function Headings(kinds: seq<Kind>): seq<string> {
    if kinds == [] then []
    else
      var before, last := Headings(kinds[..|kinds| - 1]), kinds[|kinds| - 1];
      if last.Title? then WithTitle(before, last.heading) else before
  }

  /** Line j is the last heading of its level, and no later heading outranks it. */
  predicate Governs(kinds: seq<Kind>, j: nat, level: nat) {
    && j < |kinds| && kinds[j].Title? && kinds[j].heading.level == level
    && forall k :: j < k < |kinds| && kinds[k].Title? ==> kinds[k].heading.level > level
  }

  /** The entry at a level is the title that governs there. */
  lemma {:induction false} GoverningTitle(kinds: seq<Kind>, j: nat, level: nat)
    requires Governs(kinds, j, level)
    ensures 1 <= level <= |Headings(kinds)| && Headings(kinds)[level - 1] == kinds[j].heading.title
    decreases |kinds|
  {
    if j < |kinds| - 1 {
      GoverningTitle(kinds[..|kinds| - 1], j, level);
    }
  }

  lemma StillGoverns(kinds: seq<Kind>, j: nat, level: nat)
    requires kinds != [] && Governs(kinds[..|kinds| - 1], j, level)
    requires kinds[|kinds| - 1].Title? ==> kinds[|kinds| - 1].heading.level > level
    ensures Governs(kinds, j, level)
  {
    assert forall k :: 0 <= k < |kinds| - 1 ==> kinds[..|kinds| - 1][k] == kinds[k];
  }

  /** Where none governs, the entry is missing or blank. */
  lemma {:induction false} NoGoverningTitle(kinds: seq<Kind>, level: nat)
    requires level >= 1 && forall j: nat :: !Governs(kinds, j, level)
    ensures level > |Headings(kinds)| || Headings(kinds)[level - 1] == ""
    decreases |kinds|
  {
    if kinds != [] {
      var front, last := kinds[..|kinds| - 1], kinds[|kinds| - 1];
      if last.Title? && last.heading.level <= level {
        assert !Governs(kinds, |kinds| - 1, level);
      } else {
        forall j: nat
          ensures !Governs(front, j, level)
        {
          if Governs(front, j, level) {
            StillGoverns(kinds, j, level);
          }
        }
        NoGoverningTitle(front, level);
      }
    }
  }

  // ---------------------------------------------------- blocks as line ranges

  /** Dropped lines are the headings and blank lines outside fences. A kept line starts
      a block when it opens a fence or follows no kept line directly. */
  datatype Mark = Dropped | Start | More

  type Marks = seq<Mark>

  predicate Drops(kind: Kind) { kind.Title? || kind.Empty? }

  function MarksOf(kinds: seq<Kind>): (marks: Marks)
    ensures |marks| == |kinds|
  {
    seq(|kinds|, n requires 0 <= n < |kinds| =>
      match kinds[n]
      case Title(_) => Dropped
      case Empty => Dropped
      case Opener => Start
      case InFence => More
      case Plain => if n == 0 || Drops(kinds[n - 1]) then Start else More)
  }

  predicate WellMarked(marks: Marks) {
    forall n :: 0 <= n < |marks| && marks[n].More? ==> n > 0 && !marks[n - 1].Dropped?
  }

  /** A line inside a fence follows another one, or the line that opens it. */
  predicate FencesGoOn(kinds: seq<Kind>) {
    forall n :: 0 <= n < |kinds| && kinds[n].InFence? ==> n > 0 && (kinds[n - 1].InFence? || kinds[n - 1].Opener?)
  }

  lemma WellFencedIsWellMarked(kinds: seq<Kind>)
    requires FencesGoOn(kinds)
    ensures WellMarked(MarksOf(kinds))
  {
  }

  lemma FenceGoesOn(lines: seq<string>, n: nat)
    requires n < |lines| && FenceBefore(lines, n) != ""
    ensures n > 0 && (KindsOf(lines)[n - 1].InFence? || KindsOf(lines)[n - 1].Opener?) && KindsOf(lines)[n].InFence?
  {
    hide FenceOpen, FenceClose, MatchAnyHeading, TrimSpace;
  }

  /** Inside a fence nothing is dropped and nothing starts: blank lines and headings do
      not break a fenced block, and its opening line comes right before. */
  lemma FencesAreProtected(lines: seq<string>)
    ensures WellMarked(MarksOf(KindsOf(lines)))
    ensures forall n :: 0 <= n < |lines| && FenceBefore(lines, n) != "" ==> KindsOf(lines)[n].InFence?
  {
    hide FenceOpen, FenceAfter, MatchAnyHeading, TrimSpace, FenceBefore, MarksOf, WellMarked;
    forall n | 0 <= n < |lines| && FenceBefore(lines, n) != ""
      ensures n > 0 && (KindsOf(lines)[n - 1].InFence? || KindsOf(lines)[n - 1].Opener?) && KindsOf(lines)[n].InFence?
    {
      FenceGoesOn(lines, n);
    }
    WellFencedIsWellMarked(KindsOf(lines));
  }

  datatype Range = Range(from: nat, to: nat)

  predicate IsBlock(marks: Marks, r: Range) {
    && r.from < r.to <= |marks| && marks[r.from].Start?
    && (forall n :: r.from < n < r.to ==> marks[n].More?)
    && (r.to < |marks| ==> !marks[r.to].More?)
  }

  /** The declarative form: the ranges are in order, each is a block, and every kept
      line is in one of them. */
  predicate IsBlocking(marks: Marks, ranges: seq<Range>) {
    && (forall k :: 0 <= k < |ranges| ==> IsBlock(marks, ranges[k]))
    && (forall j, k :: 0 <= j < k < |ranges| ==> ranges[j].to <= ranges[k].from)
    && (forall n :: 0 <= n < |marks| && !marks[n].Dropped? ==> Covered(ranges, n))
  }

  predicate Covered(ranges: seq<Range>, n: nat) {
    exists k :: 0 <= k < |ranges| && ranges[k].from <= n < ranges[k].to
  }

  /** The ranges line by line; the last one grows while its lines go on. */
  function Ranges(marks: Marks): (ranges: seq<Range>)
    requires WellMarked(marks)
    ensures forall k :: 0 <= k < |ranges| ==> ranges[k].from < ranges[k].to <= |marks|
    ensures marks != [] && !marks[|marks| - 1].Dropped? ==> ranges != [] && ranges[|ranges| - 1].to == |marks|
  {
    if marks == [] then []
    else
      var n := |marks| - 1;
      var ranges := Ranges(marks[..n]);
      match marks[n]
      case Dropped => ranges
      case Start => ranges + [Range(n, n + 1)]
      case More => ranges[|ranges| - 1 := Range(ranges[|ranges| - 1].from, n + 1)]
  }

  lemma KeepBlock(marks: Marks, n: nat, r: Range)
    requires n < |marks| && IsBlock(marks[..n], r) && (r.to == n ==> !marks[n].More?)
    ensures IsBlock(marks, r)
  {
    assert forall i :: 0 <= i < n ==> marks[..n][i] == marks[i];
  }

  lemma GrowBlock(marks: Marks, n: nat, r: Range)
    requires n == |marks| - 1 && IsBlock(marks[..n], r) && r.to == n && marks[n].More?
    ensures IsBlock(marks, Range(r.from, n + 1))
  {
    assert forall i :: 0 <= i < n ==> marks[..n][i] == marks[i];
  }

  lemma AllBlocks(marks: Marks, n: nat)
    requires n == |marks| - 1 && WellMarked(marks) && WellMarked(marks[..n])
    requires IsBlocking(marks[..n], Ranges(marks[..n]))
    ensures forall k :: 0 <= k < |Ranges(marks)| ==> IsBlock(marks, Ranges(marks)[k])
  {
    hide IsBlock;
    var before, ranges := Ranges(marks[..n]), Ranges(marks);
    forall k | 0 <= k < |ranges|
      ensures IsBlock(marks, ranges[k])
    {
      if k < |before| && ranges[k] == before[k] {
        assert k < |before| - 1 ==> before[k].to <= before[|before| - 1].from < before[|before| - 1].to <= n;
        KeepBlock(marks, n, before[k]);
      } else if marks[n].More? {
        assert marks[n - 1] == marks[..n][n - 1];
        GrowBlock(marks, n, before[k]);
      } else {
        NewBlock(marks, n);
      }
    }
  }

  lemma NewBlock(marks: Marks, n: nat)
    requires n == |marks| - 1 && marks[n].Start?
    ensures IsBlock(marks, Range(n, n + 1))
  {
  }

  /** Earlier ranges only move their end, and only forward. */
  lemma RangesGrow(marks: Marks, n: nat)
    requires n == |marks| - 1 && WellMarked(marks) && WellMarked(marks[..n])
    ensures var before, ranges := Ranges(marks[..n]), Ranges(marks);
      && |before| <= |ranges|
      && (forall k :: 0 <= k < |before| ==> ranges[k].from == before[k].from && ranges[k].to >= before[k].to)
      && (!marks[n].Dropped? ==> ranges != [] && ranges[|ranges| - 1].from <= n < ranges[|ranges| - 1].to)
  {
  }

  lemma AllCovered(marks: Marks, n: nat)
    requires n == |marks| - 1 && WellMarked(marks) && WellMarked(marks[..n])
    requires IsBlocking(marks[..n], Ranges(marks[..n]))
    ensures forall i :: 0 <= i < |marks| && !marks[i].Dropped? ==> Covered(Ranges(marks), i)
  {
    hide IsBlock, Ranges, WellMarked;
    RangesGrow(marks, n);
    var before, ranges := Ranges(marks[..n]), Ranges(marks);
    forall i | 0 <= i < |marks| && !marks[i].Dropped?
      ensures Covered(ranges, i)
    {
      if i < n {
        assert marks[..n][i] == marks[i];
        var k :| 0 <= k < |before| && before[k].from <= i < before[k].to;
      } else {
        assert ranges[|ranges| - 1].from <= i < ranges[|ranges| - 1].to;
      }
    }
  }

  /** The line-by-line ranges meet the declarative form. */
  lemma {:induction false} RangesAreBlocking(marks: Marks)
    requires WellMarked(marks)
    ensures IsBlocking(marks, Ranges(marks))
  {
    hide IsBlock, Covered;
    if marks != [] {
      var n := |marks| - 1;
      assert WellMarked(marks[..n]);
      RangesAreBlocking(marks[..n]);
      AllBlocks(marks, n);
      AllCovered(marks, n);
    }
  }

  lemma SameBlock(marks: Marks, r: Range, s: Range)
    requires IsBlock(marks, r) && IsBlock(marks, s) && s.from <= r.from < s.to
    ensures r == s
  {
  }

  lemma {:induction false} SamePrefix(marks: Marks, a: seq<Range>, b: seq<Range>, n: nat)
    requires IsBlocking(marks, a) && IsBlocking(marks, b) && n <= |a|
    ensures n <= |b| && forall k :: 0 <= k < n ==> a[k] == b[k]
  {
    hide IsBlock;
    if n > 0 {
      SamePrefix(marks, a, b, n - 1);
      var k := IndexOf(marks, b, a[n - 1]);
      if k < n - 1 {
        InOrder(marks, a, k, n - 1);
      } else if k > n - 1 {
        var j := IndexOf(marks, a, b[n - 1]);
        if j < n - 1 {
          InOrder(marks, b, j, n - 1);
        } else {
          InOrder(marks, b, n - 1, k);
          if j > n - 1 {
            InOrder(marks, a, n - 1, j);
          }
        }
      }
    }
  }

  /** Any block of the marks is one of the ranges. */
  lemma IndexOf(marks: Marks, b: seq<Range>, r: Range) returns (k: nat)
    requires IsBlocking(marks, b) && IsBlock(marks, r)
    ensures k < |b| && b[k] == r
  {
    assert Covered(b, r.from);
    k :| 0 <= k < |b| && b[k].from <= r.from < b[k].to;
    SameBlock(marks, r, b[k]);
  }

  lemma InOrder(marks: Marks, a: seq<Range>, j: nat, k: nat)
    requires IsBlocking(marks, a) && j < k < |a|
    ensures a[j] != a[k] && a[j].from < a[k].from
  {
  }

  /** Only one list of ranges meets the declarative form. */
  lemma BlockingIsUnique(marks: Marks, a: seq<Range>, b: seq<Range>)
    requires IsBlocking(marks, a) && IsBlocking(marks, b)
    ensures a == b
  {
    hide IsBlocking;
    SamePrefix(marks, a, b, |a|);
    SamePrefix(marks, b, a, |b|);
  }
}
