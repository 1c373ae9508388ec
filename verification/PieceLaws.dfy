/** What chunking does to a text, said of the text alone: its lines, the places a long block may be
    cut, the pieces of each block, where a piece over the limit is halved, and how fragments merge. */
module PieceLaws {
  import opened Text
  import opened Markdown
  import opened Blocks
  import opened SplitBlocks
  import opened BlockLaws
  import opened Windows
  import opened Pieces
  import opened Wrappers

  // ------------------------------------------------------------------- the lines

  /** The lines of a text are its parts between the line ends. */
  lemma {:induction false} LinesAreParts(text: string)
    ensures Join(Lines(text), "\n") == text
    ensures forall l <- Lines(text) :: '\n' !in l
    decreases |text|
  {
    hide Join;
    var nl := NextNewline(text, 0);
    OnlyOne(text);
    if nl < |text| {
      var rest := text[nl + 1..];
      LinesAreParts(rest);
      JoinFirst(text[..nl], Lines(rest), "\n");
      assert text == text[..nl] + "\n" + rest;
    }
  }

  lemma OnlyOne(text: string)
    ensures Join([text], "\n") == text
  {
  }

  // ------------------------------------------------------ where a block may be cut

  /** A line of the text from min on, where the first may be the rest of one. */
  predicate IsLine(text: string, min: nat, from: int, to: int) {
    && min <= from <= to <= |text|
    && (from == min || text[from - 1] == '\n')
    && (forall i :: from <= i < to ==> text[i] != '\n')
    && (to == |text| || text[to] == '\n')
  }

  /** Digits, a full stop and a blank. */
  predicate IsNumberedItem(t: string) {
    exists n | 0 < n < |t| - 1 :: (forall i :: 0 <= i < n ==> IsDigit(t[i])) && t[n] == '.' && IsBlank(t[n + 1])
  }

  /** What a line that goes like that after its indent is worth as a place to cut at its end: by the level
      of a heading, else as a fence, a rule, or an item of a list; other lines are worth nothing. */
  ghost predicate IsWorth(t: string, score: int) {
    if exists level: Level, title: string :: IsHeadingLine(t, level, title) then
      exists level: Level, title: string ::
        IsHeadingLine(t, level, title) && score == [100, 90, 80, 70, 60, 50][level - 1]
    else if exists opener: string :: OpensFence(t, opener) then score == 80
    else if |t| >= 3 && (AllAre(t, '-') || AllAre(t, '*') || AllAre(t, '_')) then score == 60
    else score == 5 && ((|t| >= 2 && (t[0] == '-' || t[0] == '*') && t[1] == ' ') || IsNumberedItem(t))
  }

  /** A blank line is cut before the next one, for 20; another at its end, for what it is worth. */
  ghost predicate IsLineBreakAt(text: string, from: nat, to: nat, b: Break)
    requires from <= to <= |text|
  {
    var t := DropBlanks(text[from..to]);
    if t == "" then b == Break(if to < |text| then to + 1 else from, 20) else b.pos == to && IsWorth(t, b.score)
  }

  ghost predicate IsLineBreak(text: string, min: nat, b: Break) {
    exists from, to | IsLine(text, min, from, to) :: IsLineBreakAt(text, from, to, b)
  }

  predicate IsSentenceBreak(text: string, min: nat, b: Break) {
    exists i | min <= i < |text| :: text[i] in ['。', '！', '？'] && b == Break(i + 1, 8)
  }

  lemma HeadingIsWorth(t: string)
    ensures MatchHeading(t).Some? <==> exists level: Level, title: string :: IsHeadingLine(t, level, title)
    ensures forall level: Level, title: string :: IsHeadingLine(t, level, title) <==>
      MatchHeading(t).Some? && MatchHeading(t).value == Heading(level, title)
  {
    hide IsHeadingLine, MatchHeading;
    forall level: Level, title: string
      ensures IsHeadingLine(t, level, title) <==> MatchHeading(t) == Some(Heading(level, title))
    {
      HeadingMatchesIff(t, level, title);
    }
    if MatchHeading(t).Some? {
      var h := MatchHeading(t).value;
      assert IsHeadingLine(t, h.level, h.title);
    }
  }

  lemma FenceIsWorth(t: string)
    ensures FenceOpen(t) != "" <==> exists opener: string :: OpensFence(t, opener)
  {
    hide FenceOpen, OpensFence;
    NoFenceOfNothing(t);
    if FenceOpen(t) != "" {
      FenceOpensIff(t, FenceOpen(t));
    }
    forall opener | OpensFence(t, opener)
      ensures FenceOpen(t) == opener
    {
      FenceOpensIff(t, opener);
    }
  }

  lemma NoFenceOfNothing(t: string)
    ensures !OpensFence(t, "")
  {
  }

  lemma {:induction false} RunIsAll(s: string, c: char)
    ensures StripsToNothing(s, c) <==> AllAre(s, c)
  {
    if AllAre(s, c) {
      RunOfIs(s, c, |s|);
    }
  }

  lemma {:induction false} DigitRunIs(s: string, n: nat)
    requires n <= |s| && (forall i :: 0 <= i < n ==> IsDigit(s[i])) && (n < |s| ==> !IsDigit(s[n]))
    ensures DigitRun(s) == n
  {
    if n > 0 {
      DigitRunIs(s[1..], n - 1);
    }
  }

  lemma {:induction false} DigitRunHolds(s: string)
    ensures forall i :: 0 <= i < DigitRun(s) ==> IsDigit(s[i])
    ensures DigitRun(s) < |s| ==> !IsDigit(s[DigitRun(s)])
  {
    if s != "" && IsDigit(s[0]) {
      DigitRunHolds(s[1..]);
    }
  }

  lemma ItemIsWorth(t: string)
    ensures IsOrderedList(t) <==> IsNumberedItem(t)
  {
    hide DigitRun;
    DigitRunHolds(t);
    forall n | 0 < n < |t| && t[n] == '.' && forall i :: 0 <= i < n ==> IsDigit(t[i])
      ensures DigitRun(t) == n
    {
      DigitRunIs(t, n);
    }
  }

  lemma LineBreaksAre(text: string, from: nat, to: nat, b: Break)
    requires from <= to <= |text|
    ensures b in LineBreaks(from, to, text[from..to], to < |text|) <==> IsLineBreakAt(text, from, to, b)
  {
    hide DropBlanks, MatchHeading, FenceOpen, IsHeadingLine, OpensFence, StripsToNothing, AllAre, IsOrderedList,
      IsNumberedItem;
    var t := DropBlanks(text[from..to]);
    HeadingIsWorth(t);
    FenceIsWorth(t);
    RunIsAll(t, '-');
    RunIsAll(t, '*');
    RunIsAll(t, '_');
    ItemIsWorth(t);
  }

  lemma FirstLine(text: string, min: nat, to: int)
    requires min <= |text| && IsLine(text, min, min, to)
    ensures to == NextNewline(text, min)
  {
    hide NextNewline;
  }

  /** A line is the first one, or a line of what follows the first one. */
  lemma LineIsFirstOrLater(text: string, min: nat, from: int, to: int)
    requires min <= |text|
    ensures var nl := NextNewline(text, min);
      IsLine(text, min, from, to) <==>
        (from == min && to == nl) || (nl < |text| && IsLine(text, nl + 1, from, to))
  {
    hide NextNewline;
    var nl := NextNewline(text, min);
    if IsLine(text, min, from, to) && from > min {
      assert from - 1 >= nl;
    }
  }

  lemma LineBreakIsFirstOrLater(text: string, min: nat, b: Break)
    requires min <= |text|
    ensures var nl := NextNewline(text, min);
      IsLineBreak(text, min, b) <==>
        IsLineBreakAt(text, min, nl, b) || (nl < |text| && IsLineBreak(text, nl + 1, b))
  {
    hide NextNewline, IsLineBreakAt;
    var nl := NextNewline(text, min);
    if IsLineBreak(text, min, b) {
      var from, to :| IsLine(text, min, from, to) && IsLineBreakAt(text, from, to, b);
      LineIsFirstOrLater(text, min, from, to);
    }
    LineIsFirstOrLater(text, min, min, nl);
    assert IsLine(text, min, min, nl);
    if nl < |text| && IsLineBreak(text, nl + 1, b) {
      var from, to :| IsLine(text, nl + 1, from, to) && IsLineBreakAt(text, from, to, b);
      LineIsFirstOrLater(text, min, from, to);
      assert IsLine(text, min, from, to);
    }
  }

  lemma {:induction false} BreaksFromAre(text: string, min: nat, b: Break)
    requires min <= |text|
    ensures b in BreaksFrom(text, min) <==> IsLineBreak(text, min, b)
    decreases |text| - min
  {
    hide NextNewline, LineBreaks, IsLineBreakAt, IsLineBreak;
    var nl := NextNewline(text, min);
    LineBreaksAre(text, min, nl, b);
    LineBreakIsFirstOrLater(text, min, b);
    if nl < |text| {
      BreaksFromAre(text, nl + 1, b);
    }
  }

  lemma SentenceBreakIsFirstOrLater(text: string, min: nat, b: Break)
    requires min < |text|
    ensures IsSentenceBreak(text, min, b) <==>
      (text[min] in ['。', '！', '？'] && b == Break(min + 1, 8)) || IsSentenceBreak(text, min + 1, b)
  {
    if IsSentenceBreak(text, min, b) {
      var i :| min <= i < |text| && text[i] in ['。', '！', '？'] && b == Break(i + 1, 8);
    }
    if IsSentenceBreak(text, min + 1, b) {
      var i :| min + 1 <= i < |text| && text[i] in ['。', '！', '？'] && b == Break(i + 1, 8);
    }
  }

  lemma {:induction false} SentencesAre(text: string, min: nat, b: Break)
    requires min <= |text|
    ensures b in SentencesFrom(text, min) <==> IsSentenceBreak(text, min, b)
    decreases |text| - min
  {
    if min < |text| {
      SentencesAre(text, min + 1, b);
      SentenceBreakIsFirstOrLater(text, min, b);
      hide IsSentenceBreak;
    }
  }

  // ------------------------------------------------------------ which cut is taken

  predicate InOrder(breaks: seq<Break>) { forall i, j :: 0 <= i < j < |breaks| ==> breaks[i].pos <= breaks[j].pos }

  lemma InOrderTogether(a: seq<Break>, b: seq<Break>, mid: int)
    requires InOrder(a) && InOrder(b) && (forall x <- a :: x.pos <= mid) && (forall x <- b :: mid <= x.pos)
    ensures InOrder(a + b)
  {
    forall i, j | 0 <= i < j < |a + b|
      ensures (a + b)[i].pos <= (a + b)[j].pos
    {
      assert i < |a| ==> (a + b)[i] in a;
      assert j >= |a| ==> (a + b)[j] in b;
    }
  }

  lemma OneLineInOrder(text: string, from: nat, to: nat)
    requires from <= to <= |text|
    ensures var here := LineBreaks(from, to, text[from..to], to < |text|);
      InOrder(here) && forall b <- here :: from <= b.pos <= to + 1
  {
    hide DropBlanks, MatchHeading, FenceOpen, IsRule, IsOrderedList;
  }

  lemma {:induction false} LineBreaksInOrder(text: string, min: nat)
    requires min <= |text|
    ensures InOrder(BreaksFrom(text, min)) && forall b <- BreaksFrom(text, min) :: b.pos >= min
    decreases |text| - min
  {
    hide NextNewline, LineBreaks, InOrder;
    var nl := NextNewline(text, min);
    OneLineInOrder(text, min, nl);
    if nl < |text| {
      LineBreaksInOrder(text, nl + 1);
      InOrderTogether(LineBreaks(min, nl, text[min..nl], true), BreaksFrom(text, nl + 1), nl + 1);
    }
  }

  lemma {:induction false} SentencesInOrder(text: string, min: nat)
    requires min <= |text|
    ensures InOrder(SentencesFrom(text, min)) && forall b <- SentencesFrom(text, min) :: b.pos > min
    decreases |text| - min
  {
    if min < |text| {
      SentencesInOrder(text, min + 1);
    }
  }

  /** Of the breaks considered, the first of those that fade to the most. */
  lemma {:induction false} FirstBest(best: Best, breaks: seq<Break>, min: nat, end: nat, decay: Decay) returns (k: int)
    ensures var r := ConsiderAll(best, breaks, min, end, decay);
      if k < 0 then r == best && forall b <- breaks :: Eligible(b, min, end) ==> Faded(b, min, end, decay) <= best.score
      else
        && k < |breaks| && Eligible(breaks[k], min, end)
        && r == Best(breaks[k].pos, Faded(breaks[k], min, end, decay)) && r.score > best.score
        && (forall j :: 0 <= j < k && Eligible(breaks[j], min, end) ==> Faded(breaks[j], min, end, decay) < r.score)
        && (forall j :: k < j < |breaks| && Eligible(breaks[j], min, end) ==>
              Faded(breaks[j], min, end, decay) <= r.score)
    decreases |breaks|
  {
    hide Faded, Eligible;
    if breaks == [] {
      k := -1;
    } else {
      var first, rest := breaks[0], breaks[1..];
      var next := Consider(best, first, min, end, decay);
      var later := FirstBest(next, rest, min, end, decay);
      assert breaks == [first] + rest;
      k := if later >= 0 then later + 1 else if next == best then -1 else 0;
    }
  }

  /** A place inside the stretch after min where the text may be cut. */
  ghost predicate IsBreak(text: string, min: nat, b: Break) {
    (IsLineBreak(text, min, b) || IsSentenceBreak(text, min, b)) && min < b.pos <= |text|
  }

  /** Lines are looked at before sentences, and each from the start of the stretch on. */
  ghost predicate ComesFirst(text: string, min: nat, c: Break, b: Break) {
    || (IsLineBreak(text, min, c) && IsLineBreak(text, min, b) && c.pos <= b.pos)
    || (IsLineBreak(text, min, c) && IsSentenceBreak(text, min, b))
    || (IsSentenceBreak(text, min, c) && IsSentenceBreak(text, min, b) && c.pos <= b.pos)
  }

  function Fade(text: string, min: nat, b: Break, decay: Decay): real
    requires min < |text|
  {
    decay(b.score, b.pos - min, |text| - min)
  }

  ghost predicate Beats(text: string, min: nat, decay: Decay, c: Break, b: Break)
    requires min < |text|
  {
    || Fade(text, min, b, decay) < Fade(text, min, c, decay)
    || (Fade(text, min, b, decay) == Fade(text, min, c, decay) && ComesFirst(text, min, c, b))
  }

  /** The best of all breaks of the stretch, and of several the one that comes first; the end of the text
      when none of them fades to more than -1. */
  ghost predicate IsBestCut(text: string, min: nat, decay: Decay, cut: int)
    requires min < |text|
  {
    || (cut == |text| && forall b :: IsBreak(text, min, b) ==> Fade(text, min, b, decay) <= -1.0)
    || exists c :: IsBreak(text, min, c) && c.pos == cut && Fade(text, min, c, decay) > -1.0
         && forall b :: IsBreak(text, min, b) ==> Beats(text, min, decay, c, b)
  }

  lemma AllBreaksAre(text: string, min: nat, b: Break)
    requires min < |text|
    ensures b in AllBreaks(text, min) && Eligible(b, min, |text|) <==> IsBreak(text, min, b)
  {
    hide BreaksFrom, SentencesFrom, IsLineBreak, IsSentenceBreak;
    BreaksFromAre(text, min, b);
    SentencesAre(text, min, b);
  }

  lemma EarlierComesFirst(text: string, min: nat, i: int, j: int)
    requires min < |text| && 0 <= i <= j < |AllBreaks(text, min)|
    ensures ComesFirst(text, min, AllBreaks(text, min)[i], AllBreaks(text, min)[j])
  {
    hide BreaksFrom, SentencesFrom, IsLineBreak, IsSentenceBreak;
    var all, lines, sentences := AllBreaks(text, min), BreaksFrom(text, min), SentencesFrom(text, min);
    LineBreaksInOrder(text, min);
    SentencesInOrder(text, min);
    BreaksFromAre(text, min, all[i]);
    BreaksFromAre(text, min, all[j]);
    SentencesAre(text, min, all[i]);
    SentencesAre(text, min, all[j]);
    assert i < |lines| ==> all[i] == lines[i] && all[i] in lines;
    assert j < |lines| ==> all[j] == lines[j] && all[j] in lines;
    assert i >= |lines| ==> all[i] == sentences[i - |lines|] && all[i] in sentences;
    assert j >= |lines| ==> all[j] == sentences[j - |lines|] && all[j] in sentences;
  }

  lemma FoundCutIsBest(text: string, min: nat, decay: Decay)
    requires min < |text|
    ensures IsBestCut(text, min, decay, FindCut(text, min, decay))
  {
    hide AllBreaks, IsBreak, ComesFirst, ConsiderAll, Eligible;
    var all := AllBreaks(text, min);
    var k := FirstBest(Best(-1, -1.0), all, min, |text|, decay);
    forall b: Break
      ensures b in all && Eligible(b, min, |text|) <==> IsBreak(text, min, b)
    {
      AllBreaksAre(text, min, b);
    }
    if k >= 0 {
      var c := all[k];
      assert IsBreak(text, min, c);
      EligibleIsInside(c, min, |text|);
      forall b | IsBreak(text, min, b)
        ensures Beats(text, min, decay, c, b)
      {
        var j :| 0 <= j < |all| && all[j] == b;
        if j >= k {
          EarlierComesFirst(text, min, k, j);
        }
      }
    }
  }

  lemma EligibleIsInside(b: Break, min: nat, end: nat)
    requires Eligible(b, min, end)
    ensures min < b.pos <= end
  {
  }

  // -------------------------------------------------------------- whole documents

  /** The stretch is the last 22 percent of the size, rounded. */
  lemma StretchIs(size: nat)
    requires size >= MIN_SIZE
    ensures -50 <= 22 * size - 100 * (size - StretchStart(size)) < 50
  {
  }

  /** Windows of a text: one when it fits; else the first ends at the best cut of the stretch, and the
      others are the windows of the rest. */
  ghost predicate AreWindows(text: string, windows: seq<string>, size: nat, decay: Decay)
    requires size >= MIN_SIZE
    decreases |windows|
  {
    if |text| <= size then windows == if text == "" then [] else [text]
    else
      && windows != [] && windows[0] <= text
      && IsBestCut(text[..size], StretchStart(size), decay, |windows[0]|)
      && AreWindows(text[|windows[0]|..], windows[1..], size, decay)
  }

  lemma {:induction false} WindowsAre(text: string, size: nat, decay: Decay)
    requires size >= MIN_SIZE
    ensures AreWindows(text, WindowsFrom(text, size, decay), size, decay)
    decreases |text|
  {
    hide FindCut, StretchStart, IsBestCut;
    if |text| > size {
      var cut := CutOf(text, size, decay);
      FoundCutIsBest(text[..size], StretchStart(size), decay);
      WindowsAre(text[cut..], size, decay);
    }
  }

  /** The pieces of a block: itself when it fits, else its windows, trimmed, all under its heading. */
  ghost predicate ArePieces(pieces: seq<Piece>, b: Block, size: nat, decay: Decay)
    requires size >= MIN_SIZE
  {
    if |b.text| <= size then pieces == [b]
    else exists windows :: AreWindows(b.text, windows, size, decay) && |pieces| == |windows|
           && forall k :: 0 <= k < |pieces| ==> pieces[k] == Block(TrimSpace(windows[k]), b.heading)
  }

  function Flat<T>(parts: seq<seq<T>>): seq<T> {
    if parts == [] then [] else Flat(parts[..|parts| - 1]) + parts[|parts| - 1]
  }

  lemma FlatAppend<T>(parts: seq<seq<T>>, part: seq<T>)
    ensures Flat(parts + [part]) == Flat(parts) + part
  {
    assert (parts + [part])[..|parts|] == parts;
  }

  lemma BlockHasPieces(b: Block, size: nat, decay: Decay)
    requires size >= MIN_SIZE
    ensures ArePieces(WindowOrKeep(b, size, decay), b, size, decay)
  {
    hide AreWindows, WindowsFrom, TrimSpace;
    WindowsAre(b.text, size, decay);
  }

  lemma {:induction false} PiecesAre(blocks: seq<Block>, size: nat, decay: Decay) returns (parts: seq<seq<Piece>>)
    requires size >= MIN_SIZE
    ensures |parts| == |blocks| && PiecesOf(blocks, size, decay) == Flat(parts)
    ensures forall k :: 0 <= k < |blocks| ==> ArePieces(parts[k], blocks[k], size, decay)
  {
    hide ArePieces, WindowOrKeep, Flat;
    if blocks == [] {
      parts := [];
      FlatOfNone();
    } else {
      var front, last := blocks[..|blocks| - 1], blocks[|blocks| - 1];
      var earlier := PiecesAre(front, size, decay);
      BlockHasPieces(last, size, decay);
      parts := earlier + [WindowOrKeep(last, size, decay)];
      FlatAppend(earlier, WindowOrKeep(last, size, decay));
    }
  }

  lemma FlatOfNone()
    ensures Flat<Piece>([]) == []
  {
  }

  /** The chunks of a text: the pieces of its blocks, in order; its start when it has no block. */
  lemma ChunksAre(text: string, size: nat, decay: Decay) returns (parts: seq<seq<Piece>>)
    requires size >= MIN_SIZE && text != ""
    ensures var blocks := BlocksOf(Lines(text));
      if blocks == [] then ChunkOf(text, size, decay) == [Block(text[..Min(size, |text|)], "")]
      else
        && |parts| == |blocks| && ChunkOf(text, size, decay) == Flat(parts)
        && forall k :: 0 <= k < |blocks| ==> ArePieces(parts[k], blocks[k], size, decay)
  {
    hide ArePieces, Flat, BlocksOf, Lines, KeptContent, Content, TextsOf, PiecesOf;
    var blocks := BlocksOf(Lines(text));
    parts := PiecesAre(blocks, size, decay);
    BlocksHaveContent(Lines(text));
    PiecesKeepContent(blocks, size, decay);
    NoBlocksNoPieces(size, decay);
  }

  // --------------------------------------------------------- halving a long piece

  /** The separator occurs there, within a quarter of the text on either side of its middle. */
  predicate OccursNearMiddle(text: string, sep: string, i: int) {
    var reach := Max(1, |text| / 4);
    && 0 <= i && |text| / 2 - reach <= i && i + |sep| <= |text| && i + |sep| <= |text| / 2 + reach
    && text[i..i + |sep|] == sep
  }

  /** Its last occurrence there leaves something on both sides. */
  ghost predicate SplitsAfter(text: string, sep: string, i: int) {
    && OccursNearMiddle(text, sep, i) && (forall j :: j > i ==> !OccursNearMiddle(text, sep, j))
    && TrimSpace(text[..i + |sep|]) != "" && TrimSpace(text[i + |sep|..]) != ""
  }

  ghost predicate CanSplit(text: string, sep: string) { exists i :: SplitsAfter(text, sep, i) }

  ghost predicate IsSplitAfter(text: string, sep: string, h: Halves) {
    exists i :: SplitsAfter(text, sep, i) && h == Halves(TrimSpace(text[..i + |sep|]), TrimSpace(text[i + |sep|..]))
  }

  /** Halved after the first of the separators that can split the text; whole when none of them can. */
  ghost predicate IsSplitBy(text: string, seps: seq<string>, h: Halves) {
    || (h == Whole && forall k :: 0 <= k < |seps| ==> !CanSplit(text, seps[k]))
    || exists k :: 0 <= k < |seps| && IsSplitAfter(text, seps[k], h)
         && forall j :: 0 <= j < k ==> !CanSplit(text, seps[j])
  }

  lemma OccursInWindow(text: string, sep: string, lo: nat, hi: nat, j: int)
    requires lo <= hi <= |text|
    ensures Occurs(text[lo..hi], sep, j - lo) <==>
      lo <= j && j + |sep| <= hi && text[j..j + |sep|] == sep
  {
    var i := j - lo;
    if 0 <= i <= hi - lo - |sep| {
      SliceOfSlice(text, lo, hi, i, i + |sep|);
    }
  }

  lemma SliceOfSlice(s: string, lo: nat, hi: nat, a: nat, b: nat)
    requires lo <= hi <= |s| && a <= b <= hi - lo
    ensures s[lo..hi][a..b] == s[lo + a..lo + b]
  {
    var outer := s[lo..hi];
    var inner := outer[a..b];
    forall k | 0 <= k < b - a
      ensures inner[k] == s[lo + a..lo + b][k]
    {
      assert inner[k] == outer[a + k] == s[lo + (a + k)];
    }
  }

  lemma NearMiddleIsInWindow(text: string, sep: string, j: int)
    ensures OccursNearMiddle(text, sep, j) <==>
      Occurs(text[WindowLow(text)..WindowHigh(text)], sep, j - WindowLow(text))
  {
    OccursInWindow(text, sep, WindowLow(text), WindowHigh(text), j);
    hide Occurs;
  }

  lemma CutIsAfterLast(text: string, sep: string)
    requires sep != ""
    ensures CutAfter(text, sep) == -1 ==> forall j :: !OccursNearMiddle(text, sep, j)
    ensures var i := CutAfter(text, sep) - |sep|;
      CutAfter(text, sep) != -1 ==>
        OccursNearMiddle(text, sep, i) && forall j :: j > i ==> !OccursNearMiddle(text, sep, j)
  {
    hide OccursNearMiddle, WindowLow, WindowHigh;
    var lo, window := WindowLow(text), text[WindowLow(text)..WindowHigh(text)];
    var idx := LastIndex(window, sep, |window| - |sep|);
    forall j: int
      ensures OccursNearMiddle(text, sep, j) <==> Occurs(window, sep, j - lo)
    {
      NearMiddleIsInWindow(text, sep, j);
    }
    if idx >= 0 {
      assert Occurs(window, sep, lo + idx - lo);
    }
  }

  lemma CutSplits(text: string, sep: string)
    requires sep != ""
    ensures var cut := CutAfter(text, sep);
      if cut != -1 && TrimSpace(text[..cut]) != "" && TrimSpace(text[cut..]) != ""
      then IsSplitAfter(text, sep, Halves(TrimSpace(text[..cut]), TrimSpace(text[cut..])))
      else !CanSplit(text, sep)
  {
    hide TrimSpace, OccursNearMiddle;
    var cut := CutAfter(text, sep);
    CutIsAfterLast(text, sep);
    hide CutAfter;
    if cut != -1 {
      assert cut - |sep| + |sep| == cut;
      if TrimSpace(text[..cut]) != "" && TrimSpace(text[cut..]) != "" {
        assert SplitsAfter(text, sep, cut - |sep|);
      }
    }
  }

  lemma {:induction false} SplitIsBy(text: string, seps: seq<string>)
    requires forall k :: 0 <= k < |seps| ==> seps[k] != ""
    ensures IsSplitBy(text, seps, SplitWith(text, seps))
    decreases |seps|
  {
    hide CutAfter, TrimSpace, IsSplitAfter, CanSplit;
    if seps != [] {
      SplitIsBy(text, seps[1..]);
      CutSplits(text, seps[0]);
      SplitLater(text, seps, SplitWith(text, seps[1..]));
    }
  }

  lemma SplitLater(text: string, seps: seq<string>, h: Halves)
    requires seps != [] && IsSplitBy(text, seps[1..], h)
    ensures !CanSplit(text, seps[0]) ==> IsSplitBy(text, seps, h)
  {
    hide CanSplit, IsSplitAfter;
    var rest := seps[1..];
    if !(h == Whole && forall k :: 0 <= k < |rest| ==> !CanSplit(text, rest[k])) {
      var k :| 0 <= k < |rest| && IsSplitAfter(text, rest[k], h) && forall j :: 0 <= j < k ==> !CanSplit(text, rest[j]);
      assert IsSplitAfter(text, seps[k + 1], h);
    }
  }

  /** The boundaries preferred for halving, in order: blank line, the Chinese and Japanese full stop,
      exclamation mark, question mark and comma, comma and space, space. */
  lemma SplitIsPreferred(text: string)
    ensures IsSplitBy(text, ["\n\n", "。", "！", "？", "，", ", ", " "], SplitAtPreferredBoundary(text))
  {
    hide IsSplitBy, SplitWith;
    SplitIsBy(text, ["\n\n", "。", "！", "？", "，", ", ", " "]);
    assert ["\n\n", "。", "！", "？", "，", ", ", " "] ==
      ["\n\n", [0x3002 as char], [0xff01 as char], [0xff1f as char], [0xff0c as char], ", ", " "];
  }

  /** Refining: what is within the limit, shorter than 40 symbols, or has no preferred boundary stays;
      the halves of anything else are refined in turn. */
  lemma RefinesAtBoundary(text: string, limit: nat, estimate: Estimator) returns (h: Halves)
    ensures IsSplitBy(text, ["\n\n", "。", "！", "？", "，", ", ", " "], h)
    ensures Refined(text, limit, estimate) ==
      if estimate(text) <= limit || |text| < 40 || h == Whole then [text]
      else Refined(h.left, limit, estimate) + Refined(h.right, limit, estimate)
  {
    hide IsSplitBy, SplitAtPreferredBoundary;
    SplitIsPreferred(text);
    h := SplitAtPreferredBoundary(text);
  }

  /** Each piece is refined in its place, under its heading. */
  lemma {:induction false} RefinedAre(pieces: seq<Piece>, limit: nat, estimate: Estimator)
    returns (parts: seq<seq<Piece>>)
    ensures |parts| == |pieces| && RefinedAll(pieces, limit, estimate) == Flat(parts)
    ensures forall k :: 0 <= k < |pieces| ==>
      && |parts[k]| == |Refined(pieces[k].text, limit, estimate)|
      && forall i :: 0 <= i < |parts[k]| ==>
           parts[k][i] == Block(Refined(pieces[k].text, limit, estimate)[i], pieces[k].heading)
  {
    hide Refined, Flat;
    if pieces == [] {
      parts := [];
      FlatOfNone();
    } else {
      var front, last := pieces[..|pieces| - 1], pieces[|pieces| - 1];
      var earlier := RefinedAre(front, limit, estimate);
      var part := Under(last.heading, Refined(last.text, limit, estimate));
      parts := earlier + [part];
      FlatAppend(earlier, part);
    }
  }
}
