/** From blocks to chunks and back: windowing every block, refining what is over a
    token limit, merging fragments, and merging similar neighbours. */
module Pieces {
  import opened Text
  import opened Markdown
  import opened Blocks
  import opened SplitBlocks
  import opened Windows

  type Piece = Block

  // ------------------------------------------------------------ whole documents

  function Lines(text: string): (lines: seq<string>)
    ensures lines != []
  {
    var nl := NextNewline(text, 0);
    if nl == |text| then [text] else [text[..nl]] + Lines(text[nl + 1..])
  }

  function Under(heading: string, texts: seq<string>): (pieces: seq<Piece>)
    ensures |pieces| == |texts|
  {
    seq(|texts|, k requires 0 <= k < |texts| => Block(texts[k], heading))
  }

  function WindowOrKeep(b: Block, size: nat, decay: Decay): seq<Piece>
    requires size >= MIN_SIZE
  {
    if |b.text| <= size then [b] else Under(b.heading, Trimmed(WindowsFrom(b.text, size, decay)))
  }

  function PiecesOf(blocks: seq<Block>, size: nat, decay: Decay): seq<Piece>
    requires size >= MIN_SIZE
  {
    if blocks == [] then []
    else PiecesOf(blocks[..|blocks| - 1], size, decay) + WindowOrKeep(blocks[|blocks| - 1], size, decay)
  }

  lemma TextsOfConcat(a: seq<Block>, b: seq<Block>)
    ensures TextsOf(a + b) == TextsOf(a) + TextsOf(b)
  {
  }

  lemma TextsUnder(heading: string, texts: seq<string>)
    ensures TextsOf(Under(heading, texts)) == texts
  {
  }

  lemma KeepsBlock(b: Block, size: nat, decay: Decay)
    requires size >= MIN_SIZE
    ensures Content(TextsOf(WindowOrKeep(b, size, decay))) == Solid(b.text)
  {
    hide Content, Trimmed, WindowsFrom;
    if |b.text| <= size {
      OneContent(b.text);
      assert TextsOf([b]) == [b.text];
    } else {
      TextsUnder(b.heading, Trimmed(WindowsFrom(b.text, size, decay)));
      WindowsKeepContent(b.text, size, decay);
    }
  }

  lemma {:induction false} PiecesKeepContent(blocks: seq<Block>, size: nat, decay: Decay)
    requires size >= MIN_SIZE
    ensures Content(TextsOf(PiecesOf(blocks, size, decay))) == Content(TextsOf(blocks))
  {
    hide Content, WindowOrKeep, TextsOf, Solid;
    if blocks == [] {
      NoTexts(size, decay);
    } else {
      var front, last := blocks[..|blocks| - 1], blocks[|blocks| - 1];
      PiecesKeepContent(front, size, decay);
      KeepsBlock(last, size, decay);
      TextsOfConcat(PiecesOf(front, size, decay), WindowOrKeep(last, size, decay));
      ContentConcat(TextsOf(PiecesOf(front, size, decay)), TextsOf(WindowOrKeep(last, size, decay)));
      assert blocks == front + [last];
      TextsOfAppend(front, last);
      ContentAppend(TextsOf(front), last.text);
    }
  }

  lemma NoTexts(size: nat, decay: Decay)
    requires size >= MIN_SIZE
    ensures TextsOf(PiecesOf([], size, decay)) == TextsOf([])
  {
  }

  /** The pieces of a normalized text; a text that yields none is cut to the size instead. */
  function ChunkOf(text: string, size: nat, decay: Decay): seq<Piece>
    requires size >= MIN_SIZE
  {
    if text == "" then []
    else
      var made := PiecesOf(BlocksOf(Lines(text)), size, decay);
      if made == [] then [Block(text[..Min(size, |text|)], "")] else made
  }

  function KeptContent(text: string): string { Content(KeptLines(Lines(text), MarksOf(KindsOf(Lines(text))))) }

  lemma PiecesKeepKeptLines(text: string, size: nat, decay: Decay)
    requires size >= MIN_SIZE
    ensures Content(TextsOf(PiecesOf(BlocksOf(Lines(text)), size, decay))) == KeptContent(text)
  {
    assert KeptContent(text) == Content(KeptLines(Lines(text), MarksOf(KindsOf(Lines(text)))));
    hide *;
    PiecesKeepContent(BlocksOf(Lines(text)), size, decay);
    SplitKeepsContent(Lines(text));
  }

  lemma NoContentNoPieces(text: string, size: nat, decay: Decay)
    requires size >= MIN_SIZE
    ensures KeptContent(text) == "" <==> PiecesOf(BlocksOf(Lines(text)), size, decay) == []
  {
    hide Content, KeptContent, PiecesOf, BlocksOf, Lines, TextsOf, WindowOrKeep;
    var blocks := BlocksOf(Lines(text));
    PiecesKeepKeptLines(text, size, decay);
    PiecesKeepContent(blocks, size, decay);
    BlocksHaveContent(Lines(text));
    NoBlocksNoPieces(size, decay);
  }

  lemma NoBlocksNoPieces(size: nat, decay: Decay)
    requires size >= MIN_SIZE
    ensures PiecesOf([], size, decay) == [] && Content(TextsOf([])) == ""
  {
  }

  /** Chunking a normalized document holds on to every symbol of its kept lines, in order and
      nothing else. When these have no content, the start of the text stands in. */
  lemma ChunkingKeepsContent(text: string, size: nat, decay: Decay)
    requires size >= MIN_SIZE
    ensures Content(TextsOf(ChunkOf(text, size, decay))) ==
      if KeptContent(text) != "" then KeptContent(text) else Solid(text[..Min(size, |text|)])
    ensures text != "" ==> ChunkOf(text, size, decay) != []
  {
    hide Content, Solid, KeptContent, PiecesOf, BlocksOf, Lines, TextsOf;
    PiecesKeepKeptLines(text, size, decay);
    NoContentNoPieces(text, size, decay);
    var start := text[..Min(size, |text|)];
    if text == "" {
      NothingToKeep();
      assert start == "";
    } else if KeptContent(text) == "" {
      OneContent(start);
      TextsOfOne(Block(start, ""));
    }
  }

  /** So a text whose kept lines have no content loses exactly what follows its start. */
  lemma OnlyTheStartIsLeft(text: string, size: nat, decay: Decay)
    requires size >= MIN_SIZE && KeptContent(text) == ""
    ensures var end := Min(size, |text|);
      && Solid(text) == Content(TextsOf(ChunkOf(text, size, decay))) + Solid(text[end..])
      && (Content(TextsOf(ChunkOf(text, size, decay))) == Solid(text) <==> Solid(text[end..]) == "")
  {
    hide Content, Solid, KeptContent, ChunkOf, TextsOf;
    var end := Min(size, |text|);
    ChunkingKeepsContent(text, size, decay);
    assert text == text[..end] + text[end..];
    SolidConcat(text[..end], text[end..]);
  }

  /** A single line without a fence that is a heading has no kept line. */
  lemma HeadingIsNotKept(line: string)
    requires NextNewline(line, 0) == |line| && FenceOpen(line) == "" && MatchAnyHeading(line).Some?
    ensures KeptContent(line) == ""
  {
    hide FenceOpen, MatchAnyHeading;
    var lines := Lines(line);
    assert lines == [line];
    var marks := MarksOf(KindsOf(lines));
    assert FenceBefore(lines, 0) == "" && marks == [Dropped];
    assert marks[..0] == [] && KeptLines(lines, marks) == [];
  }

  function LongHeading(size: nat): string { "# " + seq(size, i => 'a') }

  /** A heading longer than the size is such a text, and its end is lost. */
  lemma LongHeadingIsCut(size: nat, decay: Decay)
    requires size >= MIN_SIZE
    ensures var text := LongHeading(size);
      && KeptContent(text) == "" && ChunkOf(text, size, decay) == [Block(text[..size], "")]
      && Content(TextsOf(ChunkOf(text, size, decay))) != Solid(text)
  {
    var text := LongHeading(size);
    assert text[0] == '#' && text[1] == ' ' && forall i :: 2 <= i < |text| ==> text[i] == 'a';
    LongHeadingMatches(text);
    HeadingIsNotKept(text);
    hide KeptContent, PiecesOf, BlocksOf, Solid, Content, TextsOf;
    NoContentNoPieces(text, size, decay);
    OnlyTheStartIsLeft(text, size, decay);
    ContainsSolid(text[size..], 0);
  }

  lemma LongHeadingMatches(text: string)
    requires |text| > 2 && text[0] == '#' && text[1] == ' ' && forall i :: 2 <= i < |text| ==> text[i] == 'a'
    ensures NextNewline(text, 0) == |text| && FenceOpen(text) == "" && MatchAnyHeading(text).Some?
  {
    assert DropBlanks(text) == text;
    assert RunOf(text, '#') == 1;
    hide TrimSpace, NextNewline, RunOf, DropBlanks;
    var nl := NextNewline(text, 0);
    assert nl == |text|;
  }

  lemma {:induction false} PiecesAreShort(blocks: seq<Block>, size: nat, decay: Decay)
    requires size >= MIN_SIZE
    ensures forall p <- PiecesOf(blocks, size, decay) :: |p.text| <= size
  {
    hide WindowOrKeep;
    if blocks != [] {
      PiecesAreShort(blocks[..|blocks| - 1], size, decay);
      WindowsAreShort(blocks[|blocks| - 1], size, decay);
    }
  }

  lemma WindowsAreShort(b: Block, size: nat, decay: Decay)
    requires size >= MIN_SIZE
    ensures forall p <- WindowOrKeep(b, size, decay) :: |p.text| <= size
  {
    hide WindowsFrom, TrimSpace;
    WindowSizes(b.text, size, decay);
  }

  /** No chunk is longer than the size. */
  lemma ChunksAreShort(text: string, size: nat, decay: Decay)
    requires size >= MIN_SIZE
    ensures forall p <- ChunkOf(text, size, decay) :: |p.text| <= size
  {
    hide PiecesOf, BlocksOf, Lines;
    PiecesAreShort(BlocksOf(Lines(text)), size, decay);
  }

  lemma TextsOfOne(b: Block)
    ensures TextsOf([b]) == [b.text]
  {
  }

  lemma NothingToKeep()
    ensures KeptContent("") == "" && Content(TextsOf([])) == "" && Solid("") == ""
  {
  }

  /** The heading-aware chunker over an already normalized text. */
  method Chunk(text: string, size: nat, overlap: nat, decay: Decay) returns (pieces: seq<Piece>)
    requires size >= MIN_SIZE
    ensures pieces == ChunkOf(text, size, decay)
  {
    hide BlocksOf, WindowOrKeep;
    if text == "" {
      return [];
    }
    var blocks := Split(Lines(text));
    pieces := [];
    for i := 0 to |blocks|
      invariant pieces == PiecesOf(blocks[..i], size, decay)
    {
      var kept := KeepOrWindow(blocks[i], size, overlap, decay);
      assert blocks[..i + 1][..i] == blocks[..i];
      pieces := pieces + kept;
    }
    assert blocks[..|blocks|] == blocks;
    if pieces == [] {
      pieces := [Block(text[..Min(size, |text|)], "")];
    }
  }

  method KeepOrWindow(b: Block, size: nat, overlap: nat, decay: Decay) returns (pieces: seq<Piece>)
    requires size >= MIN_SIZE
    ensures pieces == WindowOrKeep(b, size, decay)
  {
    hide Trimmed, WindowsFrom;
    if |b.text| <= size {
      return [b];
    }
    var windows := WindowBlock(b.text, size, overlap, decay);
    pieces := [];
    for i := 0 to |windows|
      invariant pieces == Under(b.heading, windows[..i])
    {
      pieces := pieces + [Block(windows[i], b.heading)];
      assert windows[..i + 1] == windows[..i] + [windows[i]];
    }
    assert windows[..|windows|] == windows;
  }

  // ---------------------------------------------------------------- refinement

  predicate Occurs(s: string, sep: string, i: int) { 0 <= i <= |s| - |sep| && s[i..i + |sep|] == sep }

  /** The last place a separator starts, or -1. */
  function LastIndex(s: string, sep: string, from: int): (i: int)
    requires from <= |s| - |sep|
    ensures -1 <= i <= Max(from, -1) && (i >= 0 ==> Occurs(s, sep, i))
    ensures forall j :: i < j <= from ==> !Occurs(s, sep, j)
    decreases from + 1
  {
    if from < 0 then -1 else if Occurs(s, sep, from) then from else LastIndex(s, sep, from - 1)
  }

  datatype Halves = Whole | Halves(left: string, right: string)

  /** The bounds of the window around the middle in which a split may start and end. */
  function WindowLow(text: string): (lo: nat)
    ensures lo <= |text|
  {
    Max(0, |text| / 2 - Max(1, |text| / 4))
  }

  function WindowHigh(text: string): (hi: nat)
    ensures WindowLow(text) <= hi <= |text|
  {
    Min(|text|, |text| / 2 + Max(1, |text| / 4))
  }

  /** Where a separator would split, just after its last occurrence in the window. */
  function CutAfter(text: string, sep: string): (cut: int)
    requires sep != ""
    ensures cut == -1 || WindowLow(text) < cut <= WindowHigh(text)
  {
    var window := text[WindowLow(text)..WindowHigh(text)];
    var idx := LastIndex(window, sep, |window| - |sep|);
    if idx < 0 then -1 else WindowLow(text) + idx + |sep|
  }

  function SplitWith(text: string, seps: seq<string>): Halves
    requires forall k :: 0 <= k < |seps| ==> seps[k] != ""
  {
    if seps == [] then Whole
    else
      var cut := CutAfter(text, seps[0]);
      if cut == -1 then SplitWith(text, seps[1..])
      else
        var left, right := TrimSpace(text[..cut]), TrimSpace(text[cut..]);
        if left != "" && right != "" then Halves(left, right) else SplitWith(text, seps[1..])
  }

  const SHORT := 40

  /** Both halves have content, together all of it, and each is at most three quarters
      of the text. */
  predicate GoodHalves(text: string, h: Halves) {
    h.Halves? ==>
      && h.left != "" && h.right != "" && Solid(h.left) + Solid(h.right) == Solid(text)
      && 4 * |h.left| <= 3 * |text| && 4 * |h.right| <= 3 * |text|
  }

  lemma {:induction false} HalvesAreGood(text: string, seps: seq<string>)
    requires |text| >= SHORT && forall k :: 0 <= k < |seps| ==> seps[k] != ""
    ensures GoodHalves(text, SplitWith(text, seps))
    decreases |seps|
  {
    hide CutAfter, Solid, TrimSpace;
    if seps != [] {
      var cut := CutAfter(text, seps[0]);
      if cut != -1 {
        CutConserves(text, cut);
      }
      HalvesAreGood(text, seps[1..]);
    }
  }

  lemma CutConserves(text: string, cut: nat)
    requires cut <= |text|
    ensures Solid(TrimSpace(text[..cut])) + Solid(TrimSpace(text[cut..])) == Solid(text)
  {
    hide *;
    var left, right := text[..cut], text[cut..];
    SolidTrim(left);
    SolidTrim(right);
    SolidConcat(left, right);
    assert left + right == text;
  }

  /** The separators in order of preference: a blank line, the full stop, exclamation and
      question marks and the comma of Chinese and Japanese, a comma, a space. */
  function SplitAtPreferredBoundary(text: string): (h: Halves)
    ensures |text| >= SHORT ==> GoodHalves(text, h)
  {
    var seps := ["\n\n", [0x3002 as char], [0xff01 as char], [0xff1f as char], [0xff0c as char], ", ", " "];
    assert |text| >= SHORT ==> GoodHalves(text, SplitWith(text, seps)) by {
      if |text| >= SHORT {
        HalvesAreGood(text, seps);
      }
    }
    SplitWith(text, seps)
  }

  type Estimator = string -> nat

  predicate IsLeaf(text: string, limit: nat, estimate: Estimator) {
    estimate(text) <= limit || |text| < SHORT || SplitAtPreferredBoundary(text).Whole?
  }

  function Refined(text: string, limit: nat, estimate: Estimator): (pieces: seq<string>)
    decreases |text|
  {
    if IsLeaf(text, limit, estimate) then [text]
    else
      var h := SplitAtPreferredBoundary(text);
      Refined(h.left, limit, estimate) + Refined(h.right, limit, estimate)
  }

  /** Refining loses nothing. */
  lemma {:induction false} RefiningKeepsContent(text: string, limit: nat, estimate: Estimator)
    ensures Content(Refined(text, limit, estimate)) == Solid(text)
    decreases |text|
  {
    hide Content, Solid, SplitAtPreferredBoundary;
    if IsLeaf(text, limit, estimate) {
      OneContent(text);
    } else {
      var h := SplitAtPreferredBoundary(text);
      RefiningKeepsContent(h.left, limit, estimate);
      RefiningKeepsContent(h.right, limit, estimate);
      ContentConcat(Refined(h.left, limit, estimate), Refined(h.right, limit, estimate));
    }
  }

  /** Every piece is within the limit, or short, or has no boundary to split at: refining
      again changes nothing. */
  lemma {:induction false} RefinedAreLeaves(text: string, limit: nat, estimate: Estimator)
    ensures forall p <- Refined(text, limit, estimate) :: IsLeaf(p, limit, estimate)
    decreases |text|
  {
    hide SplitAtPreferredBoundary, Solid;
    if !IsLeaf(text, limit, estimate) {
      var h := SplitAtPreferredBoundary(text);
      RefinedAreLeaves(h.left, limit, estimate);
      RefinedAreLeaves(h.right, limit, estimate);
    }
  }

  /** How deep the recursion goes. */
  function Depth(text: string, limit: nat, estimate: Estimator): nat
    decreases |text|
  {
    if IsLeaf(text, limit, estimate) then 0
    else
      var h := SplitAtPreferredBoundary(text);
      1 + Max(Depth(h.left, limit, estimate), Depth(h.right, limit, estimate))
  }

  function Pow(base: nat, e: nat): nat { if e == 0 then 1 else base * Pow(base, e - 1) }

  /** The depth is logarithmic: to split d levels deep takes 40 * (4/3)^(d-1) symbols. */
  lemma {:induction false} DepthIsLogarithmic(text: string, limit: nat, estimate: Estimator)
    ensures var d := Depth(text, limit, estimate);
      d > 0 ==> SHORT * Pow(4, d - 1) <= Pow(3, d - 1) * |text|
    decreases |text|
  {
    hide SplitAtPreferredBoundary, Solid;
    if !IsLeaf(text, limit, estimate) {
      var h := SplitAtPreferredBoundary(text);
      var d := Depth(text, limit, estimate);
      var deeper := if Depth(h.left, limit, estimate) >= Depth(h.right, limit, estimate) then h.left else h.right;
      DepthIsLogarithmic(deeper, limit, estimate);
      if d > 1 {
        OneLevelUp(d - 2, |deeper|, |text|);
      }
    }
  }

  lemma OneLevelUp(e: nat, part: nat, whole: nat)
    requires SHORT * Pow(4, e) <= Pow(3, e) * part && 4 * part <= 3 * whole
    ensures SHORT * Pow(4, e + 1) <= Pow(3, e + 1) * whole
  {
    calc {
      SHORT * Pow(4, e + 1);
      4 * (SHORT * Pow(4, e));
    <=
      4 * (Pow(3, e) * part);
      Pow(3, e) * (4 * part);
    <= { MulMonotone(Pow(3, e), 4 * part, 3 * whole); }
      Pow(3, e) * (3 * whole);
      Pow(3, e + 1) * whole;
    }
  }

  lemma MulMonotone(k: nat, a: nat, b: nat)
    requires a <= b
    ensures k * a <= k * b
  {
  }

  function RefinedAll(pieces: seq<Piece>, limit: nat, estimate: Estimator): seq<Piece> {
    if pieces == [] then []
    else
      var last := pieces[|pieces| - 1];
      RefinedAll(pieces[..|pieces| - 1], limit, estimate) + Under(last.heading, Refined(last.text, limit, estimate))
  }

  lemma UnderConcat(heading: string, a: seq<string>, b: seq<string>)
    ensures Under(heading, a + b) == Under(heading, a) + Under(heading, b)
  {
  }

  lemma OneUnder(piece: Piece)
    ensures Under(piece.heading, [piece.text]) == [piece]
  {
  }

  /** The recursion that appends to the output. */
  method RefineInto(out: seq<Piece>, piece: Piece, limit: nat, estimate: Estimator) returns (extended: seq<Piece>)
    ensures extended == out + Under(piece.heading, Refined(piece.text, limit, estimate))
    decreases |piece.text|
  {
    hide SplitAtPreferredBoundary, Under, Solid;
    OneUnder(piece);
    if estimate(piece.text) <= limit || |piece.text| < SHORT {
      return out + [piece];
    }
    match SplitAtPreferredBoundary(piece.text)
    case Whole =>
      return out + [piece];
    case Halves(left, right) =>
      UnderConcat(piece.heading, Refined(left, limit, estimate), Refined(right, limit, estimate));
      extended := RefineInto(out, Block(left, piece.heading), limit, estimate);
      extended := RefineInto(extended, Block(right, piece.heading), limit, estimate);
  }

  method RefineByTokenLimit(pieces: seq<Piece>, limit: int, estimate: Estimator) returns (out: seq<Piece>)
    ensures limit <= 0 ==> out == pieces
    ensures limit > 0 ==> out == RefinedAll(pieces, limit, estimate)
  {
    if limit <= 0 {
      return pieces;
    }
    out := [];
    for i := 0 to |pieces|
      invariant out == RefinedAll(pieces[..i], limit, estimate)
    {
      out := RefineInto(out, pieces[i], limit, estimate);
      assert pieces[..i + 1][..i] == pieces[..i];
    }
    assert pieces[..|pieces|] == pieces;
  }

  /** Refining a list of pieces keeps its content. */
  lemma {:induction false} RefiningAllKeepsContent(pieces: seq<Piece>, limit: nat, estimate: Estimator)
    ensures Content(TextsOf(RefinedAll(pieces, limit, estimate))) == Content(TextsOf(pieces))
  {
    hide Content, Refined, TextsOf, Solid;
    if pieces != [] {
      var front, last := pieces[..|pieces| - 1], pieces[|pieces| - 1];
      var tail := Under(last.heading, Refined(last.text, limit, estimate));
      RefiningAllKeepsContent(front, limit, estimate);
      RefiningKeepsContent(last.text, limit, estimate);
      TextsUnder(last.heading, Refined(last.text, limit, estimate));
      TextsOfConcat(RefinedAll(front, limit, estimate), tail);
      ContentConcat(TextsOf(RefinedAll(front, limit, estimate)), TextsOf(tail));
      assert pieces == front + [last];
      TextsOfAppend(front, last);
      ContentAppend(TextsOf(front), last.text);
    }
  }
}
