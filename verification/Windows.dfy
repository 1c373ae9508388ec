/** Windowing one long block: each window is cut at the best scored break in its
    last stretch, whatever the scores decay to. */
module Windows {
  import opened Text
  import opened Markdown

  /** A place to cut, with its undecayed score. */
  datatype Break = Break(pos: int, score: int)

  datatype Best = Best(pos: int, score: real)

  /** How a score fades with its offset into the stretch of a given width. */
  type Decay = (int, int, nat) -> real

  // ---------------------------------------------------------- where breaks are

  function NextNewline(text: string, from: nat): (nl: nat)
    requires from <= |text|
    ensures from <= nl <= |text| && (nl < |text| ==> text[nl] == '\n')
    ensures forall i :: from <= i < nl ==> text[i] != '\n'
    decreases |text| - from
  {
    if from < |text| && text[from] != '\n' then NextNewline(text, from + 1) else from
  }

  function HeadingScore(level: nat): int { if level == 1 then 100 else 110 - 10 * level }

  /** The break a line offers: before the next line when blank, at its end when it is
      a heading, a fence, a rule or a list item. */
  function LineBreaks(from: nat, end: nat, line: string, terminated: bool): seq<Break> {
    var trimmed := DropBlanks(line);
    if trimmed == "" then [Break(if terminated then end + 1 else from, 20)]
    else if MatchHeading(trimmed).Some? then [Break(end, HeadingScore(MatchHeading(trimmed).value.level))]
    else if FenceOpen(trimmed) != "" then [Break(end, 80)]
    else if IsRule(trimmed) then [Break(end, 60)]
    else if |trimmed| >= 2 && (trimmed[0] == '-' || trimmed[0] == '*') && trimmed[1] == ' ' then [Break(end, 5)]
    else if IsOrderedList(trimmed) then [Break(end, 5)]
    else []
  }

  function BreaksFrom(text: string, from: nat): seq<Break>
    requires from <= |text|
    decreases |text| - from
  {
    var nl := NextNewline(text, from);
    var here := LineBreaks(from, nl, text[from..nl], nl < |text|);
    if nl < |text| then here + BreaksFrom(text, nl + 1) else here
  }

  predicate IsSentenceMark(c: char) { c as int == 0x3002 || c as int == 0xff01 || c as int == 0xff1f }

  function SentencesFrom(text: string, from: nat): seq<Break>
    requires from <= |text|
    decreases |text| - from
  {
    if from == |text| then []
    else (if IsSentenceMark(text[from]) then [Break(from + 1, 8)] else []) + SentencesFrom(text, from + 1)
  }

  // -------------------------------------------------------------- the best one

  predicate Eligible(b: Break, min: nat, end: nat) { min < b.pos <= end }

  function Faded(b: Break, min: nat, end: nat, decay: Decay): real {
    decay(b.score, b.pos - min, Max(1, end - min))
  }

  function Consider(best: Best, b: Break, min: nat, end: nat, decay: Decay): Best {
    if Eligible(b, min, end) && Faded(b, min, end, decay) > best.score
    then Best(b.pos, Faded(b, min, end, decay)) else best
  }

  function ConsiderAll(best: Best, breaks: seq<Break>, min: nat, end: nat, decay: Decay): Best
    decreases |breaks|
  {
    if breaks == [] then best
    else ConsiderAll(Consider(best, breaks[0], min, end, decay), breaks[1..], min, end, decay)
  }

  function AllBreaks(text: string, min: nat): seq<Break>
    requires min <= |text|
  {
    BreaksFrom(text, min) + SentencesFrom(text, min)
  }

  function FindCut(text: string, min: nat, decay: Decay): int
    requires min <= |text|
  {
    var best := ConsiderAll(Best(-1, -1.0), AllBreaks(text, min), min, |text|, decay);
    if best.pos > min then best.pos else |text|
  }

  lemma {:induction false} ConsiderAllConcat(best: Best, a: seq<Break>, b: seq<Break>, min: nat, end: nat, decay: Decay)
    ensures ConsiderAll(best, a + b, min, end, decay) ==
      ConsiderAll(ConsiderAll(best, a, min, end, decay), b, min, end, decay)
    decreases |a|
  {
    if a == [] {
      assert a + b == b;
    } else {
      assert (a + b)[1..] == a[1..] + b;
      ConsiderAllConcat(Consider(best, a[0], min, end, decay), a[1..], b, min, end, decay);
    }
  }

  /** Nothing considered fades to more than the best, which is one of them or what it was. */
  lemma {:induction false} BestIsBest(best: Best, breaks: seq<Break>, min: nat, end: nat, decay: Decay)
    ensures var r := ConsiderAll(best, breaks, min, end, decay);
      && r.score >= best.score
      && (forall b <- breaks :: Eligible(b, min, end) ==> Faded(b, min, end, decay) <= r.score)
      && (r == best ||
          exists b <- breaks ::
            Eligible(b, min, end) && b.pos == r.pos && Faded(b, min, end, decay) == r.score > best.score)
    decreases |breaks|
  {
    if breaks != [] {
      BestIsBest(Consider(best, breaks[0], min, end, decay), breaks[1..], min, end, decay);
      assert breaks == [breaks[0]] + breaks[1..];
    }
  }

  /** The cut falls strictly inside the last stretch. It is at a break that no eligible
      break outscores, or at the window's end when no break counts. */
  lemma CutIsBest(text: string, min: nat, decay: Decay)
    requires min < |text|
    ensures min < FindCut(text, min, decay) <= |text|
    ensures
      || (FindCut(text, min, decay) == |text| &&
          forall b <- AllBreaks(text, min) :: Eligible(b, min, |text|) ==> Faded(b, min, |text|, decay) <= -1.0)
      || exists c <- AllBreaks(text, min) :: Eligible(c, min, |text|) && c.pos == FindCut(text, min, decay) &&
           forall b <- AllBreaks(text, min) :: Eligible(b, min, |text|) ==>
             Faded(b, min, |text|, decay) <= Faded(c, min, |text|, decay)
  {
    hide ConsiderAll, AllBreaks, Faded;
    BestIsBest(Best(-1, -1.0), AllBreaks(text, min), min, |text|, decay);
  }

  /** The two scanning loops. */
  method ScanForCut(text: string, min: nat, decay: Decay) returns (cut: int)
    requires min <= |text|
    ensures cut == FindCut(text, min, decay)
  {
    hide LineBreaks, Faded, Consider;
    var best := Best(-1, -1.0);
    var lineStart, more := min, true;
    ghost var goal := ConsiderAll(best, BreaksFrom(text, min), min, |text|, decay);
    while more
      invariant lineStart <= |text|
      invariant (if more then ConsiderAll(best, BreaksFrom(text, lineStart), min, |text|, decay) else best) == goal
      decreases |text| - lineStart, more
    {
      var nl := NextNewline(text, lineStart);
      var here := LineBreaks(lineStart, nl, text[lineStart..nl], nl < |text|);
      ConsiderAllConcat(best, here, if nl < |text| then BreaksFrom(text, nl + 1) else [], min, |text|, decay);
      assert here + [] == here;
      best := ConsiderAll(best, here, min, |text|, decay);
      if nl == |text| {
        more := false;
      } else {
        lineStart := nl + 1;
      }
    }
    goal := ConsiderAll(best, SentencesFrom(text, min), min, |text|, decay);
    var i := min;
    while i < |text|
      invariant min <= i <= |text|
      invariant ConsiderAll(best, SentencesFrom(text, i), min, |text|, decay) == goal
    {
      if IsSentenceMark(text[i]) {
        assert SentencesFrom(text, i)[1..] == SentencesFrom(text, i + 1);
        best := Consider(best, Break(i + 1, 8), min, |text|, decay);
      } else {
        assert SentencesFrom(text, i) == SentencesFrom(text, i + 1);
      }
      i := i + 1;
    }
    ConsiderAllConcat(Best(-1, -1.0), BreaksFrom(text, min), SentencesFrom(text, min), min, |text|, decay);
    cut := if best.pos > min then best.pos else |text|;
  }

  // ------------------------------------------------------------------- windows

  const MIN_SIZE := 64

  /** Where the stretch of the last 22 percent begins. */
  function StretchStart(size: nat): (start: nat)
    requires size >= MIN_SIZE
    ensures 1 <= start < size
  {
    size - (22 * size + 50) / 100
  }

  /** Where the first window of a text longer than a window ends. */
  function CutOf(text: string, size: nat, decay: Decay): (cut: nat)
    requires size >= MIN_SIZE && |text| > size
    ensures StretchStart(size) < cut <= size
  {
    CutIsBest(text[..size], StretchStart(size), decay);
    FindCut(text[..size], StretchStart(size), decay)
  }

  /** The untrimmed windows of the rest of a block. */
  function WindowsFrom(text: string, size: nat, decay: Decay): (windows: seq<string>)
    requires size >= MIN_SIZE
    decreases |text|
  {
    if text == "" then []
    else if |text| <= size then [text]
    else
      var cut := CutOf(text, size, decay);
      [text[..cut]] + WindowsFrom(text[cut..], size, decay)
  }

  function Concat(texts: seq<string>): string { if texts == [] then "" else texts[0] + Concat(texts[1..]) }

  lemma ConcatNone()
    ensures Concat([]) == ""
  {
  }

  lemma ConcatCons(text: string, texts: seq<string>)
    ensures Concat([text] + texts) == text + Concat(texts)
  {
    assert ([text] + texts)[1..] == texts;
  }

  /** Windows tile the block: no overlap, no gap. */
  lemma {:induction false} WindowsTile(text: string, size: nat, decay: Decay)
    requires size >= MIN_SIZE
    ensures Concat(WindowsFrom(text, size, decay)) == text
    decreases |text|
  {
    hide CutOf, Concat;
    ConcatCons(text, []);
    ConcatNone();
    assert [text] + [] == [text];
    if |text| > size {
      var cut := CutOf(text, size, decay);
      ConcatCons(text[..cut], WindowsFrom(text[cut..], size, decay));
      WindowsTile(text[cut..], size, decay);
    }
  }

  /** No window is longer than the size, and all but the last are longer than what
      precedes the stretch, which bounds their number. */
  lemma {:induction false} WindowSizes(text: string, size: nat, decay: Decay)
    requires size >= MIN_SIZE
    ensures var windows := WindowsFrom(text, size, decay);
      && (forall k :: 0 <= k < |windows| ==> 0 < |windows[k]| <= size)
      && (forall k :: 0 <= k < |windows| - 1 ==> |windows[k]| > StretchStart(size))
      && (windows != [] ==> (|windows| - 1) * (StretchStart(size) + 1) < |text|)
    decreases |text|
  {
    hide CutOf, StretchStart;
    if |text| > size {
      var cut := CutOf(text, size, decay);
      WindowSizes(text[cut..], size, decay);
      var rest := WindowsFrom(text[cut..], size, decay);
      assert |rest| * (StretchStart(size) + 1) == (|rest| - 1) * (StretchStart(size) + 1) + (StretchStart(size) + 1);
    }
  }

  function Trimmed(texts: seq<string>): seq<string> { seq(|texts|, k requires 0 <= k < |texts| => TrimSpace(texts[k])) }

  lemma TrimmedCons(text: string, texts: seq<string>)
    ensures Trimmed([text] + texts) == [TrimSpace(text)] + Trimmed(texts)
  {
    hide TrimSpace;
    assert ([text] + texts)[1..] == texts;
  }

  lemma {:induction false} TrimmedContent(texts: seq<string>)
    ensures Content(Trimmed(texts)) == Solid(Concat(texts))
  {
    hide Trimmed, Content, TrimSpace, Solid;
    if texts == [] {
      NothingTrimmed();
    } else {
      var rest := texts[1..];
      TrimmedContent(rest);
      assert texts == [texts[0]] + rest;
      TrimmedCons(texts[0], rest);
      ContentConcat([TrimSpace(texts[0])], Trimmed(rest));
      OneContent(TrimSpace(texts[0]));
      SolidTrim(texts[0]);
      SolidConcat(texts[0], Concat(rest));
    }
  }

  lemma NothingTrimmed()
    ensures Content(Trimmed([])) == Solid("") == ""
  {
  }

  lemma OneContent(text: string)
    ensures Content([text]) == Solid(text)
  {
    ContentAppend([], text);
    assert [] + [text] == [text];
  }

  /** Windowing keeps every symbol that is not white space. */
  lemma WindowsKeepContent(text: string, size: nat, decay: Decay)
    requires size >= MIN_SIZE
    ensures Content(Trimmed(WindowsFrom(text, size, decay))) == Solid(text)
  {
    WindowsTile(text, size, decay);
    TrimmedContent(WindowsFrom(text, size, decay));
  }

  lemma FirstWindow(text: string, size: nat, decay: Decay)
    requires size >= MIN_SIZE && text != ""
    ensures if |text| <= size then Trimmed(WindowsFrom(text, size, decay)) == [TrimSpace(text)]
      else
        var cut := CutOf(text, size, decay);
        Trimmed(WindowsFrom(text, size, decay)) ==
          [TrimSpace(text[..cut])] + Trimmed(WindowsFrom(text[cut..], size, decay))
  {
    hide CutOf, TrimSpace;
    if |text| > size {
      var cut := CutOf(text, size, decay);
      TrimmedCons(text[..cut], WindowsFrom(text[cut..], size, decay));
    }
  }

  /** The windowing loop. The next window always starts at the cut, so the overlap
      never takes effect. */
  method WindowBlock(text: string, size: nat, overlap: nat, decay: Decay) returns (windows: seq<string>)
    requires size >= MIN_SIZE
    ensures windows == Trimmed(WindowsFrom(text, size, decay))
  {
    hide Trimmed, WindowsFrom, StretchStart, FindCut, TrimSpace;
    windows := [];
    var start := 0;
    NoWindows(size, decay);
    assert text[0..] == text;
    while start < |text|
      invariant start <= |text|
      invariant windows + Trimmed(WindowsFrom(text[start..], size, decay)) == Trimmed(WindowsFrom(text, size, decay))
    {
      var end := start + size;
      ghost var rest := text[start..];
      FirstWindow(rest, size, decay);
      if end >= |text| {
        windows := windows + [TrimSpace(text[start..])];
        return;
      }
      var window := text[start..end];
      assert rest[..size] == window;
      var cut := ScanForCut(window, StretchStart(size), decay);
      assert cut == CutOf(rest, size, decay);
      cut := Max(cut, 1);
      assert rest[cut..] == text[start + cut..] && rest[..cut] == text[start..start + cut];
      windows := windows + [TrimSpace(text[start..start + cut])];
      start := Max(cut - overlap, start + cut);
    }
    assert text[start..] == "";
  }

  lemma NoWindows(size: nat, decay: Decay)
    requires size >= MIN_SIZE
    ensures Trimmed(WindowsFrom("", size, decay)) == []
  {
  }
}
