/** Bounded excerpts of a canonical chunk text: slicing, sentence snapping,
    cropping, and the binary search for the longest crop within a budget. */
module Excerpts {
  import opened Text
  import opened Tokens
  import opened Focus
  import opened Wrappers

  /** textStart and textEnd are offsets into the canonical chunk text. */
  datatype Excerpt = Excerpt(chunkId: string, index: int, heading: string, text: string,
                             textStart: int, textEnd: int, truncatedStart: bool, truncatedEnd: bool)

  datatype Mode = Head | Tail | Focused

  const BOUNDARY_SEARCH_RADIUS := 96

  function Prefix(e: Excerpt, anchor: bool): string {
    var heading := TrimSpace(e.heading);
    (if anchor then ">>> " else "") + (if heading != "" then "[" + heading + "] " else "")
  }

  function SerializeExcerpt(e: Excerpt, anchor: bool): string { Prefix(e, anchor) + e.text }

  function Cost(e: Excerpt, anchor: bool): nat { Estimate(SerializeExcerpt(e, anchor)) }

  lemma CostIsPrefixPlusText(e: Excerpt, anchor: bool)
    ensures Cost(e, anchor) == (Weight(Prefix(e, anchor)) + Weight(e.text) + 11) / 12
  {
    WeightConcat(Prefix(e, anchor), e.text);
  }

  // ---------------------------------------------------------------- slicing

  function Slice(e: Excerpt, start: int, end: int): Excerpt {
    var safeStart := Max(0, Min(|e.text|, start));
    var safeEnd := Max(safeStart, Min(|e.text|, end));
    e.(text := e.text[safeStart..safeEnd],
       textStart := e.textStart + safeStart,
       textEnd := e.textStart + safeEnd,
       truncatedStart := e.truncatedStart || safeStart > 0,
       truncatedEnd := e.truncatedEnd || safeEnd < |e.text|)
  }

  /** The excerpt is exactly what its offsets say of the canonical text, and its
      flags say exactly whether something was cut on either side. */
  predicate Faithful(e: Excerpt, canonical: string) {
    && 0 <= e.textStart <= e.textEnd <= |canonical|
    && e.text == canonical[e.textStart..e.textEnd]
    && (e.truncatedStart <==> e.textStart > 0)
    && (e.truncatedEnd <==> e.textEnd < |canonical|)
  }

  /** Slicing, with any offsets whatever, keeps an excerpt faithful. */
  lemma SliceKeepsFaithful(e: Excerpt, canonical: string, start: int, end: int)
    requires Faithful(e, canonical)
    ensures Faithful(Slice(e, start, end), canonical)
  {
    var from := Max(0, Min(|e.text|, start));
    var to := Max(from, Min(|e.text|, end));
    assert e.text[from..to] == canonical[e.textStart + from..e.textStart + to];
  }

  // ------------------------------------------------------- sentence snapping

  /** The loops test one byte at a time, so the multi-byte marks of
      SentenceBoundary decode to the replacement rune and never match. */
  predicate EndsSentence(c: char) {
    SentenceBoundary(if c as int < 0x80 then c else '\U{FFFD}')
  }

  lemma OnlyAsciiMarksEndSentences(c: char)
    ensures EndsSentence(c) <==> c in {'\n', '\r', '.', '!', '?', ';'}
  {
    if c as int >= 0x80 {
      assert !SentenceBoundary('\U{FFFD}');
    }
  }

  /** End of the sentence that the first boundary in [from, ceiling) closes, or target. */
  function EndFrom(text: string, from: nat, ceiling: int, target: int): int
    requires ceiling <= |text|
    decreases ceiling - from
  {
    if from >= ceiling then target
    else if EndsSentence(text[from]) then from + 1
    else EndFrom(text, from + 1, ceiling, target)
  }

  function SentenceEnd(text: string, target: int): int {
    EndFrom(text, Max(0, target), Min(|text|, target + BOUNDARY_SEARCH_RADIUS), target)
  }

  /** Start after the last boundary in [floor, index], or target. */
  function StartFrom(text: string, index: int, floor: nat, target: int): int
    requires index < |text|
    decreases index
  {
    if index < floor then target
    else if EndsSentence(text[index]) then index + 1
    else StartFrom(text, index - 1, floor, target)
  }

  function SentenceStart(text: string, target: int): int {
    StartFrom(text, Min(target - 1, |text| - 1), Max(0, target - BOUNDARY_SEARCH_RADIUS), target)
  }

  method FindSentenceEnd(text: string, target: int) returns (end: int)
    ensures end == SentenceEnd(text, target)
  {
    var ceiling := Min(|text|, target + BOUNDARY_SEARCH_RADIUS);
    var index := Max(0, target);
    while index < ceiling
      invariant 0 <= index
      invariant EndFrom(text, index, ceiling, target) == SentenceEnd(text, target)
    {
      if EndsSentence(text[index]) {
        return index + 1;
      }
      index := index + 1;
    }
    end := target;
  }

  method FindSentenceStart(text: string, target: int) returns (start: int)
    ensures start == SentenceStart(text, target)
  {
    var floor := Max(0, target - BOUNDARY_SEARCH_RADIUS);
    var index := Min(target - 1, |text| - 1);
    while index >= floor
      invariant index < |text|
      invariant StartFrom(text, index, floor, target) == SentenceStart(text, target)
      decreases index
    {
      if EndsSentence(text[index]) {
        return index + 1;
      }
      index := index - 1;
    }
    start := target;
  }

  /** The snapped end is the first boundary within reach, else the target. */
  lemma {:induction false} EndFromFindsFirst(text: string, from: nat, ceiling: int, target: int)
    requires ceiling <= |text|
    ensures var r := EndFrom(text, from, ceiling, target);
      || (r == target && forall i :: from <= i < ceiling ==> !EndsSentence(text[i]))
      || (from < r <= ceiling && EndsSentence(text[r - 1])
            && forall i :: from <= i < r - 1 ==> !EndsSentence(text[i]))
    decreases ceiling - from
  {
    if from < ceiling && !EndsSentence(text[from]) {
      EndFromFindsFirst(text, from + 1, ceiling, target);
    }
  }

  lemma {:induction false} StartFromFindsLast(text: string, index: int, floor: nat, target: int)
    requires index < |text|
    ensures var r := StartFrom(text, index, floor, target);
      || (r == target && forall i :: floor <= i <= index ==> !EndsSentence(text[i]))
      || (floor < r <= index + 1 && EndsSentence(text[r - 1])
            && forall i :: r <= i <= index ==> !EndsSentence(text[i]))
    decreases index
  {
    if index >= floor && !EndsSentence(text[index]) {
      StartFromFindsLast(text, index - 1, floor, target);
    }
  }

  lemma SentenceEndBounds(text: string, t: int)
    requires 0 <= t <= |text|
    ensures t <= SentenceEnd(text, t) <= |text|
  {
    EndFromFindsFirst(text, t, Min(|text|, t + BOUNDARY_SEARCH_RADIUS), t);
  }

  lemma SentenceStartBounds(text: string, t: int)
    requires 0 <= t <= |text|
    ensures 0 <= SentenceStart(text, t) <= t
  {
    StartFromFindsLast(text, Min(t - 1, |text| - 1), Max(0, t - BOUNDARY_SEARCH_RADIUS), t);
  }

  /** Snapping is monotone in the target although its search window moves along. */
  lemma SnappingIsMonotone(text: string, t: int, u: int)
    requires 0 <= t <= u <= |text|
    ensures SentenceEnd(text, t) <= SentenceEnd(text, u)
    ensures SentenceStart(text, t) <= SentenceStart(text, u)
  {
    EndFromFindsFirst(text, t, Min(|text|, t + BOUNDARY_SEARCH_RADIUS), t);
    EndFromFindsFirst(text, u, Min(|text|, u + BOUNDARY_SEARCH_RADIUS), u);
    StartFromFindsLast(text, Min(t - 1, |text| - 1), Max(0, t - BOUNDARY_SEARCH_RADIUS), t);
    StartFromFindsLast(text, Min(u - 1, |text| - 1), Max(0, u - BOUNDARY_SEARCH_RADIUS), u);
  }

  // --------------------------------------------------------------- cropping

  /** The window of the given length centred on the focus, clamped to a text of n symbols. */
  function FocusCut(n: nat, length: int, range: Span): (int, int) {
    var start := Max(0, Min(n - length, (range.start + range.end) / 2 - length / 2));
    (start, start + length)
  }

  predicate InText(range: Option<Span>, n: nat) {
    range.Some? ==> range.value.start <= range.value.end <= n
  }

  /** The [start, end) a crop of the given length keeps; range is where the focus sits. */
  function Cut(text: string, length: int, mode: Mode, range: Option<Span>): (int, int) {
    if length <= 0 then (0, 0)
    else if length >= |text| then (0, |text|)
    else match mode
      case Head => (0, SentenceEnd(text, length))
      case Tail => (SentenceStart(text, |text| - length), |text|)
      case Focused =>
        if range.None? then (0, SentenceEnd(text, length)) else FocusCut(|text|, length, range.value)
  }

  function Crop(e: Excerpt, length: int, mode: Mode, range: Option<Span>): Excerpt {
    if length > 0 && length >= |e.text| then e
    else var (start, end) := Cut(e.text, length, mode, range); Slice(e, start, end)
  }

  /** The source snaps both ends to sentences and then undoes any excess: what
      remains is exactly the centred window. */
  method CropAroundFocus(e: Excerpt, length: int, range: Span) returns (r: Excerpt)
    requires 0 < length < |e.text| && range.start <= range.end <= |e.text|
    ensures var (start, end) := FocusCut(|e.text|, length, range); r == Slice(e, start, end)
  {
    var centre := (range.start + range.end) / 2;
    var start := Max(0, Min(|e.text| - length, centre - length / 2));
    var end := Min(|e.text|, start + length);
    ghost var (from, to) := FocusCut(|e.text|, length, range);
    assert start == from && end == to;
    SentenceStartBounds(e.text, start);
    start := FindSentenceStart(e.text, start);
    if end - start > length {
      start := end - length;
    }
    assert start == from;
    SentenceEndBounds(e.text, start + length);
    end := FindSentenceEnd(e.text, Min(|e.text|, start + length));
    if end - start > length {
      end := start + length;
    }
    assert end == to;
    if end - start > length {
      var excess := end - start - length;
      var trimLeft := Min(excess, Max(0, range.start - start));
      start := start + trimLeft;
      end := end - (excess - trimLeft);
    }
    r := Slice(e, start, end);
  }

  /** The focus is located once per fit; every probe crops the same text. */
  method CropExcerpt(e: Excerpt, length: int, mode: Mode, range: Option<Span>) returns (r: Excerpt)
    requires InText(range, |e.text|)
    ensures r == Crop(e, length, mode, range)
  {
    if length <= 0 {
      return Slice(e, 0, 0);
    }
    if length >= |e.text| {
      return e;
    }
    if mode == Tail {
      var start := FindSentenceStart(e.text, |e.text| - length);
      r := Slice(e, start, |e.text|);
    } else if mode == Head || range.None? {
      var end := FindSentenceEnd(e.text, length);
      r := Slice(e, 0, end);
    } else {
      r := CropAroundFocus(e, length, range.value);
    }
  }

  /** A focus crop strictly inside the text keeps exactly length symbols and
      contains the whole focus whenever it is long enough to. */
  lemma FocusCropIsExact(n: nat, length: int, range: Span)
    requires 0 < length < n && range.start <= range.end <= n
    ensures var (start, end) := FocusCut(n, length, range);
      && 0 <= start && end == start + length <= n
      && (range.end - range.start <= length ==> start <= range.start && range.end <= end)
  {
  }

  lemma CutBounds(text: string, length: int, mode: Mode, range: Option<Span>)
    requires InText(range, |text|)
    ensures var (start, end) := Cut(text, length, mode, range); 0 <= start <= end <= |text|
  {
    if 0 < length < |text| {
      SentenceEndBounds(text, length);
      SentenceStartBounds(text, |text| - length);
      if range.Some? {
        FocusCropIsExact(|text|, length, range.value);
      }
    }
  }

  lemma FocusCutsAreNested(n: nat, length: int, longer: int, range: Span)
    requires 0 < length <= longer < n
    ensures FocusCut(n, longer, range).0 <= FocusCut(n, length, range).0
    ensures FocusCut(n, length, range).1 <= FocusCut(n, longer, range).1
  {
  }

  /** In every mode a longer crop contains a shorter one. */
  lemma CutsAreNested(text: string, length: int, longer: int, mode: Mode, range: Option<Span>)
    requires 0 <= length <= longer <= |text|
    requires InText(range, |text|)
    ensures var ((s, e), (s', e')) := (Cut(text, length, mode, range), Cut(text, longer, mode, range));
      s == e || (s' <= s && e <= e')
  {
    hide SentenceEnd, SentenceStart, FocusCut;
    CutBounds(text, length, mode, range);
    CutBounds(text, longer, mode, range);
    if 0 < length && longer < |text| {
      if mode == Focused && range.Some? {
        FocusCutsAreNested(|text|, length, longer, range.value);
      } else if mode == Tail {
        SnappingIsMonotone(text, |text| - longer, |text| - length);
      } else {
        SnappingIsMonotone(text, length, longer);
      }
    }
  }

  lemma CropKeepsFaithful(e: Excerpt, canonical: string, length: int, mode: Mode, range: Option<Span>)
    requires Faithful(e, canonical)
    ensures Faithful(Crop(e, length, mode, range), canonical)
  {
    var (start, end) := Cut(e.text, length, mode, range);
    SliceKeepsFaithful(e, canonical, start, end);
  }

  predicate SameChunk(a: Excerpt, b: Excerpt) { a.chunkId == b.chunkId && a.index == b.index }

  lemma CropText(e: Excerpt, length: int, mode: Mode, range: Option<Span>)
    requires InText(range, |e.text|)
    ensures var (start, end) := Cut(e.text, length, mode, range);
      && 0 <= start <= end <= |e.text|
      && Crop(e, length, mode, range).text == e.text[start..end]
      && Crop(e, length, mode, range).heading == e.heading
      && SameChunk(Crop(e, length, mode, range), e)
  {
    CutBounds(e.text, length, mode, range);
  }

  /** Hence the cost of a crop grows with its length. */
  lemma CropCostIsMonotone(e: Excerpt, length: int, longer: int, mode: Mode, anchor: bool, range: Option<Span>)
    requires 0 <= length <= longer <= |e.text|
    requires InText(range, |e.text|)
    ensures Cost(Crop(e, length, mode, range), anchor) <= Cost(Crop(e, longer, mode, range), anchor)
  {
    var (s, t) := Cut(e.text, length, mode, range);
    var (s', t') := Cut(e.text, longer, mode, range);
    CropText(e, length, mode, range);
    CropText(e, longer, mode, range);
    CutsAreNested(e.text, length, longer, mode, range);
    NestedWindows(e.text, s, t, s', t');
    CostIsPrefixPlusText(Crop(e, length, mode, range), anchor);
    CostIsPrefixPlusText(Crop(e, longer, mode, range), anchor);
    assert Prefix(Crop(e, length, mode, range), anchor) == Prefix(e, anchor);
    assert Prefix(Crop(e, longer, mode, range), anchor) == Prefix(e, anchor);
  }

  // ----------------------------------------------------- the longest crop

  predicate Fits(e: Excerpt, length: int, budget: int, mode: Mode, anchor: bool, range: Option<Span>) {
    Cost(Crop(e, length, mode, range), anchor) <= budget
  }

  function FitsAt(e: Excerpt, budget: int, mode: Mode, anchor: bool, range: Option<Span>): int -> bool {
    length => Fits(e, length, budget, mode, anchor, range)
  }

  /** The largest number in [0, n] that passes, by plain search; -1 if none does. */
  function Largest(passes: int -> bool, n: int): int
    decreases n
  {
    if n < 0 then -1 else if passes(n) then n else Largest(passes, n - 1)
  }

  lemma {:induction false} LargestIs(passes: int -> bool, n: int, found: int)
    requires -1 <= found <= n
    requires found >= 0 ==> passes(found)
    requires forall l :: found < l <= n ==> !passes(l)
    ensures Largest(passes, n) == found
    decreases n
  {
    if n > found {
      LargestIs(passes, n - 1, found);
    }
  }

  lemma {:induction false} LargestPasses(passes: int -> bool, n: int)
    requires n >= -1
    ensures var r := Largest(passes, n);
      -1 <= r <= n && (r >= 0 ==> passes(r)) && forall l :: r < l <= n ==> !passes(l)
    decreases n
  {
    if n >= 0 && !passes(n) {
      LargestPasses(passes, n - 1);
    }
  }

  /** The longest crop length that fits the budget; -1 when not even the empty one does. */
  function LongestFit(e: Excerpt, budget: int, mode: Mode, anchor: bool, range: Option<Span>): int {
    Largest(FitsAt(e, budget, mode, anchor, range), |e.text|)
  }

  /** A heading that alone exhausts the budget is dropped before cropping. */
  function FitSource(e: Excerpt, budget: int, anchor: bool): Excerpt {
    if e.heading != "" && Cost(Slice(e, 0, 0), anchor) >= budget then e.(heading := "") else e
  }

  function Fit(e: Excerpt, budget: int, mode: Mode, anchor: bool, range: Option<Span>): Excerpt {
    if budget <= 0 then Slice(e, 0, 0)
    else if Cost(e, anchor) <= budget then e
    else FitCropped(FitSource(e, budget, anchor), budget, mode, anchor, range)
  }

  function FitCropped(e: Excerpt, budget: int, mode: Mode, anchor: bool, range: Option<Span>): Excerpt {
    var length := LongestFit(e, budget, mode, anchor, range);
    if length < 0 then Slice(e, 0, 0) else Crop(e, length, mode, range)
  }

  method Probe(source: Excerpt, length: int, budget: int, mode: Mode, anchor: bool, range: Option<Span>)
    returns (candidate: Excerpt, fits: bool)
    requires InText(range, |source.text|)
    ensures candidate == Crop(source, length, mode, range)
    ensures fits == FitsAt(source, budget, mode, anchor, range)(length)
  {
    candidate := CropExcerpt(source, length, mode, range);
    var cost := EstimateTokens(SerializeExcerpt(candidate, anchor));
    fits := cost <= budget;
  }

  /** The source's binary search finds the longest fitting crop, in every mode. */
  method SearchLongestFit(source: Excerpt, budget: int, mode: Mode, anchor: bool, range: Option<Span>)
    returns (best: Excerpt)
    requires InText(range, |source.text|)
    ensures best == FitCropped(source, budget, mode, anchor, range)
  {
    hide Crop, Slice, Fits;
    ghost var passes := FitsAt(source, budget, mode, anchor, range);
    var low, high := 0, |source.text|;
    best := Slice(source, 0, 0);
    while low <= high
      invariant 0 <= low <= high + 1 <= |source.text| + 1
      invariant best == if low == 0 then Slice(source, 0, 0) else Crop(source, low - 1, mode, range)
      invariant low > 0 ==> passes(low - 1)
      invariant forall l :: high < l <= |source.text| ==> !passes(l)
    {
      var length := (low + high) / 2;
      var candidate, fits := Probe(source, length, budget, mode, anchor, range);
      if fits {
        best := candidate;
        low := length + 1;
      } else {
        LongerFailsToo(source, length, budget, mode, anchor, range);
        high := length - 1;
      }
    }
    LargestIs(passes, |source.text|, low - 1);
  }

  lemma LongerFailsToo(e: Excerpt, length: int, budget: int, mode: Mode, anchor: bool, range: Option<Span>)
    requires InText(range, |e.text|) && 0 <= length && !FitsAt(e, budget, mode, anchor, range)(length)
    ensures forall l :: length <= l <= |e.text| ==> !FitsAt(e, budget, mode, anchor, range)(l)
  {
    forall l | length <= l <= |e.text|
      ensures !Fits(e, l, budget, mode, anchor, range)
    {
      CropCostIsMonotone(e, length, l, mode, anchor, range);
    }
  }

  method WithoutCostlyHeading(e: Excerpt, budget: int, anchor: bool) returns (source: Excerpt)
    ensures source == FitSource(e, budget, anchor)
  {
    var empty := EstimateTokens(SerializeExcerpt(Slice(e, 0, 0), anchor));
    source := if e.heading != "" && empty >= budget then e.(heading := "") else e;
  }

  method FitExcerptBySerializedBudget(e: Excerpt, budget: int, mode: Mode, anchor: bool, focus: string)
    returns (best: Excerpt)
    ensures best == Fit(e, budget, mode, anchor, FocusSpan(e.text, focus))
  {
    hide FocusSpan, Slice, FitCropped;
    if budget <= 0 {
      return Slice(e, 0, 0);
    }
    var full := EstimateTokens(SerializeExcerpt(e, anchor));
    if full <= budget {
      return e;
    }
    var source := WithoutCostlyHeading(e, budget, anchor);
    var range := FocusRange(e.text, focus);
    FocusSpanInText(e.text, focus);
    best := SearchLongestFit(source, budget, mode, anchor, range);
  }

  lemma FitCroppedMeetsBudget(e: Excerpt, budget: int, mode: Mode, anchor: bool, range: Option<Span>)
    requires InText(range, |e.text|)
    ensures var r := FitCropped(e, budget, mode, anchor, range);
      && (r.text != "" ==> Cost(r, anchor) <= budget)
      && SameChunk(r, e) && r.heading == e.heading && |r.text| <= |e.text|
  {
    LargestPasses(FitsAt(e, budget, mode, anchor, range), |e.text|);
    CropText(e, LongestFit(e, budget, mode, anchor, range), mode, range);
  }

  /** What fitting guarantees: the result costs at most the budget unless no
      text could be kept at all, is the same chunk, and drops at most the heading. */
  lemma FitMeetsBudget(e: Excerpt, budget: int, mode: Mode, anchor: bool, range: Option<Span>)
    requires InText(range, |e.text|)
    ensures var r := Fit(e, budget, mode, anchor, range);
      && (r.text != "" ==> Cost(r, anchor) <= budget)
      && SameChunk(r, e) && (r.heading == e.heading || r.heading == "") && |r.text| <= |e.text|
  {
    hide Cost, FitCropped;
    if budget <= 0 {
      assert Slice(e, 0, 0).text == "";
    } else if Cost(e, anchor) > budget {
      FitCroppedMeetsBudget(FitSource(e, budget, anchor), budget, mode, anchor, range);
    }
  }

  lemma FitKeepsFaithful(e: Excerpt, canonical: string, budget: int, mode: Mode, anchor: bool, range: Option<Span>)
    requires Faithful(e, canonical)
    ensures Faithful(Fit(e, budget, mode, anchor, range), canonical)
  {
    hide Cost, Crop, Slice, LongestFit;
    if budget <= 0 {
      SliceKeepsFaithful(e, canonical, 0, 0);
    } else if Cost(e, anchor) > budget {
      var source := FitSource(e, budget, anchor);
      SliceKeepsFaithful(source, canonical, 0, 0);
      CropKeepsFaithful(source, canonical, LongestFit(source, budget, mode, anchor, range), mode, range);
    }
  }

  lemma LongestFitIsLongest(e: Excerpt, budget: int, mode: Mode, anchor: bool, range: Option<Span>, length: int)
    requires InText(range, |e.text|) && 0 <= length <= |e.text|
    requires Fits(e, length, budget, mode, anchor, range)
    ensures length <= LongestFit(e, budget, mode, anchor, range) <= |e.text|
    ensures Fits(e, LongestFit(e, budget, mode, anchor, range), budget, mode, anchor, range)
  {
    hide Fits, Largest;
    var passes := FitsAt(e, budget, mode, anchor, range);
    assert passes(length);
    LargestPasses(passes, |e.text|);
    assert passes(LongestFit(e, budget, mode, anchor, range));
  }

  lemma LongerCropIsLonger(e: Excerpt, length: int, longer: int, mode: Mode, range: Option<Span>)
    requires InText(range, |e.text|) && 0 <= length <= longer <= |e.text|
    ensures |Crop(e, longer, mode, range).text| >= |Crop(e, length, mode, range).text|
  {
    CutsAreNested(e.text, length, longer, mode, range);
    CropText(e, length, mode, range);
    CropText(e, longer, mode, range);
    hide Crop, Cut;
  }

  /** No longer crop fits: any fitting crop's window lies inside the kept one. */
  lemma FitIsLongest(e: Excerpt, budget: int, mode: Mode, anchor: bool, range: Option<Span>, length: int)
    requires InText(range, |e.text|) && 0 <= length <= |e.text|
    requires Fits(e, length, budget, mode, anchor, range)
    ensures Cost(FitCropped(e, budget, mode, anchor, range), anchor) <= budget
    ensures |FitCropped(e, budget, mode, anchor, range).text| >= |Crop(e, length, mode, range).text|
  {
    hide LongestFit, Crop, Cost;
    LongestFitIsLongest(e, budget, mode, anchor, range, length);
    LongerCropIsLonger(e, length, LongestFit(e, budget, mode, anchor, range), mode, range);
  }

  lemma BareAnchorIsItsMark(e: Excerpt)
    requires e.heading == "" && e.text == ""
    ensures SerializeExcerpt(e, true) == ">>> "
  {
  }

  lemma BareAnchorCostsOne(e: Excerpt)
    requires e.heading == "" && e.text == ""
    ensures Cost(e, true) == 1
  {
    hide SerializeExcerpt, Weight;
    BareAnchorIsItsMark(e);
    AsciiWeight(">>> ");
  }

  /** After the heading is dropped where it costs too much, the empty crop fits. */
  lemma EmptyCropFits(e: Excerpt, budget: int, mode: Mode, range: Option<Span>)
    requires budget >= 1
    ensures Fits(FitSource(e, budget, true), 0, budget, mode, true, range)
  {
    hide Cost, Slice;
    var source := FitSource(e, budget, true);
    EmptySlice(source);
    if source.heading == "" {
      BareAnchorCostsOne(Slice(source, 0, 0));
    }
    assert Crop(source, 0, mode, range) == Slice(source, 0, 0);
  }

  lemma EmptySlice(e: Excerpt)
    ensures Slice(e, 0, 0).text == "" && Slice(e, 0, 0).heading == e.heading
  {
  }

  /** An anchor can always be fitted: its bare mark costs one token. */
  lemma AnchorAlwaysFits(e: Excerpt, budget: int, mode: Mode, range: Option<Span>)
    requires budget >= 1 && InText(range, |e.text|)
    ensures Cost(Fit(e, budget, mode, true, range), true) <= budget
  {
    hide Cost, FitCropped, Fits;
    if Cost(e, true) > budget {
      EmptyCropFits(e, budget, mode, range);
      FitIsLongest(FitSource(e, budget, true), budget, mode, true, range, 0);
    }
  }
}
