/** What crops and the focus search do, said of the texts alone: where a cut lands, what a
    fitted excerpt keeps of its heading, and which part of a text is the focus. */
module CropLaws {
  import opened Text
  import opened Tokens
  import opened Focus
  import opened Excerpts
  import opened Wrappers

  // ------------------------------------------------------------- where cuts land

  predicate IsMark(c: char) { c in {'\n', '\r', '.', '!', '?', ';'} }

  predicate NoMark(text: string, from: int, to: int) {
    forall i :: 0 <= i < |text| && from <= i < to ==> !IsMark(text[i])
  }

  /** end is just after the first mark of the 96 symbols from there, or there when they have none. */
  predicate ClosesSentence(text: string, from: int, end: int) {
    if NoMark(text, from, from + 96) then end == from
    else 0 <= from < end <= from + 96 && end <= |text| && IsMark(text[end - 1]) && NoMark(text, from, end - 1)
  }

  /** start is just after the last mark of the 96 symbols up to there, or there when they have none. */
  predicate OpensSentence(text: string, to: int, start: int) {
    if NoMark(text, to - 96, to) then start == to
    else Max(0, to - 96) < start <= to <= |text| && IsMark(text[start - 1]) && NoMark(text, start, to)
  }

  lemma SentenceEndIsFirst(text: string, target: int)
    requires 0 <= target <= |text|
    ensures ClosesSentence(text, target, SentenceEnd(text, target))
  {
    hide EndsSentence;
    forall c: char
      ensures EndsSentence(c) <==> IsMark(c)
    {
      OnlyAsciiMarksEndSentences(c);
    }
    EndFromFindsFirst(text, target, Min(|text|, target + BOUNDARY_SEARCH_RADIUS), target);
  }

  lemma SentenceStartIsLast(text: string, target: int)
    requires 0 <= target <= |text|
    ensures OpensSentence(text, target, SentenceStart(text, target))
  {
    hide EndsSentence;
    forall c: char
      ensures EndsSentence(c) <==> IsMark(c)
    {
      OnlyAsciiMarksEndSentences(c);
    }
    StartFromFindsLast(text, Min(target - 1, |text| - 1), Max(0, target - BOUNDARY_SEARCH_RADIUS), target);
  }

  /** The part of e that a crop to some length keeps, which is a proper part of it. */
  predicate IsCut(r: Excerpt, e: Excerpt, from: int, to: int) {
    && 0 <= from <= to <= |e.text|
    && r.text == e.text[from..to] && r.textStart == e.textStart + from && r.textEnd == e.textStart + to
    && r.chunkId == e.chunkId && r.index == e.index && r.heading == e.heading
  }

  /** A head crop keeps the opening up to the end of a sentence; so does a crop around a focus that is missing. */
  lemma HeadCropEndsSentence(e: Excerpt, length: int, mode: Mode, range: Option<Span>) returns (end: int)
    requires 0 < length < |e.text| && (mode == Head || (mode == Focused && range.None?))
    ensures ClosesSentence(e.text, length, end) && IsCut(Crop(e, length, mode, range), e, 0, end)
  {
    hide ClosesSentence, SentenceEnd;
    end := SentenceEnd(e.text, length);
    SentenceEndIsFirst(e.text, length);
    SentenceEndBounds(e.text, length);
  }

  /** A tail crop keeps the ending from the start of a sentence. */
  lemma TailCropOpensSentence(e: Excerpt, length: int, range: Option<Span>) returns (start: int)
    requires 0 < length < |e.text|
    ensures OpensSentence(e.text, |e.text| - length, start) && IsCut(Crop(e, length, Tail, range), e, start, |e.text|)
  {
    hide OpensSentence, SentenceStart;
    start := SentenceStart(e.text, |e.text| - length);
    SentenceStartIsLast(e.text, |e.text| - length);
    SentenceStartBounds(e.text, |e.text| - length);
  }

  /** A focus crop keeps that many symbols with the focus in their middle: the margins differ by one at
      most, unless the text ends on the shorter side. */
  lemma FocusCropIsCentred(e: Excerpt, length: int, range: Span) returns (start: int, end: int)
    requires 0 < length < |e.text| && range.start <= range.end <= |e.text|
    ensures end == start + length && IsCut(Crop(e, length, Focused, Some(range)), e, start, end)
    ensures start > 0 ==> end - range.end <= range.start - start + 1
    ensures end < |e.text| ==> range.start - start <= end - range.end + 1
  {
    var (from, to) := FocusCut(|e.text|, length, range);
    start, end := from, to;
  }

  lemma OtherCrops(e: Excerpt, length: int, mode: Mode, range: Option<Span>)
    ensures length <= 0 ==> IsCut(Crop(e, length, mode, range), e, 0, 0)
    ensures length > 0 && length >= |e.text| ==> Crop(e, length, mode, range) == e
  {
  }

  /** What does not fit whole loses its heading exactly when that leaves no token for the text. */
  lemma HeadingIsDroppedIff(e: Excerpt, budget: int, mode: Mode, anchor: bool, range: Option<Span>)
    requires 0 < budget < Cost(e, anchor)
    ensures var bare := Estimate((if anchor then ">>> " else "") +
                                 (if TrimSpace(e.heading) != "" then "[" + TrimSpace(e.heading) + "] " else ""));
      Fit(e, budget, mode, anchor, range).heading == if bare >= budget then "" else e.heading
  {
    hide Weight, TrimSpace, LongestFit, Cut;
    var empty := Slice(e, 0, 0);
    assert SerializeExcerpt(empty, anchor) == Prefix(e, anchor);
  }

  // ---------------------------------------------------------- where the focus is

  ghost predicate IsFirst(text: string, needle: string, i: nat) {
    OccursAt(text, needle, i) && forall j: nat :: OccursAt(text, needle, j) ==> i <= j
  }

  /** A prompt word never is the focus, nor is a single symbol. */
  ghost predicate CanBeFocus(component: string, text: string) {
    && |component| >= 2 && (exists i: nat :: OccursAt(text, component, i))
    && component !in ["请问", "什么", "如何", "怎么", "这个", "那个", "please", "what", "how", "this", "that"]
  }

  lemma UsableCanBeFocus(component: string, text: string)
    ensures Usable(component, text) <==> CanBeFocus(component, text)
  {
    hide OccursAt;
  }

  /** The first of the components that can be the focus and have the most bytes. */
  ghost predicate IsBest(components: seq<string>, text: string, k: int) {
    && 0 <= k < |components| && CanBeFocus(components[k], text)
    && (forall j :: 0 <= j < k && CanBeFocus(components[j], text) ==> Bytes(components[j]) < Bytes(components[k]))
    && (forall j :: k < j < |components| && CanBeFocus(components[j], text) ==>
          Bytes(components[j]) <= Bytes(components[k]))
  }

  lemma {:induction false} LongestIsBest(components: seq<string>, text: string, best: string) returns (k: int)
    requires forall c <- components :: Usable(c, text) <==> CanBeFocus(c, text)
    ensures var r := Longest(components, text, best);
      && (k < 0 ==> r == best && forall c <- components :: CanBeFocus(c, text) ==> Bytes(c) <= Bytes(best))
      && (k >= 0 ==> IsBest(components, text, k) && r == components[k] && Bytes(r) > Bytes(best))
  {
    hide CanBeFocus, Usable, Bytes;
    if components == [] {
      k := -1;
    } else {
      var c, rest := components[0], components[1..];
      var best' := if Bytes(c) > Bytes(best) && Usable(c, text) then c else best;
      var k' := LongestIsBest(rest, text, best');
      assert components == [c] + rest;
      if k' >= 0 {
        k := k' + 1;
        assert rest[k'] == components[k];
        forall j | 0 <= j < |components| && j != k && CanBeFocus(components[j], text)
          ensures if j < k then Bytes(components[j]) < Bytes(components[k])
            else Bytes(components[j]) <= Bytes(components[k])
        {
          assert j > 0 ==> components[j] == rest[j - 1];
        }
      } else {
        k := if best' == best then -1 else 0;
      }
    }
  }

  /** Where the focus is: nowhere if it is blank; where it first occurs, whole; else where its best
      component first occurs; else nowhere. Case does not count. */
  lemma FocusSpanIs(text: string, focus: string)
    ensures var r, t, n := FocusSpan(text, focus), Lower(text), Lower(TrimSpace(focus));
      if n == "" then r == None
      else if exists i: nat :: OccursAt(t, n, i) then
        r.Some? && IsFirst(t, n, r.value.start) && r.value.end == r.value.start + |n|
      else if exists c <- Components(n) :: CanBeFocus(c, t) then
        && r.Some?
        && exists k :: IsBest(Components(n), t, k) &&
             IsFirst(t, Components(n)[k], r.value.start) && r.value.end == r.value.start + |Components(n)[k]|
      else r == None
  {
    hide Lower, Components, TrimSpace, OccursAt, Usable, CanBeFocus;
    var t, n := Lower(text), Lower(TrimSpace(focus));
    forall c: string
      ensures Usable(c, t) <==> CanBeFocus(c, t)
    {
      UsableCanBeFocus(c, t);
    }
    var k := LongestIsBest(Components(n), t, "");
    FocusIsFound(t, Components(n), k);
  }

  lemma FocusIsFound(t: string, components: seq<string>, k: int)
    requires k >= 0 ==> IsBest(components, t, k)
    requires k < 0 ==> forall c <- components :: CanBeFocus(c, t) ==> Bytes(c) <= Bytes("")
    ensures k >= 0 ==> Find(t, components[k]).Some? && components[k] != ""
    ensures k < 0 ==> forall c <- components :: !CanBeFocus(c, t)
  {
  }

  // -------------------------------------------------------- what its components are

  predicate IsBlank(c: char) { c == ' ' || c == '\t' }

  /** s[i..j] is a blank-separated word of s. */
  predicate IsWord(s: string, i: int, j: int) {
    && 0 <= i < j <= |s| && (forall k :: i <= k < j ==> !IsBlank(s[k]))
    && (i == 0 || IsBlank(s[i - 1])) && (j == |s| || IsBlank(s[j]))
  }

  predicate Covers(words: seq<string>, starts: seq<int>, i: int)
    requires |starts| == |words|
  {
    exists k :: 0 <= k < |words| && starts[k] <= i < starts[k] + |words[k]|
  }

  /** These are all the words of s[from..], in order, starting at these places. */
  predicate AreWords(s: string, from: nat, words: seq<string>, starts: seq<int>) {
    && |starts| == |words|
    && (forall k :: 0 <= k < |words| ==>
          from <= starts[k] && IsWord(s, starts[k], starts[k] + |words[k]|)
          && words[k] == s[starts[k]..starts[k] + |words[k]|])
    && (forall j, k :: 0 <= j < k < |words| ==> starts[j] < starts[k])
    && (forall i :: from <= i < |s| && !IsBlank(s[i]) ==> Covers(words, starts, i))
  }

  lemma CoversMore(word: string, start: int, words: seq<string>, starts: seq<int>, i: int)
    requires |starts| == |words| && (start <= i < start + |word| || Covers(words, starts, i))
    ensures Covers([word] + words, [start] + starts, i)
  {
    if start <= i < start + |word| {
      assert ([start] + starts)[0] <= i < ([start] + starts)[0] + |([word] + words)[0]|;
    } else {
      var k :| 0 <= k < |words| && starts[k] <= i < starts[k] + |words[k]|;
      assert ([start] + starts)[k + 1] <= i < ([start] + starts)[k + 1] + |([word] + words)[k + 1]|;
    }
  }

  /** The pending word, if any, comes first, wherever the rest starts. */
  lemma AfterPending(s: string, from: nat, at: nat, to: nat, words: seq<string>, starts: seq<int>)
    requires from <= at <= to <= |s| && AreWords(s, to, words, starts)
    requires (from < at ==> IsWord(s, from, at)) && forall i :: at <= i < to ==> IsBlank(s[i])
    ensures if from < at then AreWords(s, from, [s[from..at]] + words, [from] + starts)
            else AreWords(s, from, words, starts)
  {
    hide IsWord, Covers;
    if from < at {
      var word := s[from..at];
      forall i | from <= i < |s| && !IsBlank(s[i])
        ensures Covers([word] + words, [from] + starts, i)
      {
        CoversMore(word, from, words, starts, i);
      }
    }
  }

  lemma {:induction false} WordsFrom(s: string, from: nat, at: nat) returns (starts: seq<int>)
    requires from <= at <= |s| && (from == 0 || IsBlank(s[from - 1])) && forall i :: from <= i < at ==> !IsBlank(s[i])
    ensures AreWords(s, from, Words(s[at..], s[from..at]), starts)
    decreases |s| - at
  {
    hide AreWords;
    if at == |s| {
      NoWordsLeft(s);
      AfterPending(s, from, at, at, [], []);
      starts := if from < at then [from] else [];
      assert [s[from..at]] + [] == [s[from..at]] && [from] + [] == [from];
    } else {
      assert s[at..][0] == s[at] && s[at..][1..] == s[at + 1..];
      if IsBlank(s[at]) {
        assert s[at + 1..at + 1] == "";
        var rest := WordsFrom(s, at + 1, at + 1);
        AfterPending(s, from, at, at + 1, Words(s[at + 1..], ""), rest);
        starts := if from < at then [from] + rest else rest;
        assert [] + Words(s[at + 1..], "") == Words(s[at + 1..], "");
      } else {
        assert s[from..at] + [s[at]] == s[from..at + 1];
        starts := WordsFrom(s, from, at + 1);
      }
    }
  }

  lemma NoWordsLeft(s: string)
    ensures AreWords(s, |s|, [], []) && s[|s|..] == ""
  {
  }

  predicate IsCjkOrMark(c: char) {
    0x3400 <= c as int <= 0x9fff || c in ['\n', '\r', '。', '！', '？', '；', '.', '!', '?', ';']
  }

  function BigramCount(word: string): nat {
    if |word| >= 2 && forall c <- word :: IsCjkOrMark(c) then |word| - 1 else 0
  }

  /** At that place stands the word, then the pairs of its neighbouring symbols, if it is CJK. */
  predicate WithPairsAt(components: seq<string>, word: string, p: int) {
    && 0 <= p && p + BigramCount(word) < |components|
    && components[p] == word
    && forall j :: p < j <= p + BigramCount(word) ==> components[j] == word[j - p - 1..j - p + 1]
  }

  predicate IsPlaced(components: seq<string>, word: string, from: int, to: int) {
    to == from + 1 + BigramCount(word) && WithPairsAt(components, word, from)
  }

  /** The words stand one after the other, each with its pairs. */
  predicate FollowedByBigrams(components: seq<string>, words: seq<string>, at: seq<int>) {
    && |at| == |words| + 1 && at[0] == 0 && at[|words|] == |components|
    && forall k :: 0 <= k < |words| ==> IsPlaced(components, words[k], at[k], at[k + 1])
  }

  lemma {:induction false} BigramsArePairs(word: string)
    ensures |Bigrams(word)| == Max(0, |word| - 1)
    ensures forall i :: 0 <= i < |Bigrams(word)| ==> Bigrams(word)[i] == word[i..i + 2]
  {
    if |word| >= 2 {
      BigramsArePairs(word[1..]);
      forall i | 0 < i < |Bigrams(word)|
        ensures Bigrams(word)[i] == word[i..i + 2]
      {
        assert Bigrams(word)[i] == Bigrams(word[1..])[i - 1] == word[1..][i - 1..i + 1];
      }
    }
  }

  lemma {:induction false} BigramsFollow(words: seq<string>) returns (at: seq<int>)
    ensures FollowedByBigrams(WithBigrams(words), words, at)
  {
    hide FollowedByBigrams;
    if words == [] {
      at := [0];
      NoneFollow();
    } else {
      var rest := BigramsFollow(words[1..]);
      at := WordFirst(words[0], words[1..], rest);
      assert [words[0]] + words[1..] == words;
    }
  }

  lemma NoneFollow()
    ensures FollowedByBigrams(WithBigrams([]), [], [0])
  {
  }

  function Shifted(rest: seq<int>, n: int): (r: seq<int>)
    ensures |r| == |rest| && forall i :: 0 <= i < |r| ==> r[i] == rest[i] + n
  {
    seq(|rest|, i requires 0 <= i < |rest| => rest[i] + n)
  }

  function WithPairs(word: string): seq<string> { [word] + if MostlyCJK(word) then Bigrams(word) else [] }

  lemma WordFirst(word: string, words: seq<string>, rest: seq<int>) returns (at: seq<int>)
    requires FollowedByBigrams(WithBigrams(words), words, rest)
    ensures FollowedByBigrams(WithBigrams([word] + words), [word] + words, at)
  {
    var head, tail := WithPairs(word), WithBigrams(words);
    at := [0] + Shifted(rest, |head|);
    assert ([word] + words)[1..] == words;
    assert WithBigrams([word] + words) == head + tail;
    OneWordWithPairs(word, tail);
    hide IsPlaced, WithBigrams, WithPairs, Shifted;
    forall k | 0 < k < |words| + 1
      ensures IsPlaced(head + tail, ([word] + words)[k], at[k], at[k + 1])
    {
      PairsShift(head, tail, words[k - 1], rest[k - 1], rest[k]);
    }
  }

  lemma OneWordWithPairs(word: string, tail: seq<string>)
    ensures var head := WithPairs(word); IsPlaced(head + tail, word, 0, |head|)
  {
    BigramsArePairs(word);
    hide Bigrams;
  }

  lemma PairsShift(head: seq<string>, tail: seq<string>, word: string, p: int, q: int)
    requires IsPlaced(tail, word, p, q)
    ensures IsPlaced(head + tail, word, |head| + p, |head| + q)
  {
    forall j | |head| + p < j <= |head| + p + BigramCount(word)
      ensures (head + tail)[j] == word[j - |head| - p - 1..j - |head| - p + 1]
    {
      assert (head + tail)[j] == tail[j - |head|];
    }
  }

  /** The components of a focus: its words, in order, each followed by its CJK pairs. */
  lemma ComponentsAre(needle: string) returns (words: seq<string>, starts: seq<int>, at: seq<int>)
    ensures AreWords(needle, 0, words, starts) && FollowedByBigrams(Components(needle), words, at)
  {
    hide AreWords, FollowedByBigrams;
    words := Words(needle);
    assert needle[0..] == needle && needle[0..0] == "";
    starts := WordsFrom(needle, 0, 0);
    at := BigramsFollow(words);
  }
}
