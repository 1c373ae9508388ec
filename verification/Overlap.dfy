/** Removing the text that adjacent chunks share, without losing any of it. */
module Overlap {
  import opened Text
  import opened Excerpts

  const MIN_OVERLAP_CHARS := 24

  predicate Overlaps(left: string, right: string, length: nat) {
    && length <= |left| && length <= |right|
    && left[|left| - length..] == right[..length]
  }

  /** The longest overlap of at most length symbols, but at least the minimum; else 0. */
  function OverlapUpTo(left: string, right: string, length: nat): (r: nat)
    ensures r == 0 || (MIN_OVERLAP_CHARS <= r <= length && Overlaps(left, right, r))
    ensures forall l: nat :: r < l <= length && l >= MIN_OVERLAP_CHARS ==> !Overlaps(left, right, l)
  {
    if length < MIN_OVERLAP_CHARS then 0
    else if Overlaps(left, right, length) then length
    else OverlapUpTo(left, right, length - 1)
  }

  function LongestOverlap(left: string, right: string): nat {
    OverlapUpTo(left, right, Min(|left|, |right|))
  }

  method LongestSuffixPrefix(left: string, right: string) returns (overlap: nat)
    ensures overlap == LongestOverlap(left, right)
    ensures overlap == 0 || (overlap >= MIN_OVERLAP_CHARS && Overlaps(left, right, overlap))
    ensures forall l: nat :: l > overlap && l >= MIN_OVERLAP_CHARS ==> !Overlaps(left, right, l)
  {
    var length: nat := Min(|left|, |right|);
    while length >= MIN_OVERLAP_CHARS
      invariant OverlapUpTo(left, right, length) == LongestOverlap(left, right)
      invariant length <= |left| && length <= |right|
    {
      if left[|left| - length..] == right[..length] {
        return length;
      }
      length := length - 1;
    }
    overlap := 0;
  }

  /** An earlier excerpt yields its shared suffix to the one nearer the anchor. */
  function YieldSuffix(e: Excerpt, next: string): Excerpt {
    var overlap := LongestOverlap(e.text, next);
    if overlap >= MIN_OVERLAP_CHARS then Slice(e, 0, |e.text| - overlap) else e
  }

  /** A later excerpt loses the prefix its predecessor already shows. */
  function LosePrefix(e: Excerpt, previous: string): Excerpt {
    var overlap := LongestOverlap(previous, e.text);
    if overlap >= MIN_OVERLAP_CHARS then Slice(e, overlap, |e.text|) else e
  }

  function TrimBefore(before: seq<Excerpt>, anchor: string): (r: seq<Excerpt>)
    ensures |r| == |before|
  {
    if before == [] then []
    else [YieldSuffix(before[0], if |before| > 1 then before[1].text else anchor)]
         + TrimBefore(before[1..], anchor)
  }

  function TrimAfter(previous: string, after: seq<Excerpt>): (r: seq<Excerpt>)
    ensures |r| == |after|
    decreases after
  {
    if after == [] then []
    else var first := LosePrefix(after[0], previous); [first] + TrimAfter(first.text, after[1..])
  }

  function NonEmpty(es: seq<Excerpt>): seq<Excerpt> {
    if es == [] then []
    else (if es[0].text != "" then [es[0]] else []) + NonEmpty(es[1..])
  }

  /** The concatenated texts. */
  function Texts(es: seq<Excerpt>): string {
    if es == [] then "" else es[0].text + Texts(es[1..])
  }

  // ----------------------------------------------------------- losslessness

  /** What an excerpt yields is the opening of the next text. */
  lemma YieldSuffixIsLossless(e: Excerpt, next: string) returns (n: nat)
    ensures n <= |next| && e.text == YieldSuffix(e, next).text + next[..n]
  {
    n := LongestOverlap(e.text, next);
    assert e.text == e.text[..|e.text| - n] + e.text[|e.text| - n..];
  }

  /** What an excerpt loses is the ending of the previous text. */
  lemma LosePrefixIsLossless(e: Excerpt, previous: string) returns (n: nat)
    ensures n <= |previous| && e.text == previous[|previous| - n..] + LosePrefix(e, previous).text
  {
    n := LongestOverlap(previous, e.text);
    assert e.text == e.text[..n] + e.text[n..];
  }

  /** Each original earlier text reads on, whole, from its trimmed place
      through the later trimmed texts and the anchor. */
  lemma {:induction false} BeforeIsLossless(before: seq<Excerpt>, anchor: string, i: nat)
    requires i < |before|
    ensures before[i].text <= Texts(TrimBefore(before, anchor)[i..]) + anchor
    decreases |before|
  {
    hide YieldSuffix;
    var trimmed, rest := TrimBefore(before, anchor), TrimBefore(before[1..], anchor);
    assert trimmed[1..] == rest;
    if i > 0 {
      BeforeIsLossless(before[1..], anchor, i - 1);
      assert trimmed[i..] == rest[i - 1..];
    } else {
      var next := if |before| > 1 then before[1].text else anchor;
      if |before| > 1 {
        BeforeIsLossless(before[1..], anchor, 0);
        assert rest[0..] == rest;
      } else {
        assert Texts(rest) + anchor == anchor;
      }
      assert trimmed[0..] == trimmed;
      PrefixChain(before[0], next, Texts(rest) + anchor);
      assert Texts(trimmed) + anchor == trimmed[0].text + (Texts(rest) + anchor);
    }
  }

  lemma PrefixChain(e: Excerpt, next: string, onward: string)
    requires next <= onward
    ensures e.text <= YieldSuffix(e, next).text + onward
  {
    var n := YieldSuffixIsLossless(e, next);
    hide YieldSuffix;
    assert next[..n] == onward[..n];
    assert YieldSuffix(e, next).text + onward == e.text + onward[n..];
  }

  predicate EndsWith(text: string, suffix: string) {
    |suffix| <= |text| && text[|text| - |suffix|..] == suffix
  }

  /** Each original later text is what one has just read at its trimmed end. */
  lemma {:induction false} AfterIsLossless(previous: string, after: seq<Excerpt>, i: nat)
    requires i < |after|
    ensures EndsWith(previous + Texts(TrimAfter(previous, after)[..i + 1]), after[i].text)
    decreases after
  {
    hide LosePrefix;
    var trimmed := TrimAfter(previous, after);
    var first := trimmed[0];
    if i == 0 {
      assert trimmed[..1] == [first];
      assert Texts([first]) == first.text + Texts([]) == first.text;
      var n := LosePrefixIsLossless(after[0], previous);
    } else {
      AfterIsLossless(first.text, after[1..], i - 1);
      var rest := TrimAfter(first.text, after[1..]);
      assert trimmed[..i + 1][1..] == rest[..i];
      var tail := first.text + Texts(rest[..i]);
      assert previous + Texts(trimmed[..i + 1]) == previous + tail;
      assert (previous + tail)[|previous| + |tail| - |after[i].text|..] == tail[|tail| - |after[i].text|..];
    }
  }

  /** Dropping the excerpts that became empty changes no reading. */
  lemma {:induction false} NonEmptyKeepsTexts(es: seq<Excerpt>)
    ensures Texts(NonEmpty(es)) == Texts(es)
  {
    if es != [] {
      NonEmptyKeepsTexts(es[1..]);
      var rest := NonEmpty(es[1..]);
      if es[0].text != "" {
        assert ([es[0]] + rest)[1..] == rest;
      } else {
        assert [] + rest == rest;
      }
    }
  }

  // ------------------------------------------------------ what trimming keeps

  lemma {:induction false} TrimmedElements(before: seq<Excerpt>, anchor: string, i: nat)
    requires i < |before|
    ensures TrimBefore(before, anchor)[i] ==
            YieldSuffix(before[i], if i + 1 < |before| then before[i + 1].text else anchor)
  {
    if i > 0 {
      TrimmedElements(before[1..], anchor, i - 1);
    }
  }

  /** Each later excerpt is trimmed against its already trimmed predecessor. */
  lemma {:induction false} TrimmedLaterElements(previous: string, after: seq<Excerpt>, i: nat)
    requires i < |after|
    ensures var r := TrimAfter(previous, after);
      r[i] == LosePrefix(after[i], if i > 0 then r[i - 1].text else previous)
    decreases after
  {
    hide LosePrefix;
    if i > 0 {
      TrimmedLaterElements(LosePrefix(after[0], previous).text, after[1..], i - 1);
    }
  }

  // ------------------------------------------------------------- the method

  method FilterNonEmpty(es: seq<Excerpt>) returns (out: seq<Excerpt>)
    ensures out == NonEmpty(es)
  {
    out := [];
    for i := 0 to |es|
      invariant out + NonEmpty(es[i..]) == NonEmpty(es)
    {
      assert es[i..][0] == es[i] && es[i..][1..] == es[i + 1..];
      if es[i].text != "" {
        out := out + [es[i]];
      }
    }
  }

  method YieldTo(e: Excerpt, next: string) returns (r: Excerpt)
    ensures r == YieldSuffix(e, next)
  {
    var overlap := LongestSuffixPrefix(e.text, next);
    r := if overlap >= MIN_OVERLAP_CHARS then Slice(e, 0, |e.text| - overlap) else e;
  }

  method LoseTo(e: Excerpt, previous: string) returns (r: Excerpt)
    ensures r == LosePrefix(e, previous)
  {
    var overlap := LongestSuffixPrefix(previous, e.text);
    r := if overlap >= MIN_OVERLAP_CHARS then Slice(e, overlap, |e.text|) else e;
  }

  method TrimEarlier(before: seq<Excerpt>, anchor: Excerpt) returns (next: seq<Excerpt>)
    ensures next == TrimBefore(before, anchor.text)
  {
    hide YieldSuffix, TrimBefore;
    next := before;
    var i := 0;
    while i + 1 < |next|
      invariant |next| == |before| && 0 <= i && (i == 0 || i < |next|)
      invariant forall j :: i <= j < |before| ==> next[j] == before[j]
      invariant forall j :: 0 <= j < i ==> next[j] == TrimBefore(before, anchor.text)[j]
    {
      TrimmedElements(before, anchor.text, i);
      var trimmed := YieldTo(next[i], next[i + 1].text);
      next := next[i := trimmed];
      i := i + 1;
    }
    if |next| > 0 {
      TrimmedElements(before, anchor.text, |before| - 1);
      var trimmed := YieldTo(next[|next| - 1], anchor.text);
      next := next[|next| - 1 := trimmed];
    }
  }

  method TrimLater(anchor: Excerpt, after: seq<Excerpt>) returns (next: seq<Excerpt>)
    ensures next == TrimAfter(anchor.text, after)
  {
    hide LosePrefix, TrimAfter;
    next := after;
    var previous := anchor;
    for i := 0 to |after|
      invariant |next| == |after|
      invariant forall j :: i <= j < |after| ==> next[j] == after[j]
      invariant forall j :: 0 <= j < i ==> next[j] == TrimAfter(anchor.text, after)[j]
      invariant previous == if i > 0 then next[i - 1] else anchor
    {
      TrimmedLaterElements(anchor.text, after, i);
      var trimmed := LoseTo(next[i], previous.text);
      next := next[i := trimmed];
      previous := next[i];
    }
  }

  method RemoveAdjacentOverlap(before: seq<Excerpt>, anchor: Excerpt, after: seq<Excerpt>)
    returns (nextBefore: seq<Excerpt>, nextAfter: seq<Excerpt>)
    ensures nextBefore == NonEmpty(TrimBefore(before, anchor.text))
    ensures nextAfter == NonEmpty(TrimAfter(anchor.text, after))
  {
    nextBefore := TrimEarlier(before, anchor);
    nextAfter := TrimLater(anchor, after);
    nextBefore := FilterNonEmpty(nextBefore);
    nextAfter := FilterNonEmpty(nextAfter);
  }
}
