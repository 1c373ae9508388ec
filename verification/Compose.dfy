/** The whole composition: neighbours, crop, overlap, budget split, shrink, hints. */
module Compose {
  import opened Text
  import opened Tokens
  import Focus
  import opened Excerpts
  import opened Overlap
  import opened Window

  // ------------------------------------------------------------- neighbours

  /** The chunks of the anchor's document by index; later ones win, the anchor always. */
  function DocumentChunks(chunks: seq<Chunk>, anchor: Chunk): map<int, Chunk> {
    if chunks == [] then map[]
    else
      var earlier, last := DocumentChunks(chunks[..|chunks| - 1], anchor), chunks[|chunks| - 1];
      if last.docId == anchor.docId && last.baseId == anchor.baseId then earlier[last.index := last] else earlier
  }

  function Pool(chunks: seq<Chunk>, anchor: Chunk): map<int, Chunk> {
    DocumentChunks(chunks, anchor)[anchor.index := anchor]
  }

  predicate Keyed(pool: map<int, Chunk>) { forall i <- pool :: pool[i].index == i }

  lemma {:induction false} DocumentChunksAreKeyed(chunks: seq<Chunk>, anchor: Chunk)
    ensures Keyed(DocumentChunks(chunks, anchor))
  {
    if chunks != [] {
      DocumentChunksAreKeyed(chunks[..|chunks| - 1], anchor);
    }
  }

  /** The index j steps away from the given one, on that side of it. */
  function At(index: int, side: Side, j: int): int { if side == Before then index - j else index + j }

  /** The chunks at index and onward, away from the anchor, up to the first missing one. */
  function Contiguous(pool: map<int, Chunk>, index: int, side: Side): seq<Chunk>
    decreases |pool|
  {
    if index !in pool then []
    else [pool[index]] + Contiguous(pool - {index}, At(index, side, 1), side)
  }

  function Heading(c: Chunk): string { TrimSpace(c.heading) }

  predicate SameHeading(c: Chunk, anchor: Chunk, crossHeading: bool) {
    crossHeading || Heading(c) == Heading(anchor)
  }

  function TakeSameHeading(chunks: seq<Chunk>, anchor: Chunk, crossHeading: bool): seq<Chunk> {
    if chunks == [] || !SameHeading(chunks[0], anchor, crossHeading) then []
    else [chunks[0]] + TakeSameHeading(chunks[1..], anchor, crossHeading)
  }

  lemma {:induction false} TakesWhileSame(chunks: seq<Chunk>, anchor: Chunk, crossHeading: bool)
    ensures var r := TakeSameHeading(chunks, anchor, crossHeading);
      && |r| <= |chunks| && r == chunks[..|r|]
      && (forall j :: 0 <= j < |r| ==> SameHeading(r[j], anchor, crossHeading))
      && (|r| < |chunks| ==> !SameHeading(chunks[|r|], anchor, crossHeading))
  {
    hide SameHeading;
    if chunks != [] && SameHeading(chunks[0], anchor, crossHeading) {
      TakesWhileSame(chunks[1..], anchor, crossHeading);
    }
  }

  function ClampSide(limit: Limit): nat {
    match limit
    case Default => 1
    case Explicit(n) => Max(0, Min(10, n))
  }

  function ClampTokens(n: int): (r: int)
    ensures 1 <= r <= 1_000_000
  {
    if n < 1 then 768 else if n > 1_000_000 then 1_000_000 else n
  }

  /** The eligible neighbours on one side, nearest first. */
  function Neighbours(pool: map<int, Chunk>, anchor: Chunk, side: Side, crossHeading: bool, limit: nat): seq<Chunk> {
    var eligible := TakeSameHeading(Contiguous(pool, At(anchor.index, side, 1), side), anchor, crossHeading);
    if |eligible| > limit then eligible[..limit] else eligible
  }

  lemma {:induction false} ContiguousRun(pool: map<int, Chunk>, index: int, side: Side)
    ensures var r := Contiguous(pool, index, side);
      && (forall j :: 0 <= j < |r| ==> At(index, side, j) in pool && r[j] == pool[At(index, side, j)])
      && At(index, side, |r|) !in pool
    decreases |pool|
  {
    var r := Contiguous(pool, index, side);
    if index in pool {
      ContiguousRun(pool - {index}, At(index, side, 1), side);
      var rest := Contiguous(pool - {index}, At(index, side, 1), side);
      forall j | 0 <= j < |r|
        ensures At(index, side, j) in pool && r[j] == pool[At(index, side, j)]
      {
        if j > 0 {
          assert r[j] == rest[j - 1] && At(At(index, side, 1), side, j - 1) == At(index, side, j);
        }
      }
    }
  }

  predicate InPlace(c: Chunk, i: int, pool: map<int, Chunk>, anchor: Chunk, crossHeading: bool) {
    i in pool && c == pool[i] && SameHeading(c, anchor, crossHeading)
  }

  /** Exactly the nearest chunks, one index after the other, as long as they
      are loaded, under the anchor's heading (unless crossing is allowed) and
      within the limit. */
  lemma NeighboursAreNearest(pool: map<int, Chunk>, anchor: Chunk, side: Side, crossHeading: bool, limit: nat)
    ensures var r := Neighbours(pool, anchor, side, crossHeading, limit);
      && |r| <= limit
      && (forall j :: 0 <= j < |r| ==> InPlace(r[j], At(anchor.index, side, j + 1), pool, anchor, crossHeading))
      && (|r| < limit ==>
            var next := At(anchor.index, side, |r| + 1);
            next !in pool || !SameHeading(pool[next], anchor, crossHeading))
  {
    hide Contiguous, SameHeading, TakeSameHeading;
    var start := At(anchor.index, side, 1);
    ContiguousRun(pool, start, side);
    var all := Contiguous(pool, start, side);
    TakesWhileSame(all, anchor, crossHeading);
    var r := Neighbours(pool, anchor, side, crossHeading, limit);
    forall j | 0 <= j < |r|
      ensures InPlace(r[j], At(anchor.index, side, j + 1), pool, anchor, crossHeading)
    {
      assert At(start, side, j) == At(anchor.index, side, j + 1);
      assert r[j] == TakeSameHeading(all, anchor, crossHeading)[j] == all[j];
    }
    assert At(start, side, |r|) == At(anchor.index, side, |r| + 1);
  }

  function ExcerptOf(c: Chunk): Excerpt {
    Excerpt(c.id, c.index, c.heading, c.text, 0, |c.text|, false, false)
  }

  function ExcerptsOf(chunks: seq<Chunk>): (r: seq<Excerpt>)
    ensures |r| == |chunks| && forall i :: 0 <= i < |r| ==> r[i] == ExcerptOf(chunks[i])
  {
    seq(|chunks|, i requires 0 <= i < |chunks| => ExcerptOf(chunks[i]))
  }

  // ------------------------------------------------------------- the pieces

  function FitAnchor(anchor: Excerpt, maxTokens: int, focus: string): Excerpt {
    if Cost(anchor, true) <= maxTokens then anchor
    else Fit(anchor, maxTokens, Focused, true, Focus.FocusSpan(anchor.text, focus))
  }

  /** Each side gets half of what the anchor leaves, or all of it when alone;
      then a side that did not use its share donates the rest. */
  function FitSides(before: seq<Excerpt>, after: seq<Excerpt>, remaining: nat): (seq<Excerpt>, seq<Excerpt>) {
    var beforeShare := if after != [] && before != [] then remaining / 2 else if after != [] then 0 else remaining;
    var afterShare := if after != [] then remaining - beforeShare else 0;
    var before1, after1 := FitBefore(before, beforeShare), FitAfter(after, afterShare);
    var after2 :=
      if SideTokens(before1) < beforeShare && after != []
      then FitAfter(after, afterShare + beforeShare - SideTokens(before1)) else after1;
    var before2 :=
      if SideTokens(after2) < afterShare && before != []
      then FitBefore(before, beforeShare + afterShare - SideTokens(after2)) else before1;
    (before2, after2)
  }

  predicate AnyEarlier(pool: map<int, Chunk>, anchorIndex: int, first: int) {
    exists i <- pool :: i < anchorIndex && i < first
  }

  predicate AnyLater(pool: map<int, Chunk>, anchorIndex: int, last: int) {
    exists i <- pool :: i > anchorIndex && i > last
  }

  predicate MoreBefore(pool: map<int, Chunk>, opts: Options, anchorIndex: int, first: Excerpt) {
    match opts.hasMoreBefore
    case Set(flag) => flag
    case Unset => first.truncatedStart || first.index > 0 || AnyEarlier(pool, anchorIndex, first.index)
  }

  predicate MoreAfter(pool: map<int, Chunk>, opts: Options, anchorIndex: int, last: Excerpt) {
    match opts.hasMoreAfter
    case Set(flag) => flag
    case Unset =>
      if opts.documentChunkCount > 0 then last.truncatedEnd || last.index < opts.documentChunkCount - 1
      else last.truncatedEnd || AnyLater(pool, anchorIndex, last.index)
  }

  function FittedAnchor(anchor: Chunk, opts: Options): Excerpt {
    FitAnchor(ExcerptOf(anchor), ClampTokens(opts.maxTokens), opts.focus)
  }

  /** The deduplicated candidates of the two sides, in reading order. */
  function CandidatesBefore(pool: map<int, Chunk>, anchor: Chunk, opts: Options): seq<Excerpt> {
    NonEmpty(TrimBefore(
      ExcerptsOf(Reversed(Neighbours(pool, anchor, Before, opts.crossHeading, ClampSide(opts.before)))),
      FittedAnchor(anchor, opts).text))
  }

  function CandidatesAfter(pool: map<int, Chunk>, anchor: Chunk, opts: Options): seq<Excerpt> {
    NonEmpty(TrimAfter(
      FittedAnchor(anchor, opts).text,
      ExcerptsOf(Neighbours(pool, anchor, After, opts.crossHeading, ClampSide(opts.after)))))
  }

  /** The excerpts the window shows on either side of the anchor. */
  function Sides(pool: map<int, Chunk>, anchor: Chunk, opts: Options): (seq<Excerpt>, seq<Excerpt>) {
    var maxTokens, fitted := ClampTokens(opts.maxTokens), FittedAnchor(anchor, opts);
    var (before, after) := FitSides(
      CandidatesBefore(pool, anchor, opts), CandidatesAfter(pool, anchor, opts),
      Max(0, maxTokens - Cost(fitted, true)));
    Shrink(before, fitted, after, anchor.index, maxTokens)
  }

  function FirstOf(before: seq<Excerpt>, anchor: Excerpt): Excerpt { if before != [] then before[0] else anchor }

  function LastOf(anchor: Excerpt, after: seq<Excerpt>): Excerpt { if after != [] then after[|after| - 1] else anchor }

  function Composed(chunks: seq<Chunk>, anchor: Chunk, opts: Options): Window {
    var pool, fitted := Pool(chunks, anchor), FittedAnchor(anchor, opts);
    var (before, after) := Sides(pool, anchor, opts);
    MakeWindow(anchor.id, anchor.index, before, fitted, after,
      MoreBefore(pool, opts, anchor.index, FirstOf(before, fitted)),
      MoreAfter(pool, opts, anchor.index, LastOf(fitted, after)))
  }

  // ------------------------------------------------------------ candidates

  predicate Increasing(es: seq<Excerpt>) { forall i, j :: 0 <= i < j < |es| ==> es[i].index < es[j].index }

  lemma {:induction false} NonEmptyIsFilter(es: seq<Excerpt>)
    ensures forall e <- NonEmpty(es) :: e in es && e.text != ""
    ensures Increasing(es) ==> Increasing(NonEmpty(es))
  {
    if es != [] {
      var rest := NonEmpty(es[1..]);
      NonEmptyIsFilter(es[1..]);
      if Increasing(es) && es[0].text != "" {
        assert forall e <- rest :: e in es[1..] && es[0].index < e.index;
        assert ([es[0]] + rest)[1..] == rest;
      }
    }
  }

  lemma YieldSuffixIsFaithful(e: Excerpt, next: string, canonical: string)
    requires Faithful(e, canonical)
    ensures Faithful(YieldSuffix(e, next), canonical) && YieldSuffix(e, next).index == e.index
  {
    SliceKeepsFaithful(e, canonical, 0, |e.text| - LongestOverlap(e.text, next));
  }

  lemma LosePrefixIsFaithful(e: Excerpt, previous: string, canonical: string)
    requires Faithful(e, canonical)
    ensures Faithful(LosePrefix(e, previous), canonical) && LosePrefix(e, previous).index == e.index
  {
    SliceKeepsFaithful(e, canonical, LongestOverlap(previous, e.text), |e.text|);
  }

  lemma TrimBeforeIsFaithful(es: seq<Excerpt>, anchor: string, pool: map<int, Chunk>)
    requires AllFaithful(es, pool)
    ensures AllFaithful(TrimBefore(es, anchor), pool)
    ensures Increasing(es) ==> Increasing(TrimBefore(es, anchor))
    ensures forall i :: 0 <= i < |es| ==> TrimBefore(es, anchor)[i].index == es[i].index
  {
    hide YieldSuffix, TrimBefore, Faithful;
    var r := TrimBefore(es, anchor);
    forall i | 0 <= i < |es|
      ensures r[i].index == es[i].index && r[i].index in pool && Faithful(r[i], pool[r[i].index].text)
    {
      TrimmedElements(es, anchor, i);
      assert es[i] in es;
      YieldSuffixIsFaithful(es[i], if i + 1 < |es| then es[i + 1].text else anchor, pool[es[i].index].text);
    }
  }

  lemma TrimAfterIsFaithful(previous: string, es: seq<Excerpt>, pool: map<int, Chunk>)
    requires AllFaithful(es, pool)
    ensures AllFaithful(TrimAfter(previous, es), pool)
    ensures Increasing(es) ==> Increasing(TrimAfter(previous, es))
    ensures forall i :: 0 <= i < |es| ==> TrimAfter(previous, es)[i].index == es[i].index
  {
    hide LosePrefix, TrimAfter, Faithful;
    var r := TrimAfter(previous, es);
    forall i | 0 <= i < |es|
      ensures r[i].index == es[i].index && r[i].index in pool && Faithful(r[i], pool[r[i].index].text)
    {
      TrimmedLaterElements(previous, es, i);
      assert es[i] in es;
      LosePrefixIsFaithful(es[i], if i > 0 then r[i - 1].text else previous, pool[es[i].index].text);
    }
  }

  lemma ExcerptsAreFaithful(chunks: seq<Chunk>, pool: map<int, Chunk>)
    requires forall c <- chunks :: c.index in pool && pool[c.index] == c
    ensures AllFaithful(ExcerptsOf(chunks), pool)
  {
    forall e | e in ExcerptsOf(chunks)
      ensures e.index in pool && Faithful(e, pool[e.index].text)
    {
      var i :| 0 <= i < |chunks| && e == ExcerptOf(chunks[i]);
      assert chunks[i] in chunks;
    }
  }

  /** A side's candidates: faithful, non-empty, in index order, on its side. */
  predicate Sound(es: seq<Excerpt>, pool: map<int, Chunk>) {
    AllFaithful(es, pool) && Increasing(es) && forall e <- es :: e.text != ""
  }

  lemma CandidatesBeforeAreSound(pool: map<int, Chunk>, anchor: Chunk, opts: Options)
    requires Keyed(pool)
    ensures Sound(CandidatesBefore(pool, anchor, opts), pool)
    ensures forall e <- CandidatesBefore(pool, anchor, opts) :: e.index < anchor.index
  {
    hide FittedAnchor, Neighbours, TrimBefore, NonEmpty, Faithful, SameHeading;
    var near := Neighbours(pool, anchor, Before, opts.crossHeading, ClampSide(opts.before));
    NeighboursAreNearest(pool, anchor, Before, opts.crossHeading, ClampSide(opts.before));
    var reading := Reversed(near);
    forall i | 0 <= i < |reading|
      ensures reading[i].index == anchor.index - |near| + i && reading[i].index in pool
        && pool[reading[i].index] == reading[i]
    {
      assert reading[i] == near[|near| - 1 - i];
    }
    ExcerptsAreFaithful(reading, pool);
    var text := FittedAnchor(anchor, opts).text;
    TrimBeforeIsFaithful(ExcerptsOf(reading), text, pool);
    NonEmptyIsFilter(TrimBefore(ExcerptsOf(reading), text));
  }

  lemma CandidatesAfterAreSound(pool: map<int, Chunk>, anchor: Chunk, opts: Options)
    requires Keyed(pool)
    ensures Sound(CandidatesAfter(pool, anchor, opts), pool)
    ensures forall e <- CandidatesAfter(pool, anchor, opts) :: e.index > anchor.index
  {
    hide FittedAnchor, Neighbours, TrimAfter, NonEmpty, Faithful, SameHeading;
    var near := Neighbours(pool, anchor, After, opts.crossHeading, ClampSide(opts.after));
    NeighboursAreNearest(pool, anchor, After, opts.crossHeading, ClampSide(opts.after));
    forall i | 0 <= i < |near|
      ensures near[i].index == anchor.index + 1 + i && near[i].index in pool && pool[near[i].index] == near[i]
    {
    }
    ExcerptsAreFaithful(near, pool);
    var text := FittedAnchor(anchor, opts).text;
    TrimAfterIsFaithful(text, ExcerptsOf(near), pool);
    NonEmptyIsFilter(TrimAfter(text, ExcerptsOf(near)));
  }

  // --------------------------------------------------------- main theorems

  /** The anchor is fitted alone to the whole budget, and always fits. */
  lemma FittedAnchorIsSound(anchor: Chunk, opts: Options)
    ensures var r := FittedAnchor(anchor, opts);
      && Cost(r, true) <= ClampTokens(opts.maxTokens)
      && Faithful(r, anchor.text) && r.index == anchor.index && r.chunkId == anchor.id
  {
    hide Cost, Fit;
    var e, maxTokens := ExcerptOf(anchor), ClampTokens(opts.maxTokens);
    Focus.FocusSpanInText(e.text, opts.focus);
    var range := Focus.FocusSpan(e.text, opts.focus);
    hide Focus.FocusSpan;
    AnchorAlwaysFits(e, maxTokens, Focused, range);
    FitKeepsFaithful(e, anchor.text, maxTokens, Focused, true, range);
    FitMeetsBudget(e, maxTokens, Focused, true, range);
  }

  lemma FittedSidesAreRuns(before: seq<Excerpt>, after: seq<Excerpt>, remaining: nat, pool: map<int, Chunk>)
    requires AllFaithful(before, pool) && AllFaithful(after, pool)
    ensures var (b, a) := FitSides(before, after, remaining);
      && BeforeRun(b, before) && AfterRun(a, after)
      && AllFaithful(b, pool) && AllFaithful(a, pool)
  {
    hide FitBefore, FitAfter, BeforeRun, AfterRun, AllFaithful, SideTokens, AllConsistent, SideCost;
    FaithfulIsConsistent(before, pool);
    FaithfulIsConsistent(after, pool);
    forall allowance: int
      ensures BeforeRun(FitBefore(before, allowance), before) && AllFaithful(FitBefore(before, allowance), pool)
    {
      FitBeforeIsRun(before, allowance);
      FitBeforeIsFaithful(before, allowance, pool);
    }
    forall allowance: int
      ensures AfterRun(FitAfter(after, allowance), after) && AllFaithful(FitAfter(after, allowance), pool)
    {
      FitAfterIsRun(after, allowance);
      FitAfterIsFaithful(after, allowance, pool);
    }
  }

  /** The earlier side stops only where the next candidate does not fit whole into the room. */
  predicate FilledBefore(r: seq<Excerpt>, all: seq<Excerpt>, room: int) {
    |r| < |all| && SideCost(r) < room ==>
      SideCost(r) + Cost(all[|all| - |r| - 1], false) > room || (r != [] && r[0] != all[|all| - |r|])
  }

  predicate FilledAfter(r: seq<Excerpt>, all: seq<Excerpt>, room: int) {
    |r| < |all| && SideCost(r) < room ==>
      SideCost(r) + Cost(all[|r|], false) > room || (r != [] && r[|r| - 1] != all[|r| - 1])
  }

  lemma FitBeforeFills(all: seq<Excerpt>, allowance: int, room: int)
    requires AllConsistent(all) && room <= allowance
    ensures FilledBefore(FitBefore(all, allowance), all, room)
    ensures SideCost(FitBefore(all, allowance)) <= Max(0, allowance)
  {
    hide FitBefore, SideCost, Cost, BeforeRun, AllConsistent;
    FitBeforeIsRun(all, allowance);
  }

  lemma FitAfterFills(all: seq<Excerpt>, allowance: int, room: int)
    requires AllConsistent(all) && room <= allowance
    ensures FilledAfter(FitAfter(all, allowance), all, room)
    ensures SideCost(FitAfter(all, allowance)) <= Max(0, allowance)
  {
    hide FitAfter, SideCost, Cost, AfterRun, AllConsistent;
    FitAfterIsRun(all, allowance);
  }

  /** What the split and the donation achieve: the side fitted last stays within what the
      other leaves, the earlier side fills all that the later one leaves, and the later
      side fills at least its own half. */
  lemma SidesShareTheRest(before: seq<Excerpt>, after: seq<Excerpt>, remaining: nat)
    requires AllConsistent(before) && AllConsistent(after)
    ensures var (b, a) := FitSides(before, after, remaining);
      && (|| SideCost(b) + SideCost(a) <= remaining
          || SideCost(b) + SideTokens(a) <= remaining
          || SideTokens(b) + SideCost(a) <= remaining)
      && FilledBefore(b, before, remaining - SideTokens(a))
      && FilledAfter(a, after, if before == [] then remaining else remaining - remaining / 2)
      && (before != [] ==> FilledAfter(a, after, remaining - SideTokens(FitBefore(before, remaining / 2))))
  {
    hide FitBefore, FitAfter, FilledBefore, FilledAfter, SideTokens, SideCost, AllConsistent;
    var beforeShare := if after != [] && before != [] then remaining / 2 else if after != [] then 0 else remaining;
    var afterShare := remaining - beforeShare;
    var before1 := FitBefore(before, beforeShare);
    var (b, a) := FitSides(before, after, remaining);
    NothingToFill();
    FitBeforeFills(before, beforeShare, beforeShare);
    FitAfterFills(after, afterShare, afterShare);
    if SideTokens(before1) < beforeShare && after != [] {
      FitAfterFills(after, afterShare + beforeShare - SideTokens(before1), afterShare);
      FitAfterFills(after, remaining - SideTokens(before1), remaining - SideTokens(before1));
    } else {
      FitAfterFills(after, afterShare, remaining - Max(beforeShare, SideTokens(before1)));
    }
    if SideTokens(a) < afterShare && before != [] {
      FitBeforeFills(before, beforeShare + afterShare - SideTokens(a), remaining - SideTokens(a));
    } else if before != [] {
      FitBeforeFills(before, beforeShare, remaining - SideTokens(a));
    }
  }

  lemma NothingToFill()
    ensures forall room: int :: FilledBefore([], [], room) && FilledAfter([], [], room)
    ensures forall room: int :: FitBefore([], room) == [] && FitAfter([], room) == []
    ensures SideTokens([]) == 0 && SideCost([]) == 0
  {
  }

  lemma RunsKeepOrder(before: seq<Excerpt>, allBefore: seq<Excerpt>, after: seq<Excerpt>, allAfter: seq<Excerpt>)
    requires BeforeRun(before, allBefore) && AfterRun(after, allAfter)
    ensures |before| <= |allBefore| && |after| <= |allAfter|
    ensures Increasing(allBefore) ==> Increasing(before)
    ensures Increasing(allAfter) ==> Increasing(after)
    ensures forall i :: 0 <= i < |before| ==> before[i].index == allBefore[|allBefore| - |before| + i].index
    ensures forall i :: 0 <= i < |after| ==> after[i].index == allAfter[i].index
  {
    var offset := |allBefore| - |before|;
    forall i | 0 <= i < |before|
      ensures before[i].index == allBefore[offset + i].index
    {
      if i > 0 {
        assert before[i] == before[1..][i - 1] == allBefore[offset + 1..][i - 1];
      }
    }
    forall i | 0 <= i < |after|
      ensures after[i].index == allAfter[i].index
    {
      if i < |after| - 1 {
        assert after[i] == after[..|after| - 1][i] == allAfter[..|after| - 1][i];
      }
    }
  }

  lemma RunsStayAround(before: seq<Excerpt>, allBefore: seq<Excerpt>, after: seq<Excerpt>, allAfter: seq<Excerpt>,
                       anchorIndex: int)
    requires BeforeRun(before, allBefore) && AfterRun(after, allAfter)
    requires Around(allBefore, anchorIndex, allAfter)
    ensures Around(before, anchorIndex, after)
  {
    hide BeforeRun, AfterRun;
    RunsKeepOrder(before, allBefore, after, allAfter);
    forall e | e in before
      ensures e.index < anchorIndex
    {
      var i :| 0 <= i < |before| && before[i] == e;
      assert allBefore[|allBefore| - |before| + i] in allBefore;
    }
    forall e | e in after
      ensures e.index > anchorIndex
    {
      var i :| 0 <= i < |after| && after[i] == e;
      assert allAfter[i] in allAfter;
    }
  }

  /** What holds of the two sides of every composed window: the nearest runs of
      the deduplicated candidates (so only the farthest excerpt of a side is ever
      cut, and on its far end only), faithful, in order, within the budget. */
  lemma SidesAreSound(pool: map<int, Chunk>, anchor: Chunk, opts: Options)
    requires Keyed(pool)
    ensures var (before, after) := Sides(pool, anchor, opts);
      && BeforeRun(before, CandidatesBefore(pool, anchor, opts))
      && AfterRun(after, CandidatesAfter(pool, anchor, opts))
      && AllFaithful(before, pool) && AllFaithful(after, pool)
      && Increasing(before) && Increasing(after) && Around(before, anchor.index, after)
      && WindowCost(before, FittedAnchor(anchor, opts), after) <= ClampTokens(opts.maxTokens)
  {
    hide CandidatesBefore, CandidatesAfter, FitSides, Shrink, Cost, WindowCost, FittedAnchor, BeforeRun, AfterRun,
      Faithful;
    var maxTokens, fitted := ClampTokens(opts.maxTokens), FittedAnchor(anchor, opts);
    var allBefore, allAfter := CandidatesBefore(pool, anchor, opts), CandidatesAfter(pool, anchor, opts);
    CandidatesBeforeAreSound(pool, anchor, opts);
    CandidatesAfterAreSound(pool, anchor, opts);
    FittedAnchorIsSound(anchor, opts);
    var remaining := Max(0, maxTokens - Cost(fitted, true));
    var (b0, a0) := FitSides(allBefore, allAfter, remaining);
    FittedSidesAreRuns(allBefore, allAfter, remaining, pool);
    FaithfulIsConsistent(b0, pool);
    FaithfulIsConsistent(a0, pool);
    RunsStayAround(b0, allBefore, a0, allAfter, anchor.index);
    ShrinkKeepsRuns(b0, fitted, a0, anchor.index, maxTokens, allBefore, allAfter);
    ShrinkIsFaithful(b0, fitted, a0, anchor.index, maxTokens, pool);
    ShrinkMeetsBudget(b0, fitted, a0, anchor.index, maxTokens);
    var (before, after) := Sides(pool, anchor, opts);
    RunsKeepOrder(before, allBefore, after, allAfter);
  }

  lemma {:induction false} PoolIsKeyed(chunks: seq<Chunk>, anchor: Chunk)
    ensures Keyed(Pool(chunks, anchor)) && Pool(chunks, anchor)[anchor.index] == anchor
  {
    DocumentChunksAreKeyed(chunks, anchor);
  }

  lemma WholeWindow(before: seq<Excerpt>, anchor: Excerpt, after: seq<Excerpt>, pool: map<int, Chunk>)
    requires Around(before, anchor.index, after) && Increasing(before) && Increasing(after)
    requires AllFaithful(before, pool) && AllFaithful([anchor], pool) && AllFaithful(after, pool)
    ensures AllFaithful(before + [anchor] + after, pool) && Increasing(before + [anchor] + after)
  {
    hide Faithful;
    var all := before + [anchor] + after;
    forall e | e in all
      ensures e.index in pool && Faithful(e, pool[e.index].text)
    {
      assert e in before || e in [anchor] || e in after;
    }
    forall i, j | 0 <= i < j < |all|
      ensures all[i].index < all[j].index
    {
      assert i < |before| ==> all[i] in before;
      assert j > |before| ==> all[j] == after[j - |before| - 1] && all[j] in after;
      assert i > |before| ==> all[i] == after[i - |before| - 1];
    }
  }

  /** Every composed window, whatever the chunks and options. */
  lemma ComposedIsSound(chunks: seq<Chunk>, anchor: Chunk, opts: Options)
    ensures var w, pool := Composed(chunks, anchor, opts), Pool(chunks, anchor);
      && w.estimatedTokens == Estimate(Serialize(w.before, w.anchor, w.after)) <= ClampTokens(opts.maxTokens)
      && w.anchor == FittedAnchor(anchor, opts) && Cost(w.anchor, true) <= ClampTokens(opts.maxTokens)
      && BeforeRun(w.before, CandidatesBefore(pool, anchor, opts))
      && AfterRun(w.after, CandidatesAfter(pool, anchor, opts))
      && AllFaithful(w.before + [w.anchor] + w.after, pool)
      && Increasing(w.before + [w.anchor] + w.after)
  {
    hide Sides, FittedAnchor, BeforeRun, AfterRun, CandidatesBefore, CandidatesAfter, Cost, Faithful, MoreBefore,
      MoreAfter;
    PoolIsKeyed(chunks, anchor);
    FittedAnchorIsSound(anchor, opts);
    SidesAreSound(Pool(chunks, anchor), anchor, opts);
    var w := Composed(chunks, anchor, opts);
    WholeWindow(w.before, w.anchor, w.after, Pool(chunks, anchor));
  }

  /** An inferred "nothing before" is exact: the window opens at the first
      symbol of chunk 0. */
  lemma NothingBeforeIsExact(chunks: seq<Chunk>, anchor: Chunk, opts: Options)
    requires opts.hasMoreBefore == Unset
    requires forall i <- Pool(chunks, anchor) :: i >= 0
    ensures var w := Composed(chunks, anchor, opts); var first := FirstOf(w.before, w.anchor);
      !w.hasMoreBefore <==> first.index == 0 && first.textStart == 0
  {
    hide Sides, FittedAnchor, BeforeRun, AfterRun, CandidatesBefore, CandidatesAfter, Cost, MoreAfter, WindowCost;
    var pool, w := Pool(chunks, anchor), Composed(chunks, anchor, opts);
    ComposedIsSound(chunks, anchor, opts);
    var first := FirstOf(w.before, w.anchor);
    assert first in w.before + [w.anchor] + w.after;
    assert Faithful(first, pool[first.index].text);
  }

  /** With the chunk count known, an inferred "nothing after" is exact: the
      window closes at the last symbol of the last chunk. */
  lemma NothingAfterIsExact(chunks: seq<Chunk>, anchor: Chunk, opts: Options)
    requires opts.hasMoreAfter == Unset && opts.documentChunkCount > 0
    requires forall i <- Pool(chunks, anchor) :: i < opts.documentChunkCount
    ensures var w, pool := Composed(chunks, anchor, opts), Pool(chunks, anchor); var last := LastOf(w.anchor, w.after);
      && last.index in pool
      && (!w.hasMoreAfter <==> last.index == opts.documentChunkCount - 1 && last.textEnd == |pool[last.index].text|)
  {
    hide Sides, FittedAnchor, BeforeRun, AfterRun, CandidatesBefore, CandidatesAfter, Cost, MoreBefore, WindowCost;
    var pool, w := Pool(chunks, anchor), Composed(chunks, anchor, opts);
    ComposedIsSound(chunks, anchor, opts);
    var last := LastOf(w.anchor, w.after);
    assert last in w.before + [w.anchor] + w.after;
    assert Faithful(last, pool[last.index].text);
  }

  // ------------------------------------------------------------ the methods

  method LoadPool(chunks: seq<Chunk>, anchor: Chunk) returns (byIndex: map<int, Chunk>)
    ensures byIndex == Pool(chunks, anchor)
  {
    byIndex := map[];
    for i := 0 to |chunks|
      invariant byIndex == DocumentChunks(chunks[..i], anchor)
    {
      assert chunks[..i + 1][..i] == chunks[..i];
      if chunks[i].docId == anchor.docId && chunks[i].baseId == anchor.baseId {
        byIndex := byIndex[chunks[i].index := chunks[i]];
      }
    }
    assert chunks[..|chunks|] == chunks;
    byIndex := byIndex[anchor.index := anchor];
  }

  method ContiguousTowardAnchor(byIndex: map<int, Chunk>, anchorIndex: int, side: Side) returns (out: seq<Chunk>)
    ensures out == Contiguous(byIndex, At(anchorIndex, side, 1), side)
  {
    hide Contiguous;
    out := [];
    var index := At(anchorIndex, side, 1);
    ghost var start, rest := index, byIndex;
    while index in byIndex
      invariant rest.Keys <= byIndex.Keys && forall i <- rest :: rest[i] == byIndex[i]
      invariant forall i <- byIndex :: i in rest || (if side == Before then i > index else i < index)
      invariant out + Contiguous(rest, index, side) == Contiguous(byIndex, start, side)
      decreases |rest|
    {
      ContiguousUnfolds(rest, index, side);
      out := out + [byIndex[index]];
      rest := rest - {index};
      index := At(index, side, 1);
    }
    ContiguousUnfolds(rest, index, side);
  }

  lemma ContiguousUnfolds(pool: map<int, Chunk>, index: int, side: Side)
    ensures Contiguous(pool, index, side) ==
      if index in pool then [pool[index]] + Contiguous(pool - {index}, At(index, side, 1), side) else []
  {
  }

  method TakeWhileSameHeading(values: seq<Chunk>, anchor: Chunk, crossHeading: bool) returns (out: seq<Chunk>)
    ensures out == TakeSameHeading(values, anchor, crossHeading)
  {
    hide SameHeading;
    out := [];
    for i := 0 to |values|
      invariant out + TakeSameHeading(values[i..], anchor, crossHeading) ==
        TakeSameHeading(values, anchor, crossHeading)
    {
      assert values[i..][0] == values[i] && values[i..][1..] == values[i + 1..];
      if !SameHeading(values[i], anchor, crossHeading) {
        return;
      }
      out := out + [values[i]];
    }
  }

  method NearestNeighbours(pool: map<int, Chunk>, anchor: Chunk, side: Side, crossHeading: bool, limit: nat)
    returns (near: seq<Chunk>)
    ensures near == Neighbours(pool, anchor, side, crossHeading, limit)
  {
    var contiguous := ContiguousTowardAnchor(pool, anchor.index, side);
    var eligible := TakeWhileSameHeading(contiguous, anchor, crossHeading);
    near := if |eligible| > limit then eligible[..limit] else eligible;
  }

  method FitAnchorToBudget(anchor: Excerpt, maxTokens: int, focus: string) returns (r: Excerpt)
    ensures r == FitAnchor(anchor, maxTokens, focus)
  {
    hide Fit, Focus.FocusSpan;
    var cost := EstimateTokens(SerializeExcerpt(anchor, true));
    if cost <= maxTokens {
      return anchor;
    }
    r := FitExcerptBySerializedBudget(anchor, maxTokens, Focused, true, focus);
  }

  method SplitBudget(before: seq<Excerpt>, after: seq<Excerpt>, remaining: nat)
    returns (fittedBefore: seq<Excerpt>, fittedAfter: seq<Excerpt>)
    ensures (fittedBefore, fittedAfter) == FitSides(before, after, remaining)
  {
    hide FitBefore, FitAfter, SideTokens;
    var beforeAllowance, afterAllowance := remaining, remaining;
    if after != [] && before != [] {
      beforeAllowance := remaining / 2;
      afterAllowance := remaining - beforeAllowance;
    } else if after != [] {
      beforeAllowance := 0;
    } else {
      afterAllowance := 0;
    }
    fittedBefore := FitSide(before, beforeAllowance, Before);
    fittedAfter := FitSide(after, afterAllowance, After);
    var usedBefore := SideTokens(fittedBefore);
    if usedBefore < beforeAllowance && after != [] {
      fittedAfter := FitSide(after, afterAllowance + beforeAllowance - usedBefore, After);
    }
    var usedAfter := SideTokens(fittedAfter);
    if usedAfter < afterAllowance && before != [] {
      fittedBefore := FitSide(before, beforeAllowance + afterAllowance - usedAfter, Before);
    }
  }

  /** The shrinking loop, with the anchor refit that follows it. When the anchor
      fits alone the refit is never reached and the anchor is untouched. */
  method EnforceSerializedBudget(window: Window, maxTokens: int, focus: string) returns (next: Window)
    requires Around(window.before, window.anchorIndex, window.after)
    requires window.estimatedTokens == WindowCost(window.before, window.anchor, window.after)
    ensures var (before, after) := Shrink(window.before, window.anchor, window.after, window.anchorIndex, maxTokens);
      Cost(window.anchor, true) <= maxTokens ==>
        next == MakeWindow(window.anchorChunkId, window.anchorIndex, before, window.anchor, after,
                           window.hasMoreBefore, window.hasMoreAfter)
    ensures Cost(window.anchor, true) > maxTokens ==>
      next == MakeWindow(window.anchorChunkId, window.anchorIndex, [],
                         Fit(window.anchor, maxTokens, Focused, true, Focus.FocusSpan(window.anchor.text, focus)), [],
                         window.hasMoreBefore, window.hasMoreAfter)
  {
    hide Cost, WindowCost, CannotShrink, Shrink, Fit, Focus.FocusSpan, Measure, Around;
    var before, after, anchor := window.before, window.after, window.anchor;
    next := window;
    while next.estimatedTokens > maxTokens && (|before| > 0 || |after| > 0)
      invariant Around(before, window.anchorIndex, after)
      invariant next == MakeWindow(window.anchorChunkId, window.anchorIndex, before, anchor, after,
                                   window.hasMoreBefore, window.hasMoreAfter)
      invariant Shrink(before, anchor, after, window.anchorIndex, maxTokens)
                == Shrink(window.before, anchor, window.after, window.anchorIndex, maxTokens)
      decreases Measure(before, after)
    {
      var beforeDistance := -1;
      if |before| > 0 {
        beforeDistance := next.anchorIndex - before[0].index;
      }
      var afterDistance := -1;
      if |after| > 0 {
        afterDistance := after[|after| - 1].index - next.anchorIndex;
      }
      var excess := next.estimatedTokens - maxTokens;
      FartherSideIsNotEmpty(before, window.anchorIndex, after);
      ShrinkUnfolds(before, anchor, after, window.anchorIndex, maxTokens);
      if afterDistance >= beforeDistance {
        GivingLastProgresses(before, after, ShrunkLast(after, excess));
        ShrunkIsSound(after[|after| - 1], excess, Head);
        GivingLastStaysAround(before, window.anchorIndex, after, ShrunkLast(after, excess));
        ghost var given := GiveLast(after, ShrunkLast(after, excess));
        var index := |after| - 1;
        var cost := CostOf(after[index]);
        var fitted := FitToSide(after[index], Max(0, cost - excess - 1), Head);
        after := if CannotShrink(fitted, after[index]) then after[..index] else after[index := fitted];
        assert after == given;
      } else {
        GivingFirstProgresses(before, after, ShrunkFirst(before, excess));
        ShrunkIsSound(before[0], excess, Tail);
        GivingFirstStaysAround(before, window.anchorIndex, after, ShrunkFirst(before, excess));
        ghost var given := GiveFirst(before, ShrunkFirst(before, excess));
        var cost := CostOf(before[0]);
        var fitted := FitToSide(before[0], Max(0, cost - excess - 1), Tail);
        before := if CannotShrink(fitted, before[0]) then before[1..] else before[0 := fitted];
        assert before == given;
      }
      next := MakeWindow(window.anchorChunkId, window.anchorIndex, before, anchor, after,
                         window.hasMoreBefore, window.hasMoreAfter);
    }
    ShrinkUnfolds(before, anchor, after, window.anchorIndex, maxTokens);
    AnchorCostsNoMore(before, anchor, after);
    if next.estimatedTokens > maxTokens {
      LoneAnchorCost(anchor);
      anchor := FitExcerptBySerializedBudget(anchor, maxTokens, Focused, true, focus);
      next := MakeWindow(window.anchorChunkId, window.anchorIndex, [], anchor, [],
                         window.hasMoreBefore, window.hasMoreAfter);
    }
  }

  lemma ShrinkUnfolds(before: seq<Excerpt>, anchor: Excerpt, after: seq<Excerpt>, anchorIndex: int, maxTokens: int)
    requires Around(before, anchorIndex, after)
    ensures var excess := WindowCost(before, anchor, after) - maxTokens;
      Shrink(before, anchor, after, anchorIndex, maxTokens) ==
        if excess <= 0 || (before == [] && after == []) then (before, after)
        else if after != [] && AfterIsFarther(before, anchorIndex, after)
        then Shrink(before, anchor, GiveLast(after, ShrunkLast(after, excess)), anchorIndex, maxTokens)
        else if before != []
          then Shrink(GiveFirst(before, ShrunkFirst(before, excess)), anchor, after, anchorIndex, maxTokens)
        else (before, after)
  {
    hide WindowCost, GiveLast, GiveFirst, ShrunkLast, ShrunkFirst, Around, AfterIsFarther;
    if before != [] || after != [] {
      FartherSideIsNotEmpty(before, anchorIndex, after);
    }
  }

  /** The composition of the source. */
  method ComposeWindow(chunks: seq<Chunk>, anchor: Chunk, opts: Options) returns (window: Window)
    ensures window == Composed(chunks, anchor, opts)
  {
    hide Shrink, FitSides, NonEmpty, TrimBefore, TrimAfter, Neighbours, FitAnchor, WindowCost, Cost, MoreBefore,
      MoreAfter, Pool;
    var maxTokens := ClampTokens(opts.maxTokens);
    var pool := LoadPool(chunks, anchor);
    var eligibleBefore := NearestNeighbours(pool, anchor, Before, opts.crossHeading, ClampSide(opts.before));
    var eligibleAfter := NearestNeighbours(pool, anchor, After, opts.crossHeading, ClampSide(opts.after));
    var fitted := FitAnchorToBudget(ExcerptOf(anchor), maxTokens, opts.focus);
    var reading := Reverse(eligibleBefore);
    var before, after := RemoveAdjacentOverlap(ExcerptsOf(reading), fitted, ExcerptsOf(eligibleAfter));
    LoneAnchorCost(fitted);
    var remaining := Max(0, maxTokens - WindowCost([], fitted, []));
    var fittedBefore, fittedAfter := SplitBudget(before, after, remaining);
    PoolIsKeyed(chunks, anchor);
    FittedSidesStayAround(pool, anchor, opts, remaining);
    FittedAnchorIsSound(anchor, opts);
    window := MakeWindow(anchor.id, anchor.index, fittedBefore, fitted, fittedAfter,
                         opts.hasMoreBefore == Set(true), opts.hasMoreAfter == Set(true));
    window := EnforceSerializedBudget(window, maxTokens, opts.focus);
    var first := if |window.before| > 0 then window.before[0] else window.anchor;
    var last := if |window.after| > 0 then window.after[|window.after| - 1] else window.anchor;
    window := MakeWindow(anchor.id, anchor.index, window.before, window.anchor, window.after,
                         MoreBefore(pool, opts, anchor.index, first), MoreAfter(pool, opts, anchor.index, last));
  }

  lemma FittedSidesStayAround(pool: map<int, Chunk>, anchor: Chunk, opts: Options, remaining: nat)
    requires Keyed(pool)
    ensures var (b, a) :=
      FitSides(CandidatesBefore(pool, anchor, opts), CandidatesAfter(pool, anchor, opts), remaining);
      Around(b, anchor.index, a)
  {
    hide CandidatesBefore, CandidatesAfter, FitSides, BeforeRun, AfterRun, Faithful;
    var allBefore, allAfter := CandidatesBefore(pool, anchor, opts), CandidatesAfter(pool, anchor, opts);
    CandidatesBeforeAreSound(pool, anchor, opts);
    CandidatesAfterAreSound(pool, anchor, opts);
    FittedSidesAreRuns(allBefore, allAfter, remaining, pool);
    var (b, a) := FitSides(allBefore, allAfter, remaining);
    RunsStayAround(b, allBefore, a, allAfter, anchor.index);
  }
}
