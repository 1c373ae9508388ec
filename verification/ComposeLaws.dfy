/** What a composed window shows, said of the given chunks and options alone: which chunks are in
    reach, what is shown of them when there is room for all, and what the two hints say. */
module ComposeLaws {
  import opened Text
  import opened Tokens
  import Focus
  import opened Excerpts
  import opened Overlap
  import opened Window
  import opened Compose

  // -------------------------------------------------------------- what is loaded

  predicate IsAt(chunks: seq<Chunk>, anchor: Chunk, i: int, k: int) {
    0 <= k < |chunks| && chunks[k].docId == anchor.docId && chunks[k].baseId == anchor.baseId && chunks[k].index == i
  }

  ghost predicate LastAt(chunks: seq<Chunk>, anchor: Chunk, i: int, k: int) {
    IsAt(chunks, anchor, i, k) && forall l :: k < l < |chunks| ==> !IsAt(chunks, anchor, i, l)
  }

  /** The chunk at an index: the anchor at its own, else the last one given of the anchor's document. */
  ghost predicate IsLoaded(chunks: seq<Chunk>, anchor: Chunk, i: int, c: Chunk) {
    if i == anchor.index then c == anchor else exists k :: LastAt(chunks, anchor, i, k) && chunks[k] == c
  }

  lemma {:induction false} LastIsKept(chunks: seq<Chunk>, anchor: Chunk, i: int)
    ensures var r := DocumentChunks(chunks, anchor);
      && (forall k :: LastAt(chunks, anchor, i, k) ==> i in r && r[i] == chunks[k])
      && (i in r ==> exists k :: LastAt(chunks, anchor, i, k))
  {
    if chunks != [] {
      var n := |chunks| - 1;
      var earlier := chunks[..n];
      LastIsKept(earlier, anchor, i);
      assert forall k :: k != n ==> (IsAt(chunks, anchor, i, k) <==> IsAt(earlier, anchor, i, k));
      if IsAt(chunks, anchor, i, n) {
        assert LastAt(chunks, anchor, i, n);
      } else {
        assert forall k :: LastAt(chunks, anchor, i, k) <==> LastAt(earlier, anchor, i, k);
      }
    }
  }

  /** The pool holds exactly what is loaded. */
  lemma PoolIsLoaded(chunks: seq<Chunk>, anchor: Chunk, i: int, c: Chunk)
    ensures i in Pool(chunks, anchor) && Pool(chunks, anchor)[i] == c <==> IsLoaded(chunks, anchor, i, c)
  {
    hide LastAt, DocumentChunks;
    LastIsKept(chunks, anchor, i);
  }

  // ------------------------------------------------------------ what is in reach

  /** How many neighbours a limit allows: one unless told, never more than ten. */
  function Allowed(limit: Limit): (n: nat) {
    if limit == Default then 1
    else if limit.n <= 0 then 0
    else if limit.n >= 10 then 10
    else limit.n
  }

  /** The token budget: 768 unless a positive one is given, and a million at most. */
  function Budget(opts: Options): (n: nat) {
    if opts.maxTokens <= 0 then 768 else if opts.maxTokens >= 1_000_000 then 1_000_000 else opts.maxTokens
  }

  lemma LimitsAreClamped(opts: Options)
    ensures ClampSide(opts.before) == Allowed(opts.before) && ClampSide(opts.after) == Allowed(opts.after)
    ensures ClampTokens(opts.maxTokens) == Budget(opts)
  {
  }

  predicate UnderHeading(c: Chunk, anchor: Chunk, opts: Options) {
    opts.crossHeading || TrimSpace(c.heading) == TrimSpace(anchor.heading)
  }

  ghost predicate IsOpen(chunks: seq<Chunk>, anchor: Chunk, opts: Options, i: int) {
    exists c :: IsLoaded(chunks, anchor, i, c) && UnderHeading(c, anchor, opts)
  }

  /** Within the limit of its side, with every chunk from there to the anchor
      loaded and under the anchor's heading, unless headings may be crossed. */
  ghost predicate InReach(chunks: seq<Chunk>, anchor: Chunk, opts: Options, i: int) {
    && anchor.index - Allowed(opts.before) <= i <= anchor.index + Allowed(opts.after) && i != anchor.index
    && forall k :: i <= k < anchor.index || anchor.index < k <= i ==> IsOpen(chunks, anchor, opts, k)
  }

  lemma OpenIsInPool(chunks: seq<Chunk>, anchor: Chunk, opts: Options, i: int)
    ensures var pool := Pool(chunks, anchor);
      IsOpen(chunks, anchor, opts, i) <==> i in pool && SameHeading(pool[i], anchor, opts.crossHeading)
  {
    var pool := Pool(chunks, anchor);
    hide IsLoaded, Pool, TrimSpace;
    forall c: Chunk
      ensures i in pool && pool[i] == c <==> IsLoaded(chunks, anchor, i, c)
    {
      PoolIsLoaded(chunks, anchor, i, c);
    }
    if i in pool && SameHeading(pool[i], anchor, opts.crossHeading) {
      assert IsLoaded(chunks, anchor, i, pool[i]) && UnderHeading(pool[i], anchor, opts);
    }
  }

  /** The neighbours the composition takes are exactly the chunks in reach. */
  lemma NeighboursAreInReach(chunks: seq<Chunk>, anchor: Chunk, opts: Options, side: Side, i: int)
    requires if side == Before then i < anchor.index else i > anchor.index
    ensures var limit := Allowed(if side == Before then opts.before else opts.after);
      var near := Neighbours(Pool(chunks, anchor), anchor, side, opts.crossHeading, limit);
      var steps := if side == Before then anchor.index - i else i - anchor.index;
      && |near| <= limit
      && (InReach(chunks, anchor, opts, i) <==> steps <= |near|)
      && (steps <= |near| ==> i in Pool(chunks, anchor) && near[steps - 1] == Pool(chunks, anchor)[i])
  {
    hide IsOpen, Pool, Neighbours, SameHeading, Allowed;
    var pool := Pool(chunks, anchor);
    var limit := Allowed(if side == Before then opts.before else opts.after);
    var near := Neighbours(pool, anchor, side, opts.crossHeading, limit);
    var steps := if side == Before then anchor.index - i else i - anchor.index;
    NeighboursAreNearest(pool, anchor, side, opts.crossHeading, limit);
    forall k: int
      ensures IsOpen(chunks, anchor, opts, k) <==> k in pool && SameHeading(pool[k], anchor, opts.crossHeading)
    {
      OpenIsInPool(chunks, anchor, opts, k);
    }
    if steps <= |near| {
      forall k | i <= k < anchor.index || anchor.index < k <= i
        ensures IsOpen(chunks, anchor, opts, k)
      {
        var j := (if side == Before then anchor.index - k else k - anchor.index) - 1;
        assert InPlace(near[j], At(anchor.index, side, j + 1), pool, anchor, opts.crossHeading);
      }
      assert InPlace(near[steps - 1], At(anchor.index, side, steps), pool, anchor, opts.crossHeading);
    } else if steps <= limit {
      assert !IsOpen(chunks, anchor, opts, At(anchor.index, side, |near| + 1));
    }
  }

  // ---------------------------------------------------------- what can be shown

  /** The excerpt is a part of that chunk, under its identity. */
  predicate IsPartOf(e: Excerpt, c: Chunk) {
    e.chunkId == c.id && e.index == c.index && (e.heading == c.heading || e.heading == "") && Faithful(e, c.text)
  }

  predicate ArePartsOf(es: seq<Excerpt>, pool: map<int, Chunk>) {
    forall e <- es :: e.index in pool && e.chunkId == pool[e.index].id
      && (e.heading == pool[e.index].heading || e.heading == "")
  }

  lemma YieldSuffixKeepsChunk(e: Excerpt, next: string)
    ensures SameChunk(YieldSuffix(e, next), e) && YieldSuffix(e, next).heading == e.heading
  {
  }

  lemma LosePrefixKeepsChunk(e: Excerpt, previous: string)
    ensures SameChunk(LosePrefix(e, previous), e) && LosePrefix(e, previous).heading == e.heading
  {
  }

  lemma TrimmedAreParts(chunks: seq<Chunk>, anchor: string, pool: map<int, Chunk>)
    requires forall c <- chunks :: c.index in pool && pool[c.index] == c
    ensures ArePartsOf(NonEmpty(TrimBefore(ExcerptsOf(chunks), anchor)), pool)
    ensures ArePartsOf(NonEmpty(TrimAfter(anchor, ExcerptsOf(chunks))), pool)
    ensures forall e <- NonEmpty(TrimBefore(ExcerptsOf(chunks), anchor)) :: exists c <- chunks :: c.index == e.index
    ensures forall e <- NonEmpty(TrimAfter(anchor, ExcerptsOf(chunks))) :: exists c <- chunks :: c.index == e.index
  {
    hide YieldSuffix, LosePrefix, NonEmpty, TrimBefore, TrimAfter;
    var es := ExcerptsOf(chunks);
    var before, after := TrimBefore(es, anchor), TrimAfter(anchor, es);
    forall i | 0 <= i < |es|
      ensures SameChunk(before[i], es[i]) && before[i].heading == es[i].heading && chunks[i] in chunks
      ensures SameChunk(after[i], es[i]) && after[i].heading == es[i].heading
    {
      TrimmedElements(es, anchor, i);
      YieldSuffixKeepsChunk(es[i], if i + 1 < |es| then es[i + 1].text else anchor);
      TrimmedLaterElements(anchor, es, i);
      LosePrefixKeepsChunk(es[i], if i > 0 then after[i - 1].text else anchor);
    }
    NonEmptyIsFilter(before);
    NonEmptyIsFilter(after);
  }

  lemma RunsAreParts(before: seq<Excerpt>, allBefore: seq<Excerpt>, after: seq<Excerpt>, allAfter: seq<Excerpt>,
                     pool: map<int, Chunk>)
    requires BeforeRun(before, allBefore) && AfterRun(after, allAfter)
    requires ArePartsOf(allBefore, pool) && ArePartsOf(allAfter, pool)
    ensures ArePartsOf(before, pool) && ArePartsOf(after, pool)
  {
    var offset := |allBefore| - |before|;
    forall i | 0 <= i < |before|
      ensures SameChunk(before[i], allBefore[offset + i]) && allBefore[offset + i] in allBefore
      ensures before[i].heading == allBefore[offset + i].heading || before[i].heading == ""
    {
      if i > 0 {
        assert before[i] == before[1..][i - 1] == allBefore[offset + 1..][i - 1];
      }
    }
    forall i | 0 <= i < |after|
      ensures SameChunk(after[i], allAfter[i]) && allAfter[i] in allAfter
      ensures after[i].heading == allAfter[i].heading || after[i].heading == ""
    {
      if i < |after| - 1 {
        assert after[i] == after[..|after| - 1][i] == allAfter[..|after| - 1][i];
      }
    }
  }

  lemma {:induction false} FilterIsShorter(es: seq<Excerpt>)
    ensures |NonEmpty(es)| <= |es|
  {
    if es != [] {
      FilterIsShorter(es[1..]);
    }
  }

  lemma NeighboursAreLoaded(chunks: seq<Chunk>, anchor: Chunk, opts: Options, side: Side)
    ensures var pool, limit := Pool(chunks, anchor), Allowed(if side == Before then opts.before else opts.after);
      var near := Neighbours(pool, anchor, side, opts.crossHeading, limit);
      && |near| <= limit
      && (forall c <- near :: c.index in pool && pool[c.index] == c && InReach(chunks, anchor, opts, c.index))
      && (forall j :: 0 <= j < |near| ==> near[j].index == At(anchor.index, side, j + 1))
  {
    hide InReach, Pool, Neighbours, Allowed;
    var pool, limit := Pool(chunks, anchor), Allowed(if side == Before then opts.before else opts.after);
    var near := Neighbours(pool, anchor, side, opts.crossHeading, limit);
    PoolIsKeyed(chunks, anchor);
    NeighboursAreInReach(chunks, anchor, opts, side, At(anchor.index, side, 1));
    forall j | 0 <= j < |near|
      ensures near[j].index == At(anchor.index, side, j + 1)
      ensures near[j].index in pool && pool[near[j].index] == near[j]
      ensures InReach(chunks, anchor, opts, near[j].index)
    {
      NeighboursAreInReach(chunks, anchor, opts, side, At(anchor.index, side, j + 1));
    }
  }

  /** The candidates of both sides: no more than their limits allow, of chunks in reach. */
  lemma CandidatesAreInReach(chunks: seq<Chunk>, anchor: Chunk, opts: Options)
    ensures var pool := Pool(chunks, anchor);
      var before, after := CandidatesBefore(pool, anchor, opts), CandidatesAfter(pool, anchor, opts);
      && |before| <= Allowed(opts.before) && |after| <= Allowed(opts.after)
      && ArePartsOf(before, pool) && ArePartsOf(after, pool)
      && (forall e <- before :: InReach(chunks, anchor, opts, e.index))
      && (forall e <- after :: InReach(chunks, anchor, opts, e.index))
  {
    hide InReach, Pool, Neighbours, Allowed, FittedAnchor, TrimBefore, TrimAfter, NonEmpty, ArePartsOf, ClampSide;
    var pool, text := Pool(chunks, anchor), FittedAnchor(anchor, opts).text;
    LimitsAreClamped(opts);
    PoolIsKeyed(chunks, anchor);
    NeighboursAreLoaded(chunks, anchor, opts, Before);
    NeighboursAreLoaded(chunks, anchor, opts, After);
    var reading := Reversed(Neighbours(pool, anchor, Before, opts.crossHeading, Allowed(opts.before)));
    var later := Neighbours(pool, anchor, After, opts.crossHeading, Allowed(opts.after));
    TrimmedAreParts(reading, text, pool);
    TrimmedAreParts(later, text, pool);
    FilterIsShorter(TrimBefore(ExcerptsOf(reading), text));
    FilterIsShorter(TrimAfter(text, ExcerptsOf(later)));
  }

  lemma RunsAreInReach(chunks: seq<Chunk>, anchor: Chunk, opts: Options, run: seq<Excerpt>, all: seq<Excerpt>)
    requires forall i :: 0 <= i < |run| ==> exists e <- all :: e.index == run[i].index
    requires forall e <- all :: InReach(chunks, anchor, opts, e.index)
    ensures forall e <- run :: InReach(chunks, anchor, opts, e.index)
  {
    hide InReach;
  }

  lemma PartsAreLoaded(chunks: seq<Chunk>, anchor: Chunk, es: seq<Excerpt>)
    requires ArePartsOf(es, Pool(chunks, anchor)) && AllFaithful(es, Pool(chunks, anchor))
    ensures forall e <- es :: exists c :: IsLoaded(chunks, anchor, e.index, c) && IsPartOf(e, c)
  {
    hide Pool, IsLoaded, Faithful;
    var pool := Pool(chunks, anchor);
    PoolIsKeyed(chunks, anchor);
    forall e | e in es
      ensures exists c :: IsLoaded(chunks, anchor, e.index, c) && IsPartOf(e, c)
    {
      PoolIsLoaded(chunks, anchor, e.index, pool[e.index]);
      assert IsPartOf(e, pool[e.index]);
    }
  }

  /** Every composed window, of the given chunks and options alone: each side shows no more
      excerpts than its own limit allows, each a part of a chunk in reach on that side. */
  lemma ShownIsInReach(chunks: seq<Chunk>, anchor: Chunk, opts: Options)
    ensures var w := Composed(chunks, anchor, opts);
      && |w.before| <= Allowed(opts.before) && |w.after| <= Allowed(opts.after)
      && w.estimatedTokens <= Budget(opts)
      && (forall e <- w.before :: e.index < anchor.index && InReach(chunks, anchor, opts, e.index))
      && (forall e <- w.after :: e.index > anchor.index && InReach(chunks, anchor, opts, e.index))
      && (forall e <- w.before + w.after :: exists c :: IsLoaded(chunks, anchor, e.index, c) && IsPartOf(e, c))
      && IsPartOf(w.anchor, anchor)
      && (Cost(ExcerptOf(anchor), true) <= Budget(opts) ==> w.anchor == ExcerptOf(anchor))
  {
    hide InReach, Pool, CandidatesBefore, CandidatesAfter, FittedAnchor, BeforeRun, AfterRun, Sides, IsLoaded,
      IsPartOf, Faithful, MoreBefore, MoreAfter, Allowed, Budget, WindowCost, ClampTokens, Cost, ArePartsOf,
      AllFaithful, Increasing;
    var pool, w := Pool(chunks, anchor), Composed(chunks, anchor, opts);
    var allBefore, allAfter := CandidatesBefore(pool, anchor, opts), CandidatesAfter(pool, anchor, opts);
    LimitsAreClamped(opts);
    PoolIsKeyed(chunks, anchor);
    CandidatesAreInReach(chunks, anchor, opts);
    AnchorIsPart(anchor, opts);
    SidesAreSound(pool, anchor, opts);
    RunsKeepOrder(w.before, allBefore, w.after, allAfter);
    RunsAreParts(w.before, allBefore, w.after, allAfter, pool);
    RunsAreInReach(chunks, anchor, opts, w.before, allBefore);
    RunsAreInReach(chunks, anchor, opts, w.after, allAfter);
    PartsAreLoaded(chunks, anchor, w.before);
    PartsAreLoaded(chunks, anchor, w.after);
  }

  lemma AnchorIsPart(anchor: Chunk, opts: Options)
    ensures IsPartOf(FittedAnchor(anchor, opts), anchor)
    ensures Cost(ExcerptOf(anchor), true) <= Budget(opts) ==> FittedAnchor(anchor, opts) == ExcerptOf(anchor)
  {
    hide Cost, Fit, Faithful;
    FittedAnchorIsSound(anchor, opts);
    var e := ExcerptOf(anchor);
    Focus.FocusSpanInText(e.text, opts.focus);
    var range := Focus.FocusSpan(e.text, opts.focus);
    hide Focus.FocusSpan;
    FitMeetsBudget(e, ClampTokens(opts.maxTokens), Focused, true, range);
  }

  // ------------------------------------------------------------ room for all

  /** The tokens of chunks shown whole, with one more each for the separator. */
  function Total(chunks: seq<Chunk>): nat {
    if chunks == [] then 0 else Cost(ExcerptOf(chunks[0]), false) + 1 + Total(chunks[1..])
  }

  predicate NoText(es: seq<Excerpt>) { exists e <- es :: e.text == "" }

  lemma {:induction false} FitBeforeTakesAll(all: seq<Excerpt>, allowance: int)
    requires SideCost(all) <= allowance && !NoText(all)
    ensures FitBefore(all, allowance) == all
    decreases |all|
  {
    hide Fit, SerializeExcerpt, Weight;
    if all != [] {
      var last, rest := all[|all| - 1], all[..|all| - 1];
      assert last in all && rest + [last] == all;
      TextCosts(last);
      FitBeforeTakesAll(rest, allowance - Cost(last, false));
    }
  }

  lemma {:induction false} FitAfterTakesAll(all: seq<Excerpt>, allowance: int)
    requires SideCost(all) <= allowance && !NoText(all)
    ensures FitAfter(all, allowance) == all
    decreases |all|
  {
    hide Fit, SerializeExcerpt, Weight;
    if all != [] {
      var first, rest := all[0], all[1..];
      assert first in all && [first] + rest == all;
      SideCostCons(first, rest);
      TextCosts(first);
      FitAfterTakesAll(rest, allowance - Cost(first, false));
    }
  }

  lemma TextCosts(e: Excerpt)
    requires e.text != ""
    ensures Cost(e, false) > 0
  {
    CostIsPrefixPlusText(e, false);
  }

  lemma SeparatorCostsOne()
    ensures Estimate("\n\n") == 1
  {
    AsciiWeight("\n\n");
  }

  lemma {:induction false} SerializedCost(es: seq<Excerpt>)
    ensures Estimate(SerializeBefore(es)) <= SideCost(es) + |es|
    ensures Estimate(SerializeAfter(es)) <= SideCost(es) + |es|
  {
    hide SerializeExcerpt, Weight, Estimate;
    SeparatorCostsOne();
    if es == [] {
      NothingCosts();
    } else {
      var first, rest := es[0], es[1..];
      var text := SerializeExcerpt(first, false);
      SerializedCost(rest);
      assert [first] + rest == es;
      SideCostCons(first, rest);
      Subadditive(text + "\n\n", SerializeBefore(rest));
      Subadditive(text, "\n\n");
      Subadditive("\n\n" + text, SerializeAfter(rest));
      Subadditive("\n\n", text);
    }
  }

  lemma NothingCosts()
    ensures Estimate("") == 0
  {
  }

  lemma SideTokensBound(es: seq<Excerpt>)
    ensures SideTokens(es) <= SideCost(es) + |es|
    ensures es != [] ==> SideTokens(es) < SideCost(es) + |es|
  {
    hide SerializeExcerpt, Weight, Estimate;
    if es != [] {
      var first, rest := es[0], es[1..];
      assert [first] + rest == es;
      SideCostCons(first, rest);
      SerializedCost(rest);
      Subadditive(SerializeExcerpt(first, false), SerializeAfter(rest));
    }
  }

  /** With room for both sides, and a separator for each excerpt, the split takes all of both. */
  lemma SplitTakesAll(before: seq<Excerpt>, after: seq<Excerpt>, remaining: nat)
    requires !NoText(before) && !NoText(after)
    requires SideCost(before) + |before| + SideCost(after) + |after| <= remaining
    ensures FitSides(before, after, remaining) == (before, after)
  {
    hide FitBefore, FitAfter, SideCost, SideTokens, NoText;
    NothingToFill();
    SideTokensBound(before);
    SideTokensBound(after);
    forall allowance | allowance >= SideCost(before)
      ensures FitBefore(before, allowance) == before
    {
      FitBeforeTakesAll(before, allowance);
    }
    forall allowance | allowance >= SideCost(after)
      ensures FitAfter(after, allowance) == after
    {
      FitAfterTakesAll(after, allowance);
    }
  }

  lemma WholeWindowCost(before: seq<Excerpt>, anchor: Excerpt, after: seq<Excerpt>)
    ensures WindowCost(before, anchor, after)
            <= Cost(anchor, true) + SideCost(before) + |before| + SideCost(after) + |after|
  {
    hide SerializeExcerpt, Weight, Estimate, SerializeBefore, SerializeAfter;
    var text := SerializeExcerpt(anchor, true);
    SerializedCost(before);
    SerializedCost(after);
    Subadditive(SerializeBefore(before) + text, SerializeAfter(after));
    Subadditive(SerializeBefore(before), text);
  }

  /** With room for all candidates the window shows all of them, untouched. */
  lemma RoomForCandidates(pool: map<int, Chunk>, anchor: Chunk, opts: Options)
    requires var before, after := CandidatesBefore(pool, anchor, opts), CandidatesAfter(pool, anchor, opts);
      Cost(FittedAnchor(anchor, opts), true) + SideCost(before) + |before| + SideCost(after) + |after|
      <= ClampTokens(opts.maxTokens)
    requires !NoText(CandidatesBefore(pool, anchor, opts)) && !NoText(CandidatesAfter(pool, anchor, opts))
    ensures Sides(pool, anchor, opts) == (CandidatesBefore(pool, anchor, opts), CandidatesAfter(pool, anchor, opts))
  {
    hide CandidatesBefore, CandidatesAfter, FittedAnchor, SideCost, NoText, FitSides, WindowCost, Cost;
    var before, after := CandidatesBefore(pool, anchor, opts), CandidatesAfter(pool, anchor, opts);
    var fitted := FittedAnchor(anchor, opts);
    SplitTakesAll(before, after, Max(0, ClampTokens(opts.maxTokens) - Cost(fitted, true)));
    WholeWindowCost(before, fitted, after);
  }

  // ------------------------------------------------------ what room for all shows

  /** near lists, in index order, what is loaded from first on: the chunks in reach and, among them, the anchor. */
  ghost predicate IsReach(chunks: seq<Chunk>, anchor: Chunk, opts: Options, first: int, near: seq<Chunk>) {
    && first <= anchor.index < first + |near|
    && (forall k :: 0 <= k < |near| ==> IsLoaded(chunks, anchor, first + k, near[k]))
    && (forall i :: InReach(chunks, anchor, opts, i) <==> first <= i < first + |near| && i != anchor.index)
  }

  lemma ReachIsNeighbours(chunks: seq<Chunk>, anchor: Chunk, opts: Options, first: int, near: seq<Chunk>)
    requires IsReach(chunks, anchor, opts, first, near)
    ensures var pool, m := Pool(chunks, anchor), anchor.index - first;
      && near[..m] == Reversed(Neighbours(pool, anchor, Before, opts.crossHeading, Allowed(opts.before)))
      && near[m + 1..] == Neighbours(pool, anchor, After, opts.crossHeading, Allowed(opts.after))
  {
    hide InReach, IsLoaded, Pool, Neighbours, Allowed;
    var pool, m := Pool(chunks, anchor), anchor.index - first;
    var before := Neighbours(pool, anchor, Before, opts.crossHeading, Allowed(opts.before));
    var after := Neighbours(pool, anchor, After, opts.crossHeading, Allowed(opts.after));
    NeighboursAreInReach(chunks, anchor, opts, Before, first - 1);
    NeighboursAreInReach(chunks, anchor, opts, After, first + |near|);
    if m > 0 {
      NeighboursAreInReach(chunks, anchor, opts, Before, first);
    }
    if m < |near| - 1 {
      NeighboursAreInReach(chunks, anchor, opts, After, first + |near| - 1);
    }
    forall k | 0 <= k < |near| && k != m
      ensures near[k] == if k < m then before[m - k - 1] else after[k - m - 1]
    {
      NeighboursAreInReach(chunks, anchor, opts, if k < m then Before else After, first + k);
      PoolIsLoaded(chunks, anchor, first + k, near[k]);
    }
  }

  /** Every request has such a list. */
  lemma ReachIsListed(chunks: seq<Chunk>, anchor: Chunk, opts: Options) returns (first: int, near: seq<Chunk>)
    ensures IsReach(chunks, anchor, opts, first, near)
  {
    hide InReach, IsLoaded, Pool, Neighbours, Allowed;
    var pool := Pool(chunks, anchor);
    var before := Neighbours(pool, anchor, Before, opts.crossHeading, Allowed(opts.before));
    var after := Neighbours(pool, anchor, After, opts.crossHeading, Allowed(opts.after));
    first, near := anchor.index - |before|, Reversed(before) + [anchor] + after;
    forall i: int
      ensures InReach(chunks, anchor, opts, i) <==> first <= i < first + |near| && i != anchor.index
    {
      AnchorIsLoaded(chunks, anchor, opts);
      if i != anchor.index {
        NeighboursAreInReach(chunks, anchor, opts, if i < anchor.index then Before else After, i);
      }
    }
    forall k | 0 <= k < |near| && k != |before|
      ensures IsLoaded(chunks, anchor, first + k, near[k])
    {
      NeighboursAreInReach(chunks, anchor, opts, if k < |before| then Before else After, first + k);
      assert near[k] == if k < |before| then before[|before| - k - 1] else after[k - |before| - 1];
      PoolIsLoaded(chunks, anchor, first + k, near[k]);
    }
    AnchorIsLoaded(chunks, anchor, opts);
  }

  lemma AnchorIsLoaded(chunks: seq<Chunk>, anchor: Chunk, opts: Options)
    ensures IsLoaded(chunks, anchor, anchor.index, anchor) && !InReach(chunks, anchor, opts, anchor.index)
  {
  }

  predicate Repeats(left: string, right: string, n: nat) {
    24 <= n <= |left| && n <= |right| && left[|left| - n..] == right[..n]
  }

  /** The right text opens with the last n symbols of the left one, and with no more of them;
      fewer than 24 do not count. */
  ghost predicate LongestRepeat(left: string, right: string, n: nat) {
    (n == 0 || Repeats(left, right, n)) && forall l: nat :: l > n ==> !Repeats(left, right, l)
  }

  lemma OverlapIsLongestRepeat(left: string, right: string)
    ensures LongestRepeat(left, right, LongestOverlap(left, right))
    ensures LongestOverlap(left, right) == 0 || LongestOverlap(left, right) >= MIN_OVERLAP_CHARS
  {
    var n := LongestOverlap(left, right);
    forall l: nat | l > n
      ensures !Repeats(left, right, l)
    {
      assert l <= Min(|left|, |right|) && l >= MIN_OVERLAP_CHARS ==> !Overlaps(left, right, l);
    }
  }

  /** Exactly that part of the chunk is shown, and nothing of it when the part is empty. */
  predicate ShowsPart(es: seq<Excerpt>, c: Chunk, from: int, to: int) {
    && 0 <= from <= to <= |c.text|
    && if from == to then forall e <- es :: e.index != c.index
       else exists e <- es ::
         && e.chunkId == c.id && e.index == c.index && e.heading == c.heading
         && e.textStart == from && e.textEnd == to && e.text == c.text[from..to]
  }

  /** The text shown of the chunk at an index. */
  function TextAt(es: seq<Excerpt>, i: int): string {
    if es == [] then "" else if es[0].index == i then es[0].text else TextAt(es[1..], i)
  }

  /** All of an earlier chunk but what the text next to it repeats. */
  ghost predicate ShowsAllBut(es: seq<Excerpt>, c: Chunk, next: string) {
    exists n: nat :: LongestRepeat(c.text, next, n) && ShowsPart(es, c, 0, |c.text| - n)
  }

  /** All of a later chunk but what it repeats of the text shown next to it. */
  ghost predicate ShowsAllAfter(es: seq<Excerpt>, c: Chunk, previous: string) {
    exists n: nat :: LongestRepeat(previous, c.text, n) && ShowsPart(es, c, n, |c.text|)
  }

  lemma {:induction false} TextAtIndex(es: seq<Excerpt>, i: int)
    requires Increasing(es)
    ensures forall e <- es :: e.index == i ==> TextAt(es, i) == e.text
    ensures (forall e <- es :: e.index != i) ==> TextAt(es, i) == ""
  {
    if es != [] {
      TextAtIndex(es[1..], i);
      assert es == [es[0]] + es[1..];
    }
  }

  lemma {:induction false} NonEmptyAreKept(es: seq<Excerpt>)
    ensures forall e <- es :: e.text != "" ==> e in NonEmpty(es)
  {
    if es != [] {
      NonEmptyAreKept(es[1..]);
      assert es == [es[0]] + es[1..];
    }
  }

  /** What filtering leaves of the excerpt at a place. */
  lemma FilterShows(es: seq<Excerpt>, k: nat)
    requires Increasing(es) && k < |es|
    ensures TextAt(NonEmpty(es), es[k].index) == es[k].text
    ensures if es[k].text == "" then forall e <- NonEmpty(es) :: e.index != es[k].index else es[k] in NonEmpty(es)
  {
    hide NonEmpty, TextAt;
    NonEmptyIsFilter(es);
    NonEmptyAreKept(es);
    TextAtIndex(NonEmpty(es), es[k].index);
    if es[k].text == "" {
      forall e | e in NonEmpty(es)
        ensures e.index != es[k].index
      {
        var j :| 0 <= j < |es| && es[j] == e;
      }
    }
  }

  predicate InOrder(chunks: seq<Chunk>) { forall j, k :: 0 <= j < k < |chunks| ==> chunks[j].index < chunks[k].index }

  lemma TrimmedStayInOrder(chunks: seq<Chunk>, anchor: string)
    requires InOrder(chunks)
    ensures Increasing(TrimBefore(ExcerptsOf(chunks), anchor)) && Increasing(TrimAfter(anchor, ExcerptsOf(chunks)))
  {
    hide YieldSuffix, LosePrefix, TrimBefore, TrimAfter;
    var es := ExcerptsOf(chunks);
    var before, after := TrimBefore(es, anchor), TrimAfter(anchor, es);
    forall i | 0 <= i < |es|
      ensures before[i].index == chunks[i].index && after[i].index == chunks[i].index
    {
      TrimmedElements(es, anchor, i);
      YieldSuffixKeepsChunk(es[i], if i + 1 < |es| then es[i + 1].text else anchor);
      TrimmedLaterElements(anchor, es, i);
      LosePrefixKeepsChunk(es[i], if i > 0 then after[i - 1].text else anchor);
    }
  }

  lemma EarlierAreShown(chunks: seq<Chunk>, anchor: string, k: nat)
    requires InOrder(chunks) && k < |chunks|
    ensures ShowsAllBut(NonEmpty(TrimBefore(ExcerptsOf(chunks), anchor)), chunks[k],
                        if k + 1 < |chunks| then chunks[k + 1].text else anchor)
  {
    hide NonEmpty, TrimBefore, LongestRepeat, LongestOverlap, TextAt;
    var es := ExcerptsOf(chunks);
    var trimmed, c := TrimBefore(es, anchor), chunks[k];
    var next := if k + 1 < |chunks| then chunks[k + 1].text else anchor;
    TrimmedStayInOrder(chunks, anchor);
    TrimmedElements(es, anchor, k);
    FilterShows(trimmed, k);
    OverlapIsLongestRepeat(c.text, next);
    var n := LongestOverlap(c.text, next);
    LongestRepeatFits(c.text, next, n);
    assert c.text[..|c.text|] == c.text;
    assert ShowsPart(NonEmpty(trimmed), c, 0, |c.text| - n);
  }

  lemma LongestRepeatFits(left: string, right: string, n: nat)
    requires LongestRepeat(left, right, n)
    ensures n <= |left| && n <= |right|
  {
  }

  lemma LaterAreShown(anchor: string, chunks: seq<Chunk>, k: nat)
    requires InOrder(chunks) && k < |chunks|
    ensures var shown := NonEmpty(TrimAfter(anchor, ExcerptsOf(chunks)));
      ShowsAllAfter(shown, chunks[k], TextBefore(anchor, shown, chunks, k))
  {
    hide NonEmpty, TrimAfter, LongestRepeat, LongestOverlap, TextAt;
    var es := ExcerptsOf(chunks);
    var trimmed, c := TrimAfter(anchor, es), chunks[k];
    TrimmedStayInOrder(chunks, anchor);
    TrimmedLaterElements(anchor, es, k);
    FilterShows(trimmed, k);
    if k > 0 {
      TrimmedLaterElements(anchor, es, k - 1);
      FilterShows(trimmed, k - 1);
    }
    var previous := if k == 0 then anchor else trimmed[k - 1].text;
    OverlapIsLongestRepeat(previous, c.text);
    var n := LongestOverlap(previous, c.text);
    LongestRepeatFits(previous, c.text, n);
    assert c.text[0..] == c.text;
    assert ShowsPart(NonEmpty(trimmed), c, n, |c.text|);
  }

  lemma PartCostsNoMoreThanWhole(e: Excerpt, c: Chunk)
    requires e.heading == c.heading && Faithful(e, c.text)
    ensures Cost(e, false) <= Cost(ExcerptOf(c), false)
  {
    hide Weight;
    CostIsPrefixPlusText(e, false);
    CostIsPrefixPlusText(ExcerptOf(c), false);
    NestedWindows(c.text, e.textStart, e.textEnd, 0, |c.text|);
    assert c.text[0..|c.text|] == c.text;
  }

  lemma {:induction false} FilteredCost(es: seq<Excerpt>, chunks: seq<Chunk>)
    requires |es| == |chunks|
    requires forall k :: 0 <= k < |es| ==> es[k].heading == chunks[k].heading && Faithful(es[k], chunks[k].text)
    ensures SideCost(NonEmpty(es)) + |NonEmpty(es)| <= Total(chunks)
    ensures !NoText(NonEmpty(es))
  {
    hide Cost, Faithful;
    if es != [] {
      FilteredCost(es[1..], chunks[1..]);
      PartCostsNoMoreThanWhole(es[0], chunks[0]);
      SideCostCons(es[0], NonEmpty(es[1..]));
      assert NonEmpty(es) == if es[0].text == "" then NonEmpty(es[1..]) else [es[0]] + NonEmpty(es[1..]);
    }
  }

  lemma TrimmedCost(chunks: seq<Chunk>, anchor: string)
    ensures var es := ExcerptsOf(chunks); var before, after := TrimBefore(es, anchor), TrimAfter(anchor, es);
      && SideCost(NonEmpty(before)) + |NonEmpty(before)| <= Total(chunks) && !NoText(NonEmpty(before))
      && SideCost(NonEmpty(after)) + |NonEmpty(after)| <= Total(chunks) && !NoText(NonEmpty(after))
  {
    hide YieldSuffix, LosePrefix, TrimBefore, TrimAfter, NonEmpty, SideCost, Total, NoText, Faithful;
    var es := ExcerptsOf(chunks);
    var before, after := TrimBefore(es, anchor), TrimAfter(anchor, es);
    forall k | 0 <= k < |es|
      ensures before[k].heading == chunks[k].heading && Faithful(before[k], chunks[k].text)
      ensures after[k].heading == chunks[k].heading && Faithful(after[k], chunks[k].text)
    {
      var next := if k + 1 < |es| then es[k + 1].text else anchor;
      var previous := if k > 0 then after[k - 1].text else anchor;
      WholeIsFaithful(chunks[k]);
      TrimmedElements(es, anchor, k);
      YieldSuffixKeepsChunk(es[k], next);
      YieldSuffixIsFaithful(es[k], next, chunks[k].text);
      TrimmedLaterElements(anchor, es, k);
      LosePrefixKeepsChunk(es[k], previous);
      LosePrefixIsFaithful(es[k], previous, chunks[k].text);
    }
    FilteredCost(before, chunks);
    FilteredCost(after, chunks);
  }

  lemma WholeIsFaithful(c: Chunk)
    ensures Faithful(ExcerptOf(c), c.text)
  {
  }

  /** With room for all, the candidates are shown as they are. */
  lemma RoomShowsCandidates(chunks: seq<Chunk>, anchor: Chunk, opts: Options, first: int, near: seq<Chunk>)
    requires IsReach(chunks, anchor, opts, first, near)
    requires var m := anchor.index - first;
      Cost(Composed(chunks, anchor, opts).anchor, true) + Total(near[..m]) + Total(near[m + 1..]) <= Budget(opts)
    ensures var w, m := Composed(chunks, anchor, opts), anchor.index - first;
      && w.before == NonEmpty(TrimBefore(ExcerptsOf(near[..m]), w.anchor.text))
      && w.after == NonEmpty(TrimAfter(w.anchor.text, ExcerptsOf(near[m + 1..])))
  {
    hide InReach, IsLoaded, FittedAnchor, Pool, Neighbours, TrimBefore, TrimAfter, NonEmpty, Cost, Total, NoText,
      Allowed, ClampSide, ClampTokens, Budget, MoreBefore, MoreAfter, WindowCost, SideCost, Sides;
    var m, pool, text := anchor.index - first, Pool(chunks, anchor), FittedAnchor(anchor, opts).text;
    LimitsAreClamped(opts);
    ReachIsNeighbours(chunks, anchor, opts, first, near);
    TrimmedCost(near[..m], text);
    TrimmedCost(near[m + 1..], text);
    RoomForCandidates(pool, anchor, opts);
  }

  /** Of each of these chunks the excerpts show all but what the text next to it repeats. */
  ghost predicate ShowsEarlier(es: seq<Excerpt>, chunks: seq<Chunk>, anchor: string) {
    forall k :: 0 <= k < |chunks| ==>
      ShowsAllBut(es, chunks[k], if k + 1 < |chunks| then chunks[k + 1].text else anchor)
  }

  /** The text shown next to a later chunk, on its side facing the anchor. */
  function TextBefore(anchor: string, es: seq<Excerpt>, chunks: seq<Chunk>, k: nat): string
    requires k < |chunks|
  {
    if k == 0 then anchor else TextAt(es, chunks[k - 1].index)
  }

  ghost predicate ShowsLater(anchor: string, es: seq<Excerpt>, chunks: seq<Chunk>) {
    forall k :: 0 <= k < |chunks| ==> ShowsAllAfter(es, chunks[k], TextBefore(anchor, es, chunks, k))
  }

  /** When all chunks in reach fit beside the anchor, the window shows every one of them: of an earlier
      chunk all but what the next text repeats, of a later one all but what it repeats itself. */
  lemma RoomShowsAll(chunks: seq<Chunk>, anchor: Chunk, opts: Options, first: int, near: seq<Chunk>)
    requires IsReach(chunks, anchor, opts, first, near)
    requires var m := anchor.index - first;
      Cost(Composed(chunks, anchor, opts).anchor, true) + Total(near[..m]) + Total(near[m + 1..]) <= Budget(opts)
    ensures var w, m := Composed(chunks, anchor, opts), anchor.index - first;
      ShowsEarlier(w.before, near[..m], w.anchor.text) && ShowsLater(w.anchor.text, w.after, near[m + 1..])
  {
    hide InReach, IsLoaded, Composed, TrimBefore, TrimAfter, NonEmpty, Cost, Total, Budget, ShowsAllBut, ShowsAllAfter,
      TextAt, InOrder;
    var w, m := Composed(chunks, anchor, opts), anchor.index - first;
    RoomShowsCandidates(chunks, anchor, opts, first, near);
    ReachIsInOrder(chunks, anchor, opts, first, near);
    AllEarlierAreShown(near[..m], w.anchor.text);
    AllLaterAreShown(w.anchor.text, near[m + 1..]);
  }

  lemma AllEarlierAreShown(chunks: seq<Chunk>, anchor: string)
    requires InOrder(chunks)
    ensures ShowsEarlier(NonEmpty(TrimBefore(ExcerptsOf(chunks), anchor)), chunks, anchor)
  {
    hide NonEmpty, TrimBefore, ShowsAllBut, InOrder;
    forall k | 0 <= k < |chunks|
      ensures ShowsAllBut(NonEmpty(TrimBefore(ExcerptsOf(chunks), anchor)), chunks[k],
                          if k + 1 < |chunks| then chunks[k + 1].text else anchor)
    {
      EarlierAreShown(chunks, anchor, k);
    }
  }

  lemma AllLaterAreShown(anchor: string, chunks: seq<Chunk>)
    requires InOrder(chunks)
    ensures ShowsLater(anchor, NonEmpty(TrimAfter(anchor, ExcerptsOf(chunks))), chunks)
  {
    hide NonEmpty, TrimAfter, ShowsAllAfter, InOrder;
    var shown := NonEmpty(TrimAfter(anchor, ExcerptsOf(chunks)));
    forall k | 0 <= k < |chunks|
      ensures ShowsAllAfter(shown, chunks[k], TextBefore(anchor, shown, chunks, k))
    {
      LaterAreShown(anchor, chunks, k);
    }
  }

  lemma ReachIsInOrder(chunks: seq<Chunk>, anchor: Chunk, opts: Options, first: int, near: seq<Chunk>)
    requires IsReach(chunks, anchor, opts, first, near)
    ensures var m := anchor.index - first; InOrder(near[..m]) && InOrder(near[m + 1..])
  {
    hide InReach, IsLoaded, Pool;
    PoolIsKeyed(chunks, anchor);
    forall k | 0 <= k < |near|
      ensures near[k].index == first + k
    {
      PoolIsLoaded(chunks, anchor, first + k, near[k]);
    }
  }

  // ------------------------------------------------------------------- the hints

  ghost predicate HasChunk(chunks: seq<Chunk>, anchor: Chunk, i: int) { exists c :: IsLoaded(chunks, anchor, i, c) }

  lemma PoolHasChunk(chunks: seq<Chunk>, anchor: Chunk, i: int)
    ensures i in Pool(chunks, anchor) <==> HasChunk(chunks, anchor, i)
  {
    hide Pool, IsLoaded;
    var pool := Pool(chunks, anchor);
    if i in pool {
      PoolIsLoaded(chunks, anchor, i, pool[i]);
    }
    forall c | IsLoaded(chunks, anchor, i, c)
      ensures i in pool
    {
      PoolIsLoaded(chunks, anchor, i, c);
    }
  }

  /** The flags of the outermost excerpts say whether their chunks go on. */
  lemma EndsAreFaithful(chunks: seq<Chunk>, anchor: Chunk, opts: Options)
    ensures var w, pool := Composed(chunks, anchor, opts), Pool(chunks, anchor);
      var first, last := FirstOf(w.before, w.anchor), LastOf(w.anchor, w.after);
      && first.index <= anchor.index <= last.index && last.index in pool
      && (first.truncatedStart <==> first.textStart > 0)
      && (last.truncatedEnd <==> last.textEnd < |pool[last.index].text|)
  {
    hide Sides, FittedAnchor, BeforeRun, AfterRun, CandidatesBefore, CandidatesAfter, Cost, WindowCost, Pool,
      MoreBefore, MoreAfter;
    var pool, w := Pool(chunks, anchor), Composed(chunks, anchor, opts);
    PoolIsKeyed(chunks, anchor);
    ComposedIsSound(chunks, anchor, opts);
    FittedAnchorIsSound(anchor, opts);
    var all := w.before + [w.anchor] + w.after;
    var first, last := FirstOf(w.before, w.anchor), LastOf(w.anchor, w.after);
    assert all[0] == first && all[|all| - 1] == last && all[|w.before|] == w.anchor;
    assert Faithful(all[0], pool[all[0].index].text) && Faithful(all[|all| - 1], pool[all[|all| - 1].index].text);
  }

  /** The hints: as told; else whether the first excerpt is cut, is not of chunk 0, or has a chunk
      loaded before it; and whether the last one is cut, or the document goes on after it. */
  lemma HintsAreExact(chunks: seq<Chunk>, anchor: Chunk, opts: Options)
    ensures var w := Composed(chunks, anchor, opts);
      var first, last := if w.before == [] then w.anchor else w.before[0],
        if w.after == [] then w.anchor else w.after[|w.after| - 1];
      && (w.hasMoreBefore <==>
            if opts.hasMoreBefore.Set? then opts.hasMoreBefore.flag
            else first.textStart > 0 || first.index > 0 || exists i :: i < first.index && HasChunk(chunks, anchor, i))
      && exists c :: IsLoaded(chunks, anchor, last.index, c) && (w.hasMoreAfter <==>
           if opts.hasMoreAfter.Set? then opts.hasMoreAfter.flag
           else || last.textEnd < |c.text|
                || if opts.documentChunkCount > 0 then last.index < opts.documentChunkCount - 1
                   else exists i :: i > last.index && HasChunk(chunks, anchor, i))
  {
    hide Sides, FittedAnchor, WindowCost, Pool, IsLoaded, HasChunk;
    var pool, w := Pool(chunks, anchor), Composed(chunks, anchor, opts);
    EndsAreFaithful(chunks, anchor, opts);
    forall i: int
      ensures i in pool <==> HasChunk(chunks, anchor, i)
    {
      PoolHasChunk(chunks, anchor, i);
    }
    var last := LastOf(w.anchor, w.after);
    PoolIsLoaded(chunks, anchor, last.index, pool[last.index]);
  }
}
