/** Composing the evidence window around one anchor chunk. */
module Window {
  import opened Text
  import opened Tokens
  import Focus
  import opened Excerpts
  import opened Wrappers

  datatype Chunk = Chunk(id: string, docId: string, baseId: string, index: int, text: string, heading: string)

  datatype Window = Window(anchorChunkId: string, anchorIndex: int,
                           before: seq<Excerpt>, anchor: Excerpt, after: seq<Excerpt>,
                           estimatedTokens: nat, hasMoreBefore: bool, hasMoreAfter: bool)

  datatype Hint = Unset | Set(flag: bool)
  datatype Limit = Default | Explicit(n: int)

  datatype Options = Options(before: Limit, after: Limit, maxTokens: int, focus: string,
                             crossHeading: bool, documentChunkCount: int,
                             hasMoreBefore: Hint, hasMoreAfter: Hint)

  const NO_FOCUS: Option<Focus.Span> := None

  // ---------------------------------------------------------- serialization

  /** The excerpts of one side, each preceded by the separator. */
  function SerializeAfter(es: seq<Excerpt>): string {
    if es == [] then "" else "\n\n" + SerializeExcerpt(es[0], false) + SerializeAfter(es[1..])
  }

  /** The excerpts of one side, each followed by the separator. */
  function SerializeBefore(es: seq<Excerpt>): string {
    if es == [] then "" else SerializeExcerpt(es[0], false) + "\n\n" + SerializeBefore(es[1..])
  }

  function Serialize(before: seq<Excerpt>, anchor: Excerpt, after: seq<Excerpt>): string {
    SerializeBefore(before) + SerializeExcerpt(anchor, true) + SerializeAfter(after)
  }

  function WindowCost(before: seq<Excerpt>, anchor: Excerpt, after: seq<Excerpt>): nat {
    Estimate(Serialize(before, anchor, after))
  }

  function SideTokens(es: seq<Excerpt>): nat {
    if es == [] then 0 else Estimate(SerializeExcerpt(es[0], false) + SerializeAfter(es[1..]))
  }

  function MakeWindow(anchorId: string, anchorIndex: int, before: seq<Excerpt>, anchor: Excerpt,
                      after: seq<Excerpt>, hasMoreBefore: bool, hasMoreAfter: bool): Window
  {
    Window(anchorId, anchorIndex, before, anchor, after, WindowCost(before, anchor, after),
           hasMoreBefore, hasMoreAfter)
  }

  /** A window never costs less than its anchor. */
  lemma AnchorCostsNoMore(before: seq<Excerpt>, anchor: Excerpt, after: seq<Excerpt>)
    ensures Cost(anchor, true) <= WindowCost(before, anchor, after)
  {
    PartCostsNoMore(SerializeBefore(before), SerializeExcerpt(anchor, true), SerializeAfter(after));
  }

  lemma LoneAnchorCost(anchor: Excerpt)
    ensures WindowCost([], anchor, []) == Cost(anchor, true)
  {
    assert Serialize([], anchor, []) == SerializeExcerpt(anchor, true);
  }

  // ------------------------------------------------------ runs near the anchor

  /** r is what is left of e when only its side facing the anchor is kept. */
  predicate KeepsNear(r: Excerpt, e: Excerpt, mode: Mode) {
    && SameChunk(r, e)
    && (r.heading == e.heading || r.heading == "")
    && |r.text| <= |e.text|
    && (mode == Tail ==> r.text == e.text[|e.text| - |r.text|..] && r.textEnd == e.textEnd)
    && (mode == Head ==> r.text == e.text[..|r.text|] && r.textStart == e.textStart)
  }

  /** In reading order: the last excerpts of all, whole but for the first of them. */
  predicate BeforeRun(run: seq<Excerpt>, all: seq<Excerpt>) {
    && |run| <= |all|
    && (run != [] ==>
          && run[1..] == all[|all| - |run| + 1..]
          && KeepsNear(run[0], all[|all| - |run|], Tail))
  }

  /** The first excerpts of all, whole but for the last of them. */
  predicate AfterRun(run: seq<Excerpt>, all: seq<Excerpt>) {
    && |run| <= |all|
    && (run != [] ==>
          && run[..|run| - 1] == all[..|run| - 1]
          && KeepsNear(run[|run| - 1], all[|run| - 1], Head))
  }

  predicate Consistent(e: Excerpt) { e.textEnd == e.textStart + |e.text| }

  predicate AllConsistent(es: seq<Excerpt>) { forall e <- es :: Consistent(e) }

  /** Side crops keep the side that faces the anchor. */
  lemma FitKeepsNear(e: Excerpt, budget: int, mode: Mode)
    requires mode != Focused && Consistent(e) && budget > 0
    requires Fit(e, budget, mode, false, NO_FOCUS).text != ""
    ensures var r := Fit(e, budget, mode, false, NO_FOCUS);
      KeepsNear(r, e, mode) && Consistent(r) && Cost(r, false) <= budget
  {
    hide FitCropped, Cost, KeepsNear, Slice;
    FitMeetsBudget(e, budget, mode, false, NO_FOCUS);
    if Cost(e, false) <= budget {
      KeepsNearItself(e, mode);
    } else {
      FitCroppedKeepsNear(FitSource(e, budget, false), budget, mode);
      HeadingIsNoText(FitCropped(FitSource(e, budget, false), budget, mode, false, NO_FOCUS), e, mode);
    }
  }

  lemma KeepsNearItself(e: Excerpt, mode: Mode)
    ensures KeepsNear(e, e, mode)
  {
  }

  lemma HeadingIsNoText(r: Excerpt, e: Excerpt, mode: Mode)
    ensures KeepsNear(r, e.(heading := ""), mode) ==> KeepsNear(r, e, mode)
  {
  }

  lemma FitCroppedKeepsNear(e: Excerpt, budget: int, mode: Mode)
    requires mode != Focused && Consistent(e)
    requires FitCropped(e, budget, mode, false, NO_FOCUS).text != ""
    ensures var r := FitCropped(e, budget, mode, false, NO_FOCUS); KeepsNear(r, e, mode) && Consistent(r)
  {
    var length := LongestFit(e, budget, mode, false, NO_FOCUS);
    LargestPasses(FitsAt(e, budget, mode, false, NO_FOCUS), |e.text|);
    hide LongestFit, FitsAt;
    CropText(e, length, mode, NO_FOCUS);
    CropKeepsNear(e, length, mode);
  }

  lemma CropKeepsNear(e: Excerpt, length: int, mode: Mode)
    requires mode != Focused && Consistent(e)
    requires 0 < length
    ensures var r := Crop(e, length, mode, NO_FOCUS); KeepsNear(r, e, mode) && Consistent(r)
  {
    CutBounds(e.text, length, mode, NO_FOCUS);
    hide SentenceEnd, SentenceStart;
  }

  // ------------------------------------------------------------- one side

  /** Nearest first; the first that does not fit is cropped and ends the side. */
  function FitBefore(all: seq<Excerpt>, allowance: int): (r: seq<Excerpt>)
    ensures |r| <= |all|
  {
    if allowance <= 0 || all == [] then []
    else
      var last := all[|all| - 1];
      if Cost(last, false) <= allowance then
        FitBefore(all[..|all| - 1], allowance - Cost(last, false)) + [last]
      else
        var fitted := Fit(last, allowance, Tail, false, NO_FOCUS);
        if fitted.text != "" then [fitted] else []
  }

  function FitAfter(all: seq<Excerpt>, allowance: int): (r: seq<Excerpt>)
    ensures |r| <= |all|
  {
    if allowance <= 0 || all == [] then []
    else
      var first := all[0];
      if Cost(first, false) <= allowance then
        [first] + FitAfter(all[1..], allowance - Cost(first, false))
      else
        var fitted := Fit(first, allowance, Head, false, NO_FOCUS);
        if fitted.text != "" then [fitted] else []
  }

  function SideCost(es: seq<Excerpt>): nat {
    if es == [] then 0 else SideCost(es[..|es| - 1]) + Cost(es[|es| - 1], false)
  }

  lemma BeforeRunExtends(run: seq<Excerpt>, all: seq<Excerpt>, last: Excerpt)
    requires BeforeRun(run, all)
    ensures BeforeRun(run + [last], all + [last])
  {
    KeepsNearItself(last, Tail);
    hide KeepsNear;
    var run', all' := run + [last], all + [last];
    if run != [] {
      assert run'[1..] == run[1..] + [last];
      assert all'[|all'| - |run'| + 1..] == all[|all| - |run| + 1..] + [last];
    }
  }

  lemma AfterRunExtends(first: Excerpt, run: seq<Excerpt>, all: seq<Excerpt>)
    requires AfterRun(run, all)
    ensures AfterRun([first] + run, [first] + all)
  {
    KeepsNearItself(first, Head);
    hide KeepsNear;
    var run', all' := [first] + run, [first] + all;
    if run != [] {
      assert run'[..|run'| - 1] == [first] + run[..|run| - 1];
      assert all'[..|run'| - 1] == [first] + all[..|run| - 1];
    }
  }

  lemma ShortRuns(e: Excerpt, all: seq<Excerpt>)
    ensures BeforeRun([], all) && AfterRun([], all)
    ensures all != [] && KeepsNear(e, all[|all| - 1], Tail) ==> BeforeRun([e], all)
    ensures all != [] && KeepsNear(e, all[0], Head) ==> AfterRun([e], all)
  {
  }

  /** A fitted side is the nearest run of the candidates, within its allowance,
      and it stops only at a candidate that no longer fits whole. */
  lemma {:induction false} FitBeforeIsRun(all: seq<Excerpt>, allowance: int)
    requires AllConsistent(all)
    ensures var r := FitBefore(all, allowance);
      && BeforeRun(r, all) && AllConsistent(r) && SideCost(r) <= Max(0, allowance)
      && (|r| < |all| && SideCost(r) < allowance ==>
            || SideCost(r) + Cost(all[|all| - |r| - 1], false) > allowance
            || (r != [] && r[0] != all[|all| - |r|]))
    decreases |all|
  {
    hide Fit, Cost, KeepsNear, BeforeRun;
    if allowance <= 0 || all == [] {
      ShortRuns(Excerpt("", 0, "", "", 0, 0, false, false), all);
    } else {
      var last, rest := all[|all| - 1], all[..|all| - 1];
      if Cost(last, false) <= allowance {
        FitBeforeIsRun(rest, allowance - Cost(last, false));
        var r := FitBefore(rest, allowance - Cost(last, false));
        assert (r + [last])[..|r|] == r && rest + [last] == all;
        BeforeRunExtends(r, rest, last);
      } else {
        var fitted := Fit(last, allowance, Tail, false, NO_FOCUS);
        ShortRuns(fitted, all);
        if fitted.text != "" {
          FitKeepsNear(last, allowance, Tail);
          assert SideCost([fitted]) == SideCost([]) + Cost(fitted, false);
        }
      }
    }
  }

  lemma {:induction false} SideCostCons(e: Excerpt, es: seq<Excerpt>)
    ensures SideCost([e] + es) == Cost(e, false) + SideCost(es)
    decreases |es|
  {
    hide Cost;
    if es == [] {
      assert [e] + es == [e];
      assert SideCost([e]) == SideCost([]) + Cost(e, false);
    } else {
      SideCostCons(e, es[..|es| - 1]);
      assert ([e] + es)[..|es|] == [e] + es[..|es| - 1];
    }
  }

  lemma {:induction false} FitAfterIsRun(all: seq<Excerpt>, allowance: int)
    requires AllConsistent(all)
    ensures var r := FitAfter(all, allowance);
      && AfterRun(r, all) && AllConsistent(r) && SideCost(r) <= Max(0, allowance)
      && (|r| < |all| && SideCost(r) < allowance ==>
            || SideCost(r) + Cost(all[|r|], false) > allowance
            || (r != [] && r[|r| - 1] != all[|r| - 1]))
    decreases |all|
  {
    hide Fit, Cost, KeepsNear, AfterRun;
    if allowance <= 0 || all == [] {
      ShortRuns(Excerpt("", 0, "", "", 0, 0, false, false), all);
    } else {
      var first, rest := all[0], all[1..];
      if Cost(first, false) <= allowance {
        FitAfterIsRun(rest, allowance - Cost(first, false));
        var r := FitAfter(rest, allowance - Cost(first, false));
        assert [first] + rest == all;
        SideCostCons(first, r);
        AfterRunExtends(first, r, rest);
      } else {
        var fitted := Fit(first, allowance, Head, false, NO_FOCUS);
        ShortRuns(fitted, all);
        if fitted.text != "" {
          FitKeepsNear(first, allowance, Head);
          assert SideCost([fitted]) == SideCost([]) + Cost(fitted, false);
        }
      }
    }
  }

  datatype Side = Before | After

  lemma NoFocusForEmptyQuery(text: string)
    ensures Focus.FocusSpan(text, "") == NO_FOCUS
  {
  }

  method FitToSide(e: Excerpt, budget: int, mode: Mode) returns (r: Excerpt)
    ensures r == Fit(e, budget, mode, false, NO_FOCUS)
  {
    NoFocusForEmptyQuery(e.text);
    r := FitExcerptBySerializedBudget(e, budget, mode, false, "");
  }

  method FitSide(candidates: seq<Excerpt>, allowance: int, side: Side) returns (fitted: seq<Excerpt>)
    ensures fitted == if side == Before then FitBefore(candidates, allowance) else FitAfter(candidates, allowance)
  {
    if side == Before {
      fitted := FitSideBefore(candidates, allowance);
    } else {
      fitted := FitSideAfter(candidates, allowance);
    }
  }

  /** One step of filling: the candidate nearest to the anchor among the first n. */
  lemma FitBeforeStep(all: seq<Excerpt>, n: nat, allowance: int)
    requires 0 < n <= |all| && allowance > 0
    ensures var fitted := Fit(all[n - 1], allowance, Tail, false, NO_FOCUS);
      FitBefore(all[..n], allowance) ==
        if Cost(all[n - 1], false) <= allowance
        then FitBefore(all[..n - 1], allowance - Cost(all[n - 1], false)) + [all[n - 1]]
        else if fitted.text != "" then [fitted] else []
  {
    hide Fit, Cost;
    assert all[..n][..n - 1] == all[..n - 1];
  }

  /** The whole side, when the first n candidates are left and so many are selected. */
  function Filled(all: seq<Excerpt>, n: nat, allowance: int, selected: seq<Excerpt>): seq<Excerpt>
    requires n <= |all|
  {
    FitBefore(all[..n], allowance) + Reversed(selected)
  }

  lemma NothingSelected(all: seq<Excerpt>, allowance: int)
    ensures Filled(all, |all|, allowance, []) == FitBefore(all, allowance)
  {
    assert all[..|all|] == all;
  }

  lemma NothingToFit(all: seq<Excerpt>, n: nat, allowance: int, selected: seq<Excerpt>)
    requires n <= |all| && (allowance <= 0 || n == 0)
    ensures Filled(all, n, allowance, selected) == Reversed(selected)
  {
  }

  lemma OneFarther<T>(farther: seq<T>, one: T, nearer: seq<T>)
    ensures farther + [one] + nearer == farther + ([one] + nearer)
  {
  }

  lemma SelectWhole(all: seq<Excerpt>, n: nat, allowance: int, selected: seq<Excerpt>)
    requires 0 < n <= |all| && allowance > 0 && Cost(all[n - 1], false) <= allowance
    ensures Filled(all, n, allowance, selected) ==
      Filled(all, n - 1, allowance - Cost(all[n - 1], false), selected + [all[n - 1]])
  {
    hide Cost, Fit, FitBefore, Reversed;
    FitBeforeStep(all, n, allowance);
    ReversedAppend(selected, all[n - 1]);
    OneFarther(FitBefore(all[..n - 1], allowance - Cost(all[n - 1], false)), all[n - 1], Reversed(selected));
  }

  lemma SelectPart(all: seq<Excerpt>, n: nat, allowance: int, selected: seq<Excerpt>)
    requires 0 < n <= |all| && allowance > 0 && Cost(all[n - 1], false) > allowance
    ensures var fitted := Fit(all[n - 1], allowance, Tail, false, NO_FOCUS);
      Filled(all, n, allowance, selected) == Reversed(if fitted.text != "" then selected + [fitted] else selected)
  {
    hide Cost, Fit, FitBefore, Reversed;
    FitBeforeStep(all, n, allowance);
    ReversedAppend(selected, Fit(all[n - 1], allowance, Tail, false, NO_FOCUS));
  }

  method FitSideBefore(candidates: seq<Excerpt>, allowance: int) returns (fitted: seq<Excerpt>)
    ensures fitted == FitBefore(candidates, allowance)
  {
    hide Fit, Cost, FitBefore, Reversed, Filled;
    var nearestFirst := Reversed(candidates);
    var selected: seq<Excerpt> := [];
    var used, i := 0, 0;
    NothingSelected(candidates, allowance);
    while i < |nearestFirst|
      invariant 0 <= i <= |candidates|
      invariant Filled(candidates, |candidates| - i, allowance - used, selected) == FitBefore(candidates, allowance)
    {
      var available := allowance - used;
      if available <= 0 {
        break;
      }
      var candidate := nearestFirst[i];
      var fullCost := CostOf(candidate);
      if fullCost <= available {
        SelectWhole(candidates, |candidates| - i, available, selected);
        selected := selected + [candidate];
        used := used + fullCost;
      } else {
        SelectPart(candidates, |candidates| - i, available, selected);
        var cropped := FitToSide(candidate, available, Tail);
        if cropped.text != "" {
          selected := selected + [cropped];
        }
        return Reversed(selected);
      }
      i := i + 1;
    }
    NothingToFit(candidates, |candidates| - i, allowance - used, selected);
    fitted := Reversed(selected);
  }

  lemma FitAfterStep(all: seq<Excerpt>, i: nat, allowance: int)
    requires i < |all| && allowance > 0
    ensures var fitted := Fit(all[i], allowance, Head, false, NO_FOCUS);
      FitAfter(all[i..], allowance) ==
        if Cost(all[i], false) <= allowance
        then [all[i]] + FitAfter(all[i + 1..], allowance - Cost(all[i], false))
        else if fitted.text != "" then [fitted] else []
  {
    hide Fit, Cost;
    assert all[i..][1..] == all[i + 1..];
  }

  lemma NothingFollows(all: seq<Excerpt>, allowance: int)
    requires allowance <= 0 || all == []
    ensures FitAfter(all, allowance) == []
  {
  }

  method FitSideAfter(candidates: seq<Excerpt>, allowance: int) returns (selected: seq<Excerpt>)
    ensures selected == FitAfter(candidates, allowance)
  {
    hide Fit, Cost, FitAfter;
    selected := [];
    assert candidates[0..] == candidates;
    var used, i := 0, 0;
    while i < |candidates|
      invariant 0 <= i <= |candidates|
      invariant selected + FitAfter(candidates[i..], allowance - used) == FitAfter(candidates, allowance)
    {
      var available := allowance - used;
      if available <= 0 {
        break;
      }
      var candidate := candidates[i];
      FitAfterStep(candidates, i, available);
      var fullCost := CostOf(candidate);
      if fullCost <= available {
        selected := selected + [candidate];
        used := used + fullCost;
      } else {
        var cropped := FitToSide(candidate, available, Head);
        if cropped.text != "" {
          selected := selected + [cropped];
        }
        return;
      }
      i := i + 1;
    }
    NothingFollows(candidates[i..], allowance - used);
  }

  method CostOf(e: Excerpt) returns (cost: nat)
    ensures cost == Cost(e, false)
  {
    cost := EstimateTokens(SerializeExcerpt(e, false));
  }

  // ---------------------------------------------------- shrinking to the budget

  function TextLength(es: seq<Excerpt>): nat {
    if es == [] then 0 else |es[0].text| + TextLength(es[1..])
  }

  lemma {:induction false} TextLengthOfUpdate(es: seq<Excerpt>, i: nat, e: Excerpt)
    requires i < |es|
    ensures TextLength(es[i := e]) == TextLength(es) - |es[i].text| + |e.text|
    ensures TextLength(es[..i]) <= TextLength(es)
  {
    if i > 0 {
      TextLengthOfUpdate(es[1..], i - 1, e);
      assert es[i := e][1..] == es[1..][i - 1 := e];
      assert es[..i][1..] == es[1..][..i - 1];
    }
  }

  predicate Around(before: seq<Excerpt>, anchorIndex: int, after: seq<Excerpt>) {
    && (forall e <- before :: e.index < anchorIndex)
    && (forall e <- after :: e.index > anchorIndex)
  }

  /** The farther side gives way; on a tie the later side does. */
  predicate AfterIsFarther(before: seq<Excerpt>, anchorIndex: int, after: seq<Excerpt>) {
    var beforeDistance := if before != [] then anchorIndex - before[0].index else -1;
    var afterDistance := if after != [] then after[|after| - 1].index - anchorIndex else -1;
    afterDistance >= beforeDistance
  }

  function Shrunk(e: Excerpt, excess: int, mode: Mode): Excerpt {
    Fit(e, Max(0, Cost(e, false) - excess - 1), mode, false, NO_FOCUS)
  }

  /** An outer excerpt that cannot shrink further is dropped. */
  predicate CannotShrink(shrunk: Excerpt, e: Excerpt) {
    shrunk.text == "" || |shrunk.text| >= |e.text|
  }

  /** The outermost excerpt of a side gives way to what is left of it, or goes. */
  function GiveLast(after: seq<Excerpt>, shrunk: Excerpt): seq<Excerpt>
    requires after != []
  {
    var index := |after| - 1;
    if CannotShrink(shrunk, after[index]) then after[..index] else after[index := shrunk]
  }

  function GiveFirst(before: seq<Excerpt>, shrunk: Excerpt): seq<Excerpt>
    requires before != []
  {
    if CannotShrink(shrunk, before[0]) then before[1..] else before[0 := shrunk]
  }

  function ShrunkLast(after: seq<Excerpt>, excess: int): Excerpt
    requires after != []
  {
    Shrunk(after[|after| - 1], excess, Head)
  }

  function ShrunkFirst(before: seq<Excerpt>, excess: int): Excerpt
    requires before != []
  {
    Shrunk(before[0], excess, Tail)
  }

  /** Total text length plus excerpt count: every shrinking step lowers it. */
  function Measure(before: seq<Excerpt>, after: seq<Excerpt>): nat {
    TextLength(before) + |before| + TextLength(after) + |after|
  }

  lemma GivingLastProgresses(before: seq<Excerpt>, after: seq<Excerpt>, shrunk: Excerpt)
    requires after != []
    ensures Measure(before, GiveLast(after, shrunk)) < Measure(before, after)
  {
    TextLengthOfUpdate(after, |after| - 1, shrunk);
    hide TextLength;
  }

  lemma GivingFirstProgresses(before: seq<Excerpt>, after: seq<Excerpt>, shrunk: Excerpt)
    requires before != []
    ensures Measure(GiveFirst(before, shrunk), after) < Measure(before, after)
  {
    TextLengthOfUpdate(before, 0, shrunk);
  }

  /** Fitting keeps the chunk, and the side of it that faces the anchor. */
  lemma ShrunkIsSound(e: Excerpt, excess: int, mode: Mode)
    ensures var shrunk := Shrunk(e, excess, mode);
      && SameChunk(shrunk, e)
      && (mode != Focused && Consistent(e) && !CannotShrink(shrunk, e) ==>
           KeepsNear(shrunk, e, mode) && Consistent(shrunk))
  {
    hide Fit, Cost, KeepsNear;
    var budget := Max(0, Cost(e, false) - excess - 1);
    FitMeetsBudget(e, budget, mode, false, NO_FOCUS);
    NothingWithoutBudget(e, mode);
    if mode != Focused && Consistent(e) && !CannotShrink(Shrunk(e, excess, mode), e) {
      FitKeepsNear(e, budget, mode);
    }
  }

  lemma NothingWithoutBudget(e: Excerpt, mode: Mode)
    ensures Fit(e, 0, mode, false, NO_FOCUS).text == ""
  {
  }

  lemma GivingLastStaysAround(before: seq<Excerpt>, anchorIndex: int, after: seq<Excerpt>, shrunk: Excerpt)
    requires Around(before, anchorIndex, after) && after != [] && shrunk.index == after[|after| - 1].index
    ensures Around(before, anchorIndex, GiveLast(after, shrunk))
  {
    forall e | e in GiveLast(after, shrunk)
      ensures e.index > anchorIndex
    {
      assert e in after || e == shrunk;
    }
  }

  lemma GivingFirstStaysAround(before: seq<Excerpt>, anchorIndex: int, after: seq<Excerpt>, shrunk: Excerpt)
    requires Around(before, anchorIndex, after) && before != [] && shrunk.index == before[0].index
    ensures Around(GiveFirst(before, shrunk), anchorIndex, after)
  {
    forall e | e in GiveFirst(before, shrunk)
      ensures e.index < anchorIndex
    {
      assert e in before || e == shrunk;
    }
  }

  /** Shrinks the farthest excerpt until the window fits or no neighbour is left. */
  function Shrink(before: seq<Excerpt>, anchor: Excerpt, after: seq<Excerpt>, anchorIndex: int, maxTokens: int)
    : (seq<Excerpt>, seq<Excerpt>)
    decreases Measure(before, after)
  {
    var excess := WindowCost(before, anchor, after) - maxTokens;
    if excess <= 0 || (before == [] && after == []) then (before, after)
    else if before == [] || (after != [] && AfterIsFarther(before, anchorIndex, after)) then
      GivingLastProgresses(before, after, ShrunkLast(after, excess));
      Shrink(before, anchor, GiveLast(after, ShrunkLast(after, excess)), anchorIndex, maxTokens)
    else
      GivingFirstProgresses(before, after, ShrunkFirst(before, excess));
      Shrink(GiveFirst(before, ShrunkFirst(before, excess)), anchor, after, anchorIndex, maxTokens)
  }

  /** Around the anchor, the farther side always has an excerpt to give. */
  lemma FartherSideIsNotEmpty(before: seq<Excerpt>, anchorIndex: int, after: seq<Excerpt>)
    requires Around(before, anchorIndex, after) && (before != [] || after != [])
    ensures if AfterIsFarther(before, anchorIndex, after) then after != [] else before != []
  {
    if before != [] {
      assert before[0] in before;
    }
    if after != [] {
      assert after[|after| - 1] in after;
    }
  }

  /** If the anchor alone fits, shrinking ends inside the budget. */
  lemma {:induction false} ShrinkMeetsBudget(before: seq<Excerpt>, anchor: Excerpt, after: seq<Excerpt>,
                                             anchorIndex: int, maxTokens: int)
    requires Around(before, anchorIndex, after) && Cost(anchor, true) <= maxTokens
    ensures var (b, a) := Shrink(before, anchor, after, anchorIndex, maxTokens);
      WindowCost(b, anchor, a) <= maxTokens && Around(b, anchorIndex, a)
    decreases Measure(before, after)
  {
    hide GiveLast, GiveFirst, Shrunk, WindowCost, Cost;
    var excess := WindowCost(before, anchor, after) - maxTokens;
    if before == [] && after == [] {
      LoneAnchorCost(anchor);
    } else if excess > 0 && (before == [] || (after != [] && AfterIsFarther(before, anchorIndex, after))) {
      GivingLastProgresses(before, after, ShrunkLast(after, excess));
      ShrunkIsSound(after[|after| - 1], excess, Head);
      GivingLastStaysAround(before, anchorIndex, after, ShrunkLast(after, excess));
      ShrinkMeetsBudget(before, anchor, GiveLast(after, ShrunkLast(after, excess)), anchorIndex, maxTokens);
    } else if excess > 0 {
      GivingFirstProgresses(before, after, ShrunkFirst(before, excess));
      ShrunkIsSound(before[0], excess, Tail);
      GivingFirstStaysAround(before, anchorIndex, after, ShrunkFirst(before, excess));
      ShrinkMeetsBudget(GiveFirst(before, ShrunkFirst(before, excess)), anchor, after, anchorIndex, maxTokens);
    }
  }

  lemma KeepsNearIsTransitive(r: Excerpt, e: Excerpt, original: Excerpt, mode: Mode)
    requires mode != Focused && KeepsNear(r, e, mode) && KeepsNear(e, original, mode)
    ensures KeepsNear(r, original, mode)
  {
    if mode == Tail {
      assert e.text[|e.text| - |r.text|..] == original.text[|original.text| - |r.text|..];
    }
  }

  lemma AfterRunGives(run: seq<Excerpt>, all: seq<Excerpt>, e: Excerpt)
    requires AfterRun(run, all) && run != []
    ensures AfterRun(run[..|run| - 1], all)
    ensures KeepsNear(e, all[|run| - 1], Head) ==> AfterRun(run[|run| - 1 := e], all)
  {
    hide KeepsNear;
    var n := |run| - 1;
    if n > 0 {
      KeepsNearItself(all[n - 1], Head);
      assert run[..n][..n - 1] == all[..n][..n - 1] && run[..n][n - 1] == all[..n][n - 1];
    }
    assert run[n := e][..n] == run[..n];
  }

  lemma BeforeRunGives(run: seq<Excerpt>, all: seq<Excerpt>, e: Excerpt)
    requires BeforeRun(run, all) && run != []
    ensures BeforeRun(run[1..], all)
    ensures KeepsNear(e, all[|all| - |run|], Tail) ==> BeforeRun(run[0 := e], all)
  {
    hide KeepsNear;
    var rest := all[|all| - |run| + 1..];
    if |run| > 1 {
      KeepsNearItself(rest[0], Tail);
      assert run[1..][0] == rest[0] && run[1..][1..] == rest[1..];
    }
    assert run[0 := e][1..] == run[1..];
  }

  /** What is left of an excerpt, if it stays at all, keeps its side facing the anchor. */
  predicate GivesWay(shrunk: Excerpt, e: Excerpt, mode: Mode) {
    !CannotShrink(shrunk, e) ==> KeepsNear(shrunk, e, mode) && Consistent(shrunk)
  }

  /** Giving way leaves the side a run near the anchor. */
  lemma GivingLastKeepsRun(after: seq<Excerpt>, all: seq<Excerpt>, shrunk: Excerpt)
    requires after != [] && AfterRun(after, all) && AllConsistent(after)
    requires GivesWay(shrunk, after[|after| - 1], Head)
    ensures AfterRun(GiveLast(after, shrunk), all) && AllConsistent(GiveLast(after, shrunk))
  {
    var index := |after| - 1;
    hide KeepsNear, CannotShrink;
    AfterRunGives(after, all, shrunk);
    if !CannotShrink(shrunk, after[index]) {
      KeepsNearIsTransitive(shrunk, after[index], all[index], Head);
    }
  }

  lemma GivingFirstKeepsRun(before: seq<Excerpt>, all: seq<Excerpt>, shrunk: Excerpt)
    requires before != [] && BeforeRun(before, all) && AllConsistent(before)
    requires GivesWay(shrunk, before[0], Tail)
    ensures BeforeRun(GiveFirst(before, shrunk), all) && AllConsistent(GiveFirst(before, shrunk))
  {
    hide KeepsNear, CannotShrink;
    BeforeRunGives(before, all, shrunk);
    if !CannotShrink(shrunk, before[0]) {
      KeepsNearIsTransitive(shrunk, before[0], all[|all| - |before|], Tail);
    }
  }

  /** Only the farthest remaining excerpt of a side is ever cut. */
  lemma {:induction false} ShrinkKeepsRuns(before: seq<Excerpt>, anchor: Excerpt, after: seq<Excerpt>,
                                           anchorIndex: int, maxTokens: int,
                        allBefore: seq<Excerpt>, allAfter: seq<Excerpt>)
    requires BeforeRun(before, allBefore) && AfterRun(after, allAfter)
    requires AllConsistent(before) && AllConsistent(after)
    ensures var (b, a) := Shrink(before, anchor, after, anchorIndex, maxTokens);
      BeforeRun(b, allBefore) && AfterRun(a, allAfter)
    decreases Measure(before, after)
  {
    hide GiveLast, GiveFirst, Shrunk, WindowCost, BeforeRun, AfterRun;
    var excess := WindowCost(before, anchor, after) - maxTokens;
    if excess > 0 && (before != [] || after != []) {
      if before == [] || (after != [] && AfterIsFarther(before, anchorIndex, after)) {
        GivingLastProgresses(before, after, ShrunkLast(after, excess));
        ShrunkIsSound(after[|after| - 1], excess, Head);
        GivingLastKeepsRun(after, allAfter, ShrunkLast(after, excess));
        ShrinkKeepsRuns(before, anchor, GiveLast(after, ShrunkLast(after, excess)), anchorIndex, maxTokens,
          allBefore, allAfter);
      } else {
        GivingFirstProgresses(before, after, ShrunkFirst(before, excess));
        ShrunkIsSound(before[0], excess, Tail);
        GivingFirstKeepsRun(before, allBefore, ShrunkFirst(before, excess));
        ShrinkKeepsRuns(GiveFirst(before, ShrunkFirst(before, excess)), anchor, after, anchorIndex, maxTokens,
          allBefore, allAfter);
      }
    }
  }

  // ------------------------------------------------------------ faithfulness

  /** Every excerpt says exactly which part of its chunk it shows. */
  predicate AllFaithful(es: seq<Excerpt>, pool: map<int, Chunk>) {
    forall e <- es :: e.index in pool && Faithful(e, pool[e.index].text)
  }

  lemma FaithfulIsConsistent(es: seq<Excerpt>, pool: map<int, Chunk>)
    requires AllFaithful(es, pool)
    ensures AllConsistent(es)
  {
  }

  lemma FitIsFaithful(e: Excerpt, pool: map<int, Chunk>, budget: int, mode: Mode)
    requires e.index in pool && Faithful(e, pool[e.index].text)
    ensures var r := Fit(e, budget, mode, false, NO_FOCUS);
      r.index in pool && Faithful(r, pool[r.index].text)
  {
    FitMeetsBudget(e, budget, mode, false, NO_FOCUS);
    FitKeepsFaithful(e, pool[e.index].text, budget, mode, false, NO_FOCUS);
  }

  lemma {:induction false} FitBeforeIsFaithful(all: seq<Excerpt>, allowance: int, pool: map<int, Chunk>)
    requires AllFaithful(all, pool)
    ensures AllFaithful(FitBefore(all, allowance), pool)
    decreases |all|
  {
    hide Fit, Cost, Faithful;
    if allowance > 0 && all != [] {
      var last := all[|all| - 1];
      assert last in all;
      FitIsFaithful(last, pool, allowance, Tail);
      FitBeforeIsFaithful(all[..|all| - 1], allowance - Cost(last, false), pool);
    }
  }

  lemma {:induction false} FitAfterIsFaithful(all: seq<Excerpt>, allowance: int, pool: map<int, Chunk>)
    requires AllFaithful(all, pool)
    ensures AllFaithful(FitAfter(all, allowance), pool)
    decreases |all|
  {
    hide Fit, Cost, Faithful;
    if allowance > 0 && all != [] {
      FitIsFaithful(all[0], pool, allowance, Head);
      FitAfterIsFaithful(all[1..], allowance - Cost(all[0], false), pool);
    }
  }

  lemma {:induction false} ShrinkIsFaithful(before: seq<Excerpt>, anchor: Excerpt, after: seq<Excerpt>,
                                            anchorIndex: int, maxTokens: int, pool: map<int, Chunk>)
    requires AllFaithful(before, pool) && AllFaithful(after, pool)
    ensures var (b, a) := Shrink(before, anchor, after, anchorIndex, maxTokens);
      AllFaithful(b, pool) && AllFaithful(a, pool)
    decreases Measure(before, after)
  {
    hide WindowCost, Fit, Cost, Faithful;
    var excess := WindowCost(before, anchor, after) - maxTokens;
    if excess > 0 && (before != [] || after != []) {
      if before == [] || (after != [] && AfterIsFarther(before, anchorIndex, after)) {
        var last := after[|after| - 1];
        GivingLastProgresses(before, after, ShrunkLast(after, excess));
        FitIsFaithful(last, pool, Max(0, Cost(last, false) - excess - 1), Head);
        ShrinkIsFaithful(before, anchor, GiveLast(after, ShrunkLast(after, excess)), anchorIndex, maxTokens, pool);
      } else {
        GivingFirstProgresses(before, after, ShrunkFirst(before, excess));
        FitIsFaithful(before[0], pool, Max(0, Cost(before[0], false) - excess - 1), Tail);
        ShrinkIsFaithful(GiveFirst(before, ShrunkFirst(before, excess)), anchor, after, anchorIndex, maxTokens, pool);
      }
    }
  }
}
