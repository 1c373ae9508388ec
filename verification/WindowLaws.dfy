/** How a window is filled, shrunk and written out: what a side takes of its candidates, which excerpt
    gives way when the whole is too long, and what is left of the anchor. */
module WindowLaws {
  import opened Text
  import opened Tokens
  import Focus
  import opened Excerpts
  import opened Window
  import opened Compose

  // --------------------------------------------------------- what a side takes

  /** What is left of a candidate when it no longer fits whole: its part facing the anchor that fits, if any. */
  function PartOf(e: Excerpt, room: int, mode: Mode): seq<Excerpt> {
    var part := Fit(e, room, mode, false, NO_FOCUS);
    if part.text != "" then [part] else []
  }

  /** These were taken whole; then, while there is room and one is left, what fits of the next. */
  predicate TakenBefore(r: seq<Excerpt>, left: seq<Excerpt>, whole: seq<Excerpt>, room: int) {
    if left == [] || room <= 0 then r == whole
    else Cost(left[|left| - 1], false) > room && r == PartOf(left[|left| - 1], room, Tail) + whole
  }

  predicate TakenAfter(r: seq<Excerpt>, whole: seq<Excerpt>, left: seq<Excerpt>, room: int) {
    if left == [] || room <= 0 then r == whole
    else Cost(left[0], false) > room && r == whole + PartOf(left[0], room, Head)
  }

  /** A side takes its nearest k candidates whole, as many as fit one after the other. */
  predicate TakesBefore(r: seq<Excerpt>, all: seq<Excerpt>, allowance: int, k: nat) {
    k <= |all| &&
    var room := allowance - SideCost(all[|all| - k..]);
    (k > 0 ==> room >= 0) && TakenBefore(r, all[..|all| - k], all[|all| - k..], room)
  }

  predicate TakesAfter(r: seq<Excerpt>, all: seq<Excerpt>, allowance: int, k: nat) {
    k <= |all| &&
    var room := allowance - SideCost(all[..k]);
    (k > 0 ==> room >= 0) && TakenAfter(r, all[..k], all[k..], room)
  }

  lemma OneMoreBefore(r: seq<Excerpt>, rest: seq<Excerpt>, last: Excerpt, allowance: int, k: nat)
    requires Cost(last, false) <= allowance && TakesBefore(r, rest, allowance - Cost(last, false), k)
    ensures TakesBefore(r + [last], rest + [last], allowance, k + 1)
  {
    hide Cost, PartOf, TakenBefore;
    var all, left, whole := rest + [last], rest[..|rest| - k], rest[|rest| - k..];
    assert all[|all| - k - 1..] == whole + [last] && all[..|all| - k - 1] == left;
    SideCostAppend(whole, last);
    hide SideCost;
    TakenBeforeOneMore(r, left, whole, allowance - Cost(last, false) - SideCost(whole), last);
  }

  lemma SideCostAppend(es: seq<Excerpt>, last: Excerpt)
    ensures SideCost(es + [last]) == SideCost(es) + Cost(last, false) && SideCost([]) == 0
  {
    assert (es + [last])[..|es|] == es;
  }

  lemma TakenBeforeOneMore(r: seq<Excerpt>, left: seq<Excerpt>, whole: seq<Excerpt>, room: int, last: Excerpt)
    requires TakenBefore(r, left, whole, room)
    ensures TakenBefore(r + [last], left, whole + [last], room)
  {
    hide Cost, PartOf;
    if left != [] && room > 0 {
      var part := PartOf(left[|left| - 1], room, Tail);
      assert part + whole + [last] == part + (whole + [last]);
    }
  }

  lemma OneMoreAfter(r: seq<Excerpt>, first: Excerpt, rest: seq<Excerpt>, allowance: int, k: nat)
    requires Cost(first, false) <= allowance && TakesAfter(r, rest, allowance - Cost(first, false), k)
    ensures TakesAfter([first] + r, [first] + rest, allowance, k + 1)
  {
    hide Cost, PartOf, TakenAfter;
    var all, whole, left := [first] + rest, rest[..k], rest[k..];
    assert all[..k + 1] == [first] + whole && all[k + 1..] == left;
    SideCostCons(first, whole);
    SideCostAppend([], first);
    hide SideCost;
    TakenAfterOneMore(r, first, whole, left, allowance - Cost(first, false) - SideCost(whole));
  }

  lemma TakenAfterOneMore(r: seq<Excerpt>, first: Excerpt, whole: seq<Excerpt>, left: seq<Excerpt>, room: int)
    requires TakenAfter(r, whole, left, room)
    ensures TakenAfter([first] + r, [first] + whole, left, room)
  {
    hide Cost, PartOf;
    if left != [] && room > 0 {
      var part := PartOf(left[0], room, Head);
      assert [first] + (whole + part) == [first] + whole + part;
    }
  }

  lemma NoneTaken(all: seq<Excerpt>, allowance: int)
    requires allowance <= 0 || all == []
    ensures TakesBefore([], all, allowance, 0) && TakesAfter([], all, allowance, 0)
  {
    assert all[|all|..] == [] && all[..0] == [] && all[0..] == all && all[..|all|] == all;
  }

  lemma OnlyPartTaken(all: seq<Excerpt>, allowance: int)
    requires allowance > 0 && all != []
    ensures Cost(all[|all| - 1], false) > allowance ==>
      TakesBefore(PartOf(all[|all| - 1], allowance, Tail), all, allowance, 0)
    ensures Cost(all[0], false) > allowance ==> TakesAfter(PartOf(all[0], allowance, Head), all, allowance, 0)
  {
    hide Cost, PartOf;
    assert all[|all|..] == [] && all[..0] == [] && all[0..] == all && all[..|all|] == all;
    var before, after := PartOf(all[|all| - 1], allowance, Tail), PartOf(all[0], allowance, Head);
    assert before + [] == before && [] + after == after;
  }

  /** What fitting a side to an allowance takes of its candidates. */
  lemma {:induction false} FitBeforeTakes(all: seq<Excerpt>, allowance: int) returns (k: nat)
    ensures TakesBefore(FitBefore(all, allowance), all, allowance, k)
    decreases |all|
  {
    hide Fit, Cost, TakesBefore;
    k := 0;
    if allowance <= 0 || all == [] {
      NoneTaken(all, allowance);
    } else {
      var last, rest := all[|all| - 1], all[..|all| - 1];
      OnlyPartTaken(all, allowance);
      if Cost(last, false) <= allowance {
        k := FitBeforeTakes(rest, allowance - Cost(last, false));
        OneMoreBefore(FitBefore(rest, allowance - Cost(last, false)), rest, last, allowance, k);
        assert rest + [last] == all;
        k := k + 1;
      }
    }
  }

  lemma {:induction false} FitAfterTakes(all: seq<Excerpt>, allowance: int) returns (k: nat)
    ensures TakesAfter(FitAfter(all, allowance), all, allowance, k)
    decreases |all|
  {
    hide Fit, Cost, TakesAfter;
    k := 0;
    if allowance <= 0 || all == [] {
      NoneTaken(all, allowance);
    } else {
      var first, rest := all[0], all[1..];
      OnlyPartTaken(all, allowance);
      if Cost(first, false) <= allowance {
        k := FitAfterTakes(rest, allowance - Cost(first, false));
        OneMoreAfter(FitAfter(rest, allowance - Cost(first, false)), first, rest, allowance, k);
        assert [first] + rest == all;
        k := k + 1;
      }
    }
  }

  // ------------------------------------------------------- the anchor and the text

  /** A cropped anchor shows the whole focus if what is kept of it is long enough to. */
  lemma AnchorShowsFocus(anchor: Chunk, opts: Options)
    ensures var r, focus := FittedAnchor(anchor, opts), Focus.FocusSpan(anchor.text, opts.focus);
      focus.Some? && |r.text| > 0 && |r.text| >= focus.value.end - focus.value.start ==>
        r.textStart <= focus.value.start && focus.value.end <= r.textEnd
  {
    var e, budget := ExcerptOf(anchor), ClampTokens(opts.maxTokens);
    var focus := Focus.FocusSpan(e.text, opts.focus);
    Focus.FocusSpanInText(e.text, opts.focus);
    hide Cost, Focus.FocusSpan, LongestFit;
    if focus.Some? && Cost(e, true) > budget {
      var source := FitSource(e, budget, true);
      var length := LongestFit(source, budget, Focused, true, focus);
      if 0 < length < |e.text| {
        FocusCropIsExact(|e.text|, length, focus.value);
      }
    }
  }

  /** One excerpt as it is written out: the mark of the anchor, its heading in brackets, and its text. */
  function Written(e: Excerpt, anchor: bool): string {
    (if anchor then ">>> " else "") +
    (if TrimSpace(e.heading) == "" then "" else "[" + TrimSpace(e.heading) + "] ") + e.text
  }

  function AllWritten(es: seq<Excerpt>): (r: seq<string>)
    ensures |r| == |es|
  {
    seq(|es|, i requires 0 <= i < |es| => Written(es[i], false))
  }

  lemma {:induction false} AfterIsJoined(first: string, es: seq<Excerpt>)
    ensures Join([first] + AllWritten(es), "\n\n") == first + SerializeAfter(es)
    decreases |es|
  {
    hide Written, SerializeExcerpt, Join;
    if es == [] {
      assert [first] + AllWritten(es) == [first];
      OneIsJoined(first);
    } else {
      var next := Written(es[0], false);
      WrittenIsSerialized(es[0], false);
      assert AllWritten(es) == [next] + AllWritten(es[1..]);
      JoinFirst(first, [next] + AllWritten(es[1..]), "\n\n");
      AfterIsJoined(next, es[1..]);
    }
  }

  lemma OneIsJoined(first: string)
    ensures Join([first], "\n\n") == first
  {
  }

  lemma WrittenIsSerialized(e: Excerpt, anchor: bool)
    ensures SerializeExcerpt(e, anchor) == Written(e, anchor)
  {
  }

  lemma {:induction false} BeforeIsJoined(es: seq<Excerpt>, rest: seq<string>)
    requires rest != []
    ensures Join(AllWritten(es) + rest, "\n\n") == SerializeBefore(es) + Join(rest, "\n\n")
    decreases |es|
  {
    hide Written, SerializeExcerpt, Join;
    if es == [] {
      assert AllWritten(es) + rest == rest;
    } else {
      var first := Written(es[0], false);
      WrittenIsSerialized(es[0], false);
      assert AllWritten(es) + rest == [first] + (AllWritten(es[1..]) + rest);
      JoinFirst(first, AllWritten(es[1..]) + rest, "\n\n");
      BeforeIsJoined(es[1..], rest);
    }
  }

  /** A window is written out in reading order, with a blank line between excerpts. */
  lemma SerializedIsJoined(before: seq<Excerpt>, anchor: Excerpt, after: seq<Excerpt>)
    ensures Serialize(before, anchor, after) ==
      Join(AllWritten(before) + [Written(anchor, true)] + AllWritten(after), "\n\n")
  {
    hide Written, SerializeExcerpt, Join, SerializeBefore, SerializeAfter;
    var rest := [Written(anchor, true)] + AllWritten(after);
    assert AllWritten(before) + [Written(anchor, true)] + AllWritten(after) == AllWritten(before) + rest;
    BeforeIsJoined(before, rest);
    AfterIsJoined(Written(anchor, true), after);
    WrittenIsSerialized(anchor, true);
  }

  // ------------------------------------------------------- what shrinking takes

  /** One step over the budget, spelled out: of the two outermost excerpts the farther one, on a tie the later
      one, is cropped to the longest part that saves the excess and one token more; it goes when nothing shorter
      is left of it that way. */
  lemma ShrinkStep(before: seq<Excerpt>, anchor: Excerpt, after: seq<Excerpt>, anchorIndex: int, maxTokens: int)
    requires Around(before, anchorIndex, after)
    ensures var r, excess := Shrink(before, anchor, after, anchorIndex, maxTokens),
        WindowCost(before, anchor, after) - maxTokens;
      if excess <= 0 || (before == [] && after == []) then r == (before, after)
      else if before == [] ||
              (after != [] && after[|after| - 1].index - anchorIndex >= anchorIndex - before[0].index) then
        var x, rest := after[|after| - 1], after[..|after| - 1];
        var part := Fit(x, Max(0, Cost(x, false) - excess - 1), Head, false, NO_FOCUS);
        var after' := if 0 < |part.text| < |x.text| then rest + [part] else rest;
        r == Shrink(before, anchor, after', anchorIndex, maxTokens)
      else
        var x, rest := before[0], before[1..];
        var part := Fit(x, Max(0, Cost(x, false) - excess - 1), Tail, false, NO_FOCUS);
        var before' := if 0 < |part.text| < |x.text| then [part] + rest else rest;
        r == Shrink(before', anchor, after, anchorIndex, maxTokens)
  {
    hide WindowCost, Fit, Cost, Shrink;
    ShrinkUnfolds(before, anchor, after, anchorIndex, maxTokens);
    if before != [] || after != [] {
      FartherSideIsNotEmpty(before, anchorIndex, after);
    }
    if after != [] {
      var n, part := |after| - 1, ShrunkLast(after, WindowCost(before, anchor, after) - maxTokens);
      assert after[n := part] == after[..n] + [part] && after[n] in after;
    }
    if before != [] {
      var part := ShrunkFirst(before, WindowCost(before, anchor, after) - maxTokens);
      assert before[0 := part] == [part] + before[1..] && before[0] in before;
    }
  }

  /** What is left of the two sides is at the places it was. */
  predicate StayInPlace(b: seq<Excerpt>, before: seq<Excerpt>, a: seq<Excerpt>, after: seq<Excerpt>) {
    && |b| <= |before| && |a| <= |after|
    && (forall j :: 0 <= j < |b| ==> b[j].index == before[|before| - |b| + j].index)
    && (forall j :: 0 <= j < |a| ==> a[j].index == after[j].index)
  }

  /** A later excerpt gave way only when no earlier one that is left was farther. */
  predicate LaterGaveWay(b: seq<Excerpt>, a: seq<Excerpt>, after: seq<Excerpt>, anchorIndex: int) {
    forall k, e | 0 <= k < |after| && (k >= |a| || a[k] != after[k]) && e in b ::
      anchorIndex - e.index <= after[k].index - anchorIndex
  }

  /** Of the earlier excerpts, the k-th is left, and whole. */
  predicate Kept(b: seq<Excerpt>, before: seq<Excerpt>, k: int)
    requires |b| <= |before| && 0 <= k < |before|
  {
    var gone := |before| - |b|;
    k >= gone && b[k - gone] == before[k]
  }

  /** An earlier excerpt gave way only when every later one that is left was nearer. */
  predicate EarlierGaveWay(b: seq<Excerpt>, before: seq<Excerpt>, a: seq<Excerpt>, anchorIndex: int)
    requires |b| <= |before|
  {
    forall k, e | 0 <= k < |before| && !Kept(b, before, k) && e in a ::
      e.index - anchorIndex < anchorIndex - before[k].index
  }

  lemma GivenLast(after: seq<Excerpt>, shrunk: Excerpt)
    requires after != [] && shrunk.index == after[|after| - 1].index
    ensures var after' := GiveLast(after, shrunk);
      && |after| - 1 <= |after'| <= |after|
      && (forall k :: 0 <= k < |after'| ==> after'[k].index == after[k].index)
      && (forall k :: 0 <= k < |after| - 1 ==> after'[k] == after[k])
  {
  }

  lemma GivingLastIsBalanced(before: seq<Excerpt>, after: seq<Excerpt>, anchorIndex: int, shrunk: Excerpt,
                             b: seq<Excerpt>, a: seq<Excerpt>)
    requires after != [] && AfterIsFarther(before, anchorIndex, after) && Increasing(before)
    requires shrunk.index == after[|after| - 1].index
    requires var after' := GiveLast(after, shrunk);
      StayInPlace(b, before, a, after') && LaterGaveWay(b, a, after', anchorIndex)
    ensures StayInPlace(b, before, a, after) && LaterGaveWay(b, a, after, anchorIndex)
  {
    var n, after' := |after| - 1, GiveLast(after, shrunk);
    GivenLast(after, shrunk);
    hide GiveLast;
    forall k, e | 0 <= k < |after| && (k >= |a| || a[k] != after[k]) && e in b
      ensures anchorIndex - e.index <= after[k].index - anchorIndex
    {
      if k == n {
        var j :| 0 <= j < |b| && b[j] == e;
        assert before[0].index <= before[|before| - |b| + j].index;
      } else {
        assert after'[k] == after[k];
      }
    }
  }

  predicate AllNearer(a: seq<Excerpt>, anchorIndex: int, than: Excerpt) {
    forall e <- a :: e.index - anchorIndex < anchorIndex - than.index
  }

  lemma DroppingFirst(before: seq<Excerpt>, anchorIndex: int, b: seq<Excerpt>, a: seq<Excerpt>)
    requires before != [] && |b| <= |before| - 1 && AllNearer(a, anchorIndex, before[0])
    requires EarlierGaveWay(b, before[1..], a, anchorIndex)
    ensures EarlierGaveWay(b, before, a, anchorIndex)
  {
    forall k, e | 0 <= k < |before| && !Kept(b, before, k) && e in a
      ensures e.index - anchorIndex < anchorIndex - before[k].index
    {
      assert k > 0 ==> before[1..][k - 1] == before[k] && !Kept(b, before[1..], k - 1);
    }
  }

  lemma CroppingFirst(before: seq<Excerpt>, anchorIndex: int, shrunk: Excerpt, b: seq<Excerpt>, a: seq<Excerpt>)
    requires before != [] && |b| <= |before| && AllNearer(a, anchorIndex, before[0])
    requires EarlierGaveWay(b, before[0 := shrunk], a, anchorIndex)
    ensures EarlierGaveWay(b, before, a, anchorIndex)
  {
    forall k, e | 0 <= k < |before| && !Kept(b, before, k) && e in a
      ensures e.index - anchorIndex < anchorIndex - before[k].index
    {
      assert k > 0 ==> before[0 := shrunk][k] == before[k] && !Kept(b, before[0 := shrunk], k);
    }
  }

  lemma GivingFirstIsBalanced(before: seq<Excerpt>, after: seq<Excerpt>, anchorIndex: int, shrunk: Excerpt,
                              b: seq<Excerpt>, a: seq<Excerpt>)
    requires before != [] && !AfterIsFarther(before, anchorIndex, after) && Increasing(after)
    requires shrunk.index == before[0].index
    requires var before' := GiveFirst(before, shrunk);
      StayInPlace(b, before', a, after) && EarlierGaveWay(b, before', a, anchorIndex)
    ensures StayInPlace(b, before, a, after) && EarlierGaveWay(b, before, a, anchorIndex)
  {
    hide Kept, EarlierGaveWay, Increasing, AfterIsFarther;
    LaterAreNearer(before, after, anchorIndex, a);
    if CannotShrink(shrunk, before[0]) {
      DroppingFirst(before, anchorIndex, b, a);
    } else {
      CroppingFirst(before, anchorIndex, shrunk, b, a);
    }
  }

  lemma LaterAreNearer(before: seq<Excerpt>, after: seq<Excerpt>, anchorIndex: int, a: seq<Excerpt>)
    requires before != [] && !AfterIsFarther(before, anchorIndex, after) && Increasing(after)
    requires |a| <= |after| && forall j :: 0 <= j < |a| ==> a[j].index == after[j].index
    ensures AllNearer(a, anchorIndex, before[0])
  {
    forall e | e in a
      ensures e.index - anchorIndex < anchorIndex - before[0].index
    {
      var j :| 0 <= j < |a| && a[j] == e;
      assert after[j].index <= after[|after| - 1].index;
    }
  }

  /** Whatever shrinking took, it took of the farther side: every excerpt that was cropped or dropped was
      at least as far from the anchor, if a later one, and farther, if an earlier one, than all that is
      left of the other side. */
  lemma {:induction false} ShrinkIsBalanced(before: seq<Excerpt>, anchor: Excerpt, after: seq<Excerpt>,
                                            anchorIndex: int, maxTokens: int)
    requires Around(before, anchorIndex, after) && Increasing(before) && Increasing(after)
    ensures var (b, a) := Shrink(before, anchor, after, anchorIndex, maxTokens);
      && StayInPlace(b, before, a, after)
      && LaterGaveWay(b, a, after, anchorIndex) && EarlierGaveWay(b, before, a, anchorIndex)
    decreases Measure(before, after)
  {
    hide WindowCost, Shrunk, CannotShrink, LaterGaveWay, EarlierGaveWay, GiveLast, GiveFirst, Around, Increasing,
      Measure, Shrink;
    var excess := WindowCost(before, anchor, after) - maxTokens;
    ShrinkUnfolds(before, anchor, after, anchorIndex, maxTokens);
    if excess > 0 && (before != [] || after != []) {
      FartherSideIsNotEmpty(before, anchorIndex, after);
      var (b, a) := Shrink(before, anchor, after, anchorIndex, maxTokens);
      if AfterIsFarther(before, anchorIndex, after) {
        var shrunk := ShrunkLast(after, excess);
        GivingLastProgresses(before, after, shrunk);
        ShrunkIsSound(after[|after| - 1], excess, Head);
        GivingLastStaysAround(before, anchorIndex, after, shrunk);
        GivingLastStaysIncreasing(after, shrunk);
        ShrinkIsBalanced(before, anchor, GiveLast(after, shrunk), anchorIndex, maxTokens);
        GivingLastIsBalanced(before, after, anchorIndex, shrunk, b, a);
      } else {
        var shrunk := ShrunkFirst(before, excess);
        GivingFirstProgresses(before, after, shrunk);
        ShrunkIsSound(before[0], excess, Tail);
        GivingFirstStaysAround(before, anchorIndex, after, shrunk);
        GivingFirstStaysIncreasing(before, shrunk);
        ShrinkIsBalanced(GiveFirst(before, shrunk), anchor, after, anchorIndex, maxTokens);
        GivingFirstIsBalanced(before, after, anchorIndex, shrunk, b, a);
      }
    } else {
      NothingTaken(before, after, anchorIndex);
    }
  }

  lemma GivingLastStaysIncreasing(after: seq<Excerpt>, shrunk: Excerpt)
    requires after != [] && Increasing(after) && shrunk.index == after[|after| - 1].index
    ensures Increasing(GiveLast(after, shrunk))
  {
  }

  lemma GivingFirstStaysIncreasing(before: seq<Excerpt>, shrunk: Excerpt)
    requires before != [] && Increasing(before) && shrunk.index == before[0].index
    ensures Increasing(GiveFirst(before, shrunk))
  {
  }

  lemma NothingTaken(before: seq<Excerpt>, after: seq<Excerpt>, anchorIndex: int)
    ensures StayInPlace(before, before, after, after)
    ensures LaterGaveWay(before, after, after, anchorIndex) && EarlierGaveWay(before, before, after, anchorIndex)
  {
  }
}
