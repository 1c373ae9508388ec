/** Automatic context: clipping evidence to a token budget, and the loop that
    chooses which hits to inject. */
module AutoContext {
  import opened Text
  import opened Tokens

  const HIT_BUDGET := 180
  const TOTAL_BUDGET := 640
  const SEAT_LIMIT := 3

  // ------------------------------------------------------------------- clipping

  /** The longest prefix of at most n symbols that fits. */
  function Longest(text: string, n: nat, max: nat): (m: nat)
    requires n <= |text|
    ensures m <= n && Estimate(text[..m]) <= max
  {
    if n == 0 || Estimate(text[..n]) <= max then n else Longest(text, n - 1, max)
  }

  function FitToTokens(text: string, max: int): string {
    if max <= 0 || text == "" then ""
    else if Estimate(text) <= max then text
    else TrimSpace(text[..Longest(text, |text|, max)])
  }

  lemma PrefixCostsNoMore(text: string, m: nat, n: nat)
    requires m <= n <= |text|
    ensures Estimate(text[..m]) <= Estimate(text[..n])
  {
    PartCostsNoMore("", text[..m], text[m..n]);
    assert text[..n] == "" + text[..m] + text[m..n];
  }

  /** A prefix fits if and only if it is no longer than the longest one. */
  lemma {:induction false} LongestIsLongest(text: string, n: nat, max: nat, m: nat)
    requires m <= n <= |text|
    ensures Estimate(text[..m]) <= max <==> m <= Longest(text, n, max)
  {
    PrefixCostsNoMore(text, m, n);
    PrefixCostsNoMore(text, Min(m, Longest(text, n, max)), Longest(text, n, max));
    if Estimate(text[..n]) > max && m < n {
      LongestIsLongest(text, n - 1, max, m);
    }
  }

  lemma {:induction false} TrimIsPart(s: string) returns (left: string, right: string)
    ensures s == left + TrimSpace(s) + right
  {
    hide TrimLeft, TrimRight, IsSpace;
    var tail := TrimLeft(s);
    var kept := TrimRight(tail);
    left, right := s[..|s| - |tail|], tail[|kept|..];
    assert tail == kept + right && s == left + tail;
  }

  /** What is kept fits the budget. */
  lemma ClippedFits(text: string, max: int)
    ensures Estimate(FitToTokens(text, max)) <= Max(max, 0)
  {
    if max > 0 && text != "" && Estimate(text) > max {
      var kept := text[..Longest(text, |text|, max)];
      var left, right := TrimIsPart(kept);
      PartCostsNoMore(left, TrimSpace(kept), right);
    }
  }

  lemma OneSymbolCostsOne(text: string)
    requires |text| >= 1
    ensures Estimate(text[..1]) == 1
  {
    assert text[..1][1..] == "";
    assert Weight(text[..1]) == SymbolWeight(text[..1][0]) + Weight(text[..1][1..]);
  }

  /** Halving until something fits, then growing symbol by symbol. */
  method ClipToTokens(text: string, max: int) returns (clipped: string)
    ensures clipped == FitToTokens(text, max)
  {
    hide Estimate, TrimSpace;
    if max <= 0 || text == "" {
      return "";
    }
    if Estimate(text) <= max {
      return text;
    }
    OneSymbolCostsOne(text);
    var head := |text|;
    while head > 0
      invariant 1 <= head <= |text|
    {
      var half := head / 2;
      if half == 0 {
        break;
      }
      head := half;
      if Estimate(text[..head]) <= max {
        break;
      }
    }
    assert Estimate(text[..head]) <= max;
    while head < |text| && Estimate(text[..head + 1]) <= max
      invariant 1 <= head <= |text| && Estimate(text[..head]) <= max
    {
      head := head + 1;
    }
    LongestIsLongest(text, |text|, max, head);
    if head < |text| {
      LongestIsLongest(text, |text|, max, head + 1);
    }
    clipped := TrimSpace(text[..head]);
  }

  function AutoEvidence(tag: string, source: string, max: int): string {
    var body := FitToTokens(source, max - Estimate(tag) - 1);
    if body == "" then "" else tag + " " + body
  }

  /** Label, space and clipped body always fit the budget together. */
  lemma EvidenceFits(tag: string, source: string, max: int)
    ensures Estimate(AutoEvidence(tag, source, max)) <= Max(max, 0)
  {
    hide FitToTokens;
    var body := FitToTokens(source, max - Estimate(tag) - 1);
    ClippedFits(source, max - Estimate(tag) - 1);
    if body != "" {
      Subadditive(tag + " ", body);
      Subadditive(tag, " ");
      assert Estimate(" ") == 1 by { OneSymbolCostsOne(" "); assert " "[..1] == " "; }
      NonEmptyCosts(body);
    }
  }

  lemma NonEmptyCosts(text: string)
    requires text != ""
    ensures Estimate(text) >= 1
  {
  }

  // ------------------------------------------------------------------ selection

  /** A hit as it enters the loop, its already injected evidence pruned. */
  datatype Hit = Hit(base: nat, tag: string, source: string)

  datatype Contribution = Contribution(hit: Hit, content: string, tokens: nat, priority: int)

  /** index is the position of the next hit; picks are the positions of the chosen ones. */
  datatype Selection = Selection(seats: map<nat, int>, used: nat, chosen: seq<Contribution>, picks: seq<nat>,
                                 stopped: bool)

  /** Scores, keywords and identifiers, given what is already chosen. */
  type Filter = (seq<Contribution>, Hit) -> bool

  function Seats(seats: map<nat, int>, base: nat): int { if base in seats then seats[base] else 0 }

  /** What a hit contributes under a budget, clipped again if it came out too long. */
  function ContentOf(hit: Hit, budget: int): string {
    var content := AutoEvidence(hit.tag, hit.source, budget);
    if Estimate(content) > budget then FitToTokens(content, budget) else content
  }

  function Consider(s: Selection, hit: Hit, i: nat, limit: nat, filter: Filter): Selection {
    if s.stopped || Seats(s.seats, hit.base) <= 0 then s
    else if |s.chosen| >= limit then s.(stopped := true)
    else if !filter(s.chosen, hit) then s
    else
      var budget := Min(HIT_BUDGET, TOTAL_BUDGET - s.used);
      var content := ContentOf(hit, budget);
      var tokens := Estimate(content);
      if content == "" || tokens == 0 then s
      else Selection(s.seats[hit.base := Seats(s.seats, hit.base) - 1], s.used + tokens,
                     s.chosen + [Contribution(hit, content, tokens, 80 - |s.chosen|)], s.picks + [i],
                     s.used + tokens >= TOTAL_BUDGET)
  }

  function Selected(hits: seq<Hit>, n: nat, seats: map<nat, int>, limit: nat, filter: Filter): Selection
    requires n <= |hits|
  {
    if n == 0 then Selection(seats, 0, [], [], false)
    else Consider(Selected(hits, n - 1, seats, limit, filter), hits[n - 1], n - 1, limit, filter)
  }

  function TokensOf(chosen: seq<Contribution>): nat {
    if chosen == [] then 0 else TokensOf(chosen[..|chosen| - 1]) + chosen[|chosen| - 1].tokens
  }

  function CountOf(chosen: seq<Contribution>, base: nat): nat {
    if chosen == [] then 0
    else CountOf(chosen[..|chosen| - 1], base) + if chosen[|chosen| - 1].hit.base == base then 1 else 0
  }

  /** Everything promised of a selection among the first n hits. */
  ghost predicate SoundSelection(s: Selection, hits: seq<Hit>, n: nat, seats: map<nat, int>, limit: nat) {
    && n <= |hits| && |s.chosen| == |s.picks| <= limit
    && s.used == TokensOf(s.chosen) <= HIT_BUDGET * |s.chosen|
    && (forall k :: 0 <= k < |s.chosen| ==> SoundContribution(s.chosen[k], k))
    && (forall k :: 0 <= k < |s.picks| ==> s.picks[k] < n && hits[s.picks[k]] == s.chosen[k].hit)
    && (forall j, k :: 0 <= j < k < |s.picks| ==> s.picks[j] < s.picks[k])
    && (forall base: nat :: Seats(s.seats, base) + CountOf(s.chosen, base) == Seats(seats, base))
    && (forall base: nat :: CountOf(s.chosen, base) > 0 ==> Seats(s.seats, base) >= 0)
  }

  predicate SoundContribution(c: Contribution, k: nat) {
    && c.tokens == Estimate(c.content) && 0 < c.tokens <= HIT_BUDGET && c.priority == 80 - k
    && c.content == AutoEvidence(c.hit.tag, c.hit.source, HIT_BUDGET) && c.content != ""
  }

  /** The clipping after the fact never happens. */
  lemma NeverClippedAgain(hit: Hit, budget: int)
    requires budget > 0
    ensures ContentOf(hit, budget) == AutoEvidence(hit.tag, hit.source, budget)
    ensures Estimate(ContentOf(hit, budget)) <= budget
  {
    EvidenceFits(hit.tag, hit.source, budget);
  }

  lemma AppendedTotals(chosen: seq<Contribution>, c: Contribution)
    ensures TokensOf(chosen + [c]) == TokensOf(chosen) + c.tokens
    ensures forall base :: CountOf(chosen + [c], base) == CountOf(chosen, base) + if c.hit.base == base then 1 else 0
  {
    assert (chosen + [c])[..|chosen|] == chosen;
  }

  lemma ConsiderIsSound(s: Selection, hits: seq<Hit>, n: nat, seats: map<nat, int>, limit: nat, filter: Filter)
    requires n < |hits| && limit <= SEAT_LIMIT && SoundSelection(s, hits, n, seats, limit)
    ensures SoundSelection(Consider(s, hits[n], n, limit, filter), hits, n + 1, seats, limit)
    ensures Consider(s, hits[n], n, limit, filter).used < TOTAL_BUDGET
  {
    hide Estimate, AutoEvidence, TokensOf, CountOf;
    var hit := hits[n];
    var budget := Min(HIT_BUDGET, TOTAL_BUDGET - s.used);
    assert |s.chosen| < limit ==> budget == HIT_BUDGET;
    NeverClippedAgain(hit, HIT_BUDGET);
    var content := AutoEvidence(hit.tag, hit.source, HIT_BUDGET);
    AppendedTotals(s.chosen, Contribution(hit, content, Estimate(content), 80 - |s.chosen|));
  }

  lemma NothingChosen(hits: seq<Hit>, seats: map<nat, int>, limit: nat)
    ensures SoundSelection(Selection(seats, 0, [], [], false), hits, 0, seats, limit)
  {
  }

  lemma {:induction false} SelectionSoFar(hits: seq<Hit>, n: nat, seats: map<nat, int>, limit: nat, filter: Filter)
    requires n <= |hits| && limit <= SEAT_LIMIT
    ensures SoundSelection(Selected(hits, n, seats, limit, filter), hits, n, seats, limit)
  {
    hide Consider, SoundSelection;
    if n == 0 {
      NothingChosen(hits, seats, limit);
    } else {
      SelectionSoFar(hits, n - 1, seats, limit, filter);
      ConsiderIsSound(Selected(hits, n - 1, seats, limit, filter), hits, n - 1, seats, limit, filter);
    }
  }

  /** Whatever the hits, the seats and the filter: every contribution is the evidence of
      a hit at the full per-hit budget, in the order of the hits; none costs more than
      180 tokens, all together at most 540, so the total budget of 640 never binds; and
      no base gets more contributions than it has seats. */
  lemma SelectionIsBounded(hits: seq<Hit>, seats: map<nat, int>, limit: nat, filter: Filter)
    requires limit <= SEAT_LIMIT
    ensures var s := Selected(hits, |hits|, seats, limit, filter);
      && SoundSelection(s, hits, |hits|, seats, limit)
      && s.used == TokensOf(s.chosen) <= SEAT_LIMIT * HIT_BUDGET < TOTAL_BUDGET
      && forall base: nat :: CountOf(s.chosen, base) <= Max(Seats(seats, base), 0)
  {
    hide Selected, SoundContribution;
    SelectionSoFar(hits, |hits|, seats, limit, filter);
  }

  // ---------------------------------------------------- which hits are chosen

  /** The first m symbols fit the room, and one more would not. */
  predicate IsLongestOpening(source: string, room: int, m: nat) {
    m <= |source| && Estimate(source[..m]) <= room && (m < |source| ==> Estimate(source[..m + 1]) > room)
  }

  /** The source itself when it fits, else the longest opening of it that does, trimmed. */
  ghost predicate IsBody(body: string, source: string, room: int) {
    if room <= 0 then body == ""
    else exists m: nat | IsLongestOpening(source, room, m) ::
      body == if m >= |source| then source else TrimSpace(source[..m])
  }

  /** The label, a blank and the body that together fit 180 tokens; nothing without a body. */
  ghost predicate IsEvidence(hit: Hit, content: string) {
    exists body: string :: IsBody(body, hit.source, 180 - Estimate(hit.tag) - 1)
      && content == if body == "" then "" else hit.tag + " " + body
  }

  lemma BodyIs(source: string, room: int, body: string)
    ensures IsBody(body, source, room) <==> body == FitToTokens(source, room)
  {
    hide Estimate, TrimSpace;
    if room > 0 {
      var n := LongestOpening(source, room);
      assert FitToTokens(source, room) == if n == |source| then source else TrimSpace(source[..n]);
      assert IsLongestOpening(source, room, n);
    }
  }

  /** Only one opening is the longest that fits. */
  lemma LongestOpening(source: string, room: nat) returns (n: nat)
    requires room > 0
    ensures n == Longest(source, |source|, room) && (n == |source| <==> source == "" || Estimate(source) <= room)
    ensures forall m: nat :: IsLongestOpening(source, room, m) <==> m == n
  {
    hide Estimate;
    n := Longest(source, |source|, room);
    NothingCostsNothing();
    assert source[..|source|] == source;
    forall m: nat | m <= |source|
      ensures Estimate(source[..m]) <= room <==> m <= n
    {
      LongestIsLongest(source, |source|, room, m);
    }
  }

  lemma NothingCostsNothing()
    ensures Estimate("") == 0
  {
  }

  lemma EvidenceIs(hit: Hit, content: string)
    ensures IsEvidence(hit, content) <==> content == AutoEvidence(hit.tag, hit.source, HIT_BUDGET)
  {
    hide Estimate, FitToTokens, IsBody;
    var room := HIT_BUDGET - Estimate(hit.tag) - 1;
    var body := FitToTokens(hit.source, room);
    forall other: string
      ensures IsBody(other, hit.source, room) <==> other == body
    {
      BodyIs(hit.source, room, other);
    }
    assert IsBody(body, hit.source, room);
  }

  /** The k-th contribution: when so many were chosen its base had a seat left, the filter let its hit
      pass, and it has evidence. */
  ghost predicate WasTaken(hits: seq<Hit>, seats: map<nat, int>, filter: Filter, chosen: seq<Contribution>,
                           picks: seq<nat>, k: nat)
    requires k < |chosen| == |picks|
  {
    var c := chosen[k];
    && picks[k] < |hits| && c.hit == hits[picks[k]]
    && Seats(seats, c.hit.base) > CountOf(chosen[..k], c.hit.base)
    && filter(chosen[..k], c.hit)
    && IsEvidence(c.hit, c.content) && c.content != ""
    && c.tokens == Estimate(c.content) && c.priority == 80 - k
  }

  /** Why a hit is passed over when n are chosen. */
  ghost predicate IsPassed(hit: Hit, seats: map<nat, int>, limit: nat, filter: Filter, before: seq<Contribution>) {
    || Seats(seats, hit.base) <= CountOf(before, hit.base)
    || |before| >= limit
    || !filter(before, hit)
    || IsEvidence(hit, "")
  }

  /** So many of the picks come before the i-th hit. */
  predicate ComeBefore(picks: seq<nat>, i: nat, n: nat) {
    n <= |picks| && (forall k :: 0 <= k < n ==> picks[k] < i) && forall k :: n <= k < |picks| ==> picks[k] > i
  }

  predicate Ascending(picks: seq<nat>) { forall j, k :: 0 <= j < k < |picks| ==> picks[j] < picks[k] }

  /** What is chosen of the first so many hits, without going through them one by one: every chosen one was
      to be taken, given those chosen before it, and every other one to be passed over. */
  ghost predicate IsSelection(hits: seq<Hit>, upTo: nat, seats: map<nat, int>, limit: nat, filter: Filter,
                              chosen: seq<Contribution>, picks: seq<nat>)
  {
    && upTo <= |hits| && |chosen| == |picks| <= limit && Ascending(picks)
    && (forall k :: 0 <= k < |chosen| ==> picks[k] < upTo && WasTaken(hits, seats, filter, chosen, picks, k))
    && (forall i :: 0 <= i < upTo && i !in picks ==> exists n: nat ::
          ComeBefore(picks, i, n) && IsPassed(hits[i], seats, limit, filter, chosen[..n]))
  }

  /** What the loop has after n hits: a selection of these; once it stopped, limit are chosen. */
  ghost predicate IsSoFar(s: Selection, hits: seq<Hit>, n: nat, seats: map<nat, int>, limit: nat, filter: Filter) {
    IsSelection(hits, n, seats, limit, filter, s.chosen, s.picks) && (s.stopped ==> |s.chosen| >= limit)
  }

  lemma StillTaken(hits: seq<Hit>, seats: map<nat, int>, filter: Filter, chosen: seq<Contribution>, picks: seq<nat>,
                   c: Contribution, i: nat, k: nat)
    requires k < |chosen| == |picks| && WasTaken(hits, seats, filter, chosen, picks, k)
    ensures WasTaken(hits, seats, filter, chosen + [c], picks + [i], k)
  {
    hide IsEvidence, Estimate, Seats, CountOf;
    assert (chosen + [c])[..k] == chosen[..k];
  }

  /** One more hit that is passed over. */
  lemma PassOver(hits: seq<Hit>, n: nat, seats: map<nat, int>, limit: nat, filter: Filter,
                 chosen: seq<Contribution>, picks: seq<nat>)
    requires n < |hits| && IsSelection(hits, n, seats, limit, filter, chosen, picks)
    requires IsPassed(hits[n], seats, limit, filter, chosen)
    ensures IsSelection(hits, n + 1, seats, limit, filter, chosen, picks)
  {
    hide WasTaken, IsPassed;
    assert chosen[..|chosen|] == chosen;
    assert ComeBefore(picks, n, |picks|);
  }

  /** One more hit that is taken. */
  lemma TakeOver(hits: seq<Hit>, n: nat, seats: map<nat, int>, limit: nat, filter: Filter,
                 chosen: seq<Contribution>, picks: seq<nat>, c: Contribution)
    requires n < |hits| && IsSelection(hits, n, seats, limit, filter, chosen, picks) && |chosen| < limit
    requires WasTaken(hits, seats, filter, chosen + [c], picks + [n], |chosen|)
    ensures IsSelection(hits, n + 1, seats, limit, filter, chosen + [c], picks + [n])
  {
    hide WasTaken, IsPassed;
    forall k | 0 <= k < |chosen|
      ensures WasTaken(hits, seats, filter, chosen + [c], picks + [n], k)
    {
      StillTaken(hits, seats, filter, chosen, picks, c, n, k);
    }
    forall i | 0 <= i < n && i !in picks
      ensures exists m: nat ::
        ComeBefore(picks + [n], i, m) && IsPassed(hits[i], seats, limit, filter, (chosen + [c])[..m])
    {
      var m: nat :| ComeBefore(picks, i, m) && IsPassed(hits[i], seats, limit, filter, chosen[..m]);
      assert (chosen + [c])[..m] == chosen[..m];
      assert ComeBefore(picks + [n], i, m);
    }
  }

  /** What considering a hit does while the total budget leaves room for a whole hit. */
  lemma ConsiderIs(s: Selection, hit: Hit, i: nat, limit: nat, filter: Filter)
    requires |s.chosen| < limit ==> s.used + HIT_BUDGET < TOTAL_BUDGET
    ensures var t, content := Consider(s, hit, i, limit, filter), AutoEvidence(hit.tag, hit.source, HIT_BUDGET);
      if s.stopped || Seats(s.seats, hit.base) <= 0 || |s.chosen| >= limit || !filter(s.chosen, hit) || content == ""
      then t.chosen == s.chosen && t.picks == s.picks && (t.stopped ==> s.stopped || |s.chosen| >= limit)
      else
        && t.chosen == s.chosen + [Contribution(hit, content, Estimate(content), 80 - |s.chosen|)]
        && t.picks == s.picks + [i] && !t.stopped
  {
    hide Estimate, AutoEvidence, ContentOf, Seats;
    NeverClippedAgain(hit, HIT_BUDGET);
    SomeCosts(AutoEvidence(hit.tag, hit.source, HIT_BUDGET));
  }

  lemma WhyPassed(hit: Hit, seats: map<nat, int>, limit: nat, filter: Filter, chosen: seq<Contribution>)
    requires || Seats(seats, hit.base) <= CountOf(chosen, hit.base) || |chosen| >= limit || !filter(chosen, hit)
             || AutoEvidence(hit.tag, hit.source, HIT_BUDGET) == ""
    ensures IsPassed(hit, seats, limit, filter, chosen)
  {
    EvidenceIs(hit, "");
    hide IsEvidence, AutoEvidence, Seats, CountOf;
  }

  lemma WhyTaken(hits: seq<Hit>, n: nat, seats: map<nat, int>, filter: Filter, chosen: seq<Contribution>,
                 picks: seq<nat>, content: string)
    requires n < |hits| && |chosen| == |picks| && Seats(seats, hits[n].base) > CountOf(chosen, hits[n].base)
    requires filter(chosen, hits[n]) && content != ""
    requires content == AutoEvidence(hits[n].tag, hits[n].source, HIT_BUDGET)
    ensures var c := Contribution(hits[n], content, Estimate(content), 80 - |chosen|);
      WasTaken(hits, seats, filter, chosen + [c], picks + [n], |chosen|)
  {
    EvidenceIs(hits[n], content);
    hide IsEvidence, AutoEvidence, Seats, CountOf, Estimate;
    var c := Contribution(hits[n], content, Estimate(content), 80 - |chosen|);
    assert (chosen + [c])[..|chosen|] == chosen;
  }

  lemma SeatsLeft(s: Selection, hits: seq<Hit>, n: nat, seats: map<nat, int>, limit: nat, base: nat)
    requires SoundSelection(s, hits, n, seats, limit)
    ensures Seats(s.seats, base) == Seats(seats, base) - CountOf(s.chosen, base)
    ensures s.used <= HIT_BUDGET * |s.chosen| && |s.chosen| == |s.picks|
  {
    hide Seats, CountOf, TokensOf, SoundContribution;
  }

  lemma ConsiderTakes(s: Selection, hits: seq<Hit>, n: nat, seats: map<nat, int>, limit: nat, filter: Filter)
    requires n < |hits| && limit <= SEAT_LIMIT && SoundSelection(s, hits, n, seats, limit)
    requires IsSoFar(s, hits, n, seats, limit, filter)
    ensures IsSoFar(Consider(s, hits[n], n, limit, filter), hits, n + 1, seats, limit, filter)
  {
    hide Consider, Estimate, AutoEvidence, Seats, CountOf, IsSelection, SoundSelection, WasTaken, IsPassed;
    var hit := hits[n];
    var content := AutoEvidence(hit.tag, hit.source, HIT_BUDGET);
    SeatsLeft(s, hits, n, seats, limit, hit.base);
    ConsiderIs(s, hit, n, limit, filter);
    if s.stopped || Seats(s.seats, hit.base) <= 0 || |s.chosen| >= limit || !filter(s.chosen, hit) || content == "" {
      WhyPassed(hit, seats, limit, filter, s.chosen);
      PassOver(hits, n, seats, limit, filter, s.chosen, s.picks);
    } else {
      WhyTaken(hits, n, seats, filter, s.chosen, s.picks, content);
      TakeOver(hits, n, seats, limit, filter, s.chosen, s.picks,
        Contribution(hit, content, Estimate(content), 80 - |s.chosen|));
    }
  }

  lemma SomeCosts(text: string)
    ensures Estimate(text) == 0 <==> text == ""
  {
  }

  lemma NothingSelectedYet(hits: seq<Hit>, seats: map<nat, int>, limit: nat, filter: Filter)
    ensures IsSoFar(Selection(seats, 0, [], [], false), hits, 0, seats, limit, filter)
  {
  }

  lemma {:induction false} SelectedIsSelection(hits: seq<Hit>, n: nat, seats: map<nat, int>, limit: nat,
                                               filter: Filter)
    requires n <= |hits| && limit <= SEAT_LIMIT
    ensures IsSoFar(Selected(hits, n, seats, limit, filter), hits, n, seats, limit, filter)
  {
    hide Consider, SoundSelection, IsSoFar;
    if n == 0 {
      NothingSelectedYet(hits, seats, limit, filter);
    } else {
      SelectionSoFar(hits, n - 1, seats, limit, filter);
      SelectedIsSelection(hits, n - 1, seats, limit, filter);
      ConsiderTakes(Selected(hits, n - 1, seats, limit, filter), hits, n - 1, seats, limit, filter);
    }
  }

  /** Every hit is either to be taken or to be passed over, so there is one selection. */
  lemma {:induction false} SelectionsAgree(hits: seq<Hit>, seats: map<nat, int>, limit: nat, filter: Filter,
                                           a: seq<Contribution>, p: seq<nat>, b: seq<Contribution>, q: seq<nat>, n: nat)
    requires IsSelection(hits, |hits|, seats, limit, filter, a, p)
    requires IsSelection(hits, |hits|, seats, limit, filter, b, q)
    requires n <= |a|
    ensures n <= |b| && a[..n] == b[..n] && p[..n] == q[..n]
  {
    hide WasTaken, IsPassed;
    if n > 0 {
      SelectionsAgree(hits, seats, limit, filter, a, p, b, q, n - 1);
      assert forall k :: 0 <= k < n - 1 ==> p[..n - 1][k] == p[k] && q[..n - 1][k] == q[k];
      if n - 1 == |b| || p[n - 1] < q[n - 1] {
        NotPassed(hits, seats, limit, filter, a, p, b, q, n - 1);
      } else if q[n - 1] < p[n - 1] {
        NotPassed(hits, seats, limit, filter, b, q, a, p, n - 1);
      }
      SameContribution(hits, seats, filter, a, p, b, q, n - 1);
      assert a[..n] == a[..n - 1] + [a[n - 1]] && b[..n] == b[..n - 1] + [b[n - 1]];
      assert p[..n] == p[..n - 1] + [p[n - 1]] && q[..n] == q[..n - 1] + [q[n - 1]];
    }
  }

  /** The n picks before p[k] are those that agree. */
  lemma SamePicksBefore(p: seq<nat>, q: seq<nat>, k: nat)
    requires Ascending(p) && Ascending(q) && k < |p| && k <= |q| && forall i :: 0 <= i < k ==> p[i] == q[i]
    requires k == |q| || p[k] < q[k]
    ensures p[k] !in q && forall n: nat :: ComeBefore(q, p[k], n) ==> n == k
  {
    forall i | 0 <= i < |q|
      ensures if i < k then q[i] < p[k] else q[i] > p[k]
    {
      if i < k {
        assert p[i] < p[k];
      }
    }
    forall n: nat | ComeBefore(q, p[k], n)
      ensures n == k
    {
      OneComesBefore(q, p[k], k, n);
    }
  }

  lemma NoFewerComeBefore(q: seq<nat>, i: nat, m: nat, n: nat)
    requires ComeBefore(q, i, m) && ComeBefore(q, i, n)
    ensures n <= m
  {
    if m < |q| {
      assert q[m] > i;
    }
  }

  lemma OneComesBefore(q: seq<nat>, i: nat, m: nat, n: nat)
    requires ComeBefore(q, i, m) && ComeBefore(q, i, n)
    ensures m == n
  {
    NoFewerComeBefore(q, i, m, n);
    NoFewerComeBefore(q, i, n, m);
  }

  lemma TakenIsNotPassed(hits: seq<Hit>, seats: map<nat, int>, limit: nat, filter: Filter,
                         a: seq<Contribution>, p: seq<nat>, k: nat)
    requires k < |a| == |p| && k < limit && WasTaken(hits, seats, filter, a, p, k)
    ensures p[k] < |hits| && !IsPassed(hits[p[k]], seats, limit, filter, a[..k])
  {
    EvidenceIs(a[k].hit, a[k].content);
    EvidenceIs(a[k].hit, "");
    hide IsEvidence, AutoEvidence, Estimate, CountOf, Seats;
  }

  /** What one selection takes next, another that agrees so far cannot leave out. */
  lemma NotPassed(hits: seq<Hit>, seats: map<nat, int>, limit: nat, filter: Filter,
                  a: seq<Contribution>, p: seq<nat>, b: seq<Contribution>, q: seq<nat>, k: nat)
    requires IsSelection(hits, |hits|, seats, limit, filter, a, p)
    requires IsSelection(hits, |hits|, seats, limit, filter, b, q)
    requires k < |a| && k <= |b| && a[..k] == b[..k] && forall i :: 0 <= i < k ==> p[i] == q[i]
    ensures k < |b| && p[k] >= q[k]
  {
    hide WasTaken, IsPassed;
    TakenIsNotPassed(hits, seats, limit, filter, a, p, k);
    if k == |b| || p[k] < q[k] {
      SamePicksBefore(p, q, k);
      assert false;
    }
  }

  lemma SameContribution(hits: seq<Hit>, seats: map<nat, int>, filter: Filter,
                         a: seq<Contribution>, p: seq<nat>, b: seq<Contribution>, q: seq<nat>, k: nat)
    requires k < |a| == |p| && k < |b| == |q| && p[k] == q[k]
    requires WasTaken(hits, seats, filter, a, p, k) && WasTaken(hits, seats, filter, b, q, k)
    ensures a[k] == b[k]
  {
    EvidenceIs(a[k].hit, a[k].content);
    EvidenceIs(a[k].hit, b[k].content);
    hide IsEvidence, AutoEvidence, Estimate;
  }

  lemma SelectionIsUnique(hits: seq<Hit>, seats: map<nat, int>, limit: nat, filter: Filter,
                          a: seq<Contribution>, p: seq<nat>, b: seq<Contribution>, q: seq<nat>)
    requires IsSelection(hits, |hits|, seats, limit, filter, a, p)
    requires IsSelection(hits, |hits|, seats, limit, filter, b, q)
    ensures a == b && p == q
  {
    hide WasTaken, IsPassed;
    SelectionsAgree(hits, seats, limit, filter, a, p, b, q, |a|);
    SelectionsAgree(hits, seats, limit, filter, b, q, a, p, |b|);
    assert a[..|a|] == a && b[..|b|] == b && p[..|p|] == p && q[..|q|] == q;
  }

  lemma SelectedIsTheSelection(hits: seq<Hit>, seats: map<nat, int>, limit: nat, filter: Filter)
    requires limit <= SEAT_LIMIT
    ensures var s := Selected(hits, |hits|, seats, limit, filter);
      && s.used == TokensOf(s.chosen)
      && exists picks: seq<nat> :: IsSelection(hits, |hits|, seats, limit, filter, s.chosen, picks)
  {
    hide Selected, IsSelection, TokensOf, Estimate;
    SelectedIsSelection(hits, |hits|, seats, limit, filter);
    SelectionSoFar(hits, |hits|, seats, limit, filter);
  }

  lemma SelectedStarts(hits: seq<Hit>, seats: map<nat, int>, limit: nat, filter: Filter)
    ensures Selected(hits, 0, seats, limit, filter) == Selection(seats, 0, [], [], false)
  {
  }

  lemma SelectedStep(hits: seq<Hit>, i: nat, seats: map<nat, int>, limit: nat, filter: Filter)
    requires i < |hits|
    ensures Selected(hits, i + 1, seats, limit, filter) ==
      Consider(Selected(hits, i, seats, limit, filter), hits[i], i, limit, filter)
  {
    hide Consider;
  }

  /** The loop over the hits, with its early exits. */
  method SelectContributions(hits: seq<Hit>, initial: map<nat, int>, limit: nat, filter: Filter)
    returns (chosen: seq<Contribution>, used: nat)
    requires limit <= SEAT_LIMIT
    ensures var s := Selected(hits, |hits|, initial, limit, filter); chosen == s.chosen && used == s.used
    ensures exists picks: seq<nat> :: IsSelection(hits, |hits|, initial, limit, filter, chosen, picks)
    ensures used == TokensOf(chosen)
  {
    hide ContentOf, Estimate, Seats, IsSelection, TokensOf, Selected;
    var seats: map<nat, int> := initial;
    chosen, used := [], 0;
    SelectedStarts(hits, initial, limit, filter);
    ghost var picks: seq<nat> := [];
    for i := 0 to |hits|
      invariant Selected(hits, i, initial, limit, filter) == Selection(seats, used, chosen, picks, false)
    {
      var hit := hits[i];
      SelectedStep(hits, i, initial, limit, filter);
      if Seats(seats, hit.base) <= 0 {
        continue;
      }
      if |chosen| >= limit {
        Stopped(hits, i + 1, |hits|, initial, limit, filter);
        break;
      }
      if !filter(chosen, hit) {
        continue;
      }
      var budget := Min(HIT_BUDGET, TOTAL_BUDGET - used);
      var content := ContentOf(hit, budget);
      var tokens := Estimate(content);
      if content == "" || tokens == 0 {
        continue;
      }
      seats := seats[hit.base := Seats(seats, hit.base) - 1];
      used := used + tokens;
      chosen := chosen + [Contribution(hit, content, tokens, 80 - |chosen|)];
      picks := picks + [i];
      if used >= TOTAL_BUDGET {
        Stopped(hits, i + 1, |hits|, initial, limit, filter);
        break;
      }
    }
    SelectedIsTheSelection(hits, initial, limit, filter);
  }

  /** After an early exit nothing is chosen any more. */
  lemma {:induction false} Stopped(hits: seq<Hit>, i: nat, n: nat, seats: map<nat, int>, limit: nat, filter: Filter)
    requires i <= n <= |hits| && Selected(hits, i, seats, limit, filter).stopped
    ensures Selected(hits, n, seats, limit, filter) == Selected(hits, i, seats, limit, filter)
  {
    hide ContentOf, Estimate, Seats;
    if i < n {
      Stopped(hits, i, n - 1, seats, limit, filter);
    }
  }

  // ------------------------------------------------------------------- delivery

  const ORIGIN := "Untrusted reference material from the "
  const OWNER := "user's knowledge bases. "
  const QUOTING := "Quote only relevant "
  const CITING := "evidence and cite the source identifiers.\n"

  const NOTICE := ORIGIN + OWNER + QUOTING + CITING

  const NOTICE_TOKENS := 31

  lemma OpeningWeight()
    ensures Weight(ORIGIN + OWNER) == 3 * 62
  {
    hide Weight;
    AsciiWeight(ORIGIN);
    AsciiWeight(OWNER);
    WeightConcat(ORIGIN, OWNER);
  }

  lemma AdviceWeight()
    ensures Weight(QUOTING + CITING) == 3 * 62
  {
    hide Weight;
    AsciiWeight(QUOTING);
    AsciiWeight(CITING);
    WeightConcat(QUOTING, CITING);
  }

  /** 124 symbols of a quarter token each. */
  lemma NoticeWeight()
    ensures Weight(NOTICE) == 3 * 124 == 12 * NOTICE_TOKENS
  {
    assert NOTICE == (ORIGIN + OWNER) + (QUOTING + CITING);
    hide *;
    OpeningWeight();
    AdviceWeight();
    WeightConcat(ORIGIN + OWNER, QUOTING + CITING);
  }

  /** What the notice adds to a text is exactly its own estimate. */
  lemma NoticeAdds(content: string)
    ensures Estimate(NOTICE + content) == Estimate(content) + NOTICE_TOKENS
  {
    hide Weight;
    NoticeWeight();
    WeightConcat(NOTICE, content);
  }

  function Delivered(chosen: seq<Contribution>): nat {
    if chosen == [] then 0
    else Delivered(chosen[..|chosen| - 1]) + Estimate(NOTICE + chosen[|chosen| - 1].content)
  }

  lemma {:induction false} DeliveredIs(chosen: seq<Contribution>)
    requires forall c <- chosen :: c.tokens == Estimate(c.content)
    ensures Delivered(chosen) == TokensOf(chosen) + NOTICE_TOKENS * |chosen|
  {
    hide Estimate;
    if chosen != [] {
      DeliveredIs(chosen[..|chosen| - 1]);
      NoticeAdds(chosen[|chosen| - 1].content);
      assert chosen[|chosen| - 1] in chosen;
    }
  }

  /** The notice put before each contribution is not counted: every delivery costs exactly 31
      tokens more per contribution than is accounted for. Even so all of it together stays
      within the total budget, though not within the per-hit one. */
  lemma NoticeIsUncounted(hits: seq<Hit>, seats: map<nat, int>, limit: nat, filter: Filter)
    requires limit <= SEAT_LIMIT
    ensures var s := Selected(hits, |hits|, seats, limit, filter);
      && (forall c <- s.chosen :: Estimate(NOTICE + c.content) == c.tokens + NOTICE_TOKENS)
      && Delivered(s.chosen) == s.used + NOTICE_TOKENS * |s.chosen| <= 633 < TOTAL_BUDGET
  {
    hide Selected, Estimate, Delivered, AutoEvidence;
    var s := Selected(hits, |hits|, seats, limit, filter);
    SelectionIsBounded(hits, seats, limit, filter);
    forall c | c in s.chosen
      ensures c.tokens == Estimate(c.content) && Estimate(NOTICE + c.content) == c.tokens + NOTICE_TOKENS
    {
      NoticeAdds(c.content);
    }
    DeliveredIs(s.chosen);
  }

  /** A hit that fills its budget is delivered with 211 tokens. */
  lemma DeliveryMayExceed() returns (hit: Hit)
    ensures Estimate(ContentOf(hit, HIT_BUDGET)) == HIT_BUDGET
    ensures Estimate(NOTICE + ContentOf(hit, HIT_BUDGET)) == 211
  {
    hit := Hit(0, "", seq(716, i => 'a'));
    hide Weight;
    AsciiWeight("");
    AsciiWeight(hit.source);
    AsciiWeight("" + " " + hit.source);
    assert FitToTokens(hit.source, 179) == hit.source;
    assert AutoEvidence(hit.tag, hit.source, HIT_BUDGET) == "" + " " + hit.source;
    NeverClippedAgain(hit, HIT_BUDGET);
    NoticeAdds(ContentOf(hit, HIT_BUDGET));
  }
}
