/** Merging chunks after the split: fragments join a neighbour, and similar
    neighbours join each other while they fit. */
module Fragments {
  import opened Text
  import opened Blocks
  import opened SplitBlocks

  type Piece = Block

  // ------------------------------------------------------------------ fragments

  /** Which symbols carry meaning: the letters and digits. */
  type Meaning = char -> bool

  predicate IsMeaning(m: Meaning) { forall c: char :: IsSpace(c) ==> !m(c) }

  function Meaningful(s: string, m: Meaning): nat {
    if s == "" then 0 else (if m(s[0]) then 1 else 0) + Meaningful(s[1..], m)
  }

  const MINIMUM := 10

  predicate Healthy(s: string, m: Meaning) { Meaningful(s, m) >= MINIMUM }

  lemma {:induction false} MeaningConcat(a: string, b: string, m: Meaning)
    ensures Meaningful(a + b, m) == Meaningful(a, m) + Meaningful(b, m)
  {
    if a == "" {
      assert a + b == b;
    } else {
      assert (a + b)[1..] == a[1..] + b;
      MeaningConcat(a[1..], b, m);
    }
  }

  /** White space carries no meaning, so only the content counts. */
  lemma {:induction false} MeaningOfContent(s: string, m: Meaning)
    requires IsMeaning(m)
    ensures Meaningful(Solid(s), m) == Meaningful(s, m)
  {
    if s != "" {
      MeaningOfContent(s[1..], m);
      if !IsSpace(s[0]) {
        assert ([s[0]] + Solid(s[1..]))[1..] == Solid(s[1..]);
      }
    }
  }

  lemma TrimKeepsMeaning(s: string, m: Meaning)
    requires IsMeaning(m)
    ensures Healthy(TrimSpace(s), m) <==> Healthy(s, m)
  {
    MeaningOfContent(s, m);
    MeaningOfContent(TrimSpace(s), m);
    SolidTrim(s);
  }

  function Joined(a: string, b: string): string { a + "\n" + b }

  lemma JoinedContent(a: string, b: string)
    ensures Solid(Joined(a, b)) == Solid(a) + Solid(b)
  {
    SolidConcat(a + "\n", b);
    SolidConcat(a, "\n");
    assert Solid("\n") == "";
  }

  lemma JoinedIsHealthy(a: string, b: string, m: Meaning)
    requires Healthy(a, m) || Healthy(b, m)
    ensures Healthy(Joined(a, b), m)
  {
    MeaningConcat(a + "\n", b, m);
    MeaningConcat(a, "\n", m);
  }

  /** The pieces put out so far, and the fragments held back for the next healthy one. */
  datatype Sweep = Sweep(out: seq<Piece>, held: string)

  function Take(s: Sweep, piece: Piece, m: Meaning): Sweep {
    var text := TrimSpace(piece.text);
    if text == "" then s
    else if Healthy(text, m) then
      Sweep(s.out + [if s.held != "" then piece.(text := Joined(s.held, text)) else piece], "")
    else if s.out != [] && Healthy(s.out[|s.out| - 1].text, m) then
      var prev := s.out[|s.out| - 1];
      s.(out := s.out[|s.out| - 1 := prev.(text := Joined(TrimSpace(prev.text), text))])
    else s.(held := if s.held != "" then Joined(s.held, text) else text)
  }

  function Swept(pieces: seq<Piece>, m: Meaning): Sweep {
    if pieces == [] then Sweep([], "") else Take(Swept(pieces[..|pieces| - 1], m), pieces[|pieces| - 1], m)
  }

  /** What the sweep always keeps: everything put out is healthy, and something is held
      back only while nothing has been put out. */
  predicate SoundSweep(s: Sweep, m: Meaning) {
    && (forall k :: 0 <= k < |s.out| ==> Healthy(s.out[k].text, m))
    && (s.held != "" ==> s.out == [])
  }

  lemma TakeIsSound(s: Sweep, piece: Piece, m: Meaning)
    requires IsMeaning(m) && SoundSweep(s, m)
    ensures SoundSweep(Take(s, piece, m), m)
  {
    hide TrimSpace, Healthy, Joined, IsMeaning;
    var text := TrimSpace(piece.text);
    TrimKeepsMeaning(piece.text, m);
    if Healthy(text, m) {
      JoinedIsHealthy(s.held, text, m);
    } else if s.out != [] {
      var prev := s.out[|s.out| - 1];
      TrimKeepsMeaning(prev.text, m);
      JoinedIsHealthy(TrimSpace(prev.text), text, m);
    }
  }

  lemma TakeKeepsContent(s: Sweep, piece: Piece, m: Meaning)
    requires IsMeaning(m) && SoundSweep(s, m)
    ensures var t := Take(s, piece, m);
      Content(TextsOf(t.out)) + Solid(t.held) == Content(TextsOf(s.out)) + Solid(s.held) + Solid(piece.text)
  {
    hide TrimSpace, Healthy, Joined, IsMeaning, Content, TextsOf, Solid;
    var text := TrimSpace(piece.text);
    SolidTrim(piece.text);
    NothingIsSolid();
    JoinedContent(s.held, text);
    if Healthy(text, m) {
      var added := if s.held != "" then piece.(text := Joined(s.held, text)) else piece;
      TextsOfAppend(s.out, added);
      ContentAppend(TextsOf(s.out), added.text);
    } else if text != "" && s.out != [] {
      var prev := s.out[|s.out| - 1];
      var grown := prev.(text := Joined(TrimSpace(prev.text), text));
      SolidTrim(prev.text);
      JoinedContent(TrimSpace(prev.text), text);
      LastContent(s.out);
      LastContent(s.out[|s.out| - 1 := grown]);
      assert s.out[|s.out| - 1 := grown][..|s.out| - 1] == s.out[..|s.out| - 1];
    }
  }

  lemma LastContent(out: seq<Piece>)
    requires out != []
    ensures Content(TextsOf(out)) == Content(TextsOf(out[..|out| - 1])) + Solid(out[|out| - 1].text)
  {
    hide Solid, Content;
    assert out == out[..|out| - 1] + [out[|out| - 1]];
    TextsOfAppend(out[..|out| - 1], out[|out| - 1]);
    ContentAppend(TextsOf(out[..|out| - 1]), out[|out| - 1].text);
  }

  lemma NothingIsSolid()
    ensures Solid("") == "" && Content([]) == ""
  {
  }

  lemma {:induction false} SweptIsSound(pieces: seq<Piece>, m: Meaning)
    requires IsMeaning(m)
    ensures var s := Swept(pieces, m);
      SoundSweep(s, m) && Content(TextsOf(s.out)) + Solid(s.held) == Content(TextsOf(pieces))
  {
    hide Content, Solid, TextsOf, IsMeaning, Take, SoundSweep;
    if pieces == [] {
      EmptySweep(m);
    } else {
      var front := pieces[..|pieces| - 1];
      SweptIsSound(front, m);
      TakeIsSound(Swept(front, m), pieces[|pieces| - 1], m);
      TakeKeepsContent(Swept(front, m), pieces[|pieces| - 1], m);
      LastContent(pieces);
    }
  }

  lemma EmptySweep(m: Meaning)
    ensures SoundSweep(Sweep([], ""), m) && Content(TextsOf([])) == "" == Solid("")
  {
  }

  function Hygienized(pieces: seq<Piece>, m: Meaning): seq<Piece> {
    if |pieces| <= 1 || Swept(pieces, m).out == [] then pieces else Swept(pieces, m).out
  }

  /** Hygiene hands back its input or only pieces with ten meaningful symbols, and
      never loses, adds or moves content; so nothing is ever held back at the end. */
  lemma HygieneIsSound(pieces: seq<Piece>, m: Meaning)
    requires IsMeaning(m)
    ensures Content(TextsOf(Hygienized(pieces, m))) == Content(TextsOf(pieces))
    ensures Hygienized(pieces, m) == pieces || forall k :: 0 <= k < |Hygienized(pieces, m)| ==>
      Healthy(Hygienized(pieces, m)[k].text, m)
    ensures Swept(pieces, m).held == "" || Swept(pieces, m).out == []
  {
    hide Content, TextsOf, IsMeaning, Healthy, Swept;
    SweptIsSound(pieces, m);
    NothingIsSolid();
  }

  /** The sweep over the pieces; the branch that merges a trailing fragment is dead. */
  method HygienizeChunks(pieces: seq<Piece>, m: Meaning) returns (result: seq<Piece>)
    requires IsMeaning(m)
    ensures result == Hygienized(pieces, m)
  {
    hide Healthy, IsMeaning, TrimSpace, Joined;
    if |pieces| <= 1 {
      return pieces;
    }
    var out, held := [], "";
    for i := 0 to |pieces|
      invariant Sweep(out, held) == Swept(pieces[..i], m)
    {
      assert pieces[..i + 1][..i] == pieces[..i];
      var text := TrimSpace(pieces[i].text);
      if text != "" {
        if Meaningful(text, m) >= MINIMUM {
          assert Healthy(text, m) by { Threshold(text, m); }
          out := out + [if held != "" then pieces[i].(text := Joined(held, text)) else pieces[i]];
          held := "";
        } else {
          assert !Healthy(text, m) by { Threshold(text, m); }
          if out != [] && Healthy(out[|out| - 1].text, m) {
            var prev := out[|out| - 1];
            out := out[|out| - 1 := prev.(text := Joined(TrimSpace(prev.text), text))];
          } else {
            held := if held != "" then Joined(held, text) else text;
          }
        }
      }
    }
    assert pieces[..|pieces|] == pieces;
    SweptIsSound(pieces, m);
    if held != "" && out != [] {
      assert false;
    }
    return if out == [] then pieces else out;
  }

  lemma Threshold(s: string, m: Meaning)
    ensures Healthy(s, m) <==> Meaningful(s, m) >= MINIMUM
  {
  }

  // ------------------------------------------------------ which fragments go where

  predicate IsTrimmed(s: string) { s != "" && !IsSpace(s[0]) && !IsSpace(s[|s| - 1]) }

  lemma TrimmedStays(s: string)
    requires IsTrimmed(s)
    ensures TrimSpace(s) == s
  {
    assert StartOf(s, 0) == 0 && EndOf(s, |s|) == |s|;
  }

  lemma TrimIsTrimmed(s: string)
    requires TrimSpace(s) != ""
    ensures IsTrimmed(TrimSpace(s))
  {
    var left := TrimLeft(s);
    assert TrimRight(left) == left[..|TrimRight(left)|];
  }

  /** The trimmed texts that are not blank. */
  function Parts(pieces: seq<Piece>): (parts: seq<string>) {
    if pieces == [] then []
    else
      var text := TrimSpace(pieces[|pieces| - 1].text);
      Parts(pieces[..|pieces| - 1]) + if text == "" then [] else [text]
  }

  predicate AllTrimmed(parts: seq<string>) { forall k :: 0 <= k < |parts| ==> IsTrimmed(parts[k]) }

  lemma {:induction false} PartsAreTrimmed(pieces: seq<Piece>)
    ensures AllTrimmed(Parts(pieces))
    ensures forall p <- pieces :: TrimSpace(p.text) != "" ==> TrimSpace(p.text) in Parts(pieces)
  {
    hide TrimSpace, IsTrimmed;
    if pieces != [] {
      var front, last := pieces[..|pieces| - 1], pieces[|pieces| - 1];
      PartsAreTrimmed(front);
      assert pieces == front + [last];
      if TrimSpace(last.text) != "" {
        TrimIsTrimmed(last.text);
      }
    }
  }

  lemma {:induction false} LinesAreTrimmed(parts: seq<string>)
    requires parts != [] && AllTrimmed(parts)
    ensures IsTrimmed(JoinLines(parts))
  {
    if |parts| > 1 {
      LinesAreTrimmed(parts[..|parts| - 1]);
    }
  }

  lemma PartsAppend(pieces: seq<Piece>, p: Piece)
    ensures Parts(pieces + [p]) == Parts(pieces) + if TrimSpace(p.text) == "" then [] else [TrimSpace(p.text)]
  {
    hide TrimSpace;
    assert (pieces + [p])[..|pieces|] == pieces;
  }

  lemma JoinLinesAppend(parts: seq<string>, text: string)
    ensures JoinLines(parts + [text]) == if parts == [] then text else Joined(JoinLines(parts), text)
  {
    assert (parts + [text])[..|parts|] == parts;
  }

  /** A healthy piece with the fragments next to it: on its own untouched, else all of them, trimmed, on
      lines of their own; under its heading. */
  predicate IsMerged(r: Piece, piece: Piece, parts: seq<string>) {
    && AllTrimmed(parts) && TrimSpace(piece.text) in parts
    && r.heading == piece.heading
    && r.text == if |parts| == 1 then piece.text else JoinLines(parts)
  }

  lemma MergedGrows(r: Piece, piece: Piece, parts: seq<string>, text: string)
    requires IsMerged(r, piece, parts) && IsTrimmed(text)
    ensures IsMerged(r.(text := Joined(TrimSpace(r.text), text)), piece, parts + [text])
  {
    hide TrimSpace, IsTrimmed, JoinLines;
    if |parts| == 1 {
      assert parts == [TrimSpace(piece.text)];
      JoinOne(parts[0]);
    } else {
      LinesAreTrimmed(parts);
      TrimmedStays(r.text);
    }
    JoinLinesAppend(parts, text);
  }

  /** Where the group of the k-th healthy piece begins and ends: it goes on up to the next one, and the
      first has what comes before it. */
  function From(at: seq<nat>, k: nat): nat requires k < |at| { if k == 0 then 0 else at[k] }

  function To(at: seq<nat>, k: nat, n: nat): nat requires k < |at| { if k + 1 < |at| then at[k + 1] else n }

  predicate IsGroupOf(r: Piece, pieces: seq<Piece>, at: seq<nat>, k: nat) {
    && k < |at| && at[k] < |pieces| && From(at, k) <= To(at, k, |pieces|) <= |pieces|
    && IsMerged(r, pieces[at[k]], Parts(pieces[From(at, k)..To(at, k, |pieces|)]))
  }

  /** These are the places of the healthy pieces. */
  predicate AreHealthy(pieces: seq<Piece>, m: Meaning, at: seq<nat>) {
    && (forall k :: 0 <= k < |at| ==> at[k] < |pieces|)
    && (forall j, k :: 0 <= j < k < |at| ==> at[j] < at[k])
    && (forall i :: 0 <= i < |pieces| ==> (Healthy(TrimSpace(pieces[i].text), m) <==> i in at))
  }

  predicate AreGroups(out: seq<Piece>, pieces: seq<Piece>, at: seq<nat>) {
    |out| == |at| && forall k :: 0 <= k < |at| ==> IsGroupOf(out[k], pieces, at, k)
  }

  /** A group that ended before the last piece is as it was. */
  lemma EarlierGroup(r: Piece, front: seq<Piece>, p: Piece, at: seq<nat>, k: nat)
    requires k + 1 < |at| && at[k + 1] <= |front| && IsGroupOf(r, front, at, k)
    ensures IsGroupOf(r, front + [p], at, k)
  {
    hide IsMerged, Parts;
    assert (front + [p])[From(at, k)..at[k + 1]] == front[From(at, k)..at[k + 1]];
  }

  /** The last group takes the last piece: nothing of a blank one, else its text on a line of its own. */
  lemma LastGroup(r: Piece, front: seq<Piece>, p: Piece, at: seq<nat>, k: nat)
    requires k + 1 == |at| && IsGroupOf(r, front, at, k)
    ensures TrimSpace(p.text) == "" ==> IsGroupOf(r, front + [p], at, k)
    ensures TrimSpace(p.text) != "" ==>
      IsGroupOf(r.(text := Joined(TrimSpace(r.text), TrimSpace(p.text))), front + [p], at, k)
  {
    hide IsMerged, Parts, TrimSpace;
    var from := From(at, k);
    assert (front + [p])[from..|front| + 1] == front[from..] + [p] && front[from..|front|] == front[from..];
    PartsAppend(front[from..], p);
    assert Parts(front[from..]) + [] == Parts(front[from..]);
    if TrimSpace(p.text) != "" {
      TrimIsTrimmed(p.text);
      MergedGrows(r, front[at[k]], Parts(front[from..]), TrimSpace(p.text));
    }
  }

  /** A healthy piece closes the last group and starts one of its own. */
  lemma ClosedGroup(r: Piece, front: seq<Piece>, p: Piece, at: seq<nat>, k: nat)
    requires k < |at| && IsGroupOf(r, front, at, k)
    ensures IsGroupOf(r, front + [p], at + [|front|], k)
  {
    hide IsMerged, Parts;
    var to := To(at, k, |front|);
    assert To(at + [|front|], k, |front| + 1) == to && From(at + [|front|], k) == From(at, k);
    assert (front + [p])[From(at, k)..to] == front[From(at, k)..to];
  }

  lemma MergedWithHeld(held: string, before: seq<Piece>, p: Piece)
    requires TrimSpace(p.text) != "" && held == JoinLines(Parts(before))
    ensures IsMerged(if held != "" then p.(text := Joined(held, TrimSpace(p.text))) else p, p, Parts(before + [p]))
  {
    hide TrimSpace, JoinLines, IsTrimmed, Parts;
    var parts := Parts(before);
    PartsAppend(before, p);
    PartsAreTrimmed(before);
    TrimIsTrimmed(p.text);
    NoPartsNoLines();
    JoinLinesAppend(parts, TrimSpace(p.text));
    if parts != [] {
      LinesAreTrimmed(parts);
      TrimmedIsSome(JoinLines(parts));
    }
  }

  lemma NewGroup(held: string, front: seq<Piece>, p: Piece, at: seq<nat>)
    requires TrimSpace(p.text) != "" && held == if at == [] then JoinLines(Parts(front)) else ""
    ensures var text := TrimSpace(p.text);
      IsGroupOf(if held != "" then p.(text := Joined(held, text)) else p, front + [p], at + [|front|], |at|)
  {
    hide TrimSpace, JoinLines, IsMerged, Parts, Joined;
    var before := if at == [] then front else [];
    NoPartsNoLines();
    MergedWithHeld(held, before, p);
    LastAlone(if held != "" then p.(text := Joined(held, TrimSpace(p.text))) else p, front, p, at, before);
  }

  lemma LastAlone(r: Piece, front: seq<Piece>, p: Piece, at: seq<nat>, before: seq<Piece>)
    requires before == (if at == [] then front else []) && IsMerged(r, p, Parts(before + [p]))
    ensures IsGroupOf(r, front + [p], at + [|front|], |at|)
  {
    hide IsMerged, Parts;
    var all, at' := front + [p], at + [|front|];
    assert To(at', |at|, |all|) == |all|;
    if at == [] {
      assert all[0..|all|] == before + [p];
    } else {
      assert all[|front|..|all|] == before + [p];
    }
  }

  lemma TrimmedIsSome(s: string)
    requires IsTrimmed(s)
    ensures s != ""
  {
  }

  lemma NoPartsNoLines()
    ensures Parts([]) == [] && JoinLines([]) == ""
  {
  }

  lemma HealthyAppend(front: seq<Piece>, p: Piece, m: Meaning, at: seq<nat>)
    requires AreHealthy(front, m, at)
    ensures AreHealthy(front + [p], m, if Healthy(TrimSpace(p.text), m) then at + [|front|] else at)
  {
    hide Healthy, TrimSpace;
  }

  /** What the sweep has after some pieces: a group for each healthy one, and, before the first of
      these, the fragments held back. */
  ghost predicate HasGroups(s: Sweep, pieces: seq<Piece>, at: seq<nat>) {
    && AreGroups(s.out, pieces, at)
    && s.held == if at == [] then JoinLines(Parts(pieces)) else ""
  }

  lemma TakeHealthy(s: Sweep, front: seq<Piece>, p: Piece, m: Meaning, at: seq<nat>)
    requires HasGroups(s, front, at) && Healthy(TrimSpace(p.text), m) && TrimSpace(p.text) != ""
    ensures HasGroups(Take(s, p, m), front + [p], at + [|front|])
  {
    hide Healthy, TrimSpace, IsGroupOf, JoinLines, Parts, Joined;
    NewGroup(s.held, front, p, at);
    var out := Take(s, p, m).out;
    forall k | 0 <= k < |at|
      ensures IsGroupOf(out[k], front + [p], at + [|front|], k)
    {
      ClosedGroup(s.out[k], front, p, at, k);
    }
  }

  lemma TakeFragment(s: Sweep, front: seq<Piece>, p: Piece, m: Meaning, at: seq<nat>)
    requires HasGroups(s, front, at) && SoundSweep(s, m) && !Healthy(TrimSpace(p.text), m)
    ensures HasGroups(Take(s, p, m), front + [p], at)
  {
    hide Healthy, TrimSpace, IsGroupOf, JoinLines, Parts, Joined;
    var out := Take(s, p, m).out;
    if at == [] {
      HeldGrows(s.held, front, p);
    } else {
      forall k | 0 <= k < |at|
        ensures IsGroupOf(out[k], front + [p], at, k)
      {
        if k + 1 < |at| {
          StillBefore(s.out[k], front, p, at, k);
        } else {
          LastGroup(s.out[k], front, p, at, k);
        }
      }
    }
  }

  lemma StillBefore(r: Piece, front: seq<Piece>, p: Piece, at: seq<nat>, k: nat)
    requires k + 1 < |at| && IsGroupOf(r, front, at, k)
    ensures IsGroupOf(r, front + [p], at, k)
  {
    hide IsMerged;
    EarlierGroup(r, front, p, at, k);
  }

  lemma HeldGrows(held: string, front: seq<Piece>, p: Piece)
    requires held == JoinLines(Parts(front))
    ensures var text := TrimSpace(p.text);
      JoinLines(Parts(front + [p])) ==
        if text == "" then held else if held != "" then Joined(held, text) else text
  {
    hide TrimSpace, JoinLines, IsTrimmed, Parts, Joined;
    PartsAppend(front, p);
    PartsAreTrimmed(front);
    NoPartsNoLines();
    JoinLinesAppend(Parts(front), TrimSpace(p.text));
    assert Parts(front) + [] == Parts(front);
    if Parts(front) != [] {
      LinesAreTrimmed(Parts(front));
      TrimmedIsSome(JoinLines(Parts(front)));
    }
  }

  lemma NothingIsUnhealthy(m: Meaning)
    ensures !Healthy("", m)
  {
  }

  lemma TakeGroups(s: Sweep, front: seq<Piece>, p: Piece, m: Meaning, at: seq<nat>)
    requires HasGroups(s, front, at) && SoundSweep(s, m)
    ensures HasGroups(Take(s, p, m), front + [p], if Healthy(TrimSpace(p.text), m) then at + [|front|] else at)
  {
    hide Healthy, TrimSpace, HasGroups, SoundSweep, Take;
    NothingIsUnhealthy(m);
    if Healthy(TrimSpace(p.text), m) {
      TakeHealthy(s, front, p, m, at);
    } else {
      TakeFragment(s, front, p, m, at);
    }
  }

  lemma {:induction false} SweptGroups(pieces: seq<Piece>, m: Meaning) returns (at: seq<nat>)
    requires IsMeaning(m)
    ensures AreHealthy(pieces, m, at) && HasGroups(Swept(pieces, m), pieces, at)
  {
    hide Healthy, TrimSpace, IsMeaning, Take, HasGroups;
    if pieces == [] {
      at := [];
      NoGroupsYet(m);
    } else {
      var front, last := pieces[..|pieces| - 1], pieces[|pieces| - 1];
      at := SweptGroups(front, m);
      SweptIsSound(front, m);
      assert pieces == front + [last];
      TakeGroups(Swept(front, m), front, last, m, at);
      HealthyAppend(front, last, m, at);
      at := if Healthy(TrimSpace(last.text), m) then at + [|front|] else at;
    }
  }

  lemma NoGroupsYet(m: Meaning)
    ensures HasGroups(Swept([], m), [], [])
  {
  }

  /** What hygiene makes of more than one piece: with no healthy piece among them, the same; else one
      piece for each healthy one, under its heading, with the fragments up to the next. */
  lemma HygieneMakesGroups(pieces: seq<Piece>, m: Meaning) returns (at: seq<nat>)
    requires IsMeaning(m)
    ensures AreHealthy(pieces, m, at)
    ensures forall i :: 0 <= i < |pieces| ==> (i in at <==> Meaningful(TrimSpace(pieces[i].text), m) >= 10)
    ensures if |pieces| <= 1 || at == [] then Hygienized(pieces, m) == pieces
            else AreGroups(Hygienized(pieces, m), pieces, at)
  {
    hide TrimSpace, IsMeaning, IsGroupOf, Meaningful;
    at := SweptGroups(pieces, m);
  }

  // ---------------------------------------------------------- similar neighbours

  /** Whether the group that starts at a segment and runs up to another is similar to it. */
  type Similar = (nat, nat) -> bool

  function JoinLines(texts: seq<string>): string {
    if texts == [] then ""
    else if |texts| == 1 then texts[0]
    else Joined(JoinLines(texts[..|texts| - 1]), texts[|texts| - 1])
  }

  predicate Fits(texts: seq<string>, from: nat, to: nat, size: nat, similar: Similar)
    requires from < to < |texts|
  {
    |JoinLines(texts[from..to])| + |texts[to]| + 1 <= size && similar(from, to)
  }

  /** Where the group that has grown from one segment up to another ends. */
  function GroupEnd(texts: seq<string>, from: nat, to: nat, size: nat, similar: Similar): (end: nat)
    requires from < to <= |texts|
    ensures to <= end <= |texts|
    decreases |texts| - to
  {
    if to < |texts| && Fits(texts, from, to, size, similar) then GroupEnd(texts, from, to + 1, size, similar) else to
  }

  /** The starts of the groups from one segment on. */
  function Groups(texts: seq<string>, from: nat, size: nat, similar: Similar): (groups: seq<Range>)
    requires from <= |texts|
    ensures forall k :: 0 <= k < |groups| ==> groups[k].from < groups[k].to <= |texts|
    decreases |texts| - from
  {
    if from == |texts| then []
    else
      var end := GroupEnd(texts, from, from + 1, size, similar);
      [Range(from, end)] + Groups(texts, end, size, similar)
  }

  function GroupTexts(texts: seq<string>, groups: seq<Range>): seq<string>
    requires forall k :: 0 <= k < |groups| ==> groups[k].from <= groups[k].to <= |texts|
  {
    seq(|groups|, k requires 0 <= k < |groups| => JoinLines(texts[groups[k].from..groups[k].to]))
  }

  /** A group of more than one segment is no longer than the size and grew by segments similar to it, and it
      ends only where the next segment, on a line of its own, would be too much or is not similar. */
  predicate IsGroup(texts: seq<string>, g: Range, size: nat, similar: Similar) {
    && g.from < g.to <= |texts|
    && (g.to > g.from + 1 ==> |JoinLines(texts[g.from..g.to])| <= size)
    && (forall to :: g.from < to < g.to ==>
          similar(g.from, to) && |JoinLines(texts[g.from..to])| + 1 + |texts[to]| <= size)
    && (g.to < |texts| ==>
          !similar(g.from, g.to) || |JoinLines(texts[g.from..g.to])| + 1 + |texts[g.to]| > size)
  }

  lemma GrowLength(texts: seq<string>, from: nat, to: nat)
    requires from < to < |texts|
    ensures JoinLines(texts[from..to + 1]) == Joined(JoinLines(texts[from..to]), texts[to])
  {
    assert texts[from..to + 1][..to - from] == texts[from..to];
  }

  lemma FittedIsGroup(texts: seq<string>, g: Range, size: nat, similar: Similar)
    requires g.from < g.to <= |texts| && (g.to > g.from + 1 ==> |JoinLines(texts[g.from..g.to])| <= size)
    requires forall to :: g.from < to < g.to ==> Fits(texts, g.from, to, size, similar)
    requires g.to < |texts| ==> !Fits(texts, g.from, g.to, size, similar)
    ensures IsGroup(texts, g, size, similar)
  {
    hide JoinLines;
    forall to | g.from < to < g.to
      ensures similar(g.from, to) && |JoinLines(texts[g.from..to])| + 1 + |texts[to]| <= size
    {
      assert Fits(texts, g.from, to, size, similar);
    }
  }

  lemma {:induction false} GroupEndIsGroup(texts: seq<string>, from: nat, to: nat, size: nat, similar: Similar)
    requires from < to <= |texts|
    requires to > from + 1 ==> |JoinLines(texts[from..to])| <= size
    requires forall i :: from < i < to ==> Fits(texts, from, i, size, similar)
    ensures IsGroup(texts, Range(from, GroupEnd(texts, from, to, size, similar)), size, similar)
    decreases |texts| - to
  {
    hide JoinLines;
    if to < |texts| && Fits(texts, from, to, size, similar) {
      GrowLength(texts, from, to);
      GroupEndIsGroup(texts, from, to + 1, size, similar);
    } else {
      FittedIsGroup(texts, Range(from, to), size, similar);
    }
  }

  /** The groups follow one another without gap, and each is as long as it can be. */
  lemma {:induction false} GroupsAreMaximal(texts: seq<string>, from: nat, size: nat, similar: Similar)
    requires from <= |texts|
    ensures var groups := Groups(texts, from, size, similar);
      && (forall k :: 0 <= k < |groups| ==> IsGroup(texts, groups[k], size, similar))
      && (forall k :: 0 <= k < |groups| - 1 ==> groups[k].to == groups[k + 1].from)
      && (from < |texts| ==> groups != [] && groups[0].from == from && groups[|groups| - 1].to == |texts|)
    decreases |texts| - from
  {
    hide IsGroup;
    if from < |texts| {
      var end := GroupEnd(texts, from, from + 1, size, similar);
      GroupEndIsGroup(texts, from, from + 1, size, similar);
      GroupsAreMaximal(texts, end, size, similar);
    }
  }

  lemma {:induction false} JoinLinesConcat(a: seq<string>, b: seq<string>)
    requires a != [] && b != []
    ensures JoinLines(a + b) == Joined(JoinLines(a), JoinLines(b))
  {
    var front, last := b[..|b| - 1], b[|b| - 1];
    assert (a + b)[..|a + b| - 1] == a + front;
    if front == [] {
      assert a + front == a;
    } else {
      JoinLinesConcat(a, front);
      assert Joined(Joined(JoinLines(a), JoinLines(front)), last) ==
        Joined(JoinLines(a), Joined(JoinLines(front), last));
    }
  }

  /** Whatever is similar to what, the merged texts rejoin to the original. */
  lemma {:induction false} GroupsRejoin(texts: seq<string>, from: nat, size: nat, similar: Similar)
    requires from < |texts|
    ensures JoinLines(GroupTexts(texts, Groups(texts, from, size, similar))) == JoinLines(texts[from..])
    decreases |texts| - from
  {
    hide JoinLines, GroupEnd;
    var groups := Groups(texts, from, size, similar);
    var end := GroupEnd(texts, from, from + 1, size, similar);
    var rest := Groups(texts, end, size, similar);
    assert groups == [Range(from, end)] + rest;
    var first := JoinLines(texts[from..end]);
    if end == |texts| {
      assert GroupTexts(texts, groups) == [first];
      assert texts[from..end] == texts[from..];
      JoinOne(first);
    } else {
      assert forall k :: 0 <= k < |rest| ==> rest[k] == groups[k + 1];
      assert GroupTexts(texts, groups) == [first] + GroupTexts(texts, rest);
      GroupsRejoin(texts, end, size, similar);
      JoinLinesConcat([first], GroupTexts(texts, rest));
      JoinOne(first);
      JoinLinesConcat(texts[from..end], texts[end..]);
      assert texts[from..end] + texts[end..] == texts[from..];
    }
  }

  lemma JoinOne(text: string)
    ensures JoinLines([text]) == text
  {
  }

  /** The texts still to come when the open group runs from one segment up to another. */
  function StillToCome(texts: seq<string>, from: nat, to: nat, size: nat, similar: Similar): seq<string>
    requires from < to <= |texts|
  {
    var end := GroupEnd(texts, from, to, size, similar);
    [JoinLines(texts[from..end])] + GroupTexts(texts, Groups(texts, end, size, similar))
  }

  lemma GroupsFrom(texts: seq<string>, from: nat, size: nat, similar: Similar)
    requires from < |texts|
    ensures GroupTexts(texts, Groups(texts, from, size, similar)) == StillToCome(texts, from, from + 1, size, similar)
  {
    hide JoinLines, GroupEnd;
  }

  lemma GroupGrows(texts: seq<string>, from: nat, to: nat, size: nat, similar: Similar)
    requires from < to < |texts| && Fits(texts, from, to, size, similar)
    ensures StillToCome(texts, from, to, size, similar) == StillToCome(texts, from, to + 1, size, similar)
  {
    hide JoinLines, Groups;
  }

  lemma GroupCloses(texts: seq<string>, from: nat, to: nat, size: nat, similar: Similar)
    requires from < to <= |texts| && (to < |texts| ==> !Fits(texts, from, to, size, similar))
    ensures StillToCome(texts, from, to, size, similar) ==
      [JoinLines(texts[from..to])] + if to < |texts| then StillToCome(texts, to, to + 1, size, similar) else []
  {
    hide JoinLines;
    if to < |texts| {
      GroupsFrom(texts, to, size, similar);
      hide Groups;
    }
  }

  /** The greedy merging loop. */
  method MergeSemanticSegments(texts: seq<string>, size: nat, similar: Similar) returns (out: seq<string>)
    ensures out == GroupTexts(texts, Groups(texts, 0, size, similar))
  {
    hide JoinLines, Groups, StillToCome, GroupTexts;
    if texts == [] {
      NoGroups(texts, size, similar);
      return [];
    }
    out := [];
    var from, current := 0, texts[0];
    GroupsFrom(texts, 0, size, similar);
    assert texts[0..1] == [texts[0]];
    JoinOne(texts[0]);
    for i := 1 to |texts|
      invariant from < i <= |texts| && current == JoinLines(texts[from..i])
      invariant out + StillToCome(texts, from, i, size, similar) == GroupTexts(texts, Groups(texts, 0, size, similar))
    {
      if |current| + |texts[i]| + 1 <= size && similar(from, i) {
        GroupGrows(texts, from, i, size, similar);
        GrowLength(texts, from, i);
        current := Joined(current, texts[i]);
      } else {
        GroupCloses(texts, from, i, size, similar);
        out := out + [current];
        from, current := i, texts[i];
        assert texts[i..i + 1] == [texts[i]];
        JoinOne(texts[i]);
      }
    }
    GroupCloses(texts, from, |texts|, size, similar);
    out := out + [current];
  }

  lemma NoGroups(texts: seq<string>, size: nat, similar: Similar)
    ensures GroupTexts(texts, Groups(texts, |texts|, size, similar)) == []
  {
  }
}
