/** Where the query focus sits in a text: the whole focus if it occurs, else
    its longest meaningful component that does. */
module Focus {
  import opened Text
  import opened Wrappers

  datatype Span = Span(start: nat, end: nat)

  predicate SentenceBoundary(r: char) {
    r in {'\n', '\r', '。', '！', '？', '；', '.', '!', '?', ';'}
  }

  /** Lower-casing, taken to keep the length of the text (ASCII letters only). */
  function Lower(s: string): (r: string)
    ensures |r| == |s|
  {
    seq(|s|, i requires 0 <= i < |s| =>
      if 'A' <= s[i] <= 'Z' then (s[i] as int + 32) as char else s[i])
  }

  predicate OccursAt(text: string, needle: string, i: nat) {
    i + |needle| <= |text| && text[i..i + |needle|] == needle
  }

  /** The first occurrence of needle at or after position i. */
  function Find(text: string, needle: string, i: nat := 0): (r: Option<nat>)
    ensures r.Some? ==> OccursAt(text, needle, r.value) && i <= r.value
    ensures forall j: nat :: i <= j && OccursAt(text, needle, j) ==> r.Some? && r.value <= j
    decreases |text| - i
  {
    if OccursAt(text, needle, i) then Some(i)
    else if i >= |text| then None
    else Find(text, needle, i + 1)
  }

  /** Prompt words that never steal the centre. */
  predicate Generic(word: string) {
    match |word|
    case 2 => word in ["请问", "什么", "如何", "怎么", "这个", "那个"]
    case 3 => word == "how"
    case 4 => word in ["what", "this", "that"]
    case 6 => word == "please"
    case _ => false
  }

  function Bigrams(word: string): seq<string> {
    if |word| < 2 then [] else [word[..2]] + Bigrams(word[1..])
  }

  predicate MostlyCJK(word: string) {
    |word| >= 2 && forall r <- word :: SentenceBoundary(r) || 0x3400 <= r as int <= 0x9fff
  }

  /** The blank-separated words of s after the pending word current. */
  function Words(s: string, current: string := ""): seq<string> {
    var flushed := if current == "" then [] else [current];
    if s == "" then flushed
    else if s[0] == ' ' || s[0] == '\t' then flushed + Words(s[1..])
    else Words(s[1..], current + [s[0]])
  }

  function WithBigrams(words: seq<string>): seq<string> {
    if words == [] then []
    else [words[0]] + (if MostlyCJK(words[0]) then Bigrams(words[0]) else []) + WithBigrams(words[1..])
  }

  function Components(needle: string): seq<string> { WithBigrams(Words(needle)) }

  predicate Meaningful(component: string) { !Generic(component) && |component| >= 2 }

  predicate Usable(component: string, text: string) {
    Meaningful(component) && Find(text, component).Some?
  }

  /** How long a component is in UTF-8, which is what the source compares. */
  function Bytes(s: string): (n: nat)
    ensures n >= |s|
  {
    if s == "" then 0
    else
      var c := s[0] as int;
      (if c < 0x80 then 1 else if c < 0x800 then 2 else if c < 0x1_0000 then 3 else 4) + Bytes(s[1..])
  }

  /** Scans the components, keeping a usable one with strictly more bytes. */
  function Longest(components: seq<string>, text: string, best: string): string {
    if components == [] then best
    else
      var c := components[0];
      Longest(components[1..], text, if Bytes(c) > Bytes(best) && Usable(c, text) then c else best)
  }

  function ComponentSpan(text: string, needle: string): Option<Span> {
    var best := Longest(Components(needle), text, "");
    var index := Find(text, best);
    if best != "" && index.Some? then Some(Span(index.value, index.value + |best|)) else None
  }

  function NeedleSpan(text: string, needle: string): Option<Span> {
    var exact := Find(text, needle);
    if exact.Some? then Some(Span(exact.value, exact.value + |needle|)) else ComponentSpan(text, needle)
  }

  function FocusSpan(text: string, focus: string): Option<Span> {
    var needle := TrimSpace(focus);
    if needle == "" then None else NeedleSpan(Lower(text), Lower(needle))
  }

  lemma {:induction false} LongestIsLongest(components: seq<string>, text: string, best: string)
    requires best == "" || Usable(best, text)
    ensures var r := Longest(components, text, best);
      && Bytes(r) >= Bytes(best) && (r == best || r in components) && (r == "" || Usable(r, text))
      && forall c <- components :: Usable(c, text) ==> Bytes(c) <= Bytes(r)
  {
    if components != [] {
      var c := components[0];
      LongestIsLongest(components[1..], text, if Bytes(c) > Bytes(best) && Usable(c, text) then c else best);
    }
  }

  /** The fallback span exists iff some component is usable, and it spells a
      usable component that no usable component has more bytes than. */
  lemma ComponentSpanSpells(text: string, needle: string)
    ensures var r := ComponentSpan(text, needle);
      && (r.Some? <==> exists c <- Components(needle) :: Usable(c, text))
      && (r.Some? ==>
            && r.value.start <= r.value.end <= |text|
            && var best := text[r.value.start..r.value.end];
               && best in Components(needle)
               && forall c <- Components(needle) :: Usable(c, text) ==> Bytes(c) <= Bytes(best))
  {
    LongestIsLongest(Components(needle), text, "");
  }

  /** The span is always inside the text, and the focus itself wins when it occurs. */
  lemma FocusSpanInText(text: string, focus: string)
    ensures var r, needle := FocusSpan(text, focus), TrimSpace(focus);
      && (r.Some? ==> r.value.start <= r.value.end <= |text|)
      && (r.Some? && Find(Lower(text), Lower(needle)).Some? ==>
            Lower(text)[r.value.start..r.value.end] == Lower(needle))
  {
    hide Lower, ComponentSpan, Components, TrimSpace;
    ComponentSpanSpells(Lower(text), Lower(TrimSpace(focus)));
  }

  /** The splitting loop of the source. */
  method SplitWords(needle: string) returns (words: seq<string>)
    ensures words == Words(needle)
  {
    var current := "";
    words := [];
    for i := 0 to |needle|
      invariant words + Words(needle[i..], current) == Words(needle)
    {
      ghost var before := words + Words(needle[i..], current);
      ghost var rest := needle[i + 1..];
      assert needle[i..][0] == needle[i] && needle[i..][1..] == rest;
      if needle[i] == ' ' || needle[i] == '\t' {
        ghost var flushed := if current == "" then [] else [current];
        assert before == (words + flushed) + Words(rest, "");
        if current != "" {
          words := words + [current];
        }
        current := "";
      } else {
        current := current + [needle[i]];
      }
    }
    assert needle[|needle|..] == "";
    if current != "" {
      words := words + [current];
    }
  }

  lemma NoWords(words: seq<string>)
    ensures WithBigrams(words[|words|..]) == []
  {
  }

  lemma NextWord(words: seq<string>, i: nat, before: seq<string>, after: seq<string>)
    requires i < |words|
    requires after == before + [words[i]] + (if MostlyCJK(words[i]) then Bigrams(words[i]) else [])
    ensures before + WithBigrams(words[i..]) == after + WithBigrams(words[i + 1..])
  {
    hide MostlyCJK, Bigrams;
    assert words[i..][0] == words[i] && words[i..][1..] == words[i + 1..];
  }

  /** The bigram loop of the source. */
  method FocusComponents(needle: string) returns (components: seq<string>)
    ensures components == Components(needle)
  {
    hide MostlyCJK, Bigrams, WithBigrams;
    var words := SplitWords(needle);
    components := [];
    assert words[0..] == words;
    for i := 0 to |words|
      invariant components + WithBigrams(words[i..]) == WithBigrams(words)
    {
      ghost var before := components;
      components := components + [words[i]];
      if MostlyCJK(words[i]) {
        components := components + Bigrams(words[i]);
      }
      NextWord(words, i, before, components);
    }
    NoWords(words);
  }

  /** The selection loop of the source. */
  method LongestComponent(components: seq<string>, text: string) returns (best: string)
    ensures best == Longest(components, text, "")
  {
    best := "";
    for i := 0 to |components|
      invariant Longest(components[i..], text, best) == Longest(components, text, "")
    {
      var c := components[i];
      assert components[i..][0] == c && components[i..][1..] == components[i + 1..];
      if Bytes(c) > Bytes(best) && Usable(c, text) {
        best := c;
      }
    }
  }

  method ComponentRange(text: string, needle: string) returns (range: Option<Span>)
    ensures range == ComponentSpan(text, needle)
  {
    var components := FocusComponents(needle);
    var best := LongestComponent(components, text);
    var index := Find(text, best);
    range := if best != "" && index.Some? then Some(Span(index.value, index.value + |best|)) else None;
  }

  method FocusRange(text: string, focus: string) returns (range: Option<Span>)
    ensures range == FocusSpan(text, focus)
  {
    var needle := TrimSpace(focus);
    if needle == "" {
      return None;
    }
    var exact := Find(Lower(text), Lower(needle));
    if exact.Some? {
      return Some(Span(exact.value, exact.value + |needle|));
    }
    range := ComponentRange(Lower(text), Lower(needle));
  }
}
