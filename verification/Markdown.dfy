/** Line matchers of the splitter: code fences, headings, rules and lists. */
module Markdown {
  import opened Text
  import opened Wrappers

  type Level = n: nat | 1 <= n <= 6 witness 1
  datatype Heading = Heading(level: Level, title: string)

  predicate IsBlank(c: char) { c == ' ' || c == '\t' }

  function DropBlanks(s: string): (r: string)
    ensures |r| <= |s| && r == s[|s| - |r|..]
    ensures r != "" ==> !IsBlank(r[0])
    ensures forall i :: 0 <= i < |s| - |r| ==> IsBlank(s[i])
  {
    if s != "" && IsBlank(s[0]) then DropBlanks(s[1..]) else s
  }

  function DropTrailing(s: string): (r: string)
    ensures |r| <= |s| && r == s[..|r|]
    ensures r != "" ==> !IsBlank(r[|r| - 1]) && r[|r| - 1] != '\r'
    ensures forall i :: |r| <= i < |s| ==> IsBlank(s[i]) || s[i] == '\r'
  {
    if s != "" && (IsBlank(s[|s| - 1]) || s[|s| - 1] == '\r') then DropTrailing(s[..|s| - 1]) else s
  }

  /** The length of the leading run of one symbol. */
  function RunOf(s: string, c: char): (n: nat)
    ensures n <= |s| && (forall i :: 0 <= i < n ==> s[i] == c) && (n < |s| ==> s[n] != c)
  {
    if s != "" && s[0] == c then 1 + RunOf(s[1..], c) else 0
  }

  predicate AllAre(s: string, c: char) { forall i :: 0 <= i < |s| ==> s[i] == c }

  // -------------------------------------------------------------------- fences

  /** The opening run of three or more backticks or tildes, or nothing. */
  function FenceOpen(line: string): (opener: string)
    ensures opener != "" ==> |opener| >= 3 && (opener[0] == '`' || opener[0] == '~') && AllAre(opener, opener[0])
  {
    var trimmed := DropBlanks(line);
    if trimmed == "" || (trimmed[0] != '`' && trimmed[0] != '~') then ""
    else
      var count := RunOf(trimmed, trimmed[0]);
      if count >= 3 then trimmed[..count] else ""
  }

  /** Whether stripping one symbol from both ends leaves nothing. */
  predicate StripsToNothing(s: string, c: char) { RunOf(s, c) == |s| }

  predicate FenceClose(fence: string, line: string)
    requires fence != ""
  {
    var trimmed := DropTrailing(DropBlanks(line));
    |trimmed| >= |fence| && StripsToNothing(trimmed, fence[0])
  }

  lemma {:induction false} DropBlanksAt(s: string, a: nat)
    requires a <= |s| && (forall i :: 0 <= i < a ==> IsBlank(s[i])) && (a < |s| ==> !IsBlank(s[a]))
    ensures DropBlanks(s) == s[a..]
  {
    if a > 0 {
      DropBlanksAt(s[1..], a - 1);
      assert s[1..][a - 1..] == s[a..];
    }
  }

  lemma {:induction false} DropTrailingAt(s: string, b: nat)
    requires b <= |s| && (forall i :: b <= i < |s| ==> IsBlank(s[i]) || s[i] == '\r')
    requires b > 0 ==> !IsBlank(s[b - 1]) && s[b - 1] != '\r'
    ensures DropTrailing(s) == s[..b]
  {
    if b < |s| {
      DropTrailingAt(s[..|s| - 1], b);
      assert s[..|s| - 1][..b] == s[..b];
    }
  }

  /** Between a and b the line is a run of the fence's mark; around it, only blanks. */
  predicate IsMarkLine(line: string, a: nat, b: nat, fence: string)
    requires fence != ""
  {
    && a <= b <= |line| && b - a >= |fence|
    && (forall i :: 0 <= i < a ==> IsBlank(line[i]))
    && (forall i :: a <= i < b ==> line[i] == fence[0])
    && (forall i :: b <= i < |line| ==> IsBlank(line[i]) || line[i] == '\r')
  }

  lemma ClosingSplits(fence: string, line: string) returns (a: nat, b: nat)
    requires fence != "" && FenceClose(fence, line)
    ensures IsMarkLine(line, a, b, fence)
  {
    hide DropBlanks, DropTrailing, RunOf, IsBlank;
    var tail := DropBlanks(line);
    var marks := DropTrailing(tail);
    a := |line| - |tail|;
    b := a + |marks|;
    assert forall i :: 0 <= i < |tail| ==> tail[i] == line[a + i];
    assert forall i :: a <= i < b ==> line[i] == marks[i - a];
    assert forall i :: b <= i < |line| ==> line[i] == tail[i - a];
  }

  lemma MarkLineCloses(fence: string, line: string, a: nat, b: nat)
    requires fence != "" && !IsBlank(fence[0]) && fence[0] != '\r' && IsMarkLine(line, a, b, fence)
    ensures FenceClose(fence, line)
  {
    hide DropBlanks, DropTrailing, RunOf, IsBlank;
    var tail := line[a..];
    DropBlanksAt(line, a);
    assert forall i :: 0 <= i < |tail| ==> tail[i] == line[a + i];
    DropTrailingAt(tail, b - a);
  }

  /** A fence is closed exactly by a line holding nothing but a run of the opener's own
      mark, at least as long as the opener. */
  lemma FenceClosesIff(line: string, fence: string)
    requires fence != "" && !IsBlank(fence[0]) && fence[0] != '\r'
    ensures FenceClose(fence, line) <==> exists a: nat, b: nat :: IsMarkLine(line, a, b, fence)
  {
    hide FenceClose, IsMarkLine;
    if FenceClose(fence, line) {
      var a, b := ClosingSplits(fence, line);
    }
    forall a: nat, b: nat | IsMarkLine(line, a, b, fence)
      ensures FenceClose(fence, line)
    {
      MarkLineCloses(fence, line, a, b);
    }
  }

  // ------------------------------------------------------------------ headings

  function MatchHeading(line: string): Option<Heading> {
    var trimmed := DropBlanks(line);
    var i := RunOf(trimmed, '#');
    if i == 0 || i > 6 || i >= |trimmed| || !IsBlank(trimmed[i]) then None
    else Some(Heading(i, TrimSpace(trimmed[i..])))
  }

  predicate IsDigit(c: char) { '0' <= c <= '9' }

  function NumberLength(s: string): (n: nat)
    ensures n <= |s| && (forall i :: 0 <= i < n ==> IsDigit(s[i]) || s[i] == '.')
  {
    if s != "" && (IsDigit(s[0]) || s[0] == '.') then 1 + NumberLength(s[1..]) else 0
  }

  function Dots(s: string): nat { if s == "" then 0 else (if s[0] == '.' then 1 else 0) + Dots(s[1..]) }

  /** A numbered heading such as "1.2 Title", whose level is one more than its dots. */
  function MatchNumberedHeading(line: string): Option<Heading> {
    var trimmed := TrimSpace(line);
    var i := NumberLength(trimmed);
    var number := trimmed[..i];
    if Dots(number) == 0 || i >= |trimmed| || !IsBlank(trimmed[i]) then None
    else if number[i - 1] == '.' || exists k :: 0 <= k < i - 1 && number[k] == '.' && number[k + 1] == '.' then None
    else if TrimSpace(trimmed[i..]) == "" then None
    else
      var level := if Dots(number) + 1 > 6 then 6 else Dots(number) + 1;
      Some(Heading(level, TrimSpace(number + " " + TrimSpace(trimmed[i..]))))
  }

  function MatchAnyHeading(line: string): Option<Heading> {
    if MatchHeading(line).Some? then MatchHeading(line) else MatchNumberedHeading(line)
  }

  // ------------------------------------------------------------ rules and lists

  predicate IsRule(line: string) {
    |line| >= 3 && (StripsToNothing(line, '-') || StripsToNothing(line, '*') || StripsToNothing(line, '_'))
  }

  function DigitRun(s: string): (n: nat)
    ensures n <= |s|
  {
    if s != "" && IsDigit(s[0]) then 1 + DigitRun(s[1..]) else 0
  }

  predicate IsOrderedList(line: string) {
    var i := DigitRun(line);
    i > 0 && i + 1 < |line| && line[i] == '.' && IsBlank(line[i + 1])
  }
}
