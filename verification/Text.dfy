/** Symbol-level text: white space, trimming, and the non-white-space content
    of a text. A text is a sequence of symbols (runes). */
module Text {
  function Min(a: int, b: int): int { if a < b then a else b }

  function Max(a: int, b: int): int { if a > b then a else b }

  /** The white space of Go's unicode.IsSpace. */
  predicate IsSpace(c: char) {
    var u := c as int;
    0x09 <= u <= 0x0d || u == 0x20 || u == 0x85 || u == 0xa0 || u == 0x1680 ||
    0x2000 <= u <= 0x200a || u == 0x2028 || u == 0x2029 || u == 0x202f || u == 0x205f || u == 0x3000
  }

  /** Where the text starts, at or after a place, without its leading white space. */
  function StartOf(s: string, from: nat): (n: nat)
    requires from <= |s|
    ensures from <= n <= |s| && (n < |s| ==> !IsSpace(s[n]))
    decreases |s| - from
  {
    if from < |s| && IsSpace(s[from]) then StartOf(s, from + 1) else from
  }

  /** Where the text ends, at or before a place, without its trailing white space. */
  function EndOf(s: string, to: nat): (n: nat)
    requires to <= |s|
    ensures n <= to && (n > 0 ==> !IsSpace(s[n - 1]))
  {
    if to > 0 && IsSpace(s[to - 1]) then EndOf(s, to - 1) else to
  }

  function TrimLeft(s: string): (r: string)
    ensures |r| <= |s| && r == s[|s| - |r|..]
    ensures r != "" ==> !IsSpace(r[0])
  {
    s[StartOf(s, 0)..]
  }

  function TrimRight(s: string): (r: string)
    ensures |r| <= |s| && r == s[..|r|]
    ensures r != "" ==> !IsSpace(r[|r| - 1])
  {
    s[..EndOf(s, |s|)]
  }

  function TrimSpace(s: string): (r: string)
    ensures |r| <= |s|
  {
    TrimRight(TrimLeft(s))
  }

  /** The symbols of a text that are not white space, in order. */
  function Solid(s: string): (r: string) {
    if s == "" then "" else if IsSpace(s[0]) then Solid(s[1..]) else [s[0]] + Solid(s[1..])
  }

  lemma {:induction false} SolidConcat(a: string, b: string)
    ensures Solid(a + b) == Solid(a) + Solid(b)
  {
    if a == "" {
      assert a + b == b;
    } else {
      assert (a + b)[1..] == a[1..] + b;
      SolidConcat(a[1..], b);
    }
  }

  lemma {:induction false} SolidFrom(s: string, from: nat)
    requires from <= |s|
    ensures Solid(s[StartOf(s, from)..]) == Solid(s[from..])
    decreases |s| - from
  {
    if from < |s| && IsSpace(s[from]) {
      SolidFrom(s, from + 1);
      assert s[from..][1..] == s[from + 1..];
    }
  }

  lemma {:induction false} SolidUpTo(s: string, to: nat)
    requires to <= |s|
    ensures Solid(s[..EndOf(s, to)]) == Solid(s[..to])
  {
    if to > 0 && IsSpace(s[to - 1]) {
      SolidUpTo(s, to - 1);
      SolidConcat(s[..to - 1], [s[to - 1]]);
      assert s[..to] == s[..to - 1] + [s[to - 1]];
    }
  }

  lemma SolidTrimLeft(s: string)
    ensures Solid(TrimLeft(s)) == Solid(s)
  {
    SolidFrom(s, 0);
    assert s[0..] == s;
  }

  lemma SolidTrimRight(s: string)
    ensures Solid(TrimRight(s)) == Solid(s)
  {
    SolidUpTo(s, |s|);
    assert s[..|s|] == s;
  }

  /** Trimming never loses content. */
  lemma SolidTrim(s: string)
    ensures Solid(TrimSpace(s)) == Solid(s)
  {
    SolidTrimLeft(s);
    SolidTrimRight(TrimLeft(s));
  }

  /** A text without content trims to nothing, and nothing else does. */
  lemma {:induction false} TrimEmptyIffNoSolid(s: string)
    ensures TrimSpace(s) == "" <==> Solid(s) == ""
  {
    SolidTrim(s);
    if TrimSpace(s) != "" {
      assert !IsSpace(TrimSpace(s)[|TrimSpace(s)| - 1]);
      var t := TrimSpace(s);
      SolidConcat(t[..|t| - 1], [t[|t| - 1]]);
      assert t == t[..|t| - 1] + [t[|t| - 1]];
    }
  }

  /** The content of several texts, one after the other. */
  function Content(texts: seq<string>): string {
    if texts == [] then "" else Content(texts[..|texts| - 1]) + Solid(texts[|texts| - 1])
  }

  lemma ContentAppend(texts: seq<string>, text: string)
    ensures Content(texts + [text]) == Content(texts) + Solid(text)
  {
    assert (texts + [text])[..|texts|] == texts;
  }

  lemma {:induction false} ContentConcat(a: seq<string>, b: seq<string>)
    ensures Content(a + b) == Content(a) + Content(b)
  {
    hide Solid;
    if b == [] {
      assert a + b == a;
    } else {
      var front, last := b[..|b| - 1], b[|b| - 1];
      ContentConcat(a, front);
      assert a + b == a + front + [last] && b == front + [last];
      hide Content;
      ContentAppend(a + front, last);
      ContentAppend(front, last);
    }
  }

  // ---------------------------------------------------------------- joining

  /** The texts one after the other, with a separator between them. */
  function Join(parts: seq<string>, sep: string): string {
    if parts == [] then ""
    else if |parts| == 1 then parts[0]
    else Join(parts[..|parts| - 1], sep) + sep + parts[|parts| - 1]
  }

  lemma JoinAppend(parts: seq<string>, part: string, sep: string)
    ensures Join(parts + [part], sep) == if parts == [] then part else Join(parts, sep) + sep + part
  {
    assert (parts + [part])[..|parts|] == parts;
  }

  lemma {:induction false} JoinFirst(first: string, rest: seq<string>, sep: string)
    requires rest != []
    ensures Join([first] + rest, sep) == first + sep + Join(rest, sep)
  {
    var front, last := rest[..|rest| - 1], rest[|rest| - 1];
    assert ([first] + rest)[..|rest|] == [first] + front;
    if front != [] {
      JoinFirst(first, front, sep);
    } else {
      assert [first] + front == [first];
    }
  }

  // --------------------------------------------------------------- reversal

  function Reversed<T>(s: seq<T>): (r: seq<T>)
    ensures |r| == |s| && forall i :: 0 <= i < |s| ==> r[i] == s[|s| - 1 - i]
  {
    if s == [] then [] else Reversed(s[1..]) + [s[0]]
  }

  lemma ReversedAppend<T>(s: seq<T>, x: T)
    ensures Reversed(s + [x]) == [x] + Reversed(s)
  {
  }

  /** The two-index swapping loop. */
  method Reverse<T>(s: seq<T>) returns (r: seq<T>)
    ensures r == Reversed(s)
  {
    r := s;
    var left, right := 0, |s| - 1;
    while left < right
      invariant |r| == |s| && 0 <= left <= right + 1 && right == |s| - 1 - left
      invariant forall i :: left <= i <= right ==> r[i] == s[i]
      invariant forall i :: 0 <= i < left || right < i < |s| ==> r[i] == s[|s| - 1 - i]
    {
      var leftmost, rightmost := r[left], r[right];
      r := r[left := rightmost];
      r := r[right := leftmost];
      left, right := left + 1, right - 1;
    }
  }
}
