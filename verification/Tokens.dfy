/** The deterministic token estimator: ceil(cjk / 1.5 + other / 4). */
module Tokens {
  import opened Text

  predicate IsCJK(c: char) {
    var u := c as int;
    0x3040 <= u <= 0x30ff || 0x3400 <= u <= 0x4dbf || 0x4e00 <= u <= 0x9fff || 0xac00 <= u <= 0xd7af
  }

  /** The weight of one symbol in twelfths of a token. */
  function SymbolWeight(c: char): nat { if IsCJK(c) then 8 else 3 }

  function Weight(s: string): (w: nat)
    ensures s != "" ==> w >= 3
  {
    if s == "" then 0 else SymbolWeight(s[0]) + Weight(s[1..])
  }

  /** The integer form of the estimate: the weight rounded up to whole tokens. */
  function Estimate(s: string): nat { (Weight(s) + 11) / 12 }

  function Ceil(x: real): int { -((-x).Floor) }

  /** The quotient the source rounds up is the weight in twelfths. */
  lemma CeilOfTwelfths(cjk: nat, other: nat)
    ensures Ceil(cjk as real / 1.5 + other as real / 4.0) == (8 * cjk + 3 * other + 11) / 12
  {
    var w := 8 * cjk + 3 * other;
    var x := cjk as real / 1.5 + other as real / 4.0;
    assert x * 12.0 == w as real;
    var q := (w + 11) / 12;
    assert (12 * (q - 1)) as real < x * 12.0 <= (12 * q) as real;
    assert (q - 1) as real < x <= q as real;
    assert -(q as real) <= -x < (1 - q) as real;
    assert (-x).Floor == -q;
  }

  /** The source's counting loop computes Estimate. */
  method EstimateTokens(text: string) returns (tokens: nat)
    ensures tokens == Estimate(text)
    ensures tokens == 0 <==> text == ""
  {
    if text == "" {
      return 0;
    }
    var cjk, runes := 0, 0;
    for i := 0 to |text|
      invariant 0 <= cjk <= runes == i
      invariant 8 * cjk + 3 * (runes - cjk) == Weight(text[..i])
    {
      WeightConcat(text[..i], [text[i]]);
      assert text[..i + 1] == text[..i] + [text[i]];
      runes := runes + 1;
      if IsCJK(text[i]) {
        cjk := cjk + 1;
      }
    }
    assert text[..|text|] == text;
    var latin := runes - cjk;
    CeilOfTwelfths(cjk, latin);
    tokens := Max(1, Ceil(cjk as real / 1.5 + latin as real / 4.0));
  }

  lemma {:induction false} WeightConcat(a: string, b: string)
    ensures Weight(a + b) == Weight(a) + Weight(b)
  {
    if a == "" {
      assert a + b == b;
    } else {
      assert (a + b)[1..] == a[1..] + b;
      WeightConcat(a[1..], b);
    }
  }

  lemma {:induction false} AsciiWeight(s: string)
    requires forall i :: 0 <= i < |s| ==> s[i] as int < 0x80
    ensures Weight(s) == 3 * |s|
  {
    if s != "" {
      AsciiWeight(s[1..]);
    }
  }

  /** A part of a text never costs more than the text. */
  lemma PartCostsNoMore(left: string, part: string, right: string)
    ensures Estimate(part) <= Estimate(left + part + right)
  {
    WeightConcat(left + part, right);
    WeightConcat(left, part);
  }

  /** Estimates are subadditive: joining never costs more than the parts. */
  lemma Subadditive(a: string, b: string)
    ensures Estimate(a + b) <= Estimate(a) + Estimate(b)
    ensures Estimate(a) + Estimate(b) <= Estimate(a + b) + 1
  {
    WeightConcat(a, b);
  }

  /** Of two nested windows on one text, the inner never weighs more. */
  lemma NestedWindows(s: string, a: nat, b: nat, a': nat, b': nat)
    requires a' <= b' <= |s| && a <= b <= |s|
    requires a == b || (a' <= a && b <= b')
    ensures Weight(s[a..b]) <= Weight(s[a'..b'])
  {
    if a == b {
      assert s[a..b] == "";
    } else {
      assert s[a'..b'] == s[a'..a] + s[a..b] + s[b..b'];
      WeightConcat(s[a'..a] + s[a..b], s[b..b']);
      WeightConcat(s[a'..a], s[a..b]);
    }
  }
}
