/**
 The confidence heuristic of a whole-text transliteration: coverage of the
 original's visible characters, blended with the share of output characters
 that fall inside the target script's Unicode block.
 */
module Confidence {
  import opened Shared
  import opened Strings

  /** `code >= range.start && code <= range.end`: both bounds inclusive. */
  predicate InScript(range: UnicodeRange, c: char)
  {
    range.start <= c as int <= range.end
  }

  /** Number of characters of `s` inside the script block. */
  function CountInRange(range: UnicodeRange, s: string): nat
  {
    if |s| == 0 then 0
    else (if InScript(range, s[0]) then 1 else 0) + CountInRange(range, s[1..])
  }

  lemma {:induction false} CountInRangeAppend(range: UnicodeRange, a: string, b: string)
    ensures CountInRange(range, a + b) == CountInRange(range, a) + CountInRange(range, b)
    decreases |a|
  {
    if |a| == 0 {
      assert a + b == b;
    } else {
      assert (a + b)[1..] == a[1..] + b;
      CountInRangeAppend(range, a[1..], b);
    }
  }

  /** At most every character is in the block, and all of them are exactly
      when each one is. */
  lemma {:induction false} CountInRangeAll(range: UnicodeRange, s: string)
    ensures CountInRange(range, s) <= |s|
    ensures CountInRange(range, s) == |s| <==> forall i :: 0 <= i < |s| ==> InScript(range, s[i])
    decreases |s|
  {
    if |s| > 0 {
      CountInRangeAll(range, s[1..]);
      if forall i :: 0 <= i < |s| ==> InScript(range, s[i]) {
        assert forall i :: 0 <= i < |s[1..]| ==> InScript(range, s[1..][i]) by {
          forall i | 0 <= i < |s[1..]|
            ensures InScript(range, s[1..][i])
          {
            assert s[1..][i] == s[i + 1];
          }
        }
      } else if InScript(range, s[0]) {
        var i :| 0 <= i < |s| && !InScript(range, s[i]);
        assert !InScript(range, s[1..][i - 1]);
      }
    }
  }

  /** A block holding no whitespace character. */
  predicate WsFreeBlock(range: UnicodeRange)
  {
    forall c :: c in WsChars ==> !InScript(range, c)
  }

  /** When the block holds no whitespace, only visible characters can be in
      it. */
  lemma {:induction false} CountInRangeVisible(range: UnicodeRange, s: string)
    requires WsFreeBlock(range)
    ensures CountInRange(range, s) <= CountNonWs(s)
    decreases |s|
  {
    if |s| > 0 {
      CountInRangeVisible(range, s[1..]);
    }
  }

  /** `countTargetScriptChars`: the `for (const char of text)` loop. */
  method CountTargetScriptChars(range: UnicodeRange, text: string) returns (count: nat)
    ensures count == CountInRange(range, text)
    ensures count <= |text|
  {
    count := 0;
    var i := 0;
    while i < |text|
      invariant 0 <= i <= |text|
      invariant count == CountInRange(range, text[..i])
    {
      CountInRangeAppend(range, text[..i], [text[i]]);
      assert text[..i + 1] == text[..i] + [text[i]];
      if range.start <= text[i] as int && text[i] as int <= range.end {
        count := count + 1;
      }
      i := i + 1;
    }
    assert text[..i] == text;
    CountInRangeAll(range, text);
  }

  /** `a / b` on two lengths with a non-zero divisor. */
  function Ratio(a: nat, b: nat): real
    requires b > 0
  {
    a as real / b as real
  }

  lemma RatioBounds(a: nat, b: nat)
    requires b > 0
    ensures 0.0 <= Ratio(a, b)
    ensures Ratio(a, b) <= 1.0 <==> a <= b
    ensures Ratio(a, b) == 1.0 <==> a == b
  {
    var q := Ratio(a, b);
    assert q * b as real == a as real;
    if q == 1.0 { assert a as real == b as real; }
    if a == b { assert q == 1.0; }
    if q <= 1.0 { assert a as real <= b as real; }
    if a <= b { assert q * b as real <= 1.0 * b as real; }
  }

  /** `Math.min(x, 1.0)` on finite numbers. */
  function MinOne(x: real): real
  {
    if x < 1.0 then x else 1.0
  }

  /** `calculateConfidence(original, transliterated)`. When the output has no
      visible character the ratio divides by zero: 0/0 is NaN, which
      propagates through `Math.min`, and a positive count over 0 is
      Infinity, which `Math.min` cuts to 1. */
  function CalculateConfidence(range: UnicodeRange, original: string, transliterated: string): (r: Score)
    ensures CountNonWs(original) == 0 ==> r == Num(1.0)
    ensures CountNonWs(original) > 0 && CountNonWs(transliterated) == 0 ==>
      (r == NaN <==> CountInRange(range, transliterated) == 0)
    ensures CountNonWs(transliterated) > 0 ==> InUnitInterval(r)
  {
    var ol := CountNonWs(original);
    var tl := CountNonWs(transliterated);
    if ol == 0 then Num(1.0)
    else
      var count := CountInRange(range, transliterated);
      if tl == 0 then
        if count == 0 then NaN else Num(1.0)
      else
        RatioBounds(tl, ol);
        RatioBounds(count, tl);
        var coverage := MinOne(Ratio(tl, ol));
        Num(MinOne(coverage * 0.7 + Ratio(count, tl) * 0.3))
  }

  /** Convex blend of two unit values reaches 1 only at (1, 1). */
  lemma BlendIsOne(c: real, q: real)
    requires 0.0 <= c <= 1.0 && 0.0 <= q <= 1.0
    ensures MinOne(c * 0.7 + q * 0.3) == 1.0 <==> c == 1.0 && q == 1.0
  {
  }

  /** For a block without whitespace, the score of a visible output is 1
      exactly when the output has at least as many visible characters as
      the original and every one of them is in the block. */
  lemma FullScore(range: UnicodeRange, original: string, transliterated: string)
    requires WsFreeBlock(range)
    requires CountNonWs(original) > 0 && CountNonWs(transliterated) > 0
    ensures CalculateConfidence(range, original, transliterated) == Num(1.0) <==>
      CountNonWs(transliterated) >= CountNonWs(original) &&
      CountInRange(range, transliterated) == CountNonWs(transliterated)
  {
    var ol := CountNonWs(original);
    var tl := CountNonWs(transliterated);
    var count := CountInRange(range, transliterated);
    CountInRangeVisible(range, transliterated);
    RatioBounds(tl, ol);
    RatioBounds(count, tl);
    var coverage := MinOne(Ratio(tl, ol));
    assert coverage == 1.0 <==> tl >= ol;
    BlendIsOne(coverage, Ratio(count, tl));
  }

  /** An output of only in-block characters with as many characters as the
      original has visible ones scores exactly 1. */
  lemma InScriptOutputScoresOne(range: UnicodeRange, original: string, transliterated: string)
    requires WsFreeBlock(range)
    requires forall i :: 0 <= i < |transliterated| ==> InScript(range, transliterated[i])
    requires CountNonWs(original) > 0 && |transliterated| == CountNonWs(original)
    ensures CalculateConfidence(range, original, transliterated) == Num(1.0)
  {
    CountInRangeAll(range, transliterated);
    CountInRangeVisible(range, transliterated);
    assert CountNonWs(transliterated) <= |transliterated| by {
      CountNonWsBound(transliterated);
    }
    FullScore(range, original, transliterated);
  }
}
