/**
 The Hindi language configuration: the Devanagari block and the 76
 phonetic rules, in table order. The rule positions matter: the index keeps
 table order among rules of equal rank.
 */
module Hindi {
  import opened Shared
  import opened Strings
  import opened RuleIndex
  import opened Matcher
  import opened WordWalk
  import opened Confidence

  /** Independent vowel letters. */
  const Vowels: seq<Rule> := [
    Rule("a", "अ", Some(1), None),
    Rule("aa", "आ", Some(2), None),
    Rule("A", "आ", Some(2), None),
    Rule("i", "इ", Some(1), None),
    Rule("ii", "ई", Some(2), None),
    Rule("I", "ई", Some(2), None),
    Rule("u", "उ", Some(1), None),
    Rule("uu", "ऊ", Some(2), None),
    Rule("U", "ऊ", Some(2), None),
    Rule("e", "ए", Some(1), None),
    Rule("ai", "ऐ", Some(2), None),
    Rule("o", "ओ", Some(1), None),
    Rule("au", "औ", Some(2), None)
  ]

  /** Consonants, including the conjuncts ksha, tra and jña. */
  const Consonants: seq<Rule> := [
    Rule("k", "क", Some(1), None),
    Rule("kh", "ख", Some(2), None),
    Rule("g", "ग", Some(1), None),
    Rule("gh", "घ", Some(2), None),
    Rule("ng", "ङ", Some(2), None),
    Rule("ch", "च", Some(2), None),
    Rule("chh", "छ", Some(3), None),
    Rule("j", "ज", Some(1), None),
    Rule("jh", "झ", Some(2), None),
    Rule("ny", "ञ", Some(2), None),
    Rule("t", "त", Some(1), None),
    Rule("th", "थ", Some(2), None),
    Rule("d", "द", Some(1), None),
    Rule("dh", "ध", Some(2), None),
    Rule("n", "न", Some(1), None),
    Rule("p", "प", Some(1), None),
    Rule("ph", "फ", Some(2), None),
    Rule("b", "ब", Some(1), None),
    Rule("bh", "भ", Some(2), None),
    Rule("m", "म", Some(1), None),
    Rule("y", "य", Some(1), None),
    Rule("r", "र", Some(1), None),
    Rule("l", "ल", Some(1), None),
    Rule("v", "व", Some(1), None),
    Rule("w", "व", Some(1), None),
    Rule("sh", "श", Some(2), None),
    Rule("s", "स", Some(1), None),
    Rule("h", "ह", Some(1), None),
    Rule("L", "ळ", Some(1), None),
    Rule("ksh", "क्ष", Some(3), None),
    Rule("tr", "त्र", Some(2), None),
    Rule("gy", "ज्ञ", Some(2), None)
  ]

  /** Dependent vowel signs: each repeats the pattern and priority of a vowel letter. */
  const VowelSigns: seq<Rule> := [
    Rule("aa", "ा", Some(2), None),
    Rule("A", "ा", Some(2), None),
    Rule("i", "ि", Some(1), None),
    Rule("ii", "ी", Some(2), None),
    Rule("I", "ी", Some(2), None),
    Rule("u", "ु", Some(1), None),
    Rule("uu", "ू", Some(2), None),
    Rule("U", "ू", Some(2), None),
    Rule("e", "े", Some(1), None),
    Rule("ai", "ै", Some(2), None),
    Rule("o", "ो", Some(1), None),
    Rule("au", "ौ", Some(2), None)
  ]

  /** Anusvara, visarga and the vocalic r/l signs. */
  const Specials: seq<Rule> := [
    Rule("N", "ं", Some(1), None),
    Rule("M", "ं", Some(1), None),
    Rule("H", "ः", Some(1), None),
    Rule("R", "ृ", Some(1), None),
    Rule("RR", "ॄ", Some(2), None),
    Rule("L", "ॢ", Some(1), None),
    Rule("LL", "ॣ", Some(2), None)
  ]

  /** Devanagari digits. */
  const Digits: seq<Rule> := [
    Rule("0", "०", Some(1), None),
    Rule("1", "१", Some(1), None),
    Rule("2", "२", Some(1), None),
    Rule("3", "३", Some(1), None),
    Rule("4", "४", Some(1), None),
    Rule("5", "५", Some(1), None),
    Rule("6", "६", Some(1), None),
    Rule("7", "७", Some(1), None),
    Rule("8", "८", Some(1), None),
    Rule("9", "९", Some(1), None)
  ]

  /** Danda and double danda, with backslash-escaped patterns. */
  const Punctuation: seq<Rule> := [
    Rule("\\.", "।", Some(1), None),
    Rule("\\|", "॥", Some(1), None)
  ]

  const Rules: seq<Rule> := Vowels + Consonants + VowelSigns + Specials + Digits + Punctuation

  /** The Devanagari block, U+0900 to U+097F. */
  const Range: UnicodeRange := UnicodeRange(0x0900, 0x097F)

  const Config: LanguageConfig := LanguageConfig("hindi", "Hindi", "Devanagari", Rules, Range)

  /** Positions of the first rule of each group within `Rules`. */
  const SignsAt: nat := 45
  const SpecialsAt: nat := 57
  const PunctuationAt: nat := 74

  predicate AsciiAlnum(c: char)
  {
    'a' <= c <= 'z' || 'A' <= c <= 'Z' || '0' <= c <= '9'
  }

  /** What every rule of the table satisfies: a non-empty pattern of ASCII
      letters and digits, or a backslash escape; a non-empty target of
      in-block characters; a priority of 1, 2 or 3; no word-boundary flag. */
  predicate WellFormedRule(r: Rule)
  {
    && |r.pattern| >= 1
    && ((forall i :: 0 <= i < |r.pattern| ==> AsciiAlnum(r.pattern[i])) || DeadEscape(r.pattern))
    && |r.target| >= 1
    && (forall i :: 0 <= i < |r.target| ==> InScript(Range, r.target[i]))
    && r.priority.Some? && 1 <= r.priority.value <= 3
    && r.wordBoundary.None?
  }

  lemma VowelsWellFormedFrom0()
    ensures forall i :: 0 <= i < 7 ==> WellFormedRule(Vowels[i])
  {
  }

  lemma VowelsWellFormedFrom7()
    ensures forall i :: 7 <= i < 13 ==> WellFormedRule(Vowels[i])
  {
  }

  lemma VowelsWellFormed()
    ensures forall r :: r in Vowels ==> WellFormedRule(r)
  {
    VowelsWellFormedFrom0();
    VowelsWellFormedFrom7();
  }

  lemma ConsonantsWellFormedFrom0()
    ensures forall i :: 0 <= i < 8 ==> WellFormedRule(Consonants[i])
  {
  }

  lemma ConsonantsWellFormedFrom8()
    ensures forall i :: 8 <= i < 16 ==> WellFormedRule(Consonants[i])
  {
  }

  lemma ConsonantsWellFormedFrom16()
    ensures forall i :: 16 <= i < 24 ==> WellFormedRule(Consonants[i])
  {
  }

  lemma ConsonantsWellFormedFrom24()
    ensures forall i :: 24 <= i < 32 ==> WellFormedRule(Consonants[i])
  {
  }

  lemma ConsonantsWellFormed()
    ensures forall r :: r in Consonants ==> WellFormedRule(r)
  {
    ConsonantsWellFormedFrom0();
    ConsonantsWellFormedFrom8();
    ConsonantsWellFormedFrom16();
    ConsonantsWellFormedFrom24();
  }

  lemma VowelSignsWellFormedFrom0()
    ensures forall i :: 0 <= i < 6 ==> WellFormedRule(VowelSigns[i])
  {
  }

  lemma VowelSignsWellFormedFrom6()
    ensures forall i :: 6 <= i < 12 ==> WellFormedRule(VowelSigns[i])
  {
  }

  lemma VowelSignsWellFormed()
    ensures forall r :: r in VowelSigns ==> WellFormedRule(r)
  {
    VowelSignsWellFormedFrom0();
    VowelSignsWellFormedFrom6();
  }

  lemma SpecialsWellFormed()
    ensures forall r :: r in Specials ==> WellFormedRule(r)
  {
  }

  lemma DigitsWellFormed()
    ensures forall r :: r in Digits ==> WellFormedRule(r)
  {
  }

  lemma PunctuationWellFormed()
    ensures forall r :: r in Punctuation ==> WellFormedRule(r)
  {
  }

  /** Every rule of the Hindi table is well formed. */
  lemma RulesWellFormed()
    ensures forall r :: r in Rules ==> WellFormedRule(r)
  {
    VowelsWellFormed();
    ConsonantsWellFormed();
    VowelSignsWellFormed();
    SpecialsWellFormed();
    DigitsWellFormed();
    PunctuationWellFormed();
  }

  /** No whitespace character lies in the Devanagari block. */
  lemma RangeHoldsNoWhitespace()
    ensures WsFreeBlock(Range)
  {
  }

  /** A rule of the table has a visible target. */
  lemma WellFormedVisible(r: Rule)
    requires WellFormedRule(r)
    ensures !AllWs(r.target)
  {
    RangeHoldsNoWhitespace();
    assert InScript(Range, r.target[0]);
  }

  /** An index whose buckets hold only well-formed rules meets what the
      word-level properties ask of an index: plain patterns, visible targets
      and priorities within 0..10. */
  lemma IndexInherits(rules: seq<Rule>, m: RuleMap)
    requires forall k, r :: k in m && r in m[k] ==> r in rules
    requires forall r :: r in rules ==> WellFormedRule(r)
    ensures PlainPatterns(m) && VisibleTargets(m) && TenthPriorities(m)
  {
    forall k: string, r: Rule | k in m && r in m[k]
      ensures Literal(r.pattern) || DeadEscape(r.pattern)
      ensures !AllWs(r.target)
      ensures r.priority.None? || 0 <= r.priority.value <= 10
    {
      assert WellFormedRule(r);
      WellFormedVisible(r);
      if !DeadEscape(r.pattern) {
        forall i | 0 <= i < |r.pattern|
          ensures r.pattern[i] != '\\'
        {
          assert AsciiAlnum(r.pattern[i]);
        }
      }
    }
  }

  /** The index built from well-formed rules satisfies the word-level
      requirements. */
  lemma BuiltIndexWellFormed(rules: seq<Rule>)
    requires forall r :: r in rules ==> WellFormedRule(r)
    ensures Keyed(BuildRuleMap(rules))
    ensures PlainPatterns(BuildRuleMap(rules))
    ensures VisibleTargets(BuildRuleMap(rules))
    ensures TenthPriorities(BuildRuleMap(rules))
  {
    RuleMapCorrect(rules);
    IndexInherits(rules, BuildRuleMap(rules));
  }

  /** The Hindi index satisfies the word-level requirements. */
  lemma IndexWellFormed()
    ensures Keyed(BuildRuleMap(Rules))
    ensures PlainPatterns(BuildRuleMap(Rules))
    ensures VisibleTargets(BuildRuleMap(Rules))
    ensures TenthPriorities(BuildRuleMap(Rules))
  {
    RulesWellFormed();
    BuiltIndexWellFormed(Rules);
  }

  /** Every Hindi match multiplies the word confidence by at most 0.3,
      less than the 0.5 of a copied character: a fully matched word scores
      below an unmatched word of the same length. */
  lemma MatchFactorsBelowCopy()
    ensures forall r :: r in Rules ==> 0.1 <= StepFactor(r) <= 0.3 < 0.5
  {
    RulesWellFormed();
    forall r | r in Rules
      ensures 0.1 <= StepFactor(r) <= 0.3
    {
      assert WellFormedRule(r);
      var p := r.priority.value;
      assert StepFactor(r) == p as real / 10.0;
    }
  }

  /** Each vowel-sign rule repeats the pattern and priority of the vowel
      letter one place further along its own group, with another target. */
  lemma VowelSignsRepeatVowels()
    ensures forall k :: 0 <= k < |VowelSigns| ==>
      VowelSigns[k].pattern == Vowels[k + 1].pattern &&
      VowelSigns[k].priority == Vowels[k + 1].priority &&
      VowelSigns[k].target != Vowels[k + 1].target
  {
  }

  /** Where each group sits within `Rules`. */
  lemma GroupPositions()
    ensures |Rules| == 76
    ensures Rules[..13] == Vowels && Rules[13..SignsAt] == Consonants
    ensures Rules[SignsAt..SpecialsAt] == VowelSigns
    ensures Rules[SpecialsAt..PunctuationAt - 10] == Specials
    ensures Rules[PunctuationAt..] == Punctuation
  {
  }

  /** The vowel-sign rule at position `k` is never the best rule: the
      vowel twin before it has equal rank. */
  lemma VowelSignShadowed(text: string, start: nat, k: nat)
    requires SignsAt <= k < SpecialsAt
    ensures !IsBest(Rules, text, start, k)
  {
    GroupPositions();
    VowelSignsRepeatVowels();
    var j := k - SignsAt;
    assert Rules[k] == Rules[SignsAt..SpecialsAt][j] == VowelSigns[j];
    assert Rules[j + 1] == Rules[..13][j + 1] == Vowels[j + 1];
    LaterDuplicateNeverBest(Rules, text, start, j + 1, k);
  }

  /** No vowel-sign rule is ever the best rule: each sign has an earlier
      vowel twin of equal rank. */
  lemma VowelSignsNeverChosen(text: string, start: nat)
    ensures forall k :: SignsAt <= k < SpecialsAt ==> !IsBest(Rules, text, start, k)
  {
    forall k | SignsAt <= k < SpecialsAt
      ensures !IsBest(Rules, text, start, k)
    {
      VowelSignShadowed(text, start, k);
    }
  }

  /** The second `L` rule is never the best rule: the consonant `L` comes
      first with equal rank. */
  lemma SecondLNeverChosen(text: string, start: nat)
    ensures !IsBest(Rules, text, start, SpecialsAt + 5)
  {
    GroupPositions();
    assert Rules[SpecialsAt + 5] == Rules[SpecialsAt..PunctuationAt - 10][5] == Specials[5];
    assert Rules[13 + 28] == Rules[13..SignsAt][28] == Consonants[28];
    LaterDuplicateNeverBest(Rules, text, start, 13 + 28, SpecialsAt + 5);
  }

  /** The two punctuation rules are dead escapes and never fire. */
  lemma PunctuationNeverFires(text: string, start: nat)
    ensures !Fires(Rules, text, start, PunctuationAt) && !Fires(Rules, text, start, PunctuationAt + 1)
  {
    GroupPositions();
    assert Rules[PunctuationAt] == Rules[PunctuationAt..][0] == Punctuation[0];
    assert Rules[PunctuationAt + 1] == Rules[PunctuationAt..][1] == Punctuation[1];
    DeadEscapeNeverFires(Rules, text, start, PunctuationAt);
    DeadEscapeNeverFires(Rules, text, start, PunctuationAt + 1);
  }

  /** No vowel-sign rule and no second `L` rule is ever the best rule, and
      the punctuation rules never fire: each sign has an earlier twin of
      equal rank, and the stable order keeps the twin in front. */
  lemma ShadowedRulesNeverChosen(text: string, start: nat)
    ensures forall k :: SignsAt <= k < SpecialsAt ==> !IsBest(Rules, text, start, k)
    ensures !IsBest(Rules, text, start, SpecialsAt + 5)
    ensures !Fires(Rules, text, start, PunctuationAt) && !Fires(Rules, text, start, PunctuationAt + 1)
  {
    VowelSignsNeverChosen(text, start);
    SecondLNeverChosen(text, start);
    PunctuationNeverFires(text, start);
  }
}
