/**
 The transliteration engine: its state (configuration, rule table, rule
 index), construction and language switching through the registry, and the
 whole-text `transliterate` with its position mapping and confidence.
 */
module Engine {
  import opened Shared
  import opened Strings
  import opened RuleIndex
  import opened Matcher
  import opened WordWalk
  import opened Confidence
  import opened Languages
  import Hindi
  import Suggestions

  /** The private fields `config`, `rules` and `ruleMap`. */
  datatype Engine = Engine(config: LanguageConfig, rules: seq<Rule>, ruleMap: RuleMap)

  /** What the constructor and `setLanguage` establish: the rules are the
      configuration's and the index is built from them. */
  predicate Consistent(e: Engine)
  {
    e.rules == e.config.rules && e.ruleMap == BuildRuleMap(e.rules)
  }

  /** A consistent engine has a keyed index. */
  lemma ConsistentKeyed(e: Engine)
    requires Consistent(e)
    ensures Keyed(e.ruleMap)
  {
    RuleMapCorrect(e.rules);
  }

  /** `new TransliterationEngine(language)`: throws when the registry has no
      entry for the code. */
  function NewEngine(code: string): (r: Result<Engine>)
    ensures r.Ok? <==> IsLanguageSupported(code)
    ensures r.Ok? ==> Consistent(r.value) && GetLanguageConfig(code) == Ok(r.value.config)
    ensures r.Err? ==> r.message == "Language configuration not found for: " + code
  {
    SupportedIffFound(code);
    match GetLanguageConfig(code)
    case Ok(c) => Ok(Engine(c, c.rules, BuildRuleMap(c.rules)))
    case Err(msg) => Err(msg)
  }

  /** The engine after `setLanguage`, and the error it threw, if any. */
  datatype Switch = Switch(engine: Engine, error: Option<string>)

  /** `setLanguage(language)`: the registry lookup comes before any
      assignment, so a failed lookup leaves every field as it was. */
  function SetLanguage(e: Engine, code: string): (r: Switch)
    ensures r.error.None? <==> IsLanguageSupported(code)
    ensures r.error.Some? ==> r.engine == e && r.error.value == "Language configuration not found for: " + code
    ensures r.error.None? ==> Consistent(r.engine) && GetLanguageConfig(code) == Ok(r.engine.config)
  {
    SupportedIffFound(code);
    match GetLanguageConfig(code)
    case Ok(c) => Switch(Engine(c, c.rules, BuildRuleMap(c.rules)), None)
    case Err(msg) => Switch(e, Some(msg))
  }

  /** `getLanguageConfig()`: in a consistent engine, the configuration whose
      rules the engine indexes. */
  function CurrentConfig(e: Engine): (c: LanguageConfig)
    ensures Consistent(e) ==> c.rules == e.rules && e.ruleMap == BuildRuleMap(c.rules)
  {
    e.config
  }

  /** `getLanguageConfig()` returns the configuration installed last: the
      registry's entry for the code the engine was built with, the entry for
      the code of a successful `setLanguage`, and after a failed one the
      configuration the engine had before. */
  lemma ConfigInstalled(e: Engine, code: string)
    ensures NewEngine(code).Ok? ==> CurrentConfig(NewEngine(code).value) == GetLanguageConfig(code).value
    ensures CurrentConfig(SetLanguage(e, code).engine) ==
      if IsLanguageSupported(code) then GetLanguageConfig(code).value else CurrentConfig(e)
  {
  }

  /** The Hindi engine: constructing it and switching any engine to Hindi
      install the Hindi configuration. */
  lemma HindiEngine(e: Engine)
    ensures NewEngine("hindi").Ok? && CurrentConfig(NewEngine("hindi").value) == Hindi.Config
    ensures SetLanguage(e, "hindi").error.None? && CurrentConfig(SetLanguage(e, "hindi").engine) == Hindi.Config
    ensures CurrentConfig(NewEngine("hindi").value).code == "hindi"
  {
    HindiRegistered();
  }

  /** The per-piece outputs of the `for (const word of words)` loop. */
  function Outputs(m: RuleMap, words: seq<string>): (outs: seq<string>)
    requires Keyed(m)
    ensures |outs| == |words|
  {
    if |words| == 0 then [] else [TransliterateWord(m, words[0]).text] + Outputs(m, words[1..])
  }

  /** Output `k` is the transliteration of piece `k`. */
  lemma {:induction false} OutputsAt(m: RuleMap, words: seq<string>, k: nat)
    requires Keyed(m) && k < |words|
    ensures Outputs(m, words)[k] == TransliterateWord(m, words[k]).text
    decreases k
  {
    if k > 0 {
      OutputsAt(m, words[1..], k - 1);
      assert words[1..][k - 1] == words[k];
    }
  }

  /** Offset of piece `k` in the space-join of `pieces`. */
  function JoinOffset(pieces: seq<string>, k: nat): nat
    requires k <= |pieces|
  {
    if k == 0 then 0 else |pieces[0]| + 1 + JoinOffset(pieces[1..], k - 1)
  }

  /** Sum of the lengths of the first `k` pieces. */
  function LengthBefore(pieces: seq<string>, k: nat): nat
    requires k <= |pieces|
  {
    if k == 0 then 0 else |pieces[0]| + LengthBefore(pieces[1..], k - 1)
  }

  /** The mapping entries of the loop from the running offsets `op` (into
      the original) and `tp` (into the output): the original offset moves
      past the piece and one separator, the output offset past the output
      only. */
  function Mapping(words: seq<string>, outs: seq<string>, op: int, tp: int): (r: seq<PositionMapping>)
    requires |words| == |outs|
    ensures |r| == |words|
  {
    if |words| == 0 then []
    else
      [PositionMapping(op, op + |words[0]|, tp, tp + |outs[0]|)]
        + Mapping(words[1..], outs[1..], op + |words[0]| + 1, tp + |outs[0]|)
  }

  /** Entry `k` of the mapping: the piece's span at its offset in the
      space-joined pieces, and the output's span at the summed lengths of
      the earlier outputs, separators not counted. */
  lemma {:induction false} MappingEntry(words: seq<string>, outs: seq<string>, op: int, tp: int, k: nat)
    requires |words| == |outs| && k < |words|
    ensures var e := Mapping(words, outs, op, tp)[k];
      && e.originalStart == op + JoinOffset(words, k)
      && e.originalEnd == e.originalStart + |words[k]|
      && e.transliteratedStart == tp + LengthBefore(outs, k)
      && e.transliteratedEnd == e.transliteratedStart + |outs[k]|
    decreases k
  {
    if k > 0 {
      MappingEntry(words[1..], outs[1..], op + |words[0]| + 1, tp + |outs[0]|, k - 1);
      assert words[1..][k - 1] == words[k] && outs[1..][k - 1] == outs[k];
    }
  }

  /** The mapping has one well-formed entry per piece, starts at offset 0 in
      both texts, and moves from one entry to the next by one separator in
      the original and by none in the output. */
  lemma MappingShape(words: seq<string>, outs: seq<string>)
    requires |words| == |outs|
    ensures var r := Mapping(words, outs, 0, 0);
      && |r| == |words|
      && (|r| > 0 ==> r[0].originalStart == 0 && r[0].transliteratedStart == 0)
      && (forall k :: 0 <= k < |r| ==>
            && r[k].originalEnd - r[k].originalStart == |words[k]|
            && r[k].transliteratedEnd - r[k].transliteratedStart == |outs[k]|
            && WellFormedMapping(r[k]))
      && (forall k :: 0 <= k < |r| - 1 ==>
            r[k + 1].originalStart == r[k].originalEnd + 1 && r[k + 1].transliteratedStart == r[k].transliteratedEnd)
  {
    var r := Mapping(words, outs, 0, 0);
    forall k | 0 <= k < |r|
      ensures r[k].originalEnd - r[k].originalStart == |words[k]|
      ensures r[k].transliteratedEnd - r[k].transliteratedStart == |outs[k]|
      ensures WellFormedMapping(r[k])
    {
      MappingEntry(words, outs, 0, 0, k);
    }
    forall k | 0 <= k < |r| - 1
      ensures r[k + 1].originalStart == r[k].originalEnd + 1
      ensures r[k + 1].transliteratedStart == r[k].transliteratedEnd
    {
      MappingEntry(words, outs, 0, 0, k);
      MappingEntry(words, outs, 0, 0, k + 1);
      OffsetsStep(words, outs, k);
    }
    if |r| > 0 {
      MappingEntry(words, outs, 0, 0, 0);
    }
  }

  /** The offsets of consecutive pieces differ by the earlier piece, plus a
      separator in the join. */
  lemma {:induction false} OffsetsStep(words: seq<string>, outs: seq<string>, k: nat)
    requires k + 1 < |words| && k + 1 < |outs|
    ensures JoinOffset(words, k + 1) == JoinOffset(words, k) + |words[k]| + 1
    ensures LengthBefore(outs, k + 1) == LengthBefore(outs, k) + |outs[k]|
    decreases k
  {
    if k > 0 {
      OffsetsStep(words[1..], outs[1..], k - 1);
      assert words[1..][k - 1] == words[k] && outs[1..][k - 1] == outs[k];
    }
  }

  /** `transliterate(text)` with the engine's index and script block. */
  function Transliterate(e: Engine, text: string): (r: TransliterationResult)
    requires Keyed(e.ruleMap)
    ensures r.original == text
    ensures AllWs(text) ==> r.transliterated == text && r.mapping == [] && r.confidence == Num(1.0)
    ensures !AllWs(text) ==> |r.mapping| == |Split(text)|
  {
    if AllWs(text) then TransliterationResult(text, text, [], Num(1.0))
    else
      var words := Split(text);
      var outs := Outputs(e.ruleMap, words);
      var joined := Join(outs, " ");
      TransliterationResult(text, joined, Mapping(words, outs, 0, 0),
                            CalculateConfidence(e.config.unicodeRange, text, joined))
  }

  /** Unfolding of `Mapping` by one entry. */
  lemma MappingStep(words: seq<string>, outs: seq<string>, k: nat, op: int, tp: int)
    requires |words| == |outs| && k < |words|
    ensures Mapping(words[k..], outs[k..], op, tp) ==
      [PositionMapping(op, op + |words[k]|, tp, tp + |outs[k]|)]
        + Mapping(words[k + 1..], outs[k + 1..], op + |words[k]| + 1, tp + |outs[k]|)
  {
    var ws, os := words[k..], outs[k..];
    assert ws[0] == words[k] && os[0] == outs[k];
    assert ws[1..] == words[k + 1..] && os[1..] == outs[k + 1..];
  }

  /** The entries of the loop so far followed by those still to come make
      up the whole mapping, and the outputs so far are a prefix of all
      outputs; one more piece keeps both. */
  lemma PieceKeeps(words: seq<string>, outs: seq<string>, k: nat, op: int, tp: int,
                   out: string, result: seq<string>, result': seq<string>,
                   acc: seq<PositionMapping>, entry: PositionMapping, acc': seq<PositionMapping>)
    requires |words| == |outs| && k < |words| && out == outs[k]
    requires result == outs[..k] && result' == result + [out]
    requires acc + Mapping(words[k..], outs[k..], op, tp) == Mapping(words, outs, 0, 0)
    requires entry == PositionMapping(op, op + |words[k]|, tp, tp + |out|) && acc' == acc + [entry]
    ensures result' == outs[..k + 1]
    ensures acc' + Mapping(words[k + 1..], outs[k + 1..], op + |words[k]| + 1, tp + |out|) == Mapping(words, outs, 0, 0)
  {
    assert outs[..k + 1] == outs[..k] + [outs[k]];
    MappingStep(words, outs, k, op, tp);
    ConcatAssoc(acc, [entry], Mapping(words[k + 1..], outs[k + 1..], op + |words[k]| + 1, tp + |out|));
  }

  /** The loop has visited every piece. */
  lemma LoopFinished(words: seq<string>, outs: seq<string>, k: nat, op: int, tp: int,
                     result: seq<string>, acc: seq<PositionMapping>)
    requires |words| == |outs| && k == |words|
    requires result == outs[..k]
    requires acc + Mapping(words[k..], outs[k..], op, tp) == Mapping(words, outs, 0, 0)
    ensures result == outs && acc == Mapping(words, outs, 0, 0)
  {
    assert words[k..] == [];
    assert acc + [] == acc;
  }

  /** The loop of `transliterate`: each piece's output is pushed and its
      mapping entry recorded while the two running offsets advance. */
  method PiecesLoop(m: RuleMap, words: seq<string>) returns (result: seq<string>, mapping: seq<PositionMapping>)
    requires Keyed(m)
    ensures result == Outputs(m, words)
    ensures mapping == Mapping(words, result, 0, 0)
  {
    ghost var outs := Outputs(m, words);
    result, mapping := [], [];
    var transliteratedPos := 0;
    var originalPos := 0;
    var k := 0;
    while k < |words|
      invariant 0 <= k <= |words|
      invariant result == outs[..k]
      invariant mapping + Mapping(words[k..], outs[k..], originalPos, transliteratedPos) == Mapping(words, outs, 0, 0)
    {
      var word := words[k];
      var out, _ := TransliterateWordLoop(m, word);
      var entry := PositionMapping(originalPos, originalPos + |word|, transliteratedPos, transliteratedPos + |out|);
      var result', mapping' := result + [out], mapping + [entry];
      OutputsAt(m, words, k);
      PieceKeeps(words, outs, k, originalPos, transliteratedPos, out, result, result', mapping, entry, mapping');
      result, mapping := result', mapping';
      transliteratedPos := transliteratedPos + |out|;
      originalPos := originalPos + |word| + 1;
      k := k + 1;
    }
    LoopFinished(words, outs, k, originalPos, transliteratedPos, result, mapping);
  }

  /** `transliterate` as the source writes it: blank input is returned
      unchanged, otherwise the loop's outputs are joined with one space and
      scored. */
  method TransliterateLoop(e: Engine, text: string) returns (r: TransliterationResult)
    requires Keyed(e.ruleMap)
    ensures r == Transliterate(e, text)
  {
    if AllWs(text) {
      return TransliterationResult(text, text, [], Num(1.0));
    }
    var words := Split(text);
    var result, mapping := PiecesLoop(e.ruleMap, words);
    var joined := Join(result, " ");
    r := TransliterationResult(text, joined, mapping, CalculateConfidence(e.config.unicodeRange, text, joined));
  }

  /** Piece `k` sits at its join offset in the space-join of the pieces,
      and a separator follows every piece but the last. */
  lemma {:induction false} JoinLocates(pieces: seq<string>, k: nat)
    requires k < |pieces|
    ensures JoinOffset(pieces, k) + |pieces[k]| <= |Join(pieces, " ")|
    ensures Join(pieces, " ")[JoinOffset(pieces, k)..JoinOffset(pieces, k) + |pieces[k]|] == pieces[k]
    ensures k + 1 < |pieces| ==>
      JoinOffset(pieces, k) + |pieces[k]| < |Join(pieces, " ")| &&
      Join(pieces, " ")[JoinOffset(pieces, k) + |pieces[k]|] == ' '
    decreases k
  {
    if |pieces| > 1 {
      JoinCons(pieces[0], pieces[1..], " ");
      assert [pieces[0]] + pieces[1..] == pieces;
      if k > 0 {
        JoinLocates(pieces[1..], k - 1);
        assert pieces[1..][k - 1] == pieces[k];
        PrefixShift(pieces[0] + " ", Join(pieces[1..], " "), JoinOffset(pieces[1..], k - 1), |pieces[k]|);
      }
    }
  }

  /** Positions in `b` move by `|a|` in `a + b`. */
  lemma PrefixShift(a: string, b: string, i: nat, n: nat)
    requires i + n <= |b|
    ensures (a + b)[|a| + i..|a| + i + n] == b[i..i + n]
    ensures i + n < |b| ==> (a + b)[|a| + i + n] == b[i + n]
  {
  }

  /** The original spans of the mapping delimit the pieces in their
      space-join. */
  lemma OriginalSpansLocate(words: seq<string>, outs: seq<string>, k: nat)
    requires |words| == |outs| && k < |words|
    ensures var p := Mapping(words, outs, 0, 0)[k];
      && 0 <= p.originalStart <= p.originalEnd <= |Join(words, " ")|
      && Join(words, " ")[p.originalStart..p.originalEnd] == words[k]
  {
    MappingEntry(words, outs, 0, 0, k);
    JoinLocates(words, k);
  }

  /** On text whose whitespace is single spaces between words, the original
      offsets of every entry delimit exactly its piece of the text. */
  lemma OriginalOffsetsLocateWords(e: Engine, text: string, k: nat)
    requires Keyed(e.ruleMap) && SingleSpaced(text) && !AllWs(text)
    requires k < |Transliterate(e, text).mapping|
    ensures var p := Transliterate(e, text).mapping[k];
      0 <= p.originalStart <= p.originalEnd <= |text| && text[p.originalStart..p.originalEnd] == Split(text)[k]
  {
    var words := Split(text);
    SplitJoinSingleSpaced(text);
    OriginalSpansLocate(words, Outputs(e.ruleMap, words), k);
  }

  /** As written, the output offset of the second entry points at the space
      that the join puts between the first two outputs, not at the second
      output. */
  lemma SecondEntryAtSeparator(e: Engine, text: string)
    requires Keyed(e.ruleMap) && !AllWs(text) && |Split(text)| >= 2
    ensures var r := Transliterate(e, text);
      0 <= r.mapping[1].transliteratedStart < |r.transliterated| &&
      r.transliterated[r.mapping[1].transliteratedStart] == ' '
  {
    var words := Split(text);
    var outs := Outputs(e.ruleMap, words);
    MappingEntry(words, outs, 0, 0, 1);
    assert LengthBefore(outs, 1) == |outs[0]| by {
      assert LengthBefore(outs[1..], 0) == 0;
    }
    JoinLocates(outs, 0);
  }

  /** As written, every entry after the first starts its output span one
      character early per earlier separator. */
  lemma OutputOffsetsDrift(e: Engine, text: string, k: nat)
    requires Keyed(e.ruleMap) && !AllWs(text) && k < |Split(text)|
    ensures var words := Split(text);
      Transliterate(e, text).mapping[k].transliteratedStart + k ==
        JoinOffset(Outputs(e.ruleMap, words), k)
  {
    var words := Split(text);
    var outs := Outputs(e.ruleMap, words);
    MappingEntry(words, outs, 0, 0, k);
    JoinDrift(outs, k);
  }

  /** The join offset counts one separator per earlier piece. */
  lemma {:induction false} JoinDrift(pieces: seq<string>, k: nat)
    requires k <= |pieces|
    ensures JoinOffset(pieces, k) == LengthBefore(pieces, k) + k
    decreases k
  {
    if k > 0 {
      JoinDrift(pieces[1..], k - 1);
    }
  }

  /** The mapping as evidently intended: the output offset also moves past
      the separator that the join inserts. */
  function FixedMapping(words: seq<string>, outs: seq<string>, op: int, tp: int): (r: seq<PositionMapping>)
    requires |words| == |outs|
    ensures |r| == |words|
  {
    if |words| == 0 then []
    else
      [PositionMapping(op, op + |words[0]|, tp, tp + |outs[0]|)]
        + FixedMapping(words[1..], outs[1..], op + |words[0]| + 1, tp + |outs[0]| + 1)
  }

  lemma {:induction false} FixedMappingEntry(words: seq<string>, outs: seq<string>, op: int, tp: int, k: nat)
    requires |words| == |outs| && k < |words|
    ensures var e := FixedMapping(words, outs, op, tp)[k];
      && e.originalStart == op + JoinOffset(words, k)
      && e.originalEnd == e.originalStart + |words[k]|
      && e.transliteratedStart == tp + JoinOffset(outs, k)
      && e.transliteratedEnd == e.transliteratedStart + |outs[k]|
    decreases k
  {
    if k > 0 {
      FixedMappingEntry(words[1..], outs[1..], op + |words[0]| + 1, tp + |outs[0]| + 1, k - 1);
      assert words[1..][k - 1] == words[k] && outs[1..][k - 1] == outs[k];
    }
  }

  /** `transliterate` with the corrected output offsets; everything else is
      as in `Transliterate`. */
  function TransliterateFixed(e: Engine, text: string): (r: TransliterationResult)
    requires Keyed(e.ruleMap)
    ensures r.original == text
    ensures !AllWs(text) ==> |r.mapping| == |Split(text)|
  {
    var t := Transliterate(e, text);
    if AllWs(text) then t
    else
      var words := Split(text);
      t.(mapping := FixedMapping(words, Outputs(e.ruleMap, words), 0, 0))
  }

  /** The corrected output spans delimit the outputs in their space-join. */
  lemma FixedSpansLocate(words: seq<string>, outs: seq<string>, k: nat)
    requires |words| == |outs| && k < |words|
    ensures var p := FixedMapping(words, outs, 0, 0)[k];
      && 0 <= p.transliteratedStart <= p.transliteratedEnd <= |Join(outs, " ")|
      && Join(outs, " ")[p.transliteratedStart..p.transliteratedEnd] == outs[k]
  {
    FixedMappingEntry(words, outs, 0, 0, k);
    JoinLocates(outs, k);
  }

  /** With the correction, every entry's output span delimits exactly the
      output of its piece, and the rest of the result is unchanged. */
  lemma FixedMappingLocates(e: Engine, text: string, k: nat)
    requires Keyed(e.ruleMap) && !AllWs(text) && k < |Split(text)|
    ensures var r := TransliterateFixed(e, text);
      && r.transliterated == Transliterate(e, text).transliterated
      && r.confidence == Transliterate(e, text).confidence
      && 0 <= r.mapping[k].transliteratedStart <= r.mapping[k].transliteratedEnd <= |r.transliterated|
      && r.transliterated[r.mapping[k].transliteratedStart..r.mapping[k].transliteratedEnd]
           == TransliterateWord(e.ruleMap, Split(text)[k]).text
  {
    var words := Split(text);
    var outs := Outputs(e.ruleMap, words);
    FixedSpansLocate(words, outs, k);
    OutputsAt(e.ruleMap, words, k);
  }

  /** Some piece of a split with visible characters is non-empty. */
  lemma {:induction false} SomePieceNonEmpty(pieces: seq<string>)
    requires SumLengths(pieces) > 0
    ensures exists k :: 0 <= k < |pieces| && |pieces[k]| > 0
    decreases |pieces|
  {
    if |pieces[0]| == 0 {
      SomePieceNonEmpty(pieces[1..]);
      var k :| 0 <= k < |pieces[1..]| && |pieces[1..][k]| > 0;
      assert |pieces[k + 1]| > 0;
    }
  }

  /** The visible characters of all pieces include those of any one. */
  lemma {:induction false} SumNonWsAt(pieces: seq<string>, k: nat)
    requires k < |pieces|
    ensures CountNonWs(pieces[k]) <= SumNonWs(pieces)
    decreases k
  {
    if k > 0 {
      SumNonWsAt(pieces[1..], k - 1);
      assert pieces[1..][k - 1] == pieces[k];
    }
  }

  /** When every target is visible, the output of a text with a visible
      character has one too. */
  lemma OutputVisible(e: Engine, text: string)
    requires Keyed(e.ruleMap) && VisibleTargets(e.ruleMap) && !AllWs(text)
    ensures CountNonWs(Transliterate(e, text).transliterated) > 0
  {
    var words := Split(text);
    var outs := Outputs(e.ruleMap, words);
    CountNonWsPositive(text);
    SplitKeepsNonWs(text);
    SomePieceNonEmpty(words);
    var k :| 0 <= k < |words| && |words[k]| > 0;
    assert !IsWs(words[k][0]);
    WordOutputVisible(e.ruleMap, words[k]);
    OutputsAt(e.ruleMap, words, k);
    SumNonWsAt(outs, k);
    JoinCountNonWs(outs);
  }

  /** When every target is visible, the confidence of any text is a number
      between 0 and 1. */
  lemma ConfidenceInUnitInterval(e: Engine, text: string)
    requires Keyed(e.ruleMap) && VisibleTargets(e.ruleMap)
    ensures InUnitInterval(Transliterate(e, text).confidence)
  {
    if !AllWs(text) {
      OutputVisible(e, text);
    }
  }

  /** The Hindi engine scores every text between 0 and 1. */
  lemma HindiConfidenceInUnitInterval(text: string)
    ensures NewEngine("hindi").Ok? && Keyed(NewEngine("hindi").value.ruleMap)
      && InUnitInterval(Transliterate(NewEngine("hindi").value, text).confidence)
  {
    var e := NewEngine("hindi").value;
    HindiEngine(e);
    Hindi.IndexWellFormed();
    ConfidenceInUnitInterval(e, text);
  }

  /** With no rules every piece is copied unchanged. */
  lemma {:induction false} OutputsUnmatched(words: seq<string>)
    ensures Outputs(map[], words) == words
    decreases |words|
  {
    if |words| > 0 {
      UnmatchedWordUnchanged(map[], words[0]);
      OutputsUnmatched(words[1..]);
    }
  }

  /** An engine with an empty index leaves blank text as it is and otherwise
      collapses each whitespace run to one space, as `split` then `join`
      do. */
  lemma EmptyIndexCollapses(e: Engine, text: string)
    requires e.ruleMap == map[]
    ensures AllWs(text) ==> Transliterate(e, text).transliterated == text
    ensures !AllWs(text) ==> Transliterate(e, text).transliterated == Collapse(text)
  {
    if !AllWs(text) {
      OutputsUnmatched(Split(text));
      SplitJoinCollapses(text);
    }
  }

  /** A single word has one entry spanning the whole text and the whole
      output. */
  lemma SingleWordMapping(e: Engine, text: string)
    requires Keyed(e.ruleMap) && |text| > 0 && WsFree(text)
    ensures var r := Transliterate(e, text);
      r.mapping == [PositionMapping(0, |text|, 0, |r.transliterated|)]
      && r.transliterated == TransliterateWord(e.ruleMap, text).text
  {
    assert !IsWs(text[0]);
    assert Split(text) == [text];
    OutputsAt(e.ruleMap, [text], 0);
  }

  /** `getSuggestions(text)` with the engine's rule list: every suggestion
      carries confidence 0.8 and the list is in discovery order. */
  function Suggest(e: Engine, text: string): (r: seq<Suggestion>)
    ensures r == Suggestions.Gather(e.rules, Split(text))
    ensures forall k :: 0 <= k < |r| ==> r[k].confidence == Suggestions.AlternativeConfidence
  {
    Suggestions.SuggestionsInDiscoveryOrder(e.rules, text);
    Suggestions.GetSuggestions(e.rules, text)
  }

  /** Every Hindi pattern has a character, so the Hindi engine suggests
      nothing for a one-letter text. */
  lemma HindiSingleLetterNoSuggestions(c: char)
    requires !IsWs(c)
    ensures NewEngine("hindi").Ok? && Suggest(NewEngine("hindi").value, [c]) == []
  {
    HindiEngine(NewEngine("hindi").value);
    Hindi.RulesWellFormed();
    Suggestions.SingleLetterNoSuggestions(Hindi.Rules, c);
  }
}
