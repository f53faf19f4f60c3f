/**
 The shared data model of the transliteration engine: phonetic rules,
 language configurations, results, position mappings and suggestions,
 together with the small Option/Result wrappers the engine uses for
 absent fields and for the registry's "not found" failure.
 */
module Shared {

  datatype Option<+T> = None | Some(value: T)

  /** A computation that either yields a value or fails with a message,
      standing for a JavaScript `throw new Error(message)`. */
  datatype Result<+T> = Ok(value: T) | Err(message: string)

  /** The eight language codes of the `SupportedLanguage` union type, in
      declaration order. Only some of them have a registered table. */
  const KnownLanguages: seq<string> :=
    ["hindi", "telugu", "tamil", "kannada", "malayalam", "bengali", "marathi", "gujarati"]

  /** One phonetic rule. `priority` and `wordBoundary` are optional in the
      source; the engine never reads `wordBoundary`. */
  datatype Rule = Rule(pattern: string, target: string, priority: Option<int>, wordBoundary: Option<bool>)

  /** Inclusive code-point bounds of a script block. */
  datatype UnicodeRange = UnicodeRange(start: int, end: int)

  datatype LanguageConfig = LanguageConfig(
    code: string,
    name: string,
    scriptName: string,
    rules: seq<Rule>,
    unicodeRange: UnicodeRange)

  datatype PositionMapping = PositionMapping(
    originalStart: int,
    originalEnd: int,
    transliteratedStart: int,
    transliteratedEnd: int)

  /** A JavaScript number as far as the engine's arithmetic can produce it:
      a real value, or NaN from a division 0/0. */
  datatype Score = Num(value: real) | NaN

  datatype TransliterationResult = TransliterationResult(
    original: string,
    transliterated: string,
    mapping: seq<PositionMapping>,
    confidence: Score)

  datatype Suggestion = Suggestion(text: string, confidence: real, explanation: Option<string>)

  /** The priority as the engine orders by it: an absent priority counts as 0. */
  function PriorityKey(r: Rule): int
  {
    match r.priority
    case Some(p) => p
    case None => 0
  }

  /** Both spans of a mapping entry are well-formed intervals. */
  predicate WellFormedMapping(m: PositionMapping)
  {
    m.originalStart <= m.originalEnd && m.transliteratedStart <= m.transliteratedEnd
  }

  /** A score documented as lying in [0,1]. */
  predicate InUnitInterval(s: Score)
  {
    s.Num? && 0.0 <= s.value <= 1.0
  }
}
