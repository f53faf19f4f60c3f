# Xinglish transliteration engine — a Dafny model

This project models the core of Xinglish, which converts Latin-script phonetic
typing into an Indian script. The core has four parts:

- **Rule table.** Hindi is the only language registered. It has 76 phonetic
  rules: vowels, consonants, vowel signs, specials, digits and punctuation.
- **Language registry.** Maps language codes to configurations.
- **Shared types.** Rule, language configuration, result, position mapping
  and suggestion.
- **`TransliterationEngine`.** It:
  - builds a per-first-character rule index, sorted by priority and then
    pattern length;
  - walks each whitespace-separated word greedily, taking the first candidate
    whose case-insensitive `^pattern` regular expression matches, or copying
    the character;
  - joins the word outputs with single spaces;
  - records one position mapping per word;
  - scores the result by coverage and by the share of output characters in
    the script's Unicode block;
  - offers "two-rule combination" suggestions for ambiguous words.

The model is functional. The engine's three private fields form a datatype.
`setLanguage` returns the new engine together with the error it threw, if any.
The loops of `transliterateWord`, `transliterate` and `countTargetScriptChars`
are also written as Dafny methods, each proved equal to its functional
definition:

- `Matcher.TransliterateWordLoop` (the cursor loop of `transliterateWord`)
- `Engine.PiecesLoop` and `Engine.TransliterateLoop` (the word loop of
  `transliterate`)
- `Confidence.CountTargetScriptChars` (the `for … of` loop of
  `countTargetScriptChars`)

The other loops (the bucket loops of `buildRuleMap`, the candidate scan of
`findLongestMatch`, the pair loops of `findAlternatives` and the piece loop of
`getSuggestions`) are modelled by recursive functions only. The matcher takes
the word and the cursor, as `findLongestMatch(text, startPos)` does.

Modules, in dependency order:

| module | file | models |
|---|---|---|
| `Shared` | shared.dfy | the types of `shared.ts`, and a `Result` for thrown errors |
| `Strings` | strings.dfy | ECMAScript whitespace, `split(/\s+/)`, `join`, `trim()` emptiness, `replace(/\s/g, '').length` |
| `RuleIndex` | rule_index.dfy | `buildRuleMap`: buckets by first character, with the comparator of the stable `Array.prototype.sort` |
| `Matcher` | matcher.dfy | `findLongestMatch` and `transliterateWord` |
| `WordWalk` | word_walk.dfy | properties of the word walk |
| `Confidence` | confidence.dfy | `countTargetScriptChars` and `calculateConfidence`, including the division by zero |
| `Hindi` | hindi.dfy | the Hindi configuration and facts about its table |
| `Languages` | languages.dfy | the registry |
| `Suggestions` | suggestions.dfy | `findAlternatives` and `getSuggestions` |
| `Engine` | engine.dfy | construction, `setLanguage`, `getLanguageConfig` and `transliterate` |

Two behaviours of the code that are easy to misread:

- **Case.** A pattern is matched with the `i` flag, so the match is
  case-insensitive. The index lookup uses the exact first character. Only
  rules whose first character is exactly the word's character are tried, and
  they then match without regard to case.
- **Word confidence.** A rule's factor is `priority / 10`. A missing priority
  or a priority of 0 gives 0.8. Hindi priorities are 1 to 3, so every Hindi
  match lowers a word's confidence more than an unmatched character's 0.5
  does. This contradicts the source comment, which calls 0.5 "lower
  confidence" (`Hindi.MatchFactorsBelowCopy`).

## Model

| member | source | states |
|---|---|---|
| Strings.Split | libs/core/src/lib/core.ts:64 | No piece contains whitespace. The first piece is empty exactly when the text is empty or starts with whitespace. Every inner piece is non-empty. |
| Strings.CountNonWsPositive | libs/core/src/lib/core.ts:55 | The text has a non-whitespace character exactly when its `trim()` is non-empty. |
| Strings.SplitKeepsNonWs | libs/core/src/lib/core.ts:64 | Splitting loses only whitespace: the piece lengths add up to the number of non-whitespace characters of the text. |
| Strings.JoinCountNonWs | libs/core/src/lib/core.ts:88 | The non-whitespace count of the space-join is the sum of the pieces' counts. |
| Strings.SplitJoinCollapses | libs/core/src/lib/core.ts:64-88 | Splitting and then joining with `' '` equals an independent reference: every maximal whitespace run becomes one space. |
| Strings.SplitJoinSingleSpaced | libs/core/src/lib/core.ts:64-88 | Text whose whitespace is single spaces between words survives the split and join unchanged. |
| RuleIndex.BuildRuleMap | libs/core/src/lib/core.ts:28-49 | The index is keyed: every rule of a bucket has the bucket's key as its first character. |
| RuleIndex.Sort | libs/core/src/lib/core.ts:40-46 | Sorting a bucket permutes its positions. |
| RuleIndex.SortSorted | libs/core/src/lib/core.ts:41-45 | The sorted bucket is ordered by priority descending, then pattern length descending, then table position (the sort is stable). |
| RuleIndex.BucketPositionsCorrect | libs/core/src/lib/core.ts:31-45 | A bucket holds exactly the positions whose pattern starts with its key, and they are sorted by the comparator. |
| RuleIndex.BucketCorrect | libs/core/src/lib/core.ts:28-49 | Each bucket holds only rules of the table with that first character. It holds every such rule. No rule in it outranks an earlier one. |
| RuleIndex.RuleMapCorrect | libs/core/src/lib/core.ts:28-49 | The keys of the index are the rules' first characters. Each rule is in its own bucket. Every bucket member is a table rule. Buckets are in comparator order. |
| Matcher.PatternWidth | libs/core/src/lib/core.ts:137-138 | A match needs at least as many characters from the cursor on as the pattern stands for, an escape pair counting one. The empty pattern matches at every cursor. |
| Matcher.LiteralMatches | libs/core/src/lib/core.ts:137-138 | A pattern without escapes matches exactly when it is a case-insensitive prefix of the word from the cursor. |
| Matcher.FirstMatchIndex | libs/core/src/lib/core.ts:136-145 | The scan stops inside the bucket or just past it, and a candidate it stops at matches. |
| Matcher.FirstMatchIndexFirst | libs/core/src/lib/core.ts:136-145 | No candidate before the one the scan stops at matches. |
| Matcher.FindLongestMatchFirst | libs/core/src/lib/core.ts:133-145 | Nothing is found exactly when no candidate of the cursor character's bucket matches. Otherwise the rule found is the first matching candidate in bucket order. |
| Matcher.FoundMatches | libs/core/src/lib/core.ts:129-146 | A found rule is a candidate of the cursor character's bucket, and its regular expression matches from the cursor. |
| Matcher.FoundStartsWord | libs/core/src/lib/core.ts:133-141 | In a keyed index, the rule found begins with the cursor character. |
| Matcher.FoundNotDeadEscape | libs/core/src/lib/core.ts:133-141 | A pattern that opens with an escape of a character other than backslash is never found. |
| Matcher.FindLongestMatchIsBest | libs/core/src/lib/core.ts:129-146 | Over the built index: nothing is found exactly when no rule fires. Otherwise the rule found is the best firing rule by (priority, length, table order). |
| Matcher.LaterDuplicateNeverBest | libs/core/src/lib/core.ts:41-45 | A later rule with the same pattern and priority as an earlier one is never the best rule. |
| Matcher.DeadEscapeNeverFires | libs/core/src/lib/core.ts:32-36 | A rule keyed by its leading backslash never fires: the regular expression needs the escaped character, not a backslash. |
| Matcher.StepAdvances | libs/core/src/lib/core.ts:108-117 | In a keyed index every iteration moves the cursor forward, so the loop ends. |
| Matcher.WalkSteps | libs/core/src/lib/core.ts:105-118 | From a cursor inside the word the loop takes at least one step and at most one per remaining character. From the end it takes none. |
| Matcher.WalkMatched | libs/core/src/lib/core.ts:108-111 | After a match the walk emits the rule and goes on from the cursor advanced by the pattern's length. |
| Matcher.WalkCopied | libs/core/src/lib/core.ts:112-117 | Without a match the walk copies the character under the cursor and goes on from the next character. |
| Matcher.TransliterateWord | libs/core/src/lib/core.ts:97-124 | The word confidence is at most 1. The empty word gives the empty text with confidence 1. |
| Matcher.MissingPriorityReadsAsZero | libs/core/src/lib/core.ts:42 | A rule without a priority sorts as priority 0, and like priority 0 it contributes the factor 0.8. |
| Matcher.LoopStep | libs/core/src/lib/core.ts:106-117 | One loop iteration emits the next step's text and factor, and advances by at least one character. |
| Matcher.TransliterateWordLoop | libs/core/src/lib/core.ts:101-123 | The cursor loop yields exactly the text and confidence of the functional walk. |
| WordWalk.FoundIsPrefix | libs/core/src/lib/core.ts:137-138 | With literal patterns, a found rule's pattern is a case-insensitive prefix of the word from the cursor. |
| WordWalk.WalkCoversWord | libs/core/src/lib/core.ts:105-118 | The patterns and copied characters of the walk spell the whole word, up to case. |
| WordWalk.WalkLength | libs/core/src/lib/core.ts:105-118 | The walk consumes exactly as many characters as the word has. |
| WordWalk.UnmatchedWordUnchanged | libs/core/src/lib/core.ts:112-117 | A word none of whose characters opens a bucket is copied unchanged, with confidence 0.5 to the power of its length. |
| WordWalk.WordConfidenceUnit | libs/core/src/lib/core.ts:103-122 | With priorities in 0..10, a word's confidence lies in [0, 1]. |
| WordWalk.WordOutputVisible | libs/core/src/lib/core.ts:105-121 | With visible targets, a word starting with a visible character has a visible output. |
| Confidence.CountTargetScriptChars | libs/core/src/lib/core.ts:174-186 | The loop counts exactly the characters inside the block, bounds inclusive, and never more than the text's length. |
| Confidence.CountInRangeAll | libs/core/src/lib/core.ts:176-184 | The count is at most the length. It equals the length exactly when every character is in the block. |
| Confidence.CountInRangeVisible | libs/core/src/lib/core.ts:165 | For a block without whitespace, the in-block count is at most the visible count. |
| Confidence.CalculateConfidence | libs/core/src/lib/core.ts:151-169 | Blank original: 1. Visible original and invisible output: NaN exactly when no output character is in the block. Visible output: a number in [0, 1]. |
| Confidence.FullScore | libs/core/src/lib/core.ts:162-168 | For a visible output, the score is 1 exactly when the output has at least as many visible characters as the original and all of them are in the block. |
| Confidence.InScriptOutputScoresOne | libs/core/src/lib/core.ts:156-168 | An all-in-block output as long as the original's visible part scores 1. |
| Hindi.RulesWellFormed | libs/shared/src/lib/languages/hindi.ts:14-102 | Every Hindi rule has a non-empty target inside the Devanagari block and a priority of 1 to 3. Its pattern is non-empty, and is ASCII letters and digits or a single escape. |
| Hindi.RangeHoldsNoWhitespace | libs/shared/src/lib/languages/hindi.ts:10-13 | The block U+0900..U+097F holds no whitespace character. |
| Hindi.IndexWellFormed | libs/shared/src/lib/languages/hindi.ts:14-102 | The Hindi index is keyed and holds only plain patterns, visible targets and priorities within 0..10. |
| Hindi.MatchFactorsBelowCopy | libs/core/src/lib/core.ts:111-116 | Every Hindi match multiplies the word confidence by 0.1 to 0.3, below the 0.5 of a copied character. |
| Hindi.VowelSignsRepeatVowels | libs/shared/src/lib/languages/hindi.ts:65-76 | Each vowel-sign rule repeats the pattern and priority of a vowel-letter rule, with a different target. |
| Hindi.GroupPositions | libs/shared/src/lib/languages/hindi.ts:14-102 | The table has 76 rules, grouped in declaration order at fixed positions. |
| Hindi.ShadowedRulesNeverChosen | libs/shared/src/lib/languages/hindi.ts:65-101 | No vowel sign and not the second `L` rule is ever the best rule, and the two punctuation rules never fire, whatever the text. |
| Languages.GetLanguageConfig | libs/shared/src/lib/languages/index.ts:22-28 | The lookup succeeds exactly for `hindi`, with the Hindi configuration. Every other code fails with "Language configuration not found for: <code>". |
| Languages.GetSupportedLanguages | libs/shared/src/lib/languages/index.ts:33-35 | A code is listed exactly when looking it up succeeds. |
| Languages.IsLanguageSupported | libs/shared/src/lib/languages/index.ts:40-42 | The membership test holds exactly when looking the code up succeeds. |
| Languages.Codes | libs/shared/src/lib/languages/index.ts:33-35 | The supported codes are the registry's codes in declaration order. |
| Languages.Lookup | libs/shared/src/lib/languages/index.ts:22-28 | A lookup succeeds exactly when the code is registered, and then returns that entry's configuration. Otherwise it fails with the "not found" message naming the code. |
| Languages.SupportedIffFound | libs/shared/src/lib/languages/index.ts:40-42 | A code is supported exactly when looking it up succeeds. An unsupported code's lookup fails with the message naming it. |
| Languages.LookupFindsEntry | libs/shared/src/lib/languages/index.ts:22-28 | With distinct codes, looking up an entry's code yields that entry's configuration. |
| Languages.SupportedLanguagesAreKnown | libs/shared/src/lib/languages/index.ts:7-17 | The registry's codes are distinct `SupportedLanguage` members. Only `hindi` is registered, so some members are unsupported. |
| Languages.HindiRegistered | libs/shared/src/lib/languages/hindi.ts:6-13 | Looking up `hindi` yields the Hindi configuration, with its code, name, script name, table and block U+0900..U+097F. |
| Suggestions.FindAlternatives | libs/core/src/lib/core.ts:210-236 | No combined text is kept twice, and every alternative carries confidence 0.8. |
| Suggestions.PairsOrdered | libs/core/src/lib/core.ts:215-216 | Every visited pair (i, j) has i < j < n. |
| Suggestions.PairsComplete | libs/core/src/lib/core.ts:215-216 | Every pair i < j < n is visited. |
| Suggestions.CollectSound | libs/core/src/lib/core.ts:221-230 | Every alternative collected is explained by a pair that spells the word. Texts are distinct and not previously seen. |
| Suggestions.CollectComplete | libs/core/src/lib/core.ts:221-230 | A visited pair that spells the word has its combined target among the collected or seen texts. |
| Suggestions.AlternativesCharacterized | libs/core/src/lib/core.ts:210-236 | The alternatives are explained, their texts are distinct, and every ordered spelling pair's combined target is among them. |
| Suggestions.AlternativesInDiscoveryOrder | libs/core/src/lib/core.ts:210-236 | Alternatives come in the order in which the `i`, `j` loops first spell their texts. Each carries the targets and explanation of its first spelling pair; later pairs that spell the same text are dropped. |
| Suggestions.ShortWordNoAlternatives | libs/core/src/lib/core.ts:215-221 | With non-empty patterns, a word of at most one character has no alternative. |
| Suggestions.GatherMembers | libs/core/src/lib/core.ts:195-202 | A suggestion is gathered exactly when it is an alternative of a piece that has more than one alternative. |
| Suggestions.GetSuggestions | libs/core/src/lib/core.ts:191-205 | The result is a permutation of the alternatives of the pieces that have more than one, in descending confidence. |
| Suggestions.SortSorted | libs/core/src/lib/core.ts:204 | The sort permutes the suggestions into descending confidence. |
| Suggestions.SortUniform | libs/core/src/lib/core.ts:204 | When all confidences are equal, the stable sort leaves the list unchanged. |
| Suggestions.SuggestionsInDiscoveryOrder | libs/core/src/lib/core.ts:191-205 | Because every alternative has confidence 0.8, the suggestions come out in piece order, then discovery order. |
| Suggestions.SingleLetterNoSuggestions | libs/core/src/lib/core.spec.ts:74-77 | With non-empty patterns, a one-letter text has no suggestions. |
| Engine.NewEngine | libs/core/src/lib/core.ts:19-23 | Construction succeeds exactly for registered codes, with the registry's configuration, its rules and their index. Otherwise it throws "Language configuration not found for: <code>". |
| Engine.SetLanguage | libs/core/src/lib/core.ts:248-252 | A registered code installs its configuration, rules and index. An unregistered one throws the message and leaves every field unchanged. |
| Engine.ConfigInstalled | libs/core/src/lib/core.ts:241-252 | `getLanguageConfig()` returns the configuration installed last. After construction it is the registry's entry for the code. After a successful `setLanguage` it is the entry for the new code. After a failed one it is the configuration from before. |
| Engine.HindiEngine | libs/core/src/lib/core.spec.ts:80-94 | Constructing a Hindi engine, or switching any engine to Hindi, makes `getLanguageConfig()` return the Hindi configuration. |
| Engine.Transliterate | libs/core/src/lib/core.ts:54-92 | The original text is kept. Blank text comes back unchanged, with no mapping and confidence 1. Otherwise there is one mapping entry per piece of the split. |
| Engine.Outputs | libs/core/src/lib/core.ts:70-72 | There is one output per piece. |
| Engine.Mapping | libs/core/src/lib/core.ts:74-83 | There is one mapping entry per piece. |
| Engine.OutputsAt | libs/core/src/lib/core.ts:70-72 | Output k is the word transliteration of piece k. |
| Engine.MappingEntry | libs/core/src/lib/core.ts:75-83 | Entry k starts at piece k's offset in the single-space join of the pieces. Its output offset is the sum of the earlier outputs' lengths, with no separators counted. |
| Engine.MappingShape | libs/core/src/lib/core.ts:75-83 | Both texts start at 0. Each entry spans its piece and its output. Consecutive entries are one character apart in the original and adjacent in the output. |
| Engine.PiecesLoop | libs/core/src/lib/core.ts:64-84 | The loop with two running offsets pushes exactly the outputs and the mapping of the functional definition. |
| Engine.TransliterateLoop | libs/core/src/lib/core.ts:54-92 | The imperative `transliterate` returns exactly the functional result. |
| Engine.JoinLocates | libs/core/src/lib/core.ts:88 | In the space-join, piece k sits at its join offset and is followed by a space unless it is last. |
| Engine.OriginalOffsetsLocateWords | libs/core/src/lib/core.ts:75-83 | On single-spaced text, each entry's original span is exactly its piece of the text. |
| Engine.SecondEntryAtSeparator | libs/core/src/lib/core.ts:78-88 | As written, with at least two pieces, the second entry's output offset points at the separating space. |
| Engine.OutputOffsetsDrift | libs/core/src/lib/core.ts:78-88 | As written, entry k's output offset falls short of its output's position in the joined text by exactly k. |
| Engine.TransliterateFixed | libs/core/src/lib/core.ts:54-92 | The corrected `transliterate` keeps the original text, and a text that is not blank gets one entry per piece. |
| Engine.FixedMappingLocates | libs/core/src/lib/core.ts:75-88 | With the output offset also advanced past the separator, every entry's output span is exactly its piece's output. Text and confidence are unchanged. |
| Engine.OutputVisible | libs/core/src/lib/core.ts:88-90 | With visible targets, text that has a visible character has a visible output. |
| Engine.ConfidenceInUnitInterval | libs/shared/src/lib/shared.ts:62-63 | With visible targets, the confidence of any text is a number in [0, 1]. |
| Engine.HindiConfidenceInUnitInterval | libs/shared/src/lib/shared.ts:62-63 | The Hindi engine's confidence is a number in [0, 1] for every text. |
| Engine.EmptyIndexCollapses | libs/core/src/lib/core.ts:64-88 | With no rules, blank text is returned as is. Otherwise the output is the text with each whitespace run collapsed to one space. |
| Engine.SingleWordMapping | libs/core/src/lib/core.spec.ts:60-65 | A single word has exactly one entry, spanning the whole text and the whole output. |
| Engine.Suggest | libs/core/src/lib/core.ts:191-205 | The engine's suggestions are exactly the gathered alternatives in piece order, because the sort meets equal confidences only. Each has confidence 0.8. |
| Engine.HindiSingleLetterNoSuggestions | libs/core/src/lib/core.spec.ts:74-77 | The Hindi engine suggests nothing for a single visible letter. |

## Left out

- **Editor and UI code.** The editor controller, the React and Angular
  bindings, the playground app and the script-level smoke test are callers of
  the engine, not part of it.
- **UTF-16.** Strings are sequences of Unicode scalar values, not UTF-16 code
  units. `length`, `word[pos]`, `charCodeAt(0)` and `for … of` agree with the
  model for text inside the Basic Multilingual Plane only.
- **Regular expressions.** Only two kinds of pattern are modelled: a literal,
  or a pattern opening with a backslash escape of one character. These are the
  only kinds the Hindi table uses. Unescaped metacharacters (`.`, `|`, `*`, …)
  and word boundaries are not modelled.
  - Case folding is ASCII only. The `i` flag of JavaScript also folds non-ASCII
    letters, such as `é` and `É`.
  - Every escape `\x` is read as the literal character `x`. JavaScript reads
    `\d`, `\w`, `\s` and `\b` as classes or assertions.
  - Neither difference shows with the Hindi table: its patterns are ASCII, and
    its only escapes are `\.` and `\|`.
- **Number arithmetic.** JavaScript numbers are modelled as exact reals, so
  IEEE rounding is not modelled. The one case where Infinity or NaN arises, a
  zero divisor in the confidence, is written out explicitly as the `Score`
  datatype. Priorities are integers: a JavaScript priority may be fractional,
  such as 2.5. Every Hindi priority is an integer.
- **`wordBoundary`.** The field is carried in `Rule` but never read, because
  the source never reads it.
- **Prototype properties.** The registry's `in` test and property read see
  `Object.prototype` members (for example `toString`). The model treats the
  registry as exactly its declared entries.
- **Mutable state.** The engine's mutable fields are modelled by returning a
  new engine value. Aliasing of the configuration object returned by
  `getLanguageConfig()` is not modelled.
- **Unverified test expectations.** The tests expecting `namaste` to give
  `नमस्ते` (libs/core/src/lib/core.spec.ts:26-37) are not stated. Neither are
  the tests about `hello123!` (libs/core/src/lib/core.spec.ts:53-58) and the
  mixed-text confidence (libs/core/src/lib/core.spec.ts:103-106). Each needs
  the concrete result of the 76-rule table on a specific word, and the model
  proves table-wide properties instead.
- Matcher.TransliterateWord: its own contract states only the upper bound and
  the empty word. Coverage, length, the unmatched case, the confidence range
  and visibility are stated by the `WordWalk` lemmas.
- Engine.Transliterate: its own contract states only the blank case and the
  number of entries. The entries, their offsets and the confidence range are
  stated by the `Engine` lemmas that follow it.

## Findings

| source | as written | input that shows it | evidently intended | confidence | as-written member | corrected member |
|---|---|---|---|---|---|---|
| libs/core/src/lib/core.ts:82 | The output offset advances by the word output's length only. The join at line 88 puts a space between outputs, so entry k's `transliteratedStart` is k characters short of its output. | `transliterate("a b")` with the Hindi table gives `"अ ब"`. The second entry has `transliteratedStart` 1, the position of the space; the `ब` is at 2. | The output offset also advances by 1 for the separator, as the original offset does at line 83. Each output span then delimits its word's output in the joined text. | not executed | Engine.SecondEntryAtSeparator | Engine.FixedMappingLocates |
