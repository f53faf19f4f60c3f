/**
 The greedy matcher: `findLongestMatch` scans the bucket of the current
 character and returns the first rule whose pattern, used as the regular
 expression `^pattern` with the `i` flag, matches the rest of the word;
 `transliterateWord` walks a word left to right with it.

 Patterns are modelled as the regular-expression fragments the tables use:
 literal characters and backslash escapes (`\.` matches a full stop), both
 compared under ASCII case folding.
 */
module Matcher {
  import opened Shared
  import opened RuleIndex

  /** ASCII upper-casing, the canonicalisation of a case-insensitive
      regular expression on ASCII characters. */
  function Upper(c: char): char
  {
    if 'a' <= c <= 'z' then (c as int - 32) as char else c
  }

  predicate FoldEq(a: char, b: char)
  {
    Upper(a) == Upper(b)
  }

  predicate FoldEqSeq(a: string, b: string)
  {
    |a| == |b| && forall i :: 0 <= i < |a| ==> FoldEq(a[i], b[i])
  }

  /** How many characters of the text a pattern consumes: an escape pair
      stands for one character. */
  function Width(pattern: string): nat
    decreases |pattern|
  {
    if |pattern| == 0 then 0
    else if pattern[0] == '\\' && |pattern| >= 2 then 1 + Width(pattern[2..])
    else 1 + Width(pattern[1..])
  }

  /** The regular expression from position `i` of the pattern matches the
      text from position `j`: an escape pair demands its second character,
      any other character demands itself, both up to case. */
  predicate MatchesFrom(pattern: string, i: nat, s: string, j: nat)
    decreases |pattern| - i
  {
    if i >= |pattern| then true
    else if j >= |s| then false
    else if pattern[i] == '\\' && i + 1 < |pattern| then
      FoldEq(pattern[i + 1], s[j]) && MatchesFrom(pattern, i + 2, s, j + 1)
    else
      FoldEq(pattern[i], s[j]) && MatchesFrom(pattern, i + 1, s, j + 1)
  }

  /** `text.slice(start).match(new RegExp('^' + pattern, 'i'))` succeeds. */
  predicate PatternMatches(pattern: string, text: string, start: nat)
  {
    MatchesFrom(pattern, 0, text, start)
  }

  /** A match from position `i` needs as many characters of the text as the
      rest of the pattern stands for. */
  lemma {:induction false} WidthFrom(pattern: string, i: nat, s: string, j: nat)
    requires i <= |pattern| && j <= |s|
    ensures MatchesFrom(pattern, i, s, j) ==> Width(pattern[i..]) <= |s| - j
    decreases |pattern| - i
  {
    if i < |pattern| && j < |s| {
      if pattern[i] == '\\' && i + 1 < |pattern| {
        WidthFrom(pattern, i + 2, s, j + 1);
        assert pattern[i..][2..] == pattern[i + 2..];
      } else {
        WidthFrom(pattern, i + 1, s, j + 1);
        assert pattern[i..][1..] == pattern[i + 1..];
      }
    }
  }

  /** A match needs at least as many characters after the start as the
      pattern stands for, and the empty pattern matches everywhere. */
  lemma PatternWidth(pattern: string, text: string, start: nat)
    requires start <= |text|
    ensures PatternMatches(pattern, text, start) ==> start + Width(pattern) <= |text|
    ensures |pattern| == 0 ==> PatternMatches(pattern, text, start)
  {
    WidthFrom(pattern, 0, text, start);
    assert pattern[0..] == pattern;
  }

  /** A pattern without escapes: it matches itself literally. */
  predicate Literal(pattern: string)
  {
    forall i :: 0 <= i < |pattern| ==> pattern[i] != '\\'
  }

  /** A pattern that starts with an escape of something other than a
      backslash: its bucket key is a backslash, which its regular expression
      does not accept. */
  predicate DeadEscape(pattern: string)
  {
    |pattern| >= 2 && pattern[0] == '\\' && pattern[1] != '\\'
  }

  /** From any position, a literal pattern matches exactly when its rest
      equals the text from `j` up to case. */
  lemma {:induction false} LiteralFrom(p: string, i: nat, s: string, j: nat)
    requires Literal(p) && i <= |p| && j <= |s|
    ensures MatchesFrom(p, i, s, j) <==>
      |p| - i <= |s| - j && forall k :: i <= k < |p| ==> FoldEq(p[k], s[k - i + j])
    decreases |p| - i
  {
    if i < |p| && j < |s| {
      LiteralFrom(p, i + 1, s, j + 1);
    }
  }

  /** A literal pattern matches exactly when it is a case-insensitive prefix
      of the text from the start. */
  lemma LiteralMatches(p: string, text: string, start: nat)
    requires Literal(p) && start <= |text|
    ensures PatternMatches(p, text, start) <==>
      start + |p| <= |text| && FoldEqSeq(p, text[start..start + |p|])
  {
    LiteralFrom(p, 0, text, start);
    if start + |p| <= |text| {
      var seg := text[start..start + |p|];
      assert forall k :: 0 <= k < |p| ==> seg[k] == text[k - 0 + start];
    }
  }

  /** The bucket for the character at the start, or no candidates: past the
      end the character is `undefined` and no bucket has that key. */
  function Candidates(m: RuleMap, text: string, start: nat): seq<Rule>
  {
    if start < |text| && [text[start]] in m then m[[text[start]]] else []
  }

  /** Position of the first candidate from `i` on whose pattern matches,
      `|cands|` if none. */
  function FirstMatchFrom(cands: seq<Rule>, text: string, start: nat, i: nat): (n: nat)
    requires i <= |cands|
    ensures i <= n <= |cands|
    ensures n < |cands| ==> PatternMatches(cands[n].pattern, text, start)
    decreases |cands| - i
  {
    if i == |cands| then i
    else if PatternMatches(cands[i].pattern, text, start) then i
    else FirstMatchFrom(cands, text, start, i + 1)
  }

  /** Position of the first candidate whose pattern matches, `|cands|` if none. */
  function FirstMatchIndex(cands: seq<Rule>, text: string, start: nat): (n: nat)
    ensures n <= |cands|
    ensures n < |cands| ==> PatternMatches(cands[n].pattern, text, start)
  {
    FirstMatchFrom(cands, text, start, 0)
  }

  /** The scan from `i` passes over no matching candidate. */
  lemma {:induction false} FirstMatchFromFirst(cands: seq<Rule>, text: string, start: nat, i: nat)
    requires i <= |cands|
    ensures forall k :: i <= k < FirstMatchFrom(cands, text, start, i) ==>
      !PatternMatches(cands[k].pattern, text, start)
    decreases |cands| - i
  {
    if i < |cands| && !PatternMatches(cands[i].pattern, text, start) {
      FirstMatchFromFirst(cands, text, start, i + 1);
    }
  }

  /** The scan passes over no matching candidate: every candidate before
      the position found fails to match. */
  lemma FirstMatchIndexFirst(cands: seq<Rule>, text: string, start: nat)
    ensures forall k :: 0 <= k < FirstMatchIndex(cands, text, start) ==>
      !PatternMatches(cands[k].pattern, text, start)
  {
    FirstMatchFromFirst(cands, text, start, 0);
  }

  /** `findLongestMatch(text, startPos)`: no result when the bucket is
      missing or no candidate matches, else the first matching candidate in
      bucket order. */
  function FindLongestMatch(m: RuleMap, text: string, start: nat): Option<Rule>
  {
    var cands := Candidates(m, text, start);
    var n := FirstMatchIndex(cands, text, start);
    if n < |cands| then Some(cands[n]) else None
  }

  /** A found rule is a candidate of the start character's bucket, and its
      pattern matches the text from the start. */
  lemma FoundMatches(m: RuleMap, text: string, start: nat)
    ensures FindLongestMatch(m, text, start).Some? ==>
      FindLongestMatch(m, text, start).value in Candidates(m, text, start)
      && PatternMatches(FindLongestMatch(m, text, start).value.pattern, text, start)
  {
  }

  /** The scan returns the first candidate in bucket order whose pattern
      matches, and nothing exactly when no candidate matches. */
  lemma FindLongestMatchFirst(m: RuleMap, text: string, start: nat)
    ensures FindLongestMatch(m, text, start).None? <==>
      forall k :: 0 <= k < |Candidates(m, text, start)| ==>
        !PatternMatches(Candidates(m, text, start)[k].pattern, text, start)
    ensures FindLongestMatch(m, text, start).Some? ==> exists n :: (0 <= n < |Candidates(m, text, start)|
      && Candidates(m, text, start)[n] == FindLongestMatch(m, text, start).value
      && forall k :: 0 <= k < n ==> !PatternMatches(Candidates(m, text, start)[k].pattern, text, start))
  {
    FirstMatchIndexFirst(Candidates(m, text, start), text, start);
  }

  /** In a keyed index the rule found starts with the start character, so
      the cursor advances. */
  lemma FoundStartsWord(m: RuleMap, text: string, start: nat)
    requires Keyed(m)
    ensures FindLongestMatch(m, text, start).Some? ==>
      var p := FindLongestMatch(m, text, start).value.pattern;
      start < |text| && |p| >= 1 && p[0] == text[start]
  {
    var r := FindLongestMatch(m, text, start);
    if r.Some? {
      KeyedAt(m, [text[start]], FirstMatchIndex(m[[text[start]]], text, start));
      assert Key(r.value.pattern) == [text[start]];
    }
  }

  /** A dead escape is never found: the bucket demands a backslash and the
      escape demands another character. */
  lemma FoundNotDeadEscape(m: RuleMap, text: string, start: nat)
    requires Keyed(m)
    ensures FindLongestMatch(m, text, start).Some? ==> !DeadEscape(FindLongestMatch(m, text, start).value.pattern)
  {
    FoundStartsWord(m, text, start);
  }

  /** One step of the walk: a matched rule or a character copied unchanged. */
  datatype Token = Matched(rule: Rule) | Copied(c: char)

  /** The step the loop takes at cursor `pos`: the rule found there, or the
      character under the cursor. */
  function Step(m: RuleMap, word: string, pos: nat): Token
    requires pos < |word|
  {
    match FindLongestMatch(m, word, pos)
    case Some(r) => Matched(r)
    case None => Copied(word[pos])
  }

  /** How far a step moves the cursor: the pattern length, or one. */
  function Advance(t: Token): nat
  {
    match t
    case Matched(r) => |r.pattern|
    case Copied(_) => 1
  }

  /** In a keyed index every step moves the cursor. */
  lemma StepAdvances(m: RuleMap, word: string, pos: nat)
    requires Keyed(m) && pos < |word|
    ensures Advance(Step(m, word, pos)) >= 1
  {
    FoundStartsWord(m, word, pos);
  }

  /** The steps of the `while (pos < word.length)` loop of `transliterateWord`
      from cursor `pos`: the cursor moves, the word stays. */
  function Walk(m: RuleMap, word: string, pos: nat): seq<Token>
    requires Keyed(m)
    decreases |word| - pos
  {
    if pos >= |word| then []
    else
      var t := Step(m, word, pos);
      StepAdvances(m, word, pos);
      [t] + Walk(m, word, pos + Advance(t))
  }

  /** Every step advances the cursor by at least one character, so the walk
      from a cursor inside the word takes at most one step per remaining
      character and at least one; from the end it takes none. */
  lemma {:induction false} WalkSteps(m: RuleMap, word: string, pos: nat)
    requires Keyed(m)
    ensures pos < |word| ==> |Walk(m, word, pos)| <= |word| - pos
    ensures pos < |word| <==> |Walk(m, word, pos)| > 0
    decreases |word| - pos
  {
    if pos < |word| {
      StepAdvances(m, word, pos);
      WalkSteps(m, word, pos + Advance(Step(m, word, pos)));
    }
  }

  /** The walk from a cursor inside the word is the step taken there, then
      the walk from the advanced cursor. */
  lemma WalkUnfold(m: RuleMap, word: string, pos: nat)
    requires Keyed(m) && pos < |word|
    ensures Walk(m, word, pos) == [Step(m, word, pos)] + Walk(m, word, pos + Advance(Step(m, word, pos)))
  {
  }

  /** One step of the walk on a match: the rule, then the walk from the
      cursor advanced by the pattern length. */
  lemma WalkMatched(m: RuleMap, word: string, pos: nat, r: Rule)
    requires Keyed(m) && pos < |word| && FindLongestMatch(m, word, pos) == Some(r)
    ensures Walk(m, word, pos) == [Matched(r)] + Walk(m, word, pos + |r.pattern|)
  {
    WalkUnfold(m, word, pos);
    assert Step(m, word, pos) == Matched(r);
  }

  /** One step of the walk without a match: the character, then the walk
      from the next character. */
  lemma WalkCopied(m: RuleMap, word: string, pos: nat)
    requires Keyed(m) && pos < |word| && FindLongestMatch(m, word, pos) == None
    ensures Walk(m, word, pos) == [Copied(word[pos])] + Walk(m, word, pos + 1)
  {
  }

  function TokenText(t: Token): string
  {
    match t
    case Matched(r) => r.target
    case Copied(c) => [c]
  }

  /** The part of the word a step consumed: the pattern or the character. */
  function TokenSource(t: Token): string
  {
    match t
    case Matched(r) => r.pattern
    case Copied(c) => [c]
  }

  function Emit(ts: seq<Token>): string
  {
    if |ts| == 0 then "" else TokenText(ts[0]) + Emit(ts[1..])
  }

  function SourceText(ts: seq<Token>): string
  {
    if |ts| == 0 then "" else TokenSource(ts[0]) + SourceText(ts[1..])
  }

  /** `priority / 10` as a JavaScript number. */
  function Tenth(p: int): real
  {
    p as real / 10.0
  }

  /** The confidence factor of a match: `priority / 10`, or 0.8 when the
      priority is absent or 0. */
  function StepFactor(r: Rule): real
  {
    match r.priority
    case Some(p) => if p != 0 then Tenth(p) else 0.8
    case None => 0.8
  }

  /** A missing priority reads as 0 in the bucket order and, like 0, as the
      factor 0.8 in the word confidence. */
  lemma MissingPriorityReadsAsZero(r: Rule)
    requires r.priority.None?
    ensures PriorityKey(r) == PriorityKey(r.(priority := Some(0))) == 0
    ensures StepFactor(r) == StepFactor(r.(priority := Some(0))) == 0.8
    ensures forall b: Rule :: Outranks(b, r) <==> Outranks(b, r.(priority := Some(0)))
  {
  }

  function Factor(t: Token): real
  {
    match t
    case Matched(r) => StepFactor(r)
    case Copied(_) => 0.5
  }

  /** The running confidence after the steps `ts`, starting from `acc`:
      the factors are multiplied in in walk order, as the loop does. */
  function Running(ts: seq<Token>, acc: real): real
  {
    if |ts| == 0 then acc else Running(ts[1..], acc * Factor(ts[0]))
  }

  /** `Math.min(x, 1.0)`. */
  function Clamp(x: real): real
  {
    if x < 1.0 then x else 1.0
  }

  datatype WordResult = WordResult(text: string, confidence: real)

  /** `transliterateWord`: the emitted text of the walk and its clamped
      confidence product. */
  function TransliterateWord(m: RuleMap, w: string): (r: WordResult)
    requires Keyed(m)
    ensures r.confidence <= 1.0
    ensures |w| == 0 ==> r == WordResult("", 1.0)
  {
    var ts := Walk(m, w, 0);
    WordResult(Emit(ts), Clamp(Running(ts, 1.0)))
  }

  lemma ConcatAssoc<T>(a: seq<T>, b: seq<T>, c: seq<T>)
    ensures a + (b + c) == (a + b) + c
  {
  }

  /** One more step of the walk keeps the text invariant: the emitted text
      grows by the step's text. */
  lemma EmitKeeps(all: seq<Token>, rest: seq<Token>, t: Token, next: seq<Token>, result: string, piece: string, result': string)
    requires rest == [t] + next && piece == TokenText(t) && result' == result + piece
    requires Emit(all) == result + Emit(rest)
    ensures Emit(all) == result' + Emit(next)
  {
    assert rest[0] == t && rest[1..] == next;
    assert Emit(rest) == piece + Emit(next);
    ConcatAssoc(result, piece, Emit(next));
  }

  /** One more step of the walk keeps the confidence invariant: the running
      confidence takes the step's factor. */
  lemma RunningKeeps(all: seq<Token>, rest: seq<Token>, t: Token, next: seq<Token>, conf: real, f: real, conf': real)
    requires rest == [t] + next && f == Factor(t) && conf' == conf * f
    requires Running(all, 1.0) == Running(rest, conf)
    ensures Running(all, 1.0) == Running(next, conf')
  {
    assert |rest| > 0 && rest[0] == t && rest[1..] == next;
    assert Running(rest, conf) == Running(rest[1..], conf * Factor(rest[0]));
    assert conf * Factor(rest[0]) == conf';
  }

  /** One iteration of the source's loop body at cursor `pos`: the piece
      pushed, the cursor advance and the confidence factor, all those of
      the next step of the walk. */
  method LoopStep(m: RuleMap, word: string, pos: nat) returns (piece: string, advance: nat, factor: real, ghost t: Token)
    requires Keyed(m) && pos < |word|
    ensures advance >= 1
    ensures Walk(m, word, pos) == [t] + Walk(m, word, pos + advance)
    ensures piece == TokenText(t) && factor == Factor(t)
  {
    var found := FindLongestMatch(m, word, pos);
    StepAdvances(m, word, pos);
    match found {
      case Some(rule) =>
        piece, advance, factor, t := rule.target, |rule.pattern|, StepFactor(rule), Matched(rule);
      case None =>
        piece, advance, factor, t := [word[pos]], 1, 0.5, Copied(word[pos]);
    }
  }

  /** The source's loop: cursor, pushed pieces and running confidence. */
  method TransliterateWordLoop(m: RuleMap, word: string) returns (text: string, confidence: real)
    requires Keyed(m)
    ensures WordResult(text, confidence) == TransliterateWord(m, word)
  {
    var result := "";
    var pos: nat := 0;
    var conf := 1.0;
    while pos < |word|
      invariant Emit(Walk(m, word, 0)) == result + Emit(Walk(m, word, pos))
      invariant Running(Walk(m, word, 0), 1.0) == Running(Walk(m, word, pos), conf)
      decreases |word| - pos
    {
      var piece, advance, factor, t := LoopStep(m, word, pos);
      var result', pos', conf' := result + piece, pos + advance, conf * factor;
      EmitKeeps(Walk(m, word, 0), Walk(m, word, pos), t, Walk(m, word, pos'), result, piece, result');
      RunningKeeps(Walk(m, word, 0), Walk(m, word, pos), t, Walk(m, word, pos'), conf, factor, conf');
      result, pos, conf := result', pos', conf';
    }
    assert result + "" == result;
    text := result;
    confidence := Clamp(conf);
  }

  /** A rule fires at `start`: its key is the character there
      (case-sensitive) and its regular expression matches from there. */
  predicate Fires(rules: seq<Rule>, text: string, start: nat, i: int)
  {
    0 <= i < |rules| && start < |text| && Key(rules[i].pattern) == [text[start]]
    && PatternMatches(rules[i].pattern, text, start)
  }

  /** Position `i` fires and comes first among the firing positions by
      (priority, pattern length) descending, ties to the lowest position. */
  predicate IsBest(rules: seq<Rule>, text: string, start: nat, i: int)
  {
    Fires(rules, text, start, i)
    && forall j :: 0 <= j < |rules| && Fires(rules, text, start, j) && j != i ==> Before(rules, i, j)
  }

  /** A scan over table positions sorted by `Before` that holds every firing
      position: the first position whose pattern matches is the best one. */
  lemma FirstMatchIsBest(rules: seq<Rule>, text: string, start: nat, b: seq<nat>, n: nat)
    requires InRange(rules, b) && SortedBefore(rules, b)
    requires forall j :: Fires(rules, text, start, j) ==> j in b
    requires n < |b| && Fires(rules, text, start, b[n])
    requires forall t :: 0 <= t < n ==> !PatternMatches(rules[b[t]].pattern, text, start)
    ensures IsBest(rules, text, start, b[n])
  {
    forall j | 0 <= j < |rules| && Fires(rules, text, start, j) && j != b[n]
      ensures Before(rules, b[n], j)
    {
      var t :| 0 <= t < |b| && b[t] == j;
    }
  }

  /** A scan over positions holding every firing position that matches
      none of them: nothing fires. */
  lemma NoMatchNoneFires(rules: seq<Rule>, text: string, start: nat, b: seq<nat>)
    requires InRange(rules, b)
    requires forall j :: Fires(rules, text, start, j) ==> j in b
    requires forall t :: 0 <= t < |b| ==> !PatternMatches(rules[b[t]].pattern, text, start)
    ensures forall j :: !Fires(rules, text, start, j)
  {
  }

  /** The bucket of the start character, as the scan sees it. */
  lemma CandidatesOfBuilt(rules: seq<Rule>, text: string, start: nat)
    requires start < |text| && [text[start]] in BuildRuleMap(rules)
    ensures Candidates(BuildRuleMap(rules), text, start) == Bucket(rules, [text[start]])
  {
  }

  /** Every firing position lies in the bucket of the start character. */
  lemma FiringInBucket(rules: seq<Rule>, text: string, start: nat)
    requires start < |text|
    ensures forall j :: Fires(rules, text, start, j) ==> j in BucketPositions(rules, [text[start]])
  {
    BucketPositionsCorrect(rules, [text[start]]);
  }

  /** The first matching candidate of the bucket of the start character is
      the best firing position. */
  lemma ScanFindsBest(rules: seq<Rule>, text: string, start: nat, n: nat)
    requires start < |text|
    requires n == FirstMatchIndex(Bucket(rules, [text[start]]), text, start)
    requires n < |Bucket(rules, [text[start]])|
    ensures IsBest(rules, text, start, BucketPositions(rules, [text[start]])[n])
    ensures Bucket(rules, [text[start]])[n] == rules[BucketPositions(rules, [text[start]])[n]]
  {
    var b := BucketPositions(rules, [text[start]]);
    var cands := Bucket(rules, [text[start]]);
    FiringInBucket(rules, text, start);
    FirstMatchIndexFirst(cands, text, start);
    BucketPositionsCorrect(rules, [text[start]]);
    assert forall t :: 0 <= t < |b| ==> cands[t] == rules[b[t]];
    assert Fires(rules, text, start, b[n]) by {
      assert b[n] in b;
    }
    FirstMatchIsBest(rules, text, start, b, n);
  }

  /** When no candidate of the bucket of the start character matches,
      nothing fires. */
  lemma ScanFindsNone(rules: seq<Rule>, text: string, start: nat)
    requires start < |text|
    requires FirstMatchIndex(Bucket(rules, [text[start]]), text, start) == |Bucket(rules, [text[start]])|
    ensures forall i :: !Fires(rules, text, start, i)
  {
    var b := BucketPositions(rules, [text[start]]);
    var cands := Bucket(rules, [text[start]]);
    FiringInBucket(rules, text, start);
    FirstMatchIndexFirst(cands, text, start);
    assert forall t :: 0 <= t < |b| ==> cands[t] == rules[b[t]];
    NoMatchNoneFires(rules, text, start, b);
  }

  /** A scan over the bucket of the start character picks the best firing
      position, and finds nothing exactly when no position fires. */
  lemma ScanIsBest(rules: seq<Rule>, text: string, start: nat, m: RuleMap)
    requires start < |text| && Candidates(m, text, start) == Bucket(rules, [text[start]])
    ensures FindLongestMatch(m, text, start).None? ==> forall i :: !Fires(rules, text, start, i)
    ensures FindLongestMatch(m, text, start).Some? ==>
      exists i :: IsBest(rules, text, start, i) && FindLongestMatch(m, text, start).value == rules[i]
  {
    var cands := Bucket(rules, [text[start]]);
    var n := FirstMatchIndex(cands, text, start);
    if n < |cands| {
      assert FindLongestMatch(m, text, start) == Some(cands[n]);
      ScanFindsBest(rules, text, start, n);
    } else {
      assert FindLongestMatch(m, text, start) == None;
      ScanFindsNone(rules, text, start);
    }
  }

  /** When the start character has a bucket, the first matching candidate
      is the best firing position. */
  lemma BucketScanIsBest(rules: seq<Rule>, text: string, start: nat)
    requires start < |text| && [text[start]] in BuildRuleMap(rules)
    ensures FindLongestMatch(BuildRuleMap(rules), text, start).None? ==>
      forall i :: !Fires(rules, text, start, i)
    ensures FindLongestMatch(BuildRuleMap(rules), text, start).Some? ==>
      exists i :: IsBest(rules, text, start, i) && FindLongestMatch(BuildRuleMap(rules), text, start).value == rules[i]
  {
    CandidatesOfBuilt(rules, text, start);
    ScanIsBest(rules, text, start, BuildRuleMap(rules));
  }

  /** The bucket scan over the built index picks the best firing rule of the
      table, and finds nothing exactly when no rule fires. */
  lemma FindLongestMatchIsBest(rules: seq<Rule>, text: string, start: nat)
    ensures FindLongestMatch(BuildRuleMap(rules), text, start).None? <==>
      forall i :: !Fires(rules, text, start, i)
    ensures FindLongestMatch(BuildRuleMap(rules), text, start).Some? ==>
      exists i :: IsBest(rules, text, start, i) && FindLongestMatch(BuildRuleMap(rules), text, start).value == rules[i]
  {
    if start < |text| {
      if [text[start]] !in BuildRuleMap(rules) {
        forall i | 0 <= i < |rules|
          ensures !Fires(rules, text, start, i)
        {
          assert Key(rules[i].pattern) in Keys(rules);
        }
      } else {
        BucketScanIsBest(rules, text, start);
      }
    }
  }

  /** At most one position is best. */
  lemma BestUnique(rules: seq<Rule>, text: string, start: nat, i: int, j: int)
    requires IsBest(rules, text, start, i) && IsBest(rules, text, start, j)
    ensures i == j
  {
  }

  /** A later rule with the same pattern and priority as an earlier one is
      never the best: stability keeps the earlier one in front. */
  lemma LaterDuplicateNeverBest(rules: seq<Rule>, text: string, start: nat, i: nat, j: nat)
    requires i < j < |rules|
    requires rules[i].pattern == rules[j].pattern && PriorityKey(rules[i]) == PriorityKey(rules[j])
    ensures !IsBest(rules, text, start, j)
  {
    if Fires(rules, text, start, j) {
      assert Fires(rules, text, start, i);
      assert !Before(rules, j, i);
    }
  }

  /** A dead escape never fires, whatever the text. */
  lemma DeadEscapeNeverFires(rules: seq<Rule>, text: string, start: nat, i: nat)
    requires i < |rules| && DeadEscape(rules[i].pattern)
    ensures !Fires(rules, text, start, i)
  {
    if start < |text| && Key(rules[i].pattern) == [text[start]] {
      assert rules[i].pattern[0] == text[start];
    }
  }
}
