/**
 Properties of the walk `transliterateWord` performs over one word: where
 the cursor ends, what a word without any rule comes back as, the bounds of
 the word confidence, and when the output is guaranteed to hold visible
 text.
 */
module WordWalk {
  import opened Shared
  import opened Strings
  import opened RuleIndex
  import opened Matcher

  /** Every rule of the index is a literal pattern or a dead escape: the
      fragment of regular expressions the tables use. */
  predicate PlainPatterns(m: RuleMap)
  {
    forall k, r :: k in m && r in m[k] ==> Literal(r.pattern) || DeadEscape(r.pattern)
  }

  /** Every target of the index holds a non-whitespace character. */
  predicate VisibleTargets(m: RuleMap)
  {
    forall k, r :: k in m && r in m[k] ==> !AllWs(r.target)
  }

  /** No character of `w` opens a bucket. */
  predicate NoBucketFor(m: RuleMap, w: string)
  {
    forall i :: 0 <= i < |w| ==> [w[i]] !in m
  }

  /** `x` raised to the `n`-th power. */
  function Pow(x: real, n: nat): real
  {
    if n == 0 then 1.0 else x * Pow(x, n - 1)
  }

  /** Case-insensitive equality is preserved by concatenation. */
  lemma FoldEqSeqAppend(a: string, b: string, c: string, d: string)
    requires FoldEqSeq(a, c) && FoldEqSeq(b, d)
    ensures FoldEqSeq(a + b, c + d)
  {
    forall i | 0 <= i < |a + b|
      ensures FoldEq((a + b)[i], (c + d)[i])
    {
      if i < |a| {
        assert (a + b)[i] == a[i] && (c + d)[i] == c[i];
      } else {
        assert (a + b)[i] == b[i - |a|] && (c + d)[i] == d[i - |a|];
      }
    }
  }

  /** Spelling a prefix and then the rest of a word spells the word. */
  lemma FoldEqSeqSplit(a: string, b: string, w: string, n: nat)
    requires n <= |w| && FoldEqSeq(a, w[..n]) && FoldEqSeq(b, w[n..])
    ensures FoldEqSeq(a + b, w)
  {
    FoldEqSeqAppend(a, b, w[..n], w[n..]);
    assert w[..n] + w[n..] == w;
  }

  /** A rule found in an index of plain patterns is a case-insensitive
      prefix of the word from the cursor. */
  lemma FoundIsPrefix(m: RuleMap, text: string, start: nat)
    requires Keyed(m) && PlainPatterns(m)
    ensures FindLongestMatch(m, text, start).Some? ==>
      var p := FindLongestMatch(m, text, start).value.pattern;
      1 <= |p| && start + |p| <= |text| && FoldEqSeq(p, text[start..start + |p|])
  {
    var r := FindLongestMatch(m, text, start);
    if r.Some? {
      FoundMatches(m, text, start);
      FoundStartsWord(m, text, start);
      FoundNotDeadEscape(m, text, start);
      assert r.value in m[[text[start]]];
      LiteralMatches(r.value.pattern, text, start);
    }
  }

  /** Spelling the word from the cursor up to `pos + n` and then the rest
      spells the word from the cursor. */
  lemma FoldEqSeqFrom(a: string, b: string, w: string, pos: nat, n: nat)
    requires pos + n <= |w| && FoldEqSeq(a, w[pos..pos + n]) && FoldEqSeq(b, w[pos + n..])
    ensures FoldEqSeq(a + b, w[pos..])
  {
    var rest := w[pos..];
    assert rest[..n] == w[pos..pos + n];
    assert rest[n..] == w[pos + n..];
    FoldEqSeqSplit(a, b, rest, n);
  }

  /** A step that consumes a case-insensitive copy of the word at the
      cursor, followed by a covering walk of the rest, covers the word from
      the cursor. */
  lemma CoversAfterStep(m: RuleMap, w: string, pos: nat)
    requires Keyed(m) && pos < |w|
    requires var t := Step(m, w, pos);
      pos + Advance(t) <= |w| && FoldEqSeq(TokenSource(t), w[pos..pos + Advance(t)])
      && FoldEqSeq(SourceText(Walk(m, w, pos + Advance(t))), w[pos + Advance(t)..])
    ensures FoldEqSeq(SourceText(Walk(m, w, pos)), w[pos..])
  {
    var t := Step(m, w, pos);
    var ts := Walk(m, w, pos);
    WalkUnfold(m, w, pos);
    assert ts[0] == t && ts[1..] == Walk(m, w, pos + Advance(t));
    assert SourceText(ts) == TokenSource(t) + SourceText(ts[1..]);
    FoldEqSeqFrom(TokenSource(t), SourceText(ts[1..]), w, pos, Advance(t));
  }

  /** The step at the cursor consumes a case-insensitive copy of the word
      there: the pattern found, or the character itself. */
  lemma StepIsPrefix(m: RuleMap, w: string, pos: nat)
    requires Keyed(m) && PlainPatterns(m) && pos < |w|
    ensures var t := Step(m, w, pos);
      pos + Advance(t) <= |w| && FoldEqSeq(TokenSource(t), w[pos..pos + Advance(t)])
  {
    FoundIsPrefix(m, w, pos);
    if FindLongestMatch(m, w, pos).None? {
      assert w[pos..pos + 1] == [w[pos]];
    }
  }

  /** With plain patterns the walk from a cursor consumes the rest of the
      word and nothing more. */
  lemma {:induction false} WalkCoversFrom(m: RuleMap, w: string, pos: nat)
    requires Keyed(m) && PlainPatterns(m) && pos <= |w|
    ensures FoldEqSeq(SourceText(Walk(m, w, pos)), w[pos..])
    decreases |w| - pos
  {
    if pos < |w| {
      StepIsPrefix(m, w, pos);
      StepAdvances(m, w, pos);
      WalkCoversFrom(m, w, pos + Advance(Step(m, w, pos)));
      CoversAfterStep(m, w, pos);
    }
  }

  /** With plain patterns the walk consumes the whole word and nothing
      more: the consumed patterns and copied characters spell the word up
      to case, so the cursor stops exactly at `word.length`. */
  lemma WalkCoversWord(m: RuleMap, w: string)
    requires Keyed(m) && PlainPatterns(m)
    ensures FoldEqSeq(SourceText(Walk(m, w, 0)), w)
  {
    WalkCoversFrom(m, w, 0);
    assert w[0..] == w;
  }

  /** The cursor of the walk ends exactly at the end of the word. */
  lemma WalkLength(m: RuleMap, w: string)
    requires Keyed(m) && PlainPatterns(m)
    ensures |SourceText(Walk(m, w, 0))| == |w|
  {
    WalkCoversWord(m, w);
  }

  /** The walk of a word from `pos` on when every character is copied. */
  function Copies(w: string, pos: nat): seq<Token>
    decreases |w| - pos
  {
    if pos >= |w| then [] else [Copied(w[pos])] + Copies(w, pos + 1)
  }

  /** A word none of whose characters opens a bucket is copied character by
      character. */
  lemma {:induction false} UnmatchedWalk(m: RuleMap, w: string, pos: nat)
    requires Keyed(m) && NoBucketFor(m, w)
    ensures Walk(m, w, pos) == Copies(w, pos)
    decreases |w| - pos
  {
    if pos < |w| {
      assert Candidates(m, w, pos) == [];
      WalkCopied(m, w, pos);
      UnmatchedWalk(m, w, pos + 1);
    }
  }

  lemma {:induction false} EmitCopies(w: string, pos: nat)
    requires pos <= |w|
    ensures Emit(Copies(w, pos)) == w[pos..]
    decreases |w| - pos
  {
    if pos < |w| {
      var ts := Copies(w, pos);
      EmitCopies(w, pos + 1);
      assert ts[0] == Copied(w[pos]) && ts[1..] == Copies(w, pos + 1);
      assert Emit(ts) == [w[pos]] + w[pos + 1..];
      assert [w[pos]] + w[pos + 1..] == w[pos..];
    }
  }

  lemma {:induction false} RunningCopies(w: string, pos: nat, acc: real)
    requires pos <= |w|
    ensures Running(Copies(w, pos), acc) == acc * Pow(0.5, |w| - pos)
    decreases |w| - pos
  {
    if pos < |w| {
      var ts := Copies(w, pos);
      RunningCopies(w, pos + 1, acc * 0.5);
      assert ts[0] == Copied(w[pos]) && ts[1..] == Copies(w, pos + 1);
      assert Running(ts, acc) == Running(ts[1..], acc * 0.5);
      assert (acc * 0.5) * Pow(0.5, |w| - pos - 1) == acc * Pow(0.5, |w| - pos);
    }
  }

  lemma RunningCopiesUnit(w: string)
    ensures Running(Copies(w, 0), 1.0) == Pow(0.5, |w|)
  {
    var r := Running(Copies(w, 0), 1.0);
    RunningCopies(w, 0, 1.0);
    assert r == 1.0 * Pow(0.5, |w| - 0);
    assert Pow(0.5, |w| - 0) == Pow(0.5, |w|);
  }

  lemma {:induction false} PowHalfUnit(n: nat)
    ensures 0.0 < Pow(0.5, n) <= 1.0
  {
    if n > 0 {
      PowHalfUnit(n - 1);
    }
  }

  /** A word no rule can start comes back unchanged, with confidence halved
      once per character. */
  lemma UnmatchedWordUnchanged(m: RuleMap, w: string)
    requires Keyed(m) && NoBucketFor(m, w)
    ensures TransliterateWord(m, w) == WordResult(w, Pow(0.5, |w|))
  {
    var ts := Walk(m, w, 0);
    var p := Pow(0.5, |w|);
    UnmatchedWalk(m, w, 0);
    EmitCopies(w, 0);
    assert w[0..] == w;
    RunningCopiesUnit(w);
    PowHalfUnit(|w|);
    assert Emit(ts) == w;
    assert Running(ts, 1.0) == p;
    assert Clamp(p) == p;
  }

  /** Every step's factor lies in [lo, hi]. */
  predicate FactorsWithin(ts: seq<Token>, lo: real, hi: real)
  {
    forall i :: 0 <= i < |ts| ==> lo <= Factor(ts[i]) <= hi
  }

  lemma MulUnit(a: real, b: real)
    requires 0.0 <= a <= 1.0 && 0.0 <= b <= 1.0
    ensures 0.0 <= a * b <= a
  {
  }

  /** With every factor in [0, 1] the running confidence stays in [0, acc]. */
  lemma {:induction false} RunningUnit(ts: seq<Token>, acc: real)
    requires 0.0 <= acc <= 1.0 && FactorsWithin(ts, 0.0, 1.0)
    ensures 0.0 <= Running(ts, acc) <= acc
    decreases |ts|
  {
    if |ts| > 0 {
      var f := Factor(ts[0]);
      var acc' := acc * f;
      assert 0.0 <= f <= 1.0;
      MulUnit(acc, f);
      assert FactorsWithin(ts[1..], 0.0, 1.0) by {
        forall i | 0 <= i < |ts[1..]|
          ensures 0.0 <= Factor(ts[1..][i]) <= 1.0
        {
          assert ts[1..][i] == ts[i + 1];
        }
      }
      RunningUnit(ts[1..], acc');
      assert Running(ts, acc) == Running(ts[1..], acc');
    }
  }

  /** Every rule of the index has a priority between 0 and 10, or none. */
  predicate TenthPriorities(m: RuleMap)
  {
    forall k, r :: k in m && r in m[k] ==> r.priority.None? || 0 <= r.priority.value <= 10
  }

  /** With priorities between 0 and 10, every step factor of the walk lies
      in [0, 1]. */
  lemma {:induction false} WalkFactors(m: RuleMap, w: string, pos: nat)
    requires Keyed(m) && TenthPriorities(m)
    ensures FactorsWithin(Walk(m, w, pos), 0.0, 1.0)
    decreases |w| - pos
  {
    if pos < |w| {
      var ts := Walk(m, w, pos);
      var t := Step(m, w, pos);
      WalkUnfold(m, w, pos);
      StepAdvances(m, w, pos);
      WalkFactors(m, w, pos + Advance(t));
      assert ts[0] == t && ts[1..] == Walk(m, w, pos + Advance(t));
      if FindLongestMatch(m, w, pos).Some? {
        FoundMatches(m, w, pos);
        FoundStartsWord(m, w, pos);
        assert t.rule in m[[w[pos]]];
      }
      assert 0.0 <= Factor(ts[0]) <= 1.0;
    }
  }

  /** With priorities in 0..10 the word confidence is a proper score. */
  lemma WordConfidenceUnit(m: RuleMap, w: string)
    requires Keyed(m) && TenthPriorities(m)
    ensures 0.0 <= TransliterateWord(m, w).confidence <= 1.0
  {
    WalkFactors(m, w, 0);
    RunningUnit(Walk(m, w, 0), 1.0);
  }

  /** The output of a walk starts with the text of its first step. */
  lemma FirstPieceVisible(ts: seq<Token>)
    requires |ts| > 0 && !AllWs(TokenText(ts[0]))
    ensures CountNonWs(Emit(ts)) > 0
  {
    assert Emit(ts) == TokenText(ts[0]) + Emit(ts[1..]);
    CountNonWsAppend(TokenText(ts[0]), Emit(ts[1..]));
    CountNonWsPositive(TokenText(ts[0]));
  }

  /** A non-empty word that starts with a visible character yields output
      with a visible character, when every target has one. */
  lemma WordOutputVisible(m: RuleMap, w: string)
    requires Keyed(m) && VisibleTargets(m)
    requires |w| > 0 && !IsWs(w[0])
    ensures CountNonWs(TransliterateWord(m, w).text) > 0
  {
    var ts := Walk(m, w, 0);
    var t := Step(m, w, 0);
    WalkUnfold(m, w, 0);
    assert ts[0] == t;
    if FindLongestMatch(m, w, 0).Some? {
      FoundMatches(m, w, 0);
      FoundStartsWord(m, w, 0);
      assert t.rule in m[[w[0]]];
    } else {
      assert TokenText(t) == [w[0]] && [w[0]][0] == w[0];
    }
    FirstPieceVisible(ts);
  }
}
