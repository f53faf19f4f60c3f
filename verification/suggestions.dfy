/**
 The suggestion generator: for each whitespace-separated piece of a text,
 every way of writing the piece as the patterns of two rules (the first
 strictly earlier in the table than the second), deduplicated by combined
 target within the piece; a piece contributes only when it has at least
 two alternatives, and the whole list is stably sorted by confidence.
 */
module Suggestions {
  import opened Shared
  import opened Strings

  /** The confidence every alternative carries. */
  const AlternativeConfidence: real := 0.8

  /** The explanation attached to an alternative built from two patterns. */
  function Explain(p1: string, p2: string): string
  {
    "Combination of " + p1 + " + " + p2
  }

  /** The pairs `(i, j)` the nested loops of `findAlternatives` visit from
      `(i, j)` onwards, in visiting order: `j` runs to `n`, then `i` moves
      on and `j` restarts at `i + 1`. */
  function Pairs(n: nat, i: nat, j: nat): seq<(nat, nat)>
    decreases n - i, n - j
  {
    if i >= n then []
    else if j >= n then Pairs(n, i + 1, i + 2)
    else [(i, j)] + Pairs(n, i, j + 1)
  }

  /** Every visited pair is an ordered pair of table positions. */
  lemma {:induction false} PairsOrdered(n: nat, i: nat, j: nat)
    requires i < j
    ensures forall k :: 0 <= k < |Pairs(n, i, j)| ==>
      var (a, b) := Pairs(n, i, j)[k]; i <= a < b < n
    decreases n - i, n - j
  {
    if i < n {
      if j >= n {
        PairsOrdered(n, i + 1, i + 2);
      } else {
        PairsOrdered(n, i, j + 1);
      }
    }
  }

  /** Every ordered pair not yet passed is visited. */
  lemma {:induction false} PairsComplete(n: nat, i: nat, j: nat, a: nat, b: nat)
    requires i < j && a < b < n
    requires i < a || (i == a && j <= b)
    ensures (a, b) in Pairs(n, i, j)
    decreases n - i, n - j
  {
    if j >= n {
      PairsComplete(n, i + 1, i + 2, a, b);
    } else if i == a && j == b {
      assert Pairs(n, i, j)[0] == (a, b);
    } else {
      PairsComplete(n, i, j + 1, a, b);
    }
  }

  /** The body of the inner loop over the visited pairs: an alternative for
      every pair whose patterns spell `word`, skipping combined texts in
      `seen`. */
  function Collect(rules: seq<Rule>, word: string, ps: seq<(nat, nat)>, seen: set<string>): seq<Suggestion>
    requires forall k :: 0 <= k < |ps| ==> ps[k].0 < |rules| && ps[k].1 < |rules|
  {
    if |ps| == 0 then []
    else
      var r1 := rules[ps[0].0];
      var r2 := rules[ps[0].1];
      var combined := r1.target + r2.target;
      if r1.pattern + r2.pattern == word && combined !in seen then
        [Suggestion(combined, AlternativeConfidence, Some(Explain(r1.pattern, r2.pattern)))]
          + Collect(rules, word, ps[1..], seen + {combined})
      else
        Collect(rules, word, ps[1..], seen)
  }

  /** `findAlternatives(word)` over the rule table `rules`: no combined text
      repeats, and every alternative carries confidence 0.8. */
  function FindAlternatives(rules: seq<Rule>, word: string): (alts: seq<Suggestion>)
    ensures Distinct(Texts(alts))
    ensures forall k :: 0 <= k < |alts| ==> alts[k].confidence == AlternativeConfidence
  {
    PairsOrdered(|rules|, 0, 1);
    CollectSound(rules, word, Pairs(|rules|, 0, 1), {});
    CollectConfidence(rules, word, Pairs(|rules|, 0, 1), {});
    Collect(rules, word, Pairs(|rules|, 0, 1), {})
  }

  /** Every alternative `Collect` yields carries confidence 0.8. */
  lemma {:induction false} CollectConfidence(rules: seq<Rule>, word: string, ps: seq<(nat, nat)>, seen: set<string>)
    requires forall k :: 0 <= k < |ps| ==> ps[k].0 < |rules| && ps[k].1 < |rules|
    ensures forall k :: 0 <= k < |Collect(rules, word, ps, seen)| ==>
      Collect(rules, word, ps, seen)[k].confidence == AlternativeConfidence
    decreases |ps|
  {
    if |ps| > 0 {
      var combined := rules[ps[0].0].target + rules[ps[0].1].target;
      CollectConfidence(rules, word, ps[1..], seen + {combined});
      CollectConfidence(rules, word, ps[1..], seen);
    }
  }

  /** The texts of a list of suggestions. */
  function Texts(s: seq<Suggestion>): seq<string>
  {
    if |s| == 0 then [] else [s[0].text] + Texts(s[1..])
  }

  predicate Distinct(xs: seq<string>)
  {
    forall a, b :: 0 <= a < b < |xs| ==> xs[a] != xs[b]
  }

  /** An alternative explained by an ordered pair of rules that spells `word`. */
  predicate Explained(rules: seq<Rule>, word: string, s: Suggestion)
  {
    exists i, j :: 0 <= i < j < |rules|
      && rules[i].pattern + rules[j].pattern == word
      && s == Suggestion(rules[i].target + rules[j].target, AlternativeConfidence,
                         Some(Explain(rules[i].pattern, rules[j].pattern)))
  }

  /** What `Collect` yields is explained, distinct, and avoids `seen`. */
  lemma {:induction false} CollectSound(rules: seq<Rule>, word: string, ps: seq<(nat, nat)>, seen: set<string>)
    requires forall k :: 0 <= k < |ps| ==> ps[k].0 < ps[k].1 < |rules|
    ensures var out := Collect(rules, word, ps, seen);
      (forall k :: 0 <= k < |out| ==> Explained(rules, word, out[k]) && out[k].text !in seen)
      && Distinct(Texts(out))
    decreases |ps|
  {
    if |ps| > 0 {
      var r1 := rules[ps[0].0];
      var r2 := rules[ps[0].1];
      var combined := r1.target + r2.target;
      var out := Collect(rules, word, ps, seen);
      if r1.pattern + r2.pattern == word && combined !in seen {
        var rest := Collect(rules, word, ps[1..], seen + {combined});
        CollectSound(rules, word, ps[1..], seen + {combined});
        assert out == [out[0]] + rest;
        assert Explained(rules, word, out[0]) by {
          assert ps[0].0 < ps[0].1 < |rules|;
        }
        assert Texts(out) == [combined] + Texts(rest);
        TextsIndex(rest);
        forall k | 0 <= k < |out|
          ensures Explained(rules, word, out[k]) && out[k].text !in seen
        {
          if k > 0 {
            assert out[k] == rest[k - 1];
          }
        }
      } else {
        CollectSound(rules, word, ps[1..], seen);
      }
    }
  }

  lemma {:induction false} TextsIndex(s: seq<Suggestion>)
    ensures |Texts(s)| == |s|
    ensures forall k :: 0 <= k < |s| ==> Texts(s)[k] == s[k].text
    decreases |s|
  {
    if |s| > 0 {
      TextsIndex(s[1..]);
    }
  }

  /** Every spelling pair in `ps` has its combined text among the output or
      in `seen`. */
  lemma {:induction false} CollectComplete(rules: seq<Rule>, word: string, ps: seq<(nat, nat)>, seen: set<string>, p: (nat, nat))
    requires forall k :: 0 <= k < |ps| ==> ps[k].0 < |rules| && ps[k].1 < |rules|
    requires p in ps && rules[p.0].pattern + rules[p.1].pattern == word
    ensures var t := rules[p.0].target + rules[p.1].target;
      t in seen || t in Texts(Collect(rules, word, ps, seen))
    decreases |ps|
  {
    var r1 := rules[ps[0].0];
    var r2 := rules[ps[0].1];
    var combined := r1.target + r2.target;
    var out := Collect(rules, word, ps, seen);
    if r1.pattern + r2.pattern == word && combined !in seen {
      var rest := Collect(rules, word, ps[1..], seen + {combined});
      assert Texts(out) == [combined] + Texts(rest);
      if ps[0] != p {
        assert p in ps[1..];
        CollectComplete(rules, word, ps[1..], seen + {combined}, p);
      }
    } else if ps[0] != p {
      assert p in ps[1..];
      CollectComplete(rules, word, ps[1..], seen, p);
    }
  }

  /** The alternatives of a word: each is explained by an ordered pair of
      rules spelling the word, no combined text repeats, and every ordered
      spelling pair has its combined text among them. */
  lemma AlternativesCharacterized(rules: seq<Rule>, word: string)
    ensures var alts := FindAlternatives(rules, word);
      (forall k :: 0 <= k < |alts| ==> Explained(rules, word, alts[k]))
      && Distinct(Texts(alts))
      && (forall i, j :: 0 <= i < j < |rules| && rules[i].pattern + rules[j].pattern == word ==>
            rules[i].target + rules[j].target in Texts(alts))
  {
    var ps := Pairs(|rules|, 0, 1);
    PairsOrdered(|rules|, 0, 1);
    CollectSound(rules, word, ps, {});
    forall i, j | 0 <= i < j < |rules| && rules[i].pattern + rules[j].pattern == word
      ensures rules[i].target + rules[j].target in Texts(FindAlternatives(rules, word))
    {
      PairsComplete(|rules|, 0, 1, i, j);
      CollectComplete(rules, word, ps, {}, (i, j));
    }
  }

  /** Pair `p` indexes two rules whose patterns spell `word`. */
  predicate Spells(rules: seq<Rule>, word: string, p: (nat, nat))
  {
    p.0 < |rules| && p.1 < |rules| && rules[p.0].pattern + rules[p.1].pattern == word
  }

  /** The alternative that pair `p` would contribute. */
  function PairAlternative(rules: seq<Rule>, p: (nat, nat)): Suggestion
    requires p.0 < |rules| && p.1 < |rules|
  {
    Suggestion(rules[p.0].target + rules[p.1].target, AlternativeConfidence,
               Some(Explain(rules[p.0].pattern, rules[p.1].pattern)))
  }

  /** The position in `ps` of the first pair that spells `word` with combined
      target `t`, or `|ps|` when there is none. */
  function FirstSpelling(rules: seq<Rule>, word: string, ps: seq<(nat, nat)>, t: string): (n: nat)
    ensures n <= |ps|
    ensures n < |ps| ==> Spells(rules, word, ps[n]) && PairAlternative(rules, ps[n]).text == t
    ensures forall m :: 0 <= m < n ==> !(Spells(rules, word, ps[m]) && PairAlternative(rules, ps[m]).text == t)
  {
    if |ps| == 0 then 0
    else if Spells(rules, word, ps[0]) && PairAlternative(rules, ps[0]).text == t then 0
    else
      var n := FirstSpelling(rules, word, ps[1..], t);
      assert forall m :: 0 < m <= n ==> ps[m] == ps[1..][m - 1];
      1 + n
  }

  /** Each alternative of `out` is the one its first spelling pair in `ps`
      builds, and the alternatives are in the order of those pairs. */
  predicate FromFirstSpellings(rules: seq<Rule>, word: string, ps: seq<(nat, nat)>, out: seq<Suggestion>)
  {
    (forall k :: 0 <= k < |out| ==>
       FirstSpelling(rules, word, ps, out[k].text) < |ps|
       && out[k] == PairAlternative(rules, ps[FirstSpelling(rules, word, ps, out[k].text)]))
    && (forall a, b :: 0 <= a < b < |out| ==>
          FirstSpelling(rules, word, ps, out[a].text) < FirstSpelling(rules, word, ps, out[b].text))
  }

  /** Every alternative `Collect` yields is the one its first spelling pair
      builds (later pairs with the same combined text are skipped), and the
      alternatives come out in the order of their first spelling pairs. */
  lemma {:induction false} CollectFirst(rules: seq<Rule>, word: string, ps: seq<(nat, nat)>, seen: set<string>)
    requires forall k :: 0 <= k < |ps| ==> ps[k].0 < |rules| && ps[k].1 < |rules|
    ensures FromFirstSpellings(rules, word, ps, Collect(rules, word, ps, seen))
    decreases |ps|
  {
    if |ps| > 0 {
      var c := PairAlternative(rules, ps[0]).text;
      var here := Spells(rules, word, ps[0]) && c !in seen;
      var seen' := if here then seen + {c} else seen;
      var rest := Collect(rules, word, ps[1..], seen');
      CollectFirst(rules, word, ps[1..], seen');
      CollectAvoidsSeen(rules, word, ps[1..], seen');
      FirstSpellingsShift(rules, word, ps, seen', rest);
      CollectStep(rules, word, ps, seen);
      if here {
        FirstSpellingsCons(rules, word, ps, rest);
      } else {
        FirstSpellingsSkip(rules, word, ps, rest);
      }
    }
  }

  /** A head pair that contributes goes first: its first spelling pair is
      position 0 and every later one lies in the tail. */
  lemma FirstSpellingsCons(rules: seq<Rule>, word: string, ps: seq<(nat, nat)>, rest: seq<Suggestion>)
    requires |ps| > 0 && Spells(rules, word, ps[0])
    requires FromFirstSpellings(rules, word, ps[1..], rest)
    requires forall k :: 0 <= k < |rest| ==>
      FirstSpelling(rules, word, ps, rest[k].text) == 1 + FirstSpelling(rules, word, ps[1..], rest[k].text)
    ensures FromFirstSpellings(rules, word, ps, [PairAlternative(rules, ps[0])] + rest)
  {
    var out := [PairAlternative(rules, ps[0])] + rest;
    assert FirstSpelling(rules, word, ps, out[0].text) == 0;
    forall k | 0 < k < |out|
      ensures out[k] == rest[k - 1]
      ensures ps[FirstSpelling(rules, word, ps, out[k].text)] == ps[1..][FirstSpelling(rules, word, ps[1..], rest[k - 1].text)]
    {
    }
  }

  /** A head pair that contributes nothing leaves the positions shifted by
      one. */
  lemma FirstSpellingsSkip(rules: seq<Rule>, word: string, ps: seq<(nat, nat)>, rest: seq<Suggestion>)
    requires |ps| > 0
    requires FromFirstSpellings(rules, word, ps[1..], rest)
    requires forall k :: 0 <= k < |rest| ==>
      FirstSpelling(rules, word, ps, rest[k].text) == 1 + FirstSpelling(rules, word, ps[1..], rest[k].text)
    ensures FromFirstSpellings(rules, word, ps, rest)
  {
    forall k | 0 <= k < |rest|
      ensures ps[FirstSpelling(rules, word, ps, rest[k].text)] == ps[1..][FirstSpelling(rules, word, ps[1..], rest[k].text)]
    {
    }
  }

  /** One step of `Collect`: the head pair contributes its alternative when
      it spells the word with a new text. */
  lemma CollectStep(rules: seq<Rule>, word: string, ps: seq<(nat, nat)>, seen: set<string>)
    requires forall k :: 0 <= k < |ps| ==> ps[k].0 < |rules| && ps[k].1 < |rules|
    requires |ps| > 0
    ensures var c := PairAlternative(rules, ps[0]).text;
      Collect(rules, word, ps, seen) ==
        if Spells(rules, word, ps[0]) && c !in seen
        then [PairAlternative(rules, ps[0])] + Collect(rules, word, ps[1..], seen + {c})
        else Collect(rules, word, ps[1..], seen)
  {
  }

  /** Texts the head pair cannot produce have their first spelling pair in
      the tail. */
  lemma FirstSpellingsShift(rules: seq<Rule>, word: string, ps: seq<(nat, nat)>, seen': set<string>, rest: seq<Suggestion>)
    requires |ps| > 0 && ps[0].0 < |rules| && ps[0].1 < |rules|
    requires Spells(rules, word, ps[0]) ==> PairAlternative(rules, ps[0]).text in seen'
    requires forall k :: 0 <= k < |rest| ==> rest[k].text !in seen'
    ensures forall k :: 0 <= k < |rest| ==>
      FirstSpelling(rules, word, ps, rest[k].text) == 1 + FirstSpelling(rules, word, ps[1..], rest[k].text)
  {
  }

  /** No text `Collect` yields is in `seen`. */
  lemma {:induction false} CollectAvoidsSeen(rules: seq<Rule>, word: string, ps: seq<(nat, nat)>, seen: set<string>)
    requires forall k :: 0 <= k < |ps| ==> ps[k].0 < |rules| && ps[k].1 < |rules|
    ensures forall k :: 0 <= k < |Collect(rules, word, ps, seen)| ==> Collect(rules, word, ps, seen)[k].text !in seen
    decreases |ps|
  {
    if |ps| > 0 {
      var c := PairAlternative(rules, ps[0]).text;
      if Spells(rules, word, ps[0]) && c !in seen {
        CollectAvoidsSeen(rules, word, ps[1..], seen + {c});
      } else {
        CollectAvoidsSeen(rules, word, ps[1..], seen);
      }
    }
  }

  /** Pair `p` comes before pair `q` in the order the nested loops visit
      them: by `i`, then by `j`. */
  predicate VisitedBefore(p: (nat, nat), q: (nat, nat))
  {
    p.0 < q.0 || (p.0 == q.0 && p.1 < q.1)
  }

  /** The loops visit every pair after `(i, j)` and in increasing order. */
  lemma {:induction false} PairsIncreasing(n: nat, i: nat, j: nat)
    ensures forall k :: 0 <= k < |Pairs(n, i, j)| ==>
      Pairs(n, i, j)[k] == (i, j) || VisitedBefore((i, j), Pairs(n, i, j)[k])
    ensures forall a, b :: 0 <= a < b < |Pairs(n, i, j)| ==>
      VisitedBefore(Pairs(n, i, j)[a], Pairs(n, i, j)[b])
    decreases n - i, n - j
  {
    if i < n {
      if j >= n {
        PairsIncreasing(n, i + 1, i + 2);
      } else {
        var ps := Pairs(n, i, j);
        var rest := Pairs(n, i, j + 1);
        PairsIncreasing(n, i, j + 1);
        assert ps == [(i, j)] + rest;
        forall a, b | 0 <= a < b < |ps|
          ensures VisitedBefore(ps[a], ps[b])
        {
          assert ps[b] == rest[b - 1];
          if a > 0 {
            assert ps[a] == rest[a - 1];
          }
        }
      }
    }
  }

  /** The alternatives of a word come out in the order in which the nested
      loops first meet their combined texts, and each carries the targets
      and explanation of that first spelling pair; later pairs spelling the
      same text are dropped. */
  lemma AlternativesInDiscoveryOrder(rules: seq<Rule>, word: string)
    ensures var ps := Pairs(|rules|, 0, 1); var alts := FindAlternatives(rules, word);
      (forall k :: 0 <= k < |alts| ==>
         FirstSpelling(rules, word, ps, alts[k].text) < |ps|
         && alts[k] == PairAlternative(rules, ps[FirstSpelling(rules, word, ps, alts[k].text)]))
      && (forall a, b :: 0 <= a < b < |alts| ==>
            FirstSpelling(rules, word, ps, alts[a].text) < |ps|
            && FirstSpelling(rules, word, ps, alts[b].text) < |ps|
            && VisitedBefore(ps[FirstSpelling(rules, word, ps, alts[a].text)],
                             ps[FirstSpelling(rules, word, ps, alts[b].text)]))
  {
    var ps := Pairs(|rules|, 0, 1);
    PairsOrdered(|rules|, 0, 1);
    var alts := FindAlternatives(rules, word);
    assert alts == Collect(rules, word, ps, {});
    CollectFirst(rules, word, ps, {});
    PairsIncreasing(|rules|, 0, 1);
    forall a, b | 0 <= a < b < |alts|
      ensures VisitedBefore(ps[FirstSpelling(rules, word, ps, alts[a].text)],
                            ps[FirstSpelling(rules, word, ps, alts[b].text)])
    {
      var fa := FirstSpelling(rules, word, ps, alts[a].text);
      var fb := FirstSpelling(rules, word, ps, alts[b].text);
      assert fa < fb < |ps|;
    }
  }

  /** With non-empty patterns, a word of at most one character has no
      alternative. */
  lemma ShortWordNoAlternatives(rules: seq<Rule>, word: string)
    requires forall r :: r in rules ==> |r.pattern| >= 1
    requires |word| <= 1
    ensures FindAlternatives(rules, word) == []
  {
    var alts := FindAlternatives(rules, word);
    AlternativesCharacterized(rules, word);
    if |alts| > 0 {
      ExplainedSpellsTwo(rules, word, alts[0]);
    }
  }

  /** An explained alternative spells its word with two non-empty patterns. */
  lemma ExplainedSpellsTwo(rules: seq<Rule>, word: string, s: Suggestion)
    requires forall r :: r in rules ==> |r.pattern| >= 1
    requires Explained(rules, word, s)
    ensures |word| >= 2
  {
    var i, j :| 0 <= i < j < |rules| && rules[i].pattern + rules[j].pattern == word
      && s == Suggestion(rules[i].target + rules[j].target, AlternativeConfidence,
                         Some(Explain(rules[i].pattern, rules[j].pattern)));
    assert rules[i] in rules && rules[j] in rules;
  }

  /** The alternatives of every piece that has more than one, in piece
      order. */
  function Gather(rules: seq<Rule>, pieces: seq<string>): seq<Suggestion>
  {
    if |pieces| == 0 then []
    else
      var alts := FindAlternatives(rules, pieces[0]);
      (if |alts| > 1 then alts else []) + Gather(rules, pieces[1..])
  }

  /** A suggestion is gathered exactly when it is an alternative of some
      piece that has more than one alternative. */
  lemma {:induction false} GatherMembers(rules: seq<Rule>, pieces: seq<string>, s: Suggestion)
    ensures s in Gather(rules, pieces) <==>
      exists k :: 0 <= k < |pieces| && |FindAlternatives(rules, pieces[k])| > 1 && s in FindAlternatives(rules, pieces[k])
    decreases |pieces|
  {
    if |pieces| > 0 {
      GatherMembers(rules, pieces[1..], s);
      var alts := FindAlternatives(rules, pieces[0]);
      var rest := Gather(rules, pieces[1..]);
      assert Gather(rules, pieces) == (if |alts| > 1 then alts else []) + rest;
      if exists k :: 0 <= k < |pieces[1..]| && |FindAlternatives(rules, pieces[1..][k])| > 1 && s in FindAlternatives(rules, pieces[1..][k]) {
        var k :| 0 <= k < |pieces[1..]| && |FindAlternatives(rules, pieces[1..][k])| > 1 && s in FindAlternatives(rules, pieces[1..][k]);
        assert pieces[1..][k] == pieces[k + 1];
      }
      if exists k :: 0 <= k < |pieces| && |FindAlternatives(rules, pieces[k])| > 1 && s in FindAlternatives(rules, pieces[k]) {
        var k :| 0 <= k < |pieces| && |FindAlternatives(rules, pieces[k])| > 1 && s in FindAlternatives(rules, pieces[k]);
        if k > 0 {
          assert pieces[1..][k - 1] == pieces[k];
        }
      }
    }
  }

  /** Stable insertion of `x` into a list ordered by descending confidence:
      after every element of at least its confidence. */
  function InsertByConfidence(x: Suggestion, t: seq<Suggestion>): seq<Suggestion>
  {
    if |t| == 0 then [x]
    else if t[0].confidence < x.confidence then [x] + t
    else [t[0]] + InsertByConfidence(x, t[1..])
  }

  /** `suggestions.sort((a, b) => b.confidence - a.confidence)`, a stable
      sort. */
  function SortByConfidence(s: seq<Suggestion>): seq<Suggestion>
  {
    if |s| == 0 then []
    else InsertByConfidence(s[|s| - 1], SortByConfidence(s[..|s| - 1]))
  }

  predicate Descending(s: seq<Suggestion>)
  {
    forall a, b :: 0 <= a < b < |s| ==> s[a].confidence >= s[b].confidence
  }

  predicate UniformConfidence(s: seq<Suggestion>, c: real)
  {
    forall k :: 0 <= k < |s| ==> s[k].confidence == c
  }

  lemma {:induction false} InsertPermutes(x: Suggestion, t: seq<Suggestion>)
    ensures multiset(InsertByConfidence(x, t)) == multiset(t) + multiset{x}
    decreases |t|
  {
    if |t| > 0 && t[0].confidence >= x.confidence {
      InsertPermutes(x, t[1..]);
      assert t == [t[0]] + t[1..];
    }
  }

  lemma DescendingTail(t: seq<Suggestion>)
    requires Descending(t) && |t| > 0
    ensures Descending(t[1..])
  {
    forall a, b | 0 <= a < b < |t[1..]|
      ensures t[1..][a].confidence >= t[1..][b].confidence
    {
      assert t[1..][a] == t[a + 1] && t[1..][b] == t[b + 1];
    }
  }

  /** A head of at least every confidence of a descending tail keeps the
      list descending. */
  lemma DescendingCons(y: Suggestion, t: seq<Suggestion>)
    requires Descending(t)
    requires forall k :: 0 <= k < |t| ==> y.confidence >= t[k].confidence
    ensures Descending([y] + t)
  {
    forall a, b | 0 <= a < b < |[y] + t|
      ensures ([y] + t)[a].confidence >= ([y] + t)[b].confidence
    {
      assert ([y] + t)[b] == t[b - 1];
      if a > 0 {
        assert ([y] + t)[a] == t[a - 1];
      }
    }
  }

  lemma {:induction false} InsertDescending(x: Suggestion, t: seq<Suggestion>)
    requires Descending(t)
    ensures Descending(InsertByConfidence(x, t))
    decreases |t|
  {
    if |t| > 0 {
      if t[0].confidence < x.confidence {
        DescendingCons(x, t);
      } else {
        var rest := InsertByConfidence(x, t[1..]);
        DescendingTail(t);
        InsertDescending(x, t[1..]);
        InsertPermutes(x, t[1..]);
        forall k | 0 <= k < |rest|
          ensures t[0].confidence >= rest[k].confidence
        {
          assert rest[k] in multiset(rest);
          if rest[k] != x {
            assert rest[k] in multiset(t[1..]);
            var m :| 0 <= m < |t[1..]| && t[1..][m] == rest[k];
            assert t[1..][m] == t[m + 1];
          }
        }
        DescendingCons(t[0], rest);
      }
    }
  }

  /** The sort yields a descending permutation of its input. */
  lemma {:induction false} SortSorted(s: seq<Suggestion>)
    ensures multiset(SortByConfidence(s)) == multiset(s)
    ensures Descending(SortByConfidence(s))
    decreases |s|
  {
    if |s| > 0 {
      var init := s[..|s| - 1];
      SortSorted(init);
      InsertPermutes(s[|s| - 1], SortByConfidence(init));
      InsertDescending(s[|s| - 1], SortByConfidence(init));
      assert s == init + [s[|s| - 1]];
    }
  }

  /** Inserting an element of the common confidence appends it. */
  lemma {:induction false} InsertUniform(x: Suggestion, t: seq<Suggestion>, c: real)
    requires UniformConfidence(t, c) && x.confidence == c
    ensures InsertByConfidence(x, t) == t + [x]
    decreases |t|
  {
    if |t| > 0 {
      assert UniformConfidence(t[1..], c) by {
        forall k | 0 <= k < |t[1..]|
          ensures t[1..][k].confidence == c
        {
          assert t[1..][k] == t[k + 1];
        }
      }
      InsertUniform(x, t[1..], c);
      assert [t[0]] + (t[1..] + [x]) == t + [x];
    }
  }

  /** When every suggestion has the same confidence the stable sort changes
      nothing. */
  lemma {:induction false} SortUniform(s: seq<Suggestion>, c: real)
    requires UniformConfidence(s, c)
    ensures SortByConfidence(s) == s
    decreases |s|
  {
    if |s| > 0 {
      var init := s[..|s| - 1];
      assert UniformConfidence(init, c);
      SortUniform(init, c);
      InsertUniform(s[|s| - 1], init, c);
      assert init + [s[|s| - 1]] == s;
    }
  }

  /** `getSuggestions(text)` over the rule table `rules`: a permutation of
      the gathered alternatives in descending confidence. */
  function GetSuggestions(rules: seq<Rule>, text: string): (r: seq<Suggestion>)
    ensures multiset(r) == multiset(Gather(rules, Split(text)))
    ensures Descending(r)
  {
    SortSorted(Gather(rules, Split(text)));
    SortByConfidence(Gather(rules, Split(text)))
  }

  lemma {:induction false} AlternativesUniform(rules: seq<Rule>, word: string)
    ensures UniformConfidence(FindAlternatives(rules, word), AlternativeConfidence)
  {
    var alts := FindAlternatives(rules, word);
    AlternativesCharacterized(rules, word);
    forall k | 0 <= k < |alts|
      ensures alts[k].confidence == AlternativeConfidence
    {
      assert Explained(rules, word, alts[k]);
    }
  }

  lemma {:induction false} GatherUniform(rules: seq<Rule>, pieces: seq<string>)
    ensures UniformConfidence(Gather(rules, pieces), AlternativeConfidence)
    decreases |pieces|
  {
    if |pieces| > 0 {
      var alts := FindAlternatives(rules, pieces[0]);
      var head: seq<Suggestion> := if |alts| > 1 then alts else [];
      var rest := Gather(rules, pieces[1..]);
      AlternativesUniform(rules, pieces[0]);
      GatherUniform(rules, pieces[1..]);
      forall k | 0 <= k < |head + rest|
        ensures (head + rest)[k].confidence == AlternativeConfidence
      {
        if k < |head| {
          assert (head + rest)[k] == head[k];
        } else {
          assert (head + rest)[k] == rest[k - |head|];
        }
      }
    }
  }

  /** The suggestions are the alternatives of the pieces with more than one
      alternative, in piece order and discovery order: the sort by the
      common confidence 0.8 leaves them in place. */
  lemma SuggestionsInDiscoveryOrder(rules: seq<Rule>, text: string)
    ensures GetSuggestions(rules, text) == Gather(rules, Split(text))
    ensures UniformConfidence(GetSuggestions(rules, text), AlternativeConfidence)
  {
    GatherUniform(rules, Split(text));
    SortUniform(Gather(rules, Split(text)), AlternativeConfidence);
  }

  /** With non-empty patterns, pieces of at most one character contribute
      nothing. */
  lemma {:induction false} ShortPiecesNothing(rules: seq<Rule>, pieces: seq<string>)
    requires forall r :: r in rules ==> |r.pattern| >= 1
    requires forall k :: 0 <= k < |pieces| ==> |pieces[k]| <= 1
    ensures Gather(rules, pieces) == []
    decreases |pieces|
  {
    if |pieces| > 0 {
      ShortWordNoAlternatives(rules, pieces[0]);
      ShortPiecesNothing(rules, pieces[1..]);
    }
  }

  /** A single letter has no suggestions. */
  lemma SingleLetterNoSuggestions(rules: seq<Rule>, c: char)
    requires forall r :: r in rules ==> |r.pattern| >= 1
    requires !IsWs(c)
    ensures GetSuggestions(rules, [c]) == []
  {
    assert WsFree([c]);
    assert Split([c]) == [[c]];
    ShortPiecesNothing(rules, [[c]]);
    SuggestionsInDiscoveryOrder(rules, [c]);
  }
}
