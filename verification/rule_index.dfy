/**
 The rule index of the engine (`buildRuleMap`): rules grouped by the first
 character of their pattern, case-sensitively, and each group stably sorted
 by priority descending (absent = 0), then pattern length descending.

 The sort works on table positions, so that stability can be stated: the
 positions of a bucket are ordered by `Before`, which is the comparator of
 the source extended by table order for equal keys.
 */
module RuleIndex {
  import opened Shared

  type RuleMap = map<string, seq<Rule>>

  /** The bucket key `pattern.charAt(0)`: the first character, or the
      empty string for an empty pattern. */
  function Key(pattern: string): string
  {
    if |pattern| == 0 then "" else pattern[..1]
  }

  /** `a` sorts strictly before `b` under the source comparator. */
  predicate Outranks(a: Rule, b: Rule)
  {
    || PriorityKey(a) > PriorityKey(b)
    || (PriorityKey(a) == PriorityKey(b) && |a.pattern| > |b.pattern|)
  }

  /** The comparator returns 0: equal priority key and pattern length. */
  predicate SameRank(a: Rule, b: Rule)
  {
    PriorityKey(a) == PriorityKey(b) && |a.pattern| == |b.pattern|
  }

  /** The order a stable sort produces on table positions: by rank, then by
      position in the table. */
  predicate Before(rules: seq<Rule>, i: nat, j: nat)
    requires i < |rules| && j < |rules|
  {
    Outranks(rules[i], rules[j]) || (SameRank(rules[i], rules[j]) && i < j)
  }

  predicate InRange(rules: seq<Rule>, s: seq<nat>)
  {
    forall n :: 0 <= n < |s| ==> s[n] < |rules|
  }

  predicate Increasing(s: seq<nat>)
  {
    forall a, b :: 0 <= a < b < |s| ==> s[a] < s[b]
  }

  predicate SortedBefore(rules: seq<Rule>, s: seq<nat>)
    requires InRange(rules, s)
  {
    forall a, b :: 0 <= a < b < |s| ==> Before(rules, s[a], s[b])
  }

  /** Positions `< n` whose pattern has key `k`, in table order: the bucket
      as the first loop of `buildRuleMap` leaves it. */
  function Group(rules: seq<Rule>, k: string, n: nat): (g: seq<nat>)
    requires n <= |rules|
    ensures InRange(rules, g) && Increasing(g)
    ensures forall i :: i in g <==> 0 <= i < n && Key(rules[i].pattern) == k
    ensures forall a :: 0 <= a < |g| ==> g[a] < n
  {
    if n == 0 then []
    else
      var g := Group(rules, k, n - 1);
      if Key(rules[n - 1].pattern) == k then g + [n - 1] else g
  }

  /** Stable insertion of position `x` into a sorted run: it goes before the
      first element it strictly outranks. */
  function Insert(rules: seq<Rule>, x: nat, s: seq<nat>): (r: seq<nat>)
    requires x < |rules| && InRange(rules, s)
    ensures InRange(rules, r)
    ensures multiset(r) == multiset(s) + multiset{x}
  {
    if |s| == 0 then [x]
    else if Outranks(rules[x], rules[s[0]]) then [x] + s
    else
      var t := Insert(rules, x, s[1..]);
      assert s == [s[0]] + s[1..];
      [s[0]] + t
  }

  /** Stable sort of a group of positions with the source comparator;
      elements are inserted in their original order. */
  function Sort(rules: seq<Rule>, s: seq<nat>): (r: seq<nat>)
    requires InRange(rules, s)
    ensures InRange(rules, r)
    ensures multiset(r) == multiset(s)
  {
    if |s| == 0 then []
    else
      var init := s[..|s| - 1];
      assert s == init + [s[|s| - 1]];
      Insert(rules, s[|s| - 1], Sort(rules, init))
  }

  function BucketPositions(rules: seq<Rule>, k: string): (b: seq<nat>)
    ensures InRange(rules, b)
  {
    Sort(rules, Group(rules, k, |rules|))
  }

  function Bucket(rules: seq<Rule>, k: string): seq<Rule>
  {
    var b := BucketPositions(rules, k);
    seq(|b|, n requires 0 <= n < |b| => rules[b[n]])
  }

  function Keys(rules: seq<Rule>): set<string>
  {
    set i | 0 <= i < |rules| :: Key(rules[i].pattern)
  }

  /** `buildRuleMap`: one bucket per key that occurs in the table; every
      rule of a bucket has the bucket's key. */
  function BuildRuleMap(rules: seq<Rule>): (m: RuleMap)
    ensures Keyed(m)
  {
    BucketsSound(rules);
    map k | k in Keys(rules) :: Bucket(rules, k)
  }

  /** Bucket `k` has a position `i`. */
  ghost predicate InBucket(m: RuleMap, k: string, i: int)
  {
    k in m && 0 <= i < |m[k]|
  }

  /** Every rule of a bucket has the bucket's key. The fact is put to use
      at a named position through `KeyedAt`. */
  ghost predicate Keyed(m: RuleMap)
  {
    forall k, i {:trigger InBucket(m, k, i)} :: InBucket(m, k, i) ==> Key(m[k][i].pattern) == k
  }

  /** The rule at position `i` of bucket `k` of a keyed index has key `k`. */
  lemma KeyedAt(m: RuleMap, k: string, i: int)
    requires Keyed(m) && k in m && 0 <= i < |m[k]|
    ensures Key(m[k][i].pattern) == k
  {
    assert InBucket(m, k, i);
  }

  lemma OutranksTrans(a: Rule, b: Rule, c: Rule)
    requires Outranks(a, b) && (Outranks(b, c) || SameRank(b, c))
    ensures Outranks(a, c)
  {
  }

  /** Putting a position that outranks the head in front keeps a run sorted. */
  lemma ConsOutranking(rules: seq<Rule>, x: nat, s: seq<nat>)
    requires x < |rules| && InRange(rules, s) && SortedBefore(rules, s)
    requires |s| > 0 && Outranks(rules[x], rules[s[0]])
    ensures InRange(rules, [x] + s) && SortedBefore(rules, [x] + s)
  {
    var r := [x] + s;
    forall a, b | 0 <= a < b < |r|
      ensures Before(rules, r[a], r[b])
    {
      if a == 0 {
        if b > 1 {
          assert Before(rules, s[0], s[b - 1]);
          OutranksTrans(rules[x], rules[s[0]], rules[s[b - 1]]);
        }
      } else {
        assert r[a] == s[a - 1] && r[b] == s[b - 1];
      }
    }
  }

  /** Putting a position before a sorted run it precedes elementwise keeps
      the run sorted. */
  lemma ConsBeforeAll(rules: seq<Rule>, y: nat, t: seq<nat>)
    requires y < |rules| && InRange(rules, t) && SortedBefore(rules, t)
    requires forall n :: 0 <= n < |t| ==> Before(rules, y, t[n])
    ensures InRange(rules, [y] + t) && SortedBefore(rules, [y] + t)
  {
    var r := [y] + t;
    forall a, b | 0 <= a < b < |r|
      ensures Before(rules, r[a], r[b])
    {
      if a == 0 {
        assert r[b] == t[b - 1];
      } else {
        assert r[a] == t[a - 1] && r[b] == t[b - 1];
      }
    }
  }

  /** The head of a sorted run precedes everything an insertion into its
      tail produces, when it precedes the inserted position. */
  lemma HeadBeforeInsert(rules: seq<Rule>, x: nat, s: seq<nat>)
    requires x < |rules| && InRange(rules, s) && SortedBefore(rules, s) && |s| > 0
    requires Before(rules, s[0], x)
    ensures forall n :: 0 <= n < |Insert(rules, x, s[1..])| ==> Before(rules, s[0], Insert(rules, x, s[1..])[n])
  {
    var t := Insert(rules, x, s[1..]);
    forall n | 0 <= n < |t|
      ensures Before(rules, s[0], t[n])
    {
      assert t[n] in multiset(t);
      assert t[n] in multiset(s[1..]) + multiset{x};
      if t[n] != x {
        assert t[n] in s[1..];
        var b :| 0 <= b < |s[1..]| && s[1..][b] == t[n];
        assert s[b + 1] == t[n];
      }
    }
  }

  lemma {:induction false} InsertSorted(rules: seq<Rule>, x: nat, s: seq<nat>)
    requires x < |rules| && InRange(rules, s) && SortedBefore(rules, s)
    requires forall n :: 0 <= n < |s| ==> s[n] < x
    ensures SortedBefore(rules, Insert(rules, x, s))
    decreases |s|
  {
    if |s| == 0 {
    } else if Outranks(rules[x], rules[s[0]]) {
      ConsOutranking(rules, x, s);
    } else {
      InsertSorted(rules, x, s[1..]);
      assert Before(rules, s[0], x);
      HeadBeforeInsert(rules, x, s);
      ConsBeforeAll(rules, s[0], Insert(rules, x, s[1..]));
    }
  }

  lemma {:induction false} SortSorted(rules: seq<Rule>, s: seq<nat>)
    requires InRange(rules, s) && Increasing(s)
    ensures SortedBefore(rules, Sort(rules, s))
    decreases |s|
  {
    if |s| > 0 {
      var init := s[..|s| - 1];
      var x := s[|s| - 1];
      SortSorted(rules, init);
      var t := Sort(rules, init);
      forall n | 0 <= n < |t|
        ensures t[n] < x
      {
        assert t[n] in multiset(t);
        assert t[n] in init;
      }
      InsertSorted(rules, x, t);
    }
  }

  /** The bucket of key `k` holds exactly the positions of the rules whose
      pattern begins with `k`, each once, ordered by priority descending,
      then pattern length descending, then table position. */
  lemma BucketPositionsCorrect(rules: seq<Rule>, k: string)
    ensures forall i :: i in BucketPositions(rules, k) <==> 0 <= i < |rules| && Key(rules[i].pattern) == k
    ensures multiset(BucketPositions(rules, k)) == multiset(Group(rules, k, |rules|))
    ensures SortedBefore(rules, BucketPositions(rules, k))
  {
    var g := Group(rules, k, |rules|);
    SortSorted(rules, g);
    var b := BucketPositions(rules, k);
    forall i
      ensures i in b <==> i in g
    {
      assert i in b <==> i in multiset(b);
      assert i in g <==> i in multiset(g);
    }
  }

  /** Every rule of a bucket has the bucket's key and comes from the table. */
  lemma BucketSound(rules: seq<Rule>, k: string)
    ensures forall r :: r in Bucket(rules, k) ==> Key(r.pattern) == k && r in rules
  {
    var b := BucketPositions(rules, k);
    var bucket := Bucket(rules, k);
    forall r | r in bucket
      ensures Key(r.pattern) == k && r in rules
    {
      var n :| 0 <= n < |bucket| && bucket[n] == r;
      assert b[n] in b by {
        assert b[n] == b[n];
      }
      BucketPositionsCorrect(rules, k);
    }
  }

  lemma BucketsSound(rules: seq<Rule>)
    ensures forall k, r :: r in Bucket(rules, k) ==> Key(r.pattern) == k
  {
    forall k | true
      ensures forall r :: r in Bucket(rules, k) ==> Key(r.pattern) == k
    {
      BucketSound(rules, k);
    }
  }

  /** Every rule of the table with key `k` is in the bucket of `k`. */
  lemma BucketComplete(rules: seq<Rule>, k: string)
    ensures forall i :: 0 <= i < |rules| && Key(rules[i].pattern) == k ==> rules[i] in Bucket(rules, k)
  {
    var b := BucketPositions(rules, k);
    var bucket := Bucket(rules, k);
    forall i | 0 <= i < |rules| && Key(rules[i].pattern) == k
      ensures rules[i] in bucket
    {
      assert i in b by {
        BucketPositionsCorrect(rules, k);
      }
      var n :| 0 <= n < |b| && b[n] == i;
      assert bucket[n] == rules[i];
    }
  }

  /** No rule of a bucket is outranked by a later one. */
  lemma BucketOrdered(rules: seq<Rule>, k: string)
    ensures forall a, c :: 0 <= a < c < |Bucket(rules, k)| ==> !Outranks(Bucket(rules, k)[c], Bucket(rules, k)[a])
  {
    var b := BucketPositions(rules, k);
    var bucket := Bucket(rules, k);
    assert SortedBefore(rules, b) by {
      BucketPositionsCorrect(rules, k);
    }
    forall a, c | 0 <= a < c < |bucket|
      ensures !Outranks(bucket[c], bucket[a])
    {
      assert Before(rules, b[a], b[c]);
    }
  }

  /** The rules of one bucket: exactly the table's rules with key `k`,
      never outranked by a later rule of the bucket. */
  lemma BucketCorrect(rules: seq<Rule>, k: string)
    ensures forall r :: r in Bucket(rules, k) ==> Key(r.pattern) == k && r in rules
    ensures forall i :: 0 <= i < |rules| && Key(rules[i].pattern) == k ==> rules[i] in Bucket(rules, k)
    ensures forall a, c :: 0 <= a < c < |Bucket(rules, k)| ==> !Outranks(Bucket(rules, k)[c], Bucket(rules, k)[a])
  {
    BucketSound(rules, k);
    BucketComplete(rules, k);
    BucketOrdered(rules, k);
  }

  /** What `buildRuleMap` promises: one bucket per first character that
      occurs, each bucket holding exactly the rules with that first
      character, sorted by priority then pattern length, descending. */
  lemma RuleMapCorrect(rules: seq<Rule>)
    ensures BuildRuleMap(rules).Keys == Keys(rules)
    ensures Keyed(BuildRuleMap(rules))
    ensures forall i :: 0 <= i < |rules| ==>
      var k := Key(rules[i].pattern); k in BuildRuleMap(rules) && rules[i] in BuildRuleMap(rules)[k]
    ensures forall k, r :: k in BuildRuleMap(rules) && r in BuildRuleMap(rules)[k] ==> r in rules
    ensures forall k, a, c :: k in BuildRuleMap(rules) && 0 <= a < c < |BuildRuleMap(rules)[k]| ==>
      !Outranks(BuildRuleMap(rules)[k][c], BuildRuleMap(rules)[k][a])
  {
    var m: RuleMap := BuildRuleMap(rules);
    forall k: string | k in m
      ensures forall r: Rule :: r in m[k] ==> Key(r.pattern) == k && r in rules
      ensures forall i :: 0 <= i < |rules| && Key(rules[i].pattern) == k ==> rules[i] in m[k]
      ensures forall a, c :: 0 <= a < c < |m[k]| ==> !Outranks(m[k][c], m[k][a])
    {
      BucketCorrect(rules, k);
    }
    forall i | 0 <= i < |rules|
      ensures Key(rules[i].pattern) in m
    {
      assert Key(rules[i].pattern) in Keys(rules);
    }
  }
}
