/**
 The JavaScript string built-ins the engine relies on: the whitespace class
 shared by `\s` and `String.prototype.trim`, `split(/\s+/)`, `join`, and
 `replace(/\s/g, '').length` (a count of non-whitespace characters).
 */
module Strings {

  /** ECMAScript WhiteSpace and LineTerminator code points: the class matched
      by `\s` and removed by `trim`. */
  const WsChars: set<char> := {
    '\t', '\n', '\U{000B}', '\U{000C}', '\r', ' ', '\U{00A0}', '\U{1680}',
    '\U{2000}', '\U{2001}', '\U{2002}', '\U{2003}', '\U{2004}', '\U{2005}',
    '\U{2006}', '\U{2007}', '\U{2008}', '\U{2009}', '\U{200A}',
    '\U{2028}', '\U{2029}', '\U{202F}', '\U{205F}', '\U{3000}', '\U{FEFF}'
  }

  predicate IsWs(c: char)
  {
    c in WsChars
  }

  /** `s.trim()` is the empty string. */
  predicate AllWs(s: string)
  {
    forall i :: 0 <= i < |s| ==> IsWs(s[i])
  }

  /** `s` contains no whitespace at all. */
  predicate WsFree(s: string)
  {
    forall i :: 0 <= i < |s| ==> !IsWs(s[i])
  }

  /** Number of non-whitespace characters: `s.replace(/\s/g, '').length`. */
  function CountNonWs(s: string): nat
  {
    if |s| == 0 then 0
    else (if IsWs(s[0]) then 0 else 1) + CountNonWs(s[1..])
  }

  /** Position of the first whitespace character. */
  function FirstWs(s: string): (i: nat)
    requires !WsFree(s)
    ensures i < |s| && IsWs(s[i]) && WsFree(s[..i])
  {
    if IsWs(s[0]) then 0
    else
      var i := 1 + FirstWs(s[1..]);
      assert s[..i] == [s[0]] + s[1..][..i - 1];
      i
  }

  /** End of the maximal whitespace run starting at `i`. */
  function RunEnd(s: string, i: nat): (j: nat)
    requires i <= |s|
    ensures i <= j <= |s|
    ensures forall k :: i <= k < j ==> IsWs(s[k])
    ensures j == |s| || !IsWs(s[j])
    decreases |s| - i
  {
    if i < |s| && IsWs(s[i]) then RunEnd(s, i + 1) else i
  }

  /** `s.split(/\s+/)`: the text between maximal whitespace runs, with an
      empty first piece when `s` starts with whitespace and an empty last
      piece when it ends with whitespace. */
  function Split(s: string): (pieces: seq<string>)
    ensures |pieces| >= 1
    ensures forall k :: 0 <= k < |pieces| ==> WsFree(pieces[k])
    ensures |pieces[0]| == 0 <==> (|s| == 0 || IsWs(s[0]))
    ensures forall k :: 0 < k < |pieces| - 1 ==> |pieces[k]| > 0
    decreases |s|
  {
    if WsFree(s) then [s]
    else
      var i := FirstWs(s);
      var j := RunEnd(s, i);
      [s[..i]] + Split(s[j..])
  }

  /** `pieces.join(sep)`. */
  function Join(pieces: seq<string>, sep: string): string
  {
    if |pieces| == 0 then ""
    else if |pieces| == 1 then pieces[0]
    else pieces[0] + sep + Join(pieces[1..], sep)
  }

  /** Reference for the split-then-join round trip: every maximal whitespace
      run replaced by one space. */
  function Collapse(s: string): string
    decreases |s|
  {
    if |s| == 0 then ""
    else if IsWs(s[0]) then " " + Collapse(s[RunEnd(s, 0)..])
    else [s[0]] + Collapse(s[1..])
  }

  /** Text whose whitespace consists of single spaces between words. */
  predicate SingleSpaced(s: string)
  {
    && (forall i :: 0 <= i < |s| && IsWs(s[i]) ==> s[i] == ' ' && 0 < i < |s| - 1)
    && (forall i :: 0 <= i < |s| - 1 && IsWs(s[i]) ==> !IsWs(s[i + 1]))
  }

  function SumLengths(pieces: seq<string>): nat
  {
    if |pieces| == 0 then 0 else |pieces[0]| + SumLengths(pieces[1..])
  }

  lemma {:induction false} CountNonWsAppend(a: string, b: string)
    ensures CountNonWs(a + b) == CountNonWs(a) + CountNonWs(b)
    decreases |a|
  {
    if |a| == 0 {
      assert a + b == b;
    } else {
      assert (a + b)[1..] == a[1..] + b;
      CountNonWsAppend(a[1..], b);
    }
  }

  lemma {:induction false} CountNonWsBound(s: string)
    ensures CountNonWs(s) <= |s|
    decreases |s|
  {
    if |s| > 0 {
      CountNonWsBound(s[1..]);
    }
  }

  lemma {:induction false} CountNonWsWsFree(s: string)
    requires WsFree(s)
    ensures CountNonWs(s) == |s|
    decreases |s|
  {
    if |s| > 0 {
      CountNonWsWsFree(s[1..]);
    }
  }

  lemma {:induction false} CountNonWsAllWs(s: string)
    requires AllWs(s)
    ensures CountNonWs(s) == 0
    decreases |s|
  {
    if |s| > 0 {
      CountNonWsAllWs(s[1..]);
    }
  }

  /** A text has a non-whitespace character exactly when `trim` leaves
      something. */
  lemma {:induction false} CountNonWsPositive(s: string)
    ensures CountNonWs(s) > 0 <==> !AllWs(s)
    decreases |s|
  {
    if |s| > 0 {
      CountNonWsPositive(s[1..]);
      if !IsWs(s[0]) {
      } else if !AllWs(s) {
        var i :| 0 <= i < |s| && !IsWs(s[i]);
        assert !IsWs(s[1..][i - 1]);
      } else {
        forall i | 0 <= i < |s[1..]|
          ensures IsWs(s[1..][i])
        {
          assert s[1..][i] == s[i + 1];
        }
      }
    }
  }

  /** A word, a whitespace run, then the rest: only the word and the rest
      count. */
  lemma CountNonWsAround(s: string, i: nat, j: nat)
    requires i <= j <= |s| && WsFree(s[..i]) && AllWs(s[i..j])
    ensures CountNonWs(s) == i + CountNonWs(s[j..])
  {
    var a, b, c := s[..i], s[i..j], s[j..];
    assert s == (a + b) + c;
    CountNonWsAppend(a + b, c);
    CountNonWsAppend(a, b);
    CountNonWsWsFree(a);
    CountNonWsAllWs(b);
    assert CountNonWs(s) == CountNonWs(a) + CountNonWs(b) + CountNonWs(c);
  }

  /** Splitting loses only whitespace: the pieces hold all the text's
      non-whitespace characters. */
  lemma {:induction false} SplitKeepsNonWs(s: string)
    ensures SumLengths(Split(s)) == CountNonWs(s)
    decreases |s|
  {
    if WsFree(s) {
      CountNonWsWsFree(s);
    } else {
      var i := FirstWs(s);
      var j := RunEnd(s, i);
      var rest := Split(s[j..]);
      assert Split(s) == [s[..i]] + rest;
      assert Split(s)[1..] == rest;
      SplitKeepsNonWs(s[j..]);
      CountNonWsAround(s, i, j);
    }
  }

  /** The non-whitespace characters of a space-joined text are those of its
      pieces. */
  lemma {:induction false} JoinCountNonWs(pieces: seq<string>)
    ensures CountNonWs(Join(pieces, " ")) == SumNonWs(pieces)
    decreases |pieces|
  {
    if |pieces| > 1 {
      JoinCountNonWs(pieces[1..]);
      CountNonWsAppend(pieces[0] + " ", Join(pieces[1..], " "));
      CountNonWsAppend(pieces[0], " ");
      assert CountNonWs(" ") == 0;
    } else if |pieces| == 1 {
      assert SumNonWs(pieces[1..]) == 0;
    }
  }

  function SumNonWs(pieces: seq<string>): nat
  {
    if |pieces| == 0 then 0 else CountNonWs(pieces[0]) + SumNonWs(pieces[1..])
  }

  lemma {:induction false} CollapseWsFreePrefix(p: string, t: string)
    requires WsFree(p)
    ensures Collapse(p + t) == p + Collapse(t)
    decreases |p|
  {
    if |p| > 0 {
      assert (p + t)[0] == p[0];
      assert (p + t)[1..] == p[1..] + t;
      CollapseWsFreePrefix(p[1..], t);
    } else {
      assert p + t == t;
    }
  }

  lemma {:induction false} RunEndShift(s: string, i: nat)
    requires i <= |s|
    ensures RunEnd(s[i..], 0) == RunEnd(s, i) - i
    decreases |s| - i
  {
    if i < |s| && IsWs(s[i]) {
      RunEndShift(s, i + 1);
      RunEndFrom(s[i..], 0);
      assert s[i..][1..] == s[i + 1..];
    }
  }

  lemma {:induction false} RunEndFrom(s: string, k: nat)
    requires k < |s| && IsWs(s[k])
    ensures RunEnd(s, k) == RunEnd(s, k + 1)
  {
  }

  /** Joining a first piece in front of a non-empty rest puts one separator
      between them. */
  lemma JoinCons(p: string, rest: seq<string>, sep: string)
    requires |rest| >= 1
    ensures Join([p] + rest, sep) == p + sep + Join(rest, sep)
  {
    assert ([p] + rest)[1..] == rest;
  }

  /** The collapse of a text whose first whitespace is at `i`: the word
      before it, one space, then the collapse after the run. */
  lemma CollapseAtFirstWs(s: string, i: nat)
    requires i < |s| && IsWs(s[i]) && WsFree(s[..i])
    ensures Collapse(s) == s[..i] + " " + Collapse(s[RunEnd(s, i)..])
  {
    var a, b := s[..i], s[i..];
    var j := RunEnd(s, i);
    var c := Collapse(s[j..]);
    assert s == a + b;
    CollapseWsFreePrefix(a, b);
    RunEndShift(s, i);
    CollapseWsHead(b);
    SliceSlice(s, i, j - i);
    var rest := b[RunEnd(b, 0)..];
    assert rest == s[j..];
    assert Collapse(b) == " " + c;
    calc {
      Collapse(s);
      Collapse(a + b);
      a + Collapse(b);
      a + (" " + c);
      { JoinAssoc(a, " ", c); }
      a + " " + c;
    }
  }

  lemma JoinAssoc(a: string, b: string, c: string)
    ensures a + (b + c) == (a + b) + c
  {
  }

  /** A text opening with whitespace collapses to one space, then the
      collapse after the run. */
  lemma CollapseWsHead(b: string)
    requires |b| > 0 && IsWs(b[0])
    ensures Collapse(b) == " " + Collapse(b[RunEnd(b, 0)..])
  {
  }

  lemma SliceSlice(s: string, i: nat, d: nat)
    requires i + d <= |s|
    ensures s[i..][d..] == s[i + d..]
  {
  }

  /** Joining the pieces of `split(/\s+/)` with single spaces collapses
      every whitespace run of the text into one space. */
  lemma {:induction false} SplitJoinCollapses(s: string)
    ensures Join(Split(s), " ") == Collapse(s)
    decreases |s|
  {
    if WsFree(s) {
      CollapseWsFreePrefix(s, "");
      assert s + "" == s;
    } else {
      var i := FirstWs(s);
      var j := RunEnd(s, i);
      SplitJoinCollapses(s[j..]);
      JoinCons(s[..i], Split(s[j..]), " ");
      CollapseAtFirstWs(s, i);
    }
  }

  /** A suffix of single-spaced text that starts at a word, or is empty,
      is single-spaced. */
  lemma SingleSpacedDrop(s: string, d: nat)
    requires SingleSpaced(s) && d <= |s| && (d < |s| ==> !IsWs(s[d]))
    ensures SingleSpaced(s[d..])
  {
    var t := s[d..];
    forall i | 0 <= i < |t| && IsWs(t[i])
      ensures t[i] == ' ' && 0 < i < |t| - 1
    {
      assert t[i] == s[i + d];
    }
    forall i | 0 <= i < |t| - 1 && IsWs(t[i])
      ensures !IsWs(t[i + 1])
    {
      assert t[i] == s[i + d] && t[i + 1] == s[i + d + 1];
    }
  }

  /** A single space before a word collapses to itself. */
  lemma CollapseSpaceThen(u: string)
    requires |u| >= 2 && u[0] == ' ' && !IsWs(u[1])
    ensures Collapse(u) == " " + Collapse(u[1..])
  {
    assert RunEnd(u, 1) == 1;
    assert RunEnd(u, 0) == 1;
  }

  /** A word character and a single space before a word collapse to
      themselves. */
  lemma CollapseWordSpace(s: string)
    requires |s| > 2 && !IsWs(s[0]) && s[1] == ' ' && !IsWs(s[2])
    ensures Collapse(s) == [s[0]] + (" " + Collapse(s[2..]))
  {
    var rest := s[1..];
    assert Collapse(s) == [s[0]] + Collapse(rest);
    CollapseSpaceThen(rest);
    assert rest[1..] == s[2..];
  }

  /** In single-spaced text a whitespace character is a space with a word
      character after it. */
  lemma SingleSpacedAt(s: string, i: nat)
    requires SingleSpaced(s) && i < |s| && IsWs(s[i])
    ensures s[i] == ' ' && i + 1 < |s| && !IsWs(s[i + 1])
  {
  }

  /** On single-spaced text the collapse changes nothing. */
  lemma {:induction false} CollapseSingleSpaced(s: string)
    requires SingleSpaced(s)
    ensures Collapse(s) == s
    decreases |s|
  {
    if |s| > 0 {
      assert !IsWs(s[0]);
      var rest := s[1..];
      assert Collapse(s) == [s[0]] + Collapse(rest);
      if |s| > 1 && IsWs(s[1]) {
        SingleSpacedAt(s, 1);
        CollapseWordSpace(s);
        SingleSpacedDrop(s, 2);
        CollapseSingleSpaced(s[2..]);
        assert s == [s[0]] + (" " + s[2..]);
      } else {
        SingleSpacedDrop(s, 1);
        CollapseSingleSpaced(rest);
        assert s == [s[0]] + rest;
      }
    }
  }

  /** Single-spaced text survives `split(/\s+/)` followed by `join(' ')`. */
  lemma SplitJoinSingleSpaced(s: string)
    requires SingleSpaced(s)
    ensures Join(Split(s), " ") == s
  {
    SplitJoinCollapses(s);
    CollapseSingleSpaced(s);
  }
}
