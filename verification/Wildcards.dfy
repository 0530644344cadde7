/**
 `fnmatch.fnmatchcase`: shell patterns with stars, question marks and bracket expressions.
*/
module Wildcards {
  import opened UrlEscape

  /** The first closing bracket from `i` on. */
  function ClosingBracket(p: Text, i: nat): (j: nat)
    requires i <= |p|
    ensures i <= j <= |p|
    decreases |p| - i
  {
    if i == |p| || p[i] == ']' then i else ClosingBracket(p, i + 1)
  }

  /** Where the bracket expression that starts `p` ends; a bracket right after the opening, or after `!`, ends nothing. */
  function BracketEnd(p: Text): (j: nat)
    requires p != []
    ensures 1 <= j <= |p|
  {
    var i := if |p| > 1 && p[1] == '!' then 2 else 1;
    var k := if |p| > i && p[i] == ']' then i + 1 else i;
    ClosingBracket(p, k)
  }

  predicate InRanges(stuff: Text, c: Octet) {
    if stuff == [] then false
    else if |stuff| >= 3 && stuff[1] == '-' then stuff[0] <= c <= stuff[2] || InRanges(stuff[3..], c)
    else stuff[0] == c || InRanges(stuff[1..], c)
  }

  predicate InBrackets(stuff: Text, c: Octet) {
    if stuff != [] && stuff[0] == '!' then !InRanges(stuff[1..], c) else InRanges(stuff, c)
  }

  predicate Match(p: Text, s: Text)
    decreases |p| + |s|
  {
    if p == [] then s == []
    else if p[0] == '*' then Match(p[1..], s) || (s != [] && Match(p, s[1..]))
    else if p[0] == '?' then s != [] && Match(p[1..], s[1..])
    else if p[0] == '[' && BracketEnd(p) < |p| then
      s != [] && InBrackets(p[1..BracketEnd(p)], s[0]) && Match(p[BracketEnd(p) + 1..], s[1..])
    else s != [] && s[0] == p[0] && Match(p[1..], s[1..])
  }

  // What each kind of pattern matches.

  /** A star matches any beginning, a question mark any byte. */
  lemma {:induction false} StarAndQuestionMatch(p: Text, s: Text)
    ensures Match("*" + p, s) <==> exists n: nat :: n <= |s| && Match(p, s[n..])
    ensures Match("?" + p, s) <==> |s| > 0 && Match(p, s[1..])
    decreases |s|
  {
    assert ("*" + p)[1..] == p && ("?" + p)[1..] == p && s[0..] == s;
    if s != [] {
      var rest := s[1..];
      StarAndQuestionMatch(p, rest);
      if n: nat :| n <= |rest| && Match(p, rest[n..]) {
        assert rest[n..] == s[n + 1..];
      }
      if n: nat :| n <= |s| && Match(p, s[n..]) {
        assert n > 0 ==> rest[n - 1..] == s[n..];
      }
    }
  }

  /** Without a closing bracket an opening one matches itself. */
  lemma LoneBracketMatches(p: Text, s: Text)
    requires ']' !in p
    ensures Match("[" + p, s) <==> s != [] && s[0] == '[' && Match(p, s[1..])
  {
    var q := "[" + p;
    assert q[1..] == p;
    var i := if |q| > 1 && q[1] == '!' then 2 else 1;
    NeverCloses(q, i);
  }

  lemma {:induction false} NeverCloses(p: Text, i: nat)
    requires i <= |p| && forall k :: i <= k < |p| ==> p[k] != ']'
    ensures ClosingBracket(p, i) == |p|
    decreases |p| - i
  {
    if i < |p| {
      NeverCloses(p, i + 1);
    }
  }

  /** Brackets match one byte: one of those in them, or with `!` none of them, and two with a hyphen between them stand
      for a range. */
  lemma BracketsMatch(stuff: Text, p: Text, s: Text)
    requires stuff != [] && ']' !in stuff && '-' !in stuff && '!' !in stuff
    ensures Match("[" + stuff + "]" + p, s) <==> s != [] && s[0] in stuff && Match(p, s[1..])
    ensures Match("[!" + stuff + "]" + p, s) <==> s != [] && s[0] !in stuff && Match(p, s[1..])
  {
    hide Match;
    BracketStep(stuff, p, s);
    BracketStep("!" + stuff, p, s);
    assert "[" + ("!" + stuff) == "[!" + stuff;
    assert ("!" + stuff)[1..] == stuff;
    if s != [] {
      NoRanges(stuff, s[0]);
    }
  }

  lemma RangeMatches(a: Octet, b: Octet, p: Text, s: Text)
    requires a != '!' && a != ']' && b != ']'
    ensures Match("[" + [a, '-', b] + "]" + p, s) <==> s != [] && a <= s[0] <= b && Match(p, s[1..])
  {
    hide Match;
    var stuff: Text := [a, '-', b];
    BracketStep(stuff, p, s);
    assert stuff[3..] == [];
    if s != [] {
      assert InRanges(stuff, s[0]) <==> a <= s[0] <= b;
    }
  }

  lemma BracketStep(stuff: Text, p: Text, s: Text)
    requires stuff != [] && stuff != "!" && ']' !in stuff
    ensures Match("[" + stuff + "]" + p, s) <==> s != [] && InBrackets(stuff, s[0]) && Match(p, s[1..])
  {
    var q := "[" + stuff + "]" + p;
    var from := if stuff[0] == '!' then 2 else 1;
    assert q[1] == stuff[0] && (from == 2 ==> q[2] == stuff[1]);
    assert forall i :: 0 <= i < |stuff| ==> q[i + 1] == stuff[i];
    ClosesFirst(q, from, |stuff| + 1);
    assert q[1..|stuff| + 1] == stuff && q[|stuff| + 2..] == p;
  }

  lemma {:induction false} ClosesFirst(p: Text, i: nat, j: nat)
    requires i <= j < |p| && p[j] == ']' && forall k :: i <= k < j ==> p[k] != ']'
    ensures ClosingBracket(p, i) == j
    decreases j - i
  {
    if i < j {
      ClosesFirst(p, i + 1, j);
    }
  }

  lemma {:induction false} NoRanges(stuff: Text, c: Octet)
    requires '-' !in stuff
    ensures InRanges(stuff, c) <==> c in stuff
  {
    if stuff != [] {
      NoRanges(stuff[1..], c);
    }
  }

  /** A byte of the pattern, other than an opening bracket, matches itself. */
  lemma MatchesByte(c: Octet, p: Text, s: Text)
    requires c != '[' && Match(p, s)
    ensures Match([c] + p, [c] + s)
  {
    assert ([c] + p)[1..] == p && ([c] + s)[1..] == s;
    if c == '*' {
      assert Match([c] + p, s);
    }
  }

  lemma {:induction false} MatchesItself(p: Text)
    requires '[' !in p
    ensures Match(p, p)
  {
    if p != [] {
      MatchesItself(p[1..]);
      MatchesByte(p[0], p[1..], p[1..]);
      assert p == [p[0]] + p[1..];
    }
  }

  lemma {:induction false} StarSwallows(x: Text, p: Text, s: Text)
    requires Match(p, s)
    ensures Match("*" + p, x + s)
  {
    assert ("*" + p)[1..] == p;
    if x == [] {
      assert x + s == s;
    } else {
      StarSwallows(x[1..], p, s);
      assert (x + s)[1..] == x[1..] + s;
    }
  }

  /** A star between texts without brackets matches whatever stands between them. */
  lemma {:induction false} StarMatches(before: Text, x: Text, after: Text)
    requires '[' !in before && '[' !in after
    ensures Match(before + "*" + after, before + x + after)
  {
    if before == [] {
      MatchesItself(after);
      StarSwallows(x, after, after);
      assert before + "*" + after == "*" + after && before + x + after == x + after;
    } else {
      var c, rest := before[0], before[1..];
      StarMatches(rest, x, after);
      MatchesByte(c, rest + "*" + after, rest + x + after);
      assert before == [c] + rest;
      assert before + "*" + after == [c] + (rest + "*" + after);
      assert before + x + after == [c] + (rest + x + after);
    }
  }

  /** Literal bytes are passed one by one. */
  lemma {:induction false} LiteralsPass(front: Text, p: Text, s: Text)
    requires forall i :: 0 <= i < |front| ==> front[i] != '*' && front[i] != '?' && front[i] != '['
    ensures Match(front + p, front + s) <==> Match(p, s)
  {
    if front == [] {
      assert front + p == p && front + s == s;
    } else {
      LiteralsPass(front[1..], p, s);
      assert (front + p)[1..] == front[1..] + p && (front + s)[1..] == front[1..] + s;
    }
  }

  lemma LiteralsStart(front: Text, p: Text, s: Text)
    requires forall i :: 0 <= i < |front| ==> front[i] != '*' && front[i] != '?' && front[i] != '['
    requires Match(front + p, s)
    ensures front <= s
  {
    if front != [] {
      assert (front + p)[1..] == front[1..] + p;
      LiteralsStart(front[1..], p, s[1..]);
    }
  }

  // Percent signs: where pattern and text hold equally many, a match pairs them off.

  function Percents(s: Text): nat {
    if s == [] then 0 else (if s[0] == '%' then 1 else 0) + Percents(s[1..])
  }

  /** What follows the last percent sign. */
  function AfterPercents(s: Text): Text {
    if Percents(s) == 0 then s else AfterPercents(s[1..])
  }

  lemma {:induction false} PercentsJoin(a: Text, b: Text)
    ensures Percents(a + b) == Percents(a) + Percents(b)
    ensures Percents(b) > 0 ==> AfterPercents(a + b) == AfterPercents(b)
  {
    if a == [] {
      assert a + b == b;
    } else {
      assert (a + b)[1..] == a[1..] + b;
      PercentsJoin(a[1..], b);
    }
  }

  lemma {:induction false} NoPercents(s: Text)
    ensures Percents(s) == 0 <==> '%' !in s
  {
    if s != [] {
      NoPercents(s[1..]);
    }
  }

  lemma LastPercent(a: Text, b: Text)
    requires '%' !in b
    ensures Percents(a + (['%'] + b)) == Percents(a) + 1 && AfterPercents(a + (['%'] + b)) == b
  {
    var c := ['%'] + b;
    assert c[1..] == b;
    NoPercents(b);
    PercentsJoin(a, c);
  }

  lemma {:induction false} PercentsMatch(p: Text, s: Text)
    requires '[' !in p && Match(p, s)
    ensures Percents(p) <= Percents(s)
    decreases |p| + |s|
  {
    if p != [] {
      if p[0] == '*' {
        if Match(p[1..], s) {
          PercentsMatch(p[1..], s);
        } else {
          PercentsMatch(p, s[1..]);
        }
      } else {
        PercentsMatch(p[1..], s[1..]);
      }
    }
  }

  /** What follows the last percent sign of the pattern then matches what follows that of the text. */
  lemma {:induction false} LastPercentsMatch(p: Text, s: Text)
    requires '[' !in p && Match(p, s) && Percents(p) == Percents(s) > 0
    ensures Match(AfterPercents(p), AfterPercents(s))
    decreases |p| + |s|
  {
    if p[0] == '*' {
      if Match(p[1..], s) {
        LastPercentsMatch(p[1..], s);
      } else {
        PercentsMatch(p, s[1..]);
        LastPercentsMatch(p, s[1..]);
      }
    } else {
      PercentsMatch(p[1..], s[1..]);
      if Percents(p[1..]) > 0 {
        LastPercentsMatch(p[1..], s[1..]);
      } else {
        assert p[0] == '%' && s[0] == '%';
        assert AfterPercents(p) == AfterPercents(p[1..]) == p[1..];
        assert AfterPercents(s) == AfterPercents(s[1..]) == s[1..];
      }
    }
  }
}
