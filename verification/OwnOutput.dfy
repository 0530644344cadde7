/**
 Which of its own URLs the generator recognises, by the pattern of the numbered files or by the URL of the index.
*/
module OwnOutput {
  import opened Basics
  import opened UrlEscape
  import opened Addresses
  import opened Wildcards
  import opened SitemapNames

  /** The pattern and the URL of the index both miss the file. */
  ghost predicate SlipsThrough(root: Address, prefix: Text, suffix: Text, i: Instance) {
    && !Match(WildOf(root, prefix, suffix), UrlOf(root, prefix, suffix, i))
    && !Match(UrlOf(root, prefix, suffix, Index), UrlOf(root, prefix, suffix, i))
  }

  lemma LeadHasNoBracket(root: Address, rest: Text)
    requires IsRoot(root) && '[' !in root.netloc
    ensures '[' !in Front(root) + Canonical(rest) && '[' !in Front(root) + (Canonical(rest) + Dangling(rest))
  {
    hide *;
    FrontHasNoBracket(root);
    CanonicalStaysShut(rest);
    DanglingHasNoBracket(rest);
    JoinsHaveNoBracket(Front(root), Canonical(rest), Dangling(rest));
  }

  lemma DanglingHasNoBracket(rest: Text)
    ensures '[' !in Dangling(rest)
  {
  }

  lemma JoinsHaveNoBracket(a: Text, b: Text, c: Text)
    requires '[' !in a && '[' !in b && '[' !in c
    ensures '[' !in a + b && '[' !in a + (b + c)
  {
  }

  lemma FrontHasNoBracket(root: Address)
    requires IsRoot(root) && '[' !in root.netloc
    ensures '[' !in Front(root)
  {
    assert !IsHex('[');
    EscapeAvoids(Netloc, root.netloc, '[');
    hide Escape;
  }

  lemma PlainHasNoBracket(s: Text)
    requires IsPlain(s)
    ensures '[' !in s && '%' !in s
  {
  }

  /** A numbered file is recognised if its URL goes on, after what the pattern starts with, and ends in the extension. */
  lemma ExtensionMatches(front: Text, x: Text, suffix: Text)
    requires '[' !in front && IsExtension(suffix)
    ensures Match(front + "*" + suffix, front + (x + suffix))
  {
    PlainHasNoBracket(suffix);
    hide Match;
    StarMatches(front, x, suffix);
    Regroup(front, x, suffix);
  }

  lemma IndexIsRecognised(root: Address, prefix: Text, suffix: Text)
    requires IsRoot(root) && '[' !in root.netloc
    ensures !SlipsThrough(root, prefix, suffix, Index)
  {
    LeadHasNoBracket(root, root.rest + (prefix + Ending(suffix, Index)));
    hide Match, Canonical, Front, Ending, WildOf;
    MatchesItself(UrlOf(root, prefix, suffix, Index));
  }

  /** What stands before the extension. */
  function Digits(n: nat): Text {
    if n == 0 then [] else Decimal(n)
  }

  lemma EndsInExtension(suffix: Text, n: nat)
    ensures Ending(suffix, Numbered(n)) == Digits(n) + suffix
  {
    NothingAdded(suffix);
  }

  // A prefix that ends in no unfinished escape.

  lemma ShutPrefixIsRecognised(root: Address, prefix: Text, suffix: Text, i: Instance)
    requires IsRoot(root) && IsExtension(suffix) && '[' !in root.netloc && !IsOpen(prefix)
    ensures !SlipsThrough(root, prefix, suffix, i)
  {
    if i.Index? {
      IndexIsRecognised(root, prefix, suffix);
    } else {
      var r, e := root.rest + prefix, Ending(suffix, i);
      StillShut(root.rest, prefix);
      EndingIsPlain(suffix, i);
      EndsInExtension(suffix, i.n);
      LeadHasNoBracket(root, r);
      hide Match, Canonical, Front, Dangling, Ending, IsPlain, IsOpen, IsExtension, Digits;
      Regroup(root.rest, prefix, e);
      CanonicalAppends(r, e);
      var front := Front(root) + Canonical(r);
      ExtensionMatches(front, Dangling(r) + Digits(i.n), suffix);
      Regroup(Dangling(r), Digits(i.n), suffix);
      Regroup(Canonical(r), Dangling(r), e);
      Regroup(Front(root), Canonical(r), Dangling(r) + e);
    }
  }

  lemma StillShut(rest: Text, prefix: Text)
    requires rest != [] && rest[|rest| - 1] == '/'
    ensures IsOpen(rest + prefix) <==> IsOpen(prefix)
  {
    OpenAtTheEnd(rest[..|rest| - 1], '/', prefix);
    assert rest == rest[..|rest| - 1] + ['/'];
  }

  // A prefix that ends in one.

  /** What follows its last percent sign: nothing, or one digit. */
  function OpenEnd(s: Text): (end: Text)
    requires IsOpen(s)
    ensures |end| <= 1 && IsPlain(end) && (end != [] ==> IsHex(end[0]))
    ensures |end| < |s| && s == s[..|s| - 1 - |end|] + (['%'] + end)
  {
    if s[|s| - 1] == '%' then [] else [s[|s| - 1]]
  }

  /** The ending completes the escape, and this is not the escape that repairing the prefix makes. */
  predicate Completes(prefix: Text, e: Text)
    requires IsOpen(prefix)
  {
    var end := OpenEnd(prefix);
    TwoHex(end + e) && !(['2', '5'] + end <= end + e)
  }

  /** What pattern and URLs have in common before that percent sign. */
  function Lead(root: Address, before: Text): Text {
    Front(root) + (Canonical(root.rest + before) + Dangling(root.rest + before))
  }

  lemma UrlFromLead(root: Address, before: Text, end: Text, suffix: Text, i: Instance)
    requires IsPlain(end) && IsExtension(suffix)
    ensures var t := end + Ending(suffix, i);
            IsPlain(t) && UrlOf(root, before + (['%'] + end), suffix, i) == Lead(root, before) + (PercentBefore(t) + t)
  {
    EndingIsPlain(suffix, i);
    var e := Ending(suffix, i);
    var t := end + e;
    assert IsPlain(t);
    hide Canonical, Front, Dangling, Ending, IsPlain, PercentBefore;
    Regroup(before, ['%'] + end, e);
    Regroup(['%'], end, e);
    Regroup(root.rest, before, ['%'] + t);
    CanonicalAfterPercent(root.rest + before, t);
    Regroup(Front(root), Canonical(root.rest + before) + Dangling(root.rest + before), PercentBefore(t) + t);
  }

  lemma WildFromLead(root: Address, before: Text, end: Text, suffix: Text)
    requires IsPlain(end) && |end| <= 1
    ensures WildOf(root, before + (['%'] + end), suffix) == Lead(root, before) + (['%', '2', '5'] + end) + "*" + suffix
  {
    hide Canonical, Front, Dangling, IsPlain;
    Regroup(root.rest, before, ['%'] + end);
    CanonicalAfterPercent(root.rest + before, end);
    Regroup(Front(root), Canonical(root.rest + before) + Dangling(root.rest + before), ['%', '2', '5'] + end);
  }

  lemma DotReached(a: Text, d: Text, suffix: Text)
    requires a <= d + suffix && IsExtension(suffix)
    ensures |a| <= |d| || '.' in a
  {
    if |a| > |d| {
      assert a[|d|] == '.';
    }
  }

  /** A text that starts with the repair and the end goes on to the extension: the digits reach at least so far. */
  lemma RepairReached(end: Text, suffix: Text, n: nat) returns (x: Text)
    requires |end| <= 1 && (end != [] ==> IsHex(end[0])) && IsExtension(suffix)
    requires ['2', '5'] + end <= end + (Digits(n) + suffix)
    ensures end + (Digits(n) + suffix) == ['2', '5'] + end + (x + suffix)
  {
    var d := end + Digits(n);
    var k := 2 + |end|;
    Regroup(end, Digits(n), suffix);
    assert !IsHex('.') && IsHex('2') && IsHex('5');
    DotReached(['2', '5'] + end, d, suffix);
    x := d[k..];
    assert d[..k] == (d + suffix)[..k] == ['2', '5'] + end;
    assert d == d[..k] + x;
    Regroup(d[..k], x, suffix);
  }

  lemma OpenUrlMatches(root: Address, before: Text, end: Text, suffix: Text, n: nat)
    requires IsRoot(root) && IsExtension(suffix) && '[' !in root.netloc
    requires |end| <= 1 && IsPlain(end) && (end != [] ==> IsHex(end[0]))
    requires var t := end + Ending(suffix, Numbered(n)); !TwoHex(t) || ['2', '5'] + end <= t
    ensures var prefix := before + (['%'] + end);
            Match(WildOf(root, prefix, suffix), UrlOf(root, prefix, suffix, Numbered(n)))
  {
    UrlFromLead(root, before, end, suffix, Numbered(n));
    WildFromLead(root, before, end, suffix);
    LeadHasNoBracket(root, root.rest + before);
    assert Lead(root, before) == Front(root) + (Canonical(root.rest + before) + Dangling(root.rest + before));
    PlainHasNoBracket(end);
    var x := RepairedOrNot(end, suffix, n);
    hide *;
    RepairMatches(Lead(root, before), end, x, suffix);
  }

  lemma RepairMatches(lead: Text, end: Text, x: Text, suffix: Text)
    requires '[' !in lead && '[' !in end && IsExtension(suffix)
    ensures Match(lead + (['%', '2', '5'] + end) + "*" + suffix, lead + (['%', '2', '5'] + end + (x + suffix)))
  {
    hide Match, IsExtension;
    Regroup(lead, ['%', '2', '5'] + end, x + suffix);
    ExtensionMatches(lead + (['%', '2', '5'] + end), x, suffix);
  }

  /** Unless the escape is completed to another one, the repaired percent sign stands in the URL, too. */
  lemma RepairedOrNot(end: Text, suffix: Text, n: nat) returns (x: Text)
    requires |end| <= 1 && (end != [] ==> IsHex(end[0])) && IsExtension(suffix)
    requires var t := end + Ending(suffix, Numbered(n)); !TwoHex(t) || ['2', '5'] + end <= t
    ensures var t := end + Ending(suffix, Numbered(n));
            PercentBefore(t) + t == ['%', '2', '5'] + end + (x + suffix)
  {
    var t := end + Ending(suffix, Numbered(n));
    EndsInExtension(suffix, n);
    x := Digits(n);
    if TwoHex(t) {
      x := RepairReached(end, suffix, n);
      hide TwoHex, Ending, Digits, IsExtension, IsHex;
      Regroup(['%'], ['2', '5'] + end, x + suffix);
      assert ['%'] + (['2', '5'] + end) == ['%', '2', '5'] + end;
    } else {
      hide TwoHex, Ending, Digits, IsExtension, IsHex;
      Regroup(['%', '2', '5'], end, x + suffix);
    }
  }

  /** A pattern that holds the repaired percent sign matches no text in which the escape was completed by others. */
  lemma RepairMisses(lead: Text, end: Text, p: Text, t: Text)
    requires '[' !in lead && '[' !in p && '%' !in p && '%' !in t && |end| <= 1 && IsPlain(end)
    requires !(['2', '5'] + end <= t)
    ensures !Match(lead + (['%', '2', '5'] + end + p), lead + (['%'] + t))
  {
    PlainHasNoBracket(end);
    EndIsLiteral(end);
    var q := ['2', '5'] + end + p;
    Regroup(['%'], ['2', '5'] + end, p);
    assert ['%'] + (['2', '5'] + end) == ['%', '2', '5'] + end;
    hide Match, Percents, AfterPercents, IsPlain;
    LastPercent(lead, q);
    LastPercent(lead, t);
    if Match(lead + (['%'] + q), lead + (['%'] + t)) {
      LastPercentsMatch(lead + (['%'] + q), lead + (['%'] + t));
      LiteralsStart(['2', '5'] + end, p, t);
    }
  }

  lemma EndIsLiteral(end: Text)
    requires IsPlain(end)
    ensures var front := ['2', '5'] + end;
            forall i :: 0 <= i < |front| ==> front[i] != '*' && front[i] != '?' && front[i] != '['
  {
  }

  lemma OpenUrlSlips(root: Address, before: Text, end: Text, suffix: Text, i: Instance)
    requires IsRoot(root) && IsExtension(suffix) && '[' !in root.netloc && |end| <= 1 && IsPlain(end)
    requires var t := end + Ending(suffix, i); TwoHex(t) && !(['2', '5'] + end <= t)
    ensures SlipsThrough(root, before + (['%'] + end), suffix, i)
  {
    var t, index := end + Ending(suffix, i), Ending(suffix, Index);
    UrlFromLead(root, before, end, suffix, i);
    UrlFromLead(root, before, end, suffix, Index);
    WildFromLead(root, before, end, suffix);
    IndexIsNoHex(end, suffix);
    EndingIsPlain(suffix, Index);
    LeadHasNoBracket(root, root.rest + before);
    assert Lead(root, before) == Front(root) + (Canonical(root.rest + before) + Dangling(root.rest + before));
    assert IsPlain(suffix);
    assert PercentBefore(t) == ['%'] && PercentBefore(end + index) == ['%', '2', '5'];
    hide Lead, Ending, IsPlain, IsExtension, TwoHex, WildOf, UrlOf, IsRoot, Match, PercentBefore;
    BothMiss(Lead(root, before), end, suffix, index, t);
  }

  lemma BothMiss(lead: Text, end: Text, suffix: Text, index: Text, t: Text)
    requires '[' !in lead && |end| <= 1 && IsPlain(end) && IsPlain(suffix) && IsPlain(index) && IsPlain(t)
    requires !(['2', '5'] + end <= t)
    ensures !Match(lead + (['%', '2', '5'] + end) + "*" + suffix, lead + (['%'] + t))
    ensures !Match(lead + (['%', '2', '5'] + (end + index)), lead + (['%'] + t))
  {
    PlainHasNoBracket(t);
    PlainHasNoBracket(suffix);
    PlainHasNoBracket(index);
    hide Match, IsPlain;
    RepairMisses(lead, end, "*" + suffix, t);
    Regroup(lead, ['%', '2', '5'] + end, "*" + suffix);
    Regroup(lead + (['%', '2', '5'] + end), "*", suffix);
    RepairMisses(lead, end, index, t);
    Regroup(['%', '2', '5'], end, index);
  }

  lemma IndexIsNoHex(end: Text, suffix: Text)
    requires |end| <= 1
    ensures !TwoHex(end + Ending(suffix, Index))
  {
    var t := end + Ending(suffix, Index);
    assert t[|end|] == '_';
  }

  // Which files slip through.

  /** A file slips through exactly when the prefix ends in an unfinished escape, which the file's ending completes to
      another one than the repair does. */
  lemma SlipsExactly(root: Address, prefix: Text, suffix: Text, i: Instance)
    requires IsRoot(root) && IsExtension(suffix) && '[' !in root.netloc
    ensures SlipsThrough(root, prefix, suffix, i) <==> IsOpen(prefix) && Completes(prefix, Ending(suffix, i))
  {
    hide SlipsThrough, IsRoot, IsExtension, Ending, IsOpen, TwoHex, OpenEnd;
    if !IsOpen(prefix) {
      ShutPrefixIsRecognised(root, prefix, suffix, i);
    } else {
      var end := OpenEnd(prefix);
      var before := prefix[..|prefix| - 1 - |end|];
      if Completes(prefix, Ending(suffix, i)) {
        OpenUrlSlips(root, before, end, suffix, i);
      } else if i.Index? {
        IndexIsRecognised(root, prefix, suffix);
      } else {
        OpenUrlMatches(root, before, end, suffix, i.n);
        MatchedIsNoSlip(root, prefix, suffix, i);
      }
    }
  }

  lemma MatchedIsNoSlip(root: Address, prefix: Text, suffix: Text, i: Instance)
    requires Match(WildOf(root, prefix, suffix), UrlOf(root, prefix, suffix, i))
    ensures !SlipsThrough(root, prefix, suffix, i)
  {
  }

  /** The generator recognises all its own URLs exactly when the prefix ends in no unfinished escape. */
  lemma OwnUrlsAreRecognised(root: Address, prefix: Text, suffix: Text)
    requires IsRoot(root) && IsExtension(suffix) && '[' !in root.netloc
    ensures (forall i :: !SlipsThrough(root, prefix, suffix, i)) <==> !IsOpen(prefix)
  {
    hide SlipsThrough, IsRoot, IsExtension, IsOpen, Completes;
    forall i
      ensures SlipsThrough(root, prefix, suffix, i) <==> IsOpen(prefix) && Completes(prefix, Ending(suffix, i))
    {
      SlipsExactly(root, prefix, suffix, i);
    }
    if IsOpen(prefix) {
      SomeNumberCompletes(prefix, suffix);
    }
  }

  /** The number 10 after a percent sign, 1 after a percent sign and a digit. */
  lemma SomeNumberCompletes(prefix: Text, suffix: Text)
    requires IsOpen(prefix)
    ensures exists i :: Completes(prefix, Ending(suffix, i))
  {
    var end := OpenEnd(prefix);
    var n := if end == [] then 10 else 1;
    assert Decimal(1) == ['1'];
    assert Decimal(10) == Decimal(1) + ['0'];
    var t := end + Ending(suffix, Numbered(n));
    assert IsHex('1') && IsHex('0');
    assert t[0] == (if end == [] then '1' else end[0]) && t[1] == if end == [] then '0' else '1';
    assert Completes(prefix, Ending(suffix, Numbered(n)));
  }

  /** After a percent sign every number of two digits or more slips through, but those that start with 25. */
  lemma OpenPrefixHidesOwnUrls(root: Address, before: Text, suffix: Text, n: nat)
    requires IsRoot(root) && IsExtension(suffix) && '[' !in root.netloc && n >= 10
    ensures SlipsThrough(root, before + ['%'], suffix, Numbered(n)) <==> Decimal(n)[..2] != ['2', '5']
  {
    var prefix, e := before + ['%'], Ending(suffix, Numbered(n));
    EndsOpen(before);
    TwoDigits(suffix, n);
    hide SlipsThrough, IsOpen, TwoHex, OpenEnd, Ending, Decimal, IsExtension, IsRoot;
    NothingAdded(e);
    assert ['2', '5'] + [] == ['2', '5'];
    SlipsExactly(root, prefix, suffix, Numbered(n));
  }

  lemma EndsOpen(before: Text)
    ensures IsOpen(before + ['%']) && OpenEnd(before + ['%']) == []
  {
  }

  lemma TwoDigits(suffix: Text, n: nat)
    requires n >= 10
    ensures var e := Ending(suffix, Numbered(n)); TwoHex(e) && (['2', '5'] <= e <==> Decimal(n)[..2] == ['2', '5'])
  {
    DigitsAreHex(n);
    var e := Ending(suffix, Numbered(n));
    assert e[..2] == Decimal(n)[..2];
  }

  lemma {:induction false} DigitsAreHex(n: nat)
    ensures forall i :: 0 <= i < |Decimal(n)| ==> IsHex(Decimal(n)[i])
  {
    if n >= 10 {
      DigitsAreHex(n / 10);
    }
  }

  // Hosts in brackets.

  /** `user[h]port`, as the host of an IPv6 site is written, with or without user and port; `h` may be any address, with
      a zone or without, that is no range of characters that takes in the bracket. */
  predicate IsBracketed(netloc: Text, user: Text, h: Text, port: Text) {
    && netloc == user + ['['] + (h + [']'] + port)
    && NoSpecials(user) && h != [] && h[0] != '!' && '[' !in h && ']' !in h && !InRanges(Escape(Netloc, h), '[')
  }

  predicate NoSpecials(s: Text) {
    forall k :: 0 <= k < |s| ==> s[k] != '*' && s[k] != '?' && s[k] != '['
  }

  /** An address without a hyphen is no range. */
  lemma AddressIsNoRange(h: Text)
    requires '[' !in h && '-' !in h
    ensures !InRanges(Escape(Netloc, h), '[')
  {
    assert !IsHex('[') && !IsHex('-');
    EscapeAvoids(Netloc, h, '[');
    EscapeAvoids(Netloc, h, '-');
    hide Escape;
    NoRange(Escape(Netloc, h));
  }

  lemma {:induction false} NoRange(s: Text)
    requires '[' !in s && '-' !in s
    ensures !InRanges(s, '[')
  {
    if s != [] {
      assert |s| > 1 ==> s[1] in s;
      NoRange(s[1..]);
    }
  }

  /** A host in brackets is read as a bracket expression, so an IPv6 site knows none of its own files. */
  lemma BracketsHideOwnUrls(root: Address, user: Text, h: Text, port: Text, prefix: Text, suffix: Text, i: Instance)
    requires IsBracketed(root.netloc, user, h, port) && NoSpecials(root.scheme)
    ensures SlipsThrough(root, prefix, suffix, i)
  {
    var front, h', rest := BracketsInFront(root, user, h, port);
    hide Match, Canonical, Front, Ending, IsBracketed, NoSpecials, InRanges, MissesBracket;
    AllMiss(front, h', rest, Canonical(root.rest + prefix), suffix,
            Canonical(root.rest + (prefix + Ending(suffix, Index))), Canonical(root.rest + (prefix + Ending(suffix, i))));
  }

  lemma AllMiss(front: Text, h: Text, rest: Text, wild: Text, suffix: Text, index: Text, after: Text)
    requires NoSpecials(front) && MissesBracket(h)
    ensures var host := front + (['['] + (h + ([']'] + rest)));
            !Match(host + wild + "*" + suffix, host + after) && !Match(host + index, host + after)
  {
    hide Match, NoSpecials, MissesBracket;
    BracketsMiss(front, h, rest, wild + "*" + suffix, after);
    BracketsMiss(front, h, rest, index, after);
    var host := front + (['['] + (h + ([']'] + rest)));
    Regroup(host, wild, "*");
    Regroup(host, wild + "*", suffix);
  }

  /** What can stand between brackets so that these are read as a bracket expression that misses a bracket. */
  predicate MissesBracket(h: Text) {
    h != [] && h[0] != '!' && ']' !in h && !InRanges(h, '[')
  }

  lemma BracketsInFront(root: Address, user: Text, h: Text, port: Text) returns (front: Text, h': Text, rest: Text)
    requires IsBracketed(root.netloc, user, h, port) && NoSpecials(root.scheme)
    ensures Front(root) == front + (['['] + (h' + ([']'] + rest))) && NoSpecials(front) && MissesBracket(h')
  {
    rest := Escape(Netloc, port);
    h' := Escape(Netloc, h);
    var before := if root.scheme == [] then [] else root.scheme + ":";
    var user' := Escape(Netloc, user);
    front := before + "//" + user';
    BracketsAreKept(root.netloc, user, h, port);
    EscapedUser(user);
    EscapedAddress(h);
    hide Escape, InRanges, NoSpecials;
    BeforeHasNoSpecials(root.scheme, user');
    FrontSplits(before, user', h', rest);
  }

  lemma BeforeHasNoSpecials(scheme: Text, user: Text)
    requires NoSpecials(scheme) && NoSpecials(user)
    ensures NoSpecials((if scheme == [] then [] else scheme + ":") + "//" + user)
  {
  }

  lemma FrontSplits(before: Text, user: Text, h: Text, rest: Text)
    ensures before + ("//" + (user + ['['] + (h + [']'] + rest))) == before + "//" + user + (['['] + (h + ([']'] + rest)))
  {
    Regroup(h, [']'], rest);
    Regroup(user, ['['], h + [']'] + rest);
    Regroup("//", user, ['['] + (h + [']'] + rest));
    Regroup(before, "//", user);
    Regroup(before, "//" + user, ['['] + (h + [']'] + rest));
  }

  lemma EscapedUser(user: Text)
    requires NoSpecials(user)
    ensures NoSpecials(Escape(Netloc, user))
  {
    assert !IsHex('*') && !IsHex('?') && !IsHex('[');
    EscapeAvoids(Netloc, user, '*');
    EscapeAvoids(Netloc, user, '?');
    EscapeAvoids(Netloc, user, '[');
    var s := Escape(Netloc, user);
    hide Escape;
    forall k | 0 <= k < |s|
      ensures s[k] != '*' && s[k] != '?' && s[k] != '['
    {
      assert s[k] in s;
    }
  }

  lemma EscapedAddress(h: Text)
    requires h != [] && h[0] != '!' && ']' !in h
    ensures var h' := Escape(Netloc, h); h' != [] && h'[0] != '!' && ']' !in h'
  {
    assert !IsHex(']');
    EscapeAvoids(Netloc, h, ']');
    EscapeLength(Netloc, h);
    var rest := h[1..];
    assert h == [h[0]] + rest;
    QuoteHead(Netloc, h[0], rest);
    var q := Quote(Netloc, h);
    assert q[0] != '!' && q == [q[0]] + q[1..];
    RepairHead(q[0], q[1..]);
  }

  lemma BracketsAreKept(netloc: Text, user: Text, h: Text, port: Text)
    requires netloc == user + ['['] + (h + [']'] + port)
    ensures Escape(Netloc, netloc) ==
            Escape(Netloc, user) + ['['] + (Escape(Netloc, h) + [']'] + Escape(Netloc, port))
  {
    assert IsSafe(Netloc, '[') && IsSafe(Netloc, ']') && !IsHex('[') && !IsHex(']');
    hide Escape, IsSafe, IsHex;
    EscapeParts(Netloc, user, '[', h + [']'] + port);
    EscapeParts(Netloc, h, ']', port);
  }

  lemma BracketsMiss(front: Text, h: Text, rest: Text, p: Text, s: Text)
    requires NoSpecials(front) && MissesBracket(h)
    ensures var host := ['['] + (h + ([']'] + rest)); !Match(front + host + p, front + host + s)
  {
    var host := ['['] + (h + ([']'] + rest));
    BracketMisses(h, rest + p, host + s);
    assert host + p == ['['] + (h + ([']'] + (rest + p)));
    hide Match, MissesBracket;
    LiteralsPass(front, host + p, host + s);
    Regroup(front, host, p);
    Regroup(front, host, s);
  }

  lemma BracketMisses(h: Text, after: Text, s: Text)
    requires MissesBracket(h) && s != [] && s[0] == '['
    ensures !Match(['['] + (h + ([']'] + after)), s)
  {
    var p := ['['] + (h + ([']'] + after));
    assert p[1] == h[0] && h[0] in h;
    forall i | 1 <= i < 1 + |h|
      ensures p[i] != ']'
    {
      assert p[i] == h[i - 1] && h[i - 1] in h;
    }
    ClosesAt(p, 1, 1 + |h|);
    assert p[1..1 + |h|] == h;
  }

  lemma {:induction false} ClosesAt(p: Text, i: nat, j: nat)
    requires i <= j < |p| && p[j] == ']' && forall k :: i <= k < j ==> p[k] != ']'
    ensures ClosingBracket(p, i) == j
    decreases j - i
  {
    if i < j {
      ClosesAt(p, i + 1, j);
    }
  }
}

/** A run with the generator's own patterns among its filters. */
module OwnRun {
  import opened Basics
  import opened UrlEscape
  import opened Addresses
  import opened Wildcards
  import opened SitemapNames
  import opened OwnOutput
  import opened UrlOrder
  import opened SitemapWriter

  /** `fnmatchcase`, on a location that may hold any characters. */
  predicate MatchesLoc(p: Text, loc: string) {
    (forall i :: 0 <= i < |loc| ==> loc[i] < '\U{100}') && Match(p, loc)
  }

  /** Validation and filters, and then the two patterns of the output files. */
  function Ignoring(admit: (Url, bool) -> Option<Url>, wild1: Text, wild2: Text): (Url, bool) -> Option<Url> {
    (url, allowFragment) =>
      var u := admit(url, allowFragment);
      if u.Some? && (MatchesLoc(wild1, u.value.loc) || MatchesLoc(wild2, u.value.loc)) then None else u
  }

  lemma {:induction false} AdmittedPass(admit: (Url, bool) -> Option<Url>, wild1: Text, wild2: Text, inputs: seq<(Url, bool)>)
    ensures forall u | u in Admitted(Ignoring(admit, wild1, wild2), inputs) ::
              !MatchesLoc(wild1, u.loc) && !MatchesLoc(wild2, u.loc)
  {
    if inputs != [] {
      AdmittedPass(admit, wild1, wild2, inputs[..|inputs| - 1]);
    }
  }

  /** What a file of the run holds was admitted. */
  lemma WrittenWasAdmitted(files: seq<seq<Url>>, h: seq<Url>, k: nat, w: Url)
    requires OncePerLocation(files, h) && k < |files| && w in files[k]
    ensures exists u :: u in h && u.loc == w.loc
  {
    hide SameLocation, Listed;
    var m :| 0 <= m < |files[k]| && files[k][m] == w;
    assert Came(h, files[k][m]);
  }

  /** The run of a site: no file lists the URL of an output file, but of those that slip through. */
  method RunSite(root: Address, prefix: Text, suffix: Text, limit: nat, admit: (Url, bool) -> Option<Url>,
                 inputs: seq<(Url, bool)>)
    returns (files: seq<seq<Url>>, index: Option<seq<nat>>)
    requires IsRoot(root) && IsExtension(suffix) && limit >= 1
    ensures forall k, w, i | 0 <= k < |files| && w in files[k] && w.loc == UrlOf(root, prefix, suffix, i) ::
              SlipsThrough(root, prefix, suffix, i)
    ensures '[' !in root.netloc && !IsOpen(prefix) ==>
              forall k, w, i | 0 <= k < |files| && w in files[k] :: w.loc != UrlOf(root, prefix, suffix, i)
  {
    hide Match, UrlOf, WildOf, IsOpen, IsRoot, IsExtension, Written, IsFlushOf, Admitted, SharedOut, IsFileCount;
    hide RankedBySightings, FirstSeen, KeysOf, DistinctKeys, AllChunks, OncePerLocation;
    var wild1, wild2 := WildOf(root, prefix, suffix), UrlOf(root, prefix, suffix, Index);
    ghost var log;
    files, index, log := Run(limit, Ignoring(admit, wild1, wild2), inputs);
    AdmittedPass(admit, wild1, wild2, inputs);
    forall k, w, i | 0 <= k < |files| && w in files[k] && w.loc == UrlOf(root, prefix, suffix, i)
      ensures SlipsThrough(root, prefix, suffix, i)
    {
      WrittenWasAdmitted(files, Admitted(Ignoring(admit, wild1, wild2), inputs), k, w);
    }
    if '[' !in root.netloc && !IsOpen(prefix) {
      OwnUrlsAreRecognised(root, prefix, suffix);
    }
  }
}
