/**
 URLs as texts: cutting one into components, and what canonicalising makes of the part after the host.
*/
module Addresses {
  import opened Basics
  import opened UrlEscape

  /** A URL cut after its host: what follows starts with a slash, a question mark or a hash sign. */
  datatype Address = Address(scheme: Text, netloc: Text, rest: Text)

  /** What `urlsplit` finds: a scheme of letters and the like, and a rest that starts with a delimiter. */
  predicate IsAddress(a: Address) {
    && (forall i :: 0 <= i < |a.scheme| ==> a.scheme[i] !in "%[&")
    && (a.rest == [] || a.rest[0] == '/' || a.rest[0] == '?' || a.rest[0] == '#')
  }

  /** What precedes the first `c`, and what follows it. */
  function Cut(s: Text, c: Octet): (r: (Text, Text))
    ensures c !in r.0 && (forall d: Octet :: d !in s ==> d !in r.0 && d !in r.1)
  {
    if s == [] then ([], [])
    else if s[0] == c then ([], s[1..])
    else
      var r := Cut(s[1..], c);
      ([s[0]] + r.0, r.1)
  }

  function PathIn(rest: Text): (path: Text)
    ensures '#' !in path && '?' !in path
  {
    Cut(Cut(rest, '#').0, '?').0
  }

  function QueryIn(rest: Text): (query: Text)
    ensures '#' !in query
  {
    Cut(Cut(rest, '#').0, '?').1
  }

  function FragmentIn(rest: Text): Text {
    Cut(rest, '#').1
  }

  /** `urlsplit` */
  function PartsOf(a: Address): Parts {
    Parts(a.scheme, a.netloc, PathIn(a.rest), QueryIn(a.rest), FragmentIn(a.rest))
  }

  function Assemble(path: Text, query: Text, fragment: Text): Text {
    path + (After("?", query) + After("#", fragment))
  }

  /** What canonicalising makes of the part after the host. */
  function Canonical(rest: Text): Text {
    Assemble(Escape(Path, PathIn(rest)), Escape(Query, QueryIn(rest)), Escape(Fragment, FragmentIn(rest)))
  }

  /** The part before it. */
  function Front(a: Address): Text {
    (if a.scheme == [] then [] else a.scheme + ":") + After("//", Escape(Netloc, a.netloc))
  }

  lemma PartsAreSplit(a: Address)
    requires IsAddress(a)
    ensures IsSplit(PartsOf(a))
    ensures Unsplit(Escaped(PartsOf(a))) == Front(a) + Canonical(a.rest)
  {
    var u := PartsOf(a);
    var path := u.path;
    if path != [] {
      assert Cut(a.rest, '#').0[0] == path[0];
    }
    hide Escape;
    Regroup(if a.scheme == [] then [] else a.scheme + ":", After("//", Escape(Netloc, a.netloc)), Canonical(a.rest));
  }

  lemma {:induction false} QuoteJoins(part: Part, a: Text, b: Text)
    ensures Quote(part, a + b) == Quote(part, a) + Quote(part, b)
  {
    if a == [] {
      assert a + b == b;
    } else {
      var c, rest := a[0], a[1..];
      assert a == [c] + rest && a + b == [c] + (rest + b);
      QuoteJoins(part, rest, b);
      hide Quote, IsSafe;
      QuoteHead(part, c, rest);
      QuoteHead(part, c, rest + b);
      var head := if IsSafe(part, c) then [c] else ['%', HexDigit(c as int / 16), HexDigit(c as int % 16)];
      Regroup(head, Quote(part, rest), Quote(part, b));
    }
  }

  /** A byte that is no percent sign and no digit appears only where it stood before. */
  lemma {:induction false} EscapeAvoids(part: Part, s: Text, c: Octet)
    requires c !in s && c != '%' && !IsHex(c)
    ensures c !in Quote(part, s) && c !in Escape(part, s)
  {
    QuoteAvoids(part, s, c);
    RepairAvoids(Quote(part, s), c);
  }

  lemma {:induction false} QuoteAvoids(part: Part, s: Text, c: Octet)
    requires c !in s && c != '%' && !IsHex(c)
    ensures c !in Quote(part, s)
  {
    if s != [] {
      QuoteAvoids(part, s[1..], c);
    }
  }

  lemma {:induction false} RepairAvoids(s: Text, c: Octet)
    requires c !in s && c != '%' && !IsHex(c)
    ensures c !in Repair(s)
  {
    if s != [] {
      RepairAvoids(s[1..], c);
      assert IsHex('2') && IsHex('5');
    }
  }

  /** Nothing to quote and nothing that could complete or start an escape. */
  predicate IsPlain(s: Text) {
    forall i :: 0 <= i < |s| ==> IsPlainOctet(s[i])
  }

  predicate IsPlainOctet(c: Octet) {
    'a' <= c <= 'z' || 'A' <= c <= 'Z' || '0' <= c <= '9' || c == '.' || c == '_'
  }

  lemma {:induction false} PlainIsFixed(part: Part, s: Text)
    requires IsPlain(s)
    ensures Quote(part, s) == s && Repair(s) == s && Escape(part, s) == s
    ensures '?' !in s && '#' !in s && '/' !in s && '%' !in s
  {
    if s != [] {
      assert IsPlainOctet(s[0]);
      PlainIsFixed(part, s[1..]);
      assert s == [s[0]] + s[1..];
    }
  }

  /** The last byte of a text, quoted. */
  lemma QuoteLast(part: Part, front: Text, c: Octet)
    ensures Quote(part, front + [c]) == Quote(part, front) +
              (if IsSafe(part, c) then [c] else ['%', HexDigit(c as int / 16), HexDigit(c as int % 16)])
  {
    QuoteJoins(part, front, [c]);
    QuoteHead(part, c, []);
    QuoteNothing(part);
  }

  /** Quoting does not leave a text open that was not. */
  lemma QuoteStaysShut(part: Part, s: Text)
    requires !IsOpen(s)
    ensures !IsOpen(Quote(part, s))
  {
    QuoteNothing(part);
    PercentIsNotHex();
    hide IsSafe, IsHex, Quote, HexDigit;
    if s != [] {
      var front, c := s[..|s| - 1], s[|s| - 1];
      assert s == front + [c];
      QuoteLast(part, front, c);
      if IsSafe(part, c) && front != [] && IsHex(c) {
        var d := front[|front| - 1];
        assert s[|s| - 2] == d;
        assert front == front[..|front| - 1] + [d];
        QuoteLast(part, front[..|front| - 1], d);
      }
    }
  }

  /** Plain text appended after a text that is not open stays as it is. */
  lemma EscapeAppends(part: Part, s: Text, t: Text)
    requires IsPlain(t) && !IsOpen(s)
    ensures Escape(part, s + t) == Escape(part, s) + t
  {
    QuoteJoins(part, s, t);
    PlainIsFixed(part, t);
    QuoteStaysShut(part, s);
    RepairJoins(Quote(part, s), t);
  }

  /** A byte that needs no quoting and belongs to no escape parts a text. */
  lemma EscapeParts(part: Part, a: Text, c: Octet, b: Text)
    requires IsSafe(part, c) && c != '%' && !IsHex(c)
    ensures Escape(part, a + [c] + b) == Escape(part, a) + [c] + Escape(part, b)
  {
    hide IsSafe, IsHex;
    Regroup(a, [c], b);
    QuoteJoins(part, a, [c] + b);
    QuoteHead(part, c, b);
    hide Quote, Repair;
    RepairJoins(Quote(part, a), [c] + Quote(part, b));
    RepairHead(c, Quote(part, b));
    Regroup(Repair(Quote(part, a)), [c], Repair(Quote(part, b)));
  }

  /** Path segments are escaped one by one. */
  lemma EscapeSegments(dir: Text, name: Text)
    ensures Escape(Path, dir + ['/'] + name) == Escape(Path, dir) + ['/'] + Escape(Path, name)
  {
    assert IsSafe(Path, '/') && !IsHex('/');
    EscapeParts(Path, dir, '/', name);
  }

  lemma {:induction false} CutWhereItIs(before: Text, c: Octet, after: Text)
    requires c !in before
    ensures Cut(before + [c] + after, c) == (before, after)
    ensures Cut(before, c) == (before, [])
  {
    if before != [] {
      CutWhereItIs(before[1..], c, after);
      var s := before + [c] + after;
      assert s[1..] == before[1..] + [c] + after;
      assert before == [before[0]] + before[1..];
    } else {
      assert before + [c] + after == [c] + after;
    }
  }

  /** Taking apart undoes putting together. */
  lemma AssembledIsSplit(path: Text, query: Text, fragment: Text)
    requires '?' !in path && '#' !in path && '#' !in query
    ensures var rest := Assemble(path, query, fragment);
            PathIn(rest) == path && QueryIn(rest) == query && FragmentIn(rest) == fragment
  {
    var front := path + After("?", query);
    assert '#' !in front;
    assert Assemble(path, query, fragment) == front + After("#", fragment);
    CutAfter(front, '#', fragment);
    CutAfter(path, '?', query);
  }

  lemma CutAfter(before: Text, c: Octet, after: Text)
    requires c !in before
    ensures Cut(before + After([c], after), c) == (before, after)
  {
    CutWhereItIs(before, c, after);
    assert before + [] == before;
    Regroup(before, [c], after);
    hide Cut;
  }

  /** Splitting a canonical URL gives the escaped components, so canonicalising again changes nothing. */
  lemma CanonicalIsSplit(rest: Text)
    ensures PathIn(Canonical(rest)) == Escape(Path, PathIn(rest))
    ensures QueryIn(Canonical(rest)) == Escape(Query, QueryIn(rest))
    ensures FragmentIn(Canonical(rest)) == Escape(Fragment, FragmentIn(rest))
    ensures Canonical(Canonical(rest)) == Canonical(rest)
  {
    var path, query, fragment := PathIn(rest), QueryIn(rest), FragmentIn(rest);
    assert !IsHex('?') && !IsHex('#');
    EscapeAvoids(Path, path, '?');
    EscapeAvoids(Path, path, '#');
    EscapeAvoids(Query, query, '#');
    AssembledIsSplit(Escape(Path, path), Escape(Query, query), Escape(Fragment, fragment));
    EscapeIsCanonical(Path, path);
    EscapeIsCanonical(Query, query);
    EscapeIsCanonical(Fragment, fragment);
  }

  /** The delimiter of a component that is there but empty: canonicalising drops it. */
  function Dangling(rest: Text): Text {
    if '#' in rest then (if FragmentIn(rest) == [] then "#" else [])
    else if '?' in rest && QueryIn(rest) == [] then "?" else []
  }

  lemma {:induction false} CutAppends(s: Text, c: Octet, t: Text)
    requires c !in t
    ensures Cut(s + t, c) == if c in s then (Cut(s, c).0, Cut(s, c).1 + t) else (s + t, [])
    ensures c !in s ==> Cut(s, c) == (s, [])
    ensures c in s ==> s == Cut(s, c).0 + [c] + Cut(s, c).1
  {
    if s == [] {
      CutWhereItIs(t, c, []);
      assert s + t == t;
    } else {
      var d, rest := s[0], s[1..];
      CutAppends(rest, c, t);
      assert s == [d] + rest;
      Regroup([d], rest, t);
      CutHead(d, rest, c);
      CutHead(d, rest + t, c);
      hide Cut;
      if d != c {
        Regroup([d], Cut(rest, c).0, [c]);
        Regroup([d], Cut(rest, c).0 + [c], Cut(rest, c).1);
      }
    }
  }

  lemma CutHead(d: Octet, rest: Text, c: Octet)
    ensures Cut([d] + rest, c) == if d == c then ([], rest) else ([d] + Cut(rest, c).0, Cut(rest, c).1)
  {
    assert ([d] + rest)[1..] == rest;
  }

  /** The last bytes of the last component decide whether the whole is open. */
  lemma OpenAtTheEnd(a: Text, c: Octet, b: Text)
    requires c != '%' && !IsHex(c)
    ensures IsOpen(a + [c] + b) <==> IsOpen(b)
  {
    var s := a + [c] + b;
    hide IsHex;
    if b != [] {
      assert s[|s| - 1] == b[|b| - 1];
      if |b| >= 2 {
        assert s[|s| - 2] == b[|b| - 2];
      } else {
        assert s[|s| - 2] == c;
      }
    } else {
      assert s[|s| - 1] == c;
    }
  }

  /** The last component, which what is appended belongs to. */
  function LastPart(rest: Text): (Part, Text) {
    if '#' in rest then (Fragment, FragmentIn(rest))
    else if '?' in rest then (Query, QueryIn(rest))
    else (Path, PathIn(rest))
  }

  lemma LastPartEnds(rest: Text)
    ensures IsOpen(LastPart(rest).1) <==> IsOpen(rest)
  {
    CutAppends(rest, '#', []);
    assert !IsHex('#') && !IsHex('?');
    hide IsOpen, IsHex;
    if '#' in rest {
      OpenAtTheEnd(Cut(rest, '#').0, '#', FragmentIn(rest));
    } else {
      CutAppends(rest, '?', []);
      if '?' in rest {
        OpenAtTheEnd(PathIn(rest), '?', QueryIn(rest));
      }
    }
  }

  /** What is appended to a URL makes its last component grow, after a delimiter that dangled. */
  lemma CanonicalGrows(rest: Text, t: Text, u: Text)
    requires t != [] && u != [] && '#' !in t && '?' !in t
    requires var (part, s) := LastPart(rest); Escape(part, s + t) == Escape(part, s) + u
    ensures Canonical(rest + t) == Canonical(rest) + Dangling(rest) + u
  {
    CutAppends(rest, '#', t);
    var path, query, fragment := PathIn(rest), QueryIn(rest), FragmentIn(rest);
    EscapeNothing(Fragment);
    EscapeNothing(Query);
    if '#' in rest {
      EscapeLength(Fragment, fragment);
      hide Escape, Cut;
      FragmentGrows(Escape(Path, path), Escape(Query, query), Escape(Fragment, fragment), u);
    } else {
      CutAppends(rest, '?', t);
      EscapeLength(Query, query);
      hide Escape, Cut;
      if '?' in rest {
        QueryGrows(Escape(Path, path), Escape(Query, query), u);
      } else {
        PathGrows(Escape(Path, path), u);
      }
    }
  }

  /** Plain text appended to a URL that is not open is appended to the canonical one, after a delimiter that dangled. */
  lemma CanonicalAppends(rest: Text, t: Text)
    requires IsPlain(t) && t != [] && !IsOpen(rest)
    ensures Canonical(rest + t) == Canonical(rest) + Dangling(rest) + t
  {
    PlainIsFixed(Path, t);
    LastPartEnds(rest);
    EscapeAppends(LastPart(rest).0, LastPart(rest).1, t);
    CanonicalGrows(rest, t, t);
  }

  /** A percent sign before `t`, repaired unless it starts an escape. */
  function PercentBefore(t: Text): Text {
    if TwoHex(t) then ['%'] else ['%', '2', '5']
  }

  lemma EscapePercent(part: Part, s: Text, t: Text)
    requires IsPlain(t)
    ensures Escape(part, s + (['%'] + t)) == Escape(part, s) + (PercentBefore(t) + t)
  {
    PlainIsFixed(part, t);
    PercentIsNotHex();
    HexIsSafe(part, '%');
    hide IsSafe, IsHex, TwoHex, Quote, Repair, IsPlain;
    QuoteJoins(part, s, ['%'] + t);
    QuoteHead(part, '%', t);
    RepairJoins(Quote(part, s), ['%'] + t);
    RepairHead('%', t);
  }

  /** A percent sign and plain text, appended to any URL. */
  lemma CanonicalAfterPercent(rest: Text, t: Text)
    requires IsPlain(t)
    ensures Canonical(rest + (['%'] + t)) == Canonical(rest) + Dangling(rest) + (PercentBefore(t) + t)
  {
    PlainIsFixed(Path, t);
    EscapePercent(LastPart(rest).0, LastPart(rest).1, t);
    CanonicalGrows(rest, ['%'] + t, PercentBefore(t) + t);
  }

  lemma EscapeNothing(part: Part)
    ensures Escape(part, []) == []
  {
  }

  lemma EscapeLength(part: Part, s: Text)
    ensures Escape(part, s) == [] <==> s == []
  {
    if s != [] {
      var rest := s[1..];
      assert s == [s[0]] + rest;
      QuoteHead(part, s[0], rest);
      assert Quote(part, s) != [];
      assert Repair(Quote(part, s)) != [];
    }
  }

  lemma FragmentGrows(path: Text, query: Text, fragment: Text, t: Text)
    requires t != []
    ensures Assemble(path, query, fragment + t) ==
            Assemble(path, query, fragment) + (if fragment == [] then "#" else []) + t
  {
    AfterGrows("#", fragment, t);
    AppendedAtTheEnd(path, After("?", query), After("#", fragment), if fragment == [] then "#" else [], t);
  }

  lemma QueryGrows(path: Text, query: Text, t: Text)
    requires t != []
    ensures Assemble(path, query + t, []) == Assemble(path, query, []) + (if query == [] then "?" else []) + t
  {
    AfterGrows("?", query, t);
    NothingAdded(After("?", query));
    NothingAdded(After("?", query + t));
    AppendedAtTheEnd(path, [], After("?", query), if query == [] then "?" else [], t);
  }

  lemma PathGrows(path: Text, t: Text)
    ensures Assemble(path + t, [], []) == Assemble(path, [], []) + [] + t
  {
    NothingAdded(path);
    NothingAdded(path + t);
    NothingAdded([]);
  }

  lemma AfterGrows(delimiter: Text, s: Text, t: Text)
    requires t != []
    ensures After(delimiter, s + t) == After(delimiter, s) + (if s == [] then delimiter else []) + t
  {
    NothingAdded(t);
    NothingAdded(delimiter);
    NothingAdded(delimiter + s);
    Regroup(delimiter, s, t);
  }

  lemma AppendedAtTheEnd(a: Text, b: Text, c: Text, d: Text, t: Text)
    ensures a + (b + c) + d + t == a + (b + (c + d + t))
  {
    Regroup(a, b + c, d + t);
    Regroup(b, c, d + t);
    Regroup(c, d, t);
    Regroup(a + (b + c), d, t);
  }

  lemma NothingAdded(s: Text)
    ensures s + [] == s && [] + s == s
  {
  }

  lemma NothingDangles(rest: Text)
    ensures Dangling(Canonical(rest)) == []
  {
    var path, query, fragment := Escape(Path, PathIn(rest)), Escape(Query, QueryIn(rest)), Escape(Fragment, FragmentIn(rest));
    CanonicalIsSplit(rest);
    hide Escape, PathIn, QueryIn, FragmentIn;
    assert '#' in Canonical(rest) ==> fragment != [] by {
      CanonicalHasNoHash(rest);
    }
    if query == [] && fragment == [] {
      assert Canonical(rest) == path;
      CanonicalHasNoHash(rest);
    }
  }

  lemma CanonicalHasNoHash(rest: Text)
    ensures '#' !in Escape(Path, PathIn(rest)) && '?' !in Escape(Path, PathIn(rest)) && '#' !in Escape(Query, QueryIn(rest))
  {
    assert !IsHex('?') && !IsHex('#');
    EscapeAvoids(Path, PathIn(rest), '?');
    EscapeAvoids(Path, PathIn(rest), '#');
    EscapeAvoids(Query, QueryIn(rest), '#');
  }

  /** In a canonical text every escape is complete, and outside a host no bracket is left. */
  lemma {:induction false} CanonicalIsShut(part: Part, s: Text)
    requires IsCanonical(part, s)
    ensures !IsOpen(s) && (!part.Netloc? ==> '[' !in s)
  {
    if s != [] {
      CanonicalIsShut(part, s[1..]);
      PercentIsNotHex();
      assert s == [s[0]] + s[1..];
      if |s| >= 2 {
        assert s[|s| - 1] == s[1..][|s| - 2];
      }
      if |s| >= 3 {
        assert s[|s| - 2] == s[1..][|s| - 3];
      }
    }
  }

  /** A canonical URL is not open, whatever the URL was. */
  lemma CanonicalStaysShut(rest: Text)
    ensures !IsOpen(Canonical(rest)) && '[' !in Canonical(rest)
  {
    var path, query, fragment := Escape(Path, PathIn(rest)), Escape(Query, QueryIn(rest)), Escape(Fragment, FragmentIn(rest));
    EscapeIsCanonical(Path, PathIn(rest));
    EscapeIsCanonical(Query, QueryIn(rest));
    EscapeIsCanonical(Fragment, FragmentIn(rest));
    CanonicalIsShut(Path, path);
    CanonicalIsShut(Query, query);
    CanonicalIsShut(Fragment, fragment);
    assert !IsHex('?') && !IsHex('#');
    hide Escape, PathIn, QueryIn, FragmentIn, IsOpen, IsHex;
    AssembledIsShut(path, query, fragment);
  }

  lemma AssembledIsShut(path: Text, query: Text, fragment: Text)
    requires !IsOpen(path) && !IsOpen(query) && !IsOpen(fragment)
    ensures !IsOpen(Assemble(path, query, fragment))
  {
    assert !IsHex('?') && !IsHex('#');
    hide IsOpen, IsHex;
    AfterIsShut(path, '?', query);
    AfterIsShut(path + After("?", query), '#', fragment);
    Regroup(path, After("?", query), After("#", fragment));
  }

  lemma AfterIsShut(before: Text, c: Octet, s: Text)
    requires !IsOpen(before) && !IsOpen(s) && c != '%' && !IsHex(c)
    ensures !IsOpen(before + After([c], s))
  {
    OpenAtTheEnd(before, c, s);
    Regroup(before, [c], s);
    NothingAdded(before);
  }

  /** A canonical URL, taken apart and put together, keeps what comes before the rest. */
  lemma CanonicalIsAddress(a: Address)
    requires IsAddress(a) && '/' in a.rest
    ensures var b := Address(a.scheme, Escape(Netloc, a.netloc), Canonical(a.rest));
            IsAddress(b) && b.rest != [] && Front(b) == Front(a) && Canonical(b.rest) == b.rest
  {
    EscapeIsCanonical(Netloc, a.netloc);
    CanonicalIsSplit(a.rest);
    PathStarts(a.rest);
    SlashStays(PathIn(a.rest));
    SomethingStays(a.rest);
    hide Escape, PathIn, QueryIn, FragmentIn;
    AssembledStarts(Escape(Path, PathIn(a.rest)), Escape(Query, QueryIn(a.rest)), Escape(Fragment, FragmentIn(a.rest)));
  }

  lemma PathStarts(rest: Text)
    requires rest == [] || rest[0] == '/' || rest[0] == '?' || rest[0] == '#'
    ensures PathIn(rest) == [] || PathIn(rest)[0] == '/'
  {
    if rest != [] {
      CutHead(rest[0], rest[1..], '#');
      assert rest == [rest[0]] + rest[1..];
      var front := Cut(rest, '#').0;
      if front != [] {
        CutHead(front[0], front[1..], '?');
        assert front == [front[0]] + front[1..];
      }
    }
  }

  lemma SlashStays(path: Text)
    requires path == [] || path[0] == '/'
    ensures Escape(Path, path) == [] || Escape(Path, path)[0] == '/'
  {
    if path != [] {
      assert path == ['/'] + path[1..];
      QuoteHead(Path, '/', path[1..]);
      RepairHead('/', Quote(Path, path[1..]));
    }
  }

  lemma SomethingStays(rest: Text)
    requires '/' in rest
    ensures Escape(Path, PathIn(rest)) != [] || Escape(Query, QueryIn(rest)) != [] || Escape(Fragment, FragmentIn(rest)) != []
  {
    EscapeLength(Path, PathIn(rest));
    EscapeLength(Query, QueryIn(rest));
    EscapeLength(Fragment, FragmentIn(rest));
    hide Escape, Cut;
    CutKeeps(rest, '#', '/');
    if '/' in Cut(rest, '#').0 {
      CutKeeps(Cut(rest, '#').0, '?', '/');
    }
  }

  lemma AssembledStarts(path: Text, query: Text, fragment: Text)
    requires (path == [] || path[0] == '/') && (path != [] || query != [] || fragment != [])
    ensures var rest := Assemble(path, query, fragment);
            rest != [] && (rest[0] == '/' || rest[0] == '?' || rest[0] == '#')
  {
  }

  lemma {:induction false} CutKeeps(s: Text, c: Octet, d: Octet)
    requires d != c && d in s
    ensures d in Cut(s, c).0 || d in Cut(s, c).1
  {
    if s[0] != c && s[0] != d {
      CutKeeps(s[1..], c, d);
    }
  }
}
