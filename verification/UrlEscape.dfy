/**
 Making a URL canonical: quoting each component, and repairing percent signs that do not start an escape.
*/
module UrlEscape {
  import opened Basics

  /** A byte of a narrow string. */
  type Octet = c: char | c < '\U{100}'

  type Text = seq<Octet>

  datatype Part = Netloc | Path | Query | Fragment

  predicate IsHex(c: Octet) {
    '0' <= c <= '9' || 'a' <= c <= 'f' || 'A' <= c <= 'F'
  }

  function HexValue(c: Octet): nat
    requires IsHex(c)
    ensures HexValue(c) < 16
  {
    if '0' <= c <= '9' then c as int - '0' as int
    else if 'a' <= c <= 'f' then c as int - 'a' as int + 10
    else c as int - 'A' as int + 10
  }

  function HexDigit(n: nat): (c: Octet)
    requires n < 16
    ensures IsHex(c) && HexValue(c) == n && c != '%'
  {
    if n < 10 then '0' + n as char else 'A' + (n - 10) as char
  }

  /** What `quote` lets through in a component: letters, digits, and what the component adds, `%` among it. */
  predicate IsSafe(part: Part, c: Octet) {
    || 'a' <= c <= 'z' || 'A' <= c <= 'Z' || '0' <= c <= '9' || c in "_.-"
    || c in "~!$&'()*+,;=" || c in "%:@/"
    || (part.Netloc? && c in "[]") || ((part.Query? || part.Fragment?) && c == '?')
  }

  /** `urllib.quote` */
  function Quote(part: Part, s: Text): Text {
    if s == [] then []
    else (if IsSafe(part, s[0]) then [s[0]] else ['%', HexDigit(s[0] as int / 16), HexDigit(s[0] as int % 16)])
         + Quote(part, s[1..])
  }

  predicate TwoHex(s: Text) {
    |s| >= 2 && IsHex(s[0]) && IsHex(s[1])
  }

  /** An escape starts here. */
  predicate IsEscape(s: Text) {
    s != [] && s[0] == '%' && TwoHex(s[1..])
  }

  /** `urllib.unquote`: escapes become bytes, percent signs that start none stay. */
  function Unquote(s: Text): Text {
    if s == [] then []
    else if IsEscape(s) then [(HexValue(s[1]) * 16 + HexValue(s[2])) as char] + Unquote(s[3..])
    else [s[0]] + Unquote(s[1..])
  }

  /** Every percent sign that starts no escape is escaped itself. */
  function Repair(s: Text): Text {
    if s == [] then []
    else (if s[0] == '%' && !IsEscape(s) then "%25" else [s[0]]) + Repair(s[1..])
  }

  /** How `Canonicalize` leaves a component. */
  function Escape(part: Part, s: Text): Text {
    Repair(Quote(part, s))
  }

  /** Every percent sign starts an escape, and nothing else needs quoting. */
  ghost predicate IsCanonical(part: Part, s: Text) {
    s == [] || (IsSafe(part, s[0]) && (s[0] == '%' ==> IsEscape(s)) && IsCanonical(part, s[1..]))
  }

  lemma UnquoteLiteral(c: Octet, rest: Text)
    requires !(c == '%' && TwoHex(rest))
    ensures Unquote([c] + rest) == [c] + Unquote(rest) && !IsEscape([c] + rest)
  {
    assert ([c] + rest)[1..] == rest;
  }

  lemma UnquoteEscape(a: Octet, b: Octet, rest: Text)
    requires IsHex(a) && IsHex(b)
    ensures Unquote(['%', a, b] + rest) == [(HexValue(a) * 16 + HexValue(b)) as char] + Unquote(rest)
    ensures IsEscape(['%', a, b] + rest)
  {
    var s := ['%', a, b] + rest;
    assert s[1..] == [a, b] + rest && s[3..] == rest;
  }

  lemma HexIsSafe(part: Part, c: Octet)
    ensures IsHex(c) ==> IsSafe(part, c) && c != '%'
    ensures IsSafe(part, '%')
  {
  }

  /** Quoting neither makes nor breaks an escape. */
  lemma QuoteHex(part: Part, s: Text)
    ensures TwoHex(Quote(part, s)) <==> TwoHex(s)
    ensures TwoHex(s) ==> Quote(part, s) == s[..2] + Quote(part, s[2..])
  {
    hide IsSafe, IsHex;
    HexIsSafe(part, '%');
    if s != [] {
      HexIsSafe(part, s[0]);
      var rest := s[1..];
      if rest != [] {
        HexIsSafe(part, rest[0]);
        assert Quote(part, s) == [s[0]] + Quote(part, rest) || !TwoHex(s);
        assert rest[1..] == s[2..];
      }
    }
  }

  lemma QuoteHead(part: Part, c: Octet, rest: Text)
    ensures Quote(part, [c] + rest) ==
            (if IsSafe(part, c) then [c] else ['%', HexDigit(c as int / 16), HexDigit(c as int % 16)]) + Quote(part, rest)
  {
    assert ([c] + rest)[1..] == rest;
  }

  /** Quoting keeps what a component stands for. */
  lemma {:induction false} QuoteMeans(part: Part, s: Text)
    ensures Unquote(Quote(part, s)) == Unquote(s)
    decreases |s|
  {
    hide IsSafe, IsHex, HexValue, HexDigit, Quote, TwoHex;
    if s == [] {
      QuoteNothing(part);
    } else {
      var c, rest := s[0], s[1..];
      assert s == [c] + rest;
      QuoteHead(part, c, rest);
      QuoteHex(part, rest);
      HexIsSafe(part, c);
      if IsEscape(s) {
        TwoHexParts(rest);
        QuoteMeans(part, rest[2..]);
        UnquoteEscape(rest[0], rest[1], rest[2..]);
        UnquoteEscape(rest[0], rest[1], Quote(part, rest[2..]));
        FirstThree(rest, Quote(part, rest[2..]));
        FirstThree(rest, rest[2..]);
      } else {
        QuoteMeans(part, rest);
        QuotedByteMeans(part, c, rest);
      }
    }
  }

  /** A byte that starts no escape stands for itself, quoted or not. */
  lemma QuotedByteMeans(part: Part, c: Octet, rest: Text)
    requires !(c == '%' && TwoHex(rest)) && Unquote(Quote(part, rest)) == Unquote(rest)
    ensures Unquote(Quote(part, [c] + rest)) == Unquote([c] + rest)
  {
    hide IsSafe, IsHex, HexValue, HexDigit, Quote, TwoHex;
    QuoteHead(part, c, rest);
    QuoteHex(part, rest);
    HexIsSafe(part, c);
    UnquoteLiteral(c, rest);
    if IsSafe(part, c) {
      UnquoteLiteral(c, Quote(part, rest));
    } else {
      ByteOfDigits(c);
      UnquoteEscape(HexDigit(c as int / 16), HexDigit(c as int % 16), Quote(part, rest));
    }
  }

  lemma FirstThree(rest: Text, k: Text)
    requires |rest| >= 2
    ensures ['%'] + (rest[..2] + k) == ['%', rest[0], rest[1]] + k
    ensures rest[..2] + rest[2..] == rest
  {
  }

  lemma QuoteNothing(part: Part)
    ensures Quote(part, []) == []
  {
  }

  lemma TwoHexParts(s: Text)
    requires TwoHex(s)
    ensures |s| >= 2 && IsHex(s[0]) && IsHex(s[1])
  {
  }

  lemma ByteOfDigits(c: Octet)
    ensures var h, l := HexDigit(c as int / 16), HexDigit(c as int % 16);
            IsHex(h) && IsHex(l) && (HexValue(h) * 16 + HexValue(l)) as char == c
  {
  }

  /** Repairing neither makes nor breaks an escape. */
  lemma RepairHex(s: Text)
    ensures TwoHex(Repair(s)) <==> TwoHex(s)
    ensures TwoHex(s) ==> Repair(s) == s[..2] + Repair(s[2..])
  {
    if s != [] && s[1..] != [] {
      assert s[1..][1..] == s[2..];
      assert IsHex(s[0]) ==> Repair(s) == [s[0]] + Repair(s[1..]);
    }
  }

  lemma RepairHead(c: Octet, rest: Text)
    ensures Repair([c] + rest) == (if c == '%' && !TwoHex(rest) then "%25" else [c]) + Repair(rest)
    ensures Repair([]) == []
  {
    assert ([c] + rest)[1..] == rest;
  }

  /** Repairing keeps what a text stands for. */
  lemma {:induction false} RepairMeans(s: Text)
    ensures Unquote(Repair(s)) == Unquote(s)
    decreases |s|
  {
    hide IsHex, HexValue, Repair, TwoHex;
    if s == [] {
      RepairHead('%', []);
    } else {
      var c, rest := s[0], s[1..];
      assert s == [c] + rest;
      RepairHead(c, rest);
      RepairHex(rest);
      if IsEscape(s) {
        TwoHexParts(rest);
        RepairMeans(rest[2..]);
        UnquoteEscape(rest[0], rest[1], rest[2..]);
        UnquoteEscape(rest[0], rest[1], Repair(rest[2..]));
        FirstThree(rest, Repair(rest[2..]));
        FirstThree(rest, rest[2..]);
      } else {
        RepairMeans(rest);
        UnquoteLiteral(c, rest);
        if c == '%' {
          PercentIsEscaped();
          UnquoteEscape('2', '5', Repair(rest));
        } else {
          UnquoteLiteral(c, Repair(rest));
        }
      }
    }
  }

  lemma PercentIsNotHex()
    ensures !IsHex('%')
  {
  }

  lemma PercentIsEscaped()
    ensures IsHex('2') && IsHex('5') && (HexValue('2') * 16 + HexValue('5')) as char == '%'
  {
  }

  ghost predicate AllSafe(part: Part, s: Text) {
    s == [] || (IsSafe(part, s[0]) && AllSafe(part, s[1..]))
  }

  lemma {:induction false} QuoteIsSafe(part: Part, s: Text)
    ensures AllSafe(part, Quote(part, s))
  {
    if s != [] {
      var rest := Quote(part, s[1..]);
      QuoteIsSafe(part, s[1..]);
      if IsSafe(part, s[0]) {
        assert ([s[0]] + rest)[1..] == rest;
      } else {
        var h, l := HexDigit(s[0] as int / 16), HexDigit(s[0] as int % 16);
        HexIsSafe(part, h);
        HexIsSafe(part, l);
        AllSafeHead(part, l, rest);
        AllSafeHead(part, h, [l] + rest);
        AllSafeHead(part, '%', [h] + ([l] + rest));
        assert ['%', h, l] + rest == ['%'] + ([h] + ([l] + rest));
      }
    }
  }

  lemma AllSafeHead(part: Part, c: Octet, rest: Text)
    ensures AllSafe(part, [c] + rest) <==> IsSafe(part, c) && AllSafe(part, rest)
  {
    assert ([c] + rest)[1..] == rest;
  }

  lemma CanonicalHead(part: Part, c: Octet, rest: Text)
    ensures IsCanonical(part, [c] + rest) <==>
            IsSafe(part, c) && (c == '%' ==> TwoHex(rest)) && IsCanonical(part, rest)
  {
    assert ([c] + rest)[1..] == rest;
  }

  lemma {:induction false} RepairIsCanonical(part: Part, s: Text)
    requires AllSafe(part, s)
    ensures IsCanonical(part, Repair(s))
  {
    hide *;
    NothingIsCanonical(part);
    if s == [] {
      RepairHead('%', []);
    } else {
      var c, rest := s[0], s[1..];
      assert s == [c] + rest;
      AllSafeHead(part, c, rest);
      RepairIsCanonical(part, rest);
      RepairHex(rest);
      RepairHead(c, rest);
      CanonicalHead(part, c, Repair(rest));
      EscapedPercentIsCanonical(part, Repair(rest));
    }
  }

  lemma NothingIsCanonical(part: Part)
    ensures IsCanonical(part, [])
  {
  }

  lemma EscapedPercentIsCanonical(part: Part, r: Text)
    requires IsCanonical(part, r)
    ensures IsCanonical(part, "%25" + r)
  {
    PercentIsEscaped();
    HexIsSafe(part, '2');
    HexIsSafe(part, '5');
    hide IsSafe, IsHex, IsCanonical, HexValue;
    CanonicalHead(part, '5', r);
    CanonicalHead(part, '2', ['5'] + r);
    CanonicalHead(part, '%', ['2'] + (['5'] + r));
    assert "%25" + r == ['%'] + (['2'] + (['5'] + r));
    assert TwoHex(['2'] + (['5'] + r));
  }

  lemma {:induction false} CanonicalIsFixed(part: Part, s: Text)
    requires IsCanonical(part, s)
    ensures Quote(part, s) == s && Repair(s) == s
  {
    if s != [] {
      CanonicalIsFixed(part, s[1..]);
      assert s == [s[0]] + s[1..];
    }
  }

  /** On every component canonicalising keeps the meaning, leaves no stray percent sign and nothing to quote, and
      changes nothing the second time. */
  lemma EscapeIsCanonical(part: Part, s: Text)
    ensures Unquote(Escape(part, s)) == Unquote(s)
    ensures IsCanonical(part, Escape(part, s)) && Escape(part, Escape(part, s)) == Escape(part, s)
  {
    QuoteMeans(part, s);
    RepairMeans(Quote(part, s));
    QuoteIsSafe(part, s);
    RepairIsCanonical(part, Quote(part, s));
    CanonicalIsFixed(part, Escape(part, s));
  }

  // What becomes of each byte, with the bytes and digits written out.

  const UPPER: Text := "0123456789ABCDEF"
  const LOWER: Text := "0123456789abcdef"

  /** A byte other than the percent sign that stays as it is. */
  predicate Stays(part: Part, c: Octet) {
    || 'A' <= c <= 'Z' || 'a' <= c <= 'z' || '0' <= c <= '9'
    || c == '-' || c == '.' || c == '_' || c == '~' || c == '!' || c == '$' || c == '&' || c == '\'' || c == '(' || c == ')'
    || c == '*' || c == '+' || c == ',' || c == ';' || c == '=' || c == ':' || c == '@' || c == '/'
    || (part.Netloc? && (c == '[' || c == ']')) || (part.Query? && c == '?') || (part.Fragment? && c == '?')
  }

  ghost predicate StartsWithDigits(s: Text) {
    |s| >= 2 && (s[0] in UPPER || s[0] in LOWER) && (s[1] in UPPER || s[1] in LOWER)
  }

  lemma StayIsSafe(part: Part, c: Octet)
    ensures IsSafe(part, c) <==> c == '%' || Stays(part, c)
    ensures Stays(part, c) ==> c != '%'
  {
  }

  lemma Digits(c: Octet)
    ensures IsHex(c) <==> c in UPPER || c in LOWER
  {
    if '0' <= c <= '9' {
      assert c == UPPER[c as int - '0' as int];
    } else if 'A' <= c <= 'F' {
      assert c == UPPER[c as int - 'A' as int + 10];
    } else if 'a' <= c <= 'f' {
      assert c == LOWER[c as int - 'a' as int + 10];
    }
  }

  lemma DigitOf(n: nat)
    requires n < 16
    ensures HexDigit(n) == UPPER[n]
  {
  }

  /** Byte by byte: those that stay stay, a percent sign stays if two digits follow and is escaped if not, and all others
      become a percent sign and the two digits of their code. */
  lemma EscapeByByte(part: Part, c: Octet, rest: Text)
    ensures Escape(part, []) == []
    ensures Escape(part, [c] + rest) ==
      (if Stays(part, c) || (c == '%' && StartsWithDigits(rest)) then [c]
       else if c == '%' then "%25"
       else ['%', UPPER[c as int / 16], UPPER[c as int % 16]]) + Escape(part, rest)
  {
    hide IsHex, TwoHex, HexDigit, HexValue, Quote, Repair, Escape, IsSafe, Stays, StartsWithDigits;
    EscapeIs(part, []);
    EscapeIs(part, rest);
    EscapeIs(part, [c] + rest);
    QuoteNothing(part);
    QuoteHead(part, c, rest);
    RepairHead(c, Quote(part, rest));
    StayIsSafe(part, c);
    DigitsStart(part, rest);
    if !Stays(part, c) && c != '%' {
      DigitOf(c as int / 16);
      DigitOf(c as int % 16);
      EscapeStays(UPPER[c as int / 16], UPPER[c as int % 16], Quote(part, rest));
    }
  }

  lemma EscapeIs(part: Part, s: Text)
    ensures Escape(part, s) == Repair(Quote(part, s))
  {
  }

  lemma DigitsStart(part: Part, rest: Text)
    ensures StartsWithDigits(rest) <==> TwoHex(Quote(part, rest))
  {
    hide IsHex, Quote;
    QuoteHex(part, rest);
    if |rest| >= 2 {
      Digits(rest[0]);
      Digits(rest[1]);
    }
  }

  /** An escape is no stray percent sign, and its digits are none. */
  lemma EscapeStays(h: Octet, l: Octet, rest: Text)
    requires IsHex(h) && IsHex(l)
    ensures Repair(['%', h, l] + rest) == ['%', h, l] + Repair(rest)
  {
    PercentIsNotHex();
    hide IsHex, Repair;
    var s := ['%'] + ([h] + ([l] + rest));
    assert ['%', h, l] + rest == s;
    RepairHead('%', [h] + ([l] + rest));
    RepairHead(h, [l] + rest);
    RepairHead(l, rest);
    assert ['%'] + ([h] + ([l] + Repair(rest))) == ['%', h, l] + Repair(rest);
  }

  /** What consists of bytes that stay comes out unchanged. */
  lemma {:induction false} PlainStays(part: Part, s: Text)
    requires forall i :: 0 <= i < |s| ==> Stays(part, s[i])
    ensures Escape(part, s) == s
  {
    hide Stays, Escape;
    if s == [] {
      EscapeByByte(part, '0', []);
    } else {
      PlainStays(part, s[1..]);
      assert s == [s[0]] + s[1..];
      EscapeByByte(part, s[0], s[1..]);
    }
  }

  /** Decoding takes digits of either case, and each for its place among the sixteen. */
  lemma DigitsDecode(i: nat, j: nat, h: Octet, l: Octet, rest: Text)
    requires i < 16 && j < 16 && (h == UPPER[i] || h == LOWER[i]) && (l == UPPER[j] || l == LOWER[j])
    ensures Unquote(['%', h, l] + rest) == [(16 * i + j) as char] + Unquote(rest)
  {
    hide Unquote;
    DigitValue(i, h);
    DigitValue(j, l);
    UnquoteEscape(h, l, rest);
  }

  lemma DigitValue(i: nat, h: Octet)
    requires i < 16 && (h == UPPER[i] || h == LOWER[i])
    ensures IsHex(h) && HexValue(h) == i
  {
  }

  // The loop over the pieces between percent signs.

  /** `s.split('%')` */
  function Split(s: Text): (pieces: seq<Text>)
    ensures pieces != []
  {
    if s == [] then [[]]
    else
      var rest := Split(s[1..]);
      if s[0] == '%' then [[]] + rest else [[s[0]] + rest[0]] + rest[1..]
  }

  /** The pieces after the first, each after its percent sign. */
  function Rejoin(pieces: seq<Text>): Text {
    if pieces == [] then []
    else (if TwoHex(pieces[0]) then "%" else "%25") + pieces[0] + Rejoin(pieces[1..])
  }

  lemma {:induction false} SplitRepairs(s: Text)
    ensures Repair(s) == Split(s)[0] + Rejoin(Split(s)[1..])
    ensures TwoHex(Split(s)[0]) <==> TwoHex(s)
  {
    if s != [] {
      var c, rest := s[0], s[1..];
      SplitRepairs(rest);
      SecondOf(s);
      SplitHead(s);
      assert s == [c] + rest;
      RepairHead(c, rest);
      hide IsHex, Repair, Split, Rejoin, TwoHex;
      var pieces := Split(rest);
      if c == '%' {
        RejoinHead(pieces);
        Regroup(if TwoHex(pieces[0]) then "%" else "%25", pieces[0], Rejoin(pieces[1..]));
      } else {
        Regroup([c], pieces[0], Rejoin(pieces[1..]));
      }
    }
  }

  lemma SplitHead(s: Text)
    requires s != []
    ensures var pieces := Split(s[1..]);
            if s[0] == '%' then Split(s)[0] == [] && Split(s)[1..] == pieces
            else Split(s)[0] == [s[0]] + pieces[0] && Split(s)[1..] == pieces[1..]
  {
  }

  lemma RejoinHead(pieces: seq<Text>)
    requires pieces != []
    ensures [] + Rejoin(pieces) == (if TwoHex(pieces[0]) then "%" else "%25") + pieces[0] + Rejoin(pieces[1..])
  {
  }

  /** The second byte of a text is that of its first piece, unless it is a percent sign. */
  lemma SecondOf(s: Text)
    requires s != []
    ensures TwoHex(Split(s)[0]) <==> TwoHex(s)
  {
    PercentIsNotHex();
    hide IsHex;
    if s[1..] != [] {
      assert s[1] == s[1..][0];
    }
  }

  /** The end of `Canonicalize`. */
  method RepairPercents(s: Text) returns (narrow: Text)
    ensures narrow == Repair(s)
  {
    var list := Split(s);
    hide Rejoin, Repair, Split, IsHex;
    narrow := list[0];
    list := list[1..];
    SplitRepairs(s);
    assert list[0..] == list;
    var i := 0;
    while i < |list|
      invariant 0 <= i <= |list|
      invariant narrow + Rejoin(list[i..]) == Repair(s)
    {
      var item := list[i];
      RejoinStep(narrow, list, i);
      if |item| >= 2 && IsHex(item[0]) && IsHex(item[1]) {
        narrow := narrow + "%" + item;
      } else {
        narrow := narrow + "%25" + item;
      }
      i := i + 1;
    }
    RejoinEnd(narrow, list);
  }

  lemma RejoinStep(narrow: Text, list: seq<Text>, i: nat)
    requires i < |list|
    ensures narrow + Rejoin(list[i..]) ==
            narrow + (if TwoHex(list[i]) then "%" else "%25") + list[i] + Rejoin(list[i + 1..])
  {
    assert list[i..][1..] == list[i + 1..];
  }

  lemma RejoinEnd(narrow: Text, list: seq<Text>)
    ensures narrow + Rejoin(list[|list|..]) == narrow
  {
  }

  // Whole URLs, as the components that `urlsplit` finds.

  datatype Parts = Parts(scheme: Text, netloc: Text, path: Text, query: Text, fragment: Text)

  /** What `urlsplit` guarantees: no percent sign in the scheme, and a path that follows a host starts with a slash. */
  predicate IsSplit(u: Parts) {
    && (forall i :: 0 <= i < |u.scheme| ==> u.scheme[i] != '%')
    && (u.netloc != [] && u.path != [] ==> u.path[0] == '/')
  }

  /** A component after its delimiter, if there is one. */
  function After(delimiter: Text, s: Text): Text {
    if s == [] then [] else delimiter + s
  }

  /** `urlunsplit` */
  function Unsplit(u: Parts): Text {
    (if u.scheme == [] then [] else u.scheme + ":") + (After("//", u.netloc) +
      (u.path + (After("?", u.query) + After("#", u.fragment))))
  }

  function Quoted(u: Parts): Parts {
    Parts(u.scheme, Quote(Netloc, u.netloc), Quote(Path, u.path), Quote(Query, u.query), Quote(Fragment, u.fragment))
  }

  function Escaped(u: Parts): Parts {
    Parts(u.scheme, Escape(Netloc, u.netloc), Escape(Path, u.path), Escape(Query, u.query), Escape(Fragment, u.fragment))
  }

  /** A text that ends in a percent sign, or in one and a single digit, could become an escape by what follows. */
  predicate IsOpen(s: Text) {
    (s != [] && s[|s| - 1] == '%') || (|s| >= 2 && s[|s| - 2] == '%' && IsHex(s[|s| - 1]))
  }

  lemma {:induction false} RepairJoins(a: Text, b: Text)
    requires b == [] || !IsHex(b[0]) || !IsOpen(a)
    ensures Repair(a + b) == Repair(a) + Repair(b)
    decreases |a|
  {
    if a == [] {
      assert a + b == b;
    } else {
      var c, rest := a[0], a[1..];
      assert a == [c] + rest && a + b == [c] + (rest + b);
      OpenTail(c, rest, b);
      RepairJoins(rest, b);
      hide IsHex, Repair, IsOpen, TwoHex;
      RepairHead(c, rest);
      RepairHead(c, rest + b);
      var head := if c == '%' && !TwoHex(rest) then "%25" else [c];
      Regroup(head, Repair(rest), Repair(b));
    }
  }

  lemma OpenTail(c: Octet, rest: Text, b: Text)
    requires b == [] || !IsHex(b[0]) || !IsOpen([c] + rest)
    ensures b == [] || !IsHex(b[0]) || !IsOpen(rest)
    ensures c == '%' ==> (TwoHex(rest + b) <==> TwoHex(rest))
  {
    var a := [c] + rest;
    PercentIsNotHex();
    hide IsHex;
    if rest != [] {
      assert a[|a| - 1] == rest[|rest| - 1];
      if |rest| >= 2 {
        assert a[|a| - 2] == rest[|rest| - 2];
      }
    }
  }

  lemma {:induction false} NoPercentNoRepair(s: Text)
    requires forall i :: 0 <= i < |s| ==> s[i] != '%'
    ensures Repair(s) == s && !IsOpen(s)
  {
    if s != [] {
      NoPercentNoRepair(s[1..]);
      assert s == [s[0]] + s[1..];
    }
  }

  lemma AfterRepairs(delimiter: Text, s: Text)
    requires forall i :: 0 <= i < |delimiter| ==> delimiter[i] != '%'
    ensures Repair(After(delimiter, s)) == After(delimiter, Repair(s))
  {
    NoPercentNoRepair(delimiter);
    RepairJoins(delimiter, s);
  }

  /** Repairing the whole URL repairs each component: no escape reaches across a delimiter. */
  lemma UnsplitRepairs(u: Parts)
    requires IsSplit(u)
    ensures Repair(Unsplit(u)) ==
            Unsplit(Parts(u.scheme, Repair(u.netloc), Repair(u.path), Repair(u.query), Repair(u.fragment)))
  {
    var front := if u.scheme == [] then [] else u.scheme + ":";
    var host := After("//", u.netloc);
    NoPercentNoRepair(front);
    AfterRepairs("//", u.netloc);
    TailRepairs(u.path, u.query, u.fragment);
    assert u.netloc != [] && u.path != [] ==> !IsHex(u.path[0]);
    assert !IsHex('?') && !IsHex('#');
    hide Repair, IsHex, IsOpen;
    NothingIsOpen();
    RepairJoins(host, u.path + (After("?", u.query) + After("#", u.fragment)));
    RepairJoins(front, host + (u.path + (After("?", u.query) + After("#", u.fragment))));
  }

  lemma TailRepairs(path: Text, query: Text, fragment: Text)
    ensures Repair(path + (After("?", query) + After("#", fragment))) ==
            Repair(path) + (After("?", Repair(query)) + After("#", Repair(fragment)))
  {
    assert !IsHex('?') && !IsHex('#');
    AfterRepairs("?", query);
    AfterRepairs("#", fragment);
    hide Repair, IsHex, IsOpen;
    RepairJoins(After("?", query), After("#", fragment));
    RepairJoins(path, After("?", query) + After("#", fragment));
  }

  lemma NothingIsOpen()
    ensures !IsOpen([])
  {
  }

  lemma QuotedIsSplit(u: Parts)
    requires IsSplit(u)
    ensures IsSplit(Quoted(u)) && IsSplit(Escaped(u))
  {
    if u.path != [] && u.path[0] == '/' {
      var rest := Quote(Path, u.path[1..]);
      assert Quote(Path, u.path) == ['/'] + rest;
      assert Repair(['/'] + rest) == ['/'] + Repair(rest) by {
        RepairHead('/', rest);
      }
    }
    assert forall p: Part :: Quote(p, []) == [] && Escape(p, []) == [];
  }

  /** `Canonicalize`, on the components of a URL. */
  method Canonicalize(u: Parts) returns (narrow: Text)
    requires IsSplit(u)
    ensures narrow == Unsplit(Escaped(u))
    ensures narrow == (if u.scheme == [] then [] else u.scheme + ":")
      + (if u.netloc == [] then [] else "//" + Escape(Netloc, u.netloc)) + Escape(Path, u.path)
      + (if u.query == [] then [] else "?" + Escape(Query, u.query))
      + (if u.fragment == [] then [] else "#" + Escape(Fragment, u.fragment))
  {
    UnsplitSpelled(u);
    QuotedIsSplit(u);
    UnsplitRepairs(Quoted(u));
    narrow := RepairPercents(Unsplit(Quoted(u)));
  }

  lemma UnsplitSpelled(u: Parts)
    ensures Unsplit(Escaped(u)) == (if u.scheme == [] then [] else u.scheme + ":")
      + (if u.netloc == [] then [] else "//" + Escape(Netloc, u.netloc)) + Escape(Path, u.path)
      + (if u.query == [] then [] else "?" + Escape(Query, u.query))
      + (if u.fragment == [] then [] else "#" + Escape(Fragment, u.fragment))
  {
    EscapeEmpty(Netloc, u.netloc);
    EscapeEmpty(Query, u.query);
    EscapeEmpty(Fragment, u.fragment);
    hide Escape;
    var e := Escaped(u);
    RegroupAll(if u.scheme == [] then [] else u.scheme + ":", After("//", e.netloc), e.path,
               After("?", e.query), After("#", e.fragment));
  }

  lemma RegroupAll(a: Text, b: Text, c: Text, d: Text, e: Text)
    ensures a + (b + (c + (d + e))) == a + b + c + d + e
  {
  }

  lemma EscapeEmpty(part: Part, s: Text)
    ensures Escape(part, s) == [] <==> s == []
  {
    hide Escape;
    EscapeByByte(part, '0', []);
    if s != [] {
      EscapeByByte(part, s[0], s[1..]);
      assert s == [s[0]] + s[1..];
    }
  }
}
