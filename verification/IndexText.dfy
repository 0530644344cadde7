/**
 The index as XML text: its locations are written without escaping an ampersand, and read as character data.
*/
module IndexText {
  import opened Basics
  import opened UrlEscape
  import opened Addresses
  import opened SitemapNames
  import opened IndexReader

  // Character data.

  /** The named reference that `s` starts with: what it stands for, and its length. */
  function Reference(s: Text): (r: Option<(Octet, nat)>)
    ensures r.Some? ==> 4 <= r.value.1 <= |s| && r.value.0 in "&<>\"'"
  {
    if "&amp;" <= s then Some(('&', 5))
    else if "&lt;" <= s then Some(('<', 4))
    else if "&gt;" <= s then Some(('>', 4))
    else if "&quot;" <= s then Some(('"', 6))
    else if "&apos;" <= s then Some(('\'', 6))
    else None
  }

  /** What the parser makes of character data; an ampersand that starts no reference is a fatal error. */
  function CharData(s: Text): Option<Text> {
    if s == [] then Some([])
    else if s[0] != '&' then Cons(s[0], CharData(s[1..]))
    else
      var r := Reference(s);
      if r.Some? then Cons(r.value.0, CharData(s[r.value.1..])) else None
  }

  /** How a byte is to be written as character data. */
  function Markup(c: Octet): Text {
    if c == '&' then "&amp;"
    else if c == '<' then "&lt;"
    else if c == '>' then "&gt;"
    else if c == '"' then "&quot;"
    else if c == '\'' then "&apos;"
    else [c]
  }

  function Marked(s: Text): Text {
    if s == [] then [] else Markup(s[0]) + Marked(s[1..])
  }

  /** What is written so comes back. */
  lemma {:induction false} MarkedReadsBack(s: Text)
    ensures CharData(Marked(s)) == Some(s)
  {
    hide CharData, Reference, Markup;
    CharDataIs([]);
    if s != [] {
      MarkedReadsBack(s[1..]);
      MarkupReads(s[0], Marked(s[1..]));
      assert s == [s[0]] + s[1..];
    }
  }

  lemma MarkupReads(c: Octet, rest: Text)
    ensures CharData(Markup(c) + rest) == Cons(c, CharData(rest))
  {
    hide CharData, Reference;
    var m := Markup(c);
    CharDataIs(m + rest);
    assert (m + rest)[0] == m[0] && (m + rest)[|m|..] == rest;
    if m[0] == '&' {
      MarkupRefers(c, rest);
    }
  }

  lemma MarkupRefers(c: Octet, rest: Text)
    requires Markup(c)[0] == '&'
    ensures Reference(Markup(c) + rest) == Some((c, |Markup(c)|))
  {
    var m := Markup(c);
    Begins("&amp;", m, rest, if c == '\'' then 2 else 1);
    Begins("&lt;", m, rest, 1);
    Begins("&gt;", m, rest, 1);
    Begins("&quot;", m, rest, 1);
    Begins("&apos;", m, rest, if c == '&' then 2 else 1);
  }

  /** Of two different references neither starts the other. */
  lemma Begins(r: Text, m: Text, rest: Text, i: nat)
    requires r == m || (i < |r| && i < |m| && r[i] != m[i])
    ensures r <= m + rest <==> r == m
  {
    if r != m {
      assert (m + rest)[i] == m[i];
    }
  }

  lemma CharDataIs(s: Text)
    ensures CharData(s) == if s == [] then Some([])
                           else if s[0] != '&' then Cons(s[0], CharData(s[1..]))
                           else if Reference(s).Some? then Cons(Reference(s).value.0, CharData(s[Reference(s).value.1..]))
                           else None
  {
  }

  function Cons(c: Octet, s: Option<Text>): Option<Text> {
    if s.Some? then Some([c] + s.value) else None
  }

  function Both(a: Option<Text>, b: Option<Text>): Option<Text> {
    if a.Some? && b.Some? then Some(a.value + b.value) else None
  }

  /** No reference reaches across a byte that is no letter and no semicolon. */
  predicate IsOutside(c: Octet) {
    c != ';' && !('a' <= c <= 'z')
  }

  lemma ReferenceStays(a: Text, b: Text)
    requires a != [] && a[0] == '&' && (b == [] || IsOutside(b[0]))
    ensures Reference(a + b) == Reference(a)
  {
    PrefixStays("&amp;", a, b);
    PrefixStays("&lt;", a, b);
    PrefixStays("&gt;", a, b);
    PrefixStays("&quot;", a, b);
    PrefixStays("&apos;", a, b);
  }

  lemma PrefixStays(r: Text, a: Text, b: Text)
    requires forall i :: 1 <= i < |r| ==> !IsOutside(r[i])
    requires a != [] && (b == [] || IsOutside(b[0]))
    ensures r <= a + b <==> r <= a
  {
    if |a| < |r| <= |a + b| {
      assert (a + b)[|a|] == b[0];
    }
  }

  lemma {:induction false} CharDataJoins(a: Text, b: Text)
    requires b == [] || IsOutside(b[0])
    ensures CharData(a + b) == Both(CharData(a), CharData(b))
    decreases |a|
  {
    if a == [] {
      assert a + b == b;
      assert CharData(b).Some? ==> [] + CharData(b).value == CharData(b).value;
    } else {
      var n := 1;
      if a[0] == '&' {
        ReferenceStays(a, b);
        n := if Reference(a).Some? then Reference(a).value.1 else 1;
      }
      assert (a + b)[n..] == a[n..] + b;
      CharDataJoins(a[n..], b);
      hide CharData, Reference, IsOutside;
      var x, y := CharData(a[n..]), CharData(b);
      if x.Some? && y.Some? {
        Regroup([if a[0] == '&' && Reference(a).Some? then Reference(a).value.0 else a[0]], x.value, y.value);
      }
    }
  }

  /** What is not decoded to appears only where it stood before. */
  lemma {:induction false} CharDataAvoids(s: Text, c: Octet)
    requires c !in s && c !in "&<>\"'"
    ensures CharData(s).Some? ==> c !in CharData(s).value
    decreases |s|
  {
    if s != [] {
      CharDataAvoids(s[if s[0] == '&' && Reference(s).Some? then Reference(s).value.1 else 1..], c);
    }
  }

  lemma {:induction false} NoReference(s: Text)
    requires '&' !in s
    ensures CharData(s) == Some(s)
  {
    if s != [] {
      NoReference(s[1..]);
      assert s == [s[0]] + s[1..];
    }
  }

  lemma SomethingDecodes(s: Text)
    ensures CharData(s).Some? ==> (CharData(s).value == [] <==> s == [])
  {
  }

  /** A text in front of a byte that is part of no reference, and the rest. */
  lemma CharDataParts(a: Text, c: Octet, b: Text)
    requires IsOutside(c) && c != '&'
    ensures CharData(a + [c] + b) == Both(CharData(a), Cons(c, CharData(b)))
  {
    Regroup(a, [c], b);
    assert ([c] + b)[1..] == b;
    CharDataJoins(a, [c] + b);
  }

  lemma CharDataAfter(delimiter: Octet, s: Text)
    requires IsOutside(delimiter) && delimiter != '&'
    ensures CharData(After([delimiter], s)) == if CharData(s).Some? then Some(After([delimiter], CharData(s).value)) else None
  {
    SomethingDecodes(s);
    if s != [] {
      assert ([delimiter] + s)[1..] == s;
    }
  }

  /** The part of a URL after its host is decoded component by component. */
  lemma AssembledDecodes(path: Text, query: Text, fragment: Text)
    ensures CharData(Assemble(path, query, fragment)) ==
            var p, q, f := CharData(path), CharData(query), CharData(fragment);
            if p.Some? && q.Some? && f.Some? then Some(Assemble(p.value, q.value, f.value)) else None
  {
    assert IsOutside('?') && IsOutside('#');
    CharDataAfter('?', query);
    CharDataAfter('#', fragment);
    assert ['?'] == "?" && ['#'] == "#";
    hide CharData, IsOutside;
    CharDataJoins(After("?", query), After("#", fragment));
    StartsOutside(query, fragment);
    CharDataJoins(path, After("?", query) + After("#", fragment));
  }

  lemma StartsOutside(query: Text, fragment: Text)
    ensures var s := After("?", query) + After("#", fragment); s == [] || IsOutside(s[0])
    ensures var s := After("#", fragment); s == [] || IsOutside(s[0])
  {
  }

  // Decoding never makes a name longer.

  /** Where a canonical text is decoded, what it stands for gets shorter by each reference. */
  lemma {:induction false} DecodingShrinks(part: Part, s: Text)
    requires IsCanonical(part, s) && CharData(s).Some?
    ensures |Unquote(CharData(s).value)| <= |Unquote(s)|
    ensures '&' in s ==> |Unquote(CharData(s).value)| < |Unquote(s)|
    decreases |s|
  {
    if s != [] {
      if s[0] == '&' {
        var r := Reference(s).value;
        var rest := s[r.1..];
        CanonicalEnds(part, s, r.1);
        DecodingShrinks(part, rest);
        LiteralUnquotes(s, r.1);
        assert s == s[..r.1] + rest;
        UnquoteLiteral(r.0, CharData(rest).value);
      } else if s[0] == '%' {
        var rest := s[3..];
        CanonicalEnds(part, s, 3);
        EscapeDecodes(s);
        DecodingShrinks(part, rest);
        UnquoteEscape(s[1], s[2], CharData(rest).value);
        UnquoteEscape(s[1], s[2], rest);
        assert s == ['%', s[1], s[2]] + rest;
      } else {
        DecodingShrinks(part, s[1..]);
        UnquoteLiteral(s[0], CharData(s[1..]).value);
        assert s == [s[0]] + s[1..];
      }
    }
  }

  lemma {:induction false} CanonicalEnds(part: Part, s: Text, n: nat)
    requires IsCanonical(part, s) && n <= |s|
    ensures IsCanonical(part, s[n..])
    decreases n
  {
    if n > 0 {
      CanonicalEnds(part, s[1..], n - 1);
      assert s[1..][n - 1..] == s[n..];
    } else {
      assert s[0..] == s;
    }
  }

  lemma EscapeDecodes(s: Text)
    requires IsEscape(s)
    ensures '&' in s <==> '&' in s[3..]
    ensures CharData(s) == if CharData(s[3..]).Some? then Some(['%', s[1], s[2]] + CharData(s[3..]).value) else None
  {
    assert s[1..][1..] == s[2..] && s[2..][1..] == s[3..];
    assert s[1] != '&' && s[2] != '&';
    assert CharData(s[2..]) == Cons(s[2], CharData(s[3..]));
    assert CharData(s[1..]) == Cons(s[1], CharData(s[2..]));
    if CharData(s[3..]).Some? {
      assert ['%'] + ([s[1]] + ([s[2]] + CharData(s[3..]).value)) == ['%', s[1], s[2]] + CharData(s[3..]).value;
    }
    assert s == ['%', s[1], s[2]] + s[3..];
  }

  /** A reference holds no percent sign. */
  lemma LiteralUnquotes(s: Text, n: nat)
    requires s != [] && s[0] == '&' && Reference(s).Some? && n == Reference(s).value.1
    ensures Unquote(s) == s[..n] + Unquote(s[n..]) && '%' !in s[..n]
  {
    assert forall i :: 0 <= i < n ==> s[i] in "&ampltgquos;";
    LiteralFront(s, n);
  }

  lemma {:induction false} LiteralFront(s: Text, n: nat)
    requires n <= |s| && forall i :: 0 <= i < n ==> s[i] != '%'
    ensures Unquote(s) == s[..n] + Unquote(s[n..])
    decreases n
  {
    if n == 0 {
      assert s[0..] == s;
    } else {
      LiteralFront(s[1..], n - 1);
      assert s[1..][n - 1..] == s[n..] && s[..n] == [s[0]] + s[1..][..n - 1];
      assert s[0] != '%';
    }
  }

  // Locations.

  /** A location as it is read. */
  function ReadLocation(a: Address): Option<Address> {
    var netloc, rest := CharData(a.netloc), CharData(a.rest);
    if netloc.Some? && rest.Some? then Some(Address(a.scheme, netloc.value, rest.value)) else None
  }

  /** The text of an address. */
  function TextOf(a: Address): Text {
    (if a.scheme == [] then [] else a.scheme + ":") + (After("//", a.netloc) + a.rest)
  }

  /** Decoding the text of an address decodes its host and what follows it. */
  lemma LocationDecodes(a: Address)
    requires IsAddress(a)
    ensures CharData(TextOf(a)) == if ReadLocation(a).Some? then Some(TextOf(ReadLocation(a).value)) else None
  {
    var front := if a.scheme == [] then [] else a.scheme + ":";
    assert '&' !in front;
    NoReference(front);
    HostDecodes(a.netloc);
    hide CharData;
    CharDataJoins(After("//", a.netloc), a.rest);
    StartsWithSlash(a.netloc, a.rest);
    CharDataJoins(front, After("//", a.netloc) + a.rest);
  }

  lemma StartsWithSlash(netloc: Text, rest: Text)
    requires rest == [] || rest[0] == '/' || rest[0] == '?' || rest[0] == '#'
    ensures var s := After("//", netloc) + rest; s == [] || IsOutside(s[0])
  {
  }

  lemma HostDecodes(netloc: Text)
    ensures CharData(After("//", netloc)) ==
            if CharData(netloc).Some? then Some(After("//", CharData(netloc).value)) else None
  {
    SomethingDecodes(netloc);
    if netloc != [] {
      var s := "//" + netloc;
      assert s[1..] == "/" + netloc && s[1..][1..] == netloc;
      assert CharData(s[1..]) == Cons('/', CharData(netloc));
      if CharData(netloc).Some? {
        assert "//" + CharData(netloc).value == ['/'] + (['/'] + CharData(netloc).value);
      }
    }
  }

  /** A location holds no markup, so that it is character data. */
  lemma {:induction false} CanonicalHasNoMarkup(part: Part, s: Text)
    requires IsCanonical(part, s)
    ensures '<' !in s && '>' !in s
  {
    if s != [] {
      CanonicalHasNoMarkup(part, s[1..]);
      assert s == [s[0]] + s[1..];
    }
  }

  /** The name in a location that was decoded is the base name, decoded and unquoted. */
  lemma DecodedName(root: Address, name: Text)
    requires ReadLocation(LocationOf(root, name)).Some?
    ensures var base := Escape(Path, BaseName(PathIn(root.rest + name)));
            && CharData(base).Some?
            && NameIn(ReadLocation(LocationOf(root, name)).value) == Unquote(CharData(base).value)
  {
    var rest := root.rest + name;
    var path, query, fragment := Escape(Path, PathIn(rest)), Escape(Query, QueryIn(rest)), Escape(Fragment, FragmentIn(rest));
    CanonicalHasNoHash(rest);
    BaseNameEscaped(PathIn(rest));
    hide Escape, PathIn, QueryIn, FragmentIn, BaseName, Unquote, CharData;
    AssembledDecodes(path, query, fragment);
    CharDataAvoids(path, '?');
    CharDataAvoids(path, '#');
    CharDataAvoids(query, '#');
    var p, q, f := CharData(path).value, CharData(query).value, CharData(fragment).value;
    AssembledIsSplit(p, q, f);
    CanonicalIsSplit(Assemble(p, q, f));
    BaseNameEscaped(p);
    BaseNameDecodes(path);
    EscapeIsCanonical(Path, BaseName(p));
  }

  lemma BaseNameDecodes(path: Text)
    requires CharData(path).Some?
    ensures CharData(BaseName(path)).Some? && BaseName(CharData(path).value) == CharData(BaseName(path)).value
  {
    var dir, name := path[..NameStart(path)], BaseName(path);
    assert path == dir + name;
    if dir == [] {
      CharDataAvoids(name, '/');
      hide CharData, NameStart, BaseName;
      NothingAdded(CharData(name).value);
      BaseNameAfterSlash([], CharData(name).value);
    } else {
      var front := dir[..|dir| - 1];
      assert dir == front + ['/'];
      CharDataParts(front, '/', name);
      CharDataAvoids(name, '/');
      hide CharData, NameStart, BaseName;
      var f, n := CharData(front).value, CharData(name).value;
      Regroup(f, ['/'], n);
      BaseNameAfterSlash(f + ['/'], n);
    }
  }

  /** Below a base without query and fragment the name comes through exactly if it has no ampersand either. */
  lemma NameComesThrough(name: Text)
    requires CharData(Escape(Path, PathIn(name))).Some?
    ensures Unquote(CharData(Escape(Path, PathIn(name))).value) == name <==> '&' !in name && ReadsBack(name)
  {
    var path := PathIn(name);
    var e := Escape(Path, path);
    PathOfName(name);
    EscapeIsCanonical(Path, path);
    UnquotedPathIsName(name);
    UnquoteShrinks(path);
    AmpersandStays(path);
    hide Escape, PathIn, Unquote, ReadsBack, HasEscape, CharData;
    if '&' in path {
      DecodingShrinks(Path, e);
      PathIsFront(name);
    } else {
      NoReference(e);
    }
  }

  lemma PathIsFront(name: Text)
    ensures '&' in PathIn(name) ==> '&' in name
  {
  }

  lemma AmpersandStays(s: Text)
    ensures '&' in Escape(Path, s) <==> '&' in s
  {
    assert !IsHex('&');
    if '&' !in s {
      EscapeAvoids(Path, s, '&');
    } else {
      var i :| 0 <= i < |s| && s[i] == '&';
      assert s == s[..i] + ['&'] + s[i + 1..];
      EscapeParts(Path, s[..i], '&', s[i + 1..]);
    }
  }

  // Reading back.

  /** A base whose host and path can be read as they are written. */
  predicate IsReadable(root: Address) {
    CharData(Escape(Netloc, root.netloc)).Some? && CharData(Canonical(root.rest)).Some?
  }

  /** The location of a file called `name` is read as such: nothing in base and name stops the parser, and the name comes
      through; below a base with a query or a fragment, where the names then go, the base's last segment has to. */
  predicate ComesBack(root: Address, name: Text) {
    if IsPathOnly(root) then IsReadable(root) && '&' !in name && ReadsBack(name)
    else
      && ReadLocation(LocationOf(root, name)).Some?
      && var base := CharData(Escape(Path, BaseName(PathIn(root.rest))));
         base.Some? && Unquote(base.value) == name
  }

  lemma NameComesBack(root: Address, name: Text)
    requires IsRoot(root) && '/' !in name
    ensures var a := ReadLocation(LocationOf(root, name));
            a.Some? && NameIn(a.value) == name <==> ComesBack(root, name)
  {
    var a := ReadLocation(LocationOf(root, name));
    if a.Some? {
      DecodedName(root, name);
    }
    if IsPathOnly(root) {
      if '&' !in name && ReadsBack(name) {
        ReadableName(root, name);
      }
      PathBelow(root.rest, name);
      PathOfName(name);
      BaseNameAfterSlash(root.rest, PathIn(name));
      hide ReadLocation, LocationOf, PathIn, BaseName, Escape, CharData, NameIn, Unquote, IsReadable, ReadsBack, NameStart;
      if a.Some? {
        NameComesThrough(name);
      }
    } else {
      PathBeyond(root.rest, name);
    }
  }

  /** Below a base without query and fragment a location with a plain name can be read exactly if the base can. */
  lemma ReadableName(root: Address, name: Text)
    requires IsRoot(root) && IsPathOnly(root) && '/' !in name && '&' !in name && ReadsBack(name)
    ensures ReadLocation(LocationOf(root, name)).Some? <==> IsReadable(root)
  {
    var r := root.rest;
    var front := r[..|r| - 1];
    assert r == front + ['/'] && '?' !in r + name && '#' !in r + name;
    assert IsOutside('/') && !IsHex('&');
    OnlyPath(r + name);
    OnlyPath(r);
    EscapeSegments(front, name);
    EscapeSegments(front, []);
    EscapeAvoids(Path, name, '&');
    NoReference(Escape(Path, name));
    NothingAdded(front + ['/']);
    EscapeNothing(Path);
    CharDataParts(Escape(Path, front), '/', Escape(Path, name));
    CharDataParts(Escape(Path, front), '/', []);
  }

  lemma OnlyPath(rest: Text)
    requires '?' !in rest && '#' !in rest
    ensures Canonical(rest) == Escape(Path, rest)
  {
    CutShortens(rest, '#');
    CutShortens(rest, '?');
    CutAppends(rest, '#', []);
    CutAppends(rest, '?', []);
    EscapeNothing(Query);
    EscapeNothing(Fragment);
    hide Cut, Escape;
    NothingAdded(Escape(Path, rest));
  }

  /** The files that an index stands for: none, if anywhere in it the parser fails. */
  function FilesIn(dir: Text, urls: seq<Address>): (files: Option<seq<Text>>)
    ensures files.Some? ==> |files.value| <= |urls|
  {
    if urls == [] then Some([])
    else
      var before, a := FilesIn(dir, urls[..|urls| - 1]), ReadLocation(urls[|urls| - 1]);
      if before.Some? && a.Some? then Some(before.value + FileOf(dir, a.value)) else None
  }

  function IndexedFiles(dir: Text, urls: seq<Address>): seq<Text> {
    var files := FilesIn(dir, urls);
    if files.Some? then files.value else []
  }

  ghost predicate AllComeBack(root: Address, path: Text, prefix: Text, suffix: Text, count: nat) {
    forall n: nat :: n < count ==> FileComesBack(root, path, prefix, suffix, n)
  }

  predicate FileComesBack(root: Address, path: Text, prefix: Text, suffix: Text, n: nat) {
    IsBelowRoot(path) && ComesBack(root, prefix + Ending(suffix, Numbered(n)))
  }

  lemma LocationComesBack(root: Address, path: Text, prefix: Text, suffix: Text, n: nat)
    requires IsRoot(root) && IsDirectory(path) && '/' !in prefix && IsExtension(suffix)
    ensures var name, index := prefix + Ending(suffix, Numbered(n)), prefix + Ending(suffix, Index);
            var a := ReadLocation(LocationOf(root, name));
            a.Some? && FileOf(DirName(path + index), a.value) == [path + name] <==> FileComesBack(root, path, prefix, suffix, n)
  {
    var name, index := prefix + Ending(suffix, Numbered(n)), prefix + Ending(suffix, Index);
    var a := ReadLocation(LocationOf(root, name));
    EndingIsPlain(suffix, Numbered(n));
    EndingIsPlain(suffix, Index);
    hide Ending, IsPlain, IsExtension;
    DirNameOfFile(path, index);
    NameComesBack(root, name);
    hide DirName, NameIn, LocationOf, ReadLocation, FileNamed, ComesBack, IsDirectory, OnlySlashes, IsRoot;
    if a.Some? {
      ReadBelow(path, name, NameIn(a.value));
    }
  }

  /** Reading the text of the index gives back the paths of all files in order exactly when every location is read, and
      read as the file that it stands for. */
  lemma {:induction false} IndexTextReadsBack(root: Address, path: Text, prefix: Text, suffix: Text, count: nat)
    requires IsRoot(root) && IsDirectory(path) && '/' !in prefix && IsExtension(suffix)
    ensures IndexedFiles(DirName(path + (prefix + Ending(suffix, Index))), Locations(root, prefix, suffix, count))
            == Paths(path, prefix, suffix, count)
            <==> AllComeBack(root, path, prefix, suffix, count)
  {
    hide FilesIn, DirName, Locations, AllComeBack, Ending;
    FilesInComeBack(root, path, prefix, suffix, count);
    if count == 0 {
      NoneComesBack(root, path, prefix, suffix);
    }
  }

  lemma NoneComesBack(root: Address, path: Text, prefix: Text, suffix: Text)
    ensures AllComeBack(root, path, prefix, suffix, 0)
  {
  }

  lemma {:induction false} FilesInComeBack(root: Address, path: Text, prefix: Text, suffix: Text, count: nat)
    requires IsRoot(root) && IsDirectory(path) && '/' !in prefix && IsExtension(suffix)
    ensures FilesIn(DirName(path + (prefix + Ending(suffix, Index))), Locations(root, prefix, suffix, count))
            == Some(Paths(path, prefix, suffix, count))
            <==> AllComeBack(root, path, prefix, suffix, count)
  {
    var dir := DirName(path + (prefix + Ending(suffix, Index)));
    if count > 0 {
      var n := count - 1;
      var name := prefix + Ending(suffix, Numbered(n));
      FilesInComeBack(root, path, prefix, suffix, n);
      LocationComesBack(root, path, prefix, suffix, n);
      OneMoreComesBack(root, path, prefix, suffix, n);
      OneMoreIn(dir, Locations(root, prefix, suffix, n), LocationOf(root, name));
      hide FilesIn, DirName, Ending, AllComeBack, FileComesBack, FileOf, LocationOf, ReadLocation, IsRoot, IsDirectory;
      var before, a := FilesIn(dir, Locations(root, prefix, suffix, n)), ReadLocation(LocationOf(root, name));
      if before.Some? && a.Some? {
        LastOfBoth(before.value, FileOf(dir, a.value), Paths(path, prefix, suffix, n), path + name);
      }
    }
  }

  lemma OneMoreComesBack(root: Address, path: Text, prefix: Text, suffix: Text, n: nat)
    ensures AllComeBack(root, path, prefix, suffix, n + 1) <==>
            AllComeBack(root, path, prefix, suffix, n) && FileComesBack(root, path, prefix, suffix, n)
  {
    hide FileComesBack;
  }

  lemma OneMoreIn(dir: Text, urls: seq<Address>, a: Address)
    ensures var before, b := FilesIn(dir, urls), ReadLocation(a);
            FilesIn(dir, urls + [a]) ==
            if before.Some? && b.Some? then Some(before.value + FileOf(dir, b.value)) else None
  {
    assert (urls + [a])[..|urls|] == urls;
  }

  /** A prefix without percent sign, delimiters and ampersand is enough below such a base, whatever the number. */
  lemma PlainPrefixComesBack(root: Address, prefix: Text, suffix: Text, i: Instance)
    requires IsRoot(root) && IsPathOnly(root) && IsReadable(root) && IsExtension(suffix)
    requires '%' !in prefix && '?' !in prefix && '#' !in prefix && '&' !in prefix
    ensures ComesBack(root, prefix + Ending(suffix, i))
  {
    PlainPrefixReadsBack(prefix, suffix, i);
    EndingIsPlain(suffix, i);
    EndingHasNoAmpersand(Ending(suffix, i));
  }

  lemma EndingHasNoAmpersand(s: Text)
    requires IsPlain(s)
    ensures '&' !in s
  {
  }

  /** With an ampersand in the prefix no file comes back, below any base without query and fragment. */
  lemma AmpersandLosesAll(root: Address, path: Text, prefix: Text, suffix: Text, count: nat)
    requires IsRoot(root) && IsPathOnly(root) && IsDirectory(path) && '/' !in prefix && IsExtension(suffix)
    requires '&' in prefix && count > 0
    ensures IndexedFiles(DirName(path + (prefix + Ending(suffix, Index))), Locations(root, prefix, suffix, count))
            != Paths(path, prefix, suffix, count)
  {
    assert '&' in prefix + Ending(suffix, Numbered(0));
    assert !FileComesBack(root, path, prefix, suffix, 0);
    IndexTextReadsBack(root, path, prefix, suffix, count);
  }
}
