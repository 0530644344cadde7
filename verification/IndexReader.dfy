/**
 Reading an index back: the files that its locations are taken for, and when these are the files that were written.
*/
module IndexReader {
  import opened Basics
  import opened UrlEscape
  import opened Addresses
  import opened SitemapNames

  function TrimSlashes(s: Text): Text {
    if s != [] && s[|s| - 1] == '/' then TrimSlashes(s[..|s| - 1]) else s
  }

  /** `os.path.dirname` */
  function DirName(path: Text): Text {
    var head := path[..NameStart(path)];
    if OnlySlashes(head) then head else TrimSlashes(head)
  }

  /** The name of the file that a location is taken for. */
  function NameIn(a: Address): Text {
    Unquote(BaseName(PathIn(Canonical(a.rest))))
  }

  /** A name in directory `dir`, if the path is not empty. */
  function FileNamed(dir: Text, name: Text): (files: seq<Text>)
    ensures |files| <= 1
  {
    var file := if dir != [] then dir + (['/'] + name) else name;
    if file != [] then [file] else []
  }

  /** The file that a location is taken for. */
  function FileOf(dir: Text, a: Address): (files: seq<Text>)
    ensures |files| <= 1
  {
    FileNamed(dir, NameIn(a))
  }

  function FilesOf(dir: Text, urls: seq<Address>): (files: seq<Text>)
    ensures |files| <= |urls|
  {
    if urls == [] then [] else FilesOf(dir, urls[..|urls| - 1]) + FileOf(dir, urls[|urls| - 1])
  }

  class PathList {
    var pathlist: seq<Text>

    constructor (path: Text)
      ensures pathlist == [path]
    {
      pathlist := [path];
    }

    /** Appends the files that the locations of an index stand for, all in the directory of the first file. */
    method MungeLocationListIntoFiles(urls: seq<Address>)
      requires pathlist != [] && forall i :: 0 <= i < |urls| ==> IsAddress(urls[i])
      modifies this
      ensures pathlist == old(pathlist) + FilesOf(DirName(old(pathlist)[0]), urls)
    {
      hide *;
      var dir := DirName(pathlist[0]);
      NoFiles(dir, urls);
      for i := 0 to |urls|
        invariant pathlist == old(pathlist) + FilesOf(dir, urls[..i])
      {
        var url := Canonicalize(Taken(urls[i]));
        var path := PathIn(url[|Front(urls[i])|..]);
        var file := Unquote(BaseName(path));
        OneMoreFile(dir, urls, i);
        FileIs(dir, urls[i], url);
        if dir != [] {
          file := dir + (['/'] + file);
        }
        Appended(old(pathlist), FilesOf(dir, urls[..i]), FileOf(dir, urls[i]));
        if file != [] {
          pathlist := pathlist + [file];
        }
      }
    }
  }

  /** The components of a URL. */
  function Taken(a: Address): (u: Parts)
    requires IsAddress(a)
    ensures IsSplit(u) && Unsplit(Escaped(u)) == Front(a) + Canonical(a.rest)
  {
    PartsAreSplit(a);
    PartsOf(a)
  }

  lemma Appended<T>(a: seq<T>, b: seq<T>, c: seq<T>)
    ensures (a + b) + c == a + (b + c) && (c == [] ==> a + (b + c) == a + b)
  {
  }

  lemma NoFiles(dir: Text, urls: seq<Address>)
    ensures FilesOf(dir, urls[..0]) == [] && urls[..|urls|] == urls
  {
  }

  lemma OneMoreFile(dir: Text, urls: seq<Address>, i: nat)
    requires i < |urls|
    ensures FilesOf(dir, urls[..i + 1]) == FilesOf(dir, urls[..i]) + FileOf(dir, urls[i])
  {
    assert urls[..i + 1][..i] == urls[..i];
  }

  lemma FileIs(dir: Text, a: Address, url: Text)
    requires url == Front(a) + Canonical(a.rest)
    ensures |url| >= |Front(a)|
    ensures FileOf(dir, a) ==
            var name := Unquote(BaseName(PathIn(url[|Front(a)|..])));
            var file := if dir != [] then dir + (['/'] + name) else name;
            if file != [] then [file] else []
  {
    hide Canonical, PathIn, Front, Unquote, BaseName;
    assert url[|Front(a)|..] == Canonical(a.rest);
  }

  /** Somewhere an escape stands. */
  predicate HasEscape(s: Text) {
    s != [] && (IsEscape(s) || HasEscape(s[1..]))
  }

  lemma {:induction false} UnquoteShrinks(s: Text)
    ensures |Unquote(s)| <= |s|
    ensures |Unquote(s)| == |s| ==> !HasEscape(s)
    ensures !HasEscape(s) ==> Unquote(s) == s
    decreases |s|
  {
    if s != [] {
      if IsEscape(s) {
        UnquoteShrinks(s[3..]);
      } else {
        UnquoteShrinks(s[1..]);
        assert s == [s[0]] + s[1..];
      }
    }
  }

  lemma {:induction false} CutPrepends(a: Text, b: Text, c: Octet)
    requires c !in a
    ensures Cut(a + b, c).0 == a + Cut(b, c).0
  {
    if a == [] {
      assert a + b == b;
      NothingAdded(Cut(b, c).0);
    } else {
      var rest := a[1..];
      CutPrepends(rest, b, c);
      assert a == [a[0]] + rest;
      Regroup([a[0]], rest, b);
      CutHead(a[0], rest + b, c);
      Regroup([a[0]], rest, Cut(b, c).0);
    }
  }

  /** The part of a name that is the path, below a directory without question mark or hash sign. */
  lemma PathBelow(dir: Text, name: Text)
    requires '?' !in dir && '#' !in dir
    ensures PathIn(dir + name) == dir + PathIn(name)
  {
    CutPrepends(dir, name, '#');
    CutPrepends(dir, Cut(name, '#').0, '?');
  }

  lemma {:induction false} CutShortens(s: Text, c: Octet)
    ensures |Cut(s, c).0| <= |s| && (|Cut(s, c).0| == |s| ==> c !in s)
    ensures c !in s ==> Cut(s, c).0 == s
  {
    if s != [] && s[0] != c {
      CutShortens(s[1..], c);
      assert s == [s[0]] + s[1..];
    }
  }

  /** A name is a path as a whole, or loses what follows a delimiter. */
  lemma PathOfName(name: Text)
    ensures |PathIn(name)| <= |name|
    ensures |PathIn(name)| == |name| ==> '?' !in name && '#' !in name
    ensures '?' !in name && '#' !in name ==> PathIn(name) == name
    ensures '/' !in name ==> '/' !in PathIn(name)
  {
    var front := Cut(name, '#').0;
    CutShortens(name, '#');
    CutShortens(front, '?');
    hide Cut;
    assert '#' !in name ==> front == name;
  }

  /** No question mark, no hash sign and no percent escape: the name is read as it was written. */
  predicate ReadsBack(name: Text) {
    '?' !in name && '#' !in name && !HasEscape(name)
  }

  lemma UnquotedPathIsName(name: Text)
    ensures Unquote(PathIn(name)) == name <==> ReadsBack(name)
  {
    PathOfName(name);
    UnquoteShrinks(PathIn(name));
    hide PathIn, Unquote, HasEscape;
  }

  /** The path of a root with a query or a fragment does not grow with the name. */
  lemma PathBeyond(rest: Text, name: Text)
    requires '?' in rest || '#' in rest
    ensures PathIn(rest + name) == PathIn(rest)
  {
    CutWithin(rest, name, '#');
    if '#' !in rest {
      CutPrepends(rest, name, '#');
      CutShortens(rest, '#');
      CutWithin(rest, Cut(name, '#').0, '?');
    }
  }

  lemma {:induction false} CutWithin(a: Text, b: Text, c: Octet)
    ensures c in a ==> Cut(a + b, c).0 == Cut(a, c).0
  {
    if a != [] {
      CutWithin(a[1..], b, c);
      assert (a + b)[1..] == a[1..] + b;
    }
  }

  /** The base name of an escaped path is the base name, escaped. */
  lemma BaseNameEscaped(path: Text)
    ensures BaseName(Escape(Path, path)) == Escape(Path, BaseName(path))
  {
    var dir, name := path[..NameStart(path)], BaseName(path);
    assert path == dir + name;
    if dir == [] {
      assert path == name && !IsHex('/');
      EscapeAvoids(Path, name, '/');
      hide Escape, NameStart, BaseName;
      BaseNameAfterSlash([], Escape(Path, name));
      NothingAdded(Escape(Path, name));
    } else {
      LastSegment(dir, name);
    }
  }

  /** The last segment of an escaped path is the last segment, escaped. */
  lemma LastSegment(dir: Text, name: Text)
    requires dir != [] && dir[|dir| - 1] == '/' && '/' !in name
    ensures BaseName(Escape(Path, dir + name)) == Escape(Path, name)
  {
    var front := dir[..|dir| - 1];
    assert dir == front + ['/'];
    assert !IsHex('/');
    hide Escape, BaseName, IsHex;
    EscapeSegments(front, name);
    EscapeAvoids(Path, name, '/');
    BaseNameAfterSlash(Escape(Path, front) + ['/'], Escape(Path, name));
  }

  /** Where the writer puts a file below the root, canonicalised. */
  function LocationOf(root: Address, name: Text): Address {
    Address(root.scheme, Escape(Netloc, root.netloc), Canonical(root.rest + name))
  }

  /** The location is the URL that the writer generates for that name, and can be taken apart like any other. */
  lemma LocationIsUrl(root: Address, prefix: Text, suffix: Text, i: Instance)
    requires IsRoot(root)
    ensures var a := LocationOf(root, prefix + Ending(suffix, i));
            IsAddress(a) && Front(a) + a.rest == UrlOf(root, prefix, suffix, i)
  {
    var name := prefix + Ending(suffix, i);
    hide Ending, IsRoot, Canonical, Escape, Front;
    BelowRoot(root, name);
    CanonicalIsAddress(Address(root.scheme, root.netloc, root.rest + name));
    SameFront(root, name);
  }

  predicate IsPathOnly(root: Address) {
    '?' !in root.rest && '#' !in root.rest
  }

  /** What the reader makes of a location: the name that was written, up to a delimiter, its escapes taken for bytes; or
      always the same, if the root has a query or a fragment, where the names then go. */
  function NameRead(root: Address, name: Text): Text {
    if IsPathOnly(root) then Unquote(PathIn(name)) else Unquote(BaseName(PathIn(root.rest)))
  }

  lemma NameIsRead(root: Address, name: Text)
    requires IsRoot(root) && '/' !in name
    ensures NameIn(LocationOf(root, name)) == NameRead(root, name)
  {
    CanonicalIsSplit(root.rest + name);
    PathOfName(name);
    if IsPathOnly(root) {
      PathBelow(root.rest, name);
      hide Canonical, Escape, PathIn, BaseName, Unquote;
      LastSegment(root.rest, PathIn(name));
      EscapeIsCanonical(Path, PathIn(name));
    } else {
      PathBeyond(root.rest, name);
      hide Canonical, Escape, PathIn, BaseName, Unquote;
      BaseNameEscaped(PathIn(root.rest));
      EscapeIsCanonical(Path, BaseName(PathIn(root.rest)));
    }
  }

  /** The name is read as it was written. */
  predicate GivesBack(root: Address, name: Text) {
    if IsPathOnly(root) then ReadsBack(name) else Unquote(BaseName(PathIn(root.rest))) == name
  }

  lemma DirNameOfFile(path: Text, name: Text)
    requires IsDirectory(path) && '/' !in name
    ensures DirName(path + name) == if OnlySlashes(path) then path else path[..|path| - 1]
  {
    BaseNameAfterSlash(path, name);
    assert (path + name)[..|path|] == path;
    hide NameStart;
    if !OnlySlashes(path) {
      assert TrimSlashes(path) == TrimSlashes(path[..|path| - 1]) == path[..|path| - 1];
    }
  }

  /** The reader is not led astray by the directory: there is none, or it is not the root. */
  predicate IsBelowRoot(path: Text) {
    OnlySlashes(path) ==> path == []
  }

  /**
   A location that the writer emits is read as the path of the file that it stands for exactly when the directory is not
   the root and the name has no delimiter and no escape; or, below a base URL with a query or a fragment, when it happens
   to be the last segment of the base's path.
  */
  lemma LocationReadsBack(root: Address, path: Text, prefix: Text, suffix: Text, i: Instance)
    requires IsRoot(root) && IsDirectory(path) && '/' !in prefix && IsExtension(suffix)
    ensures var name, index := prefix + Ending(suffix, i), prefix + Ending(suffix, Index);
            FileOf(DirName(path + index), LocationOf(root, name)) == [path + name]
            <==> IsBelowRoot(path) && GivesBack(root, name)
  {
    var name, index := prefix + Ending(suffix, i), prefix + Ending(suffix, Index);
    EndingIsPlain(suffix, i);
    EndingIsPlain(suffix, Index);
    hide Ending, IsPlain, IsRoot, IsExtension;
    DirNameOfFile(path, index);
    NameIsRead(root, name);
    PathOfName(name);
    UnquotedPathIsName(name);
    hide DirName, NameIn, LocationOf, FileNamed, Unquote, PathIn, BaseName, ReadsBack, IsDirectory, OnlySlashes;
    ReadBelow(path, name, NameRead(root, name));
  }

  lemma ReadBelow(path: Text, name: Text, read: Text)
    requires IsDirectory(path) && name != [] && '/' !in name
    ensures var dir := if OnlySlashes(path) then path else path[..|path| - 1];
            FileNamed(dir, read) == [path + name] <==> IsBelowRoot(path) && read == name
  {
    if path == [] {
      assert path + name == name;
    } else if OnlySlashes(path) {
      SlashDiffers(read, name);
      SameTail(path, ['/'] + read, name);
    } else {
      var dir := path[..|path| - 1];
      assert path == dir + ['/'];
      Regroup(dir, ['/'], read);
      SameTail(path, read, name);
    }
  }

  lemma SlashDiffers(read: Text, name: Text)
    requires '/' !in name
    ensures ['/'] + read != name
  {
    assert (['/'] + read)[0] == '/';
  }

  // The index as a whole.

  /** The locations of the first `count` files, as `WriteIndex` emits them. */
  function Locations(root: Address, prefix: Text, suffix: Text, count: nat): (urls: seq<Address>)
    ensures |urls| == count
  {
    if count == 0 then []
    else Locations(root, prefix, suffix, count - 1) + [LocationOf(root, prefix + Ending(suffix, Numbered(count - 1)))]
  }

  /** The paths of the first `count` files, as `FlushSet` writes them. */
  function Paths(path: Text, prefix: Text, suffix: Text, count: nat): (files: seq<Text>)
    ensures |files| == count
  {
    if count == 0 then []
    else Paths(path, prefix, suffix, count - 1) + [path + (prefix + Ending(suffix, Numbered(count - 1)))]
  }

  ghost predicate AllReadBack(root: Address, path: Text, prefix: Text, suffix: Text, count: nat) {
    forall n: nat :: n < count ==> FileReadsBack(root, path, prefix, suffix, n)
  }

  predicate FileReadsBack(root: Address, path: Text, prefix: Text, suffix: Text, n: nat) {
    IsBelowRoot(path) && GivesBack(root, prefix + Ending(suffix, Numbered(n)))
  }

  lemma OneMoreReadsBack(root: Address, path: Text, prefix: Text, suffix: Text, n: nat)
    ensures AllReadBack(root, path, prefix, suffix, 0)
    ensures AllReadBack(root, path, prefix, suffix, n + 1) <==>
            && AllReadBack(root, path, prefix, suffix, n)
            && IsBelowRoot(path) && GivesBack(root, prefix + Ending(suffix, Numbered(n)))
  {
    hide IsBelowRoot, GivesBack, Ending;
    assert FileReadsBack(root, path, prefix, suffix, n) <==>
           IsBelowRoot(path) && GivesBack(root, prefix + Ending(suffix, Numbered(n)));
  }

  /** Reading the index gives back the paths of all files in order exactly when every name can be read back. */
  lemma {:induction false} IndexReadsBack(root: Address, path: Text, prefix: Text, suffix: Text, count: nat)
    requires IsRoot(root) && IsDirectory(path) && '/' !in prefix && IsExtension(suffix)
    ensures FilesOf(DirName(path + (prefix + Ending(suffix, Index))), Locations(root, prefix, suffix, count))
            == Paths(path, prefix, suffix, count)
            <==> AllReadBack(root, path, prefix, suffix, count)
  {
    hide *;
    var dir := DirName(path + (prefix + Ending(suffix, Index)));
    if count == 0 {
      NoLocations(dir, root, path, prefix, suffix);
      OneMoreReadsBack(root, path, prefix, suffix, 0);
    } else {
      var n := count - 1;
      var name := prefix + Ending(suffix, Numbered(n));
      IndexReadsBack(root, path, prefix, suffix, n);
      LocationReadsBack(root, path, prefix, suffix, Numbered(n));
      OneMoreReadsBack(root, path, prefix, suffix, n);
      OneMoreLocation(dir, root, path, prefix, suffix, n);
      LastOfBoth(FilesOf(dir, Locations(root, prefix, suffix, n)), FileOf(dir, LocationOf(root, name)),
                 Paths(path, prefix, suffix, n), path + name);
    }
  }

  lemma NoLocations(dir: Text, root: Address, path: Text, prefix: Text, suffix: Text)
    ensures FilesOf(dir, Locations(root, prefix, suffix, 0)) == [] == Paths(path, prefix, suffix, 0)
  {
  }

  lemma OneMoreLocation(dir: Text, root: Address, path: Text, prefix: Text, suffix: Text, n: nat)
    ensures var name := prefix + Ending(suffix, Numbered(n));
            && FilesOf(dir, Locations(root, prefix, suffix, n + 1)) ==
               FilesOf(dir, Locations(root, prefix, suffix, n)) + FileOf(dir, LocationOf(root, name))
            && Paths(path, prefix, suffix, n + 1) == Paths(path, prefix, suffix, n) + [path + name]
  {
    hide LocationOf, Ending, FileOf;
    var urls := Locations(root, prefix, suffix, n);
    var a := LocationOf(root, prefix + Ending(suffix, Numbered(n)));
    assert (urls + [a])[..|urls|] == urls;
  }

  lemma LastOfBoth<T>(xs: seq<T>, x: seq<T>, ys: seq<T>, y: T)
    requires |xs| <= |ys| && |x| <= 1
    ensures xs + x == ys + [y] <==> xs == ys && x == [y]
  {
    if xs + x == ys + [y] {
      assert (xs + x)[..|xs|] == xs && (ys + [y])[..|ys|] == ys;
      assert (xs + x)[|xs|..] == x && (ys + [y])[|ys|..] == [y];
    }
  }

  /** A prefix without percent sign and delimiters is enough, whatever the number. */
  lemma PlainPrefixReadsBack(prefix: Text, suffix: Text, i: Instance)
    requires '%' !in prefix && '?' !in prefix && '#' !in prefix && IsExtension(suffix)
    ensures ReadsBack(prefix + Ending(suffix, i))
  {
    EndingIsPlain(suffix, i);
    hide Ending;
    NoPercentNoEscape(prefix + Ending(suffix, i));
  }

  lemma {:induction false} NoPercentNoEscape(s: Text)
    requires '%' !in s
    ensures !HasEscape(s)
  {
    if s != [] {
      NoPercentNoEscape(s[1..]);
    }
  }
}
