/**
 Names of the generated files: as paths, as URLs, and as the pattern by which the generator knows its own output.
*/
module SitemapNames {
  import opened Basics
  import opened UrlEscape
  import opened Addresses

  /** One of the files: the one of a number, or the index. */
  datatype Instance = Numbered(n: nat) | Index

  /** `%d` */
  function Decimal(n: nat): (s: Text)
    ensures s != [] && IsPlain(s) && '0' <= s[0] <= '9' && (n >= 10 ==> |s| >= 2)
  {
    if n < 10 then [HexDigit(n)] else Decimal(n / 10) + [HexDigit(n % 10)]
  }

  lemma {:induction false} DecimalsDiffer(m: nat, n: nat)
    requires Decimal(m) == Decimal(n)
    ensures m == n
  {
    var s := Decimal(m);
    var last := s[|s| - 1];
    assert last == HexDigit(m % 10) == HexDigit(n % 10);
    assert HexValue(last) == m % 10 == n % 10;
    assert m >= 10 <==> n >= 10;
    if m >= 10 {
      assert Decimal(m / 10) == s[..|s| - 1] == Decimal(n / 10);
      DecimalsDiffer(m / 10, n / 10);
    }
  }

  /** The number that decimal digits stand for. */
  function NumberOf(s: Text): int {
    if s == [] then 0 else 10 * NumberOf(s[..|s| - 1]) + (s[|s| - 1] as int - '0' as int)
  }

  /** The digits stand for the number, and there is no zero too many. */
  lemma {:induction false} DecimalReads(n: nat)
    ensures NumberOf(Decimal(n)) == n && forall c | c in Decimal(n) :: '0' <= c <= '9'
    ensures Decimal(n)[0] == '0' ==> Decimal(n) == "0"
  {
    DigitReads(n % 10);
    if n < 10 {
      assert [HexDigit(n)][..0] == [];
    } else {
      DecimalReads(n / 10);
      var front, last := Decimal(n / 10), HexDigit(n % 10);
      assert (front + [last])[..|front|] == front;
      DecimalStarts(n / 10);
    }
  }

  lemma DigitReads(n: nat)
    requires n < 10
    ensures HexDigit(n) as int - '0' as int == n && '0' <= HexDigit(n) <= '9'
  {
  }

  lemma {:induction false} DecimalStarts(n: nat)
    ensures n > 0 ==> Decimal(n)[0] != '0'
  {
    if n >= 10 {
      DecimalStarts(n / 10);
    } else {
      DigitReads(n);
    }
  }

  /** What stands between the prefix and the extension; the index has an ending of its own. */
  function Ending(suffix: Text, i: Instance): Text {
    match i
    case Numbered(n) => if n == 0 then suffix else Decimal(n) + suffix
    case Index => "_index.xml"
  }

  /** A plain text that starts with a dot, as every known extension does. */
  predicate IsExtension(suffix: Text) {
    suffix != [] && suffix[0] == '.' && IsPlain(suffix)
  }

  lemma EndingIsPlain(suffix: Text, i: Instance)
    requires IsExtension(suffix)
    ensures IsPlain(Ending(suffix, i)) && Ending(suffix, i) != []
    ensures '?' !in Ending(suffix, i) && '#' !in Ending(suffix, i) && '/' !in Ending(suffix, i) && '%' !in Ending(suffix, i)
  {
    PlainIsFixed(Path, Ending(suffix, i));
  }

  /** No two files share a name, for whatever path and prefix. */
  lemma NamesDiffer(front: Text, suffix: Text, i: Instance, j: Instance)
    requires IsExtension(suffix) && front + Ending(suffix, i) == front + Ending(suffix, j)
    ensures i == j
  {
    var a, b := Ending(suffix, i), Ending(suffix, j);
    assert a == (front + a)[|front|..] == (front + b)[|front|..] == b;
    if i.Numbered? && j.Numbered? && i.n != 0 && j.n != 0 {
      assert Decimal(i.n) == a[..|a| - |suffix|] == Decimal(j.n);
      DecimalsDiffer(i.n, j.n);
    }
    StartsDiffer(suffix, i);
    StartsDiffer(suffix, j);
  }

  /** The first byte tells a number, no number and the index apart. */
  lemma StartsDiffer(suffix: Text, i: Instance)
    requires IsExtension(suffix)
    ensures var a := Ending(suffix, i);
            && a != [] && (a[0] == '_' <==> i.Index?) && (a[0] == '.' <==> i == Numbered(0))
  {
  }

  predicate EndsWith(s: Text, t: Text) {
    |t| <= |s| && s[|s| - |t|..] == t
  }

  function Lower(s: Text): (r: Text)
    ensures |r| == |s|
  {
    seq(|s|, i requires 0 <= i < |s| => if 'A' <= s[i] <= 'Z' then s[i] + ' ' else s[i])
  }

  /** Capital letters, 65 to 90, become the small ones, 32 places on, and all else stays. */
  lemma LowerLetters(s: Text, k: nat)
    requires k < |s|
    ensures Lower(s)[k] as int == s[k] as int + if 65 <= s[k] as int <= 90 then 32 else 0
  {
  }

  /** Where the part of a path after its last slash starts. */
  function NameStart(s: Text): (start: nat)
    ensures start <= |s| && (start > 0 ==> s[start - 1] == '/')
    ensures forall i :: start <= i < |s| ==> s[i] != '/'
  {
    if s == [] || s[|s| - 1] == '/' then |s| else NameStart(s[..|s| - 1])
  }

  /** `os.path.basename` */
  function BaseName(s: Text): (r: Text)
    ensures '/' !in r && |r| == |s| - NameStart(s)
  {
    s[NameStart(s)..]
  }

  lemma BaseNameAfterSlash(dir: Text, name: Text)
    requires '/' !in name && (dir == [] || dir[|dir| - 1] == '/')
    ensures NameStart(dir + name) == |dir| && BaseName(dir + name) == name
  {
    var s := dir + name;
    var start := NameStart(s);
    assert dir == [] || s[|dir| - 1] == '/';
    assert start <= |dir|;
  }

  /** The length of the first known extension that a name ends with. */
  function ExtensionLength(s: Text): (length: nat)
    ensures length <= |s|
  {
    if EndsWith(s, ".xml") then 4
    else if EndsWith(s, ".xml.gz") then 7
    else if EndsWith(s, ".gz") then 3
    else 0
  }

  lemma LowerExtension(s: Text, length: nat)
    requires 0 < length <= |s|
    requires Lower(s)[|s| - length..] in {".xml", ".xml.gz", ".gz"}
    ensures IsExtension(s[|s| - length..])
  {
    var suffix := s[|s| - length..];
    var lower := Lower(s)[|s| - length..];
    forall i | 0 <= i < |suffix|
      ensures IsPlainOctet(suffix[i])
    {
      assert lower[i] == if 'A' <= suffix[i] <= 'Z' then suffix[i] + ' ' else suffix[i];
      assert IsPlainOctet(lower[i]);
    }
    assert lower[0] == '.';
  }

  /** A directory, empty or with its last slash, and not that of the root spelt with several. */
  predicate IsDirectory(path: Text) {
    path == [] || (path[|path| - 1] == '/' && (|path| > 1 && path[|path| - 2] == '/' ==> OnlySlashes(path)))
  }

  predicate OnlySlashes(s: Text) {
    forall i :: 0 <= i < |s| ==> s[i] == '/'
  }

  predicate IsRoot(root: Address) {
    IsAddress(root) && root.rest != [] && root.rest[|root.rest| - 1] == '/'
  }

  class FilePathGenerator {
    var isGzip: bool
    var path: Text
    var prefix: Text
    var suffix: Text

    constructor ()
      ensures !isGzip && path == prefix == suffix == []
    {
      isGzip, path, prefix, suffix := false, [], [], [];
    }

    /** Splits a normalised path into directory, prefix and extension, if it has an extension that is known. */
    method Preload(file: Text) returns (ok: bool)
      modifies this
      ensures ok <==> ExtensionLength(Lower(BaseName(file))) > 0
      ensures ok ==> IsPreloaded(file, path, prefix, suffix)
      ensures ok <==> EndsWith(Lower(BaseName(file)), ".xml") || EndsWith(Lower(BaseName(file)), ".gz")
      ensures ok ==> Lower(suffix) == if EndsWith(Lower(BaseName(file)), ".xml.gz") then ".xml.gz"
                                      else if EndsWith(Lower(BaseName(file)), ".gz") then ".gz" else ".xml"
      ensures ok ==> (isGzip <==> EndsWith(Lower(BaseName(file)), ".gz"))
      ensures !ok ==> path == old(path) && prefix == old(prefix) && suffix == old(suffix) && isGzip == old(isGzip)
    {
      hide *;
      SuffixIs(file);
      var base := Lower(BaseName(file));
      var lenpath, lenbase := |file|, |base|;
      if base == [] {
        return false;
      }
      var lensuffix := ExtensionLength(base);
      if lensuffix == 0 {
        return false;
      }
      KnownExtension(BaseName(file));
      FileSplits(file);
      isGzip := lensuffix != 4;
      path := file[..lenpath - lenbase];
      prefix := file[lenpath - lenbase..lenpath - lensuffix];
      suffix := file[lenpath - lensuffix..];
      return true;
    }

    function GeneratePath(i: Instance): (file: Text)
      reads this
      ensures file == path + (prefix + Ending(suffix, i))
    {
      var front := path + prefix;
      Regroup(path, prefix, Ending(suffix, i));
      match i
      case Numbered(n) => if n != 0 then front + (Decimal(n) + suffix) else front + suffix
      case Index => front + "_index.xml"
    }

    /** The same as a URL below `root`. */
    method GenerateURL(i: Instance, root: Address) returns (url: Text)
      requires IsRoot(root)
      ensures url == UrlOf(root, prefix, suffix, i)
    {
      hide *;
      UrlParts(root, prefix, suffix, i);
      var name := Named(i, root.rest + prefix);
      url := Canonicalize(PartsOf(Address(root.scheme, root.netloc, name)));
    }

    /** The ending of an instance after `front`. */
    method Named(i: Instance, front: Text) returns (name: Text)
      ensures name == front + Ending(suffix, i)
    {
      match i {
        case Numbered(n) => name := if n != 0 then front + (Decimal(n) + suffix) else front + suffix;
        case Index => name := front + "_index.xml";
      }
    }

    /** A pattern for all the URLs of numbered files: a star where the number goes. */
    method GenerateWildURL(root: Address) returns (wild: Text)
      requires IsRoot(root) && IsExtension(suffix)
      ensures wild == WildOf(root, prefix, suffix)
    {
      hide *;
      var a := Address(root.scheme, root.netloc, root.rest + prefix);
      WildParts(root, prefix, suffix);
      var front := Canonicalize(PartsOf(a));
      assert front[|Front(a)|..] == Canonical(a.rest);
      var b := Address(a.scheme, Escape(Netloc, a.netloc), front[|Front(a)|..] + suffix);
      var temp := Canonicalize(PartsOf(b));
      wild := front + "*" + temp[|front|..];
    }
  }

  function UrlOf(root: Address, prefix: Text, suffix: Text, i: Instance): Text {
    Front(root) + Canonical(root.rest + (prefix + Ending(suffix, i)))
  }

  function WildOf(root: Address, prefix: Text, suffix: Text): Text {
    Front(root) + Canonical(root.rest + prefix) + "*" + suffix
  }

  /** Canonicalising twice, with the extension appended in between, leaves the extension at the end. */
  lemma WildParts(root: Address, prefix: Text, suffix: Text)
    requires IsRoot(root) && IsExtension(suffix)
    ensures var a := Address(root.scheme, root.netloc, root.rest + prefix);
            var b := Address(root.scheme, Escape(Netloc, root.netloc), Canonical(a.rest) + suffix);
            && IsSplit(PartsOf(a)) && IsSplit(PartsOf(b))
            && Unsplit(Escaped(PartsOf(a))) == Front(a) + Canonical(a.rest)
            && Front(a) == Front(root)
            && Unsplit(Escaped(PartsOf(b))) == Front(a) + Canonical(a.rest) + suffix
            && WildOf(root, prefix, suffix) == Front(a) + Canonical(a.rest) + "*" + suffix
  {
    hide Canonical, Front, PartsOf, Unsplit, Escaped, IsSplit, IsRoot, IsAddress, IsPlain, IsOpen, Dangling, Escape;
    var a := Address(root.scheme, root.netloc, root.rest + prefix);
    var c := Address(root.scheme, Escape(Netloc, root.netloc), Canonical(a.rest));
    BelowRoot(root, prefix);
    CanonicalIsAddress(a);
    CanonicalStaysShut(a.rest);
    CanonicalAppends(c.rest, suffix);
    NothingDangles(a.rest);
    NothingAdded(c.rest);
    PartsAreSplit(a);
    AddressGrows(c, suffix);
    PartsAreSplit(Address(c.scheme, c.netloc, c.rest + suffix));
    Regroup(Front(a), c.rest, suffix);
    SameFront(root, prefix);
    SameFront(c, suffix);
  }

  lemma UrlParts(root: Address, prefix: Text, suffix: Text, i: Instance)
    requires IsRoot(root)
    ensures var a := Address(root.scheme, root.netloc, root.rest + prefix + Ending(suffix, i));
            IsSplit(PartsOf(a)) && Unsplit(Escaped(PartsOf(a))) == UrlOf(root, prefix, suffix, i)
  {
    var e := Ending(suffix, i);
    hide Ending, IsRoot, Canonical, Front;
    BelowRoot(root, prefix + e);
    PartsAreSplit(Address(root.scheme, root.netloc, root.rest + (prefix + e)));
    Regroup(root.rest, prefix, e);
    SameFront(root, prefix + e);
  }

  lemma SameFront(root: Address, name: Text)
    ensures Front(Address(root.scheme, root.netloc, root.rest + name)) == Front(root)
  {
  }

  lemma BelowRoot(root: Address, name: Text)
    requires IsRoot(root)
    ensures var a := Address(root.scheme, root.netloc, root.rest + name); IsAddress(a) && '/' in a.rest
  {
    AddressGrows(root, name);
    assert (root.rest + name)[|root.rest| - 1] == '/';
  }

  lemma AddressGrows(a: Address, t: Text)
    requires IsAddress(a) && a.rest != []
    ensures IsAddress(Address(a.scheme, a.netloc, a.rest + t))
  {
    assert (a.rest + t)[0] == a.rest[0];
  }

  /** A path put together from a directory, a prefix without slashes and an extension. */
  predicate IsPreloaded(file: Text, path: Text, prefix: Text, suffix: Text) {
    && file == path + (prefix + suffix)
    && (path == [] || path[|path| - 1] == '/')
    && '/' !in prefix && IsExtension(suffix)
  }

  lemma FileSplits(file: Text)
    requires ExtensionLength(Lower(BaseName(file))) > 0
    ensures var i, j := |file| - |BaseName(file)|, |file| - ExtensionLength(Lower(BaseName(file)));
            0 <= i <= j <= |file| && IsPreloaded(file, file[..i], file[i..j], file[j..])
  {
    hide *;
    var name := BaseName(file);
    var length := ExtensionLength(Lower(name));
    KnownExtension(name);
    BaseNameIsLast(file);
    Pieces(file, name, length);
    PartsArePreloaded(file[..|file| - |name|], name, length);
  }

  lemma PartsArePreloaded(dir: Text, name: Text, length: nat)
    requires (dir == [] || dir[|dir| - 1] == '/') && '/' !in name
    requires length <= |name| && IsExtension(name[|name| - length..])
    ensures IsPreloaded(dir + name, dir, name[..|name| - length], name[|name| - length..])
  {
    hide IsExtension;
    assert name == name[..|name| - length] + name[|name| - length..];
  }

  lemma Pieces<T>(s: seq<T>, name: seq<T>, length: nat)
    requires length <= |name| <= |s| && s[|s| - |name|..] == name
    ensures s == s[..|s| - |name|] + name
    ensures s[|s| - |name|..|s| - length] == name[..|name| - length]
    ensures s[|s| - length..] == name[|name| - length..]
  {
  }

  lemma BaseNameIsLast(s: Text)
    ensures var r := BaseName(s);
            && |r| <= |s| && s[|s| - |r|..] == r && '/' !in r
            && (s[..|s| - |r|] == [] || s[..|s| - |r|][|s| - |r| - 1] == '/')
  {
  }

  lemma KnownExtension(name: Text)
    requires ExtensionLength(Lower(name)) > 0
    ensures IsExtension(name[|name| - ExtensionLength(Lower(name))..])
    ensures ExtensionLength(Lower(name)) != 4 <==> EndsWith(Lower(name), ".gz")
  {
    var base := Lower(name);
    var length := ExtensionLength(base);
    if EndsWith(base, ".xml") {
      assert base[|base| - 1] == 'l';
    }
    LowerExtension(name, length);
  }

  /** The extension taken is the longest one that is known. */
  lemma SuffixIs(file: Text)
    ensures var base := Lower(BaseName(file));
            var length := ExtensionLength(base);
      && (length > 0 <==> EndsWith(base, ".xml") || EndsWith(base, ".gz")) && (base == [] ==> length == 0)
      && length <= |file|
    ensures var base := Lower(BaseName(file));
            var length := ExtensionLength(base);
            length > 0 ==> Lower(file[|file| - length..]) == if EndsWith(base, ".xml.gz") then ".xml.gz"
                                                             else if EndsWith(base, ".gz") then ".gz" else ".xml"
  {
    hide *;
    var name := BaseName(file);
    BaseNameIsLast(file);
    LowerLength(name);
    ExtensionIs(Lower(name));
    LowerEnd(file, name, ExtensionLength(Lower(name)));
  }

  lemma LowerLength(s: Text)
    ensures |Lower(s)| == |s|
  {
  }

  lemma ExtensionIs(base: Text)
    ensures var length := ExtensionLength(base);
      && (length > 0 <==> EndsWith(base, ".xml") || EndsWith(base, ".gz")) && length <= |base|
      && (EndsWith(base, ".xml.gz") ==> length == 7 && base[|base| - 7..] == ".xml.gz")
      && (EndsWith(base, ".gz") && !EndsWith(base, ".xml.gz") ==> length == 3 && base[|base| - 3..] == ".gz")
      && (length > 0 && !EndsWith(base, ".gz") && !EndsWith(base, ".xml.gz") ==> base[|base| - length..] == ".xml")
  {
    LongEnds(base);
  }

  lemma LowerEnd(file: Text, name: Text, length: nat)
    requires length <= |name| <= |file| && file[|file| - |name|..] == name
    ensures Lower(file[|file| - length..]) == Lower(name)[|name| - length..]
  {
    Pieces(file, name, length);
  }

  lemma LongEnds(s: Text)
    ensures EndsWith(s, ".xml.gz") ==> EndsWith(s, ".gz")
    ensures !(EndsWith(s, ".xml") && EndsWith(s, ".gz"))
  {
    if EndsWith(s, ".xml.gz") {
      assert s[|s| - 7..][4..] == s[|s| - 3..];
      assert ".xml.gz"[4..] == ".gz";
    }
    if EndsWith(s, ".gz") {
      assert s[|s| - 3..][2] == s[|s| - 1];
    }
  }
}
