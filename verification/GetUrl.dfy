/**
 Resolving a URL against the base URL: the plugin's `get_url`, with its loops over one character buffer, proved
 against a function on strings.
*/
module UrlResolution {
  import opened Basics

  predicate IsAlpha(c: char) {
    'a' <= c <= 'z' || 'A' <= c <= 'Z'
  }

  predicate IsSchemeChar(c: char) {
    IsAlpha(c) || '0' <= c <= '9' || c == '-' || c == '+' || c == '.' || c == '/'
  }

  /** The first place of `c` in `s` from `i` on, or the length. */
  function Find(s: string, c: char, i: nat): (r: nat)
    requires i <= |s|
    ensures i <= r <= |s| && (r < |s| ==> s[r] == c)
    ensures forall j | i <= j < r :: s[j] != c
    decreases |s| - i
  {
    if i == |s| || s[i] == c then i else Find(s, c, i + 1)
  }

  /** The last slash of `s` before `i`. */
  function LastSlash(s: string, i: nat): (r: nat)
    requires i <= |s| && '/' in s[..i]
    ensures r < i && s[r] == '/' && forall j | r < j < i :: s[j] != '/'
  {
    if s[i - 1] == '/' then i - 1
    else
      assert s[..i] == s[..i - 1] + [s[i - 1]];
      LastSlash(s, i - 1)
  }

  /** A protocol header: a letter and the characters allowed after it, up to the first colon. */
  predicate IsAbsolute(url: string) {
    var end := Find(url, ':', 0);
    0 < end < |url| && IsAlpha(url[0]) && forall i | 0 < i < end :: IsSchemeChar(url[i])
  }

  /** Where the path of a base URL starts: past the protocol, up to two slashes, and the host; the length if it has
      no path; nothing if the base is a path that is not absolute. */
  function PathStart(b: string): (r: Option<nat>)
    ensures r.Some? ==> r.value <= |b| && (r.value < |b| ==> b[r.value] == '/')
  {
    var colon := Find(b, ':', 0);
    if colon == |b| then if b != "" && b[0] == '/' then Some(0) else None
    else Some(Find(b, '/', HostStart(b, colon)))
  }

  function HostStart(b: string, colon: nat): (r: nat)
    requires colon < |b|
    ensures colon < r <= |b|
  {
    if colon + 1 < |b| && b[colon + 1] == '/' then
      if colon + 2 < |b| && b[colon + 2] == '/' then colon + 3 else colon + 2
    else colon + 1
  }

  /** Factoring leading dot segments of `url` out of the path of `b` that ends at the slash `end`. */
  function Climb(b: string, start: nat, end: nat, url: string): (r: (nat, string))
    requires start <= end < |b| && b[start] == '/' && b[end] == '/'
    ensures start <= r.0 <= end && b[r.0] == '/' && |r.1| <= |url|
    decreases |url|
  {
    if end == start || url == "" || url[0] != '.' then (end, url)
    else if |url| == 1 then (end, "")
    else if url[1] == '/' then Climb(b, start, end, url[2..])
    else if url[1] != '.' then (end, url)
    else if |url| == 2 then (Parent(b, start, end), "")
    else if url[2] != '/' then (end, url)
    else Climb(b, start, Parent(b, start, end), url[3..])
  }

  /** What is left is an end of the reference. */
  lemma {:induction false} ClimbLeavesEnd(b: string, start: nat, end: nat, url: string)
    requires start <= end < |b| && b[start] == '/' && b[end] == '/'
    ensures var rest := Climb(b, start, end, url).1; url[|url| - |rest|..] == rest
    decreases |url|
  {
    if end != start && |url| > 1 && url[0] == '.' {
      if url[1] == '/' {
        ClimbLeavesEnd(b, start, end, url[2..]);
      } else if url[1] == '.' && |url| > 2 && url[2] == '/' {
        ClimbLeavesEnd(b, start, Parent(b, start, end), url[3..]);
      }
    }
  }

  function Parent(b: string, start: nat, end: nat): (r: nat)
    requires start < end < |b| && b[start] == '/'
    ensures start <= r < end && b[r] == '/'
  {
    assert b[..end][start] == '/';
    LastSlash(b, end)
  }

  /** A base that has no path gets a slash for one. */
  function WithPath(b: string): (p: string)
    ensures PathStart(b).Some? ==> PathStart(b).value < |p| && p[PathStart(b).value] == '/' && p[..|p|] == p
  {
    if PathStart(b) == Some(|b|) then b + "/" else b
  }

  function Relative(b: string, url: string): string
    requires PathStart(b).Some?
  {
    var start := PathStart(b).value;
    var p := WithPath(b);
    var (end, rest) := Climb(p, start, LastSlash(p, |p|), url);
    p[..end + 1] + rest
  }

  lemma PathOf(b: string, start: nat)
    requires PathStart(b) == Some(start)
    ensures var p := WithPath(b);
            && start < |p| && p[start] == '/' && '/' in p && '/' in p[..|p|] && start <= LastSlash(p, |p|)
            && p[..start] == b[..start]
            && if start == |b| then |p| == |b| + 1 && LastSlash(p, |p|) == start else p == b
  {
    var p := WithPath(b);
    assert p[..|p|] == p && p[start] == '/';
  }

  lemma RelativeIs(b: string, url: string)
    requires PathStart(b).Some?
    requires var p := WithPath(b); '/' in p[..|p|] && PathStart(b).value <= LastSlash(p, |p|)
    ensures var p := WithPath(b);
            var (end, rest) := Climb(p, PathStart(b).value, LastSlash(p, |p|), url);
            Relative(b, url) == p[..end + 1] + rest
  {
  }

  /** `get_url` */
  function Resolve(b: Option<string>, url: Option<string>): Option<string> {
    if url.None? then None
    else if IsAbsolute(url.value) then url
    else if b.None? then None
    else if url.value == "" then b
    else if PathStart(b.value).None? then None
    else if url.value[0] == '/' then Some(b.value[..PathStart(b.value).value] + url.value)
    else Some(Relative(b.value, url.value))
  }
}

module UrlBuffer {
  import opened Basics
  import opened UrlResolution

  const NUL: char := '\0'

  predicate IsText(s: string) {
    NUL !in s
  }

  /** The buffer holds `s` and a terminator. */
  ghost predicate Holds(a: array<char>, s: string)
    reads a
  {
    |s| < a.Length && a[..|s|] == s && a[|s|] == NUL
  }

  /** `strcpy(a + at, s)` */
  method StrCpy(a: array<char>, at: nat, s: string)
    requires at + |s| < a.Length
    modifies a
    ensures a[..at + |s|] == old(a[..at]) + s && a[at + |s|] == NUL
  {
    for i := 0 to |s|
      invariant a[..at] == old(a[..at]) && a[at..at + i] == s[..i]
    {
      a[at + i] := s[i];
    }
    a[at + |s|] := NUL;
    assert a[..at + |s|] == a[..at] + a[at..at + |s|];
  }

  /** Whether `url` starts with a protocol header. */
  method HasProtocol(url: string) returns (r: bool)
    ensures r == IsAbsolute(url)
  {
    var end := Find(url, ':', 0);
    if end == |url| || end == 0 || !(('a' <= url[0] <= 'z') || ('A' <= url[0] <= 'Z')) {
      return false;
    }
    var start := 1;
    while start != end
      invariant 1 <= start <= end
      invariant forall i | 0 < i < start :: IsSchemeChar(url[i])
    {
      var c := url[start];
      var isAlnum := ('a' <= c <= 'z') || ('A' <= c <= 'Z') || ('0' <= c <= '9');
      if !(isAlnum || c == '-' || c == '+' || c == '.' || c == '/') {
        return false;
      }
      start := start + 1;
    }
    return true;
  }

  /** The result is in a buffer of its own. Every store is within the cells allocated (see `Cells`). */
  method GetUrl(b: Option<string>, url: Option<string>) returns (href: array?<char>)
    requires (b.Some? ==> IsText(b.value)) && (url.Some? ==> IsText(url.value))
    ensures href == null <==> Resolve(b, url).None?
    ensures href != null ==> fresh(href) && Holds(href, Resolve(b, url).value)
    ensures href != null ==> href.Length == if IsAbsolute(url.value) then |url.value| + 1 else Cells(b.value, url.value)
  {
    if url.None? {
      return null;
    }
    var u := url.value;
    var absolute := HasProtocol(u);
    if absolute {
      href := new char[|u| + 1];
      StrCpy(href, 0, u);
      return;
    }
    if b.None? {
      return null;
    }
    href := GetRelative(b.value, u);
  }

  /** A relative path joined to a base without a path, which is first given one. */
  predicate NeedsExtraCell(b: string, url: string) {
    PathStart(b) == Some(|b|) && url != "" && url[0] != '/'
  }

  /** The cells of the buffer: those that the plugin allocates, and one more where they do not suffice. */
  function Cells(b: string, url: string): nat {
    |b| + |url| + 1 + if NeedsExtraCell(b, url) then 1 else 0
  }

  /** The cells that the plugin allocates suffice for the result and its terminator in all other cases, and not in
      this one. */
  lemma AllocatedCellsSuffice(b: string, url: string)
    requires !IsAbsolute(url) && Resolve(Some(b), Some(url)).Some?
    ensures |Resolve(Some(b), Some(url)).value| < |b| + |url| + 1 <==> !NeedsExtraCell(b, url)
  {
    hide PathStart, Relative, IsAbsolute;
    if url != "" && url[0] != '/' {
      RelativeLength(b, PathStart(b).value, url);
    }
  }

  lemma RelativeLength(b: string, start: nat, url: string)
    requires PathStart(b) == Some(start) && url != "" && url[0] != '/'
    ensures if start == |b| then |Relative(b, url)| == |b| + |url| + 1 else |Relative(b, url)| <= |b| + |url|
  {
    hide PathStart, WithPath, Climb, LastSlash;
    PathOf(b, start);
    ClimbNowhere(WithPath(b), start, url);
  }

  lemma CellsOf(b: string, start: nat, url: string)
    requires PathStart(b) == Some(start)
    ensures Cells(b, url) == |b| + |url| + if start == |b| && url != "" && url[0] != '/' then 2 else 1
  {
  }

  /** The part of `get_url` that works in the buffer. */
  method GetRelative(b: string, url: string) returns (href: array?<char>)
    requires IsText(b) && IsText(url) && !IsAbsolute(url)
    ensures href == null <==> Resolve(Some(b), Some(url)).None?
    ensures href != null ==> fresh(href) && Holds(href, Resolve(Some(b), Some(url)).value)
    ensures href != null ==> href.Length == Cells(b, url)
  {
    hide PathStart, Find, WithPath, Relative, IsAbsolute;
    href := new char[Cells(b, url)];
    StrCpy(href, 0, b);
    assert href[..0] + b == b;
    if url == "" {
      return;
    }
    var ok, pathstart := LocatePath(href, b);
    if !ok {
      return null;
    }
    if url[0] == '/' {
      ReplacePath(href, b, url, pathstart);
    } else {
      MergeInto(href, b, url, pathstart);
    }
  }

  /** An absolute path replaces the base's. */
  method ReplacePath(href: array<char>, b: string, url: string, pathstart: nat)
    requires PathStart(b) == Some(pathstart)
    requires href.Length == |b| + |url| + 1 && href[..|WithPath(b)|] == WithPath(b)
    modifies href
    ensures Holds(href, b[..pathstart] + url)
  {
    hide PathStart, WithPath;
    PathOf(b, pathstart);
    FrontOf(href[..], WithPath(b), pathstart);
    StrCpy(href, pathstart, url);
  }

  /** Finds the path of the base, giving it one if it has none; fails on a base path that is not absolute. */
  method LocatePath(href: array<char>, b: string) returns (ok: bool, pathstart: nat)
    requires Holds(href, b) && IsText(b) && (PathStart(b) == Some(|b|) ==> |b| < href.Length)
    modifies href
    ensures ok <==> PathStart(b).Some?
    ensures ok ==> PathStart(b).value == pathstart && |WithPath(b)| <= href.Length && href[..|WithPath(b)|] == WithPath(b)
    ensures ok && pathstart != |b| ==> href[|b|] == NUL
  {
    var colon := Find(b, ':', 0);
    ok, pathstart := true, 0;
    if colon < |b| {
      pathstart := colon + 1;
      if pathstart < |b| && b[pathstart] == '/' {
        pathstart := pathstart + 1;
        if pathstart < |b| && b[pathstart] == '/' {
          pathstart := pathstart + 1;
        }
      }
      pathstart := Find(b, '/', pathstart);
      if pathstart == |b| {
        href[pathstart] := '/';
      }
    } else if href[0] != '/' {
      ok := false;
    }
  }

  /** Cuts the base in `href` at its last slash, factors out leading dot segments and appends the rest. */
  method MergeInto(href: array<char>, b: string, url: string, pathstart: nat)
    requires PathStart(b) == Some(pathstart) && IsText(url) && url != "" && url[0] != '/'
    requires href.Length == Cells(b, url) && href[..|WithPath(b)|] == WithPath(b)
    requires PathStart(b) != Some(|b|) ==> href[|b|] == NUL
    modifies href
    ensures Holds(href, Relative(b, url))
  {
    hide PathStart, Find, Climb, LastSlash, WithPath, Relative, Cells;
    ghost var p := WithPath(b);
    PathOf(b, pathstart);
    CellsOf(b, pathstart, url);
    var pathend := LastComponent(href, p, |b|);
    var rest: string;
    ClimbNowhere(p, pathstart, url);
    pathend, rest := FactorOut(href, p, pathstart, pathend, url);
    RelativeIs(b, url);
    FrontOf(href[..], p, pathend + 1);
    StrCpy(href, pathend + 1, rest);
  }

  lemma FrontOf<T>(s: seq<T>, p: seq<T>, n: nat)
    requires n <= |p| <= |s| && s[..|p|] == p
    ensures s[..n] == p[..n]
  {
  }

  lemma ClimbNowhere(p: string, start: nat, url: string)
    requires start < |p| && p[start] == '/'
    ensures Climb(p, start, start, url) == (start, url)
  {
  }

  /** Walks back from the end of the base to its last slash. */
  method LastComponent(href: array<char>, ghost p: string, from: nat) returns (pathend: nat)
    requires |p| <= href.Length && href[..|p|] == p && '/' in p
    requires from + 1 == |p| || (from == |p| && from < href.Length && href[from] == NUL)
    ensures pathend == LastSlash(p, |p|)
  {
    pathend := from;
    assert p[..|p|] == p;
    while href[pathend] != '/'
      invariant 0 <= pathend <= from && forall j | pathend < j < |p| :: p[j] != '/'
      decreases pathend
    {
      pathend := pathend - 1;
    }
  }

  /** Walks back from the slash at `from` to the one before it. */
  method PreviousSlash(href: array<char>, ghost p: string, pathstart: nat, from: nat) returns (end: nat)
    requires |p| <= href.Length && href[..|p|] == p
    requires pathstart < from < |p| && p[pathstart] == '/' && p[from] == '/'
    ensures end == Parent(p, pathstart, from)
  {
    end := from - 1;
    while href[end] != '/'
      invariant pathstart <= end < from && forall j | end < j < from :: p[j] != '/'
      decreases end
    {
      end := end - 1;
    }
  }

  /** The loop that factors out leading dot segments. */
  method FactorOut(href: array<char>, ghost p: string, pathstart: nat, pathend: nat, url: string)
    returns (end: nat, rest: string)
    requires |p| <= href.Length && href[..|p|] == p && IsText(url)
    requires pathstart <= pathend < |p| && p[pathstart] == '/' && p[pathend] == '/'
    ensures (end, rest) == Climb(p, pathstart, pathend, url)
  {
    end, rest := pathend, url;
    while end != pathstart
      invariant pathstart <= end <= pathend && p[end] == '/'
      invariant Climb(p, pathstart, pathend, url) == Climb(p, pathstart, end, rest)
      decreases |rest|, end
    {
      if rest == "" || rest[0] != '.' {
        break;
      }
      if |rest| == 1 {
        rest := "";
        break;
      }
      if rest[1] == '/' {
        rest := rest[2..];
        continue;
      }
      if rest[1] != '.' {
        break;
      }
      var next: nat;
      if |rest| == 2 {
        next := 2;
      } else {
        if rest[2] != '/' {
          break;
        }
        next := 3;
      }
      end := PreviousSlash(href, p, pathstart, end);
      rest := rest[next..];
    }
  }
}
