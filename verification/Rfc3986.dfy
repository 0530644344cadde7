/**
 Resolving references as RFC 3986 says, and when `get_url` agrees.
*/
/** Section 5.2.4 of RFC 3986. */
module DotSegments {
  import opened Basics
  import opened UrlResolution

  /** An output buffer without its last segment and that segment's slash. */
  function Pop(out: string): string {
    if '/' in out then
      assert out[..|out|] == out;
      out[..LastSlash(out, |out|)]
    else ""
  }

  predicate At(s: string, i: nat, c: char) {
    i < |s| && s[i] == c
  }

  /** Section 5.2.4, "remove_dot_segments", with its output and input buffers. */
  function RemoveDots(out: string, input: string): string
    decreases |input|
  {
    var dot, slash := '.', '/';
    if input == "" then out
    else if At(input, 0, dot) && At(input, 1, dot) && At(input, 2, slash) then RemoveDots(out, input[3..])
    else if At(input, 0, dot) && At(input, 1, slash) then RemoveDots(out, input[2..])
    else if At(input, 0, slash) && At(input, 1, dot) && At(input, 2, slash) then RemoveDots(out, input[2..])
    else if At(input, 0, slash) && At(input, 1, dot) && |input| == 2 then RemoveDots(out, "/")
    else if At(input, 0, slash) && At(input, 1, dot) && At(input, 2, dot) && At(input, 3, slash) then
      RemoveDots(Pop(out), input[3..])
    else if At(input, 0, slash) && At(input, 1, dot) && At(input, 2, dot) && |input| == 3 then RemoveDots(Pop(out), "/")
    else if At(input, 0, dot) && (|input| == 1 || (At(input, 1, dot) && |input| == 2)) then RemoveDots(out, "")
    else
      var n := Find(input, '/', 1);
      RemoveDots(out + input[..n], input[n..])
  }

  /** A sequence of segments, each after a slash, none of them a dot segment. */
  predicate IsClean(path: string)
    decreases |path|
  {
    path == "" || (path[0] == '/' && var n := Find(path, '/', 1);
                   path[1..n] != "." && path[1..n] != ".." && IsClean(path[n..]))
  }

  lemma FindIn(s: string, t: string)
    requires s != "" && (t == "" || t[0] == '/')
    ensures Find(s + t, '/', 1) == Find(s, '/', 1)
  {
    var n, m := Find(s, '/', 1), Find(s + t, '/', 1);
    assert forall j | 1 <= j < n :: (s + t)[j] == s[j];
    assert n < |s| ==> (s + t)[n] == s[n];
    assert n == |s| && t != "" ==> (s + t)[n] == t[0];
  }

  lemma {:induction false} CleanJoins(s: string, t: string)
    requires IsClean(s) && (t == "" || t[0] == '/')
    ensures IsClean(s + t) <==> IsClean(t)
    decreases |s|
  {
    if s == "" {
      assert s + t == t;
    } else {
      var n := Find(s, '/', 1);
      FindIn(s, t);
      assert (s + t)[n..] == s[n..] + t && (s + t)[1..n] == s[1..n];
      CleanJoins(s[n..], t);
    }
  }

  /** Clean segments move to the output unchanged. */
  lemma {:induction false} CleanMoves(out: string, s: string, t: string)
    requires IsClean(s) && (t == "" || t[0] == '/')
    ensures RemoveDots(out, s + t) == RemoveDots(out + s, t)
    decreases |s|
  {
    hide RemoveDots;
    if s == "" {
      assert s + t == t && out + s == out;
    } else {
      var n := Find(s, '/', 1);
      FindIn(s, t);
      SplitSegment(out, s, t, n);
      SegmentStep(out, s + t, n);
      CleanMoves(out + s[..n], s[n..], t);
    }
  }

  lemma SplitSegment(out: string, s: string, t: string, n: nat)
    requires 1 <= n <= |s|
    ensures (s + t)[n..] == s[n..] + t && (s + t)[..n] == s[..n] && (s + t)[1..n] == s[1..n]
    ensures out + s[..n] + s[n..] == out + s
  {
  }

  lemma SegmentStep(out: string, input: string, n: nat)
    requires input != "" && input[0] == '/' && n == Find(input, '/', 1)
    requires input[1..n] != "." && input[1..n] != ".."
    ensures RemoveDots(out, input) == RemoveDots(out + input[..n], input[n..])
  {
  }

  lemma FirstSegmentClean(s: string, n: nat)
    requires IsClean(s) && s != "" && n == Find(s, '/', 1)
    ensures IsClean(s[..n]) && IsClean(s[n..])
  {
    var first := s[..n];
    assert Find(first, '/', 1) == n && first[1..n] == s[1..n] && first[n..] == "";
  }

  lemma {:induction false} CleanPrefix(s: string, i: nat)
    requires IsClean(s) && i < |s| && s[i] == '/'
    ensures IsClean(s[..i])
    decreases |s|
  {
    if i > 0 {
      var n := Find(s, '/', 1);
      FirstSegmentClean(s, n);
      hide IsClean, Find;
      CleanPrefix(s[n..], i - n);
      Slices(s, n, i);
      CleanJoins(s[..n], s[n..i]);
    }
  }

  lemma Slices(s: string, n: nat, i: nat)
    requires n <= i <= |s|
    ensures s[n..][..i - n] == s[n..i] && s[..n] + s[n..i] == s[..i]
  {
  }

  lemma PopKeepsClean(out: string)
    requires IsClean(out)
    ensures IsClean(Pop(out))
  {
    if '/' in out {
      assert out[..|out|] == out;
      CleanPrefix(out, LastSlash(out, |out|));
    }
  }

  lemma SegmentIsClean(input: string, n: nat)
    requires input != "" && input[0] == '/' && n == Find(input, '/', 1)
    requires !(At(input, 1, '.') && (At(input, 2, '/') || |input| == 2))
    requires !(At(input, 1, '.') && At(input, 2, '.') && (At(input, 3, '/') || |input| == 3))
    ensures IsClean(input[..n])
  {
    assert Find(input[..n], '/', 1) == n;
    assert input[..n][1..n] == input[1..n] && input[..n][n..] == "";
  }

  lemma PopIsParent(p: string, start: nat, end: nat)
    requires start < end < |p| && p[start] == '/' && p[end] == '/'
    ensures Pop(p[start..end]) == p[start..Parent(p, start, end)]
  {
    var d := p[start..end];
    assert d[0] == '/' && d[..|d|] == d;
    var i, j := LastSlash(d, |d|), Parent(p, start, end);
    assert d[i] == p[start + i] && d[j - start] == '/';
    assert d[..i] == p[start..start + i];
  }

  lemma StepHere(out: string, url: string)
    requires At(url, 0, '.') && At(url, 1, '/')
    ensures RemoveDots(out, "/" + url) == RemoveDots(out, "/" + url[2..])
  {
    assert ("/" + url)[2..] == "/" + url[2..];
  }

  lemma StepUp(out: string, url: string)
    requires At(url, 0, '.') && At(url, 1, '.') && At(url, 2, '/')
    ensures RemoveDots(out, "/" + url) == RemoveDots(Pop(out), "/" + url[3..])
  {
    assert ("/" + url)[3..] == "/" + url[3..];
  }

  lemma StepEnd(out: string, url: string)
    requires At(url, 0, '.') && (|url| == 1 || (At(url, 1, '.') && |url| == 2))
    ensures RemoveDots(out, "/" + url) == RemoveDots(if |url| == 1 then out else Pop(out), "/" + "")
  {
    assert "/" + "" == "/";
    assert |url| == 1 ==> "/" + url == "/.";
    assert |url| == 2 ==> "/" + url == "/..";
  }

  // The base's path, in front of the reference.

  /** What whole segments make of the output. */
  function Fold(out: string, d: string): string
    decreases |d|
  {
    if d == "" then out
    else
      var n := Find(d, '/', 1);
      if d[1..n] == "." then Fold(out, d[n..])
      else if d[1..n] == ".." then Fold(Pop(out), d[n..])
      else Fold(out + d[..n], d[n..])
  }

  predicate IsSegments(d: string) {
    d == "" || d[0] == '/'
  }

  lemma {:induction false} FoldMoves(out: string, d: string, t: string)
    requires IsSegments(d) && t != "" && t[0] == '/'
    ensures RemoveDots(out, d + t) == RemoveDots(Fold(out, d), t)
    decreases |d|
  {
    if d == "" {
      assert d + t == t;
    } else {
      var n := Find(d, '/', 1);
      FindIn(d, t);
      SplitSegment(out, d, t, n);
      FoldStep(out, d + t, n);
      hide RemoveDots, Find;
      FoldMoves(if d[1..n] == "." then out else if d[1..n] == ".." then Pop(out) else out + d[..n], d[n..], t);
    }
  }

  lemma FoldStep(out: string, input: string, n: nat)
    requires input != "" && input[0] == '/' && n == Find(input, '/', 1) < |input|
    ensures RemoveDots(out, input) ==
            RemoveDots(if input[1..n] == "." then out else if input[1..n] == ".." then Pop(out) else out + input[..n],
                       input[n..])
  {
    if input[1..n] == "." {
      assert input[1..n][0] == '.';
    } else if input[1..n] == ".." {
      assert input[1..n][0] == '.' && input[1..n][1] == '.';
    } else {
      SegmentStep(out, input, n);
    }
  }

  lemma {:induction false} FoldJoins(out: string, a: string, b: string)
    requires IsSegments(a) && IsSegments(b)
    ensures Fold(out, a + b) == Fold(Fold(out, a), b)
    decreases |a|
  {
    if a == "" {
      assert a + b == b;
    } else {
      var n := Find(a, '/', 1);
      FindIn(a, b);
      SplitSegment(out, a, b, n);
      hide Find;
      FoldJoins(if a[1..n] == "." then out else if a[1..n] == ".." then Pop(out) else out + a[..n], a[n..], b);
    }
  }

  lemma {:induction false} FoldOfClean(out: string, d: string)
    requires IsClean(d)
    ensures Fold(out, d) == out + d
    decreases |d|
  {
    if d == "" {
      assert out + d == out;
    } else {
      var n := Find(d, '/', 1);
      FoldOfClean(out + d[..n], d[n..]);
      Regroup(out, d[..n], d[n..]);
      assert d == d[..n] + d[n..];
    }
  }

  lemma {:induction false} FoldKeepsClean(out: string, d: string)
    requires IsClean(out) && IsSegments(d)
    ensures IsClean(Fold(out, d))
    decreases |d|
  {
    if d != "" {
      var n := Find(d, '/', 1);
      if d[1..n] == "." {
        FoldKeepsClean(out, d[n..]);
      } else if d[1..n] == ".." {
        PopKeepsClean(out);
        FoldKeepsClean(Pop(out), d[n..]);
      } else {
        FirstIsClean(d, n);
        CleanJoins(out, d[..n]);
        FoldKeepsClean(out + d[..n], d[n..]);
      }
    }
  }

  lemma FirstIsClean(d: string, n: nat)
    requires d != "" && d[0] == '/' && n == Find(d, '/', 1) && d[1..n] != "." && d[1..n] != ".."
    ensures IsClean(d[..n])
  {
    assert Find(d[..n], '/', 1) == n && d[..n][1..n] == d[1..n] && d[..n][n..] == "";
  }

  /** `k` segments less. */
  function Pops(out: string, k: nat): string
    decreases k
  {
    if k == 0 then out else Pops(Pop(out), k - 1)
  }

  // How many segments there are.

  lemma {:induction false} SlashesJoin(a: string, b: string)
    ensures Slashes(a + b) == Slashes(a) + Slashes(b)
    decreases |b|
  {
    if b == "" {
      assert a + b == a;
    } else {
      var c := b[..|b| - 1];
      assert (a + b)[..|a + b| - 1] == a + c;
      SlashesJoin(a, c);
    }
  }

  lemma {:induction false} NoSlashes(s: string)
    ensures Slashes(s) == 0 <==> '/' !in s
  {
    if s != "" {
      NoSlashes(s[..|s| - 1]);
      assert s == s[..|s| - 1] + [s[|s| - 1]];
    }
  }

  lemma PopCounts(out: string)
    ensures Slashes(Pop(out)) == if Slashes(out) == 0 then 0 else Slashes(out) - 1
  {
    NoSlashes(out);
    if '/' in out {
      assert out[..|out|] == out;
      var i := LastSlash(out, |out|);
      LastSlashCounts(out, 0, i, |out|);
      assert out[0..|out|] == out && out[0..i] == out[..i];
    }
  }

  lemma {:induction false} PopsCount(out: string, k: nat)
    ensures Slashes(Pops(out, k)) == if Slashes(out) < k then 0 else Slashes(out) - k
    decreases k
  {
    hide Pop, Slashes;
    if k > 0 {
      PopCounts(out);
      PopsCount(Pop(out), k - 1);
    }
  }

  lemma {:induction false} PopsKeepClean(out: string, k: nat)
    requires IsClean(out)
    ensures IsClean(Pops(out, k))
    decreases k
  {
    hide Pop, IsClean;
    if k > 0 {
      PopKeepsClean(out);
      PopsKeepClean(Pop(out), k - 1);
    }
  }

  lemma SegmentCounts(d: string, n: nat)
    requires d != "" && d[0] == '/' && n == Find(d, '/', 1)
    ensures Slashes(d) == 1 + Slashes(d[n..]) && Slashes(d[..n]) == 1
  {
    var first := d[..n];
    assert d == first + d[n..] && first == "/" + d[1..n];
    SlashesJoin(first, d[n..]);
    SlashesJoin("/", d[1..n]);
    assert '/' !in d[1..n];
    NoSlashes(d[1..n]);
    assert "/"[..0] == "" && Slashes("") == 0;
    assert Slashes("/") == 1;
  }

  /** Every dot segment costs a segment. */
  lemma {:induction false} FoldCounts(out: string, d: string)
    requires IsSegments(d)
    ensures Slashes(Fold(out, d)) <= Slashes(out) + Slashes(d)
    ensures !IsClean(d) ==> Slashes(Fold(out, d)) < Slashes(out) + Slashes(d)
    decreases |d|
  {
    if d != "" {
      var n := Find(d, '/', 1);
      SegmentCounts(d, n);
      if d[1..n] == "." {
        FoldCounts(out, d[n..]);
      } else if d[1..n] == ".." {
        PopCounts(out);
        FoldCounts(Pop(out), d[n..]);
      } else {
        SlashesJoin(out, d[..n]);
        FoldCounts(out + d[..n], d[n..]);
      }
    }
  }

  lemma PopsNone(out: string)
    ensures Pops(out, 0) == out
  {
  }

  lemma PopsStep(out: string, k: nat)
    ensures Pops(out, k + 1) == Pops(Pop(out), k)
  {
  }

  function Slashes(s: string): nat {
    if s == "" then 0 else Slashes(s[..|s| - 1]) + if s[|s| - 1] == '/' then 1 else 0
  }

  lemma DirectoriesAbove(p: string, start: nat, end: nat)
    requires start <= end < |p| && p[start] == '/' && p[end] == '/'
    ensures if start == end then Slashes(p[start..end]) == 0
            else Slashes(p[start..end]) == Slashes(p[start..Parent(p, start, end)]) + 1
  {
    if start < end {
      var e := Parent(p, start, end);
      LastSlashCounts(p, start, e, end);
    }
  }

  lemma {:induction false} LastSlashCounts(p: string, start: nat, e: nat, end: nat)
    requires start <= e < end <= |p| && p[e] == '/' && forall j | e < j < end :: p[j] != '/'
    ensures Slashes(p[start..end]) == Slashes(p[start..e]) + 1
    decreases end
  {
    assert p[start..end][..end - start - 1] == p[start..end - 1];
    if e < end - 1 {
      LastSlashCounts(p, start, e, end - 1);
    }
  }

  lemma EmptyIsClean()
    ensures IsClean("") && IsClean("/" + "")
  {
    assert "/" + "" == "/" && Find("/", '/', 1) == 1;
  }

  /** Popping as many segments as the base loses gives what the base keeps, if no dot segments are among them, or if
      nothing is kept. */
  lemma OutputIsKept(kept: string, lost: string, x: string)
    requires IsClean(kept) && IsSegments(lost) && Pops(kept + lost, Slashes(lost)) == kept
    requires x == Pops(Fold("", kept + lost), Slashes(lost))
    ensures x == kept <==> kept == "" || IsClean(kept + lost)
  {
    hide IsClean, Fold, Pops, Slashes;
    var d, k := kept + lost, Slashes(lost);
    EmptyIsClean();
    NothingAdded(kept);
    NothingAdded(d);
    NothingAdded(lost);
    CleanIsSegments(kept);
    CleanJoins(kept, lost);
    FoldOfClean("", kept);
    FoldJoins("", kept, lost);
    if IsClean(d) {
      FoldOfClean("", d);
    } else {
      FoldKeepsClean("", d);
      FoldCounts(kept, lost);
      PopsCount(Fold("", d), k);
      PopsKeepClean(Fold("", d), k);
      NoSegments(x);
      NoSegments(kept);
    }
  }

  lemma CleanIsSegments(s: string)
    requires IsClean(s)
    ensures IsSegments(s)
  {
  }

  lemma NoSegments(s: string)
    requires IsClean(s)
    ensures Slashes(s) == 0 <==> s == ""
  {
    NoSlashes(s);
  }

  lemma NothingAdded(s: string)
    ensures s + "" == s && "" + s == s
  {
  }

  lemma SameHead(a: string, b: string, t: string)
    ensures a + t == b + t <==> a == b
  {
    if a + t == b + t {
      assert (a + t)[..|a|] == a && (b + t)[..|b|] == b;
    }
  }

  lemma CleanParts(a: string, b: string)
    requires IsSegments(a) && b != "" && b[0] == '/' && IsClean(a + b)
    ensures IsClean(a) && IsClean(b)
  {
    assert (a + b)[|a|] == '/' && (a + b)[..|a|] == a;
    CleanPrefix(a + b, |a|);
    CleanJoins(a, b);
  }

  lemma EmptyInput(out: string)
    ensures RemoveDots(out, "") == out
  {
  }

  // Paths that may be rootless.

  function Rooted(s: string): string {
    if s == "" || s[0] == '/' then s else "/" + s
  }

  /** None of the segments is a dot segment, whether the path is rooted or not. */
  predicate IsDotless(s: string) {
    IsClean(Rooted(s))
  }

  lemma PopKeepsDotless(out: string)
    requires IsDotless(out)
    ensures IsDotless(Pop(out))
  {
    hide IsClean;
    if '/' in out {
      PopOf(out);
      var i := |Pop(out)|;
      if out[0] == '/' {
        assert i > 0 ==> out[..i][0] == '/';
        CleanPrefix(out, i);
      } else {
        var r := "/" + out;
        assert r[i + 1] == '/' && r[..i + 1] == "/" + out[..i] && i > 0;
        CleanPrefix(r, i + 1);
      }
    }
    EmptyIsClean();
  }

  lemma PopOf(out: string)
    requires '/' in out
    ensures var i := |Pop(out)|; i < |out| && out[i] == '/' && Pop(out) == out[..i] && (i == 0 ==> out[0] == '/')
  {
    assert out[..|out|] == out;
  }

  lemma SegmentKeepsDotless(out: string, segment: string)
    requires IsDotless(out) && segment != "" && segment[0] == '/' && IsClean(segment)
    ensures IsDotless(out + segment)
  {
    hide IsClean;
    RootedJoins(out, segment);
    if out != "" {
      CleanJoins(Rooted(out), segment);
    }
  }

  lemma RootedJoins(a: string, b: string)
    requires IsSegments(b)
    ensures Rooted(a + b) == if a == "" then b else Rooted(a) + b
  {
    if a == "" {
      NothingAdded(b);
    } else if a[0] != '/' {
      Regroup("/", a, b);
    }
  }

  lemma {:induction false} FoldKeepsDotless(out: string, d: string)
    requires IsDotless(out) && IsSegments(d)
    ensures IsDotless(Fold(out, d))
    decreases |d|
  {
    if d != "" {
      var n := Find(d, '/', 1);
      if d[1..n] == "." {
        FoldKeepsDotless(out, d[n..]);
      } else if d[1..n] == ".." {
        PopKeepsDotless(out);
        FoldKeepsDotless(Pop(out), d[n..]);
      } else {
        FirstIsClean(d, n);
        SegmentKeepsDotless(out, d[..n]);
        FoldKeepsDotless(out + d[..n], d[n..]);
      }
    }
  }

  lemma {:induction false} PopsKeepDotless(out: string, k: nat)
    requires IsDotless(out)
    ensures IsDotless(Pops(out, k))
    decreases k
  {
    hide Pop, IsDotless;
    if k > 0 {
      PopKeepsDotless(out);
      PopsKeepDotless(Pop(out), k - 1);
    }
  }

  lemma {:induction false} RemovedIsDotless(out: string, input: string)
    requires IsDotless(out) && IsSegments(input)
    ensures IsDotless(RemoveDots(out, input))
    decreases |input|
  {
    if input == "" {
    } else if At(input, 1, '.') && At(input, 2, '/') {
      RemovedIsDotless(out, input[2..]);
    } else if At(input, 1, '.') && |input| == 2 {
      RemovedIsDotless(out, "/");
    } else if At(input, 1, '.') && At(input, 2, '.') && At(input, 3, '/') {
      PopKeepsDotless(out);
      RemovedIsDotless(Pop(out), input[3..]);
    } else if At(input, 1, '.') && At(input, 2, '.') && |input| == 3 {
      PopKeepsDotless(out);
      RemovedIsDotless(Pop(out), "/");
    } else {
      var n := Find(input, '/', 1);
      SegmentIsClean(input, n);
      SegmentKeepsDotless(out, input[..n]);
      RemovedIsDotless(out + input[..n], input[n..]);
    }
  }

  /** The first segment of a path that is rootless. */
  function Head(path: string): (head: string)
    ensures '/' !in head && |head| <= |path| && path[..|head|] == head && IsSegments(path[|head|..])
  {
    var n := Find(path, '/', 0);
    assert forall j | 0 <= j < n :: path[j] != '/';
    path[..n]
  }

  predicate IsDotSegment(s: string) {
    s == "." || s == ".."
  }

  /** A head that is no dot segment moves to the output. */
  lemma HeadMoves(path: string)
    requires !IsDotSegment(Head(path))
    ensures RemoveDots("", path) == RemoveDots(Head(path), path[|Head(path)|..]) && IsDotless(Head(path))
  {
    var head := Head(path);
    if head != "" {
      HeadIsDotless(head);
      assert Find(path, '/', 1) == Find(path, '/', 0) == |head|;
      assert "" + head == head;
      if path[0] == '.' {
        assert |path| == 1 ==> head == ".";
        assert |path| > 1 && path[1] == '/' ==> head == ".";
        assert |path| == 2 && path[1] == '.' ==> head == "..";
        assert |path| > 2 && path[1] == '.' && path[2] == '/' ==> head == "..";
      }
    } else {
      assert path[0..] == path;
    }
  }

  lemma HeadIsDotless(head: string)
    requires head != "" && '/' !in head && !IsDotSegment(head)
    ensures IsDotless(head)
  {
    var s := "/" + head;
    assert forall j | 1 <= j < |s| :: s[j] == head[j - 1];
    assert Find(s, '/', 1) == |s| && s[1..|s|] == head && s[|s|..] == "";
  }

  /** Whatever the path, no dot segment is left of it. */
  lemma {:induction false} RemovedFromAnyIsDotless(path: string)
    ensures IsDotless(RemoveDots("", path))
    decreases |path|
  {
    if !IsDotSegment(Head(path)) {
      HeadMoves(path);
      RemovedIsDotless(Head(path), path[|Head(path)|..]);
    } else if |path| > |Head(path)| {
      var n := |Head(path)|;
      assert path[n] == '/' && path[n..][0] == '/';
      assert path[0] == '.' && (n == 2 ==> path[1] == '.');
      RemovedFromAnyIsDotless(path[n + 1..]);
    }
  }

  /** A rootless path without dot segments is what is left of it, and only such a path, rooted or not. */
  lemma OnlyDotlessStays(path: string)
    ensures RemoveDots("", path) == path <==> IsDotless(path)
  {
    hide RemoveDots, IsClean, IsDotless, Head;
    RemovedFromAnyIsDotless(path);
    if IsDotless(path) {
      DotlessHead(path);
      HeadMoves(path);
      CleanStays(Head(path), path[|Head(path)|..]);
      assert path[..|Head(path)|] + path[|Head(path)|..] == path;
    }
  }

  lemma CleanStays(out: string, d: string)
    requires IsClean(d)
    ensures RemoveDots(out, d) == out + d
  {
    hide RemoveDots, IsClean;
    CleanMoves(out, d, "");
    NothingAdded(d);
    EmptyInput(out + d);
  }

  lemma DotlessHead(path: string)
    requires IsDotless(path)
    ensures !IsDotSegment(Head(path)) && IsClean(path[|Head(path)|..])
  {
    var head := Head(path);
    if head != "" {
      var s := "/" + path;
      FindAfterSlash(path);
      var n := Find(s, '/', 1);
      assert s[1..n] == head && s[n..] == path[|head|..];
    } else {
      assert path[0..] == path;
    }
  }

  lemma FindAfterSlash(path: string)
    ensures Find("/" + path, '/', 1) == 1 + Find(path, '/', 0)
  {
    var s := "/" + path;
    var n, m := Find(s, '/', 1), Find(path, '/', 0);
    assert forall j | 1 <= j < |s| :: s[j] == path[j - 1];
    assert m < |path| ==> s[1 + m] == path[m];
    assert n < |s| ==> path[n - 1] == s[n];
  }

  /** No other bytes come in. */
  lemma {:induction false} RemovedAvoids(out: string, input: string, c: char)
    requires c !in out && c !in input && c != '/'
    ensures c !in RemoveDots(out, input)
    decreases |input|
  {
    if input == "" {
    } else if At(input, 0, '.') && At(input, 1, '.') && At(input, 2, '/') {
      RemovedAvoids(out, input[3..], c);
    } else if At(input, 0, '.') && At(input, 1, '/') {
      RemovedAvoids(out, input[2..], c);
    } else if At(input, 0, '/') && At(input, 1, '.') && At(input, 2, '/') {
      RemovedAvoids(out, input[2..], c);
    } else if At(input, 0, '/') && At(input, 1, '.') && |input| == 2 {
      RemovedAvoids(out, "/", c);
    } else if At(input, 0, '/') && At(input, 1, '.') && At(input, 2, '.') && At(input, 3, '/') {
      RemovedAvoids(Pop(out), input[3..], c);
    } else if At(input, 0, '/') && At(input, 1, '.') && At(input, 2, '.') && |input| == 3 {
      RemovedAvoids(Pop(out), "/", c);
    } else if At(input, 0, '.') && (|input| == 1 || (At(input, 1, '.') && |input| == 2)) {
    } else {
      var n := Find(input, '/', 1);
      RemovedAvoids(out + input[..n], input[n..], c);
    }
  }

  lemma {:induction false} RemovedIsNoLonger(out: string, input: string)
    ensures |RemoveDots(out, input)| <= |out| + |input|
    decreases |input|
  {
    if input == "" {
    } else if At(input, 0, '.') && At(input, 1, '.') && At(input, 2, '/') {
      RemovedIsNoLonger(out, input[3..]);
    } else if At(input, 0, '.') && At(input, 1, '/') {
      RemovedIsNoLonger(out, input[2..]);
    } else if At(input, 0, '/') && At(input, 1, '.') && At(input, 2, '/') {
      RemovedIsNoLonger(out, input[2..]);
    } else if At(input, 0, '/') && At(input, 1, '.') && |input| == 2 {
      RemovedIsNoLonger(out, "/");
    } else if At(input, 0, '/') && At(input, 1, '.') && At(input, 2, '.') && At(input, 3, '/') {
      RemovedIsNoLonger(Pop(out), input[3..]);
    } else if At(input, 0, '/') && At(input, 1, '.') && At(input, 2, '.') && |input| == 3 {
      RemovedIsNoLonger(Pop(out), "/");
    } else if At(input, 0, '.') && (|input| == 1 || (At(input, 1, '.') && |input| == 2)) {
    } else {
      var n := Find(input, '/', 1);
      RemovedIsNoLonger(out + input[..n], input[n..]);
    }
  }

  /** What is put before the rest of a path is what the algorithm puts there, if that rest has no dot segments. */
  lemma SameWhenDotless(kept: string, x: string, r: string)
    requires IsDotless(x) && r != "" && r[0] == '/'
    ensures kept + r == RemoveDots(x, r) <==> IsClean(r) && kept == x
  {
    hide RemoveDots, IsClean, IsDotless;
    RemovedIsDotless(x, r);
    if kept + r == RemoveDots(x, r) {
      DotlessEnds(kept, r);
    }
    if IsClean(r) {
      CleanStays(x, r);
      SameHead(kept, x, r);
    }
  }

  lemma DotlessEnds(a: string, r: string)
    requires r != "" && r[0] == '/' && IsDotless(a + r)
    ensures IsClean(r) && IsDotless(a)
  {
    hide IsClean;
    RootedJoins(a, r);
    EmptyIsClean();
    if a != "" {
      CleanParts(Rooted(a), r);
    }
  }
}

/** Sections 3 and 5 of RFC 3986, independently of the plugin's code. */
module Rfc3986 {
  import opened UrlResolution
  import opened DotSegments

  // Section 3: the components, each cut off with its delimiter.

  predicate IsLetter(c: char) {
    'a' <= c <= 'z' || 'A' <= c <= 'Z'
  }

  predicate IsSchemeLetter(c: char) {
    IsLetter(c) || '0' <= c <= '9' || c == '+' || c == '-' || c == '.'
  }

  /** Behind the colon of the scheme, if there is one. */
  function SchemeEnd(s: string): (n: nat)
    ensures n <= |s|
  {
    var colon := Find(s, ':', 0);
    if 0 < colon < |s| && IsLetter(s[0]) && (forall i | 0 < i < colon :: IsSchemeLetter(s[i])) then colon + 1 else 0
  }

  predicate HasAuthority(s: string) {
    var n := SchemeEnd(s);
    n + 2 <= |s| && s[n] == '/' && s[n + 1] == '/'
  }

  /** The first question mark or hash sign from `i` on. */
  function TailStart(s: string, i: nat): (n: nat)
    requires i <= |s|
    ensures i <= n <= |s| && (forall j | i <= j < n :: s[j] != '?' && s[j] != '#') && (n < |s| ==> s[n] == '?' || s[n] == '#')
    decreases |s| - i
  {
    if i == |s| || s[i] == '?' || s[i] == '#' then i else TailStart(s, i + 1)
  }

  /** An authority follows two slashes, and ends at a slash, a question mark or a hash sign. */
  function AuthorityEnd(s: string): (n: nat)
    ensures SchemeEnd(s) <= n <= |s|
  {
    if HasAuthority(s) then
      var slash, tail := Find(s, '/', SchemeEnd(s) + 2), TailStart(s, SchemeEnd(s) + 2);
      if slash <= tail then slash else tail
    else SchemeEnd(s)
  }

  /** The path ends at a question mark or a hash sign, the query at a hash sign. */
  function PathEnd(s: string): (n: nat)
    ensures AuthorityEnd(s) <= n <= |s|
  {
    TailStart(s, AuthorityEnd(s))
  }

  function QueryEnd(s: string): (n: nat)
    ensures PathEnd(s) <= n <= |s|
  {
    Find(s, '#', PathEnd(s))
  }

  function Path(s: string): string {
    s[AuthorityEnd(s)..PathEnd(s)]
  }

  predicate HasQuery(s: string) {
    PathEnd(s) < |s| && s[PathEnd(s)] == '?'
  }

  // Section 5.2.

  /** The part of a path before its last slash. */
  function Dir(path: string): string
    requires '/' in path
  {
    assert path[..|path|] == path;
    path[..LastSlash(path, |path|)]
  }

  /** Section 5.2.3, "merge". */
  function Merge(b: string, path: string): string {
    if HasAuthority(b) && Path(b) == "" then "/" + path
    else if '/' in Path(b) then Dir(Path(b)) + ("/" + path)
    else path
  }

  /** Sections 5.2.2 and 5.3: the reference `r` resolved against the base `b`. */
  function Target(b: string, r: string): string {
    var (path, rest) := (Path(r), r[PathEnd(r)..]);
    if SchemeEnd(r) > 0 then r[..AuthorityEnd(r)] + (RemoveDots("", path) + rest)
    else if HasAuthority(r) then b[..SchemeEnd(b)] + (r[..AuthorityEnd(r)] + (RemoveDots("", path) + rest))
    else if path == "" then b[..if HasQuery(r) then PathEnd(b) else QueryEnd(b)] + rest
    else b[..AuthorityEnd(b)] + (RemoveDots("", if path[0] == '/' then path else Merge(b, path)) + rest)
  }
}

/** When `get_url` gives what RFC 3986 asks for. */
module RfcAgreement {
  import opened Basics
  import opened UrlResolution
  import opened DotSegments
  import opened Rfc3986

  // Leading dot segments of a reference.

  predicate LeadsWithDots(url: string) {
    At(url, 0, '.') && (|url| == 1 || url[1] == '/' || (url[1] == '.' && (|url| == 2 || url[2] == '/')))
  }

  /** The reference without its first segment, which is a dot segment. */
  function DropDots(url: string): (rest: string)
    requires LeadsWithDots(url)
    ensures |rest| < |url|
  {
    if |url| == 1 then "" else if url[1] == '/' then url[2..] else if |url| == 2 then "" else url[3..]
  }

  /** The reference without its leading dot segments. */
  function AfterDots(url: string): string
    decreases |url|
  {
    if LeadsWithDots(url) then AfterDots(DropDots(url)) else url
  }

  /** How many `..` come before the last leading dot segment. */
  function UpsBeforeLast(url: string): nat
    decreases |url|
  {
    if LeadsWithDots(url) && LeadsWithDots(DropDots(url)) then
      (if At(url, 1, '.') then 1 else 0) + UpsBeforeLast(DropDots(url))
    else 0
  }

  /** How many `..` lead. */
  function Ups(url: string): nat
    decreases |url|
  {
    if LeadsWithDots(url) then (if At(url, 1, '.') then 1 else 0) + Ups(DropDots(url)) else 0
  }

  /** A reference without its query and fragment, and these. */
  function PathPart(url: string): string {
    url[..TailStart(url, 0)]
  }

  function TailPart(url: string): string {
    url[TailStart(url, 0)..]
  }

  lemma PartsAfter(url: string, n: nat)
    requires n <= |url| && forall j | 0 <= j < n :: url[j] != '?' && url[j] != '#'
    ensures n <= |PathPart(url)| && PathPart(url[n..]) == PathPart(url)[n..] && PathPart(url)[..n] == url[..n]
    ensures TailPart(url[n..]) == TailPart(url)
  {
    var t := url[n..];
    var i, j := TailStart(url, 0), TailStart(t, 0);
    assert forall k | 0 <= k < |t| :: t[k] == url[n + k];
    assert i >= n;
    assert i < |url| ==> t[i - n] == url[i];
    assert j < |t| ==> url[n + j] == t[j];
    assert i == n + j;
  }

  lemma WholeIsPath(url: string)
    requires '?' !in url && '#' !in url
    ensures PathPart(url) == url && TailPart(url) == ""
  {
    assert TailStart(url, 0) == |url|;
  }

  /** Each round of the loop is a step of the algorithm on the path of the reference: the output loses a segment for each
      directory that the base loses. */
  lemma {:induction false} ClimbMatches(p: string, start: nat, end: nat, url: string, out: string)
    requires start <= end < |p| && p[start] == '/' && p[end] == '/'
    ensures var (e, u) := Climb(p, start, end, url);
            var k: int := Slashes(p[start..end]) - Slashes(p[start..e]);
            && k >= 0 && Pops(p[start..end], k) == p[start..e] && TailPart(u) == TailPart(url)
            && RemoveDots(out, "/" + PathPart(url)) == RemoveDots(Pops(out, k), "/" + PathPart(u))
    decreases |url|
  {
    hide RemoveDots, Pop, Pops, IsClean, Parent, LastSlash, Slashes, PathPart, TailPart;
    DirectoriesAbove(p, start, end);
    PopsNone(out);
    PopsNone(p[start..end]);
    if end != start && At(url, 0, '.') {
      if |url| == 1 {
        WholeIsPath(url);
        WholeIsPath("");
        StepEnd(out, url);
      } else if url[1] == '/' {
        PartsAfter(url, 2);
        StepHere(out, PathPart(url));
        ClimbMatches(p, start, end, url[2..], out);
      } else if url[1] == '.' && (|url| == 2 || url[2] == '/') {
        PopIsParent(p, start, end);
        if |url| == 2 {
          WholeIsPath(url);
          WholeIsPath("");
          StepEnd(out, url);
          PopsStep(out, 0);
          PopsStep(p[start..end], 0);
          PopsNone(Pop(out));
          PopsNone(Pop(p[start..end]));
        } else {
          PartsAfter(url, 3);
          StepUp(out, PathPart(url));
          ClimbMatches(p, start, Parent(p, start, end), url[3..], Pop(out));
          var k := Slashes(p[start..end]) - 1 - Slashes(p[start..Climb(p, start, end, url).0]);
          PopsStep(out, k);
          PopsStep(p[start..end], k);
        }
      }
    }
  }

  /** Nothing in the path after the leading dot segments is one, and there are more directories than `..` come before the
      last of them. */
  predicate DotsLeadAndFit(url: string, directories: nat) {
    IsClean("/" + PathPart(AfterDots(url))) && (LeadsWithDots(url) ==> UpsBeforeLast(url) < directories)
  }

  /** What the loop leaves is free of dot segments exactly when these all lead and fit. */
  lemma {:induction false} DotsDecideLeftover(p: string, start: nat, end: nat, url: string)
    requires start <= end < |p| && p[start] == '/' && p[end] == '/'
    ensures var (e, u) := Climb(p, start, end, url);
            && (IsClean("/" + PathPart(u)) <==> DotsLeadAndFit(url, Slashes(p[start..end])))
            && (IsClean("/" + PathPart(u)) ==> Slashes(p[start..end]) == Slashes(p[start..e]) + Ups(url))
    decreases |url|
  {
    hide IsClean, Parent, Slashes, PathPart;
    DirectoriesAbove(p, start, end);
    DotsAreNotClean(url);
    if end != start && LeadsWithDots(url) {
      EmptyIsClean();
      WholeIsPath("");
      DotsDecideLeftover(p, start, if At(url, 1, '.') then Parent(p, start, end) else end, DropDots(url));
    }
  }

  lemma DotsAreNotClean(url: string)
    ensures LeadsWithDots(url) ==> !IsClean("/" + PathPart(url))
  {
    if LeadsWithDots(url) {
      var n := if |url| == 1 || url[1] == '/' then 1 else 2;
      hide IsClean, Find, PathPart, TailPart, TailStart;
      PartsAfter(url, n);
      PathPartIsFront(url);
      assert PathPart(url)[..n] == url[..n];
      assert url[..n] == "." || url[..n] == "..";
      DotSegmentIsNotClean(PathPart(url), n);
    }
  }

  lemma PathPartIsFront(url: string)
    ensures PathPart(url) <= url
  {
  }

  lemma DotSegmentIsNotClean(path: string, n: nat)
    requires n <= |path| && (|path| > n ==> path[n] == '/') && IsDotSegment(path[..n])
    ensures !IsClean("/" + path)
  {
    var s := "/" + path;
    assert path[..n][0] == '.' && (n == 2 ==> path[..n][1] == '.');
    FindAfterSlash(path);
    assert Find(path, '/', 0) == n by {
      assert n == 1 || n == 2;
      assert path[0] == '.' && (n == 2 ==> path[1] == '.');
    }
    assert s[1..1 + n] == path[..n];
  }

  // The base.

  /** Where the code's path starts, for a base with a scheme. */
  lemma PathStartsAfter(b: string)
    requires SchemeEnd(b) > 0
    ensures PathStart(b).Some? && AuthorityEnd(b) <= PathStart(b).value
    ensures var n := SchemeEnd(b);
            PathStart(b).value ==
            if HasAuthority(b) then Find(b, '/', n + 2)
            else if n < |b| && b[n] == '/' then Find(b, '/', n + 1)
            else Find(b, '/', n)
  {
    HostStarts(b);
    hide SchemeEnd, HasAuthority, Find, HostStart;
  }

  lemma HostStarts(b: string)
    requires SchemeEnd(b) > 0
    ensures var n := SchemeEnd(b);
            && Find(b, ':', 0) == n - 1 < |b|
            && HostStart(b, n - 1) == if HasAuthority(b) then n + 2 else if n < |b| && b[n] == '/' then n + 1 else n
  {
  }

  /** The directory that the code cuts the base to, without its last slash. */
  function Directory(b: string): (d: string)
    requires PathStart(b).Some?
    ensures IsSegments(d)
  {
    var p := WithPath(b);
    p[PathStart(b).value..LastSlash(p, |p|)]
  }

  /** The base has a directory that a path can be merged with. */
  predicate Merges(b: string) {
    (HasAuthority(b) && Path(b) == "") || '/' in Path(b)
  }

  function BaseDir(b: string): string
    requires Merges(b)
  {
    if '/' in Path(b) then Dir(Path(b)) else ""
  }

  /** The directory of the base without dot segments. */
  function Normal(d: string): string {
    Fold(Head(d), d[|Head(d)|..])
  }

  /** Cut at its last slash and `ups` segments further up, the base that the code keeps is the base that is asked for:
      the scheme and the authority, and the directory without dot segments. */
  predicate DirectoriesAgree(b: string, ups: nat)
    requires SchemeEnd(b) > 0 && PathStart(b).Some?
  {
    && Merges(b) && !IsDotSegment(Head(BaseDir(b)))
    && b[..PathStart(b).value] + Pops(Directory(b), ups) == b[..AuthorityEnd(b)] + Pops(Normal(BaseDir(b)), ups)
  }

  lemma HeadJoins(d: string, t: string)
    requires t != "" && t[0] == '/'
    ensures Head(d + t) == Head(d) && (d + t)[|Head(d)|..] == d[|Head(d)|..] + t
  {
    var n, m := Find(d, '/', 0), Find(d + t, '/', 0);
    assert forall j | 0 <= j < |d| :: (d + t)[j] == d[j];
    assert (d + t)[|d|] == '/';
    assert n == m;
    assert (d + t)[..n] == d[..n];
  }

  /** The merged path, with the directory of the base as output. */
  lemma MergedPath(b: string, path: string)
    requires Merges(b) && !IsDotSegment(Head(BaseDir(b)))
    ensures var x := Normal(BaseDir(b));
            IsDotless(x) && RemoveDots("", Merge(b, path)) == RemoveDots(x, "/" + path)
  {
    hide RemoveDots, Fold, IsDotless, Head, Dir, HasAuthority, Path, IsDotSegment, IsClean, Rooted;
    var d := BaseDir(b);
    assert Merge(b, path) == d + ("/" + path);
    hide Merge, BaseDir;
    HeadJoins(d, "/" + path);
    HeadMoves(d + ("/" + path));
    FoldMoves(Head(d), d[|Head(d)|..], "/" + path);
    FoldKeepsDotless(Head(d), d[|Head(d)|..]);
  }

  // References to relative paths.

  predicate IsRelativePath(url: string) {
    SchemeEnd(url) == 0 && url != "" && url[0] != '/' && url[0] != '?' && url[0] != '#'
  }

  lemma RelativeReference(url: string)
    requires IsRelativePath(url)
    ensures !HasAuthority(url) && AuthorityEnd(url) == 0 && Path(url) == PathPart(url) && url[PathEnd(url)..] == TailPart(url)
    ensures url == PathPart(url) + TailPart(url) && PathPart(url) != "" && PathPart(url)[0] != '/'
  {
  }

  lemma TargetIs(b: string, url: string)
    requires IsRelativePath(url)
    ensures Target(b, url) == b[..AuthorityEnd(b)] + (RemoveDots("", Merge(b, PathPart(url))) + TailPart(url))
  {
    RelativeReference(url);
    hide RemoveDots, Merge, PathPart, TailPart, HasAuthority, AuthorityEnd, PathEnd, QueryEnd, Path;
  }

  lemma Cancel(front: string, kept: string, path: string, tail: string, removed: string)
    ensures front + kept + "/" + (path + tail) == front + (removed + tail) <==> kept + ("/" + path) == removed
  {
    Regroup(front + kept, "/", path + tail);
    Regroup("/", path, tail);
    Regroup(front, kept, ("/" + path) + tail);
    Regroup(kept, "/" + path, tail);
    SameTail(front, (kept + ("/" + path)) + tail, removed + tail);
    SameHead(kept + ("/" + path), removed, tail);
  }

  /** What the loop does with base and reference, and to the output `x`. */
  lemma ClimbParts(p: string, start: nat, last: nat, url: string, x: string) returns (e: nat, u: string)
    requires start <= last < |p| && p[start] == '/' && p[last] == '/'
    ensures (e, u) == Climb(p, start, last, url) && TailPart(u) == TailPart(url) && (start == last ==> u == url && e == start)
    ensures var k: int := Slashes(p[start..last]) - Slashes(p[start..e]);
            && k >= 0 && Pops(p[start..last], k) == p[start..e]
            && (IsClean("/" + PathPart(u)) <==> DotsLeadAndFit(url, Slashes(p[start..last])))
            && (IsClean("/" + PathPart(u)) ==> k == Ups(url))
            && RemoveDots(x, "/" + PathPart(url)) == RemoveDots(Pops(x, k), "/" + PathPart(u))
  {
    hide *;
    ClimbStays(p, start, url);
    var (end, rest) := Climb(p, start, last, url);
    e, u := end, rest;
    ClimbMatches(p, start, last, url, x);
    DotsDecideLeftover(p, start, last, url);
  }

  /** What the code returns is what is asked for if it puts the right text before what the loop leaves. */
  lemma RelativeIsTarget(b: string, url: string, e: nat, u: string)
    requires PathStart(b).Some? && AuthorityEnd(b) <= PathStart(b).value && IsRelativePath(url)
    requires var p := WithPath(b);
             && '/' in p[..|p|] && PathStart(b).value <= LastSlash(p, |p|)
             && (e, u) == Climb(p, PathStart(b).value, LastSlash(p, |p|), url) && TailPart(u) == TailPart(url)
    ensures Relative(b, url) == Target(b, url) <==>
            WithPath(b)[AuthorityEnd(b)..e] + ("/" + PathPart(u)) == RemoveDots("", Merge(b, PathPart(url)))
  {
    hide *;
    var p, start := WithPath(b), PathStart(b).value;
    PathOf(b, start);
    PartsOf(u);
    TargetIs(b, url);
    RelativeIs(b, url);
    TextsAgree(p, b, AuthorityEnd(b), start, e, PathPart(u), TailPart(u), RemoveDots("", Merge(b, PathPart(url))));
  }

  lemma TextsAgree(p: string, b: string, n: nat, start: nat, e: nat, path: string, tail: string, removed: string)
    requires n <= start <= e < |p| && start <= |b| && p[..start] == b[..start] && p[e] == '/'
    ensures p[..e + 1] + (path + tail) == b[..n] + (removed + tail) <==> p[n..e] + ("/" + path) == removed
  {
    Before(p, b, n, start, e);
    Cancel(b[..n], p[n..e], path, tail, removed);
  }

  lemma ClimbStays(p: string, start: nat, url: string)
    requires start < |p| && p[start] == '/'
    ensures Climb(p, start, start, url) == (start, url)
  {
  }

  lemma PartsOf(u: string)
    ensures u == PathPart(u) + TailPart(u)
  {
  }

  lemma Before(p: string, b: string, n: nat, start: nat, e: nat)
    requires n <= start <= e < |p| && start <= |b| && p[..start] == b[..start] && p[e] == '/'
    ensures p[..e + 1] == b[..n] + p[n..e] + "/" && b[..n] == p[..n]
  {
    assert p[..start][..n] == b[..start][..n];
  }

  /** With a base whose directory can be merged, and starts with no dot segment: what the code keeps has to be the output
      of the algorithm, and what the loop leaves free of dot segments. */
  lemma MergingParts(b: string, url: string) returns (e: nat, k: nat)
    requires SchemeEnd(b) > 0 && IsRelativePath(url) && Merges(b) && !IsDotSegment(Head(BaseDir(b)))
    ensures PathStart(b).Some? && AuthorityEnd(b) <= PathStart(b).value <= e < |WithPath(b)|
    ensures Pops(Directory(b), k) == WithPath(b)[PathStart(b).value..e]
    ensures DotsLeadAndFit(url, Slashes(Directory(b))) ==> k == Ups(url)
    ensures Relative(b, url) == Target(b, url) <==>
            DotsLeadAndFit(url, Slashes(Directory(b))) && WithPath(b)[AuthorityEnd(b)..e] == Pops(Normal(BaseDir(b)), k)
  {
    hide RemoveDots, Climb, PathPart, TailPart, PathStart, WithPath, LastSlash, Relative, Target, Merge, Pops, Slashes;
    hide IsClean, DotsLeadAndFit, Ups, Normal, BaseDir, Head, IsDotless, AuthorityEnd, SchemeEnd, Merges, IsDotSegment;
    hide IsRelativePath, Find, Fold;
    PathStartsAfter(b);
    var p, start, n, x := WithPath(b), PathStart(b).value, AuthorityEnd(b), Normal(BaseDir(b));
    PathOf(b, start);
    var last := LastSlash(p, |p|);
    assert Directory(b) == p[start..last];
    hide Directory;
    MergedPath(b, PathPart(url));
    var u;
    e, u := ClimbParts(p, start, last, url, x);
    k := Slashes(p[start..last]) - Slashes(p[start..e]);
    RelativeIsTarget(b, url, e, u);
    PopsKeepDotless(x, k);
    SameWhenDotless(p[n..e], Pops(x, k), "/" + PathPart(u));
  }

  lemma MergingBaseAgrees(b: string, url: string)
    requires SchemeEnd(b) > 0 && IsRelativePath(url) && Merges(b) && !IsDotSegment(Head(BaseDir(b)))
    ensures PathStart(b).Some?
    ensures Relative(b, url) == Target(b, url)
            <==> DotsLeadAndFit(url, Slashes(Directory(b))) && DirectoriesAgree(b, Ups(url))
  {
    hide Head, BaseDir, PathStart, WithPath, Directory, Pops, Normal, Relative, Target, DotsLeadAndFit, Ups, Slashes;
    hide AuthorityEnd, SchemeEnd, Merges, IsDotSegment, IsRelativePath;
    var e, k := MergingParts(b, url);
    PathOf(b, PathStart(b).value);
    KeptIs(WithPath(b), b, AuthorityEnd(b), PathStart(b).value, e, Pops(Normal(BaseDir(b)), k));
  }

  lemma KeptIs(p: string, b: string, n: nat, start: nat, e: nat, x: string)
    requires n <= start <= e <= |p| && start <= |b| && p[..start] == b[..start]
    ensures p[n..e] == x <==> b[..start] + p[start..e] == b[..n] + x
  {
    assert p[..start][..n] == b[..start][..n];
    assert b[..start] + p[start..e] == p[..e];
    assert p[..e] == b[..n] + p[n..e];
    SameTail(b[..n], p[n..e], x);
  }

  /** A rootless path that starts with a dot segment is never kept. */
  lemma DottedBaseDisagrees(b: string, url: string)
    requires SchemeEnd(b) > 0 && IsRelativePath(url) && Merges(b) && IsDotSegment(Head(BaseDir(b)))
    ensures PathStart(b).Some? && Relative(b, url) != Target(b, url)
  {
    hide *;
    PathStartsAfter(b);
    var p, start, n := WithPath(b), PathStart(b).value, AuthorityEnd(b);
    PathOf(b, start);
    var last := LastSlash(p, |p|);
    var head := Head(BaseDir(b));
    RootlessStart(b);
    var e, u := ClimbParts(p, start, last, url, "");
    RelativeIsTarget(b, url, e, u);
    RemovedFromAnyIsDotless(Merge(b, PathPart(url)));
    if p[n..e] + ("/" + PathPart(u)) == RemoveDots("", Merge(b, PathPart(url))) {
      DotlessEnds(p[n..e], "/" + PathPart(u));
      DotlessHead(p[n..e]);
      KeptHead(p, b, n, start, e, head);
    }
  }

  /** In a rootless path the code's path starts behind the first segment. */
  lemma RootlessStart(b: string)
    requires SchemeEnd(b) > 0 && Merges(b) && IsDotSegment(Head(BaseDir(b)))
    ensures var n, head := AuthorityEnd(b), Head(BaseDir(b));
            && n + |head| <= |b| && PathStart(b) == Some(n + |head|) && b[n..n + |head|] == head
  {
    hide Head, BaseDir, Find, PathStart, IsDotSegment, SchemeEnd, PathEnd, HasAuthority;
    PathStartsAfter(b);
    AuthorityThenRooted(b);
    BaseDirHead(b);
    var path, n := Path(b), AuthorityEnd(b);
    assert !HasAuthority(b) && n == SchemeEnd(b) && b[n] == path[0];
    hide Path, AuthorityEnd;
    FindInPath(b, n, path);
  }

  lemma BaseDirHead(b: string)
    requires Merges(b) && IsDotSegment(Head(BaseDir(b)))
    ensures '/' in Path(b) && Path(b)[0] != '/' && Head(Path(b)) == Head(BaseDir(b))
  {
    var path, d := Path(b), BaseDir(b);
    assert '/' in path;
    assert path[..|path|] == path && path[|d|] == '/';
    assert path == d + path[|d|..];
    hide Path;
    HeadJoins(d, path[|d|..]);
    assert Head(path) != "";
  }

  lemma AuthorityThenRooted(b: string)
    ensures HasAuthority(b) && Path(b) != "" ==> Path(b)[0] == '/'
  {
    if HasAuthority(b) {
      var i := SchemeEnd(b) + 2;
      var slash, tail := Find(b, '/', i), TailStart(b, i);
      if tail < slash {
        assert PathEnd(b) == tail;
      }
    }
  }

  lemma FindInPath(b: string, n: nat, path: string)
    requires n + |path| <= |b| && b[n..n + |path|] == path && '/' in path
    ensures Find(b, '/', n) == n + |Head(path)| && b[n..n + |Head(path)|] == Head(path)
  {
    var i, j := Find(b, '/', n), Find(path, '/', 0);
    assert forall k | 0 <= k < |path| :: path[k] == b[n + k];
    var m :| 0 <= m < |path| && path[m] == '/';
    assert j < |path|;
    assert b[n + j] == '/';
    assert i == n + j;
    assert b[n..n + j] == path[..j];
  }

  lemma KeptHead(p: string, b: string, n: nat, start: nat, e: nat, head: string)
    requires n <= start <= e < |p| && start <= |b| && p[..start] == b[..start] && p[start] == '/'
    requires b[n..start] == head && '/' !in head
    ensures Head(p[n..e]) == head
  {
    var kept := p[n..e];
    assert p[n..start] == p[..start][n..] == b[..start][n..] == head;
    assert kept == head + p[start..e];
    if start < e {
      assert p[start..e][0] == '/';
      HeadJoins(head, p[start..e]);
      HeadOfSegment(head);
    } else {
      assert p[start..e] == "" && kept == head;
      HeadOfSegment(head);
    }
  }

  lemma HeadOfSegment(s: string)
    requires '/' !in s
    ensures Head(s) == s
  {
    var n := Find(s, '/', 0);
    assert n == |s|;
  }

  /** A rootless path of one segment, or of none, is never kept either. */
  lemma FlatBaseDisagrees(b: string, url: string)
    requires SchemeEnd(b) > 0 && IsRelativePath(url) && !Merges(b)
    ensures PathStart(b).Some? && Relative(b, url) != Target(b, url)
  {
    assert Merge(b, PathPart(url)) == PathPart(url);
    hide *;
    PathStartsAfter(b);
    var p, start, n := WithPath(b), PathStart(b).value, AuthorityEnd(b);
    PathOf(b, start);
    var last := LastSlash(p, |p|);
    FlatStart(b);
    var e, u := ClimbParts(p, start, last, url, "");
    RelativeIsTarget(b, url, e, u);
    if start == |b| {
      RemovedIsNoLonger("", PathPart(url));
    } else {
      var c := b[PathEnd(b)];
      NoDelimiter(url, c);
      RemovedAvoids("", PathPart(url), c);
      DelimiterKept(p, b, n, PathEnd(b), start, e);
    }
  }

  lemma DelimiterKept(p: string, b: string, n: nat, i: nat, start: nat, e: nat)
    requires n <= i < start <= e <= |p| && start <= |b| && p[..start] == b[..start]
    ensures b[i] in p[n..e]
  {
    assert p[n..e][i - n] == p[..start][i] == b[..start][i];
  }

  lemma NoDelimiter(url: string, c: char)
    requires c == '?' || c == '#'
    ensures c !in PathPart(url)
  {
  }

  /** Then the first slash, if there is one, comes after the path. */
  lemma FlatStart(b: string)
    requires SchemeEnd(b) > 0 && !Merges(b)
    ensures PathStart(b).Some?
    ensures var start := PathStart(b).value;
            start == |b| || (PathEnd(b) < start && (b[PathEnd(b)] == '?' || b[PathEnd(b)] == '#'))
  {
    PathStartsAfter(b);
    AuthorityThenRooted(b);
    var n, start, end := AuthorityEnd(b), PathStart(b).value, PathEnd(b);
    assert !HasAuthority(b) && n == SchemeEnd(b);
    NoneWithin(b, n, end, '/');
    assert start < |b| ==> b[start] == '/';
  }

  lemma NoneWithin(s: string, i: nat, j: nat, c: char)
    requires i <= j <= |s| && c !in s[i..j]
    ensures forall k | i <= k < j :: s[k] != c
  {
    forall k | i <= k < j
      ensures s[k] != c
    {
      assert s[k] == s[i..j][k - i];
    }
  }

  // The other references.

  lemma SchemeIsAbsolute(url: string)
    ensures SchemeEnd(url) > 0 ==> IsAbsolute(url)
  {
  }

  lemma ReferenceParts(url: string)
    ensures url == url[..AuthorityEnd(url)] + (Path(url) + url[PathEnd(url)..])
  {
  }

  /** A path with what stands before and behind it stays itself exactly if it has no dot segments. */
  lemma PathStays(front: string, path: string, rest: string)
    ensures front + (RemoveDots("", path) + rest) == front + (path + rest) <==> IsDotless(path)
  {
    OnlyDotlessStays(path);
    hide RemoveDots, IsDotless;
    SameTail(front, RemoveDots("", path) + rest, path + rest);
    SameHead(RemoveDots("", path), path, rest);
  }

  /** What the code takes for absolute are the references with a scheme, and those with a slash before the colon. */
  lemma SchemesAreAbsolute(s: string)
    ensures var colon := Find(s, ':', 0);
            SchemeEnd(s) == if IsAbsolute(s) && '/' !in s[..colon] then colon + 1 else 0
  {
    var colon := Find(s, ':', 0);
    var front := s[..colon];
    forall i | 0 < i < colon
      ensures IsSchemeChar(s[i]) <==> IsSchemeLetter(s[i]) || s[i] == '/'
    {
    }
    if 0 < colon < |s| && IsAlpha(s[0]) {
      assert front[0] == s[0];
      assert forall i :: 0 <= i < colon ==> front[i] == s[i];
      assert !IsSchemeLetter('/');
    }
  }

  lemma AbsoluteAgrees(b: string, url: string)
    requires SchemeEnd(b) > 0 && IsAbsolute(url)
    ensures url == Target(b, url) <==> SchemeEnd(url) > 0 && IsDotless(Path(url))
  {
    if SchemeEnd(url) > 0 {
      ReferenceParts(url);
      PathStays(url[..AuthorityEnd(url)], Path(url), url[PathEnd(url)..]);
    } else {
      TargetHasScheme(b, url);
      hide Target, RemoveDots, IsAbsolute;
      if url == Target(b, url) {
        SameScheme(b, url);
      }
    }
  }

  lemma TargetHasScheme(b: string, url: string)
    requires SchemeEnd(url) == 0
    ensures var n, t := SchemeEnd(b), Target(b, url); n <= |t| && t[..n] == b[..n]
  {
    hide RemoveDots, Merge, Path, HasAuthority;
    var n, m := SchemeEnd(b), if HasAuthority(url) then SchemeEnd(b)
                              else if Path(url) != "" then AuthorityEnd(b)
                              else if HasQuery(url) then PathEnd(b) else QueryEnd(b);
    assert b[..m][..n] == b[..n];
  }

  lemma SameScheme(b: string, url: string)
    requires var n := SchemeEnd(b); n > 0 && n <= |url| && url[..n] == b[..n]
    ensures SchemeEnd(url) == SchemeEnd(b)
  {
    var n := SchemeEnd(b);
    assert forall j | 0 <= j < n :: url[j] == b[j] by {
      assert forall j | 0 <= j < n :: url[..n][j] == b[..n][j];
    }
    assert Find(b, ':', 0) == n - 1;
    assert Find(url, ':', 0) == n - 1;
  }

  lemma SlashAgrees(b: string, url: string)
    requires SchemeEnd(b) > 0 && SchemeEnd(url) == 0 && url != "" && url[0] == '/'
    ensures PathStart(b).Some?
    ensures b[..PathStart(b).value] + url == Target(b, url) <==>
            PathStart(b).value == (if HasAuthority(url) then SchemeEnd(b) else AuthorityEnd(b)) && IsDotless(Path(url))
  {
    PathStartsAfter(b);
    ReferenceParts(url);
    var start, front, path, rest := PathStart(b).value, url[..AuthorityEnd(url)], Path(url), url[PathEnd(url)..];
    var m := if HasAuthority(url) then SchemeEnd(b) else AuthorityEnd(b);
    SlashTarget(b, url);
    hide RemoveDots, IsDotless, Path, PathEnd, PathStart, AuthorityEnd, SchemeEnd, HasAuthority, Target;
    PathStays(front, path, rest);
    RemovedIsNoLonger("", path);
    if start == m {
      SameTail(b[..m], url, front + (RemoveDots("", path) + rest));
    } else {
      assert |b[..start] + url| > |b[..m] + (front + (RemoveDots("", path) + rest))|;
    }
  }

  lemma SlashTarget(b: string, url: string)
    requires SchemeEnd(url) == 0 && url != "" && url[0] == '/'
    ensures var m := if HasAuthority(url) then SchemeEnd(b) else AuthorityEnd(b);
            Target(b, url) == b[..m] + (url[..AuthorityEnd(url)] + (RemoveDots("", Path(url)) + url[PathEnd(url)..]))
  {
    hide RemoveDots, Merge;
    if !HasAuthority(url) {
      assert AuthorityEnd(url) == 0 && url[..0] == "";
      assert PathEnd(url) > 0 && Path(url)[0] == '/';
      NothingAdded(RemoveDots("", Path(url)) + url[PathEnd(url)..]);
    }
  }

  /** The last slash of the base is the last byte before `n`, in the path as the code sees it. */
  predicate EndsInSlash(b: string, n: nat)
    requires PathStart(b).Some? && n <= |b|
  {
    PathStart(b).value < n && b[n - 1] == '/' && '/' !in b[n..]
  }

  lemma TailAgrees(b: string, url: string)
    requires SchemeEnd(b) > 0 && SchemeEnd(url) == 0 && url != "" && (url[0] == '?' || url[0] == '#')
    ensures PathStart(b).Some?
    ensures Relative(b, url) == Target(b, url) <==> EndsInSlash(b, if url[0] == '?' then PathEnd(b) else QueryEnd(b))
  {
    hide *;
    PathStartsAfter(b);
    var p, start, n := WithPath(b), PathStart(b).value, if url[0] == '?' then PathEnd(b) else QueryEnd(b);
    PathOf(b, start);
    var last := LastSlash(p, |p|);
    RelativeIs(b, url);
    TailTarget(b, url);
    NoDotsNoClimb(p, start, last, url);
    LastSlashIs(b, p, start, n);
    SameHead(p[..last + 1], b[..n], url);
  }

  lemma NoDotsNoClimb(p: string, start: nat, end: nat, url: string)
    requires start <= end < |p| && p[start] == '/' && p[end] == '/' && (url == "" || url[0] != '.')
    ensures Climb(p, start, end, url) == (end, url)
  {
  }

  lemma EmptyTarget(b: string)
    ensures Target(b, "") == b[..QueryEnd(b)]
    ensures b == b[..QueryEnd(b)] <==> QueryEnd(b) == |b|
  {
    NothingAdded(b[..QueryEnd(b)]);
    assert ""[PathEnd("")..] == "";
    assert |b[..QueryEnd(b)]| == QueryEnd(b);
  }

  lemma TailTarget(b: string, url: string)
    requires SchemeEnd(url) == 0 && url != "" && (url[0] == '?' || url[0] == '#')
    ensures Target(b, url) == b[..if url[0] == '?' then PathEnd(b) else QueryEnd(b)] + url
  {
    assert AuthorityEnd(url) == 0 && PathEnd(url) == 0 && url[0..] == url;
  }

  lemma LastSlashIs(b: string, p: string, start: nat, n: nat)
    requires PathStart(b) == Some(start) && p == WithPath(b) && n <= |b|
    requires '/' in p[..|p|] && start <= LastSlash(p, |p|) && (start == |b| ==> LastSlash(p, |p|) == |b|) && (start < |b| ==> p == b)
    ensures p[..LastSlash(p, |p|) + 1] == b[..n] <==> EndsInSlash(b, n)
  {
    var last := LastSlash(p, |p|);
    hide PathStart, WithPath, LastSlash;
    if start < |b| {
      if last + 1 == n {
        NotAfter(b, n);
      }
      assert |p[..last + 1]| == last + 1;
    } else {
      assert |p[..last + 1]| > |b[..n]|;
    }
  }

  lemma NotAfter(b: string, n: nat)
    requires n <= |b| && forall j | n <= j < |b| :: b[j] != '/'
    ensures '/' !in b[n..]
  {
  }

  // All of them.

  /** When the plugin gives what RFC 3986 asks for: on the base and the reference as a caller has them. */
  predicate Agrees(b: string, url: string)
    requires SchemeEnd(b) > 0 && PathStart(b).Some?
  {
    if IsAbsolute(url) then SchemeEnd(url) > 0 && IsDotless(Path(url))
    else if url == "" then QueryEnd(b) == |b|
    else if url[0] == '/' then
      PathStart(b).value == (if HasAuthority(url) then SchemeEnd(b) else AuthorityEnd(b)) && IsDotless(Path(url))
    else if url[0] == '?' || url[0] == '#' then EndsInSlash(b, if url[0] == '?' then PathEnd(b) else QueryEnd(b))
    else DotsLeadAndFit(url, Slashes(Directory(b))) && DirectoriesAgree(b, Ups(url))
  }

  /** For every reference, and every base with a scheme, as section 5.1 of RFC 3986 demands one. */
  lemma ResolvesAsAsked(b: string, url: string)
    requires SchemeEnd(b) > 0
    ensures PathStart(b).Some?
    ensures Resolve(Some(b), Some(url)) == Some(Target(b, url)) <==> Agrees(b, url)
  {
    PathStartsAfter(b);
    SchemeIsAbsolute(url);
    if IsAbsolute(url) {
      AbsoluteAgrees(b, url);
    } else if url == "" {
      EmptyTarget(b);
    } else if url[0] == '/' {
      SlashAgrees(b, url);
    } else if url[0] == '?' || url[0] == '#' {
      TailAgrees(b, url);
    } else {
      RelativePathAgrees(b, url);
    }
  }

  lemma RelativePathAgrees(b: string, url: string)
    requires SchemeEnd(b) > 0 && IsRelativePath(url)
    ensures PathStart(b).Some?
    ensures Relative(b, url) == Target(b, url)
            <==> DotsLeadAndFit(url, Slashes(Directory(b))) && DirectoriesAgree(b, Ups(url))
  {
    PathStartsAfter(b);
    if !Merges(b) {
      FlatBaseDisagrees(b, url);
    } else if IsDotSegment(Head(BaseDir(b))) {
      DottedBaseDisagrees(b, url);
    } else {
      MergingBaseAgrees(b, url);
    }
  }

  // Bases of the usual form, and others.

  /** A base with an authority, and without a slash in query and fragment, if it has these behind a path. */
  predicate IsOrdinary(b: string) {
    SchemeEnd(b) > 0 && HasAuthority(b) && '/' !in b[PathEnd(b)..] && (Path(b) == "" ==> PathEnd(b) == |b|)
  }

  /** The directory is free of dot segments, or nothing of it is left. */
  predicate CutsCleanly(directory: string, ups: nat) {
    IsClean(directory) || Pops(directory, ups) == ""
  }

  lemma OrdinaryParts(b: string)
    requires IsOrdinary(b)
    ensures PathStart(b) == Some(AuthorityEnd(b)) && Merges(b) && Directory(b) == BaseDir(b)
  {
    PathStartsAfter(b);
    AuthorityThenRooted(b);
    var n, end := AuthorityEnd(b), PathEnd(b);
    OrdinaryStart(b);
    PathOf(b, n);
    if Path(b) != "" {
      LastSlashInPath(b, n, end);
    }
  }

  lemma OrdinaryStart(b: string)
    requires IsOrdinary(b)
    ensures PathStart(b) == Some(AuthorityEnd(b))
  {
    PathStartsAfter(b);
    AuthorityThenRooted(b);
    var i, n := SchemeEnd(b) + 2, AuthorityEnd(b);
    if Path(b) == "" {
      assert n == |b|;
    } else {
      assert b[n] == '/';
    }
  }

  lemma LastSlashInPath(b: string, n: nat, end: nat)
    requires n < end <= |b| && b[n] == '/' && '/' !in b[end..]
    ensures var path := b[n..end];
            && '/' in path && '/' in path[..|path|] && '/' in b[..|b|]
            && LastSlash(b, |b|) == n + LastSlash(path, |path|) && b[n..LastSlash(b, |b|)] == Dir(path)
  {
    var path := b[n..end];
    assert path[0] == '/' && path[..|path|] == path && b[..|b|] == b;
    var i, j := LastSlash(b, |b|), LastSlash(path, |path|);
    assert b[n + j] == path[j];
    NoneWithin(b, end, |b|, '/');
    assert b[end..|b|] == b[end..];
    assert i < end;
    assert path[i - n] == b[i];
    assert b[n..i] == path[..j];
  }

  /** With such a base the plugin agrees on relative paths exactly when their dot segments all lead, the base has enough
      directories for them, and no dot segments itself, or all its directories are dropped. */
  lemma AgreesWithRfc(b: string, url: string)
    requires IsOrdinary(b) && IsRelativePath(url)
    ensures PathStart(b).Some?
    ensures Relative(b, url) == Target(b, url)
            <==> DotsLeadAndFit(url, Slashes(Directory(b))) && CutsCleanly(Directory(b), Ups(url))
  {
    OrdinaryParts(b);
    RelativePathAgrees(b, url);
    var d := Directory(b);
    hide IsOrdinary, Relative, Target, DotsLeadAndFit, Directory, BaseDir, AuthorityEnd, PathStart, SchemeEnd, Merges, Slashes;
    RootedNormal(d);
    NormalCuts(d, Ups(url));
    SameTail(b[..AuthorityEnd(b)], Pops(d, Ups(url)), Pops(Fold("", d), Ups(url)));
  }

  lemma RootedNormal(d: string)
    requires IsSegments(d)
    ensures Head(d) == "" && Normal(d) == Fold("", d)
  {
    assert d[0..] == d;
  }

  /** Taking segments off a directory and off what is left of it without dot segments gives the same exactly when there
      are no dot segments, or nothing is kept. */
  lemma NormalCuts(d: string, k: nat)
    requires IsSegments(d)
    ensures Pops(d, k) == Pops(Fold("", d), k) <==> CutsCleanly(d, k)
  {
    hide IsClean, Fold, Pops, Slashes;
    var kept, x := Pops(d, k), Pops(Fold("", d), k);
    EmptyIsClean();
    FoldKeepsClean("", d);
    PopsKeepClean(Fold("", d), k);
    if IsClean(d) {
      PopsKeepClean(d, k);
    }
    FoldCounts("", d);
    PopsCount(d, k);
    PopsCount(Fold("", d), k);
    EmptyCounts();
    if IsClean(kept) {
      var lost := PopsPart(d, k);
      if Slashes(d) >= k {
        OutputIsKept(kept, lost, x);
      } else {
        NoSegments(kept);
        NoSegments(x);
      }
    }
  }

  lemma EmptyCounts()
    ensures Slashes("") == 0
  {
  }

  lemma {:induction false} PopsPart(d: string, k: nat) returns (lost: string)
    requires IsSegments(d)
    ensures d == Pops(d, k) + lost && IsSegments(lost) && IsSegments(Pops(d, k))
    ensures Slashes(d) >= k ==> Slashes(lost) == k
    decreases k
  {
    hide Slashes;
    EmptyCounts();
    if k == 0 {
      lost := "";
      NothingAdded(d);
    } else {
      var last := d[|Pop(d)|..];
      PopCounts(d);
      PopIsFront(d);
      lost := PopsPart(Pop(d), k - 1);
      Regroup(Pops(Pop(d), k - 1), lost, last);
      SlashesJoin(lost, last);
      SlashesJoin(Pop(d), last);
      lost := lost + last;
    }
  }

  lemma PopIsFront(d: string)
    requires IsSegments(d)
    ensures |Pop(d)| <= |d| && d == Pop(d) + d[|Pop(d)|..] && IsSegments(Pop(d)) && IsSegments(d[|Pop(d)|..])
  {
    if '/' in d {
      assert d[..|d|] == d;
    }
  }

  /** Without an authority, a base whose path is one segment after a slash, such as `file:/a`, is kept whole by the code,
      so that no relative path comes out right. */
  lemma LoneSegmentDisagrees(b: string, url: string)
    requires SchemeEnd(b) > 0 && !HasAuthority(b) && IsRelativePath(url)
    requires SchemeEnd(b) < |b| && b[SchemeEnd(b)] == '/' && '/' !in b[SchemeEnd(b) + 1..]
    ensures PathStart(b).Some? && Relative(b, url) != Target(b, url)
  {
    LoneStart(b);
    LoneDir(b);
    hide PathStart, Directory, BaseDir, Normal, Head, Relative, Target, DotsLeadAndFit, Ups, Pops, Fold, Slashes, SchemeEnd;
    hide AuthorityEnd, Merges, IsRelativePath, IsDotSegment;
    RelativePathAgrees(b, url);
    RootedNormal("");
    NothingLeft(Ups(url));
  }

  lemma LoneStart(b: string)
    requires SchemeEnd(b) > 0 && !HasAuthority(b)
    requires SchemeEnd(b) < |b| && b[SchemeEnd(b)] == '/' && '/' !in b[SchemeEnd(b) + 1..]
    ensures PathStart(b) == Some(|b|) && Directory(b) == "" && AuthorityEnd(b) < |b|
  {
    var n := SchemeEnd(b);
    PathStartsAfter(b);
    assert b[n + 1..|b|] == b[n + 1..];
    NoneWithin(b, n + 1, |b|, '/');
    PathOf(b, |b|);
    hide LastSlash;
  }

  lemma LoneDir(b: string)
    requires !HasAuthority(b) && SchemeEnd(b) < |b| && b[SchemeEnd(b)] == '/' && '/' !in b[SchemeEnd(b) + 1..]
    ensures Merges(b) && BaseDir(b) == ""
  {
    var path, n := Path(b), SchemeEnd(b);
    assert path[0] == '/' && path[..|path|] == path;
    NoneWithin(b, n + 1, |b|, '/');
    assert b[n + 1..|b|] == b[n + 1..];
    var j := LastSlash(path, |path|);
    assert path[j] == b[n + j];
    assert j == 0;
  }

  lemma {:induction false} NothingLeft(k: nat)
    ensures Pops("", k) == "" && Fold("", "") == ""
    decreases k
  {
    if k > 0 {
      assert Pop("") == "";
      NothingLeft(k - 1);
    }
  }

  /** Where something of the base's query or fragment is kept, as of `http://h/a?q=/c`, no relative path comes out right
      either. */
  lemma TailKeptDisagrees(b: string, url: string)
    requires SchemeEnd(b) > 0 && IsRelativePath(url) && PathStart(b).Some?
    requires PathEnd(b) < PathStart(b).value + |Pops(Directory(b), Ups(url))| && PathEnd(b) < |b|
    ensures Relative(b, url) != Target(b, url)
  {
    PathStartsAfter(b);
    RelativePathAgrees(b, url);
    if Merges(b) {
      var i, n, k := PathEnd(b), AuthorityEnd(b), Ups(url);
      var c, x := b[i], Pops(Normal(BaseDir(b)), k);
      PathHasNoDelimiter(b, c);
      BaseDirAvoids(b, c);
      KeptIsBase(b, k, i);
      hide PathStart, Directory, BaseDir, Normal, Head, Relative, Target, Pops, Fold, PathEnd, AuthorityEnd, SchemeEnd;
      NormalAvoids(BaseDir(b), k, c);
      SecondPart(b[..n], x, i);
    }
  }

  lemma SecondPart(a: string, x: string, i: nat)
    requires |a| <= i
    ensures i < |a + x| ==> (a + x)[i] in x
  {
    assert i < |a + x| ==> (a + x)[i] == x[i - |a|];
  }

  lemma PathHasNoDelimiter(b: string, c: char)
    requires c == '?' || c == '#'
    ensures c !in Path(b)
  {
  }

  lemma BaseDirAvoids(b: string, c: char)
    requires Merges(b) && c !in Path(b)
    ensures c !in BaseDir(b)
  {
  }

  lemma {:induction false} FoldAvoids(out: string, d: string, c: char)
    requires c !in out && c !in d
    ensures c !in Fold(out, d)
    decreases |d|
  {
    if d != "" {
      var n := Find(d, '/', 1);
      if d[1..n] == "." {
        FoldAvoids(out, d[n..], c);
      } else if d[1..n] == ".." {
        FoldAvoids(Pop(out), d[n..], c);
      } else {
        FoldAvoids(out + d[..n], d[n..], c);
      }
    }
  }

  lemma {:induction false} PopsAvoid(out: string, k: nat, c: char)
    requires c !in out
    ensures c !in Pops(out, k)
    decreases k
  {
    if k > 0 {
      PopsAvoid(Pop(out), k - 1, c);
    }
  }

  lemma NormalAvoids(d: string, k: nat, c: char)
    requires c !in d
    ensures c !in Pops(Normal(d), k)
  {
    FoldAvoids(Head(d), d[|Head(d)|..], c);
    PopsAvoid(Normal(d), k, c);
  }

  lemma KeptIsBase(b: string, k: nat, i: nat)
    requires PathStart(b).Some? && i < |b| && i < PathStart(b).value + |Pops(Directory(b), k)|
    ensures (b[..PathStart(b).value] + Pops(Directory(b), k))[i] == b[i]
  {
    var p, start, d := WithPath(b), PathStart(b).value, Directory(b);
    PathOf(b, start);
    var last := LastSlash(p, |p|);
    assert d == p[start..last];
    hide PathStart, WithPath, LastSlash, Directory, Pops;
    var lost := PopsPart(d, k);
    FrontIndex(p, b, start, last, Pops(d, k), lost, i);
  }

  lemma FrontIndex(p: string, b: string, start: nat, last: nat, x: string, lost: string, i: nat)
    requires start <= last <= |p| && start <= |b| && p[..start] == b[..start] && p[start..last] == x + lost
    requires i < |b| && i < start + |x| && (p == b || i < start)
    ensures (b[..start] + x)[i] == b[i]
  {
    if start <= i {
      assert (b[..start] + x)[i] == x[i - start] == (x + lost)[i - start] == p[start..last][i - start];
    }
  }
}
