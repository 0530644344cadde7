/**
 The Sitemap generator's core: URLs are consumed one by one, duplicates are counted and dropped, full sets are
 sorted and spilled into files, and an index lists the files.
*/
module UrlOrder {

  /** A priority given by the input, or the ratio of a count to the greatest count. */
  datatype Priority = Unset | Given(text: string) | Ratio(dup: int, max: int)

  datatype Url = Url(loc: string, lastmod: string, changefreq: string, priority: Priority)

  /** What `MakeHash` digests; the digest is taken to be injective. */
  function Key(u: Url): string {
    if u.loc != "" && u.loc[|u.loc| - 1] == '/' then u.loc[..|u.loc| - 1] else u.loc
  }

  /** The two are the same but for one slash at the end. */
  predicate SameLocation(a: string, b: string) {
    a == b || SlashMore(a, b) || SlashMore(b, a)
  }

  /** `a` is `b` and a slash, and `b` ends in none itself. */
  predicate SlashMore(a: string, b: string) {
    a == b + "/" && (b == "" || b[|b| - 1] != '/')
  }

  /** What is taken for a duplicate. */
  lemma KeysTellLocations(u: Url, v: Url)
    ensures Key(u) == Key(v) <==> SameLocation(u.loc, v.loc)
  {
    CutSlash(u);
    CutSlash(v);
  }

  lemma CutSlash(u: Url)
    ensures u.loc == Key(u) || (u.loc == Key(u) + "/" && |u.loc| == |Key(u)| + 1)
    ensures u.loc == Key(u) <==> u.loc == "" || u.loc[|u.loc| - 1] != '/'
  {
  }

  /** The order of strings, character by character. */
  predicate AtMost(a: string, b: string) {
    a == "" || (b != "" && (a[0] < b[0] || (a[0] == b[0] && AtMost(a[1..], b[1..]))))
  }

  lemma {:induction false} AtMostTransitive(a: string, b: string, c: string)
    requires AtMost(a, b) && AtMost(b, c)
    ensures AtMost(a, c)
  {
    if a != "" && a[0] == b[0] == c[0] {
      AtMostTransitive(a[1..], b[1..], c[1..]);
    }
  }

  lemma {:induction false} AtMostTotal(a: string, b: string)
    ensures AtMost(a, b) || AtMost(b, a)
    ensures AtMost(a, b) && AtMost(b, a) ==> a == b
  {
    if a != "" && b != "" && a[0] == b[0] {
      AtMostTotal(a[1..], b[1..]);
      assert a == [a[0]] + a[1..] && b == [b[0]] + b[1..];
    }
  }

  /** It goes by the first place at which the two differ, the shorter one coming first if there is none. */
  lemma {:induction false} OrderIsLexicographic(a: string, b: string)
    ensures AtMost(a, b) <==>
      exists n: nat :: n <= |a| && n <= |b| && a[..n] == b[..n] && (n == |a| || (n < |b| && a[n] < b[n]))
  {
    if a == "" || b == "" || a[0] != b[0] {
      assert a[..0] == b[..0];
    } else {
      var a', b' := a[1..], b[1..];
      OrderIsLexicographic(a', b');
      forall n: nat | n <= |a'| && n <= |b'|
        ensures a'[..n] == b'[..n] <==> a[..n + 1] == b[..n + 1]
      {
        assert a[..n + 1] == [a[0]] + a'[..n] && b[..n + 1] == [b[0]] + b'[..n];
        assert a[..n + 1][1..] == a'[..n] && b[..n + 1][1..] == b'[..n];
      }
      if n: nat :| n <= |a'| && n <= |b'| && a'[..n] == b'[..n] && (n == |a'| || (n < |b'| && a'[n] < b'[n])) {
        assert n + 1 <= |a| && a[..n + 1] == b[..n + 1] && (n + 1 == |a| || (n + 1 < |b| && a[n + 1] < b[n + 1]));
      }
      if n: nat :| n <= |a| && n <= |b| && a[..n] == b[..n] && (n == |a| || (n < |b| && a[n] < b[n])) {
        assert n > 0;
        assert a'[..n - 1] == b'[..n - 1];
      }
    }
  }

  ghost predicate Sorted(us: seq<Url>) {
    forall i, j :: 0 <= i < j < |us| ==> AtMost(us[i].loc, us[j].loc)
  }

  function Insert(u: Url, us: seq<Url>): seq<Url> {
    if us == [] || AtMost(u.loc, us[0].loc) then [u] + us else [us[0]] + Insert(u, us[1..])
  }

  /** `list.sort`, with the comparison of URLs by location. */
  function Sort(us: seq<Url>): seq<Url> {
    if us == [] then [] else Insert(us[0], Sort(us[1..]))
  }

  lemma {:induction false} InsertSorts(u: Url, us: seq<Url>)
    requires Sorted(us)
    ensures Sorted(Insert(u, us)) && multiset(Insert(u, us)) == multiset(us) + multiset{u}
  {
    if us == [] {
    } else if AtMost(u.loc, us[0].loc) {
      forall j | 0 <= j < |us|
        ensures AtMost(u.loc, us[j].loc)
      {
        if j > 0 {
          AtMostTransitive(u.loc, us[0].loc, us[j].loc);
        }
      }
    } else {
      var rest := Insert(u, us[1..]);
      InsertSorts(u, us[1..]);
      AtMostTotal(u.loc, us[0].loc);
      assert us == [us[0]] + us[1..];
      forall j | 0 <= j < |rest|
        ensures AtMost(us[0].loc, rest[j].loc)
      {
        assert rest[j] in multiset(rest);
        if rest[j] != u {
          assert rest[j] in us[1..];
        }
      }
    }
  }

  /** Sorting sorts and keeps every URL. */
  lemma {:induction false} SortSorts(us: seq<Url>)
    ensures Sorted(Sort(us)) && multiset(Sort(us)) == multiset(us)
  {
    if us != [] {
      SortSorts(us[1..]);
      InsertSorts(us[0], Sort(us[1..]));
      assert us == [us[0]] + us[1..];
    }
  }

  // Histories: the URLs that passed the filters, in the order in which they came.

  function Count(h: seq<Url>, key: string): nat {
    if h == [] then 0 else Count(h[..|h| - 1], key) + if Key(h[|h| - 1]) == key then 1 else 0
  }

  function KeysOf(us: seq<Url>): set<string> {
    if us == [] then {} else {Key(us[0])} + KeysOf(us[1..])
  }

  /** The first URL of each key, in order. */
  function FirstSeen(h: seq<Url>): seq<Url> {
    if h == [] then []
    else
      var before := h[..|h| - 1];
      if Key(h[|h| - 1]) in KeysOf(before) then FirstSeen(before) else FirstSeen(before) + [h[|h| - 1]]
  }

  ghost predicate DistinctKeys(us: seq<Url>) {
    us == [] || (Key(us[0]) !in KeysOf(us[1..]) && DistinctKeys(us[1..]))
  }

  lemma {:induction false} KeysJoin(us: seq<Url>, vs: seq<Url>)
    ensures KeysOf(us + vs) == KeysOf(us) + KeysOf(vs)
    ensures DistinctKeys(us + vs) <==> DistinctKeys(us) && DistinctKeys(vs) && KeysOf(us) !! KeysOf(vs)
  {
    if us == [] {
      assert us + vs == vs;
    } else {
      assert (us + vs)[1..] == us[1..] + vs;
      KeysJoin(us[1..], vs);
    }
  }

  lemma {:induction false} KeyOfMember(us: seq<Url>, i: nat)
    requires i < |us|
    ensures Key(us[i]) in KeysOf(us)
  {
    if i > 0 {
      KeyOfMember(us[1..], i - 1);
    }
  }

  /** In a sequence with distinct keys, the keys of two places differ. */
  lemma DistinctPlaces(us: seq<Url>, i: nat, j: nat)
    requires DistinctKeys(us) && i < j < |us|
    ensures Key(us[i]) != Key(us[j])
  {
    assert us == us[..j] + us[j..];
    KeysJoin(us[..j], us[j..]);
    KeyOfMember(us[..j], i);
    KeyOfMember(us[j..], 0);
  }

  /** Nothing accepted is lost and no key is accepted twice. */
  lemma {:induction false} FirstSeenOncePerKey(h: seq<Url>)
    ensures DistinctKeys(FirstSeen(h)) && KeysOf(FirstSeen(h)) == KeysOf(h)
  {
    if h != [] {
      var before, u := h[..|h| - 1], h[|h| - 1];
      FirstSeenOncePerKey(before);
      assert h == before + [u];
      KeysJoin(before, [u]);
      KeysJoin(FirstSeen(before), [u]);
    }
  }

  /** How many URLs of `h` have the location, but for a slash at the end. */
  function Sightings(h: seq<Url>, loc: string): nat {
    if h == [] then 0 else Sightings(h[..|h| - 1], loc) + if SameLocation(h[|h| - 1].loc, loc) then 1 else 0
  }

  lemma {:induction false} CountsAreSightings(h: seq<Url>, u: Url)
    ensures Count(h, Key(u)) == Sightings(h, u.loc)
  {
    if h != [] {
      CountsAreSightings(h[..|h| - 1], u);
      KeysTellLocations(h[|h| - 1], u);
    }
  }

  lemma {:induction false} PlaceOfKey(us: seq<Url>, key: string) returns (i: nat)
    requires key in KeysOf(us)
    ensures i < |us| && Key(us[i]) == key
  {
    if Key(us[0]) == key {
      i := 0;
    } else {
      i := PlaceOfKey(us[1..], key);
      i := i + 1;
    }
  }

  lemma {:induction false} FirstSeenAreSeen(h: seq<Url>)
    ensures forall u | u in FirstSeen(h) :: u in h
  {
    if h != [] {
      FirstSeenAreSeen(h[..|h| - 1]);
      assert h == h[..|h| - 1] + [h[|h| - 1]];
    }
  }

  lemma {:induction false} CountPositive(h: seq<Url>, key: string)
    ensures Count(h, key) > 0 <==> key in KeysOf(h)
  {
    if h != [] {
      CountPositive(h[..|h| - 1], key);
      KeysJoin(h[..|h| - 1], [h[|h| - 1]]);
      assert h == h[..|h| - 1] + [h[|h| - 1]];
    }
  }
}

module SitemapWriter {
  import opened Basics
  import opened UrlOrder

  // What a run amounts to, as functions of the history.

  /** The first-seen URLs since the last full set. */
  function Pending(h: seq<Url>, limit: nat): seq<Url>
    requires limit >= 1
  {
    var first := FirstSeen(h);
    FlushedIsPart(|first|, limit);
    first[|first| / limit * limit..]
  }

  lemma FlushedIsPart(n: nat, limit: nat)
    requires limit >= 1
    ensures 0 <= n / limit * limit <= n < n / limit * limit + limit
  {
  }

  /** The greatest number of sightings that any key had reached while it was pending, and at least 2. */
  function MaxCount(h: seq<Url>, limit: nat): (max: nat)
    requires limit >= 1
    ensures max >= 2
  {
    if h == [] then 2
    else
      var before, key := h[..|h| - 1], Key(h[|h| - 1]);
      var max := MaxCount(before, limit);
      if key in KeysOf(Pending(before, limit)) then Max(max, Count(h, key)) else max
  }

  /** How many URLs had been seen when set `i` was flushed: as many as it took to fill it, or all. */
  function FlushedAt(h: seq<Url>, limit: nat, i: nat): (n: nat)
    ensures n <= |h|
  {
    if h != [] && |FirstSeen(h[..|h| - 1])| >= (i + 1) * limit then FlushedAt(h[..|h| - 1], limit, i) else |h|
  }

  /** Flush number `i` of the run: the URLs in their places among the first-seen ones. */
  function FlushOf(h: seq<Url>, limit: nat, i: nat): Flush
    requires limit >= 1 && i * limit <= |FirstSeen(h)|
  {
    var first := FirstSeen(h);
    var seen := h[..FlushedAt(h, limit, i)];
    Flush(first[i * limit..Min((i + 1) * limit, |first|)], seen, MaxCount(seen, limit))
  }

  /** A flush: the set, the URLs seen until then, and the greatest count until then. */
  datatype Flush = Flush(chunk: seq<Url>, seen: seq<Url>, max: int)

  /** `not url.priority` */
  predicate Absent(p: Priority) {
    p.Unset? || p == Given("")
  }

  /** A URL as it is written: a missing priority becomes the ratio of its count to the greatest one. */
  function Priced(seen: seq<Url>, max: int, u: Url): Url {
    if Absent(u.priority) then u.(priority := Ratio(Count(seen, Key(u)), max)) else u
  }

  function Written(f: Flush): seq<Url> {
    var us := Sort(f.chunk);
    seq(|us|, i requires 0 <= i < |us| => Priced(f.seen, f.max, us[i]))
  }

  function AllChunks(log: seq<Flush>): seq<Url> {
    if log == [] then [] else AllChunks(log[..|log| - 1]) + log[|log| - 1].chunk
  }

  ghost predicate IsFlushOf(f: Flush, h: seq<Url>, limit: nat, i: nat) {
    limit >= 1 && i * limit <= |FirstSeen(h)| && f == FlushOf(h, limit, i)
  }

  lemma FirstSeenGrows(h: seq<Url>, u: Url)
    ensures FirstSeen(h + [u]) == if Key(u) in KeysOf(h) then FirstSeen(h) else FirstSeen(h) + [u]
  {
    assert (h + [u])[..|h|] == h;
  }

  /** What a full set is and when it was flushed does not depend on what comes later. */
  lemma FlushStays(f: Flush, h: seq<Url>, u: Url, limit: nat, i: nat)
    requires IsFlushOf(f, h, limit, i) && (i + 1) * limit <= |FirstSeen(h)|
    ensures IsFlushOf(f, h + [u], limit, i)
  {
    FirstSeenGrows(h, u);
    FlushedAtStays(h, u, limit, i);
    OneMoreSet(i, limit);
    hide FirstSeen, KeysOf, Key, FlushedAt, MaxCount;
    var from, to := i * limit, (i + 1) * limit;
    SamePart(h, [u], 0, FlushedAt(h, limit, i));
    SamePart(FirstSeen(h), [u], from, to);
    assert FirstSeen(h + [u])[from..to] == FirstSeen(h)[from..to];
  }

  lemma OneMoreSet(i: nat, limit: nat)
    ensures 0 <= i * limit <= (i + 1) * limit
  {
  }

  lemma FlushedAtStays(h: seq<Url>, u: Url, limit: nat, i: nat)
    requires (i + 1) * limit <= |FirstSeen(h)|
    ensures FlushedAt(h + [u], limit, i) == FlushedAt(h, limit, i)
  {
    assert (h + [u])[..|h|] == h;
  }

  lemma SamePart<T>(s: seq<T>, t: seq<T>, i: nat, j: nat)
    requires i <= j <= |s|
    ensures (s + t)[i..j] == s[i..j] && (i == 0 ==> s[i..j] == s[..j] && (s + t)[i..j] == (s + t)[..j])
  {
  }

  /** A set is flushed with the URL that fills it. */
  lemma JustFull(h: seq<Url>, limit: nat, i: nat)
    requires h != [] && |FirstSeen(h[..|h| - 1])| < (i + 1) * limit
    ensures FlushedAt(h, limit, i) == |h|
  {
  }

  /** As long as a set is not full, everything was seen before it is flushed. */
  lemma FlushedLate(h: seq<Url>, limit: nat, i: nat)
    requires |FirstSeen(h)| < (i + 1) * limit
    ensures FlushedAt(h, limit, i) == |h|
  {
  }

  lemma MaxCountGrows(h: seq<Url>, u: Url, limit: nat)
    requires limit >= 1
    ensures MaxCount(h + [u], limit) ==
            if Key(u) in KeysOf(Pending(h, limit)) then Max(MaxCount(h, limit), Count(h + [u], Key(u)))
            else MaxCount(h, limit)
  {
    assert (h + [u])[..|h|] == h;
  }

  lemma PartOfSets(n: nat, limit: nat, k: nat)
    requires k < n
    ensures (k + 1) * limit <= n * limit
  {
    assert n * limit == (k + 1) * limit + (n - k - 1) * limit;
  }

  lemma WholeSets(n: nat, limit: nat, rest: nat)
    requires rest < limit
    ensures (n * limit + rest) / limit == n
  {
    var m := (n * limit + rest) / limit;
    var part := (n * limit + rest) % limit;
    assert m * limit + part == n * limit + rest;
    if m < n {
      PartOfSets(n, limit, m);
    } else if m > n {
      PartOfSets(m, limit, n);
    }
  }

  lemma PendingOf(h: seq<Url>, limit: nat, n: nat, flushed: seq<Url>, rest: seq<Url>)
    requires limit >= 1 && FirstSeen(h) == flushed + rest && |flushed| == n * limit && |rest| < limit
    ensures Pending(h, limit) == rest
  {
    hide FirstSeen;
    WholeSets(n, limit, |rest|);
    EndOf(FirstSeen(h), flushed, rest);
  }

  lemma EndOf<T>(s: seq<T>, t: seq<T>, u: seq<T>)
    requires s == t + u
    ensures s[|t|..] == s[|t|..|s|] == u
  {
  }

  /** Every URL of the set had been seen, and no more often than the greatest count. */
  ghost predicate Sound(f: Flush, history: seq<Url>) {
    && f.max >= 2 && f.seen <= history
    && forall u | u in f.chunk :: 1 <= Count(f.seen, Key(u)) <= f.max
  }

  lemma {:induction false} InsertKeys(u: Url, us: seq<Url>)
    ensures KeysOf(Insert(u, us)) == KeysOf(us) + {Key(u)}
    ensures DistinctKeys(us) && Key(u) !in KeysOf(us) ==> DistinctKeys(Insert(u, us))
  {
    if us != [] && !AtMost(u.loc, us[0].loc) {
      InsertKeys(u, us[1..]);
    }
  }

  lemma {:induction false} SortKeys(us: seq<Url>)
    ensures KeysOf(Sort(us)) == KeysOf(us) && (DistinctKeys(us) ==> DistinctKeys(Sort(us)))
  {
    if us != [] {
      SortKeys(us[1..]);
      InsertKeys(us[0], Sort(us[1..]));
    }
  }

  lemma ChunksGrow(log: seq<Flush>, f: Flush)
    ensures AllChunks(log + [f]) + [] == AllChunks(log) + f.chunk
  {
    assert (log + [f])[..|log|] == log;
  }

  /** The key in place `i` is the one by which the keys up to there grow. */
  lemma {:induction false} Retire(us: seq<Url>, i: nat)
    requires DistinctKeys(us) && i < |us|
    ensures KeysOf(us[..i + 1]) == KeysOf(us[..i]) + {Key(us[i])} && Key(us[i]) !in KeysOf(us[..i])
    ensures Key(us[i]) in KeysOf(us)
  {
    KeyOfMember(us, i);
    var front := us[..i + 1];
    assert front[..i] == us[..i] && front == us[..i] + [us[i]];
    KeysJoin(us[..i], [us[i]]);
    assert us == front + us[i + 1..];
    KeysJoin(front, us[i + 1..]);
  }

  lemma SortedCounted(us: seq<Url>, counts: map<string, int>, h: seq<Url>)
    requires forall u | u in us :: Key(u) in counts && counts[Key(u)] == Count(h, Key(u)) > 0
    ensures forall i | 0 <= i < |Sort(us)| ::
      Key(Sort(us)[i]) in counts && counts[Key(Sort(us)[i])] == Count(h, Key(Sort(us)[i])) > 0
    ensures KeysOf(Sort(us)[..0]) == {}
  {
    SortSorts(us);
    forall i | 0 <= i < |Sort(us)|
      ensures Sort(us)[i] in us
    {
      assert Sort(us)[i] in multiset(Sort(us));
    }
  }

  class Sitemap {
    const limit: nat                        // MAXURLS_PER_SITEMAP
    const admit: (Url, bool) -> Option<Url> // validation, filters and the patterns of the output files
    var urls: map<string, int>              // counts of pending keys, -1 for flushed ones
    var pending: seq<Url>
    var dupMax: int
    var sitemaps: nat
    var files: seq<seq<Url>>                // what was written
    var index: Option<seq<nat>>             // the files the index lists, once it is written

    ghost var history: seq<Url>             // everything admitted
    ghost var log: seq<Flush>               // how each file came about

    /** The counts agree with the history, and the files and the pending set share out what was first seen. */
    ghost predicate Settled()
      reads this
    {
      && limit >= 1 && dupMax >= 2 && sitemaps == |files| == |log|
      && FirstSeen(history) == AllChunks(log) + pending
      && urls.Keys == KeysOf(history)
      && (forall k | k in urls :: urls[k] == if k in KeysOf(pending) then Count(history, k) else -1)
      && (forall k | k in urls :: urls[k] <= dupMax)
      && dupMax == MaxCount(history, limit)
      && (forall i | 0 <= i < |log| :: files[i] == Written(log[i]) && Sound(log[i], history))
      && (forall i | 0 <= i < |log| :: IsFlushOf(log[i], history, limit, i))
    }

    /** Between calls, moreover, every file is full and the pending set is not. */
    ghost predicate Valid()
      reads this
    {
      Settled() && |pending| < limit && forall f | f in log :: |f.chunk| == limit
    }

    constructor (limit: nat, admit: (Url, bool) -> Option<Url>)
      requires limit >= 1
      ensures Valid() && this.limit == limit && this.admit == admit
      ensures history == [] && files == [] && index == None
    {
      this.limit, this.admit := limit, admit;
      urls, pending, dupMax, sitemaps, files, index := map[], [], 2, 0, [], None;
      history, log := [], [];
    }

    /** Sorts the pending set, gives the URLs their priorities, and retires their counts. */
    method Normalize()
      requires DistinctKeys(pending)
      requires forall u | u in pending :: Key(u) in urls && urls[Key(u)] == Count(history, Key(u)) > 0
      modifies this`urls, this`pending
      ensures pending == Written(Flush(old(pending), history, dupMax))
      ensures urls.Keys == old(urls).Keys
      ensures forall k | k in urls :: urls[k] == if k in KeysOf(old(pending)) then -1 else old(urls)[k]
    {
      hide Sort, KeysOf, Count, DistinctKeys, Key, Sorted;
      ghost var sorted := Sort(pending);
      ghost var counts := urls;
      SortKeys(pending);
      SortedCounted(pending, counts, history);
      pending := Sort(pending);
      var i := 0;
      while i < |pending|
        invariant 0 <= i <= |pending| == |sorted|
        invariant forall j | 0 <= j < i :: pending[j] == Priced(history, dupMax, sorted[j])
        invariant forall j | i <= j < |pending| :: pending[j] == sorted[j]
        invariant urls.Keys == counts.Keys
        invariant forall k | k in urls :: urls[k] == if k in KeysOf(sorted[..i]) then -1 else counts[k]
      {
        var u := pending[i];
        Retire(sorted, i);
        var dup := urls[Key(u)];
        if dup > 0 {
          urls := urls[Key(u) := -1];
          if Absent(u.priority) {
            pending := pending[i := u.(priority := Ratio(dup, dupMax))];
          }
        }
        i := i + 1;
      }
      assert sorted[..|sorted|] == sorted;
    }

    /** Writes the pending set, sorted and priced, to the next file. */
    method FlushSet()
      requires Settled() && |pending| <= limit && FlushedAt(history, limit, |log|) == |history|
      requires forall f | f in log :: |f.chunk| == limit
      modifies this`urls, this`pending, this`sitemaps, this`files, this`log
      ensures Settled() && pending == []
      ensures log == old(log) + [Flush(old(pending), history, dupMax)]
      ensures files == old(files) + [Written(Flush(old(pending), history, dupMax))]
    {
      hide AllChunks, Count, FirstSeen, KeysOf, Written, DistinctKeys, Key;
      PendingKeys();
      FlushNow();
      hide IsFlushOf, MaxCount, FlushedAt;
      ghost var flush := Flush(pending, history, dupMax);
      ChunksGrow(log, flush);
      Normalize();
      files := files + [pending];
      sitemaps := sitemaps + 1;
      pending := [];
      log := log + [flush];
    }

    /** The keys of the pending set are distinct, known, and counted. */
    lemma PendingKeys()
      requires Settled()
      ensures DistinctKeys(pending) && KeysOf(pending) <= urls.Keys && KeysOf([]) == {}
      ensures forall u | u in pending :: Key(u) in KeysOf(pending) && Count(history, Key(u)) > 0
    {
      FirstSeenOncePerKey(history);
      KeysJoin(AllChunks(log), pending);
      forall u | u in pending
        ensures Key(u) in KeysOf(pending) && Count(history, Key(u)) > 0
      {
        var i :| 0 <= i < |pending| && pending[i] == u;
        KeyOfMember(pending, i);
        CountPositive(history, Key(u));
      }
    }

    /** The pending set is what the history says it is. */
    lemma PendingIs()
      requires Valid()
      ensures pending == Pending(history, limit) && |FirstSeen(history)| == |log| * limit + |pending|
    {
      FullChunks(log, limit);
      hide FirstSeen, AllChunks, KeysOf, Count, Written, Sound, IsFlushOf, MaxCount, Pending;
      PendingOf(history, limit, |log|, AllChunks(log), pending);
    }

    /** The set that is flushed now, at the latest when it is full, is the next one. */
    lemma FlushNow()
      requires Settled() && |pending| <= limit && FlushedAt(history, limit, |log|) == |history|
      requires forall f | f in log :: |f.chunk| == limit
      ensures IsFlushOf(Flush(pending, history, dupMax), history, limit, |log|)
    {
      FullChunks(log, limit);
      hide MaxCount, FlushedAt, FirstSeen, AllChunks, Count, KeysOf, Written, Sound;
      assert history[..|history|] == history;
      EndOf(FirstSeen(history), AllChunks(log), pending);
    }

    /** The sets flushed so far stay what they are. */
    lemma LogStays(u: Url)
      requires Valid()
      ensures forall i | 0 <= i < |log| :: IsFlushOf(log[i], history + [u], limit, i)
    {
      PendingIs();
      hide FirstSeen, AllChunks, Count, KeysOf, Written, Sound, FlushOf;
      forall i | 0 <= i < |log|
        ensures IsFlushOf(log[i], history + [u], limit, i)
      {
        PartOfSets(|log|, limit, i);
        FlushStays(log[i], history, u, limit, i);
      }
    }

    /** One more URL, from whatever input. */
    method ConsumeURL(url: Url, allowFragment: bool)
      requires Valid()
      modifies this`urls, this`pending, this`dupMax, this`sitemaps, this`files, this`history, this`log
      ensures Valid()
      ensures history == old(history) + Admitted(admit, [(url, allowFragment)])
      ensures old(files) <= files
    {
      hide Valid;
      AdmittedOne(admit, url, allowFragment);
      var admitted := admit(url, allowFragment);
      if admitted.None? {
        return;
      }
      var u := admitted.value;
      if Key(u) in urls {
        NoteSighting(u);
      } else {
        Accept(u);
      }
    }

    /** A key that is known: counted while it is pending, ignored once it is flushed. */
    method NoteSighting(u: Url)
      requires Valid() && Key(u) in urls
      modifies this`urls, this`dupMax, this`history
      ensures Valid() && history == old(history) + [u]
    {
      hide FirstSeen, KeysOf, Count, AllChunks, Written, Key, Sound, MaxCount, Pending, IsFlushOf;
      Sighted(u);
      PendingIs();
      LogStays(u);
      MaxCountGrows(history, u, limit);
      CountPositive(history, Key(u));
      var dup := urls[Key(u)];
      if dup > 0 {
        dup := dup + 1;
        urls := urls[Key(u) := dup];
        if dupMax < dup {
          dupMax := dup;
        }
      }
      history := history + [u];
    }

    /** A new key: added to the pending set, which is flushed when it is full. */
    method Accept(u: Url)
      requires Valid() && Key(u) !in urls
      modifies this`urls, this`pending, this`sitemaps, this`files, this`history, this`log
      ensures Valid() && history == old(history) + [u] && old(files) <= files
    {
      hide FirstSeen, KeysOf, Count, AllChunks, Written, Key, Sound, MaxCount, Pending, IsFlushOf, FlushedAt;
      Accepted(u);
      PendingIs();
      LogStays(u);
      MaxCountGrows(history, u, limit);
      urls := urls[Key(u) := 1];
      pending := pending + [u];
      history := history + [u];
      if |pending| >= limit {
        assert history[..|history| - 1] == old(history);
        JustFull(history, limit, |log|);
        FlushSet();
      }
    }

    lemma Sighted(u: Url)
      requires Settled() && Key(u) in urls
      ensures FirstSeen(history + [u]) == FirstSeen(history) && KeysOf(history + [u]) == KeysOf(history)
      ensures forall k :: Count(history + [u], k) == Count(history, k) + if k == Key(u) then 1 else 0
      ensures forall i | 0 <= i < |log| :: Sound(log[i], history + [u])
    {
      assert (history + [u])[..|history|] == history;
      KeysJoin(history, [u]);
    }

    lemma Accepted(u: Url)
      requires Settled() && Key(u) !in urls
      ensures FirstSeen(history + [u]) == FirstSeen(history) + [u]
      ensures KeysOf(history + [u]) == KeysOf(history) + {Key(u)} && KeysOf(pending + [u]) == KeysOf(pending) + {Key(u)}
      ensures forall k :: Count(history + [u], k) == Count(history, k) + if k == Key(u) then 1 else 0
      ensures Count(history, Key(u)) == 0 && AllChunks(log) + (pending + [u]) == FirstSeen(history) + [u]
      ensures forall i | 0 <= i < |log| :: Sound(log[i], history + [u])
    {
      assert (history + [u])[..|history|] == history;
      KeysJoin(history, [u]);
      KeysJoin(pending, [u]);
      CountPositive(history, Key(u));
    }

    /** Lists all the files. */
    method WriteIndex()
      modifies this`index
      ensures index == Some(seq(sitemaps, i => i))
    {
      var entries: seq<nat> := [];
      for mapnumber := 0 to sitemaps
        invariant entries == seq(mapnumber, i => i)
      {
        entries := entries + [mapnumber];
      }
      index := Some(entries);
    }

    /** `Generate`, with what the inputs hand on: the last set, even an empty one if it is the only one, and then
        the index are written. */
    method Generate(inputs: seq<(Url, bool)>)
      requires Valid() && history == [] && files == [] && index == None
      modifies this
      ensures Settled() && pending == [] && history == Admitted(admit, inputs)
      ensures SharedOut(log, limit, |FirstSeen(history)|)
      ensures index == if |files| > 1 then Some(seq(|files|, i => i)) else None
    {
      hide FirstSeen, KeysOf, Count, AllChunks, Written, Key, Sound, Admitted;
      NothingYet(admit);
      assert inputs[..0] == [];
      var n := 0;
      while n < |inputs|
        invariant 0 <= n <= |inputs| && Valid() && index == None
        invariant history == Admitted(admit, inputs[..n])
      {
        AdmittedGrows(admit, inputs, n);
        ConsumeURL(inputs[n].0, inputs[n].1);
        n := n + 1;
      }
      assert inputs[..n] == inputs;
      PendingIs();
      FlushedLate(history, limit, |log|);
      if |pending| > 0 {
        FlushSet();
      }
      if sitemaps == 0 {
        FlushSet();
      }
      if sitemaps > 1 {
        WriteIndex();
      }
    }
  }

  /** What of the inputs passes validation and filters. */
  function Admitted(admit: (Url, bool) -> Option<Url>, inputs: seq<(Url, bool)>): seq<Url> {
    if inputs == [] then []
    else
      var (url, allowFragment) := inputs[|inputs| - 1];
      var u := admit(url, allowFragment);
      Admitted(admit, inputs[..|inputs| - 1]) + if u.Some? then [u.value] else []
  }

  lemma NothingYet(admit: (Url, bool) -> Option<Url>)
    ensures Admitted(admit, []) == [] && AllChunks([]) == []
  {
  }

  lemma AdmittedOne(admit: (Url, bool) -> Option<Url>, url: Url, allowFragment: bool)
    ensures var u := admit(url, allowFragment);
            Admitted(admit, [(url, allowFragment)]) == if u.Some? then [u.value] else []
  {
    assert [(url, allowFragment)][..0] == [];
  }

  lemma AdmittedGrows(admit: (Url, bool) -> Option<Url>, inputs: seq<(Url, bool)>, n: nat)
    requires n < |inputs|
    ensures Admitted(admit, inputs[..n + 1]) == Admitted(admit, inputs[..n]) + Admitted(admit, [inputs[n]])
  {
    assert inputs[..n + 1][..n] == inputs[..n];
    assert [inputs[n]][..0] == [];
  }

  /** Every file but the last is full, the last is not empty unless there was nothing, and there is at least one. */
  ghost predicate SharedOut(log: seq<Flush>, limit: nat, total: nat) {
    && |log| >= 1
    && (forall i | 0 <= i < |log| - 1 :: |log[i].chunk| == limit)
    && |log[|log| - 1].chunk| <= limit
    && (log[|log| - 1].chunk == [] ==> |log| == 1 && total == 0)
  }

  // What the run amounts to.

  /** The number of files is the number of URLs over the limit, rounded up, and at least one. */
  ghost predicate IsFileCount(n: nat, limit: nat, total: nat) {
    if total == 0 then n == 1 else (n - 1) * limit < total <= n * limit
  }

  lemma FileCount(log: seq<Flush>, limit: nat, total: nat)
    requires limit >= 1 && SharedOut(log, limit, total) && |AllChunks(log)| == total
    ensures IsFileCount(|log|, limit, total)
  {
    var n := |log| - 1;
    FullChunks(log[..n], limit);
    assert total == n * limit + |log[n].chunk|;
    assert |log| * limit == n * limit + limit;
  }

  lemma {:induction false} FullChunks(log: seq<Flush>, limit: nat)
    requires forall f | f in log :: |f.chunk| == limit
    ensures |AllChunks(log)| == |log| * limit
  {
    if log != [] {
      var front := log[..|log| - 1];
      FullChunks(front, limit);
      assert log == front + [log[|log| - 1]];
      assert |log| * limit == |front| * limit + limit;
    }
  }

  lemma SortedSet(us: seq<Url>)
    ensures |Sort(us)| == |us| && forall u :: u in Sort(us) <==> u in us
  {
    SortSorts(us);
    assert |Sort(us)| == |multiset(Sort(us))| == |multiset(us)|;
    assert forall u :: u in Sort(us) <==> u in multiset(Sort(us));
  }

  /** A file holds the URLs of its set, each once and priced, in the order of their locations. */
  lemma WrittenIsSortedSet(f: Flush)
    ensures |Written(f)| == |f.chunk| && Sorted(Written(f))
    ensures forall u | u in f.chunk :: Priced(f.seen, f.max, u) in Written(f)
    ensures forall w | w in Written(f) :: exists u :: u in f.chunk && w == Priced(f.seen, f.max, u)
    ensures DistinctKeys(f.chunk) ==> forall i, j | 0 <= i < j < |Written(f)| :: Key(Written(f)[i]) != Key(Written(f)[j])
  {
    hide Sort, Key, DistinctKeys, KeysOf, Count, AtMost;
    var us := Sort(f.chunk);
    SortSorts(f.chunk);
    SortKeys(f.chunk);
    SortedSet(f.chunk);
    forall u | u in f.chunk
      ensures Priced(f.seen, f.max, u) in Written(f)
    {
      var i :| 0 <= i < |us| && us[i] == u;
      assert Written(f)[i] == Priced(f.seen, f.max, u);
    }
    if DistinctKeys(f.chunk) {
      forall i, j | 0 <= i < j < |us|
        ensures Key(Written(f)[i]) != Key(Written(f)[j])
      {
        DistinctPlaces(us, i, j);
        PricedKey(f.seen, f.max, us[i]);
        PricedKey(f.seen, f.max, us[j]);
      }
    }
  }

  lemma PricedKey(seen: seq<Url>, max: int, u: Url)
    ensures Key(Priced(seen, max, u)) == Key(u)
  {
  }

  /** What a generated priority amounts to. */
  function Value(p: Priority): real
    requires p.Ratio? && p.max > 0
  {
    p.dup as real / p.max as real
  }

  /** The URL came without a priority. */
  ghost predicate CameUnpriced(chunk: seq<Url>, loc: string) {
    exists u :: u in chunk && SameLocation(u.loc, loc) && (u.priority.Unset? || u.priority == Given(""))
  }

  /** The URLs of the file that came without a priority have the ratio of their sightings to the greatest number of
      sightings, which lies in (0, 1]; so that priorities rank them by sightings. The others are there as they came. */
  ghost predicate RankedBySightings(file: seq<Url>, f: Flush) {
    && f.max > 0
    && (forall j | 0 <= j < |file| && CameUnpriced(f.chunk, file[j].loc) ::
          var p := file[j].priority;
          p.Ratio? && p.max > 0 && Value(p) == Sightings(f.seen, file[j].loc) as real / f.max as real && 0.0 < Value(p) <= 1.0)
    && (forall j, k | 0 <= j < |file| && 0 <= k < |file|
                      && CameUnpriced(f.chunk, file[j].loc) && CameUnpriced(f.chunk, file[k].loc) ::
          Value(file[j].priority) < Value(file[k].priority) <==>
          Sightings(f.seen, file[j].loc) < Sightings(f.seen, file[k].loc))
    && (forall u | u in f.chunk && !u.priority.Unset? && u.priority != Given("") :: u in file)
  }

  lemma PrioritiesRankByCount(f: Flush, history: seq<Url>)
    requires Sound(f, history) && DistinctKeys(f.chunk)
    ensures RankedBySightings(Written(f), f)
  {
    hide Sort, DistinctKeys, KeysOf, Count, Sorted, Sightings;
    var file := Written(f);
    forall j | 0 <= j < |file| && CameUnpriced(f.chunk, file[j].loc)
      ensures file[j].priority == Ratio(Sightings(f.seen, file[j].loc), f.max)
      ensures 1 <= Sightings(f.seen, file[j].loc) <= f.max
    {
      UnpricedIsPriced(f, j);
      CountsAreSightings(f.seen, file[j]);
    }
    WrittenIsSortedSet(f);
    forall u | u in f.chunk && !u.priority.Unset? && u.priority != Given("")
      ensures u in file
    {
      assert Priced(f.seen, f.max, u) == u;
    }
    hide Written, Key, CameUnpriced;
    forall j, k | 0 <= j < |file| && 0 <= k < |file|
                  && CameUnpriced(f.chunk, file[j].loc) && CameUnpriced(f.chunk, file[k].loc)
      ensures Value(file[j].priority) < Value(file[k].priority) <==>
              Sightings(f.seen, file[j].loc) < Sightings(f.seen, file[k].loc)
      ensures 0.0 < Value(file[j].priority) <= 1.0
    {
      RatioOrder(Sightings(f.seen, file[j].loc), Sightings(f.seen, file[k].loc), f.max);
    }
  }

  lemma UnpricedIsPriced(f: Flush, j: nat)
    requires DistinctKeys(f.chunk) && j < |Written(f)| && CameUnpriced(f.chunk, Written(f)[j].loc)
    ensures Written(f)[j].priority == Ratio(Count(f.seen, Key(Written(f)[j])), f.max)
    ensures exists u :: u in f.chunk && Key(u) == Key(Written(f)[j])
  {
    hide Sort, DistinctKeys, KeysOf, Count, Key, SameLocation;
    var w, us := Written(f)[j], Sort(f.chunk);
    PricedKey(f.seen, f.max, us[j]);
    SortedSet(f.chunk);
    SortKeys(f.chunk);
    var u :| u in f.chunk && SameLocation(u.loc, w.loc) && (u.priority.Unset? || u.priority == Given(""));
    KeysTellLocations(u, w);
    var i :| 0 <= i < |us| && us[i] == u;
    if i < j {
      DistinctPlaces(us, i, j);
    } else if j < i {
      DistinctPlaces(us, j, i);
    }
  }

  lemma RatioOrder(a: int, b: int, max: int)
    requires 0 < a <= max && 0 < b <= max
    ensures a as real / max as real < b as real / max as real <==> a < b
    ensures 0.0 < a as real / max as real <= 1.0
  {
    var x, y, m := a as real, b as real, max as real;
    assert x / m * m == x && y / m * m == y;
  }

  /** Every URL that came is in one of the files, and in one place only, where slashes at the end do not count; and
      what is in a file came, with the same location, date and frequency. */
  ghost predicate OncePerLocation(files: seq<seq<Url>>, h: seq<Url>) {
    && (forall i, j, m, n | 0 <= i < |files| && 0 <= j < |files| && 0 <= m < |files[i]| && 0 <= n < |files[j]|
                            && SameLocation(files[i][m].loc, files[j][n].loc) :: i == j && m == n)
    && (forall u | u in h :: Listed(files, u.loc))
    && (forall i, m | 0 <= i < |files| && 0 <= m < |files[i]| :: Came(h, files[i][m]))
  }

  ghost predicate Listed(files: seq<seq<Url>>, loc: string) {
    exists i, m :: 0 <= i < |files| && 0 <= m < |files[i]| && SameLocation(files[i][m].loc, loc)
  }

  ghost predicate Came(h: seq<Url>, w: Url) {
    exists u :: u in h && u.loc == w.loc && u.lastmod == w.lastmod && u.changefreq == w.changefreq
  }

  lemma ListedOnce(log: seq<Flush>, files: seq<seq<Url>>, h: seq<Url>)
    requires |files| == |log| && forall i | 0 <= i < |log| :: files[i] == Written(log[i])
    requires AllChunks(log) == FirstSeen(h)
    ensures OncePerLocation(files, h)
  {
    hide *;
    FirstSeenOncePerKey(h);
    forall i, j, m, n | 0 <= i < |files| && 0 <= j < |files| && 0 <= m < |files[i]| && 0 <= n < |files[j]|
                        && SameLocation(files[i][m].loc, files[j][n].loc)
      ensures i == j && m == n
    {
      KeysTellLocations(files[i][m], files[j][n]);
      OnePlace(log, i, m, j, n);
    }
    forall u | u in h
      ensures Listed(files, u.loc)
    {
      HasPlace(log, files, h, u);
    }
    forall i, m | 0 <= i < |files| && 0 <= m < |files[i]|
      ensures Came(h, files[i][m])
    {
      CameFrom(log, h, i, m);
    }
    OnceMeans(files, h);
  }

  lemma OnceMeans(files: seq<seq<Url>>, h: seq<Url>)
    requires forall i, j, m, n | 0 <= i < |files| && 0 <= j < |files| && 0 <= m < |files[i]| && 0 <= n < |files[j]|
                                 && SameLocation(files[i][m].loc, files[j][n].loc) :: i == j && m == n
    requires forall u | u in h :: Listed(files, u.loc)
    requires forall i, m | 0 <= i < |files| && 0 <= m < |files[i]| :: Came(h, files[i][m])
    ensures OncePerLocation(files, h)
  {
  }

  lemma WrittenAt(f: Flush, m: nat)
    requires m < |Written(f)|
    ensures |Written(f)| == |Sort(f.chunk)| && Sort(f.chunk)[m] in f.chunk
    ensures var u, w := Sort(f.chunk)[m], Written(f)[m];
      u.loc == w.loc && u.lastmod == w.lastmod && u.changefreq == w.changefreq && Key(u) == Key(w)
    ensures Key(Written(f)[m]) in KeysOf(f.chunk)
  {
    hide Sort, KeysOf, Key;
    SortedSet(f.chunk);
    SortKeys(f.chunk);
    KeyOfMember(Sort(f.chunk), m);
    PricedKey(f.seen, f.max, Sort(f.chunk)[m]);
  }

  lemma OnePlace(log: seq<Flush>, i: nat, m: nat, j: nat, n: nat)
    requires DistinctKeys(AllChunks(log)) && i < |log| && j < |log| && m < |Written(log[i])| && n < |Written(log[j])|
    requires Key(Written(log[i])[m]) == Key(Written(log[j])[n])
    ensures i == j && m == n
  {
    hide *;
    WrittenAt(log[i], m);
    WrittenAt(log[j], n);
    if i < j {
      ChunksApart(log, i, j);
    } else if j < i {
      ChunksApart(log, j, i);
    } else {
      SetsAreDistinct(log, i);
      WrittenIsSortedSet(log[i]);
    }
  }

  lemma {:induction false} ChunksApart(log: seq<Flush>, i: nat, j: nat)
    requires DistinctKeys(AllChunks(log)) && i < j < |log|
    ensures KeysOf(log[i].chunk) !! KeysOf(log[j].chunk)
  {
    var front := log[..|log| - 1];
    KeysJoin(AllChunks(front), log[|log| - 1].chunk);
    if j < |log| - 1 {
      ChunksApart(front, i, j);
    } else {
      ChunkInAll(front, i);
    }
  }

  lemma {:induction false} ChunkInAll(log: seq<Flush>, i: nat)
    requires i < |log|
    ensures KeysOf(log[i].chunk) <= KeysOf(AllChunks(log)) && forall u | u in log[i].chunk :: u in AllChunks(log)
  {
    var front := log[..|log| - 1];
    KeysJoin(AllChunks(front), log[|log| - 1].chunk);
    if i < |log| - 1 {
      ChunkInAll(front, i);
    }
  }

  lemma {:induction false} ChunkWith(log: seq<Flush>, key: string) returns (i: nat)
    requires key in KeysOf(AllChunks(log))
    ensures i < |log| && key in KeysOf(log[i].chunk)
  {
    assert log != [];
    var front := log[..|log| - 1];
    KeysJoin(AllChunks(front), log[|log| - 1].chunk);
    if key in KeysOf(AllChunks(front)) {
      i := ChunkWith(front, key);
    } else {
      i := |log| - 1;
    }
  }

  lemma {:induction false} MemberKey(h: seq<Url>, u: Url)
    requires u in h
    ensures Key(u) in KeysOf(h)
  {
    var i :| 0 <= i < |h| && h[i] == u;
    KeyOfMember(h, i);
  }

  lemma HasPlace(log: seq<Flush>, files: seq<seq<Url>>, h: seq<Url>, u: Url)
    requires |files| == |log| && forall i | 0 <= i < |log| :: files[i] == Written(log[i])
    requires KeysOf(AllChunks(log)) == KeysOf(h) && u in h
    ensures Listed(files, u.loc)
  {
    hide Written, Sort, KeysOf, Key, AllChunks, SameLocation;
    MemberKey(h, u);
    var i := ChunkWith(log, Key(u));
    SortKeys(log[i].chunk);
    WrittenIsSortedSet(log[i]);
    SortedSet(log[i].chunk);
    var m := PlaceOfKey(Sort(log[i].chunk), Key(u));
    WrittenAt(log[i], m);
    KeysTellLocations(files[i][m], u);
  }

  lemma CameFrom(log: seq<Flush>, h: seq<Url>, i: nat, m: nat)
    requires AllChunks(log) == FirstSeen(h) && i < |log| && m < |Written(log[i])|
    ensures Came(h, Written(log[i])[m])
  {
    hide Written, Sort, KeysOf, Key, AllChunks, FirstSeen;
    WrittenAt(log[i], m);
    ChunkInAll(log, i);
    FirstSeenAreSeen(h);
  }

  /** The whole run, for any inputs, as a function of what was admitted: each file is the next full set of first-seen
      URLs, sorted, and priced by what had been seen when it was flushed; their number and the index follow. */
  method Run(limit: nat, admit: (Url, bool) -> Option<Url>, inputs: seq<(Url, bool)>)
    returns (files: seq<seq<Url>>, index: Option<seq<nat>>, ghost log: seq<Flush>)
    requires limit >= 1
    ensures var h := Admitted(admit, inputs);
            && AllChunks(log) == FirstSeen(h) && DistinctKeys(FirstSeen(h)) && KeysOf(FirstSeen(h)) == KeysOf(h)
            && |files| == |log| && IsFileCount(|files|, limit, |FirstSeen(h)|) && SharedOut(log, limit, |FirstSeen(h)|)
    ensures forall i | 0 <= i < |files| ::
              IsFlushOf(log[i], Admitted(admit, inputs), limit, i) && files[i] == Written(log[i])
    ensures OncePerLocation(files, Admitted(admit, inputs))
    ensures forall i | 0 <= i < |files| :: RankedBySightings(files[i], log[i])
    ensures index == if |files| > 1 then Some(seq(|files|, i => i)) else None
  {
    hide FirstSeen, KeysOf, DistinctKeys, AllChunks, Admitted, Written, Sound, SharedOut, IsFileCount, IsFlushOf;
    hide RankedBySightings, MaxCount, OncePerLocation;
    var s := new Sitemap(limit, admit);
    s.Generate(inputs);
    FirstSeenOncePerKey(s.history);
    NothingAfter(AllChunks(s.log));
    FileCount(s.log, limit, |FirstSeen(s.history)|);
    ListedOnce(s.log, s.files, s.history);
    forall i | 0 <= i < |s.log|
      ensures RankedBySightings(Written(s.log[i]), s.log[i])
    {
      SetsAreDistinct(s.log, i);
      PrioritiesRankByCount(s.log[i], s.history);
    }
    return s.files, s.index, s.log;
  }

  lemma NothingAfter<T>(s: seq<T>)
    ensures s + [] == s
  {
  }

  lemma {:induction false} SetsAreDistinct(log: seq<Flush>, i: nat)
    requires DistinctKeys(AllChunks(log)) && i < |log|
    ensures DistinctKeys(log[i].chunk)
  {
    var front := log[..|log| - 1];
    KeysJoin(AllChunks(front), log[|log| - 1].chunk);
    if i < |log| - 1 {
      SetsAreDistinct(front, i);
    }
  }
}
