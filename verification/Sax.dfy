/**
 Reading a Sitemap or a Sitemap index: the handler of SAX events with its stack of contexts, proved to compute
 the meaning of the document tree.
*/
module SitemapDocument {
  import opened Basics

  datatype Tag =
    | UrlSet | SitemapIndex | Url | Sitemap
    | Loc | LastMod | ChangeFreq | Priority
    | Other(name: string)

  /** What stands inside an element; the parser may cut text into any number of runs. */
  datatype Body = Empty | Run(text: string, rest: Body) | Sub(tag: Tag, body: Body, rest: Body)

  datatype Event = Start(tag: Tag) | Stop | Chars(text: string)

  datatype Events = Nil | Cons(head: Event, tail: Events)

  /** The events of `b`, followed by `k`. */
  function EventsOf(b: Body, k: Events): Events {
    match b
    case Empty => k
    case Run(text, rest) => Cons(Chars(text), EventsOf(rest, k))
    case Sub(tag, body, rest) => Cons(Start(tag), EventsOf(body, Cons(Stop, EventsOf(rest, k))))
  }

  // Text.

  predicate IsSpace(c: char) {
    || c == ' ' || '\t' <= c <= '\r' || '\U{1c}' <= c <= '\U{1f}' || c == '\U{85}' || c == '\U{a0}'
    || c == '\U{1680}' || c == '\U{180e}' || '\U{2000}' <= c <= '\U{200a}' || c == '\U{2028}' || c == '\U{2029}'
    || c == '\U{202f}' || c == '\U{205f}' || c == '\U{3000}'
  }

  predicate Blank(s: string) {
    forall i :: 0 <= i < |s| ==> IsSpace(s[i])
  }

  /** `strip` */
  function Strip(s: string): (r: string)
    ensures r == "" <==> Blank(s)
    ensures r != "" ==> !IsSpace(r[0]) && !IsSpace(r[|r| - 1])
    decreases |s|
  {
    if s == "" then ""
    else if IsSpace(s[0]) then Strip(s[1..])
    else if IsSpace(s[|s| - 1]) then Strip(s[..|s| - 1])
    else s
  }

  /** A character is dropped exactly if its code is one of these. */
  lemma SpacesGo(c: char)
    ensures Strip([c]) == "" <==> c as int in {9, 10, 11, 12, 13, 28, 29, 30, 31, 32, 133, 160, 5760, 6158,
              8192, 8193, 8194, 8195, 8196, 8197, 8198, 8199, 8200, 8201, 8202, 8232, 8233, 8239, 8287, 12288}
    ensures Strip([c]) == "" || Strip([c]) == [c]
  {
    assert Blank([c]) <==> IsSpace([c][0]);
  }

  lemma BlankJoins(s: string, t: string)
    ensures Blank(s + t) <==> Blank(s) && Blank(t)
  {
    assert forall i :: 0 <= i < |t| ==> t[i] == (s + t)[|s| + i];
    assert forall i :: 0 <= i < |s| ==> s[i] == (s + t)[i];
  }

  /** Exactly the white space at the two ends is dropped. */
  lemma {:induction false} StripTrims(s: string) returns (before: string, after: string)
    ensures s == before + Strip(s) + after && Blank(before) && Blank(after)
    decreases |s|
  {
    hide IsSpace, Strip, Blank;
    before, after := "", "";
    StripStep(s);
    if s != "" && IsSpace(s[0]) {
      before, after := StripTrims(s[1..]);
      BlankJoins([s[0]], before);
      assert s == [s[0]] + s[1..];
      before := [s[0]] + before;
    } else if s != "" && IsSpace(s[|s| - 1]) {
      before, after := StripTrims(s[..|s| - 1]);
      BlankJoins(after, [s[|s| - 1]]);
      assert s == s[..|s| - 1] + [s[|s| - 1]];
      after := after + [s[|s| - 1]];
    }
  }

  lemma StripStep(s: string)
    ensures Blank("") && forall c :: IsSpace(c) ==> Blank([c])
    ensures Strip(s) == if s == "" then "" else if IsSpace(s[0]) then Strip(s[1..])
                        else if IsSpace(s[|s| - 1]) then Strip(s[..|s| - 1]) else s
  {
  }

  /** All the text directly inside an element. */
  function TextOf(b: Body): string {
    match b
    case Empty => ""
    case Run(text, rest) => text + TextOf(rest)
    case Sub(_, _, rest) => TextOf(rest)
  }

  // The schema and the meaning.

  datatype Entry = Entry(loc: Option<string>, lastmod: Option<string>, changefreq: Option<string>, priority: Option<string>)

  const NOTHING := Entry(None, None, None, None)

  /** The attributes of an entry of a Sitemap, or of a Sitemap index. */
  predicate IsAttribute(tag: Tag, index: bool) {
    tag.Loc? || tag.LastMod? || (!index && (tag.ChangeFreq? || tag.Priority?))
  }

  predicate IsEntryTag(tag: Tag, index: bool) {
    if index then tag.Sitemap? else tag.Url?
  }

  predicate IsPlain(b: Body) {
    match b
    case Empty => true
    case Run(_, rest) => IsPlain(rest)
    case Sub(_, _, _) => false
  }

  /** Only attributes, which hold only text, and nothing but white space between them. */
  predicate IsEntry(b: Body, index: bool) {
    match b
    case Empty => true
    case Run(text, rest) => Blank(text) && IsEntry(rest, index)
    case Sub(tag, body, rest) => IsAttribute(tag, index) && IsPlain(body) && IsEntry(rest, index)
  }

  /** Only entries, and nothing but white space between them. */
  predicate IsListOf(b: Body, index: bool) {
    match b
    case Empty => true
    case Run(text, rest) => Blank(text) && IsListOf(rest, index)
    case Sub(tag, body, rest) => IsEntryTag(tag, index) && IsEntry(body, index) && IsListOf(rest, index)
  }

  /** The text of the last element called `tag` whose text is not blank, without the space around it. */
  function LastText(b: Body, tag: Tag): Option<string> {
    match b
    case Empty => None
    case Run(_, rest) => LastText(rest, tag)
    case Sub(t, body, rest) =>
      var later := LastText(rest, tag);
      if later.Some? then later
      else if t == tag && Strip(TextOf(body)) != "" then Some(Strip(TextOf(body)))
      else None
  }

  /** The record an entry stands for, where `canon` is `URL.Canonicalize`. */
  function EntryOf(canon: string -> string, b: Body): Entry {
    var loc := LastText(b, Loc);
    Entry(if loc.Some? then Some(canon(loc.value)) else None,
          LastText(b, LastMod), LastText(b, ChangeFreq), LastText(b, Priority))
  }

  /** The records of a Sitemap, in document order. */
  function UrlsOf(canon: string -> string, b: Body): seq<Entry> {
    match b
    case Empty => []
    case Run(_, rest) => UrlsOf(canon, rest)
    case Sub(_, body, rest) => [EntryOf(canon, body)] + UrlsOf(canon, rest)
  }

  /** The locations of an index, in document order. */
  function LocsOf(b: Body): seq<string> {
    match b
    case Empty => []
    case Run(_, rest) => LocsOf(rest)
    case Sub(_, body, rest) =>
      (if LastText(body, Loc).Some? then [LastText(body, Loc).value] else []) + LocsOf(rest)
  }
}

module SaxContexts {
  import opened Basics
  import opened SitemapDocument

  /** A context handler: the last sub-tag it accepted, and the fields of its kind. */
  datatype Context = Context(last: Option<Tag>, held: Held)

  datatype Held =
    | InUrlSet
    | InUrl(url: Option<Entry>)
    | InSitemapIndex(loclist: seq<string>)
    | InSitemap(loc: Option<string>)
    | InValue(text: Option<string>)

  /** `Crashed`: an assertion or an unimplemented method, which nothing catches. */
  datatype Outcome = Fine | SchemaError | Crashed

  /** What `Close` returns to the context below: nothing, a text, or a list. */
  datatype Result = Void | Text(text: string) | Locations(list: seq<string>)

  /** `TrySetAttribute`, where `canon` is `URL.Canonicalize`. */
  function SetAttribute(canon: string -> string, u: Entry, tag: Tag, value: string): Entry {
    match tag
    case Loc => u.(loc := Some(canon(value)))
    case LastMod => u.(lastmod := Some(value))
    case ChangeFreq => u.(changefreq := Some(value))
    case Priority => u.(priority := Some(value))
    case _ => u
  }

  predicate Truthy(r: Result) {
    match r
    case Void => false
    case Text(text) => text != ""
    case Locations(list) => list != []
  }

  predicate Allowed(c: Context, tag: Tag) {
    match c.held
    case InUrlSet => tag.Url?
    case InUrl(_) => tag.Loc? || tag.LastMod? || tag.ChangeFreq? || tag.Priority?
    case InSitemapIndex(_) => tag.Sitemap?
    case InSitemap(_) => tag.Loc? || tag.LastMod?
    case InValue(_) => false
  }

  /** The contexts of a stack: the document's, an entry's, and an attribute's. */
  datatype Frames = Frames(document: Context, entry: Context, value: Context) {
    function At(i: int): Context
      requires 0 <= i < 3
    {
      if i == 0 then document else if i == 1 then entry else value
    }

    function Set(i: int, c: Context): Frames
      requires 0 <= i < 3
    {
      if i == 0 then this.(document := c) else if i == 1 then this.(entry := c) else this.(value := c)
    }
  }

  /** Which stack is in use; the first document element may decide. */
  datatype Choice = Undecided | ForIndex | ForSitemap

  datatype State = State(
    choice: Choice, current: int, idx: Frames, stm: Frames, consumed: seq<Entry>, listed: seq<string>)
  {
    function Frames(): Frames {
      if choice.ForIndex? then idx else stm
    }

    function Put(c: Context): State
      requires 0 <= current < 3
    {
      if choice.ForIndex? then this.(idx := idx.Set(current, c)) else this.(stm := stm.Set(current, c))
    }

    ghost predicate Valid() {
      -1 <= current < 3 && (choice.Undecided? ==> current == -1)
    }
  }

  // The contexts' methods.

  /** `Open`, which asserts that what the last use left behind is gone. */
  function Open(c: Context): (Outcome, Context) {
    match c.held
    case InUrlSet => (Fine, c)
    case InUrl(url) => if url.Some? then (Crashed, c) else (Fine, c.(held := InUrl(Some(NOTHING))))
    case InSitemapIndex(loclist) => (if loclist == [] then Fine else Crashed, c)
    case InSitemap(loc) => (if loc.Some? && loc.value != "" then Crashed else Fine, c)
    case InValue(_) => (Fine, c.(held := InValue(None)))
  }

  /** `Close`: whether its assertion holds, the context afterwards, and what it returns. */
  function Close(c: Context): (Outcome, Context, Result) {
    match c.held
    case InUrlSet => (Fine, c, Void)
    case InUrl(url) => (if url.Some? then Fine else Crashed, c.(held := InUrl(None)), Void)
    case InSitemapIndex(loclist) =>
      (Fine, c.(held := InSitemapIndex([])), if loclist == [] then Void else Locations(loclist))
    case InSitemap(loc) =>
      if loc.Some? && loc.value != "" then (Fine, c.(held := InSitemap(None)), Text(loc.value)) else (Fine, c, Void)
    case InValue(text) =>
      (Fine, c.(held := InValue(None)), if text.Some? then Text(Strip(text.value)) else Void)
  }

  /** `Return`, with what the context above returned. */
  function Return(canon: string -> string, c: Context, r: Result): (Outcome, Context) {
    var given := r.Text? && Truthy(r);
    match c.held
    case InUrl(None) => (Crashed, c)
    case InUrl(Some(url)) =>
      (Fine, if given && c.last.Some? then c.(held := InUrl(Some(SetAttribute(canon, url, c.last.value, r.text)))) else c)
    case InSitemapIndex(loclist) => (Fine, if given then c.(held := InSitemapIndex(loclist + [r.text])) else c)
    case InSitemap(_) =>
      (Fine, if given && c.last.Some? && c.last.value.Loc? then c.(held := InSitemap(Some(r.text))) else c)
    case _ => (if Truthy(r) then Crashed else Fine, c)
  }

  // The handler's methods, as steps from state to state.

  function Entered(s: State): (Outcome, State)
    requires s.Valid()
  {
    if s.current == 2 then (Crashed, s.(current := 3))
    else
      var s := s.(current := s.current + 1);
      var (o, c) := Open(s.Frames().At(s.current));
      (o, s.Put(c))
  }

  /** `startElement` */
  function Started(s: State, tag: Tag): (Outcome, State)
    requires s.Valid()
  {
    if s.current < 0 then
      var s := if !s.choice.Undecided? then s
               else if tag.UrlSet? then s.(choice := ForSitemap)
               else if tag.SitemapIndex? then s.(choice := ForIndex)
               else s;
      if s.choice.Undecided? || (s.choice.ForSitemap? && tag.SitemapIndex?) then (SchemaError, s) else Entered(s)
    else
      var c := s.Frames().At(s.current);
      if Allowed(c, tag) then Entered(s.Put(c.(last := Some(tag)))) else (SchemaError, s.Put(c.(last := None)))
  }

  /** `endElement` */
  function Ended(canon: string -> string, s: State): (Outcome, State)
    requires s.Valid()
  {
    if s.current < 0 then (Crashed, s)
    else
      var c := s.Frames().At(s.current);
      var (o, c', r) := Close(c);
      if !o.Fine? then (o, s)
      else
        var s := s.Put(c').(consumed := if c.held.InUrl? then s.consumed + [c.held.url.value] else s.consumed);
        var s := s.(current := s.current - 1);
        if s.current >= 0 then
          var (o, d) := Return(canon, s.Frames().At(s.current), r);
          (o, s.Put(d))
        else if r.Locations? && s.choice.ForIndex? then (Fine, s.(listed := s.listed + r.list))
        else (Fine, s)
  }

  /** `characters` */
  function Read(s: State, text: string): (Outcome, State)
    requires s.Valid()
  {
    if s.current >= 0 && s.Frames().At(s.current).held.InValue? then
      var c := s.Frames().At(s.current);
      var all := if c.held.text.Some? && c.held.text.value != "" then c.held.text.value + text else text;
      (Fine, s.Put(c.(held := InValue(Some(all)))))
    else (if Strip(text) == "" then Fine else SchemaError, s)
  }

  function Handled(canon: string -> string, s: State, e: Event): (r: (Outcome, State))
    requires s.Valid()
    ensures r.0.Fine? ==> r.1.Valid()
  {
    match e
    case Start(tag) => Started(s, tag)
    case Stop => Ended(canon, s)
    case Chars(text) => Read(s, text)
  }

  /** The events of a file, up to the first exception. */
  function Parsed(canon: string -> string, s: State, events: Events): (Outcome, State)
    requires s.Valid()
    decreases events
  {
    match events
    case Nil => (Fine, s)
    case Cons(e, k) =>
      var (o, s) := Handled(canon, s, e);
      if o.Fine? then Parsed(canon, s, k) else (o, s)
  }

  // Refinement: on the events of a document the handler computes its meaning.

  /** No entry is half read in either stack. */
  ghost predicate Clean(s: State) {
    && s.current == -1
    && s.stm.document.held.InUrlSet? && s.stm.entry.held == InUrl(None) && s.stm.value.held == InValue(None)
    && s.idx.document.held == InSitemapIndex([]) && s.idx.entry.held == InSitemap(None) && s.idx.value.held == InValue(None)
  }

  /** The handler is inside the document, at the given depth, with a sound stack. */
  ghost predicate Inside(s: State, depth: int) {
    && s.current == depth && !s.choice.Undecided?
    && s.Frames().value.held.InValue? && (depth < 2 ==> s.Frames().value.held.text.None?)
    && if s.choice.ForIndex? then s.idx.document.held.InSitemapIndex? && s.idx.entry.held.InSitemap?
       else s.stm.document.held.InUrlSet? && s.stm.entry.held.InUrl?
  }

  function Append(text: Option<string>, b: Body): Option<string>
    decreases b
  {
    match b
    case Run(more, rest) => Append(Some(if text.Some? && text.value != "" then text.value + more else more), rest)
    case _ => text
  }

  lemma {:induction false} AppendIsText(text: Option<string>, b: Body)
    requires IsPlain(b)
    ensures var all := Append(text, b);
            (if all.Some? then all.value else "") == (if text.Some? then text.value else "") + TextOf(b)
    decreases b
  {
    match b
    case Empty =>
    case Run(more, rest) =>
      var now := if text.Some? && text.value != "" then text.value + more else more;
      AppendIsText(Some(now), rest);
      assert now == (if text.Some? then text.value else "") + more;
      assert (now + TextOf(rest)) == (if text.Some? then text.value else "") + (more + TextOf(rest));
  }

  lemma {:induction false} ValueRuns(canon: string -> string, s: State, b: Body, k: Events)
    requires Inside(s, 2)
    ensures IsPlain(b) ==>
      Parsed(canon, s, EventsOf(b, k)) ==
      Parsed(canon, s.Put(s.Frames().value.(held := InValue(Append(s.Frames().value.held.text, b)))), k)
    ensures !IsPlain(b) ==> Parsed(canon, s, EventsOf(b, k)).0.SchemaError?
    decreases b
  {
    match b
    case Empty =>
    case Run(text, rest) => ValueRuns(canon, Read(s, text).1, rest, k);
    case Sub(_, _, _) =>
  }

  /** The last sub-tag in `b`. */
  function LastTag(b: Body, last: Option<Tag>): Option<Tag>
    decreases b
  {
    match b
    case Empty => last
    case Run(_, rest) => LastTag(rest, last)
    case Sub(tag, _, rest) => LastTag(rest, Some(tag))
  }

  /** `u` with the attributes that `b` gives. */
  function Given(canon: string -> string, u: Entry, b: Body): Entry {
    var e := EntryOf(canon, b);
    Entry(if e.loc.Some? then e.loc else u.loc, if e.lastmod.Some? then e.lastmod else u.lastmod,
          if e.changefreq.Some? then e.changefreq else u.changefreq, if e.priority.Some? then e.priority else u.priority)
  }

  /** What an entry's context holds once the contents `b` of the entry are read. */
  function HeldAfter(canon: string -> string, held: Held, b: Body): Held {
    match held
    case InUrl(Some(u)) => InUrl(Some(Given(canon, u, b)))
    case InSitemap(loc) => InSitemap(if LastText(b, Loc).Some? then LastText(b, Loc) else loc)
    case _ => held
  }

  /** What one attribute does to it. */
  function HeldWith(canon: string -> string, held: Held, tag: Tag, value: string): Held {
    if value == "" then held
    else match held
         case InUrl(Some(u)) => InUrl(Some(SetAttribute(canon, u, tag, value)))
         case InSitemap(_) => if tag.Loc? then InSitemap(Some(value)) else held
         case _ => held
  }

  lemma HeldStep(canon: string -> string, held: Held, tag: Tag, body: Body, rest: Body)
    ensures HeldAfter(canon, held, Sub(tag, body, rest)) ==
            HeldAfter(canon, HeldWith(canon, held, tag, Strip(TextOf(body))), rest)
  {
    hide Strip, TextOf;
  }

  ghost predicate InsideEntry(s: State) {
    Inside(s, 1) && (s.choice.ForSitemap? ==> s.stm.entry.held.url.Some?)
  }

  lemma {:induction false} AttributeRuns(canon: string -> string, s: State, tag: Tag, body: Body, k: Events)
    requires InsideEntry(s)
    ensures var events := Cons(Start(tag), EventsOf(body, Cons(Stop, k)));
            if IsAttribute(tag, s.choice.ForIndex?) && IsPlain(body) then
              Parsed(canon, s, events) ==
              Parsed(canon, s.Put(Context(Some(tag), HeldWith(canon, s.Frames().entry.held, tag, Strip(TextOf(body))))), k)
            else Parsed(canon, s, events).0.SchemaError?
  {
    hide TextOf, Append, Strip, EventsOf;
    if IsAttribute(tag, s.choice.ForIndex?) {
      var s1 := Started(s, tag).1;
      assert Inside(s1, 2) && s1.Frames().value.held == InValue(None);
      ValueRuns(canon, s1, body, Cons(Stop, k));
      if IsPlain(body) {
        var s2 := s1.Put(s1.Frames().value.(held := InValue(Append(None, body))));
        AppendIsText(None, body);
        assert "" + TextOf(body) == TextOf(body);
        var after := Context(Some(tag), HeldWith(canon, s.Frames().entry.held, tag, Strip(TextOf(body))));
        assert Ended(canon, s2).1.Frames() == s.Frames().(entry := after);
        assert Ended(canon, s2) == (Fine, s.Put(after));
      }
    }
  }

  lemma {:induction false} EntryRuns(canon: string -> string, s: State, b: Body, k: Events)
    requires InsideEntry(s)
    ensures if IsEntry(b, s.choice.ForIndex?) then
              Parsed(canon, s, EventsOf(b, k)) ==
              Parsed(canon, s.Put(Context(LastTag(b, s.Frames().entry.last), HeldAfter(canon, s.Frames().entry.held, b))), k)
            else Parsed(canon, s, EventsOf(b, k)).0.SchemaError?
    decreases b
  {
    match b
    case Empty =>
    case Run(text, rest) => EntryRuns(canon, s, rest, k);
    case Sub(tag, body, rest) =>
      AttributeRuns(canon, s, tag, body, EventsOf(rest, k));
      var s1 := s.Put(Context(Some(tag), HeldWith(canon, s.Frames().entry.held, tag, Strip(TextOf(body)))));
      EntryRuns(canon, s1, rest, k);
      HeldStep(canon, s.Frames().entry.held, tag, body, rest);
  }

  /** The handler stands between the entries of the document. */
  ghost predicate BetweenEntries(s: State) {
    Inside(s, 0) && s.Frames().entry.held == if s.choice.ForIndex? then InSitemap(None) else InUrl(None)
  }

  /** What one entry does to it. */
  function AfterEntry(canon: string -> string, s: State, tag: Tag, body: Body): (r: State)
    requires BetweenEntries(s)
    ensures BetweenEntries(r)
  {
    var last := LastTag(body, s.Frames().entry.last);
    if s.choice.ForIndex? then
      var found := if LastText(body, Loc).Some? then [LastText(body, Loc).value] else [];
      s.(idx := Frames(Context(Some(tag), InSitemapIndex(s.idx.document.held.loclist + found)),
                       Context(last, InSitemap(None)), s.idx.value))
    else
      s.(stm := Frames(Context(Some(tag), InUrlSet), Context(last, InUrl(None)), s.stm.value),
         consumed := s.consumed + [EntryOf(canon, body)])
  }

  lemma {:induction false} LastTextIsNotBlank(b: Body, tag: Tag)
    ensures LastText(b, tag).Some? ==> LastText(b, tag).value != ""
    decreases b
  {
    if !b.Empty? {
      LastTextIsNotBlank(b.rest, tag);
    }
  }

  lemma {:induction false} ItemRuns(canon: string -> string, s: State, tag: Tag, body: Body, k: Events)
    requires BetweenEntries(s)
    ensures var events := Cons(Start(tag), EventsOf(body, Cons(Stop, k)));
            if IsEntryTag(tag, s.choice.ForIndex?) && IsEntry(body, s.choice.ForIndex?) then
              Parsed(canon, s, events) == Parsed(canon, AfterEntry(canon, s, tag, body), k)
            else Parsed(canon, s, events).0.SchemaError?
  {
    if IsEntryTag(tag, s.choice.ForIndex?) {
      var s1 := Started(s, tag).1;
      assert InsideEntry(s1);
      EntryRuns(canon, s1, body, Cons(Stop, k));
      if IsEntry(body, s.choice.ForIndex?) {
        LastTextIsNotBlank(body, Loc);
        var s2 := s1.Put(Context(LastTag(body, s1.Frames().entry.last), HeldAfter(canon, s1.Frames().entry.held, body)));
        if s.choice.ForIndex? {
          assert s.idx.document.held.loclist + [] == s.idx.document.held.loclist;
        }
        assert Ended(canon, s2) == (Fine, AfterEntry(canon, s, tag, body));
      }
    }
  }

  function AfterEntries(canon: string -> string, s: State, b: Body): (r: State)
    requires BetweenEntries(s)
    ensures BetweenEntries(r)
    decreases b
  {
    match b
    case Empty => s
    case Run(_, rest) => AfterEntries(canon, s, rest)
    case Sub(tag, body, rest) => AfterEntries(canon, AfterEntry(canon, s, tag, body), rest)
  }

  lemma {:induction false} ListRuns(canon: string -> string, s: State, b: Body, k: Events)
    requires BetweenEntries(s)
    ensures if IsListOf(b, s.choice.ForIndex?) then
              Parsed(canon, s, EventsOf(b, k)) == Parsed(canon, AfterEntries(canon, s, b), k)
            else Parsed(canon, s, EventsOf(b, k)).0.SchemaError?
    decreases b
  {
    match b
    case Empty =>
    case Run(text, rest) => ListRuns(canon, s, rest, k);
    case Sub(tag, body, rest) =>
      ItemRuns(canon, s, tag, body, EventsOf(rest, k));
      ListRuns(canon, AfterEntry(canon, s, tag, body), rest, k);
  }

  /** The entries read so far are collected in order, and nothing else changes but what was last accepted. */
  lemma {:induction false} EntriesCollected(canon: string -> string, s: State, b: Body)
    requires BetweenEntries(s)
    ensures var r := AfterEntries(canon, s, b);
            && r.choice == s.choice && r.listed == s.listed
            && if s.choice.ForIndex? then
                 r.consumed == s.consumed && r.stm == s.stm
                 && r.idx.document.held.loclist == s.idx.document.held.loclist + LocsOf(b)
               else r.consumed == s.consumed + UrlsOf(canon, b) && r.idx == s.idx
    decreases b
  {
    match b
    case Empty =>
    case Run(_, rest) => EntriesCollected(canon, s, rest);
    case Sub(tag, body, rest) => EntriesCollected(canon, AfterEntry(canon, s, tag, body), rest);
  }

  /** The stack a document element is read with, if it is accepted at all. The first document element chooses;
      once Sitemaps are expected any other root than an index will do. */
  function ChoiceFor(choice: Choice, root: Tag): Choice {
    match choice
    case Undecided => if root.UrlSet? then ForSitemap else if root.SitemapIndex? then ForIndex else Undecided
    case ForSitemap => if root.SitemapIndex? then Undecided else ForSitemap
    case ForIndex => ForIndex
  }

  /** A document the handler is meant to accept. */
  predicate Conforms(choice: Choice, root: Tag, b: Body) {
    var c := ChoiceFor(choice, root);
    !c.Undecided? && IsListOf(b, c.ForIndex?)
  }

  lemma RootStarts(s: State, root: Tag)
    requires Clean(s)
    ensures var (o, s1) := Started(s, root);
            if ChoiceFor(s.choice, root).Undecided? then o.SchemaError?
            else o.Fine? && s1 == s.(current := 0, choice := ChoiceFor(s.choice, root)) && BetweenEntries(s1)
  {
  }

  /** What is left of a run after the last entry. */
  lemma RootEnds(canon: string -> string, s: State)
    requires BetweenEntries(s)
    requires var emptied := s.idx.(document := Context(None, InSitemapIndex([])));
             Clean(s.(current := -1, idx := if s.choice.ForIndex? then emptied else s.idx))
    ensures var (o, r) := Parsed(canon, s, Cons(Stop, Nil));
            && o.Fine? && Clean(r) && r.choice == s.choice && r.consumed == s.consumed
            && r.listed == s.listed + if s.choice.ForIndex? then s.idx.document.held.loclist else []
  {
    assert Parsed(canon, s, Cons(Stop, Nil)) == Parsed(canon, Ended(canon, s).1, Nil);
    assert s.listed + [] == s.listed;
  }

  /** On a well-formed document, starting clean, the handler accepts exactly what conforms; it then has handed on
      the entries in order, each with the stripped text of its attributes, and is clean again. It never crashes. */
  lemma DocumentRuns(canon: string -> string, s: State, root: Tag, b: Body)
    requires Clean(s)
    ensures var r := Parsed(canon, s, EventsOf(Sub(root, b, Empty), Nil));
            && (r.0.Fine? <==> Conforms(s.choice, root, b))
            && !r.0.Crashed?
            && (r.0.Fine? ==>
                  && Clean(r.1) && r.1.choice == ChoiceFor(s.choice, root)
                  && r.1.consumed == s.consumed + (if r.1.choice.ForSitemap? then UrlsOf(canon, b) else [])
                  && r.1.listed == s.listed + if r.1.choice.ForIndex? then LocsOf(b) else [])
  {
    RootStarts(s, root);
    var (o, s1) := Started(s, root);
    var end := Cons(Stop, Nil);
    assert Parsed(canon, s, EventsOf(Sub(root, b, Empty), Nil)) ==
           if o.Fine? then Parsed(canon, s1, EventsOf(b, end)) else (o, s1);
    if o.Fine? {
      ListRuns(canon, s1, b, end);
      EntriesCollected(canon, s1, b);
      if IsListOf(b, s1.choice.ForIndex?) {
        RootEnds(canon, AfterEntries(canon, s1, b));
        assert s1.consumed + [] == s1.consumed && [] + LocsOf(b) == LocsOf(b);
      }
    }
  }

  /** Joins the runs of text that the parser has cut. */
  function Merge(b: Body): Body {
    match b
    case Empty => Empty
    case Run(text, rest) =>
      (match Merge(rest)
       case Run(more, rest') => Run(text + more, rest')
       case _ => Run(text, Merge(rest)))
    case Sub(tag, body, rest) => Sub(tag, Merge(body), Merge(rest))
  }

  lemma {:induction false} MergeKeepsText(b: Body)
    ensures TextOf(Merge(b)) == TextOf(b) && (IsPlain(Merge(b)) <==> IsPlain(b))
    decreases b
  {
    match b
    case Empty =>
    case Run(text, rest) => MergeKeepsText(rest);
    case Sub(_, _, rest) => MergeKeepsText(rest);
  }

  lemma {:induction false} MergeKeepsEntry(b: Body, index: bool)
    ensures IsEntry(Merge(b), index) <==> IsEntry(b, index)
    ensures forall tag :: LastText(Merge(b), tag) == LastText(b, tag)
    decreases b
  {
    match b
    case Empty =>
    case Run(text, rest) =>
      MergeKeepsEntry(rest, index);
      BlankJoins(text, if Merge(rest).Run? then Merge(rest).text else "");
    case Sub(_, body, rest) =>
      MergeKeepsText(body);
      MergeKeepsEntry(rest, index);
  }

  /** How the parser cuts the text makes no difference: what is accepted and what it means depend only on the
      document with its runs joined. */
  lemma {:induction false} CutsDoNotMatter(canon: string -> string, b: Body, index: bool)
    ensures IsListOf(Merge(b), index) <==> IsListOf(b, index)
    ensures UrlsOf(canon, Merge(b)) == UrlsOf(canon, b) && LocsOf(Merge(b)) == LocsOf(b)
    decreases b
  {
    match b
    case Empty =>
    case Run(text, rest) =>
      CutsDoNotMatter(canon, rest, index);
      BlankJoins(text, if Merge(rest).Run? then Merge(rest).text else "");
    case Sub(tag, body, rest) =>
      CutsDoNotMatter(canon, rest, index);
      MergeKeepsEntry(body, index);
  }
}

module SaxHandler {
  import opened Basics
  import opened SitemapDocument
  import opened SaxContexts

  const FRESH_INDEX :=
    Frames(Context(None, InSitemapIndex([])), Context(None, InSitemap(None)), Context(None, InValue(None)))
  const FRESH_SITEMAP := Frames(Context(None, InUrlSet), Context(None, InUrl(None)), Context(None, InValue(None)))

  /** The state after a file, however it ended, and after a sequence of files; a crash ends everything. */
  function FileRead(canon: string -> string, s: State, file: Events): (Outcome, State) {
    Parsed(canon, s.(current := -1), file)
  }

  function FilesRead(canon: string -> string, s: State, files: seq<Events>): (Outcome, State)
    decreases |files|
  {
    if files == [] then (Fine, s)
    else
      var (o, s1) := FileRead(canon, s, files[0]);
      if o.Crashed? then (o, s1) else FilesRead(canon, s1, files[1..])
  }

  /** `ProduceURLs`: the first file chooses its contexts, the others are read as Sitemaps. */
  function Produced(canon: string -> string, start: State, first: Events, others: seq<Events>): (Outcome, State) {
    var (o, s) := FileRead(canon, start, first);
    if o.Crashed? then (o, s) else FilesRead(canon, s.(choice := ForSitemap), others)
  }

  class InputSitemap {
    const canon: string -> string // URL.Canonicalize
    var choice: Choice
    var current: int
    var idx: Frames
    var stm: Frames
    var consumed: seq<Entry>      // what the consumer was given
    var listed: seq<string>       // the locations an index listed

    constructor (canon: string -> string)
      ensures Now() == State(Undecided, -1, FRESH_INDEX, FRESH_SITEMAP, [], []) && this.canon == canon
    {
      this.canon := canon;
      choice, current, idx, stm, consumed, listed := Undecided, -1, FRESH_INDEX, FRESH_SITEMAP, [], [];
    }

    function Now(): State
      reads this
    {
      State(choice, current, idx, stm, consumed, listed)
    }

    /** `self._contexts[self._current] = c` */
    method Put(c: Context)
      requires 0 <= current < 3
      modifies this`idx, this`stm
      ensures Now() == old(Now()).Put(c)
    {
      if choice.ForIndex? {
        idx := idx.Set(current, c);
      } else {
        stm := stm.Set(current, c);
      }
    }

    method StartElement(tag: Tag) returns (r: Outcome)
      requires Now().Valid()
      modifies this`choice, this`current, this`idx, this`stm
      ensures (r, Now()) == Started(old(Now()), tag)
    {
      if current < 0 && choice.Undecided? {
        if tag.UrlSet? {
          choice := ForSitemap;
        } else if tag.SitemapIndex? {
          choice := ForIndex;
        } else {
          return SchemaError;
        }
      }
      if current < 0 && choice.ForSitemap? && tag.SitemapIndex? {
        return SchemaError;
      }
      if current >= 0 {
        var c := Now().Frames().At(current);
        var valid := Allowed(c, tag);
        Put(c.(last := if valid then Some(tag) else None));
        if !valid {
          return SchemaError;
        }
      }
      current := current + 1;
      if current == 3 {
        return Crashed;
      }
      var (o, c) := Open(Now().Frames().At(current));
      Put(c);
      return o;
    }

    method EndElement() returns (r: Outcome)
      requires Now().Valid()
      modifies this`current, this`idx, this`stm, this`consumed, this`listed
      ensures (r, Now()) == Ended(canon, old(Now()))
    {
      if current < 0 {
        return Crashed;
      }
      var c := Now().Frames().At(current);
      var (o, closed, result) := Close(c);
      if !o.Fine? {
        return o;
      }
      if c.held.InUrl? {
        consumed := consumed + [c.held.url.value];
      }
      Put(closed);
      current := current - 1;
      if current >= 0 {
        var (o', d) := Return(canon, Now().Frames().At(current), result);
        Put(d);
        return o';
      } else if result.Locations? && choice.ForIndex? {
        listed := listed + result.list;
      }
      return Fine;
    }

    method Characters(text: string) returns (r: Outcome)
      requires Now().Valid()
      modifies this`idx, this`stm
      ensures (r, Now()) == Read(old(Now()), text)
    {
      if current >= 0 {
        var c := Now().Frames().At(current);
        if c.held.InValue? {
          var t := c.held.text;
          Put(c.(held := InValue(Some(if t.Some? && t.value != "" then t.value + text else text))));
          return Fine;
        }
      }
      return if Strip(text) == "" then Fine else SchemaError;
    }

    /** `_ProcessFile`, with the parser's events of the file. */
    method ProcessFile(events: Events) returns (r: Outcome)
      modifies this`choice, this`current, this`idx, this`stm, this`consumed, this`listed
      ensures (r, Now()) == FileRead(canon, old(Now()), events)
    {
      current := -1;
      r := Fine;
      var k := events;
      while k.Cons? && r.Fine?
        invariant r.Fine? ==> Now().Valid()
        invariant FileRead(canon, old(Now()), events) == if r.Fine? then Parsed(canon, Now(), k) else (r, Now())
        decreases k
      {
        match k.head {
          case Start(tag) => r := StartElement(tag);
          case Stop => r := EndElement();
          case Chars(text) => r := Characters(text);
        }
        k := k.tail;
      }
    }

    /** `ProduceURLs`: the first file may be an index, the files it lists must be Sitemaps. Schema errors are
        reported and end only their file. */
    method ProduceURLs(first: Events, others: seq<Events>) returns (r: Outcome)
      modifies this
      ensures var start := State(Undecided, -1, FRESH_INDEX, FRESH_SITEMAP, old(consumed), old(listed));
              (r, Now()) == Produced(canon, start, first, others)
    {
      choice, current, idx, stm := Undecided, -1, FRESH_INDEX, FRESH_SITEMAP;
      r := ProcessFile(first);
      if r.Crashed? {
        return;
      }
      choice := ForSitemap;
      r := Fine;
      ghost var s := Now();
      var i := 0;
      while i < |others|
        invariant 0 <= i <= |others| && r.Fine?
        invariant FilesRead(canon, s, others) == FilesRead(canon, Now(), others[i..])
      {
        r := ProcessFile(others[i]);
        assert others[i..][1..] == others[i + 1..];
        if r.Crashed? {
          return;
        }
        r := Fine;
        i := i + 1;
      }
    }
  }

  /** All entries of a list of documents, in order. */
  function AllUrls(canon: string -> string, bodies: seq<Body>): seq<Entry> {
    if bodies == [] then [] else UrlsOf(canon, bodies[0]) + AllUrls(canon, bodies[1..])
  }

  /** Reading one Sitemap hands on its entries and leaves everything as it was. */
  lemma SitemapRead(canon: string -> string, s: State, b: Body)
    requires Clean(s) && s.choice.ForSitemap? && IsListOf(b, false)
    ensures var (o, r) := FileRead(canon, s, EventsOf(Sub(UrlSet, b, Empty), Nil));
            o.Fine? && Clean(r) && r.choice.ForSitemap? && r.consumed == s.consumed + UrlsOf(canon, b)
  {
    DocumentRuns(canon, s, UrlSet, b);
    assert s.(current := -1) == s;
  }

  /** Reading Sitemap after Sitemap hands on all their entries in order and never crashes. */
  lemma {:induction false} SitemapsRun(canon: string -> string, s: State, bodies: seq<Body>, files: seq<Events>)
    requires Clean(s) && s.choice.ForSitemap? && |files| == |bodies|
    requires forall i :: 0 <= i < |bodies| ==> IsListOf(bodies[i], false)
    requires forall i :: 0 <= i < |bodies| ==> files[i] == EventsOf(Sub(UrlSet, bodies[i], Empty), Nil)
    ensures var (o, r) := FilesRead(canon, s, files);
            o.Fine? && Clean(r) && r.consumed == s.consumed + AllUrls(canon, bodies)
    decreases |files|
  {
    hide FileRead, Parsed, Clean, IsListOf, UrlsOf, EventsOf;
    if files == [] {
      assert s.consumed + [] == s.consumed;
    } else {
      SitemapRead(canon, s, bodies[0]);
      SitemapsRun(canon, FileRead(canon, s, files[0]).1, bodies[1..], files[1..]);
      Regroup(s.consumed, UrlsOf(canon, bodies[0]), AllUrls(canon, bodies[1..]));
    }
  }
}

/** Files that end in an error, of the schema or of XML: when they make a later file crash. */
module SaxErrors {
  import opened Basics
  import opened SitemapDocument
  import opened SaxContexts
  import opened SaxHandler

  // Files, as the events that the parser reports of them, with `depth` elements open.

  /** The events of a document, or what is reported before an XML error cuts it short: nothing follows the root, and no
      element ends that has not started. */
  ghost predicate Nested(k: Events, depth: nat) {
    match k
    case Nil => true
    case Cons(Start(_), rest) => depth > 0 && Nested(rest, depth + 1)
    case Cons(Stop, rest) => depth > 0 && Nested(rest, depth - 1)
    case Cons(Chars(_), rest) => depth > 0 && Nested(rest, depth)
  }

  ghost predicate IsFile(file: Events) {
    file.Cons? ==> file.head.Start? && Nested(file.tail, 1)
  }

  /** The first thing inside the root besides white space is an entry. */
  predicate Opens(k: Events) {
    match k
    case Cons(Start(tag), _) => IsEntryTag(tag, false)
    case Cons(Chars(text), rest) => Blank(text) && Opens(rest)
    case _ => false
  }

  /** The events stop, or violate the schema for the first time, inside an entry. */
  predicate StopsInside(k: Events, depth: nat) {
    match k
    case Nil => depth >= 2
    case Cons(Start(tag), rest) =>
      if depth == 1 then IsEntryTag(tag, false) && StopsInside(rest, 2)
      else depth == 2 && IsAttribute(tag, false) ==> StopsInside(rest, 3)
    case Cons(Stop, rest) => depth >= 2 && StopsInside(rest, depth - 1)
    case Cons(Chars(text), rest) => if depth == 3 || Blank(text) then StopsInside(rest, depth) else depth == 2
  }

  /** The stack for Sitemaps is in use, its contexts in whatever condition. */
  ghost predicate ReadsSitemaps(s: State) {
    s.choice.ForSitemap? && s.stm.document.held.InUrlSet? && s.stm.entry.held.InUrl? && s.stm.value.held.InValue?
  }

  /** An entry was opened and not closed. */
  ghost predicate IsOpen(s: State)
    requires ReadsSitemaps(s)
  {
    s.stm.entry.held.url.Some?
  }

  /** Inside the root a file crashes exactly when it opens an entry while one is open, and otherwise it leaves one open
      exactly when one was, or when it stops inside one. */
  lemma {:induction false} RestEnds(canon: string -> string, s: State, k: Events, depth: nat)
    requires ReadsSitemaps(s) && 1 <= depth <= 3 && s.current == depth - 1 && Nested(k, depth)
    requires depth >= 2 ==> IsOpen(s)
    ensures var (o, r) := Parsed(canon, s, k);
            && (o.Crashed? <==> depth == 1 && IsOpen(s) && Opens(k))
            && (!o.Crashed? ==> ReadsSitemaps(r) && (IsOpen(r) <==> (depth == 1 && IsOpen(s)) || StopsInside(k, depth)))
    decreases k
  {
    if k.Cons? {
      var (o, s1) := Handled(canon, s, k.head);
      StopsAfterOpening(k);
      if o.Fine? {
        match k.head
        case Start(_) => RestEnds(canon, s1, k.tail, depth + 1);
        case Chars(_) => RestEnds(canon, s1, k.tail, depth);
        case Stop =>
          if depth >= 2 {
            RestEnds(canon, s1, k.tail, depth - 1);
          }
      }
    }
  }

  lemma {:induction false} StopsAfterOpening(k: Events)
    ensures StopsInside(k, 1) ==> Opens(k)
  {
    if k.Cons? && k.head.Chars? {
      StopsAfterOpening(k.tail);
    }
  }

  /** Read as a Sitemap, which any root but that of an index is, the file opens an entry. */
  predicate Enters(file: Events) {
    file.Cons? && file.head.Start? && !file.head.tag.SitemapIndex? && Opens(file.tail)
  }

  predicate Leaves(file: Events) {
    file.Cons? && file.head.Start? && !file.head.tag.SitemapIndex? && StopsInside(file.tail, 1)
  }

  /** One file, from contexts in whatever condition. */
  lemma FileEnds(canon: string -> string, s: State, file: Events)
    requires ReadsSitemaps(s) && IsFile(file)
    ensures var (o, r) := FileRead(canon, s, file);
            && (o.Crashed? <==> IsOpen(s) && Enters(file))
            && (!o.Crashed? ==> ReadsSitemaps(r) && (IsOpen(r) <==> IsOpen(s) || Leaves(file)))
  {
    if file.Cons? && !file.head.tag.SitemapIndex? {
      RestEnds(canon, Started(s.(current := -1), file.head.tag).1, file.tail, 1);
    }
  }

  /** A file leaves an entry open and a later one opens one. */
  ghost predicate LeftAndEntered(files: seq<Events>) {
    exists i, j :: 0 <= i < j < |files| && Leaves(files[i]) && Enters(files[j])
  }

  ghost predicate SomeEnters(files: seq<Events>) {
    exists j :: 0 <= j < |files| && Enters(files[j])
  }

  lemma FirstAndRest(files: seq<Events>)
    requires files != []
    ensures SomeEnters(files) <==> Enters(files[0]) || SomeEnters(files[1..])
    ensures LeftAndEntered(files) <==> (Leaves(files[0]) && SomeEnters(files[1..])) || LeftAndEntered(files[1..])
    ensures LeftAndEntered(files) ==> SomeEnters(files[1..])
  {
    var rest := files[1..];
    forall j | 0 <= j < |rest|
      ensures rest[j] == files[j + 1]
    {
    }
    hide Leaves, Enters;
    if SomeEnters(files) && !Enters(files[0]) {
      var j :| 0 <= j < |files| && Enters(files[j]);
      assert Enters(rest[j - 1]);
    }
    if SomeEnters(rest) {
      var j :| 0 <= j < |rest| && Enters(rest[j]);
      assert Enters(files[j + 1]);
      if Leaves(files[0]) {
        assert Leaves(files[0]) && Enters(files[j + 1]);
      }
    }
    if LeftAndEntered(files) {
      var i, j :| 0 <= i < j < |files| && Leaves(files[i]) && Enters(files[j]);
      assert Enters(rest[j - 1]);
      if i > 0 {
        assert Leaves(rest[i - 1]);
      }
    }
    if LeftAndEntered(rest) {
      var i, j :| 0 <= i < j < |rest| && Leaves(rest[i]) && Enters(rest[j]);
      assert Leaves(files[i + 1]) && Enters(files[j + 1]);
    }
  }

  /**
   Over any sequence of files, complete or cut short, whatever was left before, the handler crashes exactly when an entry
   was left open, before or by a file that stops inside it, and a later file opens one.
  */
  lemma {:induction false} CrashesExactly(canon: string -> string, s: State, files: seq<Events>)
    requires ReadsSitemaps(s) && forall i :: 0 <= i < |files| ==> IsFile(files[i])
    ensures FilesRead(canon, s, files).0.Crashed? <==> (IsOpen(s) && SomeEnters(files)) || LeftAndEntered(files)
    decreases |files|
  {
    if files != [] {
      hide IsFile, Enters, Leaves, FileRead;
      FileEnds(canon, s, files[0]);
      FirstAndRest(files);
      var (o, s1) := FileRead(canon, s, files[0]);
      if !o.Crashed? {
        CrashesExactly(canon, s1, files[1..]);
      }
    }
  }

  // The first file may be an index, which has contexts of its own.

  ghost predicate ReadsIndex(s: State) {
    && s.choice.ForIndex? && s.idx.document.held.InSitemapIndex? && s.idx.entry.held.InSitemap?
    && s.idx.value.held.InValue?
  }

  /** An index never crashes, and keeps to its own stack. */
  lemma {:induction false} IndexEnds(canon: string -> string, s: State, k: Events, depth: nat)
    requires ReadsIndex(s) && 1 <= depth <= 3 && s.current == depth - 1 && Nested(k, depth)
    requires depth == 1 ==> s.idx.entry.held == InSitemap(None)
    requires s.idx.entry.held.loc.Some? ==> s.idx.entry.held.loc.value != ""
    ensures var (o, r) := Parsed(canon, s, k); !o.Crashed? && r.stm == s.stm
    decreases k
  {
    if k.Cons? {
      var (o, s1) := Handled(canon, s, k.head);
      if o.Fine? {
        match k.head
        case Start(_) => IndexEnds(canon, s1, k.tail, depth + 1);
        case Chars(_) => IndexEnds(canon, s1, k.tail, depth);
        case Stop =>
          if depth >= 2 {
            IndexEnds(canon, s1, k.tail, depth - 1);
          }
      }
    }
  }

  /** Of the first file only what is a Sitemap by its root matters. */
  function AsSitemap(first: Events): Events {
    if first.Cons? && first.head.Start? && first.head.tag.UrlSet? then first else Nil
  }

  lemma FirstEnds(canon: string -> string, start: State, first: Events)
    requires Clean(start) && start.choice.Undecided? && IsFile(first)
    ensures var (o, r) := FileRead(canon, start, first);
            var s := r.(choice := ForSitemap);
            !o.Crashed? && ReadsSitemaps(s) && (IsOpen(s) <==> Leaves(AsSitemap(first)))
  {
    if first.Cons? && first.head.tag.UrlSet? {
      var decided := start.(choice := ForSitemap);
      FileEnds(canon, decided, first);
      assert Started(start.(current := -1), UrlSet) == Started(decided.(current := -1), UrlSet);
    } else if first.Cons? && first.head.tag.SitemapIndex? {
      IndexEnds(canon, Started(start.(current := -1), SitemapIndex).1, first.tail, 1);
    }
  }

  /** A whole input crashes exactly when one of its files stops inside an entry and a later one opens one. */
  lemma InputCrashesExactly(canon: string -> string, start: State, first: Events, files: seq<Events>)
    requires Clean(start) && start.choice.Undecided?
    requires IsFile(first) && forall i :: 0 <= i < |files| ==> IsFile(files[i])
    ensures Produced(canon, start, first, files).0.Crashed? <==> LeftAndEntered([AsSitemap(first)] + files)
  {
    hide IsFile, Enters, Leaves, FileRead, FilesRead, Clean;
    var (o, s) := FileRead(canon, start, first);
    var all := [AsSitemap(first)] + files;
    assert all[1..] == files;
    FirstAndRest(all);
    FirstEnds(canon, start, first);
    CrashesExactly(canon, s.(choice := ForSitemap), files);
  }

  // Which files these are, in terms of documents.

  datatype Document = Document(root: Tag, body: Body)

  function EventsIn(d: Document): Events {
    EventsOf(Sub(d.root, d.body, Empty), Nil)
  }

  /** The first thing besides white space is an entry. */
  predicate OpensEntry(b: Body) {
    match b
    case Empty => false
    case Run(text, rest) => Blank(text) && OpensEntry(rest)
    case Sub(tag, _, _) => IsEntryTag(tag, false)
  }

  /** The first violation of the schema lies inside an entry. */
  predicate BreaksInside(b: Body) {
    match b
    case Empty => false
    case Run(text, rest) => Blank(text) && BreaksInside(rest)
    case Sub(tag, body, rest) => IsEntryTag(tag, false) && (IsEntry(body, false) ==> BreaksInside(rest))
  }

  /** The events `k` up to some point. */
  ghost predicate IsCut(cut: Events, k: Events) {
    cut.Nil? || (k.Cons? && cut.head == k.head && IsCut(cut.tail, k.tail))
  }

  /** A document is a file, complete or cut anywhere. */
  lemma DocumentIsFile(d: Document, cut: Events)
    requires IsCut(cut, EventsIn(d))
    ensures IsFile(cut) && IsFile(EventsIn(d))
  {
    var rest := EventsOf(d.body, Cons(Stop, Nil));
    assert EventsOf(Empty, Nil) == Nil;
    assert EventsIn(d) == Cons(Start(d.root), rest);
    BodyNests(d.body, Cons(Stop, Nil), 1);
    if cut.Cons? {
      CutNests(cut.tail, rest, 1);
    }
  }

  lemma {:induction false} BodyNests(b: Body, k: Events, depth: nat)
    requires depth > 0
    ensures Nested(EventsOf(b, k), depth) <==> Nested(k, depth)
    decreases b
  {
    match b
    case Empty =>
    case Run(_, rest) => BodyNests(rest, k, depth);
    case Sub(_, body, rest) =>
      BodyNests(rest, k, depth);
      BodyNests(body, Cons(Stop, EventsOf(rest, k)), depth + 1);
  }

  lemma {:induction false} CutNests(cut: Events, k: Events, depth: nat)
    requires IsCut(cut, k) && Nested(k, depth)
    ensures Nested(cut, depth)
    decreases cut
  {
    if cut.Cons? {
      match cut.head
      case Start(_) => CutNests(cut.tail, k.tail, depth + 1);
      case Stop => CutNests(cut.tail, k.tail, depth - 1);
      case Chars(_) => CutNests(cut.tail, k.tail, depth);
    }
  }

  /** A complete document enters and leaves an entry as its tree says. */
  lemma DocumentLeaves(d: Document)
    ensures Enters(EventsIn(d)) <==> !d.root.SitemapIndex? && OpensEntry(d.body)
    ensures Leaves(EventsIn(d)) <==> !d.root.SitemapIndex? && BreaksInside(d.body)
  {
    assert EventsOf(Empty, Nil) == Nil;
    assert EventsIn(d) == Cons(Start(d.root), EventsOf(d.body, Cons(Stop, Nil)));
    BodyOpens(d.body, Nil);
    ListStops(d.body, Cons(Stop, Nil));
  }

  lemma {:induction false} BodyOpens(b: Body, k: Events)
    ensures Opens(EventsOf(b, Cons(Stop, k))) <==> OpensEntry(b)
    decreases b
  {
    match b
    case Run(_, rest) => BodyOpens(rest, k);
    case _ =>
  }

  lemma {:induction false} ListStops(b: Body, k: Events)
    ensures StopsInside(EventsOf(b, k), 1) <==> BreaksInside(b) || (IsListOf(b, false) && StopsInside(k, 1))
    ensures IsListOf(b, false) ==> !BreaksInside(b)
    decreases b
  {
    match b
    case Empty =>
    case Run(_, rest) => ListStops(rest, k);
    case Sub(_, body, rest) =>
      ListStops(rest, k);
      EntryStops(body, Cons(Stop, EventsOf(rest, k)));
  }

  lemma {:induction false} EntryStops(b: Body, k: Events)
    ensures StopsInside(EventsOf(b, k), 2) <==> (IsEntry(b, false) ==> StopsInside(k, 2))
    decreases b
  {
    match b
    case Empty =>
    case Run(_, rest) => EntryStops(rest, k);
    case Sub(_, body, rest) =>
      EntryStops(rest, k);
      ValueStops(body, Cons(Stop, EventsOf(rest, k)));
  }

  lemma {:induction false} ValueStops(b: Body, k: Events)
    ensures StopsInside(EventsOf(b, k), 3) <==> (IsPlain(b) ==> StopsInside(k, 3))
    decreases b
  {
    match b
    case Empty =>
    case Run(_, rest) => ValueStops(rest, k);
    case Sub(_, _, _) =>
  }

  // The two shortest cases: an element that the schema does not know, and an end that never comes.

  lemma SchemaErrorLeavesEntryOpen(canon: string -> string, s: State, bad: string)
    requires Clean(s) && s.choice.ForSitemap?
    ensures var broken := Document(UrlSet, Sub(Url, Sub(Other(bad), Empty, Empty), Empty));
            var correct := Document(UrlSet, Sub(Url, Empty, Empty));
            && IsListOf(correct.body, false)
            && FilesRead(canon, s, [EventsIn(broken), EventsIn(correct)]).0.Crashed?
  {
    var broken := Document(UrlSet, Sub(Url, Sub(Other(bad), Empty, Empty), Empty));
    var correct := Document(UrlSet, Sub(Url, Empty, Empty));
    assert IsListOf(Empty, false) && IsEntry(Empty, false) && !IsEntry(Sub(Other(bad), Empty, Empty), false);
    DocumentLeaves(broken);
    DocumentLeaves(correct);
    DocumentIsFile(broken, Nil);
    DocumentIsFile(correct, Nil);
    CrashesAfter(canon, s, EventsIn(broken), EventsIn(correct));
  }

  lemma CutFileLeavesEntryOpen(canon: string -> string, s: State)
    requires Clean(s) && s.choice.ForSitemap?
    ensures var correct := EventsIn(Document(UrlSet, Sub(Url, Empty, Empty)));
            var cut := Cons(Start(UrlSet), Cons(Start(Url), Nil));
            IsCut(cut, correct) && FilesRead(canon, s, [cut, correct]).0.Crashed?
  {
    var d := Document(UrlSet, Sub(Url, Empty, Empty));
    var cut := Cons(Start(UrlSet), Cons(Start(Url), Nil));
    assert EventsOf(Empty, Nil) == Nil && EventsOf(Empty, Cons(Stop, Nil)) == Cons(Stop, Nil);
    assert EventsIn(d) == Cons(Start(UrlSet), EventsOf(d.body, Cons(Stop, Nil)));
    assert IsCut(Nil, EventsIn(d).tail.tail) && IsCut(Cons(Start(Url), Nil), EventsIn(d).tail);
    DocumentLeaves(d);
    DocumentIsFile(d, cut);
    assert StopsInside(Nil, 2) && StopsInside(Cons(Start(Url), Nil), 1);
    CrashesAfter(canon, s, cut, EventsIn(d));
  }

  lemma CrashesAfter(canon: string -> string, s: State, first: Events, second: Events)
    requires Clean(s) && s.choice.ForSitemap? && IsFile(first) && IsFile(second) && Leaves(first) && Enters(second)
    ensures FilesRead(canon, s, [first, second]).0.Crashed?
  {
    var files := [first, second];
    assert Leaves(files[0]) && Enters(files[1]);
    hide FilesRead, Enters, Leaves, IsFile;
    CrashesExactly(canon, s, files);
  }
}
