/**
 The linter's JSON mode: a recursive-descent recogniser, proved to accept exactly the texts of the grammar of
 section 2 of RFC 4627 with an object or array outermost, as far as the linter itself restricts them.
*/
module JsonGrammar {
  import opened Basics
  import opened Tokens

  /** A derivation in the grammar of section 2 of RFC 4627, with its tokens. */
  datatype Json =
    | Literal(t: Token)
    | Negative(minus: Token, number: Token)
    | Object(open: Token, members: Option<Members>, close: Token)
    | Array(open: Token, items: Option<Items>, close: Token)

  datatype Members =
    | LastMember(key: Token, colon: Token, value: Json)
    | MoreMembers(key: Token, colon: Token, value: Json, comma: Token, rest: Members)

  datatype Items =
    | LastItem(value: Json)
    | MoreItems(value: Json, comma: Token, rest: Items)

  type Text = List<Token>

  function Keys(m: Members): set<string> {
    {m.key.value} + if m.MoreMembers? then Keys(m.rest) else {}
  }

  /** The grammar's rules and the linter's own: distinct keys, no `__proto__`, no space after a minus sign. */
  ghost predicate Conforms(j: Json) {
    match j
    case Literal(t) => t.id.True? || t.id.False? || t.id.Null? || t.id.Number? || t.id.String?
    case Negative(minus, number) => minus.id.Minus? && number.id.Number? && minus.character == number.from
    case Object(open, None, close) => open.id.LBrace? && close.id.RBrace?
    case Object(open, Some(m), close) =>
      open.id.LBrace? && close.id.RBrace? && MembersConform(m)
    case Array(open, None, close) => open.id.LBracket? && close.id.RBracket?
    case Array(open, Some(items), close) => open.id.LBracket? && close.id.RBracket? && ItemsConform(items)
  }

  ghost predicate MembersConform(m: Members) {
    && m.key.id.String? && m.key.value != "__proto__" && m.colon.id.Colon? && Conforms(m.value)
    && (m.MoreMembers? ==> m.comma.id.Comma? && MembersConform(m.rest) && m.key.value !in Keys(m.rest))
  }

  ghost predicate ItemsConform(items: Items) {
    && Conforms(items.value)
    && (items.MoreItems? ==> items.comma.id.Comma? && ItemsConform(items.rest))
  }

  /** The tokens of `j`, followed by `k`. */
  function Yield(j: Json, k: Text): Text {
    match j
    case Literal(t) => Cons(t, k)
    case Negative(minus, number) => Cons(minus, Cons(number, k))
    case Object(open, members, close) =>
      Cons(open, if members.Some? then MembersYield(members.value, Cons(close, k)) else Cons(close, k))
    case Array(open, items, close) =>
      Cons(open, if items.Some? then ItemsYield(items.value, Cons(close, k)) else Cons(close, k))
  }

  function MembersYield(m: Members, k: Text): Text {
    Cons(m.key, Cons(m.colon, Yield(m.value, if m.MoreMembers? then Cons(m.comma, MembersYield(m.rest, k)) else k)))
  }

  function ItemsYield(items: Items, k: Text): Text {
    Yield(items.value, if items.MoreItems? then Cons(items.comma, ItemsYield(items.rest, k)) else k)
  }

  /** The outcome of a run without complaint: the text left over, or that there is none. */
  datatype Run = No | Yes(rest: Text)

  /** The id of the next token. */
  function Next(text: Text): Id {
    if text.Nil? then End else text.head.id
  }

  function ObjectEnd(r: Run): Run {
    if r.Yes? && Next(r.rest).RBrace? then Yes(r.rest.tail) else No
  }

  function ArrayEnd(r: Run): Run {
    if r.Yes? && Next(r.rest).RBracket? then Yes(r.rest.tail) else No
  }

  function ValueAt(text: Text): (r: Run)
    ensures r.Yes? ==> Length(r.rest) < Length(text)
    decreases Length(text), 0
  {
    if text.Nil? then No
    else if text.head.id.String? || text.head.id.Number? then Yes(text.tail)
    else if text.head.id.Null? || text.head.id.True? || text.head.id.False? then Yes(text.tail)
    else if text.head.id.LBrace? then
      ObjectEnd(if Next(text.tail).RBrace? then Yes(text.tail) else MembersAt(text.tail, {}))
    else if text.head.id.LBracket? then
      ArrayEnd(if Next(text.tail).RBracket? then Yes(text.tail) else ItemsAt(text.tail))
    else if text.head.id.Minus? && Next(text.tail).Number? && text.head.character == text.tail.head.from then
      Yes(text.tail.tail)
    else No
  }

  function MembersAt(text: Text, seen: set<string>): (r: Run)
    ensures r.Yes? ==> Length(r.rest) < Length(text)
    decreases Length(text), 1
  {
    if KeyAt(text, seen) then
      var r := ValueAt(text.tail.tail);
      if r.Yes? && Next(r.rest).Comma? then MembersAt(r.rest.tail, seen + {text.head.value}) else r
    else No
  }

  /** An acceptable key and its colon come next. */
  predicate KeyAt(text: Text, seen: set<string>)
    ensures KeyAt(text, seen) ==> text.Cons? && text.tail.Cons? && Length(text.tail.tail) < Length(text)
  {
    && Next(text).String? && Next(text.tail).Colon?
    && text.head.value !in seen && text.head.value != "__proto__"
  }

  function ItemsAt(text: Text): (r: Run)
    ensures r.Yes? ==> Length(r.rest) < Length(text)
    decreases Length(text), 1
  {
    var r := ValueAt(text);
    if r.Yes? && Next(r.rest).Comma? then ItemsAt(r.rest.tail) else r
  }

  // Whatever is accepted is a derivation.

  lemma {:induction false} ValueSound(text: Text) returns (j: Json)
    requires ValueAt(text).Yes?
    ensures Conforms(j) && text == Yield(j, ValueAt(text).rest)
    decreases Length(text), 0
  {
    if text.head.id.Minus? {
      j := Negative(text.head, text.tail.head);
    } else if text.head.id.LBrace? {
      if Next(text.tail).RBrace? {
        j := Object(text.head, None, text.tail.head);
      } else {
        var m := MembersSound(text.tail, {});
        j := Object(text.head, Some(m), MembersAt(text.tail, {}).rest.head);
      }
    } else if !text.head.id.LBracket? {
      j := Literal(text.head);
    } else if Next(text.tail).RBracket? {
      j := Array(text.head, None, text.tail.head);
    } else {
      var items := ItemsSound(text.tail);
      j := Array(text.head, Some(items), ItemsAt(text.tail).rest.head);
    }
  }

  lemma {:induction false} MembersSound(text: Text, seen: set<string>) returns (m: Members)
    requires MembersAt(text, seen).Yes?
    ensures MembersConform(m) && Keys(m) !! seen
    ensures text == MembersYield(m, MembersAt(text, seen).rest)
    decreases Length(text), 1
  {
    var v := ValueSound(text.tail.tail);
    var rest := ValueAt(text.tail.tail).rest;
    if Next(rest).Comma? {
      var more := MembersSound(rest.tail, seen + {text.head.value});
      m := MoreMembers(text.head, text.tail.head, v, rest.head, more);
    } else {
      m := LastMember(text.head, text.tail.head, v);
    }
  }

  lemma {:induction false} ItemsSound(text: Text) returns (items: Items)
    requires ItemsAt(text).Yes?
    ensures ItemsConform(items) && text == ItemsYield(items, ItemsAt(text).rest)
    decreases Length(text), 1
  {
    var v := ValueSound(text);
    var rest := ValueAt(text).rest;
    if Next(rest).Comma? {
      var more := ItemsSound(rest.tail);
      items := MoreItems(v, rest.head, more);
    } else {
      items := LastItem(v);
    }
  }

  // Every derivation is accepted.

  lemma {:induction false} ValueComplete(j: Json, k: Text)
    requires Conforms(j)
    ensures ValueAt(Yield(j, k)) == Yes(k)
    decreases j
  {
    if j.Object? && j.members.Some? {
      MembersComplete(j.members.value, Cons(j.close, k), {});
    } else if j.Array? && j.items.Some? {
      ItemsComplete(j.items.value, Cons(j.close, k));
      ItemsStart(j.items.value, Cons(j.close, k));
    }
  }

  /** No value starts with a closing bracket, so an array with elements is not taken for an empty one. */
  lemma ItemsStart(items: Items, k: Text)
    requires ItemsConform(items)
    ensures !Next(ItemsYield(items, k)).RBracket?
  {
  }

  lemma {:induction false} MembersComplete(m: Members, k: Text, seen: set<string>)
    requires MembersConform(m) && Keys(m) !! seen
    requires !Next(k).Comma?
    ensures MembersAt(MembersYield(m, k), seen) == Yes(k)
    decreases m
  {
    if m.MoreMembers? {
      ValueComplete(m.value, Cons(m.comma, MembersYield(m.rest, k)));
      MembersComplete(m.rest, k, seen + {m.key.value});
    } else {
      ValueComplete(m.value, k);
    }
  }

  lemma {:induction false} ItemsComplete(items: Items, k: Text)
    requires ItemsConform(items) && !Next(k).Comma?
    ensures ItemsAt(ItemsYield(items, k)) == Yes(k)
    decreases items
  {
    if items.MoreItems? {
      ValueComplete(items.value, Cons(items.comma, ItemsYield(items.rest, k)));
      ItemsComplete(items.rest, k);
    } else {
      ValueComplete(items.value, k);
    }
  }

  /** The recogniser accepts a text exactly when the grammar derives it. */
  lemma AcceptsExactlyTheGrammar(text: Text)
    ensures ValueAt(text) == Yes(Nil) <==> exists j :: Conforms(j) && Yield(j, Nil) == text
  {
    if ValueAt(text) == Yes(Nil) {
      var j := ValueSound(text);
    }
    forall j | Conforms(j) && Yield(j, Nil) == text
      ensures ValueAt(text) == Yes(Nil)
    {
      ValueComplete(j, Nil);
    }
  }

  /** The texts of one token that are values, and those of a minus sign and another. */
  lemma ValuesOfOneToken(t: Token, minus: Token)
    ensures ValueAt(Cons(t, Nil)) == Yes(Nil) <==>
              t.id.True? || t.id.False? || t.id.Null? || t.id.Number? || t.id.String?
    ensures minus.id.Minus? ==> (ValueAt(Cons(minus, Cons(t, Nil))) == Yes(Nil) <==>
              t.id.Number? && minus.character == t.from)
  {
    assert ItemsAt(Nil).No?;
  }

  lemma ValueBeforeEnd(t: Token, close: Token)
    requires close.id.RBracket?
    ensures ValueAt(Cons(t, Cons(close, Nil))) ==
      if t.id.True? || t.id.False? || t.id.Null? || t.id.Number? || t.id.String? then Yes(Cons(close, Nil))
      else if t.id.LBracket? then Yes(Nil)
      else No
  {
  }

  /** The arrays of one token: a derivation exists exactly for the five kinds of literal. */
  lemma ArraysOfOneToken(t: Token, open: Token, close: Token)
    requires open.id.LBracket? && close.id.RBracket?
    ensures (exists j :: Conforms(j) && Yield(j, Nil) == Cons(open, Cons(t, Cons(close, Nil)))) <==>
              t.id.True? || t.id.False? || t.id.Null? || t.id.Number? || t.id.String?
  {
    hide Conforms, Yield;
    AcceptsExactlyTheGrammar(Cons(open, Cons(t, Cons(close, Nil))));
    ValueBeforeEnd(t, close);
  }
}

module JsonRecogniser {
  import opened Basics
  import opened Tokens
  import opened TokenPump
  import opened JsonGrammar

  /** What a routine did, `before` and `after` being the faults around it and `rest` what it left: it kept to the
      grammar's `run` (unless confusing neighbours exhausted the warnings), or it complained or threw. */
  ghost predicate Follows(run: Run, r: Outcome, before: nat, after: nat, rest: Text) {
    if run.Yes? then after == before && (r.TooMany? || (r.Done? && rest == run.rest))
    else !r.Done? || after > before
  }

  /** What every routine keeps, whatever it is given. */
  twostate predicate Keeps(p: Pump, r: Outcome)
    reads p
  {
    && old(p.faults) <= p.faults
    && if r.Done? then p.Valid() else p.Bounded() && p.warnings > 0
  }

  method JsonValue(p: Pump) returns (r: Outcome)
    requires p.Valid()
    modifies p
    ensures Keeps(p, r)
    ensures r.Done? ==> Length(p.input) < Length(old(p.input))
    ensures Follows(ValueAt(old(p.input)), r, old(p.faults), p.faults, if r.Done? then p.input else Nil)
    decreases Length(p.input), 1
  {
    hide Pump.Valid, Pump.Bounded;
    if p.nexttoken.id.LBrace? {
      r := JsonObject(p);
    } else if p.nexttoken.id.LBracket? {
      r := JsonArray(p);
    } else if p.nexttoken.id.True? || p.nexttoken.id.False? || p.nexttoken.id.Null? {
      r := p.Advance(true);
    } else if p.nexttoken.id.Number? || p.nexttoken.id.String? {
      r := p.Advance(true);
    } else if p.nexttoken.id.Minus? {
      :- p.Advance(p.nexttoken.id.Minus?);
      if p.token.character != p.nexttoken.from {
        :- p.Warning();
      }
      r := p.Advance(p.nexttoken.id.Number?);
    } else {
      r := p.Fail();
    }
  }

  method JsonObject(p: Pump) returns (r: Outcome)
    requires p.Valid() && p.nexttoken.id.LBrace?
    modifies p
    ensures Keeps(p, r)
    ensures r.Done? ==> Length(p.input) < Length(old(p.input))
    ensures Follows(ValueAt(old(p.input)), r, old(p.faults), p.faults, if r.Done? then p.input else Nil)
    decreases Length(p.input), 0
  {
    hide Pump.Valid, Pump.Bounded;
    :- p.Advance(p.nexttoken.id.LBrace?);
    if !p.nexttoken.id.RBrace? {
      :- JsonMembers(p);
    }
    r := p.Advance(p.nexttoken.id.RBrace?);
  }

  /** The loop over the members of an object. */
  method JsonMembers(p: Pump) returns (r: Outcome)
    requires p.Valid()
    modifies p
    ensures Keeps(p, r)
    ensures r.Done? ==> Length(p.input) <= Length(old(p.input))
    ensures Follows(MembersAt(old(p.input), {}), r, old(p.faults), p.faults, if r.Done? then p.input else Nil)
    decreases Length(p.input), 2
  {
    hide Pump.Valid, Pump.Bounded;
    var seen: set<string> := {};
    while true
      invariant p.Valid() && old(p.faults) <= p.faults
      invariant Length(p.input) <= Length(old(p.input))
      invariant if p.faults == old(p.faults) then MembersAt(old(p.input), {}) == MembersAt(p.input, seen)
                else MembersAt(old(p.input), {}).No?
      decreases Length(p.input)
    {
      if p.nexttoken.id.RBrace? {
        r := p.Warning();
        return;
      }
      :- JsonKey(p, seen);
      seen := seen + {p.prevtoken.value};
      :- JsonValue(p);
      if !p.nexttoken.id.Comma? {
        return Done;
      }
      :- p.Advance(p.nexttoken.id.Comma?);
    }
  }

  /** The head of one round of the loop over members, up to and including the colon. */
  method JsonKey(p: Pump, seen: set<string>) returns (r: Outcome)
    requires p.Valid()
    modifies p
    ensures Keeps(p, r)
    ensures r.Done? ==> Length(p.input) <= Length(old(p.input))
    ensures KeyAt(old(p.input), seen) ==> p.faults == old(p.faults)
    ensures KeyAt(old(p.input), seen) ==>
              r.TooMany? || (r.Done? && p.input == old(p.input).tail.tail && p.prevtoken == old(p.nexttoken))
    ensures !KeyAt(old(p.input), seen) ==> !r.Done? || p.faults > old(p.faults)
    ensures old(p.nexttoken).id.End? || old(p.nexttoken).id.Comma? ==> !r.Done?
  {
    hide Pump.Valid, Pump.Bounded;
    if p.nexttoken.id.End? || p.nexttoken.id.Comma? {
      r := p.Fail();
      return;
    }
    if !p.nexttoken.id.String? {
      :- p.Warning();
    }
    if p.nexttoken.value in seen || p.nexttoken.value == "__proto__" {
      :- p.Warning();
    }
    :- p.Advance(true);
    r := p.Advance(p.nexttoken.id.Colon?);
  }

  method JsonArray(p: Pump) returns (r: Outcome)
    requires p.Valid() && p.nexttoken.id.LBracket?
    modifies p
    ensures Keeps(p, r)
    ensures r.Done? ==> Length(p.input) < Length(old(p.input))
    ensures Follows(ValueAt(old(p.input)), r, old(p.faults), p.faults, if r.Done? then p.input else Nil)
    decreases Length(p.input), 0
  {
    hide Pump.Valid, Pump.Bounded;
    :- p.Advance(p.nexttoken.id.LBracket?);
    if !p.nexttoken.id.RBracket? {
      :- JsonItems(p);
    }
    r := p.Advance(p.nexttoken.id.RBracket?);
  }

  /** The loop over the elements of an array. */
  method JsonItems(p: Pump) returns (r: Outcome)
    requires p.Valid()
    modifies p
    ensures Keeps(p, r)
    ensures r.Done? ==> Length(p.input) <= Length(old(p.input))
    ensures Follows(ItemsAt(old(p.input)), r, old(p.faults), p.faults, if r.Done? then p.input else Nil)
    decreases Length(p.input), 2
  {
    hide Pump.Valid, Pump.Bounded;
    while true
      invariant p.Valid() && old(p.faults) <= p.faults
      invariant Length(p.input) <= Length(old(p.input))
      invariant if p.faults == old(p.faults) then ItemsAt(old(p.input)) == ItemsAt(p.input)
                else ItemsAt(old(p.input)).No?
      decreases Length(p.input)
    {
      if p.nexttoken.id.End? || p.nexttoken.id.Comma? {
        r := p.Fail();
        return;
      }
      if p.nexttoken.id.RBracket? {
        r := p.Warning();
        return;
      }
      :- JsonValue(p);
      if !p.nexttoken.id.Comma? {
        return Done;
      }
      :- p.Advance(p.nexttoken.id.Comma?);
    }
  }

  // No text of the grammar has confusing neighbours, so the routines' contracts leave no room for warnings.

  /** What can follow a value never makes a confusing pair with the token before it. */
  ghost predicate Closing(k: Text) {
    Calm(k) && (k.Cons? ==> k.head.id.Comma? || k.head.id.RBrace? || k.head.id.RBracket?)
  }

  lemma {:induction false} ValueCalm(j: Json, k: Text)
    requires Conforms(j) && Closing(k)
    ensures Calm(Yield(j, k))
    decreases j
  {
    match j
    case Object(_, Some(m), close) => MembersCalm(m, Cons(close, k));
    case Array(_, Some(items), close) => ItemsCalm(items, Cons(close, k));
    case _ =>
  }

  lemma {:induction false} MembersCalm(m: Members, k: Text)
    requires MembersConform(m) && Closing(k)
    ensures Calm(MembersYield(m, k))
    decreases m
  {
    if m.MoreMembers? {
      MembersCalm(m.rest, k);
      ValueCalm(m.value, Cons(m.comma, MembersYield(m.rest, k)));
    } else {
      ValueCalm(m.value, k);
    }
  }

  lemma {:induction false} ItemsCalm(items: Items, k: Text)
    requires ItemsConform(items) && Closing(k)
    ensures Calm(ItemsYield(items, k))
    decreases items
  {
    if items.MoreItems? {
      ItemsCalm(items.rest, k);
      ValueCalm(items.value, Cons(items.comma, ItemsYield(items.rest, k)));
    } else {
      ValueCalm(items.value, k);
    }
  }

  lemma AcceptedIsCalm(tokens: seq<Token>)
    requires ValueAt(Listed(tokens)) == Yes(Nil)
    ensures Confusions([BEGIN] + tokens) == 0
  {
    var j := ValueSound(Listed(tokens));
    ValueCalm(j, Nil);
    var all := [BEGIN] + tokens;
    assert all[1..] == tokens;
    forall i {:trigger all[i]} | 0 <= i < |all| - 1
      ensures !Confusing(all[i], all[i + 1])
    {
      CalmListed(all, i);
    }
    CalmWhenNoPairConfuses(all);
  }

  /** JSLINT on a text that starts with a brace or a bracket (`json`): the verdict is the grammar's. */
  method Lint(stream: seq<Lexeme>, passfail: bool) returns (json: bool, clean: bool)
    ensures json <==> Next(Listed(Significant(stream))).LBrace? || Next(Listed(Significant(stream))).LBracket?
    ensures json ==> (clean <==> exists j :: Conforms(j) && Yield(j, Nil) == Listed(Significant(stream)))
  {
    hide Pump.Shape, Pump.Warned, Confusions, Significant, Listed, Yield, ValueAt;
    ghost var text := Listed(Significant(stream));
    AcceptsExactlyTheGrammar(text);
    var p := new Pump(stream, passfail);
    if ValueAt(text) == Yes(Nil) {
      AcceptedIsCalm(Significant(stream));
    }
    var r := p.Advance(true);
    json := p.nexttoken.id.LBrace? || p.nexttoken.id.LBracket?;
    if r.Done? && json {
      r := JsonValue(p);
      if r.Done? {
        r := p.Advance(p.nexttoken.id.End?);
      }
    }
    if r.Done? {
      p.ValidIsBounded();
    }
    clean := p.warnings == 0;
  }
}
