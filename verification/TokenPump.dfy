/**
 JSLint's token stream: the tokens a script lexes to, and the pump (`peek`, `advance`) through which
 every grammar routine of the linter reads them.
*/
module Tokens {

  /** The `id` of a token, one constructor for each entry of the linter's symbol table that matters here.
      `Word` stands for every reserved word that has neither a prefix nor an infix handler, and
      `Punctuator` for every delimiter without one. */
  datatype Id =
    | Begin | End | Error | EndLine
    | Number | String | Regexp | Identifier
    | Arguments | Eval | False | Infinity | NaN | Null | This | True | Undefined
    | Word | Function | LBrace | RBrace | RParen | RBracket | Semicolon | Colon | Comma | Punctuator
    | Assign | AssignAdd | AssignSub | AssignMult | AssignDiv | AssignMod
    | AssignBitAnd | AssignBitOr | AssignBitXor | AssignShl | AssignShr | AssignUshr
    | Question | Or | And | BitOr | BitXor | BitAnd
    | Eq | EqEqEq | NotEq | NotEqEq | Less | Greater | LessEq | GreaterEq
    | Shl | Shr | Ushr | In | InstanceOf
    | Plus | Minus | Times | Divide | Modulo
    | Incr | Decr | Delete | Tilde | Not | Typeof | New
    | Dot | LParen | LBracket

  /** `falsy`: a number or string token whose value converts to false; `from` and `character`: the columns
      where the token starts and ends. */
  datatype Token = Token(id: Id, value: string, falsy: bool, from: nat, character: nat)

  type Lexeme = t: Token | !t.id.End? witness Token(Begin, "", false, 0, 0)

  const BEGIN: Lexeme := Token(Begin, "(begin)", false, 0, 0)
  const END := Token(End, "", false, 0, 0)

  /** What a routine of the linter does to its caller: return, or throw out of the whole run, either because
      of an error or because the limit on warnings was met. */
  datatype Outcome = Done | Failed | TooMany {
    predicate IsFailure() {
      !Done?
    }

    function PropagateFailure(): Outcome
      requires IsFailure()
    {
      this
    }
  }

  /** The tokens of `raw` that `advance` delivers: everything up to the end marker except line ends. */
  function Significant(raw: seq<Token>): seq<Token> {
    if raw == [] || raw[0].id.End? then []
    else if raw[0].id.EndLine? then Significant(raw[1..])
    else [raw[0]] + Significant(raw[1..])
  }

  /** The `i`th token the lexer will produce; it produces end markers for ever once the text is used up. */
  function Ahead(raw: seq<Token>, i: nat): Token {
    if i < |raw| then raw[i] else END
  }

  datatype List<+T> = Nil | Cons(head: T, tail: List<T>)

  function Length<T>(list: List<T>): nat {
    if list.Nil? then 0 else 1 + Length(list.tail)
  }

  /** The same tokens as a linked list, the form in which the grammars read them. */
  function Listed<T>(s: seq<T>): (list: List<T>)
    ensures Length(list) == |s|
  {
    if s == [] then Nil else Cons(s[0], Listed(s[1..]))
  }

  lemma SignificantStep(t: Token, left: seq<Token>)
    ensures Significant([]) == []
    ensures Significant([t] + left) ==
            if t.id.End? then [] else if t.id.EndLine? then Significant(left) else [t] + Significant(left)
  {
    assert ([t] + left)[1..] == left;
  }

  lemma ListedStep(s: seq<Token>, n: nat, t: Token, left: seq<Token>)
    requires n <= |s| && s[n..] == [t] + left
    ensures n < |s| && s[n] == t && s[n + 1..] == left
    ensures Listed(s[n..]) == Cons(t, Listed(left))
  {
    assert s[n..][1..] == left;
  }

  lemma ListedEmpty(s: seq<Token>, n: nat)
    requires n <= |s| && s[n..] == []
    ensures Listed(s[n..]) == Nil
  {
  }

  /** Lexing on from either gives the same tokens for ever. */
  ghost predicate SameAhead(raw: seq<Token>, raw': seq<Token>) {
    forall i: nat :: Ahead(raw, i) == Ahead(raw', i)
  }

  lemma SameAheadGrows(raw: seq<Token>, raw': seq<Token>)
    requires SameAhead(raw, raw')
    ensures SameAhead(raw + [END], raw') && Significant(raw + [END]) == Significant(raw)
  {
    SignificantOfPadding(raw, [END]);
  }

  /** Two neighbours that `advance` warns about: `1.`, `--`, `++` and the like. */
  predicate Confusing(a: Token, b: Token) {
    || (a.id.Number? && b.id.Dot?)
    || (a.id.Minus? && (b.id.Minus? || b.id.Decr?))
    || (a.id.Plus? && (b.id.Plus? || b.id.Incr?))
  }

  /** How many adjacent pairs of `s` are confusing. */
  function Confusions(s: seq<Token>): nat {
    if |s| < 2 then 0
    else Confusions(s[..|s| - 1]) + if Confusing(s[|s| - 2], s[|s| - 1]) then 1 else 0
  }

  lemma ConfusionsGrow(s: seq<Token>, n: nat)
    requires n < |s|
    ensures Confusions(s[..n + 1]) == Confusions(s[..n]) + if n > 0 && Confusing(s[n - 1], s[n]) then 1 else 0
  {
    assert s[..n + 1][..n] == s[..n];
  }

  lemma {:induction false} ConfusionsOfPrefix(s: seq<Token>, n: nat)
    requires n <= |s|
    ensures Confusions(s[..n]) <= Confusions(s)
    decreases |s|
  {
    if n == |s| {
      assert s[..n] == s;
    } else {
      assert s[..|s| - 1][..n] == s[..n];
      ConfusionsOfPrefix(s[..|s| - 1], n);
    }
  }

  lemma {:induction false} CalmWhenNoPairConfuses(s: seq<Token>)
    requires forall i {:trigger s[i]} :: 0 <= i < |s| - 1 ==> !Confusing(s[i], s[i + 1])
    ensures Confusions(s) == 0
  {
    if |s| >= 2 {
      var t := s[..|s| - 1];
      forall i {:trigger t[i]} | 0 <= i < |t| - 1
        ensures !Confusing(t[i], t[i + 1])
      {
        assert t[i] == s[i];
      }
      CalmWhenNoPairConfuses(t);
      assert s[|s| - 2] == t[|t| - 1];
    }
  }

  ghost predicate AllEnds(s: seq<Token>) {
    s == [] || (s[0].id.End? && AllEnds(s[1..]))
  }

  /** Once an end marker appears, only end markers follow, and they appear only when `dry`. */
  ghost predicate EndsLast(s: seq<Token>, dry: bool) {
    s == [] || if s[0].id.End? then dry && AllEnds(s) else EndsLast(s[1..], dry)
  }

  lemma {:induction false} EndsLastGrows(s: seq<Token>, dry: bool, t: Token, dry': bool)
    requires EndsLast(s, dry) && (dry ==> dry' && t.id.End?) && (t.id.End? ==> dry')
    ensures EndsLast(s + [t], dry')
    ensures AllEnds(s) && t.id.End? ==> AllEnds(s + [t])
    decreases s
  {
    if s != [] {
      assert (s + [t])[1..] == s[1..] + [t];
      if s[0].id.End? {
        assert EndsLast(s[1..], dry) by {
          assert AllEnds(s[1..]);
        }
      }
      EndsLastGrows(s[1..], dry, t, dry');
    }
  }

  ghost predicate Calm(text: List<Token>) {
    text.Cons? && text.tail.Cons? ==> !Confusing(text.head, text.tail.head) && Calm(text.tail)
  }

  lemma {:induction false} CalmListed(s: seq<Token>, i: nat)
    requires Calm(Listed(s)) && i < |s| - 1
    ensures !Confusing(s[i], s[i + 1])
  {
    if i == 0 {
      assert Listed(s).tail == Listed(s[1..]) && Listed(s[1..]).head == s[1];
    } else {
      CalmListed(s[1..], i - 1);
    }
  }

  lemma {:induction false} SignificantOfPadding(raw: seq<Token>, pad: seq<Token>)
    requires AllEnds(pad)
    ensures Significant(raw + pad) == Significant(raw)
  {
    if raw == [] {
      assert raw + pad == pad;
    } else {
      assert (raw + pad)[1..] == raw[1..] + pad;
      SignificantOfPadding(raw[1..], pad);
    }
  }
}

module TokenPump {
  import opened Tokens

  class Pump {
    const stream: seq<Lexeme>   // what the lexer makes of the text
    const passfail: bool        // the option that stops at the first warning
    var position: nat           // how many tokens the lexer has produced
    var lookahead: seq<Token>
    var prevtoken: Token
    var token: Token
    var nexttoken: Token
    var warnings: nat

    ghost const whole: seq<Token> // all that is ever to be delivered
    ghost var delivered: nat      // how much of it was advanced over
    ghost var input: List<Token>  // what is left of it, `nexttoken` first
    ghost var faults: nat         // the warnings not due to confusing neighbours

    /** Queued for `advance`, then not yet produced. */
    ghost function Raw(): seq<Token>
      reads this
      requires position <= |stream|
    {
      lookahead + stream[position..]
    }

    /** The tokens still to be advanced over, as the fields hold them. */
    ghost function Rest(): seq<Token>
      reads this
      requires position <= |stream|
    {
      if nexttoken.id.End? then [] else [nexttoken] + Significant(Raw())
    }

    /** End markers are queued only once the lexer has run dry, and nothing else follows them. */
    ghost predicate Ready()
      reads this
    {
      position <= |stream| && EndsLast(lookahead, position == |stream|)
    }

    /** There is nothing left but end markers. */
    ghost predicate Dry()
      reads this
    {
      position == |stream| && AllEnds(lookahead)
    }

    /** Delivered and undelivered tokens always make up the whole text, in order. */
    ghost predicate Shape()
      reads this
    {
      && Ready()
      && !nexttoken.id.EndLine?
      && (nexttoken.id.End? ==> Dry())
      && whole == [BEGIN] + Significant(stream)
      && delivered <= |whole|
      && Rest() == whole[delivered..] && input == Listed(whole[delivered..])
      && (if delivered == 0 then token == BEGIN else token == whole[delivered - 1] || (nexttoken.id.End? && token.id.End?))
    }

    /** `nexttoken` is what the grammar routines read next. */
    ghost predicate Facing()
      reads this
    {
      if nexttoken.id.End? then input.Nil? else input.Cons? && input.head == nexttoken
    }

    ghost predicate Valid()
      reads this
      ensures Valid() ==> Facing()
    {
      Facing() && Shape() && warnings == faults + Confusions(whole[..delivered])
    }

    /** Valid but for the warning about `token` and `nexttoken`, which has been given already. */
    ghost predicate Warned()
      reads this
    {
      && Facing() && Shape()
      && warnings == faults + Confusions(whole[..delivered]) + if Confusing(token, nexttoken) then 1 else 0
    }

    constructor (stream: seq<Lexeme>, passfail: bool)
      ensures Valid()
      ensures this.stream == stream && this.passfail == passfail && warnings == 0 && faults == 0
      ensures whole == [BEGIN] + Significant(stream) && delivered == 0
      ensures nexttoken == token == BEGIN && input == Cons(BEGIN, Listed(Significant(stream)))
    {
      this.stream, this.passfail := stream, passfail;
      position, lookahead, warnings := 0, [], 0;
      prevtoken, token, nexttoken := BEGIN, BEGIN, BEGIN;
      whole, delivered, faults := [BEGIN] + Significant(stream), 0, 0;
      input := Cons(BEGIN, Listed(Significant(stream)));
      new;
      hide Significant, Listed, AllEnds;
      assert [] + stream[0..] == stream;
      ListedStep(whole, 0, BEGIN, Significant(stream));
    }

    /** The lexer. */
    method Lex() returns (t: Token)
      requires position <= |stream|
      modifies this`position
      ensures if old(position) < |stream|
              then t == stream[old(position)] && position == old(position) + 1
              else t == END && position == old(position)
      ensures stream[old(position)..] == (if old(position) < |stream| then [t] else []) + stream[position..]
    {
      if position < |stream| {
        t := stream[position];
        position := position + 1;
      } else {
        t := END;
      }
    }

    /** Queues one more token of the lexer's; only a dry lexer makes the raw view longer, by an end marker. */
    method Queue() returns (t: Token)
      requires Ready()
      modifies this`position, this`lookahead
      ensures Ready() && (old(Dry()) ==> Dry())
      ensures lookahead == old(lookahead) + [t]
      ensures Raw() == old(Raw()) || Raw() == old(Raw()) + [END]
    {
      ghost var dry := position == |stream|;
      t := Lex();
      EndsLastGrows(lookahead, dry, t, position == |stream|);
      lookahead := lookahead + [t];
    }

    /** Looking ahead delivers nothing: what is left to advance over stays the same. */
    method Peek(p: nat) returns (t: Token)
      requires Valid()
      modifies this`position, this`lookahead
      ensures Valid()
      ensures t == Ahead(old(Raw()), p)
      ensures SameAhead(Raw(), old(Raw()))
    {
      var j := 0;
      ghost var raw := Raw();
      t := END;
      while j <= p
        invariant j <= p + 1 && j <= |lookahead| && Ready() && (nexttoken.id.End? ==> Dry())
        invariant SameAhead(Raw(), raw) && Significant(Raw()) == Significant(raw)
        invariant j > 0 ==> t == Ahead(raw, j - 1)
      {
        if j < |lookahead| {
          t := lookahead[j];
        } else {
          SameAheadGrows(Raw(), raw);
          t := Queue();
        }
        assert t == Ahead(Raw(), j);
        j := j + 1;
      }
    }

    /** `lookahead.shift() || lex.token()` */
    method Shift() returns (t: Token)
      requires Ready()
      modifies this`position, this`lookahead
      ensures Ready() && (t.id.End? ==> Dry())
      ensures if old(Raw()) == [] then t == END && Raw() == [] else old(Raw()) == [t] + Raw()
    {
      if lookahead != [] {
        assert Raw() == [lookahead[0]] + (lookahead[1..] + stream[position..]);
        t := lookahead[0];
        assert t.id.End? ==> AllEnds(lookahead[1..]);
        assert EndsLast(lookahead[1..], position == |stream|);
        lookahead := lookahead[1..];
      } else {
        t := Lex();
      }
    }

    /** Refills `nexttoken`, skipping line ends. */
    method Pull()
      requires Ready() && !nexttoken.id.EndLine? && (nexttoken.id.End? ==> Dry())
      modifies this`nexttoken, this`position, this`lookahead
      ensures Ready() && !nexttoken.id.EndLine? && (nexttoken.id.End? ==> Dry())
      ensures Rest() == Significant(old(Raw()))
    {
      hide Significant, EndsLast, AllEnds;
      ghost var raw := Raw();
      SignificantStep(END, []);
      nexttoken := Shift();
      SignificantStep(nexttoken, Raw());
      while nexttoken.id.EndLine?
        invariant Ready() && (nexttoken.id.End? ==> Dry())
        invariant Significant(raw) == if nexttoken.id.EndLine? then Significant(Raw()) else Rest()
        decreases |Raw()|, nexttoken.id.EndLine?
      {
        nexttoken := Shift();
        SignificantStep(nexttoken, Raw());
      }
    }

    /** The warnings so far are the faults and, at most, the confusing neighbours of the whole text. */
    ghost predicate Bounded()
      reads this
    {
      warnings <= faults + Confusions(whole)
    }

    /** `warning`: counts, and throws when there are too many. */
    method Count() returns (r: Outcome)
      modifies this`warnings
      ensures warnings == old(warnings) + 1
      ensures r == if passfail || warnings == 50 then TooMany else Done
    {
      warnings := warnings + 1;
      r := if passfail || warnings == 50 then TooMany else Done;
    }

    /** `warning`, called by a grammar routine. */
    method Warning() returns (r: Outcome)
      requires Valid()
      modifies this`warnings, this`faults
      ensures Bounded() && warnings > 0 && faults == old(faults) + 1 && Valid()
      ensures r == if passfail || warnings == 50 then TooMany else Done
    {
      r := Count();
      faults := faults + 1;
      ValidIsBounded();
    }

    /** `error`: a warning after which the run stops. */
    method Fail() returns (r: Outcome)
      requires Valid()
      modifies this`warnings, this`faults
      ensures Bounded() && warnings > 0 && faults == old(faults) + 1
      ensures r == if passfail || warnings == 50 then TooMany else Failed
    {
      hide Valid, Bounded;
      r := Warning();
      r := if r.TooMany? then TooMany else Failed;
    }

    /** Delivers exactly one significant token, in order, whatever was looked at before. `expected` tells whether
        `nexttoken` has the id that the call asks for, if it asks for one. */
    method Advance(expected: bool) returns (r: Outcome)
      requires Valid()
      modifies this
      ensures if r.Done? then Valid() else r.TooMany? && warnings > 0 && Bounded()
      ensures r.Done? ==> input == (if old(input).Nil? then Nil else old(input).tail)
      ensures r.Done? ==> token == old(nexttoken) && prevtoken == old(token)
      ensures r.Done? ==> delivered == old(delivered) + if old(input).Nil? then 0 else 1
      ensures if expected then faults == old(faults) else r.TooMany? || faults == old(faults) + 1
      ensures old(faults) <= faults
      ensures expected && old(delivered) == 0 ==> r.Done?
    {
      hide Valid, Warned, Bounded, Facing;
      :- Complain(expected);
      Deliver();
      r := Done;
    }

    lemma ValidIsBounded()
      requires Valid()
      ensures Bounded()
    {
      ConfusionsOfPrefix(whole, delivered);
    }

    /** The next token's confusions, too, are among those of the whole text. */
    lemma WarnedIsBounded()
      requires Shape()
      requires warnings <= faults + Confusions(whole[..delivered]) + if Confusing(token, nexttoken) then 1 else 0
      ensures Bounded()
    {
      if Confusing(token, nexttoken) {
        ConfusionsGrow(whole, delivered);
        ConfusionsOfPrefix(whole, delivered + 1);
      } else {
        ConfusionsOfPrefix(whole, delivered);
      }
    }

    /** The warnings of `advance`. */
    method Complain(expected: bool) returns (r: Outcome)
      requires Valid()
      modifies this`warnings, this`faults
      ensures if r.Done? then Warned() else r.TooMany? && warnings > 0 && Bounded()
      ensures if expected then faults == old(faults) else r.TooMany? || faults == old(faults) + 1
      ensures old(faults) <= faults
      ensures expected && delivered == 0 ==> r.Done?
    {
      hide Significant, Confusions, EndsLast, AllEnds, Listed;
      var next := nexttoken.id;
      var confusing := match token.id
        case Number => next.Dot?
        case Minus => next.Minus? || next.Decr?
        case Plus => next.Plus? || next.Incr?
        case _ => false;
      if confusing {
        r := Count();
        WarnedIsBounded();
        :- r;
      }
      if !expected {
        faults := faults + 1;
        r := Count();
        WarnedIsBounded();
        :- r;
      }
      r := Done;
    }

    /** Moves the window over the tokens one place on. */
    method Deliver()
      requires Warned()
      modifies this`prevtoken, this`token, this`nexttoken, this`position, this`lookahead, this`delivered, this`input
      ensures Valid()
      ensures input == (if old(input).Nil? then Nil else old(input).tail)
      ensures token == old(nexttoken) && prevtoken == old(token)
      ensures delivered == old(delivered) + if old(input).Nil? then 0 else 1
    {
      hide Significant, Confusions, EndsLast, AllEnds, Listed;
      ghost var left := Significant(Raw());
      prevtoken := token;
      token := nexttoken;
      if nexttoken.id.End? {
        DryIsEmpty();
      } else {
        ListedStep(whole, delivered, nexttoken, left);
        ConfusionsGrow(whole, delivered);
        delivered := delivered + 1;
        input := input.tail;
      }
      Pull();
      if !nexttoken.id.End? {
        ListedStep(whole, delivered, nexttoken, Significant(Raw()));
      } else {
        ListedEmpty(whole, delivered);
      }
    }

    /** `nexttoken` is the next token to be delivered. */
    lemma FacesNext()
      requires Valid()
      ensures if delivered < |whole| then input.Cons? && nexttoken == whole[delivered]
              else delivered == |whole| && input.Nil? && nexttoken.id.End?
    {
      if delivered < |whole| {
        ListedStep(whole, delivered, whole[delivered], whole[delivered + 1..]);
      } else {
        ListedEmpty(whole, delivered);
      }
    }

    lemma DryIsEmpty()
      requires Dry()
      ensures Significant(Raw()) == []
    {
    }
  }

  /** A call of the grammar routines: to look ahead, or to advance. */
  datatype Call = Look(distance: nat) | Step

  /** How many tokens the calls advance over. */
  function Steps(calls: seq<Call>): nat {
    if calls == [] then 0 else Steps(calls[..|calls| - 1]) + if calls[|calls| - 1].Step? then 1 else 0
  }

  /** However looking ahead and advancing alternate, the tokens delivered are the significant ones, in order, and then
      end markers. */
  method Alternate(p: Pump, calls: seq<Call>) returns (r: Outcome, seen: seq<Token>)
    requires p.Valid() && p.delivered == 0
    modifies p
    ensures forall i | 0 <= i < |seen| :: if i < |p.whole| then seen[i] == p.whole[i] else seen[i].id.End?
    ensures if r.Done? then |seen| == Steps(calls) else r.TooMany?
  {
    hide Pump.Valid, Pump.Bounded, Pump.Shape, Pump.Ready, Pump.Dry;
    seen := [];
    var i := 0;
    while i < |calls|
      invariant 0 <= i <= |calls| && p.Valid() && |seen| == Steps(calls[..i])
      invariant p.delivered == if |seen| < |p.whole| then |seen| else |p.whole|
      invariant forall k | 0 <= k < |seen| :: if k < |p.whole| then seen[k] == p.whole[k] else seen[k].id.End?
    {
      assert calls[..i + 1][..i] == calls[..i];
      match calls[i] {
        case Look(distance) =>
          var t := p.Peek(distance);
        case Step =>
          p.FacesNext();
          var next := p.nexttoken;
          :- p.Advance(true);
          seen := seen + [next];
      }
      i := i + 1;
    }
    assert calls[..|calls|] == calls;
    r := Done;
  }
}
