/**
 The linter's expression parser: a precedence parser driven by the binding powers and handlers of the symbol
 table, proved to accept exactly the trees that respect those powers.
*/
module OperatorTable {
  import opened Tokens

  /** Left binding power. A name that is declared twice keeps its first power, so `+` stays at 130 and `(` at 155
      when they become prefixes too, and the pure prefixes have 150 although nothing may follow an operand there. */
  function Lbp(id: Id): nat {
    match id
    case Assign | AssignAdd | AssignSub | AssignMult | AssignDiv | AssignMod
       | AssignBitAnd | AssignBitOr | AssignBitXor | AssignShl | AssignShr | AssignUshr => 20
    case Question => 30
    case Or => 40
    case And => 50
    case BitOr => 70
    case BitXor => 80
    case BitAnd => 90
    case Eq | EqEqEq | NotEq | NotEqEq | Less | Greater | LessEq | GreaterEq => 100
    case Shl | Shr | Ushr | In | InstanceOf => 120
    case Plus | Minus => 130
    case Times | Divide | Modulo => 140
    case Incr | Decr | Delete | Tilde | Not | Typeof | New => 150
    case LParen => 155
    case Dot | LBracket => 160
    case _ => 0
  }

  /** What a token does when it starts an expression: stand for itself, or take an operand parsed with a power. */
  datatype Nud = NoNud | Itself | Operand(power: nat) | Group | List

  function NudOf(id: Id): Nud {
    match id
    case Number | String | Regexp | Identifier
       | Arguments | Eval | False | Infinity | NaN | Null | This | True | Undefined => Itself
    case Plus | Minus | Incr | Decr | Tilde | Not | Typeof => Operand(150)
    case Delete => Operand(0)
    case New => Operand(155)
    case LParen => Group
    case LBracket => List
    case _ => NoNud
  }

  /** What a token does to the expression on its left. */
  datatype Led = NoLed | Binary(power: nat) | Choice | Postfix | Member | Call | Index

  function LedOf(id: Id): Led {
    match id
    case Assign | AssignAdd | AssignSub | AssignMult | AssignDiv | AssignMod
       | AssignBitAnd | AssignBitOr | AssignBitXor | AssignShl | AssignShr | AssignUshr => Binary(19)
    case Or | And | BitOr | BitXor | BitAnd
       | Eq | EqEqEq | NotEq | NotEqEq | Less | Greater | LessEq | GreaterEq
       | Shl | Shr | Ushr | In | InstanceOf | Plus | Minus | Times | Divide | Modulo => Binary(Lbp(id))
    case Question => Choice
    case Incr | Decr => Postfix
    case Dot => Member
    case LParen => Call
    case LBracket => Index
    case _ => NoLed
  }

  predicate IsAssign(id: Id) {
    id.Assign? || id.AssignAdd? || id.AssignSub? || id.AssignMult? || id.AssignDiv? || id.AssignMod?
  }

  predicate IsBitAssign(id: Id) {
    || id.AssignBitAnd? || id.AssignBitOr? || id.AssignBitXor?
    || id.AssignShl? || id.AssignShr? || id.AssignUshr?
  }

  predicate Reserved(id: Id) {
    || id.Arguments? || id.Eval? || id.False? || id.Infinity? || id.NaN? || id.Null? || id.This? || id.True?
    || id.Undefined? || id.Word? || id.Function? || id.In? || id.InstanceOf? || id.Delete? || id.Typeof? || id.New?
  }

  /** What `identifier` takes without complaint. */
  predicate Names(t: Token) {
    t.id.Identifier? || (Reserved(t.id) && t.value == "arguments")
  }

  // The nodes the handlers build.

  /** The token object a handler returns, with the nodes it hung on it; several handlers return nothing. */
  datatype Node = Nothing | Node(t: Token, kids: seq<Node>)

  predicate IsName(n: Node) {
    n.Node? && n.t.id.Identifier?
  }

  /** `left.id` is `.` or `[`, and the node has something on its left. */
  predicate IsPlace(n: Node) {
    n.Node? && (n.t.id.Dot? || n.t.id.LBracket?)
  }

  /** `left.left` is a token. */
  predicate HasBase(n: Node) {
    n.Node? && |n.kids| > 0 && n.kids[0].Node?
  }

  predicate IsNaN(n: Node) {
    n.Node? && n.t.id.NaN?
  }

  /** Operands that `==` and `!=` ask to be compared with `===` instead. */
  predicate IsPoorRelation(n: Node)
    requires n.Node?
  {
    || ((n.t.id.Number? || n.t.id.String?) && n.t.falsy)
    || n.t.id.True? || n.t.id.False? || n.t.id.Undefined? || n.t.id.Null?
  }

  /** A handler's requirements on its operands. An assignment wants a name, or a place in something that is not called
      `arguments`; `==` and `!=` look into their operands. A missing node there is an exception. */
  predicate Operands(op: Token, left: Node, right: Node) {
    if IsAssign(op.id) then IsName(left) || (IsPlace(left) && HasBase(left) && left.kids[0].t.value != "arguments")
    else if IsBitAssign(op.id) then IsName(left) || IsPlace(left)
    else if op.id.Eq? || op.id.NotEq? then
      IsNaN(left) || IsNaN(right) || (left.Node? && (IsPoorRelation(left) || right.Node?))
    else true
  }

  /** What the handler of a binary operator returns. */
  function BinaryNode(op: Token, left: Node, right: Node): Node {
    if IsBitAssign(op.id) then left
    else if op.id.Plus? && left.Node? && right.Node? && left.t.id.String? && right.t.id.String? then
      Node(left.t.(value := left.t.value + right.t.value, falsy := left.t.falsy && right.t.falsy,
                   character := right.t.character), left.kids)
    else Node(op, [left, right])
  }

  /** What the handler of a prefix operator returns. */
  function UnaryNode(op: Token, right: Node): Node {
    if op.id.Delete? then Nothing
    else if op.id.Tilde? then Node(op, [])
    else Node(op, [right])
  }
}

module ExpressionGrammar {
  import opened Tokens
  import opened OperatorTable

  type Text = List<Token>

  /** A concrete syntax tree: an expression with all its tokens. */
  datatype Expr =
    | Leaf(t: Token)
    | Unary(op: Token, right: Expr)
    | Paren(open: Token, inner: Expr, close: Token)
    | ArrayLit(open: Token, items: Items, close: Token)
    | Infix(left: Expr, op: Token, right: Expr)
    | Conditional(left: Expr, question: Token, yes: Expr, colon: Token, no: Expr)
    | Suffix(left: Expr, op: Token)
    | Dotted(left: Expr, dot: Token, name: Token)
    | Invoke(left: Expr, open: Token, items: Items, close: Token)
    | Subscript(left: Expr, open: Token, inner: Expr, close: Token)

  datatype Items = NoItems | LastItem(e: Expr) | MoreItems(e: Expr, comma: Token, rest: Items)

  /** The tokens of `e`, in order, followed by `k`. */
  function Yield(e: Expr, k: Text): Text {
    match e
    case Leaf(t) => Cons(t, k)
    case Unary(op, right) => Cons(op, Yield(right, k))
    case Paren(open, inner, close) => Cons(open, Yield(inner, Cons(close, k)))
    case ArrayLit(open, items, close) => Cons(open, ItemsYield(items, Cons(close, k)))
    case Infix(left, op, right) => Yield(left, Cons(op, Yield(right, k)))
    case Conditional(left, question, yes, colon, no) =>
      Yield(left, Cons(question, Yield(yes, Cons(colon, Yield(no, k)))))
    case Suffix(left, op) => Yield(left, Cons(op, k))
    case Dotted(left, dot, name) => Yield(left, Cons(dot, Cons(name, k)))
    case Invoke(left, open, items, close) => Yield(left, Cons(open, ItemsYield(items, Cons(close, k))))
    case Subscript(left, open, inner, close) => Yield(left, Cons(open, Yield(inner, Cons(close, k))))
  }

  function ItemsYield(items: Items, k: Text): Text {
    match items
    case NoItems => k
    case LastItem(e) => Yield(e, k)
    case MoreItems(e, comma, rest) => Yield(e, Cons(comma, ItemsYield(rest, k)))
  }

  /** The node the handlers make of `e`. Parentheses, the operands of calls and of `~`, and the right side of a
      compound bitwise assignment leave no trace in it; array literals and `delete` leave no node at all. */
  function NodeOf(e: Expr): Node {
    match e
    case Leaf(t) => Node(t, [])
    case Unary(op, right) => UnaryNode(op, NodeOf(right))
    case Paren(_, inner, _) => NodeOf(inner)
    case ArrayLit(_, _, _) => Nothing
    case Infix(left, op, right) => BinaryNode(op, NodeOf(left), NodeOf(right))
    case Conditional(left, question, yes, _, no) => Node(question, [NodeOf(left), NodeOf(yes), NodeOf(no)])
    case Suffix(left, op) => Node(op, [NodeOf(left)])
    case Dotted(left, dot, name) => Node(dot, [NodeOf(left), Node(name, [])])
    case Invoke(left, open, _, _) => Node(open, [NodeOf(left)])
    case Subscript(left, open, inner, _) => Node(open, [NodeOf(left), NodeOf(inner)])
  }

  /** No operand at the right edge of `e` would take in a following token of power `p`. */
  ghost predicate Closes(e: Expr, p: nat) {
    match e
    case Unary(op, right) => NudOf(op.id).Operand? && p <= NudOf(op.id).power && Closes(right, p)
    case Infix(_, op, right) => LedOf(op.id).Binary? && p <= LedOf(op.id).power && Closes(right, p)
    case Conditional(_, _, _, _, no) => p <= 10 && Closes(no, p)
    case _ => true
  }

  /** `e` respects the table: it may be parsed where only operators binding tighter than `rbp` are taken in. An
      operator takes as its left operand everything before it that closes under its power, and as its right
      operand what binds tighter than its own right power. */
  ghost predicate Binds(e: Expr, rbp: nat)
    decreases e, 0
  {
    match e
    case Leaf(t) => NudOf(t.id).Itself?
    case Unary(op, right) => NudOf(op.id).Operand? && Binds(right, NudOf(op.id).power)
    case Paren(open, inner, close) => NudOf(open.id).Group? && close.id.RParen? && Binds(inner, 0)
    case ArrayLit(open, items, close) => NudOf(open.id).List? && close.id.RBracket? && ItemsBind(items)
    case Infix(left, op, right) =>
      && LedOf(op.id).Binary? && LeftBinds(left, op, rbp) && Binds(right, LedOf(op.id).power)
      && Operands(op, NodeOf(left), NodeOf(right))
    case Conditional(left, question, yes, colon, no) =>
      && LedOf(question.id).Choice? && colon.id.Colon?
      && LeftBinds(left, question, rbp) && Binds(yes, 10) && Binds(no, 10)
    case Suffix(left, op) => LedOf(op.id).Postfix? && LeftBinds(left, op, rbp)
    case Dotted(left, dot, name) => LedOf(dot.id).Member? && LeftBinds(left, dot, rbp) && Names(name)
    case Invoke(left, open, items, close) =>
      LedOf(open.id).Call? && close.id.RParen? && LeftBinds(left, open, rbp) && ItemsBind(items)
    case Subscript(left, open, inner, close) =>
      LedOf(open.id).Index? && close.id.RBracket? && LeftBinds(left, open, rbp) && Binds(inner, 0)
  }

  ghost predicate LeftBinds(left: Expr, op: Token, rbp: nat)
    decreases left, 1
  {
    rbp < Lbp(op.id) && Binds(left, rbp) && Closes(left, Lbp(op.id))
  }

  ghost predicate ItemsBind(items: Items)
    decreases items, 0
  {
    match items
    case NoItems => true
    case LastItem(e) => Binds(e, 10)
    case MoreItems(e, comma, rest) => Binds(e, 10) && comma.id.Comma? && !rest.NoItems? && ItemsBind(rest)
  }

  // The parser, on the tokens still to come.

  datatype Parsed = Stuck | Got(e: Expr, rest: Text)
  datatype ParsedItems = BadItems | GotItems(items: Items, rest: Text)

  function Next(text: Text): Id {
    if text.Nil? then End else text.head.id
  }

  /** `parse(rbp)` */
  function Parse(rbp: nat, text: Text): (r: Parsed)
    ensures r.Got? ==> Length(r.rest) < Length(text)
    decreases Length(text), 0
  {
    if text.Nil? then Stuck
    else
      var first := Prefix(text.head, text.tail);
      if first.Got? then Continue(rbp, first.e, first.rest) else Stuck
  }

  /** The loop of `parse`, with the expression read so far. */
  function Continue(rbp: nat, left: Expr, text: Text): (r: Parsed)
    ensures r.Got? ==> Length(r.rest) <= Length(text)
    decreases Length(text), 0
  {
    if Lbp(Next(text)) <= rbp then Got(left, text)
    else
      var more := Extend(left, text.head, text.tail);
      if more.Got? then Continue(rbp, more.e, more.rest) else Stuck
  }

  /** The `nud` of `t`. */
  function Prefix(t: Token, text: Text): (r: Parsed)
    ensures r.Got? ==> Length(r.rest) <= Length(text)
    decreases Length(text), 2
  {
    match NudOf(t.id)
    case NoNud => Stuck
    case Itself => Got(Leaf(t), text)
    case Operand(power) =>
      var right := Parse(power, text);
      if right.Got? then Got(Unary(t, right.e), right.rest) else Stuck
    case Group =>
      var inner := Parse(0, text);
      if inner.Got? && Next(inner.rest).RParen? then Got(Paren(t, inner.e, inner.rest.head), inner.rest.tail) else Stuck
    case List =>
      if Next(text).RBracket? then Got(ArrayLit(t, NoItems, text.head), text.tail)
      else
        var list := ParseItems(text);
        if list.GotItems? && Next(list.rest).RBracket? then
          Got(ArrayLit(t, list.items, list.rest.head), list.rest.tail)
        else Stuck
  }

  /** The `led` of `op`. */
  function Extend(left: Expr, op: Token, text: Text): (r: Parsed)
    ensures r.Got? ==> Length(r.rest) <= Length(text)
    decreases Length(text), 2
  {
    match LedOf(op.id)
    case NoLed => Stuck
    case Binary(power) =>
      var right := Parse(power, text);
      if right.Got? && Operands(op, NodeOf(left), NodeOf(right.e)) then Got(Infix(left, op, right.e), right.rest) else Stuck
    case Choice =>
      var yes := Parse(10, text);
      if yes.Got? && Next(yes.rest).Colon? then
        var no := Parse(10, yes.rest.tail);
        if no.Got? then Got(Conditional(left, op, yes.e, yes.rest.head, no.e), no.rest) else Stuck
      else Stuck
    case Postfix => Got(Suffix(left, op), text)
    case Member => if text.Cons? && Names(text.head) then Got(Dotted(left, op, text.head), text.tail) else Stuck
    case Call =>
      if Next(text).RParen? then Got(Invoke(left, op, NoItems, text.head), text.tail)
      else
        var list := ParseItems(text);
        if list.GotItems? && Next(list.rest).RParen? then
          Got(Invoke(left, op, list.items, list.rest.head), list.rest.tail)
        else Stuck
    case Index =>
      var inner := Parse(0, text);
      if inner.Got? && Next(inner.rest).RBracket? then
        Got(Subscript(left, op, inner.e, inner.rest.head), inner.rest.tail)
      else Stuck
  }

  /** One or more expressions separated by commas. */
  function ParseItems(text: Text): (r: ParsedItems)
    ensures r.GotItems? ==> Length(r.rest) < Length(text) && !r.items.NoItems?
    decreases Length(text), 1
  {
    var first := Parse(10, text);
    if first.Stuck? then BadItems
    else if Next(first.rest).Comma? then
      var more := ParseItems(first.rest.tail);
      if more.GotItems? then GotItems(MoreItems(first.e, first.rest.head, more.items), more.rest) else BadItems
    else GotItems(LastItem(first.e), first.rest)
  }

  // Soundness: what is parsed respects the table and is made of the tokens consumed.

  /** Everything a successful parse guarantees. */
  ghost predicate Reads(e: Expr, rbp: nat, text: Text, rest: Text) {
    && text == Yield(e, rest) && Binds(e, rbp)
    && Closes(e, Lbp(Next(rest))) && Lbp(Next(rest)) <= rbp
  }

  lemma {:induction false} ParseSound(rbp: nat, text: Text)
    requires Parse(rbp, text).Got?
    ensures Reads(Parse(rbp, text).e, rbp, text, Parse(rbp, text).rest)
    decreases Length(text), 0
  {
    var first := Prefix(text.head, text.tail);
    PrefixSound(rbp, text.head, text.tail);
    ContinueSound(rbp, first.e, first.rest);
  }

  lemma {:induction false} ContinueSound(rbp: nat, left: Expr, text: Text)
    requires Continue(rbp, left, text).Got?
    requires Binds(left, rbp) && Closes(left, Lbp(Next(text)))
    ensures Reads(Continue(rbp, left, text).e, rbp, Yield(left, text), Continue(rbp, left, text).rest)
    decreases Length(text), 0
  {
    if rbp < Lbp(Next(text)) {
      var more := Extend(left, text.head, text.tail);
      ExtendSound(rbp, left, text.head, text.tail);
      ContinueSound(rbp, more.e, more.rest);
    }
  }

  lemma {:induction false} PrefixSound(rbp: nat, t: Token, text: Text)
    requires Prefix(t, text).Got?
    ensures var r := Prefix(t, text);
            Cons(t, text) == Yield(r.e, r.rest) && Binds(r.e, rbp) && Closes(r.e, Lbp(Next(r.rest)))
    decreases Length(text), 2
  {
    hide Lbp, LedOf, NudOf, Operands, NodeOf;
    match NudOf(t.id)
    case Operand(power) => ParseSound(power, text);
    case Group => ParseSound(0, text);
    case List =>
      if !Next(text).RBracket? {
        ItemsSound(text);
      }
    case _ =>
  }

  lemma {:induction false} ExtendSound(rbp: nat, left: Expr, op: Token, text: Text)
    requires Extend(left, op, text).Got? && LeftBinds(left, op, rbp)
    ensures var r := Extend(left, op, text);
            Yield(left, Cons(op, text)) == Yield(r.e, r.rest) && Binds(r.e, rbp) && Closes(r.e, Lbp(Next(r.rest)))
    decreases Length(text), 3
  {
    hide Lbp, LedOf, NudOf, Operands, NodeOf;
    if LedOf(op.id).Binary? {
      ParseSound(LedOf(op.id).power, text);
    } else if LedOf(op.id).Choice? {
      ParseSound(10, text);
      ParseSound(10, Parse(10, text).rest.tail);
    } else {
      BracketSound(rbp, left, op, text);
    }
  }

  /** Extensions that end with a token of their own. */
  lemma {:induction false} BracketSound(rbp: nat, left: Expr, op: Token, text: Text)
    requires Extend(left, op, text).Got? && LeftBinds(left, op, rbp) && !LedOf(op.id).Binary? && !LedOf(op.id).Choice?
    ensures var r := Extend(left, op, text);
            Yield(left, Cons(op, text)) == Yield(r.e, r.rest) && Binds(r.e, rbp) && Closes(r.e, Lbp(Next(r.rest)))
    decreases Length(text), 2
  {
    hide Lbp, LedOf, NudOf, Operands, NodeOf, Parse, ParseItems, Continue;
    if LedOf(op.id).Call? {
      if !Next(text).RParen? {
        ItemsSound(text);
      }
    } else if LedOf(op.id).Index? {
      ParseSound(0, text);
    }
  }

  lemma {:induction false} ItemsSound(text: Text)
    requires ParseItems(text).GotItems?
    ensures var r := ParseItems(text); text == ItemsYield(r.items, r.rest) && ItemsBind(r.items)
    decreases Length(text), 1
  {
    ParseSound(10, text);
    var first := Parse(10, text);
    if Next(first.rest).Comma? {
      ItemsSound(first.rest.tail);
    }
  }

  lemma DelimiterPower(id: Id)
    requires id.RParen? || id.RBracket? || id.Colon? || id.Comma? || id.End?
    ensures Lbp(id) == 0
  {
  }

  // Completeness: every tree that respects the table is what its tokens parse to.

  lemma {:induction false} BindsParses(e: Expr, rbp: nat, k: Text)
    requires Binds(e, rbp) && Closes(e, Lbp(Next(k)))
    ensures Parse(rbp, Yield(e, k)) == Continue(rbp, e, k)
    decreases e, 2
  {
    hide Lbp, LedOf, NudOf, Operands, NodeOf;
    match e
    case Leaf(_) =>
    case Unary(op, right) => OperandParses(right, NudOf(op.id).power, k);
    case Paren(_, inner, close) =>
      DelimiterPower(close.id);
      ClosedOperandParses(inner, 0, Cons(close, k));
    case ArrayLit(_, items, close) =>
      DelimiterPower(close.id);
      ItemsParse(items, Cons(close, k));
    case _ => ExtensionParses(e, rbp, k);
  }

  predicate IsExtension(e: Expr) {
    e.Infix? || e.Conditional? || e.Suffix? || e.Dotted? || e.Invoke? || e.Subscript?
  }

  /** What follows the left operand of an extension. */
  function Tail(e: Expr, k: Text): Text
    requires IsExtension(e)
  {
    match e
    case Infix(_, op, right) => Cons(op, Yield(right, k))
    case Conditional(_, question, yes, colon, no) => Cons(question, Yield(yes, Cons(colon, Yield(no, k))))
    case Suffix(_, op) => Cons(op, k)
    case Dotted(_, dot, name) => Cons(dot, Cons(name, k))
    case Invoke(_, open, items, close) => Cons(open, ItemsYield(items, Cons(close, k)))
    case Subscript(_, open, inner, close) => Cons(open, Yield(inner, Cons(close, k)))
  }

  lemma {:induction false} ExtensionParses(e: Expr, rbp: nat, k: Text)
    requires Binds(e, rbp) && Closes(e, Lbp(Next(k))) && IsExtension(e)
    ensures Parse(rbp, Yield(e, k)) == Continue(rbp, e, k)
    decreases e, 1
  {
    hide Lbp, LedOf, NudOf, Operands, NodeOf, Extend;
    BindsParses(e.left, rbp, Tail(e, k));
    TailParses(e, rbp, k);
  }

  lemma {:induction false} TailParses(e: Expr, rbp: nat, k: Text)
    requires Binds(e, rbp) && Closes(e, Lbp(Next(k))) && IsExtension(e)
    ensures Extend(e.left, Tail(e, k).head, Tail(e, k).tail) == Got(e, k)
    decreases e, 0
  {
    hide Lbp, LedOf, NudOf, Operands, NodeOf;
    match e
    case Infix(_, op, right) => OperandParses(right, LedOf(op.id).power, k);
    case Conditional(_, _, yes, colon, no) =>
      DelimiterPower(colon.id);
      ClosedOperandParses(yes, 10, Cons(colon, Yield(no, k)));
      OperandParses(no, 10, k);
    case Suffix(_, _) =>
    case Dotted(_, _, _) =>
    case Invoke(_, _, items, close) =>
      DelimiterPower(close.id);
      ItemsParse(items, Cons(close, k));
    case Subscript(_, _, inner, close) =>
      DelimiterPower(close.id);
      ClosedOperandParses(inner, 0, Cons(close, k));
  }

  lemma {:induction false} OperandParses(e: Expr, rbp: nat, k: Text)
    requires Binds(e, rbp) && Closes(e, Lbp(Next(k))) && Lbp(Next(k)) <= rbp
    ensures Parse(rbp, Yield(e, k)) == Got(e, k)
    decreases e, 3
  {
    BindsParses(e, rbp, k);
  }

  lemma {:induction false} ClosedOperandParses(e: Expr, rbp: nat, k: Text)
    requires Binds(e, rbp) && Lbp(Next(k)) == 0
    ensures Parse(rbp, Yield(e, k)) == Got(e, k)
    decreases e, 4
  {
    ClosesUnderZero(e, rbp);
    OperandParses(e, rbp, k);
  }

  /** A token of power 0, such as a closing bracket, a comma or the end, ends every operand. */
  lemma ClosesUnderZero(e: Expr, rbp: nat)
    requires Binds(e, rbp)
    ensures Closes(e, 0)
  {
  }

  lemma {:induction false} ItemsParse(items: Items, k: Text)
    requires ItemsBind(items) && Lbp(Next(k)) == 0 && !Next(k).Comma?
    ensures !items.NoItems? ==> ParseItems(ItemsYield(items, k)) == GotItems(items, k)
    ensures !items.NoItems? ==> !Next(ItemsYield(items, k)).RParen? && !Next(ItemsYield(items, k)).RBracket?
    decreases items, 5
  {
    match items
    case NoItems =>
    case LastItem(e) =>
      ClosedOperandParses(e, 10, k);
      OperandStart(e, 10, k);
    case MoreItems(e, comma, rest) =>
      ClosedOperandParses(e, 10, Cons(comma, ItemsYield(rest, k)));
      OperandStart(e, 10, Cons(comma, ItemsYield(rest, k)));
      ItemsParse(rest, k);
  }

  /** Expressions start with a token that has a prefix handler. */
  lemma {:induction false} OperandStart(e: Expr, rbp: nat, k: Text)
    requires Binds(e, rbp)
    ensures Yield(e, k).Cons? && !NudOf(Next(Yield(e, k))).NoNud?
    decreases e
  {
    if IsExtension(e) {
      OperandStart(e.left, rbp, Tail(e, k));
    }
  }

  /** `parse(rbp)` returns `e` and leaves `k` exactly when the text is the tokens of `e` and then `k`, `e` respects
      the table, and the token after it neither binds tighter than `rbp` nor belongs to an operand at its edge. */
  lemma ParsesExactlyTheTable(rbp: nat, text: Text, e: Expr, k: Text)
    ensures Parse(rbp, text) == Got(e, k) <==> Reads(e, rbp, text, k)
  {
    if Parse(rbp, text) == Got(e, k) {
      ParseSound(rbp, text);
    }
    if Reads(e, rbp, text, k) {
      OperandParses(e, rbp, k);
    }
  }

  /** No text parses to two trees that respect the table. */
  lemma TreeIsUnique(rbp: nat, text: Text, e: Expr, k: Text, e': Expr, k': Text)
    requires Reads(e, rbp, text, k) && Reads(e', rbp, text, k')
    ensures e == e' && k == k'
  {
    ParsesExactlyTheTable(rbp, text, e, k);
    ParsesExactlyTheTable(rbp, text, e', k');
  }

  /** A tree followed by a delimiter is read back whole, whatever the power asked for. */
  lemma DelimitedParses(rbp: nat, e: Expr, k: Text)
    requires Binds(e, rbp) && Lbp(Next(k)) == 0
    ensures Parse(rbp, Yield(e, k)) == Got(e, k)
  {
    ClosedOperandParses(e, rbp, k);
  }

  /** It is not enough that the following token binds no tighter than `rbp`: a `?:` read with power 20 takes the
      `=` after it into its last operand, which is read with power 10. */
  lemma FollowingAssignmentIsTakenIn(a: Token, b: Token, c: Token, d: Token, question: Token, colon: Token, assign: Token)
    requires a.id.Identifier? && b.id.Identifier? && c.id.Identifier? && d.id.Identifier?
    requires question.id.Question? && colon.id.Colon? && assign.id.Assign?
    ensures var e := Conditional(Leaf(a), question, Leaf(b), colon, Leaf(c));
            var k := Cons(assign, Cons(d, Nil));
            && Binds(e, 20) && Lbp(Next(k)) <= 20
            && Parse(20, Yield(e, k)) ==
                 Got(Conditional(Leaf(a), question, Leaf(b), colon, Infix(Leaf(c), assign, Leaf(d))), Nil)
  {
    var inner := Infix(Leaf(c), assign, Leaf(d));
    assert Operands(assign, Node(c, []), Node(d, []));
    assert LeftBinds(Leaf(c), assign, 10) && Binds(Leaf(d), 19);
    assert Binds(inner, 10) by {
      assert NodeOf(Leaf(c)) == Node(c, []) && NodeOf(Leaf(d)) == Node(d, []);
    }
    var whole := Conditional(Leaf(a), question, Leaf(b), colon, inner);
    assert LeftBinds(Leaf(a), question, 20);
    DelimitedParses(20, whole, Nil);
    var end := Cons(colon, Cons(c, Cons(assign, Cons(d, Nil))));
    assert Yield(inner, Nil) == Cons(c, Cons(assign, Cons(d, Nil)));
    assert Yield(whole, Nil) == Cons(a, Cons(question, Cons(b, end)));
    assert Yield(Conditional(Leaf(a), question, Leaf(b), colon, Leaf(c)), Cons(assign, Cons(d, Nil)))
        == Cons(a, Cons(question, Cons(b, end)));
  }
}

module ExpressionParser {
  import opened Tokens
  import opened TokenPump
  import opened OperatorTable
  import opened ExpressionGrammar

  /** What a routine did, `before` and `after` being the faults around it, `rest` what it left and `node` what it
      returned: what the table asks for (unless warnings ran out), or it complained or threw. */
  ghost predicate Follows(parsed: Parsed, r: Outcome, before: nat, after: nat, rest: Text, node: Node) {
    if parsed.Got? then
      after == before && (r.TooMany? || (r.Done? && rest == parsed.rest && node == NodeOf(parsed.e)))
    else !r.Done? || after > before
  }

  /** The same for a list of expressions, of which no handler keeps the nodes. */
  ghost predicate FollowsItems(parsed: ParsedItems, r: Outcome, before: nat, after: nat, rest: Text) {
    if parsed.GotItems? then after == before && (r.TooMany? || (r.Done? && rest == parsed.rest))
    else !r.Done? || after > before
  }

  /** What every routine keeps, whatever it is given. */
  twostate predicate Keeps(p: Pump, r: Outcome)
    reads p
  {
    && old(p.faults) <= p.faults
    && if r.Done? then p.Valid() && Length(p.input) <= Length(old(p.input)) else p.Bounded() && p.warnings > 0
  }

  method ParseExpr(p: Pump, rbp: nat) returns (r: Outcome, node: Node)
    requires p.Valid()
    modifies p
    ensures Keeps(p, r)
    ensures r.Done? ==> Length(p.input) < Length(old(p.input))
    ensures Follows(Parse(rbp, old(p.input)), r, old(p.faults), p.faults, p.input, node)
    decreases Length(p.input), 0
  {
    hide Pump.Valid, Pump.Bounded, Lbp, NudOf, Prefix, Extend, NodeOf;
    node := Nothing;
    ghost var text, before := p.input, p.faults;
    if p.nexttoken.id.End? {
      r := p.Fail();
      return;
    }
    :- p.Advance(true);
    ghost var first := Prefix(p.token, p.input);
    assert first == Prefix(text.head, text.tail);
    if NudOf(p.token.id).NoNud? {
      NoPrefix(p.token, p.input);
      r, node := NoOperand(p);
      return;
    }
    node :- HandlePrefix(p);
    ghost var e := if first.Got? then first.e else Leaf(BEGIN);
    while rbp < Lbp(p.nexttoken.id)
      invariant p.Valid() && before <= p.faults && Length(p.input) < Length(text)
      invariant if p.faults == before then Parse(rbp, text) == Continue(rbp, e, p.input) && node == NodeOf(e)
                else Parse(rbp, text).Stuck?
      decreases Length(p.input)
    {
      EndPower(p.nexttoken.id);
      :- p.Advance(true);
      ghost var more := Extend(e, p.token, p.input);
      node :- HandleInfix(p, node, e);
      e := if more.Got? then more.e else e;
    }
    r := Done;
  }

  lemma DelimiterStartsNothing(rbp: nat, text: Text)
    ensures Next(text).Comma? || Next(text).RBracket? ==> Parse(rbp, text).Stuck? && ParseItems(text).BadItems?
  {
  }

  lemma NoPrefix(t: Token, text: Text)
    requires NudOf(t.id).NoNud?
    ensures Prefix(t, text).Stuck?
  {
  }

  lemma EndPower(id: Id)
    ensures id.End? ==> Lbp(id) == 0
  {
  }

  /** A token without a prefix handler. */
  method NoOperand(p: Pump) returns (r: Outcome, node: Node)
    requires p.Valid() && NudOf(p.token.id).NoNud?
    modifies p
    ensures Keeps(p, r)
    ensures Follows(Stuck, r, old(p.faults), p.faults, p.input, node)
    ensures if old(p.token).id.Dot? && old(p.nexttoken).id.Number? then !r.Failed? else !r.Done?
    ensures p.faults == old(p.faults) + 1
  {
    hide Pump.Valid, Pump.Bounded, NudOf;
    node := Nothing;
    if p.token.id.Dot? && p.nexttoken.id.Number? {
      :- p.Warning();
      :- p.Advance(true);
      node := Node(p.token, []);
      r := Done;
    } else {
      r := p.Fail();
    }
  }

  /** `token.nud` */
  method HandlePrefix(p: Pump) returns (r: Outcome, node: Node)
    requires p.Valid() && !NudOf(p.token.id).NoNud?
    modifies p
    ensures Keeps(p, r)
    ensures Follows(Prefix(old(p.token), old(p.input)), r, old(p.faults), p.faults, p.input, node)
    decreases Length(p.input), 2
  {
    hide Pump.Valid, Pump.Bounded, Lbp, NudOf, Parse, ParseItems;
    node := Nothing;
    var t := p.token;
    match NudOf(t.id)
    case Itself =>
      node := Node(t, []);
      r := Done;
    case Operand(power) =>
      var right :- ParseExpr(p, power);
      if !t.id.Delete? {
        node := Node(t, if t.id.Tilde? then [] else [right]);
      }
      r := Done;
    case Group =>
      node :- ParseExpr(p, 0);
      r := p.Advance(p.nexttoken.id.RParen?);
    case List =>
      if !p.nexttoken.id.RBracket? {
        :- ParseList(p, true);
      }
      r := p.Advance(p.nexttoken.id.RBracket?);
  }

  /** `token.led(left)` */
  method HandleInfix(p: Pump, left: Node, ghost e: Expr) returns (r: Outcome, node: Node)
    requires p.Valid()
    modifies p
    ensures Keeps(p, r)
    ensures left == NodeOf(e) ==>
              Follows(Extend(e, old(p.token), old(p.input)), r, old(p.faults), p.faults, p.input, node)
    decreases Length(p.input), 3
  {
    hide Pump.Valid, Pump.Bounded, Lbp, LedOf, Extend, NodeOf;
    if LedOf(p.token.id).Binary? {
      r, node := HandleBinary(p, left, e);
    } else if LedOf(p.token.id).Choice? {
      r, node := HandleChoice(p, left, e);
    } else if LedOf(p.token.id).Call? {
      r, node := HandleCall(p, left, e);
    } else if LedOf(p.token.id).Index? {
      r, node := HandleIndex(p, left, e);
    } else {
      r, node := HandlePostfix(p, left, e);
    }
  }

  method HandleChoice(p: Pump, left: Node, ghost e: Expr) returns (r: Outcome, node: Node)
    requires p.Valid() && LedOf(p.token.id).Choice?
    modifies p
    ensures Keeps(p, r)
    ensures left == NodeOf(e) ==>
              Follows(Extend(e, old(p.token), old(p.input)), r, old(p.faults), p.faults, p.input, node)
    decreases Length(p.input), 2
  {
    hide Pump.Valid, Pump.Bounded, Lbp, LedOf, Parse, ParseItems;
    node := Nothing;
    var op := p.token;
    var yes :- ParseExpr(p, 10);
    :- p.Advance(p.nexttoken.id.Colon?);
    var no :- ParseExpr(p, 10);
    node := Node(op, [left, yes, no]);
    r := Done;
  }

  method HandleCall(p: Pump, left: Node, ghost e: Expr) returns (r: Outcome, node: Node)
    requires p.Valid() && LedOf(p.token.id).Call?
    modifies p
    ensures Keeps(p, r)
    ensures left == NodeOf(e) ==>
              Follows(Extend(e, old(p.token), old(p.input)), r, old(p.faults), p.faults, p.input, node)
    decreases Length(p.input), 2
  {
    hide Pump.Valid, Pump.Bounded, Lbp, LedOf, Parse, ParseItems;
    node := Nothing;
    var op := p.token;
    if !p.nexttoken.id.RParen? {
      :- ParseList(p, false);
    }
    r := p.Advance(p.nexttoken.id.RParen?);
    node := Node(op, [left]);
  }

  method HandleIndex(p: Pump, left: Node, ghost e: Expr) returns (r: Outcome, node: Node)
    requires p.Valid() && LedOf(p.token.id).Index?
    modifies p
    ensures Keeps(p, r)
    ensures left == NodeOf(e) ==>
              Follows(Extend(e, old(p.token), old(p.input)), r, old(p.faults), p.faults, p.input, node)
    decreases Length(p.input), 2
  {
    hide Pump.Valid, Pump.Bounded, Lbp, LedOf, Parse, ParseItems;
    node := Nothing;
    var op := p.token;
    var inner :- ParseExpr(p, 0);
    r := p.Advance(p.nexttoken.id.RBracket?);
    node := Node(op, [left, inner]);
  }

  /** Suffixes, member names, and operators that cannot follow an operand. */
  method HandlePostfix(p: Pump, left: Node, ghost e: Expr) returns (r: Outcome, node: Node)
    requires p.Valid() && (LedOf(p.token.id).Postfix? || LedOf(p.token.id).Member? || LedOf(p.token.id).NoLed?)
    modifies p
    ensures Keeps(p, r)
    ensures left == NodeOf(e) ==>
              Follows(Extend(e, old(p.token), old(p.input)), r, old(p.faults), p.faults, p.input, node)
    ensures var next := old(p.nexttoken);
            LedOf(old(p.token).id).Member? && !Names(next) ==> if Reserved(next.id) then !r.Failed? else !r.Done?
  {
    hide Pump.Valid, Pump.Bounded, Lbp, LedOf, Parse, ParseItems;
    node := Nothing;
    var op := p.token;
    if LedOf(op.id).NoLed? {
      r := p.Fail();
      return;
    }
    node := Node(op, [left]);
    if LedOf(op.id).Member? {
      if !Names(p.nexttoken) {
        if !Reserved(p.nexttoken.id) {
          r := p.Fail();
          return;
        }
        :- p.Warning();
      }
      :- p.Advance(true);
      node := Node(op, [left, Node(p.token, [])]);
    }
    r := Done;
  }

  /** The `led` of a binary operator. Assignments look at their left operand before they read the right one; `==`
      and `!=` throw when an operand they look into is missing. */
  method HandleBinary(p: Pump, left: Node, ghost e: Expr) returns (r: Outcome, node: Node)
    requires p.Valid() && LedOf(p.token.id).Binary?
    modifies p
    ensures Keeps(p, r)
    ensures left == NodeOf(e) ==>
              Follows(Extend(e, old(p.token), old(p.input)), r, old(p.faults), p.faults, p.input, node)
    decreases Length(p.input), 2
  {
    hide Pump.Valid, Pump.Bounded, Lbp, LedOf, Parse, ParseItems, Operands;
    node := Nothing;
    var op := p.token;
    if IsAssign(op.id) || IsBitAssign(op.id) {
      AssignmentLooksLeft(op, left);
      :- CheckTarget(p, op, left);
    }
    var right :- ParseExpr(p, LedOf(op.id).power);
    if !Operands(op, left, right) && !IsAssign(op.id) {
      r := p.Fail();
      return;
    }
    node := JoinOperands(op, left, right);
    r := Done;
  }

  method JoinOperands(op: Token, left: Node, right: Node) returns (node: Node)
    ensures node == BinaryNode(op, left, right)
  {
    if IsBitAssign(op.id) {
      node := left;
    } else if op.id.Plus? && left.Node? && right.Node? && left.t.id.String? && right.t.id.String? {
      node := left.(t := left.t.(value := left.t.value + right.t.value, falsy := left.t.falsy && right.t.falsy,
                                 character := right.t.character));
    } else {
      node := Node(op, [left, right]);
    }
  }

  /** An assignment's look at its left side, before it reads the right one. */
  method CheckTarget(p: Pump, op: Token, left: Node) returns (r: Outcome)
    requires p.Valid() && (IsAssign(op.id) || IsBitAssign(op.id))
    modifies p`warnings, p`faults
    ensures Keeps(p, r)
    ensures if Operands(op, left, Nothing) then r.Done? && p.faults == old(p.faults) else !r.Done? || p.faults > old(p.faults)
    ensures IsBitAssign(op.id) && r.Done? ==> Operands(op, left, Nothing)
  {
    hide Pump.Valid, Pump.Bounded;
    if IsAssign(op.id) && IsPlace(left) && HasBase(left) && left.kids[0].t.value == "arguments" {
      r := p.Warning();
    } else if Operands(op, left, Nothing) {
      r := Done;
    } else {
      r := p.Fail();
    }
  }

  lemma AssignmentLooksLeft(op: Token, left: Node)
    requires IsAssign(op.id) || IsBitAssign(op.id)
    ensures forall right :: Operands(op, left, right) == Operands(op, left, Nothing)
  {
  }

  /** The loops over arguments and over the elements of an array literal; only the latter look for extra commas. */
  method ParseList(p: Pump, literal: bool) returns (r: Outcome)
    requires p.Valid()
    modifies p
    ensures Keeps(p, r)
    ensures FollowsItems(ParseItems(old(p.input)), r, old(p.faults), p.faults, p.input)
    decreases Length(p.input), 1
  {
    hide Pump.Valid, Pump.Bounded, Lbp, Parse;
    ghost var text, before := p.input, p.faults;
    while true
      invariant p.Valid() && before <= p.faults && Length(p.input) <= Length(text)
      invariant p.faults == before ==> ParseItems(text).GotItems? == ParseItems(p.input).GotItems?
      invariant p.faults == before && ParseItems(text).GotItems? ==> ParseItems(text).rest == ParseItems(p.input).rest
      invariant p.faults > before ==> ParseItems(text).BadItems?
      decreases Length(p.input)
    {
      var node;
      node :- ParseExpr(p, 10);
      if !p.nexttoken.id.Comma? {
        return Done;
      }
      :- p.Advance(p.nexttoken.id.Comma?);
      DelimiterStartsNothing(10, p.input);
      if literal && p.nexttoken.id.Comma? {
        :- p.Warning();
      } else if literal && p.nexttoken.id.RBracket? {
        r := p.Warning();
        return;
      }
    }
  }
}
