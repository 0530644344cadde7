/**
 What the operator table means for scripts: which of two neighbouring operators takes the operand between them,
 what can stand alone, start an expression or follow an operand, and what may be assigned to or compared. All of
 it is said of tokens and trees, with the operators listed, and not by their coded powers and handlers.
*/
module Precedence {
  import opened Tokens
  import opened OperatorTable
  import opened ExpressionGrammar
  import opened Basics

  /** The tiers of binary operators, loosest first; 0 for tokens that are none. */
  function Tier(id: Id): nat {
    match id
    case Assign | AssignAdd | AssignSub | AssignMult | AssignDiv | AssignMod
       | AssignBitAnd | AssignBitOr | AssignBitXor | AssignShl | AssignShr | AssignUshr => 1
    case Or => 2
    case And => 3
    case BitOr => 4
    case BitXor => 5
    case BitAnd => 6
    case Eq | EqEqEq | NotEq | NotEqEq | Less | Greater | LessEq | GreaterEq => 7
    case Shl | Shr | Ushr | In | InstanceOf => 8
    case Plus | Minus => 9
    case Times | Divide | Modulo => 10
    case _ => 0
  }

  /** Tokens that are an expression by themselves. */
  predicate Alone(id: Id) {
    match id
    case Number | String | Regexp | Identifier
       | Arguments | Eval | False | Infinity | NaN | Null | This | True | Undefined => true
    case _ => false
  }

  /** Prefix operators whose operand ends before any binary operator. */
  predicate Sign(id: Id) {
    match id
    case Plus | Minus | Incr | Decr | Tilde | Not | Typeof => true
    case _ => false
  }

  type Name = t: Token | t.id.Identifier? witness Token(Identifier, "x", false, 0, 1)
  type Operator = t: Token | Tier(t.id) > 0 witness Token(Plus, "+", false, 0, 1)

  // What the table says of these lists; all that follows uses nothing else of it.

  function Power(tier: nat): nat {
    match tier
    case 0 => 0
    case 1 => 20
    case 2 => 40
    case 3 => 50
    case 4 => 70
    case 5 => 80
    case 6 => 90
    case 7 => 100
    case 8 => 120
    case 9 => 130
    case _ => 140
  }

  function RightPower(tier: nat): nat {
    if tier == 1 then 19 else Power(tier)
  }

  lemma BinaryEntry(id: Id)
    requires Tier(id) > 0
    ensures Lbp(id) == Power(Tier(id)) && LedOf(id) == Binary(RightPower(Tier(id))) && Tier(id) <= 10
  {
  }

  lemma LoneEntry(id: Id)
    ensures NudOf(id).Itself? <==> Alone(id)
    ensures Alone(id) ==> Lbp(id) == 0 && LedOf(id).NoLed? && Tier(id) == 0
  {
  }

  lemma PrefixEntry(id: Id)
    ensures Sign(id) ==> NudOf(id) == Operand(150)
    ensures id.Delete? ==> NudOf(id) == Operand(0)
    ensures id.New? ==> NudOf(id) == Operand(155)
    ensures id.LParen? ==> NudOf(id).Group?
    ensures id.LBracket? ==> NudOf(id).List?
    ensures !Sign(id) && !id.Delete? && !id.New? && !id.LParen? && !id.LBracket? && !Alone(id) ==> NudOf(id).NoNud?
  {
  }

  lemma OtherEntry(id: Id)
    ensures id.Question? ==> Lbp(id) == 30 && LedOf(id).Choice?
    ensures id.Incr? || id.Decr? ==> Lbp(id) == 150 && LedOf(id).Postfix?
  {
  }

  lemma MisplacedEntry(id: Id)
    requires id.Delete? || id.Tilde? || id.Not? || id.Typeof? || id.New?
    ensures Lbp(id) == 150 && LedOf(id).NoLed?
  {
  }

  lemma BracketEntry(id: Id)
    ensures id.LParen? ==> Lbp(id) == 155 && LedOf(id).Call?
    ensures id.Dot? ==> Lbp(id) == 160 && LedOf(id).Member?
    ensures id.LBracket? ==> Lbp(id) == 160 && LedOf(id).Index?
  {
  }

  lemma DelimiterEntry(id: Id)
    ensures id.RParen? || id.RBracket? || id.Colon? || id.Comma? || id.End? ==> Lbp(id) == 0
  {
  }

  lemma OperandsEntry(op: Token, left: Node, right: Node)
    requires Tier(op.id) > 0
    ensures Tier(op.id) > 1 && left.Node? && right.Node? ==> Operands(op, left, right)
    ensures Tier(op.id) == 1 && IsName(left) ==> Operands(op, left, right)
    ensures Tier(op.id) == 1 && !IsName(left) && !IsPlace(left) ==> !Operands(op, left, right)
    ensures left.Node? ==> BinaryNode(op, left, right).Node?
    ensures Tier(op.id) > 1 ==> !IsName(BinaryNode(op, left, right)) && !IsPlace(BinaryNode(op, left, right))
  {
  }

  lemma AloneNames(id: Id)
    requires id.Identifier?
    ensures Alone(id)
  {
  }

  lemma PowersRise(low: nat, high: nat)
    ensures low < high <= 10 ==> Power(low) < Power(high) && Power(low) <= RightPower(high)
    ensures low <= 10 ==> RightPower(low) <= Power(low) && (RightPower(low) < Power(low) <==> low == 1)
  {
  }

  /** An operator and its operand, and more tokens. */
  function Pair(op: Token, x: Token, k: Text): Text {
    Cons(op, Cons(x, k))
  }

  lemma PairIs()
    ensures forall op, x, k :: Pair(op, x, k) == Cons(op, Cons(x, k))
  {
  }

  // One level of a tree.

  lemma LeafIs(t: Token)
    requires Alone(t.id)
    ensures forall rbp: nat :: Binds(Leaf(t), rbp)
    ensures forall p: nat :: Closes(Leaf(t), p)
    ensures forall k: Text :: Yield(Leaf(t), k) == Cons(t, k)
    ensures NodeOf(Leaf(t)) == Node(t, [])
  {
    hide Alone, NudOf, LedOf, Lbp;
    LoneEntry(t.id);
  }

  lemma InfixIs(left: Expr, op: Token, right: Expr)
    requires Tier(op.id) > 0
    ensures forall rbp: nat :: Binds(Infix(left, op, right), rbp) <==>
              && rbp < Power(Tier(op.id)) && Binds(left, rbp) && Closes(left, Power(Tier(op.id)))
              && Binds(right, RightPower(Tier(op.id))) && Operands(op, NodeOf(left), NodeOf(right))
    ensures forall p: nat :: Closes(Infix(left, op, right), p) <==> p <= RightPower(Tier(op.id)) && Closes(right, p)
    ensures forall k: Text :: Yield(Infix(left, op, right), k) == Yield(left, Cons(op, Yield(right, k)))
    ensures NodeOf(Infix(left, op, right)) == BinaryNode(op, NodeOf(left), NodeOf(right))
    ensures 20 <= Power(Tier(op.id)) <= 140 && 19 <= RightPower(Tier(op.id)) <= Power(Tier(op.id))
    ensures Tier(op.id) > 1 ==> Power(Tier(op.id)) == RightPower(Tier(op.id)) >= 40
    ensures Tier(op.id) == 1 ==> Power(Tier(op.id)) == 20
  {
    hide Tier, NudOf, LedOf, Lbp, BinaryNode, Operands;
    BinaryEntry(op.id);
  }

  lemma NameIs(t: Name)
    ensures forall rbp: nat :: Binds(Leaf(t), rbp)
    ensures forall p: nat :: Closes(Leaf(t), p)
    ensures forall k: Text :: Yield(Leaf(t), k) == Cons(t, k)
    ensures NodeOf(Leaf(t)) == Node(t, []) && IsName(Node(t, []))
  {
    hide Binds, Closes, Yield, NodeOf, Alone;
    AloneNames(t.id);
    LeafIs(t);
  }

  lemma UnaryIs(op: Token, right: Expr)
    requires Sign(op.id) || op.id.Delete? || op.id.New?
    ensures var power := if op.id.Delete? then 0 else if op.id.New? then 155 else 150;
      && (forall rbp: nat :: Binds(Unary(op, right), rbp) <==> Binds(right, power))
      && (forall p: nat :: Closes(Unary(op, right), p) <==> p <= power && Closes(right, p))
    ensures forall k: Text :: Yield(Unary(op, right), k) == Cons(op, Yield(right, k))
    ensures if op.id.Delete? then NodeOf(Unary(op, right)).Nothing?
            else
              var node := NodeOf(Unary(op, right));
              node.Node? && !IsName(node) && !IsPlace(node)
  {
    hide NudOf, LedOf, Lbp;
    PrefixEntry(op.id);
  }

  lemma ConditionalIs(left: Expr, question: Token, yes: Expr, colon: Token, no: Expr)
    requires question.id.Question? && colon.id.Colon?
    ensures var e := Conditional(left, question, yes, colon, no);
      && (forall rbp: nat :: Binds(e, rbp) <==>
            rbp < 30 && Binds(left, rbp) && Closes(left, 30) && Binds(yes, 10) && Binds(no, 10))
      && (forall p: nat :: Closes(e, p) <==> p <= 10 && Closes(no, p))
      && (forall k: Text :: Yield(e, k) == Yield(left, Cons(question, Yield(yes, Cons(colon, Yield(no, k))))))
      && NodeOf(e).Node? && !IsName(NodeOf(e)) && !IsPlace(NodeOf(e))
  {
    hide NudOf, LedOf, Lbp;
    OtherEntry(question.id);
  }

  lemma ParenIs(open: Token, inner: Expr, close: Token)
    requires open.id.LParen? && close.id.RParen?
    ensures var e := Paren(open, inner, close);
      && (forall rbp: nat :: Binds(e, rbp) <==> Binds(inner, 0))
      && (forall p: nat :: Closes(e, p))
      && (forall k: Text :: Yield(e, k) == Cons(open, Yield(inner, Cons(close, k))))
      && NodeOf(e) == NodeOf(inner)
  {
    hide NudOf, LedOf, Lbp;
    PrefixEntry(open.id);
  }

  lemma OperatorIs(a: Name, o: Operator, b: Name)
    ensures forall rbp: nat :: rbp < 20 ==> Binds(Infix(Leaf(a), o, Leaf(b)), rbp)
    ensures forall p: nat :: p <= RightPower(Tier(o.id)) ==> Closes(Infix(Leaf(a), o, Leaf(b)), p)
    ensures Tier(o.id) > 1 ==> RightPower(Tier(o.id)) >= 40
    ensures forall k: Text :: Yield(Infix(Leaf(a), o, Leaf(b)), k) == Cons(a, Pair(o, b, k))
  {
    hide *;
    PairIs();
    NameIs(a);
    NameIs(b);
    InfixIs(Leaf(a), o, Leaf(b));
    OperandsEntry(o, Node(a, []), Node(b, []));
  }

  // Chains of binary operators.

  /** A tree of binary operators over names. */
  ghost predicate Chain(e: Expr) {
    match e
    case Leaf(t) => t.id.Identifier?
    case Infix(left, op, right) => Tier(op.id) > 0 && Chain(left) && Chain(right)
    case _ => false
  }

  /** Every operator has a tighter one or one of its own tier to the left below it, and a tighter one to the right;
      assignments have a name to the left and may have an assignment to the right. */
  ghost predicate Grouped(e: Expr)
    requires Chain(e)
  {
    e.Infix? ==>
      && Grouped(e.left) && Grouped(e.right)
      && (e.left.Infix? ==> Tier(e.left.op.id) >= Tier(e.op.id) > 1)
      && (e.right.Infix? ==> Tier(e.right.op.id) > Tier(e.op.id) || Tier(e.right.op.id) == Tier(e.op.id) == 1)
  }

  lemma ChainStep(e: Expr)
    requires Chain(e)
    ensures e.Leaf? || e.Infix?
    ensures e.Leaf? ==> e.t.id.Identifier? && Grouped(e)
    ensures e.Infix? ==>
      && Tier(e.op.id) > 0 && Chain(e.left) && Chain(e.right)
      && (Grouped(e) <==>
            && Grouped(e.left) && Grouped(e.right)
            && (e.left.Infix? ==> Tier(e.left.op.id) >= Tier(e.op.id) > 1)
            && (e.right.Infix? ==> Tier(e.right.op.id) > Tier(e.op.id) || Tier(e.right.op.id) == Tier(e.op.id) == 1))
  {
  }

  lemma {:induction false} ChainNode(e: Expr)
    requires Chain(e) && Grouped(e)
    ensures NodeOf(e).Node?
    ensures e.Infix? && Tier(e.op.id) > 1 ==> !IsName(NodeOf(e)) && !IsPlace(NodeOf(e))
    decreases e
  {
    hide *;
    ChainStep(e);
    match e
    case Leaf(t) => NameIs(t);
    case Infix(left, op, right) =>
      InfixIs(left, op, right);
      ChainNode(left);
      OperandsEntry(op, NodeOf(left), NodeOf(right));
  }

  lemma {:induction false} ChainCloses(e: Expr, p: nat)
    requires Chain(e) && Grouped(e)
    ensures Closes(e, p) <==> (e.Infix? ==> p <= RightPower(Tier(e.op.id)))
    decreases e
  {
    hide *;
    ChainStep(e);
    match e
    case Leaf(t) => NameIs(t);
    case Infix(left, op, right) =>
      InfixIs(left, op, right);
      ChainCloses(right, p);
      ChainOrder(e);
  }

  /** A chain respects the table if and only if it is grouped by the tiers. */
  lemma {:induction false} ChainBinds(e: Expr, rbp: nat)
    requires Chain(e)
    ensures Binds(e, rbp) <==> Grouped(e) && (e.Infix? ==> rbp < Power(Tier(e.op.id)))
    decreases e
  {
    hide *;
    ChainStep(e);
    match e
    case Leaf(t) => NameIs(t);
    case Infix(left, op, right) =>
      InfixIs(left, op, right);
      ChainBinds(left, rbp);
      ChainBinds(right, RightPower(Tier(op.id)));
      if Grouped(left) && Grouped(right) {
        ChainCloses(left, Power(Tier(op.id)));
        ChainNode(left);
        ChainNode(right);
        OperandsEntry(op, NodeOf(left), NodeOf(right));
        ChainOrder(e);
      }
  }

  lemma ChainOrder(e: Expr)
    requires Chain(e) && e.Infix?
    ensures var tier := Tier(e.op.id);
      && (e.left.Infix? ==>
            (Power(tier) <= RightPower(Tier(e.left.op.id)) <==> Tier(e.left.op.id) >= tier && Tier(e.left.op.id) > 1))
      && (e.right.Infix? ==>
            (RightPower(tier) < Power(Tier(e.right.op.id)) <==> Tier(e.right.op.id) > tier || Tier(e.right.op.id) == tier == 1))
      && (e.left.Infix? && Tier(e.left.op.id) >= tier ==> Power(tier) <= Power(Tier(e.left.op.id)))
      && (e.right.Infix? && Tier(e.right.op.id) >= tier ==> RightPower(tier) <= RightPower(Tier(e.right.op.id)))
    ensures e.left.Leaf? ==> IsName(NodeOf(e.left))
  {
    hide *;
    ChainStep(e);
    ChainStep(e.left);
    ChainStep(e.right);
    BinaryEntry(e.op.id);
    match e.left {
      case Leaf(t) => NameIs(t);
      case Infix(_, op, _) =>
        BinaryEntry(op.id);
        PowersRise(Tier(op.id), Tier(e.op.id));
        PowersRise(Tier(e.op.id), Tier(op.id));
    }
    if e.right.Infix? {
      BinaryEntry(e.right.op.id);
      PowersRise(Tier(e.op.id), Tier(e.right.op.id));
      PowersRise(Tier(e.right.op.id), Tier(e.op.id));
    }
  }

  /** However many operators stand between names, the parser groups them in the only way that the tiers allow. */
  lemma ChainsGroupByTiers(e: Expr)
    requires Chain(e)
    ensures Parse(0, Yield(e, Nil)) == Got(e, Nil) <==> Grouped(e)
  {
    hide *;
    ParsesExactlyTheTable(0, Yield(e, Nil), e, Nil);
    ChainBinds(e, 0);
    ReadsWhole(e);
    ChainStep(e);
    if e.Infix? {
      BinaryEntry(e.op.id);
      PowersRise(0, Tier(e.op.id));
    }
  }

  lemma ReadsWhole(e: Expr)
    ensures Reads(e, 0, Yield(e, Nil), Nil) <==> Binds(e, 0)
    ensures Binds(e, 0) ==> Parse(0, Yield(e, Nil)) == Got(e, Nil)
    ensures Power(0) == 0
  {
    hide Binds, Closes, NudOf, LedOf, Parse;
    if Binds(e, 0) {
      ClosesUnderZero(e, 0);
      DelimitedParses(0, e, Nil);
    }
  }

  lemma StopsAt(e: Expr, t: Token, rest: Text)
    requires Binds(e, 0) && Closes(e, Lbp(t.id)) && Lbp(t.id) > 0 && Extend(e, t, rest).Stuck?
    ensures Parse(0, Yield(e, Cons(t, rest))) == Stuck
  {
    hide Binds, Closes, LedOf, Lbp, Extend, Yield;
    BindsParses(e, 0, Cons(t, rest));
  }

  lemma NoTarget(e: Expr, t: Operator, rest: Text)
    requires Tier(t.id) == 1 && Binds(e, 0) && Closes(e, 20) && !IsName(NodeOf(e)) && !IsPlace(NodeOf(e))
    ensures Parse(0, Yield(e, Cons(t, rest))) == Stuck
  {
    hide *;
    forall right ensures !Operands(t, NodeOf(e), right) {
      OperandsEntry(t, NodeOf(e), right);
    }
    BadTarget(e, t, rest);
  }

  lemma BadTarget(e: Expr, t: Operator, rest: Text)
    requires Tier(t.id) == 1 && Binds(e, 0) && Closes(e, 20) && forall right :: !Operands(t, NodeOf(e), right)
    ensures Parse(0, Yield(e, Cons(t, rest))) == Stuck
  {
    hide Binds, Closes, LedOf, Lbp, Parse, NodeOf, IsName, IsPlace, Tier, Operands;
    BinaryEntry(t.id);
    StopsAt(e, t, rest);
  }

  lemma BadOperands(left: Expr, o: Operator, right: Expr)
    requires Binds(left, 0) && Closes(left, Power(Tier(o.id))) && Binds(right, RightPower(Tier(o.id)))
    requires !Operands(o, NodeOf(left), NodeOf(right))
    ensures Parse(0, Yield(Infix(left, o, right), Nil)) == Stuck
  {
    hide Binds, Closes, LedOf, Lbp, NodeOf, Tier, Operands, Parse;
    BinaryEntry(o.id);
    DelimiterEntry(End);
    DelimitedParses(RightPower(Tier(o.id)), right, Nil);
    StopsAt(left, o, Yield(right, Nil));
  }

  /** Of two operators the tighter one takes the operand between them; of two in one tier the first one does,
      except that assignments group to the right; and the result of another operator cannot be assigned to. */
  lemma TwoOperators(a: Name, o: Operator, b: Name, p: Operator, c: Name)
    ensures Parse(0, Cons(a, Pair(o, b, Pair(p, c, Nil)))) ==
      if Tier(p.id) > Tier(o.id) || Tier(p.id) == Tier(o.id) == 1 then
        Got(Infix(Leaf(a), o, Infix(Leaf(b), p, Leaf(c))), Nil)
      else if Tier(p.id) == 1 then Stuck
      else Got(Infix(Infix(Leaf(a), o, Leaf(b)), p, Leaf(c)), Nil)
  {
    hide *;
    PairIs();
    if Tier(p.id) > Tier(o.id) || Tier(p.id) == Tier(o.id) == 1 {
      RightOfTwo(a, o, b, p, c);
      ChainsGroupByTiers(Infix(Leaf(a), o, Infix(Leaf(b), p, Leaf(c))));
    } else if Tier(p.id) > 1 {
      LeftOfTwo(a, o, b, p, c);
      ChainsGroupByTiers(Infix(Infix(Leaf(a), o, Leaf(b)), p, Leaf(c)));
    } else {
      NothingAssignedTo(a, o, b, p, c);
    }
  }

  lemma RightOfTwo(a: Name, o: Operator, b: Name, p: Operator, c: Name)
    ensures var e := Infix(Leaf(a), o, Infix(Leaf(b), p, Leaf(c)));
      && Yield(e, Nil) == Cons(a, Pair(o, b, Pair(p, c, Nil)))
      && Chain(e) && (Grouped(e) <==> Tier(p.id) > Tier(o.id) || Tier(p.id) == Tier(o.id) == 1)
  {
    hide Tier;
    var inner := Infix(Leaf(b), p, Leaf(c));
    assert Chain(Leaf(b)) && Chain(Leaf(c)) && Grouped(Leaf(b)) && Grouped(Leaf(c));
    assert Chain(inner) && Grouped(inner) && Grouped(Leaf(a));
    assert Yield(inner, Nil) == Cons(b, Pair(p, c, Nil));
  }

  lemma LeftOfTwo(a: Name, o: Operator, b: Name, p: Operator, c: Name)
    ensures var e := Infix(Infix(Leaf(a), o, Leaf(b)), p, Leaf(c));
      && Yield(e, Nil) == Cons(a, Pair(o, b, Pair(p, c, Nil)))
      && Chain(e) && (Grouped(e) <==> Tier(o.id) >= Tier(p.id) > 1)
  {
    hide Tier;
    var inner := Infix(Leaf(a), o, Leaf(b));
    assert Chain(Leaf(a)) && Chain(Leaf(b)) && Grouped(Leaf(a)) && Grouped(Leaf(b));
    assert Chain(inner) && Grouped(inner) && Grouped(Leaf(c));
    assert forall k: Text :: Yield(inner, k) == Cons(a, Pair(o, b, k));
  }

  lemma NothingAssignedTo(a: Name, o: Operator, b: Name, p: Operator, c: Name)
    requires Tier(o.id) > 1 && Tier(p.id) == 1
    ensures Parse(0, Cons(a, Pair(o, b, Pair(p, c, Nil)))) == Stuck
  {
    hide *;
    PairIs();
    NameIs(a);
    NameIs(b);
    InfixIs(Leaf(a), o, Leaf(b));
    OperandsEntry(o, Node(a, []), Node(b, []));
    NoTarget(Infix(Leaf(a), o, Leaf(b)), p, Cons(c, Nil));
  }

  // Prefix operators.

  /** A sign or `new` goes with its operand, whatever operator follows, and the two cannot be assigned to. */
  lemma PrefixThenOperator(u: Token, a: Name, o: Operator, b: Name)
    requires Sign(u.id) || u.id.New?
    ensures Parse(0, Pair(u, a, Pair(o, b, Nil))) ==
      if Tier(o.id) == 1 then Stuck else Got(Infix(Unary(u, Leaf(a)), o, Leaf(b)), Nil)
  {
    hide *;
    PairIs();
    var left := Unary(u, Leaf(a));
    NameIs(a);
    NameIs(b);
    UnaryIs(u, Leaf(a));
    InfixIs(left, o, Leaf(b));
    PrefixPower(u.id);
    if Tier(o.id) == 1 {
      NoTarget(left, o, Cons(b, Nil));
    } else {
      OperandsEntry(o, NodeOf(left), Node(b, []));
      ReadsWhole(Infix(left, o, Leaf(b)));
    }
  }

  lemma PrefixPower(id: Id)
    requires Sign(id) || id.New?
    ensures !id.Delete?
  {
  }

  /** `delete` takes all operators that follow as part of its operand. */
  lemma DeleteThenOperator(u: Token, a: Name, o: Operator, b: Name)
    requires u.id.Delete?
    ensures Parse(0, Pair(u, a, Pair(o, b, Nil))) == Got(Unary(u, Infix(Leaf(a), o, Leaf(b))), Nil)
  {
    hide *;
    PairIs();
    var e := Unary(u, Infix(Leaf(a), o, Leaf(b)));
    NameIs(a);
    NameIs(b);
    InfixIs(Leaf(a), o, Leaf(b));
    OperandsEntry(o, Node(a, []), Node(b, []));
    UnaryIs(u, Infix(Leaf(a), o, Leaf(b)));
    ReadsWhole(e);
  }

  /** After an operator too; there `delete` takes more than a sign would, and `==` finds no node to look into. */
  lemma OperatorThenPrefix(a: Name, o: Operator, u: Token, b: Name, p: Operator, c: Name)
    requires Tier(o.id) >= Tier(p.id) > 1 && (Sign(u.id) || u.id.Delete? || u.id.New?)
    ensures Parse(0, Cons(a, Cons(o, Pair(u, b, Pair(p, c, Nil))))) ==
      if !u.id.Delete? then Got(Infix(Infix(Leaf(a), o, Unary(u, Leaf(b))), p, Leaf(c)), Nil)
      else if o.id.Eq? || o.id.NotEq? then Stuck
      else Got(Infix(Leaf(a), o, Unary(u, Infix(Leaf(b), p, Leaf(c)))), Nil)
  {
    hide *;
    PairIs();
    if u.id.Delete? {
      OperatorThenDelete(a, o, u, b, p, c);
    } else {
      NameIs(a);
      NameIs(b);
      NameIs(c);
      UnaryIs(u, Leaf(b));
      var left := Infix(Leaf(a), o, Unary(u, Leaf(b)));
      InfixIs(Leaf(a), o, Unary(u, Leaf(b)));
      InfixIs(left, p, Leaf(c));
      TiersRise(p.id, o.id);
      OperandsEntry(o, Node(a, []), NodeOf(Unary(u, Leaf(b))));
      OperandsEntry(p, NodeOf(left), Node(c, []));
      ReadsWhole(Infix(left, p, Leaf(c)));
    }
  }

  lemma OperatorThenDelete(a: Name, o: Operator, u: Token, b: Name, p: Operator, c: Name)
    requires Tier(o.id) > 1 && u.id.Delete?
    ensures Parse(0, Cons(a, Cons(o, Pair(u, b, Pair(p, c, Nil))))) ==
      if o.id.Eq? || o.id.NotEq? then Stuck else Got(Infix(Leaf(a), o, Unary(u, Infix(Leaf(b), p, Leaf(c)))), Nil)
  {
    hide *;
    PairIs();
    var right := Unary(u, Infix(Leaf(b), p, Leaf(c)));
    NameIs(a);
    OperatorIs(b, p, c);
    UnaryIs(u, Infix(Leaf(b), p, Leaf(c)));
    InfixIs(Leaf(a), o, right);
    NothingToCompare(o, a);
    NotNaN(a);
    if o.id.Eq? || o.id.NotEq? {
      BadOperands(Leaf(a), o, right);
    } else {
      ReadsWhole(Infix(Leaf(a), o, right));
    }
  }

  lemma NotNaN(a: Name)
    ensures !a.id.NaN? && !a.id.True? && !a.id.False? && !a.id.Undefined? && !a.id.Null? && !a.id.Number? && !a.id.String?
  {
  }

  lemma TiersRise(low: Id, high: Id)
    requires Tier(high) >= Tier(low) > 1
    ensures Power(Tier(low)) <= Power(Tier(high))
  {
    hide Tier, Power, RightPower;
    BinaryEntry(high);
    PowersRise(Tier(low), Tier(high));
  }

  lemma NothingToCompare(o: Operator, x: Token)
    requires Tier(o.id) > 1
    ensures Operands(o, Node(x, []), Nothing) <==>
      || !(o.id.Eq? || o.id.NotEq?)
      || x.id.NaN? || x.id.True? || x.id.False? || x.id.Undefined? || x.id.Null?
      || ((x.id.Number? || x.id.String?) && x.falsy)
    ensures Operands(o, Nothing, Node(x, [])) <==> !(o.id.Eq? || o.id.NotEq?) || x.id.NaN?
  {
  }

  // What ends an operand: a suffix operator, a member, a call, a subscript.

  datatype Ending = Stepped(op: Token) | Member(dot: Token, name: Token) | Called(open: Token, close: Token)
                  | At(open: Token, place: Token, close: Token)

  predicate Fits(d: Ending) {
    match d
    case Stepped(op) => op.id.Incr? || op.id.Decr?
    case Member(dot, name) => dot.id.Dot? && name.id.Identifier?
    case Called(open, close) => open.id.LParen? && close.id.RParen?
    case At(open, place, close) => open.id.LBracket? && place.id.Identifier? && close.id.RBracket?
  }

  function Ended(e: Expr, d: Ending): Expr {
    match d
    case Stepped(op) => Suffix(e, op)
    case Member(dot, name) => Dotted(e, dot, name)
    case Called(open, close) => Invoke(e, open, NoItems, close)
    case At(open, place, close) => Subscript(e, open, Leaf(place), close)
  }

  /** The tokens of `d`, followed by `k`. */
  function Spelled(d: Ending, k: Text): Text {
    match d
    case Stepped(op) => Cons(op, k)
    case Member(dot, name) => Pair(dot, name, k)
    case Called(open, close) => Pair(open, close, k)
    case At(open, place, close) => Cons(open, Pair(place, close, k))
  }

  lemma IdentifierNames(t: Token)
    requires t.id.Identifier?
    ensures Names(t) && Alone(t.id)
  {
  }

  lemma DottedIs(e: Expr, dot: Token, name: Token)
    requires dot.id.Dot? && Names(name)
    ensures forall rbp: nat :: Binds(Dotted(e, dot, name), rbp) <==> rbp < 160 && Binds(e, rbp) && Closes(e, 160)
    ensures forall p: nat :: Closes(Dotted(e, dot, name), p)
    ensures forall k: Text :: Yield(Dotted(e, dot, name), k) == Yield(e, Cons(dot, Cons(name, k)))
    ensures NodeOf(Dotted(e, dot, name)) == Node(dot, [NodeOf(e), Node(name, [])])
  {
    hide NudOf, LedOf, Lbp, Names;
    BracketEntry(dot.id);
  }

  lemma EndingIs(e: Expr, d: Ending)
    requires Fits(d)
    ensures var power := if d.Stepped? then 150 else if d.Called? then 155 else 160;
      forall rbp: nat :: Binds(Ended(e, d), rbp) <==> rbp < power && Binds(e, rbp) && Closes(e, power)
    ensures forall p: nat :: Closes(Ended(e, d), p)
    ensures forall k: Text :: Yield(Ended(e, d), k) == Yield(e, Spelled(d, k))
    ensures var node := NodeOf(Ended(e, d));
      && node.Node? && !IsName(node)
      && (IsPlace(node) <==> d.Member? || d.At?)
      && |node.kids| > 0 && node.kids[0] == NodeOf(e)
  {
    hide NudOf, LedOf, Lbp, Names, Alone, UnaryNode, BinaryNode, Operands;
    match d
    case Stepped(op) => OtherEntry(op.id);
    case Member(dot, name) =>
      IdentifierNames(name);
      DottedIs(e, dot, name);
    case Called(open, close) => BracketEntry(open.id);
    case At(open, place, close) =>
      BracketEntry(open.id);
      NameIs(place);
  }

  /** The operand of an operator is complete only with all that ends it. */
  lemma OperatorThenEnding(a: Name, o: Operator, b: Name, d: Ending)
    requires Fits(d)
    ensures Parse(0, Cons(a, Pair(o, b, Spelled(d, Nil)))) == Got(Infix(Leaf(a), o, Ended(Leaf(b), d)), Nil)
  {
    hide *;
    PairIs();
    NameIs(a);
    NameIs(b);
    EndingIs(Leaf(b), d);
    InfixIs(Leaf(a), o, Ended(Leaf(b), d));
    OperandsEntry(o, Node(a, []), NodeOf(Ended(Leaf(b), d)));
    ReadsWhole(Infix(Leaf(a), o, Ended(Leaf(b), d)));
  }

  /** Endings apply in the order in which they are written. */
  lemma EndingsInOrder(a: Name, d: Ending, d': Ending)
    requires Fits(d) && Fits(d')
    ensures Parse(0, Cons(a, Spelled(d, Spelled(d', Nil)))) == Got(Ended(Ended(Leaf(a), d), d'), Nil)
  {
    hide *;
    NameIs(a);
    EndingIs(Leaf(a), d);
    EndingIs(Ended(Leaf(a), d), d');
    ReadsWhole(Ended(Ended(Leaf(a), d), d'));
  }

  /** A sign applies to its operand with all that ends it except a suffix operator, `new` also leaves calls outside,
      and `delete` leaves nothing. */
  lemma PrefixThenEnding(u: Token, a: Name, d: Ending)
    requires Fits(d) && (Sign(u.id) || u.id.Delete? || u.id.New?)
    ensures Parse(0, Pair(u, a, Spelled(d, Nil))) ==
      if !u.id.Delete? && (d.Stepped? || (u.id.New? && d.Called?)) then Got(Ended(Unary(u, Leaf(a)), d), Nil)
      else Got(Unary(u, Ended(Leaf(a), d)), Nil)
  {
    hide *;
    PairIs();
    NameIs(a);
    EndingIs(Leaf(a), d);
    UnaryIs(u, Leaf(a));
    UnaryIs(u, Ended(Leaf(a), d));
    EndingIs(Unary(u, Leaf(a)), d);
    ReadsWhole(Unary(u, Ended(Leaf(a), d)));
    ReadsWhole(Ended(Unary(u, Leaf(a)), d));
  }

  /** Compound assignments by bitwise operators. */
  predicate AssignsBits(id: Id) {
    match id
    case AssignBitAnd | AssignBitOr | AssignBitXor | AssignShl | AssignShr | AssignUshr => true
    case _ => false
  }

  /** Members and subscripts can be assigned to, but not those of `arguments` unless by a bitwise operator; calls
      and steps cannot. */
  lemma EndingThenOperator(a: Name, d: Ending, o: Operator, b: Name)
    requires Fits(d)
    ensures Parse(0, Cons(a, Spelled(d, Pair(o, b, Nil)))) ==
      if Tier(o.id) > 1 || ((d.Member? || d.At?) && (AssignsBits(o.id) || a.value != "arguments"))
      then Got(Infix(Ended(Leaf(a), d), o, Leaf(b)), Nil)
      else Stuck
  {
    hide *;
    PairIs();
    var left := Ended(Leaf(a), d);
    NameIs(a);
    NameIs(b);
    EndingIs(Leaf(a), d);
    InfixIs(left, o, Leaf(b));
    OperandsEntry(o, NodeOf(left), Node(b, []));
    if Tier(o.id) > 1 {
      ReadsWhole(Infix(left, o, Leaf(b)));
    } else if d.Member? || d.At? {
      PlaceEntry(o, NodeOf(left));
      if AssignsBits(o.id) || a.value != "arguments" {
        ReadsWhole(Infix(left, o, Leaf(b)));
      } else {
        BadTarget(left, o, Cons(b, Nil));
      }
    } else {
      NoTarget(left, o, Cons(b, Nil));
    }
  }

  lemma PlaceEntry(o: Operator, left: Node)
    requires Tier(o.id) == 1 && IsPlace(left) && |left.kids| > 0 && left.kids[0].Node?
    ensures forall right :: Operands(o, left, right) <==> AssignsBits(o.id) || left.kids[0].t.value != "arguments"
  {
  }

  // `?:`

  /** `?:` is looser than all operators but assignments. */
  lemma OperatorThenChoice(a: Name, o: Operator, b: Name, question: Token, c: Name, colon: Token, d: Name)
    requires question.id.Question? && colon.id.Colon?
    ensures Parse(0, Cons(a, Pair(o, b, Pair(question, c, Pair(colon, d, Nil))))) ==
      if Tier(o.id) == 1 then Got(Infix(Leaf(a), o, Conditional(Leaf(b), question, Leaf(c), colon, Leaf(d))), Nil)
      else Got(Conditional(Infix(Leaf(a), o, Leaf(b)), question, Leaf(c), colon, Leaf(d)), Nil)
  {
    hide *;
    PairIs();
    if Tier(o.id) == 1 {
      var right := Conditional(Leaf(b), question, Leaf(c), colon, Leaf(d));
      NameIs(a);
      NameChoice(b, question, c, colon, d);
      InfixIs(Leaf(a), o, right);
      OperandsEntry(o, Node(a, []), NodeOf(right));
      ReadsWhole(Infix(Leaf(a), o, right));
    } else {
      OperatorIs(a, o, b);
      ConditionReads(Infix(Leaf(a), o, Leaf(b)), question, c, colon, d);
    }
  }

  /** A condition is all before the `?` that is tighter. */
  lemma ConditionReads(e: Expr, question: Token, b: Name, colon: Token, c: Name)
    requires question.id.Question? && colon.id.Colon? && Binds(e, 0) && Closes(e, 30)
    ensures Parse(0, Yield(e, Pair(question, b, Pair(colon, c, Nil)))) ==
              Got(Conditional(e, question, Leaf(b), colon, Leaf(c)), Nil)
  {
    hide *;
    PairIs();
    NameIs(b);
    NameIs(c);
    ConditionalIs(e, question, Leaf(b), colon, Leaf(c));
    ReadsWhole(Conditional(e, question, Leaf(b), colon, Leaf(c)));
  }

  lemma NameChoice(a: Name, question: Token, b: Name, colon: Token, c: Name)
    requires question.id.Question? && colon.id.Colon?
    ensures var e := Conditional(Leaf(a), question, Leaf(b), colon, Leaf(c));
      && (forall rbp: nat :: rbp < 30 ==> Binds(e, rbp))
      && (forall k: Text :: Yield(e, k) == Cons(a, Pair(question, b, Pair(colon, c, k))))
      && NodeOf(e).Node?
  {
    hide *;
    PairIs();
    NameIs(a);
    NameIs(b);
    NameIs(c);
    ConditionalIs(Leaf(a), question, Leaf(b), colon, Leaf(c));
  }

  /** Its parts take all operators, assignments too. */
  lemma ChoiceThenOperators(a: Name, question: Token, b: Name, o: Operator, c: Name,
                            colon: Token, d: Name, p: Operator, f: Name)
    requires question.id.Question? && colon.id.Colon?
    ensures Parse(0, Cons(a, Pair(question, b, Pair(o, c, Pair(colon, d, Pair(p, f, Nil)))))) ==
      Got(Conditional(Leaf(a), question, Infix(Leaf(b), o, Leaf(c)), colon, Infix(Leaf(d), p, Leaf(f))), Nil)
  {
    hide *;
    PairIs();
    OperatorIs(b, o, c);
    OperatorIs(d, p, f);
    PartsRead(a, question, Infix(Leaf(b), o, Leaf(c)), colon, Infix(Leaf(d), p, Leaf(f)));
  }

  lemma PartsRead(a: Name, question: Token, yes: Expr, colon: Token, no: Expr)
    requires question.id.Question? && colon.id.Colon? && Binds(yes, 10) && Binds(no, 10)
    ensures Parse(0, Cons(a, Cons(question, Yield(yes, Cons(colon, Yield(no, Nil)))))) ==
              Got(Conditional(Leaf(a), question, yes, colon, no), Nil)
  {
    hide *;
    NameIs(a);
    ConditionalIs(Leaf(a), question, yes, colon, no);
    ReadsWhole(Conditional(Leaf(a), question, yes, colon, no));
  }

  /** Among themselves they group to the right, and nest between `?` and `:`. */
  lemma ChoiceThenChoice(a: Name, q: Token, b: Name, k: Token, c: Name, q': Token, d: Name, k': Token, f: Name)
    requires q.id.Question? && k.id.Colon? && q'.id.Question? && k'.id.Colon?
    ensures Parse(0, Cons(a, Pair(q, b, Pair(k, c, Pair(q', d, Pair(k', f, Nil)))))) ==
      Got(Conditional(Leaf(a), q, Leaf(b), k, Conditional(Leaf(c), q', Leaf(d), k', Leaf(f))), Nil)
    ensures Parse(0, Cons(a, Pair(q, b, Pair(q', c, Pair(k', d, Pair(k, f, Nil)))))) ==
      Got(Conditional(Leaf(a), q, Conditional(Leaf(b), q', Leaf(c), k', Leaf(d)), k, Leaf(f)), Nil)
  {
    hide *;
    PairIs();
    NameIs(b);
    NameIs(f);
    NameChoice(c, q', d, k', f);
    PartsRead(a, q, Leaf(b), k, Conditional(Leaf(c), q', Leaf(d), k', Leaf(f)));
    NameChoice(b, q', c, k', d);
    PartsRead(a, q, Conditional(Leaf(b), q', Leaf(c), k', Leaf(d)), k, Leaf(f));
  }

  /** A sign or `new` goes with the condition, `delete` takes the whole. */
  lemma PrefixThenChoice(u: Token, a: Name, question: Token, b: Name, colon: Token, c: Name)
    requires (Sign(u.id) || u.id.Delete? || u.id.New?) && question.id.Question? && colon.id.Colon?
    ensures Parse(0, Pair(u, a, Pair(question, b, Pair(colon, c, Nil)))) ==
      if u.id.Delete? then Got(Unary(u, Conditional(Leaf(a), question, Leaf(b), colon, Leaf(c))), Nil)
      else Got(Conditional(Unary(u, Leaf(a)), question, Leaf(b), colon, Leaf(c)), Nil)
  {
    hide *;
    PairIs();
    if u.id.Delete? {
      NameChoice(a, question, b, colon, c);
      UnaryIs(u, Conditional(Leaf(a), question, Leaf(b), colon, Leaf(c)));
      ReadsWhole(Unary(u, Conditional(Leaf(a), question, Leaf(b), colon, Leaf(c))));
    } else {
      NameIs(a);
      UnaryIs(u, Leaf(a));
      ConditionReads(Unary(u, Leaf(a)), question, b, colon, c);
    }
  }

  // Brackets.

  /** Parentheses make one operand of what they hold, and lists keep their parts apart, whatever the operators.
      What a bitwise assignment in parentheses leaves is its target, so that this alone can be assigned to. */
  lemma ParenThenOperator(open: Token, a: Name, o: Operator, b: Name, close: Token, p: Operator, c: Name)
    requires open.id.LParen? && close.id.RParen?
    ensures Parse(0, Pair(open, a, Pair(o, b, Pair(close, p, Cons(c, Nil))))) ==
      if Tier(p.id) > 1 || AssignsBits(o.id) then
        Got(Infix(Paren(open, Infix(Leaf(a), o, Leaf(b)), close), p, Leaf(c)), Nil)
      else Stuck
  {
    hide *;
    PairIs();
    var inner := Infix(Leaf(a), o, Leaf(b));
    var left := Paren(open, inner, close);
    OperatorIs(a, o, b);
    ParenIs(open, inner, close);
    NameIs(c);
    InfixIs(left, p, Leaf(c));
    OperatorNode(a, o, b);
    OperandsEntry(p, NodeOf(left), Node(c, []));
    if Tier(p.id) > 1 || AssignsBits(o.id) {
      ReadsWhole(Infix(left, p, Leaf(c)));
    } else {
      NoTarget(left, p, Cons(c, Nil));
    }
  }

  lemma OperatorNode(a: Name, o: Operator, b: Name)
    ensures var node := NodeOf(Infix(Leaf(a), o, Leaf(b)));
      && node.Node? && (if AssignsBits(o.id) then IsName(node) else !IsName(node) && !IsPlace(node))
  {
    hide Tier, Binds, Closes, Yield, NodeOf, AssignsBits, BinaryNode;
    NameIs(a);
    NameIs(b);
    InfixIs(Leaf(a), o, Leaf(b));
    NamesJoined(a, o, b);
  }

  lemma NamesJoined(a: Name, o: Operator, b: Name)
    ensures var node := BinaryNode(o, Node(a, []), Node(b, []));
      && node.Node? && (if AssignsBits(o.id) then IsName(node) else !IsName(node) && !IsPlace(node))
  {
  }

  lemma ListRead(f: Name, open: Token, a: Name, o: Operator, b: Name, comma: Token, c: Name, p: Operator, d: Name, close: Token)
    requires comma.id.Comma?
    ensures var items := MoreItems(Infix(Leaf(a), o, Leaf(b)), comma, LastItem(Infix(Leaf(c), p, Leaf(d))));
            var text := Cons(open, Cons(a, Pair(o, b, Pair(comma, c, Pair(p, d, Cons(close, Nil))))));
      && (open.id.LBracket? && close.id.RBracket? ==> Parse(0, text) == Got(ArrayLit(open, items, close), Nil))
      && (open.id.LParen? && close.id.RParen? ==>
            Parse(0, Cons(f, text)) == Got(Invoke(Leaf(f), open, items, close), Nil))
  {
    hide *;
    PairIs();
    var items := MoreItems(Infix(Leaf(a), o, Leaf(b)), comma, LastItem(Infix(Leaf(c), p, Leaf(d))));
    OperatorIs(a, o, b);
    OperatorIs(c, p, d);
    NameIs(f);
    ListIs(Infix(Leaf(a), o, Leaf(b)), comma, Infix(Leaf(c), p, Leaf(d)));
    if open.id.LBracket? && close.id.RBracket? {
      ArrayIs(open, items, close);
      ReadsWhole(ArrayLit(open, items, close));
    }
    if open.id.LParen? && close.id.RParen? {
      CallIs(Leaf(f), open, items, close);
      ReadsWhole(Invoke(Leaf(f), open, items, close));
    }
  }

  lemma ListIs(first: Expr, comma: Token, second: Expr)
    requires comma.id.Comma? && Binds(first, 10) && Binds(second, 10)
    ensures var items := MoreItems(first, comma, LastItem(second));
      && ItemsBind(items)
      && (forall k: Text :: ItemsYield(items, k) == Yield(first, Cons(comma, Yield(second, k))))
  {
    hide Binds, Yield;
  }

  lemma ArrayIs(open: Token, items: Items, close: Token)
    requires open.id.LBracket? && close.id.RBracket?
    ensures var e := ArrayLit(open, items, close);
      && (forall rbp: nat :: Binds(e, rbp) <==> ItemsBind(items)) && (forall p: nat :: Closes(e, p))
      && (forall k: Text :: Yield(e, k) == Cons(open, ItemsYield(items, Cons(close, k))))
      && NodeOf(e).Nothing?
  {
    hide NudOf, LedOf, Lbp, ItemsBind;
    PrefixEntry(open.id);
  }

  lemma CallIs(e: Expr, open: Token, items: Items, close: Token)
    requires open.id.LParen? && close.id.RParen?
    ensures var call := Invoke(e, open, items, close);
      && (forall rbp: nat :: Binds(call, rbp) <==> rbp < 155 && Binds(e, rbp) && Closes(e, 155) && ItemsBind(items))
      && (forall k: Text :: Yield(call, k) == Yield(e, Cons(open, ItemsYield(items, Cons(close, k)))))
  {
    hide NudOf, LedOf, Lbp, ItemsBind;
    BracketEntry(open.id);
  }

  // What each token can do at each place.

  /** The texts of one token that are expressions. */
  lemma LoneToken(t: Token)
    ensures Parse(0, Cons(t, Nil)) == if Alone(t.id) then Got(Leaf(t), Nil) else Stuck
  {
    hide NudOf, Alone, LedOf;
    LoneEntry(t.id);
    DelimiterEntry(End);
    assert ParseItems(Nil).BadItems?;
  }

  /** What the first token makes of a name after it. */
  lemma FirstToken(t: Token, a: Name)
    ensures Parse(0, Cons(t, Cons(a, Nil))) ==
      if Sign(t.id) || t.id.Delete? || t.id.New? then Got(Unary(t, Leaf(a)), Nil)
      else if Alone(t.id) then Got(Leaf(t), Cons(a, Nil))
      else Stuck
  {
    hide *;
    NameIs(a);
    AloneNames(a.id);
    LoneEntry(a.id);
    if Sign(t.id) || t.id.Delete? || t.id.New? {
      UnaryIs(t, Leaf(a));
      ReadsWhole(Unary(t, Leaf(a)));
    } else if Alone(t.id) {
      LeafIs(t);
      EndsBefore(Leaf(t), a, Nil);
    } else {
      PrefixEntry(t.id);
      LoneToken(a);
      NoStart(t, a);
    }
  }

  lemma EndsBefore(e: Expr, t: Token, rest: Text)
    requires Binds(e, 0) && Lbp(t.id) == 0
    ensures Parse(0, Yield(e, Cons(t, rest))) == Got(e, Cons(t, rest))
  {
    hide Binds, Yield, Lbp, Parse;
    DelimitedParses(0, e, Cons(t, rest));
  }

  lemma NoStart(t: Token, a: Name)
    requires NudOf(t.id).NoNud? || NudOf(t.id).Group? || NudOf(t.id).List?
    ensures Parse(0, Cons(t, Cons(a, Nil))) == Stuck
  {
    hide NudOf, Yield, Binds, LedOf, Lbp;
    NameIs(a);
    DelimiterEntry(End);
    DelimitedParses(0, Leaf(a), Nil);
    DelimitedParses(10, Leaf(a), Nil);
  }

  /** What the second token does between two names: it joins them, applies to the first, ends the expression, or is
      refused. */
  lemma SecondToken(a: Name, t: Token, b: Name)
    ensures Parse(0, Cons(a, Cons(t, Cons(b, Nil)))) ==
      if Tier(t.id) > 0 then Got(Infix(Leaf(a), t, Leaf(b)), Nil)
      else if t.id.Dot? then Got(Dotted(Leaf(a), t, b), Nil)
      else if t.id.Incr? || t.id.Decr? then Got(Suffix(Leaf(a), t), Cons(b, Nil))
      else if t.id.Question? || t.id.LParen? || t.id.LBracket?
           || t.id.Delete? || t.id.Tilde? || t.id.Not? || t.id.Typeof? || t.id.New? then Stuck
      else Got(Leaf(a), Cons(t, Cons(b, Nil)))
  {
    hide *;
    PairIs();
    NameIs(a);
    AloneNames(b.id);
    LoneEntry(b.id);
    if Tier(t.id) > 0 {
      OperatorIs(a, t, b);
      ReadsWhole(Infix(Leaf(a), t, Leaf(b)));
    } else if t.id.Dot? {
      MemberIs(a, t, b);
    } else if t.id.Incr? || t.id.Decr? {
      StepIs(a, t, b);
    } else if t.id.Question? || t.id.LParen? || t.id.LBracket? {
      HalfOpen(a, t, b);
    } else if t.id.Delete? || t.id.Tilde? || t.id.Not? || t.id.Typeof? || t.id.New? {
      Misplaced(a, t, b);
    } else {
      RestEntry(t.id);
      EndsBefore(Leaf(a), t, Cons(b, Nil));
    }
  }

  lemma MemberIs(a: Name, t: Token, b: Name)
    requires t.id.Dot?
    ensures Parse(0, Cons(a, Cons(t, Cons(b, Nil)))) == Got(Dotted(Leaf(a), t, b), Nil)
  {
    hide Parse, Binds, Yield, Closes;
    NameIs(a);
    EndingIs(Leaf(a), Ending.Member(t, b));
    ReadsWhole(Dotted(Leaf(a), t, b));
  }

  lemma StepIs(a: Name, t: Token, b: Name)
    requires t.id.Incr? || t.id.Decr?
    ensures Parse(0, Cons(a, Cons(t, Cons(b, Nil)))) == Got(Suffix(Leaf(a), t), Cons(b, Nil))
  {
    hide Parse, Binds, Yield, Closes, Lbp, Alone;
    NameIs(a);
    AloneNames(b.id);
    LoneEntry(b.id);
    EndingIs(Leaf(a), Stepped(t));
    EndsBefore(Suffix(Leaf(a), t), b, Nil);
  }

  lemma HalfOpen(a: Name, t: Token, b: Name)
    requires t.id.Question? || t.id.LParen? || t.id.LBracket?
    ensures Parse(0, Cons(a, Cons(t, Cons(b, Nil)))) == Stuck
  {
    hide Binds, Yield, Closes, Lbp, LedOf, NudOf, Continue, Prefix;
    NameIs(a);
    NameIs(b);
    OtherEntry(t.id);
    BracketEntry(t.id);
    DelimiterEntry(End);
    DelimitedParses(0, Leaf(b), Nil);
    DelimitedParses(10, Leaf(b), Nil);
    StopsAt(Leaf(a), t, Cons(b, Nil));
  }

  lemma Misplaced(a: Name, t: Token, b: Name)
    requires t.id.Delete? || t.id.Tilde? || t.id.Not? || t.id.Typeof? || t.id.New?
    ensures Parse(0, Cons(a, Cons(t, Cons(b, Nil)))) == Stuck
  {
    hide Binds, Yield, Closes, Lbp, LedOf, NudOf, Continue, Prefix;
    NameIs(a);
    MisplacedEntry(t.id);
    StopsAt(Leaf(a), t, Cons(b, Nil));
  }

  lemma RestEntry(id: Id)
    requires Tier(id) == 0 && !id.Dot? && !id.Incr? && !id.Decr? && !id.Question? && !id.LParen? && !id.LBracket?
    requires !id.Delete? && !id.Tilde? && !id.Not? && !id.Typeof? && !id.New?
    ensures Lbp(id) == 0
  {
  }

  /** What can stand after a dot: a name, or a reserved word whose value is `arguments`. */
  lemma MemberNames(a: Name, dot: Token, t: Token)
    requires dot.id.Dot?
    ensures Parse(0, Cons(a, Cons(dot, Cons(t, Nil)))) ==
      if t.id.Identifier? || (Reservable(t.id) && t.value == "arguments") then Got(Dotted(Leaf(a), dot, t), Nil) else Stuck
  {
    hide Binds, Yield, Closes, Lbp, LedOf, NudOf, Continue, Prefix;
    NameIs(a);
    BracketEntry(dot.id);
    DelimiterEntry(End);
    if Names(t) {
      DottedReads(a, dot, t);
    } else {
      StopsAt(Leaf(a), dot, Cons(t, Nil));
    }
  }

  lemma DottedReads(a: Name, dot: Token, t: Token)
    requires dot.id.Dot? && Names(t)
    ensures Parse(0, Cons(a, Cons(dot, Cons(t, Nil)))) == Got(Dotted(Leaf(a), dot, t), Nil)
  {
    hide *;
    NameIs(a);
    DottedIs(Leaf(a), dot, t);
    ReadsWhole(Dotted(Leaf(a), dot, t));
  }

  predicate Reservable(id: Id) {
    match id
    case Arguments | Eval | False | Infinity | NaN | Null | This | True | Undefined | Word | Function
       | In | InstanceOf | Delete | Typeof | New => true
    case _ => false
  }

  /** What may stand to the left of an assignment on its own, and what `==` and `!=` do without a node on one side,
      which an empty array stands for here: they go on only if the other one makes them complain. */
  lemma LoneOperands(x: Token, o: Operator, y: Name, open: Token, close: Token)
    requires Alone(x.id) && open.id.LBracket? && close.id.RBracket?
    ensures Parse(0, Cons(x, Cons(o, Cons(y, Nil)))).Got? <==> Tier(o.id) > 1 || x.id.Identifier?
    ensures Tier(o.id) > 1 ==> (Parse(0, Cons(x, Pair(o, open, Cons(close, Nil)))).Got? <==>
      || !(o.id.Eq? || o.id.NotEq?)
      || x.id.NaN? || x.id.True? || x.id.False? || x.id.Undefined? || x.id.Null?
      || ((x.id.Number? || x.id.String?) && x.falsy))
    ensures Tier(o.id) > 1 ==> (Parse(0, Pair(open, close, Pair(o, x, Nil))).Got? <==>
      !(o.id.Eq? || o.id.NotEq?) || x.id.NaN?)
  {
    hide *;
    PairIs();
    LoneTarget(x, o, y);
    if Tier(o.id) > 1 {
      NothingToCompare(o, x);
      EmptyRight(x, o, open, close);
      EmptyLeft(open, close, o, x);
    }
  }

  lemma LoneTarget(x: Token, o: Operator, y: Name)
    requires Alone(x.id)
    ensures Parse(0, Cons(x, Cons(o, Cons(y, Nil)))).Got? <==> Tier(o.id) > 1 || x.id.Identifier?
  {
    hide *;
    LeafIs(x);
    NameIs(y);
    InfixIs(Leaf(x), o, Leaf(y));
    OperandsEntry(o, Node(x, []), Node(y, []));
    LoneNode(x);
    if Tier(o.id) > 1 || x.id.Identifier? {
      ReadsWhole(Infix(Leaf(x), o, Leaf(y)));
    } else {
      NoTarget(Leaf(x), o, Cons(y, Nil));
    }
  }

  lemma LoneNode(x: Token)
    requires Alone(x.id)
    ensures IsName(Node(x, [])) <==> x.id.Identifier?
    ensures !IsPlace(Node(x, []))
  {
  }

  lemma EmptyRight(x: Token, o: Operator, open: Token, close: Token)
    requires Alone(x.id) && open.id.LBracket? && close.id.RBracket? && Tier(o.id) > 1
    ensures Parse(0, Cons(x, Cons(o, Cons(open, Cons(close, Nil))))).Got? <==> Operands(o, Node(x, []), Nothing)
  {
    hide *;
    var right := ArrayLit(open, NoItems, close);
    LeafIs(x);
    ArrayIs(open, NoItems, close);
    EmptyList();
    InfixIs(Leaf(x), o, right);
    if Operands(o, Node(x, []), Nothing) {
      ReadsWhole(Infix(Leaf(x), o, right));
    } else {
      BadOperands(Leaf(x), o, right);
    }
  }

  lemma EmptyLeft(open: Token, close: Token, o: Operator, x: Token)
    requires Alone(x.id) && open.id.LBracket? && close.id.RBracket? && Tier(o.id) > 1
    ensures Parse(0, Cons(open, Cons(close, Cons(o, Cons(x, Nil))))).Got? <==> Operands(o, Nothing, Node(x, []))
  {
    hide *;
    var left := ArrayLit(open, NoItems, close);
    LeafIs(x);
    ArrayIs(open, NoItems, close);
    EmptyList();
    InfixIs(left, o, Leaf(x));
    if Operands(o, Nothing, Node(x, [])) {
      ReadsWhole(Infix(left, o, Leaf(x)));
    } else {
      BadOperands(left, o, Leaf(x));
    }
  }

  lemma EmptyList()
    ensures ItemsBind(NoItems) && forall k: Text :: ItemsYield(NoItems, k) == k
  {
  }

  // Nodes.

  /** `+ s[0] + s[1]` and so on. */
  function Addends(plus: Token, s: seq<Token>): Text {
    if s == [] then Nil else Pair(plus, s[0], Addends(plus, s[1..]))
  }

  function Sum(e: Expr, plus: Token, s: seq<Token>): Expr
    decreases |s|
  {
    if s == [] then e else Sum(Infix(e, plus, Leaf(s[0])), plus, s[1..])
  }

  function Values(s: seq<Token>): string {
    if s == [] then "" else s[0].value + Values(s[1..])
  }

  /** However many string literals are added, a single node comes out, a string literal with the text of all. */
  lemma LiteralsJoin(first: Token, plus: Token, s: seq<Token>)
    requires plus.id.Plus? && first.id.String? && forall i :: 0 <= i < |s| ==> s[i].id.String?
    ensures var e := Sum(Leaf(first), plus, s);
      && Parse(0, Cons(first, Addends(plus, s))) == Got(e, Nil)
      && NodeOf(e).Node? && NodeOf(e).t.id.String? && NodeOf(e).kids == []
      && NodeOf(e).t.value == first.value + Values(s) && NodeOf(e).t.from == first.from
      && NodeOf(e).t.character == (if s == [] then first else s[|s| - 1]).character
  {
    hide Parse, Binds, Closes, Yield, Tier, NodeOf, Alone;
    StringEntry(first, plus);
    LeafIs(first);
    SumIs(Leaf(first), plus, s);
    ReadsWhole(Sum(Leaf(first), plus, s));
  }

  lemma StringEntry(t: Token, plus: Token)
    ensures t.id.String? ==> Alone(t.id)
    ensures plus.id.Plus? ==> Tier(plus.id) == 9
  {
  }

  lemma {:induction false} SumIs(e: Expr, plus: Token, s: seq<Token>)
    requires plus.id.Plus? && forall i :: 0 <= i < |s| ==> s[i].id.String?
    requires Binds(e, 0) && Closes(e, 130) && NodeOf(e).Node? && NodeOf(e).t.id.String?
    ensures var all := Sum(e, plus, s);
      && Binds(all, 0) && Yield(all, Nil) == Yield(e, Addends(plus, s))
      && NodeOf(all).Node? && NodeOf(all).t.id.String? && NodeOf(all).kids == NodeOf(e).kids
      && NodeOf(all).t.value == NodeOf(e).t.value + Values(s) && NodeOf(all).t.from == NodeOf(e).t.from
      && NodeOf(all).t.character == (if s == [] then NodeOf(e).t else s[|s| - 1]).character
    decreases |s|
  {
    hide Binds, Closes, Yield, Tier, NodeOf, Operands, Alone;
    if s != [] {
      var more := Infix(e, plus, Leaf(s[0]));
      StringEntry(s[0], plus);
      LeafIs(s[0]);
      InfixIs(e, plus, Leaf(s[0]));
      OperandsEntry(plus, NodeOf(e), Node(s[0], []));
      SumIs(more, plus, s[1..]);
      Regroup(NodeOf(e).t.value, s[0].value, Values(s[1..]));
    }
  }
}
