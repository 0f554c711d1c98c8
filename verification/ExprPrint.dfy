/**
 Printing an expression with as few parentheses as expr_print uses, and reading it back by
 the grammar of Kconfig files.
 */
module ExprPrint {
  import opened Expr

  /** Symbols are read back as the symbols that were printed. */
  datatype Token = Word(sym: Symbol) | RelSign(rel: Rel) | NotSign | OpSign(op: BoolOp) | Open | Close

  /** What an expression is printed inside of. */
  datatype Context = Top | InNot | In(op: BoolOp)

  /** The comparison of expression types: an operand that binds less tightly needs parentheses. */
  predicate Parenthesized(c: Context, e: Expr) {
    e.Bin? && (c.InNot? || (c.In? && c.op.AndOp? && e.op.OrOp?))
  }

  function Print(e: Expr, c: Context): seq<Token>
    decreases e, 1
  {
    if Parenthesized(c, e) then [Open] + Bare(e) + [Close] else Bare(e)
  }

  function Bare(e: Expr): seq<Token>
    decreases e, 0
  {
    match e
    case Sym(s) => [Word(s)]
    case Not(a) => [NotSign] + Print(a, InNot)
    case Comp(rel, l, r) => [Word(l), RelSign(rel), Word(r)]
    case Bin(op, l, r) => Print(l, In(op)) + [OpSign(op)] + Print(r, In(op))
  }

  /** No expression at all is printed as y. */
  function PrintOpt(e: Option<Expr>): seq<Token> {
    if e.None? then [Word(SymbolYes)] else Print(e.value, Top)
  }

  // ---------------------------------------------------------------- the grammar

  /** "!" binds tightest, then "&&", then "||"; both chain to the left. */
  function ReadUnary(ts: seq<Token>): (r: Option<(Expr, seq<Token>)>)
    ensures r.Some? ==> |r.value.1| < |ts|
    decreases |ts|, 0
  {
    if ts == [] then None
    else match ts[0]
      case NotSign =>
        var a := ReadUnary(ts[1..]);
        if a.None? then None else Some((Not(a.value.0), a.value.1))
      case Open =>
        var a := ReadChain(OrOp, ts[1..]);
        if a.Some? && a.value.1 != [] && a.value.1[0] == Close then Some((a.value.0, a.value.1[1..])) else None
      case Word(s) =>
        if |ts| < 2 || !ts[1].RelSign? then Some((Sym(s), ts[1..]))
        else if |ts| >= 3 && ts[2].Word? then Some((Comp(ts[1].rel, s, ts[2].sym), ts[3..]))
        else None
      case _ => None
  }

  function ReadOperand(op: BoolOp, ts: seq<Token>): (r: Option<(Expr, seq<Token>)>)
    ensures r.Some? ==> |r.value.1| < |ts|
    decreases |ts|, if op.AndOp? then 1 else 3
  {
    if op.AndOp? then ReadUnary(ts) else ReadChain(AndOp, ts)
  }

  function ReadChain(op: BoolOp, ts: seq<Token>): (r: Option<(Expr, seq<Token>)>)
    ensures r.Some? ==> |r.value.1| < |ts|
    decreases |ts|, if op.AndOp? then 2 else 4
  {
    var a := ReadOperand(op, ts);
    if a.None? then None else ReadMore(op, a.value.0, a.value.1)
  }

  /** Further operands of a chain after e. */
  function ReadMore(op: BoolOp, e: Expr, ts: seq<Token>): (r: Option<(Expr, seq<Token>)>)
    ensures r.Some? ==> |r.value.1| <= |ts|
    decreases |ts|, 5
  {
    if ts == [] || ts[0] != OpSign(op) then Some((e, ts))
    else
      var a := ReadOperand(op, ts[1..]);
      if a.None? then None else ReadMore(op, Bin(op, e, a.value.0), a.value.1)
  }

  /** A whole expression and nothing after it. */
  function Read(ts: seq<Token>): Option<Expr> {
    var r := ReadChain(OrOp, ts);
    if r.Some? && r.value.1 == [] then Some(r.value.0) else None
  }

  // ---------------------------------------------------------------- what comes back

  /** The operands of the chain b, one by one, put on the right of a. */
  function Graft(op: BoolOp, a: Expr, b: Expr): Expr {
    if b.Bin? && b.op == op then Bin(op, Graft(op, a, b.left), b.right) else Bin(op, a, b)
  }

  /** The same expression with every chain regrouped to the left. */
  function Regrouped(e: Expr): Expr {
    match e
    case Not(a) => Not(Regrouped(a))
    case Bin(op, l, r) => Graft(op, Regrouped(l), Regrouped(r))
    case _ => e
  }

  lemma {:induction false} GraftGraft(op: BoolOp, a: Expr, b: Expr, c: Expr)
    ensures Graft(op, Graft(op, a, b), c) == Graft(op, a, Graft(op, b, c))
  {
    if c.Bin? && c.op == op {
      GraftGraft(op, a, b, c.left);
    }
  }

  lemma {:induction false} GraftValue(op: BoolOp, a: Expr, b: Expr, env: Env)
    ensures Eval(Graft(op, a, b), env) == Combine(op, Eval(a, env), Eval(b, env))
  {
    if b.Bin? && b.op == op {
      GraftValue(op, a, b.left, env);
      Regroup(op, Eval(a, env), Eval(b.left, env), Eval(b.right, env), Eval(b.right, env));
    }
  }

  /** Regrouping does not change the value. */
  lemma {:induction false} RegroupedValue(e: Expr, env: Env)
    ensures Eval(Regrouped(e), env) == Eval(e, env)
  {
    match e
    case Not(a) => RegroupedValue(a, env);
    case Bin(op, l, r) =>
      RegroupedValue(l, env);
      RegroupedValue(r, env);
      GraftValue(op, Regrouped(l), Regrouped(r), env);
    case _ =>
  }

  lemma {:induction false} GraftOperands(op: BoolOp, a: Expr, b: Expr)
    ensures Operands(op, Graft(op, a, b)) == Operands(op, a) + Operands(op, b)
  {
    if b.Bin? && b.op == op {
      GraftOperands(op, a, b.left);
    }
  }

  /** A regrouped chain has the same operands in the same order, each regrouped itself. */
  lemma {:induction false} RegroupedOperands(op: BoolOp, e: Expr)
    ensures |Operands(op, Regrouped(e))| == |Operands(op, e)|
    ensures forall k :: 0 <= k < |Operands(op, e)| ==> Operands(op, Regrouped(e))[k] == Regrouped(Operands(op, e)[k])
  {
    if e.Bin? && e.op == op {
      RegroupedOperands(op, e.left);
      RegroupedOperands(op, e.right);
      GraftOperands(op, Regrouped(e.left), Regrouped(e.right));
    } else {
      assert Regrouped(e).Bin? ==> Regrouped(e).op != op;
    }
  }

  /** Every chain groups to the left. */
  predicate LeftGrouped(e: Expr) {
    match e
    case Not(a) => LeftGrouped(a)
    case Bin(op, l, r) => LeftGrouped(l) && LeftGrouped(r) && !(r.Bin? && r.op == op)
    case _ => true
  }

  /** Only expressions that are not grouped to the left are changed. */
  lemma {:induction false} RegroupedSame(e: Expr)
    ensures Regrouped(e) == e <==> LeftGrouped(e)
    ensures LeftGrouped(Regrouped(e))
  {
    match e
    case Not(a) => RegroupedSame(a);
    case Bin(op, l, r) =>
      RegroupedSame(l);
      RegroupedSame(r);
      GraftLeft(op, Regrouped(l), Regrouped(r));
    case _ =>
  }

  lemma {:induction false} GraftLeft(op: BoolOp, a: Expr, b: Expr)
    requires LeftGrouped(a) && LeftGrouped(b)
    ensures LeftGrouped(Graft(op, a, b))
  {
    if b.Bin? && b.op == op {
      GraftLeft(op, a, b.left);
    }
  }

  // ---------------------------------------------------------------- round trip

  /** What may follow a chain of operands: no relation, and no tighter operator. */
  predicate MayFollow(op: BoolOp, rest: seq<Token>) {
    rest != [] ==> !rest[0].RelSign? && (op.OrOp? ==> rest[0] != OpSign(AndOp))
  }

  /** An operand, with its parentheses if it has any, is read back as one operand. */
  lemma {:induction false} UnaryRead(e: Expr, rest: seq<Token>)
    requires rest != [] ==> !rest[0].RelSign?
    ensures ReadUnary(Print(e, InNot) + rest) == Some((Regrouped(e), rest))
    decreases e, if e.Bin? then 8 else 0
  {
    var ts := Print(e, InNot) + rest;
    match e
    case Sym(s) =>
      assert Print(e, InNot) == [Word(s)];
      assert ts[0] == Word(s) && ts[1..] == rest;
    case Comp(rel, l, r) =>
      assert Print(e, InNot) == [Word(l), RelSign(rel), Word(r)];
      assert ts[0] == Word(l) && ts[1] == RelSign(rel) && ts[2] == Word(r) && ts[3..] == rest;
    case Not(a) =>
      assert Print(e, InNot) == [NotSign] + Print(a, InNot);
      assert ts[0] == NotSign && ts[1..] == Print(a, InNot) + rest;
      UnaryRead(a, rest);
    case Bin(_, _, _) =>
      assert Print(e, InNot) == [Open] + Bare(e) + [Close];
      assert ts[0] == Open && ts[1..] == Bare(e) + ([Close] + rest);
      BareRead(e, [Close] + rest);
      assert ([Close] + rest)[1..] == rest;
  }

  /** Without parentheses it is read back by whatever reads a whole expression. */
  lemma {:induction false} BareRead(e: Expr, rest: seq<Token>)
    requires rest != [] ==> !rest[0].RelSign? && !rest[0].OpSign?
    ensures ReadChain(OrOp, Bare(e) + rest) == Some((Regrouped(e), rest))
    decreases e, 7
  {
    assert Bare(e) == Print(e, In(OrOp));
    ChainRead(OrOp, e, rest);
  }

  /** One operand of a chain. */
  lemma {:induction false} OperandRead(op: BoolOp, e: Expr, rest: seq<Token>)
    requires MayFollow(op, rest) && !(e.Bin? && e.op == op)
    ensures ReadOperand(op, Print(e, In(op)) + rest)
            == if op.OrOp? then ReadMore(AndOp, Regrouped(e), rest) else Some((Regrouped(e), rest))
    decreases e, if op.OrOp? then 5 else if e.Bin? then 9 else 1
  {
    if op.AndOp? {
      assert Print(e, In(op)) == Print(e, InNot);
      UnaryRead(e, rest);
    } else {
      assert Print(e, In(op)) == Print(e, In(AndOp));
      ChainRead(AndOp, e, rest);
    }
  }

  /** A chain, and then whatever more there is of it. */
  lemma {:induction false} ChainRead(op: BoolOp, e: Expr, rest: seq<Token>)
    requires MayFollow(op, rest)
    ensures ReadChain(op, Print(e, In(op)) + rest) == ReadMore(op, Regrouped(e), rest)
    decreases e, if op.OrOp? then 6 else if !e.Bin? then 2 else if e.op.AndOp? then 4 else 10
  {
    if e.Bin? && e.op == op {
      var more := [OpSign(op)] + Print(e.right, In(op)) + rest;
      assert Print(e, In(op)) + rest == Print(e.left, In(op)) + more;
      ChainRead(op, e.left, more);
      MoreRead(op, Regrouped(e.left), e.right, rest);
    } else {
      OperandRead(op, e, rest);
    }
  }

  /** A further operand, itself a chain perhaps, is grafted onto what has been read. */
  lemma {:induction false} MoreRead(op: BoolOp, acc: Expr, e: Expr, rest: seq<Token>)
    requires MayFollow(op, rest)
    ensures ReadMore(op, acc, [OpSign(op)] + Print(e, In(op)) + rest)
            == ReadMore(op, Graft(op, acc, Regrouped(e)), rest)
    decreases e, 11
  {
    var ts := [OpSign(op)] + Print(e, In(op)) + rest;
    if e.Bin? && e.op == op {
      var more := [OpSign(op)] + Print(e.right, In(op)) + rest;
      assert ts == [OpSign(op)] + Print(e.left, In(op)) + more;
      MoreRead(op, acc, e.left, more);
      MoreRead(op, Graft(op, acc, Regrouped(e.left)), e.right, rest);
      GraftGraft(op, acc, Regrouped(e.left), Regrouped(e.right));
    } else {
      assert ts[1..] == Print(e, In(op)) + rest;
      OperandRead(op, e, rest);
    }
  }

  /** Every expression is read back regrouped to the left: with the same operands in every
      chain and the same value, and as the very same one if it was grouped so before. */
  lemma PrintedIsRead(e: Expr)
    ensures Read(Print(e, Top)) == Some(Regrouped(e))
    ensures Read(Print(e, Top)) == Some(e) <==> LeftGrouped(e)
    ensures forall env: Env :: Eval(Regrouped(e), env) == Eval(e, env)
  {
    assert Print(e, Top) + [] == Bare(e);
    BareRead(e, []);
    RegroupedSame(e);
    forall env: Env ensures Eval(Regrouped(e), env) == Eval(e, env) {
      RegroupedValue(e, env);
    }
  }

  /** An absent expression is read back as y, which has its value. */
  lemma AbsentIsReadAsY(env: Env)
    requires Proper(env)
    ensures Read(PrintOpt(None)) == Some(Y) && Eval(Y, env) == EvalOpt(None, env)
  {
    BareRead(Y, []);
    assert PrintOpt(None) == Bare(Y) + [];
  }
}
