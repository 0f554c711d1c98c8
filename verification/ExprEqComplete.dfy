/**
 What the equality test and the cancellation achieve, beyond being sound: nothing common
 is left behind, and every expression equals itself.
 */
module ExprEqComplete {
  import opened Expr
  import opened ExprEq
  import opened Cursor

  // ---------------------------------------------------------------- nothing common is left

  /** No operand of x equals an operand of y, literals aside. */
  ghost predicate NothingCommon(op: BoolOp, x: Expr, y: Expr)
    decreases Size(x) + Size(y)
  {
    if IsOp(op, x) then NothingCommon(op, x.left, y) && NothingCommon(op, x.right, y)
    else if IsOp(op, y) then NothingCommon(op, x, y.left) && NothingCommon(op, x, y.right)
    else ExprEqual(x, y) ==> x == y && IsLiteral(x)
  }

  /** y is x with some operands of the level replaced by the unit of op. */
  predicate Reduces(op: BoolOp, x: Expr, y: Expr) {
    if IsOp(op, x) then IsOp(op, y) && Reduces(op, x.left, y.left) && Reduces(op, x.right, y.right)
    else y == x || y == Sym(Unit(op))
  }

  lemma {:induction false} ReducesTransitive(op: BoolOp, x: Expr, y: Expr, z: Expr)
    requires Reduces(op, x, y) && Reduces(op, y, z)
    ensures Reduces(op, x, z)
  {
    if IsOp(op, x) {
      ReducesTransitive(op, x.left, y.left, z.left);
      ReducesTransitive(op, x.right, y.right, z.right);
    }
  }

  lemma {:induction false} ReducesReflexive(op: BoolOp, x: Expr)
    ensures Reduces(op, x, x)
  {
    if IsOp(op, x) {
      ReducesReflexive(op, x.left);
      ReducesReflexive(op, x.right);
    }
  }

  lemma {:induction false} NothingCommonReduces(op: BoolOp, x: Expr, y: Expr, x': Expr, y': Expr)
    requires NothingCommon(op, x, y) && Reduces(op, x, x') && Reduces(op, y, y')
    ensures NothingCommon(op, x', y')
    decreases Size(x) + Size(y)
  {
    if IsOp(op, x) {
      NothingCommonReduces(op, x.left, y, x'.left, y');
      NothingCommonReduces(op, x.right, y, x'.right, y');
    } else if IsOp(op, y) {
      NothingCommonReduces(op, x, y.left, x', y'.left);
      NothingCommonReduces(op, x, y.right, x', y'.right);
    }
  }

  /** The walk changes operands to units only, and afterwards nothing is common. */
  lemma {:induction false} CancelPairsComplete(op: BoolOp, e1: Expr, e2: Expr)
    ensures var (n1, n2) := CancelPairs(op, e1, e2);
            && Reduces(op, e1, n1) && Reduces(op, e2, n2)
            && NothingCommon(op, n1, n2)
    decreases Size(e1) + Size(e2)
  {
    hide ExprEqual, CancelPairs;
    CancelPairsBelow(op, e1, e2);
    if IsOp(op, e1) {
      var (l, a) := CancelPairs(op, e1.left, e2);
      var (r, b) := CancelPairs(op, e1.right, a);
      CancelPairsComplete(op, e1.left, e2);
      CancelPairsComplete(op, e1.right, a);
      ReducesTransitive(op, e2, a, b);
      ReducesReflexive(op, l);
      NothingCommonReduces(op, l, a, l, b);
    } else if IsOp(op, e2) {
      var (a, l) := CancelPairs(op, e1, e2.left);
      var (b, r) := CancelPairs(op, a, e2.right);
      CancelPairsComplete(op, e1, e2.left);
      CancelPairsComplete(op, a, e2.right);
      ReducesTransitive(op, e1, a, b);
      ReducesReflexive(op, l);
      NothingCommonReduces(op, a, l, b, l);
    } else {
      TwoOperandsLeft(op, e1, e2);
    }
  }

  lemma TwoOperandsLeft(op: BoolOp, e1: Expr, e2: Expr)
    requires !IsOp(op, e1) && !IsOp(op, e2)
    ensures var (n1, n2) := CancelPairs(op, e1, e2);
            Reduces(op, e1, n1) && Reduces(op, e2, n2) && NothingCommon(op, n1, n2)
  {
  }

  /** A single operand is cancelled once or not at all. */
  lemma {:induction false} OneAgainstMany(op: BoolOp, x: Expr, t: Expr)
    requires !IsOp(op, x)
    ensures CancelPairs(op, x, t) == (x, t) || CancelPairs(op, x, t).0 == Sym(Unit(op))
    decreases Size(t)
  {
    if IsOp(op, t) {
      var (a, l) := CancelPairs(op, x, t.left);
      var (b, r) := CancelPairs(op, a, t.right);
      assert CancelPairs(op, x, t) == (b, Bin(op, l, r));
      OneAgainstMany(op, x, t.left);
      OneAgainstMany(op, a, t.right);
    }
  }

  lemma SymbolAgainstChain(op: BoolOp, x: Expr, y: Expr)
    requires (x.Sym? && y.Bin? && !IsOp(op, y)) || (x.Bin? && y.Sym? && !IsOp(op, x))
    ensures NothingCommon(op, x, y)
  {
  }

  /** The whole elimination leaves nothing common, neither at the level that the first expression
      is a chain of nor at that of the second: c and d are what it comes to before y and n are
      dropped. */
  lemma EliminateEqComplete(e1: Expr, e2: Expr) returns (c: Expr, d: Expr)
    ensures EliminateEq(e1, e2) == (EliminateYn(c), EliminateYn(d))
    ensures forall op: BoolOp :: IsOp(op, e1) || IsOp(op, e2) ==> NothingCommon(op, c, d)
  {
    hide ExprEqual, CancelPairs, EliminateYn;
    var (a, b) := if e1.Bin? then CancelPairs(e1.op, e1, e2) else (e1, e2);
    c, d := a, b;
    if e1.Bin? {
      CancelPairsComplete(e1.op, e1, e2);
    }
    if b.Bin? && !IsOp(b.op, a) {
      c, d := CancelPairs(b.op, a, b).0, CancelPairs(b.op, a, b).1;
      CancelPairsComplete(b.op, a, b);
      OneAgainstMany(b.op, a, b);
    }
    forall op: BoolOp | IsOp(op, e1) || IsOp(op, e2) ensures NothingCommon(op, c, d) {
      if IsOp(op, e1) && (c, d) != (a, b) {
        SymbolAgainstChain(op, c, d);
      } else if !IsOp(op, e1) && !b.Bin? {
        SymbolAgainstChain(op, c, d);
      }
    }
  }

  // ---------------------------------------------------------------- reflexivity

  /** The level with every operand that is not y or n cancelled. */
  function Cancelled(op: BoolOp, e: Expr): Expr {
    if IsOp(op, e) then Bin(op, Cancelled(op, e.left), Cancelled(op, e.right))
    else if IsLiteral(e) then e
    else Sym(Unit(op))
  }

  predicate AllLiterals(op: BoolOp, e: Expr) {
    if IsOp(op, e) then AllLiterals(op, e.left) && AllLiterals(op, e.right) else IsLiteral(e)
  }

  /** Every operand before the cursor is y or n. */
  predicate LiteralsBefore(op: BoolOp, t: Expr, p: Path)
    requires InLevel(op, t, p)
  {
    p == [] || ((p[0].Right? ==> AllLiterals(op, t.left)) && LiteralsBefore(op, Child(t, p[0]), p[1..]))
  }

  lemma {:induction false} CancelledIsLiteral(op: BoolOp, e: Expr)
    ensures AllLiterals(op, Cancelled(op, e))
    ensures AllLiterals(op, e) ==> Cancelled(op, e) == e && IsLiteral(EliminateYn(e))
  {
    if IsOp(op, e) {
      CancelledIsLiteral(op, e.left);
      CancelledIsLiteral(op, e.right);
    }
  }

  lemma {:induction false} LiteralCancelsNothing(op: BoolOp, lit: Expr, t: Expr)
    requires IsLiteral(lit)
    ensures CancelPairs(op, lit, t) == (lit, t)
  {
    if IsOp(op, t) {
      LiteralCancelsNothing(op, lit, t.left);
      LiteralCancelsNothing(op, lit, t.right);
    }
  }

  lemma {:induction false} LiteralsCancelNothing(op: BoolOp, x: Expr, t: Expr)
    requires !IsOp(op, x) && AllLiterals(op, t)
    ensures CancelPairs(op, x, t) == (x, t)
  {
    if IsOp(op, t) {
      LiteralsCancelNothing(op, x, t.left);
      LiteralsCancelNothing(op, x, t.right);
    }
  }

  /** The cursor moves on past an operand that has just been cancelled. */
  lemma {:induction false} LiteralsBeforeNext(op: BoolOp, t: Expr, p: Path, e: Expr)
    requires InLevel(op, t, p) && LiteralsBefore(op, t, p) && IsOp(op, At(op, t, p)) && AllLiterals(op, e)
    ensures InLevel(op, t, p + [Left]) && LiteralsBefore(op, t, p + [Left])
    ensures var t' := Put(op, t, p + [Left], e);
            InLevel(op, t', p + [Right]) && LiteralsBefore(op, t', p + [Right])
  {
    StepDown(op, t, p, Left);
    if p != [] {
      LiteralsBeforeNext(op, Child(t, p[0]), p[1..], e);
      assert (p + [Left])[1..] == p[1..] + [Left];
      assert (p + [Right])[1..] == p[1..] + [Right];
    }
  }

  /** One operand against the level it stands in, everything before it already cancelled. */
  lemma {:induction false} OperandMeetsItself(op: BoolOp, x: Expr, t: Expr, p: Path)
    requires InLevel(op, t, p) && At(op, t, p) == x && !IsOp(op, x)
    requires LiteralsBefore(op, t, p) && ExprEqual(x, x)
    ensures CancelPairs(op, x, t) == (Cancelled(op, x), Put(op, t, p, Cancelled(op, x)))
    decreases p
  {
    if IsLiteral(x) {
      LiteralCancelsNothing(op, x, t);
      PutAt(op, t, p, x);
    } else if p != [] {
      if p[0].Left? {
        OperandMeetsItself(op, x, t.left, p[1..]);
        LiteralCancelsNothing(op, Cancelled(op, x), t.right);
      } else {
        LiteralsCancelNothing(op, x, t.left);
        OperandMeetsItself(op, x, t.right, p[1..]);
      }
    }
  }

  /** A part of a level against the whole level. */
  lemma {:induction false} LevelMeetsItself(op: BoolOp, s: Expr, t: Expr, p: Path)
    requires InLevel(op, t, p) && At(op, t, p) == s && LiteralsBefore(op, t, p)
    ensures CancelPairs(op, s, t) == (Cancelled(op, s), Put(op, t, p, Cancelled(op, s)))
    decreases Size(s), if IsOp(op, s) then 0 else 2
  {
    if !IsOp(op, s) {
      EveryExprEqualsItself(s);
      OperandMeetsItself(op, s, t, p);
    } else {
      var l, r := Cancelled(op, s.left), Cancelled(op, s.right);
      var t1 := Put(op, t, p, Bin(op, l, s.right));
      StepDown(op, t, p, Left);
      CancelledIsLiteral(op, s.left);
      LiteralsBeforeNext(op, t, p, l);
      PutStepDown(op, t, p, Left, l);
      LevelMeetsItself(op, s.left, t, p + [Left]);
      PutAt(op, t, p, Bin(op, l, s.right));
      StepDown(op, t1, p, Right);
      LevelMeetsItself(op, s.right, t1, p + [Right]);
      PutStepDown(op, t1, p, Right, r);
      assert CancelPairs(op, s.left, t) == (l, t1);
      assert CancelPairs(op, s.right, t1) == (r, Put(op, t, p, Bin(op, l, r)));
    }
  }

  /** Every expression is found equal to itself. */
  lemma {:induction false} EveryExprEqualsItself(e: Expr)
    ensures ExprEqual(e, e)
    decreases Size(e), 1
  {
    if e.Not? {
      EveryExprEqualsItself(e.arg);
    } else if e.Bin? {
      LevelMeetsItself(e.op, e, e, []);
      var c := Cancelled(e.op, e);
      CancelledIsLiteral(e.op, e);
      CancelledIsLiteral(e.op, c);
      assert CancelPairs(e.op, e, e) == (c, c);
      assert EliminateEq(e, e) == (EliminateYn(c), EliminateYn(c));
    }
  }

  // ---------------------------------------------------------------- what the test does not find

  /** The comment above expr_eq promises equality whenever every operand of one side equals
      some operand of the other; a repeated operand is enough to refute that. */
  lemma {:induction false} RepeatedOperandsAreNotFoundEqual(a: Symbol, b: Symbol)
    requires a.Named? && b.Named? && a != b
    ensures var e1 := Bin(AndOp, Sym(a), Bin(AndOp, Sym(a), Sym(b)));
            var e2 := Bin(AndOp, Sym(a), Bin(AndOp, Sym(b), Sym(b)));
            && !ExprEqual(e1, e2)
            && (forall env: Env :: Eval(e1, env) == Eval(e2, env))
  {
    var (x, z) := (Sym(a), Sym(b));
    var e2 := Bin(AndOp, x, Bin(AndOp, z, z));
    var e1 := Bin(AndOp, x, Bin(AndOp, x, z));
    var a2 := Bin(AndOp, Y, Bin(AndOp, z, z));
    var b2 := Bin(AndOp, Y, Bin(AndOp, Y, z));
    LiteralCancelsNothing(AndOp, Y, Bin(AndOp, z, z));
    assert CancelPairs(AndOp, x, x) == (Y, Y);
    assert CancelPairs(AndOp, x, e2) == (Y, a2);
    assert CancelPairs(AndOp, x, Y) == (x, Y);
    assert CancelPairs(AndOp, x, z) == (x, z);
    assert CancelPairs(AndOp, x, Bin(AndOp, z, z)) == (x, Bin(AndOp, z, z));
    assert CancelPairs(AndOp, x, a2) == (x, a2);
    assert CancelPairs(AndOp, z, z) == (Y, Y);
    assert CancelPairs(AndOp, Y, z) == (Y, z);
    assert CancelPairs(AndOp, z, Y) == (z, Y);
    assert CancelPairs(AndOp, z, Bin(AndOp, z, z)) == (Y, Bin(AndOp, Y, z));
    assert CancelPairs(AndOp, z, a2) == (Y, b2);
    assert CancelPairs(AndOp, Bin(AndOp, x, z), a2) == (Bin(AndOp, x, Y), b2);
    assert CancelPairs(AndOp, e1, e2) == (Bin(AndOp, Y, Bin(AndOp, x, Y)), b2);
    assert EliminateYn(x) == x && EliminateYn(z) == z && EliminateYn(Y) == Y;
    assert EliminateYn(Bin(AndOp, x, Y)) == x && EliminateYn(Bin(AndOp, Y, z)) == z;
    assert EliminateEq(e1, e2) == (x, z);
  }
}
