/**
 Removing constant operands, cancelling operands common to two expressions, and the
 equality test built on both.
 */
module ExprEq {
  import opened Expr

  // ---------------------------------------------------------------- constant operands

  /** expr && n -> n, expr && y -> expr, expr || n -> expr, expr || y -> y */
  function DropLiteral(op: BoolOp, l: Expr, r: Expr): Expr {
    match op
    case AndOp =>
      if l == N then N else if l == Y then r
      else if r == N then N else if r == Y then l
      else Bin(AndOp, l, r)
    case OrOp =>
      if l == N then r else if l == Y then Y
      else if r == N then l else if r == Y then Y
      else Bin(OrOp, l, r)
  }

  function EliminateYn(e: Expr): Expr {
    if e.Bin? then DropLiteral(e.op, EliminateYn(e.left), EliminateYn(e.right)) else e
  }

  /** Some "and"/"or" node, reached through such nodes only, has y or n as an operand. */
  predicate HasLiteralOperand(e: Expr) {
    e.Bin? && (IsLiteral(e.left) || IsLiteral(e.right)
               || HasLiteralOperand(e.left) || HasLiteralOperand(e.right))
  }

  lemma {:induction false} EliminateYnKeepsValue(e: Expr, env: Env)
    requires Proper(env)
    ensures Eval(EliminateYn(e), env) == Eval(e, env)
  {
    if e.Bin? {
      EliminateYnKeepsValue(e.left, env);
      EliminateYnKeepsValue(e.right, env);
    }
  }

  lemma {:induction false} EliminateYnShrinks(e: Expr)
    ensures Size(EliminateYn(e)) <= Size(e)
    ensures HasLiteralOperand(e) ==> Size(EliminateYn(e)) < Size(e)
    ensures !HasLiteralOperand(e) ==> EliminateYn(e) == e
    ensures !HasLiteralOperand(EliminateYn(e))
  {
    if e.Bin? {
      EliminateYnShrinks(e.left);
      EliminateYnShrinks(e.right);
    }
  }

  // ---------------------------------------------------------------- cancelling common operands

  /** Compares every operand of e1 with every operand of e2 at the level of op and turns
      both of an equal pair into the unit of op. */
  function CancelPairs(op: BoolOp, e1: Expr, e2: Expr): (r: (Expr, Expr))
    ensures Size(r.0) <= Size(e1) && Size(r.1) <= Size(e2)
    ensures IsOp(op, r.0) <==> IsOp(op, e1)
    ensures IsOp(op, r.1) <==> IsOp(op, e2)
    decreases Size(e1) + Size(e2), if IsOp(op, e1) || IsOp(op, e2) then 0 else 3
  {
    if IsOp(op, e1) then
      var (l, a) := CancelPairs(op, e1.left, e2);
      var (r, b) := CancelPairs(op, e1.right, a);
      (Bin(op, l, r), b)
    else if IsOp(op, e2) then
      var (a, l) := CancelPairs(op, e1, e2.left);
      var (b, r) := CancelPairs(op, a, e2.right);
      (b, Bin(op, l, r))
    else if e1 == e2 && IsLiteral(e1) then (e1, e2)
    else if ExprEqual(e1, e2) then (Sym(Unit(op)), Sym(Unit(op)))
    else (e1, e2)
  }

  /** Above the operands, first the one side is split and then the other. */
  lemma CancelPairsBelow(op: BoolOp, e1: Expr, e2: Expr)
    ensures IsOp(op, e1) ==>
              var (l, a) := CancelPairs(op, e1.left, e2);
              var (r, b) := CancelPairs(op, e1.right, a);
              CancelPairs(op, e1, e2) == (Bin(op, l, r), b)
    ensures !IsOp(op, e1) && IsOp(op, e2) ==>
              var (a, l) := CancelPairs(op, e1, e2.left);
              var (b, r) := CancelPairs(op, a, e2.right);
              CancelPairs(op, e1, e2) == (b, Bin(op, l, r))
  {
  }

  /** Cancels at the level of e1, then at the level of e2 if that is another one. */
  function EliminateEq(e1: Expr, e2: Expr): (Expr, Expr)
    decreases Size(e1) + Size(e2), 1, 1
  {
    var (a, b) := if e1.Bin? then CancelPairs(e1.op, e1, e2) else (e1, e2);
    CancelSecondLevel(a, b)
  }

  function CancelSecondLevel(a: Expr, b: Expr): (Expr, Expr)
    decreases Size(a) + Size(b), 1, 0
  {
    var (c, d) := if b.Bin? && !IsOp(b.op, a) then CancelPairs(b.op, a, b) else (a, b);
    (EliminateYn(c), EliminateYn(d))
  }

  predicate ExprEqual(e1: Expr, e2: Expr)
    decreases Size(e1) + Size(e2), 2
  {
    match (e1, e2)
    case (Comp(r1, a1, b1), Comp(r2, a2, b2)) => r1 == r2 && a1 == a2 && b1 == b2
    case (Sym(s1), Sym(s2)) => s1 == s2
    case (Not(a1), Not(a2)) => ExprEqual(a1, a2)
    case (Bin(op1, _, _), Bin(op2, _, _)) =>
      op1 == op2 &&
      var (a, b) := EliminateEq(e1, e2);
      a.Sym? && b.Sym? && a.sym == b.sym
    case _ => false
  }

  // ---------------------------------------------------------------- soundness

  /** One value k accounts for everything that was cancelled on both sides. */
  lemma {:induction false} CancelPairsSound(op: BoolOp, e1: Expr, e2: Expr, env: Env) returns (k: Tri)
    requires Proper(env)
    ensures var (n1, n2) := CancelPairs(op, e1, e2);
            && Eval(e1, env) == Combine(op, Eval(n1, env), k)
            && Eval(e2, env) == Combine(op, Eval(n2, env), k)
    decreases Size(e1) + Size(e2), if IsOp(op, e1) || IsOp(op, e2) then 0 else 3
  {
    if IsOp(op, e1) {
      var (l, a) := CancelPairs(op, e1.left, e2);
      var (r, b) := CancelPairs(op, e1.right, a);
      assert CancelPairs(op, e1, e2) == (Bin(op, l, r), b);
      var k1 := CancelPairsSound(op, e1.left, e2, env);
      var k2 := CancelPairsSound(op, e1.right, a, env);
      k := Combine(op, k1, k2);
      Regroup(op, Eval(l, env), k1, Eval(r, env), k2);
      Regroup(op, Eval(b, env), k2, k1, k1);
      Regroup(op, k1, k2, k1, k1);
    } else if IsOp(op, e2) {
      var (a, l) := CancelPairs(op, e1, e2.left);
      var (b, r) := CancelPairs(op, a, e2.right);
      assert CancelPairs(op, e1, e2) == (b, Bin(op, l, r));
      var k1 := CancelPairsSound(op, e1, e2.left, env);
      var k2 := CancelPairsSound(op, a, e2.right, env);
      k := Combine(op, k1, k2);
      Regroup(op, Eval(l, env), k1, Eval(r, env), k2);
      Regroup(op, Eval(b, env), k2, k1, k1);
      Regroup(op, k1, k2, k1, k1);
    } else if !(e1 == e2 && IsLiteral(e1)) && ExprEqual(e1, e2) {
      ExprEqualSound(e1, e2, env);
      k := Eval(e1, env);
    } else {
      k := env.tri(Unit(op));
    }
  }

  /** What is left of each side, combined with the common values, is the original side. */
  lemma {:induction false} EliminateEqSound(e1: Expr, e2: Expr, env: Env) returns (k1: Tri, op2: BoolOp, k2: Tri)
    requires Proper(env)
    ensures var (n1, n2) := EliminateEq(e1, e2);
            && Eval(e1, env) == PutBack(e1, k1, Combine(op2, Eval(n1, env), k2))
            && Eval(e2, env) == PutBack(e1, k1, Combine(op2, Eval(n2, env), k2))
    decreases Size(e1) + Size(e2), 1
  {
    var (a, b) := if e1.Bin? then CancelPairs(e1.op, e1, e2) else (e1, e2);
    k1 := YES;
    if e1.Bin? {
      k1 := CancelPairsSound(e1.op, e1, e2, env);
    }
    op2, k2 := AndOp, YES;
    var (c, d) := if b.Bin? && !IsOp(b.op, a) then CancelPairs(b.op, a, b) else (a, b);
    if b.Bin? && !IsOp(b.op, a) {
      op2 := b.op;
      k2 := CancelPairsSound(b.op, a, b, env);
    }
    EliminateYnKeepsValue(c, env);
    EliminateYnKeepsValue(d, env);
  }

  /** What e1's own level cancelled, put back; nothing when e1 has no level. */
  function PutBack(e1: Expr, k: Tri, v: Tri): Tri {
    if e1.Bin? then Combine(e1.op, v, k) else v
  }

  /** Expressions found equal have the same value in every environment. */
  lemma {:induction false} ExprEqualSound(e1: Expr, e2: Expr, env: Env)
    requires Proper(env)
    requires ExprEqual(e1, e2)
    ensures Eval(e1, env) == Eval(e2, env)
    decreases Size(e1) + Size(e2), 2
  {
    if e1.Not? {
      ExprEqualSound(e1.arg, e2.arg, env);
    } else if e1.Bin? {
      var k1, op2, k2 := EliminateEqSound(e1, e2, env);
    }
  }
}
