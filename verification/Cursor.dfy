/**
 Cursors into one level of an expression: the operands of a run of "and"s, or of "or"s,
 are addressed by the turns taken from the top of the run.
 */
module Cursor {
  import opened Expr

  datatype Side = Left | Right

  type Path = seq<Side>

  function Child(e: Expr, side: Side): Expr
    requires e.Bin?
  {
    if side.Left? then e.left else e.right
  }

  function WithChild(e: Expr, side: Side, c: Expr): Expr
    requires e.Bin?
  {
    if side.Left? then Bin(e.op, c, e.right) else Bin(e.op, e.left, c)
  }

  /** p only descends through nodes of type op. */
  predicate InLevel(op: BoolOp, t: Expr, p: Path) {
    p == [] || (IsOp(op, t) && InLevel(op, Child(t, p[0]), p[1..]))
  }

  function At(op: BoolOp, t: Expr, p: Path): Expr
    requires InLevel(op, t, p)
  {
    if p == [] then t else At(op, Child(t, p[0]), p[1..])
  }

  function Put(op: BoolOp, t: Expr, p: Path, e: Expr): Expr
    requires InLevel(op, t, p)
  {
    if p == [] then e else WithChild(t, p[0], Put(op, Child(t, p[0]), p[1..], e))
  }

  /** p addresses an operand of the level, not an inner node. */
  predicate AtOperand(op: BoolOp, t: Expr, p: Path) {
    InLevel(op, t, p) && !IsOp(op, At(op, t, p))
  }

  lemma {:induction false} StepDown(op: BoolOp, t: Expr, p: Path, side: Side)
    requires InLevel(op, t, p) && IsOp(op, At(op, t, p))
    ensures InLevel(op, t, p + [side])
    ensures At(op, t, p + [side]) == Child(At(op, t, p), side)
  {
    if p != [] {
      StepDown(op, Child(t, p[0]), p[1..], side);
      assert (p + [side])[1..] == p[1..] + [side];
    }
  }

  lemma {:induction false} PutStepDown(op: BoolOp, t: Expr, p: Path, side: Side, e: Expr)
    requires InLevel(op, t, p) && IsOp(op, At(op, t, p))
    ensures InLevel(op, t, p + [side])
    ensures Put(op, t, p + [side], e) == Put(op, t, p, WithChild(At(op, t, p), side, e))
  {
    StepDown(op, t, p, side);
    if p != [] {
      PutStepDown(op, Child(t, p[0]), p[1..], side, e);
      assert (p + [side])[1..] == p[1..] + [side];
    }
  }

  lemma {:induction false} PutAt(op: BoolOp, t: Expr, p: Path, e: Expr)
    requires InLevel(op, t, p)
    ensures InLevel(op, Put(op, t, p, e), p) && At(op, Put(op, t, p, e), p) == e
    ensures Put(op, t, p, At(op, t, p)) == t
    ensures forall f :: Put(op, Put(op, t, p, e), p, f) == Put(op, t, p, f)
  {
    if p != [] {
      PutAt(op, Child(t, p[0]), p[1..], e);
    }
  }

  // ---------------------------------------------------------------- the shape of a level

  /** The same inner nodes at the level of op; the operands may differ. */
  predicate SameShape(op: BoolOp, a: Expr, b: Expr) {
    if IsOp(op, a) then IsOp(op, b) && SameShape(op, a.left, b.left) && SameShape(op, a.right, b.right)
    else !IsOp(op, b)
  }

  /** The number of inner nodes of the level. */
  function Inner(op: BoolOp, e: Expr): nat {
    if IsOp(op, e) then 1 + Inner(op, e.left) + Inner(op, e.right) else 0
  }

  lemma {:induction false} SameShapeTransitive(op: BoolOp, a: Expr, b: Expr, c: Expr)
    requires SameShape(op, a, b) && SameShape(op, b, c)
    ensures SameShape(op, a, c)
  {
    if IsOp(op, a) {
      SameShapeTransitive(op, a.left, b.left, c.left);
      SameShapeTransitive(op, a.right, b.right, c.right);
    }
  }

  lemma {:induction false} SameShapeReflexive(op: BoolOp, a: Expr)
    ensures SameShape(op, a, a)
  {
    if IsOp(op, a) {
      SameShapeReflexive(op, a.left);
      SameShapeReflexive(op, a.right);
    }
  }

  lemma {:induction false} SameShapeInner(op: BoolOp, a: Expr, b: Expr)
    requires SameShape(op, a, b)
    ensures Inner(op, a) == Inner(op, b)
  {
    if IsOp(op, a) {
      SameShapeInner(op, a.left, b.left);
      SameShapeInner(op, a.right, b.right);
    }
  }

  /** A cursor stays where it is when only operands change. */
  lemma {:induction false} SameShapeAt(op: BoolOp, a: Expr, b: Expr, p: Path)
    requires SameShape(op, a, b) && InLevel(op, a, p)
    ensures InLevel(op, b, p) && SameShape(op, At(op, a, p), At(op, b, p))
  {
    if p != [] {
      SameShapeAt(op, Child(a, p[0]), Child(b, p[0]), p[1..]);
    }
  }

  // ---------------------------------------------------------------- writing one operand

  lemma {:induction false} PutOperand(op: BoolOp, t: Expr, p: Path, e: Expr)
    requires AtOperand(op, t, p)
    ensures Size(Put(op, t, p, e)) == Size(t) - Size(At(op, t, p)) + Size(e)
    ensures !IsOp(op, e) ==> SameShape(op, t, Put(op, t, p, e))
  {
    if p != [] {
      PutOperand(op, Child(t, p[0]), p[1..], e);
      SameShapeReflexive(op, t.left);
      SameShapeReflexive(op, t.right);
    }
  }

  lemma {:induction false} OperandSmaller(op: BoolOp, t: Expr, p: Path)
    requires InLevel(op, t, p)
    ensures Size(At(op, t, p)) <= Size(t)
    ensures p != [] ==> Size(At(op, t, p)) < Size(t)
  {
    if p != [] {
      OperandSmaller(op, Child(t, p[0]), p[1..]);
    }
  }

  /** Two operands are apart: writing one leaves the other, and the writes commute. */
  lemma {:induction false} PutOther(op: BoolOp, t: Expr, p: Path, q: Path, e: Expr, f: Expr)
    requires AtOperand(op, t, p) && AtOperand(op, t, q) && p != q
    ensures p != [] && q != []
    ensures var t' := Put(op, t, p, e);
            && AtOperand(op, t', q) && At(op, t', q) == At(op, t, q)
            && InLevel(op, Put(op, t, q, f), p)
            && Put(op, t', q, f) == Put(op, Put(op, t, q, f), p, e)
  {
    if p[0] == q[0] {
      PutOther(op, Child(t, p[0]), p[1..], q[1..], e, f);
    }
  }

  // ---------------------------------------------------------------- the value of a level

  /** The value of the level without the operand at p. */
  function Rest(op: BoolOp, t: Expr, p: Path, env: Env): Tri
    requires InLevel(op, t, p)
  {
    if p == [] then (if op.OrOp? then NO else YES)
    else
      var other := if p[0].Left? then t.right else t.left;
      Combine(op, Rest(op, Child(t, p[0]), p[1..], env), Eval(other, env))
  }

  lemma {:induction false} PutValue(op: BoolOp, t: Expr, p: Path, e: Expr, env: Env)
    requires InLevel(op, t, p)
    ensures Eval(Put(op, t, p, e), env) == Combine(op, Eval(e, env), Rest(op, t, p, env))
    ensures Eval(t, env) == Combine(op, Eval(At(op, t, p), env), Rest(op, t, p, env))
  {
    if p != [] {
      PutValue(op, Child(t, p[0]), p[1..], e, env);
    }
  }

  lemma Exchange(op: BoolOp, a: Tri, b: Tri, a': Tri, b': Tri, x: Tri, y: Tri)
    requires Combine(op, a, b) == Combine(op, a', b')
    ensures Combine(op, Combine(op, a, x), Combine(op, b, y)) == Combine(op, Combine(op, a', x), Combine(op, b', y))
    ensures Combine(op, Combine(op, b, y), Combine(op, a, x)) == Combine(op, Combine(op, b', y), Combine(op, a', x))
  {
    Regroup(op, a, x, b, y);
    Regroup(op, a', x, b', y);
    Regroup(op, b, y, a, x);
    Regroup(op, b', y, a', x);
  }

  /** Replacing two operands by two with the same combined value keeps the value of the level. */
  lemma {:induction false} PutPairValue(op: BoolOp, t: Expr, p: Path, q: Path, e: Expr, f: Expr, env: Env)
    requires AtOperand(op, t, p) && AtOperand(op, t, q) && p != q
    requires Combine(op, Eval(e, env), Eval(f, env))
             == Combine(op, Eval(At(op, t, p), env), Eval(At(op, t, q), env))
    ensures InLevel(op, Put(op, t, p, e), q)
    ensures Eval(Put(op, Put(op, t, p, e), q, f), env) == Eval(t, env)
  {
    PutOther(op, t, p, q, e, f);
    if p[0] == q[0] {
      PutPairValue(op, Child(t, p[0]), p[1..], q[1..], e, f, env);
    } else {
      hide Combine;
      PutValue(op, Child(t, p[0]), p[1..], e, env);
      PutValue(op, Child(t, q[0]), q[1..], f, env);
      var rp, rq := Rest(op, Child(t, p[0]), p[1..], env), Rest(op, Child(t, q[0]), q[1..], env);
      Exchange(op, Eval(e, env), Eval(f, env), Eval(At(op, t, p), env), Eval(At(op, t, q), env), rp, rq);
    }
  }
}
