/**
 Pushing negations down to the symbols, rewriting 'm', dropping comparisons with n, and
 how a menu's dependency reaches its entries.
 */
module ExprTransform {
  import opened Expr
  import opened ExprEq
  import opened ExprDups
  import opened ExprReduced
  import opened Cursor

  // ---------------------------------------------------------------- expr_transform

  /** Doubling under "not" pays for the nodes that De Morgan's rules add. */
  function Weight(e: Expr): (w: nat)
    ensures w >= 1
  {
    match e
    case Sym(_) => 1
    case Comp(_, _, _) => 2
    case Not(a) => 2 * Weight(a)
    case Bin(_, l, r) => 1 + Weight(l) + Weight(r)
  }

  lemma DeMorganWeight(op: BoolOp, l: Expr, r: Expr)
    ensures Weight(Bin(op, Not(l), Not(r))) == 1 + 2 * Weight(l) + 2 * Weight(r)
    ensures Weight(Bin(op, Not(l), Not(r))) < Weight(Not(Bin(Dual(op), l, r)))
  {
    assert Weight(Not(l)) == 2 * Weight(l) && Weight(Not(r)) == 2 * Weight(r);
  }

  function Negated(rel: Rel): Rel {
    match rel
    case Equal => Unequal
    case Unequal => Equal
    case Leq => Gth
    case Gth => Leq
    case Geq => Lth
    case Lth => Geq
  }

  /** Comparisons of a bool symbol with y, m or n become the symbol, its negation, or n or y. */
  function TransformComp(e: Expr): Expr
    requires e.Comp?
  {
    if e.lsym.Type() != Boolean then e else
    match (e.rel, e.rsym)
    case (Equal, SymbolNo) => Not(Sym(e.lsym))
    case (Equal, SymbolMod) => N
    case (Equal, SymbolYes) => Sym(e.lsym)
    case (Unequal, SymbolNo) => Sym(e.lsym)
    case (Unequal, SymbolMod) => Y
    case (Unequal, SymbolYes) => Not(Sym(e.lsym))
    case _ => e
  }

  function Transform(e: Expr): (r: Expr)
    ensures Weight(r) <= Weight(e)
    decreases Weight(e), 1
  {
    match e
    case Sym(_) => e
    case Comp(_, _, _) => TransformComp(e)
    case Bin(op, l, r) => Bin(op, Transform(l), Transform(r))
    case Not(a) => TransformNot(Transform(a))
  }

  /** The negation of an operand that is already transformed. */
  function TransformNot(a: Expr): (r: Expr)
    ensures Weight(r) <= 2 * Weight(a)
    decreases 2 * Weight(a), 0
  {
    match a
    case Not(b) => Transform(b)
    case Comp(rel, l, r) => Comp(Negated(rel), l, r)
    case Bin(op, l, r) =>
      DeMorganWeight(Dual(op), l, r);
      Transform(Bin(Dual(op), Not(l), Not(r)))
    case Sym(SymbolYes) => N
    case Sym(SymbolMod) => Sym(SymbolMod)
    case Sym(SymbolNo) => Y
    case Sym(s) => Not(Sym(s))
  }

  function Dual(op: BoolOp): BoolOp {
    if op.OrOp? then AndOp else OrOp
  }

  /** "not" stands on declared or quoted symbols only, and no bool symbol is compared by = or
      != with y, m or n. */
  predicate Normal(e: Expr) {
    match e
    case Sym(_) => true
    case Not(a) => a.Sym? && a.sym.Named?
    case Bin(_, l, r) => Normal(l) && Normal(r)
    case Comp(rel, l, r) => !((rel.Equal? || rel.Unequal?) && l.Type() == Boolean && !r.Named?)
  }

  lemma TransformCompKeepsValue(e: Expr, env: Env)
    requires e.Comp? && Proper(env)
    ensures Eval(TransformComp(e), env) == Eval(e, env)
  {
    if e.lsym.Type() == Boolean && !e.rsym.Named? {
      CompareLiteral(e.lsym, e.rsym, env);
      assert Eval(Not(Sym(e.lsym)), env) == Complement(Eval(Sym(e.lsym), env));
    }
  }

  lemma {:induction false} TransformKeepsValue(e: Expr, env: Env)
    requires Proper(env)
    ensures Eval(Transform(e), env) == Eval(e, env)
    decreases Weight(e)
  {
    match e
    case Sym(_) =>
    case Comp(_, _, _) => TransformCompKeepsValue(e, env);
    case Bin(op, l, r) =>
      TransformKeepsValue(l, env);
      TransformKeepsValue(r, env);
    case Not(a) =>
      TransformKeepsValue(a, env);
      match Transform(a)
      case Not(b) => TransformKeepsValue(b, env);
      case Bin(op, l, r) =>
        var m := Bin(Dual(op), Not(l), Not(r));
        DeMorganWeight(Dual(op), l, r);
        TransformKeepsValue(m, env);
        assert Eval(m, env) == Combine(Dual(op), Eval(Not(l), env), Eval(Not(r), env));
      case Comp(_, _, _) =>
      case Sym(_) =>
  }

  lemma {:induction false} TransformNormal(e: Expr)
    ensures Normal(Transform(e))
    decreases Weight(e)
  {
    match e
    case Sym(_) =>
    case Comp(_, _, _) =>
    case Bin(op, l, r) =>
      TransformNormal(l);
      TransformNormal(r);
    case Not(a) =>
      TransformNormal(a);
      match Transform(a)
      case Not(b) => TransformNormal(b);
      case Bin(op, l, r) =>
        DeMorganWeight(Dual(op), l, r);
        TransformNormal(Bin(Dual(op), Not(l), Not(r)));
      case Comp(_, _, _) =>
      case Sym(_) =>
  }

  lemma {:induction false} NormalIsFixed(e: Expr)
    requires Normal(e)
    ensures Transform(e) == e
  {
    if e.Bin? {
      NormalIsFixed(e.left);
      NormalIsFixed(e.right);
    } else if e.Not? {
      assert Transform(e.arg) == e.arg;
    }
  }

  /** Transforming twice is transforming once. */
  lemma {:induction false} TransformIdempotent(e: Expr)
    ensures Transform(Transform(e)) == Transform(e)
  {
    TransformNormal(e);
    NormalIsFixed(Transform(e));
  }

  // ---------------------------------------------------------------- the normal form is kept

  lemma {:induction false} EliminateYnNormal(e: Expr)
    requires Normal(e)
    ensures Normal(EliminateYn(e))
  {
    if e.Bin? {
      EliminateYnNormal(e.left);
      EliminateYnNormal(e.right);
    }
  }

  lemma {:induction false} AtNormal(op: BoolOp, t: Expr, p: Path)
    requires InLevel(op, t, p) && Normal(t)
    ensures Normal(At(op, t, p))
  {
    if p != [] {
      AtNormal(op, Child(t, p[0]), p[1..]);
    }
  }

  lemma {:induction false} PutNormal(op: BoolOp, t: Expr, p: Path, e: Expr)
    requires InLevel(op, t, p) && Normal(t) && Normal(e)
    ensures Normal(Put(op, t, p, e))
  {
    if p != [] {
      PutNormal(op, Child(t, p[0]), p[1..], e);
    }
  }

  lemma {:induction false} WalkNormal(op: BoolOp, t: Expr, p1: Path, p2: Path)
    requires InLevel(op, t, p1) && InLevel(op, t, p2) && Normal(t)
    ensures Normal(Walk(op, t, p1, p2).0)
    decreases Size(t), 0, Inner(op, At(op, t, p1)) + Inner(op, At(op, t, p2))
  {
    hide Walk, Join;
    var (e1, e2) := (At(op, t, p1), At(op, t, p2));
    if IsOp(op, e1) {
      WalkFirst(op, t, p1, p2);
      WalkStep(op, t, p1, Left);
      WalkStep(op, t, p1, Right);
      var (t1, c1) := Walk(op, t, p1 + [Left], p2);
      WalkNext(op, t, t1, p1 + [Right], p2);
      WalkNormal(op, t, p1 + [Left], p2);
      WalkNormal(op, t1, p1 + [Right], p2);
    } else if IsOp(op, e2) {
      WalkSecond(op, t, p1, p2);
      WalkStep(op, t, p2, Left);
      WalkStep(op, t, p2, Right);
      var (t1, c1) := Walk(op, t, p1, p2 + [Left]);
      WalkNext(op, t, t1, p1, p2 + [Right]);
      WalkNormal(op, t, p1, p2 + [Left]);
      WalkNormal(op, t1, p1, p2 + [Right]);
    } else if p1 == p2 {
      WalkMeet(op, t, p1, p2);
    } else {
      WalkMeet(op, t, p1, p2);
      PutOther(op, t, p1, p2, e1, e2);
      OperandSmaller(op, t, p1);
      AtNormal(op, t, p1);
      AtNormal(op, t, p2);
      var inner := if e1.Bin? then Pass(e1).0 else e1;
      if e1.Bin? {
        WalkNormal(e1.op, e1, [], []);
      }
      PutNormal(op, t, p1, inner);
      var j := Join(op, inner, e2);
      if j.Some? {
        JoinNormal(op, inner, e2);
        PutNormal(op, t, p1, Sym(Unit(op)));
        PutOther(op, t, p1, p2, Sym(Unit(op)), j.value);
        PutNormal(op, Put(op, t, p1, Sym(Unit(op))), p2, j.value);
      }
    }
  }

  lemma JoinNormal(op: BoolOp, e1: Expr, e2: Expr)
    requires Normal(e1) && Normal(e2) && Join(op, e1, e2).Some?
    ensures Normal(Join(op, e1, e2).value)
  {
  }

  lemma {:induction false} EliminateDupsNormal(e: Expr)
    requires Normal(e)
    ensures Normal(EliminateDups(e))
    decreases Size(e)
  {
    if e.Bin? {
      var (t, c) := Pass(e);
      WalkNormal(e.op, e, [], []);
      if c != 0 {
        JoinsLeaveLiterals(e.op, e, [], []);
        EliminateYnShrinks(t);
        EliminateYnNormal(t);
        EliminateDupsNormal(EliminateYn(t));
      }
    }
  }

  // ---------------------------------------------------------------- expr_trans_bool

  /** FOO!=n -> FOO */
  function TransBool(e: Expr): Expr {
    match e
    case Sym(_) => e
    case Not(a) => Not(TransBool(a))
    case Bin(op, l, r) => Bin(op, TransBool(l), TransBool(r))
    case Comp(rel, l, r) => if rel.Unequal? && l.Type() == Tristate && r == SymbolNo then Sym(l) else e
  }

  /** The value of e when every tristate a!=n in it is read as a. */
  function LoweredValue(e: Expr, env: Env): Tri {
    match e
    case Not(a) => Complement(LoweredValue(a, env))
    case Bin(op, l, r) => Combine(op, LoweredValue(l, env), LoweredValue(r, env))
    case Comp(Unequal, a, SymbolNo) => if a.Type() == Tristate then env.tri(a) else Eval(e, env)
    case _ => Eval(e, env)
  }

  function LoweredValueOpt(e: Option<Expr>, env: Env): Tri {
    if e.None? then YES else LoweredValue(e.value, env)
  }

  /** No tristate is compared by != with n. */
  predicate Lowered(e: Expr) {
    match e
    case Sym(_) => true
    case Not(a) => Lowered(a)
    case Bin(_, l, r) => Lowered(l) && Lowered(r)
    case Comp(rel, a, b) => !(rel == Unequal && a.Type() == Tristate && b == SymbolNo)
  }

  /** Exactly the comparisons of tristates by != with n are replaced, each by its symbol. */
  lemma {:induction false} TransBoolExactly(e: Expr, env: Env)
    ensures Eval(TransBool(e), env) == LoweredValue(e, env)
    ensures Lowered(TransBool(e)) && (Lowered(e) ==> TransBool(e) == e)
  {
    match e
    case Not(a) => TransBoolExactly(a, env);
    case Bin(_, l, r) =>
      TransBoolExactly(l, env);
      TransBoolExactly(r, env);
    case _ =>
  }

  /** On the normal form the value is never raised and n stays n, and only n becomes n. */
  lemma {:induction false} TransBoolLowersToVisible(e: Expr, env: Env)
    requires Proper(env) && Normal(e)
    ensures Eval(TransBool(e), env) <= Eval(e, env)
    ensures Eval(TransBool(e), env) == NO <==> Eval(e, env) == NO
  {
    match e
    case Sym(_) =>
    case Not(a) => assert TransBool(e) == e;
    case Bin(_, l, r) =>
      TransBoolLowersToVisible(l, env);
      TransBoolLowersToVisible(r, env);
    case Comp(rel, l, r) =>
      if rel.Unequal? && l.Type() == Tristate && r == SymbolNo {
        CompareLiteral(l, r, env);
      }
  }

  /** Under a negation, which the normal form excludes, the value would rise. */
  lemma TransBoolNeedsNormalForm(a: Symbol, env: Env)
    requires Proper(env) && a.Type() == Tristate && env.tri(a) == MOD
    ensures var e := Not(Comp(Unequal, a, SymbolNo));
            !Normal(e) && Eval(e, env) == NO && Eval(TransBool(e), env) == MOD
  {
    CompareLiteral(a, SymbolNo, env);
    assert TransBool(Comp(Unequal, a, SymbolNo)) == Sym(a);
  }

  // ---------------------------------------------------------------- rewrite_m

  /** 'm' -> 'm' && MODULES */
  function RewriteM(e: Expr, modules: Symbol): Expr {
    match e
    case Not(a) => Not(RewriteM(a, modules))
    case Bin(op, l, r) => Bin(op, RewriteM(l, modules), RewriteM(r, modules))
    case Sym(s) => if s == SymbolMod then Bin(AndOp, e, Sym(modules)) else e
    case Comp(_, _, _) => e
  }

  /** The literal m capped by the value of MODULES; comparisons with m are not affected. */
  function CapM(env: Env, modules: Symbol): Env {
    env.(tri := s => CappedTri(env, modules, s))
  }

  function CappedTri(env: Env, modules: Symbol, s: Symbol): Tri {
    if s == SymbolMod then Combine(AndOp, env.tri(s), env.tri(modules)) else env.tri(s)
  }

  lemma {:induction false} RewriteMCapsM(e: Expr, modules: Symbol, env: Env)
    requires Proper(env)
    ensures Eval(RewriteM(e, modules), env) == Eval(e, CapM(env, modules))
    ensures env.tri(modules) != NO ==> Eval(RewriteM(e, modules), env) == Eval(e, env)
  {
    match e
    case Not(a) => RewriteMCapsM(a, modules, env);
    case Bin(_, l, r) =>
      RewriteMCapsM(l, modules, env);
      RewriteMCapsM(r, modules, env);
    case Sym(s) =>
    case Comp(_, l, r) =>
      assert Compare(l, r, CapM(env, modules)) == Compare(l, r, env);
  }

  // ---------------------------------------------------------------- dependency propagation

  function TransformOpt(e: Option<Expr>): Option<Expr> {
    if e.None? then None else Some(Transform(e.value))
  }

  function RewriteMOpt(e: Option<Expr>, modules: Symbol): Option<Expr> {
    if e.None? then None else Some(RewriteM(e.value, modules))
  }

  function EliminateDupsOpt(e: Option<Expr>): Option<Expr> {
    if e.None? then None else Some(EliminateDups(e.value))
  }

  predicate NormalOpt(e: Option<Expr>) {
    e.None? || Normal(e.value)
  }

  /** The condition of an entry, or of one of its properties, below a parent condition. */
  function Propagate(parent: Option<Expr>, own: Option<Expr>, modules: Symbol): Option<Expr> {
    EliminateDupsOpt(AllocAnd(parent, TransformOpt(RewriteMOpt(own, modules))))
  }

  /** The transformation compares with no constant that was not compared with before. */
  lemma {:induction false} TransformWithin(e: Expr, cs: set<Symbol>)
    requires Within(e, cs)
    ensures Within(Transform(e), cs)
    decreases Weight(e)
  {
    if e.Bin? {
      TransformWithin(e.left, cs);
      TransformWithin(e.right, cs);
    } else if e.Not? {
      var a := Transform(e.arg);
      TransformWithin(e.arg, cs);
      if a.Not? {
        TransformWithin(a.arg, cs);
      } else if a.Bin? {
        DeMorganWeight(Dual(a.op), a.left, a.right);
        TransformWithin(Bin(Dual(a.op), Not(a.left), Not(a.right)), cs);
      }
    }
  }

  lemma {:induction false} RewriteMWithin(e: Expr, modules: Symbol, cs: set<Symbol>)
    requires Within(e, cs)
    ensures Within(RewriteM(e, modules), cs)
  {
    match e
    case Not(a) => RewriteMWithin(a, modules, cs);
    case Bin(_, l, r) =>
      RewriteMWithin(l, modules, cs);
      RewriteMWithin(r, modules, cs);
    case _ =>
  }

  /** An entry ends up with exactly the smaller of the parent's condition and its own, if the
      constants that the two compare with, and y, m and n, are apart. */
  lemma PropagateIsMinimum(parent: Option<Expr>, own: Option<Expr>, modules: Symbol, env: Env, cs: set<Symbol>)
    requires Proper(env) && Apart(cs, env) && LITERALS <= cs && WithinOpt(parent, cs) && WithinOpt(own, cs)
    ensures EvalOpt(Propagate(parent, own, modules), env)
            == Combine(AndOp, EvalOpt(parent, env), EvalOpt(own, CapM(env, modules)))
    ensures env.tri(modules) != NO ==>
              EvalOpt(Propagate(parent, own, modules), env)
              == Combine(AndOp, EvalOpt(parent, env), EvalOpt(own, env))
    ensures WithinOpt(Propagate(parent, own, modules), cs)
  {
    hide Apart, Proper;
    if own.Some? {
      RewriteMCapsM(own.value, modules, env);
      TransformKeepsValue(RewriteM(own.value, modules), env);
      RewriteMWithin(own.value, modules, cs);
      TransformWithin(RewriteM(own.value, modules), cs);
    }
    var both := AllocAnd(parent, TransformOpt(RewriteMOpt(own, modules)));
    if both.Some? {
      EliminateDupsKeepsWithin(both.value, env, cs);
    }
  }

  /** ... and in normal form, with no redundant operands. */
  lemma PropagateNormal(parent: Option<Expr>, own: Option<Expr>, modules: Symbol)
    requires NormalOpt(parent)
    ensures NormalOpt(Propagate(parent, own, modules))
    ensures Propagate(parent, own, modules).Some? ==> Reduced(Propagate(parent, own, modules).value)
  {
    if own.Some? {
      TransformNormal(RewriteM(own.value, modules));
    }
    var both := AllocAnd(parent, TransformOpt(RewriteMOpt(own, modules)));
    if both.Some? {
      EliminateDupsNormal(both.value);
      EliminateDupsReduces(both.value);
    }
  }
}
