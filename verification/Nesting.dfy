/**
 Deciding which entries are shown below a symbol: comparing a whole condition with n, and
 when the comparison shows that one condition implies another.
 */
module Nesting {
  import opened Expr
  import opened ExprEq
  import opened ExprDups
  import opened ExprReduced
  import opened ExprTransform

  // ---------------------------------------------------------------- expr_trans_compare

  /** Inserts comparisons by rel with the literal s at the leaves.  With m as the literal an
      "and" or "or" stays as it is. */
  function TransCompare(e: Expr, rel: Rel, s: Symbol): Expr
    requires (rel.Equal? || rel.Unequal?) && !s.Named?
  {
    match e
    case Bin(op, l, r) =>
      var (e1, e2) := (TransCompare(l, Equal, s), TransCompare(r, Equal, s));
      var both := match s
                  case SymbolYes => Bin(op, e1, e2)
                  case SymbolNo => Bin(Dual(op), e1, e2)
                  case _ => e;
      if rel.Unequal? then Not(both) else both
    case Not(a) => TransCompare(a, if rel.Equal? then Unequal else Equal, s)
    case Comp(_, _, _) =>
      if s == SymbolMod then (if rel.Equal? then N else Y)
      else if rel.Equal? <==> s == SymbolYes then e
      else Not(e)
    case Sym(a) => Comp(rel, a, s)
  }

  function TransCompareOpt(e: Option<Expr>, rel: Rel, s: Symbol): Expr
    requires (rel.Equal? || rel.Unequal?) && !s.Named?
  {
    if e.Some? then TransCompare(e.value, rel, s)
    else if rel.Unequal? then Not(Sym(s)) else Sym(s)
  }

  /** Every symbol standing as a condition is bool, tristate, or one of y, m, n. */
  predicate LogicalLeaves(e: Expr) {
    match e
    case Sym(s) => IsLogical(s) || !s.Named?
    case Not(a) => LogicalLeaves(a)
    case Bin(_, l, r) => LogicalLeaves(l) && LogicalLeaves(r)
    case Comp(_, _, _) => true
  }

  predicate LogicalLeavesOpt(e: Option<Expr>) {
    e.None? || LogicalLeaves(e.value)
  }

  /** No negated symbol has the value m. */
  predicate NoNegatedM(e: Expr, env: Env) {
    match e
    case Sym(_) => true
    case Not(a) => a.Sym? ==> env.tri(a.sym) != MOD
    case Bin(_, l, r) => NoNegatedM(l, env) && NoNegatedM(r, env)
    case Comp(_, _, _) => true
  }

  lemma CompareWithNo(s: Symbol, env: Env)
    requires Proper(env) && (IsLogical(s) || !s.Named?)
    ensures Compare(s, SymbolNo, env) == 0 <==> env.tri(s) == NO
  {
    if IsLogical(s) {
      CompareLiteral(s, SymbolNo, env);
    } else {
      assert ParseString(env.text(s), s.Type(), env.number) == NotANumber;
      assert env.text(s) == TextOfTri(env.tri(s));
      assert "n"[0] != "m"[0] && "m"[0] != "y"[0] && "n"[0] != "y"[0];
    }
  }

  /** The value when a negated symbol counts only if the symbol is n. */
  function StrictValue(e: Expr, env: Env): Tri {
    match e
    case Not(a) => if a.Sym? && env.tri(a.sym) == MOD then NO else Eval(e, env)
    case Bin(op, l, r) => Combine(op, StrictValue(l, env), StrictValue(r, env))
    case _ => Eval(e, env)
  }

  lemma {:induction false} StrictIsBelow(e: Expr, env: Env)
    ensures StrictValue(e, env) <= Eval(e, env)
    ensures NoNegatedM(e, env) ==> StrictValue(e, env) == Eval(e, env)
  {
    if e.Bin? {
      StrictIsBelow(e.left, env);
      StrictIsBelow(e.right, env);
    }
  }

  /** The comparison with n is two-valued, the two relations are complements, and it holds
      exactly where the condition is not n without the help of a negated m. */
  lemma {:induction false} ComparedWithNo(e: Expr, env: Env)
    requires Proper(env) && Normal(e) && LogicalLeaves(e)
    ensures Eval(TransCompare(e, Unequal, SymbolNo), env) in {NO, YES}
    ensures Eval(TransCompare(e, Equal, SymbolNo), env)
            == Complement(Eval(TransCompare(e, Unequal, SymbolNo), env))
    ensures Eval(TransCompare(e, Unequal, SymbolNo), env) == YES <==> StrictValue(e, env) != NO
  {
    match e
    case Sym(s) => CompareWithNo(s, env);
    case Not(a) =>
      CompareWithNo(a.sym, env);
      assert TransCompare(a, Equal, SymbolNo) == Comp(Equal, a.sym, SymbolNo);
      assert TransCompare(a, Unequal, SymbolNo) == Comp(Unequal, a.sym, SymbolNo);
      assert Eval(e, env) == Complement(env.tri(a.sym));
    case Comp(_, _, _) =>
      assert Eval(Not(e), env) == Complement(Eval(e, env));
    case Bin(op, l, r) =>
      ComparedWithNo(l, env);
      ComparedWithNo(r, env);
      var both := Bin(Dual(op), TransCompare(l, Equal, SymbolNo), TransCompare(r, Equal, SymbolNo));
      assert TransCompare(e, Equal, SymbolNo) == both && TransCompare(e, Unequal, SymbolNo) == Not(both);
      assert Eval(Not(both), env) == Complement(Eval(both, env));
  }

  /** So it never holds where the condition is n, and it holds wherever the condition is not n
      if no negated symbol is m. */
  lemma ComparedWithNoIsSound(e: Expr, env: Env)
    requires Proper(env) && Normal(e) && LogicalLeaves(e)
    ensures Eval(TransCompare(e, Unequal, SymbolNo), env) == YES ==> Eval(e, env) != NO
    ensures NoNegatedM(e, env) ==> (Eval(TransCompare(e, Unequal, SymbolNo), env) == YES <==> Eval(e, env) != NO)
  {
    ComparedWithNo(e, env);
    StrictIsBelow(e, env);
  }

  /** The missing direction: a negated m is not n, yet the comparison says n. */
  lemma NegatedMIsMissed(a: Symbol, env: Env)
    requires Proper(env) && a.Type() == Tristate && env.tri(a) == MOD
    ensures Eval(Not(Sym(a)), env) == MOD
    ensures Eval(TransCompare(Not(Sym(a)), Unequal, SymbolNo), env) == NO
  {
    CompareWithNo(a, env);
    assert TransCompare(Sym(a), Equal, SymbolNo) == Comp(Equal, a, SymbolNo);
  }

  /** The comparison with y: where no negated symbol is m it is exact. */
  lemma {:induction false} ComparedWithYes(e: Expr, env: Env)
    requires Proper(env) && Normal(e) && LogicalLeaves(e) && NoNegatedM(e, env)
    ensures Eval(TransCompare(e, Equal, SymbolYes), env) == if Eval(e, env) == YES then YES else NO
    ensures Eval(TransCompare(e, Unequal, SymbolYes), env) == if Eval(e, env) == YES then NO else YES
  {
    match e
    case Sym(s) => CompareWithYes(s, env);
    case Not(a) =>
      CompareWithYes(a.sym, env);
      assert TransCompare(a, Equal, SymbolYes) == Comp(Equal, a.sym, SymbolYes);
      assert TransCompare(a, Unequal, SymbolYes) == Comp(Unequal, a.sym, SymbolYes);
      assert Eval(e, env) == Complement(env.tri(a.sym));
    case Comp(_, _, _) =>
      assert Eval(Not(e), env) == Complement(Eval(e, env));
    case Bin(op, l, r) =>
      ComparedWithYes(l, env);
      ComparedWithYes(r, env);
      var both := Bin(op, TransCompare(l, Equal, SymbolYes), TransCompare(r, Equal, SymbolYes));
      assert TransCompare(e, Equal, SymbolYes) == both && TransCompare(e, Unequal, SymbolYes) == Not(both);
      assert Eval(Not(both), env) == Complement(Eval(both, env));
  }

  lemma CompareWithYes(s: Symbol, env: Env)
    requires Proper(env) && (IsLogical(s) || !s.Named?)
    ensures Compare(s, SymbolYes, env) == 0 <==> env.tri(s) == YES
  {
    if IsLogical(s) {
      CompareLiteral(s, SymbolYes, env);
    } else {
      assert ParseString(env.text(s), s.Type(), env.number) == NotANumber;
      assert env.text(s) == TextOfTri(env.tri(s));
      assert "n"[0] != "m"[0] && "m"[0] != "y"[0] && "n"[0] != "y"[0];
    }
  }

  // ---------------------------------------------------------------- mention and dependence

  predicate ContainsSymbol(e: Expr, s: Symbol) {
    match e
    case Sym(a) => a == s
    case Not(a) => ContainsSymbol(a, s)
    case Bin(_, l, r) => ContainsSymbol(l, s) || ContainsSymbol(r, s)
    case Comp(_, l, r) => l == s || r == s
  }

  predicate DependsSymbol(e: Expr, s: Symbol) {
    match e
    case Bin(op, l, r) => op.AndOp? && (DependsSymbol(l, s) || DependsSymbol(r, s))
    case Sym(a) => a == s
    case Comp(rel, l, r) =>
      l == s && ((rel.Equal? && (r == SymbolYes || r == SymbolMod)) || (rel.Unequal? && r == SymbolNo))
    case Not(_) => false
  }

  function Mentioned(e: Expr): set<Symbol> {
    match e
    case Sym(a) => {a}
    case Not(a) => Mentioned(a)
    case Bin(_, l, r) => Mentioned(l) + Mentioned(r)
    case Comp(_, l, r) => {l, r}
  }

  lemma {:induction false} ContainsExactly(e: Expr, s: Symbol)
    ensures ContainsSymbol(e, s) <==> s in Mentioned(e)
  {
    match e
    case Not(a) => ContainsExactly(a, s);
    case Bin(_, l, r) =>
      ContainsExactly(l, s);
      ContainsExactly(r, s);
    case _ =>
  }

  /** The operand is s, s=y, s=m or s!=n. */
  predicate Demands(x: Expr, s: Symbol) {
    x == Sym(s) || x == Comp(Equal, s, SymbolYes) || x == Comp(Equal, s, SymbolMod) || x == Comp(Unequal, s, SymbolNo)
  }

  /** A condition depends on a symbol exactly if an operand of its top-level "and" demands it. */
  lemma {:induction false} DependsExactly(e: Expr, s: Symbol)
    ensures DependsSymbol(e, s) <==> exists x :: x in Operands(AndOp, e) && Demands(x, s)
  {
    if IsOp(AndOp, e) {
      DependsExactly(e.left, s);
      DependsExactly(e.right, s);
    } else {
      assert e in Operands(AndOp, e);
    }
  }

  /** An expression that does not mention a symbol does not see it change. */
  lemma {:induction false} NotContainedNotRead(e: Expr, s: Symbol, env: Env, env': Env)
    requires !ContainsSymbol(e, s)
    requires env.number == env'.number
    requires forall a: Symbol :: a != s ==> env.tri(a) == env'.tri(a) && env.text(a) == env'.text(a)
    ensures Eval(e, env) == Eval(e, env')
  {
    match e
    case Sym(_) =>
    case Not(a) => NotContainedNotRead(a, s, env, env');
    case Bin(_, l, r) =>
      NotContainedNotRead(l, s, env, env');
      NotContainedNotRead(r, s, env, env');
    case Comp(_, l, r) =>
      assert Compare(l, r, env) == Compare(l, r, env');
  }

  /** A condition that depends on a bool or tristate symbol is n whenever the symbol is. */
  lemma {:induction false} DependsForcesNo(e: Expr, s: Symbol, env: Env)
    requires Proper(env) && IsLogical(s) && DependsSymbol(e, s) && env.tri(s) == NO
    ensures Eval(e, env) == NO
    ensures ContainsSymbol(e, s)
  {
    match e
    case Sym(_) =>
    case Bin(_, l, r) =>
      if DependsSymbol(l, s) {
        DependsForcesNo(l, s, env);
      } else {
        DependsForcesNo(r, s, env);
      }
    case Comp(_, _, r) => CompareLiteral(s, r, env);
  }

  // ---------------------------------------------------------------- implication by cancelling

  /** If cancelling leaves nothing of the second, the first never exceeds the second. */
  lemma CancelledIsImplied(d1: Expr, d2: Expr, env: Env)
    requires Proper(env) && EliminateEq(d1, d2).1 == Y
    ensures Eval(d1, env) <= Eval(d2, env)
  {
    var k1, op2, k2 := EliminateEqSound(d1, d2, env);
  }

  // ---------------------------------------------------------------- the decision

  /** A condition prepared for the superset test. */
  function Prepared(e: Option<Expr>): Expr {
    EliminateDups(Transform(TransCompareOpt(e, Unequal, SymbolNo)))
  }

  /** It is in normal form, and has no redundant operands. */
  lemma PreparedNormal(e: Option<Expr>)
    ensures Normal(Prepared(e)) && Reduced(Prepared(e))
  {
    var c := TransCompareOpt(e, Unequal, SymbolNo);
    TransformNormal(c);
    EliminateDupsNormal(Transform(c));
    EliminateDupsReduces(Transform(c));
  }

  /** An entry belongs below sym: its condition mentions sym, and demands it or else has, prepared,
      all of base in common. */
  ghost predicate Nested(sym: Symbol, base: Expr, dep: Option<Expr>) {
    && dep.Some? && sym in Mentioned(dep.value)
    && (|| (exists x :: x in Operands(AndOp, dep.value) && Demands(x, sym))
        || EliminateEq(Prepared(dep), base).1 == Y)
  }

  /** Whether an entry with condition dep goes below sym, whose prepared condition is base. */
  predicate GoesBelow(sym: Symbol, base: Expr, dep: Option<Expr>): (r: bool)
    ensures r <==> Nested(sym, base, dep)
  {
    if dep.None? then false
    else
      ContainsExactly(dep.value, sym);
      DependsExactly(dep.value, sym);
      ContainsSymbol(dep.value, sym)
      && (DependsSymbol(dep.value, sym) || EliminateEq(Prepared(dep), base).1 == Y)
  }

  function StrictValueOpt(e: Option<Expr>, env: Env): Tri {
    if e.None? then YES else StrictValue(e.value, env)
  }

  lemma {:induction false} TransCompareWithin(e: Expr, rel: Rel, s: Symbol, cs: set<Symbol>)
    requires (rel.Equal? || rel.Unequal?) && s in LITERALS && LITERALS <= cs && Within(e, cs)
    ensures Within(TransCompare(e, rel, s), cs)
  {
    match e
    case Bin(_, l, r) =>
      TransCompareWithin(l, Equal, s, cs);
      TransCompareWithin(r, Equal, s, cs);
    case Not(a) => TransCompareWithin(a, if rel.Equal? then Unequal else Equal, s, cs);
    case _ =>
  }

  /** The prepared condition is y exactly where the condition is not n without a negated m. */
  lemma PreparedValue(e: Option<Expr>, env: Env, cs: set<Symbol>)
    requires Proper(env) && Apart(cs, env) && LITERALS <= cs && WithinOpt(e, cs)
    requires NormalOpt(e) && LogicalLeavesOpt(e)
    ensures Eval(Prepared(e), env) == YES <==> StrictValueOpt(e, env) != NO
    ensures Eval(Prepared(e), env) in {NO, YES}
  {
    var c := TransCompareOpt(e, Unequal, SymbolNo);
    assert SymbolNo in LITERALS;
    if e.Some? {
      TransCompareWithin(e.value, Unequal, SymbolNo, cs);
    }
    TransformKeepsValue(c, env);
    TransformWithin(c, cs);
    EliminateDupsKeepsWithin(Transform(c), env, cs);
    if e.Some? {
      ComparedWithNo(e.value, env);
    } else {
      assert Eval(Not(Sym(SymbolNo)), env) == Complement(Eval(Sym(SymbolNo), env));
    }
  }

  /** Nesting is sound.  An entry put below a symbol because it depends on it is n whenever the
      symbol is; one put there by the superset test is, whenever the symbol's own prompt is n, n
      too unless it rests on a negated symbol that is m. */
  lemma GoesBelowSound(sym: Symbol, prompt: Option<Expr>, dep: Option<Expr>, env: Env, cs: set<Symbol>)
    requires Proper(env) && IsLogical(sym) && Nested(sym, Prepared(prompt), dep)
    ensures DependsSymbol(dep.value, sym) && env.tri(sym) == NO ==> Eval(dep.value, env) == NO
    ensures !DependsSymbol(dep.value, sym) && EvalOpt(prompt, env) == NO
            && NormalOpt(prompt) && LogicalLeavesOpt(prompt) && Normal(dep.value) && LogicalLeaves(dep.value)
            && Apart(cs, env) && LITERALS <= cs && WithinOpt(prompt, cs) && WithinOpt(dep, cs)
            ==> && StrictValue(dep.value, env) == NO
                && (NoNegatedM(dep.value, env) ==> Eval(dep.value, env) == NO)
  {
    DependsExactly(dep.value, sym);
    if DependsSymbol(dep.value, sym) {
      if env.tri(sym) == NO {
        DependsForcesNo(dep.value, sym, env);
      }
    } else if EvalOpt(prompt, env) == NO
            && NormalOpt(prompt) && LogicalLeavesOpt(prompt) && Normal(dep.value) && LogicalLeaves(dep.value)
            && Apart(cs, env) && LITERALS <= cs && WithinOpt(prompt, cs) && WithinOpt(dep, cs) {
      StrictIsBelow(dep.value, env);
      StrictIsBelow(prompt.value, env);
      CancelledIsImplied(Prepared(dep), Prepared(prompt), env);
      PreparedValue(prompt, env, cs);
      PreparedValue(dep, env, cs);
    }
  }
}
