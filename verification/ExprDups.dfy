/**
 Joining duplicate and redundant operands: two cursors walk the same expression, and a
 joined pair is written back through both of them.
 */
module ExprDups {
  import opened Expr
  import opened ExprEq
  import opened Cursor

  // ---------------------------------------------------------------- joining two operands

  /** The symbol the first operand of a join is about, if it has a joinable form. */
  function JoinSymbol1(e: Expr): Option<Symbol> {
    match e
    case Sym(s) => Some(s)
    case Comp(rel, l, _) => if rel.Equal? || rel.Unequal? then Some(l) else None
    case Not(Sym(s)) => Some(s)
    case Not(Comp(rel, l, _)) => if rel.Equal? || rel.Unequal? then Some(l) else None
    case _ => None
  }

  /** As above for the second operand, where a negation must stand on a symbol. */
  function JoinSymbol2(e: Expr): Option<Symbol> {
    if e.Not? && !e.arg.Sym? then None else JoinSymbol1(e)
  }

  predicate Is(e: Expr, rel: Rel, r: Symbol) {
    e.Comp? && e.rel == rel && e.rsym == r
  }

  /** One of the operands compares by rel with r and the other with s. */
  predicate OneEach(e1: Expr, e2: Expr, rel: Rel, r: Symbol, s: Symbol) {
    (Is(e1, rel, r) && Is(e2, rel, s)) || (Is(e1, rel, s) && Is(e2, rel, r))
  }

  /** One operand is the bare symbol, the other compares it by rel with r. */
  predicate BareAnd(e1: Expr, e2: Expr, rel: Rel, r: Symbol) {
    (e1.Sym? && Is(e2, rel, r)) || (e2.Sym? && Is(e1, rel, r))
  }

  /** The rules for two operands of an "or" that are not equal. */
  function JoinOr(e1: Expr, e2: Expr): Option<Expr> {
    var (s1, s2) := (JoinSymbol1(e1), JoinSymbol2(e2));
    if s1.None? || s2.None? || s1 != s2 || !IsLogical(s1.value) then None else
    var a := s1.value;
    if a.Type() == Tristate && OneEach(e1, e2, Equal, SymbolYes, SymbolMod) then
      Some(Comp(Unequal, a, SymbolNo))
    else if a.Type() == Tristate && OneEach(e1, e2, Equal, SymbolYes, SymbolNo) then
      Some(Comp(Unequal, a, SymbolMod))
    else if a.Type() == Tristate && OneEach(e1, e2, Equal, SymbolMod, SymbolNo) then
      Some(Comp(Unequal, a, SymbolYes))
    else if a.Type() == Boolean && ((e1.Not? && e1.arg.Sym? && e2.Sym?) || (e2.Not? && e2.arg.Sym? && e1.Sym?)) then
      Some(Y)
    else None
  }

  /** The rules for two operands of an "and" that are not equal. */
  function JoinAnd(e1: Expr, e2: Expr): Option<Expr> {
    var (s1, s2) := (JoinSymbol1(e1), JoinSymbol2(e2));
    if s1.None? || s2.None? || s1 != s2 || !IsLogical(s1.value) then None else
    var a := s1.value;
    if BareAnd(e1, e2, Equal, SymbolYes) then Some(Comp(Equal, a, SymbolYes))
    else if BareAnd(e1, e2, Unequal, SymbolNo) then Some(Sym(a))
    else if BareAnd(e1, e2, Unequal, SymbolMod) then Some(Comp(Equal, a, SymbolYes))
    else if a.Type() != Tristate then None
    else if IsConstPair(e1, e2) then JoinConstants(a, e1.rsym, e2.rsym)
    else if IsConstPair(e2, e1) then JoinConstants(a, e2.rsym, e1.rsym)
    else if OneEach(e1, e2, Unequal, SymbolYes, SymbolNo) then Some(Comp(Equal, a, SymbolMod))
    else if OneEach(e1, e2, Unequal, SymbolYes, SymbolMod) then Some(Comp(Equal, a, SymbolNo))
    else if OneEach(e1, e2, Unequal, SymbolMod, SymbolNo) then Some(Comp(Equal, a, SymbolYes))
    else None
  }

  /** a='b' together with a!='c', both constants. */
  predicate IsConstPair(eq: Expr, ne: Expr) {
    && eq.Comp? && eq.rel.Equal? && ne.Comp? && ne.rel.Unequal?
    && eq.rsym.IsConst() && ne.rsym.IsConst()
  }

  /** Two different constants leave the equation, one and the same constant leaves n. */
  function JoinConstants(a: Symbol, b: Symbol, c: Symbol): Option<Expr> {
    if b != c then Some(Comp(Equal, a, b)) else Some(N)
  }

  function Join(op: BoolOp, e1: Expr, e2: Expr): Option<Expr> {
    if ExprEqual(e1, e2) then Some(e1) else if op.OrOp? then JoinOr(e1, e2) else JoinAnd(e1, e2)
  }

  lemma JoinSize(op: BoolOp, e1: Expr, e2: Expr)
    ensures Join(op, e1, e2).Some? ==> Size(Join(op, e1, e2).value) + 1 <= Size(e1) + Size(e2)
    ensures Join(op, e1, e2).Some? && Join(op, e1, e2).value.Bin? ==> Join(op, e1, e2).value == e1
  {
  }

  lemma JoinSymbolsCompare(e1: Expr, e2: Expr, env: Env)
    requires Proper(env)
    requires JoinSymbol1(e1).Some? && JoinSymbol1(e1) == JoinSymbol2(e2) && IsLogical(JoinSymbol1(e1).value)
    ensures var a := JoinSymbol1(e1).value;
            && (Compare(a, SymbolYes, env) == 0 <==> env.tri(a) == YES)
            && (Compare(a, SymbolMod, env) == 0 <==> env.tri(a) == MOD)
            && (Compare(a, SymbolNo, env) == 0 <==> env.tri(a) == NO)
            && (a.Type() == Boolean ==> env.tri(a) != MOD)
  {
    var a := JoinSymbol1(e1).value;
    CompareLiteral(a, SymbolYes, env);
    CompareLiteral(a, SymbolMod, env);
    CompareLiteral(a, SymbolNo, env);
  }

  lemma JoinOrKeepsValue(e1: Expr, e2: Expr, env: Env)
    requires Proper(env)
    requires JoinOr(e1, e2).Some?
    ensures Eval(JoinOr(e1, e2).value, env) == Combine(OrOp, Eval(e1, env), Eval(e2, env))
  {
    hide Compare;
    JoinSymbolsCompare(e1, e2, env);
    var a := JoinSymbol1(e1).value;
    if a.Type() == Boolean {
      assert Eval(Sym(a), env) == env.tri(a) && Eval(Not(Sym(a)), env) == Complement(env.tri(a));
    } else {
      assert e1 == Comp(Equal, a, e1.rsym) && e2 == Comp(Equal, a, e2.rsym);
    }
  }

  lemma JoinAndKeepsValue(e1: Expr, e2: Expr, env: Env, cs: set<Symbol>)
    requires Proper(env) && Apart(cs, env) && Within(e1, cs) && Within(e2, cs)
    requires JoinAnd(e1, e2).Some?
    ensures Eval(JoinAnd(e1, e2).value, env) == Combine(AndOp, Eval(e1, env), Eval(e2, env))
  {
    hide Compare, Denoted;
    JoinSymbolsCompare(e1, e2, env);
    var a := JoinSymbol1(e1).value;
    if e1.Sym? {
      assert e2 == Comp(e2.rel, a, e2.rsym);
    } else if e2.Sym? {
      assert e1 == Comp(e1.rel, a, e1.rsym);
    } else {
      assert e1 == Comp(e1.rel, a, e1.rsym) && e2 == Comp(e2.rel, a, e2.rsym);
      if IsConstPair(e1, e2) || IsConstPair(e2, e1) {
        CompareConstant(a, e1.rsym, env);
        CompareConstant(a, e2.rsym, env);
        assert e1.rsym in cs && e2.rsym in cs;
      }
    }
  }

  /** A join has the value of the two operands together, and compares with no new constant
      but y, m and n. */
  lemma JoinKeepsValue(op: BoolOp, e1: Expr, e2: Expr, env: Env, cs: set<Symbol>)
    requires Proper(env) && Apart(cs, env) && Within(e1, cs) && Within(e2, cs)
    requires Join(op, e1, e2).Some?
    ensures Eval(Join(op, e1, e2).value, env) == Combine(op, Eval(e1, env), Eval(e2, env))
  {
    if ExprEqual(e1, e2) {
      ExprEqualSound(e1, e2, env);
    } else if op.OrOp? {
      JoinOrKeepsValue(e1, e2, env);
    } else {
      JoinAndKeepsValue(e1, e2, env, cs);
    }
  }

  lemma JoinWithin(op: BoolOp, e1: Expr, e2: Expr, cs: set<Symbol>)
    requires Within(e1, cs) && Within(e2, cs) && LITERALS <= cs
    requires Join(op, e1, e2).Some?
    ensures Within(Join(op, e1, e2).value, cs)
  {
    if !ExprEqual(e1, e2) {
      assert SymbolYes in LITERALS && SymbolMod in LITERALS && SymbolNo in LITERALS;
    }
  }

  // ---------------------------------------------------------------- joining two constants

  /** In this environment, in which the constants have these spellings, a=b is not what
      a=b && a!=c is. */
  ghost predicate JoinWrongIn(a: Symbol, b: Symbol, c: Symbol, textB: string, textC: string, number: NumberParser,
                              env: Env)
  {
    && Proper(env) && env.text(b) == textB && env.text(c) == textC && env.number == number
    && Eval(Comp(Equal, a, b), env) != Eval(Bin(AndOp, Comp(Equal, a, b), Comp(Unequal, a, c)), env)
  }

  /** A spelling that a constant can have: y, m and n have only their own. */
  predicate CanSpell(c: Symbol, text: string) {
    !c.Named? ==> text == TextOfTri(LiteralValue(c))
  }

  lemma JoinConstantsIn(a: Symbol, b: Symbol, c: Symbol, env: Env)
    requires Proper(env) && a.Type() == Tristate && b.IsConst() && c.IsConst()
    ensures Eval(Comp(Equal, a, b), env) != Eval(Bin(AndOp, Comp(Equal, a, b), Comp(Unequal, a, c)), env)
            <==> Denoted(env.text(b), env.number) == Some(env.tri(a)) == Denoted(env.text(c), env.number)
  {
    hide Compare, Denoted;
    CompareConstant(a, b, env);
    CompareConstant(a, c, env);
    var (eq, ne) := (Comp(Equal, a, b), Comp(Unequal, a, c));
    assert Eval(Bin(AndOp, eq, ne), env) == Combine(AndOp, Eval(eq, env), Eval(ne, env));
  }

  /** A proper environment in which a has the value v and the constants these spellings. */
  lemma Spelled(a: Symbol, v: Tri, b: Symbol, c: Symbol, textB: string, textC: string, number: NumberParser)
    returns (env: Env)
    requires a.Type() == Tristate && b.IsConst() && c.IsConst() && b != c
    requires CanSpell(b, textB) && CanSpell(c, textC)
    requires number("y", 0) == None && number("m", 0) == None && number("n", 0) == None
    ensures Proper(env) && env.tri(a) == v && env.text(b) == textB && env.text(c) == textC && env.number == number
  {
    env := Env(
      (s: Symbol) => if !s.Named? then LiteralValue(s) else if s == a then v else NO,
      (s: Symbol) => if s == b then textB else if s == c then textC else
                     if !s.Named? then TextOfTri(LiteralValue(s)) else if s == a then TextOfTri(v) else "n",
      number);
  }

  /** The one join that looks at constants: with these two it can go wrong if and only if their
      spellings denote the same tristate value. */
  lemma JoinConstantsExact(a: Symbol, b: Symbol, c: Symbol, textB: string, textC: string, number: NumberParser)
    requires a.Type() == Tristate && b.IsConst() && c.IsConst() && b != c
    requires CanSpell(b, textB) && CanSpell(c, textC)
    requires number("y", 0) == None && number("m", 0) == None && number("n", 0) == None
    ensures Join(AndOp, Comp(Equal, a, b), Comp(Unequal, a, c)) == Some(Comp(Equal, a, b))
    ensures (exists env: Env :: JoinWrongIn(a, b, c, textB, textC, number, env))
            <==> Denoted(textB, number).Some? && Denoted(textB, number) == Denoted(textC, number)
  {
    hide Compare, Denoted, Eval, Proper;
    forall env: Env | JoinWrongIn(a, b, c, textB, textC, number, env)
      ensures Denoted(textB, number) == Some(env.tri(a)) == Denoted(textC, number)
    {
      JoinConstantsIn(a, b, c, env);
    }
    if Denoted(textB, number).Some? && Denoted(textB, number) == Denoted(textC, number) {
      var env := Spelled(a, Denoted(textB, number).value, b, c, textB, textC, number);
      JoinConstantsIn(a, b, c, env);
      assert JoinWrongIn(a, b, c, textB, textC, number, env);
    }
  }

  /** It does go wrong: '1' and '0x1' are two spellings of what m is. */
  lemma JoinConstantsWrong(a: Symbol, b: Symbol, c: Symbol, number: NumberParser)
    requires a.Type() == Tristate && b.Named? && b.IsConst() && c.Named? && c.IsConst() && b != c
    requires number("y", 0) == None && number("m", 0) == None && number("n", 0) == None
    requires number("1", 0) == Some(1) && number("0x1", 0) == Some(1)
    ensures Join(AndOp, Comp(Equal, a, b), Comp(Unequal, a, c)) == Some(Comp(Equal, a, b))
    ensures exists env: Env :: JoinWrongIn(a, b, c, "1", "0x1", number, env)
  {
    JoinConstantsExact(a, b, c, "1", "0x1", number);
  }

  // ---------------------------------------------------------------- one pass over a level

  /** One pass of the pair of cursors p1, p2 over the expression t they both stand in, with
      the number of joins made.  Two operands meet only when they are different nodes. */
  function Walk(op: BoolOp, t: Expr, p1: Path, p2: Path): (r: (Expr, nat))
    requires InLevel(op, t, p1) && InLevel(op, t, p2)
    ensures SameShape(op, t, r.0) && Size(r.0) <= Size(t)
    decreases Size(t), 0, Inner(op, At(op, t, p1)) + Inner(op, At(op, t, p2))
  {
    var (e1, e2) := (At(op, t, p1), At(op, t, p2));
    if IsOp(op, e1) then
      WalkStep(op, t, p1, Left);
      WalkStep(op, t, p1, Right);
      var (t1, c1) := Walk(op, t, p1 + [Left], p2);
      WalkNext(op, t, t1, p1 + [Right], p2);
      var (t2, c2) := Walk(op, t1, p1 + [Right], p2);
      SameShapeTransitive(op, t, t1, t2);
      (t2, c1 + c2)
    else if IsOp(op, e2) then
      WalkStep(op, t, p2, Left);
      WalkStep(op, t, p2, Right);
      var (t1, c1) := Walk(op, t, p1, p2 + [Left]);
      WalkNext(op, t, t1, p1, p2 + [Right]);
      var (t2, c2) := Walk(op, t1, p1, p2 + [Right]);
      SameShapeTransitive(op, t, t1, t2);
      (t2, c1 + c2)
    else if p1 == p2 then
      SameShapeReflexive(op, t);
      (t, 0)
    else
      PutOther(op, t, p1, p2, e1, e2);
      OperandSmaller(op, t, p1);
      var (inner, c) := if e1.Bin? then Pass(e1) else (e1, 0);
      Meet(op, t, p1, p2, inner, c)
  }

  /** A pass over a whole expression, both cursors starting at its top. */
  function Pass(e: Expr): (r: (Expr, nat))
    requires e.Bin?
    ensures SameShape(e.op, e, r.0) && Size(r.0) <= Size(e)
    decreases Size(e), 1
  {
    Walk(e.op, e, [], [])
  }

  /** The first operand, itself gone through already, is joined with the second if possible. */
  function Meet(op: BoolOp, t: Expr, p1: Path, p2: Path, inner: Expr, c: nat): (r: (Expr, nat))
    requires AtOperand(op, t, p1) && AtOperand(op, t, p2) && p1 != p2
    requires !IsOp(op, inner) && Size(inner) <= Size(At(op, t, p1))
    ensures SameShape(op, t, r.0) && Size(r.0) <= Size(t)
  {
    var e2 := At(op, t, p2);
    PutOther(op, t, p1, p2, inner, e2);
    PutOperand(op, t, p1, inner);
    match Join(op, inner, e2)
    case None => (Put(op, t, p1, inner), c)
    case Some(joined) =>
      JoinSize(op, inner, e2);
      PutOther(op, t, p1, p2, Sym(Unit(op)), joined);
      PutOperand(op, t, p1, Sym(Unit(op)));
      var t1 := Put(op, t, p1, Sym(Unit(op)));
      PutOperand(op, t1, p2, joined);
      SameShapeTransitive(op, t, t1, Put(op, t1, p2, joined));
      (Put(op, t1, p2, joined), c + 1)
  }

  lemma WalkStep(op: BoolOp, t: Expr, p: Path, side: Side)
    requires InLevel(op, t, p) && IsOp(op, At(op, t, p))
    ensures InLevel(op, t, p + [side])
    ensures At(op, t, p + [side]) == Child(At(op, t, p), side)
    ensures Inner(op, At(op, t, p + [side])) < Inner(op, At(op, t, p))
  {
    StepDown(op, t, p, side);
  }

  lemma WalkNext(op: BoolOp, t: Expr, t1: Expr, p1: Path, p2: Path)
    requires SameShape(op, t, t1) && InLevel(op, t, p1) && InLevel(op, t, p2)
    ensures InLevel(op, t1, p1) && InLevel(op, t1, p2)
    ensures Inner(op, At(op, t1, p1)) == Inner(op, At(op, t, p1))
    ensures Inner(op, At(op, t1, p2)) == Inner(op, At(op, t, p2))
  {
    SameShapeAt(op, t, t1, p1);
    SameShapeAt(op, t, t1, p2);
    SameShapeInner(op, At(op, t, p1), At(op, t1, p1));
    SameShapeInner(op, At(op, t, p2), At(op, t1, p2));
  }

  lemma WalkFirst(op: BoolOp, t: Expr, p1: Path, p2: Path)
    requires InLevel(op, t, p1) && InLevel(op, t, p2) && IsOp(op, At(op, t, p1))
    ensures InLevel(op, t, p1 + [Left])
    ensures var (t1, c1) := Walk(op, t, p1 + [Left], p2);
            && InLevel(op, t1, p1 + [Right]) && InLevel(op, t1, p2)
            && var (t2, c2) := Walk(op, t1, p1 + [Right], p2);
               Walk(op, t, p1, p2) == (t2, c1 + c2)
  {
    WalkStep(op, t, p1, Left);
    WalkStep(op, t, p1, Right);
    WalkNext(op, t, Walk(op, t, p1 + [Left], p2).0, p1 + [Right], p2);
  }

  lemma WalkSecond(op: BoolOp, t: Expr, p1: Path, p2: Path)
    requires AtOperand(op, t, p1) && InLevel(op, t, p2) && IsOp(op, At(op, t, p2))
    ensures InLevel(op, t, p2 + [Left])
    ensures var (t1, c1) := Walk(op, t, p1, p2 + [Left]);
            && InLevel(op, t1, p1) && InLevel(op, t1, p2 + [Right])
            && var (t2, c2) := Walk(op, t1, p1, p2 + [Right]);
               Walk(op, t, p1, p2) == (t2, c1 + c2)
  {
    WalkStep(op, t, p2, Left);
    WalkStep(op, t, p2, Right);
    WalkNext(op, t, Walk(op, t, p1, p2 + [Left]).0, p1, p2 + [Right]);
  }

  lemma WalkMeet(op: BoolOp, t: Expr, p1: Path, p2: Path)
    requires AtOperand(op, t, p1) && AtOperand(op, t, p2)
    ensures p1 == p2 ==> Walk(op, t, p1, p2) == (t, 0)
    ensures p1 != p2 ==>
              var (e1, e2) := (At(op, t, p1), At(op, t, p2));
              var (inner, c) := if e1.Bin? then Pass(e1) else (e1, 0);
              var j := Join(op, inner, e2);
              if j.None? then Walk(op, t, p1, p2) == (Put(op, t, p1, inner), c)
              else
                && InLevel(op, Put(op, t, p1, Sym(Unit(op))), p2)
                && Walk(op, t, p1, p2) == (Put(op, Put(op, t, p1, Sym(Unit(op))), p2, j.value), c + 1)
  {
    if p1 != p2 {
      PutOther(op, t, p1, p2, Sym(Unit(op)), At(op, t, p2));
      OperandSmaller(op, t, p1);
    }
  }

  /** The fixpoint loop: passes until one makes no join, dropping constants in between. */
  function EliminateDups(e: Expr): (r: Expr)
    ensures Size(r) <= Size(e)
    decreases Size(e)
  {
    if !e.Bin? then e else
    var (t, c) := Pass(e);
    if c == 0 then t else
      JoinsLeaveLiterals(e.op, e, [], []);
      EliminateYnShrinks(t);
      EliminateDups(EliminateYn(t))
  }

  // ---------------------------------------------------------------- every joining pass loses a node

  lemma {:induction false} PutLiteral(op: BoolOp, t: Expr, p: Path, e: Expr)
    requires AtOperand(op, t, p)
    ensures p != [] && (IsLiteral(e) || HasLiteralOperand(e)) ==> HasLiteralOperand(Put(op, t, p, e))
    ensures HasLiteralOperand(t) && (HasLiteralOperand(At(op, t, p)) ==> HasLiteralOperand(e))
            && (IsLiteral(At(op, t, p)) ==> IsLiteral(e))
            ==> HasLiteralOperand(Put(op, t, p, e))
  {
    if p != [] {
      PutLiteral(op, Child(t, p[0]), p[1..], e);
    }
  }

  /** A join leaves a constant operand behind that nothing later in the pass removes. */
  lemma {:induction false} JoinsLeaveLiterals(op: BoolOp, t: Expr, p1: Path, p2: Path)
    requires InLevel(op, t, p1) && InLevel(op, t, p2)
    ensures var (t', c) := Walk(op, t, p1, p2);
            HasLiteralOperand(t) || c > 0 ==> HasLiteralOperand(t')
    decreases Size(t), 0, Inner(op, At(op, t, p1)) + Inner(op, At(op, t, p2))
  {
    hide Walk, Join;
    var (e1, e2) := (At(op, t, p1), At(op, t, p2));
    if IsOp(op, e1) {
      WalkFirst(op, t, p1, p2);
      WalkStep(op, t, p1, Left);
      WalkStep(op, t, p1, Right);
      var (t1, c1) := Walk(op, t, p1 + [Left], p2);
      WalkNext(op, t, t1, p1 + [Right], p2);
      JoinsLeaveLiterals(op, t, p1 + [Left], p2);
      JoinsLeaveLiterals(op, t1, p1 + [Right], p2);
    } else if IsOp(op, e2) {
      WalkSecond(op, t, p1, p2);
      WalkStep(op, t, p2, Left);
      WalkStep(op, t, p2, Right);
      var (t1, c1) := Walk(op, t, p1, p2 + [Left]);
      WalkNext(op, t, t1, p1, p2 + [Right]);
      JoinsLeaveLiterals(op, t, p1, p2 + [Left]);
      JoinsLeaveLiterals(op, t1, p1, p2 + [Right]);
    } else if p1 == p2 {
      WalkMeet(op, t, p1, p2);
    } else {
      WalkMeet(op, t, p1, p2);
      PutOther(op, t, p1, p2, e1, e2);
      OperandSmaller(op, t, p1);
      var (inner, c) := if e1.Bin? then Pass(e1) else (e1, 0);
      if e1.Bin? {
        JoinsLeaveLiterals(e1.op, e1, [], []);
      }
      PutLiteral(op, t, p1, inner);
      var j := Join(op, inner, e2);
      if j.Some? {
        PutOther(op, t, p1, p2, Sym(Unit(op)), j.value);
        PutOther(op, t, p2, p1, j.value, Sym(Unit(op)));
        PutLiteral(op, Put(op, t, p2, j.value), p1, Sym(Unit(op)));
      }
    }
  }

  // ---------------------------------------------------------------- the value is kept

  /** Cursors read and write no constants but those there are. */
  lemma {:induction false} PutWithin(op: BoolOp, t: Expr, p: Path, e: Expr, cs: set<Symbol>)
    requires InLevel(op, t, p) && Within(t, cs)
    ensures Within(At(op, t, p), cs)
    ensures Within(e, cs) ==> Within(Put(op, t, p, e), cs)
  {
    if p != [] {
      PutWithin(op, Child(t, p[0]), p[1..], e, cs);
    }
  }

  lemma {:induction false} EliminateYnWithin(e: Expr, cs: set<Symbol>)
    requires Within(e, cs)
    ensures Within(EliminateYn(e), cs)
  {
    if e.Bin? {
      EliminateYnWithin(e.left, cs);
      EliminateYnWithin(e.right, cs);
    }
  }

  /** A pass keeps the value in every environment that keeps the compared constants apart, and
      compares with none but these. */
  lemma {:induction false} WalkKeepsValue(op: BoolOp, t: Expr, p1: Path, p2: Path, env: Env, cs: set<Symbol>)
    requires InLevel(op, t, p1) && InLevel(op, t, p2)
    requires Proper(env) && Apart(cs, env) && Within(t, cs) && LITERALS <= cs
    ensures Eval(Walk(op, t, p1, p2).0, env) == Eval(t, env)
    ensures Within(Walk(op, t, p1, p2).0, cs)
    decreases Size(t), 0, Inner(op, At(op, t, p1)) + Inner(op, At(op, t, p2))
  {
    assert env.tri(Unit(op)) == (if op.OrOp? then NO else YES);
    hide Walk, Join, Apart, Proper;
    var (e1, e2) := (At(op, t, p1), At(op, t, p2));
    if IsOp(op, e1) {
      WalkFirst(op, t, p1, p2);
      WalkStep(op, t, p1, Left);
      WalkStep(op, t, p1, Right);
      var (t1, c1) := Walk(op, t, p1 + [Left], p2);
      WalkNext(op, t, t1, p1 + [Right], p2);
      WalkKeepsValue(op, t, p1 + [Left], p2, env, cs);
      WalkKeepsValue(op, t1, p1 + [Right], p2, env, cs);
    } else if IsOp(op, e2) {
      WalkSecond(op, t, p1, p2);
      WalkStep(op, t, p2, Left);
      WalkStep(op, t, p2, Right);
      var (t1, c1) := Walk(op, t, p1, p2 + [Left]);
      WalkNext(op, t, t1, p1, p2 + [Right]);
      WalkKeepsValue(op, t, p1, p2 + [Left], env, cs);
      WalkKeepsValue(op, t1, p1, p2 + [Right], env, cs);
    } else if p1 == p2 {
      WalkMeet(op, t, p1, p2);
    } else {
      WalkMeet(op, t, p1, p2);
      PutOther(op, t, p1, p2, e1, e2);
      OperandSmaller(op, t, p1);
      PutWithin(op, t, p1, e1, cs);
      PutWithin(op, t, p2, e2, cs);
      var (inner, c) := if e1.Bin? then Pass(e1) else (e1, 0);
      if e1.Bin? {
        WalkKeepsValue(e1.op, e1, [], [], env, cs);
      }
      PutValue(op, t, p1, inner, env);
      PutWithin(op, t, p1, inner, cs);
      var j := Join(op, inner, e2);
      if j.Some? {
        JoinKeepsValue(op, inner, e2, env, cs);
        JoinWithin(op, inner, e2, cs);
        PutPairValue(op, t, p1, p2, Sym(Unit(op)), j.value, env);
        PutWithin(op, t, p1, Sym(Unit(op)), cs);
        PutWithin(op, Put(op, t, p1, Sym(Unit(op))), p2, j.value, cs);
      }
    }
  }

  /** Removing duplicates keeps the value of every expression in every environment that keeps
      cs, the constants it compares with and y, m and n, apart. */
  lemma {:induction false} EliminateDupsKeepsWithin(e: Expr, env: Env, cs: set<Symbol>)
    requires Proper(env) && Apart(cs, env) && Within(e, cs) && LITERALS <= cs
    ensures Eval(EliminateDups(e), env) == Eval(e, env) && Within(EliminateDups(e), cs)
    decreases Size(e)
  {
    hide Apart, Proper;
    if e.Bin? {
      var (t, c) := Pass(e);
      WalkKeepsValue(e.op, e, [], [], env, cs);
      if c != 0 {
        JoinsLeaveLiterals(e.op, e, [], []);
        EliminateYnShrinks(t);
        EliminateYnKeepsValue(t, env);
        EliminateYnWithin(t, cs);
        EliminateDupsKeepsWithin(EliminateYn(t), env, cs);
      }
    }
  }

  /** Only the constants that the expression itself compares a tristate with matter, and nothing
      is asked of the environment if these are among y, m and n. */
  lemma EliminateDupsKeepsValue(e: Expr, env: Env)
    requires Proper(env) && (ConstantsApart(e, env) || Compared(e) <= LITERALS)
    ensures Eval(EliminateDups(e), env) == Eval(e, env)
    ensures Compared(EliminateDups(e)) <= Compared(e) + LITERALS
  {
    var cs := Compared(e) + LITERALS;
    if Compared(e) <= LITERALS {
      ComparedWithLiteralsOnly(e, env);
    }
    WithinIsCompared(e, cs);
    EliminateDupsKeepsWithin(e, env, cs);
    WithinIsCompared(EliminateDups(e), cs);
  }

  // ---------------------------------------------------------------- nothing more can be joined

  /** The operands at p and q, if they are two, cannot be joined. */
  ghost predicate NoJoinAt(op: BoolOp, e: Expr, p: Path, q: Path) {
    AtOperand(op, e, p) && AtOperand(op, e, q) && p != q ==> Join(op, At(op, e, p), At(op, e, q)).None?
  }

  /** No two operands of one level can be joined, at this level and at every level below
      that is reached through "and"s and "or"s. */
  ghost predicate Settled(e: Expr)
    decreases Size(e), 0
  {
    e.Bin? ==>
      && (forall p: Path, q: Path :: NoJoinAt(e.op, e, p, q))
      && OperandsSettled(e.op, e.left) && OperandsSettled(e.op, e.right)
  }

  ghost predicate OperandsSettled(op: BoolOp, e: Expr)
    decreases Size(e), 1
  {
    if IsOp(op, e) then OperandsSettled(op, e.left) && OperandsSettled(op, e.right) else Settled(e)
  }

  lemma {:induction false} OperandsSettledAt(op: BoolOp, e: Expr)
    ensures OperandsSettled(op, e) <==> forall p: Path :: AtOperand(op, e, p) ==> Settled(At(op, e, p))
  {
    if IsOp(op, e) {
      OperandsSettledAt(op, e.left);
      OperandsSettledAt(op, e.right);
      if OperandsSettled(op, e) {
        forall p: Path | AtOperand(op, e, p) ensures Settled(At(op, e, p)) {
          assert AtOperand(op, Child(e, p[0]), p[1..]);
        }
      }
      if forall p: Path :: AtOperand(op, e, p) ==> Settled(At(op, e, p)) {
        forall s: Side, p: Path | AtOperand(op, Child(e, s), p) ensures Settled(At(op, Child(e, s), p)) {
          assert ([s] + p)[1..] == p && AtOperand(op, e, [s] + p);
        }
        assert Child(e, Left) == e.left && Child(e, Right) == e.right;
      }
    } else {
      assert AtOperand(op, e, []);
    }
  }

  /** What the cursors check about the operands at a and b. */
  ghost predicate PairSettled(op: BoolOp, t: Expr, a: Path, b: Path) {
    AtOperand(op, t, a) && AtOperand(op, t, b) && a != b
    ==> Join(op, At(op, t, a), At(op, t, b)).None? && Settled(At(op, t, a))
  }

  /** ... for all operands below the two cursors. */
  ghost predicate PairsSettled(op: BoolOp, t: Expr, p1: Path, p2: Path) {
    forall a: Path, b: Path :: p1 <= a && p2 <= b ==> PairSettled(op, t, a, b)
  }

  lemma PairsSettledFirst(op: BoolOp, t: Expr, p1: Path, p2: Path)
    requires InLevel(op, t, p1) && IsOp(op, At(op, t, p1))
    ensures PairsSettled(op, t, p1, p2)
            <==> PairsSettled(op, t, p1 + [Left], p2) && PairsSettled(op, t, p1 + [Right], p2)
  {
    if PairsSettled(op, t, p1 + [Left], p2) && PairsSettled(op, t, p1 + [Right], p2) {
      forall a: Path, b: Path | p1 <= a && p2 <= b ensures PairSettled(op, t, a, b) {
        if AtOperand(op, t, a) {
          assert a != p1;
          assert if a[|p1|].Left? then p1 + [Left] <= a else p1 + [Right] <= a;
        }
      }
    }
  }

  lemma PairsSettledSecond(op: BoolOp, t: Expr, p1: Path, p2: Path)
    requires InLevel(op, t, p2) && IsOp(op, At(op, t, p2))
    ensures PairsSettled(op, t, p1, p2)
            <==> PairsSettled(op, t, p1, p2 + [Left]) && PairsSettled(op, t, p1, p2 + [Right])
  {
    if PairsSettled(op, t, p1, p2 + [Left]) && PairsSettled(op, t, p1, p2 + [Right]) {
      forall a: Path, b: Path | p1 <= a && p2 <= b ensures PairSettled(op, t, a, b) {
        if AtOperand(op, t, b) {
          assert b != p2;
          assert if b[|p2|].Left? then p2 + [Left] <= b else p2 + [Right] <= b;
        }
      }
    }
  }

  /** Below an operand there is only the operand itself. */
  lemma {:induction false} NothingBelowOperand(op: BoolOp, t: Expr, p: Path, a: Path)
    requires AtOperand(op, t, p) && p <= a && InLevel(op, t, a)
    ensures a == p
  {
    if p != [] {
      NothingBelowOperand(op, Child(t, p[0]), p[1..], a[1..]);
    }
  }

  /** A pass that makes no join changes nothing, and it makes none exactly when every pair
      of operands it compares is settled. */
  lemma {:induction false} WalkSettles(op: BoolOp, t: Expr, p1: Path, p2: Path)
    requires InLevel(op, t, p1) && InLevel(op, t, p2)
    ensures Walk(op, t, p1, p2).1 == 0 ==> Walk(op, t, p1, p2).0 == t
    ensures Walk(op, t, p1, p2).1 == 0 <==> PairsSettled(op, t, p1, p2)
    decreases Size(t), 0, Inner(op, At(op, t, p1)) + Inner(op, At(op, t, p2))
  {
    hide Walk, Join;
    var (e1, e2) := (At(op, t, p1), At(op, t, p2));
    if IsOp(op, e1) {
      WalkFirst(op, t, p1, p2);
      WalkStep(op, t, p1, Left);
      WalkStep(op, t, p1, Right);
      var (t1, c1) := Walk(op, t, p1 + [Left], p2);
      WalkNext(op, t, t1, p1 + [Right], p2);
      WalkSettles(op, t, p1 + [Left], p2);
      WalkSettles(op, t1, p1 + [Right], p2);
      PairsSettledFirst(op, t, p1, p2);
    } else if IsOp(op, e2) {
      WalkSecond(op, t, p1, p2);
      WalkStep(op, t, p2, Left);
      WalkStep(op, t, p2, Right);
      var (t1, c1) := Walk(op, t, p1, p2 + [Left]);
      WalkNext(op, t, t1, p1, p2 + [Right]);
      WalkSettles(op, t, p1, p2 + [Left]);
      WalkSettles(op, t1, p1, p2 + [Right]);
      PairsSettledSecond(op, t, p1, p2);
    } else {
      forall a: Path, b: Path | p1 <= a && p2 <= b && InLevel(op, t, a) && InLevel(op, t, b)
        ensures a == p1 && b == p2
      {
        NothingBelowOperand(op, t, p1, a);
        NothingBelowOperand(op, t, p2, b);
      }
      assert PairsSettled(op, t, p1, p2) <==> PairSettled(op, t, p1, p2);
      WalkMeet(op, t, p1, p2);
      if p1 != p2 {
        PutOther(op, t, p1, p2, e1, e2);
        OperandSmaller(op, t, p1);
        PutAt(op, t, p1, e1);
        if e1.Bin? {
          PassSettles(e1);
        }
      }
    }
  }

  lemma {:induction false} PassSettles(e: Expr)
    requires e.Bin?
    ensures Pass(e).1 == 0 ==> Pass(e).0 == e
    ensures Pass(e).1 == 0 <==> Settled(e)
    decreases Size(e), 1
  {
    WalkSettles(e.op, e, [], []);
    OperandsSettledAt(e.op, e);
    if Settled(e) {
      forall a: Path, b: Path ensures PairSettled(e.op, e, a, b) {
        assert NoJoinAt(e.op, e, a, b);
      }
    }
    if PairsSettled(e.op, e, [], []) {
      forall a: Path, b: Path ensures NoJoinAt(e.op, e, a, b) {
        assert PairSettled(e.op, e, a, b);
      }
      forall a: Path | AtOperand(e.op, e, a) ensures Settled(At(e.op, e, a)) {
        var b := AnotherOperand(e.op, e, a);
        assert PairSettled(e.op, e, a, b);
      }
      assert OperandsSettled(e.op, e.left) && OperandsSettled(e.op, e.right);
    }
  }

  /** A level has at least two operands. */
  lemma AnotherOperand(op: BoolOp, e: Expr, a: Path) returns (b: Path)
    requires IsOp(op, e)
    ensures AtOperand(op, e, b) && a != b
  {
    var side := if a == [] || a[0].Left? then Right else Left;
    b := [side] + FirstOperand(op, Child(e, side));
    assert b[1..] == FirstOperand(op, Child(e, side));
  }

  function FirstOperand(op: BoolOp, e: Expr): (p: Path)
    ensures AtOperand(op, e, p)
  {
    if IsOp(op, e) then
      var q := FirstOperand(op, e.left);
      assert ([Left] + q)[1..] == q;
      [Left] + q
    else []
  }

  /** On exit nothing is left to join, and an expression with nothing to join is left alone. */
  lemma {:induction false} EliminateDupsSettles(e: Expr)
    ensures Settled(EliminateDups(e))
    ensures Settled(e) ==> EliminateDups(e) == e
    ensures EliminateDups(EliminateDups(e)) == EliminateDups(e)
    decreases Size(e)
  {
    if e.Bin? {
      var (t, c) := Pass(e);
      PassSettles(e);
      if c != 0 {
        JoinsLeaveLiterals(e.op, e, [], []);
        EliminateYnShrinks(t);
        EliminateDupsSettles(EliminateYn(t));
      }
    }
  }
}
