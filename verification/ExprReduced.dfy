/**
 What is left when duplicates have been eliminated, said by the forms of the operands alone: at
 every level no two operands are equal, and no two are a pair that says less than one of them.
 */
module ExprReduced {
  import opened Expr
  import opened ExprEq
  import opened Cursor
  import opened ExprDups

  // ---------------------------------------------------------------- redundant pairs

  /** The two, in whatever order, are x and y. */
  predicate AreBoth(e1: Expr, e2: Expr, x: Expr, y: Expr) {
    (e1 == x && e2 == y) || (e1 == y && e2 == x)
  }

  /** a=y || a=m, a=y || a=n and a=m || a=n of a tristate; a || !a of a bool. */
  predicate RedundantInOr(e1: Expr, e2: Expr, a: Symbol) {
    || (a.Type() == Tristate
        && (|| AreBoth(e1, e2, Comp(Equal, a, SymbolYes), Comp(Equal, a, SymbolMod))
            || AreBoth(e1, e2, Comp(Equal, a, SymbolYes), Comp(Equal, a, SymbolNo))
            || AreBoth(e1, e2, Comp(Equal, a, SymbolMod), Comp(Equal, a, SymbolNo))))
    || (a.Type() == Boolean && AreBoth(e1, e2, Sym(a), Not(Sym(a))))
  }

  /** a && a=y, a && a!=n and a && a!=m; of a tristate also a='b' && a!='c' with constants b and
      c, and two of a!=y, a!=m and a!=n. */
  ghost predicate RedundantInAnd(e1: Expr, e2: Expr, a: Symbol) {
    || (IsLogical(a)
        && (|| AreBoth(e1, e2, Sym(a), Comp(Equal, a, SymbolYes))
            || AreBoth(e1, e2, Sym(a), Comp(Unequal, a, SymbolNo))
            || AreBoth(e1, e2, Sym(a), Comp(Unequal, a, SymbolMod))))
    || (a.Type() == Tristate
        && (|| AreBoth(e1, e2, Comp(Unequal, a, SymbolYes), Comp(Unequal, a, SymbolMod))
            || AreBoth(e1, e2, Comp(Unequal, a, SymbolYes), Comp(Unequal, a, SymbolNo))
            || AreBoth(e1, e2, Comp(Unequal, a, SymbolMod), Comp(Unequal, a, SymbolNo))
            || exists b: Symbol, c: Symbol :: b.IsConst() && c.IsConst()
                 && AreBoth(e1, e2, Comp(Equal, a, b), Comp(Unequal, a, c))))
  }

  /** Of these two operands one is enough. */
  ghost predicate Redundant(op: BoolOp, e1: Expr, e2: Expr) {
    || ExprEqual(e1, e2)
    || exists a: Symbol :: if op.OrOp? then RedundantInOr(e1, e2, a) else RedundantInAnd(e1, e2, a)
  }

  lemma JoinOrExactly(e1: Expr, e2: Expr)
    ensures JoinOr(e1, e2).Some? <==> exists a: Symbol :: RedundantInOr(e1, e2, a)
  {
    if JoinOr(e1, e2).Some? {
      var a := JoinSymbol1(e1).value;
      assert e1.Comp? ==> e1 == Comp(e1.rel, a, e1.rsym);
      assert e2.Comp? ==> e2 == Comp(e2.rel, a, e2.rsym);
      assert RedundantInOr(e1, e2, a);
    }
  }

  lemma JoinAndExactly(e1: Expr, e2: Expr)
    ensures JoinAnd(e1, e2).Some? <==> exists a: Symbol :: RedundantInAnd(e1, e2, a)
  {
    if JoinAnd(e1, e2).Some? {
      var a := JoinSymbol1(e1).value;
      assert e1.Comp? ==> e1 == Comp(e1.rel, a, e1.rsym);
      assert e2.Comp? ==> e2 == Comp(e2.rel, a, e2.rsym);
      assert RedundantInAnd(e1, e2, a);
    }
  }

  /** Two operands are joined exactly if one is enough. */
  lemma JoinExactly(op: BoolOp, e1: Expr, e2: Expr)
    ensures Join(op, e1, e2).Some? <==> Redundant(op, e1, e2)
  {
    hide JoinOr, JoinAnd, ExprEqual, RedundantInOr, RedundantInAnd;
    JoinOrExactly(e1, e2);
    JoinAndExactly(e1, e2);
  }

  // ---------------------------------------------------------------- operands by number

  lemma {:induction false} OperandsAreSmaller(op: BoolOp, e: Expr)
    ensures forall x :: x in Operands(op, e) ==> Size(x) <= Size(e) && !IsOp(op, x)
    ensures IsOp(op, e) ==> forall x :: x in Operands(op, e) ==> Size(x) < Size(e)
  {
    if IsOp(op, e) {
      OperandsAreSmaller(op, e.left);
      OperandsAreSmaller(op, e.right);
    }
  }

  /** Where the i-th operand stands. */
  function PathOf(op: BoolOp, e: Expr, i: nat): Path
    requires i < |Operands(op, e)|
  {
    if !IsOp(op, e) then []
    else if i < |Operands(op, e.left)| then [Left] + PathOf(op, e.left, i)
    else [Right] + PathOf(op, e.right, i - |Operands(op, e.left)|)
  }

  /** Which operand stands there. */
  function IndexOf(op: BoolOp, e: Expr, p: Path): nat
    requires AtOperand(op, e, p)
  {
    if p == [] then 0
    else if p[0].Left? then IndexOf(op, e.left, p[1..])
    else |Operands(op, e.left)| + IndexOf(op, e.right, p[1..])
  }

  lemma {:induction false} PathOfIndex(op: BoolOp, e: Expr, p: Path)
    requires AtOperand(op, e, p)
    ensures IndexOf(op, e, p) < |Operands(op, e)| && Operands(op, e)[IndexOf(op, e, p)] == At(op, e, p)
    ensures PathOf(op, e, IndexOf(op, e, p)) == p
  {
    if p != [] {
      PathOfIndex(op, Child(e, p[0]), p[1..]);
    }
  }

  lemma {:induction false} IndexOfPath(op: BoolOp, e: Expr, i: nat)
    requires i < |Operands(op, e)|
    ensures AtOperand(op, e, PathOf(op, e, i)) && At(op, e, PathOf(op, e, i)) == Operands(op, e)[i]
    ensures IndexOf(op, e, PathOf(op, e, i)) == i
  {
    if IsOp(op, e) {
      var n := |Operands(op, e.left)|;
      if i < n {
        IndexOfPath(op, e.left, i);
      } else {
        IndexOfPath(op, e.right, i - n);
      }
      assert PathOf(op, e, i)[1..] == if i < n then PathOf(op, e.left, i) else PathOf(op, e.right, i - n);
    }
  }

  // ---------------------------------------------------------------- reduced expressions

  /** No two different operands of a level are redundant, at this level and at every level that
      is reached through "and"s and "or"s. */
  ghost predicate Reduced(e: Expr)
    decreases Size(e)
  {
    if !e.Bin? then true else
    var s := Operands(e.op, e);
    OperandsAreSmaller(e.op, e);
    && (forall i, j :: 0 <= i < |s| && 0 <= j < |s| && i != j ==> !Redundant(e.op, s[i], s[j]))
    && forall i :: 0 <= i < |s| ==> Reduced(s[i])
  }

  lemma {:induction false} SettledIsReduced(e: Expr)
    ensures Settled(e) <==> Reduced(e)
    decreases Size(e)
  {
    hide Join, Redundant, Operands;
    if e.Bin? {
      var (op, s) := (e.op, Operands(e.op, e));
      OperandsAreSmaller(op, e);
      OperandsSettledAt(op, e);
      forall i | 0 <= i < |s| ensures Settled(s[i]) <==> Reduced(s[i]) {
        SettledIsReduced(s[i]);
      }
      if Settled(e) {
        forall i, j | 0 <= i < |s| && 0 <= j < |s| && i != j ensures !Redundant(op, s[i], s[j]) {
          IndexOfPath(op, e, i);
          IndexOfPath(op, e, j);
          assert NoJoinAt(op, e, PathOf(op, e, i), PathOf(op, e, j));
          JoinExactly(op, s[i], s[j]);
        }
        forall i | 0 <= i < |s| ensures Reduced(s[i]) {
          IndexOfPath(op, e, i);
        }
      }
      if Reduced(e) {
        forall p: Path, q: Path ensures NoJoinAt(op, e, p, q) {
          if AtOperand(op, e, p) && AtOperand(op, e, q) && p != q {
            PathOfIndex(op, e, p);
            PathOfIndex(op, e, q);
            JoinExactly(op, At(op, e, p), At(op, e, q));
          }
        }
        forall p: Path | AtOperand(op, e, p) ensures Settled(At(op, e, p)) {
          PathOfIndex(op, e, p);
        }
        LevelSettled(e);
      }
    }
  }

  lemma LevelSettled(e: Expr)
    requires e.Bin? && OperandsSettled(e.op, e) && forall p: Path, q: Path :: NoJoinAt(e.op, e, p, q)
    ensures Settled(e)
  {
  }

  /** A pass makes no join exactly if there is nothing redundant. */
  lemma PassReduces(e: Expr)
    requires e.Bin?
    ensures Pass(e).1 == 0 <==> Reduced(e)
    ensures Pass(e).1 == 0 ==> Pass(e).0 == e
  {
    PassSettles(e);
    SettledIsReduced(e);
  }

  /** What comes out when duplicates are eliminated has nothing redundant, and what has nothing
      redundant comes out as it went in. */
  lemma EliminateDupsReduces(e: Expr)
    ensures Reduced(EliminateDups(e))
    ensures Reduced(e) ==> EliminateDups(e) == e
  {
    EliminateDupsSettles(e);
    SettledIsReduced(e);
    SettledIsReduced(EliminateDups(e));
  }
}
