/**
 When exactly the equality test answers yes, for expressions without y and n as operands: both
 have the same operands equally often at every level, in whatever order and grouping.
 */
module ExprEqExact {
  import opened Expr
  import opened ExprEq
  import opened ExprEqComplete

  /** An expression up to the order and grouping of the operands of its levels. */
  datatype Bag = Leaf(e: Expr) | Negated(arg: Bag) | Level(op: BoolOp, operands: multiset<Bag>)

  function BagOf(e: Expr): Bag
    decreases e, 1
  {
    match e
    case Sym(_) => Leaf(e)
    case Comp(_, _, _) => Leaf(e)
    case Not(a) => Negated(BagOf(a))
    case Bin(op, _, _) => Level(op, BagsOf(op, e))
  }

  /** The operands of the level of op that e is the top of, or e itself. */
  function BagsOf(op: BoolOp, e: Expr): multiset<Bag>
    decreases e, if IsOp(op, e) then 0 else 2
  {
    if IsOp(op, e) then BagsOf(op, e.left) + BagsOf(op, e.right) else multiset{BagOf(e)}
  }

  /** No "and" and no "or", anywhere in the expression, has y or n as an operand. */
  predicate LiteralFree(e: Expr) {
    match e
    case Sym(_) => true
    case Comp(_, _, _) => true
    case Not(a) => LiteralFree(a)
    case Bin(_, l, r) => !IsLiteral(l) && !IsLiteral(r) && LiteralFree(l) && LiteralFree(r)
  }

  // ---------------------------------------------------------------- while operands are being cancelled

  /** Operands are literal free, or have been cancelled. */
  predicate PartlyCancelled(op: BoolOp, e: Expr) {
    if IsOp(op, e) then PartlyCancelled(op, e.left) && PartlyCancelled(op, e.right)
    else e == Sym(Unit(op)) || (!IsLiteral(e) && LiteralFree(e))
  }

  /** The operands that have not been cancelled. */
  function Live(op: BoolOp, e: Expr): multiset<Bag> {
    if IsOp(op, e) then Live(op, e.left) + Live(op, e.right)
    else if e == Sym(Unit(op)) then multiset{}
    else multiset{BagOf(e)}
  }

  lemma {:induction false} NothingCancelledYet(op: BoolOp, e: Expr)
    requires LiteralFree(e) && !IsLiteral(e)
    ensures PartlyCancelled(op, e) && Live(op, e) == BagsOf(op, e)
  {
    if IsOp(op, e) {
      NothingCancelledYet(op, e.left);
      NothingCancelledYet(op, e.right);
    }
  }

  /** The walk takes away the same operands, k, on both sides, and what is left has nothing in
      common: so k is exactly what the two have in common, counted with multiplicity. */
  lemma {:induction false} CancelPairsExactly(op: BoolOp, e1: Expr, e2: Expr) returns (k: multiset<Bag>)
    requires PartlyCancelled(op, e1) && PartlyCancelled(op, e2)
    ensures var (n1, n2) := CancelPairs(op, e1, e2);
            && PartlyCancelled(op, n1) && PartlyCancelled(op, n2)
            && Live(op, e1) == Live(op, n1) + k && Live(op, e2) == Live(op, n2) + k
            && Live(op, n1) !! Live(op, n2)
    decreases Size(e1) + Size(e2), if IsOp(op, e1) || IsOp(op, e2) then 0 else 3
  {
    hide CancelPairs, ExprEqual, Live, BagOf, PartlyCancelled;
    CancelPairsBelow(op, e1, e2);
    if IsOp(op, e1) {
      var (l, a) := CancelPairs(op, e1.left, e2);
      var (r, b) := CancelPairs(op, e1.right, a);
      PartsOf(op, e1);
      PartsOf(op, Bin(op, l, r));
      var k1 := CancelPairsExactly(op, e1.left, e2);
      var k2 := CancelPairsExactly(op, e1.right, a);
      k := Together(Live(op, l), Live(op, r), Live(op, a), Live(op, b), k1, k2);
    } else if IsOp(op, e2) {
      var (a, l) := CancelPairs(op, e1, e2.left);
      var (b, r) := CancelPairs(op, a, e2.right);
      PartsOf(op, e2);
      PartsOf(op, Bin(op, l, r));
      var k1 := CancelPairsExactly(op, e1, e2.left);
      var k2 := CancelPairsExactly(op, a, e2.right);
      k := Together(Live(op, l), Live(op, r), Live(op, a), Live(op, b), k1, k2);
    } else {
      k := TwoOperands(op, e1, e2);
    }
  }

  lemma PartsOf(op: BoolOp, e: Expr)
    requires IsOp(op, e)
    ensures Live(op, e) == Live(op, e.left) + Live(op, e.right)
    ensures PartlyCancelled(op, e) <==> PartlyCancelled(op, e.left) && PartlyCancelled(op, e.right)
  {
  }

  /** What l and then r have in common with the other side, of which a and then b are left. */
  lemma Together(l: multiset<Bag>, r: multiset<Bag>, a: multiset<Bag>, b: multiset<Bag>,
                 k1: multiset<Bag>, k2: multiset<Bag>)
    returns (k: multiset<Bag>)
    requires l !! a && r !! b && a == b + k2
    ensures (l + k1) + (r + k2) == (l + r) + k && a + k1 == b + k
    ensures (l + r) !! b && b !! (l + r)
  {
    k := k1 + k2;
    forall x ensures (l + r)[x] == 0 || b[x] == 0 {
      assert a[x] == b[x] + k2[x];
    }
  }

  lemma {:induction false} TwoOperands(op: BoolOp, e1: Expr, e2: Expr) returns (k: multiset<Bag>)
    requires PartlyCancelled(op, e1) && PartlyCancelled(op, e2) && !IsOp(op, e1) && !IsOp(op, e2)
    ensures var (n1, n2) := CancelPairs(op, e1, e2);
            && PartlyCancelled(op, n1) && PartlyCancelled(op, n2)
            && Live(op, e1) == Live(op, n1) + k && Live(op, e2) == Live(op, n2) + k
            && Live(op, n1) !! Live(op, n2)
    decreases Size(e1) + Size(e2), 2, 1
  {
    hide BagOf;
    UnitMeets(op, e1, e2);
    k := multiset{};
    if e1 != Sym(Unit(op)) && e2 != Sym(Unit(op)) {
      EqualExactly(e1, e2);
      hide ExprEqual;
      if ExprEqual(e1, e2) {
        k := multiset{BagOf(e1)};
      }
    }
  }

  lemma UnitMeets(op: BoolOp, e1: Expr, e2: Expr)
    requires !IsOp(op, e1) && !IsOp(op, e2)
    ensures (e1 == Sym(Unit(op)) && !IsLiteral(e2)) || (e2 == Sym(Unit(op)) && !IsLiteral(e1)) ==>
              CancelPairs(op, e1, e2) == (e1, e2)
    ensures CancelPairs(op, e1, e2)
            == if !(e1 == e2 && IsLiteral(e1)) && ExprEqual(e1, e2) then (Sym(Unit(op)), Sym(Unit(op))) else (e1, e2)
  {
  }

  /** Dropping the cancelled operands leaves a single symbol only if at most one is left. */
  lemma {:induction false} DroppedToSymbol(op: BoolOp, e: Expr)
    requires PartlyCancelled(op, e)
    ensures Live(op, e) == multiset{} <==> EliminateYn(e) == Sym(Unit(op))
    ensures IsLiteral(EliminateYn(e)) ==> EliminateYn(e) == Sym(Unit(op))
    ensures EliminateYn(e).Sym? && Live(op, e) != multiset{} ==> Live(op, e) == multiset{Leaf(EliminateYn(e))}
  {
    hide BagOf;
    if IsOp(op, e) {
      DroppedToSymbol(op, e.left);
      DroppedToSymbol(op, e.right);
    } else {
      LiteralFreeStays(e);
      assert e.Sym? ==> BagOf(e) == Leaf(e) by {
        LeafOf(e);
      }
    }
  }

  lemma LeafOf(e: Expr)
    ensures e.Sym? ==> BagOf(e) == Leaf(e)
  {
  }

  lemma {:induction false} LiteralFreeStays(e: Expr)
    requires LiteralFree(e)
    ensures EliminateYn(e) == e
  {
    if e.Bin? {
      LiteralFreeStays(e.left);
      LiteralFreeStays(e.right);
    }
  }

  // ---------------------------------------------------------------- the exact condition

  /** The test answers yes if and only if the two are the same up to order and grouping; one
      operand more or less of the same kind makes them different. */
  lemma {:induction false} EqualExactly(e1: Expr, e2: Expr)
    requires LiteralFree(e1) && LiteralFree(e2)
    ensures ExprEqual(e1, e2) <==> BagOf(e1) == BagOf(e2)
    decreases Size(e1) + Size(e2), 2, 0
  {
    if e1.Not? && e2.Not? {
      EqualExactly(e1.arg, e2.arg);
    } else if e1.Bin? && e2.Bin? && e1.op == e2.op {
      ChainsExactly(e1.op, e1, e2);
    }
  }

  lemma {:induction false} ChainsExactly(op: BoolOp, e1: Expr, e2: Expr)
    requires LiteralFree(e1) && LiteralFree(e2) && IsOp(op, e1) && IsOp(op, e2)
    ensures ExprEqual(e1, e2) <==> BagsOf(op, e1) == BagsOf(op, e2)
    decreases Size(e1) + Size(e2), 1, 0
  {
    hide ExprEqual, CancelPairs, EliminateYn, Live, PartlyCancelled, BagsOf, BagOf;
    NothingCancelledYet(op, e1);
    NothingCancelledYet(op, e2);
    var k := CancelPairsExactly(op, e1, e2);
    var (n1, n2) := CancelPairs(op, e1, e2);
    DroppedToSymbol(op, n1);
    DroppedToSymbol(op, n2);
    EqualChainsUnfold(op, e1, e2);
    if Live(op, n1) != multiset{} || Live(op, n2) != multiset{} {
      NotTheSame(Live(op, n1), Live(op, n2), k);
      assert EliminateYn(n1).Sym? && Live(op, n1) != multiset{} ==> Leaf(EliminateYn(n1)) in Live(op, n1);
    }
  }

  lemma EqualChainsUnfold(op: BoolOp, e1: Expr, e2: Expr)
    requires IsOp(op, e1) && IsOp(op, e2)
    ensures var (n1, n2) := CancelPairs(op, e1, e2);
            var (a, b) := (EliminateYn(n1), EliminateYn(n2));
            ExprEqual(e1, e2) <==> a.Sym? && b.Sym? && a.sym == b.sym
  {
    hide EliminateEq, CancelPairs, EliminateYn;
    EliminateEqOfChains(op, e1, e2);
    EqualByEliminating(e1, e2);
  }

  lemma EqualByEliminating(e1: Expr, e2: Expr)
    requires e1.Bin? && e2.Bin? && e1.op == e2.op
    ensures var (a, b) := EliminateEq(e1, e2); ExprEqual(e1, e2) <==> a.Sym? && b.Sym? && a.sym == b.sym
  {
    hide EliminateEq;
  }

  lemma EliminateEqOfChains(op: BoolOp, e1: Expr, e2: Expr)
    requires IsOp(op, e1) && IsOp(op, e2)
    ensures var (n1, n2) := CancelPairs(op, e1, e2); EliminateEq(e1, e2) == (EliminateYn(n1), EliminateYn(n2))
  {
    hide CancelPairs, EliminateYn, ExprEqual;
  }

  lemma NotTheSame(a: multiset<Bag>, b: multiset<Bag>, k: multiset<Bag>)
    requires a !! b && (a != multiset{} || b != multiset{})
    ensures a + k != b + k
  {
    if a != multiset{} {
      var x :| x in a;
      assert (a + k)[x] != (b + k)[x];
    } else {
      var x :| x in b;
      assert (a + k)[x] != (b + k)[x];
    }
  }

  // ---------------------------------------------------------------- chains of symbols

  /** For chains of symbols, the test compares how often each symbol occurs.  The comment above
      expr_eq speaks of which symbols occur. */
  lemma SymbolChainsEqual(op: BoolOp, e1: Expr, e2: Expr)
    requires IsOp(op, e1) && IsOp(op, e2)
    requires forall x :: x in Operands(op, e1) || x in Operands(op, e2) ==> x.Sym? && !IsLiteral(x)
    ensures ExprEqual(e1, e2) <==> multiset(Operands(op, e1)) == multiset(Operands(op, e2))
  {
    hide ExprEqual, BagsOf, Operands, LiteralFree;
    ChainOfSymbols(op, e1);
    ChainOfSymbols(op, e2);
    EqualExactly(e1, e2);
    SameLeaves(BagsOf(op, e1), BagsOf(op, e2), multiset(Operands(op, e1)), multiset(Operands(op, e2)));
  }

  lemma SameLeaves(a: multiset<Bag>, b: multiset<Bag>, m: multiset<Expr>, n: multiset<Expr>)
    requires forall x: Bag :: a[x] == if x.Leaf? then m[x.e] else 0
    requires forall x: Bag :: b[x] == if x.Leaf? then n[x.e] else 0
    ensures a == b <==> m == n
  {
    if a == b {
      forall e: Expr ensures m[e] == n[e] {
        assert a[Leaf(e)] == b[Leaf(e)];
      }
    }
  }

  lemma {:induction false} ChainOfSymbols(op: BoolOp, e: Expr)
    requires forall x :: x in Operands(op, e) ==> x.Sym? && !IsLiteral(x)
    ensures LiteralFree(e) && !IsLiteral(e)
    ensures forall b: Bag :: BagsOf(op, e)[b] == if b.Leaf? then multiset(Operands(op, e))[b.e] else 0
  {
    if IsOp(op, e) {
      ChainOfSymbols(op, e.left);
      ChainOfSymbols(op, e.right);
    } else {
      assert Operands(op, e) == [e] && e in Operands(op, e);
    }
  }

  // ---------------------------------------------------------------- one condition inside another

  lemma {:induction false} LiteralIsKept(op: BoolOp, e: Expr, lit: Expr)
    requires IsLiteral(lit) && LiteralFree(e)
    ensures CancelPairs(op, e, lit) == (e, lit)
  {
    if IsOp(op, e) {
      LiteralIsKept(op, e.left, lit);
      LiteralIsKept(op, e.right, lit);
    }
  }

  lemma {:induction false} StillPartlyCancelled(op: BoolOp, e: Expr, n: Expr)
    requires PartlyCancelled(op, e) && Reduces(op, e, n)
    ensures PartlyCancelled(op, n)
  {
    if IsOp(op, e) {
      StillPartlyCancelled(op, e.left, n.left);
      StillPartlyCancelled(op, e.right, n.right);
    }
  }

  /** A single operand takes at most one away. */
  lemma {:induction false} OneTakesOne(op: BoolOp, x: Expr, t: Expr)
    requires !IsOp(op, x) && PartlyCancelled(op, t)
    ensures var (n, m) := CancelPairs(op, x, t);
            && PartlyCancelled(op, m)
            && ((n, m) == (x, t) || (n == Sym(Unit(op)) && |Live(op, m)| + 1 >= |Live(op, t)|))
    decreases Size(t)
  {
    hide ExprEqual;
    if IsOp(op, t) {
      var (a, l) := CancelPairs(op, x, t.left);
      var (b, r) := CancelPairs(op, a, t.right);
      assert CancelPairs(op, x, t) == (b, Bin(op, l, r));
      OneTakesOne(op, x, t.left);
      OneTakesOne(op, a, t.right);
      if a == Sym(Unit(op)) {
        LiteralCancelsNothing(op, a, t.right);
      }
    }
  }

  lemma {:induction false} AnOperandIsLive(op: BoolOp, e: Expr)
    requires LiteralFree(e) && !IsLiteral(e)
    ensures |BagsOf(op, e)| >= if IsOp(op, e) then 2 else 1
  {
    if IsOp(op, e) {
      AnOperandIsLive(op, e.left);
      AnOperandIsLive(op, e.right);
    }
  }

  lemma {:induction false} LiteralsAreNotAmong(op: BoolOp, e: Expr, lit: Expr)
    requires LiteralFree(e) && !IsLiteral(e) && IsLiteral(lit)
    ensures BagOf(lit) !in BagsOf(op, e)
  {
    if IsOp(op, e) {
      LiteralsAreNotAmong(op, e.left, lit);
      LiteralsAreNotAmong(op, e.right, lit);
    }
  }

  lemma LiteralAgainst(d: Expr, b: Expr)
    requires LiteralFree(d) && IsLiteral(b)
    ensures EliminateEq(d, b).1 == b
    ensures IsOp(AndOp, d) ==> !(BagsOf(AndOp, b) <= BagsOf(AndOp, d))
  {
    hide CancelPairs;
    if d.Bin? {
      LiteralIsKept(d.op, d, b);
    }
    if IsOp(AndOp, d) {
      LiteralsAreNotAmong(AndOp, d, b);
      assert BagOf(b) in BagsOf(AndOp, b);
    }
  }

  /** An "or" does not come down to y, whatever is cancelled. */
  lemma OrIsNotYes(x: Expr, b: Expr)
    requires IsOp(OrOp, b) && LiteralFree(b)
    ensures EliminateYn(CancelPairs(OrOp, x, b).1) != Y
  {
    hide CancelPairs, PartlyCancelled;
    var m := CancelPairs(OrOp, x, b).1;
    NothingCancelledYet(OrOp, b);
    CancelPairsComplete(OrOp, x, b);
    StillPartlyCancelled(OrOp, b, m);
    DroppedToSymbol(OrOp, m);
  }

  /** Nor does an "and" when there is only one operand on the other side. */
  lemma AndIsNotYes(x: Expr, b: Expr)
    requires IsOp(AndOp, b) && LiteralFree(b) && !IsOp(AndOp, x)
    ensures EliminateYn(CancelPairs(AndOp, x, b).1) != Y
  {
    hide CancelPairs, PartlyCancelled, Live, BagsOf;
    NothingCancelledYet(AndOp, b);
    AnOperandIsLive(AndOp, b);
    OneTakesOne(AndOp, x, b);
    DroppedToSymbol(AndOp, CancelPairs(AndOp, x, b).1);
  }

  lemma NotInside(d: Expr, b: Expr)
    requires LiteralFree(d) && LiteralFree(b) && !IsLiteral(b) && !IsOp(AndOp, d)
    ensures EliminateEq(d, b).1 != Y
  {
    hide CancelPairs;
    var x := d;
    if d.Bin? {
      x := CancelPairs(OrOp, d, b).0;
      CancelPairsComplete(OrOp, d, b);
      if IsOp(OrOp, b) {
        OrIsNotYes(d, b);
      }
    } else if IsOp(OrOp, b) {
      OrIsNotYes(d, b);
    }
    if IsOp(AndOp, b) {
      AndIsNotYes(x, b);
    }
    LiteralFreeStays(b);
  }

  lemma InsideAnd(d: Expr, b: Expr)
    requires LiteralFree(d) && LiteralFree(b) && !IsLiteral(b) && IsOp(AndOp, d)
    ensures EliminateEq(d, b).1 == Y <==> BagsOf(AndOp, b) <= BagsOf(AndOp, d)
  {
    hide EliminateEq, CancelPairs, BagOf, BagsOf, Live, PartlyCancelled, EliminateYn;
    EliminateEqOfAnd(d, b);
    NothingCancelledYet(AndOp, d);
    NothingCancelledYet(AndOp, b);
    var k := CancelPairsExactly(AndOp, d, b);
    var (n, m) := CancelPairs(AndOp, d, b);
    DroppedToSymbol(AndOp, m);
    Inside(Live(AndOp, n), Live(AndOp, m), k);
    if IsOp(OrOp, m) {
      CancelPairsComplete(AndOp, d, b);
      OrIsNotYes(n, b);
      OrIsLive(m);
    }
  }

  lemma EliminateEqOfAnd(d: Expr, b: Expr)
    requires IsOp(AndOp, d)
    ensures var (n, m) := CancelPairs(AndOp, d, b);
            EliminateEq(d, b).1 == EliminateYn(if IsOp(OrOp, m) then CancelPairs(OrOp, n, m).1 else m)
  {
  }

  lemma OrIsLive(m: Expr)
    requires IsOp(OrOp, m)
    ensures Live(AndOp, m) != multiset{}
  {
  }

  lemma Inside(l: multiset<Bag>, r: multiset<Bag>, k: multiset<Bag>)
    requires l !! r
    ensures r == multiset{} <==> r + k <= l + k
  {
    if r != multiset{} {
      var x :| x in r;
      assert l[x] == 0 && (r + k)[x] > (l + k)[x];
    }
  }

  /** Cancelling leaves y of the second condition if and only if that is y, or the first is an
      "and" that has all its operands, as often. */
  lemma SupersetExactly(d: Expr, b: Expr)
    requires LiteralFree(d) && LiteralFree(b)
    ensures EliminateEq(d, b).1 == Y <==> b == Y || (IsOp(AndOp, d) && BagsOf(AndOp, b) <= BagsOf(AndOp, d))
  {
    hide CancelPairs, ExprEqual, Live, PartlyCancelled, BagsOf;
    if IsLiteral(b) {
      LiteralAgainst(d, b);
    } else if IsOp(AndOp, d) {
      InsideAnd(d, b);
    } else {
      NotInside(d, b);
    }
  }
}
