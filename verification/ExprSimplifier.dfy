/**
 The simplifications that compare operands, in place: cancelling common operands of two
 expressions, testing equality on copies, and joining duplicate operands of one expression
 with two cursors into the same nodes.  All of them count what they did in transCount.
 */
module ExprSimplifier {
  import opened Expr
  import opened ExprEq
  import opened Cursor
  import opened ExprDups
  import opened ExprHeap
  import opened ExprReduced
  import opened ExprCursors

  class Simplifier {
    var transCount: nat

    constructor ()
      ensures transCount == 0
    {
      transCount := 0;
    }

    // -------------------------------------------------------------- __expr_eliminate_eq

    method CancelPairsInPlace(op: BoolOp, e1: Node, e2: Node, ghost s1: Shape, ghost s2: Shape,
                              ghost v1: Expr, ghost v2: Expr)
      returns (r1: Node, r2: Node, ghost t1: Shape, ghost t2: Shape)
      requires Denotes(s1, e1, v1) && Denotes(s2, e2, v2) && s1.nodes !! s2.nodes
      modifies this, s1.nodes, s2.nodes
      ensures Denotes(t1, r1, CancelPairs(op, v1, v2).0) && Denotes(t2, r2, CancelPairs(op, v1, v2).1)
      ensures t1.nodes !! t2.nodes && fresh(t1.nodes - s1.nodes) && fresh(t2.nodes - s2.nodes)
      decreases Size(v1) + Size(v2), if IsOp(op, v1) || IsOp(op, v2) then 0 else 3, 1
    {
      hide Denotes;
      hide EliminateEq, CancelSecondLevel;
      Open(s1, e1, v1);
      Open(s2, e2, v2);
      if e1.kind == KBin(op) {
        r1, r2, t1, t2 := CancelBelowFirst(op, e1, e2, s1, s2, v1, v2);
      } else if e2.kind == KBin(op) {
        r1, r2, t1, t2 := CancelBelowSecond(op, e1, e2, s1, s2, v1, v2);
      } else {
        r1, r2, t1, t2 := e1, e2, s1, s2;
        if e1.kind.KSym? && e2.kind.KSym? && e1.lsym == e2.lsym && (e1.lsym == SymbolYes || e1.lsym == SymbolNo) {
          return;
        }
        var equal := ExprEqualNodes(e1, e2, s1, s2, v1, v2);
        if equal {
          transCount := transCount + 1;
          r1 := new Node.AllocSymbol(Unit(op));
          r2 := new Node.AllocSymbol(Unit(op));
          t1, t2 := Leaf1(r1), Leaf1(r2);
        }
      }
    }

    method CancelBelowFirst(op: BoolOp, e1: Node, e2: Node, ghost s1: Shape, ghost s2: Shape,
                            ghost v1: Expr, ghost v2: Expr)
      returns (r1: Node, r2: Node, ghost t1: Shape, ghost t2: Shape)
      requires Denotes(s1, e1, v1) && Denotes(s2, e2, v2) && s1.nodes !! s2.nodes && IsOp(op, v1)
      modifies this, s1.nodes, s2.nodes
      ensures Denotes(t1, r1, CancelPairs(op, v1, v2).0) && Denotes(t2, r2, CancelPairs(op, v1, v2).1)
      ensures t1.nodes !! t2.nodes && fresh(t1.nodes - s1.nodes) && fresh(t2.nodes - s2.nodes)
      decreases Size(v1) + Size(v2), 0, 0
    {
      hide Denotes;
      hide CancelPairs;
      CancelPairsBelow(op, v1, v2);
      Open(s1, e1, v1);
      ghost var x, y := CancelPairs(op, v1.left, v2).0, CancelPairs(op, v1.left, v2).1;
      var l, a, lt, at := CancelPairsInPlace(op, e1.left, e2, s1.l, s2, v1.left, v2);
      e1.left := l;
      r1, r2, t1, t2 := CancelRightOfFirst(op, e1, a, lt, s1.r, at, x, v1.right, y);
    }

    method CancelRightOfFirst(op: BoolOp, e1: Node, e2: Node, ghost l: Shape, ghost r: Shape, ghost s2: Shape,
                              ghost lv: Expr, ghost rv: Expr, ghost v2: Expr)
      returns (r1: Node, r2: Node, ghost t1: Shape, ghost t2: Shape)
      requires e1.kind == KBin(op) && e1.left != null && e1.right != null
      requires Denotes(l, e1.left, lv) && Denotes(r, e1.right, rv) && Denotes(s2, e2, v2)
      requires {e1} !! l.nodes !! r.nodes !! s2.nodes
      modifies this, e1, r.nodes, s2.nodes
      ensures var (x, y) := CancelPairs(op, rv, v2); Denotes(t1, r1, Bin(op, lv, x)) && Denotes(t2, r2, y)
      ensures t1.nodes !! t2.nodes && fresh(t1.nodes - {e1} - l.nodes - r.nodes) && fresh(t2.nodes - s2.nodes)
      decreases Size(rv) + Size(v2), 4
    {
      hide Denotes;
      hide CancelPairs;
      var x, b, xt, bt := CancelPairsInPlace(op, e1.right, e2, r, s2, rv, v2);
      e1.right := x;
      Open(l, e1.left, lv);
      Open(xt, x, CancelPairs(op, rv, v2).0);
      CloseTwo(e1, l, xt, op, lv, CancelPairs(op, rv, v2).0);
      r1, r2, t1, t2 := e1, b, Two1(e1, l, xt), bt;
    }

    method CancelBelowSecond(op: BoolOp, e1: Node, e2: Node, ghost s1: Shape, ghost s2: Shape,
                             ghost v1: Expr, ghost v2: Expr)
      returns (r1: Node, r2: Node, ghost t1: Shape, ghost t2: Shape)
      requires Denotes(s1, e1, v1) && Denotes(s2, e2, v2) && s1.nodes !! s2.nodes && !IsOp(op, v1) && IsOp(op, v2)
      modifies this, s1.nodes, s2.nodes
      ensures Denotes(t1, r1, CancelPairs(op, v1, v2).0) && Denotes(t2, r2, CancelPairs(op, v1, v2).1)
      ensures t1.nodes !! t2.nodes && fresh(t1.nodes - s1.nodes) && fresh(t2.nodes - s2.nodes)
      decreases Size(v1) + Size(v2), 0, 0
    {
      hide Denotes;
      hide CancelPairs;
      CancelPairsBelow(op, v1, v2);
      Open(s2, e2, v2);
      ghost var x, y := CancelPairs(op, v1, v2.left).0, CancelPairs(op, v1, v2.left).1;
      var a, l, at, lt := CancelPairsInPlace(op, e1, e2.left, s1, s2.l, v1, v2.left);
      e2.left := l;
      r1, r2, t1, t2 := CancelRightOfSecond(op, a, e2, at, lt, s2.r, x, y, v2.right);
    }

    method CancelRightOfSecond(op: BoolOp, e1: Node, e2: Node, ghost s1: Shape, ghost l: Shape, ghost r: Shape,
                               ghost v1: Expr, ghost lv: Expr, ghost rv: Expr)
      returns (r1: Node, r2: Node, ghost t1: Shape, ghost t2: Shape)
      requires e2.kind == KBin(op) && e2.left != null && e2.right != null
      requires Denotes(s1, e1, v1) && Denotes(l, e2.left, lv) && Denotes(r, e2.right, rv)
      requires {e2} !! s1.nodes !! l.nodes !! r.nodes
      modifies this, e2, s1.nodes, r.nodes
      ensures var (x, y) := CancelPairs(op, v1, rv); Denotes(t1, r1, x) && Denotes(t2, r2, Bin(op, lv, y))
      ensures t1.nodes !! t2.nodes && fresh(t1.nodes - s1.nodes) && fresh(t2.nodes - {e2} - l.nodes - r.nodes)
      decreases Size(v1) + Size(rv), 4
    {
      hide Denotes;
      hide CancelPairs;
      var b, y, bt, yt := CancelPairsInPlace(op, e1, e2.right, s1, r, v1, rv);
      e2.right := y;
      Open(l, e2.left, lv);
      Open(yt, y, CancelPairs(op, v1, rv).1);
      CloseTwo(e2, l, yt, op, lv, CancelPairs(op, v1, rv).1);
      r1, r2, t1, t2 := b, e2, bt, Two1(e2, l, yt);
    }

    // -------------------------------------------------------------- expr_eliminate_eq

    method EliminateEqInPlace(e1: Node, e2: Node, ghost s1: Shape, ghost s2: Shape, ghost v1: Expr, ghost v2: Expr)
      returns (r1: Node, r2: Node, ghost t1: Shape, ghost t2: Shape)
      requires Denotes(s1, e1, v1) && Denotes(s2, e2, v2) && s1.nodes !! s2.nodes
      modifies this, s1.nodes, s2.nodes
      ensures Denotes(t1, r1, EliminateEq(v1, v2).0) && Denotes(t2, r2, EliminateEq(v1, v2).1)
      ensures t1.nodes !! t2.nodes && fresh(t1.nodes - s1.nodes) && fresh(t2.nodes - s2.nodes)
      decreases Size(v1) + Size(v2), 1, 1
    {
      hide Denotes;
      hide CancelPairs, CancelSecondLevel;
      Open(s1, e1, v1);
      if e1.kind.KBin? {
        r1, r2, t1, t2 := CancelPairsInPlace(e1.kind.op, e1, e2, s1, s2, v1, v2);
        ghost var (a, b) := CancelPairs(v1.op, v1, v2);
        r1, r2, t1, t2 := CancelSecondLevelInPlace(r1, r2, t1, t2, a, b);
      } else {
        r1, r2, t1, t2 := CancelSecondLevelInPlace(e1, e2, s1, s2, v1, v2);
      }
    }

    method CancelSecondLevelInPlace(e1: Node, e2: Node,
                                    ghost s1: Shape, ghost s2: Shape, ghost v1: Expr, ghost v2: Expr)
      returns (r1: Node, r2: Node, ghost t1: Shape, ghost t2: Shape)
      requires Denotes(s1, e1, v1) && Denotes(s2, e2, v2) && s1.nodes !! s2.nodes
      modifies this, s1.nodes, s2.nodes
      ensures Denotes(t1, r1, CancelSecondLevel(v1, v2).0) && Denotes(t2, r2, CancelSecondLevel(v1, v2).1)
      ensures t1.nodes !! t2.nodes && fresh(t1.nodes - s1.nodes) && fresh(t2.nodes - s2.nodes)
      decreases Size(v1) + Size(v2), 1, 0
    {
      hide Denotes;
      hide CancelPairs, EliminateYn;
      Open(s1, e1, v1);
      Open(s2, e2, v2);
      r1, r2, t1, t2 := e1, e2, s1, s2;
      ghost var c, d := v1, v2;
      if e2.kind.KBin? && e1.kind != e2.kind {
        c, d := CancelPairs(v2.op, v1, v2).0, CancelPairs(v2.op, v1, v2).1;
        r1, r2, t1, t2 := CancelPairsInPlace(e2.kind.op, e1, e2, s1, s2, v1, v2);
      }
      t1 := EliminateYnInPlace(r1, t1, c);
      t2 := EliminateYnInPlace(r2, t2, d);
    }

    // -------------------------------------------------------------- expr_eq

    /** The two trees are left as they are, and so is the counter. */
    method ExprEqualNodes(e1: Node, e2: Node, ghost s1: Shape, ghost s2: Shape, ghost v1: Expr, ghost v2: Expr)
      returns (res: bool)
      requires Denotes(s1, e1, v1) && Denotes(s2, e2, v2)
      modifies this
      ensures res == ExprEqual(v1, v2)
      ensures transCount == old(transCount)
      decreases Size(v1) + Size(v2), 2
    {
      hide Denotes;
      hide EliminateEq, CancelPairs;
      Open(s1, e1, v1);
      Open(s2, e2, v2);
      if e1.kind != e2.kind {
        return false;
      }
      if e1.kind.KComp? {
        return e1.lsym == e2.lsym && e1.rsym == e2.rsym;
      } else if e1.kind.KSym? {
        return e1.lsym == e2.lsym;
      } else if e1.kind.KNot? {
        res := ExprEqualNodes(e1.left, e2.left, s1.c, s2.c, v1.arg, v2.arg);
      } else {
        var c1, ct1 := Copy(e1, s1, v1);
        var c2, ct2 := Copy(e2, s2, v2);
        var oldCount := transCount;
        var r1, r2, t1, t2 := EliminateEqInPlace(c1, c2, ct1, ct2, v1, v2);
        Open(t1, r1, EliminateEq(v1, v2).0);
        Open(t2, r2, EliminateEq(v1, v2).1);
        res := r1.kind.KSym? && r2.kind.KSym? && r1.lsym == r2.lsym;
        transCount := oldCount;
      }
    }

    // -------------------------------------------------------------- expr_join_or and expr_join_and

    /** A new expression for the pair, or null; the operands are left alone. */
    method JoinNodes(op: BoolOp, e1: Node, e2: Node, ghost s1: Shape, ghost s2: Shape, ghost v1: Expr, ghost v2: Expr)
      returns (tmp: Node?, ghost t: Shape)
      requires Denotes(s1, e1, v1) && Denotes(s2, e2, v2)
      modifies this
      ensures transCount == old(transCount)
      ensures tmp == null <==> Join(op, v1, v2).None?
      ensures tmp == null <==> !Redundant(op, v1, v2)
      ensures tmp != null ==> Denotes(t, tmp, Join(op, v1, v2).value) && fresh(t.nodes)
    {
      hide Denotes;
      hide ExprEqual, Redundant;
      JoinExactly(op, v1, v2);
      t := s1;
      var equal := ExprEqualNodes(e1, e2, s1, s2, v1, v2);
      if equal {
        tmp, t := Copy(e1, s1, v1);
        return;
      }
      var joined;
      if op.OrOp? {
        joined := JoinOrNodes(e1, e2, s1, s2, v1, v2);
      } else {
        joined := JoinAndNodes(e1, e2, s1, s2, v1, v2);
      }
      if joined.None? {
        tmp := null;
      } else if joined.value.Sym? {
        tmp := new Node.AllocSymbol(joined.value.sym);
        t := Leaf1(tmp);
      } else {
        tmp := new Node.AllocComp(joined.value.rel, joined.value.lsym, joined.value.rsym);
        t := Leaf1(tmp);
      }
    }

    // -------------------------------------------------------------- expr_eliminate_dups1

    /** The cursors are slots of one and the same expression s, at the places p1 and p2. */
    method WalkInPlace(op: BoolOp, ep1: Slot, ep2: Slot, ghost s: Shape, ghost v: Expr, ghost p1: Path, ghost p2: Path)
      returns (ghost t: Shape)
      requires Denotes(s, s.n, v) && InLevel(op, v, p1) && InLevel(op, v, p2)
      requires Points(ep1, s, p1) && Points(ep2, s, p2)
      modifies this, s.nodes
      ensures Denotes(t, s.n, Walk(op, v, p1, p2).0) && t.n == s.n
      ensures transCount == old(transCount) + Walk(op, v, p1, p2).1
      ensures SameSpine(op, v, s, t) && fresh(t.nodes - s.nodes)
      decreases Size(v), 1, Inner(op, At(op, v, p1)) + Inner(op, At(op, v, p2))
    {
      hide Denotes, Walk, Pass;
      PointsDeref(op, s, v, p1, ep1);
      PointsDeref(op, s, v, p2, ep2);
      SubDenotes(op, s, v, p1);
      SubDenotes(op, s, v, p2);
      var e1, e2 := Deref(ep1), Deref(ep2);
      Open(Sub(s, p1), e1, At(op, v, p1));
      Open(Sub(s, p2), e2, At(op, v, p2));
      if e1.kind == KBin(op) {
        t := WalkBelowFirst(op, e1, ep2, s, v, p1, p2);
      } else if e2.kind == KBin(op) {
        t := WalkBelowSecond(op, ep1, e2, s, v, p1, p2);
      } else if e1 == e2 {
        assert p1 == p2 by {
          if p1 != p2 {
            OperandsApart(op, s, v, p1, p2);
          }
        }
        t := s;
        WalkMeet(op, v, p1, p2);
        SameSpineReflexive(op, v, s);
      } else {
        t := MeetInPlace(op, ep1, ep2, s, v, p1, p2);
      }
    }

    method WalkBelowFirst(op: BoolOp, e1: Node, ep2: Slot,
                          ghost s: Shape, ghost v: Expr, ghost p1: Path, ghost p2: Path)
      returns (ghost t: Shape)
      requires Denotes(s, s.n, v) && InLevel(op, v, p1) && InLevel(op, v, p2) && IsOp(op, At(op, v, p1))
      requires HasPath(s, p1) && Sub(s, p1).n == e1 && Points(ep2, s, p2)
      modifies this, s.nodes
      ensures Denotes(t, s.n, Walk(op, v, p1, p2).0) && t.n == s.n
      ensures transCount == old(transCount) + Walk(op, v, p1, p2).1
      ensures SameSpine(op, v, s, t) && fresh(t.nodes - s.nodes)
      decreases Size(v), 1, Inner(op, At(op, v, p1)) + Inner(op, At(op, v, p2)), 0
    {
      hide Denotes, Walk, Pass;
      WalkFirst(op, v, p1, p2);
      WalkStep(op, v, p1, Left);
      WalkStep(op, v, p1, Right);
      PointsBelow(op, s, v, p1, Left);
      PointsBelow(op, s, v, p1, Right);
      ghost var v' := Walk(op, v, p1 + [Left], p2).0;
      WalkNext(op, v, v', p1 + [Right], p2);
      t := WalkInPlace(op, Field(e1, Left), ep2, s, v, p1 + [Left], p2);
      ghost var m := t;
      PointsStill(op, v, s, m, p1 + [Right], Field(e1, Right));
      PointsStill(op, v, s, m, p2, ep2);
      t := WalkInPlace(op, Field(e1, Right), ep2, m, v', p1 + [Right], p2);
      SameSpineTransitive(op, v, v', s, m, t);
    }

    method WalkBelowSecond(op: BoolOp, ep1: Slot, e2: Node,
                           ghost s: Shape, ghost v: Expr, ghost p1: Path, ghost p2: Path)
      returns (ghost t: Shape)
      requires Denotes(s, s.n, v) && InLevel(op, v, p1) && InLevel(op, v, p2)
      requires !IsOp(op, At(op, v, p1)) && IsOp(op, At(op, v, p2))
      requires Points(ep1, s, p1) && HasPath(s, p2) && Sub(s, p2).n == e2
      modifies this, s.nodes
      ensures Denotes(t, s.n, Walk(op, v, p1, p2).0) && t.n == s.n
      ensures transCount == old(transCount) + Walk(op, v, p1, p2).1
      ensures SameSpine(op, v, s, t) && fresh(t.nodes - s.nodes)
      decreases Size(v), 1, Inner(op, At(op, v, p1)) + Inner(op, At(op, v, p2)), 0
    {
      hide Denotes, Walk, Pass;
      WalkSecond(op, v, p1, p2);
      WalkStep(op, v, p2, Left);
      WalkStep(op, v, p2, Right);
      PointsBelow(op, s, v, p2, Left);
      PointsBelow(op, s, v, p2, Right);
      ghost var v' := Walk(op, v, p1, p2 + [Left]).0;
      WalkNext(op, v, v', p1, p2 + [Right]);
      t := WalkInPlace(op, ep1, Field(e2, Left), s, v, p1, p2 + [Left]);
      ghost var m := t;
      PointsStill(op, v, s, m, p1, ep1);
      PointsStill(op, v, s, m, p2 + [Right], Field(e2, Right));
      t := WalkInPlace(op, ep1, Field(e2, Right), m, v', p1, p2 + [Right]);
      SameSpineTransitive(op, v, v', s, m, t);
    }

    /** Two different operands: the first is gone through itself, then the two are joined. */
    method MeetInPlace(op: BoolOp, ep1: Slot, ep2: Slot, ghost s: Shape, ghost v: Expr, ghost p1: Path, ghost p2: Path)
      returns (ghost t: Shape)
      requires Denotes(s, s.n, v) && AtOperand(op, v, p1) && AtOperand(op, v, p2) && p1 != p2
      requires Points(ep1, s, p1) && Points(ep2, s, p2)
      modifies this, s.nodes
      ensures Denotes(t, s.n, Walk(op, v, p1, p2).0) && t.n == s.n
      ensures transCount == old(transCount) + Walk(op, v, p1, p2).1
      ensures SameSpine(op, v, s, t) && fresh(t.nodes - s.nodes)
      decreases Size(v), 1, 0, 0
    {
      hide Denotes, Walk, Join, Around;
      WalkMeet(op, v, p1, p2);
      ghost var v1, v2 := At(op, v, p1), At(op, v, p2);
      PutOther(op, v, p1, p2, v1, v2);
      OperandSmaller(op, v, p1);
      OperandsApart(op, s, v, p1, p2);
      PointsDeref(op, s, v, p1, ep1);
      PointsDeref(op, s, v, p2, ep2);
      SubDenotes(op, s, v, p1);
      SubDenotes(op, s, v, p2);
      Split(op, s, v, p1);
      SameSpineReflexive(op, v, s);
      var e1, e2 := Deref(ep1), Deref(ep2);
      Open(Sub(s, p1), e1, v1);
      ghost var x, inner := Sub(s, p1), v1;
      if e1.kind.KBin? {
        inner := Pass(v1).0;
        x := WalkInPlace(e1.kind.op, Top(e1), Top(e1), x, v1, [], []);
      }
      var tmp, ts := JoinNodes(op, e1, e2, x, Sub(s, p2), inner, v2);
      if tmp == null {
        Plug(op, s, v, p1, x, inner);
        t := SubPut(s, p1, x);
        SameSpinePut(op, v, s, p1, x);
      } else {
        t := JoinInPlace(op, ep1, ep2, tmp, ts, Join(op, inner, v2).value, s, v, p1, p2);
        transCount := transCount + 1;
      }
    }

    /** e1 = unit; e2 = tmp; */
    method JoinInPlace(op: BoolOp, ep1: Slot, ep2: Slot, tmp: Node, ghost ts: Shape, ghost joined: Expr,
                       ghost s: Shape, ghost v: Expr, ghost p1: Path, ghost p2: Path)
      returns (ghost t: Shape)
      requires AtOperand(op, v, p1) && AtOperand(op, v, p2) && p1 != p2
      requires Points(ep1, s, p1) && Points(ep2, s, p2) && Around(op, s, v, p1)
      requires SameSpine(op, v, s, s)
      requires Denotes(ts, tmp, joined) && ts.nodes !! s.nodes
      modifies s.nodes
      ensures InLevel(op, Put(op, v, p1, Sym(Unit(op))), p2)
      ensures Denotes(t, s.n, Put(op, Put(op, v, p1, Sym(Unit(op))), p2, joined)) && t.n == s.n
      ensures SameSpine(op, v, s, t) && fresh(t.nodes - s.nodes - ts.nodes)
    {
      hide Denotes, Around;
      ghost var unit := Sym(Unit(op));
      PutOther(op, v, p1, p2, unit, joined);
      PutOperand(op, v, p1, unit);
      OwnerAround(op, s, v, p1);
      var n := new Node.AllocSymbol(Unit(op));
      Write(ep1, n, op, s, v, p1, Leaf1(n), unit);
      ghost var m, v1 := SubPut(s, p1, Leaf1(n)), Put(op, v, p1, unit);
      SameSpinePut(op, v, s, p1, Leaf1(n));
      PointsStill(op, v, s, m, p2, ep2);
      SameSpineReflexive(op, v1, m);
      SubDenotes(op, m, v1, p2);
      Split(op, m, v1, p2);
      Write(ep2, tmp, op, m, v1, p2, ts, joined);
      t := SubPut(m, p2, ts);
      SameSpinePut(op, v1, m, p2, ts);
      SameSpineTransitive(op, v, v1, s, m, t);
    }

    // -------------------------------------------------------------- expr_eliminate_dups

    /** The counter serves as the loop's "something changed" flag and is put back at the end. */
    method EliminateDupsInPlace(e: Node, ghost s: Shape, ghost v: Expr) returns (ghost t: Shape)
      requires Denotes(s, e, v)
      modifies this, s.nodes
      ensures Denotes(t, e, EliminateDups(v)) && fresh(t.nodes - s.nodes)
      ensures Reduced(EliminateDups(v))
      ensures transCount == old(transCount)
    {
      hide Denotes, Walk, Reduced;
      EliminateDupsReduces(v);
      t := s;
      ghost var w := v;
      var oldCount := transCount;
      while true
        invariant Denotes(t, e, w) && fresh(t.nodes - s.nodes)
        invariant EliminateDups(w) == EliminateDups(v)
        decreases Size(w)
      {
        transCount := 0;
        ghost var u := w;
        Open(t, e, w);
        if e.kind.KBin? {
          u := Pass(w).0;
          t := WalkInPlace(e.kind.op, Top(e), Top(e), t, w, [], []);
        }
        if transCount == 0 {
          break;
        }
        JoinsLeaveLiterals(w.op, w, [], []);
        EliminateYnShrinks(u);
        t := EliminateYnInPlace(e, t, u);
        w := EliminateYn(u);
      }
      transCount := oldCount;
    }
  }

  // ---------------------------------------------------------------- the rules, on nodes

  /** The symbol an operand of a join is about; the second may be negated as a symbol only. */
  method SymbolOf(e: Node, second: bool, ghost s: Shape, ghost v: Expr) returns (r: Option<Symbol>)
    requires Denotes(s, e, v)
    ensures r == if second then JoinSymbol2(v) else JoinSymbol1(v)
  {
    Open(s, e, v);
    if e.kind.KNot? {
      Open(s.c, e.left, v.arg);
      var n := e.left;
      r := if n.kind.KSym? || (!second && IsEquation(n)) then Some(n.lsym) else None;
    } else {
      r := if e.kind.KSym? || IsEquation(e) then Some(e.lsym) else None;
    }
  }

  /** = or != */
  predicate IsEquation(e: Node)
    reads e
  {
    e.kind.KComp? && (e.kind.rel.Equal? || e.kind.rel.Unequal?)
  }

  predicate Compares(e: Node, rel: Rel, r: Symbol)
    reads e
  {
    e.kind == KComp(rel) && e.rsym == r
  }

  predicate ComparesEach(e1: Node, e2: Node, rel: Rel, r: Symbol, s: Symbol)
    reads e1, e2
  {
    (Compares(e1, rel, r) && Compares(e2, rel, s)) || (Compares(e1, rel, s) && Compares(e2, rel, r))
  }

  predicate BareAndCompares(e1: Node, e2: Node, rel: Rel, r: Symbol)
    reads e1, e2
  {
    (e1.kind.KSym? && Compares(e2, rel, r)) || (e2.kind.KSym? && Compares(e1, rel, r))
  }

  lemma ComparesIs(s: Shape, e: Node, v: Expr)
    requires Denotes(s, e, v)
    ensures forall rel: Rel, r: Symbol :: Compares(e, rel, r) <==> Is(v, rel, r)
    ensures e.kind.KSym? <==> v.Sym?
  {
    Open(s, e, v);
  }

  method JoinOrNodes(e1: Node, e2: Node, ghost s1: Shape, ghost s2: Shape, ghost v1: Expr, ghost v2: Expr)
    returns (r: Option<Expr>)
    requires Denotes(s1, e1, v1) && Denotes(s2, e2, v2)
    ensures r == JoinOr(v1, v2)
  {
    hide Denotes;
    ComparesIs(s1, e1, v1);
    ComparesIs(s2, e2, v2);
    var sym1 := SymbolOf(e1, false, s1, v1);
    var sym2 := SymbolOf(e2, true, s2, v2);
    if sym1.None? || sym2.None? || sym1 != sym2 || !IsLogical(sym1.value) {
      return None;
    }
    var a := sym1.value;
    if a.Type() == Tristate {
      if ComparesEach(e1, e2, Equal, SymbolYes, SymbolMod) {
        return Some(Comp(Unequal, a, SymbolNo));
      }
      if ComparesEach(e1, e2, Equal, SymbolYes, SymbolNo) {
        return Some(Comp(Unequal, a, SymbolMod));
      }
      if ComparesEach(e1, e2, Equal, SymbolMod, SymbolNo) {
        return Some(Comp(Unequal, a, SymbolYes));
      }
      return None;
    }
    var not1 := NegatesSymbol(e1, s1, v1);
    var not2 := NegatesSymbol(e2, s2, v2);
    r := if (not1 && e2.kind.KSym?) || (not2 && e1.kind.KSym?) then Some(Y) else None;
  }

  method NegatesSymbol(e: Node, ghost s: Shape, ghost v: Expr) returns (r: bool)
    requires Denotes(s, e, v)
    ensures r == (v.Not? && v.arg.Sym?)
  {
    Open(s, e, v);
    r := false;
    if e.kind.KNot? {
      Open(s.c, e.left, v.arg);
      r := e.left.kind.KSym?;
    }
  }

  method JoinAndNodes(e1: Node, e2: Node, ghost s1: Shape, ghost s2: Shape, ghost v1: Expr, ghost v2: Expr)
    returns (r: Option<Expr>)
    requires Denotes(s1, e1, v1) && Denotes(s2, e2, v2)
    ensures r == JoinAnd(v1, v2)
  {
    hide Denotes;
    Open(s1, e1, v1);
    Open(s2, e2, v2);
    ComparesIs(s1, e1, v1);
    ComparesIs(s2, e2, v2);
    var sym1 := SymbolOf(e1, false, s1, v1);
    var sym2 := SymbolOf(e2, true, s2, v2);
    if sym1.None? || sym2.None? || sym1 != sym2 || !IsLogical(sym1.value) {
      return None;
    }
    var a := sym1.value;
    if BareAndCompares(e1, e2, Equal, SymbolYes) {
      return Some(Comp(Equal, a, SymbolYes));
    }
    if BareAndCompares(e1, e2, Unequal, SymbolNo) {
      return Some(Sym(a));
    }
    if BareAndCompares(e1, e2, Unequal, SymbolMod) {
      return Some(Comp(Equal, a, SymbolYes));
    }
    if a.Type() != Tristate {
      return None;
    }
    if e1.kind == KComp(Equal) && e2.kind == KComp(Unequal) && e1.rsym.IsConst() && e2.rsym.IsConst() {
      return if e1.rsym != e2.rsym then Some(Comp(Equal, a, e1.rsym)) else Some(N);
    }
    if e1.kind == KComp(Unequal) && e2.kind == KComp(Equal) && e1.rsym.IsConst() && e2.rsym.IsConst() {
      return if e1.rsym != e2.rsym then Some(Comp(Equal, a, e2.rsym)) else Some(N);
    }
    if ComparesEach(e1, e2, Unequal, SymbolYes, SymbolNo) {
      return Some(Comp(Equal, a, SymbolMod));
    }
    if ComparesEach(e1, e2, Unequal, SymbolYes, SymbolMod) {
      return Some(Comp(Equal, a, SymbolNo));
    }
    r := if ComparesEach(e1, e2, Unequal, SymbolMod, SymbolNo) then Some(Comp(Equal, a, SymbolYes)) else None;
  }
}
