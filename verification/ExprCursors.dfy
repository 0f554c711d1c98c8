/**
 Pointers into an expression in memory: where a cursor points, what writing through it
 does to the whole expression, and why two cursors do not disturb each other.
 */
module ExprCursors {
  import opened Expr
  import opened Cursor
  import opened ExprHeap

  /** struct expr **: the variable holding the top node, or an operand field of a node. */
  datatype Slot = Top(n: Node) | Field(owner: Node, side: Side)

  function Deref(slot: Slot): Node?
    reads if slot.Field? then {slot.owner} else {}
  {
    match slot
    case Top(n) => n
    case Field(owner, side) => if side.Left? then owner.left else owner.right
  }

  ghost function Below(s: Shape, side: Side): Shape
    requires s.Two?
  {
    if side.Left? then s.l else s.r
  }

  ghost predicate HasPath(s: Shape, p: Path) {
    p == [] || (s.Two? && HasPath(Below(s, p[0]), p[1..]))
  }

  ghost function Sub(s: Shape, p: Path): Shape
    requires HasPath(s, p)
  {
    if p == [] then s else Sub(Below(s, p[0]), p[1..])
  }

  ghost function SubPut(s: Shape, p: Path, x: Shape): Shape
    requires HasPath(s, p)
  {
    if p == [] then x
    else if p[0].Left? then Two1(s.n, SubPut(s.l, p[1..], x), s.r)
    else Two1(s.n, s.l, SubPut(s.r, p[1..], x))
  }

  /** The node whose field is written when the operand at p is replaced. */
  ghost function Owner(s: Shape, p: Path): Node
    requires HasPath(s, p) && p != []
  {
    if |p| == 1 then s.n else Owner(Below(s, p[0]), p[1..])
  }

  ghost predicate Points(slot: Slot, s: Shape, p: Path) {
    HasPath(s, p) && if p == [] then slot == Top(s.n) else slot == Field(Owner(s, p), p[|p| - 1])
  }

  lemma {:induction false} SubDenotes(op: BoolOp, s: Shape, v: Expr, p: Path)
    requires Denotes(s, s.n, v) && InLevel(op, v, p)
    ensures HasPath(s, p) && Sub(s, p).nodes <= s.nodes
    ensures Denotes(Sub(s, p), Sub(s, p).n, At(op, v, p))
    ensures p != [] ==> Owner(s, p) in s.nodes && Owner(s, p) !in Sub(s, p).nodes
  {
    if p != [] {
      SubDenotes(op, Below(s, p[0]), Child(v, p[0]), p[1..]);
    }
  }

  lemma {:induction false} PointsDeref(op: BoolOp, s: Shape, v: Expr, p: Path, slot: Slot)
    requires Denotes(s, s.n, v) && InLevel(op, v, p) && Points(slot, s, p)
    ensures Deref(slot) == Sub(s, p).n
  {
    if p != [] && |p| > 1 {
      assert p[1..][|p[1..]| - 1] == p[|p| - 1];
      PointsDeref(op, Below(s, p[0]), Child(v, p[0]), p[1..], slot);
    }
  }

  /** Different operands share no node. */
  lemma {:induction false} OperandsApart(op: BoolOp, s: Shape, v: Expr, p: Path, q: Path)
    requires Denotes(s, s.n, v) && AtOperand(op, v, p) && AtOperand(op, v, q) && p != q
    ensures HasPath(s, p) && HasPath(s, q) && Sub(s, p).nodes !! Sub(s, q).nodes
  {
    PutOther(op, v, p, q, v, v);
    if p[0] == q[0] {
      OperandsApart(op, Below(s, p[0]), Child(v, p[0]), p[1..], q[1..]);
    } else {
      SubDenotes(op, Below(s, p[0]), Child(v, p[0]), p[1..]);
      SubDenotes(op, Below(s, q[0]), Child(v, q[0]), q[1..]);
    }
  }

  // ---------------------------------------------------------------- writing through a cursor

  /** Everything around the place p is linked up for v, whatever stands at p itself. */
  ghost predicate Around(op: BoolOp, s: Shape, v: Expr, p: Path)
    requires HasPath(s, p) && InLevel(op, v, p)
    reads s.nodes - Sub(s, p).nodes
    decreases p
  {
    Sub(s, p).nodes <= s.nodes &&
    (p != [] ==>
       && s.nodes == {s.n} + s.l.nodes + s.r.nodes && s.n !in s.l.nodes && s.n !in s.r.nodes && s.l.nodes !! s.r.nodes
       && Sub(s, p).nodes <= Below(s, p[0]).nodes
       && s.n.kind == KBin(op) && s.n.left == s.l.n && s.n.right == s.r.n
       && Around(op, Below(s, p[0]), Child(v, p[0]), p[1..])
       && (if p[0].Left? then Denotes(s.r, s.r.n, v.right) else Denotes(s.l, s.l.n, v.left)))
  }

  lemma {:induction false} Split(op: BoolOp, s: Shape, v: Expr, p: Path)
    requires Denotes(s, s.n, v) && InLevel(op, v, p) && HasPath(s, p)
    ensures Around(op, s, v, p)
  {
    if p != [] {
      SubDenotes(op, Below(s, p[0]), Child(v, p[0]), p[1..]);
      Split(op, Below(s, p[0]), Child(v, p[0]), p[1..]);
    }
  }

  lemma {:induction false} Plug(op: BoolOp, s: Shape, v: Expr, p: Path, y: Shape, w: Expr)
    requires HasPath(s, p) && InLevel(op, v, p) && Around(op, s, v, p)
    requires Denotes(y, Sub(s, p).n, w) && y.nodes !! (s.nodes - Sub(s, p).nodes)
    ensures Denotes(SubPut(s, p, y), s.n, Put(op, v, p, w))
    ensures SubPut(s, p, y).nodes == s.nodes - Sub(s, p).nodes + y.nodes
  {
    hide Denotes;
    if p != [] {
      var z, u := SubPut(Below(s, p[0]), p[1..], y), Put(op, Child(v, p[0]), p[1..], w);
      Plug(op, Below(s, p[0]), Child(v, p[0]), p[1..], y, w);
      Open(z, Below(s, p[0]).n, u);
      if p[0].Left? {
        CloseTwo(s.n, z, s.r, op, u, v.right);
      } else {
        CloseTwo(s.n, s.l, z, op, v.left, u);
      }
    }
  }

  /** What is around an operand includes the node that holds it and the operand's sibling. */
  lemma {:induction false} AroundOwner(op: BoolOp, s: Shape, v: Expr, p: Path, side: Side)
    requires InLevel(op, v, p + [side]) && HasPath(s, p + [side]) && Around(op, s, v, p + [side])
    ensures InLevel(op, v, p) && IsOp(op, At(op, v, p))
    ensures At(op, v, p + [side]) == Child(At(op, v, p), side)
    ensures HasPath(s, p) && Around(op, s, v, p)
    ensures var o := Sub(s, p); var c := At(op, v, p);
            && o.Two? && o == Two1(o.n, o.l, o.r) && o.n.kind == KBin(op) && o.n.left == o.l.n && o.n.right == o.r.n
            && o.n !in o.l.nodes && o.n !in o.r.nodes && o.l.nodes !! o.r.nodes
            && Owner(s, p + [side]) == o.n && Sub(s, p + [side]) == Below(o, side)
            && (if side.Left? then Denotes(o.r, o.r.n, c.right) else Denotes(o.l, o.l.n, c.left))
  {
    if p != [] {
      assert (p + [side])[1..] == p[1..] + [side];
      AroundOwner(op, Below(s, p[0]), Child(v, p[0]), p[1..], side);
    }
  }

  lemma {:induction false} SubPutBelow(s: Shape, p: Path, side: Side, x: Shape)
    requires HasPath(s, p + [side])
    ensures HasPath(s, p) && Sub(s, p).Two?
    ensures var o := Sub(s, p);
            SubPut(s, p + [side], x)
            == SubPut(s, p, if side.Left? then Two1(o.n, x, o.r) else Two1(o.n, o.l, x))
  {
    if p != [] {
      assert (p + [side])[1..] == p[1..] + [side];
      SubPutBelow(Below(s, p[0]), p[1..], side, x);
    }
  }

  /** The holder of the operand at p + [side], with the operand xs under it, put back in place. */
  lemma PlugOperand(op: BoolOp, s: Shape, v: Expr, p: Path, side: Side, xs: Shape, w: Expr)
    requires InLevel(op, v, p + [side]) && InLevel(op, v, p) && IsOp(op, At(op, v, p))
    requires HasPath(s, p + [side]) && HasPath(s, p) && Around(op, s, v, p)
    requires xs.nodes !! (s.nodes - Sub(s, p + [side]).nodes) && Denotes(xs, xs.n, w)
    requires var o := Sub(s, p); var c := At(op, v, p);
             && o.Two? && o == Two1(o.n, o.l, o.r) && o.n !in o.l.nodes && o.n !in o.r.nodes && o.l.nodes !! o.r.nodes
             && Sub(s, p + [side]) == Below(o, side) && o.n.kind == KBin(op)
             && (if side.Left? then o.n.left == xs.n && o.n.right == o.r.n && Denotes(o.r, o.r.n, c.right)
                 else o.n.left == o.l.n && o.n.right == xs.n && Denotes(o.l, o.l.n, c.left))
    ensures Denotes(SubPut(s, p + [side], xs), s.n, Put(op, v, p + [side], w))
    ensures SubPut(s, p + [side], xs).nodes == s.nodes - Sub(s, p + [side]).nodes + xs.nodes
  {
    hide Denotes;
    SubPutBelow(s, p, side, xs);
    PutStepDown(op, v, p, side, w);
    var o, c := Sub(s, p), At(op, v, p);
    assert o.nodes <= s.nodes;
    if side.Left? {
      CloseTwo(o.n, xs, o.r, op, w, c.right);
      Plug(op, s, v, p, Two1(o.n, xs, o.r), Bin(op, w, c.right));
    } else {
      CloseTwo(o.n, o.l, xs, op, c.left, w);
      Plug(op, s, v, p, Two1(o.n, o.l, xs), Bin(op, c.left, w));
    }
  }

  /** *ep = x */
  method Write(slot: Slot, x: Node, ghost op: BoolOp, ghost s: Shape, ghost v: Expr, ghost p: Path,
               ghost xs: Shape, ghost w: Expr)
    requires p != [] && InLevel(op, v, p) && Points(slot, s, p) && Around(op, s, v, p)
    requires Denotes(xs, x, w) && xs.nodes !! (s.nodes - Sub(s, p).nodes)
    modifies slot.owner
    ensures Denotes(SubPut(s, p, xs), s.n, Put(op, v, p, w))
    ensures SubPut(s, p, xs).nodes == s.nodes - Sub(s, p).nodes + xs.nodes
  {
    hide Denotes, Around, SubPut, Put, At, Sub, InLevel, Owner;
    ghost var q, side := p[..|p| - 1], p[|p| - 1];
    assert p == q + [side];
    AroundOwner(op, s, v, q, side);
    Open(xs, x, w);
    OwnerOutside(op, s, v, q, side);
    if slot.side.Left? {
      slot.owner.left := x;
    } else {
      slot.owner.right := x;
    }
    assert Denotes(xs, x, w);
    PlugOperand(op, s, v, q, side, xs, w);
  }

  /** The holder of an operand is no part of what is around it, or of the operand. */
  lemma OwnerOutside(op: BoolOp, s: Shape, v: Expr, p: Path, side: Side)
    requires InLevel(op, v, p + [side]) && HasPath(s, p + [side]) && Around(op, s, v, p + [side])
    ensures HasPath(s, p) && var o := Sub(s, p).n; o in s.nodes - Sub(s, p + [side]).nodes && o in Sub(s, p).nodes
  {
    AroundOwner(op, s, v, p, side);
    AroundInside(op, s, v, p);
  }

  lemma OwnerAround(op: BoolOp, s: Shape, v: Expr, p: Path)
    requires p != [] && InLevel(op, v, p) && HasPath(s, p) && Around(op, s, v, p)
    ensures Owner(s, p) in s.nodes - Sub(s, p).nodes
  {
    assert p == p[..|p| - 1] + [p[|p| - 1]];
    AroundOwner(op, s, v, p[..|p| - 1], p[|p| - 1]);
    OwnerOutside(op, s, v, p[..|p| - 1], p[|p| - 1]);
  }

  lemma AroundInside(op: BoolOp, s: Shape, v: Expr, p: Path)
    requires HasPath(s, p) && InLevel(op, v, p) && Around(op, s, v, p)
    ensures Sub(s, p).nodes <= s.nodes
  {
  }

  // ---------------------------------------------------------------- the inner nodes stay

  ghost predicate SameSpine(op: BoolOp, v: Expr, s: Shape, t: Shape)
    decreases v
  {
    IsOp(op, v) ==>
      && s.Two? && t.Two? && s.n == t.n
      && SameSpine(op, v.left, s.l, t.l) && SameSpine(op, v.right, s.r, t.r)
  }

  lemma {:induction false} SameSpineReflexive(op: BoolOp, v: Expr, s: Shape)
    requires Denotes(s, s.n, v)
    ensures SameSpine(op, v, s, s)
  {
    if IsOp(op, v) {
      SameSpineReflexive(op, v.left, s.l);
      SameSpineReflexive(op, v.right, s.r);
    }
  }

  lemma {:induction false} SameSpineTransitive(op: BoolOp, v: Expr, w: Expr, s: Shape, t: Shape, u: Shape)
    requires SameShape(op, v, w) && SameSpine(op, v, s, t) && SameSpine(op, w, t, u)
    ensures SameSpine(op, v, s, u)
  {
    if IsOp(op, v) {
      SameSpineTransitive(op, v.left, w.left, s.l, t.l, u.l);
      SameSpineTransitive(op, v.right, w.right, s.r, t.r, u.r);
    }
  }

  lemma {:induction false} SameSpinePut(op: BoolOp, v: Expr, s: Shape, p: Path, x: Shape)
    requires SameSpine(op, v, s, s) && AtOperand(op, v, p) && HasPath(s, p)
    ensures SameSpine(op, v, s, SubPut(s, p, x))
    ensures p != [] ==> SubPut(s, p, x).n == s.n
  {
    if p != [] {
      SameSpinePut(op, Child(v, p[0]), Below(s, p[0]), p[1..], x);
    }
  }

  /** A cursor still points where it did, although operands have been rewritten. */
  lemma {:induction false} PointsStill(op: BoolOp, v: Expr, s: Shape, t: Shape, p: Path, slot: Slot)
    requires SameSpine(op, v, s, t) && s.n == t.n && InLevel(op, v, p) && Points(slot, s, p)
    ensures Points(slot, t, p)
  {
    OwnerStays(op, v, s, t, p);
  }

  lemma {:induction false} OwnerStays(op: BoolOp, v: Expr, s: Shape, t: Shape, p: Path)
    requires SameSpine(op, v, s, t) && InLevel(op, v, p) && HasPath(s, p)
    ensures HasPath(t, p) && (p != [] ==> Owner(s, p) == Owner(t, p))
  {
    if p != [] {
      OwnerStays(op, Child(v, p[0]), Below(s, p[0]), Below(t, p[0]), p[1..]);
    }
  }

  /** &e->left.expr and &e->right.expr of the inner node a cursor points to. */
  lemma {:induction false} PointsBelow(op: BoolOp, s: Shape, v: Expr, p: Path, side: Side)
    requires Denotes(s, s.n, v) && InLevel(op, v, p) && IsOp(op, At(op, v, p)) && HasPath(s, p)
    ensures Points(Field(Sub(s, p).n, side), s, p + [side])
  {
    if p != [] {
      PointsBelow(op, Below(s, p[0]), Child(v, p[0]), p[1..], side);
      assert (p + [side])[1..] == p[1..] + [side];
    }
  }
}
