/**
 The same simplifications in place, on nodes in memory: every method is proved to leave
 behind exactly the expression that the functions on values compute.

 A Shape records which nodes make up an expression.  It exists for the proofs only.
 */
module ExprHeap {
  import opened Expr
  import opened ExprEq
  import opened ExprTransform

  datatype Kind = KSym | KNot | KBin(op: BoolOp) | KComp(rel: Rel)

  class Node {
    var kind: Kind
    var left: Node?
    var right: Node?
    var lsym: Symbol
    var rsym: Symbol

    constructor AllocSymbol(s: Symbol)
      ensures Denotes(Leaf1(this), this, Sym(s))
    {
      kind, left, right, lsym, rsym := KSym, null, null, s, s;
    }

    constructor AllocComp(r: Rel, a: Symbol, b: Symbol)
      ensures Denotes(Leaf1(this), this, Comp(r, a, b))
    {
      kind, left, right, lsym, rsym := KComp(r), null, null, a, b;
    }

    constructor AllocOne(c: Node)
      ensures kind == KNot && left == c
    {
      kind, left, right, lsym, rsym := KNot, c, null, SymbolNo, SymbolNo;
    }

    constructor AllocTwo(op: BoolOp, l: Node, r: Node)
      ensures kind == KBin(op) && left == l && right == r
    {
      kind, left, right, lsym, rsym := KBin(op), l, r, SymbolNo, SymbolNo;
    }

    /** Turns the node into a symbol, dropping its operands. */
    method BecomeSymbol(s: Symbol)
      modifies this
      ensures Denotes(Leaf1(this), this, Sym(s))
    {
      kind, lsym, right := KSym, s, null;
    }

    /** *e = *other */
    method Overwrite(other: Node, ghost s: Shape, ghost v: Expr)
      requires Denotes(s, other, v) && this !in s.nodes
      modifies this
      ensures Denotes(Rebase(s, this), this, v) && Rebase(s, this).nodes <= {this} + s.nodes
    {
      kind, left, right, lsym, rsym := other.kind, other.left, other.right, other.lsym, other.rsym;
    }
  }

  /** A top node with its operands, and all nodes involved. */
  datatype Shape =
    | Leaf(n: Node, nodes: set<Node>)
    | One(n: Node, c: Shape, nodes: set<Node>)
    | Two(n: Node, l: Shape, r: Shape, nodes: set<Node>)

  ghost function Leaf1(n: Node): Shape {
    Leaf(n, {n})
  }

  ghost function One1(n: Node, c: Shape): Shape {
    One(n, c, {n} + c.nodes)
  }

  ghost function Two1(n: Node, l: Shape, r: Shape): Shape {
    Two(n, l, r, {n} + l.nodes + r.nodes)
  }

  /** The same operands under another top node. */
  ghost function Rebase(s: Shape, n: Node): Shape {
    match s
    case Leaf(_, _) => Leaf1(n)
    case One(_, c, _) => One1(n, c)
    case Two(_, l, r, _) => Two1(n, l, r)
  }

  /** The nodes of s, linked up from e as the shape says and none used twice, stand for v. */
  ghost predicate Denotes(s: Shape, e: Node, v: Expr)
    reads s.nodes
    decreases s
  {
    s.n == e && e in s.nodes &&
    match s
    case Leaf(n, ns) => ns == {n} && LeafIs(n, v)
    case One(n, c, ns) =>
      && ns == {n} + c.nodes && n !in c.nodes
      && n.kind.KNot? && n.left == c.n && v.Not? && Denotes(c, c.n, v.arg)
    case Two(n, l, r, ns) =>
      && ns == {n} + l.nodes + r.nodes && n !in l.nodes && n !in r.nodes && l.nodes !! r.nodes
      && v.Bin? && n.kind == KBin(v.op) && n.left == l.n && n.right == r.n
      && Denotes(l, l.n, v.left) && Denotes(r, r.n, v.right)
  }

  ghost predicate LeafIs(n: Node, v: Expr)
    reads n
  {
    match v
    case Sym(s) => n.kind == KSym && n.lsym == s
    case Comp(rel, a, b) => n.kind == KComp(rel) && n.lsym == a && n.rsym == b
    case _ => false
  }

  /** The top node tells the kind of expression, and its operands are found below it. */
  lemma Open(s: Shape, e: Node, v: Expr)
    requires Denotes(s, e, v)
    ensures s.n == e && e in s.nodes
    ensures e.kind.KSym? <==> v.Sym?
    ensures e.kind.KComp? <==> v.Comp?
    ensures e.kind.KNot? <==> v.Not?
    ensures e.kind.KBin? <==> v.Bin?
    ensures v.Sym? || v.Comp? ==> s == Leaf1(e) && LeafIs(e, v)
    ensures v.Not? ==>
              && s.One? && s == One1(e, s.c) && e !in s.c.nodes
              && e.left == s.c.n && Denotes(s.c, s.c.n, v.arg)
    ensures v.Bin? ==>
              && s.Two? && s == Two1(e, s.l, s.r) && e !in s.l.nodes && e !in s.r.nodes && s.l.nodes !! s.r.nodes
              && e.kind == KBin(v.op) && e.left == s.l.n && e.right == s.r.n
              && Denotes(s.l, s.l.n, v.left) && Denotes(s.r, s.r.n, v.right)
  {
  }

  lemma CloseOne(e: Node, c: Shape, v: Expr)
    requires e.kind.KNot? && e.left == c.n && e !in c.nodes && Denotes(c, c.n, v)
    ensures Denotes(One1(e, c), e, Not(v))
  {
  }

  lemma CloseTwo(e: Node, l: Shape, r: Shape, op: BoolOp, v: Expr, w: Expr)
    requires e.kind == KBin(op) && e.left == l.n && e.right == r.n
    requires e !in l.nodes && e !in r.nodes && l.nodes !! r.nodes && Denotes(l, l.n, v) && Denotes(r, r.n, w)
    ensures Denotes(Two1(e, l, r), e, Bin(op, v, w))
  {
  }

  // ---------------------------------------------------------------- expr_copy

  method Copy(e: Node, ghost s: Shape, ghost v: Expr) returns (r: Node, ghost t: Shape)
    requires Denotes(s, e, v)
    ensures Denotes(t, r, v) && fresh(t.nodes)
    decreases s
  {
    hide Denotes;
    Open(s, e, v);
    if e.kind.KSym? {
      r := new Node.AllocSymbol(e.lsym);
      t := Leaf1(r);
    } else if e.kind.KComp? {
      r := new Node.AllocComp(e.kind.rel, e.lsym, e.rsym);
      t := Leaf1(r);
    } else if e.kind.KNot? {
      var c, ct := Copy(e.left, s.c, v.arg);
      r := new Node.AllocOne(c);
      t := One1(r, ct);
      Open(ct, c, v.arg);
      CloseOne(r, ct, v.arg);
    } else {
      var c, ct := Copy(e.left, s.l, v.left);
      var d, dt := Copy(e.right, s.r, v.right);
      r := new Node.AllocTwo(e.kind.op, c, d);
      t := Two1(r, ct, dt);
      Open(ct, c, v.left);
      Open(dt, d, v.right);
      CloseTwo(r, ct, dt, v.op, v.left, v.right);
    }
  }

  // ---------------------------------------------------------------- expr_eliminate_yn

  method EliminateYnInPlace(e: Node, ghost s: Shape, ghost v: Expr) returns (ghost t: Shape)
    requires Denotes(s, e, v)
    modifies s.nodes
    ensures Denotes(t, e, EliminateYn(v)) && t.nodes <= s.nodes
    decreases s
  {
    hide Denotes;
    Open(s, e, v);
    t := s;
    if e.kind.KBin? {
      ghost var l := EliminateYnInPlace(e.left, s.l, v.left);
      ghost var r := EliminateYnInPlace(e.right, s.r, v.right);
      t := DropLiteralInPlace(e, l, r, v.op, EliminateYn(v.left), EliminateYn(v.right));
    }
  }

  method DropLiteralInPlace(e: Node, ghost l: Shape, ghost r: Shape, ghost op: BoolOp, ghost v: Expr, ghost w: Expr)
    returns (ghost t: Shape)
    requires e.kind == KBin(op) && e.left != null && e.right != null && Denotes(l, e.left, v) && Denotes(r, e.right, w)
    requires e !in l.nodes && e !in r.nodes && l.nodes !! r.nodes
    modifies e
    ensures Denotes(t, e, DropLiteral(op, v, w)) && t.nodes <= {e} + l.nodes + r.nodes
  {
    hide Denotes;
    Open(l, e.left, v);
    Open(r, e.right, w);
    CloseTwo(e, l, r, op, v, w);
    t := Two1(e, l, r);
    var absorbing, unit := if e.kind.op.AndOp? then SymbolNo else SymbolYes, Unit(e.kind.op);
    if e.left.kind.KSym? && e.left.lsym == absorbing {
      e.BecomeSymbol(absorbing);
      t := Leaf1(e);
    } else if e.left.kind.KSym? && e.left.lsym == unit {
      e.Overwrite(e.right, r, w);
      t := Rebase(r, e);
    } else if e.right.kind.KSym? && e.right.lsym == absorbing {
      e.BecomeSymbol(absorbing);
      t := Leaf1(e);
    } else if e.right.kind.KSym? && e.right.lsym == unit {
      e.Overwrite(e.left, l, v);
      t := Rebase(l, e);
    }
  }

  // ---------------------------------------------------------------- expr_trans_bool

  method TransBoolInPlace(e: Node, ghost s: Shape, ghost v: Expr) returns (ghost t: Shape)
    requires Denotes(s, e, v)
    modifies s.nodes
    ensures Denotes(t, e, TransBool(v)) && t.nodes <= s.nodes
    decreases s
  {
    hide Denotes;
    Open(s, e, v);
    t := s;
    if e.kind.KNot? {
      ghost var c := TransBoolInPlace(e.left, s.c, v.arg);
      t := One1(e, c);
      Open(c, e.left, TransBool(v.arg));
      CloseOne(e, c, TransBool(v.arg));
    } else if e.kind.KBin? {
      ghost var l := TransBoolInPlace(e.left, s.l, v.left);
      ghost var r := TransBoolInPlace(e.right, s.r, v.right);
      t := Two1(e, l, r);
      Open(l, e.left, TransBool(v.left));
      Open(r, e.right, TransBool(v.right));
      CloseTwo(e, l, r, v.op, TransBool(v.left), TransBool(v.right));
    } else if e.kind == KComp(Unequal) && e.lsym.Type() == Tristate && e.rsym == SymbolNo {
      e.BecomeSymbol(e.lsym);
    }
  }

  // ---------------------------------------------------------------- rewrite_m

  method RewriteMInPlace(e: Node, modules: Symbol, ghost s: Shape, ghost v: Expr) returns (r: Node, ghost t: Shape)
    requires Denotes(s, e, v)
    modifies s.nodes
    ensures Denotes(t, r, RewriteM(v, modules)) && fresh(t.nodes - s.nodes)
    decreases s
  {
    hide Denotes;
    Open(s, e, v);
    r, t := e, s;
    if e.kind.KNot? {
      var c, ct := RewriteMInPlace(e.left, modules, s.c, v.arg);
      e.left := c;
      t := One1(e, ct);
      Open(ct, c, RewriteM(v.arg, modules));
      CloseOne(e, ct, RewriteM(v.arg, modules));
    } else if e.kind.KBin? {
      var c, ct := RewriteMInPlace(e.left, modules, s.l, v.left);
      e.left := c;
      var d, dt := RewriteMInPlace(e.right, modules, s.r, v.right);
      e.right := d;
      t := Two1(e, ct, dt);
      Open(ct, c, RewriteM(v.left, modules));
      Open(dt, d, RewriteM(v.right, modules));
      CloseTwo(e, ct, dt, v.op, RewriteM(v.left, modules), RewriteM(v.right, modules));
    } else if e.kind.KSym? && e.lsym == SymbolMod {
      var m := new Node.AllocSymbol(modules);
      r := new Node.AllocTwo(AndOp, e, m);
      t := Two1(r, s, Leaf1(m));
      CloseTwo(r, s, Leaf1(m), AndOp, v, Sym(modules));
    }
  }

  // ---------------------------------------------------------------- expr_transform

  method TransformInPlace(e: Node, ghost s: Shape, ghost v: Expr) returns (r: Node, ghost t: Shape)
    requires Denotes(s, e, v)
    modifies s.nodes
    ensures Denotes(t, r, Transform(v)) && fresh(t.nodes - s.nodes)
    decreases Weight(v), 1
  {
    hide Denotes;
    Open(s, e, v);
    r, t := e, s;
    if e.kind.KComp? {
      t := TransformCompInPlace(e, v);
    } else if e.kind.KBin? {
      var c, ct := TransformInPlace(e.left, s.l, v.left);
      e.left := c;
      var d, dt := TransformInPlace(e.right, s.r, v.right);
      e.right := d;
      t := Two1(e, ct, dt);
      Open(ct, c, Transform(v.left));
      Open(dt, d, Transform(v.right));
      CloseTwo(e, ct, dt, v.op, Transform(v.left), Transform(v.right));
    } else if e.kind.KNot? {
      var c, ct := TransformInPlace(e.left, s.c, v.arg);
      e.left := c;
      Open(ct, c, Transform(v.arg));
      r, t := TransformNotInPlace(e, ct, Transform(v.arg));
    }
  }

  method TransformCompInPlace(e: Node, ghost v: Expr) returns (ghost t: Shape)
    requires v.Comp? && LeafIs(e, v)
    modifies e
    ensures Denotes(t, e, TransformComp(v)) && fresh(t.nodes - {e})
  {
    t := Leaf1(e);
    if e.lsym.Type() != Boolean {
      return;
    }
    if e.kind == KComp(Equal) {
      if e.rsym == SymbolNo {
        t := BecomeNegation(e);
      } else if e.rsym == SymbolMod {
        e.BecomeSymbol(SymbolNo);
      } else if e.rsym == SymbolYes {
        e.BecomeSymbol(e.lsym);
      }
    } else if e.kind == KComp(Unequal) {
      if e.rsym == SymbolNo {
        e.BecomeSymbol(e.lsym);
      } else if e.rsym == SymbolMod {
        e.BecomeSymbol(SymbolYes);
      } else if e.rsym == SymbolYes {
        t := BecomeNegation(e);
      }
    }
  }

  method BecomeNegation(e: Node) returns (ghost t: Shape)
    modifies e
    ensures Denotes(t, e, Not(Sym(old(e.lsym)))) && fresh(t.nodes - {e})
  {
    var c := new Node.AllocSymbol(e.lsym);
    e.kind, e.left := KNot, c;
    t := One1(e, Leaf1(c));
  }

  /** The negation, at e, of an operand that is already transformed. */
  method TransformNotInPlace(e: Node, ghost s: Shape, ghost v: Expr) returns (r: Node, ghost t: Shape)
    requires e.kind.KNot? && e.left != null && e !in s.nodes && Denotes(s, e.left, v)
    modifies e, s.nodes
    ensures Denotes(t, r, TransformNot(v)) && fresh(t.nodes - s.nodes - {e})
    decreases 2 * Weight(v), 0
  {
    hide Denotes;
    Open(s, e.left, v);
    var tmp := e.left;
    r, t := tmp, s;
    if tmp.kind.KNot? {
      r, t := TransformInPlace(tmp.left, s.c, v.arg);
    } else if tmp.kind.KComp? {
      t := BecomeComp(tmp, Negated(tmp.kind.rel));
    } else if tmp.kind.KBin? {
      // !(a || b) -> !a && !b, !(a && b) -> !a || !b
      var op := Dual(tmp.kind.op);
      var right := new Node.AllocOne(tmp.right);
      e.kind, e.right := KBin(op), right;
      tmp.kind, tmp.right := KNot, null;
      var m := Bin(op, Not(v.left), Not(v.right));
      CloseOne(tmp, s.l, v.left);
      CloseOne(right, s.r, v.right);
      CloseTwo(e, One1(tmp, s.l), One1(right, s.r), op, Not(v.left), Not(v.right));
      DeMorganWeight(op, v.left, v.right);
      r, t := TransformInPlace(e, Two1(e, One1(tmp, s.l), One1(right, s.r)), m);
    } else if tmp.lsym == SymbolYes {
      tmp.BecomeSymbol(SymbolNo);
    } else if tmp.lsym == SymbolMod {
      tmp.BecomeSymbol(SymbolMod);
    } else if tmp.lsym == SymbolNo {
      tmp.BecomeSymbol(SymbolYes);
    } else {
      r, t := e, One1(e, s);
      CloseOne(e, s, v);
    }
  }

  method BecomeComp(e: Node, rel: Rel) returns (ghost t: Shape)
    modifies e
    ensures t == Leaf1(e) && Denotes(t, e, Comp(rel, old(e.lsym), old(e.rsym)))
  {
    e.kind := KComp(rel);
    t := Leaf1(e);
  }
}
