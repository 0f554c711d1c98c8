/**
 What becomes of a chain of symbols when duplicates are eliminated: of each symbol the last
 occurrence stays, and the order stays.
 */
module ExprLast {
  import opened Expr
  import opened ExprEq
  import opened Cursor
  import opened ExprDups
  import opened ExprReduced

  // ---------------------------------------------------------------- operands below a cursor

  /** How many operands of the level stand before those below the cursor. */
  function Start(op: BoolOp, t: Expr, p: Path): nat
    requires InLevel(op, t, p)
  {
    if p == [] then 0
    else (if p[0].Right? then |Operands(op, t.left)| else 0) + Start(op, Child(t, p[0]), p[1..])
  }

  function Width(op: BoolOp, t: Expr, p: Path): nat
    requires InLevel(op, t, p)
  {
    |Operands(op, At(op, t, p))|
  }

  lemma {:induction false} Halves(op: BoolOp, t: Expr, p: Path)
    requires InLevel(op, t, p) && IsOp(op, At(op, t, p))
    ensures InLevel(op, t, p + [Left]) && InLevel(op, t, p + [Right])
    ensures Start(op, t, p + [Left]) == Start(op, t, p)
    ensures Start(op, t, p + [Right]) == Start(op, t, p) + Width(op, t, p + [Left])
    ensures Width(op, t, p) == Width(op, t, p + [Left]) + Width(op, t, p + [Right])
  {
    StepDown(op, t, p, Left);
    StepDown(op, t, p, Right);
    if p != [] {
      Halves(op, Child(t, p[0]), p[1..]);
      assert (p + [Left])[1..] == p[1..] + [Left] && (p + [Right])[1..] == p[1..] + [Right];
    } else {
      assert [Left][1..] == [] && [Right][1..] == [];
    }
  }

  lemma {:induction false} SameCount(op: BoolOp, a: Expr, b: Expr)
    requires SameShape(op, a, b)
    ensures |Operands(op, a)| == |Operands(op, b)|
  {
    if IsOp(op, a) {
      SameCount(op, a.left, b.left);
      SameCount(op, a.right, b.right);
    }
  }

  lemma {:induction false} SamePlace(op: BoolOp, a: Expr, b: Expr, p: Path)
    requires SameShape(op, a, b) && InLevel(op, a, p)
    ensures InLevel(op, b, p) && Start(op, a, p) == Start(op, b, p) && Width(op, a, p) == Width(op, b, p)
    ensures IsOp(op, At(op, a, p)) <==> IsOp(op, At(op, b, p))
  {
    if p == [] {
      SameCount(op, a, b);
    } else {
      SameCount(op, a.left, b.left);
      SamePlace(op, Child(a, p[0]), Child(b, p[0]), p[1..]);
    }
  }

  lemma {:induction false} PlaceOfOperand(op: BoolOp, t: Expr, p: Path)
    requires AtOperand(op, t, p)
    ensures Start(op, t, p) == IndexOf(op, t, p) < |Operands(op, t)| && Width(op, t, p) == 1
    ensures Operands(op, t)[Start(op, t, p)] == At(op, t, p)
  {
    if p != [] {
      PlaceOfOperand(op, Child(t, p[0]), p[1..]);
    }
  }

  lemma {:induction false} PutOne(op: BoolOp, t: Expr, p: Path, e: Expr)
    requires AtOperand(op, t, p) && !IsOp(op, e)
    ensures Start(op, t, p) < |Operands(op, t)|
    ensures Operands(op, Put(op, t, p, e)) == Operands(op, t)[Start(op, t, p) := e]
    ensures SameShape(op, t, Put(op, t, p, e))
  {
    PutOperand(op, t, p, e);
    if p != [] {
      PutOne(op, Child(t, p[0]), p[1..], e);
      UpdateJoined(Operands(op, t.left), Operands(op, t.right), Start(op, Child(t, p[0]), p[1..]), e);
    }
  }

  lemma UpdateJoined(a: seq<Expr>, b: seq<Expr>, i: nat, e: Expr)
    ensures i < |a| ==> (a + b)[i := e] == a[i := e] + b
    ensures i < |b| ==> (a + b)[|a| + i := e] == a + b[i := e]
  {
  }

  // ---------------------------------------------------------------- one row of comparisons

  predicate AllSymbols(s: seq<Expr>) {
    forall x :: x in s ==> x.Sym?
  }

  /** After operand i has met those from b up to c: a second occurrence has taken its place. */
  function Met(op: BoolOp, s: seq<Expr>, i: nat, b: nat, c: nat): (r: seq<Expr>)
    requires i < |s| && c <= |s|
    ensures |r| == |s|
  {
    if exists j :: b <= j < c && j != i && s[j] == s[i] then s[i := Sym(Unit(op))] else s
  }

  lemma MetTwice(op: BoolOp, s: seq<Expr>, i: nat, b: nat, c: nat, d: nat)
    requires i < |s| && b <= c <= d <= |s|
    ensures Met(op, Met(op, s, i, b, c), i, c, d) == Met(op, s, i, b, d)
  {
    var m := Met(op, s, i, b, c);
    if j :| b <= j < c && j != i && s[j] == s[i] {
      assert m == s[i := Sym(Unit(op))] && m[i := Sym(Unit(op))] == m;
    } else {
      assert m == s;
      assert forall j :: b <= j < d && j != i && s[j] == s[i] ==> c <= j;
    }
  }

  lemma {:induction false} WalkRow(op: BoolOp, t: Expr, p1: Path, p2: Path)
    requires AtOperand(op, t, p1) && InLevel(op, t, p2) && AllSymbols(Operands(op, t))
    ensures var (i, b) := (Start(op, t, p1), Start(op, t, p2));
            && i < |Operands(op, t)| && b + Width(op, t, p2) <= |Operands(op, t)|
            && Operands(op, Walk(op, t, p1, p2).0) == Met(op, Operands(op, t), i, b, b + Width(op, t, p2))
    decreases Inner(op, At(op, t, p2))
  {
    hide Walk, Met, Operands, Start, At;
    PlaceOfOperand(op, t, p1);
    var i := Start(op, t, p1);
    if IsOp(op, At(op, t, p2)) {
      WalkSecond(op, t, p1, p2);
      WalkStep(op, t, p2, Left);
      WalkStep(op, t, p2, Right);
      Halves(op, t, p2);
      var t1 := Walk(op, t, p1, p2 + [Left]).0;
      WalkRow(op, t, p1, p2 + [Left]);
      SamePlace(op, t, t1, p1);
      SamePlace(op, t, t1, p2 + [Right]);
      WalkNext(op, t, t1, p1, p2 + [Right]);
      assert AllSymbols(Operands(op, t1)) by {
        MetSymbols(op, Operands(op, t), i, Start(op, t, p2), Start(op, t, p2 + [Right]));
      }
      WalkRow(op, t1, p1, p2 + [Right]);
      MetTwice(op, Operands(op, t), i, Start(op, t, p2), Start(op, t, p2 + [Right]),
               Start(op, t, p2) + Width(op, t, p2));
    } else {
      PlaceOfOperand(op, t, p2);
      WalkOne(op, t, p1, p2);
    }
  }

  lemma MetSymbols(op: BoolOp, s: seq<Expr>, i: nat, b: nat, c: nat)
    requires i < |s| && c <= |s| && AllSymbols(s)
    ensures AllSymbols(Met(op, s, i, b, c))
  {
  }

  lemma WalkOne(op: BoolOp, t: Expr, p1: Path, p2: Path)
    requires AtOperand(op, t, p1) && AtOperand(op, t, p2) && AllSymbols(Operands(op, t))
    ensures Start(op, t, p1) < |Operands(op, t)| && Start(op, t, p2) < |Operands(op, t)|
    ensures Operands(op, Walk(op, t, p1, p2).0)
            == Met(op, Operands(op, t), Start(op, t, p1), Start(op, t, p2), Start(op, t, p2) + 1)
  {
    hide Walk, Operands, Met, Start;
    var (s, i, j) := (Operands(op, t), Start(op, t, p1), Start(op, t, p2));
    PlaceOfOperand(op, t, p1);
    PlaceOfOperand(op, t, p2);
    WalkMeet(op, t, p1, p2);
    MetOne(op, s, i, j);
    if p1 != p2 {
      PathOfIndex(op, t, p1);
      PathOfIndex(op, t, p2);
      assert i != j;
      assert s[i] in s && s[j] in s;
      JoinOfSymbols(op, s[i], s[j]);
      if s[i] == s[j] {
        PutBoth(op, t, p1, p2, s[i]);
      } else {
        PutAt(op, t, p1, s[i]);
      }
    }
  }

  lemma MetOne(op: BoolOp, s: seq<Expr>, i: nat, j: nat)
    requires i < |s| && j < |s|
    ensures Met(op, s, i, j, j + 1) == if i != j && s[i] == s[j] then s[i := Sym(Unit(op))] else s
  {
    if i != j && s[i] == s[j] {
      assert j <= j < j + 1 && j != i && s[j] == s[i];
    }
  }

  lemma PutBoth(op: BoolOp, t: Expr, p1: Path, p2: Path, x: Expr)
    requires AtOperand(op, t, p1) && AtOperand(op, t, p2) && !IsOp(op, x)
    requires Start(op, t, p1) != Start(op, t, p2) && At(op, t, p2) == x
    ensures var u := Put(op, t, p1, Sym(Unit(op)));
            && InLevel(op, u, p2) && Start(op, t, p1) < |Operands(op, t)|
            && Operands(op, Put(op, u, p2, x)) == Operands(op, t)[Start(op, t, p1) := Sym(Unit(op))]
  {
    hide Operands, Start;
    var u := Put(op, t, p1, Sym(Unit(op)));
    PlaceOfOperand(op, t, p2);
    PutOne(op, t, p1, Sym(Unit(op)));
    SamePlace(op, t, u, p2);
    PutOne(op, u, p2, x);
    var (s, i, j) := (Operands(op, t), Start(op, t, p1), Start(op, t, p2));
    assert s[i := Sym(Unit(op))][j := x] == s[i := Sym(Unit(op))];
  }

  lemma JoinOfSymbols(op: BoolOp, x: Expr, y: Expr)
    requires x.Sym? && y.Sym?
    ensures Join(op, x, y) == if x == y then Some(x) else None
  {
  }

  // ---------------------------------------------------------------- all rows

  /** Of the first a operands only those are left that do not occur again. */
  function Dropped(op: BoolOp, s: seq<Expr>, a: nat): (r: seq<Expr>)
    requires a <= |s|
    ensures |r| == |s|
  {
    seq(|s|, k requires 0 <= k < |s| => if k < a && s[k] in s[k + 1..] then Sym(Unit(op)) else s[k])
  }

  lemma DroppedNext(op: BoolOp, s: seq<Expr>, a: nat)
    requires a < |s| && Sym(Unit(op)) !in s
    ensures Met(op, Dropped(op, s, a), a, 0, |s|) == Dropped(op, s, a + 1)
  {
    var d := Dropped(op, s, a);
    assert d[a] == s[a];
    if s[a] in s[a + 1..] {
      var j :| a + 1 <= j < |s| && s[j] == s[a];
      assert d[j] == d[a];
    } else {
      forall j | 0 <= j < |s| && j != a ensures d[j] != d[a] {
        if j < a && s[j] == s[a] {
          assert s[a] == s[j + 1..][a - j - 1];
        } else if j > a {
          assert s[j] == s[a + 1..][j - a - 1];
        }
      }
    }
    assert Met(op, d, a, 0, |s|) == Dropped(op, s, a + 1);
  }

  lemma {:induction false} WalkRows(op: BoolOp, t: Expr, p1: Path, s: seq<Expr>)
    requires InLevel(op, t, p1) && AllSymbols(s) && Sym(Unit(op)) !in s && |Operands(op, t)| == |s|
    requires Start(op, t, p1) <= |s| && Operands(op, t) == Dropped(op, s, Start(op, t, p1))
    ensures Start(op, t, p1) + Width(op, t, p1) <= |s|
    ensures Operands(op, Walk(op, t, p1, []).0) == Dropped(op, s, Start(op, t, p1) + Width(op, t, p1))
    decreases Inner(op, At(op, t, p1))
  {
    hide Walk, Met, Dropped, Operands;
    if IsOp(op, At(op, t, p1)) {
      WalkFirst(op, t, p1, []);
      WalkStep(op, t, p1, Left);
      WalkStep(op, t, p1, Right);
      Halves(op, t, p1);
      var t1 := Walk(op, t, p1 + [Left], []).0;
      WalkRows(op, t, p1 + [Left], s);
      SamePlace(op, t, t1, p1 + [Right]);
      SameCount(op, t, t1);
      WalkNext(op, t, t1, p1 + [Right], []);
      WalkRows(op, t1, p1 + [Right], s);
    } else {
      PlaceOfOperand(op, t, p1);
      DroppedSymbols(op, s, Start(op, t, p1));
      WalkRow(op, t, p1, []);
      DroppedNext(op, s, Start(op, t, p1));
    }
  }

  lemma DroppedSymbols(op: BoolOp, s: seq<Expr>, a: nat)
    requires a <= |s| && AllSymbols(s)
    ensures AllSymbols(Dropped(op, s, a))
  {
  }

  // ---------------------------------------------------------------- the units are dropped

  function NonUnits(op: BoolOp, s: seq<Expr>): seq<Expr> {
    if s == [] then [] else (if s[0] == Sym(Unit(op)) then [] else [s[0]]) + NonUnits(op, s[1..])
  }

  lemma {:induction false} NonUnitsJoin(op: BoolOp, s: seq<Expr>, t: seq<Expr>)
    ensures NonUnits(op, s + t) == NonUnits(op, s) + NonUnits(op, t)
  {
    if s == [] {
      assert s + t == t;
    } else {
      assert (s + t)[0] == s[0] && (s + t)[1..] == s[1..] + t;
      NonUnitsJoin(op, s[1..], t);
    }
  }

  /** Symbols that are neither y nor n, or units. */
  predicate Plain(op: BoolOp, s: seq<Expr>) {
    forall x :: x in s ==> x.Sym? && (IsLiteral(x) ==> x == Sym(Unit(op)))
  }

  /** n are the operands of r, and r is the unit if there are none. */
  predicate Leaves(op: BoolOp, n: seq<Expr>, r: Expr) {
    if n == [] then r == Sym(Unit(op)) else Operands(op, r) == n && !IsLiteral(r)
  }

  lemma LeavesJoin(op: BoolOp, a: seq<Expr>, b: seq<Expr>, l: Expr, r: Expr)
    requires Leaves(op, a, l) && Leaves(op, b, r)
    ensures Leaves(op, a + b, DropLiteral(op, l, r))
  {
    assert a == [] ==> a + b == b;
    assert b == [] ==> a + b == a;
    assert Operands(op, Bin(op, l, r)) == Operands(op, l) + Operands(op, r);
  }

  lemma {:induction false} UnitsGo(op: BoolOp, t: Expr)
    requires Plain(op, Operands(op, t))
    ensures Leaves(op, NonUnits(op, Operands(op, t)), EliminateYn(t))
  {
    hide Leaves, NonUnits, DropLiteral;
    if IsOp(op, t) {
      var (a, b) := (Operands(op, t.left), Operands(op, t.right));
      assert forall x :: x in a || x in b ==> x in a + b;
      UnitsGo(op, t.left);
      UnitsGo(op, t.right);
      NonUnitsJoin(op, a, b);
      LeavesJoin(op, NonUnits(op, a), NonUnits(op, b), EliminateYn(t.left), EliminateYn(t.right));
    } else {
      assert t in Operands(op, t);
      OneLeaves(op, t);
    }
  }

  lemma OneLeaves(op: BoolOp, t: Expr)
    requires t.Sym? && (IsLiteral(t) ==> t == Sym(Unit(op)))
    ensures Leaves(op, NonUnits(op, [t]), EliminateYn(t))
  {
    assert NonUnits(op, []) == [];
  }

  // ---------------------------------------------------------------- the last of each

  /** Those that do not occur again, in their order. */
  function LastOnes(s: seq<Expr>): seq<Expr> {
    if s == [] then [] else (if s[0] in s[1..] then [] else [s[0]]) + LastOnes(s[1..])
  }

  lemma {:induction false} LastOnesAre(op: BoolOp, s: seq<Expr>)
    requires Sym(Unit(op)) !in s
    ensures NonUnits(op, Dropped(op, s, |s|)) == LastOnes(s)
  {
    if s != [] {
      var d := Dropped(op, s, |s|);
      assert d[1..] == Dropped(op, s[1..], |s| - 1) by {
        forall k | 0 <= k < |s| - 1 ensures d[1..][k] == Dropped(op, s[1..], |s| - 1)[k] {
          assert s[1..][k + 1..] == s[k + 2..];
        }
      }
      LastOnesAre(op, s[1..]);
    }
  }

  lemma {:induction false} LastOnesDiffer(s: seq<Expr>)
    ensures forall x :: x in LastOnes(s) <==> x in s
    ensures forall i, j :: 0 <= i < j < |LastOnes(s)| ==> LastOnes(s)[i] != LastOnes(s)[j]
  {
    if s != [] {
      LastOnesDiffer(s[1..]);
    }
  }

  lemma NothingDropped(op: BoolOp, s: seq<Expr>)
    ensures Dropped(op, s, 0) == s
  {
  }

  lemma PlainDropped(op: BoolOp, s: seq<Expr>)
    requires forall x :: x in s ==> x.Sym? && !IsLiteral(x)
    ensures Plain(op, Dropped(op, s, |s|)) && Sym(Unit(op)) !in s && AllSymbols(s)
  {
  }

  lemma {:induction false} NoUnits(op: BoolOp, s: seq<Expr>)
    requires Sym(Unit(op)) !in s
    ensures NonUnits(op, s) == s
  {
    if s != [] {
      NoUnits(op, s[1..]);
    }
  }

  lemma {:induction false} SomeOperand(op: BoolOp, e: Expr)
    ensures Operands(op, e) != []
  {
    if IsOp(op, e) {
      SomeOperand(op, e.left);
    }
  }

  /** Different symbols have nothing redundant. */
  lemma SymbolsReduced(op: BoolOp, r: Expr)
    requires AllSymbols(Operands(op, r))
    requires forall i, j :: 0 <= i < j < |Operands(op, r)| ==> Operands(op, r)[i] != Operands(op, r)[j]
    ensures Reduced(r)
  {
    var s := Operands(op, r);
    if IsOp(op, r) {
      forall i, j | 0 <= i < |s| && 0 <= j < |s| && i != j ensures !Redundant(op, s[i], s[j]) {
        assert s[i] in s && s[j] in s && s[i] != s[j];
        JoinExactly(op, s[i], s[j]);
        JoinOfSymbols(op, s[i], s[j]);
      }
      forall i | 0 <= i < |s| ensures Reduced(s[i]) {
        assert s[i] in s;
      }
    } else {
      assert r in s;
    }
  }

  /** Of a chain of symbols other than y and n, eliminating duplicates leaves the last occurrence
      of each symbol, in order. */
  lemma LastOnesStay(op: BoolOp, e: Expr)
    requires IsOp(op, e) && forall x :: x in Operands(op, e) ==> x.Sym? && !IsLiteral(x)
    ensures Operands(op, EliminateDups(e)) == LastOnes(Operands(op, e))
  {
    hide Dropped, NonUnits, LastOnes, Reduced, EliminateDups, EliminateYn, Plain, Leaves, Operands;
    var s := Operands(op, e);
    var (t, c) := Pass(e);
    PassDrops(op, e);
    LastOnesAre(op, s);
    PassReduces(e);
    PlainDropped(op, s);
    UnfoldEliminateDups(e);
    if c == 0 {
      NoUnits(op, s);
    } else {
      var r := EliminateYn(t);
      SomeOperand(op, e);
      LastOnesDiffer(s);
      UnitsGo(op, t);
      assert s[0] in LastOnes(s);
      OperandsLeft(op, LastOnes(s), r);
      SymbolsReduced(op, r);
      EliminateDupsReduces(r);
    }
  }

  lemma PassDrops(op: BoolOp, e: Expr)
    requires IsOp(op, e) && forall x :: x in Operands(op, e) ==> x.Sym? && !IsLiteral(x)
    ensures var s := Operands(op, e); Operands(op, Pass(e).0) == Dropped(op, s, |s|)
  {
    hide Walk, Dropped;
    var s := Operands(op, e);
    PlainDropped(op, s);
    NothingDropped(op, s);
    WalkRows(op, e, [], s);
  }

  lemma UnfoldEliminateDups(e: Expr)
    requires e.Bin?
    ensures EliminateDups(e) == if Pass(e).1 == 0 then Pass(e).0 else EliminateDups(EliminateYn(Pass(e).0))
  {
    hide Pass;
  }

  lemma OperandsLeft(op: BoolOp, n: seq<Expr>, r: Expr)
    requires Leaves(op, n, r) && n != []
    ensures Operands(op, r) == n
  {
  }
}
