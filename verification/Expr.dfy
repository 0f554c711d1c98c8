/**
 The dependency expressions of Kconfig and their three-valued meaning.

 Values are n = 0, m = 1 and y = 2; "or" is the maximum, "and" the minimum and "not"
 the complement to 2.  What a symbol currently holds is given by an environment, which
 stands for the result of evaluating the configuration.
 */
module Expr {

  type Tri = t: int | 0 <= t <= 2

  const NO: Tri := 0
  const MOD: Tri := 1
  const YES: Tri := 2

  datatype Option<+T> = None | Some(value: T)

  datatype SymType = Unknown | Boolean | Tristate | Int | Hex | Text

  /** The three literal symbols, and every other symbol under its identity. */
  datatype Symbol =
    | SymbolYes
    | SymbolMod
    | SymbolNo
    | Named(id: nat, declared: SymType, quoted: bool)
  {
    /** Only symbols that are not quoted are given a type. */
    function Type(): SymType {
      if Named? && !quoted then declared else Unknown
    }

    /** The SYMBOL_CONST flag. */
    predicate IsConst() {
      Named? ==> quoted
    }
  }

  datatype Rel = Equal | Unequal | Lth | Leq | Gth | Geq

  datatype BoolOp = OrOp | AndOp

  datatype Expr =
    | Sym(sym: Symbol)
    | Not(arg: Expr)
    | Bin(op: BoolOp, left: Expr, right: Expr)
    | Comp(rel: Rel, lsym: Symbol, rsym: Symbol)

  const Y := Sym(SymbolYes)
  const N := Sym(SymbolNo)

  function Combine(op: BoolOp, x: Tri, y: Tri): Tri {
    match op
    case OrOp => if x > y then x else y
    case AndOp => if x < y then x else y
  }

  /** "or" and "and" are associative and commutative, so operands regroup freely. */
  lemma Regroup(op: BoolOp, a: Tri, b: Tri, c: Tri, d: Tri)
    ensures Combine(op, Combine(op, a, b), Combine(op, c, d)) == Combine(op, Combine(op, a, c), Combine(op, b, d))
    ensures Combine(op, Combine(op, a, b), c) == Combine(op, a, Combine(op, b, c))
    ensures Combine(op, a, b) == Combine(op, b, a)
  {
  }

  function Complement(x: Tri): Tri {
    2 - x
  }

  /** The operand that changes nothing: n under "or", y under "and". */
  function Unit(op: BoolOp): Symbol {
    if op.OrOp? then SymbolNo else SymbolYes
  }

  predicate IsOp(op: BoolOp, e: Expr) {
    e.Bin? && e.op == op
  }

  /** The operands of a run of "and"s, or of "or"s, from left to right. */
  function Operands(op: BoolOp, e: Expr): seq<Expr> {
    if IsOp(op, e) then Operands(op, e.left) + Operands(op, e.right) else [e]
  }

  predicate IsLiteral(e: Expr) {
    e == Y || e == N
  }

  function Size(e: Expr): (s: nat)
    ensures s >= 1
  {
    match e
    case Sym(_) => 1
    case Comp(_, _, _) => 1
    case Not(a) => 1 + Size(a)
    case Bin(_, l, r) => 1 + Size(l) + Size(r)
  }

  // ---------------------------------------------------------------- evaluation

  /** What strtoll and strtoull answer: no number, or a number in the given base. */
  type NumberParser = (string, nat) -> Option<int>

  /** tri and text are a symbol's current tristate and string value. */
  datatype Env = Env(tri: Symbol -> Tri, text: Symbol -> string, number: NumberParser)

  datatype Parsed = NotANumber | Signed(s: int) | Unsigned(u: int)

  const TWO_TO_64: int := 0x1_0000_0000_0000_0000

  function ParseString(text: string, t: SymType, number: NumberParser): Parsed {
    match t
    case Boolean => Signed(TriOfText(text))
    case Tristate => Signed(TriOfText(text))
    case Int => FromNumber(number(text, 10), false)
    case Hex => FromNumber(number(text, 16), true)
    case _ => FromNumber(number(text, 0), false)
  }

  function TriOfText(text: string): int {
    if text == "n" then 0 else if text == "m" then 1 else if text == "y" then 2 else -1
  }

  function FromNumber(n: Option<int>, unsigned: bool): Parsed {
    match n
    case None => NotANumber
    case Some(v) => if unsigned then Unsigned(v % TWO_TO_64) else Signed(v)
  }

  function AsUnsigned(p: Parsed): int
    requires !p.NotANumber?
  {
    match p
    case Signed(s) => s % TWO_TO_64
    case Unsigned(u) => u
  }

  function Sign(a: int, b: int): int {
    if a > b then 1 else if a < b then -1 else 0
  }

  /** strcmp: the order of the first differing character. */
  function StrCmp(a: string, b: string): (r: int)
    ensures r == 0 <==> a == b
  {
    if a == [] then (if b == [] then 0 else -1)
    else if b == [] then 1
    else if a[0] != b[0] then Sign(a[0] as int, b[0] as int)
    else
      assert a == [a[0]] + a[1..] && b == [b[0]] + b[1..];
      StrCmp(a[1..], b[1..])
  }

  /** The three-way result that all six relations are read from. */
  function Compare(l: Symbol, r: Symbol, env: Env): int {
    var (str1, str2) := (env.text(l), env.text(r));
    var skip := l.Type() == Text && r.Type() == Text;
    var k1 := if skip then NotANumber else ParseString(str1, l.Type(), env.number);
    var k2 := if skip then NotANumber else ParseString(str2, r.Type(), env.number);
    if k1.NotANumber? || k2.NotANumber? then StrCmp(str1, str2)
    else if k1.Unsigned? || k2.Unsigned? then Sign(AsUnsigned(k1), AsUnsigned(k2))
    else Sign(k1.s, k2.s)
  }

  predicate Holds(rel: Rel, res: int) {
    match rel
    case Equal => res == 0
    case Unequal => res != 0
    case Lth => res < 0
    case Leq => res <= 0
    case Gth => res > 0
    case Geq => res >= 0
  }

  function Eval(e: Expr, env: Env): Tri {
    match e
    case Sym(s) => env.tri(s)
    case Not(a) => Complement(Eval(a, env))
    case Bin(op, l, r) => Combine(op, Eval(l, env), Eval(r, env))
    case Comp(rel, l, r) => if Holds(rel, Compare(l, r, env)) then YES else NO
  }

  function EvalOpt(e: Option<Expr>, env: Env): Tri {
    if e.None? then YES else Eval(e.value, env)
  }

  function TextOfTri(t: Tri): string {
    if t == 0 then "n" else if t == 1 then "m" else "y"
  }

  predicate IsLogical(s: Symbol) {
    s.Type() == Boolean || s.Type() == Tristate
  }

  /** What symbol evaluation guarantees about the values it leaves behind. */
  ghost predicate Proper(env: Env) {
    && env.tri(SymbolYes) == YES && env.text(SymbolYes) == "y"
    && env.tri(SymbolMod) == MOD && env.text(SymbolMod) == "m"
    && env.tri(SymbolNo) == NO && env.text(SymbolNo) == "n"
    && (forall s: Symbol :: IsLogical(s) ==> env.text(s) == TextOfTri(env.tri(s)))
    && (forall s: Symbol :: s.Type() == Boolean ==> env.tri(s) != MOD)
    && env.number("y", 0) == None && env.number("m", 0) == None && env.number("n", 0) == None
  }

  // ---------------------------------------------------------------- the order of values

  /** x rel y */
  predicate Stands(rel: Rel, x: int, y: int) {
    match rel
    case Equal => x == y
    case Unequal => x != y
    case Lth => x < y
    case Leq => x <= y
    case Gth => x > y
    case Geq => x >= y
  }

  /** The number that a symbol is compared by: int symbols are read as decimal, hex symbols as
      hexadecimal, and others, such as constants, by their prefix. */
  function NumberOf(s: Symbol, env: Env): Option<int> {
    match s.Type()
    case Boolean => None
    case Tristate => None
    case Int => env.number(env.text(s), 10)
    case Hex => env.number(env.text(s), 16)
    case _ => env.number(env.text(s), 0)
  }

  /** Numbers are compared as numbers; where a hex symbol takes part, they count modulo 2^64. */
  lemma NumbersCompare(rel: Rel, a: Symbol, b: Symbol, x: int, y: int, env: Env)
    requires NumberOf(a, env) == Some(x) && NumberOf(b, env) == Some(y) && !(a.Type() == Text && b.Type() == Text)
    ensures var hex := a.Type() == Hex || b.Type() == Hex;
            Eval(Comp(rel, a, b), env) == YES
            <==> if hex then Stands(rel, x % TWO_TO_64, y % TWO_TO_64) else Stands(rel, x, y)
  {
  }

  /** Bool and tristate symbols are compared by value, n before m before y. */
  lemma TristatesCompare(rel: Rel, a: Symbol, b: Symbol, env: Env)
    requires Proper(env) && IsLogical(a) && IsLogical(b)
    ensures Eval(Comp(rel, a, b), env) == YES <==> Stands(rel, env.tri(a), env.tri(b))
  {
    assert env.text(a) == TextOfTri(env.tri(a)) && env.text(b) == TextOfTri(env.tri(b));
    assert "n"[0] != "m"[0] && "m"[0] != "y"[0] && "n"[0] != "y"[0];
  }

  /** The order of a dictionary. */
  ghost predicate Before(s: string, t: string) {
    exists k :: 0 <= k <= |s| && k < |t| && s[..k] == t[..k] && (k == |s| || s[k] < t[k])
  }

  lemma {:induction false} StrCmpIsBefore(s: string, t: string)
    ensures StrCmp(s, t) < 0 <==> Before(s, t)
    ensures StrCmp(s, t) > 0 <==> Before(t, s)
  {
    if s == "" || t == "" {
      assert s[..0] == t[..0] && t[..0] == s[..0];
    } else if s[0] != t[0] {
      assert s[..0] == t[..0] && t[..0] == s[..0];
    } else {
      StrCmpIsBefore(s[1..], t[1..]);
      BeforeBehind(s, t);
      BeforeBehind(t, s);
    }
  }

  lemma BeforeBehind(s: string, t: string)
    requires s != "" && t != "" && s[0] == t[0]
    ensures Before(s, t) <==> Before(s[1..], t[1..])
  {
    if Before(s, t) {
      var k :| 0 <= k <= |s| && k < |t| && s[..k] == t[..k] && (k == |s| || s[k] < t[k]);
      assert k > 0 && s[1..][..k - 1] == s[..k][1..] && t[1..][..k - 1] == t[..k][1..];
    }
    if Before(s[1..], t[1..]) {
      var k :| 0 <= k <= |s[1..]| && k < |t[1..]| && s[1..][..k] == t[1..][..k]
               && (k == |s[1..]| || s[1..][k] < t[1..][k]);
      assert s[..k + 1] == [s[0]] + s[1..][..k] && t[..k + 1] == [t[0]] + t[1..][..k];
    }
  }

  /** Strings, and whatever is not both a number, are compared as strings. */
  lemma StringsCompare(rel: Rel, a: Symbol, b: Symbol, env: Env)
    requires !IsLogical(a) && !IsLogical(b)
    requires NumberOf(a, env) == None || NumberOf(b, env) == None || (a.Type() == Text && b.Type() == Text)
    ensures var (s, t) := (env.text(a), env.text(b));
            Eval(Comp(rel, a, b), env) == YES
            <==> match rel
                 case Equal => s == t
                 case Unequal => s != t
                 case Lth => Before(s, t)
                 case Leq => !Before(t, s)
                 case Gth => Before(t, s)
                 case Geq => !Before(s, t)
  {
    StrCmpIsBefore(env.text(a), env.text(b));
  }

  // ---------------------------------------------------------------- constants

  const LITERALS: set<Symbol> := {SymbolYes, SymbolMod, SymbolNo}

  /** The tristate value that is equal to a constant of this spelling, if there is one. */
  function Denoted(text: string, number: NumberParser): Option<Tri> {
    match number(text, 0)
    case Some(v) => if 0 <= v <= 2 then Some(v) else None
    case None => if TriOfText(text) < 0 then None else Some(TriOfText(text))
  }

  /** A bool or tristate symbol equals a constant exactly if it has the value denoted. */
  lemma CompareConstant(s: Symbol, c: Symbol, env: Env)
    requires Proper(env) && IsLogical(s) && c.IsConst()
    ensures Compare(s, c, env) == 0 <==> Denoted(env.text(c), env.number) == Some(env.tri(s))
  {
    assert env.text(s) == TextOfTri(env.tri(s));
    assert "n"[0] != "m"[0] && "m"[0] != "y"[0] && "n"[0] != "y"[0];
    assert ParseString(env.text(s), s.Type(), env.number) == Signed(env.tri(s));
  }

  /** A logical symbol compared with a literal is compared by value. */
  lemma CompareLiteral(s: Symbol, lit: Symbol, env: Env)
    requires Proper(env) && IsLogical(s) && !lit.Named?
    ensures Compare(s, lit, env) == 0 <==> env.tri(s) == env.tri(lit)
  {
    CompareConstant(s, lit, env);
    LiteralDenotes(lit, env);
  }

  lemma LiteralDenotes(lit: Symbol, env: Env)
    requires Proper(env) && !lit.Named?
    ensures Denoted(env.text(lit), env.number) == Some(env.tri(lit))
  {
    assert "n"[0] != "m"[0] && "m"[0] != "y"[0] && "n"[0] != "y"[0];
  }

  /** Different constants among these denote different values. */
  ghost predicate Apart(cs: set<Symbol>, env: Env) {
    forall b: Symbol, c: Symbol :: b in cs && c in cs && b != c ==> !SameValue(b, c, env)
  }

  predicate SameValue(b: Symbol, c: Symbol, env: Env) {
    var (d, d') := (Denoted(env.text(b), env.number), Denoted(env.text(c), env.number));
    d.Some? && d == d'
  }

  /** Every constant that the expression compares with a tristate by = or != is among cs. */
  predicate Within(e: Expr, cs: set<Symbol>) {
    match e
    case Sym(_) => true
    case Not(a) => Within(a, cs)
    case Bin(_, l, r) => Within(l, cs) && Within(r, cs)
    case Comp(rel, l, r) => (rel.Equal? || rel.Unequal?) && l.Type() == Tristate && r.IsConst() ==> r in cs
  }

  predicate WithinOpt(e: Option<Expr>, cs: set<Symbol>) {
    e.None? || Within(e.value, cs)
  }

  /** These constants. */
  function Compared(e: Expr): set<Symbol> {
    match e
    case Sym(_) => {}
    case Not(a) => Compared(a)
    case Bin(_, l, r) => Compared(l) + Compared(r)
    case Comp(rel, l, r) => if (rel.Equal? || rel.Unequal?) && l.Type() == Tristate && r.IsConst() then {r} else {}
  }

  lemma {:induction false} WithinIsCompared(e: Expr, cs: set<Symbol>)
    ensures Within(e, cs) <==> Compared(e) <= cs
  {
    match e
    case Sym(_) =>
    case Not(a) => WithinIsCompared(a, cs);
    case Bin(_, l, r) =>
      WithinIsCompared(l, cs);
      WithinIsCompared(r, cs);
    case Comp(_, _, _) =>
  }

  /** Different constants that the expression compares with a tristate denote different values,
      also different from y, m and n, which rewriting can bring in. */
  ghost predicate ConstantsApart(e: Expr, env: Env) {
    Apart(Compared(e) + LITERALS, env)
  }

  lemma LiteralsApart(env: Env)
    requires Proper(env)
    ensures Apart(LITERALS, env)
  {
    LiteralDenotes(SymbolYes, env);
    LiteralDenotes(SymbolMod, env);
    LiteralDenotes(SymbolNo, env);
  }

  /** An expression that compares tristates with y, m and n only asks nothing of the environment. */
  lemma ComparedWithLiteralsOnly(e: Expr, env: Env)
    requires Proper(env) && Compared(e) <= LITERALS
    ensures ConstantsApart(e, env)
  {
    LiteralsApart(env);
    assert Compared(e) + LITERALS == LITERALS;
  }

  /** Whatever values the symbols are to have, some proper environment gives them these values
      and keeps any constants apart. */
  lemma SomeEnvironment(value: Symbol -> Tri, cs: set<Symbol>) returns (env: Env)
    requires forall s: Symbol :: s.Type() == Boolean ==> value(s) != MOD
    requires forall c :: c in cs ==> c.IsConst()
    ensures Proper(env) && Apart(cs + LITERALS, env)
    ensures forall s: Symbol :: s.Named? ==> env.tri(s) == value(s)
  {
    env := Env(
      (s: Symbol) => if s.Named? then value(s) else LiteralValue(s),
      (s: Symbol) => if !s.Named? then TextOfTri(LiteralValue(s)) else if IsLogical(s) then TextOfTri(value(s)) else "",
      (t: string, base: nat) => None);
    LiteralsApart(env);
    assert forall c :: c in cs && c.Named? ==> Denoted(env.text(c), env.number) == None;
  }

  /** ... such as those of an expression. */
  lemma SomeEnvironmentFor(value: Symbol -> Tri, e: Expr) returns (env: Env)
    requires forall s: Symbol :: s.Type() == Boolean ==> value(s) != MOD
    ensures Proper(env) && ConstantsApart(e, env)
    ensures forall s: Symbol :: s.Named? ==> env.tri(s) == value(s)
  {
    forall c | c in Compared(e) ensures c.IsConst() {
      ComparedAreConstants(e, c);
    }
    env := SomeEnvironment(value, Compared(e));
  }

  function LiteralValue(s: Symbol): Tri
    requires !s.Named?
  {
    match s
    case SymbolYes => YES
    case SymbolMod => MOD
    case SymbolNo => NO
  }

  lemma {:induction false} ComparedAreConstants(e: Expr, c: Symbol)
    requires c in Compared(e)
    ensures c.IsConst()
  {
    match e
    case Not(a) => ComparedAreConstants(a, c);
    case Bin(_, l, r) =>
      if c in Compared(l) {
        ComparedAreConstants(l, c);
      } else {
        ComparedAreConstants(r, c);
      }
    case _ =>
  }

  // ---------------------------------------------------------------- construction

  function AllocAnd(a: Option<Expr>, b: Option<Expr>): (r: Option<Expr>)
    ensures forall env: Env :: EvalOpt(r, env) == Combine(AndOp, EvalOpt(a, env), EvalOpt(b, env))
  {
    if a.None? then b else if b.None? then a else Some(Bin(AndOp, a.value, b.value))
  }
}
