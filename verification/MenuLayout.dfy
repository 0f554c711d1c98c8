/**
 What menu_finalize makes of a menu tree: the conditions that go down, the siblings that are
 taken in, and the lists that come out again.
 */
module MenuLayout {
  import opened Expr
  import opened ExprTransform
  import opened ExprReduced
  import opened Nesting
  import opened MenuTree

  // ---------------------------------------------------------------- conditions

  type Book = map<Menu, Conds>

  function TransBoolOpt(e: Option<Expr>): Option<Expr> {
    if e.None? then None else Some(TransBool(e.value))
  }

  /** The condition that a property is left with, given that of its node. */
  function PropertyCond(m: Menu, dep: Option<Expr>, own: Option<Expr>, modules: Symbol): Option<Expr> {
    var both := Propagate(dep, own, modules);
    if m.sym.Some? && m.sym.value.Type() != Tristate then TransBoolOpt(both) else both
  }

  /** What a node gets from the node above it. */
  function Got(m: Menu, from: Option<Expr>, own: Conds, modules: Symbol): Conds {
    var dep := Propagate(from, own.dep, modules);
    Conds(dep, if m.prompted then PropertyCond(m, dep, own.visible, modules) else own.visible,
          if m.sym.Some? then PropertyConds(m, dep, own.others, modules) else own.others)
  }

  function PropertyConds(m: Menu, dep: Option<Expr>, own: seq<Option<Expr>>, modules: Symbol)
    : (r: seq<Option<Expr>>)
    ensures |r| == |own|
  {
    seq(|own|, i requires 0 <= i < |own| => PropertyCond(m, dep, own[i], modules))
  }

  /** What a node hands down: a choice hands down itself, any other node its condition. */
  function Handed(m: Menu, c: Conds): Option<Expr> {
    if m.IsChoice() then Some(Sym(m.sym.value)) else c.dep
  }

  /** In fin, every node of k has got what it should from the node above it. */
  ghost predicate Settles(k: Forest, from: Option<Expr>, was: Book, fin: Book, modules: Symbol) {
    k.Cons? ==>
      && k.m in was && k.m in fin && fin[k.m] == Got(k.m, from, was[k.m], modules)
      && Settles(k.kids, Handed(k.m, fin[k.m]), was, fin, modules)
      && Settles(k.rest, from, was, fin, modules)
  }

  /** The same below the nodes of a list, but not for these nodes themselves. */
  ghost predicate SettlesBelow(f: Forest, was: Book, fin: Book, modules: Symbol) {
    f.Cons? ==>
      && f.m in fin && Settles(f.kids, Handed(f.m, fin[f.m]), was, fin, modules)
      && SettlesBelow(f.rest, was, fin, modules)
  }

  lemma {:induction false} SettlesAlsoBelow(k: Forest, from: Option<Expr>, was: Book, fin: Book, modules: Symbol)
    requires Settles(k, from, was, fin, modules)
    ensures SettlesBelow(k, was, fin, modules)
  {
    hide Got;
    if k.Cons? {
      SettlesAlsoBelow(k.rest, from, was, fin, modules);
    }
  }

  /** All conditions below a node that hands down from. */
  ghost function Conditions(k: Forest, from: Option<Expr>, was: Book, modules: Symbol): Book {
    if k.Nil? then map[]
    else
      var here := Got(k.m, from, if k.m in was then was[k.m] else Conds(None, None, []), modules);
      map[k.m := here] + Conditions(k.kids, Handed(k.m, here), was, modules) + Conditions(k.rest, from, was, modules)
  }

  lemma {:induction false} ConditionsKeys(k: Forest, from: Option<Expr>, was: Book, modules: Symbol,
                                          first: Menu?, owner: Menu?, end: Menu?)
    requires Linked(k, first, owner, end)
    ensures Conditions(k, from, was, modules).Keys == Nodes(k)
  {
    hide Got;
    if k.Cons? {
      var here := Got(k.m, from, if k.m in was then was[k.m] else Conds(None, None, []), modules);
      ConditionsKeys(k.kids, Handed(k.m, here), was, modules, k.m.list, k.m, null);
      ConditionsKeys(k.rest, from, was, modules, k.m.next, owner, end);
    }
  }

  ghost predicate Agree(part: Book, all: Book) {
    forall m :: m in part ==> m in all && all[m] == part[m]
  }

  /** There are such conditions for every tree. */
  lemma {:induction false} ConditionsSettle(k: Forest, from: Option<Expr>, was: Book, fin: Book, modules: Symbol,
                                            first: Menu?, owner: Menu?, end: Menu?)
    requires Linked(k, first, owner, end) && Nodes(k) <= was.Keys && Agree(Conditions(k, from, was, modules), fin)
    ensures Settles(k, from, was, fin, modules)
  {
    hide Got;
    if k.Cons? {
      var here := Got(k.m, from, was[k.m], modules);
      var (a, b) := (Conditions(k.kids, Handed(k.m, here), was, modules), Conditions(k.rest, from, was, modules));
      ConditionsKeys(k.kids, Handed(k.m, here), was, modules, k.m.list, k.m, null);
      ConditionsKeys(k.rest, from, was, modules, k.m.next, owner, end);
      assert Conditions(k, from, was, modules) == map[k.m := here] + a + b;
      assert forall m :: m in a ==> m in map[k.m := here] + a + b && (map[k.m := here] + a + b)[m] == a[m];
      ConditionsSettle(k.kids, Handed(k.m, here), was, fin, modules, k.m.list, k.m, null);
      ConditionsSettle(k.rest, from, was, fin, modules, k.m.next, owner, end);
    }
  }

  /** The smallest condition on the way from the top of the tree down to node x. */
  ghost function Limit(k: Forest, x: Menu, limit: Tri, was: Book, env: Env, modules: Symbol): Tri
    requires x in Order(k) && forall m :: m in Order(k) ==> m in was
  {
    var here := Combine(AndOp, limit, EvalOpt(was[k.m].dep, CapM(env, modules)));
    if x == k.m then here
    else if x in Order(k.kids) then
      Limit(k.kids, x, if k.m.IsChoice() then env.tri(k.m.sym.value) else here, was, env, modules)
    else
      Limit(k.rest, x, limit, was, env, modules)
  }

  predicate CondsWithin(c: Conds, cs: set<Symbol>) {
    WithinOpt(c.dep, cs) && WithinOpt(c.visible, cs) && forall i :: 0 <= i < |c.others| ==> WithinOpt(c.others[i], cs)
  }

  /** The condition of a property below dep: never above dep and its own, n just when one of them
      is, and their minimum unless the symbol of the node is known not to be tristate; for such
      a symbol the propagated condition is taken with every tristate a!=n read as a. */
  predicate PropertyOk(m: Menu, dep: Option<Expr>, own: Option<Expr>, got: Option<Expr>, modules: Symbol, env: Env) {
    var top := Combine(AndOp, EvalOpt(dep, env), EvalOpt(own, CapM(env, modules)));
    && EvalOpt(got, env) <= top && (EvalOpt(got, env) == NO <==> top == NO)
    && if m.sym.Some? && m.sym.value.Type() != Tristate
       then EvalOpt(got, env) == LoweredValueOpt(Propagate(dep, own, modules), env)
       else EvalOpt(got, env) == top
  }

  /** The conditions of a node whose own come out as dep. */
  predicate CondsOk(m: Menu, own: Conds, got: Conds, modules: Symbol, env: Env) {
    && NormalOpt(got.dep) && |got.others| == |own.others|
    && (if m.prompted then PropertyOk(m, got.dep, own.visible, got.visible, modules, env)
        else got.visible == own.visible)
    && (if m.sym.None? then got.others == own.others
        else forall i :: 0 <= i < |own.others| ==> PropertyOk(m, got.dep, own.others[i], got.others[i], modules, env))
  }

  /** Every node of the tree ends up with exactly the smallest condition on the way to it, and its
      properties with that and their own, if the constants that the conditions of the tree
      compare tristates with, and y, m and n, are apart. */
  lemma {:induction false} ConditionsAreMinima(k: Forest, x: Menu, from: Option<Expr>, was: Book, fin: Book,
                                               modules: Symbol, env: Env, cs: set<Symbol>)
    requires Proper(env) && Apart(cs, env) && LITERALS <= cs && NormalOpt(from) && WithinOpt(from, cs)
    requires Settles(k, from, was, fin, modules)
    requires x in Order(k) && forall m :: m in Order(k) ==> m in was && m in fin && CondsWithin(was[m], cs)
    ensures CondsOk(x, was[x], fin[x], modules, env)
    ensures EvalOpt(fin[x].dep, env) == Limit(k, x, EvalOpt(from, env), was, env, modules)
  {
    hide Propagate, Reduced, Eval, NormalOpt, PropertyOk, PropertyConds, Apart, Proper, CondsWithin;
    var m := k.m;
    if x == m {
      GotIsMinimum(m, from, was[m], modules, env, cs);
    } else if x in Order(k.kids) {
      GotIsMinimum(m, from, was[m], modules, env, cs);
      HandedNormal(m, fin[m], env, cs);
      ConditionsAreMinima(k.kids, x, Handed(m, fin[m]), was, fin, modules, env, cs);
    } else {
      ConditionsAreMinima(k.rest, x, from, was, fin, modules, env, cs);
    }
  }

  lemma HandedNormal(m: Menu, c: Conds, env: Env, cs: set<Symbol>)
    requires NormalOpt(c.dep) && WithinOpt(c.dep, cs)
    ensures NormalOpt(Handed(m, c)) && WithinOpt(Handed(m, c), cs)
    ensures EvalOpt(Handed(m, c), env) == if m.IsChoice() then env.tri(m.sym.value) else EvalOpt(c.dep, env)
  {
  }

  lemma GotIsMinimum(m: Menu, from: Option<Expr>, own: Conds, modules: Symbol, env: Env, cs: set<Symbol>)
    requires Proper(env) && Apart(cs, env) && LITERALS <= cs && NormalOpt(from)
    requires WithinOpt(from, cs) && CondsWithin(own, cs)
    ensures var c := Got(m, from, own, modules);
            && CondsOk(m, own, c, modules, env) && WithinOpt(c.dep, cs)
            && EvalOpt(c.dep, env) == Combine(AndOp, EvalOpt(from, env), EvalOpt(own.dep, CapM(env, modules)))
  {
    hide Propagate, Reduced, PropertyCond, PropertyOk, Apart, Proper;
    PropagateIsMinimum(from, own.dep, modules, env, cs);
    PropagateNormal(from, own.dep, modules);
    var dep := Propagate(from, own.dep, modules);
    PropertyIsMinimum(m, dep, own.visible, modules, env, cs);
    forall i | 0 <= i < |own.others|
      ensures PropertyOk(m, dep, own.others[i], PropertyCond(m, dep, own.others[i], modules), modules, env)
    {
      PropertyIsMinimum(m, dep, own.others[i], modules, env, cs);
    }
  }

  lemma PropertyIsMinimum(m: Menu, dep: Option<Expr>, own: Option<Expr>, modules: Symbol, env: Env, cs: set<Symbol>)
    requires Proper(env) && Apart(cs, env) && LITERALS <= cs && NormalOpt(dep)
    requires WithinOpt(dep, cs) && WithinOpt(own, cs)
    ensures PropertyOk(m, dep, own, PropertyCond(m, dep, own, modules), modules, env)
  {
    hide Propagate, Reduced, Apart;
    PropagateIsMinimum(dep, own, modules, env, cs);
    PropagateNormal(dep, own, modules);
    var both := Propagate(dep, own, modules);
    if both.Some? {
      TransBoolLowersToVisible(both.value, env);
      TransBoolExactly(both.value, env);
    }
  }

  // ---------------------------------------------------------------- flattening

  /** A node without a prompt, or with a prompt that has no text. */
  predicate Untitled(m: Menu) {
    !(m.prompted && m.titled)
  }

  /** The list of an untitled node goes between the node and its next sibling. */
  ghost function Flattened(k: Forest): (r: Forest)
    decreases Count(k)
  {
    if k.Nil? then Nil
    else if k.kids.Cons? && Untitled(k.m) then Tree(k.m, Nil, Flattened(Append(k.kids, k.rest)))
    else Tree(k.m, k.kids, Flattened(k.rest))
  }

  /** The first node of a list after its own list has come out, if it does. */
  ghost function Spliced(k: Forest): Forest
    requires k.Cons?
  {
    if k.kids.Cons? && Untitled(k.m) then Tree(k.m, Nil, Append(k.kids, k.rest)) else k
  }

  lemma FlattenedStep(done: Forest, k: Forest)
    requires k.Cons?
    ensures var s := Spliced(k);
            && s.m == k.m && Count(s) == Count(k)
            && Append(Append(done, Tree(s.m, s.kids, Nil)), Flattened(s.rest)) == Append(done, Flattened(k))
  {
    var s := Spliced(k);
    AppendOne(done, s.m, s.kids, Flattened(s.rest));
  }

  /** No untitled node has a list, in k or in any list below it. */
  ghost predicate Exposed(k: Forest) {
    k.Cons? ==> (Untitled(k.m) ==> k.kids.Nil?) && Exposed(k.kids) && Exposed(k.rest)
  }

  /** The same for the lists below the nodes of k, but not for k itself. */
  ghost predicate ExposedBelow(k: Forest) {
    k.Cons? ==> Exposed(k.kids) && ExposedBelow(k.rest)
  }

  lemma {:induction false} ExposedAppend(f: Forest, g: Forest)
    requires Exposed(f) && ExposedBelow(g)
    ensures ExposedBelow(Append(f, g))
  {
    if f.Cons? {
      ExposedAppend(f.rest, g);
    }
  }

  lemma {:induction false} FlattenedExposed(k: Forest)
    requires ExposedBelow(k)
    ensures Exposed(Flattened(k))
    decreases Count(k)
  {
    if k.Cons? {
      if k.kids.Cons? && Untitled(k.m) {
        ExposedAppend(k.kids, k.rest);
        FlattenedExposed(Append(k.kids, k.rest));
      } else {
        FlattenedExposed(k.rest);
      }
    }
  }

  lemma {:induction false} FlattenedOrder(k: Forest)
    ensures Order(Flattened(k)) == Order(k)
    decreases Count(k)
  {
    if k.Cons? {
      if k.kids.Cons? && Untitled(k.m) {
        FlattenedOrder(Append(k.kids, k.rest));
        AppendOrder(k.kids, k.rest);
      } else {
        FlattenedOrder(k.rest);
      }
    }
  }

  // ---------------------------------------------------------------- nesting

  /** The condition by which a node is taken in, or not. */
  function Shown(m: Menu, c: Conds): Option<Expr> {
    if m.prompted then c.visible else c.dep
  }

  /** What a node is compared with to decide whether it is taken in. */
  function BaseOf(m: Menu, c: Conds): Expr {
    Prepared(if m.prompted then c.visible else None)
  }

  ghost predicate TakenIn(sym: Symbol, base: Expr, f: Forest, fin: Book) {
    f.Cons? && f.m in fin && Nested(sym, base, Shown(f.m, fin[f.m]))
  }

  /** The node f starts with, finalized under the conditions fin, and its remaining siblings. */
  ghost function Finalized(f: Forest, fin: Book): (r: Forest)
    requires f.Cons?
    ensures r.Cons? && r.m == f.m && Count(r.rest) <= Count(f.rest)
    decreases Count(f), 1
  {
    var (kids, rest) := Gathered(f, fin);
    Tree(f.m, Flattened(kids), rest)
  }

  /** What the node has below it before its list is flattened, and its remaining siblings. */
  ghost function Gathered(f: Forest, fin: Book): (r: (Forest, Forest))
    requires f.Cons?
    ensures Count(r.1) <= Count(f.rest)
    decreases Count(f), 0
  {
    if f.kids.Cons? then (FinalizedAll(f.kids, fin), f.rest)
    else if f.m.sym.Some? && f.m in fin then Absorbed(f.m.sym.value, BaseOf(f.m, fin[f.m]), f.rest, fin)
    else (Nil, f.rest)
  }

  /** Node after node of a list, each taking in siblings. */
  ghost function FinalizedAll(k: Forest, fin: Book): Forest
    decreases Count(k), 2
  {
    if k.Nil? then Nil
    else
      var g := Finalized(k, fin);
      Tree(g.m, g.kids, FinalizedAll(g.rest, fin))
  }

  /** The following siblings that go below sym, each finalized, and the others. */
  ghost function Absorbed(sym: Symbol, base: Expr, rest: Forest, fin: Book): (r: (Forest, Forest))
    ensures Count(r.1) <= Count(rest)
    decreases Count(rest), 2
  {
    if TakenIn(sym, base, rest, fin) then
      var g := Finalized(rest, fin);
      var (taken, left) := Absorbed(sym, base, g.rest, fin);
      (Tree(g.m, g.kids, taken), left)
    else (Nil, rest)
  }

  lemma FinalizedAllStep(done: Forest, k: Forest, fin: Book)
    requires k.Cons?
    ensures var g := Finalized(k, fin);
            Append(Append(done, Tree(g.m, g.kids, Nil)), FinalizedAll(g.rest, fin))
            == Append(done, FinalizedAll(k, fin))
  {
    var g := Finalized(k, fin);
    AppendOne(done, g.m, g.kids, FinalizedAll(g.rest, fin));
  }

  lemma AbsorbedStep(taken: Forest, sym: Symbol, base: Expr, rest: Forest, fin: Book)
    requires TakenIn(sym, base, rest, fin)
    ensures var g := Finalized(rest, fin);
            var (more, all) := (Absorbed(sym, base, g.rest, fin), Absorbed(sym, base, rest, fin));
            Append(Append(taken, Tree(g.m, g.kids, Nil)), more.0) == Append(taken, all.0) && more.1 == all.1
  {
    hide Nested, Finalized;
    var g := Finalized(rest, fin);
    AppendOne(taken, g.m, g.kids, Absorbed(sym, base, g.rest, fin).0);
  }

  lemma AbsorbedEnd(taken: Forest, sym: Symbol, base: Expr, rest: Forest, fin: Book)
    requires TidyTop(taken) && !TakenIn(sym, base, rest, fin)
    ensures Append(taken, Absorbed(sym, base, rest, fin).0) == taken && Absorbed(sym, base, rest, fin).1 == rest
  {
    AppendNil(taken);
  }

  // ---------------------------------------------------------------- what is kept

  /** Nothing is lost, added or moved: the file order stays as it was. */
  lemma {:induction false} FinalizedOrder(f: Forest, fin: Book)
    requires f.Cons?
    ensures Order(Finalized(f, fin)) == Order(f)
    decreases Count(f), 1
  {
    if f.kids.Cons? {
      FinalizedAllOrder(f.kids, fin);
      FlattenedOrder(FinalizedAll(f.kids, fin));
    } else if f.m.sym.Some? && f.m in fin {
      var (sym, base) := (f.m.sym.value, BaseOf(f.m, fin[f.m]));
      AbsorbedOrder(sym, base, f.rest, fin);
      FlattenedOrder(Absorbed(sym, base, f.rest, fin).0);
    }
  }

  lemma {:induction false} FinalizedAllOrder(k: Forest, fin: Book)
    ensures Order(FinalizedAll(k, fin)) == Order(k)
    decreases Count(k), 2
  {
    if k.Cons? {
      FinalizedOrder(k, fin);
      FinalizedAllOrder(Finalized(k, fin).rest, fin);
    }
  }

  lemma {:induction false} AbsorbedOrder(sym: Symbol, base: Expr, rest: Forest, fin: Book)
    ensures Order(Absorbed(sym, base, rest, fin).0) + Order(Absorbed(sym, base, rest, fin).1) == Order(rest)
    decreases Count(rest), 2
  {
    hide Nested, Finalized;
    if TakenIn(sym, base, rest, fin) {
      var g := Finalized(rest, fin);
      FinalizedOrder(rest, fin);
      AbsorbedOrder(sym, base, g.rest, fin);
    }
  }

  // ---------------------------------------------------------------- which siblings are taken in

  /** Exactly the siblings up to the first that does not belong below the symbol are taken in,
      apart from those that these take in themselves. */
  lemma {:induction false} AbsorbedExactly(sym: Symbol, base: Expr, rest: Forest, fin: Book)
    ensures var (taken, left) := Absorbed(sym, base, rest, fin);
            && (forall x :: x in Tops(taken) ==> x in fin && Nested(sym, base, Shown(x, fin[x])))
            && (left.Cons? ==> left.m !in fin || !Nested(sym, base, Shown(left.m, fin[left.m])))
            && Order(taken) + Order(left) == Order(rest)
    decreases Count(rest)
  {
    hide Nested;
    AbsorbedOrder(sym, base, rest, fin);
    if TakenIn(sym, base, rest, fin) {
      AbsorbedExactly(sym, base, Finalized(rest, fin).rest, fin);
    }
  }

  /** A sibling whose condition does not mention the symbol ends it, whatever comes after. */
  lemma NotMentionedEnds(sym: Symbol, base: Expr, rest: Forest, fin: Book)
    requires rest.Cons? && rest.m in fin
    requires var dep := Shown(rest.m, fin[rest.m]); dep.None? || sym !in Mentioned(dep.value)
    ensures Absorbed(sym, base, rest, fin) == (Nil, rest)
  {
  }

  /** The condition of a node is that of its prompt or, if it has none, its own. */
  ghost predicate BelongsBelow(sym: Symbol, base: Expr, x: Menu, fin: Book) {
    x in fin && Nested(sym, base, if x.prompted then fin[x].visible else fin[x].dep)
  }

  /** What a symbol without a list gets, before it is flattened, and what remains behind it; other
      nodes take nothing in. */
  lemma FinalizedTakesIn(f: Forest, fin: Book) returns (k: Forest)
    requires f.Cons? && f.m in fin
    ensures var g := Finalized(f, fin);
            && g.kids == Flattened(k)
            && (f.kids.Cons? || f.m.sym.None? ==> g.rest == f.rest && Order(k) == Order(f.kids))
            && (f.kids.Nil? && f.m.sym.Some? ==>
                  var base := Prepared(if f.m.prompted then fin[f.m].visible else None);
                  && (forall x :: x in Tops(k) ==> BelongsBelow(f.m.sym.value, base, x, fin))
                  && (g.rest.Cons? ==> !BelongsBelow(f.m.sym.value, base, g.rest.m, fin))
                  && Order(k) + Order(g.rest) == Order(f.rest))
  {
    hide Nested;
    k := Gathered(f, fin).0;
    if f.kids.Cons? {
      FinalizedAllOrder(f.kids, fin);
    } else if f.m.sym.Some? {
      AbsorbedExactly(f.m.sym.value, BaseOf(f.m, fin[f.m]), f.rest, fin);
    }
  }

  /** Afterwards no untitled node anywhere below has a list of its own. */
  lemma {:induction false} FinalizedExposed(f: Forest, fin: Book)
    requires f.Cons?
    ensures Exposed(Finalized(f, fin).kids)
    decreases Count(f), 1
  {
    if f.kids.Cons? {
      FinalizedAllExposed(f.kids, fin);
      FlattenedExposed(FinalizedAll(f.kids, fin));
    } else if f.m.sym.Some? && f.m in fin {
      var (sym, base) := (f.m.sym.value, BaseOf(f.m, fin[f.m]));
      AbsorbedExposed(sym, base, f.rest, fin);
      FlattenedExposed(Absorbed(sym, base, f.rest, fin).0);
    }
  }

  lemma {:induction false} FinalizedAllExposed(k: Forest, fin: Book)
    ensures ExposedBelow(FinalizedAll(k, fin))
    decreases Count(k), 2
  {
    if k.Cons? {
      FinalizedExposed(k, fin);
      FinalizedAllExposed(Finalized(k, fin).rest, fin);
    }
  }

  lemma {:induction false} AbsorbedExposed(sym: Symbol, base: Expr, rest: Forest, fin: Book)
    ensures ExposedBelow(Absorbed(sym, base, rest, fin).0)
    decreases Count(rest), 2
  {
    hide Nested, Finalized;
    if TakenIn(sym, base, rest, fin) {
      FinalizedExposed(rest, fin);
      AbsorbedExposed(sym, base, Finalized(rest, fin).rest, fin);
    }
  }

  // ---------------------------------------------------------------- which lists stay

  /** What is below x, somewhere in f. */
  ghost function ListOf(f: Forest, x: Menu): Forest {
    if f.Nil? then Nil
    else if f.m == x then f.kids
    else if x in Order(f.kids) then ListOf(f.kids, x)
    else ListOf(f.rest, x)
  }

  lemma {:induction false} AppendListOf(f: Forest, g: Forest, x: Menu)
    ensures ListOf(Append(f, g), x) == if x in Order(f) then ListOf(f, x) else ListOf(g, x)
  {
    if f.Cons? {
      AppendListOf(f.rest, g, x);
    }
  }

  /** Only the lists of nodes without a prompt text come out. */
  lemma {:induction false} FlattenedKeeps(k: Forest, x: Menu)
    requires x in Order(k) && x.prompted && x.titled
    ensures ListOf(Flattened(k), x) == ListOf(k, x)
    decreases Count(k)
  {
    if k.m != x {
      if k.kids.Cons? && Untitled(k.m) {
        AppendOrder(k.kids, k.rest);
        AppendListOf(k.kids, k.rest, x);
        FlattenedKeeps(Append(k.kids, k.rest), x);
      } else if x !in Order(k.kids) {
        FlattenedKeeps(k.rest, x);
      }
    }
  }

  /** A node with a prompt text that has a list keeps one. */
  lemma {:induction false} FinalizedKeeps(f: Forest, fin: Book, x: Menu)
    requires f.Cons? && x in Order(f) && x.prompted && x.titled && ListOf(f, x).Cons?
    ensures ListOf(Finalized(f, fin), x).Cons?
    decreases Count(f), 1
  {
    FinalizedOrder(f, fin);
    var (k, rest) := Gathered(f, fin);
    FlattenedOrder(k);
    if f.kids.Cons? {
      FinalizedAllOrder(f.kids, fin);
      if x == f.m {
        assert FinalizedAll(f.kids, fin).Cons? && Flattened(k).Cons?;
      } else if x in Order(f.kids) {
        FinalizedAllKeeps(f.kids, fin, x);
        FlattenedKeeps(k, x);
      }
    } else if f.m.sym.Some? && f.m in fin {
      var (sym, base) := (f.m.sym.value, BaseOf(f.m, fin[f.m]));
      AbsorbedKeeps(sym, base, f.rest, fin, x);
      if x in Order(k) {
        FlattenedKeeps(k, x);
      }
    }
  }

  lemma {:induction false} FinalizedAllKeeps(k: Forest, fin: Book, x: Menu)
    requires x in Order(k) && x.prompted && x.titled && ListOf(k, x).Cons?
    ensures ListOf(FinalizedAll(k, fin), x).Cons?
    decreases Count(k), 2
  {
    hide Finalized;
    var g := Finalized(k, fin);
    FinalizedOrder(k, fin);
    FinalizedKeeps(k, fin, x);
    if x != g.m && x !in Order(g.kids) {
      FinalizedAllKeeps(g.rest, fin, x);
    }
  }

  lemma {:induction false} AbsorbedKeeps(sym: Symbol, base: Expr, rest: Forest, fin: Book, x: Menu)
    requires x in Order(rest) && x.prompted && x.titled && ListOf(rest, x).Cons?
    ensures var (taken, left) := Absorbed(sym, base, rest, fin);
            (if x in Order(taken) then ListOf(taken, x) else ListOf(left, x)).Cons?
    decreases Count(rest), 2
  {
    hide Nested, Finalized;
    if TakenIn(sym, base, rest, fin) {
      var g := Finalized(rest, fin);
      FinalizedOrder(rest, fin);
      FinalizedKeeps(rest, fin, x);
      if x != g.m && x !in Order(g.kids) {
        AbsorbedKeeps(sym, base, g.rest, fin, x);
      }
    }
  }

  /** In linked pointers a node has a list if there is something below it. */
  lemma {:induction false} LinkedListOf(f: Forest, first: Menu?, owner: Menu?, end: Menu?, x: Menu)
    requires Linked(f, first, owner, end) && x in Nodes(f)
    ensures x.list != null <==> ListOf(f, x).Cons?
  {
    Open(f, first, owner, end);
    OrderIsNodes(f.kids, f.m.list, f.m, null, x);
    if x == f.m {
    } else if x in Nodes(f.kids) {
      LinkedListOf(f.kids, f.m.list, f.m, null, x);
    } else {
      LinkedListOf(f.rest, f.m.next, owner, end, x);
    }
  }

  // ---------------------------------------------------------------- no node twice

  ghost predicate Distinct(s: seq<Menu>) {
    forall i, j :: 0 <= i < j < |s| ==> s[i] != s[j]
  }

  lemma DistinctJoin(a: seq<Menu>, b: seq<Menu>)
    requires Distinct(a) && Distinct(b) && forall x :: x in a ==> x !in b
    ensures Distinct(a + b)
  {
    forall i, j | 0 <= i < j < |a + b| ensures (a + b)[i] != (a + b)[j] {
      if i < |a| <= j {
        assert a[i] in a && b[j - |a|] in b;
      }
    }
  }

  lemma {:induction false} OrderIsNodes(f: Forest, first: Menu?, owner: Menu?, end: Menu?, x: Menu)
    requires Linked(f, first, owner, end)
    ensures x in Order(f) <==> x in Nodes(f)
  {
    if f.Cons? {
      OrderIsNodes(f.kids, f.m.list, f.m, null, x);
      OrderIsNodes(f.rest, f.m.next, owner, end, x);
    }
  }

  /** In linked pointers no node occurs twice. */
  lemma {:induction false} OrderDistinct(f: Forest, first: Menu?, owner: Menu?, end: Menu?)
    requires Linked(f, first, owner, end)
    ensures Distinct(Order(f))
  {
    if f.Cons? {
      var (a, b) := (Order(f.kids), Order(f.rest));
      OrderDistinct(f.kids, f.m.list, f.m, null);
      OrderDistinct(f.rest, f.m.next, owner, end);
      forall x: Menu ensures (x in a ==> x in Nodes(f.kids)) && (x in b ==> x in Nodes(f.rest)) {
        OrderIsNodes(f.kids, f.m.list, f.m, null, x);
        OrderIsNodes(f.rest, f.m.next, owner, end, x);
      }
      DistinctJoin([f.m], a);
      DistinctJoin([f.m] + a, b);
    }
  }
}
