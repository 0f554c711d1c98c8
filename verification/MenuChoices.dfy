/**
 What finalizing does besides the linking: the values of a choice get a condition more, and
 every node is finalized in its turn.
 */
module MenuChoices {
  import opened Expr
  import opened MenuTree
  import opened MenuLayout
  import opened Nesting

  // ---------------------------------------------------------------- values of choices

  /** What goes on besides the linking: the symbols found to be values of a choice, the conditions
      of the nodes, and the nodes finalized so far. */
  datatype Run = Run(values: set<Symbol>, final: Book, log: seq<Menu>)

  function Under(choice: Symbol, own: Option<Expr>): Option<Expr> {
    AllocAnd(Some(Comp(Equal, choice, SymbolYes)), own)
  }

  function UnderAll(choice: Symbol, own: seq<Option<Expr>>): (r: seq<Option<Expr>>)
    ensures |r| == |own|
  {
    seq(|own|, i requires 0 <= i < |own| => Under(choice, own[i]))
  }

  /** The conditions of an entry that is there only while the choice is y. */
  function UnderChoice(choice: Symbol, m: Menu, c: Conds): Conds {
    Conds(Under(choice, c.dep), if m.prompted then Under(choice, c.visible) else c.visible, UnderAll(choice, c.others))
  }

  /** The node is the first to make its symbol a value of a choice. */
  predicate NewValue(parent: Menu, m: Menu, values: set<Symbol>) {
    parent.IsChoice() && m.sym.Some? && m.sym.value !in values
  }

  /** Values of a tristate choice that are not tristate themselves need the choice to be y. */
  predicate NeedsChoice(parent: Menu, m: Menu)
    requires parent.sym.Some? && m.sym.Some?
  {
    parent.sym.value.Type() == Tristate && m.sym.value.Type() != Tristate
  }

  /** The last loop at one node of the list of parent. */
  ghost function ListEntry(parent: Menu, m: Menu, run: Run): Run {
    if !NewValue(parent, m, run.values) then run
    else if NeedsChoice(parent, m) && m in run.final then
      run.(values := run.values + {m.sym.value},
           final := run.final[m := UnderChoice(parent.sym.value, m, run.final[m])])
    else run.(values := run.values + {m.sym.value})
  }

  ghost function ListRun(parent: Menu, k: Forest, run: Run): Run {
    if k.Nil? then run else ListRun(parent, k.rest, ListEntry(parent, k.m, run))
  }

  lemma ListRunFlattened(parent: Menu, k: Forest, run: Run)
    requires k.Cons?
    ensures ListRun(parent, Flattened(k), run)
            == ListRun(parent, Flattened(Spliced(k).rest), ListEntry(parent, k.m, run))
  {
  }

  /** The symbols of the nodes of the list itself. */
  ghost function Symbols(k: Forest): set<Symbol> {
    if k.Nil? then {} else (if k.m.sym.Some? then {k.m.sym.value} else {}) + Symbols(k.rest)
  }

  /** x is in the list, and before it there is no node for the same symbol. */
  ghost predicate FirstOfItsSymbol(k: Forest, x: Menu) {
    k.Cons? && (k.m == x || (k.m.sym != x.sym && FirstOfItsSymbol(k.rest, x)))
  }

  /** x stands for a symbol that is not tristate in the list of a tristate choice, and for one
      that no choice has had before. */
  ghost predicate GetsCondition(parent: Menu, k: Forest, x: Menu, values: set<Symbol>) {
    && parent.IsChoice() && parent.sym.value.Type() == Tristate
    && x.sym.Some? && x.sym.value.Type() != Tristate && x.sym.value !in values && FirstOfItsSymbol(k, x)
  }

  /** The last loop over a list, as a whole: in the list of a choice all symbols become values, and
      exactly the nodes named above get the condition. */
  lemma {:induction false} ListRunExactly(parent: Menu, k: Forest, run: Run)
    ensures var r := ListRun(parent, k, run);
            && r.values == run.values + (if parent.IsChoice() then Symbols(k) else {})
            && r.final.Keys == run.final.Keys
            && (forall x :: x in run.final ==>
                  r.final[x] == if GetsCondition(parent, k, x, run.values)
                                then UnderChoice(parent.sym.value, x, run.final[x]) else run.final[x])
  {
    hide UnderChoice;
    if k.Cons? {
      ListRunExactly(parent, k.rest, ListEntry(parent, k.m, run));
    }
  }

  /** All of it for the node f starts with. */
  ghost function FinalizedRun(f: Forest, fin: Book, run: Run): Run
    requires f.Cons?
    decreases Count(f), 1
  {
    ListRun(f.m, Finalized(f, fin).kids, GatheredRun(f, fin, run.(log := run.log + [f.m])))
  }

  ghost function GatheredRun(f: Forest, fin: Book, run: Run): Run
    requires f.Cons?
    decreases Count(f), 0
  {
    if f.kids.Cons? then AllRun(f.kids, fin, run)
    else if f.m.sym.Some? && f.m in fin then AbsorbedRun(f.m.sym.value, BaseOf(f.m, fin[f.m]), f.rest, fin, run)
    else run
  }

  ghost function AllRun(k: Forest, fin: Book, run: Run): Run
    decreases Count(k), 2
  {
    if k.Nil? then run else AllRun(Finalized(k, fin).rest, fin, FinalizedRun(k, fin, run))
  }

  ghost function AbsorbedRun(sym: Symbol, base: Expr, rest: Forest, fin: Book, run: Run): Run
    decreases Count(rest), 2
  {
    if TakenIn(sym, base, rest, fin) then
      AbsorbedRun(sym, base, Finalized(rest, fin).rest, fin, FinalizedRun(rest, fin, run))
    else run
  }

  // ---------------------------------------------------------------- what a run comes to

  lemma {:induction false} ListRunLog(parent: Menu, k: Forest, run: Run)
    ensures ListRun(parent, k, run).log == run.log
  {
    if k.Cons? {
      ListRunLog(parent, k.rest, ListEntry(parent, k.m, run));
    }
  }

  /** Every node of the resulting tree has been finalized once, in the order of the file. */
  lemma {:induction false} FinalizedRunLog(f: Forest, fin: Book, run: Run)
    requires f.Cons?
    ensures FinalizedRun(f, fin, run).log == run.log + ([f.m] + Order(Finalized(f, fin).kids))
    decreases Count(f), 1
  {
    hide ListRun;
    var r := run.(log := run.log + [f.m]);
    ListRunLog(f.m, Finalized(f, fin).kids, GatheredRun(f, fin, r));
    FlattenedOrder(Gathered(f, fin).0);
    GatheredRunLog(f, fin, r);
    hide Order, Gathered, GatheredRun, Flattened;
    assert run.log + [f.m] + Order(Gathered(f, fin).0) == run.log + ([f.m] + Order(Gathered(f, fin).0));
  }

  lemma {:induction false} GatheredRunLog(f: Forest, fin: Book, run: Run)
    requires f.Cons?
    ensures GatheredRun(f, fin, run).log == run.log + Order(Gathered(f, fin).0)
    decreases Count(f), 0
  {
    if f.kids.Cons? {
      AllRunLog(f.kids, fin, run);
    } else if f.m.sym.Some? && f.m in fin {
      AbsorbedRunLog(f.m.sym.value, BaseOf(f.m, fin[f.m]), f.rest, fin, run);
    }
  }

  lemma {:induction false} AllRunLog(k: Forest, fin: Book, run: Run)
    ensures AllRun(k, fin, run).log == run.log + Order(FinalizedAll(k, fin))
    decreases Count(k), 2
  {
    hide Finalized, FinalizedRun;
    if k.Cons? {
      var g := Finalized(k, fin);
      FinalizedRunLog(k, fin, run);
      AllRunLog(g.rest, fin, FinalizedRun(k, fin, run));
      assert Order(FinalizedAll(k, fin)) == [g.m] + Order(g.kids) + Order(FinalizedAll(g.rest, fin));
    }
  }

  lemma {:induction false} AbsorbedRunLog(sym: Symbol, base: Expr, rest: Forest, fin: Book, run: Run)
    ensures AbsorbedRun(sym, base, rest, fin, run).log == run.log + Order(Absorbed(sym, base, rest, fin).0)
    decreases Count(rest), 2
  {
    hide Finalized, FinalizedRun, Nested;
    if TakenIn(sym, base, rest, fin) {
      var g := Finalized(rest, fin);
      FinalizedRunLog(rest, fin, run);
      AbsorbedRunLog(sym, base, g.rest, fin, FinalizedRun(rest, fin, run));
      var more := Absorbed(sym, base, g.rest, fin).0;
      assert Absorbed(sym, base, rest, fin).0 == Tree(g.m, g.kids, more);
      assert Order(Tree(g.m, g.kids, more)) == [g.m] + Order(g.kids) + Order(more);
    }
  }

  /** The conditions of a node are those handed down, or these and the choice that it is a value of. */
  ghost predicate ValuesOnce(fin: Book, run: Run) {
    forall x :: x in run.final && x in fin ==> ValueOnce(x, fin[x], run.final[x], run.values)
  }

  ghost predicate ValueOnce(x: Menu, c: Conds, now: Conds, values: set<Symbol>) {
    now == c
    || (&& x.sym.Some? && x.sym.value in values && x.sym.value.Type() != Tristate
        && exists choice: Symbol :: choice.Type() == Tristate && now == UnderChoice(choice, x, c))
  }

  lemma {:induction false} ListRunOnce(parent: Menu, k: Forest, fin: Book, run: Run)
    requires ValuesOnce(fin, run)
    ensures ValuesOnce(fin, ListRun(parent, k, run))
  {
    if k.Cons? {
      ListEntryOnce(parent, k.m, fin, run);
      ListRunOnce(parent, k.rest, fin, ListEntry(parent, k.m, run));
    }
  }

  lemma ListEntryOnce(parent: Menu, m: Menu, fin: Book, run: Run)
    requires ValuesOnce(fin, run)
    ensures ValuesOnce(fin, ListEntry(parent, m, run))
  {
    hide UnderChoice;
    var after := ListEntry(parent, m, run);
    forall x | x in after.final && x in fin ensures ValueOnce(x, fin[x], after.final[x], after.values) {
      assert x in run.final && ValueOnce(x, fin[x], run.final[x], run.values);
    }
  }

  lemma {:induction false} FinalizedRunOnce(f: Forest, fin: Book, run: Run)
    requires f.Cons? && ValuesOnce(fin, run)
    ensures ValuesOnce(fin, FinalizedRun(f, fin, run))
    decreases Count(f), 1
  {
    hide ValuesOnce, ListRun;
    var r := run.(log := run.log + [f.m]);
    assert ValuesOnce(fin, r) by {
      OnceWithoutLog(fin, run, r);
    }
    if f.kids.Cons? {
      AllRunOnce(f.kids, fin, r);
    } else if f.m.sym.Some? && f.m in fin {
      AbsorbedRunOnce(f.m.sym.value, BaseOf(f.m, fin[f.m]), f.rest, fin, r);
    }
    ListRunOnce(f.m, Finalized(f, fin).kids, fin, GatheredRun(f, fin, r));
  }

  lemma OnceWithoutLog(fin: Book, run: Run, r: Run)
    requires ValuesOnce(fin, run) && run.values == r.values && run.final == r.final
    ensures ValuesOnce(fin, r)
  {
  }

  lemma {:induction false} AllRunOnce(k: Forest, fin: Book, run: Run)
    requires ValuesOnce(fin, run)
    ensures ValuesOnce(fin, AllRun(k, fin, run))
    decreases Count(k), 2
  {
    hide ValuesOnce, FinalizedRun, Finalized;
    if k.Cons? {
      FinalizedRunOnce(k, fin, run);
      AllRunOnce(Finalized(k, fin).rest, fin, FinalizedRun(k, fin, run));
    }
  }

  lemma {:induction false} AbsorbedRunOnce(sym: Symbol, base: Expr, rest: Forest, fin: Book, run: Run)
    requires ValuesOnce(fin, run)
    ensures ValuesOnce(fin, AbsorbedRun(sym, base, rest, fin, run))
    decreases Count(rest), 2
  {
    hide ValuesOnce, FinalizedRun, Finalized, Nested;
    if TakenIn(sym, base, rest, fin) {
      FinalizedRunOnce(rest, fin, run);
      AbsorbedRunOnce(sym, base, Finalized(rest, fin).rest, fin, FinalizedRun(rest, fin, run));
    }
  }

  // ---------------------------------------------------------------- which values get the condition

  /** From the one run to the other values are only added, and no node of a symbol that was a
      value gets other conditions. */
  ghost predicate Later(run: Run, r: Run) {
    && run.values <= r.values && run.final.Keys == r.final.Keys
    && forall x :: x in run.final && x.sym.Some? && x.sym.value in run.values ==> r.final[x] == run.final[x]
  }

  lemma LaterTwice(a: Run, b: Run, c: Run)
    requires Later(a, b) && Later(b, c)
    ensures Later(a, c)
  {
  }

  lemma {:induction false} ListRunLater(parent: Menu, k: Forest, run: Run)
    ensures Later(run, ListRun(parent, k, run))
  {
    hide UnderChoice;
    ListRunExactly(parent, k, run);
  }

  lemma {:induction false} FinalizedRunLater(f: Forest, fin: Book, run: Run)
    requires f.Cons?
    ensures Later(run, FinalizedRun(f, fin, run))
    decreases Count(f), 1
  {
    hide Later, ListRun;
    var r := run.(log := run.log + [f.m]);
    SameIsLater(run, r);
    GatheredRunLater(f, fin, r);
    var g := GatheredRun(f, fin, r);
    ListRunLater(f.m, Finalized(f, fin).kids, g);
    LaterTwice(run, r, g);
    LaterTwice(run, g, FinalizedRun(f, fin, run));
  }

  lemma {:induction false} GatheredRunLater(f: Forest, fin: Book, run: Run)
    requires f.Cons?
    ensures Later(run, GatheredRun(f, fin, run))
    decreases Count(f), 0
  {
    hide Later;
    if f.kids.Cons? {
      AllRunLater(f.kids, fin, run);
    } else if f.m.sym.Some? && f.m in fin {
      AbsorbedRunLater(f.m.sym.value, BaseOf(f.m, fin[f.m]), f.rest, fin, run);
    } else {
      SameIsLater(run, run);
    }
  }

  lemma SameIsLater(run: Run, r: Run)
    requires run.values == r.values && run.final == r.final
    ensures Later(run, r)
  {
  }

  lemma {:induction false} AllRunLater(k: Forest, fin: Book, run: Run)
    ensures Later(run, AllRun(k, fin, run))
    decreases Count(k), 2
  {
    hide Later, FinalizedRun, Finalized;
    if k.Nil? {
      SameIsLater(run, run);
    } else {
      var r := FinalizedRun(k, fin, run);
      FinalizedRunLater(k, fin, run);
      AllRunLater(Finalized(k, fin).rest, fin, r);
      LaterTwice(run, r, AllRun(k, fin, run));
    }
  }

  lemma {:induction false} AbsorbedRunLater(sym: Symbol, base: Expr, rest: Forest, fin: Book, run: Run)
    ensures Later(run, AbsorbedRun(sym, base, rest, fin, run))
    decreases Count(rest), 2
  {
    hide Later, FinalizedRun, Finalized, Nested;
    if TakenIn(sym, base, rest, fin) {
      var r := FinalizedRun(rest, fin, run);
      FinalizedRunLater(rest, fin, run);
      AbsorbedRunLater(sym, base, Finalized(rest, fin).rest, fin, r);
      LaterTwice(run, r, AbsorbedRun(sym, base, rest, fin, run));
    } else {
      SameIsLater(run, run);
    }
  }

  /** Once the node f starts with is finalized, exactly these nodes of its list have got the
      condition in its last loop, and nothing that is finalized afterwards changes that. */
  lemma FinalizedRunExactly(f: Forest, fin: Book, run: Run)
    requires f.Cons?
    ensures var before := GatheredRun(f, fin, run.(log := run.log + [f.m]));
            var (k, r) := (Finalized(f, fin).kids, FinalizedRun(f, fin, run));
            && Later(run, before) && Later(before, r)
            && (f.m.IsChoice() ==> Symbols(k) <= r.values)
            && forall x :: x in before.final ==>
                 r.final[x] == if GetsCondition(f.m, k, x, before.values)
                               then UnderChoice(f.m.sym.value, x, before.final[x]) else before.final[x]
  {
    hide UnderChoice, GetsCondition, Finalized;
    var r := run.(log := run.log + [f.m]);
    var before := GatheredRun(f, fin, r);
    SameIsLater(run, r);
    GatheredRunLater(f, fin, r);
    ListRunExactly(f.m, Finalized(f, fin).kids, before);
    ListRunLater(f.m, Finalized(f, fin).kids, before);
  }

  /** The added condition lets the others through while the choice is y, and otherwise makes them n. */
  lemma UnderChoiceValue(choice: Symbol, own: Option<Expr>, env: Env)
    requires Proper(env) && choice.Type() == Tristate
    ensures EvalOpt(Under(choice, own), env) == if env.tri(choice) == YES then EvalOpt(own, env) else NO
  {
    hide Compare;
    CompareLiteral(choice, SymbolYes, env);
  }

  /** That goes for the condition of the node and for those of all its properties. */
  lemma UnderChoiceValues(choice: Symbol, m: Menu, c: Conds, env: Env)
    requires Proper(env) && choice.Type() == Tristate
    ensures var (u, on) := (UnderChoice(choice, m, c), env.tri(choice) == YES);
            && EvalOpt(u.dep, env) == (if on then EvalOpt(c.dep, env) else NO)
            && (m.prompted ==> EvalOpt(u.visible, env) == if on then EvalOpt(c.visible, env) else NO)
            && |u.others| == |c.others|
            && forall i :: 0 <= i < |c.others| ==>
                 EvalOpt(u.others[i], env) == if on then EvalOpt(c.others[i], env) else NO
  {
    hide Under;
    UnderChoiceValue(choice, c.dep, env);
    UnderChoiceValue(choice, c.visible, env);
    forall i | 0 <= i < |c.others|
      ensures EvalOpt(Under(choice, c.others[i]), env)
              == if env.tri(choice) == YES then EvalOpt(c.others[i], env) else NO
    {
      UnderChoiceValue(choice, c.others[i], env);
    }
  }
}
