/**
 The whole menu: finalized from its root, and then written by the walk.
 */
module MenuRun {
  import opened Expr
  import opened MenuTree
  import opened MenuLayout
  import opened MenuChoices
  import opened MenuFinalize
  import opened MenuWalk

  /** Whatever is nested and flattened, the configuration is written in the order of the file,
      every entry once, finalized once, and under the conditions that its menus, ifs and choices
      give it. */
  method FinalizeAndWrite(modules: Symbol, root: Menu, ghost f: Forest, ghost was: Book)
    returns (events: seq<Event>, ghost fin: Book, ghost run: Run)
    requires f.Cons? && f.rest.Nil? && Linked(f, root, null, null) && At(Nodes(f), was)
    modifies Nodes(f)
    ensures Visited(events) == Order(f.kids) && Distinct(Visited(events))
    ensures root in was && Settles(f.kids, Handed(root, was[root]), was, fin, modules)
    ensures run == FinalizedRun(f, fin, Run({}, fin, [])) && At(Nodes(f.kids), run.final) && ValuesOnce(fin, run)
    ensures run.log == [root] + Order(f.kids)
    ensures forall x :: x in Nodes(f.kids) ==>
              && (x.list != null ==> x.prompted && x.titled)
              && (x.prompted && x.titled && old(x.list) != null ==> x.list != null)
  {
    hide Linked, Order, Settles, SettlesBelow, Pending, Finalized, FinalizedRun, Events, Visited, Exposed, Distinct;
    hide At, ValuesOnce;
    fin := FinalBook(root, f, was, modules);
    var finalizer := new Finalizer(modules, fin);
    Open(f, root, null, null);
    OrderDistinct(f.kids, root.list, root, null);
    ghost var kept := KeepLists(f, root, fin);
    ghost var g := finalizer.Finalize(root, f, null, was, fin);
    run := finalizer.run;
    Open(g, root, null, null);
    KidsOrder(f, g, fin);
    RunComesTo(f, fin);
    FinalizedExposed(f, fin);
    ExposedEverywhere(g.kids, root.list, root, null);
    forall x | x in kept ensures x.list != null {
      OrderIsNodes(g.kids, root.list, root, null, x);
      LinkedListOf(g.kids, root.list, root, null, x);
    }
    events := Walk(root, g.kids);
    VisitedIsOrder(g.kids);
    VisitedEnd(Events(g.kids), root);
    AtSplit(Nodes(f.kids), {root}, Nodes(f) - Nodes(g.rest), run.final);
  }

  /** The nodes with a prompt text that have a list, and will have one. */
  lemma KeepLists(f: Forest, root: Menu, fin: Book) returns (kept: set<Menu>)
    requires f.Cons? && f.rest.Nil? && Linked(f, root, null, null)
    ensures forall x :: x in Nodes(f.kids) && x.prompted && x.titled && x.list != null ==> x in kept
    ensures forall x :: x in kept ==> x in Order(Finalized(f, fin).kids) && ListOf(Finalized(f, fin).kids, x).Cons?
  {
    hide Finalized;
    kept := set x | x in Nodes(f.kids) && x.prompted && x.titled && x.list != null;
    var g := Finalized(f, fin);
    FinalizedOrder(f, fin);
    KidsOrder(f, g, fin);
    Open(f, root, null, null);
    forall x | x in kept ensures x in Order(g.kids) && ListOf(g.kids, x).Cons? {
      OrderIsNodes(f.kids, root.list, root, null, x);
      LinkedListOf(f.kids, root.list, root, null, x);
      FinalizedKeeps(f, fin, x);
    }
  }

  lemma RunComesTo(f: Forest, fin: Book)
    requires f.Cons?
    ensures var run := FinalizedRun(f, fin, Run({}, fin, []));
            ValuesOnce(fin, run) && run.log == [f.m] + Order(Finalized(f, fin).kids)
  {
    hide FinalizedRun, Finalized;
    FinalizedRunLog(f, fin, Run({}, fin, []));
    FinalizedRunOnce(f, fin, Run({}, fin, []));
  }

  lemma FinalBook(root: Menu, f: Forest, was: Book, modules: Symbol) returns (fin: Book)
    requires f.Cons? && f.rest.Nil? && Linked(f, root, null, null) && At(Nodes(f), was)
    ensures root in was && Settles(f.kids, Handed(root, was[root]), was, fin, modules)
    ensures Pending(f, was, fin) && SettlesBelow(f, was, fin, modules) && Nodes(f) <= fin.Keys
  {
    Open(f, root, null, null);
    var from := Handed(root, was[root]);
    fin := Conditions(f.kids, from, was, modules)[root := was[root]];
    ConditionsKeys(f.kids, from, was, modules, root.list, root, null);
    ConditionsSettle(f.kids, from, was, fin, modules, root.list, root, null);
  }

  lemma KidsOrder(f: Forest, g: Forest, fin: Book)
    requires f.Cons? && f.rest.Nil? && g == Finalized(f, fin)
    ensures Order(g.kids) == Order(f.kids) && g.rest.Nil?
  {
    FinalizedOrder(f, fin);
    assert Count(g.rest) == 0;
    assert Order(g) == [f.m] + Order(g.kids) && Order(f) == [f.m] + Order(f.kids);
    assert Order(g)[1..] == Order(g.kids) && Order(f)[1..] == Order(f.kids);
  }

  lemma {:induction false} ExposedEverywhere(k: Forest, first: Menu?, owner: Menu?, end: Menu?)
    requires Linked(k, first, owner, end) && Exposed(k)
    ensures forall x :: x in Nodes(k) ==> x.list != null ==> x.prompted && x.titled
  {
    if k.Cons? {
      ExposedEverywhere(k.kids, k.m.list, k.m, null);
      ExposedEverywhere(k.rest, k.m.next, owner, end);
    }
  }

  lemma VisitedEnd(s: seq<Event>, root: Menu)
    ensures Visited(s + [Leave(root)]) == Visited(s) && Visited(s + []) == Visited(s)
  {
    VisitedJoin(s, [Leave(root)]);
    assert Visited([Leave(root)]) == [] && s + [] == s;
  }
}
