/**
 menu_finalize in memory: dependencies go down to the entries, entries that depend on the
 symbol before them move below it, and entries below a node without a prompt text move out.
 The pointers end up linked as MenuLayout says.
 */
module MenuFinalize {
  import opened Expr
  import opened ExprTransform
  import opened Nesting
  import opened MenuTree
  import opened MenuLayout
  import opened MenuChoices

  /** The conditions of the nodes ms are those in the book. */
  ghost predicate At(ms: set<Menu>, book: Book)
    reads ms`conds
  {
    forall x :: x in ms ==> x in book && x.conds == book[x]
  }

  /** The nodes of the list have their final conditions, those below them not yet. */
  ghost predicate Pending(f: Forest, was: Book, fin: Book)
    reads Nodes(f)`conds
  {
    At(Nodes(f) * Tops(f), fin) && At(Nodes(f) - Tops(f), was)
  }

  /** The two books agree about the nodes ms. */
  ghost predicate Same(a: Book, b: Book, ms: set<Menu>) {
    forall x :: x in ms && (x in a || x in b) ==> x in a && x in b && a[x] == b[x]
  }

  /** The second book has all nodes of the first, and agrees with it about all of them but ms. */
  ghost predicate Kept(before: Book, after: Book, ms: set<Menu>) {
    forall x :: x in before ==> x in after && (x !in ms ==> after[x] == before[x])
  }

  lemma AtSame(ms: set<Menu>, a: Book, b: Book)
    requires Same(a, b, ms)
    ensures At(ms, a) <==> At(ms, b)
  {
  }

  lemma AtKept(ms: set<Menu>, before: Book, after: Book, changed: set<Menu>)
    requires Kept(before, after, changed) && ms !! changed && At(ms, before)
    ensures At(ms, after)
  {
  }

  lemma SameParts(a: Book, b: Book, ms: set<Menu>, part: set<Menu>)
    requires Same(a, b, ms) && part <= ms
    ensures Same(a, b, part)
  {
  }

  lemma KeptAll(a: Book, ms: set<Menu>)
    ensures Kept(a, a, ms)
  {
  }

  lemma KeptTwice(a: Book, b: Book, c: Book, first: set<Menu>, second: set<Menu>, ms: set<Menu>)
    requires Kept(a, b, first) && Kept(b, c, second) && first <= ms && second <= ms
    ensures Kept(a, c, ms)
  {
  }

  lemma KeptKeys(a: Book, b: Book, ms: set<Menu>, nodes: set<Menu>)
    requires Kept(a, b, ms) && nodes <= a.Keys
    ensures nodes <= b.Keys
  {
  }

  lemma SameKept(fin: Book, before: Book, after: Book, ms: set<Menu>, changed: set<Menu>)
    requires Same(before, fin, ms) && Kept(before, after, changed) && ms !! changed && ms <= before.Keys
    ensures Same(after, fin, ms)
  {
  }

  lemma PendingOpen(f: Forest, first: Menu?, owner: Menu?, end: Menu?, was: Book, fin: Book)
    requires Linked(f, first, owner, end) && Pending(f, was, fin) && f.Cons?
    ensures f.m in fin && At({f.m}, fin) && f.m.conds == fin[f.m]
    ensures At(Nodes(f.kids), was) && Pending(f.rest, was, fin)
  {
    Open(f, first, owner, end);
    LinkedTidy(f.rest, f.m.next, owner, end);
    TopsAmongNodes(f.rest);
  }

  lemma AtNone(book: Book)
    ensures At({}, book)
  {
  }

  lemma AtKeys(ms: set<Menu>, book: Book)
    requires At(ms, book)
    ensures ms <= book.Keys
  {
  }

  lemma AtSplit(a: set<Menu>, b: set<Menu>, all: set<Menu>, book: Book)
    requires all == a + b
    ensures At(all, book) <==> At(a, book) && At(b, book)
  {
  }

  /** The conditions while those of the list k are replaced, up to but without rem. */
  ghost function Mix(k: Forest, rem: Forest, was: Book, fin: Book): Book
    requires Nodes(k) <= was.Keys && Tops(k) <= fin.Keys
  {
    map x | x in Nodes(k) :: if x in Tops(k) && x !in Tops(rem) then fin[x] else was[x]
  }

  lemma MixStep(k: Forest, rem: Forest, first: Menu?, owner: Menu?, was: Book, fin: Book)
    requires Nodes(k) <= was.Keys && Tops(k) <= fin.Keys && Tops(k) <= Nodes(k)
    requires rem.Cons? && Tops(rem) <= Tops(k) && Linked(rem, first, owner, null)
    ensures Tops(rem.rest) <= Tops(k)
    ensures Mix(k, rem, was, fin)[rem.m] == was[rem.m]
    ensures Mix(k, rem.rest, was, fin) == Mix(k, rem, was, fin)[rem.m := fin[rem.m]]
  {
    Open(rem, first, owner, null);
    LinkedTidy(rem.rest, rem.m.next, owner, null);
    TopsAmongNodes(rem.rest);
  }

  lemma MixEnds(k: Forest, was: Book, fin: Book)
    requires Nodes(k) <= was.Keys && Tops(k) <= fin.Keys && Tops(k) <= Nodes(k)
    ensures At(Nodes(k), was) ==> At(Nodes(k), Mix(k, k, was, fin))
    ensures At(Nodes(k), Mix(k, Nil, was, fin)) ==> Pending(k, was, fin)
  {
    forall x | x in Nodes(k) && At(Nodes(k), Mix(k, Nil, was, fin))
      ensures x in Mix(k, Nil, was, fin) && x.conds == Mix(k, Nil, was, fin)[x]
    {
    }
  }

  lemma {:induction false} SettlesKeys(k: Forest, from: Option<Expr>, was: Book, fin: Book, modules: Symbol)
    requires Settles(k, from, was, fin, modules)
    ensures Tops(k) <= fin.Keys
  {
    hide Got;
    if k.Cons? {
      SettlesKeys(k.rest, from, was, fin, modules);
    }
  }

  lemma SettlesOpen(k: Forest, from: Option<Expr>, was: Book, fin: Book, modules: Symbol)
    requires k.Cons? && Settles(k, from, was, fin, modules)
    ensures k.m in was && k.m in fin && fin[k.m] == Got(k.m, from, was[k.m], modules)
    ensures Settles(k.rest, from, was, fin, modules)
  {
  }

  /** A list cut in two at menu: the nodes of done are finalized and have owner as their parent,
      those of rem, which have upper as theirs, have only got their own conditions. */
  ghost predicate Halfway(done: Forest, rem: Forest, first: Menu?, menu: Menu?, owner: Menu?, upper: Menu?,
                          nodes: set<Menu>, was: Book, fin: Book, now: Book, modules: Symbol)
    reads Nodes(done)`next, Nodes(done)`list, Nodes(done)`parent, Nodes(done)`conds
    reads Nodes(rem)`next, Nodes(rem)`list, Nodes(rem)`parent, Nodes(rem)`conds
  {
    && Linked(done, first, owner, menu) && Linked(rem, menu, upper, null)
    && Nodes(done) !! Nodes(rem) && Nodes(done) + Nodes(rem) == nodes && nodes <= now.Keys
    && At(Nodes(done), now) && Pending(rem, was, fin) && Same(now, fin, Nodes(rem))
    && SettlesBelow(rem, was, fin, modules)
  }

  /** The same when menu, with kids below it, is finalized too but belongs to neither part. */
  ghost predicate Between(done: Forest, menu: Menu, kids: Forest, rem: Forest, first: Menu?, owner: Menu?, upper: Menu?,
                          nodes: set<Menu>, was: Book, fin: Book, now: Book, modules: Symbol)
    reads Nodes(done)`next, Nodes(done)`list, Nodes(done)`parent, Nodes(done)`conds
    reads Nodes(rem)`next, Nodes(rem)`list, Nodes(rem)`parent, Nodes(rem)`conds
    reads Nodes(kids)`next, Nodes(kids)`list, Nodes(kids)`parent, Nodes(kids)`conds
    reads menu`next, menu`list, menu`conds
  {
    && Linked(done, first, owner, menu) && Linked(kids, menu.list, menu, null) && Linked(rem, menu.next, upper, null)
    && Nodes(done) !! {menu} !! Nodes(kids) !! Nodes(rem)
    && Nodes(done) + {menu} + Nodes(kids) + Nodes(rem) == nodes && nodes <= now.Keys
    && At(Nodes(done) + {menu} + Nodes(kids), now) && Pending(rem, was, fin) && Same(now, fin, Nodes(rem))
    && SettlesBelow(rem, was, fin, modules)
  }

  lemma Onward(done: Forest, menu: Menu, kids: Forest, rem: Forest, first: Menu?, owner: Menu?, upper: Menu?,
               nodes: set<Menu>, was: Book, fin: Book, now: Book, modules: Symbol)
    requires Between(done, menu, kids, rem, first, owner, upper, nodes, was, fin, now, modules) && menu.parent == owner
    ensures Halfway(Append(done, Tree(menu, kids, Nil)), rem, first, menu.next, owner, upper, nodes, was, fin, now,
                    modules)
  {
    hide Linked, Append, Order, At, Pending, SettlesBelow, Same;
    Extend(done, menu, kids, Nil, first, owner);
  }

  lemma HalfwayFirst(k: Forest, first: Menu?, owner: Menu?, upper: Menu?, was: Book, fin: Book, now: Book,
                     modules: Symbol)
    requires Linked(k, first, upper, null) && Pending(k, was, fin) && SettlesBelow(k, was, fin, modules)
    requires Same(now, fin, Nodes(k)) && Nodes(k) <= now.Keys
    ensures Halfway(Nil, k, first, first, owner, upper, Nodes(k), was, fin, now, modules)
  {
    hide Pending, SettlesBelow;
    Empty(first, owner);
  }

  lemma HalfwayOpen(done: Forest, rem: Forest, first: Menu?, menu: Menu?, owner: Menu?, upper: Menu?,
                    nodes: set<Menu>, was: Book, fin: Book, now: Book, modules: Symbol)
    requires Halfway(done, rem, first, menu, owner, upper, nodes, was, fin, now, modules)
    ensures Linked(done, first, owner, menu) && TidyTop(done) && Linked(rem, menu, upper, null)
    ensures Nodes(done) !! Nodes(rem) && Nodes(done) + Nodes(rem) == nodes && nodes <= now.Keys
    ensures At(Nodes(done), now) && Pending(rem, was, fin) && Same(now, fin, Nodes(rem))
    ensures SettlesBelow(rem, was, fin, modules)
    ensures rem.Cons? ==> menu == rem.m && menu in nodes && menu in fin && menu.conds == fin[menu]
    ensures rem.Nil? ==> menu == null && nodes == Nodes(done)
  {
    hide Pending, SettlesBelow, Same;
    LinkedTidy(done, first, owner, menu);
    if rem.Cons? {
      PendingOpen(rem, menu, upper, null, was, fin);
    }
  }

  lemma NextDone(done: Forest, rem: Forest, g: Forest, first: Menu?, menu: Menu, owner: Menu?, upper: Menu?,
                 nodes: set<Menu>, was: Book, fin: Book, before: Book, now: Book, modules: Symbol)
    requires Linked(done, first, owner, menu) && Linked(g, menu, upper, null) && g.Cons?
    requires Nodes(done) !! Nodes(rem) && Nodes(done) + Nodes(rem) == nodes && nodes <= before.Keys
    requires Nodes(g) == Nodes(rem) && Nodes(g.rest) <= Nodes(rem)
    requires At(Nodes(done), before) && At(Nodes(rem) - Nodes(g.rest), now)
    requires Pending(g.rest, was, fin) && SettlesBelow(g.rest, was, fin, modules)
    requires Same(before, fin, Nodes(rem)) && Kept(before, now, Nodes(rem) - Nodes(g.rest))
    ensures Between(done, menu, g.kids, g.rest, first, owner, upper, nodes, was, fin, now, modules)
    ensures Nodes(rem) - Nodes(g.rest) == {menu} + Nodes(g.kids)
    ensures menu in Nodes(rem) && Nodes(rem) <= nodes && menu !in Nodes(done) + Nodes(g.kids) + Nodes(g.rest)
    ensures menu.parent == upper
  {
    hide Linked, At, Pending, SettlesBelow, Same, Kept;
    Open(g, menu, upper, null);
    var changed := Nodes(rem) - Nodes(g.rest);
    AtKept(Nodes(done), before, now, changed);
    AtSplit(Nodes(done), changed, Nodes(done) + {menu} + Nodes(g.kids), now);
    SameParts(before, fin, Nodes(rem), Nodes(g.rest));
    SameKept(fin, before, now, Nodes(g.rest), changed);
    KeptKeys(before, now, changed, nodes);
  }

  class Finalizer {
    const modules: Symbol
    /** The symbols flagged as values of a choice. */
    var choiceValues: set<Symbol>
    /** These, the conditions of the nodes, and the nodes in the order in which they were finalized. */
    ghost var run: Run

    constructor (modules: Symbol, ghost now: Book)
      ensures this.modules == modules && choiceValues == {} && run == Run({}, now, [])
    {
      this.modules, choiceValues, run := modules, {}, Run({}, now, []);
    }

    /** The tree rooted at parent, with the siblings that follow it, of which some may be taken
        in.  The pointers end up as MenuLayout says, every node that has been come to has its
        final conditions and has been finalized in its turn, and the siblings that remain have not
        been touched. */
    method Finalize(parent: Menu, ghost f: Forest, ghost owner: Menu?, ghost was: Book, ghost fin: Book)
      returns (ghost g: Forest)
      requires f.Cons? && f.m == parent && Linked(f, parent, owner, null)
      requires Pending(f, was, fin) && SettlesBelow(f, was, fin, modules)
      requires Nodes(f) <= run.final.Keys && Same(run.final, fin, Nodes(f)) && choiceValues == run.values
      modifies this, Nodes(f)
      ensures g == Finalized(f, fin) && Linked(g, parent, owner, null)
      ensures Nodes(g) == Nodes(f) && Nodes(g.rest) <= Nodes(f.rest)
      ensures run == FinalizedRun(f, fin, old(run)) && choiceValues == run.values
      ensures At(Nodes(f) - Nodes(g.rest), run.final)
      ensures Pending(g.rest, was, fin) && SettlesBelow(g.rest, was, fin, modules)
      ensures Kept(old(run.final), run.final, Nodes(f) - Nodes(g.rest))
      decreases Count(f), 1
    {
      hide Linked, Append, Pending, SettlesBelow, Gathered, GatheredRun, Flattened, At, Same, Kept, ListRun;
      Open(f, parent, owner, null);
      PendingOpen(f, parent, owner, null, was, fin);
      SameParts(run.final, fin, Nodes(f), {parent});
      AtSame({parent}, run.final, fin);
      run := run.(log := run.log + [parent]);
      ghost var before := run.final;
      ghost var k, rest := Gather(parent, f, owner, was, fin);
      ghost var changed := Nodes(f) - Nodes(rest);
      AtKept({parent}, before, run.final, Nodes(k));
      AtSplit({parent}, Nodes(k), changed, run.final);
      ghost var between := run.final;
      ghost var flat := Flatten(parent, k, {parent} + Nodes(k));
      KeptTwice(before, between, run.final, Nodes(k), Nodes(k), changed);
      g := Tree(parent, flat, rest);
      Close(parent, flat, rest, owner, null);
    }

    /** What comes to be below parent: its list, finalized, or else following siblings. */
    method Gather(parent: Menu, ghost f: Forest, ghost owner: Menu?, ghost was: Book, ghost fin: Book)
      returns (ghost k: Forest, ghost rest: Forest)
      requires f.Cons? && f.m == parent && Linked(f, parent, owner, null)
      requires Pending(f, was, fin) && SettlesBelow(f, was, fin, modules)
      requires Nodes(f) <= run.final.Keys && Same(run.final, fin, Nodes(f)) && choiceValues == run.values
      modifies this, Nodes(f)`next, Nodes(f)`list, Nodes(f.kids), Nodes(f.rest)
      ensures (k, rest) == Gathered(f, fin)
      ensures parent.parent == owner && Linked(k, parent.list, parent, null) && Linked(rest, parent.next, owner, null)
      ensures Nodes(k) !! Nodes(rest) && Nodes(k) + Nodes(rest) == Nodes(f) - {parent}
      ensures Nodes(rest) <= Nodes(f.rest)
      ensures run == GatheredRun(f, fin, old(run)) && choiceValues == run.values
      ensures At(Nodes(k), run.final) && Pending(rest, was, fin) && SettlesBelow(rest, was, fin, modules)
      ensures Kept(old(run.final), run.final, Nodes(k))
      decreases Count(f), 0
    {
      hide Linked, Order, Append, Pending, Settles, FinalizedAll, Absorbed, At, Same, Kept, AllRun, AbsorbedRun;
      Open(f, parent, owner, null);
      PendingOpen(f, parent, owner, null, was, fin);
      Open(f.kids, parent.list, parent, null);
      SameParts(run.final, fin, Nodes(f), Nodes(f.kids));
      SameParts(run.final, fin, Nodes(f), Nodes(f.rest));
      if parent.list != null {
        k := ServeList(parent, f.kids, was, fin);
        rest := f.rest;
      } else if parent.sym.Some? {
        k, rest := AbsorbSiblings(parent, f, owner, was, fin);
      } else {
        k, rest := Nil, f.rest;
        Empty(parent.list, parent);
        AtNone(run.final);
        KeptAll(run.final, {});
      }
    }

    /** The list of parent: its nodes get their conditions and are finalized. */
    method ServeList(parent: Menu, ghost k: Forest, ghost was: Book, ghost fin: Book)
      returns (ghost done: Forest)
      requires Linked(k, parent.list, parent, null) && parent !in Nodes(k)
      requires parent in fin && parent.conds == fin[parent] && At(Nodes(k), was)
      requires Settles(k, Handed(parent, fin[parent]), was, fin, modules)
      requires Nodes(k) <= run.final.Keys && Same(run.final, fin, Nodes(k)) && choiceValues == run.values
      modifies this, Nodes(k)
      ensures done == FinalizedAll(k, fin) && Linked(done, parent.list, parent, null) && Nodes(done) == Nodes(k)
      ensures run == AllRun(k, fin, old(run)) && choiceValues == run.values
      ensures At(Nodes(k), run.final) && Kept(old(run.final), run.final, Nodes(k))
      decreases Count(k), 4
    {
      hide Linked, Settles, SettlesBelow, Pending, At, Same, Kept, FinalizedAll, AllRun, Handed;
      PropagateToChildren(parent, k, was, fin);
      SettlesAlsoBelow(k, Handed(parent, fin[parent]), was, fin, modules);
      done := FinalizeChildren(parent, k, was, fin);
    }

    /** The first loop over the children: each gets its conditions from parent. */
    method PropagateToChildren(parent: Menu, ghost k: Forest, ghost was: Book, ghost fin: Book)
      requires Linked(k, parent.list, parent, null) && parent !in Nodes(k)
      requires parent in fin && parent.conds == fin[parent] && At(Nodes(k), was)
      requires Settles(k, Handed(parent, fin[parent]), was, fin, modules)
      modifies Nodes(k)`conds
      ensures Pending(k, was, fin)
    {
      hide Linked, Got, Settles, Tops, Mix, Pending, At;
      var from := if parent.IsChoice() then Some(Sym(parent.sym.value)) else parent.conds.dep;
      var menu := parent.list;
      ghost var rem := k;
      LinkedTidy(k, menu, parent, null);
      TopsAmongNodes(k);
      SettlesKeys(k, from, was, fin, modules);
      AtKeys(Nodes(k), was);
      MixEnds(k, was, fin);
      while menu != null
        invariant Linked(rem, menu, parent, null) && Settles(rem, from, was, fin, modules)
        invariant Tops(rem) <= Tops(k) && At(Nodes(k), Mix(k, rem, was, fin))
        decreases Count(rem)
      {
        Open(rem, menu, parent, null);
        SettlesOpen(rem, from, was, fin, modules);
        MixStep(k, rem, menu, parent, was, fin);
        Receive(menu, from, Nodes(k), Mix(k, rem, was, fin));
        rem := rem.rest;
        menu := menu.next;
      }
      Open(rem, menu, parent, null);
      MixEnds(k, was, fin);
    }

    /** The conditions of a node and of its properties, below from. */
    method Receive(menu: Menu, from: Option<Expr>, ghost ms: set<Menu>, ghost book: Book)
      requires menu in ms && At(ms, book)
      modifies menu`conds
      ensures At(ms, book[menu := Got(menu, from, book[menu], modules)])
    {
      hide Propagate, PropertyCond;
      var own := menu.conds;
      var dep := Propagate(from, own.dep, modules);
      menu.conds := menu.conds.(dep := dep);
      if menu.prompted {
        menu.conds := menu.conds.(visible := PropertyCond(menu, dep, own.visible, modules));
      }
      if menu.sym.Some? {
        for i := 0 to |own.others|
          invariant menu.conds == Conds(dep, menu.conds.visible, menu.conds.others)
          invariant menu.conds.visible ==
                    if menu.prompted then PropertyCond(menu, dep, own.visible, modules) else own.visible
          invariant |menu.conds.others| == |own.others|
          invariant forall j :: 0 <= j < |own.others| ==>
                      menu.conds.others[j] ==
                      if j < i then PropertyCond(menu, dep, own.others[j], modules) else own.others[j]
          invariant forall x :: x in ms && x != menu ==> x in book && x.conds == book[x]
        {
          menu.conds := menu.conds.(others :=
            menu.conds.others[i := PropertyCond(menu, dep, menu.conds.others[i], modules)]);
        }
        assert menu.conds.others == PropertyConds(menu, dep, own.others, modules);
      }
    }

    /** The second loop over the children: each is finalized, taking in siblings as it goes. */
    method FinalizeChildren(parent: Menu, ghost k: Forest, ghost was: Book, ghost fin: Book)
      returns (ghost done: Forest)
      requires Linked(k, parent.list, parent, null) && parent !in Nodes(k)
      requires Pending(k, was, fin) && SettlesBelow(k, was, fin, modules)
      requires Nodes(k) <= run.final.Keys && Same(run.final, fin, Nodes(k)) && choiceValues == run.values
      modifies this, Nodes(k)
      ensures done == FinalizedAll(k, fin) && Linked(done, parent.list, parent, null) && Nodes(done) == Nodes(k)
      ensures run == AllRun(k, fin, old(run)) && choiceValues == run.values
      ensures At(Nodes(k), run.final) && Kept(old(run.final), run.final, Nodes(k))
      decreases Count(k), 3
    {
      hide Linked, Order, Append, Pending, SettlesBelow, FinalizedAll, Finalized, At, Halfway, Between;
      hide Same, Kept, FinalizedRun;
      var menu := parent.list;
      done := Nil;
      ghost var rem := k;
      HalfwayFirst(k, menu, parent, parent, was, fin, run.final, modules);
      FinalizedAllEnds(k, fin);
      KeptAll(run.final, Nodes(k));
      while menu != null
        invariant Halfway(done, rem, parent.list, menu, parent, parent, Nodes(k), was, fin, run.final, modules)
        invariant Append(done, FinalizedAll(rem, fin)) == FinalizedAll(k, fin)
        invariant AllRun(rem, fin, run) == AllRun(k, fin, old(run)) && choiceValues == run.values
        invariant Kept(old(run.final), run.final, Nodes(k)) && Count(rem) <= Count(k)
        decreases Count(rem)
      {
        HalfwayOpen(done, rem, parent.list, menu, parent, parent, Nodes(k), was, fin, run.final, modules);
        FinalizedAllStep(done, rem, fin);
        ghost var before := run.final;
        rem := FinalizeNext(menu, done, rem, parent.list, parent, parent, Nodes(k), was, fin);
        KeptTwice(old(run.final), before, run.final, Nodes(k), {menu} + Nodes(rem.kids), Nodes(k));
        Onward(done, menu, rem.kids, rem.rest, parent.list, parent, parent, Nodes(k), was, fin, run.final, modules);
        done := Append(done, Tree(menu, rem.kids, Nil));
        rem := rem.rest;
        menu := menu.next;
      }
      HalfwayOpen(done, rem, parent.list, menu, parent, parent, Nodes(k), was, fin, run.final, modules);
      FinalizedAllEnd(done, parent.list, parent, fin);
    }

    /** The next node of a list is finalized. */
    method FinalizeNext(menu: Menu, ghost done: Forest, ghost rem: Forest, ghost first: Menu?, ghost owner: Menu?,
                        ghost upper: Menu?, ghost nodes: set<Menu>, ghost was: Book, ghost fin: Book)
      returns (ghost g: Forest)
      requires Halfway(done, rem, first, menu, owner, upper, nodes, was, fin, run.final, modules)
      requires choiceValues == run.values
      modifies this, Nodes(rem)
      ensures rem.Cons? && g == Finalized(rem, fin)
      ensures Between(done, menu, g.kids, g.rest, first, owner, upper, nodes, was, fin, run.final, modules)
      ensures menu in Nodes(rem) && Nodes(rem) <= nodes && menu !in Nodes(done) + Nodes(g.kids) + Nodes(g.rest)
      ensures menu.parent == upper && run == FinalizedRun(rem, fin, old(run)) && choiceValues == run.values
      ensures Nodes(rem) - Nodes(g.rest) == {menu} + Nodes(g.kids)
      ensures Kept(old(run.final), run.final, {menu} + Nodes(g.kids))
      decreases Count(rem), 2
    {
      hide Linked, Order, Append, Pending, SettlesBelow, Finalized, FinalizedRun, At, Same, Kept;
      HalfwayOpen(done, rem, first, menu, owner, upper, nodes, was, fin, run.final, modules);
      Open(rem, menu, upper, null);
      ghost var before := run.final;
      g := Finalize(menu, rem, upper, was, fin);
      NextDone(done, rem, g, first, menu, owner, upper, nodes, was, fin, before, run.final, modules);
    }

    /** Following siblings that depend on the symbol of parent are finalized and taken in. */
    method AbsorbSiblings(parent: Menu, ghost f: Forest, ghost owner: Menu?, ghost was: Book, ghost fin: Book)
      returns (ghost taken: Forest, ghost rem: Forest)
      requires f.Cons? && f.m == parent && f.kids.Nil? && Linked(f, parent, owner, null) && parent.sym.Some?
      requires parent in fin && parent.conds == fin[parent]
      requires Pending(f.rest, was, fin) && SettlesBelow(f.rest, was, fin, modules)
      requires Nodes(f.rest) <= run.final.Keys && Same(run.final, fin, Nodes(f.rest)) && choiceValues == run.values
      modifies this, Nodes(f)`next, Nodes(f)`list, Nodes(f.rest)
      ensures (taken, rem) == Absorbed(parent.sym.value, BaseOf(parent, fin[parent]), f.rest, fin)
      ensures parent.parent == owner && Linked(taken, parent.list, parent, null)
      ensures Linked(rem, parent.next, owner, null)
      ensures Nodes(taken) !! Nodes(rem) && Nodes(taken) + Nodes(rem) == Nodes(f.rest)
      ensures run == AbsorbedRun(parent.sym.value, BaseOf(parent, fin[parent]), f.rest, fin, old(run))
      ensures choiceValues == run.values
      ensures At(Nodes(taken), run.final) && Kept(old(run.final), run.final, Nodes(taken))
      ensures Pending(rem, was, fin) && SettlesBelow(rem, was, fin, modules)
      decreases Count(f.rest), 5
    {
      hide Linked, Pending, SettlesBelow, Absorbed, AbsorbedRun, Prepared, At, EndsWith, Same, Kept;
      Open(f, parent, owner, null);
      var base := Prepared(if parent.prompted then parent.conds.visible else None);
      var last, menu;
      last, menu, taken, rem := TakeInAll(parent, parent.sym.value, base, f.rest, owner, was, fin);
      Adopt(parent, last, taken, menu, rem, owner);
    }

    /** The siblings after parent, up to the first that does not go below sym; last is the last of
        them, and menu comes after it. */
    method TakeInAll(parent: Menu, sym: Symbol, base: Expr, ghost all: Forest, ghost owner: Menu?, ghost was: Book,
                     ghost fin: Book)
      returns (last: Menu?, menu: Menu?, ghost taken: Forest, ghost rem: Forest)
      requires Linked(all, parent.next, owner, null) && parent !in Nodes(all)
      requires Pending(all, was, fin) && SettlesBelow(all, was, fin, modules)
      requires Nodes(all) <= run.final.Keys && Same(run.final, fin, Nodes(all)) && choiceValues == run.values
      modifies this, Nodes(all)
      ensures (taken, rem) == Absorbed(sym, base, all, fin) && run == AbsorbedRun(sym, base, all, fin, old(run))
      ensures if last == null then taken.Nil? else EndsWith(taken, last)
      ensures Linked(taken, parent.next, parent, menu) && Linked(rem, menu, owner, null)
      ensures Nodes(taken) !! Nodes(rem) && Nodes(taken) + Nodes(rem) == Nodes(all)
      ensures At(Nodes(taken), run.final) && Kept(old(run.final), run.final, Nodes(taken))
      ensures Pending(rem, was, fin) && SettlesBelow(rem, was, fin, modules) && choiceValues == run.values
      decreases Count(all), 4
    {
      hide Linked, Order, Append, Pending, SettlesBelow, Finalized, FinalizedRun, Absorbed, AbsorbedRun, TakenIn;
      hide At, EndsWith, Halfway, Between, Same, Kept, StillAbsorbs;
      last, menu, taken, rem := null, parent.next, Nil, all;
      HalfwayFirst(rem, menu, parent, owner, was, fin, run.final, modules);
      StillAbsorbsFirst(rem, run, sym, base, fin);
      KeptAll(run.final, Nodes(taken));
      while menu != null
        invariant if last == null then taken.Nil? else EndsWith(taken, last)
        invariant Halfway(taken, rem, parent.next, menu, parent, owner, Nodes(all), was, fin, run.final, modules)
        invariant StillAbsorbs(taken, rem, all, run, old(run), sym, base, fin) && choiceValues == run.values
        invariant Kept(old(run.final), run.final, Nodes(taken)) && Count(rem) <= Count(all)
        decreases Count(rem)
      {
        HalfwayOpen(taken, rem, parent.next, menu, parent, owner, Nodes(all), was, fin, run.final, modules);
        var goes := ShownGoesBelow(sym, base, menu, rem, fin);
        if !goes {
          break;
        }
        StillAbsorbsStep(taken, rem, all, run, old(run), sym, base, fin);
        taken, rem := TakeIn(parent, menu, taken, rem, parent.next, owner, Nodes(all), was, fin, old(run.final));
        last := menu;
        menu := menu.next;
      }
      HalfwayOpen(taken, rem, parent.next, menu, parent, owner, Nodes(all), was, fin, run.final, modules);
      StillAbsorbsEnd(taken, rem, all, run, old(run), sym, base, fin);
    }

    /** Whether the next sibling is taken in: its prompt decides or, if it has none, itself. */
    method ShownGoesBelow(sym: Symbol, base: Expr, menu: Menu, ghost rem: Forest, ghost fin: Book) returns (r: bool)
      requires rem.Cons? && rem.m == menu && menu in fin && menu.conds == fin[menu]
      ensures r <==> TakenIn(sym, base, rem, fin)
    {
      hide GoesBelow, Nested;
      var dep := if menu.prompted then menu.conds.visible else menu.conds.dep;
      r := GoesBelow(sym, base, dep);
    }

    /** One more sibling is finalized and gets a new parent. */
    method TakeIn(parent: Menu, menu: Menu, ghost taken: Forest, ghost rem: Forest, ghost first: Menu?,
                  ghost owner: Menu?, ghost nodes: set<Menu>, ghost was: Book, ghost fin: Book, ghost start: Book)
      returns (ghost more: Forest, ghost left: Forest)
      requires Halfway(taken, rem, first, menu, parent, owner, nodes, was, fin, run.final, modules)
      requires choiceValues == run.values && Kept(start, run.final, Nodes(taken))
      modifies this, Nodes(rem)
      ensures rem.Cons? && menu in Nodes(rem) && Nodes(rem) <= nodes
      ensures more == Append(taken, Tree(menu, Finalized(rem, fin).kids, Nil)) && left == Finalized(rem, fin).rest
      ensures Halfway(more, left, first, menu.next, parent, owner, nodes, was, fin, run.final, modules)
      ensures EndsWith(more, menu)
      ensures run == FinalizedRun(rem, fin, old(run)) && choiceValues == run.values
      ensures Kept(start, run.final, Nodes(more))
      decreases Count(rem), 3
    {
      hide Linked, Order, Append, Finalized, FinalizedRun, EndsWith, Halfway, Between, Same, Kept;
      ghost var before := run.final;
      HalfwayOpen(taken, rem, first, menu, parent, owner, nodes, was, fin, before, modules);
      ghost var g := FinalizeNext(menu, taken, rem, first, parent, owner, nodes, was, fin);
      menu.parent := parent;
      Onward(taken, menu, g.kids, g.rest, first, parent, owner, nodes, was, fin, run.final, modules);
      AppendEndsWith(taken, menu, g.kids);
      Grows(taken, menu, g.kids);
      KeptTwice(start, before, run.final, Nodes(taken), {menu} + Nodes(g.kids), Nodes(taken) + {menu} + Nodes(g.kids));
      more, left := Append(taken, Tree(menu, g.kids, Nil)), g.rest;
    }

    /** The siblings between parent and menu, of which last is the last, become the list of parent. */
    method Adopt(parent: Menu, last: Menu?, ghost taken: Forest, ghost menu: Menu?, ghost rem: Forest,
                 ghost owner: Menu?)
      requires Linked(taken, parent.next, parent, menu) && Linked(rem, menu, owner, null)
      requires if last == null then taken.Nil? && parent.list == null else EndsWith(taken, last)
      requires parent !in Nodes(taken) + Nodes(rem) && Nodes(taken) !! Nodes(rem)
      modifies parent`next, parent`list, Nodes(taken)`next
      ensures Linked(taken, parent.list, parent, null) && Linked(rem, parent.next, owner, null)
    {
      hide Linked, EndsWith, Append;
      if last == null {
        Open(Nil, parent.next, parent, menu);
        Empty(null, parent);
      } else {
        ghost var done, kids := SplitLast(taken, last, parent.next, parent, menu);
        parent.list := parent.next;
        parent.next := last.next;
        last.next := null;
        Extend(done, last, kids, Nil, parent.list, parent);
      }
    }

    /** The last loop over the children: the list of an untitled node comes out. */
    method Flatten(parent: Menu, ghost k: Forest, ghost nodes: set<Menu>) returns (ghost done: Forest)
      requires Linked(k, parent.list, parent, null) && parent !in Nodes(k) && Nodes(k) <= nodes
      requires At(nodes, run.final) && choiceValues == run.values
      modifies this, Nodes(k)
      ensures Linked(done, parent.list, parent, null)
      ensures done == Flattened(k) && Nodes(done) == Nodes(k)
      ensures run == ListRun(parent, done, old(run)) && choiceValues == run.values
      ensures At(nodes, run.final) && Kept(old(run.final), run.final, Nodes(k))
    {
      hide Linked, Order, Append, Flattened, Tops, At, Kept, ListRun, ListEntry;
      var menu := parent.list;
      done := Nil;
      ghost var rem := k;
      Empty(menu, parent);
      FlattenedStart(k);
      KeptAll(run.final, Nodes(k));
      while menu != null
        invariant Cut(done, rem, parent.list, menu, parent, Nodes(k))
        invariant Append(done, Flattened(rem)) == Flattened(k)
        invariant ListRun(parent, Flattened(rem), run) == ListRun(parent, Flattened(k), old(run))
        invariant At(nodes, run.final) && choiceValues == run.values && Kept(old(run.final), run.final, Nodes(k))
        decreases Count(rem)
      {
        Open(rem, menu, parent, null);
        FlattenedStep(done, rem);
        ListRunFlattened(parent, rem, run);
        ghost var before := run.final;
        rem := FlattenOne(parent, menu, rem, nodes);
        KeptTwice(old(run.final), before, run.final, Nodes(k), {menu}, Nodes(k));
        Advance(done, rem, parent.list, menu, parent, Nodes(k));
        done := Append(done, Tree(menu, rem.kids, Nil));
        rem := rem.rest;
        menu := menu.next;
      }
      Open(rem, menu, parent, null);
      FlattenedEnd(done, parent.list, parent);
      ListRunEnd(parent, run);
    }

    /** One node of the list, whose own list comes out if it is untitled. */
    method FlattenOne(parent: Menu, menu: Menu, ghost rem: Forest, ghost nodes: set<Menu>) returns (ghost g: Forest)
      requires Linked(rem, menu, parent, null) && parent !in Nodes(rem) && Nodes(rem) <= nodes
      requires At(nodes, run.final) && choiceValues == run.values
      modifies this, Nodes(rem)
      ensures rem.Cons? && g == Spliced(rem) && Linked(g, menu, parent, null) && Nodes(g) == Nodes(rem)
      ensures run == ListEntry(parent, menu, old(run)) && choiceValues == run.values
      ensures At(nodes, run.final) && menu in Nodes(rem) && Kept(old(run.final), run.final, {menu})
    {
      hide Linked, Append, At, Kept, ListEntry;
      Open(rem, menu, parent, null);
      Open(rem.kids, menu.list, menu, null);
      g := rem;
      AddToChoice(parent, menu, nodes);
      if menu.list != null && Untitled(menu) {
        g := Splice(parent, menu, rem);
      }
    }

    /** A node in the list of a choice makes its symbol a value of the choice, and if that is
        tristate and the value is not, the conditions of the node require the choice to be y. */
    method AddToChoice(parent: Menu, menu: Menu, ghost nodes: set<Menu>)
      requires menu in nodes && At(nodes, run.final) && choiceValues == run.values
      modifies this, menu`conds
      ensures run == ListEntry(parent, menu, old(run)) && choiceValues == run.values
      ensures At(nodes, run.final) && Kept(old(run.final), run.final, {menu})
    {
      if NewValue(parent, menu, choiceValues) {
        choiceValues := choiceValues + {menu.sym.value};
        if NeedsChoice(parent, menu) {
          RequireChoice(parent.sym.value, menu, nodes);
        }
        run := ListEntry(parent, menu, run);
      }
    }

    /** The conditions of a node are each joined with choice=y. */
    method RequireChoice(choice: Symbol, menu: Menu, ghost nodes: set<Menu>)
      requires menu in nodes && At(nodes, run.final)
      modifies menu`conds
      ensures At(nodes, run.final[menu := UnderChoice(choice, menu, run.final[menu])])
    {
      hide Under;
      var own := menu.conds;
      menu.conds := menu.conds.(dep := Under(choice, own.dep));
      if menu.prompted {
        menu.conds := menu.conds.(visible := Under(choice, own.visible));
      }
      for i := 0 to |own.others|
        invariant menu.conds == Conds(Under(choice, own.dep), menu.conds.visible, menu.conds.others)
        invariant menu.conds.visible == if menu.prompted then Under(choice, own.visible) else own.visible
        invariant |menu.conds.others| == |own.others|
        invariant forall j :: 0 <= j < |own.others| ==>
                    menu.conds.others[j] == if j < i then Under(choice, own.others[j]) else own.others[j]
        invariant forall x :: x in nodes && x != menu ==> x in run.final && x.conds == run.final[x]
      {
        menu.conds := menu.conds.(others := menu.conds.others[i := Under(choice, menu.conds.others[i])]);
      }
      assert menu.conds.others == UnderAll(choice, own.others);
    }

    /** The list of menu goes between menu and its next sibling. */
    method Splice(parent: Menu, menu: Menu, ghost f: Forest) returns (ghost g: Forest)
      requires f.Cons? && f.m == menu && Linked(f, menu, parent, null) && parent !in Nodes(f) && menu.list != null
      modifies Nodes(f)`next, Nodes(f)`list, Nodes(f)`parent
      ensures f.kids.Cons? && g == Tree(menu, Nil, Append(f.kids, f.rest)) && Nodes(g) == Nodes(f)
      ensures Linked(g, menu, parent, null)
    {
      hide Linked, Append;
      Open(f, menu, parent, null);
      Open(f.kids, menu.list, menu, null);
      var last, done, kids := Reparent(parent, menu, f.kids);
      last.next := menu.next;
      menu.next := menu.list;
      menu.list := null;
      Relinked(menu, done, last, kids, f.rest, parent);
      g := Tree(menu, Nil, Append(f.kids, f.rest));
    }

    /** Every node in the list of menu gets parent as its parent; last is the last of them. */
    method Reparent(parent: Menu, menu: Menu, ghost k: Forest)
      returns (last: Menu, ghost done: Forest, ghost kids: Forest)
      requires Linked(k, menu.list, menu, null) && menu.list != null
      requires menu !in Nodes(k) && parent !in Nodes(k)
      modifies Nodes(k)`parent
      ensures k == Append(done, Tree(last, kids, Nil))
      ensures Nodes(k) == Nodes(done) + {last} + Nodes(kids) && Nodes(done) !! {last} !! Nodes(kids)
      ensures Linked(done, menu.list, parent, last)
      ensures last.parent == parent && last.next == null && Linked(kids, last.list, last, null)
    {
      hide Linked, Append;
      Open(k, menu.list, menu, null);
      last := menu.list;
      done := Nil;
      ghost var todo := k;
      Empty(last, parent);
      AppendStart(k);
      while true
        invariant Linked(done, menu.list, parent, last) && Linked(todo, last, menu, null)
        invariant Nodes(done) !! Nodes(todo) && Nodes(done) + Nodes(todo) == Nodes(k)
        invariant Append(done, todo) == k
        decreases Count(todo)
      {
        Open(todo, last, menu, null);
        last.parent := parent;
        kids := todo.kids;
        if last.next == null {
          Open(todo.rest, null, menu, null);
          return;
        }
        Extend(done, last, kids, todo.rest, menu.list, parent);
        done := Append(done, Tree(last, kids, Nil));
        last, todo := last.next, todo.rest;
      }
    }
  }

  lemma FlattenedStart(k: Forest)
    ensures Append(Nil, Flattened(k)) == Flattened(k)
  {
  }

  lemma FinalizedAllEnds(k: Forest, fin: Book)
    ensures Append(Nil, FinalizedAll(k, fin)) == FinalizedAll(k, fin)
  {
  }

  lemma FinalizedAllEnd(done: Forest, first: Menu?, owner: Menu?, fin: Book)
    requires Linked(done, first, owner, null)
    ensures Append(done, FinalizedAll(Nil, fin)) == done
  {
    LinkedTidy(done, first, owner, null);
    AppendNil(done);
  }

  lemma FlattenedEnd(done: Forest, first: Menu?, owner: Menu?)
    requires Linked(done, first, owner, null)
    ensures Append(done, Flattened(Nil)) == done
  {
    LinkedTidy(done, first, owner, null);
    AppendNil(done);
  }

  lemma ListRunEnd(parent: Menu, run: Run)
    ensures ListRun(parent, Flattened(Nil), run) == run
  {
  }

  /** What is still to be taken in leads to all that is taken in. */
  ghost predicate StillAbsorbs(taken: Forest, rem: Forest, all: Forest, run: Run, start: Run, sym: Symbol, base: Expr,
                               fin: Book)
  {
    var (more, whole) := (Absorbed(sym, base, rem, fin), Absorbed(sym, base, all, fin));
    && Append(taken, more.0) == whole.0 && more.1 == whole.1
    && AbsorbedRun(sym, base, rem, fin, run) == AbsorbedRun(sym, base, all, fin, start)
  }

  lemma StillAbsorbsFirst(all: Forest, run: Run, sym: Symbol, base: Expr, fin: Book)
    ensures StillAbsorbs(Nil, all, all, run, run, sym, base, fin)
  {
    hide Absorbed, AbsorbedRun;
  }

  lemma StillAbsorbsStep(taken: Forest, rem: Forest, all: Forest, run: Run, start: Run, sym: Symbol, base: Expr,
                         fin: Book)
    requires StillAbsorbs(taken, rem, all, run, start, sym, base, fin) && TakenIn(sym, base, rem, fin)
    ensures var g := Finalized(rem, fin);
            StillAbsorbs(Append(taken, Tree(g.m, g.kids, Nil)), g.rest, all, FinalizedRun(rem, fin, run), start,
                         sym, base, fin)
  {
    hide Finalized, FinalizedRun, Nested, Append;
    AbsorbedStep(taken, sym, base, rem, fin);
  }

  lemma StillAbsorbsEnd(taken: Forest, rem: Forest, all: Forest, run: Run, start: Run, sym: Symbol, base: Expr,
                        fin: Book)
    requires StillAbsorbs(taken, rem, all, run, start, sym, base, fin)
    requires (rem.Nil? || !TakenIn(sym, base, rem, fin)) && TidyTop(taken)
    ensures (taken, rem) == Absorbed(sym, base, all, fin) && run == AbsorbedRun(sym, base, all, fin, start)
  {
    hide Nested;
    AbsorbedEnd(taken, sym, base, rem, fin);
  }

  lemma Grows(done: Forest, m: Menu, kids: Forest)
    requires TidyTop(done)
    ensures Nodes(Append(done, Tree(m, kids, Nil))) == Nodes(done) + {m} + Nodes(kids)
  {
    AppendNodes(done, Tree(m, kids, Nil));
  }

  lemma AppendStart(k: Forest)
    ensures Append(Nil, k) == k
  {
  }
}
