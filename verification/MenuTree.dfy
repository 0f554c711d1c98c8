/**
 The menu tree in memory: nodes linked by next, list and parent pointers, and the forests
 they stand for.
 */
module MenuTree {
  import opened Expr

  /** The conditions of a node: its own, that of its prompt, if it has one, and those of the
      other properties that its symbol has been given at this node. */
  datatype Conds = Conds(dep: Option<Expr>, visible: Option<Expr>, others: seq<Option<Expr>>)

  class Menu {
    var next: Menu?
    var list: Menu?
    var parent: Menu?
    var conds: Conds
    const sym: Option<Symbol>
    const isChoice: bool
    const prompted: bool
    /** The prompt has a text. */
    const titled: bool

    constructor (sym: Option<Symbol>, isChoice: bool, prompted: bool, titled: bool, conds: Conds)
    {
      this.sym, this.isChoice, this.prompted, this.titled, this.conds := sym, isChoice, prompted, titled, conds;
      next, list, parent := null, null, null;
    }

    /** The symbol of a choice. */
    predicate IsChoice() {
      sym.Some? && isChoice
    }
  }

  /** A run of siblings: the first node, what is below it, and its later siblings. */
  datatype Forest = Nil | Cons(m: Menu, kids: Forest, rest: Forest, nodes: set<Menu>)

  ghost function Nodes(f: Forest): set<Menu> {
    if f.Nil? then {} else f.nodes
  }

  ghost function Tree(m: Menu, kids: Forest, rest: Forest): Forest {
    Cons(m, kids, rest, {m} + Nodes(kids) + Nodes(rest))
  }

  /** The nodes in the order of the file: each before what is below it. */
  ghost function Order(f: Forest): seq<Menu> {
    if f.Nil? then [] else [f.m] + Order(f.kids) + Order(f.rest)
  }

  /** The nodes of the list itself. */
  ghost function Tops(f: Forest): set<Menu> {
    if f.Nil? then {} else {f.m} + Tops(f.rest)
  }

  ghost function Count(f: Forest): nat {
    if f.Nil? then 0 else 1 + Count(f.kids) + Count(f.rest)
  }

  ghost function Append(f: Forest, g: Forest): (r: Forest)
    ensures Count(r) == Count(f) + Count(g)
  {
    if f.Nil? then g else Tree(f.m, f.kids, Append(f.rest, g))
  }

  /** From first on the nodes are linked up as f says, up to but without end, and every node
      has the owner of its list as its parent. */
  ghost predicate Linked(f: Forest, first: Menu?, owner: Menu?, end: Menu?)
    reads Nodes(f)`next, Nodes(f)`list, Nodes(f)`parent
    decreases f
  {
    match f
    case Nil => first == end
    case Cons(m, kids, rest, nodes) =>
      && nodes == {m} + Nodes(kids) + Nodes(rest)
      && m !in Nodes(kids) && m !in Nodes(rest) && Nodes(kids) !! Nodes(rest)
      && first == m && m.parent == owner
      && Linked(kids, m.list, m, null)
      && Linked(rest, m.next, owner, end)
  }

  // ---------------------------------------------------------------- forests

  lemma {:induction false} AppendNodes(f: Forest, g: Forest)
    requires TidyTop(f)
    ensures Nodes(Append(f, g)) == Nodes(f) + Nodes(g)
  {
    if f.Cons? {
      AppendNodes(f.rest, g);
    }
  }

  /** The node sets along a run of siblings are as they should be. */
  ghost predicate TidyTop(f: Forest) {
    f.Cons? ==> f.nodes == {f.m} + Nodes(f.kids) + Nodes(f.rest) && TidyTop(f.rest)
  }

  lemma {:induction false} LinkedTidy(f: Forest, first: Menu?, owner: Menu?, end: Menu?)
    requires Linked(f, first, owner, end)
    ensures TidyTop(f)
  {
    if f.Cons? {
      LinkedTidy(f.rest, f.m.next, owner, end);
    }
  }

  lemma {:induction false} AppendOrder(f: Forest, g: Forest)
    ensures Order(Append(f, g)) == Order(f) + Order(g)
  {
    if f.Cons? {
      AppendOrder(f.rest, g);
    }
  }

  lemma {:induction false} AppendAssociative(f: Forest, g: Forest, h: Forest)
    ensures Append(Append(f, g), h) == Append(f, Append(g, h))
  {
    if f.Cons? {
      AppendAssociative(f.rest, g, h);
    }
  }

  lemma {:induction false} AppendNil(f: Forest)
    requires TidyTop(f)
    ensures Append(f, Nil) == f
  {
    if f.Cons? {
      AppendNil(f.rest);
    }
  }

  /** Two runs, one leading into the other, are one run. */
  lemma {:induction false} LinkedAppend(f: Forest, g: Forest, first: Menu?, owner: Menu?, middle: Menu?, end: Menu?)
    requires Linked(f, first, owner, middle) && Linked(g, middle, owner, end)
    requires Nodes(f) !! Nodes(g)
    ensures Linked(Append(f, g), first, owner, end)
    ensures Nodes(Append(f, g)) == Nodes(f) + Nodes(g)
  {
    LinkedTidy(f, first, owner, middle);
    AppendNodes(f, g);
    if f.Cons? {
      LinkedTidy(f.rest, f.m.next, owner, middle);
      AppendNodes(f.rest, g);
      LinkedAppend(f.rest, g, f.m.next, owner, middle, end);
    }
  }

  /** What the links say at the first node of a run. */
  lemma Open(f: Forest, first: Menu?, owner: Menu?, end: Menu?)
    requires Linked(f, first, owner, end)
    ensures f.Nil? ==> first == end
    ensures f.Cons? ==>
              && first == f.m && f.m.parent == owner && f == Tree(f.m, f.kids, f.rest)
              && f.m !in Nodes(f.kids) && f.m !in Nodes(f.rest) && Nodes(f.kids) !! Nodes(f.rest)
              && Linked(f.kids, f.m.list, f.m, null) && Linked(f.rest, f.m.next, owner, end)
              && Order(f) == [f.m] + Order(f.kids) + Order(f.rest)
              && Tops(f) == {f.m} + Tops(f.rest) && Count(f) == 1 + Count(f.kids) + Count(f.rest)
  {
  }

  lemma Close(m: Menu, kids: Forest, rest: Forest, owner: Menu?, end: Menu?)
    requires m.parent == owner && m !in Nodes(kids) && m !in Nodes(rest) && Nodes(kids) !! Nodes(rest)
    requires Linked(kids, m.list, m, null) && Linked(rest, m.next, owner, end)
    ensures Linked(Tree(m, kids, rest), m, owner, end)
    ensures Order(Tree(m, kids, rest)) == [m] + Order(kids) + Order(rest)
  {
  }

  lemma Empty(first: Menu?, owner: Menu?)
    ensures Linked(Nil, first, owner, first) && Order(Nil) == [] && Nodes(Nil) == {}
  {
  }

  lemma {:induction false} TopsAmongNodes(f: Forest)
    requires TidyTop(f)
    ensures Tops(f) <= Nodes(f)
  {
    if f.Cons? {
      TopsAmongNodes(f.rest);
    }
  }

  /** A list cut in two at menu: what has been gone through, and the rest. */
  ghost predicate Cut(done: Forest, rem: Forest, first: Menu?, menu: Menu?, owner: Menu?, nodes: set<Menu>)
    reads Nodes(done)`next, Nodes(done)`list, Nodes(done)`parent
    reads Nodes(rem)`next, Nodes(rem)`list, Nodes(rem)`parent
  {
    && Linked(done, first, owner, menu) && Linked(rem, menu, owner, null)
    && Nodes(done) !! Nodes(rem) && Nodes(done) + Nodes(rem) == nodes
  }

  /** The cut moves on by one node. */
  lemma Advance(done: Forest, rem: Forest, first: Menu?, menu: Menu, owner: Menu?, nodes: set<Menu>)
    requires Cut(done, rem, first, menu, owner, nodes)
    ensures rem.Cons? && rem.m == menu
    ensures Cut(Append(done, Tree(menu, rem.kids, Nil)), rem.rest, first, menu.next, owner, nodes)
    ensures Order(Append(done, Tree(menu, rem.kids, Nil))) == Order(done) + [menu] + Order(rem.kids)
    ensures Nodes(Append(done, Tree(menu, rem.kids, Nil))) == Nodes(done) + {menu} + Nodes(rem.kids)
  {
    hide Linked, Order, Append;
    Open(rem, menu, owner, null);
    Extend(done, menu, rem.kids, rem.rest, first, owner);
  }

  /** Putting one node at the end of a run, and then the others after it. */
  lemma AppendOne(done: Forest, m: Menu, kids: Forest, rest: Forest)
    ensures Append(Append(done, Tree(m, kids, Nil)), rest) == Append(done, Tree(m, kids, rest))
  {
    AppendAssociative(done, Tree(m, kids, Nil), rest);
    assert Append(Tree(m, kids, Nil), rest) == Tree(m, kids, rest);
  }

  /** A run goes on by one node, which is itself followed by todo. */
  lemma Extend(done: Forest, m: Menu, kids: Forest, todo: Forest, first: Menu?, owner: Menu?)
    requires Linked(done, first, owner, m) && m.parent == owner && Linked(kids, m.list, m, null)
    requires Nodes(done) !! {m} !! Nodes(kids)
    ensures var more := Append(done, Tree(m, kids, Nil));
            && Linked(more, first, owner, m.next) && Nodes(more) == Nodes(done) + {m} + Nodes(kids)
            && Append(more, todo) == Append(done, Tree(m, kids, todo))
            && Order(more) == Order(done) + [m] + Order(kids)
  {
    hide Linked, Order, Append;
    var one := Tree(m, kids, Nil);
    Empty(m.next, owner);
    Close(m, kids, Nil, owner, m.next);
    LinkedAppend(done, one, first, owner, m, m.next);
    AppendOne(done, m, kids, todo);
    AppendOrder(done, one);
  }

  /** The last node of the list itself. */
  ghost predicate EndsWith(f: Forest, last: Menu) {
    f.Cons? && if f.rest.Nil? then f.m == last else EndsWith(f.rest, last)
  }

  lemma {:induction false} AppendEndsWith(f: Forest, m: Menu, kids: Forest)
    ensures EndsWith(Append(f, Tree(m, kids, Nil)), m)
  {
    if f.Cons? {
      AppendEndsWith(f.rest, m, kids);
    }
  }

  /** A run taken apart before its last node. */
  lemma {:induction false} SplitLast(f: Forest, last: Menu, first: Menu?, owner: Menu?, end: Menu?)
    returns (done: Forest, kids: Forest)
    requires Linked(f, first, owner, end) && EndsWith(f, last)
    ensures f == Append(done, Tree(last, kids, Nil))
    ensures Linked(done, first, owner, last) && last.parent == owner && last.next == end
    ensures Linked(kids, last.list, last, null)
    ensures Nodes(done) !! {last} !! Nodes(kids) && Nodes(f) == Nodes(done) + {last} + Nodes(kids)
  {
    if f.rest.Nil? {
      done, kids := Nil, f.kids;
    } else {
      done, kids := SplitLast(f.rest, last, f.m.next, owner, end);
      done := Tree(f.m, f.kids, done);
    }
  }

  /** A run, its last node, and what follows that: menu, without a list, leads into them. */
  lemma Relinked(menu: Menu, done: Forest, last: Menu, kids: Forest, rest: Forest, owner: Menu?)
    requires menu.parent == owner && menu.list == null && last.parent == owner
    requires Linked(done, menu.next, owner, last) && Linked(kids, last.list, last, null)
    requires Linked(rest, last.next, owner, null)
    requires Nodes(done) !! {last} !! Nodes(kids) !! Nodes(rest) !! {menu}
    ensures var out := Append(Append(done, Tree(last, kids, Nil)), rest);
            && Linked(Tree(menu, Nil, out), menu, owner, null)
            && Nodes(out) == Nodes(done) + {last} + Nodes(kids) + Nodes(rest)
  {
    hide Linked, Order, Append;
    var out := Append(done, Tree(last, kids, rest));
    AppendOne(done, last, kids, rest);
    Close(last, kids, rest, owner, null);
    LinkedAppend(done, Tree(last, kids, rest), menu.next, owner, last, null);
    Empty(null, menu);
    Close(menu, Nil, out, owner, null);
  }
}
