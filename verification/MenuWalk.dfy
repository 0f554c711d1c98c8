/**
 Going through the whole menu tree without a stack, by the next, list and parent pointers.
 */
module MenuWalk {
  import opened MenuTree

  /** What writing the configuration does at the nodes: a node's own lines when it is come
      to, and the line that ends its menu when everything below it is done. */
  datatype Event = Visit(m: Menu) | Leave(m: Menu)

  /** The recursive definition: below a node everything comes between its two events. */
  ghost function Events(f: Forest): seq<Event> {
    if f.Nil? then []
    else [Visit(f.m)] + (if f.kids.Nil? then [] else Events(f.kids) + [Leave(f.m)]) + Events(f.rest)
  }

  /** The nodes that are come to, in order. */
  ghost function Visited(s: seq<Event>): seq<Menu> {
    if s == [] then [] else VisitedAt(s[0]) + Visited(s[1..])
  }

  ghost function VisitedAt(e: Event): seq<Menu> {
    if e.Visit? then [e.m] else []
  }

  lemma {:induction false} VisitedJoin(s: seq<Event>, t: seq<Event>)
    ensures Visited(s + t) == Visited(s) + Visited(t)
  {
    if s == [] {
      assert s + t == t;
    } else {
      assert (s + t)[0] == s[0] && (s + t)[1..] == s[1..] + t;
      VisitedJoin(s[1..], t);
      hide VisitedAt;
      assert VisitedAt(s[0]) + (Visited(s[1..]) + Visited(t)) == VisitedAt(s[0]) + Visited(s[1..]) + Visited(t);
    }
  }

  /** Every node is come to exactly where it stands in the order of the file. */
  lemma {:induction false} VisitedIsOrder(f: Forest)
    ensures Visited(Events(f)) == Order(f)
  {
    if f.Cons? {
      VisitedIsOrder(f.kids);
      VisitedIsOrder(f.rest);
      var below := if f.kids.Nil? then [] else Events(f.kids) + [Leave(f.m)];
      VisitedJoin(Events(f.kids), [Leave(f.m)]);
      VisitedJoin([Visit(f.m)], below);
      VisitedJoin([Visit(f.m)] + below, Events(f.rest));
      assert Visited([Leave(f.m)]) == [] && Visited([Visit(f.m)]) == [f.m];
    }
  }

  /** The nodes that are left, in order. */
  ghost function Leaving(s: seq<Event>): seq<Menu> {
    if s == [] then [] else (if s[0].Leave? then [s[0].m] else []) + Leaving(s[1..])
  }

  /** The nodes that have a list, each after what is below it. */
  ghost function PostOrder(f: Forest): seq<Menu> {
    if f.Nil? then [] else PostOrder(f.kids) + (if f.kids.Nil? then [] else [f.m]) + PostOrder(f.rest)
  }

  lemma {:induction false} LeavingJoin(s: seq<Event>, t: seq<Event>)
    ensures Leaving(s + t) == Leaving(s) + Leaving(t)
  {
    if s == [] {
      assert s + t == t;
    } else {
      assert (s + t)[0] == s[0] && (s + t)[1..] == s[1..] + t;
      LeavingJoin(s[1..], t);
      var first := if s[0].Leave? then [s[0].m] else [];
      assert first + (Leaving(s[1..]) + Leaving(t)) == first + Leaving(s[1..]) + Leaving(t);
    }
  }

  /** Every menu is ended once, when everything below it is done. */
  lemma {:induction false} LeavingIsPostOrder(f: Forest)
    ensures Leaving(Events(f)) == PostOrder(f)
  {
    if f.Cons? {
      LeavingIsPostOrder(f.kids);
      LeavingIsPostOrder(f.rest);
      var below := if f.kids.Nil? then [] else Events(f.kids) + [Leave(f.m)];
      LeavingJoin(Events(f.kids), [Leave(f.m)]);
      LeavingJoin([Visit(f.m)], below);
      LeavingJoin([Visit(f.m)] + below, Events(f.rest));
      assert Leaving([Leave(f.m)]) == [f.m] && Leaving([Visit(f.m)]) == [];
    }
  }

  /** Where a run of siblings stands: at the top, or below m, whose later siblings are rest. */
  datatype Place = Top | Below(m: Menu, rest: Forest, up: Place)

  ghost function Owner(p: Place, root: Menu): Menu {
    if p.Top? then root else p.m
  }

  ghost function PlaceNodes(p: Place): set<Menu> {
    if p.Top? then {} else {p.m} + Nodes(p.rest) + PlaceNodes(p.up)
  }

  /** The pointers lead on from here: to the later siblings, and up to the owner. */
  ghost predicate PlaceOk(p: Place, root: Menu)
    reads PlaceNodes(p)
    decreases p
  {
    p.Below? ==>
      && p.m.parent == Owner(p.up, root)
      && Linked(p.rest, p.m.next, Owner(p.up, root), null)
      && PlaceOk(p.up, root)
  }

  /** What is still to come after a run of siblings at this place. */
  ghost function After(p: Place, root: Menu): seq<Event> {
    if p.Top? then [Leave(root)] else [Leave(p.m)] + Events(p.rest) + After(p.up, root)
  }

  /** Everything still to come from the node a run of siblings starts with. */
  ghost function Left(g: Forest, p: Place, root: Menu): seq<Event> {
    Events(g) + After(p, root)
  }

  lemma LeftUnfold(g: Forest, p: Place, root: Menu)
    requires g.Cons?
    ensures g.kids.Cons? ==> Left(g, p, root) == [Visit(g.m)] + Left(g.kids, Below(g.m, g.rest, p), root)
    ensures g.kids.Nil? && g.rest.Cons? ==> Left(g, p, root) == [Visit(g.m)] + Left(g.rest, p, root)
    ensures g.kids.Nil? && g.rest.Nil? ==> Left(g, p, root) == [Visit(g.m)] + After(p, root)
  {
    var (a, b, c) := (Events(g.kids), Events(g.rest), After(p, root));
    if g.kids.Cons? {
      assert Events(g) == [Visit(g.m)] + (a + [Leave(g.m)]) + b;
      assert After(Below(g.m, g.rest, p), root) == [Leave(g.m)] + b + c;
      Regroup([Visit(g.m)], a, [Leave(g.m)], b, c);
    } else {
      assert Events(g) == [Visit(g.m)] + b && ([Visit(g.m)] + b) + c == [Visit(g.m)] + (b + c);
      assert g.rest.Nil? ==> b + c == c;
    }
  }

  lemma Regroup<T>(v: seq<T>, a: seq<T>, l: seq<T>, b: seq<T>, c: seq<T>)
    ensures v + (a + l) + b + c == v + (a + (l + b + c))
  {
  }

  /** The loop of conf_write, which conf_write_defconfig has as well: it ends, and it goes
      through the tree exactly as the recursive definition does. */
  method Walk(root: Menu, ghost f: Forest) returns (events: seq<Event>)
    requires root.parent == null && root.next == null && Linked(f, root.list, root, null)
    ensures events == Events(f) + (if f.Nil? then [] else [Leave(root)])
  {
    hide Left, After, Events;
    events := [];
    var menu := root.list;
    ghost var g, p := f, Top;
    ghost var all := Left(f, Top, root);
    StartAndEnd(f, root);
    while menu != null
      invariant menu != null ==>
                  PlaceOk(p, root) && Linked(g, menu, Owner(p, root), null) && events + Left(g, p, root) == all
      invariant menu == null && f.Cons? ==> events == all
      invariant f.Nil? ==> menu == null && events == []
      decreases |all| - |events|
    {
      LeftUnfold(g, p, root);
      events := events + [Visit(menu)];
      if menu.list != null {
        p := Below(menu, g.rest, p);
        g := g.kids;
        menu := menu.list;
      } else if menu.next != null {
        menu := menu.next;
        g := g.rest;
      } else {
        menu, events, g, p := Climb(menu.parent, root, events, p, all);
      }
    }
  }

  lemma StartAndEnd(f: Forest, root: Menu)
    ensures Left(f, Top, root) == Events(f) + [Leave(root)]
    ensures f.Nil? ==> Events(f) == []
  {
  }

  /** The inner loop: up to the next owner that has a later sibling. */
  method Climb(owner: Menu?, root: Menu, done: seq<Event>, ghost p: Place, ghost all: seq<Event>)
    returns (menu: Menu?, events: seq<Event>, ghost g: Forest, ghost q: Place)
    requires root.parent == null && root.next == null
    requires owner == Owner(p, root) && PlaceOk(p, root) && done + After(p, root) == all
    ensures menu != null ==>
              PlaceOk(q, root) && Linked(g, menu, Owner(q, root), null) && events + Left(g, q, root) == all
    ensures menu == null ==> events == all
    ensures |done| < |events| <= |all|
  {
    hide Events;
    menu, events, g, q := owner, done, Nil, p;
    while menu != null
      invariant menu != null ==> menu == Owner(q, root) && PlaceOk(q, root) && events + After(q, root) == all
      invariant menu == null ==> events == all
      invariant |done| <= |events| && (menu != owner || q != p ==> |done| < |events|)
      decreases |all| - |events|
    {
      AfterUnfold(q, root);
      events := events + [Leave(menu)];
      if menu.next != null {
        menu := menu.next;
        g, q := q.rest, q.up;
        return;
      }
      q := if q.Top? then q else q.up;
      menu := menu.parent;
    }
  }

  lemma AfterUnfold(p: Place, root: Menu)
    ensures p.Top? ==> After(p, root) == [Leave(root)]
    ensures p.Below? ==> After(p, root) == [Leave(p.m)] + Left(p.rest, p.up, root)
    ensures p.Below? && p.rest.Nil? ==> After(p, root) == [Leave(p.m)] + After(p.up, root)
  {
  }
}
