// The pointer manipulations of menu_finalize and the stackless walk of
// conf_write (tools/kconfig/menu.c, tools/kconfig/confdata.c).
module MenuFinalize {
  import opened MenuTree
  import opened MenuParents

  /** menu_finalize on the node n, whose children are kids and whose following
      siblings, below p, are rest. */
  method FinalizeMenu(dep: Dependency, n: Menu, ghost p: Menu, ghost kids: Forest, ghost rest: Forest,
                      ghost all: set<Menu>)
    requires Nodes(Cons(n, kids, rest)) <= all
    requires Linked(n.list, n, kids, null) && Linked(n.next, p, rest, null)
    requires Distinct(Cons(n, kids, rest))
    modifies Nodes(Cons(n, kids, rest))
    ensures var (k, s) := Finalize(dep, n, kids, rest); Linked(n.list, n, k, null) && Linked(n.next, p, s, null)
    ensures n.parent == old(n.parent)
    decreases Size(kids) + Size(rest), 3
  {
    ghost var done := kids;
    ghost var behind := rest;
    if n.list != null {
      FinalizeAllKeeps(dep, kids);
      done := FinalizeAll(dep, kids);
      NothingBehind(kids);
      NothingBehind(done);
      FinalizeChildren(dep, n, kids, all);
    } else if n.hasSym {
      AbsorbKeeps(dep, n, rest);
      done := Absorb(dep, n, rest).0;
      behind := Absorb(dep, n, rest).1;
      NothingBehind(rest);
      AbsorbSiblings(dep, n, p, rest, all);
    }
    assert Apart(done, behind) && n !in Nodes(done) && n !in Nodes(behind);
    FlattenChildren(n, done, all);
  }

  /** The loop over the children of n. */
  method FinalizeChildren(dep: Dependency, n: Menu, ghost kids: Forest, ghost all: set<Menu>)
    requires n in all && Nodes(kids) <= all
    requires Linked(n.list, n, kids, null) && Distinct(kids) && n !in Nodes(kids)
    modifies Nodes(kids)
    ensures Linked(n.list, n, FinalizeAll(dep, kids), null)
    decreases Size(kids), 1
  {
    var menu := n.list;
    ghost var done, todo := Nil, kids;
    while menu != null
      invariant Linked(n.list, n, done, menu) && Linked(menu, n, todo, null)
      invariant Apart(done, todo) && Nodes(done) + Nodes(todo) == Nodes(kids)
      invariant FinalizeAll(dep, kids) == Append(done, FinalizeAll(dep, todo))
      invariant Size(todo) <= Size(kids)
      decreases Size(todo)
    {
      ghost var Cons(_, k0, r0) := todo;
      ghost var (k, s) := Finalize(dep, menu, k0, r0);
      FinalizeKeeps(dep, menu, k0, r0);
      MoveFirst(done, menu, k0, r0, k, s);
      FinalizeMenu(dep, menu, n, k0, r0, all);
      AppendLinked(n.list, n, done, menu, Single(menu, k), menu.next);
      AppendFacts(done, Single(menu, k), FinalizeAll(dep, s));
      done, todo := Append(done, Single(menu, k)), s;
      menu := menu.next;
    }
    AppendFacts(done, Nil, Nil);
  }

  /** Automatic submenu creation below the childless node n: the run of dependent
      siblings is finalized one by one and then becomes the list of n. */
  method AbsorbSiblings(dep: Dependency, n: Menu, ghost p: Menu, ghost rest: Forest, ghost all: set<Menu>)
    requires n in all && Nodes(rest) <= all
    requires n.list == null && Linked(n.next, p, rest, null) && Distinct(rest) && n !in Nodes(rest)
    modifies {n} + Nodes(rest)
    ensures var (a, b) := Absorb(dep, n, rest); Linked(n.list, n, a, null) && Linked(n.next, p, b, null)
    ensures n.parent == old(n.parent)
    decreases Size(rest), 1
  {
    ghost var (a, b) := Absorb(dep, n, rest);
    AbsorbKeeps(dep, n, rest);
    NothingBehind(rest);
    var last := FinalizeRun(dep, n, p, rest, all);
    if last != null {
      RunHasLast(n, last, a);
      CloseSubmenu(n, last, p, a, b, all);
    }
  }

  /** The run of siblings a, behind n, becomes the list of n. */
  method CloseSubmenu(n: Menu, last: Menu, ghost p: Menu, ghost a: Forest, ghost b: Forest, ghost all: set<Menu>)
    requires n in all && Nodes(a) + Nodes(b) <= all
    requires Run(n, last, a) && Linked(last.next, p, b, null)
    requires Apart(a, b) && n !in Nodes(a) && n !in Nodes(b)
    modifies n, last
    ensures Linked(n.list, n, a, null) && Linked(n.next, p, b, null)
    ensures n.parent == old(n.parent)
  {
    ghost var (done, lastKids) := SplitLast(a);
    SingleFacts(last, lastKids);
    AppendFacts(done, Single(last, lastKids), Nil);
    assert n != last && n !in Nodes(done) && n !in Nodes(lastKids) && n !in Nodes(b);
    assert last !in Nodes(done) && last !in Nodes(lastKids) && last !in Nodes(b);
    n.list := n.next;
    n.next := last.next;
    last.next := null;
    ghost var front := Linked(n.list, n, done, last);
    ghost var below := Linked(last.list, last, lastKids, null);
    ghost var behind := Linked(n.next, p, b, null);
    assert front && below && behind;
    AppendLinked(n.list, n, done, last, Single(last, lastKids), null);
  }

  /** The loop of automatic submenu creation: the last dependent sibling. */
  method FinalizeRun(dep: Dependency, n: Menu, ghost p: Menu, ghost rest: Forest, ghost all: set<Menu>)
    returns (last: Menu?)
    requires n in all && Nodes(rest) <= all
    requires Linked(n.next, p, rest, null) && Distinct(rest) && n !in Nodes(rest)
    modifies Nodes(rest)
    ensures var (a, b) := Absorb(dep, n, rest);
            && (last == null <==> a.Nil?)
            && (last == null ==> Linked(n.next, p, b, null))
            && (last != null ==> Run(n, last, a) && Linked(last.next, p, b, null))
    decreases Size(rest), 0
  {
    last := null;
    var menu := n.next;
    ghost var taken, todo := Nil, rest;
    while menu != null && dep(n, menu)
      invariant last == null <==> taken.Nil?
      invariant menu == (if last == null then n.next else last.next)
      invariant last != null ==> var front := Run(n, last, taken); front
      invariant var behind := Linked(menu, p, todo, null); behind
      invariant Apart(taken, todo) && Nodes(taken) + Nodes(todo) == Nodes(rest)
      invariant var (a, b) := Absorb(dep, n, todo); Absorb(dep, n, rest) == (Append(taken, a), b)
      invariant Size(todo) <= Size(rest)
      decreases Size(todo)
    {
      ghost var (k, s) := Finalize(dep, menu, todo.kids, todo.rest);
      FinalizeKeeps(dep, menu, todo.kids, todo.rest);
      MoveFirst(taken, menu, todo.kids, todo.rest, k, s);
      AppendFacts(taken, Single(menu, k), Absorb(dep, n, s).0);
      FinalizeSibling(dep, n, last, menu, p, taken, todo.kids, todo.rest, all);
      taken, todo := Append(taken, Single(menu, k)), s;
      last := menu;
      menu := menu.next;
    }
    AppendFacts(taken, Nil, Nil);
  }

  /** One dependent sibling is finalized and joins the run. */
  method FinalizeSibling(dep: Dependency, n: Menu, last: Menu?, menu: Menu, ghost p: Menu, ghost taken: Forest,
                         ghost kids: Forest, ghost rest: Forest, ghost all: set<Menu>)
    requires n in all && Nodes(taken) + Nodes(Cons(menu, kids, rest)) <= all
    requires Apart(taken, Cons(menu, kids, rest)) && n !in Nodes(taken) && n !in Nodes(Cons(menu, kids, rest))
    requires if last == null then taken.Nil? && menu == n.next else Run(n, last, taken) && menu == last.next
    requires Linked(menu.list, menu, kids, null) && Linked(menu.next, p, rest, null)
    modifies Nodes(Cons(menu, kids, rest))
    ensures var (k, s) := Finalize(dep, menu, kids, rest);
            Run(n, menu, Append(taken, Single(menu, k))) && Linked(menu.next, p, s, null)
    decreases Size(kids) + Size(rest), 4
  {
    ghost var (k, s) := Finalize(dep, menu, kids, rest);
    FinalizeKeeps(dep, menu, kids, rest);
    MoveFirst(taken, menu, kids, rest, k, s);
    if last != null { RunHasLast(n, last, taken); }
    FinalizeMenu(dep, menu, p, kids, rest, all);
    if last != null {
      ghost var front := Run(n, last, taken);
      assert front;
    }
    AdoptSibling(n, last, menu, p, taken, k, s, all);
  }

  method AdoptSibling(n: Menu, last: Menu?, menu: Menu, ghost p: Menu, ghost taken: Forest, ghost k: Forest,
                      ghost s: Forest,
                      ghost all: set<Menu>)
    requires n in all && menu in all && Nodes(taken) + Nodes(k) + Nodes(s) <= all
    requires menu != n && menu !in Nodes(k) && menu !in Nodes(s) && menu !in Nodes(taken)
    requires if last == null then taken.Nil? && menu == n.next else Run(n, last, taken) && menu == last.next
    requires Linked(menu.list, menu, k, null) && Linked(menu.next, p, s, null)
    modifies menu
    ensures Run(n, menu, Append(taken, Single(menu, k))) && Linked(menu.next, p, s, null)
  {
    if last != null { RunIsLinked(n, last, taken, menu); }
    menu.parent := n;
    ghost var front := Linked(n.next, n, taken, menu);
    ghost var below := Linked(menu.list, menu, k, null);
    ghost var behind := Linked(menu.next, p, s, null);
    assert front && below && behind;
    SplitLastAppends(taken, menu, k);
  }

  /** The siblings f, the last of which is last, hang below n from its next
      pointer on. */
  ghost predicate Run(n: Menu, last: Menu, f: Forest)
    reads n, last, Nodes(f)
  {
    f.Cons? &&
    var (done, lastKids) := SplitLast(f);
    && f == Append(done, Single(last, lastKids))
    && (AppendFacts(done, Single(last, lastKids), Nil);
        SingleFacts(last, lastKids);
        Linked(n.next, n, done, last) && Linked(last.list, last, lastKids, null) && last.parent == n)
  }

  lemma RunHasLast(n: Menu, last: Menu, f: Forest)
    requires Run(n, last, f)
    ensures last in Nodes(f)
  {
    var (done, lastKids) := SplitLast(f);
    AppendFacts(done, Single(last, lastKids), Nil);
    SingleFacts(last, lastKids);
  }

  lemma RunIsLinked(n: Menu, last: Menu, f: Forest, end: Menu?)
    requires Run(n, last, f) && last.next == end
    ensures Linked(n.next, n, f, end)
  {
    var (done, lastKids) := SplitLast(f);
    AppendLinked(n.next, n, done, last, Single(last, lastKids), end);
  }

  /** The loop that moves the children of promptless nodes up behind them. */
  method FlattenChildren(n: Menu, ghost kids: Forest, ghost all: set<Menu>)
    requires n in all && Nodes(kids) <= all
    requires Linked(n.list, n, kids, null) && Distinct(kids) && n !in Nodes(kids)
    modifies Nodes(kids)
    ensures Linked(n.list, n, Flatten(kids), null)
  {
    var menu := n.list;
    ghost var done, todo := Nil, kids;
    while menu != null
      invariant Linked(n.list, n, done, menu) && Linked(menu, n, todo, null)
      invariant Apart(done, todo) && Nodes(done) + Nodes(todo) == Nodes(kids)
      invariant Flatten(kids) == Append(done, Flatten(todo))
      decreases Size(todo)
    {
      ghost var (k, s) := FlattenFirst(menu, todo.kids, todo.rest);
      MoveFirst(done, menu, todo.kids, todo.rest, k, s);
      FlattenOne(n, menu, done, todo.kids, todo.rest, all);
      AppendFacts(done, Single(menu, k), Flatten(s));
      done, todo := Append(done, Single(menu, k)), s;
      menu := menu.next;
    }
    AppendFacts(done, Nil, Nil);
  }

  /** One turn of that loop, behind the nodes done. */
  method FlattenOne(n: Menu, menu: Menu, ghost done: Forest, ghost k0: Forest, ghost r0: Forest, ghost all: set<Menu>)
    requires n in all && Nodes(done) + Nodes(Cons(menu, k0, r0)) <= all
    requires n !in Nodes(done) + Nodes(Cons(menu, k0, r0)) && Apart(done, Cons(menu, k0, r0))
    requires Linked(n.list, n, done, menu) && Linked(menu, n, Cons(menu, k0, r0), null)
    modifies {menu} + Nodes(k0)
    ensures var (k, s) := FlattenFirst(menu, k0, r0);
            Linked(n.list, n, Append(done, Single(menu, k)), menu.next) && Linked(menu.next, n, s, null)
  {
    ghost var (k, s) := FlattenFirst(menu, k0, r0);
    ConsFacts(menu, k0, r0);
    if menu.list != null && !menu.hasPrompt {
      SpliceChildren(n, menu, k0, r0, all);
      ghost var front := Linked(n.list, n, done, menu);
      assert front;
    }
    AppendLinked(n.list, n, done, menu, Single(menu, k), menu.next);
  }

  /** One step of Flatten: the children and the followers of the first node. */
  ghost function FlattenFirst(n: Menu, k: Forest, r: Forest): (res: (Forest, Forest))
    ensures SameNodes(res.0, res.1, k, r)
    ensures Flatten(Cons(n, k, r)) == Cons(n, res.0, Flatten(res.1))
    ensures Size(res.1) <= Size(k) + Size(r)
  {
    AppendFacts(k, r, Nil);
    NothingBehind(Append(k, r));
    if k.Cons? && !n.hasPrompt then (Nil, Append(k, r)) else (k, r)
  }

  /** The children of menu become siblings behind it. */
  method SpliceChildren(n: Menu, menu: Menu, ghost k: Forest, ghost r: Forest, ghost all: set<Menu>)
    requires n in all && Nodes(Cons(menu, k, r)) <= all
    requires menu.list != null && Linked(menu.list, menu, k, null) && Linked(menu.next, n, r, null)
    requires Distinct(Cons(menu, k, r))
    modifies {menu} + Nodes(k)
    ensures menu.list == null && Linked(menu.next, n, Append(k, r), null) && menu.parent == old(menu.parent)
  {
    var last := AdoptChildren(n, menu, k, all);
    JoinLast(n, menu, last, k, r, all);
    AppendFacts(k, r, Nil);
    ConsFacts(menu, k, r);
    assert menu !in Nodes(Append(k, r)) && Nodes(Append(k, r)) <= all;
    menu.next := menu.list;
    menu.list := null;
    ghost var spliced := Linked(menu.next, n, Append(k, r), null);
    assert spliced;
  }

  /** The last child gets the followers of menu as its own. */
  method JoinLast(n: Menu, menu: Menu, last: Menu, ghost k: Forest, ghost r: Forest, ghost all: set<Menu>)
    requires n in all && Nodes(Cons(menu, k, r)) <= all && Distinct(Cons(menu, k, r))
    requires k.Cons? && last in Nodes(k) && last.next == null && last.parent == n
    requires var (done, lastKids) := SplitLast(k);
             && k == Append(done, Single(last, lastKids))
             && Linked(menu.list, n, done, last) && Linked(last.list, last, lastKids, null)
    requires Linked(menu.next, n, r, null)
    modifies last`next
    ensures Linked(menu.list, n, Append(k, r), null)
  {
    ghost var (done, lastKids) := SplitLast(k);
    SingleFacts(last, lastKids);
    AppendFacts(done, Single(last, lastKids), r);
    AppendFacts(k, r, Nil);
    ConsFacts(menu, k, r);
    assert last !in Nodes(done) && last !in Nodes(lastKids) && last !in Nodes(r);
    last.next := menu.next;
    ghost var behind := Linked(last.next, n, r, null);
    ghost var front := Linked(menu.list, n, done, last);
    assert behind && front;
    AppendLinked(menu.list, n, done, last, Cons(last, lastKids, r), null);
  }

  /** A list of siblings as those before the last one and the last one's children. */
  ghost function SplitLast(f: Forest): (r: (Forest, Forest))
    requires f.Cons?
  {
    if f.rest.Nil? then (Nil, f.kids)
    else
      var (done, k) := SplitLast(f.rest);
      (Cons(f.node, f.kids, done), k)
  }

  lemma {:induction false} SplitLastAppends(done: Forest, n: Menu, k: Forest)
    ensures Append(done, Single(n, k)).Cons? && SplitLast(Append(done, Single(n, k))) == (done, k)
  {
    if done.Cons? {
      SplitLastAppends(done.rest, n, k);
      assert Append(done.rest, Single(n, k)).Cons?;
    }
  }

  /** The inner loop: every child of menu gets the parent n; the last child. */
  method AdoptChildren(n: Menu, menu: Menu, ghost k: Forest, ghost all: set<Menu>) returns (last: Menu)
    requires n in all && menu in all && Nodes(k) <= all
    requires menu.list != null && Linked(menu.list, menu, k, null) && Distinct(k) && menu !in Nodes(k)
    modifies Nodes(k)
    ensures k.Cons? && last in Nodes(k) && last.next == null && last.parent == n
    ensures var (done, lastKids) := SplitLast(k);
            && k == Append(done, Single(last, lastKids))
            && Linked(menu.list, n, done, last) && Linked(last.list, last, lastKids, null)
  {
    last := menu.list;
    ghost var done, lastKids, todo := Nil, k.kids, k.rest;
    last.parent := n;
    MoveFirst(Nil, last, lastKids, todo, lastKids, todo);
    while last.next != null
      invariant var front := Linked(menu.list, n, done, last); front
      invariant var below := Linked(last.list, last, lastKids, null); below
      invariant var behind := Linked(last.next, menu, todo, null); behind
      invariant last.parent == n
      invariant k == Append(done, Cons(last, lastKids, todo))
      invariant Apart(done, Cons(last, lastKids, todo)) && Nodes(done) + Nodes(Cons(last, lastKids, todo)) == Nodes(k)
      decreases Size(todo)
    {
      MoveFirst(done, last, lastKids, todo, lastKids, todo);
      AppendFacts(done, Single(last, lastKids), todo);
      AdoptNext(n, menu, last, done, lastKids, todo, all);
      done := Append(done, Single(last, lastKids));
      last := last.next;
      lastKids, todo := todo.kids, todo.rest;
    }
    SplitLastAppends(done, last, lastKids);
    ConsFacts(last, lastKids, todo);
  }

  /** The child behind last gets the parent n. */
  method AdoptNext(n: Menu, menu: Menu, last: Menu, ghost done: Forest, ghost lastKids: Forest, ghost todo: Forest,
                   ghost all: set<Menu>)
    requires n in all && menu in all && last in all && Nodes(done) + Nodes(lastKids) + Nodes(todo) <= all
    requires last.next != null && last.parent == n && Linked(menu.list, n, done, last)
    requires Linked(last.list, last, lastKids, null) && Linked(last.next, menu, todo, null)
    requires Apart(Append(done, Single(last, lastKids)), todo)
    modifies last.next
    ensures last.next == old(last.next) == todo.node && last.next.parent == n
    ensures Linked(menu.list, n, Append(done, Single(last, lastKids)), last.next)
    ensures Linked(last.next.list, last.next, todo.kids, null) && Linked(last.next.next, menu, todo.rest, null)
  {
    ConsFacts(todo.node, todo.kids, todo.rest);
    AppendFacts(done, Single(last, lastKids), todo);
    AppendLinked(menu.list, n, done, last, Single(last, lastKids), last.next);
    last.next.parent := n;
    ghost var before := Linked(menu.list, n, Append(done, Single(last, lastKids)), last.next);
    assert before;
  }

  // ----- The stackless walk -----

  /** The ancestors of a node below the root, nearest first, each with the
      siblings that follow it. */
  datatype Ancestors = Root | Below(node: Menu, rest: Forest, up: Ancestors)

  /** The node whose list the walk is in. */
  ghost function Owner(root: Menu, up: Ancestors): Menu { if up.Root? then root else up.node }

  ghost function AncestorNodes(up: Ancestors): set<Menu> {
    if up.Root? then {} else {up.node} + Nodes(up.rest) + AncestorNodes(up.up)
  }

  /** The pointers from the ancestors lead on to what is left to visit. */
  ghost predicate Climbs(root: Menu, up: Ancestors)
    reads root, AncestorNodes(up)
  {
    match up
    case Root => root.next == null && root.parent == null
    case Below(n, r, u) => n.parent == Owner(root, u) && Linked(n.next, Owner(root, u), r, null) && Climbs(root, u)
  }

  ghost function LeftAbove(up: Ancestors): seq<Menu> {
    if up.Root? then [] else Preorder(up.rest) + LeftAbove(up.up)
  }

  /** The walk of conf_write with the nodes it visits. It uses no stack: down to
      the list, else on to the next sibling, else up to the first ancestor with a
      next sibling. It visits every node below the root once, in preorder, and
      stops. */
  method Walk(root: Menu, ghost f: Forest) returns (visited: seq<Menu>)
    requires root.next == null && root.parent == null
    requires Linked(root.list, root, f, null)
    ensures visited == Preorder(f)
  {
    visited := [];
    var menu := root.list;
    ghost var here, up := f, Root;
    while menu != null
      invariant Linked(menu, Owner(root, up), here, null) && Climbs(root, up)
      invariant menu == null ==> up.Root?
      invariant visited + (Preorder(here) + LeftAbove(up)) == Preorder(f)
      decreases |Preorder(here)| + |LeftAbove(up)|
    {
      ghost var before := visited;
      visited := visited + [menu];
      ghost var k, r := here.kids, here.rest;
      OneVisited(before, menu, k, r, up);
      if menu.list != null {
        here, up := k, Below(menu, r, up);
        menu := menu.list;
      } else if menu.next != null {
        here := r;
        menu := menu.next;
      } else {
        menu, here, up := ClimbToNext(root, menu, up);
      }
    }
  }

  lemma OneVisited(visited: seq<Menu>, menu: Menu, k: Forest, r: Forest, up: Ancestors)
    ensures visited + (Preorder(Cons(menu, k, r)) + LeftAbove(up)) ==
            visited + [menu] + (Preorder(k) + LeftAbove(Below(menu, r, up)))
    ensures LeftAbove(Below(menu, r, up)) == Preorder(r) + LeftAbove(up)
    ensures k.Nil? ==> Preorder(k) + LeftAbove(Below(menu, r, up)) == Preorder(r) + LeftAbove(up)
    ensures r.Nil? ==> Preorder(r) + LeftAbove(up) == LeftAbove(up)
    ensures |Preorder(Cons(menu, k, r))| == 1 + |Preorder(k)| + |Preorder(r)|
  {
    assert Preorder(Cons(menu, k, r)) == [menu] + Preorder(k) + Preorder(r);
    Regroup(visited, menu, Preorder(k), Preorder(r), LeftAbove(up));
  }

  lemma Regroup<T>(v: seq<T>, m: T, k: seq<T>, r: seq<T>, a: seq<T>)
    ensures v + (([m] + k + r) + a) == v + [m] + (k + (r + a))
    ensures [] + (r + a) == r + a && [] + a == a
  {
  }

  /** The inner loop: up to the next sibling of the nearest ancestor that has one. */
  method ClimbToNext(root: Menu, from: Menu, ghost up: Ancestors)
    returns (menu: Menu?, ghost here: Forest, ghost left: Ancestors)
    requires from.parent == Owner(root, up) && Climbs(root, up)
    ensures Linked(menu, Owner(root, left), here, null) && Climbs(root, left)
    ensures menu == null ==> left.Root?
    ensures Preorder(here) + LeftAbove(left) == LeftAbove(up)
  {
    menu := from.parent;
    left := up;
    here := Nil;
    while menu != null
      invariant menu == Owner(root, left) || (menu == null && left.Root?)
      invariant Climbs(root, left) && LeftAbove(left) == LeftAbove(up)
      decreases left, menu != null
    {
      if menu.next != null {
        here := left.rest;
        left := left.up;
        menu := menu.next;
        return;
      }
      menu := menu.parent;
      left := if left.Below? then left.up else left;
    }
  }

  /** conf_parse restructures the whole tree and conf_write walks it: whatever the
      dependencies, every node below the root is visited exactly once, in the
      order in which the nodes were declared, and its parent is the nearest node
      with a prompt above it among those that take each other. */
  method FinalizeAndWalk(dep: Dependency, root: Menu, ghost f: Forest, ghost all: set<Menu>)
    returns (visited: seq<Menu>)
    requires Nodes(Cons(root, f, Nil)) <= all && Distinct(Cons(root, f, Nil))
    requires root.next == null && root.parent == null && Linked(root.list, root, f, null)
    modifies Nodes(Cons(root, f, Nil))
    ensures visited == Preorder(f)
    ensures forall i, j :: 0 <= i < j < |visited| ==> visited[i] != visited[j]
    ensures forall m :: m in Nodes(f) <==> m in visited
    ensures forall x :: x in Nodes(f) ==>
              var taker := Taker(dep, f, root, [], x);
              taker in Nodes(f) + {root} && x.parent == if taker == root || taker.hasPrompt then taker else taker.parent
  {
    ghost var (k, s) := Finalize(dep, root, f, Nil);
    FinalizeKeeps(dep, root, f, Nil);
    NothingBehind(f);
    NothingBehind(k);
    FinalizeMenu(dep, root, root, f, Nil, all);
    NothingLeftBehind(dep, root, f);
    visited := Walk(root, k);
    DistinctOrder(f);
    PointersAfterwards(dep, root, f);
  }

  /** Nothing is left behind a node without following siblings. */
  lemma NothingLeftBehind(dep: Dependency, n: Menu, f: Forest)
    ensures Finalize(dep, n, f, Nil).1.Nil?
  {
  }

  lemma {:induction false} DistinctOrder(f: Forest)
    requires Distinct(f)
    ensures forall m :: m in Nodes(f) <==> m in Preorder(f)
    ensures forall i, j :: 0 <= i < j < |Preorder(f)| ==> Preorder(f)[i] != Preorder(f)[j]
  {
    if f.Cons? {
      DistinctOrder(f.kids);
      DistinctOrder(f.rest);
      ConcatDistinct(f.node, Preorder(f.kids), Preorder(f.rest), Nodes(f.kids), Nodes(f.rest));
    }
  }

  lemma ConcatDistinct<T>(x: T, a: seq<T>, b: seq<T>, s: set<T>, t: set<T>)
    requires forall i, j :: 0 <= i < j < |a| ==> a[i] != a[j]
    requires forall i, j :: 0 <= i < j < |b| ==> b[i] != b[j]
    requires forall m :: m in s <==> m in a
    requires forall m :: m in t <==> m in b
    requires s !! t && x !in s && x !in t
    ensures forall i, j :: 0 <= i < j < |[x] + a + b| ==> ([x] + a + b)[i] != ([x] + a + b)[j]
  {
    forall i, j | 0 <= i < j < |[x] + a + b| ensures ([x] + a + b)[i] != ([x] + a + b)[j] {
      if i > 0 && i <= |a| && j > |a| {
        assert a[i - 1] in s && b[j - 1 - |a|] in t;
      } else if i == 0 && j <= |a| {
        assert a[j - 1] in s;
      } else if i == 0 {
        assert b[j - 1 - |a|] in t;
      }
    }
  }
}
