// Restructuring of the menu tree and the walk over it
// (tools/kconfig/menu.c: menu_finalize; tools/kconfig/confdata.c: conf_write).
module MenuTree {

  /** struct menu: the pointers menu_finalize rewires, whether the node has a
      symbol, and whether it has a prompt with a text. */
  class Menu {
    var next: Menu?
    var parent: Menu?
    var list: Menu?
    const hasSym: bool
    const hasPrompt: bool

    constructor (hasSym: bool, hasPrompt: bool)
      ensures this.hasSym == hasSym && this.hasPrompt == hasPrompt && next == parent == list == null
    {
      this.hasSym, this.hasPrompt := hasSym, hasPrompt;
      next, parent, list := null, null, null;
    }
  }

  /** A list of sibling nodes, each with the list of its children. */
  datatype Forest = Nil | Cons(node: Menu, kids: Forest, rest: Forest)

  ghost function Nodes(f: Forest): set<Menu> {
    if f.Nil? then {} else {f.node} + Nodes(f.kids) + Nodes(f.rest)
  }

  ghost predicate Distinct(f: Forest) {
    f.Cons? ==>
      && f.node !in Nodes(f.kids) + Nodes(f.rest) && Nodes(f.kids) !! Nodes(f.rest)
      && Distinct(f.kids) && Distinct(f.rest)
  }

  function Size(f: Forest): nat { if f.Nil? then 0 else 1 + Size(f.kids) + Size(f.rest) }

  function Preorder(f: Forest): seq<Menu> {
    if f.Nil? then [] else [f.node] + Preorder(f.kids) + Preorder(f.rest)
  }

  /** The next pointers from head up to end spell f, the list pointers its
      children, and every parent pointer names the node whose list holds the
      node, p for the top ones. */
  ghost predicate Linked(head: Menu?, p: Menu, f: Forest, end: Menu?)
    reads Nodes(f)
  {
    match f
    case Nil => head == end
    case Cons(n, k, r) => head == n && n.parent == p && Linked(n.list, n, k, null) && Linked(n.next, p, r, end)
  }

  function Append(f: Forest, g: Forest): Forest {
    if f.Nil? then g else Cons(f.node, f.kids, Append(f.rest, g))
  }

  function Single(n: Menu, kids: Forest): Forest { Cons(n, kids, Nil) }

  lemma {:induction false} AppendFacts(f: Forest, g: Forest, h: Forest)
    ensures Nodes(Append(f, g)) == Nodes(f) + Nodes(g)
    ensures Preorder(Append(f, g)) == Preorder(f) + Preorder(g)
    ensures Size(Append(f, g)) == Size(f) + Size(g)
    ensures Append(Append(f, g), h) == Append(f, Append(g, h))
    ensures Append(f, Nil) == f
    ensures Distinct(Append(f, g)) <==> Distinct(f) && Distinct(g) && Nodes(f) !! Nodes(g)
  {
    if f.Cons? { AppendFacts(f.rest, g, h); }
    AppendNodes(f, g);
    AppendDistinct(f, g);
  }

  lemma {:induction false} AppendNodes(f: Forest, g: Forest)
    ensures Nodes(Append(f, g)) == Nodes(f) + Nodes(g)
    ensures Preorder(Append(f, g)) == Preorder(f) + Preorder(g)
  {
    if f.Cons? { AppendNodes(f.rest, g); }
  }

  lemma {:induction false} AppendDistinct(f: Forest, g: Forest)
    ensures Distinct(Append(f, g)) <==> Distinct(f) && Distinct(g) && Nodes(f) !! Nodes(g)
  {
    if f.Cons? {
      AppendDistinct(f.rest, g);
      AppendNodes(f.rest, g);
    }
  }

  lemma {:induction false} AppendLinked(head: Menu?, p: Menu, f: Forest, middle: Menu?, g: Forest, end: Menu?)
    requires Linked(head, p, f, middle) && Linked(middle, p, g, end)
    ensures Linked(head, p, Append(f, g), end)
  {
    if f.Cons? { AppendLinked(f.node.next, p, f.rest, middle, g, end); }
  }

  // ----- The restructuring as a function on forests -----

  /** Whether a node depends on the symbol of another: any relation will do. */
  type Dependency = (Menu, Menu) -> bool

  /** menu_finalize for a node with the given children and following siblings:
      its children and following siblings afterwards. */
  function Finalize(dep: Dependency, n: Menu, kids: Forest, rest: Forest): (r: (Forest, Forest))
    ensures Size(r.0) + Size(r.1) == Size(kids) + Size(rest)
    decreases Size(kids) + Size(rest), 1
  {
    var (k, s) :=
      if kids.Cons? then (FinalizeAll(dep, kids), rest)
      else if n.hasSym then Absorb(dep, n, rest)
      else (Nil, rest);
    (Flatten(k), s)
  }

  function FinalizeAll(dep: Dependency, f: Forest): (r: Forest)
    ensures Size(r) == Size(f)
    decreases Size(f), 0
  {
    if f.Nil? then Nil
    else
      var (k, s) := Finalize(dep, f.node, f.kids, f.rest);
      Cons(f.node, k, FinalizeAll(dep, s))
  }

  /** The automatic submenu: the longest run of siblings that depend on n, each
      finalized before the next is looked at, and the siblings left. */
  function Absorb(dep: Dependency, n: Menu, f: Forest): (r: (Forest, Forest))
    ensures Size(r.0) + Size(r.1) == Size(f)
    decreases Size(f), 0
  {
    if f.Nil? || !dep(n, f.node) then (Nil, f)
    else
      var (k, s) := Finalize(dep, f.node, f.kids, f.rest);
      var (a, b) := Absorb(dep, n, s);
      (Cons(f.node, k, a), b)
  }

  /** Children of nodes without a prompt move up behind the node. */
  function Flatten(f: Forest): (r: Forest)
    ensures Size(r) == Size(f)
    decreases Size(f)
  {
    if f.Nil? then Nil
    else if f.kids.Cons? && !f.node.hasPrompt then
      AppendFacts(f.kids, f.rest, Nil);
      Cons(f.node, Nil, Flatten(Append(f.kids, f.rest)))
    else Cons(f.node, f.kids, Flatten(f.rest))
  }

  // ----- What the restructuring keeps -----

  /** Two pairs of forests list the same nodes in the same order, each once. */
  ghost predicate SameNodes(a: Forest, b: Forest, c: Forest, d: Forest) {
    && Preorder(a) + Preorder(b) == Preorder(c) + Preorder(d)
    && Nodes(a) + Nodes(b) == Nodes(c) + Nodes(d)
    && (Apart(a, b) <==> Apart(c, d))
  }

  ghost predicate Apart(a: Forest, b: Forest) { Distinct(a) && Distinct(b) && Nodes(a) !! Nodes(b) }

  /** Rewriting below and behind a first node, then rewriting what is behind it. */
  lemma SameNodesCons(n: Menu, kids: Forest, rest: Forest, k: Forest, s: Forest, a: Forest, b: Forest)
    requires SameNodes(k, s, kids, rest) && SameNodes(a, b, s, Nil)
    ensures SameNodes(Cons(n, k, a), b, Cons(n, kids, rest), Nil)
  {
    ConsOrder([n], Preorder(k), Preorder(s), Preorder(a), Preorder(b), Preorder(kids), Preorder(rest));
    assert Preorder(Nil) == [] && Nodes(Nil) == {};
    assert Nodes(Cons(n, k, a)) + Nodes(b) == {n} + (Nodes(k) + (Nodes(a) + Nodes(b)));
    assert Nodes(Cons(n, kids, rest)) + {} == {n} + (Nodes(kids) + Nodes(rest));
    ConsApart(n, kids, rest, k, s, a, b);
  }

  lemma ConsOrder<T>(n: seq<T>, k: seq<T>, s: seq<T>, a: seq<T>, b: seq<T>, kids: seq<T>, rest: seq<T>)
    requires k + s == kids + rest && a + b == s
    ensures n + k + a + b == n + kids + rest
  {
    assert n + k + a + b == n + (k + s);
    assert n + kids + rest == n + (kids + rest);
  }

  lemma ConsApart(n: Menu, kids: Forest, rest: Forest, k: Forest, s: Forest, a: Forest, b: Forest)
    requires SameNodes(k, s, kids, rest) && SameNodes(a, b, s, Nil)
    ensures Apart(Cons(n, k, a), b) <==> Apart(Cons(n, kids, rest), Nil)
  {
    ConsFacts(n, kids, rest);
    ConsFacts(n, k, a);
    NothingBehind(Cons(n, kids, rest));
    NothingBehind(s);
    SplitApart(n, Nodes(k), Nodes(a), Nodes(b), Nodes(s));
  }

  lemma SplitApart<T>(n: T, k: set<T>, a: set<T>, b: set<T>, s: set<T>)
    requires a + b == s
    ensures n !in k + a && k !! a && {n} + (k + a) !! b <==> n !in k + s && k !! s && a !! b
  {
  }

  lemma NothingBehind(f: Forest)
    ensures Preorder(f) + Preorder(Nil) == Preorder(f) == Preorder(Nil) + Preorder(f)
    ensures Nodes(f) + Nodes(Nil) == Nodes(f) && (Apart(f, Nil) <==> Distinct(f))
  {
  }

  lemma {:induction false} FinalizeKeeps(dep: Dependency, n: Menu, kids: Forest, rest: Forest)
    ensures var (k, s) := Finalize(dep, n, kids, rest); SameNodes(k, s, kids, rest)
    decreases Size(kids) + Size(rest), 1
  {
    if kids.Cons? {
      FinalizeAllKeeps(dep, kids);
      FlattenKeeps(FinalizeAll(dep, kids));
      NothingBehind(Flatten(FinalizeAll(dep, kids)));
      NothingBehind(FinalizeAll(dep, kids));
      NothingBehind(kids);
    } else if n.hasSym {
      AbsorbKeeps(dep, n, rest);
      FlattenKeeps(Absorb(dep, n, rest).0);
      NothingBehind(Flatten(Absorb(dep, n, rest).0));
      NothingBehind(Absorb(dep, n, rest).0);
      NothingBehind(rest);
    }
  }

  lemma {:induction false} FinalizeAllKeeps(dep: Dependency, f: Forest)
    ensures SameNodes(FinalizeAll(dep, f), Nil, f, Nil)
    decreases Size(f), 0
  {
    if f.Cons? {
      var (k, s) := Finalize(dep, f.node, f.kids, f.rest);
      FinalizeKeeps(dep, f.node, f.kids, f.rest);
      FinalizeAllKeeps(dep, s);
      SameNodesCons(f.node, f.kids, f.rest, k, s, FinalizeAll(dep, s), Nil);
    }
  }

  lemma {:induction false} AbsorbKeeps(dep: Dependency, n: Menu, f: Forest)
    ensures var (a, b) := Absorb(dep, n, f); SameNodes(a, b, f, Nil)
    decreases Size(f), 0
  {
    if f.Cons? && dep(n, f.node) {
      var (k, s) := Finalize(dep, f.node, f.kids, f.rest);
      var (a, b) := Absorb(dep, n, s);
      FinalizeKeeps(dep, f.node, f.kids, f.rest);
      AbsorbKeeps(dep, n, s);
      SameNodesCons(f.node, f.kids, f.rest, k, s, a, b);
    }
  }

  lemma {:induction false} FlattenKeeps(f: Forest)
    ensures SameNodes(Flatten(f), Nil, f, Nil)
    decreases Size(f)
  {
    if f.Cons? {
      if f.kids.Cons? && !f.node.hasPrompt {
        var s := Append(f.kids, f.rest);
        AppendFacts(f.kids, f.rest, Nil);
        FlattenKeeps(s);
        assert SameNodes(Nil, s, f.kids, f.rest);
        SameNodesCons(f.node, f.kids, f.rest, Nil, s, Flatten(s), Nil);
      } else {
        FlattenKeeps(f.rest);
        assert SameNodes(f.kids, f.rest, f.kids, f.rest);
        SameNodesCons(f.node, f.kids, f.rest, f.kids, f.rest, Flatten(f.rest), Nil);
      }
    }
  }

  lemma SingleFacts(n: Menu, k: Forest)
    ensures Nodes(Single(n, k)) == {n} + Nodes(k)
    ensures Distinct(Single(n, k)) <==> n !in Nodes(k) && Distinct(k)
  {
    assert Nodes(Nil) == {};
  }

  lemma ConsFacts(n: Menu, k: Forest, r: Forest)
    ensures Nodes(Cons(n, k, r)) == {n} + (Nodes(k) + Nodes(r))
    ensures Distinct(Cons(n, k, r)) <==> n !in Nodes(k) + Nodes(r) && Apart(k, r)
  {
  }

  /** The first node of the forest still to do, its children and followers
      rewritten to k and s, moves to the end of the forest done. */
  lemma MoveFirst(done: Forest, n: Menu, k0: Forest, r0: Forest, k: Forest, s: Forest)
    requires Apart(done, Cons(n, k0, r0)) && SameNodes(k, s, k0, r0)
    ensures Apart(Append(done, Single(n, k)), s)
    ensures Nodes(Append(done, Single(n, k))) + Nodes(s) == Nodes(done) + Nodes(Cons(n, k0, r0))
    ensures n !in Nodes(k) + Nodes(s) && Apart(k, s)
    ensures Nodes(done) !! {n} + (Nodes(k) + Nodes(s))
  {
    AppendFacts(done, Single(n, k), s);
    SingleFacts(n, k);
    ConsFacts(n, k0, r0);
    ApartUnion(Nodes(done), n, Nodes(k), Nodes(s), Nodes(k0) + Nodes(r0));
  }

  lemma ApartUnion<T>(d: set<T>, n: T, k: set<T>, s: set<T>, x: set<T>)
    requires k + s == x && n !in x && k !! s && d !! {n} + x
    ensures d !! {n} + k && d + ({n} + k) !! s && (d + ({n} + k)) + s == d + ({n} + x) && d !! {n} + (k + s)
  {
  }

  // ----- What the restructuring achieves -----

  /** No node without a prompt keeps children, at any depth. */
  predicate Flat(f: Forest) {
    f.Cons? ==> (f.kids.Cons? ==> f.node.hasPrompt) && Flat(f.kids) && Flat(f.rest)
  }

  predicate KidsFlat(f: Forest) { f.Cons? ==> Flat(f.kids) && KidsFlat(f.rest) }

  lemma {:induction false} FlattenFlattens(f: Forest)
    requires KidsFlat(f)
    ensures Flat(Flatten(f))
    decreases Size(f)
  {
    if f.Cons? {
      if f.kids.Cons? && !f.node.hasPrompt {
        AppendFacts(f.kids, f.rest, Nil);
        FlatAppend(f.kids, f.rest);
        FlattenFlattens(Append(f.kids, f.rest));
      } else {
        FlattenFlattens(f.rest);
      }
    }
  }

  lemma {:induction false} FlatAppend(f: Forest, g: Forest)
    requires Flat(f) && KidsFlat(g)
    ensures KidsFlat(Append(f, g))
  {
    if f.Cons? { FlatAppend(f.rest, g); }
  }

  /** After menu_finalize no promptless node below the given one has children. */
  lemma {:induction false} FinalizeFlattens(dep: Dependency, n: Menu, kids: Forest, rest: Forest)
    ensures Flat(Finalize(dep, n, kids, rest).0)
    decreases Size(kids) + Size(rest), 1
  {
    if kids.Cons? {
      FinalizeAllFlattens(dep, kids);
      FlattenFlattens(FinalizeAll(dep, kids));
    } else if n.hasSym {
      AbsorbFlattens(dep, n, rest);
      FlattenFlattens(Absorb(dep, n, rest).0);
    }
  }

  lemma {:induction false} FinalizeAllFlattens(dep: Dependency, f: Forest)
    ensures KidsFlat(FinalizeAll(dep, f))
    decreases Size(f), 0
  {
    if f.Cons? {
      FinalizeFlattens(dep, f.node, f.kids, f.rest);
      FinalizeAllFlattens(dep, Finalize(dep, f.node, f.kids, f.rest).1);
    }
  }

  lemma {:induction false} AbsorbFlattens(dep: Dependency, n: Menu, f: Forest)
    ensures KidsFlat(Absorb(dep, n, f).0)
    decreases Size(f), 0
  {
    if f.Cons? && dep(n, f.node) {
      FinalizeFlattens(dep, f.node, f.kids, f.rest);
      AbsorbFlattens(dep, n, Finalize(dep, f.node, f.kids, f.rest).1);
    }
  }

  predicate AllDepend(dep: Dependency, n: Menu, f: Forest) { f.Cons? ==> dep(n, f.node) && AllDepend(dep, n, f.rest) }

  /** The automatic submenu takes dependent siblings only, and stops only at the
      end or at a sibling that does not depend on the symbol. */
  lemma {:induction false} AbsorbIsMaximal(dep: Dependency, n: Menu, f: Forest)
    ensures var (a, b) := Absorb(dep, n, f); AllDepend(dep, n, a) && (b.Cons? ==> !dep(n, b.node))
    decreases Size(f)
  {
    if f.Cons? && dep(n, f.node) {
      AbsorbIsMaximal(dep, n, Finalize(dep, f.node, f.kids, f.rest).1);
    }
  }
}
