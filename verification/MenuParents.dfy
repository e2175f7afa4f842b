// Which node is whose parent after menu_finalize (tools/kconfig/menu.c).
module MenuParents {
  import opened MenuTree

  // ----- The parent of a node, and the nearest node with a prompt above it -----

  /** The node in whose list x stands, p for the top ones of f. */
  ghost function ParentIn(f: Forest, p: Menu?, x: Menu): Menu? {
    if f.Nil? || f.node == x then p
    else if x in Nodes(f.kids) then ParentIn(f.kids, f.node, x)
    else ParentIn(f.rest, p, x)
  }

  /** The nearest node with a prompt above x, p where there is none in f. */
  ghost function PromptAbove(f: Forest, p: Menu?, x: Menu): Menu? {
    if f.Nil? || f.node == x then p
    else if x in Nodes(f.kids) then PromptAbove(f.kids, if f.node.hasPrompt then f.node else p, x)
    else PromptAbove(f.rest, p, x)
  }

  /** The pointers of a linked forest name these parents. */
  lemma {:induction false} PointersNameParents(head: Menu?, p: Menu, f: Forest, end: Menu?, x: Menu)
    requires Linked(head, p, f, end) && Distinct(f) && x in Nodes(f)
    ensures x.parent == ParentIn(f, p, x)
  {
    if x in Nodes(f.kids) {
      PointersNameParents(f.node.list, f.node, f.kids, null, x);
    } else if x in Nodes(f.rest) {
      PointersNameParents(f.node.next, p, f.rest, end, x);
    }
  }

  lemma {:induction false} ParentInAppend(f: Forest, g: Forest, p: Menu?, x: Menu)
    ensures ParentIn(Append(f, g), p, x) == if x in Nodes(f) then ParentIn(f, p, x) else ParentIn(g, p, x)
  {
    if f.Cons? {
      AppendNodes(f.rest, g);
      ParentInAppend(f.rest, g, p, x);
    }
  }

  /** A node hangs below the nearest node with a prompt: either its parent is
      one, or it hangs where its parent does. */
  lemma {:induction false} PromptAboveClimbs(f: Forest, p: Menu, t: Menu?, x: Menu)
    requires Distinct(f) && p !in Nodes(f) && x in Nodes(f)
    ensures var q := ParentIn(f, p, x);
            if q == p then PromptAbove(f, t, x) == t
            else q in Nodes(f) && PromptAbove(f, t, x) == if q.hasPrompt then q else PromptAbove(f, t, q)
  {
    var t' := if f.node.hasPrompt then f.node else t;
    if f.node == x {
    } else if x in Nodes(f.kids) {
      PromptAboveClimbs(f.kids, f.node, t', x);
    } else {
      PromptAboveClimbs(f.rest, p, t, x);
    }
  }

  lemma {:induction false} ParentIsInside(f: Forest, p: Menu, x: Menu)
    ensures ParentIn(f, p, x) in Nodes(f) + {p}
  {
    if f.Cons? {
      if x in Nodes(f.kids) { ParentIsInside(f.kids, f.node, x); } else { ParentIsInside(f.rest, p, x); }
    }
  }

  // ----- The tree before flattening -----

  /** menu_finalize without its last loop: only automatic submenus. */
  function Nest(dep: Dependency, n: Menu, kids: Forest, rest: Forest): (r: (Forest, Forest))
    ensures Size(r.0) + Size(r.1) == Size(kids) + Size(rest)
    decreases Size(kids) + Size(rest), 1
  {
    if kids.Cons? then (NestAll(dep, kids), rest)
    else if n.hasSym then NestRun(dep, n, rest)
    else (Nil, rest)
  }

  function NestAll(dep: Dependency, f: Forest): (r: Forest)
    ensures Size(r) == Size(f)
    decreases Size(f), 0
  {
    if f.Nil? then Nil
    else
      var (k, s) := Nest(dep, f.node, f.kids, f.rest);
      Cons(f.node, k, NestAll(dep, s))
  }

  function NestRun(dep: Dependency, n: Menu, f: Forest): (r: (Forest, Forest))
    ensures Size(r.0) + Size(r.1) == Size(f)
    decreases Size(f), 0
  {
    if f.Nil? || !dep(n, f.node) then (Nil, f)
    else
      var (k, s) := Nest(dep, f.node, f.kids, f.rest);
      var (a, b) := NestRun(dep, n, s);
      (Cons(f.node, k, a), b)
  }

  // ----- Flattening moves a node below the nearest prompt -----

  /** Every node of n hangs in f below the nearest prompt above it in n. */
  ghost predicate Settled(f: Forest, n: Forest) {
    Nodes(f) == Nodes(n) && forall x :: x in Nodes(n) ==> ParentIn(f, null, x) == PromptAbove(n, null, x)
  }

  /** What is above the top nodes is seen from them only. */
  lemma {:induction false} TopIsFree(f: Forest, p: Menu?, x: Menu)
    ensures ParentIn(f, p, x) == if ParentIn(f, null, x) == null then p else ParentIn(f, null, x)
    ensures PromptAbove(f, p, x) == if PromptAbove(f, null, x) == null then p else PromptAbove(f, null, x)
  {
    if f.Cons? {
      if x in Nodes(f.kids) {
        TopIsFree(f.kids, f.node, x);
        TopIsFree(f.kids, p, x);
      } else {
        TopIsFree(f.rest, p, x);
      }
    }
  }

  /** The same siblings, the children of each settled. */
  ghost predicate KidsSettled(f: Forest, n: Forest) {
    if f.Nil? || n.Nil? then f.Nil? && n.Nil?
    else f.node == n.node && Settled(f.kids, n.kids) && KidsSettled(f.rest, n.rest)
  }

  /** Children already flat are left as they are. */
  lemma {:induction false} FlattenPrefix(f: Forest, g: Forest)
    requires Flat(f)
    ensures Flatten(Append(f, g)) == Append(f, Flatten(g))
  {
    if f.Cons? { FlattenPrefix(f.rest, g); }
  }

  lemma {:induction false} FlattenSettles(f: Forest, n: Forest)
    requires KidsSettled(f, n) && KidsFlat(f)
    ensures Settled(Flatten(f), n)
  {
    if f.Cons? {
      FlattenSettles(f.rest, n.rest);
      var up := f.kids.Cons? && !f.node.hasPrompt;
      FlattenPrefix(f.kids, f.rest);
      AppendNodes(f.kids, Flatten(f.rest));
      forall x | x in Nodes(n) ensures ParentIn(Flatten(f), null, x) == PromptAbove(n, null, x) {
        TopIsFree(f.kids, f.node, x);
        TopIsFree(n.kids, f.node, x);
        if up { ParentInAppend(f.kids, Flatten(f.rest), null, x); }
      }
      assert f.kids.Nil? ==> f.node !in Nodes(f.kids) && Nodes(n.kids) == {};
    }
  }

  lemma {:induction false} FinalizeSettles(dep: Dependency, n: Menu, kids: Forest, rest: Forest)
    ensures var (k, s) := Finalize(dep, n, kids, rest);
            s == Nest(dep, n, kids, rest).1 && Settled(k, Nest(dep, n, kids, rest).0)
    decreases Size(kids) + Size(rest), 1
  {
    if kids.Cons? {
      FinalizeAllSettles(dep, kids);
      FinalizeAllFlattens(dep, kids);
      FlattenSettles(FinalizeAll(dep, kids), NestAll(dep, kids));
    } else if n.hasSym {
      AbsorbSettles(dep, n, rest);
      AbsorbFlattens(dep, n, rest);
      FlattenSettles(Absorb(dep, n, rest).0, NestRun(dep, n, rest).0);
    }
  }

  lemma {:induction false} FinalizeAllSettles(dep: Dependency, f: Forest)
    ensures KidsSettled(FinalizeAll(dep, f), NestAll(dep, f))
    decreases Size(f), 0
  {
    if f.Cons? {
      FinalizeSettles(dep, f.node, f.kids, f.rest);
      FinalizeAllSettles(dep, Finalize(dep, f.node, f.kids, f.rest).1);
    }
  }

  lemma {:induction false} AbsorbSettles(dep: Dependency, n: Menu, f: Forest)
    ensures Absorb(dep, n, f).1 == NestRun(dep, n, f).1
    ensures KidsSettled(Absorb(dep, n, f).0, NestRun(dep, n, f).0)
    decreases Size(f), 0
  {
    if f.Cons? && dep(n, f.node) {
      FinalizeSettles(dep, f.node, f.kids, f.rest);
      AbsorbSettles(dep, n, Finalize(dep, f.node, f.kids, f.rest).1);
    }
  }

  // ----- Automatic submenus -----

  /** The nodes whose submenu is still open when x comes: the last of them that
      x depends on, and those around it. */
  function StillOpen(dep: Dependency, open: seq<Menu>, x: Menu): seq<Menu> {
    if open == [] || dep(open[|open| - 1], x) then open else StillOpen(dep, open[..|open| - 1], x)
  }

  /** Who takes x: its siblings are read from left to right; a symbol without
      children opens a submenu, which closes at the first sibling that depends
      neither on it nor on a submenu within it. The node takes x whose submenu
      is the innermost one left open, p if none is. */
  ghost function Taker(dep: Dependency, f: Forest, p: Menu, open: seq<Menu>, x: Menu): Menu
    decreases f
  {
    if f.Nil? then p
    else
      var left := StillOpen(dep, open, f.node);
      if f.node == x then (if left == [] then p else left[|left| - 1])
      else if x in Nodes(f.kids) then Taker(dep, f.kids, f.node, [], x)
      else Taker(dep, f.rest, p, if f.kids.Nil? && f.node.hasSym then left + [f.node] else left, x)
  }

  lemma StillOpenLast(dep: Dependency, open: seq<Menu>, n: Menu, x: Menu)
    ensures StillOpen(dep, open + [n], x) == if dep(n, x) then open + [n] else StillOpen(dep, open, x)
  {
    assert (open + [n])[..|open|] == open;
  }

  lemma {:induction false} NestKeeps(dep: Dependency, n: Menu, kids: Forest, rest: Forest)
    ensures var (k, s) := Nest(dep, n, kids, rest);
            && Nodes(k) + Nodes(s) == Nodes(kids) + Nodes(rest)
            && (Apart(kids, rest) ==> Apart(k, s))
    decreases Size(kids) + Size(rest), 1
  {
    if kids.Cons? { NestAllKeeps(dep, kids); } else if n.hasSym { NestRunKeeps(dep, n, rest); }
  }

  lemma {:induction false} NestAllKeeps(dep: Dependency, f: Forest)
    ensures Nodes(NestAll(dep, f)) == Nodes(f)
    ensures Distinct(f) ==> Distinct(NestAll(dep, f))
    decreases Size(f), 0
  {
    if f.Cons? {
      NestKeeps(dep, f.node, f.kids, f.rest);
      NestAllKeeps(dep, Nest(dep, f.node, f.kids, f.rest).1);
      assert Nodes(f) == {f.node} + (Nodes(f.kids) + Nodes(f.rest));
    }
  }

  lemma {:induction false} NestRunKeeps(dep: Dependency, n: Menu, f: Forest)
    ensures var (a, b) := NestRun(dep, n, f);
            Nodes(a) + Nodes(b) == Nodes(f) && (Distinct(f) ==> Apart(a, b))
    decreases Size(f), 0
  {
    if f.Cons? && dep(n, f.node) {
      NestKeeps(dep, f.node, f.kids, f.rest);
      NestRunKeeps(dep, n, Nest(dep, f.node, f.kids, f.rest).1);
      assert Nodes(f) == {f.node} + (Nodes(f.kids) + Nodes(f.rest));
    }
  }

  /** Below n: the parents are those Taker names. Behind n: reading goes on with
      the submenus that were open before n. */
  lemma {:induction false} NestTakes(dep: Dependency, n: Menu, kids: Forest, rest: Forest, p: Menu, open: seq<Menu>,
                                     x: Menu)
    requires Distinct(Cons(n, kids, rest))
    ensures var (k, s) := Nest(dep, n, kids, rest);
            var inner := if kids.Nil? && n.hasSym then open + [n] else open;
            && (x in Nodes(k) ==>
                  ParentIn(k, n, x) ==
                  if x in Nodes(kids) then Taker(dep, kids, n, [], x) else Taker(dep, rest, p, inner, x))
            && (x in Nodes(s) ==> x in Nodes(rest) && Taker(dep, rest, p, inner, x) == Taker(dep, s, p, open, x))
    decreases Size(kids) + Size(rest), 1
  {
    NestKeeps(dep, n, kids, rest);
    if kids.Cons? {
      NestAllTakes(dep, kids, n, x);
    } else if n.hasSym {
      NestRunTakes(dep, n, rest, p, open, x);
    }
  }

  lemma {:induction false} NestAllTakes(dep: Dependency, f: Forest, p: Menu, x: Menu)
    requires Distinct(f)
    ensures x in Nodes(f) ==> ParentIn(NestAll(dep, f), p, x) == Taker(dep, f, p, [], x)
    decreases Size(f), 0
  {
    if f.Cons? {
      var (k, s) := Nest(dep, f.node, f.kids, f.rest);
      NestKeeps(dep, f.node, f.kids, f.rest);
      NestTakes(dep, f.node, f.kids, f.rest, p, [], x);
      NestAllTakes(dep, s, p, x);
    }
  }

  lemma {:induction false} NestRunTakes(dep: Dependency, n: Menu, f: Forest, p: Menu, open: seq<Menu>, x: Menu)
    requires Distinct(f)
    ensures var (a, b) := NestRun(dep, n, f);
            && (x in Nodes(a) ==> ParentIn(a, n, x) == Taker(dep, f, p, open + [n], x))
            && (x in Nodes(b) ==> Taker(dep, f, p, open + [n], x) == Taker(dep, b, p, open, x))
    decreases Size(f), 0
  {
    if f.Cons? {
      StillOpenLast(dep, open, n, f.node);
      if dep(n, f.node) {
        var (k, s) := Nest(dep, f.node, f.kids, f.rest);
        NestKeeps(dep, f.node, f.kids, f.rest);
        NestRunKeeps(dep, n, s);
        NestTakes(dep, f.node, f.kids, f.rest, p, open + [n], x);
        NestRunTakes(dep, n, s, p, open, x);
      }
    }
  }

  /** A node stays with its parent or goes to a symbol beside it on which it
      depends. */
  lemma {:induction false} TakerIsNear(dep: Dependency, f: Forest, p: Menu, open: seq<Menu>, x: Menu)
    requires Distinct(f) && x in Nodes(f)
    ensures var (taker, parent) := (Taker(dep, f, p, open, x), ParentIn(f, p, x));
            || taker == parent
            || (parent == p && taker in open && dep(taker, x))
            || (taker in Nodes(f) && ParentIn(f, p, taker) == parent && taker.hasSym && dep(taker, x))
    decreases f
  {
    StillOpenDepends(dep, open, f.node);
    var left := StillOpen(dep, open, f.node);
    if f.node == x {
    } else if x in Nodes(f.kids) {
      TakerIsNear(dep, f.kids, f.node, [], x);
    } else {
      var opens := f.kids.Nil? && f.node.hasSym;
      TakerIsNear(dep, f.rest, p, if opens then left + [f.node] else left, x);
    }
  }

  lemma {:induction false} StillOpenDepends(dep: Dependency, open: seq<Menu>, x: Menu)
    ensures var left := StillOpen(dep, open, x);
            (forall m :: m in left ==> m in open) && (left != [] ==> dep(left[|left| - 1], x))
  {
    if open != [] { StillOpenDepends(dep, open[..|open| - 1], x); }
  }

  // ----- The parents after menu_finalize -----

  /** A node taken by n, or by a node with a prompt, is its child; any other
      hangs where the node that took it does. */
  lemma FinalParents(dep: Dependency, n: Menu, kids: Forest, rest: Forest, p: Menu, x: Menu)
    requires Distinct(Cons(n, kids, rest)) && x in Nodes(Finalize(dep, n, kids, rest).0)
    ensures var (k, taker) := (Finalize(dep, n, kids, rest).0, Taker(dep, Cons(n, kids, rest), p, [], x));
            ParentIn(k, n, x) == if taker == n || taker.hasPrompt then taker else ParentIn(k, n, taker)
  {
    var nest := Nest(dep, n, kids, rest).0;
    NestKeeps(dep, n, kids, rest);
    FinalizeSettles(dep, n, kids, rest);
    NestTakes(dep, n, kids, rest, p, [], x);
    TopIsFree(Finalize(dep, n, kids, rest).0, n, x);
    TopIsFree(nest, n, x);
    PromptAboveClimbs(nest, n, n, x);
    var taker := ParentIn(nest, n, x);
    if taker != n {
      TopIsFree(Finalize(dep, n, kids, rest).0, n, taker);
      TopIsFree(nest, n, taker);
    }
  }

  /** What is left behind n is an end of its following siblings, as they were;
      they are taken as if n and what it took were not there. */
  lemma FinalSiblings(dep: Dependency, n: Menu, kids: Forest, rest: Forest, p: Menu, x: Menu)
    requires Distinct(Cons(n, kids, rest)) && x in Nodes(Finalize(dep, n, kids, rest).1)
    ensures var s := Finalize(dep, n, kids, rest).1;
            Taker(dep, Cons(n, kids, rest), p, [], x) == Taker(dep, s, p, [], x)
  {
    NestKeeps(dep, n, kids, rest);
    FinalizeSettles(dep, n, kids, rest);
    NestTakes(dep, n, kids, rest, p, [], x);
  }

  /** For the whole tree below the root: the pointer of every node. */
  lemma PointersAfterwards(dep: Dependency, root: Menu, f: Forest)
    requires Distinct(Cons(root, f, Nil))
    requires Linked(root.list, root, Finalize(dep, root, f, Nil).0, null)
    ensures forall x :: x in Nodes(f) ==>
              var taker := Taker(dep, f, root, [], x);
              taker in Nodes(f) + {root} && x.parent == if taker == root || taker.hasPrompt then taker else taker.parent
  {
    var k := Finalize(dep, root, f, Nil).0;
    FinalizeKeeps(dep, root, f, Nil);
    NothingBehind(f);
    NothingBehind(k);
    forall x | x in Nodes(f)
      ensures var taker := Taker(dep, f, root, [], x);
              taker in Nodes(f) + {root} && x.parent == if taker == root || taker.hasPrompt then taker else taker.parent
    {
      TakerIsNear(dep, f, root, [], x);
      FinalParents(dep, root, f, Nil, root, x);
      PointersNameParents(root.list, root, k, null, x);
      ParentIsInside(f, root, x);
      var taker := Taker(dep, f, root, [], x);
      assert Taker(dep, Cons(root, f, Nil), root, [], x) == taker;
      if taker != root { PointersNameParents(root.list, root, k, null, taker); }
    }
  }
}
