// Expressions held in memory cells and rewritten in place. A slot, the C code's
// `struct expr **`, is a cell together with the path from the cell's root; two
// slots of one cell are the same slot exactly when their paths are equal.
module ExprSlots {
  import opened KconfigExpr

  datatype Side = L | R

  /** The operands taken from the root; the operand of ! counts as left. */
  type Path = seq<Side>

  class Cell {
    var tree: Expr

    constructor (e: Expr)
      ensures tree == e
    {
      tree := e;
    }
  }

  predicate HasChild(e: Expr, s: Side) { e.Bin? || (e.Not? && s == L) }

  function Child(e: Expr, s: Side): Expr
    requires HasChild(e, s)
  {
    if e.Not? then e.arg else if s == L then e.left else e.right
  }

  predicate HasSlot(e: Expr, p: Path) {
    p == [] || (HasChild(e, p[0]) && HasSlot(Child(e, p[0]), p[1..]))
  }

  function Get(e: Expr, p: Path): (r: Expr)
    requires HasSlot(e, p)
    ensures Size(r) <= Size(e) && (p != [] ==> Size(r) < Size(e))
    decreases |p|
  {
    if p == [] then e else Get(Child(e, p[0]), p[1..])
  }

  function Put(e: Expr, p: Path, v: Expr): (r: Expr)
    requires HasSlot(e, p)
    ensures HasSlot(r, p) && Get(r, p) == v
    decreases |p|
  {
    if p == [] then v
    else if e.Not? then Not(Put(e.arg, p[1..], v))
    else if p[0] == L then e.(left := Put(e.left, p[1..], v))
    else e.(right := Put(e.right, p[1..], v))
  }

  lemma {:induction false} SlotAppend(e: Expr, p: Path, q: Path)
    requires HasSlot(e, p)
    ensures HasSlot(e, p + q) <==> HasSlot(Get(e, p), q)
    ensures HasSlot(e, p + q) ==> Get(e, p + q) == Get(Get(e, p), q)
    decreases |p|
  {
    if p == [] {
      assert p + q == q;
    } else {
      assert (p + q)[0] == p[0] && (p + q)[1..] == p[1..] + q;
      SlotAppend(Child(e, p[0]), p[1..], q);
    }
  }

  lemma {:induction false} PutAppend(e: Expr, p: Path, q: Path, v: Expr)
    requires HasSlot(e, p) && HasSlot(Get(e, p), q)
    ensures HasSlot(e, p + q)
    ensures Put(e, p + q, v) == Put(e, p, Put(Get(e, p), q, v))
    decreases |p|
  {
    SlotAppend(e, p, q);
    if p == [] {
      assert p + q == q;
    } else {
      assert (p + q)[0] == p[0] && (p + q)[1..] == p[1..] + q;
      PutAppend(Child(e, p[0]), p[1..], q, v);
    }
  }

  lemma {:induction false} PutPut(e: Expr, p: Path, v: Expr, w: Expr)
    requires HasSlot(e, p)
    ensures Put(Put(e, p, v), p, w) == Put(e, p, w)
    ensures Put(e, p, Get(e, p)) == e
    decreases |p|
  {
    if p != [] { PutPut(Child(e, p[0]), p[1..], v, w); }
  }
}
