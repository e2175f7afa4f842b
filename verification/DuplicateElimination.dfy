// Removal of duplicate and redundant operands, rewriting one tree in place while
// it is walked against itself (tools/kconfig/expr.c: expr_eliminate_dups1,
// expr_eliminate_dups).
module DuplicateElimination {
  import opened KconfigExpr
  import opened ExprEquality
  import opened ExprJoin
  import opened ExprSlots

  // ----- The operands of a chain -----

  /** The slot p is reached from e through nodes of the operator op only. */
  predicate InChain(op: Op, e: Expr, p: Path)
    ensures InChain(op, e, p) ==> HasSlot(e, p)
    decreases |p|
  {
    p == [] || (IsBin(e, op) && InChain(op, Child(e, p[0]), p[1..]))
  }

  predicate IsOperand(op: Op, e: Expr, p: Path) {
    InChain(op, e, p) && !IsBin(Get(e, p), op)
  }

  /** Both trees have their operands of op in the same slots. */
  predicate SameChain(op: Op, a: Expr, b: Expr) {
    if IsBin(a, op) then IsBin(b, op) && SameChain(op, a.left, b.left) && SameChain(op, a.right, b.right)
    else !IsBin(b, op)
  }

  function ChainSize(op: Op, e: Expr): nat {
    if IsBin(e, op) then 1 + ChainSize(op, e.left) + ChainSize(op, e.right) else 0
  }

  lemma {:induction false} SameChainTransitive(op: Op, a: Expr, b: Expr, c: Expr)
    requires SameChain(op, a, b) && SameChain(op, b, c)
    ensures SameChain(op, a, c)
  {
    if IsBin(a, op) {
      SameChainTransitive(op, a.left, b.left, c.left);
      SameChainTransitive(op, a.right, b.right, c.right);
    }
  }

  lemma {:induction false} SameChainRefl(op: Op, a: Expr)
    ensures SameChain(op, a, a)
  {
    if IsBin(a, op) { SameChainRefl(op, a.left); SameChainRefl(op, a.right); }
  }

  lemma {:induction false} SameChainSize(op: Op, a: Expr, b: Expr)
    requires SameChain(op, a, b)
    ensures ChainSize(op, a) == ChainSize(op, b)
  {
    if IsBin(a, op) { SameChainSize(op, a.left, b.left); SameChainSize(op, a.right, b.right); }
  }

  lemma {:induction false} SameChainAt(op: Op, a: Expr, b: Expr, p: Path)
    requires SameChain(op, a, b) && InChain(op, a, p)
    ensures InChain(op, b, p) && SameChain(op, Get(a, p), Get(b, p))
    decreases |p|
  {
    if p != [] { SameChainAt(op, Child(a, p[0]), Child(b, p[0]), p[1..]); }
  }

  lemma {:induction false} ChainExtends(op: Op, e: Expr, p: Path, s: Side)
    requires InChain(op, e, p) && IsBin(Get(e, p), op)
    ensures InChain(op, e, p + [s]) && Get(e, p + [s]) == Child(Get(e, p), s)
    decreases |p|
  {
    if p != [] {
      assert (p + [s])[1..] == p[1..] + [s];
      ChainExtends(op, Child(e, p[0]), p[1..], s);
    } else {
      assert ([s])[1..] == [];
    }
  }

  /** An operand slot has no slot of the same chain below it. */
  lemma {:induction false} OperandIsMaximal(op: Op, e: Expr, p: Path, q: Path)
    requires IsOperand(op, e, p) && InChain(op, e, q) && p <= q
    ensures p == q
    decreases |p|
  {
    if p != [] {
      OperandIsMaximal(op, Child(e, p[0]), p[1..], q[1..]);
      assert p == [p[0]] + p[1..] && q == [q[0]] + q[1..];
    }
  }

  // ----- Replacing operands -----

  /** The joined value of all operands but the one at p. */
  function Rest(op: Op, e: Expr, p: Path, env: Env): Tri
    requires InChain(op, e, p)
    decreases |p|
  {
    if p == [] then (if op == Or then 0 else 2)
    else Combine(op, Value(if p[0] == L then e.right else e.left, env), Rest(op, Child(e, p[0]), p[1..], env))
  }

  lemma CombineAssoc(op: Op, a: Tri, b: Tri, c: Tri)
    ensures Combine(op, Combine(op, a, b), c) == Combine(op, a, Combine(op, b, c))
    ensures Combine(op, a, b) == Combine(op, b, a)
  {
  }

  lemma {:induction false} ReplaceOne(op: Op, e: Expr, p: Path, v: Expr, env: Env)
    requires InChain(op, e, p)
    ensures Value(Put(e, p, v), env) == Combine(op, Value(v, env), Rest(op, e, p, env))
    decreases |p|
  {
    if p != [] {
      ReplaceOne(op, Child(e, p[0]), p[1..], v, env);
      var other := Value(if p[0] == L then e.right else e.left, env);
      var rest := Rest(op, Child(e, p[0]), p[1..], env);
      CombineAssoc(op, Value(v, env), rest, other);
      CombineAssoc(op, rest, other, other);
    }
  }

  lemma {:induction false} PutKeepsOthers(op: Op, e: Expr, p: Path, q: Path, v: Expr)
    requires IsOperand(op, e, p) && IsOperand(op, e, q) && p != q && !IsBin(v, op)
    ensures IsOperand(op, Put(e, p, v), q) && Get(Put(e, p, v), q) == Get(e, q)
    decreases |p|
  {
    if p == [] {
      OperandIsMaximal(op, e, p, q);
    } else if q == [] {
      OperandIsMaximal(op, e, q, p);
    } else if p[0] == q[0] {
      assert p == [p[0]] + p[1..] && q == [q[0]] + q[1..];
      PutKeepsOthers(op, Child(e, p[0]), p[1..], q[1..], v);
    }
  }

  lemma {:induction false} PutKeepsChain(op: Op, e: Expr, p: Path, v: Expr)
    requires IsOperand(op, e, p) && !IsBin(v, op)
    ensures SameChain(op, e, Put(e, p, v)) && IsOperand(op, Put(e, p, v), p)
    decreases |p|
  {
    if p != [] {
      SameChainRefl(op, e.left);
      SameChainRefl(op, e.right);
      PutKeepsChain(op, Child(e, p[0]), p[1..], v);
    }
  }

  lemma {:induction false} PutShape(op: Op, e: Expr, p: Path, v: Expr)
    requires InChain(op, e, p)
    ensures Operators(Put(e, p, v)) == Operators(e) - Operators(Get(e, p)) + Operators(v)
    ensures Atoms(Get(e, p)) <= Atoms(e) && Atoms(Put(e, p, v)) <= Atoms(e) + Atoms(v)
    ensures NegatesSymbols(e) ==> NegatesSymbols(Get(e, p)) && (NegatesSymbols(v) ==> NegatesSymbols(Put(e, p, v)))
    ensures HasConstantOperand(v) ==> HasConstantOperand(Put(e, p, v))
    ensures p != [] && IsYesOrNo(v) ==> HasConstantOperand(Put(e, p, v))
    decreases |p|
  {
    if p != [] { PutShape(op, Child(e, p[0]), p[1..], v); }
  }

  lemma PutInBothSides(e: Expr, p: Path, q: Path, v: Expr, w: Expr)
    requires e.Bin? && p != [] && q != [] && p[0] != q[0] && HasSlot(e, p) && HasSlot(e, q)
    ensures HasSlot(Put(e, p, v), q)
    ensures var r := Put(Put(e, p, v), q, w);
            IsBin(r, e.op) && Child(r, p[0]) == Put(Child(e, p[0]), p[1..], v)
                && Child(r, q[0]) == Put(Child(e, q[0]), q[1..], w)
  {
  }

  /** Two operands on different sides of a chain, and the rest of it. */
  lemma RestOfBoth(op: Op, a: Expr, b: Expr, p: Path, q: Path, v: Expr, w: Expr, env: Env)
    requires InChain(op, a, p) && InChain(op, b, q)
    ensures Combine(op, Value(Put(a, p, v), env), Value(Put(b, q, w), env))
         == Combine(op, Combine(op, Value(v, env), Value(w, env)),
                    Combine(op, Rest(op, a, p, env), Rest(op, b, q, env)))
  {
    ReplaceOne(op, a, p, v, env);
    ReplaceOne(op, b, q, w, env);
    CombineExchange(op, Value(v, env), Rest(op, a, p, env), Value(w, env), Rest(op, b, q, env));
  }

  /** The joined value of all operands but those at p and q. */
  function RestOfPair(op: Op, e: Expr, p: Path, q: Path, env: Env): Tri
    requires InChain(op, e, p) && InChain(op, e, q)
    decreases |p|
  {
    if p == [] || q == [] then (if op == Or then 0 else 2)
    else if p[0] == q[0] then
      Combine(op, Value(if p[0] == L then e.right else e.left, env),
              RestOfPair(op, Child(e, p[0]), p[1..], q[1..], env))
    else Combine(op, Rest(op, Child(e, p[0]), p[1..], env), Rest(op, Child(e, q[0]), q[1..], env))
  }

  /** Replacing two distinct operands changes the value only through the joined
      value of the two. */
  lemma {:induction false} ReplacePair(op: Op, e: Expr, p: Path, q: Path, v: Expr, w: Expr, env: Env)
    requires IsOperand(op, e, p) && IsOperand(op, e, q) && p != q && !IsBin(v, op)
    ensures IsOperand(op, Put(e, p, v), q)
    ensures Value(Put(Put(e, p, v), q, w), env)
         == Combine(op, Combine(op, Value(v, env), Value(w, env)), RestOfPair(op, e, p, q, env))
    decreases |p|
  {
    PutKeepsOthers(op, e, p, q, v);
    if p == [] {
      OperandIsMaximal(op, e, p, q);
    } else if q == [] {
      OperandIsMaximal(op, e, q, p);
    } else if p[0] == q[0] {
      assert p == [p[0]] + p[1..] && q == [q[0]] + q[1..];
      ReplacePair(op, Child(e, p[0]), p[1..], q[1..], v, w, env);
      var other := Value(if p[0] == L then e.right else e.left, env);
      var rest := RestOfPair(op, Child(e, p[0]), p[1..], q[1..], env);
      var pair := Combine(op, Value(v, env), Value(w, env));
      CombineAssoc(op, pair, rest, other);
      CombineAssoc(op, rest, other, other);
      CombineAssoc(op, Combine(op, pair, rest), other, other);
    } else {
      var (a, b) := (Child(e, p[0]), Child(e, q[0]));
      RestOfBoth(op, a, b, p[1..], q[1..], v, w, env);
      CombineAssoc(op, Value(Put(a, p[1..], v), env), Value(Put(b, q[1..], w), env), 0);
      PutInBothSides(e, p, q, v, w);
    }
  }

  lemma PutBack(op: Op, e: Expr, p: Path, q: Path)
    requires IsOperand(op, e, p) && IsOperand(op, e, q)
    ensures Put(e, p, Get(e, p)) == e && Put(Put(e, p, Get(e, p)), q, Get(e, q)) == e
  {
    PutPut(e, p, Get(e, p), Get(e, p));
    PutPut(e, q, Get(e, q), Get(e, q));
  }

  /** Rewriting both operands of the operator in slot p, the left one first. */
  lemma PutOperands(e: Expr, p: Path, l: Expr, r: Expr)
    requires HasSlot(e, p) && Get(e, p).Bin?
    ensures var (x, y) := (p + [L], p + [R]);
            var e1 := if HasSlot(e, x) then Put(e, x, l) else e;
            && HasSlot(e, x) && Get(e, x) == Get(e, p).left
            && HasSlot(e1, y) && Get(e1, y) == Get(e, p).right
            && Put(e1, y, r) == Put(e, p, Bin(Get(e, p).op, l, r))
  {
    var a := Get(e, p);
    SlotAppend(e, p, [L]);
    PutAppend(e, p, [L], l);
    var e1 := Put(e, p, a.(left := l));
    SlotAppend(e1, p, [R]);
    PutAppend(e1, p, [R], r);
    PutPut(e, p, a.(left := l), Bin(a.op, l, r));
  }

  // ----- One step of the walk -----

  /** b is never less than a, and of the same value where the constants of t are
      told apart. */
  ghost predicate Approximates(a: Expr, b: Expr, t: iset<Expr>) {
    && (forall env :: WellTyped(env) ==> Value(a, env) <= Value(b, env))
    && (forall env :: WellTyped(env) && TellsApart(env, t) ==> Value(a, env) == Value(b, env))
  }

  lemma ApproximatesTransitive(a: Expr, b: Expr, c: Expr, t: iset<Expr>)
    requires Approximates(a, b, t) && Approximates(b, c, t)
    ensures Approximates(a, c, t)
  {
    forall env | WellTyped(env) ensures Value(a, env) <= Value(c, env) {
      assert Value(a, env) <= Value(b, env);
    }
    forall env | WellTyped(env) && TellsApart(env, t) ensures Value(a, env) == Value(c, env) {
      assert Value(a, env) == Value(b, env);
    }
  }

  /** What every step of a walk over the chain a, now b, keeps; t holds the atoms
      that may occur. */
  ghost predicate Improves(op: Op, a: Expr, b: Expr, t: iset<Expr>) {
    && SameChain(op, a, b)
    && Approximates(a, b, t)
    && Within(b, t)
    && Operators(b) <= Operators(a)
    && (NegatesSymbols(a) ==> NegatesSymbols(b))
  }

  lemma ImprovesTransitive(op: Op, a: Expr, b: Expr, c: Expr, t: iset<Expr>)
    requires Improves(op, a, b, t) && Improves(op, b, c, t)
    ensures Improves(op, a, c, t)
  {
    SameChainTransitive(op, a, b, c);
    ApproximatesTransitive(a, b, c, t);
  }

  lemma CombineGrows(op: Op, a: Tri, b: Tri, c: Tri)
    ensures a <= b ==> Combine(op, a, c) <= Combine(op, b, c)
  {
  }

  lemma JoinedPairValue(op: Op, e: Expr, p: Path, q: Path, t: iset<Expr>, env: Env)
    requires IsOperand(op, e, p) && IsOperand(op, e, q) && p != q && Within(e, t) && WellTyped(env)
    requires Join(op, Get(e, p), Get(e, q)).Some?
    ensures IsOperand(op, Put(e, p, Unit(op)), q)
    ensures var r := Put(Put(e, p, Unit(op)), q, Join(op, Get(e, p), Get(e, q)).value);
            && Value(e, env) <= Value(r, env)
            && (TellsApart(env, t) ==> Value(e, env) == Value(r, env))
  {
    var (x, y) := (Get(e, p), Get(e, q));
    var z := Join(op, x, y).value;
    PutShape(op, e, p, x);
    PutShape(op, e, q, y);
    JoinSound(op, x, y, t, env);
    ReplacePair(op, e, p, q, x, y, env);
    PutBack(op, e, p, q);
    ReplacePair(op, e, p, q, Unit(op), z, env);
    CombineGrows(op, Combine(op, Value(x, env), Value(y, env)), Value(z, env), RestOfPair(op, e, p, q, env));
  }

  /** What the pair of operands at p and q becomes: a unit and their join. */
  function Joined(op: Op, e: Expr, p: Path, q: Path): Expr
    requires IsOperand(op, e, p) && IsOperand(op, e, q) && p != q && Join(op, Get(e, p), Get(e, q)).Some?
  {
    PutKeepsOthers(op, e, p, q, Unit(op));
    Put(Put(e, p, Unit(op)), q, Join(op, Get(e, p), Get(e, q)).value)
  }

  lemma JoinedValue(op: Op, e: Expr, p: Path, q: Path, t: iset<Expr>)
    requires IsOperand(op, e, p) && IsOperand(op, e, q) && p != q && Join(op, Get(e, p), Get(e, q)).Some?
    requires Within(e, t)
    ensures Approximates(e, Joined(op, e, p, q), t)
  {
    forall env | WellTyped(env)
      ensures Value(e, env) <= Value(Joined(op, e, p, q), env)
      ensures TellsApart(env, t) ==> Value(e, env) == Value(Joined(op, e, p, q), env)
    {
      JoinedPairValue(op, e, p, q, t, env);
    }
  }

  lemma JoinedShape(op: Op, e: Expr, p: Path, q: Path, t: iset<Expr>)
    requires IsOperand(op, e, p) && IsOperand(op, e, q) && p != q && Join(op, Get(e, p), Get(e, q)).Some?
    requires JoinsStay(t) && Within(e, t)
    ensures var r := Joined(op, e, p, q);
            && SameChain(op, e, r) && Within(r, t) && Operators(r) <= Operators(e)
            && (NegatesSymbols(e) ==> NegatesSymbols(r))
  {
    var (x, y) := (Get(e, p), Get(e, q));
    var z := Join(op, x, y).value;
    var e1 := Put(e, p, Unit(op));
    PutShape(op, e, p, Unit(op));
    PutShape(op, e, q, z);
    PutKeepsOthers(op, e, p, q, Unit(op));
    PutKeepsChain(op, e, p, Unit(op));
    JoinShape(op, x, y);
    JoinStaysWithin(op, x, y, t);
    PutShape(op, e1, q, z);
    PutKeepsChain(op, e1, q, z);
    SameChainTransitive(op, e, e1, Put(e1, q, z));
  }

  lemma JoinedHasUnit(op: Op, e: Expr, p: Path, q: Path)
    requires IsOperand(op, e, p) && IsOperand(op, e, q) && p != q && Join(op, Get(e, p), Get(e, q)).Some?
    ensures HasConstantOperand(Joined(op, e, p, q))
  {
    var z := Join(op, Get(e, p), Get(e, q)).value;
    var e1 := Put(e, p, Unit(op));
    JoinShape(op, Get(e, p), Get(e, q));
    PutKeepsOthers(op, e, p, q, Unit(op));
    PutKeepsChain(op, e, p, Unit(op));
    PutKeepsOthers(op, e1, q, p, z);
    if p == [] { OperandIsMaximal(op, e, p, q); }
    var r := Put(e1, q, z);
    PutPut(e, p, Unit(op), Unit(op));
    PutPut(r, p, Unit(op), Unit(op));
    PutShape(op, r, p, Unit(op));
  }

  /** One join of a walk, whatever constants the operands hold. */
  lemma JoinStep(op: Op, e: Expr, p: Path, q: Path, t: iset<Expr>)
    requires IsOperand(op, e, p) && IsOperand(op, e, q) && p != q && Join(op, Get(e, p), Get(e, q)).Some?
    requires JoinsStay(t) && Within(e, t)
    ensures Improves(op, e, Joined(op, e, p, q), t) && HasConstantOperand(Joined(op, e, p, q))
  {
    JoinedValue(op, e, p, q, t);
    JoinedShape(op, e, p, q, t);
    JoinedHasUnit(op, e, p, q);
  }

  /** One operand was improved in place. */
  lemma InnerStep(op: Op, e: Expr, p: Path, v: Expr, t: iset<Expr>)
    requires IsOperand(op, e, p) && Within(e, t)
    requires Get(e, p).Bin? && Improves(Get(e, p).op, Get(e, p), v, t)
    ensures Improves(op, e, Put(e, p, v), t) && IsOperand(op, Put(e, p, v), p)
    ensures HasConstantOperand(v) ==> HasConstantOperand(Put(e, p, v))
  {
    PutShape(op, e, p, v);
    PutKeepsChain(op, e, p, v);
    PutPut(e, p, v, v);
    forall env | WellTyped(env)
      ensures Value(e, env) <= Value(Put(e, p, v), env)
      ensures TellsApart(env, t) ==> Value(e, env) == Value(Put(e, p, v), env)
    {
      ReplaceOne(op, e, p, v, env);
      ReplaceOne(op, e, p, Get(e, p), env);
      assert Value(Get(e, p), env) <= Value(v, env);
      CombineGrows(op, Value(Get(e, p), env), Value(v, env), Rest(op, e, p, env));
    }
  }

  // ----- Trees in which nothing joins -----

  /** No two operands of the top chain join, nor, recursively, any two operands
      of a chain that is itself an operand. */
  ghost predicate Settled(e: Expr)
    decreases Size(e)
  {
    e.Bin? ==> forall p, q :: IsOperand(e.op, e, p) && IsOperand(e.op, e, q) && p != q ==>
                 Join(e.op, Get(e, p), Get(e, q)).None? && Settled(Get(e, p))
  }

  /** The part of that statement for operands below the slots p0 and q0. */
  ghost predicate Quiet(op: Op, e: Expr, p0: Path, q0: Path) {
    forall p, q :: IsOperand(op, e, p) && IsOperand(op, e, q) && p != q && p0 <= p && q0 <= q ==>
      Join(op, Get(e, p), Get(e, q)).None? && Settled(Get(e, p))
  }

  lemma PrefixSplits(p: Path, a: Path)
    ensures p <= a && p != a <==> p + [L] <= a || p + [R] <= a
    ensures !(p + [L] <= a && p + [R] <= a)
  {
    if p <= a && p != a { assert a[|p|] == L || a[|p|] == R; }
    if p + [L] <= a { assert a[|p|] == L && a[..|p|] == (p + [L])[..|p|] == p; }
    if p + [R] <= a { assert a[|p|] == R && a[..|p|] == (p + [R])[..|p|] == p; }
  }

  lemma QuietSplitsFirst(op: Op, e: Expr, p: Path, q: Path)
    requires InChain(op, e, p) && IsBin(Get(e, p), op)
    ensures Quiet(op, e, p, q) <==> Quiet(op, e, p + [L], q) && Quiet(op, e, p + [R], q)
  {
    forall a | IsOperand(op, e, a) ensures p <= a && p != a <==> p + [L] <= a || p + [R] <= a { PrefixSplits(p, a); }
  }

  lemma QuietSplitsSecond(op: Op, e: Expr, p: Path, q: Path)
    requires InChain(op, e, q) && IsBin(Get(e, q), op)
    ensures Quiet(op, e, p, q) <==> Quiet(op, e, p, q + [L]) && Quiet(op, e, p, q + [R])
  {
    forall a | IsOperand(op, e, a) ensures q <= a && q != a <==> q + [L] <= a || q + [R] <= a { PrefixSplits(q, a); }
  }

  lemma QuietOperands(op: Op, e: Expr, p: Path, q: Path)
    requires IsOperand(op, e, p) && IsOperand(op, e, q)
    ensures Quiet(op, e, p, q) <==> p == q || (Join(op, Get(e, p), Get(e, q)).None? && Settled(Get(e, p)))
  {
    forall a, b | IsOperand(op, e, a) && IsOperand(op, e, b) && p <= a && q <= b ensures a == p && b == q {
      OperandIsMaximal(op, e, p, a);
      OperandIsMaximal(op, e, q, b);
    }
  }

  // ----- A walk over a chain -----

  /** A walk over the chain e has made f of it: it moved unless it found its part
      of e quiet, and a moving walk leaves a constant operand behind. */
  ghost predicate Walked(op: Op, e: Expr, f: Expr, t: iset<Expr>, moved: bool, quiet: bool) {
    && Improves(op, e, f, t)
    && (moved <==> !quiet)
    && (if moved then HasConstantOperand(f) else f == e)
  }

  /** Two walks, one after the other; later tells whether the part of the second
      one was quiet in e. */
  lemma WalkedOn(op: Op, e: Expr, f: Expr, g: Expr, t: iset<Expr>, m1: bool, m2: bool, q1: bool, q2: bool, later: bool)
    requires Walked(op, e, f, t, m1, q1) && Walked(op, f, g, t, m2, q2) && (f == e ==> q2 == later)
    ensures Walked(op, e, g, t, m1 || m2, q1 && later)
  {
    ImprovesTransitive(op, e, f, g, t);
  }

  /** The slot root holds a chain of op with few enough operators, all of whose
      atoms belong to t. */
  ghost predicate HoldsChain(op: Op, tree: Expr, root: Path, t: iset<Expr>, budget: nat) {
    && HasSlot(tree, root) && IsBin(Get(tree, root), op)
    && JoinsStay(t) && Within(Get(tree, root), t) && Operators(Get(tree, root)) <= budget
  }

  lemma NothingWalked(op: Op, e: Expr, t: iset<Expr>)
    requires Within(e, t)
    ensures Walked(op, e, e, t, false, true)
  {
    SameChainRefl(op, e);
  }

  lemma ChainStays(op: Op, e: Expr, f: Expr, p: Path, q: Path)
    requires SameChain(op, e, f) && InChain(op, e, p) && InChain(op, e, q)
    ensures InChain(op, f, p) && InChain(op, f, q)
    ensures ChainSize(op, Get(f, p)) == ChainSize(op, Get(e, p)) && ChainSize(op, Get(f, q)) == ChainSize(op, Get(e, q))
  {
    SameChainAt(op, e, f, p);
    SameChainAt(op, e, f, q);
    SameChainSize(op, Get(e, p), Get(f, p));
    SameChainSize(op, Get(e, q), Get(f, q));
  }

  // ----- The rewriting methods -----

  class Simplifier {
    /** The global counter of rewrites. */
    var transCount: nat

    constructor ()
      ensures transCount == 0
    {
      transCount := 0;
    }

    /** expr_eliminate_dups1 on the slots root+p and root+q of one cell: both lie
        in the chain of op that starts at root. */
    method EliminateDups1(op: Op, c: Cell, root: Path, p: Path, q: Path, ghost t: iset<Expr>, ghost budget: nat)
      requires HoldsChain(op, c.tree, root, t, budget)
      requires InChain(op, Get(c.tree, root), p) && InChain(op, Get(c.tree, root), q)
      modifies this, c
      ensures HasSlot(c.tree, root) && c.tree == Put(old(c.tree), root, Get(c.tree, root))
      ensures old(transCount) <= transCount
      ensures var e := Get(old(c.tree), root);
              Walked(op, e, Get(c.tree, root), t, transCount != old(transCount), Quiet(op, e, p, q))
      decreases budget, ChainSize(op, Get(Get(c.tree, root), p)) + ChainSize(op, Get(Get(c.tree, root), q)), 2
    {
      ghost var e := Get(c.tree, root);
      PutPut(c.tree, root, e, e);
      SlotAppend(c.tree, root, p);
      SlotAppend(c.tree, root, q);
      var e1 := Get(c.tree, root + p);
      var e2 := Get(c.tree, root + q);
      if IsBin(e1, op) {
        WalkFirst(op, c, root, p, q, t, budget);
      } else if IsBin(e2, op) {
        WalkSecond(op, c, root, p, q, t, budget);
      } else {
        QuietOperands(op, e, p, q);
        NothingWalked(op, e, t);
        if p != q {
          CompareOperands(op, c, root, p, q, t, budget);
        }
      }
    }

    /** Both operands of the first chain against the second slot. */
    method WalkFirst(op: Op, c: Cell, root: Path, p: Path, q: Path, ghost t: iset<Expr>, ghost budget: nat)
      requires HoldsChain(op, c.tree, root, t, budget)
      requires InChain(op, Get(c.tree, root), p) && InChain(op, Get(c.tree, root), q)
               && IsBin(Get(Get(c.tree, root), p), op)
      modifies this, c
      ensures HasSlot(c.tree, root) && c.tree == Put(old(c.tree), root, Get(c.tree, root))
      ensures old(transCount) <= transCount
      ensures var e := Get(old(c.tree), root);
              Walked(op, e, Get(c.tree, root), t, transCount != old(transCount), Quiet(op, e, p, q))
      decreases budget, ChainSize(op, Get(Get(c.tree, root), p)) + ChainSize(op, Get(Get(c.tree, root), q)), 1
    {
      ghost var e, before := Get(c.tree, root), transCount;
      ChainExtends(op, e, p, L);
      ChainExtends(op, e, p, R);
      QuietSplitsFirst(op, e, p, q);
      EliminateDups1(op, c, root, p + [L], q, t, budget);
      ghost var f, middle := Get(c.tree, root), transCount;
      ChainStays(op, e, f, p + [R], q);
      EliminateDups1(op, c, root, p + [R], q, t, budget);
      PutPut(old(c.tree), root, f, Get(c.tree, root));
      WalkedOn(op, e, f, Get(c.tree, root), t, middle != before, transCount != middle,
               Quiet(op, e, p + [L], q), Quiet(op, f, p + [R], q), Quiet(op, e, p + [R], q));
    }

    /** The first slot against both operands of the second chain. */
    method WalkSecond(op: Op, c: Cell, root: Path, p: Path, q: Path, ghost t: iset<Expr>, ghost budget: nat)
      requires HoldsChain(op, c.tree, root, t, budget)
      requires InChain(op, Get(c.tree, root), p) && InChain(op, Get(c.tree, root), q)
               && IsBin(Get(Get(c.tree, root), q), op)
      modifies this, c
      ensures HasSlot(c.tree, root) && c.tree == Put(old(c.tree), root, Get(c.tree, root))
      ensures old(transCount) <= transCount
      ensures var e := Get(old(c.tree), root);
              Walked(op, e, Get(c.tree, root), t, transCount != old(transCount), Quiet(op, e, p, q))
      decreases budget, ChainSize(op, Get(Get(c.tree, root), p)) + ChainSize(op, Get(Get(c.tree, root), q)), 1
    {
      ghost var e, before := Get(c.tree, root), transCount;
      ChainExtends(op, e, q, L);
      ChainExtends(op, e, q, R);
      QuietSplitsSecond(op, e, p, q);
      EliminateDups1(op, c, root, p, q + [L], t, budget);
      ghost var f, middle := Get(c.tree, root), transCount;
      ChainStays(op, e, f, p, q + [R]);
      EliminateDups1(op, c, root, p, q + [R], t, budget);
      PutPut(old(c.tree), root, f, Get(c.tree, root));
      WalkedOn(op, e, f, Get(c.tree, root), t, middle != before, transCount != middle,
               Quiet(op, e, p, q + [L]), Quiet(op, f, p, q + [R]), Quiet(op, e, p, q + [R]));
    }

    /** The part of expr_eliminate_dups1 for two distinct operand slots. */
    method CompareOperands(op: Op, c: Cell, root: Path, p: Path, q: Path, ghost t: iset<Expr>, ghost budget: nat)
      requires HoldsChain(op, c.tree, root, t, budget)
      requires IsOperand(op, Get(c.tree, root), p) && IsOperand(op, Get(c.tree, root), q) && p != q
      modifies this, c
      ensures HasSlot(c.tree, root) && c.tree == Put(old(c.tree), root, Get(c.tree, root))
      ensures old(transCount) <= transCount
      ensures var e := Get(old(c.tree), root);
              Walked(op, e, Get(c.tree, root), t, transCount != old(transCount),
                     Join(op, Get(e, p), Get(e, q)).None? && Settled(Get(e, p)))
      decreases budget, 0, 1
    {
      ghost var e, before := Get(c.tree, root), transCount;
      SettleOperand(op, c, root, p, q, t, budget);
      ghost var f, middle := Get(c.tree, root), transCount;
      JoinOperands(op, c, root, p, q, t);
      PutPut(old(c.tree), root, f, Get(c.tree, root));
      WalkedOn(op, e, f, Get(c.tree, root), t, middle != before, transCount != middle,
               Settled(Get(e, p)), Join(op, Get(f, p), Get(f, q)).None?, Join(op, Get(e, p), Get(e, q)).None?);
    }

    /** The recursion into the first operand, if that is a chain of the other operator. */
    method SettleOperand(op: Op, c: Cell, root: Path, p: Path, ghost q: Path, ghost t: iset<Expr>, ghost budget: nat)
      requires HoldsChain(op, c.tree, root, t, budget)
      requires IsOperand(op, Get(c.tree, root), p) && IsOperand(op, Get(c.tree, root), q) && p != q
      modifies this, c
      ensures HasSlot(c.tree, root) && c.tree == Put(old(c.tree), root, Get(c.tree, root))
      ensures IsOperand(op, Get(c.tree, root), p) && IsOperand(op, Get(c.tree, root), q)
      ensures old(transCount) <= transCount
      ensures var e := Get(old(c.tree), root);
              Walked(op, e, Get(c.tree, root), t, transCount != old(transCount), Settled(Get(e, p)))
      decreases budget, 0, 0
    {
      ghost var e := Get(c.tree, root);
      PutPut(c.tree, root, e, e);
      SlotAppend(c.tree, root, p);
      NothingWalked(op, e, t);
      var e1 := Get(c.tree, root + p);
      if e1.Bin? {
        PutShape(op, e, p, e1);
        OperandCosts(op, e, p);
        EliminateDups1(e1.op, c, root + p, [], [], t, budget - 1);
        ghost var v := Get(c.tree, root + p);
        PutAppend(old(c.tree), root, p, v);
        PutPut(e, p, e1, v);
        InnerStep(op, e, p, v, t);
        PutKeepsOthers(op, e, p, q, v);
        SettledIsQuiet(e1);
      }
    }

    /** The join of two operands: a unit in the first slot, the result in the second. */
    method JoinOperands(op: Op, c: Cell, root: Path, p: Path, q: Path, ghost t: iset<Expr>)
      requires HasSlot(c.tree, root) && IsBin(Get(c.tree, root), op)
      requires JoinsStay(t) && Within(Get(c.tree, root), t)
      requires IsOperand(op, Get(c.tree, root), p) && IsOperand(op, Get(c.tree, root), q) && p != q
      modifies this, c
      ensures HasSlot(c.tree, root) && c.tree == Put(old(c.tree), root, Get(c.tree, root))
      ensures old(transCount) <= transCount
      ensures var e := Get(old(c.tree), root);
              Walked(op, e, Get(c.tree, root), t, transCount != old(transCount), Join(op, Get(e, p), Get(e, q)).None?)
    {
      ghost var e := Get(c.tree, root);
      PutPut(c.tree, root, e, e);
      SlotAppend(c.tree, root, p);
      SlotAppend(c.tree, root, q);
      NothingWalked(op, e, t);
      var joined := Join(op, Get(c.tree, root + p), Get(c.tree, root + q));
      if joined.Some? {
        JoinStep(op, e, p, q, t);
        PutKeepsOthers(op, e, p, q, Unit(op));
        PutAppend(c.tree, root, p, Unit(op));
        c.tree := Put(c.tree, root + p, Unit(op));
        PutAppend(c.tree, root, q, joined.value);
        c.tree := Put(c.tree, root + q, joined.value);
        transCount := transCount + 1;
        PutPut(old(c.tree), root, Put(e, p, Unit(op)), Put(Put(e, p, Unit(op)), q, joined.value));
      }
    }

    /** expr_eliminate_yn on the tree in slot p of c, operands first. */
    method EliminateConstants(c: Cell, p: Path)
      requires HasSlot(c.tree, p)
      modifies c
      ensures HasSlot(old(c.tree), p) && c.tree == Put(old(c.tree), p, EliminateYn(Get(old(c.tree), p)))
      decreases Size(Get(c.tree, p))
    {
      ghost var t := c.tree;
      var e := Get(c.tree, p);
      PutPut(t, p, e, e);
      if e.Bin? {
        PutOperands(t, p, EliminateYn(e.left), EliminateYn(e.right));
        EliminateConstants(c, p + [L]);
        EliminateConstants(c, p + [R]);
        var Bin(op, l, r) := Get(c.tree, p);
        PutPut(t, p, Bin(op, l, r), FoldConstants(op, l, r));
        if l == Zero(op) || r == Unit(op) {
          c.tree := Put(c.tree, p, l);
        } else if l == Unit(op) || r == Zero(op) {
          c.tree := Put(c.tree, p, r);
        }
      }
    }

    /** __expr_eliminate_eq on slot p of c and slot q of d, two separate trees. */
    method EliminateCommonOperands(op: Op, c: Cell, p: Path, d: Cell, q: Path)
      requires c != d && HasSlot(c.tree, p) && HasSlot(d.tree, q)
      modifies this, c, d
      ensures var r := EliminateCommon(op, Get(old(c.tree), p), Get(old(d.tree), q));
              c.tree == Put(old(c.tree), p, r.0) && d.tree == Put(old(d.tree), q, r.1)
      decreases Size(Get(c.tree, p)) + Size(Get(d.tree, q)), 1
    {
      if IsBin(Get(c.tree, p), op) {
        FirstOperands(op, c, p, d, q);
      } else if IsBin(Get(d.tree, q), op) {
        SecondOperands(op, c, p, d, q);
      } else {
        CompareLeaves(op, c, p, d, q);
      }
    }

    /** Both operands of the first chain, one after the other. */
    method FirstOperands(op: Op, c: Cell, p: Path, d: Cell, q: Path)
      requires c != d && HasSlot(c.tree, p) && HasSlot(d.tree, q) && IsBin(Get(c.tree, p), op)
      modifies this, c, d
      ensures var r := EliminateCommon(op, Get(old(c.tree), p), Get(old(d.tree), q));
              c.tree == Put(old(c.tree), p, r.0) && d.tree == Put(old(d.tree), q, r.1)
      decreases Size(Get(c.tree, p)) + Size(Get(d.tree, q)), 0
    {
      ghost var (t, u, a, b) := (c.tree, d.tree, Get(c.tree, p), Get(d.tree, q));
      ghost var (l, b1) := EliminateCommon(op, a.left, b);
      ghost var (r, b2) := EliminateCommon(op, a.right, b1);
      PutPut(u, q, b, b);
      PutPut(u, q, b1, b2);
      PutOperands(t, p, l, r);
      EliminateCommonOperands(op, c, p + [L], d, q);
      EliminateCommonOperands(op, c, p + [R], d, q);
      assert EliminateCommon(op, a, b) == (Bin(op, l, r), b2);
    }

    /** Both operands of the second chain, one after the other. */
    method SecondOperands(op: Op, c: Cell, p: Path, d: Cell, q: Path)
      requires c != d && HasSlot(c.tree, p) && HasSlot(d.tree, q) && !IsBin(Get(c.tree, p), op)
               && IsBin(Get(d.tree, q), op)
      modifies this, c, d
      ensures var r := EliminateCommon(op, Get(old(c.tree), p), Get(old(d.tree), q));
              c.tree == Put(old(c.tree), p, r.0) && d.tree == Put(old(d.tree), q, r.1)
      decreases Size(Get(c.tree, p)) + Size(Get(d.tree, q)), 0
    {
      ghost var (t, u, a, b) := (c.tree, d.tree, Get(c.tree, p), Get(d.tree, q));
      ghost var (a1, l) := EliminateCommon(op, a, b.left);
      ghost var (a2, r) := EliminateCommon(op, a1, b.right);
      PutPut(t, p, a, a);
      PutPut(t, p, a1, a2);
      PutOperands(u, q, l, r);
      EliminateCommonOperands(op, c, p, d, q + [L]);
      EliminateCommonOperands(op, c, p, d, q + [R]);
      assert EliminateCommon(op, a, b) == (a2, Bin(op, l, r));
    }

    /** Two operands that are not chains of op. */
    method CompareLeaves(op: Op, c: Cell, p: Path, d: Cell, q: Path)
      requires c != d && HasSlot(c.tree, p) && HasSlot(d.tree, q)
      requires !IsBin(Get(c.tree, p), op) && !IsBin(Get(d.tree, q), op)
      modifies this, c, d
      ensures var r := EliminateCommon(op, Get(old(c.tree), p), Get(old(d.tree), q));
              c.tree == Put(old(c.tree), p, r.0) && d.tree == Put(old(d.tree), q, r.1)
    {
      var a, b := Get(c.tree, p), Get(d.tree, q);
      PutPut(c.tree, p, a, a);
      PutPut(d.tree, q, b, b);
      if a == b && IsYesOrNo(a) {
        return;
      }
      var equal := ExprEq(a, b);
      if equal {
        transCount := transCount + 1;
        c.tree := Put(c.tree, p, Unit(op));
        d.tree := Put(d.tree, q, Unit(op));
      }
    }

    /** expr_eliminate_eq on two separate trees. */
    method EliminateEqual(c: Cell, d: Cell)
      requires c != d
      modifies this, c, d
      ensures (c.tree, d.tree) == EliminateEq(old(c.tree), old(d.tree))
    {
      if c.tree.Bin? {
        EliminateCommonOperands(c.tree.op, c, [], d, []);
      }
      if d.tree.Bin? && !IsBin(c.tree, d.tree.op) {
        EliminateCommonOperands(d.tree.op, c, [], d, []);
      }
      EliminateConstants(c, []);
      EliminateConstants(d, []);
    }

    /** expr_eliminate_dups. The loop ends because a pass that rewrites something
        leaves a constant operand to remove; the result is one in which no
        further pass would join anything; such a tree is left alone. The value
        never falls, and is kept in every environment that tells apart the
        constants of the tests that can meet; for an unaliased expression in all. */
    method EliminateDups(c: Cell)
      modifies this, c
      ensures Settled(c.tree)
      ensures Settled(old(c.tree)) ==> c.tree == old(c.tree)
      ensures Operators(c.tree) <= Operators(old(c.tree))
      ensures NegatesSymbols(old(c.tree)) ==> NegatesSymbols(c.tree)
      ensures transCount == old(transCount)
      ensures Approximates(old(c.tree), c.tree, Reachable(old(c.tree))) && Reachable(c.tree) <= Reachable(old(c.tree))
      ensures Unaliased(old(c.tree)) ==> Equivalent(old(c.tree), c.tree) && Unaliased(c.tree)
    {
      var oldCount := transCount;
      ghost var e, t := c.tree, Reachable(c.tree);
      ReachableStays(e);
      while true
        invariant Approximates(e, c.tree, t) && Within(c.tree, t)
        invariant Operators(c.tree) <= Operators(e)
        invariant NegatesSymbols(e) ==> NegatesSymbols(c.tree)
        invariant Settled(e) ==> c.tree == e
        decreases Operators(c.tree)
      {
        transCount := 0;
        ghost var before := c.tree;
        SettledIsQuiet(c.tree);
        if c.tree.Bin? {
          EliminateDups1(c.tree.op, c, [], [], [], t, Operators(c.tree));
        }
        if transCount == 0 {
          break;
        }
        ApproximatesTransitive(e, before, c.tree, t);
        EliminateYnShrinks(c.tree);
        EliminateYnNegations(c.tree);
        EliminateYnEquivalent(c.tree);
        ApproximatesTransitive(e, c.tree, EliminateYn(c.tree), t);
        EliminateConstants(c, []);
      }
      transCount := oldCount;
      ReachShrinks(e, c.tree);
    }
  }

  lemma EliminateYnEquivalent(e: Expr)
    ensures Equivalent(e, EliminateYn(e))
  {
    forall env | WellTyped(env) ensures Value(e, env) == Value(EliminateYn(e), env) {
      EliminateYnValue(e, env);
    }
  }

  lemma {:induction false} EliminateYnNegations(e: Expr)
    ensures NegatesSymbols(e) ==> NegatesSymbols(EliminateYn(e))
  {
    if e.Bin? { EliminateYnNegations(e.left); EliminateYnNegations(e.right); }
  }

  lemma SettledIsQuiet(e: Expr)
    ensures e.Bin? ==> (Settled(e) <==> Quiet(e.op, e, [], []))
  {
  }

  lemma {:induction false} OperandCosts(op: Op, e: Expr, p: Path)
    requires InChain(op, e, p)
    ensures Operators(Get(e, p)) <= Operators(e) && (p != [] ==> Operators(Get(e, p)) < Operators(e))
    decreases |p|
  {
    if p != [] { OperandCosts(op, Child(e, p[0]), p[1..]); }
  }
}
