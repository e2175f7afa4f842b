// When one dependency is found to be a superset of another: its operands include
// the other's (tools/kconfig/menu.c: menu_finalize; tools/kconfig/expr.c:
// expr_eliminate_eq).
module ExprSuperset {
  import opened KconfigExpr
  import opened ExprEquality
  import opened ExprCompleteness

  // ----- What is left of the second chain -----

  lemma {:induction false} MasksItself(op: Op, e: Expr)
    ensures Masks(op, e, e)
  {
    if IsBin(e, op) {
      MasksItself(op, e.left);
      MasksItself(op, e.right);
    }
  }

  lemma {:induction false} SecondIsMasked(op: Op, a: Expr, b: Expr)
    ensures Masks(op, b, EliminateCommon(op, a, b).1)
    decreases Size(a) + Size(b)
  {
    if IsBin(a, op) {
      var (l, b1) := EliminateCommon(op, a.left, b);
      SecondIsMasked(op, a.left, b);
      SecondIsMasked(op, a.right, b1);
      MasksTransitive(op, b, b1, EliminateCommon(op, a.right, b1).1);
    } else if IsBin(b, op) {
      SecondIsMasked(op, a, b.left);
      SecondIsMasked(op, EliminateCommon(op, a, b.left).0, b.right);
    } else {
      MasksItself(op, b);
    }
  }

  lemma {:induction false} MaskedIsWorking(op: Op, b: Expr, c: Expr, n: nat)
    requires Working(op, b, n) && Masks(op, b, c)
    ensures Working(op, c, n)
    decreases b
  {
    if IsBin(b, op) {
      MaskedIsWorking(op, b.left, c.left, n);
      MaskedIsWorking(op, b.right, c.right, n);
    }
  }

  /** Removing common operands of op never leaves the constant that decides op. */
  lemma NotDecided(op: Op, a: Expr, b: Expr, n: nat)
    requires Working(op, b, n)
    ensures EliminateYn(EliminateCommon(op, a, b).1) != Zero(op)
  {
    SecondIsMasked(op, a, b);
    MaskedIsWorking(op, b, EliminateCommon(op, a, b).1, n);
    ResidueOf(op, EliminateCommon(op, a, b).1, n);
  }

  /** An expression that is no chain of op removes at most one operand, and a unit
      none. */
  lemma {:induction false} OneRemoved(op: Op, a: Expr, b: Expr, n: nat)
    requires !IsBin(a, op) && Working(op, b, n)
    ensures var (a1, b1) := EliminateCommon(op, a, b);
            && Working(op, b1, n) && !IsBin(a1, op)
            && LiveOperands(op, b1) + (if a1 == a then 0 else 1) >= LiveOperands(op, b)
            && (a == Unit(op) ==> a1 == a) && (a1 == a || a1 == Unit(op))
    decreases b
  {
    if IsBin(b, op) {
      OneRemoved(op, a, b.left, n);
      OneRemoved(op, EliminateCommon(op, a, b.left).0, b.right, n);
    }
  }

  lemma {:induction false} ChainHasTwo(op: Op, e: Expr, n: nat)
    requires Reduced(e) && Working(op, e, n) && !IsYesOrNo(e)
    ensures LiveOperands(op, e) >= if IsBin(e, op) then 2 else 1
    decreases e
  {
    if IsBin(e, op) {
      ChainHasTwo(op, e.left, n);
      ChainHasTwo(op, e.right, n);
    }
  }

  // ----- The exact answer -----

  /** Every expression is found equal to at most as many operands of b as of d. */
  ghost predicate OperandsAmong(b: Expr, d: Expr) {
    forall x :: Live(And, x) ==> Count(And, b, x) <= Count(And, d, x)
  }

  /** The residue of b is y exactly when b is y or its operands are among those of
      the conjunction d. */
  lemma SupersetExact(d: Expr, b: Expr)
    requires Reduced(d) && Reduced(b)
    ensures EliminateEq(d, b).1 == Sym(SymYes) <==>
            b == Sym(SymYes) || (b != Sym(SymNo) && IsBin(d, And) && OperandsAmong(b, d))
  {
    if IsYesOrNo(b) {
      ConstantIsKept(d, b);
    } else if IsBin(d, And) {
      ConjunctionAnswer(d, b);
    } else {
      OthersAnswerNo(d, b);
    }
  }

  lemma {:induction false} ConstantMeets(op: Op, a: Expr, b: Expr)
    requires IsYesOrNo(b)
    ensures EliminateCommon(op, a, b) == (a, b)
    decreases a
  {
    if IsBin(a, op) {
      ConstantMeets(op, a.left, b);
      ConstantMeets(op, a.right, b);
    }
  }

  lemma ConstantIsKept(d: Expr, b: Expr)
    requires IsYesOrNo(b)
    ensures EliminateEq(d, b).1 == b
  {
    if d.Bin? { ConstantMeets(d.op, d, b); }
  }

  /** Without a conjunction on the first side too little is removed. */
  lemma OthersAnswerNo(d: Expr, b: Expr)
    requires Reduced(d) && Reduced(b) && !IsYesOrNo(b) && !IsBin(d, And)
    ensures EliminateEq(d, b).1 != Sym(SymYes)
  {
    var n := Size(d) + Size(b) + 1;
    ReducedIsWorking(Or, b, n);
    ReducedIsWorking(And, b, n);
    ReducedIsFixed(b);
    var (a1, b1) := if d.Bin? then EliminateCommon(Or, d, b) else (d, b);
    if d.Bin? {
      NotDecided(Or, d, b, n);
      SecondIsMasked(Or, d, b);
    }
    if IsBin(b1, Or) && !IsBin(a1, Or) {
      NotDecided(Or, a1, b1, n);
    } else if IsBin(b1, And) {
      ChainHasTwo(And, b1, n);
      OneRemoved(And, a1, b1, n);
      ResidueOf(And, EliminateCommon(And, a1, b1).1, n);
    }
  }

  lemma ConjunctionAnswer(d: Expr, b: Expr)
    requires Reduced(d) && Reduced(b) && !IsYesOrNo(b) && IsBin(d, And)
    ensures EliminateEq(d, b).1 == Sym(SymYes) <==> OperandsAmong(b, d)
  {
    var n := Size(d) + Size(b) + 1;
    ReducedIsWorking(And, d, n);
    ReducedIsWorking(And, b, n);
    var (a1, b1) := EliminateCommon(And, d, b);
    SecondIsMasked(And, d, b);
    MaskedIsWorking(And, b, b1, n);
    ResidueOf(And, b1, n);
    CountsDecide(d, b, n);
    if IsBin(b1, Or) {
      assert b1 == b;
      ReducedIsWorking(Or, b, n);
      NotDecided(Or, a1, b1, n);
    } else {
      assert EliminateEq(d, b).1 == EliminateYn(b1);
    }
  }

  /** Nothing is left of b exactly when its operands are among those of d. */
  lemma CountsDecide(d: Expr, b: Expr, n: nat)
    requires Reduced(d) && Reduced(b) && n > Size(d) + Size(b) && Working(And, d, n) && Working(And, b, n)
    ensures LiveOperands(And, EliminateCommon(And, d, b).1) == 0 <==> OperandsAmong(b, d)
  {
    if LiveOperands(And, EliminateCommon(And, d, b).1) == 0 {
      forall x | Live(And, x) ensures Count(And, b, x) <= Count(And, d, x) { NothingLeft(d, b, n, x); }
    } else {
      var x := SomethingLeft(d, b, n);
    }
  }

  lemma NothingLeft(d: Expr, b: Expr, n: nat, x: Expr)
    requires Working(And, d, n) && Working(And, b, n) && Live(And, x)
    requires LiveOperands(And, EliminateCommon(And, d, b).1) == 0
    ensures Count(And, b, x) <= Count(And, d, x)
  {
    var m := n + Size(x) + 1;
    WorkingGrows(d, n, m);
    WorkingGrows(b, n, m);
    EquivalenceHolds(m);
    CommonRemoved(And, d, b, m, x);
    NothingCounted(And, EliminateCommon(And, d, b).1, x);
  }

  lemma SomethingLeft(d: Expr, b: Expr, n: nat) returns (x: Expr)
    requires n > 1 && Working(And, d, n) && Working(And, b, n)
    requires LiveOperands(And, EliminateCommon(And, d, b).1) > 0
    ensures Live(And, x) && Count(And, b, x) > Count(And, d, x)
  {
    var (a1, b1) := EliminateCommon(And, d, b);
    EquivalenceHolds(n);
    CommonRemoved(And, d, b, n, Sym(Config("", Boolean)));
    x := SomeLive(And, b1, n);
    CommonRemoved(And, d, b, n, x);
    if Count(And, a1, x) > 0 { CountedPairs(And, a1, b1, n, x); }
  }

  lemma {:induction false} WorkingGrows(e: Expr, n: nat, m: nat)
    requires Working(And, e, n) && n <= m
    ensures Working(And, e, m)
    decreases e
  {
    if IsBin(e, And) {
      WorkingGrows(e.left, n, m);
      WorkingGrows(e.right, n, m);
    }
  }

  /** In particular when the operands of b occur among those of d, in any order:
      (A || B) && C is a superset of C. */
  lemma OperandsIncluded(d: Expr, b: Expr)
    requires Reduced(d) && Reduced(b) && !IsYesOrNo(b) && IsBin(d, And)
    requires multiset(Operands(And, b)) <= multiset(Operands(And, d))
    ensures EliminateEq(d, b).1 == Sym(SymYes)
  {
    forall x | Live(And, x) ensures Count(And, b, x) <= Count(And, d, x) {
      CountOfOperands(And, b, x);
      CountOfOperands(And, d, x);
      IncludedCounts(Operands(And, b), Operands(And, d), x);
    }
    SupersetExact(d, b);
  }

  lemma FirstIncluded<T>(s: seq<T>, t: seq<T>) returns (j: nat)
    requires s != [] && multiset(s) <= multiset(t)
    ensures j < |t| && t[j] == s[0] && multiset(s[1..]) <= multiset(Without(t, j))
  {
    var (x, rest) := (s[0], s[1..]);
    assert s == [x] + rest;
    assert multiset(s) == multiset([x]) + multiset(rest);
    assert multiset(s)[x] > 0 && x in multiset(t);
    j :| 0 <= j < |t| && t[j] == x;
    assert t == (t[..j] + [x]) + t[j + 1..];
    assert multiset(t) == multiset(t[..j]) + multiset([x]) + multiset(t[j + 1..]);
    assert multiset(Without(t, j)) == multiset(t[..j]) + multiset(t[j + 1..]);
    assert multiset(t) == multiset(Without(t, j)) + multiset([x]);
    Cancel(multiset(rest), multiset(Without(t, j)), multiset([x]));
  }

  lemma Cancel<T>(a: multiset<T>, b: multiset<T>, c: multiset<T>)
    requires a + c <= b + c
    ensures a <= b
  {
    forall x | x in a ensures a[x] <= b[x] { assert (a + c)[x] <= (b + c)[x]; }
  }

  lemma {:induction false} IncludedCounts(s: seq<Expr>, t: seq<Expr>, x: Expr)
    requires multiset(s) <= multiset(t)
    ensures CountIn(s, x) <= CountIn(t, x)
    decreases |s|
  {
    if s != [] {
      var j := FirstIncluded(s, t);
      IncludedCounts(s[1..], Without(t, j), x);
      CountWithout(t, j, x);
    }
  }
}
