// Which expressions expr_eq finds equal, beyond being sound: those that differ in
// the order of their operands only (tools/kconfig/expr.c: expr_eq,
// expr_eliminate_eq).
module ExprCompleteness {
  import opened KconfigExpr
  import opened ExprEquality

  // ----- Operands -----

  /** The operands of a chain from left to right. */
  function Operands(op: Op, e: Expr): (s: seq<Expr>)
    ensures |s| == OperandCount(op, e)
  {
    seq(OperandCount(op, e), i requires 0 <= i < OperandCount(op, e) => OperandAt(op, e, i))
  }

  lemma OperandsOfChain(op: Op, e: Expr)
    ensures IsBin(e, op) ==> Operands(op, e) == Operands(op, e.left) + Operands(op, e.right)
    ensures !IsBin(e, op) ==> Operands(op, e) == [e]
  {
  }

  /** Nowhere is y or n an operand of && or ||. */
  predicate Reduced(e: Expr) {
    match e
    case Sym(_) => true
    case Cmp(_, _, _) => true
    case Not(a) => Reduced(a)
    case Bin(_, l, r) => !IsYesOrNo(l) && !IsYesOrNo(r) && Reduced(l) && Reduced(r)
  }

  lemma {:induction false} ReducedIsFixed(e: Expr)
    requires Reduced(e)
    ensures EliminateYn(e) == e
  {
    if e.Bin? {
      ReducedIsFixed(e.left);
      ReducedIsFixed(e.right);
    }
  }

  // ----- The same up to order -----

  /** a and b differ at most in the order and grouping of operands, at any depth. */
  ghost predicate Rearranged(a: Expr, b: Expr)
    decreases Size(a), 1, 0
  {
    match a
    case Sym(_) => a == b
    case Cmp(_, _, _) => a == b
    case Not(x) => b.Not? && Rearranged(x, b.arg)
    case Bin(op, _, _) => IsBin(b, op) && PairedOff(Operands(op, a), Operands(op, b), Size(a))
  }

  /** Each expression of s is a rearrangement of one of t, one to one. */
  ghost predicate PairedOff(s: seq<Expr>, t: seq<Expr>, bound: nat)
    requires forall x :: x in s ==> Size(x) < bound
    decreases bound, 0, |s|
  {
    && |s| == |t|
    && (s != [] ==> exists j :: 0 <= j < |t| && Rearranged(s[0], t[j]) && PairedOff(s[1..], Without(t, j), bound))
  }

  function Without<T>(t: seq<T>, j: nat): seq<T>
    requires j < |t|
  {
    t[..j] + t[j + 1..]
  }

  // ----- Counting operands -----

  /** What can be removed: no chain of op, and not y or n. */
  predicate Live(op: Op, e: Expr) { Reduced(e) && !IsBin(e, op) && !IsYesOrNo(e) }

  /** The operands of e that are found equal to x. */
  function Count(op: Op, e: Expr, x: Expr): nat {
    if IsBin(e, op) then Count(op, e.left, x) + Count(op, e.right, x) else if ExprEq(e, x) then 1 else 0
  }

  /** A chain whose operands are live or replaced by units already. */
  predicate Working(op: Op, e: Expr, n: nat) {
    if IsBin(e, op) then Working(op, e.left, n) && Working(op, e.right, n)
    else e == Unit(op) || (Live(op, e) && Size(e) < n)
  }

  /** b is a with some operands replaced by units. */
  predicate Masks(op: Op, a: Expr, b: Expr) {
    if IsBin(a, op) then IsBin(b, op) && Masks(op, a.left, b.left) && Masks(op, a.right, b.right)
    else b == a || b == Unit(op)
  }

  /** No live operand of a is found equal to a live one of b. */
  predicate NoPair(op: Op, a: Expr, b: Expr)
    decreases Size(a) + Size(b)
  {
    if IsBin(a, op) then NoPair(op, a.left, b) && NoPair(op, a.right, b)
    else if IsBin(b, op) then NoPair(op, a, b.left) && NoPair(op, a, b.right)
    else Live(op, a) && Live(op, b) ==> !ExprEq(a, b)
  }

  /** Symmetry and transitivity, for three expressions. */
  predicate Behave(x: Expr, y: Expr, z: Expr) {
    && (ExprEq(x, y) ==> ExprEq(y, x))
    && (ExprEq(x, y) && ExprEq(y, z) ==> ExprEq(x, z))
  }

  ghost predicate Equivalence(n: nat) {
    forall x, y, z {:trigger Behave(x, y, z)} ::
      Reduced(x) && Reduced(y) && Reduced(z) && Size(x) < n && Size(y) < n && Size(z) < n ==> Behave(x, y, z)
  }

  /** Equal expressions are equal to the same ones. */
  lemma SameClass(n: nat, x: Expr, y: Expr, z: Expr)
    requires Equivalence(n) && Reduced(x) && Reduced(y) && Reduced(z) && Size(x) < n && Size(y) < n && Size(z) < n
    requires ExprEq(x, y)
    ensures ExprEq(y, x) && (ExprEq(x, z) <==> ExprEq(y, z))
  {
    assert Behave(x, y, z) && Behave(y, x, z);
  }

  lemma {:induction false} NoPairMasked(op: Op, a: Expr, b: Expr, c: Expr)
    requires NoPair(op, a, b) && Masks(op, b, c)
    ensures NoPair(op, a, c)
    decreases Size(a) + Size(b)
  {
    if IsBin(a, op) {
      NoPairMasked(op, a.left, b, c);
      NoPairMasked(op, a.right, b, c);
    } else if IsBin(b, op) {
      NoPairMasked(op, a, b.left, c.left);
      NoPairMasked(op, a, b.right, c.right);
    }
  }

  lemma {:induction false} UnitPairsNothing(op: Op, b: Expr)
    ensures NoPair(op, Unit(op), b)
    decreases Size(b)
  {
    if IsBin(b, op) {
      UnitPairsNothing(op, b.left);
      UnitPairsNothing(op, b.right);
    }
  }

  lemma {:induction false} MasksTransitive(op: Op, a: Expr, b: Expr, c: Expr)
    requires Masks(op, a, b) && Masks(op, b, c)
    ensures Masks(op, a, c)
  {
    if IsBin(a, op) {
      MasksTransitive(op, a.left, b.left, c.left);
      MasksTransitive(op, a.right, b.right, c.right);
    }
  }

  /** What the removal of common operands does to two chains, for operands equal to x. */
  ghost predicate Removes(op: Op, a: Expr, b: Expr, a1: Expr, b1: Expr, n: nat, x: Expr) {
    && Working(op, a1, n) && Working(op, b1, n)
    && Masks(op, a, a1) && Masks(op, b, b1)
    && NoPair(op, a1, b1)
    && Count(op, a1, x) + Count(op, b, x) == Count(op, a, x) + Count(op, b1, x)
  }

  lemma {:induction false} CommonRemoved(op: Op, a: Expr, b: Expr, n: nat, x: Expr)
    requires Equivalence(n) && Working(op, a, n) && Working(op, b, n) && Live(op, x) && Size(x) < n
    ensures var r := EliminateCommon(op, a, b); Removes(op, a, b, r.0, r.1, n, x)
    decreases Size(a) + Size(b)
  {
    if IsBin(a, op) {
      var (l, b1) := EliminateCommon(op, a.left, b);
      var (r, b2) := EliminateCommon(op, a.right, b1);
      CommonRemoved(op, a.left, b, n, x);
      CommonRemoved(op, a.right, b1, n, x);
      BothOperands(op, a, b, l, b1, r, b2, n, x);
    } else if IsBin(b, op) {
      var (a1, l) := EliminateCommon(op, a, b.left);
      var (a2, r) := EliminateCommon(op, a1, b.right);
      CommonRemoved(op, a, b.left, n, x);
      CommonRemoved(op, a1, b.right, n, x);
      OneOperand(op, a, b, a1, l, a2, r, n, x);
    } else {
      LeavesRemoved(op, a, b, n, x);
    }
  }

  lemma LeavesRemoved(op: Op, a: Expr, b: Expr, n: nat, x: Expr)
    requires Equivalence(n) && Working(op, a, n) && Working(op, b, n) && Live(op, x) && Size(x) < n
    requires !IsBin(a, op) && !IsBin(b, op)
    ensures var r := EliminateCommon(op, a, b); Removes(op, a, b, r.0, r.1, n, x)
  {
    if Live(op, a) && Live(op, b) && ExprEq(a, b) { SameClass(n, a, b, x); }
  }

  lemma BothOperands(op: Op, a: Expr, b: Expr, l: Expr, b1: Expr, r: Expr, b2: Expr, n: nat, x: Expr)
    requires IsBin(a, op)
    requires EliminateCommon(op, a.left, b) == (l, b1) && EliminateCommon(op, a.right, b1) == (r, b2)
    requires Removes(op, a.left, b, l, b1, n, x) && Removes(op, a.right, b1, r, b2, n, x)
    ensures var res := EliminateCommon(op, a, b); Removes(op, a, b, res.0, res.1, n, x)
  {
    NoPairMasked(op, l, b1, b2);
    MasksTransitive(op, b, b1, b2);
    assert EliminateCommon(op, a, b) == (Bin(op, l, r), b2);
  }

  lemma OneOperand(op: Op, a: Expr, b: Expr, a1: Expr, l: Expr, a2: Expr, r: Expr, n: nat, x: Expr)
    requires !IsBin(a, op) && IsBin(b, op)
    requires EliminateCommon(op, a, b.left) == (a1, l) && EliminateCommon(op, a1, b.right) == (a2, r)
    requires Removes(op, a, b.left, a1, l, n, x) && Removes(op, a1, b.right, a2, r, n, x)
    ensures var res := EliminateCommon(op, a, b); Removes(op, a, b, res.0, res.1, n, x)
  {
    if a2 != a1 { UnitPairsNothing(op, l); }
    assert EliminateCommon(op, a, b) == (a2, Bin(op, l, r));
  }

  // ----- When two chains are found equal -----

  /** The operands of a chain that are not units. */
  function LiveOperands(op: Op, e: Expr): nat {
    if IsBin(e, op) then LiveOperands(op, e.left) + LiveOperands(op, e.right) else if e == Unit(op) then 0 else 1
  }

  /** What constant elimination leaves of a working chain. */
  lemma {:induction false} ResidueOf(op: Op, e: Expr, n: nat)
    requires Working(op, e, n)
    ensures var r := EliminateYn(e);
            && (LiveOperands(op, e) == 0 <==> r == Unit(op))
            && (LiveOperands(op, e) > 1 ==> IsBin(r, op))
            && (LiveOperands(op, e) == 1 ==> Live(op, r))
            && r != Zero(op)
    decreases e
  {
    if IsBin(e, op) {
      ResidueOf(op, e.left, n);
      ResidueOf(op, e.right, n);
    } else if e != Unit(op) {
      ReducedIsFixed(e);
    }
  }

  /** A live operand that is left over, if there is one. */
  lemma {:induction false} SomeLive(op: Op, e: Expr, n: nat) returns (x: Expr)
    requires Working(op, e, n) && LiveOperands(op, e) > 0
    ensures Live(op, x) && Size(x) < n && Count(op, e, x) > 0
    ensures LiveOperands(op, e) == 1 ==> x == EliminateYn(e)
    decreases e
  {
    if IsBin(e, op) {
      ResidueOf(op, e.left, n);
      ResidueOf(op, e.right, n);
      if LiveOperands(op, e.left) > 0 {
        x := SomeLive(op, e.left, n);
      } else {
        x := SomeLive(op, e.right, n);
      }
    } else {
      x := e;
      ReducedIsFixed(e);
      ExprEqReflexive(e);
    }
  }

  /** An operand counted on both sides would have been a pair. */
  lemma {:induction false} CountedPairs(op: Op, a: Expr, b: Expr, n: nat, x: Expr)
    requires Equivalence(n) && Working(op, a, n) && Working(op, b, n) && NoPair(op, a, b)
    requires Live(op, x) && Size(x) < n && Count(op, a, x) > 0
    ensures Count(op, b, x) == 0
    decreases Size(a) + Size(b)
  {
    if IsBin(a, op) {
      if Count(op, a.left, x) > 0 { CountedPairs(op, a.left, b, n, x); } else { CountedPairs(op, a.right, b, n, x); }
    } else if IsBin(b, op) {
      CountedPairs(op, a, b.left, n, x);
      CountedPairs(op, a, b.right, n, x);
    } else if ExprEq(b, x) && Live(op, a) && Live(op, b) {
      SameClass(n, b, x, a);
      SameClass(n, a, x, b);
    }
  }

  ghost predicate SameCounts(op: Op, a: Expr, b: Expr, n: nat) {
    forall x :: Live(op, x) && Size(x) < n ==> Count(op, a, x) == Count(op, b, x)
  }

  lemma {:induction false} ReducedIsWorking(op: Op, e: Expr, n: nat)
    requires Reduced(e) && !IsYesOrNo(e) && (if IsBin(e, op) then Size(e) <= n else Size(e) < n)
    ensures Working(op, e, n)
    decreases e
  {
    if IsBin(e, op) {
      ReducedIsWorking(op, e.left, n);
      ReducedIsWorking(op, e.right, n);
    }
  }

  /** Two reduced chains are found equal exactly when every expression is found
      equal to as many operands of the one as of the other. */
  lemma ChainsEqual(op: Op, a: Expr, b: Expr, n: nat)
    requires Equivalence(n) && IsBin(a, op) && IsBin(b, op) && Reduced(a) && Reduced(b) && Size(a) <= n && Size(b) <= n
    ensures ExprEq(a, b) <==> SameCounts(op, a, b, n)
  {
    ReducedIsWorking(op, a, n);
    ReducedIsWorking(op, b, n);
    var (a1, b1) := EliminateCommon(op, a, b);
    assert ExprEq(a, b) <==> EliminateYn(a1).Sym? && EliminateYn(a1) == EliminateYn(b1) by {
      assert EliminateEq(a, b) == (EliminateYn(a1), EliminateYn(b1));
    }
    forall x | Live(op, x) && Size(x) < n ensures Removes(op, a, b, a1, b1, n, x) { CommonRemoved(op, a, b, n, x); }
    var any := Config("", Boolean);
    CommonRemoved(op, a, b, n, Sym(any));
    ResidueOf(op, a1, n);
    ResidueOf(op, b1, n);
    ResiduesMatch(op, a1, b1, n);
    if LiveOperands(op, a1) == 0 && LiveOperands(op, b1) == 0 {
      forall x | Live(op, x) && Size(x) < n ensures Count(op, a, x) == Count(op, b, x) {
        NothingCounted(op, a1, x);
        NothingCounted(op, b1, x);
      }
    } else if LiveOperands(op, a1) > 0 {
      var x := SomeLive(op, a1, n);
      CountedPairs(op, a1, b1, n, x);
      assert Count(op, a, x) != Count(op, b, x);
    } else {
      var x := SomeLive(op, b1, n);
      NothingCounted(op, a1, x);
      assert Count(op, a, x) != Count(op, b, x);
    }
  }

  lemma {:induction false} NothingCounted(op: Op, e: Expr, x: Expr)
    requires LiveOperands(op, e) == 0 && Live(op, x)
    ensures Count(op, e, x) == 0
    decreases e
  {
    if IsBin(e, op) {
      NothingCounted(op, e.left, x);
      NothingCounted(op, e.right, x);
    }
  }

  /** Residues without a pair reduce to one symbol only if nothing is left of either. */
  lemma ResiduesMatch(op: Op, a1: Expr, b1: Expr, n: nat)
    requires Equivalence(n) && Working(op, a1, n) && Working(op, b1, n) && NoPair(op, a1, b1)
    ensures EliminateYn(a1).Sym? && EliminateYn(a1) == EliminateYn(b1)
            <==> LiveOperands(op, a1) == 0 && LiveOperands(op, b1) == 0
  {
    ResidueOf(op, a1, n);
    ResidueOf(op, b1, n);
    if LiveOperands(op, a1) == 1 && LiveOperands(op, b1) == 1 && EliminateYn(a1) == EliminateYn(b1) {
      var x := SomeLive(op, a1, n);
      var y := SomeLive(op, b1, n);
      CountedPairs(op, a1, b1, n, x);
    }
  }

  // ----- expr_eq is an equivalence on reduced expressions -----

  lemma Behaves(x: Expr, y: Expr, z: Expr, n: nat)
    requires Equivalence(n) && Reduced(x) && Reduced(y) && Reduced(z)
    requires Size(x) <= n && Size(y) <= n && Size(z) <= n
    ensures Behave(x, y, z)
  {
    match x
    case Sym(_) =>
    case Cmp(_, _, _) =>
    case Not(a) =>
      if y.Not? {
        assert z.Not? ==> Behave(a, y.arg, z.arg);
        assert Behave(a, y.arg, a);
      }
    case Bin(op, _, _) =>
      if IsBin(y, op) {
        ChainsEqual(op, x, y, n);
        ChainsEqual(op, y, x, n);
        if IsBin(z, op) {
          ChainsEqual(op, y, z, n);
          ChainsEqual(op, x, z, n);
        }
      }
  }

  lemma {:induction false} EquivalenceHolds(n: nat)
    ensures Equivalence(n)
  {
    if n > 0 {
      EquivalenceHolds(n - 1);
      forall x, y, z | Reduced(x) && Reduced(y) && Reduced(z) && Size(x) < n && Size(y) < n && Size(z) < n
        ensures Behave(x, y, z)
      {
        Behaves(x, y, z, n - 1);
      }
    }
  }

  // ----- Counting is pairing -----

  function CountIn(s: seq<Expr>, x: Expr): nat {
    if s == [] then 0 else (if ExprEq(s[0], x) then 1 else 0) + CountIn(s[1..], x)
  }

  lemma {:induction false} CountInAppend(s: seq<Expr>, t: seq<Expr>, x: Expr)
    ensures CountIn(s + t, x) == CountIn(s, x) + CountIn(t, x)
  {
    if s == [] {
      assert s + t == t;
    } else {
      assert (s + t)[1..] == s[1..] + t;
      CountInAppend(s[1..], t, x);
    }
  }

  lemma {:induction false} CountOfOperands(op: Op, e: Expr, x: Expr)
    ensures Count(op, e, x) == CountIn(Operands(op, e), x)
    decreases e
  {
    OperandsOfChain(op, e);
    if IsBin(e, op) {
      CountOfOperands(op, e.left, x);
      CountOfOperands(op, e.right, x);
      CountInAppend(Operands(op, e.left), Operands(op, e.right), x);
    } else {
      assert [e][1..] == [];
    }
  }

  lemma CountWithout(t: seq<Expr>, j: nat, x: Expr)
    requires j < |t|
    ensures CountIn(t, x) == CountIn(Without(t, j), x) + if ExprEq(t[j], x) then 1 else 0
  {
    assert t == t[..j] + ([t[j]] + t[j + 1..]) && [t[j]][1..] == [];
    CountInAppend(t[..j], [t[j]] + t[j + 1..], x);
    CountInAppend([t[j]], t[j + 1..], x);
    CountInAppend(t[..j], t[j + 1..], x);
  }

  lemma {:induction false} FoundIn(t: seq<Expr>, x: Expr) returns (j: nat)
    requires CountIn(t, x) > 0
    ensures j < |t| && ExprEq(t[j], x)
  {
    j := 0;
    if !ExprEq(t[0], x) {
      j := FoundIn(t[1..], x);
      j := j + 1;
    }
  }

  ghost predicate AllLive(op: Op, s: seq<Expr>, n: nat) { forall x :: x in s ==> Live(op, x) && Size(x) < n }

  ghost predicate SameCountsIn(op: Op, s: seq<Expr>, t: seq<Expr>, n: nat) {
    forall x :: Live(op, x) && Size(x) < n ==> CountIn(s, x) == CountIn(t, x)
  }

  lemma WithoutIsLive(op: Op, t: seq<Expr>, j: nat, n: nat)
    requires AllLive(op, t, n) && j < |t|
    ensures AllLive(op, Without(t, j), n) && Live(op, t[j]) && Size(t[j]) < n
  {
  }

  /** Removing a pair keeps the counts the same. */
  lemma PairRemoved(op: Op, s: seq<Expr>, t: seq<Expr>, j: nat, n: nat)
    requires Equivalence(n) && AllLive(op, s, n) && AllLive(op, t, n) && s != [] && j < |t| && ExprEq(s[0], t[j])
    ensures SameCountsIn(op, s, t, n) <==> SameCountsIn(op, s[1..], Without(t, j), n)
  {
    WithoutIsLive(op, t, j, n);
    assert s[0] in s;
    forall x | Live(op, x) && Size(x) < n
      ensures CountIn(s, x) == CountIn(t, x) <==> CountIn(s[1..], x) == CountIn(Without(t, j), x)
    {
      CountWithout(t, j, x);
      SameClass(n, s[0], t[j], x);
    }
  }

  /** Expressions can be paired off exactly when the counts agree. */
  lemma {:induction false} PairingCounts(op: Op, s: seq<Expr>, t: seq<Expr>, bound: nat, n: nat)
    requires Equivalence(n) && AllLive(op, s, n) && AllLive(op, t, n) && forall x :: x in s ==> Size(x) < bound
    ensures PairedOff(s, t, bound) <==> SameCountsIn(op, s, t, n)
    decreases bound, 0, |s|
  {
    if s == [] {
      if t != [] {
        ExprEqReflexive(t[0]);
        assert CountIn(t, t[0]) > 0 && CountIn(s, t[0]) == 0 && Live(op, t[0]);
      }
    } else {
      assert s[0] in s;
      if PairedOff(s, t, bound) {
        var j :| 0 <= j < |t| && Rearranged(s[0], t[j]) && PairedOff(s[1..], Without(t, j), bound);
        WithoutIsLive(op, t, j, n);
        EqualIfRearranged(s[0], t[j]);
        PairingCounts(op, s[1..], Without(t, j), bound, n);
        PairRemoved(op, s, t, j, n);
      }
      if SameCountsIn(op, s, t, n) {
        ExprEqReflexive(s[0]);
        var j := FoundIn(t, s[0]);
        WithoutIsLive(op, t, j, n);
        SameClass(n, t[j], s[0], s[0]);
        EqualIfRearranged(s[0], t[j]);
        PairRemoved(op, s, t, j, n);
        PairingCounts(op, s[1..], Without(t, j), bound, n);
      }
    }
  }

  lemma {:induction false} OperandsAreLive(op: Op, e: Expr, n: nat)
    requires Reduced(e) && !IsYesOrNo(e) && (if IsBin(e, op) then Size(e) <= n else Size(e) < n)
    ensures AllLive(op, Operands(op, e), n)
    decreases e
  {
    OperandsOfChain(op, e);
    if IsBin(e, op) {
      OperandsAreLive(op, e.left, n);
      OperandsAreLive(op, e.right, n);
    }
  }

  /** On reduced expressions expr_eq says exactly whether the operands are the same
      up to order, at every level; repeated operands must be repeated equally often. */
  lemma {:induction false} EqualIfRearranged(a: Expr, b: Expr)
    requires Reduced(a) && Reduced(b)
    ensures ExprEq(a, b) <==> Rearranged(a, b)
    decreases Size(a), 1, 0
  {
    match a
    case Sym(_) =>
    case Cmp(_, _, _) =>
    case Not(x) => if b.Not? { EqualIfRearranged(x, b.arg); }
    case Bin(op, _, _) => if IsBin(b, op) { ChainsIfRearranged(op, a, b); }
  }

  lemma ChainsIfRearranged(op: Op, a: Expr, b: Expr)
    requires Reduced(a) && Reduced(b) && IsBin(a, op) && IsBin(b, op)
    ensures ExprEq(a, b) <==> PairedOff(Operands(op, a), Operands(op, b), Size(a))
    decreases Size(a), 0, OperandCount(op, a) + 1
  {
    var n := if Size(a) < Size(b) then Size(b) else Size(a);
    EquivalenceHolds(n);
    ChainsEqual(op, a, b, n);
    OperandsAreLive(op, a, n);
    OperandsAreLive(op, b, n);
    forall x | Live(op, x) && Size(x) < n
      ensures Count(op, a, x) == CountIn(Operands(op, a), x) && Count(op, b, x) == CountIn(Operands(op, b), x)
    {
      CountOfOperands(op, a, x);
      CountOfOperands(op, b, x);
    }
    PairingCounts(op, Operands(op, a), Operands(op, b), Size(a), n);
  }

  // ----- Constants as operands -----

  // Three expressions of one meaning, with more and more constants in them: the
  // second is found equal to both others, but these are not found equal.
  const A := Sym(Config("A", Tristate))
  const C := Sym(Config("C", Tristate))
  const A_OR_NO := Bin(Or, A, Sym(SymNo))
  const C_OR_NO := Bin(Or, C, Sym(SymNo))
  const PLAIN := Bin(And, A, C)
  const HALF := Bin(And, A_OR_NO, C)
  const FULL := Bin(And, A_OR_NO, C_OR_NO)

  lemma PlainEqualsHalf()
    ensures ExprEq(PLAIN, HALF)
  {
    assert EliminateCommon(And, A, HALF) == (A, HALF) by {
      assert EliminateCommon(And, A, A_OR_NO) == (A, A_OR_NO) && EliminateCommon(And, A, C) == (A, C);
    }
    assert EliminateCommon(And, C, HALF) == (Sym(SymYes), Bin(And, A_OR_NO, Sym(SymYes))) by {
      assert EliminateCommon(And, C, A_OR_NO) == (C, A_OR_NO);
      assert EliminateCommon(And, C, C) == (Sym(SymYes), Sym(SymYes));
    }
    assert EliminateCommon(And, PLAIN, HALF) == (Bin(And, A, Sym(SymYes)), Bin(And, A_OR_NO, Sym(SymYes)));
    assert EliminateYn(A_OR_NO) == A;
    assert EliminateEq(PLAIN, HALF) == (A, A);
  }

  lemma HalfEqualsFull()
    ensures ExprEq(HALF, FULL)
  {
    assert EliminateCommon(And, A_OR_NO, FULL) == (Sym(SymYes), Bin(And, Sym(SymYes), C_OR_NO)) by {
      ExprEqReflexive(A_OR_NO);
      assert EliminateCommon(And, A_OR_NO, A_OR_NO) == (Sym(SymYes), Sym(SymYes));
      assert EliminateCommon(And, Sym(SymYes), C_OR_NO) == (Sym(SymYes), C_OR_NO);
    }
    var rest := Bin(And, Sym(SymYes), C_OR_NO);
    assert EliminateCommon(And, C, rest) == (C, rest) by {
      assert EliminateCommon(And, C, Sym(SymYes)) == (C, Sym(SymYes));
      assert EliminateCommon(And, C, C_OR_NO) == (C, C_OR_NO);
    }
    assert EliminateCommon(And, HALF, FULL) == (Bin(And, Sym(SymYes), C), rest);
    assert EliminateYn(C_OR_NO) == C;
    assert EliminateEq(HALF, FULL) == (C, C);
  }

  lemma FullDiffersFromPlain()
    ensures !ExprEq(FULL, PLAIN)
  {
    assert EliminateCommon(And, A_OR_NO, PLAIN) == (A_OR_NO, PLAIN) by {
      assert EliminateCommon(And, A_OR_NO, A) == (A_OR_NO, A) && EliminateCommon(And, A_OR_NO, C) == (A_OR_NO, C);
    }
    assert EliminateCommon(And, C_OR_NO, PLAIN) == (C_OR_NO, PLAIN) by {
      assert EliminateCommon(And, C_OR_NO, A) == (C_OR_NO, A) && EliminateCommon(And, C_OR_NO, C) == (C_OR_NO, C);
    }
    assert EliminateCommon(And, FULL, PLAIN) == (FULL, PLAIN);
    assert EliminateYn(A_OR_NO) == A && EliminateYn(C_OR_NO) == C && EliminateYn(FULL) == PLAIN;
    assert EliminateEq(FULL, PLAIN) == (PLAIN, PLAIN);
  }

  /** With constants below operators even a mere change of order can be missed. */
  lemma ConstantsHideOrder()
    ensures Rearranged(Bin(Or, Bin(Or, HALF, PLAIN), FULL), Bin(Or, Bin(Or, FULL, HALF), PLAIN))
    ensures !ExprEq(Bin(Or, Bin(Or, HALF, PLAIN), FULL), Bin(Or, Bin(Or, FULL, HALF), PLAIN))
  {
    ThreeRearranged(Or, HALF, PLAIN, FULL);
    PlainEqualsHalf();
    HalfEqualsFull();
    FullDiffersFromPlain();
    FullReduces();
    GreedyMisses(HALF, PLAIN, FULL);
  }

  lemma FullReduces()
    ensures EliminateYn(FULL) == PLAIN
  {
    assert EliminateYn(A_OR_NO) == A && EliminateYn(C_OR_NO) == C;
  }

  /** Two chains of && as operands of ||. */
  lemma OperandsMeet(x: Expr, y: Expr)
    requires IsBin(x, And) && IsBin(y, And)
    ensures EliminateCommon(Or, x, y) == if ExprEq(x, y) then (Sym(SymNo), Sym(SymNo)) else (x, y)
    ensures EliminateCommon(Or, x, Sym(SymNo)) == (x, Sym(SymNo))
    ensures EliminateCommon(Or, Sym(SymNo), y) == (Sym(SymNo), y)
  {
  }

  lemma MeetsTwo(x: Expr, l: Expr, r: Expr, x1: Expr, l1: Expr, x2: Expr, r1: Expr)
    requires !IsBin(x, Or) && EliminateCommon(Or, x, l) == (x1, l1) && EliminateCommon(Or, x1, r) == (x2, r1)
    ensures EliminateCommon(Or, x, Bin(Or, l, r)) == (x2, Bin(Or, l1, r1))
  {
  }

  /** The first operand h takes the copy of f away, so nothing is left for f. */
  lemma GreedyMisses(h: Expr, p: Expr, f: Expr)
    requires IsBin(h, And) && IsBin(p, And) && IsBin(f, And) && IsBin(EliminateYn(f), And)
    requires ExprEq(h, f) && ExprEq(p, h) && !ExprEq(f, p)
    ensures !ExprEq(Bin(Or, Bin(Or, h, p), f), Bin(Or, Bin(Or, f, h), p))
  {
    var no := Sym(SymNo);
    var (a, b) := (Bin(Or, Bin(Or, h, p), f), Bin(Or, Bin(Or, f, h), p));
    var (b1, b2) := (Bin(Or, Bin(Or, no, h), p), Bin(Or, Bin(Or, no, no), p));
    OperandsMeet(h, f);
    OperandsMeet(h, h);
    OperandsMeet(p, p);
    MeetsTwo(h, f, h, no, no, no, h);
    MeetsTwo(h, Bin(Or, f, h), p, no, Bin(Or, no, h), no, p);
    OperandsMeet(p, h);
    MeetsTwo(p, no, h, p, no, no, no);
    MeetsTwo(p, Bin(Or, no, h), p, no, Bin(Or, no, no), no, p);
    OperandsMeet(f, p);
    MeetsTwo(f, no, no, f, no, f, no);
    MeetsTwo(f, Bin(Or, no, no), p, f, Bin(Or, no, no), f, p);
    ThreeAgainst(h, p, f, b, b1, b2, b2);
    NotFoundEqual(a, b, Bin(Or, Bin(Or, no, no), f), b2, f);
  }

  lemma ThreeAgainst(h: Expr, p: Expr, f: Expr, b: Expr, b1: Expr, b2: Expr, b3: Expr)
    requires EliminateCommon(Or, h, b) == (Sym(SymNo), b1) && EliminateCommon(Or, p, b1) == (Sym(SymNo), b2)
    requires EliminateCommon(Or, f, b2) == (f, b3)
    ensures EliminateCommon(Or, Bin(Or, Bin(Or, h, p), f), b) == (Bin(Or, Bin(Or, Sym(SymNo), Sym(SymNo)), f), b3)
  {
    assert EliminateCommon(Or, Bin(Or, h, p), b) == (Bin(Or, Sym(SymNo), Sym(SymNo)), b2);
  }

  lemma NotFoundEqual(a: Expr, b: Expr, a1: Expr, b1: Expr, f: Expr)
    requires IsBin(a, Or) && IsBin(b, Or) && EliminateCommon(Or, a, b) == (a1, b1)
    requires a1 == Bin(Or, Bin(Or, Sym(SymNo), Sym(SymNo)), f) && IsBin(EliminateYn(f), And)
    ensures !ExprEq(a, b)
  {
    assert EliminateYn(Bin(Or, Sym(SymNo), Sym(SymNo))) == Sym(SymNo);
    assert EliminateYn(a1) == EliminateYn(f);
    assert EliminateEq(a, b).0 == EliminateYn(a1);
  }

  lemma ThreeRearranged(op: Op, h: Expr, p: Expr, f: Expr)
    requires !IsBin(h, op) && !IsBin(p, op) && !IsBin(f, op)
    ensures Rearranged(Bin(op, Bin(op, h, p), f), Bin(op, Bin(op, f, h), p))
  {
    var a := Bin(op, Bin(op, h, p), f);
    ThreeOperands(op, h, p, f);
    ThreeOperands(op, f, h, p);
    RearrangedItself(h);
    RearrangedItself(p);
    RearrangedItself(f);
    assert Size(a) == 2 + Size(h) + Size(p) + Size(f);
    ThreePaired(h, p, f, Size(a));
  }

  lemma ThreeOperands(op: Op, h: Expr, p: Expr, f: Expr)
    requires !IsBin(h, op) && !IsBin(p, op) && !IsBin(f, op)
    ensures Operands(op, Bin(op, Bin(op, h, p), f)) == [h, p, f]
  {
    OperandsOfChain(op, Bin(op, Bin(op, h, p), f));
    OperandsOfChain(op, Bin(op, h, p));
    OperandsOfChain(op, h);
    OperandsOfChain(op, p);
    OperandsOfChain(op, f);
  }

  lemma ThreePaired(h: Expr, p: Expr, f: Expr, bound: nat)
    requires Rearranged(h, h) && Rearranged(p, p) && Rearranged(f, f) && Size(h) < bound && Size(p) < bound
             && Size(f) < bound
    ensures PairedOff([h, p, f], [f, h, p], bound)
  {
    assert PairedOff([f][1..], Without([f], 0), bound);
    assert PairedOff([f], [f], bound);
    assert [p, f][1..] == [f] && Without([f, p], 1) == [f];
    assert PairedOff([p, f], [f, p], bound) by { assert [f, p][1] == p; }
    assert [h, p, f][1..] == [p, f] && Without([f, h, p], 1) == [f, p];
    assert [f, h, p][1] == h;
  }

  lemma {:induction false} RearrangedItself(e: Expr)
    ensures Rearranged(e, e)
    decreases Size(e), 1, 0
  {
    if e.Not? { RearrangedItself(e.arg); }
    if e.Bin? { PairedWithItself(Operands(e.op, e), Size(e)); }
  }

  lemma {:induction false} PairedWithItself(s: seq<Expr>, bound: nat)
    requires forall x :: x in s ==> Size(x) < bound
    ensures PairedOff(s, s, bound)
    decreases bound, 0, |s|
  {
    if s != [] {
      assert s[0] in s;
      RearrangedItself(s[0]);
      PairedWithItself(s[1..], bound);
      assert Without(s, 0) == s[1..];
    }
  }
}
