// Operand elimination and the equality test built on it
// (tools/kconfig/expr.c: expr_eliminate_eq, expr_eq, expr_eliminate_yn).
module ExprEquality {
  import opened KconfigExpr

  // ----- Constant elimination -----

  /** One node of expr_eliminate_yn, its operands being reduced already. */
  function FoldConstants(op: Op, l: Expr, r: Expr): Expr {
    if l == Zero(op) then Zero(op)
    else if l == Unit(op) then r
    else if r == Zero(op) then Zero(op)
    else if r == Unit(op) then l
    else Bin(op, l, r)
  }

  function EliminateYn(e: Expr): Expr {
    if e.Bin? then FoldConstants(e.op, EliminateYn(e.left), EliminateYn(e.right)) else e
  }

  /** The number of && and || operators. */
  function Operators(e: Expr): nat {
    match e
    case Not(a) => Operators(a)
    case Bin(_, l, r) => 1 + Operators(l) + Operators(r)
    case _ => 0
  }

  /** Some && or || has y or n as an operand. */
  predicate HasConstantOperand(e: Expr) {
    e.Bin? && (e.left in {Sym(SymYes), Sym(SymNo)} || e.right in {Sym(SymYes), Sym(SymNo)}
               || HasConstantOperand(e.left) || HasConstantOperand(e.right))
  }

  lemma {:induction false} EliminateYnValue(e: Expr, env: Env)
    requires WellTyped(env)
    ensures Value(EliminateYn(e), env) == Value(e, env)
  {
    if e.Bin? {
      EliminateYnValue(e.left, env);
      EliminateYnValue(e.right, env);
    }
  }

  /** The reduction loses an operator exactly when some operand was constant,
      and then nothing constant is left below an operator. */
  lemma {:induction false} EliminateYnShrinks(e: Expr)
    ensures !HasConstantOperand(EliminateYn(e))
    ensures Operators(EliminateYn(e)) <= Operators(e)
    ensures Operators(EliminateYn(e)) < Operators(e) <==> HasConstantOperand(e)
    ensures !HasConstantOperand(e) ==> EliminateYn(e) == e
    ensures Atoms(EliminateYn(e)) <= Atoms(e)
  {
    if e.Bin? {
      EliminateYnShrinks(e.left);
      EliminateYnShrinks(e.right);
    }
  }

  // ----- Elimination of common operands -----

  predicate IsYesOrNo(e: Expr) { e == Sym(SymYes) || e == Sym(SymNo) }

  /** __expr_eliminate_eq: every operand of a is compared with every operand of
      b, and a pair of equal operands becomes a pair of units. */
  function EliminateCommon(op: Op, a: Expr, b: Expr): (r: (Expr, Expr))
    ensures Size(r.0) <= Size(a) && Size(r.1) <= Size(b)
    ensures IsBin(a, op) ==> IsBin(r.0, op)
    ensures IsBin(b, op) ==> IsBin(r.1, op)
    decreases Size(a) + Size(b), if IsBin(a, op) || IsBin(b, op) then 0 else 3
  {
    if IsBin(a, op) then
      var (l, b1) := EliminateCommon(op, a.left, b);
      var (r, b2) := EliminateCommon(op, a.right, b1);
      (Bin(op, l, r), b2)
    else if IsBin(b, op) then
      var (a1, l) := EliminateCommon(op, a, b.left);
      var (a2, r) := EliminateCommon(op, a1, b.right);
      (a2, Bin(op, l, r))
    else if a == b && IsYesOrNo(a) then (a, b)
    else if !ExprEq(a, b) then (a, b)
    else (Unit(op), Unit(op))
  }

  /** expr_eliminate_eq on two present expressions. */
  function EliminateEq(a: Expr, b: Expr): (r: (Expr, Expr))
    decreases Size(a) + Size(b), 1
  {
    var (a1, b1) := if a.Bin? then EliminateCommon(a.op, a, b) else (a, b);
    var (a2, b2) := if b1.Bin? && !IsBin(a1, b1.op) then EliminateCommon(b1.op, a1, b1) else (a1, b1);
    (EliminateYn(a2), EliminateYn(b2))
  }

  /** expr_eq on two present expressions. */
  predicate ExprEq(a: Expr, b: Expr)
    decreases Size(a) + Size(b), 2
  {
    match a
    case Sym(s) => b.Sym? && s == b.sym
    case Cmp(rel, l, r) => b.Cmp? && rel == b.rel && l == b.lhs && r == b.rhs
    case Not(x) => b.Not? && ExprEq(x, b.arg)
    case Bin(op, _, _) =>
      IsBin(b, op) &&
      var (a1, b1) := EliminateEq(a, b);
      a1.Sym? && b1.Sym? && a1.sym == b1.sym
  }

  // ----- Soundness -----

  /** Joining two pairs operand by operand or pair by pair is the same. */
  lemma CombineExchange(op: Op, a: Tri, b: Tri, c: Tri, d: Tri)
    ensures Combine(op, Combine(op, a, b), Combine(op, c, d)) == Combine(op, Combine(op, a, c), Combine(op, b, d))
    ensures Combine(op, a, Combine(op, c, d)) == Combine(op, Combine(op, a, c), d)
  {
  }

  /** Some common value c remains: each original is its residue joined with c. */
  lemma {:induction false} EliminateCommonSound(op: Op, a: Expr, b: Expr, env: Env) returns (c: Tri)
    requires WellTyped(env)
    ensures var r := EliminateCommon(op, a, b);
            Value(a, env) == Combine(op, c, Value(r.0, env)) && Value(b, env) == Combine(op, c, Value(r.1, env))
    decreases Size(a) + Size(b), if IsBin(a, op) || IsBin(b, op) then 0 else 3
  {
    var none: Tri := if op == Or then 0 else 2;
    if IsBin(a, op) {
      var (l, b1) := EliminateCommon(op, a.left, b);
      var (r, b2) := EliminateCommon(op, a.right, b1);
      var c1 := EliminateCommonSound(op, a.left, b, env);
      var c2 := EliminateCommonSound(op, a.right, b1, env);
      c := Combine(op, c1, c2);
      CombineExchange(op, c1, Value(l, env), c2, Value(r, env));
      CombineExchange(op, c1, 0, c2, Value(b2, env));
    } else if IsBin(b, op) {
      var (a1, l) := EliminateCommon(op, a, b.left);
      var (a2, r) := EliminateCommon(op, a1, b.right);
      var c1 := EliminateCommonSound(op, a, b.left, env);
      var c2 := EliminateCommonSound(op, a1, b.right, env);
      c := Combine(op, c1, c2);
      CombineExchange(op, c1, Value(l, env), c2, Value(r, env));
      CombineExchange(op, c1, 0, c2, Value(a2, env));
    } else if a == b && IsYesOrNo(a) {
      c := none;
    } else if ExprEq(a, b) {
      ExprEqSound(a, b, env);
      c := Value(a, env);
    } else {
      c := none;
    }
  }

  /** A positive answer of expr_eq means equal values in every environment. */
  lemma {:induction false} ExprEqSound(a: Expr, b: Expr, env: Env)
    requires WellTyped(env) && ExprEq(a, b)
    ensures Value(a, env) == Value(b, env)
    decreases Size(a) + Size(b), 2
  {
    if a.Not? {
      ExprEqSound(a.arg, b.arg, env);
    } else if a.Bin? {
      var (a1, b1) := EliminateCommon(a.op, a, b);
      var c := EliminateCommonSound(a.op, a, b, env);
      EliminateYnValue(a1, env);
      EliminateYnValue(b1, env);
    }
  }

  /** Removing common operands never reverses the order of the two values. */
  lemma EliminateCommonOrder(op: Op, a: Expr, b: Expr, env: Env)
    requires WellTyped(env)
    requires var r := EliminateCommon(op, a, b); Value(r.0, env) <= Value(r.1, env)
    ensures Value(a, env) <= Value(b, env)
  {
    var _ := EliminateCommonSound(op, a, b, env);
  }

  /** The superset test of menu_finalize: when the residue of b is y, the value
      of a never exceeds the value of b. */
  lemma SupersetTestSound(a: Expr, b: Expr, env: Env)
    requires WellTyped(env) && EliminateEq(a, b).1 == Sym(SymYes)
    ensures Value(a, env) <= Value(b, env)
  {
    var (a1, b1) := if a.Bin? then EliminateCommon(a.op, a, b) else (a, b);
    var (a2, b2) := if b1.Bin? && !IsBin(a1, b1.op) then EliminateCommon(b1.op, a1, b1) else (a1, b1);
    EliminateYnValue(b2, env);
    assert EliminateEq(a, b).1 == EliminateYn(b2);
    assert Value(b2, env) == 2;
    if b1.Bin? && !IsBin(a1, b1.op) {
      EliminateCommonOrder(b1.op, a1, b1, env);
    }
    if a.Bin? {
      EliminateCommonOrder(a.op, a, b, env);
    }
  }

  // ----- Completeness on copies -----

  function OperandCount(op: Op, e: Expr): (n: nat)
    ensures n >= 1
  {
    if IsBin(e, op) then OperandCount(op, e.left) + OperandCount(op, e.right) else 1
  }

  function OperandAt(op: Op, e: Expr, i: nat): (r: Expr)
    requires i < OperandCount(op, e)
    ensures !IsBin(r, op) && Size(r) <= Size(e) && (IsBin(e, op) ==> Size(r) < Size(e))
  {
    if !IsBin(e, op) then e
    else if i < OperandCount(op, e.left) then OperandAt(op, e.left, i)
    else OperandAt(op, e.right, i - OperandCount(op, e.left))
  }

  function MaskOperand(op: Op, e: Expr): Expr { if IsYesOrNo(e) then e else Unit(op) }

  /** e with its first k operands, other than y and n, replaced by units. */
  function MaskFirst(op: Op, e: Expr, k: nat): Expr {
    if k == 0 then e
    else if !IsBin(e, op) then MaskOperand(op, e)
    else
      var n := OperandCount(op, e.left);
      Bin(op, MaskFirst(op, e.left, k), MaskFirst(op, e.right, if k < n then 0 else k - n))
  }

  lemma {:induction false} ConstantStays(op: Op, x: Expr, e: Expr)
    requires IsYesOrNo(x)
    ensures EliminateCommon(op, x, e) == (x, e)
    decreases e
  {
    if IsBin(e, op) {
      ConstantStays(op, x, e.left);
      ConstantStays(op, x, e.right);
    }
  }

  /** Comparing x with the copy of e whose first i operands are done. */
  ghost predicate MeetsCopy(op: Op, x: Expr, e: Expr, i: nat) {
    EliminateCommon(op, x, MaskFirst(op, e, i)) ==
      if i < OperandCount(op, e) then (MaskOperand(op, x), MaskFirst(op, e, i + 1)) else (x, MaskFirst(op, e, i))
  }

  /** The i-th operand x meets its copy. */
  lemma {:induction false} OperandMeetsCopy(op: Op, x: Expr, e: Expr, i: nat)
    requires !IsBin(x, op) && ExprEq(x, x)
    requires i < OperandCount(op, e) ==> OperandAt(op, e, i) == x
    ensures MeetsCopy(op, x, e, i)
    decreases e
  {
    if IsYesOrNo(x) {
      ConstantStays(op, x, MaskFirst(op, e, i));
      MaskConstant(op, x, e, i);
    } else if IsBin(e, op) {
      var n := OperandCount(op, e.left);
      OperandMeetsCopy(op, x, e.left, i);
      if i < n {
        MeetsInLeft(op, x, e, i);
      } else {
        OperandMeetsCopy(op, x, e.right, i - n);
        MeetsInRight(op, x, e, i);
      }
    }
  }

  lemma MeetsInLeft(op: Op, x: Expr, e: Expr, i: nat)
    requires !IsBin(x, op) && !IsYesOrNo(x) && IsBin(e, op) && i < OperandCount(op, e.left)
             && MeetsCopy(op, x, e.left, i)
    ensures MeetsCopy(op, x, e, i)
  {
    ConstantStays(op, Unit(op), e.right);
    MaskOfChain(op, e, i);
    MaskOfChain(op, e, i + 1);
  }

  lemma MeetsInRight(op: Op, x: Expr, e: Expr, i: nat)
    requires !IsBin(x, op) && IsBin(e, op) && i >= OperandCount(op, e.left)
    requires MeetsCopy(op, x, e.left, i) && MeetsCopy(op, x, e.right, i - OperandCount(op, e.left))
    ensures MeetsCopy(op, x, e, i)
  {
    MaskAll(op, e.left, i, i + 1);
    MaskOfChain(op, e, i);
    MaskOfChain(op, e, i + 1);
  }

  lemma MaskOfChain(op: Op, e: Expr, i: nat)
    requires IsBin(e, op)
    ensures var n := OperandCount(op, e.left);
            MaskFirst(op, e, i) == Bin(op, MaskFirst(op, e.left, i), MaskFirst(op, e.right, if i < n then 0 else i - n))
  {
    MaskStep(op, e.left, i);
    MaskStep(op, e.right, i);
  }

  lemma {:induction false} MaskConstant(op: Op, x: Expr, e: Expr, i: nat)
    requires IsYesOrNo(x) && (i < OperandCount(op, e) ==> OperandAt(op, e, i) == x)
    ensures MaskFirst(op, e, i) == MaskFirst(op, e, i + 1)
    decreases e
  {
    if IsBin(e, op) {
      var n := OperandCount(op, e.left);
      MaskConstant(op, x, e.left, i);
      if i < n { MaskStep(op, e.left, i); } else { MaskConstant(op, x, e.right, i - n); }
    }
  }

  lemma {:induction false} MaskStep(op: Op, e: Expr, i: nat)
    ensures MaskFirst(op, e, 0) == e
    ensures i >= OperandCount(op, e) ==> MaskFirst(op, e, i) == MaskFirst(op, e, OperandCount(op, e))
    decreases e
  {
    if i >= OperandCount(op, e) { MaskAll(op, e, i, OperandCount(op, e)); }
  }

  lemma {:induction false} MaskAll(op: Op, e: Expr, i: nat, j: nat)
    requires i >= OperandCount(op, e) && j >= OperandCount(op, e)
    ensures MaskFirst(op, e, i) == MaskFirst(op, e, j)
    decreases e
  {
    if IsBin(e, op) {
      var n := OperandCount(op, e.left);
      MaskAll(op, e.left, i, j);
      MaskAll(op, e.right, i - n, j - n);
    }
  }

  /** The operands of a are those of e from position i on, each equal to its copy. */
  ghost predicate Occurs(op: Op, a: Expr, e: Expr, i: nat) {
    && i + OperandCount(op, a) <= OperandCount(op, e)
    && (forall j: nat :: j < OperandCount(op, a) ==> OperandAt(op, a, j) == OperandAt(op, e, i + j))
    && (forall j: nat :: j < OperandCount(op, a) ==> ExprEq(OperandAt(op, a, j), OperandAt(op, a, j)))
  }

  lemma OccursInHalves(op: Op, a: Expr, e: Expr, i: nat)
    requires IsBin(a, op) && Occurs(op, a, e, i)
    ensures Occurs(op, a.left, e, i) && Occurs(op, a.right, e, i + OperandCount(op, a.left))
  {
    var n := OperandCount(op, a.left);
    forall j: nat | j < n
      ensures OperandAt(op, a.left, j) == OperandAt(op, e, i + j)
      ensures ExprEq(OperandAt(op, a.left, j), OperandAt(op, a.left, j))
    {
      assert OperandAt(op, a, j) == OperandAt(op, a.left, j);
    }
    forall j: nat | j < OperandCount(op, a.right)
      ensures OperandAt(op, a.right, j) == OperandAt(op, e, i + n + j)
      ensures ExprEq(OperandAt(op, a.right, j), OperandAt(op, a.right, j))
    {
      assert OperandAt(op, a, n + j) == OperandAt(op, a.right, j);
      assert i + (n + j) == i + n + j;
    }
  }

  /** Comparing a with the copy of e from its i-th operand on removes all of a. */
  ghost predicate CopyIsMet(op: Op, a: Expr, e: Expr, i: nat) {
    var n := OperandCount(op, a);
    EliminateCommon(op, a, MaskFirst(op, e, i)) == (MaskFirst(op, a, n), MaskFirst(op, e, i + n))
  }

  lemma {:induction false} CopyMeetsCopy(op: Op, a: Expr, e: Expr, i: nat)
    requires Occurs(op, a, e, i)
    ensures CopyIsMet(op, a, e, i)
    decreases a
  {
    if IsBin(a, op) {
      OccursInHalves(op, a, e, i);
      CopyMeetsCopy(op, a.left, e, i);
      CopyMeetsCopy(op, a.right, e, i + OperandCount(op, a.left));
      HalvesMeetCopy(op, a, e, i);
    } else {
      assert OperandAt(op, a, 0) == a == OperandAt(op, e, i);
      OperandMeetsCopy(op, a, e, i);
    }
  }

  lemma HalvesMeetCopy(op: Op, a: Expr, e: Expr, i: nat)
    requires IsBin(a, op) && CopyIsMet(op, a.left, e, i) && CopyIsMet(op, a.right, e, i + OperandCount(op, a.left))
    ensures CopyIsMet(op, a, e, i)
  {
    var (n, k) := (OperandCount(op, a.left), OperandCount(op, a.right));
    MaskAll(op, a.left, n, n + k);
    MaskOfChain(op, a, n + k);
    CommonOfChain(op, a, MaskFirst(op, e, i), MaskFirst(op, a.left, n), MaskFirst(op, e, i + n),
                  MaskFirst(op, a.right, k), MaskFirst(op, e, i + n + k));
  }

  lemma CommonOfChain(op: Op, a: Expr, b: Expr, l: Expr, b1: Expr, r: Expr, b2: Expr)
    requires IsBin(a, op) && EliminateCommon(op, a.left, b) == (l, b1) && EliminateCommon(op, a.right, b1) == (r, b2)
    ensures EliminateCommon(op, a, b) == (Bin(op, l, r), b2)
  {
  }

  lemma {:induction false} MaskedIsConstant(op: Op, e: Expr)
    ensures IsYesOrNo(EliminateYn(MaskFirst(op, e, OperandCount(op, e))))
    decreases e
  {
    if IsBin(e, op) {
      var n := OperandCount(op, e.left);
      MaskAll(op, e.left, OperandCount(op, e), n);
      MaskedIsConstant(op, e.left);
      MaskedIsConstant(op, e.right);
    }
  }

  lemma CopiesMeet(op: Op, e: Expr)
    requires Occurs(op, e, e, 0)
    ensures var mask := MaskFirst(op, e, OperandCount(op, e));
            EliminateCommon(op, e, e) == (mask, mask) && IsYesOrNo(EliminateYn(mask))
  {
    MaskStep(op, e, 0);
    CopyMeetsCopy(op, e, e, 0);
    MaskedIsConstant(op, e);
  }

  lemma CopiesCancel(e: Expr)
    requires e.Bin?
    requires forall j: nat :: j < OperandCount(e.op, e) ==> ExprEq(OperandAt(e.op, e, j), OperandAt(e.op, e, j))
    ensures EliminateEq(e, e).0 == EliminateEq(e, e).1 && EliminateEq(e, e).0.Sym?
  {
    CopiesMeet(e.op, e);
  }

  /** expr_eq recognises every expression as equal to its copy, whatever
      duplicated or constant operands it holds. */
  lemma {:induction false} ExprEqReflexive(e: Expr)
    ensures ExprEq(e, e)
    decreases Size(e)
  {
    if e.Not? {
      ExprEqReflexive(e.arg);
    } else if e.Bin? {
      forall j: nat | j < OperandCount(e.op, e)
        ensures ExprEq(OperandAt(e.op, e, j), OperandAt(e.op, e, j))
      {
        ExprEqReflexive(OperandAt(e.op, e, j));
      }
      CopiesCancel(e);
    }
  }
}
