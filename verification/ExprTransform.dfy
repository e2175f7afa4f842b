// Normalisation of expressions (tools/kconfig/expr.c: expr_transform,
// expr_trans_bool, expr_trans_compare, expr_depends_symbol) and what the
// consumers of the normal form rely on (tools/kconfig/symbol.c,
// tools/kconfig/menu.c).
module ExprTransform {
  import opened KconfigExpr
  import opened ExprEquality
  import opened ExprJoin
  import opened ExprSlots
  import opened DuplicateElimination

  // ----- expr_transform -----

  function Opposite(rel: Rel): Rel {
    match rel
    case Eq => Ne
    case Ne => Eq
    case Lt => Ge
    case Ge => Lt
    case Le => Gt
    case Gt => Le
  }

  /** Negation doubles the weight of what it negates, which pays for the extra
      negation De Morgan's rule creates. */
  function Weight(e: Expr): (w: nat)
    ensures w >= 1
  {
    match e
    case Sym(_) => 1
    case Cmp(_, _, _) => 3
    case Not(a) => 2 * Weight(a)
    case Bin(_, l, r) => 1 + Weight(l) + Weight(r)
  }

  /** A bool compared with y, m or n. */
  function TransformCmp(rel: Rel, s: Symbol, c: Symbol): Expr {
    if s.Type() != Boolean || (rel != Eq && rel != Ne) || !c.IsTristateConst() then Cmp(rel, s, c)
    else if c == SymMod then Sym(if rel == Eq then SymNo else SymYes)
    else if (c == SymYes) == (rel == Eq) then Sym(s)
    else Not(Sym(s))
  }

  function NegateConstant(s: Symbol): Expr {
    match s
    case SymYes => Sym(SymNo)
    case SymMod => Sym(SymMod)
    case SymNo => Sym(SymYes)
    case _ => Not(Sym(s))
  }

  /** The negation of l op r, pushed to the operands. */
  function DeMorgan(op: Op, l: Expr, r: Expr): (e: Expr)
    ensures Weight(e) == 1 + 2 * Weight(l) + 2 * Weight(r) < Weight(Not(Bin(op, l, r)))
  {
    assert Weight(Not(l)) == 2 * Weight(l) && Weight(Not(r)) == 2 * Weight(r);
    Bin(Dual(op), Not(l), Not(r))
  }

  /** expr_transform: operands first, then the node itself. */
  function Transform(e: Expr): (r: Expr)
    ensures Weight(r) <= Weight(e)
    decreases Weight(e)
  {
    match e
    case Sym(_) => e
    case Cmp(rel, s, c) => TransformCmp(rel, s, c)
    case Bin(op, l, r) => Bin(op, Transform(l), Transform(r))
    case Not(a) =>
      match Transform(a)
      case Not(x) => Transform(x)
      case Cmp(rel, s, c) => Cmp(Opposite(rel), s, c)
      case Bin(op, l, r) => Transform(DeMorgan(op, l, r))
      case Sym(s) => NegateConstant(s)
  }

  /** Negation stands only on symbols other than y, m, n, and no bool is
      compared with y, m or n for (in)equality. */
  predicate IsTransformed(e: Expr) {
    match e
    case Sym(_) => true
    case Cmp(rel, s, c) => !((rel == Eq || rel == Ne) && s.Type() == Boolean && c.IsTristateConst())
    case Not(a) => a.Sym? && !a.sym.IsTristateConst()
    case Bin(_, l, r) => IsTransformed(l) && IsTransformed(r)
  }

  lemma {:induction false} TransformReachesNormalForm(e: Expr)
    ensures IsTransformed(Transform(e))
    decreases Weight(e)
  {
    match e
    case Sym(_) =>
    case Cmp(_, _, _) =>
    case Bin(op, l, r) =>
      TransformReachesNormalForm(l);
      TransformReachesNormalForm(r);
    case Not(a) =>
      TransformReachesNormalForm(a);
      match Transform(a)
      case Not(x) => TransformReachesNormalForm(x);
      case Cmp(_, _, _) =>
      case Bin(op, l, r) => TransformReachesNormalForm(DeMorgan(op, l, r));
      case Sym(_) =>
  }

  lemma {:induction false} NormalFormIsFixed(e: Expr)
    requires IsTransformed(e)
    ensures Transform(e) == e
  {
    match e
    case Sym(_) =>
    case Cmp(_, _, _) =>
    case Not(a) => assert Transform(a) == a;
    case Bin(_, l, r) =>
      NormalFormIsFixed(l);
      NormalFormIsFixed(r);
  }

  /** Normalising twice is normalising once. */
  lemma TransformIdempotent(e: Expr)
    ensures Transform(Transform(e)) == Transform(e)
  {
    TransformReachesNormalForm(e);
    NormalFormIsFixed(Transform(e));
  }

  lemma {:induction false} TransformValue(e: Expr, env: Env)
    requires WellTyped(env)
    ensures Value(Transform(e), env) == Value(e, env)
    decreases Weight(e)
  {
    match e
    case Sym(_) =>
    case Cmp(_, s, c) =>
      if s.Type() == Boolean { ConstantsDenoteThemselves(env, s); }
    case Bin(op, l, r) =>
      TransformValue(l, env);
      TransformValue(r, env);
    case Not(a) =>
      TransformValue(a, env);
      match Transform(a)
      case Not(x) => TransformValue(x, env);
      case Cmp(_, _, _) =>
      case Bin(op, l, r) => TransformValue(DeMorgan(op, l, r), env);
      case Sym(_) =>
  }

  lemma {:induction false} TransformedNegatesSymbols(e: Expr)
    requires IsTransformed(e)
    ensures NegatesSymbols(e)
  {
    if e.Bin? { TransformedNegatesSymbols(e.left); TransformedNegatesSymbols(e.right); }
  }

  // ----- expr_trans_bool -----

  function TransBool(e: Expr): Expr {
    match e
    case Sym(_) => e
    case Not(a) => Not(TransBool(a))
    case Bin(op, l, r) => Bin(op, TransBool(l), TransBool(r))
    case Cmp(rel, s, c) => if rel == Ne && s.Type() == Tristate && c == SymNo then Sym(s) else e
  }

  /** On expressions that negate only symbols, a rewritten expression is n
      exactly when the original is. */
  lemma {:induction false} TransBoolKeepsNo(e: Expr, env: Env)
    requires WellTyped(env) && NegatesSymbols(e)
    ensures Value(TransBool(e), env) == 0 <==> Value(e, env) == 0
    ensures Value(TransBool(e), env) <= Value(e, env)
  {
    match e
    case Sym(_) =>
    case Not(_) =>
    case Cmp(_, s, _) =>
      if s.Type() == Tristate { ConstantsDenoteThemselves(env, s); }
    case Bin(_, l, r) =>
      TransBoolKeepsNo(l, env);
      TransBoolKeepsNo(r, env);
  }

  /** No tristate symbol is compared with n by !=. */
  predicate ComparesNoTristateWithNo(e: Expr) {
    match e
    case Sym(_) => true
    case Not(a) => ComparesNoTristateWithNo(a)
    case Bin(_, l, r) => ComparesNoTristateWithNo(l) && ComparesNoTristateWithNo(r)
    case Cmp(rel, s, c) => !(rel == Ne && s.Type() == Tristate && c == SymNo)
  }

  /** None is left, and an expression without one is left alone. */
  lemma {:induction false} TransBoolRemoves(e: Expr)
    ensures ComparesNoTristateWithNo(TransBool(e))
    ensures TransBool(e) == e <==> ComparesNoTristateWithNo(e)
  {
    match e
    case Sym(_) =>
    case Cmp(_, _, _) =>
    case Not(a) => TransBoolRemoves(a);
    case Bin(_, l, r) =>
      TransBoolRemoves(l);
      TransBoolRemoves(r);
  }

  // ----- expr_trans_compare -----

  /** e rewritten with comparisons to the constant c: "e equals c" for Eq, "e
      differs from c" for Ne. For c = m the && and || cases return e itself. */
  function TransCompare(e: Expr, rel: Rel, c: Symbol): Expr
    requires (rel == Eq || rel == Ne) && c.IsTristateConst()
  {
    match e
    case Sym(s) => Cmp(rel, s, c)
    case Not(a) => TransCompare(a, Opposite(rel), c)
    case Bin(op, l, r) =>
      var joined :=
        if c == SymYes then Bin(op, TransCompare(l, Eq, c), TransCompare(r, Eq, c))
        else if c == SymNo then Bin(Dual(op), TransCompare(l, Eq, c), TransCompare(r, Eq, c))
        else e;
      if rel == Ne then Not(joined) else joined
    case Cmp(_, _, _) =>
      if c == SymMod then Sym(if rel == Eq then SymNo else SymYes)
      else if (c == SymYes) == (rel == Eq) then e
      else Not(e)
  }

  function TransCompareOpt(e: Option<Expr>, rel: Rel, c: Symbol): Expr
    requires (rel == Eq || rel == Ne) && c.IsTristateConst()
  {
    if e.Some? then TransCompare(e.value, rel, c)
    else if rel == Ne then Not(Sym(c)) else Sym(c)
  }

  /** Every symbol that stands for its own value is bool, tristate, y, m or n. */
  predicate LogicSymbols(e: Expr) {
    match e
    case Sym(s) => s.IsLogic() || s.IsTristateConst()
    case Not(a) => LogicSymbols(a)
    case Cmp(_, _, _) => true
    case Bin(_, l, r) => LogicSymbols(l) && LogicSymbols(r)
  }

  /** Nothing that e negates has the value m. */
  predicate NegatesNoMod(e: Expr, env: Env) {
    match e
    case Sym(_) => true
    case Not(a) => Value(a, env) != 1 && NegatesNoMod(a, env)
    case Cmp(_, _, _) => true
    case Bin(_, l, r) => NegatesNoMod(l, env) && NegatesNoMod(r, env)
  }

  /** The rewritten expression is y or n, and y exactly when the comparison
      holds of the original value. */
  lemma {:induction false} TransCompareExact(e: Expr, rel: Rel, c: Symbol, env: Env)
    requires (rel == Eq || rel == Ne) && (c == SymYes || c == SymNo)
    requires WellTyped(env) && LogicSymbols(e) && NegatesNoMod(e, env)
    ensures Value(TransCompare(e, rel, c), env) ==
            (if (Value(e, env) == env.tri(c)) == (rel == Eq) then 2 else 0)
  {
    match e
    case Sym(s) =>
      if s.IsLogic() { ConstantsDenoteThemselves(env, s); }
    case Not(a) => TransCompareExact(a, Opposite(rel), c, env);
    case Cmp(_, _, _) =>
    case Bin(op, l, r) =>
      TransCompareExact(l, Eq, c, env);
      TransCompareExact(r, Eq, c, env);
  }

  /** Rewriting e is right in env, for either relation. */
  predicate ExactAt(e: Expr, c: Symbol, env: Env)
    requires c.IsTristateConst()
  {
    && Value(TransCompare(e, Eq, c), env) == (if Value(e, env) == env.tri(c) then 2 else 0)
    && Value(TransCompare(e, Ne, c), env) == (if Value(e, env) == env.tri(c) then 0 else 2)
  }

  /** Rewriting is right for e and for everything e is made of. */
  predicate ExactEverywhere(e: Expr, c: Symbol, env: Env)
    requires c.IsTristateConst()
  {
    ExactAt(e, c, env) &&
    match e
    case Sym(_) => true
    case Not(a) => ExactEverywhere(a, c, env)
    case Cmp(_, _, _) => true
    case Bin(_, l, r) => ExactEverywhere(l, c, env) && ExactEverywhere(r, c, env)
  }

  /** Comparing with y or n is rewritten correctly throughout exactly when
      nothing that is negated has the value m. */
  lemma {:induction false} TransCompareExactIff(e: Expr, c: Symbol, env: Env)
    requires (c == SymYes || c == SymNo) && WellTyped(env) && LogicSymbols(e)
    ensures ExactEverywhere(e, c, env) <==> NegatesNoMod(e, env)
  {
    match e
    case Sym(s) =>
      if s.IsLogic() { ConstantsDenoteThemselves(env, s); }
    case Not(a) =>
      TransCompareExactIff(a, c, env);
      if ExactAt(a, c, env) { NotExactIff(a, c, env); }
    case Cmp(_, _, _) =>
    case Bin(op, l, r) =>
      TransCompareExactIff(l, c, env);
      TransCompareExactIff(r, c, env);
      if ExactAt(l, c, env) && ExactAt(r, c, env) { BinIsExact(op, l, r, c, env); }
  }

  lemma NotExactIff(a: Expr, c: Symbol, env: Env)
    requires (c == SymYes || c == SymNo) && WellTyped(env) && ExactAt(a, c, env)
    ensures ExactAt(Not(a), c, env) <==> Value(a, env) != 1
  {
  }

  lemma BinIsExact(op: Op, l: Expr, r: Expr, c: Symbol, env: Env)
    requires (c == SymYes || c == SymNo) && WellTyped(env) && ExactAt(l, c, env) && ExactAt(r, c, env)
    ensures ExactAt(Bin(op, l, r), c, env)
  {
  }

  /** No negation, and every && and || is n. */
  predicate OperatorsAreNo(e: Expr, env: Env) {
    match e
    case Sym(_) => true
    case Not(_) => false
    case Cmp(_, _, _) => true
    case Bin(_, l, r) => Value(e, env) == 0 && OperatorsAreNo(l, env) && OperatorsAreNo(r, env)
  }

  /** Comparing with m is rewritten correctly throughout only without negation,
      and only where all operators yield n. */
  lemma {:induction false} TransCompareModExactIff(e: Expr, env: Env)
    requires WellTyped(env) && LogicSymbols(e)
    ensures ExactEverywhere(e, SymMod, env) <==> OperatorsAreNo(e, env)
  {
    match e
    case Sym(s) =>
      if s.IsLogic() { ConstantsDenoteThemselves(env, s); }
    case Not(a) => TransCompareModExactIff(a, env);
    case Cmp(_, _, _) =>
    case Bin(_, l, r) =>
      TransCompareModExactIff(l, env);
      TransCompareModExactIff(r, env);
  }

  /** With a negated symbol at m the rewriting is wrong: !A is m, not n, but
      "!A differs from n" is computed as n. */
  lemma TransCompareFailsOnNegatedMod(env: Env, a: Symbol)
    requires WellTyped(env) && a.Type() == Tristate && env.tri(a) == 1
    ensures Value(Not(Sym(a)), env) == 1
    ensures Value(TransCompare(Not(Sym(a)), Ne, SymNo), env) == 0
  {
    ConstantsDenoteThemselves(env, a);
  }

  // ----- Dependencies of menu entries -----

  predicate Contains(e: Expr, s: Symbol) {
    match e
    case Sym(x) => x == s
    case Not(a) => Contains(a, s)
    case Cmp(_, l, r) => l == s || r == s
    case Bin(_, l, r) => Contains(l, s) || Contains(r, s)
  }

  /** expr_depends_symbol. */
  predicate DependsOn(e: Expr, s: Symbol) {
    match e
    case Sym(x) => x == s
    case Bin(op, l, r) => op == And && (DependsOn(l, s) || DependsOn(r, s))
    case Cmp(rel, l, r) => l == s && ((rel == Eq && (r == SymYes || r == SymMod)) || (rel == Ne && r == SymNo))
    case Not(_) => false
  }

  /** x stands somewhere in e. */
  predicate PartOf(x: Expr, e: Expr) {
    x == e ||
    match e
    case Not(a) => PartOf(x, a)
    case Bin(_, l, r) => PartOf(x, l) || PartOf(x, r)
    case _ => false
  }

  predicate IsAbout(x: Expr, s: Symbol) { x == Sym(s) || (x.Cmp? && (x.lhs == s || x.rhs == s)) }

  /** A symbol is contained exactly when some leaf is about it. */
  lemma ContainsExact(e: Expr, s: Symbol)
    ensures Contains(e, s) <==> exists x :: PartOf(x, e) && IsAbout(x, s)
  {
    if Contains(e, s) { var x := LeafAbout(e, s); }
    forall x | PartOf(x, e) && IsAbout(x, s) ensures Contains(e, s) { PartIsContained(x, e, s); }
  }

  lemma {:induction false} LeafAbout(e: Expr, s: Symbol) returns (x: Expr)
    requires Contains(e, s)
    ensures PartOf(x, e) && IsAbout(x, s)
  {
    match e
    case Not(a) => x := LeafAbout(a, s);
    case Bin(_, l, r) => if Contains(l, s) { x := LeafAbout(l, s); } else { x := LeafAbout(r, s); }
    case _ => x := e;
  }

  lemma {:induction false} PartIsContained(x: Expr, e: Expr, s: Symbol)
    requires PartOf(x, e) && IsAbout(x, s)
    ensures Contains(e, s)
  {
    if x != e {
      match e
      case Not(a) => PartIsContained(x, a, s);
      case Bin(_, l, r) => if PartOf(x, l) { PartIsContained(x, l, s); } else { PartIsContained(x, r, s); }
    }
  }

  /** The symbol itself, a test of it for y or m, or one against n. */
  predicate IsDependency(x: Expr, s: Symbol) {
    x in {Sym(s), Cmp(Eq, s, SymYes), Cmp(Eq, s, SymMod), Cmp(Ne, s, SymNo)}
  }

  /** An operand of the conjunction e, or e itself, is such a test. */
  ghost predicate HasDependency(e: Expr, s: Symbol) {
    exists i :: 0 <= i < OperandCount(And, e) && IsDependency(OperandAt(And, e, i), s)
  }

  /** An expression depends on s exactly when it has such an operand. */
  lemma DependsOnExact(e: Expr, s: Symbol)
    ensures DependsOn(e, s) <==> HasDependency(e, s)
  {
    if DependsOn(e, s) {
      var i := DependencyAt(e, s);
      assert HasDependency(e, s);
    } else if HasDependency(e, s) {
      var i :| 0 <= i < OperandCount(And, e) && IsDependency(OperandAt(And, e, i), s);
      DependencyCounts(e, s, i);
    }
  }

  lemma {:induction false} DependencyAt(e: Expr, s: Symbol) returns (i: nat)
    requires DependsOn(e, s)
    ensures i < OperandCount(And, e) && IsDependency(OperandAt(And, e, i), s)
  {
    if !IsBin(e, And) {
      i := 0;
    } else if DependsOn(e.left, s) {
      i := DependencyAt(e.left, s);
    } else {
      i := DependencyAt(e.right, s);
      i := OperandCount(And, e.left) + i;
    }
  }

  lemma {:induction false} DependencyCounts(e: Expr, s: Symbol, i: nat)
    requires i < OperandCount(And, e) && IsDependency(OperandAt(And, e, i), s)
    ensures DependsOn(e, s)
    decreases e
  {
    if IsBin(e, And) {
      var n := OperandCount(And, e.left);
      if i < n { DependencyCounts(e.left, s, i); } else { DependencyCounts(e.right, s, i - n); }
    }
  }

  /** An absolute dependency is n whenever the symbol is n. */
  lemma {:induction false} DependsOnSound(e: Expr, s: Symbol, env: Env)
    requires WellTyped(env) && s.IsLogic() && DependsOn(e, s) && env.tri(s) == 0
    ensures Value(e, env) == 0
  {
    match e
    case Sym(_) =>
    case Cmp(_, _, _) => ConstantsDenoteThemselves(env, s);
    case Bin(_, l, r) => if DependsOn(l, s) { DependsOnSound(l, s, env); } else { DependsOnSound(r, s, env); }
  }

  /** An expression without the symbol does not see its value. */
  lemma {:induction false} ContainsSound(e: Expr, s: Symbol, env: Env, env': Env)
    requires !Contains(e, s)
    requires forall x: Symbol :: x != s ==> env.tri(x) == env'.tri(x)
    requires forall x: Symbol, y: Symbol :: x != s && y != s ==> env.cmp(x, y) == env'.cmp(x, y)
    ensures Value(e, env) == Value(e, env')
  {
    match e
    case Sym(_) =>
    case Cmp(_, _, _) =>
    case Not(a) => ContainsSound(a, s, env, env');
    case Bin(_, l, r) =>
      ContainsSound(l, s, env, env');
      ContainsSound(r, s, env, env');
  }

  // ----- The rewriting in place and the superset test -----

  class Normaliser {
    var simplifier: Simplifier

    constructor ()
      ensures fresh(simplifier)
    {
      simplifier := new Simplifier();
    }

    /** expr_transform on the tree in slot p of c. */
    method TransformInPlace(c: Cell, p: Path)
      requires HasSlot(c.tree, p)
      modifies c
      ensures HasSlot(old(c.tree), p) && c.tree == Put(old(c.tree), p, Transform(Get(old(c.tree), p)))
      decreases Weight(Get(c.tree, p)), 1
    {
      ghost var t := c.tree;
      var e := Get(c.tree, p);
      PutPut(t, p, e, e);
      match e
      case Sym(_) =>
      case Cmp(rel, s, x) => c.tree := Put(c.tree, p, TransformCmp(rel, s, x));
      case Bin(op, l, r) =>
        PutOperands(t, p, Transform(l), Transform(r));
        TransformInPlace(c, p + [L]);
        TransformInPlace(c, p + [R]);
      case Not(a) =>
        SlotAppend(t, p, [L]);
        assert Get(e, [L]) == a;
        PutAppend(t, p, [L], Transform(a));
        TransformInPlace(c, p + [L]);
        PutPut(t, p, Not(Transform(a)), Transform(e));
        NegateInPlace(c, p, a);
    }

    /** The E_NOT case, once the operand a is normalised. */
    method NegateInPlace(c: Cell, p: Path, ghost a: Expr)
      requires HasSlot(c.tree, p) && Get(c.tree, p) == Not(Transform(a))
      modifies c
      ensures HasSlot(old(c.tree), p) && c.tree == Put(old(c.tree), p, Transform(Not(a)))
      decreases Weight(Not(a)), 0
    {
      ghost var t := c.tree;
      var b := Get(c.tree, p).arg;
      match b
      case Not(x) =>
        PutPut(t, p, x, Transform(x));
        c.tree := Put(c.tree, p, x);
        TransformInPlace(c, p);
      case Cmp(rel, s, x) => c.tree := Put(c.tree, p, Cmp(Opposite(rel), s, x));
      case Bin(op, l, r) =>
        PutPut(t, p, DeMorgan(op, l, r), Transform(DeMorgan(op, l, r)));
        c.tree := Put(c.tree, p, DeMorgan(op, l, r));
        TransformInPlace(c, p);
      case Sym(s) => c.tree := Put(c.tree, p, NegateConstant(s));
    }

    /** expr_trans_bool on the tree in slot p of c. */
    method TransBoolInPlace(c: Cell, p: Path)
      requires HasSlot(c.tree, p)
      modifies c
      ensures HasSlot(old(c.tree), p) && c.tree == Put(old(c.tree), p, TransBool(Get(old(c.tree), p)))
      decreases Size(Get(c.tree, p))
    {
      ghost var t := c.tree;
      var e := Get(c.tree, p);
      PutPut(t, p, e, e);
      match e
      case Sym(_) =>
      case Cmp(rel, s, x) =>
        if rel == Ne && s.Type() == Tristate && x == SymNo {
          c.tree := Put(c.tree, p, Sym(s));
        }
      case Bin(op, l, r) =>
        PutOperands(t, p, TransBool(l), TransBool(r));
        TransBoolInPlace(c, p + [L]);
        TransBoolInPlace(c, p + [R]);
      case Not(a) =>
        SlotAppend(t, p, [L]);
        assert Get(e, [L]) == a;
        PutAppend(t, p, [L], TransBool(a));
        TransBoolInPlace(c, p + [L]);
    }

    /** The test menu_finalize uses for "dep is a superset of basedep": both are
        compared with n, normalised and reduced, and basedep's residue must be y.
        A positive answer orders the two wherever the constants basedep is tested
        against are told apart. */
    method IsSuperset(dep: Option<Expr>, basedep: Option<Expr>) returns (superset: bool)
      modifies simplifier
      ensures superset ==> forall env ::
        WellTyped(env) && TellsApart(env, Reachable(Transform(DiffersFromNo(basedep)))) ==> Follows(dep, basedep, env)
      ensures var (d, b) := (Transform(DiffersFromNo(dep)), Transform(DiffersFromNo(basedep)));
              Settled(d) && Settled(b) ==> (superset <==> EliminateEq(d, b).1 == Sym(SymYes))
    {
      var d := new Cell(DiffersFromNo(dep));
      var b := new Cell(DiffersFromNo(basedep));
      ghost var (d0, b0) := (d.tree, b.tree);
      TransformInPlace(b, []);
      simplifier.EliminateDups(b);
      TransformInPlace(d, []);
      simplifier.EliminateDups(d);
      ghost var (d1, b1) := (d.tree, b.tree);
      simplifier.EliminateEqual(d, b);
      superset := b.tree == Sym(SymYes);
      if superset {
        forall env | WellTyped(env) && TellsApart(env, Reachable(Transform(b0))) ensures Follows(dep, basedep, env) {
          SupersetOrder(d0, b0, d1, b1, env);
          OrderMeans(dep, basedep, env);
        }
      }
    }
  }

  /** The comparison of a dependency with n. */
  function DiffersFromNo(dep: Option<Expr>): Expr { TransCompareOpt(dep, Ne, SymNo) }

  lemma SupersetOrder(d0: Expr, b0: Expr, d1: Expr, b1: Expr, env: Env)
    requires WellTyped(env) && Value(Transform(d0), env) <= Value(d1, env)
             && Value(b1, env) == Value(Transform(b0), env)
    requires EliminateEq(d1, b1).1 == Sym(SymYes)
    ensures Value(d0, env) <= Value(b0, env)
  {
    TransformValue(d0, env);
    TransformValue(b0, env);
    SupersetTestSound(d1, b1, env);
  }

  /** What a comparison with n says by its polarity alone, even where something
      negated is m: y means "not n", and n means "not y". */
  lemma {:induction false} TransComparePolarity(e: Expr, rel: Rel, env: Env)
    requires (rel == Eq || rel == Ne) && WellTyped(env) && LogicSymbols(e)
    ensures Value(TransCompare(e, rel, SymNo), env) != 1
    ensures Value(e, env) == 0 ==> Value(TransCompare(e, rel, SymNo), env) == if rel == Eq then 2 else 0
    ensures Value(e, env) == 2 ==> Value(TransCompare(e, rel, SymNo), env) == if rel == Eq then 0 else 2
  {
    match e
    case Sym(s) =>
      if s.IsLogic() { ConstantsDenoteThemselves(env, s); }
    case Not(a) => TransComparePolarity(a, Opposite(rel), env);
    case Cmp(_, _, _) =>
    case Bin(_, l, r) =>
      TransComparePolarity(l, Eq, env);
      TransComparePolarity(r, Eq, env);
  }

  predicate LogicSymbolsOpt(e: Option<Expr>) { e.Some? ==> LogicSymbols(e.value) }

  /** The comparison of dep implies that of basedep. Hence, for dependencies whose
      symbols are bool or tristate, basedep is not n where dep is y, and also
      where dep is m unless dep negates an m. */
  predicate Follows(dep: Option<Expr>, basedep: Option<Expr>, env: Env) {
    && Value(DiffersFromNo(dep), env) <= Value(DiffersFromNo(basedep), env)
    && (LogicSymbolsOpt(dep) && LogicSymbolsOpt(basedep) ==>
          && (ValueOpt(dep, env) == 2 ==> ValueOpt(basedep, env) != 0)
          && (ValueOpt(dep, env) == 1 && (dep.Some? ==> NegatesNoMod(dep.value, env)) ==> ValueOpt(basedep, env) != 0))
  }

  lemma OrderMeans(dep: Option<Expr>, basedep: Option<Expr>, env: Env)
    requires WellTyped(env) && Value(DiffersFromNo(dep), env) <= Value(DiffersFromNo(basedep), env)
    ensures Follows(dep, basedep, env)
  {
    assert Value(Not(Sym(SymNo)), env) == 2 - Value(Sym(SymNo), env);
    if LogicSymbolsOpt(dep) && LogicSymbolsOpt(basedep) {
      if dep.Some? {
        TransComparePolarity(dep.value, Ne, env);
        if NegatesNoMod(dep.value, env) { TransCompareExact(dep.value, Ne, SymNo, env); }
      }
      if basedep.Some? { TransComparePolarity(basedep.value, Ne, env); }
    }
  }
}
