// The conditions of properties: how menu_finalize rewrites them, and what the
// visibility of symbols sees of it (tools/kconfig/menu.c: rewrite_m,
// menu_finalize; tools/kconfig/symbol.c: sym_calc_visibility).
module PromptConditions {
  import opened KconfigExpr
  import opened ExprJoin
  import opened ExprSlots
  import opened DuplicateElimination
  import opened ExprTransform
  import opened SymbolDeps
  import opened SymbolValues

  // ----- Conditions as written -----

  /** rewrite_m: m means m && MODULES. */
  function RewriteM(e: Expr, modules: Symbol): Expr {
    match e
    case Sym(s) => if s == SymMod then Bin(And, e, Sym(modules)) else e
    case Not(a) => Not(RewriteM(a, modules))
    case Cmp(_, _, _) => e
    case Bin(op, l, r) => Bin(op, RewriteM(l, modules), RewriteM(r, modules))
  }

  function CappedTri(env: Env, modules: Symbol, s: Symbol): Tri {
    if s == SymMod then TriMin(env.tri(SymMod), env.tri(modules)) else env.tri(s)
  }

  /** The environment in which m is no more than the modules symbol. */
  function WithoutModules(env: Env, modules: Symbol): Env { Env((s: Symbol) => CappedTri(env, modules, s), env.cmp) }

  /** Rewriting m reads the expression where m is capped by the modules symbol. */
  lemma {:induction false} RewriteMValue(e: Expr, modules: Symbol, env: Env)
    ensures Value(RewriteM(e, modules), env) == Value(e, WithoutModules(env, modules))
  {
    match e
    case Sym(_) =>
    case Not(a) => RewriteMValue(a, modules, env);
    case Cmp(_, _, _) =>
    case Bin(_, l, r) =>
      RewriteMValue(l, modules, env);
      RewriteMValue(r, modules, env);
  }

  function RewriteMOpt(e: Option<Expr>, modules: Symbol): Option<Expr> {
    if e.None? then None else Some(RewriteM(e.value, modules))
  }

  /** expr_alloc_and. */
  function AndOpt(a: Option<Expr>, b: Option<Expr>): Option<Expr> {
    if a.None? then b else if b.None? then a else Some(Bin(And, a.value, b.value))
  }

  /** A condition below the dependency of its menu entry, before it is simplified. */
  function Conjoined(basedep: Option<Expr>, cond: Option<Expr>, modules: Symbol): Option<Expr> {
    AndOpt(basedep, RewriteMOpt(cond, modules))
  }

  function Normalised(cond: Option<Expr>, modules: Symbol): Option<Expr> {
    if cond.None? then None else Some(Transform(RewriteM(cond.value, modules)))
  }

  /** The environment tells apart the constants of the tests that can meet while
      the condition is simplified. */
  ghost predicate Separates(env: Env, basedep: Option<Expr>, cond: Option<Expr>, modules: Symbol) {
    var e := AndOpt(basedep, Normalised(cond, modules));
    e.Some? ==> TellsApart(env, Reachable(e.value))
  }

  predicate NegatesSymbolsOpt(e: Option<Expr>) { e.Some? ==> NegatesSymbols(e.value) }

  // ----- What simplification keeps -----

  /** b has the value of a, or, if only that matters, is n where a is n. */
  predicate Represents(a: Option<Expr>, b: Option<Expr>, exact: bool, env: Env) {
    && (ValueOpt(b, env) == 0 <==> ValueOpt(a, env) == 0)
    && (exact ==> ValueOpt(b, env) == ValueOpt(a, env))
  }

  lemma NormalisedRepresents(basedep: Option<Expr>, cond: Option<Expr>, modules: Symbol, env: Env)
    requires WellTyped(env)
    ensures ValueOpt(AndOpt(basedep, Normalised(cond, modules)), env) ==
            ValueOpt(Conjoined(basedep, cond, modules), env)
  {
    if cond.Some? { TransformValue(RewriteM(cond.value, modules), env); }
  }

  /** Simplified without expr_trans_bool, a condition never falls. */
  predicate NeverLess(a: Option<Expr>, b: Option<Expr>, env: Env) { ValueOpt(a, env) <= ValueOpt(b, env) }

  // ----- Visibility -----

  /** The setup with other properties of s. */
  function WithProps(c: Setup, s: Symbol, props: seq<Property>): Setup {
    c.(table := c.table[s := InfoOf(c.table, s).(props := props)])
  }

  /** Properties that differ in their conditions only, and each condition of b
      represents that of a. */
  predicate SameConditions(a: seq<Property>, b: seq<Property>, exact: bool, env: Env) {
    && |a| == |b|
    && forall i :: 0 <= i < |a| ==>
         b[i] == a[i].(visible := b[i].visible) && Represents(a[i].visible, b[i].visible, exact, env)
  }

  lemma {:induction false} AnyPromptKept(a: seq<Property>, b: seq<Property>, exact: bool, env: Env)
    requires SameConditions(a, b, exact, env)
    ensures AnyPrompt(b, env) == 0 <==> AnyPrompt(a, env) == 0
    ensures exact ==> AnyPrompt(b, env) == AnyPrompt(a, env)
  {
    if a != [] {
      var n := |a| - 1;
      AnyPromptKept(a[..n], b[..n], exact, env);
      assert Represents(a[n].visible, b[n].visible, exact, env);
    }
  }

  /** The visibility sym_calc_visibility computes for a symbol is the same from
      rewritten and from original conditions: for a symbol that is not tristate
      it is enough that a condition stays n or not n. */
  lemma VisibilityUnchanged(c: Setup, s: Symbol, a: seq<Property>, b: seq<Property>, env: Env)
    requires SameConditions(a, b, s.Type() == Tristate, env)
    ensures Visible(WithProps(c, s, b), s, env) == Visible(WithProps(c, s, a), s, env)
  {
    AnyPromptKept(a, b, s.Type() == Tristate, env);
  }

  // ----- The rewriting loop of menu_finalize -----

  class ConditionRewriter {
    const modules: Symbol
    const normaliser: Normaliser
    const simplifier: Simplifier

    constructor (modules: Symbol)
      ensures this.modules == modules && fresh(normaliser) && fresh(simplifier)
    {
      this.modules := modules;
      normaliser := new Normaliser();
      simplifier := new Simplifier();
    }

    /** rewrite_m on the tree in slot p of c. */
    method RewriteModInPlace(c: Cell, p: Path)
      requires HasSlot(c.tree, p)
      modifies c
      ensures HasSlot(old(c.tree), p) && c.tree == Put(old(c.tree), p, RewriteM(Get(old(c.tree), p), modules))
      decreases Size(Get(c.tree, p))
    {
      ghost var t := c.tree;
      var e := Get(c.tree, p);
      PutPut(t, p, e, e);
      match e
      case Sym(s) =>
        if s == SymMod { c.tree := Put(c.tree, p, Bin(And, e, Sym(modules))); }
      case Cmp(_, _, _) =>
      case Bin(op, l, r) =>
        PutOperands(t, p, RewriteM(l, modules), RewriteM(r, modules));
        RewriteModInPlace(c, p + [L]);
        RewriteModInPlace(c, p + [R]);
      case Not(a) =>
        SlotAppend(t, p, [L]);
        assert Get(e, [L]) == a;
        PutAppend(t, p, [L], RewriteM(a, modules));
        RewriteModInPlace(c, p + [L]);
    }

    /** rewrite_m and expr_transform on a condition that may be missing. */
    method Normalise(cond: Option<Expr>) returns (e: Option<Expr>)
      ensures e == Normalised(cond, modules)
    {
      e := None;
      if cond.Some? {
        var c := new Cell(cond.value);
        RewriteModInPlace(c, []);
        normaliser.TransformInPlace(c, []);
        e := Some(c.tree);
      }
    }

    /** The new condition of an entry or of a property below basedep; asBool is
        set for properties of symbols that are not tristate. */
    method RewriteCondition(basedep: Option<Expr>, cond: Option<Expr>, asBool: bool) returns (dep: Option<Expr>)
      requires NegatesSymbolsOpt(basedep)
      modifies simplifier
      ensures forall env :: WellTyped(env) && Separates(env, basedep, cond, modules) ==>
        Represents(Conjoined(basedep, cond, modules), dep, !asBool, env)
      ensures !asBool ==> forall env :: WellTyped(env) ==> NeverLess(Conjoined(basedep, cond, modules), dep, env)
      ensures !asBool ==> NegatesSymbolsOpt(dep)
    {
      var e := Normalise(cond);
      dep := AndOpt(basedep, e);
      forall env | WellTyped(env) ensures ValueOpt(dep, env) == ValueOpt(Conjoined(basedep, cond, modules), env) {
        NormalisedRepresents(basedep, cond, modules, env);
      }
      if dep.Some? {
        if cond.Some? {
          TransformReachesNormalForm(RewriteM(cond.value, modules));
          TransformedNegatesSymbols(e.value);
        }
        var c := new Cell(dep.value);
        simplifier.EliminateDups(c);
        dep := Some(c.tree);
        if asBool {
          forall env | WellTyped(env) ensures Value(TransBool(c.tree), env) == 0 <==> Value(c.tree, env) == 0 {
            TransBoolKeepsNo(c.tree, env);
          }
          normaliser.TransBoolInPlace(c, []);
          dep := Some(c.tree);
        }
      }
    }

    /** Properties with their conditions put below basedep; those defined at
        another place are left alone. */
    function PutBelow(basedep: Option<Expr>, props: seq<Property>, here: seq<bool>): (r: seq<Property>)
      requires |here| == |props|
      ensures |r| == |props|
    {
      seq(|props|, i requires 0 <= i < |props| =>
        if here[i] then props[i].(visible := Conjoined(basedep, props[i].visible, modules)) else props[i])
    }

    /** No condition of a property defined here confuses constants in env. */
    ghost predicate SeparatesAll(env: Env, basedep: Option<Expr>, props: seq<Property>, here: seq<bool>)
      requires |here| == |props|
    {
      forall i :: 0 <= i < |props| && here[i] ==> Separates(env, basedep, props[i].visible, modules)
    }

    /** The loop over the properties of an entry: afterwards the conditions are
        simplified, and the symbol is exactly as visible as with the plain
        conjunctions. */
    method RewriteProperties(basedep: Option<Expr>, props: seq<Property>, here: seq<bool>, s: Symbol)
      returns (r: seq<Property>)
      requires |here| == |props| && NegatesSymbolsOpt(basedep)
      modifies simplifier
      ensures forall env :: WellTyped(env) && SeparatesAll(env, basedep, props, here) ==>
        SameConditions(PutBelow(basedep, props, here), r, s.Type() == Tristate, env)
      ensures forall c: Setup, env :: WellTyped(env) && SeparatesAll(env, basedep, props, here) ==>
        Visible(WithProps(c, s, r), s, env) == Visible(WithProps(c, s, PutBelow(basedep, props, here)), s, env)
    {
      ghost var plain := PutBelow(basedep, props, here);
      r := [];
      for i := 0 to |props|
        invariant |r| == i
        invariant forall env :: WellTyped(env) && SeparatesAll(env, basedep, props, here) ==>
          SameConditions(plain[..i], r, s.Type() == Tristate, env)
      {
        var p := props[i];
        if here[i] {
          var dep := RewriteCondition(basedep, p.visible, s.Type() != Tristate);
          p := p.(visible := dep);
        }
        assert p == plain[i].(visible := p.visible);
        assert forall env :: WellTyped(env) && SeparatesAll(env, basedep, props, here) ==>
          Represents(plain[i].visible, p.visible, s.Type() == Tristate, env);
        r := r + [p];
      }
      assert plain[..|props|] == plain;
      forall c: Setup, env | WellTyped(env) && SeparatesAll(env, basedep, props, here)
        ensures Visible(WithProps(c, s, r), s, env) == Visible(WithProps(c, s, plain), s, env)
      {
        VisibilityUnchanged(c, s, plain, r, env);
      }
    }
  }
}
