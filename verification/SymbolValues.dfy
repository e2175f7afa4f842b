// Calculation of symbol values with a memo flag
// (tools/kconfig/symbol.c: sym_calc_value, sym_calc_visibility,
// sym_get_default_prop, sym_get_type; tools/kconfig/expr.c: expr_calc_value).
module SymbolValues {
  import opened KconfigExpr
  import opened SymbolDeps

  /** struct symbol_value. */
  datatype Content = Content(tri: Tri, val: string)

  /** The symbols as parsed, the values the user gave (SYMBOL_DEF_USER), and the
      value of the modules symbol. */
  datatype Setup = Setup(table: Table, user: map<Symbol, Content>, modules: Tri)

  type Valuation = Symbol -> Content

  // ----- The defining equations -----

  /** sym_get_type: without modules a tristate acts as a bool. */
  function ActingType(c: Setup, s: Symbol): SymbolType {
    if s.Type() == Tristate && c.modules == 0 then Boolean else s.Type()
  }

  /** sym_get_string_value. */
  function StringValue(modules: Tri, s: Symbol, v: Content): string {
    if s.IsLogic() then (if v.tri == 1 && modules == 0 then "n" else Letter(v.tri)) else v.val
  }

  /** The environment a valuation gives to expressions. */
  function EnvOf(c: Setup, v: Valuation): Env { EnvUnder(c.modules, v) }

  function EnvUnder(modules: Tri, v: Valuation): Env {
    Environment((s: Symbol) => v(s).tri, (s: Symbol) => StringValue(modules, s, v(s)))
  }

  /** Bool symbols, and tristate ones without modules, round m up to y. */
  function RoundUp(c: Setup, s: Symbol, t: Tri): Tri {
    if t == 1 && ActingType(c, s) == Boolean then 2 else t
  }

  function AnyPrompt(props: seq<Property>, env: Env): Tri {
    if props == [] then 0
    else
      var before := AnyPrompt(props[..|props| - 1], env);
      var p := props[|props| - 1];
      if p.text then TriMax(before, ValueOpt(p.visible, env)) else before
  }

  function Visible(c: Setup, s: Symbol, env: Env): Tri {
    var t := AnyPrompt(InfoOf(c.table, s).props, env);
    if t == 1 && (s.Type() != Tristate || c.modules == 0) then 2 else t
  }

  function DirDep(c: Setup, s: Symbol, env: Env): Tri { RoundUp(c, s, ValueOpt(InfoOf(c.table, s).dirDep, env)) }

  /** A missing reverse dependency or implication counts as n. */
  function ValueOrNo(e: Option<Expr>, env: Env): Tri { if e.Some? then Value(e.value, env) else 0 }

  function RevDep(c: Setup, s: Symbol, env: Env): Tri { RoundUp(c, s, ValueOrNo(InfoOf(c.table, s).revDep, env)) }

  function Implied(c: Setup, s: Symbol, env: Env): Tri { RoundUp(c, s, ValueOrNo(InfoOf(c.table, s).implied, env)) }

  /** The index of the first default whose condition is not n, or the length. */
  function FirstDefault(props: seq<Property>, env: Env): (i: nat)
    ensures i <= |props|
  {
    if props == [] then 0
    else if props[0].kind == Default && ValueOpt(props[0].visible, env) != 0 then 0
    else 1 + FirstDefault(props[1..], env)
  }

  function DefaultTri(props: seq<Property>, env: Env): Tri {
    var i := FirstDefault(props, env);
    if i < |props| then TriMin(ValueOpt(props[i].expr, env), ValueOpt(props[i].visible, env)) else 0
  }

  /** prop_get_symbol. */
  function PropSymbol(p: Property): Option<Symbol> {
    if p.expr.Some? && p.expr.value.Sym? then Some(p.expr.value.sym) else None
  }

  function DefaultText(props: seq<Property>, env: Env, v: Valuation): string {
    var i := FirstDefault(props, env);
    if i < |props| && PropSymbol(props[i]).Some? then v(PropSymbol(props[i]).value).val else ""
  }

  /** The value before reverse dependencies are applied. */
  function OwnTri(c: Setup, s: Symbol, env: Env): Tri {
    if Visible(c, s, env) != 0 && s in c.user then TriMin(c.user[s].tri, Visible(c, s, env))
    else
      var d := DefaultTri(InfoOf(c.table, s).props, env);
      var i := Implied(c, s, env);
      if i != 0 then TriMin(TriMax(d, i), DirDep(c, s, env)) else d
  }

  /** What the value of s must be, given the values of the symbols its
      expressions mention. Constants have their own value from the start. */
  function Defined(c: Setup, s: Symbol, v: Valuation): Content {
    var env := EnvOf(c, v);
    if s == SymYes then Content(2, "y")
    else if s == SymMod then Content(1, "m")
    else if s == SymNo then Content(0, "n")
    else if s.Type() == Unknown then Content(0, s.Name())
    else if s.IsLogic() then Content(RoundUp(c, s, TriMax(OwnTri(c, s, env), RevDep(c, s, env))), "n")
    else if Visible(c, s, env) != 0 && s in c.user then Content(0, c.user[s].val)
    else Content(0, DefaultText(InfoOf(c.table, s).props, env, v))
  }

  predicate SolvesAt(c: Setup, v: Valuation, s: Symbol) { v(s) == Defined(c, s, v) }

  /** v satisfies the defining equation of every symbol. */
  ghost predicate Solves(c: Setup, v: Valuation) { forall s: Symbol :: SolvesAt(c, v, s) }

  /** Only prompts, menus and comments carry a text. */
  predicate TextsAreScanned(props: seq<Property>) {
    forall p :: p in props && p.text ==> !IsSkipped(p.kind)
  }

  ghost predicate WellFormed(c: Setup) {
    forall s :: s in c.table ==> TextsAreScanned(c.table[s].props)
  }

  // ----- A definition depends on the scanned expressions only -----

  ghost predicate Agree(v: Valuation, w: Valuation, on: set<Symbol>) {
    forall s :: s in on ==> v(s) == w(s)
  }

  lemma {:induction false} ValueDepends(c: Setup, e: Expr, v: Valuation, w: Valuation)
    requires Agree(v, w, Symbols(e))
    ensures Value(e, EnvOf(c, v)) == Value(e, EnvOf(c, w))
  {
    match e
    case Sym(_) =>
    case Not(a) => ValueDepends(c, a, v, w);
    case Cmp(_, _, _) =>
    case Bin(_, l, r) =>
      ValueDepends(c, l, v, w);
      ValueDepends(c, r, v, w);
  }

  lemma OptValueDepends(c: Setup, e: Option<Expr>, v: Valuation, w: Valuation)
    requires Agree(v, w, AllSymbols(Present(e)))
    ensures ValueOpt(e, EnvOf(c, v)) == ValueOpt(e, EnvOf(c, w))
    ensures ValueOrNo(e, EnvOf(c, v)) == ValueOrNo(e, EnvOf(c, w))
  {
    if e.Some? {
      assert Present(e)[0] == e.value;
      ValueDepends(c, e.value, v, w);
    }
  }

  lemma {:induction false} AnyPromptDepends(c: Setup, props: seq<Property>, v: Valuation, w: Valuation)
    requires TextsAreScanned(props) && Agree(v, w, AllSymbols(PropsExprs(props)))
    ensures AnyPrompt(props, EnvOf(c, v)) == AnyPrompt(props, EnvOf(c, w))
  {
    if props != [] {
      var (init, p) := (props[..|props| - 1], props[|props| - 1]);
      AllSymbolsAppend(PropsExprs(init), PropExprs(p));
      AnyPromptDepends(c, init, v, w);
      if p.text {
        PropDepends(c, p, v, w);
      }
    }
  }

  lemma PropDepends(c: Setup, p: Property, v: Valuation, w: Valuation)
    requires !IsSkipped(p.kind) && Agree(v, w, AllSymbols(PropExprs(p)))
    ensures ValueOpt(p.visible, EnvOf(c, v)) == ValueOpt(p.visible, EnvOf(c, w))
    ensures p.kind == Default ==> ValueOpt(p.expr, EnvOf(c, v)) == ValueOpt(p.expr, EnvOf(c, w))
    ensures p.kind == Default && PropSymbol(p).Some? ==> v(PropSymbol(p).value) == w(PropSymbol(p).value)
  {
    if p.kind == Default {
      AllSymbolsAppend(Present(p.visible), Present(p.expr));
      OptValueDepends(c, p.expr, v, w);
      if PropSymbol(p).Some? { assert PropSymbol(p).value in Symbols(Present(p.expr)[0]); }
    }
    OptValueDepends(c, p.visible, v, w);
  }

  lemma {:induction false} PropExprsIncluded(props: seq<Property>, i: nat)
    requires i < |props|
    ensures AllSymbols(PropExprs(props[i])) <= AllSymbols(PropsExprs(props))
  {
    var (init, p) := (props[..|props| - 1], props[|props| - 1]);
    AllSymbolsAppend(PropsExprs(init), PropExprs(p));
    if i < |props| - 1 { PropExprsIncluded(init, i); }
  }

  lemma {:induction false} DefaultDepends(c: Setup, props: seq<Property>, v: Valuation, w: Valuation)
    requires forall i :: 0 <= i < |props| ==> Agree(v, w, AllSymbols(PropExprs(props[i])))
    ensures FirstDefault(props, EnvOf(c, v)) == FirstDefault(props, EnvOf(c, w))
    ensures DefaultTri(props, EnvOf(c, v)) == DefaultTri(props, EnvOf(c, w))
    ensures DefaultText(props, EnvOf(c, v), v) == DefaultText(props, EnvOf(c, w), w)
  {
    if props != [] {
      DefaultDepends(c, props[1..], v, w);
      if props[0].kind == Default { PropDepends(c, props[0], v, w); }
      FirstDefaultIsDefault(props, EnvOf(c, v));
      var i := FirstDefault(props, EnvOf(c, v));
      if i < |props| { PropDepends(c, props[i], v, w); }
    }
  }

  lemma {:induction false} FirstDefaultIsDefault(props: seq<Property>, env: Env)
    ensures var i := FirstDefault(props, env); i < |props| ==> props[i].kind == Default
  {
    if props != [] { FirstDefaultIsDefault(props[1..], env); }
  }

  /** The values of the expressions of s under v and under w. */
  ghost predicate SameInputs(c: Setup, s: Symbol, v: Valuation, w: Valuation) {
    var (info, ev, ew) := (InfoOf(c.table, s), EnvOf(c, v), EnvOf(c, w));
    && ValueOpt(info.dirDep, ev) == ValueOpt(info.dirDep, ew)
    && ValueOrNo(info.revDep, ev) == ValueOrNo(info.revDep, ew)
    && ValueOrNo(info.implied, ev) == ValueOrNo(info.implied, ew)
    && AnyPrompt(info.props, ev) == AnyPrompt(info.props, ew)
    && DefaultTri(info.props, ev) == DefaultTri(info.props, ew)
    && DefaultText(info.props, ev, v) == DefaultText(info.props, ew, w)
  }

  lemma InputsDepend(c: Setup, s: Symbol, v: Valuation, w: Valuation)
    requires WellFormed(c) && Agree(v, w, Targets(c.table, s))
    ensures SameInputs(c, s, v, w)
  {
    var info := InfoOf(c.table, s);
    var head := Present(info.dirDep) + Present(info.revDep);
    AllSymbolsAppend(Present(info.dirDep), Present(info.revDep));
    AllSymbolsAppend(head, Present(info.implied));
    AllSymbolsAppend(head + Present(info.implied), PropsExprs(info.props));
    OptValueDepends(c, info.dirDep, v, w);
    OptValueDepends(c, info.revDep, v, w);
    OptValueDepends(c, info.implied, v, w);
    AnyPromptDepends(c, info.props, v, w);
    forall i | 0 <= i < |info.props| ensures Agree(v, w, AllSymbols(PropExprs(info.props[i]))) {
      PropExprsIncluded(info.props, i);
    }
    DefaultDepends(c, info.props, v, w);
  }

  lemma DefinedDepends(c: Setup, s: Symbol, v: Valuation, w: Valuation)
    requires WellFormed(c) && Agree(v, w, Targets(c.table, s))
    ensures Defined(c, s, v) == Defined(c, s, w)
  {
    InputsDepend(c, s, v, w);
    OwnDepends(c, s, v, w);
  }

  lemma OwnDepends(c: Setup, s: Symbol, v: Valuation, w: Valuation)
    requires SameInputs(c, s, v, w)
    ensures Visible(c, s, EnvOf(c, v)) == Visible(c, s, EnvOf(c, w))
    ensures RevDep(c, s, EnvOf(c, v)) == RevDep(c, s, EnvOf(c, w))
    ensures OwnTri(c, s, EnvOf(c, v)) == OwnTri(c, s, EnvOf(c, w))
  {
  }

  // ----- Exactly one solution on an acyclic table -----

  lemma {:induction false} UniqueInOrder(c: Setup, order: seq<Symbol>, v: Valuation, w: Valuation, s: Symbol)
    requires WellFormed(c) && DependencyOrder(c.table, order) && forall t :: t in c.table ==> t in order
    requires Solves(c, v) && Solves(c, w)
    ensures v(s) == w(s)
    decreases Level(order, s)
  {
    forall t | t in Targets(c.table, s) ensures v(t) == w(t) {
      TargetIsLower(c.table, order, s, t);
      UniqueInOrder(c, order, v, w, t);
    }
    assert SolvesAt(c, v, s) && SolvesAt(c, w, s);
    DefinedDepends(c, s, v, w);
  }

  /** The height of a symbol above those it depends on. */
  function Level(order: seq<Symbol>, s: Symbol): nat { if s in order then 1 + IndexOf(order, s) else 0 }

  lemma TargetIsLower(table: Table, order: seq<Symbol>, s: Symbol, t: Symbol)
    requires DependencyOrder(table, order) && (forall x :: x in table ==> x in order) && t in Targets(table, s)
    ensures Level(order, t) < Level(order, s)
  {
    if s in order { EdgeLowersIndex(table, order, s, t); }
  }

  /** The symbols of order given their defined value, one after the other. */
  ghost function Solution(c: Setup, order: seq<Symbol>): Valuation {
    if order == [] then (s: Symbol) => Defined(c, s, (t: Symbol) => Content(0, ""))
    else
      var w := Solution(c, order[..|order| - 1]);
      (s: Symbol) => if s == order[|order| - 1] then Defined(c, s, w) else w(s)
  }

  /** The last symbol of order alone gets its value from the others. */
  lemma LastAlone(c: Setup, order: seq<Symbol>, s: Symbol)
    requires order != []
    ensures var (w, last) := (Solution(c, order[..|order| - 1]), order[|order| - 1]);
            Solution(c, order)(s) == if s == last then Defined(c, s, w) else w(s)
  {
  }

  /** A symbol whose scanned expressions mention symbols of init only. */
  lemma OthersDoNotMatter(c: Setup, order: seq<Symbol>, s: Symbol)
    requires WellFormed(c) && DependencyOrder(c.table, order) && order != []
    requires var init := order[..|order| - 1];
             (forall t :: t in init ==> Solution(c, order)(t) == Solution(c, init)(t)) && (s in order || s !in c.table)
    ensures Defined(c, s, Solution(c, order[..|order| - 1])) == Defined(c, s, Solution(c, order))
  {
    var (init, last) := (order[..|order| - 1], order[|order| - 1]);
    if s in init {
      OrderPrefix(c.table, order, |order| - 1);
      forall t | t in Targets(c.table, s) ensures t in init { EdgeLowersIndex(c.table, init, s, t); }
    } else if s == last {
      assert FollowsAt(c.table, order, |order| - 1);
    } else {
      assert InfoOf(c.table, s) == NO_INFO && Scanned(NO_INFO) == [];
    }
    DefinedDepends(c, s, Solution(c, init), Solution(c, order));
  }

  lemma {:induction false} SolutionSolvesPrefix(c: Setup, order: seq<Symbol>, s: Symbol)
    requires WellFormed(c) && DependencyOrder(c.table, order)
    requires s in order || s !in c.table
    ensures Solution(c, order)(s) == Defined(c, s, Solution(c, order))
    decreases |order|
  {
    if order == [] {
      assert InfoOf(c.table, s) == NO_INFO && Scanned(NO_INFO) == [];
      DefinedDepends(c, s, (t: Symbol) => Content(0, ""), Solution(c, order));
    } else {
      var (init, last) := (order[..|order| - 1], order[|order| - 1]);
      OrderPrefix(c.table, order, |order| - 1);
      if last in init { SolutionSolvesPrefix(c, init, last); }
      forall t | t in init ensures Solution(c, order)(t) == Solution(c, init)(t) { LastAlone(c, order, t); }
      if s != last { SolutionSolvesPrefix(c, init, s); }
      LastAlone(c, order, s);
      OthersDoNotMatter(c, order, s);
    }
  }

  lemma SolutionSolves(c: Setup, order: seq<Symbol>)
    requires WellFormed(c) && DependencyOrder(c.table, order) && forall t :: t in c.table ==> t in order
    ensures Solves(c, Solution(c, order))
  {
    forall s: Symbol ensures SolvesAt(c, Solution(c, order), s) {
      SolutionSolvesPrefix(c, order, s);
    }
  }

  /** An acyclic table has a solution, */
  lemma SolutionExists(c: Setup) returns (v: Valuation)
    requires WellFormed(c) && !Cyclic(c.table)
    ensures Solves(c, v)
  {
    var order := AcyclicOrder(c.table);
    SolutionSolves(c, order);
    v := Solution(c, order);
  }

  /** and only one. */
  lemma SolutionUnique(c: Setup, v: Valuation, w: Valuation, s: Symbol)
    requires WellFormed(c) && !Cyclic(c.table) && Solves(c, v) && Solves(c, w)
    ensures v(s) == w(s)
  {
    var order := AcyclicOrder(c.table);
    UniqueInOrder(c, order, v, w, s);
  }

  // ----- What every solution guarantees -----

  /** A bool symbol, or a tristate one without modules, is never m. */
  lemma BoolIsNeverMod(c: Setup, v: Valuation, s: Symbol)
    requires Solves(c, v) && ActingType(c, s) == Boolean
    ensures v(s).tri != 1
  {
    assert SolvesAt(c, v, s);
  }

  /** A bool or tristate symbol is at least its reverse dependencies. */
  lemma NotBelowReverseDependency(c: Setup, v: Valuation, s: Symbol)
    requires Solves(c, v) && s.IsLogic()
    ensures v(s).tri >= RevDep(c, s, EnvOf(c, v))
  {
    assert SolvesAt(c, v, s);
  }

  /** A user value on a visible symbol stands, within the visibility, unless
      reverse dependencies raise it. */
  lemma UserValueStands(c: Setup, v: Valuation, s: Symbol)
    requires Solves(c, v) && s.IsLogic() && s in c.user
    requires var env := EnvOf(c, v); RevDep(c, s, env) <= c.user[s].tri <= Visible(c, s, env) && Visible(c, s, env) != 0
    ensures v(s).tri == RoundUp(c, s, c.user[s].tri)
  {
    assert SolvesAt(c, v, s);
  }

  /** The values of a solution are those the expression results speak of: */
  lemma SolutionIsCalculated(c: Setup, v: Valuation)
    requires Solves(c, v)
    ensures Calculated((s: Symbol) => v(s).tri, (s: Symbol) => StringValue(c.modules, s, v(s)))
  {
    forall s: Symbol ensures v(s) == Defined(c, s, v) { assert SolvesAt(c, v, s); }
  }

  /** so their environment is well-typed, and the rewriting of expressions keeps
      the values expr_calc_value returns. */
  lemma SolutionIsWellTyped(c: Setup, v: Valuation)
    requires Solves(c, v)
    ensures WellTyped(EnvOf(c, v))
  {
    SolutionIsCalculated(c, v);
    EnvironmentIsWellTyped((s: Symbol) => v(s).tri, (s: Symbol) => StringValue(c.modules, s, v(s)));
  }

  // ----- The memoised evaluation -----

  /** The calculated fields of struct symbol. */
  datatype Fields = Fields(curr: Content, visible: Tri, dirDep: Tri, revDep: Tri, implied: Tri)

  const BLANK: Fields := Fields(Content(0, ""), 0, 0, 0, 0)

  class Evaluator {
    const c: Setup
    /** Symbols with SYMBOL_VALID set. */
    var valid: set<Symbol>
    var fields: map<Symbol, Fields>
    ghost const order: seq<Symbol>
    ghost const v: Valuation

    ghost predicate Sound()
    {
      && WellFormed(c) && Solves(c, v)
      && DependencyOrder(c.table, order) && forall t :: t in c.table ==> t in order
    }

    /** Every valid symbol but those still being calculated holds its value. */
    ghost predicate Valid(busy: set<Symbol>)
      reads this
    {
      && Sound()
      && busy <= valid
      && SymYes in valid && SymMod in valid && SymNo in valid
      && forall s :: s in valid ==> s in fields && (s !in busy ==> fields[s].curr == v(s))
    }

    /** The symbols being calculated all depend on symbols up to this level. */
    ghost predicate Above(busy: set<Symbol>, level: nat) {
      forall b :: b in busy ==> Level(order, b) >= level
    }

    constructor (c: Setup)
      requires WellFormed(c) && !Cyclic(c.table)
      ensures this.c == c && Solves(c, v) && Valid({})
    {
      ghost var order := AcyclicOrder(c.table);
      this.c, this.order := c, order;
      this.v := Solution(c, order);
      valid := {SymYes, SymMod, SymNo};
      fields := map[SymYes := BLANK.(curr := Content(2, "y")), SymMod := BLANK.(curr := Content(1, "m")),
                    SymNo := BLANK.(curr := Content(0, "n"))];
      SolutionSolves(c, order);
      ghost var v := Solution(c, order);
      assert SolvesAt(c, v, SymYes) && SolvesAt(c, v, SymMod) && SolvesAt(c, v, SymNo);
    }

    /** What every call leaves alone: the fields of symbols already valid. */
    twostate predicate Keeps()
      reads this
    {
      && old(valid) <= valid
      && forall s :: s in old(valid) && s in old(fields) ==> s in fields && fields[s] == old(fields[s])
    }

    /** expr_calc_value on an expression of a symbol of the given level. */
    method CalcExpr(e: Expr, ghost busy: set<Symbol>, ghost level: nat) returns (r: Tri)
      requires Valid(busy) && Above(busy, level)
      requires forall t :: t in Symbols(e) ==> Level(order, t) < level
      modifies this
      ensures Valid(busy) && Keeps()
      ensures r == Value(e, EnvOf(c, v))
      decreases level, 0, e
    {
      match e
      case Sym(s) =>
        CalcValue(s, busy);
        r := fields[s].curr.tri;
      case Bin(op, x, y) =>
        var v1 := CalcExpr(x, busy, level);
        var v2 := CalcExpr(y, busy, level);
        r := Combine(op, v1, v2);
      case Not(x) =>
        var v1 := CalcExpr(x, busy, level);
        r := 2 - v1;
      case Cmp(rel, s, t) =>
        CalcValue(s, busy);
        CalcValue(t, busy);
        var str1, str2 := StringValue(c.modules, s, fields[s].curr), StringValue(c.modules, t, fields[t].curr);
        r := if Holds(rel, CompareStrings(s.Type(), str1, t.Type(), str2)) then 2 else 0;
    }

    /** The same where a missing expression has the given value. */
    method CalcOpt(e: Option<Expr>, missing: Tri, ghost busy: set<Symbol>, ghost level: nat) returns (r: Tri)
      requires Valid(busy) && Above(busy, level)
      requires forall t :: t in AllSymbols(Present(e)) ==> Level(order, t) < level
      modifies this
      ensures Valid(busy) && Keeps()
      ensures r == if e.Some? then Value(e.value, EnvOf(c, v)) else missing
      decreases level, 1
    {
      if e.Some? {
        assert Present(e)[0] == e.value;
        r := CalcExpr(e.value, busy, level);
      } else {
        r := missing;
      }
    }

    /** The largest prompt condition, from the loop of sym_calc_visibility. */
    method CalcPrompts(s: Symbol, ghost busy: set<Symbol>) returns (tri: Tri)
      requires Valid(busy) && Above(busy, Level(order, s))
      modifies this
      ensures Valid(busy) && Keeps()
      ensures tri == AnyPrompt(InfoOf(c.table, s).props, EnvOf(c, v))
      decreases Level(order, s), 2
    {
      var props := InfoOf(c.table, s).props;
      tri := 0;
      for i := 0 to |props|
        invariant Valid(busy) && Keeps()
        invariant tri == AnyPrompt(props[..i], EnvOf(c, v))
      {
        assert props[..i + 1][..i] == props[..i];
        if props[i].text {
          PropIsLower(s, i);
          var visible := CalcOpt(props[i].visible, 2, busy, Level(order, s));
          tri := TriMax(tri, visible);
        }
      }
      assert props[..|props|] == props;
    }

    /** sym_calc_visibility. */
    method CalcVisibility(s: Symbol, ghost busy: set<Symbol>)
      requires Valid(busy) && s in busy && Above(busy, Level(order, s))
      modifies this
      ensures Valid(busy) && old(valid) <= valid
      ensures forall x :: x in old(valid) && x != s ==> x in fields && fields[x] == old(fields[x])
      ensures var env := EnvOf(c, v);
              fields[s] == Fields(old(fields[s].curr), Visible(c, s, env), DirDep(c, s, env), RevDep(c, s, env),
                  Implied(c, s, env))
      decreases Level(order, s), 3
    {
      var info := InfoOf(c.table, s);
      ScannedIsLower(s);
      var tri := CalcPrompts(s, busy);
      if tri == 1 && (s.Type() != Tristate || c.modules == 0) { tri := 2; }
      var dirDep := CalcOpt(info.dirDep, 2, busy, Level(order, s));
      var revDep := CalcOpt(info.revDep, 0, busy, Level(order, s));
      var implied := CalcOpt(info.implied, 0, busy, Level(order, s));
      StoreDependencies(s, tri, dirDep, revDep, implied, busy);
    }

    method StoreDependencies(s: Symbol, tri: Tri, dirDep: Tri, revDep: Tri, implied: Tri, ghost busy: set<Symbol>)
      requires Valid(busy) && s in busy
      modifies this
      ensures Valid(busy) && valid == old(valid)
      ensures forall x :: x in old(valid) && x != s ==> x in fields && fields[x] == old(fields[x])
      ensures fields[s] == Fields(old(fields[s].curr), tri, RoundUp(c, s, dirDep), RoundUp(c, s, revDep),
              RoundUp(c, s, implied))
    {
      fields := fields[s := Fields(fields[s].curr, tri, RoundUp(c, s, dirDep), RoundUp(c, s, revDep),
          RoundUp(c, s, implied))];
    }

    /** The expressions of one scanned property mention lower symbols. */
    lemma PropIsLower(s: Symbol, i: nat)
      requires Sound() && i < |InfoOf(c.table, s).props| && !IsSkipped(InfoOf(c.table, s).props[i].kind)
      ensures var p := InfoOf(c.table, s).props[i];
              && (forall t :: t in AllSymbols(Present(p.visible)) ==> Level(order, t) < Level(order, s))
              && (p.kind == Default ==> forall t :: t in AllSymbols(Present(p.expr)) ==>
                 Level(order, t) < Level(order, s))
    {
      var p := InfoOf(c.table, s).props[i];
      ScannedIsLower(s);
      PropExprsIncluded(InfoOf(c.table, s).props, i);
      AllSymbolsAppend(Present(p.visible), Present(p.expr));
    }

    lemma ScannedIsLower(s: Symbol)
      requires Sound()
      ensures var info := InfoOf(c.table, s);
              forall t :: t in AllSymbols(Present(info.dirDep)) || t in AllSymbols(Present(info.revDep))
                || t in AllSymbols(Present(info.implied)) || t in AllSymbols(PropsExprs(info.props))
                ==> Level(order, t) < Level(order, s)
    {
      var info := InfoOf(c.table, s);
      var head := Present(info.dirDep) + Present(info.revDep);
      AllSymbolsAppend(Present(info.dirDep), Present(info.revDep));
      AllSymbolsAppend(head, Present(info.implied));
      AllSymbolsAppend(head + Present(info.implied), PropsExprs(info.props));
      forall t | t in Targets(c.table, s) ensures Level(order, t) < Level(order, s) {
        TargetIsLower(c.table, order, s, t);
      }
    }

    /** sym_get_default_prop: the index of the default used, and its condition. */
    method DefaultProp(s: Symbol, ghost busy: set<Symbol>) returns (i: nat, visible: Tri)
      requires Valid(busy) && Above(busy, Level(order, s))
      modifies this
      ensures Valid(busy) && Keeps()
      ensures var props := InfoOf(c.table, s).props;
              i == FirstDefault(props, EnvOf(c, v))
                  && (i < |props| ==> visible == ValueOpt(props[i].visible, EnvOf(c, v)))
      decreases Level(order, s), 2
    {
      var props := InfoOf(c.table, s).props;
      i, visible := 0, 0;
      while i < |props|
        invariant i <= |props| && Valid(busy) && Keeps()
        invariant FirstDefault(props, EnvOf(c, v)) == i + FirstDefault(props[i..], EnvOf(c, v))
      {
        var p := props[i];
        if p.kind == Default {
          PropIsLower(s, i);
          visible := CalcOpt(p.visible, 2, busy, Level(order, s));
          if visible != 0 { return; }
        }
        assert props[i..][1..] == props[i + 1..];
        i := i + 1;
      }
    }

    /** The value of a bool or tristate symbol whose visibility is calculated. */
    method CalcLogic(s: Symbol, ghost busy: set<Symbol>) returns (t: Tri)
      requires Valid(busy) && s in busy && Above(busy, Level(order, s))
      requires var env := EnvOf(c, v);
               fields[s].visible == Visible(c, s, env) && fields[s].dirDep == DirDep(c, s, env)
               && fields[s].revDep == RevDep(c, s, env) && fields[s].implied == Implied(c, s, env)
      modifies this
      ensures Valid(busy) && Keeps()
      ensures var env := EnvOf(c, v); t == RoundUp(c, s, TriMax(OwnTri(c, s, env), RevDep(c, s, env)))
      decreases Level(order, s), 3
    {
      var sym := fields[s];
      t := 0;
      if sym.visible != 0 && s in c.user {
        t := TriMin(c.user[s].tri, sym.visible);
      } else {
        var props := InfoOf(c.table, s).props;
        var i, visible := DefaultProp(s, busy);
        if i < |props| {
          FirstDefaultIsDefault(props, EnvOf(c, v));
          PropIsLower(s, i);
          var d := CalcOpt(props[i].expr, 2, busy, Level(order, s));
          t := TriMin(d, visible);
        }
        if sym.implied != 0 {
          t := TriMax(t, sym.implied);
          t := TriMin(t, sym.dirDep);
        }
      }
      t := TriMax(t, sym.revDep);
      t := RoundUp(c, s, t);
    }

    /** The text of an int, hex or string symbol whose visibility is calculated. */
    method CalcText(s: Symbol, ghost busy: set<Symbol>) returns (text: string)
      requires Valid(busy) && s in busy && Above(busy, Level(order, s))
      requires fields[s].visible == Visible(c, s, EnvOf(c, v))
      modifies this
      ensures Valid(busy) && Keeps()
      ensures text == if Visible(c, s, EnvOf(c, v)) != 0 && s in c.user then c.user[s].val
                      else DefaultText(InfoOf(c.table, s).props, EnvOf(c, v), v)
      decreases Level(order, s), 3
    {
      if fields[s].visible != 0 && s in c.user {
        return c.user[s].val;
      }
      var props := InfoOf(c.table, s).props;
      var i, visible := DefaultProp(s, busy);
      text := "";
      if i < |props| && PropSymbol(props[i]).Some? {
        var ds := PropSymbol(props[i]).value;
        FirstDefaultIsDefault(props, EnvOf(c, v));
        PropIsLower(s, i);
        assert Present(props[i].expr)[0] == props[i].expr.value;
        CalcValue(ds, busy);
        text := fields[ds].curr.val;
      }
    }

    /** The part of sym_calc_value for a symbol of known type, once its flag is set. */
    method CalcTyped(s: Symbol, ghost busy: set<Symbol>)
      requires Valid(busy) && s in busy && Above(busy, Level(order, s)) && s.Type() != Unknown
      modifies this
      ensures Valid(busy) && old(valid) <= valid
      ensures forall x :: x in old(valid) && x != s ==> x in fields && fields[x] == old(fields[x])
      ensures fields[s].curr == v(s)
      decreases Level(order, s), 4
    {
      assert SolvesAt(c, v, s);
      CalcVisibility(s, busy);
      fields := fields[s := fields[s].(curr := Content(0, if s.IsLogic() then "n" else ""))];
      if s.IsLogic() {
        var t := CalcLogic(s, busy);
        fields := fields[s := fields[s].(curr := Content(t, "n"))];
      } else {
        var text := CalcText(s, busy);
        fields := fields[s := fields[s].(curr := Content(0, text))];
      }
    }

    /** sym_calc_value: afterwards the symbol holds the value the defining
        equations give it, whatever was calculated before. */
    method CalcValue(s: Symbol, ghost busy: set<Symbol>)
      requires Valid(busy) && Above(busy, Level(order, s) + 1)
      modifies this
      ensures Valid(busy) && Keeps() && s in valid && fields[s].curr == v(s)
      decreases Level(order, s), 5
    {
      if s in valid {
        return;
      }
      valid := valid + {s};
      fields := fields[s := if s in fields then fields[s] else BLANK];
      if s.Type() == Unknown {
        assert SolvesAt(c, v, s);
        fields := fields[s := fields[s].(curr := Content(0, s.Name()))];
      } else {
        CalcTyped(s, busy + {s});
      }
    }

    /** Any sequence of calculations gives each symbol its one value. */
    method CalcSequence(symbols: seq<Symbol>)
      requires Valid({})
      modifies this
      ensures Valid({})
      ensures forall s :: s in symbols ==> s in valid && fields[s].curr == v(s)
    {
      for i := 0 to |symbols|
        invariant Valid({})
        invariant forall j :: 0 <= j < i ==> symbols[j] in valid
      {
        CalcValue(symbols[i], {});
      }
    }
  }
}
