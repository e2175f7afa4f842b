// Detection of recursive dependencies among symbols
// (tools/kconfig/symbol.c: sym_check_deps and its helpers;
// tools/kconfig/parser.y: the loop in conf_parse).
module SymbolDeps {
  import opened KconfigExpr

  datatype PropKind =
    PUnknown | Prompt | Comment | MenuProp | Default | ChoiceProp | Select | Imply | RangeProp | SymbolProp

  datatype Property = Property(kind: PropKind, text: bool, visible: Option<Expr>, expr: Option<Expr>)

  datatype SymbolInfo = SymbolInfo(
    dirDep: Option<Expr>, revDep: Option<Expr>, implied: Option<Expr>, props: seq<Property>)

  /** What the parser recorded; constants have no entry. */
  type Table = map<Symbol, SymbolInfo>

  const NO_INFO: SymbolInfo := SymbolInfo(None, None, None, [])

  function InfoOf(table: Table, s: Symbol): SymbolInfo { if s in table then table[s] else NO_INFO }

  // ----- The dependency graph -----

  function Symbols(e: Expr): set<Symbol> {
    match e
    case Sym(x) => {x}
    case Not(a) => Symbols(a)
    case Cmp(_, l, r) => {l, r}
    case Bin(_, l, r) => Symbols(l) + Symbols(r)
  }

  function Present(e: Option<Expr>): seq<Expr> { if e.Some? then [e.value] else [] }

  /** The kinds of property whose condition is not followed. */
  predicate IsSkipped(k: PropKind) { k == ChoiceProp || k == Select || k == Imply }

  function PropExprs(p: Property): seq<Expr> {
    if IsSkipped(p.kind) then []
    else if p.kind == Default then Present(p.visible) + Present(p.expr)
    else Present(p.visible)
  }

  function PropsExprs(props: seq<Property>): seq<Expr> {
    if props == [] then [] else PropsExprs(props[..|props| - 1]) + PropExprs(props[|props| - 1])
  }

  /** The expressions scanned for a symbol. */
  function Scanned(info: SymbolInfo): seq<Expr> {
    Present(info.dirDep) + Present(info.revDep) + Present(info.implied) + PropsExprs(info.props)
  }

  function AllSymbols(es: seq<Expr>): set<Symbol> {
    if es == [] then {} else Symbols(es[0]) + AllSymbols(es[1..])
  }

  lemma {:induction false} AllSymbolsAppend(a: seq<Expr>, b: seq<Expr>)
    ensures AllSymbols(a + b) == AllSymbols(a) + AllSymbols(b)
  {
    if a == [] {
      assert a + b == b;
    } else {
      assert (a + b)[1..] == a[1..] + b;
      AllSymbolsAppend(a[1..], b);
    }
  }

  /** The symbols mentioned in the expressions scanned for s. */
  function Targets(table: Table, s: Symbol): set<Symbol> { AllSymbols(Scanned(InfoOf(table, s))) }

  predicate Edge(table: Table, s: Symbol, t: Symbol) { t in Targets(table, s) }

  predicate Mentions(e: Option<Expr>, t: Symbol) { e.Some? && t in Symbols(e.value) }

  /** The condition of a property mentions t, or the value if it is a default; the
      properties of choices, select and imply are not followed. */
  predicate PropertyMentions(p: Property, t: Symbol) {
    !IsSkipped(p.kind) && (Mentions(p.visible, t) || (p.kind == Default && Mentions(p.expr, t)))
  }

  lemma PresentMentions(e: Option<Expr>, t: Symbol)
    ensures t in AllSymbols(Present(e)) <==> Mentions(e, t)
  {
    if e.Some? { assert Present(e)[0] == e.value && Present(e)[1..] == []; }
  }

  lemma PropertyMentionsExactly(p: Property, t: Symbol)
    ensures t in AllSymbols(PropExprs(p)) <==> PropertyMentions(p, t)
  {
    PresentMentions(p.visible, t);
    PresentMentions(p.expr, t);
    AllSymbolsAppend(Present(p.visible), Present(p.expr));
  }

  ghost predicate SomePropertyMentions(props: seq<Property>, t: Symbol) {
    exists p :: p in props && PropertyMentions(p, t)
  }

  lemma {:induction false} PropertiesMention(props: seq<Property>, t: Symbol)
    ensures t in AllSymbols(PropsExprs(props)) <==> SomePropertyMentions(props, t)
  {
    if props != [] {
      var (init, p) := (props[..|props| - 1], props[|props| - 1]);
      PropertiesMention(init, t);
      PropertyMentionsExactly(p, t);
      AllSymbolsAppend(PropsExprs(init), PropExprs(p));
      assert forall q :: q in props <==> q in init || q == p;
    }
  }

  /** What a symbol depends on: what its direct and reverse dependencies, its
      implications, the conditions of its properties and its defaults mention. */
  lemma EdgeExact(table: Table, s: Symbol, t: Symbol)
    ensures Edge(table, s, t) <==>
            s in table &&
            var info := table[s];
            || Mentions(info.dirDep, t) || Mentions(info.revDep, t) || Mentions(info.implied, t)
            || SomePropertyMentions(info.props, t)
  {
    var info := InfoOf(table, s);
    var head := Present(info.dirDep) + Present(info.revDep);
    AllSymbolsAppend(Present(info.dirDep), Present(info.revDep));
    AllSymbolsAppend(head, Present(info.implied));
    AllSymbolsAppend(head + Present(info.implied), PropsExprs(info.props));
    PresentMentions(info.dirDep, t);
    PresentMentions(info.revDep, t);
    PresentMentions(info.implied, t);
    PropertiesMention(info.props, t);
  }

  function Elements(p: seq<Symbol>): set<Symbol> { set s | s in p }

  predicate StepAt(table: Table, p: seq<Symbol>, i: nat)
    requires i + 1 < |p|
  {
    Edge(table, p[i], p[i + 1])
  }

  /** Each symbol of p depends on the next one. */
  predicate IsPath(table: Table, p: seq<Symbol>) { forall i: nat :: i + 1 < |p| ==> StepAt(table, p, i) }

  /** A symbol reaches itself in one or more steps. */
  predicate IsCycle(table: Table, p: seq<Symbol>) {
    |p| >= 2 && p[0] == p[|p| - 1] && IsPath(table, p)
  }

  ghost predicate Cyclic(table: Table) { exists p :: IsCycle(table, p) }

  // ----- Orders in which every symbol follows what it depends on -----

  predicate FollowsAt(table: Table, order: seq<Symbol>, i: nat)
    requires i < |order|
  {
    Targets(table, order[i]) <= Elements(order[..i])
  }

  predicate DependencyOrder(table: Table, order: seq<Symbol>) {
    forall i: nat :: i < |order| ==> FollowsAt(table, order, i)
  }

  lemma OrderPrefix(table: Table, order: seq<Symbol>, n: nat)
    requires DependencyOrder(table, order) && n <= |order|
    ensures DependencyOrder(table, order[..n])
  {
    forall i: nat | i < n ensures FollowsAt(table, order[..n], i) {
      assert FollowsAt(table, order, i) && order[..n][..i] == order[..i];
    }
  }

  /** The position of the first occurrence. */
  function IndexOf(order: seq<Symbol>, s: Symbol): (i: nat)
    requires s in order
    ensures i < |order| && order[i] == s && s !in order[..i]
  {
    var init := order[..|order| - 1];
    if s in init then IndexOf(init, s) else |order| - 1
  }

  lemma EdgeLowersIndex(table: Table, order: seq<Symbol>, s: Symbol, t: Symbol)
    requires DependencyOrder(table, order) && s in order && Edge(table, s, t)
    ensures t in order && IndexOf(order, t) < IndexOf(order, s)
  {
    var k := IndexOf(order, s);
    assert FollowsAt(table, order, k) && t in Elements(order[..k]);
    var j :| 0 <= j < k && order[j] == t;
    IndexIsFirst(order, j);
  }

  lemma IndexIsFirst(order: seq<Symbol>, j: nat)
    requires j < |order|
    ensures IndexOf(order, order[j]) <= j
  {
    var i := IndexOf(order, order[j]);
    assert forall k :: 0 <= k < i ==> order[..i][k] == order[k] && order[k] != order[j];
  }

  lemma {:induction false} PathLowersIndex(table: Table, order: seq<Symbol>, p: seq<Symbol>, n: nat)
    requires DependencyOrder(table, order) && 1 <= n < |p| && p[0] in order && IsPath(table, p)
    ensures p[n] in order && IndexOf(order, p[n]) < IndexOf(order, p[0])
    decreases n
  {
    if n > 1 { PathLowersIndex(table, order, p, n - 1); }
    assert StepAt(table, p, n - 1);
    EdgeLowersIndex(table, order, p[n - 1], p[n]);
  }

  lemma OrderExcludesCycles(table: Table, order: seq<Symbol>)
    requires DependencyOrder(table, order) && forall s :: s in table ==> s in order
    ensures !Cyclic(table)
  {
    forall p | IsCycle(table, p) ensures false {
      assert StepAt(table, p, 0) && p[0] in table;
      PathLowersIndex(table, order, p, |p| - 1);
    }
  }

  lemma OrderExtends(table: Table, order: seq<Symbol>, s: Symbol)
    requires DependencyOrder(table, order) && Targets(table, s) <= Elements(order)
    ensures DependencyOrder(table, order + [s]) && Elements(order + [s]) == Elements(order) + {s}
  {
    ElementsExtend(order, s);
    var next := order + [s];
    forall i: nat | i < |next| ensures FollowsAt(table, next, i) {
      if i < |order| {
        assert FollowsAt(table, order, i) && next[..i] == order[..i];
      } else {
        assert next[..i] == order;
      }
    }
  }

  lemma ElementsExtend(p: seq<Symbol>, s: Symbol)
    ensures Elements(p + [s]) == Elements(p) + {s}
  {
  }

  lemma StepExtends(table: Table, p: seq<Symbol>, s: Symbol, i: nat)
    requires i < |p| && (if i + 1 < |p| then StepAt(table, p, i) else Edge(table, p[i], s))
    ensures StepAt(table, p + [s], i)
  {
    assert (p + [s])[i] == p[i] && (p + [s])[i + 1] == if i + 1 < |p| then p[i + 1] else s;
  }

  lemma PathExtends(table: Table, p: seq<Symbol>, s: Symbol)
    requires IsPath(table, p) && (p != [] ==> Edge(table, p[|p| - 1], s))
    ensures IsPath(table, p + [s])
  {
    forall i: nat | i + 1 < |p + [s]| ensures StepAt(table, p + [s], i) {
      assert i + 1 < |p| ==> StepAt(table, p, i);
      StepExtends(table, p, s, i);
    }
  }

  lemma PathSuffix(table: Table, p: seq<Symbol>, i: nat)
    requires IsPath(table, p) && i <= |p|
    ensures IsPath(table, p[i..])
  {
    forall j: nat | j + 1 < |p[i..]| ensures StepAt(table, p[i..], j) {
      assert StepAt(table, p, i + j);
    }
  }

  /** Coming back to a symbol of the pending chain closes a cycle. */
  lemma StackCloses(table: Table, stack: seq<Symbol>, s: Symbol)
    requires IsPath(table, stack) && s in stack && Edge(table, stack[|stack| - 1], s)
    ensures Cyclic(table)
  {
    var i :| 0 <= i < |stack| && stack[i] == s;
    SuffixCloses(table, stack, i);
  }

  lemma SuffixCloses(table: Table, p: seq<Symbol>, i: nat)
    requires IsPath(table, p) && i < |p| && Edge(table, p[|p| - 1], p[i])
    ensures Cyclic(table)
  {
    PathSuffix(table, p, i);
    var t := p[i..];
    assert t[0] == p[i] && t[|t| - 1] == p[|p| - 1];
    PathCloses(table, t, p[i]);
  }

  lemma PathCloses(table: Table, p: seq<Symbol>, s: Symbol)
    requires IsPath(table, p) && p != [] && p[0] == s && Edge(table, p[|p| - 1], s)
    ensures Cyclic(table)
  {
    PathExtends(table, p, s);
    assert IsCycle(table, p + [s]);
  }

  // ----- Acyclic tables have an order -----

  function MentionedIn(table: Table): set<Symbol> { set s, t | s in table && t in Targets(table, s) :: t }

  /** Following dependencies inside rest, without coming back, ends somewhere. */
  lemma {:induction false} LeastOf(table: Table, rest: set<Symbol>, path: seq<Symbol>) returns (s: Symbol)
    requires !Cyclic(table) && path != [] && IsPath(table, path) && Elements(path) <= rest
    ensures s in rest && Targets(table, s) !! rest
    decreases rest - Elements(path)
  {
    s := path[|path| - 1];
    assert s in Elements(path);
    if !(Targets(table, s) !! rest) {
      var t :| t in Targets(table, s) && t in rest;
      if t in path { StackCloses(table, path, t); }
      PathExtends(table, path, t);
      ElementsExtend(path, t);
      assert t in rest - Elements(path) && t !in rest - Elements(path + [t]);
      s := LeastOf(table, rest, path + [t]);
    }
  }

  lemma {:induction false} OrderCompletes(table: Table, order: seq<Symbol>, rest: set<Symbol>)
    returns (all: seq<Symbol>)
    requires !Cyclic(table) && DependencyOrder(table, order)
    requires Elements(order) + rest == table.Keys + MentionedIn(table)
    ensures DependencyOrder(table, all) && Elements(all) == table.Keys + MentionedIn(table)
    decreases rest
  {
    all := order;
    if rest != {} {
      var s :| s in rest;
      s := LeastOf(table, rest, [s]);
      TargetsAreMentioned(table, s);
      OrderExtends(table, order, s);
      all := OrderCompletes(table, order + [s], rest - {s});
    } else {
      assert Elements(order) == Elements(order) + rest;
    }
  }

  lemma TargetsAreMentioned(table: Table, s: Symbol)
    ensures Targets(table, s) <= MentionedIn(table)
  {
    if s !in table { assert InfoOf(table, s) == NO_INFO && Scanned(NO_INFO) == []; }
  }

  /** The symbols of an acyclic table can be put in order. */
  lemma AcyclicOrder(table: Table) returns (order: seq<Symbol>)
    requires !Cyclic(table)
    ensures DependencyOrder(table, order) && forall s :: s in table ==> s in order
  {
    order := OrderCompletes(table, [], table.Keys + MentionedIn(table));
    assert forall s :: s in table ==> s in Elements(order);
  }

  // ----- The dependency check -----

  predicate Inside(table: Table, universe: set<Symbol>, s: Symbol) { Targets(table, s) <= universe }

  ghost predicate Closed(table: Table, universe: set<Symbol>) {
    forall s {:trigger Inside(table, universe, s)} :: s in universe ==> Inside(table, universe, s)
  }

  /** The SYMBOL_CHECK and SYMBOL_CHECKED flags, the chain of symbols being
      checked, and the completely checked symbols in the order of completion. */
  datatype Progress = Progress(check: set<Symbol>, checked: set<Symbol>, stack: seq<Symbol>, order: seq<Symbol>)
  {
    ghost predicate Valid(table: Table, universe: set<Symbol>) {
      && Done() + check <= checked <= universe
      && IsPath(table, stack) && check == Elements(stack)
      && DependencyOrder(table, order)
    }

    function Done(): set<Symbol> { Elements(order) }

    /** Nothing has been reported: whatever is checked is complete or pending. */
    predicate Clean() { checked <= Done() + check }

    function Top(): Symbol
      requires stack != []
    {
      stack[|stack| - 1]
    }

    /** The symbols that the top symbol depends on are known ones. */
    lemma TopTargets(table: Table, universe: set<Symbol>, part: set<Symbol>)
      requires Valid(table, universe) && Closed(table, universe) && stack != [] && part <= Targets(table, Top())
      ensures part <= universe && forall s :: s in part ==> Edge(table, Top(), s)
    {
      assert Top() in Elements(stack) && Inside(table, universe, Top());
    }

    /** A call on dependencies of the top symbol came back with its verdict: a
        cycle exists, or all of them are complete. */
    ghost predicate Leads(table: Table, universe: set<Symbol>, next: Progress, bad: Option<Symbol>,
                          targets: set<Symbol>) {
      && next.Valid(table, universe)
      && next.stack == stack && next.check == check
      && checked <= next.checked && Done() <= next.Done()
      && (bad.Some? ==> Cyclic(table))
      && (bad.None? && Clean() ==> next.Clean() && targets <= next.Done())
    }

    lemma LeadsOn(table: Table, universe: set<Symbol>, middle: Progress, next: Progress, bad: Option<Symbol>,
                  t1: set<Symbol>, t2: set<Symbol>)
      requires Leads(table, universe, middle, None, t1) && middle.Leads(table, universe, next, bad, t2)
      ensures Leads(table, universe, next, bad, t1 + t2)
    {
    }

    /** The state in which the scan of s starts. */
    function Begin(s: Symbol): Progress { Progress(check + {s}, checked + {s}, stack + [s], order) }

    lemma Begins(table: Table, universe: set<Symbol>, s: Symbol)
      requires Valid(table, universe) && s in universe && s !in checked
      requires stack != [] ==> Edge(table, Top(), s)
      ensures Begin(s).Valid(table, universe) && (Clean() ==> Begin(s).Clean())
    {
      PathExtends(table, stack, s);
      ElementsExtend(stack, s);
    }

    /** The state after the scan of s, which completes s if nothing was reported. */
    function End(next: Progress, s: Symbol, complete: bool): Progress {
      Progress(check, next.checked, stack, if complete then next.order + [s] else next.order)
    }

    lemma Ends(table: Table, universe: set<Symbol>, s: Symbol, next: Progress, bad: Option<Symbol>)
      requires Valid(table, universe) && s in universe && s !in checked
      requires Begin(s).Leads(table, universe, next, bad, Targets(table, s))
      ensures Leads(table, universe, End(next, s, bad.None? && Clean()), bad, {s})
    {
      if bad.None? && Clean() { OrderExtends(table, next.order, s); }
    }

    lemma LeadsToCycle(table: Table, universe: set<Symbol>, next: Progress, bad: Option<Symbol>,
                       t1: set<Symbol>, t2: set<Symbol>)
      requires Leads(table, universe, next, bad, t1) && bad.Some?
      ensures Leads(table, universe, next, bad, t2)
    {
    }
  }

  class DependencyChecker {
    const table: Table
    /** All symbols of the hash table and the constants y, m, n. */
    ghost const universe: set<Symbol>
    var check: set<Symbol>
    var checked: set<Symbol>
    /** check_top is the last element. */
    var stack: seq<Symbol>
    ghost var order: seq<Symbol>

    ghost function State(): Progress
      reads this
    {
      Progress(check, checked, stack, order)
    }

    ghost predicate Valid()
      reads this
    {
      Closed(table, universe) && State().Valid(table, universe)
    }

    constructor (t: Table, ghost u: set<Symbol>)
      requires Closed(t, u)
      ensures table == t && universe == u && Valid() && State() == Progress({}, {}, [], [])
    {
      table, universe := t, u;
      check, checked, stack, order := {}, {}, [], [];
    }

    /** sym_check_expr_deps. */
    method CheckExprDeps(e: Expr) returns (bad: Option<Symbol>)
      requires Valid() && stack != [] && Symbols(e) <= Targets(table, State().Top())
      modifies this
      ensures old(State()).Leads(table, universe, State(), bad, Symbols(e))
      decreases universe - checked, 1, e, 1
    {
      match e
      case Bin(_, _, _) => bad := CheckOperands(e);
      case Not(a) => bad := CheckExprDeps(a);
      case Cmp(_, l, r) =>
        assert Symbols(e) == {l} + {r};
        bad := CheckSides(l, r);
      case Sym(s) => bad := CheckTarget(s);
    }

    /** Both operands of && or ||, the second unless the first reports a cycle. */
    method CheckOperands(e: Expr) returns (bad: Option<Symbol>)
      requires Valid() && stack != [] && Symbols(e) <= Targets(table, State().Top()) && e.Bin?
      modifies this
      ensures old(State()).Leads(table, universe, State(), bad, Symbols(e))
      decreases universe - checked, 1, e, 0
    {
      ghost var before, first, second := State(), Symbols(e.left), Symbols(e.right);
      assert Symbols(e) == first + second;
      bad := CheckExprDeps(e.left);
      if bad.Some? {
        before.LeadsToCycle(table, universe, State(), bad, first, first + second);
        return;
      }
      ghost var middle := State();
      bad := CheckExprDeps(e.right);
      before.LeadsOn(table, universe, middle, State(), bad, first, second);
    }

    /** Both sides of a comparison. */
    method CheckSides(l: Symbol, r: Symbol) returns (bad: Option<Symbol>)
      requires Valid() && stack != [] && {l} + {r} <= Targets(table, State().Top())
      modifies this
      ensures old(State()).Leads(table, universe, State(), bad, {l} + {r})
      decreases universe - checked, 0, 2
    {
      ghost var before, first, second, targets := State(), {l}, {r}, Targets(table, State().Top());
      assert first <= targets && second <= targets;
      bad := CheckTarget(l);
      if bad.Some? {
        before.LeadsToCycle(table, universe, State(), bad, first, first + second);
        return;
      }
      ghost var middle := State();
      assert middle.Top() == before.Top();
      bad := CheckTarget(r);
      before.LeadsOn(table, universe, middle, State(), bad, first, second);
    }

    /** One symbol that the top symbol depends on. */
    method CheckTarget(s: Symbol) returns (bad: Option<Symbol>)
      requires Valid() && stack != [] && {s} <= Targets(table, State().Top())
      modifies this
      ensures old(State()).Leads(table, universe, State(), bad, {s})
      decreases universe - checked, 0, 1
    {
      State().TopTargets(table, universe, {s});
      bad := CheckDeps(s);
    }

    /** The scan of a list of expressions, up to the first cycle. */
    method CheckAllDeps(es: seq<Expr>) returns (bad: Option<Symbol>)
      requires Valid() && stack != [] && AllSymbols(es) <= Targets(table, State().Top())
      modifies this
      ensures old(State()).Leads(table, universe, State(), bad, AllSymbols(es))
      decreases universe - checked, 2, |es|
    {
      bad := None;
      if es == [] { return; }
      ghost var before, first, others := State(), Symbols(es[0]), AllSymbols(es[1..]);
      assert AllSymbols(es) == first + others;
      bad := CheckExprDeps(es[0]);
      if bad.Some? {
        before.LeadsToCycle(table, universe, State(), bad, first, first + others);
        return;
      }
      ghost var middle := State();
      bad := CheckAllDeps(es[1..]);
      before.LeadsOn(table, universe, middle, State(), bad, first, others);
    }

    /** sym_check_sym_deps for the symbol on top of the stack, which is not a
        choice: dependencies, reverse dependencies, implications, properties. */
    method CheckSymDeps() returns (bad: Option<Symbol>)
      requires Valid() && stack != []
      modifies this
      ensures old(State()).Leads(table, universe, State(), bad, Targets(table, old(State()).Top()))
      decreases universe - checked, 3
    {
      var info := InfoOf(table, stack[|stack| - 1]);
      bad := CheckAllDeps(Scanned(info));
    }

    /** sym_check_deps, for a symbol that is not a choice: None when its
        dependencies are fine. */
    method CheckDeps(s: Symbol) returns (bad: Option<Symbol>)
      requires Valid() && s in universe
      requires stack != [] ==> Edge(table, stack[|stack| - 1], s)
      modifies this
      ensures old(State()).Leads(table, universe, State(), bad, {s})
      decreases universe - checked, 0, 0
    {
      if s in check {
        StackCloses(table, stack, s);
        return Some(s);
      }
      if s in checked {
        return None;
      }
      ghost var before := State();
      var below := stack;
      before.Begins(table, universe, s);
      check, checked, stack := check + {s}, checked + {s}, stack + [s];
      assert s in universe - before.checked && s !in universe - checked;
      assert State() == before.Begin(s);
      bad := CheckSymDeps();
      before.Ends(table, universe, s, State(), bad);
      check, stack := check - {s}, below;
      assert check == before.check;
      if bad.None? && before.Clean() {
        order := order + [s];
      }
    }

    /** The loop of conf_parse over all symbols: it counts an error exactly when
        the dependencies of some symbol lead back to it. */
    method CheckAll(symbols: seq<Symbol>) returns (errors: nat)
      requires Valid() && State().Clean() && stack == []
      requires forall s :: s in symbols ==> s in universe
      requires forall s :: s in table ==> s in symbols
      modifies this
      ensures errors != 0 <==> Cyclic(table)
      ensures errors == 0 ==> DependencyOrder(table, order) && forall s :: s in symbols ==> s in order
    {
      errors := 0;
      for i := 0 to |symbols|
        invariant Valid() && stack == []
        invariant errors != 0 ==> Cyclic(table)
        invariant errors == 0 ==> State().Clean() && forall j :: 0 <= j < i ==> symbols[j] in State().Done()
      {
        var bad := CheckDeps(symbols[i]);
        if bad.Some? {
          errors := errors + 1;
        }
      }
      if errors == 0 {
        OrderExcludesCycles(table, order);
      }
    }
  }
}
