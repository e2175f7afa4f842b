// Printing expressions and parsing them back (tools/kconfig/expr.c: expr_print,
// expr_compare_type; tools/kconfig/parser.y: precedences and the expr rules).
module ExprPrint {
  import opened KconfigExpr

  datatype Token = Word(name: string) | RelTok(rel: Rel) | OpTok(op: Op) | NotTok | Open | Close

  // ----- The printer -----

  datatype ExprType = ENone | EOr | EAnd | ENot | ERel(rel: Rel) | EList | ESymbol

  predicate IsOrder(t: ExprType) { t.ERel? && t.rel != Eq && t.rel != Ne }

  /** expr_compare_type, its switch falling through from each case to the next:
      positive when t2 needs parentheses below t1. */
  function CompareType(t1: ExprType, t2: ExprType): int {
    if t1 == t2 then 0
    else if IsOrder(t1) && t2.ERel? && !IsOrder(t2) then 1
    else if t1.ERel? && t2 == ENot then 1
    else if (t1.ERel? || t1 == ENot) && t2 == EAnd then 1
    else if (t1.ERel? || t1 == ENot || t1 == EAnd) && t2 == EOr then 1
    else if (t1.ERel? || t1 in {ENot, EAnd, EOr}) && t2 == EList then 1
    else if (t1.ERel? || t1 in {ENot, EAnd, EOr, EList}) && t2 == ENone then 1
    else -1
  }

  function OpType(op: Op): ExprType { if op == Or then EOr else EAnd }

  function TypeOf(e: Expr): ExprType {
    match e
    case Sym(_) => ESymbol
    case Not(_) => ENot
    case Cmp(rel, _, _) => ERel(rel)
    case Bin(op, _, _) => OpType(op)
  }

  predicate NeedsParens(prev: ExprType, e: Expr) { CompareType(prev, TypeOf(e)) > 0 }

  /** The tokens expr_print emits between its optional parentheses. */
  function Body(e: Expr): seq<Token>
    decreases e, 0
  {
    match e
    case Sym(s) => [Word(s.Name())]
    case Not(a) => [NotTok] + Print(a, ENot)
    case Cmp(rel, l, r) => [Word(l.Name()), RelTok(rel), Word(r.Name())]
    case Bin(op, l, r) => Print(l, OpType(op)) + ([OpTok(op)] + Print(r, OpType(op)))
  }

  function Print(e: Expr, prev: ExprType): seq<Token>
    decreases e, 1
  {
    if NeedsParens(prev, e) then [Open] + (Body(e) + [Close]) else Body(e)
  }

  // ----- The parentheses printed -----

  /** How many operators stand directly below one that binds tighter: || below
      &&, and either below !. */
  function LooseOperators(e: Expr): nat {
    match e
    case Sym(_) => 0
    case Cmp(_, _, _) => 0
    case Not(a) => (if a.Bin? then 1 else 0) + LooseOperators(a)
    case Bin(op, l, r) =>
      (if op == And && IsBin(l, Or) then 1 else 0) + (if op == And && IsBin(r, Or) then 1 else 0)
      + LooseOperators(l) + LooseOperators(r)
  }

  function Occurrences(t: Token, s: seq<Token>): nat {
    if s == [] then 0 else (if s[0] == t then 1 else 0) + Occurrences(t, s[1..])
  }

  lemma {:induction false} OccurrencesAppend(t: Token, a: seq<Token>, b: seq<Token>)
    ensures Occurrences(t, a + b) == Occurrences(t, a) + Occurrences(t, b)
    decreases |a|
  {
    if a == [] {
      assert a + b == b;
    } else {
      assert (a + b)[1..] == a[1..] + b;
      OccurrencesAppend(t, a[1..], b);
    }
  }

  lemma OccurrencesAround(t: Token, x: Token, a: seq<Token>, y: Token)
    ensures Occurrences(t, [x] + a) == (if x == t then 1 else 0) + Occurrences(t, a)
    ensures Occurrences(t, [x] + (a + [y])) ==
            (if x == t then 1 else 0) + Occurrences(t, a) + (if y == t then 1 else 0)
  {
    assert ([x] + a)[1..] == a && ([x] + (a + [y]))[1..] == a + [y] && [y][1..] == [];
    OccurrencesAppend(t, a, [y]);
  }

  lemma LooseNeedsParens(prev: ExprType, e: Expr)
    requires prev in {ENone, EOr, EAnd, ENot}
    ensures NeedsParens(prev, e) <==> (prev == EAnd && IsBin(e, Or)) || (prev == ENot && e.Bin?)
  {
  }

  lemma LeafParens(e: Expr, t: Token)
    requires (e.Sym? || e.Cmp?) && (t == Open || t == Close)
    ensures Occurrences(t, Body(e)) == 0
  {
    if e.Sym? {
      assert Body(e)[1..] == [];
    } else {
      var (l, rel, r) := (Word(e.lhs.Name()), RelTok(e.rel), Word(e.rhs.Name()));
      assert Body(e) == [l] + ([rel] + [r]) && [rel][1..] == [];
      OccurrencesAround(t, l, [rel], r);
    }
  }

  lemma {:induction false} BodyParens(e: Expr, t: Token)
    requires t == Open || t == Close
    ensures Occurrences(t, Body(e)) == LooseOperators(e)
    decreases e, 0
  {
    match e
    case Not(a) =>
      PrintParens(a, ENot, t);
      OccurrencesAround(t, NotTok, Print(a, ENot), Close);
    case Bin(op, l, r) =>
      var (first, second) := (Print(l, OpType(op)), Print(r, OpType(op)));
      PrintParens(l, OpType(op), t);
      PrintParens(r, OpType(op), t);
      OccurrencesAround(t, OpTok(op), second, Close);
      OccurrencesAppend(t, first, [OpTok(op)] + second);
    case _ => LeafParens(e, t);
  }

  lemma {:induction false} PrintParens(e: Expr, prev: ExprType, t: Token)
    requires prev in {ENone, EOr, EAnd, ENot} && (t == Open || t == Close)
    ensures var loose := (prev == EAnd && IsBin(e, Or)) || (prev == ENot && e.Bin?);
            Occurrences(t, Print(e, prev)) == (if loose then 1 else 0) + LooseOperators(e)
    decreases e, 1
  {
    BodyParens(e, t);
    LooseNeedsParens(prev, e);
    OccurrencesAround(t, Open, Body(e), Close);
  }

  /** Parentheses are printed around those operators only. */
  lemma ParensPrinted(e: Expr)
    ensures Occurrences(Open, Print(e, ENone)) == Occurrences(Close, Print(e, ENone)) == LooseOperators(e)
  {
    PrintParens(e, ENone, Open);
    PrintParens(e, ENone, Close);
  }

  // ----- The parser -----

  datatype Item = Tok(tok: Token) | Sy(sym: Symbol) | Ex(expr: Expr)
  datatype Stack = Bottom | Push(below: Stack, item: Item)

  function ItemWeight(i: Item): nat { if i.Sy? then 2 else 1 }

  function StackWeight(k: Stack): nat {
    if k.Bottom? then 0 else ItemWeight(k.item) + StackWeight(k.below)
  }

  /** A symbol on top: the right side of a comparison, or an expression unless a
      comparison follows. */
  function ReduceSymbol(below: Stack, s: Symbol, lookahead: Option<Token>): (r: Option<Stack>)
    ensures r.Some? ==> StackWeight(r.value) < 2 + StackWeight(below)
  {
    match below
    case Push(Push(b, Sy(l)), Tok(RelTok(rel))) =>
      assert StackWeight(below) == 3 + StackWeight(b);
      Some(Push(b, Ex(Cmp(rel, l, s))))
    case _ => if lookahead.Some? && lookahead.value.RelTok? then None else Some(Push(below, Ex(Sym(s))))
  }

  /** An expression on top: an operand of ! or the right one of && or ||. */
  function ReduceExpr(below: Stack, e: Expr, lookahead: Option<Token>): (r: Option<Stack>)
    ensures r.Some? ==> StackWeight(r.value) < 1 + StackWeight(below)
  {
    match below
    case Push(b, Tok(NotTok)) => Some(Push(b, Ex(Not(e))))
    case Push(Push(b, Ex(l)), Tok(OpTok(op))) =>
      assert StackWeight(below) == 2 + StackWeight(b);
      if op == Or && lookahead == Some(OpTok(And)) then None else Some(Push(b, Ex(Bin(op, l, e))))
    case _ => None
  }

  /** A closing parenthesis on top. */
  function ReduceParens(below: Stack): (r: Option<Stack>)
    ensures r.Some? ==> StackWeight(r.value) < 1 + StackWeight(below)
  {
    match below
    case Push(Push(b, Tok(Open)), Ex(e)) =>
      assert StackWeight(below) == 2 + StackWeight(b);
      Some(Push(b, Ex(e)))
    case _ => None
  }

  /** One reduction of the generated shift-reduce parser, if it prefers to reduce
      on the lookahead (None at the end of the input). A comparison takes symbols,
      not expressions; ! binds tighter than &&, && tighter than ||, and both
      associate to the left. */
  function Reduce(k: Stack, lookahead: Option<Token>): (r: Option<Stack>)
    ensures r.Some? ==> StackWeight(r.value) < StackWeight(k)
  {
    match k
    case Bottom => None
    case Push(below, Sy(s)) => ReduceSymbol(below, s, lookahead)
    case Push(below, Ex(e)) => ReduceExpr(below, e, lookahead)
    case Push(below, Tok(t)) => if t == Close then ReduceParens(below) else None
  }

  function Lookahead(ts: seq<Token>): Option<Token> { if ts == [] then None else Some(ts[0]) }

  /** The parser from a given stack; lookup is sym_lookup for unquoted words. */
  function Run(lookup: string -> Symbol, k: Stack, ts: seq<Token>): Option<Expr>
    decreases 3 * |ts| + StackWeight(k)
  {
    var reduced := Reduce(k, Lookahead(ts));
    if reduced.Some? then Run(lookup, reduced.value, ts)
    else if ts != [] then
      var item := if ts[0].Word? then Sy(lookup(ts[0].name)) else Tok(ts[0]);
      Run(lookup, Push(k, item), ts[1..])
    else if k.Push? && k.item.Ex? && k.below.Bottom? then Some(k.item.expr)
    else None
  }

  function Parse(lookup: string -> Symbol, ts: seq<Token>): Option<Expr> { Run(lookup, Bottom, ts) }

  // ----- Left-associated chains -----

  /** e appended, operand by operand, to the chain acc. */
  function Graft(op: Op, acc: Expr, e: Expr): Expr
    decreases e, 1
  {
    if IsBin(e, op) then Graft(op, Graft(op, acc, e.left), e.right) else Bin(op, acc, LeftAssociated(e))
  }

  function LeftAssociated(e: Expr): Expr
    decreases e, 0
  {
    match e
    case Sym(_) => e
    case Cmp(_, _, _) => e
    case Not(a) => Not(LeftAssociated(a))
    case Bin(op, l, r) => Graft(op, LeftAssociated(l), r)
  }

  predicate IsLeftNested(e: Expr) {
    match e
    case Sym(_) => true
    case Cmp(_, _, _) => true
    case Not(a) => IsLeftNested(a)
    case Bin(op, l, r) => IsLeftNested(l) && IsLeftNested(r) && !IsBin(r, op)
  }

  lemma {:induction false} GraftValue(op: Op, acc: Expr, e: Expr, env: Env)
    ensures Value(Graft(op, acc, e), env) == Combine(op, Value(acc, env), Value(e, env))
    decreases e, 1
  {
    if IsBin(e, op) {
      GraftValue(op, acc, e.left, env);
      GraftValue(op, Graft(op, acc, e.left), e.right, env);
    } else {
      LeftAssociatedValue(e, env);
    }
  }

  lemma {:induction false} LeftAssociatedValue(e: Expr, env: Env)
    ensures Value(LeftAssociated(e), env) == Value(e, env)
    decreases e, 0
  {
    if e.Not? {
      LeftAssociatedValue(e.arg, env);
    } else if e.Bin? {
      LeftAssociatedValue(e.left, env);
      GraftValue(e.op, LeftAssociated(e.left), e.right, env);
    }
  }

  /** Re-association changes exactly the expressions that are not left-nested. */
  lemma {:induction false} LeftAssociatedIdentity(e: Expr)
    ensures IsLeftNested(LeftAssociated(e))
    ensures LeftAssociated(e) == e <==> IsLeftNested(e)
    decreases e, 0
  {
    if e.Not? {
      LeftAssociatedIdentity(e.arg);
    } else if e.Bin? {
      LeftAssociatedIdentity(e.left);
      GraftNested(e.op, LeftAssociated(e.left), e.right);
    }
  }

  lemma {:induction false} GraftNested(op: Op, acc: Expr, e: Expr)
    requires IsLeftNested(acc)
    ensures IsLeftNested(Graft(op, acc, e))
    ensures IsLeftNested(e) && !IsBin(e, op) ==> Graft(op, acc, e) == Bin(op, acc, e)
    decreases e, 1
  {
    if IsBin(e, op) {
      GraftNested(op, acc, e.left);
      GraftNested(op, Graft(op, acc, e.left), e.right);
    } else {
      LeftAssociatedIdentity(e);
      NotAChain(op, e);
    }
  }

  lemma {:induction false} NotAChain(op: Op, e: Expr)
    requires !IsBin(e, op)
    ensures !IsBin(LeftAssociated(e), op)
  {
    if e.Bin? { GraftOp(e.op, LeftAssociated(e.left), e.right); }
  }

  lemma {:induction false} GraftOp(op: Op, acc: Expr, e: Expr)
    ensures IsBin(Graft(op, acc, e), op)
    decreases e
  {
    if IsBin(e, op) { GraftOp(op, Graft(op, acc, e.left), e.right); }
  }

  // ----- Printing followed by parsing -----

  /** e with every symbol looked up again by its printed name: quotes are not
      printed, so a quoted constant comes back as an ordinary symbol. */
  function Reread(e: Expr, lookup: string -> Symbol): Expr {
    match e
    case Sym(s) => Sym(lookup(s.Name()))
    case Not(a) => Not(Reread(a, lookup))
    case Cmp(rel, l, r) => Cmp(rel, lookup(l.Name()), lookup(r.Name()))
    case Bin(op, l, r) => Bin(op, Reread(l, lookup), Reread(r, lookup))
  }

  /** An expression may start on this stack. */
  predicate Ready(k: Stack) {
    k.Bottom? || (k.item.Tok? && (k.item.tok.OpTok? || k.item.tok == NotTok || k.item.tok == Open))
  }

  /** A chain of op may grow on this stack: no tighter or equal operator waits. */
  predicate CanExtend(k: Stack, op: Op) {
    k.Bottom? || k.item == Tok(Open)
        || (op == And && k.Push? && k.item == Tok(OpTok(Or)) && k.below.Push? && k.below.item.Ex?)
  }

  predicate NoRelation(rest: seq<Token>) { rest != [] ==> !rest[0].RelTok? }

  /** The token after a chain of op ends it or continues it. */
  predicate EndsChain(op: Op, rest: seq<Token>) {
    NoRelation(rest) && (op == Or ==> Lookahead(rest) != Some(OpTok(And)))
  }

  lemma Shift(lookup: string -> Symbol, k: Stack, t: Token, rest: seq<Token>)
    requires Reduce(k, Some(t)).None?
    ensures Run(lookup, k, [t] + rest) == Run(lookup, Push(k, if t.Word? then Sy(lookup(t.name)) else Tok(t)), rest)
  {
    assert ([t] + rest)[1..] == rest;
  }

  lemma SymbolParses(lookup: string -> Symbol, k: Stack, s: Symbol, rest: seq<Token>)
    requires Ready(k) && NoRelation(rest)
    ensures Run(lookup, k, Body(Sym(s)) + rest) == Run(lookup, Push(k, Ex(Sym(lookup(s.Name())))), rest)
  {
    Shift(lookup, k, Word(s.Name()), rest);
  }

  lemma ComparisonParses(lookup: string -> Symbol, k: Stack, e: Expr, rest: seq<Token>)
    requires e.Cmp? && Ready(k)
    ensures Run(lookup, k, Body(e) + rest) == Run(lookup, Push(k, Ex(Reread(e, lookup))), rest)
  {
    var Cmp(rel, l, r) := e;
    assert Body(e) + rest == [Word(l.Name())] + ([RelTok(rel)] + ([Word(r.Name())] + rest));
    Shift(lookup, k, Word(l.Name()), [RelTok(rel)] + ([Word(r.Name())] + rest));
    var k1 := Push(k, Sy(lookup(l.Name())));
    Shift(lookup, k1, RelTok(rel), [Word(r.Name())] + rest);
    var k2 := Push(k1, Tok(RelTok(rel)));
    Shift(lookup, k2, Word(r.Name()), rest);
    assert Reduce(Push(k2, Sy(lookup(r.Name()))), Lookahead(rest)) == Some(Push(k, Ex(Reread(e, lookup))));
  }

  lemma {:induction false} BodyParses(lookup: string -> Symbol, k: Stack, e: Expr, rest: seq<Token>)
    requires Ready(k) && NoRelation(rest)
    requires e.Bin? ==> CanExtend(k, e.op) && EndsChain(e.op, rest)
    ensures Run(lookup, k, Body(e) + rest) == Run(lookup, Push(k, Ex(LeftAssociated(Reread(e, lookup)))), rest)
    decreases e, 0
  {
    match e
    case Sym(_) => SymbolParses(lookup, k, e.sym, rest);
    case Cmp(_, _, _) => ComparisonParses(lookup, k, e, rest);
    case Not(a) =>
      assert Body(e) + rest == [NotTok] + (Print(a, ENot) + rest);
      Shift(lookup, k, NotTok, Print(a, ENot) + rest);
      PrintParses(lookup, Push(k, Tok(NotTok)), a, ENot, rest);
    case Bin(op, l, r) =>
      var tail := Print(r, OpType(op)) + rest;
      assert Body(e) + rest == Print(l, OpType(op)) + ([OpTok(op)] + tail);
      PrintParses(lookup, k, l, OpType(op), [OpTok(op)] + tail);
      var acc := LeftAssociated(Reread(l, lookup));
      Shift(lookup, Push(k, Ex(acc)), OpTok(op), tail);
      OperandParses(lookup, k, op, acc, r, rest);
  }

  lemma {:induction false} PrintParses(lookup: string -> Symbol, k: Stack, e: Expr, prev: ExprType, rest: seq<Token>)
    requires prev in {ENone, EOr, EAnd, ENot}
    requires Ready(k) && NoRelation(rest)
    requires e.Bin? && !NeedsParens(prev, e) ==> CanExtend(k, e.op) && EndsChain(e.op, rest)
    ensures Run(lookup, k, Print(e, prev) + rest) == Run(lookup, Push(k, Ex(LeftAssociated(Reread(e, lookup)))), rest)
    decreases e, 1
  {
    if NeedsParens(prev, e) {
      assert Print(e, prev) + rest == [Open] + (Body(e) + ([Close] + rest));
      Shift(lookup, k, Open, Body(e) + ([Close] + rest));
      var inner := Push(k, Tok(Open));
      BodyParses(lookup, inner, e, [Close] + rest);
      var done := Push(inner, Ex(LeftAssociated(Reread(e, lookup))));
      Shift(lookup, done, Close, rest);
    } else {
      BodyParses(lookup, k, e, rest);
    }
  }

  /** With a finished left operand and op on the stack, the printed right operand
      is appended to the chain. */
  lemma {:induction false} OperandParses(lookup: string -> Symbol, k: Stack, op: Op, acc: Expr, e: Expr,
                                         rest: seq<Token>)
    requires Ready(k) && CanExtend(k, op) && EndsChain(op, rest)
    ensures Run(lookup, Push(Push(k, Ex(acc)), Tok(OpTok(op))), Print(e, OpType(op)) + rest)
            == Run(lookup, Push(k, Ex(Graft(op, acc, Reread(e, lookup)))), rest)
    decreases e, 2
  {
    var k1 := Push(Push(k, Ex(acc)), Tok(OpTok(op)));
    if IsBin(e, op) {
      var tail := Print(e.right, OpType(op)) + rest;
      assert Print(e, OpType(op)) + rest == Print(e.left, OpType(op)) + ([OpTok(op)] + tail);
      OperandParses(lookup, k, op, acc, e.left, [OpTok(op)] + tail);
      var acc' := Graft(op, acc, Reread(e.left, lookup));
      Shift(lookup, Push(k, Ex(acc')), OpTok(op), tail);
      OperandParses(lookup, k, op, acc', e.right, rest);
    } else {
      PrintParses(lookup, k1, e, OpType(op), rest);
    }
  }

  /** Printing and parsing back gives the reread expression with its && and ||
      chains associated to the left. */
  lemma PrintThenParse(lookup: string -> Symbol, e: Expr)
    ensures Parse(lookup, Print(e, ENone)) == Some(LeftAssociated(Reread(e, lookup)))
  {
    assert Print(e, ENone) + [] == Print(e, ENone);
    PrintParses(lookup, Bottom, e, ENone, []);
  }

  // ----- When the result is the original -----

  predicate HasNoQuotes(e: Expr) {
    match e
    case Sym(s) => !s.Quoted?
    case Not(a) => HasNoQuotes(a)
    case Cmp(_, l, r) => !l.Quoted? && !r.Quoted?
    case Bin(_, l, r) => HasNoQuotes(l) && HasNoQuotes(r)
  }

  /** The symbol table of e: each unquoted symbol is found under its name, and
      an unquoted word never yields a quoted constant. */
  ghost predicate TableOf(lookup: string -> Symbol, e: Expr) {
    && (forall n: string :: !lookup(n).Quoted?)
    && match e
       case Sym(s) => !s.Quoted? ==> lookup(s.Name()) == s
       case Not(a) => TableOf(lookup, a)
       case Cmp(_, l, r) => (!l.Quoted? ==> lookup(l.Name()) == l) && (!r.Quoted? ==> lookup(r.Name()) == r)
       case Bin(_, l, r) => TableOf(lookup, l) && TableOf(lookup, r)
  }

  lemma {:induction false} RereadIdentity(lookup: string -> Symbol, e: Expr)
    requires TableOf(lookup, e)
    ensures Reread(e, lookup) == e <==> HasNoQuotes(e)
    ensures HasNoQuotes(Reread(e, lookup))
  {
    match e
    case Sym(_) =>
    case Not(a) => RereadIdentity(lookup, a);
    case Cmp(_, _, _) =>
    case Bin(_, l, r) =>
      RereadIdentity(lookup, l);
      RereadIdentity(lookup, r);
  }

  /** The environment in which every symbol is read as the one found under its name. */
  function ByName(lookup: string -> Symbol, env: Env): Env {
    Env((s: Symbol) => env.tri(lookup(s.Name())), (l: Symbol, r: Symbol) => env.cmp(lookup(l.Name()), lookup(r.Name())))
  }

  lemma {:induction false} RereadValue(lookup: string -> Symbol, e: Expr, env: Env)
    ensures Value(Reread(e, lookup), env) == Value(e, ByName(lookup, env))
  {
    match e
    case Sym(_) =>
    case Not(a) => RereadValue(lookup, a, env);
    case Cmp(_, _, _) =>
    case Bin(_, l, r) =>
      RereadValue(lookup, l, env);
      RereadValue(lookup, r, env);
  }

  /** The round trip keeps the value in every environment, with each symbol read
      as the one found under its name, and so the very value of an expression
      without quoted constants. It returns the identical tree exactly when,
      moreover, the chains are left-nested. */
  lemma RoundTrip(lookup: string -> Symbol, e: Expr)
    requires TableOf(lookup, e)
    ensures var p := Parse(lookup, Print(e, ENone));
            && p.Some?
            && (forall env :: Value(p.value, env) == Value(e, ByName(lookup, env)))
            && (HasNoQuotes(e) ==> forall env :: Value(p.value, env) == Value(e, env))
            && (p.value == e <==> HasNoQuotes(e) && IsLeftNested(e))
  {
    PrintThenParse(lookup, e);
    RereadIdentity(lookup, e);
    var r := Reread(e, lookup);
    LeftAssociatedIdentity(r);
    LeftAssociatedQuotes(r);
    forall env ensures Value(LeftAssociated(r), env) == Value(e, ByName(lookup, env)) {
      LeftAssociatedValue(r, env);
      RereadValue(lookup, e, env);
    }
    forall env | HasNoQuotes(e) ensures Value(LeftAssociated(r), env) == Value(e, env) {
      LeftAssociatedValue(e, env);
    }
  }

  // ----- Quoted constants -----

  /** The round trip keeps the value that e has once symbols are calculated. */
  ghost predicate KeepsValue(lookup: string -> Symbol, e: Expr, tri: Symbol -> Tri, str: Symbol -> string) {
    var p := Parse(lookup, Print(e, ENone));
    p.Some? && Value(p.value, Environment(tri, str)) == Value(e, Environment(tri, str))
  }

  /** No quoted constant of e has the name of a defined symbol. */
  predicate QuotesUndefined(lookup: string -> Symbol, e: Expr) {
    match e
    case Sym(s) => QuoteUndefined(lookup, s)
    case Not(a) => QuotesUndefined(lookup, a)
    case Cmp(_, l, r) => QuoteUndefined(lookup, l) && QuoteUndefined(lookup, r)
    case Bin(_, l, r) => QuotesUndefined(lookup, l) && QuotesUndefined(lookup, r)
  }

  predicate QuoteUndefined(lookup: string -> Symbol, s: Symbol) {
    s.Quoted? ==> lookup(s.text) == Config(s.text, Unknown)
  }

  lemma {:induction false} UndefinedKeepValue(lookup: string -> Symbol, e: Expr, tri: Symbol -> Tri,
                                              str: Symbol -> string)
    requires TableOf(lookup, e) && QuotesUndefined(lookup, e) && Calculated(tri, str)
    ensures Value(e, ByName(lookup, Environment(tri, str))) == Value(e, Environment(tri, str))
  {
    match e
    case Sym(_) =>
    case Not(a) => UndefinedKeepValue(lookup, a, tri, str);
    case Cmp(_, _, _) =>
    case Bin(_, l, r) =>
      UndefinedKeepValue(lookup, l, tri, str);
      UndefinedKeepValue(lookup, r, tri, str);
  }

  /** Quoted constants do no harm as long as no symbol of the same name is defined. */
  lemma RoundTripKeepsValue(lookup: string -> Symbol, e: Expr, tri: Symbol -> Tri, str: Symbol -> string)
    requires TableOf(lookup, e) && QuotesUndefined(lookup, e) && Calculated(tri, str)
    ensures KeepsValue(lookup, e, tri, str)
  {
    RoundTrip(lookup, e);
    UndefinedKeepValue(lookup, e, tri, str);
  }

  ghost predicate AlwaysKeepsValue(lookup: string -> Symbol, e: Expr) {
    forall tri: Symbol -> Tri, str: Symbol -> string :: Calculated(tri, str) ==> KeepsValue(lookup, e, tri, str)
  }

  // The values 0 and 2, as each type writes them, for the symbols outside and inside a set.

  function LevelTri(high: set<Symbol>, s: Symbol): Tri {
    if s == SymYes then 2 else if s == SymMod then 1 else if s.IsLogic() && s in high then 2 else 0
  }

  function LevelText(ty: SymbolType, high: bool): string {
    if ty == Boolean || ty == Tristate then Letter(if high then 2 else 0) else if high then "2" else "0"
  }

  function LevelStr(high: set<Symbol>, s: Symbol): string {
    if s.Type() == Unknown then s.Name() else LevelText(s.Type(), s in high)
  }

  lemma LevelsAreCalculated(high: set<Symbol>)
    ensures Calculated((s: Symbol) => LevelTri(high, s), (s: Symbol) => LevelStr(high, s))
  {
  }

  /** An operand: the value is kept in all calculated environments exactly when
      its name is not that of y, m, or a bool or tristate symbol. */
  lemma QuotedOperandExact(lookup: string -> Symbol, t: string)
    requires !lookup(t).Quoted?
    ensures AlwaysKeepsValue(lookup, Sym(Quoted(t)))
            <==> lookup(t) != SymYes && lookup(t) != SymMod && !lookup(t).IsLogic()
  {
    var (e, x) := (Sym(Quoted(t)), lookup(t));
    PrintThenParse(lookup, e);
    assert LeftAssociated(Reread(e, lookup)) == Sym(x);
    if x == SymYes || x == SymMod || x.IsLogic() {
      var tri: Symbol -> Tri := (s: Symbol) => LevelTri({x}, s);
      var str: Symbol -> string := (s: Symbol) => LevelStr({x}, s);
      LevelsAreCalculated({x});
      assert Value(e, Environment(tri, str)) == 0 != Value(Sym(x), Environment(tri, str));
      assert !KeepsValue(lookup, e, tri, str);
    }
  }

  /** A failing input: the quoted operand "FOO" is n, but is read back as the
      symbol FOO, which may be y. */
  lemma QuotedOperandFails(lookup: string -> Symbol)
    requires lookup("FOO") == Config("FOO", Boolean)
    ensures !AlwaysKeepsValue(lookup, Sym(Quoted("FOO")))
  {
    QuotedOperandExact(lookup, "FOO");
  }

  lemma LevelsParse(ty: SymbolType, high: bool)
    requires ty != Unknown
    ensures ParseString(LevelText(ty, high), ty)
         == if ty == Hex then UnsignedVal(if high then 2 else 0) else Signed(if high then 2 else 0)
  {
    assert Digits("0", 8, 0) == Digits("", 8, 0) && Digits("0", 10, 0) == Digits("", 10, 0);
    assert Digits("0", 16, 0) == Digits("", 16, 0);
    assert Digits("2", 10, 0) == Digits("", 10, 2) && Digits("2", 16, 0) == Digits("", 16, 2);
  }

  lemma LevelsCompare(lt: SymbolType, a: bool, rt: SymbolType, b: bool)
    requires lt != Unknown && rt != Unknown
    ensures var c := CompareStrings(lt, LevelText(lt, a), rt, LevelText(rt, b));
            (c == 0 <==> a == b) && (c < 0 <==> !a && b)
  {
    if lt == String && rt == String {
      assert StrCmp("0", "0") == StrCmp("", "") && StrCmp("2", "2") == StrCmp("", "");
    } else {
      LevelsParse(lt, a);
      LevelsParse(rt, b);
    }
  }

  /** The values of a comparison with the quoted text t and of the one read back,
      where the symbols in high have the value 2 and the others 0. */
  lemma ComparisonReadBack(lookup: string -> Symbol, rel: Rel, l: Symbol, t: string, high: set<Symbol>)
    requires l.Type() != Unknown && lookup(l.Name()) == l && lookup(t).Type() != Unknown
    requires AlwaysKeepsValue(lookup, Cmp(rel, l, Quoted(t)))
    ensures Holds(rel, CompareStrings(l.Type(), LevelText(l.Type(), l in high), Unknown, t))
            <==> Holds(rel, if (l in high) == (lookup(t) in high) then 0 else if l in high then 1 else -1)
  {
    var (e, x) := (Cmp(rel, l, Quoted(t)), lookup(t));
    var tri: Symbol -> Tri := (s: Symbol) => LevelTri(high, s);
    var str: Symbol -> string := (s: Symbol) => LevelStr(high, s);
    PrintThenParse(lookup, e);
    assert LeftAssociated(Reread(e, lookup)) == Cmp(rel, l, x);
    LevelsAreCalculated(high);
    assert KeepsValue(lookup, e, tri, str);
    LevelsCompare(l.Type(), l in high, x.Type(), x in high);
    var c := Environment(tri, str).cmp(l, x);
    assert c == CompareStrings(l.Type(), LevelText(l.Type(), l in high), x.Type(), LevelText(x.Type(), x in high));
    assert Environment(tri, str).cmp(l, Quoted(t)) ==
           CompareStrings(l.Type(), LevelText(l.Type(), l in high), Unknown, t);
  }

  /** No text equals both 0 and 2. */
  lemma NotBothLevels(ty: SymbolType, t: string)
    requires ty != Unknown
    ensures !(CompareStrings(ty, LevelText(ty, false), Unknown, t) == 0
            && CompareStrings(ty, LevelText(ty, true), Unknown, t) == 0)
  {
    LevelsParse(ty, false);
    LevelsParse(ty, true);
    StrCmpZero(LevelText(ty, false), t);
    StrCmpZero(LevelText(ty, true), t);
  }

  /** A comparison of a symbol with a quoted constant: the value is kept in all
      calculated environments exactly when the name found is that of a symbol
      without a type. (An order comparison is excepted only where the name is
      that of the symbol on the left.) */
  lemma QuotedComparisonExact(lookup: string -> Symbol, rel: Rel, l: Symbol, t: string)
    requires l.Type() != Unknown && lookup(l.Name()) == l && lookup(t).Name() == t && !lookup(t).Quoted?
    requires rel == Eq || rel == Ne || lookup(t) != l
    ensures AlwaysKeepsValue(lookup, Cmp(rel, l, Quoted(t))) <==> lookup(t).Type() == Unknown
  {
    var (e, x) := (Cmp(rel, l, Quoted(t)), lookup(t));
    PrintThenParse(lookup, e);
    assert LeftAssociated(Reread(e, lookup)) == Cmp(rel, l, x);
    if x.Type() != Unknown && AlwaysKeepsValue(lookup, e) {
      ComparisonReadBack(lookup, rel, l, t, {});
      ComparisonReadBack(lookup, rel, l, t, {x});
      ComparisonReadBack(lookup, rel, l, t, {l});
      ComparisonReadBack(lookup, rel, l, t, {l, x});
      NotBothLevels(l.Type(), t);
      assert false;
    }
  }

  lemma {:induction false} LeftAssociatedQuotes(e: Expr)
    ensures HasNoQuotes(LeftAssociated(e)) <==> HasNoQuotes(e)
    decreases e, 0
  {
    if e.Not? {
      LeftAssociatedQuotes(e.arg);
    } else if e.Bin? {
      LeftAssociatedQuotes(e.left);
      GraftQuotes(e.op, LeftAssociated(e.left), e.right);
    }
  }

  lemma {:induction false} GraftQuotes(op: Op, acc: Expr, e: Expr)
    ensures HasNoQuotes(Graft(op, acc, e)) <==> HasNoQuotes(acc) && HasNoQuotes(e)
    decreases e, 1
  {
    if IsBin(e, op) {
      GraftQuotes(op, acc, e.left);
      GraftQuotes(op, Graft(op, acc, e.left), e.right);
    } else {
      LeftAssociatedQuotes(e);
    }
  }
}
