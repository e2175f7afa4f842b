// Expressions of the Kconfig language, the symbols they mention, and their
// three-valued meaning (tools/kconfig/expr.h, tools/kconfig/expr.c).
module KconfigExpr {

  datatype Option<+T> = None | Some(value: T)

  // ----- Tristate values -----

  /** 0 is n, 1 is m, 2 is y. */
  type Tri = x: int | 0 <= x <= 2

  function TriMin(a: Tri, b: Tri): Tri { if a < b then a else b }
  function TriMax(a: Tri, b: Tri): Tri { if a > b then a else b }

  // ----- Symbols and expressions -----

  datatype SymbolType = Unknown | Boolean | Tristate | Int | Hex | String

  /** Symbols are compared by identity. The three distinguished constants and
      every quoted constant have type Unknown. */
  datatype Symbol = SymYes | SymMod | SymNo | Quoted(text: string) | Config(name: string, ty: SymbolType)
  {
    function Type(): SymbolType { if Config? then ty else Unknown }

    /** The SYMBOL_CONST flag. */
    predicate IsConst() { !Config? }

    predicate IsTristateConst() { SymYes? || SymMod? || SymNo? }

    function Name(): string {
      match this
      case SymYes => "y"
      case SymMod => "m"
      case SymNo => "n"
      case Quoted(t) => t
      case Config(n, _) => n
    }

    predicate IsLogic() { Type() == Boolean || Type() == Tristate }
  }

  datatype Rel = Eq | Ne | Lt | Le | Gt | Ge
  datatype Op = Or | And

  datatype Expr =
    | Sym(sym: Symbol)
    | Not(arg: Expr)
    | Cmp(rel: Rel, lhs: Symbol, rhs: Symbol)
    | Bin(op: Op, left: Expr, right: Expr)

  predicate IsBin(e: Expr, op: Op) { e.Bin? && e.op == op }

  /** The constant that leaves the other operand unchanged. */
  function Unit(op: Op): Expr { if op == Or then Sym(SymNo) else Sym(SymYes) }

  /** The constant that decides the result alone. */
  function Zero(op: Op): Expr { if op == Or then Sym(SymYes) else Sym(SymNo) }

  function Dual(op: Op): Op { if op == Or then And else Or }

  function Size(e: Expr): nat {
    match e
    case Sym(_) => 1
    case Not(a) => 1 + Size(a)
    case Cmp(_, _, _) => 1
    case Bin(_, l, r) => 1 + Size(l) + Size(r)
  }

  // ----- Meaning -----

  /** tri gives each symbol its tristate value; cmp(s, t) is the integer the
      string or number comparison of the two symbols yields. */
  datatype Env = Env(tri: Symbol -> Tri, cmp: (Symbol, Symbol) -> int)

  function Combine(op: Op, a: Tri, b: Tri): Tri {
    if op == Or then TriMax(a, b) else TriMin(a, b)
  }

  predicate Holds(rel: Rel, c: int) {
    match rel
    case Eq => c == 0
    case Ne => c != 0
    case Lt => c < 0
    case Le => c <= 0
    case Gt => c > 0
    case Ge => c >= 0
  }

  function Value(e: Expr, env: Env): Tri {
    match e
    case Sym(s) => env.tri(s)
    case Not(a) => 2 - Value(a, env)
    case Cmp(rel, l, r) => if Holds(rel, env.cmp(l, r)) then 2 else 0
    case Bin(op, l, r) => Combine(op, Value(l, env), Value(r, env))
  }

  /** A missing expression means y. */
  function ValueOpt(e: Option<Expr>, env: Env): Tri {
    if e.None? then 2 else Value(e.value, env)
  }

  /** What a well-typed configuration guarantees: the constants y, m, n have
      their own value and differ from each other, a bool is never m, and a bool
      or tristate symbol equals a constant exactly when the constant denotes the
      symbol's value. */
  ghost predicate WellTyped(env: Env) {
    && env.tri(SymYes) == 2 && env.tri(SymMod) == 1 && env.tri(SymNo) == 0
    && (forall s: Symbol :: s.Type() == Boolean ==> env.tri(s) != 1)
    && (forall s: Symbol, c: Symbol :: s.IsLogic() && c.IsConst() ==>
          (env.cmp(s, c) == 0 <==> Denotes(c.Name()) == env.tri(s)))
    && (forall b: Symbol, c: Symbol :: b.IsTristateConst() && c.IsTristateConst() ==> (env.cmp(b, c) == 0 <==> b == c))
  }

  ghost predicate Equivalent(a: Expr, b: Expr) {
    forall env :: WellTyped(env) ==> Value(a, env) == Value(b, env)
  }

  // ----- Comparison of two symbols -----

  const LIMIT_63: int := 0x8000_0000_0000_0000
  const LIMIT_64: int := 0x1_0000_0000_0000_0000

  function DigitValue(c: char): int {
    if '0' <= c <= '9' then c as int - '0' as int
    else if 'a' <= c <= 'f' then c as int - 'a' as int + 10
    else if 'A' <= c <= 'F' then c as int - 'A' as int + 10
    else 99
  }

  predicate IsSpace(c: char) { c == ' ' || 9 as char <= c <= 13 as char }

  /** All of s read as digits of the given base. */
  function Digits(s: string, base: nat, acc: nat): Option<nat> {
    if s == [] then Some(acc)
    else if DigitValue(s[0]) < base then Digits(s[1..], base, acc * base + DigitValue(s[0]))
    else None
  }

  function Unsigned(s: string, base: nat): (r: Option<int>) {
    var hexPrefix := |s| > 2 && s[0] == '0' && (s[1] == 'x' || s[1] == 'X') && DigitValue(s[2]) < 16;
    if s == [] then None
    else if (base == 0 || base == 16) && hexPrefix then Digits(s[2..], 16, 0)
    else if base == 0 then Digits(s, if s[0] == '0' then 8 else 10, 0)
    else Digits(s, base, 0)
  }

  /** The number strtoll/strtoull read when they consume the whole string. */
  function Number(s: string, base: nat): Option<int> {
    if s == [] then None
    else if IsSpace(s[0]) then Number(s[1..], base)
    else if s[0] == '-' then
      var u := Unsigned(s[1..], base);
      if u.Some? then Some(-u.value) else None
    else Unsigned(if s[0] == '+' then s[1..] else s, base)
  }

  datatype Parsed = Text | Signed(s: int) | UnsignedVal(u: int)

  /** expr_parse_string; a number outside 64 bits counts as text. */
  function ParseString(str: string, ty: SymbolType): Parsed {
    if ty == Boolean || ty == Tristate then Signed(LetterValue(str))
    else if ty == Hex then
      var n := Number(str, 16);
      if n.Some? && -LIMIT_64 < n.value < LIMIT_64 then UnsignedVal(n.value % LIMIT_64) else Text
    else
      var n := Number(str, if ty == Int then 10 else 0);
      if n.Some? && -LIMIT_63 <= n.value < LIMIT_63 then Signed(n.value) else Text
  }

  function LetterValue(str: string): int {
    if str == "n" then 0 else if str == "m" then 1 else if str == "y" then 2 else -1
  }

  function StrCmp(a: string, b: string): int {
    if a == [] || b == [] then |a| - |b|
    else if a[0] != b[0] then a[0] as int - b[0] as int
    else StrCmp(a[1..], b[1..])
  }

  function Sign(d: int): int { if d > 0 then 1 else if d < 0 then -1 else 0 }

  function Word(p: Parsed): int
    requires !p.Text?
  {
    if p.Signed? then p.s % LIMIT_64 else p.u
  }

  /** The comparison inside expr_calc_value. */
  function CompareStrings(lt: SymbolType, ls: string, rt: SymbolType, rs: string): int {
    var k1 := if lt == String && rt == String then Text else ParseString(ls, lt);
    var k2 := if lt == String && rt == String then Text else ParseString(rs, rt);
    if k1.Text? || k2.Text? then StrCmp(ls, rs)
    else if k1.UnsignedVal? || k2.UnsignedVal? then Sign(Word(k1) - Word(k2))
    else Sign(k1.s - k2.s)
  }

  /** The tristate value a constant's text stands for when compared with a bool
      or tristate symbol, or -1: numbers are compared with the value's rank. */
  function Denotes(text: string): int {
    var n := ParseString(text, Unknown);
    if n.Signed? then (if 0 <= n.s <= 2 then n.s else -1) else LetterValue(text)
  }

  lemma {:induction false} StrCmpZero(a: string, b: string)
    ensures StrCmp(a, b) == 0 <==> a == b
  {
    if a == [] || b == [] {
    } else if a[0] == b[0] {
      StrCmpZero(a[1..], b[1..]);
      assert a == [a[0]] + a[1..] && b == [b[0]] + b[1..];
    }
  }

  function Letter(v: Tri): string { if v == 0 then "n" else if v == 1 then "m" else "y" }

  lemma LettersAreText()
    ensures ParseString("y", Unknown).Text? && ParseString("m", Unknown).Text? && ParseString("n", Unknown).Text?
    ensures Denotes("y") == 2 && Denotes("m") == 1 && Denotes("n") == 0
  {
    assert Digits("y", 10, 0) == None && Digits("m", 10, 0) == None && Digits("n", 10, 0) == None;
  }

  /** A symbol of type bool or tristate whose string is its letter equals a
      constant exactly when the constant denotes the symbol's value. */
  lemma CompareLogicWithConst(ty: SymbolType, v: Tri, text: string)
    requires ty == Boolean || ty == Tristate
    ensures CompareStrings(ty, Letter(v), Unknown, text) == 0 <==> Denotes(text) == v
  {
    StrCmpZero(Letter(v), text);
    LettersAreText();
  }

  /** The environment the C code computes from each symbol's value and string. */
  function Environment(tri: Symbol -> Tri, str: Symbol -> string): Env {
    Env(tri, (l: Symbol, r: Symbol) => CompareStrings(l.Type(), str(l), r.Type(), str(r)))
  }

  /** The values and strings symbols have once they are calculated: constants and
      symbols of unknown type are n and stand for their name, bool and tristate
      symbols for their letter; a symbol of another type is n, whatever its text. */
  ghost predicate Calculated(tri: Symbol -> Tri, str: Symbol -> string) {
    && tri(SymYes) == 2 && tri(SymMod) == 1 && tri(SymNo) == 0
    && (forall s: Symbol :: s.Type() == Boolean ==> tri(s) != 1)
    && (forall s: Symbol :: !s.IsLogic() && !s.IsTristateConst() ==> tri(s) == 0)
    && (forall s: Symbol :: s.IsLogic() ==> str(s) == Letter(tri(s)))
    && (forall s: Symbol :: s.Type() == Unknown ==> str(s) == s.Name())
  }

  /** The comparison the code performs satisfies the typing rules the rewriting
      theorems rely on. */
  lemma EnvironmentIsWellTyped(tri: Symbol -> Tri, str: Symbol -> string)
    requires tri(SymYes) == 2 && tri(SymMod) == 1 && tri(SymNo) == 0
    requires forall s: Symbol :: s.Type() == Boolean ==> tri(s) != 1
    requires forall s: Symbol :: s.IsLogic() ==> str(s) == Letter(tri(s))
    requires forall c: Symbol :: c.IsConst() ==> str(c) == c.Name()
    ensures WellTyped(Environment(tri, str))
  {
    var env := Environment(tri, str);
    forall s: Symbol, c: Symbol | s.IsLogic() && c.IsConst()
      ensures env.cmp(s, c) == 0 <==> Denotes(c.Name()) == env.tri(s)
    {
      CompareLogicWithConst(s.Type(), tri(s), c.Name());
    }
    forall b: Symbol, c: Symbol | b.IsTristateConst() && c.IsTristateConst()
      ensures env.cmp(b, c) == 0 <==> b == c
    {
      LettersAreText();
      StrCmpZero(b.Name(), c.Name());
    }
  }

  // ----- Constants that alias a tristate value -----

  predicate IsEquality(e: Expr) { e.Cmp? && (e.rel == Eq || e.rel == Ne) }

  /** A tristate symbol compared with a constant by = or !=. */
  predicate IsTest(e: Expr) { IsEquality(e) && e.lhs.Type() == Tristate && e.rhs.IsConst() }

  /** Different constants that stand for the same tristate value. */
  predicate Alias(b: Symbol, c: Symbol) {
    b.IsConst() && c.IsConst() && b != c && Denotes(b.Name()) == Denotes(c.Name()) != -1
  }

  /** One symbol tested for equality with one constant and for inequality with
      another that stands for the same value. */
  predicate AliasPair(e1: Expr, e2: Expr) {
    IsTest(e1) && IsTest(e2) && e1.lhs == e2.lhs && e1.rel != e2.rel && Alias(e1.rhs, e2.rhs)
  }

  /** A test, or a tristate symbol itself. */
  predicate IsAtom(e: Expr) { IsTest(e) || (e.Sym? && e.sym.Type() == Tristate) }

  /** The atoms among the operands of e, at any depth outside negations. */
  function Atoms(e: Expr): set<Expr> {
    match e
    case Bin(_, l, r) => Atoms(l) + Atoms(r)
    case Not(_) => {}
    case _ => if IsAtom(e) then {e} else {}
  }

  /** All atoms of e belong to t. */
  ghost predicate Within(e: Expr, t: iset<Expr>) { forall x :: x in Atoms(e) ==> x in t }

  /** Where two tests of t are an alias pair, the symbol does not have the value
      that both constants stand for. */
  ghost predicate TellsApart(env: Env, t: iset<Expr>) {
    forall a, b :: a in t && b in t && AliasPair(a, b) ==> env.tri(a.lhs) != Denotes(a.rhs.Name())
  }

  ghost predicate HasAliasPair(t: iset<Expr>) { exists a, b :: a in t && b in t && AliasPair(a, b) }
}
