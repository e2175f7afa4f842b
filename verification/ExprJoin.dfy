// Joining two operands of || or && into one
// (tools/kconfig/expr.c: expr_join_or, expr_join_and).
module ExprJoin {
  import opened KconfigExpr
  import opened ExprEquality

  predicate IsEqual(e: Expr) { e.Cmp? && e.rel == Eq }
  predicate IsUnequal(e: Expr) { e.Cmp? && e.rel == Ne }

  function Subject(e: Expr): Symbol
    requires e.Cmp? || e.Sym?
  {
    if e.Cmp? then e.lhs else e.sym
  }

  /** The bool or tristate symbol both operands are about, if there is one.
      Only the first operand may be a negated comparison. */
  function CommonSubject(e1: Expr, e2: Expr): Option<Symbol> {
    if !(IsEquality(e1) || e1.Sym? || (e1.Not? && (IsEquality(e1.arg) || e1.arg.Sym?))) then None
    else if !(IsEquality(e2) || e2.Sym? || (e2.Not? && e2.arg.Sym?)) then None
    else
      var s1 := Subject(if e1.Not? then e1.arg else e1);
      var s2 := Subject(if e2.Not? then e2.arg else e2);
      if s1 == s2 && s1.IsLogic() then Some(s1) else None
  }

  predicate RightSides(e1: Expr, e2: Expr, a: Symbol, b: Symbol)
    requires e1.Cmp? && e2.Cmp?
  {
    (e1.rhs == a && e2.rhs == b) || (e1.rhs == b && e2.rhs == a)
  }

  function JoinOr(e1: Expr, e2: Expr): Option<Expr> {
    if ExprEq(e1, e2) then Some(e1)
    else
      var subject := CommonSubject(e1, e2);
      if subject.None? then None
      else
        var s := subject.value;
        if s.Type() == Tristate && IsEqual(e1) && IsEqual(e2) then
          if RightSides(e1, e2, SymYes, SymMod) then Some(Cmp(Ne, s, SymNo))
          else if RightSides(e1, e2, SymYes, SymNo) then Some(Cmp(Ne, s, SymMod))
          else if RightSides(e1, e2, SymMod, SymNo) then Some(Cmp(Ne, s, SymYes))
          else None
        else if s.Type() == Boolean && ((e1.Not? && e1.arg.Sym? && e2.Sym?) || (e2.Not? && e2.arg.Sym? && e1.Sym?)) then
          Some(Sym(SymYes))
        else None
  }

  /** A symbol next to a comparison of it, in either order. */
  predicate SymbolAnd(e1: Expr, e2: Expr, rel: Rel, c: Symbol) {
    (e1.Sym? && e2.Cmp? && e2.rel == rel && e2.rhs == c) || (e2.Sym? && e1.Cmp? && e1.rel == rel && e1.rhs == c)
  }

  /** (a = b) && (a != c) for constants b and c. */
  function JoinEqualUnequal(s: Symbol, b: Symbol, c: Symbol): Expr {
    if b != c then Cmp(Eq, s, b) else Sym(SymNo)
  }

  function JoinAnd(e1: Expr, e2: Expr): Option<Expr> {
    if ExprEq(e1, e2) then Some(e1)
    else
      var subject := CommonSubject(e1, e2);
      if subject.None? then None
      else
        var s := subject.value;
        if SymbolAnd(e1, e2, Eq, SymYes) then Some(Cmp(Eq, s, SymYes))
        else if SymbolAnd(e1, e2, Ne, SymNo) then Some(Sym(s))
        else if SymbolAnd(e1, e2, Ne, SymMod) then Some(Cmp(Eq, s, SymYes))
        else if s.Type() != Tristate then None
        else if IsEqual(e1) && IsUnequal(e2) && e2.rhs.IsConst() && e1.rhs.IsConst() then
          Some(JoinEqualUnequal(s, e1.rhs, e2.rhs))
        else if IsUnequal(e1) && IsEqual(e2) && e1.rhs.IsConst() && e2.rhs.IsConst() then
          Some(JoinEqualUnequal(s, e2.rhs, e1.rhs))
        else if IsUnequal(e1) && IsUnequal(e2) then
          if RightSides(e1, e2, SymYes, SymNo) then Some(Cmp(Eq, s, SymMod))
          else if RightSides(e1, e2, SymYes, SymMod) then Some(Cmp(Eq, s, SymNo))
          else if RightSides(e1, e2, SymMod, SymNo) then Some(Cmp(Eq, s, SymYes))
          else None
        else None
  }

  function Join(op: Op, e1: Expr, e2: Expr): Option<Expr> {
    if op == Or then JoinOr(e1, e2) else JoinAnd(e1, e2)
  }

  // ----- Which pairs join -----

  /** Two operands of ||, other than equal ones, that say more together. */
  predicate OrPair(e1: Expr, e2: Expr, s: Symbol, c: Symbol, d: Symbol) {
    || (s.Type() == Boolean && e1 == Sym(s) && e2 == Not(Sym(s)))
    || (s.Type() == Tristate && e1 == Cmp(Eq, s, c) && e2 == Cmp(Eq, s, d) && c != d
        && c.IsTristateConst() && d.IsTristateConst())
  }

  /** The same for &&: a symbol that is not n, and is y, not n or not m; a symbol
      that equals one constant and differs from another; one that has two of the
      three values not. */
  predicate AndPair(e1: Expr, e2: Expr, s: Symbol, c: Symbol, d: Symbol) {
    || (s.IsLogic() && e1 == Sym(s) && e2 in {Cmp(Eq, s, SymYes), Cmp(Ne, s, SymNo), Cmp(Ne, s, SymMod)})
    || (s.Type() == Tristate && e1 == Cmp(Eq, s, c) && e2 == Cmp(Ne, s, d) && c.IsConst() && d.IsConst())
    || (s.Type() == Tristate && e1 == Cmp(Ne, s, c) && e2 == Cmp(Ne, s, d) && c != d
        && c.IsTristateConst() && d.IsTristateConst())
  }

  /** The constant among y, m and n that is neither of two. */
  function Third(c: Symbol, d: Symbol): (r: Symbol)
    ensures c.IsTristateConst() && d.IsTristateConst() && c != d ==> r.IsTristateConst() && r != c && r != d
  {
    if SymYes != c && SymYes != d then SymYes else if SymMod != c && SymMod != d then SymMod else SymNo
  }

  /** What such operands of || join into, in either order. */
  lemma OrPairJoins(e1: Expr, e2: Expr, s: Symbol, c: Symbol, d: Symbol)
    requires OrPair(e1, e2, s, c, d)
    ensures var r := if s.Type() == Boolean then Sym(SymYes) else Cmp(Ne, s, Third(c, d));
            JoinOr(e1, e2) == Some(r) && JoinOr(e2, e1) == Some(r)
  {
  }

  lemma AndPairJoins(e1: Expr, e2: Expr, s: Symbol, c: Symbol, d: Symbol)
    requires AndPair(e1, e2, s, c, d)
    ensures var r := if e1.Sym? then if e2.rhs == SymNo then Sym(s) else Cmp(Eq, s, SymYes)
                     else if e1.rel == Ne then Cmp(Eq, s, Third(c, d))
                     else if c == d then Sym(SymNo) else Cmp(Eq, s, c);
            JoinAnd(e1, e2) == Some(r) && JoinAnd(e2, e1) == Some(r)
  {
  }

  ghost predicate SomeOrPair(e1: Expr, e2: Expr) { exists s, c, d :: OrPair(e1, e2, s, c, d) }
  ghost predicate SomeAndPair(e1: Expr, e2: Expr) { exists s, c, d :: AndPair(e1, e2, s, c, d) }

  /** Equal operands and these pairs join, and no others. */
  lemma JoinsExactly(e1: Expr, e2: Expr)
    ensures JoinOr(e1, e2).Some? <==> ExprEq(e1, e2) || SomeOrPair(e1, e2) || SomeOrPair(e2, e1)
    ensures JoinAnd(e1, e2).Some? <==> ExprEq(e1, e2) || SomeAndPair(e1, e2) || SomeAndPair(e2, e1)
    ensures ExprEq(e1, e2) ==> JoinOr(e1, e2) == JoinAnd(e1, e2) == Some(e1)
  {
    var c := if e1.Cmp? then e1.rhs else SymNo;
    var d := if e2.Cmp? then e2.rhs else SymNo;
    if !ExprEq(e1, e2) && JoinOr(e1, e2).Some? {
      var s := CommonSubject(e1, e2).value;
      assert OrPair(e1, e2, s, c, d) || OrPair(e2, e1, s, d, c);
    }
    if !ExprEq(e1, e2) && JoinAnd(e1, e2).Some? {
      var s := CommonSubject(e1, e2).value;
      assert AndPair(e1, e2, s, c, d) || AndPair(e2, e1, s, d, c);
    }
    PairsJoin(e1, e2);
    PairsJoin(e2, e1);
  }

  lemma PairsJoin(e1: Expr, e2: Expr)
    ensures SomeOrPair(e1, e2) ==> JoinOr(e1, e2).Some? && JoinOr(e2, e1).Some?
    ensures SomeAndPair(e1, e2) ==> JoinAnd(e1, e2).Some? && JoinAnd(e2, e1).Some?
  {
    if SomeOrPair(e1, e2) {
      var s, c, d :| OrPair(e1, e2, s, c, d);
      OrPairJoins(e1, e2, s, c, d);
    }
    if SomeAndPair(e1, e2) {
      var s, c, d :| AndPair(e1, e2, s, c, d);
      AndPairJoins(e1, e2, s, c, d);
    }
  }

  // ----- Negation only on symbols -----

  /** Every negation in e stands directly on a symbol. */
  predicate NegatesSymbols(e: Expr) {
    match e
    case Sym(_) => true
    case Cmp(_, _, _) => true
    case Not(a) => a.Sym?
    case Bin(_, l, r) => NegatesSymbols(l) && NegatesSymbols(r)
  }

  // ----- Soundness -----

  lemma ConstantsDenoteThemselves(env: Env, s: Symbol)
    requires WellTyped(env) && s.IsLogic()
    ensures env.cmp(s, SymYes) == 0 <==> env.tri(s) == 2
    ensures env.cmp(s, SymMod) == 0 <==> env.tri(s) == 1
    ensures env.cmp(s, SymNo) == 0 <==> env.tri(s) == 0
  {
    LettersAreText();
    assert SymYes.Name() == "y" && SymMod.Name() == "m" && SymNo.Name() == "n";
  }

  lemma JoinOrSound(e1: Expr, e2: Expr, env: Env)
    requires WellTyped(env) && JoinOr(e1, e2).Some?
    ensures Value(JoinOr(e1, e2).value, env) == TriMax(Value(e1, env), Value(e2, env))
  {
    if ExprEq(e1, e2) {
      ExprEqSound(e1, e2, env);
    } else {
      ConstantsDenoteThemselves(env, CommonSubject(e1, e2).value);
    }
  }

  /** A joined pair is never less than the conjunction, and differs from it
      exactly where an alias pair meets the value both its constants stand for. */
  lemma JoinAndAt(e1: Expr, e2: Expr, env: Env)
    requires WellTyped(env) && JoinAnd(e1, e2).Some?
    ensures var (v, w) := (TriMin(Value(e1, env), Value(e2, env)), Value(JoinAnd(e1, e2).value, env));
            && v <= w
            && (v == w <==> !(AliasPair(e1, e2) && env.tri(e1.lhs) == Denotes(e1.rhs.Name())))
  {
    if ExprEq(e1, e2) {
      ExprEqSound(e1, e2, env);
    } else {
      var s := CommonSubject(e1, e2).value;
      if !(IsTest(e1) && IsTest(e2) && e1.rel != e2.rel) {
        OthersJoin(e1, e2, s, env);
      } else {
        TestsJoin(s, if e1.rel == Eq then e1.rhs else e2.rhs, if e1.rel == Eq then e2.rhs else e1.rhs, env);
      }
    }
  }

  lemma OthersJoin(e1: Expr, e2: Expr, s: Symbol, env: Env)
    requires WellTyped(env) && JoinAnd(e1, e2).Some? && !ExprEq(e1, e2) && CommonSubject(e1, e2) == Some(s)
    requires !(IsTest(e1) && IsTest(e2) && e1.rel != e2.rel)
    ensures Value(JoinAnd(e1, e2).value, env) == TriMin(Value(e1, env), Value(e2, env))
  {
    ConstantsDenoteThemselves(env, s);
  }

  /** A symbol that equals b differs from c, except at the value of aliases. */
  lemma TestsJoin(s: Symbol, b: Symbol, c: Symbol, env: Env)
    requires WellTyped(env) && s.IsLogic() && b.IsConst() && c.IsConst()
    ensures var v := TriMin(Value(Cmp(Eq, s, b), env), Value(Cmp(Ne, s, c), env));
            var w := Value(JoinEqualUnequal(s, b, c), env);
            v <= w && (v == w <==> !(Alias(b, c) && env.tri(s) == Denotes(b.Name())))
  {
    assert env.cmp(s, b) == 0 <==> Denotes(b.Name()) == env.tri(s);
    assert env.cmp(s, c) == 0 <==> Denotes(c.Name()) == env.tri(s);
  }

  /** A joined pair stands for the conjunction in every environment exactly when
      it is no alias pair. */
  lemma JoinAndExact(e1: Expr, e2: Expr)
    requires JoinAnd(e1, e2).Some?
    ensures Equivalent(Bin(And, e1, e2), JoinAnd(e1, e2).value) <==> !AliasPair(e1, e2)
  {
    var (e, t) := (Bin(And, e1, e2), JoinAnd(e1, e2).value);
    if AliasPair(e1, e2) {
      var env := SampleEnvironment(e1.lhs, Denotes(e1.rhs.Name()));
      assert env.cmp(e1.lhs, e1.rhs) == 0 && env.cmp(e1.lhs, e2.rhs) == 0;
      assert !ExprEq(e1, e2) && Value(e, env) == 0 && Value(t, env) == 2;
    } else {
      forall env | WellTyped(env) ensures Value(e, env) == Value(t, env) {
        JoinAndAt(e1, e2, env);
      }
    }
  }

  /** A joined operand is never less than the two together, and stands for them
      wherever the constants of t are told apart. */
  lemma JoinSound(op: Op, e1: Expr, e2: Expr, t: iset<Expr>, env: Env)
    requires WellTyped(env) && Within(e1, t) && Within(e2, t) && Join(op, e1, e2).Some?
    ensures Combine(op, Value(e1, env), Value(e2, env)) <= Value(Join(op, e1, e2).value, env)
    ensures TellsApart(env, t) ==> Combine(op, Value(e1, env), Value(e2, env)) == Value(Join(op, e1, e2).value, env)
  {
    if op == Or {
      JoinOrSound(e1, e2, env);
    } else {
      assert (IsTest(e1) ==> e1 in Atoms(e1)) && (IsTest(e2) ==> e2 in Atoms(e2));
      JoinAndAt(e1, e2, env);
    }
  }

  /** What a join never adds: operators, negations, tests of other constants, or
      a new chain of the operator being joined. */
  lemma JoinShape(op: Op, e1: Expr, e2: Expr)
    requires Join(op, e1, e2).Some? && !IsBin(e1, op) && !IsBin(e2, op)
    ensures var t := Join(op, e1, e2).value;
            && !IsBin(t, op)
            && Operators(t) <= Operators(e1)
            && (NegatesSymbols(e1) ==> NegatesSymbols(t))
            && (t.Bin? ==> t == e1)
  {
  }

  // ----- The tests that joining can make -----

  /** Joining atoms of t makes no atom outside t. */
  ghost predicate JoinsStay(t: iset<Expr>) {
    forall op, a, b :: a in t && b in t && Join(op, a, b).Some? && IsAtom(Join(op, a, b).value) ==>
      Join(op, a, b).value in t
  }

  ghost predicate Reaches(e: Expr, x: Expr) { forall t: iset<Expr> :: JoinsStay(t) && Within(e, t) ==> x in t }

  /** The atoms of e, those joining makes of them, and so on. */
  ghost function Reachable(e: Expr): iset<Expr> { iset x: Expr | Reaches(e, x) }

  lemma ReachableStays(e: Expr)
    ensures JoinsStay(Reachable(e)) && Within(e, Reachable(e))
  {
    var r := Reachable(e);
    forall op, a, b | a in r && b in r && Join(op, a, b).Some? && IsAtom(Join(op, a, b).value)
      ensures Join(op, a, b).value in r
    {
      forall t: iset<Expr> | JoinsStay(t) && Within(e, t) ensures Join(op, a, b).value in t {
        assert a in t && b in t;
      }
    }
  }

  /** No two tests that can meet while e is simplified are an alias pair. */
  ghost predicate Unaliased(e: Expr) { !HasAliasPair(Reachable(e)) }

  /** What stays within the reach of an expression reaches no further. */
  lemma ReachShrinks(a: Expr, b: Expr)
    requires Within(b, Reachable(a))
    ensures Reachable(b) <= Reachable(a) && (Unaliased(a) ==> Unaliased(b))
  {
    ReachableStays(a);
    assert forall x :: x in Reachable(b) ==> x in Reachable(a);
  }

  /** In particular when no constant of a test reads as 0, 1 or 2. */
  lemma PlainIsUnaliased(e: Expr)
    requires forall x :: x in Atoms(e) && x.Cmp? && x.rhs.Quoted? ==> Denotes(x.rhs.text) == -1
    ensures Unaliased(e)
  {
    LettersAreText();
    var t := iset x: Expr | IsAtom(x) && (x.Cmp? && x.rhs.Quoted? ==> Denotes(x.rhs.text) == -1);
    forall op, a, b | a in t && b in t && Join(op, a, b).Some? && IsAtom(Join(op, a, b).value)
      ensures Join(op, a, b).value in t
    {
      var z := Join(op, a, b).value;
      assert z == a || z == b || (z.Cmp? && z.rhs.IsTristateConst()) || z.Sym?;
    }
    AtomsAreAtoms(e);
    assert JoinsStay(t) && Within(e, t);
    assert forall x :: x in Reachable(e) ==> x in t;
  }

  lemma {:induction false} AtomsAreAtoms(e: Expr)
    ensures forall x :: x in Atoms(e) ==> IsAtom(x)
  {
    if e.Bin? { AtomsAreAtoms(e.left); AtomsAreAtoms(e.right); }
  }

  lemma JoinStaysWithin(op: Op, e1: Expr, e2: Expr, t: iset<Expr>)
    requires Join(op, e1, e2).Some? && JoinsStay(t) && Within(e1, t) && Within(e2, t)
    ensures Within(Join(op, e1, e2).value, t)
  {
    if !ExprEq(e1, e2) {
      assert (IsAtom(e1) ==> e1 in Atoms(e1)) && (IsAtom(e2) ==> e2 in Atoms(e2));
      assert IsAtom(Join(op, e1, e2).value) ==> IsAtom(e1) && IsAtom(e2);
    }
  }

  /** Some well-typed environment gives the tristate symbol s the value v. */
  lemma SampleEnvironment(s: Symbol, v: Tri) returns (env: Env)
    requires s.Config? && s.Type() == Tristate
    ensures WellTyped(env) && env.tri(s) == v
  {
    var tri: Symbol -> Tri := (x: Symbol) =>
      if x == SymYes then 2 else if x == SymMod then 1 else if x == s then v else 0;
    var str: Symbol -> string := (x: Symbol) => if x.IsConst() then x.Name() else Letter(tri(x));
    EnvironmentIsWellTyped(tri, str);
    env := Environment(tri, str);
  }

  /** A concrete failing input: (A="0") && (A!="00") is n when A is n, but the
      joined operand A="0" is y. */
  lemma NumericConstantsBreakJoin()
    ensures var a := Config("A", Tristate);
            var e1, e2 := Cmp(Eq, a, Quoted("0")), Cmp(Ne, a, Quoted("00"));
            JoinAnd(e1, e2) == Some(e1) && !Equivalent(Bin(And, e1, e2), e1)
  {
    var a := Config("A", Tristate);
    assert Digits("0", 8, 0) == Digits("", 8, 0) == Some(0);
    assert Digits("00", 8, 0) == Digits("0", 8, 0);
    assert Denotes("0") == 0 && Denotes("00") == 0;
    JoinAndExact(Cmp(Eq, a, Quoted("0")), Cmp(Ne, a, Quoted("00")));
  }
}
