// What a reference in a Kconfig file stands for: its arguments, its name, and
// the value it is replaced by (tools/kconfig/preprocess.c: eval_clause,
// expand_dollar_with_args, __expand_string).
module MacroLaws {
  import opened KconfigExpr
  import opened MacroExpansion
  import opened MacroProperties

  // ----- A suffix expands by itself -----

  /** x stands in s at position p. */
  ghost predicate StandsAt(s: string, p: nat, x: string) {
    p + |x| <= |s| && forall j :: 0 <= j < |x| ==> s[p + j] == x[j]
  }

  /** s is the end of all from position d on. */
  ghost predicate EndsAt(all: string, d: nat, s: string) { StandsAt(all, d, s) && |all| == d + |s| }

  lemma {:induction false} ShiftedClose(all: string, d: nat, s: string, p: nat, nest: nat)
    requires EndsAt(all, d, s) && p <= |s|
    ensures CloseAt(all, d + p, nest) == d + CloseAt(s, p, nest)
    decreases |s| - p
  {
    if p < |s| {
      assert all[d + p] == s[p];
      ShiftedClose(all, d, s, p + 1, if s[p] == '(' then nest + 1 else if s[p] == ')'
          && nest > 0 then nest - 1 else nest);
    }
  }

  lemma ShiftedSlice(all: string, d: nat, s: string, a: nat, b: nat)
    requires EndsAt(all, d, s) && a <= b <= |s|
    ensures all[d + a..d + b] == s[a..b]
  {
  }

  /** What stands in front of s does not matter. */
  lemma {:induction false} Shifted(m: Macros, counts: seq<nat>, all: string, d: nat, s: string, p: nat,
                                   args: seq<string>)
    requires |counts| == |m.list| && EndsAt(all, d, s) && p <= |s|
    ensures ExpandFrom(m, counts, all, d + p, args) == ExpandFrom(m, counts, s, p, args)
    decreases |s| - p
  {
    if p < |s| {
      assert all[d + p] == s[p] && (p + 1 < |s| ==> all[d + (p + 1)] == s[p + 1]);
      if s[p] != '$' || p + 1 == |s| || s[p + 1] != '(' {
        Shifted(m, counts, all, d, s, p + 1, args);
      } else {
        ShiftedClose(all, d, s, p + 2, 0);
        var q := CloseAt(s, p + 2, 0);
        if q < |s| {
          ShiftedSlice(all, d, s, p + 2, q);
          Shifted(m, counts, all, d, s, q + 1, args);
        }
      }
    }
  }

  // ----- Pieces of a clause -----

  /** From position i on, below nest open parentheses, s has matching parentheses
      and no comma outside of them. */
  predicate IsPiece(s: string, i: nat, nest: nat)
    requires i <= |s|
    decreases |s| - i
  {
    if i == |s| then nest == 0
    else if s[i] == '(' then IsPiece(s, i + 1, nest + 1)
    else if s[i] == ')' then nest > 0 && IsPiece(s, i + 1, nest - 1)
    else (s[i] == ',' ==> nest > 0) && IsPiece(s, i + 1, nest)
  }

  predicate ArePieces(pieces: seq<string>) { forall k :: 0 <= k < |pieces| ==> IsPiece(pieces[k], 0, 0) }

  /** A piece is passed over, in search of the closing parenthesis and of commas. */
  lemma {:induction false} PassPiece(s: string, prev: nat, p: nat, x: string, i: nat, nest: nat)
    requires StandsAt(s, p, x) && i <= |x| && IsPiece(x, i, nest) && prev <= p
    ensures CloseAt(s, p + i, nest) == CloseAt(s, p + |x|, 0)
    ensures Split(s, prev, p + i, nest) == Split(s, prev, p + |x|, 0)
    decreases |x| - i
  {
    if i < |x| {
      assert s[p + i] == x[i];
      PassPiece(s, prev, p, x, i + 1, if x[i] == '(' then nest + 1 else if x[i] == ')' then nest - 1 else nest);
    }
  }

  lemma JoinedShape(pieces: seq<string>)
    requires |pieces| > 1
    ensures var (s, x, rest) := (Joined(pieces), pieces[0], Joined(pieces[1..]));
            |s| == |x| + 1 + |rest| && s[|x|] == ',' && s[..|x|] == x && s[|x| + 1..] == rest
  {
    CommaShape(pieces[0], Joined(pieces[1..]));
  }

  lemma CommaShape(x: string, rest: string)
    ensures var s := x + "," + rest;
            |s| == |x| + 1 + |rest| && s[|x|] == ',' && s[..|x|] == x && s[|x| + 1..] == rest
  {
  }

  /** The first piece, its comma and the other pieces. */
  lemma PiecesStand(s: string, p: nat, pieces: seq<string>)
    requires |pieces| > 1 && StandsAt(s, p, Joined(pieces))
    ensures var (x, rest) := (pieces[0], Joined(pieces[1..]));
            && StandsAt(s, p, x) && p + |x| < |s| && s[p + |x|] == ','
            && StandsAt(s, p + |x| + 1, rest) && |Joined(pieces)| == |x| + 1 + |rest|
  {
    JoinedShape(pieces);
    var (all, x, rest) := (Joined(pieces), pieces[0], Joined(pieces[1..]));
    forall j | 0 <= j < |x| ensures s[p + j] == x[j] { assert all[..|x|][j] == x[j]; }
    forall j | 0 <= j < |rest| ensures s[p + |x| + 1 + j] == rest[j] {
      assert all[|x| + 1..][j] == all[|x| + 1 + j];
    }
  }

  lemma {:induction false} PassPieces(s: string, p: nat, pieces: seq<string>)
    requires pieces != [] && ArePieces(pieces) && StandsAt(s, p, Joined(pieces))
    ensures CloseAt(s, p, 0) == CloseAt(s, p + |Joined(pieces)|, 0)
    ensures p + |Joined(pieces)| == |s| ==> Split(s, p, p, 0) == pieces
    decreases |pieces|
  {
    var x := pieces[0];
    if |pieces| == 1 {
      PassPiece(s, p, p, x, 0, 0);
      assert p + |x| == |s| ==> s[p..p + |x|] == x;
    } else {
      PiecesStand(s, p, pieces);
      var next := p + |x| + 1;
      PassPiece(s, p, p, x, 0, 0);
      PassPieces(s, next, pieces[1..]);
      assert s[p..p + |x|] == x;
    }
  }

  /** Cutting a clause finds the pieces it was put together from. */
  lemma PiecesAreFound(pieces: seq<string>)
    requires pieces != [] && ArePieces(pieces)
    ensures Clauses(Joined(pieces)) == pieces
  {
    PassPieces(Joined(pieces), 0, pieces);
  }

  // ----- References -----

  /** The text $(p0,p1,...). */
  function Reference(pieces: seq<string>): string
    requires pieces != []
  {
    "$(" + Joined(pieces) + ")"
  }

  /** What is written behind a reference is expanded by itself. */
  function Followed(o: Outcome, rest: Outcome): Outcome { if o.Expanded? then Prepend(o.text, rest) else o }

  lemma ReferenceShape(pieces: seq<string>, t: string)
    requires pieces != []
    ensures var (s, n) := (Reference(pieces) + t, |Joined(pieces)|);
            |s| == n + 3 + |t| && s[0] == '$' && s[1] == '(' && s[2..2 + n] == Joined(pieces) && s[2 + n] == ')'
            && s[3 + n..] == t
  {
  }

  lemma ReferenceIsClause(m: Macros, counts: seq<nat>, pieces: seq<string>, t: string, args: seq<string>)
    requires |counts| == |m.list| && pieces != [] && ArePieces(pieces)
    ensures ExpandFrom(m, counts, Reference(pieces) + t, 0, args)
         == Followed(EvalClause(m, counts, Joined(pieces), args), ExpandFrom(m, counts, t, 0, args))
  {
    var (s, all) := (Reference(pieces) + t, Joined(pieces));
    ReferenceShape(pieces, t);
    assert StandsAt(s, 2, all) by {
      forall j | 0 <= j < |all| ensures s[2 + j] == all[j] { assert s[2..2 + |all|][j] == s[2 + j]; }
    }
    PassPieces(s, 2, pieces);
    var q := 2 + |all|;
    assert CloseAt(s, 2, 0) == q;
    Shifted(m, counts, s, 3 + |all|, t, 0, args);
  }

  // ----- Arguments -----

  /** The decimal numeral of n. */
  function Decimal(n: nat): (s: string)
    ensures s != "" && forall c :: c in s ==> '0' <= c <= '9'
  {
    if n < 10 then [DigitOf(n)] else Decimal(n / 10) + [DigitOf(n % 10)]
  }

  function DigitOf(d: nat): (c: char)
    requires d < 10
    ensures '0' <= c <= '9' && DigitValue(c) == d
  {
    ('0' as int + d) as char
  }

  lemma {:induction false} OneMoreDigit(s: string, c: char, acc: nat)
    requires '0' <= c <= '9'
    ensures var before := Digits(s, 10, acc);
            Digits(s + [c], 10, acc) == if before.Some? then Some(before.value * 10 + DigitValue(c)) else None
    decreases |s|
  {
    if s == [] {
      assert s + [c] == [c] && [c][1..] == [];
    } else {
      assert (s + [c])[1..] == s[1..] + [c];
      if DigitValue(s[0]) < 10 { OneMoreDigit(s[1..], c, acc * 10 + DigitValue(s[0])); }
    }
  }

  lemma {:induction false} DecimalIsRead(n: nat)
    ensures Number(Decimal(n), 10) == Some(n)
  {
    DecimalDigits(n);
    assert Decimal(n)[0] in Decimal(n);
  }

  lemma {:induction false} DecimalDigits(n: nat)
    ensures Digits(Decimal(n), 10, 0) == Some(n)
  {
    if n < 10 {
      assert Decimal(n) == [] + [DigitOf(n)];
      OneMoreDigit([], DigitOf(n), 0);
    } else {
      DecimalDigits(n / 10);
      OneMoreDigit(Decimal(n / 10), DigitOf(n % 10), 0);
    }
  }

  lemma {:induction false} PlainIsPiece(s: string, i: nat)
    requires i <= |s| && forall c :: c in s ==> c != '(' && c != ')' && c != ','
    ensures IsPiece(s, i, 0)
    decreases |s| - i
  {
    if i < |s| {
      assert s[i] in s;
      PlainIsPiece(s, i + 1);
    }
  }

  lemma ArgumentIsFound(m: Macros, counts: seq<nat>, s: string, k: nat, args: seq<string>)
    requires |counts| == |m.list| && 1 <= k <= |args| && k < LIMIT_64 && s != "" && Number(s, 10) == Some(k)
    ensures EvalClause(m, counts, s, args) == Expanded(args[k - 1])
  {
    assert ArgumentIndex(s, |args|) == Some(k - 1);
  }

  /** $(k) is the k-th argument. */
  lemma ArgumentLaw(m: Macros, counts: seq<nat>, k: nat, args: seq<string>, t: string)
    requires |counts| == |m.list| && 1 <= k <= |args| && k < LIMIT_64
    ensures ExpandFrom(m, counts, "$(" + Decimal(k) + ")" + t, 0, args)
         == Followed(Expanded(args[k - 1]), ExpandFrom(m, counts, t, 0, args))
  {
    var name := Decimal(k);
    PlainIsPiece(name, 0);
    DecimalIsRead(k);
    ArgumentIsFound(m, counts, name, k, args);
    ReferenceIsClause(m, counts, [name], t, args);
    assert Reference([name]) == "$(" + name + ")";
  }

  /** Characters strtoul can read. */
  predicate IsNumeric(c: char) { IsSpace(c) || c == '+' || c == '-' || '0' <= c <= '9' }

  /** A clause that names no argument among argc. */
  ghost predicate NamesNoArgument(clause: string, argc: nat) {
    || argc == 0
    || (exists i :: 0 <= i < |clause| && !IsNumeric(clause[i]))
    || (exists k: nat :: (k == 0 || argc < k < LIMIT_64) && clause == Decimal(k))
  }

  lemma {:induction false} NotDigits(s: string, acc: nat, i: nat)
    requires i < |s| && !('0' <= s[i] <= '9')
    ensures Digits(s, 10, acc) == None
    decreases |s|
  {
    if DigitValue(s[0]) < 10 {
      assert s[1..][i - 1] == s[i];
      NotDigits(s[1..], acc * 10 + DigitValue(s[0]), i - 1);
    }
  }

  lemma {:induction false} NotNumber(s: string, i: nat)
    requires i < |s| && !IsNumeric(s[i])
    ensures Number(s, 10) == None
    decreases |s|
  {
    if i > 0 { assert s[1..][i - 1] == s[i]; }
    if IsSpace(s[0]) {
      NotNumber(s[1..], i - 1);
    } else if s[0] == '-' || s[0] == '+' {
      NotDigits(s[1..], 0, i - 1);
    } else {
      NotDigits(s, 0, i);
    }
  }

  lemma NoArgument(clause: string, argc: nat)
    requires NamesNoArgument(clause, argc)
    ensures ArgumentIndex(clause, argc) == None
  {
    if i :| 0 <= i < |clause| && !IsNumeric(clause[i]) {
      NotNumber(clause, i);
    } else if argc > 0 {
      var k: nat :| (k == 0 || argc < k < LIMIT_64) && clause == Decimal(k);
      DecimalIsRead(k);
    }
  }

  /** A clause with arguments holds a comma and so names no argument itself. */
  lemma CallIsNoNumber(pieces: seq<string>, argc: nat)
    requires |pieces| > 1
    ensures NamesNoArgument(Joined(pieces), argc)
  {
    JoinedShape(pieces);
    assert !IsNumeric(Joined(pieces)[|pieces[0]|]);
  }

  // ----- The call -----

  /** The pieces of a clause expand to these texts. */
  ghost predicate ExpandTo(m: Macros, counts: seq<nat>, pieces: seq<string>, args: seq<string>, texts: seq<string>)
    requires |counts| == |m.list|
  {
    |texts| == |pieces| && forall k :: 0 <= k < |pieces| ==>
      ExpandFrom(m, counts, pieces[k], 0, args) == Expanded(texts[k])
  }

  lemma {:induction false} PiecesExpand(m: Macros, counts: seq<nat>, s: string, pieces: seq<string>, args: seq<string>,
                                        texts: seq<string>)
    requires |counts| == |m.list| && ExpandTo(m, counts, pieces, args, texts)
    requires forall k :: 0 <= k < |pieces| ==> |pieces[k]| <= |s|
    ensures ExpandPieces(m, counts, s, pieces, args) == Values(texts)
    decreases |pieces|
  {
    if pieces != [] {
      assert texts[0] == texts[..1][0];
      PiecesExpand(m, counts, s, pieces[1..], args, texts[1..]);
      assert texts == [texts[0]] + texts[1..];
    }
  }

  /** A clause that can be evaluated: matching parentheses, at most sixteen
      commas, and no argument of the macro around it. */
  ghost predicate IsCall(pieces: seq<string>, argc: nat) {
    && 0 < |pieces| <= FUNCTION_MAX_ARGS + 1 && ArePieces(pieces)
    && (|pieces| == 1 ==> NamesNoArgument(pieces[0], argc))
  }

  lemma ReferenceIsCall(m: Macros, counts: seq<nat>, pieces: seq<string>, args: seq<string>, texts: seq<string>,
                        t: string)
    requires |counts| == |m.list| && IsCall(pieces, |args|) && ExpandTo(m, counts, pieces, args, texts)
    ensures ExpandFrom(m, counts, Reference(pieces) + t, 0, args)
         == Followed(Call(m, counts, texts[0], texts[1..]), ExpandFrom(m, counts, t, 0, args))
  {
    var clause := Joined(pieces);
    if |pieces| > 1 { CallIsNoNumber(pieces, |args|); }
    NoArgument(clause, |args|);
    PiecesAreFound(pieces);
    PiecesExpand(m, counts, clause, pieces, args, texts);
    ReferenceIsClause(m, counts, pieces, t, args);
  }

  /** i is the first variable of that name. */
  ghost predicate IsFirstNamed(list: seq<Variable>, name: string, i: nat) {
    i < |list| && list[i].name == name && forall j :: 0 <= j < i ==> list[j].name != name
  }

  lemma {:induction false} LookupFindsFirst(list: seq<Variable>, name: string, i: nat)
    requires IsFirstNamed(list, name, i)
    ensures Lookup(list, name) == Some(i)
    decreases i
  {
    if i > 0 {
      assert IsFirstNamed(list[1..], name, i - 1);
      LookupFindsFirst(list[1..], name, i - 1);
    }
  }

  lemma VariableIsEntered(m: Macros, counts: seq<nat>, name: string, actual: seq<string>, i: nat)
    requires |counts| == |m.list| && IsFirstNamed(m.list, name, i)
    ensures var v := m.list[i];
            Call(m, counts, name, actual) ==
            if |actual| == 0 && counts[i] > 0 then Failed(SelfReference(v.name))
            else if counts[i] > MAX_DEPTH then Failed(TooDeep)
            else if v.flavor == Simple then Expanded(v.value)
            else ExpandFrom(m, counts[i := counts[i] + 1], v.value, 0, actual)
  {
    LookupFindsFirst(m.list, name, i);
  }

  /** A reference to a variable: its value as it stands, or expanded with the
      texts of the pieces as arguments; an error below itself without arguments
      or below more than a thousand expansions of itself. */
  lemma VariableLaw(m: Macros, counts: seq<nat>, pieces: seq<string>, args: seq<string>, texts: seq<string>, i: nat,
                    t: string)
    requires |counts| == |m.list| && IsCall(pieces, |args|) && ExpandTo(m, counts, pieces, args, texts)
    requires IsFirstNamed(m.list, texts[0], i)
    ensures var v := m.list[i];
            ExpandFrom(m, counts, Reference(pieces) + t, 0, args) ==
            Followed(
              if |pieces| == 1 && counts[i] > 0 then Failed(SelfReference(v.name))
              else if counts[i] > MAX_DEPTH then Failed(TooDeep)
              else if v.flavor == Simple then Expanded(v.value)
              else ExpandFrom(m, counts[i := counts[i] + 1], v.value, 0, texts[1..]),
              ExpandFrom(m, counts, t, 0, args))
  {
    VariableIsEntered(m, counts, texts[0], texts[1..], i);
    ReferenceIsCall(m, counts, pieces, args, texts, t);
  }

  /** A reference to anything else: a built-in function, then an environment
      variable, then nothing. */
  lemma OtherNameLaw(m: Macros, counts: seq<nat>, pieces: seq<string>, args: seq<string>, texts: seq<string>,
                     t: string)
    requires |counts| == |m.list| && IsCall(pieces, |args|) && ExpandTo(m, counts, pieces, args, texts)
    requires forall v :: v in m.list ==> v.name != texts[0]
    ensures var (b, e) := (m.builtin(texts[0], texts[1..]), m.env(texts[0]));
            ExpandFrom(m, counts, Reference(pieces) + t, 0, args) ==
            Followed(
              if b.Some? then b.value
              else if |pieces| == 1 && texts[0] != "" && e.Some? then Expanded(e.value)
              else Expanded(""),
              ExpandFrom(m, counts, t, 0, args))
  {
    ReferenceIsCall(m, counts, pieces, args, texts, t);
    assert texts[1..] == [] <==> |pieces| == 1;
  }

  // ----- Errors -----

  /** From position i on, no parenthesis of s closes one that was opened in front
      of s. */
  predicate NeverCloses(s: string, i: nat, nest: nat)
    requires i <= |s|
    decreases |s| - i
  {
    if i == |s| then true
    else if s[i] == '(' then NeverCloses(s, i + 1, nest + 1)
    else if s[i] == ')' then nest > 0 && NeverCloses(s, i + 1, nest - 1)
    else NeverCloses(s, i + 1, nest)
  }

  lemma {:induction false} NoClose(s: string, i: nat, nest: nat)
    requires i <= |s| && NeverCloses(s, i, nest)
    ensures CloseAt(s, i, nest) == |s|
    decreases |s| - i
  {
    if i < |s| {
      NoClose(s, i + 1, if s[i] == '(' then nest + 1 else if s[i] == ')' then nest - 1 else nest);
    }
  }

  /** A reference that is not closed is an error. */
  lemma UnterminatedLaw(m: Macros, counts: seq<nat>, s: string, args: seq<string>)
    requires |counts| == |m.list| && NeverCloses(s, 0, 0)
    ensures ExpandFrom(m, counts, "$(" + s, 0, args) == Failed(Unterminated)
  {
    NoClose(s, 0, 0);
    ShiftedClose("$(" + s, 2, s, 0, 0);
  }

  /** So are more than sixteen commas. */
  lemma TooManyLaw(m: Macros, counts: seq<nat>, pieces: seq<string>, args: seq<string>, t: string)
    requires |counts| == |m.list| && |pieces| > FUNCTION_MAX_ARGS + 1 && ArePieces(pieces)
    ensures ExpandFrom(m, counts, Reference(pieces) + t, 0, args) == Failed(TooManyArguments)
  {
    CallIsNoNumber(pieces, |args|);
    NoArgument(Joined(pieces), |args|);
    PiecesAreFound(pieces);
    ReferenceIsClause(m, counts, pieces, t, args);
  }

  lemma {:induction false} FirstFailure(m: Macros, counts: seq<nat>, s: string, pieces: seq<string>, args: seq<string>,
                                        k: nat)
    requires |counts| == |m.list| && k < |pieces| && forall j :: 0 <= j < |pieces| ==> |pieces[j]| <= |s|
    requires forall j :: 0 <= j < k ==> ExpandFrom(m, counts, pieces[j], 0, args).Expanded?
    requires ExpandFrom(m, counts, pieces[k], 0, args).Failed?
    ensures ExpandPieces(m, counts, s, pieces, args) == Stopped(ExpandFrom(m, counts, pieces[k], 0, args).failure)
    decreases k
  {
    if k > 0 { FirstFailure(m, counts, s, pieces[1..], args, k - 1); }
  }

  /** The first piece that fails decides the error. */
  lemma FailingPieceLaw(m: Macros, counts: seq<nat>, pieces: seq<string>, args: seq<string>, k: nat, t: string)
    requires |counts| == |m.list| && IsCall(pieces, |args|) && k < |pieces|
    requires forall j :: 0 <= j < k ==> ExpandFrom(m, counts, pieces[j], 0, args).Expanded?
    requires ExpandFrom(m, counts, pieces[k], 0, args).Failed?
    ensures ExpandFrom(m, counts, Reference(pieces) + t, 0, args) == ExpandFrom(m, counts, pieces[k], 0, args)
  {
    var clause := Joined(pieces);
    if |pieces| > 1 { CallIsNoNumber(pieces, |args|); }
    NoArgument(clause, |args|);
    PiecesAreFound(pieces);
    FirstFailure(m, counts, clause, pieces, args, k);
    ReferenceIsClause(m, counts, pieces, t, args);
  }

  /** A dollar sign with no parenthesis behind it stands for itself. */
  lemma LoneDollarLaw(m: Macros, counts: seq<nat>, t: string, args: seq<string>)
    requires |counts| == |m.list| && (t == "" || t[0] != '(')
    ensures ExpandFrom(m, counts, "$" + t, 0, args) == Followed(Expanded("$"), ExpandFrom(m, counts, t, 0, args))
  {
    Shifted(m, counts, "$" + t, 1, t, 0, args);
  }

  // ----- Values with arguments -----

  /** A piece of a value: a text or the reference to an argument. */
  datatype Part = Plain(text: string) | Argument(k: nat)

  /** The value as written, */
  function Written(parts: seq<Part>): string {
    if parts == [] then ""
    else (if parts[0].Plain? then parts[0].text else "$(" + Decimal(parts[0].k) + ")") + Written(parts[1..])
  }

  /** and with its arguments filled in. */
  function Filled(parts: seq<Part>, args: seq<string>): string
    requires ArgumentsGiven(parts, args)
  {
    if parts == [] then ""
    else (if parts[0].Plain? then parts[0].text else args[parts[0].k - 1]) + Filled(parts[1..], args)
  }

  /** Texts hold no dollar sign, and every argument is given. */
  predicate ArgumentsGiven(parts: seq<Part>, args: seq<string>) {
    forall p :: p in parts ==> if p.Plain? then '$' !in p.text else 1 <= p.k <= |args| && p.k < LIMIT_64
  }

  /** A text in front of anything is kept. */
  lemma {:induction false} TextLaw(m: Macros, counts: seq<nat>, x: string, t: string, args: seq<string>)
    requires |counts| == |m.list| && '$' !in x
    ensures ExpandFrom(m, counts, x + t, 0, args) == Followed(Expanded(x), ExpandFrom(m, counts, t, 0, args))
    decreases |x|
  {
    if x == "" {
      assert x + t == t;
      var o := ExpandFrom(m, counts, t, 0, args);
      assert o.Expanded? ==> "" + o.text == o.text;
    } else {
      var s := x + t;
      assert s == [x[0]] + (x[1..] + t);
      Shifted(m, counts, s, 1, x[1..] + t, 0, args);
      TextLaw(m, counts, x[1..], t, args);
      PrependTwice([x[0]], x[1..], ExpandFrom(m, counts, t, 0, args));
      assert [x[0]] + x[1..] == x;
    }
  }

  /** Expanding a value puts the arguments where it names them. */
  lemma {:induction false} ValueLaw(m: Macros, counts: seq<nat>, parts: seq<Part>, args: seq<string>)
    requires |counts| == |m.list| && ArgumentsGiven(parts, args)
    ensures ExpandFrom(m, counts, Written(parts), 0, args) == Expanded(Filled(parts, args))
    decreases |parts|
  {
    if parts != [] {
      assert parts[0] in parts;
      ValueLaw(m, counts, parts[1..], args);
      if parts[0].Plain? {
        TextLaw(m, counts, parts[0].text, Written(parts[1..]), args);
      } else {
        ArgumentLaw(m, counts, parts[0].k, args, Written(parts[1..]));
      }
    }
  }

  /** A call of a recursive variable with the arguments its value names is
      replaced by the value with the arguments' texts in their places. */
  lemma CallLaw(m: Macros, counts: seq<nat>, pieces: seq<string>, args: seq<string>, texts: seq<string>, i: nat,
                parts: seq<Part>)
    requires |counts| == |m.list| && IsCall(pieces, |args|) && ExpandTo(m, counts, pieces, args, texts)
    requires IsFirstNamed(m.list, texts[0], i) && counts[i] <= MAX_DEPTH && (|pieces| == 1 ==> counts[i] == 0)
    requires m.list[i].flavor == Recursive && m.list[i].value == Written(parts) && ArgumentsGiven(parts, texts[1..])
    ensures ExpandFrom(m, counts, Reference(pieces), 0, args) == Expanded(Filled(parts, texts[1..]))
  {
    VariableLaw(m, counts, pieces, args, texts, i, "");
    ValueLaw(m, counts[i := counts[i] + 1], parts, texts[1..]);
    assert Reference(pieces) + "" == Reference(pieces);
    var text := Filled(parts, texts[1..]);
    assert text + "" == text;
  }

  /** Pieces without a dollar sign are their own texts. */
  lemma PlainPieces(m: Macros, counts: seq<nat>, pieces: seq<string>, args: seq<string>)
    requires |counts| == |m.list| && forall x :: x in pieces ==> '$' !in x
    ensures ExpandTo(m, counts, pieces, args, pieces)
  {
    forall k | 0 <= k < |pieces| ensures ExpandFrom(m, counts, pieces[k], 0, args) == Expanded(pieces[k]) {
      PlainIsItself(m, counts, pieces[k], 0, args);
      assert pieces[k][0..] == pieces[k];
    }
  }
}
