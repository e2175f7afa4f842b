// Macro expansion in Kconfig files: what a string expands to, with the
// expansion counters that stop runaway recursion
// (tools/kconfig/preprocess.c: variable_expand, eval_clause,
// expand_dollar_with_args, __expand_string).
module MacroExpansion {
  import opened KconfigExpr

  datatype Flavor = Recursive | Simple

  datatype Variable = Variable(name: string, value: string, flavor: Flavor)

  /** The variable list, and the built-in functions and environment variables as
      total functions of their arguments; a built-in may stop the program. */
  datatype Macros =
    Macros(list: seq<Variable>, builtin: (string, seq<string>) -> Option<Outcome>, env: string -> Option<string>)

  datatype Failure = SelfReference(name: string) | TooDeep | Unterminated | TooManyArguments | BuiltinError

  /** pperror prints a message and ends the program. */
  datatype Outcome = Expanded(text: string) | Failed(failure: Failure)

  datatype Pieces = Values(texts: seq<string>) | Stopped(failure: Failure)

  const MAX_DEPTH := 1000
  const FUNCTION_MAX_ARGS := 16

  // ----- The budget -----

  /** How often the variables can still be entered, together. */
  function Budget(counts: seq<nat>): nat {
    if counts == [] then 0
    else (if counts[0] <= MAX_DEPTH then MAX_DEPTH + 1 - counts[0] else 0) + Budget(counts[1..])
  }

  lemma {:induction false} EnteringSpendsBudget(counts: seq<nat>, i: nat)
    requires i < |counts| && counts[i] <= MAX_DEPTH
    ensures Budget(counts[i := counts[i] + 1]) < Budget(counts)
  {
    var next := counts[i := counts[i] + 1];
    if i == 0 {
      assert next[1..] == counts[1..];
    } else {
      EnteringSpendsBudget(counts[1..], i - 1);
      assert next[1..] == counts[1..][i - 1 := counts[i] + 1];
    }
  }

  // ----- Scanning -----

  /** The parenthesis that closes the reference whose text starts at p, or the end. */
  function CloseAt(s: string, p: nat, nest: nat): (q: nat)
    requires p <= |s|
    ensures p <= q <= |s|
    decreases |s| - p
  {
    if p == |s| then p
    else if s[p] == '(' then CloseAt(s, p + 1, nest + 1)
    else if s[p] == ')' then if nest == 0 then p else CloseAt(s, p + 1, nest - 1)
    else CloseAt(s, p + 1, nest)
  }

  /** A clause cut at its top-level commas; the current piece began at prev. */
  function Split(s: string, prev: nat, p: nat, nest: int): (r: seq<string>)
    requires prev <= p <= |s|
    ensures |r| > 0 && forall k :: 0 <= k < |r| ==> |r[k]| <= |s|
    decreases |s| - p
  {
    if p == |s| then [s[prev..p]]
    else if nest == 0 && s[p] == ',' then [s[prev..p]] + Split(s, p + 1, p + 1, nest)
    else Split(s, prev, p + 1, if s[p] == '(' then nest + 1 else if s[p] == ')' then nest - 1 else nest)
  }

  function Clauses(s: string): seq<string> { Split(s, 0, 0, 0) }

  function Joined(pieces: seq<string>): string
    requires pieces != []
  {
    if |pieces| == 1 then pieces[0] else pieces[0] + "," + Joined(pieces[1..])
  }

  /** Cutting loses nothing: the pieces with their commas are the clause. */
  lemma {:induction false} SplitJoined(s: string, prev: nat, p: nat, nest: int)
    requires prev <= p <= |s|
    ensures Joined(Split(s, prev, p, nest)) == s[prev..]
    decreases |s| - p
  {
    if p == |s| {
    } else if nest == 0 && s[p] == ',' {
      SplitJoined(s, p + 1, p + 1, nest);
      var rest := Split(s, p + 1, p + 1, nest);
      assert ([s[prev..p]] + rest)[1..] == rest;
      assert s[prev..] == s[prev..p] + "," + s[p + 1..];
    } else {
      SplitJoined(s, prev, p + 1, if s[p] == '(' then nest + 1 else if s[p] == ')' then nest - 1 else nest);
    }
  }

  /** strtoul over the whole clause, when it names one of argc arguments. */
  function ArgumentIndex(s: string, argc: nat): (i: Option<nat>)
    ensures i.Some? ==> i.value < argc
  {
    var n := if s == "" then Some(0) else Number(s, 10);
    if n.None? then None
    else
      var v := if -LIMIT_64 < n.value < LIMIT_64 then n.value % LIMIT_64 else LIMIT_64 - 1;
      if 0 < v <= argc then Some(v - 1) else None
  }

  function Lookup(list: seq<Variable>, name: string): (i: Option<nat>)
    ensures i.Some? ==> i.value < |list| && list[i.value].name == name
    ensures i.None? ==> forall k :: 0 <= k < |list| ==> list[k].name != name
  {
    if list == [] then None
    else if list[0].name == name then Some(0)
    else
      var i := Lookup(list[1..], name);
      if i.Some? then Some(i.value + 1) else None
  }

  // ----- Expansion -----

  function Prepend(s: string, o: Outcome): Outcome { if o.Expanded? then Expanded(s + o.text) else o }

  /** The expansion of s from position p on, below as many entries of each
      variable as counts says. */
  function ExpandFrom(m: Macros, counts: seq<nat>, s: string, p: nat, args: seq<string>): Outcome
    requires |counts| == |m.list| && p <= |s|
    decreases Budget(counts), |s|, 1, |s| - p
  {
    if p == |s| then Expanded("")
    else if s[p] != '$' then Prepend([s[p]], ExpandFrom(m, counts, s, p + 1, args))
    else if p + 1 == |s| || s[p + 1] != '(' then Prepend("$", ExpandFrom(m, counts, s, p + 1, args))
    else
      var q := CloseAt(s, p + 2, 0);
      if q == |s| then Failed(Unterminated)
      else
        var first := EvalClause(m, counts, s[p + 2..q], args);
        if first.Failed? then first else Prepend(first.text, ExpandFrom(m, counts, s, q + 1, args))
  }

  function EvalClause(m: Macros, counts: seq<nat>, s: string, args: seq<string>): Outcome
    requires |counts| == |m.list|
    decreases Budget(counts), |s|, 2, 0
  {
    var index := ArgumentIndex(s, |args|);
    if index.Some? then Expanded(args[index.value])
    else
      var pieces := Clauses(s);
      if |pieces| > FUNCTION_MAX_ARGS + 1 then Failed(TooManyArguments)
      else
        var values := ExpandPieces(m, counts, s, pieces, args);
        if values.Stopped? then Failed(values.failure)
        else Call(m, counts, values.texts[0], values.texts[1..])
  }

  /** Every piece of the clause s expanded, in order. */
  function ExpandPieces(m: Macros, counts: seq<nat>, s: string, pieces: seq<string>, args: seq<string>): (r: Pieces)
    requires |counts| == |m.list| && forall k :: 0 <= k < |pieces| ==> |pieces[k]| <= |s|
    ensures r.Values? ==> |r.texts| == |pieces|
    decreases Budget(counts), |s|, 1, |s| + 1 + |pieces|
  {
    if pieces == [] then Values([])
    else
      var first := ExpandFrom(m, counts, pieces[0], 0, args);
      if first.Failed? then Stopped(first.failure)
      else
        var rest := ExpandPieces(m, counts, s, pieces[1..], args);
        if rest.Stopped? then rest else Values([first.text] + rest.texts)
  }

  /** A variable, else a built-in function, else an environment variable, else nothing. */
  function Call(m: Macros, counts: seq<nat>, name: string, args: seq<string>): Outcome
    requires |counts| == |m.list|
    decreases Budget(counts), 0, 1
  {
    var i := Lookup(m.list, name);
    if i.Some? then Enter(m, counts, i.value, args)
    else
      var b := m.builtin(name, args);
      if b.Some? then b.value
      else if args == [] && name != "" && m.env(name).Some? then Expanded(m.env(name).value)
      else Expanded("")
  }

  /** variable_expand for the variable at position i. */
  function Enter(m: Macros, counts: seq<nat>, i: nat, args: seq<string>): Outcome
    requires |counts| == |m.list| && i < |m.list|
    decreases Budget(counts), 0, 0
  {
    if args == [] && counts[i] > 0 then Failed(SelfReference(m.list[i].name))
    else if counts[i] > MAX_DEPTH then Failed(TooDeep)
    else if m.list[i].flavor == Simple then Expanded(m.list[i].value)
    else
      EnteringSpendsBudget(counts, i);
      ExpandFrom(m, counts[i := counts[i] + 1], m.list[i].value, 0, args)
  }

  // ----- The expander -----

  class Expander {
    const m: Macros
    /** exp_count of every variable of the list. */
    var counts: seq<nat>

    ghost predicate Valid() reads this { |counts| == |m.list| }

    constructor (m: Macros)
      ensures this.m == m && Valid() && counts == seq(|m.list|, i => 0)
    {
      this.m := m;
      counts := seq(|m.list|, i => 0);
    }

    /** expand_string_with_args. */
    method ExpandString(s: string, args: seq<string>) returns (o: Outcome)
      requires Valid()
      modifies this
      ensures o == ExpandFrom(m, old(counts), s, 0, args)
      ensures o.Expanded? ==> counts == old(counts)
      decreases Budget(counts), |s|, 1
    {
      var out := "";
      var begin, p := 0, 0;
      while true
        invariant begin <= p <= |s| && counts == old(counts)
        invariant Prepend(out + s[begin..p], ExpandFrom(m, counts, s, p, args)) == ExpandFrom(m, counts, s, 0, args)
        decreases |s| - p
      {
        if p < |s| && s[p] == '$' {
          ghost var done := out + s[begin..p];
          var first, next := ExpandDollar(s, p + 1, args);
          if first.Failed? { return first; }
          out := out + s[begin..p] + first.text;
          begin, p := next, next;
          PrependTwice(done, first.text, ExpandFrom(m, counts, s, p, args));
          assert out + s[begin..p] == done + first.text;
          continue;
        }
        if p == |s| { break; }
        PrependTwice(out + s[begin..p], [s[p]], ExpandFrom(m, counts, s, p + 1, args));
        assert out + s[begin..p + 1] == out + s[begin..p] + [s[p]];
        p := p + 1;
      }
      o := Expanded(out + s[begin..p]);
    }

    /** expand_dollar_with_args: the expansion of the reference behind a dollar
        sign, and where the string goes on. */
    method ExpandDollar(s: string, p: nat, args: seq<string>) returns (o: Outcome, next: nat)
      requires Valid() && 0 < p <= |s| && s[p - 1] == '$'
      modifies this
      ensures o.Failed? ==> ExpandFrom(m, old(counts), s, p - 1, args) == o
      ensures o.Expanded? ==> counts == old(counts) && p <= next <= |s|
      ensures o.Expanded? ==>
        ExpandFrom(m, counts, s, p - 1, args) == Prepend(o.text, ExpandFrom(m, counts, s, next, args))
      decreases Budget(counts), |s|, 0
    {
      if p == |s| || s[p] != '(' {
        return Expanded("$"), p;
      }
      var q := p + 1;
      var nest := 0;
      while q < |s|
        invariant p + 1 <= q <= |s| && 0 <= nest && CloseAt(s, p + 1, 0) == CloseAt(s, q, nest)
      {
        if s[q] == '(' {
          nest := nest + 1;
        } else if s[q] == ')' {
          if nest == 0 { break; }
          nest := nest - 1;
        }
        q := q + 1;
      }
      next := q;
      if q == |s| { return Failed(Unterminated), next; }
      next := q + 1;
      o := EvaluateClause(s[p + 1..q], args);
    }

    /** eval_clause. */
    method EvaluateClause(s: string, args: seq<string>) returns (o: Outcome)
      requires Valid()
      modifies this
      ensures o == EvalClause(m, old(counts), s, args)
      ensures o.Expanded? ==> counts == old(counts)
      decreases Budget(counts), |s|, 2
    {
      var index := ArgumentIndex(s, |args|);
      if index.Some? { return Expanded(args[index.value]); }
      var pieces, many, _ := SplitTokens(s);
      if many { return Failed(TooManyArguments); }
      var texts: seq<string> := [];
      var i := 0;
      assert pieces[0..] == pieces;
      while i < |pieces|
        invariant i <= |pieces| && |texts| == i && counts == old(counts)
        invariant ExpandPieces(m, counts, s, pieces, args) ==
                  Extend(texts, ExpandPieces(m, counts, s, pieces[i..], args))
      {
        var first := ExpandString(pieces[i], args);
        if first.Failed? { return first; }
        ghost var rest := ExpandPieces(m, counts, s, pieces[i + 1..], args);
        assert pieces[i..][1..] == pieces[i + 1..];
        ExtendTwice(texts, first.text, rest);
        texts := texts + [first.text];
        i := i + 1;
      }
      assert texts + [] == texts;
      o := CallByName(texts[0], texts[1..]);
    }

    /** The search for something with the name: a variable, a built-in function,
        an environment variable. */
    method CallByName(name: string, args: seq<string>) returns (o: Outcome)
      requires Valid()
      modifies this
      ensures o == Call(m, old(counts), name, args)
      ensures o.Expanded? ==> counts == old(counts)
      decreases Budget(counts), 0, 1
    {
      var i := Lookup(m.list, name);
      if i.Some? {
        o := VariableExpand(i.value, args);
        return;
      }
      var b := m.builtin(name, args);
      if b.Some? { return b.value; }
      if args == [] && name != "" {
        var e := m.env(name);
        if e.Some? { return Expanded(e.value); }
      }
      o := Expanded("");
    }

    /** variable_expand: the counter is raised during the expansion of the value
        and lowered again after it. */
    method VariableExpand(i: nat, args: seq<string>) returns (o: Outcome)
      requires Valid() && i < |m.list|
      modifies this
      ensures o == Enter(m, old(counts), i, args)
      ensures o.Expanded? ==> counts == old(counts)
      decreases Budget(counts), 0, 0
    {
      var v := m.list[i];
      if |args| == 0 && counts[i] > 0 { return Failed(SelfReference(v.name)); }
      if counts[i] > MAX_DEPTH { return Failed(TooDeep); }
      EnteringSpendsBudget(counts, i);
      counts := counts[i := counts[i] + 1];
      if v.flavor == Recursive {
        o := ExpandString(v.value, args);
        if o.Failed? { return; }
      } else {
        o := Expanded(v.value);
      }
      counts := counts[i := counts[i] - 1];
    }
  }

  /** The token loop of eval_clause. The limit is tested at commas only, so the
      last piece is stored behind the array when all its cells are taken: inside
      tells whether every store hits one of its FUNCTION_MAX_ARGS cells. */
  method SplitTokens(s: string) returns (pieces: seq<string>, many: bool, inside: bool)
    ensures many <==> |Clauses(s)| > FUNCTION_MAX_ARGS + 1
    ensures !many ==> pieces == Clauses(s)
    ensures inside <==> many || |Clauses(s)| <= FUNCTION_MAX_ARGS
  {
    pieces, inside := [], true;
    var prev, p, nest := 0, 0, 0;
    ghost var rest := Clauses(s);
    while p < |s|
      invariant prev <= p <= |s| && |pieces| <= FUNCTION_MAX_ARGS && inside
      invariant rest == Split(s, prev, p, nest) && pieces + rest == Clauses(s)
    {
      if nest == 0 && s[p] == ',' {
        if |pieces| >= FUNCTION_MAX_ARGS { return pieces, true, inside; }
        inside := inside && |pieces| < FUNCTION_MAX_ARGS;
        ghost var next := Split(s, p + 1, p + 1, nest);
        assert pieces + ([s[prev..p]] + next) == (pieces + [s[prev..p]]) + next;
        pieces, rest := pieces + [s[prev..p]], next;
        prev := p + 1;
      } else if s[p] == '(' {
        nest := nest + 1;
      } else if s[p] == ')' {
        nest := nest - 1;
      }
      p := p + 1;
    }
    inside := inside && |pieces| < FUNCTION_MAX_ARGS;
    pieces := pieces + [s[prev..p]];
    many := false;
  }

  function Commas(n: nat): string { seq(n, i => ',') }

  lemma {:induction false} CommasSplit(n: nat, prev: nat, p: nat)
    requires prev <= p <= n
    ensures |Split(Commas(n), prev, p, 0)| == n - p + 1
    decreases n - p
  {
    if p < n { CommasSplit(n, p + 1, p + 1); }
  }

  /** A clause that is stored beyond the array: FUNCTION_MAX_ARGS commas. */
  lemma CommasOverflow()
    ensures |Clauses(Commas(FUNCTION_MAX_ARGS))| == FUNCTION_MAX_ARGS + 1
  {
    CommasSplit(FUNCTION_MAX_ARGS, 0, 0);
  }

  lemma PrependTwice(a: string, b: string, o: Outcome)
    ensures Prepend(a, Prepend(b, o)) == Prepend(a + b, o)
  {
    assert o.Expanded? ==> a + (b + o.text) == (a + b) + o.text;
  }

  function Extend(texts: seq<string>, r: Pieces): Pieces { if r.Values? then Values(texts + r.texts) else r }

  lemma ExtendTwice(texts: seq<string>, t: string, r: Pieces)
    ensures Extend(texts, Extend([t], r)) == Extend(texts + [t], r)
  {
    assert r.Values? ==> texts + ([t] + r.texts) == (texts + [t]) + r.texts;
  }
}
