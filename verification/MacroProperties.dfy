// What the expansion counters of Kconfig macros do and do not change
// (tools/kconfig/preprocess.c: variable_expand, eval_clause, __expand_string).
module MacroProperties {
  import opened KconfigExpr
  import opened MacroExpansion

  // ----- The counters never change a result -----

  ghost predicate Below(a: seq<nat>, b: seq<nat>) { |a| == |b| && forall i :: 0 <= i < |a| ==> a[i] <= b[i] }

  /** Whatever expands inside other expansions expands to the same text with
      fewer expansions around it. */
  lemma {:induction false} FewerEntries(m: Macros, c1: seq<nat>, c2: seq<nat>, s: string, p: nat, args: seq<string>)
    requires |c1| == |m.list| && Below(c1, c2) && p <= |s|
    requires ExpandFrom(m, c2, s, p, args).Expanded?
    ensures ExpandFrom(m, c1, s, p, args) == ExpandFrom(m, c2, s, p, args)
    decreases Budget(c2), |s|, 1, |s| - p
  {
    if p == |s| {
    } else if s[p] != '$' || p + 1 == |s| || s[p + 1] != '(' {
      FewerEntries(m, c1, c2, s, p + 1, args);
    } else {
      var q := CloseAt(s, p + 2, 0);
      ClauseWithFewer(m, c1, c2, s[p + 2..q], args);
      FewerEntries(m, c1, c2, s, q + 1, args);
    }
  }

  lemma {:induction false} ClauseWithFewer(m: Macros, c1: seq<nat>, c2: seq<nat>, s: string, args: seq<string>)
    requires |c1| == |m.list| && Below(c1, c2)
    requires EvalClause(m, c2, s, args).Expanded?
    ensures EvalClause(m, c1, s, args) == EvalClause(m, c2, s, args)
    decreases Budget(c2), |s|, 2, 0
  {
    if ArgumentIndex(s, |args|).None? {
      PiecesWithFewer(m, c1, c2, s, Clauses(s), args);
      var texts := ExpandPieces(m, c2, s, Clauses(s), args).texts;
      CallWithFewer(m, c1, c2, texts[0], texts[1..]);
    }
  }

  lemma {:induction false} PiecesWithFewer(m: Macros, c1: seq<nat>, c2: seq<nat>, s: string, pieces: seq<string>,
                                           args: seq<string>)
    requires |c1| == |m.list| && Below(c1, c2) && forall k :: 0 <= k < |pieces| ==> |pieces[k]| <= |s|
    requires ExpandPieces(m, c2, s, pieces, args).Values?
    ensures ExpandPieces(m, c1, s, pieces, args) == ExpandPieces(m, c2, s, pieces, args)
    decreases Budget(c2), |s|, 1, |s| + 1 + |pieces|
  {
    if pieces != [] {
      FewerEntries(m, c1, c2, pieces[0], 0, args);
      PiecesWithFewer(m, c1, c2, s, pieces[1..], args);
    }
  }

  lemma {:induction false} CallWithFewer(m: Macros, c1: seq<nat>, c2: seq<nat>, name: string, args: seq<string>)
    requires |c1| == |m.list| && Below(c1, c2)
    requires Call(m, c2, name, args).Expanded?
    ensures Call(m, c1, name, args) == Call(m, c2, name, args)
    decreases Budget(c2), 0, 1
  {
    var i := Lookup(m.list, name);
    if i.Some? && m.list[i.value].flavor == Recursive {
      EnteringSpendsBudget(c2, i.value);
      FewerEntries(m, c1[i.value := c1[i.value] + 1], c2[i.value := c2[i.value] + 1], m.list[i.value].value, 0, args);
    }
  }

  /** Two expansions of the same string that both come back agree, however many
      expansions are under way around either of them. */
  lemma ExpansionIsUnique(m: Macros, c1: seq<nat>, c2: seq<nat>, s: string, args: seq<string>)
    requires |c1| == |m.list| == |c2|
    requires ExpandFrom(m, c1, s, 0, args).Expanded? && ExpandFrom(m, c2, s, 0, args).Expanded?
    ensures ExpandFrom(m, c1, s, 0, args) == ExpandFrom(m, c2, s, 0, args)
  {
    var zero: seq<nat> := seq(|m.list|, i => 0);
    FewerEntries(m, zero, c1, s, 0, args);
    FewerEntries(m, zero, c2, s, 0, args);
  }

  // ----- What a string refers to -----

  /** A variable together with the arguments it is expanded with. */
  datatype Frame = Frame(variable: nat, args: seq<string>)

  /** Nothing is under expansion. */
  function Idle(m: Macros): (counts: seq<nat>)
    ensures |counts| == |m.list| && forall i :: 0 <= i < |counts| ==> counts[i] == 0
  {
    seq(|m.list|, i => 0)
  }

  /** The parts of the clause s expand to the name and the arguments of g. */
  predicate Calls(m: Macros, s: string, args: seq<string>, g: Frame) {
    var parts := ExpandPieces(m, Idle(m), s, Clauses(s), args);
    parts.Values? && Lookup(m.list, parts.texts[0]) == Some(g.variable) && parts.texts[1..] == g.args
  }

  /** s from position p on holds a reference to g, at any depth: as a clause, in
      an argument, or in a name that is itself computed. */
  predicate Refers(m: Macros, s: string, p: nat, args: seq<string>, g: Frame)
    requires p <= |s|
    decreases |s|, 1, |s| - p
  {
    if p == |s| then false
    else if s[p] != '$' || p + 1 == |s| || s[p + 1] != '(' then Refers(m, s, p + 1, args, g)
    else
      var q := CloseAt(s, p + 2, 0);
      q < |s| && (ClauseRefers(m, s[p + 2..q], args, g) || Refers(m, s, q + 1, args, g))
  }

  predicate ClauseRefers(m: Macros, s: string, args: seq<string>, g: Frame)
    decreases |s|, 2, 0
  {
    && ArgumentIndex(s, |args|).None?
    && (Calls(m, s, args, g) || exists k :: 0 <= k < |Clauses(s)| && Refers(m, Clauses(s)[k], 0, args, g))
  }

  lemma {:induction false} PieceFails(m: Macros, counts: seq<nat>, s: string, pieces: seq<string>, k: nat,
                                      args: seq<string>)
    requires |counts| == |m.list| && k < |pieces| && forall i :: 0 <= i < |pieces| ==> |pieces[i]| <= |s|
    requires ExpandFrom(m, counts, pieces[k], 0, args).Failed?
    ensures ExpandPieces(m, counts, s, pieces, args).Stopped?
    decreases k
  {
    if k > 0 { PieceFails(m, counts, s, pieces[1..], k - 1, args); }
  }

  /** A string fails with any frame it refers to. */
  lemma {:induction false} FailureSpreads(m: Macros, counts: seq<nat>, s: string, p: nat, args: seq<string>, g: Frame)
    requires |counts| == |m.list| && p <= |s| && g.variable < |m.list| && Refers(m, s, p, args, g)
    requires Enter(m, counts, g.variable, g.args).Failed?
    ensures ExpandFrom(m, counts, s, p, args).Failed?
    decreases |s|, 1, |s| - p
  {
    if s[p] != '$' || p + 1 == |s| || s[p + 1] != '(' {
      FailureSpreads(m, counts, s, p + 1, args, g);
    } else {
      var q := CloseAt(s, p + 2, 0);
      if ClauseRefers(m, s[p + 2..q], args, g) {
        ClauseFails(m, counts, s[p + 2..q], args, g);
      } else {
        FailureSpreads(m, counts, s, q + 1, args, g);
      }
    }
  }

  lemma {:induction false} ClauseFails(m: Macros, counts: seq<nat>, s: string, args: seq<string>, g: Frame)
    requires |counts| == |m.list| && g.variable < |m.list| && ClauseRefers(m, s, args, g)
    requires Enter(m, counts, g.variable, g.args).Failed?
    ensures EvalClause(m, counts, s, args).Failed?
    decreases |s|, 2, 0
  {
    var pieces := Clauses(s);
    if Calls(m, s, args, g) {
      if ExpandPieces(m, counts, s, pieces, args).Values? { PiecesWithFewer(m, Idle(m), counts, s, pieces, args); }
    } else {
      var k :| 0 <= k < |pieces| && Refers(m, pieces[k], 0, args, g);
      FailureSpreads(m, counts, pieces[k], 0, args, g);
      PieceFails(m, counts, s, pieces, k, args);
    }
  }

  // ----- Recursion is reported -----

  /** Expanding f comes to g. */
  predicate Leads(m: Macros, f: Frame, g: Frame) {
    && f.variable < |m.list| && g.variable < |m.list| && m.list[f.variable].flavor == Recursive
    && Refers(m, m.list[f.variable].value, 0, f.args, g)
  }

  predicate IsChain(m: Macros, path: seq<Frame>)
    decreases |path|
  {
    path != [] && path[0].variable < |m.list| && (|path| > 1 ==> Leads(m, path[0], path[1]) && IsChain(m, path[1..]))
  }

  ghost predicate EndsIn(m: Macros, path: seq<Frame>, i: nat) {
    IsChain(m, path) && path[|path| - 1] == Frame(i, []) && i < |m.list|
  }

  /** If f leads to g, and g fails while f is under expansion, then f fails. */
  lemma EntryFails(m: Macros, counts: seq<nat>, f: Frame, g: Frame)
    requires |counts| == |m.list| && Leads(m, f, g)
    requires Enter(m, counts[f.variable := counts[f.variable] + 1], g.variable, g.args).Failed?
    ensures Enter(m, counts, f.variable, f.args).Failed?
  {
    FailureSpreads(m, counts[f.variable := counts[f.variable] + 1], m.list[f.variable].value, 0, f.args, g);
  }

  /** A chain of references that ends, without arguments, in a variable under
      expansion is reported. */
  lemma {:induction false} ChainFails(m: Macros, counts: seq<nat>, path: seq<Frame>, i: nat)
    requires |counts| == |m.list| && EndsIn(m, path, i) && counts[i] > 0
    ensures Enter(m, counts, path[0].variable, path[0].args).Failed?
    decreases |path|
  {
    if |path| > 1 {
      var v := path[0].variable;
      assert path[1..][|path| - 2] == path[|path| - 1];
      ChainFails(m, counts[v := counts[v] + 1], path[1..], i);
      EntryFails(m, counts, path[0], path[1]);
    }
  }

  /** So is one on which the variable of its end was entered before. */
  lemma {:induction false} CycleFails(m: Macros, counts: seq<nat>, path: seq<Frame>, k: nat)
    requires |counts| == |m.list| && k < |path| - 1 && EndsIn(m, path, path[k].variable)
    ensures Enter(m, counts, path[0].variable, path[0].args).Failed?
    decreases k
  {
    var v := path[0].variable;
    assert path[1..][|path| - 2] == path[|path| - 1];
    if k == 0 {
      ChainFails(m, counts[v := counts[v] + 1], path[1..], v);
    } else {
      CycleFails(m, counts[v := counts[v] + 1], path[1..], k - 1);
    }
    EntryFails(m, counts, path[0], path[1]);
  }

  /** A variable that reaches itself without arguments, through whatever names,
      arguments and other variables, is always reported: no expansion of a
      string that refers to it comes back. */
  lemma SelfReferenceReported(m: Macros, counts: seq<nat>, path: seq<Frame>, k: nat, s: string, args: seq<string>)
    requires |counts| == |m.list| && k < |path| - 1 && EndsIn(m, path, path[k].variable)
    requires Refers(m, s, 0, args, path[0])
    ensures ExpandFrom(m, counts, s, 0, args).Failed?
  {
    CycleFails(m, counts, path, k);
    FailureSpreads(m, counts, s, 0, args, path[0]);
  }

  predicate LeadsAt(m: Macros, frames: nat -> Frame, n: nat) { Leads(m, frames(n), frames(n + 1)) }

  /** References that go on for ever are reported too, even if the arguments
      differ each time. */
  lemma {:induction false} EndlessReported(m: Macros, counts: seq<nat>, frames: nat -> Frame, n: nat)
    requires |counts| == |m.list| && forall k: nat :: LeadsAt(m, frames, k)
    ensures frames(n).variable < |m.list| && Enter(m, counts, frames(n).variable, frames(n).args).Failed?
    decreases Budget(counts)
  {
    assert LeadsAt(m, frames, n);
    var v := frames(n).variable;
    if counts[v] <= MAX_DEPTH {
      EnteringSpendsBudget(counts, v);
      EndlessReported(m, counts[v := counts[v] + 1], frames, n + 1);
      EntryFails(m, counts, frames(n), frames(n + 1));
    }
  }

  // ----- Recursion in the text -----

  /** s names a variable with n arguments, at any depth; argc is the number of
      arguments s itself is expanded with. */
  predicate Names(s: string, p: nat, argc: nat, name: string, n: nat)
    requires p <= |s|
    decreases |s|, 1, |s| - p
  {
    if p == |s| then false
    else if s[p] != '$' || p + 1 == |s| || s[p + 1] != '(' then Names(s, p + 1, argc, name, n)
    else
      var q := CloseAt(s, p + 2, 0);
      q < |s| && (ClauseNames(s[p + 2..q], argc, name, n) || Names(s, q + 1, argc, name, n))
  }

  predicate ClauseNames(s: string, argc: nat, name: string, n: nat)
    decreases |s|, 2, 0
  {
    && ArgumentIndex(s, argc).None?
    && (('$' !in name && Clauses(s)[0] == name && |Clauses(s)| == n + 1)
        || exists k :: 0 <= k < |Clauses(s)| && Names(Clauses(s)[k], 0, argc, name, n))
  }

  lemma {:induction false} PlainIsItself(m: Macros, counts: seq<nat>, s: string, p: nat, args: seq<string>)
    requires |counts| == |m.list| && p <= |s| && '$' !in s
    ensures ExpandFrom(m, counts, s, p, args) == Expanded(s[p..])
    decreases |s| - p
  {
    if p < |s| {
      PlainIsItself(m, counts, s, p + 1, args);
      assert s[p..] == [s[p]] + s[p + 1..];
    }
  }

  /** The variable j fails with any n arguments. */
  ghost predicate AlwaysFails(m: Macros, counts: seq<nat>, j: nat, n: nat)
    requires |counts| == |m.list|
  {
    j < |m.list| && Lookup(m.list, m.list[j].name) == Some(j) && forall a :: |a| == n ==> Enter(m, counts, j, a).Failed?
  }

  lemma {:induction false} NamedFailureSpreads(m: Macros, counts: seq<nat>, s: string, p: nat, args: seq<string>,
                                               j: nat, n: nat)
    requires |counts| == |m.list| && p <= |s| && AlwaysFails(m, counts, j, n)
    requires Names(s, p, |args|, m.list[j].name, n)
    ensures ExpandFrom(m, counts, s, p, args).Failed?
    decreases |s|, 1, |s| - p
  {
    if s[p] != '$' || p + 1 == |s| || s[p + 1] != '(' {
      NamedFailureSpreads(m, counts, s, p + 1, args, j, n);
    } else {
      var q := CloseAt(s, p + 2, 0);
      if ClauseNames(s[p + 2..q], |args|, m.list[j].name, n) {
        NamedClauseFails(m, counts, s[p + 2..q], args, j, n);
      } else {
        NamedFailureSpreads(m, counts, s, q + 1, args, j, n);
      }
    }
  }

  lemma {:induction false} NamedClauseFails(m: Macros, counts: seq<nat>, s: string, args: seq<string>, j: nat, n: nat)
    requires |counts| == |m.list| && AlwaysFails(m, counts, j, n)
    requires ClauseNames(s, |args|, m.list[j].name, n)
    ensures EvalClause(m, counts, s, args).Failed?
    decreases |s|, 2, 0
  {
    var (pieces, name) := (Clauses(s), m.list[j].name);
    if '$' !in name && pieces[0] == name && |pieces| == n + 1 {
      PlainIsItself(m, counts, name, 0, args);
      assert name[0..] == name;
    } else {
      var k :| 0 <= k < |pieces| && Names(pieces[k], 0, |args|, name, n);
      NamedFailureSpreads(m, counts, pieces[k], 0, args, j, n);
      PieceFails(m, counts, s, pieces, k, args);
    }
  }

  /** A variable and the number of arguments it is expanded with. */
  datatype Site = Site(variable: nat, argc: nat)

  /** The value of f names g. */
  predicate Mentions(m: Macros, f: Site, g: Site) {
    && f.variable < |m.list| && g.variable < |m.list| && m.list[f.variable].flavor == Recursive
    && Lookup(m.list, m.list[g.variable].name) == Some(g.variable)
    && Names(m.list[f.variable].value, 0, f.argc, m.list[g.variable].name, g.argc)
  }

  predicate IsTrail(m: Macros, path: seq<Site>)
    decreases |path|
  {
    path != [] && path[0].variable < |m.list| && (|path| > 1 ==> Mentions(m, path[0], path[1]) && IsTrail(m, path[1..]))
  }

  ghost predicate TrailEndsIn(m: Macros, path: seq<Site>, i: nat) {
    IsTrail(m, path) && path[|path| - 1] == Site(i, 0) && i < |m.list|
  }

  lemma SiteFails(m: Macros, counts: seq<nat>, f: Site, g: Site, args: seq<string>)
    requires |counts| == |m.list| && Mentions(m, f, g) && |args| == f.argc
    requires forall a :: |a| == g.argc ==> Enter(m, counts[f.variable := counts[f.variable] + 1], g.variable, a).Failed?
    ensures Enter(m, counts, f.variable, args).Failed?
  {
    NamedFailureSpreads(m, counts[f.variable := counts[f.variable] + 1], m.list[f.variable].value, 0, args,
        g.variable, g.argc);
  }

  lemma {:induction false} TrailFails(m: Macros, counts: seq<nat>, path: seq<Site>, i: nat, args: seq<string>)
    requires |counts| == |m.list| && TrailEndsIn(m, path, i) && counts[i] > 0 && |args| == path[0].argc
    ensures Enter(m, counts, path[0].variable, args).Failed?
    decreases |path|
  {
    if |path| > 1 {
      var v := path[0].variable;
      assert path[1..][|path| - 2] == path[|path| - 1];
      forall a | |a| == path[1].argc ensures Enter(m, counts[v := counts[v] + 1], path[1].variable, a).Failed? {
        TrailFails(m, counts[v := counts[v] + 1], path[1..], i, a);
      }
      SiteFails(m, counts, path[0], path[1], args);
    }
  }

  lemma {:induction false} LoopFails(m: Macros, counts: seq<nat>, path: seq<Site>, k: nat, args: seq<string>)
    requires |counts| == |m.list| && k < |path| - 1 && TrailEndsIn(m, path, path[k].variable) && |args| == path[0].argc
    ensures Enter(m, counts, path[0].variable, args).Failed?
    decreases k
  {
    var v := path[0].variable;
    assert path[1..][|path| - 2] == path[|path| - 1];
    forall a | |a| == path[1].argc ensures Enter(m, counts[v := counts[v] + 1], path[1].variable, a).Failed? {
      if k == 0 {
        TrailFails(m, counts[v := counts[v] + 1], path[1..], v, a);
      } else {
        LoopFails(m, counts[v := counts[v] + 1], path[1..], k - 1, a);
      }
    }
    SiteFails(m, counts, path[0], path[1], args);
  }

  /** The same read off the text alone: when the names written in the values
      lead back to a variable without arguments, every string that names the
      start is reported, whatever the arguments on the way expand to. */
  lemma SelfMentionReported(m: Macros, counts: seq<nat>, path: seq<Site>, k: nat, s: string, args: seq<string>)
    requires |counts| == |m.list| && k < |path| - 1 && TrailEndsIn(m, path, path[k].variable)
    requires Lookup(m.list, m.list[path[0].variable].name) == Some(path[0].variable)
    requires Names(s, 0, |args|, m.list[path[0].variable].name, path[0].argc)
    ensures ExpandFrom(m, counts, s, 0, args).Failed?
  {
    forall a | |a| == path[0].argc ensures Enter(m, counts, path[0].variable, a).Failed? {
      LoopFails(m, counts, path, k, a);
    }
    NamedFailureSpreads(m, counts, s, 0, args, path[0].variable, path[0].argc);
  }

  // ----- References without recursion -----

  /** Every reference of s, at any depth, is closed and has few enough parts. */
  predicate Closed(s: string, p: nat)
    requires p <= |s|
    decreases |s|, 1, |s| - p
  {
    if p == |s| then true
    else if s[p] != '$' || p + 1 == |s| || s[p + 1] != '(' then Closed(s, p + 1)
    else
      var q := CloseAt(s, p + 2, 0);
      q < |s| && ClosedClause(s[p + 2..q]) && Closed(s, q + 1)
  }

  predicate ClosedClause(s: string)
    decreases |s|, 2, 0
  {
    |Clauses(s)| <= FUNCTION_MAX_ARGS + 1 && forall k :: 0 <= k < |Clauses(s)| ==> Closed(Clauses(s)[k], 0)
  }

  /** With args, s refers from position p on to variables of lower rank only. */
  ghost predicate RefersBelow(m: Macros, rank: nat -> nat, s: string, p: nat, args: seq<string>, r: nat)
    requires p <= |s|
  {
    forall g :: Refers(m, s, p, args, g) ==> rank(g.variable) < r
  }

  /** Values are closed and refer to variables of lower rank only; no built-in
      function stops the program. */
  ghost predicate Ranked(m: Macros, rank: nat -> nat) {
    && (forall i :: 0 <= i < |m.list| && m.list[i].flavor == Recursive ==> Closed(m.list[i].value, 0))
    && (forall i, args :: 0 <= i < |m.list| && m.list[i].flavor == Recursive ==>
          RefersBelow(m, rank, m.list[i].value, 0, args, rank(i)))
    && (forall name, args :: m.builtin(name, args).Some? ==> m.builtin(name, args).value.Expanded?)
  }

  ghost predicate FreeBelow(m: Macros, rank: nat -> nat, counts: seq<nat>, r: nat) {
    |counts| == |m.list| && forall j :: 0 <= j < |counts| && rank(j) < r ==> counts[j] == 0
  }

  /** The counters report nothing else: without recursion every closed text expands. */
  lemma {:induction false} RankedExpands(m: Macros, rank: nat -> nat, counts: seq<nat>, s: string, p: nat,
                                         args: seq<string>, r: nat)
    requires Ranked(m, rank) && FreeBelow(m, rank, counts, r) && p <= |s|
    requires Closed(s, p) && RefersBelow(m, rank, s, p, args, r)
    ensures ExpandFrom(m, counts, s, p, args).Expanded?
    decreases r, |s|, 1, |s| - p
  {
    if p == |s| {
    } else if s[p] != '$' || p + 1 == |s| || s[p + 1] != '(' {
      assert forall g :: Refers(m, s, p + 1, args, g) ==> Refers(m, s, p, args, g);
      RankedExpands(m, rank, counts, s, p + 1, args, r);
    } else {
      var q := CloseAt(s, p + 2, 0);
      assert forall g :: Refers(m, s, q + 1, args, g) ==> Refers(m, s, p, args, g);
      assert forall g :: ClauseRefers(m, s[p + 2..q], args, g) ==> Refers(m, s, p, args, g);
      RankedClause(m, rank, counts, s[p + 2..q], args, r);
      RankedExpands(m, rank, counts, s, q + 1, args, r);
    }
  }

  lemma {:induction false} RankedClause(m: Macros, rank: nat -> nat, counts: seq<nat>, s: string, args: seq<string>,
                                        r: nat)
    requires Ranked(m, rank) && FreeBelow(m, rank, counts, r) && ClosedClause(s)
    requires forall g :: ClauseRefers(m, s, args, g) ==> rank(g.variable) < r
    ensures EvalClause(m, counts, s, args).Expanded?
    decreases r, |s|, 2, 0
  {
    if ArgumentIndex(s, |args|).None? {
      var pieces := Clauses(s);
      forall k | 0 <= k < |pieces| ensures RefersBelow(m, rank, pieces[k], 0, args, r) {
        forall g | Refers(m, pieces[k], 0, args, g) ensures rank(g.variable) < r { assert ClauseRefers(m, s, args, g); }
      }
      RankedPieces(m, rank, counts, s, pieces, args, r);
      PiecesWithFewer(m, Idle(m), counts, s, pieces, args);
      var texts := ExpandPieces(m, counts, s, pieces, args).texts;
      var found := Lookup(m.list, texts[0]);
      if found.Some? { assert ClauseRefers(m, s, args, Frame(found.value, texts[1..])); }
      RankedCall(m, rank, counts, texts[0], texts[1..], r);
    }
  }

  lemma {:induction false} RankedPieces(m: Macros, rank: nat -> nat, counts: seq<nat>, s: string, pieces: seq<string>,
                                        args: seq<string>, r: nat)
    requires Ranked(m, rank) && FreeBelow(m, rank, counts, r)
    requires forall k :: 0 <= k < |pieces| ==>
      |pieces[k]| <= |s| && Closed(pieces[k], 0) && RefersBelow(m, rank, pieces[k], 0, args, r)
    ensures ExpandPieces(m, counts, s, pieces, args).Values?
    decreases r, |s|, 1, |s| + 1 + |pieces|
  {
    if pieces != [] {
      RankedExpands(m, rank, counts, pieces[0], 0, args, r);
      RankedPieces(m, rank, counts, s, pieces[1..], args, r);
    }
  }

  lemma {:induction false} RankedCall(m: Macros, rank: nat -> nat, counts: seq<nat>, name: string, args: seq<string>,
                                      r: nat)
    requires Ranked(m, rank) && FreeBelow(m, rank, counts, r)
    requires Lookup(m.list, name).Some? ==> rank(Lookup(m.list, name).value) < r
    ensures Call(m, counts, name, args).Expanded?
    decreases r, 0, 0, 0
  {
    var found := Lookup(m.list, name);
    if found.Some? && m.list[found.value].flavor == Recursive {
      var i := found.value;
      RankedExpands(m, rank, counts[i := counts[i] + 1], m.list[i].value, 0, args, rank(i));
    }
  }
}
