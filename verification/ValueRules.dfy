// The value of a symbol rule by rule: its prompts, its user value, its first
// default that applies, implications and reverse dependencies
// (tools/kconfig/symbol.c: sym_calc_value, sym_calc_visibility,
// sym_get_default_prop).
module ValueRules {
  import opened KconfigExpr
  import opened SymbolDeps
  import opened SymbolValues

  /** The properties and expressions of s under the values v. */
  function Props(c: Setup, s: Symbol): seq<Property> { InfoOf(c.table, s).props }

  /** i is the first default whose condition is not n; their number if none is. */
  ghost predicate IsFirstUsed(props: seq<Property>, env: Env, i: nat) {
    && i <= |props|
    && (i < |props| ==> props[i].kind == Default && ValueOpt(props[i].visible, env) != 0)
    && forall j :: 0 <= j < i && props[j].kind == Default ==> ValueOpt(props[j].visible, env) == 0
  }

  /** There is exactly one such index. */
  lemma {:induction false} FirstUsedExists(props: seq<Property>, env: Env) returns (i: nat)
    ensures IsFirstUsed(props, env, i) && forall j: nat :: IsFirstUsed(props, env, j) ==> j == i
  {
    i := 0;
    while i < |props| && (props[i].kind != Default || ValueOpt(props[i].visible, env) == 0)
      invariant i <= |props|
      invariant forall j :: 0 <= j < i && props[j].kind == Default ==> ValueOpt(props[j].visible, env) == 0
    {
      i := i + 1;
    }
  }

  lemma {:induction false} FirstDefaultIsFirstUsed(props: seq<Property>, env: Env, i: nat)
    requires IsFirstUsed(props, env, i)
    ensures FirstDefault(props, env) == i
  {
    if i > 0 {
      assert IsFirstUsed(props[1..], env, i - 1);
      FirstDefaultIsFirstUsed(props[1..], env, i - 1);
    }
  }

  /** t is the largest condition of a prompt, n without prompts. */
  ghost predicate IsLargestPrompt(props: seq<Property>, env: Env, t: Tri) {
    && (forall p :: p in props && p.text ==> ValueOpt(p.visible, env) <= t)
    && (t == 0 || exists p :: p in props && p.text && ValueOpt(p.visible, env) == t)
  }

  lemma {:induction false} AnyPromptIsLargest(props: seq<Property>, env: Env)
    ensures IsLargestPrompt(props, env, AnyPrompt(props, env))
  {
    if props != [] {
      var (init, p) := (props[..|props| - 1], props[|props| - 1]);
      AnyPromptIsLargest(init, env);
      assert forall q :: q in props <==> q in init || q == p;
    }
  }

  /** m counts as y for symbols that act as bools. */
  function ForType(c: Setup, s: Symbol, t: Tri): Tri {
    if t == 1 && !(s.Type() == Tristate && c.modules != 0) then 2 else t
  }

  /** The visibility is the largest prompt condition. */
  lemma VisibilityIsLargest(c: Setup, s: Symbol, env: Env, t: Tri)
    requires IsLargestPrompt(Props(c, s), env, t)
    ensures Visible(c, s, env) == ForType(c, s, t)
  {
    AnyPromptIsLargest(Props(c, s), env);
    var u := AnyPrompt(Props(c, s), env);
    if t != 0 {
      var p :| p in Props(c, s) && p.text && ValueOpt(p.visible, env) == t;
    }
    if u != 0 {
      var p :| p in Props(c, s) && p.text && ValueOpt(p.visible, env) == u;
    }
  }

  /** No prompt of s has a condition other than n. */
  ghost predicate Hidden(c: Setup, s: Symbol, env: Env) { IsLargestPrompt(Props(c, s), env, 0) }

  /** A user value on a prompt that is shown: cut to the largest prompt condition
      and raised to the reverse dependency. */
  lemma LogicFromUser(c: Setup, v: Valuation, s: Symbol, prompt: Tri)
    requires Solves(c, v) && s.IsLogic() && s in c.user
    requires IsLargestPrompt(Props(c, s), EnvOf(c, v), prompt) && prompt != 0
    ensures var (env, info) := (EnvOf(c, v), InfoOf(c.table, s));
            var reverse := if info.revDep.Some? then Value(info.revDep.value, env) else 0;
            v(s).tri == ForType(c, s, TriMax(TriMin(c.user[s].tri, ForType(c, s, prompt)), ForType(c, s, reverse)))
  {
    VisibilityIsLargest(c, s, EnvOf(c, v), prompt);
    assert SolvesAt(c, v, s);
  }

  /** Without one: the smaller of the value and the condition of the first default
      that applies, n without one; raised to the implication, if that is not n,
      and then cut to the direct dependency; raised to the reverse dependency. */
  lemma LogicFromDefault(c: Setup, v: Valuation, s: Symbol, i: nat)
    requires Solves(c, v) && s.IsLogic() && (s !in c.user || Hidden(c, s, EnvOf(c, v)))
    requires IsFirstUsed(Props(c, s), EnvOf(c, v), i)
    ensures var (env, info) := (EnvOf(c, v), InfoOf(c.table, s));
            var own := if i == |info.props| then 0
                       else TriMin(ValueOpt(info.props[i].expr, env), ValueOpt(info.props[i].visible, env));
            var implied := if info.implied.Some? then Value(info.implied.value, env) else 0;
            var direct := ForType(c, s, ValueOpt(info.dirDep, env));
            var raised := if implied == 0 then own else TriMin(TriMax(own, ForType(c, s, implied)), direct);
            var reverse := if info.revDep.Some? then Value(info.revDep.value, env) else 0;
            v(s).tri == ForType(c, s, TriMax(raised, ForType(c, s, reverse)))
  {
    FirstDefaultIsFirstUsed(Props(c, s), EnvOf(c, v), i);
    if s in c.user { VisibilityIsLargest(c, s, EnvOf(c, v), 0); }
    assert SolvesAt(c, v, s);
  }

  /** An int, hex or string symbol: the user's text on a prompt that is shown, else
      the text of the symbol its first default that applies names, else "". */
  lemma TextFromUserOrDefault(c: Setup, v: Valuation, s: Symbol, prompt: Tri, i: nat)
    requires Solves(c, v) && s.Type() != Unknown && !s.IsLogic()
    requires IsLargestPrompt(Props(c, s), EnvOf(c, v), prompt) && IsFirstUsed(Props(c, s), EnvOf(c, v), i)
    ensures var props := Props(c, s);
            v(s).val ==
            if prompt != 0 && s in c.user then c.user[s].val
            else if i < |props| && props[i].expr.Some? && props[i].expr.value.Sym? then v(props[i].expr.value.sym).val
            else ""
  {
    FirstDefaultIsFirstUsed(Props(c, s), EnvOf(c, v), i);
    VisibilityIsLargest(c, s, EnvOf(c, v), prompt);
    assert SolvesAt(c, v, s);
  }
}
