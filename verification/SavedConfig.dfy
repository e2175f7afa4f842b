// Saving a configuration and loading it again: symbols are calculated, written,
// read back as user values, and calculated again (tools/kconfig/symbol.c:
// sym_calc_value; tools/kconfig/confdata.c: conf_write, conf_read_simple).
module SavedConfig {
  import opened KconfigExpr
  import opened SymbolDeps
  import opened SymbolValues
  import opened ConfigFile
  import opened ConfigRoundTrip

  // ----- Calculating again -----

  /** The setup after loading: the saved symbols have their values as user values. */
  function Reloaded(c: Setup, v: Valuation, saved: set<Symbol>): Setup { c.(user := map s | s in saved :: v(s)) }

  /** Every visible symbol with a user value is among the saved ones. */
  ghost predicate SavesUserValues(c: Setup, v: Valuation, saved: set<Symbol>) {
    forall s :: s in c.user && Visible(c, s, EnvOf(c, v)) != 0 ==> s in saved
  }

  /** A saved tristate is y by default or implication, while its prompt is visible
      at m only and no reverse dependency asks for y. */
  predicate Lowered(c: Setup, v: Valuation, saved: set<Symbol>, s: Symbol) {
    var env := EnvOf(c, v);
    s in saved && s.Type() == Tristate && Visible(c, s, env) == 1 && v(s).tri == 2 && RevDep(c, s, env) != 2
  }

  /** After loading, a symbol keeps its value unless it is lowered: then it ends at m. */
  lemma ReloadedSymbol(c: Setup, v: Valuation, saved: set<Symbol>, s: Symbol)
    requires Solves(c, v) && SavesUserValues(c, v, saved)
    ensures Defined(Reloaded(c, v, saved), s, v) == v(s) <==> !Lowered(c, v, saved, s)
    ensures Lowered(c, v, saved, s) ==> Defined(Reloaded(c, v, saved), s, v).tri == 1
  {
    assert SolvesAt(c, v, s);
    var (d, env) := (Reloaded(c, v, saved), EnvOf(c, v));
    assert EnvOf(d, v) == env;
    assert Visible(d, s, env) == Visible(c, s, env) && RevDep(d, s, env) == RevDep(c, s, env);
    assert DirDep(d, s, env) == DirDep(c, s, env) && SymbolValues.Implied(d, s, env) == SymbolValues.Implied(c, s, env);
  }

  /** The old values solve the loaded setup exactly when no symbol is lowered. */
  lemma ReloadedSolves(c: Setup, v: Valuation, saved: set<Symbol>)
    requires Solves(c, v) && SavesUserValues(c, v, saved)
    ensures Solves(Reloaded(c, v, saved), v) <==> forall s: Symbol :: !Lowered(c, v, saved, s)
  {
    forall s: Symbol ensures SolvesAt(Reloaded(c, v, saved), v, s) <==> !Lowered(c, v, saved, s) {
      ReloadedSymbol(c, v, saved, s);
    }
  }

  /** On an acyclic table, calculating the loaded setup gives all symbols their
      old values exactly when no symbol is lowered. */
  lemma ReloadExact(c: Setup, v: Valuation, saved: set<Symbol>, w: Valuation)
    requires WellFormed(c) && !Cyclic(c.table) && Solves(c, v) && SavesUserValues(c, v, saved)
    requires Solves(Reloaded(c, v, saved), w)
    ensures (forall s: Symbol :: w(s) == v(s)) <==> forall s: Symbol :: !Lowered(c, v, saved, s)
  {
    var d := Reloaded(c, v, saved);
    ReloadedSolves(c, v, saved);
    if forall s: Symbol :: !Lowered(c, v, saved, s) {
      forall s: Symbol ensures w(s) == v(s) { SolutionUnique(d, v, w, s); }
    } else if forall s: Symbol :: w(s) == v(s) {
      forall s: Symbol ensures SolvesAt(d, v, s) {
        assert SolvesAt(d, w, s);
        DefinedDepends(d, s, w, v);
      }
    }
  }

  /** A symbol that is lowered: default y, and a prompt visible at m. */
  lemma DefaultAbovePrompt(c: Setup, v: Valuation, a: Symbol)
    requires Solves(c, v) && c.modules != 0 && a.Type() == Tristate && a !in c.user && a in c.table
    requires var yes, mod := Some(Sym(SymYes)), Some(Sym(SymMod));
             c.table[a] == SymbolInfo(None, None, None,
                                      [Property(Default, false, None, yes), Property(Prompt, true, mod, None)])
    ensures v(a).tri == 2 && Lowered(c, v, {a}, a)
  {
    assert SolvesAt(c, v, a) && SolvesAt(c, v, SymYes) && SolvesAt(c, v, SymMod);
    var (props, env) := (c.table[a].props, EnvOf(c, v));
    assert props[..1] == [props[0]] && props[..1][..0] == [];
    assert AnyPrompt(props[..1], env) == 0;
    assert AnyPrompt(props, env) == 1;
    assert DefaultTri(props, env) == 2;
  }

  // ----- Through the file -----

  /** What is written for a symbol, and the user value made of what is read. */
  function StoredOf(s: Symbol, v: Content): Stored { if s.IsLogic() then Level(v.tri) else Str(v.val) }
  function ContentOf(v: Stored): Content { if v.Level? then Content(v.tri, "n") else Content(0, v.text) }

  function UserValues(values: map<string, Stored>, saved: set<Symbol>): map<Symbol, Content> {
    map s | s in saved && s.Name() in values :: ContentOf(values[s.Name()])
  }

  lemma StoredComesBack(c: Setup, v: Valuation, s: Symbol)
    requires Solves(c, v) && s.Type() != Unknown
    ensures ContentOf(StoredOf(s, v(s))) == v(s)
  {
    assert SolvesAt(c, v, s);
  }

  /** Each saved symbol has its value under its name. */
  predicate HoldsSaved(values: map<string, Stored>, v: Valuation, saved: set<Symbol>) {
    forall s :: s in saved ==> s.Name() in values && values[s.Name()] == StoredOf(s, v(s))
  }

  lemma UserValuesAreSaved(c: Setup, v: Valuation, saved: set<Symbol>, values: map<string, Stored>)
    requires Solves(c, v) && HoldsSaved(values, v, saved) && forall s :: s in saved ==> s.Type() != Unknown
    ensures UserValues(values, saved) == Reloaded(c, v, saved).user
  {
    forall s | s in saved ensures ContentOf(values[s.Name()]) == v(s) { StoredComesBack(c, v, s); }
  }

  /** Writing the values of the saved symbols and reading the file gives the
      loaded setup its user values. */
  lemma FileReloads(c: Setup, v: Valuation, saved: set<Symbol>, types: map<string, SymbolType>, es: seq<Entry>)
    requires Solves(c, v) && DistinctNames(es) && forall e :: e in es ==> Safe(types, e)
    requires forall s :: s in saved ==> s.Type() != Unknown && Setting(s.Name(), s.Type(), StoredOf(s, v(s))) in es
    ensures UserValues(ReadText(types, map[], FileText(es)), saved) == Reloaded(c, v, saved).user
  {
    ConfigRoundTrip.ConfigRoundTrip(types, es);
    var values := ReadText(types, map[], FileText(es));
    forall s | s in saved ensures s.Name() in values && values[s.Name()] == StoredOf(s, v(s)) {
      var e := Setting(s.Name(), s.Type(), StoredOf(s, v(s)));
      assert e in es && e.Setting?;
    }
    UserValuesAreSaved(c, v, saved, values);
  }
}
