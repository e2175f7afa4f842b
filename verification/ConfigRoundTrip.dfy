// Writing a .config file and reading it back (tools/kconfig/confdata.c:
// conf_write_symbol, kconfig_print_symbol, kconfig_print_comment, conf_write,
// conf_read_simple).
module ConfigRoundTrip {
  import opened KconfigExpr
  import opened ConfigQuoting
  import opened ConfigFile

  // ----- Strings -----

  lemma Assoc(a: string, b: string, c: string)
    ensures (a + b) + c == a + (b + c)
  {
  }

  /** The first c stands where the text before it ends. */
  lemma SplitAt(a: string, c: char, b: string)
    requires c !in a
    ensures var t := a + ([c] + b); IndexOf(t, c) == |a| && t[..|a|] == a && t[|a| + 1..] == b
  {
    var t := a + ([c] + b);
    assert t[|a|] == c && forall j :: 0 <= j < |a| ==> t[j] == a[j];
    assert t[|a| + 1..] == ([c] + b)[1..];
  }

  // ----- Writing -----

  function ValueText(ty: SymbolType, v: Stored): string {
    match v
    case Level(t) => Letter(t)
    case Str(s) => if ty == String then Escape(s) else s
  }

  function UnsetLine(name: string): string { "# " + (PREFIX + (name + (" " + NOT_SET))) }
  function AssignLine(name: string, text: string): string { PREFIX + (name + ("=" + text)) }

  function SymbolText(name: string, ty: SymbolType, v: Stored): string {
    if ty == Unknown then ""
    else if (ty == Boolean || ty == Tristate) && v == Level(0) then UnsetLine(name) + "\n"
    else AssignLine(name, ValueText(ty, v)) + "\n"
  }

  function CommentLine(line: string): string { (if line == "" then "#" else "# " + line) + "\n" }

  /** Every line of a comment behind a hash and a space; an empty line is a hash
      alone. The lines that start at p or later. */
  function CommentFrom(s: string, p: nat): string
    requires p <= |s|
    decreases |s| - p
  {
    var q := Scan(s, NEWLINE, p);
    if q < |s| then CommentLine(s[p..q]) + CommentFrom(s, q + 1) else CommentLine(s[p..q])
  }

  lemma CommentUnfolds(s: string, p: nat, q: nat)
    requires p <= |s| && q == Scan(s, NEWLINE, p)
    ensures q == |s| ==> CommentFrom(s, p) == CommentLine(s[p..q])
    ensures q < |s| ==> CommentFrom(s, p) == CommentLine(s[p..q]) + CommentFrom(s, q + 1)
  {
  }

  function CommentText(s: string): string { CommentFrom(s, 0) }

  /** What conf_write puts into the file, in order. */
  datatype Entry =
    | Blank
    | Comment(text: string)
    | Heading(title: string)
    | EndOf(title: string)
    | Setting(name: string, ty: SymbolType, value: Stored)

  function EntryText(e: Entry): string {
    match e
    case Blank => "\n"
    case Comment(s) => CommentText(s)
    case Heading(t) => "\n" + CommentLine("") + CommentLine(t) + CommentLine("")
    case EndOf(t) => CommentLine("end of " + t)
    case Setting(n, ty, v) => SymbolText(n, ty, v)
  }

  function FileText(es: seq<Entry>): string {
    if es == [] then "" else EntryText(es[0]) + FileText(es[1..])
  }

  class ConfigWriter {
    var out: string

    constructor ()
      ensures out == ""
    {
      out := "";
    }

    /** kconfig_print_symbol without the option that skips unset symbols. */
    method PrintSymbol(name: string, ty: SymbolType, v: Stored, text: string)
      requires ty != Unknown && text == ValueText(ty, v)
      requires ty == Boolean || ty == Tristate <==> v.Level?
      modifies this
      ensures out == old(out) + SymbolText(name, ty, v)
    {
      if ty == Boolean || ty == Tristate {
        if text != "" && text[0] == 'n' {
          out := out + (UnsetLine(name) + "\n");
          return;
        }
      }
      out := out + (AssignLine(name, text) + "\n");
    }

    /** conf_write_symbol. */
    method WriteSymbol(name: string, ty: SymbolType, v: Stored)
      requires ty != Unknown ==> (ty == Boolean || ty == Tristate <==> v.Level?)
      modifies this
      ensures out == old(out) + SymbolText(name, ty, v)
    {
      if ty == Unknown {
      } else if ty == String {
        var text, size := EscapeStringValue(v.text);
        PrintSymbol(name, ty, v, text);
      } else {
        PrintSymbol(name, ty, v, ValueText(ty, v));
      }
    }

    /** kconfig_print_comment: one output line for every line of the text. */
    method PrintComment(s: string)
      modifies this
      ensures out == old(out) + CommentText(s)
    {
      var p := 0;
      ghost var rest := CommentText(s);
      while true
        invariant p <= |s| && rest == CommentFrom(s, p) && out + rest == old(out) + CommentText(s)
        decreases |s| - p
      {
        var q;
        q, rest := PrintLineAt(s, p, rest);
        if q == |s| { break; }
        p := q + 1;
      }
    }

    /** The output line for the line of the text that starts at p. */
    method PrintLineAt(s: string, p: nat, ghost rest: string) returns (q: nat, ghost tail: string)
      requires p <= |s| && rest == CommentFrom(s, p)
      modifies this
      ensures p <= q <= |s| && (q < |s| ==> tail == CommentFrom(s, q + 1))
      ensures out + tail == old(out) + rest
      ensures q == |s| ==> out == old(out) + rest
    {
      q := SpanLine(s, p);
      CommentUnfolds(s, p, q);
      tail := if q == |s| then "" else CommentFrom(s, q + 1);
      Assoc(out, CommentLine(s[p..q]), tail);
      PrintLine(s[p..q]);
      assert out + "" == out;
    }

    method WriteEntry(e: Entry)
      requires e.Setting? && e.ty != Unknown ==> (e.ty == Boolean || e.ty == Tristate <==> e.value.Level?)
      modifies this
      ensures out == old(out) + EntryText(e)
    {
      match e {
        case Blank => out := out + "\n";
        case Comment(s) => PrintComment(s);
        case Heading(t) => out := out + ("\n" + CommentLine("") + CommentLine(t) + CommentLine(""));
        case EndOf(t) => out := out + CommentLine("end of " + t);
        case Setting(n, ty, v) => WriteSymbol(n, ty, v);
      }
    }

    method PrintLine(line: string)
      modifies this
      ensures out == old(out) + CommentLine(line)
    {
      out := out + "#";
      if line != "" { out := out + " " + line; }
      out := out + "\n";
    }
  }

  /** The end of the line that starts at p: p plus strcspn(s + p, "\n"). */
  method SpanLine(s: string, p: nat) returns (q: nat)
    requires p <= |s|
    ensures q == Scan(s, NEWLINE, p)
  {
    q := p;
    while q < |s| && s[q] != NEWLINE
      invariant p <= q <= |s| && Scan(s, NEWLINE, p) == Scan(s, NEWLINE, q)
    {
      q := q + 1;
    }
  }

  // ----- Reading back what was written -----

  predicate OneLine(s: string) { NEWLINE !in s && NUL !in s }

  predicate PlainName(name: string) {
    OneLine(name) && ' ' !in name && '=' !in name && name != "y" && name != "m" && name != "n"
  }

  /** Whether a symbol of the type can hold the value and the file can carry it. */
  predicate Fits(ty: SymbolType, v: Stored) {
    match ty
    case Unknown => false
    case Boolean => v == Level(0) || v == Level(2)
    case Tristate => v.Level?
    case String => v.Str? && OneLine(v.text)
    case Int => v.Str? && IsInt(v.text)
    case Hex => v.Str? && IsHex(v.text)
  }

  /** No line of a comment looks like the name of a symbol. */
  predicate Harmless(s: string, p: nat)
    requires p <= |s|
    decreases |s| - p
  {
    var q := Scan(s, NEWLINE, p);
    NUL !in s && !(PREFIX <= s[p..q]) && (q < |s| ==> Harmless(s, q + 1))
  }

  predicate Safe(types: map<string, SymbolType>, e: Entry) {
    match e
    case Blank => true
    case Comment(s) => Harmless(s, 0)
    case Heading(t) => OneLine(t) && !(PREFIX <= t)
    case EndOf(t) => OneLine(t)
    case Setting(n, ty, v) => PlainName(n) && n in types && types[n] == ty && Fits(ty, v)
  }

  function Noted(values: map<string, Stored>, e: Entry): map<string, Stored> {
    if e.Setting? then values[e.name := e.value] else values
  }

  lemma CStringWhole(s: string)
    requires NUL !in s
    ensures CString(s, 0) == s
  {
    CStringContent(s, 0, |s|);
  }

  /** Reading consumes one terminated line at a time. */
  lemma ReadFirst(types: map<string, SymbolType>, values: map<string, Stored>, line: string, rest: string)
    requires OneLine(line)
    ensures ReadText(types, values, (line + "\n") + rest)
         == ReadText(types, Apply(types, values, ParseLine(line + "\n")), rest)
  {
    var t := (line + "\n") + rest;
    Assoc(line, "\n", rest);
    SplitAt(line, NEWLINE, rest);
    assert t[..|line| + 1] == line + "\n";
    CStringWhole(line + "\n");
  }

  lemma {:induction false} EscapeOneLine(s: string)
    requires OneLine(s)
    ensures OneLine(EscapeBody(s))
  {
    if s != "" { EscapeOneLine(s[1..]); }
  }

  function WithoutReturn(s: string): string { if s != "" && s[|s| - 1] == '\r' then s[..|s| - 1] else s }

  /** The value on an assignment line comes back as it was written, except for
      a carriage return at its end. */
  lemma ParseAssigned(name: string, text: string)
    requires PlainName(name) && OneLine(text)
    ensures ParseLine(AssignLine(name, text) + "\n") == Assigned(name, WithoutReturn(text))
  {
    AssignLineShape(name, text);
    AfterPrefix(name + (['='] + (text + "\n")));
    AssignmentParsed(name, text + "\n");
    StripEndOf(text);
  }

  lemma AssignmentParsed(name: string, v: string)
    requires '=' !in name
    ensures ParseAssignment(name + (['='] + v)) == Assigned(name, StripEnd(v))
  {
    SplitAt(name, '=', v);
  }

  lemma AssignLineShape(name: string, text: string)
    ensures AssignLine(name, text) + "\n" == PREFIX + (name + (['='] + (text + "\n")))
  {
  }

  lemma StripEndOf(text: string)
    requires OneLine(text)
    ensures StripEnd(text + "\n") == WithoutReturn(text)
  {
    assert text + (['\n'] + "") == text + "\n";
    SplitAt(text, NEWLINE, "");
  }

  lemma AfterPrefix(rest: string)
    ensures ParseLine(PREFIX + rest) == ParseAssignment(rest)
    ensures ParseLine("# " + (PREFIX + rest)) == ParseNotSet(rest)
  {
    var s := PREFIX + rest;
    assert s[0] == PREFIX[0] && s[7..] == rest;
    var t := "# " + s;
    assert t[0] == '#' && t[2..] == s && t[9..] == rest;
  }

  /** Either form of a line stays one line. */
  lemma LinesAreOneLine(name: string, text: string)
    requires OneLine(name) && OneLine(text)
    ensures OneLine(UnsetLine(name)) && OneLine(AssignLine(name, text))
  {
    assert OneLine("# ") && OneLine(PREFIX) && OneLine(" " + NOT_SET) && OneLine("=");
    assert OneLine(name + (" " + NOT_SET)) && OneLine(name + ("=" + text));
    assert OneLine(PREFIX + (name + (" " + NOT_SET)));
  }

  lemma ParseUnset(name: string)
    requires PlainName(name)
    ensures ParseLine(UnsetLine(name) + "\n") == Unset(name)
  {
    var after := NOT_SET + "\n";
    SplitAt(name, ' ', after);
    assert NOT_SET <= after;
    AfterPrefix(name + ([' '] + after));
    UnsetLineShape(name);
  }

  lemma UnsetLineShape(name: string)
    ensures UnsetLine(name) + "\n" == "# " + (PREFIX + (name + ([' '] + (NOT_SET + "\n"))))
  {
  }

  lemma PrefixOfLine(w: string, text: string)
    requires NEWLINE !in w
    ensures w <= text + "\n" <==> w <= text
  {
    assert forall k :: 0 <= k < |w| ==> w[k] != NEWLINE;
    assert (text + "\n")[|text|] == NEWLINE;
    assert forall k :: 0 <= k < |text| ==> (text + "\n")[k] == text[k];
  }

  lemma ParseRemark(text: string)
    requires !(PREFIX <= text)
    ensures ParseLine("# " + text + "\n") == Ignored
  {
    var s := "# " + text + "\n";
    assert s[0] == '#' && s[2..] == text + "\n";
    PrefixOfLine(PREFIX, text);
  }

  /** The text of a value of each type is read as that value exactly when it fits. */
  lemma ValueReadBack(ty: SymbolType, v: Stored)
    requires ty == Boolean || ty == Tristate <==> v.Level?
    requires ty != Unknown && (v.Str? ==> OneLine(v.text))
    ensures ReadValue(ty, WithoutReturn(ValueText(ty, v))) == Some(v) <==> Fits(ty, v)
  {
    var t := ValueText(ty, v);
    if ty == String {
      UnescapeEscape(v.text, "");
      assert t[0] == '"' && t[1..] == EscapeBody(v.text) + "\"" + "" && t[|t| - 1] == '"';
    } else if v.Str? && t != "" && t[|t| - 1] == '\r' {
      var d, h := AfterSign(t), AfterHexPrefix(t);
      assert d != "" ==> d[|d| - 1] == '\r';
      assert h != "" ==> h[|h| - 1] == '\r';
    }
  }

  function SymbolLine(name: string, ty: SymbolType, v: Stored): string {
    if v == Level(0) then UnsetLine(name) else AssignLine(name, ValueText(ty, v))
  }

  lemma SymbolLineShape(name: string, ty: SymbolType, v: Stored)
    requires PlainName(name) && ty != Unknown && (v.Str? ==> OneLine(v.text))
    requires ty == Boolean || ty == Tristate <==> v.Level?
    ensures OneLine(SymbolLine(name, ty, v)) && SymbolText(name, ty, v) == SymbolLine(name, ty, v) + "\n"
    ensures ParseLine(SymbolText(name, ty, v))
         == (if v == Level(0) then Unset(name) else Assigned(name, WithoutReturn(ValueText(ty, v))))
  {
    if v.Str? { EscapeOneLine(v.text); }
    LinesAreOneLine(name, ValueText(ty, v));
    if v == Level(0) { ParseUnset(name); } else { ParseAssigned(name, ValueText(ty, v)); }
  }

  /** A setting written to the file survives exactly when its symbol can hold it. */
  lemma SettingSurvives(types: map<string, SymbolType>, values: map<string, Stored>, name: string, v: Stored,
                        rest: string)
    requires PlainName(name) && name in types && types[name] != Unknown
    requires types[name] == Boolean || types[name] == Tristate <==> v.Level?
    requires v.Str? ==> OneLine(v.text)
    ensures Fits(types[name], v) ==>
      ReadText(types, values, SymbolText(name, types[name], v) + rest) == ReadText(types, values[name := v], rest)
    ensures ReadText(types, map[], SymbolText(name, types[name], v)) == map[name := v] <==> Fits(types[name], v)
  {
    var ty := types[name];
    var line := SymbolLine(name, ty, v);
    SymbolLineShape(name, ty, v);
    ValueReadBack(ty, v);
    ReadFirst(types, values, line, rest);
    ReadFirst(types, map[], line, "");
    assert line + "\n" + "" == line + "\n";
    assert map[name := v][name] == v;
  }

  /** Reading passes over the text without taking any value from it. */
  ghost predicate Skipped(types: map<string, SymbolType>, values: map<string, Stored>, text: string) {
    forall rest: string {:trigger ReadText(types, values, text + rest)} ::
        ReadText(types, values, text + rest) == ReadText(types, values, rest)
  }

  lemma SkippedAppend(types: map<string, SymbolType>, values: map<string, Stored>, s: string, t: string)
    requires Skipped(types, values, s) && Skipped(types, values, t)
    ensures Skipped(types, values, s + t)
  {
    forall rest: string ensures ReadText(types, values, (s + t) + rest) == ReadText(types, values, rest) {
      Assoc(s, t, rest);
      assert ReadText(types, values, s + (t + rest)) == ReadText(types, values, t + rest);
    }
  }

  lemma IgnoredLineSkipped(types: map<string, SymbolType>, values: map<string, Stored>, line: string)
    requires OneLine(line) && ParseLine(line + "\n") == Ignored
    ensures Skipped(types, values, line + "\n")
  {
    forall rest: string ensures ReadText(types, values, (line + "\n") + rest) == ReadText(types, values, rest) {
      ReadFirst(types, values, line, rest);
    }
  }

  lemma CommentLineSkipped(types: map<string, SymbolType>, values: map<string, Stored>, line: string)
    requires OneLine(line) && !(PREFIX <= line)
    ensures Skipped(types, values, CommentLine(line))
  {
    if line == "" {
      assert ("#" + "\n")[2..] == "";
      IgnoredLineSkipped(types, values, "#");
    } else {
      ParseRemark(line);
      IgnoredLineSkipped(types, values, "# " + line);
    }
  }

  lemma FirstCommentLine(s: string, p: nat) returns (line: string, q: nat)
    requires p <= |s| && Harmless(s, p)
    ensures p <= q <= |s| && OneLine(line) && !(PREFIX <= line)
    ensures q == |s| ==> CommentFrom(s, p) == CommentLine(line)
    ensures q < |s| ==> Harmless(s, q + 1) && CommentFrom(s, p) == CommentLine(line) + CommentFrom(s, q + 1)
  {
    q := Scan(s, NEWLINE, p);
    line := s[p..q];
    CommentUnfolds(s, p, q);
  }

  lemma {:induction false} CommentSkipped(types: map<string, SymbolType>, values: map<string, Stored>, s: string,
                                          p: nat)
    requires p <= |s| && Harmless(s, p)
    ensures Skipped(types, values, CommentFrom(s, p))
    decreases |s| - p
  {
    var line, q := FirstCommentLine(s, p);
    CommentLineSkipped(types, values, line);
    if q < |s| {
      CommentSkipped(types, values, s, q + 1);
      SkippedAppend(types, values, CommentLine(line), CommentFrom(s, q + 1));
    }
  }

  lemma HeadingSkipped(types: map<string, SymbolType>, values: map<string, Stored>, title: string)
    requires OneLine(title) && !(PREFIX <= title)
    ensures Skipped(types, values, EntryText(Heading(title)))
  {
    var a, b, c := "" + "\n", CommentLine(""), CommentLine(title);
    IgnoredLineSkipped(types, values, "");
    CommentLineSkipped(types, values, "");
    CommentLineSkipped(types, values, title);
    SkippedAppend(types, values, a, b);
    SkippedAppend(types, values, a + b, c);
    SkippedAppend(types, values, a + b + c, b);
    assert "" + "\n" == "\n";
  }

  lemma EndSkipped(types: map<string, SymbolType>, values: map<string, Stored>, title: string)
    requires OneLine(title)
    ensures Skipped(types, values, EntryText(EndOf(title)))
  {
    var t := "end of " + title;
    assert t[0] == 'e' && PREFIX[0] == 'C';
    CommentLineSkipped(types, values, t);
  }

  lemma EntryReadBack(types: map<string, SymbolType>, values: map<string, Stored>, e: Entry, rest: string)
    requires Safe(types, e)
    ensures ReadText(types, values, EntryText(e) + rest) == ReadText(types, Noted(values, e), rest)
  {
    match e
    case Blank =>
      IgnoredLineSkipped(types, values, "");
      assert "" + "\n" == EntryText(e);
    case Comment(s) => CommentSkipped(types, values, s, 0);
    case Heading(t) => HeadingSkipped(types, values, t);
    case EndOf(t) => EndSkipped(types, values, t);
    case Setting(n, ty, v) =>
      NumbersAreOneLine(v);
      SettingSurvives(types, values, n, v, rest);
  }

  lemma NumbersAreOneLine(v: Stored)
    ensures v.Str? && (IsInt(v.text) || IsHex(v.text)) ==> OneLine(v.text)
  {
    if v.Str? && (IsInt(v.text) || IsHex(v.text)) {
      var s := v.text;
      var d := if IsInt(s) then AfterSign(s) else AfterHexPrefix(s);
      assert forall k :: 0 <= k < |s| - |d| ==> s[k] == '-' || s[k] == '0' || s[k] == 'x' || s[k] == 'X';
      forall k | 0 <= k < |s| ensures s[k] != NEWLINE && s[k] != NUL {
        assert k >= |s| - |d| ==> s[k] == d[k - (|s| - |d|)];
      }
    }
  }

  /** The settings of a file, in the order in which they are written. */
  function Settings(values: map<string, Stored>, es: seq<Entry>): map<string, Stored>
    decreases |es|
  {
    if es == [] then values else Settings(Noted(values, es[0]), es[1..])
  }

  lemma {:induction false} FileReadBack(types: map<string, SymbolType>, values: map<string, Stored>, es: seq<Entry>)
    requires forall e :: e in es ==> Safe(types, e)
    ensures ReadText(types, values, FileText(es)) == Settings(values, es)
    decreases |es|
  {
    if es != [] {
      EntryReadBack(types, values, es[0], FileText(es[1..]));
      FileReadBack(types, Noted(values, es[0]), es[1..]);
    }
  }

  ghost predicate DistinctNames(es: seq<Entry>) {
    forall i, j :: 0 <= i < j < |es| && es[i].Setting? && es[j].Setting? ==> es[i].name != es[j].name
  }

  lemma {:induction false} SettingsHold(values: map<string, Stored>, es: seq<Entry>)
    requires DistinctNames(es)
    ensures forall e :: e in es && e.Setting? ==>
      e.name in Settings(values, es) && Settings(values, es)[e.name] == e.value
    ensures forall n :: (forall e :: e in es && e.Setting? ==> e.name != n) ==>
      (n in Settings(values, es) <==> n in values) && (n in values ==> Settings(values, es)[n] == values[n])
    decreases |es|
  {
    if es != [] {
      var rest := es[1..];
      assert forall i, j :: 0 <= i < j < |rest| ==> rest[i] == es[i + 1] && rest[j] == es[j + 1];
      SettingsHold(Noted(values, es[0]), rest);
      assert forall e :: e in rest ==> e in es;
      if es[0].Setting? {
        forall e | e in rest && e.Setting? ensures e.name != es[0].name {
          var k :| 0 <= k < |rest| && rest[k] == e;
          assert es[k + 1] == e;
        }
      }
    }
  }

  /** Every value written to a .config file is read back, and nothing else is. */
  lemma ConfigRoundTrip(types: map<string, SymbolType>, es: seq<Entry>)
    requires forall e :: e in es ==> Safe(types, e)
    requires DistinctNames(es)
    ensures var values := ReadText(types, map[], FileText(es));
      (forall e :: e in es && e.Setting? ==> e.name in values && values[e.name] == e.value) &&
      (forall n :: n in values ==> exists e :: e in es && e.Setting? && e.name == n)
  {
    FileReadBack(types, map[], es);
    SettingsHold(map[], es);
  }

  /** The printing half of conf_write: every entry in turn. */
  method WriteConfig(types: map<string, SymbolType>, es: seq<Entry>) returns (writer: ConfigWriter)
    requires forall e :: e in es ==> Safe(types, e)
    ensures fresh(writer) && writer.out == FileText(es)
    ensures ReadText(types, map[], writer.out) == Settings(map[], es)
  {
    writer := new ConfigWriter();
    var i := 0;
    assert es[0..] == es;
    while i < |es|
      invariant i <= |es| && fresh(writer)
      invariant writer.out + FileText(es[i..]) == FileText(es)
    {
      var e := es[i];
      ghost var was := writer.out;
      assert e in es;
      writer.WriteEntry(e);
      assert es[i..][1..] == es[i + 1..];
      Assoc(was, EntryText(e), FileText(es[i + 1..]));
      i := i + 1;
    }
    assert writer.out + "" == writer.out;
    FileReadBack(types, map[], es);
  }
}
