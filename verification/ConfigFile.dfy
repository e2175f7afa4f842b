// Writing symbol values to a .config file and reading them back
// (tools/kconfig/symbol.c: sym_string_valid; tools/kconfig/confdata.c:
// conf_write_symbol, kconfig_print_symbol, kconfig_print_comment,
// conf_set_sym_val, conf_read_simple).
module ConfigFile {
  import opened KconfigExpr
  import opened ConfigQuoting

  // ----- Values -----

  /** What a symbol holds: a tristate, or the text of an int, hex or string. */
  datatype Stored = Level(tri: Tri) | Str(text: string)

  predicate IsDigit(c: char) { '0' <= c <= '9' }
  predicate IsHexDigit(c: char) { IsDigit(c) || 'a' <= c <= 'f' || 'A' <= c <= 'F' }

  function AfterSign(s: string): string { if s != "" && s[0] == '-' then s[1..] else s }

  predicate HasHexPrefix(s: string) { |s| >= 2 && s[0] == '0' && (s[1] == 'x' || s[1] == 'X') }

  function AfterHexPrefix(s: string): string { if HasHexPrefix(s) then s[2..] else s }

  predicate AllDigits(d: string) { forall i :: 0 <= i < |d| ==> IsDigit(d[i]) }
  predicate AllHexDigits(d: string) { forall i :: 0 <= i < |d| ==> IsHexDigit(d[i]) }

  /** A decimal number without leading zeros, after an optional minus sign. */
  predicate IsInt(s: string) {
    var d := AfterSign(s);
    d != "" && AllDigits(d) && (d[0] == '0' ==> |d| == 1)
  }

  /** Hexadecimal digits after an optional 0x. */
  predicate IsHex(s: string) {
    var d := AfterHexPrefix(s);
    d != "" && AllHexDigits(d)
  }

  predicate StringValid(ty: SymbolType, s: string) {
    ty == String || (ty == Int && IsInt(s)) || (ty == Hex && IsHex(s))
  }

  /** sym_string_valid for the three types that hold text, reading the string
      byte by byte up to its terminator. */
  method CheckString(ty: SymbolType, s: string) returns (valid: bool)
    requires ty == String || ty == Int || ty == Hex
    ensures valid <==> StringValid(ty, s)
  {
    if ty == String { return true; }
    if ty == Int {
      var i := if s != "" && s[0] == '-' then 1 else 0;
      ghost var d, start := AfterSign(s), i;
      assert d == s[start..];
      if i == |s| || !IsDigit(s[i]) { return false; }
      if s[i] == '0' && i + 1 < |s| { return false; }
      i := i + 1;
      while i < |s|
        invariant start < i <= |s| && forall k :: 0 <= k < i - start ==> IsDigit(d[k])
      {
        if !IsDigit(s[i]) {
          assert !IsDigit(d[i - start]);
          return false;
        }
        i := i + 1;
      }
      return true;
    }
    var start := if HasHexPrefix(s) then 2 else 0;
    ghost var d := AfterHexPrefix(s);
    assert d == s[start..];
    var i := start;
    if i == |s| { return false; }
    while i < |s|
      invariant start <= i <= |s| && forall k :: 0 <= k < i - start ==> IsHexDigit(d[k])
    {
      if !IsHexDigit(s[i]) {
        assert !IsHexDigit(d[i - start]);
        return false;
      }
      i := i + 1;
    }
    return true;
  }

  /** The value conf_set_sym_val takes from the text after the equals sign. */
  function ReadValue(ty: SymbolType, s: string): Option<Stored> {
    match ty
    case Unknown => None
    case Boolean =>
      if s != "" && s[0] == 'y' then Some(Level(2)) else if s != "" && s[0] == 'n' then Some(Level(0)) else None
    case Tristate =>
      if s != "" && s[0] == 'm' then Some(Level(1))
      else if s != "" && s[0] == 'y' then Some(Level(2))
      else if s != "" && s[0] == 'n' then Some(Level(0)) else None
    case String =>
      if s == "" || s[0] != '"' then None
      else var u := Unescape(s[1..]); if u.Some? then Some(Str(u.value)) else None
    case Int => if IsInt(s) then Some(Str(s)) else None
    case Hex => if IsHex(s) then Some(Str(s)) else None
  }

  // ----- Reading -----

  /** The first position from p on that holds c, or the end. */
  function Scan(s: string, c: char, p: nat): (q: nat)
    requires p <= |s|
    ensures p <= q <= |s| && (forall j :: p <= j < q ==> s[j] != c) && (q < |s| ==> s[q] == c)
    decreases |s| - p
  {
    if p == |s| || s[p] == c then p else Scan(s, c, p + 1)
  }

  function IndexOf(s: string, c: char): nat { Scan(s, c, 0) }

  datatype Line = Ignored | Assigned(name: string, value: string) | Unset(name: string)

  const PREFIX := "CONFIG_"
  const NOT_SET := "is not set"

  /** The value part of a line: its newline and a carriage return before it are dropped. */
  function StripEnd(v: string): string {
    var w := v[..IndexOf(v, NEWLINE)];
    if |w| < |v| && w != "" && w[|w| - 1] == '\r' then w[..|w| - 1] else w
  }

  /** What follows CONFIG_ in a comment: a name, a space and "is not set". */
  function ParseNotSet(rest: string): Line {
    var i := IndexOf(rest, ' ');
    if i < |rest| && NOT_SET <= rest[i + 1..] then Unset(rest[..i]) else Ignored
  }

  /** What follows CONFIG_ at the start of a line: a name, an equals sign and a value. */
  function ParseAssignment(rest: string): Line {
    var i := IndexOf(rest, '=');
    if i < |rest| then Assigned(rest[..i], StripEnd(rest[i + 1..])) else Ignored
  }

  function ParseLine(s: string): Line {
    if s != "" && s[0] == '#' then
      if |s| >= 2 && PREFIX <= s[2..] then ParseNotSet(s[9..]) else Ignored
    else if PREFIX <= s then ParseAssignment(s[7..]) else Ignored
  }

  /** What a remark is read as, from its third byte on. */
  function NotSetLine(rest: string): Line { if PREFIX <= rest then ParseNotSet(rest[7..]) else Ignored }

  /** The line in a buffer. A # alone is read together with the bytes behind its
      terminator. */
  function BufferLine(b: seq<char>): Line
    requires |b| > 2
  {
    if CString(b, 0) == "#" then NotSetLine(CString(b, 2)) else ParseLine(CString(b, 0))
  }

  /** Neither a remark nor an assignment. */
  predicate IsData(s: string) { !("#" <= s) && !(PREFIX <= s) }

  /** sym_find: the names y, m and n belong to constants, which hold no value. */
  function TypeOf(types: map<string, SymbolType>, name: string): SymbolType {
    if name == "y" || name == "m" || name == "n" then Unknown
    else if name in types then types[name] else Unknown
  }

  function Apply(types: map<string, SymbolType>, values: map<string, Stored>, line: Line): map<string, Stored> {
    match line
    case Ignored => values
    case Unset(name) =>
      var ty := TypeOf(types, name);
      if ty == Boolean || ty == Tristate then values[name := Level(0)] else values
    case Assigned(name, s) =>
      var v := ReadValue(TypeOf(types, name), s);
      if v.Some? then values[name := v.value] else values
  }

  /** The length of the first line, its newline included. */
  function LineEnd(t: string): (n: nat)
    ensures n <= |t| && (t != "" ==> n > 0)
  {
    var i := IndexOf(t, NEWLINE);
    if i < |t| then i + 1 else i
  }

  function ReadText(types: map<string, SymbolType>, values: map<string, Stored>, t: string): map<string, Stored>
    decreases |t|
  {
    if t == "" then values
    else
      var n := LineEnd(t);
      ReadText(types, Apply(types, values, ParseLine(CString(t[..n], 0))), t[n..])
  }

  // ----- Reading in the line buffer -----

  lemma {:induction false} CStringDrop(b: seq<char>, p: nat, k: nat)
    requires p <= |b| && k <= |CString(b, p)|
    ensures p + k <= |b| && CString(b, p + k) == CString(b, p)[k..]
    ensures Terminated(b, p) ==> Terminated(b, p + k)
    decreases k
  {
    if k > 0 { CStringDrop(b, p + 1, k - 1); }
    if Terminated(b, p) {
      CStringEnd(b, p);
      assert p + k <= p + |CString(b, p)|;
    }
  }

  lemma RemarkInBuffer(b: seq<char>)
    requires |b| > 2 && b[0] == '#' && Terminated(b, 0)
    ensures BufferLine(b) == NotSetLine(CString(b, 2))
  {
    var s := CString(b, 0);
    assert s == [b[0]] + CString(b, 1);
    if s != "#" {
      assert s == [b[0]] + ([b[1]] + CString(b, 2));
      assert s[2..] == CString(b, 2);
      assert PREFIX <= s[2..] ==> s[9..] == s[2..][7..];
    } else {
      assert CString(b, 1) == "" by { assert s[1..] == CString(b, 1); }
    }
  }

  /** A terminator written inside a string cuts it there; the rest stays readable behind it. */
  lemma CStringCut(b: seq<char>, a: seq<char>, p: nat, k: nat)
    requires p <= |b| == |a| && Terminated(b, p) && k < |CString(b, p)|
    requires p + k < |b| && a == b[p + k := NUL]
    ensures CString(a, p) == CString(b, p)[..k] && Terminated(a, p)
    ensures CString(a, p + k + 1) == CString(b, p)[k + 1..] && Terminated(a, p + k + 1)
  {
    CStringEnd(b, p);
    var n := |CString(b, p)|;
    CStringContent(a, p, k);
    assert a[p..p + k] == b[p..p + n][..k];
    CStringContent(a, p + k + 1, n - k - 1);
    assert a[p + k + 1..p + n] == b[p..p + n][k + 1..];
    assert a[p + n] == NUL;
  }

  /** memcmp with a literal. */
  method Matches(a: array<char>, p: nat, w: string) returns (m: bool)
    requires p <= a.Length && Terminated(a[..], p) && NUL !in w
    ensures m <==> w <= CString(a[..], p)
  {
    CStringEnd(a[..], p);
    ghost var s := CString(a[..], p);
    assert forall k :: 0 <= k < |s| ==> a[p + k] == a[..][p..p + |s|][k] == s[k];
    var i := 0;
    while i < |w|
      invariant i <= |w| && i <= |s| && w[..i] == s[..i]
    {
      if a[p + i] != w[i] {
        assert i == |s| || s[i] != w[i];
        return false;
      }
      i := i + 1;
    }
    m := true;
  }

  /** strchr. */
  method Find(a: array<char>, p: nat, c: char) returns (q: nat, found: bool)
    requires p <= a.Length && Terminated(a[..], p) && c != NUL
    ensures var s := CString(a[..], p); q == p + IndexOf(s, c) && q < a.Length && (found <==> IndexOf(s, c) < |s|)
    ensures !found ==> a[q] == NUL
  {
    CStringEnd(a[..], p);
    ghost var s := CString(a[..], p);
    assert forall k :: 0 <= k < |s| ==> a[p + k] == a[..][p..p + |s|][k] == s[k];
    q := p;
    while a[q] != NUL && a[q] != c
      invariant p <= q <= p + |s| < a.Length && forall k :: 0 <= k < q - p ==> s[k] != c
      decreases a.Length - q
    {
      q := q + 1;
    }
    found := a[q] != NUL;
  }

  class ConfigReader {
    const types: map<string, SymbolType>
    var values: map<string, Stored>

    /** Every symbol starts without a value. */
    constructor (types: map<string, SymbolType>)
      ensures this.types == types && values == map[]
    {
      this.types := types;
      values := map[];
    }

    /** conf_set_sym_val on the value text at position p of the line buffer. */
    method SetSymVal(name: string, a: array<char>, p: nat)
      requires p <= a.Length && Terminated(a[..], p)
      modifies this`values, a
      ensures values == old(Apply(types, values, Assigned(name, CString(a[..], p))))
      ensures old(Ended(a)) ==> Ended(a)
    {
      var ty := TypeOf(types, name);
      ghost var s := CString(a[..], p);
      CStringEnd(a[..], p);
      if ty == Tristate && a[p] == 'm' {
        values := values[name := Level(1)];
      } else if ty == Tristate || ty == Boolean {
        if a[p] == 'y' { values := values[name := Level(2)]; }
        else if a[p] == 'n' { values := values[name := Level(0)]; }
      } else if ty == String {
        if a[p] != '"' { return; }
        CStringDrop(a[..], p, 1);
        var closed := UnescapeInPlace(a, p + 1);
        if !closed { return; }
        values := values[name := Str(CString(a[..], p + 1))];
      } else if ty == Int || ty == Hex {
        var text := CString(a[..], p);
        var valid := CheckString(ty, text);
        if valid { values := values[name := Str(text)]; }
      }
    }

    /** One round of the loop of conf_read_simple; the buffer is cut up on the way.
        After a # the bytes from the third one on are looked at, even if the line
        ends before them. */
    method ReadLine(a: array<char>)
      requires a.Length > 2 && Ended(a)
      modifies this`values, a
      ensures Ended(a)
      ensures values == old(Apply(types, values, BufferLine(a[..])))
      ensures IsData(old(CString(a[..], 0))) ==> a[..] == old(a[..])
    {
      ghost var s := CString(a[..], 0);
      assert a[..][a.Length - 1] == NUL;
      CStringEnd(a[..], 0);
      if a[0] == '#' {
        RemarkInBuffer(a[..]);
        ReadUnset(a);
      } else {
        var symbol := Matches(a, 0, PREFIX);
        if symbol { ReadAssignment(a); }
      }
    }

    method ReadUnset(a: array<char>)
      requires 2 < a.Length && Ended(a)
      modifies this`values, a
      ensures Ended(a)
      ensures values == old(Apply(types, values, NotSetLine(CString(a[..], 2))))
    {
      ghost var s := CString(a[..], 2);
      assert a[..][a.Length - 1] == NUL;
      var m := Matches(a, 2, PREFIX);
      if !m { return; }
      CStringDrop(a[..], 2, 7);
      ghost var rest := CString(a[..], 9);
      assert rest == s[7..];
      var p, found := Find(a, 9, ' ');
      if !found { return; }
      ghost var b := a[..];
      a[p] := NUL;
      CStringCut(b, a[..], 9, p - 9);
      var unset := Matches(a, p + 1, NOT_SET);
      if !unset { return; }
      var name := CString(a[..], 9);
      var ty := TypeOf(types, name);
      if ty == Boolean || ty == Tristate { values := values[name := Level(0)]; }
    }

    method ReadAssignment(a: array<char>)
      requires Terminated(a[..], 0) && PREFIX <= CString(a[..], 0)
      modifies this`values, a
      ensures values == old(Apply(types, values, ParseLine(CString(a[..], 0))))
      ensures old(Ended(a)) ==> Ended(a)
    {
      ghost var s := CString(a[..], 0);
      CStringDrop(a[..], 0, 7);
      assert s[0] == PREFIX[0];
      var p, found := Find(a, 7, '=');
      if !found { return; }
      ghost var b := a[..];
      a[p] := NUL;
      CStringCut(b, a[..], 7, p - 7);
      p := p + 1;
      ghost var v := CString(a[..], p);
      var name := CString(a[..], 7);
      StripLineEnd(a, p);
      assert CString(a[..], p) == StripEnd(v);
      SetSymVal(name, a, p);
    }
  }

  /** The value text loses its newline and a carriage return before it. */
  method StripLineEnd(a: array<char>, p: nat)
    requires 0 < p <= a.Length && Terminated(a[..], p) && a[p - 1] == NUL
    modifies a
    ensures CString(a[..], p) == StripEnd(old(CString(a[..], p))) && Terminated(a[..], p)
    ensures old(Ended(a)) ==> Ended(a)
  {
    ghost var v := CString(a[..], p);
    CStringEnd(a[..], p);
    var p2, found := Find(a, p, NEWLINE);
    if found {
      ghost var b := a[..];
      a[p2] := NUL;
      CStringCut(b, a[..], p, p2 - p);
      p2 := p2 - 1;
      ghost var w := CString(a[..], p);
      CStringEnd(a[..], p);
      assert w != "" ==> w[|w| - 1] == a[..][p..p + |w|][|w| - 1] == a[p2];
      if a[p2] == '\r' {
        b := a[..];
        a[p2] := NUL;
        CStringCut(b, a[..], p, p2 - p);
      }
    }
  }
}
