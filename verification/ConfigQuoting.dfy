// Quoted strings of a .config file: escaping them in two passes
// (tools/kconfig/symbol.c: sym_escape_string_value) and unescaping them inside
// the line buffer (tools/kconfig/confdata.c: conf_set_sym_val).
module ConfigQuoting {
  import opened KconfigExpr

  const NUL: char := 0 as char
  const NEWLINE: char := '\n'

  // ----- Quoting -----

  predicate IsSpecial(c: char) { c == '"' || c == '\\' }

  function EscapeBody(s: string): string {
    if s == "" then ""
    else if IsSpecial(s[0]) then ['\\', s[0]] + EscapeBody(s[1..])
    else [s[0]] + EscapeBody(s[1..])
  }

  /** A string value between quotes, its quotes and backslashes escaped. */
  function Escape(s: string): string { "\"" + EscapeBody(s) + "\"" }

  function Specials(s: string): nat {
    if s == "" then 0 else (if IsSpecial(s[0]) then 1 else 0) + Specials(s[1..])
  }

  lemma {:induction false} EscapeLength(s: string)
    ensures |Escape(s)| == |s| + Specials(s) + 2
  {
    if s != "" {
      EscapeLength(s[1..]);
      assert |Escape(s)| == 2 + |EscapeBody(s)| && |Escape(s[1..])| == 2 + |EscapeBody(s[1..])|;
    }
  }

  lemma {:induction false} EscapeAppend(s: string, t: string)
    ensures EscapeBody(s + t) == EscapeBody(s) + EscapeBody(t)
    ensures Specials(s + t) == Specials(s) + Specials(t)
  {
    if s == "" {
      assert s + t == t;
    } else {
      assert (s + t)[1..] == s[1..] + t;
      EscapeAppend(s[1..], t);
    }
  }

  lemma {:induction false} PlainUnchanged(s: string)
    requires forall i :: 0 <= i < |s| ==> !IsSpecial(s[i])
    ensures EscapeBody(s) == s && Specials(s) == 0
  {
    if s != "" { PlainUnchanged(s[1..]); }
  }

  /** strcspn(s + p, "\"\\"): the length of the run without special characters. */
  method SpanPlain(s: string, p: nat) returns (l: nat)
    requires p <= |s|
    ensures p + l <= |s| && (forall i :: p <= i < p + l ==> !IsSpecial(s[i]))
    ensures p + l < |s| ==> IsSpecial(s[p + l])
  {
    l := 0;
    while p + l < |s| && !IsSpecial(s[p + l])
      invariant p + l <= |s| && forall i :: p <= i < p + l ==> !IsSpecial(s[i])
    {
      l := l + 1;
    }
  }

  /** The first pass of sym_escape_string_value: the size to allocate. */
  method EscapedSize(s: string) returns (size: nat)
    ensures size == |Escape(s)| + 1
  {
    size := |s| + 2 + 1;
    var p := 0;
    while true
      invariant p <= |s| && size == |s| + 3 + Specials(s[..p])
      decreases |s| - p
    {
      var l := SpanPlain(s, p);
      ExtendPlain(s, p, l);
      p := p + l;
      if p == |s| { break; }
      ExtendSpecial(s, p);
      size := size + 1;
      p := p + 1;
    }
    assert s[..|s|] == s;
    EscapeLength(s);
  }

  /** The second pass: the bytes themselves. */
  method WriteEscaped(s: string) returns (res: string)
    ensures res == Escape(s)
  {
    var body := "";
    var p := 0;
    while true
      invariant p <= |s| && body == EscapeBody(s[..p])
      decreases |s| - p
    {
      var l := SpanPlain(s, p);
      ExtendPlain(s, p, l);
      body := body + s[p..p + l];
      p := p + l;
      if p == |s| { break; }
      ExtendSpecial(s, p);
      body := body + ['\\', s[p]];
      p := p + 1;
    }
    assert s[..|s|] == s;
    res := "\"" + body + "\"";
  }

  /** sym_escape_string_value: the first pass computes the size to allocate,
      terminator included, the second writes exactly that many bytes. */
  method EscapeStringValue(s: string) returns (res: string, size: nat)
    ensures res == Escape(s)
    ensures size == |res| + 1
  {
    size := EscapedSize(s);
    res := WriteEscaped(s);
  }

  lemma ExtendPlain(s: string, p: nat, l: nat)
    requires p + l <= |s| && forall i :: p <= i < p + l ==> !IsSpecial(s[i])
    ensures EscapeBody(s[..p + l]) == EscapeBody(s[..p]) + s[p..p + l]
    ensures Specials(s[..p + l]) == Specials(s[..p])
  {
    assert s[..p + l] == s[..p] + s[p..p + l];
    EscapeAppend(s[..p], s[p..p + l]);
    PlainUnchanged(s[p..p + l]);
  }

  lemma ExtendSpecial(s: string, p: nat)
    requires p < |s| && IsSpecial(s[p])
    ensures EscapeBody(s[..p + 1]) == EscapeBody(s[..p]) + ['\\', s[p]]
    ensures Specials(s[..p + 1]) == Specials(s[..p]) + 1
  {
    assert s[..p + 1] == s[..p] + [s[p]];
    EscapeAppend(s[..p], [s[p]]);
    assert [s[p]][1..] == "";
    assert EscapeBody([s[p]]) == ['\\', s[p]] + EscapeBody("");
  }

  /** The text up to the first unescaped quote, its escapes resolved; None when
      no quote closes it. */
  function Unescape(s: string): Option<string> {
    if s == "" then None
    else if s[0] == '"' then Some("")
    else if s[0] == '\\' then
      if |s| == 1 then None else Prepend(s[1], Unescape(s[2..]))
    else Prepend(s[0], Unescape(s[1..]))
  }

  function Prepend(c: char, s: Option<string>): Option<string> { if s.Some? then Some([c] + s.value) else None }

  /** Unescaping undoes escaping, whatever follows the closing quote. */
  lemma {:induction false} UnescapeEscape(s: string, rest: string)
    ensures Unescape(EscapeBody(s) + "\"" + rest) == Some(s)
  {
    var t := EscapeBody(s) + "\"" + rest;
    if s != "" {
      UnescapeEscape(s[1..], rest);
      var u := EscapeBody(s[1..]) + "\"" + rest;
      if IsSpecial(s[0]) {
        assert t == ['\\', s[0]] + u;
        assert t[2..] == u;
      } else {
        assert t == [s[0]] + u;
        assert t[1..] == u;
      }
      assert s == [s[0]] + s[1..];
    }
  }

  // ----- Unescaping in the line buffer -----

  /** The C string that starts at position i of a buffer. */
  function CString(b: seq<char>, i: nat): string
    requires i <= |b|
    decreases |b| - i
  {
    if i == |b| || b[i] == NUL then "" else [b[i]] + CString(b, i + 1)
  }

  /** The string starting at i is terminated inside the buffer. */
  predicate Terminated(b: seq<char>, i: nat) { exists j :: i <= j < |b| && b[j] == NUL }

  /** The last byte of the buffer is a terminator. */
  predicate Ended(a: array<char>)
    reads a
  {
    a.Length > 0 && a[a.Length - 1] == NUL
  }

  lemma {:induction false} CStringContent(b: seq<char>, i: nat, k: nat)
    requires i + k <= |b| && forall j :: i <= j < i + k ==> b[j] != NUL
    ensures CString(b, i) == b[i..i + k] + CString(b, i + k)
    decreases k
  {
    if k > 0 {
      CStringContent(b, i + 1, k - 1);
      assert b[i..i + k] == [b[i]] + b[i + 1..i + k];
      assert ([b[i]] + b[i + 1..i + k]) + CString(b, i + k) == [b[i]] + (b[i + 1..i + k] + CString(b, i + k));
    }
  }

  lemma {:induction false} CStringEnd(b: seq<char>, i: nat)
    requires i <= |b| && Terminated(b, i)
    ensures var n := |CString(b, i)|; i + n < |b| && b[i + n] == NUL && b[i..i + n] == CString(b, i)
    ensures forall j :: i <= j < i + |CString(b, i)| ==> b[j] != NUL
    decreases |b| - i
  {
    if b[i] != NUL {
      CStringEnd(b, i + 1);
      var n := |CString(b, i + 1)|;
      assert CString(b, i) == [b[i]] + CString(b, i + 1);
      assert b[i..i + 1 + n] == [b[i]] + b[i + 1..i + 1 + n];
    } else {
      assert CString(b, i) == "" && b[i..i] == "";
    }
  }

  /** Unescaping a text that begins with plain characters. */
  lemma {:induction false} UnescapePlain(plain: string, s: string)
    requires forall i :: 0 <= i < |plain| ==> !IsSpecial(plain[i])
    ensures Unescape(plain + s) == (if Unescape(s).Some? then Some(plain + Unescape(s).value) else None)
  {
    if plain == "" {
      assert plain + s == s;
      assert Unescape(s).Some? ==> plain + Unescape(s).value == Unescape(s).value;
    } else {
      assert (plain + s)[1..] == plain[1..] + s;
      UnescapePlain(plain[1..], s);
      assert Unescape(s).Some? ==> plain + Unescape(s).value == [plain[0]] + (plain[1..] + Unescape(s).value);
    }
  }

  function PrependAll(s: string, o: Option<string>): Option<string> { if o.Some? then Some(s + o.value) else None }

  /** memmove(p, p + 1, strlen(p)): drops the byte at p, the terminator moves too. */
  method DropByte(a: array<char>, p: nat)
    requires p < a.Length && a[p] != NUL && Terminated(a[..], p)
    modifies a
    ensures a[..p] == old(a[..p])
    ensures CString(a[..], p) == old(CString(a[..], p + 1)) && Terminated(a[..], p)
    ensures a[p] != NUL ==> CString(a[..], p + 1) == old(CString(a[..], p + 2)) && Terminated(a[..], p + 1)
    ensures a[p] == NUL ==> CString(a[..], p + 1) == "" && Terminated(a[..], p + 1)
    ensures old(Ended(a)) ==> Ended(a)
  {
    ghost var b := a[..];
    ghost var n := |CString(b, p)|;
    CStringEnd(b, p);
    var i := p;
    while a[i] != NUL
      invariant p <= i <= p + n < a.Length
      invariant a[..p] == b[..p] && a[p..i] == b[p + 1..i + 1] && a[i..] == b[i..]
      decreases a.Length - i
    {
      a[i] := a[i + 1];
      i := i + 1;
    }
    assert a[i..] == b[i..] && a[i] == b[i];
    assert a[a.Length - 1] == a[i..][a.Length - 1 - i] == b[a.Length - 1];
    Shifted(b, a[..], p, n);
  }

  lemma Shifted(b: seq<char>, a: seq<char>, p: nat, n: nat)
    requires p < |b| == |a| && n == |CString(b, p)| > 0 && Terminated(b, p) && p + n < |b|
    requires a[p..p + n] == b[p + 1..p + n + 1] && a[p + n..] == b[p + n..]
    ensures CString(a, p) == CString(b, p + 1) && Terminated(a, p) && Terminated(a, p + 1)
    ensures a[p] != NUL ==> p + 2 <= |b| && CString(a, p + 1) == CString(b, p + 2)
    ensures a[p] == NUL ==> CString(a, p + 1) == ""
  {
    CStringEnd(b, p);
    forall i | p <= i < p + n ensures a[i] == b[i + 1] {
      assert a[p..p + n][i - p] == b[p + 1..p + n + 1][i - p];
    }
    assert a[p + n] == a[p + n..][0] == b[p + n..][0] == NUL;
    CStringContent(a, p, n - 1);
    CStringContent(b, p + 1, n - 1);
    assert a[p..p + n - 1] == b[p + 1..p + n];
    if n > 1 {
      CStringContent(a, p + 1, n - 2);
      CStringContent(b, p + 2, n - 2);
      assert a[p + 1..p + n - 1] == b[p + 2..p + n];
    }
  }

  /** strpbrk(a + p, "\"\\"): the first special character, if any. */
  method FindSpecial(a: array<char>, p: nat) returns (q: nat, found: bool)
    requires p <= a.Length && Terminated(a[..], p)
    ensures p <= q < a.Length && (forall i :: p <= i < q ==> a[i] != NUL && !IsSpecial(a[i]))
    ensures found ==> IsSpecial(a[q])
    ensures !found ==> a[q] == NUL
  {
    q := p;
    while a[q] != NUL && !IsSpecial(a[q])
      invariant p <= q < a.Length && Terminated(a[..], q)
      invariant forall i :: p <= i < q ==> a[i] != NUL && !IsSpecial(a[i])
      decreases a.Length - q
    {
      q := q + 1;
    }
    found := a[q] != NUL;
  }

  /** The loop of conf_set_sym_val over a quoted value: it ends with the string
      that Unescape gives, in the same buffer, or reports that nothing closes it. */
  method UnescapeInPlace(a: array<char>, p: nat) returns (closed: bool)
    requires p <= a.Length && Terminated(a[..], p)
    modifies a
    ensures a[..p] == old(a[..p])
    ensures closed <==> Unescape(old(CString(a[..], p))).Some?
    ensures closed ==> Unescape(old(CString(a[..], p))) == Some(CString(a[..], p))
    ensures old(Ended(a)) ==> Ended(a)
  {
    ghost var s := CString(a[..], p);
    var p2 := p;
    assert PrependAll(a[p..p], Unescape(s)) == Unescape(s) by {
      assert Unescape(s).Some? ==> a[p..p] + Unescape(s).value == Unescape(s).value;
    }
    while true
      invariant p <= p2 <= a.Length && Terminated(a[..], p2) && a[..p] == old(a[..p])
      invariant old(Ended(a)) ==> Ended(a)
      invariant Unescape(s) == PrependAll(a[p..p2], Unescape(CString(a[..], p2)))
      invariant (forall i :: p <= i < p2 ==> a[i] != NUL) || CString(a[..], p2) == ""
      decreases |CString(a[..], p2)|
    {
      var q, found := FindSpecial(a, p2);
      ghost var b := a[..];
      PlainSkipped(s, b, p, p2, q);
      if !found { return false; }
      if a[q] == '"' {
        a[q] := NUL;
        assert a[p..q] == b[p..q];
        QuoteReached(s, b, a[..], p, q);
        return true;
      }
      DropByte(a, q);
      assert a[p..q] == b[p..q] by { assert a[p..q] == a[..q][p..] && b[p..q] == b[..q][p..]; }
      EscapeDropped(s, b, a[..], p, q);
      p2 := q + 1;
      assert a[..p] == a[..q][..p] && b[..p] == b[..q][..p];
      assert forall i :: p <= i < q ==> a[i] == a[p..q][i - p] == b[p..q][i - p];
    }
  }

  lemma PlainSkipped(s: string, b: seq<char>, p: nat, p2: nat, q: nat)
    requires p <= p2 <= q < |b| && forall i :: p2 <= i < q ==> b[i] != NUL && !IsSpecial(b[i])
    requires Unescape(s) == PrependAll(b[p..p2], Unescape(CString(b, p2)))
    ensures Unescape(s) == PrependAll(b[p..q], Unescape(CString(b, q)))
    ensures |CString(b, q)| <= |CString(b, p2)|
    ensures b[q] == NUL ==> Unescape(s) == None
  {
    CStringContent(b, p2, q - p2);
    UnescapePlain(b[p2..q], CString(b, q));
    var u := Unescape(CString(b, q));
    assert b[p..q] == b[p..p2] + b[p2..q];
    assert u.Some? ==> b[p..q] + u.value == b[p..p2] + (b[p2..q] + u.value);
  }

  lemma QuoteReached(s: string, b: seq<char>, a: seq<char>, p: nat, q: nat)
    requires p <= q < |b| == |a| && b[q] == '"' && a[p..q] == b[p..q] && a[q] == NUL
    requires Unescape(s) == PrependAll(b[p..q], Unescape(CString(b, q)))
    requires forall i :: p <= i < q ==> b[i] != NUL
    ensures Unescape(s) == Some(CString(a, p))
  {
    forall i | p <= i < q ensures a[i] != NUL {
      assert a[i] == a[p..q][i - p] == b[p..q][i - p];
    }
    CStringContent(a, p, q - p);
    assert CString(a, p) == a[p..q];
  }

  lemma EscapeDropped(s: string, b: seq<char>, a: seq<char>, p: nat, q: nat)
    requires p <= q < |b| == |a| && Terminated(b, q) && b[q] == '\\'
    requires Unescape(s) == PrependAll(b[p..q], Unescape(CString(b, q)))
    requires a[p..q] == b[p..q] && CString(a, q) == CString(b, q + 1)
    requires a[q] != NUL ==> q + 2 <= |b| && CString(a, q + 1) == CString(b, q + 2)
    requires a[q] == NUL ==> CString(a, q + 1) == ""
    ensures Unescape(s) == PrependAll(a[p..q + 1], Unescape(CString(a, q + 1)))
    ensures |CString(a, q + 1)| < |CString(b, q)|
  {
    var t := CString(b, q);
    assert t == ['\\'] + CString(b, q + 1);
    if a[q] == NUL {
      assert CString(a, q) == "";
      assert t == ['\\'];
    } else {
      assert CString(a, q) == [a[q]] + CString(a, q + 1);
      assert t[2..] == CString(b, q + 2) && t[1] == a[q];
      assert a[p..q + 1] == b[p..q] + [a[q]];
      var u := Unescape(CString(a, q + 1));
      assert u.Some? ==> b[p..q] + ([a[q]] + u.value) == a[p..q + 1] + u.value;
    }
  }
}
