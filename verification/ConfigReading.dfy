// Reading a .config file line by line through one reused buffer
// (tools/kconfig/confdata.c: add_byte, compat_getline, conf_read_simple).
module ConfigReading {
  import opened KconfigExpr
  import opened ConfigQuoting
  import opened ConfigFile
  import opened ConfigRoundTrip

  // ----- The line buffer -----

  const LINE_GROWTH := 16

  /** The buffer between two lines: nothing yet, or some bytes of which the last
      is a terminator. */
  predicate IsLineBuffer(a: array<char>)
    reads a
  {
    a.Length == 0 || (a.Length > LINE_GROWTH && Ended(a))
  }

  /** The byte i of a buffer that held was; new memory counts as zeroed. */
  function ByteAt(was: seq<char>, i: nat): char { if i < |was| then was[i] else NUL }

  /** add_byte. */
  method AddByte(a: array<char>, slen: nat, c: char) returns (b: array<char>)
    requires slen <= a.Length && (slen < a.Length ==> IsLineBuffer(a))
    modifies a
    ensures (b == a || fresh(b)) && a.Length <= b.Length && LINE_GROWTH < b.Length && slen < b.Length
    ensures forall i: nat :: i < b.Length ==> b[i] == if i == slen then c else ByteAt(old(a[..]), i)
    ensures slen + 1 < b.Length ==> IsLineBuffer(b)
  {
    ghost var was := a[..];
    b := a;
    if slen + 1 > a.Length {
      var size := (slen + 1 + (LINE_GROWTH - 1)) * 2;
      b := new char[size](i requires 0 <= i reads a => if i < a.Length then a[i] else NUL);
    }
    assert forall i: nat :: i < b.Length ==> b[i] == ByteAt(was, i);
    b[slen] := c;
  }

  /** compat_getline: the bytes up to and including the next newline, and a
      terminator; what lies behind it in the buffer stays. */
  method GetLine(a: array<char>, t: string, p: nat) returns (b: array<char>, slen: nat)
    requires p < |t| && IsLineBuffer(a)
    modifies a
    ensures (b == a || fresh(b)) && IsLineBuffer(b) && a.Length <= b.Length && slen < b.Length
    ensures slen == LineEnd(t[p..]) && p + slen <= |t| && b[..slen] == t[p..p + slen] && b[slen] == NUL
    ensures forall i: nat :: slen < i < b.Length ==> b[i] == ByteAt(old(a[..]), i)
  {
    b, slen := a, 0;
    ghost var was, n := a[..], Scan(t, NEWLINE, p) - p;
    while p + slen < |t| && t[p + slen] != NEWLINE
      invariant slen <= n && slen <= b.Length && (b == a || fresh(b)) && (slen < b.Length ==> IsLineBuffer(b))
      invariant |was| <= b.Length
                && forall i: nat :: i < b.Length ==> b[i] == if i < slen then t[p + i] else ByteAt(was, i)
      decreases |t| - slen
    {
      b := AddByte(b, slen, t[p + slen]);
      slen := slen + 1;
    }
    b, slen := EndLine(b, slen, p + slen < |t|);
    assert forall i :: 0 <= i < slen ==> b[i] == t[p + i];
    BytesAreLine(b[..], t, p, slen);
    ScanSuffix(t, NEWLINE, p);
  }

  /** The newline, unless the file ends before it, and the terminator. */
  method EndLine(a: array<char>, n: nat, newline: bool) returns (b: array<char>, slen: nat)
    requires n <= a.Length && (n < a.Length ==> IsLineBuffer(a))
    modifies a
    ensures (b == a || fresh(b)) && a.Length <= b.Length && IsLineBuffer(b) && slen < b.Length
    ensures slen == if newline then n + 1 else n
    ensures forall i: nat :: i < b.Length ==>
      b[i] == if i == slen then NUL else if i == n then NEWLINE else ByteAt(old(a[..]), i)
  {
    ghost var was := a[..];
    b, slen := a, n;
    if newline {
      b := AddByte(b, slen, NEWLINE);
      slen := slen + 1;
    }
    b := AddByte(b, slen, NUL);
  }

  lemma BytesAreLine(b: seq<char>, t: string, p: nat, n: nat)
    requires n <= |b| && p + n <= |t| && forall i :: 0 <= i < n ==> b[i] == t[p + i]
    ensures b[..n] == t[p..p + n]
  {
  }

  lemma ScanSuffix(t: string, c: char, p: nat)
    requires p <= |t|
    ensures p + IndexOf(t[p..], c) == Scan(t, c, p)
  {
  }

  // ----- One line -----

  lemma {:induction false} CStringFront(b: seq<char>, s: string, i: nat)
    requires i <= |s| < |b| && b[..|s|] == s && b[|s|] == NUL
    ensures CString(b, i) == CString(s, i)
    decreases |s| - i
  {
    if i < |s| {
      assert b[i] == b[..|s|][i];
      CStringFront(b, s, i + 1);
    }
  }

  /** What a line of the text is read as, where stale is what a remark of one
      byte is taken for. */
  function LineRead(line: string, stale: Line): Line {
    if CString(line, 0) == "#" then stale else ParseLine(CString(line, 0))
  }

  /** One turn of the loop: the line at p is read into the buffer and applied. A
      # alone unsets what the bytes behind its terminator name, if anything. */
  method ReadLineAt(reader: ConfigReader, a: array<char>, t: string, p: nat)
    returns (b: array<char>, q: nat, ghost stale: Line)
    requires p < |t| && IsLineBuffer(a)
    modifies reader`values, a
    ensures (b == a || fresh(b)) && b.Length > LINE_GROWTH && IsLineBuffer(b)
    ensures q == p + LineEnd(t[p..]) && p < q <= |t| && !stale.Assigned?
    ensures reader.values == Apply(reader.types, old(reader.values), LineRead(t[p..q], stale))
    ensures q - p < b.Length && (IsData(CString(t[p..q], 0)) ==> b[..q - p] == t[p..q] && b[q - p] == NUL)
    ensures t[p..q] == "#" && a.Length > 2 ==> stale == NotSetLine(old(CString(a[..], 2)))
  {
    ghost var before := a[..];
    var n;
    b, n := GetLine(a, t, p);
    q := p + n;
    ghost var line := t[p..q];
    assert b[..][..|line|] == line;
    CStringFront(b[..], line, 0);
    stale := NotSetLine(CString(b[..], 2));
    if t[p..q] == "#" && |before| > 2 { SameTail(before, b[..], 2); }
    reader.ReadLine(b);
  }

  /** Behind a terminated string, zeroed bytes make no difference. */
  lemma {:induction false} SameTail(a: seq<char>, b: seq<char>, i: nat)
    requires i <= |a| <= |b| && (forall k :: i <= k < |b| ==> b[k] == if k < |a| then a[k] else NUL)
    ensures CString(b, i) == CString(a, i)
    decreases |a| - i
  {
    if i < |a| { SameTail(a, b, i + 1); }
  }

  // ----- The whole file -----

  /** Some line of t is read as a # alone. */
  predicate HasLoneHash(t: string)
    decreases |t|
  {
    t != "" && (CString(t[..LineEnd(t)], 0) == "#" || HasLoneHash(t[LineEnd(t)..]))
  }

  /** The values read from t; stale tells what each # alone is taken for. */
  function ReadWith(types: map<string, SymbolType>, values: map<string, Stored>, t: string,
                    stale: seq<Line>): map<string, Stored>
    decreases |t|
  {
    if t == "" then values
    else
      var (line, rest) := (t[..LineEnd(t)], t[LineEnd(t)..]);
      if CString(line, 0) == "#" && stale != [] then ReadWith(types, Apply(types, values, stale[0]), rest, stale[1..])
      else ReadWith(types, Apply(types, values, ParseLine(CString(line, 0))), rest, stale)
  }

  /** Without such a line the bytes behind the terminators do not matter. */
  lemma {:induction false} NothingStale(types: map<string, SymbolType>, values: map<string, Stored>, t: string,
                                        stale: seq<Line>)
    requires !HasLoneHash(t)
    ensures ReadWith(types, values, t, stale) == ReadText(types, values, t)
    decreases |t|
  {
    if t != "" {
      var (line, rest) := (t[..LineEnd(t)], t[LineEnd(t)..]);
      NothingStale(types, Apply(types, values, ParseLine(CString(line, 0))), rest, stale);
    }
  }

  /** The last line of t is a # without newline. */
  predicate EndsInHash(t: string) { t != "" && t[|t| - 1] == '#' && (|t| > 1 ==> t[|t| - 2] == NEWLINE) }

  /** In a text without NUL, only the last line can be such a line. */
  lemma {:induction false} LoneHashIsLast(t: string)
    requires NUL !in t
    ensures HasLoneHash(t) <==> EndsInHash(t)
    decreases |t|
  {
    if t != "" {
      var n := LineEnd(t);
      CStringContent(t[..n], 0, n);
      assert t[..n][0..n] == t[..n] && CString(t[..n], n) == "";
      assert CString(t[..n], 0) == t[..n];
      LoneHashIsLast(t[n..]);
      if n < |t| { BehindNewline(t, n); } else { assert t[n..] == "" && t[..n] == t; }
    }
  }

  lemma BehindNewline(t: string, n: nat)
    requires n == LineEnd(t) < |t|
    ensures t[..n] != "#" && (EndsInHash(t) <==> EndsInHash(t[n..]))
  {
    assert t[n - 1] == NEWLINE && t[..n][n - 1] == NEWLINE;
    var rest := t[n..];
    assert rest[|rest| - 1] == t[|t| - 1];
    assert |rest| > 1 ==> rest[|rest| - 2] == t[|t| - 2];
    assert |rest| == 1 ==> t[|t| - 2] == NEWLINE;
  }

  /** One turn of the loop on the text that is left. */
  lemma TurnReads(types: map<string, SymbolType>, values: map<string, Stored>, t: string, p: nat, q: nat, l: Line,
                  more: seq<Line>)
    requires p < |t| && q == p + LineEnd(t[p..]) && p < q <= |t|
    ensures var after := Apply(types, values, LineRead(t[p..q], l));
            ReadWith(types, after, t[q..], more)
            == ReadWith(types, values, t[p..], (if CString(t[p..q], 0) == "#" then [l] else []) + more)
  {
    assert t[p..][..q - p] == t[p..q] && t[p..][q - p..] == t[q..];
    assert ([l] + more)[1..] == more && [] + more == more;
  }

  /** With values, and stale seen so far, the rest of t from p on still has to be read. */
  ghost predicate ReadsOn(types: map<string, SymbolType>, values: map<string, Stored>, t: string, p: nat,
                          stale: seq<Line>)
    requires p <= |t|
  {
    forall more :: ReadWith(types, values, t[p..], more) == ReadWith(types, map[], t, stale + more)
  }

  lemma ReadsFromStart(types: map<string, SymbolType>, t: string)
    ensures ReadsOn(types, map[], t, 0, [])
  {
    assert t[0..] == t;
    assert forall more: seq<Line> :: [] + more == more;
  }

  lemma ReadsOnward(types: map<string, SymbolType>, values: map<string, Stored>, t: string, p: nat, q: nat, l: Line,
                    stale: seq<Line>)
    requires p < |t| && q == p + LineEnd(t[p..]) && p < q <= |t| && ReadsOn(types, values, t, p, stale)
    ensures ReadsOn(types, Apply(types, values, LineRead(t[p..q], l)), t, q,
                    if CString(t[p..q], 0) == "#" then stale + [l] else stale)
  {
    var seen := if CString(t[p..q], 0) == "#" then [l] else [];
    forall more
      ensures ReadWith(types, Apply(types, values, LineRead(t[p..q], l)), t[q..], more) ==
              ReadWith(types, map[], t, (stale + seen) + more)
    {
      TurnReads(types, values, t, p, q, l, more);
      assert (stale + seen) + more == stale + (seen + more);
    }
    assert stale + [] == stale;
  }

  lemma ReadsToEnd(types: map<string, SymbolType>, values: map<string, Stored>, t: string, stale: seq<Line>)
    requires ReadsOn(types, values, t, |t|, stale)
    ensures values == ReadWith(types, map[], t, stale)
  {
    assert stale + [] == stale;
    assert ReadWith(types, values, t[|t|..], []) == values;
  }

  /** conf_read_simple on the text of a file: the values are those of the text,
      except for what a # alone may unset. */
  method ReadSimple(types: map<string, SymbolType>, t: string) returns (reader: ConfigReader, ghost stale: seq<Line>)
    ensures fresh(reader) && reader.types == types
    ensures forall l :: l in stale ==> !l.Assigned?
    ensures reader.values == ReadWith(types, map[], t, stale)
    ensures !HasLoneHash(t) ==> reader.values == ReadText(types, map[], t)
  {
    reader := new ConfigReader(types);
    var line := new char[0];
    var p := 0;
    stale := [];
    ReadsFromStart(types, t);
    while p < |t|
      invariant p <= |t| && fresh(reader) && reader.types == types && fresh(line) && IsLineBuffer(line)
      invariant forall l :: l in stale ==> !l.Assigned?
      invariant var onward := ReadsOn(types, reader.values, t, p, stale); onward
      decreases |t| - p
    {
      ghost var was, from := reader.values, p;
      ghost var l;
      line, p, l := ReadLineAt(reader, line, t, p);
      ReadsOnward(types, was, t, from, p, l, stale);
      if CString(t[from..p], 0) == "#" { stale := stale + [l]; }
    }
    ReadsToEnd(types, reader.values, t, stale);
    if !HasLoneHash(t) { NothingStale(types, map[], t, stale); }
  }

  /** A file on which the rest of the buffer is read: a line of plain data and a #
      alone behind it, which is taken for the end of the data line. */
  method ReadStale(types: map<string, SymbolType>, data: string) returns (reader: ConfigReader)
    requires |data| > 2 && LineEnd(data + "#") == |data| && NUL !in data && IsData(data)
    ensures fresh(reader) && reader.values == Apply(types, map[], NotSetLine(data[2..]))
  {
    reader := new ConfigReader(types);
    var t := data + "#";
    var line := new char[0];
    var p;
    ghost var l;
    DataThenHash(data);
    CStringWhole(data);
    HashAlone();
    line, p, l := ReadLineAt(reader, line, t, 0);
    assert reader.values == map[];
    DataInBuffer(line[..], data);
    line, p, l := ReadLineAt(reader, line, t, p);
    assert l == NotSetLine(data[2..]);
  }

  lemma DataThenHash(data: string)
    ensures var t := data + "#";
            t[0..] == t && t[0..|data|] == data && t[|data|..] == "#" && t[|data|..|data| + 1] == "#"
  {
  }

  lemma HashAlone()
    ensures LineEnd("#") == 1 && CString("#", 0) == "#"
  {
    assert "#"[0] != NEWLINE && "#"[0] != NUL;
    assert CString("#", 1) == "";
  }

  lemma DataInBuffer(b: seq<char>, data: string)
    requires 2 < |data| < |b| && NUL !in data && b[..|data|] == data && b[|data|] == NUL
    ensures CString(b, 2) == data[2..]
  {
    CStringFront(b, data, 2);
    CStringContent(data, 2, |data| - 2);
    assert data[2..|data|] == data[2..] && CString(data, |data|) == "";
  }

  // ----- Files that were written -----

  /** Complete lines without NUL. */
  predicate IsLines(s: string) { NUL !in s && s != "" && s[|s| - 1] == NEWLINE }

  lemma LinesAppend(a: string, b: string)
    requires IsLines(a) && IsLines(b)
    ensures IsLines(a + b)
  {
  }

  lemma OneLineIsLines(line: string)
    requires NUL !in line
    ensures IsLines(line + "\n") && IsLines(CommentLine(line))
  {
    assert NUL !in "# " && NUL !in "#";
  }

  lemma PartIsLines(s: string, p: nat, q: nat)
    requires p <= q <= |s| && NUL !in s
    ensures IsLines(CommentLine(s[p..q]))
  {
    OneLineIsLines(s[p..q]);
  }

  lemma LastLine(s: string, p: nat)
    requires p <= |s| && NUL !in s && Scan(s, NEWLINE, p) == |s|
    ensures IsLines(CommentFrom(s, p))
  {
    PartIsLines(s, p, |s|);
    CommentUnfolds(s, p, |s|);
  }

  lemma LineBefore(s: string, p: nat, q: nat, rest: string)
    requires p <= q < |s| && q == Scan(s, NEWLINE, p) && rest == CommentFrom(s, q + 1)
    requires NUL !in s && IsLines(rest)
    ensures IsLines(CommentFrom(s, p))
  {
    PartIsLines(s, p, q);
    CommentUnfolds(s, p, q);
    LinesAppend(CommentLine(s[p..q]), rest);
  }

  lemma {:induction false} CommentIsLines(s: string, p: nat)
    requires p <= |s| && NUL !in s
    ensures IsLines(CommentFrom(s, p))
    decreases |s| - p
  {
    var q := Scan(s, NEWLINE, p);
    if q == |s| {
      LastLine(s, p);
    } else {
      CommentIsLines(s, q + 1);
      LineBefore(s, p, q, CommentFrom(s, q + 1));
    }
  }

  lemma SettingIsLines(n: string, ty: SymbolType, v: Stored)
    requires OneLine(n) && Fits(ty, v)
    ensures IsLines(SymbolText(n, ty, v))
  {
    NumbersAreOneLine(v);
    assert OneLine(ValueText(ty, v)) by {
      if ty == String {
        EscapeOneLine(v.text);
        assert OneLine(Escape(v.text));
      }
    }
    LinesAreOneLine(n, ValueText(ty, v));
    OneLineIsLines(UnsetLine(n));
    OneLineIsLines(AssignLine(n, ValueText(ty, v)));
  }

  lemma EntryIsLines(types: map<string, SymbolType>, e: Entry)
    requires Safe(types, e)
    ensures IsLines(EntryText(e))
  {
    match e
    case Blank =>
    case Comment(s) => CommentIsLines(s, 0);
    case Heading(t) =>
      OneLineIsLines("");
      OneLineIsLines(t);
      LinesAppend("\n", CommentLine(""));
      LinesAppend("\n" + CommentLine(""), CommentLine(t));
      LinesAppend("\n" + CommentLine("") + CommentLine(t), CommentLine(""));
    case EndOf(t) =>
      assert NUL !in "end of ";
      OneLineIsLines("end of " + t);
    case Setting(n, ty, v) => SettingIsLines(n, ty, v);
  }

  lemma {:induction false} FileIsLines(types: map<string, SymbolType>, es: seq<Entry>)
    requires forall e :: e in es ==> Safe(types, e)
    ensures es != [] ==> IsLines(FileText(es))
    decreases |es|
  {
    if es != [] {
      EntryIsLines(types, es[0]);
      FileIsLines(types, es[1..]);
      if es[1..] != [] {
        LinesAppend(EntryText(es[0]), FileText(es[1..]));
      } else {
        assert FileText(es) == EntryText(es[0]) + "" == EntryText(es[0]);
      }
    }
  }

  /** conf_write and conf_read_simple: the file that is written gives back every
      setting, and nothing else. */
  method WriteThenRead(types: map<string, SymbolType>, es: seq<Entry>) returns (reader: ConfigReader)
    requires forall e :: e in es ==> Safe(types, e)
    requires DistinctNames(es)
    ensures forall e :: e in es && e.Setting? ==> e.name in reader.values && reader.values[e.name] == e.value
    ensures forall n :: n in reader.values ==> exists e :: e in es && e.Setting? && e.name == n
  {
    var writer := WriteConfig(types, es);
    FileIsLines(types, es);
    if es != [] { LoneHashIsLast(writer.out); }
    ConfigRoundTrip.ConfigRoundTrip(types, es);
    ghost var stale;
    reader, stale := ReadSimple(types, writer.out);
  }
}
