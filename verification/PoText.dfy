/**
 The text layer of a PO catalog: Python's line splitting and stripping, strings written
 as JSON (section 7 of RFC 8259) and read back as Python literals, and decimal indices.
 */
module PoText {
  import opened Common

  // ----- Lines -----

  /** Where `str.splitlines` ends a line. */
  predicate IsBreak(c: char) {
    '\n' <= c <= '\r' || '\U{1c}' <= c <= '\U{1e}' || IsLooseBreak(c)
  }

  /** The breaks that JSON leaves as they are. */
  predicate IsLooseBreak(c: char) {
    c == '\U{85}' || c == '\U{2028}' || c == '\U{2029}'
  }

  predicate HasLooseBreak(s: string) {
    exists i :: 0 <= i < |s| && IsLooseBreak(s[i])
  }

  predicate HasBreak(s: string) {
    exists i :: 0 <= i < |s| && IsBreak(s[i])
  }

  function LineLength(t: string): (n: nat)
    ensures n <= |t| && (n < |t| ==> IsBreak(t[n]))
    ensures forall i :: 0 <= i < n ==> !IsBreak(t[i])
  {
    if t == "" || IsBreak(t[0]) then 0 else 1 + LineLength(t[1..])
  }

  /** The length of the break that `t` starts with: a carriage return takes its line feed along. */
  function BreakLength(t: string): (n: nat)
    ensures n <= |t| && (t != "" ==> n > 0)
  {
    if t == "" then 0 else if "\r\n" <= t then 2 else 1
  }

  /** Text without its first line, and that line with its break. */
  function FirstLine(t: string): (n: nat)
    ensures n <= |t| && LineLength(t) <= n && (t != "" ==> n > 0)
  {
    LineLength(t) + BreakLength(t[LineLength(t)..])
  }

  /** `str.splitlines()` */
  function Lines(t: string): seq<string>
    decreases |t|
  {
    if t == "" then [] else [t[..LineLength(t)]] + Lines(t[FirstLine(t)..])
  }

  /** `str.splitlines(keepends=True)` */
  function LinesKept(t: string): seq<string>
    decreases |t|
  {
    if t == "" then [] else [t[..FirstLine(t)]] + LinesKept(t[FirstLine(t)..])
  }

  lemma {:induction false} LinesKeptJoin(t: string)
    ensures Concat(LinesKept(t)) == t
    decreases |t|
  {
    hide FirstLine;
    if t != "" {
      var first, rest := t[..FirstLine(t)], t[FirstLine(t)..];
      assert t == first + rest;
      LinesKeptJoin(rest);
      assert Concat([first] + LinesKept(rest)) == first + Concat(LinesKept(rest));
    }
  }

  lemma {:induction false} LineLengthIs(t: string, n: nat)
    requires n <= |t| && (n < |t| ==> IsBreak(t[n]))
    requires forall i :: 0 <= i < n ==> !IsBreak(t[i])
    ensures LineLength(t) == n
  {
    if n > 0 {
      LineLengthIs(t[1..], n - 1);
    }
  }

  /** The first line of a text whose first line feed is at its end does not depend on what follows. */
  lemma SameFirstLine(a: string, rest: string)
    ensures var line, all := a + "\n", a + "\n" + rest;
      && LineLength(all) == LineLength(line) <= |a| && FirstLine(all) == FirstLine(line)
  {
    var line, all := a + "\n", a + "\n" + rest;
    var n := LineLength(line);
    assert line[|a|] == '\n';
    assert all[..n] == line[..n] && all[n] == line[n];
    assert forall i :: 0 <= i < n ==> all[i] == line[i];
    LineLengthIs(all, n);
    SameBreak(line[n..], rest);
    assert all[n..] == line[n..] + rest;
  }

  /** A line feed ends the line it follows, whatever comes after it. */
  lemma {:induction false} LinesAfterNewline(a: string, rest: string)
    ensures Lines(a + "\n" + rest) == Lines(a + "\n") + Lines(rest)
    decreases |a|
  {
    hide LineLength, FirstLine, HasBreak, IsBreak;
    var line, all := a + "\n", a + "\n" + rest;
    SameFirstLine(a, rest);
    var n, e := LineLength(line), FirstLine(line);
    assert all[..n] == line[..n];
    if e <= |a| {
      assert line[e..] == a[e..] + "\n" && all[e..] == a[e..] + "\n" + rest;
      LinesAfterNewline(a[e..], rest);
      Associative([line[..n]], Lines(line[e..]), Lines(rest));
    } else {
      assert line[e..] == "" && all[e..] == rest;
    }
  }

  lemma SameBreak(a: string, rest: string)
    requires |a| > 0 && a[|a| - 1] == '\n'
    ensures BreakLength(a + rest) == BreakLength(a)
  {
    assert (a + rest)[0] == a[0];
    if |a| > 1 {
      assert (a + rest)[..2] == a[..2];
    }
  }

  lemma OnlyLine(line: string)
    requires !HasBreak(line)
    ensures Lines(line + "\n") == [line]
  {
    hide LineLength;
    var t := line + "\n";
    assert t[|line|] == '\n';
    assert forall i :: 0 <= i < |line| ==> t[i] == line[i];
    LineLengthIs(t, |line|);
    assert t[..|line|] == line && t[|line|..] == "\n";
    assert t[FirstLine(t)..] == "";
  }

  /** One whole line, without a break inside. */
  lemma OneLine(line: string, rest: string)
    requires !HasBreak(line)
    ensures Lines(line + "\n" + rest) == [line] + Lines(rest)
  {
    hide FirstLine;
    OnlyLine(line);
    LinesAfterNewline(line, rest);
  }

  /** A line with a break inside is cut there. */
  lemma CutLine(line: string, rest: string)
    requires HasBreak(line)
    ensures LineLength(line) < |line|
    ensures var lines := Lines(line + "\n" + rest); lines != [] && lines[0] == line[..LineLength(line)]
  {
    var t := line + "\n" + rest;
    var n := LineLength(line);
    var i :| 0 <= i < |line| && IsBreak(line[i]);
    assert n <= i;
    assert t[..n] == line[..n] && t[n] == line[n];
    assert forall i :: 0 <= i < n ==> t[i] == line[i];
    LineLengthIs(t, n);
  }

  // ----- Stripping -----

  /** `str.isspace`, which is also `\s` */
  predicate IsSpace(c: char) {
    || '\t' <= c <= '\r' || '\U{1c}' <= c <= ' ' || c == '\U{85}' || c == '\U{a0}' || c == '\U{1680}'
    || '\U{2000}' <= c <= '\U{200a}' || c == '\U{2028}' || c == '\U{2029}' || c == '\U{202f}' || c == '\U{205f}'
    || c == '\U{3000}'
  }

  function TrimStart(s: string): (r: string)
    ensures r == "" || !IsSpace(r[0])
    ensures s != "" && !IsSpace(s[0]) ==> r == s
    ensures |r| <= |s| && s[|s| - |r|..] == r
  {
    if s != "" && IsSpace(s[0]) then TrimStart(s[1..]) else s
  }

  function TrimEnd(s: string): (r: string)
    ensures r == "" || !IsSpace(r[|r| - 1])
    ensures s != "" && !IsSpace(s[|s| - 1]) ==> r == s
    ensures r <= s
  {
    if s != "" && IsSpace(s[|s| - 1]) then TrimEnd(s[..|s| - 1]) else s
  }

  /** `str.strip()` */
  function Strip(s: string): string {
    TrimEnd(TrimStart(s))
  }

  predicate IsStripped(s: string) {
    s != "" ==> !IsSpace(s[0]) && !IsSpace(s[|s| - 1])
  }

  lemma StripIsStripped(s: string)
    ensures IsStripped(Strip(s))
    ensures IsStripped(s) ==> Strip(s) == s
  {
    var r := TrimStart(s);
    if Strip(s) != "" {
      assert Strip(s)[0] == r[0];
    }
  }

  // ----- JSON out, Python in -----

  function HexDigit(n: nat): char
    requires n < 16
  {
    "0123456789abcdef"[n]
  }

  /** One character of `json.dumps(…, ensure_ascii=False)`. */
  function EscapeChar(c: char): string {
    match c
    case '"' => "\\\""
    case '\\' => "\\\\"
    case '\n' => "\\n"
    case '\r' => "\\r"
    case '\t' => "\\t"
    case '\U{0c}' => "\\f"
    case '\U{08}' => "\\b"
    case _ => if c < ' ' then "\\u00" + [HexDigit(c as int / 16), HexDigit(c as int % 16)] else [c]
  }

  function Escape(s: string): string {
    if s == "" then "" else EscapeChar(s[0]) + Escape(s[1..])
  }

  /** `json.dumps` of a string. */
  function Quote(s: string): string {
    "\"" + Escape(s) + "\""
  }

  predicate IsHex(c: char) {
    '0' <= c <= '9' || 'a' <= c <= 'f' || 'A' <= c <= 'F'
  }

  function HexValue(c: char): (n: nat)
    requires IsHex(c)
    ensures n < 16
  {
    if c <= '9' then c as int - '0' as int
    else if c <= 'F' then c as int - 'A' as int + 10
    else c as int - 'a' as int + 10
  }

  predicate AllHex(s: string) {
    forall i :: 0 <= i < |s| ==> IsHex(s[i])
  }

  function HexNumber(s: string): nat
    requires AllHex(s)
  {
    if s == "" then 0 else HexNumber(s[..|s| - 1]) * 16 + HexValue(s[|s| - 1])
  }

  lemma HexNumberSnoc(s: string, n: nat)
    requires AllHex(s) && n < 16
    ensures AllHex(s + [HexDigit(n)]) && HexNumber(s + [HexDigit(n)]) == HexNumber(s) * 16 + n
  {
    assert (s + [HexDigit(n)])[..|s|] == s;
  }

  function CharOf(n: nat): Option<char> {
    if n < 0xD800 || 0xE000 <= n < 0x11_0000 then Some(n as char) else None
  }

  /** The character of `digits` hexadecimal digits after an `x`, `u` or `U`. */
  function HexEscape(s: string, digits: nat): Option<(string, nat)> {
    if digits <= |s| && AllHex(s[..digits]) then
      var c := CharOf(HexNumber(s[..digits]));
      if c.Some? then Some(([c.value], digits + 1)) else None
    else None
  }

  predicate IsOctal(c: char) {
    '0' <= c <= '7'
  }

  function OctalEscape(s: string): Option<(string, nat)>
    requires s != "" && IsOctal(s[0])
  {
    var d := (c: char) requires IsOctal(c) => c as int - '0' as int;
    if |s| > 1 && IsOctal(s[1]) then
      if |s| > 2 && IsOctal(s[2]) then Some(([(d(s[0]) * 64 + d(s[1]) * 8 + d(s[2])) as char], 3))
      else Some(([(d(s[0]) * 8 + d(s[1])) as char], 2))
    else Some(([d(s[0]) as char], 1))
  }

  /** What a Python string literal has after a backslash: the text meant, and how long it is. */
  function PythonEscape(s: string): (r: Option<(string, nat)>)
    ensures r.Some? ==> 0 < r.value.1 <= |s|
  {
    if s == "" || s[0] == '\U{0}' || s[0] == '\n' then None
    else
      match s[0]
      case '\\' => Some(("\\", 1))
      case '\'' => Some(("'", 1))
      case '"' => Some(("\"", 1))
      case 'a' => Some(("\U{07}", 1))
      case 'b' => Some(("\U{08}", 1))
      case 'f' => Some(("\U{0c}", 1))
      case 'n' => Some(("\n", 1))
      case 'r' => Some(("\r", 1))
      case 't' => Some(("\t", 1))
      case 'v' => Some(("\U{0b}", 1))
      case 'x' => HexEscape(s[1..], 2)
      case 'u' => HexEscape(s[1..], 4)
      case 'U' => HexEscape(s[1..], 8)
      case 'N' => None
      case _ => if IsOctal(s[0]) then OctalEscape(s) else Some(("\\" + [s[0]], 1))
  }

  function Prepend(a: string, b: Option<string>): Option<string> {
    if b.Some? then Some(a + b.value) else None
  }

  /** The text of a literal's inside; none if the literal ends early or does not end. */
  function Unescape(b: string): Option<string>
    decreases |b|
  {
    if b == "" then Some("")
    else if b[0] == '"' || b[0] == '\U{0}' || b[0] == '\n' then None
    else if b[0] != '\\' then Prepend([b[0]], Unescape(b[1..]))
    else
      match PythonEscape(b[1..])
      case None => None
      case Some((text, n)) => Prepend(text, Unescape(b[1 + n..]))
  }

  /** A double-quoted literal decoded; none for anything else. */
  function DecodeQuoted(q: string): Option<string> {
    if |q| >= 2 && q[0] == '"' && q[|q| - 1] == '"' then Unescape(q[1..|q| - 1]) else None
  }

  lemma ControlEscape(c: char, rest: string)
    requires c < ' '
    ensures HexEscape("00" + [HexDigit(c as int / 16), HexDigit(c as int % 16)] + rest, 4) == Some(([c], 5))
  {
    var high, low := c as int / 16, c as int % 16;
    HexNumberSnoc("", 0);
    HexNumberSnoc("" + [HexDigit(0)], 0);
    HexNumberSnoc("" + [HexDigit(0)] + [HexDigit(0)], high);
    HexNumberSnoc("" + [HexDigit(0)] + [HexDigit(0)] + [HexDigit(high)], low);
    assert ("00" + [HexDigit(high), HexDigit(low)] + rest)[..4]
        == "" + [HexDigit(0)] + [HexDigit(0)] + [HexDigit(high)] + [HexDigit(low)];
  }

  lemma UnescapeOne(c: char, rest: string)
    ensures Unescape(EscapeChar(c) + rest) == Prepend([c], Unescape(rest))
  {
    hide HexEscape, OctalEscape;
    var e := EscapeChar(c);
    var t := e + rest;
    assert t[|e|..] == rest;
    if e[0] != '\\' {
      assert t[1..] == rest;
    } else if c >= ' ' || |e| == 2 {
      assert t[1..][0] == e[1];
      assert t[2..] == rest;
    } else {
      var digits := "00" + [HexDigit(c as int / 16), HexDigit(c as int % 16)];
      assert t[1..][0] == 'u';
      assert t[1..][1..] == digits + rest;
      ControlEscape(c, rest);
      assert t[6..] == rest;
    }
  }

  lemma {:induction false} UnescapeAfterEscape(s: string)
    ensures Unescape(Escape(s)) == Some(s)
  {
    if s != "" {
      UnescapeOne(s[0], Escape(s[1..]));
      UnescapeAfterEscape(s[1..]);
      assert [s[0]] + s[1..] == s;
    }
  }

  /** What is written as JSON is read back by Python's literal rules. */
  lemma DecodeAfterQuote(s: string)
    ensures DecodeQuoted(Quote(s)) == Some(s)
  {
    var q := Quote(s);
    assert q[1..|q| - 1] == Escape(s);
    UnescapeAfterEscape(s);
  }

  lemma EscapedCharHasBreak(c: char)
    ensures HasBreak(EscapeChar(c)) <==> IsLooseBreak(c)
  {
    if IsLooseBreak(c) {
      assert IsBreak(EscapeChar(c)[0]);
    }
  }

  lemma HasBreakAppend(a: string, b: string)
    ensures HasBreak(a + b) <==> HasBreak(a) || HasBreak(b)
  {
    if HasBreak(a) {
      var i :| 0 <= i < |a| && IsBreak(a[i]);
      assert (a + b)[i] == a[i];
    }
    if HasBreak(b) {
      var i :| 0 <= i < |b| && IsBreak(b[i]);
      assert (a + b)[|a| + i] == b[i];
    }
  }

  lemma {:induction false} EscapedHasBreak(s: string)
    ensures HasBreak(Escape(s)) <==> HasLooseBreak(s)
  {
    if s != "" {
      EscapedCharHasBreak(s[0]);
      HasBreakAppend(EscapeChar(s[0]), Escape(s[1..]));
      EscapedHasBreak(s[1..]);
      assert s == [s[0]] + s[1..];
      if HasLooseBreak(s[1..]) {
        var i :| 0 <= i < |s[1..]| && IsLooseBreak(s[1..][i]);
        assert s[i + 1] == s[1..][i];
      }
      if HasLooseBreak(s) && !IsLooseBreak(s[0]) {
        var i :| 0 <= i < |s| && IsLooseBreak(s[i]);
        assert s[1..][i - 1] == s[i];
      }
    }
  }

  /** A written string is broken over lines exactly when it holds one of the breaks JSON leaves alone. */
  lemma QuotedHasBreak(s: string)
    ensures HasBreak(Quote(s)) <==> HasLooseBreak(s)
  {
    EscapedHasBreak(s);
    HasBreakAppend("\"" + Escape(s), "\"");
    HasBreakAppend("\"", Escape(s));
    assert !HasBreak("\"");
  }

  // ----- Decimal indices -----

  predicate IsDigit(c: char) {
    '0' <= c <= '9'
  }

  predicate IsDecimal(s: string) {
    s != "" && forall i :: 0 <= i < |s| ==> IsDigit(s[i])
  }

  function Decimal(n: nat): (s: string)
    ensures IsDecimal(s)
  {
    if n < 10 then [('0' as int + n) as char]
    else Decimal(n / 10) + [('0' as int + n % 10) as char]
  }

  function DigitValue(c: char): nat
    requires IsDigit(c)
  {
    c as int - '0' as int
  }

  function Number(s: string): nat
    requires forall i :: 0 <= i < |s| ==> IsDigit(s[i])
  {
    if s == "" then 0 else Number(s[..|s| - 1]) * 10 + DigitValue(s[|s| - 1])
  }

  lemma {:induction false} NumberOfDecimal(n: nat)
    ensures Number(Decimal(n)) == n
  {
    var d := Decimal(n);
    if n < 10 {
      assert d[..|d| - 1] == "";
    } else {
      assert d[..|d| - 1] == Decimal(n / 10);
      NumberOfDecimal(n / 10);
    }
  }
}
