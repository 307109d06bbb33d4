/**
 The PO catalog codec of the translation scripts: a line-based reader with mutable
 state, and a writer that it undoes. A raised `ValueError` or `SyntaxError` is `None`.
 */
module PoCatalog {
  import opened Common
  import opened PoText

  datatype MessageKey = MessageKey(context: string, message: string, plural: string)

  datatype CatalogEntry = CatalogEntry(key: MessageKey, translations: map<nat, string>, comments: seq<string>)

  /** A dictionary in insertion order. */
  type Fields = seq<(string, string)>

  // ----- Writing -----

  lemma LeastExists(s: set<nat>)
    requires s != {}
    ensures exists m :: m in s && forall x :: x in s ==> m <= x
  {
    var x :| x in s;
    if s - {x} != {} {
      LeastExists(s - {x});
      var m :| m in s - {x} && forall z :: z in s - {x} ==> m <= z;
      var least := if m < x then m else x;
      forall z | z in s ensures least <= z {
        assert z == x || z in s - {x};
      }
      assert least in s;
    } else {
      assert s == {x};
    }
  }

  function Least(s: set<nat>): (m: nat)
    requires s != {}
    ensures m in s && forall x :: x in s ==> m <= x
  {
    LeastExists(s);
    var m :| m in s && forall x :: x in s ==> m <= x;
    m
  }

  /** The indices of an entry in rising order. */
  function Sorted(s: set<nat>): (r: seq<nat>)
    ensures forall x :: x in r <==> x in s
    ensures forall i, j :: 0 <= i < j < |r| ==> r[i] < r[j]
  {
    if s == {} then [] else [Least(s)] + Sorted(s - {Least(s)})
  }

  function FieldLine(name: string, value: string): string {
    name + " " + Quote(value)
  }

  function FieldLines(fields: Fields): seq<string> {
    if fields == [] then [] else [FieldLine(fields[0].0, fields[0].1)] + FieldLines(fields[1..])
  }

  function Quoted(chunks: seq<string>): seq<string> {
    if chunks == [] then [] else [Quote(chunks[0])] + Quoted(chunks[1..])
  }

  function HeadFields(key: MessageKey): Fields {
    (if key.context != "" then [("msgctxt", key.context)] else [])
    + [("msgid", key.message)]
    + (if key.plural != "" then [("msgid_plural", key.plural)] else [])
  }

  function IndexName(key: MessageKey, index: nat): string {
    if key.plural != "" then "msgstr[" + Decimal(index) + "]" else "msgstr"
  }

  /** A translation on one line, or that of an empty message over several. */
  function ValueLines(key: MessageKey, index: nat, value: string): seq<string> {
    if key.message == "" then [FieldLine(IndexName(key, index), "")] + Quoted(LinesKept(value))
    else [FieldLine(IndexName(key, index), value)]
  }

  function TranslationLines(e: CatalogEntry, indices: seq<nat>): seq<string>
    requires forall i :: i in indices ==> i in e.translations
  {
    if indices == [] then []
    else ValueLines(e.key, indices[0], e.translations[indices[0]]) + TranslationLines(e, indices[1..])
  }

  function EntryLines(e: CatalogEntry): seq<string> {
    e.comments + FieldLines(HeadFields(e.key)) + TranslationLines(e, Sorted(e.translations.Keys)) + [""]
  }

  function CatalogLines(entries: seq<CatalogEntry>): seq<string> {
    if entries == [] then [] else EntryLines(entries[0]) + CatalogLines(entries[1..])
  }

  /** `"\n".join(lines)` */
  function Joined(lines: seq<string>): string {
    if lines == [] then "" else if |lines| == 1 then lines[0] else lines[0] + "\n" + Joined(lines[1..])
  }

  function Rendered(entries: seq<CatalogEntry>): string {
    Joined(CatalogLines(entries))
  }

  // ----- Reading -----

  predicate IsIndexed(name: string) {
    |name| > 8 && "msgstr[" <= name && name[|name| - 1] == ']' && IsDecimal(name[7..|name| - 1])
  }

  predicate IsFieldName(name: string) {
    name == "msgctxt" || name == "msgid_plural" || name == "msgid" || name == "msgstr" || IsIndexed(name)
  }

  function NameLength(line: string): (n: nat)
    ensures n <= |line|
  {
    if line == "" || IsSpace(line[0]) then 0 else 1 + NameLength(line[1..])
  }

  /** A stripped line as a field: a name, space, and one quoted string. */
  function FieldOf(line: string): Option<(string, string)> {
    var n := NameLength(line);
    if n < |line| && IsFieldName(line[..n]) then
      match DecodeQuoted(TrimStart(line[n..]))
      case Some(value) => Some((line[..n], value))
      case None => None
    else None
  }

  function Lookup(fields: Fields, name: string): Option<string> {
    if fields == [] then None else if fields[0].0 == name then Some(fields[0].1) else Lookup(fields[1..], name)
  }

  function LookupOr(fields: Fields, name: string): string {
    match Lookup(fields, name)
    case Some(value) => value
    case None => ""
  }

  predicate Has(fields: Fields, name: string) {
    Lookup(fields, name).Some?
  }

  function Extend(fields: Fields, name: string, more: string): Fields {
    if fields == [] then []
    else if fields[0].0 == name then [(name, fields[0].1 + more)] + fields[1..]
    else [fields[0]] + Extend(fields[1..], name, more)
  }

  function IndexOf(name: string): nat {
    if IsIndexed(name) then Number(name[7..|name| - 1]) else 0
  }

  /** The translations among the fields, a later one replacing an earlier one of the same index. */
  function TranslationsOnto(t: map<nat, string>, fields: Fields): map<nat, string>
    decreases |fields|
  {
    if fields == [] then t
    else if "msgstr" <= fields[0].0 then
      TranslationsOnto(t[IndexOf(fields[0].0) := fields[0].1], fields[1..])
    else TranslationsOnto(t, fields[1..])
  }

  datatype Parse = Parse(entries: seq<CatalogEntry>, values: Fields, comments: seq<string>, current: Option<string>)

  const START: Parse := Parse([], [], [], None)

  predicate HasKey(entries: seq<CatalogEntry>, key: MessageKey) {
    exists i :: 0 <= i < |entries| && entries[i].key == key
  }

  /** An entry ends: it needs a `msgid`, unless there is nothing at all, and a new key. */
  function Finished(p: Parse): Option<Parse> {
    if Has(p.values, "msgid") then
      var key := MessageKey(LookupOr(p.values, "msgctxt"), LookupOr(p.values, "msgid"),
          LookupOr(p.values, "msgid_plural"));
      if HasKey(p.entries, key) then None
      else Some(Parse(p.entries + [CatalogEntry(key, TranslationsOnto(map[], p.values), p.comments)], [], [], None))
    else if p.values != [] then None
    else Some(Parse(p.entries, [], [], None))
  }

  function WithComment(p: Parse, comment: string): Option<Parse> {
    match if Has(p.values, "msgid") then Finished(p) else Some(p)
    case Some(q) => Some(q.(comments := q.comments + [comment]))
    case None => None
  }

  function WithField(p: Parse, name: string, value: string): Option<Parse> {
    match if (name == "msgctxt" || name == "msgid") && Has(p.values, "msgid") then Finished(p) else Some(p)
    case None => None
    case Some(q) =>
      if Has(q.values, name) then None
      else Some(q.(values := q.values + [(name, value)], current := Some(name)))
  }

  function WithContinuation(p: Parse, line: string): Option<Parse> {
    if "\"" <= line && p.current.Some? && DecodeQuoted(line).Some? then
      Some(p.(values := Extend(p.values, p.current.value, DecodeQuoted(line).value)))
    else None
  }

  function ReadLine(p: Parse, raw: string): Option<Parse> {
    var line := Strip(raw);
    if line == "" then Finished(p)
    else if "#~" <= line then Some(p)
    else if "#" <= line then WithComment(p, line)
    else match FieldOf(line)
      case Some((name, value)) => WithField(p, name, value)
      case None => WithContinuation(p, line)
  }

  function ReadLines(p: Parse, lines: seq<string>): Option<Parse>
    decreases |lines|
  {
    if lines == [] then Some(p)
    else match ReadLine(p, lines[0])
      case Some(q) => ReadLines(q, lines[1..])
      case None => None
  }

  /** The entries of a catalog, in the order they were read. */
  function Catalog(text: string): Option<seq<CatalogEntry>> {
    match ReadLines(START, Lines(text))
    case None => None
    case Some(p) =>
      match Finished(p)
      case None => None
      case Some(q) => Some(q.entries)
  }

  // ----- The reader and the writer as they run -----

  class CatalogReader {
    var entries: seq<CatalogEntry>
    var values: Fields
    var comments: seq<string>
    var currentField: Option<string>

    function State(): Parse
      reads this
    {
      Parse(entries, values, comments, currentField)
    }

    constructor ()
      ensures State() == START
    {
      entries, values, comments, currentField := [], [], [], None;
    }

    /** End the entry under way; false stands for a raised error. */
    method Finish() returns (ok: bool)
      modifies this
      ensures ok <==> Finished(old(State())).Some?
      ensures ok ==> State() == Finished(old(State())).value
    {
      if Has(values, "msgid") {
        var key := MessageKey(LookupOr(values, "msgctxt"), LookupOr(values, "msgid"), LookupOr(values, "msgid_plural"));
        if HasKey(entries, key) {
          return false;
        }
        var translations := TranslationsOnto(map[], values);
        entries := entries + [CatalogEntry(key, translations, comments)];
      } else if values != [] {
        return false;
      }
      values, comments, currentField := [], [], None;
      return true;
    }

    method AcceptField(name: string, value: string) returns (ok: bool)
      modifies this
      ensures ok <==> WithField(old(State()), name, value).Some?
      ensures ok ==> State() == WithField(old(State()), name, value).value
    {
      hide Finished, Has;
      if (name == "msgctxt" || name == "msgid") && Has(values, "msgid") {
        ok := Finish();
        if !ok {
          return;
        }
      }
      if Has(values, name) {
        return false;
      }
      currentField := Some(name);
      values := values + [(name, value)];
      return true;
    }

    method AcceptComment(comment: string) returns (ok: bool)
      modifies this
      ensures ok <==> WithComment(old(State()), comment).Some?
      ensures ok ==> State() == WithComment(old(State()), comment).value
    {
      hide Finished, Has;
      if Has(values, "msgid") {
        ok := Finish();
        if !ok {
          return;
        }
      }
      comments := comments + [comment];
      return true;
    }

    method Accept(rawLine: string) returns (ok: bool)
      modifies this
      ensures ok <==> ReadLine(old(State()), rawLine).Some?
      ensures ok ==> State() == ReadLine(old(State()), rawLine).value
    {
      hide Finished, Has, WithField, WithComment, FieldOf, DecodeQuoted, Strip;
      var line := Strip(rawLine);
      if line == "" {
        ok := Finish();
      } else if "#~" <= line {
        ok := true;
      } else if "#" <= line {
        ok := AcceptComment(line);
      } else if FieldOf(line).Some? {
        ok := AcceptField(FieldOf(line).value.0, FieldOf(line).value.1);
      } else if "\"" <= line && currentField.Some? && DecodeQuoted(line).Some? {
        values := Extend(values, currentField.value, DecodeQuoted(line).value);
        ok := true;
      } else {
        ok := false;
      }
    }
  }

  method ReadCatalog(text: string) returns (result: Option<seq<CatalogEntry>>)
    ensures result == Catalog(text)
  {
    hide ReadLine, Finished, Lines;
    var reader := new CatalogReader();
    var lines := Lines(text);
    for i := 0 to |lines|
      invariant ReadLines(START, lines) == ReadLines(reader.State(), lines[i..])
    {
      var ok := reader.Accept(lines[i]);
      if !ok {
        return None;
      }
    }
    var ok := reader.Finish();
    result := if ok then Some(reader.entries) else None;
  }

  lemma HeadLines(key: MessageKey)
    ensures FieldLines(HeadFields(key)) ==
      (if key.context != "" then [FieldLine("msgctxt", key.context)] else [])
      + [FieldLine("msgid", key.message)]
      + (if key.plural != "" then [FieldLine("msgid_plural", key.plural)] else [])
  {
    hide FieldLine;
    var message, last := ("msgid", key.message), if key.plural != "" then [("msgid_plural", key.plural)] else [];
    assert ([message] + last)[1..] == last;
    assert FieldLines([message] + last) == [FieldLine("msgid", key.message)] + FieldLines(last);
    if key.context != "" {
      assert HeadFields(key)[1..] == [message] + last;
    } else {
      assert HeadFields(key) == [message] + last;
    }
  }

  method RenderEntry(e: CatalogEntry) returns (lines: seq<string>)
    ensures lines == EntryLines(e)
  {
    hide FieldLine, FieldLines, HeadFields, IndexName, Quoted, LinesKept, Sorted;
    lines := e.comments;
    if e.key.context != "" {
      lines := lines + [FieldLine("msgctxt", e.key.context)];
    }
    lines := lines + [FieldLine("msgid", e.key.message)];
    if e.key.plural != "" {
      lines := lines + [FieldLine("msgid_plural", e.key.plural)];
    }
    HeadLines(e.key);
    assert lines == e.comments + FieldLines(HeadFields(e.key));
    var indices := Sorted(e.translations.Keys);
    ghost var head := lines;
    for i := 0 to |indices|
      invariant head + TranslationLines(e, indices) == lines + TranslationLines(e, indices[i..])
    {
      var name, value := IndexName(e.key, indices[i]), e.translations[indices[i]];
      ghost var before := lines;
      if e.key.message == "" {
        lines := lines + [FieldLine(name, "")];
        lines := lines + Quoted(LinesKept(value));
      } else {
        lines := lines + [FieldLine(name, value)];
      }
      assert lines == before + ValueLines(e.key, indices[i], value);
      assert indices[i..][1..] == indices[i + 1..];
      Associative(before, ValueLines(e.key, indices[i], value), TranslationLines(e, indices[i + 1..]));
    }
    lines := lines + [""];
  }

  method RenderCatalog(entries: seq<CatalogEntry>) returns (text: string)
    ensures text == Rendered(entries)
  {
    hide EntryLines;
    var lines: seq<string> := [];
    for i := 0 to |entries|
      invariant CatalogLines(entries) == lines + CatalogLines(entries[i..])
    {
      var more := RenderEntry(entries[i]);
      assert entries[i..][1..] == entries[i + 1..];
      Associative(lines, more, CatalogLines(entries[i + 1..]));
      lines := lines + more;
    }
    assert lines + CatalogLines(entries[|entries|..]) == lines;
    text := Joined(lines);
  }
}
