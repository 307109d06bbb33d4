/**
 Writing a catalog and reading it back: the conditions under which nothing changes,
 and why each of them is needed.
 */
module PoRoundTrip {
  import opened Common
  import opened PoText
  import opened PoCatalog

  // ----- One line read -----

  lemma {:induction false} ReadLinesAppend(p: Parse, a: seq<string>, b: seq<string>)
    ensures ReadLines(p, a + b) == match ReadLines(p, a) case Some(q) => ReadLines(q, b) case None => None
    decreases |a|
  {
    hide ReadLine;
    if a == [] {
      assert a + b == b;
    } else {
      assert (a + b)[0] == a[0] && (a + b)[1..] == a[1..] + b;
      match ReadLine(p, a[0]) {
        case Some(q) => ReadLinesAppend(q, a[1..], b);
        case None =>
      }
    }
  }

  lemma ReadOne(p: Parse, line: string)
    ensures ReadLines(p, [line]) == ReadLine(p, line)
  {
    hide ReadLine;
  }

  lemma {:induction false} NameLengthIs(line: string, n: nat)
    requires n < |line| && IsSpace(line[n]) && forall i :: 0 <= i < n ==> !IsSpace(line[i])
    ensures NameLength(line) == n
  {
    if n > 0 {
      NameLengthIs(line[1..], n - 1);
    }
  }

  lemma FieldNameIsPlain(name: string)
    requires IsFieldName(name)
    ensures name != "" && name[0] == 'm' && forall i :: 0 <= i < |name| ==> !IsSpace(name[i]) && !IsBreak(name[i])
  {
    if IsIndexed(name) {
      forall i | 0 <= i < |name| ensures !IsSpace(name[i]) && !IsBreak(name[i]) {
        if 7 <= i < |name| - 1 {
          assert name[i] == name[7..|name| - 1][i - 7];
        } else if i < 7 {
          assert name[i] == "msgstr["[i];
        }
      }
    }
  }

  lemma TrimsToQuote(q: string)
    requires q != "" && q[0] == '"'
    ensures TrimStart(" " + q) == q
  {
    assert (" " + q)[1..] == q;
  }

  lemma FieldOfParts(name: string, q: string)
    requires IsFieldName(name) && q != "" && q[0] == '"'
    ensures FieldOf(name + " " + q) == match DecodeQuoted(q) case Some(v) => Some((name, v)) case None => None
  {
    hide DecodeQuoted, IsFieldName, TrimStart, NameLength;
    FieldNameIsPlain(name);
    var line := name + " " + q;
    assert line[|name|] == ' ';
    NameLengthIs(line, |name|);
    assert line[..|name|] == name && line[|name|..] == " " + q;
    TrimsToQuote(q);
  }

  lemma QuoteStartsNoName(name: string)
    requires name != "" ==> name[0] == '"'
    ensures !IsFieldName(name)
  {
    hide IsFieldName;
    if IsFieldName(name) {
      FieldNameIsPlain(name);
      assert false;
    }
  }

  lemma QuotedIsNoField(line: string)
    requires "\"" <= line
    ensures FieldOf(line) == None
  {
    hide DecodeQuoted, IsFieldName, NameLength, TrimStart;
    QuoteStartsNoName(line[..NameLength(line)]);
  }

  lemma ReadField(p: Parse, name: string, value: string)
    requires IsFieldName(name)
    ensures ReadLine(p, FieldLine(name, value)) == WithField(p, name, value)
  {
    hide WithField, WithComment, WithContinuation, Finished, FieldOf, DecodeQuoted, Escape, IsFieldName, Strip;
    var line := FieldLine(name, value);
    FieldNameIsPlain(name);
    assert line[0] == 'm' && line[|line| - 1] == '"';
    StripIsStripped(line);
    FieldOfParts(name, Quote(value));
    DecodeAfterQuote(value);
  }

  lemma ReadChunk(p: Parse, chunk: string)
    requires p.current.Some?
    ensures ReadLine(p, Quote(chunk)) == Some(p.(values := Extend(p.values, p.current.value, chunk)))
  {
    hide WithField, WithComment, Finished, FieldOf, DecodeQuoted, Escape, Extend, Strip;
    var line := Quote(chunk);
    assert line[0] == '"' && line[|line| - 1] == '"';
    StripIsStripped(line);
    QuotedIsNoField(line);
    DecodeAfterQuote(chunk);
  }

  predicate GoodComment(c: string) {
    IsStripped(c) && !HasBreak(c) && "#" <= c && !("#~" <= c)
  }

  lemma ReadComment(p: Parse, c: string)
    requires GoodComment(c) && p.values == []
    ensures ReadLine(p, c) == Some(p.(comments := p.comments + [c]))
  {
    hide FieldOf;
    StripIsStripped(c);
  }

  // ----- One entry read -----

  lemma {:induction false} LookupAppend(a: Fields, b: Fields, name: string)
    ensures Lookup(a + b, name) == if Has(a, name) then Lookup(a, name) else Lookup(b, name)
  {
    if a == [] {
      assert a + b == b;
    } else {
      assert (a + b)[0] == a[0] && (a + b)[1..] == a[1..] + b;
      LookupAppend(a[1..], b, name);
    }
  }

  lemma {:induction false} ExtendLast(a: Fields, name: string, value: string, more: string)
    requires !Has(a, name)
    ensures Extend(a + [(name, value)], name, more) == a + [(name, value + more)]
  {
    var all := a + [(name, value)];
    if a == [] {
      assert all[1..] == [];
    } else {
      assert all[0] == a[0] && all[1..] == a[1..] + [(name, value)];
      ExtendLast(a[1..], name, value, more);
      assert [a[0]] + (a[1..] + [(name, value + more)]) == a + [(name, value + more)];
    }
  }

  lemma {:induction false} ReadComments(p: Parse, comments: seq<string>)
    requires p.values == [] && forall c :: c in comments ==> GoodComment(c)
    ensures ReadLines(p, comments) == Some(p.(comments := p.comments + comments))
    decreases |comments|
  {
    hide ReadLine, GoodComment;
    if comments == [] {
      assert p.comments + comments == p.comments;
    } else {
      ReadComment(p, comments[0]);
      ReadComments(p.(comments := p.comments + [comments[0]]), comments[1..]);
      assert p.comments + [comments[0]] + comments[1..] == p.comments + comments;
    }
  }

  lemma {:induction false} ReadChunks(p: Parse, a: Fields, name: string, value: string, chunks: seq<string>)
    requires p.current == Some(name) && p.values == a + [(name, value)] && !Has(a, name)
    ensures ReadLines(p, Quoted(chunks)) == Some(p.(values := a + [(name, value + Concat(chunks))]))
    decreases |chunks|
  {
    hide ReadLine, Quote, Has;
    if chunks == [] {
      assert value + Concat(chunks) == value;
    } else {
      ReadChunk(p, chunks[0]);
      ExtendLast(a, name, value, chunks[0]);
      var q := p.(values := a + [(name, value + chunks[0])]);
      ReadChunks(q, a, name, value + chunks[0], chunks[1..]);
      assert Quoted(chunks)[1..] == Quoted(chunks[1..]);
      Associative(value, chunks[0], Concat(chunks[1..]));
    }
  }

  /** The index that a written name stands for. */
  function ReadBackIndex(key: MessageKey, index: nat): nat {
    if key.plural != "" then index else 0
  }

  lemma IndexNameIsFieldName(key: MessageKey, index: nat)
    ensures var name := IndexName(key, index);
      && IsFieldName(name) && "msgstr" <= name && name != "msgid" && name != "msgctxt" && name != "msgid_plural"
      && IndexOf(name) == ReadBackIndex(key, index)
  {
    var name := IndexName(key, index);
    if key.plural != "" {
      assert name[7..|name| - 1] == Decimal(index);
      NumberOfDecimal(index);
      assert name[..7] == "msgstr[";
      assert name[..6] == "msgstr";
      assert name[3] == 's';
    }
  }

  /** A translation becomes one field, however many lines it takes. */
  lemma ReadValue(p: Parse, key: MessageKey, index: nat, value: string)
    requires !Has(p.values, IndexName(key, index))
    ensures ReadLines(p, ValueLines(key, index, value))
         == Some(p.(values := p.values + [(IndexName(key, index), value)], current := Some(IndexName(key, index))))
  {
    hide ReadLine, Quote, Has, LinesKept, IndexName, ReadLines;
    IndexNameIsFieldName(key, index);
    var name := IndexName(key, index);
    if key.message == "" {
      ReadField(p, name, "");
      ReadOne(p, FieldLine(name, ""));
      ReadLinesAppend(p, [FieldLine(name, "")], Quoted(LinesKept(value)));
      ReadChunks(p.(values := p.values + [(name, "")], current := Some(name)), p.values, name, "", LinesKept(value));
      LinesKeptJoin(value);
      assert "" + value == value;
    } else {
      ReadField(p, name, value);
      ReadOne(p, FieldLine(name, value));
    }
  }

  /** The fields of an entry's translations, in the order they are written. */
  function ValueFields(e: CatalogEntry, indices: seq<nat>): Fields
    requires forall i :: i in indices ==> i in e.translations
  {
    if indices == [] then []
    else [(IndexName(e.key, indices[0]), e.translations[indices[0]])] + ValueFields(e, indices[1..])
  }

  /** No two of the indices are written under one name. */
  predicate NamesDiffer(key: MessageKey, indices: seq<nat>) {
    forall i, j :: 0 <= i < j < |indices| ==> ReadBackIndex(key, indices[i]) != ReadBackIndex(key, indices[j])
  }

  lemma SameNameSameIndex(key: MessageKey, a: nat, b: nat)
    ensures IndexName(key, a) == IndexName(key, b) <==> ReadBackIndex(key, a) == ReadBackIndex(key, b)
  {
    IndexNameIsFieldName(key, a);
    IndexNameIsFieldName(key, b);
  }

  predicate NoneWritten(fields: Fields, key: MessageKey, indices: seq<nat>) {
    forall i :: i in indices ==> !Has(fields, IndexName(key, i))
  }

  lemma HasOneMore(fields: Fields, name: string, value: string, other: string)
    ensures Has(fields + [(name, value)], other) <==> Has(fields, other) || name == other
  {
    LookupAppend(fields, [(name, value)], other);
  }

  lemma StillNoneWritten(fields: Fields, key: MessageKey, indices: seq<nat>, value: string)
    requires indices != [] && NoneWritten(fields, key, indices) && NamesDiffer(key, indices)
    ensures NoneWritten(fields + [(IndexName(key, indices[0]), value)], key, indices[1..])
            && NamesDiffer(key, indices[1..])
  {
    hide Has;
    forall i | i in indices[1..] ensures !Has(fields + [(IndexName(key, indices[0]), value)], IndexName(key, i)) {
      var k :| 0 <= k < |indices[1..]| && indices[1..][k] == i;
      assert indices[k + 1] == i;
      SameNameSameIndex(key, indices[0], i);
      HasOneMore(fields, IndexName(key, indices[0]), value, IndexName(key, i));
    }
  }

  lemma {:induction false} ReadTranslations(p: Parse, e: CatalogEntry, indices: seq<nat>)
    requires forall i :: i in indices ==> i in e.translations
    requires NoneWritten(p.values, e.key, indices) && NamesDiffer(e.key, indices)
    ensures var q := ReadLines(p, TranslationLines(e, indices));
      q.Some? && q.value == p.(values := p.values + ValueFields(e, indices), current := q.value.current)
    decreases |indices|
  {
    hide Has, IndexName, ValueLines, NoneWritten, NamesDiffer, ReadLines;
    if indices == [] {
      NothingRead(p);
      assert p.values + ValueFields(e, indices) == p.values;
    } else {
      var name, value := IndexName(e.key, indices[0]), e.translations[indices[0]];
      FirstUnwritten(p.values, e.key, indices);
      ReadValue(p, e.key, indices[0], value);
      StillNoneWritten(p.values, e.key, indices, value);
      var q := p.(values := p.values + [(name, value)], current := Some(name));
      ReadTranslations(q, e, indices[1..]);
      ReadLinesAppend(p, ValueLines(e.key, indices[0], value), TranslationLines(e, indices[1..]));
      Associative(p.values, [(name, value)], ValueFields(e, indices[1..]));
    }
  }

  lemma NothingRead(p: Parse)
    ensures ReadLines(p, []) == Some(p)
  {
  }

  lemma FirstUnwritten(fields: Fields, key: MessageKey, indices: seq<nat>)
    requires indices != [] && NoneWritten(fields, key, indices)
    ensures !Has(fields, IndexName(key, indices[0]))
  {
  }

  /** A repeated name is refused. */
  lemma RepeatedNameFails(p: Parse, key: MessageKey, index: nat, value: string)
    requires Has(p.values, IndexName(key, index))
    ensures ReadLines(p, ValueLines(key, index, value)) == None
  {
    hide ReadLine, Quote, Has, LinesKept, IndexName;
    IndexNameIsFieldName(key, index);
    ReadField(p, IndexName(key, index), if key.message == "" then "" else value);
  }

  /** Fields that can be read one after the other without ending an entry. */
  predicate Acceptable(values: Fields, fields: Fields)
    decreases |fields|
  {
    fields == [] ||
    (&& IsFieldName(fields[0].0) && !Has(values, fields[0].0)
     && (fields[0].0 == "msgctxt" || fields[0].0 == "msgid" ==> !Has(values, "msgid"))
     && Acceptable(values + [fields[0]], fields[1..]))
  }

  lemma {:induction false} ReadFields(p: Parse, fields: Fields)
    requires Acceptable(p.values, fields)
    ensures var q := ReadLines(p, FieldLines(fields));
      q.Some? && q.value == p.(values := p.values + fields, current := q.value.current)
    decreases |fields|
  {
    hide ReadLine, ReadLines, IsFieldName, Has, FieldLine;
    if fields == [] {
      NothingRead(p);
      assert p.values + fields == p.values;
    } else {
      var (name, value) := fields[0];
      var q := p.(values := p.values + [fields[0]], current := Some(name));
      ReadField(p, name, value);
      ReadOne(p, FieldLine(name, value));
      ReadFields(q, fields[1..]);
      ReadLinesAppend(p, [FieldLine(name, value)], FieldLines(fields[1..]));
      Associative(p.values, [fields[0]], fields[1..]);
      assert [fields[0]] + fields[1..] == fields;
    }
  }

  lemma LookupOne(field: (string, string), name: string)
    ensures Lookup([field], name) == if field.0 == name then Some(field.1) else None
  {
  }

  lemma HeadIsAcceptable(key: MessageKey)
    ensures Acceptable([], HeadFields(key))
  {
    hide IsIndexed;
    var context, message, plural := ("msgctxt", key.context), ("msgid", key.message), ("msgid_plural", key.plural);
    var before := if key.context != "" then [context] else [];
    LookupOne(context, "msgid");
    LookupOne(context, "msgid_plural");
    HasOneMore(before, "msgid", key.message, "msgid_plural");
    var last := if key.plural != "" then [plural] else [];
    assert Acceptable(before + [message], last);
    assert ([message] + last)[1..] == last;
    assert Acceptable(before, [message] + last);
    if key.context != "" {
      assert [] + [context] == before;
      assert ([context] + [message] + last)[1..] == [message] + last;
      assert HeadFields(key) == [context] + [message] + last;
      assert Acceptable([], [context] + [message] + last);
    } else {
      assert HeadFields(key) == [message] + last;
    }
  }

  lemma HeadLookups(key: MessageKey, name: string)
    ensures Lookup(HeadFields(key), name) ==
      if name == "msgctxt" && key.context != "" then Some(key.context)
      else if name == "msgid" then Some(key.message)
      else if name == "msgid_plural" && key.plural != "" then Some(key.plural)
      else None
  {
    var before := if key.context != "" then [("msgctxt", key.context)] else [];
    var last := if key.plural != "" then [("msgid_plural", key.plural)] else [];
    LookupAppend(before + [("msgid", key.message)], last, name);
    LookupAppend(before, [("msgid", key.message)], name);
  }

  // ----- One entry finished -----

  lemma {:induction false} TranslationsOntoAppend(t: map<nat, string>, a: Fields, b: Fields)
    ensures TranslationsOnto(t, a + b) == TranslationsOnto(TranslationsOnto(t, a), b)
    decreases |a|
  {
    hide IndexOf;
    if a == [] {
      assert a + b == b;
    } else {
      assert (a + b)[0] == a[0] && (a + b)[1..] == a[1..] + b;
      if "msgstr" <= a[0].0 {
        TranslationsOntoAppend(t[IndexOf(a[0].0) := a[0].1], a[1..], b);
      } else {
        TranslationsOntoAppend(t, a[1..], b);
      }
    }
  }

  lemma NoTranslation(t: map<nat, string>, name: string, value: string)
    requires name == "msgctxt" || name == "msgid" || name == "msgid_plural"
    ensures TranslationsOnto(t, [(name, value)]) == t
  {
    assert name[3] != "msgstr"[3];
  }

  lemma HeadHasNoTranslations(key: MessageKey)
    ensures TranslationsOnto(map[], HeadFields(key)) == map[]
  {
    hide TranslationsOnto;
    var before := if key.context != "" then [("msgctxt", key.context)] else [];
    var last := if key.plural != "" then [("msgid_plural", key.plural)] else [];
    NoTranslation(map[], "msgctxt", key.context);
    NoTranslation(map[], "msgid", key.message);
    NoTranslation(map[], "msgid_plural", key.plural);
    NothingTranslated(map[]);
    TranslationsOntoAppend(map[], before, [("msgid", key.message)]);
    TranslationsOntoAppend(map[], before + [("msgid", key.message)], last);
  }

  lemma NothingTranslated(t: map<nat, string>)
    ensures TranslationsOnto(t, []) == t
  {
  }

  lemma OneTranslation(t: map<nat, string>, key: MessageKey, index: nat, value: string)
    ensures TranslationsOnto(t, [(IndexName(key, index), value)]) == t[ReadBackIndex(key, index) := value]
  {
    IndexNameIsFieldName(key, index);
    hide IndexName, IndexOf;
    assert [(IndexName(key, index), value)][1..] == [];
  }

  /** What an entry is read back as. */
  function ReadBack(e: CatalogEntry): CatalogEntry {
    e.(translations := TranslationsOnto(map[], ValueFields(e, Sorted(e.translations.Keys))))
  }

  /** Without a plural the index is not written. */
  predicate IndicesOk(e: CatalogEntry) {
    e.key.plural == "" ==> forall i :: i in e.translations ==> i == 0
  }

  lemma {:induction false} ValuesReadBack(t: map<nat, string>, e: CatalogEntry, indices: seq<nat>)
    requires forall i :: i in indices ==> i in e.translations
    ensures e.key.plural == "" && t.Keys <= {0} ==> TranslationsOnto(t, ValueFields(e, indices)).Keys <= {0}
    ensures (forall i :: i in indices ==> ReadBackIndex(e.key, i) == i) ==>
      TranslationsOnto(t, ValueFields(e, indices)) == t + map i | i in indices :: e.translations[i]
    decreases |indices|
  {
    hide TranslationsOnto, IndexName;
    if indices == [] {
      NothingTranslated(t);
    } else {
      var i, rest := indices[0], indices[1..];
      var more := t[ReadBackIndex(e.key, i) := e.translations[i]];
      TranslationsOntoAppend(t, [(IndexName(e.key, i), e.translations[i])], ValueFields(e, rest));
      OneTranslation(t, e.key, i, e.translations[i]);
      ValuesReadBack(more, e, rest);
      if forall j :: j in indices ==> ReadBackIndex(e.key, j) == j {
        var all, tail := map j | j in indices :: e.translations[j], map j | j in rest :: e.translations[j];
        assert t + all == more + tail;
      }
    }
  }

  /** An entry comes back as it was exactly when its indices are those its key allows. */
  lemma ReadBackIsSame(e: CatalogEntry)
    ensures ReadBack(e) == e <==> IndicesOk(e)
  {
    hide TranslationsOnto, ValueFields, Sorted;
    var indices := Sorted(e.translations.Keys);
    ValuesReadBack(map[], e, indices);
    if IndicesOk(e) {
      assert forall i :: i in indices ==> ReadBackIndex(e.key, i) == i;
      assert map[] + (map i | i in indices :: e.translations[i]) == e.translations;
    } else {
      assert ReadBack(e).translations.Keys <= {0};
    }
  }

  lemma ValuesHaveOnlyTheirNames(e: CatalogEntry, indices: seq<nat>, name: string)
    requires forall i :: i in indices ==> i in e.translations
    requires name == "msgid" || name == "msgctxt" || name == "msgid_plural"
    ensures Lookup(ValueFields(e, indices), name) == None
    decreases |indices|
  {
    hide IndexName;
    if indices != [] {
      IndexNameIsFieldName(e.key, indices[0]);
      ValuesHaveOnlyTheirNames(e, indices[1..], name);
    }
  }

  lemma FinishedEntry(p: Parse, e: CatalogEntry, indices: seq<nat>)
    requires forall i :: i in indices ==> i in e.translations
    requires p.values == HeadFields(e.key) + ValueFields(e, indices)
    ensures Finished(p) == if HasKey(p.entries, e.key) then None
      else Some(Parse(p.entries + [CatalogEntry(e.key, TranslationsOnto(map[], ValueFields(e, indices)), p.comments)],
          [], [], None))
  {
    hide HeadFields, ValueFields, TranslationsOnto, Lookup, HasKey;
    HeadLookups(e.key, "msgid");
    HeadLookups(e.key, "msgctxt");
    HeadLookups(e.key, "msgid_plural");
    LookupAppend(HeadFields(e.key), ValueFields(e, indices), "msgid");
    LookupAppend(HeadFields(e.key), ValueFields(e, indices), "msgctxt");
    LookupAppend(HeadFields(e.key), ValueFields(e, indices), "msgid_plural");
    ValuesHaveOnlyTheirNames(e, indices, "msgctxt");
    ValuesHaveOnlyTheirNames(e, indices, "msgid_plural");
    HeadHasNoTranslations(e.key);
    TranslationsOntoAppend(map[], HeadFields(e.key), ValueFields(e, indices));
  }

  predicate CommentsOk(e: CatalogEntry) {
    forall c :: c in e.comments ==> GoodComment(c)
  }

  function Between(entries: seq<CatalogEntry>): Parse {
    Parse(entries, [], [], None)
  }

  lemma HeadHasNoValues(key: MessageKey, indices: seq<nat>)
    ensures NoneWritten(HeadFields(key), key, indices)
  {
    hide HeadFields, IndexName;
    forall i | i in indices ensures !Has(HeadFields(key), IndexName(key, i)) {
      IndexNameIsFieldName(key, i);
      HeadLookups(key, IndexName(key, i));
    }
  }

  lemma NamesOfSorted(e: CatalogEntry)
    ensures var indices := Sorted(e.translations.Keys);
      NamesDiffer(e.key, indices) || (|indices| >= 2 && e.key.plural == "")
    ensures IndicesOk(e) ==> NamesDiffer(e.key, Sorted(e.translations.Keys))
  {
    hide Sorted;
    var indices := Sorted(e.translations.Keys);
    assert forall i :: 0 <= i < |indices| ==> indices[i] in e.translations;
  }

  /** The lines of an entry up to its blank line, read after a finished entry. */
  lemma ReadComposed(done: seq<CatalogEntry>, e: CatalogEntry) returns (p: Parse)
    requires CommentsOk(e)
    ensures p.entries == done && p.comments == e.comments && p.values == HeadFields(e.key)
    ensures ReadLines(Between(done), e.comments + FieldLines(HeadFields(e.key))) == Some(p)
  {
    hide ReadLines, HeadFields, GoodComment, Acceptable;
    ReadComments(Between(done), e.comments);
    assert [] + e.comments == e.comments;
    var q := Between(done).(comments := e.comments);
    HeadIsAcceptable(e.key);
    ReadFields(q, HeadFields(e.key));
    p := ReadLines(q, FieldLines(HeadFields(e.key))).value;
    assert [] + HeadFields(e.key) == HeadFields(e.key);
    ReadLinesAppend(Between(done), e.comments, FieldLines(HeadFields(e.key)));
  }

  lemma ReadBlank(p: Parse)
    ensures ReadLine(p, "") == Finished(p)
  {
  }

  /** One entry's lines add what it reads back as, unless two of its indices share a name or its key is taken. */
  lemma ReadEntry(done: seq<CatalogEntry>, e: CatalogEntry)
    requires CommentsOk(e)
    ensures ReadLines(Between(done), EntryLines(e)) ==
      if !NamesDiffer(e.key, Sorted(e.translations.Keys)) || HasKey(done, e.key) then None
        else Some(Between(done + [ReadBack(e)]))
  {
    hide ReadLines, ReadLine, Finished, HeadFields, TranslationLines, ValueFields, NamesDiffer, CommentsOk, Sorted,
      HasKey, TranslationsOnto, FieldLines;
    var indices := Sorted(e.translations.Keys);
    var head := e.comments + FieldLines(HeadFields(e.key));
    var p := ReadComposed(done, e);
    HeadHasNoValues(e.key, indices);
    ReadLinesAppend(Between(done), head + TranslationLines(e, indices), [""]);
    ReadLinesAppend(Between(done), head, TranslationLines(e, indices));
    if NamesDiffer(e.key, indices) {
      ReadTranslations(p, e, indices);
      var q := ReadLines(p, TranslationLines(e, indices)).value;
      ReadOne(q, "");
      ReadBlank(q);
      FinishedEntry(q, e, indices);
    } else {
      NamesOfSorted(e);
      RepeatedTranslation(p, e, indices);
    }
  }

  lemma RepeatedTranslation(p: Parse, e: CatalogEntry, indices: seq<nat>)
    requires forall i :: i in indices ==> i in e.translations
    requires e.key.plural == "" && |indices| >= 2 && NoneWritten(p.values, e.key, indices)
    ensures ReadLines(p, TranslationLines(e, indices)) == None
  {
    hide ReadLines, ReadLine, ValueLines, Has;
    var i, j, rest := indices[0], indices[1], indices[2..];
    var first, second := ValueLines(e.key, i, e.translations[i]), ValueLines(e.key, j, e.translations[j]);
    assert indices[1..][0] == j && indices[1..][1..] == rest;
    assert TranslationLines(e, indices) == first + (second + TranslationLines(e, rest));
    ReadValue(p, e.key, i, e.translations[i]);
    var q := ReadLines(p, first).value;
    HasOneMore(p.values, "msgstr", e.translations[i], "msgstr");
    RepeatedNameFails(q, e.key, j, e.translations[j]);
    ReadLinesAppend(q, second, TranslationLines(e, rest));
    ReadLinesAppend(p, first, second + TranslationLines(e, rest));
  }

  // ----- The whole catalog -----

  predicate DistinctKeys(entries: seq<CatalogEntry>) {
    forall i, j :: 0 <= i < j < |entries| ==> entries[i].key != entries[j].key
  }

  /** Lines without breaks come back from the joined text. */
  lemma {:induction false} LinesOfJoined(lines: seq<string>)
    requires forall l :: l in lines ==> !HasBreak(l)
    ensures Lines(Joined(lines + [""])) == lines
  {
    hide HasBreak;
    if lines != [] {
      var rest := lines[1..] + [""];
      assert (lines + [""])[0] == lines[0] && (lines + [""])[1..] == rest;
      OneLine(lines[0], Joined(rest));
      LinesOfJoined(lines[1..]);
    }
  }

  predicate Unbroken(lines: seq<string>) {
    forall l :: l in lines ==> !HasBreak(l)
  }

  lemma {:induction false} CatalogEndsBlank(entries: seq<CatalogEntry>) returns (lines: seq<string>)
    requires entries != []
    ensures CatalogLines(entries) == lines + [""]
  {
    hide EntryLines;
    var e := entries[0];
    if |entries| == 1 {
      lines := BeforeBlank(e);
      assert CatalogLines(entries) == EntryLines(e) + [];
    } else {
      var rest := CatalogEndsBlank(entries[1..]);
      lines := EntryLines(e) + rest;
    }
  }

  lemma BeforeBlank(e: CatalogEntry) returns (lines: seq<string>)
    ensures EntryLines(e) == lines + [""]
  {
    lines := e.comments + FieldLines(HeadFields(e.key)) + TranslationLines(e, Sorted(e.translations.Keys));
  }

  /** Reading unbroken rendered text is reading its lines. */
  lemma CatalogOfUnbroken(entries: seq<CatalogEntry>)
    requires Unbroken(CatalogLines(entries))
    ensures Catalog(Rendered(entries)) == match ReadLines(START, CatalogLines(entries))
            case Some(p) => Some(p.entries)
            case None => None
  {
    hide ReadLines, ReadLine, CatalogLines, Finished;
    if entries == [] {
      EmptyCatalog();
    } else {
      var lines := CatalogEndsBlank(entries);
      forall l | l in lines ensures !HasBreak(l) {
        assert l in CatalogLines(entries);
      }
      LinesOfJoined(lines);
      ReadLinesAppend(START, lines, [""]);
      if ReadLines(START, lines).Some? {
        ReadOne(ReadLines(START, lines).value, "");
        ReadBlank(ReadLines(START, lines).value);
      }
    }
  }

  lemma EmptyCatalog()
    ensures CatalogLines([]) == [] && ReadLines(START, []) == Some(START) && Catalog(Rendered([])) == Some([])
  {
  }

  predicate TextOk(e: CatalogEntry) {
    && !HasLooseBreak(e.key.context) && !HasLooseBreak(e.key.message) && !HasLooseBreak(e.key.plural)
    && forall i :: i in e.translations ==> !HasLooseBreak(e.translations[i])
  }

  /** What a catalog needs to survive being written: a caller can check it before writing. */
  predicate Renderable(entries: seq<CatalogEntry>) {
    && DistinctKeys(entries)
    && forall e :: e in entries ==> CommentsOk(e) && TextOk(e) && IndicesOk(e)
  }

  lemma NextKeyIsNew(done: seq<CatalogEntry>, entries: seq<CatalogEntry>)
    requires entries != [] && DistinctKeys(done + entries)
    ensures !HasKey(done, entries[0].key) && done + [entries[0]] + entries[1..] == done + entries
  {
    assert (done + entries)[|done|] == entries[0];
    forall i | 0 <= i < |done| ensures done[i].key != entries[0].key {
      assert (done + entries)[i] == done[i];
    }
  }

  lemma {:induction false} EntriesFollow(done: seq<CatalogEntry>, entries: seq<CatalogEntry>)
    requires DistinctKeys(done + entries)
    requires forall e :: e in entries ==> CommentsOk(e) && IndicesOk(e)
    ensures ReadLines(Between(done), CatalogLines(entries)) == Some(Between(done + entries))
    decreases |entries|
  {
    hide EntryLines, ReadLines, CommentsOk, IndicesOk, NamesDiffer, DistinctKeys, HasKey;
    if entries == [] {
      NothingRead(Between(done));
      assert done + entries == done;
    } else {
      var e, rest := entries[0], entries[1..];
      NextKeyIsNew(done, entries);
      NamesOfSorted(e);
      ReadBackIsSame(e);
      ReadEntry(done, e);
      EntriesFollow(done + [e], rest);
      ReadLinesAppend(Between(done), EntryLines(e), CatalogLines(rest));
    }
  }

  // ----- Why the conditions are needed -----

  /** What every state of the reader satisfies. */
  predicate Sound(p: Parse) {
    && DistinctKeys(p.entries)
    && (forall e :: e in p.entries ==> CommentsOk(e))
    && (forall c :: c in p.comments ==> GoodComment(c))
  }

  lemma FinishedIsSound(p: Parse)
    requires Sound(p) && Finished(p).Some?
    ensures Sound(Finished(p).value) && p.entries <= Finished(p).value.entries
  {
    hide GoodComment, TranslationsOnto;
    var q := Finished(p).value;
    forall i, j | 0 <= i < j < |q.entries| ensures q.entries[i].key != q.entries[j].key {
      if j == |p.entries| {
        assert p.entries[i].key == q.entries[i].key;
      }
    }
  }

  lemma StripIsInside(s: string)
    ensures Strip(s) <= TrimStart(s) && |TrimStart(s)| <= |s| && s[|s| - |TrimStart(s)|..] == TrimStart(s)
  {
  }

  lemma StripCuts(s: string)
    ensures HasBreak(Strip(s)) ==> HasBreak(s)
  {
    var a, b := TrimStart(s), Strip(s);
    hide Strip, TrimStart, TrimEnd, IsBreak, IsSpace;
    assert b <= a && s[|s| - |a|..] == a by {
      StripIsInside(s);
    }
    if HasBreak(b) {
      var i :| 0 <= i < |b| && IsBreak(b[i]);
      assert s[|s| - |a| + i] == a[i] == b[i];
    }
  }

  lemma LineIsSound(p: Parse, raw: string)
    requires Sound(p) && !HasBreak(raw) && ReadLine(p, raw).Some?
    ensures Sound(ReadLine(p, raw).value) && p.entries <= ReadLine(p, raw).value.entries
  {
    hide Finished, FieldOf, DecodeQuoted, Strip, HasBreak, CommentsOk, DistinctKeys, Has, Extend;
    StripCuts(raw);
    StripIsStripped(raw);
    if Finished(p).Some? {
      FinishedIsSound(p);
    }
  }

  lemma {:induction false} LinesAreUnbroken(t: string)
    ensures Unbroken(Lines(t))
    decreases |t|
  {
    if t != "" {
      LinesAreUnbroken(t[FirstLine(t)..]);
      var line := t[..LineLength(t)];
      assert forall i :: 0 <= i < |line| ==> line[i] == t[i];
    }
  }

  lemma {:induction false} LinesAreSound(p: Parse, lines: seq<string>)
    requires Sound(p) && Unbroken(lines) && ReadLines(p, lines).Some?
    ensures Sound(ReadLines(p, lines).value) && p.entries <= ReadLines(p, lines).value.entries
    decreases |lines|
  {
    hide ReadLine, Sound;
    if lines != [] {
      assert lines[0] in lines;
      LineIsSound(p, lines[0]);
      LinesAreSound(ReadLine(p, lines[0]).value, lines[1..]);
    }
  }

  /** Whatever text a catalog was read from, its keys are distinct and its comments are comments. */
  lemma CatalogIsSound(text: string)
    requires Catalog(text).Some?
    ensures DistinctKeys(Catalog(text).value) && forall e :: e in Catalog(text).value ==> CommentsOk(e)
  {
    hide ReadLines, Finished, CommentsOk;
    LinesAreUnbroken(text);
    LinesAreSound(START, Lines(text));
    FinishedIsSound(ReadLines(START, Lines(text)).value);
  }

  /** A line that is cut when the text is split again, and whose first piece no reader accepts. */
  ghost predicate Doomed(line: string) {
    HasBreak(line) && forall p :: ReadLine(p, line[..LineLength(line)]) == None
  }

  /** A prefix of a written string never closes it. */
  lemma {:induction false} PrefixNeverCloses(s: string, w: string)
    requires w + "\"" <= Escape(s)
    ensures Unescape(w) == None
    decreases |s|
  {
    hide Unescape, EscapeChar, PythonEscape;
    assert s != "";
    var e, rest := EscapeChar(s[0]), Escape(s[1..]);
    if |e| <= |w| {
      assert w[..|e|] == (w + "\"")[..|e|] == Escape(s)[..|e|] == e;
      assert (w + "\"")[|e|..] == w[|e|..] + "\"";
      assert Escape(s)[|e|..] == rest;
      PrefixNeverCloses(s[1..], w[|e|..]);
      UnescapeOne(s[0], w[|e|..]);
      assert w == e + w[|e|..];
    } else {
      assert e[|w|] == (w + "\"")[|w|];
      assert forall i :: 0 <= i < |w| ==> e[i] == (w + "\"")[i] == w[i];
      EscapeHoldsQuoteAtOne(s[0], |w|);
      assert w == "\\";
      LoneBackslash();
    }
  }

  lemma EscapeHoldsQuoteAtOne(c: char, i: nat)
    requires i < |EscapeChar(c)| && EscapeChar(c)[i] == '"'
    ensures i == 1 && EscapeChar(c)[0] == '\\'
  {
  }

  lemma LoneBackslash()
    ensures Unescape("\\") == None
  {
    assert "\\"[1..] == "";
  }

  lemma CutQuoteFails(s: string, w: string)
    requires w <= Escape(s)
    ensures DecodeQuoted("\"" + w) == None
  {
    hide Escape, Unescape;
    var q := "\"" + w;
    if |w| > 0 && w[|w| - 1] == '"' {
      var inside := w[..|w| - 1];
      assert q[1..|q| - 1] == inside;
      assert inside + "\"" == w;
      PrefixNeverCloses(s, inside);
    }
  }

  lemma {:induction false} TrimEndStops(a: string, w: string) returns (v: string)
    requires a != "" && !IsSpace(a[|a| - 1])
    ensures v <= w && TrimEnd(a + w) == a + v
  {
    if w == "" || !IsSpace(w[|w| - 1]) {
      v := w;
      assert w == "" ==> a + w == a;
    } else {
      assert (a + w)[..|a + w| - 1] == a + w[..|w| - 1];
      v := TrimEndStops(a, w[..|w| - 1]);
    }
  }

  /** A string cut inside its quotes fails, alone or after a field name. */
  lemma CutFails(p: Parse, name: string, s: string, w: string)
    requires name == "" || IsFieldName(name)
    requires w <= Escape(s)
    ensures ReadLine(p, (if name == "" then "" else name + " ") + "\"" + w) == None
  {
    hide Escape, DecodeQuoted, FieldOf, TrimEnd, IsFieldName, WithField, WithComment;
    var head := if name == "" then "" else name + " ";
    var a := head + "\"";
    var v := TrimEndStops(a, w);
    if name != "" {
      FieldNameIsPlain(name);
    }
    assert !IsSpace((a + w)[0]);
    var line := Strip(a + w);
    assert line == a + v;
    CutQuoteFails(s, v);
    if name == "" {
      assert line == "\"" + v;
      QuotedIsNoField(line);
    } else {
      assert line == name + " " + ("\"" + v);
      FieldOfParts(name, "\"" + v);
      assert line[0] == 'm';
    }
  }

  /** A written string with a break in it dooms its line. */
  lemma BrokenStringIsDoomed(name: string, s: string)
    requires name == "" || IsFieldName(name)
    requires HasLooseBreak(s)
    ensures Doomed((if name == "" then "" else name + " ") + Quote(s))
  {
    hide ReadLine, IsFieldName, Escape;
    var head := if name == "" then "" else name + " ";
    var a, line := head + "\"", head + Quote(s);
    QuotedHasBreak(s);
    HasBreakAppend(head, Quote(s));
    if name != "" {
      FieldNameIsPlain(name);
    }
    assert line == a + (Escape(s) + "\"");
    assert forall i :: 0 <= i < |a| ==> line[i] == a[i] && !IsBreak(a[i]);
    var i :| 0 <= i < |line| && IsBreak(line[i]);
    var n := LineLength(line);
    assert line[|line| - 1] == '"';
    assert |a| <= n < |line| - 1;
    var w := Escape(s)[..n - |a|];
    assert line[..n] == a + w;
    forall p ensures ReadLine(p, line[..n]) == None {
      CutFails(p, name, s, w);
    }
  }

  lemma {:induction false} FieldIsOnALine(fields: Fields, name: string, value: string)
    requires (name, value) in fields
    ensures FieldLine(name, value) in FieldLines(fields)
  {
    hide FieldLine;
    if fields[0] != (name, value) {
      FieldIsOnALine(fields[1..], name, value);
    }
  }

  lemma {:induction false} ChunkIsOnALine(chunks: seq<string>) returns (chunk: string)
    requires HasLooseBreak(Concat(chunks))
    ensures HasLooseBreak(chunk) && Quote(chunk) in Quoted(chunks)
  {
    hide Quote;
    var rest := Concat(chunks[1..]);
    if HasLooseBreak(chunks[0]) {
      chunk := chunks[0];
    } else {
      var i :| 0 <= i < |Concat(chunks)| && IsLooseBreak(Concat(chunks)[i]);
      assert i >= |chunks[0]| && rest[i - |chunks[0]|] == Concat(chunks)[i];
      chunk := ChunkIsOnALine(chunks[1..]);
    }
  }

  lemma BrokenValueIsDoomed(key: MessageKey, index: nat, value: string) returns (line: string)
    requires HasLooseBreak(value)
    ensures line in ValueLines(key, index, value) && Doomed(line)
  {
    hide Quote, LinesKept, HasLooseBreak, Doomed, IndexName;
    IndexNameIsFieldName(key, index);
    if key.message == "" {
      LinesKeptJoin(value);
      var chunk := ChunkIsOnALine(LinesKept(value));
      BrokenStringIsDoomed("", chunk);
      line := Quote(chunk);
      assert "" + line == line;
    } else {
      line := FieldLine(IndexName(key, index), value);
      BrokenStringIsDoomed(IndexName(key, index), value);
    }
  }

  lemma {:induction false} ValueIsOnLines(e: CatalogEntry, indices: seq<nat>, index: nat)
    requires index in indices && forall i :: i in indices ==> i in e.translations
    ensures forall l :: l in ValueLines(e.key, index, e.translations[index]) ==> l in TranslationLines(e, indices)
    decreases |indices|
  {
    hide ValueLines;
    if indices[0] != index {
      ValueIsOnLines(e, indices[1..], index);
    }
  }

  lemma BrokenEntryIsDoomed(e: CatalogEntry) returns (line: string)
    requires !TextOk(e)
    ensures line in EntryLines(e) && Doomed(line)
  {
    hide Doomed, HasLooseBreak, FieldLine, FieldLines, TranslationLines, ValueLines, Sorted, Quote;
    assert !HasLooseBreak("") by {
      NoBreakInNothing();
    }
    if i :| i in e.translations && HasLooseBreak(e.translations[i]) {
      line := BrokenValueIsDoomed(e.key, i, e.translations[i]);
      ValueIsOnLines(e, Sorted(e.translations.Keys), i);
    } else {
      var (name, value) := if HasLooseBreak(e.key.context) then ("msgctxt", e.key.context)
        else if HasLooseBreak(e.key.message) then ("msgid", e.key.message)
        else ("msgid_plural", e.key.plural);
      FieldIsOnALine(HeadFields(e.key), name, value);
      line := DoomedField(name, value);
    }
  }

  lemma NoBreakInNothing()
    ensures !HasLooseBreak("")
  {
  }

  lemma DoomedField(name: string, value: string) returns (line: string)
    requires IsFieldName(name) && name != "" && HasLooseBreak(value)
    ensures line == FieldLine(name, value) && Doomed(line)
  {
    hide Doomed;
    line := FieldLine(name, value);
    BrokenStringIsDoomed(name, value);
  }

  lemma {:induction false} LineIsOnCatalog(entries: seq<CatalogEntry>, e: CatalogEntry, line: string)
    requires e in entries && line in EntryLines(e)
    ensures line in CatalogLines(entries)
  {
    hide EntryLines;
    if entries[0] != e {
      LineIsOnCatalog(entries[1..], e, line);
    }
  }

  /** No reader gets past a doomed line. */
  lemma {:induction false} DoomedLineFails(p: Parse, a: seq<string>, line: string, b: seq<string>)
    requires Doomed(line) && b != []
    ensures ReadLines(p, Lines(Joined(a + [line] + b))) == None
    decreases |a|
  {
    hide ReadLines, ReadLine, HasBreak, Lines;
    if a == [] {
      assert ([] + [line] + b)[0] == line && ([] + [line] + b)[1..] == b;
      CutLine(line, Joined(b));
      var lines := Lines(line + "\n" + Joined(b));
      var piece := line[..LineLength(line)];
      assert lines == [piece] + lines[1..];
      ReadOne(p, piece);
      ReadLinesAppend(p, [piece], lines[1..]);
    } else {
      var rest := a[1..] + [line] + b;
      assert (a + [line] + b)[0] == a[0] && (a + [line] + b)[1..] == rest;
      LinesAfterNewline(a[0], Joined(rest));
      ReadLinesAppend(p, Lines(a[0] + "\n"), Lines(Joined(rest)));
      match ReadLines(p, Lines(a[0] + "\n")) {
        case Some(q) => DoomedLineFails(q, a[1..], line, b);
        case None =>
      }
    }
  }

  lemma BrokenTextFails(entries: seq<CatalogEntry>, e: CatalogEntry)
    requires e in entries && !TextOk(e)
    ensures Catalog(Rendered(entries)) == None
  {
    hide ReadLines, Lines, Joined, CatalogLines, TextOk, EntryLines, Finished;
    var line := BrokenEntryIsDoomed(e);
    LineIsOnCatalog(entries, e, line);
    var lines := CatalogEndsBlank(entries);
    assert !HasBreak("");
    var i :| 0 <= i < |lines + [""]| && (lines + [""])[i] == line;
    assert i < |lines|;
    var b := lines[i + 1..] + [""];
    assert CatalogLines(entries) == lines[..i] + [line] + b;
    DoomedLineFails(START, lines[..i], line, b);
  }

  lemma {:induction false} IndicesFollow(done: seq<CatalogEntry>, entries: seq<CatalogEntry>)
    requires forall e :: e in entries ==> CommentsOk(e)
    requires Unbroken(CatalogLines(entries)) && Sound(Between(done))
    requires var q := ReadLines(Between(done), CatalogLines(entries)); q.Some? && q.value.entries == done + entries
    ensures forall e :: e in entries ==> IndicesOk(e)
    decreases |entries|
  {
    hide EntryLines, ReadLines, CommentsOk, IndicesOk, NamesDiffer, HasKey, Sound;
    if entries != [] {
      var e, rest := entries[0], entries[1..];
      ReadLinesAppend(Between(done), EntryLines(e), CatalogLines(rest));
      ReadEntry(done, e);
      var next := done + [ReadBack(e)];
      assert forall l :: l in EntryLines(e) ==> l in CatalogLines(entries);
      assert forall l :: l in CatalogLines(rest) ==> l in CatalogLines(entries);
      LinesAreSound(Between(done), EntryLines(e));
      LinesAreSound(Between(next), CatalogLines(rest));
      assert next <= done + entries;
      assert next[|done|] == (done + entries)[|done|] == e;
      ReadBackIsSame(e);
      assert done + [e] + rest == done + entries;
      IndicesFollow(done + [e], rest);
    }
  }

  lemma {:induction false} RenderableIsUnbroken(entries: seq<CatalogEntry>)
    requires forall e :: e in entries ==> CommentsOk(e) && TextOk(e)
    ensures Unbroken(CatalogLines(entries))
  {
    hide EntryLines, CommentsOk, TextOk, HasBreak;
    if entries != [] {
      RenderableIsUnbroken(entries[1..]);
      EntryIsUnbroken(entries[0]);
    }
  }

  lemma FieldIsUnbroken(name: string, value: string)
    requires IsFieldName(name) && !HasLooseBreak(value)
    ensures !HasBreak(FieldLine(name, value))
  {
    hide IsFieldName, Quote;
    FieldNameIsPlain(name);
    QuotedHasBreak(value);
    HasBreakAppend(name + " ", Quote(value));
    HasBreakAppend(name, " ");
  }

  lemma {:induction false} FieldsAreUnbroken(fields: Fields)
    requires forall f :: f in fields ==> IsFieldName(f.0) && !HasLooseBreak(f.1)
    ensures Unbroken(FieldLines(fields))
  {
    hide FieldLine, HasBreak, HasLooseBreak;
    if fields != [] {
      assert fields[0] in fields;
      FieldIsUnbroken(fields[0].0, fields[0].1);
      FieldsAreUnbroken(fields[1..]);
    }
  }

  lemma {:induction false} ChunksAreUnbroken(chunks: seq<string>)
    requires !HasLooseBreak(Concat(chunks))
    ensures Unbroken(Quoted(chunks))
  {
    hide Quote, HasBreak;
    if chunks != [] {
      var all := Concat(chunks);
      assert forall i :: 0 <= i < |chunks[0]| ==> all[i] == chunks[0][i];
      assert forall i :: 0 <= i < |all| - |chunks[0]| ==> all[|chunks[0]| + i] == Concat(chunks[1..])[i];
      QuotedHasBreak(chunks[0]);
      ChunksAreUnbroken(chunks[1..]);
    }
  }

  lemma ValueIsUnbroken(key: MessageKey, index: nat, value: string)
    requires !HasLooseBreak(value)
    ensures Unbroken(ValueLines(key, index, value))
  {
    hide IndexName, FieldLine, LinesKept, HasBreak;
    IndexNameIsFieldName(key, index);
    FieldIsUnbroken(IndexName(key, index), value);
    FieldIsUnbroken(IndexName(key, index), "");
    LinesKeptJoin(value);
    ChunksAreUnbroken(LinesKept(value));
  }

  lemma {:induction false} TranslationsAreUnbroken(e: CatalogEntry, indices: seq<nat>)
    requires TextOk(e) && forall i :: i in indices ==> i in e.translations
    ensures Unbroken(TranslationLines(e, indices))
    decreases |indices|
  {
    hide ValueLines, HasBreak, HasLooseBreak;
    if indices != [] {
      ValueIsUnbroken(e.key, indices[0], e.translations[indices[0]]);
      TranslationsAreUnbroken(e, indices[1..]);
    }
  }

  lemma EntryIsUnbroken(e: CatalogEntry)
    requires CommentsOk(e) && TextOk(e)
    ensures Unbroken(EntryLines(e))
  {
    hide FieldLines, TranslationLines, Sorted, HasLooseBreak, IsIndexed;
    FieldsAreUnbroken(HeadFields(e.key));
    TranslationsAreUnbroken(e, Sorted(e.translations.Keys));
  }

  /**
   Writing a catalog and reading it back gives the same entries, in the same order,
   exactly when it is renderable: distinct keys, only index 0 without a plural, trimmed
   one-line comments that are not obsolete entries, and no line break JSON leaves alone.
   */
  lemma RoundTripIff(entries: seq<CatalogEntry>)
    ensures Catalog(Rendered(entries)) == Some(entries) <==> Renderable(entries)
  {
    hide ReadLines, CommentsOk, TextOk, IndicesOk, DistinctKeys, Lines, CatalogLines, Unbroken, Catalog, Rendered;
    if Catalog(Rendered(entries)) == Some(entries) {
      CatalogIsSound(Rendered(entries));
      forall e | e in entries ensures TextOk(e) {
        if !TextOk(e) {
          BrokenTextFails(entries, e);
        }
      }
      RenderableIsUnbroken(entries);
      CatalogOfUnbroken(entries);
      EmptyIsSound();
      IndicesFollow([], entries);
    } else if Renderable(entries) {
      RenderableIsUnbroken(entries);
      CatalogOfUnbroken(entries);
      assert [] + entries == entries;
      EntriesFollow([], entries);
    }
  }

  lemma EmptyIsSound()
    ensures Sound(START)
  {
  }
}
