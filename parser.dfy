/** Reading entries out of the text of a bibliography: one row, one entry,
    and every entry of a file. The functions say what is read; the class
    Entry and the method ParseEntries do the reading step by step and are
    proved to read exactly that. */
module Parser {
  import opened Text
  import opened Scan
  import opened Normalize
  import opened Entries
  import opened Order

  // ---------------------------------------------------------------------
  // One row: key = value

  /** A row as read: the field name as stored, the value as stored, and the
      text after the row. */
  datatype Row = Row(key: string, value: string, rest: string)

  /** The value part of a row can be read without an exception: it is not
      empty, a quote opens a complete quoted value, and anything other than
      a brace or a quote starts a word. */
  predicate ValueSafe(v: string) {
    && v != []
    && (v[0] == '"' ==> MatchQuoted(v).Some?)
    && (v[0] != '{' && v[0] != '"' ==> MatchBare(v).Some?)
  }

  /** A row ParseRow reads without an exception: either the row pattern does
      not match, or its value is readable. */
  predicate RowSafe(text: string) {
    match MatchRow(text)
    case None => true
    case Some(m) => ValueSafe(m.1)
  }

  /** A value and the text after it: a braced value up to its matching
      brace, a quoted value with its quotes, or a word, where a word made
      only of digits is wrapped in braces. */
  function ReadValue(v: string): (r: (string, string))
    requires ValueSafe(v)
    ensures |r.1| < |v|
  {
    if v[0] == '{' then
      (v[..MatchEnd(v)], v[MatchEnd(v)..])
    else if v[0] == '"' then
      MatchQuoted(v).value
    else
      var m := MatchBare(v).value;
      (if AllDigits(m.0) then "{" + m.0 + "}" else m.0, m.1)
  }

  /** Entry.ParseRow: None when the row pattern does not match; otherwise
      the field name, CamelCased unless the entry is a macro definition, the
      value and the rest of the text. */
  function ReadRow(entryType: string, text: string): (r: Option<Row>)
    requires RowSafe(text)
    ensures r.Some? ==> |r.value.rest| < |text|
  {
    match MatchRow(text)
    case None => None
    case Some(m) =>
      var key := if entryType != "String" then CamelCased(m.0) else m.0;
      var v := ReadValue(m.1);
      Some(Row(key, v.0, v.1))
  }

  /** Every row up to the end of the text, or up to the first text the row
      pattern does not match, is readable. */
  predicate RowsSafe(entryType: string, text: string)
    decreases |text|
  {
    text == [] ||
    (RowSafe(text) &&
     match ReadRow(entryType, text)
     case None => true
     case Some(row) => RowsSafe(entryType, row.rest))
  }

  /** The fields after reading rows until the text runs out or a row does
      not match; a later row with the same name replaces an earlier one. */
  function ReadRows(entryType: string, text: string, rows: map<string, string>): (r: map<string, string>)
    requires RowsSafe(entryType, text)
    ensures rows.Keys <= r.Keys
    decreases |text|
  {
    if text == [] then rows
    else
      match ReadRow(entryType, text)
      case None => rows
      case Some(row) => ReadRows(entryType, row.rest, rows[row.key := row.value])
  }

  // ---------------------------------------------------------------------
  // One entry: @type{name, rows}

  /** An entry as read, and the text after it. */
  datatype Parsed = Parsed(entry: Record, rest: string)

  /** The text where the rows start: after the name when there is one. */
  function Fields(body: string): string {
    match MatchName(body)
    case None => body
    case Some(n) => n.1
  }

  /** The text of an entry can be read without an exception. */
  predicate EntrySafe(text: string) {
    match MatchHeader(text)
    case None => true
    case Some(h) => RowsSafe(NormalizedEntryType(h.0), Fields(h.1[..MatchEnd(h.1)]))
  }

  /** The entry after its body has been read: the given type, the name
      when the body starts with one (otherwise the name it had), and the
      rows of the body read into its fields. */
  function ReadBody(init: Record, entryType: string, body: string): (r: Record)
    requires RowsSafe(entryType, Fields(body))
    ensures r.entryType == entryType && init.rows.Keys <= r.rows.Keys
    ensures MatchName(body).None? ==> r.entryName == init.entryName
  {
    var name := if MatchName(body).Some? then MatchName(body).value.0 else init.entryName;
    Record(entryType, name, ReadRows(entryType, Fields(body), init.rows))
  }

  /** Entry.ParseFromString on an entry whose value is init: None when the
      header does not match (the entry is left as it was); otherwise the
      entry with its normalized type and its body read, and the text after
      the brace that closes the body. The body starts right after the
      opening brace, and its first character is skipped by the brace
      matching. */
  function ReadEntry(init: Record, text: string): (r: Option<Parsed>)
    requires EntrySafe(text)
    ensures r.Some? ==> |r.value.rest| < |text|
  {
    match MatchHeader(text)
    case None => None
    case Some(h) =>
      var entryType := NormalizedEntryType(h.0);
      var e := MatchEnd(h.1);
      Some(Parsed(ReadBody(init, entryType, h.1[..e]), h.1[e..]))
  }

  /** A new Entry. */
  const Blank := Record("UNKNOWN", "", map[])

  /** Every entry ParseEntries reads is readable. */
  predicate AllSafe(text: string)
    decreases |text|
  {
    EntrySafe(text) &&
    match ReadEntry(Blank, text)
    case None => true
    case Some(p) => p.rest == [] || AllSafe(p.rest)
  }

  /** ParseEntries: entries are read from fresh objects one after another
      until the header no longer matches or nothing is left after an entry;
      the entry after which nothing is left is not kept. */
  function ReadEntries(text: string): (r: seq<Record>)
    requires AllSafe(text)
    ensures |r| <= |text|
    decreases |text|
  {
    match ReadEntry(Blank, text)
    case None => []
    case Some(p) => if p.rest == [] then [] else [p.entry] + ReadEntries(p.rest)
  }

  /** The value part of ParseRow: a braced value up to its matching brace,
      a quoted value, or a word, wrapped in braces when it is a number. */
  method ParseValue(t: string) returns (value: string, rest: string)
    requires ValueSafe(t)
    ensures (value, rest) == ReadValue(t)
  {
    if t[0] == '{' {
      value, rest := FindMatchingParenthesis(t);
    } else if t[0] == '"' {
      var q := MatchQuoted(t);
      value, rest := q.value.0, q.value.1;
    } else {
      var b := MatchBare(t);
      rest := b.value.1;
      value := b.value.0;
      if AllDigits(value) {
        value := "{" + value + "}";
      }
    }
  }

  // ---------------------------------------------------------------------
  // The entry object

  class Entry {
    var entryType: string
    var entryName: string
    var rows: map<string, string>

    function Value(): Record
      reads this
    {
      Record(entryType, entryName, rows)
    }

    constructor ()
      ensures Value() == Blank
    {
      entryType := "UNKNOWN";
      entryName := "";
      rows := map[];
    }

    /** Reads one row into the fields and returns the text after it, or
        None when the row pattern does not match. */
    method ParseRow(text: string) returns (rest: Option<string>)
      requires RowSafe(text)
      modifies this`rows
      ensures ReadRow(entryType, text).None? ==> rest.None? && rows == old(rows)
      ensures ReadRow(entryType, text).Some? ==>
        var row := ReadRow(entryType, text).value;
        rest == Some(row.rest) && rows == old(rows)[row.key := row.value]
    {
      var m := MatchRow(text);
      if m.None? {
        return None;
      }
      var key := m.value.0;
      if entryType != "String" {
        key := CamelCase(key);
      }
      var value, after := ParseValue(m.value.1);
      rows := rows[key := value];
      rest := Some(after);
    }

    /** The row loop of ParseFromString: rows are read until the text runs
        out or a row does not match. */
    method ParseRows(text: string)
      requires RowsSafe(entryType, text)
      modifies this`rows
      ensures rows == ReadRows(entryType, text, old(rows))
    {
      var cur: Option<string> := Some(text);
      while cur.Some? && cur.value != []
        invariant cur.Some? ==> RowsSafe(entryType, cur.value)
        invariant ReadRows(entryType, text, old(rows)) ==
          if cur.Some? then ReadRows(entryType, cur.value, rows) else rows
        decreases if cur.Some? then |cur.value| + 1 else 0
      {
        cur := ParseRow(cur.value);
      }
    }

    /** The body of ParseFromString after the brace matching: the name,
        when there is one, and the rows. */
    method ParseBody(body: string)
      requires RowsSafe(entryType, Fields(body))
      modifies this
      ensures Value() == ReadBody(old(Value()), old(entryType), body)
    {
      var t := body;
      var n := MatchName(body);
      if n.Some? {
        entryName := n.value.0;
        t := n.value.1;
      }
      ParseRows(t);
    }

    /** Reads one entry into this object and returns the text after it, or
        None (leaving the object as it was) when the header does not
        match. */
    method ParseFromString(text: string) returns (rest: Option<string>)
      requires EntrySafe(text)
      modifies this
      ensures ReadEntry(old(Value()), text).None? ==> rest.None? && Value() == old(Value())
      ensures ReadEntry(old(Value()), text).Some? ==>
        var p := ReadEntry(old(Value()), text).value;
        rest == Some(p.rest) && Value() == p.entry
    {
      var m := MatchHeader(text);
      if m.None? {
        return None;
      }
      entryType := m.value.0;
      entryType := NormalizedEntryType(entryType);
      var body, after := FindMatchingParenthesis(m.value.1);
      ParseBody(body);
      rest := Some(after);
    }

    /** The entry as text; the fields come in ascending order of their
        names. */
    method ToString() returns (s: string)
      requires Renderable(Value())
      ensures s == Render(Value())
    {
      s := "@" + entryType + "{";
      if entryName != [] {
        s := s + (entryName + ",");
      }
      s := s + "\n";
      var keys := SortedList(rows.Keys);
      assert keys[..0] == [];
      assert s == Header(Value()) + FieldLines(Value(), keys[..0]);
      for i := 0 to |keys|
        invariant forall k :: k in keys ==> k in rows
        invariant s == Header(Value()) + FieldLines(Value(), keys[..i])
      {
        var key := keys[i];
        var line := "    ";
        line := line + key;
        line := line + Padding(key);
        line := line + " = ";
        assert line == Lead(key);
        var value := rows[key];
        if entryType != "String" {
          if key == "Author" || key == "Editor" {
            value := NormalizeAuthors(value);
          }
          if key == "Pages" {
            value := NormalizePages(value);
          }
        }
        assert value == FieldValue(Value(), key);
        line := line + Format(value);
        ghost var body := line;
        if entryType != "String" {
          line := line + ",";
        }
        line := line + "\n";
        TrailOf(body, entryType);
        assert line == FieldLine(Value(), key);
        AppendFieldLine(Value(), keys, i, Header(Value()));
        s := s + line;
      }
      assert keys[..|keys|] == keys;
      s := s + "}\n";
    }
  }

  /** The records held by a list of entries. */
  function Values(es: seq<Entry>): (r: seq<Record>)
    reads set e | e in es
    ensures |r| == |es|
  {
    if es == [] then [] else Values(es[..|es| - 1]) + [es[|es| - 1].Value()]
  }

  lemma ValuesAppend(es: seq<Entry>, e: Entry)
    ensures Values(es + [e]) == Values(es) + [e.Value()]
  {
    assert (es + [e])[..|es|] == es;
  }

  /** ReadEntries stops where the header does not match or nothing follows
      the entry. */
  lemma ReadEntriesEnd(t: string)
    requires AllSafe(t)
    requires ReadEntry(Blank, t).None? || ReadEntry(Blank, t).value.rest == []
    ensures ReadEntries(t) == []
  {
  }

  /** ReadEntries goes on after an entry that something follows. */
  lemma ReadEntriesStep(t: string, p: Parsed)
    requires AllSafe(t)
    requires ReadEntry(Blank, t) == Some(p) && p.rest != []
    ensures AllSafe(p.rest) && ReadEntries(t) == [p.entry] + ReadEntries(p.rest)
  {
  }

  lemma AppendOne<T>(done: seq<T>, x: T, later: seq<T>)
    ensures done + ([x] + later) == (done + [x]) + later
  {
  }

  /** One turn of the loop of ParseEntries: a new entry reads from the
      text. */
  method ReadOne(t: string) returns (e: Entry, rest: Option<string>)
    requires AllSafe(t)
    ensures fresh(e)
    ensures rest.None? || rest.value == [] ==> ReadEntries(t) == []
    ensures rest.Some? && rest.value != [] ==>
      |rest.value| < |t| && AllSafe(rest.value) && ReadEntries(t) == [e.Value()] + ReadEntries(rest.value)
  {
    e := new Entry();
    rest := e.ParseFromString(t);
    if rest.None? || rest.value == [] {
      ReadEntriesEnd(t);
    } else {
      ReadEntriesStep(t, ReadEntry(Blank, t).value);
    }
  }

  method ParseEntries(text: string) returns (entries: seq<Entry>)
    requires AllSafe(text)
    ensures Values(entries) == ReadEntries(text)
  {
    entries := [];
    var t := text;
    ghost var all := ReadEntries(text);
    while true
      invariant AllSafe(t)
      invariant Values(entries) + ReadEntries(t) == all
      decreases |t|
    {
      ghost var done := Values(entries);
      var e, rest := ReadOne(t);
      assert Values(entries) == done;
      if rest.None? || rest.value == [] {
        assert done + [] == done;
        break;
      }
      AppendOne(done, e.Value(), ReadEntries(rest.value));
      ValuesAppend(entries, e);
      entries := entries + [e];
      t := rest.value;
    }
  }

  // ---------------------------------------------------------------------
  // What reading guarantees

  /** A braced value keeps its braces, and reading goes on right after the
      brace that closes it. */
  lemma ReadValueBraced(v: string, rest: string)
    requires Balanced(v)
    ensures ValueSafe("{" + (v + ("}" + rest)))
    ensures ReadValue("{" + (v + ("}" + rest))) == ("{" + (v + "}"), rest)
  {
    var value := "{" + (v + ("}" + rest));
    MatchEndOfBalanced('{', v, rest);
    assert value[..|v| + 2] == "{" + (v + "}");
    assert value[|v| + 2..] == rest;
  }

  /** A row whose value is braced: the field name (CamelCased unless the
      entry is a macro definition) and the value with its braces. */
  lemma ReadRowBraced(entryType: string, s1: string, comma: string, s2: string, key: string,
                      s3: string, s4: string, v: string, rest: string)
    requires AllIn(s1, Whitespace) && AllIn(s2, Whitespace) && (comma == "" || comma == ",")
    requires AllIn(s3, Whitespace) && AllIn(s4, Whitespace)
    requires key != [] && AllIn(key, KeyChar) && Balanced(v)
    ensures var text := s1 + (comma + (s2 + (key + (s3 + "=" + (s4 + ("{" + (v + ("}" + rest))))))));
      RowSafe(text) &&
      ReadRow(entryType, text) ==
        Some(Row(if entryType != "String" then CamelCased(key) else key, "{" + (v + "}"), rest))
  {
    RowMatches(s1, comma, s2, key, s3, s4, "{" + (v + ("}" + rest)));
    ReadValueBraced(v, rest);
  }

  /** A quoted value keeps its quotes; the comma and whitespace after it
      are skipped. */
  lemma ReadValueQuoted(inner: string, trail: string)
    requires inner != [] && '"' !in inner
    ensures ValueSafe("\"" + (inner + ("\"" + trail)))
    ensures ReadValue("\"" + (inner + ("\"" + trail))) == ("\"" + (inner + "\""), SkipComma(trail))
  {
    QuotedMatches(inner, trail);
  }

  /** A bare word is read up to its end; a word of digits only is wrapped
      in braces. */
  lemma ReadValueBare(word: string, trail: string)
    requires word != [] && AllIn(word, Word)
    requires trail == [] || !IsWordChar(trail[0])
    ensures ValueSafe(word + trail)
    ensures ReadValue(word + trail) ==
      (if AllDigits(word) then "{" + word + "}" else word, SkipComma(trail))
  {
    BareMatches("", word, trail);
    assert "" + word + trail == word + trail;
  }

  /** Outside macro definitions every field name read is a CamelCase fixed
      point, provided the fields it starts from are. */
  lemma {:induction false} ReadRowsCamelCased(entryType: string, text: string, rows: map<string, string>)
    requires RowsSafe(entryType, text) && entryType != "String"
    requires forall k :: k in rows ==> CamelCased(k) == k
    ensures forall k :: k in ReadRows(entryType, text, rows) ==> CamelCased(k) == k
    decreases |text|
  {
    if text != [] {
      match ReadRow(entryType, text)
      case None =>
      case Some(row) =>
        CamelCasedIdempotent(MatchRow(text).value.0);
        ReadRowsCamelCased(entryType, row.rest, rows[row.key := row.value]);
    }
  }

  /** ReadEntry once the header has matched. */
  lemma ReadEntryOfHeader(init: Record, text: string, word: string, after: string)
    requires EntrySafe(text) && MatchHeader(text) == Some((word, after))
    ensures var r := ReadEntry(init, text);
      r.Some? && r.value.rest == after[MatchEnd(after)..] && r.value.entry.entryType == NormalizedEntryType(word)
  {
  }

  /** An entry ends at the first '}' that brings the depth back to 0, where
      the brace matching skips the first character of the body, so that
      character is left out of the balance: its type is normalized and
      reading goes on with the text after that brace. */
  lemma ReadEntryEnds(init: Record, s1: string, s2: string, word: string, s3: string,
                      c: char, body: string, rest: string)
    requires AllIn(s1, Whitespace) && AllIn(s2, Whitespace) && AllIn(s3, Whitespace)
    requires word != [] && AllIn(word, Word) && Balanced(body)
    requires EntrySafe(s1 + "@" + (s2 + (word + (s3 + "{" + ([c] + (body + ("}" + rest)))))))
    ensures var r := ReadEntry(init, s1 + "@" + (s2 + (word + (s3 + "{" + ([c] + (body + ("}" + rest)))))));
      r.Some? && r.value.rest == rest && r.value.entry.entryType == NormalizedEntryType(word)
  {
    var after := [c] + (body + ("}" + rest));
    var text := s1 + "@" + (s2 + (word + (s3 + "{" + after)));
    HeaderMatches(s1, s2, word, s3, after);
    MatchEndOfBalanced(c, body, rest);
    assert after[|body| + 2..] == rest;
    ReadEntryOfHeader(init, text, word, after);
  }

  /** An entry that ends exactly at the end of the text is not kept. */
  lemma LastEntryDropped(s1: string, s2: string, word: string, s3: string, c: char, body: string)
    requires AllIn(s1, Whitespace) && AllIn(s2, Whitespace) && AllIn(s3, Whitespace)
    requires word != [] && AllIn(word, Word) && Balanced(body)
    requires AllSafe(s1 + "@" + (s2 + (word + (s3 + "{" + ([c] + (body + ("}" + "")))))))
    ensures ReadEntries(s1 + "@" + (s2 + (word + (s3 + "{" + ([c] + (body + ("}" + ""))))))) == []
  {
    var text := s1 + "@" + (s2 + (word + (s3 + "{" + ([c] + (body + ("}" + ""))))));
    ReadEntryEnds(Blank, s1, s2, word, s3, c, body, "");
    ReadEntriesEnd(text);
  }

  /** An entry whose body starts with a closing brace, as in @misc{}, never
      closes unless a later brace closes more than it opens: it swallows the
      rest of the text, and with it every entry that follows, and is itself
      not kept. */
  lemma EmptyBodySwallows(s1: string, s2: string, word: string, s3: string, more: string)
    requires AllIn(s1, Whitespace) && AllIn(s2, Whitespace) && AllIn(s3, Whitespace)
    requires word != [] && AllIn(word, Word) && NeverBelow(more)
    requires AllSafe(s1 + "@" + (s2 + (word + (s3 + "{" + ("}" + more)))))
    ensures var r := ReadEntry(Blank, s1 + "@" + (s2 + (word + (s3 + "{" + ("}" + more)))));
      r.Some? && r.value.rest == []
    ensures ReadEntries(s1 + "@" + (s2 + (word + (s3 + "{" + ("}" + more))))) == []
  {
    var after := "}" + more;
    var text := s1 + "@" + (s2 + (word + (s3 + "{" + after)));
    HeaderMatches(s1, s2, word, s3, after);
    MatchEndNeverClosed('}', more);
    ReadEntryOfHeader(Blank, text, word, after);
    ReadEntriesEnd(text);
  }

  /** Every entry ParseEntries keeps has a type that normalizing again
      leaves as it is. */
  lemma {:induction false} ReadEntriesCanonical(text: string)
    requires AllSafe(text)
    ensures forall r :: r in ReadEntries(text) ==> NormalizedEntryType(r.entryType) == r.entryType
    decreases |text|
  {
    match ReadEntry(Blank, text)
    case None =>
    case Some(p) =>
      if p.rest != [] {
        var h := MatchHeader(text).value;
        ReadEntryOfHeader(Blank, text, h.0, h.1);
        NormalizedEntryTypeIdempotent(h.0);
        ReadEntriesCanonical(p.rest);
      }
  }

  /** A body that starts with a citation name and a comma: the name is
      taken and the rows are read from the text after the comma. */
  lemma ReadBodyNamed(init: Record, entryType: string, s1: string, name: string, s2: string,
                      s3: string, rest: string)
    requires AllIn(s1, Whitespace) && AllIn(s2, Whitespace) && AllIn(s3, Whitespace)
    requires name != [] && AllIn(name, NameChar)
    requires rest == [] || !IsSpace(rest[0])
    requires RowsSafe(entryType, rest)
    ensures var body := s1 + (name + (s2 + "," + (s3 + rest)));
      RowsSafe(entryType, Fields(body)) &&
      ReadBody(init, entryType, body) == Record(entryType, name, ReadRows(entryType, rest, init.rows))
  {
    NameMatches(s1, name, s2, s3, rest);
  }

  // ---------------------------------------------------------------------
  // Every entry kept can be written

  /** Text that is empty or ends with a closing brace. */
  predicate EndsClosed(t: string) {
    t == [] || t[|t| - 1] == '}'
  }

  /** Every stored value survives RemoveBraces. */
  predicate AllRemovable(rows: map<string, string>) {
    forall key :: key in rows ==> CanRemoveBraces(rows[key])
  }

  /** A suffix of text that ends with '}' ends with '}' too. */
  lemma Tail(a: string, b: string)
    requires EndsClosed(a + b)
    ensures EndsClosed(b)
  {
    if b != [] {
      assert (a + b)[|a + b| - 1] == b[|b| - 1];
    }
  }

  /** Text with no whitespace at either end, other than a lone opener,
      survives RemoveBraces. */
  lemma RemovableWhenTrimmed(v: string)
    requires v != [] && !IsSpace(v[0]) && !IsSpace(v[|v| - 1])
    requires |v| == 1 ==> !IsOpener(v[0])
    ensures CanRemoveBraces(v)
  {
    StripFixesStripped(v);
  }

  /** What `\s*,?\s*` leaves of text that ends with '}' ends with '}'. */
  lemma SkipCommaEndsClosed(t: string)
    requires EndsClosed(t)
    ensures EndsClosed(SkipComma(t))
  {
    var s1, comma, s2 := SkipCommaSplit(t);
    Tail(s1, comma + (s2 + SkipComma(t)));
    Tail(comma, s2 + SkipComma(t));
    Tail(s2, SkipComma(t));
  }

  /** A braced value of text that ends with '}' is '{', its contents and
      '}'; the text after it ends with '}'. */
  lemma BracedRemovable(v: string)
    requires v != [] && v[0] == '{' && EndsClosed(v)
    ensures CanRemoveBraces(v[..MatchEnd(v)]) && EndsClosed(v[MatchEnd(v)..])
  {
    var e := MatchEnd(v);
    var head := v[..e];
    if e < |v| {
      assert head[e - 1] == '}';
    } else {
      assert head == v;
    }
    RemovableWhenTrimmed(head);
    assert v == head + v[e..];
    Tail(head, v[e..]);
  }

  /** A quoted value is a quote, its contents and a quote; the text after
      it ends with '}' when the value text does. */
  lemma QuotedRemovable(v: string)
    requires MatchQuoted(v).Some? && EndsClosed(v)
    ensures CanRemoveBraces(MatchQuoted(v).value.0) && EndsClosed(MatchQuoted(v).value.1)
  {
    MatchQuotedShape(v);
    var q := MatchQuoted(v).value;
    var inner, trail :| inner != [] && '"' !in inner &&
      v == "\"" + (inner + ("\"" + trail)) && q == ("\"" + (inner + "\""), SkipComma(trail));
    RemovableWhenTrimmed(q.0);
    Tail("\"", inner + ("\"" + trail));
    Tail(inner, "\"" + trail);
    Tail("\"", trail);
    SkipCommaEndsClosed(trail);
  }

  /** A word survives RemoveBraces, braced or not. */
  lemma WordRemovable(w: string)
    requires w != [] && AllIn(w, Word)
    ensures CanRemoveBraces(w) && CanRemoveBraces("{" + w + "}")
  {
    assert IsWordChar(w[0]) && IsWordChar(w[|w| - 1]);
    RemovableWhenTrimmed(w);
    RemovableWhenTrimmed("{" + w + "}");
  }

  /** A bare word, braced when it is all digits, survives RemoveBraces;
      the text after it ends with '}' when the value text does. */
  lemma BareRemovable(v: string)
    requires MatchBare(v).Some? && EndsClosed(v)
    ensures var b := MatchBare(v).value;
      CanRemoveBraces(if AllDigits(b.0) then "{" + b.0 + "}" else b.0) && EndsClosed(b.1)
  {
    MatchBareShape(v);
    var b := MatchBare(v).value;
    var s1, trail :| AllIn(s1, Whitespace) && (trail == [] || !IsWordChar(trail[0])) &&
      v == s1 + (b.0 + trail) && b.1 == SkipComma(trail);
    WordRemovable(b.0);
    Tail(s1, b.0 + trail);
    Tail(b.0, trail);
    SkipCommaEndsClosed(trail);
  }

  /** Every value read from text that ends with '}' survives RemoveBraces,
      and so does the text after it. */
  lemma ReadValueRemovable(v: string)
    requires ValueSafe(v) && EndsClosed(v)
    ensures CanRemoveBraces(ReadValue(v).0) && EndsClosed(ReadValue(v).1)
  {
    if v[0] == '{' {
      BracedRemovable(v);
    } else if v[0] == '"' {
      QuotedRemovable(v);
    } else {
      BareRemovable(v);
    }
  }

  /** A row read from text that ends with '}' stores a value that survives
      RemoveBraces, and the text after it ends with '}'. */
  lemma ReadRowRemovable(entryType: string, t: string)
    requires RowSafe(t) && EndsClosed(t) && ReadRow(entryType, t).Some?
    ensures CanRemoveBraces(ReadRow(entryType, t).value.value)
    ensures EndsClosed(ReadRow(entryType, t).value.rest)
  {
    MatchRowShape(t);
    var m := MatchRow(t).value;
    var s1, comma, s2, s3, s4 :| AllIn(s1, Whitespace) && AllIn(s2, Whitespace) &&
      (comma == "" || comma == ",") && AllIn(s3, Whitespace) && AllIn(s4, Whitespace) &&
      t == s1 + (comma + (s2 + (m.0 + (s3 + "=" + (s4 + m.1)))));
    Tail(s1, comma + (s2 + (m.0 + (s3 + "=" + (s4 + m.1)))));
    Tail(comma, s2 + (m.0 + (s3 + "=" + (s4 + m.1))));
    Tail(s2, m.0 + (s3 + "=" + (s4 + m.1)));
    Tail(m.0, s3 + "=" + (s4 + m.1));
    Tail(s3 + "=", s4 + m.1);
    Tail(s4, m.1);
    ReadValueRemovable(m.1);
  }

  /** Rows read from text that ends with '}' only store values that
      survive RemoveBraces. */
  lemma {:induction false} ReadRowsRemovable(entryType: string, t: string, rows: map<string, string>)
    requires RowsSafe(entryType, t) && EndsClosed(t) && AllRemovable(rows)
    ensures AllRemovable(ReadRows(entryType, t, rows))
    decreases |t|
  {
    if t != [] && ReadRow(entryType, t).Some? {
      var row := ReadRow(entryType, t).value;
      ReadRowRemovable(entryType, t);
      UpdateRemovable(rows, row.key, row.value);
      ReadRowsRemovable(entryType, row.rest, rows[row.key := row.value]);
    }
  }

  lemma UpdateRemovable(rows: map<string, string>, key: string, value: string)
    requires AllRemovable(rows) && CanRemoveBraces(value)
    ensures AllRemovable(rows[key := value])
  {
  }

  /** The rows of a body that ends with '}' start after the name, in a
      suffix that ends with '}'. */
  lemma FieldsEndClosed(body: string)
    requires EndsClosed(body)
    ensures EndsClosed(Fields(body))
  {
    if MatchName(body).Some? {
      MatchNameShape(body);
      var n := MatchName(body).value;
      var s1, s2, s3 :| AllIn(s1, Whitespace) && AllIn(s2, Whitespace) && AllIn(s3, Whitespace) &&
        body == s1 + (n.0 + (s2 + "," + (s3 + n.1)));
      Tail(s1, n.0 + (s2 + "," + (s3 + n.1)));
      Tail(n.0, s2 + "," + (s3 + n.1));
      Tail(s2 + ",", s3 + n.1);
      Tail(s3, n.1);
    }
  }

  /** An entry that something follows has a body closed by its '}', so
      every value it stores survives RemoveBraces and ToString can write
      it. */
  lemma ReadEntryRenderable(text: string)
    requires EntrySafe(text) && ReadEntry(Blank, text).Some? && ReadEntry(Blank, text).value.rest != []
    ensures Renderable(ReadEntry(Blank, text).value.entry)
  {
    var h := MatchHeader(text).value;
    var e := MatchEnd(h.1);
    var body := h.1[..e];
    assert body[e - 1] == '}';
    FieldsEndClosed(body);
    ReadRowsRemovable(NormalizedEntryType(h.0), Fields(body), map[]);
  }

  /** Every entry ParseEntries keeps can be written by ToString: the
      driver's ParseEntries followed by ToString raises no exception. */
  lemma {:induction false} ReadEntriesRenderable(text: string)
    requires AllSafe(text)
    ensures forall i :: 0 <= i < |ReadEntries(text)| ==> Renderable(ReadEntries(text)[i])
    decreases |text|
  {
    match ReadEntry(Blank, text)
    case None =>
    case Some(p) =>
      if p.rest != [] {
        ReadEntryRenderable(text);
        ReadEntriesRenderable(p.rest);
        assert ReadEntries(text) == [p.entry] + ReadEntries(p.rest);
      }
  }
}
