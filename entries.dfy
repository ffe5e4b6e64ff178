/** A bibliography entry as a value, the canonical entry types, the sort
    priority of a type and the text the serializer writes for an entry. */
module Entries {
  import opened Text
  import opened Normalize
  import opened Order

  /** An entry: its type ("Article", "String", ...), its citation name
      (empty when the entry has none) and its fields, keyed by name. */
  datatype Record = Record(entryType: string, entryName: string, rows: map<string, string>)

  // ---------------------------------------------------------------------
  // Entry types

  /** The canonical spelling of each known entry type, keyed by its lower
      case; "conference" is another name for "InProceedings". */
  const EntryTypes: map<string, string> := map[
    "article" := "Article",
    "book" := "Book",
    "booklet" := "Booklet",
    "conference" := "InProceedings",
    "inbook" := "InBook",
    "incollection" := "InCollection",
    "inproceedings" := "InProceedings",
    "manual" := "Manual",
    "mastersthesis" := "MastersThesis",
    "misc" := "Misc",
    "phdthesis" := "PhDThesis",
    "proceedings" := "Proceedings",
    "techreport" := "TechReport",
    "unpublished" := "Unpublished",
    "string" := "String"
  ]

  /** The table entry for the lower-cased type, or the lower-cased type
      itself when the table has none. */
  function NormalizedEntryType(entryType: string): (r: string)
    ensures LowerStr(entryType) != "conference" ==> LowerStr(r) == LowerStr(entryType)
  {
    var lower := LowerStr(entryType);
    LowerOfCanonicalA();
    LowerOfCanonicalB();
    LowerOfCanonicalC();
    LowerStrIdempotent(entryType);
    if lower in EntryTypes then EntryTypes[lower] else lower
  }

  /** The lookup ignores case. */
  lemma NormalizedEntryTypeIgnoresCase(a: string, b: string)
    requires LowerStr(a) == LowerStr(b)
    ensures NormalizedEntryType(a) == NormalizedEntryType(b)
  {
  }

  /** A type the table does not know comes back in lower case. */
  lemma UnknownTypeLowered(entryType: string)
    requires LowerStr(entryType) !in EntryTypes
    ensures NormalizedEntryType(entryType) == LowerStr(entryType)
    ensures forall i :: 0 <= i < |entryType| ==> !IsUpper(NormalizedEntryType(entryType)[i])
  {
  }

  lemma LowerOfCanonicalA()
    ensures LowerStr("Article") == "article"
    ensures LowerStr("Book") == "book"
    ensures LowerStr("Booklet") == "booklet"
    ensures LowerStr("InProceedings") == "inproceedings"
    ensures LowerStr("InBook") == "inbook"
  {
  }

  lemma LowerOfCanonicalB()
    ensures LowerStr("InCollection") == "incollection"
    ensures LowerStr("Manual") == "manual"
    ensures LowerStr("MastersThesis") == "mastersthesis"
    ensures LowerStr("Misc") == "misc"
    ensures LowerStr("PhDThesis") == "phdthesis"
  {
  }

  lemma LowerOfCanonicalC()
    ensures LowerStr("Proceedings") == "proceedings"
    ensures LowerStr("TechReport") == "techreport"
    ensures LowerStr("Unpublished") == "unpublished"
    ensures LowerStr("String") == "string"
  {
  }

  /** Lower-case text is left alone by the lower-casing. */
  lemma LowerStrOfLower(s: string)
    requires forall i :: 0 <= i < |s| ==> !IsUpper(s[i])
    ensures LowerStr(s) == s
  {
  }

  lemma NormalizedEntryTypeExamples()
    ensures NormalizedEntryType("conference") == "InProceedings"
    ensures NormalizedEntryType("inproceedings") == "InProceedings"
  {
    LowerStrOfLower("conference");
    LowerStrOfLower("inproceedings");
  }

  /** Every canonical type is its own normal form. */
  lemma CanonicalTypesFixed(key: string)
    requires key in EntryTypes
    ensures NormalizedEntryType(EntryTypes[key]) == EntryTypes[key]
  {
    LowerOfCanonicalA();
    LowerOfCanonicalB();
    LowerOfCanonicalC();
  }

  lemma NormalizedEntryTypeIdempotent(entryType: string)
    ensures NormalizedEntryType(NormalizedEntryType(entryType)) == NormalizedEntryType(entryType)
  {
    var lower := LowerStr(entryType);
    if lower in EntryTypes {
      CanonicalTypesFixed(lower);
    } else {
      LowerStrIdempotent(entryType);
    }
  }

  // ---------------------------------------------------------------------
  // Sort priority

  /** Macro definitions sort before everything else, books and proceedings
      after everything else. */
  function SortKey(entryType: string): (p: int)
    ensures p == -99 <==> entryType == "String"
    ensures p == 99 <==> entryType == "Book" || entryType == "Proceedings"
    ensures p == -99 || p == 0 || p == 99
  {
    if entryType == "String" then -99
    else if entryType == "Proceedings" || entryType == "Book" then 99
    else 0
  }

  // ---------------------------------------------------------------------
  // Serialization

  /** Author, editor and page values are normalized on output, except in
      macro definitions. */
  predicate Normalizes(entryType: string, key: string) {
    entryType != "String" && (key == "Author" || key == "Editor" || key == "Pages")
  }

  /** The normalizers ToString applies need a value RemoveBraces accepts. */
  predicate Renderable(e: Record) {
    forall key :: key in e.rows && Normalizes(e.entryType, key) ==> CanRemoveBraces(e.rows[key])
  }

  /** The value written for a field, before whitespace is collapsed. */
  function FieldValue(e: Record, key: string): string
    requires key in e.rows && Renderable(e)
  {
    var value := e.rows[key];
    if e.entryType == "String" then value
    else if key == "Author" || key == "Editor" then NormalizeAuthors(value)
    else if key == "Pages" then NormalizePages(value)
    else value
  }

  function Spaces(n: nat): (r: string)
    ensures |r| == n && forall i :: 0 <= i < n ==> r[i] == ' '
  {
    if n == 0 then [] else [' '] + Spaces(n - 1)
  }

  /** Keys shorter than 13 characters are padded to 13. */
  function Padding(key: string): string {
    Spaces(if |key| < 13 then 13 - |key| else 0)
  }

  /** What comes before the value on a field line: indent, key, padding and
      " = ". */
  function Lead(key: string): string {
    "    " + key + Padding(key) + " = "
  }

  /** What comes after the value: a comma unless the entry is a macro
      definition, and a newline. */
  function Trail(entryType: string): string {
    (if entryType != "String" then "," else "") + "\n"
  }

  /** The comma, when there is one, and then the newline, appended one
      after the other. */
  lemma TrailOf(body: string, entryType: string)
    ensures (if entryType != "String" then body + "," else body) + "\n" == body + Trail(entryType)
  {
    if entryType != "String" {
      assert body + "," + "\n" == body + ",\n";
    } else {
      assert body + "\n" == body + ("" + "\n");
    }
  }

  /** One field: indent, key, padding, " = ", the collapsed value, a comma
      unless the entry is a macro definition, and a newline. */
  function FieldLine(e: Record, key: string): string
    requires key in e.rows && Renderable(e)
  {
    Lead(key) + Format(FieldValue(e, key)) + Trail(e.entryType)
  }

  /** '@', the type, '{', the name and a comma when there is a name, and a
      newline. */
  function Header(e: Record): string {
    "@" + e.entryType + "{" + (if e.entryName != [] then e.entryName + "," else "") + "\n"
  }

  /** The lines of the given fields, in the given order. */
  function FieldLines(e: Record, keys: seq<string>): string
    requires Renderable(e) && forall k :: k in keys ==> k in e.rows
  {
    if keys == [] then [] else FieldLines(e, keys[..|keys| - 1]) + FieldLine(e, keys[|keys| - 1])
  }

  /** Appending the line of the next key extends the text of the keys so
      far. */
  lemma AppendFieldLine(e: Record, keys: seq<string>, i: nat, head: string)
    requires Renderable(e) && i < |keys| && forall k :: k in keys ==> k in e.rows
    ensures head + FieldLines(e, keys[..i + 1]) == (head + FieldLines(e, keys[..i])) + FieldLine(e, keys[i])
  {
    assert keys[..i + 1][..i] == keys[..i];
  }

  /** Entry.ToString: the header, the fields in ascending key order, and the
      closing brace on a line of its own. */
  ghost function Render(e: Record): (r: string)
    requires Renderable(e)
    ensures |Header(e)| + 2 <= |r| && r[..|Header(e)|] == Header(e) && r[|r| - 2..] == "}\n"
    ensures e.rows == map[] ==> r == Header(e) + "}\n"
  {
    var fields := FieldLines(e, SortedKeys(e.rows.Keys));
    NoFieldLines(e);
    Enclosed(Header(e), fields, "}\n");
    Header(e) + fields + "}\n"
  }

  /** A record without fields has no field lines. */
  lemma NoFieldLines(e: Record)
    requires Renderable(e)
    ensures e.rows == map[] ==> FieldLines(e, SortedKeys(e.rows.Keys)) == []
  {
    if e.rows == map[] {
      assert e.rows.Keys == {};
    }
  }

  /** The three parts of a concatenation, cut back out of it. */
  lemma Pieces(a: string, b: string, c: string)
    ensures (a + b + c)[..|a|] == a && (a + b + c)[|a|..|a| + |b|] == b && (a + b + c)[|a| + |b|..] == c
  {
  }

  /** The text between a head and a tail begins with the head and ends
      with the tail. */
  lemma Enclosed(head: string, middle: string, tail: string)
    ensures |head| + |tail| <= |head + middle + tail|
    ensures (head + middle + tail)[..|head|] == head
    ensures (head + middle + tail)[|head + middle + tail| - |tail|..] == tail
  {
  }

  /** Formatted text never holds a line break. */
  lemma FormattedOneLine(r: string)
    requires Formatted(r)
    ensures '\n' !in r
  {
    if '\n' in r {
      var i :| 0 <= i < |r| && r[i] == '\n';
      assert IsSpace(r[i]);
    }
  }

  /** The columns before the value: the key starts in column 4 and " = "
      follows the key padded to 13 columns. */
  lemma LeadLayout(key: string)
    ensures var lead := Lead(key);
      var w := if |key| < 13 then 13 else |key|;
      && |lead| == w + 7
      && lead[..4] == "    "
      && lead[4..4 + |key|] == key
      && (forall i :: 4 + |key| <= i < 4 + w ==> lead[i] == ' ')
      && lead[4 + w..] == " = "
      && ('\n' !in key ==> '\n' !in lead)
  {
    var lead := Lead(key);
    var w := if |key| < 13 then 13 else |key|;
    assert lead == "    " + key + Padding(key) + " = ";
    forall i | 4 + |key| <= i < 4 + w ensures lead[i] == ' ' {
      assert lead[i] == Padding(key)[i - 4 - |key|];
    }
    if '\n' !in key {
      forall i | 0 <= i < |lead| ensures lead[i] != '\n' {
        if 4 <= i < 4 + |key| {
          assert lead[i] == key[i - 4];
        }
      }
    }
  }

  /** The layout of a field line: the lead described by LeadLayout (so '='
      sits in column 18 for every key of up to 13 characters), then the
      collapsed value, then the comma of a non-macro entry and the
      newline. */
  lemma FieldLineLayout(e: Record, key: string)
    requires key in e.rows && Renderable(e)
    ensures var line := FieldLine(e, key);
      var w := if |key| < 13 then 13 else |key|;
      var v := Format(FieldValue(e, key));
      && line[..w + 7] == Lead(key)
      && line[w + 7..w + 7 + |v|] == v
      && line[w + 7 + |v|..] == (if e.entryType != "String" then ",\n" else "\n")
      && (|key| <= 13 ==> line[18] == '=')
  {
    var line := FieldLine(e, key);
    var w := if |key| < 13 then 13 else |key|;
    var v := Format(FieldValue(e, key));
    var lead := Lead(key);
    LeadLayout(key);
    Pieces(lead, v, Trail(e.entryType));
    if |key| <= 13 {
      assert line[18] == lead[4 + w..][1];
    }
  }

  /** Every field takes exactly one line: the value holds no line break, so
      the line holds none before its last character when the key holds
      none. */
  lemma FieldLineOneLine(e: Record, key: string)
    requires key in e.rows && Renderable(e) && '\n' !in key
    ensures var line := FieldLine(e, key);
      line[|line| - 1] == '\n' && forall i :: 0 <= i < |line| - 1 ==> line[i] != '\n'
  {
    var line := FieldLine(e, key);
    var v := Format(FieldValue(e, key));
    var lead := Lead(key);
    LeadLayout(key);
    FormattedOneLine(v);
    forall i | 0 <= i < |line| - 1 ensures line[i] != '\n' {
      if i < |lead| {
        assert line[i] == lead[i];
      } else if i < |lead| + |v| {
        assert line[i] == v[i - |lead|];
      }
    }
  }
}
