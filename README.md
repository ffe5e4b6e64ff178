# A verified model of the BibTeX beautifier `bibliography.py`

`bibliography.py` reads a BibTeX file and writes it back in a fixed form:
- entry types in their canonical spelling;
- field names CamelCased;
- one field per line, in ascending order of field name, with the `=` signs aligned;
- author lists rewritten from "Last, First" to "First Last";
- page ranges written with a double dash;
- whitespace inside values collapsed;
- macro definitions (`@String`) first and books and proceedings last.

This project models everything in that file except reading the input file
and the driver. It proves what each step does.

The modules follow the program's layers:

- `Text` (text.dfy): the text helpers.
  - `Format` collapses whitespace.
  - `CamelCase` is a method with a loop, proved against the function `CamelCased`.
  - `FindMatchingParenthesis` is a method with a loop, proved against `MatchEnd`.
  - `RemoveBraces`.
  - The pieces of Python's `str` the program relies on: `strip`, `split`, `join`, `lower`, and substring tests with `in` (modelled by `IndexOf`, which behaves like `str.find`).
- `Normalize` (normalize.dfy): `NormalizeAuthor`, `NormalizeAuthors` and `NormalizePages`.
- `Order` (order.dfy): Python's order on strings and `sorted()` over the keys of a dictionary.
- `Entries` (entries.dfy):
  - the entry as a value, `Record`;
  - the table of entry types and `NormalizedEntryType`;
  - `SortKey`;
  - `Render`, the text `Entry.ToString` produces.
- `Scan` (scan.dfy): the five regular expressions of the parser, each written out as a scanner.
- `Parser` (parser.dfy):
  - the functions `ReadValue`, `ReadRow`, `ReadRows`, `ReadEntry` and `ReadEntries` say what is read;
  - the class `Entry`, with the fields `entryType`, `entryName` and `rows` that its methods update, does the reading, as does the method `ParseEntries`;
  - each method is proved to compute exactly what the functions say.
- `Sorting` (sorting.dfy):
  - `SortEntries` sorts an array with three stable sorts, as the program does;
  - each stable sort is an in-place insertion sort proved equal to the function `SortBy`;
  - the order, permutation and stability properties are proved about `SortedEntries`.

Some behaviours of the code are easy to misread:
- `bibliography.py` has no year or month normalizer. The tests at test_bibliography.py:57-71 call `normalize_year` and `normalize_month`, which the file does not define. The tests in that file also use other names for the other helpers (`format_text`, `capitalize`, `normalize_author`). The model follows the functions `bibliography.py` defines.
- `CamelCase` (bibliography.py:41-49) capitalises every letter that follows a non-letter, not only the first letter of the key. So "hello world" becomes "Hello World", as test_bibliography.py:21 expects.
- The brace matching skips the first character of an entry's body: the text after the header's '{' goes to `FindMatchingParenthesis`, which starts its scan at index 1 (bibliography.py:108-109 and 54). A body that starts with a brace is therefore cut early. `@misc{{a} b}` ends at the '}' of `{a}`, the header pattern then fails on ` b}`, and every entry after it is lost. A body that starts with '}', as in `@misc{}`, is not closed by that '}'. `Parser.ReadEntryEnds` and `Parser.EmptyBodySwallows` state both cases.
- Values are stored with their braces or quotes and are not trimmed (bibliography.py:129-143).
- The name and its comma are written whenever the entry has a name, macro definitions included (bibliography.py:157-158).
- Each field line starts with four spaces. In `s += + 4*' '` (bibliography.py:162), the unary `+` applies to the number 4, so the line appends `4*' '`.
- `ParseEntries` does not keep an entry that ends exactly at the end of the text, because `if not text: break` runs before the append (bibliography.py:194-197). `Parser.LastEntryDropped` states this.
- `NormalizeAuthors` and `NormalizePages` wrap their result in braces (bibliography.py:82 and 92). In the tests at test_bibliography.py:45-54 the same operations return text without braces.

## Model

| member | source | states |
|---|---|---|
| Text.LowerStr | bibliography.py:150 | `lower()` keeps the length and lower-cases each character on its own |
| Text.LowerStrIdempotent | bibliography.py:150 | lower-casing twice is lower-casing once |
| Text.Strip | bibliography.py:66 | `strip()` never lengthens the text, and the result neither starts nor ends with whitespace |
| Text.Words | bibliography.py:39 | every part `split()` gives is a non-empty run without whitespace |
| Text.Join | bibliography.py:82 | a join of at least one part starts with the first part |
| Text.StripIdempotent | bibliography.py:66 | `strip()` applied to stripped text changes nothing |
| Text.Format | bibliography.py:38-39 | the result only holds plain spaces, never at either end and never two in a row, and is empty exactly when the text has no words |
| Text.FormatKeepsWords | bibliography.py:38-39 | splitting the result gives the words of the text, in order |
| Text.WordsOfJoin | bibliography.py:39 | splitting words joined by single spaces gives the words back |
| Text.FormatIdempotent | bibliography.py:38-39 | formatting twice is formatting once |
| Text.FormatFixesFormatted | bibliography.py:38-39 | text already in formatted form is left exactly as it is |
| Text.CamelCase | bibliography.py:41-49 | the loop builds exactly `CamelCased(text)` |
| Text.CamelCased | bibliography.py:41-49 | the length is kept |
| Text.CamelCasedWordStarts | bibliography.py:41-49 | the length is kept; each character keeps its letter-ness and its lower-case form; a letter is upper-case exactly when it starts the text or follows a non-letter; non-letters are unchanged |
| Text.CamelCasedIdempotent | bibliography.py:41-49 | CamelCasing twice is CamelCasing once |
| Text.MatchEnd | bibliography.py:51-63 | the cut comes right after the first '}' at which the depth (starting at 1 and skipping the first character) returns to 0; if the depth never does, the cut is at the end; the depth is positive before the cut |
| Text.FindMatchingParenthesis | bibliography.py:51-63 | the two results put together give the text back, and the first one is the prefix up to `MatchEnd` |
| Text.MatchEndOfBalanced | bibliography.py:51-63 | an opener, a balanced body and '}' form the shortest matched prefix, whatever follows |
| Text.MatchEndNeverClosed | bibliography.py:51-63 | when the body never closes the opening brace, the whole text is taken |
| Text.IndexFrom | bibliography.py:74 | finds the first occurrence at or after k; None means there is none |
| Text.Split | bibliography.py:81 | `split(sep)` gives at least one part, and no part contains the separator |
| Text.SplitJoin | bibliography.py:81 | joining the parts of a split with the separator gives the text back |
| Text.SplitOfJoin | bibliography.py:81-82 | splitting a join gives the parts back when no part runs into the separator |
| Text.RemoveBraces | bibliography.py:65-71 | the result is the stripped text minus one leading '{' or '"' and one trailing '}' or '"' |
| Text.RemoveBracesOfBraced | bibliography.py:65-71 | removing the braces undoes wrapping in braces |
| Normalize.NormalizeAuthorSwaps | bibliography.py:73-77 | "Last, First" becomes stripped First, a space, stripped Last ("Pal, David" gives "David Pal"); the split is at the first comma |
| Normalize.NormalizeAuthorPlain | bibliography.py:73-77 | a name without a comma is only stripped |
| Normalize.NormalizeAuthorSettles | bibliography.py:73-77 | a swapped name with two non-blank halves is left alone by a second pass |
| Normalize.NormalizeEach | bibliography.py:82 | each author is normalized on its own; the order and the count are kept |
| Normalize.NormalizeAuthors | bibliography.py:79-82 | the result is wrapped in braces |
| Normalize.NormalizeAuthorsList | bibliography.py:79-82 | a braced " and "-list of names becomes the braced " and "-list of their normalized forms, in the same order |
| Normalize.NormalizeAuthorsFixesPlainNames | bibliography.py:79-82 | a list of stripped names without commas is left as it is |
| Normalize.TwoWordName | bibliography.py:81 | a two-word name such as "David Pal" whose second word is not "and" meets " and " only at the separator after it |
| Normalize.NormalizeAuthor | bibliography.py:73-77 | the result is never longer than the name |
| Normalize.SwappedName | bibliography.py:73-77 | "Last, First" with one-word halves becomes "First Last" |
| Normalize.KeptName | bibliography.py:73-77 | a two-word name without a comma is kept as it is |
| Normalize.TwoAuthorsList | bibliography.py:81 | "Last, First" and "First Last" whose second words are not "and" never run into the " and " separator |
| Normalize.NormalizeTwoAuthors | bibliography.py:79-82 | "{Pal, David and Francesco Orabona}" and every list of that shape become "{David Pal and Francesco Orabona}": the first name is swapped, the second is kept (the example at test_bibliography.py:45-48) |
| Normalize.PageParts | bibliography.py:86-88 | one or two parts |
| Normalize.NormalizePages | bibliography.py:84-92 | the result is wrapped in braces |
| Normalize.PagesDoubleDash | bibliography.py:84-92 | with a "--", the first "--" separates the two stripped pages |
| Normalize.PagesSingleDash | bibliography.py:84-92 | without a "--", the first '-' separates the two stripped pages, which are joined by "--"; later dashes stay in the second page ("1-2-3" gives "{1--2-3}") |
| Normalize.PagesNoDash | bibliography.py:84-92 | a single page is only stripped |
| Normalize.RangeSettles | bibliography.py:84-92 | a normalized range normalizes to itself |
| Normalize.PageSettles | bibliography.py:84-92 | a normalized single page normalizes to itself |
| Normalize.NormalizePagesIdempotent | bibliography.py:84-92 | normalizing twice is normalizing once, provided the first page does not end in a dash |
| Normalize.NormalizePagesNotIdempotent | bibliography.py:84-92 | without that condition a second pass changes "{a - --b}" once more |
| Order.StrLessIsStrictTotalOrder | bibliography.py:160 | Python's `<` on strings is irreflexive, transitive and total |
| Order.SortedKeys | bibliography.py:160 | `sorted()` of a set of keys holds each key once, in strictly ascending order |
| Order.SortedList | bibliography.py:160 | the loop that takes the smallest key first builds `SortedKeys` |
| Entries.NormalizedEntryTypeIgnoresCase | bibliography.py:149-153 | types that lower-case alike normalize alike |
| Entries.UnknownTypeLowered | bibliography.py:149-153 | a type that the table does not know comes back lower-cased |
| Entries.NormalizedEntryTypeExamples | bibliography.py:19-36 | "conference" and "inproceedings" both become "InProceedings" |
| Entries.CanonicalTypesFixed | bibliography.py:19-36 | every value of the type table is its own normal form |
| Entries.NormalizedEntryTypeIdempotent | bibliography.py:149-153 | normalizing twice is normalizing once |
| Entries.SortKey | bibliography.py:178-186 | -99 exactly for "String", 99 exactly for "Book" and "Proceedings", 0 otherwise |
| Entries.Spaces | bibliography.py:164 | n spaces |
| Entries.FormattedOneLine | bibliography.py:172 | a formatted value holds no line break |
| Entries.LeadLayout | bibliography.py:162-165 | four spaces, the key, spaces up to column 13 of the key, then " = " |
| Entries.FieldLineLayout | bibliography.py:162-175 | a field line is the lead, the formatted value, then ",\n", or only "\n" in a macro definition; '=' sits in column 18 for keys of up to 13 characters |
| Entries.FieldLineOneLine | bibliography.py:162-175 | every field takes exactly one line |
| Entries.NormalizedEntryType | bibliography.py:149-153 | any type other than "conference" keeps its letters up to case |
| Entries.Render | bibliography.py:155-176 | the text starts with the header and ends with "}\n"; an entry without fields is the header and "}\n" |
| Scan.MatchHeader | bibliography.py:103 | a match yields a non-empty word of \w characters and text strictly shorter than the input |
| Scan.HeaderMatches | bibliography.py:103 | `\s*@\s*(\w+)\s*({)` matches every text of that shape, with the word as group 1 and reading going on right after the brace |
| Scan.MatchName | bibliography.py:111 | a match yields a non-empty name of `[-:\w]` characters |
| Scan.NameMatches | bibliography.py:111 | `\s*([-:\w]+)\s*,\s*` matches every text of that shape |
| Scan.MatchRow | bibliography.py:121 | a match yields a non-empty key of `[\w-]` characters, and the text left starts with no whitespace |
| Scan.RowMatches | bibliography.py:121 | `\s*,?\s*([\w-]+)\s*=\s*` matches every text of that shape |
| Scan.MatchQuoted | bibliography.py:133 | a match is a quote, at least one non-quote character and a quote |
| Scan.QuotedMatches | bibliography.py:133 | `("[^"]+")\s*,?\s*` matches every quoted value, and the comma after it is skipped |
| Scan.MatchBare | bibliography.py:137 | a match yields a non-empty word of \w characters |
| Scan.BareMatches | bibliography.py:137 | `\s*(\w+)\s*,?\s*` matches every word, and the comma after it is skipped |
| Scan.SkipCommaOf | bibliography.py:133 | the trailing `\s*,?\s*` skips whitespace, one comma and whitespace |
| Scan.SkipComma | bibliography.py:133 | what is left is never longer than the text |
| Scan.AfterPunct | bibliography.py:103 | after `\s*c`, what is left is strictly shorter than the text |
| Scan.SkipCommaSplit | bibliography.py:133 | the text is whitespace, at most one comma, whitespace and what `\s*,?\s*` leaves |
| Scan.MatchHeaderShape | bibliography.py:103 | a header match is exactly whitespace, '@', whitespace, the type word, whitespace and '{', followed by the text returned |
| Scan.MatchNameShape | bibliography.py:111 | a name match is exactly whitespace, the name, whitespace, ',' and whitespace, followed by the text returned, which starts with no whitespace |
| Scan.MatchRowShape | bibliography.py:121 | a row match is exactly whitespace, at most one comma, whitespace, the key, whitespace, '=' and whitespace, followed by the text returned |
| Scan.MatchQuotedShape | bibliography.py:133 | a quoted match is exactly a quote, non-quote characters (at least one) and a quote; the text returned follows `\s*,?\s*` after it |
| Scan.MatchBareShape | bibliography.py:137 | a bare match is exactly whitespace and the word, followed by a character that cannot continue the word; the text returned follows `\s*,?\s*` after it |
| Parser.ReadValue | bibliography.py:129-143 | reading always consumes part of the value text |
| Parser.ParseValue | bibliography.py:129-143 | the three branches of ParseRow give exactly `ReadValue` |
| Parser.ReadRow | bibliography.py:120-145 | reading a row consumes part of the text |
| Parser.ReadRows | bibliography.py:116-117 | reading rows keeps every field already present |
| Parser.ReadEntry | bibliography.py:102-118 | reading an entry consumes part of the text |
| Parser.ReadBody | bibliography.py:111-117 | the entry gets the given type and keeps every field it had; without a leading name it keeps its name |
| Parser.ReadEntries | bibliography.py:190-198 | no more entries are read than the text has characters |
| Parser.Entry.constructor | bibliography.py:97-100 | a new entry has type "UNKNOWN", no name and no fields |
| Parser.Entry.ParseRow | bibliography.py:120-145 | on a mismatch, None and the fields unchanged; otherwise the fields gain the key (CamelCased unless "String") bound to the value, and the text after the value is returned |
| Parser.Entry.ParseRows | bibliography.py:116-117 | the row loop leaves exactly the fields `ReadRows` describes |
| Parser.Entry.ParseBody | bibliography.py:111-117 | the name, when the body starts with one, and then the rows |
| Parser.Entry.ParseFromString | bibliography.py:102-118 | on a mismatch, None and the entry unchanged; otherwise the entry `ReadEntry` describes and the text after its closing brace |
| Parser.Entry.ToString | bibliography.py:155-176 | the code as written builds exactly `Render`: the header, one line per field in ascending key order (each line opening with the four spaces of `+ 4*' '`), then "}\n" |
| Parser.ReadOne | bibliography.py:193-194 | a fresh entry reads one entry from the text |
| Parser.ParseEntries | bibliography.py:190-198 | the entries returned hold exactly `ReadEntries(text)`, in order |
| Parser.ReadEntriesEnd | bibliography.py:195-196 | reading stops on a mismatch or when nothing follows the entry |
| Parser.ReadEntriesStep | bibliography.py:194-197 | after an entry that something follows, reading goes on from there |
| Parser.ReadValueBraced | bibliography.py:129-131 | a braced value with balanced contents keeps its braces, and reading goes on after its closing brace |
| Parser.ReadRowBraced | bibliography.py:120-131 | a whole row with a braced value: the key (CamelCased unless "String"), the braced value and the rest |
| Parser.ReadValueQuoted | bibliography.py:132-135 | a quoted value keeps its quotes; the comma after it is skipped |
| Parser.ReadValueBare | bibliography.py:136-143 | a bare word is kept, wrapped in braces when it is all digits |
| Parser.ReadRowsCamelCased | bibliography.py:125-126 | outside macro definitions every field name read is its own CamelCase |
| Parser.ReadEntryEnds | bibliography.py:103-109 | an entry ends at the first '}' that brings the depth to 0, with the body's first character not counted; reading goes on right after that brace, and the type is normalized |
| Parser.LastEntryDropped | bibliography.py:194-196 | an entry that ends exactly at the end of the text is not kept |
| Parser.EmptyBodySwallows | bibliography.py:51-63 | when the rest never closes more braces than it opens, an entry whose body starts with '}' (as in `@misc{}`) swallows the rest of the text and is not kept |
| Parser.ReadEntriesCanonical | bibliography.py:106-107 | every entry read has a type that normalizing again leaves unchanged |
| Parser.ReadBodyNamed | bibliography.py:111-114 | a leading "name," gives the entry its name, and the rows are read after the comma |
| Parser.ReadValueRemovable | bibliography.py:129-143 | a value read from text that ends with '}' survives `RemoveBraces`, and the text after it still ends with '}' |
| Parser.ReadRowsRemovable | bibliography.py:116-145 | rows read from text that ends with '}' store only values that survive `RemoveBraces` |
| Parser.ReadEntryRenderable | bibliography.py:102-118 | an entry that something follows has a body closed by its '}', so `ToString` can write it |
| Parser.ReadEntriesRenderable | bibliography.py:220-223 | every entry `ParseEntries` keeps can be written by `ToString`, so the driver's parse-then-print raises no exception in `RemoveBraces` |
| Sorting.LessTrichotomy | bibliography.py:201-203 | each sort key is a strict total order |
| Sorting.NotLessTransitive | bibliography.py:201-203 | "not after" is transitive under each key |
| Sorting.InsertAt | bibliography.py:201-203 | one insertion step leaves the prefix as `Insert` and the rest unchanged |
| Sorting.SortBy | bibliography.py:201-203 | a sort keeps the number of records |
| Sorting.StableSortBy | bibliography.py:201-203 | one `list.sort(key=...)` leaves the array as `SortBy` of what it held |
| Sorting.InsertIsCut | bibliography.py:201-203 | an insertion cuts the list where the records with larger keys start and puts the record there |
| Sorting.SortByPermutes | bibliography.py:201-203 | a sort only reorders: the multiset is kept |
| Sorting.SortByOrders | bibliography.py:201-203 | a stable sort by f of a list ordered by some keys orders it by f, then by those keys |
| Sorting.SortByStable | bibliography.py:201-203 | records with the same type and name keep their relative order |
| Sorting.SortEntries | bibliography.py:200-204 | the three sorts leave the array as `SortedEntries` of what it held |
| Sorting.SortedEntries | bibliography.py:200-204 | the three sorts keep the number of records |
| Sorting.SortedEntriesOrder | bibliography.py:200-204 | the result is ordered by priority, then type, then name, and is a permutation of the input |
| Sorting.SortedEntriesStable | bibliography.py:200-204 | entries with the same type and name stay in file order |
| Sorting.StringsFirstBooksLast | bibliography.py:200-204 | macro definitions come before every other entry, and books and proceedings after every other entry |

## Left out

- `ReadFile` (bibliography.py:207-216) and the driver (lines 219-223) are not modelled: they read a file, echo `%` comment lines and print. `Parser.ReadEntriesRenderable` covers the one property of the driver that the model can state: every parsed entry can be printed. Sorting in between only reorders the entries.
- Regular expressions are modelled as hand-written scanners. `\w`, `str.isalpha`, `lower` and `upper` are restricted to ASCII. `\s` and `str.split()` use the whitespace set of `str.isspace`.
- Text.RemoveBraces: its precondition excludes blank text and a lone opener, on which the source raises IndexError.
- Parser.Entry.ParseRow: its precondition `RowSafe` excludes the inputs on which the source raises. These are an empty value, an unterminated or empty quoted value, and a value that starts with something other than a brace, a quote or a word character.
- Parser.Entry.ParseFromString: requires `EntrySafe`, which asks the same of every row of the entry.
- Parser.ParseEntries: requires `AllSafe`, which asks the same of every entry.
- Parser.Entry.ToString: requires `Renderable`, because `NormalizeAuthors` and `NormalizePages` call `RemoveBraces`, which would raise. Every entry `ParseEntries` returns meets this requirement (`Parser.ReadEntriesRenderable`).
- Normalize.NormalizePagesIdempotent: holds only when the first page does not end in a dash. `NormalizePagesNotIdempotent` shows that the general statement is false.
- Normalize.NormalizeAuthorsList: stated only for name lists in which no name runs into the " and " separator.
- Sorting.SortEntries: sorts an array of `Record` values rather than a list of `Entry` objects. Entries are not changed after parsing, so only their values matter to the order; aliasing between list slots is not modelled.
- Sorting.StableSortBy: an insertion sort stands in for Python's Timsort. Both are stable sorts by the same key, so they leave the same order.
- Order.SortedList: `sorted()` is modelled by repeatedly taking the smallest remaining key rather than by Timsort. The result is the same sorted list.
- `ParseRows`, `ParseBody` and `ParseValue` are parts of `ParseFromString` and `ParseRow` split out as methods, and `ReadOne` is one turn of the loop of `ParseEntries`. Each is proved against its own function.
