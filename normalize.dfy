/** The value normalizers the serializer applies to author and editor lists
    and to page ranges. */
module Normalize {
  import opened Text

  // ---------------------------------------------------------------------
  // Authors

  /** One author: "Last, First" becomes "First Last" (the text is cut at its
      first comma and both halves are stripped); a name without a comma is
      only stripped. */
  function NormalizeAuthor(text: string): (r: string)
    ensures |r| <= |text|
  {
    match IndexOf(text, ",")
    case Some(i) => Strip(text[i + 1..]) + " " + Strip(text[..i])
    case None => Strip(text)
  }

  /** The comma splits "Last, First" where the last name ends. */
  lemma FirstComma(last: string, first: string)
    requires ',' !in last
    ensures IndexOf(last + "," + first, ",") == Some(|last|)
  {
    var s := last + "," + first;
    assert s[|last|..|last| + 1] == ",";
    forall j | 0 <= j < |last| ensures !OccursAt(s, ",", j) {
      assert s[j..j + 1][0] == last[j];
    }
    FirstOccurrence(s, ",", |last|);
  }

  lemma NormalizeAuthorSwaps(last: string, first: string)
    requires ',' !in last
    ensures NormalizeAuthor(last + "," + first) == Strip(first) + " " + Strip(last)
  {
    var s := last + "," + first;
    FirstComma(last, first);
    assert s[..|last|] == last && s[|last| + 1..] == first;
  }

  lemma NormalizeAuthorPlain(name: string)
    requires ',' !in name
    ensures NormalizeAuthor(name) == Strip(name)
  {
    IndexOfChar(name, ',');
  }

  lemma StripKeepsCharOut(s: string, c: char)
    requires c !in s
    ensures c !in Strip(s)
  {
    StripIsSlice(s);
  }

  /** A swapped name is left alone by a second pass, as long as neither half
      was blank (", David" gives "David " and then "David"). */
  lemma NormalizeAuthorSettles(last: string, first: string)
    requires ',' !in last && ',' !in first
    requires Strip(last) != [] && Strip(first) != []
    ensures NormalizeAuthor(NormalizeAuthor(last + "," + first)) == NormalizeAuthor(last + "," + first)
  {
    NormalizeAuthorSwaps(last, first);
    var r := Strip(first) + " " + Strip(last);
    StripKeepsCharOut(last, ',');
    StripKeepsCharOut(first, ',');
    assert ',' !in r;
    NormalizeAuthorPlain(r);
    StripFixesStripped(r);
  }

  /** The authors of a list, each normalized on its own, in order. */
  function NormalizeEach(names: seq<string>): (r: seq<string>)
    ensures |r| == |names|
    ensures forall i :: 0 <= i < |names| ==> r[i] == NormalizeAuthor(names[i])
  {
    if names == [] then [] else [NormalizeAuthor(names[0])] + NormalizeEach(names[1..])
  }

  /** The " and "-separated author list of a field value, each author
      normalized, wrapped in braces. */
  function NormalizeAuthors(text: string): (r: string)
    requires CanRemoveBraces(text)
    ensures |r| >= 2 && r[0] == '{' && r[|r| - 1] == '}'
  {
    var authors := Split(RemoveBraces(text), " and ");
    "{" + Join(NormalizeEach(authors), " and ") + "}"
  }

  /** Names that the " and " separator cannot run into: within a name and
      across the separator after it, the first " and " is that separator. */
  predicate AuthorList(names: seq<string>) {
    names != [] && forall i :: 0 <= i < |names| ==> IndexOf(names[i] + " and ", " and ") == Some(|names[i]|)
  }

  /** NormalizeAuthors keeps the authors and their order: the braced list of
      names comes back as the list of their normalized forms. */
  lemma NormalizeAuthorsList(names: seq<string>)
    requires AuthorList(names)
    ensures CanRemoveBraces("{" + Join(names, " and ") + "}")
    ensures NormalizeAuthors("{" + Join(names, " and ") + "}") == "{" + Join(NormalizeEach(names), " and ") + "}"
  {
    RemoveBracesOfBraced(Join(names, " and "));
    SplitOfJoin(names, " and ");
  }

  /** A list of names with no commas and no surrounding whitespace is
      already normalized. */
  lemma NormalizeAuthorsFixesPlainNames(names: seq<string>)
    requires AuthorList(names)
    requires forall i :: 0 <= i < |names| ==> ',' !in names[i] && IsStripped(names[i])
    ensures NormalizeAuthors("{" + Join(names, " and ") + "}") == "{" + Join(names, " and ") + "}"
  {
    NormalizeEachFixesPlainNames(names);
    NormalizeAuthorsList(names);
  }

  lemma NormalizeEachFixesPlainNames(names: seq<string>)
    requires forall i :: 0 <= i < |names| ==> ',' !in names[i] && IsStripped(names[i])
    ensures NormalizeEach(names) == names
  {
    forall i | 0 <= i < |names| ensures NormalizeAuthor(names[i]) == names[i] {
      NormalizeAuthorPlain(names[i]);
      StripFixesStripped(names[i]);
    }
  }

  /** A two-word name meets " and " only at the separator after it, unless
      its second word is "and" itself. */
  lemma TwoWordName(p: string, q: string)
    requires ' ' !in p && ' ' !in q && q != [] && q != "and"
    ensures IndexOf(p + " " + q + " and ", " and ") == Some(|p + " " + q|)
  {
    var s := p + " " + q + " and ";
    var n := |p + " " + q|;
    assert s[n..n + 5] == " and ";
    forall j | 0 <= j < n ensures !OccursAt(s, " and ", j) {
      if j < |p| {
        assert s[j..j + 5][0] == p[j];
      } else if j == |p| {
        SpaceThenWord(s, j, q);
      } else {
        assert s[j..j + 5][0] == q[j - |p| - 1];
      }
    }
    FirstOccurrence(s, " and ", n);
  }

  /** " and " does not start at the space before a word other than "and". */
  lemma SpaceThenWord(s: string, j: nat, q: string)
    requires ' ' !in q && q != [] && q != "and"
    requires j + 1 + |q| + 5 <= |s| && s[j] == ' ' && s[j + 1..j + 1 + |q|] == q
    requires s[j + 1 + |q|] == ' '
    ensures !OccursAt(s, " and ", j)
  {
    if |q| >= 4 {
      assert s[j..j + 5][4] == q[3];
    } else if |q| == 3 {
      assert s[j..j + 5][1..4] == q;
    } else {
      assert s[j..j + 5][|q| + 1] == ' ';
    }
  }

  /** A word holds no plain space. */
  lemma WordHasNoSpace(w: string)
    requires IsWord(w)
    ensures ' ' !in w
  {
  }

  /** Leading whitespace does not change the strip. */
  lemma StripAfterSpace(w: string)
    requires IsWord(w)
    ensures Strip(" " + w) == w
  {
    LeadingSpaceIgnored(' ', w);
    assert DropWhile(" " + w, Whitespace) == DropWhile(w, Whitespace);
    StripFixesStripped(w);
  }

  /** "Last, First" with one-word halves becomes "First Last". */
  lemma SwappedName(last: string, first: string)
    requires IsWord(last) && IsWord(first) && ',' !in last
    ensures NormalizeAuthor(last + ", " + first) == first + " " + last
  {
    assert last + ", " + first == last + "," + (" " + first);
    NormalizeAuthorSwaps(last, " " + first);
    StripAfterSpace(first);
    StripFixesStripped(last);
  }

  /** A two-word name without a comma is kept as it is. */
  lemma KeptName(p: string, q: string)
    requires IsWord(p) && IsWord(q) && ',' !in p && ',' !in q
    ensures NormalizeAuthor(p + " " + q) == p + " " + q
  {
    var n := p + " " + q;
    assert ',' !in n;
    NormalizeAuthorPlain(n);
    StripFixesStripped(n);
  }

  /** The two names of the example do not run into the separator. */
  lemma TwoAuthorsList(last: string, first: string, p: string, q: string)
    requires IsWord(last) && IsWord(first) && IsWord(p) && IsWord(q)
    requires first != "and" && q != "and"
    ensures AuthorList([last + ", " + first, p + " " + q])
  {
    WordHasNoSpace(last);
    WordHasNoSpace(first);
    WordHasNoSpace(p);
    WordHasNoSpace(q);
    assert ' ' !in last + ",";
    assert last + ", " + first == (last + ",") + " " + first;
    TwoWordName(last + ",", first);
    TwoWordName(p, q);
  }

  /** Two authors in the shape of "Pal, David and Francesco Orabona": the
      first, written "Last, First", is swapped; the second is kept. */
  lemma NormalizeTwoAuthors(last: string, first: string, p: string, q: string)
    requires IsWord(last) && IsWord(first) && IsWord(p) && IsWord(q)
    requires ',' !in last && ',' !in p && ',' !in q
    requires first != "and" && q != "and"
    ensures var names := [last + ", " + first, p + " " + q];
      NormalizeAuthors("{" + Join(names, " and ") + "}") == "{" + (first + " " + last + " and " + (p + " " + q)) + "}"
  {
    var names := [last + ", " + first, p + " " + q];
    TwoAuthorsList(last, first, p, q);
    NormalizeAuthorsList(names);
    SwappedName(last, first);
    KeptName(p, q);
    assert NormalizeEach(names) == [first + " " + last, p + " " + q];
    JoinCons(first + " " + last, [p + " " + q], " and ");
  }

  // ---------------------------------------------------------------------
  // Pages

  /** text.split('--', 1), or text.split('-', 1) when the text has no "--". */
  function PageParts(text: string): (parts: seq<string>)
    ensures 1 <= |parts| <= 2
  {
    match IndexOf(text, "--")
    case Some(i) => [text[..i], text[i + 2..]]
    case None =>
      match IndexOf(text, "-")
      case Some(i) => [text[..i], text[i + 1..]]
      case None => [text]
  }

  /** A page range written with a double dash, in braces: the first "--" or,
      failing that, the first '-' separates the two pages. */
  function NormalizePages(text: string): (r: string)
    requires CanRemoveBraces(text)
    ensures |r| >= 2 && r[0] == '{' && r[|r| - 1] == '}'
  {
    "{" + JoinPages(PageParts(RemoveBraces(text))) + "}"
  }

  /** The stripped pages, joined by "--" when there are two. */
  function JoinPages(parts: seq<string>): string
    requires 1 <= |parts|
  {
    if |parts| >= 2 then Strip(parts[0]) + "--" + Strip(parts[1]) else Strip(parts[0])
  }

  /** A text without '-' has no "--" either. */
  lemma NoDashNoDoubleDash(s: string)
    requires '-' !in s
    ensures IndexOf(s, "--").None? && IndexOf(s, "-").None?
  {
    IndexOfChar(s, '-');
    forall j: nat | j + 2 <= |s| ensures !OccursAt(s, "--", j) {
      assert s[j] != '-';
    }
  }

  /** With the first page free of "--" and not ending in '-', the first
      "--" is the one after it. */
  lemma FirstDoubleDash(a: string, b: string)
    requires IndexOf(a, "--").None? && (a == [] || a[|a| - 1] != '-')
    ensures IndexOf(a + "--" + b, "--") == Some(|a|)
  {
    var s := a + "--" + b;
    assert s[|a|..|a| + 2] == "--";
    forall j | 0 <= j < |a| ensures !OccursAt(s, "--", j) {
      if j + 2 <= |a| {
        assert !OccursAt(a, "--", j);
        assert s[j..j + 2] == a[j..j + 2];
      } else {
        assert s[j..j + 2][0] == a[|a| - 1];
      }
    }
    FirstOccurrence(s, "--", |a|);
  }

  lemma PagePartsDouble(a: string, b: string)
    requires IndexOf(a, "--").None? && (a == [] || a[|a| - 1] != '-')
    ensures PageParts(a + "--" + b) == [a, b]
  {
    FirstDoubleDash(a, b);
    var s := a + "--" + b;
    assert s[..|a|] == a && s[|a| + 2..] == b;
  }

  lemma PagePartsSingle(a: string, b: string)
    requires '-' !in a && IndexOf(a + "-" + b, "--").None?
    ensures PageParts(a + "-" + b) == [a, b]
  {
    var s := a + "-" + b;
    assert s[|a|..|a| + 1] == "-";
    forall j | 0 <= j < |a| ensures !OccursAt(s, "-", j) {
      assert s[j..j + 1][0] == a[j];
    }
    FirstOccurrence(s, "-", |a|);
    assert s[..|a|] == a && s[|a| + 1..] == b;
  }

  lemma PagePartsNone(a: string)
    requires '-' !in a
    ensures PageParts(a) == [a]
  {
    NoDashNoDoubleDash(a);
  }

  /** The first "--" separates the pages. */
  lemma PagesDoubleDash(text: string, first: string, last: string)
    requires CanRemoveBraces(text) && RemoveBraces(text) == first + "--" + last
    requires IndexOf(first, "--").None? && (first == [] || first[|first| - 1] != '-')
    ensures NormalizePages(text) == "{" + (Strip(first) + "--" + Strip(last)) + "}"
  {
    PagePartsDouble(first, last);
  }

  /** Without "--", the first '-' separates the pages; later dashes stay
      in the second page ("1-2-3" gives "{1--2-3}"). */
  lemma PagesSingleDash(text: string, first: string, last: string)
    requires CanRemoveBraces(text) && RemoveBraces(text) == first + "-" + last
    requires '-' !in first && IndexOf(first + "-" + last, "--").None?
    ensures NormalizePages(text) == "{" + (Strip(first) + "--" + Strip(last)) + "}"
  {
    PagePartsSingle(first, last);
  }

  /** A single page is only stripped. */
  lemma PagesNoDash(text: string)
    requires CanRemoveBraces(text) && '-' !in RemoveBraces(text)
    ensures NormalizePages(text) == "{" + Strip(RemoveBraces(text)) + "}"
  {
    PagePartsNone(RemoveBraces(text));
  }

  /** The first page NormalizePages keeps does not end in a dash. */
  predicate FirstPageClean(text: string)
    requires CanRemoveBraces(text)
  {
    var a := Strip(PageParts(RemoveBraces(text))[0]);
    a == [] || a[|a| - 1] != '-'
  }

  /** A normalized range a--b is normalized again to itself. */
  lemma RangeSettles(a: string, b: string)
    requires IndexOf(a, "--").None? && (a == [] || a[|a| - 1] != '-')
    requires IsStripped(a) && IsStripped(b)
    ensures CanRemoveBraces("{" + (a + "--" + b) + "}")
    ensures NormalizePages("{" + (a + "--" + b) + "}") == "{" + (a + "--" + b) + "}"
  {
    RemoveBracesOfBraced(a + "--" + b);
    PagesDoubleDash("{" + (a + "--" + b) + "}", a, b);
    StripFixesStripped(a);
    StripFixesStripped(b);
  }

  /** A single normalized page is normalized again to itself. */
  lemma PageSettles(a: string)
    requires '-' !in a && IsStripped(a)
    ensures CanRemoveBraces("{" + a + "}")
    ensures NormalizePages("{" + a + "}") == "{" + a + "}"
  {
    RemoveBracesOfBraced(a);
    PagesNoDash("{" + a + "}");
    StripFixesStripped(a);
  }

  /** Stripping a slice of a text without "--" keeps it without "--". */
  lemma StripKeepsNoDoubleDash(s: string)
    requires IndexOf(s, "--").None?
    ensures IndexOf(Strip(s), "--").None?
  {
    StripIsSlice(s);
    var k := |TakeWhile(s, Whitespace)|;
    NoOccurrenceInSlice(s, "--", k, k + |Strip(s)|);
  }

  /** The case split of NormalizePages at a "--". */
  lemma IdempotentAtDoubleDash(text: string, i: nat)
    requires CanRemoveBraces(text) && FirstPageClean(text)
    requires IndexOf(RemoveBraces(text), "--") == Some(i)
    ensures CanRemoveBraces(NormalizePages(text))
    ensures NormalizePages(NormalizePages(text)) == NormalizePages(text)
  {
    var t := RemoveBraces(text);
    var a, b := Strip(t[..i]), Strip(t[i + 2..]);
    assert PageParts(t) == [t[..i], t[i + 2..]];
    assert NormalizePages(text) == "{" + (a + "--" + b) + "}";
    NoEarlierOccurrence(t, "--", i);
    StripKeepsNoDoubleDash(t[..i]);
    RangeSettles(a, b);
  }

  /** The case split of NormalizePages at a single '-'. */
  lemma IdempotentAtDash(text: string, i: nat)
    requires CanRemoveBraces(text)
    requires IndexOf(RemoveBraces(text), "--").None? && IndexOf(RemoveBraces(text), "-") == Some(i)
    ensures CanRemoveBraces(NormalizePages(text))
    ensures NormalizePages(NormalizePages(text)) == NormalizePages(text)
  {
    var t := RemoveBraces(text);
    var a, b := Strip(t[..i]), Strip(t[i + 1..]);
    assert PageParts(t) == [t[..i], t[i + 1..]];
    assert NormalizePages(text) == "{" + (a + "--" + b) + "}";
    BeforeFirstDash(t, i);
    RangeSettles(a, b);
  }

  /** The case of NormalizePages without any dash. */
  lemma IdempotentWithoutDash(text: string)
    requires CanRemoveBraces(text)
    requires IndexOf(RemoveBraces(text), "--").None? && IndexOf(RemoveBraces(text), "-").None?
    ensures CanRemoveBraces(NormalizePages(text))
    ensures NormalizePages(NormalizePages(text)) == NormalizePages(text)
  {
    var t := RemoveBraces(text);
    assert PageParts(t) == [t];
    assert NormalizePages(text) == "{" + Strip(t) + "}";
    IndexOfChar(t, '-');
    StripKeepsCharOut(t, '-');
    PageSettles(Strip(t));
  }

  /** NormalizePages is idempotent when the first page does not end in a
      dash (see NormalizePagesNotIdempotent for what happens otherwise). */
  lemma NormalizePagesIdempotent(text: string)
    requires CanRemoveBraces(text) && FirstPageClean(text)
    ensures CanRemoveBraces(NormalizePages(text))
    ensures NormalizePages(NormalizePages(text)) == NormalizePages(text)
  {
    var t := RemoveBraces(text);
    match IndexOf(t, "--")
    case Some(i) => IdempotentAtDoubleDash(text, i);
    case None =>
      match IndexOf(t, "-")
      case Some(i) => IdempotentAtDash(text, i);
      case None => IdempotentWithoutDash(text);
  }

  lemma StripDashAfter(a: string)
    requires a != [] && IsStripped(a)
    ensures Strip(a + " - ") == a + " -"
  {
    assert TakeWhile(a + " - ", Whitespace) == [];
    assert TrimRight(a + " - ") == TrimRight(a + " -");
  }

  lemma StripSpaceAfter(a: string)
    requires a != [] && IsStripped(a)
    ensures Strip(a + " ") == a
  {
    assert TakeWhile(a + " ", Whitespace) == [];
    StripFixesStripped(a);
  }

  /** A text without '-' followed by " - " has no "--". */
  lemma NoDoubleDashAfter(a: string)
    requires '-' !in a
    ensures IndexOf(a + " - ", "--").None?
  {
    var first := a + " - ";
    forall j: nat | j + 2 <= |first| ensures !OccursAt(first, "--", j) {
      if j < |a| {
        assert first[j..j + 2][0] == a[j];
      } else if j == |a| {
        assert first[j..j + 2][0] == ' ';
      } else {
        assert first[j..j + 2][1] == ' ';
      }
    }
  }

  /** The first page of a split at the first '-' has no dash, stripped or
      not. */
  lemma BeforeFirstDash(t: string, i: nat)
    requires IndexOf(t, "-") == Some(i)
    ensures '-' !in Strip(t[..i])
    ensures IndexOf(Strip(t[..i]), "--").None?
  {
    NoEarlierOccurrence(t, "-", i);
    IndexOfChar(t[..i], '-');
    StripKeepsCharOut(t[..i], '-');
    NoDashNoDoubleDash(Strip(t[..i]));
  }

  /** The first pass of the counterexample: the dash left before "--"
      stays with the first page. */
  lemma StrayDashFirstPass(a: string, b: string)
    requires a != [] && b != [] && IsStripped(a) && IsStripped(b) && '-' !in a
    ensures CanRemoveBraces("{" + (a + " - --" + b) + "}")
    ensures NormalizePages("{" + (a + " - --" + b) + "}") == "{" + (a + " -" + "--" + b) + "}"
  {
    var first := a + " - ";
    RemoveBracesOfBraced(a + " - --" + b);
    assert a + " - --" + b == first + "--" + b;
    NoDoubleDashAfter(a);
    PagesDoubleDash("{" + (a + " - --" + b) + "}", first, b);
    StripDashAfter(a);
    StripFixesStripped(b);
  }

  /** The text of the second pass: the first page now ends in a space. */
  lemma SecondPassText(a: string, b: string)
    requires '-' !in a
    ensures CanRemoveBraces("{" + (a + " -" + "--" + b) + "}")
    ensures RemoveBraces("{" + (a + " -" + "--" + b) + "}") == (a + " ") + "--" + ("-" + b)
    ensures IndexOf(a + " ", "--").None?
  {
    RemoveBracesOfBraced(a + " -" + "--" + b);
    assert a + " -" + "--" + b == (a + " ") + "--" + ("-" + b);
    NoDashNoDoubleDash(a + " ");
  }

  /** The second pass of the counterexample: the first "--" is now the one
      that starts with that stray dash. */
  lemma StrayDashSecondPass(a: string, b: string)
    requires a != [] && b != [] && IsStripped(a) && IsStripped(b) && '-' !in a
    ensures CanRemoveBraces("{" + (a + " -" + "--" + b) + "}")
    ensures NormalizePages("{" + (a + " -" + "--" + b) + "}") == "{" + (a + "--" + ("-" + b)) + "}"
  {
    var second := a + " ";
    var text := "{" + (a + " -" + "--" + b) + "}";
    SecondPassText(a, b);
    PagesDoubleDash(text, second, "-" + b);
    StripSpaceAfter(a);
    StripFixesStripped("-" + b);
  }

  /** Without that condition a second pass can still change the range: for
      pages a and b, "a - --b" becomes "a ---b", whose first "--" now comes
      right after "a ", giving "a---b". */
  lemma NormalizePagesNotIdempotent(a: string, b: string)
    requires a != [] && b != [] && IsStripped(a) && IsStripped(b) && '-' !in a
    ensures var once := NormalizePages("{" + (a + " - --" + b) + "}");
      CanRemoveBraces(once) && NormalizePages(once) != once
  {
    StrayDashFirstPass(a, b);
    StrayDashSecondPass(a, b);
    var once := "{" + (a + " -" + "--" + b) + "}";
    var twice := "{" + (a + "--" + ("-" + b)) + "}";
    assert |twice| == |once| - 1;
  }
}
