/** The five regular expressions of the entry parser, each written out as a
    scanner over the text (\s is whitespace, \w an ASCII letter, digit or
    '_'). A scanner returns the captured group and the text after the whole
    match, or None where the expression does not match. */
module Scan {
  import opened Text

  /** The trailing \s*,?\s* of a value: whitespace, at most one comma, and
      whitespace again. */
  function SkipComma(s: string): (r: string)
    ensures |r| <= |s|
  {
    var t := DropWhile(s, Whitespace);
    var u := if t != [] && t[0] == ',' then t[1..] else t;
    DropWhile(u, Whitespace)
  }

  /** \s*c : the text after whitespace and the character c. */
  function AfterPunct(s: string, c: char): (r: Option<string>)
    ensures r.Some? ==> |r.value| < |s|
  {
    var v := DropWhile(s, Whitespace);
    if v == [] || v[0] != c then None else Some(v[1..])
  }

  /** \s*@\s*(\w+)\s*({)\s* : the entry type, and the text right after the
      opening brace (the parser continues from the end of group 2, so the
      final \s* does not consume anything). */
  function MatchHeader(text: string): (r: Option<(string, string)>)
    ensures r.Some? ==> r.value.0 != [] && AllIn(r.value.0, Word) && |r.value.1| < |text|
  {
    match AfterPunct(text, '@')
    case None => None
    case Some(t) =>
      var u := DropWhile(t, Whitespace);
      var word := TakeWhile(u, Word);
      if word == [] then None
      else
        match AfterPunct(u[|word|..], '{')
        case None => None
        case Some(after) => Some((word, after))
  }

  /** \s*([-:\w]+)\s*,\s* : the citation name and the text after the comma
      and the whitespace that follows it. */
  function MatchName(text: string): (r: Option<(string, string)>)
    ensures r.Some? ==> r.value.0 != [] && AllIn(r.value.0, NameChar) && |r.value.1| < |text|
  {
    var t := DropWhile(text, Whitespace);
    var name := TakeWhile(t, NameChar);
    if name == [] then None
    else
      match AfterPunct(t[|name|..], ',')
      case None => None
      case Some(rest) => Some((name, DropWhile(rest, Whitespace)))
  }

  /** \s*,?\s*([\w-]+)\s*=\s* : the field name and the text where its value
      starts. */
  function MatchRow(text: string): (r: Option<(string, string)>)
    ensures r.Some? ==> r.value.0 != [] && AllIn(r.value.0, KeyChar) && |r.value.1| < |text|
    ensures r.Some? ==> r.value.1 == [] || !IsSpace(r.value.1[0])
  {
    var u := SkipComma(text);
    var key := TakeWhile(u, KeyChar);
    if key == [] then None
    else
      match AfterPunct(u[|key|..], '=')
      case None => None
      case Some(rest) => Some((key, DropWhile(rest, Whitespace)))
  }

  /** ("[^"]+")\s*,?\s* : a quoted value, quotes included, and the text after
      it. */
  function MatchQuoted(text: string): (r: Option<(string, string)>)
    ensures r.Some? ==> |r.value.1| < |text|
    ensures r.Some? ==> var q := r.value.0;
      |q| >= 3 && q[0] == '"' && q[|q| - 1] == '"' && '"' !in q[1..|q| - 1]
  {
    if text == [] || text[0] != '"' then None
    else
      var inner := TakeWhile(text[1..], NotQuote);
      if inner == [] || 1 + |inner| == |text| then None
      else
        assert text[..|inner| + 2] == ['"'] + inner + ['"'];
        Some((text[..|inner| + 2], SkipComma(text[|inner| + 2..])))
  }

  /** \s*(\w+)\s*,?\s* : a bare word and the text after it. */
  function MatchBare(text: string): (r: Option<(string, string)>)
    ensures r.Some? ==> r.value.0 != [] && AllIn(r.value.0, Word) && |r.value.1| < |text|
  {
    var t := DropWhile(text, Whitespace);
    var word := TakeWhile(t, Word);
    if word == [] then None else Some((word, SkipComma(t[|word|..])))
  }

  /** ^[0-9]*$ */
  predicate AllDigits(s: string) {
    forall i :: 0 <= i < |s| ==> IsDigit(s[i])
  }

  // ---------------------------------------------------------------------
  // Each scanner accepts the texts its expression describes.

  lemma SkipCommaOf(s1: string, comma: string, s2: string, rest: string)
    requires AllIn(s1, Whitespace) && AllIn(s2, Whitespace)
    requires comma == "" || comma == ","
    requires rest == [] || (!IsSpace(rest[0]) && rest[0] != ',')
    ensures SkipComma(s1 + (comma + (s2 + rest))) == rest
  {
    if comma == "," {
      TakeWhileRun(s1, comma + (s2 + rest), Whitespace);
      assert (comma + (s2 + rest))[1..] == s2 + rest;
      TakeWhileRun(s2, rest, Whitespace);
    } else {
      assert AllIn(s1 + s2, Whitespace);
      assert s1 + (comma + (s2 + rest)) == (s1 + s2) + rest;
      TakeWhileRun(s1 + s2, rest, Whitespace);
      assert DropWhile(rest, Whitespace) == rest;
    }
  }

  lemma PunctMatches(s: string, c: char, rest: string)
    requires AllIn(s, Whitespace) && !IsSpace(c)
    ensures AfterPunct(s + [c] + rest, c) == Some(rest)
  {
    assert s + [c] + rest == s + ([c] + rest);
    TakeWhileRun(s, [c] + rest, Whitespace);
    assert ([c] + rest)[1..] == rest;
  }

  /** The word, whitespace and the opening brace of a header. */
  lemma WordThenBrace(word: string, s3: string, after: string)
    requires AllIn(s3, Whitespace) && word != [] && AllIn(word, Word)
    ensures var u := word + (s3 + "{" + after);
      TakeWhile(u, Word) == word && AfterPunct(u[|word|..], '{') == Some(after)
  {
    var u := word + (s3 + "{" + after);
    TakeWhileRun(word, s3 + "{" + after, Word);
    assert u[|word|..] == s3 + "{" + after;
    PunctMatches(s3, '{', after);
  }

  lemma HeaderMatches(s1: string, s2: string, word: string, s3: string, after: string)
    requires AllIn(s1, Whitespace) && AllIn(s2, Whitespace) && AllIn(s3, Whitespace)
    requires word != [] && AllIn(word, Word)
    ensures MatchHeader(s1 + "@" + (s2 + (word + (s3 + "{" + after)))) == Some((word, after))
  {
    var u := word + (s3 + "{" + after);
    PunctMatches(s1, '@', s2 + u);
    TakeWhileRun(s2, u, Whitespace);
    WordThenBrace(word, s3, after);
  }

  /** The whitespace, comma and whitespace after a citation name. */
  lemma CommaThenSpace(s2: string, s3: string, rest: string)
    requires AllIn(s2, Whitespace) && AllIn(s3, Whitespace)
    requires rest == [] || !IsSpace(rest[0])
    ensures AfterPunct(s2 + "," + (s3 + rest), ',') == Some(s3 + rest)
    ensures DropWhile(s3 + rest, Whitespace) == rest
  {
    PunctMatches(s2, ',', s3 + rest);
    TakeWhileRun(s3, rest, Whitespace);
  }

  lemma NameMatches(s1: string, name: string, s2: string, s3: string, rest: string)
    requires AllIn(s1, Whitespace) && AllIn(s2, Whitespace) && AllIn(s3, Whitespace)
    requires name != [] && AllIn(name, NameChar)
    requires rest == [] || !IsSpace(rest[0])
    ensures MatchName(s1 + (name + (s2 + "," + (s3 + rest)))) == Some((name, rest))
  {
    var x2 := s2 + "," + (s3 + rest);
    TakeWhileRun(s1, name + x2, Whitespace);
    TakeWhileRun(name, x2, NameChar);
    assert (name + x2)[|name|..] == x2;
    CommaThenSpace(s2, s3, rest);
  }

  /** The field name, whitespace, '=' and whitespace of a row. */
  lemma KeyThenEquals(key: string, s3: string, s4: string, rest: string)
    requires AllIn(s3, Whitespace) && AllIn(s4, Whitespace)
    requires key != [] && AllIn(key, KeyChar)
    requires rest == [] || !IsSpace(rest[0])
    ensures var u := key + (s3 + "=" + (s4 + rest));
      TakeWhile(u, KeyChar) == key && AfterPunct(u[|key|..], '=') == Some(s4 + rest)
    ensures DropWhile(s4 + rest, Whitespace) == rest
  {
    var x2 := s3 + "=" + (s4 + rest);
    TakeWhileRun(key, x2, KeyChar);
    assert (key + x2)[|key|..] == x2;
    PunctMatches(s3, '=', s4 + rest);
    TakeWhileRun(s4, rest, Whitespace);
  }

  lemma RowMatches(s1: string, comma: string, s2: string, key: string, s3: string, s4: string, rest: string)
    requires AllIn(s1, Whitespace) && AllIn(s2, Whitespace) && (comma == "" || comma == ",")
    requires AllIn(s3, Whitespace) && AllIn(s4, Whitespace)
    requires key != [] && AllIn(key, KeyChar)
    requires rest == [] || !IsSpace(rest[0])
    ensures MatchRow(s1 + (comma + (s2 + (key + (s3 + "=" + (s4 + rest)))))) == Some((key, rest))
  {
    var u := key + (s3 + "=" + (s4 + rest));
    SkipCommaOf(s1, comma, s2, u);
    KeyThenEquals(key, s3, s4, rest);
  }

  lemma QuotedMatches(inner: string, trail: string)
    requires inner != [] && '"' !in inner
    ensures MatchQuoted("\"" + (inner + ("\"" + trail))) == Some(("\"" + (inner + "\""), SkipComma(trail)))
  {
    var text := "\"" + (inner + ("\"" + trail));
    QuoteFree(inner);
    assert text[1..] == inner + ("\"" + trail);
    TakeWhileRun(inner, "\"" + trail, NotQuote);
    assert text[..|inner| + 2] == "\"" + (inner + "\"");
    assert text[|inner| + 2..] == trail;
  }

  lemma QuoteFree(s: string)
    requires '"' !in s
    ensures AllIn(s, NotQuote)
  {
    forall i | 0 <= i < |s| ensures InClass(s[i], NotQuote) {
      assert s[i] in s;
    }
  }

  lemma BareMatches(s1: string, word: string, trail: string)
    requires AllIn(s1, Whitespace) && word != [] && AllIn(word, Word)
    requires trail == [] || !IsWordChar(trail[0])
    ensures MatchBare(s1 + word + trail) == Some((word, SkipComma(trail)))
  {
    TakeWhileRun(s1, word + trail, Whitespace);
    assert s1 + word + trail == s1 + (word + trail);
    TakeWhileRun(word, trail, Word);
  }

  // ---------------------------------------------------------------------
  // Each scanner accepts only the texts its expression describes.

  /** A text is its longest k-run followed by what is left. */
  lemma SplitRun(s: string, k: CharClass)
    ensures s == TakeWhile(s, k) + DropWhile(s, k)
  {
  }

  /** When \s*c matches, the text is whitespace, c and what follows. */
  lemma AfterPunctSplit(s: string, c: char) returns (ws: string)
    requires AfterPunct(s, c).Some?
    ensures AllIn(ws, Whitespace) && s == ws + ([c] + AfterPunct(s, c).value)
  {
    ws := TakeWhile(s, Whitespace);
    var v := DropWhile(s, Whitespace);
    SplitRun(s, Whitespace);
    assert v == [c] + v[1..];
  }

  /** What \s*,?\s* skips: whitespace, at most one comma, whitespace. */
  lemma SkipCommaSplit(s: string) returns (s1: string, comma: string, s2: string)
    ensures AllIn(s1, Whitespace) && AllIn(s2, Whitespace) && (comma == "" || comma == ",")
    ensures s == s1 + (comma + (s2 + SkipComma(s)))
  {
    s1 := TakeWhile(s, Whitespace);
    var t := DropWhile(s, Whitespace);
    SplitRun(s, Whitespace);
    var u := t;
    comma := "";
    if t != [] && t[0] == ',' {
      u := t[1..];
      comma := ",";
      assert t == comma + u;
    }
    s2 := TakeWhile(u, Whitespace);
    SplitRun(u, Whitespace);
  }

  /** Putting the pieces of a match back together. */
  lemma Regroup4(text: string, s1: string, c: char, t: string, s2: string, u: string,
                 word: string, v: string, s3: string, d: char, rest: string)
    requires text == s1 + ([c] + t) && t == s2 + u && u == word + v && v == s3 + ([d] + rest)
    ensures text == s1 + [c] + (s2 + (word + (s3 + [d] + rest)))
  {
  }

  /** The name and what follows it, put back together. */
  lemma Regroup3(t: string, name: string, v: string, s2: string, c: char, r: string, s3: string, rest: string)
    requires t == name + v && v == s2 + ([c] + r) && r == s3 + rest
    ensures t == name + (s2 + [c] + (s3 + rest))
  {
  }

  /** A header match is whitespace, '@', whitespace, the type word,
      whitespace and '{', followed by the text returned. */
  lemma MatchHeaderShape(text: string)
    requires MatchHeader(text).Some?
    ensures var h := MatchHeader(text).value;
      exists s1, s2, s3 :: AllIn(s1, Whitespace) && AllIn(s2, Whitespace) && AllIn(s3, Whitespace) &&
        text == s1 + "@" + (s2 + (h.0 + (s3 + "{" + h.1)))
  {
    var h := MatchHeader(text).value;
    var t := AfterPunct(text, '@').value;
    var s1 := AfterPunctSplit(text, '@');
    var u := DropWhile(t, Whitespace);
    var s2 := TakeWhile(t, Whitespace);
    SplitRun(t, Whitespace);
    SplitRun(u, Word);
    var v := u[|h.0|..];
    var s3 := AfterPunctSplit(v, '{');
    Regroup4(text, s1, '@', t, s2, u, h.0, v, s3, '{', h.1);
    assert AllIn(s1, Whitespace) && AllIn(s2, Whitespace) && AllIn(s3, Whitespace) &&
      text == s1 + "@" + (s2 + (h.0 + (s3 + "{" + h.1)));
  }

  /** A name match is whitespace, the name, whitespace, ',' and whitespace,
      followed by the text returned, which starts with no whitespace. */
  lemma MatchNameShape(text: string)
    requires MatchName(text).Some?
    ensures var n := MatchName(text).value;
      && (n.1 == [] || !IsSpace(n.1[0]))
      && (exists s1, s2, s3 :: AllIn(s1, Whitespace) && AllIn(s2, Whitespace) && AllIn(s3, Whitespace) &&
            text == s1 + (n.0 + (s2 + "," + (s3 + n.1))))
  {
    var n := MatchName(text).value;
    var t := DropWhile(text, Whitespace);
    var s1 := TakeWhile(text, Whitespace);
    SplitRun(text, Whitespace);
    SplitRun(t, NameChar);
    var v := t[|n.0|..];
    var r := AfterPunct(v, ',').value;
    var s2 := AfterPunctSplit(v, ',');
    var s3 := TakeWhile(r, Whitespace);
    SplitRun(r, Whitespace);
    Regroup3(t, n.0, v, s2, ',', r, s3, n.1);
    assert AllIn(s1, Whitespace) && AllIn(s2, Whitespace) && AllIn(s3, Whitespace) &&
      text == s1 + (n.0 + (s2 + "," + (s3 + n.1)));
  }

  /** A row match is whitespace, an optional comma, whitespace, the key,
      whitespace, '=' and whitespace, followed by the text returned. */
  lemma MatchRowShape(text: string)
    requires MatchRow(text).Some?
    ensures var m := MatchRow(text).value;
      exists s1, comma, s2, s3, s4 :: AllIn(s1, Whitespace) && AllIn(s2, Whitespace) &&
        (comma == "" || comma == ",") && AllIn(s3, Whitespace) && AllIn(s4, Whitespace) &&
        text == s1 + (comma + (s2 + (m.0 + (s3 + "=" + (s4 + m.1)))))
  {
    var m := MatchRow(text).value;
    var u := SkipComma(text);
    var s1, comma, s2 := SkipCommaSplit(text);
    SplitRun(u, KeyChar);
    var v := u[|m.0|..];
    var r := AfterPunct(v, '=').value;
    var s3 := AfterPunctSplit(v, '=');
    var s4 := TakeWhile(r, Whitespace);
    SplitRun(r, Whitespace);
    Regroup3(u, m.0, v, s3, '=', r, s4, m.1);
    assert AllIn(s1, Whitespace) && AllIn(s2, Whitespace) && (comma == "" || comma == ",") &&
      AllIn(s3, Whitespace) && AllIn(s4, Whitespace) &&
      text == s1 + (comma + (s2 + (m.0 + (s3 + "=" + (s4 + m.1)))));
  }

  /** A quoted match is a quote, at least one character other than a
      quote, and a quote; the text returned follows the comma after it. */
  lemma MatchQuotedShape(text: string)
    requires MatchQuoted(text).Some?
    ensures var q := MatchQuoted(text).value;
      exists inner, trail :: inner != [] && '"' !in inner &&
        text == "\"" + (inner + ("\"" + trail)) && q == ("\"" + (inner + "\""), SkipComma(trail))
  {
    var q := MatchQuoted(text).value;
    var inner := QuotedParts(text);
    var trail := text[|inner| + 2..];
    QuoteFreeOf(inner);
    QuotedSplit(text, inner);
    assert inner != [] && '"' !in inner && text == "\"" + (inner + ("\"" + trail)) &&
      q == ("\"" + (inner + "\""), SkipComma(trail));
  }

  /** The run of non-quote characters a quoted match is made of. */
  lemma QuotedParts(text: string) returns (inner: string)
    requires MatchQuoted(text).Some?
    ensures inner != [] && AllIn(inner, NotQuote) && 2 + |inner| <= |text|
    ensures text[0] == '"' && text[|inner| + 1] == '"' && inner == text[1..|inner| + 1]
    ensures MatchQuoted(text).value == (text[..|inner| + 2], SkipComma(text[|inner| + 2..]))
  {
    inner := TakeWhile(text[1..], NotQuote);
    SplitRun(text[1..], NotQuote);
  }

  /** The text of a quoted match around its inner characters. */
  lemma QuotedSplit(text: string, inner: string)
    requires 2 + |inner| <= |text| && text[0] == '"' && text[|inner| + 1] == '"'
    requires inner == text[1..|inner| + 1]
    ensures text == "\"" + (inner + ("\"" + text[|inner| + 2..]))
    ensures text[..|inner| + 2] == "\"" + (inner + "\"")
  {
    var n := |inner|;
    var a, b := text[..n + 2], "\"" + (inner + "\"");
    forall i | 0 <= i < n + 2 ensures a[i] == b[i] {
      if 0 < i <= n {
        assert a[i] == inner[i - 1];
      }
    }
    assert text == a + text[n + 2..];
  }

  lemma QuoteFreeOf(s: string)
    requires AllIn(s, NotQuote)
    ensures '"' !in s
  {
  }

  /** A bare match is whitespace and the word, followed by a character that
      cannot continue the word; the text returned follows the comma after
      it. */
  lemma MatchBareShape(text: string)
    requires MatchBare(text).Some?
    ensures var b := MatchBare(text).value;
      exists s1, trail :: AllIn(s1, Whitespace) && (trail == [] || !IsWordChar(trail[0])) &&
        text == s1 + (b.0 + trail) && b.1 == SkipComma(trail)
  {
    var b := MatchBare(text).value;
    var s1 := TakeWhile(text, Whitespace);
    var t := DropWhile(text, Whitespace);
    SplitRun(text, Whitespace);
    SplitRun(t, Word);
    var trail := t[|b.0|..];
    assert trail == [] || !IsWordChar(trail[0]);
  }
}
