/** Text helpers of the beautifier: character classes, trimming, whitespace
    collapsing (Format), word capitalisation (CamelCase), brace matching
    (FindMatchingParenthesis), substring search, splitting, joining and the
    removal of one pair of outer braces or quotes (RemoveBraces).

    Letters, digits and case mapping are ASCII; whitespace is the set of
    characters for which Python's str.isspace() holds. */
module Text {

  datatype Option<T> = None | Some(value: T)

  // ---------------------------------------------------------------------
  // Characters

  /** str.isspace(): the ASCII whitespace characters, the separators
      0x1C-0x1F and the Unicode space characters. */
  predicate IsSpace(c: char) {
    || c == ' '
    || ('\t' <= c <= '\r')
    || ('\U{1C}' <= c <= '\U{1F}')
    || c == '\U{85}' || c == '\U{A0}' || c == '\U{1680}'
    || ('\U{2000}' <= c <= '\U{200A}')
    || c == '\U{2028}' || c == '\U{2029}' || c == '\U{202F}'
    || c == '\U{205F}' || c == '\U{3000}'
  }

  predicate IsUpper(c: char) { 'A' <= c <= 'Z' }
  predicate IsLower(c: char) { 'a' <= c <= 'z' }
  predicate IsLetter(c: char) { IsUpper(c) || IsLower(c) }
  predicate IsDigit(c: char) { '0' <= c <= '9' }

  /** The regular-expression class \w, restricted to ASCII. */
  predicate IsWordChar(c: char) { IsLetter(c) || IsDigit(c) || c == '_' }

  function ToLower(c: char): (r: char)
    ensures IsLetter(r) == IsLetter(c) && !IsUpper(r)
    ensures !IsUpper(c) ==> r == c
  {
    if IsUpper(c) then (c as int + 32) as char else c
  }

  function ToUpper(c: char): (r: char)
    ensures IsLetter(r) == IsLetter(c) && !IsLower(r)
    ensures !IsLower(c) ==> r == c
  {
    if IsLower(c) then (c as int - 32) as char else c
  }

  /** str.lower() over ASCII. */
  function LowerStr(s: string): (r: string)
    ensures |r| == |s|
    ensures forall i :: 0 <= i < |s| ==> r[i] == ToLower(s[i])
  {
    seq(|s|, i requires 0 <= i < |s| => ToLower(s[i]))
  }

  lemma LowerStrIdempotent(s: string)
    ensures LowerStr(LowerStr(s)) == LowerStr(s)
  {
  }

  // ---------------------------------------------------------------------
  // Runs of one character class: the pieces the regular expressions of the
  // parser are made of.

  datatype CharClass =
    | Whitespace     // \s
    | NonWhitespace  // \S
    | Word           // \w
    | KeyChar        // [\w-]
    | NameChar       // [-:\w]
    | NotQuote       // [^"]

  predicate InClass(c: char, k: CharClass) {
    match k
    case Whitespace => IsSpace(c)
    case NonWhitespace => !IsSpace(c)
    case Word => IsWordChar(c)
    case KeyChar => IsWordChar(c) || c == '-'
    case NameChar => IsWordChar(c) || c == '-' || c == ':'
    case NotQuote => c != '"'
  }

  predicate AllIn(s: string, k: CharClass) {
    forall i :: 0 <= i < |s| ==> InClass(s[i], k)
  }

  /** The longest prefix of s made of characters of class k (a greedy k*). */
  function TakeWhile(s: string, k: CharClass): (r: string)
    ensures |r| <= |s| && r == s[..|r|]
    ensures AllIn(r, k)
    ensures |r| == |s| || !InClass(s[|r|], k)
  {
    if s != [] && InClass(s[0], k) then [s[0]] + TakeWhile(s[1..], k) else []
  }

  /** s without its longest prefix of class k. */
  function DropWhile(s: string, k: CharClass): (r: string)
    ensures |r| <= |s|
    ensures r == [] || !InClass(r[0], k)
  {
    s[|TakeWhile(s, k)|..]
  }

  /** A run of class k followed by a character outside k is exactly what
      TakeWhile reads. */
  lemma {:induction false} TakeWhileRun(a: string, x: string, k: CharClass)
    requires AllIn(a, k) && (x == [] || !InClass(x[0], k))
    ensures TakeWhile(a + x, k) == a
    ensures DropWhile(a + x, k) == x
    decreases |a|
  {
    if a != [] {
      assert (a + x)[1..] == a[1..] + x;
      TakeWhileRun(a[1..], x, k);
    }
  }

  // ---------------------------------------------------------------------
  // strip()

  predicate AllSpace(s: string) {
    forall i :: 0 <= i < |s| ==> IsSpace(s[i])
  }

  function TrimRight(s: string): (r: string)
    ensures |r| <= |s| && r == s[..|r|]
    ensures AllSpace(s[|r|..])
    ensures r == [] || !IsSpace(r[|r| - 1])
  {
    if s != [] && IsSpace(s[|s| - 1]) then
      var r := TrimRight(s[..|s| - 1]);
      assert s[|r|..] == s[..|s| - 1][|r|..] + [s[|s| - 1]];
      r
    else s
  }

  /** str.strip(): s without leading and trailing whitespace. */
  function Strip(s: string): (r: string)
    ensures |r| <= |s|
    ensures r == [] || (!IsSpace(r[0]) && !IsSpace(r[|r| - 1]))
  {
    TrimRight(DropWhile(s, Whitespace))
  }

  predicate IsStripped(s: string) {
    s == [] || (!IsSpace(s[0]) && !IsSpace(s[|s| - 1]))
  }

  /** Text with no whitespace at either end is its own strip. */
  lemma StripFixesStripped(s: string)
    requires IsStripped(s)
    ensures Strip(s) == s
  {
    if s != [] {
      assert TakeWhile(s, Whitespace) == [];
    }
  }

  lemma StripIdempotent(s: string)
    ensures Strip(Strip(s)) == Strip(s)
  {
    StripFixesStripped(Strip(s));
  }

  // ---------------------------------------------------------------------
  // Format: ' '.join(text.split())

  predicate IsWord(w: string) {
    w != [] && forall i :: 0 <= i < |w| ==> !IsSpace(w[i])
  }

  /** text.split(): the maximal runs of non-whitespace characters, in order. */
  function Words(s: string): (ws: seq<string>)
    ensures forall i :: 0 <= i < |ws| ==> IsWord(ws[i])
    decreases |s|
  {
    var t := DropWhile(s, Whitespace);
    if t == [] then []
    else
      var w := TakeWhile(t, NonWhitespace);
      [w] + Words(t[|w|..])
  }

  /** sep.join(ws) */
  function Join(ws: seq<string>, sep: string): (r: string)
    ensures ws != [] ==> |ws[0]| <= |r| && r[..|ws[0]|] == ws[0]
  {
    if |ws| == 0 then []
    else if |ws| == 1 then ws[0]
    else ws[0] + sep + Join(ws[1..], sep)
  }

  /** Text in the form Format produces: the only whitespace is the plain
      space, never at either end and never two in a row. */
  predicate Formatted(r: string) {
    && (forall i :: 0 <= i < |r| ==> IsSpace(r[i]) ==> r[i] == ' ')
    && (r != [] ==> r[0] != ' ' && r[|r| - 1] != ' ')
    && (forall i :: 0 <= i < |r| - 1 ==> r[i] == ' ' ==> r[i + 1] != ' ')
  }

  lemma {:induction false} JoinWordsFormatted(ws: seq<string>)
    requires forall i :: 0 <= i < |ws| ==> IsWord(ws[i])
    ensures Formatted(Join(ws, " "))
    ensures ws != [] ==> Join(ws, " ") != [] && !IsSpace(Join(ws, " ")[0])
    decreases |ws|
  {
    if |ws| > 1 {
      JoinWordsFormatted(ws[1..]);
      var w, j := ws[0], Join(ws[1..], " ");
      var r := w + " " + j;
      assert r == Join(ws, " ");
      assert IsWord(w);
      forall i | 0 <= i < |r| && IsSpace(r[i]) ensures r[i] == ' ' {
        if i > |w| { assert r[i] == j[i - |w| - 1]; }
      }
      forall i | 0 <= i < |r| - 1 && r[i] == ' ' ensures r[i + 1] != ' ' {
        if i > |w| { assert r[i] == j[i - |w| - 1] && r[i + 1] == j[i - |w|]; }
      }
      assert r[|r| - 1] == j[|j| - 1];
    }
  }

  /** Python's ' '.join(text.split()): the words of the text joined by
      single spaces. */
  function Format(s: string): (r: string)
    ensures Formatted(r)
    ensures Words(s) == [] <==> r == []
  {
    JoinWordsFormatted(Words(s));
    Join(Words(s), " ")
  }

  lemma LeadingSpaceIgnored(c: char, t: string)
    requires IsSpace(c)
    ensures DropWhile([c] + t, Whitespace) == DropWhile(t, Whitespace)
    ensures Words([c] + t) == Words(t)
  {
    assert ([c] + t)[1..] == t;
    assert TakeWhile([c] + t, Whitespace) == [c] + TakeWhile(t, Whitespace);
  }

  lemma WordAlone(w: string)
    requires IsWord(w)
    ensures DropWhile(w, Whitespace) == w && TakeWhile(w, NonWhitespace) == w
  {
    if |w| > 1 {
      assert IsWord(w[1..]);
      WordAlone(w[1..]);
    }
  }

  lemma WordBeforeSpace(w: string, t: string)
    requires IsWord(w)
    ensures TakeWhile(w + " " + t, NonWhitespace) == w
  {
    if |w| > 1 {
      assert (w + " " + t)[1..] == w[1..] + " " + t;
      assert IsWord(w[1..]);
      WordBeforeSpace(w[1..], t);
    } else {
      assert (w + " " + t)[1..] == " " + t;
    }
  }

  /** The words of a word, a space and more text. */
  lemma WordsAfterWord(w: string, u: string)
    requires IsWord(w)
    ensures Words(w + " " + u) == [w] + Words(u)
  {
    var t := w + " " + u;
    assert TakeWhile(t, Whitespace) == [];
    WordBeforeSpace(w, u);
    assert t[|w|..] == [' '] + u;
    LeadingSpaceIgnored(' ', u);
  }

  lemma WordsOfWord(w: string)
    requires IsWord(w)
    ensures Words(w) == [w]
  {
    WordAlone(w);
    assert w[|w|..] == [];
  }

  /** Splitting the words joined by single spaces gives the words back. */
  lemma {:induction false} WordsOfJoin(ws: seq<string>)
    requires forall i :: 0 <= i < |ws| ==> IsWord(ws[i])
    ensures Words(Join(ws, " ")) == ws
    decreases |ws|
  {
    if |ws| == 1 {
      WordsOfWord(ws[0]);
    } else if |ws| > 1 {
      WordsAfterWord(ws[0], Join(ws[1..], " "));
      WordsOfJoin(ws[1..]);
      assert ws == [ws[0]] + ws[1..];
    }
  }

  /** Format keeps the words of the text, in order. */
  lemma FormatKeepsWords(s: string)
    ensures Words(Format(s)) == Words(s)
  {
    WordsOfJoin(Words(s));
  }

  lemma FormatIdempotent(s: string)
    ensures Format(Format(s)) == Format(s)
  {
    FormatKeepsWords(s);
  }

  /** Formatted text is its first word, a space and formatted text, or
      its first word alone. */
  lemma FormattedAfterWord(s: string, w: string)
    requires Formatted(s) && s != [] && w == TakeWhile(s, NonWhitespace)
    ensures IsWord(w)
    ensures |w| < |s| ==>
      var u := s[|w| + 1..];
      s[|w|] == ' ' && s == w + " " + u && u != [] && Formatted(u)
  {
    assert w[0] == s[0];
    if |w| < |s| {
      var u := s[|w| + 1..];
      assert s == w + " " + u;
      assert u != [] && u[0] == s[|w| + 1] && u[|u| - 1] == s[|s| - 1];
      forall i | 0 <= i < |u| - 1 && u[i] == ' ' ensures u[i + 1] != ' ' {
        assert u[i] == s[|w| + 1 + i];
      }
    }
  }

  /** Format leaves text that is already formatted as it is. */
  lemma {:induction false} FormatFixesFormatted(s: string)
    requires Formatted(s)
    ensures Format(s) == s
    decreases |s|
  {
    if s != [] {
      var w := TakeWhile(s, NonWhitespace);
      FormattedAfterWord(s, w);
      if |w| < |s| {
        var u := s[|w| + 1..];
        FormatFixesFormatted(u);
        WordsAfterWord(w, u);
        JoinCons(w, Words(u), " ");
      } else {
        WordsOfWord(s);
      }
    }
  }

  // ---------------------------------------------------------------------
  // CamelCase

  /** What CamelCase computes: the text lower-cased, with every letter that
      starts the text or follows a non-letter upper-cased. */
  function CamelCased(text: string): (r: string)
    ensures |r| == |text|
  {
    seq(|text|, i requires 0 <= i < |text| => CaseAt(text, i))
  }

  function CaseAt(text: string, i: nat): char
    requires i < |text|
  {
    if i == 0 || !IsLetter(text[i - 1]) then ToUpper(ToLower(text[i])) else ToLower(text[i])
  }

  /** CamelCase changes only the case of letters: a letter is upper-case
      exactly when it starts the text or follows a non-letter. */
  lemma CamelCasedWordStarts(text: string, i: nat)
    requires i < |text|
    ensures var r := CamelCased(text);
      && ToLower(r[i]) == ToLower(text[i])
      && (IsLetter(r[i]) <==> IsLetter(text[i]))
      && (IsLetter(r[i]) ==> (IsUpper(r[i]) <==> i == 0 || !IsLetter(text[i - 1])))
      && (!IsLetter(text[i]) ==> r[i] == text[i])
  {
  }

  lemma CamelCasedIdempotent(text: string)
    ensures CamelCased(CamelCased(text)) == CamelCased(text)
  {
    var r := CamelCased(text);
    forall i | 0 <= i < |text| ensures CamelCased(r)[i] == r[i] {
      CamelCasedWordStarts(text, i);
      if i > 0 {
        CamelCasedWordStarts(text, i - 1);
      }
    }
  }

  method CamelCase(text: string) returns (s: string)
    ensures s == CamelCased(text)
  {
    var lowered := LowerStr(text);
    var wordStart := true;
    s := "";
    for i := 0 to |lowered|
      invariant |s| == i
      invariant forall k :: 0 <= k < i ==> s[k] == CaseAt(text, k)
      invariant wordStart <==> i == 0 || !IsLetter(text[i - 1])
    {
      var c := lowered[i];
      if wordStart {
        c := ToUpper(c);
      }
      wordStart := !IsLetter(c);
      s := s + [c];
    }
  }

  // ---------------------------------------------------------------------
  // FindMatchingParenthesis

  function Delta(c: char): int {
    if c == '{' then 1 else if c == '}' then -1 else 0
  }

  /** The nesting depth once text[1..k] has been scanned. Scanning starts at
      depth 1 and skips text[0], which is taken to be the opening brace. */
  function Depth(text: string, k: nat): int
    requires 1 <= k <= |text|
  {
    if k == 1 then 1 else Depth(text, k - 1) + Delta(text[k - 1])
  }

  /** The end of the brace-balanced prefix when scanning resumes at index k. */
  function CloseFrom(text: string, k: nat): (e: nat)
    requires 1 <= k <= |text| && Depth(text, k) > 0
    ensures k <= e <= |text|
    ensures forall m :: k <= m < e ==> Depth(text, m) > 0
    ensures || (k < e && Depth(text, e) == 0 && text[e - 1] == '}')
            || (e == |text| && Depth(text, e) > 0)
    decreases |text| - k
  {
    if k == |text| then |text|
    else if Depth(text, k + 1) == 0 then k + 1
    else CloseFrom(text, k + 1)
  }

  /** The length of the prefix FindMatchingParenthesis splits off: the
      shortest prefix whose depth comes back to 0, or the whole text when
      the depth never does. */
  function MatchEnd(text: string): (e: nat)
    ensures e <= |text| && (text != [] ==> 1 <= e)
    ensures forall m :: 1 <= m < e ==> Depth(text, m) > 0
    ensures || (2 <= e && Depth(text, e) == 0 && text[e - 1] == '}')
            || (e == |text| && forall m :: 1 <= m <= |text| ==> Depth(text, m) > 0)
  {
    if text == [] then 0 else CloseFrom(text, 1)
  }

  method FindMatchingParenthesis(text: string) returns (head: string, rest: string)
    ensures head + rest == text
    ensures head == text[..MatchEnd(text)]
  {
    var nesting := 1;
    var end := 0;
    var i := 1;
    while i < |text|
      invariant 1 <= i && (i <= |text| || text == [])
      invariant text != [] ==> nesting == Depth(text, i) && nesting > 0
      invariant text != [] ==> MatchEnd(text) == CloseFrom(text, i)
      invariant end == i - 1
    {
      if text[i] == '{' {
        nesting := nesting + 1;
      } else if text[i] == '}' {
        nesting := nesting - 1;
      }
      end := i;
      if nesting == 0 {
        break;
      }
      i := i + 1;
    }
    end := end + 1;
    // a slice bound past the end is clamped, as in Python (empty text only)
    if |text| < end {
      end := |text|;
    }
    head, rest := text[..end], text[end..];
  }

  /** The net change of depth over s: opening braces minus closing ones. */
  function Net(s: string): int {
    if s == [] then 0 else Net(s[..|s| - 1]) + Delta(s[|s| - 1])
  }

  /** Every prefix of s closes no more braces than it opens. */
  predicate NeverBelow(s: string) {
    forall k :: 0 <= k <= |s| ==> Net(s[..k]) >= 0
  }

  /** Balanced braces: never more closed than opened, and as many of each. */
  predicate Balanced(s: string) {
    NeverBelow(s) && Net(s) == 0
  }

  lemma {:induction false} DepthIsNet(text: string, k: nat)
    requires 1 <= k <= |text|
    ensures Depth(text, k) == 1 + Net(text[1..k])
    decreases k
  {
    if k > 1 {
      DepthIsNet(text, k - 1);
      assert text[1..k][..k - 2] == text[1..k - 1];
    }
  }

  /** An opening character, a balanced body, a closing brace and anything
      after it: the match ends right after that brace. The first character
      itself is never inspected. */
  lemma MatchEndOfBalanced(c: char, body: string, rest: string)
    requires Balanced(body)
    ensures MatchEnd([c] + (body + ("}" + rest))) == |body| + 2
  {
    var text := [c] + (body + ("}" + rest));
    var n := |body| + 2;
    forall m | 1 <= m < n ensures Depth(text, m) > 0 {
      DepthIsNet(text, m);
      assert text[1..m] == body[..m - 1];
    }
    DepthIsNet(text, n);
    assert text[1..n] == body + "}";
    assert (body + "}")[..|body|] == body;
  }

  /** When the depth never returns to zero the match swallows the whole
      text. */
  lemma MatchEndNeverClosed(c: char, body: string)
    requires NeverBelow(body)
    ensures MatchEnd([c] + body) == |body| + 1
  {
    var text := [c] + body;
    forall m | 1 <= m <= |text| ensures Depth(text, m) > 0 {
      DepthIsNet(text, m);
      assert text[1..m] == body[..m - 1];
    }
  }

  // ---------------------------------------------------------------------
  // Searching, splitting and joining

  predicate OccursAt(s: string, pat: string, i: nat) {
    i + |pat| <= |s| && s[i..i + |pat|] == pat
  }

  /** The first occurrence of pat in s at or after index k. */
  function IndexFrom(s: string, pat: string, k: nat): (r: Option<nat>)
    requires pat != [] && k <= |s|
    ensures r.Some? ==> k <= r.value && OccursAt(s, pat, r.value)
    ensures r.Some? ==> forall j :: k <= j < r.value ==> !OccursAt(s, pat, j)
    ensures r.None? ==> forall j :: k <= j ==> !OccursAt(s, pat, j)
    decreases |s| - k
  {
    if |s| < k + |pat| then None
    else if OccursAt(s, pat, k) then Some(k)
    else IndexFrom(s, pat, k + 1)
  }

  /** The first occurrence of pat in s: str.find, with None for -1. */
  function IndexOf(s: string, pat: string): (r: Option<nat>)
    requires pat != []
  {
    IndexFrom(s, pat, 0)
  }

  /** s.split(sep) for a non-empty separator. */
  function Split(s: string, sep: string): (parts: seq<string>)
    requires sep != []
    ensures |parts| >= 1
    ensures forall i :: 0 <= i < |parts| ==> IndexOf(parts[i], sep).None?
    decreases |s|
  {
    match IndexOf(s, sep)
    case None => [s]
    case Some(i) =>
      NoEarlierOccurrence(s, sep, i);
      [s[..i]] + Split(s[i + |sep|..], sep)
  }

  lemma NoEarlierOccurrence(s: string, sep: string, i: nat)
    requires sep != [] && i <= |s|
    requires forall j :: 0 <= j < i ==> !OccursAt(s, sep, j)
    ensures IndexOf(s[..i], sep).None?
  {
    forall j: nat | j + |sep| <= i ensures !OccursAt(s[..i], sep, j) {
      assert j < i && !OccursAt(s, sep, j);
      assert s[..i][j..j + |sep|] == s[j..j + |sep|];
    }
  }

  lemma JoinCons(w: string, ws: seq<string>, sep: string)
    requires ws != []
    ensures Join([w] + ws, sep) == w + sep + Join(ws, sep)
  {
    assert ([w] + ws)[1..] == ws;
  }

  /** Joining the parts of a split with the separator gives the text back. */
  lemma {:induction false} SplitJoin(s: string, sep: string)
    requires sep != []
    ensures Join(Split(s, sep), sep) == s
    decreases |s|
  {
    match IndexOf(s, sep)
    case None =>
    case Some(i) =>
      var tail := s[i + |sep|..];
      SplitJoin(tail, sep);
      SplitCons(s, sep, i);
      JoinCons(s[..i], Split(tail, sep), sep);
      assert s == s[..i] + s[i..i + |sep|] + tail;
  }

  lemma SplitCons(s: string, sep: string, i: nat)
    requires sep != [] && IndexOf(s, sep) == Some(i)
    ensures Split(s, sep) == [s[..i]] + Split(s[i + |sep|..], sep)
  {
  }

  lemma SliceOfSlice(s: string, k: nat, l: nat, j: nat, n: nat)
    requires k <= l <= |s| && j + n <= l - k
    ensures s[k..l][j..j + n] == s[k + j..k + j + n]
  {
    var a, b := s[k..l][j..j + n], s[k + j..k + j + n];
    forall t | 0 <= t < n ensures a[t] == b[t] {
    }
  }

  /** A text without the pattern has no occurrence in any slice of it. */
  lemma NoOccurrenceInSlice(s: string, pat: string, k: nat, l: nat)
    requires pat != [] && k <= l <= |s|
    requires IndexOf(s, pat).None?
    ensures IndexOf(s[k..l], pat).None?
  {
    var u := s[k..l];
    forall j: nat | j + |pat| <= |u| ensures !OccursAt(u, pat, j) {
      assert !OccursAt(s, pat, k + j);
      SliceOfSlice(s, k, l, j, |pat|);
    }
  }

  /** A one-character pattern occurs exactly where the character is. */
  lemma IndexOfChar(s: string, c: char)
    ensures IndexOf(s, [c]).None? <==> c !in s
  {
    if c in s {
      var j :| 0 <= j < |s| && s[j] == c;
      assert OccursAt(s, [c], j);
    } else {
      forall j: nat | j + 1 <= |s| ensures !OccursAt(s, [c], j) {
        assert s[j..j + 1] == [s[j]];
      }
    }
  }

  /** An occurrence with none before it is the one IndexOf finds. */
  lemma FirstOccurrence(s: string, pat: string, i: nat)
    requires pat != [] && OccursAt(s, pat, i)
    requires forall j :: 0 <= j < i ==> !OccursAt(s, pat, j)
    ensures IndexOf(s, pat) == Some(i)
  {
  }

  /** The search stops at the first occurrence: text after it does not
      matter. */
  lemma IndexOfExtended(p: string, sep: string, rest: string)
    requires sep != [] && IndexOf(p + sep, sep) == Some(|p|)
    ensures IndexOf(p + sep + rest, sep) == Some(|p|)
  {
    var s := p + sep + rest;
    assert s[|p|..|p| + |sep|] == sep;
    forall j | 0 <= j < |p| ensures !OccursAt(s, sep, j) {
      assert !OccursAt(p + sep, sep, j);
      assert s[j..j + |sep|] == (p + sep)[j..j + |sep|];
    }
    FirstOccurrence(s, sep, |p|);
  }

  /** Splitting a join gives the parts back, provided each part meets the
      separator first where the join appends it. */
  lemma {:induction false} SplitOfJoin(parts: seq<string>, sep: string)
    requires sep != [] && parts != []
    requires forall i :: 0 <= i < |parts| ==> IndexOf(parts[i] + sep, sep) == Some(|parts[i]|)
    ensures Split(Join(parts, sep), sep) == parts
    decreases |parts|
  {
    var p := parts[0];
    if |parts| == 1 {
      assert IndexOf(p + sep, sep).Some?;
      forall j: nat | j + |sep| <= |p| ensures !OccursAt(p, sep, j) {
        assert !OccursAt(p + sep, sep, j);
        assert (p + sep)[j..j + |sep|] == p[j..j + |sep|];
      }
    } else {
      var rest := Join(parts[1..], sep);
      IndexOfExtended(p, sep, rest);
      SplitOfJoin(parts[1..], sep);
      var s := p + sep + rest;
      assert s[..|p|] == p && s[|p| + |sep|..] == rest;
    }
  }

  /** strip() cuts a slice out of the text: every character it keeps is a
      character of the text. */
  lemma StripIsSlice(s: string)
    ensures var k := |TakeWhile(s, Whitespace)|;
      k + |Strip(s)| <= |s| && Strip(s) == s[k..k + |Strip(s)|]
  {
  }

  // ---------------------------------------------------------------------
  // RemoveBraces

  predicate IsOpener(c: char) { c == '{' || c == '"' }
  predicate IsCloser(c: char) { c == '}' || c == '"' }

  /** RemoveBraces indexes the first and the last character of the stripped
      text, the latter after a possible opener has been cut: it fails on
      blank text and on a lone opener. */
  predicate CanRemoveBraces(text: string) {
    var t := Strip(text);
    t != [] && !(|t| == 1 && IsOpener(t[0]))
  }

  /** The stripped text without one leading '{' or '"' and without one
      trailing '}' or '"'. */
  function RemoveBraces(text: string): (r: string)
    requires CanRemoveBraces(text)
    ensures var t := Strip(text);
      var i := if IsOpener(t[0]) then 1 else 0;
      var j := if IsCloser(t[|t| - 1]) then |t| - 1 else |t|;
      i <= j && r == t[i..j]
  {
    var t := Strip(text);
    var u := if IsOpener(t[0]) then t[1..] else t;
    if IsCloser(u[|u| - 1]) then u[..|u| - 1] else u
  }

  /** RemoveBraces undoes the wrapping in braces of the normalizers. */
  lemma RemoveBracesOfBraced(x: string)
    ensures CanRemoveBraces("{" + x + "}")
    ensures RemoveBraces("{" + x + "}") == x
  {
    var b := "{" + x + "}";
    StripFixesStripped(b);
  }
}
