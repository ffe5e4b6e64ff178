/** The order entries are printed in. SortEntries sorts the list three
    times with a stable sort: by citation name, by entry type and by sort
    priority. The last sort decides first; ties fall back on the earlier
    sorts, and entries equal in all three keep the order of the file. */
module Sorting {
  import opened Entries
  import opened Order

  /** The key of one of the three sorts. */
  datatype SortField = ByName | ByType | ByPriority

  /** a's key comes before b's: names and types as Python compares strings,
      priorities as integers. */
  predicate Less(f: SortField, a: Record, b: Record) {
    match f
    case ByName => StrLess(a.entryName, b.entryName)
    case ByType => StrLess(a.entryType, b.entryType)
    case ByPriority => SortKey(a.entryType) < SortKey(b.entryType)
  }

  /** a and b have the same key. */
  predicate Same(f: SortField, a: Record, b: Record) {
    match f
    case ByName => a.entryName == b.entryName
    case ByType => a.entryType == b.entryType
    case ByPriority => SortKey(a.entryType) == SortKey(b.entryType)
  }

  /** Each key is a strict total order: of two records exactly one has the
      smaller key, or they have the same key. */
  lemma LessTrichotomy(f: SortField, a: Record, b: Record)
    ensures Less(f, a, b) || Less(f, b, a) || Same(f, a, b)
    ensures Less(f, a, b) ==> !Less(f, b, a) && !Same(f, a, b)
  {
    match f
    case ByName =>
      StrLessTotal(a.entryName, b.entryName);
      StrLessAsymmetric(a.entryName, b.entryName);
      StrLessIrreflexive(a.entryName);
    case ByType =>
      StrLessTotal(a.entryType, b.entryType);
      StrLessAsymmetric(a.entryType, b.entryType);
      StrLessIrreflexive(a.entryType);
    case ByPriority =>
  }

  /** "Not after" is transitive. */
  lemma NotLessTransitive(f: SortField, a: Record, b: Record, c: Record)
    requires !Less(f, b, a) && !Less(f, c, b)
    ensures !Less(f, c, a)
  {
    LessTrichotomy(f, a, b);
    LessTrichotomy(f, b, c);
    LessTrichotomy(f, c, a);
    match f
    case ByName =>
      if StrLess(a.entryName, b.entryName) && StrLess(b.entryName, c.entryName) {
        StrLessTransitive(a.entryName, b.entryName, c.entryName);
      }
    case ByType =>
      if StrLess(a.entryType, b.entryType) && StrLess(b.entryType, c.entryType) {
        StrLessTransitive(a.entryType, b.entryType, c.entryType);
      }
    case ByPriority =>
  }

  // ---------------------------------------------------------------------
  // Lexicographic order over several keys

  /** a comes before b when compared key by key, the first key first. */
  predicate Lex(fs: seq<SortField>, a: Record, b: Record)
    decreases |fs|
  {
    fs != [] && (Less(fs[0], a, b) || (Same(fs[0], a, b) && Lex(fs[1..], a, b)))
  }

  lemma LexCons(f: SortField, fs: seq<SortField>, a: Record, b: Record)
    ensures Lex([f] + fs, a, b) <==> Less(f, a, b) || (Same(f, a, b) && Lex(fs, a, b))
  {
    assert ([f] + fs)[1..] == fs;
  }

  /** No record comes before one that precedes it. */
  predicate Sorted(s: seq<Record>, fs: seq<SortField>) {
    forall i, j :: 0 <= i < j < |s| ==> !Lex(fs, s[j], s[i])
  }

  // ---------------------------------------------------------------------
  // One stable sort

  /** Where a stable insertion puts x into s: after every record whose key
      is not larger than x's, looking from the end. */
  function InsertPos(s: seq<Record>, x: Record, f: SortField): (k: nat)
    ensures k <= |s|
    ensures forall m :: k <= m < |s| ==> Less(f, x, s[m])
    ensures k > 0 ==> !Less(f, x, s[k - 1])
  {
    if s == [] || !Less(f, x, s[|s| - 1]) then |s| else InsertPos(s[..|s| - 1], x, f)
  }

  /** Exactly one position has the two properties of InsertPos. */
  lemma InsertPosUnique(s: seq<Record>, x: Record, f: SortField, j: nat)
    requires j <= |s| && (j > 0 ==> !Less(f, x, s[j - 1]))
    requires forall m :: j <= m < |s| ==> Less(f, x, s[m])
    ensures InsertPos(s, x, f) == j
  {
  }

  /** x inserted into s from the end: it moves left past every record
      whose key is larger than its own. */
  function Insert(s: seq<Record>, x: Record, f: SortField): (r: seq<Record>)
    ensures |r| == |s| + 1
  {
    if s == [] || !Less(f, x, s[|s| - 1]) then s + [x]
    else Insert(s[..|s| - 1], x, f) + [s[|s| - 1]]
  }

  /** The insertion cuts s at InsertPos and puts x in the cut. */
  lemma {:induction false} InsertIsCut(s: seq<Record>, x: Record, f: SortField)
    ensures var k := InsertPos(s, x, f);
      Insert(s, x, f) == s[..k] + [x] + s[k..]
    decreases |s|
  {
    if s != [] && Less(f, x, s[|s| - 1]) {
      var init := s[..|s| - 1];
      InsertIsCut(init, x, f);
      var k := InsertPos(s, x, f);
      assert init[..k] == s[..k] && init[k..] + [s[|s| - 1]] == s[k..];
    }
  }

  /** A list that is s with x put at a position with the two properties of
      InsertPos is the insertion of x into s. */
  lemma InsertedAt(r: seq<Record>, s: seq<Record>, x: Record, f: SortField, j: nat)
    requires j <= |s| && |r| == |s| + 1 && r[j] == x
    requires forall m :: 0 <= m < j ==> r[m] == s[m]
    requires forall m :: j < m < |r| ==> r[m] == s[m - 1]
    requires j > 0 ==> !Less(f, x, s[j - 1])
    requires forall m :: j <= m < |s| ==> Less(f, x, s[m])
    ensures r == Insert(s, x, f)
  {
    InsertPosUnique(s, x, f, j);
    InsertIsCut(s, x, f);
    assert r == s[..j] + [x] + s[j..];
  }

  /** What list.sort with one key leaves: each record in turn inserted
      after the records before it whose key is not larger. */
  function SortBy(s: seq<Record>, f: SortField): (r: seq<Record>)
    ensures |r| == |s|
  {
    if s == [] then [] else Insert(SortBy(s[..|s| - 1], f), s[|s| - 1], f)
  }

  lemma SortByPrefix(s: seq<Record>, i: nat, f: SortField)
    requires i < |s|
    ensures SortBy(s[..i + 1], f) == Insert(SortBy(s[..i], f), s[i], f)
  {
    assert s[..i + 1][..i] == s[..i];
  }

  /** One step of the sort: a[i] moves left past the records before it
      with a larger key, which move one place right. */
  method InsertAt(a: array<Record>, i: nat, f: SortField)
    requires i < a.Length
    modifies a
    ensures a[..i + 1] == Insert(old(a[..i]), old(a[i]), f)
    ensures forall m :: i < m < a.Length ==> a[m] == old(a[m])
  {
    var x := a[i];
    ghost var p := a[..i];
    var j := i;
    while j > 0 && Less(f, x, a[j - 1])
      invariant 0 <= j <= i
      invariant forall m :: 0 <= m < j ==> a[m] == p[m]
      invariant forall m :: j < m <= i ==> a[m] == p[m - 1]
      invariant forall m :: i < m < a.Length ==> a[m] == old(a[m])
      invariant forall m :: j <= m < i ==> Less(f, x, p[m])
    {
      a[j] := a[j - 1];
      j := j - 1;
    }
    a[j] := x;
    ghost var r := a[..i + 1];
    assert forall m :: 0 <= m <= i ==> r[m] == a[m];
    InsertedAt(r, p, x, f, j);
  }

  /** The sort by one key: the array ends up as SortBy of what it held. */
  method StableSortBy(a: array<Record>, f: SortField)
    modifies a
    ensures a[..] == SortBy(old(a[..]), f)
  {
    ghost var s := a[..];
    for i := 0 to a.Length
      invariant a[..i] == SortBy(s[..i], f)
      invariant forall m :: i <= m < a.Length ==> a[m] == s[m]
    {
      InsertAt(a, i, f);
      SortByPrefix(s, i, f);
    }
    assert s[..a.Length] == s;
  }

  lemma InsertPermutes(s: seq<Record>, x: Record, f: SortField)
    ensures multiset(Insert(s, x, f)) == multiset(s) + multiset{x}
  {
    var k := InsertPos(s, x, f);
    InsertIsCut(s, x, f);
    assert s == s[..k] + s[k..];
  }

  /** A sort by one key only reorders. */
  lemma {:induction false} SortByPermutes(s: seq<Record>, f: SortField)
    ensures multiset(SortBy(s, f)) == multiset(s)
    decreases |s|
  {
    if s != [] {
      var init := s[..|s| - 1];
      SortByPermutes(init, f);
      InsertPermutes(SortBy(init, f), s[|s| - 1], f);
      assert s == init + [s[|s| - 1]];
    }
  }

  /** x does not come before the records it is put after. */
  lemma InsertedAfter(s: seq<Record>, x: Record, f: SortField, fs: seq<SortField>, i: nat)
    requires Sorted(s, [f] + fs)
    requires forall y :: y in s ==> !Lex(fs, x, y)
    requires i < InsertPos(s, x, f)
    ensures !Lex([f] + fs, x, s[i])
  {
    var k := InsertPos(s, x, f);
    LexCons(f, fs, x, s[i]);
    if i < k - 1 {
      LexCons(f, fs, s[k - 1], s[i]);
    } else {
      LessTrichotomy(f, s[i], s[i]);
    }
    NotLessTransitive(f, s[i], s[k - 1], x);
  }

  /** The records x is put before have larger keys. */
  lemma InsertedBefore(s: seq<Record>, x: Record, f: SortField, fs: seq<SortField>, m: nat)
    requires InsertPos(s, x, f) <= m < |s|
    ensures !Lex([f] + fs, s[m], x)
  {
    LexCons(f, fs, s[m], x);
    LessTrichotomy(f, x, s[m]);
  }

  /** Inserting a record that no record of a sorted list follows under the
      later keys keeps the list sorted under f followed by those keys. */
  lemma InsertSorted(s: seq<Record>, x: Record, f: SortField, fs: seq<SortField>)
    requires Sorted(s, [f] + fs)
    requires forall y :: y in s ==> !Lex(fs, x, y)
    ensures Sorted(Insert(s, x, f), [f] + fs)
  {
    var k := InsertPos(s, x, f);
    var r := Insert(s, x, f);
    InsertIsCut(s, x, f);
    forall i, j | 0 <= i < j < |r| ensures !Lex([f] + fs, r[j], r[i]) {
      CutAt(s, x, k, i);
      CutAt(s, x, k, j);
      if j == k {
        InsertedAfter(s, x, f, fs, i);
      } else if i == k {
        InsertedBefore(s, x, f, fs, j - 1);
      }
    }
  }

  /** The records of s cut at k with x put in the cut, one by one. */
  lemma CutAt(s: seq<Record>, x: Record, k: nat, m: nat)
    requires k <= |s| && m <= |s|
    ensures (s[..k] + [x] + s[k..])[m] == if m < k then s[m] else if m == k then x else s[m - 1]
  {
  }

  /** A stable sort by f of a list sorted by some keys sorts it by f
      followed by those keys: ties under f keep the earlier order. */
  lemma {:induction false} SortByOrders(s: seq<Record>, f: SortField, fs: seq<SortField>)
    requires Sorted(s, fs)
    ensures Sorted(SortBy(s, f), [f] + fs)
    decreases |s|
  {
    if s != [] {
      var init := s[..|s| - 1];
      var x := s[|s| - 1];
      SortByOrders(init, f, fs);
      SortByPermutes(init, f);
      forall y | y in SortBy(init, f) ensures !Lex(fs, x, y) {
        assert y in multiset(SortBy(init, f));
        var i :| 0 <= i < |init| && init[i] == y;
        assert s[i] == y;
      }
      InsertSorted(SortBy(init, f), x, f, fs);
    }
  }

  // ---------------------------------------------------------------------
  // Stability

  /** Records that agree on every key: the same type and the same name. */
  predicate SameKeys(a: Record, b: Record) {
    a.entryType == b.entryType && a.entryName == b.entryName
  }

  /** The records of s with y's type and name, in their order in s. */
  function Class(s: seq<Record>, y: Record): seq<Record> {
    if s == [] then []
    else Class(s[..|s| - 1], y) + (if SameKeys(s[|s| - 1], y) then [s[|s| - 1]] else [])
  }

  lemma {:induction false} ClassAppend(a: seq<Record>, b: seq<Record>, y: Record)
    ensures Class(a + b, y) == Class(a, y) + Class(b, y)
    decreases |b|
  {
    if b == [] {
      assert a + b == a;
    } else {
      ClassAppend(a, b[..|b| - 1], y);
      assert (a + b)[..|a + b| - 1] == a + b[..|b| - 1];
      assert (a + b)[|a + b| - 1] == b[|b| - 1];
    }
  }

  /** Records with the same type and name have the same key. */
  lemma SameKeysSame(f: SortField, a: Record, b: Record, y: Record)
    requires SameKeys(a, y) && SameKeys(b, y)
    ensures Same(f, a, b)
  {
  }

  /** x alone: itself when it has y's type and name, nothing otherwise. */
  lemma ClassOne(x: Record, y: Record)
    ensures Class([x], y) == if SameKeys(x, y) then [x] else []
  {
    assert [x][..0] == [];
  }

  /** Two records with different keys under f are not both of y's class,
      so their order does not matter to it. */
  lemma ClassSwap(x: Record, z: Record, f: SortField, y: Record)
    requires Less(f, x, z)
    ensures Class([x], y) + Class([z], y) == Class([z], y) + Class([x], y)
  {
    ClassOne(x, y);
    ClassOne(z, y);
    if SameKeys(x, y) && SameKeys(z, y) {
      SameKeysSame(f, x, z, y);
      LessTrichotomy(f, x, z);
    }
  }

  /** An insertion puts x after every record of s with its keys. */
  lemma {:induction false} InsertStable(s: seq<Record>, x: Record, f: SortField, y: Record)
    ensures Class(Insert(s, x, f), y) == Class(s + [x], y)
    decreases |s|
  {
    if s != [] && Less(f, x, s[|s| - 1]) {
      var init, z := s[..|s| - 1], s[|s| - 1];
      var ins := Insert(init, x, f);
      var ci, cx, cz := Class(init, y), Class([x], y), Class([z], y);
      assert Insert(s, x, f) == ins + [z];
      assert s == init + [z];
      assert Class(ins, y) == ci + cx by {
        InsertStable(init, x, f, y);
        ClassAppend(init, [x], y);
      }
      assert Class(ins + [z], y) == Class(ins, y) + cz by {
        ClassAppend(ins, [z], y);
      }
      assert Class(s + [x], y) == (ci + cz) + cx by {
        ClassAppend(init, [z], y);
        ClassAppend(s, [x], y);
      }
      ClassSwap(x, z, f, y);
      Regroup(ci, cx, cz);
    } else {
      assert Insert(s, x, f) == s + [x];
    }
  }

  /** With b and c commuting, a + b + c and a + c + b are equal. */
  lemma Regroup<T>(a: seq<T>, b: seq<T>, c: seq<T>)
    requires b + c == c + b
    ensures (a + b) + c == (a + c) + b
  {
    assert (a + b) + c == a + (b + c);
    assert (a + c) + b == a + (c + b);
  }

  /** A sort by one key leaves records with the same type and name in the
      order they had. */
  lemma {:induction false} SortByStable(s: seq<Record>, f: SortField, y: Record)
    ensures Class(SortBy(s, f), y) == Class(s, y)
    decreases |s|
  {
    if s != [] {
      var init := s[..|s| - 1];
      SortByStable(init, f, y);
      InsertStable(SortBy(init, f), s[|s| - 1], f, y);
      ClassAppend(SortBy(init, f), [s[|s| - 1]], y);
      ClassAppend(init, [s[|s| - 1]], y);
      assert s == init + [s[|s| - 1]];
    }
  }

  // ---------------------------------------------------------------------
  // SortEntries

  /** The three sorts of SortEntries, the name first and the priority
      last. */
  function SortedEntries(s: seq<Record>): (r: seq<Record>)
    ensures |r| == |s|
  {
    SortBy(SortBy(SortBy(s, ByName), ByType), ByPriority)
  }

  method SortEntries(a: array<Record>)
    modifies a
    ensures a[..] == SortedEntries(old(a[..]))
  {
    StableSortBy(a, ByName);
    StableSortBy(a, ByType);
    StableSortBy(a, ByPriority);
  }

  /** The order is lexicographic in the priority, the type and the name,
      and only the order changes. */
  lemma SortedEntriesOrder(s: seq<Record>)
    ensures Sorted(SortedEntries(s), [ByPriority, ByType, ByName])
    ensures multiset(SortedEntries(s)) == multiset(s)
  {
    var s1 := SortBy(s, ByName);
    var s2 := SortBy(s1, ByType);
    SortByOrders(s, ByName, []);
    assert [ByName] + [] == [ByName];
    SortByOrders(s1, ByType, [ByName]);
    assert [ByType] + [ByName] == [ByType, ByName];
    SortByOrders(s2, ByPriority, [ByType, ByName]);
    assert [ByPriority] + [ByType, ByName] == [ByPriority, ByType, ByName];
    SortByPermutes(s, ByName);
    SortByPermutes(s1, ByType);
    SortByPermutes(s2, ByPriority);
  }

  /** Entries with the same type and name come out in the order of the
      file. */
  lemma SortedEntriesStable(s: seq<Record>, y: Record)
    ensures Class(SortedEntries(s), y) == Class(s, y)
  {
    var s1 := SortBy(s, ByName);
    var s2 := SortBy(s1, ByType);
    SortByStable(s, ByName, y);
    SortByStable(s1, ByType, y);
    SortByStable(s2, ByPriority, y);
  }

  /** Macro definitions come before every other entry, books and
      proceedings after every other entry. */
  lemma StringsFirstBooksLast(s: seq<Record>, i: nat, j: nat)
    requires i < j < |s|
    ensures var r := SortedEntries(s);
      && (r[j].entryType == "String" ==> r[i].entryType == "String")
      && (r[i].entryType == "Book" || r[i].entryType == "Proceedings" ==>
            r[j].entryType == "Book" || r[j].entryType == "Proceedings")
  {
    var r := SortedEntries(s);
    SortedEntriesOrder(s);
    assert !Lex([ByPriority, ByType, ByName], r[j], r[i]);
    assert SortKey(r[i].entryType) <= SortKey(r[j].entryType);
  }
}
