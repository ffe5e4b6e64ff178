/** The order Python puts strings in (code point by code point, a proper
    prefix first) and `sorted()` over a set of distinct strings, as the
    serializer uses it on field names. */
module Order {

  /** a < b on Python strings. */
  predicate StrLess(a: string, b: string)
    decreases |a|
  {
    if a == [] then b != []
    else if b == [] then false
    else if a[0] != b[0] then a[0] < b[0]
    else StrLess(a[1..], b[1..])
  }

  lemma {:induction false} StrLessIrreflexive(a: string)
    ensures !StrLess(a, a)
    decreases |a|
  {
    if a != [] {
      StrLessIrreflexive(a[1..]);
    }
  }

  lemma {:induction false} StrLessTransitive(a: string, b: string, c: string)
    requires StrLess(a, b) && StrLess(b, c)
    ensures StrLess(a, c)
    decreases |a|
  {
    if a != [] && b != [] && c != [] && a[0] == b[0] && b[0] == c[0] {
      StrLessTransitive(a[1..], b[1..], c[1..]);
    }
  }

  /** Any two strings are equal or one of them is the smaller. */
  lemma {:induction false} StrLessTotal(a: string, b: string)
    ensures a == b || StrLess(a, b) || StrLess(b, a)
    decreases |a|
  {
    if a != [] && b != [] && a[0] == b[0] {
      StrLessTotal(a[1..], b[1..]);
      if a[1..] == b[1..] {
        assert a == [a[0]] + a[1..] && b == [b[0]] + b[1..];
      }
    }
  }

  lemma StrLessAsymmetric(a: string, b: string)
    ensures !(StrLess(a, b) && StrLess(b, a))
  {
    if StrLess(a, b) && StrLess(b, a) {
      StrLessTransitive(a, b, a);
      StrLessIrreflexive(a);
    }
  }

  /** The three facts above, stated for all strings at once. */
  lemma StrLessIsStrictTotalOrder()
    ensures forall a: string :: !StrLess(a, a)
    ensures forall a: string, b: string, c: string :: StrLess(a, b) && StrLess(b, c) ==> StrLess(a, c)
    ensures forall a: string, b: string :: a == b || StrLess(a, b) || StrLess(b, a)
  {
    forall a: string ensures !StrLess(a, a) {
      StrLessIrreflexive(a);
    }
    forall a: string, b: string, c: string | StrLess(a, b) && StrLess(b, c) ensures StrLess(a, c) {
      StrLessTransitive(a, b, c);
    }
    forall a: string, b: string ensures a == b || StrLess(a, b) || StrLess(b, a) {
      StrLessTotal(a, b);
    }
  }

  predicate IsMinimum(m: string, ks: set<string>) {
    m in ks && forall k :: k in ks ==> !StrLess(k, m)
  }

  lemma {:induction false} MinimumExists(ks: set<string>)
    requires ks != {}
    ensures exists m :: IsMinimum(m, ks)
    decreases |ks|
  {
    var x :| x in ks;
    if ks != {x} {
      MinimumExists(ks - {x});
      var m :| IsMinimum(m, ks - {x});
      StrLessIsStrictTotalOrder();
      if StrLess(x, m) {
        assert IsMinimum(x, ks);
      } else {
        assert IsMinimum(m, ks);
      }
    } else {
      StrLessIrreflexive(x);
      assert IsMinimum(x, ks);
    }
  }

  lemma MinimumUnique(m: string, n: string, ks: set<string>)
    requires IsMinimum(m, ks) && IsMinimum(n, ks)
    ensures m == n
  {
    StrLessTotal(m, n);
  }

  predicate StrictlyAscending(r: seq<string>) {
    forall i, j :: 0 <= i < j < |r| ==> StrLess(r[i], r[j])
  }

  /** sorted(ks): the strings of the set, each once, in ascending order. */
  ghost function SortedKeys(ks: set<string>): (r: seq<string>)
    ensures |r| == |ks|
    ensures forall k :: k in r <==> k in ks
    ensures StrictlyAscending(r)
    decreases |ks|
  {
    if ks == {} then []
    else
      MinimumExists(ks);
      var m :| IsMinimum(m, ks);
      var rest := SortedKeys(ks - {m});
      StrLessIsStrictTotalOrder();
      assert forall k :: k in rest ==> StrLess(m, k);
      [m] + rest
  }

  /** Taking the smallest key first leaves sorting the others. */
  lemma SortedKeysUnfold(done: seq<string>, ks: set<string>, m: string)
    requires IsMinimum(m, ks)
    ensures done + SortedKeys(ks) == (done + [m]) + SortedKeys(ks - {m})
  {
    var r := SortedKeys(ks);
    var n := r[0];
    assert IsMinimum(n, ks) && r == [n] + SortedKeys(ks - {n});
    MinimumUnique(m, n, ks);
  }

  /** Python's sorted() applied to the keys of a dictionary. */
  method SortedList(ks: set<string>) returns (r: seq<string>)
    ensures r == SortedKeys(ks)
  {
    r := [];
    var left := ks;
    while left != {}
      invariant SortedKeys(ks) == r + SortedKeys(left)
      decreases |left|
    {
      MinimumExists(left);
      var m :| IsMinimum(m, left);
      SortedKeysUnfold(r, left, m);
      r := r + [m];
      left := left - {m};
    }
  }
}
