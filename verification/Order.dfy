/** Byte-lexicographic order on keys, sorting, and the one sorted listing of a set of keys. */
module Order {
  import opened Bytes
  import opened Keys

  predicate LexLe(a: Str, b: Str) {
    a == [] || (b != [] && (a[0] < b[0] || (a[0] == b[0] && LexLe(a[1..], b[1..]))))
  }

  predicate LexLt(a: Str, b: Str) {
    LexLe(a, b) && a != b
  }

  lemma {:induction false} LexTotal(a: Str, b: Str)
    ensures LexLe(a, b) || LexLe(b, a)
  {
    if a != [] && b != [] && a[0] == b[0] {
      LexTotal(a[1..], b[1..]);
    }
  }

  lemma {:induction false} LexAntisymmetric(a: Str, b: Str)
    requires LexLe(a, b) && LexLe(b, a)
    ensures a == b
  {
    if a != [] && b != [] {
      LexAntisymmetric(a[1..], b[1..]);
      assert a == [a[0]] + a[1..] && b == [b[0]] + b[1..];
    }
  }

  lemma {:induction false} LexTransitive(a: Str, b: Str, c: Str)
    requires LexLe(a, b) && LexLe(b, c)
    ensures LexLe(a, c)
  {
    if a != [] && b != [] && c != [] && a[0] == b[0] == c[0] {
      LexTransitive(a[1..], b[1..], c[1..]);
    }
  }

  /** The first byte that differs is smaller in `a`. */
  ghost predicate Smaller(a: Str, b: Str) {
    exists i :: 0 <= i < |a| && i < |b| && a[..i] == b[..i] && a[i] < b[i]
  }

  lemma SmallerRest(a: Str, b: Str)
    requires a != [] && b != [] && a[0] == b[0]
    ensures Smaller(a, b) <==> Smaller(a[1..], b[1..])
  {
    var a', b' := a[1..], b[1..];
    if i :| 0 <= i < |a'| && i < |b'| && a'[..i] == b'[..i] && a'[i] < b'[i] {
      assert a[..i + 1] == [a[0]] + a'[..i] && b[..i + 1] == [b[0]] + b'[..i];
      assert a[i + 1] < b[i + 1];
    }
    if i :| 0 <= i < |a| && i < |b| && a[..i] == b[..i] && a[i] < b[i] {
      assert a'[..i - 1] == a[..i][1..] && b'[..i - 1] == b[..i][1..];
      assert a'[i - 1] < b'[i - 1];
    }
  }

  lemma SmallerFirst(a: Str, b: Str)
    requires a != [] && b != [] && a[0] != b[0]
    ensures Smaller(a, b) <==> a[0] < b[0]
  {
    forall i | 0 < i <= |a| && i <= |b|
      ensures a[..i] != b[..i]
    {
      assert a[..i][0] != b[..i][0];
    }
    assert a[..0] == b[..0];
  }

  lemma {:induction false} LexLtSmaller(a: Str, b: Str)
    ensures LexLt(a, b) <==> a < b || Smaller(a, b)
  {
    if a != [] && b != [] {
      assert a == [a[0]] + a[1..] && b == [b[0]] + b[1..];
      if a[0] == b[0] {
        LexLtSmaller(a[1..], b[1..]);
        SmallerRest(a, b);
      } else {
        SmallerFirst(a, b);
      }
    }
  }

  /** What the order is, byte by byte: a proper prefix comes first, otherwise the first byte that differs decides. */
  lemma LexLtMeans(a: Str, b: Str)
    ensures LexLt(a, b) <==> a < b || exists i :: 0 <= i < |a| && i < |b| && a[..i] == b[..i] && a[i] < b[i]
  {
    hide LexLt;
    LexLtSmaller(a, b);
  }

  ghost predicate StrictlySorted(s: seq<Str>) {
    forall i, j :: 0 <= i < j < |s| ==> LexLt(s[i], s[j])
  }

  /** Each key comes before every later one, byte for byte. */
  ghost predicate Ascending(s: seq<Str>) {
    forall i, j :: 0 <= i < j < |s| ==>
      s[i] < s[j] || exists n :: 0 <= n < |s[i]| && n < |s[j]| && s[i][..n] == s[j][..n] && s[i][n] < s[j][n]
  }

  lemma SortedAscends(s: seq<Str>)
    requires StrictlySorted(s)
    ensures Ascending(s)
  {
    hide LexLt;
    forall i, j | 0 <= i < j < |s|
      ensures s[i] < s[j] || exists n :: 0 <= n < |s[i]| && n < |s[j]| && s[i][..n] == s[j][..n] && s[i][n] < s[j][n]
    {
      LexLtMeans(s[i], s[j]);
    }
  }

  ghost predicate NoDuplicates(s: seq<Str>) {
    forall i, j :: 0 <= i < j < |s| ==> s[i] != s[j]
  }

  lemma SomeElement(s: seq<Str>)
    ensures s == [] || exists k :: k in s
  {
    if s != [] {
      assert s[0] in s;
    }
  }

  /** Two strictly sorted sequences with the same elements are the same sequence. */
  lemma {:induction false} SortedUnique(a: seq<Str>, b: seq<Str>)
    requires StrictlySorted(a) && StrictlySorted(b)
    requires forall k :: k in a <==> k in b
    ensures a == b
  {
    SomeElement(b);
    if a != [] {
      assert a[0] in b && b[0] in b;
      FirstIsLeast(a, b[0]);
      FirstIsLeast(b, a[0]);
      LexAntisymmetric(a[0], b[0]);
      forall k
        ensures k in a[1..] <==> k in b[1..]
      {
        RestIsOthers(a, k);
        RestIsOthers(b, k);
      }
      SortedUnique(a[1..], b[1..]);
      assert a == [a[0]] + a[1..] && b == [b[0]] + b[1..];
    }
  }

  lemma FirstIsLeast(a: seq<Str>, k: Str)
    requires StrictlySorted(a) && k in a
    ensures LexLe(a[0], k)
  {
    var i :| 0 <= i < |a| && a[i] == k;
    if i == 0 {
      LexTotal(k, k);
    } else {
      assert LexLt(a[0], a[i]);
    }
  }

  lemma RestIsOthers(a: seq<Str>, k: Str)
    requires StrictlySorted(a) && a != []
    ensures k in a[1..] <==> k in a && k != a[0]
  {
    if k in a[1..] {
      var i :| 0 <= i < |a[1..]| && a[1..][i] == k;
      assert LexLt(a[0], a[i + 1]);
    }
    if k in a && k != a[0] {
      var i :| 0 <= i < |a| && a[i] == k;
      assert a[1..][i - 1] == k;
    }
  }

  /** Puts `x` into its place. */
  function Insert(x: Str, s: seq<Str>): (r: seq<Str>)
    ensures forall k :: k in r <==> k == x || k in s
  {
    if s == [] then [x]
    else if LexLe(x, s[0]) then [x] + s
    else
      assert s == [s[0]] + s[1..];
      [s[0]] + Insert(x, s[1..])
  }

  lemma {:induction false} InsertKeepsSorted(x: Str, s: seq<Str>)
    requires StrictlySorted(s) && x !in s
    ensures StrictlySorted(Insert(x, s))
  {
    if s != [] {
      var r := Insert(x, s);
      if LexLe(x, s[0]) {
        forall j | 0 < j < |r|
          ensures LexLt(r[0], r[j])
        {
          FirstIsLeast(s, s[j - 1]);
          LexTransitive(x, s[0], s[j - 1]);
        }
      } else {
        LexTotal(x, s[0]);
        InsertKeepsSorted(x, s[1..]);
        forall j | 0 < j < |r|
          ensures LexLt(r[0], r[j])
        {
          assert r[j] in Insert(x, s[1..]);
          if r[j] != x {
            RestIsOthers(s, r[j]);
            FirstIsLeast(s, r[j]);
          }
        }
      }
    }
  }

  /** Sorts distinct keys: the result is strictly increasing and has the same elements. */
  method Sort(keys: seq<Str>) returns (r: seq<Str>)
    requires NoDuplicates(keys)
    ensures StrictlySorted(r)
    ensures Ascending(r)
    ensures forall k :: k in r <==> k in keys
  {
    r := [];
    for i := 0 to |keys|
      invariant StrictlySorted(r)
      invariant forall k :: k in r <==> k in keys[..i]
    {
      InsertKeepsSorted(keys[i], r);
      r := Insert(keys[i], r);
    }
    SortedAscends(r);
  }

  /** The sorted listing of a set of keys. */
  ghost function Listing(keys: set<Str>): (r: seq<Str>)
    ensures StrictlySorted(r)
    ensures forall k :: k in r <==> k in keys
  {
    if keys == {} then []
    else
      var k :| k in keys;
      InsertKeepsSorted(k, Listing(keys - {k}));
      Insert(k, Listing(keys - {k}))
  }

  /** Any strictly sorted sequence with these elements is the listing: no enumeration order shows through. */
  lemma ListingIsUnique(s: seq<Str>, keys: set<Str>)
    requires StrictlySorted(s) && forall k :: k in s <==> k in keys
    ensures s == Listing(keys)
  {
    SortedUnique(s, Listing(keys));
  }
}
