/** Object keys as UTF-8 byte strings: validation, and the path a key names under the store's root. */
module Keys {
  import opened Bytes

  type Str = seq<byte>

  /** A path below the root, as the names on the way down. The root itself is the empty path. */
  type Path = seq<Str>

  const NUL: byte := 0
  const LF: byte := 10
  const CR: byte := 13
  const DOT: byte := 46
  const SLASH: byte := 47
  const MAX_LEN := 1024

  /** `.blobkit-`, the prefix of every temporary file. */
  const TEMP_PREFIX: Str := [46, 98, 108, 111, 98, 107, 105, 116, 45]

  predicate StartsWith(s: Str, prefix: Str) {
    prefix <= s
  }

  predicate NoSlash(s: Str) {
    SLASH !in s
  }

  /** The `/`-separated segments of a string; there is always at least one. */
  function Split(s: Str): (r: seq<Str>)
    ensures r != []
    ensures forall i :: 0 <= i < |r| ==> NoSlash(r[i])
  {
    if s == [] then [[]]
    else
      var rest := Split(s[1..]);
      if s[0] == SLASH then [[]] + rest else [[s[0]] + rest[0]] + rest[1..]
  }

  function Join(p: seq<Str>): Str
    requires p != []
  {
    if |p| == 1 then p[0] else p[0] + [SLASH] + Join(p[1..])
  }

  lemma {:induction false} JoinSplit(s: Str)
    ensures Join(Split(s)) == s
  {
    if s != [] {
      JoinSplit(s[1..]);
      var rest := Split(s[1..]);
      if s[0] == SLASH {
        assert ([[]] + rest)[1..] == rest;
        assert Join(Split(s)) == [SLASH] + Join(rest);
      } else if |rest| > 1 {
        assert Split(s)[1..] == rest[1..];
        assert Join(Split(s)) == [s[0]] + (rest[0] + [SLASH] + Join(rest[1..]));
      }
    }
  }

  lemma {:induction false} SplitSegment(s: Str)
    requires NoSlash(s)
    ensures Split(s) == [s]
  {
    if s != [] {
      SplitSegment(s[1..]);
      assert s[0] in s && [s[0]] + s[1..] == s;
    }
  }

  lemma {:induction false} SplitFirst(a: Str, s: Str)
    requires NoSlash(a)
    ensures Split(a + [SLASH] + s) == [a] + Split(s)
  {
    var all := a + [SLASH] + s;
    if a == [] {
      assert all[1..] == s;
    } else {
      SplitFirst(a[1..], s);
      assert all[1..] == a[1..] + [SLASH] + s;
      assert a[0] in a && [a[0]] + a[1..] == a;
    }
  }

  lemma {:induction false} SplitJoin(p: seq<Str>)
    requires p != [] && forall i :: 0 <= i < |p| ==> NoSlash(p[i])
    ensures Split(Join(p)) == p
  {
    if |p| == 1 {
      SplitSegment(p[0]);
    } else {
      SplitJoin(p[1..]);
      SplitFirst(p[0], Join(p[1..]));
    }
  }

  /** Joining names shows a directory's names, a slash, and the rest. */
  lemma {:induction false} JoinAppend(p: seq<Str>, q: seq<Str>)
    requires p != [] && q != []
    ensures Join(p + q) == Join(p) + [SLASH] + Join(q)
  {
    if |p| == 1 {
      assert (p + q)[1..] == q;
    } else {
      JoinAppend(p[1..], q);
      assert (p + q)[1..] == p[1..] + q;
    }
  }

  // ------------------------------------------------------------------------------------------
  // Validation.

  datatype KeyError = Empty | TooLong | ControlCharacter | DotDotSegment | EmptySegment

  datatype Validation = Valid | Invalid(error: KeyError)

  predicate ContainsSlashSlash(s: Str) {
    exists i :: 0 <= i < |s| - 1 && s[i] == SLASH && s[i + 1] == SLASH
  }

  predicate ContainsDotDot(s: Str) {
    exists i :: 0 <= i < |s| - 1 && s[i] == DOT && s[i + 1] == DOT
  }

  /** What a key is: short, free of control bytes, and made of proper segments only. */
  predicate ValidKey(s: Str) {
    && 0 < |s| <= MAX_LEN
    && NUL !in s && CR !in s && LF !in s
    && [] !in Split(s)
    && [DOT, DOT] !in Split(s)
  }

  lemma SlashSlashAfter(c: byte, t: Str)
    ensures ContainsSlashSlash([c] + t) <==> ContainsSlashSlash(t) || (c == SLASH && t != [] && t[0] == SLASH)
  {
    var s := [c] + t;
    if ContainsSlashSlash(s) {
      var i :| 0 <= i < |s| - 1 && s[i] == SLASH && s[i + 1] == SLASH;
      assert i > 0 ==> t[i - 1] == SLASH && t[i] == SLASH;
    }
    if ContainsSlashSlash(t) {
      var i :| 0 <= i < |t| - 1 && t[i] == SLASH && t[i + 1] == SLASH;
      assert s[i + 1] == SLASH && s[i + 2] == SLASH;
    }
    if c == SLASH && t != [] && t[0] == SLASH {
      assert s[0] == SLASH && s[1] == SLASH;
    }
  }

  lemma {:induction false} EmptyTailSegment(s: Str)
    ensures [] in Split(s)[1..] <==> (s != [] && s[|s| - 1] == SLASH) || ContainsSlashSlash(s)
    ensures Split(s)[0] == [] <==> s == [] || s[0] == SLASH
  {
    if s != [] {
      var t := s[1..];
      hide ContainsSlashSlash;
      EmptyTailSegment(t);
      assert s == [s[0]] + t;
      SlashSlashAfter(s[0], t);
      if s[0] == SLASH {
        assert Split(s)[1..] == Split(t) == [Split(t)[0]] + Split(t)[1..];
      } else {
        assert Split(s)[1..] == Split(t)[1..];
      }
    }
  }

  /** The first segment ends at the first slash. */
  lemma FirstSegment(s: Str)
    ensures Split(s)[0] == [] <==> s == [] || s[0] == 47
    ensures Split(s)[0] == [46] <==> s != [] && s[0] == 46 && (|s| == 1 || s[1] == 47)
    ensures Split(s)[0] == [46, 46] <==> |s| >= 2 && s[0] == 46 && s[1] == 46 && (|s| == 2 || s[2] == 47)
  {
    EmptyTailSegment(s);
    if s != [] {
      EmptyTailSegment(s[1..]);
      if |s| > 1 {
        EmptyTailSegment(s[1..][1..]);
      }
    }
  }

  /** The bytes from `i` on spell a `..` segment. */
  predicate DotDotAt(s: Str, i: nat) {
    && i + 1 < |s| && s[i] == 46 && s[i + 1] == 46
    && (i == 0 || s[i - 1] == 47)
    && (i + 2 == |s| || s[i + 2] == 47)
  }

  lemma {:induction false} DotDotSegmentMeans(s: Str)
    ensures [46, 46] in Split(s)[1..] <==> exists i: nat :: i > 0 && DotDotAt(s, i)
  {
    if s != [] {
      var t := s[1..];
      DotDotSegmentMeans(t);
      FirstSegment(t);
      assert forall i: nat :: i > 0 && DotDotAt(t, i) ==> DotDotAt(s, i + 1);
      assert forall i: nat :: i > 1 && DotDotAt(s, i) ==> DotDotAt(t, i - 1);
      assert s[0] == 47 ==> (DotDotAt(s, 1) <==> DotDotAt(t, 0));
      if s[0] == SLASH {
        assert Split(s)[1..] == Split(t) == [Split(t)[0]] + Split(t)[1..];
      } else {
        assert Split(s)[1..] == Split(t)[1..];
      }
    }
  }

  lemma DotDotMeans(s: Str)
    ensures [46, 46] in Split(s) <==> exists i: nat :: DotDotAt(s, i)
  {
    FirstSegment(s);
    DotDotSegmentMeans(s);
    hide Split;
    assert Split(s) == [Split(s)[0]] + Split(s)[1..];
    assert DotDotAt(s, 0) <==> [46, 46] == Split(s)[0];
  }

  /** The accepted keys, byte by byte. */
  lemma ValidKeyMeans(s: Str)
    ensures ValidKey(s) <==>
            && 0 < |s| <= 1024
            && (forall i :: 0 <= i < |s| ==> s[i] != 0 && s[i] != 10 && s[i] != 13)
            && s[0] != 47 && s[|s| - 1] != 47
            && (forall i :: 0 <= i < |s| - 1 ==> s[i] != 47 || s[i + 1] != 47)
            && (forall i {:trigger s[i]} :: 0 <= i < |s| - 1 && s[i] == 46 && s[i + 1] == 46 ==>
                  (i > 0 && s[i - 1] != 47) || (i + 2 < |s| && s[i + 2] != 47))
  {
    if s != [] {
      EmptySegmentTests(s);
      DotDotMeans(s);
      NoDotDotMeans(s);
      NoSlashSlashMeans(s);
      hide Split, ContainsSlashSlash, DotDotAt;
      assert [46, 46] !in Split(s) <==> forall i: nat :: !DotDotAt(s, i);
    }
  }

  lemma NoSlashSlashMeans(s: Str)
    ensures !ContainsSlashSlash(s) <==> forall i :: 0 <= i < |s| - 1 ==> s[i] != 47 || s[i + 1] != 47
  {
    if !ContainsSlashSlash(s) {
      forall i | 0 <= i < |s| - 1
        ensures s[i] != 47 || s[i + 1] != 47
      {
      }
    }
  }

  lemma NoDotDotMeans(s: Str)
    ensures (forall i: nat :: !DotDotAt(s, i)) <==>
            (forall i {:trigger s[i]} :: 0 <= i < |s| - 1 && s[i] == 46 && s[i + 1] == 46 ==>
               (i > 0 && s[i - 1] != 47) || (i + 2 < |s| && s[i + 2] != 47))
  {
    if forall i: nat :: !DotDotAt(s, i) {
      forall i {:trigger s[i]} | 0 <= i < |s| - 1 && s[i] == 46 && s[i + 1] == 46
        ensures (i > 0 && s[i - 1] != 47) || (i + 2 < |s| && s[i + 2] != 47)
      {
        assert !DotDotAt(s, i);
      }
    }
  }

  /** A string begins with a prefix when their bytes agree as far as the prefix goes. */
  lemma StartsWithMeans(s: Str, prefix: Str)
    ensures StartsWith(s, prefix) <==> |prefix| <= |s| && forall i :: 0 <= i < |prefix| ==> s[i] == prefix[i]
  {
  }

  lemma TempPrefixText()
    ensures |TEMP_PREFIX| == |".blobkit-"| && forall i :: 0 <= i < |TEMP_PREFIX| ==> TEMP_PREFIX[i] == ".blobkit-"[i] as int
  {
  }

  /** The three textual slash tests say exactly that some segment is empty. */
  lemma EmptySegmentTests(s: Str)
    requires s != []
    ensures [] in Split(s) <==> s[0] == SLASH || s[|s| - 1] == SLASH || ContainsSlashSlash(s)
  {
    EmptyTailSegment(s);
    assert Split(s) == [Split(s)[0]] + Split(s)[1..];
  }

  /** Accepts exactly the valid keys, and names the first rule that a rejected string breaks. */
  method Validate(s: Str) returns (r: Validation)
    ensures r.Valid? <==> ValidKey(s)
    ensures r == Invalid(Empty) <==> s == []
    ensures r == Invalid(TooLong) <==> |s| > MAX_LEN
    ensures r == Invalid(ControlCharacter) <==> 0 < |s| <= MAX_LEN && (NUL in s || CR in s || LF in s)
    ensures r == Invalid(EmptySegment) ==> [] in Split(s) && [DOT, DOT] !in Split(s)
    ensures r == Invalid(DotDotSegment) ==> [DOT, DOT] in Split(s)
  {
    if s == [] {
      return Invalid(Empty);
    }
    if |s| > MAX_LEN {
      return Invalid(TooLong);
    }
    if NUL in s || CR in s || LF in s {
      return Invalid(ControlCharacter);
    }
    var components := Split(s);
    for i := 0 to |components|
      invariant [DOT, DOT] !in components[..i]
    {
      if components[i] == [DOT, DOT] {
        return Invalid(DotDotSegment);
      }
    }
    EmptySegmentTests(s);
    if s[0] == SLASH || s[|s| - 1] == SLASH || ContainsSlashSlash(s) {
      return Invalid(EmptySegment);
    }
    return Valid;
  }

  // ------------------------------------------------------------------------------------------
  // Paths.

  function DropDots(p: seq<Str>): (r: seq<Str>)
    ensures forall i :: 0 <= i < |r| ==> r[i] in p && r[i] != [DOT]
    ensures [DOT] !in p ==> r == p
  {
    if p == [] then []
    else if p[0] == [DOT] then DropDots(p[1..])
    else [p[0]] + DropDots(p[1..])
  }

  /** Dropping dots goes name by name. */
  lemma {:induction false} DropDotsMeans(p: seq<Str>, q: seq<Str>)
    ensures DropDots(p + q) == DropDots(p) + DropDots(q)
  {
    hide DropDots;
    if p == [] {
      DropDotsNone();
      assert p + q == q;
      assert [] + DropDots(q) == DropDots(q);
    } else {
      DropDotsMeans(p[1..], q);
      DropDotsFirst(p);
      DropDotsFirst(p + q);
      assert (p + q)[1..] == p[1..] + q && (p + q)[0] == p[0];
      var head: seq<Str> := if p[0] == [46] then [] else [p[0]];
      assert head + (DropDots(p[1..]) + DropDots(q)) == head + DropDots(p[1..]) + DropDots(q);
    }
  }

  lemma DropDotsNone()
    ensures DropDots([]) == []
  {
  }

  lemma DropDotsOne(name: Str)
    ensures DropDots([name]) == if name == [46] then [] else [name]
  {
    assert [name][1..] == [];
  }

  lemma DropDotsFirst(p: seq<Str>)
    requires p != []
    ensures DropDots(p) == (if p[0] == [46] then [] else [p[0]]) + DropDots(p[1..])
  {
  }

  /** Where the operating system looks for the key: `.` segments lead nowhere new. */
  function PathOf(key: Str): Path {
    DropDots(Split(key))
  }

  /** A name that a directory entry can have. */
  predicate ProperName(n: Str) {
    n != [] && NoSlash(n) && n != [DOT] && n != [DOT, DOT]
  }

  predicate ProperPath(p: Path) {
    forall i :: 0 <= i < |p| ==> ProperName(p[i])
  }

  datatype Resolved = Under(path: Path) | Rejected

  /** The store's guard: any `..` in the text is refused, even inside a name. */
  function Resolve(key: Str): Resolved {
    if ContainsDotDot(key) then Rejected else Under(PathOf(key))
  }

  /** The guard looks at the text alone. */
  lemma ResolveMeans(key: Str)
    ensures Resolve(key).Rejected? <==> exists i :: 0 <= i < |key| - 1 && key[i] == 46 && key[i + 1] == 46
    ensures Resolve(key).Under? ==> Resolve(key).path == PathOf(key)
  {
    hide PathOf;
  }

  predicate NoDotSegment(key: Str) {
    [DOT] !in Split(key)
  }

  /** A valid key never leaves the root: its path only goes down, through proper names. */
  lemma PathStaysBelowRoot(key: Str)
    requires ValidKey(key)
    ensures ProperPath(PathOf(key))
    ensures NoDotSegment(key) ==> PathOf(key) != []
  {
  }

  /** Names that survive dropping dots: all of them exactly when there was no dot. */
  lemma {:induction false} DropDotsLength(p: seq<Str>)
    ensures |DropDots(p)| <= |p|
    ensures |DropDots(p)| == |p| <==> [DOT] !in p
  {
    if p != [] {
      DropDotsLength(p[1..]);
      assert p == [p[0]] + p[1..];
    }
  }

  predicate OnlyDots(key: Str) {
    forall i :: 0 <= i < |Split(key)| ==> Split(key)[i] == [DOT]
  }

  /** A key names the root itself exactly when it is made of `.` segments only. */
  lemma NamesRootExactly(key: Str)
    ensures PathOf(key) == [] <==> OnlyDots(key)
  {
    NothingLeftExactly(Split(key));
  }

  lemma {:induction false} NothingLeftExactly(p: seq<Str>)
    ensures DropDots(p) == [] <==> forall i :: 0 <= i < |p| ==> p[i] == [DOT]
  {
    if p != [] {
      NothingLeftExactly(p[1..]);
      assert forall i :: 0 < i < |p| ==> p[i] == p[1..][i - 1];
    }
  }

  /** The key rebuilt from its path is the key itself, exactly for the keys without a `.` segment. */
  lemma RebuiltExactlyWhenDotless(key: Str)
    requires ValidKey(key)
    ensures PathOf(key) != [] && Join(PathOf(key)) == key <==> NoDotSegment(key)
  {
    JoinSplit(key);
    if !NoDotSegment(key) && PathOf(key) != [] && Join(PathOf(key)) == key {
      SplitJoin(PathOf(key));
      DropDotsLength(Split(key));
      assert false;
    }
  }

  /** Dotless valid keys never share a path. */
  lemma PathsAreInjective(a: Str, b: Str)
    requires ValidKey(a) && ValidKey(b) && NoDotSegment(a) && NoDotSegment(b)
    requires PathOf(a) == PathOf(b)
    ensures a == b
  {
    RebuiltExactlyWhenDotless(a);
    RebuiltExactlyWhenDotless(b);
  }

  /** `a/rest` and `a/./rest`. */
  function Plain(a: Str, rest: Str): Str {
    a + [SLASH] + rest
  }

  function Dotted(a: Str, rest: Str): Str {
    a + [SLASH] + ([DOT] + [SLASH] + rest)
  }

  lemma DottedSplits(a: Str, rest: Str)
    requires NoSlash(a)
    ensures Split(Plain(a, rest)) == [a] + Split(rest)
    ensures Split(Dotted(a, rest)) == [a] + ([[DOT]] + Split(rest))
  {
    SplitFirst(a, rest);
    SplitFirst([DOT], rest);
    SplitFirst(a, [DOT] + [SLASH] + rest);
  }

  /** With a `.` segment they do: below any name, `a/./rest` and `a/rest` are both valid and share a path. */
  lemma DottedKeysCollide(a: Str, rest: Str)
    requires NoSlash(a) && ValidKey(Plain(a, rest)) && |Plain(a, rest)| + 2 <= MAX_LEN
    ensures Plain(a, rest) != Dotted(a, rest)
    ensures ValidKey(Dotted(a, rest))
    ensures PathOf(Plain(a, rest)) == PathOf(Dotted(a, rest))
  {
    DottedSplits(a, rest);
    forall x: byte | x in Dotted(a, rest)
      ensures x in Plain(a, rest) || x == DOT
    {
    }
    DropDotsMiddle(a, Split(rest));
  }

  lemma DropDotsMiddle(a: Str, p: seq<Str>)
    ensures DropDots([a] + ([[DOT]] + p)) == DropDots([a] + p)
  {
    assert ([a] + ([[DOT]] + p))[1..] == [[DOT]] + p;
    assert ([[DOT]] + p)[1..] == p;
    assert ([a] + p)[1..] == p;
  }

  lemma DotDotAfter(c: byte, t: Str)
    ensures ContainsDotDot([c] + t) <==> ContainsDotDot(t) || (c == DOT && t != [] && t[0] == DOT)
  {
    var s := [c] + t;
    if ContainsDotDot(s) {
      var i :| 0 <= i < |s| - 1 && s[i] == DOT && s[i + 1] == DOT;
      assert i > 0 ==> t[i - 1] == DOT && t[i] == DOT;
    }
    if ContainsDotDot(t) {
      var i :| 0 <= i < |t| - 1 && t[i] == DOT && t[i + 1] == DOT;
      assert s[i + 1] == DOT && s[i + 2] == DOT;
    }
    if c == DOT && t != [] && t[0] == DOT {
      assert s[0] == DOT && s[1] == DOT;
    }
  }

  /** Two dots in a row never straddle a slash. */
  lemma {:induction false} DotDotInSegment(s: Str)
    ensures ContainsDotDot(s) <==> exists n :: n in Split(s) && ContainsDotDot(n)
    ensures s != [] && s[0] != SLASH ==> Split(s)[0] != [] && Split(s)[0][0] == s[0]
    ensures s == [] || s[0] == SLASH ==> Split(s)[0] == []
  {
    if s != [] {
      var t, rest := s[1..], Split(s[1..]);
      DotDotInSegment(t);
      assert s == [s[0]] + t;
      DotDotAfter(s[0], t);
      if s[0] != SLASH {
        DotDotAfter(s[0], rest[0]);
        assert rest == [rest[0]] + rest[1..];
        assert Split(s) == [[s[0]] + rest[0]] + rest[1..];
      }
    }
  }

  /** The guard refuses a valid key exactly when two dots in a row sit inside a longer name, as in `a..b`. */
  lemma ValidKeyRejectedExactly(key: Str)
    requires ValidKey(key)
    ensures Resolve(key).Rejected? <==> exists n :: n in Split(key) && |n| > 2 && ContainsDotDot(n)
  {
    DotDotInSegment(key);
    forall n | n in Split(key) && ContainsDotDot(n)
      ensures |n| > 2
    {
      assert n != [DOT, DOT];
    }
  }

  /** There are such keys: `a..b` is valid, and every path-based store refuses it. */
  lemma ValidKeyMayBeRejected()
    ensures ValidKey([97, DOT, DOT, 98]) && Resolve([97, DOT, DOT, 98]) == Rejected
  {
    var s: Str := [97, DOT, DOT, 98];
    SplitSegment(s);
    assert s[1] == DOT && s[2] == DOT;
  }

  /** A key that names one path of its own. */
  predicate PlainKey(key: Str) {
    ValidKey(key) && NoDotSegment(key) && !ContainsDotDot(key)
  }

  predicate ProperPrefix(p: Path, q: Path) {
    p < q
  }

  ghost predicate PrefixFree(keys: set<Str>) {
    forall a, b :: a in keys && b in keys ==> !ProperPrefix(PathOf(a), PathOf(b))
  }

  /** A set of plain keys none of which is a directory of another. */
  ghost predicate PlainSet(keys: set<Str>) {
    (forall k :: k in keys ==> PlainKey(k)) && PrefixFree(keys)
  }

  /** A plain key that cannot be taken for a temporary file. */
  predicate CanonicalKey(key: Str) {
    PlainKey(key) && forall n :: n in Split(key) ==> !StartsWith(n, TEMP_PREFIX)
  }

  /** A plain set of keys that cannot be taken for temporary files. */
  ghost predicate CanonicalSet(keys: set<Str>) {
    (forall k :: k in keys ==> CanonicalKey(k)) && PrefixFree(keys)
  }
}
