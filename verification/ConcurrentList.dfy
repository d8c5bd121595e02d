/**
  `list` among other clients. The walk reads each directory entry by entry while puts and deletes go on, so its
  result is no snapshot; this module says what it is.
*/
module ConcurrentList {
  import opened Bytes
  import opened Keys
  import opened FileModel
  import opened Walk
  import opened Protocol
  import opened Interleavings
  import R = Reachable

  /**
    A walk in progress. `reading` is the directory being read, `steady` its entries that have been there ever since
    it was opened, `seen` the entries handed out so far; `found` are the files put out. `visited` is every directory
    opened so far; no step depends on it.
  */
  datatype Walker = Walker(stack: seq<Path>, reading: Option<Path>, steady: set<Path>, seen: set<Path>,
                           found: seq<Path>, visited: set<Path>)

  const START := Walker([[]], None, {}, {}, [], {})

  datatype Move = Elsewhere(a: Action) | OpenDir | NextEntry(c: Path) | CloseDir

  datatype Moment = Moment(s: State, w: Walker)

  predicate Present(s: State, p: Path) {
    p in s.names || p in s.dirs
  }

  function EntriesOf(s: State, dir: Path): set<Path> {
    set p | p in s.names.Keys + s.dirs && IsChild(p, dir)
  }

  /**
    What may happen next: another client's step, or one of the walk's own. Reading a directory hands out entries that
    are there, each name once, and does not end before every entry that was there all along has been handed out.
  */
  ghost predicate Possible(keys: set<Str>, x: Moment, m: Move) {
    match m
    case Elsewhere(a) => !a.Crash? && Enabled(keys, x.s, a)
    case OpenDir => x.w.reading.None? && x.w.stack != []
    case NextEntry(c) => x.w.reading.Some? && c in EntriesOf(x.s, x.w.reading.value) && c !in x.w.seen
    case CloseDir => x.w.reading.Some? && x.w.steady <= x.w.seen
  }

  /** The walk's answer to one entry: descend, put out, or pass over. */
  function Consider(s: State, prefix: Str, w: Walker, c: Path): Walker
    requires c != []
  {
    if c in s.dirs then if Keeps(c, prefix) then w.(stack := w.stack + [c]) else w
    else if ListsPath(c, prefix) then w.(found := w.found + [c])
    else w
  }

  ghost function Next(keys: set<Str>, prefix: Str, x: Moment, m: Move): Moment
    requires Possible(keys, x, m)
  {
    match m
    case Elsewhere(a) =>
      var s := Apply(keys, x.s, a);
      Moment(s, x.w.(steady := set p | p in x.w.steady && Present(s, p)))
    case OpenDir =>
      var top, rest := x.w.stack[|x.w.stack| - 1], x.w.stack[..|x.w.stack| - 1];
      Moment(x.s, Walker(rest, Some(top), EntriesOf(x.s, top), {}, x.w.found, x.w.visited + {top}))
    case NextEntry(c) => Moment(x.s, Consider(x.s, prefix, x.w.(seen := x.w.seen + {c}), c))
    case CloseDir => Moment(x.s, x.w.(reading := None, steady := {}, seen := {}))
  }

  ghost predicate Follows(keys: set<Str>, prefix: Str, x: Moment, y: Moment) {
    exists m :: Possible(keys, x, m) && y == Next(keys, prefix, x, m)
  }

  /** A walk among other clients, from the call on, in a state where the protocol's invariant holds. */
  ghost predicate WalkAmong(keys: set<Str>, prefix: Str, trace: seq<Moment>) {
    Unfolds(keys, prefix, trace) && Inv(keys, trace[0].s)
  }

  ghost predicate Unfolds(keys: set<Str>, prefix: Str, trace: seq<Moment>) {
    && trace != [] && trace[0].w == START
    && forall i :: 0 <= i < |trace| - 1 ==> Follows(keys, prefix, trace[i], trace[i + 1])
  }

  predicate Done(x: Moment) {
    x.w.stack == [] && x.w.reading.None?
  }

  // ------------------------------------------------------------------------------------------
  // A file that is there throughout is found.

  /** The file is found, or on the way to being found: below a directory on the stack, or below an entry still to come. */
  ghost predicate OnTheWay(w: Walker, p: Path) {
    || p in w.found
    || (exists d :: d in w.stack && d < p)
    || (w.reading.Some? && w.reading.value < p && Towards(w.reading.value, p) in w.steady - w.seen)
  }

  function Towards(d: Path, p: Path): Path
    requires d < p
  {
    p[..|d| + 1]
  }

  /** The entry towards a file is there as long as the file is. */
  lemma TowardsIsThere(keys: set<Str>, s: State, d: Path, p: Path)
    requires Inv(keys, s) && p in s.names && p !in s.dirs && d < p
    ensures Towards(d, p) in EntriesOf(s, d)
    ensures Towards(d, p) in s.dirs <==> Towards(d, p) != p
  {
    NowOk(keys, s);
    hide Inv, VersionOk, IsTemp;
    NamesLieInDirs(keys, s, p);
    assert Towards(d, p) == p || Towards(d, p) in Above(p);
  }

  lemma NamesLieInDirs(keys: set<Str>, s: State, p: Path)
    requires Inv(keys, s) && p in s.names
    ensures Above(p) <= s.dirs
  {
    hide Inv, IsTemp, PublishedWhole, MapOf, MapAt;
    NowOk(keys, s);
  }

  lemma StepKeepsOnTheWay(keys: set<Str>, prefix: Str, x: Moment, m: Move, p: Path)
    requires Possible(keys, x, m) && Inv(keys, x.s) && ListsPath(p, prefix) && OnTheWay(x.w, p)
    requires p in x.s.names && p !in x.s.dirs
    requires var y := Next(keys, prefix, x, m); Inv(keys, y.s) && p in y.s.names && p !in y.s.dirs
    ensures OnTheWay(Next(keys, prefix, x, m).w, p)
  {
    hide Inv, Enabled, Apply, Keeps, ValidKey, Join;
    var y := Next(keys, prefix, x, m);
    if p in x.w.found {
      assert p in y.w.found;
    } else if d :| d in x.w.stack && d < p {
      if m.OpenDir? && d == y.w.reading.value {
        TowardsIsThere(keys, x.s, d, p);
      } else {
        assert d in y.w.stack;
      }
    } else {
      var d := x.w.reading.value;
      var c := Towards(d, p);
      TowardsIsThere(keys, x.s, d, p);
      TowardsIsThere(keys, y.s, d, p);
      if m.NextEntry? && m.c == c {
        if c == p {
          assert p in y.w.found;
        } else {
          PruningKeepsMatches(c, p, prefix);
          assert c in y.w.stack;
        }
      }
    }
  }

  lemma FollowsKeeps(keys: set<Str>, prefix: Str, x: Moment, y: Moment)
    requires GoodKeys(keys) && Inv(keys, x.s) && Follows(keys, prefix, x, y)
    ensures Inv(keys, y.s)
  {
    hide GoodKeys, Inv, Enabled, Apply, Consider;
    var m :| Possible(keys, x, m) && y == Next(keys, prefix, x, m);
    if m.Elsewhere? {
      StepKeeps(keys, x.s, m.a);
    }
  }

  lemma {:induction false} WalkKeeps(keys: set<Str>, prefix: Str, trace: seq<Moment>, i: nat)
    requires GoodKeys(keys) && WalkAmong(keys, prefix, trace) && i < |trace|
    ensures Inv(keys, trace[i].s)
  {
    hide GoodKeys, Inv, Follows;
    if i > 0 {
      WalkKeeps(keys, prefix, trace, i - 1);
      FollowsKeeps(keys, prefix, trace[i - 1], trace[i]);
    }
  }

  /** The file is there at every moment. */
  ghost predicate Throughout(trace: seq<Moment>, p: Path) {
    forall i :: 0 <= i < |trace| ==> p in trace[i].s.names && p !in trace[i].s.dirs
  }

  lemma {:induction false} StaysOnTheWay(keys: set<Str>, prefix: Str, trace: seq<Moment>, i: nat, p: Path)
    requires GoodKeys(keys) && WalkAmong(keys, prefix, trace) && i < |trace|
    requires ListsPath(p, prefix) && Throughout(trace, p)
    ensures OnTheWay(trace[i].w, p)
  {
    hide GoodKeys, Inv, ListsPath, Next, Possible;
    if i == 0 {
      ListedIsBelowRoot(p, prefix);
      var root: Path := [];
      assert root in trace[0].w.stack && root < p;
    } else {
      StaysOnTheWay(keys, prefix, trace, i - 1, p);
      WalkKeeps(keys, prefix, trace, i - 1);
      WalkKeeps(keys, prefix, trace, i);
      assert Follows(keys, prefix, trace[i - 1], trace[i]);
      var m :| Possible(keys, trace[i - 1], m) && trace[i] == Next(keys, prefix, trace[i - 1], m);
      StepKeepsOnTheWay(keys, prefix, trace[i - 1], m, p);
    }
  }

  lemma ListedIsBelowRoot(p: Path, prefix: Str)
    requires ListsPath(p, prefix)
    ensures p != []
  {
  }

  // ------------------------------------------------------------------------------------------
  // What is found was there, and is found once.

  ghost predicate WasThere(trace: seq<Moment>, n: nat, prefix: Str, p: Path) {
    exists i :: 0 <= i < |trace| && i < n && p in trace[i].s.names && ListsPath(p, prefix)
  }

  lemma {:induction false} FoundWasThere(keys: set<Str>, prefix: Str, trace: seq<Moment>, i: nat, p: Path)
    requires WalkAmong(keys, prefix, trace) && i < |trace| && p in trace[i].w.found
    ensures WasThere(trace, i, prefix, p)
  {
    hide Inv, ListsPath, Keeps, Apply, Enabled;
    if i > 0 {
      assert Follows(keys, prefix, trace[i - 1], trace[i]);
      if p in trace[i - 1].w.found {
        FoundWasThere(keys, prefix, trace, i - 1, p);
      }
    }
  }

  ghost predicate PlacedBy(w: Walker, x: Path) {
    && (x != [] ==> Parent(x) in w.visited)
    && (x != [] && w.reading == Some(Parent(x)) ==> x in w.seen)
  }

  /** Directories are read at most once, and what was put on the stack or put out has been handed out by its directory. */
  ghost predicate Tidy(w: Walker) {
    && Distinct(w.stack) && Distinct(w.found)
    && (forall d :: d in w.stack ==> d !in w.visited && PlacedBy(w, d))
    && (forall d :: d in w.visited ==> PlacedBy(w, d))
    && (forall p :: p in w.found ==> p != [] && PlacedBy(w, p))
    && (w.reading.Some? ==> w.reading.value in w.visited)
  }

  lemma OpeningStaysTidy(w: Walker, entries: set<Path>)
    requires Tidy(w) && w.stack != [] && w.reading.None?
    ensures
      var top, rest := w.stack[|w.stack| - 1], w.stack[..|w.stack| - 1];
      Tidy(Walker(rest, Some(top), entries, {}, w.found, w.visited + {top}))
  {
    var top, rest := w.stack[|w.stack| - 1], w.stack[..|w.stack| - 1];
    assert w.stack[|w.stack| - 1] in w.stack;
    forall d | d in rest
      ensures d in w.stack && d != top
    {
      var i :| 0 <= i < |rest| && rest[i] == d;
      assert w.stack[i] == d;
    }
  }

  lemma PushStaysDistinct(s: seq<Path>, c: Path)
    requires Distinct(s) && c !in s
    ensures Distinct(s + [c])
  {
  }

  lemma ConsideringStaysTidy(s: State, prefix: Str, w: Walker, c: Path)
    requires Tidy(w) && c != [] && w.reading == Some(Parent(c)) && c !in w.seen
    ensures Tidy(Consider(s, prefix, w.(seen := w.seen + {c}), c))
  {
    hide Distinct, Keeps, ListsPath;
    assert !PlacedBy(w, c);
    assert c !in w.stack && c !in w.visited && c !in w.found;
    PushStaysDistinct(w.stack, c);
    PushStaysDistinct(w.found, c);
  }

  lemma {:induction false} WalkStaysTidy(keys: set<Str>, prefix: Str, trace: seq<Moment>, i: nat)
    requires WalkAmong(keys, prefix, trace) && i < |trace|
    ensures Tidy(trace[i].w)
  {
    hide Inv, Consider, Apply, Enabled, Distinct;
    if i == 0 {
      StartIsTidy();
    } else {
      WalkStaysTidy(keys, prefix, trace, i - 1);
      var x := trace[i - 1];
      assert Follows(keys, prefix, x, trace[i]);
      var m :| Possible(keys, x, m) && trace[i] == Next(keys, prefix, x, m);
      if m.OpenDir? {
        OpeningStaysTidy(x.w, EntriesOf(x.s, x.w.stack[|x.w.stack| - 1]));
      } else if m.NextEntry? {
        ConsideringStaysTidy(x.s, prefix, x.w, m.c);
      }
    }
  }

  lemma StartIsTidy()
    ensures Tidy(START)
  {
  }

  // ------------------------------------------------------------------------------------------
  // The walk is never stuck, and its own moves run out.

  /** What waits is there: the stack holds directories, the steady entries are entries of the directory being read. */
  ghost predicate Grounded(x: Moment) {
    && (forall d :: d in x.w.stack ==> d in x.s.dirs)
    && (x.w.reading.Some? ==> x.w.steady <= EntriesOf(x.s, x.w.reading.value))
  }

  lemma DirsGrow(keys: set<Str>, s: State, a: Action)
    requires GoodKeys(keys) && Inv(keys, s) && Enabled(keys, s, a) && !a.Crash?
    ensures s.dirs <= Apply(keys, s, a).dirs
  {
    hide GoodKeys, Inv, Enabled, Apply, Fixed;
    StepKeeps(keys, s, a);
  }

  lemma {:induction false} WalkStaysGrounded(keys: set<Str>, prefix: Str, trace: seq<Moment>, i: nat)
    requires GoodKeys(keys) && WalkAmong(keys, prefix, trace) && i < |trace|
    ensures Grounded(trace[i])
  {
    hide GoodKeys, Inv, Apply, Enabled, Keeps, ListsPath, IsChild;
    if i == 0 {
      R.RootIsThere(keys, trace[0].s);
    } else {
      WalkStaysGrounded(keys, prefix, trace, i - 1);
      WalkKeeps(keys, prefix, trace, i - 1);
      var x := trace[i - 1];
      assert Follows(keys, prefix, x, trace[i]);
      var m :| Possible(keys, x, m) && trace[i] == Next(keys, prefix, x, m);
      if m.Elsewhere? {
        DirsGrow(keys, x.s, m.a);
      }
    }
  }

  /** Until the walk is done it has a move of its own. */
  lemma NeverStuck(keys: set<Str>, prefix: Str, trace: seq<Moment>, i: nat)
    requires GoodKeys(keys) && WalkAmong(keys, prefix, trace) && i < |trace| && !Done(trace[i])
    ensures exists m: Move :: !m.Elsewhere? && Possible(keys, trace[i], m)
  {
    hide GoodKeys, WalkAmong, IsChild;
    WalkStaysGrounded(keys, prefix, trace, i);
    var x := trace[i];
    if x.w.reading.None? {
      assert Possible(keys, x, OpenDir);
    } else if x.w.steady <= x.w.seen {
      assert Possible(keys, x, CloseDir);
    } else {
      var c :| c in x.w.steady && c !in x.w.seen;
      assert Possible(keys, x, NextEntry(c));
    }
  }

  function DirsLeft(x: Moment): nat {
    |x.s.dirs - x.w.visited|
  }

  function EntriesLeft(x: Moment): nat {
    if x.w.reading.None? then 0 else 1 + |EntriesOf(x.s, x.w.reading.value) - x.w.seen|
  }

  /** Every move of the walk's own leaves fewer directories to open, or as many and fewer entries to read. */
  lemma OwnMovesRunOut(keys: set<Str>, prefix: Str, x: Moment, m: Move)
    requires Possible(keys, x, m) && !m.Elsewhere? && Tidy(x.w) && Grounded(x)
    ensures
      var y := Next(keys, prefix, x, m);
      DirsLeft(y) < DirsLeft(x) || (DirsLeft(y) == DirsLeft(x) && EntriesLeft(y) < EntriesLeft(x))
  {
    hide Distinct, Keeps, ListsPath, PlacedBy;
    var y := Next(keys, prefix, x, m);
    if m.OpenDir? {
      var top := x.w.stack[|x.w.stack| - 1];
      assert top in x.w.stack;
      Fewer(x.s.dirs, x.w.visited, top);
    } else if m.NextEntry? {
      Fewer(EntriesOf(x.s, x.w.reading.value), x.w.seen, m.c);
    }
  }

  lemma Fewer(all: set<Path>, done: set<Path>, p: Path)
    requires p in all && p !in done
    ensures |all - (done + {p})| < |all - done|
  {
    assert all - (done + {p}) == (all - done) - {p} && p in all - done;
  }

  // ------------------------------------------------------------------------------------------
  // In terms of the map.

  /** What the map holds now. */
  ghost function Now(s: State): Blobs {
    MapAt(s, |s.history|)
  }

  lemma KeyIsThere(keys: set<Str>, s: State, k: Str)
    requires GoodKeys(keys) && Inv(keys, s) && k in keys
    ensures k in Now(s) <==> PathOf(k) in s.names
    ensures PathOf(k) !in s.dirs
  {
    hide Inv, MapAt, PathOf, PublishedWhole;
    SlotNow(keys, s, k);
    DirsApart(keys, s);
    KeyIsNotTemp(keys, k);
  }

  /** The key's place in the walk's result. */
  predicate Lists(w: Walker, k: Str) {
    exists p :: p in w.found && p != [] && Join(p) == k
  }

  /** At some moment before the end the key was in the map, or the path of some put's temporary file. */
  ghost predicate OnceThere(keys: set<Str>, trace: seq<Moment>, k: Str) {
    exists i :: 0 <= i < |trace| && ((k in keys && k in Now(trace[i].s)) || IsTempNow(trace[i].s, k))
  }

  ghost predicate IsTempNow(s: State, k: Str) {
    exists p :: p in s.names && IsTemp(p) && Join(p) == k
  }

  /**
    A listing among puts and deletes, over canonical keys: every key with the prefix that is in the map from the call
    to the return is listed; whatever is listed has the prefix and was at some moment in between a key in the map or a
    put's temporary file; and no file is listed twice.
  */
  lemma ListIsFaithful(keys: set<Str>, prefix: Str, trace: seq<Moment>)
    requires CanonicalSet(keys) && Unfolds(keys, prefix, trace) && Done(trace[|trace| - 1])
    requires R.Reachable(keys, trace[0].s)
    ensures forall k :: k in keys && StartsWith(k, prefix) && (forall i :: 0 <= i < |trace| ==> k in Now(trace[i].s)) ==>
              Lists(trace[|trace| - 1].w, k)
    ensures forall k :: Lists(trace[|trace| - 1].w, k) ==> StartsWith(k, prefix) && OnceThere(keys, trace, k)
    ensures Distinct(trace[|trace| - 1].w.found)
  {
    hide CanonicalSet, GoodKeys, WalkAmong, Now, Lists, OnceThere, StartsWith, Distinct;
    ReachableWalk(keys, prefix, trace);
    WalkNotEmpty(keys, prefix, trace);
    forall k | k in keys && StartsWith(k, prefix) && (forall i :: 0 <= i < |trace| ==> k in Now(trace[i].s))
      ensures Lists(trace[|trace| - 1].w, k)
    {
      SteadyKeyIsListed(keys, prefix, trace, k);
    }
    forall k | Lists(trace[|trace| - 1].w, k)
      ensures StartsWith(k, prefix) && OnceThere(keys, trace, k)
    {
      ListedWasThere(keys, prefix, trace, k);
    }
    WalkStaysTidy(keys, prefix, trace, |trace| - 1);
  }

  lemma ReachableWalk(keys: set<Str>, prefix: Str, trace: seq<Moment>)
    requires CanonicalSet(keys) && Unfolds(keys, prefix, trace) && R.Reachable(keys, trace[0].s)
    ensures GoodKeys(keys) && WalkAmong(keys, prefix, trace)
  {
    hide CanonicalSet, GoodKeys, Inv, R.Reachable, Follows;
    R.ReachableOk(keys, trace[0].s);
  }

  lemma WalkNotEmpty(keys: set<Str>, prefix: Str, trace: seq<Moment>)
    requires WalkAmong(keys, prefix, trace)
    ensures trace != []
  {
  }

  lemma CanonicalIsListed(keys: set<Str>, k: Str, prefix: Str)
    requires CanonicalSet(keys) && k in keys && StartsWith(k, prefix)
    ensures ListsPath(PathOf(k), prefix) && Join(PathOf(k)) == k
  {
    RebuiltExactlyWhenDotless(k);
  }

  lemma SteadyKeyIsListed(keys: set<Str>, prefix: Str, trace: seq<Moment>, k: Str)
    requires CanonicalSet(keys) && GoodKeys(keys) && WalkAmong(keys, prefix, trace) && Done(trace[|trace| - 1])
    requires k in keys && StartsWith(k, prefix) && forall i :: 0 <= i < |trace| ==> k in Now(trace[i].s)
    ensures Lists(trace[|trace| - 1].w, k)
  {
    hide CanonicalSet, GoodKeys, PathOf, Inv, Now, ListsPath, StartsWith, Follows, Join;
    CanonicalIsListed(keys, k, prefix);
    forall i | 0 <= i < |trace|
      ensures PathOf(k) in trace[i].s.names && PathOf(k) !in trace[i].s.dirs
    {
      WalkKeeps(keys, prefix, trace, i);
      KeyIsThere(keys, trace[i].s, k);
    }
    StaysOnTheWay(keys, prefix, trace, |trace| - 1, PathOf(k));
    ListedIsBelowRoot(PathOf(k), prefix);
  }

  lemma ListedWasThere(keys: set<Str>, prefix: Str, trace: seq<Moment>, k: Str)
    requires CanonicalSet(keys) && GoodKeys(keys) && WalkAmong(keys, prefix, trace) && Lists(trace[|trace| - 1].w, k)
    ensures StartsWith(k, prefix) && OnceThere(keys, trace, k)
  {
    hide CanonicalSet, GoodKeys, PathOf, Inv, Now, Follows, IsTemp;
    var p :| p in trace[|trace| - 1].w.found && p != [] && Join(p) == k;
    FoundWasThere(keys, prefix, trace, |trace| - 1, p);
    var i :| 0 <= i < |trace| && p in trace[i].s.names && ListsPath(p, prefix);
    WalkKeeps(keys, prefix, trace, i);
    NameIsKeyOrTemp(keys, trace[i].s, p);
    if IsTemp(p) {
      assert IsTempNow(trace[i].s, k);
    } else {
      var j :| j in keys && PathOf(j) == p;
      CanonicalIsListed(keys, j, []);
      KeyIsThere(keys, trace[i].s, j);
    }
  }

  lemma NameIsKeyOrTemp(keys: set<Str>, s: State, p: Path)
    requires Inv(keys, s) && p in s.names
    ensures IsTemp(p) || exists k :: k in keys && PathOf(k) == p
  {
    hide Inv, IsTemp, PathOf, PublishedWhole, MapOf, MapAt;
    NowOk(keys, s);
  }
}
