/** The directory walk behind `list`: what its stack and its output stand for, and what each step keeps. */
module Walk {
  import opened Bytes
  import opened Keys
  import opened Order
  import opened FileModel

  /** Whether the walk descends into a directory, given the text of its relative path. */
  predicate Keeps(dirPath: Path, prefix: Str)
    requires dirPath != []
  {
    var dirPrefix := Join(dirPath) + [SLASH];
    prefix == [] || StartsWith(prefix, dirPrefix) || StartsWith(dirPrefix, prefix)
  }

  /** Pruning never drops a match: the prefix and the directory's text are both prefixes of the file's text. */
  lemma PruningKeepsMatches(d: Path, p: Path, prefix: Str)
    requires d != [] && d < p && StartsWith(Join(p), prefix)
    ensures Keeps(d, prefix)
  {
    var rest := p[|d|..];
    assert p == d + rest;
    JoinAppend(d, rest);
    var dirPrefix := Join(d) + [SLASH];
    assert dirPrefix <= Join(p) && prefix <= Join(p);
    if |prefix| <= |dirPrefix| {
      assert prefix == Join(p)[..|prefix|] == dirPrefix[..|prefix|];
    } else {
      assert dirPrefix == Join(p)[..|dirPrefix|] == prefix[..|dirPrefix|];
    }
  }

  /** Pruning is exact: a directory is skipped if and only if no text below it could begin with the prefix. */
  lemma KeepsExactly(d: Path, prefix: Str)
    requires d != []
    ensures Keeps(d, prefix) <==> exists text :: StartsWith(text, Join(d) + [47]) && StartsWith(text, prefix)
  {
    var dirPrefix := Join(d) + [47];
    if Keeps(d, prefix) {
      var text := if |prefix| <= |dirPrefix| then dirPrefix else prefix;
      assert StartsWith(text, dirPrefix) && StartsWith(text, prefix);
    }
    if text :| StartsWith(text, dirPrefix) && StartsWith(text, prefix) {
      if |prefix| <= |dirPrefix| {
        assert prefix == text[..|prefix|] == dirPrefix[..|prefix|];
      } else {
        assert dirPrefix == text[..|dirPrefix|] == prefix[..|dirPrefix|];
      }
    }
  }

  ghost predicate Distinct(s: seq<Path>) {
    forall i, j :: 0 <= i < j < |s| ==> s[i] != s[j]
  }

  predicate IsChild(c: Path, dir: Path) {
    c != [] && Parent(c) == dir
  }

  lemma ShapeAddsFile(e: Entries, p: Path)
    requires Shaped(e) && ProperPath(p) && p !in e.dirs && Above(p) <= e.dirs
    ensures Shaped(Entries(e.files + {p}, e.dirs))
  {
    hide ProperPath;
  }

  lemma ShapeDropsFile(e: Entries, p: Path)
    requires Shaped(e)
    ensures Shaped(Entries(e.files - {p}, e.dirs))
  {
    hide ProperPath;
  }

  lemma ShapeAddsDirs(e: Entries, d: Path)
    requires Shaped(e) && ProperPath(d)
    requires forall q :: q in Above(d) + {d} ==> q !in e.files
    ensures Shaped(Entries(e.files, e.dirs + Above(d) + {d}))
  {
    forall q | q in Above(d) + {d}
      ensures ProperPath(q) && Above(q) <= Above(d)
    {
    }
    hide ProperPath;
  }

  /** Some directory on the stack lies above `p`. */
  ghost predicate UnderStack(stack: seq<Path>, p: Path) {
    exists d :: d in stack && d < p
  }

  /** Some entry still to be looked at is `p` or lies above it. */
  ghost predicate UnderTodo(todo: seq<Path>, p: Path) {
    exists c :: c in todo && c <= p
  }

  /** Each directory is visited at most once: what waits was never visited, and its parent was. */
  ghost predicate Placed(e: Entries, stack: seq<Path>, visited: set<Path>, dir: Path, todo: seq<Path>) {
    && Distinct(stack) && Distinct(todo)
    && visited <= e.dirs
    && (forall d :: d in stack ==> d in e.dirs && d !in visited && (d == [] || Parent(d) in visited))
    && (forall d :: d in visited ==> d == [] || Parent(d) in visited)
    && (forall c :: c in todo ==>
          (c in e.files || c in e.dirs) && IsChild(c, dir) && dir in visited && c !in stack && c !in visited)
  }

  /** What was put out: matches from visited directories, each once, and none that is still to be looked at. */
  ghost predicate Emitted(e: Entries, prefix: Str, visited: set<Path>, found: set<Path>, out: seq<Str>, todo: seq<Path>) {
    && (forall p :: p in found ==>
          p in e.files && p !in todo && ListsPath(p, prefix) && Parent(p) in visited && Join(p) in out)
    && (forall k :: k in out ==> Split(k) in found)
    && NoDuplicates(out)
  }

  /** No match is lost. */
  ghost predicate Covered(e: Entries, prefix: Str, stack: seq<Path>, found: set<Path>, todo: seq<Path>) {
    forall p :: p in e.files && ListsPath(p, prefix) ==> p in found || UnderStack(stack, p) || UnderTodo(todo, p)
  }

  /**
    Between two steps of the walk: `dir` is the directory being read, `todo` its entries not yet looked
    at, `found` the files already put out.
  */
  ghost predicate Walked(e: Entries, prefix: Str, stack: seq<Path>, visited: set<Path>, found: set<Path>,
                         out: seq<Str>, dir: Path, todo: seq<Path>) {
    && Placed(e, stack, visited, dir, todo)
    && Emitted(e, prefix, visited, found, out, todo)
    && Covered(e, prefix, stack, found, todo)
  }

  lemma WalkStarts(e: Entries, prefix: Str)
    requires Shaped(e)
    ensures Walked(e, prefix, [[]], {}, {}, [], [], [])
  {
    forall p | p in e.files && ListsPath(p, prefix)
      ensures UnderStack([[]], p)
    {
      var root: Path := [];
      assert root in [root] && root < p;
    }
  }

  lemma OpenPlaces(e: Entries, rest: seq<Path>, top: Path, visited: set<Path>, dir: Path, todo: seq<Path>)
    requires Placed(e, rest + [top], visited, dir, []) && Distinct(todo)
    requires forall c :: c in todo <==> (c in e.files || c in e.dirs) && IsChild(c, top)
    ensures Placed(e, rest, visited + {top}, top, todo)
    ensures top in e.dirs - visited
  {
    var stack := rest + [top];
    assert top in stack && stack[|rest|] == top;
    forall i | 0 <= i < |rest|
      ensures stack[i] == rest[i] && rest[i] in stack && rest[i] != top
    {
    }
    assert forall d :: d in rest ==> d in stack;
  }

  lemma OpenCovers(e: Entries, prefix: Str, rest: seq<Path>, top: Path, found: set<Path>, todo: seq<Path>)
    requires Shaped(e) && Covered(e, prefix, rest + [top], found, [])
    requires forall c :: c in todo <==> (c in e.files || c in e.dirs) && IsChild(c, top)
    ensures Covered(e, prefix, rest, found, todo)
  {
    hide ListsPath, ProperPath, IsChild;
    forall p | p in e.files && ListsPath(p, prefix) && p !in found
      ensures UnderStack(rest, p) || UnderTodo(todo, p)
    {
      assert UnderStack(rest + [top], p) && !UnderTodo([], p);
      var d :| d in rest + [top] && d < p;
      if d == top {
        ChildTowards(e, top, p);
        assert p[..|top| + 1] in todo;
      } else {
        assert d in rest;
      }
    }
  }

  lemma OpenEmits(e: Entries, prefix: Str, visited: set<Path>, found: set<Path>, out: seq<Str>, top: Path, todo: seq<Path>)
    requires Emitted(e, prefix, visited, found, out, []) && top !in visited
    requires forall c :: c in todo <==> (c in e.files || c in e.dirs) && IsChild(c, top)
    ensures Emitted(e, prefix, visited + {top}, found, out, todo)
  {
    hide Join, Split, ListsPath;
  }

  lemma WalkTopIsDirectory(e: Entries, prefix: Str, rest: seq<Path>, top: Path, visited: set<Path>, found: set<Path>,
                           out: seq<Str>, dir: Path)
    requires Walked(e, prefix, rest + [top], visited, found, out, dir, [])
    ensures top in e.dirs && top !in visited
  {
    assert (rest + [top])[|rest|] in rest + [top];
  }

  /** Reading the directory on top of the stack, whatever the order of its entries. */
  lemma WalkOpens(e: Entries, prefix: Str, rest: seq<Path>, top: Path, visited: set<Path>, found: set<Path>,
                  out: seq<Str>, dir: Path, todo: seq<Path>)
    requires Shaped(e) && Walked(e, prefix, rest + [top], visited, found, out, dir, [])
    requires Distinct(todo)
    requires forall c :: c in todo <==> (c in e.files || c in e.dirs) && IsChild(c, top)
    ensures Walked(e, prefix, rest, visited + {top}, found, out, top, todo)
    ensures top in e.dirs - visited
  {
    hide Placed, Emitted, Covered, Shaped, Distinct;
    OpenPlaces(e, rest, top, visited, dir, todo);
    OpenCovers(e, prefix, rest, top, found, todo);
    OpenEmits(e, prefix, visited, found, out, top, todo);
  }

  /** On the way from a directory to a file below it there is an entry of that directory. */
  lemma ChildTowards(e: Entries, d: Path, p: Path)
    requires Shaped(e) && p in e.files && d < p
    ensures
      var c := p[..|d| + 1];
      c <= p && IsChild(c, d) && (c in e.files || c in e.dirs)
  {
    var c := p[..|d| + 1];
    assert c == p || c in Above(p);
  }

  lemma TodoShrinks(todo: seq<Path>)
    requires todo != [] && Distinct(todo)
    ensures forall x :: x in todo[1..] <==> x in todo && x != todo[0]
    ensures Distinct(todo[1..])
  {
    forall x | x in todo && x != todo[0]
      ensures x in todo[1..]
    {
      var i :| 0 <= i < |todo| && todo[i] == x;
      assert todo[1..][i - 1] == x;
    }
  }

  lemma MatchKeeps(e: Entries, c: Path, p: Path, prefix: Str)
    requires Shaped(e) && c in e.dirs && p in e.files && c <= p && c != [] && ListsPath(p, prefix)
    ensures c < p && Keeps(c, prefix)
  {
    assert |c| == |p| ==> c == p;
    PruningKeepsMatches(c, p, prefix);
  }

  lemma NothingBelowFile(e: Entries, x: Path, p: Path)
    requires Shaped(e) && x in e.files && p in e.files && x <= p
    ensures x == p
  {
    assert x == p || x in Above(p);
  }

  /** Passing an entry, and putting it on the stack if it is a directory, keeps every directory to one visit. */
  lemma PassingPlaces(e: Entries, stack: seq<Path>, visited: set<Path>, dir: Path, todo: seq<Path>)
    requires todo != [] && Placed(e, stack, visited, dir, todo)
    ensures IsChild(todo[0], dir) && dir in visited
    ensures Placed(e, stack, visited, dir, todo[1..])
    ensures todo[0] in e.dirs ==> Placed(e, stack + [todo[0]], visited, dir, todo[1..])
  {
    assert todo[0] in todo;
    TodoShrinks(todo);
  }

  lemma PassingEmits(e: Entries, prefix: Str, visited: set<Path>, found: set<Path>, out: seq<Str>, todo: seq<Path>)
    requires todo != [] && Distinct(todo)
    requires Emitted(e, prefix, visited, found, out, todo)
    ensures Emitted(e, prefix, visited, found, out, todo[1..])
    ensures todo[0] !in found && todo[0] !in todo[1..]
  {
    hide ListsPath, Join, Split, NoDuplicates;
    TodoShrinks(todo);
    assert todo[0] in todo;
  }

  lemma PushKeepsDistinct(out: seq<Str>, k: Str)
    requires NoDuplicates(out) && k !in out
    ensures NoDuplicates(out + [k])
  {
  }

  lemma EmitOne(e: Entries, prefix: Str, visited: set<Path>, found: set<Path>, out: seq<Str>, todo: seq<Path>, c: Path)
    requires Emitted(e, prefix, visited, found, out, todo)
    requires c in e.files && c !in todo && c !in found && ListsPath(c, prefix) && Parent(c) in visited
    requires Split(Join(c)) == c
    ensures Emitted(e, prefix, visited, found + {c}, out + [Join(c)], todo)
  {
    hide Join, Split, ListsPath, NoDuplicates;
    assert Join(c) !in out;
    PushKeepsDistinct(out, Join(c));
  }

  /** A directory entry goes on the stack unless nothing below it can match. */
  lemma WalkPassesDirectory(e: Entries, prefix: Str, stack: seq<Path>, visited: set<Path>, found: set<Path>,
                            out: seq<Str>, dir: Path, todo: seq<Path>)
    requires Shaped(e) && todo != [] && todo[0] in e.dirs
    requires Walked(e, prefix, stack, visited, found, out, dir, todo)
    ensures todo[0] != []
    ensures Walked(e, prefix, if Keeps(todo[0], prefix) then stack + [todo[0]] else stack,
                   visited, found, out, dir, todo[1..])
  {
    PassingPlaces(e, stack, visited, dir, todo);
    var stack' := if Keeps(todo[0], prefix) then stack + [todo[0]] else stack;
    assert todo[0] !in e.files;
    hide Placed, Emitted, Covered, Keeps, ListsPath, Join, Split, Shaped;
    PassingEmits(e, prefix, visited, found, out, todo);
    PassingCovers(e, prefix, stack, stack', found, found, todo);
  }

  /** Passing an entry loses no match if that entry's matches are found or on the stack afterwards. */
  lemma PassingCovers(e: Entries, prefix: Str, stack: seq<Path>, stack': seq<Path>, found: set<Path>, found': set<Path>,
                      todo: seq<Path>)
    requires todo != [] && Distinct(todo) && todo[0] != [] && Shaped(e)
    requires Covered(e, prefix, stack, found, todo)
    requires found <= found' && stack <= stack'
    requires todo[0] in e.files || todo[0] in e.dirs
    requires todo[0] in e.dirs && Keeps(todo[0], prefix) ==> todo[0] in stack'
    requires todo[0] in e.files && ListsPath(todo[0], prefix) ==> todo[0] in found'
    ensures Covered(e, prefix, stack', found', todo[1..])
  {
    TodoShrinks(todo);
    hide ListsPath, ProperPath, Keeps, Distinct;
    forall p | p in e.files && ListsPath(p, prefix) && p !in found'
      ensures UnderStack(stack', p) || UnderTodo(todo[1..], p)
    {
      if UnderStack(stack, p) {
        var d :| d in stack && d < p;
        assert d in stack';
      } else {
        assert UnderTodo(todo, p);
        var x :| x in todo && x <= p;
        if x != todo[0] {
          assert x in todo[1..];
        } else if x in e.dirs {
          MatchKeeps(e, x, p, prefix);
          assert x in stack';
        } else {
          NothingBelowFile(e, x, p);
        }
      }
    }
  }

  /** A file entry is put out exactly when its path is a valid key with the prefix. */
  lemma WalkPassesFile(e: Entries, prefix: Str, stack: seq<Path>, visited: set<Path>, found: set<Path>,
                       out: seq<Str>, dir: Path, todo: seq<Path>)
      returns (found': set<Path>)
    requires Shaped(e) && todo != [] && todo[0] in e.files
    requires Walked(e, prefix, stack, visited, found, out, dir, todo)
    ensures todo[0] != []
    ensures Walked(e, prefix, stack, visited, found', if ListsPath(todo[0], prefix) then out + [Join(todo[0])] else out,
                   dir, todo[1..])
  {
    PassingPlaces(e, stack, visited, dir, todo);
    SplitJoin(todo[0]);
    found' := if ListsPath(todo[0], prefix) then found + {todo[0]} else found;
    assert todo[0] !in e.dirs;
    hide Placed, Emitted, Covered, Keeps, ListsPath, Join, Split, Shaped;
    PassingEmits(e, prefix, visited, found, out, todo);
    if ListsPath(todo[0], prefix) {
      EmitOne(e, prefix, visited, found, out, todo[1..], todo[0]);
    }
    PassingCovers(e, prefix, stack, stack, found, found', todo);
  }

  /** When the stack runs out, the output lists exactly the matches, each once. */
  lemma WalkEnds(e: Entries, prefix: Str, visited: set<Path>, found: set<Path>, out: seq<Str>, dir: Path)
    requires Shaped(e) && Walked(e, prefix, [], visited, found, out, dir, [])
    ensures NoDuplicates(out)
    ensures forall k :: k in out <==> k in ListedKeys(e.files, prefix)
  {
    forall k | k in out
      ensures k in ListedKeys(e.files, prefix)
    {
      JoinSplit(k);
      assert Split(k) in e.files && ListsPath(Split(k), prefix);
    }
    forall p | p in e.files && ListsPath(p, prefix)
      ensures Join(p) in out
    {
      assert !UnderStack([], p) && !UnderTodo([], p);
    }
  }
}
