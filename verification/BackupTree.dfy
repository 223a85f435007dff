/**
 Directory trees and their replication: the explicit-stack walk that lists the files under a
 root, and the recursive copy with its counters. A file system is its file contents and its
 directories; a path is the sequence of its components.
 */
module BackupTree {
  import opened Common
  import opened Order
  import opened Cas

  datatype Fs = Fs(files: map<Path, Bytes>, dirs: set<Path>)

  function Parent(p: Path): Path
    requires p != []
  {
    p[..|p| - 1]
  }

  /** Every entry lies in a directory, and no file is a directory. */
  ghost predicate WellFormed(fs: Fs) {
    && fs.files.Keys !! fs.dirs
    && (forall p :: p in fs.files ==> p != [] && Parent(p) in fs.dirs)
    && (forall p :: p in fs.dirs && p != [] ==> Parent(p) in fs.dirs)
  }

  function FilesUnder(fs: Fs, root: Path): set<Path> {
    set p | p in fs.files && root <= p && root in fs.dirs
  }

  function DirsUnder(fs: Fs, root: Path): set<Path> {
    set p | p in fs.dirs && root <= p && root in fs.dirs
  }

  /** The names `read_dir` yields. */
  function Names(fs: Fs, dir: Path): set<string> {
    (set p | p in fs.files && p != [] && Parent(p) == dir :: p[|p| - 1])
    + (set p | p in fs.dirs && p != [] && Parent(p) == dir :: p[|p| - 1])
  }

  lemma NamesExactly(fs: Fs, dir: Path, name: string)
    ensures name in Names(fs, dir) <==> dir + [name] in fs.files || dir + [name] in fs.dirs
  {
    var child := dir + [name];
    assert Parent(child) == dir && child[|child| - 1] == name;
    if name in Names(fs, dir) {
      var p :| (p in fs.files || p in fs.dirs) && p != [] && Parent(p) == dir && p[|p| - 1] == name;
      assert p == child;
    }
  }

  function SortedNames(fs: Fs, dir: Path): seq<string> {
    SortedKeys(Names(fs, dir))
  }

  /** The names are those of the directory's entries, each once. */
  ghost predicate EntryNames(fs: Fs, dir: Path, names: seq<string>) {
    && Distinct(names)
    && forall n :: n in names <==> dir + [n] in fs.files || dir + [n] in fs.dirs
  }

  lemma SortedNamesAreEntries(fs: Fs, dir: Path)
    ensures EntryNames(fs, dir, SortedNames(fs, dir))
  {
    SortedKeysDistinct(Names(fs, dir));
    forall n ensures n in SortedNames(fs, dir) <==> dir + [n] in fs.files || dir + [n] in fs.dirs {
      NamesExactly(fs, dir, n);
    }
  }

  /** The files under the root, each once, in path order. */
  function SortedFiles(fs: Fs, root: Path): (listing: seq<Path>)
    ensures |listing| == |FilesUnder(fs, root)|
    ensures forall p :: p in listing <==> p in FilesUnder(fs, root)
  {
    PathOrder();
    Listing(PATH_LESS, FilesUnder(fs, root))
  }

  /** `Vec::sort` on paths without repetition. */
  function SortPaths(paths: seq<Path>): seq<Path>
    requires Distinct(paths)
  {
    PathOrder();
    Listing(PATH_LESS, set p | p in paths)
  }

  // ---------------------------------------------------------------- the walk

  /** The children among the names that are directories, or files. */
  function Children(fs: Fs, dir: Path, names: seq<string>, directories: bool): seq<Path> {
    if names == [] then []
    else
      var front := Children(fs, dir, names[..|names| - 1], directories);
      var child := dir + [names[|names| - 1]];
      if (child in fs.dirs) == directories then front + [child] else front
  }

  lemma {:induction false} ChildrenMembers(fs: Fs, dir: Path, names: seq<string>, directories: bool)
    requires Distinct(names)
    ensures var c := Children(fs, dir, names, directories);
            && Distinct(c)
            && forall p :: p in c <==> exists n :: n in names && p == dir + [n] && (p in fs.dirs) == directories
  {
    if names != [] {
      var m := |names| - 1;
      var front, last := names[..m], dir + [names[m]];
      ChildrenMembers(fs, dir, front, directories);
      assert names == front + [names[m]];
      forall n | n in front ensures dir + [n] != last {
        assert (dir + [n])[|dir|] == n && last[|dir|] == names[m];
      }
    }
  }

  ghost predicate Reached(fs: Fs, root: Path, visited: set<Path>, stack: seq<Path>, p: Path) {
    && p in fs.dirs && root <= p
    && (p == root || Parent(p) in visited)
    && (p in visited ==> p !in stack)
  }

  /** What the walk has done: directories are stacked after their parents were visited, and the
      files found are those of the visited directories. */
  ghost predicate Walking(fs: Fs, root: Path, visited: set<Path>, stack: seq<Path>, found: seq<Path>) {
    && Distinct(stack) && Distinct(found)
    && (root in visited || root in stack)
    && (forall p :: p in visited || p in stack ==> Reached(fs, root, visited, stack, p))
    && (forall p :: p in fs.dirs && p != [] && Parent(p) in visited ==> p in visited || p in stack)
    && (forall p :: p in found <==> p in fs.files && p != [] && Parent(p) in visited)
  }

  lemma AppendDistinct(s: seq<Path>, t: seq<Path>)
    requires Distinct(s) && Distinct(t) && forall p :: p in s ==> p !in t
    ensures Distinct(s + t)
  {
    var all := s + t;
    forall i, j | 0 <= i < j < |all| ensures all[i] != all[j] {
      if i < |s| && |s| <= j {
        assert s[i] in s && t[j - |s|] in t;
      } else if |s| <= i {
        assert all[i] == t[i - |s|] && all[j] == t[j - |s|];
      }
    }
  }

  lemma StackTop(stack: seq<Path>)
    requires stack != [] && Distinct(stack)
    ensures Distinct(stack[..|stack| - 1]) && stack[|stack| - 1] !in stack[..|stack| - 1]
    ensures forall p :: p in stack <==> p in stack[..|stack| - 1] || p == stack[|stack| - 1]
  {
    assert stack == stack[..|stack| - 1] + [stack[|stack| - 1]];
  }

  /** The children of a directory are exactly the entries with it as parent. */
  lemma ChildrenOf(fs: Fs, dir: Path, names: seq<string>, p: Path)
    requires WellFormed(fs) && EntryNames(fs, dir, names)
    ensures p in Children(fs, dir, names, true) <==> p in fs.dirs && p != [] && Parent(p) == dir
    ensures p in Children(fs, dir, names, false) <==> p in fs.files && p != [] && Parent(p) == dir
  {
    ChildrenMembers(fs, dir, names, true);
    ChildrenMembers(fs, dir, names, false);
    if p != [] && Parent(p) == dir {
      assert p == dir + [p[|p| - 1]];
    }
    forall n | n in names && p == dir + [n] ensures p != [] && Parent(p) == dir && (p in fs.files || p in fs.dirs) {
    }
  }

  lemma StackGrows(fs: Fs, root: Path, visited: set<Path>, stack: seq<Path>, found: seq<Path>, names: seq<string>)
    requires WellFormed(fs) && Walking(fs, root, visited, stack, found) && stack != []
    requires EntryNames(fs, stack[|stack| - 1], names)
    ensures var dir := stack[|stack| - 1];
            var stack' := stack[..|stack| - 1] + Children(fs, dir, names, true);
            && dir in fs.dirs && dir !in visited && Distinct(stack')
            && forall p :: p in visited + {dir} || p in stack' ==> Reached(fs, root, visited + {dir}, stack', p)
  {
    var dir, rest := stack[|stack| - 1], stack[..|stack| - 1];
    var children := Children(fs, dir, names, true);
    StackTop(stack);
    assert dir in stack && Reached(fs, root, visited, stack, dir);
    ChildrenMembers(fs, dir, names, true);
    forall p | p in children
      ensures p in fs.dirs && p != [] && Parent(p) == dir && p != dir && root <= p && p !in rest && p !in visited
    {
      ChildrenOf(fs, dir, names, p);
      assert p == dir + [p[|p| - 1]];
      assert p in stack || p in visited ==> Reached(fs, root, visited, stack, p);
    }
    AppendDistinct(rest, children);
    forall p | p in visited + {dir} || p in rest + children
      ensures Reached(fs, root, visited + {dir}, rest + children, p)
    {
      if p in visited || p in stack {
        assert Reached(fs, root, visited, stack, p);
      }
    }
  }

  lemma FilesGrow(fs: Fs, root: Path, visited: set<Path>, stack: seq<Path>, found: seq<Path>, dir: Path,
          names: seq<string>)
    requires WellFormed(fs) && Walking(fs, root, visited, stack, found) && dir !in visited
    requires EntryNames(fs, dir, names)
    ensures var found' := found + Children(fs, dir, names, false);
            && Distinct(found')
            && forall p :: p in found' <==> p in fs.files && p != [] && Parent(p) in visited + {dir}
  {
    var files := Children(fs, dir, names, false);
    ChildrenMembers(fs, dir, names, false);
    forall p ensures p in files <==> p in fs.files && p != [] && Parent(p) == dir {
      ChildrenOf(fs, dir, names, p);
    }
    AppendDistinct(found, files);
  }

  lemma ChildDirKept(fs: Fs, root: Path, visited: set<Path>, stack: seq<Path>, found: seq<Path>, names: seq<string>,
          p: Path)
    requires WellFormed(fs) && Walking(fs, root, visited, stack, found) && stack != []
    requires EntryNames(fs, stack[|stack| - 1], names)
    requires p in fs.dirs && p != [] && Parent(p) in visited + {stack[|stack| - 1]}
    ensures var dir := stack[|stack| - 1];
            p in visited + {dir} || p in stack[..|stack| - 1] + Children(fs, dir, names, true)
  {
    StackTop(stack);
    ChildrenOf(fs, stack[|stack| - 1], names, p);
  }

  /** Visiting the directory on top of the stack keeps the walk on course. */
  lemma WalkStep(fs: Fs, root: Path, visited: set<Path>, stack: seq<Path>, found: seq<Path>, names: seq<string>)
    requires WellFormed(fs) && Walking(fs, root, visited, stack, found) && stack != []
    requires EntryNames(fs, stack[|stack| - 1], names)
    ensures var dir := stack[|stack| - 1];
            && dir in fs.dirs && dir !in visited
            && Walking(fs, root, visited + {dir},
                       stack[..|stack| - 1] + Children(fs, dir, names, true), found + Children(fs, dir, names, false))
  {
    var dir, rest := stack[|stack| - 1], stack[..|stack| - 1];
    var children := Children(fs, dir, names, true);
    StackGrows(fs, root, visited, stack, found, names);
    FilesGrow(fs, root, visited, stack, found, dir, names);
    StackTop(stack);
    forall p | p in fs.dirs && p != [] && Parent(p) in visited + {dir}
      ensures p in visited + {dir} || p in rest + children
    {
      ChildDirKept(fs, root, visited, stack, found, names, p);
    }
  }

  lemma {:induction false} AllVisited(fs: Fs, root: Path, visited: set<Path>, found: seq<Path>, p: Path)
    requires WellFormed(fs) && Walking(fs, root, visited, [], found)
    requires p in fs.dirs && root <= p
    ensures p in visited
    decreases |p|
  {
    if p != root {
      assert root <= Parent(p);
      AllVisited(fs, root, visited, found, Parent(p));
    }
  }

  lemma WalkDone(fs: Fs, root: Path, visited: set<Path>, found: seq<Path>)
    requires WellFormed(fs) && root in fs.dirs && Walking(fs, root, visited, [], found)
    ensures SortPaths(found) == SortedFiles(fs, root)
  {
    forall p ensures p in found <==> p in FilesUnder(fs, root) {
      if p in found {
        assert Reached(fs, root, visited, [], Parent(p));
        assert Parent(p) <= p;
      }
      if p in FilesUnder(fs, root) {
        assert root != p;
        assert root <= Parent(p);
        AllVisited(fs, root, visited, found, Parent(p));
      }
    }
    assert (set p | p in found) == FilesUnder(fs, root);
  }

  // ---------------------------------------------------------------- sizes

  ghost function Pick(S: set<Path>): (x: Path)
    requires S != {}
    ensures x in S
  {
    var x :| x in S;
    x
  }

  ghost function TotalBytes(files: map<Path, Bytes>, S: set<Path>): nat
    requires S <= files.Keys
  {
    if S == {} then 0 else |files[Pick(S)]| + TotalBytes(files, S - {Pick(S)})
  }

  lemma {:induction false} TotalWithout(files: map<Path, Bytes>, S: set<Path>, x: Path)
    requires S <= files.Keys && x in S
    ensures TotalBytes(files, S) == |files[x]| + TotalBytes(files, S - {x})
  {
    var y := Pick(S);
    if x != y {
      TotalWithout(files, S - {y}, x);
      TotalWithout(files, S - {x}, y);
      assert S - {y} - {x} == S - {x} - {y};
    }
  }

  lemma {:induction false} TotalOfUnion(files: map<Path, Bytes>, S: set<Path>, T: set<Path>)
    requires S + T <= files.Keys && S !! T
    ensures TotalBytes(files, S + T) == TotalBytes(files, S) + TotalBytes(files, T)
    decreases T
  {
    if T == {} {
      assert S + T == S;
    } else {
      var x := Pick(T);
      TotalWithout(files, S + T, x);
      assert S + T - {x} == S + (T - {x});
      TotalOfUnion(files, S, T - {x});
    }
  }

  // ---------------------------------------------------------------- the copy

  function Move(source: Path, target: Path, p: Path): Path
    requires source <= p
  {
    target + p[|source|..]
  }

  lemma MoveBack(source: Path, target: Path, p: Path)
    requires source <= p
    ensures target <= Move(source, target, p) && Move(target, source, Move(source, target, p)) == p
  {
    assert Move(source, target, p)[|target|..] == p[|source|..];
    assert p == source + p[|source|..];
  }

  /** The file system with the files F and directories D of the source moved over. */
  function Overlay(fs: Fs, source: Path, target: Path, F: set<Path>, D: set<Path>): Fs
    requires forall p :: p in F ==> p in fs.files && source <= p
    requires forall p :: p in D ==> source <= p
  {
    Fs(fs.files + MovedFiles(fs.files, source, target, F), fs.dirs + Moved(source, target, D))
  }

  function MovedFiles(files: map<Path, Bytes>, source: Path, target: Path, F: set<Path>): (moved: map<Path, Bytes>)
    requires forall p :: p in F ==> p in files && source <= p
    ensures moved.Keys == Moved(source, target, F)
  {
    MovedBack(source, target, F);
    map p | p in Moved(source, target, F) :: files[Move(target, source, p)]
  }

  function Moved(source: Path, target: Path, F: set<Path>): set<Path>
    requires forall p :: p in F ==> source <= p
  {
    set p | p in F :: Move(source, target, p)
  }

  lemma MovedBack(source: Path, target: Path, F: set<Path>)
    requires forall p :: p in F ==> source <= p
    ensures forall p :: p in Moved(source, target, F) ==> target <= p && Move(target, source, p) in F
  {
    forall p | p in Moved(source, target, F) ensures target <= p && Move(target, source, p) in F {
      var q :| q in F && Move(source, target, q) == p;
      MoveBack(source, target, q);
    }
  }

  function Prefixes(p: Path): set<Path> {
    set i | 0 <= i <= |p| :: p[..i]
  }

  function WithDir(fs: Fs, dir: Path): Fs {
    fs.(dirs := fs.dirs + Prefixes(dir))
  }

  function Copied(fs: Fs, source: Path, target: Path): Fs {
    Overlay(WithDir(fs, target), source, target, FilesUnder(fs, source), DirsUnder(fs, source))
  }

  /** Neither directory lies inside the other. */
  predicate Apart(source: Path, target: Path) {
    !(source <= target) && !(target <= source)
  }

  /** The part of the file system at and under a path is well formed. */
  ghost predicate SubtreeWellFormed(fs: Fs, source: Path) {
    && (forall p :: p in fs.files && source <= p ==> p !in fs.dirs)
    && (forall p :: (p in fs.files || p in fs.dirs) && source <= p && p != source ==> Parent(p) in fs.dirs)
  }

  /** No directory of one side meets a file of the other, so that no call fails. */
  ghost predicate Clear(fs: Fs, source: Path, target: Path) {
    && (forall q :: q in Prefixes(target) ==> q !in fs.files)
    && (forall p :: p in DirsUnder(fs, source) ==> Move(source, target, p) !in fs.files)
    && (forall p :: p in FilesUnder(fs, source) ==> Move(source, target, p) !in fs.dirs)
  }

  ghost predicate SameUnder(fs: Fs, st: Fs, source: Path) {
    && (forall p :: source <= p ==> (p in fs.files <==> p in st.files) && (p in fs.dirs <==> p in st.dirs))
    && (forall p :: source <= p && p in fs.files ==> fs.files[p] == st.files[p])
  }

  lemma MovedApart(source: Path, target: Path, p: Path, q: Path)
    requires Apart(source, target) && source <= p && target <= q
    ensures p != q
  {
    if |source| <= |target| {
      assert q[..|source|] == target[..|source|] != source;
    } else {
      assert p[..|target|] == source[..|target|] != target;
    }
  }

  lemma OverlayLeavesSource(fs: Fs, source: Path, target: Path, F: set<Path>, D: set<Path>)
    requires Apart(source, target)
    requires forall p :: p in F ==> p in fs.files && source <= p
    requires forall p :: p in D ==> source <= p
    ensures SameUnder(fs, Overlay(fs, source, target, F, D), source)
  {
    MovedBack(source, target, F);
    MovedBack(source, target, D);
    forall p | source <= p ensures p !in Moved(source, target, F) && p !in Moved(source, target, D) {
      if target <= p {
        MovedApart(source, target, p, p);
      }
    }
  }

  lemma WithDirLeavesSource(fs: Fs, source: Path, target: Path)
    requires Apart(source, target)
    ensures SameUnder(fs, WithDir(fs, target), source)
  {
    forall p | p in Prefixes(target) ensures !(source <= p) {
    }
  }

  lemma SameNames(fs: Fs, st: Fs, source: Path, names: seq<string>)
    requires SameUnder(fs, st, source) && EntryNames(st, source, names)
    ensures EntryNames(fs, source, names)
  {
  }

  lemma SameChild(fs: Fs, st: Fs, source: Path, child: Path)
    requires SameUnder(fs, st, source) && source <= child
    ensures SameUnder(fs, st, child)
    ensures FilesUnder(fs, child) == FilesUnder(st, child) && DirsUnder(fs, child) == DirsUnder(st, child)
  {
  }

  lemma MovedUnion(source: Path, target: Path, F: set<Path>, F': set<Path>)
    requires forall p :: p in F ==> source <= p
    requires forall p :: p in F' ==> source <= p
    ensures forall p :: p in F + F' ==> source <= p
    ensures Moved(source, target, F + F') == Moved(source, target, F) + Moved(source, target, F')
  {
  }

  lemma MovedFilesUnion(files: map<Path, Bytes>, source: Path, target: Path, F: set<Path>, F': set<Path>)
    requires forall p :: p in F ==> p in files && source <= p
    requires forall p :: p in F' ==> p in files && source <= p
    ensures forall p :: p in F + F' ==> source <= p
    ensures MovedFiles(files, source, target, F + F')
            == MovedFiles(files, source, target, F) + MovedFiles(files, source, target, F')
  {
    MovedUnion(source, target, F, F');
  }

  lemma AddThree(a: map<Path, Bytes>, b: map<Path, Bytes>, c: map<Path, Bytes>)
    ensures a + b + c == a + (b + c)
  {
  }

  /** What was moved stays in place when more is moved over it. */
  lemma OverlayTwice(fs: Fs, source: Path, target: Path, F: set<Path>, D: set<Path>, F': set<Path>, D': set<Path>)
    requires Apart(source, target)
    requires forall p :: p in F ==> p in fs.files && source <= p
    requires forall p :: p in F' ==> p in fs.files && source <= p
    requires forall p :: p in D ==> source <= p
    requires forall p :: p in D' ==> source <= p
    ensures forall p :: p in F' ==> p in Overlay(fs, source, target, F, D).files
    ensures Overlay(Overlay(fs, source, target, F, D), source, target, F', D')
            == Overlay(fs, source, target, F + F', D + D')
  {
    var st := Overlay(fs, source, target, F, D);
    OverlayLeavesSource(fs, source, target, F, D);
    MovedFilesUnion(fs.files, source, target, F, F');
    MovedUnion(source, target, D, D');
    var a, b := MovedFiles(fs.files, source, target, F), MovedFiles(fs.files, source, target, F');
    assert MovedFiles(st.files, source, target, F') == b by {
      MovedBack(source, target, F');
    }
    AddThree(fs.files, a, b);
  }

  lemma MoveChild(source: Path, target: Path, name: string, p: Path)
    requires source + [name] <= p
    ensures source <= p && Move(source + [name], target + [name], p) == Move(source, target, p)
  {
    var child := source + [name];
    assert p == child + p[|child|..];
    assert p[|source|..] == [name] + p[|child|..];
  }

  lemma MovedChild(source: Path, target: Path, name: string, F: set<Path>)
    requires forall p :: p in F ==> source + [name] <= p
    ensures forall p :: p in F ==> source <= p
    ensures Moved(source + [name], target + [name], F) == Moved(source, target, F)
  {
    forall p | p in F ensures source <= p && Move(source + [name], target + [name], p) == Move(source, target, p) {
      MoveChild(source, target, name, p);
    }
  }

  lemma OverlayChild(fs: Fs, source: Path, target: Path, name: string, F: set<Path>, D: set<Path>)
    requires forall p :: p in F ==> p in fs.files && source + [name] <= p
    requires forall p :: p in D ==> source + [name] <= p
    ensures forall p :: p in F + D ==> source <= p
    ensures Overlay(fs, source + [name], target + [name], F, D) == Overlay(fs, source, target, F, D)
  {
    MovedChild(source, target, name, F);
    MovedChild(source, target, name, D);
    MovedBack(source, target, F);
    forall p | p in Moved(source, target, F)
      ensures target + [name] <= p && Move(target + [name], source + [name], p) == Move(target, source, p)
    {
      MovedBack(source + [name], target + [name], F);
      MoveChild(target, source, name, p);
    }
  }

  /** Copying a subdirectory amounts to moving over what lies under it. */
  lemma CopiedChild(fs: Fs, source: Path, target: Path, name: string)
    requires source + [name] in fs.dirs && Prefixes(target) <= fs.dirs
    ensures forall p :: p in FilesUnder(fs, source + [name]) + DirsUnder(fs, source + [name]) ==> source <= p
    ensures Copied(fs, source + [name], target + [name])
            == Overlay(fs, source, target, FilesUnder(fs, source + [name]), DirsUnder(fs, source + [name]))
  {
    var child, goal := source + [name], target + [name];
    OverlayChild(fs, source, target, name, FilesUnder(fs, child), DirsUnder(fs, child));
    assert child in DirsUnder(fs, child) && Move(child, goal, child) == goal;
    forall q | q in Prefixes(goal) ensures q in fs.dirs || q == goal {
      assert |q| <= |target| ==> q == target[..|q|];
    }
    assert goal in Prefixes(goal) by {
      assert goal[..|goal|] == goal;
    }
  }

  // ---------------------------------------------------------------- entry by entry

  function FilesAt(fs: Fs, source: Path, names: seq<string>): set<Path> {
    set p | p in fs.files && source < p && p[|source|] in names
  }

  function DirsAt(fs: Fs, source: Path, names: seq<string>): set<Path> {
    {source} + set p | p in fs.dirs && source < p && p[|source|] in names
  }

  lemma {:induction false} AncestorIsDir(fs: Fs, source: Path, q: Path, p: Path)
    requires SubtreeWellFormed(fs, source) && (p in fs.files || p in fs.dirs) && source < q < p
    ensures q in fs.dirs
    decreases |p|
  {
    assert q <= Parent(p);
    if Parent(p) != q {
      AncestorIsDir(fs, source, q, Parent(p));
    }
  }

  lemma ChildOf(source: Path, p: Path)
    requires source < p
    ensures source < source + [p[|source|]] <= p
  {
  }

  lemma DirEntry(fs: Fs, source: Path, done: seq<string>, name: string)
    requires SubtreeWellFormed(fs, source) && name !in done && source + [name] in fs.dirs
    ensures FilesAt(fs, source, done + [name]) == FilesAt(fs, source, done) + FilesUnder(fs, source + [name])
    ensures FilesAt(fs, source, done) !! FilesUnder(fs, source + [name])
    ensures DirsAt(fs, source, done + [name]) == DirsAt(fs, source, done) + DirsUnder(fs, source + [name])
  {
    var child := source + [name];
    forall p | source < p ensures child <= p <==> p[|source|] == name {
      ChildOf(source, p);
      assert child <= p ==> p[|source|] == child[|source|];
    }
    assert source < child;
  }

  lemma FileEntry(fs: Fs, source: Path, done: seq<string>, name: string)
    requires SubtreeWellFormed(fs, source) && name !in done && source + [name] in fs.files
    ensures FilesAt(fs, source, done + [name]) == FilesAt(fs, source, done) + {source + [name]}
    ensures source + [name] !in FilesAt(fs, source, done)
    ensures DirsAt(fs, source, done + [name]) == DirsAt(fs, source, done)
  {
    var child := source + [name];
    assert source < child;
    forall p | (p in fs.files || p in fs.dirs) && source < p && p[|source|] == name ensures p == child {
      ChildOf(source, p);
      if p != child {
        AncestorIsDir(fs, source, child, p);
      }
    }
  }

  lemma AllEntries(fs: Fs, source: Path, names: seq<string>)
    requires SubtreeWellFormed(fs, source) && source in fs.dirs
    requires EntryNames(fs, source, names)
    ensures FilesAt(fs, source, names) == FilesUnder(fs, source)
    ensures DirsAt(fs, source, names) == DirsUnder(fs, source)
  {
    forall p | (p in fs.files || p in fs.dirs) && source < p ensures p[|source|] in names {
      var child := source + [p[|source|]];
      ChildOf(source, p);
      if p != child {
        AncestorIsDir(fs, source, child, p);
      }
    }
    assert FilesAt(fs, source, names) <= FilesUnder(fs, source);
    forall p | p in FilesUnder(fs, source) ensures p in FilesAt(fs, source, names) {
      assert p != source;
    }
    forall p | p in DirsUnder(fs, source) ensures p in DirsAt(fs, source, names) {
      assert p == source || source < p;
    }
  }

  /** The state after the entries so far. */
  ghost predicate CopiedSoFar(fs: Fs, source: Path, target: Path, done: seq<string>, st: Fs) {
    st == Overlay(WithDir(fs, target), source, target, FilesAt(fs, source, done), DirsAt(fs, source, done))
  }

  lemma SoFarLeavesSource(fs: Fs, source: Path, target: Path, done: seq<string>, st: Fs)
    requires Apart(source, target) && CopiedSoFar(fs, source, target, done, st)
    ensures SameUnder(fs, st, source)
    ensures Prefixes(target) <= st.dirs
  {
    WithDirLeavesSource(fs, source, target);
    OverlayLeavesSource(WithDir(fs, target), source, target, FilesAt(fs, source, done), DirsAt(fs, source, done));
  }

  /** Moving more over the state so far. */
  lemma MoveMore(fs: Fs, source: Path, target: Path, done: seq<string>, st: Fs, F: set<Path>, D: set<Path>)
    requires Apart(source, target) && CopiedSoFar(fs, source, target, done, st)
    requires forall p :: p in F ==> p in fs.files && source <= p
    requires forall p :: p in D ==> source <= p
    ensures forall p :: p in F ==> p in st.files
    ensures Overlay(st, source, target, F, D)
            == Overlay(WithDir(fs, target), source, target, FilesAt(fs, source, done) + F, DirsAt(fs, source, done) + D)
  {
    OverlayTwice(WithDir(fs, target), source, target, FilesAt(fs, source, done), DirsAt(fs, source, done), F, D);
  }

  lemma DirCopied(fs: Fs, source: Path, target: Path, done: seq<string>, name: string, st: Fs)
    requires Apart(source, target) && SubtreeWellFormed(fs, source) && CopiedSoFar(fs, source, target, done, st)
    requires name !in done && source + [name] in fs.dirs
    ensures CopiedSoFar(fs, source, target, done + [name], Copied(st, source + [name], target + [name]))
  {
    var child := source + [name];
    var F, D := FilesUnder(fs, child), DirsUnder(fs, child);
    UnderChild(fs, source, child);
    MoveMore(fs, source, target, done, st, F, D);
    DirEntry(fs, source, done, name);
    CopiedChildSoFar(fs, source, target, done, name, st);
  }

  lemma UnderChild(fs: Fs, source: Path, child: Path)
    requires source <= child
    ensures forall p :: p in FilesUnder(fs, child) ==> p in fs.files && source <= p
    ensures forall p :: p in DirsUnder(fs, child) ==> source <= p
  {
  }

  lemma CopiedChildSoFar(fs: Fs, source: Path, target: Path, done: seq<string>, name: string, st: Fs)
    requires Apart(source, target) && CopiedSoFar(fs, source, target, done, st) && source + [name] in fs.dirs
    ensures var child := source + [name];
            && FilesUnder(fs, child) <= st.files.Keys
            && (forall p :: p in FilesUnder(fs, child) + DirsUnder(fs, child) ==> source <= p)
            && Copied(st, child, target + [name])
               == Overlay(st, source, target, FilesUnder(fs, child), DirsUnder(fs, child))
  {
    SoFarLeavesSource(fs, source, target, done, st);
    SameChild(fs, st, source, source + [name]);
    CopiedChild(st, source, target, name);
  }

  lemma FileCopied(fs: Fs, source: Path, target: Path, done: seq<string>, name: string, st: Fs)
    requires Apart(source, target) && SubtreeWellFormed(fs, source) && CopiedSoFar(fs, source, target, done, st)
    requires name !in done && source + [name] in fs.files
    ensures source + [name] in st.files && st.files[source + [name]] == fs.files[source + [name]]
    ensures CopiedSoFar(fs, source, target, done + [name],
                        st.(files := st.files[target + [name] := st.files[source + [name]]]))
  {
    SoFarLeavesSource(fs, source, target, done, st);
    FileEntry(fs, source, done, name);
    MoveMore(fs, source, target, done, st, {source + [name]}, {});
    OverlayFile(st, source, target, name);
    NothingMore(DirsAt(fs, source, done));
  }

  lemma NothingMore(D: set<Path>)
    ensures D + {} == D
  {
  }

  lemma OverlayFile(st: Fs, source: Path, target: Path, name: string)
    requires source + [name] in st.files
    ensures Overlay(st, source, target, {source + [name]}, {})
            == st.(files := st.files[target + [name] := st.files[source + [name]]])
  {
    var child := source + [name];
    assert Move(source, target, child) == target + [name];
    MoveBack(source, target, child);
    assert Moved(source, target, {child}) == {target + [name]};
  }

  lemma MovedNotElsewhere(fs: Fs, source: Path, target: Path, done: seq<string>, p: Path)
    requires SubtreeWellFormed(fs, source) && source < p
    ensures Move(source, target, p) !in Prefixes(target)
    ensures Move(source, target, p) in Moved(source, target, DirsAt(fs, source, done)) ==> p in fs.dirs || p == source
    ensures Move(source, target, p) in Moved(source, target, FilesAt(fs, source, done)) ==> p in fs.files
  {
    MovedBack(source, target, DirsAt(fs, source, done));
    MovedBack(source, target, FilesAt(fs, source, done));
    MoveBack(source, target, p);
  }

  /** What has been copied does not get in the way of the next subdirectory. */
  lemma ClearChild(fs: Fs, source: Path, target: Path, done: seq<string>, name: string, st: Fs)
    requires Apart(source, target) && SubtreeWellFormed(fs, source) && Clear(fs, source, target)
    requires CopiedSoFar(fs, source, target, done, st) && source + [name] in fs.dirs && source in fs.dirs
    ensures Clear(st, source + [name], target + [name])
  {
    var child, goal := source + [name], target + [name];
    SoFarLeavesSource(fs, source, target, done, st);
    SameChild(fs, st, source, child);
    forall p | p in DirsUnder(st, child) ensures Move(child, goal, p) !in st.files {
      MoveChild(source, target, name, p);
      MovedNotElsewhere(fs, source, target, done, p);
      assert p in DirsUnder(fs, source);
    }
    forall p | p in FilesUnder(st, child) ensures Move(child, goal, p) !in st.dirs {
      MoveChild(source, target, name, p);
      MovedNotElsewhere(fs, source, target, done, p);
      assert p in FilesUnder(fs, source);
    }
    forall q | q in Prefixes(goal) ensures q !in st.files {
      if |q| <= |target| {
        assert q == target[..|q|] && q in Prefixes(target);
        MovedBack(source, target, FilesAt(fs, source, done));
      } else {
        assert q == goal == Move(child, goal, child) && child in DirsUnder(st, child);
      }
    }
  }

  lemma ApartChild(source: Path, target: Path, name: string)
    requires Apart(source, target)
    ensures Apart(source + [name], target + [name])
  {
    var s, t := source + [name], target + [name];
    if |source| <= |target| {
      assert s[..|source|] == source && t[..|source|] == target[..|source|];
    } else {
      assert t[..|target|] == target && s[..|target|] == source[..|target|];
    }
  }
}
