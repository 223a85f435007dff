/** The backup's operations on a mutable file system. */
module BackupFiles {
  import opened Common
  import opened Order
  import opened Cas
  import opened BackupTree
  import opened BackupDigest

  class FileSystem {
    var files: map<Path, Bytes>
    var dirs: set<Path>

    function State(): Fs
      reads this
    {
      Fs(files, dirs)
    }

    constructor (fs: Fs)
      ensures State() == fs
    {
      files, dirs := fs.files, fs.dirs;
    }

    /** Terminates on every finite tree and lists each file under the root once, in path order. */
    method SortedFilesRecursive(root: Path) returns (listing: seq<Path>)
      requires WellFormed(State())
      ensures listing == SortedFiles(State(), root)
    {
      var found: seq<Path> := [];
      if root !in dirs {
        assert FilesUnder(State(), root) == {};
        return [];
      }
      var stack := [root];
      ghost var visited: set<Path> := {};
      while stack != []
        invariant Walking(State(), root, visited, stack, found)
        decreases dirs - visited
      {
        var directory := stack[|stack| - 1];
        var names := SortedNames(State(), directory);
        SortedNamesAreEntries(State(), directory);
        WalkStep(State(), root, visited, stack, found, names);
        stack, found := ReadEntries(directory, names, stack[..|stack| - 1], found);
        visited := visited + {directory};
      }
      WalkDone(State(), root, visited, found);
      return SortPaths(found);
    }

    /** Pushes the subdirectories and collects the other entries, in name order. */
    method ReadEntries(directory: Path, names: seq<string>, stack: seq<Path>, found: seq<Path>)
      returns (pushed: seq<Path>, listed: seq<Path>)
      ensures pushed == stack + Children(State(), directory, names, true)
      ensures listed == found + Children(State(), directory, names, false)
    {
      pushed, listed := stack, found;
      var i := 0;
      while i < |names|
        invariant 0 <= i <= |names|
        invariant pushed == stack + Children(State(), directory, names[..i], true)
        invariant listed == found + Children(State(), directory, names[..i], false)
      {
        ChildrenStep(State(), directory, names, i);
        var path := directory + [names[i]];
        if path in dirs {
          pushed := pushed + [path];
        } else {
          listed := listed + [path];
        }
        i := i + 1;
      }
      assert names[..i] == names;
    }

    method DirectoryStats(root: Path) returns (count: nat, bytes: nat)
      requires WellFormed(State())
      ensures count == |FilesUnder(State(), root)|
      ensures bytes == TotalBytes(files, FilesUnder(State(), root))
    {
      var listing := SortedFilesRecursive(root);
      count, bytes := 0, 0;
      assert First(listing, 0) == {};
      while count < |listing|
        invariant 0 <= count <= |listing|
        invariant First(listing, count) <= files.Keys
        invariant bytes == TotalBytes(files, First(listing, count))
      {
        CountOne(State(), root, count);
        bytes := bytes + |files[listing[count]]|;
        count := count + 1;
      }
      assert listing[..count] == listing;
      assert First(listing, count) == FilesUnder(State(), root);
    }

    /** `hash` is the hash of a text's UTF-8 encoding. */
    method HashDirectory(b3: Blake3, hash: string -> Hex, root: Path) returns (digest: Hex)
      requires WellFormed(State())
      ensures digest == hash(TreeText(b3, RelativeFiles(State(), root)))
    {
      var listing := SortedFilesRecursive(root);
      RelativeEntries(b3, State(), root);
      assert Listable(State(), root, listing);
      var fed := FeedFiles(b3, root, listing);
      digest := hash(fed);
    }

    /** The hashed text: one line for each listed file. */
    method FeedFiles(b3: Blake3, root: Path, listing: seq<Path>) returns (fed: string)
      requires Listable(State(), root, listing)
      ensures fed == Lines(FileEntries(b3, State(), root, listing))
    {
      ghost var entries := FileEntries(b3, State(), root, listing);
      fed := "";
      var i := 0;
      while i < |listing|
        invariant 0 <= i <= |listing|
        invariant fed == Lines(entries[..i])
      {
        LinesStep(entries, i);
        fed := fed + Line(Name(listing[i][|root|..]), b3(files[listing[i]]));
        i := i + 1;
      }
      assert entries[..i] == entries;
    }

    /** The CAS part of creating a generation: copy, then digest the copy. */
    method ReplicateCas(b3: Blake3, hash: string -> Hex, source: Path,
            target: Path) returns (manifest: BackupDigest.CasManifest)
      requires WellFormed(State()) && Apart(source, target) && Clear(State(), source, target) && Empty(State(), target)
      modifies this
      ensures WellFormed(State()) && State() == Copied(old(State()), source, target)
      ensures manifest == Sealed(b3, hash, RelativeFiles(old(State()), source))
    {
      ghost var fs := State();
      var count, _ := CopyDirectoryRecursive(source, target);
      CopyKeepsWellFormed(fs, source, target);
      CopyEqualsSource(fs, source, target);
      RelativeCount(fs, source);
      var digest := HashDirectory(b3, hash, target);
      manifest := BackupDigest.CasManifest(digest, count);
    }

    /** The CAS part of verifying a generation. */
    method VerifyCas(b3: Blake3, hash: string -> Hex, root: Path, manifest: BackupDigest.CasManifest) returns (ok: bool)
      requires WellFormed(State())
      ensures ok <==> Sealed(b3, hash, RelativeFiles(State(), root)) == manifest
    {
      var digest := HashDirectory(b3, hash, root);
      if digest != manifest.digest {
        return false;
      }
      var count, _ := DirectoryStats(root);
      RelativeCount(State(), root);
      return count == manifest.fileCount;
    }

    /** Afterwards the target holds what it held and, over it, the source; everything else is as
        before. The counters are those of the files copied. */
    method CopyDirectoryRecursive(source: Path, target: Path) returns (count: nat, bytes: nat)
      requires SubtreeWellFormed(State(), source) && Apart(source, target) && Clear(State(), source, target)
      modifies this
      ensures State() == Copied(old(State()), source, target)
      ensures count == |FilesUnder(old(State()), source)|
      ensures bytes == TotalBytes(old(files), FilesUnder(old(State()), source))
      decreases DirsUnder(State(), source), 2
    {
      ghost var fs := State();
      dirs := dirs + Prefixes(target);
      WithDirLeavesSource(fs, source, target);
      if source !in dirs {
        NothingToCopy(fs, source, target);
        return 0, 0;
      }
      var names := SortedNames(State(), source);
      SortedNamesAreEntries(State(), source);
      SameNames(fs, State(), source, names);
      NothingCopiedYet(fs, source, target);
      count, bytes := CopyEntries(fs, source, target, names);
      AllEntries(fs, source, names);
    }

    method CopyEntries(ghost fs: Fs, source: Path, target: Path, names: seq<string>) returns (count: nat, bytes: nat)
      requires SubtreeWellFormed(fs, source) && Apart(source, target) && Clear(fs, source, target)
      requires source in fs.dirs && EntryNames(fs, source, names)
      requires Progress(fs, source, target, [], State(), 0, 0)
      modifies this
      ensures Progress(fs, source, target, names, State(), count, bytes)
      decreases DirsUnder(fs, source), 1
    {
      count, bytes := 0, 0;
      var i := 0;
      while i < |names|
        invariant 0 <= i <= |names|
        invariant Progress(fs, source, target, names[..i], State(), count, bytes)
      {
        NextName(names, i);
        assert names[i] in names;
        var childCount, childBytes := CopyEntry(fs, source, target, names[..i], names[i], count, bytes);
        count := count + childCount;
        bytes := bytes + childBytes;
        i := i + 1;
      }
      assert names[..i] == names;
    }

    /** One entry of the source: a subdirectory is copied recursively, a file byte by byte. */
    method CopyEntry(ghost fs: Fs, source: Path, target: Path, ghost done: seq<string>, name: string,
                     ghost count: nat, ghost bytes: nat)
      returns (copied: nat, size: nat)
      requires SubtreeWellFormed(fs, source) && Apart(source, target) && Clear(fs, source, target)
      requires source in fs.dirs && (source + [name] in fs.files || source + [name] in fs.dirs) && name !in done
      requires Progress(fs, source, target, done, State(), count, bytes)
      modifies this
      ensures Progress(fs, source, target, done + [name], State(), count + copied, bytes + size)
      decreases DirsUnder(fs, source), 0
    {
      ghost var st := State();
      SoFarLeavesSource(fs, source, target, done, st);
      SameChild(fs, st, source, source + [name]);
      var path, destination := source + [name], target + [name];
      if path in dirs {
        EntersChild(fs, st, source, target, done, name);
        DirCopied(fs, source, target, done, name, st);
        DirCounted(fs, st, source, done, name);
        copied, size := CopyDirectoryRecursive(path, destination);
      } else {
        FileCopied(fs, source, target, done, name, st);
        FileCounted(fs, source, done, name);
        files := files[destination := files[path]];
        copied, size := 1, |files[destination]|;
      }
    }
  }

  ghost predicate Progress(fs: Fs, source: Path, target: Path, done: seq<string>, st: Fs, count: nat, bytes: nat) {
    && CopiedSoFar(fs, source, target, done, st)
    && count == |FilesAt(fs, source, done)|
    && bytes == TotalBytes(fs.files, FilesAt(fs, source, done))
  }

  lemma NextName(names: seq<string>, i: nat)
    requires i < |names| && Distinct(names)
    ensures names[..i + 1] == names[..i] + [names[i]] && names[i] !in names[..i]
  {
  }

  predicate Listable(fs: Fs, root: Path, listing: seq<Path>) {
    forall i :: 0 <= i < |listing| ==> root <= listing[i] && listing[i] in fs.files
  }

  function FileEntries(b3: Blake3, fs: Fs, root: Path, listing: seq<Path>): (entries: seq<Entry>)
    requires Listable(fs, root, listing)
    ensures |entries| == |listing|
    ensures forall i :: 0 <= i < |listing| ==> entries[i] == Entry(listing[i][|root|..], b3(fs.files[listing[i]]))
  {
    seq(|listing|, i requires 0 <= i < |listing| => Entry(listing[i][|root|..], b3(fs.files[listing[i]])))
  }

  lemma RelativeEntry(b3: Blake3, fs: Fs, root: Path, i: nat)
    requires i < |SortedFiles(fs, root)|
    ensures var m, p := RelativeFiles(fs, root), SortedFiles(fs, root)[i];
            && root <= p && p in fs.files && i < |Listed(m)|
            && EntriesOf(b3, m, Listed(m))[i] == Entry(p[|root|..], b3(fs.files[p]))
  {
    var m, p := RelativeFiles(fs, root), SortedFiles(fs, root)[i];
    RelativeListing(fs, root);
    assert p in SortedFiles(fs, root) && p == root + Listed(m)[i];
    RelativeFile(fs, root, Listed(m)[i]);
    assert Listed(m)[i] in Listed(m);
  }

  /** The entries of the sorted files are those of the relative paths in order. */
  lemma RelativeEntries(b3: Blake3, fs: Fs, root: Path)
    ensures Listable(fs, root, SortedFiles(fs, root))
    ensures var m := RelativeFiles(fs, root);
            FileEntries(b3, fs, root, SortedFiles(fs, root)) == EntriesOf(b3, m, Listed(m))
  {
    RelativeListing(fs, root);
    forall i | 0 <= i < |SortedFiles(fs, root)|
      ensures root <= SortedFiles(fs, root)[i] && SortedFiles(fs, root)[i] in fs.files
      ensures EntriesOf(b3, RelativeFiles(fs, root), Listed(RelativeFiles(fs, root)))[i]
              == Entry(SortedFiles(fs, root)[i][|root|..], b3(fs.files[SortedFiles(fs, root)[i]]))
    {
      RelativeEntry(b3, fs, root, i);
    }
  }

  lemma LinesStep(entries: seq<Entry>, i: nat)
    requires i < |entries|
    ensures Lines(entries[..i + 1]) == Lines(entries[..i]) + Line(Name(entries[i].path), entries[i].hex)
  {
    assert entries[..i + 1][..i] == entries[..i];
  }

  lemma ChildrenStep(fs: Fs, dir: Path, names: seq<string>, i: nat)
    requires i < |names|
    ensures var child := dir + [names[i]];
            && Children(fs, dir, names[..i + 1], true)
               == Children(fs, dir, names[..i], true) + (if child in fs.dirs then [child] else [])
            && Children(fs, dir, names[..i + 1], false)
               == Children(fs, dir, names[..i], false) + (if child in fs.dirs then [] else [child])
  {
    assert names[..i + 1][..i] == names[..i];
  }

  function First(listing: seq<Path>, n: nat): set<Path>
    requires n <= |listing|
  {
    set p | p in listing[..n]
  }

  lemma ListedOnce(fs: Fs, root: Path, i: nat)
    requires i < |SortedFiles(fs, root)|
    ensures SortedFiles(fs, root)[i] !in SortedFiles(fs, root)[..i]
  {
    PathOrder();
    ListingSorted(PATH_LESS, FilesUnder(fs, root));
    SortedDistinct(PATH_LESS, SortedFiles(fs, root));
  }

  lemma CountOne(fs: Fs, root: Path, i: nat)
    requires i < |SortedFiles(fs, root)| && First(SortedFiles(fs, root), i) <= fs.files.Keys
    ensures var listing := SortedFiles(fs, root);
            && listing[i] in fs.files && First(listing, i + 1) <= fs.files.Keys
            && TotalBytes(fs.files, First(listing, i + 1))
               == TotalBytes(fs.files, First(listing, i)) + |fs.files[listing[i]]|
  {
    var listing := SortedFiles(fs, root);
    ListedOnce(fs, root, i);
    assert listing[i] in listing;
    assert listing[..i + 1] == listing[..i] + [listing[i]];
    var next := First(listing, i + 1);
    assert next == First(listing, i) + {listing[i]};
    TotalWithout(fs.files, next, listing[i]);
    assert next - {listing[i]} == First(listing, i);
  }

  lemma NothingToCopy(fs: Fs, source: Path, target: Path)
    requires Apart(source, target) && source !in fs.dirs
    ensures Copied(fs, source, target) == WithDir(fs, target)
    ensures FilesUnder(fs, source) == {} && TotalBytes(fs.files, FilesUnder(fs, source)) == 0
  {
    assert FilesUnder(fs, source) == {} && DirsUnder(fs, source) == {};
    assert Moved(source, target, {}) == {};
  }

  lemma NothingCopiedYet(fs: Fs, source: Path, target: Path)
    requires Apart(source, target) && source in fs.dirs
    ensures CopiedSoFar(fs, source, target, [], WithDir(fs, target))
    ensures FilesAt(fs, source, []) == {} && TotalBytes(fs.files, FilesAt(fs, source, [])) == 0
  {
    assert FilesAt(fs, source, []) == {} && DirsAt(fs, source, []) == {source};
    assert Move(source, target, source) == target;
    assert Moved(source, target, {source}) == {target};
    assert target[..|target|] in Prefixes(target);
    assert Moved(source, target, {}) == {};
  }

  /** The recursive call is allowed and reaches fewer directories. */
  lemma EntersChild(fs: Fs, st: Fs, source: Path, target: Path, done: seq<string>, name: string)
    requires SubtreeWellFormed(fs, source) && Apart(source, target) && Clear(fs, source, target)
    requires CopiedSoFar(fs, source, target, done, st) && source in fs.dirs && source + [name] in st.dirs
    ensures SubtreeWellFormed(st, source + [name]) && Apart(source + [name], target + [name])
    ensures Clear(st, source + [name], target + [name])
    ensures DirsUnder(st, source + [name]) < DirsUnder(fs, source)
  {
    var child := source + [name];
    SoFarLeavesSource(fs, source, target, done, st);
    SameChild(fs, st, source, child);
    ApartChild(source, target, name);
    ClearChild(fs, source, target, done, name, st);
    assert source !in DirsUnder(st, child) && source in DirsUnder(fs, source);
    forall p | (p in st.files || p in st.dirs) && child <= p && p != child ensures Parent(p) in st.dirs {
      assert Parent(p) in fs.dirs;
      assert source <= Parent(p);
    }
  }

  lemma DirCounted(fs: Fs, st: Fs, source: Path, done: seq<string>, name: string)
    requires SubtreeWellFormed(fs, source) && SameUnder(fs, st, source) && name !in done && source + [name] in fs.dirs
    ensures var under := FilesUnder(st, source + [name]);
            && |FilesAt(fs, source, done + [name])| == |FilesAt(fs, source, done)| + |under|
            && TotalBytes(fs.files, FilesAt(fs, source, done + [name]))
               == TotalBytes(fs.files, FilesAt(fs, source, done)) + TotalBytes(st.files, under)
  {
    SameChild(fs, st, source, source + [name]);
    DirEntry(fs, source, done, name);
    var under := FilesUnder(st, source + [name]);
    TotalOfUnion(fs.files, FilesAt(fs, source, done), under);
    TotalSame(fs.files, st.files, under);
  }

  lemma FileCounted(fs: Fs, source: Path, done: seq<string>, name: string)
    requires SubtreeWellFormed(fs, source) && name !in done && source + [name] in fs.files
    ensures |FilesAt(fs, source, done + [name])| == |FilesAt(fs, source, done)| + 1
    ensures TotalBytes(fs.files, FilesAt(fs, source, done + [name]))
            == TotalBytes(fs.files, FilesAt(fs, source, done)) + |fs.files[source + [name]]|
  {
    FileEntry(fs, source, done, name);
    var all, path := FilesAt(fs, source, done + [name]), source + [name];
    TotalWithout(fs.files, all, path);
    assert all - {path} == FilesAt(fs, source, done);
  }

  lemma {:induction false} TotalSame(f: map<Path, Bytes>, g: map<Path, Bytes>, S: set<Path>)
    requires S <= f.Keys && S <= g.Keys && forall p :: p in S ==> f[p] == g[p]
    ensures TotalBytes(f, S) == TotalBytes(g, S)
  {
    if S != {} {
      TotalSame(f, g, S - {Pick(S)});
    }
  }
}
