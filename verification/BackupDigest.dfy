/**
 What replication and verification of a backup establish: the copy is the source tree, its
 counters are those of the copy, and the line digest determines the files.
 */
module BackupDigest {
  import opened Common
  import opened Order
  import opened Cas
  import opened BackupTree
  import SnapshotRefs

  // ---------------------------------------------------------------- the copy is the source

  /** The files under the root by relative path. */
  function RelativeFiles(fs: Fs, root: Path): map<Path, Bytes> {
    MovedFiles(fs.files, root, [], FilesUnder(fs, root))
  }

  /** Nothing lies under the path. */
  predicate Empty(fs: Fs, target: Path) {
    && (forall p :: p in fs.files ==> !(target <= p))
    && (forall p :: p in fs.dirs && target <= p ==> p == target)
  }

  lemma RelativeFile(fs: Fs, root: Path, q: Path)
    ensures q in RelativeFiles(fs, root) <==> root + q in FilesUnder(fs, root)
    ensures q in RelativeFiles(fs, root) ==> RelativeFiles(fs, root)[q] == fs.files[root + q]
  {
    MovedBack(root, [], FilesUnder(fs, root));
    if root + q in FilesUnder(fs, root) {
      assert Move(root, [], root + q) == q;
    }
  }

  lemma CopiedFile(fs: Fs, source: Path, target: Path, q: Path)
    requires Apart(source, target)
    ensures var c := Copied(fs, source, target);
            && (target + q in c.files <==> target + q in fs.files || source + q in FilesUnder(fs, source))
            && (target + q in c.files ==>
                  c.files[target + q]
                  == if source + q in FilesUnder(fs, source) then fs.files[source + q] else fs.files[target + q])
  {
    var F := FilesUnder(fs, source);
    MovedBack(source, target, F);
    assert Move(target, source, target + q) == source + q;
    assert Move(source, target, source + q) == target + q;
  }

  lemma TargetIsDir(fs: Fs, source: Path, target: Path)
    ensures target in Copied(fs, source, target).dirs
  {
    assert target[..|target|] == target && target[..|target|] in Prefixes(target);
  }

  lemma CopiedEntry(fs: Fs, source: Path, target: Path, q: Path)
    requires Apart(source, target) && (target in fs.dirs || Empty(fs, target))
    ensures var x := RelativeFiles(Copied(fs, source, target), target);
            var y := RelativeFiles(fs, target) + RelativeFiles(fs, source);
            (q in x <==> q in y) && (q in x ==> x[q] == y[q])
  {
    TargetIsDir(fs, source, target);
    RelativeFile(Copied(fs, source, target), target, q);
    RelativeFile(fs, target, q);
    RelativeFile(fs, source, q);
    CopiedFile(fs, source, target, q);
    assert target <= target + q;
  }

  /** The target afterwards holds what it held, with the source's files put over it. */
  lemma CopyPutsSourceOver(fs: Fs, source: Path, target: Path)
    requires Apart(source, target) && (target in fs.dirs || Empty(fs, target))
    ensures RelativeFiles(Copied(fs, source, target), target) == RelativeFiles(fs, target) + RelativeFiles(fs, source)
  {
    forall q: Path {
      CopiedEntry(fs, source, target, q);
    }
    SameMaps(RelativeFiles(Copied(fs, source, target), target), RelativeFiles(fs, target) + RelativeFiles(fs, source));
  }

  lemma SameMaps(x: map<Path, Bytes>, y: map<Path, Bytes>)
    requires forall q :: (q in x <==> q in y) && (q in x ==> x[q] == y[q])
    ensures x == y
  {
    assert x.Keys == y.Keys;
  }

  lemma NothingIn(fs: Fs, target: Path)
    requires Empty(fs, target)
    ensures RelativeFiles(fs, target) == map[]
  {
    assert FilesUnder(fs, target) == {};
  }

  lemma FilesAreCopied(fs: Fs, source: Path, target: Path)
    requires Apart(source, target) && Empty(fs, target)
    ensures RelativeFiles(Copied(fs, source, target), target) == RelativeFiles(fs, source)
  {
    CopyPutsSourceOver(fs, source, target);
    NothingIn(fs, target);
    AddToNothing(RelativeFiles(fs, source));
  }

  lemma AddToNothing(m: map<Path, Bytes>)
    ensures map[] + m == m
  {
  }

  /** Copying into an empty target gives the source's files and directories. */
  lemma CopyEqualsSource(fs: Fs, source: Path, target: Path)
    requires Apart(source, target) && Empty(fs, target)
    ensures RelativeFiles(Copied(fs, source, target), target) == RelativeFiles(fs, source)
    ensures source in fs.dirs ==> SameDirs(fs, source, Copied(fs, source, target), target)
  {
    FilesAreCopied(fs, source, target);
    if source in fs.dirs {
      DirsAreCopied(fs, source, target);
    }
  }

  /** The directories under the two roots have the same relative paths. */
  ghost predicate SameDirs(fs: Fs, source: Path, st: Fs, target: Path) {
    forall q :: target + q in st.dirs <==> source + q in fs.dirs
  }

  lemma DirsAreCopied(fs: Fs, source: Path, target: Path)
    requires Apart(source, target) && Empty(fs, target) && source in fs.dirs
    ensures SameDirs(fs, source, Copied(fs, source, target), target)
  {
    forall q: Path {
      CopiedDir(fs, source, target, q);
    }
  }

  /** Outside the target nothing changes but the directories leading to it. */
  lemma CopyTouchesTargetOnly(fs: Fs, source: Path, target: Path, p: Path)
    requires Apart(source, target) && !(target <= p)
    ensures var c := Copied(fs, source, target);
            && (p in c.files <==> p in fs.files) && (p in c.files ==> c.files[p] == fs.files[p])
            && (p in c.dirs <==> p in fs.dirs || p in Prefixes(target))
  {
    MovedBack(source, target, FilesUnder(fs, source));
    MovedBack(source, target, DirsUnder(fs, source));
  }

  lemma CopiedDir(fs: Fs, source: Path, target: Path, q: Path)
    requires Apart(source, target) && Empty(fs, target) && source in fs.dirs
    ensures target + q in Copied(fs, source, target).dirs <==> source + q in fs.dirs
  {
    MovedBack(source, target, DirsUnder(fs, source));
    assert Move(target, source, target + q) == source + q;
    assert Move(source, target, source + q) == target + q;
    if target + q in Prefixes(target) || target + q == target {
      assert |target + q| <= |target|;
      assert q == [];
      assert source + q == source && target + q == target;
      assert Move(source, target, source) == target;
    }
  }

  lemma {:induction false} TotalMoved(f: map<Path, Bytes>, g: map<Path, Bytes>, source: Path, target: Path,
          F: set<Path>)
    requires forall p :: p in F ==> p in f && source <= p && Move(source, target, p) in g
    requires forall p :: p in F ==> g[Move(source, target, p)] == f[p]
    ensures |Moved(source, target, F)| == |F|
    ensures TotalBytes(g, Moved(source, target, F)) == TotalBytes(f, F)
  {
    if F == {} {
      assert Moved(source, target, F) == {};
    } else {
      var x := Pick(F);
      var rest, y := F - {x}, Move(source, target, x);
      TotalMoved(f, g, source, target, rest);
      MovedBack(source, target, rest);
      MoveBack(source, target, x);
      assert F == rest + {x};
      assert Moved(source, target, F) == Moved(source, target, rest) + {y};
      TotalWithout(g, Moved(source, target, F), y);
      assert Moved(source, target, F) - {y} == Moved(source, target, rest);
    }
  }

  lemma FilesAtTarget(fs: Fs, source: Path, target: Path)
    requires Apart(source, target) && Empty(fs, target)
    ensures FilesUnder(Copied(fs, source, target), target) == Moved(source, target, FilesUnder(fs, source))
  {
    TargetIsDir(fs, source, target);
    MovedBack(source, target, FilesUnder(fs, source));
  }

  /** The counters the copy returns are what directory_stats finds at the target. */
  lemma CopyCountsMatchStats(fs: Fs, source: Path, target: Path)
    requires Apart(source, target) && Empty(fs, target)
    ensures var c := Copied(fs, source, target);
            && |FilesUnder(c, target)| == |FilesUnder(fs, source)|
            && TotalBytes(c.files, FilesUnder(c, target)) == TotalBytes(fs.files, FilesUnder(fs, source))
  {
    var c, F := Copied(fs, source, target), FilesUnder(fs, source);
    FilesAtTarget(fs, source, target);
    forall p | p in F ensures Move(source, target, p) in c.files && c.files[Move(source, target, p)] == fs.files[p] {
      MovedFileCopied(fs, source, target, p);
    }
    TotalMoved(fs.files, c.files, source, target, F);
  }

  lemma MovedFileCopied(fs: Fs, source: Path, target: Path, p: Path)
    requires Apart(source, target) && p in FilesUnder(fs, source)
    ensures Move(source, target, p) in Copied(fs, source, target).files
    ensures Copied(fs, source, target).files[Move(source, target, p)] == fs.files[p]
  {
    var q := p[|source|..];
    assert source + q == p && Move(source, target, p) == target + q;
    CopiedFile(fs, source, target, q);
  }

  lemma ParentMoved(source: Path, target: Path, p: Path)
    requires source < p
    ensures source <= Parent(p) && Move(source, target, p) != []
    ensures Parent(Move(source, target, p)) == Move(source, target, Parent(p))
  {
  }

  lemma PrefixParent(target: Path, q: Path)
    requires q in Prefixes(target) && q != []
    ensures Parent(q) in Prefixes(target)
  {
    assert Parent(q) == target[..|q| - 1];
  }

  lemma CopiedFileHasParent(fs: Fs, source: Path, target: Path, p: Path)
    requires WellFormed(fs) && Apart(source, target) && p in FilesUnder(fs, source)
    ensures Move(source, target, p) != [] && Parent(Move(source, target, p)) in Copied(fs, source, target).dirs
  {
    assert p != source;
    ParentMoved(source, target, p);
    assert Parent(p) in DirsUnder(fs, source);
  }

  lemma CopiedDirHasParent(fs: Fs, source: Path, target: Path, p: Path)
    requires WellFormed(fs) && Apart(source, target) && p in DirsUnder(fs, source)
    ensures var m := Move(source, target, p);
            m != [] ==> Parent(m) in Copied(fs, source, target).dirs
  {
    if p == source {
      assert Move(source, target, p) == target;
      assert target[..|target|] in Prefixes(target);
      if target != [] {
        PrefixParent(target, target);
      }
    } else {
      ParentMoved(source, target, p);
      assert Parent(p) in DirsUnder(fs, source);
    }
  }

  lemma CopiedDisjoint(fs: Fs, source: Path, target: Path, p: Path)
    requires WellFormed(fs) && Apart(source, target) && Clear(fs, source, target)
    ensures !(p in Copied(fs, source, target).files && p in Copied(fs, source, target).dirs)
  {
    var F, D := FilesUnder(fs, source), DirsUnder(fs, source);
    MovedBack(source, target, F);
    MovedBack(source, target, D);
    if p in Moved(source, target, F) {
      var q := Move(target, source, p);
      assert q in F && q != source;
      MoveBack(target, source, p);
      assert Move(source, target, q) == p && |p| > |target|;
    }
    if p in Moved(source, target, D) {
      MoveBack(target, source, p);
    }
  }

  /** The copy leaves a well-formed file system. */
  lemma CopyKeepsWellFormed(fs: Fs, source: Path, target: Path)
    requires WellFormed(fs) && Apart(source, target) && Clear(fs, source, target)
    ensures WellFormed(Copied(fs, source, target))
  {
    var c := Copied(fs, source, target);
    MovedBack(source, target, FilesUnder(fs, source));
    MovedBack(source, target, DirsUnder(fs, source));
    forall p | p in c.files ensures p !in c.dirs && p != [] && Parent(p) in c.dirs {
      CopiedDisjoint(fs, source, target, p);
      if p in Moved(source, target, FilesUnder(fs, source)) {
        MoveBack(target, source, p);
        CopiedFileHasParent(fs, source, target, Move(target, source, p));
      }
    }
    forall p | p in c.dirs && p != [] ensures Parent(p) in c.dirs {
      if p in Moved(source, target, DirsUnder(fs, source)) {
        MoveBack(target, source, p);
        CopiedDirHasParent(fs, source, target, Move(target, source, p));
      } else if p in Prefixes(target) {
        PrefixParent(target, p);
      }
    }
  }

  // ---------------------------------------------------------------- the digest text

  /** What follows the relative path in a line. */
  function Marker(hex: Hex): string {
    ":" + hex + "\n"
  }

  /** One line: the relative path, a colon, the content hash and a newline. */
  function Line(name: string, hex: Hex): string {
    name + Marker(hex)
  }

  /** `to_string_lossy` of a path of Unicode components. */
  function Name(rel: Path): string {
    if rel == [] then "" else SnapshotRefs.Join(rel)
  }

  /** What the digest knows of a file. */
  datatype Entry = Entry(path: Path, hex: Hex)

  /** The hashed text, line by line. */
  function Lines(entries: seq<Entry>): string {
    if entries == [] then ""
    else
      var last := entries[|entries| - 1];
      Lines(entries[..|entries| - 1]) + Line(Name(last.path), last.hex)
  }

  function EntriesOf(b3: Blake3, m: map<Path, Bytes>, listing: seq<Path>): (entries: seq<Entry>)
    requires forall p :: p in listing ==> p in m
    ensures |entries| == |listing|
    ensures forall i :: 0 <= i < |listing| ==> listing[i] in m && entries[i] == Entry(listing[i], b3(m[listing[i]]))
  {
    seq(|listing|, i requires 0 <= i < |listing| && listing[i] in m => Entry(listing[i], b3(m[listing[i]])))
  }

  function Listed(m: map<Path, Bytes>): (listing: seq<Path>)
    ensures forall p :: p in listing <==> p in m
  {
    PathOrder();
    Listing(PATH_LESS, m.Keys)
  }

  function TreeText(b3: Blake3, m: map<Path, Bytes>): string {
    Lines(EntriesOf(b3, m, Listed(m)))
  }

  /** A path that a file system can hold: at least one component, none with a slash. */
  predicate IsName(p: Path) {
    p != [] && forall c :: c in p ==> '/' !in c
  }

  predicate ProperNames(m: map<Path, Bytes>) {
    forall p :: p in m ==> IsName(p)
  }

  lemma {:induction false} SplitOfJoin(p: Path)
    requires IsName(p)
    ensures SnapshotRefs.Split(SnapshotRefs.Join(p)) == p
  {
    assert p[0] in p;
    if |p| == 1 {
      SnapshotRefs.SplitWhole(p[0]);
    } else {
      assert forall c :: c in p[1..] ==> c in p;
      SplitOfJoin(p[1..]);
      SnapshotRefs.SplitAtSlash(p[0], SnapshotRefs.Join(p[1..]));
    }
  }

  lemma NameInjective(p: Path, q: Path)
    requires IsName(p) && IsName(q) && Name(p) == Name(q)
    ensures p == q
  {
    SplitOfJoin(p);
    SplitOfJoin(q);
  }

  // ---------------------------------------------------------------- reading the text back

  /** A colon, 64 lower-case hex digits and a newline. */
  predicate IsMarker(s: string) {
    |s| == 66 && s[0] == ':' && HexDigits(s[1..65], 0) && s[65] == '\n'
  }

  predicate MarkEnds(s: string, pos: nat) {
    66 <= pos <= |s| && IsMarker(s[pos - 66..pos])
  }

  /** Nothing in the name looks like the end of a line. */
  predicate MarkerFree(name: string) {
    forall pos: nat :: pos <= |name| ==> !MarkEnds(name, pos)
  }

  ghost predicate MarkerFreeNames(m: map<Path, Bytes>) {
    forall p :: p in m ==> MarkerFree(Name(p))
  }

  ghost predicate MarkerFreeEntries(entries: seq<Entry>) {
    forall i :: 0 <= i < |entries| ==> MarkerFree(Name(entries[i].path))
  }

  predicate EndsLine(s: string) {
    s == "" || s[|s| - 1] == '\n'
  }

  lemma MarkerIsMarker(hex: Hex)
    ensures IsMarker(Marker(hex))
  {
    assert Marker(hex)[1..65] == hex;
  }

  lemma OneNewline(s: string, i: nat)
    requires IsMarker(s) && i < 65
    ensures s[i] != '\n'
  {
    assert i > 0 ==> s[i] == s[1..65][i - 1];
  }

  lemma LineEnds(x: string, name: string, hex: Hex)
    ensures var t := x + Line(name, hex); EndsLine(t) && MarkEnds(t, |t|) && |t| == |x| + |name| + 66
  {
    var t := x + Line(name, hex);
    assert t[|t| - 66..|t|] == Marker(hex);
    MarkerIsMarker(hex);
    assert IsMarker(t[|t| - 66..|t|]);
  }

  lemma LinesEnd(entries: seq<Entry>)
    ensures EndsLine(Lines(entries)) && (Lines(entries) == "" <==> entries == [])
    ensures entries != [] ==> MarkEnds(Lines(entries), |Lines(entries)|)
  {
    if entries != [] {
      var last := entries[|entries| - 1];
      LineEnds(Lines(entries[..|entries| - 1]), Name(last.path), last.hex);
    }
  }

  lemma TailHasOneNewline(x: string, name: string, hex: Hex, i: nat)
    requires |x| + |name| <= i < |x| + |name| + 65
    ensures (x + Line(name, hex))[i] != '\n'
  {
    MarkerIsMarker(hex);
    OneNewline(Marker(hex), i - |x| - |name|);
  }

  lemma MarkStartsInLine(x: string, s: string, pos: nat)
    requires EndsLine(x) && MarkEnds(x + s, pos) && pos > |x|
    ensures pos - 66 >= |x|
  {
    var window := (x + s)[pos - 66..pos];
    if pos - 66 < |x| {
      assert window[|x| - 1 - (pos - 66)] == x[|x| - 1];
      OneNewline(window, |x| - 1 - (pos - 66));
    }
  }

  /** What looks like the end of a line before the end of a line lies inside its name. */
  lemma EarlyMarkIsInName(x: string, name: string, hex: Hex, pos: nat)
    requires EndsLine(x) && MarkEnds(x + Line(name, hex), pos) && |x| < pos < |x| + |name| + 66
    ensures pos - |x| <= |name| && MarkEnds(name, pos - |x|)
  {
    var t := x + Line(name, hex);
    MarkStartsInLine(x, Line(name, hex), pos);
    assert t[pos - 1] == t[pos - 66..pos][65];
    if pos - 1 >= |x| + |name| {
      TailHasOneNewline(x, name, hex, pos - 1);
    }
    assert name[pos - |x| - 66..pos - |x|] == t[pos - 66..pos];
  }

  lemma EarlierMark(x: string, s: string, pos: nat)
    requires MarkEnds(x + s, pos) && pos <= |x|
    ensures MarkEnds(x, pos)
  {
    assert (x + s)[pos - 66..pos] == x[pos - 66..pos];
  }

  /** In a text with harmless names the line ends are the only places that look like one. */
  lemma {:induction false} EndsAreLineEnds(a: seq<Entry>, pos: nat) returns (k: nat)
    requires MarkerFreeEntries(a) && MarkEnds(Lines(a), pos)
    ensures k <= |a| && pos == |Lines(a[..k])|
    ensures pos < |Lines(a)| ==> k < |a|
  {
    var n := |a| - 1;
    var front, last := a[..n], a[n];
    LinesEnd(front);
    LineEnds(Lines(front), Name(last.path), last.hex);
    if pos > |Lines(front)| {
      if pos < |Lines(a)| {
        EarlyMarkIsInName(Lines(front), Name(last.path), last.hex, pos);
      }
      k := |a|;
      assert a[..k] == a;
    } else {
      EarlierMark(Lines(front), Line(Name(last.path), last.hex), pos);
      k := EndsAreLineEnds(front, pos);
      assert front[..k] == a[..k];
    }
  }

  lemma FrontIsShorter(b: seq<Entry>)
    requires b != []
    ensures Lines(b[..|b| - 1]) <= Lines(b) && |Lines(b[..|b| - 1])| < |Lines(b)|
  {
    var last := b[|b| - 1];
    LineEnds(Lines(b[..|b| - 1]), Name(last.path), last.hex);
  }

  lemma {:induction false} LinesGrow(a: seq<Entry>, k: nat)
    requires k <= |a|
    ensures Lines(a[..k]) <= Lines(a)
  {
    if k == |a| {
      assert a[..k] == a;
    } else {
      var front := a[..|a| - 1];
      FrontIsShorter(a);
      LinesGrow(front, k);
      assert front[..k] == a[..k];
    }
  }

  lemma SameLengthPrefix(x: string, y: string, z: string)
    requires x <= z && y <= z && |x| == |y|
    ensures x == y
  {
    assert x == z[..|x|] && y == z[..|y|];
  }

  /** A text that begins a text with harmless names ends at one of its line ends and has no more lines. */
  lemma {:induction false} PrefixHasFewerLines(a: seq<Entry>, b: seq<Entry>) returns (k: nat)
    requires MarkerFreeEntries(a) && Lines(b) <= Lines(a)
    ensures |b| <= k <= |a| && Lines(b) == Lines(a[..k])
    ensures Lines(b) != Lines(a) ==> k < |a|
    decreases |b|
  {
    LinesEnd(b);
    if b == [] {
      k := 0;
      LinesEnd(a);
    } else {
      k := EndOfPrefix(a, b);
      FrontIsShorter(b);
      var j := PrefixHasFewerLines(a[..k], b[..|b| - 1]);
    }
  }

  lemma EndOfPrefix(a: seq<Entry>, b: seq<Entry>) returns (k: nat)
    requires MarkerFreeEntries(a) && Lines(b) <= Lines(a) && b != []
    ensures k <= |a| && Lines(b) == Lines(a[..k])
    ensures Lines(b) != Lines(a) ==> k < |a|
  {
    LinesEnd(b);
    var end := |Lines(b)|;
    assert Lines(a)[end - 66..end] == Lines(b)[end - 66..end];
    k := EndsAreLineEnds(a, end);
    LinesGrow(a, k);
    SameLengthPrefix(Lines(b), Lines(a[..k]), Lines(a));
  }

  lemma LineParts(x: string, e: Entry, y: string, f: Entry)
    requires |x| == |y| && x + Line(Name(e.path), e.hex) == y + Line(Name(f.path), f.hex)
    requires IsName(e.path) && IsName(f.path)
    ensures x == y && e == f
  {
    var s, t := x + Line(Name(e.path), e.hex), y + Line(Name(f.path), f.hex);
    assert x == s[..|x|] && y == t[..|y|];
    assert Name(e.path) == s[|x|..|s| - 66] && Name(f.path) == t[|y|..|t| - 66];
    assert e.hex == s[|s| - 65..|s| - 1] && f.hex == t[|t| - 65..|t| - 1];
    NameInjective(e.path, f.path);
  }

  lemma SameSnoc(a: seq<Entry>, b: seq<Entry>)
    requires a != [] && b != [] && a[..|a| - 1] == b[..|b| - 1] && a[|a| - 1] == b[|b| - 1]
    ensures a == b
  {
    assert a == a[..|a| - 1] + [a[|a| - 1]] && b == b[..|b| - 1] + [b[|b| - 1]];
  }

  ghost predicate NamedEntries(entries: seq<Entry>) {
    forall i :: 0 <= i < |entries| ==> IsName(entries[i].path)
  }

  lemma LastLinesAlign(a: seq<Entry>, front: seq<Entry>, n: nat)
    requires MarkerFreeEntries(a) && |a| == n + 1 && |front| == n
    requires Lines(front) <= Lines(a) && |Lines(front)| < |Lines(a)|
    ensures Lines(a[..n]) == Lines(front)
  {
    var k := PrefixHasFewerLines(a, front);
  }

  /** Equal texts of equally many lines, of which one has harmless names, list the same entries. */
  lemma {:induction false} LinesInjective(a: seq<Entry>, b: seq<Entry>)
    requires NamedEntries(a) && NamedEntries(b) && MarkerFreeEntries(a)
    requires Lines(a) == Lines(b) && |a| == |b|
    ensures a == b
    decreases |a|
  {
    if a != [] {
      var n := |a| - 1;
      var x, y := a[..n], b[..n];
      FrontIsShorter(b);
      LastLinesAlign(a, y, n);
      LineParts(Lines(x), a[n], Lines(y), b[n]);
      LinesInjective(x, y);
      SameSnoc(a, b);
    }
  }

  /** No two different contents of one path, among these two maps, share a hash. */
  predicate ContentsDistinguished(b3: Blake3, m: map<Path, Bytes>, n: map<Path, Bytes>) {
    forall p :: p in m && p in n && b3(m[p]) == b3(n[p]) ==> m[p] == n[p]
  }

  /** The digest text and the number of files determine the files as soon as one of the two trees has
      no name with a marker in it. */
  lemma TextDeterminesFiles(b3: Blake3, m: map<Path, Bytes>, n: map<Path, Bytes>)
    requires ProperNames(m) && ProperNames(n) && ContentsDistinguished(b3, m, n)
    requires MarkerFreeNames(m) && |m| == |n|
    requires TreeText(b3, m) == TreeText(b3, n)
    ensures m == n
  {
    ListedEntries(b3, m);
    ListedEntries(b3, n);
    LinesInjective(EntriesOf(b3, m, Listed(m)), EntriesOf(b3, n, Listed(n)));
    SameEntries(b3, m, n, Listed(m), Listed(n));
    SameListing(b3, m, n);
  }

  /** A text with harmless names is never shared with a tree of more files. */
  lemma SharedTextHasNoMoreFiles(b3: Blake3, m: map<Path, Bytes>, n: map<Path, Bytes>)
    requires ProperNames(m) && ProperNames(n) && MarkerFreeNames(m) && TreeText(b3, m) == TreeText(b3, n)
    ensures |n| <= |m|
  {
    ListedEntries(b3, m);
    ListedEntries(b3, n);
    var k := PrefixHasFewerLines(EntriesOf(b3, m, Listed(m)), EntriesOf(b3, n, Listed(n)));
  }

  /** So among the trees without markers in names the text alone determines the files. */
  lemma HarmlessTextDeterminesFiles(b3: Blake3, m: map<Path, Bytes>, n: map<Path, Bytes>)
    requires ProperNames(m) && ProperNames(n) && ContentsDistinguished(b3, m, n)
    requires MarkerFreeNames(m) && MarkerFreeNames(n)
    ensures TreeText(b3, m) == TreeText(b3, n) <==> m == n
  {
    if TreeText(b3, m) == TreeText(b3, n) {
      SharedTextHasNoMoreFiles(b3, m, n);
      SharedTextHasNoMoreFiles(b3, n, m);
      TextDeterminesFiles(b3, m, n);
    }
  }

  lemma ListedEntries(b3: Blake3, m: map<Path, Bytes>)
    requires ProperNames(m)
    ensures NamedEntries(EntriesOf(b3, m, Listed(m))) && |EntriesOf(b3, m, Listed(m))| == |m|
    ensures MarkerFreeNames(m) ==> MarkerFreeEntries(EntriesOf(b3, m, Listed(m)))
  {
    var entries := EntriesOf(b3, m, Listed(m));
    PathOrder();
    ListingSorted(PATH_LESS, m.Keys);
    assert |m| == |m.Keys|;
    if MarkerFreeNames(m) {
      forall i | 0 <= i < |entries| ensures MarkerFree(Name(entries[i].path)) {
        assert entries[i].path == Listed(m)[i] && Listed(m)[i] in m;
      }
    }
  }

  lemma SameListing(b3: Blake3, m: map<Path, Bytes>, n: map<Path, Bytes>)
    requires Listed(m) == Listed(n) && ContentsDistinguished(b3, m, n)
    requires forall p :: p in Listed(m) ==> p in n && b3(m[p]) == b3(n[p])
    ensures m == n
  {
    forall p ensures p in m <==> p in n {
      assert p in Listed(m) <==> p in Listed(n);
    }
    assert m.Keys == n.Keys;
  }

  lemma SameEntries(b3: Blake3, m: map<Path, Bytes>, n: map<Path, Bytes>, a: seq<Path>, b: seq<Path>)
    requires forall p :: p in a ==> p in m
    requires forall p :: p in b ==> p in n
    requires EntriesOf(b3, m, a) == EntriesOf(b3, n, b)
    ensures a == b && forall p :: p in a ==> p in n && b3(m[p]) == b3(n[p])
  {
    var x, y := EntriesOf(b3, m, a), EntriesOf(b3, n, b);
    forall i | 0 <= i < |a| ensures a[i] == b[i] && a[i] in n && b3(m[a[i]]) == b3(n[a[i]]) {
      assert x[i] == y[i];
    }
  }

  datatype CasManifest = CasManifest(digest: Hex, fileCount: nat)

  /** The manifest fields of a replicated tree; `hash` is the hash of a text's UTF-8 encoding. */
  function Sealed(b3: Blake3, hash: string -> Hex, m: map<Path, Bytes>): CasManifest {
    CasManifest(hash(TreeText(b3, m)), |m|)
  }

  /** Verification against a manifest accepts exactly the files that were replicated, whatever it finds,
      if no name that was replicated has a marker in it. */
  lemma VerificationAcceptsExactly(b3: Blake3, hash: string -> Hex, copied: map<Path, Bytes>, found: map<Path, Bytes>)
    requires ProperNames(copied) && ProperNames(found) && ContentsDistinguished(b3, copied, found)
    requires hash(TreeText(b3, copied)) == hash(TreeText(b3, found)) ==> TreeText(b3, copied) == TreeText(b3, found)
    requires MarkerFreeNames(copied)
    ensures Sealed(b3, hash, found) == Sealed(b3, hash, copied) <==> found == copied
  {
    if Sealed(b3, hash, found) == Sealed(b3, hash, copied) {
      TextDeterminesFiles(b3, copied, found);
    }
  }

  // ---------------------------------------------------------------- names with markers

  /** The concatenation of some lines. */
  function Flat(lines: seq<string>): string {
    if lines == [] then "" else Flat(lines[..|lines| - 1]) + lines[|lines| - 1]
  }

  lemma {:induction false} FlatConcat(a: seq<string>, b: seq<string>)
    ensures Flat(a + b) == Flat(a) + Flat(b)
    decreases |b|
  {
    if b == [] {
      assert a + b == a;
    } else {
      var n := |b| - 1;
      assert (a + b)[..|a| + n] == a + b[..n];
      FlatConcat(a, b[..n]);
    }
  }

  function LinesOf(entries: seq<Entry>): (lines: seq<string>)
    ensures |lines| == |entries|
    ensures forall i :: 0 <= i < |entries| ==> lines[i] == Line(Name(entries[i].path), entries[i].hex)
  {
    seq(|entries|, i requires 0 <= i < |entries| => Line(Name(entries[i].path), entries[i].hex))
  }

  lemma {:induction false} LinesAreFlat(entries: seq<Entry>)
    ensures Lines(entries) == Flat(LinesOf(entries))
  {
    if entries != [] {
      var n := |entries| - 1;
      LinesAreFlat(entries[..n]);
      assert LinesOf(entries)[..n] == LinesOf(entries[..n]);
    }
  }

  lemma LinesOfConcat(a: seq<Entry>, b: seq<Entry>)
    ensures LinesOf(a + b) == LinesOf(a) + LinesOf(b)
  {
  }

  lemma LinesConcat(a: seq<Entry>, b: seq<Entry>)
    ensures Lines(a + b) == Lines(a) + Lines(b)
  {
    LinesAreFlat(a);
    LinesAreFlat(b);
    LinesAreFlat(a + b);
    LinesOfConcat(a, b);
    FlatConcat(LinesOf(a), LinesOf(b));
  }

  /** A marker in a name can be read as the end of a line, if its digits are the hash of a content. */
  lemma ShiftedLines(b3: Blake3, u: string, x: Bytes, v: string, y: Bytes, w: string, hex: Hex)
    ensures Line(u + Marker(b3(x)) + v, b3(y)) + Line(w, hex) == Line(u, b3(x)) + Line(v + Marker(b3(y)) + w, hex)
  {
    var text := u + Marker(b3(x)) + v + Marker(b3(y)) + w + Marker(hex);
    assert Line(u + Marker(b3(x)) + v, b3(y)) + Line(w, hex) == text;
    assert Line(u, b3(x)) + Line(v + Marker(b3(y)) + w, hex) == text;
  }

  lemma SameRest(b3: Blake3, m: map<Path, Bytes>, n: map<Path, Bytes>, rest: seq<Path>)
    requires forall p :: p in rest ==> p in m && p in n && m[p] == n[p]
    ensures EntriesOf(b3, m, rest) == EntriesOf(b3, n, rest)
  {
  }

  lemma LinesInThree(a: seq<Entry>, e: Entry, f: Entry, b: seq<Entry>)
    ensures Lines(a + [e, f] + b)
         == Lines(a) + (Line(Name(e.path), e.hex) + Line(Name(f.path), f.hex)) + Lines(b)
  {
    LinesConcat(a + [e, f], b);
    LinesConcat(a, [e, f]);
    LinesOfTwo(e, f);
  }

  lemma EntriesInThree(b3: Blake3, m: map<Path, Bytes>, front: seq<Path>, s: Path, w: Path, back: seq<Path>)
    requires forall p :: p in front + [s, w] + back ==> p in m
    requires Members(m, front) && Members(m, back) && s in m && w in m
    ensures EntriesOf(b3, m, front + [s, w] + back)
         == EntriesOf(b3, m, front) + [Entry(s, b3(m[s])), Entry(w, b3(m[w]))] + EntriesOf(b3, m, back)
  {
  }

  predicate Members(m: map<Path, Bytes>, listing: seq<Path>) {
    forall p :: p in listing ==> p in m
  }

  lemma ListedMembers(m: map<Path, Bytes>, front: seq<Path>, s: Path, w: Path, back: seq<Path>)
    requires Listed(m) == front + [s, w] + back
    ensures Members(m, front) && Members(m, back) && s in m && w in m
  {
    var all := front + [s, w] + back;
    assert all[|front|] == s && all[|front| + 1] == w;
    forall p | p in front ensures p in m {
      assert p in all;
    }
    forall p | p in back ensures p in m {
      assert p in all;
    }
  }

  lemma TextInThree(b3: Blake3, m: map<Path, Bytes>, front: seq<Path>, s: Path, w: Path, back: seq<Path>)
    requires Listed(m) == front + [s, w] + back
    ensures Members(m, front) && Members(m, back) && s in m && w in m
    ensures TreeText(b3, m) == Lines(EntriesOf(b3, m, front)) + (Line(Name(s), b3(m[s])) + Line(Name(w), b3(m[w])))
                               + Lines(EntriesOf(b3, m, back))
  {
    ListedMembers(m, front, s, w, back);
    EntriesInThree(b3, m, front, s, w, back);
    LinesInThree(EntriesOf(b3, m, front), Entry(s, b3(m[s])), Entry(w, b3(m[w])), EntriesOf(b3, m, back));
  }

  /** The line end between the two files is shifted to the marker in the first name. */
  ghost predicate Shifted(b3: Blake3, m: map<Path, Bytes>, n: map<Path, Bytes>, s: Path, w: Path, u: Path, t: Path,
                          x: Bytes, v: string)
  {
    && s in m && w in m && u in n && t in n && n[u] == x && n[t] == m[w]
    && Name(s) == Name(u) + Marker(b3(x)) + v && Name(t) == v + Marker(b3(m[s])) + Name(w)
  }

  ghost predicate SameOn(m: map<Path, Bytes>, n: map<Path, Bytes>, rest: seq<Path>) {
    forall p :: p in rest ==> p in m && p in n && m[p] == n[p]
  }

  lemma MarkerTexts(b3: Blake3, m: map<Path, Bytes>, n: map<Path, Bytes>, front: seq<Path>, back: seq<Path>,
                    s: Path, w: Path, u: Path, t: Path, x: Bytes, v: string)
    requires Listed(m) == front + [s, w] + back && Listed(n) == front + [u, t] + back
    requires SameOn(m, n, front) && SameOn(m, n, back) && Shifted(b3, m, n, s, w, u, t, x, v)
    ensures TreeText(b3, m) == TreeText(b3, n)
  {
    TextInThree(b3, m, front, s, w, back);
    TextInThree(b3, n, front, u, t, back);
    SameRest(b3, m, n, front);
    SameRest(b3, m, n, back);
    ShiftedLines(b3, Name(u), x, v, m[s], Name(w), b3(m[w]));
  }

  /**
   The other direction. Let a name of a tree hold a marker whose digits are the hash of some content,
   and shift the line end there: the file gets the name before the marker and that content, the next
   file the name after it joined with its own. If both sort where the old ones did, the trees differ
   and have one digest and one file count.
   */
  lemma MarkerNamesCollide(b3: Blake3, hash: string -> Hex, m: map<Path, Bytes>, n: map<Path, Bytes>,
                           front: seq<Path>, back: seq<Path>, s: Path, w: Path, u: Path, t: Path, x: Bytes, v: string)
    requires Listed(m) == front + [s, w] + back && Listed(n) == front + [u, t] + back
    requires SameOn(m, n, front) && SameOn(m, n, back) && Shifted(b3, m, n, s, w, u, t, x, v)
    ensures m != n && Sealed(b3, hash, m) == Sealed(b3, hash, n)
  {
    MarkerTexts(b3, m, n, front, back, s, w, u, t, x, v);
    LongerName(Name(s), Name(u), Marker(b3(x)), v);
    DifferentTrees(m, n, front, back, s, w, u, t);
    ListedCount(m);
    ListedCount(n);
  }

  lemma LongerName(s: string, u: string, marker: string, v: string)
    requires s == u + marker + v && marker != ""
    ensures s != u
  {
    assert |s| > |u|;
  }

  lemma DifferentTrees(m: map<Path, Bytes>, n: map<Path, Bytes>, front: seq<Path>, back: seq<Path>,
                       s: Path, w: Path, u: Path, t: Path)
    requires Listed(m) == front + [s, w] + back && Listed(n) == front + [u, t] + back && s != u
    ensures m != n && |Listed(m)| == |Listed(n)|
  {
    assert Listed(m)[|front|] == s && Listed(n)[|front|] == u;
  }

  lemma ListedCount(m: map<Path, Bytes>)
    ensures |Listed(m)| == |m|
  {
    PathOrder();
    ListingSorted(PATH_LESS, m.Keys);
    assert |m| == |m.Keys|;
  }

  lemma ListedPair(m: map<Path, Bytes>, s: string, t: string)
    requires m.Keys == {[s], [t]} && s != "" && t != "" && s[0] < t[0]
    ensures Listed(m) == [[s], [t]]
  {
    PathOrder();
    ListingSorted(PATH_LESS, m.Keys);
    var two: seq<Path> := [[s], [t]];
    assert CHAR_LESS(s[0], t[0]);
    assert Lex(CHAR_LESS, s, t);
    assert STRING_LESS(s, t);
    assert Lex(STRING_LESS, [s], [t]);
    assert PATH_LESS([s], [t]);
    assert Sorted(PATH_LESS, two);
    SortedUnique(PATH_LESS, Listed(m), two);
  }

  lemma LinesOfTwo(e: Entry, f: Entry)
    ensures Lines([e, f]) == Line(Name(e.path), e.hex) + Line(Name(f.path), f.hex)
  {
    assert [e, f][..1] == [e] && [e][..0] == [];
    assert Lines([e]) == Line(Name(e.path), e.hex);
  }

  function Two(s: string, x: Bytes, t: string, y: Bytes): map<Path, Bytes> {
    map[[s] := x, [t] := y]
  }

  lemma PairListed(s: string, t: string, x: Bytes, y: Bytes)
    requires s != "" && t != "" && s[0] < t[0]
    ensures [s] in Two(s, x, t, y) && [t] in Two(s, x, t, y)
    ensures Listed(Two(s, x, t, y)) == [[s], [t]] && Two(s, x, t, y)[[s]] == x && Two(s, x, t, y)[[t]] == y
  {
    assert [s][0] != [t][0];
    var m := Two(s, x, t, y);
    assert m.Keys == {[s], [t]};
    ListedPair(m, s, t);
  }

  lemma PairsCollide(b3: Blake3, hash: string -> Hex, s: string, w: string, u: string, t: string,
                     x: Bytes, y: Bytes, z: Bytes, v: string)
    requires s != "" && w != "" && u != "" && t != "" && s[0] < w[0] && u[0] < t[0]
    requires s == u + Marker(b3(x)) + v && t == v + Marker(b3(y)) + w
    ensures Two(s, y, w, z) != Two(u, x, t, z)
    ensures Sealed(b3, hash, Two(s, y, w, z)) == Sealed(b3, hash, Two(u, x, t, z))
  {
    PairListed(s, w, y, z);
    PairListed(u, t, x, z);
    assert [] + [[s], [w]] + [] == [[s], [w]] && [] + [[u], [t]] + [] == [[u], [t]];
    MarkerNamesCollide(b3, hash, Two(s, y, w, z), Two(u, x, t, z), [], [], [s], [w], [u], [t], x, v);
  }

  /** For all contents, and all names in the right order, there are such trees of two files each. */
  lemma NewlineNamesCollide(b3: Blake3, hash: string -> Hex, u: string, v: string, w: string,
                            x: Bytes, y: Bytes, z: Bytes)
    requires u != "" && v != "" && w != "" && u[0] < v[0] && u[0] < w[0]
    ensures var m: map<Path, Bytes> := map[[u + Marker(b3(x)) + v] := y, [w] := z];
            var n: map<Path, Bytes> := map[[u] := x, [v + Marker(b3(y)) + w] := z];
            m != n && Sealed(b3, hash, m) == Sealed(b3, hash, n)
  {
    PairsCollide(b3, hash, u + Marker(b3(x)) + v, w, u, v + Marker(b3(y)) + w, x, y, z, v);
  }

  // ---------------------------------------------------------------- absolute and relative listings

  lemma {:induction false} LexUnderPrefix(root: Path, a: Path, b: Path)
    requires StrictTotal(STRING_LESS)
    ensures Lex(STRING_LESS, root + a, root + b) == Lex(STRING_LESS, a, b)
  {
    if root == [] {
      assert root + a == a && root + b == b;
    } else {
      var x, y := root + a, root + b;
      assert x[1..] == root[1..] + a && y[1..] == root[1..] + b && x[0] == root[0] == y[0];
      LexUnderPrefix(root[1..], a, b);
    }
  }

  function Under(root: Path, listing: seq<Path>): (paths: seq<Path>)
    ensures |paths| == |listing| && forall i :: 0 <= i < |listing| ==> paths[i] == root + listing[i]
  {
    seq(|listing|, i requires 0 <= i < |listing| => root + listing[i])
  }

  lemma UnderSorted(root: Path, listing: seq<Path>)
    requires StrictTotal(STRING_LESS) && Sorted(PATH_LESS, listing)
    ensures Sorted(PATH_LESS, Under(root, listing))
  {
    var paths := Under(root, listing);
    forall i, j | 0 <= i < j < |paths| ensures PATH_LESS(paths[i], paths[j]) {
      assert PATH_LESS(listing[i], listing[j]);
      LexUnderPrefix(root, listing[i], listing[j]);
    }
  }

  lemma UnderMembers(fs: Fs, root: Path, p: Path)
    ensures p in Under(root, Listed(RelativeFiles(fs, root))) <==> p in FilesUnder(fs, root)
  {
    var listing := Listed(RelativeFiles(fs, root));
    var paths := Under(root, listing);
    if p in paths {
      var i :| 0 <= i < |paths| && paths[i] == p;
      assert listing[i] in listing;
      RelativeFile(fs, root, listing[i]);
    }
    if p in FilesUnder(fs, root) {
      assert root + p[|root|..] == p;
      RelativeFile(fs, root, p[|root|..]);
      var i :| 0 <= i < |listing| && listing[i] == p[|root|..];
      assert paths[i] == p;
    }
  }

  /** Stripping the root from the sorted files gives the sorted relative paths. */
  lemma RelativeListing(fs: Fs, root: Path)
    ensures SortedFiles(fs, root) == Under(root, Listed(RelativeFiles(fs, root)))
  {
    StringOrder();
    PathOrder();
    ListingSorted(PATH_LESS, FilesUnder(fs, root));
    ListingSorted(PATH_LESS, RelativeFiles(fs, root).Keys);
    UnderSorted(root, Listed(RelativeFiles(fs, root)));
    forall p: Path {
      UnderMembers(fs, root, p);
    }
    SortedUnique(PATH_LESS, SortedFiles(fs, root), Under(root, Listed(RelativeFiles(fs, root))));
  }

  lemma RelativeCount(fs: Fs, root: Path)
    ensures |RelativeFiles(fs, root)| == |FilesUnder(fs, root)|
  {
    var F, m := FilesUnder(fs, root), RelativeFiles(fs, root);
    MovedBack(root, [], F);
    forall p | p in F ensures Move(root, [], p) in m && m[Move(root, [], p)] == fs.files[p] {
      MoveBack(root, [], p);
    }
    TotalMoved(fs.files, m, root, [], F);
    assert |m| == |m.Keys|;
  }
}
