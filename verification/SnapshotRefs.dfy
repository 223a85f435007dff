/**
 Snapshot refs: the two parsers of one ref format, the scans for orphan and missing refs, and the
 garbage collection they guard. A repository is the set of its ref names.
 */
module SnapshotRefs {
  import opened Common
  import opened Order

  const ALLOWED: string := "refs/devrelay/"
  const NAMESPACE: string := "refs/devrelay/snapshots/"
  const NAMESPACE_DIR: string := "refs/devrelay/snapshots"

  // ---------------------------------------------------------------- splitting at slashes

  function Split(s: string): (parts: seq<string>)
    ensures parts != []
  {
    if s == [] then [[]]
    else
      var rest := Split(s[1..]);
      if s[0] == '/' then [[]] + rest else [[s[0]] + rest[0]] + rest[1..]
  }

  function Join(parts: seq<string>): string
    requires parts != []
  {
    if |parts| == 1 then parts[0] else parts[0] + "/" + Join(parts[1..])
  }

  lemma {:induction false} JoinOfSplit(s: string)
    ensures Join(Split(s)) == s
  {
    if s != [] {
      JoinOfSplit(s[1..]);
      var rest := Split(s[1..]);
      assert s == [s[0]] + s[1..];
      if s[0] == '/' {
        assert Split(s)[1..] == rest;
      } else {
        assert Split(s)[1..] == rest[1..];
      }
    }
  }

  lemma {:induction false} SplitIsSlashFree(s: string)
    ensures forall p :: p in Split(s) ==> '/' !in p
  {
    if s != [] {
      SplitIsSlashFree(s[1..]);
      var rest := Split(s[1..]);
      assert rest[0] in rest;
      forall p | p in Split(s) ensures '/' !in p {
        assert p in rest || p == [] || (s[0] != '/' && p == [s[0]] + rest[0]);
      }
    }
  }

  lemma {:induction false} SplitAtSlash(head: string, tail: string)
    requires '/' !in head
    ensures Split(head + "/" + tail) == [head] + Split(tail)
  {
    var s := head + "/" + tail;
    if head == [] {
      assert s[1..] == tail;
    } else {
      assert s[1..] == head[1..] + "/" + tail;
      SplitAtSlash(head[1..], tail);
      assert s[0] == head[0] && head[0] in head;
      assert [head[0]] + head[1..] == head;
    }
  }

  lemma {:induction false} SplitWhole(s: string)
    requires '/' !in s
    ensures Split(s) == [s]
  {
    if s != [] {
      assert s[0] in s;
      SplitWhole(s[1..]);
      assert [s[0]] + s[1..] == s;
    }
  }

  // ---------------------------------------------------------------- the ref format

  function Ref(id: string, kind: string): string {
    NAMESPACE + (id + "/" + kind)
  }

  function ExpectedSnapshotRefs(id: string): seq<string> {
    [Ref(id, "index"), Ref(id, "work")]
  }

  function ParseSnapshotRef(refname: string): Option<(string, string)> {
    if !(NAMESPACE <= refname) then None
    else
      var parts := Split(refname[|NAMESPACE|..]);
      if |parts| != 2 || parts[0] == "" then None else Some((parts[0], parts[1]))
  }

  predicate IsLeaf(kind: string) {
    kind == "index" || kind == "work"
  }

  /** An id that is one component of a ref name. */
  predicate PlainId(id: string) {
    id != "" && '/' !in id
  }

  /** The parser inverts the format, and accepts nothing else. */
  lemma ParseExactly(refname: string, id: string, kind: string)
    ensures ParseSnapshotRef(refname) == Some((id, kind))
            <==> refname == Ref(id, kind) && PlainId(id) && '/' !in kind
  {
    if refname == Ref(id, kind) && PlainId(id) && '/' !in kind {
      assert refname[|NAMESPACE|..] == id + "/" + kind;
      SplitAtSlash(id, kind);
      SplitWhole(kind);
    }
    if ParseSnapshotRef(refname) == Some((id, kind)) {
      var suffix := refname[|NAMESPACE|..];
      var parts := Split(suffix);
      JoinOfSplit(suffix);
      SplitIsSlashFree(suffix);
      assert parts[0] in parts && parts[1] in parts;
      assert suffix == parts[0] + "/" + Join(parts[1..]) == id + "/" + kind;
    }
  }

  predicate HasPair(s: string, a: char, b: char) {
    exists i :: 0 < i < |s| && s[i] == b && s[i - 1] == a
  }

  predicate ForbiddenChar(c: char) {
    c <= ' ' || c == 0x7F as char || c in "~^:?*[\\"
  }

  /** `validate_refname`. */
  predicate RefnameValid(refname: string) {
    && refname != ""
    && refname[0] != '/' && refname[|refname| - 1] != '/'
    && !HasPair(refname, '.', '.')
    && !(|refname| >= 5 && refname[|refname| - 5..] == ".lock")
    && !HasPair(refname, '/', '/')
    && (forall c :: c in refname ==> !ForbiddenChar(c))
    && (forall p :: p in Split(refname) ==> p == "" || p[0] != '.')
  }

  /** `validate_snapshot_ref` under the default policy. */
  predicate SnapshotRefValid(refname: string) {
    && RefnameValid(refname) && ALLOWED <= refname
    && NAMESPACE <= refname
    && var parts := Split(refname[|NAMESPACE|..]);
       var leaf := if |parts| > 1 then parts[1] else "";
       parts[0] != "" && IsLeaf(leaf) && |parts| <= 2
  }

  /** The validator accepts what the name check accepts and the other parser reads as index or work. */
  lemma ParsersAgree(refname: string)
    ensures SnapshotRefValid(refname)
            <==> && RefnameValid(refname)
                 && ParseSnapshotRef(refname).Some?
                 && IsLeaf(ParseSnapshotRef(refname).value.1)
  {
    if NAMESPACE <= refname {
      assert ALLOWED == NAMESPACE[..|ALLOWED|];
    }
  }

  /** What the name check leaves of an id: a trailing ".lock" is not refused. */
  predicate IdPermitted(id: string) {
    && PlainId(id)
    && id[0] != '.'
    && !HasPair(id, '.', '.')
    && forall c :: c in id ==> !ForbiddenChar(c)
  }

  /** A pair in a concatenation lies in one of the parts or across the seam. */
  lemma PairInConcat(s: string, t: string, a: char, b: char)
    requires s != "" && t != ""
    ensures HasPair(s + t, a, b) <==> HasPair(s, a, b) || HasPair(t, a, b) || (s[|s| - 1] == a && t[0] == b)
  {
    var whole, n := s + t, |s|;
    if HasPair(s, a, b) {
      var i :| 0 < i < |s| && s[i] == b && s[i - 1] == a;
      assert whole[i] == b && whole[i - 1] == a;
    }
    if HasPair(t, a, b) {
      var i :| 0 < i < |t| && t[i] == b && t[i - 1] == a;
      assert whole[n + i] == b && whole[n + i - 1] == a;
    }
    if s[|s| - 1] == a && t[0] == b {
      assert whole[n] == b && whole[n - 1] == a;
    }
    if HasPair(whole, a, b) {
      var i :| 0 < i < |whole| && whole[i] == b && whole[i - 1] == a;
      if i < n {
        assert s[i] == b && s[i - 1] == a;
      } else if i > n {
        assert t[i - n] == b && t[i - n - 1] == a;
      }
    }
  }

  lemma PairsOfRef(id: string, suffix: string)
    requires PlainId(id) && (suffix == "/index" || suffix == "/work")
    ensures HasPair(NAMESPACE + id + suffix, '.', '.') <==> HasPair(id, '.', '.')
    ensures !HasPair(NAMESPACE + id + suffix, '/', '/')
  {
    assert id[0] in id && id[|id| - 1] in id;
    assert NAMESPACE[|NAMESPACE| - 1] == '/' && suffix[0] == '/';
    assert !HasPair(NAMESPACE, '.', '.') && !HasPair(NAMESPACE, '/', '/');
    assert !HasPair(suffix, '.', '.') && !HasPair(suffix, '/', '/') && !HasPair(id, '/', '/');
    PairInConcat(NAMESPACE, id, '.', '.');
    PairInConcat(NAMESPACE + id, suffix, '.', '.');
    PairInConcat(NAMESPACE, id, '/', '/');
    PairInConcat(NAMESPACE + id, suffix, '/', '/');
  }

  lemma NamespacePieces(tail: string)
    ensures NAMESPACE + tail == "refs" + "/" + ("devrelay" + "/" + ("snapshots" + "/" + tail))
  {
    assert NAMESPACE == "refs/" + ("devrelay/" + "snapshots/");
    assert "refs/" + ("devrelay/" + "snapshots/") + tail == "refs/" + ("devrelay/" + ("snapshots/" + tail));
    assert "snapshots" + "/" == "snapshots/" && "devrelay" + "/" == "devrelay/" && "refs" + "/" == "refs/";
  }

  lemma SplitRef(id: string, kind: string)
    requires '/' !in id && '/' !in kind
    ensures Split(Ref(id, kind)) == ["refs", "devrelay", "snapshots", id, kind]
  {
    var tail := id + "/" + kind;
    var inner := "snapshots" + "/" + tail;
    var middle := "devrelay" + "/" + inner;
    NamespacePieces(tail);
    SplitWhole(kind);
    SplitAtSlash(id, kind);
    SplitAtSlash("snapshots", tail);
    SplitAtSlash("devrelay", inner);
    SplitAtSlash("refs", middle);
  }

  lemma CharsOfRef(id: string, suffix: string)
    requires suffix == "/index" || suffix == "/work"
    ensures (forall c :: c in NAMESPACE + id + suffix ==> !ForbiddenChar(c))
            <==> (forall c :: c in id ==> !ForbiddenChar(c))
  {
    PlainLetters(suffix);
    CharsOfConcat(NAMESPACE, id, suffix);
  }

  lemma PlainLetters(suffix: string)
    requires suffix == "/index" || suffix == "/work"
    ensures (forall c :: c in NAMESPACE ==> !ForbiddenChar(c)) && (forall c :: c in suffix ==> !ForbiddenChar(c))
  {
  }

  lemma CharsOfConcat(x: string, y: string, z: string)
    requires (forall c :: c in x ==> !ForbiddenChar(c)) && (forall c :: c in z ==> !ForbiddenChar(c))
    ensures (forall c :: c in x + y + z ==> !ForbiddenChar(c)) <==> (forall c :: c in y ==> !ForbiddenChar(c))
  {
    forall c ensures c in x + y + z <==> c in x || c in y || c in z {
    }
  }

  lemma EndsOfRef(id: string, kind: string)
    requires IsLeaf(kind)
    ensures var r := Ref(id, kind);
            && |r| >= 5 && r[0] == 'r'
            && r[|r| - 1] in "xk" && (r[|r| - 1] == 'k' ==> r[|r| - 2] == 'r')
            && r[|r| - 5..] != ".lock"
  {
    var r := Ref(id, kind);
    assert r[|r| - 1] == kind[|kind| - 1] && r[|r| - 2] == kind[|kind| - 2];
    assert r[|r| - 5..][3] == r[|r| - 2] && r[|r| - 5..][4] == r[|r| - 1];
  }

  lemma NameOfRef(id: string, kind: string)
    requires PlainId(id) && IsLeaf(kind)
    ensures RefnameValid(Ref(id, kind)) <==> IdPermitted(id)
  {
    var suffix := "/" + kind;
    assert suffix == "/index" || suffix == "/work";
    var whole := Ref(id, kind);
    assert whole == NAMESPACE + id + suffix;
    PairsOfRef(id, suffix);
    CharsOfRef(id, suffix);
    SplitRef(id, kind);
    EndsOfRef(id, kind);
    assert id in Split(whole);
  }

  /** The accepted refs are the index and work refs of the permitted ids. */
  lemma SnapshotRefValidExactly(refname: string)
    ensures SnapshotRefValid(refname)
            <==> exists id, kind :: IdPermitted(id) && IsLeaf(kind) && refname == Ref(id, kind)
  {
    ParsersAgree(refname);
    if SnapshotRefValid(refname) {
      var (id, kind) := ParseSnapshotRef(refname).value;
      ParseExactly(refname, id, kind);
      NameOfRef(id, kind);
      assert IdPermitted(id) && IsLeaf(kind) && refname == Ref(id, kind);
    }
    if id, kind :| IdPermitted(id) && IsLeaf(kind) && refname == Ref(id, kind) {
      NameOfRef(id, kind);
      ParseExactly(refname, id, kind);
    }
  }

  // ---------------------------------------------------------------- the scans

  datatype AnchorRef = AnchorRef(id: string, refname: string)

  /** What the orphan scan reports for one ref. */
  function OrphanOf(known: seq<string>, refname: string): Option<AnchorRef> {
    match ParseSnapshotRef(refname)
    case None => Some(AnchorRef("", refname))
    case Some((id, kind)) =>
      if id !in known || !IsLeaf(kind) then Some(AnchorRef(id, refname)) else None
  }

  function Orphans(known: seq<string>, refs: seq<string>): seq<AnchorRef> {
    if refs == [] then []
    else
      var front := Orphans(known, refs[..|refs| - 1]);
      match OrphanOf(known, refs[|refs| - 1])
      case None => front
      case Some(orphan) => front + [orphan]
  }

  function MissingOf(id: string, present: set<string>): seq<AnchorRef> {
    (if Ref(id, "index") in present then [] else [AnchorRef(id, Ref(id, "index"))])
    + (if Ref(id, "work") in present then [] else [AnchorRef(id, Ref(id, "work"))])
  }

  function MissingRefs(known: seq<string>, present: set<string>): seq<AnchorRef> {
    if known == [] then []
    else MissingRefs(known[..|known| - 1], present) + MissingOf(known[|known| - 1], present)
  }

  /** The refs `for-each-ref` lists for the snapshot namespace. */
  predicate InNamespace(refname: string) {
    refname == NAMESPACE_DIR || NAMESPACE <= refname
  }

  function SnapshotRefsOf(present: set<string>): set<string> {
    set r | r in present && InNamespace(r)
  }

  function ExpectedOf(known: seq<string>): set<string> {
    (set id | id in known :: Ref(id, "index")) + (set id | id in known :: Ref(id, "work"))
  }

  lemma {:induction false} NoOrphansExactly(known: seq<string>, refs: seq<string>)
    ensures Orphans(known, refs) == [] <==> forall r :: r in refs ==> OrphanOf(known, r) == None
  {
    if refs != [] {
      var n := |refs| - 1;
      NoOrphansExactly(known, refs[..n]);
      assert refs == refs[..n] + [refs[n]];
    }
  }

  lemma {:induction false} NoMissingExactly(known: seq<string>, present: set<string>)
    ensures MissingRefs(known, present) == []
            <==> forall id :: id in known ==> Ref(id, "index") in present && Ref(id, "work") in present
  {
    if known != [] {
      var n := |known| - 1;
      NoMissingExactly(known[..n], present);
      assert known == known[..n] + [known[n]];
    }
  }

  /** A ref is no orphan exactly when it is the index or work ref of a plain known id. */
  lemma NoOrphanExactly(known: seq<string>, refname: string)
    ensures OrphanOf(known, refname) == None
            <==> exists id :: id in known && PlainId(id) && (refname == Ref(id, "index") || refname == Ref(id, "work"))
  {
    if OrphanOf(known, refname) == None {
      var (id, kind) := ParseSnapshotRef(refname).value;
      ParseExactly(refname, id, kind);
    }
    if id :| id in known && PlainId(id) && (refname == Ref(id, "index") || refname == Ref(id, "work")) {
      ParseExactly(refname, id, if refname == Ref(id, "index") then "index" else "work");
    }
  }

  /** The guard is set equality: it passes exactly when every known id is plain and the snapshot
      refs present are the index and work refs of the known ids, no more and no fewer. */
  lemma GuardIsSetEquality(known: seq<string>, present: set<string>, listed: seq<string>)
    requires forall r :: r in listed <==> r in SnapshotRefsOf(present)
    ensures Orphans(known, listed) == [] && MissingRefs(known, present) == []
            <==> (forall id :: id in known ==> PlainId(id)) && SnapshotRefsOf(present) == ExpectedOf(known)
  {
    NoOrphansExactly(known, listed);
    NoMissingExactly(known, present);
    if Orphans(known, listed) == [] && MissingRefs(known, present) == [] {
      forall id | id in known ensures PlainId(id) {
        KnownIsPlain(known, present, listed, id);
      }
      forall r ensures r in SnapshotRefsOf(present) <==> r in ExpectedOf(known) {
        if r in SnapshotRefsOf(present) {
          assert OrphanOf(known, r) == None;
          NoOrphanExactly(known, r);
        }
      }
    }
    if (forall id :: id in known ==> PlainId(id)) && SnapshotRefsOf(present) == ExpectedOf(known) {
      forall r | r in listed ensures OrphanOf(known, r) == None {
        assert r in ExpectedOf(known);
        NoOrphanExactly(known, r);
      }
      forall id | id in known ensures Ref(id, "index") in present && Ref(id, "work") in present {
        assert Ref(id, "index") in ExpectedOf(known) && Ref(id, "work") in ExpectedOf(known);
      }
    }
  }

  /** A known id with a slash, or the empty one, is reported by one of the two scans. */
  lemma KnownIsPlain(known: seq<string>, present: set<string>, listed: seq<string>, id: string)
    requires forall r :: r in listed <==> r in SnapshotRefsOf(present)
    requires forall r :: r in listed ==> OrphanOf(known, r) == None
    requires id in known && Ref(id, "index") in present
    ensures PlainId(id)
  {
    var r := Ref(id, "index");
    assert NAMESPACE <= r;
    assert OrphanOf(known, r) == None;
    var (other, kind) := ParseSnapshotRef(r).value;
    ParseExactly(r, other, kind);
    assert r[|NAMESPACE|..] == id + "/" + "index" == other + "/" + kind;
    SameTail(id, "index", other, kind);
  }

  lemma SlashInTail(a: string, x: string, b: string, y: string)
    requires a + "/" + x == b + "/" + y && |a| < |b|
    ensures '/' in x
  {
    var s, t := a + "/" + x, b + "/" + y;
    assert t[|b|] == '/';
    assert s[|b|] == x[|b| - |a| - 1];
  }

  /** Around the last slash, a string splits in one way. */
  lemma SameTail(a: string, x: string, b: string, y: string)
    requires a + "/" + x == b + "/" + y && '/' !in x && '/' !in y
    ensures a == b && x == y
  {
    var s, t := a + "/" + x, b + "/" + y;
    if |a| < |b| {
      SlashInTail(a, x, b, y);
    } else if |b| < |a| {
      SlashInTail(b, y, a, x);
    } else {
      assert a == s[..|a|] && b == t[..|b|] && x == s[|a| + 1..] && y == t[|b| + 1..];
    }
  }

  // ---------------------------------------------------------------- the repository

  datatype Report = Report(orphans: seq<AnchorRef>, missing: seq<AnchorRef>, gcRan: bool)

  datatype Refusal = OrphanRefs(count: nat) | MissingSnapshotRefs(count: nat) | Damaged | OverQuota

  datatype GcResult = Done(report: Report) | Refused(refusal: Refusal)

  class AnchorRepo {
    var refs: set<string>
    var collections: nat

    constructor (refs: set<string>)
      ensures this.refs == refs && collections == 0
    {
      this.refs := refs;
      collections := 0;
    }

    method ListSnapshotRefs() returns (listed: seq<string>)
      ensures forall r :: r in listed <==> r in SnapshotRefsOf(refs)
    {
      StringOrder();
      listed := Listing(STRING_LESS, SnapshotRefsOf(refs));
    }

    method ScanOrphanSnapshotRefs(known: seq<string>, listed: seq<string>) returns (orphans: seq<AnchorRef>)
      ensures orphans == Orphans(known, listed)
    {
      orphans := [];
      var i := 0;
      while i < |listed|
        invariant 0 <= i <= |listed|
        invariant orphans == Orphans(known, listed[..i])
      {
        assert listed[..i + 1][..i] == listed[..i];
        var parsed := ParseSnapshotRef(listed[i]);
        if parsed.None? {
          orphans := orphans + [AnchorRef("", listed[i])];
        } else if parsed.value.0 !in known || !IsLeaf(parsed.value.1) {
          orphans := orphans + [AnchorRef(parsed.value.0, listed[i])];
        }
        i := i + 1;
      }
      assert listed[..i] == listed;
    }

    method MissingRefsOfKnown(known: seq<string>) returns (missing: seq<AnchorRef>)
      ensures missing == MissingRefs(known, refs)
    {
      missing := [];
      var i := 0;
      while i < |known|
        invariant 0 <= i <= |known|
        invariant missing == MissingRefs(known[..i], refs)
      {
        assert known[..i + 1][..i] == known[..i];
        var expected := ExpectedSnapshotRefs(known[i]);
        ghost var before := missing;
        if expected[0] !in refs {
          missing := missing + [AnchorRef(known[i], expected[0])];
        }
        if expected[1] !in refs {
          missing := missing + [AnchorRef(known[i], expected[1])];
        }
        assert missing == before + MissingOf(known[i], refs);
        i := i + 1;
      }
      assert known[..i] == known;
    }

    /** Collection runs exactly when the refs present are the expected ones and the repository is
        sound and within its quota; the refs themselves are never touched. */
    method RunGuardedGc(known: seq<string>, sound: bool, withinQuota: bool, soundAfter: bool) returns (r: GcResult)
      modifies this`collections
      ensures collections == old(collections)
                             + if && (forall id :: id in known ==> PlainId(id))
                                  && SnapshotRefsOf(refs) == ExpectedOf(known) && sound && withinQuota then 1 else 0
      ensures r.Done? <==> collections > old(collections) && soundAfter
      ensures r.Done? ==> r.report == Report([], [], true)
      ensures r == Refused(MissingSnapshotRefs(|MissingRefs(known, refs)|)) <==>
              MissingRefs(known, refs) != [] && forall x :: x in SnapshotRefsOf(refs) ==> OrphanOf(known, x) == None
    {
      var listed := ListSnapshotRefs();
      GuardIsSetEquality(known, refs, listed);
      NoOrphansExactly(known, listed);
      var orphans := ScanOrphanSnapshotRefs(known, listed);
      var missing := MissingRefsOfKnown(known);
      if orphans != [] {
        return Refused(OrphanRefs(|orphans|));
      }
      if missing != [] {
        return Refused(MissingSnapshotRefs(|missing|));
      }
      if !sound {
        return Refused(Damaged);
      }
      if !withinQuota {
        return Refused(OverQuota);
      }
      collections := collections + 1;
      if !soundAfter {
        return Refused(Damaged);
      }
      return Done(Report(orphans, missing, true));
    }
  }
}
