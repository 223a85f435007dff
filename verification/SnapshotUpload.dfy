/**
 Publishing a snapshot together with its data: a pending marker, the Git refs, the sidecars with their
 reachability roots, a check of all that, the metadata, and the removal of the marker. Every operation
 is the list of the writes it makes, so that a process that dies is one that made only the first ones.
 */
module SnapshotUpload {
  import opened Common
  import opened Cas
  import opened HandoffTables
  import opened Sidecars
  import SnapshotRefs
  import CasClosure

  type StoreOp = CasClosure.Op

  // ---------------------------------------------------------------- names

  predicate IsHexDigit(c: char) {
    '0' <= c <= '9' || 'a' <= c <= 'f' || 'A' <= c <= 'F'
  }

  /** `is_valid_snapshot_id`, a part of the validation of metadata. */
  predicate IsSnapshotId(id: string) {
    |id| == 27 && id[..3] == "s1_" && forall i :: 3 <= i < 27 ==> IsHexDigit(id[i])
  }

  function Decimal(n: nat): (text: string)
    ensures text != [] && (|text| == 1 <==> n < 10)
  {
    var digit := ['0' + (n % 10) as char];
    if n < 10 then digit else Decimal(n / 10) + digit
  }

  lemma {:induction false} DecimalInjective(m: nat, n: nat)
    requires Decimal(m) == Decimal(n)
    ensures m == n
  {
    var s, t := Decimal(m), Decimal(n);
    assert s[|s| - 1] == '0' + (m % 10) as char && t[|t| - 1] == '0' + (n % 10) as char;
    if m >= 10 {
      assert s[..|s| - 1] == Decimal(m / 10) && t[..|t| - 1] == Decimal(n / 10);
      DecimalInjective(m / 10, n / 10);
    }
  }

  const ROOT_PREFIX: string := "snapshot-upload-"

  /** `sidecar_reachability_root_id`. */
  function RootId(id: string, index: nat): string {
    ROOT_PREFIX + id + "-" + Decimal(index)
  }

  lemma RootIdInjective(id: string, i: nat, other: string, j: nat)
    requires IsSnapshotId(id) && IsSnapshotId(other) && RootId(id, i) == RootId(other, j)
    ensures id == other && i == j
  {
    var s, n := RootId(id, i), |ROOT_PREFIX|;
    assert s[n..n + 27] == id && s[n..n + 27] == other;
    assert s[n + 28..] == Decimal(i) && s[n + 28..] == Decimal(j);
    DecimalInjective(i, j);
  }

  predicate PlainText(s: string) {
    forall i :: 0 <= i < |s| ==> IsHexDigit(s[i]) || 'g' <= s[i] <= 'z' || s[i] == '_' || s[i] == '-'
  }

  lemma PlainIsSafe(s: string)
    requires PlainText(s) && s != []
    ensures RootIdSafe(s)
  {
    assert forall i :: 0 <= i < |s| ==> s[i] != '.' && s[i] != '/' && s[i] != '\\' && s[i] > ' ' && s[i] < 0x7F as char;
    assert "."[0] == ".."[0] == '.' && s[0] != '.';
  }

  lemma {:induction false} DecimalIsPlain(n: nat)
    ensures PlainText(Decimal(n))
  {
    if n >= 10 {
      DecimalIsPlain(n / 10);
    }
  }

  lemma SnapshotIdIsPlain(id: string)
    requires IsSnapshotId(id)
    ensures PlainText(id) && RootIdSafe(id)
  {
    forall i | 0 <= i < 3 ensures id[i] == "s1_"[i] {
      assert id[i] == id[..3][i];
    }
    PlainIsSafe(id);
  }

  /** The names of the roots are accepted by the store. */
  lemma RootIdIsSafe(id: string, index: nat)
    requires IsSnapshotId(id)
    ensures RootIdSafe(RootId(id, index))
  {
    SnapshotIdIsPlain(id);
    DecimalIsPlain(index);
    assert PlainText(ROOT_PREFIX);
    assert PlainText(ROOT_PREFIX + id);
    assert PlainText(ROOT_PREFIX + id + "-");
    PlainIsSafe(RootId(id, index));
  }

  function IndexRef(id: string): string {
    SnapshotRefs.Ref(id, "index")
  }

  function WorkRef(id: string): string {
    SnapshotRefs.Ref(id, "work")
  }

  lemma RefsDistinct(id: string, other: string)
    requires IsSnapshotId(id) && IsSnapshotId(other) && id != other
    ensures IndexRef(id) !in {IndexRef(other), WorkRef(other)} && WorkRef(id) !in {IndexRef(other), WorkRef(other)}
  {
    var n := |SnapshotRefs.NAMESPACE|;
    assert IndexRef(id)[n..n + 27] == id && WorkRef(id)[n..n + 27] == id;
    assert IndexRef(other)[n..n + 27] == other && WorkRef(other)[n..n + 27] == other;
  }

  // ---------------------------------------------------------------- the anchor

  /** `PendingSnapshotUpload`. */
  datatype Marker = Marker(
    snapshotId: string, projectId: string, indexRef: string, workRef: string,
    manifestIds: seq<string>, rootIds: seq<string>)

  /** The anchor of a project: metadata, refs of its repository, marker files by name, and its store. */
  datatype Anchor = Anchor(
    project: string, tables: Tables, refs: set<string>, markers: map<string, Marker>, disk: Disk)

  function RootIds(id: string, n: nat): (ids: seq<string>)
    ensures |ids| == n && forall i :: 0 <= i < n ==> ids[i] == RootId(id, i)
  {
    seq(n, i requires 0 <= i < n => RootId(id, i))
  }

  function MarkerOf(m: SnapshotMetadata): Marker {
    Marker(m.snapshotId, m.projectId, IndexRef(m.snapshotId), WorkRef(m.snapshotId),
           seq(|m.sidecars|, i requires 0 <= i < |m.sidecars| => m.sidecars[i].manifestId),
           RootIds(m.snapshotId, |m.sidecars|))
  }

  /** One change of a file, a ref or the database. */
  datatype Write =
    | PutMarker(marker: Marker)
    | DropMarker(id: string)
    | PutRef(refname: string)
    | DropRef(refname: string)
    | InStore(op: StoreOp)
    | PutRow(request: PublishRequest)

  function Do(b3: Blake3, a: Anchor, w: Write): Anchor {
    match w
    case PutMarker(m) => a.(markers := a.markers[JsonFile(m.snapshotId) := m])
    case DropMarker(id) => a.(markers := a.markers - {JsonFile(id)})
    case PutRef(refname) => a.(refs := a.refs + {refname})
    case DropRef(refname) => a.(refs := a.refs - {refname})
    case InStore(op) => a.(disk := CasClosure.Step(b3, a.disk, op))
    case PutRow(r) => a.(tables := PublishCanonical(a.tables, r).0)
  }

  function DoAll(b3: Blake3, a: Anchor, writes: seq<Write>): Anchor
    decreases |writes|
  {
    if writes == [] then a else DoAll(b3, Do(b3, a, writes[0]), writes[1..])
  }

  lemma {:induction false} DoInTurn(b3: Blake3, a: Anchor, first: seq<Write>, second: seq<Write>)
    ensures DoAll(b3, a, first + second) == DoAll(b3, DoAll(b3, a, first), second)
    decreases |first|
  {
    if first == [] {
      assert first + second == second;
    } else {
      DoInTurn(b3, Do(b3, a, first[0]), first[1..], second);
      assert (first + second)[1..] == first[1..] + second;
    }
  }

  // ---------------------------------------------------------------- copying sidecars

  /** What a copy writes, and whether it came to its end. */
  datatype Copy = Copy(ops: seq<StoreOp>, ok: bool)

  /** The upload of one chunk after its checks, or None if one fails. */
  function ChunkUpload(b3: Blake3, source: Disk, d: Disk, s: Sidecar, c: ManifestChunk): Option<StoreOp> {
    if c.size > s.chunkSize then None
    else
      match Download(b3, source, c.hash)
      case Err(_) => None
      case Ok(bytes) =>
        if |bytes| != c.size || !Verified(b3, Uploaded(b3, d, bytes, c.hash), c.hash) then None
        else Some(CasClosure.Upload(bytes, c.hash))
  }

  function CopyChunks(b3: Blake3, source: Disk, d: Disk, s: Sidecar, chunks: seq<ManifestChunk>, diskFull: bool): Copy
    decreases |chunks|
  {
    if chunks == [] then Copy([], true)
    else
      match ChunkUpload(b3, source, d, s, chunks[0])
      case None => Copy([], false)
      case Some(op) =>
        if diskFull then Copy([op], false)
        else
          var rest := CopyChunks(b3, source, CasClosure.Step(b3, d, op), s, chunks[1..], diskFull);
          Copy([op] + rest.ops, rest.ok)
  }

  /** The manifest and the root of one sidecar, once its chunks are there. */
  function FinishCopy(b3: Blake3, d: Disk, root: string, m: Manifest, now: u64): Copy {
    var hashes := HashesOf(m.chunks);
    match Created(b3, d, hashes, now)
    case Err(_) => Copy([], false)
    case Ok(copied) =>
      var create := CasClosure.Create(hashes, now);
      if copied.id != m.id || !RootIdSafe(root) || Fetched(b3, CasClosure.Step(b3, d, create), copied.id).None?
      then Copy([create], false)
      else Copy([create, CasClosure.AddRoot(root, copied.id, now)], true)
  }

  function CopySidecar(b3: Blake3, source: Disk, d: Disk, root: string, s: Sidecar, now: u64, diskFull: bool): Copy {
    match SidecarManifest(b3, source, s)
    case None => Copy([], false)
    case Some(m) =>
      var chunks := CopyChunks(b3, source, d, s, m.chunks, diskFull);
      if !chunks.ok then chunks
      else
        var rest := FinishCopy(b3, CasClosure.Run(b3, d, chunks.ops), root, m, now);
        Copy(chunks.ops + rest.ops, rest.ok)
  }

  /** The sidecars from the given one on. */
  function CopySidecars(b3: Blake3, source: Disk, d: Disk, m: SnapshotMetadata, from: nat, now: u64, diskFull: bool)
    : Copy
    requires from <= |m.sidecars|
    decreases |m.sidecars| - from
  {
    if from == |m.sidecars| then Copy([], true)
    else
      var one := CopySidecar(b3, source, d, RootId(m.snapshotId, from), m.sidecars[from], now, diskFull);
      if !one.ok then one
      else
        var rest := CopySidecars(b3, source, CasClosure.Run(b3, d, one.ops), m, from + 1, now, diskFull);
        Copy(one.ops + rest.ops, rest.ok)
  }

  // ---------------------------------------------------------------- the operations

  datatype UploadFault =
    | AfterPendingMarker | AfterGitObjects | DuringCasUploadDiskFull | AfterCasObjects | AfterDataVerification

  /** `sourceRefs` are the refs of the source repository; `gitAccepts` is what the object policy and the
      quota of the anchor say of the fetched objects. */
  datatype UploadRequest = UploadRequest(
    publish: PublishRequest, sourceRefs: set<string>, gitAccepts: bool,
    source: Option<Disk>, anchorGiven: bool, fault: Option<UploadFault>, now: u64)
  {
    function Metadata(): SnapshotMetadata {
      publish.metadata
    }

    function Id(): string {
      publish.metadata.snapshotId
    }
  }

  predicate MayMark(a: Anchor, u: UploadRequest) {
    u.Metadata().valid && IsSnapshotId(u.Id()) && u.Metadata().projectId == a.project
  }

  /** `copy_snapshot_sidecars_to_anchor_cas`. */
  function CopyData(b3: Blake3, a: Anchor, u: UploadRequest): Copy {
    if u.Metadata().sidecars == [] then Copy([], true)
    else if u.source.None? || !u.anchorGiven then Copy([], false)
    else CopySidecars(b3, u.source.value, a.disk, u.Metadata(), 0, u.now, u.fault == Some(DuringCasUploadDiskFull))
  }

  function InStoreAll(ops: seq<StoreOp>): (writes: seq<Write>)
    ensures |writes| == |ops| && forall i :: 0 <= i < |ops| ==> writes[i] == InStore(ops[i])
  {
    seq(|ops|, i requires 0 <= i < |ops| => InStore(ops[i]))
  }

  function Imports(id: string): seq<Write> {
    [PutRef(IndexRef(id)), PutRef(WorkRef(id))]
  }

  /** The writes between the marker and the metadata, and whether the metadata may follow. */
  function DataWrites(b3: Blake3, a: Anchor, u: UploadRequest): (seq<Write>, bool) {
    if u.fault == Some(AfterPendingMarker) || IndexRef(u.Id()) !in u.sourceRefs || WorkRef(u.Id()) !in u.sourceRefs
    then ([], false)
    else if !u.gitAccepts || u.fault == Some(AfterGitObjects) then (Imports(u.Id()), false)
    else
      var copy := CopyData(b3, a, u);
      (Imports(u.Id()) + InStoreAll(copy.ops),
       && copy.ok && u.fault != Some(AfterCasObjects)
       && AllAvailable(b3, CasClosure.Run(b3, a.disk, copy.ops), u.Metadata().sidecars)
       && u.fault != Some(AfterDataVerification))
  }

  /** The metadata, then the marker if the snapshot is stored now, by this publish or before. */
  function MetadataWrites(a: Anchor, u: UploadRequest): seq<Write> {
    if HasSnapshot(PublishCanonical(a.tables, u.publish).0.snapshots, u.Id())
    then [PutRow(u.publish), DropMarker(u.Id())]
    else [PutRow(u.publish)]
  }

  /** `publish_snapshot_canonical_with_data`. */
  function UploadWrites(b3: Blake3, a: Anchor, u: UploadRequest): seq<Write> {
    if !MayMark(a, u) then []
    else
      var (data, ok) := DataWrites(b3, a, u);
      [PutMarker(MarkerOf(u.Metadata()))] + data + if ok then MetadataWrites(a, u) else []
  }

  /** `validate_pending_marker`. */
  predicate MarkerValid(project: string, m: Marker) {
    && RootIdSafe(m.snapshotId) && m.projectId == project
    && m.indexRef == IndexRef(m.snapshotId) && m.workRef == WorkRef(m.snapshotId)
  }

  predicate SafeNames(names: seq<string>) {
    forall n :: n in names ==> RootIdSafe(n)
  }

  /** The roots a cleanup removes: up to the first name it does not accept. */
  function RootDrops(names: seq<string>): seq<Write>
    decreases |names|
  {
    if names == [] || !RootIdSafe(names[0]) then []
    else [InStore(CasClosure.RemoveRoot(names[0]))] + RootDrops(names[1..])
  }

  /** `cleanup_pending_snapshot_upload`. To delete a ref that is not there is no error. */
  function CleanupWrites(a: Anchor, id: string, storeGiven: bool): seq<Write> {
    if !RootIdSafe(id) || JsonFile(id) !in a.markers || !MarkerValid(a.project, a.markers[JsonFile(id)]) then []
    else
      var m := a.markers[JsonFile(id)];
      var drops := if storeGiven then RootDrops(m.rootIds) else [];
      [DropRef(m.indexRef), DropRef(m.workRef)] + drops
      + if storeGiven && !SafeNames(m.rootIds) then [] else [DropMarker(id)]
  }

  /** What happens at an anchor. A process makes the first `made` writes of its operation and dies; with
      a number that is not below their count it came to its end. */
  datatype Event =
    | Upload(upload: UploadRequest, made: nat)
    | Cleanup(id: string, storeGiven: bool, made: nat)
    | Database(call: Call)

  function First(writes: seq<Write>, made: nat): seq<Write> {
    if made < |writes| then writes[..made] else writes
  }

  function Occurs(b3: Blake3, a: Anchor, e: Event): Anchor {
    match e
    case Upload(u, made) => DoAll(b3, a, First(UploadWrites(b3, a, u), made))
    case Cleanup(id, storeGiven, made) => DoAll(b3, a, First(CleanupWrites(a, id, storeGiven), made))
    case Database(call) => a.(tables := Apply(a.tables, call).0)
  }

  function After(b3: Blake3, a: Anchor, events: seq<Event>): Anchor {
    if events == [] then a
    else Occurs(b3, After(b3, a, events[..|events| - 1]), events[|events| - 1])
  }
}
