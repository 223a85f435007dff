/**
 Repeating an upload that stopped: whatever the first attempt left behind, the second one completes as
 if there had been no first.
 */
module UploadRetry {
  import opened Common
  import opened Cas
  import opened HandoffTables
  import opened Sidecars
  import opened SnapshotUpload
  import opened UploadRuns
  import CasClosure

  // ---------------------------------------------------------------- what a first attempt leaves in the store

  ghost predicate FromSource(b3: Blake3, source: Disk, file: ChunkPath, bytes: Bytes) {
    exists h: Hash :: file == ChunkFile(h) && Download(b3, source, h) == Ok(bytes)
  }

  /** The second store has the chunks of the first, and besides only chunks of the source. */
  ghost predicate Grown(b3: Blake3, source: Disk, d: Disk, e: Disk) {
    && CasClosure.Extends(d, e)
    && forall p :: p in e.chunks && p !in d.chunks ==> FromSource(b3, source, p, e.chunks[p])
  }

  predicate SourceOp(b3: Blake3, source: Disk, op: StoreOp) {
    op.Upload? ==> Download(b3, source, op.expected) == Ok(op.bytes)
  }

  lemma GrownAlike(b3: Blake3, source: Disk, d: Disk, e: Disk, f: Disk, g: Disk)
    requires Grown(b3, source, d, e) && f.chunks == d.chunks && g.chunks == e.chunks
    ensures Grown(b3, source, f, g)
  {
  }

  lemma SourceOpGrows(b3: Blake3, source: Disk, d: Disk, e: Disk, op: StoreOp)
    requires Grown(b3, source, d, e) && SourceOp(b3, source, op)
    ensures Grown(b3, source, d, CasClosure.Step(b3, e, op))
  {
    if op.Upload? {
      assert FromSource(b3, source, ChunkFile(op.expected), op.bytes);
    } else {
      GrownAlike(b3, source, d, e, d, CasClosure.Step(b3, e, op));
    }
  }

  lemma PutAgain(b3: Blake3, source: Disk, d: Disk, e: Disk, bytes: Bytes, hash: Hash)
    requires Grown(b3, source, d, e) && Download(b3, source, hash) == Ok(bytes)
    ensures ChunkFile(hash) in e.chunks && ChunkFile(hash) !in d.chunks ==> e.chunks[ChunkFile(hash)] == bytes
  {
    var file := ChunkFile(hash);
    if file !in d.chunks && file in e.chunks {
      var h: Hash :| file == ChunkFile(h) && Download(b3, source, h) == Ok(e.chunks[file]);
      ChunkFileInjective(h, hash);
    }
  }

  lemma BothPut(b3: Blake3, source: Disk, d: Disk, e: Disk, file: ChunkPath, bytes: Bytes)
    requires Grown(b3, source, d, e) && FromSource(b3, source, file, bytes)
    requires file in e.chunks && file !in d.chunks ==> e.chunks[file] == bytes
    ensures Grown(b3, source, if file in d.chunks then d else d.(chunks := d.chunks[file := bytes]),
                              if file in e.chunks then e else e.(chunks := e.chunks[file := bytes]))
  {
  }

  /** The same operation on both stores keeps them related, for it puts the same bytes. */
  lemma BothStep(b3: Blake3, source: Disk, d: Disk, e: Disk, op: StoreOp)
    requires Grown(b3, source, d, e) && SourceOp(b3, source, op)
    ensures Grown(b3, source, CasClosure.Step(b3, d, op), CasClosure.Step(b3, e, op))
  {
    if op.Upload? {
      PutAgain(b3, source, d, e, op.bytes, op.expected);
      BothPut(b3, source, d, e, ChunkFile(op.expected), op.bytes);
    } else {
      GrownAlike(b3, source, d, e, CasClosure.Step(b3, d, op), CasClosure.Step(b3, e, op));
    }
  }

  lemma {:induction false} BothRun(b3: Blake3, source: Disk, d: Disk, e: Disk, ops: seq<StoreOp>)
    requires Grown(b3, source, d, e) && forall op :: op in ops ==> SourceOp(b3, source, op)
    ensures Grown(b3, source, CasClosure.Run(b3, d, ops), CasClosure.Run(b3, e, ops))
    decreases |ops|
  {
    if ops != [] {
      assert SourceOp(b3, source, ops[0]);
      BothStep(b3, source, d, e, ops[0]);
      BothRun(b3, source, CasClosure.Step(b3, d, ops[0]), CasClosure.Step(b3, e, ops[0]), ops[1..]);
    }
  }

  // ---------------------------------------------------------------- the copy repeats itself

  lemma DownloadGrows(b3: Blake3, d: Disk, e: Disk, h: Hash)
    requires CasClosure.Extends(d, e) && Download(b3, d, h).Ok?
    ensures Download(b3, e, h) == Download(b3, d, h)
  {
  }

  lemma {:induction false} ChunksGrow(b3: Blake3, d: Disk, e: Disk, hashes: seq<Hash>)
    requires CasClosure.Extends(d, e) && Chunks(b3, d, hashes).Ok?
    ensures Chunks(b3, e, hashes) == Chunks(b3, d, hashes)
  {
    if hashes != [] {
      ChunksGrow(b3, d, e, hashes[..|hashes| - 1]);
      DownloadGrows(b3, d, e, hashes[|hashes| - 1]);
    }
  }

  lemma {:induction false} CopyChunksAgain(b3: Blake3, source: Disk, d: Disk, e: Disk, s: Sidecar,
                                           chunks: seq<ManifestChunk>)
    requires Grown(b3, source, d, e) && CopyChunks(b3, source, d, s, chunks, false).ok
    ensures CopyChunks(b3, source, e, s, chunks, false) == CopyChunks(b3, source, d, s, chunks, false)
    decreases |chunks|
  {
    if chunks != [] {
      var op := ChunkUpload(b3, source, d, s, chunks[0]).value;
      BothStep(b3, source, d, e, op);
      DownloadGrows(b3, CasClosure.Step(b3, d, op), CasClosure.Step(b3, e, op), chunks[0].hash);
      assert ChunkUpload(b3, source, e, s, chunks[0]) == Some(op);
      CopyChunksAgain(b3, source, CasClosure.Step(b3, d, op), CasClosure.Step(b3, e, op), s, chunks[1..]);
    }
  }

  lemma {:induction false} ChunkCopiesAreFromSource(b3: Blake3, source: Disk, d: Disk, s: Sidecar,
                                                    chunks: seq<ManifestChunk>, diskFull: bool)
    ensures forall op :: op in CopyChunks(b3, source, d, s, chunks, diskFull).ops ==> SourceOp(b3, source, op)
    decreases |chunks|
  {
    if chunks != [] && ChunkUpload(b3, source, d, s, chunks[0]).Some? && !diskFull {
      var op := ChunkUpload(b3, source, d, s, chunks[0]).value;
      ChunkCopiesAreFromSource(b3, source, CasClosure.Step(b3, d, op), s, chunks[1..], diskFull);
    }
  }

  lemma SidecarCopyIsFromSource(b3: Blake3, source: Disk, d: Disk, root: string, s: Sidecar, now: u64, diskFull: bool)
    ensures forall op :: op in CopySidecar(b3, source, d, root, s, now, diskFull).ops ==> SourceOp(b3, source, op)
  {
    if SidecarManifest(b3, source, s).Some? {
      ChunkCopiesAreFromSource(b3, source, d, s, SidecarManifest(b3, source, s).value.chunks, diskFull);
    }
  }

  lemma {:induction false} CopyIsFromSource(b3: Blake3, source: Disk, d: Disk, m: SnapshotMetadata, from: nat,
                                            now: u64, diskFull: bool)
    requires from <= |m.sidecars|
    ensures forall op :: op in CopySidecars(b3, source, d, m, from, now, diskFull).ops ==> SourceOp(b3, source, op)
    decreases |m.sidecars| - from
  {
    if from < |m.sidecars| {
      var root := RootId(m.snapshotId, from);
      SidecarCopyIsFromSource(b3, source, d, root, m.sidecars[from], now, diskFull);
      var one := CopySidecar(b3, source, d, root, m.sidecars[from], now, diskFull);
      if one.ok {
        CopyIsFromSource(b3, source, CasClosure.Run(b3, d, one.ops), m, from + 1, now, diskFull);
      }
    }
  }

  lemma FinishAgain(b3: Blake3, d: Disk, e: Disk, root: string, m: Manifest, now: u64)
    requires CasClosure.Extends(d, e) && FinishCopy(b3, d, root, m, now).ok
    ensures FinishCopy(b3, e, root, m, now) == FinishCopy(b3, d, root, m, now)
  {
    var hashes := HashesOf(m.chunks);
    ChunksGrow(b3, d, e, hashes);
    assert Created(b3, e, hashes, now) == Created(b3, d, hashes, now);
    CreatedAccepted(b3, d, hashes, now);
  }

  lemma CopySidecarAgain(b3: Blake3, source: Disk, d: Disk, e: Disk, root: string, s: Sidecar, now: u64)
    requires Grown(b3, source, d, e) && CopySidecar(b3, source, d, root, s, now, false).ok
    ensures CopySidecar(b3, source, e, root, s, now, false) == CopySidecar(b3, source, d, root, s, now, false)
  {
    var m := SidecarManifest(b3, source, s).value;
    var chunks := CopyChunks(b3, source, d, s, m.chunks, false);
    CopyChunksAgain(b3, source, d, e, s, m.chunks);
    ChunkCopiesAreFromSource(b3, source, d, s, m.chunks, false);
    BothRun(b3, source, d, e, chunks.ops);
    FinishAgain(b3, CasClosure.Run(b3, d, chunks.ops), CasClosure.Run(b3, e, chunks.ops), root, m, now);
  }

  lemma {:induction false} CopySidecarsAgain(b3: Blake3, source: Disk, d: Disk, e: Disk, m: SnapshotMetadata,
                                             from: nat, now: u64)
    requires from <= |m.sidecars| && Grown(b3, source, d, e) && CopySidecars(b3, source, d, m, from, now, false).ok
    ensures CopySidecars(b3, source, e, m, from, now, false) == CopySidecars(b3, source, d, m, from, now, false)
    decreases |m.sidecars| - from
  {
    if from < |m.sidecars| {
      var root := RootId(m.snapshotId, from);
      var one := CopySidecar(b3, source, d, root, m.sidecars[from], now, false);
      CopySidecarAgain(b3, source, d, e, root, m.sidecars[from], now);
      SidecarCopyIsFromSource(b3, source, d, root, m.sidecars[from], now, false);
      BothRun(b3, source, d, e, one.ops);
      CopySidecarsAgain(b3, source, CasClosure.Run(b3, d, one.ops), CasClosure.Run(b3, e, one.ops), m, from + 1, now);
    }
  }

  // ---------------------------------------------------------------- what is available after both

  predicate SameManifest(d: Disk, e: Disk, id: string) {
    && JsonFile(id) in d.manifests && JsonFile(id) in e.manifests
    && d.manifests[JsonFile(id)] == e.manifests[JsonFile(id)]
  }

  /** Every manifest that is created is created. */
  predicate Creates(b3: Blake3, d: Disk, ops: seq<StoreOp>)
    decreases |ops|
  {
    ops == []
    || (&& (ops[0].Create? ==> Created(b3, d, ops[0].hashes, ops[0].now).Ok?)
        && Creates(b3, CasClosure.Step(b3, d, ops[0]), ops[1..]))
  }

  lemma {:induction false} CreatesInTurn(b3: Blake3, d: Disk, first: seq<StoreOp>, second: seq<StoreOp>)
    ensures Creates(b3, d, first + second)
            <==> Creates(b3, d, first) && Creates(b3, CasClosure.Run(b3, d, first), second)
    decreases |first|
  {
    if first == [] {
      assert first + second == second;
    } else {
      CreatesInTurn(b3, CasClosure.Step(b3, d, first[0]), first[1..], second);
      assert (first + second)[1..] == first[1..] + second;
    }
  }

  lemma {:induction false} UploadsCreateNothing(b3: Blake3, d: Disk, ops: seq<StoreOp>)
    requires forall op :: op in ops ==> op.Upload?
    ensures Creates(b3, d, ops)
    decreases |ops|
  {
    if ops != [] {
      assert ops[0] in ops;
      UploadsCreateNothing(b3, CasClosure.Step(b3, d, ops[0]), ops[1..]);
    }
  }

  lemma {:induction false} RunKeepsSame(b3: Blake3, source: Disk, d: Disk, e: Disk, ops: seq<StoreOp>, id: string)
    requires Grown(b3, source, d, e) && (forall op :: op in ops ==> SourceOp(b3, source, op))
    requires Creates(b3, d, ops) && SameManifest(d, e, id)
    ensures SameManifest(CasClosure.Run(b3, d, ops), CasClosure.Run(b3, e, ops), id)
    decreases |ops|
  {
    if ops != [] {
      var op := ops[0];
      assert SourceOp(b3, source, op);
      BothStep(b3, source, d, e, op);
      if op.Create? {
        ChunksGrow(b3, d, e, op.hashes);
      }
      RunKeepsSame(b3, source, CasClosure.Step(b3, d, op), CasClosure.Step(b3, e, op), ops[1..], id);
    }
  }

  lemma FinishSame(b3: Blake3, d: Disk, e: Disk, root: string, m: Manifest, now: u64)
    requires CasClosure.Extends(d, e) && FinishCopy(b3, d, root, m, now).ok
    ensures var ops := FinishCopy(b3, d, root, m, now).ops;
            && Creates(b3, d, ops)
            && SameManifest(CasClosure.Run(b3, d, ops), CasClosure.Run(b3, e, ops), m.id)
  {
    var ops := FinishCopy(b3, d, root, m, now).ops;
    ChunksGrow(b3, d, e, HashesOf(m.chunks));
    assert ops[1..] == [ops[1]] && ops[1..][1..] == [];
    var f, g := CasClosure.Step(b3, d, ops[0]), CasClosure.Step(b3, e, ops[0]);
    assert Creates(b3, CasClosure.Step(b3, f, ops[1]), []);
    assert CasClosure.Run(b3, d, ops) == CasClosure.Run(b3, CasClosure.Step(b3, f, ops[1]), []);
    assert CasClosure.Run(b3, e, ops) == CasClosure.Run(b3, CasClosure.Step(b3, g, ops[1]), []);
  }

  lemma SidecarSame(b3: Blake3, source: Disk, d: Disk, e: Disk, root: string, s: Sidecar, now: u64)
    requires Grown(b3, source, d, e) && CopySidecar(b3, source, d, root, s, now, false).ok
    ensures var ops := CopySidecar(b3, source, d, root, s, now, false).ops;
            && Creates(b3, d, ops)
            && SameManifest(CasClosure.Run(b3, d, ops), CasClosure.Run(b3, e, ops), s.manifestId)
  {
    var m := SidecarManifest(b3, source, s).value;
    var chunks := CopyChunks(b3, source, d, s, m.chunks, false).ops;
    ChunksAreUploads(b3, source, d, s, m.chunks, false);
    ChunkCopiesAreFromSource(b3, source, d, s, m.chunks, false);
    UploadsCreateNothing(b3, d, chunks);
    BothRun(b3, source, d, e, chunks);
    var f, g := CasClosure.Run(b3, d, chunks), CasClosure.Run(b3, e, chunks);
    FinishSame(b3, f, g, root, m, now);
    var finish := FinishCopy(b3, f, root, m, now).ops;
    CreatesInTurn(b3, d, chunks, finish);
    RunInTurn(b3, d, chunks, finish);
    RunInTurn(b3, e, chunks, finish);
  }

  /** What the copy from the given sidecar on leaves in both stores. */
  ghost predicate SameFrom(b3: Blake3, d: Disk, e: Disk, ops: seq<StoreOp>, m: SnapshotMetadata, from: nat) {
    && Creates(b3, d, ops)
    && forall i :: from <= i < |m.sidecars| ==>
         SameManifest(CasClosure.Run(b3, d, ops), CasClosure.Run(b3, e, ops), m.sidecars[i].manifestId)
  }

  lemma OneMoreSame(b3: Blake3, source: Disk, d: Disk, e: Disk, one: seq<StoreOp>, rest: seq<StoreOp>,
                    m: SnapshotMetadata, from: nat)
    requires from < |m.sidecars| && Creates(b3, d, one)
    requires forall op :: op in rest ==> SourceOp(b3, source, op)
    requires var f, g := CasClosure.Run(b3, d, one), CasClosure.Run(b3, e, one);
             && Grown(b3, source, f, g) && SameManifest(f, g, m.sidecars[from].manifestId)
             && SameFrom(b3, f, g, rest, m, from + 1)
    ensures SameFrom(b3, d, e, one + rest, m, from)
  {
    var f, g := CasClosure.Run(b3, d, one), CasClosure.Run(b3, e, one);
    CreatesInTurn(b3, d, one, rest);
    RunInTurn(b3, d, one, rest);
    RunInTurn(b3, e, one, rest);
    RunKeepsSame(b3, source, f, g, rest, m.sidecars[from].manifestId);
  }

  lemma {:induction false} SidecarsSame(b3: Blake3, source: Disk, d: Disk, e: Disk, m: SnapshotMetadata,
                                        from: nat, now: u64)
    requires from <= |m.sidecars| && Grown(b3, source, d, e) && CopySidecars(b3, source, d, m, from, now, false).ok
    ensures SameFrom(b3, d, e, CopySidecars(b3, source, d, m, from, now, false).ops, m, from)
    decreases |m.sidecars| - from
  {
    if from < |m.sidecars| {
      var root := RootId(m.snapshotId, from);
      var one := CopySidecar(b3, source, d, root, m.sidecars[from], now, false);
      SidecarSame(b3, source, d, e, root, m.sidecars[from], now);
      SidecarCopyIsFromSource(b3, source, d, root, m.sidecars[from], now, false);
      BothRun(b3, source, d, e, one.ops);
      var f, g := CasClosure.Run(b3, d, one.ops), CasClosure.Run(b3, e, one.ops);
      SidecarsSame(b3, source, f, g, m, from + 1, now);
      CopyIsFromSource(b3, source, f, m, from + 1, now, false);
      OneMoreSame(b3, source, d, e, one.ops, CopySidecars(b3, source, f, m, from + 1, now, false).ops, m, from);
    }
  }

  lemma SameIsAvailable(b3: Blake3, d: Disk, e: Disk, s: Sidecar)
    requires CasClosure.Extends(d, e) && SameManifest(d, e, s.manifestId) && Available(b3, d, s)
    ensures Available(b3, e, s)
  {
    AvailableExactly(b3, d, s);
    AvailableExactly(b3, e, s);
    var m := Fetched(b3, d, s.manifestId).value;
    forall c | c in m.chunks ensures Download(b3, e, c.hash).Ok? {
      DownloadGrows(b3, d, e, c.hash);
    }
  }

  // ---------------------------------------------------------------- the second attempt

  function Names(u: UploadRequest): set<string> {
    {IndexRef(u.Id()), WorkRef(u.Id())}
  }

  /** What the first attempt can have changed, wherever it stopped. */
  ghost predicate Between(b3: Blake3, a: Anchor, e: Anchor, u: UploadRequest) {
    && e.project == a.project
    && a.refs <= e.refs <= a.refs + Names(u)
    && e.markers - {JsonFile(u.Id())} == a.markers - {JsonFile(u.Id())}
    && (e.tables == a.tables || e.tables == PublishCanonical(a.tables, u.publish).0)
    && (u.source.Some? ==> Grown(b3, u.source.value, a.disk, e.disk))
  }

  predicate AttemptWrites(b3: Blake3, u: UploadRequest, w: Write) {
    match w
    case PutMarker(m) => m.snapshotId == u.Id()
    case DropMarker(id) => id == u.Id()
    case PutRef(refname) => refname in Names(u)
    case DropRef(_) => false
    case InStore(op) => u.source.Some? ==> SourceOp(b3, u.source.value, op)
    case PutRow(r) => r == u.publish
  }

  lemma PublishTwice(t: Tables, r: PublishRequest)
    ensures var once := PublishCanonical(t, r).0; PublishCanonical(once, r).0 == once
  {
    var once := PublishCanonical(t, r).0;
    if PublishRefusal(t, r).None? {
      assert once.snapshots[|once.snapshots| - 1] in once.snapshots;
      assert HasSnapshot(once.snapshots, r.metadata.snapshotId);
    }
  }

  lemma WriteStaysBetween(b3: Blake3, a: Anchor, e: Anchor, u: UploadRequest, w: Write)
    requires Between(b3, a, e, u) && AttemptWrites(b3, u, w)
    ensures Between(b3, a, Do(b3, e, w), u)
  {
    match w {
      case PutMarker(m) =>
        assert (e.markers[JsonFile(u.Id()) := m]) - {JsonFile(u.Id())} == e.markers - {JsonFile(u.Id())};
      case DropMarker(id) =>
        assert (e.markers - {JsonFile(id)}) - {JsonFile(id)} == e.markers - {JsonFile(id)};
      case PutRef(refname) =>
      case DropRef(_) =>
      case InStore(op) =>
        if u.source.Some? {
          SourceOpGrows(b3, u.source.value, a.disk, e.disk, op);
        }
      case PutRow(r) => PublishTwice(a.tables, r);
    }
  }

  lemma {:induction false} WritesStayBetween(b3: Blake3, a: Anchor, e: Anchor, u: UploadRequest, writes: seq<Write>)
    requires Between(b3, a, e, u) && forall w :: w in writes ==> AttemptWrites(b3, u, w)
    ensures Between(b3, a, DoAll(b3, e, writes), u)
    decreases |writes|
  {
    if writes != [] {
      assert writes[0] in writes;
      WriteStaysBetween(b3, a, e, u, writes[0]);
      WritesStayBetween(b3, a, Do(b3, e, writes[0]), u, writes[1..]);
    }
  }

  lemma AttemptStaysBetween(b3: Blake3, a: Anchor, u: UploadRequest, made: nat)
    ensures Between(b3, a, Occurs(b3, a, Upload(u, made)), u)
  {
    var all := UploadWrites(b3, a, u);
    if u.source.Some? {
      CopyIsFromSource(b3, u.source.value, a.disk, u.Metadata(), 0, u.now, u.fault == Some(DuringCasUploadDiskFull));
    }
    forall w | w in First(all, made) ensures AttemptWrites(b3, u, w) {
      assert w in all;
    }
    WritesStayBetween(b3, a, a, u, First(all, made));
  }

  predicate SameData(u: UploadRequest, r: UploadRequest) {
    r.publish == u.publish && r.source == u.source
  }

  lemma AvailableAgain(b3: Blake3, source: Disk, d: Disk, e: Disk, m: SnapshotMetadata, now: u64)
    requires Grown(b3, source, d, e) && CopySidecars(b3, source, d, m, 0, now, false).ok
    requires AllAvailable(b3, CasClosure.Run(b3, d, CopySidecars(b3, source, d, m, 0, now, false).ops), m.sidecars)
    ensures AllAvailable(b3, CasClosure.Run(b3, e, CopySidecars(b3, source, d, m, 0, now, false).ops), m.sidecars)
  {
    var ops := CopySidecars(b3, source, d, m, 0, now, false).ops;
    CopyIsFromSource(b3, source, d, m, 0, now, false);
    BothRun(b3, source, d, e, ops);
    SidecarsSame(b3, source, d, e, m, 0, now);
    var f, g := CasClosure.Run(b3, d, ops), CasClosure.Run(b3, e, ops);
    forall s | s in m.sidecars ensures Available(b3, g, s) {
      var i :| 0 <= i < |m.sidecars| && m.sidecars[i] == s;
      assert SameManifest(f, g, m.sidecars[i].manifestId);
      SameIsAvailable(b3, f, g, s);
    }
  }

  lemma CopyAgain(b3: Blake3, a: Anchor, e: Anchor, r: UploadRequest)
    requires r.source.Some? && r.fault.None? && Grown(b3, r.source.value, a.disk, e.disk) && CopyData(b3, a, r).ok
    requires AllAvailable(b3, CasClosure.Run(b3, a.disk, CopyData(b3, a, r).ops), r.Metadata().sidecars)
    ensures CopyData(b3, e, r) == CopyData(b3, a, r)
    ensures AllAvailable(b3, CasClosure.Run(b3, e.disk, CopyData(b3, a, r).ops), r.Metadata().sidecars)
  {
    if r.Metadata().sidecars != [] {
      CopySidecarsAgain(b3, r.source.value, a.disk, e.disk, r.Metadata(), 0, r.now);
      AvailableAgain(b3, r.source.value, a.disk, e.disk, r.Metadata(), r.now);
    }
  }

  /** The second attempt makes the very writes that an upload without a first attempt would make. */
  lemma WritesAgain(b3: Blake3, a: Anchor, e: Anchor, u: UploadRequest, r: UploadRequest)
    requires Between(b3, a, e, u) && SameData(u, r) && r.fault.None? && MayMark(a, r) && DataWrites(b3, a, r).1
    ensures MayMark(e, r) && DataWrites(b3, e, r) == DataWrites(b3, a, r)
    ensures UploadWrites(b3, e, r) == UploadWrites(b3, a, r)
    ensures PublishCanonical(e.tables, r.publish).0 == PublishCanonical(a.tables, r.publish).0
  {
    PublishTwice(a.tables, r.publish);
    if r.source.Some? {
      CopyAgain(b3, a, e, r);
    }
  }

  /** An upload that comes to its end. */
  lemma WholeUpload(b3: Blake3, a: Anchor, u: UploadRequest)
    requires MayMark(a, u) && DataWrites(b3, a, u).1
    ensures var e := Occurs(b3, a, Upload(u, |UploadWrites(b3, a, u)|));
            var file := JsonFile(u.Id());
            && Retained(e, u.Id(), ManifestsOf(u.Metadata()))
            && AllAvailable(b3, e.disk, u.Metadata().sidecars)
            && e.project == a.project
            && e.tables == PublishCanonical(a.tables, u.publish).0
            && e.refs == a.refs + Names(u)
            && e.markers == if HasSnapshot(e.tables.snapshots, u.Id()) then a.markers - {file}
                            else a.markers[file := MarkerOf(u.Metadata())]
  {
    var all, before := UploadWrites(b3, a, u), BeforeMetadata(b3, a, u);
    assert First(all, |all|) == all;
    WritesInTurn(b3, a, u);
    DataIsThere(b3, a, u);
    MetadataUntouched(b3, a, before);
    var ready := DoAll(b3, a, before);
    DoInTurn(b3, a, before, MetadataWrites(a, u));
    DoTwo(b3, ready, PutRow(u.publish), DropMarker(u.Id()));
    assert ready.markers - {JsonFile(u.Id())} == a.markers - {JsonFile(u.Id())};
  }

  /** Wherever a first attempt stopped, by a fault, a failed check or the death of its process: if the
      upload would complete without it, repeating the upload completes, and leaves the metadata, the refs
      and the markers that it would have left without a first attempt, with all data there. */
  lemma RetryCompletes(b3: Blake3, a: Anchor, u: UploadRequest, made: nat, r: UploadRequest)
    requires SameData(u, r) && r.fault.None? && MayMark(a, r) && DataWrites(b3, a, r).1
    ensures var n := |UploadWrites(b3, a, r)|;
            var once := Occurs(b3, a, Upload(r, n));
            var again := After(b3, a, [Upload(u, made), Upload(r, n)]);
            && again.tables == once.tables && again.refs == once.refs && again.markers == once.markers
            && Retained(again, r.Id(), ManifestsOf(r.Metadata()))
            && AllAvailable(b3, again.disk, r.Metadata().sidecars)
  {
    var n, e := |UploadWrites(b3, a, r)|, Occurs(b3, a, Upload(u, made));
    InTurn(b3, a, Upload(u, made), Upload(r, n));
    AttemptStaysBetween(b3, a, u, made);
    WritesAgain(b3, a, e, u, r);
    WholeUpload(b3, a, r);
    WholeUpload(b3, e, r);
    var file := JsonFile(r.Id());
    MapsAgree(a.markers, e.markers, file, MarkerOf(r.Metadata()));
  }

  lemma MapsAgree(m: map<string, Marker>, n: map<string, Marker>, key: string, value: Marker)
    requires m - {key} == n - {key}
    ensures m[key := value] == n[key := value]
  {
    assert (m - {key})[key := value] == m[key := value];
    assert (n - {key})[key := value] == n[key := value];
  }
}
