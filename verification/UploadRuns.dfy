/**
 What the upload protocol guarantees over whole runs with crashes: metadata never comes before its
 data, and exactly when a stored snapshot loses its refs or roots again.
 */
module UploadRuns {
  import opened Common
  import opened Cas
  import opened HandoffTables
  import opened Sidecars
  import opened SnapshotUpload
  import CasClosure
  import HandoffSnapshots

  // ---------------------------------------------------------------- what is kept for a snapshot

  predicate NamesRoot(d: Disk, id: string, i: nat, manifest: string) {
    JsonFile(RootId(id, i)) in d.roots && d.roots[JsonFile(RootId(id, i))].manifestId == manifest
  }

  predicate RefsKept(a: Anchor, id: string) {
    IndexRef(id) in a.refs && WorkRef(id) in a.refs
  }

  /** Both refs of the snapshot are there, and a root for each of its manifests. */
  predicate Retained(a: Anchor, id: string, manifests: seq<string>) {
    RefsKept(a, id) && forall i :: 0 <= i < |manifests| ==> NamesRoot(a.disk, id, i, manifests[i])
  }

  function ManifestsOf(m: SnapshotMetadata): seq<string> {
    MarkerOf(m).manifestIds
  }

  // ---------------------------------------------------------------- what an upload writes

  /** A root is written only for a sidecar of the snapshot, under its name, and none is removed. */
  predicate OwnOp(op: StoreOp, m: SnapshotMetadata) {
    && !op.RemoveRoot?
    && (op.AddRoot? ==> exists i :: 0 <= i < |m.sidecars| && op.rootId == RootId(m.snapshotId, i)
                                    && op.manifestId == m.sidecars[i].manifestId)
  }

  predicate OwnOps(ops: seq<StoreOp>, m: SnapshotMetadata) {
    forall op :: op in ops ==> OwnOp(op, m)
  }

  predicate TakesHold(b3: Blake3, d: Disk, op: StoreOp) {
    op.AddRoot? ==> RootIdSafe(op.rootId) && Fetched(b3, d, op.manifestId).Some?
  }

  /** Every root that is written is written: its manifest fetches then. */
  predicate AllTakeHold(b3: Blake3, d: Disk, ops: seq<StoreOp>)
    decreases |ops|
  {
    ops == [] || (TakesHold(b3, d, ops[0]) && AllTakeHold(b3, CasClosure.Step(b3, d, ops[0]), ops[1..]))
  }

  lemma {:induction false} RunInTurn(b3: Blake3, d: Disk, first: seq<StoreOp>, second: seq<StoreOp>)
    ensures CasClosure.Run(b3, d, first + second) == CasClosure.Run(b3, CasClosure.Run(b3, d, first), second)
    ensures AllTakeHold(b3, d, first + second)
            <==> AllTakeHold(b3, d, first) && AllTakeHold(b3, CasClosure.Run(b3, d, first), second)
    decreases |first|
  {
    if first == [] {
      assert first + second == second;
    } else {
      RunInTurn(b3, CasClosure.Step(b3, d, first[0]), first[1..], second);
      assert (first + second)[1..] == first[1..] + second;
    }
  }

  lemma {:induction false} ChunksAreUploads(b3: Blake3, source: Disk, d: Disk, s: Sidecar,
                                            chunks: seq<ManifestChunk>, diskFull: bool)
    ensures forall op :: op in CopyChunks(b3, source, d, s, chunks, diskFull).ops ==> op.Upload?
    ensures AllTakeHold(b3, d, CopyChunks(b3, source, d, s, chunks, diskFull).ops)
    decreases |chunks|
  {
    if chunks != [] && ChunkUpload(b3, source, d, s, chunks[0]).Some? {
      var op := ChunkUpload(b3, source, d, s, chunks[0]).value;
      if diskFull {
        assert AllTakeHold(b3, CasClosure.Step(b3, d, op), []);
      } else {
        ChunksAreUploads(b3, source, CasClosure.Step(b3, d, op), s, chunks[1..], diskFull);
        var rest := CopyChunks(b3, source, CasClosure.Step(b3, d, op), s, chunks[1..], diskFull).ops;
        assert ([op] + rest)[1..] == rest;
      }
    }
  }

  lemma FinishTakesHold(b3: Blake3, d: Disk, root: string, m: Manifest, now: u64)
    ensures var c := FinishCopy(b3, d, root, m, now);
            && AllTakeHold(b3, d, c.ops)
            && (forall op :: op in c.ops ==> op.Create? || (op.AddRoot? && op.rootId == root && op.manifestId == m.id))
            && (c.ok ==> && JsonFile(root) in CasClosure.Run(b3, d, c.ops).roots
                         && CasClosure.Run(b3, d, c.ops).roots[JsonFile(root)].manifestId == m.id)
  {
    var c := FinishCopy(b3, d, root, m, now);
    if c.ops != [] {
      var e := CasClosure.Step(b3, d, c.ops[0]);
      if c.ok {
        assert c.ops[1..] == [c.ops[1]] && c.ops[1..][1..] == [];
        var f := CasClosure.Step(b3, e, c.ops[1]);
        assert AllTakeHold(b3, f, []) && CasClosure.Run(b3, f, []) == f;
        assert AllTakeHold(b3, e, c.ops[1..]);
        assert CasClosure.Run(b3, d, c.ops) == CasClosure.Run(b3, e, c.ops[1..]) == f;
      } else {
        assert c.ops[1..] == [] && AllTakeHold(b3, e, []);
      }
    }
  }

  /** The chunks, then the manifest and the root of the sidecar. */
  lemma ChunksThenRoot(b3: Blake3, d: Disk, chunks: seq<StoreOp>, c: Copy, m: SnapshotMetadata, i: nat)
    requires i < |m.sidecars| && AllTakeHold(b3, d, chunks) && forall op :: op in chunks ==> op.Upload?
    requires AllTakeHold(b3, CasClosure.Run(b3, d, chunks), c.ops)
    requires forall op :: op in c.ops ==>
               op.Create? || (op.AddRoot? && op.rootId == RootId(m.snapshotId, i)
                              && op.manifestId == m.sidecars[i].manifestId)
    ensures OwnOps(chunks + c.ops, m) && AllTakeHold(b3, d, chunks + c.ops)
  {
    RunInTurn(b3, d, chunks, c.ops);
  }

  lemma SidecarCopied(b3: Blake3, source: Disk, d: Disk, m: SnapshotMetadata, i: nat, now: u64, diskFull: bool)
    requires i < |m.sidecars|
    ensures var c := CopySidecar(b3, source, d, RootId(m.snapshotId, i), m.sidecars[i], now, diskFull);
            && OwnOps(c.ops, m) && AllTakeHold(b3, d, c.ops)
            && (c.ok ==> NamesRoot(CasClosure.Run(b3, d, c.ops), m.snapshotId, i, m.sidecars[i].manifestId))
  {
    var root, s := RootId(m.snapshotId, i), m.sidecars[i];
    if SidecarManifest(b3, source, s).Some? {
      var manifest := SidecarManifest(b3, source, s).value;
      ChunksAreUploads(b3, source, d, s, manifest.chunks, diskFull);
      var chunks := CopyChunks(b3, source, d, s, manifest.chunks, diskFull);
      if chunks.ok {
        var e := CasClosure.Run(b3, d, chunks.ops);
        var finish := FinishCopy(b3, e, root, manifest, now);
        FinishTakesHold(b3, e, root, manifest, now);
        ChunksThenRoot(b3, d, chunks.ops, finish, m, i);
        RunInTurn(b3, d, chunks.ops, finish.ops);
      }
    }
  }

  lemma OwnOpKeepsRoot(b3: Blake3, d: Disk, op: StoreOp, m: SnapshotMetadata, i: nat)
    requires IsSnapshotId(m.snapshotId) && OwnOp(op, m) && i < |m.sidecars|
    requires NamesRoot(d, m.snapshotId, i, m.sidecars[i].manifestId)
    ensures NamesRoot(CasClosure.Step(b3, d, op), m.snapshotId, i, m.sidecars[i].manifestId)
  {
    if op.AddRoot? {
      var j :| 0 <= j < |m.sidecars| && op.rootId == RootId(m.snapshotId, j)
               && op.manifestId == m.sidecars[j].manifestId;
      if JsonFile(op.rootId) == JsonFile(RootId(m.snapshotId, i)) {
        JsonFileInjective(op.rootId, RootId(m.snapshotId, i));
        RootIdInjective(m.snapshotId, i, m.snapshotId, j);
      }
    }
  }

  lemma {:induction false} OwnOpsKeepRoot(b3: Blake3, d: Disk, ops: seq<StoreOp>, m: SnapshotMetadata, i: nat)
    requires IsSnapshotId(m.snapshotId) && OwnOps(ops, m) && i < |m.sidecars|
    requires NamesRoot(d, m.snapshotId, i, m.sidecars[i].manifestId)
    ensures NamesRoot(CasClosure.Run(b3, d, ops), m.snapshotId, i, m.sidecars[i].manifestId)
    decreases |ops|
  {
    if ops != [] {
      OwnOpKeepsRoot(b3, d, ops[0], m, i);
      OwnOpsKeepRoot(b3, CasClosure.Step(b3, d, ops[0]), ops[1..], m, i);
    }
  }

  /** What a copy of the sidecars from the given one on has done. */
  ghost predicate CopiedFrom(b3: Blake3, d: Disk, c: Copy, m: SnapshotMetadata, from: nat) {
    && OwnOps(c.ops, m) && AllTakeHold(b3, d, c.ops)
    && (c.ok ==> forall i :: from <= i < |m.sidecars| ==>
          NamesRoot(CasClosure.Run(b3, d, c.ops), m.snapshotId, i, m.sidecars[i].manifestId))
  }

  lemma OneMoreCopied(b3: Blake3, d: Disk, one: seq<StoreOp>, rest: Copy, m: SnapshotMetadata, from: nat)
    requires IsSnapshotId(m.snapshotId) && from < |m.sidecars| && OwnOps(one, m) && AllTakeHold(b3, d, one)
    requires NamesRoot(CasClosure.Run(b3, d, one), m.snapshotId, from, m.sidecars[from].manifestId)
    requires CopiedFrom(b3, CasClosure.Run(b3, d, one), rest, m, from + 1)
    ensures CopiedFrom(b3, d, Copy(one + rest.ops, rest.ok), m, from)
  {
    RunInTurn(b3, d, one, rest.ops);
    OwnOpsKeepRoot(b3, CasClosure.Run(b3, d, one), rest.ops, m, from);
  }

  lemma {:induction false} SidecarsCopied(b3: Blake3, source: Disk, d: Disk, m: SnapshotMetadata, from: nat,
                                          now: u64, diskFull: bool)
    requires from <= |m.sidecars| && IsSnapshotId(m.snapshotId)
    ensures CopiedFrom(b3, d, CopySidecars(b3, source, d, m, from, now, diskFull), m, from)
    decreases |m.sidecars| - from
  {
    if from < |m.sidecars| {
      SidecarCopied(b3, source, d, m, from, now, diskFull);
      var one := CopySidecar(b3, source, d, RootId(m.snapshotId, from), m.sidecars[from], now, diskFull);
      if one.ok {
        var e := CasClosure.Run(b3, d, one.ops);
        SidecarsCopied(b3, source, e, m, from + 1, now, diskFull);
        OneMoreCopied(b3, d, one.ops, CopySidecars(b3, source, e, m, from + 1, now, diskFull), m, from);
      }
    }
  }

  lemma DataCopied(b3: Blake3, a: Anchor, u: UploadRequest)
    requires MayMark(a, u)
    ensures CopiedFrom(b3, a.disk, CopyData(b3, a, u), u.Metadata(), 0)
  {
    if u.source.Some? {
      SidecarsCopied(b3, u.source.value, a.disk, u.Metadata(), 0, u.now, u.fault == Some(DuringCasUploadDiskFull));
    }
  }

  // ---------------------------------------------------------------- data before metadata

  lemma {:induction false} StoreWrites(b3: Blake3, a: Anchor, ops: seq<StoreOp>)
    ensures DoAll(b3, a, InStoreAll(ops)) == a.(disk := CasClosure.Run(b3, a.disk, ops))
    decreases |ops|
  {
    if ops != [] {
      assert InStoreAll(ops)[1..] == InStoreAll(ops[1..]);
      StoreWrites(b3, Do(b3, a, InStore(ops[0])), ops[1..]);
    }
  }

  lemma DoTwo(b3: Blake3, a: Anchor, v: Write, w: Write)
    ensures DoAll(b3, a, [v]) == Do(b3, a, v)
    ensures DoAll(b3, a, [v, w]) == Do(b3, Do(b3, a, v), w)
  {
    assert [v][1..] == [] && [v, w][1..] == [w] && [w][1..] == [];
    assert DoAll(b3, Do(b3, a, v), [w]) == DoAll(b3, Do(b3, Do(b3, a, v), w), []);
  }

  predicate TouchesMetadata(w: Write) {
    w.PutRow? || w.DropMarker?
  }

  /** The marker and the data: everything an upload writes before the metadata. */
  function BeforeMetadata(b3: Blake3, a: Anchor, u: UploadRequest): seq<Write> {
    [PutMarker(MarkerOf(u.Metadata()))] + DataWrites(b3, a, u).0
  }

  lemma WritesInTurn(b3: Blake3, a: Anchor, u: UploadRequest)
    requires MayMark(a, u)
    ensures UploadWrites(b3, a, u)
            == BeforeMetadata(b3, a, u) + if DataWrites(b3, a, u).1 then MetadataWrites(a, u) else []
    ensures forall w :: w in BeforeMetadata(b3, a, u) ==> !TouchesMetadata(w)
  {
  }

  lemma {:induction false} MetadataUntouched(b3: Blake3, a: Anchor, writes: seq<Write>)
    requires forall w :: w in writes ==> !w.PutRow?
    ensures DoAll(b3, a, writes).tables == a.tables && DoAll(b3, a, writes).project == a.project
    decreases |writes|
  {
    if writes != [] {
      MetadataUntouched(b3, Do(b3, a, writes[0]), writes[1..]);
    }
  }

  /** The anchor as it is when the metadata is about to be published. */
  lemma DataIsThere(b3: Blake3, a: Anchor, u: UploadRequest)
    requires MayMark(a, u) && DataWrites(b3, a, u).1
    ensures var e := DoAll(b3, a, BeforeMetadata(b3, a, u));
            && Retained(e, u.Id(), ManifestsOf(u.Metadata()))
            && AllAvailable(b3, e.disk, u.Metadata().sidecars)
            && e.tables == a.tables && e.refs == a.refs + {IndexRef(u.Id()), WorkRef(u.Id())}
            && e.markers == a.markers[JsonFile(u.Id()) := MarkerOf(u.Metadata())]
  {
    var marked := Do(b3, a, PutMarker(MarkerOf(u.Metadata())));
    var copy := CopyData(b3, a, u);
    DoInTurn(b3, a, [PutMarker(MarkerOf(u.Metadata()))], DataWrites(b3, a, u).0);
    DoTwo(b3, a, PutMarker(MarkerOf(u.Metadata())), PutRef(IndexRef(u.Id())));
    DoInTurn(b3, marked, Imports(u.Id()), InStoreAll(copy.ops));
    DoTwo(b3, marked, PutRef(IndexRef(u.Id())), PutRef(WorkRef(u.Id())));
    StoreWrites(b3, DoAll(b3, marked, Imports(u.Id())), copy.ops);
    DataCopied(b3, a, u);
  }

  /** Metadata never comes before its data: whatever fault is injected and wherever the process dies, a
      publish that has stored the snapshot has left its refs, a root for each manifest and every chunk. */
  lemma PublishedHasItsData(b3: Blake3, a: Anchor, u: UploadRequest, made: nat)
    requires !HasSnapshot(a.tables.snapshots, u.Id())
    requires HasSnapshot(Occurs(b3, a, Upload(u, made)).tables.snapshots, u.Id())
    ensures var e := Occurs(b3, a, Upload(u, made));
            Retained(e, u.Id(), ManifestsOf(u.Metadata())) && AllAvailable(b3, e.disk, u.Metadata().sidecars)
  {
    var writes := UploadWrites(b3, a, u);
    if MayMark(a, u) {
      WritesInTurn(b3, a, u);
      var before, n := BeforeMetadata(b3, a, u), |BeforeMetadata(b3, a, u)|;
      if made <= n || !DataWrites(b3, a, u).1 {
        assert forall w :: w in First(writes, made) ==> w in before;
        MetadataUntouched(b3, a, First(writes, made));
      } else {
        DataIsThere(b3, a, u);
        var rest := First(MetadataWrites(a, u), made - n);
        assert First(writes, made) == before + rest;
        DoInTurn(b3, a, before, rest);
        OnlyMetadata(b3, DoAll(b3, a, before), rest);
      }
    }
  }

  lemma UploadInTurn(b3: Blake3, a: Anchor, u: UploadRequest)
    requires MayMark(a, u)
    ensures var marked := Do(b3, a, PutMarker(MarkerOf(u.Metadata())));
            var ready := DoAll(b3, marked, DataWrites(b3, marked, u).0);
            && DataWrites(b3, marked, u) == DataWrites(b3, a, u)
            && ready.tables == a.tables
            && DoAll(b3, a, UploadWrites(b3, a, u))
               == if DataWrites(b3, a, u).1 then DoAll(b3, ready, MetadataWrites(ready, u)) else ready
  {
    var mark := PutMarker(MarkerOf(u.Metadata()));
    var data := DataWrites(b3, a, u).0;
    DoTwo(b3, a, mark, mark);
    DoInTurn(b3, a, [mark], data);
    WritesInTurn(b3, a, u);
    var before := BeforeMetadata(b3, a, u);
    MetadataUntouched(b3, a, before);
    DoInTurn(b3, a, before, if DataWrites(b3, a, u).1 then MetadataWrites(a, u) else []);
  }

  lemma {:induction false} OnlyMetadata(b3: Blake3, a: Anchor, writes: seq<Write>)
    requires forall w :: w in writes ==> TouchesMetadata(w)
    ensures DoAll(b3, a, writes).refs == a.refs && DoAll(b3, a, writes).disk == a.disk
    decreases |writes|
  {
    if writes != [] {
      assert TouchesMetadata(writes[0]);
      OnlyMetadata(b3, Do(b3, a, writes[0]), writes[1..]);
    }
  }

  // ---------------------------------------------------------------- losing it again

  ghost predicate MarkerFits(a: Anchor, file: string)
    requires file in a.markers
  {
    var m := a.markers[file];
    && file == JsonFile(m.snapshotId) && IsSnapshotId(m.snapshotId) && MarkerValid(a.project, m)
    && m.rootIds == RootIds(m.snapshotId, |m.rootIds|)
  }

  /** Every marker file lies under the id it holds and names the refs and roots of that id. */
  ghost predicate MarkersFit(a: Anchor) {
    forall f :: f in a.markers ==> MarkerFits(a, f)
  }

  /** A write that can take something away from what is kept for the snapshot. */
  predicate Harms(w: Write, id: string, manifests: seq<string>) {
    || w == DropRef(IndexRef(id)) || w == DropRef(WorkRef(id))
    || (w.InStore? && w.op.RemoveRoot? && exists i :: 0 <= i < |manifests| && w.op.rootId == RootId(id, i))
    || (w.InStore? && w.op.AddRoot?
        && exists i :: 0 <= i < |manifests| && w.op.rootId == RootId(id, i) && w.op.manifestId != manifests[i])
  }

  lemma HarmlessWrite(b3: Blake3, a: Anchor, w: Write, id: string, manifests: seq<string>)
    requires Retained(a, id, manifests) && !Harms(w, id, manifests)
    ensures Retained(Do(b3, a, w), id, manifests)
  {
    var e := Do(b3, a, w);
    forall i | 0 <= i < |manifests| ensures NamesRoot(e.disk, id, i, manifests[i]) {
      assert NamesRoot(a.disk, id, i, manifests[i]);
      if w.InStore? && (w.op.RemoveRoot? || w.op.AddRoot?) && JsonFile(w.op.rootId) == JsonFile(RootId(id, i)) {
        JsonFileInjective(w.op.rootId, RootId(id, i));
      }
    }
  }

  lemma {:induction false} HarmlessWrites(b3: Blake3, a: Anchor, writes: seq<Write>, id: string, manifests: seq<string>)
    requires Retained(a, id, manifests) && forall w :: w in writes ==> !Harms(w, id, manifests)
    ensures Retained(DoAll(b3, a, writes), id, manifests)
    decreases |writes|
  {
    if writes != [] {
      assert writes[0] in writes;
      HarmlessWrite(b3, a, writes[0], id, manifests);
      HarmlessWrites(b3, Do(b3, a, writes[0]), writes[1..], id, manifests);
    }
  }

  predicate OwnWrite(w: Write, m: SnapshotMetadata) {
    !w.DropRef? && (w.InStore? ==> OwnOp(w.op, m))
  }

  lemma UploadWritesOwn(b3: Blake3, a: Anchor, u: UploadRequest)
    ensures forall w :: w in UploadWrites(b3, a, u) ==> OwnWrite(w, u.Metadata())
    ensures UploadWrites(b3, a, u) != [] ==> IsSnapshotId(u.Id())
  {
    if MayMark(a, u) {
      DataCopied(b3, a, u);
      forall w | w in InStoreAll(CopyData(b3, a, u).ops) ensures OwnWrite(w, u.Metadata()) {
        assert w.op in CopyData(b3, a, u).ops;
      }
    }
  }

  /** An upload harms only its own snapshot, by giving a sidecar another manifest. */
  lemma OwnHarm(w: Write, m: SnapshotMetadata, id: string, manifests: seq<string>)
    requires IsSnapshotId(id) && IsSnapshotId(m.snapshotId) && OwnWrite(w, m) && Harms(w, id, manifests)
    ensures m.snapshotId == id && w.InStore? && w.op.AddRoot?
  {
    var i :| 0 <= i < |manifests| && w.op.rootId == RootId(id, i);
    var j :| 0 <= j < |m.sidecars| && w.op.rootId == RootId(m.snapshotId, j);
    RootIdInjective(id, i, m.snapshotId, j);
  }

  predicate AllHold(b3: Blake3, a: Anchor, writes: seq<Write>)
    decreases |writes|
  {
    writes == []
    || (&& (writes[0].InStore? ==> TakesHold(b3, a.disk, writes[0].op))
        && AllHold(b3, Do(b3, a, writes[0]), writes[1..]))
  }

  lemma {:induction false} HoldInTurn(b3: Blake3, a: Anchor, first: seq<Write>, second: seq<Write>)
    ensures AllHold(b3, a, first + second) <==> AllHold(b3, a, first) && AllHold(b3, DoAll(b3, a, first), second)
    decreases |first|
  {
    if first == [] {
      assert first + second == second;
    } else {
      HoldInTurn(b3, Do(b3, a, first[0]), first[1..], second);
      assert (first + second)[1..] == first[1..] + second;
    }
  }

  lemma {:induction false} StoreWritesHold(b3: Blake3, a: Anchor, ops: seq<StoreOp>)
    requires AllTakeHold(b3, a.disk, ops)
    ensures AllHold(b3, a, InStoreAll(ops))
    decreases |ops|
  {
    if ops != [] {
      assert InStoreAll(ops)[1..] == InStoreAll(ops[1..]);
      StoreWritesHold(b3, Do(b3, a, InStore(ops[0])), ops[1..]);
    }
  }

  lemma {:induction false} OthersHold(b3: Blake3, a: Anchor, writes: seq<Write>)
    requires forall w :: w in writes ==> !w.InStore?
    ensures AllHold(b3, a, writes)
    ensures DoAll(b3, a, writes).disk == a.disk
    decreases |writes|
  {
    if writes != [] {
      assert writes[0] in writes;
      OthersHold(b3, Do(b3, a, writes[0]), writes[1..]);
    }
  }

  lemma DataHolds(b3: Blake3, a: Anchor, u: UploadRequest, e: Anchor)
    requires MayMark(a, u) && e.disk == a.disk
    ensures AllHold(b3, e, DataWrites(b3, a, u).0)
  {
    var data, imports, ops := DataWrites(b3, a, u).0, Imports(u.Id()), CopyData(b3, a, u).ops;
    OthersHold(b3, e, imports);
    if data == imports + InStoreAll(ops) {
      DataCopied(b3, a, u);
      HoldInTurn(b3, e, imports, InStoreAll(ops));
      StoreWritesHold(b3, DoAll(b3, e, imports), ops);
    } else {
      assert data == [] || data == imports;
    }
  }

  lemma UploadHolds(b3: Blake3, a: Anchor, u: UploadRequest)
    ensures AllHold(b3, a, UploadWrites(b3, a, u))
  {
    if MayMark(a, u) {
      var mark := [PutMarker(MarkerOf(u.Metadata()))];
      OthersHold(b3, a, mark);
      DataHolds(b3, a, u, DoAll(b3, a, mark));
      HoldInTurn(b3, a, mark, DataWrites(b3, a, u).0);
      WritesInTurn(b3, a, u);
      EndHolds(b3, a, BeforeMetadata(b3, a, u), if DataWrites(b3, a, u).1 then MetadataWrites(a, u) else []);
    }
  }

  lemma EndHolds(b3: Blake3, a: Anchor, front: seq<Write>, end: seq<Write>)
    requires AllHold(b3, a, front) && forall w :: w in end ==> !w.InStore?
    ensures AllHold(b3, a, front + end)
  {
    HoldInTurn(b3, a, front, end);
    OthersHold(b3, DoAll(b3, a, front), end);
  }

  lemma {:induction false} RootIsWritten(b3: Blake3, a: Anchor, writes: seq<Write>, m: SnapshotMetadata,
                                         i: nat, now: u64)
    requires IsSnapshotId(m.snapshotId) && i < |m.sidecars|
    requires AllHold(b3, a, writes) && forall w :: w in writes ==> OwnWrite(w, m)
    requires || InStore(CasClosure.AddRoot(RootId(m.snapshotId, i), m.sidecars[i].manifestId, now)) in writes
             || NamesRoot(a.disk, m.snapshotId, i, m.sidecars[i].manifestId)
    ensures NamesRoot(DoAll(b3, a, writes).disk, m.snapshotId, i, m.sidecars[i].manifestId)
    decreases |writes|
  {
    if writes != [] {
      assert writes[0] in writes;
      var e := Do(b3, a, writes[0]);
      if writes[0].InStore? && NamesRoot(a.disk, m.snapshotId, i, m.sidecars[i].manifestId) {
        OwnOpKeepsRoot(b3, a.disk, writes[0].op, m, i);
      }
      RootIsWritten(b3, e, writes[1..], m, i, now);
    }
  }

  /** The writes of an upload of the same id name another manifest for one of the roots. */
  ghost predicate Repoint(done: seq<Write>, m: SnapshotMetadata, id: string, manifests: seq<string>) {
    && m.snapshotId == id
    && exists i, now ::
         && 0 <= i < |manifests| && i < |m.sidecars| && m.sidecars[i].manifestId != manifests[i]
         && InStore(CasClosure.AddRoot(RootId(id, i), m.sidecars[i].manifestId, now)) in done
  }

  lemma HarmRepoints(done: seq<Write>, w: Write, m: SnapshotMetadata, id: string, manifests: seq<string>)
    requires IsSnapshotId(id) && IsSnapshotId(m.snapshotId)
    requires w in done && OwnWrite(w, m) && Harms(w, id, manifests)
    ensures Repoint(done, m, id, manifests)
  {
    OwnHarm(w, m, id, manifests);
    var i :| 0 <= i < |manifests| && w.op.rootId == RootId(id, i) && w.op.manifestId != manifests[i];
    var j :| 0 <= j < |m.sidecars| && w.op.rootId == RootId(id, j) && w.op.manifestId == m.sidecars[j].manifestId;
    RootIdInjective(id, i, id, j);
    assert w == InStore(CasClosure.AddRoot(RootId(id, i), m.sidecars[i].manifestId, w.op.now));
  }

  lemma RepointLoses(b3: Blake3, a: Anchor, done: seq<Write>, m: SnapshotMetadata, id: string, manifests: seq<string>)
    requires IsSnapshotId(id) && AllHold(b3, a, done) && forall w :: w in done ==> OwnWrite(w, m)
    requires Repoint(done, m, id, manifests)
    ensures !Retained(DoAll(b3, a, done), id, manifests)
  {
    var i, now :|
      && 0 <= i < |manifests| && i < |m.sidecars| && m.sidecars[i].manifestId != manifests[i]
      && InStore(CasClosure.AddRoot(RootId(id, i), m.sidecars[i].manifestId, now)) in done;
    RootIsWritten(b3, a, done, m, i, now);
  }

  /** The upload gets as far as naming another manifest for a root of the snapshot. */
  ghost predicate Repoints(b3: Blake3, a: Anchor, u: UploadRequest, made: nat, id: string, manifests: seq<string>) {
    Repoint(First(UploadWrites(b3, a, u), made), u.Metadata(), id, manifests)
  }

  lemma UploadLosesExactly(b3: Blake3, a: Anchor, u: UploadRequest, made: nat, id: string, manifests: seq<string>)
    requires IsSnapshotId(id) && Retained(a, id, manifests)
    ensures !Retained(Occurs(b3, a, Upload(u, made)), id, manifests) <==> Repoints(b3, a, u, made, id, manifests)
  {
    var all := UploadWrites(b3, a, u);
    var done := First(all, made);
    UploadWritesOwn(b3, a, u);
    UploadHolds(b3, a, u);
    assert all == done + all[|done|..];
    HoldInTurn(b3, a, done, all[|done|..]);
    assert forall w :: w in done ==> w in all;
    if Repoint(done, u.Metadata(), id, manifests) {
      RepointLoses(b3, a, done, u.Metadata(), id, manifests);
    } else {
      forall w | w in done ensures !Harms(w, id, manifests) {
        if Harms(w, id, manifests) {
          HarmRepoints(done, w, u.Metadata(), id, manifests);
        }
      }
      HarmlessWrites(b3, a, done, id, manifests);
    }
  }

  lemma {:induction false} RootDropsOnly(names: seq<string>)
    ensures forall w :: w in RootDrops(names) ==> w.InStore? && w.op.RemoveRoot? && w.op.rootId in names
    decreases |names|
  {
    if names != [] && RootIdSafe(names[0]) {
      RootDropsOnly(names[1..]);
    }
  }

  /** What a cleanup writes is about its own snapshot, and starts with the index ref. */
  lemma CleanupWritesOwn(a: Anchor, id: string, storeGiven: bool)
    requires MarkersFit(a)
    ensures var writes := CleanupWrites(a, id, storeGiven);
            && (writes != [] <==> IsSnapshotId(id) && JsonFile(id) in a.markers)
            && (writes != [] ==> writes[0] == DropRef(IndexRef(id)) && |writes| > 2)
            && forall w :: w in writes ==>
                 || w == DropRef(IndexRef(id)) || w == DropRef(WorkRef(id)) || w == DropMarker(id)
                 || (w.InStore? && w.op.RemoveRoot? && exists i: nat :: w.op.rootId == RootId(id, i))
  {
    if JsonFile(id) in a.markers {
      var m := a.markers[JsonFile(id)];
      assert MarkerFits(a, JsonFile(id));
      JsonFileInjective(id, m.snapshotId);
      SnapshotIdIsPlain(id);
      RootDropsOnly(m.rootIds);
      forall n | n in m.rootIds ensures RootIdSafe(n) && exists i: nat :: n == RootId(id, i) {
        var i :| 0 <= i < |m.rootIds| && m.rootIds[i] == n;
        assert n == RootId(id, i);
        RootIdIsSafe(id, i);
      }
    }
  }

  lemma {:induction false} RefStaysGone(b3: Blake3, a: Anchor, writes: seq<Write>, refname: string)
    requires refname !in a.refs && forall w :: w in writes ==> !w.PutRef?
    ensures refname !in DoAll(b3, a, writes).refs
    decreases |writes|
  {
    if writes != [] {
      assert writes[0] in writes;
      RefStaysGone(b3, Do(b3, a, writes[0]), writes[1..], refname);
    }
  }

  lemma OthersCleanupIsHarmless(w: Write, other: string, id: string, manifests: seq<string>)
    requires IsSnapshotId(id) && IsSnapshotId(other) && other != id
    requires || w == DropRef(IndexRef(other)) || w == DropRef(WorkRef(other)) || w == DropMarker(other)
             || (w.InStore? && w.op.RemoveRoot? && exists i: nat :: w.op.rootId == RootId(other, i))
    ensures !Harms(w, id, manifests)
  {
    RefsDistinct(id, other);
    if w.InStore? && exists i :: 0 <= i < |manifests| && w.op.rootId == RootId(id, i) {
      var i :| 0 <= i < |manifests| && w.op.rootId == RootId(id, i);
      var j: nat :| w.op.rootId == RootId(other, j);
      RootIdInjective(id, i, other, j);
    }
  }

  lemma CleanupLosesExactly(b3: Blake3, a: Anchor, other: string, storeGiven: bool, made: nat, id: string,
                            manifests: seq<string>)
    requires MarkersFit(a) && IsSnapshotId(id) && Retained(a, id, manifests)
    ensures !Retained(Occurs(b3, a, Cleanup(other, storeGiven, made)), id, manifests)
            <==> other == id && JsonFile(id) in a.markers && made > 0
  {
    CleanupWritesOwn(a, other, storeGiven);
    var all := CleanupWrites(a, other, storeGiven);
    var done := First(all, made);
    assert forall w :: w in done ==> w in all;
    if other != id {
      forall w | w in done ensures !Harms(w, id, manifests) {
        OthersCleanupIsHarmless(w, other, id, manifests);
      }
      HarmlessWrites(b3, a, done, id, manifests);
    } else if JsonFile(id) in a.markers && made > 0 {
      assert forall w :: w in done[1..] ==> w in done;
      RefStaysGone(b3, Do(b3, a, done[0]), done[1..], IndexRef(id));
    } else {
      assert done == [];
    }
  }

  // ---------------------------------------------------------------- the marker

  predicate Pending(a: Anchor, id: string) {
    JsonFile(id) in a.markers
  }

  predicate FittingWrite(project: string, w: Write) {
    w.PutMarker? ==>
      && IsSnapshotId(w.marker.snapshotId) && MarkerValid(project, w.marker)
      && w.marker.rootIds == RootIds(w.marker.snapshotId, |w.marker.rootIds|)
  }

  lemma {:induction false} WritesKeepMarkers(b3: Blake3, a: Anchor, writes: seq<Write>)
    requires MarkersFit(a) && forall w :: w in writes ==> FittingWrite(a.project, w)
    ensures MarkersFit(DoAll(b3, a, writes))
    decreases |writes|
  {
    if writes != [] {
      assert FittingWrite(a.project, writes[0]);
      var e := Do(b3, a, writes[0]);
      forall f | f in e.markers ensures MarkerFits(e, f) {
        assert f in a.markers ==> MarkerFits(a, f);
      }
      WritesKeepMarkers(b3, e, writes[1..]);
    }
  }

  /** In every state of every run the markers fit. */
  lemma EventKeepsMarkers(b3: Blake3, a: Anchor, e: Event)
    requires MarkersFit(a)
    ensures MarkersFit(Occurs(b3, a, e))
  {
    match e {
      case Upload(u, made) =>
        if MayMark(a, u) {
          SnapshotIdIsPlain(u.Id());
        }
        assert forall w :: w in UploadWrites(b3, a, u) ==> FittingWrite(a.project, w);
        WritesKeepMarkers(b3, a, First(UploadWrites(b3, a, u), made));
      case Cleanup(id, storeGiven, made) =>
        CleanupWritesOwn(a, id, storeGiven);
        assert forall w :: w in CleanupWrites(a, id, storeGiven) ==> FittingWrite(a.project, w);
        WritesKeepMarkers(b3, a, First(CleanupWrites(a, id, storeGiven), made));
      case Database(call) =>
        var after := Occurs(b3, a, e);
        forall f | f in after.markers ensures MarkerFits(after, f) {
          assert MarkerFits(a, f);
        }
    }
  }

  predicate AboutMarker(w: Write, id: string) {
    (w.PutMarker? && w.marker.snapshotId == id) || w == DropMarker(id)
  }

  lemma {:induction false} MarkerUntouched(b3: Blake3, a: Anchor, writes: seq<Write>, id: string)
    requires forall w :: w in writes ==> !AboutMarker(w, id)
    ensures Pending(DoAll(b3, a, writes), id) <==> Pending(a, id)
    decreases |writes|
  {
    if writes != [] {
      assert !AboutMarker(writes[0], id);
      if writes[0].PutMarker? && JsonFile(writes[0].marker.snapshotId) == JsonFile(id) {
        JsonFileInjective(writes[0].marker.snapshotId, id);
      }
      if writes[0].DropMarker? && JsonFile(writes[0].id) == JsonFile(id) {
        JsonFileInjective(writes[0].id, id);
      }
      MarkerUntouched(b3, Do(b3, a, writes[0]), writes[1..], id);
    }
  }

  /** The metadata is published and the snapshot is stored then, by this publish or before. */
  predicate Settles(b3: Blake3, a: Anchor, u: UploadRequest) {
    DataWrites(b3, a, u).1 && HasSnapshot(PublishCanonical(a.tables, u.publish).0.snapshots, u.Id())
  }

  /** The upload comes to its end with the snapshot stored, now or before. */
  predicate Completes(b3: Blake3, a: Anchor, u: UploadRequest, made: nat) {
    MayMark(a, u) && Settles(b3, a, u) && made >= |UploadWrites(b3, a, u)|
  }

  /** An upload of the snapshot that marks it and stops, by a fault, a failed check, a refused publish or
      the death of its process, before it removes the marker. */
  predicate LeavesMarker(b3: Blake3, a: Anchor, e: Event, id: string) {
    && e.Upload? && e.upload.Id() == id && MayMark(a, e.upload) && e.made > 0
    && !Completes(b3, a, e.upload, e.made)
  }

  /** An upload of the snapshot that completes, or a cleanup of it that comes to its end. */
  predicate TakesMarker(b3: Blake3, a: Anchor, e: Event, id: string) {
    || (e.Upload? && e.upload.Id() == id && Completes(b3, a, e.upload, e.made))
    || (e.Cleanup? && e.id == id && e.made >= |CleanupWrites(a, id, e.storeGiven)|)
  }

  /** The marker goes exactly if the whole list is written that ends with its removal. */
  lemma EndTakesMarker(b3: Blake3, a: Anchor, all: seq<Write>, made: nat, id: string)
    requires all != [] && all[|all| - 1] == DropMarker(id)
    requires forall w :: w in all[..|all| - 1] ==> !AboutMarker(w, id)
    ensures Pending(DoAll(b3, a, First(all, made)), id) <==> Pending(a, id) && made < |all|
  {
    var front := all[..|all| - 1];
    if made >= |all| {
      assert all == front + [DropMarker(id)];
      DoInTurn(b3, a, front, [DropMarker(id)]);
      DoTwo(b3, DoAll(b3, a, front), DropMarker(id), DropMarker(id));
    } else {
      assert forall w :: w in First(all, made) ==> w in front;
      MarkerUntouched(b3, a, First(all, made), id);
    }
  }

  lemma DataIsNotAboutMarkers(b3: Blake3, a: Anchor, u: UploadRequest)
    ensures forall w :: w in DataWrites(b3, a, u).0 ==> !AboutMarker(w, u.Id())
  {
  }

  /** What follows the marker: nothing about it, but for its removal at the end. */
  lemma AfterMarker(b3: Blake3, a: Anchor, u: UploadRequest)
    requires MayMark(a, u)
    ensures var all := UploadWrites(b3, a, u);
            var rest := all[1..];
            && all[0] == PutMarker(MarkerOf(u.Metadata()))
            && if Settles(b3, a, u)
               then && rest != [] && rest[|rest| - 1] == DropMarker(u.Id())
                    && forall w :: w in rest[..|rest| - 1] ==> !AboutMarker(w, u.Id())
               else forall w :: w in rest ==> !AboutMarker(w, u.Id())
  {
    DataIsNotAboutMarkers(b3, a, u);
    var rest, data := UploadWrites(b3, a, u)[1..], DataWrites(b3, a, u).0;
    if DataWrites(b3, a, u).1 {
      assert rest == data + MetadataWrites(a, u);
      if Settles(b3, a, u) {
        assert rest[..|rest| - 1] == data + [PutRow(u.publish)];
      }
    } else {
      assert rest == data;
    }
  }

  lemma UploadMarks(b3: Blake3, a: Anchor, u: UploadRequest, made: nat)
    requires MayMark(a, u) && made > 0
    ensures Pending(Occurs(b3, a, Upload(u, made)), u.Id()) <==> !Completes(b3, a, u, made)
  {
    var all := UploadWrites(b3, a, u);
    var rest, marked := all[1..], Do(b3, a, all[0]);
    AfterMarker(b3, a, u);
    assert First(all, made)[1..] == First(rest, made - 1) && First(all, made)[0] == all[0];
    if Settles(b3, a, u) {
      EndTakesMarker(b3, marked, rest, made - 1, u.Id());
    } else {
      assert forall w :: w in First(rest, made - 1) ==> w in rest;
      MarkerUntouched(b3, marked, First(rest, made - 1), u.Id());
    }
  }

  lemma UploadMarksOnlyOwn(b3: Blake3, a: Anchor, u: UploadRequest, made: nat, id: string)
    requires !(MayMark(a, u) && u.Id() == id && made > 0)
    ensures Pending(Occurs(b3, a, Upload(u, made)), id) <==> Pending(a, id)
  {
    var all := UploadWrites(b3, a, u);
    if made > 0 {
      assert forall w :: w in all ==> !AboutMarker(w, id);
    }
    assert forall w :: w in First(all, made) ==> w in all && !AboutMarker(w, id);
    MarkerUntouched(b3, a, First(all, made), id);
  }

  lemma OthersCleanupTakesNothing(b3: Blake3, a: Anchor, other: string, storeGiven: bool, made: nat, id: string)
    requires MarkersFit(a) && other != id
    ensures Pending(Occurs(b3, a, Cleanup(other, storeGiven, made)), id) <==> Pending(a, id)
  {
    var all := CleanupWrites(a, other, storeGiven);
    CleanupWritesOwn(a, other, storeGiven);
    forall w | w in First(all, made) ensures !AboutMarker(w, id) {
      assert w in all;
    }
    MarkerUntouched(b3, a, First(all, made), id);
  }

  lemma CleanupTakes(b3: Blake3, a: Anchor, storeGiven: bool, made: nat, id: string)
    requires MarkersFit(a)
    ensures Pending(Occurs(b3, a, Cleanup(id, storeGiven, made)), id)
            <==> Pending(a, id) && made < |CleanupWrites(a, id, storeGiven)|
  {
    var all := CleanupWrites(a, id, storeGiven);
    CleanupWritesOwn(a, id, storeGiven);
    if all != [] {
      CleanupEndsWithMarker(a, id, storeGiven);
      EndTakesMarker(b3, a, all, made, id);
    } else if Pending(a, id) {
      assert MarkerFits(a, JsonFile(id));
      JsonFileInjective(id, a.markers[JsonFile(id)].snapshotId);
    }
  }

  /** The marker of a snapshot is there after an event exactly if the event left it, or it was there and
      the event did not take it away. */
  lemma MarkerAfter(b3: Blake3, a: Anchor, e: Event, id: string)
    requires MarkersFit(a)
    ensures Pending(Occurs(b3, a, e), id)
            <==> LeavesMarker(b3, a, e, id) || (Pending(a, id) && !TakesMarker(b3, a, e, id))
  {
    match e {
      case Upload(u, made) =>
        if MayMark(a, u) && u.Id() == id && made > 0 {
          UploadMarks(b3, a, u, made);
        } else {
          UploadMarksOnlyOwn(b3, a, u, made, id);
          assert MayMark(a, u) ==> |UploadWrites(b3, a, u)| > 0;
        }
      case Cleanup(other, storeGiven, made) =>
        if other == id {
          CleanupTakes(b3, a, storeGiven, made, id);
        } else {
          OthersCleanupTakesNothing(b3, a, other, storeGiven, made, id);
        }
      case Database(call) =>
    }
  }

  lemma CleanupEndsWithMarker(a: Anchor, id: string, storeGiven: bool)
    requires MarkersFit(a) && CleanupWrites(a, id, storeGiven) != []
    ensures var all := CleanupWrites(a, id, storeGiven);
            && all[|all| - 1] == DropMarker(id)
            && forall w :: w in all[..|all| - 1] ==> !AboutMarker(w, id)
  {
    var m := a.markers[JsonFile(id)];
    assert MarkerFits(a, JsonFile(id));
    forall n | n in m.rootIds ensures RootIdSafe(n) {
      var i :| 0 <= i < |m.rootIds| && m.rootIds[i] == n;
      RootIdIsSafe(m.snapshotId, i);
    }
    var drops := if storeGiven then RootDrops(m.rootIds) else [];
    RootDropsOnly(m.rootIds);
    var all := CleanupWrites(a, id, storeGiven);
    assert all[..|all| - 1] == [DropRef(m.indexRef), DropRef(m.workRef)] + drops;
  }

  // ---------------------------------------------------------------- whole runs

  function At(b3: Blake3, a: Anchor, events: seq<Event>, k: nat): Anchor
    requires k <= |events|
  {
    After(b3, a, events[..k])
  }

  lemma AtNext(b3: Blake3, a: Anchor, events: seq<Event>, k: nat)
    requires k < |events|
    ensures At(b3, a, events, k + 1) == Occurs(b3, At(b3, a, events, k), events[k])
  {
    assert events[..k + 1][..k] == events[..k];
  }

  lemma {:induction false} RunKeepsMarkers(b3: Blake3, a: Anchor, events: seq<Event>, k: nat)
    requires MarkersFit(a) && k <= |events|
    ensures MarkersFit(At(b3, a, events, k))
  {
    if k > 0 {
      RunKeepsMarkers(b3, a, events, k - 1);
      AtNext(b3, a, events, k - 1);
      EventKeepsMarkers(b3, At(b3, a, events, k - 1), events[k - 1]);
    }
  }

  ghost predicate LeftAt(b3: Blake3, a: Anchor, events: seq<Event>, i: nat, id: string) {
    i < |events| && LeavesMarker(b3, At(b3, a, events, i), events[i], id)
  }

  ghost predicate TakenAt(b3: Blake3, a: Anchor, events: seq<Event>, i: nat, id: string) {
    i < |events| && TakesMarker(b3, At(b3, a, events, i), events[i], id)
  }

  ghost predicate NoneTakes(b3: Blake3, a: Anchor, events: seq<Event>, i: int, k: nat, id: string) {
    forall j: nat :: i < j < k ==> !TakenAt(b3, a, events, j, id)
  }

  /** The marker was there at the start or an upload before the k-th event left it, and no later event
      took it away. */
  ghost predicate LeftBefore(b3: Blake3, a: Anchor, events: seq<Event>, k: nat, id: string) {
    || (Pending(a, id) && NoneTakes(b3, a, events, -1, k, id))
    || exists i: nat :: i < k && LeftAt(b3, a, events, i, id) && NoneTakes(b3, a, events, i, k, id)
  }

  lemma LeftLonger(b3: Blake3, a: Anchor, events: seq<Event>, n: nat, id: string)
    requires n < |events| && !TakenAt(b3, a, events, n, id) && !LeftAt(b3, a, events, n, id)
    ensures LeftBefore(b3, a, events, n + 1, id) <==> LeftBefore(b3, a, events, n, id)
  {
    forall i: int | i < n ensures NoneTakes(b3, a, events, i, n + 1, id) <==> NoneTakes(b3, a, events, i, n, id) {
    }
  }

  lemma LeftNow(b3: Blake3, a: Anchor, events: seq<Event>, n: nat, id: string)
    requires n < |events|
    ensures LeftAt(b3, a, events, n, id) ==> LeftBefore(b3, a, events, n + 1, id)
    ensures TakenAt(b3, a, events, n, id) && !LeftAt(b3, a, events, n, id) ==> !LeftBefore(b3, a, events, n + 1, id)
  {
    if LeftAt(b3, a, events, n, id) {
      assert NoneTakes(b3, a, events, n, n + 1, id);
    }
  }

  /** The marker is there exactly if the last upload that marked the snapshot stopped before it removed
      the marker, and no cleanup or completed upload followed. */
  lemma {:induction false} PendingExactly(b3: Blake3, a: Anchor, events: seq<Event>, k: nat, id: string)
    requires MarkersFit(a) && k <= |events|
    ensures Pending(At(b3, a, events, k), id) <==> LeftBefore(b3, a, events, k, id)
  {
    if k > 0 {
      var n := k - 1;
      PendingExactly(b3, a, events, n, id);
      RunKeepsMarkers(b3, a, events, n);
      AtNext(b3, a, events, n);
      MarkerAfter(b3, At(b3, a, events, n), events[n], id);
      LeftNow(b3, a, events, n, id);
      if !LeftAt(b3, a, events, n, id) && !TakenAt(b3, a, events, n, id) {
        LeftLonger(b3, a, events, n, id);
      }
    } else {
      assert At(b3, a, events, 0) == a;
    }
  }

  /** The k-th event is a cleanup of the snapshot that makes a write although an upload before it had
      left the marker, or an upload of the same id with other sidecars that gets to their roots. */
  ghost predicate LosesAt(b3: Blake3, a: Anchor, events: seq<Event>, k: nat, id: string, manifests: seq<string>) {
    && k < |events|
    && match events[k]
       case Upload(u, made) => Repoints(b3, At(b3, a, events, k), u, made, id, manifests)
       case Cleanup(other, _, made) => other == id && made > 0 && LeftBefore(b3, a, events, k, id)
       case Database(_) => false
  }

  lemma NextLosesExactly(b3: Blake3, a: Anchor, events: seq<Event>, k: nat, id: string, manifests: seq<string>)
    requires MarkersFit(a) && IsSnapshotId(id) && k < |events|
    requires Retained(At(b3, a, events, k), id, manifests)
    ensures !Retained(At(b3, a, events, k + 1), id, manifests) <==> LosesAt(b3, a, events, k, id, manifests)
  {
    var before := At(b3, a, events, k);
    AtNext(b3, a, events, k);
    RunKeepsMarkers(b3, a, events, k);
    PendingExactly(b3, a, events, k, id);
    match events[k] {
      case Upload(u, made) => UploadLosesExactly(b3, before, u, made, id, manifests);
      case Cleanup(other, storeGiven, made) =>
        CleanupLosesExactly(b3, before, other, storeGiven, made, id, manifests);
      case Database(call) =>
    }
  }

  lemma {:induction false} RetainedUpTo(b3: Blake3, a: Anchor, events: seq<Event>, k: nat, id: string,
                                        manifests: seq<string>)
    requires MarkersFit(a) && IsSnapshotId(id) && Retained(a, id, manifests) && k <= |events|
    requires forall j: nat :: j < k ==> !LosesAt(b3, a, events, j, id, manifests)
    ensures Retained(At(b3, a, events, k), id, manifests)
  {
    if k > 0 {
      RetainedUpTo(b3, a, events, k - 1, id, manifests);
      NextLosesExactly(b3, a, events, k - 1, id, manifests);
    }
  }

  /** Over every run from a state in which the refs and roots of a snapshot are there: they stay throughout
      exactly if no cleanup of the snapshot follows an upload of it that left the marker, and no upload of
      the same id names other manifests. */
  lemma RetainedThroughoutExactly(b3: Blake3, a: Anchor, events: seq<Event>, id: string, manifests: seq<string>)
    requires MarkersFit(a) && IsSnapshotId(id) && Retained(a, id, manifests)
    ensures (forall k: nat :: k <= |events| ==> Retained(At(b3, a, events, k), id, manifests))
            <==> (forall j: nat :: j < |events| ==> !LosesAt(b3, a, events, j, id, manifests))
  {
    if forall k: nat :: k <= |events| ==> Retained(At(b3, a, events, k), id, manifests) {
      forall j: nat | j < |events| ensures !LosesAt(b3, a, events, j, id, manifests) {
        assert Retained(At(b3, a, events, j), id, manifests) && Retained(At(b3, a, events, j + 1), id, manifests);
        NextLosesExactly(b3, a, events, j, id, manifests);
      }
    }
    if forall j: nat :: j < |events| ==> !LosesAt(b3, a, events, j, id, manifests) {
      forall k: nat | k <= |events| ensures Retained(At(b3, a, events, k), id, manifests) {
        RetainedUpTo(b3, a, events, k, id, manifests);
      }
    }
  }

  lemma CleanupAfter(b3: Blake3, a: Anchor, id: string, storeGiven: bool, made: nat, manifests: seq<string>)
    requires MarkersFit(a) && IsSnapshotId(id) && Retained(a, id, manifests) && made > 0
    ensures var e := Occurs(b3, a, Cleanup(id, storeGiven, made));
            && e.tables == a.tables
            && if Pending(a, id) then !RefsKept(e, id) else Retained(e, id, manifests)
  {
    CleanupKeepsTables(b3, a, Cleanup(id, storeGiven, made));
    CleanupLosesExactly(b3, a, id, storeGiven, made, id, manifests);
    assert Retained(a, id, []);
    CleanupLosesExactly(b3, a, id, storeGiven, made, id, []);
  }

  /** An accepted publish, with the marker still there or removed. */
  lemma StateAfterPublish(b3: Blake3, a: Anchor, u: UploadRequest, made: nat)
    requires MayMark(a, u) && DataWrites(b3, a, u).1
    requires PublishCanonical(a.tables, u.publish).1.Published?
    requires |UploadWrites(b3, a, u)| - 1 <= made
    ensures var e := Occurs(b3, a, Upload(u, made));
            Retained(e, u.Id(), ManifestsOf(u.Metadata())) && e.tables == PublishCanonical(a.tables, u.publish).0
  {
    var all := UploadWrites(b3, a, u);
    PublishStores(a, u);
    WritesInTurn(b3, a, u);
    DataIsThere(b3, a, u);
    var before := BeforeMetadata(b3, a, u);
    var rest := if made < |all| then [PutRow(u.publish)] else MetadataWrites(a, u);
    assert First(all, made) == before + rest;
    DoInTurn(b3, a, before, rest);
    DoTwo(b3, DoAll(b3, a, before), PutRow(u.publish), DropMarker(u.Id()));
  }

  /** For every publish that makes a snapshot the latest of its lease: a cleanup that follows takes the
      refs of that latest snapshot exactly if the process died before it removed the marker. */
  lemma CleanupAfterPublishExactly(b3: Blake3, a: Anchor, u: UploadRequest, stop: nat, storeGiven: bool, made: nat)
    requires MarkersFit(a) && MayMark(a, u) && DataWrites(b3, a, u).1 && made > 0
    requires PublishCanonical(a.tables, u.publish).1.Published?
    requires |UploadWrites(b3, a, u)| - 1 <= stop
    ensures var e := After(b3, a, [Upload(u, stop), Cleanup(u.Id(), storeGiven, made)]);
            && HandoffSnapshots.IsLatest(e.tables, u.publish.leaseId, u.Id())
            && (RefsKept(e, u.Id()) <==> stop >= |UploadWrites(b3, a, u)|)
  {
    InTurn(b3, a, Upload(u, stop), Cleanup(u.Id(), storeGiven, made));
    StateAfterPublish(b3, a, u, stop);
    PublishStores(a, u);
    UploadMarks(b3, a, u, stop);
    EventKeepsMarkers(b3, a, Upload(u, stop));
    PublishedIsLatest(a.tables, u.publish);
    CleanupAfter(b3, Occurs(b3, a, Upload(u, stop)), u.Id(), storeGiven, made, ManifestsOf(u.Metadata()));
  }

  /** A repeated upload of a snapshot that is stored already, and that stops before its end, is enough:
      the next cleanup takes the refs of the stored snapshot, which stays stored. */
  lemma StoppedReuploadLosesStored(b3: Blake3, a: Anchor, u: UploadRequest, stop: nat, storeGiven: bool, made: nat)
    requires MarkersFit(a) && HasSnapshot(a.tables.snapshots, u.Id())
    requires LeavesMarker(b3, a, Upload(u, stop), u.Id()) && made > 0
    ensures var e := After(b3, a, [Upload(u, stop), Cleanup(u.Id(), storeGiven, made)]);
            HasSnapshot(e.tables.snapshots, u.Id()) && !RefsKept(e, u.Id())
  {
    var left := Occurs(b3, a, Upload(u, stop));
    InTurn(b3, a, Upload(u, stop), Cleanup(u.Id(), storeGiven, made));
    EventKeepsMarkers(b3, a, Upload(u, stop));
    UploadMarks(b3, a, u, stop);
    RowsStay(b3, a, First(UploadWrites(b3, a, u), stop), u.Id());
    CleanupKeepsTables(b3, left, Cleanup(u.Id(), storeGiven, made));
    CleanupWritesOwn(left, u.Id(), storeGiven);
    var done := First(CleanupWrites(left, u.Id(), storeGiven), made);
    assert forall w :: w in done[1..] ==> w in CleanupWrites(left, u.Id(), storeGiven);
    RefStaysGone(b3, Do(b3, left, done[0]), done[1..], IndexRef(u.Id()));
  }

  lemma {:induction false} RowsStay(b3: Blake3, a: Anchor, writes: seq<Write>, id: string)
    requires HasSnapshot(a.tables.snapshots, id)
    ensures HasSnapshot(DoAll(b3, a, writes).tables.snapshots, id)
    decreases |writes|
  {
    if writes != [] {
      var e := Do(b3, a, writes[0]);
      var row :| row in a.tables.snapshots && row.snapshotId == id;
      assert row in e.tables.snapshots;
      RowsStay(b3, e, writes[1..], id);
    }
  }

  lemma PublishedIsLatest(t: Tables, r: PublishRequest)
    requires PublishCanonical(t, r).1.Published?
    ensures HandoffSnapshots.IsLatest(PublishCanonical(t, r).0, r.leaseId, r.metadata.snapshotId)
  {
  }

  lemma InTurn(b3: Blake3, a: Anchor, d: Event, e: Event)
    ensures After(b3, a, [d, e]) == Occurs(b3, Occurs(b3, a, d), e)
  {
    assert [d, e][..1] == [d] && [d][..0] == [];
    assert After(b3, a, [d]) == Occurs(b3, After(b3, a, []), d);
  }

  lemma PublishStores(a: Anchor, u: UploadRequest)
    requires PublishCanonical(a.tables, u.publish).1.Published?
    ensures HasSnapshot(PublishCanonical(a.tables, u.publish).0.snapshots, u.Id())
  {
    var rows := PublishCanonical(a.tables, u.publish).0.snapshots;
    assert rows[|rows| - 1] in rows;
  }

  lemma CleanupKeepsTables(b3: Blake3, a: Anchor, e: Event)
    requires MarkersFit(a) && e.Cleanup?
    ensures Occurs(b3, a, e).tables == a.tables
  {
    CleanupWritesOwn(a, e.id, e.storeGiven);
    assert forall w :: w in First(CleanupWrites(a, e.id, e.storeGiven), e.made)
                   ==> w in CleanupWrites(a, e.id, e.storeGiven);
    MetadataUntouched(b3, a, First(CleanupWrites(a, e.id, e.storeGiven), e.made));
  }

  /** The store of the anchor stays closed over every run, wherever uploads and cleanups die. */
  lemma {:induction false} RunKeepsStoreClosed(b3: Blake3, a: Anchor, events: seq<Event>)
    requires CasClosure.Closed(b3, a.disk)
    ensures CasClosure.Closed(b3, After(b3, a, events).disk)
  {
    if events != [] {
      var n := |events| - 1;
      RunKeepsStoreClosed(b3, a, events[..n]);
      var before := After(b3, a, events[..n]);
      match events[n] {
        case Upload(u, made) => WritesKeepStoreClosed(b3, before, First(UploadWrites(b3, before, u), made));
        case Cleanup(id, storeGiven, made) =>
          WritesKeepStoreClosed(b3, before, First(CleanupWrites(before, id, storeGiven), made));
        case Database(call) =>
      }
    }
  }

  lemma {:induction false} WritesKeepStoreClosed(b3: Blake3, a: Anchor, writes: seq<Write>)
    requires CasClosure.Closed(b3, a.disk)
    ensures CasClosure.Closed(b3, DoAll(b3, a, writes).disk)
    decreases |writes|
  {
    if writes != [] {
      if writes[0].InStore? {
        CasClosure.StepKeepsClosed(b3, a.disk, writes[0].op);
      }
      WritesKeepStoreClosed(b3, Do(b3, a, writes[0]), writes[1..]);
    }
  }
}
