/**
 The anchor of a project as an object: publishing a snapshot together with its data, and cleaning up
 after an upload that stopped. Each method is proved equal to the list of writes it stands for.
 */
module AnchorStore {
  import opened Common
  import opened Cas
  import opened HandoffTables
  import opened Sidecars
  import opened SnapshotUpload
  import opened UploadRuns
  import CasClosure
  import HandoffDatabase

  // ---------------------------------------------------------------- copying sidecars

  /** What is left of a copy leads from the store as it is now to where the whole copy leads. */
  predicate Leads(b3: Blake3, now: Disk, rest: Copy, end: Disk, ok: bool) {
    ok == rest.ok && end == CasClosure.Run(b3, now, rest.ops)
  }

  lemma LeadsOn(b3: Blake3, now: Disk, op: StoreOp, rest: Copy, end: Disk, ok: bool)
    requires Leads(b3, now, Copy([op] + rest.ops, rest.ok), end, ok)
    ensures Leads(b3, CasClosure.Step(b3, now, op), rest, end, ok)
  {
    assert ([op] + rest.ops)[1..] == rest.ops;
  }

  lemma LeadsOver(b3: Blake3, now: Disk, ops: seq<StoreOp>, rest: Copy, end: Disk, ok: bool)
    requires Leads(b3, now, Copy(ops + rest.ops, rest.ok), end, ok)
    ensures Leads(b3, CasClosure.Run(b3, now, ops), rest, end, ok)
  {
    RunInTurn(b3, now, ops, rest.ops);
  }

  lemma LeadsToEnd(b3: Blake3, now: Disk, op: StoreOp)
    ensures CasClosure.Run(b3, now, []) == now
    ensures CasClosure.Run(b3, now, [op]) == CasClosure.Step(b3, now, op)
  {
    LeadsOn(b3, now, op, Copy([], true), CasClosure.Run(b3, now, [op] + []), true);
    assert [op] + [] == [op];
  }

  /** One chunk: checked, read from the source and uploaded. */
  method CopyChunk(source: Disk, s: Sidecar, c: ManifestChunk, store: CasStore) returns (ok: bool)
    modifies store`chunks
    ensures match ChunkUpload(store.b3, source, old(store.State()), s, c)
            case None => !ok && store.State() == old(store.State())
            case Some(op) => ok && store.State() == CasClosure.Step(store.b3, old(store.State()), op)
  {
    if c.size > s.chunkSize {
      return false;
    }
    var bytes := Download(store.b3, source, c.hash);
    if bytes.Err? {
      return false;
    }
    if |bytes.value| != c.size {
      return false;
    }
    var stored := store.UploadChunk(bytes.value, c.hash);
    return stored.Ok?;
  }

  /** The loop over the chunks of a manifest. */
  method CopyChunksTo(source: Disk, s: Sidecar, chunks: seq<ManifestChunk>, diskFull: bool, store: CasStore)
    returns (ok: bool)
    modifies store`chunks
    ensures var c := CopyChunks(store.b3, source, old(store.State()), s, chunks, diskFull);
            ok == c.ok && store.State() == CasClosure.Run(store.b3, old(store.State()), c.ops)
  {
    ghost var c := CopyChunks(store.b3, source, store.State(), s, chunks, diskFull);
    ghost var end := CasClosure.Run(store.b3, store.State(), c.ops);
    assert chunks[0..] == chunks;
    var i := 0;
    while i < |chunks|
      invariant 0 <= i <= |chunks|
      invariant Leads(store.b3, store.State(), CopyChunks(store.b3, source, store.State(), s, chunks[i..], diskFull),
                      end, c.ok)
    {
      assert chunks[i..][0] == chunks[i] && chunks[i..][1..] == chunks[i + 1..];
      ghost var before, upload := store.State(), ChunkUpload(store.b3, source, store.State(), s, chunks[i]);
      ok := CopyChunk(source, s, chunks[i], store);
      if !ok {
        return;
      }
      LeadsToEnd(store.b3, before, upload.value);
      if diskFull {
        return false;
      }
      LeadsOn(store.b3, before, upload.value,
              CopyChunks(store.b3, source, store.State(), s, chunks[i + 1..], diskFull), end, c.ok);
      i := i + 1;
    }
    return true;
  }

  /** The manifest and the root of a sidecar whose chunks are there. */
  method FinishCopyTo(root: string, m: Manifest, now: u64, store: CasStore) returns (ok: bool)
    modifies store`manifests, store`roots
    ensures var c := FinishCopy(store.b3, old(store.State()), root, m, now);
            ok == c.ok && store.State() == CasClosure.Run(store.b3, old(store.State()), c.ops)
  {
    ghost var d := store.State();
    ghost var create := CasClosure.Create(HashesOf(m.chunks), now);
    LeadsToEnd(store.b3, d, create);
    var copied := store.CreateManifest(HashesOf(m.chunks), now);
    if copied.Err? {
      return false;
    }
    if copied.value.id != m.id {
      return false;
    }
    ghost var add := CasClosure.AddRoot(root, copied.value.id, now);
    LeadsToEnd(store.b3, store.State(), add);
    RunInTurn(store.b3, d, [create], [add]);
    assert [create] + [add] == [create, add];
    var added := store.AddReachabilityRoot(root, copied.value.id, now);
    return added.Ok?;
  }

  method CopySidecarTo(source: Disk, root: string, s: Sidecar, now: u64, diskFull: bool, store: CasStore)
    returns (ok: bool)
    modifies store`chunks, store`manifests, store`roots
    ensures var c := CopySidecar(store.b3, source, old(store.State()), root, s, now, diskFull);
            ok == c.ok && store.State() == CasClosure.Run(store.b3, old(store.State()), c.ops)
  {
    var manifest := SidecarManifest(store.b3, source, s);
    if manifest.None? {
      return false;
    }
    ghost var d := store.State();
    ghost var chunks := CopyChunks(store.b3, source, d, s, manifest.value.chunks, diskFull);
    ok := CopyChunksTo(source, s, manifest.value.chunks, diskFull, store);
    if !ok {
      return;
    }
    RunInTurn(store.b3, d, chunks.ops, FinishCopy(store.b3, store.State(), root, manifest.value, now).ops);
    ok := FinishCopyTo(root, manifest.value, now, store);
  }

  /** `copy_snapshot_sidecars_to_anchor_cas`: the loop over the sidecars. */
  method CopySidecarsTo(source: Disk, m: SnapshotMetadata, now: u64, diskFull: bool, store: CasStore)
    returns (ok: bool)
    modifies store`chunks, store`manifests, store`roots
    ensures var c := CopySidecars(store.b3, source, old(store.State()), m, 0, now, diskFull);
            ok == c.ok && store.State() == CasClosure.Run(store.b3, old(store.State()), c.ops)
  {
    ghost var c := CopySidecars(store.b3, source, store.State(), m, 0, now, diskFull);
    ghost var end := CasClosure.Run(store.b3, store.State(), c.ops);
    var i := 0;
    while i < |m.sidecars|
      invariant 0 <= i <= |m.sidecars|
      invariant Leads(store.b3, store.State(), CopySidecars(store.b3, source, store.State(), m, i, now, diskFull),
                      end, c.ok)
    {
      var root := RootId(m.snapshotId, i);
      ghost var before := store.State();
      ghost var one := CopySidecar(store.b3, source, before, root, m.sidecars[i], now, diskFull);
      ok := CopySidecarTo(source, root, m.sidecars[i], now, diskFull, store);
      if !ok {
        return;
      }
      LeadsOver(store.b3, before, one.ops,
                CopySidecars(store.b3, source, store.State(), m, i + 1, now, diskFull), end, c.ok);
      i := i + 1;
    }
    return true;
  }

  /** `ensure_snapshot_sidecars_in_anchor_cas`. */
  method EnsureSidecarsIn(sidecars: seq<Sidecar>, store: CasStore) returns (ok: bool)
    ensures ok <==> AllAvailable(store.b3, store.State(), sidecars)
  {
    var i := 0;
    while i < |sidecars|
      invariant 0 <= i <= |sidecars|
      invariant AllAvailable(store.b3, store.State(), sidecars[..i])
    {
      assert sidecars[i] in sidecars;
      var there := EnsureAvailable(sidecars[i], store);
      if !there {
        return false;
      }
      assert sidecars[..i + 1] == sidecars[..i] + [sidecars[i]];
      i := i + 1;
    }
    assert sidecars[..i] == sidecars;
    return true;
  }

  // ---------------------------------------------------------------- the operations

  class SnapshotAnchor {
    const project: string
    const db: HandoffDatabase.MetadataDb
    const cas: CasStore
    var refs: set<string>
    /** The files of `devrelay-pending-uploads` in the repository. */
    var markers: map<string, Marker>

    constructor (project: string, db: HandoffDatabase.MetadataDb, cas: CasStore)
      ensures this.project == project && this.db == db && this.cas == cas && refs == {} && markers == map[]
    {
      this.project, this.db, this.cas, refs, markers := project, db, cas, {}, map[];
    }

    ghost function State(): Anchor
      reads this, db, cas
    {
      Anchor(project, db.State(), refs, markers, cas.State())
    }

    method MarkSnapshotUploadPending(m: SnapshotMetadata) returns (ok: bool)
      modifies this`markers
      ensures ok <==> m.valid && IsSnapshotId(m.snapshotId) && m.projectId == project
      ensures State() == if ok then Do(cas.b3, old(State()), PutMarker(MarkerOf(m))) else old(State())
    {
      if !m.valid || !IsSnapshotId(m.snapshotId) {
        return false;
      }
      if project != m.projectId {
        return false;
      }
      markers := markers[JsonFile(m.snapshotId) := MarkerOf(m)];
      return true;
    }

    /** `git fetch` of the two refs, then the object policy and the quota. */
    method ImportSnapshotFromRepo(u: UploadRequest) returns (ok: bool)
      modifies this`refs
      ensures ok <==> IndexRef(u.Id()) in u.sourceRefs && WorkRef(u.Id()) in u.sourceRefs && u.gitAccepts
      ensures refs == if IndexRef(u.Id()) in u.sourceRefs && WorkRef(u.Id()) in u.sourceRefs
                      then old(refs) + {IndexRef(u.Id()), WorkRef(u.Id())} else old(refs)
    {
      if IndexRef(u.Id()) !in u.sourceRefs || WorkRef(u.Id()) !in u.sourceRefs {
        return false;
      }
      refs := refs + {IndexRef(u.Id()), WorkRef(u.Id())};
      return u.gitAccepts;
    }

    /** The sidecars, if there are any. */
    method CopySnapshotSidecars(u: UploadRequest) returns (ok: bool)
      modifies cas`chunks, cas`manifests, cas`roots
      ensures var c := CopyData(cas.b3, old(State()), u);
              ok == c.ok && State() == old(State()).(disk := CasClosure.Run(cas.b3, old(cas.State()), c.ops))
    {
      if u.Metadata().sidecars == [] {
        return true;
      }
      if u.source.None? || !u.anchorGiven {
        return false;
      }
      ok := CopySidecarsTo(u.source.value, u.Metadata(), u.now, u.fault == Some(DuringCasUploadDiskFull), cas);
    }

    /** Refs and sidecars, each followed by its fault point, and the check of both. */
    method UploadData(u: UploadRequest) returns (ok: bool)
      modifies this`refs, cas`chunks, cas`manifests, cas`roots
      ensures State() == DoAll(cas.b3, old(State()), DataWrites(cas.b3, old(State()), u).0)
      ensures ok == DataWrites(cas.b3, old(State()), u).1
    {
      if u.fault == Some(AfterPendingMarker) {
        return false;
      }
      ghost var start := State();
      DoTwo(cas.b3, start, PutRef(IndexRef(u.Id())), PutRef(WorkRef(u.Id())));
      var imported := ImportSnapshotFromRepo(u);
      if !imported || u.fault == Some(AfterGitObjects) {
        assert State().refs == DoAll(cas.b3, start, DataWrites(cas.b3, start, u).0).refs;
        return false;
      }
      ghost var fetched := State();
      assert fetched.refs == DoAll(cas.b3, start, Imports(u.Id())).refs;
      ghost var copy := CopyData(cas.b3, start, u);
      DoInTurn(cas.b3, start, Imports(u.Id()), InStoreAll(copy.ops));
      StoreWrites(cas.b3, fetched, copy.ops);
      var copied := CopySnapshotSidecars(u);
      if !copied || u.fault == Some(AfterCasObjects) {
        return false;
      }
      if IndexRef(u.Id()) !in refs || WorkRef(u.Id()) !in refs {
        return false;
      }
      var there := EnsureSidecarsIn(u.Metadata().sidecars, cas);
      return there && u.fault != Some(AfterDataVerification);
    }

    method PublishMetadata(u: UploadRequest) returns (reply: Reply)
      modifies this`markers, db`snapshots, db`leases
      ensures State() == DoAll(cas.b3, old(State()), MetadataWrites(old(State()), u))
      ensures reply == PublishCanonical(old(db.State()), u.publish).1
    {
      ghost var start := State();
      DoTwo(cas.b3, start, PutRow(u.publish), DropMarker(u.Id()));
      reply := db.PublishSnapshotCanonical(u.publish);
      assert (db.State(), reply) == PublishCanonical(start.tables, u.publish);
      assert State() == Do(cas.b3, start, PutRow(u.publish));
      if HasSnapshot(db.snapshots, u.Id()) {
        markers := markers - {JsonFile(u.Id())};
      }
    }

    /** `publish_snapshot_canonical_with_data`; None if it fails before the metadata. A snapshot it stores
        has its refs, its roots and every chunk. */
    method PublishSnapshotCanonicalWithData(u: UploadRequest) returns (reply: Option<Reply>)
      modifies this`refs, this`markers, cas`chunks, cas`manifests, cas`roots, db`snapshots, db`leases
      ensures State() == DoAll(cas.b3, old(State()), UploadWrites(cas.b3, old(State()), u))
      ensures reply == if MayMark(old(State()), u) && DataWrites(cas.b3, old(State()), u).1
                       then Some(PublishCanonical(old(db.State()), u.publish).1) else None
      ensures !HasSnapshot(old(db.snapshots), u.Id()) && HasSnapshot(db.snapshots, u.Id()) ==>
                && Retained(State(), u.Id(), ManifestsOf(u.Metadata()))
                && AllAvailable(cas.b3, cas.State(), u.Metadata().sidecars)
    {
      ghost var start := State();
      ghost var all := UploadWrites(cas.b3, start, u);
      ghost var after := DoAll(cas.b3, start, all);
      if !HasSnapshot(start.tables.snapshots, u.Id()) && HasSnapshot(after.tables.snapshots, u.Id()) {
        PublishedHasItsData(cas.b3, start, u, |all|);
      }
      var marked := MarkSnapshotUploadPending(u.Metadata());
      if !marked {
        return None;
      }
      UploadInTurn(cas.b3, start, u);
      var ready := UploadData(u);
      if !ready {
        return None;
      }
      var published := PublishMetadata(u);
      return Some(published);
    }

    /** `cleanup_pending_snapshot_upload`: whether it came to its end, None without a marker. It does not
        ask whether the snapshot is stored. */
    method CleanupPendingSnapshotUpload(id: string, storeGiven: bool) returns (done: Option<bool>)
      modifies this`refs, this`markers, cas`roots
      ensures State() == DoAll(cas.b3, old(State()), CleanupWrites(old(State()), id, storeGiven))
      ensures done.None? <==> RootIdSafe(id) && JsonFile(id) !in old(markers)
      ensures done == Some(true) <==>
                && RootIdSafe(id) && JsonFile(id) in old(markers) && MarkerValid(project, old(markers)[JsonFile(id)])
                && (storeGiven ==> SafeNames(old(markers)[JsonFile(id)].rootIds))
      ensures done == Some(true) ==>
                && JsonFile(id) !in markers
                && !RefsKept(State(), old(markers)[JsonFile(id)].snapshotId)
    {
      if !RootIdSafe(id) {
        return Some(false);
      }
      if JsonFile(id) !in markers {
        return None;
      }
      var marker := markers[JsonFile(id)];
      if !MarkerValid(project, marker) {
        return Some(false);
      }
      ghost var start := State();
      ghost var all := CleanupWrites(start, id, storeGiven);
      refs := refs - {marker.indexRef};
      refs := refs - {marker.workRef};
      DoTwo(cas.b3, start, DropRef(marker.indexRef), DropRef(marker.workRef));
      ghost var drops := if storeGiven then RootDrops(marker.rootIds) else [];
      ghost var end: seq<Write> := if storeGiven && !SafeNames(marker.rootIds) then [] else [DropMarker(id)];
      DoInTurn(cas.b3, start, [DropRef(marker.indexRef), DropRef(marker.workRef)] + drops, end);
      DoInTurn(cas.b3, start, [DropRef(marker.indexRef), DropRef(marker.workRef)], drops);
      if storeGiven {
        var ok := RemoveRoots(marker.rootIds);
        if !ok {
          return Some(false);
        }
      }
      DoTwo(cas.b3, State(), DropMarker(id), DropMarker(id));
      markers := markers - {JsonFile(id)};
      return Some(true);
    }

    method RemoveRoots(names: seq<string>) returns (ok: bool)
      modifies cas`roots
      ensures State() == DoAll(cas.b3, old(State()), RootDrops(names))
      ensures ok <==> SafeNames(names)
    {
      ghost var end := DoAll(cas.b3, State(), RootDrops(names));
      assert names[0..] == names;
      var i := 0;
      while i < |names|
        invariant 0 <= i <= |names|
        invariant end == DoAll(cas.b3, State(), RootDrops(names[i..]))
        invariant SafeNames(names[..i])
      {
        assert names[i..][0] == names[i] && names[i..][1..] == names[i + 1..] && names[i] in names;
        ghost var before := State();
        var removed := cas.RemoveReachabilityRoot(names[i]);
        if removed.Err? {
          return false;
        }
        assert RootDrops(names[i..])[1..] == RootDrops(names[i + 1..]);
        assert State() == Do(cas.b3, before, InStore(CasClosure.RemoveRoot(names[i])));
        assert names[..i + 1] == names[..i] + [names[i]];
        i := i + 1;
      }
      assert names[..i] == names;
      return true;
    }
  }
}
