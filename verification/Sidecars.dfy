/**
 Large files that a snapshot keeps outside Git: a sidecar names a manifest in the content-addressed
 store. When a list of them is available, and what checking one list says about another.
 */
module Sidecars {
  import opened Common
  import opened Cas
  import SnapshotRefs

  datatype Sidecar = Sidecar(
    path: string, mode: string, classification: string, size: u64, chunkSize: u64,
    rootHash: string, manifestId: string)

  /** `SnapshotSidecar::validate`. */
  predicate FieldsValid(s: Sidecar) {
    && s.path != "" && s.mode != "" && s.classification != "" && s.rootHash != "" && s.manifestId != ""
    && s.path[0] != '/' && '\\' !in s.path && ".." !in SnapshotRefs.Split(s.path)
    && s.size > 0 && s.chunkSize > 0 && s.rootHash == s.manifestId
  }

  function HashesOf(chunks: seq<ManifestChunk>): (hashes: seq<Hash>)
    ensures |hashes| == |chunks| && forall i :: 0 <= i < |chunks| ==> hashes[i] == chunks[i].hash
  {
    seq(|chunks|, i requires 0 <= i < |chunks| => chunks[i].hash)
  }

  /** `fetch_sidecar_manifest`. */
  function SidecarManifest(b3: Blake3, d: Disk, s: Sidecar): Option<Manifest> {
    if !FieldsValid(s) then None
    else
      match Fetched(b3, d, s.manifestId)
      case None => None
      case Some(m) => if m.id == s.rootHash && m.total == s.size then Some(m) else None
  }

  /** The manifest is there and no chunk of it is missing. */
  predicate Available(b3: Blake3, d: Disk, s: Sidecar) {
    var m := SidecarManifest(b3, d, s);
    m.Some? && Missing(b3, d, HashesOf(m.value.chunks)) == []
  }

  predicate AllAvailable(b3: Blake3, d: Disk, sidecars: seq<Sidecar>) {
    forall s :: s in sidecars ==> Available(b3, d, s)
  }

  predicate AllSafe(safePaths: set<string>, sidecars: seq<Sidecar>) {
    forall s :: s in sidecars ==> s.path in safePaths
  }

  lemma {:induction false} NothingMissing(b3: Blake3, d: Disk, hashes: seq<Hash>)
    ensures Missing(b3, d, hashes) == [] <==> forall h :: h in hashes ==> Verified(b3, d, h)
  {
    if hashes != [] {
      var n := |hashes| - 1;
      NothingMissing(b3, d, hashes[..n]);
      assert hashes == hashes[..n] + [hashes[n]];
    }
  }

  /** Available means: the named manifest fetches with the size the snapshot recorded, and every chunk
      it lists downloads. */
  lemma AvailableExactly(b3: Blake3, d: Disk, s: Sidecar)
    ensures Available(b3, d, s)
            <==> && FieldsValid(s) && Fetched(b3, d, s.manifestId).Some?
                 && Fetched(b3, d, s.manifestId).value.total == s.size
                 && forall c :: c in Fetched(b3, d, s.manifestId).value.chunks ==> Download(b3, d, c.hash).Ok?
  {
    if FieldsValid(s) && Fetched(b3, d, s.manifestId).Some? {
      var chunks := Fetched(b3, d, s.manifestId).value.chunks;
      NothingMissing(b3, d, HashesOf(chunks));
      ListedHashes(b3, d, chunks);
    }
  }

  lemma ListedHashes(b3: Blake3, d: Disk, chunks: seq<ManifestChunk>)
    ensures (forall h :: h in HashesOf(chunks) ==> Verified(b3, d, h))
            <==> (forall c :: c in chunks ==> Download(b3, d, c.hash).Ok?)
  {
    var hashes := HashesOf(chunks);
    if forall h :: h in hashes ==> Verified(b3, d, h) {
      forall c | c in chunks ensures Download(b3, d, c.hash).Ok? {
        var i :| 0 <= i < |chunks| && chunks[i] == c;
        assert hashes[i] in hashes;
        assert Verified(b3, d, hashes[i]);
      }
    }
    if forall c :: c in chunks ==> Download(b3, d, c.hash).Ok? {
      forall h | h in hashes ensures Verified(b3, d, h) {
        var i :| 0 <= i < |hashes| && hashes[i] == h;
        assert chunks[i] in chunks;
      }
    }
  }

  /** `ensure_sidecars_available`; a path is safe if it may be written in the target's working tree. */
  method EnsureSidecarsAvailable(safePaths: set<string>, sidecars: seq<Sidecar>, store: CasStore) returns (ok: bool)
    ensures ok <==> AllSafe(safePaths, sidecars) && AllAvailable(store.b3, store.State(), sidecars)
  {
    var i := 0;
    while i < |sidecars|
      invariant 0 <= i <= |sidecars|
      invariant AllSafe(safePaths, sidecars[..i]) && AllAvailable(store.b3, store.State(), sidecars[..i])
    {
      var sidecar := sidecars[i];
      assert sidecar in sidecars;
      if sidecar.path !in safePaths {
        return false;
      }
      var there := EnsureAvailable(sidecar, store);
      if !there {
        return false;
      }
      assert sidecars[..i + 1] == sidecars[..i] + [sidecar];
      i := i + 1;
    }
    assert sidecars[..i] == sidecars;
    return true;
  }

  method EnsureAvailable(sidecar: Sidecar, store: CasStore) returns (there: bool)
    ensures there <==> Available(store.b3, store.State(), sidecar)
  {
    if !FieldsValid(sidecar) {
      return false;
    }
    var fetched := store.FetchManifest(sidecar.manifestId);
    if fetched.Err? {
      return false;
    }
    if fetched.value.id != sidecar.rootHash || fetched.value.total != sidecar.size {
      return false;
    }
    var missing := store.MissingChunks(HashesOf(fetched.value.chunks));
    return missing == [];
  }

  // ---------------------------------------------------------------- what one list says about another

  predicate SameContent(q: Sidecar, s: Sidecar) {
    q.manifestId == s.manifestId && q.size == s.size
  }

  /** Every sidecar of the second list has valid fields and is named, manifest and size, by the first. */
  predicate Covers(checked: seq<Sidecar>, needed: seq<Sidecar>) {
    forall s :: s in needed ==> FieldsValid(s) && exists q :: q in checked && SameContent(q, s)
  }

  lemma CoveredIsAvailable(b3: Blake3, d: Disk, checked: seq<Sidecar>, needed: seq<Sidecar>)
    requires Covers(checked, needed) && AllAvailable(b3, d, checked)
    ensures AllAvailable(b3, d, needed)
  {
    forall s | s in needed ensures Available(b3, d, s) {
      var q :| q in checked && SameContent(q, s);
      AvailableExactly(b3, d, q);
      AvailableExactly(b3, d, s);
    }
  }

  /** The store without one manifest. */
  function WithoutManifest(d: Disk, id: string): Disk {
    d.(manifests := d.manifests - {JsonFile(id)})
  }

  lemma OthersStay(b3: Blake3, d: Disk, id: string, s: Sidecar)
    requires s.manifestId != id && Available(b3, d, s)
    ensures Available(b3, WithoutManifest(d, id), s)
  {
    var e := WithoutManifest(d, id);
    if JsonFile(s.manifestId) == JsonFile(id) {
      JsonFileInjective(s.manifestId, id);
    }
    assert Fetched(b3, e, s.manifestId) == Fetched(b3, d, s.manifestId);
    AvailableExactly(b3, d, s);
    AvailableExactly(b3, e, s);
    forall c | c in Fetched(b3, d, s.manifestId).value.chunks ensures Download(b3, e, c.hash).Ok? {
      assert Download(b3, e, c.hash) == Download(b3, d, c.hash);
    }
  }

  /** A sidecar that the checked list does not cover can be missing although the check passes. */
  lemma UncoveredCanBeMissing(b3: Blake3, d: Disk, checked: seq<Sidecar>, s: Sidecar) returns (e: Disk)
    requires AllAvailable(b3, d, checked)
    requires !(FieldsValid(s) && exists q :: q in checked && SameContent(q, s))
    ensures AllAvailable(b3, e, checked) && !Available(b3, e, s)
  {
    AvailableExactly(b3, d, s);
    if exists q :: q in checked && q.manifestId == s.manifestId {
      var q :| q in checked && q.manifestId == s.manifestId;
      AvailableExactly(b3, d, q);
      e := d;
    } else {
      e := WithoutManifest(d, s.manifestId);
      AvailableExactly(b3, e, s);
      forall q | q in checked ensures Available(b3, e, q) {
        OthersStay(b3, d, s.manifestId, q);
      }
    }
  }

  /** What a check that passes on some store tells: the needed sidecars are there on every store it passes
      on exactly if the checked list covers them. */
  lemma CoverageExactly(b3: Blake3, d: Disk, checked: seq<Sidecar>, needed: seq<Sidecar>)
    requires AllAvailable(b3, d, checked)
    ensures Covers(checked, needed)
            <==> forall e: Disk :: AllAvailable(b3, e, checked) ==> AllAvailable(b3, e, needed)
  {
    if Covers(checked, needed) {
      forall e: Disk | AllAvailable(b3, e, checked) ensures AllAvailable(b3, e, needed) {
        CoveredIsAvailable(b3, e, checked, needed);
      }
    } else {
      var s :| s in needed && !(FieldsValid(s) && exists q :: q in checked && SameContent(q, s));
      var e := UncoveredCanBeMissing(b3, d, checked, s);
      assert !AllAvailable(b3, e, needed);
    }
  }
}
