/**
 The content-addressed store: chunk files under hash-derived paths, manifests with
 content-derived ids, and reachability roots. BLAKE3 is a parameter that yields 64 hex digits.
 */
module Cas {
  import opened Common

  // ---------------------------------------------------------------- hashes

  predicate HexDigits(s: string, from: nat) {
    forall i :: from <= i < |s| ==> '0' <= s[i] <= '9' || 'a' <= s[i] <= 'f'
  }

  type Hex = s: string | |s| == 64 && HexDigits(s, 0) witness Repeat('0', 64)
  type Blake3 = seq<byte> -> Hex

  const PREFIX: string := "b3_"

  /** `validate_hash_format`. */
  predicate IsHash(s: string) {
    |s| == 67 && s[0] == 'b' && s[1] == '3' && s[2] == '_' && HexDigits(s, 3)
  }

  function Prefixed(hex: Hex): (hash: string)
    ensures IsHash(hash) && hash[3..] == hex
  {
    PREFIX + hex
  }

  type Hash = s: string | IsHash(s) witness Prefixed(Repeat('0', 64))

  /** Contents short enough to have a u64 length. */
  type Bytes = b: seq<byte> | |b| <= U64_MAX

  function HashOf(b3: Blake3, bytes: seq<byte>): Hash {
    Prefixed(b3(bytes))
  }

  type ChunkPath = (string, string)

  /** A directory named by two digits and a file named by the other sixty-two. */
  function ChunkFile(hash: Hash): ChunkPath {
    (hash[3..5], hash[5..] + ".chunk")
  }

  lemma ChunkFileInjective(a: Hash, b: Hash)
    requires ChunkFile(a) == ChunkFile(b)
    ensures a == b
  {
    var x, y := a[5..] + ".chunk", b[5..] + ".chunk";
    assert x[..62] == a[5..] && y[..62] == b[5..];
    assert a == a[..3] + a[3..5] + a[5..] && b == b[..3] + b[3..5] + b[5..];
  }

  // ---------------------------------------------------------------- manifests

  datatype ManifestChunk = ManifestChunk(hash: Hash, offset: u64, size: u64)

  datatype Manifest = Manifest(schema: u32, id: string, total: u64, chunks: seq<ManifestChunk>, createdAt: u64)

  datatype Error = HashMismatch | NotFound | UnsupportedSchema | BadHash | IdMismatch | OffsetMismatch
                 | TotalMismatch | WrongManifest | BadRootId

  datatype Result<+T> = Ok(value: T) | Err(error: Error)

  function Ascii(hash: Hash): (bytes: seq<byte>)
    ensures |bytes| == 67
  {
    seq(67, i requires 0 <= i < 67 => AsciiByte(hash, i))
  }

  function AsciiByte(hash: Hash, i: nat): byte
    requires i < 67
  {
    hash[i] as int
  }

  /** The k low bytes of n, the least significant first. */
  function LittleEndian(n: nat, k: nat): (bytes: seq<byte>)
    ensures |bytes| == k
  {
    if k == 0 then [] else [n % 256] + LittleEndian(n / 256, k - 1)
  }

  function Entry(c: ManifestChunk): (bytes: seq<byte>)
    ensures |bytes| == 83
  {
    Ascii(c.hash) + LittleEndian(c.offset, 8) + LittleEndian(c.size, 8)
  }

  function Entries(chunks: seq<ManifestChunk>): seq<byte> {
    if chunks == [] then [] else Entries(chunks[..|chunks| - 1]) + Entry(chunks[|chunks| - 1])
  }

  /** The bytes of "devrelay.cas.manifest.v1". */
  const DOMAIN: seq<byte> := [0x64, 0x65, 0x76, 0x72, 0x65, 0x6C, 0x61, 0x79, 0x2E, 0x63, 0x61, 0x73, 0x2E,
                              0x6D, 0x61, 0x6E, 0x69, 0x66, 0x65, 0x73, 0x74, 0x2E, 0x76, 0x31]

  function Preimage(chunks: seq<ManifestChunk>): seq<byte> {
    DOMAIN + Entries(chunks)
  }

  function ManifestId(b3: Blake3, chunks: seq<ManifestChunk>): Hash {
    HashOf(b3, Preimage(chunks))
  }

  /** `calculate_manifest_id`: the hasher is fed piece by piece. */
  method CalculateManifestId(b3: Blake3, chunks: seq<ManifestChunk>) returns (id: Hash)
    ensures id == ManifestId(b3, chunks)
  {
    var fed := DOMAIN;
    var i := 0;
    while i < |chunks|
      invariant 0 <= i <= |chunks|
      invariant fed == Preimage(chunks[..i])
    {
      assert chunks[..i + 1][..i] == chunks[..i];
      ghost var before := fed;
      fed := fed + Ascii(chunks[i].hash);
      fed := fed + LittleEndian(chunks[i].offset, 8);
      fed := fed + LittleEndian(chunks[i].size, 8);
      assert fed == before + Entry(chunks[i]);
      assert fed == DOMAIN + (Entries(chunks[..i]) + Entry(chunks[i]));
      i := i + 1;
    }
    assert chunks[..i] == chunks;
    id := HashOf(b3, fed);
  }

  /** The sizes of the first i entries added up. */
  function SizeBefore(chunks: seq<ManifestChunk>, i: nat): nat
    requires i <= |chunks|
  {
    if i == 0 then 0 else SizeBefore(chunks, i - 1) + chunks[i - 1].size
  }

  function TotalSize(chunks: seq<ManifestChunk>): nat {
    SizeBefore(chunks, |chunks|)
  }

  lemma {:induction false} SizeOfPrefix(chunks: seq<ManifestChunk>, more: seq<ManifestChunk>, i: nat)
    requires i <= |chunks|
    ensures SizeBefore(chunks + more, i) == SizeBefore(chunks, i)
  {
    if i > 0 {
      SizeOfPrefix(chunks, more, i - 1);
    }
  }

  function Capped(n: nat): u64 {
    if n <= U64_MAX then n else U64_MAX
  }

  predicate OffsetFits(chunks: seq<ManifestChunk>, i: nat) {
    i < |chunks| && chunks[i].offset == Capped(SizeBefore(chunks, i))
  }

  predicate OffsetsFitUpTo(chunks: seq<ManifestChunk>, n: nat) {
    forall i :: 0 <= i < n ==> OffsetFits(chunks, i)
  }

  /** Every offset is the capped sum of the sizes before it. */
  predicate OffsetsCapped(chunks: seq<ManifestChunk>) {
    OffsetsFitUpTo(chunks, |chunks|)
  }

  predicate Accepts(b3: Blake3, m: Manifest) {
    && m.schema == 1
    && m.id == ManifestId(b3, m.chunks)
    && OffsetsCapped(m.chunks)
    && m.total == Capped(TotalSize(m.chunks))
  }

  /** The running offset of the validation loop, or None at the first entry it does not fit. */
  method CheckOffsets(chunks: seq<ManifestChunk>) returns (end: Option<u64>)
    ensures end == if OffsetsCapped(chunks) then Some(Capped(TotalSize(chunks))) else None
  {
    var offset: u64 := 0;
    var i := 0;
    while i < |chunks|
      invariant 0 <= i <= |chunks|
      invariant offset == Capped(SizeBefore(chunks, i))
      invariant OffsetsFitUpTo(chunks, i)
    {
      if chunks[i].offset != offset {
        assert !OffsetFits(chunks, i);
        return None;
      }
      offset := SaturatingAdd(offset, chunks[i].size);
      i := i + 1;
    }
    return Some(offset);
  }

  /** `CasManifest::validate`; None is acceptance. */
  method Validate(b3: Blake3, m: Manifest) returns (error: Option<Error>)
    ensures error.None? <==> Accepts(b3, m)
    ensures error.Some? ==>
              error.value == if m.schema != 1 then UnsupportedSchema
                             else if !IsHash(m.id) then BadHash
                             else if m.id != ManifestId(b3, m.chunks) then IdMismatch
                             else if !OffsetsCapped(m.chunks) then OffsetMismatch
                             else TotalMismatch
  {
    if m.schema != 1 {
      return Some(UnsupportedSchema);
    }
    if !IsHash(m.id) {
      return Some(BadHash);
    }
    var expected := CalculateManifestId(b3, m.chunks);
    if m.id != expected {
      return Some(IdMismatch);
    }
    var end := CheckOffsets(m.chunks);
    if end.None? {
      return Some(OffsetMismatch);
    }
    return if m.total != end.value then Some(TotalMismatch) else None;
  }

  // ---------------------------------------------------------------- the store on disk

  datatype Root = Root(rootId: string, manifestId: string, createdAt: u64)

  datatype Disk = Disk(chunks: map<ChunkPath, Bytes>, manifests: map<string, Manifest>, roots: map<string, Root>)

  predicate RootIdSafe(id: string) {
    && id != "" && id != "." && id != ".."
    && '/' !in id && '\\' !in id
    && (forall i :: 0 < i < |id| ==> !(id[i] == '.' && id[i - 1] == '.'))
    && (forall c :: c in id ==> c > ' ' && c != 0x7F as char)
  }

  function JsonFile(name: string): string {
    name + ".json"
  }

  lemma JsonFileInjective(a: string, b: string)
    requires JsonFile(a) == JsonFile(b)
    ensures a == b
  {
    assert JsonFile(a)[..|a|] == a && JsonFile(b)[..|b|] == b;
  }

  function Download(b3: Blake3, d: Disk, hash: Hash): (r: Result<Bytes>)
    ensures r.Ok? ==> HashOf(b3, r.value) == hash
  {
    if ChunkFile(hash) !in d.chunks then Err(NotFound)
    else
      var bytes := d.chunks[ChunkFile(hash)];
      if HashOf(b3, bytes) != hash then Err(HashMismatch) else Ok(bytes)
  }

  predicate Verified(b3: Blake3, d: Disk, hash: Hash) {
    Download(b3, d, hash).Ok?
  }

  function Uploaded(b3: Blake3, d: Disk, bytes: Bytes, expected: Hash): Disk {
    if HashOf(b3, bytes) == expected && ChunkFile(expected) !in d.chunks
    then d.(chunks := d.chunks[ChunkFile(expected) := bytes])
    else d
  }

  /** The hashes whose file cannot be verified, in the order asked. */
  function Missing(b3: Blake3, d: Disk, hashes: seq<Hash>): seq<Hash> {
    if hashes == [] then []
    else
      var front, last := Missing(b3, d, hashes[..|hashes| - 1]), hashes[|hashes| - 1];
      if Verified(b3, d, last) then front else front + [last]
  }

  /** The manifest entries for the hashes, or the first failure. */
  function Chunks(b3: Blake3, d: Disk, hashes: seq<Hash>): (r: Result<seq<ManifestChunk>>)
    ensures r.Ok? ==> |r.value| == |hashes|
  {
    if hashes == [] then Ok([])
    else
      match Chunks(b3, d, hashes[..|hashes| - 1])
      case Err(e) => Err(e)
      case Ok(front) =>
        match Download(b3, d, hashes[|hashes| - 1])
        case Err(e) => Err(e)
        case Ok(bytes) => Ok(front + [ManifestChunk(hashes[|hashes| - 1], Capped(TotalSize(front)), |bytes|)])
  }

  function Created(b3: Blake3, d: Disk, hashes: seq<Hash>, now: u64): Result<Manifest> {
    match Chunks(b3, d, hashes)
    case Err(e) => Err(e)
    case Ok(chunks) => Ok(Manifest(1, ManifestId(b3, chunks), Capped(TotalSize(chunks)), chunks, now))
  }

  function AfterCreate(b3: Blake3, d: Disk, hashes: seq<Hash>, now: u64): Disk {
    match Created(b3, d, hashes, now)
    case Err(_) => d
    case Ok(m) => d.(manifests := d.manifests[JsonFile(m.id) := m])
  }

  function Fetched(b3: Blake3, d: Disk, id: string): (r: Option<Manifest>)
    ensures r.Some? ==> IsHash(id) && r.value.id == id && Accepts(b3, r.value)
  {
    if IsHash(id) && JsonFile(id) in d.manifests then
      var m := d.manifests[JsonFile(id)];
      if Accepts(b3, m) && m.id == id then Some(m) else None
    else None
  }

  function AfterAddRoot(b3: Blake3, d: Disk, rootId: string, manifestId: string, now: u64): Disk {
    if RootIdSafe(rootId) && Fetched(b3, d, manifestId).Some?
    then d.(roots := d.roots[JsonFile(rootId) := Root(rootId, manifestId, now)])
    else d
  }

  function AfterRemoveRoot(d: Disk, rootId: string): Disk {
    if RootIdSafe(rootId) then d.(roots := d.roots - {JsonFile(rootId)}) else d
  }

  lemma OffsetsExtend(front: seq<ManifestChunk>, last: ManifestChunk)
    requires OffsetsCapped(front) && last.offset == Capped(TotalSize(front))
    ensures OffsetsCapped(front + [last])
    ensures TotalSize(front + [last]) == TotalSize(front) + last.size
  {
    var all := front + [last];
    forall i | 0 <= i < |all| ensures OffsetFits(all, i) {
      SizeOfPrefix(front, [last], i);
      if i < |front| {
        assert OffsetFits(front, i) && all[i] == front[i];
      }
    }
    SizeOfPrefix(front, [last], |front|);
  }

  lemma {:induction false} CreatedOffsets(b3: Blake3, d: Disk, hashes: seq<Hash>)
    requires Chunks(b3, d, hashes).Ok?
    ensures OffsetsCapped(Chunks(b3, d, hashes).value)
    ensures forall i :: 0 <= i < |hashes| ==> Chunks(b3, d, hashes).value[i].hash == hashes[i]
    ensures forall i :: 0 <= i < |hashes| ==>
              && Download(b3, d, hashes[i]).Ok?
              && Chunks(b3, d, hashes).value[i].size == |Download(b3, d, hashes[i]).value|
  {
    if hashes != [] {
      var n := |hashes| - 1;
      CreatedOffsets(b3, d, hashes[..n]);
      var all, front := Chunks(b3, d, hashes).value, Chunks(b3, d, hashes[..n]).value;
      OffsetsExtend(front, all[n]);
      forall i | 0 <= i < n
        ensures all[i].hash == hashes[i] && Download(b3, d, hashes[i]).Ok?
        ensures all[i].size == |Download(b3, d, hashes[i]).value|
      {
        assert all[i] == front[i] && hashes[i] == hashes[..n][i];
      }
    }
  }

  /** What create_manifest writes passes its own validation. */
  lemma CreatedAccepted(b3: Blake3, d: Disk, hashes: seq<Hash>, now: u64)
    requires Created(b3, d, hashes, now).Ok?
    ensures Accepts(b3, Created(b3, d, hashes, now).value)
  {
    CreatedOffsets(b3, d, hashes);
  }

  class CasStore {
    const b3: Blake3
    var chunks: map<ChunkPath, Bytes>
    var manifests: map<string, Manifest>
    var roots: map<string, Root>

    function State(): Disk
      reads this
    {
      Disk(chunks, manifests, roots)
    }

    constructor (b3: Blake3)
      ensures this.b3 == b3 && State() == Disk(map[], map[], map[])
    {
      this.b3 := b3;
      chunks, manifests, roots := map[], map[], map[];
    }

    /** Whether the chunk was stored now, if the upload is accepted. */
    method UploadChunk(bytes: Bytes, expected: Hash) returns (stored: Result<bool>)
      modifies this`chunks
      ensures State() == Uploaded(b3, old(State()), bytes, expected)
      ensures stored.Ok? <==> HashOf(b3, bytes) == expected && Verified(b3, State(), expected)
      ensures stored == Ok(true) <==> State() != old(State())
    {
      if HashOf(b3, bytes) != expected {
        return Err(HashMismatch);
      }
      var path := ChunkFile(expected);
      if path in chunks {
        var verified := DownloadChunk(expected);
        return if verified.Err? then Err(verified.error) else Ok(false);
      }
      chunks := chunks[path := bytes];
      return Ok(true);
    }

    method DownloadChunk(hash: Hash) returns (r: Result<Bytes>)
      ensures r == Download(b3, State(), hash)
    {
      if ChunkFile(hash) !in chunks {
        return Err(NotFound);
      }
      var bytes := chunks[ChunkFile(hash)];
      var actual := HashOf(b3, bytes);
      if actual != hash {
        return Err(HashMismatch);
      }
      return Ok(bytes);
    }

    method MissingChunks(hashes: seq<Hash>) returns (missing: seq<Hash>)
      ensures missing == Missing(b3, State(), hashes)
    {
      missing := [];
      var i := 0;
      while i < |hashes|
        invariant 0 <= i <= |hashes|
        invariant missing == Missing(b3, State(), hashes[..i])
      {
        assert hashes[..i + 1][..i] == hashes[..i];
        var file := DownloadChunk(hashes[i]);
        if file.Err? {
          missing := missing + [hashes[i]];
        }
        i := i + 1;
      }
      assert hashes[..i] == hashes;
    }

    method CreateManifest(hashes: seq<Hash>, now: u64) returns (r: Result<Manifest>)
      modifies this`manifests
      ensures r == Created(b3, old(State()), hashes, now)
      ensures State() == AfterCreate(b3, old(State()), hashes, now)
    {
      var entries: seq<ManifestChunk> := [];
      var offset: u64 := 0;
      var i := 0;
      while i < |hashes|
        invariant 0 <= i <= |hashes|
        invariant Chunks(b3, State(), hashes[..i]) == Ok(entries)
        invariant offset == Capped(TotalSize(entries))
        invariant State() == old(State())
      {
        ChunksStep(b3, State(), hashes, i, entries);
        var file := DownloadChunk(hashes[i]);
        if file.Err? {
          FailureStays(b3, State(), hashes, i + 1);
          return Err(file.error);
        }
        entries := entries + [ManifestChunk(hashes[i], offset, |file.value|)];
        offset := SaturatingAdd(offset, |file.value|);
        i := i + 1;
      }
      assert hashes[..i] == hashes;
      var id := CalculateManifestId(b3, entries);
      var manifest := Manifest(1, id, offset, entries, now);
      CreatedAccepted(b3, State(), hashes, now);
      var invalid := Validate(b3, manifest);
      assert invalid.None?;
      manifests := manifests[JsonFile(id) := manifest];
      return Ok(manifest);
    }

    method FetchManifest(id: string) returns (r: Result<Manifest>)
      ensures r.Ok? <==> Fetched(b3, State(), id).Some?
      ensures r.Ok? ==> r.value == Fetched(b3, State(), id).value
    {
      if !IsHash(id) {
        return Err(BadHash);
      }
      if JsonFile(id) !in manifests {
        return Err(NotFound);
      }
      var manifest := manifests[JsonFile(id)];
      var invalid := Validate(b3, manifest);
      if invalid.Some? {
        return Err(invalid.value);
      }
      if manifest.id != id {
        return Err(WrongManifest);
      }
      return Ok(manifest);
    }

    method AddReachabilityRoot(rootId: string, manifestId: string, now: u64) returns (r: Result<Root>)
      modifies this`roots
      ensures State() == AfterAddRoot(b3, old(State()), rootId, manifestId, now)
      ensures r.Ok? <==> RootIdSafe(rootId) && Fetched(b3, old(State()), manifestId).Some?
      ensures r.Ok? ==> r.value == Root(rootId, manifestId, now)
    {
      if !RootIdSafe(rootId) {
        return Err(BadRootId);
      }
      var manifest := FetchManifest(manifestId);
      if manifest.Err? {
        return Err(manifest.error);
      }
      var root := Root(rootId, manifestId, now);
      roots := roots[JsonFile(rootId) := root];
      return Ok(root);
    }

    method FetchReachabilityRoot(rootId: string) returns (r: Result<Root>)
      ensures r.Ok? <==> && RootIdSafe(rootId) && JsonFile(rootId) in roots
                         && RootIdSafe(roots[JsonFile(rootId)].rootId) && IsHash(roots[JsonFile(rootId)].manifestId)
      ensures r.Ok? ==> r.value == roots[JsonFile(rootId)]
    {
      if !RootIdSafe(rootId) {
        return Err(BadRootId);
      }
      if JsonFile(rootId) !in roots {
        return Err(NotFound);
      }
      var root := roots[JsonFile(rootId)];
      if !RootIdSafe(root.rootId) {
        return Err(BadRootId);
      }
      if !IsHash(root.manifestId) {
        return Err(BadHash);
      }
      return Ok(root);
    }

    method RemoveReachabilityRoot(rootId: string) returns (r: Result<bool>)
      modifies this`roots
      ensures State() == AfterRemoveRoot(old(State()), rootId)
      ensures r.Ok? <==> RootIdSafe(rootId)
      ensures r == Ok(true) <==> State() != old(State())
    {
      if !RootIdSafe(rootId) {
        return Err(BadRootId);
      }
      var present := JsonFile(rootId) in roots;
      roots := roots - {JsonFile(rootId)};
      return Ok(present);
    }
  }

  lemma ChunksStep(b3: Blake3, d: Disk, hashes: seq<Hash>, i: nat, entries: seq<ManifestChunk>)
    requires i < |hashes| && Chunks(b3, d, hashes[..i]) == Ok(entries)
    ensures match Download(b3, d, hashes[i])
            case Err(e) => Chunks(b3, d, hashes[..i + 1]) == Err(e)
            case Ok(bytes) =>
              var entry := ManifestChunk(hashes[i], Capped(TotalSize(entries)), |bytes|);
              && Chunks(b3, d, hashes[..i + 1]) == Ok(entries + [entry])
              && TotalSize(entries + [entry]) == TotalSize(entries) + |bytes|
  {
    assert hashes[..i + 1][..i] == hashes[..i];
    if Download(b3, d, hashes[i]).Ok? {
      var next := ManifestChunk(hashes[i], Capped(TotalSize(entries)), |Download(b3, d, hashes[i]).value|);
      SizeOfPrefix(entries, [next], |entries|);
    }
  }

  lemma {:induction false} FailureStays(b3: Blake3, d: Disk, hashes: seq<Hash>, n: nat)
    requires n <= |hashes| && Chunks(b3, d, hashes[..n]).Err?
    ensures Chunks(b3, d, hashes) == Chunks(b3, d, hashes[..n])
    decreases |hashes|
  {
    if n == |hashes| {
      assert hashes[..n] == hashes;
    } else {
      assert hashes[..|hashes| - 1][..n] == hashes[..n];
      FailureStays(b3, d, hashes[..|hashes| - 1], n);
    }
  }
}
