/**
 What the content-addressed store guarantees: identity of manifests, layout of their contents,
 and closure of the store over every run of its API.
 */
module CasClosure {
  import opened Common
  import opened Cas

  // ---------------------------------------------------------------- manifest identity

  function Power256(k: nat): nat {
    if k == 0 then 1 else 256 * Power256(k - 1)
  }

  lemma {:induction false} LittleEndianInjective(a: nat, b: nat, k: nat)
    requires a < Power256(k) && b < Power256(k) && LittleEndian(a, k) == LittleEndian(b, k)
    ensures a == b
  {
    if k > 0 {
      var x, y := LittleEndian(a, k), LittleEndian(b, k);
      assert x[0] == y[0] && x[1..] == LittleEndian(a / 256, k - 1) && y[1..] == LittleEndian(b / 256, k - 1);
      LittleEndianInjective(a / 256, b / 256, k - 1);
    }
  }

  lemma WordBound()
    ensures Power256(8) == U64_MAX + 1
  {
    assert Power256(4) == 0x1_0000_0000;
    assert Power256(6) == 0x1_0000_0000_0000;
  }

  lemma AsciiInjective(a: Hash, b: Hash)
    requires Ascii(a) == Ascii(b)
    ensures a == b
  {
    forall i | 0 <= i < 67 ensures a[i] == b[i] {
      assert Ascii(a)[i] == Ascii(b)[i];
    }
  }

  lemma EntryInjective(a: ManifestChunk, b: ManifestChunk)
    requires Entry(a) == Entry(b)
    ensures a == b
  {
    var x, y := Entry(a), Entry(b);
    assert x[..67] == Ascii(a.hash) && y[..67] == Ascii(b.hash);
    assert x[67..75] == LittleEndian(a.offset, 8) && y[67..75] == LittleEndian(b.offset, 8);
    assert x[75..] == LittleEndian(a.size, 8) && y[75..] == LittleEndian(b.size, 8);
    AsciiInjective(a.hash, b.hash);
    WordBound();
    LittleEndianInjective(a.offset, b.offset, 8);
    LittleEndianInjective(a.size, b.size, 8);
  }

  lemma {:induction false} EntriesInjective(a: seq<ManifestChunk>, b: seq<ManifestChunk>)
    requires Entries(a) == Entries(b)
    ensures a == b
    decreases |a|
  {
    var x, y := Entries(a), Entries(b);
    if a == [] || b == [] {
      assert (a == [] <==> |x| == 0) && (b == [] <==> |y| == 0);
    } else {
      var m, n := |a| - 1, |b| - 1;
      assert x[|x| - 83..] == Entry(a[m]) && y[|y| - 83..] == Entry(b[n]);
      assert x[..|x| - 83] == Entries(a[..m]) && y[..|y| - 83] == Entries(b[..n]);
      EntryInjective(a[m], b[n]);
      EntriesInjective(a[..m], b[..n]);
      assert a == a[..m] + [a[m]] && b == b[..n] + [b[n]];
    }
  }

  /** The hashed bytes determine the chunk list: every entry has the same width. */
  lemma PreimageInjective(a: seq<ManifestChunk>, b: seq<ManifestChunk>)
    requires Preimage(a) == Preimage(b)
    ensures a == b
  {
    assert Preimage(a)[|DOMAIN|..] == Entries(a) && Preimage(b)[|DOMAIN|..] == Entries(b);
    EntriesInjective(a, b);
  }

  /** The two inputs do not collide under the hash. */
  predicate Distinguished(b3: Blake3, x: seq<byte>, y: seq<byte>) {
    b3(x) == b3(y) ==> x == y
  }

  /** Accepted manifests with one id agree in everything but their creation time. */
  lemma IdDeterminesManifest(b3: Blake3, m: Manifest, n: Manifest)
    requires Accepts(b3, m) && Accepts(b3, n) && m.id == n.id
    requires Distinguished(b3, Preimage(m.chunks), Preimage(n.chunks))
    ensures m == n.(createdAt := m.createdAt)
  {
    assert m.id[3..] == b3(Preimage(m.chunks)) && n.id[3..] == b3(Preimage(n.chunks));
    PreimageInjective(m.chunks, n.chunks);
  }

  // ---------------------------------------------------------------- layout

  /** The entries lie end to end from 0 to the total. */
  predicate Tiles(m: Manifest) {
    && (forall i :: 0 <= i < |m.chunks| ==> m.chunks[i].offset == SizeBefore(m.chunks, i))
    && m.total == TotalSize(m.chunks)
  }

  lemma {:induction false} SizeGrows(chunks: seq<ManifestChunk>, i: nat, j: nat)
    requires i <= j <= |chunks|
    ensures SizeBefore(chunks, i) <= SizeBefore(chunks, j)
    decreases j
  {
    if i < j {
      SizeGrows(chunks, i, j - 1);
    }
  }

  /** An accepted manifest tiles its range exactly when its sizes add up within a u64. */
  lemma TilesExactly(b3: Blake3, m: Manifest)
    requires Accepts(b3, m)
    ensures Tiles(m) <==> TotalSize(m.chunks) <= U64_MAX
  {
    if TotalSize(m.chunks) <= U64_MAX {
      forall i | 0 <= i < |m.chunks| ensures m.chunks[i].offset == SizeBefore(m.chunks, i) {
        SizeGrows(m.chunks, i, |m.chunks|);
        assert OffsetFits(m.chunks, i);
      }
    }
  }

  /** The chunk is there, verifies and has the recorded size. */
  predicate Backed(b3: Blake3, d: Disk, c: ManifestChunk) {
    && Download(b3, d, c.hash).Ok?
    && |Download(b3, d, c.hash).value| == c.size
  }

  ghost predicate AllBacked(b3: Blake3, d: Disk, chunks: seq<ManifestChunk>) {
    forall c :: c in chunks ==> Backed(b3, d, c)
  }

  function Content(b3: Blake3, d: Disk, hash: Hash): seq<byte> {
    match Download(b3, d, hash)
    case Ok(bytes) => bytes
    case Err(_) => []
  }

  /** The downloads of the first n entries, end to end. */
  function Assembled(b3: Blake3, d: Disk, chunks: seq<ManifestChunk>, n: nat): seq<byte>
    requires n <= |chunks|
  {
    if n == 0 then [] else Assembled(b3, d, chunks, n - 1) + Content(b3, d, chunks[n - 1].hash)
  }

  lemma {:induction false} AssembledSize(b3: Blake3, d: Disk, chunks: seq<ManifestChunk>, n: nat)
    requires AllBacked(b3, d, chunks) && n <= |chunks|
    ensures |Assembled(b3, d, chunks, n)| == SizeBefore(chunks, n)
  {
    if n > 0 {
      AssembledSize(b3, d, chunks, n - 1);
      assert Backed(b3, d, chunks[n - 1]);
    }
  }

  lemma {:induction false} AssembledPart(b3: Blake3, d: Disk, chunks: seq<ManifestChunk>, i: nat, n: nat)
    requires AllBacked(b3, d, chunks) && i < n <= |chunks|
    ensures SizeBefore(chunks, i) + chunks[i].size <= |Assembled(b3, d, chunks, n)|
    ensures Assembled(b3, d, chunks, n)[SizeBefore(chunks, i)..SizeBefore(chunks, i) + chunks[i].size]
            == Content(b3, d, chunks[i].hash)
    decreases n
  {
    if i < n - 1 {
      AssembledPart(b3, d, chunks, i, n - 1);
      SliceOfFront(Assembled(b3, d, chunks, n - 1), Content(b3, d, chunks[n - 1].hash),
                   SizeBefore(chunks, i), SizeBefore(chunks, i) + chunks[i].size);
    } else {
      AssembledLast(b3, d, chunks, i);
    }
  }

  lemma AssembledLast(b3: Blake3, d: Disk, chunks: seq<ManifestChunk>, i: nat)
    requires AllBacked(b3, d, chunks) && i < |chunks|
    ensures SizeBefore(chunks, i) + chunks[i].size <= |Assembled(b3, d, chunks, i + 1)|
    ensures Assembled(b3, d, chunks, i + 1)[SizeBefore(chunks, i)..SizeBefore(chunks, i) + chunks[i].size]
            == Content(b3, d, chunks[i].hash)
  {
    AssembledSize(b3, d, chunks, i);
    assert Backed(b3, d, chunks[i]);
    SliceOfBack(Assembled(b3, d, chunks, i), Content(b3, d, chunks[i].hash));
  }

  lemma SliceOfFront(a: seq<byte>, b: seq<byte>, start: nat, end: nat)
    requires start <= end <= |a|
    ensures (a + b)[start..end] == a[start..end]
  {
  }

  lemma SliceOfBack(a: seq<byte>, b: seq<byte>)
    ensures (a + b)[|a|..|a| + |b|] == b
  {
  }

  /** Downloading the chunks in order gives `total` bytes, and each chunk sits at its offset. */
  lemma DownloadsFillManifest(b3: Blake3, d: Disk, m: Manifest, i: nat)
    requires Accepts(b3, m) && AllBacked(b3, d, m.chunks) && TotalSize(m.chunks) <= U64_MAX && i < |m.chunks|
    ensures var whole := Assembled(b3, d, m.chunks, |m.chunks|);
            && |whole| == m.total
            && m.chunks[i].offset + m.chunks[i].size <= m.total
            && whole[m.chunks[i].offset..m.chunks[i].offset + m.chunks[i].size] == Content(b3, d, m.chunks[i].hash)
  {
    TilesExactly(b3, m);
    AssembledSize(b3, d, m.chunks, |m.chunks|);
    AssembledPart(b3, d, m.chunks, i, |m.chunks|);
  }

  // ---------------------------------------------------------------- runs of the API

  datatype Op =
    | Upload(bytes: Bytes, expected: Hash)
    | Create(hashes: seq<Hash>, now: u64)
    | AddRoot(rootId: string, manifestId: string, now: u64)
    | RemoveRoot(rootId: string)

  function Step(b3: Blake3, d: Disk, op: Op): Disk {
    match op
    case Upload(bytes, expected) => Uploaded(b3, d, bytes, expected)
    case Create(hashes, now) => AfterCreate(b3, d, hashes, now)
    case AddRoot(rootId, manifestId, now) => AfterAddRoot(b3, d, rootId, manifestId, now)
    case RemoveRoot(rootId) => AfterRemoveRoot(d, rootId)
  }

  function Run(b3: Blake3, d: Disk, ops: seq<Op>): Disk
    decreases |ops|
  {
    if ops == [] then d else Run(b3, Step(b3, d, ops[0]), ops[1..])
  }

  ghost predicate ChunksAtHome(b3: Blake3, d: Disk) {
    forall p :: p in d.chunks ==> p == ChunkFile(HashOf(b3, d.chunks[p]))
  }

  ghost predicate ManifestWhole(b3: Blake3, d: Disk, file: string) {
    file in d.manifests
    && var m := d.manifests[file];
       file == JsonFile(m.id) && Accepts(b3, m) && AllBacked(b3, d, m.chunks)
  }

  ghost predicate RootResolves(d: Disk, file: string) {
    file in d.roots
    && var r := d.roots[file];
       && file == JsonFile(r.rootId) && RootIdSafe(r.rootId)
       && IsHash(r.manifestId) && JsonFile(r.manifestId) in d.manifests
  }

  /** Chunks lie under their own hash, manifests are whole, roots name manifests. */
  ghost predicate Closed(b3: Blake3, d: Disk) {
    && ChunksAtHome(b3, d)
    && (forall f :: f in d.manifests ==> ManifestWhole(b3, d, f))
    && (forall f :: f in d.roots ==> RootResolves(d, f))
  }

  /** Chunk files are never rewritten or removed. */
  ghost predicate Extends(d: Disk, e: Disk) {
    forall p :: p in d.chunks ==> p in e.chunks && e.chunks[p] == d.chunks[p]
  }

  lemma BackedStays(b3: Blake3, d: Disk, e: Disk, chunks: seq<ManifestChunk>)
    requires Extends(d, e) && AllBacked(b3, d, chunks)
    ensures AllBacked(b3, e, chunks)
  {
    forall c | c in chunks ensures Backed(b3, e, c) {
      assert Backed(b3, d, c);
    }
  }

  lemma UploadStaysHome(b3: Blake3, d: Disk, bytes: Bytes, expected: Hash)
    requires ChunksAtHome(b3, d)
    ensures ChunksAtHome(b3, Uploaded(b3, d, bytes, expected)) && Extends(d, Uploaded(b3, d, bytes, expected))
  {
  }

  lemma UploadKeepsClosed(b3: Blake3, d: Disk, bytes: Bytes, expected: Hash)
    requires Closed(b3, d)
    ensures Closed(b3, Uploaded(b3, d, bytes, expected))
  {
    var e := Uploaded(b3, d, bytes, expected);
    UploadStaysHome(b3, d, bytes, expected);
    forall f | f in e.manifests ensures ManifestWhole(b3, e, f) {
      assert ManifestWhole(b3, d, f);
      BackedStays(b3, d, e, d.manifests[f].chunks);
    }
    forall f | f in e.roots ensures RootResolves(e, f) {
      assert RootResolves(d, f);
    }
  }

  lemma CreatedBacked(b3: Blake3, d: Disk, hashes: seq<Hash>, now: u64)
    requires Created(b3, d, hashes, now).Ok?
    ensures AllBacked(b3, d, Created(b3, d, hashes, now).value.chunks)
  {
    CreatedOffsets(b3, d, hashes);
    var chunks := Chunks(b3, d, hashes).value;
    forall c | c in chunks ensures Backed(b3, d, c) {
      var i :| 0 <= i < |chunks| && chunks[i] == c;
      assert chunks[i].hash == hashes[i];
    }
  }

  lemma CreateKeepsClosed(b3: Blake3, d: Disk, hashes: seq<Hash>, now: u64)
    requires Closed(b3, d)
    ensures Closed(b3, AfterCreate(b3, d, hashes, now))
  {
    var e := AfterCreate(b3, d, hashes, now);
    if Created(b3, d, hashes, now).Ok? {
      var m := Created(b3, d, hashes, now).value;
      CreatedAccepted(b3, d, hashes, now);
      CreatedBacked(b3, d, hashes, now);
      forall f | f in e.manifests ensures ManifestWhole(b3, e, f) {
        if f != JsonFile(m.id) {
          assert ManifestWhole(b3, d, f);
        }
        BackedStays(b3, d, e, e.manifests[f].chunks);
      }
      forall f | f in e.roots ensures RootResolves(e, f) {
        assert RootResolves(d, f);
      }
    }
  }

  lemma RootsKeepClosed(b3: Blake3, d: Disk, e: Disk)
    requires Closed(b3, d) && e.chunks == d.chunks && e.manifests == d.manifests
    requires forall f :: f in e.roots ==> RootResolves(e, f)
    ensures Closed(b3, e)
  {
    forall f | f in e.manifests ensures ManifestWhole(b3, e, f) {
      assert ManifestWhole(b3, d, f);
      BackedStays(b3, d, e, d.manifests[f].chunks);
    }
  }

  lemma AddedRootResolves(b3: Blake3, d: Disk, rootId: string, manifestId: string, now: u64, f: string)
    requires f in AfterAddRoot(b3, d, rootId, manifestId, now).roots
    requires f in d.roots ==> RootResolves(d, f)
    ensures RootResolves(AfterAddRoot(b3, d, rootId, manifestId, now), f)
  {
  }

  lemma AddRootKeepsClosed(b3: Blake3, d: Disk, rootId: string, manifestId: string, now: u64)
    requires Closed(b3, d)
    ensures Closed(b3, AfterAddRoot(b3, d, rootId, manifestId, now))
  {
    var e := AfterAddRoot(b3, d, rootId, manifestId, now);
    forall f | f in e.roots ensures RootResolves(e, f) {
      AddedRootResolves(b3, d, rootId, manifestId, now, f);
    }
    RootsKeepClosed(b3, d, e);
  }

  lemma RemoveRootKeepsClosed(b3: Blake3, d: Disk, rootId: string)
    requires Closed(b3, d)
    ensures Closed(b3, AfterRemoveRoot(d, rootId))
  {
    var e := AfterRemoveRoot(d, rootId);
    forall f | f in e.roots ensures RootResolves(e, f) {
      assert RootResolves(d, f);
    }
    RootsKeepClosed(b3, d, e);
  }

  lemma StepKeepsClosed(b3: Blake3, d: Disk, op: Op)
    requires Closed(b3, d)
    ensures Closed(b3, Step(b3, d, op)) && Extends(d, Step(b3, d, op))
  {
    match op {
      case Upload(bytes, expected) => UploadKeepsClosed(b3, d, bytes, expected);
      case Create(hashes, now) => CreateKeepsClosed(b3, d, hashes, now);
      case AddRoot(rootId, manifestId, now) => AddRootKeepsClosed(b3, d, rootId, manifestId, now);
      case RemoveRoot(rootId) => RemoveRootKeepsClosed(b3, d, rootId);
    }
  }

  /** Every run of the API keeps the store closed and every stored chunk in place. */
  lemma {:induction false} RunKeepsClosed(b3: Blake3, d: Disk, ops: seq<Op>)
    requires Closed(b3, d)
    ensures Closed(b3, Run(b3, d, ops)) && Extends(d, Run(b3, d, ops))
    decreases |ops|
  {
    if ops != [] {
      StepKeepsClosed(b3, d, ops[0]);
      RunKeepsClosed(b3, Step(b3, d, ops[0]), ops[1..]);
    }
  }

  /** After every run from the empty store, each root leads to a manifest that fetches and whose
      chunks all download with the recorded sizes. */
  lemma RootsAreReadable(b3: Blake3, ops: seq<Op>, rootId: string)
    ensures var d := Run(b3, Disk(map[], map[], map[]), ops);
            JsonFile(rootId) in d.roots ==>
              var root := d.roots[JsonFile(rootId)];
              && root.rootId == rootId
              && Fetched(b3, d, root.manifestId).Some?
              && AllBacked(b3, d, Fetched(b3, d, root.manifestId).value.chunks)
  {
    var empty := Disk(map[], map[], map[]);
    assert Closed(b3, empty);
    RunKeepsClosed(b3, empty, ops);
    var d := Run(b3, empty, ops);
    if JsonFile(rootId) in d.roots {
      assert RootResolves(d, JsonFile(rootId));
      var root := d.roots[JsonFile(rootId)];
      JsonFileInjective(root.rootId, rootId);
      assert ManifestWhole(b3, d, JsonFile(root.manifestId));
      JsonFileInjective(d.manifests[JsonFile(root.manifestId)].id, root.manifestId);
    }
  }

  /** A manifest that was created fetches back. */
  lemma CreateThenFetch(b3: Blake3, d: Disk, hashes: seq<Hash>, now: u64)
    requires Created(b3, d, hashes, now).Ok?
    ensures var m := Created(b3, d, hashes, now).value;
            && Fetched(b3, AfterCreate(b3, d, hashes, now), m.id) == Some(m)
            && |m.chunks| == |hashes| && forall i :: 0 <= i < |hashes| ==> m.chunks[i].hash == hashes[i]
  {
    CreatedAccepted(b3, d, hashes, now);
    CreatedOffsets(b3, d, hashes);
  }

  // ---------------------------------------------------------------- pinned contents

  predicate Touches(op: Op, rootId: string) {
    (op.AddRoot? || op.RemoveRoot?) && op.rootId == rootId
  }

  /** No manifest created along the run collides with the given chunk list. */
  ghost predicate NoClash(b3: Blake3, d: Disk, ops: seq<Op>, chunks: seq<ManifestChunk>)
    decreases |ops|
  {
    ops == []
    || ((ops[0].Create? && Created(b3, d, ops[0].hashes, ops[0].now).Ok? ==>
           Distinguished(b3, Preimage(chunks), Preimage(Created(b3, d, ops[0].hashes, ops[0].now).value.chunks)))
        && NoClash(b3, Step(b3, d, ops[0]), ops[1..], chunks))
  }

  /** The root is there and leads to the chunk list. */
  predicate Pins(b3: Blake3, d: Disk, rootId: string, chunks: seq<ManifestChunk>) {
    && JsonFile(rootId) in d.roots
    && var m := Fetched(b3, d, d.roots[JsonFile(rootId)].manifestId);
       m.Some? && m.value.chunks == chunks
  }

  lemma StepKeepsPin(b3: Blake3, d: Disk, op: Op, rootId: string, chunks: seq<ManifestChunk>)
    requires Pins(b3, d, rootId, chunks) && !Touches(op, rootId) && NoClash(b3, d, [op], chunks)
    ensures Pins(b3, Step(b3, d, op), rootId, chunks)
  {
    match op {
      case Upload(_, _) =>
      case Create(hashes, now) =>
        if Created(b3, d, hashes, now).Ok? {
          var m := Created(b3, d, hashes, now).value;
          var root := d.roots[JsonFile(rootId)];
          CreatedAccepted(b3, d, hashes, now);
          if JsonFile(m.id) == JsonFile(root.manifestId) {
            JsonFileInjective(m.id, root.manifestId);
            IdDeterminesManifest(b3, Fetched(b3, d, root.manifestId).value, m);
          }
        }
      case AddRoot(other, manifestId, now) =>
        if JsonFile(other) == JsonFile(rootId) {
          JsonFileInjective(other, rootId);
        }
      case RemoveRoot(other) =>
        if JsonFile(other) == JsonFile(rootId) {
          JsonFileInjective(other, rootId);
        }
    }
  }

  lemma {:induction false} PinSurvivesRun(b3: Blake3, d: Disk, ops: seq<Op>, rootId: string, chunks: seq<ManifestChunk>)
    requires Pins(b3, d, rootId, chunks) && NoClash(b3, d, ops, chunks)
    requires forall op :: op in ops ==> !Touches(op, rootId)
    ensures Pins(b3, Run(b3, d, ops), rootId, chunks)
    decreases |ops|
  {
    if ops != [] {
      assert ops[0] in ops;
      assert NoClash(b3, d, [ops[0]], chunks);
      StepKeepsPin(b3, d, ops[0], rootId, chunks);
      PinSurvivesRun(b3, Step(b3, d, ops[0]), ops[1..], rootId, chunks);
    }
  }

  lemma {:induction false} AssembledStays(b3: Blake3, d: Disk, e: Disk, chunks: seq<ManifestChunk>, n: nat)
    requires Extends(d, e) && AllBacked(b3, d, chunks) && n <= |chunks|
    ensures Assembled(b3, e, chunks, n) == Assembled(b3, d, chunks, n)
  {
    if n > 0 {
      AssembledStays(b3, d, e, chunks, n - 1);
      assert Backed(b3, d, chunks[n - 1]);
    }
  }

  /** A pinned manifest keeps its contents, byte for byte, over every run that leaves its root alone. */
  lemma PinnedContentIsStable(b3: Blake3, d: Disk, ops: seq<Op>, rootId: string, chunks: seq<ManifestChunk>)
    requires Closed(b3, d) && Pins(b3, d, rootId, chunks) && NoClash(b3, d, ops, chunks)
    requires forall op :: op in ops ==> !Touches(op, rootId)
    ensures Pins(b3, Run(b3, d, ops), rootId, chunks)
    ensures Assembled(b3, Run(b3, d, ops), chunks, |chunks|) == Assembled(b3, d, chunks, |chunks|)
  {
    PinSurvivesRun(b3, d, ops, rootId, chunks);
    RunKeepsClosed(b3, d, ops);
    var id := d.roots[JsonFile(rootId)].manifestId;
    assert ManifestWhole(b3, d, JsonFile(id));
    AssembledStays(b3, d, Run(b3, d, ops), chunks, |chunks|);
  }

  // ---------------------------------------------------------------- filling gaps

  /** The hashes without a file, in the order asked. */
  function Absent(d: Disk, hashes: seq<Hash>): seq<Hash> {
    if hashes == [] then []
    else
      var front, last := Absent(d, hashes[..|hashes| - 1]), hashes[|hashes| - 1];
      if ChunkFile(last) in d.chunks then front else front + [last]
  }

  lemma VerifiedIffPresent(b3: Blake3, d: Disk, hash: Hash)
    requires ChunksAtHome(b3, d)
    ensures Verified(b3, d, hash) <==> ChunkFile(hash) in d.chunks
  {
    if ChunkFile(hash) in d.chunks {
      ChunkFileInjective(HashOf(b3, d.chunks[ChunkFile(hash)]), hash);
    }
  }

  /** In a closed store the missing chunks are exactly the absent ones. */
  lemma {:induction false} MissingIsAbsent(b3: Blake3, d: Disk, hashes: seq<Hash>)
    requires ChunksAtHome(b3, d)
    ensures Missing(b3, d, hashes) == Absent(d, hashes)
  {
    if hashes != [] {
      MissingIsAbsent(b3, d, hashes[..|hashes| - 1]);
      VerifiedIffPresent(b3, d, hashes[|hashes| - 1]);
    }
  }

  lemma {:induction false} MissingMembers(b3: Blake3, d: Disk, hashes: seq<Hash>)
    ensures forall k :: k in Missing(b3, d, hashes) <==> k in hashes && !Verified(b3, d, k)
  {
    if hashes != [] {
      var n := |hashes| - 1;
      MissingMembers(b3, d, hashes[..n]);
      assert hashes == hashes[..n] + [hashes[n]];
    }
  }

  /** A manifest can be created exactly when every chunk it names verifies. */
  lemma {:induction false} CreatesExactly(b3: Blake3, d: Disk, hashes: seq<Hash>, now: u64)
    ensures Created(b3, d, hashes, now).Ok? <==> forall k :: k in hashes ==> Verified(b3, d, k)
  {
    if hashes != [] {
      var n := |hashes| - 1;
      var front := hashes[..n];
      CreatesExactly(b3, d, front, now);
      assert Created(b3, d, hashes, now).Ok? <==> Created(b3, d, front, now).Ok? && Verified(b3, d, hashes[n]);
      assert forall k :: k in hashes <==> k in front || k == hashes[n] by {
        assert hashes == front + [hashes[n]];
      }
    }
  }

  /** The contents uploaded one after the other, each under its own hash. */
  function UploadAll(b3: Blake3, d: Disk, contents: seq<Bytes>): Disk
    decreases |contents|
  {
    if contents == [] then d
    else UploadAll(b3, Uploaded(b3, d, contents[0], HashOf(b3, contents[0])), contents[1..])
  }

  ghost predicate Supplied(b3: Blake3, contents: seq<Bytes>, hash: Hash) {
    exists i :: 0 <= i < |contents| && HashOf(b3, contents[i]) == hash
  }

  predicate Corrupt(b3: Blake3, d: Disk, hash: Hash) {
    ChunkFile(hash) in d.chunks && !Verified(b3, d, hash)
  }

  lemma UploadVerifies(b3: Blake3, d: Disk, bytes: Bytes, hash: Hash)
    ensures var own := HashOf(b3, bytes);
            var e := Uploaded(b3, d, bytes, own);
            && (Verified(b3, e, hash) <==> Verified(b3, d, hash) || (own == hash && ChunkFile(hash) !in d.chunks))
            && (Corrupt(b3, e, hash) <==> Corrupt(b3, d, hash))
  {
    var own := HashOf(b3, bytes);
    if own != hash && ChunkFile(own) == ChunkFile(hash) {
      ChunkFileInjective(own, hash);
    }
  }

  lemma {:induction false} UploadAllVerifies(b3: Blake3, d: Disk, contents: seq<Bytes>, hash: Hash)
    ensures Verified(b3, UploadAll(b3, d, contents), hash)
            <==> Verified(b3, d, hash) || (Supplied(b3, contents, hash) && !Corrupt(b3, d, hash))
    decreases |contents|
  {
    if contents != [] {
      var e := Uploaded(b3, d, contents[0], HashOf(b3, contents[0]));
      UploadVerifies(b3, d, contents[0], hash);
      UploadAllVerifies(b3, e, contents[1..], hash);
      SuppliedSplit(b3, contents, hash);
    }
  }

  lemma SuppliedSplit(b3: Blake3, contents: seq<Bytes>, hash: Hash)
    requires contents != []
    ensures Supplied(b3, contents, hash) <==> HashOf(b3, contents[0]) == hash || Supplied(b3, contents[1..], hash)
  {
    if Supplied(b3, contents[1..], hash) {
      var i :| 0 <= i < |contents| - 1 && HashOf(b3, contents[1..][i]) == hash;
      assert contents[i + 1] == contents[1..][i];
    }
    if Supplied(b3, contents, hash) && HashOf(b3, contents[0]) != hash {
      var i :| 0 <= i < |contents| && HashOf(b3, contents[i]) == hash;
      assert contents[1..][i - 1] == contents[i];
    }
  }

  /** After uploading what missing_chunks asks for, the manifest can be created exactly when none
      of its chunks has a corrupt file: an upload does not replace an existing file. */
  lemma UploadingMissingSufficesExactly(b3: Blake3, d: Disk, hashes: seq<Hash>, contents: seq<Bytes>, now: u64)
    requires forall k :: k in Missing(b3, d, hashes) ==> Supplied(b3, contents, k)
    ensures Created(b3, UploadAll(b3, d, contents), hashes, now).Ok? <==> forall k :: k in hashes ==> !Corrupt(b3, d, k)
  {
    var e := UploadAll(b3, d, contents);
    CreatesExactly(b3, e, hashes, now);
    MissingMembers(b3, d, hashes);
    forall k | k in hashes ensures Verified(b3, e, k) <==> !Corrupt(b3, d, k) {
      UploadAllVerifies(b3, d, contents, k);
    }
  }

  /** In a closed store no file is corrupt, so uploading the missing chunks always suffices. */
  lemma UploadingMissingSuffices(b3: Blake3, d: Disk, hashes: seq<Hash>, contents: seq<Bytes>, now: u64)
    requires Closed(b3, d) && forall k :: k in Missing(b3, d, hashes) ==> Supplied(b3, contents, k)
    ensures Created(b3, UploadAll(b3, d, contents), hashes, now).Ok?
  {
    UploadingMissingSufficesExactly(b3, d, hashes, contents, now);
    forall k | k in hashes ensures !Corrupt(b3, d, k) {
      VerifiedIffPresent(b3, d, k);
    }
  }
}
