/**
 The PNG and ICNS writers of the icon build script: chunks with length and CRC (section 3.2 of
 RFC 2083), an image of one IDAT chunk, and the ICNS container, each with a reader. Pixel colours
 are a parameter.
 */
module Png {
  import opened Common
  import opened Crc
  import opened Zlib

  type Colour = (byte, byte, byte, byte)

  // ---------------------------------------------------------------- chunks

  function ValueOf(bits: seq<bool>): nat {
    if bits == [] then 0 else (if bits[0] then 1 else 0) + 2 * ValueOf(bits[1..])
  }

  lemma {:induction false} ValueBound(bits: seq<bool>)
    ensures ValueOf(bits) < Power2(|bits|)
  {
    if bits != [] {
      ValueBound(bits[1..]);
    }
  }

  lemma SameHalves(x: bool, m: nat, y: bool, n: nat)
    requires (if x then 1 else 0) + 2 * m == (if y then 1 else 0) + 2 * n
    ensures x == y && m == n
  {
  }

  lemma {:induction false} ValueInjective(a: seq<bool>, b: seq<bool>)
    requires |a| == |b| && ValueOf(a) == ValueOf(b)
    ensures a == b
  {
    if a != [] {
      SameHalves(a[0], ValueOf(a[1..]), b[0], ValueOf(b[1..]));
      ValueInjective(a[1..], b[1..]);
      assert a == [a[0]] + a[1..] && b == [b[0]] + b[1..];
    }
  }

  function ByteOf(bits: seq<bool>): byte
    requires |bits| == 8
  {
    ValueBound(bits);
    assert Power2(8) == 256 by {
      assert Power2(4) == 16;
    }
    ValueOf(bits)
  }

  /** `crc.to_be_bytes()`. */
  function CrcBytes(crc: Register): seq<byte> {
    [ByteOf(crc[24..32]), ByteOf(crc[16..24]), ByteOf(crc[8..16]), ByteOf(crc[..8])]
  }

  lemma CrcBytesInjective(a: Register, b: Register)
    requires CrcBytes(a) == CrcBytes(b)
    ensures a == b
  {
    assert CrcBytes(a)[0] == CrcBytes(b)[0] && CrcBytes(a)[1] == CrcBytes(b)[1]
           && CrcBytes(a)[2] == CrcBytes(b)[2] && CrcBytes(a)[3] == CrcBytes(b)[3];
    ValueInjective(a[24..32], b[24..32]);
    ValueInjective(a[16..24], b[16..24]);
    ValueInjective(a[8..16], b[8..16]);
    ValueInjective(a[..8], b[..8]);
    assert a == a[..8] + a[8..16] + a[16..24] + a[24..32];
    assert b == b[..8] + b[8..16] + b[16..24] + b[24..32];
  }

  /** `data.len() as u32` drops what does not fit. */
  function Chunk(kind: seq<byte>, data: seq<byte>): seq<byte>
    requires |kind| == 4
  {
    BigEndian32(|data| % 0x1_0000_0000) + kind + data + CrcBytes(Checksum(kind + data))
  }

  method PushChunk(png: seq<byte>, kind: seq<byte>, data: seq<byte>) returns (out: seq<byte>)
    requires |kind| == 4
    ensures out == png + Chunk(kind, data)
  {
    out := png + BigEndian32(|data| % 0x1_0000_0000);
    out := out + kind;
    out := out + data;
    var crcInput: seq<byte> := [];
    crcInput := crcInput + kind;
    crcInput := crcInput + data;
    assert crcInput == kind + data;
    var crc := Crc32(crcInput);
    out := out + CrcBytes(crc);
  }

  datatype Parsed = Malformed | Parsed(kind: seq<byte>, data: seq<byte>, rest: seq<byte>)

  /** Reads one chunk: length, type, data and a CRC over type and data. */
  function ParseChunk(s: seq<byte>): Parsed {
    if |s| < 12 then Malformed
    else
      var len := FromBigEndian32(s[..4]);
      if |s| < 12 + len then Malformed
      else if s[8 + len..12 + len] != CrcBytes(Checksum(s[4..8 + len])) then Malformed
      else Parsed(s[4..8], s[8..8 + len], s[12 + len..])
  }

  lemma ParsePieces(len: nat, kind: seq<byte>, data: seq<byte>, crc: seq<byte>, rest: seq<byte>)
    requires |kind| == 4 && |crc| == 4 && len == |data| < 0x1_0000_0000
    ensures ParseChunk(BigEndian32(len) + kind + data + crc + rest)
            == if crc == CrcBytes(Checksum(kind + data)) then Parsed(kind, data, rest) else Malformed
  {
    var s := BigEndian32(len) + kind + data + crc + rest;
    assert s[..4] == BigEndian32(len);
    BigEndianRoundTrip(len);
    assert s[4..8 + len] == kind + data;
    assert s[8 + len..12 + len] == crc;
    assert s[4..8] == kind && s[8..8 + len] == data && s[12 + len..] == rest;
  }

  lemma ParseLength(len: nat, kind: seq<byte>, data: seq<byte>, crc: seq<byte>, rest: seq<byte>)
    requires |kind| == 4 && len < 0x1_0000_0000
    ensures var p := ParseChunk(BigEndian32(len) + kind + data + crc + rest);
            p.Parsed? ==> |p.data| == len
  {
    var s := BigEndian32(len) + kind + data + crc + rest;
    assert s[..4] == BigEndian32(len);
    BigEndianRoundTrip(len);
  }

  lemma SmallRemainder(n: nat)
    requires n < 0x1_0000_0000
    ensures n % 0x1_0000_0000 == n
  {
  }

  lemma ChunkPieces(kind: seq<byte>, data: seq<byte>)
    requires |kind| == 4 && |data| < 0x1_0000_0000
    ensures Chunk(kind, data) == BigEndian32(|data|) + kind + data + CrcBytes(Checksum(kind + data))
  {
    SmallRemainder(|data|);
  }

  lemma ChunkRoundTrip(kind: seq<byte>, data: seq<byte>, rest: seq<byte>)
    requires |kind| == 4 && |data| < 0x1_0000_0000
    ensures ParseChunk(Chunk(kind, data) + rest) == Parsed(kind, data, rest)
  {
    ChunkPieces(kind, data);
    ParsePieces(|data|, kind, data, CrcBytes(Checksum(kind + data)), rest);
  }

  /** A chunk reads back exactly when its length fits the 32-bit field. */
  lemma ChunkRoundTripExactly(kind: seq<byte>, data: seq<byte>, rest: seq<byte>)
    requires |kind| == 4
    ensures ParseChunk(Chunk(kind, data) + rest) == Parsed(kind, data, rest) <==> |data| < 0x1_0000_0000
  {
    if |data| < 0x1_0000_0000 {
      ChunkRoundTrip(kind, data, rest);
    } else {
      ParseLength(|data| % 0x1_0000_0000, kind, data, CrcBytes(Checksum(kind + data)), rest);
    }
  }

  lemma BurstChangesCrcBytes(before: seq<byte>, a: seq<byte>, b: seq<byte>, after: seq<byte>)
    requires |a| == |b| == 4 && a != b
    ensures CrcBytes(Checksum(before + a + after)) != CrcBytes(Checksum(before + b + after))
  {
    var x, y := Checksum(before + a + after), Checksum(before + b + after);
    if CrcBytes(x) == CrcBytes(y) {
      CrcBytesInjective(x, y);
      BurstIsDetected(before, a, b, after);
    }
  }

  /** Damage inside any four consecutive bytes of type and data makes the reader reject the chunk. */
  lemma DamagedChunkIsRejected(before: seq<byte>, a: seq<byte>, b: seq<byte>, after: seq<byte>, rest: seq<byte>)
    requires |a| == |b| == 4 && a != b && |before + a + after| >= 4
    requires |before + a + after| - 4 < 0x1_0000_0000
    ensures var body, damaged := before + a + after, before + b + after;
            ParseChunk(BigEndian32(|body| - 4) + damaged + CrcBytes(Checksum(body)) + rest) == Malformed
  {
    var body, damaged := before + a + after, before + b + after;
    BurstChangesCrcBytes(before, a, b, after);
    WrongCrcIsRejected(damaged, CrcBytes(Checksum(body)), rest);
  }

  lemma WrongCrcIsRejected(damaged: seq<byte>, crc: seq<byte>, rest: seq<byte>)
    requires 4 <= |damaged| < 0x1_0000_0004 && |crc| == 4 && crc != CrcBytes(Checksum(damaged))
    ensures ParseChunk(BigEndian32(|damaged| - 4) + damaged + crc + rest) == Malformed
  {
    var kind, data := damaged[..4], damaged[4..];
    assert kind + data == damaged;
    ParsePieces(|data|, kind, data, crc, rest);
    JoinKind(BigEndian32(|data|), kind, data);
  }

  lemma JoinKind(len: seq<byte>, kind: seq<byte>, data: seq<byte>)
    ensures len + kind + data == len + (kind + data)
  {
  }

  // ---------------------------------------------------------------- the image

  const SIGNATURE: seq<byte> := [0x89, 0x50, 0x4E, 0x47, 0x0D, 0x0A, 0x1A, 0x0A]
  const IHDR: seq<byte> := [0x49, 0x48, 0x44, 0x52]
  const IDAT: seq<byte> := [0x49, 0x44, 0x41, 0x54]
  const IEND: seq<byte> := [0x49, 0x45, 0x4E, 0x44]
  const FORMAT: seq<byte> := [8, 6, 0, 0, 0]

  /** The first n pixels of row y. */
  function Row(pixel: (nat, nat) -> Colour, y: nat, n: nat): (row: seq<byte>)
    ensures |row| == 4 * n
  {
    if n == 0 then []
    else
      var c := pixel(n - 1, y);
      Row(pixel, y, n - 1) + [c.0, c.1, c.2, c.3]
  }

  /** The first n rows, each behind a filter byte of zero. */
  function Scanlines(pixel: (nat, nat) -> Colour, width: nat, n: nat): (lines: seq<byte>)
    ensures lines == [] <==> n == 0
  {
    if n == 0 then [] else Scanlines(pixel, width, n - 1) + [0] + Row(pixel, n - 1, width)
  }

  function Header(width: u32, height: u32): seq<byte> {
    BigEndian32(width) + BigEndian32(height) + FORMAT
  }

  function Image(width: u32, height: u32, lines: seq<byte>): seq<byte> {
    SIGNATURE + Chunk(IHDR, Header(width, height)) + Chunk(IDAT, Stored(lines)) + Chunk(IEND, [])
  }

  /** The scanlines, row by row and pixel by pixel. */
  method RenderRows(width: u32, height: u32, pixel: (nat, nat) -> Colour) returns (rgba: seq<byte>)
    ensures rgba == Scanlines(pixel, width, height)
  {
    rgba := [];
    var y := 0;
    while y < height
      invariant 0 <= y <= height
      invariant rgba == Scanlines(pixel, width, y)
    {
      rgba := rgba + [0];
      ghost var before := rgba;
      var x := 0;
      while x < width
        invariant 0 <= x <= width
        invariant rgba == before + Row(pixel, y, x)
      {
        var colour := pixel(x, y);
        rgba := rgba + [colour.0, colour.1, colour.2, colour.3];
        assert rgba == before + (Row(pixel, y, x) + [colour.0, colour.1, colour.2, colour.3]);
        x := x + 1;
      }
      y := y + 1;
    }
  }

  method RenderIconPng(width: u32, height: u32, pixel: (nat, nat) -> Colour) returns (png: seq<byte>)
    ensures png == Image(width, height, Scanlines(pixel, width, height))
  {
    var rgba := RenderRows(width, height, pixel);
    png := SIGNATURE;
    var header := Header(width, height);
    png := PushChunk(png, IHDR, header);
    var stored := ZlibStore(rgba);
    png := PushChunk(png, IDAT, stored);
    png := PushChunk(png, IEND, []);
  }

  datatype Decoded = Rejected | Decoded(width: nat, height: nat, lines: seq<byte>)

  /** The data of a chunk of the given kind, and what follows the chunk. */
  function Expect(s: seq<byte>, kind: seq<byte>): Option<(seq<byte>, seq<byte>)> {
    match ParseChunk(s)
    case Malformed => None
    case Parsed(k, data, rest) => if k == kind then Some((data, rest)) else None
  }

  lemma ExpectChunk(kind: seq<byte>, data: seq<byte>, rest: seq<byte>)
    requires |kind| == 4 && |data| < 0x1_0000_0000
    ensures Expect(Chunk(kind, data) + rest, kind) == Some((data, rest))
  {
    ChunkRoundTrip(kind, data, rest);
  }

  /** The data chunk and the empty end chunk behind it. */
  function DecodeBody(s: seq<byte>): Option<seq<byte>> {
    match Expect(s, IDAT)
    case None => None
    case Some((data, rest)) => if Expect(rest, IEND) == Some(([], [])) then Decode(data) else None
  }

  /** A reader for an image with one header, one data and one end chunk. */
  function DecodeImage(s: seq<byte>): Decoded {
    if |s| < 8 || s[..8] != SIGNATURE then Rejected
    else
      match Expect(s[8..], IHDR)
      case None => Rejected
      case Some((header, rest)) =>
        if |header| != 13 || header[8..] != FORMAT then Rejected
        else
          match DecodeBody(rest)
          case None => Rejected
          case Some(lines) => Decoded(FromBigEndian32(header[..4]), FromBigEndian32(header[4..8]), lines)
  }

  lemma HeaderFields(width: u32, height: u32)
    ensures var h := Header(width, height);
            && |h| == 13 && h[8..] == FORMAT
            && FromBigEndian32(h[..4]) == width && FromBigEndian32(h[4..8]) == height
  {
    var h := Header(width, height);
    assert h[..4] == BigEndian32(width) && h[4..8] == BigEndian32(height) && h[8..] == FORMAT;
    BigEndianRoundTrip(width);
    BigEndianRoundTrip(height);
  }

  lemma BodyRoundTrip(lines: seq<byte>)
    requires |Stored(lines)| < 0x1_0000_0000
    ensures DecodeBody(Chunk(IDAT, Stored(lines)) + Chunk(IEND, [])) == Decode(Stored(lines))
  {
    ExpectChunk(IDAT, Stored(lines), Chunk(IEND, []));
    assert Chunk(IEND, []) + [] == Chunk(IEND, []);
    ExpectChunk(IEND, [], []);
  }

  lemma ImagePieces(s: seq<byte>, width: u32, height: u32, body: seq<byte>)
    requires s == SIGNATURE + (Chunk(IHDR, Header(width, height)) + body)
    ensures DecodeImage(s)
            == match DecodeBody(body) { case None => Rejected case Some(lines) => Decoded(width, height, lines) }
  {
    assert s[..8] == SIGNATURE && s[8..] == Chunk(IHDR, Header(width, height)) + body;
    HeaderFields(width, height);
    ExpectChunk(IHDR, Header(width, height), body);
  }

  /** The rendered image reads back, dimensions and scanlines, exactly when it has scanlines. */
  lemma ImageRoundTripExactly(width: u32, height: u32, lines: seq<byte>)
    requires |Stored(lines)| < 0x1_0000_0000
    ensures DecodeImage(Image(width, height, lines)) == Decoded(width, height, lines) <==> lines != []
  {
    var c1, c2, c3 := Chunk(IHDR, Header(width, height)), Chunk(IDAT, Stored(lines)), Chunk(IEND, []);
    Regroup4(SIGNATURE, c1, c2, c3);
    ImagePieces(Image(width, height, lines), width, height, c2 + c3);
    BodyRoundTrip(lines);
    StoredRoundTripExactly(lines);
  }

  lemma Regroup4(a: seq<byte>, b: seq<byte>, c: seq<byte>, d: seq<byte>)
    ensures a + b + c + d == a + (b + (c + d))
  {
  }

  // ---------------------------------------------------------------- the icon set

  datatype Entry = Entry(kind: seq<byte>, png: seq<byte>)

  predicate ValidEntries(entries: seq<Entry>) {
    forall e :: e in entries ==> |e.kind| == 4
  }

  function EntryBytes(e: Entry): seq<byte>
    requires |e.kind| == 4
  {
    e.kind + BigEndian32((8 + |e.png|) % 0x1_0000_0000) + e.png
  }

  function EntriesBytes(entries: seq<Entry>): seq<byte>
    requires ValidEntries(entries)
  {
    if entries == [] then [] else EntryBytes(entries[0]) + EntriesBytes(entries[1..])
  }

  const ICNS: seq<byte> := [0x69, 0x63, 0x6E, 0x73]

  function Icns(entries: seq<Entry>): seq<byte>
    requires ValidEntries(entries)
  {
    ICNS + BigEndian32((8 + |EntriesBytes(entries)|) % 0x1_0000_0000) + EntriesBytes(entries)
  }

  method RenderIconIcns(entries: seq<Entry>) returns (icns: seq<byte>)
    requires ValidEntries(entries)
    ensures icns == Icns(entries)
  {
    var total := 8;
    var i := 0;
    while i < |entries|
      invariant 0 <= i <= |entries|
      invariant total + |EntriesBytes(entries[i..])| == 8 + |EntriesBytes(entries)|
    {
      assert entries[i..][1..] == entries[i + 1..];
      total := total + (8 + |entries[i].png|);
      i := i + 1;
    }
    icns := ICNS;
    icns := icns + BigEndian32(total % 0x1_0000_0000);
    ghost var header := icns;
    i := 0;
    while i < |entries|
      invariant 0 <= i <= |entries|
      invariant icns + EntriesBytes(entries[i..]) == header + EntriesBytes(entries)
    {
      assert entries[i..][1..] == entries[i + 1..];
      ghost var before := icns;
      icns := icns + entries[i].kind;
      icns := icns + BigEndian32((8 + |entries[i].png|) % 0x1_0000_0000);
      icns := icns + entries[i].png;
      assert icns == before + EntryBytes(entries[i]);
      assert before + (EntryBytes(entries[i]) + EntriesBytes(entries[i + 1..]))
          == icns + EntriesBytes(entries[i + 1..]);
      i := i + 1;
    }
    assert icns + [] == icns;
  }

  /** Follows the length fields until the bytes are used up. */
  function ReadEntries(s: seq<byte>): Option<seq<Entry>>
    decreases |s|
  {
    if s == [] then Some([])
    else if |s| < 8 then None
    else
      var len := FromBigEndian32(s[4..8]);
      if len < 8 || |s| < len then None
      else
        match ReadEntries(s[len..])
        case None => None
        case Some(more) => Some([Entry(s[..4], s[8..len])] + more)
  }

  function ReadIcns(s: seq<byte>): Option<seq<Entry>> {
    if |s| < 8 || s[..4] != ICNS || FromBigEndian32(s[4..8]) != |s| then None else ReadEntries(s[8..])
  }

  lemma ReadFirstEntry(e: Entry, rest: seq<byte>)
    requires |e.kind| == 4 && 8 + |e.png| < 0x1_0000_0000
    ensures ReadEntries(EntryBytes(e) + rest)
            == match ReadEntries(rest) { case None => None case Some(more) => Some([e] + more) }
  {
    var s := EntryBytes(e) + rest;
    assert s[..4] == e.kind && s[4..8] == BigEndian32(8 + |e.png|);
    BigEndianRoundTrip(8 + |e.png|);
    assert s[8..8 + |e.png|] == e.png && s[8 + |e.png|..] == rest;
  }

  lemma {:induction false} EntriesRoundTrip(entries: seq<Entry>)
    requires ValidEntries(entries) && |EntriesBytes(entries)| + 8 < 0x1_0000_0000
    ensures ReadEntries(EntriesBytes(entries)) == Some(entries)
  {
    if entries != [] {
      EntriesRoundTrip(entries[1..]);
      ReadFirstEntry(entries[0], EntriesBytes(entries[1..]));
      assert [entries[0]] + entries[1..] == entries;
    }
  }

  lemma IcnsHeader(body: seq<byte>)
    requires 8 + |body| < 0x1_0000_0000
    ensures ReadIcns(ICNS + BigEndian32(8 + |body|) + body) == ReadEntries(body)
  {
    var total := 8 + |body|;
    var s := ICNS + BigEndian32(total) + body;
    assert s[..4] == ICNS && s[4..8] == BigEndian32(total) && s[8..] == body;
    BigEndianRoundTrip(total);
  }

  /** The container reads back: the total length and every entry length are right. */
  lemma IcnsRoundTrip(entries: seq<Entry>)
    requires ValidEntries(entries) && 8 + |EntriesBytes(entries)| < 0x1_0000_0000
    ensures ReadIcns(Icns(entries)) == Some(entries)
  {
    var body := EntriesBytes(entries);
    EntriesRoundTrip(entries);
    IcnsHeader(body);
    SmallRemainder(8 + |body|);
  }
}
