/**
 The stored-block zlib encoder of the icon build script and its Adler-32 checksum, with the
 decoder of section 2.2 of RFC 1950 and section 3.2.4 of RFC 1951 as their counterpart.
 */
module Zlib {
  import opened Common

  const BLOCK: nat := 65535
  const BASE: nat := 65521

  // ---------------------------------------------------------------- integers as bytes

  function LittleEndian16(n: nat): seq<byte>
    requires n < 0x1_0000
  {
    [n % 256, n / 256]
  }

  function FromLittleEndian16(low: byte, high: byte): nat {
    (low as int) + 256 * (high as int)
  }

  function BigEndian32(n: nat): seq<byte>
    requires n < 0x1_0000_0000
  {
    [n / 0x100_0000, n / 0x1_0000 % 256, n / 0x100 % 256, n % 256]
  }

  function FromBigEndian32(s: seq<byte>): nat
    requires |s| == 4
  {
    (s[0] as int) * 0x100_0000 + (s[1] as int) * 0x1_0000 + (s[2] as int) * 0x100 + (s[3] as int)
  }

  lemma BigEndianRoundTrip(n: nat)
    requires n < 0x1_0000_0000
    ensures FromBigEndian32(BigEndian32(n)) == n
  {
    var a, b := n / 0x100, n / 0x1_0000;
    assert n == 256 * a + n % 256 && a == 256 * b + a % 256 && b == 256 * (n / 0x100_0000) + b % 256;
  }

  // ---------------------------------------------------------------- Adler-32

  function Sum(data: seq<byte>): nat {
    if data == [] then 0 else (data[0] as int) + Sum(data[1..])
  }

  /** Each byte weighted with its distance from the end, counting the last byte once. */
  function Weighted(data: seq<byte>): nat {
    if data == [] then 0 else |data| * (data[0] as int) + Weighted(data[1..])
  }

  /** The checksum of section 8.2 of RFC 1950 in closed form. */
  function AdlerValue(data: seq<byte>): (v: nat)
    ensures v < 0x1_0000_0000
  {
    (|data| + Weighted(data)) % BASE * 0x1_0000 + (1 + Sum(data)) % BASE
  }

  lemma {:induction false} SumAppend(data: seq<byte>, b: byte)
    ensures Sum(data + [b]) == Sum(data) + b
  {
    if data != [] {
      assert (data + [b])[1..] == data[1..] + [b];
      SumAppend(data[1..], b);
    }
  }

  lemma {:induction false} WeightedAppend(data: seq<byte>, b: byte)
    ensures Weighted(data + [b]) == Weighted(data) + Sum(data) + b
  {
    if data != [] {
      assert (data + [b])[1..] == data[1..] + [b];
      WeightedAppend(data[1..], b);
      assert (|data| + 1) * (data[0] as int) == |data| * (data[0] as int) + data[0];
    }
  }

  lemma ModAdd(x: nat, y: nat)
    ensures (x % BASE + y) % BASE == (x + y) % BASE
  {
  }

  /** The running sums never leave a u32, and the result is the closed form. */
  method Adler32(data: seq<byte>) returns (checksum: u32)
    ensures checksum == AdlerValue(data)
  {
    var a: u32, b: u32 := 1, 0;
    var i := 0;
    while i < |data|
      invariant 0 <= i <= |data|
      invariant a == (1 + Sum(data[..i])) % BASE
      invariant b == (i + Weighted(data[..i])) % BASE
    {
      AdlerStep(data, i);
      assert a + data[i] <= U32_MAX;
      a := (a + data[i]) % 65521;
      assert b + a <= U32_MAX;
      b := (b + a) % 65521;
      i := i + 1;
    }
    assert data[..i] == data;
    // (b << 16) | a, the two halves do not overlap
    return b * 0x1_0000 + a;
  }

  lemma AdlerStep(data: seq<byte>, i: nat)
    requires i < |data|
    ensures var a, b := (1 + Sum(data[..i])) % BASE, (i + Weighted(data[..i])) % BASE;
            && (a + data[i]) % BASE == (1 + Sum(data[..i + 1])) % BASE
            && (b + (a + data[i]) % BASE) % BASE == (i + 1 + Weighted(data[..i + 1])) % BASE
  {
    assert data[..i + 1] == data[..i] + [data[i]];
    SumAppend(data[..i], data[i]);
    WeightedAppend(data[..i], data[i]);
    var s, w := 1 + Sum(data[..i]), i + Weighted(data[..i]);
    ModAdd(s, data[i]);
    ModAdd(s + data[i], w % BASE);
    ModAdd(w, s + data[i]);
  }

  // ---------------------------------------------------------------- the encoder

  function StoredBlock(chunk: seq<byte>, final: bool): seq<byte>
    requires |chunk| <= BLOCK
  {
    [if final then 1 else 0] + LittleEndian16(|chunk|) + LittleEndian16(0xFFFF - |chunk|) + chunk
  }

  /** The stored blocks of the data; none for empty data. */
  function Blocks(data: seq<byte>): seq<byte> {
    if data == [] then []
    else if |data| <= BLOCK then StoredBlock(data, true)
    else StoredBlock(data[..BLOCK], false) + Blocks(data[BLOCK..])
  }

  function Stored(data: seq<byte>): seq<byte> {
    [0x78, 0x01] + Blocks(data) + BigEndian32(AdlerValue(data))
  }

  method ZlibStore(data: seq<byte>) returns (out: seq<byte>)
    ensures out == Stored(data)
  {
    out := [0x78, 0x01];
    var i := 0;
    while i * BLOCK < |data|
      invariant Remaining(data, i, out)
      decreases |data| - i * BLOCK
    {
      var start := i * BLOCK;
      var end := if start + BLOCK <= |data| then start + BLOCK else |data|;
      var chunk := data[start..end];
      ghost var before := out;
      out := out + [if (i + 1) * BLOCK >= |data| then 1 else 0];
      var len: nat := |chunk|;
      out := out + LittleEndian16(len);
      out := out + LittleEndian16(0xFFFF - len);
      out := out + chunk;
      BlockPieces(before, chunk, (i + 1) * BLOCK >= |data|);
      BlockWritten(data, i, before, StoredBlock(chunk, (i + 1) * BLOCK >= |data|));
      i := i + 1;
    }
    AllWritten(data, i, out);
    var checksum := Adler32(data);
    out := out + BigEndian32(checksum);
  }

  /** The data from chunk i on. */
  function Rest(data: seq<byte>, i: nat): seq<byte> {
    if i * BLOCK <= |data| then data[i * BLOCK..] else []
  }

  /** What is written and the blocks of the rest are the whole stream so far. */
  ghost predicate Remaining(data: seq<byte>, i: nat, out: seq<byte>) {
    out + Blocks(Rest(data, i)) == [0x78, 0x01] + Blocks(data)
  }

  lemma BlockPieces(before: seq<byte>, chunk: seq<byte>, final: bool)
    requires |chunk| <= BLOCK
    ensures before + [if final then 1 else 0] + LittleEndian16(|chunk|) + LittleEndian16(0xFFFF - |chunk|) + chunk
            == before + StoredBlock(chunk, final)
  {
  }

  lemma BlockWritten(data: seq<byte>, i: nat, before: seq<byte>, block: seq<byte>)
    requires i * BLOCK < |data| && Remaining(data, i, before)
    requires var start := i * BLOCK;
             var end := if start + BLOCK <= |data| then start + BLOCK else |data|;
             block == StoredBlock(data[start..end], (i + 1) * BLOCK >= |data|)
    ensures Remaining(data, i + 1, before + block)
  {
    NextBlock(data, i);
    assert before + (block + Blocks(Rest(data, i + 1))) == (before + block) + Blocks(Rest(data, i + 1));
  }

  lemma AllWritten(data: seq<byte>, i: nat, out: seq<byte>)
    requires i * BLOCK >= |data| && Remaining(data, i, out)
    ensures out == [0x78, 0x01] + Blocks(data)
  {
    assert Rest(data, i) == [];
    assert out + [] == out;
  }

  lemma NextBlock(data: seq<byte>, i: nat)
    requires i * BLOCK < |data|
    ensures var start := i * BLOCK;
            var end := if start + BLOCK <= |data| then start + BLOCK else |data|;
            Blocks(Rest(data, i))
            == StoredBlock(data[start..end], (i + 1) * BLOCK >= |data|) + Blocks(Rest(data, i + 1))
  {
    var rest, next := Rest(data, i), Rest(data, i + 1);
    assert (i + 1) * BLOCK == i * BLOCK + BLOCK;
    if |rest| <= BLOCK {
      assert next == [];
      assert rest == data[i * BLOCK..|data|];
      assert StoredBlock(rest, true) + [] == StoredBlock(rest, true);
    } else {
      assert rest[..BLOCK] == data[i * BLOCK..i * BLOCK + BLOCK];
      assert rest[BLOCK..] == next;
    }
  }

  // ---------------------------------------------------------------- the decoder

  datatype Inflated = Bad | Inflated(data: seq<byte>, rest: seq<byte>)

  /** Stored blocks up to and including the first final one. */
  function Inflate(s: seq<byte>): Inflated
    decreases |s|
  {
    if |s| < 5 || s[0] / 2 % 4 != 0 then Bad
    else
      var len, complement := FromLittleEndian16(s[1], s[2]), FromLittleEndian16(s[3], s[4]);
      if len + complement != 0xFFFF || |s| < 5 + len then Bad
      else
        var chunk, rest := s[5..5 + len], s[5 + len..];
        if s[0] % 2 == 1 then Inflated(chunk, rest)
        else
          match Inflate(rest)
          case Bad => Bad
          case Inflated(more, after) => Inflated(chunk + more, after)
  }

  /** Method 8, a window of at most 32K, the check bits, and no preset dictionary. */
  predicate HeaderValid(cmf: byte, flg: byte) {
    && cmf % 16 == 8 && cmf / 16 <= 7
    && ((cmf as int) * 256 + (flg as int)) % 31 == 0
    && flg / 32 % 2 == 0
  }

  /** A zlib stream without a preset dictionary. */
  function Decode(s: seq<byte>): Option<seq<byte>> {
    if |s| < 2 || !HeaderValid(s[0], s[1]) then None
    else
      match Inflate(s[2..])
      case Bad => None
      case Inflated(data, rest) =>
        if |rest| == 4 && FromBigEndian32(rest) == AdlerValue(data) then Some(data) else None
  }

  lemma InflateBlock(chunk: seq<byte>, final: bool, rest: seq<byte>)
    requires |chunk| <= BLOCK
    ensures Inflate(StoredBlock(chunk, final) + rest)
            == if final then Inflated(chunk, rest)
               else match Inflate(rest) {
                 case Bad => Bad
                 case Inflated(more, after) => Inflated(chunk + more, after)
               }
  {
    var s := StoredBlock(chunk, final) + rest;
    assert s[0] == (if final then 1 else 0);
    assert FromLittleEndian16(s[1], s[2]) == |chunk|;
    assert FromLittleEndian16(s[3], s[4]) == 0xFFFF - |chunk|;
    assert s[5..5 + |chunk|] == chunk;
    assert s[5 + |chunk|..] == rest;
  }

  lemma {:induction false} InflateBlocks(data: seq<byte>, rest: seq<byte>)
    requires data != []
    ensures Inflate(Blocks(data) + rest) == Inflated(data, rest)
    decreases |data|
  {
    if |data| <= BLOCK {
      InflateBlock(data, true, rest);
    } else {
      var head, tail := StoredBlock(data[..BLOCK], false), Blocks(data[BLOCK..]);
      assert (head + tail) + rest == head + (tail + rest);
      InflateBlocks(data[BLOCK..], rest);
      InflateBlock(data[..BLOCK], false, tail + rest);
      assert data[..BLOCK] + data[BLOCK..] == data;
    }
  }

  /** The stream decodes to the data exactly when there is data: without any, no block is written
      and the stream has no final block. */
  lemma StoredRoundTripExactly(data: seq<byte>)
    ensures Decode(Stored(data)) == Some(data) <==> data != []
    ensures data == [] ==> Decode(Stored(data)) == None
  {
    var check := BigEndian32(AdlerValue(data));
    assert Stored(data) == [0x78, 0x01] + (Blocks(data) + check);
    HeaderAccepted(Blocks(data) + check);
    BigEndianRoundTrip(AdlerValue(data));
    if data != [] {
      InflateBlocks(data, check);
    } else {
      assert |Blocks(data) + check| == 4;
    }
  }

  lemma HeaderAccepted(body: seq<byte>)
    ensures Decode([0x78, 0x01] + body)
            == match Inflate(body) {
                 case Bad => None
                 case Inflated(data, rest) =>
                   if |rest| == 4 && FromBigEndian32(rest) == AdlerValue(data) then Some(data) else None
               }
  {
    var s: seq<byte> := [0x78, 0x01] + body;
    WrittenHeaderValid();
    assert s[2..] == body;
    assert s[0] == 0x78 && s[1] == 0x01;
  }

  lemma WrittenHeaderValid()
    ensures HeaderValid(0x78, 0x01)
  {
    assert 0x78 * 256 + 0x01 == 31 * 991;
  }
}
