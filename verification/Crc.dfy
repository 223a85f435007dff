/**
 The bitwise CRC-32 of the icon encoder, and why it detects damage: its step is linear and
 injective, it agrees with the table form of the PNG specification (section 15 of RFC 2083), and
 it separates messages that differ inside any window of four bytes.

 A u32 register is its 32 bits, lowest first: `^` works bit by bit, `>> 1` drops the lowest bit
 and brings in a zero at the top, `& 1` looks at the lowest bit.
 */
module Crc {
  import opened Common

  type Register = bits: seq<bool> | |bits| == 32 witness Repeat(false, 32)

  const ZERO: Register := Repeat(false, 32)
  const INITIAL: Register := Repeat(true, 32)

  /** 0xedb88320, lowest bit first. */
  const POLYNOMIAL: Register :=
    [false, false, false, false, false, true, false, false,
     true, true, false, false, false, false, false, true,
     false, false, false, true, true, true, false, true,
     true, false, true, true, false, true, true, true]

  function Xor(a: Register, b: Register): Register {
    seq(32, i requires 0 <= i < 32 => a[i] != b[i])
  }

  function Not(a: Register): Register {
    seq(32, i requires 0 <= i < 32 => !a[i])
  }

  /** `crc >> n`. */
  function ShiftRight(a: Register, n: nat): Register
    requires n <= 32
  {
    a[n..] + Repeat(false, n)
  }

  /** `crc << n`. */
  function ShiftLeft(a: Register, n: nat): Register
    requires n <= 32
  {
    Repeat(false, n) + a[..32 - n]
  }

  /** The lowest n bits of a number, lowest first. */
  function BitsOf(x: nat, n: nat): (bits: seq<bool>)
    ensures |bits| == n
  {
    if n == 0 then [] else [x % 2 == 1] + BitsOf(x / 2, n - 1)
  }

  /** `byte as u32`. */
  function Widen(b: byte): Register {
    BitsOf(b, 8) + Repeat(false, 24)
  }

  function BitStep(crc: Register): Register {
    if crc[0] then Xor(POLYNOMIAL, ShiftRight(crc, 1)) else ShiftRight(crc, 1)
  }

  function BitSteps(crc: Register, n: nat): Register {
    if n == 0 then crc else BitStep(BitSteps(crc, n - 1))
  }

  function ByteStep(crc: Register): Register {
    BitSteps(crc, 8)
  }

  /** The register after a message of words, one byte step each. */
  function Run(crc: Register, words: seq<Register>): Register {
    if words == [] then crc
    else ByteStep(Xor(Run(crc, words[..|words| - 1]), words[|words| - 1]))
  }

  function Words(data: seq<byte>): seq<Register> {
    seq(|data|, i requires 0 <= i < |data| => Widen(data[i]))
  }

  function Checksum(data: seq<byte>): Register {
    Not(Run(INITIAL, Words(data)))
  }

  method Crc32(data: seq<byte>) returns (checksum: Register)
    ensures checksum == Checksum(data)
  {
    var crc := INITIAL;
    var i := 0;
    while i < |data|
      invariant 0 <= i <= |data|
      invariant crc == Run(INITIAL, Words(data)[..i])
    {
      crc := Xor(crc, Widen(data[i]));
      ghost var mixed := crc;
      var bit := 0;
      while bit < 8
        invariant 0 <= bit <= 8
        invariant crc == BitSteps(mixed, bit)
      {
        crc := if crc[0] then Xor(POLYNOMIAL, ShiftRight(crc, 1)) else ShiftRight(crc, 1);
        bit := bit + 1;
      }
      RunOne(Words(data), i);
      i := i + 1;
    }
    assert Words(data)[..i] == Words(data);
    return Not(crc);
  }

  lemma RunOne(words: seq<Register>, i: nat)
    requires i < |words|
    ensures Run(INITIAL, words[..i + 1]) == BitSteps(Xor(Run(INITIAL, words[..i]), words[i]), 8)
  {
    assert words[..i + 1][..i] == words[..i];
  }

  // ---------------------------------------------------------------- bits

  lemma Medial(a: Register, b: Register, c: Register, d: Register)
    ensures Xor(Xor(a, b), Xor(c, d)) == Xor(Xor(a, c), Xor(b, d))
  {
  }

  lemma Cancel(a: Register, b: Register, x: Register)
    requires Xor(a, x) == Xor(b, x)
    ensures a == b
  {
    forall i | 0 <= i < 32 ensures a[i] == b[i] {
      assert Xor(a, x)[i] == Xor(b, x)[i];
    }
  }

  lemma XorZero(a: Register)
    ensures Xor(a, ZERO) == a && Xor(ZERO, a) == a
  {
  }

  lemma XorSwap(a: Register, b: Register)
    ensures Xor(a, b) == Xor(b, a)
  {
  }

  lemma ShiftXor(a: Register, b: Register, n: nat)
    requires n <= 32
    ensures ShiftRight(Xor(a, b), n) == Xor(ShiftRight(a, n), ShiftRight(b, n))
  {
  }

  // ---------------------------------------------------------------- linear and injective

  /** The feedback a step mixes in. */
  function Feedback(bit: bool): Register {
    if bit then POLYNOMIAL else ZERO
  }

  lemma BitStepAsSum(crc: Register)
    ensures BitStep(crc) == Xor(Feedback(crc[0]), ShiftRight(crc, 1))
  {
    XorZero(ShiftRight(crc, 1));
  }

  lemma FeedbackLinear(a: bool, b: bool)
    ensures Feedback(a != b) == Xor(Feedback(a), Feedback(b))
  {
    XorZero(POLYNOMIAL);
    assert Xor(POLYNOMIAL, POLYNOMIAL) == ZERO;
    XorZero(ZERO);
  }

  lemma BitStepLinear(a: Register, b: Register)
    ensures BitStep(Xor(a, b)) == Xor(BitStep(a), BitStep(b))
  {
    BitStepAsSum(a);
    BitStepAsSum(b);
    BitStepAsSum(Xor(a, b));
    FeedbackLinear(a[0], b[0]);
    ShiftXor(a, b, 1);
    Medial(Feedback(a[0]), Feedback(b[0]), ShiftRight(a, 1), ShiftRight(b, 1));
  }

  /** The top bit of a step tells whether the polynomial was mixed in. */
  lemma BitStepInjective(a: Register, b: Register)
    requires BitStep(a) == BitStep(b)
    ensures a == b
  {
    assert BitStep(a)[31] == a[0] && BitStep(b)[31] == b[0];
    forall i | 1 <= i < 32 ensures a[i] == b[i] {
      assert BitStep(a)[i - 1] == BitStep(b)[i - 1];
    }
  }

  /** Undoes a step: the top bit goes back to the bottom, the polynomial out again. */
  function BitStepBack(crc: Register): Register {
    [crc[31]] + (if crc[31] then Xor(POLYNOMIAL, crc) else crc)[..31]
  }

  /** Every register is reached, so a step is a bijection and this is its inverse. */
  lemma BitStepReaches(crc: Register)
    ensures BitStep(BitStepBack(crc)) == crc && BitStepBack(BitStep(crc)) == crc
  {
    var back := BitStepBack(crc);
    assert POLYNOMIAL[31];
    assert BitStep(back) == crc;
    BitStepUndone(crc);
  }

  lemma BitStepUndone(crc: Register)
    ensures BitStepBack(BitStep(crc)) == crc
  {
    var step := BitStep(crc);
    assert step[31] == crc[0];
    forall i | 0 <= i < 32 ensures BitStepBack(step)[i] == crc[i] {
    }
  }

  lemma {:induction false} BitStepsLinear(a: Register, b: Register, n: nat)
    ensures BitSteps(Xor(a, b), n) == Xor(BitSteps(a, n), BitSteps(b, n))
  {
    if n > 0 {
      BitStepsLinear(a, b, n - 1);
      BitStepLinear(BitSteps(a, n - 1), BitSteps(b, n - 1));
    }
  }

  lemma {:induction false} BitStepsInjective(a: Register, b: Register, n: nat)
    requires BitSteps(a, n) == BitSteps(b, n)
    ensures a == b
  {
    if n > 0 {
      BitStepInjective(BitSteps(a, n - 1), BitSteps(b, n - 1));
      BitStepsInjective(a, b, n - 1);
    }
  }

  /** From different registers, the same words lead to different registers. */
  lemma {:induction false} RunInjective(a: Register, b: Register, words: seq<Register>)
    requires Run(a, words) == Run(b, words)
    ensures a == b
  {
    if words != [] {
      var front, last := words[..|words| - 1], words[|words| - 1];
      BitStepsInjective(Xor(Run(a, front), last), Xor(Run(b, front), last), 8);
      Cancel(Run(a, front), Run(b, front), last);
      RunInjective(a, b, front);
    }
  }

  lemma {:induction false} RunAppend(crc: Register, a: seq<Register>, b: seq<Register>)
    ensures Run(crc, a + b) == Run(Run(crc, a), b)
  {
    if b == [] {
      assert a + b == a;
    } else {
      assert (a + b)[..|a + b| - 1] == a + b[..|b| - 1];
      RunAppend(crc, a, b[..|b| - 1]);
    }
  }

  // ---------------------------------------------------------------- the algebra of messages

  function XorWords(a: seq<Register>, b: seq<Register>): seq<Register>
    requires |a| == |b|
  {
    seq(|a|, i requires 0 <= i < |a| => Xor(a[i], b[i]))
  }

  /** The register is linear in the pair of start value and message. */
  lemma {:induction false} RunLinear(x: Register, y: Register, a: seq<Register>, b: seq<Register>)
    requires |a| == |b|
    ensures Run(Xor(x, y), XorWords(a, b)) == Xor(Run(x, a), Run(y, b))
  {
    if a != [] {
      var n := |a| - 1;
      RunLinear(x, y, a[..n], b[..n]);
      assert XorWords(a, b)[..n] == XorWords(a[..n], b[..n]);
      Medial(Run(x, a[..n]), Run(y, b[..n]), a[n], b[n]);
      BitStepsLinear(Xor(Run(x, a[..n]), a[n]), Xor(Run(y, b[..n]), b[n]), 8);
    }
  }

  /** d is the byte-wise sum of the three messages. */
  ghost predicate IsSum(a: seq<byte>, b: seq<byte>, c: seq<byte>, d: seq<byte>) {
    && |a| == |b| == |c| == |d|
    && forall i :: 0 <= i < |a| ==> Widen(d[i]) == Xor(Xor(Widen(a[i]), Widen(b[i])), Widen(c[i]))
  }

  /** The checksums of three messages of one length determine that of their sum. */
  lemma ChecksumOfSum(a: seq<byte>, b: seq<byte>, c: seq<byte>, d: seq<byte>)
    requires IsSum(a, b, c, d)
    ensures Checksum(d) == Xor(Xor(Checksum(a), Checksum(b)), Checksum(c))
  {
    var ab := XorWords(Words(a), Words(b));
    RunLinear(INITIAL, INITIAL, Words(a), Words(b));
    RunLinear(Xor(INITIAL, INITIAL), INITIAL, ab, Words(c));
    assert Words(d) == XorWords(ab, Words(c));
    assert Xor(Xor(INITIAL, INITIAL), INITIAL) == INITIAL;
    ThreeNots(Run(INITIAL, Words(a)), Run(INITIAL, Words(b)), Run(INITIAL, Words(c)));
  }

  lemma ThreeNots(x: Register, y: Register, z: Register)
    ensures Not(Xor(Xor(x, y), z)) == Xor(Xor(Not(x), Not(y)), Not(z))
  {
  }

  // ---------------------------------------------------------------- the table form

  /** The lowest n bits are zero. */
  predicate Clean(crc: Register, n: nat)
    requires n <= 32
  {
    forall i :: 0 <= i < n ==> !crc[i]
  }

  lemma {:induction false} CleanBitsShift(crc: Register, n: nat)
    requires n <= 32 && Clean(crc, n)
    ensures BitSteps(crc, n) == ShiftRight(crc, n)
  {
    if n == 0 {
      assert ShiftRight(crc, 0) == crc;
    } else {
      CleanBitsShift(crc, n - 1);
      assert !ShiftRight(crc, n - 1)[0];
      assert ShiftRight(ShiftRight(crc, n - 1), 1) == ShiftRight(crc, n);
    }
  }

  /** `crc & 0xff`. */
  function LowByte(crc: Register): Register {
    crc[..8] + Repeat(false, 24)
  }

  /** One table lookup per byte computes the same register: the table holds the eight bit steps
      of each byte value. */
  lemma TableForm(crc: Register, b: byte)
    ensures var mixed := Xor(crc, Widen(b));
            ByteStep(mixed) == Xor(ByteStep(LowByte(mixed)), ShiftRight(mixed, 8))
  {
    var mixed := Xor(crc, Widen(b));
    var high: Register := Repeat(false, 8) + mixed[8..];
    assert mixed == Xor(LowByte(mixed), high);
    BitStepsLinear(LowByte(mixed), high, 8);
    CleanBitsShift(high, 8);
    assert ShiftRight(high, 8) == ShiftRight(mixed, 8);
  }

  // ---------------------------------------------------------------- bursts of four bytes

  function Power2(n: nat): nat {
    if n == 0 then 1 else 2 * Power2(n - 1)
  }

  lemma {:induction false} BitsInjective(a: nat, b: nat, n: nat)
    requires a < Power2(n) && b < Power2(n) && BitsOf(a, n) == BitsOf(b, n)
    ensures a == b
  {
    if n > 0 {
      assert BitsOf(a, n)[0] == BitsOf(b, n)[0] && BitsOf(a, n)[1..] == BitsOf(b, n)[1..];
      assert a % 2 == b % 2;
      BitsInjective(a / 2, b / 2, n - 1);
    }
  }

  lemma ByteBitsInjective(a: byte, b: byte)
    requires BitsOf(a, 8) == BitsOf(b, 8)
    ensures a == b
  {
    assert Power2(8) == 256 by {
      assert Power2(4) == 16;
    }
    BitsInjective(a, b, 8);
  }

  /** Mixing a byte k byte steps later is mixing it 8 * k bits higher now. */
  lemma LateByte(crc: Register, b: byte, k: nat)
    requires 1 <= k <= 3
    ensures Xor(ByteStep(crc), ShiftLeft(Widen(b), 8 * (k - 1))) == ByteStep(Xor(crc, ShiftLeft(Widen(b), 8 * k)))
  {
    var high := ShiftLeft(Widen(b), 8 * k);
    BitStepsLinear(crc, high, 8);
    CleanBitsShift(high, 8);
    assert ShiftRight(high, 8) == ShiftLeft(Widen(b), 8 * (k - 1));
  }

  /** Four message bytes as the word the register meets, first byte lowest. */
  function Word(b0: byte, b1: byte, b2: byte, b3: byte): Register {
    BitsOf(b0, 8) + BitsOf(b1, 8) + BitsOf(b2, 8) + BitsOf(b3, 8)
  }

  lemma WordIsSum(crc: Register, b0: byte, b1: byte, b2: byte, b3: byte)
    ensures Xor(Xor(Xor(Xor(crc, Widen(b0)), ShiftLeft(Widen(b1), 8)), ShiftLeft(Widen(b2), 16)),
                ShiftLeft(Widen(b3), 24))
            == Xor(crc, Word(b0, b1, b2, b3))
  {
    PiecesAreSum(crc, BitsOf(b0, 8), BitsOf(b1, 8), BitsOf(b2, 8), BitsOf(b3, 8));
  }

  /** Eight bits shifted to position n of a register. */
  function Placed(x: seq<bool>, n: nat): Register
    requires |x| == 8 && n <= 32
  {
    ShiftLeft(x + Repeat(false, 24), n)
  }

  lemma PlacedAt(x: seq<bool>, n: nat, i: nat)
    requires |x| == 8 && n <= 24 && i < 32
    ensures Placed(x, n)[i] == (n <= i < n + 8 && x[i - n])
  {
    var wide := x + Repeat(false, 24);
    assert n <= i ==> Placed(x, n)[i] == wide[i - n];
    assert i < n ==> Placed(x, n)[i] == Repeat(false, n)[i];
  }

  lemma PiecesAreSum(crc: Register, x0: seq<bool>, x1: seq<bool>, x2: seq<bool>, x3: seq<bool>)
    requires |x0| == |x1| == |x2| == |x3| == 8
    ensures Xor(Xor(Xor(Xor(crc, x0 + Repeat(false, 24)), Placed(x1, 8)), Placed(x2, 16)), Placed(x3, 24))
            == Xor(crc, x0 + x1 + x2 + x3)
  {
    var w := x0 + x1 + x2 + x3;
    var w0 := x0 + Repeat(false, 24);
    forall i | 0 <= i < 32
      ensures ((((crc[i] != w0[i]) != Placed(x1, 8)[i]) != Placed(x2, 16)[i]) != Placed(x3, 24)[i]) == (crc[i] != w[i])
    {
      PlacedAt(x1, 8, i);
      PlacedAt(x2, 16, i);
      PlacedAt(x3, 24, i);
    }
  }

  lemma WordInjective(a: seq<byte>, b: seq<byte>)
    requires |a| == |b| == 4
    requires Word(a[0], a[1], a[2], a[3]) == Word(b[0], b[1], b[2], b[3])
    ensures a == b
  {
    var v, w := Word(a[0], a[1], a[2], a[3]), Word(b[0], b[1], b[2], b[3]);
    WordSlices(a[0], a[1], a[2], a[3]);
    WordSlices(b[0], b[1], b[2], b[3]);
    ByteBitsInjective(a[0], b[0]);
    ByteBitsInjective(a[1], b[1]);
    ByteBitsInjective(a[2], b[2]);
    ByteBitsInjective(a[3], b[3]);
  }

  lemma WordSlices(b0: byte, b1: byte, b2: byte, b3: byte)
    ensures var w := Word(b0, b1, b2, b3);
            && w[..8] == BitsOf(b0, 8) && w[8..16] == BitsOf(b1, 8)
            && w[16..24] == BitsOf(b2, 8) && w[24..] == BitsOf(b3, 8)
  {
    PieceSlices(BitsOf(b0, 8), BitsOf(b1, 8), BitsOf(b2, 8), BitsOf(b3, 8));
  }

  lemma PieceSlices(x0: seq<bool>, x1: seq<bool>, x2: seq<bool>, x3: seq<bool>)
    requires |x0| == |x1| == |x2| == |x3| == 8
    ensures var w := x0 + x1 + x2 + x3;
            w[..8] == x0 && w[8..16] == x1 && w[16..24] == x2 && w[24..] == x3
  {
  }

  lemma RunSnoc(crc: Register, words: seq<Register>, w: Register)
    ensures Run(crc, words + [w]) == ByteStep(Xor(Run(crc, words), w))
  {
    assert (words + [w])[..|words|] == words;
  }

  /** Four bytes act as one word mixed in before four byte steps. */
  lemma FourBytes(crc: Register, b0: byte, b1: byte, b2: byte, b3: byte)
    ensures Run(crc, [Widen(b0), Widen(b1), Widen(b2), Widen(b3)])
            == ByteStep(ByteStep(ByteStep(ByteStep(Xor(crc, Word(b0, b1, b2, b3))))))
  {
    var x0, x1, x2, x3 := Widen(b0), Widen(b1), Widen(b2), Widen(b3);
    var r0 := Xor(crc, x0);
    var r1 := Xor(r0, ShiftLeft(x1, 8));
    var r2 := Xor(r1, ShiftLeft(x2, 16));
    var r3 := Xor(r2, ShiftLeft(x3, 24));
    assert [] + [x0] == [x0] && [x0] + [x1] == [x0, x1] && [x0, x1] + [x2] == [x0, x1, x2]
           && [x0, x1, x2] + [x3] == [x0, x1, x2, x3];
    RunSnoc(crc, [], x0);
    RunSnoc(crc, [x0], x1);
    RunSnoc(crc, [x0, x1], x2);
    RunSnoc(crc, [x0, x1, x2], x3);
    ShiftNothing(x1);
    ShiftNothing(x2);
    ShiftNothing(x3);
    LateByte(r0, b1, 1);
    LateByte(r1, b2, 2);
    LateByte(ByteStep(r1), b2, 1);
    LateByte(r2, b3, 3);
    LateByte(ByteStep(r2), b3, 2);
    LateByte(ByteStep(ByteStep(r2)), b3, 1);
    WordIsSum(crc, b0, b1, b2, b3);
  }

  lemma ShiftNothing(x: Register)
    ensures ShiftLeft(x, 0) == x
  {
  }

  lemma FourStepsInjective(a: Register, b: Register)
    requires ByteStep(ByteStep(ByteStep(ByteStep(a)))) == ByteStep(ByteStep(ByteStep(ByteStep(b))))
    ensures a == b
  {
    BitStepsInjective(ByteStep(ByteStep(ByteStep(a))), ByteStep(ByteStep(ByteStep(b))), 8);
    BitStepsInjective(ByteStep(ByteStep(a)), ByteStep(ByteStep(b)), 8);
    BitStepsInjective(ByteStep(a), ByteStep(b), 8);
    BitStepsInjective(a, b, 8);
  }

  lemma RunSplit(before: seq<byte>, burst: seq<byte>, after: seq<byte>)
    requires |burst| == 4
    ensures Run(INITIAL, Words(before + burst + after))
            == Run(Run(Run(INITIAL, Words(before)),
                       [Widen(burst[0]), Widen(burst[1]), Widen(burst[2]), Widen(burst[3])]), Words(after))
  {
    var words := [Widen(burst[0]), Widen(burst[1]), Widen(burst[2]), Widen(burst[3])];
    assert Words(before + burst + after) == (Words(before) + words) + Words(after);
    RunAppend(INITIAL, Words(before) + words, Words(after));
    RunAppend(INITIAL, Words(before), words);
  }

  /** Two messages that differ only inside four consecutive bytes never share a checksum. */
  lemma BurstIsDetected(before: seq<byte>, a: seq<byte>, b: seq<byte>, after: seq<byte>)
    requires |a| == |b| == 4
    requires Checksum(before + a + after) == Checksum(before + b + after)
    ensures a == b
  {
    var r := Run(INITIAL, Words(before));
    RunSplit(before, a, after);
    RunSplit(before, b, after);
    NotInjective(Run(INITIAL, Words(before + a + after)), Run(INITIAL, Words(before + b + after)));
    RunInjective(Run(r, [Widen(a[0]), Widen(a[1]), Widen(a[2]), Widen(a[3])]),
                 Run(r, [Widen(b[0]), Widen(b[1]), Widen(b[2]), Widen(b[3])]), Words(after));
    FourBytes(r, a[0], a[1], a[2], a[3]);
    FourBytes(r, b[0], b[1], b[2], b[3]);
    var v, w := Word(a[0], a[1], a[2], a[3]), Word(b[0], b[1], b[2], b[3]);
    FourStepsInjective(Xor(r, v), Xor(r, w));
    XorSwap(r, v);
    XorSwap(r, w);
    Cancel(v, w, r);
    WordInjective(a, b);
  }

  lemma NotInjective(a: Register, b: Register)
    requires Not(a) == Not(b)
    ensures a == b
  {
    forall i | 0 <= i < 32 ensures a[i] == b[i] {
      assert Not(a)[i] == Not(b)[i];
    }
  }
}
