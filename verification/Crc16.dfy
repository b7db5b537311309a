/** CRC-16-CCITT as the host stub computes it: polynomial x^16 + x^12 + x^5 + 1
    (ITU-T V.41, section 2), one bit at a time. */
module Crc16 {

  const POLYNOMIAL: bv16 := 0x1021
  const BITS_PER_BYTE: nat := 8

  predicate TopBit(crc: bv16) {
    crc & 0x8000 != 0
  }

  function BitStep(crc: bv16): bv16 {
    if TopBit(crc) then (crc << 1) ^ POLYNOMIAL else crc << 1
  }

  function BitSteps(crc: bv16, n: nat): bv16 {
    if n == 0 then crc else BitStep(BitSteps(crc, n - 1))
  }

  /** A byte enters the register at the top. */
  function Mix(crc: bv16, b: bv8): bv16 {
    crc ^ ((b as bv16) << 8)
  }

  function ByteStep(crc: bv16, b: bv8): bv16 {
    BitSteps(Mix(crc, b), BITS_PER_BYTE)
  }

  function Crc(seed: bv16, bytes: seq<bv8>): bv16 {
    if bytes == [] then seed else ByteStep(Crc(seed, bytes[..|bytes| - 1]), bytes[|bytes| - 1])
  }

  method ComputeCrc(seed: bv16, src: array<bv8>) returns (crc: bv16)
    ensures crc == Crc(seed, src[..])
  {
    crc := seed;
    for i := 0 to src.Length
      invariant crc == Crc(seed, src[..i])
    {
      ghost var before := crc;
      crc := crc ^ ((src[i] as bv16) << 8);
      ghost var mixed := crc;
      for bit := 0 to BITS_PER_BYTE
        invariant crc == BitSteps(mixed, bit)
      {
        if crc & 0x8000 != 0 {
          crc := (crc << 1) ^ POLYNOMIAL;
        } else {
          crc := crc << 1;
        }
      }
      assert src[..i + 1][..i] == src[..i];
    }
    assert src[..src.Length] == src[..];
  }

  // ---- Linearity and injectivity ----

  /** Exclusive or by name, so that proofs can treat it as a mere operation. */
  function Xor(a: bv16, b: bv16): bv16 {
    a ^ b
  }

  function XorByte(a: bv8, b: bv8): bv8 {
    a ^ b
  }

  lemma XorTop(a: bv16, b: bv16)
    ensures TopBit(Xor(a, b)) <==> TopBit(a) != TopBit(b)
  {
    assert (a ^ b) & 0x8000 == (a & 0x8000) ^ (b & 0x8000);
    assert a & 0x8000 == 0 || a & 0x8000 == 0x8000;
    assert b & 0x8000 == 0 || b & 0x8000 == 0x8000;
  }

  lemma XorShift(a: bv16, b: bv16)
    ensures Xor(a << 1, b << 1) == Xor(a, b) << 1
  {
    hide *;
    XorIs(a, b);
    XorIs(a << 1, b << 1);
  }

  lemma XorIs(a: bv16, b: bv16)
    ensures Xor(a, b) == a ^ b
  {
  }

  lemma XorShiftLeft(a: bv16, b: bv16, p: bv16)
    ensures Xor((a << 1) ^ p, b << 1) == (Xor(a, b) << 1) ^ p
  {
  }

  lemma XorShiftRight(a: bv16, b: bv16, p: bv16)
    ensures Xor(a << 1, (b << 1) ^ p) == (Xor(a, b) << 1) ^ p
  {
  }

  lemma XorShiftBoth(a: bv16, b: bv16, p: bv16)
    ensures Xor((a << 1) ^ p, (b << 1) ^ p) == Xor(a, b) << 1
  {
  }

  lemma BitStepLinear(a: bv16, b: bv16)
    ensures BitStep(Xor(a, b)) == Xor(BitStep(a), BitStep(b))
  {
    hide TopBit, Xor;
    XorTop(a, b);
    XorShift(a, b);
    XorShiftLeft(a, b, POLYNOMIAL);
    XorShiftRight(a, b, POLYNOMIAL);
    XorShiftBoth(a, b, POLYNOMIAL);
  }

  lemma {:induction false} BitStepsLinear(a: bv16, b: bv16, n: nat)
    ensures BitSteps(Xor(a, b), n) == Xor(BitSteps(a, n), BitSteps(b, n))
  {
    hide Xor, BitStep;
    if n > 0 {
      BitStepsLinear(a, b, n - 1);
      BitStepLinear(BitSteps(a, n - 1), BitSteps(b, n - 1));
    }
  }

  lemma MixLinear(a: bv16, b: bv16, x: bv8, y: bv8)
    ensures Mix(Xor(a, b), XorByte(x, y)) == Xor(Mix(a, x), Mix(b, y))
  {
  }

  lemma ByteStepLinear(a: bv16, b: bv16, x: bv8, y: bv8)
    ensures ByteStep(Xor(a, b), XorByte(x, y)) == Xor(ByteStep(a, x), ByteStep(b, y))
  {
    hide Xor, XorByte, Mix, BitSteps;
    MixLinear(a, b, x, y);
    BitStepsLinear(Mix(a, x), Mix(b, y), BITS_PER_BYTE);
  }

  function XorBytes(a: seq<bv8>, b: seq<bv8>): (d: seq<bv8>)
    requires |a| == |b|
    ensures |d| == |a|
  {
    seq(|a|, i requires 0 <= i < |a| => XorByte(a[i], b[i]))
  }

  /** The difference of two CRCs is the CRC of the difference. */
  lemma {:induction false} CrcLinear(s: bv16, t: bv16, a: seq<bv8>, b: seq<bv8>)
    requires |a| == |b|
    ensures Xor(Crc(s, a), Crc(t, b)) == Crc(Xor(s, t), XorBytes(a, b))
    decreases |a|
  {
    hide Xor, XorByte, ByteStep;
    if a != [] {
      var n := |a| - 1;
      CrcLinear(s, t, a[..n], b[..n]);
      assert XorBytes(a, b)[..n] == XorBytes(a[..n], b[..n]);
      ByteStepLinear(Crc(s, a[..n]), Crc(t, b[..n]), a[n], b[n]);
    }
  }

  lemma {:induction false} CrcAppend(seed: bv16, a: seq<bv8>, b: seq<bv8>)
    ensures Crc(seed, a + b) == Crc(Crc(seed, a), b)
    decreases |b|
  {
    hide ByteStep;
    if b == [] {
      assert a + b == a;
    } else {
      var n := |b| - 1;
      CrcAppend(seed, a, b[..n]);
      assert (a + b)[..|a| + n] == a + b[..n];
    }
  }

  lemma BitStepInjective(a: bv16)
    ensures BitStep(a) == 0 <==> a == 0
  {
  }

  lemma {:induction false} BitStepsInjective(a: bv16, n: nat)
    ensures BitSteps(a, n) == 0 <==> a == 0
  {
    hide BitStep;
    if n > 0 {
      BitStepsInjective(a, n - 1);
      BitStepInjective(BitSteps(a, n - 1));
    }
  }

  lemma {:induction false} BitStepsAdd(a: bv16, m: nat, n: nat)
    ensures BitSteps(BitSteps(a, m), n) == BitSteps(a, m + n)
  {
    hide BitStep;
    if n > 0 {
      BitStepsAdd(a, m, n - 1);
    }
  }

  /** A CRC over zero bytes loses nothing. */
  lemma {:induction false} ZerosInjective(s: bv16, d: seq<bv8>)
    requires forall i :: 0 <= i < |d| ==> d[i] == 0
    ensures Crc(s, d) == 0 <==> s == 0
    decreases |d|
  {
    hide BitSteps;
    if d != [] {
      var n := |d| - 1;
      ZerosInjective(s, d[..n]);
      BitStepsInjective(Crc(s, d[..n]), BITS_PER_BYTE);
    }
  }

  // ---- Two adjacent bytes are one 16-bit word ----

  function Word(x: bv8, y: bv8): bv16 {
    Mix(y as bv16, x)
  }

  lemma LowByteShifts(y: bv8)
    ensures BitSteps(y as bv16, BITS_PER_BYTE) == Mix(0, y)
  {
    var w := y as bv16;
    assert BitSteps(w, 1) == w << 1;
    assert BitSteps(w, 2) == w << 2;
    assert BitSteps(w, 3) == w << 3;
    assert BitSteps(w, 4) == w << 4;
    assert BitSteps(w, 5) == w << 5;
    assert BitSteps(w, 6) == w << 6;
    assert BitSteps(w, 7) == w << 7;
    assert BitSteps(w, 8) == w << 8;
  }

  lemma WordSplit(x: bv8, y: bv8)
    ensures Word(x, y) == Xor(Mix(0, x), y as bv16)
    ensures Word(x, y) == 0 ==> x == 0 && y == 0
  {
  }

  lemma MixIsXor(crc: bv16, y: bv8)
    ensures Mix(crc, y) == Xor(crc, Mix(0, y))
  {
    var w := (y as bv16) << 8;
    assert Mix(0, y) == w;
  }

  /** Two bytes from a zero register act as their word shifted sixteen times. */
  lemma TwoBytes(x: bv8, y: bv8)
    ensures ByteStep(ByteStep(0, x), y) == BitSteps(Word(x, y), BITS_PER_BYTE + BITS_PER_BYTE)
  {
    hide Mix, Word, Xor, BitSteps;
    WordSplit(x, y);
    BitStepsLinear(Mix(0, x), y as bv16, BITS_PER_BYTE);
    LowByteShifts(y);
    MixIsXor(ByteStep(0, x), y);
    BitStepsAdd(Word(x, y), BITS_PER_BYTE, BITS_PER_BYTE);
  }

  lemma TwoBytesInjective(x: bv8, y: bv8)
    ensures Crc(0, [x, y]) == 0 ==> x == 0 && y == 0
  {
    assert [x, y][..1] == [x] && [x][..0] == [];
    assert Crc(0, [x]) == ByteStep(0, x);
    hide ByteStep, BitSteps, Word;
    TwoBytes(x, y);
    BitStepsInjective(Word(x, y), BITS_PER_BYTE + BITS_PER_BYTE);
    WordSplit(x, y);
  }

  // ---- Error detection ----

  lemma XorIsZero(a: bv16)
    ensures Xor(a, a) == 0
  {
  }

  lemma XorByteIsZero(a: bv8, b: bv8)
    ensures XorByte(a, b) == 0 <==> a == b
  {
  }

  lemma XorBytesZero(a: seq<bv8>, b: seq<bv8>)
    requires |a| == |b|
    ensures forall i :: 0 <= i < |a| ==> (XorBytes(a, b)[i] == 0 <==> a[i] == b[i])
  {
    hide XorByte;
    forall i | 0 <= i < |a| ensures XorBytes(a, b)[i] == 0 <==> a[i] == b[i] {
      XorByteIsZero(a[i], b[i]);
    }
  }

  /** A string that is zero but for two adjacent bytes has a non-zero CRC. */
  lemma WindowNotZero(d: seq<bv8>, k: nat)
    requires k + 2 <= |d| && forall i :: 0 <= i < |d| && i != k && i != k + 1 ==> d[i] == 0
    ensures Crc(0, d) == 0 ==> d[k] == 0 && d[k + 1] == 0
  {
    hide *;
    assert d == d[..k] + ([d[k], d[k + 1]] + d[k + 2..]);
    CrcAppend(0, d[..k], [d[k], d[k + 1]] + d[k + 2..]);
    ZerosInjective(0, d[..k]);
    CrcAppend(0, [d[k], d[k + 1]], d[k + 2..]);
    ZerosInjective(Crc(0, [d[k], d[k + 1]]), d[k + 2..]);
    TwoBytesInjective(d[k], d[k + 1]);
  }

  /** A difference confined to two adjacent bytes is never missed: equally long
      inputs that agree outside bytes k and k + 1 have the same CRC only if they
      are the same. */
  lemma WindowDetected(seed: bv16, a: seq<bv8>, b: seq<bv8>, k: nat)
    requires |a| == |b| && k + 2 <= |a|
    requires forall i :: 0 <= i < |a| && i != k && i != k + 1 ==> a[i] == b[i]
    ensures Crc(seed, a) == Crc(seed, b) <==> a == b
  {
    hide *;
    if Crc(seed, a) == Crc(seed, b) {
      CrcLinear(seed, seed, a, b);
      XorIsZero(seed);
      XorIsZero(Crc(seed, a));
      XorBytesZero(a, b);
      WindowNotZero(XorBytes(a, b), k);
    }
  }

  /** The CRC, from a zero register, of n bytes of 0xff. */
  function OnesCrc(n: nat): bv16 {
    if n == 0 then 0 else ByteStep(OnesCrc(n - 1), 0xff)
  }

  lemma OnesNotZero(n: nat)
    requires 1 <= n <= 24
    ensures OnesCrc(n) != 0
  {
    assert OnesCrc(1) != 0 && OnesCrc(2) != 0 && OnesCrc(3) != 0 && OnesCrc(4) != 0;
    assert OnesCrc(5) != 0 && OnesCrc(6) != 0 && OnesCrc(7) != 0 && OnesCrc(8) != 0;
    assert OnesCrc(9) != 0 && OnesCrc(10) != 0 && OnesCrc(11) != 0 && OnesCrc(12) != 0;
    assert OnesCrc(13) != 0 && OnesCrc(14) != 0 && OnesCrc(15) != 0 && OnesCrc(16) != 0;
    assert OnesCrc(17) != 0 && OnesCrc(18) != 0 && OnesCrc(19) != 0 && OnesCrc(20) != 0;
    assert OnesCrc(21) != 0 && OnesCrc(22) != 0 && OnesCrc(23) != 0 && OnesCrc(24) != 0;
  }

  lemma Push(seed: bv16, bytes: seq<bv8>, b: bv8)
    ensures Crc(seed, bytes + [b]) == ByteStep(Crc(seed, bytes), b)
  {
    assert (bytes + [b])[..|bytes|] == bytes;
  }

  lemma ThreeBytes(crc: bv16, x: bv8, y: bv8, z: bv8)
    ensures Crc(crc, [x, y, z]) == ByteStep(ByteStep(ByteStep(crc, x), y), z)
  {
    hide ByteStep;
    Push(crc, [], x);
    Push(crc, [x], y);
    Push(crc, [x, y], z);
    assert [] + [x] == [x] && [x] + [y] == [x, y] && [x, y] + [z] == [x, y, z];
  }

  /** The check value of this CRC: that of the digits 1 to 9 from seed 0xffff. */
  lemma CheckValue()
    ensures Crc(0xffff, [0x31, 0x32, 0x33, 0x34, 0x35, 0x36, 0x37, 0x38, 0x39]) == 0x29b1
  {
    DigitSteps();
    hide ByteStep, Crc;
    var (a, b, c) := ([0x31, 0x32, 0x33], [0x34, 0x35, 0x36], [0x37, 0x38, 0x39]);
    ThreeBytes(0xffff, 0x31, 0x32, 0x33);
    ThreeBytes(0x5bce, 0x34, 0x35, 0x36);
    ThreeBytes(0x2ef4, 0x37, 0x38, 0x39);
    CrcAppend(0xffff, a, b);
    CrcAppend(0xffff, a + b, c);
    assert a + b + c == [0x31, 0x32, 0x33, 0x34, 0x35, 0x36, 0x37, 0x38, 0x39];
  }

  lemma DigitSteps()
    ensures ByteStep(0xffff, 0x31) == 0xc782 && ByteStep(0xc782, 0x32) == 0x3dba && ByteStep(0x3dba, 0x33) == 0x5bce
    ensures ByteStep(0x5bce, 0x34) == 0x5349 && ByteStep(0x5349, 0x35) == 0x4560 && ByteStep(0x4560, 0x36) == 0x2ef4
    ensures ByteStep(0x2ef4, 0x37) == 0x7718 && ByteStep(0x7718, 0x38) == 0xa12b && ByteStep(0xa12b, 0x39) == 0x29b1
  {
  }
}
