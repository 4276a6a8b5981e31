/** The CRC-32 of the image and shape checksums: the bitwise definition and the algebra of its
    shift register over GF(2).

    `Steps(n, r)` clocks register value r n times with no input.  Every fast form rests on three
    facts: clocking is linear in the register, it is a bijection, and bits that have not yet
    reached the low end of the register are only shifted.

    Proofs hide the bit-vector definitions they do not need and quote them one application at a
    time through the small lemmas of the first section. */
module Crc32 {
  type byte = bv8

  function Xor(x: bv32, y: bv32): bv32 { x ^ y }

  function Half(r: bv32): bv32 { r >> 1 }

  /** The feedback of one clock: the branch-free mask of the bitwise loop, with zlib's polynomial. */
  function Tap(r: bv32): bv32 { (0 - (r & 1)) & 0xEDB8_8320 }

  /** One clock of the reflected register. */
  function BitStep(r: bv32): bv32 { Xor(Half(r), Tap(r)) }

  function Steps(n: nat, r: bv32): bv32
    decreases n
  {
    if n == 0 then r else Steps(n - 1, BitStep(r))
  }

  function Word(b: byte): bv32 { b as bv32 }

  function ByteStep(r: bv32, b: byte): bv32 {
    Steps(8, Xor(r, Word(b)))
  }

  /** The register after feeding all bytes of `data`, last byte outermost. */
  function Update(r: bv32, data: seq<byte>): bv32 {
    if data == [] then r
    else ByteStep(Update(r, data[..|data| - 1]), data[|data| - 1])
  }

  function Not(r: bv32): bv32 { !r }

  /** CRC-32 of `data` continued from `previous`. */
  function Checksum(data: seq<byte>, previous: bv32): bv32 {
    Not(Update(Not(previous), data))
  }

  // ----- Bit-vector facts, one definition at a time

  lemma XorDef(x: bv32, y: bv32)
    ensures Xor(x, y) == x ^ y
  {
  }

  lemma XorCancel(x: bv32, y: bv32, z: bv32)
    requires Xor(x, z) == Xor(y, z)
    ensures x == y
  {
  }

  lemma XorAssoc(x: bv32, y: bv32, z: bv32)
    ensures Xor(Xor(x, y), z) == Xor(x, Xor(y, z))
  {
    hide Xor;
    XorSwap(x, y, 0, z);
    XorZero(x);
    XorZero(z);
  }

  lemma NotNot(r: bv32)
    ensures Not(Not(r)) == r
  {
  }

  lemma XorSwapRaw(a: bv32, b: bv32, c: bv32, d: bv32, ab: bv32, cd: bv32, ac: bv32, bd: bv32)
    requires ab == a ^ b && cd == c ^ d && ac == a ^ c && bd == b ^ d
    ensures Xor(ab, cd) == Xor(ac, bd)
  {
  }

  lemma XorSwap(a: bv32, b: bv32, c: bv32, d: bv32)
    ensures Xor(Xor(a, b), Xor(c, d)) == Xor(Xor(a, c), Xor(b, d))
  {
    hide Xor;
    XorDef(a, b);
    XorDef(c, d);
    XorDef(a, c);
    XorDef(b, d);
    XorSwapRaw(a, b, c, d, Xor(a, b), Xor(c, d), Xor(a, c), Xor(b, d));
  }

  lemma XorZero(x: bv32)
    ensures Xor(x, 0) == x && Xor(0, x) == x
  {
  }

  lemma HalfLinear(x: bv32, y: bv32)
    ensures Half(Xor(x, y)) == Xor(Half(x), Half(y))
  {
  }

  lemma TapDef(r: bv32)
    ensures Tap(r) == (0 - (r & 1)) & 0xEDB8_8320
  {
  }

  lemma BitStepDef(r: bv32)
    ensures BitStep(r) == Xor(Half(r), Tap(r))
  {
  }

  lemma HalfDef(r: bv32)
    ensures Half(r) == r >> 1
  {
  }

  lemma BitStepRaw(r: bv32, s: bv32)
    requires s == BitStep(r)
    ensures s == (r >> 1) ^ ((0 - (r & 1)) & 0xEDB8_8320)
  {
    hide BitStep, Half, Xor, Tap;
    var t := Tap(r);
    BitStepDef(r);
    XorDef(Half(r), t);
    assert s == Half(r) ^ t;
    HalfDef(r);
    TapDef(r);
  }

  lemma TapCases(r: bv32)
    ensures r & 1 == 0 || r & 1 == 1
    ensures r & 1 == 0 ==> Tap(r) == 0
    ensures r & 1 == 1 ==> Tap(r) == 0xEDB8_8320
  {
  }

  lemma TapLinear(x: bv32, y: bv32)
    ensures Tap(Xor(x, y)) == Xor(Tap(x), Tap(y))
  {
  }

  // ----- One clock is linear and a bijection

  lemma BitStepLinear(x: bv32, y: bv32)
    ensures BitStep(Xor(x, y)) == Xor(BitStep(x), BitStep(y))
  {
    hide Xor, Half, Tap;
    TapLinear(x, y);
    HalfLinear(x, y);
    XorSwap(Half(x), Half(y), Tap(x), Tap(y));
  }

  /** The inverse of one clock: the top bit tells whether the polynomial was added. */
  function BitUnstep(r: bv32): bv32 {
    if r & 0x8000_0000 != 0 then ((r ^ 0xEDB8_8320) << 1) | 1 else r << 1
  }

  lemma BitUnstepStep(r: bv32)
    ensures BitUnstep(BitStep(r)) == r
  {
  }

  lemma StepPlain(r: bv32)
    requires r & 0x8000_0000 == 0
    ensures BitStep(r << 1) == r
  {
  }

  lemma StepTapped(r: bv32)
    requires r & 0x8000_0000 != 0
    ensures BitStep(((r ^ 0xEDB8_8320) << 1) | 1) == r
  {
  }

  lemma BitStepUnstep(r: bv32)
    ensures BitStep(BitUnstep(r)) == r
  {
    hide BitStep;
    if r & 0x8000_0000 == 0 {
      StepPlain(r);
    } else {
      StepTapped(r);
    }
  }

  // ----- The register is linear over GF(2), and a bijection

  lemma {:induction false} StepsLinear(n: nat, x: bv32, y: bv32)
    ensures Steps(n, Xor(x, y)) == Xor(Steps(n, x), Steps(n, y))
    decreases n
  {
    hide Xor, BitStep;
    if n == 0 {
    } else {
      BitStepLinear(x, y);
      StepsLinear(n - 1, BitStep(x), BitStep(y));
    }
  }

  lemma {:induction false} StepsCompose(m: nat, n: nat, r: bv32)
    ensures Steps(m + n, r) == Steps(n, Steps(m, r))
    decreases m
  {
    hide BitStep;
    if m == 0 {
    } else {
      StepsCompose(m - 1, n, BitStep(r));
    }
  }

  lemma {:induction false} StepsInjective(n: nat, x: bv32, y: bv32)
    requires Steps(n, x) == Steps(n, y)
    ensures x == y
    decreases n
  {
    hide BitStep, BitUnstep;
    if n == 0 {
    } else {
      StepsInjective(n - 1, BitStep(x), BitStep(y));
      BitUnstepStep(x);
      BitUnstepStep(y);
    }
  }

  lemma {:induction false} UpdateInjective(x: bv32, y: bv32, data: seq<byte>)
    requires Update(x, data) == Update(y, data)
    ensures x == y
  {
    hide Steps, Xor, Word;
    if data == [] {
    } else {
      var init, b := data[..|data| - 1], data[|data| - 1];
      StepsInjective(8, Xor(Update(x, init), Word(b)), Xor(Update(y, init), Word(b)));
      XorCancel(Update(x, init), Update(y, init), Word(b));
      UpdateInjective(x, y, init);
    }
  }

  // ----- Checksums of concatenations

  lemma {:induction false} UpdateConcat(r: bv32, a: seq<byte>, b: seq<byte>)
    ensures Update(r, a + b) == Update(Update(r, a), b)
    decreases |b|
  {
    hide ByteStep;
    if b == [] {
      assert a + b == a;
    } else {
      assert (a + b)[..|a + b| - 1] == a + b[..|b| - 1];
      UpdateConcat(r, a, b[..|b| - 1]);
    }
  }

  /** Feeding A's checksum in as the previous value of B continues it. */
  lemma ChecksumConcat(a: seq<byte>, b: seq<byte>, previous: bv32)
    ensures Checksum(a + b, previous) == Checksum(b, Checksum(a, previous))
  {
    hide Not, Update;
    UpdateConcat(Not(previous), a, b);
    NotNot(Update(Not(previous), a));
  }

  // ----- Bits still travelling through the register

  function Double(r: bv32): bv32 { r << 1 }

  function Raise(r: bv32): bv32 { r << 8 }

  function Drop(r: bv32): bv32 { r >> 8 }

  lemma DoubleSteps(w: bv32)
    ensures Double(w) == w << 1 && Double(w << 1) == w << 2 && Double(w << 2) == w << 3 && Double(w << 3) == w << 4
    ensures Double(w << 4) == w << 5 && Double(w << 5) == w << 6 && Double(w << 6) == w << 7
    ensures Double(w << 7) == Raise(w)
  {
  }

  lemma StepDouble(r: bv32)
    requires r & 0x8000_0000 == 0
    ensures BitStep(Double(r)) == r
  {
  }

  /** A byte-aligned value only moves down while its low byte is clocked out as zeros. */
  lemma StepsRaise(w: bv32)
    requires w & 0xFF00_0000 == 0
    ensures Steps(8, Raise(w)) == w
  {
    hide BitStep, Double, Raise;
    DoubleSteps(w);
    StepDouble(w << 7);
    StepDouble(w << 6);
    StepDouble(w << 5);
    StepDouble(w << 4);
    StepDouble(w << 3);
    StepDouble(w << 2);
    StepDouble(w << 1);
    StepDouble(w);
  }

  /** Up to four bytes as one little-endian word. */
  function Pack(b: seq<byte>): bv32
    requires |b| <= 4
  {
    if b == [] then 0 else Xor(Word(b[0]), Raise(Pack(b[1..])))
  }

  lemma {:induction false} PackBound(b: seq<byte>)
    requires |b| <= 3
    ensures Pack(b) & 0xFF00_0000 == 0
    ensures |b| <= 2 ==> Pack(b) & 0xFFFF_0000 == 0
    ensures |b| <= 1 ==> Pack(b) & 0xFFFF_FF00 == 0
  {
    if b == [] {
    } else {
      PackBound(b[1..]);
      hide Pack;
      assert |b| == 1 ==> Pack(b[1..]) == 0 by { assert |b| == 1 ==> b[1..] == []; }
    }
  }

  /** Feeding n <= 4 bytes equals xoring them in at once and then clocking 8n times. */
  lemma {:induction false} UpdatePacked(r: bv32, b: seq<byte>)
    requires |b| <= 4
    ensures Update(r, b) == Steps(8 * |b|, Xor(r, Pack(b)))
    decreases |b|
  {
    hide Xor, BitStep, Word, Raise;
    if b == [] {
      XorZero(r);
    } else {
      var w, tail := Word(b[0]), b[1..];
      UpdateConcat(r, [b[0]], tail);
      assert [b[0]] + tail == b && [b[0]][..0] == [];
      UpdatePacked(Steps(8, Xor(r, w)), tail);
      PackBound(tail);
      StepsRaise(Pack(tail));
      StepsLinear(8, Xor(r, w), Raise(Pack(tail)));
      XorAssoc(r, w, Raise(Pack(tail)));
      StepsCompose(8, 8 * |tail|, Xor(r, Pack(b)));
    }
  }
}
