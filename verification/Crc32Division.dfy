/** The checksum as polynomial division: section 8.1.1.6.2 of ITU-T V.42, which section 8 of
    RFC 1952 refers to.

    A bit string of length n stands for a polynomial over GF(2) of degree below n, the coefficient
    of the highest power of x first. */
module Crc32Division {
  import opened Crc32
  import opened Crc32Bits

  /** G(x) without its leading term x^32: the coefficients of x^31 down to x^0. */
  function Generator(): (g: Bits)
    ensures |g| == 32
  {
    seq(32, i requires 0 <= i < 32 => GeneratorTerm(31 - i))
  }

  predicate GeneratorTerm(exponent: nat) {
    exponent in {26, 23, 22, 16, 12, 11, 10, 8, 7, 5, 4, 2, 1, 0}
  }

  /** The remainder of long division by G. */
  function Remainder(p: Bits): (r: Bits)
    requires |p| >= 32
    ensures |r| == 32
    decreases |p|
  {
    if |p| == 32 then p
    else if p[0] then Remainder(XorBits(p[1..33], Generator()) + p[33..])
    else Remainder(p[1..])
  }

  function Zeros(n: nat): (s: Bits)
    ensures |s| == n
  {
    seq(n, i => false)
  }

  function Ones(n: nat): (s: Bits)
    ensures |s| == n
  {
    seq(n, i => true)
  }

  function Complement(s: Bits): Bits {
    seq(|s|, i requires 0 <= i < |s| => !s[i])
  }

  /** The register in transmission order: its low bit is the coefficient of x^31. */
  function RegisterBits(r: bv32): Bits { Low(r, 32) }

  /** V.42's frame check sequence of a k-bit message M: the ones complement of the sum of
      x^k (x^31 + ... + 1) mod G and x^32 M mod G. */
  function FrameCheckSequence(message: Bits): Bits {
    Complement(XorBits(Remainder(Ones(32) + Zeros(|message|)), Remainder(message + Zeros(32))))
  }

  // ----- Division is linear

  /** One step of the division: the leading coefficient is cleared and dropped. */
  function Reduce(p: Bits): (q: Bits)
    requires |p| > 32
    ensures |q| == |p| - 1
    ensures Remainder(q) == Remainder(p)
  {
    if p[0] then XorBits(p[1..33], Generator()) + p[33..] else p[1..]
  }

  lemma XorBitsAt(s: Bits, t: Bits, i: nat)
    requires |s| == |t| && i < |s|
    ensures XorBits(s, t)[i] == (s[i] != t[i])
  {
  }

  lemma ReduceAt(p: Bits, i: nat)
    requires |p| > 32 && i < |p| - 1
    ensures Reduce(p)[i] == (p[i + 1] != (p[0] && i < 32 && Generator()[i]))
  {
    hide Generator, Remainder, XorBits;
    if p[0] && i < 32 {
      XorBitsAt(p[1..33], Generator(), i);
    }
  }

  lemma ReduceLinear(p: Bits, q: Bits)
    requires |p| == |q| > 32
    ensures Reduce(XorBits(p, q)) == XorBits(Reduce(p), Reduce(q))
  {
    hide *;
    var x := XorBits(p, q);
    forall i | 0 <= i < |p| - 1
      ensures Reduce(x)[i] == XorBits(Reduce(p), Reduce(q))[i]
    {
      ReduceAt(x, i);
      ReduceAt(p, i);
      ReduceAt(q, i);
      XorBitsAt(p, q, 0);
      XorBitsAt(p, q, i + 1);
      XorBitsAt(Reduce(p), Reduce(q), i);
    }
  }

  lemma RemainderShort(p: Bits)
    requires |p| == 32
    ensures Remainder(p) == p
  {
  }

  lemma {:induction false} RemainderLinear(p: Bits, q: Bits)
    requires |p| == |q| >= 32
    ensures Remainder(XorBits(p, q)) == XorBits(Remainder(p), Remainder(q))
    decreases |p|
  {
    hide *;
    if |p| == 32 {
      RemainderShort(p);
      RemainderShort(q);
      RemainderShort(XorBits(p, q));
    } else {
      ReduceLinear(p, q);
      RemainderLinear(Reduce(p), Reduce(q));
    }
  }

  // ----- One clock is one division step

  lemma {:induction false} LowXor(x: bv32, y: bv32, n: nat)
    ensures Low(Xor(x, y), n) == XorBits(Low(x, n), Low(y, n))
    decreases n
  {
    hide Xor, Half, LowBit;
    if n == 0 {
    } else {
      HalfLinear(x, y);
      LowBitXor(x, y);
      LowXor(Half(x), Half(y), n - 1);
    }
  }

  lemma LowBitXor(x: bv32, y: bv32)
    ensures LowBit(Xor(x, y)) == (LowBit(x) != LowBit(y))
  {
  }

  lemma {:induction false} LowExtend(w: bv32, n: nat)
    requires Fits(w, n)
    ensures Low(w, n + 1) == Low(w, n) + [false]
    decreases n
  {
    assert !LowBit(0);
    hide Half, LowBit;
    if n == 0 {
    } else {
      LowExtend(Half(w), n - 1);
    }
  }

  /** Halving the register multiplies its polynomial by x, the leading term dropped. */
  lemma HalfShifts(r: bv32)
    ensures RegisterBits(Half(r)) == RegisterBits(r)[1..] + [false]
  {
    hide Half, Low;
    FitsRegister(r);
    LowCons(r);
    FitsHalf(r);
    LowExtend(Half(r), 31);
  }

  lemma LowCons(r: bv32)
    ensures Low(r, 32) == [LowBit(r)] + Low(Half(r), 31)
  {
  }

  lemma FitsHalf(r: bv32)
    ensures Fits(Half(r), 31)
  {
    hide Half;
    FitsRegister(r);
  }

  lemma OneCoefficient(w: bv32, k: nat, g: Bits)
    requires |g| == 32 && k <= 31
    requires Low(Half(w), 31 - k) == g[k + 1..] && LowBit(w) == g[k]
    ensures Low(w, 32 - k) == g[k..]
  {
  }

  /** Four more coefficients, from the low end of g back to x^31. */
  lemma FourCoefficients(w: bv32, k: nat, g: Bits)
    requires |g| == 32 && k <= 28
    requires Low(w >> 4, 28 - k) == g[k + 4..]
    requires LowBit(w) == g[k] && LowBit(w >> 1) == g[k + 1]
    requires LowBit(w >> 2) == g[k + 2] && LowBit(w >> 3) == g[k + 3]
    ensures Low(w, 32 - k) == g[k..]
  {
    hide Half, LowBit, Low;
    HalfSteps(w);
    OneCoefficient(w >> 3, k + 3, g);
    OneCoefficient(w >> 2, k + 2, g);
    OneCoefficient(w >> 1, k + 1, g);
    OneCoefficient(w, k, g);
  }

  /** zlib's constant is G, its high bits the low coefficients. */
  lemma PolynomialBits()
    ensures RegisterBits(0xEDB8_8320) == Generator()
  {
    var g := Generator();
    hide Low;
    LowNone(0, g);
    FourCoefficients(0x0000_000E, 28, g);
    FourCoefficients(0x0000_00ED, 24, g);
    FourCoefficients(0x0000_0EDB, 20, g);
    FourCoefficients(0x0000_EDB8, 16, g);
    FourCoefficients(0x000E_DB88, 12, g);
    FourCoefficients(0x00ED_B883, 8, g);
    FourCoefficients(0x0EDB_8832, 4, g);
    FourCoefficients(0xEDB8_8320, 0, g);
  }

  /** Four more coefficients that are all set. */
  lemma FourOnes(w: bv32, above: bv32, k: nat)
    requires k <= 28 && w & 0xF == 0xF && above == w >> 4 && Low(above, 28 - k) == Ones(32)[k + 4..]
    ensures Low(w, 32 - k) == Ones(32)[k..]
  {
    hide Low;
    FourCoefficients(w, k, Ones(32));
  }

  lemma OnesBits()
    ensures RegisterBits(0xFFFF_FFFF) == Ones(32)
  {
    hide Low, Ones;
    LowNone(0, Ones(32));
    FourOnes(0x0000_000F, 0, 28);
    FourOnes(0x0000_00FF, 0x0000_000F, 24);
    FourOnes(0x0000_0FFF, 0x0000_00FF, 20);
    FourOnes(0x0000_FFFF, 0x0000_0FFF, 16);
    FourOnes(0x000F_FFFF, 0x0000_FFFF, 12);
    FourOnes(0x00FF_FFFF, 0x000F_FFFF, 8);
    FourOnes(0x0FFF_FFFF, 0x00FF_FFFF, 4);
    FourOnes(0xFFFF_FFFF, 0x0FFF_FFFF, 0);
  }

  lemma LowNone(w: bv32, g: Bits)
    requires |g| == 32
    ensures Low(w, 0) == g[32..]
  {
  }

  /** The register holds the running remainder: clocking it divides by x^32 + G's lower terms. */
  lemma StepDivides(r: bv32)
    ensures RegisterBits(BitStep(r)) ==
            if RegisterBits(r)[0] then XorBits(RegisterBits(r)[1..] + [false], Generator())
            else RegisterBits(r)[1..] + [false]
  {
    hide Xor, Half, Tap, Low, Generator, LowBit;
    HalfShifts(r);
    LowXor(Half(r), Tap(r), 32);
    TapBits(r);
    LowCons(r);
    LowZero(32);
    XorNothing(RegisterBits(Half(r)));
  }

  lemma TapBits(r: bv32)
    ensures RegisterBits(Tap(r)) == if LowBit(r) then Generator() else Zeros(32)
  {
    hide Tap, Low, Generator;
    TapCases(r);
    PolynomialBits();
    LowZero(32);
  }

  lemma XorNothing(s: Bits)
    ensures XorBits(s, Zeros(|s|)) == s
  {
  }

  /** The dividend: the register added to the first 32 coefficients of the message times x^32. */
  function Dividend(r: Bits, message: Bits): (p: Bits)
    requires |r| == 32
    ensures |p| == 32 + |message|
  {
    XorBits(r + Zeros(|message|), message + Zeros(32))
  }

  /** The i-th coefficient of the dividend. */
  lemma DividendAt(r: Bits, message: Bits, i: nat)
    requires |r| == 32 && i < 32 + |message|
    ensures Dividend(r, message)[i] == ((i < 32 && r[i]) != (i < |message| && message[i]))
  {
    XorBitsAt(r + Zeros(|message|), message + Zeros(32), i);
  }

  lemma DividendStep(r: Bits, message: Bits)
    requires |r| == 32 && |message| > 0
    ensures var lead := r[0] != message[0];
            var shifted := r[1..] + [false];
            Reduce(Dividend(r, message)) ==
            Dividend(if lead then XorBits(shifted, Generator()) else shifted, message[1..])
  {
    hide *;
    var lead, shifted, p := r[0] != message[0], r[1..] + [false], Dividend(r, message);
    var next := if lead then XorBits(shifted, Generator()) else shifted;
    forall i | 0 <= i < |p| - 1
      ensures Reduce(p)[i] == Dividend(next, message[1..])[i]
    {
      ReduceAt(p, i);
      DividendAt(r, message, 0);
      DividendAt(r, message, i + 1);
      DividendAt(next, message[1..], i);
      if lead && i < 32 {
        XorBitsAt(shifted, Generator(), i);
      }
    }
  }

  lemma {:induction false} BitUpdateIsRemainder(r: bv32, message: Bits)
    ensures RegisterBits(BitUpdate(r, message)) == Remainder(Dividend(RegisterBits(r), message))
    decreases |message|
  {
    hide Xor, BitStep, BitWord, Low, Generator, LowBit, Half;
    var rb := RegisterBits(r);
    if message == [] {
      XorNothing(rb);
      assert rb + Zeros(0) == rb && message + Zeros(32) == Zeros(32);
    } else {
      var entered := Xor(r, BitWord(message[0]));
      EnterBit(r, message[0]);
      StepDivides(entered);
      DividendStep(rb, message);
      BitUpdateIsRemainder(BitStep(entered), message[1..]);
    }
  }

  lemma EnterBit(r: bv32, b: bool)
    ensures RegisterBits(Xor(r, BitWord(b)))[0] == (RegisterBits(r)[0] != b)
    ensures RegisterBits(Xor(r, BitWord(b)))[1..] == RegisterBits(r)[1..]
  {
  }

  lemma NotIsXor(r: bv32)
    ensures Not(r) == Xor(r, 0xFFFF_FFFF)
    ensures Not(0) == 0xFFFF_FFFF
  {
  }

  lemma NotBits(r: bv32)
    ensures RegisterBits(Not(r)) == Complement(RegisterBits(r))
  {
    hide Not, Xor, Low;
    NotIsXor(r);
    LowXor(r, 0xFFFF_FFFF, 32);
    OnesBits();
  }

  /** The checksum continued from `previous`, as two divisions by G. */
  lemma ChecksumIsDivision(data: seq<byte>, previous: bv32)
    ensures var message := MessageBits(data);
            RegisterBits(Checksum(data, previous)) ==
            Complement(XorBits(Remainder(RegisterBits(Not(previous)) + Zeros(|message|)),
                               Remainder(message + Zeros(32))))
  {
    hide Not, Low, Remainder, Update, BitUpdate, MessageBits, XorBits;
    var message, r := MessageBits(data), Not(previous);
    UpdateIsBitUpdate(r, data);
    BitUpdateIsRemainder(r, message);
    RemainderLinear(RegisterBits(r) + Zeros(|message|), message + Zeros(32));
    NotBits(Update(r, data));
  }

  /** A checksum started from 0 is the frame check sequence of the standard. */
  lemma ChecksumIsFrameCheckSequence(data: seq<byte>)
    ensures RegisterBits(Checksum(data, 0)) == FrameCheckSequence(MessageBits(data))
  {
    hide Checksum, Low, Remainder, MessageBits, XorBits;
    NotIsXor(0);
    OnesBits();
    ChecksumIsDivision(data, 0);
  }
}
