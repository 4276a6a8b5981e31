/** The checksum routines.  Each loop is proved to return what the bitwise routine returns. */
module Crc32Fast {
  import opened Crc32
  import opened Crc32Tables

  /** `crc32_bitwise`. */
  method Bitwise(data: seq<byte>, previous: bv32) returns (crc: bv32)
    ensures crc == Checksum(data, previous)
  {
    hide Xor, Half, Tap, Word;
    crc := Not(previous);
    var current := 0;
    while current < |data|
      invariant 0 <= current <= |data|
      invariant crc == Update(Not(previous), data[..current])
    {
      ghost var before := crc;
      crc := Xor(crc, Word(data[current]));
      var j := 0;
      while j < 8
        invariant 0 <= j <= 8
        invariant Steps(8 - j, crc) == ByteStep(before, data[current])
      {
        crc := Xor(Half(crc), Tap(crc));
        j := j + 1;
      }
      UpdateNext(Not(previous), data, current);
      current := current + 1;
    }
    assert data[..current] == data;
    crc := Not(crc);
  }

  lemma UpdateNext(r: bv32, data: seq<byte>, k: nat)
    requires k < |data|
    ensures Update(r, data[..k + 1]) == ByteStep(Update(r, data[..k]), data[k])
  {
    hide ByteStep;
    assert data[..k + 1][..k] == data[..k];
  }

  /** The loop over the last bytes, one table lookup each. */
  method Remaining(r: bv32, data: seq<byte>, from: nat) returns (crc: bv32)
    requires from <= |data|
    ensures crc == Update(r, data[from..])
  {
    hide TableByte, ByteStep;
    crc := r;
    var current, length := from, |data| - from;
    assert data[from..from] == [];
    while length != 0
      invariant from <= current <= |data| && current + length == |data|
      invariant crc == Update(r, data[from..current])
    {
      TableByteStep(crc, data[current]);
      assert data[from..][..current - from] == data[from..current];
      assert data[from..][..current - from + 1] == data[from..current + 1];
      UpdateNext(r, data[from..], current - from);
      crc := TableByte(crc, data[current]);
      current, length := current + 1, length - 1;
    }
    assert data[from..current] == data[from..];
  }

  /** `crc32_1byte`. */
  method OneByte(data: seq<byte>, previous: bv32) returns (crc: bv32)
    ensures crc == Checksum(data, previous)
  {
    crc := Remaining(Not(previous), data, 0);
    assert data[0..] == data;
    crc := Not(crc);
  }

  // ----- Table-free byte loops

  /** One clock from r to s, in bit-vector terms. */
  ghost predicate Clock(r: bv32, s: bv32) {
    s == (r >> 1) ^ ((0 - (r & 1)) & 0xEDB8_8320)
  }

  lemma ClockEight(s: bv32) returns (s1: bv32, s2: bv32, s3: bv32, s4: bv32, s5: bv32, s6: bv32, s7: bv32, s8: bv32)
    ensures Clock(s, s1) && Clock(s1, s2) && Clock(s2, s3) && Clock(s3, s4)
    ensures Clock(s4, s5) && Clock(s5, s6) && Clock(s6, s7) && Clock(s7, s8)
    ensures s8 == Steps(8, s)
  {
    hide BitStep, Clock;
    s1, s2 := BitStep(s), BitStep(BitStep(s));
    s3, s4 := BitStep(s2), BitStep(BitStep(s2));
    s5, s6 := BitStep(s4), BitStep(BitStep(s4));
    s7, s8 := BitStep(s6), BitStep(BitStep(s6));
    forall r {
      ClockStep(r);
    }
  }

  lemma ClockStep(r: bv32)
    ensures Clock(r, BitStep(r))
  {
    BitStepRaw(r, BitStep(r));
  }

  /** The term of `crc32_1byte_tableless` in the byte `s` that leaves the register. */
  function Multiplied(s: bv32): bv32 {
    var low := (s ^ (s << 6)) & 0xFF;
    var a := low * 0x0080_4004;
    (low * 0x0101_0100) ^ a ^ (a >> 1) ^ (low * 0x0010_1000) ^ (low << 19) ^ (low << 17) ^ (low >> 2)
  }

  lemma RawMultiplied(s: bv32, s1: bv32, s2: bv32, s3: bv32, s4: bv32, s5: bv32, s6: bv32, s7: bv32, s8: bv32)
    requires s & 0xFFFF_FF00 == 0
    requires Clock(s, s1) && Clock(s1, s2) && Clock(s2, s3) && Clock(s3, s4)
    requires Clock(s4, s5) && Clock(s5, s6) && Clock(s6, s7) && Clock(s7, s8)
    ensures s8 == Multiplied(s)
  {
  }

  lemma MultipliedIsLookup(b: byte)
    ensures Multiplied(Word(b)) == Lookup(0, b)
  {
    assert Word(b) & 0xFFFF_FF00 == 0;
    hide BitStep, Multiplied, Clock, Word, Steps;
    var s1, s2, s3, s4, s5, s6, s7, s8 := ClockEight(Word(b));
    RawMultiplied(Word(b), s1, s2, s3, s4, s5, s6, s7, s8);
  }

  /** `crc32_1byte_tableless`. */
  method Tableless(data: seq<byte>, previous: bv32) returns (crc: bv32)
    ensures crc == Checksum(data, previous)
  {
    hide ByteStep, Drop, LowByte, Multiplied, Xor, Word, Lookup, TableByte;
    crc := Not(previous);
    var current := 0;
    while current < |data|
      invariant 0 <= current <= |data|
      invariant crc == Update(Not(previous), data[..current])
    {
      var s := LowByte(crc) ^ data[current];
      MultipliedIsLookup(s);
      TableByteDef(crc, data[current]);
      TableByteStep(crc, data[current]);
      UpdateNext(Not(previous), data, current);
      crc := Xor(Drop(crc), Multiplied(Word(s)));
      current := current + 1;
    }
    assert data[..current] == data;
    crc := Not(crc);
  }

  /** `x >> 31` on a signed word: the sign bit in every place. */
  function SignMask(x: bv32): bv32 {
    if x & 0x8000_0000 != 0 then 0xFFFF_FFFF else 0
  }

  /** The term of `crc32_1byte_tableless2` in the register after the byte was xored in. */
  function Masked(s: bv32): bv32 {
    (SignMask(s << 31) & ((0xEDB8_8320 >> 7) ^ (0xEDB8_8320 >> 1))) ^
    (SignMask(s << 30) & ((0xEDB8_8320 >> 6) ^ 0xEDB8_8320)) ^
    (SignMask(s << 29) & (0xEDB8_8320 >> 5)) ^
    (SignMask(s << 28) & (0xEDB8_8320 >> 4)) ^
    (SignMask(s << 27) & (0xEDB8_8320 >> 3)) ^
    (SignMask(s << 26) & (0xEDB8_8320 >> 2)) ^
    (SignMask(s << 25) & (0xEDB8_8320 >> 1)) ^
    (SignMask(s << 24) & 0xEDB8_8320)
  }

  lemma MaskedLow(s: bv32)
    ensures Masked(s) == Masked(s & 0xFF)
  {
  }

  lemma RawMasked(s: bv32, s1: bv32, s2: bv32, s3: bv32, s4: bv32, s5: bv32, s6: bv32, s7: bv32, s8: bv32)
    requires s & 0xFFFF_FF00 == 0
    requires Clock(s, s1) && Clock(s1, s2) && Clock(s2, s3) && Clock(s3, s4)
    requires Clock(s4, s5) && Clock(s5, s6) && Clock(s6, s7) && Clock(s7, s8)
    ensures s8 == Masked(s)
  {
  }

  lemma MaskedIsSteps(s: bv32)
    ensures Xor(Drop(s), Masked(s)) == Steps(8, s)
  {
    assert LowWord(s) & 0xFFFF_FF00 == 0;
    hide BitStep, Masked, Clock, Word, Xor, Drop, LowWord, LowByte, Lookup, Steps;
    var s1, s2, s3, s4, s5, s6, s7, s8 := ClockEight(LowWord(s));
    RawMasked(LowWord(s), s1, s2, s3, s4, s5, s6, s7, s8);
    MaskedLow(s);
    TableStep(s);
    LowWordLookup(s);
  }

  function LowWord(s: bv32): bv32 { s & 0xFF }

  lemma LowWordLookup(s: bv32)
    ensures Lookup(0, LowByte(s)) == Steps(8, LowWord(s))
  {
  }

  /** `crc32_1byte_tableless2`; the shift right is unsigned. */
  method Tableless2(data: seq<byte>, previous: bv32) returns (crc: bv32)
    ensures crc == Checksum(data, previous)
  {
    hide Drop, Masked, Xor, Word;
    crc := Not(previous);
    var current := 0;
    while current < |data|
      invariant 0 <= current <= |data|
      invariant crc == Update(Not(previous), data[..current])
    {
      UpdateNext(Not(previous), data, current);
      crc := Xor(crc, Word(data[current]));
      MaskedIsSteps(crc);
      crc := Xor(Drop(crc), Masked(crc));
      current := current + 1;
    }
    assert data[..current] == data;
    crc := Not(crc);
  }

  // ----- Half bytes

  /** `Crc32Lookup16`. */
  const HALF_TABLE: seq<bv32> := [
    0x0000_0000, 0x1DB7_1064, 0x3B6E_20C8, 0x26D9_30AC, 0x76DC_4190, 0x6B6B_51F4, 0x4DB2_6158, 0x5005_713C,
    0xEDB8_8320, 0xF00F_9344, 0xD6D6_A3E8, 0xCB61_B38C, 0x9B64_C2B0, 0x86D3_D2D4, 0xA00A_E278, 0xBDBD_F21C
  ]

  function HalfLookup(w: bv32): bv32 {
    HALF_TABLE[((w & 0x0F) as bv4) as int]
  }

  function HalfDrop(w: bv32): bv32 { w >> 4 }

  function HalfRaise(w: bv32): bv32 { w << 4 }

  function Nibble(w: bv32): bv32 { w & 0x0F }

  /** The two lines of the half-byte loop. */
  function HalfByteLines(crc: bv32, b: bv32): bv32 {
    var first := Xor(HalfLookup(Xor(crc, b)), HalfDrop(crc));
    Xor(HalfLookup(Xor(first, HalfDrop(b))), HalfDrop(first))
  }

  lemma HalfTableIsLinear(n: bv4)
    ensures HALF_TABLE[n as int] ==
            (if n & 1 == 0 then 0 else 0x1DB7_1064) ^ (if n & 2 == 0 then 0 else 0x3B6E_20C8) ^
            (if n & 4 == 0 then 0 else 0x76DC_4190) ^ (if n & 8 == 0 then 0 else 0xEDB8_8320)
  {
  }

  lemma RawNibble(n: bv4, x: bv32, s1: bv32, s2: bv32, s3: bv32, s4: bv32)
    requires x == n as bv32
    requires Clock(x, s1) && Clock(s1, s2) && Clock(s2, s3) && Clock(s3, s4)
    ensures s4 == (if n & 1 == 0 then 0 else 0x1DB7_1064) ^ (if n & 2 == 0 then 0 else 0x3B6E_20C8) ^
                  (if n & 4 == 0 then 0 else 0x76DC_4190) ^ (if n & 8 == 0 then 0 else 0xEDB8_8320)
  {
  }

  lemma HalfLookupIsSteps(w: bv32)
    ensures HalfLookup(w) == Steps(4, Nibble(w))
  {
    var n := (w & 0x0F) as bv4;
    var x := Nibble(w);
    assert x == n as bv32;
    hide BitStep, Clock, Nibble;
    var s1 := BitStep(x);
    var s2 := BitStep(s1);
    var s3 := BitStep(s2);
    forall r {
      ClockStep(r);
    }
    HalfTableIsLinear(n);
    RawNibble(n, x, s1, s2, s3, BitStep(s3));
  }

  lemma HalfFacts(x: bv32, y: bv32)
    ensures x == Xor(HalfRaise(HalfDrop(x)), Nibble(x))
    ensures HalfDrop(x) & 0xF000_0000 == 0
    ensures HalfDrop(Xor(x, y)) == Xor(HalfDrop(x), HalfDrop(y))
  {
  }

  lemma HalfDropByte(b: byte)
    ensures HalfDrop(HalfDrop(Word(b))) == 0
  {
  }

  lemma HalfRaiseDef(w: bv32)
    ensures HalfRaise(w) == w << 4
  {
  }

  lemma StepsHalfRaise(w: bv32)
    requires w & 0xF000_0000 == 0
    ensures Steps(4, HalfRaise(w)) == w
  {
    hide BitStep, Double, HalfRaise;
    HalfRaiseDef(w);
    DoubleSteps(w);
    StepDouble(w << 3);
    StepDouble(w << 2);
    StepDouble(w << 1);
    StepDouble(w);
  }

  lemma HalfStep(x: bv32)
    ensures Xor(HalfLookup(x), HalfDrop(x)) == Steps(4, x)
  {
    hide Xor, BitStep, HalfLookup, HalfDrop, HalfRaise, Nibble;
    HalfFacts(x, x);
    StepsLinear(4, HalfRaise(HalfDrop(x)), Nibble(x));
    StepsHalfRaise(HalfDrop(x));
    HalfLookupIsSteps(x);
    XorComm(HalfLookup(x), HalfDrop(x));
  }

  lemma HalfByteStep(r: bv32, b: byte)
    ensures HalfByteLines(r, Word(b)) == ByteStep(r, b)
  {
    hide HalfLookup, HalfDrop, Word, Xor, BitStep, Steps;
    var w := Word(b);
    var x := Xor(r, w);
    var first := Xor(HalfLookup(x), HalfDrop(r));
    HalfStep(x);
    HalfStep(Steps(4, x));
    StepsCompose(4, 4, x);
    HalfFacts(r, w);
    XorAssoc(HalfLookup(x), HalfDrop(r), HalfDrop(w));
    assert Xor(first, HalfDrop(w)) == Steps(4, x);
    HalfFacts(first, HalfDrop(w));
    HalfDropByte(b);
    XorZero(HalfDrop(first));
  }

  /** `crc32_halfbyte`. */
  method HalfByte(data: seq<byte>, previous: bv32) returns (crc: bv32)
    ensures crc == Checksum(data, previous)
  {
    hide HalfByteLines, ByteStep, Word;
    crc := Not(previous);
    var current := 0;
    while current < |data|
      invariant 0 <= current <= |data|
      invariant crc == Update(Not(previous), data[..current])
    {
      HalfByteStep(crc, data[current]);
      UpdateNext(Not(previous), data, current);
      crc := HalfByteLines(crc, Word(data[current]));
      current := current + 1;
    }
    assert data[..current] == data;
    crc := Not(crc);
  }
}
