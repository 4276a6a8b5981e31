/** The lookup tables of the CRC-32, defined by the recurrence that generates them, and what a
    block of table lookups computes on a machine of either byte order. */
module Crc32Tables {
  import opened Crc32

  /** `w & 0xFF` as a table index. */
  function LowByte(w: bv32): byte { (w & 0xFF) as byte }

  /** `Crc32Lookup[slice][i]`. */
  function Lookup(slice: nat, i: byte): bv32 {
    if slice == 0 then Steps(8, Word(i))
    else
      var prev := Lookup(slice - 1, i);
      Xor(Drop(prev), Lookup(0, LowByte(prev)))
  }

  lemma SplitLow(w: bv32)
    ensures w == Xor(Raise(Drop(w)), Word(LowByte(w)))
    ensures Drop(w) & 0xFF00_0000 == 0
  {
  }

  /** A table step clocks the register eight times. */
  lemma TableStep(r: bv32)
    ensures Steps(8, r) == Xor(Drop(r), Lookup(0, LowByte(r)))
  {
    hide Xor, BitStep, Word, LowByte, Raise, Drop;
    SplitLow(r);
    StepsLinear(8, Raise(Drop(r)), Word(LowByte(r)));
    StepsRaise(Drop(r));
  }

  /** What the recurrence computes: table k holds every byte clocked 8(k+1) times. */
  lemma {:induction false} LookupIsSteps(slice: nat, i: byte)
    ensures Lookup(slice, i) == Steps(8 * (slice + 1), Word(i))
  {
    hide BitStep, Word, LowByte, Drop, Xor;
    if slice == 0 {
    } else {
      LookupIsSteps(slice - 1, i);
      StepsCompose(8 * slice, 8, Word(i));
      TableStep(Lookup(slice - 1, i));
    }
  }

  lemma XorComm(x: bv32, y: bv32)
    ensures Xor(x, y) == Xor(y, x)
  {
  }

  // ----- One byte through table 0

  lemma LowByteXor(r: bv32, b: byte)
    ensures LowByte(Xor(r, Word(b))) == LowByte(r) ^ b
    ensures Drop(Xor(r, Word(b))) == Drop(r)
  {
  }

  /** The line of the byte-table loop. */
  function TableByte(r: bv32, b: byte): bv32 {
    (r >> 8) ^ Lookup(0, LowByte(r) ^ b)
  }

  lemma TableByteDef(r: bv32, b: byte)
    ensures TableByte(r, b) == Xor(Drop(r), Lookup(0, LowByte(r) ^ b))
  {
  }

  lemma TableByteStep(r: bv32, b: byte)
    ensures TableByte(r, b) == ByteStep(r, b)
  {
    hide Xor, Word, LowByte, Drop, Steps, TableByte, Lookup;
    TableStep(Xor(r, Word(b)));
    LowByteXor(r, b);
    TableByteDef(r, b);
  }

  // ----- Machine words

  datatype ByteOrder = LittleEndian | BigEndian

  /** The 32-bit word a machine reads from four bytes of memory. */
  function Load(order: ByteOrder, b: seq<byte>): bv32
    requires |b| == 4
  {
    match order
    case LittleEndian => Word(b[0]) | (Word(b[1]) << 8) | (Word(b[2]) << 16) | (Word(b[3]) << 24)
    case BigEndian => (Word(b[0]) << 24) | (Word(b[1]) << 16) | (Word(b[2]) << 8) | Word(b[3])
  }

  /** Reverses the four bytes of a word. */
  function Swap(x: bv32): bv32 {
    (x >> 24) | ((x >> 8) & 0x0000_FF00) | ((x << 8) & 0x00FF_0000) | (x << 24)
  }

  /** The register as it is xored into the first word of a block. */
  function Entering(order: ByteOrder, crc: bv32): bv32 {
    if order == BigEndian then Swap(crc) else crc
  }

  /** `(w >> 8j) & 0xFF`. */
  function WordByte(w: bv32, j: nat): byte
    requires j < 4
  {
    match j
    case 0 => LowByte(w)
    case 1 => LowByte(w >> 8)
    case 2 => LowByte(w >> 16)
    case _ => LowByte(w >> 24)
  }

  /** The xor of one word's four lookups, in tables k to k+3. */
  function WordLookup(order: ByteOrder, k: nat, w: bv32): bv32 {
    match order
    case BigEndian =>
      Xor(Lookup(k + 3, WordByte(w, 3)), Xor(Lookup(k + 2, WordByte(w, 2)),
        Xor(Lookup(k + 1, WordByte(w, 1)), Lookup(k, WordByte(w, 0)))))
    case LittleEndian =>
      Xor(Lookup(k + 3, WordByte(w, 0)), Xor(Lookup(k + 2, WordByte(w, 1)),
        Xor(Lookup(k + 1, WordByte(w, 2)), Lookup(k, WordByte(w, 3)))))
  }

  lemma LoadPack(b0: byte, b1: byte, b2: byte, b3: byte)
    ensures Word(b0) | (Word(b1) << 8) | (Word(b2) << 16) | (Word(b3) << 24)
            == Xor(Word(b0), Raise(Xor(Word(b1), Raise(Xor(Word(b2), Raise(Word(b3)))))))
  {
  }

  lemma LoadLittle(b: seq<byte>)
    requires |b| == 4
    ensures Load(LittleEndian, b) == Pack(b)
  {
    hide Word, Xor, Raise;
    LoadPack(b[0], b[1], b[2], b[3]);
    RaiseZero();
    XorZero(Word(b[3]));
    assert b[1..][1..] == b[2..] && b[2..][1..] == b[3..] && b[3..][1..] == [];
    assert Pack(b[3..]) == Word(b[3]);
    assert Pack(b[2..]) == Xor(Word(b[2]), Raise(Pack(b[3..])));
    assert Pack(b[1..]) == Xor(Word(b[1]), Raise(Pack(b[2..])));
  }

  lemma RaiseZero()
    ensures Raise(0) == 0
  {
  }

  lemma SwapReverses(w: bv32)
    ensures WordByte(Swap(w), 0) == WordByte(w, 3) && WordByte(Swap(w), 1) == WordByte(w, 2)
    ensures WordByte(Swap(w), 2) == WordByte(w, 1) && WordByte(Swap(w), 3) == WordByte(w, 0)
  {
  }

  lemma SwapXor(x: bv32, y: bv32)
    ensures Swap(Xor(x, y)) == Xor(Swap(x), Swap(y))
  {
  }

  lemma SwapLoad(b: seq<byte>)
    requires |b| == 4
    ensures Load(BigEndian, b) == Swap(Load(LittleEndian, b))
  {
  }

  // ----- One word

  /** On either byte order a word's lookups clock the little-endian word 8(k+4) times. */
  lemma WordLookupOrder(order: ByteOrder, k: nat, w: bv32)
    ensures WordLookup(order, k, Entering(order, w)) == WordLookup(LittleEndian, k, w)
  {
    hide Swap, WordByte, Lookup, Xor;
    SwapReverses(w);
  }

  lemma LoadOrder(order: ByteOrder, b: seq<byte>, crc: bv32)
    requires |b| == 4
    ensures Xor(Load(order, b), Entering(order, crc)) == Entering(order, Xor(crc, Pack(b)))
  {
    hide Swap, Pack, Load, Xor;
    LoadLittle(b);
    SwapLoad(b);
    SwapXor(Pack(b), crc);
    XorComm(crc, Pack(b));
  }

  lemma SplitByte(k: nat, w: bv32)
    ensures Steps(8 * (k + 1), w) == Xor(Lookup(k, LowByte(w)), Steps(8 * k, Drop(w)))
  {
    hide Xor, BitStep, Word, LowByte, Drop, Raise, Lookup;
    LookupIsSteps(k, LowByte(w));
    SplitLow(w);
    XorComm(Raise(Drop(w)), Word(LowByte(w)));
    StepsLinear(8 * (k + 1), Word(LowByte(w)), Raise(Drop(w)));
    StepsCompose(8, 8 * k, Raise(Drop(w)));
    StepsRaise(Drop(w));
  }

  lemma DropFour(w: bv32)
    ensures Drop(w) == w >> 8 && Drop(w >> 8) == w >> 16 && Drop(w >> 16) == w >> 24 && Drop(w >> 24) == 0
  {
  }

  lemma {:induction false} StepsZero(n: nat)
    ensures Steps(n, 0) == 0
    decreases n
  {
    assert BitStep(0) == 0;
    hide BitStep;
    if n == 0 {
    } else {
      StepsZero(n - 1);
    }
  }

  lemma WordLookupIsSteps(k: nat, w: bv32)
    ensures WordLookup(LittleEndian, k, w) == Steps(8 * (k + 4), w)
  {
    hide Xor, Drop, LowByte, Lookup, Steps;
    DropFour(w);
    SplitByte(k + 3, w);
    SplitByte(k + 2, w >> 8);
    SplitByte(k + 1, w >> 16);
    SplitByte(k, w >> 24);
    StepsZero(8 * k);
    XorZero(Lookup(k, WordByte(w, 3)));
  }
}
