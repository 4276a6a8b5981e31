/** The slicing checksum routines: 4, 8 and 16 bytes per table block, on either byte order. */
module Crc32Slicing {
  import opened Crc32
  import opened Crc32Tables
  import opened Crc32Fast

  // ----- What a block of lookups computes

  /** The register enters a block through its first word. */
  lemma FirstWord(order: ByteOrder, k: nat, r: bv32, b: seq<byte>)
    requires |b| == 4
    ensures WordLookup(order, k, Xor(Load(order, b), Entering(order, r))) == Steps(8 * (k + 4), Xor(r, Pack(b)))
  {
    hide Xor, WordLookup, Load, Pack, Entering, Steps;
    LoadOrder(order, b, r);
    WordLookupOrder(order, k, Xor(r, Pack(b)));
    WordLookupIsSteps(k, Xor(r, Pack(b)));
  }

  lemma NextWord(order: ByteOrder, k: nat, b: seq<byte>)
    requires |b| == 4
    ensures WordLookup(order, k, Load(order, b)) == Steps(8 * (k + 4), Pack(b))
  {
    hide Xor, WordLookup, Load, Pack, Steps, Swap;
    LoadLittle(b);
    SwapLoad(b);
    WordLookupOrder(order, k, Pack(b));
    WordLookupIsSteps(k, Pack(b));
  }

  /** The register's share and the data's share of an update separate. */
  lemma {:induction false} UpdateAffine(r: bv32, data: seq<byte>)
    ensures Update(r, data) == Xor(Steps(8 * |data|, r), Update(0, data))
  {
    hide Xor, BitStep, Word;
    if data == [] {
      XorZero(r);
    } else {
      var init, w := data[..|data| - 1], Word(data[|data| - 1]);
      UpdateAffine(r, init);
      XorAssoc(Steps(8 * |init|, r), Update(0, init), w);
      StepsLinear(8, Steps(8 * |init|, r), Xor(Update(0, init), w));
      StepsCompose(8 * |init|, 8, r);
    }
  }

  /** A word in front of `rest`. */
  lemma WordThen(r: bv32, b: seq<byte>, rest: seq<byte>)
    requires |b| == 4
    ensures Update(r, b + rest) == Xor(Steps(8 * (|rest| + 4), Xor(r, Pack(b))), Update(0, rest))
  {
    hide Xor, Pack, Steps, Update;
    UpdateConcat(r, b, rest);
    UpdatePacked(r, b);
    UpdateAffine(Update(r, b), rest);
    StepsCompose(32, 8 * |rest|, Xor(r, Pack(b)));
  }

  /** The expression of the slicing-by-8 block. */
  function Block8(order: ByteOrder, r: bv32, b: seq<byte>): bv32
    requires |b| == 8
  {
    Xor(WordLookup(order, 4, Xor(Load(order, b[..4]), Entering(order, r))),
        WordLookup(order, 0, Load(order, b[4..])))
  }

  lemma WordAlone(b: seq<byte>)
    requires |b| == 4
    ensures Update(0, b) == Steps(32, Pack(b))
  {
    hide Xor, Pack, Steps, Update;
    UpdatePacked(0, b);
    XorZero(Pack(b));
  }

  lemma Block8IsUpdate(order: ByteOrder, r: bv32, b: seq<byte>)
    requires |b| == 8
    ensures Block8(order, r, b) == Update(r, b)
  {
    hide Xor, WordLookup, Load, Entering, Pack, Steps, Update;
    assert b[..4] + b[4..] == b;
    FirstWord(order, 4, r, b[..4]);
    NextWord(order, 0, b[4..]);
    WordAlone(b[4..]);
    WordThen(r, b[..4], b[4..]);
  }

  /** The expression of the slicing-by-16 block. */
  function Block16(order: ByteOrder, r: bv32, b: seq<byte>): bv32
    requires |b| == 16
  {
    var one := Xor(Load(order, b[..4]), Entering(order, r));
    var two, three, four := Load(order, b[4..8]), Load(order, b[8..12]), Load(order, b[12..]);
    Xor(WordLookup(order, 12, one),
      Xor(WordLookup(order, 8, two), Xor(WordLookup(order, 4, three), WordLookup(order, 0, four))))
  }

  lemma Block16IsUpdate(order: ByteOrder, r: bv32, b: seq<byte>)
    requires |b| == 16
    ensures Block16(order, r, b) == Update(r, b)
  {
    hide Xor, WordLookup, Load, Entering, Pack, Steps, Update;
    assert b[..4] + b[4..] == b && b[4..8] + b[8..] == b[4..] && b[8..12] + b[12..] == b[8..];
    FirstWord(order, 12, r, b[..4]);
    WordThen(r, b[..4], b[4..]);
    NextWord(order, 8, b[4..8]);
    WordThen(0, b[4..8], b[8..]);
    NextWord(order, 4, b[8..12]);
    WordThen(0, b[8..12], b[12..]);
    NextWord(order, 0, b[12..]);
    WordAlone(b[12..]);
    XorZero(Pack(b[4..8]));
    XorZero(Pack(b[8..12]));
  }

  lemma UpdateSlice(r: bv32, data: seq<byte>, from: nat, to: nat)
    requires from <= to <= |data|
    ensures Update(r, data[..to]) == Update(Update(r, data[..from]), data[from..to])
  {
    assert data[..from] + data[from..to] == data[..to];
    UpdateConcat(r, data[..from], data[from..to]);
  }

  lemma FinishedUpdate(r: bv32, data: seq<byte>, from: nat)
    requires from <= |data|
    ensures Update(Update(r, data[..from]), data[from..]) == Update(r, data)
  {
    UpdateSlice(r, data, from, |data|);
    assert data[..|data|] == data && data[from..|data|] == data[from..];
  }

  // ----- The routines

  /** `crc32_4bytes`. */
  method Bytes4(data: seq<byte>, previous: bv32, order: ByteOrder) returns (crc: bv32)
    ensures crc == Checksum(data, previous)
  {
    hide Xor, WordLookup, Load, Entering, Pack, Steps, Update;
    crc := Not(previous);
    var current, length := 0, |data|;
    UpdateEmpty(crc, data);
    while length >= 4
      invariant 0 <= current <= |data| && current + length == |data|
      invariant crc == Update(Not(previous), data[..current])
    {
      FirstWord(order, 0, crc, data[current..current + 4]);
      UpdatePacked(crc, data[current..current + 4]);
      UpdateSlice(Not(previous), data, current, current + 4);
      var one := Xor(Load(order, data[current..current + 4]), Entering(order, crc));
      crc := WordLookup(order, 0, one);
      current, length := current + 4, length - 4;
    }
    FinishedUpdate(Not(previous), data, current);
    crc := Remaining(crc, data, current);
    crc := Not(crc);
  }

  lemma UpdateEmpty(r: bv32, data: seq<byte>)
    ensures Update(r, data[..0]) == r
  {
  }

  /** `crc32_8bytes`. */
  method Bytes8(data: seq<byte>, previous: bv32, order: ByteOrder) returns (crc: bv32)
    ensures crc == Checksum(data, previous)
  {
    hide Block8, Update;
    crc := Not(previous);
    var current, length := 0, |data|;
    UpdateEmpty(crc, data);
    while length >= 8
      invariant 0 <= current <= |data| && current + length == |data|
      invariant crc == Update(Not(previous), data[..current])
    {
      Block8IsUpdate(order, crc, data[current..current + 8]);
      UpdateSlice(Not(previous), data, current, current + 8);
      crc := Block8(order, crc, data[current..current + 8]);
      current, length := current + 8, length - 8;
    }
    FinishedUpdate(Not(previous), data, current);
    crc := Remaining(crc, data, current);
    crc := Not(crc);
  }

  /** `crc32_4x8bytes`. */
  method Bytes4x8(data: seq<byte>, previous: bv32, order: ByteOrder) returns (crc: bv32)
    ensures crc == Checksum(data, previous)
  {
    hide Block8, Update;
    crc := Not(previous);
    var current, length := 0, |data|;
    UpdateEmpty(crc, data);
    while length >= 32
      invariant 0 <= current <= |data| && current + length == |data|
      invariant crc == Update(Not(previous), data[..current])
    {
      for unrolling := 0 to 4
        invariant current + length == |data| + 8 * unrolling
        invariant crc == Update(Not(previous), data[..current])
      {
        Block8IsUpdate(order, crc, data[current..current + 8]);
        UpdateSlice(Not(previous), data, current, current + 8);
        crc := Block8(order, crc, data[current..current + 8]);
        current := current + 8;
      }
      length := length - 32;
    }
    FinishedUpdate(Not(previous), data, current);
    crc := Remaining(crc, data, current);
    crc := Not(crc);
  }

  /** `crc32_16bytes_prefetch`'s loop guard; the sum is taken in `size_t`. */
  predicate PrefetchGuard(length: nat, prefetchAhead: nat) {
    length >= (64 + prefetchAhead) % 0x1_0000_0000_0000_0000
  }

  /** The guard leaves a whole block to read for every length exactly when the sum does not wrap. */
  lemma PrefetchGuardLeavesBlock(prefetchAhead: nat)
    requires prefetchAhead < 0x1_0000_0000_0000_0000
    ensures (forall length: nat :: PrefetchGuard(length, prefetchAhead) ==> length >= 64)
            <==> 64 + prefetchAhead < 0x1_0000_0000_0000_0000
  {
    if 64 + prefetchAhead >= 0x1_0000_0000_0000_0000 {
      assert PrefetchGuard(64 + prefetchAhead - 0x1_0000_0000_0000_0000, prefetchAhead);
    }
  }

  /** `crc32_16bytes_prefetch`. */
  method Bytes16Prefetch(data: seq<byte>, previous: bv32, prefetchAhead: nat, order: ByteOrder) returns (crc: bv32)
    requires 64 + prefetchAhead < 0x1_0000_0000_0000_0000
    ensures crc == Checksum(data, previous)
  {
    hide Block16, Update;
    crc := Not(previous);
    var current, length := 0, |data|;
    UpdateEmpty(crc, data);
    while PrefetchGuard(length, prefetchAhead)
      invariant 0 <= current <= |data| && current + length == |data|
      invariant crc == Update(Not(previous), data[..current])
      decreases length
    {
      for unrolling := 0 to 4
        invariant current + length == |data| + 16 * unrolling
        invariant crc == Update(Not(previous), data[..current])
      {
        Block16IsUpdate(order, crc, data[current..current + 16]);
        UpdateSlice(Not(previous), data, current, current + 16);
        crc := Block16(order, crc, data[current..current + 16]);
        current := current + 16;
      }
      length := length - 64;
    }
    FinishedUpdate(Not(previous), data, current);
    crc := Remaining(crc, data, current);
    crc := Not(crc);
  }

  /** `crc32_16bytes`, which is also `crc32_fast` in this build. */
  method Bytes16(data: seq<byte>, previous: bv32, order: ByteOrder) returns (crc: bv32)
    ensures crc == Checksum(data, previous)
  {
    hide Block16, Update;
    crc := Not(previous);
    var current, length := 0, |data|;
    UpdateEmpty(crc, data);
    while length >= 64
      invariant 0 <= current <= |data| && current + length == |data|
      invariant crc == Update(Not(previous), data[..current])
    {
      for unrolling := 0 to 4
        invariant current + length == |data| + 16 * unrolling
        invariant crc == Update(Not(previous), data[..current])
      {
        Block16IsUpdate(order, crc, data[current..current + 16]);
        UpdateSlice(Not(previous), data, current, current + 16);
        crc := Block16(order, crc, data[current..current + 16]);
        current := current + 16;
      }
      length := length - 64;
    }
    FinishedUpdate(Not(previous), data, current);
    crc := Remaining(crc, data, current);
    crc := Not(crc);
  }
}
