/** One-bit client indices in a 64-bit mask. */
module ClientIndices {
  import opened Words

  type Mask = Word

  const FULL_MASK: Mask := 0xFFFF_FFFF_FFFF_FFFF

  function Or(a: Mask, b: Mask): Mask { a | b }

  function Without(a: Mask, b: Mask): Mask { a & !b }

  predicate Disjoint(a: Mask, b: Mask) { a & b == 0 }

  function OrAll(indices: seq<Mask>): Mask {
    if indices == [] then 0 else Or(OrAll(indices[..|indices| - 1]), indices[|indices| - 1])
  }

  /** All indices are single bits, no two the same. */
  predicate Proper(indices: seq<Mask>) {
    && (forall i | 0 <= i < |indices| :: OneBit(indices[i]))
    && (forall i, j | 0 <= i < j < |indices| :: Disjoint(indices[i], indices[j]))
  }

  // ----- The search for a free index

  /** The mask has every bit below the index. */
  predicate LowerTaken(index: Mask, mask: Mask) {
    OneBit(index) && (index - 1) & mask == index - 1
  }

  /** That is, every lower bit is taken. */
  lemma LowerTakenBits(index: Mask, mask: Mask, lower: Mask)
    requires LowerTaken(index, mask) && OneBit(lower) && Less(lower, index)
    ensures !Disjoint(lower, mask)
  {
  }

  /** The lowest bit not in the mask. */
  ghost predicate LowestFree(index: Mask, mask: Mask) {
    && OneBit(index) && Disjoint(index, mask)
    && forall lower | OneBit(lower) && Less(lower, index) :: !Disjoint(lower, mask)
  }

  lemma LowerTakenLowest(index: Mask, mask: Mask)
    requires LowerTaken(index, mask) && Disjoint(index, mask)
    ensures LowestFree(index, mask)
  {
    LowerTakenOneBit(index, mask);
    hide LowerTaken, Disjoint, OneBit, Less;
    forall lower | OneBit(lower) && Less(lower, index)
      ensures !Disjoint(lower, mask)
    {
      LowerTakenBits(index, mask, lower);
    }
  }

  lemma LowerTakenOneBit(index: Mask, mask: Mask)
    requires LowerTaken(index, mask)
    ensures OneBit(index)
  {
  }

  function Shifted(index: Mask): Mask { index << 1 }

  /** How far the search can still go. */
  function Above(index: Mask): Mask { FULL_MASK - index }

  lemma StartLow(mask: Mask)
    ensures LowerTaken(1, mask)
  {
  }

  lemma ShiftUp(index: Mask, mask: Mask)
    requires mask != FULL_MASK && LowerTaken(index, mask) && !Disjoint(index, mask)
    ensures LowerTaken(Shifted(index), mask)
    ensures Above(Shifted(index)) < Above(index)
  {
  }

  /** The shift loop of `addClient`: it ends on the lowest bit not in the mask. */
  method FindFreeIndex(mask: Mask) returns (index: Mask)
    requires mask != FULL_MASK
    ensures LowestFree(index, mask)
  {
    hide LowerTaken, Disjoint, Shifted, Above, LowestFree;
    index := 1;
    StartLow(mask);
    while !Disjoint(index, mask)
      invariant LowerTaken(index, mask)
      decreases Above(index)
    {
      ShiftUp(index, mask);
      index := Shifted(index);
    }
    LowerTakenLowest(index, mask);
  }

  // ----- Masks as sets of clients

  lemma DisjointOr(a: Mask, b: Mask, c: Mask)
    requires Disjoint(a, c) && Disjoint(b, c)
    ensures Disjoint(Or(a, b), c)
  {
  }

  lemma DisjointParts(a: Mask, b: Mask, c: Mask)
    requires Disjoint(Or(a, b), c)
    ensures Disjoint(a, c) && Disjoint(b, c)
  {
  }

  lemma DisjointComm(a: Mask, b: Mask)
    ensures Disjoint(a, b) <==> Disjoint(b, a)
  {
  }

  lemma {:induction false} OrAllDisjoint(indices: seq<Mask>, x: Mask)
    ensures Disjoint(OrAll(indices), x) <==> forall i | 0 <= i < |indices| :: Disjoint(indices[i], x)
  {
    assert Disjoint(0, x);
    hide Disjoint, Or;
    if indices == [] {
    } else {
      var n := |indices| - 1;
      var rest := indices[..n];
      OrAllDisjoint(rest, x);
      if Disjoint(OrAll(indices), x) {
        DisjointParts(OrAll(rest), indices[n], x);
        assert forall i | 0 <= i < n :: rest[i] == indices[i];
      }
      if forall i | 0 <= i < |indices| :: Disjoint(indices[i], x) {
        DisjointOr(OrAll(rest), indices[n], x);
      }
    }
  }

  lemma WithoutAdded(a: Mask, b: Mask)
    requires Disjoint(a, b)
    ensures Without(Or(a, b), b) == a
  {
  }

  lemma OrDef(a: Mask, b: Mask)
    ensures Or(a, b) == a | b
  {
  }

  lemma WithoutDef(a: Mask, b: Mask)
    ensures Without(a, b) == a & !b
  {
  }

  lemma RawWithoutOr(a: Mask, b: Mask, c: Mask)
    requires b & c == 0
    ensures (a | b) & !c == (a & !c) | b
  {
  }

  lemma WithoutOr(a: Mask, b: Mask, c: Mask)
    requires Disjoint(b, c)
    ensures Without(Or(a, b), c) == Or(Without(a, c), b)
  {
    hide Or, Without;
    OrDef(a, b);
    WithoutDef(a, c);
    WithoutDef(a | b, c);
    OrDef(a & !c, b);
    RawWithoutOr(a, b, c);
  }

  lemma RemovedEnd<T>(s: seq<T>, k: nat)
    requires k < |s| - 1
    ensures var front, rest := s[..|s| - 1], s[..k] + s[k + 1..];
            rest != [] && rest[|rest| - 1] == s[|s| - 1] && rest[..|rest| - 1] == front[..k] + front[k + 1..]
  {
  }

  lemma OrAllEnd(indices: seq<Mask>)
    requires indices != []
    ensures OrAll(indices) == Or(OrAll(indices[..|indices| - 1]), indices[|indices| - 1])
  {
  }

  /** Clearing a member's bit leaves the mask of the others. */
  lemma {:induction false} OrAllRemove(indices: seq<Mask>, k: nat)
    requires Proper(indices) && k < |indices|
    ensures OrAll(indices[..k] + indices[k + 1..]) == Without(OrAll(indices), indices[k])
  {
    hide Or, Without, Disjoint, OneBit, OrAll;
    var n, x := |indices| - 1, indices[k];
    OrAllEnd(indices);
    if k == n {
      assert indices[..k] + indices[k + 1..] == indices[..n];
      OrAllDisjoint(indices[..n], x);
      WithoutAdded(OrAll(indices[..n]), x);
    } else {
      OrAllRemove(indices[..n], k);
      RemovedEnd(indices, k);
      OrAllEnd(indices[..k] + indices[k + 1..]);
      DisjointComm(x, indices[n]);
      WithoutOr(OrAll(indices[..n]), indices[n], x);
    }
  }

  lemma NotSelfDisjoint(x: Mask)
    requires OneBit(x)
    ensures !Disjoint(x, x)
  {
  }

  /** Every index meets the or of the indices it is one of. */
  lemma MemberMeetsAll(indices: seq<Mask>, i: nat)
    requires Proper(indices) && i < |indices|
    ensures !Disjoint(OrAll(indices), indices[i])
  {
    hide OrAll, OneBit, Disjoint;
    NotSelfDisjoint(indices[i]);
    OrAllDisjoint(indices, indices[i]);
  }

  /** The complement of one client's index addresses every other client and not that one. */
  lemma ComplementAddressesOthers(indices: seq<Mask>, sender: nat, i: nat)
    requires Proper(indices) && sender < |indices| && i < |indices|
    ensures indices[i] & !indices[sender] != 0 <==> i != sender
  {
  }

  // ----- How many clients a mask holds

  function PopCount(x: Mask, n: nat): nat
    decreases n
  {
    if n == 0 then 0 else Bit(x) + PopCount(Halved(x), n - 1)
  }

  lemma RawHalves(a: Mask, b: Mask)
    requires a & b == 0
    ensures (a | b) >> 1 == (a >> 1) | (b >> 1) && (a >> 1) & (b >> 1) == 0
  {
  }

  lemma RawLowBits(a: Mask, b: Mask)
    requires a & b == 0
    ensures !(a & 1 == 1 && b & 1 == 1)
    ensures (a | b) & 1 == 1 <==> a & 1 == 1 || b & 1 == 1
  {
  }

  lemma BitDef(x: Mask)
    ensures Bit(x) == (if x & 1 == 1 then 1 else 0) && Halved(x) == x >> 1
  {
  }

  lemma DisjointDef(a: Mask, b: Mask)
    ensures Disjoint(a, b) <==> a & b == 0
  {
  }

  lemma OrBits(a: Mask, b: Mask)
    requires Disjoint(a, b)
    ensures Halved(Or(a, b)) == Or(Halved(a), Halved(b)) && Disjoint(Halved(a), Halved(b))
    ensures Bit(Or(a, b)) == Bit(a) + Bit(b)
  {
    hide Or, Disjoint, Bit, Halved;
    DisjointDef(a, b);
    OrDef(a, b);
    BitDef(a);
    BitDef(b);
    BitDef(a | b);
    DisjointDef(a >> 1, b >> 1);
    OrDef(a >> 1, b >> 1);
    RawHalves(a, b);
    RawLowBits(a, b);
  }

  lemma {:induction false} PopCountOr(a: Mask, b: Mask, n: nat)
    requires Disjoint(a, b)
    ensures PopCount(Or(a, b), n) == PopCount(a, n) + PopCount(b, n)
    decreases n
  {
    hide Or, Disjoint, Bit, Halved;
    if n == 0 {
    } else {
      OrBits(a, b);
      PopCountOr(Halved(a), Halved(b), n - 1);
    }
  }

  lemma OneBitCases(x: Mask)
    requires OneBit(x)
    ensures Bit(x) == 1 ==> Halved(x) == 0
    ensures Bit(x) == 0 ==> OneBit(Halved(x))
    ensures Bit(x) <= 1 && Bit(0) == 0 && Halved(0) == 0
  {
  }

  lemma {:induction false} PopCountZero(n: nat)
    ensures PopCount(0, n) == 0
    decreases n
  {
    assert Bit(0) == 0 && Halved(0) == 0;
    hide Bit, Halved;
    if n == 0 {
    } else {
      PopCountZero(n - 1);
    }
  }

  lemma {:induction false} PopCountOneBit(x: Mask, n: nat)
    requires OneBit(x) && Below(x, n)
    ensures PopCount(x, n) == 1
    decreases n
  {
    if n == 0 {
      assert false;
    } else {
      OneBitCases(x);
      hide Bit, Halved, OneBit;
      if Bit(x) == 1 {
        PopCountZero(n - 1);
      } else {
        PopCountOneBit(Halved(x), n - 1);
      }
    }
  }

  lemma {:induction false} PopCountNone(x: Mask, n: nat)
    requires PopCount(x, n) == 0 && Below(x, n)
    ensures x == 0
    decreases n
  {
    if n == 0 {
    } else {
      assert Bit(x) == 0 && Halved(x) == 0 ==> x == 0;
      hide Bit, Halved;
      PopCountNone(Halved(x), n - 1);
    }
  }

  /** A mask that is the or of disjoint indices holds exactly that many bits. */
  lemma {:induction false} PopCountOrAll(indices: seq<Mask>)
    requires Proper(indices)
    ensures PopCount(OrAll(indices), 64) == |indices|
  {
    hide PopCount, Or, Disjoint, OneBit, Below;
    if indices == [] {
      PopCountZero(64);
    } else {
      var n := |indices| - 1;
      PopCountOrAll(indices[..n]);
      OrAllDisjoint(indices[..n], indices[n]);
      PopCountOr(OrAll(indices[..n]), indices[n], 64);
      BelowAll(indices[n]);
      PopCountOneBit(indices[n], 64);
    }
  }

  lemma {:induction false} PopCountAllSet(x: Mask, n: nat)
    requires AllSet(x, n)
    ensures PopCount(x, n) == n
    decreases n
  {
    hide Bit, Halved;
    if n == 0 {
    } else {
      PopCountAllSet(Halved(x), n - 1);
    }
  }

  lemma FullMaskCount()
    ensures PopCount(FULL_MASK, 64) == 64
  {
    hide PopCount, AllSet;
    MaxAllSet();
    PopCountAllSet(FULL_MASK, 64);
  }

  lemma Complemented(x: Mask)
    ensures Or(x, Without(FULL_MASK, x)) == FULL_MASK && Disjoint(x, Without(FULL_MASK, x))
    ensures Without(FULL_MASK, x) == 0 <==> x == FULL_MASK
  {
  }

  /** A mask is full exactly when all 64 bits are set. */
  lemma FullIffAllSet(mask: Mask)
    ensures mask == FULL_MASK <==> PopCount(mask, 64) == 64
  {
    hide PopCount, Or, Without, Disjoint, Below;
    FullMaskCount();
    Complemented(mask);
    PopCountOr(mask, Without(FULL_MASK, mask), 64);
    if PopCount(mask, 64) == 64 {
      BelowAll(Without(FULL_MASK, mask));
      PopCountNone(Without(FULL_MASK, mask), 64);
    }
  }

  /** So distinct indices fill a mask exactly when there are 64. */
  lemma FullIffSixtyFour(indices: seq<Mask>)
    requires Proper(indices)
    ensures OrAll(indices) == FULL_MASK <==> |indices| == 64
  {
    hide PopCount;
    PopCountOrAll(indices);
    FullIffAllSet(OrAll(indices));
  }

  // ----- The registry's mask: the live indices and those it can no longer give back

  ghost predicate MaskHolds(mask: Mask, indices: seq<Mask>, leaked: Mask) {
    Proper(indices) && mask == Or(OrAll(indices), leaked) && Disjoint(OrAll(indices), leaked)
  }

  /** The registry's mask holds a bit for each live index, and the leaked ones. */
  lemma MaskCount(mask: Mask, indices: seq<Mask>, leaked: Mask)
    requires MaskHolds(mask, indices, leaked)
    ensures PopCount(mask, 64) == |indices| + PopCount(leaked, 64)
  {
    hide PopCount, Or, Disjoint;
    PopCountOrAll(indices);
    PopCountOr(OrAll(indices), leaked, 64);
  }

  lemma RawOrSwap(a: Mask, b: Mask, c: Mask, ab: Mask, ac: Mask)
    requires ab == a | b && ac == a | c
    ensures Or(ab, c) == Or(ac, b)
  {
  }

  lemma OrSwap(a: Mask, b: Mask, c: Mask)
    ensures Or(Or(a, b), c) == Or(Or(a, c), b)
  {
    hide Or;
    OrDef(a, b);
    OrDef(a, c);
    RawOrSwap(a, b, c, Or(a, b), Or(a, c));
  }

  lemma MaskAdd(mask: Mask, indices: seq<Mask>, leaked: Mask, index: Mask)
    requires MaskHolds(mask, indices, leaked) && OneBit(index) && Disjoint(index, mask)
    ensures MaskHolds(Or(mask, index), indices + [index], leaked)
    ensures forall i | 0 <= i < |indices| :: Disjoint(indices[i], index)
  {
    hide Or, Disjoint, OneBit;
    var all := OrAll(indices);
    DisjointComm(index, mask);
    DisjointParts(all, leaked, index);
    OrAllDisjoint(indices, index);
    assert (indices + [index])[..|indices|] == indices;
    OrSwap(all, leaked, index);
    DisjointComm(leaked, index);
    DisjointOr(all, index, leaked);
  }

  lemma MaskRemove(mask: Mask, indices: seq<Mask>, leaked: Mask, k: nat)
    requires MaskHolds(mask, indices, leaked) && k < |indices|
    ensures MaskHolds(Without(mask, indices[k]), indices[..k] + indices[k + 1..], leaked)
  {
    hide Or, Without, Disjoint, OneBit;
    var all, x := OrAll(indices), indices[k];
    OrAllRemove(indices, k);
    OrAllDisjoint(indices, leaked);
    DisjointComm(x, leaked);
    WithoutOr(all, leaked, x);
    var rest := indices[..k] + indices[k + 1..];
    assert forall i | 0 <= i < |rest| :: rest[i] == indices[if i < k then i else i + 1];
    OrAllDisjoint(rest, leaked);
  }

  lemma MaskLeak(mask: Mask)
    ensures MaskHolds(mask, [], mask)
  {
  }
}
