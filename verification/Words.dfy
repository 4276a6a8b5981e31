/** 64-bit words: their bits, and the numbers they stand for. */
module Words {
  type Word = bv64

  const MAX_WORD: Word := 0xFFFF_FFFF_FFFF_FFFF

  function Bit(x: Word): (b: nat)
    ensures b <= 1
  {
    if x & 1 == 1 then 1 else 0
  }

  function Halved(x: Word): Word { x >> 1 }

  /** A power of two. */
  predicate OneBit(x: Word) { x != 0 && x & (x - 1) == 0 }

  /** x < 2^n. */
  predicate Below(x: Word, n: nat)
    decreases n
  {
    if n == 0 then x == 0 else Below(Halved(x), n - 1)
  }

  function Dropped(x: Word): Word { x >> 8 }

  lemma HalvedEight(x: Word)
    ensures Halved(x) == x >> 1 && Halved(x >> 1) == x >> 2 && Halved(x >> 2) == x >> 3 && Halved(x >> 3) == x >> 4
    ensures Halved(x >> 4) == x >> 5 && Halved(x >> 5) == x >> 6 && Halved(x >> 6) == x >> 7
    ensures Halved(x >> 7) == Dropped(x)
  {
  }

  lemma BelowDropped(x: Word, n: nat)
    requires Below(Dropped(x), n)
    ensures Below(x, n + 8)
  {
    hide Halved, Dropped;
    HalvedEight(x);
    assert Below(x >> 6, n + 2);
    assert Below(x >> 4, n + 4);
    assert Below(x >> 2, n + 6);
  }

  lemma BelowAll(x: Word)
    ensures Below(x, 64)
  {
    var d1 := Dropped(x);
    var d2 := Dropped(d1);
    var d3 := Dropped(d2);
    var d4 := Dropped(d3);
    var d5 := Dropped(d4);
    var d6 := Dropped(d5);
    var d7 := Dropped(d6);
    EightDrops(x);
    hide Dropped, Below;
    BelowNone();
    BelowDropped(d7, 0);
    BelowDropped(d6, 8);
    BelowDropped(d5, 16);
    BelowDropped(d4, 24);
    BelowDropped(d3, 32);
    BelowDropped(d2, 40);
    BelowDropped(d1, 48);
    BelowDropped(x, 56);
  }

  lemma BelowNone()
    ensures Below(0, 0)
  {
  }

  lemma EightDrops(x: Word)
    ensures Dropped(Dropped(Dropped(Dropped(Dropped(Dropped(Dropped(Dropped(x)))))))) == 0
  {
  }

  /** The n low bits are all set. */
  predicate AllSet(x: Word, n: nat)
    decreases n
  {
    n == 0 || (Bit(x) == 1 && AllSet(Halved(x), n - 1))
  }

  lemma AllSetEight(x: Word, n: nat)
    requires AllSet(Dropped(x), n)
    requires x & 0xFF == 0xFF
    ensures AllSet(x, n + 8)
  {
    assert Bit(x) == 1 && Bit(x >> 1) == 1 && Bit(x >> 2) == 1 && Bit(x >> 3) == 1;
    assert Bit(x >> 4) == 1 && Bit(x >> 5) == 1 && Bit(x >> 6) == 1 && Bit(x >> 7) == 1;
    hide Bit, Halved, Dropped;
    HalvedEight(x);
    assert AllSet(x >> 6, n + 2);
    assert AllSet(x >> 4, n + 4);
    assert AllSet(x >> 2, n + 6);
  }

  lemma MaxAllSet()
    ensures AllSet(MAX_WORD, 64)
  {
    hide AllSet, Dropped;
    AllSetNone();
    FullDrops();
    AllSetEight(0xFF, 0);
    AllSetEight(0xFFFF, 8);
    AllSetEight(0xFF_FFFF, 16);
    AllSetEight(0xFFFF_FFFF, 24);
    AllSetEight(0xFF_FFFF_FFFF, 32);
    AllSetEight(0xFFFF_FFFF_FFFF, 40);
    AllSetEight(0xFF_FFFF_FFFF_FFFF, 48);
    AllSetEight(MAX_WORD, 56);
  }

  lemma AllSetNone()
    ensures AllSet(0, 0)
  {
  }

  lemma FullDrops()
    ensures Dropped(0xFF) == 0 && Dropped(0xFFFF) == 0xFF && Dropped(0xFF_FFFF) == 0xFFFF
    ensures Dropped(0xFFFF_FFFF) == 0xFF_FFFF && Dropped(0xFF_FFFF_FFFF) == 0xFFFF_FFFF
    ensures Dropped(0xFFFF_FFFF_FFFF) == 0xFF_FFFF_FFFF && Dropped(0xFF_FFFF_FFFF_FFFF) == 0xFFFF_FFFF_FFFF
    ensures Dropped(MAX_WORD) == 0xFF_FFFF_FFFF_FFFF
  {
  }

  // ----- Numbers

  function Next(x: Word): Word { x + 1 }

  function Sum(x: Word, y: Word): Word { x + y }

  predicate Less(x: Word, y: Word) { x < y }

  /** The number that the lowest n bits of a word stand for. */
  function Number(x: Word, n: nat): nat
    decreases n
  {
    if n == 0 then 0 else 2 * Number(Halved(x), n - 1) + Bit(x)
  }

  /** The largest number of n bits. */
  function Largest(n: nat): nat {
    if n == 0 then 0 else 2 * Largest(n - 1) + 1
  }

  /** The number a word stands for. */
  function Value(x: Word): nat { Number(x, 64) }

  lemma HalfLess(x: Word, y: Word)
    requires Less(Halved(x), Halved(y))
    ensures Less(x, y)
  {
  }

  lemma SameHalf(x: Word, y: Word)
    requires Halved(x) == Halved(y)
    ensures if Bit(x) == Bit(y) then x == y else if Bit(x) == 0 then Less(x, y) else Less(y, x)
  {
  }

  lemma OneOrder(x: Word, y: Word)
    ensures !Less(x, x) && !(Less(x, y) && Less(y, x))
  {
  }

  lemma {:induction false} NumberInjective(x: Word, y: Word, n: nat)
    requires Below(x, n) && Below(y, n) && Number(x, n) == Number(y, n)
    ensures x == y
    decreases n
  {
    hide Halved, Bit;
    if n == 0 {
    } else {
      NumberInjective(Halved(x), Halved(y), n - 1);
      SameHalf(x, y);
    }
  }

  lemma {:induction false} NumberLess(x: Word, y: Word, n: nat)
    requires Below(x, n) && Below(y, n) && Number(x, n) < Number(y, n)
    ensures Less(x, y)
    decreases n
  {
    hide Halved, Bit, Less;
    if Number(Halved(x), n - 1) < Number(Halved(y), n - 1) {
      NumberLess(Halved(x), Halved(y), n - 1);
      HalfLess(x, y);
    } else {
      NumberInjective(Halved(x), Halved(y), n - 1);
      SameHalf(x, y);
    }
  }

  /** Words are ordered as their numbers. */
  lemma ValueOrder(x: Word, y: Word)
    ensures Less(x, y) <==> Value(x) < Value(y)
    ensures x == y <==> Value(x) == Value(y)
  {
    hide Less, Number, Below;
    BelowAll(x);
    BelowAll(y);
    OneOrder(x, y);
    if Value(x) < Value(y) {
      NumberLess(x, y, 64);
    } else if Value(y) < Value(x) {
      NumberLess(y, x, 64);
    } else {
      NumberInjective(x, y, 64);
    }
  }

  lemma NextBits(x: Word)
    requires x != 0xFFFF_FFFF_FFFF_FFFF
    ensures Bit(Next(x)) == 1 - Bit(x)
    ensures Halved(Next(x)) == if Bit(x) == 0 then Halved(x) else Next(Halved(x))
    ensures Halved(x) != 0xFFFF_FFFF_FFFF_FFFF
  {
  }

  lemma {:induction false} NumberNext(x: Word, n: nat)
    requires x != MAX_WORD && Number(x, n) < Largest(n)
    ensures Number(Next(x), n) == Number(x, n) + 1
    decreases n
  {
    hide Halved, Bit, Next;
    NextBits(x);
    if Bit(x) == 0 {
    } else {
      NumberNext(Halved(x), n - 1);
    }
  }

  lemma {:induction false} NumberAllSet(x: Word, n: nat)
    requires AllSet(x, n)
    ensures Number(x, n) == Largest(n)
    decreases n
  {
    hide Halved, Bit;
    if n == 0 {
    } else {
      NumberAllSet(Halved(x), n - 1);
    }
  }

  lemma ValueNext(x: Word)
    requires Value(x) < Largest(64)
    ensures Value(Next(x)) == Value(x) + 1
  {
    hide Number, AllSet, Largest, Next;
    MaxAllSet();
    NumberAllSet(MAX_WORD, 64);
    NumberNext(x, 64);
  }

  lemma {:induction false} NumberAtMost(x: Word, n: nat)
    ensures Number(x, n) <= Largest(n)
    decreases n
  {
    hide Halved, Bit;
    if n == 0 {
    } else {
      NumberAtMost(Halved(x), n - 1);
    }
  }

  lemma ValueAtMost(x: Word)
    ensures Value(x) <= Largest(64) && (x != MAX_WORD ==> Value(x) < Largest(64))
  {
    hide Number, AllSet, Largest;
    NumberAtMost(x, 64);
    MaxAllSet();
    NumberAllSet(MAX_WORD, 64);
    ValueOrder(x, MAX_WORD);
  }

  lemma SumNext(x: Word, y: Word)
    requires y != 0
    ensures Sum(x, y) == Next(Sum(x, y - 1)) && y == Next(y - 1) && y - 1 != MAX_WORD
  {
  }

  lemma SumZero(x: Word)
    ensures Sum(x, 0) == x
  {
  }

  lemma ZeroBits()
    ensures Bit(0) == 0 && Halved(0) == 0
  {
  }

  lemma {:induction false} NumberZero(n: nat)
    ensures Number(0, n) == 0
  {
    ZeroBits();
    hide Halved, Bit;
    if n == 0 {
    } else {
      NumberZero(n - 1);
    }
  }

  /** A word sum stands for the sum of the numbers, unless that is too large for a word. */
  lemma {:induction false} ValueSum(x: Word, y: Word)
    requires Value(x) + Value(y) <= Largest(64)
    ensures Value(Sum(x, y)) == Value(x) + Value(y)
    decreases Value(y)
  {
    hide Next, Sum, Number, Largest;
    NumberZero(64);
    if y == 0 {
      SumZero(x);
    } else {
      var less := y - 1;
      SumNext(x, y);
      ValueAtMost(less);
      ValueNext(less);
      ValueSum(x, less);
      ValueNext(Sum(x, less));
    }
  }
}
