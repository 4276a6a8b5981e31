/** The next power of two, found by spreading the bits of a 64-bit word. */
module PowersOfTwo {
  import opened Words

  /** No allocation is larger. */
  const MAX_SIZE: Word := 0x7FFF_FFFF_FFFF_FFFF

  /** The least power of two that is at least v. */
  ghost predicate LeastPower(r: Word, v: Word) {
    OneBit(r) && !Less(r, v) && forall p | OneBit(p) && !Less(p, v) :: !Less(p, r)
  }

  /** Every bit up to 31 places below a set one is set too. */
  function Spread(x: Word): Word {
    var a := x | (x >> 1);
    var b := a | (a >> 2);
    var c := b | (b >> 4);
    var d := c | (c >> 8);
    d | (d >> 16)
  }

  predicate Ones(x: Word) { x & (x + 1) == 0 }

  /** All 32 bits from the one of b on are clear, below some set bit. */
  predicate Gap(x: Word, b: Word) {
    OneBit(b) && b < 0x1_0000_0000 && x >= b << 32 && x & ((b << 32) - b) == 0
  }

  ghost predicate NoWideGap(x: Word) { forall b :: !Gap(x, b) }

  /** The place of b and of the 31 bits above it. */
  function Window(b: Word): Word {
    var m := b | (b << 16);
    var n := m | (m << 8);
    var o := n | (n << 4);
    var p := o | (o << 2);
    p | (p << 1)
  }

  /** A bit stays clear exactly when it and the 31 above it are. */
  lemma StaysClear(x: Word, b: Word)
    requires OneBit(b)
    ensures Spread(x) & b == 0 <==> x & Window(b) == 0
  {
    hide OneBit, Spread, Window;
    if Spread(x) & b == 0 {
      WindowClear(x, b);
    } else if x & Window(b) == 0 {
      SpreadClear(x, b);
    }
  }

  lemma WindowClear(x: Word, b: Word)
    requires OneBit(b) && Spread(x) & b == 0
    ensures x & Window(b) == 0
  {
  }

  lemma SpreadClear(x: Word, b: Word)
    requires OneBit(b) && x & Window(b) == 0
    ensures Spread(x) & b == 0
  {
  }

  /** 32 bits clear below a set one are a gap. */
  lemma WindowIsGap(x: Word, b: Word)
    requires OneBit(b)
    ensures Gap(x, b) <==> x >= b && x & Window(b) == 0
  {
  }

  lemma SpreadGrows(x: Word, b: Word)
    requires OneBit(b)
    ensures Spread(x) >= b <==> x >= b
  {
  }

  lemma ClearBelow(y: Word, b: Word)
    requires OneBit(b) && y & b == 0 && y >= b
    ensures !Ones(y)
  {
  }

  /** The lowest clear bit of a word that is not all ones below its highest. */
  lemma LowestClear(y: Word)
    requires !Ones(y)
    ensures var b := (y + 1) & !y; OneBit(b) && y & b == 0 && y >= b
  {
  }

  lemma OnesIffNoGap(x: Word)
    ensures Ones(Spread(x)) <==> NoWideGap(x)
  {
    hide Spread, Ones, OneBit, Window, Gap;
    var y := Spread(x);
    if Ones(y) {
      forall b
        ensures !Gap(x, b)
      {
        if Gap(x, b) {
          GapStays(x, b);
        }
      }
    } else {
      var b := (y + 1) & !y;
      LowestClear(y);
      SpreadGrows(x, b);
      StaysClear(x, b);
      WindowIsGap(x, b);
    }
  }

  lemma GapStays(x: Word, b: Word)
    requires Gap(x, b)
    ensures !Ones(Spread(x))
  {
    assert OneBit(b);
    hide *;
    WindowIsGap(x, b);
    SpreadGrows(x, b);
    StaysClear(x, b);
    ClearBelow(Spread(x), b);
  }

  lemma SpreadBounds(x: Word)
    requires x <= MAX_SIZE
    ensures !Less(Spread(x), x) && !Less(Sum(x, x), Spread(x))
    ensures Spread(x) <= MAX_SIZE
  {
  }

  lemma PowerOfOnes(y: Word)
    requires y <= MAX_SIZE
    ensures OneBit(Next(y)) <==> Ones(y)
  {
  }

  lemma NoPowerBetween(p: Word, r: Word)
    requires OneBit(p) && OneBit(r) && Less(p, r)
    ensures !Less(Halved(r), p)
  {
  }

  lemma HalfBelow(x: Word, y: Word)
    requires x <= MAX_SIZE && !Less(Sum(x, x), y)
    ensures !Less(x, Halved(Next(y)))
  {
  }

  lemma {:induction false} NumberWider(x: Word, n: nat)
    requires Below(x, n)
    ensures Number(x, n + 1) == Number(x, n)
    decreases n
  {
    if n == 0 {
      NumberZero(1);
    } else {
      NumberWider(Halved(x), n - 1);
    }
  }

  lemma MaxHalved()
    ensures Halved(MAX_WORD) == MAX_SIZE && Bit(MAX_WORD) == 1
  {
  }

  /** A word holds twice any size, and one more. */
  lemma TwiceFits(x: Word)
    requires !Less(MAX_SIZE, x)
    ensures 2 * Value(x) + 1 <= Largest(64)
  {
    MaxHalved();
    hide Halved, Bit, Less, Largest;
    BelowAll(MAX_WORD);
    NumberWider(MAX_SIZE, 63);
    ValueAtMost(MAX_WORD);
    ValueOrder(MAX_SIZE, x);
  }

  lemma NotAbove(x: Word)
    ensures x <= MAX_SIZE <==> !Less(MAX_SIZE, x)
  {
  }

  /** What spreading the bits of x and adding 1 comes to, as a number: more than x, and at most twice x
      and 1. */
  lemma SpreadValue(x: Word)
    requires x <= MAX_SIZE
    ensures Value(Next(x)) == Value(x) + 1 && Value(Next(Spread(x))) == Value(Spread(x)) + 1
    ensures Value(x) <= Value(Spread(x)) <= 2 * Value(x)
  {
    hide Less, Spread, Next, Sum, Value, Largest;
    SpreadBounds(x);
    NotAbove(x);
    NotAbove(Spread(x));
    TwiceFits(x);
    TwiceFits(Spread(x));
    ValueSum(x, x);
    ValueOrder(Spread(x), x);
    ValueOrder(Sum(x, x), Spread(x));
    ValueNext(x);
    ValueNext(Spread(x));
  }

  lemma OnesIffLeast(x: Word)
    requires x <= MAX_SIZE
    ensures Ones(Spread(x)) <==> LeastPower(Next(Spread(x)), Next(x))
  {
    hide OneBit, Ones, Less, Spread, Next, Sum, Value, Halved;
    var y, r, v := Spread(x), Next(Spread(x)), Next(x);
    SpreadBounds(x);
    SpreadValue(x);
    PowerOfOnes(y);
    ValueOrder(r, v);
    if OneBit(r) {
      HalfBelow(x, y);
      forall p | OneBit(p) && !Less(p, v)
        ensures !Less(p, r)
      {
        if Less(p, r) {
          NoPowerBetween(p, r);
          ValueOrder(Halved(r), p);
          ValueOrder(x, Halved(r));
          ValueOrder(p, v);
        }
      }
    }
  }

  /** Spreading the bits of v - 1 and adding 1 gives the least power of two exactly when no 32 bits in a row
      are clear below the highest bit of v - 1. */
  lemma LeastIffNoWideGap(x: Word)
    requires x <= MAX_SIZE
    ensures LeastPower(Next(Spread(x)), Next(x)) <==> NoWideGap(x)
  {
    hide Ones, Spread, LeastPower, NoWideGap;
    OnesIffNoGap(x);
    OnesIffLeast(x);
  }

  /** There is no such gap in a word below 2^32. */
  lemma NoRoomForGap(x: Word)
    requires x < 0x1_0000_0000
    ensures NoWideGap(x)
  {
  }

  /** 2^33 + 1 is a number it fails for: the result is no power of two. */
  lemma GapBeyond32()
    ensures Gap(0x2_0000_0000, 1) && !LeastPower(Next(Spread(0x2_0000_0000)), 0x2_0000_0001)
  {
  }

  function Previous(v: Word): Word { v - 1 }

  function Upper(v: Word): Word { Next(Spread(Previous(v))) }

  predicate Within32(v: Word) { v <= 0x1_0000_0000 }

  /** No object is larger: 1 <= v <= 2^63. */
  predicate IsExtent(v: Word) { v != 0 && Previous(v) <= MAX_SIZE }

  lemma Back(v: Word)
    ensures Next(Previous(v)) == v
    ensures IsExtent(v) ==> Previous(v) <= MAX_SIZE
    ensures IsExtent(v) && Within32(v) ==> Previous(v) < 0x1_0000_0000
  {
  }

  /** The result is the least power of two for all v up to 2^32, and beyond exactly for those v without a
      wide gap; it is always at least v and less than 2 * v. */
  lemma UpperLeast(v: Word)
    requires IsExtent(v)
    ensures LeastPower(Upper(v), v) <==> NoWideGap(Previous(v))
    ensures Within32(v) ==> LeastPower(Upper(v), v)
    ensures Value(v) <= Value(Upper(v)) < 2 * Value(v)
  {
    hide LeastPower, NoWideGap, Value, Next, Spread, Previous, Within32, IsExtent;
    Back(v);
    LeastIffNoWideGap(Previous(v));
    SpreadValue(Previous(v));
    if Within32(v) {
      NoRoomForGap(Previous(v));
    }
  }

  /** `upperPowerOfTwo`. */
  method UpperPowerOfTwo(value: Word) returns (v: Word)
    ensures v == Upper(value)
  {
    v := value - 1;
    v := v | (v >> 1);
    v := v | (v >> 2);
    v := v | (v >> 4);
    v := v | (v >> 8);
    v := v | (v >> 16);
    v := v + 1;
  }
}
