/** The checksum against its definition in the standards, and the errors it always detects.

    Bit strings are written as they are transmitted: the low bit of every byte first, the
    coefficient of the highest power of x first. */
module Crc32Bits {
  import opened Crc32

  type Bits = seq<bool>

  function ByteBits(b: byte): Bits { Low(Word(b), 8) }

  function MessageBits(data: seq<byte>): (s: Bits)
    ensures |s| == 8 * |data|
  {
    if data == [] then [] else MessageBits(data[..|data| - 1]) + ByteBits(data[|data| - 1])
  }

  /** The n low bits of a word, lowest first. */
  function Low(w: bv32, n: nat): (s: Bits)
    ensures |s| == n
    decreases n
  {
    if n == 0 then [] else [LowBit(w)] + Low(Half(w), n - 1)
  }

  function LowBit(w: bv32): bool { w & 1 == 1 }

  function BitWord(b: bool): bv32 { if b then 1 else 0 }

  /** w < 2^n. */
  predicate Fits(w: bv32, n: nat)
    decreases n
  {
    if n == 0 then w == 0 else Fits(Half(w), n - 1)
  }

  function BitUpdate(r: bv32, s: Bits): bv32
    decreases |s|
  {
    if s == [] then r else BitUpdate(BitStep(Xor(r, BitWord(s[0]))), s[1..])
  }

  function XorBits(s: Bits, t: Bits): (u: Bits)
    requires |s| == |t|
    ensures |u| == |s|
  {
    seq(|s|, i requires 0 <= i < |s| => s[i] != t[i])
  }

  // ----- Feeding a byte is feeding its bits

  lemma HalfDouble(w: bv32)
    requires w & 0x8000_0000 == 0
    ensures Half(Double(w)) == w && !LowBit(Double(w))
    ensures Half(Xor(Double(w), 1)) == w && LowBit(Xor(Double(w), 1))
  {
  }

  lemma SplitLowBit(w: bv32)
    ensures w == Xor(BitWord(LowBit(w)), Double(Half(w)))
    ensures Half(w) & 0x8000_0000 == 0
  {
  }

  lemma {:induction false} BitUpdateIsSteps(r: bv32, w: bv32, n: nat)
    requires Fits(w, n)
    ensures BitUpdate(r, Low(w, n)) == Steps(n, Xor(r, w))
    decreases n
  {
    hide Xor, BitStep, Half, BitWord, LowBit, Double;
    if n == 0 {
      XorZero(r);
    } else {
      var first, h := Xor(r, BitWord(LowBit(w))), Half(w);
      BitUpdateIsSteps(BitStep(first), h, n - 1);
      SplitLowBit(w);
      XorAssoc(r, BitWord(LowBit(w)), Double(h));
      BitStepLinear(first, Double(h));
      StepDouble(h);
      assert Low(w, n)[1..] == Low(h, n - 1);
    }
  }

  lemma HalfSteps(w: bv32)
    ensures Half(w) == w >> 1 && Half(w >> 1) == w >> 2 && Half(w >> 2) == w >> 3 && Half(w >> 3) == w >> 4
    ensures Half(w >> 4) == w >> 5 && Half(w >> 5) == w >> 6 && Half(w >> 6) == w >> 7 && Half(w >> 7) == w >> 8
  {
  }

  lemma ByteFits(b: byte)
    ensures Fits(Word(b), 8)
  {
  }

  lemma {:induction false} BitUpdateConcat(r: bv32, s: Bits, t: Bits)
    ensures BitUpdate(r, s + t) == BitUpdate(BitUpdate(r, s), t)
    decreases |s|
  {
    hide Xor, BitStep, BitWord;
    if s == [] {
      assert s + t == t;
    } else {
      assert (s + t)[1..] == s[1..] + t;
      BitUpdateConcat(BitStep(Xor(r, BitWord(s[0]))), s[1..], t);
    }
  }

  lemma {:induction false} UpdateIsBitUpdate(r: bv32, data: seq<byte>)
    ensures Update(r, data) == BitUpdate(r, MessageBits(data))
  {
    hide Xor, Low, BitWord, BitStep, Word;
    if data == [] {
    } else {
      var init, b := data[..|data| - 1], data[|data| - 1];
      UpdateIsBitUpdate(r, init);
      ByteFits(b);
      BitUpdateIsSteps(Update(r, init), Word(b), 8);
      BitUpdateConcat(r, MessageBits(init), ByteBits(b));
    }
  }

  // ----- Error detection

  lemma {:induction false} FitsMore(w: bv32, m: nat, n: nat)
    requires Fits(w, m) && m <= n
    ensures Fits(w, n)
    decreases n
  {
    assert Half(0) == 0;
    hide Half;
    if n == 0 {
    } else {
      if m == 0 {
        FitsMore(Half(w), 0, n - 1);
      } else {
        FitsMore(Half(w), m - 1, n - 1);
      }
    }
  }

  lemma FitsDrop(w: bv32, n: nat)
    ensures Fits(w, n + 8) <==> Fits(Drop(w), n)
  {
    hide Half;
    HalfSteps(w);
    assert Fits(w, n + 8) <==> Fits(w >> 1, n + 7);
    assert Fits(w >> 1, n + 7) <==> Fits(w >> 2, n + 6);
    assert Fits(w >> 2, n + 6) <==> Fits(w >> 3, n + 5);
    assert Fits(w >> 3, n + 5) <==> Fits(w >> 4, n + 4);
    assert Fits(w >> 4, n + 4) <==> Fits(w >> 5, n + 3);
    assert Fits(w >> 5, n + 3) <==> Fits(w >> 6, n + 2);
    assert Fits(w >> 6, n + 2) <==> Fits(w >> 7, n + 1);
  }

  lemma FitsRegister(r: bv32)
    ensures Fits(r, 32)
  {
    RawDropAll(r);
    hide Fits, Drop;
    FitsDrop(r, 24);
    FitsDrop(Drop(r), 16);
    FitsDrop(Drop(Drop(r)), 8);
    FitsDrop(Drop(Drop(Drop(r))), 0);
    FitsNone();
  }

  lemma FitsNone()
    ensures Fits(0, 0)
  {
  }

  lemma RawDropAll(w: bv32)
    ensures Drop(Drop(Drop(Drop(w)))) == 0
  {
  }

  lemma FitsSeven(v: bv32)
    requires Fits(v, 7)
    ensures v >> 7 == 0
  {
  }

  lemma FitsTopClear(w: bv32)
    requires Fits(w, 31)
    ensures w & 0x8000_0000 == 0
  {
    hide Fits, Drop;
    FitsDrop(w, 23);
    FitsDrop(Drop(w), 15);
    FitsDrop(Drop(Drop(w)), 7);
    FitsSeven(Drop(Drop(Drop(w))));
    RawTopClear(w);
  }

  lemma RawTopClear(w: bv32)
    requires Drop(Drop(Drop(w))) >> 7 == 0
    ensures w & 0x8000_0000 == 0
  {
  }

  lemma XorSelf(x: bv32, y: bv32)
    ensures Xor(x, x) == 0
    ensures Xor(x, y) == 0 ==> x == y
  {
  }

  /** Two inputs of n <= 32 bits that drive registers x and y to the same value: the registers
      differed by exactly the inputs' difference. */
  lemma {:induction false} EqualEndings(x: bv32, y: bv32, s: Bits, t: Bits)
    requires |s| == |t| <= 32
    requires BitUpdate(x, s) == BitUpdate(y, t)
    ensures Fits(Xor(x, y), |s|)
    ensures Low(Xor(x, y), |s|) == XorBits(s, t)
    decreases |s|
  {
    hide Xor, BitStep, Half, BitWord, LowBit, Double, XorBits;
    if s == [] {
      XorSelf(x, x);
    } else {
      var x0, y0 := Xor(x, BitWord(s[0])), Xor(y, BitWord(t[0]));
      EqualEndings(BitStep(x0), BitStep(y0), s[1..], t[1..]);
      BitStepLinear(x0, y0);
      FitsMore(BitStep(Xor(x0, y0)), |s| - 1, 31);
      UnstepDoubles(Xor(x0, y0));
      XorSwap(x, BitWord(s[0]), y, BitWord(t[0]));
      LastBit(Xor(x, y), s[0], t[0], BitStep(Xor(x0, y0)));
      XorBitsCons(s, t);
    }
  }

  lemma XorBitsCons(s: Bits, t: Bits)
    requires |s| == |t| > 0
    ensures XorBits(s, t) == [s[0] != t[0]] + XorBits(s[1..], t[1..])
  {
  }

  lemma UnstepDoubles(e: bv32)
    requires Fits(BitStep(e), 31)
    ensures e == Double(BitStep(e))
  {
    hide BitStep, Half;
    FitsTopClear(BitStep(e));
    BitUnstepStep(e);
  }

  lemma WordLastBit(d: bv32, e: bv32, w: bv32)
    requires Xor(d, e) == Double(w) && w & 0x8000_0000 == 0 && (e == 0 || e == 1)
    ensures Half(d) == w && (LowBit(d) <==> e == 1)
  {
    hide *;
    HalfDouble(w);
    XorAssoc(d, e, e);
    XorSelf(e, e);
    XorZero(d);
    XorZero(Double(w));
  }

  lemma BitWordXor(a: bool, b: bool)
    ensures Xor(BitWord(a), BitWord(b)) == if a != b then 1 else 0
  {
  }

  /** Undoing the clock of an input difference leaves that difference as the low bit. */
  lemma LastBit(d: bv32, a: bool, b: bool, w: bv32)
    requires Xor(d, Xor(BitWord(a), BitWord(b))) == Double(w)
    requires Fits(w, 31)
    ensures Half(d) == w && LowBit(d) == (a != b)
  {
    hide *;
    BitWordXor(a, b);
    FitsTopClear(w);
    WordLastBit(d, Xor(BitWord(a), BitWord(b)), w);
  }

  lemma {:induction false} BitUpdateInjective(x: bv32, y: bv32, s: Bits)
    requires BitUpdate(x, s) == BitUpdate(y, s)
    ensures x == y
    decreases |s|
  {
    hide Xor, BitStep, BitWord;
    if s == [] {
    } else {
      BitUpdateInjective(BitStep(Xor(x, BitWord(s[0]))), BitStep(Xor(y, BitWord(s[0]))), s[1..]);
      BitUnstepStep(Xor(x, BitWord(s[0])));
      BitUnstepStep(Xor(y, BitWord(s[0])));
      XorCancel(x, y, BitWord(s[0]));
    }
  }

  lemma {:induction false} LowInjective(x: bv32, y: bv32, n: nat)
    requires Fits(x, n) && Fits(y, n) && Low(x, n) == Low(y, n)
    ensures x == y
    decreases n
  {
    hide Xor, Half, LowBit, BitWord, Double;
    if n == 0 {
    } else {
      assert Low(x, n)[0] == LowBit(x) && Low(x, n)[1..] == Low(Half(x), n - 1);
      assert Low(y, n)[0] == LowBit(y) && Low(y, n)[1..] == Low(Half(y), n - 1);
      LowInjective(Half(x), Half(y), n - 1);
      SplitLowBit(x);
      SplitLowBit(y);
    }
  }

  lemma WordInjective(a: byte, b: byte)
    requires Word(a) == Word(b)
    ensures a == b
  {
  }

  lemma {:induction false} MessageBitsInjective(a: seq<byte>, b: seq<byte>)
    requires |a| == |b| && MessageBits(a) == MessageBits(b)
    ensures a == b
  {
    hide Low, Word;
    if a == [] {
    } else {
      var n := |a| - 1;
      assert MessageBits(a)[..8 * n] == MessageBits(a[..n]) && MessageBits(b)[..8 * n] == MessageBits(b[..n]);
      MessageBitsInjective(a[..n], b[..n]);
      assert MessageBits(a)[8 * n..] == ByteBits(a[n]) && MessageBits(b)[8 * n..] == ByteBits(b[n]);
      ByteFits(a[n]);
      ByteFits(b[n]);
      LowInjective(Word(a[n]), Word(b[n]), 8);
      WordInjective(a[n], b[n]);
      assert a == a[..n] + [a[n]] && b == b[..n] + [b[n]];
    }
  }

  /** Bit strings that differ only within 32 consecutive bits drive a register apart. */
  lemma WindowDetected(r: bv32, s: Bits, t: Bits, i: nat, j: nat)
    requires |s| == |t| && i <= j <= |s| && j - i <= 32
    requires s[..i] == t[..i] && s[j..] == t[j..]
    requires BitUpdate(r, s) == BitUpdate(r, t)
    ensures s == t
  {
    hide Xor, BitUpdate, XorBits;
    var mid := BitUpdate(r, s[..i]);
    assert s == s[..i] + s[i..j] + s[j..] && t == t[..i] + t[i..j] + t[j..];
    BitUpdateConcat(r, s[..i] + s[i..j], s[j..]);
    BitUpdateConcat(r, t[..i] + t[i..j], t[j..]);
    BitUpdateConcat(r, s[..i], s[i..j]);
    BitUpdateConcat(r, t[..i], t[i..j]);
    BitUpdateInjective(BitUpdate(mid, s[i..j]), BitUpdate(mid, t[i..j]), s[j..]);
    EqualEndings(mid, mid, s[i..j], t[i..j]);
    XorSelf(mid, mid);
    LowZero(j - i);
    NoDifference(s[i..j], t[i..j]);
  }

  lemma {:induction false} LowZero(n: nat)
    ensures Low(0, n) == seq(n, i => false)
    decreases n
  {
    assert Half(0) == 0 && !LowBit(0);
    hide Half, LowBit;
    if n == 0 {
    } else {
      LowZero(n - 1);
    }
  }

  lemma NoDifference(s: Bits, t: Bits)
    requires |s| == |t| && XorBits(s, t) == seq(|s|, i => false)
    ensures s == t
  {
    forall k | 0 <= k < |s|
      ensures s[k] == t[k]
    {
      assert XorBits(s, t)[k] == seq(|s|, i => false)[k];
    }
  }

  /** Every error burst of at most 32 consecutive bits changes the checksum. */
  lemma BurstDetected(a: seq<byte>, b: seq<byte>, previous: bv32, i: nat)
    requires |a| == |b| && a != b
    requires forall k | 0 <= k < 8 * |a| && !(i <= k < i + 32) :: MessageBits(a)[k] == MessageBits(b)[k]
    ensures Checksum(a, previous) != Checksum(b, previous)
  {
    hide Not, BitUpdate, MessageBits, Update;
    var s, t := MessageBits(a), MessageBits(b);
    UpdateIsBitUpdate(Not(previous), a);
    UpdateIsBitUpdate(Not(previous), b);
    NotNot(Update(Not(previous), a));
    NotNot(Update(Not(previous), b));
    if Checksum(a, previous) == Checksum(b, previous) {
      var from := if i <= |s| then i else |s|;
      var to := if i + 32 <= |s| then i + 32 else |s|;
      WindowDetected(Not(previous), s, t, from, to);
      MessageBitsInjective(a, b);
    }
  }

  /** In particular, any change confined to four consecutive bytes is detected. */
  lemma FourBytesDetected(front: seq<byte>, x: seq<byte>, y: seq<byte>, back: seq<byte>, previous: bv32)
    requires |x| == |y| <= 4 && x != y
    ensures Checksum(front + x + back, previous) != Checksum(front + y + back, previous)
  {
    hide MessageBits, Checksum;
    var a, b := front + x + back, front + y + back;
    assert a[|front|..|front| + |x|] == x && b[|front|..|front| + |y|] == y;
    MessageBitsConcat(front + x, back);
    MessageBitsConcat(front + y, back);
    MessageBitsConcat(front, x);
    MessageBitsConcat(front, y);
    BurstDetected(a, b, previous, 8 * |front|);
  }

  lemma {:induction false} MessageBitsConcat(a: seq<byte>, b: seq<byte>)
    ensures MessageBits(a + b) == MessageBits(a) + MessageBits(b)
    decreases |b|
  {
    hide ByteBits;
    if b == [] {
      assert a + b == a;
    } else {
      assert (a + b)[..|a + b| - 1] == a + b[..|b| - 1];
      MessageBitsConcat(a, b[..|b| - 1]);
    }
  }
}
