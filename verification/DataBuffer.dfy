/** A growing byte buffer. */
module DataBuffer {
  import opened Words
  import opened PowersOfTwo
  import opened Crc32
  import opened Crc32Tables
  import Crc32Slicing

  lemma Doubled(x: Word, y: Word)
    requires Less(x, y) && !Less(MAX_SIZE, y)
    ensures Value(x) < Value(y) && Value(Sum(x, x)) == 2 * Value(x)
  {
    hide Less, Sum, Value;
    ValueOrder(x, y);
    ValueOrder(MAX_SIZE, y);
    ValueOrder(MAX_SIZE, x);
    TwiceFits(x);
    ValueSum(x, x);
  }

  lemma ZeroValue(x: Word)
    ensures Value(x) == 0 <==> x == 0
  {
    hide Number, Below;
    NumberZero(64);
    ValueOrder(x, 0);
  }

  lemma ExtentOfSize(x: Word, y: Word)
    requires Less(x, y) && !Less(MAX_SIZE, y)
    ensures IsExtent(y)
  {
  }

  /** b is a, doubled any number of times. */
  ghost predicate DoubledFrom(a: nat, b: nat) {
    a == b || (a < b && b % 2 == 0 && DoubledFrom(a, b / 2))
  }

  lemma DoubledOnce(a: nat, b: nat)
    requires a > 0
    ensures DoubledFrom(a, a) && (DoubledFrom(a, b) ==> DoubledFrom(a, 2 * b))
  {
  }

  /** The capacity for a new size: unchanged if that fits, and otherwise doubled as often as needed, from
      the next power of two if there is none yet. */
  method Grown(capacity: Word, newSize: Word) returns (grown: Word)
    requires Value(newSize) <= Value(MAX_SIZE)
    ensures Value(newSize) <= Value(grown)
    ensures if Value(newSize) <= Value(capacity) then grown == capacity
            else 2 * Value(capacity) <= Value(grown) < 2 * Value(newSize)
    ensures capacity != 0 ==> DoubledFrom(Value(capacity), Value(grown))
    ensures capacity == 0 && newSize != 0 ==>
              grown == Upper(newSize) && (Within32(newSize) ==> LeastPower(grown, newSize))
  {
    hide Less, Sum, Value, Upper, Within32, IsExtent, LeastPower, DoubledFrom;
    ValueOrder(MAX_SIZE, newSize);
    ValueOrder(capacity, newSize);
    ZeroValue(capacity);
    ZeroValue(newSize);
    if Less(capacity, newSize) {
      ExtentOfSize(capacity, newSize);
      UpperLeast(newSize);
    }
    grown := capacity;
    if capacity != 0 {
      DoubledOnce(Value(capacity), Value(capacity));
    }
    while Less(grown, newSize)
      invariant grown == capacity || (Less(capacity, newSize) && Value(grown) < 2 * Value(newSize))
      invariant capacity == 0 ==> grown == 0 || grown == Upper(newSize)
      invariant capacity != 0 ==> grown == capacity || 2 * Value(capacity) <= Value(grown)
      invariant capacity != 0 ==> DoubledFrom(Value(capacity), Value(grown))
      decreases Value(newSize) - Value(grown)
    {
      ZeroValue(grown);
      ValueOrder(grown, newSize);
      if grown == 0 {
        grown := UpperPowerOfTwo(newSize);
      } else {
        Doubled(grown, newSize);
        if capacity != 0 {
          DoubledOnce(Value(capacity), Value(grown));
        }
        grown := Sum(grown, grown);
      }
    }
    ValueOrder(grown, newSize);
  }

  class DataBuffer {
    /** Null where nothing has been allocated, or an allocation failed. */
    var buffer: array?<byte>
    var capacity: Word
    var size: Word

    /** How many bytes reallocations have moved. */
    ghost var moved: nat

    ghost predicate Valid()
      reads this
    {
      && Value(size) <= Value(capacity) == (if buffer == null then 0 else buffer.Length)
      && (moved == 0 || moved < Value(capacity))
    }

    ghost function Contents(): seq<byte>
      requires Valid()
      reads this, buffer
    {
      if buffer == null then [] else buffer[..Value(size)]
    }

    constructor ()
      ensures Valid() && Contents() == [] && capacity == 0 && moved == 0
    {
      buffer := null;
      capacity, size, moved := 0, 0, 0;
      new;
      ZeroValue(0);
    }

    constructor WithCapacity(initialCapacity: Word)
      ensures Valid() && Contents() == [] && capacity == initialCapacity && moved == 0
    {
      buffer := new byte[Value(initialCapacity)];
      capacity, size, moved := initialCapacity, 0, 0;
      new;
      ZeroValue(0);
    }

    /** Takes over a full buffer. */
    constructor Wrapping(buffer: array<byte>, bufferSize: Word)
      requires Value(bufferSize) == buffer.Length
      ensures Valid() && this.buffer == buffer && Contents() == buffer[..] && capacity == bufferSize && moved == 0
    {
      this.buffer := buffer;
      capacity, size, moved := bufferSize, bufferSize, 0;
    }

    method Reset()
      requires Valid()
      modifies this`size
      ensures Valid() && Contents() == [] && capacity == old(capacity)
    {
      size := 0;
      ZeroValue(0);
    }

    /** Appends some bytes, growing the buffer if need be.  Growth leaves it less than twice as large as its
        contents, and all growth together moves fewer bytes than the capacity it ends with.  If the buffer
        must grow and that is not allocated, the call fails, and the contents are lost. */
    method AppendData(data: seq<byte>, length: Word, allocates: bool) returns (ok: bool)
      requires Valid() && Value(length) == |data| && Value(size) + |data| <= Value(MAX_SIZE)
      modifies this, buffer
      ensures ok <==> allocates || old(Value(size)) + |data| <= old(Value(capacity))
      ensures ok ==> Valid() && Contents() == old(Contents()) + data
      ensures !ok ==>
                && buffer == null && size == old(size) && capacity == old(capacity)
                && (Valid() <==> Value(capacity) == 0)
      ensures ok && Value(capacity) != old(Value(capacity)) ==>
                && buffer != null && fresh(buffer)
                && Value(capacity) < 2 * Value(size) && 2 * old(Value(capacity)) <= Value(capacity)
      ensures ok && Value(capacity) == old(Value(capacity)) ==> buffer == old(buffer)
      ensures ok && old(capacity) == 0 && size != 0 ==>
                capacity == Upper(size) && (Within32(size) ==> LeastPower(capacity, size))
      ensures ok && old(capacity) != 0 ==> DoubledFrom(old(Value(capacity)), Value(capacity))
      ensures moved <= old(moved) + old(Value(capacity))
    {
      hide Value, Upper, Within32, LeastPower, DoubledFrom;
      var newSize := AddLengths(size, length);
      var grown := Grown(capacity, newSize);
      ok := Reserve(grown, allocates);
      if ok {
        CopyTo(data, newSize);
      }
    }

    /** Puts some bytes for which there is room behind the contents. */
    method CopyTo(data: seq<byte>, newSize: Word)
      requires Valid() && Value(size) + |data| == Value(newSize) <= Value(capacity)
      modifies this`size, buffer
      ensures Valid() && size == newSize && Contents() == old(Contents()) + data
    {
      hide Value;
      var at := Value(size);
      forall i | 0 <= i < |data| {
        buffer[at + i] := data[i];
      }
      size := newSize;
    }

    /** Reallocates for a larger capacity, unless that is not allocated. */
    method Reserve(grown: Word, allocates: bool) returns (ok: bool)
      requires Valid() && (grown == capacity || (Value(size) <= Value(grown) && 2 * Value(capacity) <= Value(grown)))
      modifies this`buffer, this`capacity, this`moved
      ensures ok <==> allocates || grown == old(capacity)
      ensures ok ==> Valid() && capacity == grown && Contents() == old(Contents())
      ensures ok && grown == old(capacity) ==> buffer == old(buffer) && moved == old(moved)
      ensures ok && grown != old(capacity) ==>
                buffer != null && fresh(buffer) && moved == old(moved) + old(Value(capacity))
      ensures !ok ==> buffer == null && capacity == old(capacity) && moved == old(moved)
    {
      hide Value;
      ok := allocates || grown == capacity;
      if !ok {
        buffer := null;
      } else if grown != capacity {
        ValueOrder(capacity, grown);
        ZeroValue(capacity);
        var larger := new byte[Value(grown)];
        if buffer != null {
          forall i | 0 <= i < buffer.Length {
            larger[i] := buffer[i];
          }
          moved := moved + buffer.Length;
        }
        buffer, capacity := larger, grown;
      }
    }

    /** The checksum of the contents, by which the engine tells whether they changed. */
    method CalculateChecksum(order: ByteOrder) returns (crc: bv32)
      requires Valid()
      ensures crc == Checksum(Contents(), 0)
    {
      var bytes := if buffer == null then [] else buffer[..Value(size)];
      crc := Crc32Slicing.Bytes16(bytes, 0, order);
    }
  }

  method AddLengths(size: Word, length: Word) returns (sum: Word)
    requires Value(size) + Value(length) <= Value(MAX_SIZE)
    ensures Value(sum) == Value(size) + Value(length)
  {
    hide Value, Sum;
    TwiceFits(MAX_SIZE);
    ValueSum(size, length);
    sum := Sum(size, length);
  }
}
