/** A message buffer of typed values, each aligned to its size, and raw bytes.  A value is its object
    representation, the bytes it occupies in memory.  Offsets are 32-bit and wrap round. */
module BinaryBuffer {
  type Bytes = seq<bv8>

  const OFFSET_LIMIT := 0x1_0000_0000

  /** sizeof(MessageHeader); all but its last four bytes are filled in. */
  const HEADER_SIZE := 48
  const HEADER_FIELDS := 44

  predicate IsSize(size: nat) { size == 1 || size == 2 || size == 4 || size == 8 }

  /** An exception, or what the call returns. */
  datatype Outcome<T> =
    | Done(value: T)
    | Overflow(offset: nat, dataSize: nat, bufferLength: nat)
    | StringTooLong(size: nat)

  /** The values of a `size_t`. */
  const SIZE_LIMIT := 0x1_0000_0000_0000_0000

  // ----- Offsets

  function Padding(offset: nat, size: nat): nat
    requires IsSize(size)
  {
    if offset % size > 0 then size - offset % size else 0
  }

  lemma PaddedToOne(offset: nat)
    ensures (offset + Padding(offset, 1)) % 1 == 0 && Padding(offset, 1) < 1
  {
  }

  lemma PaddedToTwo(offset: nat)
    ensures (offset + Padding(offset, 2)) % 2 == 0 && Padding(offset, 2) < 2
  {
  }

  lemma PaddedToFour(offset: nat)
    ensures (offset + Padding(offset, 4)) % 4 == 0 && Padding(offset, 4) < 4
  {
  }

  lemma PaddedToEight(offset: nat)
    ensures (offset + Padding(offset, 8)) % 8 == 0 && Padding(offset, 8) < 8
  {
  }

  /** The first multiple of the size from an offset on. */
  function Aligned(offset: nat, size: nat): (r: nat)
    requires IsSize(size)
    ensures r % size == 0 && offset <= r < offset + size
  {
    hide Padding;
    PaddedToOne(offset);
    PaddedToTwo(offset);
    PaddedToFour(offset);
    PaddedToEight(offset);
    offset + Padding(offset, size)
  }

  /** Where a value of some size goes, in 32 bits. */
  function Position(offset: nat, size: nat): (r: nat)
    requires IsSize(size)
    ensures r < OFFSET_LIMIT
  {
    Aligned(offset, size) % OFFSET_LIMIT
  }

  /** The offset after it, in 32 bits. */
  function Beyond(offset: nat, size: nat): (r: nat)
    requires IsSize(size)
    ensures r < OFFSET_LIMIT
  {
    (Aligned(offset, size) + size) % OFFSET_LIMIT
  }

  /** Below 2^32 the next aligned offset leaves room for the value, or is 2^32 itself. */
  lemma AlignedTop(offset: nat, size: nat)
    requires IsSize(size) && offset < OFFSET_LIMIT
    ensures if offset > OFFSET_LIMIT - size then Aligned(offset, size) == OFFSET_LIMIT
            else Aligned(offset, size) + size <= OFFSET_LIMIT
  {
  }

  /** Offsets stay as they are below 2^32, and turn to 0 there. */
  lemma Turn(offset: nat, size: nat)
    requires IsSize(size) && offset < OFFSET_LIMIT
    ensures if offset > OFFSET_LIMIT - size
            then Aligned(offset, size) == OFFSET_LIMIT && Position(offset, size) == 0 && Beyond(offset, size) == size
            else Aligned(offset, size) + size <= OFFSET_LIMIT && Position(offset, size) == Aligned(offset, size)
    ensures Aligned(offset, size) + size < OFFSET_LIMIT ==> Beyond(offset, size) == Aligned(offset, size) + size
    ensures Aligned(offset, size) + size == OFFSET_LIMIT ==> Beyond(offset, size) == 0
  {
    hide Aligned;
    AlignedTop(offset, size);
  }

  // ----- The buffer

  /** The bytes of the buffer, the length it was given (truncated to 32 bits) and the two offsets. */
  datatype Buffer = Buffer(bytes: Bytes, length: nat, writeOffset: nat, readOffset: nat)
  {
    predicate Valid() {
      length <= |bytes| && length < OFFSET_LIMIT && writeOffset < OFFSET_LIMIT && readOffset < OFFSET_LIMIT
    }

    /** The buffer with some bytes replaced. */
    function Stored(at: nat, data: Bytes): Bytes
      requires at + |data| <= |bytes|
    {
      bytes[..at] + data + bytes[at + |data|..]
    }

    /** `write`: the offset advances even when the value does not fit. */
    function Write(value: Bytes): (r: (Buffer, Outcome<()>))
      requires Valid() && IsSize(|value|)
      ensures r.0.Valid()
    {
      var at := Position(writeOffset, |value|);
      var after := this.(writeOffset := Beyond(writeOffset, |value|));
      if at + |value| > length then (after, Overflow(at, |value|, length))
      else (after.(bytes := Stored(at, value)), Done(()))
    }

    function Append(data: Bytes): (r: (Buffer, Outcome<()>))
      requires Valid()
      ensures r.0.Valid()
    {
      if writeOffset + |data| > length then (this, Overflow(writeOffset, |data|, length))
      else (this.(bytes := Stored(writeOffset, data), writeOffset := writeOffset + |data|), Done(()))
    }

    function Read(size: nat): (r: (Buffer, Outcome<Bytes>))
      requires Valid() && IsSize(size)
      ensures r.0.Valid()
    {
      var at := Position(readOffset, size);
      var after := this.(readOffset := Beyond(readOffset, size));
      if at + size > length then (after, Overflow(at, size, length))
      else (after, Done(bytes[at..at + size]))
    }

    /** `readSring`.  The end is computed in 64 bits; where that wraps round, no string is long enough. */
    function ReadString(size: nat): (r: (Buffer, Outcome<Bytes>))
      requires Valid() && size < SIZE_LIMIT
      ensures r.0.Valid()
    {
      if (readOffset + size) % SIZE_LIMIT > length then (this, Overflow(readOffset, size, length))
      else if readOffset + size >= SIZE_LIMIT then (this, StringTooLong(size))
      else (this.(readOffset := readOffset + size), Done(bytes[readOffset..readOffset + size]))
    }

    /** Storing changes the bytes it covers and no others. */
    lemma StoredAt(at: nat, data: Bytes, k: nat)
      requires at + |data| <= |bytes| && k < |bytes|
      ensures |Stored(at, data)| == |bytes|
      ensures Stored(at, data)[k] == if at <= k < at + |data| then data[k - at] else bytes[k]
    {
    }

    /** Just the strings that lie within the buffer are read. */
    lemma ReadStringSucceeds(size: nat)
      requires Valid() && size < SIZE_LIMIT
      ensures ReadString(size).1.Done? <==> readOffset + size <= length
      ensures !ReadString(size).1.Done? ==> ReadString(size).0 == this
      ensures ReadString(size).1.Done? ==>
                && readOffset + size <= |bytes| && ReadString(size).1.value == bytes[readOffset..readOffset + size]
                && ReadString(size).0 == this.(readOffset := readOffset + size)
    {
    }

    /** A typed read succeeds just where a write would, and then yields the bytes there; either way the read
        offset goes on behind them and nothing else changes. */
    lemma ReadSucceeds(size: nat)
      requires Valid() && IsSize(size)
      ensures var r := Read(size).1;
              && (r.Done? <==>
                    || Aligned(readOffset, size) + size <= length
                    || (readOffset > OFFSET_LIMIT - size && size <= length))
              && (r.Done? ==>
                    var at := if readOffset > OFFSET_LIMIT - size then 0 else Aligned(readOffset, size);
                    at + size <= |bytes| && r.value == bytes[at..at + size])
      ensures Read(size).0 == this.(readOffset := (Aligned(readOffset, size) + size) % OFFSET_LIMIT)
    {
      Turn(readOffset, size);
    }

    /** A typed write succeeds exactly when the value fits where it would be aligned, or when the aligned
        offset wraps round to the start of the buffer. */
    lemma WriteSucceeds(value: Bytes)
      requires Valid() && IsSize(|value|)
      ensures Write(value).1.Done? <==>
              || Aligned(writeOffset, |value|) + |value| <= length
              || (writeOffset > OFFSET_LIMIT - |value| && |value| <= length)
      ensures !Write(value).1.Done? ==> Write(value).0.bytes == bytes
      ensures Write(value).1.Done? ==>
                var at := if writeOffset > OFFSET_LIMIT - |value| then 0 else Aligned(writeOffset, |value|);
                at + |value| <= |bytes| && Write(value).0.bytes == Stored(at, value)
    {
      Turn(writeOffset, |value|);
    }
  }

  // ----- Lists of fields

  datatype Item = Value(bytes: Bytes) | Raw(bytes: Bytes)
  {
    predicate Valid() {
      if Value? then IsSize(|bytes|) else |bytes| < SIZE_LIMIT
    }

    /** Where the field starts, in unbounded arithmetic. */
    function Start(offset: nat): (r: nat)
      requires Valid()
      ensures offset <= r
    {
      if Value? then Aligned(offset, |bytes|) else offset
    }

    function End(offset: nat): (r: nat)
      requires Valid()
      ensures offset <= r
    {
      Start(offset) + |bytes|
    }
  }

  ghost predicate ValidItems(items: seq<Item>) {
    forall i | 0 <= i < |items| :: items[i].Valid()
  }

  /** Where the last field ends. */
  ghost function EndOf(offset: nat, items: seq<Item>): (r: nat)
    requires ValidItems(items)
    ensures offset <= r
    decreases |items|
  {
    if items == [] then offset else EndOf(items[0].End(offset), items[1..])
  }

  /** Where each field starts. */
  ghost function Starts(offset: nat, items: seq<Item>): (r: seq<nat>)
    requires ValidItems(items)
    ensures |r| == |items|
    decreases |items|
  {
    if items == [] then [] else [items[0].Start(offset)] + Starts(items[0].End(offset), items[1..])
  }

  /** Typed fields are aligned, no two fields overlap, and all lie between the first offset and the end. */
  lemma {:induction false} FieldsDisjoint(offset: nat, items: seq<Item>)
    requires ValidItems(items)
    ensures var starts := Starts(offset, items);
            && (forall i | 0 <= i < |items| ::
                  && offset <= starts[i] && starts[i] + |items[i].bytes| <= EndOf(offset, items)
                  && (items[i].Value? ==> starts[i] % |items[i].bytes| == 0))
            && (forall i, j | 0 <= i < j < |items| :: starts[i] + |items[i].bytes| <= starts[j])
    decreases |items|
  {
    if items == [] {
    } else {
      FieldsDisjoint(items[0].End(offset), items[1..]);
      var starts, rest := Starts(offset, items), Starts(items[0].End(offset), items[1..]);
      assert forall i | 1 <= i < |items| :: starts[i] == rest[i - 1] && items[i] == items[1..][i - 1];
    }
  }

  function WriteItem(b: Buffer, item: Item): (r: (Buffer, Outcome<()>))
    requires b.Valid() && item.Valid()
    ensures r.0.Valid()
  {
    if item.Value? then b.Write(item.bytes) else b.Append(item.bytes)
  }

  /** The buffer after a list of writes, and whether all of them succeeded. */
  ghost function WriteAll(b: Buffer, items: seq<Item>): (r: (Buffer, bool))
    requires b.Valid() && ValidItems(items)
    ensures r.0.Valid()
    decreases |items|
  {
    if items == [] then (b, true)
    else
      var first := WriteItem(b, items[0]);
      var rest := WriteAll(first.0, items[1..]);
      (rest.0, first.1.Done? && rest.1)
  }

  function ReadItem(b: Buffer, shape: Item): (r: (Buffer, Outcome<Bytes>))
    requires b.Valid() && shape.Valid()
    ensures r.0.Valid()
  {
    if shape.Value? then b.Read(|shape.bytes|) else b.ReadString(|shape.bytes|)
  }

  /** Whether reading fields of the shapes of the items, in order, returns just those items. */
  ghost predicate ReadsBack(b: Buffer, items: seq<Item>)
    requires b.Valid() && ValidItems(items)
    decreases |items|
  {
    items == [] ||
    var first := ReadItem(b, items[0]);
    first.1 == Done(items[0].bytes) && ReadsBack(first.0, items[1..])
  }

  /** What reading the fields one after the other yields. */
  function ReadAll(b: Buffer, items: seq<Item>): (r: seq<Outcome<Bytes>>)
    requires b.Valid() && ValidItems(items)
    decreases |items|
  {
    if items == [] then []
    else
      var first := ReadItem(b, items[0]);
      [first.1] + ReadAll(first.0, items[1..])
  }

  lemma {:induction false} ReadsBackAll(b: Buffer, items: seq<Item>)
    requires b.Valid() && ValidItems(items)
    ensures ReadsBack(b, items) <==>
            && |ReadAll(b, items)| == |items|
            && forall i | 0 <= i < |items| :: ReadAll(b, items)[i] == Done(items[i].bytes)
    decreases |items|
  {
    hide ReadItem;
    if items == [] {
    } else {
      var all, next := ReadAll(b, items), ReadItem(b, items[0]).0;
      ReadsBackAll(next, items[1..]);
      assert all == [ReadItem(b, items[0]).1] + ReadAll(next, items[1..]);
      assert forall i | 0 <= i < |items[1..]| :: items[1..][i] == items[i + 1];
      assert forall i | 0 < i < |all| :: all[i] == ReadAll(next, items[1..])[i - 1];
    }
  }

  /** A field that fits is written where it should be, and nothing else changes. */
  lemma WriteFits(b: Buffer, item: Item)
    requires b.Valid() && item.Valid() && item.End(b.writeOffset) <= b.length
    ensures var r := WriteItem(b, item);
            && r.1.Done? && r.0.writeOffset == item.End(b.writeOffset) && r.0.length == b.length
            && r.0.bytes == b.Stored(item.Start(b.writeOffset), item.bytes)
  {
    if item.Value? {
      Turn(b.writeOffset, |item.bytes|);
    }
  }

  lemma ReadFits(b: Buffer, item: Item)
    requires b.Valid() && item.Valid() && item.End(b.readOffset) <= b.length
    ensures var r, at := ReadItem(b, item), item.Start(b.readOffset);
            r == (b.(readOffset := item.End(b.readOffset)), Done(b.bytes[at..at + |item.bytes|]))
  {
    if item.Value? {
      Turn(b.readOffset, |item.bytes|);
    }
  }

  /** Writes that fit all succeed, end where they should, and keep what lies before them. */
  lemma {:induction false} WritesFit(b: Buffer, items: seq<Item>)
    requires b.Valid() && ValidItems(items) && EndOf(b.writeOffset, items) <= b.length
    ensures var r := WriteAll(b, items);
            && r.1 && r.0.writeOffset == EndOf(b.writeOffset, items)
            && r.0.length == b.length && |r.0.bytes| == |b.bytes| && r.0.readOffset == b.readOffset
            && r.0.bytes[..b.writeOffset] == b.bytes[..b.writeOffset]
            && r.0.bytes[r.0.writeOffset..] == b.bytes[r.0.writeOffset..]
    decreases |items|
  {
    if items == [] {
    } else {
      WriteFits(b, items[0]);
      var next := WriteItem(b, items[0]).0;
      WritesFit(next, items[1..]);
      var after := WriteAll(b, items).0;
      assert after.bytes[..b.writeOffset] == after.bytes[..next.writeOffset][..b.writeOffset];
      assert next.bytes[..next.writeOffset][..b.writeOffset] == b.bytes[..b.writeOffset];
      assert next.bytes[next.writeOffset..] == b.bytes[next.writeOffset..];
      LaterBytes(next.bytes, b.bytes, next.writeOffset, EndOf(b.writeOffset, items));
    }
  }

  lemma LaterBytes(a: Bytes, b: Bytes, from: nat, end: nat)
    requires |a| == |b| && from <= end <= |a| && a[from..] == b[from..]
    ensures a[end..] == b[end..]
  {
    assert a[end..] == a[from..][end - from..] && b[end..] == b[from..][end - from..];
  }

  lemma StoredKept(b: Buffer, at: nat, data: Bytes, after: Bytes)
    requires at + |data| <= |b.bytes| && |after| == |b.bytes|
    requires after[..at + |data|] == b.Stored(at, data)[..at + |data|]
    ensures after[at..at + |data|] == data
  {
  }

  /** Items that fit are read back by the same shapes in the same order, from where they were written. */
  lemma {:induction false} RoundTrip(b: Buffer, items: seq<Item>)
    requires b.Valid() && ValidItems(items) && EndOf(b.writeOffset, items) <= b.length
    ensures WriteAll(b, items).1 && ReadsBack(WriteAll(b, items).0.(readOffset := b.writeOffset), items)
    decreases |items|
  {
    hide WriteItem, ReadItem, Buffer.Stored, Item.Start;
    WritesFit(b, items);
    if items == [] {
    } else {
      var item := items[0];
      WriteFits(b, item);
      var next := WriteItem(b, item).0;
      WritesFit(next, items[1..]);
      var after := WriteAll(b, items).0.(readOffset := b.writeOffset);
      assert WriteAll(b, items).0 == WriteAll(next, items[1..]).0;
      StoredKept(b, item.Start(b.writeOffset), item.bytes, after.bytes);
      ReadFits(after, item);
      RoundTrip(next, items[1..]);
      assert ReadItem(after, item).0 == WriteAll(next, items[1..]).0.(readOffset := next.writeOffset);
    }
  }

  /** Away from the top of the 32-bit range, writes all succeed exactly when the fields fit. */
  lemma {:induction false} AllSucceedIffFit(b: Buffer, items: seq<Item>)
    requires b.Valid() && ValidItems(items) && b.writeOffset <= b.length <= OFFSET_LIMIT - 8
    ensures WriteAll(b, items).1 <==> EndOf(b.writeOffset, items) <= b.length
    decreases |items|
  {
    if items == [] {
    } else {
      if items[0].Value? {
        b.WriteSucceeds(items[0].bytes);
      }
      if items[0].End(b.writeOffset) <= b.length {
        WriteFits(b, items[0]);
        AllSucceedIffFit(WriteItem(b, items[0]).0, items[1..]);
      }
    }
  }

  /** The writes all succeed exactly when the fields fit. */
  ghost predicate SuccessMeansFit(b: Buffer, items: seq<Item>) {
    b.Valid() && ValidItems(items) && b.writeOffset <= b.length ==>
      (WriteAll(b, items).1 <==> EndOf(b.writeOffset, items) <= b.length)
  }

  /** And only there: in a longer buffer a last value can wrap round to its start. */
  lemma SuccessMeansFitIff(length: nat)
    requires length < OFFSET_LIMIT
    ensures (forall b: Buffer, items | b.length == length :: SuccessMeansFit(b, items)) <==> length <= OFFSET_LIMIT - 8
  {
    if length <= OFFSET_LIMIT - 8 {
      forall b: Buffer, items | b.length == length
        ensures SuccessMeansFit(b, items)
      {
        if b.Valid() && ValidItems(items) && b.writeOffset <= b.length {
          AllSucceedIffFit(b, items);
        }
      }
    } else {
      var b := Buffer(seq(length, _ => 0), length, length, 0);
      var items := [Value([0, 0, 0, 0, 0, 0, 0, 0])];
      b.WriteSucceeds(items[0].bytes);
      assert items[1..] == [];
      assert !SuccessMeansFit(b, items);
    }
  }

  // ----- After an overflow

  /** A typed write that overflows moves the offset beyond the buffer, unless it ends on a full turn. */
  lemma OverflowExhausts(b: Buffer, value: Bytes)
    requires b.Valid() && IsSize(|value|) && b.Write(value).1.Overflow?
    ensures b.Write(value).0.writeOffset > b.length <==> Aligned(b.writeOffset, |value|) + |value| != OFFSET_LIMIT
  {
    Turn(b.writeOffset, |value|);
  }

  /** How far the offset of an exhausted buffer moves: appends fail and leave it alone. */
  ghost function Drift(offset: nat, items: seq<Item>): (r: nat)
    requires ValidItems(items)
    ensures offset <= r
    decreases |items|
  {
    if items == [] then offset
    else Drift(if items[0].Value? then items[0].End(offset) else offset, items[1..])
  }

  ghost predicate AllFail(b: Buffer, items: seq<Item>)
    requires b.Valid() && ValidItems(items)
    decreases |items|
  {
    items == [] || (WriteItem(b, items[0]).1.Overflow? && AllFail(WriteItem(b, items[0]).0, items[1..]))
  }

  /** Once the offset is beyond the buffer every write fails and changes no byte, until the offset has
      gone round the 32-bit range. */
  lemma {:induction false} ExhaustedStaysSo(b: Buffer, items: seq<Item>)
    requires b.Valid() && ValidItems(items) && b.writeOffset > b.length && Drift(b.writeOffset, items) < OFFSET_LIMIT
    ensures AllFail(b, items)
    ensures WriteAll(b, items).0 == b.(writeOffset := Drift(b.writeOffset, items))
    decreases |items|
  {
    if items == [] {
    } else {
      if items[0].Value? {
        Turn(b.writeOffset, |items[0].bytes|);
      }
      ExhaustedStaysSo(WriteItem(b, items[0]).0, items[1..]);
    }
  }

  lemma {:induction false} DriftGrows(offset: nat, items: seq<Item>, n: nat)
    requires ValidItems(items) && n <= |items|
    ensures Drift(offset, items[..n]) <= Drift(offset, items)
    decreases |items|
  {
    if n == 0 {
    } else {
      assert items[..n][1..] == items[1..][..n - 1];
      DriftGrows(if items[0].Value? then items[0].End(offset) else offset, items[1..], n - 1);
    }
  }

  /** What is larger than the whole buffer never fits, wherever the offset stands. */
  lemma TooLargeFails(b: Buffer, item: Item)
    requires b.Valid() && item.Valid() && |item.bytes| > b.length
    ensures WriteItem(b, item).1.Overflow?
  {
  }

  /** The offset after a field that failed, in unbounded arithmetic. */
  function Passed(offset: nat, item: Item): (r: nat)
    requires item.Valid()
    ensures offset <= r
  {
    if item.Value? then item.End(offset) else offset
  }

  lemma RestByTwo(k: nat, r: nat)
    requires r < 2
    ensures (2 * k + r) % 2 == r
  {
  }

  lemma RestByFour(k: nat, r: nat)
    requires r < 4
    ensures (4 * k + r) % 4 == r
  {
  }

  lemma RestByEight(k: nat, r: nat)
    requires r < 8
    ensures (8 * k + r) % 8 == r
  {
  }

  /** A full turn is a multiple of every size. */
  lemma RoundBySize(offset: nat)
    ensures (offset % OFFSET_LIMIT) % 2 == offset % 2
    ensures (offset % OFFSET_LIMIT) % 4 == offset % 4
    ensures (offset % OFFSET_LIMIT) % 8 == offset % 8
  {
    var q, o := offset / OFFSET_LIMIT, offset % OFFSET_LIMIT;
    RestByTwo(q * 0x8000_0000 + o / 2, o % 2);
    RestByFour(q * 0x4000_0000 + o / 4, o % 4);
    RestByEight(q * 0x2000_0000 + o / 8, o % 8);
  }

  /** Aligning commutes with going round. */
  lemma RoundAligned(offset: nat, size: nat)
    requires IsSize(size)
    ensures Aligned(offset % OFFSET_LIMIT, size) - offset % OFFSET_LIMIT == Aligned(offset, size) - offset
  {
    RoundBySize(offset);
    PaddingOfRest(offset % OFFSET_LIMIT, offset, size);
  }

  lemma PaddingOfRest(a: nat, b: nat, size: nat)
    requires IsSize(size) && a % 2 == b % 2 && a % 4 == b % 4 && a % 8 == b % 8
    ensures Padding(a, size) == Padding(b, size)
  {
  }

  /** A field that could fit at all fails at an offset, given in unbounded arithmetic, unless that is a full
      turn or the field passes one. */
  predicate FailsAt(offset: nat, item: Item)
    requires item.Valid()
  {
    offset % OFFSET_LIMIT != 0 && (item.Value? ==> offset % OFFSET_LIMIT + |item.bytes| <= OFFSET_LIMIT)
  }

  /** One write, at an offset that is 0 or beyond the buffer. */
  lemma FailsIff(b: Buffer, offset: nat, item: Item)
    requires b.Valid() && item.Valid()
    requires b.writeOffset == offset % OFFSET_LIMIT && (b.writeOffset == 0 || b.writeOffset > b.length)
    ensures var r := WriteItem(b, item);
            && (r.1.Overflow? <==> |item.bytes| > b.length || FailsAt(offset, item))
            && (r.1.Overflow? ==>
                  && r.0.length == b.length && r.0.writeOffset == Passed(offset, item) % OFFSET_LIMIT
                  && (r.0.writeOffset == 0 || r.0.writeOffset > b.length))
  {
    if item.Value? {
      ValueFailsIff(b, item.bytes);
      hide Buffer.Write, Aligned;
      RoundAligned(offset, |item.bytes|);
      RoundPlus(offset, item.End(offset) - offset);
    }
  }

  lemma ValueFailsIff(b: Buffer, value: Bytes)
    requires b.Valid() && IsSize(|value|) && (b.writeOffset == 0 || b.writeOffset > b.length)
    ensures var r, end := b.Write(value), Aligned(b.writeOffset, |value|) + |value|;
            && (r.1.Overflow? <==>
                  |value| > b.length || (b.writeOffset != 0 && b.writeOffset + |value| <= OFFSET_LIMIT))
            && r.1 != StringTooLong(0) && r.0.length == b.length && r.0.writeOffset == end % OFFSET_LIMIT
            && (r.1.Overflow? ==> r.0.writeOffset == 0 || r.0.writeOffset > b.length)
  {
    hide Aligned;
    Turn(b.writeOffset, |value|);
  }

  lemma RoundPlus(offset: nat, n: nat)
    ensures (offset % OFFSET_LIMIT + n) % OFFSET_LIMIT == (offset + n) % OFFSET_LIMIT
  {
  }

  /** Exactly when all later writes fail, for every list of fields. */
  ghost predicate NoneFits(offset: nat, items: seq<Item>, length: nat)
    requires ValidItems(items)
  {
    forall i | 0 <= i < |items| && |items[i].bytes| <= length :: FailsAt(Drift(offset, items[..i]), items[i])
  }

  lemma NoneFitsNext(offset: nat, items: seq<Item>, length: nat)
    requires ValidItems(items) && items != []
    ensures NoneFits(offset, items, length) <==>
            && (|items[0].bytes| > length || FailsAt(offset, items[0]))
            && NoneFits(Passed(offset, items[0]), items[1..], length)
  {
    hide FailsAt, Passed;
    var item, rest, next := items[0], items[1..], Passed(offset, items[0]);
    assert items[..0] == [] && Drift(offset, items[..0]) == offset;
    forall i | 0 < i < |items|
      ensures Drift(offset, items[..i]) == Drift(next, rest[..i - 1]) && items[i] == rest[i - 1]
    {
      DriftNext(offset, items, i);
    }
    if NoneFits(offset, items, length) {
      forall i | 0 <= i < |rest| && |rest[i].bytes| <= length
        ensures FailsAt(Drift(next, rest[..i]), rest[i])
      {
        assert FailsAt(Drift(offset, items[..i + 1]), items[i + 1]);
      }
    }
  }

  lemma DriftNext(offset: nat, items: seq<Item>, i: nat)
    requires ValidItems(items) && 0 < i <= |items|
    ensures Drift(offset, items[..i]) == Drift(Passed(offset, items[0]), items[1..][..i - 1])
  {
    assert items[..i][1..] == items[1..][..i - 1];
  }

  /** From an offset that is 0 or beyond the buffer, all writes of a list fail exactly when none of its fields
      that could fit at all comes to stand on, or passes, a full turn. */
  lemma {:induction false} AllFailExactly(b: Buffer, offset: nat, items: seq<Item>)
    requires b.Valid() && ValidItems(items)
    requires b.writeOffset == offset % OFFSET_LIMIT && (b.writeOffset == 0 || b.writeOffset > b.length)
    ensures AllFail(b, items) <==> NoneFits(offset, items, b.length)
    decreases |items|
  {
    hide NoneFits, FailsAt, Passed, WriteItem;
    if items == [] {
      NothingFits(offset, b.length);
    } else {
      FailsIff(b, offset, items[0]);
      NoneFitsNext(offset, items, b.length);
      if WriteItem(b, items[0]).1.Overflow? {
        AllFailExactly(WriteItem(b, items[0]).0, Passed(offset, items[0]), items[1..]);
      }
    }
  }

  lemma NothingFits(offset: nat, length: nat)
    ensures NoneFits(offset, [], length)
  {
  }

  /** Where all fields could fit, it is enough to look at the last: the offset has not gone round before it,
      and does not pass the round with it. */
  lemma {:induction false} NoneFitsIff(offset: nat, items: seq<Item>, length: nat)
    requires ValidItems(items) && items != [] && 0 < offset < OFFSET_LIMIT
    requires forall i | 0 <= i < |items| :: |items[i].bytes| <= length
    ensures NoneFits(offset, items, length) <==>
            Drift(offset, items[..|items| - 1]) < OFFSET_LIMIT && Drift(offset, items) <= OFFSET_LIMIT
    decreases |items|
  {
    hide NoneFits, Aligned;
    var item, rest, next := items[0], items[1..], Passed(offset, items[0]);
    NoneFitsNext(offset, items, length);
    if rest == [] {
      NothingFits(next, length);
      FirstFails(offset, item);
      assert items[..0] == [] && items == [item];
    } else {
      DriftNext(offset, items, |items| - 1);
      FirstFails(offset, item);
      if next < OFFSET_LIMIT {
        NoneFitsIff(next, rest, length);
      } else {
        DriftGrows(next, rest, |rest| - 1);
        TurnedFits(next, rest, length);
      }
    }
  }

  /** Before the first turn a field fails unless it passes the turn. */
  lemma FirstFails(offset: nat, item: Item)
    requires item.Valid() && 0 < offset < OFFSET_LIMIT
    ensures FailsAt(offset, item) <==> Passed(offset, item) <= OFFSET_LIMIT
    ensures item.Raw? ==> Passed(offset, item) == offset
  {
    if item.Value? {
      AlignedTop(offset, |item.bytes|);
    }
  }

  /** On a full turn whatever comes fits; and beyond one, drift is beyond it. */
  lemma TurnedFits(offset: nat, items: seq<Item>, length: nat)
    requires ValidItems(items) && items != [] && |items[0].bytes| <= length && offset >= OFFSET_LIMIT
    ensures Drift(offset, items[..|items| - 1]) >= OFFSET_LIMIT
    ensures offset == OFFSET_LIMIT ==> !NoneFits(offset, items, length)
  {
    assert items[..0] == [] && Drift(offset, items[..0]) == offset;
    DriftGrows(offset, items[..|items| - 1], 0);
    assert items[..|items| - 1][..0] == [];
  }

  /** After an overflow all later fields fail exactly when none that could fit at all comes to stand on, or
      passes, a full turn of the offset.  Where all could fit, that is when the offset has not gone round
      before the last of them and does not pass the round with it. */
  lemma AllFailIff(b: Buffer, items: seq<Item>)
    requires b.Valid() && ValidItems(items) && (b.writeOffset == 0 || b.writeOffset > b.length)
    ensures AllFail(b, items) <==> NoneFits(b.writeOffset, items, b.length)
    ensures b.writeOffset > 0 && items != [] && (forall i | 0 <= i < |items| :: |items[i].bytes| <= b.length) ==>
              (AllFail(b, items) <==> Drift(b.writeOffset, items[..|items| - 1]) < OFFSET_LIMIT
                                      && Drift(b.writeOffset, items) <= OFFSET_LIMIT)
  {
    assert b.writeOffset == b.writeOffset % OFFSET_LIMIT;
    hide NoneFits, AllFail, Drift;
    AllFailExactly(b, b.writeOffset, items);
    if b.writeOffset > 0 && items != [] && forall i | 0 <= i < |items| :: |items[i].bytes| <= b.length {
      NoneFitsIff(b.writeOffset, items, b.length);
    }
  }

  /** A failing write that brings the offset round to 0 opens the buffer again: the next value that could
      fit at all overwrites the header. */
  lemma ExhaustionWraps(b: Buffer, value: Bytes, next: Bytes)
    requires b.Valid() && IsSize(|value|) && IsSize(|next|) && |next| <= b.length < b.writeOffset
    requires Aligned(b.writeOffset, |value|) + |value| == OFFSET_LIMIT
    ensures var failed := b.Write(value);
            && failed.1.Overflow?
            && failed.0.Write(next).1.Done? && failed.0.Write(next).0.bytes == b.Stored(0, next)
  {
    Turn(b.writeOffset, |value|);
  }

  // ----- The buffer in place

  class BinaryBuffer {
    const content: array<bv8>
    const length: nat
    var writeOffset: nat
    var readOffset: nat

    ghost function View(): Buffer
      reads this, content
    {
      Buffer(content[..], length, writeOffset, readOffset)
    }

    ghost predicate Valid()
      reads this, content
    {
      View().Valid()
    }

    /** A buffer to fill: its header is written, and fields come after it. */
    constructor (content: array<bv8>, header: Bytes)
      requires content.Length >= HEADER_SIZE && |header| == HEADER_FIELDS
      modifies content
      ensures Valid() && this.content == content && length == content.Length % OFFSET_LIMIT
      ensures writeOffset == readOffset == HEADER_SIZE
      ensures content[..] == header + old(content[HEADER_FIELDS..])
    {
      this.content, length := content, content.Length % OFFSET_LIMIT;
      writeOffset, readOffset := HEADER_SIZE, HEADER_SIZE;
      new;
      forall i | 0 <= i < HEADER_FIELDS {
        content[i] := header[i];
      }
    }

    /** A buffer received. */
    constructor Received(content: array<bv8>)
      ensures Valid() && this.content == content && length == content.Length % OFFSET_LIMIT
      ensures writeOffset == readOffset == 0
    {
      this.content, length := content, content.Length % OFFSET_LIMIT;
      writeOffset, readOffset := 0, 0;
    }

    method Store(at: nat, data: Bytes)
      requires Valid() && at + |data| <= content.Length
      modifies content
      ensures content[..] == old(View()).Stored(at, data)
    {
      forall i | 0 <= i < |data| {
        content[at + i] := data[i];
      }
    }

    method Write(value: Bytes) returns (outcome: Outcome<()>)
      requires Valid() && IsSize(|value|)
      modifies this`writeOffset, content
      ensures Valid() && (View(), outcome) == old(View()).Write(value)
    {
      var at := NextWriteOffset(|value|);
      if at + |value| > length {
        return Overflow(at, |value|, length);
      }
      Store(at, value);
      outcome := Done(());
    }

    method Append(data: Bytes) returns (outcome: Outcome<()>)
      requires Valid()
      modifies this`writeOffset, content
      ensures Valid() && (View(), outcome) == old(View()).Append(data)
    {
      if writeOffset + |data| > length {
        return Overflow(writeOffset, |data|, length);
      }
      Store(writeOffset, data);
      writeOffset := writeOffset + |data|;
      outcome := Done(());
    }

    method Read(size: nat) returns (outcome: Outcome<Bytes>)
      requires Valid() && IsSize(size)
      modifies this`readOffset
      ensures Valid() && (View(), outcome) == old(View()).Read(size)
    {
      var at := NextReadOffset(size);
      if at + size > length {
        return Overflow(at, size, length);
      }
      outcome := Done(content[at..at + size]);
    }

    method ReadString(size: nat) returns (outcome: Outcome<Bytes>)
      requires Valid() && size < SIZE_LIMIT
      modifies this`readOffset
      ensures Valid() && (View(), outcome) == old(View()).ReadString(size)
    {
      if (readOffset + size) % SIZE_LIMIT > length {
        return Overflow(readOffset, size, length);
      }
      if readOffset + size >= SIZE_LIMIT {
        return StringTooLong(size);
      }
      outcome := Done(content[readOffset..readOffset + size]);
      readOffset := readOffset + size;
    }

    method ResetReadOffset()
      requires Valid()
      modifies this`readOffset
      ensures Valid() && View() == old(View()).(readOffset := HEADER_SIZE)
    {
      readOffset := HEADER_SIZE;
    }

    method NextWriteOffset(size: nat) returns (position: nat)
      requires IsSize(size)
      modifies this`writeOffset
      ensures position == Position(old(writeOffset), size) && writeOffset == Beyond(old(writeOffset), size)
    {
      var padding := if writeOffset % size > 0 then size - writeOffset % size else 0;
      position := (writeOffset + padding) % OFFSET_LIMIT;
      writeOffset := (writeOffset + size + padding) % OFFSET_LIMIT;
    }

    method NextReadOffset(size: nat) returns (position: nat)
      requires IsSize(size)
      modifies this`readOffset
      ensures position == Position(old(readOffset), size) && readOffset == Beyond(old(readOffset), size)
    {
      var padding := if readOffset % size > 0 then size - readOffset % size else 0;
      position := (readOffset + padding) % OFFSET_LIMIT;
      readOffset := (readOffset + size + padding) % OFFSET_LIMIT;
    }
  }
}
