/**
  OutputBitStream and InputBitStream (AK/BitStream.h) over memory streams of a fixed size
  (AK/MemoryStream.h).  A byte and a 32-bit value are sequences of bits, least significant
  first.
 */
module BitStreams {
  import opened Common
  import opened Bitmaps

  function Zeros(n: nat): (s: seq<bool>)
    ensures |s| == n && forall i | 0 <= i < n :: !s[i]
  {
    seq(n, _ => false)
  }

  // ----- the streams underneath -----

  /** OutputMemoryStream: write_or_error fails when the bytes do not fit. */
  class OutputMemoryStream {
    const capacity: nat
    var written: seq<Byte>
    var error: bool

    constructor (capacity: nat)
      ensures this.capacity == capacity && written == [] && !error
    {
      this.capacity, written, error := capacity, [], false;
    }

    method WriteOrError(bytes: seq<Byte>) returns (ok: bool)
      requires |written| <= capacity
      modifies this
      ensures |written| <= capacity && ok == (old(|written|) + |bytes| <= capacity)
      ensures written == (if ok then old(written) + bytes else old(written)) && error == (old(error) || !ok)
    {
      ok := capacity - |written| >= |bytes|;
      if ok {
        written := written + bytes;
      } else {
        error := true;
      }
    }
  }

  /** InputMemoryStream, one byte at a time. */
  class InputMemoryStream {
    const bytes: seq<Byte>
    var offset: nat
    var error: bool

    constructor (bytes: seq<Byte>)
      ensures this.bytes == bytes && offset == 0 && !error
    {
      this.bytes, offset, error := bytes, 0, false;
    }

    /** Reading into a byte leaves what was there when there is nothing to read. */
    method ReadOrError(was: Byte) returns (byte: Byte)
      requires offset <= |bytes|
      modifies this
      ensures offset <= |bytes|
      ensures if old(offset) < |bytes| then byte == bytes[old(offset)] && offset == old(offset) + 1
        && error == old(error)
              else byte == was && offset == old(offset) && error
    {
      byte := was;
      if |bytes| - offset < 1 {
        error := true;
      } else {
        byte := bytes[offset];
        offset := offset + 1;
      }
    }
  }

  lemma FlatJoins(a: seq<Byte>, b: seq<Byte>)
    ensures Flat(a + b) == Flat(a) + Flat(b)
  {
    forall i | 0 <= i < 8 * |a + b| ensures Flat(a + b)[i] == (Flat(a) + Flat(b))[i] {
      if i >= 8 * |a| {
        assert i / 8 - |a| == (i - 8 * |a|) / 8 && i % 8 == (i - 8 * |a|) % 8;
      }
    }
  }

  lemma FlatOne(b: Byte)
    ensures Flat([b]) == b
  {
    FlatByte([b], 0);
  }

  /** Eight bits of a value as a byte: a shift and a cast. */
  function ByteAt(value: Word, n: nat): Byte
    requires n + 8 <= 32
  {
    value[n..n + 8]
  }

  /** Whole bytes of a value, in the order a little-endian machine stores them. */
  function BytesAt(value: Word, n: nat, count: nat): (bytes: seq<Byte>)
    requires n + 8 * count <= 32
    ensures |bytes| == count
    decreases count
  {
    if count == 0 then [] else [ByteAt(value, n)] + BytesAt(value, n + 8, count - 1)
  }

  lemma {:induction false} FlatBytesAt(value: Word, n: nat, count: nat)
    requires n + 8 * count <= 32
    ensures Flat(BytesAt(value, n, count)) == value[n..n + 8 * count]
    decreases count
  {
    if count > 0 {
      FlatBytesAt(value, n + 8, count - 1);
      FlatJoins([ByteAt(value, n)], BytesAt(value, n + 8, count - 1));
      FlatOne(ByteAt(value, n));
      assert value[n..n + 8 * count] == value[n..n + 8] + value[n + 8..n + 8 * count];
    }
  }

  lemma MoreBits(bits: seq<bool>, value: Word, n: nat, k: nat)
    requires n + k <= 32
    ensures bits + value[..n] + value[n..n + k] == bits + value[..n + k]
    ensures k == 1 ==> value[n..n + k] == [value[n]]
  {
    assert value[..n + k] == value[..n] + value[n..n + k];
  }

  // ----- writing -----

  class OutputBitStream {
    const stream: OutputMemoryStream
    var nextByte: Option<Byte>
    var bitOffset: nat
    var fatal: bool

    constructor (stream: OutputMemoryStream)
      requires |stream.written| <= stream.capacity
      ensures this.stream == stream && Valid() && Started() && Bits() == Flat(stream.written) && !fatal
    {
      this.stream, nextByte, bitOffset, fatal := stream, None, 0, false;
    }

    /** The bits of the current byte that are not written yet are clear. */
    ghost predicate Valid()
      reads this, stream
    {
      && |stream.written| <= stream.capacity
      && (nextByte.Some? ==> bitOffset < 8 && forall i | bitOffset <= i < 8 :: !nextByte.value[i])
    }

    /** A pending byte has at least one bit. */
    ghost predicate Started()
      reads this
    {
      nextByte.Some? ==> bitOffset > 0
    }

    ghost function Pending(): seq<bool>
      requires Valid()
      reads this, stream
    {
      if nextByte.Some? then nextByte.value[..bitOffset] else []
    }

    /** Everything written so far. */
    ghost function Bits(): seq<bool>
      requires Valid()
      reads this, stream
    {
      Flat(stream.written) + Pending()
    }

    /** Whole bytes straight to the stream, when no byte is pending. */
    method PutBytes(value: Word, n: nat, count: nat)
      requires Valid() && nextByte.None? && n + 8 * count <= 32
      modifies stream
      ensures Valid() && nextByte.None? && (old(stream.error) ==> stream.error)
      ensures !stream.error ==> Bits() == old(Bits()) + value[n..n + 8 * count]
      ensures !old(stream.error) && |old(Bits())| + 8 * count <= 8 * stream.capacity ==> !stream.error
    {
      FlatJoins(stream.written, BytesAt(value, n, count));
      FlatBytesAt(value, n, count);
      var ok := stream.WriteOrError(BytesAt(value, n, count));
    }

    /** One bit into the pending byte. */
    method PutBit(bit: bool)
      requires Valid() && nextByte.Some?
      modifies this, stream
      ensures Valid() && (old(stream.error) ==> stream.error) && fatal == old(fatal)
      ensures !stream.error ==> Bits() == old(Bits()) + [bit] && Started()
      ensures !old(stream.error) && |old(Bits())| + 1 <= 8 * stream.capacity ==> !stream.error
    {
      var byte := nextByte.value;
      byte := byte[bitOffset := byte[bitOffset] || bit];
      nextByte := Some(byte);
      if bitOffset == 7 {
        FlatJoins(stream.written, [byte]);
        FlatOne(byte);
        assert byte == old(nextByte.value)[..7] + [bit];
        var ok := stream.WriteOrError([byte]);
        nextByte := None;
      } else {
        assert byte[..bitOffset + 1] == old(nextByte.value)[..bitOffset] + [bit];
      }
      bitOffset := bitOffset + 1;
    }

    /** write_bits: the low count bits of the value, on whatever path. */
    method WriteBits(value: Word, count: nat)
      requires Valid() && Started() && count <= 32
      modifies this, stream
      ensures Valid() && (!stream.error ==> Started()) && (old(stream.error) ==> stream.error)
      ensures !stream.error ==> Bits() == old(Bits()) + value[..count] && fatal == old(fatal)
      ensures !old(stream.error) && |old(Bits())| + count <= 8 * stream.capacity ==> !stream.error
    {
      if count == 32 && nextByte.None? {
        PutBytes(value, 0, 4);
        return;
      }
      ghost var bits := Bits();
      var n := 0;
      while n < count
        invariant n <= count && Valid() && (old(stream.error) ==> stream.error)
        invariant !stream.error ==> Bits() == bits + value[..n] && fatal == old(fatal) && (n == count ==> Started())
        invariant !old(stream.error) && |bits| + count <= 8 * stream.capacity ==> !stream.error
        decreases count - n, nextByte.None?
      {
        if stream.error {
          fatal := true;
          return;
        }
        if nextByte.Some? {
          MoreBits(bits, value, n, 1);
          PutBit(value[n]);
          n := n + 1;
        } else if count - n >= 16 {
          MoreBits(bits, value, n, 16);
          PutBytes(value, n, 2);
          n := n + 16;
        } else if count - n >= 8 {
          MoreBits(bits, value, n, 8);
          PutBytes(value, n, 1);
          n := n + 8;
        } else {
          bitOffset := 0;
          nextByte := Some(Zeros(8));
          assert Pending() == [];
        }
      }
    }

    /** The clear bits that fill up the last byte. */
    ghost function Padding(): seq<bool>
      requires Valid()
      reads this, stream
    {
      if nextByte.Some? then Zeros(8 - bitOffset) else []
    }

    method AlignToByteBoundary()
      requires Valid()
      modifies this, stream
      ensures Valid() && nextByte.None? && (old(stream.error) ==> stream.error)
      ensures !stream.error ==> Flat(stream.written) == old(Bits()) + old(Padding())
      ensures !old(stream.error) && |old(Bits())| <= 8 * stream.capacity && old(Started()) ==> !stream.error
    {
      if nextByte.Some? {
        FlatJoins(stream.written, [nextByte.value]);
        FlatOne(nextByte.value);
        assert nextByte.value == nextByte.value[..bitOffset] + Padding();
        var ok := stream.WriteOrError([nextByte.value]);
        if !ok {
          fatal := true;
        }
        nextByte := None;
      }
    }
  }

  // ----- reading -----

  /** One bit more of a result. */
  lemma AddBit(left: seq<bool>, n: nat)
    requires n < |left| && n < 32
    ensures (left[..n] + Zeros(32 - n))[n := left[n]] == left[..n + 1] + Zeros(32 - (n + 1))
  {
  }

  class InputBitStream {
    const stream: InputMemoryStream
    var nextByte: Option<Byte>
    var bitOffset: nat
    var fatal: bool

    constructor (stream: InputMemoryStream)
      requires stream.offset <= |stream.bytes|
      ensures this.stream == stream && Valid() && Left() == Flat(stream.bytes[stream.offset..]) && !fatal
    {
      this.stream, nextByte, bitOffset, fatal := stream, None, 0, false;
    }

    ghost predicate Valid()
      reads this, stream
    {
      stream.offset <= |stream.bytes| && (nextByte.Some? ==> bitOffset < 8)
    }

    /** The bits still to be read. */
    ghost function Left(): seq<bool>
      requires Valid()
      reads this, stream
    {
      (if nextByte.Some? then nextByte.value[bitOffset..] else []) + Flat(stream.bytes[stream.offset..])
    }

    /** The next bit of the current byte. */
    method TakeBit() returns (bit: bool)
      requires Valid() && nextByte.Some?
      modifies this
      ensures Valid() && old(Left()) != [] && bit == old(Left())[0] && Left() == old(Left())[1..] && fatal == old(fatal)
    {
      bit := nextByte.value[bitOffset];
      assert nextByte.value[bitOffset..] == [bit] + nextByte.value[bitOffset + 1..];
      if bitOffset == 7 {
        nextByte := None;
      }
      bitOffset := bitOffset + 1;
    }

    /** The next byte of the stream. */
    method Refill()
      requires Valid() && nextByte.None? && !stream.error
      modifies this, stream
      ensures Valid() && nextByte.Some? && fatal == old(fatal)
      ensures stream.error <==> old(Left()) == []
      ensures !stream.error ==> Left() == old(Left())
    {
      var rest := stream.bytes[stream.offset..];
      if rest != [] {
        assert rest == [rest[0]] + stream.bytes[stream.offset + 1..];
        FlatJoins([rest[0]], stream.bytes[stream.offset + 1..]);
        FlatOne(rest[0]);
      }
      var byte := stream.ReadOrError(Zeros(8));
      nextByte := Some(byte);
      bitOffset := 0;
    }

    /** The next bit, at position n of the result. */
    method AddNextBit(result: Word, n: nat, ghost left: seq<bool>) returns (more: Word)
      requires Valid() && nextByte.Some? && n < 32 && n <= |left| && Left() == left[n..]
        && result == left[..n] + Zeros(32 - n)
      modifies this
      ensures Valid() && n < |left| && Left() == left[n + 1..] && more == left[..n + 1] + Zeros(32 - (n + 1))
        && fatal == old(fatal)
    {
      var bit := TakeBit();
      AddBit(left, n);
      return result[n := result[n] || bit];
    }

    /**
      read_bits: the next count bits, or a fatal error and zero when there are not so many or the
      stream is in error already.
     */
    method ReadBits(count: nat) returns (result: Word)
      requires Valid() && count <= 32
      modifies this, stream
      ensures Valid() && (stream.error <==> old(stream.error) || |old(Left())| < count)
      ensures if (count > 0 && old(stream.error)) || |old(Left())| < count then fatal && result == Zeros(32)
              else
                && fatal == old(fatal) && result == old(Left())[..count] + Zeros(32 - count)
                && Left() == old(Left())[count..]
    {
      ghost var left := Left();
      result := Zeros(32);
      var n := 0;
      while n < count
        invariant n <= count && Valid() && fatal == old(fatal)
        invariant if stream.error && !old(stream.error) then |left| < count && nextByte.Some? && n < count
                  else n <= |left| && result == left[..n] + Zeros(32 - n) && Left() == left[n..]
        invariant old(stream.error) ==> stream.error && n == 0
        decreases count - n, nextByte.None?, !stream.error
      {
        if stream.error {
          fatal := true;
          return Zeros(32);
        }
        if nextByte.Some? {
          result := AddNextBit(result, n, left);
          n := n + 1;
        } else {
          Refill();
        }
      }
    }
  }

  // ----- round trip -----

  /** A value and how many of its low bits are written. */
  datatype Field = Field(value: Word, width: nat)

  predicate Widths(fields: seq<Field>) {
    forall i | 0 <= i < |fields| :: fields[i].width <= 32
  }

  function FieldBits(fields: seq<Field>): seq<bool>
    requires Widths(fields)
  {
    if fields == [] then [] else fields[0].value[..fields[0].width] + FieldBits(fields[1..])
  }

  lemma {:induction false} FieldBitsSplit(fields: seq<Field>, k: nat)
    requires Widths(fields) && k < |fields|
    ensures FieldBits(fields[..k + 1]) == FieldBits(fields[..k]) + fields[k].value[..fields[k].width]
    ensures FieldBits(fields[k..]) == fields[k].value[..fields[k].width] + FieldBits(fields[k + 1..])
    ensures |FieldBits(fields[..k])| <= 32 * k
  {
    if k > 0 {
      FieldBitsSplit(fields[1..], k - 1);
      assert fields[..k + 1][1..] == fields[1..][..k] && fields[..k][1..] == fields[1..][..k - 1];
      assert fields[k..] == fields[1..][k - 1..] && fields[k + 1..] == fields[1..][k..];
    } else {
      assert fields[..1][1..] == [] && fields[..0] == [] && fields[0..] == fields;
    }
  }

  lemma FirstOfThree(a: seq<bool>, b: seq<bool>, c: seq<bool>)
    ensures (a + b + c)[..|a|] == a && (a + b + c)[|a|..] == b + c
  {
  }

  /** value modulo 2^width. */
  function LowBits(field: Field): Word
    requires field.width <= 32
  {
    field.value[..field.width] + Zeros(32 - field.width)
  }

  method WriteFields(fields: seq<Field>) returns (bytes: seq<Byte>)
    requires Widths(fields)
    ensures FieldBits(fields) <= Flat(bytes) && |Flat(bytes)| < |FieldBits(fields)| + 8
  {
    var sink := new OutputMemoryStream(4 * |fields|);
    var writer := new OutputBitStream(sink);
    for k := 0 to |fields|
      invariant fresh(writer) && fresh(sink) && writer.stream == sink && sink.capacity == 4 * |fields|
      invariant !sink.error && writer.Valid() && writer.Started() && writer.Bits() == FieldBits(fields[..k])
        && |writer.Bits()| <= 32 * k
    {
      FieldBitsSplit(fields, k);
      writer.WriteBits(fields[k].value, fields[k].width);
    }
    assert fields[..|fields|] == fields;
    ghost var padding := writer.Padding();
    writer.AlignToByteBoundary();
    return sink.written;
  }

  method ReadField(reader: InputBitStream, fields: seq<Field>, k: nat, ghost padding: seq<bool>) returns (value: Word)
    requires Widths(fields) && k < |fields| && reader.Valid() && !reader.stream.error
    requires reader.Left() == FieldBits(fields[k..]) + padding
    modifies reader, reader.stream
    ensures reader.Valid() && !reader.stream.error && value == LowBits(fields[k])
    ensures reader.Left() == FieldBits(fields[k + 1..]) + padding
  {
    FieldBitsSplit(fields, k);
    FirstOfThree(fields[k].value[..fields[k].width], FieldBits(fields[k + 1..]), padding);
    value := reader.ReadBits(fields[k].width);
  }

  /** Fields written, aligned and read back with the same widths keep their low bits. */
  method RoundTrip(fields: seq<Field>) returns (values: seq<Word>)
    requires Widths(fields)
    ensures |values| == |fields| && forall k | 0 <= k < |fields| :: values[k] == LowBits(fields[k])
  {
    var bytes := WriteFields(fields);
    var source := new InputMemoryStream(bytes);
    var reader := new InputBitStream(source);
    assert bytes[0..] == bytes;
    values := [];
    ghost var padding := Flat(bytes)[|FieldBits(fields)|..];
    assert fields[0..] == fields;
    for k := 0 to |fields|
      invariant fresh(reader) && fresh(source) && reader.stream == source && !source.error && reader.Valid()
      invariant reader.Left() == FieldBits(fields[k..]) + padding
      invariant |values| == k && forall i | 0 <= i < k :: values[i] == LowBits(fields[i])
    {
      var value := ReadField(reader, fields, k, padding);
      values := values + [value];
    }
  }
}
