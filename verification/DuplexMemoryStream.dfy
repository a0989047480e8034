/**
  DuplexMemoryStream (AK/MemoryStream.h): a queue of bytes kept in chunks of 4096 bytes (the
  source's chunk_size), of which the ones that were read are dropped.
 */
module DuplexMemoryStreams {
  import opened Common
  import opened MemMem

  /** Byte i of everything written, where the chunks hold it. */
  ghost predicate HeldAt(chunks: seq<seq<byte>>, base: nat, all: seq<byte>, i: int)
    requires base <= i < |all|
  {
    var k := (i - base) / 4096;
    k < |chunks| && |chunks[k]| == 4096 && chunks[k][(i - base) % 4096] == all[i]
  }

  /** The chunks hold everything written from base on, and there are no more of them than that takes. */
  ghost predicate Holds(chunks: seq<seq<byte>>, base: nat, all: seq<byte>) {
    && base % 4096 == 0 && base <= |all| <= base + 4096 * |chunks| < |all| + 4096
    && (forall k | 0 <= k < |chunks| :: |chunks[k]| == 4096)
    && (forall i | base <= i < |all| :: HeldAt(chunks, base, all, i))
  }

  /** A piece of a chunk is the same piece of everything written. */
  lemma Piece(chunks: seq<seq<byte>>, base: nat, all: seq<byte>, k: nat, start: nat, len: nat)
    requires Holds(chunks, base, all) && start + len <= 4096
    requires 0 < len && base + k * 4096 + start + len <= |all|
    ensures k < |chunks| && chunks[k][start..start + len] == all[base + k * 4096 + start..base + k * 4096 + start + len]
  {
    var from := base + k * 4096 + start;
    assert HeldAt(chunks, base, all, from) && (from - base) / 4096 == k;
    forall i | from <= i < from + len ensures all[i] == chunks[k][i - from + start] {
      assert HeldAt(chunks, base, all, i) && (i - base) / 4096 == k && (i - base) % 4096 == i - from + start;
    }
  }

  lemma PieceAt(chunks: seq<seq<byte>>, base: nat, all: seq<byte>, from: nat, len: nat)
    requires Holds(chunks, base, all) && base <= from && from % 4096 + len <= 4096 && 0 < len && from + len <= |all|
    ensures
      var k := (from - base) / 4096;
      k < |chunks| && chunks[k][from % 4096..from % 4096 + len] == all[from..from + len]
  {
    assert base + (from - base) / 4096 * 4096 + from % 4096 == from;
    Piece(chunks, base, all, (from - base) / 4096, from % 4096, len);
  }

  lemma DropFirst(chunks: seq<seq<byte>>, base: nat, all: seq<byte>)
    requires Holds(chunks, base, all) && base + 4096 <= |all|
    ensures chunks != [] && Holds(chunks[1..], base + 4096, all)
  {
    var rest, next := chunks[1..], base + 4096;
    forall i | next <= i < |all| ensures HeldAt(rest, next, all, i) {
      assert HeldAt(chunks, base, all, i);
      assert (i - base) / 4096 == (i - base - 4096) / 4096 + 1 && (i - base) % 4096 == (i - base - 4096) % 4096;
    }
  }

  /** The chunks after appending one where the last is full. */
  lemma Room(chunks: seq<seq<byte>>, base: nat, all: seq<byte>)
    requires Holds(chunks, base, all)
    ensures |all| % 4096 == 0 ==> |all| == base + 4096 * |chunks|
    ensures |all| % 4096 != 0 ==> chunks != [] && |all| == base + 4096 * (|chunks| - 1) + |all| % 4096
  {
  }

  /** Bytes put behind the others into the last chunk. */
  lemma Fill(chunks: seq<seq<byte>>, base: nat, all: seq<byte>, bytes: seq<byte>, filled: seq<byte>,
             more: seq<seq<byte>>)
    requires base % 4096 == 0 && base <= |all| && chunks != [] && forall k | 0 <= k < |chunks| :: |chunks[k]| == 4096
    requires forall i | base <= i < |all| :: HeldAt(chunks, base, all, i)
    requires
      var start := |all| - base - 4096 * (|chunks| - 1);
      && 0 <= start && 0 < |bytes| && start + |bytes| <= 4096
      && filled == chunks[|chunks| - 1][..start] + bytes + chunks[|chunks| - 1][start + |bytes|..]
    requires more == chunks[..|chunks| - 1] + [filled]
    ensures Holds(more, base, all + bytes)
  {
    forall i | base <= i < |all + bytes| ensures HeldAt(more, base, all + bytes, i) {
      if i < |all| {
        assert HeldAt(chunks, base, all, i);
      } else {
        assert (i - base) / 4096 == |chunks| - 1;
      }
    }
  }

  class DuplexMemoryStream {
    var chunks: seq<seq<byte>>
    var writeOffset: nat
    var readOffset: nat
    var baseOffset: nat
    var error: bool
    /** Everything ever written. */
    ghost var all: seq<byte>

    constructor ()
      ensures Valid() && all == [] && Unread() == [] && !error
    {
      chunks, writeOffset, readOffset, baseOffset, error, all := [], 0, 0, 0, false, [];
    }

    ghost predicate Layout()
      reads this
    {
      Holds(chunks, baseOffset, all) && baseOffset <= readOffset <= writeOffset == |all|
    }

    ghost predicate Valid()
      reads this
    {
      Layout() && readOffset < baseOffset + 4096
    }

    /** What was written and not yet read. */
    ghost function Unread(): seq<byte>
      requires Layout()
      reads this
    {
      all[readOffset..]
    }

    /** One copy of the write loop: as much as fits into the last chunk. */
    method WriteSome(bytes: seq<byte>) returns (count: nat)
      requires Layout() && bytes != []
      modifies this
      ensures Layout() && 0 < count <= |bytes| && all == old(all) + bytes[..count]
      ensures readOffset == old(readOffset) && baseOffset == old(baseOffset) && error == old(error)
    {
      Room(chunks, baseOffset, all);
      ghost var was := chunks;
      if writeOffset % 4096 == 0 {
        chunks := chunks + [seq(4096, _ => 0)];
      }
      forall i | baseOffset <= i < |all| ensures HeldAt(chunks, baseOffset, all, i) {
        assert HeldAt(was, baseOffset, all, i);
      }
      var start := writeOffset % 4096;
      count := Min(|bytes|, 4096 - start);
      var last := chunks[|chunks| - 1];
      var filled := last[..start] + bytes[..count] + last[start + count..];
      Fill(chunks, baseOffset, all, bytes[..count], filled, chunks[..|chunks| - 1] + [filled]);
      chunks := chunks[..|chunks| - 1] + [filled];
      all := all + bytes[..count];
      writeOffset := writeOffset + count;
    }

    method Write(bytes: seq<byte>) returns (count: nat)
      requires Valid()
      modifies this
      ensures Valid() && count == |bytes| && all == old(all) + bytes && Unread() == old(Unread()) + bytes
      ensures readOffset == old(readOffset) && error == old(error)
    {
      count := 0;
      while |bytes| - count > 0
        invariant count <= |bytes| && Valid() && all == old(all) + bytes[..count]
        invariant readOffset == old(readOffset) && error == old(error)
      {
        ghost var before := count;
        var some := WriteSome(bytes[count..]);
        count := count + some;
        assert bytes[..count] == bytes[..before] + bytes[before..][..some];
      }
      assert bytes[..count] == bytes;
    }

    /** One copy of the read loop: the rest of a chunk, but no more than is wanted or written. */
    method ReadSome(from: nat, size: nat) returns (bytes: seq<byte>)
      requires Valid() && readOffset <= from < writeOffset && size > 0
      ensures 0 < |bytes| <= size && from + |bytes| <= writeOffset && bytes == all[from..from + |bytes|]
    {
      var start := from % 4096;
      var len := Min(Min(4096 - start, writeOffset - from), size);
      PieceAt(chunks, baseOffset, all, from, len);
      bytes := chunks[(from - baseOffset) / 4096][start..start + len];
    }

    method ReadWithoutConsuming(size: nat) returns (bytes: seq<byte>)
      requires Valid()
      ensures bytes == Unread()[..Min(size, |Unread()|)]
    {
      bytes := [];
      while size - |bytes| > 0 && writeOffset - readOffset - |bytes| > 0
        invariant |bytes| <= Min(size, |Unread()|) && bytes == all[readOffset..readOffset + |bytes|]
        decreases size - |bytes|
      {
        var some := ReadSome(readOffset + |bytes|, size - |bytes|);
        Extend(all, readOffset, bytes, |some|);
        bytes := bytes + some;
      }
    }

    method TryDiscardChunks()
      requires Layout()
      modifies this
      ensures Valid() && all == old(all) && readOffset == old(readOffset) && error == old(error)
    {
      while readOffset - baseOffset >= 4096
        invariant Layout() && all == old(all) && readOffset == old(readOffset) && error == old(error)
      {
        DropFirst(chunks, baseOffset, all);
        chunks := chunks[1..];
        baseOffset := baseOffset + 4096;
      }
    }

    method Read(size: nat) returns (bytes: seq<byte>)
      requires Valid()
      modifies this
      ensures Valid() && all == old(all) && error == old(error)
      ensures bytes == if old(error) then [] else old(Unread())[..Min(size, |old(Unread())|)]
      ensures Unread() == old(Unread())[|bytes|..]
    {
      if error {
        return [];
      }
      bytes := ReadWithoutConsuming(size);
      readOffset := readOffset + |bytes|;
      TryDiscardChunks();
    }

    method DiscardOrError(count: nat) returns (ok: bool)
      requires Valid()
      modifies this
      ensures Valid() && all == old(all) && ok == (count <= |old(Unread())|) && error == (old(error) || !ok)
      ensures Unread() == if ok then old(Unread())[count..] else old(Unread())
    {
      if writeOffset - readOffset < count {
        error := true;
        return false;
      }
      readOffset := readOffset + count;
      TryDiscardChunks();
      return true;
    }

    /** The rest of a chunk from skip on, but no more than the bytes left to search. */
    method Span(index: nat, skip: nat, left: nat) returns (span: seq<byte>)
      requires Valid() && skip < 4096 && 0 < left <= writeOffset
        && writeOffset - left == baseOffset + index * 4096 + skip
      ensures |span| == Min(left, 4096 - skip) && span == all[writeOffset - left..writeOffset - left + |span|]
    {
      ghost var len := Min(left, 4096 - skip);
      Piece(chunks, baseOffset, all, index, skip, len);
      span := chunks[index];
      assert span[skip..][..len] == span[skip..skip + len];
      if skip != 0 {
        span := span[skip..];
      }
      if left < |span| {
        span := span[..left];
      }
    }

    /** The unread bytes as pieces of chunks. */
    method Spans() returns (spans: seq<seq<byte>>)
      requires Valid()
      ensures Concat(spans) == Unread()
    {
      spans := [];
      var index: nat := (readOffset - baseOffset) / 4096;
      var skip: nat := (readOffset - baseOffset) % 4096;
      var left: nat := writeOffset - readOffset;
      while left > 0
        invariant left <= writeOffset - readOffset && Concat(spans) == all[readOffset..writeOffset - left]
        invariant left > 0 ==> writeOffset - left == baseOffset + index * 4096 + skip && skip < 4096
      {
        var span := Span(index, skip, left);
        NextSpan(writeOffset - left, baseOffset, index, skip, left, |span|);
        skip := 0;
        ConcatMore(spans, span);
        Extend(all, readOffset, Concat(spans), |span|);
        spans := spans + [span];
        left := left - |span|;
        index := index + 1;
      }
    }

    /** offset_of: the first occurrence in the unread bytes. */
    method OffsetOf(value: seq<byte>) returns (r: Option<nat>)
      requires Valid() && value != []
      ensures IsFirst(Unread(), value, r)
    {
      var spans := Spans();
      r := MemMemChunks(spans, value);
    }
  }

  /** After the rest of a chunk comes the start of the next, unless nothing is left. */
  lemma NextSpan(from: nat, base: nat, index: nat, skip: nat, left: nat, len: nat)
    requires from == base + index * 4096 + skip && skip < 4096 && len == Min(left, 4096 - skip)
    ensures len < left ==> from + len == base + (index + 1) * 4096
  {
  }

  lemma Extend(all: seq<byte>, from: nat, bytes: seq<byte>, len: nat)
    requires from + |bytes| + len <= |all| && bytes == all[from..from + |bytes|]
    ensures bytes + all[from + |bytes|..from + |bytes| + len] == all[from..from + |bytes| + len]
    ensures all[from..][..|bytes| + len] == all[from..from + |bytes| + len]
  {
  }

  lemma ConcatMore(spans: seq<seq<byte>>, span: seq<byte>)
    ensures Concat(spans + [span]) == Concat(spans) + span
  {
    ConcatSplits(spans + [span], |spans|);
    assert (spans + [span])[..|spans|] == spans && (spans + [span])[|spans|..] == [span];
    assert Concat([span]) == span + Concat([]);
  }

  // ----- whole runs -----

  datatype Op = Write(bytes: seq<byte>) | Read(size: nat) | Discard(count: nat)

  function OpBytes(op: Op): seq<byte> { if op.Write? then op.bytes else [] }

  /** All that a run writes. */
  function Written(ops: seq<Op>): seq<byte> {
    if ops == [] then [] else OpBytes(ops[0]) + Written(ops[1..])
  }

  method Apply(op: Op, stream: DuplexMemoryStream) returns (taken: seq<byte>)
    requires stream.Valid()
    modifies stream
    ensures stream.Valid()
    ensures
      var bytes := OpBytes(op);
      stream.all == old(stream.all) + bytes && taken + stream.Unread() == old(stream.Unread()) + bytes
  {
    taken := [];
    match op
    case Write(bytes) =>
      var n := stream.Write(bytes);
    case Read(size) =>
      taken := stream.Read(size);
    case Discard(count) =>
      taken := Dropped(count, stream);
  }

  /** What a discard takes away. */
  method Dropped(count: nat, stream: DuplexMemoryStream) returns (taken: seq<byte>)
    requires stream.Valid()
    modifies stream
    ensures stream.Valid() && stream.all == old(stream.all) && taken + stream.Unread() == old(stream.Unread())
  {
    var ahead := stream.ReadWithoutConsuming(count);
    var ok := stream.DiscardOrError(count);
    return if ok then ahead else [];
  }

  lemma TakenMore(taken: seq<byte>, unread: seq<byte>, some: seq<byte>, after: seq<byte>, bytes: seq<byte>)
    requires some + after == unread + bytes
    ensures taken + unread + bytes == taken + some + after
  {
    assert taken + unread + bytes == taken + (unread + bytes);
  }

  /** One operation more, after some bytes were taken. */
  method Next(op: Op, stream: DuplexMemoryStream, before: seq<byte>) returns (taken: seq<byte>)
    requires stream.Valid() && stream.all == before + stream.Unread()
    modifies stream
    ensures stream.Valid() && stream.all == taken + stream.Unread()
    ensures stream.all == old(stream.all) + OpBytes(op)
  {
    ghost var unread := stream.Unread();
    var some := Apply(op, stream);
    TakenMore(before, unread, some, stream.Unread(), OpBytes(op));
    return before + some;
  }

  /** Whatever is read and discarded, in that order, is a prefix of what was written, and the rest is still there. */
  method Run(ops: seq<Op>, stream: DuplexMemoryStream, before: seq<byte>) returns (taken: seq<byte>)
    requires stream.Valid() && stream.all == before + stream.Unread()
    modifies stream
    ensures stream.Valid() && stream.all == old(stream.all) + Written(ops) && stream.all == taken + stream.Unread()
    decreases |ops|
  {
    if ops == [] {
      return before;
    }
    ghost var all := stream.all;
    taken := Next(ops[0], stream, before);
    assert all + OpBytes(ops[0]) + Written(ops[1..]) == all + (OpBytes(ops[0]) + Written(ops[1..]));
    taken := Run(ops[1..], stream, taken);
  }
}
