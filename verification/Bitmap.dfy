/**
  BitmapView (AK/BitmapView.h): a bitmap over bytes, counted, painted and searched a byte
  or a 32-bit word at a time.  A byte and a word are sequences of bits, least significant
  first; words are read little-endian.
 */
module Bitmaps {
  import opened Common

  type Byte = b: seq<bool> | |b| == 8 witness seq(8, _ => false)

  type Word = w: seq<bool> | |w| == 32 witness seq(32, _ => false)

  // ----- bits of a byte array -----

  /** All the bits of some bytes, in the order `get` numbers them. */
  function Flat(bytes: seq<Byte>): (s: seq<bool>)
    ensures |s| == 8 * |bytes|
  {
    seq(8 * |bytes|, i requires 0 <= i < 8 * |bytes| => bytes[i / 8][i % 8])
  }

  lemma FlatByte(bytes: seq<Byte>, k: nat)
    requires k < |bytes|
    ensures Flat(bytes)[8 * k..8 * k + 8] == bytes[k]
  {
    forall o | 0 <= o < 8 ensures Flat(bytes)[8 * k + o] == bytes[k][o] {
      assert (8 * k + o) / 8 == k && (8 * k + o) % 8 == o;
    }
  }

  /** The word read at byte offset k. */
  function Load(bytes: seq<Byte>, k: nat): Word
    requires k + 4 <= |bytes|
  {
    var b0: seq<bool>, b1: seq<bool>, b2: seq<bool>, b3: seq<bool> := bytes[k], bytes[k + 1], bytes[k + 2],
      bytes[k + 3];
    b0 + b1 + b2 + b3
  }

  lemma FlatWord(bytes: seq<Byte>, k: nat)
    requires k + 4 <= |bytes|
    ensures Flat(bytes)[8 * k..8 * k + 32] == Load(bytes, k)
  {
    var s := Flat(bytes);
    FlatByte(bytes, k);
    FlatByte(bytes, k + 1);
    FlatByte(bytes, k + 2);
    FlatByte(bytes, k + 3);
    assert s[8 * k..8 * k + 32]
      == s[8 * k..8 * k + 8] + s[8 * k + 8..8 * k + 16] + s[8 * k + 16..8 * k + 24] + s[8 * k + 24..8 * k + 32];
  }

  lemma ByteBit(bytes: seq<Byte>, k: nat, o: nat)
    requires k < |bytes| && o < 8
    ensures Flat(bytes)[k * 8 + o] == bytes[k][o]
  {
    FlatByte(bytes, k);
    assert Flat(bytes)[8 * k + o] == Flat(bytes)[8 * k..8 * k + 8][o];
  }

  lemma WordBit(bytes: seq<Byte>, k: nat, o: nat)
    requires k + 4 <= |bytes| && o < 32
    ensures Flat(bytes)[k * 8 + o] == Load(bytes, k)[o]
  {
    FlatWord(bytes, k);
    assert Flat(bytes)[8 * k + o] == Flat(bytes)[8 * k..8 * k + 32][o];
  }

  function And(a: Byte, b: Byte): Byte { seq(8, i requires 0 <= i < 8 => a[i] && b[i]) }

  function Or(a: Byte, b: Byte): Byte { seq(8, i requires 0 <= i < 8 => a[i] || b[i]) }

  function Not(a: Byte): Byte { seq(8, i requires 0 <= i < 8 => !a[i]) }

  /** bitmask_first_byte[n]: the bits from n up. */
  function FromBit(n: nat): Byte { seq(8, i requires 0 <= i < 8 => n <= i) }

  /** bitmask_last_byte[n]: the bits below n. */
  function BelowBit(n: nat): Byte { seq(8, i requires 0 <= i < 8 => i < n) }

  // ----- counting -----

  function Count(s: seq<bool>, value: bool): nat {
    if s == [] then 0 else (if s[0] == value then 1 else 0) + Count(s[1..], value)
  }

  lemma {:induction false} CountSplits(a: seq<bool>, b: seq<bool>, value: bool)
    ensures Count(a + b, value) == Count(a, value) + Count(b, value)
  {
    if a == [] {
      assert a + b == b;
    } else {
      CountSplits(a[1..], b, value);
      assert (a + b)[1..] == a[1..] + b;
    }
  }

  lemma CountJoins(s: seq<bool>, a: nat, b: nat, c: nat, value: bool)
    requires a <= b <= c <= |s|
    ensures Count(s[a..c], value) == Count(s[a..b], value) + Count(s[b..c], value)
  {
    assert s[a..c] == s[a..b] + s[b..c];
    CountSplits(s[a..b], s[b..c], value);
  }

  /** Three parts in a row; the middle one may be empty. */
  lemma CountThree(s: seq<bool>, a: nat, b: nat, c: nat, d: nat)
    requires a <= b <= c <= d <= |s|
    ensures Count(s[a..d], true) == Count(s[a..b], true) + Count(s[b..c], true) + Count(s[c..d], true)
    ensures b == c ==> Count(s[b..c], true) == 0
  {
    CountJoins(s, a, b, d, true);
    CountJoins(s, b, c, d, true);
  }

  /** Part of a byte. */
  lemma ByteSlice(bytes: seq<Byte>, k: nat, lo: nat, hi: nat)
    requires k < |bytes| && lo <= hi <= 8
    ensures 8 * k + hi <= |Flat(bytes)| && bytes[k][lo..hi] == Flat(bytes)[8 * k + lo..8 * k + hi]
  {
    FlatByte(bytes, k);
    assert Flat(bytes)[8 * k + lo..8 * k + hi] == Flat(bytes)[8 * k..8 * k + 8][lo..hi];
  }

  lemma CountByte(bytes: seq<Byte>, first: nat, k: nat)
    requires first <= k < |bytes|
    ensures Count(Flat(bytes)[8 * first..8 * (k + 1)], true) ==
      Count(Flat(bytes)[8 * first..8 * k], true) + Count(bytes[k], true)
  {
    FlatByte(bytes, k);
    CountJoins(Flat(bytes), 8 * first, 8 * k, 8 * k + 8, true);
  }

  lemma CountWord(bytes: seq<Byte>, first: nat, k: nat)
    requires first <= k && k + 4 <= |bytes|
    ensures Count(Flat(bytes)[8 * first..8 * (k + 4)], true) ==
      Count(Flat(bytes)[8 * first..8 * k], true) + Count(Load(bytes, k), true)
  {
    FlatWord(bytes, k);
    CountJoins(Flat(bytes), 8 * first, 8 * k, 8 * k + 32, true);
  }

  lemma {:induction false} CountNone(s: seq<bool>)
    requires forall i | 0 <= i < |s| :: !s[i]
    ensures Count(s, true) == 0
  {
    if s != [] {
      CountNone(s[1..]);
    }
  }

  lemma {:induction false} CountBoth(s: seq<bool>)
    ensures Count(s, true) + Count(s, false) == |s|
  {
    if s != [] {
      CountBoth(s[1..]);
    }
  }

  /** Counting the bits left by a mask is counting the part of the byte it selects. */
  lemma CountMasked(b: Byte, masked: Byte, lo: nat, hi: nat)
    requires lo <= hi <= 8 && forall i | 0 <= i < 8 :: masked[i] == (b[i] && lo <= i < hi)
    ensures Count(masked, true) == Count(b[lo..hi], true)
  {
    assert masked == masked[..lo] + masked[lo..hi] + masked[hi..];
    CountSplits(masked[..lo] + masked[lo..hi], masked[hi..], true);
    CountSplits(masked[..lo], masked[lo..hi], true);
    CountNone(masked[..lo]);
    CountNone(masked[hi..]);
    assert masked[lo..hi] == b[lo..hi];
  }

  // ----- painting -----

  /** s with the bits from a to b set to value. */
  function Painted(s: seq<bool>, a: nat, b: nat, value: bool): (r: seq<bool>)
    ensures |r| == |s|
  {
    seq(|s|, i requires 0 <= i < |s| => if a <= i < b then value else s[i])
  }

  /** Byte k of a painted bitmap. */
  function PaintedByte(b: Byte, k: nat, start: nat, end: nat, value: bool): Byte {
    seq(8, o requires 0 <= o < 8 => if start <= 8 * k + o < end then value else b[o])
  }

  lemma PaintedBytes(was: seq<Byte>, now: seq<Byte>, start: nat, end: nat, value: bool)
    requires |was| == |now| && forall k | 0 <= k < |was| :: now[k] == PaintedByte(was[k], k, start, end, value)
    ensures Flat(now) == Painted(Flat(was), start, end, value)
  {
    forall i | 0 <= i < 8 * |was| ensures Flat(now)[i] == Painted(Flat(was), start, end, value)[i] {
      assert now[i / 8] == PaintedByte(was[i / 8], i / 8, start, end, value);
      assert 8 * (i / 8) + i % 8 == i;
    }
  }

  lemma InBytePainted(was: seq<Byte>, now: seq<Byte>, start: nat, end: nat, value: bool)
    requires start < end && start / 8 == end / 8 < |was|
    requires now == was[start / 8 := PaintedByte(was[start / 8], start / 8, start, end, value)]
    ensures Flat(now) == Painted(Flat(was), start, end, value)
  {
    PaintedBytes(was, now, start, end, value);
  }

  lemma AcrossPainted(was: seq<Byte>, now: seq<Byte>, start: nat, end: nat, value: bool)
    requires start / 8 < end / 8 < |was| == |now|
    requires now[start / 8] == PaintedByte(was[start / 8], start / 8, start, end, value)
    requires now[end / 8] == PaintedByte(was[end / 8], end / 8, start, end, value)
    requires forall k | start / 8 < k < end / 8 :: now[k] == seq(8, _ => value)
    requires forall k | 0 <= k < |was| && (k < start / 8 || k > end / 8) :: now[k] == was[k]
    ensures Flat(now) == Painted(Flat(was), start, end, value)
  {
    forall k | 0 <= k < |was| ensures now[k] == PaintedByte(was[k], k, start, end, value) {
      if start / 8 < k < end / 8 {
        assert start < 8 * k && 8 * k + 8 <= end;
      }
    }
    PaintedBytes(was, now, start, end, value);
  }

  function Apply(b: Byte, mask: Byte, value: bool): Byte {
    if value then Or(b, mask) else And(b, Not(mask))
  }

  /** The VERIFY of set_range: no bit under the mask has the value yet. */
  predicate Flips(b: Byte, mask: Byte, value: bool) {
    And(b, mask) == if value then seq(8, _ => false) else mask
  }

  lemma FlipsMeans(b: Byte, mask: Byte, value: bool)
    ensures Flips(b, mask, value) <==> forall o | 0 <= o < 8 && mask[o] :: b[o] != value
  {
    if Flips(b, mask, value) {
      forall o | 0 <= o < 8 && mask[o] ensures b[o] != value {
        assert And(b, mask)[o] == b[o];
      }
    }
  }

  lemma ApplyPaints(b: Byte, mask: Byte, k: nat, start: nat, end: nat, value: bool)
    requires forall o | 0 <= o < 8 :: mask[o] <==> start <= 8 * k + o < end
    ensures Apply(b, mask, value) == PaintedByte(b, k, start, end, value)
  {
  }

  /** The bits of one byte that a range covers all differ from value. */
  predicate ByteFlips(s: seq<bool>, k: nat, start: nat, end: nat, value: bool) {
    forall i | 8 * k <= i < 8 * k + 8 && start <= i < end && i < |s| :: s[i] != value
  }

  lemma FlipsByte(bytes: seq<Byte>, mask: Byte, k: nat, start: nat, end: nat, value: bool)
    requires k < |bytes| && forall o | 0 <= o < 8 :: mask[o] <==> start <= 8 * k + o < end
    ensures Flips(bytes[k], mask, value) <==> ByteFlips(Flat(bytes), k, start, end, value)
  {
    var s := Flat(bytes);
    FlipsMeans(bytes[k], mask, value);
    forall o | 0 <= o < 8 ensures s[8 * k + o] == bytes[k][o] {
      assert (8 * k + o) / 8 == k && (8 * k + o) % 8 == o;
    }
    if ByteFlips(s, k, start, end, value) {
      forall o | 0 <= o < 8 && mask[o] ensures bytes[k][o] != value {
        assert s[8 * k + o] != value;
      }
    } else {
      var i :| 8 * k <= i < 8 * k + 8 && start <= i < end && i < |s| && s[i] == value;
      assert mask[i - 8 * k] && bytes[k][i - 8 * k] == value;
    }
  }

  /** The VERIFYs of set_range look at the first and the last byte. */
  predicate EdgesFlip(s: seq<bool>, start: nat, end: nat, value: bool) {
    ByteFlips(s, start / 8, start, end, value) && ByteFlips(s, end / 8, start, end, value)
  }

  predicate AllFlip(s: seq<bool>, start: nat, end: nat, value: bool) {
    forall i | start <= i < end && i < |s| :: s[i] != value
  }

  /** They ensure that all bits flip exactly for the ranges with no byte between the two. */
  lemma VerifyExact(start: nat, end: nat, value: bool)
    requires start < end
    ensures (forall s: seq<bool> | |s| >= end :: EdgesFlip(s, start, end, value) <==> AllFlip(s, start, end, value))
            <==> end / 8 <= start / 8 + 1
  {
    if end / 8 <= start / 8 + 1 {
      forall s: seq<bool> | |s| >= end && EdgesFlip(s, start, end, value) ensures AllFlip(s, start, end, value) {
        forall i | start <= i < end && i < |s| ensures s[i] != value {
          assert i / 8 == start / 8 || i / 8 == end / 8;
        }
      }
    } else {
      var middle := 8 * (start / 8 + 1);
      var s := seq(end, i => if middle <= i < middle + 8 then value else !value);
      assert s[middle] == value;
      assert !AllFlip(s, start, end, value) && EdgesFlip(s, start, end, value);
    }
  }

  // ----- runs of unset bits -----

  /** n unset bits in a row from s, among the first size bits. */
  predicate Fits(bits: seq<bool>, size: nat, s: int, n: nat) {
    0 <= s && s + n <= size <= |bits| && forall i | s <= i < s + n :: !bits[i]
  }

  /** No start from o on and before s. */
  ghost predicate NoFitFrom(bits: seq<bool>, size: nat, o: int, s: int, n: nat) {
    forall k | o <= k < s :: !Fits(bits, size, k, n)
  }

  /** Where a search from o stands at bit p: free unset bits end there, and no earlier start is left. */
  ghost predicate Scanned(bits: seq<bool>, size: nat, o: nat, p: nat, free: nat, from: nat, n: nat) {
    && o <= p - free && p <= size <= |bits|
    && (forall i | p - free <= i < p :: !bits[i])
    && NoFitFrom(bits, size, o, p - free, n)
    && (free > 0 ==> from == p - free)
    && (n == 0 && free == 0 ==> p == o)
  }

  /** k more unset bits. */
  lemma ScanUnset(bits: seq<bool>, size: nat, o: nat, p: nat, free: nat, from: nat, n: nat, k: nat)
    requires Scanned(bits, size, o, p, free, from, n) && p + k <= size && forall i | p <= i < p + k :: !bits[i]
    requires n == 0 ==> k > 0 || free > 0
    ensures Scanned(bits, size, o, p + k, free + k, if free == 0 then p else from, n)
  {
  }

  lemma SetBitBlocks(bits: seq<bool>, size: nat, s: int, n: nat, i: int)
    requires 0 <= i < |bits| && bits[i] && s <= i < s + n
    ensures !Fits(bits, size, s, n)
  {
  }

  /** k set bits, at least one. */
  lemma ScanSet(bits: seq<bool>, size: nat, o: nat, p: nat, free: nat, from: nat, n: nat, k: nat)
    requires Scanned(bits, size, o, p, free, from, n) && free < n
    requires 0 < k && p + k <= size && forall i | p <= i < p + k :: bits[i]
    ensures Scanned(bits, size, o, p + k, 0, from, n)
  {
    forall s | p - free <= s < p + k ensures !Fits(bits, size, s, n) {
      SetBitBlocks(bits, size, s, n, if s < p then p else s);
    }
  }

  predicate IsZero(w: Word) { forall i | 0 <= i < 32 :: !w[i] }

  predicate IsOnes(w: Word) { forall i | 0 <= i < 32 :: w[i] }

  function ShiftRight(w: Word, k: nat): Word
    requires k <= 32
  {
    w[k..] + seq(k, _ => false)
  }

  function Inverted(w: Word): Word { seq(32, i requires 0 <= i < 32 => !w[i]) }

  /** The position of the least set bit: count_trailing_zeroes_32, ffs - 1, ffsl - 1. */
  function TrailingZeroes(s: seq<bool>): (n: nat)
    requires exists i | 0 <= i < |s| :: s[i]
    ensures n < |s| && s[n] && forall i | 0 <= i < n :: !s[i]
  {
    if s[0] then 0 else
      assert forall i | 0 < i < |s| :: s[i] == s[1..][i - 1];
      assert forall i | 1 <= i < |s| && s[i] :: s[1..][i - 1];
      1 + TrailingZeroes(s[1..])
  }

  /** What is left of a bucket, as bits of the map. */
  lemma BucketBits(bytes: seq<Byte>, index: nat, viewed: nat)
    requires 4 * index + 4 <= |bytes| && viewed <= 32
    ensures forall p | 32 * index + viewed <= p < 32 * index + 32 ::
              Flat(bytes)[p] == ShiftRight(Load(bytes, 4 * index), viewed)[p - 32 * index - viewed]
  {
    FlatWord(bytes, 4 * index);
    forall p | 32 * index + viewed <= p < 32 * index + 32
      ensures Flat(bytes)[p] == ShiftRight(Load(bytes, 4 * index), viewed)[p - 32 * index - viewed]
    {
      assert Flat(bytes)[p] == Flat(bytes)[32 * index..32 * index + 32][p - 32 * index];
    }
  }

  lemma ShiftTwice(w: Word, a: nat, b: nat)
    requires a + b <= 32
    ensures ShiftRight(ShiftRight(w, a), b) == ShiftRight(w, a + b)
  {
  }

  /** Below a bucket's first set bit there is a set bit to shift out and an unset bit to stop at. */
  lemma OnesEnd(word: Word, bucket: Word, viewed: nat)
    requires viewed < 32 && bucket == ShiftRight(word, viewed) && bucket[0] && !IsOnes(word)
    ensures exists i | 0 <= i < 32 :: Inverted(bucket)[i]
    ensures
      var ones := TrailingZeroes(Inverted(bucket));
      0 < ones <= 32 - viewed && forall i | 0 <= i < ones :: bucket[i]
  {
    if viewed > 0 {
      assert Inverted(bucket)[32 - viewed];
    } else {
      var i :| 0 <= i < 32 && !word[i];
      assert Inverted(bucket)[i];
    }
    var ones := TrailingZeroes(Inverted(bucket));
    assert !Inverted(bucket)[0];
    forall i | 0 <= i < ones ensures bucket[i] {
      assert !Inverted(bucket)[i];
    }
  }

  /** Unset bits inside a bucket. */
  lemma ScanZeroes(bytes: seq<Byte>, size: nat, o: nat, index: nat, viewed: nat, free: nat, from: nat, n: nat, k: nat)
    requires 4 * index + 4 <= |bytes| && viewed < 32 && viewed + k <= 32 && 32 * index + 32 <= size
    requires Scanned(Flat(bytes), size, o, 32 * index + viewed, free, from, n)
    requires forall i | 0 <= i < k :: !ShiftRight(Load(bytes, 4 * index), viewed)[i]
    ensures
      var start := if free == 0 then 32 * index + viewed else from;
      && start == 32 * index + viewed - free
      && (k > 0 || n > 0 || free > 0 ==> Scanned(Flat(bytes), size, o, 32 * index + viewed + k, free + k, start, n))
      && (forall i | start <= i < start + free + k :: !Flat(bytes)[i]) && NoFitFrom(Flat(bytes), size, o, start, n)
  {
    BucketBits(bytes, index, viewed);
    if k > 0 || n > 0 || free > 0 {
      ScanUnset(Flat(bytes), size, o, 32 * index + viewed, free, from, n, k);
    }
  }

  /** Set bits inside a bucket. */
  lemma ScanOnes(bytes: seq<Byte>, size: nat, o: nat, index: nat, viewed: nat, free: nat, from: nat, n: nat, k: nat)
    requires 4 * index + 4 <= |bytes| && 0 < k && viewed + k <= 32 && 32 * index + 32 <= size
    requires Scanned(Flat(bytes), size, o, 32 * index + viewed, free, from, n) && free < n
    requires forall i | 0 <= i < k :: ShiftRight(Load(bytes, 4 * index), viewed)[i]
    ensures Scanned(Flat(bytes), size, o, 32 * index + viewed + k, 0, from, n)
  {
    BucketBits(bytes, index, viewed);
    ScanSet(Flat(bytes), size, o, 32 * index + viewed, free, from, n, k);
  }

  // ----- the view -----

  predicate HasBit(s: seq<bool>, value: bool) {
    exists o | 0 <= o < |s| :: s[o] == value
  }

  /** How find_one_anywhere can end; PastData is a read outside the bytes of the bitmap. */
  datatype Search = Found(bit: nat) | Missing | VerifyFailed | PastData

  class BitmapView {
    const data: array<Byte>
    const size: nat
    /** The address of the first byte. */
    const address: nat

    /** The byte holding bit `size` is part of the data: the range operations touch it. */
    ghost predicate Valid() {
      size / 8 < data.Length
    }

    constructor (data: array<Byte>, size: nat, address: nat)
      requires size / 8 < data.Length
      ensures Valid() && this.data == data && this.size == size && this.address == address
    {
      this.data, this.size, this.address := data, size, address;
    }

    ghost function Bits(): seq<bool>
      reads data
    {
      Flat(data[..])
    }

    predicate Get(i: nat)
      requires Valid() && i < size
      reads data
      ensures Get(i) == Bits()[i]
    {
      data[i / 8][i % 8]
    }

    method Set(i: nat, value: bool)
      requires Valid() && i < size
      modifies data
      ensures Bits() == old(Bits())[i := value]
    {
      ghost var was := data[..];
      var mask: Byte := seq(8, o requires 0 <= o < 8 => o == i % 8);
      data[i / 8] := Apply(data[i / 8], mask, value);
      forall k | 0 <= k < data.Length ensures data[k] == PaintedByte(was[k], k, i, i + 1, value) {
        if k == i / 8 {
          ApplyPaints(was[k], mask, k, i, i + 1, value);
        }
      }
      PaintedBytes(was, data[..], i, i + 1, value);
    }

    /** The least word boundary not below byte k. */
    function AlignUp(k: nat): (r: int)
      ensures k <= r < k + 4 && (address + r) % 4 == 0
    {
      (address + k + 3) / 4 * 4 - address
    }

    function AlignDown(k: int): (r: int)
      ensures k - 4 < r <= k && (address + r) % 4 == 0
    {
      (address + k) / 4 * 4 - address
    }

    /** The set bits of whole bytes, byte by byte. */
    method CountByBytes(first: nat, last: nat) returns (count: nat)
      requires first <= last <= data.Length
      ensures count == Count(Bits()[8 * first..8 * last], true)
    {
      count := 0;
      for k := first to last
        invariant count == Count(Bits()[8 * first..8 * k], true)
      {
        CountByte(data[..], first, k);
        count := count + Count(data[k], true);
      }
    }

    /** The same by words; last is a whole number of words further on. */
    method CountByWords(first: nat, last: nat) returns (count: nat)
      requires first <= last <= data.Length && (last - first) % 4 == 0
      ensures count == Count(Bits()[8 * first..8 * last], true)
    {
      count := 0;
      var word := first;
      while word < last
        invariant first <= word <= last && (last - word) % 4 == 0
        invariant count == Count(Bits()[8 * first..8 * word], true)
      {
        CountWord(data[..], first, word);
        count := count + Count(Load(data[..], word), true);
        word := word + 4;
      }
    }

    /** The whole bytes of a range: up to a word boundary, then by words, then the rest. */
    method CountBytes(first: nat, last: nat) returns (count: nat)
      requires first < last <= data.Length
      ensures count == Count(Bits()[8 * first..8 * last], true)
    {
      var word := AlignUp(first);
      if word > last {
        word := last;
      }
      count := CountByBytes(first, word);
      var last32 := AlignDown(last);
      if word < last32 {
        var words := CountByWords(word, last32);
        CountJoins(Bits(), 8 * first, 8 * word, 8 * last32, true);
        count := count + words;
        word := last32;
      }
      var rest := CountByBytes(word, last);
      CountJoins(Bits(), 8 * first, 8 * word, 8 * last, true);
      count := count + rest;
    }

    /** The set bits of a non-empty range. */
/** The bits from start to the end of its byte. */
    method CountHead(start: nat) returns (count: nat)
      requires Valid() && start < size
      ensures count == Count(Bits()[start..8 * (start / 8) + 8], true)
    {
      var first := start / 8;
      var masked := And(data[first], FromBit(start % 8));
      CountMasked(data[first], masked, start % 8, 8);
      ByteSlice(data[..], first, start % 8, 8);
      count := Count(masked, true);
    }

    /** The bits before end in its byte. */
    method CountTail(end: nat) returns (count: nat)
      requires Valid() && end <= size
      ensures count == Count(Bits()[8 * (end / 8)..end], true)
    {
      var last := end / 8;
      var masked := And(data[last], BelowBit(end % 8));
      CountMasked(data[last], masked, 0, end % 8);
      ByteSlice(data[..], last, 0, end % 8);
      count := Count(masked, true);
    }

    /** The bits from start to end in one byte. */
    method CountWithin(start: nat, end: nat) returns (count: nat)
      requires Valid() && start < end <= size && start / 8 == end / 8
      ensures count == Count(Bits()[start..end], true)
    {
      var first := start / 8;
      var masked := And(And(data[first], FromBit(start % 8)), BelowBit(end % 8));
      CountMasked(data[first], masked, start % 8, end % 8);
      ByteSlice(data[..], first, start % 8, end % 8);
      count := Count(masked, true);
    }

    method CountSet(start: nat, end: nat) returns (count: nat)
      requires Valid() && start < end <= size
      ensures count == Count(Bits()[start..end], true)
    {
      var first, last := start / 8, end / 8;
      if first == last {
        count := CountWithin(start, end);
        return;
      }
      var head := CountHead(start);
      var tail := CountTail(end);
      var inner := 0;
      if first + 1 < last {
        inner := CountBytes(first + 1, last);
      }
      CountThree(Bits(), start, 8 * first + 8, 8 * last, end);
      return head + inner + tail;
    }

    /** count_in_range, at any alignment of the data. */
    method CountInRange(start: nat, len: nat, value: bool) returns (count: nat)
      requires Valid() && start < size && start + len <= size
      ensures count == Count(Bits()[start..start + len], value)
    {
      if len == 0 {
        return 0;
      }
      count := CountSet(start, start + len);
      CountBoth(Bits()[start..start + len]);
      if !value {
        count := len - count;
      }
    }

    /** set_range.  ok is false when a VERIFY fails. */
    method SetRange(start: nat, len: nat, value: bool, verify: bool) returns (ok: bool)
      requires Valid() && start < size && start + len <= size
      modifies data
      ensures ok ==> Bits() == Painted(old(Bits()), start, start + len, value)
      ensures ok <==> (verify ==> EdgesFlip(old(Bits()), start, start + len, value))
    {
      ghost var was := data[..];
      var end := start + len;
      if len == 0 {
        assert Painted(Flat(was), start, end, value) == Flat(was);
        return true;
      }
      if start / 8 == end / 8 {
        ok := SetInByte(start, end, value, verify);
      } else {
        ok := SetAcross(start, end, value, verify);
      }
    }

    /** A range inside one byte. */
    method SetInByte(start: nat, end: nat, value: bool, verify: bool) returns (ok: bool)
      requires Valid() && start < end <= size && start / 8 == end / 8
      modifies data
      ensures ok ==> Bits() == Painted(old(Bits()), start, end, value)
      ensures ok <==> (verify ==> EdgesFlip(old(Bits()), start, end, value))
    {
      ghost var was := data[..];
      var k := start / 8;
      var mask := And(FromBit(start % 8), BelowBit(end % 8));
      FlipsByte(was, mask, k, start, end, value);
      ApplyPaints(was[k], mask, k, start, end, value);
      ok := PaintEdge(k, mask, value, verify);
      if ok {
        InBytePainted(was, data[..], start, end, value);
      }
    }

    /** A range over several bytes: the two at its ends under masks, those between as a whole. */
    method SetAcross(start: nat, end: nat, value: bool, verify: bool) returns (ok: bool)
      requires Valid() && start < end <= size && start / 8 < end / 8
      modifies data
      ensures ok ==> Bits() == Painted(old(Bits()), start, end, value)
      ensures ok <==> (verify ==> EdgesFlip(old(Bits()), start, end, value))
    {
      ghost var was := data[..];
      var first, last := start / 8, end / 8;
      FlipsByte(was, FromBit(start % 8), first, start, end, value);
      ApplyPaints(was[first], FromBit(start % 8), first, start, end, value);
      FlipsByte(was, BelowBit(end % 8), last, start, end, value);
      ApplyPaints(was[last], BelowBit(end % 8), last, start, end, value);
      ok := PaintEdge(first, FromBit(start % 8), value, verify);
      if !ok {
        return;
      }
      ok := PaintEdge(last, BelowBit(end % 8), value, verify);
      if ok {
        FillBytes(first + 1, last, value);
        AcrossPainted(was, data[..], start, end, value);
      }
    }

    /** The masked bits of one byte, after the VERIFY if asked for. */
    method PaintEdge(k: nat, mask: Byte, value: bool, verify: bool) returns (ok: bool)
      requires k < data.Length
      modifies data
      ensures ok <==> (verify ==> Flips(old(data[k]), mask, value))
      ensures data[..] == if ok then old(data[..])[k := Apply(old(data[k]), mask, value)] else old(data[..])
    {
      if verify && !Flips(data[k], mask, value) {
        return false;
      }
      data[k] := Apply(data[k], mask, value);
      return true;
    }

    /** memset over whole bytes. */
    method FillBytes(first: nat, last: nat, value: bool)
      requires first <= last <= data.Length
      modifies data
      ensures forall k | 0 <= k < data.Length ::
        data[k] == if first <= k < last then seq(8, _ => value) else old(data[k])
    {
      for k := first to last
        invariant forall j | 0 <= j < data.Length ::
          data[j] == if first <= j < k then seq(8, _ => value) else old(data[j])
      {
        data[k] := seq(8, _ => value);
      }
    }

    /** No bit from lo to hi has the value. */
    ghost predicate NoneIn(lo: nat, hi: nat, value: bool)
      requires hi <= 8 * data.Length
      reads data
    {
      forall k | lo <= k < hi :: Bits()[k] != value
    }

    /** The first byte from i on that has a bit of the value. */
    method ScanBytes(i0: nat, count: nat, value: bool) returns (i: nat)
      requires i0 <= count <= data.Length
      ensures i0 <= i <= count && NoneIn(8 * i0, 8 * i, value)
      ensures i < count ==> HasBit(data[i], value)
    {
      i := i0;
      var byte: Byte := seq(8, _ => !value);
      while i < count && data[i] == byte
        invariant i0 <= i <= count && NoneIn(8 * i0, 8 * i, value)
      {
        FlatByte(data[..], i);
        forall k | 8 * i <= k < 8 * i + 8 ensures Bits()[k] != value {
          assert Bits()[8 * i..8 * i + 8][k - 8 * i] == byte[k - 8 * i];
        }
        i := i + 1;
      }
      if i < count {
        var o :| 0 <= o < 8 && data[i][o] != byte[o];
      }
    }

    /** The first word from byte p on that has a bit of the value. */
    method ScanWords(p0: nat, end: nat, value: bool) returns (p: nat)
      requires p0 <= end <= data.Length && (end - p0) % 4 == 0
      ensures p0 <= p <= end && NoneIn(8 * p0, 8 * p, value)
      ensures p < end ==> p + 4 <= end && HasBit(Load(data[..], p), value)
    {
      p := p0;
      var word: Word := seq(32, _ => !value);
      while p < end && Load(data[..], p) == word
        invariant p0 <= p <= end && (end - p) % 4 == 0 && NoneIn(8 * p0, 8 * p, value)
      {
        FlatWord(data[..], p);
        forall k | 8 * p <= k < 8 * p + 32 ensures Bits()[k] != value {
          assert Bits()[8 * p..8 * p + 32][k - 8 * p] == word[k - 8 * p];
        }
        p := p + 4;
      }
      if p < end {
        var o :| 0 <= o < 32 && Load(data[..], p)[o] != word[o];
      }
    }

    /** The least bit of the value in a byte or a word that has one. */
    function LeastBit(s: seq<bool>, value: bool): (n: nat)
      requires HasBit(s, value)
      ensures n < |s| && s[n] == value
    {
      var t := seq(|s|, i requires 0 <= i < |s| => s[i] == value);
      assert forall o | 0 <= o < |s| && s[o] == value :: t[o];
      TrailingZeroes(t)
    }

    ghost predicate IsHit(r: Search, value: bool)
      reads data
    {
      r.Found? && r.bit < 8 * data.Length && Bits()[r.bit] == value
    }

    /** The bytes before the first word boundary. */
    method SearchHead(p: nat, value: bool) returns (r: Search)
      ensures r.Found? ==> IsHit(r, value) && r.bit < 8 * p && NoneIn(0, r.bit / 8 * 8, value)
      ensures r.Missing? ==> p <= data.Length && NoneIn(0, 8 * p, value)
      ensures !r.VerifyFailed? && (r.PastData? <==> p > data.Length && NoneIn(0, 8 * data.Length, value))
    {
      var count := Min(p, data.Length);
      var i := ScanBytes(0, count, value);
      if i == count {
        return if p <= data.Length then Missing else PastData;
      }
      r := SearchByte(i, value);
    }

    /** The first bit of the value in a byte. */
    method SearchByte(i: nat, value: bool) returns (r: Search)
      requires i < data.Length && HasBit(data[i], value)
      ensures IsHit(r, value) && r.bit / 8 == i
    {
      var bit := LeastBit(data[i], value);
      ByteBit(data[..], i, bit);
      return Found(i * 8 + bit);
    }

    /** The bytes from the last word boundary on. */
    method SearchTail(p: nat, value: bool) returns (r: Search)
      requires Valid() && p <= size / 8
      ensures r.Found? ==> IsHit(r, value) && 8 * p <= r.bit < size / 8 * 8
      ensures r.Missing? <==> NoneIn(8 * p, size / 8 * 8, value)
      ensures r.Found? || r.Missing?
    {
      var i := ScanBytes(p, size / 8, value);
      if i == size / 8 {
        return Missing;
      }
      r := SearchByte(i, value);
    }

    /** The word at which the search over words stopped. */
    method SearchWord(p: nat, value: bool) returns (r: Search)
      ensures p + 4 > data.Length <==> r.PastData?
      ensures r.Found? ==> IsHit(r, value) && 8 * p <= r.bit < 8 * p + 32
      ensures p + 4 <= data.Length && HasBit(Load(data[..], p), value) ==> r.Found?
      ensures r.VerifyFailed? ==> !HasBit(Load(data[..], p), value)
      ensures !r.Missing?
    {
      if p + 4 > data.Length {
        return PastData;
      }
      if Load(data[..], p) == seq(32, _ => !value) {
        return VerifyFailed;
      }
      var o :| 0 <= o < 32 && Load(data[..], p)[o] == value;
      var bit := LeastBit(Load(data[..], p), value);
      WordBit(data[..], p, bit);
      return Found(p * 8 + bit);
    }

    /** The words between two boundaries and the bytes after them. */
    method SearchWords(p0: nat, end32: nat, value: bool) returns (r: Search)
      requires Valid() && p0 <= end32 <= size / 8 && (end32 - p0) % 4 == 0
      ensures r.Found? ==> IsHit(r, value) && 8 * p0 <= r.bit < size / 8 * 8
      ensures r.Missing? <==> NoneIn(8 * p0, size / 8 * 8, value)
      ensures r.Found? || r.Missing?
    {
      var p := ScanWords(p0, end32, value);
      if p == end32 {
        r := SearchTail(p, value);
      } else {
        r := SearchWord(p, value);
      }
    }

    /** On data that starts before the first word boundary p: its first bytes, then the rest. */
    method SearchFromHead(p: nat, end32: int, value: bool) returns (r: Search)
      requires Valid() && end32 <= size / 8 && (end32 - p) % 4 == 0
      ensures p <= end32 ==>
        && (r.Found? ==> IsHit(r, value) && r.bit < size / 8 * 8)
        && (r.Missing? <==> NoneIn(0, size / 8 * 8, value)) && (r.Found? || r.Missing?)
      ensures p > end32 ==> IsOverrun(r, p, value)
    {
      r := SearchHead(p, value);
      if r.Missing? && p <= end32 {
        r := SearchWords(p, end32, value);
      } else if r.Missing? {
        r := SearchWord(p, value);
      }
    }

    /**
      A search that looks at the word at the boundary p wherever the bits end.  It finds the
      bits before p, and otherwise what happens to be at p.
     */
    ghost predicate IsOverrun(r: Search, p: nat, value: bool)
      reads data
    {
      && !r.Missing? && (r.Found? ==> IsHit(r, value))
      && (forall k | 0 <= k < Min(8 * p, 8 * data.Length) && Bits()[k] == value :: r.Found? && r.bit / 8 <= k / 8)
      && (NoneIn(0, 8 * data.Length, value) ==> r == if p + 4 <= data.Length then VerifyFailed else PastData)
    }

    /** A search of the whole bytes from lo on. */
    ghost predicate IsSearch(r: Search, lo: nat, value: bool)
      requires Valid()
      reads data
    {
      && (r.Found? ==> IsHit(r, value) && 8 * lo <= r.bit < size / 8 * 8)
      && (r.Missing? <==> NoneIn(8 * lo, size / 8 * 8, value)) && (r.Found? || r.Missing?)
    }

    lemma Boundaries(k: int)
      ensures AlignDown(k) < AlignUp(0) <==> k < AlignUp(0)
      ensures 0 <= k < AlignUp(0) ==> AlignDown(k) + 4 == AlignUp(0)
      ensures AlignDown(AlignDown(k)) == AlignDown(k)
    {
    }

    lemma WholeWords(k: int, j: int)
      ensures (AlignDown(k) - AlignDown(j)) % 4 == 0 && (AlignDown(k) - (AlignDown(j) + 4)) % 4 == 0
    {
    }

    /** The byte at which a round starts. */
    function StartByte(hint: nat): (p: nat)
      ensures p <= hint / 8
    {
      if hint / 8 < AlignUp(0) then 0 else Boundaries(hint / 8); AlignDown(hint / 8)
    }

    ghost predicate IsRound(r: Search, hint: nat, end: int, value: bool)
      requires Valid()
      reads data
    {
      if hint / 8 < AlignUp(0) && end < AlignUp(0) then IsOverrun(r, AlignUp(0), value)
      else IsSearch(r, StartByte(hint), value)
    }

    /** One round of find_one_anywhere, on data at any address. */
    method SearchRound(hint: nat, end: int, value: bool) returns (r: Search)
      requires Valid() && end <= size / 8 && (hint / 8 < AlignUp(0) || hint / 8 <= end)
      ensures IsRound(r, hint, end, value)
    {
      Boundaries(hint / 8);
      Boundaries(end);
      WholeWords(end, hint / 8);
      var p := AlignDown(hint / 8);
      if p < 0 {
        r := SearchFromHead(p + 4, AlignDown(end), value);
      } else {
        r := SearchWords(p, AlignDown(end), value);
      }
    }

    /**
      When find_one_anywhere can leave the data: there is no word boundary in it, or the rescan
      would have to end before the first one.
     */
    predicate Derails(hint: nat) {
      size / 8 < AlignUp(0) || (8 < hint && hint / 8 < AlignUp(0))
    }

    /** The first byte it looks at: the hint 8 counts as a search from the start, also when it starts at byte 1. */
    function FirstSeen(hint: nat): nat { if hint == 8 && AlignUp(0) == 1 then 1 else 0 }

    ghost predicate IsAnswer(r: Search, hint: nat, value: bool)
      requires Valid()
      reads data
    {
      if Derails(hint) && NoneIn(0, size / 8 * 8, value) then IsOverrun(r, AlignUp(0), value)
      else IsSearch(r, FirstSeen(hint), value)
    }

    lemma FirstRoundEnds(r: Search, hint: nat, value: bool)
      requires Valid() && hint < size && IsRound(r, hint, size / 8, value) && (!r.Missing? || hint <= 8)
      ensures IsAnswer(r, hint, value)
    {
      assert hint <= 8 ==> StartByte(hint) == FirstSeen(hint);
    }

    lemma RescanEnds(r: Search, hint: nat, value: bool)
      requires Valid() && 8 < hint < size && size / 8 >= AlignUp(0) && IsRound(r, 0, AlignDown(hint / 8), value)
      requires NoneIn(8 * StartByte(hint), size / 8 * 8, value)
      ensures IsAnswer(r, hint, value)
    {
      Boundaries(hint / 8);
    }

    /** find_one_anywhere.  The bits after the last whole byte are not looked at. */
    method FindOneAnywhere(hint0: nat, value: bool) returns (r: Search)
      requires Valid() && hint0 < size
      ensures IsAnswer(r, hint0, value)
    {
      var hint, end := hint0, size / 8;
      while true
        invariant (hint == hint0 && end == size / 8) || (hint0 > 8 && hint == 0 && end == AlignDown(hint0 / 8))
        invariant hint != hint0 ==> size / 8 >= AlignUp(0) && NoneIn(8 * StartByte(hint0), size / 8 * 8, value)
        decreases hint
      {
        r := SearchRound(hint, end, value);
        if !r.Missing? || hint <= 8 {
          if hint == hint0 {
            FirstRoundEnds(r, hint0, value);
          } else {
            RescanEnds(r, hint0, value);
          }
          return;
        }
        end := AlignDown(hint / 8);
        hint := 0;
      }
    }

    /** A set bit in a whole bucket. */
    ghost predicate SetAt(p: nat)
      requires Valid()
      reads data
    {
      p < size / 32 * 32 && Bits()[p]
    }

    /** One pass over a partly full bucket: a run of unset bits and the set bits after it. */
    method BucketPass(ghost o: nat, index: nat, viewed0: nat, free0: nat, from0: nat, n: nat)
      returns (found: bool, viewed: nat, free: nat, from: nat)
      requires Valid() && index < size / 32 && 4 * index + 4 <= data.Length && viewed0 < 32
      requires !IsOnes(Load(data[..], 4 * index)) && Scanned(Bits(), size, o, 32 * index + viewed0, free0, from0, n)
      ensures !found ==> viewed0 < viewed <= 32 && Scanned(Bits(), size, o, 32 * index + viewed, free, from, n)
      ensures found ==> n <= free && o <= from && Fits(Bits(), size, from, free) && NoFitFrom(Bits(), size, o, from, n)
      ensures found ==> SetAt(from + free)
    {
      var word := Load(data[..], 4 * index);
      var bucket := ShiftRight(word, viewed0);
      viewed, free, from := viewed0, free0, if free0 == 0 then 32 * index + viewed0 else from0;
      if IsZero(bucket) {
        ScanZeroes(data[..], size, o, index, viewed, free, from0, n, 32 - viewed);
        return false, 32, free + 32 - viewed, from;
      }
      var zeroes := TrailingZeroes(bucket);
      assert viewed + zeroes < 32;
      ScanZeroes(data[..], size, o, index, viewed, free, from0, n, zeroes);
      ShiftTwice(word, viewed, zeroes);
      bucket := ShiftRight(bucket, zeroes);
      free := free + zeroes;
      viewed := viewed + zeroes;
      if free >= n {
        BucketBits(data[..], index, viewed);
        return true, viewed, free, from;
      }
      OnesEnd(word, bucket, viewed);
      var ones := TrailingZeroes(Inverted(bucket));
      ScanOnes(data[..], size, o, index, viewed, free, from, n, ones);
      return false, viewed + ones, 0, from;
    }

    /** One partly full bucket of find_next_range_of_unset_bits; found tells that it returned. */
    method ScanBucket(ghost o: nat, index: nat, start: nat, free0: nat, from0: nat, n: nat)
      returns (found: bool, free: nat, from: nat)
      requires Valid() && index < size / 32 && 4 * index + 4 <= data.Length
      requires !IsOnes(Load(data[..], 4 * index)) && start < 32
      requires Scanned(Bits(), size, o, 32 * index + start, free0, from0, n)
      ensures !found ==> Scanned(Bits(), size, o, 32 * index + 32, free, from, n)
      ensures found ==> n <= free && o <= from && Fits(Bits(), size, from, free) && NoFitFrom(Bits(), size, o, from, n)
      ensures found ==> SetAt(from + free)
    {
      free, from := free0, from0;
      var viewed := start;
      while viewed < 32
        invariant viewed <= 32 && Scanned(Bits(), size, o, 32 * index + viewed, free, from, n)
      {
        found, viewed, free, from := BucketPass(o, index, viewed, free, from, n);
        if found {
          return;
        }
      }
      return false, free, from;
    }

    /**
      Where find_next_range_of_unset_bits really starts: an empty bucket is taken from its first
      bit, and the bits after the last whole bucket from the first of them.
     */
    function Origin(from: nat, n: nat): nat
      requires Valid()
      reads data
    {
      if from / 32 < size / 32 then (if IsZero(Load(data[..], from / 32 * 4)) then from / 32 * 32 else from)
      else if n == 0 then from
      else size / 32 * 32
    }

    /**
      Where a range ends that is shorter than asked for: at a set bit, or after the last whole
      bucket, or among the bits after that as soon as it is long enough.
     */
    ghost predicate EndsAt(end: nat, length: nat, minLength: nat, maxLength: nat)
      requires Valid()
      reads data
    {
      length < maxLength ==> SetAt(end) || end == size / 32 * 32 || (end > size / 32 * 32 && length == minLength)
    }

    /** find_next_range_of_unset_bits: the leftmost range from there on. */
    method FindNextRange(from0: nat, minLength: nat, maxLength: nat) returns (from: nat, r: Option<nat>)
      requires Valid()
      ensures minLength > maxLength ==> r == None && from == from0
      ensures r.Some? ==>
                && minLength <= r.value <= maxLength && Origin(from0, minLength) <= from
                && (minLength > 0 || from0 <= size ==> Fits(Bits(), size, from, r.value))
                && NoFitFrom(Bits(), size, Origin(from0, minLength), from, minLength)
                && EndsAt(from + r.value, r.value, minLength, maxLength)
      ensures r.None? && minLength <= maxLength ==>
                forall s | s >= Origin(from0, minLength) :: !Fits(Bits(), size, s, minLength)
    {
      from := from0;
      if minLength > maxLength {
        return from, None;
      }
      ghost var o := Origin(from0, minLength);
      var free: nat := 0;
      if from0 / 32 < size / 32 {
        var length;
        length, free, from := ScanBuckets(from0, minLength, maxLength);
        if length.Some? {
          return from, length;
        }
      }
      from, r := Conclude(o, free, from, minLength, maxLength);
    }

    /** The loop over the whole buckets. */
    method ScanBuckets(from0: nat, minLength: nat, maxLength: nat) returns (length: Option<nat>, free: nat, from: nat)
      requires Valid() && from0 / 32 < size / 32 && minLength <= maxLength
      ensures length.Some? ==> IsRange(Origin(from0, minLength), from, length.value, minLength, maxLength)
      ensures length.None? ==>
                && Scanned(Bits(), size, Origin(from0, minLength), size / 32 * 32, free, from, minLength)
                && (free > 0 || minLength > 0)
    {
      ghost var o := Origin(from0, minLength);
      free, from := 0, from0;
      var index: nat, start: nat := from0 / 32, from0 % 32;
      assert FirstViewed(index, start) == o <= from0;
      while index < size / 32
        invariant from0 / 32 <= index <= size / 32 && start < 32
        invariant index == from0 / 32 ==> free == 0 && from == from0 && start == from0 % 32
        invariant index != from0 / 32 ==> start == 0
        invariant Scanned(Bits(), size, o, if index == from0 / 32 then o else 32 * index, free, from, minLength)
      {
        ghost var word := Load(data[..], 4 * index);
        assert IsOnes(word) ==> word[0];
        length, free, from := VisitBucket(o, index, start, free, from, minLength, maxLength);
        if length.Some? {
          return;
        }
        index, start := index + 1, 0;
      }
      return None, free, from;
    }

    /** The bit of a bucket at which the search looks first. */
    function FirstViewed(index: nat, start: nat): nat
      requires 4 * index + 4 <= data.Length
      reads data
    {
      if IsZero(Load(data[..], 4 * index)) then 32 * index else 32 * index + start
    }

    /** A bucket without unset bits ends the run before it. */
    method VisitFull(ghost o: nat, index: nat, ghost start: nat, free: nat, from: nat, n: nat, maxLength: nat)
      returns (length: Option<nat>)
      requires Valid() && index < size / 32 && start < 32 && n <= maxLength && IsOnes(Load(data[..], 4 * index))
      requires Scanned(Bits(), size, o, 32 * index + start, free, from, n)
      requires n == 0 && free == 0 ==> from == o
      ensures length.None? ==> Scanned(Bits(), size, o, 32 * index + 32, 0, from, n)
      ensures length.Some? ==> IsRange(o, from, length.value, n, maxLength)
    {
      BucketBits(data[..], index, 0);
      if free >= n {
        return Some(Min(free, maxLength));
      }
      ScanSet(Bits(), size, o, 32 * index + start, free, from, n, 32 - start);
      return None;
    }

    /** A range found in the whole buckets: as long as asked for, or up to the next set bit. */
    ghost predicate IsRange(o: nat, from: nat, length: nat, n: nat, maxLength: nat)
      requires Valid()
      reads data
    {
      && n <= length <= maxLength && o <= from && Fits(Bits(), size, from, length)
      && NoFitFrom(Bits(), size, o, from, n) && (length < maxLength ==> SetAt(from + length))
    }

    /** One bucket: the length of the range that ends the search, if there is one. */
    method VisitBucket(ghost o: nat, index: nat, start: nat, free0: nat, from0: nat, minLength: nat, maxLength: nat)
      returns (length: Option<nat>, free: nat, from: nat)
      requires Valid() && index < size / 32 && start < 32 && minLength <= maxLength
      requires Scanned(Bits(), size, o, FirstViewed(index, start), free0, from0, minLength)
      requires minLength == 0 && free0 == 0 && IsOnes(Load(data[..], 4 * index)) ==> from0 == o
      ensures length.None? ==> Scanned(Bits(), size, o, 32 * index + 32, free, from, minLength)
      ensures length.Some? ==> IsRange(o, from, length.value, minLength, maxLength)
    {
      free, from := free0, from0;
      var word := Load(data[..], 4 * index);
      if IsOnes(word) {
        assert word[0];
        length := VisitFull(o, index, start, free, from, minLength, maxLength);
        return length, 0, from;
      }
      if IsZero(word) {
        BucketBits(data[..], index, 0);
        ScanUnset(Bits(), size, o, 32 * index, free, from, minLength, 32);
        if free == 0 {
          from := 32 * index;
        }
        free := free + 32;
        return if free >= maxLength then Some(maxLength) else None, free, from;
      }
      var found;
      found, free, from := ScanBucket(o, index, start, free, from, minLength);
      return if found then Some(Min(free, maxLength)) else None, free, from;
    }

    /** After the last whole bucket. */
    method Conclude(ghost o: nat, free: nat, from0: nat, n: nat, maxLength: nat) returns (from: nat, r: Option<nat>)
      requires Valid() && n <= maxLength
      requires free > 0 || n > 0 ==> Scanned(Bits(), size, o, size / 32 * 32, free, from0, n)
      ensures free == 0 && n == 0 ==> from == from0 && r == Some(0)
      ensures (free > 0 || n > 0) && r.Some? ==>
                && n <= r.value <= maxLength && o <= from
                && Fits(Bits(), size, from, r.value) && NoFitFrom(Bits(), size, o, from, n)
                && EndsAt(from + r.value, r.value, n, maxLength)
      ensures r.None? ==> forall s | s >= o :: !Fits(Bits(), size, s, n)
    {
      if free < n {
        from, r := ScanTail(o, free, from0, n);
      } else {
        from, r := from0, Some(Min(free, maxLength));
      }
    }

    /** The bits after the last whole bucket, one at a time. */
    method ScanTail(ghost o: nat, free0: nat, from0: nat, n: nat) returns (from: nat, r: Option<nat>)
      requires Valid() && Scanned(Bits(), size, o, size / 32 * 32, free0, from0, n) && free0 < n
      ensures r.Some? ==>
                && r.value == n && o <= from && from + n > size / 32 * 32
                && Fits(Bits(), size, from, n) && NoFitFrom(Bits(), size, o, from, n)
      ensures r.None? ==> forall s | s >= o :: !Fits(Bits(), size, s, n)
    {
      ghost var bits := Bits();
      var first := size / 32 * 32;
      var free: nat := free0;
      from := from0;
      for i := 0 to size % 32
        invariant Scanned(bits, size, o, first + i, free, from, n) && free < n
      {
        if !Get(first + i) {
          ScanUnset(bits, size, o, first + i, free, from, n, 1);
          if free == 0 {
            from := first + i;
          }
          free := free + 1;
          if free >= n {
            return from, Some(free);
          }
        } else {
          ScanSet(bits, size, o, first + i, free, from, n, 1);
          free := 0;
        }
      }
      return from, None;
    }

    /** find_first_fit: the least start of n unset bits in a row. */
    method FindFirstFit(n: nat) returns (r: Option<nat>)
      requires Valid()
      ensures r.Some? ==> Fits(Bits(), size, r.value, n) && NoFitFrom(Bits(), size, 0, r.value, n)
      ensures r.None? ==> forall s :: !Fits(Bits(), size, s, n)
    {
      var start, length := FindNextRange(0, n, n);
      return if length.Some? then Some(start) else None;
    }
  }

  // ----- bitmaps on which the searches go wrong -----

  const ZEROES: Byte := [false, false, false, false, false, false, false, false]
  const LOW: Byte := [true, false, false, false, false, false, false, false]

  /** Four bits, the first of them set: it is after the last whole byte. */
  method UnseenBit() returns (view: BitmapView, r: Search)
    ensures view.Valid() && view.size == 4 && view.address == 0 && view.data[..] == [LOW] && view.Get(0)
    ensures r == Missing
  {
    var data := new Byte[1](_ => LOW);
    view := new BitmapView(data, 4, 0);
    assert data[..] == [LOW];
    r := view.FindOneAnywhere(0, true);
  }

  /** Data at an odd address, no bit set: a search from bit 9 runs into a VERIFY. */
  method FailedRescan() returns (view: BitmapView, r: Search)
    ensures view.Valid() && view.size == 64 && view.address == 1 && view.data[..] == seq(9, _ => ZEROES)
    ensures r == VerifyFailed
  {
    var data := new Byte[9](_ => ZEROES);
    view := new BitmapView(data, 64, 1);
    assert data[..] == seq(9, _ => ZEROES);
    forall k | 0 <= k < 72 ensures !view.Bits()[k] {
      ByteBit(data[..], k / 8, k % 8);
    }
    r := view.FindOneAnywhere(9, true);
  }

  /** Data that ends before the first word boundary: the search reads behind it. */
  method ReadsOn() returns (view: BitmapView, r: Search)
    ensures view.Valid() && view.size == 8 && view.address == 1 && view.data[..] == [ZEROES, ZEROES]
    ensures r == PastData
  {
    var data := new Byte[2](_ => ZEROES);
    view := new BitmapView(data, 8, 1);
    assert data[..] == [ZEROES, ZEROES];
    forall k | 0 <= k < 16 ensures !view.Bits()[k] {
      ByteBit(data[..], k / 8, k % 8);
    }
    r := view.FindOneAnywhere(0, true);
  }

  /** Data one byte before a word boundary, bit 0 set: a search from bit 8 does not look at it. */
  method SkippedByte() returns (view: BitmapView, r: Search)
    ensures view.Valid() && view.size == 64 && view.address == 3 && view.data[..] == [LOW] + seq(8, _ => ZEROES)
      && view.Get(0)
    ensures r == Missing
  {
    var data := new Byte[9](i => if i == 0 then LOW else ZEROES);
    view := new BitmapView(data, 64, 3);
    assert data[..] == [LOW] + seq(8, _ => ZEROES);
    forall k | 8 <= k < 72 ensures !view.Bits()[k] {
      ByteBit(data[..], k / 8, k % 8);
    }
    r := view.FindOneAnywhere(8, true);
  }

  /** No bit set: the range found from bit 5 starts at bit 0. */
  method MovedBack() returns (view: BitmapView, from: nat, r: Option<nat>)
    ensures view.Valid() && view.size == 32 && view.data[..] == seq(5, _ => ZEROES)
    ensures from == 0 && r == Some(1)
  {
    var data := new Byte[5](_ => ZEROES);
    view := new BitmapView(data, 32, 0);
    assert data[..] == seq(5, _ => ZEROES);
    ByteBit(data[..], 0, 0);
    assert IsZero(Load(data[..], 0));
    from, r := view.FindNextRange(5, 1, 1);
    assert Fits(view.Bits(), 32, 0, 1);
  }
}
