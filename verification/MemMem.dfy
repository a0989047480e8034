/**
  Substring search (AK/MemMem.h): the shift-or search over a machine word, the chunked
  Knuth-Morris-Pratt search, and memmem_optional, which picks between them.
 */
module MemMem {
  import opened Common

  // ----- the specification -----

  predicate MatchAt(haystack: seq<byte>, needle: seq<byte>, k: int) {
    0 <= k <= |haystack| - |needle| && haystack[k..k + |needle|] == needle
  }

  /** r is the least offset of the needle, or None when the needle does not occur. */
  ghost predicate IsFirst(haystack: seq<byte>, needle: seq<byte>, r: Option<nat>) {
    match r
    case Some(k) => MatchAt(haystack, needle, k) && NoneBefore(haystack, needle, k)
    case None => forall j :: !MatchAt(haystack, needle, j)
  }

  ghost predicate NoneBefore(haystack: seq<byte>, needle: seq<byte>, k: int) {
    forall j | j < k :: !MatchAt(haystack, needle, j)
  }

  /** The last j bytes of s[..p] are the first j bytes of needle. */
  predicate EndsWith(s: seq<byte>, p: int, needle: seq<byte>, j: int) {
    0 <= j <= p <= |s| && j <= |needle| && s[p - j..p] == needle[..j]
  }

  lemma EndsWithMore(s: seq<byte>, p: int, needle: seq<byte>, j: int)
    requires 0 <= p < |s| && 0 <= j < |needle|
    ensures EndsWith(s, p + 1, needle, j + 1) <==> EndsWith(s, p, needle, j) && s[p] == needle[j]
  {
    if j <= p {
      assert s[p - j..p + 1] == s[p - j..p] + [s[p]];
      assert needle[..j + 1] == needle[..j] + [needle[j]];
      if EndsWith(s, p + 1, needle, j + 1) {
        assert s[p - j..p + 1][..j] == s[p - j..p];
        assert needle[..j + 1][..j] == needle[..j];
        assert s[p - j..p + 1][j] == s[p];
      }
    }
  }

  lemma MatchEnds(haystack: seq<byte>, needle: seq<byte>, k: int)
    ensures MatchAt(haystack, needle, k) <==> EndsWith(haystack, k + |needle|, needle, |needle|)
  {
    assert needle[..|needle|] == needle;
  }

  // ----- shift-or -----

  /** A 64-bit word, least significant bit first. */
  type Word = w: seq<bool> | |w| == 64 witness seq(64, _ => false)

  function Or(a: Word, b: Word): Word { seq(64, i requires 0 <= i < 64 => a[i] || b[i]) }

  function And(a: Word, b: Word): Word { seq(64, i requires 0 <= i < 64 => a[i] && b[i]) }

  function Not(a: Word): Word { seq(64, i requires 0 <= i < 64 => !a[i]) }

  function ShiftLeft(a: Word): Word { [false] + a[..63] }

  predicate IsZero(a: Word) { forall i | 0 <= i < 64 :: !a[i] }

  /** 0x00000001 << n computed as a 32-bit int and widened to 64 bits: bit 31 is the sign. */
  function IntBit(n: nat): Word
    requires n < 32
  {
    seq(64, i requires 0 <= i < 64 => i == n || (n == 31 && i > 31))
  }

  /** The bits below n, without bit 0 when `even`. */
  function LowOnes(n: nat, even: bool): Word { seq(64, i requires 0 <= i < 64 => i < n && !(even && i == 0)) }

  /** Bit i of the mask of a byte is clear when the needle has that byte at i. */
  predicate IsMask(mask: Word, needle: seq<byte>, b: byte) {
    forall i | 0 <= i < 64 :: mask[i] <==> (i < 32 && !(i < |needle| && needle[i] == b))
  }

  /** Bit j is clear exactly when the bytes read so far end with the first j bytes of the needle. */
  predicate Tracks(lookup: Word, haystack: seq<byte>, p: nat, needle: seq<byte>) {
    forall j | 0 <= j <= |needle| && j < 32 :: !lookup[j] <==> EndsWith(haystack, p, needle, j)
  }

  lemma TrackStep(lookup: Word, haystack: seq<byte>, p: nat, needle: seq<byte>, mask: Word)
    requires p < |haystack| && |needle| < 32 && Tracks(lookup, haystack, p, needle) && IsMask(mask, needle, haystack[p])
    ensures Tracks(ShiftLeft(Or(lookup, mask)), haystack, p + 1, needle)
  {
    var next := ShiftLeft(Or(lookup, mask));
    forall j | 0 <= j <= |needle| ensures !next[j] <==> EndsWith(haystack, p + 1, needle, j) {
      if j > 0 {
        assert next[j] == Or(lookup, mask)[j - 1];
        EndsWithMore(haystack, p, needle, j - 1);
      }
    }
  }

  lemma OneBit(lookup: Word, n: nat)
    requires n < 31
    ensures IsZero(And(lookup, IntBit(n))) <==> !lookup[n]
  {
    assert And(lookup, IntBit(n))[n] == lookup[n];
  }

  /**
    With a 31-byte needle, the widened test mask meets bit 32, which every shift fills from bit
    31 of the byte mask.
   */
  lemma SignBitsStick(lookup: Word, mask: Word, needle: seq<byte>, b: byte)
    requires |needle| == 31 && IsMask(mask, needle, b)
    ensures !IsZero(And(ShiftLeft(Or(lookup, mask)), IntBit(31)))
  {
    assert mask[31];
    assert ShiftLeft(Or(lookup, mask))[32] == Or(lookup, mask)[31];
    assert And(ShiftLeft(Or(lookup, mask)), IntBit(31))[32];
  }

  method BuildMasks(needle: seq<byte>) returns (masks: array<Word>)
    requires |needle| < 32
    ensures fresh(masks) && masks.Length == 256
    ensures forall b: byte :: IsMask(masks[b], needle, b)
  {
    masks := new Word[256](_ => LowOnes(32, false));
    for i := 0 to |needle|
      invariant forall b: byte :: IsMask(masks[b], needle[..i], b)
    {
      ClearBit(masks[needle[i]], needle, i);
      MaskKept(needle, i);
      masks[needle[i]] := And(masks[needle[i]], Not(IntBit(i)));
    }
    assert needle[..|needle|] == needle;
  }

  lemma ClearBit(mask: Word, needle: seq<byte>, i: nat)
    requires i < |needle| < 32 && IsMask(mask, needle[..i], needle[i])
    ensures IsMask(And(mask, Not(IntBit(i))), needle[..i + 1], needle[i])
  {
    var cleared := And(mask, Not(IntBit(i)));
    forall k | 0 <= k < 64 ensures cleared[k] <==> (mask[k] && k != i) {
      assert cleared[k] == (mask[k] && Not(IntBit(i))[k]);
    }
  }

  lemma MaskKept(needle: seq<byte>, i: nat)
    requires i < |needle|
    ensures forall mask: Word, b: byte | b != needle[i] && IsMask(mask, needle[..i], b) ::
              IsMask(mask, needle[..i + 1], b)
  {
  }

  /** bitap_bitwise, on every needle its VERIFY accepts. */
  method BitapBitwise(haystack: seq<byte>, needle: seq<byte>) returns (r: Option<nat>)
    requires |needle| < 32
    ensures 1 <= |needle| <= 30 ==> IsFirst(haystack, needle, r)
    ensures |needle| == 31 ==> r == None
    ensures |needle| == 0 ==> r == if haystack == [] then None else Some(1)
  {
    var lookup: Word := LowOnes(32, true);
    var masks := BuildMasks(needle);
    for i := 0 to |haystack|
      invariant forall b: byte :: IsMask(masks[b], needle, b)
      invariant Tracks(lookup, haystack, i, needle)
      invariant |needle| <= 30 ==> forall p | 0 < p <= i :: !EndsWith(haystack, p, needle, |needle|)
    {
      ghost var mask := masks[haystack[i]];
      TrackStep(lookup, haystack, i, needle, mask);
      if |needle| == 31 {
        SignBitsStick(lookup, mask, needle, haystack[i]);
      } else {
        OneBit(ShiftLeft(Or(lookup, mask)), |needle|);
      }
      lookup := Or(lookup, masks[haystack[i]]);
      lookup := ShiftLeft(lookup);
      if IsZero(And(lookup, IntBit(|needle|))) {
        EndsGiveFirst(haystack, needle, i + 1);
        return Some(i - |needle| + 1);
      }
    }
    NoEndsNoMatch(haystack, needle);
    return None;
  }

  lemma EndsGiveFirst(haystack: seq<byte>, needle: seq<byte>, p: nat)
    requires p <= |haystack| && EndsWith(haystack, p, needle, |needle|)
    requires forall q | 0 < q < p :: !EndsWith(haystack, q, needle, |needle|)
    ensures |needle| > 0 ==> IsFirst(haystack, needle, Some(p - |needle|))
    ensures |needle| == 0 ==> p <= 1
  {
    MatchEnds(haystack, needle, p - |needle|);
    forall j | j < p - |needle| && |needle| > 0 ensures !MatchAt(haystack, needle, j) {
      MatchEnds(haystack, needle, j);
    }
    if |needle| == 0 && p > 1 {
      assert EndsWith(haystack, 1, needle, 0);
    }
  }

  lemma NoEndsNoMatch(haystack: seq<byte>, needle: seq<byte>)
    ensures needle != [] && (forall q | 0 < q <= |haystack| :: !EndsWith(haystack, q, needle, |needle|))
            ==> IsFirst(haystack, needle, None)
    ensures needle == [] && haystack != [] ==> EndsWith(haystack, 1, needle, 0)
  {
    forall j ensures MatchAt(haystack, needle, j) <==> EndsWith(haystack, j + |needle|, needle, |needle|) {
      MatchEnds(haystack, needle, j);
    }
  }

  // ----- Knuth-Morris-Pratt -----

  /** A proper border of needle[..p], of length j. */
  predicate Border(needle: seq<byte>, p: int, j: int) {
    j < p && EndsWith(needle, p, needle, j)
  }

  /** A border after which the needle goes on differently. */
  predicate StrongBorder(needle: seq<byte>, p: int, j: int) {
    0 <= j < p < |needle| && Border(needle, p, j) && needle[j] != needle[p]
  }

  /** The longest strong border, or -1. */
  ghost predicate LongestStrong(needle: seq<byte>, p: int, t: int) {
    (t == -1 || StrongBorder(needle, p, t)) && forall j :: StrongBorder(needle, p, j) ==> j <= t
  }

  /** The longest border j of needle[..p] with needle[j] == needle[p], or -1. */
  ghost predicate LongestExtendable(needle: seq<byte>, p: int, c: int) {
    (c == -1 || Extendable(needle, p, c)) && forall j :: Extendable(needle, p, j) ==> j <= c
  }

  predicate Extendable(needle: seq<byte>, p: int, j: int) {
    0 <= j < p < |needle| && Border(needle, p, j) && needle[j] == needle[p]
  }

  ghost predicate LongestBorder(needle: seq<byte>, p: int, c: int) {
    Border(needle, p, c) && forall j :: Border(needle, p, j) ==> j <= c
  }

  /** Two ends of one text that both start the needle: the shorter is a border of the longer. */
  lemma EndsNest(s: seq<byte>, p: int, needle: seq<byte>, j: int, c: int)
    requires EndsWith(s, p, needle, c) && 0 <= j <= c
    ensures EndsWith(s, p, needle, j) <==> EndsWith(needle, c, needle, j)
  {
    assert s[p - j..p] == s[p - c..p][c - j..];
    assert needle[c - j..c] == needle[..c][c - j..];
  }

  lemma BorderNest(needle: seq<byte>, p: int, c: int, j: int)
    requires Border(needle, p, c) && j < c
    ensures Border(needle, p, j) <==> Border(needle, c, j)
  {
    if 0 <= j {
      EndsNest(needle, p, needle, j, c);
    }
  }

  /** The table entry copied from the candidate. */
  lemma CopiedEntry(needle: seq<byte>, p: int, c: int, t: int)
    requires 0 < p < |needle| && LongestBorder(needle, p, c) && needle[p] == needle[c] && LongestStrong(needle, c, t)
    ensures LongestStrong(needle, p, t)
  {
    if t >= 0 {
      BorderNest(needle, p, c, t);
    }
    forall j | StrongBorder(needle, p, j) ensures j <= t {
      assert j < c;
      BorderNest(needle, p, c, j);
      assert StrongBorder(needle, c, j);
    }
  }

  /** Following the table once keeps every extendable border in reach. */
  lemma FallBack(needle: seq<byte>, p: int, c: int, t: int)
    requires 0 < p < |needle| && Border(needle, p, c) && needle[c] != needle[p] && LongestStrong(needle, c, t)
    requires forall j :: Extendable(needle, p, j) ==> j <= c
    ensures t == -1 || Border(needle, p, t)
    ensures forall j :: Extendable(needle, p, j) ==> j <= t
  {
    if t >= 0 {
      BorderNest(needle, p, c, t);
    }
    forall j | Extendable(needle, p, j) ensures j <= t {
      assert j < c;
      BorderNest(needle, p, c, j);
      assert StrongBorder(needle, c, j);
    }
  }

  /** The next candidate. */
  lemma NextCandidate(needle: seq<byte>, p: int, c: int)
    requires 0 < p < |needle| && LongestExtendable(needle, p, c)
    ensures LongestBorder(needle, p + 1, c + 1)
  {
    if c >= 0 {
      EndsWithMore(needle, p, needle, c);
    }
    assert Border(needle, p + 1, c + 1);
    var next := p + 1;
    forall j | Border(needle, next, j) ensures j <= c + 1 {
      if j > 0 {
        EndsWithMore(needle, p, needle, j - 1);
        assert Extendable(needle, p, j - 1);
      }
    }
  }

  ghost predicate IsTable(needle: seq<byte>, table: seq<int>) {
    |table| == |needle| && forall k | 0 <= k < |needle| :: LongestStrong(needle, k, table[k])
  }

  lemma TableEntry(needle: seq<byte>, table: seq<int>, q: nat)
    requires IsTable(needle, table) && q < |needle|
    ensures LongestStrong(needle, q, table[q]) && -1 <= table[q] < q
  {
  }

  /** The inner do-while loop. */
  method FollowTable(needle: seq<byte>, table: seq<int>, position: nat, start: nat) returns (candidate: int)
    requires 0 < position < |needle| && position <= |table|
    requires forall k | 0 <= k < position :: LongestStrong(needle, k, table[k])
    requires LongestBorder(needle, position, start) && needle[start] != needle[position]
    ensures LongestExtendable(needle, position, candidate)
  {
    candidate := start;
    FallBack(needle, position, candidate, table[candidate]);
    candidate := table[candidate];
    while candidate >= 0 && needle[candidate] != needle[position]
      invariant candidate == -1 || Border(needle, position, candidate)
      invariant forall j :: Extendable(needle, position, j) ==> j <= candidate
    {
      assert StrongBorder(needle, candidate, table[candidate]) || table[candidate] == -1;
      FallBack(needle, position, candidate, table[candidate]);
      candidate := table[candidate];
    }
  }

  /** prepare_kmp_partial_table: every entry is the longest strong border. */
  method PrepareTable(needle: seq<byte>) returns (table: seq<int>)
    requires needle != []
    ensures IsTable(needle, table)
  {
    var position, candidate := 1, 0;
    table := [-1];
    while position < |needle|
      invariant 1 <= position <= |needle| && |table| == position
      invariant 0 <= candidate && LongestBorder(needle, position, candidate)
      invariant forall k | 0 <= k < position :: LongestStrong(needle, k, table[k])
    {
      if needle[position] == needle[candidate] {
        CopiedEntry(needle, position, candidate, table[candidate]);
        table := table + [table[candidate]];
      } else {
        table := table + [candidate];
        candidate := FollowTable(needle, table, position, candidate);
      }
      NextCandidate(needle, position, candidate);
      position, candidate := position + 1, candidate + 1;
    }
  }

  function Concat(chunks: seq<seq<byte>>): seq<byte> {
    if chunks == [] then [] else chunks[0] + Concat(chunks[1..])
  }

  lemma {:induction false} ConcatSplits(chunks: seq<seq<byte>>, c: nat)
    requires c <= |chunks|
    ensures Concat(chunks) == Concat(chunks[..c]) + Concat(chunks[c..])
  {
    if c > 0 {
      ConcatSplits(chunks[1..], c - 1);
      assert chunks[..c][1..] == chunks[1..][..c - 1];
      assert chunks[c..] == chunks[1..][c - 1..];
    }
  }

  /** The byte under the cursor, in the chunk and in the whole text. */
  lemma ByteAt(chunks: seq<seq<byte>>, c: nat, i: nat)
    requires c < |chunks| && i <= |chunks[c]|
    ensures |Concat(chunks[..c])| + i <= |Concat(chunks)|
    ensures i < |chunks[c]| ==> |Concat(chunks[..c])| + i < |Concat(chunks)|
                                && Concat(chunks)[|Concat(chunks[..c])| + i] == chunks[c][i]
    ensures |Concat(chunks[..c + 1])| == |Concat(chunks[..c])| + |chunks[c]|
  {
    ConcatSplits(chunks, c);
    ConcatSplits(chunks[..c + 1], c);
    assert chunks[..c + 1][..c] == chunks[..c];
    assert chunks[..c + 1][c..] == [chunks[c]];
    assert Concat([chunks[c]]) == chunks[c] + Concat([]);
  }

  /** Where the search stands: the last q bytes before total start the needle, and no earlier place is left. */
  ghost predicate Searching(text: seq<byte>, needle: seq<byte>, total: int, q: int) {
    0 <= q < |needle| && EndsWith(text, total, needle, q) && NoneBefore(text, needle, total - q)
  }

  lemma Advance(text: seq<byte>, needle: seq<byte>, total: nat, q: nat)
    requires Searching(text, needle, total, q) && total < |text| && text[total] == needle[q]
    ensures q + 1 < |needle| ==> Searching(text, needle, total + 1, q + 1)
    ensures q + 1 == |needle| ==> total + 1 >= |needle| && IsFirst(text, needle, Some(total + 1 - |needle|))
  {
    EndsWithMore(text, total, needle, q);
    if q + 1 == |needle| {
      MatchEnds(text, needle, total - q);
    }
  }

  /** A match that starts inside the last q bytes starts at a strong border. */
  lemma Shift(text: seq<byte>, needle: seq<byte>, total: nat, q: nat, t: int)
    requires Searching(text, needle, total, q) && total < |text| && text[total] != needle[q]
    requires LongestStrong(needle, q, t)
    ensures t >= 0 ==> Searching(text, needle, total, t)
    ensures t == -1 ==> Searching(text, needle, total + 1, 0)
  {
    if t >= 0 {
      EndsNest(text, total, needle, t, q);
    }
    forall s | s < total - t ensures !MatchAt(text, needle, s) {
      if MatchAt(text, needle, s) {
        MatchInside(text, needle, total, q, s);
      }
    }
  }

  lemma MatchInside(text: seq<byte>, needle: seq<byte>, total: nat, q: nat, s: int)
    requires Searching(text, needle, total, q) && total < |text| && text[total] != needle[q]
    requires MatchAt(text, needle, s) && s <= total
    ensures StrongBorder(needle, q, total - s)
  {
    var j := total - s;
    assert s >= total - q;
    assert text[s..s + |needle|][..j] == text[s..total];
    assert EndsWith(text, total, needle, j);
    assert text[s..s + |needle|][j] == text[total];
    EndsNest(text, total, needle, j, q);
  }

  lemma SearchEnds(text: seq<byte>, needle: seq<byte>, q: int)
    requires Searching(text, needle, |text|, q)
    ensures IsFirst(text, needle, None)
  {
    forall j ensures !MatchAt(text, needle, j) {
      assert j < |text| - q || j + |needle| > |text|;
    }
  }

  /** The cursor: chunk it, byte current of it, byte total of the whole text. */
  ghost predicate At(chunks: seq<seq<byte>>, it: nat, current: nat, total: nat) {
    && it <= |chunks| && (if it < |chunks| then current <= |chunks[it]| else current == 0)
    && total == |Concat(chunks[..it])| + current
  }

  /** memmem over chunks: the first occurrence in their concatenation, however it is cut. */
  method MemMemChunks(chunks: seq<seq<byte>>, needle: seq<byte>) returns (r: Option<nat>)
    requires needle != []
    ensures IsFirst(Concat(chunks), needle, r)
  {
    var table := PrepareTable(needle);
    var total, current, q, it := 0, 0, 0, 0;
    ghost var text := Concat(chunks);
    assert chunks[..0] == [];
    while it != |chunks|
      invariant At(chunks, it, current, total) && Searching(text, needle, total, q)
      decreases |chunks| - it, if it < |chunks| then |chunks[it]| - current else 0, q
    {
      ByteAt(chunks, it, current);
      if current >= |chunks[it]| {
        current := 0;
        it := it + 1;
        continue;
      }
      if needle[q] == chunks[it][current] {
        Advance(text, needle, total, q);
        q, current, total := q + 1, current + 1, total + 1;
        if q == |needle| {
          return Some(total - q);
        }
        continue;
      }
      TableEntry(needle, table, q);
      Shift(text, needle, total, q, table[q]);
      q := table[q];
      if q < 0 {
        q, current, total := q + 1, current + 1, total + 1;
      }
    }
    assert chunks[..it] == chunks;
    SearchEnds(text, needle, q);
    return None;
  }

  /** memmem_optional finds the first occurrence, except for a 31-byte needle in a longer text that contains it. */
  method MemMemOptional(haystack: seq<byte>, needle: seq<byte>) returns (r: Option<nat>)
    ensures IsFirst(haystack, needle, r)
            <==> !(|needle| == 31 && |haystack| > 31 && exists k :: MatchAt(haystack, needle, k))
    ensures |needle| == 31 && |haystack| > 31 ==> r == None
  {
    if |needle| == 0 {
      assert MatchAt(haystack, needle, 0);
      return Some(0);
    }
    if |haystack| < |needle| {
      return None;
    }
    if |haystack| == |needle| {
      assert haystack[0..|needle|] == haystack;
      assert MatchAt(haystack, needle, 0) <==> haystack == needle;
      return if haystack == needle then Some(0) else None;
    }
    if |needle| < 32 {
      r := BitapBitwise(haystack, needle);
      return;
    }
    r := MemMemChunks([haystack], needle);
    assert Concat([haystack]) == haystack + Concat([]) == haystack;
  }

  /** A 31-byte needle that is there and is not found. */
  method MissedMatch() returns (haystack: seq<byte>, needle: seq<byte>, r: Option<nat>)
    ensures MatchAt(haystack, needle, 0) && r == None
  {
    haystack, needle := seq(32, _ => 0), seq(31, _ => 0);
    r := MemMemOptional(haystack, needle);
    assert haystack[0..31] == needle;
  }
}
