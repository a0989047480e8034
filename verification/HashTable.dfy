/**
  AK/HashTable.h: open addressing with tombstones.  Keys stand for the equivalence classes of
  TraitsForT::equals.  The hash function and double_hash are parameters, so everything here
  holds for any pair of them.  A probe that would go round for ever ends in `hung`: hashes
  are 32 bits wide, so after 2^32 probes every further probe repeats an earlier one.
 */
module HashTables {
  import opened Common

  const HASHES: nat := 0x1_0000_0000

  type Hash = h: nat | h < HASHES

  // ----- probe sequences -----

  function Orbit(next: Hash -> Hash, h: Hash, n: nat): Hash {
    if n == 0 then h else next(Orbit(next, h, n - 1))
  }

  /** More values than there are below `n`: two of them are the same. */
  lemma {:induction false} Pigeonhole(s: seq<nat>, n: nat) returns (i: nat, j: nat)
    requires |s| > n && forall k | 0 <= k < |s| :: s[k] < n
    ensures i < j < |s| && s[i] == s[j]
    decreases n
  {
    assert s[0] < n;
    if k: nat :| k < |s| && s[k] == n - 1 {
      var rest := s[..k] + s[k + 1..];
      if m: nat :| m < |rest| && rest[m] == n - 1 {
        i, j := if m < k then m else k, if m < k then k else m + 1;
      } else {
        i, j := Pigeonhole(rest, n - 1);
        i, j := if i < k then i else i + 1, if j < k then j else j + 1;
      }
    } else {
      i, j := Pigeonhole(s, n - 1);
    }
  }

  lemma {:induction false} OrbitPeriodic(next: Hash -> Hash, h: Hash, i: nat, j: nat, k: nat)
    requires Orbit(next, h, i) == Orbit(next, h, j)
    ensures Orbit(next, h, i + k) == Orbit(next, h, j + k)
  {
    if k > 0 {
      OrbitPeriodic(next, h, i, j, k - 1);
    }
  }

  /** Every probe is one of the first 2^32. */
  lemma {:induction false} OrbitRepeats(next: Hash -> Hash, h: Hash, n: nat) returns (m: nat)
    ensures m < HASHES && Orbit(next, h, m) == Orbit(next, h, n)
    decreases n
  {
    if n < HASHES {
      m := n;
    } else {
      var s := seq(HASHES + 1, i requires 0 <= i < HASHES + 1 => Orbit(next, h, i) as nat);
      var i, j := Pigeonhole(s, HASHES);
      OrbitPeriodic(next, h, i, j, n - j);
      m := OrbitRepeats(next, h, n - (j - i));
    }
  }

  ghost predicate Visits(next: Hash -> Hash, h: Hash, capacity: nat, i: nat)
    requires capacity > 0
  {
    exists n: nat :: Probed(next, h, n, capacity) == i
  }

  // ----- buckets -----

  datatype Bucket<K, V> = Bucket(used: bool, deleted: bool, slot: Option<(K, V)>)

  function EmptyBucket<K, V>(): Bucket<K, V> { Bucket(false, false, None) }

  predicate NeverUsed<K, V>(b: Bucket<K, V>) { !b.used && !b.deleted }

  predicate HasKey<K(==), V>(b: Bucket<K, V>, k: K) { b.used && b.slot.Some? && b.slot.value.0 == k }

  /** The bucket that probe `n` of a hash looks at. */
  function Probed(next: Hash -> Hash, h: Hash, n: nat, capacity: nat): (i: nat)
    requires capacity > 0
    ensures i < capacity
  {
    Orbit(next, h, n) % capacity
  }

  ghost function UsedSet<K, V>(bs: seq<Bucket<K, V>>): set<nat> { set i: nat | i < |bs| && bs[i].used }

  ghost function DeletedSet<K, V>(bs: seq<Bucket<K, V>>): set<nat> { set i: nat | i < |bs| && bs[i].deleted }

  lemma UsedAfterUpdate<K, V>(bs: seq<Bucket<K, V>>, i: nat, b: Bucket<K, V>)
    requires i < |bs|
    ensures |UsedSet(bs[i := b])| == |UsedSet(bs)| + (if b.used then 1 else 0) - (if bs[i].used then 1 else 0)
  {
    var cs := bs[i := b];
    if b.used && !bs[i].used {
      assert UsedSet(cs) == UsedSet(bs) + {i};
    } else if !b.used && bs[i].used {
      assert UsedSet(bs) == UsedSet(cs) + {i};
    } else {
      assert UsedSet(bs) == UsedSet(cs);
    }
  }

  lemma DeletedAfterUpdate<K, V>(bs: seq<Bucket<K, V>>, i: nat, b: Bucket<K, V>)
    requires i < |bs|
    ensures |DeletedSet(bs[i := b])| == |DeletedSet(bs)| + (if b.deleted then 1
      else 0) - (if bs[i].deleted then 1 else 0)
  {
    var cs := bs[i := b];
    if b.deleted && !bs[i].deleted {
      assert DeletedSet(cs) == DeletedSet(bs) + {i};
    } else if !b.deleted && bs[i].deleted {
      assert DeletedSet(bs) == DeletedSet(cs) + {i};
    } else {
      assert DeletedSet(bs) == DeletedSet(cs);
    }
  }

  /** Probe `n` of `h` is bucket `i`, and no earlier probe is a never-used bucket. */
  ghost predicate ReachedAt<K, V>(bs: seq<Bucket<K, V>>, next: Hash -> Hash, h: Hash, i: nat, n: nat)
    requires |bs| > 0
  {
    Probed(next, h, n, |bs|) == i && forall m: nat | m < n :: !NeverUsed(bs[Probed(next, h, m, |bs|)])
  }

  /** A used bucket holds an entry of `m`. */
  ghost predicate EntryOk<K, V>(b: Bucket<K, V>, m: map<K, V>) {
    !b.deleted && b.slot.Some? && b.slot.value.0 in m && m[b.slot.value.0] == b.slot.value.1
  }

  ghost predicate Held<K(!new), V>(bs: seq<Bucket<K, V>>, k: K) {
    exists i :: 0 <= i < |bs| && HasKey(bs[i], k)
  }

  /** The buckets hold exactly the entries of `m`, each once. */
  ghost predicate Entries<K(!new), V>(bs: seq<Bucket<K, V>>, m: map<K, V>) {
    && (forall i | 0 <= i < |bs| && bs[i].used :: EntryOk(bs[i], m))
    && (forall k | k in m :: Held(bs, k))
    && (forall i, j | 0 <= i < j < |bs| && bs[i].used && bs[j].used :: bs[i].slot.value.0 != bs[j].slot.value.0)
    && |UsedSet(bs)| == |m|
  }

  ghost predicate Reached<K(!new), V>(bs: seq<Bucket<K, V>>, next: Hash -> Hash, h: Hash, i: nat)
    requires |bs| > 0
  {
    exists n: nat :: ReachedAt(bs, next, h, i, n)
  }

  /** ... and each is where its probes will find it. */
  ghost predicate Laid<K(!new), V>(bs: seq<Bucket<K, V>>, hash: K -> Hash, next: Hash -> Hash, m: map<K, V>) {
    && Entries(bs, m)
    && (forall i | 0 <= i < |bs| && bs[i].used :: Reached(bs, next, hash(bs[i].slot.value.0), i))
  }

  /** Where a lookup of `k` stops: at its entry or at a never-used bucket. */
  predicate Stops<K(==), V>(b: Bucket<K, V>, k: K) { HasKey(b, k) || NeverUsed(b) }

  /** Tombstones never hide an entry: a lookup cannot pass a never-used bucket before finding it. */
  lemma StopIsRight<K(!new), V>(bs: seq<Bucket<K, V>>, hash: K -> Hash, next: Hash -> Hash, m: map<K, V>, k: K, n: nat)
    requires |bs| > 0 && Laid(bs, hash, next, m)
    requires forall j: nat | j < n :: !Stops(bs[Probed(next, hash(k), j, |bs|)], k)
    requires NeverUsed(bs[Probed(next, hash(k), n, |bs|)])
    ensures k !in m
  {
  }

  lemma PlaceEntries<K(!new), V>(bs: seq<Bucket<K, V>>, m: map<K, V>, k: K, v: V, i: nat)
    requires Entries(bs, m) && k !in m && i < |bs| && !bs[i].used
    ensures Entries(bs[i := Bucket(true, false, Some((k, v)))], m[k := v])
  {
    var cs, w := bs[i := Bucket(true, false, Some((k, v)))], m[k := v];
    UsedAfterUpdate(bs, i, cs[i]);
    forall x | x in w ensures Held(cs, x) {
      if x == k {
        assert HasKey(cs[i], x);
      } else {
        var j :| 0 <= j < |bs| && HasKey(bs[j], x);
        assert HasKey(cs[j], x);
      }
    }
    forall j | 0 <= j < |cs| && cs[j].used ensures EntryOk(cs[j], w) {
      assert j != i ==> EntryOk(bs[j], m);
    }
  }

  /** Filling the first free place on the probes of a new key. */
  lemma PlaceLaid<K(!new), V>(bs: seq<Bucket<K, V>>, hash: K -> Hash, next: Hash -> Hash, m: map<K, V>,
                              k: K, v: V, i: nat, n: nat)
    requires |bs| > 0 && Laid(bs, hash, next, m) && k !in m && i < |bs| && !bs[i].used
    requires ReachedAt(bs, next, hash(k), i, n)
    ensures Laid(bs[i := Bucket(true, false, Some((k, v)))], hash, next, m[k := v])
  {
    var cs := bs[i := Bucket(true, false, Some((k, v)))];
    PlaceEntries(bs, m, k, v, i);
    forall j | 0 <= j < |cs| && cs[j].used ensures Reached(cs, next, hash(cs[j].slot.value.0), j) {
      if j == i {
        assert ReachedAt(cs, next, hash(k), i, n);
      } else {
        var p: nat :| ReachedAt(bs, next, hash(bs[j].slot.value.0), j, p);
        assert ReachedAt(cs, next, hash(cs[j].slot.value.0), j, p);
      }
    }
  }

  lemma ReplaceEntries<K(!new), V>(bs: seq<Bucket<K, V>>, m: map<K, V>, k: K, v: V, i: nat)
    requires Entries(bs, m) && i < |bs| && HasKey(bs[i], k)
    ensures k in m && Entries(bs[i := bs[i].(slot := Some((k, v)))], m[k := v])
  {
    var cs, w := bs[i := bs[i].(slot := Some((k, v)))], m[k := v];
    assert EntryOk(bs[i], m);
    UsedAfterUpdate(bs, i, cs[i]);
    assert w.Keys == m.Keys;
    forall x | x in w ensures Held(cs, x) {
      var j :| 0 <= j < |bs| && HasKey(bs[j], x);
      assert HasKey(cs[j], x);
    }
    forall j | 0 <= j < |cs| && cs[j].used ensures EntryOk(cs[j], w) {
      assert EntryOk(bs[j], m) && (j == i || j < i || i < j);
    }
  }

  lemma ReplaceLaid<K(!new), V>(bs: seq<Bucket<K, V>>, hash: K -> Hash, next: Hash -> Hash, m: map<K, V>, k: K, v: V,
                                i: nat)
    requires Laid(bs, hash, next, m) && i < |bs| && HasKey(bs[i], k)
    ensures k in m && Laid(bs[i := bs[i].(slot := Some((k, v)))], hash, next, m[k := v])
  {
    var cs := bs[i := bs[i].(slot := Some((k, v)))];
    ReplaceEntries(bs, m, k, v, i);
    forall j | 0 <= j < |cs| && cs[j].used ensures Reached(cs, next, hash(cs[j].slot.value.0), j) {
      var p: nat :| ReachedAt(bs, next, hash(bs[j].slot.value.0), j, p);
      assert ReachedAt(cs, next, hash(cs[j].slot.value.0), j, p);
    }
  }

  lemma OneKeyLess<K, V>(m: map<K, V>, k: K)
    requires k in m
    ensures |m - {k}| == |m| - 1
  {
    assert (m - {k}).Keys == m.Keys - {k};
  }

  lemma EraseEntries<K(!new), V>(bs: seq<Bucket<K, V>>, m: map<K, V>, k: K, i: nat)
    requires Entries(bs, m) && i < |bs| && HasKey(bs[i], k)
    ensures k in m && Entries(bs[i := Bucket(false, true, None)], m - {k})
  {
    var cs, w := bs[i := Bucket(false, true, None)], m - {k};
    UsedAfterUpdate(bs, i, cs[i]);
    OneKeyLess(m, k);
    forall j | 0 <= j < |cs| && cs[j].used ensures EntryOk(cs[j], w) {
      assert EntryOk(bs[j], m) && (j < i || i < j);
    }
    forall x | x in w ensures Held(cs, x) {
      var j :| 0 <= j < |bs| && HasKey(bs[j], x);
      assert HasKey(cs[j], x);
    }
  }

  /** A tombstone keeps every probe sequence going. */
  lemma EraseLaid<K(!new), V>(bs: seq<Bucket<K, V>>, hash: K -> Hash, next: Hash -> Hash, m: map<K, V>, k: K, i: nat)
    requires Laid(bs, hash, next, m) && i < |bs| && HasKey(bs[i], k)
    ensures k in m && Laid(bs[i := Bucket(false, true, None)], hash, next, m - {k})
  {
    var cs := bs[i := Bucket(false, true, None)];
    EraseEntries(bs, m, k, i);
    forall j | 0 <= j < |cs| && cs[j].used ensures Reached(cs, next, hash(cs[j].slot.value.0), j) {
      var p: nat :| ReachedAt(bs, next, hash(bs[j].slot.value.0), j, p);
      assert ReachedAt(cs, next, hash(cs[j].slot.value.0), j, p);
    }
  }

  lemma EmptyLaid<K(!new), V>(bs: seq<Bucket<K, V>>, hash: K -> Hash, next: Hash -> Hash)
    requires forall i | 0 <= i < |bs| :: bs[i] == EmptyBucket()
    ensures Laid(bs, hash, next, map[]) && DeletedSet(bs) == {}
  {
    assert UsedSet(bs) == {} && DeletedSet(bs) == {};
  }

  /** The entries of a sequence of buckets, left to right. */
  ghost function Gather<K, V>(bs: seq<Bucket<K, V>>): map<K, V> {
    if bs == [] then map[]
    else
      var rest, b := Gather(bs[..|bs| - 1]), bs[|bs| - 1];
      if b.used && b.slot.Some? then rest[b.slot.value.0 := b.slot.value.1] else rest
  }

  lemma {:induction false} GatherKeys<K, V>(bs: seq<Bucket<K, V>>, k: K) returns (i: nat)
    requires k in Gather(bs)
    ensures i < |bs| && HasKey(bs[i], k) && bs[i].slot.value.1 == Gather(bs)[k]
  {
    var last := |bs| - 1;
    if HasKey(bs[last], k) {
      i := last;
    } else {
      i := GatherKeys(bs[..last], k);
    }
  }

  lemma {:induction false} GatherHas<K, V>(bs: seq<Bucket<K, V>>, i: nat)
    requires i < |bs| && bs[i].used && bs[i].slot.Some?
    ensures bs[i].slot.value.0 in Gather(bs)
  {
    var last := |bs| - 1;
    if i < last {
      GatherHas(bs[..last], i);
    }
  }

  lemma GatherNext<K(!new), V>(bs: seq<Bucket<K, V>>, m: map<K, V>, n: nat)
    requires Entries(bs, m) && n < |bs| && bs[n].used
    ensures bs[n].slot.value.0 !in Gather(bs[..n])
  {
    var k := bs[n].slot.value.0;
    if k in Gather(bs[..n]) {
      var i := GatherKeys(bs[..n], k);
    }
  }

  lemma GatherAll<K(!new), V>(bs: seq<Bucket<K, V>>, m: map<K, V>)
    requires Entries(bs, m)
    ensures Gather(bs) == m
  {
    forall k | k in m ensures k in Gather(bs) {
      var i :| 0 <= i < |bs| && HasKey(bs[i], k);
      GatherHas(bs, i);
    }
    forall k | k in Gather(bs) ensures k in m && m[k] == Gather(bs)[k] {
      var i := GatherKeys(bs, k);
    }
  }

  // ----- the table -----

  const LOAD_FACTOR_IN_PERCENT: nat := 60

  predicate ShouldGrow(size: nat, deleted: nat, capacity: nat) {
    (size + deleted + 1) * 100 >= capacity * LOAD_FACTOR_IN_PERCENT
  }

  predicate LightlyLoaded(size: nat, deleted: nat, capacity: nat) {
    (size + deleted) * 100 < capacity * LOAD_FACTOR_IN_PERCENT
  }

  /** How far a capacity is from holding `size` entries: a growing rehash makes this smaller. */
  function Shortage(size: nat, capacity: nat): nat {
    if ShouldGrow(size, 0, capacity) then (size + 1) * 100 - capacity * LOAD_FACTOR_IN_PERCENT + 1 else 0
  }

  class HashTable<K(==, !new), V> {
    const hash: K -> Hash
    const next: Hash -> Hash
    var buckets: seq<Bucket<K, V>>
    var size: nat
    var deletedCount: nat

    constructor (hash: K -> Hash, next: Hash -> Hash)
      ensures this.hash == hash && this.next == next && Valid(map[])
    {
      this.hash, this.next := hash, next;
      buckets, size, deletedCount := [], 0, 0;
    }

    /** The table holds exactly `m`; counts are true; once allocated it is lightly loaded. */
    ghost predicate Valid(m: map<K, V>)
      reads this
    {
      && Laid(buckets, hash, next, m)
      && size == |UsedSet(buckets)| && deletedCount == |DeletedSet(buckets)|
      && (|buckets| == 0 || LightlyLoaded(size, deletedCount, |buckets|))
    }

    /** Every probe of `k` for ever passes over both its entry and a never-used bucket. */
    ghost predicate NeverStops(k: K)
      reads this
    {
      |buckets| > 0 && forall n: nat :: !Stops(buckets[Probed(next, hash(k), n, |buckets|)], k)
    }

    lemma NeverStopsAfterAll(k: K)
      requires |buckets| > 0
      requires forall n: nat | n < HASHES :: !Stops(buckets[Probed(next, hash(k), n, |buckets|)], k)
      ensures NeverStops(k)
    {
      forall n: nat ensures !Stops(buckets[Probed(next, hash(k), n, |buckets|)], k) {
        var m := OrbitRepeats(next, hash(k), n);
        assert Probed(next, hash(k), m, |buckets|) == Probed(next, hash(k), n, |buckets|);
      }
    }

/** The probing loop: the first bucket that stops it. */
    method Probe(k: K) returns (hung: bool, i: nat, ghost n: nat)
      requires |buckets| > 0
      ensures hung <==> NeverStops(k)
      ensures !hung ==>
        && i < |buckets| && i == Probed(next, hash(k), n, |buckets|) && Stops(buckets[i], k)
        && forall j: nat | j < n :: !Stops(buckets[Probed(next, hash(k), j, |buckets|)], k)
    {
      var h := hash(k);
      n := 0;
      for c := 0 to HASHES
        invariant n == c && h == Orbit(next, hash(k), n)
        invariant forall j: nat | j < n :: !Stops(buckets[Probed(next, hash(k), j, |buckets|)], k)
      {
        i := h % |buckets|;
        assert i == Probed(next, hash(k), n, |buckets|);
        if HasKey(buckets[i], k) || (!buckets[i].used && !buckets[i].deleted) {
          return false, i, n;
        }
        h := next(h);
        n := n + 1;
      }
      NeverStopsAfterAll(k);
      return true, 0, n;
    }

    method Lookup(k: K, ghost m: map<K, V>) returns (hung: bool, found: Option<nat>)
      requires Valid(m)
      ensures hung <==> size > 0 && NeverStops(k)
      ensures !hung && found.Some? ==> found.value < |buckets| && HasKey(buckets[found.value], k)
      ensures !hung ==> (found.Some? <==> k in m)
    {
      if size == 0 {
        assert UsedSet(buckets) == {};
        return false, None;
      }
      assert |buckets| > 0 by {
        assert |buckets| == 0 ==> UsedSet(buckets) == {};
      }
      var i;
      ghost var n;
      hung, i, n := Probe(k);
      if hung {
        return true, None;
      }
      if HasKey(buckets[i], k) {
        return false, Some(i);
      }
      StopIsRight(buckets, hash, next, m, k, n);
      return false, None;
    }

    /** The bucket where `k` is, or where a new entry for it belongs; grows the table first if it is loaded. */
    method LookupForWriting(k: K, ghost m: map<K, V>) returns (hung: bool, at: nat)
      requires Laid(buckets, hash, next, m) && deletedCount == |DeletedSet(buckets)|
      modifies this`buckets, this`deletedCount
      ensures hung ==> exists x :: NeverStops(x)
      ensures !hung ==> Laid(buckets, hash, next, m) && deletedCount == |DeletedSet(buckets)| && at < |buckets|
      ensures !hung ==> (HasKey(buckets[at], k) <==> k in m) && (k !in m ==> !buckets[at].used)
      ensures !hung && k !in m ==> Reached(buckets, next, hash(k), at)
      ensures !hung && buckets != old(buckets) ==>
                deletedCount == 0 && |buckets| >= 4 && |buckets| >= 2 * old(|buckets|)
      ensures !hung && ShouldGrow(size, old(deletedCount), old(|buckets|)) ==> buckets != old(buckets)
      decreases deletedCount > 0, Shortage(size, |buckets|), 0
    {
      if ShouldGrow(size, deletedCount, |buckets|) {
        hung := Rehash(2 * |buckets|, m);
        if hung {
          return hung, 0;
        }
      }
      hung, at := ProbeForWriting(k, m);
    }

    method ProbeForWriting(k: K, ghost m: map<K, V>) returns (hung: bool, at: nat)
      requires Laid(buckets, hash, next, m) && |buckets| > 0
      ensures hung <==> NeverStops(k)
      ensures !hung ==> at < |buckets| && (HasKey(buckets[at], k) <==> k in m) && (k !in m ==> !buckets[at].used)
      ensures !hung && k !in m ==> Reached(buckets, next, hash(k), at)
    {
      var h := hash(k);
      var firstEmpty: Option<nat> := None;
      ghost var p := 0;
      for n := 0 to HASHES
        invariant h == Orbit(next, hash(k), n)
        invariant forall j: nat | j < n :: !Stops(buckets[Probed(next, hash(k), j, |buckets|)], k)
        invariant firstEmpty.Some? ==>
          firstEmpty.value < |buckets| && !buckets[firstEmpty.value].used
            && ReachedAt(buckets, next, hash(k), firstEmpty.value, p)
      {
        var i := h % |buckets|;
        assert i == Probed(next, hash(k), n, |buckets|);
        if HasKey(buckets[i], k) {
          return false, i;
        }
        if !buckets[i].used {
          if firstEmpty == None {
            firstEmpty := Some(i);
            p := n;
            assert ReachedAt(buckets, next, hash(k), i, p);
          }
          if !buckets[i].deleted {
            StopIsRight(buckets, hash, next, m, k, n);
            return false, firstEmpty.value;
          }
        }
        h := next(h);
      }
      NeverStopsAfterAll(k);
      return true, 0;
    }

    /** Moves every entry into at least `newCapacity` fresh buckets. */
    method Rehash(newCapacity: nat, ghost m: map<K, V>) returns (hung: bool)
      requires Laid(buckets, hash, next, m)
      modifies this`buckets, this`deletedCount
      ensures hung ==> exists x :: NeverStops(x)
      ensures !hung ==> Laid(buckets, hash, next, m) && deletedCount == 0 == |DeletedSet(buckets)|
      ensures !hung ==> |buckets| >= newCapacity && |buckets| >= 4
      decreases false, Shortage(size, if newCapacity < 4 then 4 else newCapacity), 4
    {
      var capacity := if newCapacity < 4 then 4 else newCapacity;
      var oldBuckets := buckets;
      buckets := seq(capacity, _ => EmptyBucket());
      deletedCount := 0;
      EmptyLaid(buckets, hash, next);
      hung := MoveEntries(oldBuckets, m);
    }

    /** The loop of rehash. */
    method MoveEntries(oldBuckets: seq<Bucket<K, V>>, ghost m: map<K, V>) returns (hung: bool)
      requires Entries(oldBuckets, m)
      requires Laid(buckets, hash, next, map[]) && deletedCount == 0 == |DeletedSet(buckets)|
      modifies this`buckets, this`deletedCount
      ensures hung ==> exists x :: NeverStops(x)
      ensures !hung ==> Laid(buckets, hash, next, m) && deletedCount == 0 == |DeletedSet(buckets)|
      ensures !hung ==> |buckets| >= old(|buckets|)
      decreases false, Shortage(size, |buckets|), 3
    {
      for i := 0 to |oldBuckets|
        invariant Laid(buckets, hash, next, Gather(oldBuckets[..i])) && deletedCount == 0 == |DeletedSet(buckets)|
        invariant |buckets| >= old(|buckets|)
      {
        hung := MoveEntry(oldBuckets, i, m);
        if hung {
          return true;
        }
      }
      assert oldBuckets[..|oldBuckets|] == oldBuckets;
      GatherAll(oldBuckets, m);
      return false;
    }

    method MoveEntry(oldBuckets: seq<Bucket<K, V>>, i: nat, ghost m: map<K, V>) returns (hung: bool)
      requires Entries(oldBuckets, m) && i < |oldBuckets|
      requires Laid(buckets, hash, next, Gather(oldBuckets[..i])) && deletedCount == 0 == |DeletedSet(buckets)|
      modifies this`buckets, this`deletedCount
      ensures hung ==> exists x :: NeverStops(x)
      ensures !hung ==>
                Laid(buckets, hash, next, Gather(oldBuckets[..i + 1])) && deletedCount == 0 == |DeletedSet(buckets)|
      ensures !hung ==> |buckets| >= old(|buckets|)
      decreases false, Shortage(size, |buckets|), 2
    {
      assert oldBuckets[..i + 1][..i] == oldBuckets[..i];
      if oldBuckets[i].used {
        GatherNext(oldBuckets, m, i);
        var (k, v) := oldBuckets[i].slot.value;
        hung := InsertDuringRehash(k, v, Gather(oldBuckets[..i]));
      } else {
        hung := false;
      }
    }

    method InsertDuringRehash(k: K, v: V, ghost m: map<K, V>) returns (hung: bool)
      requires Laid(buckets, hash, next, m) && deletedCount == 0 == |DeletedSet(buckets)| && k !in m
      modifies this`buckets, this`deletedCount
      ensures hung ==> exists x :: NeverStops(x)
      ensures !hung ==> Laid(buckets, hash, next, m[k := v]) && deletedCount == 0 == |DeletedSet(buckets)|
      ensures !hung ==> |buckets| >= old(|buckets|)
      decreases false, Shortage(size, |buckets|), 1
    {
      var at;
      hung, at := LookupForWriting(k, m);
      if !hung {
        ghost var n: nat :| ReachedAt(buckets, next, hash(k), at, n);
        assert at !in DeletedSet(buckets);
        PlaceLaid(buckets, hash, next, m, k, v, at, n);
        DeletedAfterUpdate(buckets, at, Bucket(true, false, Some((k, v))));
        buckets := buckets[at := buckets[at].(slot := Some((k, v)), used := true)];
      }
    }

    /** HashTable::set: whether an equal entry was replaced. */
    method Set(k: K, v: V, ghost m: map<K, V>) returns (hung: bool, replaced: bool)
      requires Valid(m)
      modifies this
      ensures hung ==> exists x :: NeverStops(x)
      ensures !hung ==> Valid(m[k := v]) && replaced == (k in m)
    {
      var at;
      hung, at := LookupForWriting(k, m);
      if hung {
        return true, false;
      }
      if buckets[at].used {
        ReplaceLaid(buckets, hash, next, m, k, v, at);
        DeletedAfterUpdate(buckets, at, buckets[at].(slot := Some((k, v))));
        buckets := buckets[at := buckets[at].(slot := Some((k, v)))];
        return false, true;
      }
      ghost var n: nat :| ReachedAt(buckets, next, hash(k), at, n);
      PlaceLaid(buckets, hash, next, m, k, v, at, n);
      DeletedAfterUpdate(buckets, at, Bucket(true, false, Some((k, v))));
      assert buckets[at].deleted ==> at in DeletedSet(buckets);
      if buckets[at].deleted {
        deletedCount := deletedCount - 1;
      }
      buckets := buckets[at := Bucket(true, false, Some((k, v)))];
      size := size + 1;
      return false, false;
    }

    /** HashTable::remove(value): whether there was something to remove. */
    method Remove(k: K, ghost m: map<K, V>) returns (hung: bool, removed: bool)
      requires Valid(m)
      modifies this
      ensures hung <==> old(size > 0 && NeverStops(k))
      ensures hung ==> NeverStops(k)
      ensures !hung ==> Valid(m - {k}) && removed == (k in m)
    {
      var at;
      hung, at := Lookup(k, m);
      if hung || at == None {
        assert k !in m ==> m - {k} == m;
        return hung, false;
      }
      EraseLaid(buckets, hash, next, m, k, at.value);
      UsedAfterUpdate(buckets, at.value, Bucket(false, true, None));
      DeletedAfterUpdate(buckets, at.value, Bucket(false, true, None));
      buckets := buckets[at.value := Bucket(false, true, None)];
      size := size - 1;
      deletedCount := deletedCount + 1;
      return false, true;
    }

    method EnsureCapacity(capacity: nat, ghost m: map<K, V>) returns (hung: bool)
      requires Valid(m) && capacity >= size
      modifies this
      ensures hung ==> exists x :: NeverStops(x)
      ensures !hung ==> Valid(m) && |buckets| >= 2 * capacity
    {
      hung := Rehash(2 * capacity, m);
    }

    /** A lightly loaded table has a never-used bucket ... */
    lemma HasNeverUsed(m: map<K, V>)
      requires Valid(m) && |buckets| > 0
      ensures exists i :: 0 <= i < |buckets| && NeverUsed(buckets[i])
    {
      if forall i | 0 <= i < |buckets| :: !NeverUsed(buckets[i]) {
        AllTaken(buckets);
      }
    }

    /** ... so an operation can hang only on a hash whose probes miss some bucket for ever. */
    lemma CoveringProbesStop(m: map<K, V>, k: K)
      requires Valid(m) && |buckets| > 0
      requires forall i: nat | i < |buckets| :: Visits(next, hash(k), |buckets|, i)
      ensures !NeverStops(k)
    {
      HasNeverUsed(m);
      var i: nat :| i < |buckets| && NeverUsed(buckets[i]);
      assert Visits(next, hash(k), |buckets|, i);
      var n: nat :| Probed(next, hash(k), n, |buckets|) == i;
      assert Stops(buckets[Probed(next, hash(k), n, |buckets|)], k);
    }
  }

  lemma {:induction false} AllTaken<K, V>(bs: seq<Bucket<K, V>>)
    requires forall i | 0 <= i < |bs| :: !NeverUsed(bs[i])
    ensures |UsedSet(bs)| + |DeletedSet(bs)| >= |bs|
  {
    if bs != [] {
      var last := |bs| - 1;
      AllTaken(bs[..last]);
      LastUsed(bs, last);
      LastDeleted(bs, last);
    }
  }

  lemma LastUsed<K, V>(bs: seq<Bucket<K, V>>, last: nat)
    requires last == |bs| - 1
    ensures |UsedSet(bs)| == |UsedSet(bs[..last])| + if bs[last].used then 1 else 0
  {
    assert UsedSet(bs) == UsedSet(bs[..last]) + if bs[last].used then {last} else {};
  }

  lemma LastDeleted<K, V>(bs: seq<Bucket<K, V>>, last: nat)
    requires last == |bs| - 1
    ensures |DeletedSet(bs)| == |DeletedSet(bs[..last])| + if bs[last].deleted then 1 else 0
  {
    assert DeletedSet(bs) == DeletedSet(bs[..last]) + if bs[last].deleted then {last} else {};
  }

  // ----- whole runs -----

  /** Reserve asks for room for that many entries more than there are. */
  datatype Op<K, V> = Put(k: K, v: V) | Delete(k: K) | Reserve(more: nat)

  /** The map that a sequence of operations means. */
  ghost function Replay<K, V>(ops: seq<Op<K, V>>): map<K, V> {
    if ops == [] then map[]
    else Meaning(Replay(ops[..|ops| - 1]), ops[|ops| - 1])
  }

  ghost function Meaning<K, V>(m: map<K, V>, op: Op<K, V>): map<K, V> {
    match op
    case Put(k, v) => m[k := v]
    case Delete(k) => m - {k}
    case Reserve(_) => m
  }

  method Apply<K(==, !new), V>(t: HashTable<K, V>, op: Op<K, V>, ghost m: map<K, V>) returns (hung: bool)
    requires t.Valid(m)
    modifies t
    ensures if hung then exists x :: t.NeverStops(x) else t.Valid(Meaning(m, op))
  {
    match op
    case Put(k, v) =>
      var replaced;
      hung, replaced := t.Set(k, v, m);
    case Delete(k) =>
      var removed;
      hung, removed := t.Remove(k, m);
    case Reserve(more) => hung := t.EnsureCapacity(t.size + more, m);
  }

  /** Every run leaves exactly the map it means, or comes to a probe that never stops. */
  method Run<K(==, !new), V>(ops: seq<Op<K, V>>, hash: K -> Hash, next: Hash -> Hash)
    returns (hung: bool, t: HashTable<K, V>)
    ensures if hung then exists x :: t.NeverStops(x) else t.Valid(Replay(ops))
  {
    t := new HashTable(hash, next);
    for i := 0 to |ops|
      invariant fresh(t) && t.Valid(Replay(ops[..i]))
    {
      assert ops[..i + 1][..i] == ops[..i];
      hung := Apply(t, ops[i], Replay(ops[..i]));
      if hung {
        return;
      }
    }
    assert ops[..|ops|] == ops;
    return false, t;
  }
}
