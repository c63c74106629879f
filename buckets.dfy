/** Buckets and bucket arrays as values: the slot layout of `bucket_t`
    (include/dht_res.h:71-77), hashing, the slot searches the table
    operations perform, and the abstract contents and invariant of a bucket
    array. */
module Buckets {
  import opened Bits
  import opened BucketLock

  /** ENTRIES_PER_BUCKET (include/dht_res.h:31). */
  const ENTRIES_PER_BUCKET: nat := 3

  /** `clht_addr_t` and `clht_val_t`: pointer-width unsigned words; 0 marks an empty slot. */
  type Key = u64
  type Val = u64

  /** One `bucket_t`: its lock word and its parallel key and value slots.
      The unused `next` field of the overflow variant is not modelled. */
  datatype Bucket = Bucket(lock: LockState, key: seq<Key>, val: seq<Val>)

  predicate WellFormed(b: Bucket) {
    |b.key| == ENTRIES_PER_BUCKET && |b.val| == ENTRIES_PER_BUCKET
  }

  predicate AllWellFormed(bs: seq<Bucket>) {
    forall i :: 0 <= i < |bs| ==> WellFormed(bs[i])
  }

  /** A bucket as `ht_create` leaves it: zeroed by `memset`, lock FREE, keys 0. */
  const ZeroBucket: Bucket := Bucket(Free, [0, 0, 0], [0, 0, 0])

  /** `ht_hash` (src/clht_lb_res_no_next.c:170-179): the key masked with `hash`. */
  function HtHash(mask: nat, key: Key): (bin: nat)
    ensures bin <= mask
  {
    And(key, mask)
  }

  /** With `mask = num_buckets - 1` the bin is a valid bucket index. */
  lemma HashInRange(numBuckets: nat, key: Key)
    requires numBuckets > 0
    ensures HtHash(numBuckets - 1, key) < numBuckets
  {
  }

  /** For a power-of-two bucket count, masking is the remainder modulo the count. */
  lemma HashIsMod(numBuckets: nat, key: Key)
    requires IsPowerOfTwo(numBuckets)
    ensures HtHash(numBuckets - 1, key) == key % numBuckets
  {
    var e := ExponentOf(numBuckets);
    AndMaskIsMod(key, e);
  }

  /** The first slot at or after `from` holding `key`, or -1: the forward scans
      of `ht_get`, `ht_remove` and `ht_put_seq` (the latter looks for key 0). */
  function FindSlot(keys: seq<Key>, key: Key, from: nat): (r: int)
    requires from <= |keys|
    ensures r == -1 || (from <= r < |keys| && keys[r] == key)
    ensures r == -1 <==> forall j :: from <= j < |keys| ==> keys[j] != key
    ensures r >= 0 ==> forall j :: from <= j < r ==> keys[j] != key
    decreases |keys| - from
  {
    if from == |keys| then -1
    else if keys[from] == key then from
    else FindSlot(keys, key, from + 1)
  }

  /** The last slot below `upto` holding `key`, or -1: `ht_put` remembers the
      last empty slot it passes. */
  function LastSlot(keys: seq<Key>, key: Key, upto: nat): (r: int)
    requires upto <= |keys|
    ensures r == -1 || (0 <= r < upto && keys[r] == key)
    ensures r == -1 <==> forall j :: 0 <= j < upto ==> keys[j] != key
    ensures r >= 0 ==> forall j :: r < j < upto ==> keys[j] != key
  {
    if upto == 0 then -1
    else if keys[upto - 1] == key then upto - 1
    else LastSlot(keys, key, upto - 1)
  }

  /** What `ht_get` returns for a bucket: the value beside the first slot
      holding `key`, or 0. */
  function Lookup(b: Bucket, key: Key): (v: Val)
    requires WellFormed(b)
    ensures (exists j :: 0 <= j < ENTRIES_PER_BUCKET && b.key[j] == key) ==>
      exists j :: 0 <= j < ENTRIES_PER_BUCKET && b.key[j] == key && v == b.val[j] &&
        forall i :: 0 <= i < j ==> b.key[i] != key
    ensures (forall j :: 0 <= j < ENTRIES_PER_BUCKET ==> b.key[j] != key) ==> v == 0
  {
    var j := FindSlot(b.key, key, 0);
    if j >= 0 then b.val[j] else 0
  }

  /** Slot `j` overwritten with `(key, val)`. */
  function SetSlot(b: Bucket, j: nat, key: Key, val: Val): (r: Bucket)
    requires WellFormed(b) && j < ENTRIES_PER_BUCKET
    ensures WellFormed(r)
  {
    b.(key := b.key[j := key], val := b.val[j := val])
  }

  /** The (key, value) pairs of the occupied slots below `upto`. */
  function SlotsBelow(b: Bucket, upto: nat): (pairs: set<(Key, Val)>)
    requires WellFormed(b) && upto <= ENTRIES_PER_BUCKET
  {
    set j | 0 <= j < upto && b.key[j] != 0 :: (b.key[j], b.val[j])
  }

  /** The (key, value) pairs of the occupied slots of a bucket. */
  function BucketEntries(b: Bucket): (pairs: set<(Key, Val)>)
    requires WellFormed(b)
  {
    SlotsBelow(b, ENTRIES_PER_BUCKET)
  }

  /** The (key, value) pairs stored in a bucket array: the table's contents. */
  function Entries(bs: seq<Bucket>): (pairs: set<(Key, Val)>)
    requires AllWellFormed(bs)
    decreases |bs|
  {
    if bs == [] then {} else Entries(bs[..|bs| - 1]) + BucketEntries(bs[|bs| - 1])
  }

  /** Number of nonzero keys. */
  function LiveSlots(keys: seq<Key>): (n: nat)
    decreases |keys|
  {
    if keys == [] then 0 else LiveSlots(keys[..|keys| - 1]) + (if keys[|keys| - 1] != 0 then 1 else 0)
  }

  /** Number of occupied slots of a bucket array: what `ht_size` counts. */
  function Count(bs: seq<Bucket>): (n: nat)
    decreases |bs|
  {
    if bs == [] then 0 else Count(bs[..|bs| - 1]) + LiveSlots(bs[|bs| - 1].key)
  }

  /** Every occupied slot sits in the bucket its key hashes to. */
  ghost predicate Placed(bs: seq<Bucket>, mask: nat)
    requires AllWellFormed(bs)
  {
    forall b, j :: 0 <= b < |bs| && 0 <= j < ENTRIES_PER_BUCKET && bs[b].key[j] != 0 ==>
      HtHash(mask, bs[b].key[j]) == b
  }

  /** No key occupies two slots of the bucket. */
  ghost predicate DistinctLive(b: Bucket)
    requires WellFormed(b)
  {
    forall i, j :: 0 <= i < j < ENTRIES_PER_BUCKET && b.key[i] != 0 ==> b.key[i] != b.key[j]
  }

  /** An occupied slot of bucket `b` holds a key that hashes to `b`. */
  lemma PlacedAt(bs: seq<Bucket>, mask: nat, b: nat, j: nat)
    requires AllWellFormed(bs) && Placed(bs, mask) && b < |bs| && j < ENTRIES_PER_BUCKET && bs[b].key[j] != 0
    ensures HtHash(mask, bs[b].key[j]) == b
  {
  }

  ghost predicate UniqueInBuckets(bs: seq<Bucket>)
    requires AllWellFormed(bs)
  {
    forall b :: 0 <= b < |bs| ==> DistinctLive(bs[b])
  }

  /** The invariant of a table generation's bucket array under mask `mask`. */
  ghost predicate TableInvariant(bs: seq<Bucket>, mask: nat) {
    AllWellFormed(bs) && |bs| == mask + 1 && Placed(bs, mask) && UniqueInBuckets(bs)
  }

  /** A key never occupies two slots of the whole table. */
  lemma NoKeyInTwoSlots(bs: seq<Bucket>, mask: nat, b1: nat, j1: nat, b2: nat, j2: nat)
    requires TableInvariant(bs, mask)
    requires b1 < |bs| && b2 < |bs| && j1 < ENTRIES_PER_BUCKET && j2 < ENTRIES_PER_BUCKET
    requires bs[b1].key[j1] != 0 && bs[b1].key[j1] == bs[b2].key[j2]
    ensures b1 == b2 && j1 == j2
  {
    assert b1 == b2;
    assert DistinctLive(bs[b1]);
  }

  // ---------------------------------------------------------------------
  // Contents of bucket arrays
  // ---------------------------------------------------------------------

  lemma {:induction false} EntriesAppend(a: seq<Bucket>, c: seq<Bucket>)
    requires AllWellFormed(a) && AllWellFormed(c)
    ensures AllWellFormed(a + c)
    ensures Entries(a + c) == Entries(a) + Entries(c)
    decreases |c|
  {
    if c != [] {
      var c' := c[..|c| - 1];
      assert (a + c)[..|a + c| - 1] == a + c';
      EntriesAppend(a, c');
    } else {
      assert a + c == a;
    }
  }

  lemma {:induction false} CountAppend(a: seq<Bucket>, c: seq<Bucket>)
    ensures Count(a + c) == Count(a) + Count(c)
    decreases |c|
  {
    if c != [] {
      var c' := c[..|c| - 1];
      assert (a + c)[..|a + c| - 1] == a + c';
      CountAppend(a, c');
    } else {
      assert a + c == a;
    }
  }

  lemma Singleton(x: Bucket)
    requires WellFormed(x)
    ensures AllWellFormed([x])
    ensures Entries([x]) == BucketEntries(x)
    ensures Count([x]) == LiveSlots(x.key)
  {
    assert [x][..0] == [];
  }

  /** A sequence is its prefix, its `i`-th element and its suffix. */
  lemma SplitAt<T>(s: seq<T>, i: nat)
    requires i < |s|
    ensures s == (s[..i] + [s[i]]) + s[i + 1..]
  {
  }

  /** The contents split around bucket `i`. */
  lemma EntriesAround(bs: seq<Bucket>, i: nat)
    requires AllWellFormed(bs) && i < |bs|
    ensures AllWellFormed(bs[..i]) && AllWellFormed(bs[i + 1..])
    ensures Entries(bs) == Entries(bs[..i]) + BucketEntries(bs[i]) + Entries(bs[i + 1..])
  {
    var a, c := bs[..i], bs[i + 1..];
    SplitAt(bs, i);
    Singleton(bs[i]);
    EntriesAppend(a, [bs[i]]);
    EntriesAppend(a + [bs[i]], c);
  }

  lemma CountAround(bs: seq<Bucket>, i: nat)
    requires i < |bs|
    ensures Count(bs) == Count(bs[..i]) + LiveSlots(bs[i].key) + Count(bs[i + 1..])
  {
    var a, c := bs[..i], bs[i + 1..];
    SplitAt(bs, i);
    assert [bs[i]][..0] == [];
    CountAppend(a, [bs[i]]);
    CountAppend(a + [bs[i]], c);
  }

  /** Replacing bucket `i` changes the contents only through that bucket. */
  lemma EntriesUpdate(bs: seq<Bucket>, i: nat, x: Bucket)
    requires AllWellFormed(bs) && i < |bs| && WellFormed(x)
    ensures AllWellFormed(bs[i := x])
    ensures Entries(bs[i := x]) == Entries(bs[..i]) + BucketEntries(x) + Entries(bs[i + 1..])
    ensures Count(bs[i := x]) == Count(bs) - LiveSlots(bs[i].key) + LiveSlots(x.key)
  {
    var bs' := bs[i := x];
    EntriesAround(bs', i);
    CountAround(bs, i);
    CountAround(bs', i);
    assert bs'[..i] == bs[..i] && bs'[i + 1..] == bs[i + 1..];
  }

  /** A pair is stored exactly when some occupied slot holds it. */
  lemma {:induction false} InEntries(bs: seq<Bucket>, p: (Key, Val))
    requires AllWellFormed(bs)
    ensures p in Entries(bs) <==>
      exists b, j :: 0 <= b < |bs| && 0 <= j < ENTRIES_PER_BUCKET && bs[b].key[j] != 0 &&
        p == (bs[b].key[j], bs[b].val[j])
    decreases |bs|
  {
    if bs != [] {
      var n := |bs| - 1;
      InEntries(bs[..n], p);
      if p in Entries(bs) && p !in Entries(bs[..n]) {
        var j :| 0 <= j < ENTRIES_PER_BUCKET && bs[n].key[j] != 0 && p == (bs[n].key[j], bs[n].val[j]);
        assert bs[n].key[j] != 0 && p == (bs[n].key[j], bs[n].val[j]);
      }
      if exists b, j :: 0 <= b < |bs| && 0 <= j < ENTRIES_PER_BUCKET && bs[b].key[j] != 0 &&
          p == (bs[b].key[j], bs[b].val[j]) {
        var b, j :| 0 <= b < |bs| && 0 <= j < ENTRIES_PER_BUCKET && bs[b].key[j] != 0 &&
          p == (bs[b].key[j], bs[b].val[j]);
        if b < n {
          assert bs[..n][b] == bs[b];
        } else {
          assert p in BucketEntries(bs[n]);
        }
      }
    }
  }

  /** `ht_get` agrees with the contents: for a nonzero key, `(key, v)` is stored
      exactly when the key's bucket holds the key and `v` is what the lookup finds. */
  lemma LookupAgrees(bs: seq<Bucket>, mask: nat, key: Key, v: Val)
    requires TableInvariant(bs, mask) && key != 0
    ensures (key, v) in Entries(bs) <==>
      FindSlot(bs[HtHash(mask, key)].key, key, 0) >= 0 && v == Lookup(bs[HtHash(mask, key)], key)
  {
    var bin := HtHash(mask, key);
    InEntries(bs, (key, v));
    var j := FindSlot(bs[bin].key, key, 0);
    if (key, v) in Entries(bs) {
      var b, i :| 0 <= b < |bs| && 0 <= i < ENTRIES_PER_BUCKET && bs[b].key[i] != 0 &&
        (key, v) == (bs[b].key[i], bs[b].val[i]);
      assert b == bin;
    }
    if j >= 0 && v == Lookup(bs[bin], key) {
      assert bs[bin].key[j] != 0 && (key, v) == (bs[bin].key[j], bs[bin].val[j]);
    }
  }

  /** Key 0 marks an empty slot and is never part of the contents. */
  lemma ZeroNeverStored(bs: seq<Bucket>)
    requires AllWellFormed(bs)
    ensures forall w :: (0, w) !in Entries(bs)
  {
    forall w: Val ensures (0, w) !in Entries(bs) {
      InEntries(bs, (0, w));
    }
  }

  /** A nonzero key is stored, with some value, exactly when the bucket it
      hashes to holds it: `bucket_exists` on that bucket decides membership. */
  lemma KeyPresent(bs: seq<Bucket>, mask: nat, key: Key)
    requires TableInvariant(bs, mask) && key != 0
    ensures (exists w :: (key, w) in Entries(bs)) <==> FindSlot(bs[HtHash(mask, key)].key, key, 0) >= 0
  {
    var bin := HtHash(mask, key);
    LookupAgrees(bs, mask, key, Lookup(bs[bin], key));
    if exists w :: (key, w) in Entries(bs) {
      var w :| (key, w) in Entries(bs);
      LookupAgrees(bs, mask, key, w);
    }
  }

  // ---------------------------------------------------------------------
  // Single-slot changes
  // ---------------------------------------------------------------------

  lemma {:induction false} LiveSlotsUpdate(keys: seq<Key>, j: nat, x: Key)
    requires j < |keys|
    ensures LiveSlots(keys[j := x]) ==
      LiveSlots(keys) - (if keys[j] != 0 then 1 else 0) + (if x != 0 then 1 else 0)
    decreases |keys|
  {
    var n := |keys| - 1;
    if j == n {
      assert keys[j := x][..n] == keys[..n];
    } else {
      assert keys[j := x][..n] == keys[..n][j := x];
      LiveSlotsUpdate(keys[..n], j, x);
    }
  }

  /** A bucket has an empty slot exactly when fewer than all its slots are occupied. */
  lemma {:induction false} LiveSlotsFull(keys: seq<Key>)
    ensures LiveSlots(keys) <= |keys|
    ensures LiveSlots(keys) == |keys| <==> forall j :: 0 <= j < |keys| ==> keys[j] != 0
    decreases |keys|
  {
    if keys != [] {
      var n := |keys| - 1;
      LiveSlotsFull(keys[..n]);
      if LiveSlots(keys) == |keys| {
        forall j | 0 <= j < |keys| ensures keys[j] != 0 {
          if j < n {
            assert keys[..n][j] == keys[j];
          }
        }
      }
      if forall j :: 0 <= j < |keys| ==> keys[j] != 0 {
        assert forall j :: 0 <= j < n ==> keys[..n][j] != 0;
      }
    }
  }

  /** One slot more adds its pair when it is occupied. */
  lemma SlotsBelowStep(b: Bucket, u: nat)
    requires WellFormed(b) && 0 < u <= ENTRIES_PER_BUCKET
    ensures SlotsBelow(b, u) ==
      SlotsBelow(b, u - 1) + (if b.key[u - 1] != 0 then {(b.key[u - 1], b.val[u - 1])} else {})
    ensures LiveSlots(b.key[..u]) == LiveSlots(b.key[..u - 1]) + (if b.key[u - 1] != 0 then 1 else 0)
  {
    assert b.key[..u][..u - 1] == b.key[..u - 1];
  }

  /** With distinct live keys, a bucket's first `upto` slots hold as many
      pairs as they have occupied slots. */
  lemma {:induction false} SlotsBelowSize(b: Bucket, upto: nat)
    requires WellFormed(b) && DistinctLive(b) && upto <= ENTRIES_PER_BUCKET
    ensures |SlotsBelow(b, upto)| == LiveSlots(b.key[..upto])
    decreases upto
  {
    if upto > 0 {
      var u := upto - 1;
      SlotsBelowSize(b, u);
      SlotsBelowStep(b, upto);
      if b.key[u] != 0 {
        SlotIsNew(b, u);
      }
    }
  }

  /** With distinct live keys, an occupied slot's pair is not among those of
      the slots before it. */
  lemma SlotIsNew(b: Bucket, u: nat)
    requires WellFormed(b) && DistinctLive(b) && u < ENTRIES_PER_BUCKET && b.key[u] != 0
    ensures (b.key[u], b.val[u]) !in SlotsBelow(b, u)
  {
    forall j | 0 <= j < u && b.key[j] != 0 ensures (b.key[j], b.val[j]) != (b.key[u], b.val[u]) {
      assert b.key[j] != b.key[u];
    }
  }

  /** Filling an empty slot with a nonzero key adds exactly that pair to the bucket. */
  lemma BucketInsert(b: Bucket, j: nat, key: Key, val: Val)
    requires WellFormed(b) && j < ENTRIES_PER_BUCKET && b.key[j] == 0 && key != 0
    ensures BucketEntries(SetSlot(b, j, key, val)) == BucketEntries(b) + {(key, val)}
  {
    var b' := SetSlot(b, j, key, val);
    forall p | p in BucketEntries(b') ensures p in BucketEntries(b) + {(key, val)} {
      var i :| 0 <= i < ENTRIES_PER_BUCKET && b'.key[i] != 0 && p == (b'.key[i], b'.val[i]);
      if i != j {
        assert b.key[i] != 0 && p == (b.key[i], b.val[i]);
      }
    }
    forall p | p in BucketEntries(b) + {(key, val)} ensures p in BucketEntries(b') {
      if p == (key, val) {
        assert b'.key[j] != 0 && p == (b'.key[j], b'.val[j]);
      } else {
        var i :| 0 <= i < ENTRIES_PER_BUCKET && b.key[i] != 0 && p == (b.key[i], b.val[i]);
        assert b'.key[i] != 0 && p == (b'.key[i], b'.val[i]);
      }
    }
  }

  /** Clearing the key of an occupied slot removes exactly that slot's pair. */
  lemma BucketClear(b: Bucket, j: nat)
    requires WellFormed(b) && DistinctLive(b) && j < ENTRIES_PER_BUCKET && b.key[j] != 0
    ensures WellFormed(b.(key := b.key[j := 0]))
    ensures BucketEntries(b.(key := b.key[j := 0])) == BucketEntries(b) - {(b.key[j], b.val[j])}
  {
    var b' := b.(key := b.key[j := 0]);
    var p0 := (b.key[j], b.val[j]);
    forall p | p in BucketEntries(b') ensures p in BucketEntries(b) - {p0} {
      var i :| 0 <= i < ENTRIES_PER_BUCKET && b'.key[i] != 0 && p == (b'.key[i], b'.val[i]);
      assert i != j;
      assert b.key[i] != 0 && p == (b.key[i], b.val[i]);
      assert b.key[i] != b.key[j] by {
        if i < j {
          assert b.key[i] != 0;
        } else {
          assert b.key[j] != 0;
        }
      }
    }
    forall p | p in BucketEntries(b) - {p0} ensures p in BucketEntries(b') {
      var i :| 0 <= i < ENTRIES_PER_BUCKET && b.key[i] != 0 && p == (b.key[i], b.val[i]);
      assert i != j;
      assert b'.key[i] != 0 && p == (b'.key[i], b'.val[i]);
    }
  }

  /** Filling an empty slot of bucket `bin` with a nonzero key adds exactly
      that pair and one occupied slot to the bucket array. */
  lemma FillSlot(bs: seq<Bucket>, bin: nat, j: nat, key: Key, val: Val)
    requires AllWellFormed(bs) && bin < |bs| && j < ENTRIES_PER_BUCKET
    requires bs[bin].key[j] == 0 && key != 0
    ensures Entries(bs[bin := SetSlot(bs[bin], j, key, val)]) == Entries(bs) + {(key, val)}
    ensures Count(bs[bin := SetSlot(bs[bin], j, key, val)]) == Count(bs) + 1
  {
    var x := SetSlot(bs[bin], j, key, val);
    var a, c := Entries(bs[..bin]), Entries(bs[bin + 1..]);
    EntriesUpdate(bs, bin, x);
    EntriesAround(bs, bin);
    BucketInsert(bs[bin], j, key, val);
    LiveSlotsUpdate(bs[bin].key, j, key);
  }

  /** Storing a key that no slot holds into an empty slot of its own bucket adds
      exactly that pair, one occupied slot, and keeps the table invariant. */
  lemma InsertIntoEmptySlot(bs: seq<Bucket>, mask: nat, bin: nat, j: nat, key: Key, val: Val)
    requires TableInvariant(bs, mask) && bin < |bs| && j < ENTRIES_PER_BUCKET
    requires bs[bin].key[j] == 0 && key != 0 && HtHash(mask, key) == bin
    requires forall i :: 0 <= i < ENTRIES_PER_BUCKET ==> bs[bin].key[i] != key
    ensures TableInvariant(bs[bin := SetSlot(bs[bin], j, key, val)], mask)
    ensures Entries(bs[bin := SetSlot(bs[bin], j, key, val)]) == Entries(bs) + {(key, val)}
    ensures Count(bs[bin := SetSlot(bs[bin], j, key, val)]) == Count(bs) + 1
  {
    FillSlot(bs, bin, j, key, val);
    assert DistinctLive(bs[bin]);
  }

  /** Under the table invariant a stored pair lies in no bucket but its own. */
  lemma OnlyInOwnBucket(bs: seq<Bucket>, mask: nat, bin: nat, j: nat)
    requires TableInvariant(bs, mask) && bin < |bs| && j < ENTRIES_PER_BUCKET
    requires bs[bin].key[j] != 0
    ensures AllWellFormed(bs[..bin]) && AllWellFormed(bs[bin + 1..])
    ensures (bs[bin].key[j], bs[bin].val[j]) !in Entries(bs[..bin])
    ensures (bs[bin].key[j], bs[bin].val[j]) !in Entries(bs[bin + 1..])
  {
    var p := (bs[bin].key[j], bs[bin].val[j]);
    assert HtHash(mask, p.0) == bin;
    InEntries(bs[..bin], p);
    InEntries(bs[bin + 1..], p);
    forall b, i | 0 <= b < bin && 0 <= i < ENTRIES_PER_BUCKET && bs[..bin][b].key[i] != 0
      ensures bs[..bin][b].key[i] != p.0
    {
      assert HtHash(mask, bs[b].key[i]) == b;
    }
    forall c, i | bin < c < |bs| && 0 <= i < ENTRIES_PER_BUCKET && bs[c].key[i] != 0
      ensures bs[c].key[i] != p.0
    {
      assert HtHash(mask, bs[c].key[i]) == c;
    }
  }

  /** Clearing an occupied slot whose pair no other bucket holds removes
      exactly that pair and one occupied slot from the bucket array. */
  lemma EmptySlot(bs: seq<Bucket>, bin: nat, j: nat)
    requires AllWellFormed(bs) && bin < |bs| && j < ENTRIES_PER_BUCKET
    requires bs[bin].key[j] != 0 && DistinctLive(bs[bin])
    requires AllWellFormed(bs[..bin]) && AllWellFormed(bs[bin + 1..])
    requires (bs[bin].key[j], bs[bin].val[j]) !in Entries(bs[..bin])
    requires (bs[bin].key[j], bs[bin].val[j]) !in Entries(bs[bin + 1..])
    ensures Entries(bs[bin := bs[bin].(key := bs[bin].key[j := 0])]) ==
      Entries(bs) - {(bs[bin].key[j], bs[bin].val[j])}
    ensures Count(bs[bin := bs[bin].(key := bs[bin].key[j := 0])]) == Count(bs) - 1
  {
    var x := bs[bin].(key := bs[bin].key[j := 0]);
    BucketClear(bs[bin], j);
    EntriesUpdate(bs, bin, x);
    EntriesAround(bs, bin);
    UnionMinus(Entries(bs[..bin]), BucketEntries(bs[bin]), Entries(bs[bin + 1..]), (bs[bin].key[j], bs[bin].val[j]));
    LiveSlotsUpdate(bs[bin].key, j, 0);
  }

  /** Removing an element that only the middle set holds. */
  lemma UnionMinus<T>(a: set<T>, b: set<T>, c: set<T>, p: T)
    requires p !in a && p !in c
    ensures a + (b - {p}) + c == (a + b + c) - {p}
  {
  }

  lemma ClearKeepsInvariant(bs: seq<Bucket>, mask: nat, bin: nat, j: nat)
    requires TableInvariant(bs, mask) && bin < |bs| && j < ENTRIES_PER_BUCKET
    ensures TableInvariant(bs[bin := bs[bin].(key := bs[bin].key[j := 0])], mask)
  {
    var x := bs[bin].(key := bs[bin].key[j := 0]);
    assert DistinctLive(bs[bin]);
    assert DistinctLive(x) by {
      assert forall i :: 0 <= i < ENTRIES_PER_BUCKET && x.key[i] != 0 ==> x.key[i] == bs[bin].key[i];
    }
  }

  /** Clearing the key of an occupied slot removes exactly its pair from the
      table, one occupied slot, and keeps the table invariant. */
  lemma ClearSlot(bs: seq<Bucket>, mask: nat, bin: nat, j: nat)
    requires TableInvariant(bs, mask) && bin < |bs| && j < ENTRIES_PER_BUCKET
    requires bs[bin].key[j] != 0
    ensures TableInvariant(bs[bin := bs[bin].(key := bs[bin].key[j := 0])], mask)
    ensures Entries(bs[bin := bs[bin].(key := bs[bin].key[j := 0])]) ==
      Entries(bs) - {(bs[bin].key[j], bs[bin].val[j])}
    ensures Count(bs[bin := bs[bin].(key := bs[bin].key[j := 0])]) == Count(bs) - 1
  {
    assert DistinctLive(bs[bin]);
    OnlyInOwnBucket(bs, mask, bin, j);
    EmptySlot(bs, bin, j);
    ClearKeepsInvariant(bs, mask, bin, j);
  }

  /** The lock word takes no part in the contents or the invariant. */
  lemma SetLock(bs: seq<Bucket>, mask: nat, bin: nat, l: LockState)
    requires TableInvariant(bs, mask) && bin < |bs|
    ensures TableInvariant(bs[bin := bs[bin].(lock := l)], mask)
    ensures Entries(bs[bin := bs[bin].(lock := l)]) == Entries(bs)
    ensures Count(bs[bin := bs[bin].(lock := l)]) == Count(bs)
  {
    var x := bs[bin].(lock := l);
    assert BucketEntries(x) == BucketEntries(bs[bin]);
    EntriesUpdate(bs, bin, x);
    EntriesAround(bs, bin);
    assert DistinctLive(bs[bin]);
  }

  /** `ht_size` equals the number of stored pairs: no key is counted twice. */
  lemma {:induction false} CountIsSize(bs: seq<Bucket>, mask: nat)
    requires AllWellFormed(bs) && Placed(bs, mask) && UniqueInBuckets(bs)
    ensures Count(bs) == |Entries(bs)|
    decreases |bs|
  {
    if bs != [] {
      var n := |bs| - 1;
      var pre := bs[..n];
      assert forall b :: 0 <= b < n ==> pre[b] == bs[b];
      CountIsSize(pre, mask);
      assert DistinctLive(bs[n]);
      SlotsBelowSize(bs[n], ENTRIES_PER_BUCKET);
      assert bs[n].key[..ENTRIES_PER_BUCKET] == bs[n].key;
      LastBucketApart(bs, mask);
      assert Entries(pre) * BucketEntries(bs[n]) == {};
    }
  }

  /** The last bucket shares no pair with the buckets before it. */
  lemma LastBucketApart(bs: seq<Bucket>, mask: nat)
    requires AllWellFormed(bs) && Placed(bs, mask) && bs != []
    ensures AllWellFormed(bs[..|bs| - 1])
    ensures Entries(bs[..|bs| - 1]) * BucketEntries(bs[|bs| - 1]) == {}
  {
    var n := |bs| - 1;
    var pre := bs[..n];
    forall p | p in Entries(pre) ensures p !in BucketEntries(bs[n]) {
      InEntries(pre, p);
      var b, i :| 0 <= b < n && 0 <= i < ENTRIES_PER_BUCKET && pre[b].key[i] != 0 &&
        p == (pre[b].key[i], pre[b].val[i]);
      assert HtHash(mask, p.0) == b;
      assert forall i' :: 0 <= i' < ENTRIES_PER_BUCKET && bs[n].key[i'] != 0 ==> HtHash(mask, bs[n].key[i']) == n;
    }
  }
}
