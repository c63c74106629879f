/** The sequential migration a resize performs, on values: `ht_put_seq`
    (src/clht_lb_res_no_next.c:344-361), the slot copy of `bucket_cpy`
    (364-383), the resizer's walk from bucket 0 upwards (446-454) and the
    helper's walk from the top bucket downwards (386-408). */
module Resize {
  import opened Bits
  import opened BucketLock
  import opened Buckets

  /** Whether a bucket still has an empty slot (a zero key). */
  predicate HasRoom(b: Bucket)
    requires WellFormed(b)
  {
    FindSlot(b.key, 0, 0) >= 0
  }

  /** `ht_put_seq`: the pair goes into the lowest empty slot of bucket `bin`;
      when the bucket is full the pair is dropped (the source reports the
      overflow and still returns true). */
  function PutSeq(bs: seq<Bucket>, bin: nat, key: Key, val: Val): (r: seq<Bucket>)
    requires AllWellFormed(bs) && bin < |bs|
    ensures |r| == |bs| && AllWellFormed(r)
    ensures !HasRoom(bs[bin]) ==> r == bs
  {
    var j := FindSlot(bs[bin].key, 0, 0);
    if j < 0 then bs else bs[bin := SetSlot(bs[bin], j, key, val)]
  }

  /** The slot copy of `bucket_cpy`: slots `0 .. upto-1` of `src`, in order,
      each live one put into the destination bucket its key hashes to. */
  function CopySlots(dst: seq<Bucket>, src: Bucket, mask: nat, upto: nat): (r: seq<Bucket>)
    requires AllWellFormed(dst) && WellFormed(src) && upto <= ENTRIES_PER_BUCKET && mask < |dst|
    ensures |r| == |dst| && AllWellFormed(r)
    decreases upto
  {
    if upto == 0 then dst
    else
      var d := CopySlots(dst, src, mask, upto - 1);
      var k := src.key[upto - 1];
      if k == 0 then d else PutSeq(d, HtHash(mask, k), k, src.val[upto - 1])
  }

  /** Every put of `CopySlots(dst, src, mask, upto)` found an empty slot. */
  ghost predicate CopyFits(dst: seq<Bucket>, src: Bucket, mask: nat, upto: nat)
    requires AllWellFormed(dst) && WellFormed(src) && upto <= ENTRIES_PER_BUCKET && mask < |dst|
    decreases upto
  {
    upto == 0 ||
    (CopyFits(dst, src, mask, upto - 1) &&
     var k := src.key[upto - 1];
     (k == 0 || HasRoom(CopySlots(dst, src, mask, upto - 1)[HtHash(mask, k)])))
  }

  /** The resizer's loop: buckets `0 .. k-1` of `srcs` copied in order. */
  function Migrate(dst: seq<Bucket>, srcs: seq<Bucket>, mask: nat, k: nat): (r: seq<Bucket>)
    requires AllWellFormed(dst) && AllWellFormed(srcs) && k <= |srcs| && mask < |dst|
    ensures |r| == |dst| && AllWellFormed(r)
    decreases k
  {
    if k == 0 then dst else CopySlots(Migrate(dst, srcs, mask, k - 1), srcs[k - 1], mask, ENTRIES_PER_BUCKET)
  }

  /** Every put of `Migrate(dst, srcs, mask, k)` found an empty slot. */
  ghost predicate MigrateFits(dst: seq<Bucket>, srcs: seq<Bucket>, mask: nat, k: nat)
    requires AllWellFormed(dst) && AllWellFormed(srcs) && k <= |srcs| && mask < |dst|
    decreases k
  {
    k == 0 ||
    (MigrateFits(dst, srcs, mask, k - 1) &&
     CopyFits(Migrate(dst, srcs, mask, k - 1), srcs[k - 1], mask, ENTRIES_PER_BUCKET))
  }

  /** The helper's loop: buckets `hi-1, hi-2, .., lo` of `srcs` copied in that order. */
  function MigrateDown(dst: seq<Bucket>, srcs: seq<Bucket>, mask: nat, lo: nat, hi: nat): (r: seq<Bucket>)
    requires AllWellFormed(dst) && AllWellFormed(srcs) && lo <= hi <= |srcs| && mask < |dst|
    ensures |r| == |dst| && AllWellFormed(r)
    decreases hi - lo
  {
    if lo == hi then dst else CopySlots(MigrateDown(dst, srcs, mask, lo + 1, hi), srcs[lo], mask, ENTRIES_PER_BUCKET)
  }

  /** Every put of `MigrateDown(dst, srcs, mask, lo, hi)` found an empty slot. */
  ghost predicate MigrateDownFits(dst: seq<Bucket>, srcs: seq<Bucket>, mask: nat, lo: nat, hi: nat)
    requires AllWellFormed(dst) && AllWellFormed(srcs) && lo <= hi <= |srcs| && mask < |dst|
    decreases hi - lo
  {
    lo == hi ||
    (MigrateDownFits(dst, srcs, mask, lo + 1, hi) &&
     CopyFits(MigrateDown(dst, srcs, mask, lo + 1, hi), srcs[lo], mask, ENTRIES_PER_BUCKET))
  }

  /** Where the helper stops: walking down from bucket `hi - 1`, it copies
      every bucket until it meets one already locked for resizing. */
  function HelpStop(srcs: seq<Bucket>, hi: nat): (lo: nat)
    requires hi <= |srcs|
    ensures lo <= hi
    ensures forall b :: lo <= b < hi ==> srcs[b].lock != Resize
    ensures lo > 0 ==> srcs[lo - 1].lock == Resize
  {
    if hi == 0 then 0 else if srcs[hi - 1].lock == Resize then hi else HelpStop(srcs, hi - 1)
  }

  /** The bucket array of a fresh `ht_create(n)`. */
  function EmptyBuckets(n: nat): (r: seq<Bucket>)
    ensures |r| == n && AllWellFormed(r)
    ensures forall c :: 0 <= c < n ==> r[c] == ZeroBucket
  {
    seq(n, _ => ZeroBucket)
  }

  // ---------------------------------------------------------------------
  // Contents and size
  // ---------------------------------------------------------------------

  /** `ht_put_seq` adds its pair, and one occupied slot, exactly when the
      bucket has room; otherwise it changes nothing. */
  lemma PutSeqEffect(bs: seq<Bucket>, bin: nat, key: Key, val: Val)
    requires AllWellFormed(bs) && bin < |bs| && key != 0
    ensures HasRoom(bs[bin]) ==>
      Entries(PutSeq(bs, bin, key, val)) == Entries(bs) + {(key, val)} &&
      Count(PutSeq(bs, bin, key, val)) == Count(bs) + 1
    ensures !HasRoom(bs[bin]) ==> PutSeq(bs, bin, key, val) == bs
  {
    var j := FindSlot(bs[bin].key, 0, 0);
    if j >= 0 {
      FillSlot(bs, bin, j, key, val);
    }
  }

  /** Copying the slots of one bucket adds at most those slots' pairs, and
      exactly those when every put fits. */
  lemma {:induction false} CopySlotsEntries(dst: seq<Bucket>, src: Bucket, mask: nat, upto: nat)
    requires AllWellFormed(dst) && WellFormed(src) && upto <= ENTRIES_PER_BUCKET && mask < |dst|
    ensures Entries(CopySlots(dst, src, mask, upto)) <= Entries(dst) + SlotsBelow(src, upto)
    ensures CopyFits(dst, src, mask, upto) ==>
      Entries(CopySlots(dst, src, mask, upto)) == Entries(dst) + SlotsBelow(src, upto)
    decreases upto
  {
    if upto > 0 {
      CopySlotsEntries(dst, src, mask, upto - 1);
      SlotsBelowStep(src, upto);
      var k := src.key[upto - 1];
      if k != 0 {
        PutSeqEffect(CopySlots(dst, src, mask, upto - 1), HtHash(mask, k), k, src.val[upto - 1]);
      }
    }
  }

  /** The size grows by at most the number of copied live slots, and by
      exactly that number if and only if every put fits. */
  lemma {:induction false} CopySlotsCount(dst: seq<Bucket>, src: Bucket, mask: nat, upto: nat)
    requires AllWellFormed(dst) && WellFormed(src) && upto <= ENTRIES_PER_BUCKET && mask < |dst|
    ensures Count(CopySlots(dst, src, mask, upto)) <= Count(dst) + LiveSlots(src.key[..upto])
    ensures Count(CopySlots(dst, src, mask, upto)) == Count(dst) + LiveSlots(src.key[..upto])
      <==> CopyFits(dst, src, mask, upto)
    decreases upto
  {
    if upto > 0 {
      CopySlotsCount(dst, src, mask, upto - 1);
      SlotsBelowStep(src, upto);
      var k := src.key[upto - 1];
      if k != 0 {
        PutSeqEffect(CopySlots(dst, src, mask, upto - 1), HtHash(mask, k), k, src.val[upto - 1]);
      }
    }
  }

  lemma BucketPrefixStep(bs: seq<Bucket>, k: nat)
    requires AllWellFormed(bs) && 0 < k <= |bs|
    ensures AllWellFormed(bs[..k - 1])
    ensures Entries(bs[..k]) == Entries(bs[..k - 1]) + BucketEntries(bs[k - 1])
    ensures Count(bs[..k]) == Count(bs[..k - 1]) + LiveSlots(bs[k - 1].key)
  {
    assert bs[..k][..k - 1] == bs[..k - 1];
  }

  /** The resizer's copy never invents pairs, and when no destination
      bucket overflows its contents are exactly the union. */
  lemma {:induction false} MigrateEntries(dst: seq<Bucket>, srcs: seq<Bucket>, mask: nat, k: nat)
    requires AllWellFormed(dst) && AllWellFormed(srcs) && k <= |srcs| && mask < |dst|
    ensures Entries(Migrate(dst, srcs, mask, k)) <= Entries(dst) + Entries(srcs[..k])
    ensures MigrateFits(dst, srcs, mask, k) ==>
      Entries(Migrate(dst, srcs, mask, k)) == Entries(dst) + Entries(srcs[..k])
    decreases k
  {
    if k > 0 {
      MigrateEntries(dst, srcs, mask, k - 1);
      BucketPrefixStep(srcs, k);
      CopySlotsEntries(Migrate(dst, srcs, mask, k - 1), srcs[k - 1], mask, ENTRIES_PER_BUCKET);
    }
  }

  /** The new size is at most the old one plus the copied live slots, and
      equal to it if and only if no destination bucket overflows (the
      `ht_size(ht_old) != ht_size(ht_new)` check of the DEBUG build). */
  lemma {:induction false} MigrateCount(dst: seq<Bucket>, srcs: seq<Bucket>, mask: nat, k: nat)
    requires AllWellFormed(dst) && AllWellFormed(srcs) && k <= |srcs| && mask < |dst|
    ensures Count(Migrate(dst, srcs, mask, k)) <= Count(dst) + Count(srcs[..k])
    ensures Count(Migrate(dst, srcs, mask, k)) == Count(dst) + Count(srcs[..k])
      <==> MigrateFits(dst, srcs, mask, k)
    decreases k
  {
    if k > 0 {
      MigrateCount(dst, srcs, mask, k - 1);
      BucketPrefixStep(srcs, k);
      var src := srcs[k - 1];
      CopySlotsCount(Migrate(dst, srcs, mask, k - 1), src, mask, ENTRIES_PER_BUCKET);
      assert src.key[..ENTRIES_PER_BUCKET] == src.key;
    }
  }

  lemma EntriesCons(bs: seq<Bucket>, lo: nat, hi: nat)
    requires AllWellFormed(bs) && lo < hi <= |bs|
    ensures AllWellFormed(bs[lo..hi]) && AllWellFormed(bs[lo + 1..hi])
    ensures Entries(bs[lo..hi]) == BucketEntries(bs[lo]) + Entries(bs[lo + 1..hi])
    ensures Count(bs[lo..hi]) == LiveSlots(bs[lo].key) + Count(bs[lo + 1..hi])
  {
    assert bs[lo..hi] == [bs[lo]] + bs[lo + 1..hi];
    EntriesAppend([bs[lo]], bs[lo + 1..hi]);
    CountAppend([bs[lo]], bs[lo + 1..hi]);
    Singleton(bs[lo]);
  }

  /** The helper's copy never invents pairs either, and when no destination
      bucket overflows its contents are exactly the union. */
  lemma {:induction false} MigrateDownEffect(dst: seq<Bucket>, srcs: seq<Bucket>, mask: nat, lo: nat, hi: nat)
    requires AllWellFormed(dst) && AllWellFormed(srcs) && lo <= hi <= |srcs| && mask < |dst|
    ensures AllWellFormed(srcs[lo..hi])
    ensures Entries(MigrateDown(dst, srcs, mask, lo, hi)) <= Entries(dst) + Entries(srcs[lo..hi])
    ensures MigrateDownFits(dst, srcs, mask, lo, hi) ==>
      Entries(MigrateDown(dst, srcs, mask, lo, hi)) == Entries(dst) + Entries(srcs[lo..hi])
    decreases hi - lo
  {
    if lo < hi {
      MigrateDownEffect(dst, srcs, mask, lo + 1, hi);
      CopySlotsEntries(MigrateDown(dst, srcs, mask, lo + 1, hi), srcs[lo], mask, ENTRIES_PER_BUCKET);
      EntriesCons(srcs, lo, hi);
    }
  }

  /** The size after the helper's copy is at most the old one plus the
      copied live slots, and equal to it if and only if no destination
      bucket overflows. */
  lemma {:induction false} MigrateDownCount(dst: seq<Bucket>, srcs: seq<Bucket>, mask: nat, lo: nat, hi: nat)
    requires AllWellFormed(dst) && AllWellFormed(srcs) && lo <= hi <= |srcs| && mask < |dst|
    ensures Count(MigrateDown(dst, srcs, mask, lo, hi)) <= Count(dst) + Count(srcs[lo..hi])
    ensures Count(MigrateDown(dst, srcs, mask, lo, hi)) == Count(dst) + Count(srcs[lo..hi])
      <==> MigrateDownFits(dst, srcs, mask, lo, hi)
    decreases hi - lo
  {
    if lo < hi {
      MigrateDownCount(dst, srcs, mask, lo + 1, hi);
      EntriesCons(srcs, lo, hi);
      var src := srcs[lo];
      CopySlotsCount(MigrateDown(dst, srcs, mask, lo + 1, hi), src, mask, ENTRIES_PER_BUCKET);
      assert src.key[..ENTRIES_PER_BUCKET] == src.key;
    }
  }

  // ---------------------------------------------------------------------
  // The table invariant survives a resize
  // ---------------------------------------------------------------------

  /** The key of source slot `(b, u)` is in no slot of a destination that
      holds only pairs from source slots before it. */
  lemma FreshKey(cur: seq<Bucket>, srcs: seq<Bucket>, oldMask: nat, mask: nat, b: nat, u: nat)
    requires TableInvariant(srcs, oldMask) && b < |srcs| && u < ENTRIES_PER_BUCKET
    requires AllWellFormed(cur) && srcs[b].key[u] != 0
    requires Entries(cur) <= Entries(srcs[..b]) + SlotsBelow(srcs[b], u)
    ensures forall c, i :: 0 <= c < |cur| && 0 <= i < ENTRIES_PER_BUCKET ==> cur[c].key[i] != srcs[b].key[u]
  {
    var kappa := srcs[b].key[u];
    forall c, i | 0 <= c < |cur| && 0 <= i < ENTRIES_PER_BUCKET && cur[c].key[i] != 0
      ensures cur[c].key[i] != kappa
    {
      var p := (cur[c].key[i], cur[c].val[i]);
      InEntries(cur, p);
      InEntries(srcs[..b], p);
      if p in Entries(srcs[..b]) {
        var b', j' :| 0 <= b' < |srcs[..b]| && 0 <= j' < ENTRIES_PER_BUCKET && srcs[..b][b'].key[j'] != 0 &&
          p == (srcs[..b][b'].key[j'], srcs[..b][b'].val[j']);
        assert srcs[b'].key[j'] != 0 && HtHash(oldMask, srcs[b'].key[j']) == b';
      } else {
        var j' :| 0 <= j' < u && srcs[b].key[j'] != 0 && p == (srcs[b].key[j'], srcs[b].val[j']);
        assert DistinctLive(srcs[b]);
      }
    }
  }

  /** Putting a source slot whose key the destination does not hold yet
      keeps the destination's invariant. */
  lemma PutFreshKeepsInvariant(d: seq<Bucket>, srcs: seq<Bucket>, oldMask: nat, mask: nat, b: nat, u: nat)
    requires TableInvariant(srcs, oldMask) && b < |srcs| && u < ENTRIES_PER_BUCKET
    requires TableInvariant(d, mask) && srcs[b].key[u] != 0
    requires Entries(d) <= Entries(srcs[..b]) + SlotsBelow(srcs[b], u)
    ensures TableInvariant(PutSeq(d, HtHash(mask, srcs[b].key[u]), srcs[b].key[u], srcs[b].val[u]), mask)
  {
    var k := srcs[b].key[u];
    FreshKey(d, srcs, oldMask, mask, b, u);
    var bin := HtHash(mask, k);
    var j := FindSlot(d[bin].key, 0, 0);
    if j >= 0 {
      InsertIntoEmptySlot(d, mask, bin, j, k, srcs[b].val[u]);
    }
  }

  lemma {:induction false} CopySlotsInvariant(cur: seq<Bucket>, srcs: seq<Bucket>, oldMask: nat, mask: nat,
                                              b: nat, upto: nat)
    requires TableInvariant(srcs, oldMask) && b < |srcs| && upto <= ENTRIES_PER_BUCKET
    requires TableInvariant(cur, mask) && Entries(cur) <= Entries(srcs[..b])
    ensures TableInvariant(CopySlots(cur, srcs[b], mask, upto), mask)
    decreases upto
  {
    if upto > 0 {
      CopySlotsInvariant(cur, srcs, oldMask, mask, b, upto - 1);
      CopySlotInvariant(cur, srcs, oldMask, mask, b, upto);
    }
  }

  /** Copying slot `upto - 1` of old bucket `b` keeps the table invariant. */
  lemma CopySlotInvariant(cur: seq<Bucket>, srcs: seq<Bucket>, oldMask: nat, mask: nat, b: nat, upto: nat)
    requires TableInvariant(srcs, oldMask) && b < |srcs| && 0 < upto <= ENTRIES_PER_BUCKET
    requires TableInvariant(cur, mask) && Entries(cur) <= Entries(srcs[..b])
    requires TableInvariant(CopySlots(cur, srcs[b], mask, upto - 1), mask)
    ensures TableInvariant(CopySlots(cur, srcs[b], mask, upto), mask)
  {
    var d := CopySlots(cur, srcs[b], mask, upto - 1);
    var k := srcs[b].key[upto - 1];
    if k != 0 {
      CopySlotsEntries(cur, srcs[b], mask, upto - 1);
      PutFreshKeepsInvariant(d, srcs, oldMask, mask, b, upto - 1);
    }
  }

  /** The resizer's copy into a table that starts empty leaves every pair in
      the bucket its key hashes to under the new mask, each key once. */
  lemma {:induction false} MigrateInvariant(dst: seq<Bucket>, srcs: seq<Bucket>, oldMask: nat, mask: nat, k: nat)
    requires TableInvariant(srcs, oldMask) && k <= |srcs|
    requires TableInvariant(dst, mask) && Entries(dst) == {}
    ensures TableInvariant(Migrate(dst, srcs, mask, k), mask)
    ensures Entries(Migrate(dst, srcs, mask, k)) <= Entries(srcs[..k])
    decreases k
  {
    if k > 0 {
      MigrateInvariant(dst, srcs, oldMask, mask, k - 1);
      MigrateBucketInvariant(dst, srcs, oldMask, mask, k);
    }
  }

  /** Copying old bucket `k - 1` after the ones below it keeps the table invariant. */
  lemma MigrateBucketInvariant(dst: seq<Bucket>, srcs: seq<Bucket>, oldMask: nat, mask: nat, k: nat)
    requires TableInvariant(srcs, oldMask) && 0 < k <= |srcs|
    requires TableInvariant(dst, mask) && Entries(dst) == {}
    requires TableInvariant(Migrate(dst, srcs, mask, k - 1), mask)
    requires Entries(Migrate(dst, srcs, mask, k - 1)) <= Entries(srcs[..k - 1])
    ensures TableInvariant(Migrate(dst, srcs, mask, k), mask)
    ensures Entries(Migrate(dst, srcs, mask, k)) <= Entries(srcs[..k])
  {
    MigrateEntries(dst, srcs, mask, k);
    CopySlotsInvariant(Migrate(dst, srcs, mask, k - 1), srcs, oldMask, mask, k - 1, ENTRIES_PER_BUCKET);
  }

  // ---------------------------------------------------------------------
  // Growth by a power of two never overflows a bucket
  // ---------------------------------------------------------------------

  /** Some zero key exists whenever fewer slots than all are occupied. */
  lemma RoomWhenNotFull(b: Bucket)
    requires WellFormed(b) && LiveSlots(b.key) < ENTRIES_PER_BUCKET
    ensures HasRoom(b)
  {
    LiveSlotsFull(b.key);
  }

  /** The old bucket whose keys can land in new bucket `c`: `c & oldMask`. */
  ghost function Origin(c: nat, oldMask: nat): (b: nat) {
    And(c, oldMask)
  }

  /** The new buckets reachable from old buckets `b` and above are still empty. */
  ghost predicate ClearFrom(d: seq<Bucket>, oldMask: nat, b: nat)
    requires AllWellFormed(d)
  {
    forall c :: 0 <= c < |d| && Origin(c, oldMask) >= b ==> LiveSlots(d[c].key) == 0
  }

  /** The new buckets reachable from old bucket `b` hold at most `u` pairs. */
  ghost predicate AtMost(d: seq<Bucket>, oldMask: nat, b: nat, u: nat)
    requires AllWellFormed(d)
  {
    forall c :: 0 <= c < |d| && Origin(c, oldMask) == b ==> LiveSlots(d[c].key) <= u
  }

  /** One `ht_put_seq` of a key from old bucket `b`: its new bucket `t`
      satisfies `t & oldMask == b`, so it holds at most `u` pairs and has room. */
  lemma GrowthPut(d: seq<Bucket>, oldMask: nat, mask: nat, b: nat, u: nat, k: Key, v: Val)
    requires AllWellFormed(d) && mask < |d| && And(mask, oldMask) == oldMask
    requires k != 0 && HtHash(oldMask, k) == b && u < ENTRIES_PER_BUCKET
    requires ClearFrom(d, oldMask, b + 1) && AtMost(d, oldMask, b, u)
    ensures HasRoom(d[HtHash(mask, k)])
    ensures ClearFrom(PutSeq(d, HtHash(mask, k), k, v), oldMask, b + 1)
    ensures AtMost(PutSeq(d, HtHash(mask, k), k, v), oldMask, b, u + 1)
  {
    var t := HtHash(mask, k);
    AndAssoc(k, mask, oldMask);
    assert Origin(t, oldMask) == b;
    RoomWhenNotFull(d[t]);
    var j := FindSlot(d[t].key, 0, 0);
    LiveSlotsUpdate(d[t].key, j, k);
  }

  /** `MigrateFits` grows by one old bucket whose copy fits. */
  lemma MigrateFitsStep(dst: seq<Bucket>, srcs: seq<Bucket>, mask: nat, k: nat)
    requires AllWellFormed(dst) && AllWellFormed(srcs) && 0 < k <= |srcs| && mask < |dst|
    requires MigrateFits(dst, srcs, mask, k - 1)
    requires CopyFits(Migrate(dst, srcs, mask, k - 1), srcs[k - 1], mask, ENTRIES_PER_BUCKET)
    ensures MigrateFits(dst, srcs, mask, k)
  {
  }

  /** `ClearFrom` of the copy of old bucket `k - 1` is `ClearFrom` of `Migrate(.., k)`. */
  lemma ClearFromMigrate(dst: seq<Bucket>, srcs: seq<Bucket>, oldMask: nat, mask: nat, k: nat)
    requires AllWellFormed(dst) && AllWellFormed(srcs) && 0 < k <= |srcs| && mask < |dst|
    requires ClearFrom(CopySlots(Migrate(dst, srcs, mask, k - 1), srcs[k - 1], mask, ENTRIES_PER_BUCKET), oldMask, k)
    ensures ClearFrom(Migrate(dst, srcs, mask, k), oldMask, k)
  {
  }

  /** Before old bucket `b` is copied, the new buckets it reaches are empty. */
  lemma ClearSplit(d: seq<Bucket>, oldMask: nat, b: nat)
    requires AllWellFormed(d) && ClearFrom(d, oldMask, b)
    ensures ClearFrom(d, oldMask, b + 1) && AtMost(d, oldMask, b, 0)
  {
  }

  lemma AtMostMore(d: seq<Bucket>, oldMask: nat, b: nat, u: nat)
    requires AllWellFormed(d) && AtMost(d, oldMask, b, u)
    ensures AtMost(d, oldMask, b, u + 1)
  {
  }

  /** While bucket `b` of the old table is copied, the new buckets its keys
      can reach (those `c` with `c & oldMask == b`) hold at most one pair
      per slot copied so far, and the new buckets of later old buckets
      stay empty. */
  lemma {:induction false} GrowthCopy(cur: seq<Bucket>, srcs: seq<Bucket>, oldMask: nat, mask: nat,
                                      b: nat, upto: nat)
    requires AllWellFormed(srcs) && Placed(srcs, oldMask) && b < |srcs| && upto <= ENTRIES_PER_BUCKET
    requires AllWellFormed(cur) && mask < |cur| && And(mask, oldMask) == oldMask
    requires ClearFrom(cur, oldMask, b + 1) && AtMost(cur, oldMask, b, 0)
    ensures CopyFits(cur, srcs[b], mask, upto)
    ensures ClearFrom(CopySlots(cur, srcs[b], mask, upto), oldMask, b + 1)
    ensures AtMost(CopySlots(cur, srcs[b], mask, upto), oldMask, b, upto)
    decreases upto
  {
    if upto > 0 {
      GrowthCopy(cur, srcs, oldMask, mask, b, upto - 1);
      GrowthSlot(cur, srcs, oldMask, mask, b, upto);
    }
  }

  /** Copying slot `upto - 1` of old bucket `b` keeps `GrowthCopy`'s bounds. */
  lemma GrowthSlot(cur: seq<Bucket>, srcs: seq<Bucket>, oldMask: nat, mask: nat, b: nat, upto: nat)
    requires AllWellFormed(srcs) && Placed(srcs, oldMask) && b < |srcs| && 0 < upto <= ENTRIES_PER_BUCKET
    requires AllWellFormed(cur) && mask < |cur| && And(mask, oldMask) == oldMask
    requires CopyFits(cur, srcs[b], mask, upto - 1)
    requires ClearFrom(CopySlots(cur, srcs[b], mask, upto - 1), oldMask, b + 1)
    requires AtMost(CopySlots(cur, srcs[b], mask, upto - 1), oldMask, b, upto - 1)
    ensures CopyFits(cur, srcs[b], mask, upto)
    ensures ClearFrom(CopySlots(cur, srcs[b], mask, upto), oldMask, b + 1)
    ensures AtMost(CopySlots(cur, srcs[b], mask, upto), oldMask, b, upto)
  {
    var d := CopySlots(cur, srcs[b], mask, upto - 1);
    var k := srcs[b].key[upto - 1];
    if k == 0 {
      AtMostMore(d, oldMask, b, upto - 1);
    } else {
      PlacedAt(srcs, oldMask, b, upto - 1);
      GrowthPut(d, oldMask, mask, b, upto - 1, k, srcs[b].val[upto - 1]);
    }
  }

  lemma {:induction false} GrowthMigrate(dst: seq<Bucket>, srcs: seq<Bucket>, oldMask: nat, mask: nat, k: nat)
    requires AllWellFormed(srcs) && Placed(srcs, oldMask) && k <= |srcs|
    requires AllWellFormed(dst) && mask < |dst| && And(mask, oldMask) == oldMask
    requires ClearFrom(dst, oldMask, 0)
    ensures MigrateFits(dst, srcs, mask, k)
    ensures ClearFrom(Migrate(dst, srcs, mask, k), oldMask, k)
    decreases k
  {
    if k > 0 {
      GrowthMigrate(dst, srcs, oldMask, mask, k - 1);
      GrowthBucket(dst, srcs, oldMask, mask, k);
    }
  }

  /** Copying old bucket `k - 1` after the ones below it fits, and leaves the
      new buckets of old buckets `k` and above empty. */
  lemma GrowthBucket(dst: seq<Bucket>, srcs: seq<Bucket>, oldMask: nat, mask: nat, k: nat)
    requires AllWellFormed(srcs) && Placed(srcs, oldMask) && 0 < k <= |srcs|
    requires AllWellFormed(dst) && mask < |dst| && And(mask, oldMask) == oldMask
    requires MigrateFits(dst, srcs, mask, k - 1) && ClearFrom(Migrate(dst, srcs, mask, k - 1), oldMask, k - 1)
    ensures MigrateFits(dst, srcs, mask, k)
    ensures ClearFrom(Migrate(dst, srcs, mask, k), oldMask, k)
  {
    var d := Migrate(dst, srcs, mask, k - 1);
    ClearSplit(d, oldMask, k - 1);
    GrowthCopy(d, srcs, oldMask, mask, k - 1, ENTRIES_PER_BUCKET);
    MigrateFitsStep(dst, srcs, mask, k);
    ClearFromMigrate(dst, srcs, oldMask, mask, k);
  }

  /** When every put fits, copying all of `srcs` into a table holding no
      pairs yields exactly the pairs of `srcs`. */
  lemma FitsKeepsEntries(dst: seq<Bucket>, srcs: seq<Bucket>, mask: nat)
    requires AllWellFormed(srcs) && AllWellFormed(dst) && mask < |dst|
    requires Entries(dst) == {} && MigrateFits(dst, srcs, mask, |srcs|)
    ensures Entries(Migrate(dst, srcs, mask, |srcs|)) == Entries(srcs)
  {
    MigrateEntries(dst, srcs, mask, |srcs|);
    assert srcs[..|srcs|] == srcs;
  }

  /** Copying all of `srcs` into a table with no occupied slots keeps the
      size if and only if every put fits. */
  lemma FitsIffKeepsCount(dst: seq<Bucket>, srcs: seq<Bucket>, mask: nat)
    requires AllWellFormed(srcs) && AllWellFormed(dst) && mask < |dst| && Count(dst) == 0
    ensures Count(Migrate(dst, srcs, mask, |srcs|)) == Count(srcs) <==> MigrateFits(dst, srcs, mask, |srcs|)
  {
    MigrateCount(dst, srcs, mask, |srcs|);
    assert srcs[..|srcs|] == srcs;
  }

  /** Copying into an empty table whose mask covers the old mask overflows
      no bucket: each old bucket's keys spread over new buckets that no
      other old bucket reaches. */
  lemma CoveringMaskFits(dst: seq<Bucket>, srcs: seq<Bucket>, oldMask: nat, mask: nat)
    requires AllWellFormed(srcs) && Placed(srcs, oldMask)
    requires AllWellFormed(dst) && mask < |dst| && And(mask, oldMask) == oldMask
    requires forall c :: 0 <= c < |dst| ==> LiveSlots(dst[c].key) == 0
    ensures MigrateFits(dst, srcs, mask, |srcs|)
  {
    assert ClearFrom(dst, oldMask, 0);
    GrowthMigrate(dst, srcs, oldMask, mask, |srcs|);
  }

  /** `GrowthFits` for a resize into a freshly created, empty generation. */
  lemma GrowthFromEmpty(srcs: seq<Bucket>, n: nat, factor: nat, m: nat)
    requires IsPowerOfTwo(n) && n < U32_LIMIT && |srcs| == n && TableInvariant(srcs, n - 1)
    requires IsPowerOfTwo(factor) && factor >= 2
    requires m == (factor * n) % U32_LIMIT && m != 0
    ensures ResizeFits(srcs, m)
  {
    EmptyHasNothing(m);
    GrowthFits(EmptyBuckets(m), srcs, n, factor);
  }

  /** Growing a power-of-two table by a power-of-two factor into an empty
      table, when the new count does not wrap to 0, overflows no bucket and
      so keeps every pair and the size. */
  lemma GrowthFits(dst: seq<Bucket>, srcs: seq<Bucket>, n: nat, factor: nat)
    requires IsPowerOfTwo(n) && n < U32_LIMIT && |srcs| == n && TableInvariant(srcs, n - 1)
    requires IsPowerOfTwo(factor) && factor >= 2
    requires |dst| == (factor * n) % U32_LIMIT && |dst| != 0
    requires AllWellFormed(dst) && forall c :: 0 <= c < |dst| ==> LiveSlots(dst[c].key) == 0
    requires Entries(dst) == {} && Count(dst) == 0
    ensures MigrateFits(dst, srcs, |dst| - 1, n)
    ensures Count(Migrate(dst, srcs, |dst| - 1, n)) == Count(srcs)
    ensures Entries(Migrate(dst, srcs, |dst| - 1, n)) == Entries(srcs)
  {
    GrowthCovers(n, factor);
    CoverKeepsAll(dst, srcs, n - 1, |dst| - 1);
  }

  lemma CoverKeepsAll(dst: seq<Bucket>, srcs: seq<Bucket>, oldMask: nat, mask: nat)
    requires AllWellFormed(srcs) && Placed(srcs, oldMask)
    requires AllWellFormed(dst) && mask < |dst| && And(mask, oldMask) == oldMask
    requires forall c :: 0 <= c < |dst| ==> LiveSlots(dst[c].key) == 0
    requires Entries(dst) == {} && Count(dst) == 0
    ensures MigrateFits(dst, srcs, mask, |srcs|)
    ensures Count(Migrate(dst, srcs, mask, |srcs|)) == Count(srcs)
    ensures Entries(Migrate(dst, srcs, mask, |srcs|)) == Entries(srcs)
  {
    CoveringMaskFits(dst, srcs, oldMask, mask);
    FitsKeepsEntries(dst, srcs, mask);
    FitsIffKeepsCount(dst, srcs, mask);
  }

  /** A fresh table holds no pairs and no occupied slots, and satisfies the
      table invariant for its mask. */
  lemma {:induction false} EmptyHasNothing(n: nat)
    ensures Entries(EmptyBuckets(n)) == {} && Count(EmptyBuckets(n)) == 0
    ensures forall c :: 0 <= c < n ==> LiveSlots(EmptyBuckets(n)[c].key) == 0
    ensures n > 0 ==> TableInvariant(EmptyBuckets(n), n - 1)
    ensures AllFree(EmptyBuckets(n))
    decreases n
  {
    assert LiveSlots(ZeroBucket.key) == 0 by {
      assert ZeroBucket.key[..2] == [0, 0] && [0, 0][..1] == [0] && [0][..0] == [];
    }
    assert BucketEntries(ZeroBucket) == {};
    if n > 0 {
      EmptyHasNothing(n - 1);
      assert EmptyBuckets(n)[..n - 1] == EmptyBuckets(n - 1);
    }
  }

  // ---------------------------------------------------------------------
  // Shrinking can lose pairs
  // ---------------------------------------------------------------------

  lemma {:induction false} CountBound(bs: seq<Bucket>)
    requires AllWellFormed(bs)
    ensures Count(bs) <= ENTRIES_PER_BUCKET * |bs|
    decreases |bs|
  {
    if bs != [] {
      CountBound(bs[..|bs| - 1]);
      LiveSlotsFull(bs[|bs| - 1].key);
    }
  }

  /** When the new table has fewer slots than there are pairs to copy, some
      `ht_put_seq` finds its bucket full and the resize loses pairs, although
      `ht_resize_pes` still reports success. Shrinking an `n`-bucket table by
      RATIO_HALVE always does when it holds more than `3 * (n / 8)` pairs,
      about one eighth of its `3 * n` slots. */
  lemma ShrinkLoses(dst: seq<Bucket>, srcs: seq<Bucket>, mask: nat)
    requires AllWellFormed(dst) && AllWellFormed(srcs) && mask < |dst|
    requires Count(dst) + Count(srcs) > ENTRIES_PER_BUCKET * |dst|
    ensures !MigrateFits(dst, srcs, mask, |srcs|)
    ensures Count(Migrate(dst, srcs, mask, |srcs|)) < Count(dst) + Count(srcs)
  {
    MigrateCount(dst, srcs, mask, |srcs|);
    CountBound(Migrate(dst, srcs, mask, |srcs|));
    assert srcs[..|srcs|] == srcs;
  }

  // ---------------------------------------------------------------------
  // Lock words during a resize
  // ---------------------------------------------------------------------

  /** No lock word is held: the state of the current table between operations. */
  predicate AllFree(bs: seq<Bucket>) {
    forall c :: 0 <= c < |bs| ==> bs[c].lock == Free
  }

  /** Buckets `lo .. hi-1` with their lock word set to RESIZE, as `bucket_cpy`
      leaves every bucket it copies. */
  function LockedRange(bs: seq<Bucket>, lo: nat, hi: nat): (r: seq<Bucket>)
    requires lo <= hi <= |bs|
    ensures |r| == |bs|
  {
    seq(|bs|, c requires 0 <= c < |bs| => if lo <= c < hi then bs[c].(lock := Resize) else bs[c])
  }

  /** Buckets outside the locked range are as they were. */
  lemma LockedOutside(bs: seq<Bucket>, lo: nat, hi: nat, c: nat)
    requires lo <= hi <= |bs| && c < |bs| && (c < lo || hi <= c)
    ensures LockedRange(bs, lo, hi)[c] == bs[c]
  {
  }

  /** Locking the bucket just below a locked range extends the range. */
  lemma LockBelow(bs: seq<Bucket>, lo: nat, hi: nat)
    requires 0 < lo <= hi <= |bs|
    ensures LockedRange(bs, lo, hi)[lo - 1 := LockedRange(bs, lo, hi)[lo - 1].(lock := Resize)] ==
      LockedRange(bs, lo - 1, hi)
  {
  }

  /** Locking the bucket just above a locked range extends the range. */
  lemma LockAbove(bs: seq<Bucket>, lo: nat, hi: nat)
    requires lo <= hi < |bs|
    ensures LockedRange(bs, lo, hi)[hi := LockedRange(bs, lo, hi)[hi].(lock := Resize)] ==
      LockedRange(bs, lo, hi + 1)
  {
  }

  /** Locking a bucket already locked for resizing changes nothing. */
  lemma LockHeld(bs: seq<Bucket>, lo: nat, hi: nat, b: nat)
    requires lo <= hi <= |bs| && b < |bs| && bs[b].lock == Resize
    ensures LockedRange(bs, lo, hi)[b := LockedRange(bs, lo, hi)[b].(lock := Resize)] == LockedRange(bs, lo, hi)
  {
  }

  lemma {:induction false} PutSeqFree(bs: seq<Bucket>, bin: nat, key: Key, val: Val)
    requires AllWellFormed(bs) && bin < |bs| && AllFree(bs)
    ensures AllFree(PutSeq(bs, bin, key, val))
  {
  }

  lemma {:induction false} CopySlotsFree(dst: seq<Bucket>, src: Bucket, mask: nat, upto: nat)
    requires AllWellFormed(dst) && WellFormed(src) && upto <= ENTRIES_PER_BUCKET && mask < |dst|
    requires AllFree(dst)
    ensures AllFree(CopySlots(dst, src, mask, upto))
    decreases upto
  {
    if upto > 0 {
      CopySlotsFree(dst, src, mask, upto - 1);
      var k := src.key[upto - 1];
      if k != 0 {
        PutSeqFree(CopySlots(dst, src, mask, upto - 1), HtHash(mask, k), k, src.val[upto - 1]);
      }
    }
  }

  /** The copy leaves every lock word of the new table FREE. */
  lemma {:induction false} MigrateFree(dst: seq<Bucket>, srcs: seq<Bucket>, mask: nat, k: nat)
    requires AllWellFormed(dst) && AllWellFormed(srcs) && k <= |srcs| && mask < |dst|
    requires AllFree(dst)
    ensures AllFree(Migrate(dst, srcs, mask, k))
    decreases k
  {
    if k > 0 {
      MigrateFree(dst, srcs, mask, k - 1);
      CopySlotsFree(Migrate(dst, srcs, mask, k - 1), srcs[k - 1], mask, ENTRIES_PER_BUCKET);
    }
  }

  /** `HelpStop` is the only index satisfying its contract. */
  lemma {:induction false} HelpStopUnique(srcs: seq<Bucket>, hi: nat, lo: nat)
    requires lo <= hi <= |srcs|
    requires forall b :: lo <= b < hi ==> srcs[b].lock != Resize
    requires lo > 0 ==> srcs[lo - 1].lock == Resize
    ensures HelpStop(srcs, hi) == lo
    decreases hi
  {
    if lo < hi {
      HelpStopUnique(srcs, hi - 1, lo);
    }
  }

  /** A resize of the valid table `srcs` into a fresh, empty generation of
      `n` buckets leaves a valid generation with no lock held. */
  lemma ResizeValid(srcs: seq<Bucket>, oldMask: nat, n: nat, mask: nat)
    requires |srcs| == oldMask + 1 && TableInvariant(srcs, oldMask)
    requires n == mask + 1
    ensures TableInvariant(Migrate(EmptyBuckets(n), srcs, mask, |srcs|), mask)
    ensures AllFree(Migrate(EmptyBuckets(n), srcs, mask, |srcs|))
  {
    EmptyHasNothing(n);
    MigrateInvariant(EmptyBuckets(n), srcs, oldMask, mask, |srcs|);
    MigrateFree(EmptyBuckets(n), srcs, mask, |srcs|);
  }

  /** Every pair of `srcs` finds room when the buckets are copied, in
      index order, into a fresh, empty generation of `n` buckets. */
  ghost predicate ResizeFits(srcs: seq<Bucket>, n: nat)
    requires AllWellFormed(srcs) && n > 0
  {
    MigrateFits(EmptyBuckets(n), srcs, n - 1, |srcs|)
  }

  /** A resize of the valid table `srcs` into a fresh, empty generation of
      `n` buckets in which every pair found room keeps exactly its pairs. */
  lemma FitsKeepsAll(res: seq<Bucket>, srcs: seq<Bucket>, oldMask: nat, n: nat, mask: nat, k: nat)
    requires k == |srcs| == oldMask + 1 && TableInvariant(srcs, oldMask) && n == mask + 1
    requires res == Migrate(EmptyBuckets(n), srcs, mask, k) && ResizeFits(srcs, n)
    ensures Entries(res) == Entries(srcs)
  {
    EmptyHasNothing(n);
    FitsKeepsEntries(EmptyBuckets(n), srcs, mask);
  }

  /** What a resize of the valid table `srcs` into a fresh, empty generation
      of `n` buckets keeps: no pair is invented, and every pair is kept, as is
      the size, exactly when every copy found room. The converse for the
      pairs holds because no key occupies two slots of `srcs`. */
  lemma ResizeKeeps(res: seq<Bucket>, srcs: seq<Bucket>, oldMask: nat, n: nat, mask: nat, k: nat)
    requires |srcs| == oldMask + 1 && TableInvariant(srcs, oldMask) && n == mask + 1 && k == |srcs|
    requires res == Migrate(EmptyBuckets(n), srcs, mask, k)
    ensures Entries(res) <= Entries(srcs)
    ensures Entries(res) == Entries(srcs) <==> ResizeFits(srcs, n)
    ensures Count(res) == Count(srcs) <==> ResizeFits(srcs, n)
  {
    EmptyHasNothing(n);
    MigrateInvariant(EmptyBuckets(n), srcs, oldMask, mask, k);
    assert srcs[..k] == srcs;
    FitsKeepsEntriesIf(EmptyBuckets(n), srcs, mask);
    FitsIffKeepsCount(EmptyBuckets(n), srcs, mask);
    CountIsSize(res, mask);
    CountIsSize(srcs, oldMask);
  }

  lemma FitsKeepsEntriesIf(dst: seq<Bucket>, srcs: seq<Bucket>, mask: nat)
    requires AllWellFormed(srcs) && AllWellFormed(dst) && mask < |dst| && Entries(dst) == {}
    ensures MigrateFits(dst, srcs, mask, |srcs|) ==> Entries(Migrate(dst, srcs, mask, |srcs|)) == Entries(srcs)
  {
    if MigrateFits(dst, srcs, mask, |srcs|) {
      FitsKeepsEntries(dst, srcs, mask);
    }
  }
}
