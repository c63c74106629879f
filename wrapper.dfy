/** The table handle `clht_wrapper_t`, as `clht_wrapper_create` builds it
    (src/clht_lb_res_no_next.c:84-107), and the operations that go through it:
    insertion, removal and the pessimistic resize that replaces the current
    generation. */
module Clht {
  import opened Bits
  import opened Buckets
  import opened Resize
  import opened Operations
  import opened HashTables

  datatype Option<T> = None | Some(value: T)

  /** CLHT_RATIO_HALVE (include/dht_res.h:21). */
  const RATIO_HALVE: nat := 8

  /** The bucket count `ht_resize_pes` asks `ht_create` for: the `size_t`
      product or quotient, truncated to the `uint32_t` parameter. */
  function NewCount(isIncrease: bool, factor: nat, n: nat): (m: nat)
    requires n < U32_LIMIT
    ensures m < U32_LIMIT
    ensures !isIncrease ==> m <= n
  {
    if isIncrease then (factor * n) % U32_LIMIT else n / RATIO_HALVE
  }

  class Wrapper {
    /** The current generation. */
    var ht: HashTable
    /** `resize_lock`: set while a resize runs. */
    var resizeLocked: bool

    /** The state between operations: the current generation is valid, has
        no lock held, no resize in progress, and its `table_prev` chain is
        recorded. */
    ghost predicate Valid()
      reads this, ht, ht.table, ht.Prevs`tablePrev
    {
      ht.Valid() && ht.ChainValid() && ht.numBuckets < U32_LIMIT && AllFree(ht.table[..]) &&
      ht.tableTmp == null && ht.tableNew == null && ht.isHelper == 1 && ht.helperDone == 0
    }

    /** The (key, value) pairs the table stores. */
    ghost function Contents(): (pairs: set<(Key, Val)>)
      reads this, ht, ht.table
      requires ht.Shape()
    {
      ht.Contents()
    }

    constructor Init(h: HashTable)
      ensures ht == h && !resizeLocked
    {
      ht := h;
      resizeLocked := false;
    }

    /** `clht_wrapper_create`: NULL when `ht_create` gives NULL (zero
        buckets), otherwise a handle on a new, empty generation. */
    static method Create(n: u32) returns (w: Wrapper?)
      ensures w == null <==> n == 0
      ensures w != null ==>
        fresh(w) && fresh(w.ht) && fresh(w.ht.table) && w.Valid() && !w.resizeLocked && w.ht.Initial(n) && w.Contents() == {}
    {
      var h := HashTable.Create(n);
      if h == null {
        return null;
      }
      w := new Wrapper.Init(h);
    }

    /** `ht_put` with the growth factor `ht_status` would pick given as
        `factor` and CLHT_READ_ONLY_FAIL as `readOnlyFail`. `Some(true)`: the
        key was absent and the pair is added. `Some(false)`: the key was
        already there (or is 0, the empty-slot marker) and nothing changes.
        A full bucket makes the table grow by `factor` and the put start
        over; `None` is the case where the grown count wraps to 0, where
        `ht_resize_pes` would dereference the NULL that `ht_create(0)`
        returns. */
    method Put(key: Key, val: Val, factor: nat, readOnlyFail: bool) returns (r: Option<bool>)
      requires Valid() && !resizeLocked
      requires IsPowerOfTwo(ht.numBuckets) && IsPowerOfTwo(factor) && factor >= 2
      modifies this, ht, ht.table
      ensures Valid() && !resizeLocked && IsPowerOfTwo(ht.numBuckets)
      ensures r == Some(true) ==>
        key != 0 && (forall w :: (key, w) !in old(Contents())) && Contents() == old(Contents()) + {(key, val)}
      ensures r == Some(false) ==>
        (key == 0 || exists w :: (key, w) in old(Contents())) && Contents() == old(Contents())
      ensures r == None ==> (forall w :: (key, w) !in old(Contents())) && Contents() == old(Contents())
      ensures key != 0 && (exists w :: (key, w) in old(Contents())) ==> r == Some(false)
      ensures r == None ==> NewCount(true, factor, ht.numBuckets) == 0
      ensures !PutAttempt(old(ht.table[..]), old(ht.hash), key, val).Full? ==> ht == old(ht) && r != None
      ensures (ht == old(ht) || fresh(ht)) && (ht.table == old(ht.table) || fresh(ht.table))
      ensures ht.numBuckets >= old(ht.numBuckets)
      ensures ht != old(ht) ==> ht.numBuckets > old(ht.numBuckets)
      ensures r == None ==> PutAttempt(ht.table[..], ht.hash, key, val).Full?
      ensures PutAttempt(old(ht.table[..]), old(ht.hash), key, val).Full? && r != None ==> ht != old(ht)
    {
      while true
        invariant Valid() && !resizeLocked && IsPowerOfTwo(ht.numBuckets)
        invariant Contents() == old(Contents())
        invariant ht == old(ht) || fresh(ht)
        invariant ht.table == old(ht.table) || fresh(ht.table)
        invariant ht == old(ht) ==> ht.table[..] == old(ht.table[..]) && ht.hash == old(ht.hash)
        invariant ht != old(ht) ==> PutAttempt(old(ht.table[..]), old(ht.hash), key, val).Full?
        invariant ht.numBuckets >= old(ht.numBuckets)
        invariant ht != old(ht) ==> ht.numBuckets > old(ht.numBuckets)
        decreases U32_LIMIT - ht.numBuckets
      {
        var outcome := Attempt(key, val, readOnlyFail);
        match outcome
        case Present =>
          return Some(false);
        case Inserted(_) =>
          return Some(true);
        case Full =>
          if NewCount(true, factor, ht.numBuckets) == 0 {
            return None;
          }
          Expand(factor);
      }
    }

    /** One pass of `ht_put` over the current generation, with its effect on
        the contents: a new pair for `Inserted`, and no change otherwise. */
    method Attempt(key: Key, val: Val, readOnlyFail: bool) returns (outcome: PutOutcome)
      requires Valid()
      modifies ht`isHelper, ht`helperDone, ht.table
      ensures Valid() && ht.numBuckets == old(ht.numBuckets)
      ensures outcome == PutAttempt(old(ht.table[..]), ht.hash, key, val)
      ensures !outcome.Inserted? ==> ht.table[..] == old(ht.table[..])
      ensures outcome.Inserted? ==>
        key != 0 && (forall w :: (key, w) !in old(Contents())) && Contents() == old(Contents()) + {(key, val)}
      ensures outcome.Present? ==> key == 0 || exists w :: (key, w) in old(Contents())
      ensures outcome.Full? ==> forall w :: (key, w) !in old(Contents())
      ensures key != 0 && (exists w :: (key, w) in old(Contents())) ==> outcome.Present?
    {
      ghost var t0 := ht.table[..];
      outcome := ht.TryPut(key, val, readOnlyFail);
      PutAttemptEffect(t0, ht.hash, key, val);
    }

    /** `ht_status(h, 1, 0)` as `ht_put` calls it on a full bucket: the table
        grows by `factor` through `ht_resize_pes`. A power-of-two table
        grown by a power of two gets strictly more buckets, still a power of
        two, and keeps every pair. */
    method Expand(factor: nat)
      requires Valid() && !resizeLocked
      requires IsPowerOfTwo(ht.numBuckets) && IsPowerOfTwo(factor) && factor >= 2
      requires NewCount(true, factor, ht.numBuckets) != 0
      modifies this, ht`isHelper, ht`tableTmp, ht`tableNew, ht.table
      ensures Valid() && !resizeLocked && fresh(ht) && fresh(ht.table)
      ensures IsPowerOfTwo(ht.numBuckets) && ht.numBuckets > old(ht.numBuckets)
      ensures Contents() == old(Contents())
    {
      var n := ht.numBuckets;
      ghost var src, oldMask := ht.table[..], ht.hash;
      ghost var m := NewCount(true, factor, n);
      GrowthStep(n, factor);
      GrowthFromEmpty(src, n, factor, m);
      var _ := ResizePes(true, factor);
      assert ht.numBuckets == m;
      FitsKeepsAll(ht.table[..], src, oldMask, m, ht.hash, n);
    }

    /** `ht_remove` (with CLHT_READ_ONLY_FAIL as `readOnlyFail`) on the
        current generation. For a nonzero stored key it returns the stored
        value and removes exactly that pair; for an absent key it returns 0
        and changes nothing; key 0 never changes the contents. */
    method Remove(key: Key, readOnlyFail: bool) returns (v: Val)
      requires Valid()
      modifies ht, ht.table
      ensures Valid() && unchanged(ht)
      ensures (ht.table[..], v) == RemoveAttempt(old(ht.table[..]), ht.hash, key)
      ensures key != 0 && (exists w :: (key, w) in old(Contents())) ==>
        (key, v) in old(Contents()) && Contents() == old(Contents()) - {(key, v)}
      ensures key != 0 && (forall w :: (key, w) !in old(Contents())) ==>
        v == 0 && Contents() == old(Contents())
      ensures key == 0 ==> Contents() == old(Contents())
    {
      ghost var t0 := ht.table[..];
      v := ht.Remove(key, readOnlyFail);
      RemoveAttemptEffect(t0, ht.hash, key);
    }

    /** `ht_resize_pes` with `by` given as `factor`. When a resize is already
        running it returns 0 and changes nothing. Otherwise it creates a
        generation of `NewCount` buckets, copies every bucket of the current
        one into it in index order (leaving them locked for resizing),
        publishes it as the current generation with the old one behind it
        in the `table_prev` chain, and returns 1. The new buckets are
        `Migrate` of the old ones, so by `ResizeKeeps` they hold no pair the
        old ones did not, and all of them exactly when no destination bucket
        overflowed, which `GrowthFromEmpty` shows is always the case when a
        power-of-two table grows by a power of two. */
    method ResizePes(isIncrease: bool, factor: nat) returns (r: int)
      requires Valid()
      requires !resizeLocked ==> NewCount(isIncrease, factor, ht.numBuckets) != 0
      modifies this, ht`isHelper, ht`tableTmp, ht`tableNew, ht.table
      ensures resizeLocked == old(resizeLocked)
      ensures old(resizeLocked) ==> r == 0 && ht == old(ht) && unchanged(ht) && ht.table[..] == old(ht.table[..])
      ensures !old(resizeLocked) ==>
        r == 1 && fresh(ht) && fresh(ht.table) && Valid() &&
        ht.numBuckets == NewCount(isIncrease, factor, old(ht.numBuckets)) &&
        ht.version == old(ht.version) + 1 && ht.tablePrev == old(ht) && ht.Prevs == [old(ht)] + old(ht.Prevs) &&
        old(ht).tableTmp == ht && old(ht).tableNew == ht &&
        old(ht).isHelper == (if isIncrease then 1 else 0) &&
        old(ht).table[..] == LockedRange(old(ht.table[..]), 0, old(ht.numBuckets)) &&
        ht.table[..] == Migrate(EmptyBuckets(ht.numBuckets), old(ht.table[..]), ht.hash, old(ht.numBuckets))
    {
      if resizeLocked {
        return 0;
      }
      resizeLocked := true;
      var htOld := ht;
      var newN := NewCount(isIncrease, factor, htOld.numBuckets);
      var htNew := htOld.Successor(newN, isIncrease);
      ht := htNew;
      resizeLocked := false;
      return 1;
    }
  }

  /** A caller's view of `ht_put` on a handle it has just created: the first
      put of a key on an empty table stores it and returns true. */
  method CreateAndPut(n: u32, key: Key, v: Val, factor: nat) returns (w: Wrapper?, r: Option<bool>)
    requires IsPowerOfTwo(n) && IsPowerOfTwo(factor) && factor >= 2 && key != 0
    ensures w != null && fresh(w) && fresh(w.ht) && fresh(w.ht.table)
    ensures w.Valid() && !w.resizeLocked && IsPowerOfTwo(w.ht.numBuckets)
    ensures r == Some(true) && w.Contents() == {(key, v)}
  {
    w := Wrapper.Create(n);
    HashInRange(n as nat, key);
    assert w.ht.table[..][HtHash(w.ht.hash, key)] == ZeroBucket;
    assert !PutAttempt(w.ht.table[..], w.ht.hash, key, v).Full?;
    assert w.Contents() == {};
    r := w.Put(key, v, factor, false);
    assert r.Some? && r.value;
  }

  /** The same caller puts the key a second time: `ht_put` returns false and
      the table keeps the first value. */
  method PutTwice(n: u32, key: Key, v1: Val, v2: Val, factor: nat) returns (first: Option<bool>, second: Option<bool>)
    requires IsPowerOfTwo(n) && IsPowerOfTwo(factor) && factor >= 2 && key != 0
    ensures first == Some(true) && second == Some(false)
  {
    var w;
    w, first := CreateAndPut(n, key, v1, factor);
    assert (key, v1) in w.Contents();
    second := w.Put(key, v2, factor, false);
  }

  /** Three distinct stored keys that share the bin of a fourth key fill
      that bin's bucket, so a put of the fourth key finds it full. */
  lemma CollisionFull(bs: seq<Bucket>, mask: nat, k1: Key, k2: Key, k3: Key, k4: Key, a: Val, b: Val, c: Val, d: Val)
    requires TableInvariant(bs, mask) && (k1, a) in Entries(bs) && (k2, b) in Entries(bs) && (k3, c) in Entries(bs)
    requires k1 != 0 && k2 != 0 && k3 != 0 && k1 != k2 && k2 != k3 && k1 != k3 && k4 != k1 && k4 != k2 && k4 != k3
    requires HtHash(mask, k1) == HtHash(mask, k2) == HtHash(mask, k3) == HtHash(mask, k4)
    ensures PutAttempt(bs, mask, k4, d).Full?
  {
    KeyPresent(bs, mask, k1);
    KeyPresent(bs, mask, k2);
    KeyPresent(bs, mask, k3);
    var keys := bs[HtHash(mask, k4)].key;
    var i, j, k := FindSlot(keys, k1, 0), FindSlot(keys, k2, 0), FindSlot(keys, k3, 0);
    forall s | 0 <= s < ENTRIES_PER_BUCKET
      ensures keys[s] != k4 && keys[s] != 0
    {
      assert s == i || s == j || s == k;
    }
  }

  /** With a power-of-two count above all four keys, each key is its own
      bin, so the bucket of the fourth key has room. */
  lemma ApartWhenWide(bs: seq<Bucket>, m: nat, k1: Key, k2: Key, k3: Key, k4: Key, a: Val, b: Val, c: Val, d: Val)
    requires IsPowerOfTwo(m) && TableInvariant(bs, m - 1) && Entries(bs) == {(k1, a), (k2, b), (k3, c)}
    requires k1 < m && k2 < m && k3 < m && k4 < m && k4 != k1 && k4 != k2 && k4 != k3
    ensures !PutAttempt(bs, m - 1, k4, d).Full?
  {
    if PutAttempt(bs, m - 1, k4, d).Full? {
      FullBucketStored(bs, m - 1, k4, d, 0);
      var k := bs[HtHash(m - 1, k4)].key[0];
      assert k == k1 || k == k2 || k == k3;
      HashIsMod(m, k4);
      HashIsMod(m, k);
      ModBelow(k, m);
      ModBelow(k4, m);
      assert false;
    }
  }

  /** A growth by 2 wraps to 0 only from 2^31 buckets, where keys below 2^31
      hash apart: a put of the fourth key then never finds its bucket full. */
  lemma NoWrapForLowKeys(bs: seq<Bucket>, m: nat, k1: Key, k2: Key, k3: Key, k4: Key, a: Val, b: Val, c: Val, d: Val)
    requires IsPowerOfTwo(m) && m < U32_LIMIT && TableInvariant(bs, m - 1)
    requires Entries(bs) == {(k1, a), (k2, b), (k3, c)}
    requires k1 < 0x8000_0000 && k2 < 0x8000_0000 && k3 < 0x8000_0000 && k4 < 0x8000_0000
    requires k4 != k1 && k4 != k2 && k4 != k3
    ensures NewCount(true, 2, m) == 0 ==> !PutAttempt(bs, m - 1, k4, d).Full?
  {
    if NewCount(true, 2, m) == 0 {
      assert m == 0x8000_0000;
      ApartWhenWide(bs, m, k1, k2, k3, k4, a, b, c, d);
    }
  }

  lemma ModBelow(x: nat, m: nat)
    requires x < m
    ensures x % m == x
  {
  }

  /** Keys 8, 16, 24 and 32 all land in bucket 0 of an eight-bucket table. */
  lemma EightBucketsCollide()
    ensures IsPowerOfTwo(8)
    ensures HtHash(7, 8) == HtHash(7, 16) == HtHash(7, 24) == HtHash(7, 32) == 0
  {
  }

  /** Four distinct nonzero keys that share a bucket, three of them stored:
      the put of the fourth finds the bucket full, the table grows by 2, and
      the put then stores the pair and returns true. With 8 buckets, keys 8,
      16, 24 and 32 are such keys (`EightBucketsCollide`). */
  method CollidingPut(w: Wrapper, k1: Key, k2: Key, k3: Key, k4: Key, a: Val, b: Val, c: Val, d: Val)
    returns (r: Option<bool>)
    requires w.Valid() && !w.resizeLocked && IsPowerOfTwo(w.ht.numBuckets)
    requires k1 != 0 && k2 != 0 && k3 != 0 && k4 != 0 && k1 != k2 && k2 != k3 && k1 != k3 && k4 != k1 && k4 != k2 && k4 != k3
    requires k1 < 0x8000_0000 && k2 < 0x8000_0000 && k3 < 0x8000_0000 && k4 < 0x8000_0000
    requires HtHash(w.ht.hash, k1) == HtHash(w.ht.hash, k2) == HtHash(w.ht.hash, k3) == HtHash(w.ht.hash, k4)
    requires w.Contents() == {(k1, a), (k2, b), (k3, c)}
    modifies w, w.ht, w.ht.table
    ensures w.Valid() && r == Some(true) && w.ht.numBuckets > old(w.ht.numBuckets)
    ensures w.Contents() == {(k1, a), (k2, b), (k3, c), (k4, d)}
  {
    assert PutAttempt(w.ht.table[..], w.ht.hash, k4, d).Full? by {
      CollisionFull(w.ht.table[..], w.ht.hash, k1, k2, k3, k4, a, b, c, d);
    }
    assert IsPowerOfTwo(2);
    r := w.Put(k4, d, 2, false);
    if r == None {
      assert false by {
        NoWrapForLowKeys(w.ht.table[..], w.ht.numBuckets, k1, k2, k3, k4, a, b, c, d);
      }
    }
    assert r.Some? && r.value;
  }
}
