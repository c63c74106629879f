/** One table generation, `hashtable_t` (include/dht_res.h:80-101, with the
    `version` and `table_prev` fields that src/clht_lb_res_no_next.c writes),
    and the operations of src/clht_lb_res_no_next.c that work on a single
    generation: creation, hashing, lookup, the bucket lock routines, the
    sequential put and bucket copy used by a resize, the resize helper and
    the size and memory counters. */
module HashTables {
  import opened Bits
  import opened BucketLock
  import opened Buckets
  import opened Resize
  import opened Operations

  /** `sizeof(bucket_t)`: a lock word, three keys, three values and `next`,
      eight bytes each, aligned to one 64-byte cache line. */
  const BUCKET_BYTES: nat := 64

  /** `sizeof(hashtable_t**)`: one pointer. */
  const POINTER_BYTES: nat := 8

  /** `CLHT_PERC_EXPANSIONS * num_buckets` converted to `uint32_t`, raised to 1
      when it is 0: one tenth of the bucket count, rounded down, at least 1. */
  function ExpandsThreshold(n: u32): (t: nat)
    ensures t >= 1
    ensures n >= 10 ==> 10 * t <= n < 10 * (t + 1)
    ensures n < 10 ==> t == 1
  {
    if n / 10 == 0 then 1 else n / 10
  }

  class HashTable {
    var numBuckets: nat
    var table: array<Bucket>
    /** The mask `num_buckets - 1` that `ht_hash` applies. */
    var hash: nat
    var version: nat
    var tableTmp: HashTable?
    var tableNew: HashTable?
    var tablePrev: HashTable?
    var numExpands: nat
    var numExpandsThreshold: nat
    var isHelper: int
    var helperDone: int
    /** The older generations reached through `tablePrev`, newest first. */
    ghost var Prevs: seq<HashTable>

    /** The bucket array matches the bucket count and the mask. */
    ghost predicate Shape()
      reads this`numBuckets, this`table, this`hash, table
    {
      0 < numBuckets == table.Length && hash == numBuckets - 1 && AllWellFormed(table[..])
    }

    /** Every key sits in the bucket it hashes to, at most once. */
    ghost predicate Valid()
      reads this`numBuckets, this`table, this`hash, table
    {
      Shape() && TableInvariant(table[..], hash)
    }

    /** The (key, value) pairs the generation stores. */
    ghost function Contents(): (pairs: set<(Key, Val)>)
      reads this`numBuckets, this`table, this`hash, table
      requires Shape()
    {
      Entries(table[..])
    }

    /** `Prevs` lists exactly the `tablePrev` chain, ending in null. */
    ghost predicate ChainValid()
      reads this`tablePrev, this`Prevs, Prevs`tablePrev
    {
      (tablePrev == null <==> Prevs == []) &&
      (Prevs != [] ==> Prevs[0] == tablePrev && Prevs[|Prevs| - 1].tablePrev == null) &&
      (forall i {:trigger Prevs[i].tablePrev} :: 0 <= i < |Prevs| - 1 ==> Prevs[i].tablePrev == Prevs[i + 1])
    }

    /** Putting a recorded chain behind this generation records the longer chain. */
    lemma ChainExtends(prev: HashTable)
      requires tablePrev == prev && Prevs == [prev] + prev.Prevs && prev.ChainValid()
      ensures ChainValid()
    {
    }

    /** The state `ht_create(n)` leaves a new generation in. */
    ghost predicate Initial(n: u32)
      reads this, table
    {
      numBuckets == n && Valid() && table[..] == EmptyBuckets(n) &&
      version == 0 && tableTmp == null && tableNew == null && tablePrev == null && Prevs == [] &&
      numExpands == 0 && numExpandsThreshold == ExpandsThreshold(n) &&
      isHelper == 1 && helperDone == 0
    }

    /** The array of the table being filled by a resize, if one was started. */
    ghost function TmpTable(): (arrays: set<object>)
      reads this, tableTmp
    {
      if tableTmp == null then {} else {tableTmp.table}
    }

    /** What `ht_resize_help` needs to return: no bucket is held for an
        update (the copy would spin on it) and, when the helper will walk,
        the table being filled is a separate, well-shaped generation. */
    ghost predicate CanHelp()
      reads this, table, tableTmp, TmpTable()
    {
      Shape() &&
      (forall c :: 0 <= c < table.Length ==> !Spins(table[c].lock)) &&
      (isHelper > 0 ==> tableTmp != null && tableTmp.Shape() && tableTmp.table != table)
    }

    /** `ht_create` for a nonzero bucket count: the bucket array is zeroed
        (`memset`), then every lock and key is cleared again. */
    constructor (n: u32)
      requires n > 0
      ensures Initial(n) && fresh(table)
      ensures Contents() == {} && Count(table[..]) == 0 && AllFree(table[..])
    {
      var t := new Bucket[n](_ => ZeroBucket);
      var i := 0;
      while i < n
        invariant 0 <= i <= n
        invariant forall c :: 0 <= c < n ==> t[c] == ZeroBucket
      {
        t[i] := t[i].(lock := Free);
        var j := 0;
        while j < ENTRIES_PER_BUCKET
          invariant 0 <= j <= ENTRIES_PER_BUCKET
          invariant forall c :: 0 <= c < n ==> t[c] == ZeroBucket
        {
          assert t[i].key[j := 0] == [0, 0, 0];
          t[i] := t[i].(key := t[i].key[j := 0]);
          j := j + 1;
        }
        i := i + 1;
      }
      table := t;
      numBuckets := n;
      hash := n - 1;
      version := 0;
      tableTmp := null;
      tableNew := null;
      tablePrev := null;
      numExpands := 0;
      numExpandsThreshold := ExpandsThreshold(n);
      isHelper := 1;
      helperDone := 0;
      Prevs := [];
      new;
      assert table[..] == EmptyBuckets(n);
      EmptyHasNothing(n);
    }

    /** `ht_create`: NULL for zero buckets, otherwise a new, empty generation. */
    static method Create(n: u32) returns (h: HashTable?)
      ensures h == null <==> n == 0
      ensures h != null ==> fresh(h) && fresh(h.table) && h.Initial(n)
      ensures h != null ==> h.Contents() == {} && AllFree(h.table[..])
    {
      if n == 0 {
        return null;
      }
      h := new HashTable(n);
    }

    /** `ht_get`: the value beside the first slot of the key's bucket holding
        the key, or 0. On a valid table this is the value stored with a
        nonzero key, and 0 when the key is absent. */
    method Get(key: Key) returns (v: Val)
      requires Shape()
      ensures v == Lookup(table[HtHash(hash, key)], key)
      ensures Valid() && key != 0 && (exists w :: (key, w) in Contents()) ==>
        (key, v) in Contents() && forall w :: (key, w) in Contents() ==> w == v
      ensures Valid() && key != 0 && (forall w :: (key, w) !in Contents()) ==> v == 0
    {
      var bin := HtHash(hash, key);
      var j := 0;
      while j < ENTRIES_PER_BUCKET
        invariant 0 <= j <= ENTRIES_PER_BUCKET
        invariant forall i :: 0 <= i < j ==> table[bin].key[i] != key
      {
        if table[bin].key[j] == key {
          v := table[bin].val[j];
          Found(key, v);
          return;
        }
        j := j + 1;
      }
      v := 0;
      Found(key, v);
    }

    lemma Found(key: Key, v: Val)
      requires Shape() && v == Lookup(table[HtHash(hash, key)], key)
      ensures Valid() && key != 0 && (exists w :: (key, w) in Contents()) ==>
        (key, v) in Contents() && forall w :: (key, w) in Contents() ==> w == v
      ensures Valid() && key != 0 && (forall w :: (key, w) !in Contents()) ==> v == 0
    {
      if Valid() && key != 0 {
        KeyPresent(table[..], hash, key);
        LookupAgrees(table[..], hash, key, v);
        forall w | (key, w) in Contents() ensures w == v {
          LookupAgrees(table[..], hash, key, w);
        }
      }
    }

    /** `bucket_exists`: whether some slot of bucket `bin` holds `key`. On a
        valid table, for the bucket a nonzero key hashes to, this is whether
        the key is stored. */
    method BucketExists(bin: nat, key: Key) returns (b: bool)
      requires Shape() && bin < numBuckets
      ensures b <==> exists j :: 0 <= j < ENTRIES_PER_BUCKET && table[bin].key[j] == key
      ensures Valid() && key != 0 && bin == HtHash(hash, key) ==>
        (b <==> exists w :: (key, w) in Contents())
    {
      var j := 0;
      while j < ENTRIES_PER_BUCKET
        invariant 0 <= j <= ENTRIES_PER_BUCKET
        invariant forall i :: 0 <= i < j ==> table[bin].key[i] != key
      {
        if table[bin].key[j] == key {
          b := true;
          if Valid() && key != 0 {
            KeyPresent(table[..], hash, key);
          }
          return;
        }
        j := j + 1;
      }
      b := false;
      if Valid() && key != 0 {
        KeyPresent(table[..], hash, key);
      }
    }

    /** `ht_size`: the number of nonzero keys; on a valid table, the number of
        stored pairs. */
    method Size() returns (size: nat)
      requires Shape()
      ensures size == Count(table[..])
      ensures Valid() ==> size == |Contents()|
    {
      size := 0;
      var bin := 0;
      while bin < numBuckets
        invariant 0 <= bin <= numBuckets
        invariant size == Count(table[..bin])
      {
        var j := 0;
        while j < ENTRIES_PER_BUCKET
          invariant 0 <= j <= ENTRIES_PER_BUCKET
          invariant size == Count(table[..bin]) + LiveSlots(table[bin].key[..j])
        {
          if table[bin].key[j] > 0 {
            size := size + 1;
          }
          assert table[bin].key[..j + 1][..j] == table[bin].key[..j];
          j := j + 1;
        }
        assert table[bin].key[..ENTRIES_PER_BUCKET] == table[bin].key;
        assert table[..bin + 1][..bin] == table[..bin];
        bin := bin + 1;
      }
      assert table[..numBuckets] == table[..];
      if Valid() {
        CountIsSize(table[..], hash);
      }
    }

    /** `lock_acq_resize`: FREE becomes RESIZE and the caller owns the bucket;
        a bucket already in RESIZE is refused. */
    method LockAcquireResize(b: nat) returns (acquired: bool)
      requires Shape() && b < numBuckets && !Spins(table[b].lock)
      modifies table
      ensures acquired <==> old(table[b].lock) == Free
      ensures table[..] == old(table[..])[b := old(table[b]).(lock := Resize)]
    {
      var a := AcquireResize(table[b].lock);
      table[b] := table[b].(lock := a.after);
      acquired := a.acquired;
    }

    /** What the helper leaves: buckets from the top down to the first one
        already in RESIZE are locked for resizing and copied into `tmp`. */
    ghost function HelpResult(bs: seq<Bucket>, tmp: seq<Bucket>, mask: nat): (r: (seq<Bucket>, seq<Bucket>))
      requires AllWellFormed(bs) && AllWellFormed(tmp) && mask < |tmp|
      ensures |r.0| == |bs| && |r.1| == |tmp| && AllWellFormed(r.1)
    {
      var lo := HelpStop(bs, |bs|);
      (LockedRange(bs, lo, |bs|), MigrateDown(tmp, bs, mask, lo, |bs|))
    }

    /** `ht_resize_help`: the first caller (`is_helper` was positive) copies
        buckets from the top down until it meets one the resizer has taken,
        then marks itself done; later callers do nothing. */
    method ResizeHelp()
      requires CanHelp()
      modifies this`isHelper, this`helperDone, table, TmpTable()
      ensures isHelper == old(isHelper) - 1
      ensures old(isHelper) <= 0 ==>
        helperDone == old(helperDone) && table[..] == old(table[..]) &&
        (tableTmp != null ==> tableTmp.table[..] == old(tableTmp.table[..]))
      ensures old(isHelper) > 0 ==>
        helperDone == 1 &&
        (table[..], tableTmp.table[..]) == HelpResult(old(table[..]), old(tableTmp.table[..]), tableTmp.hash)
    {
      var previous := isHelper;
      isHelper := isHelper - 1;
      if previous <= 0 {
        return;
      }
      var _ := CopyDown(tableTmp);
      helperDone := 1;
    }

    /** The loop of `ht_resize_help`: copy buckets from the top down, stopping
        at the first one that is already locked for resizing, whose index
        plus one is returned. */
    method CopyDown(dst: HashTable) returns (lo: nat)
      requires Shape() && dst.Shape() && dst.table != table
      requires forall c :: 0 <= c < table.Length ==> !Spins(table[c].lock)
      modifies table, dst.table
      ensures lo == HelpStop(old(table[..]), numBuckets)
      ensures table[..] == LockedRange(old(table[..]), lo, numBuckets)
      ensures dst.table[..] == MigrateDown(old(dst.table[..]), old(table[..]), dst.hash, lo, numBuckets)
    {
      ghost var src := table[..];
      ghost var tmp := dst.table[..];
      var b: int := hash;
      while b >= 0
        invariant -1 <= b <= hash
        invariant HelpStop(src, numBuckets) == HelpStop(src, b + 1)
        invariant table[..] == LockedRange(src, b + 1, numBuckets)
        invariant dst.Shape()
        invariant dst.table[..] == MigrateDown(tmp, src, dst.hash, b + 1, numBuckets)
        decreases b
      {
        var copied := CopyDownStep(b, dst, src, tmp);
        if !copied {
          break;
        }
        b := b - 1;
      }
      lo := b + 1;
    }

    /** One iteration of the loop of `ht_resize_help`: bucket `b`, just below
        the buckets already copied, is copied unless it is already locked for
        resizing. */
    method CopyDownStep(b: nat, dst: HashTable, ghost src: seq<Bucket>, ghost tmp: seq<Bucket>) returns (copied: bool)
      requires Shape() && dst.Shape() && dst.table != table && b < numBuckets == |src|
      requires AllWellFormed(src) && AllWellFormed(tmp) && dst.hash < |tmp|
      requires !Spins(src[b].lock)
      requires table[..] == LockedRange(src, b + 1, numBuckets)
      requires dst.table[..] == MigrateDown(tmp, src, dst.hash, b + 1, numBuckets)
      modifies table, dst.table
      ensures dst.Shape()
      ensures copied <==> src[b].lock != Resize
      ensures copied ==> table[..] == LockedRange(src, b, numBuckets)
      ensures copied ==> dst.table[..] == MigrateDown(tmp, src, dst.hash, b, numBuckets)
      ensures !copied ==> table[..] == LockedRange(src, b + 1, numBuckets)
      ensures !copied ==> dst.table[..] == MigrateDown(tmp, src, dst.hash, b + 1, numBuckets)
    {
      LockedOutside(src, b + 1, numBuckets, b);
      copied := BucketCopy(b, dst);
      if !copied {
        LockHeld(src, b + 1, numBuckets, b);
      } else {
        LockBelow(src, b + 1, numBuckets);
      }
    }

    /** `lock_acq_chk_resize` (`LOCK_ACQ`): FREE becomes UPDATE and the caller
        owns the bucket. A bucket in RESIZE makes the caller help the resize
        and then fail, once the new generation is published. */
    method LockAcquireUpdate(b: nat) returns (acquired: bool)
      requires Shape() && b < numBuckets && !Spins(table[b].lock)
      requires table[b].lock == Resize ==> CanHelp() && tableNew != null
      modifies this`isHelper, this`helperDone, table, TmpTable()
      ensures acquired <==> old(table[b].lock) == Free
      ensures acquired ==> table[..] == old(table[..])[b := old(table[b]).(lock := Update)]
      ensures acquired ==> isHelper == old(isHelper) && helperDone == old(helperDone)
      ensures acquired && tableTmp != null && tableTmp.table != table ==>
        tableTmp.table[..] == old(tableTmp.table[..])
      ensures !acquired ==> tableNew != null && table[b].lock == Resize
      ensures !acquired ==> isHelper == old(isHelper) - 1
      ensures !acquired && old(isHelper) <= 0 ==>
        helperDone == old(helperDone) && table[..] == old(table[..]) &&
        (tableTmp != null ==> tableTmp.table[..] == old(tableTmp.table[..]))
      ensures !acquired && old(isHelper) > 0 ==>
        helperDone == 1 &&
        (table[..], tableTmp.table[..]) == HelpResult(old(table[..]), old(tableTmp.table[..]), tableTmp.hash)
    {
      var a := AcquireUpdate(table[b].lock);
      table[b] := table[b].(lock := a.after);
      if !a.acquired {
        assert table[..] == old(table[..]);
        ResizeHelp();
        return false;
      }
      return true;
    }

    /** One pass of `ht_put` over the key's bucket, from the optional
        fast-fail check (`readOnlyFail` is CLHT_READ_ONLY_FAIL) through the
        locked scan to the write of value then key and the release. It does
        what `PutAttempt` says; the locks end as they began. */
    method TryPut(key: Key, val: Val, readOnlyFail: bool) returns (r: PutOutcome)
      requires Shape() && AllFree(table[..])
      modifies this`isHelper, this`helperDone, table, TmpTable()
      ensures isHelper == old(isHelper) && helperDone == old(helperDone)
      ensures tableTmp != null && tableTmp.table != table ==> tableTmp.table[..] == old(tableTmp.table[..])
      ensures r == PutAttempt(old(table[..]), hash, key, val)
      ensures table[..] == if r.Inserted? then r.table else old(table[..])
    {
      var bin := HtHash(hash, key);
      if readOnlyFail {
        var present := BucketExists(bin, key);
        if present {
          return Present;
        }
      }
      ghost var t0 := table[..];
      var _ := LockAcquireUpdate(bin);
      var found, empty := ScanBucket(bin, key);
      if found || empty == -1 {
        LockRelease(bin);
        ReleaseRestores(t0, table[..], bin);
        return if found then Present else Full;
      }
      WriteSlot(bin, empty, key, val);
      LockRelease(bin);
      ReleaseAfterWrite(t0, table[..], bin, empty, key, val);
      r := Inserted(table[..]);
    }

    /** The locked scan of `ht_put`: whether some slot of bucket `bin` holds
        `key` and, when none does, the last empty slot it passed, or -1. */
    method ScanBucket(bin: nat, key: Key) returns (found: bool, empty: int)
      requires Shape() && bin < numBuckets
      ensures found <==> FindSlot(table[bin].key, key, 0) >= 0
      ensures !found ==> empty == LastSlot(table[bin].key, 0, ENTRIES_PER_BUCKET)
    {
      empty := -1;
      var j := 0;
      while j < ENTRIES_PER_BUCKET
        invariant 0 <= j <= ENTRIES_PER_BUCKET
        invariant forall i :: 0 <= i < j ==> table[bin].key[i] != key
        invariant empty == LastSlot(table[bin].key, 0, j)
      {
        var k := table[bin].key[j];
        if k == key {
          return true, empty;
        }
        if k == 0 {
          empty := j;
        }
        j := j + 1;
      }
      found := false;
    }

    /** The insertion of `ht_put` into slot `j` of bucket `bin`: the value is
        written first, then the key. */
    method WriteSlot(bin: nat, j: nat, key: Key, val: Val)
      requires Shape() && bin < numBuckets && j < ENTRIES_PER_BUCKET
      modifies table
      ensures table[..] == old(table[..])[bin := SetSlot(old(table[bin]), j, key, val)]
    {
      table[bin] := table[bin].(val := table[bin].val[j := val]);
      table[bin] := table[bin].(key := table[bin].key[j := key]);
    }

    /** The body of `ht_remove` on the current generation: the optional
        fast-fail check, then the locked scan that zeroes the key of the
        first slot holding it. It does what `RemoveAttempt` says; the locks
        end as they began. */
    method Remove(key: Key, readOnlyFail: bool) returns (v: Val)
      requires Shape() && AllFree(table[..])
      modifies this`isHelper, this`helperDone, table, TmpTable()
      ensures isHelper == old(isHelper) && helperDone == old(helperDone)
      ensures tableTmp != null && tableTmp.table != table ==> tableTmp.table[..] == old(tableTmp.table[..])
      ensures (table[..], v) == RemoveAttempt(old(table[..]), hash, key)
    {
      var bin := HtHash(hash, key);
      if readOnlyFail {
        var present := BucketExists(bin, key);
        if !present {
          return 0;
        }
      }
      ghost var t0 := table[..];
      var _ := LockAcquireUpdate(bin);
      var j := FindKey(bin, key);
      if j < 0 {
        LockRelease(bin);
        ReleaseRestores(t0, table[..], bin);
        return 0;
      }
      v := table[bin].val[j];
      ClearKey(bin, j);
      LockRelease(bin);
      ReleaseAfterClear(t0, table[..], bin, j);
    }

    /** The locked scan of `ht_remove`: the first slot of bucket `bin`
        holding `key`, or -1. */
    method FindKey(bin: nat, key: Key) returns (j: int)
      requires Shape() && bin < numBuckets
      ensures j == FindSlot(table[bin].key, key, 0)
    {
      j := 0;
      while j < ENTRIES_PER_BUCKET
        invariant 0 <= j <= ENTRIES_PER_BUCKET
        invariant FindSlot(table[bin].key, key, 0) == FindSlot(table[bin].key, key, j)
      {
        if table[bin].key[j] == key {
          return;
        }
        j := j + 1;
      }
      j := -1;
    }

    /** The removal of `ht_remove`: the key of slot `j` of bucket `bin` is
        zeroed and its value left in place. */
    method ClearKey(bin: nat, j: nat)
      requires Shape() && bin < numBuckets && j < ENTRIES_PER_BUCKET
      modifies table
      ensures table[..] == old(table[..])[bin := old(table[bin]).(key := old(table[bin].key)[j := 0])]
    {
      table[bin] := table[bin].(key := table[bin].key[j := 0]);
    }

    /** The copy loop of `ht_resize_pes`: every bucket, in index order, is
        locked for resizing and copied into `dst`. With no lock held
        beforehand, no copy is refused. */
    method CopyAll(dst: HashTable)
      requires Shape() && AllFree(table[..]) && dst.Shape() && dst.table != table
      modifies table, dst.table
      ensures table[..] == LockedRange(old(table[..]), 0, numBuckets)
      ensures dst.Shape()
      ensures dst.table[..] == Migrate(old(dst.table[..]), old(table[..]), dst.hash, numBuckets)
    {
      ghost var src := table[..];
      ghost var start := dst.table[..];
      var b := 0;
      while b < numBuckets
        invariant 0 <= b <= numBuckets
        invariant table[..] == LockedRange(src, 0, b)
        invariant dst.Shape()
        invariant dst.table[..] == Migrate(start, src, dst.hash, b)
      {
        var copied := BucketCopy(b, dst);
        if !copied {
          break;
        }
        LockAbove(src, 0, b);
        b := b + 1;
      }
    }

    /** The middle of `ht_resize_pes`: a generation of `newN` buckets, one
        version on, is created and announced as `table_tmp`, and every bucket
        is copied into it in index order, which leaves every bucket of this
        generation locked for resizing. The new generation is valid and has
        no lock held. */
    method Grow(newN: u32) returns (h: HashTable)
      requires Valid() && AllFree(table[..]) && newN > 0
      modifies this`tableTmp, table
      ensures table[..] == LockedRange(old(table[..]), 0, numBuckets)
      ensures tableTmp == h
      ensures fresh(h) && fresh(h.table)
      ensures h.numBuckets == newN && h.version == version + 1 && h.Valid() && AllFree(h.table[..])
      ensures h.tableTmp == null && h.tableNew == null && h.tablePrev == null && h.Prevs == []
      ensures h.isHelper == 1 && h.helperDone == 0
      ensures h.table[..] == Migrate(EmptyBuckets(newN), old(table[..]), h.hash, numBuckets)
    {
      ghost var src := table[..];
      h := new HashTable(newN);
      h.version := version + 1;
      tableTmp := h;
      CopyAll(h);
      ResizeValid(src, hash, newN, h.hash);
    }

    /** `ht_resize_pes` from the growth decision up to the publication of the
        new generation: a shrink first withdraws the offer of help, then the
        new generation is built by `Grow`, this one is linked behind it
        through `table_prev` and points to it through `table_new`. No helper
        can have run (that takes an update that meets a bucket locked for
        resizing), so the resizer never waits. */
    method Successor(newN: u32, isIncrease: bool) returns (h: HashTable)
      requires Valid() && ChainValid() && AllFree(table[..]) && newN > 0 && isHelper == 1
      modifies this`isHelper, this`tableTmp, this`tableNew, table
      ensures table[..] == LockedRange(old(table[..]), 0, numBuckets)
      ensures tableTmp == h && tableNew == h && isHelper == (if isIncrease then 1 else 0)
      ensures fresh(h) && fresh(h.table)
      ensures h.numBuckets == newN && h.version == version + 1 && h.Valid() && AllFree(h.table[..])
      ensures h.tableTmp == null && h.tableNew == null && h.isHelper == 1 && h.helperDone == 0
      ensures h.tablePrev == this && h.Prevs == [this] + Prevs && h.ChainValid()
      ensures h.table[..] == Migrate(EmptyBuckets(newN), old(table[..]), h.hash, numBuckets)
    {
      if !isIncrease {
        isHelper := 0;
      }
      h := Grow(newN);
      h.Link(this);
      tableNew := h;
    }

    /** `ht_new->table_prev = ht_old`: the chain behind `prev` is recorded
        behind this generation too. */
    method Link(prev: HashTable)
      requires prev.ChainValid() && this != prev && this !in prev.Prevs
      modifies this`tablePrev, this`Prevs
      ensures tablePrev == prev && Prevs == [prev] + prev.Prevs && ChainValid()
    {
      tablePrev := prev;
      Prevs := [prev] + prev.Prevs;
      ChainExtends(prev);
    }

    /** `LOCK_RLS`: the lock word of bucket `b` is cleared. */
    method LockRelease(b: nat)
      requires Shape() && b < numBuckets
      modifies table
      ensures table[..] == old(table[..])[b := old(table[b]).(lock := Release(old(table[b].lock)))]
      ensures Word(table[b].lock) == 0
    {
      table[b] := table[b].(lock := Release(table[b].lock));
    }

    /** `ht_put_seq`: the pair goes into the first empty slot of bucket
        `bin`; when there is none nothing is stored, and still `true` is
        returned. */
    method PutSeq(key: Key, val: Val, bin: nat) returns (r: bool)
      requires Shape() && bin < numBuckets
      modifies table
      ensures table[..] == Resize.PutSeq(old(table[..]), bin, key, val)
      ensures r
    {
      var j := 0;
      while j < ENTRIES_PER_BUCKET
        invariant 0 <= j <= ENTRIES_PER_BUCKET
        invariant forall i :: 0 <= i < j ==> table[bin].key[i] != 0
        invariant table[..] == old(table[..])
      {
        if table[bin].key[j] == 0 {
          table[bin] := table[bin].(val := table[bin].val[j := val]);
          table[bin] := table[bin].(key := table[bin].key[j := key]);
          return true;
        }
        j := j + 1;
      }
      return true;
    }

    /** `bucket_cpy`: lock bucket `b` for resizing; when that succeeds, put
        every live slot of it, in slot order, into the bucket of `dst` its
        key hashes to. A bucket already locked for resizing is left alone. */
    method BucketCopy(b: nat, dst: HashTable) returns (copied: bool)
      requires Shape() && b < numBuckets && !Spins(table[b].lock)
      requires dst.Shape() && dst.table != table
      modifies table, dst.table
      ensures copied <==> old(table[b].lock) == Free
      ensures table[..] == old(table[..])[b := old(table[b]).(lock := Resize)]
      ensures dst.table[..] ==
        if copied then CopySlots(old(dst.table[..]), old(table[b]), dst.hash, ENTRIES_PER_BUCKET)
        else old(dst.table[..])
      ensures Shape() && dst.Shape()
    {
      copied := LockAcquireResize(b);
      if !copied {
        return;
      }
      var j := 0;
      while j < ENTRIES_PER_BUCKET
        invariant 0 <= j <= ENTRIES_PER_BUCKET
        invariant table[..] == old(table[..])[b := old(table[b]).(lock := Resize)]
        invariant dst.Shape()
        invariant dst.table[..] == CopySlots(old(dst.table[..]), old(table[b]), dst.hash, j)
      {
        var key := table[b].key[j];
        if key != 0 {
          var bin := HtHash(dst.hash, key);
          var _ := dst.PutSeq(key, table[b].val[j], bin);
        }
        j := j + 1;
      }
    }
  }

  /** Taking the lock of a free bucket for an update and releasing it
      leaves the buckets as they were. */
  lemma ReleaseRestores(t0: seq<Bucket>, t: seq<Bucket>, bin: nat)
    requires bin < |t0| && t0[bin].lock == Free
    requires var s1 := t0[bin := t0[bin].(lock := Update)];
      t == s1[bin := s1[bin].(lock := Release(s1[bin].lock))]
    ensures t == t0
  {
  }

  /** Writing a slot of a bucket held for an update and releasing it is
      writing the slot of the free bucket. */
  lemma ReleaseAfterWrite(t0: seq<Bucket>, t: seq<Bucket>, bin: nat, j: nat, key: Key, val: Val)
    requires bin < |t0| && WellFormed(t0[bin]) && t0[bin].lock == Free && j < ENTRIES_PER_BUCKET
    requires var s1 := t0[bin := t0[bin].(lock := Update)];
      var s2 := s1[bin := SetSlot(s1[bin], j, key, val)];
      t == s2[bin := s2[bin].(lock := Release(s2[bin].lock))]
    ensures t == t0[bin := SetSlot(t0[bin], j, key, val)]
  {
  }

  /** Zeroing a key of a bucket held for an update and releasing it is
      zeroing the key of the free bucket. */
  lemma ReleaseAfterClear(t0: seq<Bucket>, t: seq<Bucket>, bin: nat, j: nat)
    requires bin < |t0| && WellFormed(t0[bin]) && t0[bin].lock == Free && j < ENTRIES_PER_BUCKET
    requires var s1 := t0[bin := t0[bin].(lock := Update)];
      var s2 := s1[bin := s1[bin].(key := s1[bin].key[j := 0])];
      t == s2[bin := s2[bin].(lock := Release(s2[bin].lock))]
    ensures t == t0[bin := t0[bin].(key := t0[bin].key[j := 0])]
  {
  }

  /** `ht_size_mem`: the bytes a generation occupies, 0 for NULL; at least
      one pointer and the bucket array. */
  function SizeMem(h: HashTable?): (bytes: nat)
    reads h
    ensures bytes == 0 <==> h == null
    ensures h != null ==> bytes >= POINTER_BYTES + BUCKET_BYTES * h.numBuckets
  {
    if h == null then 0 else POINTER_BYTES + (h.numBuckets + h.numExpands) * BUCKET_BYTES
  }

  /** The bytes of a list of generations. */
  ghost function ChainMem(hs: seq<HashTable>): (bytes: nat)
    reads hs
  {
    if hs == [] then 0 else SizeMem(hs[0]) + ChainMem(hs[1..])
  }

  /** Putting a generation in front of a list adds its bytes. */
  lemma ChainMemPrepend(h: HashTable, hs: seq<HashTable>)
    ensures ChainMem([h] + hs) == SizeMem(h) + ChainMem(hs)
  {
    assert ([h] + hs)[1..] == hs;
  }

  /** `ht_size_mem_garbage`: the bytes of every older generation still
      reachable through `table_prev`; 0 for NULL. */
  method SizeMemGarbage(h: HashTable?) returns (bytes: nat)
    requires h != null ==> h.ChainValid()
    ensures bytes == if h == null then 0 else ChainMem(h.Prevs)
  {
    if h == null {
      return 0;
    }
    bytes := 0;
    var cur := h.tablePrev;
    ghost var i := 0;
    while cur != null
      invariant 0 <= i <= |h.Prevs|
      invariant cur == if i < |h.Prevs| then h.Prevs[i] else null
      invariant bytes + ChainMem(h.Prevs[i..]) == ChainMem(h.Prevs)
      decreases |h.Prevs| - i
    {
      assert h.Prevs[i..][1..] == h.Prevs[i + 1..];
      bytes := bytes + SizeMem(cur);
      cur := cur.tablePrev;
      i := i + 1;
    }
  }
}
