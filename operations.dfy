/** One attempt of `ht_put` and one `ht_remove` on a bucket array, as
    values: what the bucket the key hashes to decides, and what the
    operations do to the table's contents and invariant. */
module Operations {
  import opened Buckets
  import opened Resize

  /** How one pass of `ht_put` over the key's bucket ends. */
  datatype PutOutcome =
    | Inserted(table: seq<Bucket>)  // stored in the last empty slot
    | Present                       // a slot already holds the key
    | Full                          // no slot is empty: the table must grow

  /** One pass of `ht_put` (src/clht_lb_res_no_next.c:257-296, up to the
      `goto again`): a slot holding the key ends it; otherwise the pair goes
      into the LAST empty slot of the bucket, if there is one. */
  function PutAttempt(bs: seq<Bucket>, mask: nat, key: Key, val: Val): (r: PutOutcome)
    requires AllWellFormed(bs) && |bs| == mask + 1
    ensures r.Present? <==>
      exists j :: 0 <= j < ENTRIES_PER_BUCKET && bs[HtHash(mask, key)].key[j] == key
    ensures r.Full? <==>
      forall j :: 0 <= j < ENTRIES_PER_BUCKET ==>
        bs[HtHash(mask, key)].key[j] != key && bs[HtHash(mask, key)].key[j] != 0
    ensures r.Inserted? ==>
      exists e :: 0 <= e < ENTRIES_PER_BUCKET && bs[HtHash(mask, key)].key[e] == 0 &&
        (forall i :: e < i < ENTRIES_PER_BUCKET ==> bs[HtHash(mask, key)].key[i] != 0) &&
        r.table == bs[HtHash(mask, key) := SetSlot(bs[HtHash(mask, key)], e, key, val)]
  {
    var bin := HtHash(mask, key);
    if FindSlot(bs[bin].key, key, 0) >= 0 then Present
    else
      var e := LastSlot(bs[bin].key, 0, ENTRIES_PER_BUCKET);
      if e < 0 then Full else Inserted(bs[bin := SetSlot(bs[bin], e, key, val)])
  }

  /** When a pass reports `Full`, every slot of the key's bucket holds a
      stored pair whose key differs from the key and hashes to the same bin. */
  lemma FullBucketStored(bs: seq<Bucket>, mask: nat, key: Key, val: Val, j: nat)
    requires TableInvariant(bs, mask) && PutAttempt(bs, mask, key, val).Full? && j < ENTRIES_PER_BUCKET
    ensures var b := bs[HtHash(mask, key)];
      b.key[j] != 0 && b.key[j] != key && HtHash(mask, b.key[j]) == HtHash(mask, key) &&
      (b.key[j], b.val[j]) in Entries(bs)
  {
    var bin := HtHash(mask, key);
    InEntries(bs, (bs[bin].key[j], bs[bin].val[j]));
  }

  /** A pass of `ht_put` on a valid table: it inserts exactly when the key is
      nonzero and absent and its bucket has room, adding just that pair and
      keeping the invariant and the free locks; it reports `Present` when
      the key is stored (or is 0 while the bucket has room) and `Full` when
      the key is absent and the bucket has no empty slot (which, for key 0,
      is a full bucket). */
  lemma PutAttemptEffect(bs: seq<Bucket>, mask: nat, key: Key, val: Val)
    requires TableInvariant(bs, mask) && AllFree(bs)
    ensures var r := PutAttempt(bs, mask, key, val);
      (r.Inserted? ==>
        key != 0 && (forall w :: (key, w) !in Entries(bs)) &&
        TableInvariant(r.table, mask) && AllFree(r.table) &&
        Entries(r.table) == Entries(bs) + {(key, val)} && Count(r.table) == Count(bs) + 1) &&
      (r.Present? ==> key == 0 || exists w :: (key, w) in Entries(bs)) &&
      (r.Full? ==>
        (forall w :: (key, w) !in Entries(bs)) && LiveSlots(bs[HtHash(mask, key)].key) == ENTRIES_PER_BUCKET)
    ensures key != 0 && (exists w :: (key, w) in Entries(bs)) ==> PutAttempt(bs, mask, key, val).Present?
  {
    var bin := HtHash(mask, key);
    var keys := bs[bin].key;
    var e := LastSlot(keys, 0, ENTRIES_PER_BUCKET);
    if key != 0 {
      KeyPresent(bs, mask, key);
    } else {
      ZeroNeverStored(bs);
    }
    if FindSlot(keys, key, 0) < 0 {
      if e >= 0 {
        InsertIntoEmptySlot(bs, mask, bin, e, key, val);
        FillFree(bs, bin, e, key, val);
      } else {
        LiveSlotsFull(keys);
      }
    }
  }

  lemma FillFree(bs: seq<Bucket>, bin: nat, j: nat, key: Key, val: Val)
    requires AllWellFormed(bs) && bin < |bs| && j < ENTRIES_PER_BUCKET && AllFree(bs)
    ensures AllFree(bs[bin := SetSlot(bs[bin], j, key, val)])
  {
  }

  /** `ht_remove` (src/clht_lb_res_no_next.c:301-342): the first slot of the
      key's bucket holding the key has its key zeroed, its value left behind
      and returned; without one the table is unchanged and 0 is returned. */
  function RemoveAttempt(bs: seq<Bucket>, mask: nat, key: Key): (r: (seq<Bucket>, Val))
    requires AllWellFormed(bs) && |bs| == mask + 1
    ensures |r.0| == |bs| && AllWellFormed(r.0)
    ensures forall c :: 0 <= c < |bs| && c != HtHash(mask, key) ==> r.0[c] == bs[c]
    ensures r.0[HtHash(mask, key)].lock == bs[HtHash(mask, key)].lock
    ensures r.0[HtHash(mask, key)].val == bs[HtHash(mask, key)].val
    ensures (forall j :: 0 <= j < ENTRIES_PER_BUCKET ==> bs[HtHash(mask, key)].key[j] != key) ==> r == (bs, 0)
    ensures (exists j :: 0 <= j < ENTRIES_PER_BUCKET && bs[HtHash(mask, key)].key[j] == key) ==>
      exists j :: 0 <= j < ENTRIES_PER_BUCKET && bs[HtHash(mask, key)].key[j] == key &&
        (forall i :: 0 <= i < j ==> bs[HtHash(mask, key)].key[i] != key) &&
        r.0[HtHash(mask, key)].key == bs[HtHash(mask, key)].key[j := 0] &&
        r.1 == bs[HtHash(mask, key)].val[j]
  {
    var bin := HtHash(mask, key);
    var j := FindSlot(bs[bin].key, key, 0);
    if j < 0 then (bs, 0)
    else (bs[bin := bs[bin].(key := bs[bin].key[j := 0])], bs[bin].val[j])
  }

  /** `ht_remove` on a valid table keeps the invariant and the free locks.
      For a nonzero stored key it returns the stored value and removes exactly
      that pair; for an absent key it returns 0 and changes nothing; removing
      key 0 never changes the contents. */
  lemma RemoveAttemptEffect(bs: seq<Bucket>, mask: nat, key: Key)
    requires TableInvariant(bs, mask) && AllFree(bs)
    ensures var r := RemoveAttempt(bs, mask, key);
      TableInvariant(r.0, mask) && AllFree(r.0) && |r.0| == |bs| &&
      (key != 0 && (exists w :: (key, w) in Entries(bs)) ==>
        (key, r.1) in Entries(bs) && Entries(r.0) == Entries(bs) - {(key, r.1)} &&
        Count(r.0) == Count(bs) - 1) &&
      (key != 0 && (forall w :: (key, w) !in Entries(bs)) ==> r == (bs, 0)) &&
      (key == 0 ==> r.0 == bs)
  {
    var bin := HtHash(mask, key);
    var j := FindSlot(bs[bin].key, key, 0);
    if key != 0 {
      KeyPresent(bs, mask, key);
      if j >= 0 {
        LookupAgrees(bs, mask, key, bs[bin].val[j]);
        ClearSlot(bs, mask, bin, j);
      }
    } else if j >= 0 {
      assert bs[bin].key[j := 0] == bs[bin].key;
    }
  }
}
