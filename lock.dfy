/** The per-bucket lock word of include/dht_res.h:137-206, as a three-state
    machine. One call of each lock routine is one transition; the spin-wait
    loops are excluded by the preconditions (a waiting caller never returns
    in a single-threaded run). */
module BucketLock {

  /** LOCK_FREE, LOCK_UPDATE and LOCK_RESIZE. */
  datatype LockState = Free | Update | Resize

  /** The number stored in the lock word for each state. */
  function Word(l: LockState): (w: nat)
    ensures w <= 2
    ensures w == 0 <==> l == Free
  {
    match l
    case Free => 0
    case Update => 1
    case Resize => 2
  }

  /** The state a lock word holds; only 0, 1 and 2 are ever stored. */
  function FromWord(w: nat): (l: LockState)
    requires w <= 2
  {
    if w == 0 then Free else if w == 1 then Update else Resize
  }

  lemma WordRoundTrip(l: LockState, w: nat)
    requires w <= 2
    ensures FromWord(Word(l)) == l
    ensures Word(FromWord(w)) == w
  {
  }

  /** The result of one lock-acquire call and the lock state it leaves. */
  datatype Acquire = Acquire(acquired: bool, after: LockState)

  /** Whether an acquire attempt would spin forever in a single-threaded run:
      both acquires loop while the CAS keeps observing UPDATE. */
  predicate Spins(l: LockState) {
    l == Update
  }

  /** `lock_acq_resize`: CAS FREE -> RESIZE; from RESIZE it gives up (returns 0). */
  function AcquireResize(l: LockState): (r: Acquire)
    requires !Spins(l)
    ensures r.acquired <==> l == Free
    ensures r.after == Resize
  {
    if l == Free then Acquire(true, Resize) else Acquire(false, l)
  }

  /** `lock_acq_chk_resize`: CAS FREE -> UPDATE; from RESIZE the caller helps,
      waits for the new table and gets 0, with the lock left in RESIZE. */
  function AcquireUpdate(l: LockState): (r: Acquire)
    requires !Spins(l)
    ensures r.acquired <==> l == Free
    ensures r.acquired ==> r.after == Update
    ensures !r.acquired ==> r.after == Resize
  {
    if l == Free then Acquire(true, Update) else Acquire(false, l)
  }

  /** `LOCK_RLS`: store 0 whatever the previous state. */
  function Release(l: LockState): (r: LockState)
    ensures Word(r) == 0
  {
    Free
  }

  /** Both acquires succeed only from FREE, so a second acquire after a
      successful one, with no release in between, never succeeds: it spins
      (after UPDATE) or is refused (after RESIZE). UPDATE and RESIZE never
      hold at once because the lock word holds one state. */
  lemma NoDoubleAcquire(l: LockState)
    requires !Spins(l)
    ensures AcquireUpdate(l).acquired ==>
      Spins(AcquireUpdate(l).after)
    ensures AcquireResize(l).acquired ==>
      !AcquireResize(AcquireResize(l).after).acquired &&
      !AcquireUpdate(AcquireResize(l).after).acquired
  {
  }

  /** After a release, either acquire succeeds again. */
  lemma ReleaseEnablesAcquire(l: LockState)
    ensures AcquireUpdate(Release(l)).acquired
    ensures AcquireResize(Release(l)).acquired
  {
  }
}
