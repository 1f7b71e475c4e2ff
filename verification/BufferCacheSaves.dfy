/** Clients that release a buffer changed and not written: exactly when the cache still agrees with the disk, for one
    block and for all of them. */
module BufferCacheSaves {
  import opened Blocks
  import opened BufferCache
  import opened BufferCacheRuns

  /** A used, valid buffer of `blk` without pending changes holds what the disk has, released changed or not. */
  ghost predicate EqualAt(s: Sys, blk: nat, i: nat) {
    i < 32 && i !in s.book.unused && BufAt(s.cache, i).valid && !Pending(s, i) && BufAt(s.cache, i).blk == blk ==>
      BufAt(s.cache, i).data == DiskAt(s.cache.disk, blk)
  }

  ghost predicate BlockEqual(s: Sys, blk: nat) {
    forall i: nat {:trigger EqualAt(s, blk, i)} :: EqualAt(s, blk, i)
  }

  // ----- which blocks clients may release changed -----

  /** A client with changes it has not written releases its buffer only for a block in `d`. */
  ghost predicate Saves(s: Sys, op: Op, d: set<nat>) {
    op.UnlockOp? && op.a in s.book.clients && s.book.clients[op.a].dirty ==> s.book.clients[op.a].blk in d
  }

  ghost predicate SavesAll(s: Sys, ops: seq<Op>, d: set<nat>)
    decreases |ops|
  {
    ops == [] || (Saves(s, ops[0], d) && SavesAll(Step(s, ops[0]), ops[1..], d))
  }

  lemma StepUnsaved(s: Sys, op: Op, d: set<nat>)
    requires Inv(s) && Saves(s, op, d) && s.book.unsaved <= d
    ensures Step(s, op).book.unsaved <= d
  {
    assert ClientOk(s, op.a);
  }

  /** Only blocks in `d` are ever marked as released changed. */
  lemma {:induction false} RunUnsaved(s: Sys, ops: seq<Op>, keys: set<Key>, d: set<nat>)
    requires Inv(s) && Runs(s, ops, keys) && SavesAll(s, ops, d) && s.book.unsaved <= d
    ensures Run(s, ops).book.unsaved <= d
    decreases |ops|
  {
    if ops != [] {
      StepKeeps(s, ops[0]);
      StepUnsaved(s, ops[0], d);
      RunUnsaved(Step(s, ops[0]), ops[1..], keys, d);
    }
  }

  lemma CoherentEqual(s: Sys, blk: nat)
    requires Coherent(s) && blk !in s.book.unsaved
    ensures BlockEqual(s, blk)
  {
    forall i: nat ensures EqualAt(s, blk, i) { assert Agrees(s, i); }
  }

  /** Whoever writes a block, as `bfree` does right after the release in a truncation, ends the difference. */
  lemma WriteEqual(s: Sys, a: nat, keys: set<Key>)
    requires Inv(s) && Coherent(s) && KeysIn(s, keys) && OneDevice(keys) && Ready(s, a)
    ensures BlockEqual(WriteStep(s, a), s.book.clients[a].blk)
  {
    assert ClientOk(s, a);
    WriteCoherent(s, a, keys);
    CoherentEqual(WriteStep(s, a), s.book.clients[a].blk);
  }

  // ----- one block -----

  /** Every run in which clients release only blocks in `d` changed keeps the buffers of `blk` equal to the disk. */
  ghost predicate AlwaysEqual(s: Sys, keys: set<Key>, d: set<nat>, blk: nat) {
    forall ops {:trigger Runs(s, ops, keys)} | Runs(s, ops, keys) && SavesAll(s, ops, d) ::
      BlockEqual(Run(s, ops), blk)
  }

  lemma SavedEqual(s: Sys, keys: set<Key>, d: set<nat>, blk: nat)
    requires Initial(s) && OneDevice(keys) && blk !in d
    ensures AlwaysEqual(s, keys, d, blk)
  {
    InitialInv(s);
    forall ops | Runs(s, ops, keys) && SavesAll(s, ops, d) ensures BlockEqual(Run(s, ops), blk) {
      RunCoherent(s, ops, keys);
      RunUnsaved(s, ops, keys, d);
      CoherentEqual(Run(s, ops), blk);
    }
  }

  /** A step that releases nothing needs no leave. */
  lemma SavesFront(s: Sys, op: Op, ops: seq<Op>, d: set<nat>)
    requires Saves(s, op, d) && SavesAll(Step(s, op), ops, d)
    ensures SavesAll(s, [op] + ops, d)
  {
    assert ([op] + ops)[1..] == ops;
  }

  /** A block changed and released without a write: its buffer is valid, nobody holds it, and it differs from the
      disk. */
  lemma UnsavedRun(s: Sys, dev: nat, blk: nat, keys: set<Key>, d: set<nat>) returns (ops: seq<Op>, i: nat)
    requires Initial(s) && (dev, blk) in keys && blk in d
    ensures Runs(s, ops, keys) && SavesAll(s, ops, d) && i < 32
    ensures BufAt(Run(s, ops).cache, i).holder < 0 && !EqualAt(Run(s, ops), blk, i)
  {
    InitialInv(s);
    var s1 := Acquire(s, 0, dev, blk, 0);
    i := s1.book.clients[0].buf;
    var data := Changed(DiskAt(s.cache.disk, blk));
    var s2 := ModifyStep(s1, 0, data);
    assert ClientOk(s1, 0);
    Extend(s2, UnlockOp(0), [], keys);
    Extend(s1, ModifyOp(0, data), [UnlockOp(0)] + [], keys);
    var tail := [ModifyOp(0, data)] + ([UnlockOp(0)] + []);
    AcquireRun(s, 0, dev, blk, s1, tail, keys);
    SavesFront(s2, UnlockOp(0), [], d);
    SavesFront(s1, ModifyOp(0, data), [UnlockOp(0)] + [], d);
    AcquireSaves(s, 0, dev, blk, s1, tail, d);
    ops := [GetOp(0, dev, blk)] + ([LockOp(0)] + ([LoadOp(0)] + tail));
  }

  lemma AcquireSaves(s: Sys, a: nat, dev: nat, blk: nat, s': Sys, ops: seq<Op>, d: set<nat>)
    requires s' == LoadStep(LockStep(GetStep(s, a, dev, blk), a), a) && SavesAll(s', ops, d)
    ensures SavesAll(s, [GetOp(a, dev, blk)] + ([LockOp(a)] + ([LoadOp(a)] + ops)), d)
  {
    var s1 := GetStep(s, a, dev, blk);
    SavesFront(LockStep(s1, a), LoadOp(a), ops, d);
    SavesFront(s1, LockOp(a), [LoadOp(a)] + ops, d);
    SavesFront(s, GetOp(a, dev, blk), [LockOp(a)] + ([LoadOp(a)] + ops), d);
  }

  /** From `binit`, with one device number per block: the buffers of a block stay equal to the disk in every run if and
      only if clients never release that block changed. */
  lemma EqualIff(s: Sys, keys: set<Key>, d: set<nat>, dev: nat, blk: nat)
    requires Initial(s) && OneDevice(keys) && (dev, blk) in keys
    ensures AlwaysEqual(s, keys, d, blk) <==> blk !in d
  {
    if blk in d {
      var ops, i := UnsavedRun(s, dev, blk, keys, d);
    } else {
      SavedEqual(s, keys, d, blk);
    }
  }

  // ----- all blocks -----

  /** Nothing in use may be released changed. */
  ghost predicate NoneUnsaved(keys: set<Key>, d: set<nat>) {
    forall k | k in keys :: k.1 !in d
  }

  lemma {:induction false} QuietSaves(s: Sys, ops: seq<Op>, d: set<nat>)
    requires forall k | 0 <= k < |ops| :: !ops[k].UnlockOp?
    ensures SavesAll(s, ops, d)
    decreases |ops|
  {
    if ops != [] { QuietSaves(Step(s, ops[0]), ops[1..], d); }
  }

  /** From `binit`, with no assumption on the keys: every buffer stays equal to the disk in every run if and only if no
      block number is used with two device numbers and none in use is ever released changed. */
  lemma AllEqualIff(s: Sys, keys: set<Key>, d: set<nat>)
    requires Initial(s)
    ensures (forall blk :: AlwaysEqual(s, keys, d, blk)) <==> OneDevice(keys) && NoneUnsaved(keys, d)
  {
    if !OneDevice(keys) {
      var k, k' :| k in keys && k' in keys && k.1 == k'.1 && k != k';
      var ops := StaleRun(s, k.0, k'.0, k.1, keys);
      QuietSaves(s, ops, d);
      var blk := StaleDiffers(Run(s, ops));
      assert !AlwaysEqual(s, keys, d, blk);
    } else if !NoneUnsaved(keys, d) {
      var k :| k in keys && k.1 in d;
      EqualIff(s, keys, d, k.0, k.1);
    } else {
      forall blk ensures AlwaysEqual(s, keys, d, blk) { InUseEqual(s, keys, d, blk); }
    }
  }

  lemma StaleDiffers(s: Sys) returns (blk: nat)
    requires !Coherent(s)
    ensures !BlockEqual(s, blk)
  {
    var i: nat :| !Agrees(s, i);
    blk := BufAt(s.cache, i).blk;
    assert !EqualAt(s, blk, i);
  }

  /** A block that no key has is in no buffer. */
  lemma InUseEqual(s: Sys, keys: set<Key>, d: set<nat>, blk: nat)
    requires Initial(s) && OneDevice(keys) && NoneUnsaved(keys, d)
    ensures AlwaysEqual(s, keys, d, blk)
  {
    if blk !in d {
      SavedEqual(s, keys, d, blk);
    } else {
      InitialInv(s);
      forall ops | Runs(s, ops, keys) && SavesAll(s, ops, d) ensures BlockEqual(Run(s, ops), blk) {
        RunKeys(s, ops, keys);
        var s' := Run(s, ops);
        forall i: nat ensures EqualAt(s', blk, i) {
          if i < 32 && i !in s'.book.unused { assert (BufAt(s'.cache, i).dev, BufAt(s'.cache, i).blk) in keys; }
        }
      }
    }
  }

  lemma {:induction false} RunKeys(s: Sys, ops: seq<Op>, keys: set<Key>)
    requires Inv(s) && Runs(s, ops, keys) && KeysIn(s, keys)
    ensures KeysIn(Run(s, ops), keys)
    decreases |ops|
  {
    if ops != [] {
      StepKeeps(s, ops[0]);
      StepKeys(s, ops[0], keys);
      RunKeys(Step(s, ops[0]), ops[1..], keys);
    }
  }
}
