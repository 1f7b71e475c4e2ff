/** Every interleaving of clients keeps the buffer cache unique and in agreement with the disk. */
module BufferCacheRuns {
  import opened Blocks
  import opened BufferCache

  // ----- changes that leave keys and counts alone -----

  /** Keys, counts, order and unused buffers are the same; the clients are the same up to one. */
  ghost predicate SameKeys(s: Sys, s': Sys) {
    && |s'.cache.bufs| == |s.cache.bufs| == 32 && s'.cache.order == s.cache.order && s'.book.unused == s.book.unused
    && s'.book.clients.Keys == s.book.clients.Keys
    && (forall i: nat | i < 32 ::
          && s'.cache.bufs[i].dev == s.cache.bufs[i].dev && s'.cache.bufs[i].blk == s.cache.bufs[i].blk
          && s'.cache.bufs[i].refcnt == s.cache.bufs[i].refcnt)
    && (forall a | a in s.book.clients ::
          && s'.book.clients[a].buf == s.book.clients[a].buf && s'.book.clients[a].dev == s.book.clients[a].dev
          && s'.book.clients[a].blk == s.book.clients[a].blk)
  }

  lemma SameKeysUnique(s: Sys, s': Sys)
    requires Inv(s) && SameKeys(s, s')
    ensures forall i: nat, j: nat {:trigger Unique(s', i, j)} :: Unique(s', i, j)
    ensures forall i: nat :: ClientsOn(s'.book, i) == ClientsOn(s.book, i)
  {
    forall i: nat, j: nat ensures Unique(s', i, j) { assert Unique(s, i, j); }
  }

  lemma LockKeeps(s: Sys, a: nat)
    requires Inv(s) && a in s.book.clients && s.book.clients[a].stage == Waiting
    requires BufAt(s.cache, s.book.clients[a].buf).holder < 0
    ensures Inv(LockStep(s, a))
  {
    var s' := LockStep(s, a);
    assert ClientOk(s, a);
    SameKeysUnique(s, s');
    forall i: nat | i < 32 ensures BufOk(s', i) { assert BufOk(s, i); }
    forall x: nat ensures ClientOk(s', x) { assert ClientOk(s, x); }
  }

  lemma LoadKeeps(s: Sys, a: nat)
    requires Inv(s) && a in s.book.clients && s.book.clients[a].stage == Holding
    ensures Inv(LoadStep(s, a))
  {
    var s' := LoadStep(s, a);
    assert ClientOk(s, a);
    SameKeysUnique(s, s');
    forall i: nat | i < 32 ensures BufOk(s', i) { assert BufOk(s, i); }
    forall x: nat ensures ClientOk(s', x) { assert ClientOk(s, x); }
  }

  lemma ModifyKeeps(s: Sys, a: nat, data: Block)
    requires Inv(s) && a in s.book.clients && s.book.clients[a].stage == Holding
    requires BufAt(s.cache, s.book.clients[a].buf).valid
    ensures Inv(ModifyStep(s, a, data))
  {
    var s' := ModifyStep(s, a, data);
    assert ClientOk(s, a);
    SameKeysUnique(s, s');
    forall i: nat | i < 32 ensures BufOk(s', i) { assert BufOk(s, i); }
    forall x: nat ensures ClientOk(s', x) { assert ClientOk(s, x); }
  }

  lemma WriteKeeps(s: Sys, a: nat)
    requires Inv(s) && a in s.book.clients && s.book.clients[a].stage == Holding
    ensures Inv(WriteStep(s, a))
  {
    var s' := WriteStep(s, a);
    assert ClientOk(s, a);
    SameKeysUnique(s, s');
    forall i: nat | i < 32 ensures BufOk(s', i) { assert BufOk(s, i); }
    forall x: nat ensures ClientOk(s', x) { assert ClientOk(s, x); }
  }

  lemma UnlockKeeps(s: Sys, a: nat)
    requires Inv(s) && a in s.book.clients && s.book.clients[a].stage == Holding
    requires BufAt(s.cache, s.book.clients[a].buf).valid
    ensures Inv(UnlockStep(s, a))
  {
    var s' := UnlockStep(s, a);
    assert ClientOk(s, a);
    SameKeysUnique(s, s');
    forall i: nat | i < 32 ensures BufOk(s', i) { assert BufOk(s, i); }
    forall x: nat ensures ClientOk(s', x) { assert ClientOk(s, x); }
  }

  // ----- dropping a reference -----

  lemma DropKeeps(s: Sys, a: nat)
    requires Inv(s) && a in s.book.clients && s.book.clients[a].stage == Releasing
    ensures Inv(DropStep(s, a))
  {
    var s', i0 := DropStep(s, a), s.book.clients[a].buf;
    assert ClientOk(s, a) && BufOk(s, i0);
    assert a in ClientsOn(s.book, i0);
    ToFrontIs(s.cache.order, i0);
    forall i: nat | i < 32 ensures BufOk(s', i) {
      assert BufOk(s, i);
      assert ClientsOn(s'.book, i) == ClientsOn(s.book, i) - {a};
    }
    forall x: nat ensures ClientOk(s', x) { assert ClientOk(s, x); }
    forall i: nat, j: nat ensures Unique(s', i, j) { assert Unique(s, i, j); }
  }

  // ----- obtaining a buffer -----

  /** `bget` fails exactly when the block is not cached and every buffer is referenced. */
  lemma BgetFails(s: Sys, dev: nat, blk: nat)
    requires Inv(s)
    ensures Bget(s.cache, dev, blk).1 < 0 <==>
      forall i: nat | i < 32 :: !Matches(BufAt(s.cache, i), dev, blk) && BufAt(s.cache, i).refcnt > 0
  {
    var c := s.cache;
    var k := Find(c, dev, blk, 0);
    if k < 32 {
      assert c.order[k] < 32;
    } else {
      var v := Victim(c, 32);
      if v == 0 {
        forall i: nat | i < 32 ensures !Matches(BufAt(c, i), dev, blk) && BufAt(c, i).refcnt > 0 {
          AllListed(c.order, i);
          var j :| 0 <= j < |c.order| && c.order[j] == i;
        }
      }
    }
  }

  lemma HitKeeps(s: Sys, a: nat, dev: nat, blk: nat, k: nat)
    requires Inv(s) && a !in s.book.clients && k == Find(s.cache, dev, blk, 0) && k < 32
    ensures Inv(GetStep(s, a, dev, blk))
  {
    var s', i0 := GetStep(s, a, dev, blk), s.cache.order[k];
    var b := BufAt(s.cache, i0);
    assert Bget(s.cache, dev, blk) == (SetBuf(s.cache, i0, b.(refcnt := b.refcnt + 1)), i0);
    HitCounts(s, s', a, dev, blk, i0);
    forall i: nat, j: nat ensures Unique(s', i, j) { HitUnique(s, s', i0, k, i, j); }
  }

  lemma HitCounts(s: Sys, s': Sys, a: nat, dev: nat, blk: nat, i0: nat)
    requires Inv(s) && a !in s.book.clients && i0 < 32 && Matches(s.cache.bufs[i0], dev, blk)
    requires s'.cache == SetBuf(s.cache, i0, s.cache.bufs[i0].(refcnt := s.cache.bufs[i0].refcnt + 1))
    requires s'.book ==
      s.book.(clients := s.book.clients[a := Client(dev, blk, i0, Waiting, false)], unused := s.book.unused - {i0})
    ensures forall i: nat {:trigger BufOk(s', i)} | i < 32 :: BufOk(s', i)
    ensures forall x: nat {:trigger ClientOk(s', x)} :: ClientOk(s', x)
  {
    forall i: nat | i < 32 ensures BufOk(s', i) { HitBuf(s, s', a, dev, blk, i0, i); }
    forall x: nat ensures ClientOk(s', x) { assert ClientOk(s, x) && BufOk(s, i0); }
  }

  lemma HitBuf(s: Sys, s': Sys, a: nat, dev: nat, blk: nat, i0: nat, i: nat)
    requires Inv(s) && a !in s.book.clients && i0 < 32 && Matches(s.cache.bufs[i0], dev, blk) && i < 32
    requires s'.cache == SetBuf(s.cache, i0, s.cache.bufs[i0].(refcnt := s.cache.bufs[i0].refcnt + 1))
    requires s'.book ==
      s.book.(clients := s.book.clients[a := Client(dev, blk, i0, Waiting, false)], unused := s.book.unused - {i0})
    ensures BufOk(s', i)
  {
    assert BufOk(s, i);
    assert ClientsOn(s'.book, i) == if i == i0 then ClientsOn(s.book, i) + {a} else ClientsOn(s.book, i);
  }

  lemma HitUnique(s: Sys, s': Sys, i0: nat, k: nat, i: nat, j: nat)
    requires Inv(s) && k < 32 && i0 == s.cache.order[k] && |s'.cache.bufs| == 32 && s'.cache.order == s.cache.order
    requires s'.book.unused == s.book.unused - {i0}
    requires forall p | 0 <= p < k ::
        !Matches(BufAt(s.cache, s.cache.order[p]), BufAt(s.cache, i0).dev, BufAt(s.cache, i0).blk)
    requires forall x: nat | x < 32 ::
        BufAt(s'.cache, x).dev == BufAt(s.cache, x).dev && BufAt(s'.cache, x).blk == BufAt(s.cache, x).blk
    ensures Unique(s', i, j)
  {
    assert Unique(s, i, j) && Unique(s, j, i);
    if i < 32 && j < 32 && i != j {
      AllListed(s.cache.order, i);
      AllListed(s.cache.order, j);
      var p :| 0 <= p < 32 && s.cache.order[p] == i;
      var q :| 0 <= q < 32 && s.cache.order[q] == j;
    }
  }

  lemma RecycleKeeps(s: Sys, a: nat, dev: nat, blk: nat)
    requires Inv(s) && a !in s.book.clients && Find(s.cache, dev, blk, 0) == 32 && Victim(s.cache, 32) > 0
    ensures Inv(GetStep(s, a, dev, blk))
  {
    var c, v := s.cache, Victim(s.cache, 32);
    var s', i0 := GetStep(s, a, dev, blk), c.order[v - 1];
    assert BufOk(s, i0);
    assert ClientsOn(s.book, i0) == {};
    forall i: nat | i < 32
      ensures !Matches(BufAt(c, i), dev, blk)
    {
      AllListed(c.order, i);
      var q :| 0 <= q < 32 && c.order[q] == i;
    }
    forall i: nat | i < 32 ensures BufOk(s', i) {
      assert BufOk(s, i);
      assert ClientsOn(s'.book, i) == if i == i0 then {a} else ClientsOn(s.book, i);
    }
    forall x: nat ensures ClientOk(s', x) {
      assert ClientOk(s, x);
      if x in s.book.clients { assert x in ClientsOn(s.book, s.book.clients[x].buf); }
    }
    forall i: nat, j: nat ensures Unique(s', i, j) {
      assert Unique(s, i, j);
      if i < 32 && j < 32 { assert !Matches(BufAt(c, i), dev, blk) && !Matches(BufAt(c, j), dev, blk); }
    }
  }

  /** The client gets a buffer that carries its key and that no other used buffer shares. */
  lemma GetKeeps(s: Sys, a: nat, dev: nat, blk: nat)
    requires Inv(s) && a !in s.book.clients
    ensures Inv(GetStep(s, a, dev, blk))
  {
    if Find(s.cache, dev, blk, 0) < 32 {
      HitKeeps(s, a, dev, blk, Find(s.cache, dev, blk, 0));
    } else if Victim(s.cache, 32) > 0 {
      RecycleKeeps(s, a, dev, blk);
    }
  }

  // ----- agreement with the disk -----

  /** Buffer `i` has changes its holder has not written yet. */
  ghost predicate Pending(s: Sys, i: nat) {
    var h := BufAt(s.cache, i).holder;
    h >= 0 && h in s.book.clients && s.book.clients[h].dirty
  }

  /** A used, valid buffer without pending changes holds what was last written to its block, unless the block was
      released changed. */
  ghost predicate Agrees(s: Sys, i: nat) {
    && i < 32 && i !in s.book.unused && BufAt(s.cache, i).valid && !Pending(s, i)
    && BufAt(s.cache, i).blk !in s.book.unsaved ==>
      BufAt(s.cache, i).data == DiskAt(s.cache.disk, BufAt(s.cache, i).blk)
  }

  ghost predicate Coherent(s: Sys) {
    forall i: nat {:trigger Agrees(s, i)} :: Agrees(s, i)
  }

  type Key = (nat, nat)

  /** Block numbers are used with one device each.  The disk itself ignores the device number. */
  ghost predicate OneDevice(keys: set<Key>) {
    forall k, k' | k in keys && k' in keys && k.1 == k'.1 :: k == k'
  }

  ghost predicate KeysIn(s: Sys, keys: set<Key>) {
    forall i: nat {:trigger BufAt(s.cache, i)} | i < 32 && i !in s.book.unused ::
      (BufAt(s.cache, i).dev, BufAt(s.cache, i).blk) in keys
  }

  /** What `bread` hands out: the block's key, and the bytes last written to it. */
  lemma ReadsLast(s: Sys, a: nat)
    requires Inv(s) && Coherent(s) && a in s.book.clients && s.book.clients[a].stage == Holding
    requires !s.book.clients[a].dirty
    requires BufAt(s.cache, s.book.clients[a].buf).valid && s.book.clients[a].blk !in s.book.unsaved
    ensures var cl := s.book.clients[a];
      Matches(BufAt(s.cache, cl.buf), cl.dev, cl.blk) && BufAt(s.cache, cl.buf).data == DiskAt(s.cache.disk, cl.blk)
  {
    assert ClientOk(s, a) && Agrees(s, s.book.clients[a].buf);
  }

  // ----- whole runs -----

  datatype Op =
    | GetOp(a: nat, dev: nat, blk: nat)
    | LockOp(a: nat)
    | LoadOp(a: nat)
    | ModifyOp(a: nat, data: Block)
    | WriteOp(a: nat)
    | UnlockOp(a: nat)
    | DropOp(a: nat)

  ghost predicate Holds(s: Sys, a: nat) {
    a in s.book.clients && s.book.clients[a].stage == Holding
  }

  ghost predicate Ready(s: Sys, a: nat) {
    Holds(s, a) && BufAt(s.cache, s.book.clients[a].buf).valid
  }

  /** A client reads the block when it is not valid and changes it only after that.  It may release the buffer with
      or without writing its changes. */
  ghost predicate Enabled(s: Sys, op: Op) {
    match op
    case GetOp(a, _, _) => a !in s.book.clients
    case LockOp(a) =>
      a in s.book.clients && s.book.clients[a].stage == Waiting && BufAt(s.cache, s.book.clients[a].buf).holder < 0
    case LoadOp(a) => Holds(s, a) && !BufAt(s.cache, s.book.clients[a].buf).valid
    case ModifyOp(a, _) => Ready(s, a)
    case WriteOp(a) => Ready(s, a)
    case UnlockOp(a) => Ready(s, a)
    case DropOp(a) => a in s.book.clients && s.book.clients[a].stage == Releasing
  }

  ghost function Step(s: Sys, op: Op): Sys {
    match op
    case GetOp(a, dev, blk) => GetStep(s, a, dev, blk)
    case LockOp(a) => LockStep(s, a)
    case LoadOp(a) => LoadStep(s, a)
    case ModifyOp(a, data) => ModifyStep(s, a, data)
    case WriteOp(a) => WriteStep(s, a)
    case UnlockOp(a) => UnlockStep(s, a)
    case DropOp(a) => DropStep(s, a)
  }

  lemma StepKeeps(s: Sys, op: Op)
    requires Inv(s) && Enabled(s, op)
    ensures Inv(Step(s, op))
  {
    match op
    case GetOp(a, dev, blk) => GetKeeps(s, a, dev, blk);
    case LockOp(a) => LockKeeps(s, a);
    case LoadOp(a) => LoadKeeps(s, a);
    case ModifyOp(a, data) => ModifyKeeps(s, a, data);
    case WriteOp(a) => WriteKeeps(s, a);
    case UnlockOp(a) => UnlockKeeps(s, a);
    case DropOp(a) => DropKeeps(s, a);
  }

  /** A buffer that a client holds or waits for is never recycled: its key stays the client's until
      the client itself drops it. */
  lemma NeverRecycled(s: Sys, op: Op, a: nat)
    requires Inv(s) && Enabled(s, op) && a in s.book.clients && op != DropOp(a)
    ensures var s' := Step(s, op);
      && a in s'.book.clients && s'.book.clients[a].buf == s.book.clients[a].buf
      && Matches(BufAt(s'.cache, s.book.clients[a].buf), s.book.clients[a].dev, s.book.clients[a].blk)
  {
    StepKeeps(s, op);
    assert ClientOk(Step(s, op), a);
  }

  ghost predicate OpKeyIn(op: Op, keys: set<Key>) {
    op.GetOp? ==> (op.dev, op.blk) in keys
  }

  lemma StepKeys(s: Sys, op: Op, keys: set<Key>)
    requires Inv(s) && Enabled(s, op) && KeysIn(s, keys) && OpKeyIn(op, keys)
    ensures KeysIn(Step(s, op), keys)
  {
    var s' := Step(s, op);
    forall i: nat | i < 32 && i !in s'.book.unused ensures (BufAt(s'.cache, i).dev, BufAt(s'.cache, i).blk) in keys {
      assert i !in s.book.unused ==> (BufAt(s.cache, i).dev, BufAt(s.cache, i).blk) in keys;
    }
  }

  /** Writing a block leaves no other copy of it behind. */
  lemma WriteCoherent(s: Sys, a: nat, keys: set<Key>)
    requires Inv(s) && Coherent(s) && KeysIn(s, keys) && OneDevice(keys) && Ready(s, a)
    ensures Coherent(WriteStep(s, a))
  {
    var s', cl := WriteStep(s, a), s.book.clients[a];
    assert ClientOk(s, a);
    forall i: nat ensures Agrees(s', i) {
      assert Agrees(s, i) && Unique(s, i, cl.buf);
      if i < 32 && i !in s.book.unused && BufAt(s.cache, i).blk == BufAt(s.cache, cl.buf).blk {
        assert (BufAt(s.cache, i).dev, BufAt(s.cache, i).blk) in keys;
        assert (BufAt(s.cache, cl.buf).dev, BufAt(s.cache, cl.buf).blk) in keys;
        assert i == cl.buf;
      } else if i < 32 { assert BufOk(s, i); }
    }
  }

  /** Reading a block again replaces its only copy. */
  lemma LoadCoherent(s: Sys, a: nat, keys: set<Key>)
    requires Inv(s) && Coherent(s) && KeysIn(s, keys) && OneDevice(keys) && Holds(s, a)
    ensures Coherent(LoadStep(s, a))
  {
    var s', cl := LoadStep(s, a), s.book.clients[a];
    assert ClientOk(s, a);
    forall i: nat ensures Agrees(s', i) {
      assert Agrees(s, i) && Unique(s, i, cl.buf);
      if i < 32 && i !in s.book.unused && BufAt(s.cache, i).blk == BufAt(s.cache, cl.buf).blk {
        assert (BufAt(s.cache, i).dev, BufAt(s.cache, i).blk) in keys;
        assert (BufAt(s.cache, cl.buf).dev, BufAt(s.cache, cl.buf).blk) in keys;
        assert i == cl.buf;
      } else if i < 32 { assert BufOk(s, i); }
    }
  }

  lemma StepCoherent(s: Sys, op: Op, keys: set<Key>)
    requires Inv(s) && Enabled(s, op) && Coherent(s) && KeysIn(s, keys) && OneDevice(keys)
    ensures Coherent(Step(s, op))
  {
    if op.WriteOp? {
      WriteCoherent(s, op.a, keys);
    } else if op.LoadOp? {
      LoadCoherent(s, op.a, keys);
    } else {
      var s' := Step(s, op);
      forall i: nat ensures Agrees(s', i) {
        assert Agrees(s, i) && ClientOk(s, op.a);
        if i < 32 { assert BufOk(s, i); }
      }
    }
  }

  ghost predicate Runs(s: Sys, ops: seq<Op>, keys: set<Key>)
    decreases |ops|
  {
    ops == [] || (Enabled(s, ops[0]) && OpKeyIn(ops[0], keys) && Runs(Step(s, ops[0]), ops[1..], keys))
  }

  ghost function Run(s: Sys, ops: seq<Op>): Sys
    decreases |ops|
  {
    if ops == [] then s else Run(Step(s, ops[0]), ops[1..])
  }

  /** In every run the buffers stay unique, and as long as block numbers are used with one device
      each, every buffer agrees with the disk, except those of blocks released changed. */
  lemma {:induction false} RunCoherent(s: Sys, ops: seq<Op>, keys: set<Key>)
    requires Inv(s) && Runs(s, ops, keys) && (OneDevice(keys) ==> Coherent(s)) && KeysIn(s, keys)
    ensures Inv(Run(s, ops)) && (OneDevice(keys) ==> Coherent(Run(s, ops)))
    decreases |ops|
  {
    if ops != [] {
      StepKeeps(s, ops[0]);
      StepKeys(s, ops[0], keys);
      if OneDevice(keys) { StepCoherent(s, ops[0], keys); }
      RunCoherent(Step(s, ops[0]), ops[1..], keys);
    }
  }

  /** `binit`: every buffer has the same zero key, and buffer 31 is at the front. */
  ghost predicate Initial(s: Sys) {
    && |s.cache.bufs| == 32 && s.cache.order == seq(32, (k: nat) requires k < 32 => 31 - k) && s.book.clients == map[]
    && s.book.unsaved == {}
    && (forall i :: i in s.book.unused <==> 0 <= i < 32)
    && forall i: nat | i < 32 ::
         var b := s.cache.bufs[i]; b.dev == 0 && b.blk == 0 && !b.valid && b.refcnt == 0 && b.holder == -1
  }

  lemma InitialInv(s: Sys)
    requires Initial(s)
    ensures Inv(s) && Coherent(s) && forall keys :: KeysIn(s, keys)
  {
    forall i: nat | i < 32 ensures BufOk(s, i) { assert ClientsOn(s.book, i) == {}; }
    forall a: nat ensures ClientOk(s, a) {}
    forall i: nat, j: nat ensures Unique(s, i, j) {}
    forall i: nat ensures Agrees(s, i) {}
  }

  // ----- exactly when the cache agrees with the disk -----

  ghost predicate AlwaysCoherent(s: Sys, keys: set<Key>) {
    forall ops {:trigger Runs(s, ops, keys)} :: Runs(s, ops, keys) ==> Coherent(Run(s, ops))
  }

  /** A block not cached yet gets a buffer nobody uses. */
  lemma GetNew(s: Sys, a: nat, dev: nat, blk: nat, u: nat)
    requires Inv(s) && a !in s.book.clients && u < 32 && u in s.book.unused
    requires forall i: nat | i < 32 && i !in s.book.unused :: !Matches(BufAt(s.cache, i), dev, blk)
    ensures var s' := GetStep(s, a, dev, blk);
      && Inv(s') && s'.cache.disk == s.cache.disk && s'.book.clients.Keys == s.book.clients.Keys + {a}
      && (var cl := s'.book.clients[a]; var b := BufAt(s'.cache, cl.buf);
          && cl.stage == Waiting && cl.buf < 32 && BufAt(s.cache, cl.buf).refcnt == 0 && !b.valid && b.holder < 0
          && b.blk == blk && b.dev == dev
          && s'.cache.bufs == s.cache.bufs[cl.buf := b] && s'.book.clients == s.book.clients[a := cl]
          && s'.book.unused == s.book.unused - {cl.buf})
  {
    assert BufOk(s, u);
    BgetFails(s, dev, blk);
    GetKeeps(s, a, dev, blk);
    var k, v := Find(s.cache, dev, blk, 0), Victim(s.cache, 32);
    var i := Bget(s.cache, dev, blk).1;
    assert i == if k < 32 then s.cache.order[k] else s.cache.order[v - 1];
    assert BufOk(s, i);
    assert i < 32;
    assert BufAt(s.cache, i).refcnt == 0;
    assert ClientsOn(s.book, i) == {};
    assert forall x | x in s.book.clients :: s.book.clients[x].buf == i ==> x in ClientsOn(s.book, i);
  }

  /** Client `a` has obtained, locked and loaded a buffer that nobody used before. */
  ghost predicate Acquired(s: Sys, s': Sys, a: nat, dev: nat, blk: nat) {
    && Inv(s') && a in s'.book.clients && s'.cache.disk == s.cache.disk && |s.cache.bufs| == 32
    && (var i := s'.book.clients[a].buf;
        && i < 32 && s.cache.bufs[i].refcnt == 0 && s'.book.unused == s.book.unused - {i}
        && s'.book.clients == s.book.clients[a := Client(dev, blk, i, Holding, false)]
        && s'.cache.bufs == s.cache.bufs[i := Buf(dev, blk, true, s'.cache.bufs[i].refcnt, a,
            DiskAt(s.cache.disk, blk))])
  }

  /** Putting an enabled step in front of a run. */
  lemma Extend(s: Sys, op: Op, ops: seq<Op>, keys: set<Key>)
    requires Enabled(s, op) && OpKeyIn(op, keys) && Runs(Step(s, op), ops, keys)
    ensures Runs(s, [op] + ops, keys) && Run(s, [op] + ops) == Run(Step(s, op), ops)
  {
    assert ([op] + ops)[1..] == ops;
  }

  /** `bread` of a block that is not cached, as a run of three steps. */
  lemma Acquire(s: Sys, a: nat, dev: nat, blk: nat, u: nat) returns (s': Sys)
    requires Inv(s) && a !in s.book.clients && u < 32 && u in s.book.unused
    requires forall i: nat | i < 32 && i !in s.book.unused :: !Matches(BufAt(s.cache, i), dev, blk)
    ensures Acquired(s, s', a, dev, blk) && s' == LoadStep(LockStep(GetStep(s, a, dev, blk), a), a)
    ensures Enabled(s, GetOp(a, dev, blk)) && Enabled(GetStep(s, a, dev, blk), LockOp(a))
    ensures Enabled(LockStep(GetStep(s, a, dev, blk), a), LoadOp(a))
  {
    GetNew(s, a, dev, blk, u);
    var s1 := GetStep(s, a, dev, blk);
    LockKeeps(s1, a);
    var s2 := LockStep(s1, a);
    LoadKeeps(s2, a);
    s' := LoadStep(s2, a);
  }

  lemma AcquireRun(s: Sys, a: nat, dev: nat, blk: nat, s': Sys, ops: seq<Op>, keys: set<Key>)
    requires Enabled(s, GetOp(a, dev, blk)) && Enabled(GetStep(s, a, dev, blk), LockOp(a))
    requires Enabled(LockStep(GetStep(s, a, dev, blk), a), LoadOp(a))
    requires (dev, blk) in keys && s' == LoadStep(LockStep(GetStep(s, a, dev, blk), a), a) && Runs(s', ops, keys)
    ensures var all := [GetOp(a, dev, blk)] + ([LockOp(a)] + ([LoadOp(a)] + ops));
      Runs(s, all, keys) && Run(s, all) == Run(s', ops)
  {
    var s1 := GetStep(s, a, dev, blk);
    var s2 := LockStep(s1, a);
    Extend(s2, LoadOp(a), ops, keys);
    Extend(s1, LockOp(a), [LoadOp(a)] + ops, keys);
    Extend(s, GetOp(a, dev, blk), [LockOp(a)] + ([LoadOp(a)] + ops), keys);
  }

  /** A second client writes the block through its own buffer; the first client's copy is stale. */
  lemma WriteStale(s: Sys, i: nat, j: nat, b: nat, data: Block, keys: set<Key>)
    requires Inv(s) && Holds(s, 0) && Ready(s, 1) && s.book.clients[0].buf == i && s.book.clients[1].buf == j && i != j
    requires BufAt(s.cache, i).valid && BufAt(s.cache, i).blk == b && BufAt(s.cache, j).blk == b
    requires BufAt(s.cache, i).data != data && !s.book.clients[0].dirty
    ensures var ops := [ModifyOp(1, data)] + ([WriteOp(1)] + []); Runs(s, ops, keys) && !Coherent(Run(s, ops))
  {
    assert ClientOk(s, 0) && ClientOk(s, 1);
    var s1 := ModifyStep(s, 1, data);
    var s2 := WriteStep(s1, 1);
    Extend(s1, WriteOp(1), [], keys);
    Extend(s, ModifyOp(1, data), [WriteOp(1)] + [], keys);
    assert BufAt(s2.cache, i) == BufAt(s.cache, i) && s2.cache.disk[b] == data;
    assert !Agrees(s2, i);
  }

  /** The second client's part of the run. */
  lemma StaleTail(s: Sys, d1: nat, d2: nat, b: nat, i: nat, keys: set<Key>) returns (ops: seq<Op>)
    requires Inv(s) && d1 != d2 && (d2, b) in keys && Ready(s, 0) && !s.book.clients[0].dirty
    requires s.book.clients[0].buf == i && 1 !in s.book.clients
    requires i < 32 && (forall x :: x in s.book.unused <==> 0 <= x < 32 && x != i) && BufAt(s.cache, i).dev == d1
    requires BufAt(s.cache, i).blk == b && BufAt(s.cache, i).refcnt > 0
    ensures Runs(s, ops, keys) && !Coherent(Run(s, ops)) && forall k | 0 <= k < |ops| :: !ops[k].UnlockOp?
  {
    var s' := Acquire(s, 1, d2, b, if i == 0 then 1 else 0);
    var data := Changed(BufAt(s.cache, i).data);
    WriteStale(s', i, s'.book.clients[1].buf, b, data, keys);
    var tail := [ModifyOp(1, data)] + ([WriteOp(1)] + []);
    AcquireRun(s, 1, d2, b, s', tail, keys);
    ops := [GetOp(1, d2, b)] + ([LockOp(1)] + ([LoadOp(1)] + tail));
  }

  /** Two device numbers for one block: a run whose last write the first client does not see. */
  lemma StaleRun(s: Sys, d1: nat, d2: nat, b: nat, keys: set<Key>) returns (ops: seq<Op>)
    requires Initial(s) && d1 != d2 && (d1, b) in keys && (d2, b) in keys
    ensures Runs(s, ops, keys) && !Coherent(Run(s, ops)) && forall k | 0 <= k < |ops| :: !ops[k].UnlockOp?
  {
    InitialInv(s);
    var s' := Acquire(s, 0, d1, b, 0);
    var i := s'.book.clients[0].buf;
    assert BufOk(s', i) && 0 in ClientsOn(s'.book, i);
    var rest := StaleTail(s', d1, d2, b, i, keys);
    AcquireRun(s, 0, d1, b, s', rest, keys);
    ops := [GetOp(0, d1, b)] + ([LockOp(0)] + ([LoadOp(0)] + rest));
  }

  /** From `binit`, every run over the given keys keeps the cache in agreement with the disk if and
      only if no block number is used with two device numbers. */
  lemma CoherentIff(s: Sys, keys: set<Key>)
    requires Initial(s)
    ensures AlwaysCoherent(s, keys) <==> OneDevice(keys)
  {
    if OneDevice(keys) {
      InitialInv(s);
      forall ops | Runs(s, ops, keys) ensures Coherent(Run(s, ops)) { RunCoherent(s, ops, keys); }
    } else {
      var k, k' :| k in keys && k' in keys && k.1 == k'.1 && k != k';
      var ops := StaleRun(s, k.0, k'.0, k.1, keys);
    }
  }

  // ----- a run without a free buffer -----

  /** Clients 0 to k - 1 use k buffers, for blocks 1 to k. */
  ghost predicate Taken(s: Sys, k: nat) {
    && Inv(s) && k <= 32 && (forall i | i in s.book.unused :: i < 32) && |s.book.unused| == 32 - k
    && (forall a: nat | a >= k :: a !in s.book.clients)
    && (forall i: nat | i < 32 && i !in s.book.unused :: BufAt(s.cache, i).refcnt > 0 && 0 < BufAt(s.cache, i).blk <= k)
  }

  ghost function Indices(n: nat): set<nat> {
    if n == 0 then {} else Indices(n - 1) + {n - 1}
  }

  lemma TakeUsed(s: Sys, s': Sys, k: nat, i: nat, j: nat)
    requires Taken(s, k) && k < 32 && i < 32 && i in s.book.unused && Inv(s') && k in s'.book.clients
    requires s'.book.clients[k].buf == i && BufAt(s'.cache, i).blk == k + 1
    requires forall q: nat | q < 32 && q != i :: BufAt(s'.cache, q) == BufAt(s.cache, q)
    requires j < 32 && (j == i || j !in s.book.unused)
    ensures BufAt(s'.cache, j).refcnt > 0 && 0 < BufAt(s'.cache, j).blk <= k + 1
  {
    if j == i { assert BufOk(s', i) && k in ClientsOn(s'.book, i); }
  }

  lemma TakeOne(s: Sys, k: nat)
    requires Taken(s, k) && k < 32
    ensures Taken(GetStep(s, k, 0, k + 1), k + 1)
  {
    var u :| u in s.book.unused;
    var s' := GetStep(s, k, 0, k + 1);
    GetNew(s, k, 0, k + 1, u);
    TakenNext(s, s', k, s'.book.clients[k].buf);
  }

  /** Client `k` has got buffer `i` for block `k` + 1. */
  lemma TakenNext(s: Sys, s': Sys, k: nat, i: nat)
    requires Taken(s, k) && k < 32 && i < 32 && BufAt(s.cache, i).refcnt == 0 && Inv(s')
    requires s'.book.clients.Keys == s.book.clients.Keys + {k} && s'.book.clients[k].buf == i
    requires BufAt(s'.cache, i).blk == k + 1 && s'.book.unused == s.book.unused - {i}
    requires s'.cache.bufs == s.cache.bufs[i := BufAt(s'.cache, i)]
    ensures Taken(s', k + 1)
  {
    assert i in s.book.unused;
    forall j: nat | j < 32 && j !in s'.book.unused
      ensures BufAt(s'.cache, j).refcnt > 0 && 0 < BufAt(s'.cache, j).blk <= k + 1
    {
      TakeUsed(s, s', k, i, j);
    }
  }

  lemma {:induction false} TakeRest(s: Sys, k: nat, keys: set<Key>) returns (ops: seq<Op>)
    requires Taken(s, k) && forall b: nat | 0 < b <= 32 :: (0, b) in keys
    ensures Runs(s, ops, keys) && Bget(Run(s, ops).cache, 0, 0).1 < 0
    decreases 32 - k
  {
    if k == 32 {
      ops := [];
      AllTaken(s, k);
    } else {
      TakeOne(s, k);
      var op := GetOp(k, 0, k + 1);
      var rest := TakeRest(Step(s, op), k + 1, keys);
      assert OpKeyIn(op, keys) && Enabled(s, op);
      Extend(s, op, rest, keys);
      ops := [op] + rest;
    }
  }

  lemma AllTaken(s: Sys, k: nat)
    requires Taken(s, k) && k == 32
    ensures Bget(s.cache, 0, 0).1 < 0
  {
    assert s.book.unused == {};
    BgetFails(s, 0, 0);
  }

  /** From the initial cache 32 clients with 32 blocks leave no buffer for another block. */
  lemma NoBufferRun(s: Sys, keys: set<Key>) returns (ops: seq<Op>)
    requires Initial(s) && forall b: nat | 0 < b <= 32 :: (0, b) in keys
    ensures Runs(s, ops, keys) && Bget(Run(s, ops).cache, 0, 0).1 < 0
  {
    InitialInv(s);
    var n: nat := 32;
    IndexCount(n);
    assert s.book.unused == Indices(n);
    ops := TakeRest(s, 0, keys);
  }

  lemma {:induction false} IndexCount(n: nat)
    ensures |Indices(n)| == n && forall i :: i in Indices(n) <==> 0 <= i < n
  {
    if n > 0 { IndexCount(n - 1); }
  }
}
