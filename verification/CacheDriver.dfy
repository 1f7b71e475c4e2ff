/** The buffer cache over the virtio driver: a load or a write of the cache is a request that is submitted, taken,
    completed, reported and finished, with any other steps in between.  Every such run is a run of the cache with
    loads and writes as single steps, taken when the device completes them. */
module CacheDriver {
  import opened Blocks
  import C = BufferCache
  import R = BufferCacheRuns
  import V = Virtio
  import P = VirtioProtocol

  /** The cache, and the rings with the memory of the buffers and the disk. */
  datatype Both = Both(cache: C.Sys, dev: V.Sys)

  ghost function BufOf(s: C.Sys, i: nat): C.Buf {
    C.BufAt(s.cache, i)
  }

  ghost predicate Carried(q: V.Request) {
    q.phase == V.Used || q.phase == V.Done
  }

  /** A request belongs to the client that holds its buffer: it asks for the buffer's block, and it is a read exactly
      if the buffer was not valid.  Once it is executed the client has no change left to write. */
  ghost predicate ReqLinked(s: C.Sys, q: V.Request) {
    && q.buf < 32 && BufOf(s, q.buf).holder >= 0 && q.blk == BufOf(s, q.buf).blk
    && (q.out || Carried(q) <==> BufOf(s, q.buf).valid) && (Carried(q) ==> !R.Pending(s, q.buf))
  }

  ghost predicate Linked(b: Both) {
    && C.Inv(b.cache) && V.Inv(b.dev) && |b.dev.ring.mem| == 32 && b.dev.ring.disk == b.cache.cache.disk
    && (forall i: nat {:trigger BufOf(b.cache, i)} | i < 32 :: b.dev.ring.mem[i] == BufOf(b.cache, i).data)
    && forall h: nat {:trigger ReqLinked(b.cache, b.dev.book.reqs[h])} | h in b.dev.book.reqs ::
         ReqLinked(b.cache, b.dev.book.reqs[h])
  }

  // ----- steps -----

  datatype Op =
    | Own(op: R.Op)      // a step of the cache that needs no disk
    | Start(a: nat)      // `bread` of a buffer that is not valid, or `bwrite`, up to the sleep
    | Take
    | Complete(h: nat)
    | Irq
    | Finish(h: nat)

  ghost function BufferOf(s: C.Sys, a: nat): nat {
    if a in s.book.clients then s.book.clients[a].buf else 0
  }

  /** A client inside `virtio_disk_rw` takes no other step. */
  ghost predicate Enabled(b: Both, op: Op) {
    match op
    case Own(o) =>
      && R.Enabled(b.cache, o) && !o.LoadOp? && !o.WriteOp?
      && (o.ModifyOp? || o.UnlockOp? ==> !P.Busy(b.dev, BufferOf(b.cache, o.a)))
    case Start(a) => R.Holds(b.cache, a) && !P.Busy(b.dev, BufferOf(b.cache, a))
    case Take => P.Enabled(b.dev, P.TakeOp)
    case Complete(h) => P.Enabled(b.dev, P.CompleteOp(h))
    case Irq => P.Enabled(b.dev, P.IrqOp)
    case Finish(h) => P.Enabled(b.dev, P.FinishOp(h))
  }

  /** What the device does, seen in the cache. */
  ghost function Executed(s: C.Sys, q: V.Request): R.Op {
    var a := if BufOf(s, q.buf).holder >= 0 then BufOf(s, q.buf).holder as nat else 0;
    if q.out then R.WriteOp(a) else R.LoadOp(a)
  }

  ghost function Step(b: Both, op: Op): Both {
    match op
    case Own(o) =>
      var dev := if o.ModifyOp? then P.FillStep(b.dev, BufferOf(b.cache, o.a), o.data) else b.dev;
      Both(R.Step(b.cache, o), dev)
    case Start(a) =>
      var i := BufferOf(b.cache, a);
      b.(dev := P.SubmitStep(b.dev, i, BufOf(b.cache, i).valid, BufOf(b.cache, i).blk))
    case Take => b.(dev := P.TakeStep(b.dev))
    case Complete(h) =>
      if h in b.dev.book.reqs
      then Both(R.Step(b.cache, Executed(b.cache, b.dev.book.reqs[h])), P.CompleteStep(b.dev, h)) else b
    case Irq => b.(dev := P.IrqStep(b.dev))
    case Finish(h) => b.(dev := P.FinishStep(b.dev, h))
  }

  // ----- steps of the cache alone -----

  /** A buffer in use by a request is as it was, except for its reference count. */
  ghost predicate SameBuf(s: C.Sys, s': C.Sys, i: nat) {
    BufOf(s', i).(refcnt := 0) == BufOf(s, i).(refcnt := 0)
  }

  lemma HeldCounted(s: C.Sys, i: nat)
    requires C.Inv(s) && i < 32 && BufOf(s, i).holder >= 0
    ensures BufOf(s, i).refcnt > 0
  {
    assert C.BufOk(s, i);
    assert BufOf(s, i).holder in C.ClientsOn(s.book, i);
  }

  lemma OwnSame(s: C.Sys, o: R.Op, i: nat)
    requires C.Inv(s) && R.Enabled(s, o) && !o.LoadOp? && !o.WriteOp? && i < 32 && BufOf(s, i).holder >= 0
    requires o.ModifyOp? || o.UnlockOp? ==> BufferOf(s, o.a) != i
    ensures SameBuf(s, R.Step(s, o), i) && (R.Pending(R.Step(s, o), i) <==> R.Pending(s, i))
  {
    HeldCounted(s, i);
    assert C.BufOk(s, i);
    if o.ModifyOp? || o.UnlockOp? { assert C.ClientOk(s, o.a); }
  }

  lemma OwnData(s: C.Sys, o: R.Op, i: nat)
    requires C.Inv(s) && R.Enabled(s, o) && !o.LoadOp? && !o.WriteOp? && i < 32
    ensures R.Step(s, o).cache.disk == s.cache.disk
    ensures BufOf(R.Step(s, o), i).data == if o.ModifyOp? && BufferOf(s, o.a) == i then o.data else BufOf(s, i).data
  {
    if o.ModifyOp? { assert C.ClientOk(s, o.a); }
  }

  lemma OwnLinked(b: Both, o: R.Op)
    requires Linked(b) && Enabled(b, Own(o))
    ensures Linked(Step(b, Own(o)))
  {
    var b' := Step(b, Own(o));
    R.StepKeeps(b.cache, o);
    if o.ModifyOp? {
      assert C.ClientOk(b.cache, o.a);
      P.FillKeeps(b.dev, BufferOf(b.cache, o.a), o.data);
    }
    forall i: nat | i < 32 ensures b'.dev.ring.mem[i] == BufOf(b'.cache, i).data {
      OwnData(b.cache, o, i);
      assert b.dev.ring.mem[i] == BufOf(b.cache, i).data;
    }
    OwnData(b.cache, o, 0);
    forall h: nat | h in b'.dev.book.reqs ensures ReqLinked(b'.cache, b'.dev.book.reqs[h]) {
      var q := b.dev.book.reqs[h];
      assert ReqLinked(b.cache, q);
      OwnSame(b.cache, o, q.buf);
    }
  }

  // ----- steps of the device and the driver -----

  /** The requests before are still there, as they were up to the phase, and only the phases the link does not look
      at have changed. */
  ghost predicate SamePhases(b: V.Book, b': V.Book) {
    forall h | h in b'.reqs ::
      && h in b.reqs && b'.reqs[h] == b.reqs[h].(phase := b'.reqs[h].phase)
      && (Carried(b'.reqs[h]) <==> Carried(b.reqs[h]))
  }

  lemma DeviceLinked(b: Both, dev': V.Sys)
    requires Linked(b) && V.Inv(dev') && SamePhases(b.dev.book, dev'.book)
    requires dev'.ring.mem == b.dev.ring.mem && dev'.ring.disk == b.dev.ring.disk
    ensures Linked(b.(dev := dev'))
  {
    forall i: nat | i < 32 ensures dev'.ring.mem[i] == BufOf(b.cache, i).data {
      assert b.dev.ring.mem[i] == BufOf(b.cache, i).data;
    }
    forall h: nat | h in dev'.book.reqs ensures ReqLinked(b.cache, dev'.book.reqs[h]) {
      assert ReqLinked(b.cache, b.dev.book.reqs[h]);
    }
  }

  lemma TakeLinked(b: Both)
    requires Linked(b) && Enabled(b, Take)
    ensures Linked(Step(b, Take))
  {
    P.TakeKeeps(b.dev);
    assert V.PhaseOk(b.dev, b.dev.book.availQ[0]);
    DeviceLinked(b, P.TakeStep(b.dev));
  }

  lemma IrqLinked(b: Both)
    requires Linked(b) && Enabled(b, Irq)
    ensures Linked(Step(b, Irq))
  {
    P.IrqKeeps(b.dev);
    assert V.PhaseOk(b.dev, b.dev.book.usedQ[0]);
    DeviceLinked(b, P.IrqStep(b.dev));
  }

  lemma FinishLinked(b: Both, h: nat)
    requires Linked(b) && Enabled(b, Finish(h))
    ensures Linked(Step(b, Finish(h)))
  {
    P.StepKeeps(b.dev, P.FinishOp(h));
    P.FinishIs(b.dev, h);
    DeviceLinked(b, P.FinishStep(b.dev, h));
  }

  lemma StartLinked(b: Both, a: nat)
    requires Linked(b) && Enabled(b, Start(a))
    ensures Linked(Step(b, Start(a)))
  {
    var i := BufferOf(b.cache, a);
    assert C.ClientOk(b.cache, a);
    var out, blk := BufOf(b.cache, i).valid, BufOf(b.cache, i).blk;
    P.SubmitKeeps(b.dev, i, out, blk);
    var dev' := P.SubmitStep(b.dev, i, out, blk);
    SubmitLinked(b, dev', i, out, blk);
  }

  lemma SubmitLinked(b: Both, dev': V.Sys, i: nat, out: bool, blk: nat)
    requires Linked(b) && V.Inv(dev') && dev' == P.SubmitStep(b.dev, i, out, blk)
    requires i < 32 && BufOf(b.cache, i).holder >= 0 && out == BufOf(b.cache, i).valid && blk == BufOf(b.cache, i).blk
    ensures Linked(b.(dev := dev'))
  {
    SubmitMemory(b.dev.ring, i, out, blk);
    forall j: nat | j < 32 ensures dev'.ring.mem[j] == BufOf(b.cache, j).data {
      assert b.dev.ring.mem[j] == BufOf(b.cache, j).data;
    }
    forall h: nat | h in dev'.book.reqs ensures ReqLinked(b.cache, dev'.book.reqs[h]) {
      if h in b.dev.book.reqs && dev'.book.reqs[h] == b.dev.book.reqs[h] {
        assert ReqLinked(b.cache, b.dev.book.reqs[h]);
      }
    }
  }

  lemma SubmitMemory(r: V.Ring, i: nat, out: bool, blk: nat)
    ensures V.Submit(r, i, out, blk).mem == r.mem && V.Submit(r, i, out, blk).disk == r.disk
  {
  }

  ghost predicate Executable(s: C.Sys, q: V.Request, a: nat) {
    && C.Inv(s) && ReqLinked(s, q) && !Carried(q) && BufOf(s, q.buf).holder == a
    && a in s.book.clients && s.book.clients[a].buf == q.buf
  }

  ghost function After(s: C.Sys, q: V.Request, a: nat): C.Sys {
    if q.out then C.WriteStep(s, a) else C.LoadStep(s, a)
  }

  /** The device executes a request exactly where the cache may take the load or the write. */
  lemma ExecutedEnabled(b: Both, h: nat)
    requires Linked(b) && Enabled(b, Complete(h))
    ensures h in b.dev.book.reqs
    ensures var q := b.dev.book.reqs[h]; var o := Executed(b.cache, q);
      R.Enabled(b.cache, o) && Executable(b.cache, q, o.a) && R.Step(b.cache, o) == After(b.cache, q, o.a)
  {
    assert V.PhaseOk(b.dev, h);
    var q := b.dev.book.reqs[h];
    assert ReqLinked(b.cache, q) && C.BufOk(b.cache, q.buf);
  }

  lemma ExecutedLinked(s: C.Sys, q: V.Request, a: nat)
    requires Executable(s, q, a)
    ensures ReqLinked(After(s, q, a), q.(phase := V.Used))
  {
    assert C.ClientOk(s, a);
  }

  lemma OthersLinked(s: C.Sys, q: V.Request, a: nat, p: V.Request)
    requires Executable(s, q, a) && ReqLinked(s, p) && p.buf != q.buf
    ensures ReqLinked(After(s, q, a), p)
  {
    assert C.BufOk(s, p.buf);
  }

  lemma ExecutedData(s: C.Sys, q: V.Request, a: nat, i: nat)
    requires Executable(s, q, a) && i < 32
    ensures After(s, q, a).cache.disk ==
      if q.out then s.cache.disk[q.blk := BufOf(s, q.buf).data] else s.cache.disk
    ensures BufOf(After(s, q, a), i).data ==
      if !q.out && i == q.buf then DiskAt(s.cache.disk, q.blk) else BufOf(s, i).data
  {
  }

  lemma CompleteLinked(b: Both, h: nat)
    requires Linked(b) && Enabled(b, Complete(h))
    ensures Linked(Step(b, Complete(h)))
  {
    ExecutedEnabled(b, h);
    P.CompleteKeeps(b.dev, h);
    var q := b.dev.book.reqs[h];
    var o := Executed(b.cache, q);
    R.StepKeeps(b.cache, o);
    CompletedLinked(b, Step(b, Complete(h)), h, q, o.a);
  }

  lemma CompletedLinked(b: Both, b': Both, h: nat, q: V.Request, a: nat)
    requires Linked(b) && h in b.dev.book.reqs && b.dev.book.reqs[h] == q && Executable(b.cache, q, a)
    requires b'.cache == After(b.cache, q, a) && b'.dev == P.CompleteStep(b.dev, h)
    requires C.Inv(b'.cache) && V.Inv(b'.dev)
    requires q.out ==> b'.dev.ring.mem == b.dev.ring.mem
    requires q.out ==> b'.dev.ring.disk == b.dev.ring.disk[q.blk := b.dev.ring.mem[q.buf]]
    requires !q.out ==> b'.dev.ring.disk == b.dev.ring.disk
    requires !q.out ==> b'.dev.ring.mem == b.dev.ring.mem[q.buf := DiskAt(b.dev.ring.disk, q.blk)]
    ensures Linked(b')
  {
    assert b.dev.ring.mem[q.buf] == BufOf(b.cache, q.buf).data;
    ExecutedData(b.cache, q, a, 0);
    forall i: nat | i < 32 ensures b'.dev.ring.mem[i] == BufOf(b'.cache, i).data {
      assert b.dev.ring.mem[i] == BufOf(b.cache, i).data;
      ExecutedData(b.cache, q, a, i);
    }
    forall x: nat | x in b'.dev.book.reqs ensures ReqLinked(b'.cache, b'.dev.book.reqs[x]) {
      var p := b.dev.book.reqs[x];
      assert ReqLinked(b.cache, p) && V.Apart(b.dev.book, x, h);
      if x == h { ExecutedLinked(b.cache, q, a); } else { OthersLinked(b.cache, q, a, p); }
    }
  }

  /** Every step keeps the link. */
  lemma StepLinked(b: Both, op: Op)
    requires Linked(b) && Enabled(b, op)
    ensures Linked(Step(b, op))
  {
    match op
    case Own(o) => OwnLinked(b, o);
    case Start(a) => StartLinked(b, a);
    case Take => TakeLinked(b);
    case Complete(h) => CompleteLinked(b, h);
    case Irq => IrqLinked(b);
    case Finish(h) => FinishLinked(b, h);
  }

  // ----- runs -----

  ghost predicate OpKeyIn(op: Op, keys: set<R.Key>) {
    op.Own? ==> R.OpKeyIn(op.op, keys)
  }

  ghost predicate Runs(b: Both, ops: seq<Op>, keys: set<R.Key>)
    decreases |ops|
  {
    ops == [] || (Enabled(b, ops[0]) && OpKeyIn(ops[0], keys) && Runs(Step(b, ops[0]), ops[1..], keys))
  }

  ghost function Run(b: Both, ops: seq<Op>): Both
    decreases |ops|
  {
    if ops == [] then b else Run(Step(b, ops[0]), ops[1..])
  }

  /** The step of the cache a step is: none, or one that is enabled. */
  ghost function Seen(b: Both, op: Op): seq<R.Op> {
    match op
    case Own(o) => [o]
    case Complete(h) => if h in b.dev.book.reqs then [Executed(b.cache, b.dev.book.reqs[h])] else []
    case _ => []
  }

  lemma StepSeen(b: Both, op: Op, keys: set<R.Key>)
    requires Linked(b) && Enabled(b, op) && OpKeyIn(op, keys)
    ensures var seen := Seen(b, op);
      && |seen| <= 1 && Step(b, op).cache == (if seen == [] then b.cache else R.Step(b.cache, seen[0]))
      && (seen != [] ==> R.Enabled(b.cache, seen[0]) && R.OpKeyIn(seen[0], keys))
  {
    if op.Complete? { ExecutedEnabled(b, op.h); }
  }

  ghost function AllSeen(b: Both, ops: seq<Op>): seq<R.Op>
    decreases |ops|
  {
    if ops == [] then [] else Seen(b, ops[0]) + AllSeen(Step(b, ops[0]), ops[1..])
  }

  /** Every interleaving of clients, device and interrupts is a run of the cache with loads and writes as single
      steps, and at its end the memory of the buffers and the disk are the cache's. */
  lemma {:induction false} RunSeen(b: Both, ops: seq<Op>, keys: set<R.Key>)
    requires Linked(b) && Runs(b, ops, keys)
    ensures Linked(Run(b, ops))
    ensures R.Runs(b.cache, AllSeen(b, ops), keys) && R.Run(b.cache, AllSeen(b, ops)) == Run(b, ops).cache
    decreases |ops|
  {
    if ops != [] {
      var b1, seen := Step(b, ops[0]), Seen(b, ops[0]);
      StepLinked(b, ops[0]);
      StepSeen(b, ops[0], keys);
      RunSeen(b1, ops[1..], keys);
      var rest := AllSeen(b1, ops[1..]);
      if seen == [] { assert seen + rest == rest; } else { assert (seen + rest)[1..] == rest; }
    }
  }

  ghost predicate Initial(b: Both) {
    && R.Initial(b.cache) && P.Initial(b.dev) && |b.dev.ring.mem| == 32 && b.dev.ring.disk == b.cache.cache.disk
    && forall i: nat | i < 32 :: b.dev.ring.mem[i] == b.cache.cache.bufs[i].data
  }

  lemma InitialLinked(b: Both)
    requires Initial(b)
    ensures Linked(b)
  {
    R.InitialInv(b.cache);
    P.InitialInv(b.dev);
  }

  // ----- what a finished request has done -----

  /** The block of a request that has been executed is not marked as released changed. */
  ghost predicate Saved(b: Both) {
    forall h: nat {:trigger b.dev.book.reqs[h]} | h in b.dev.book.reqs && Carried(b.dev.book.reqs[h]) ::
      b.dev.book.reqs[h].blk !in b.cache.book.unsaved
  }

  /** With one device number per block, two buffers with clients have different blocks. */
  lemma BlocksApart(s: C.Sys, keys: set<R.Key>, i: nat, j: nat)
    requires C.Inv(s) && R.OneDevice(keys) && R.KeysIn(s, keys) && i < 32 && j < 32 && i != j
    requires i !in s.book.unused && j !in s.book.unused
    ensures BufOf(s, i).blk != BufOf(s, j).blk
  {
    assert C.Unique(s, i, j);
    assert (BufOf(s, i).dev, BufOf(s, i).blk) in keys && (BufOf(s, j).dev, BufOf(s, j).blk) in keys;
  }

  /** Only the release of a buffer marks a block, and not the block of a request. */
  lemma OwnSaved(b: Both, o: R.Op, keys: set<R.Key>)
    requires Linked(b) && Enabled(b, Own(o)) && R.OneDevice(keys) && R.KeysIn(b.cache, keys) && Saved(b)
    ensures Saved(Step(b, Own(o)))
  {
    var s, s' := b.cache, R.Step(b.cache, o);
    forall h: nat | h in b.dev.book.reqs && Carried(b.dev.book.reqs[h])
      ensures b.dev.book.reqs[h].blk !in s'.book.unsaved
    {
      var q := b.dev.book.reqs[h];
      assert ReqLinked(s, q) && C.BufOk(s, q.buf);
      assert C.ClientOk(s, BufOf(s, q.buf).holder as nat);
      if o.UnlockOp? {
        assert C.ClientOk(s, o.a);
        BlocksApart(s, keys, BufferOf(s, o.a), q.buf);
      }
    }
  }

  lemma CompleteSaved(b: Both, h: nat)
    requires Linked(b) && Enabled(b, Complete(h)) && Saved(b)
    ensures Saved(Step(b, Complete(h)))
  {
    ExecutedEnabled(b, h);
    var b', q := Step(b, Complete(h)), b.dev.book.reqs[h];
    assert ReqLinked(b.cache, q);
    forall x: nat | x in b'.dev.book.reqs && Carried(b'.dev.book.reqs[x])
      ensures b'.dev.book.reqs[x].blk !in b'.cache.book.unsaved
    {
      if x != h { assert b'.dev.book.reqs[x] == b.dev.book.reqs[x]; }
    }
  }

  lemma DeviceSaved(b: Both, dev': V.Sys)
    requires Saved(b) && SamePhases(b.dev.book, dev'.book)
    ensures Saved(b.(dev := dev'))
  {
    forall h: nat | h in dev'.book.reqs && Carried(dev'.book.reqs[h])
      ensures dev'.book.reqs[h].blk !in b.cache.book.unsaved
    {
      assert Carried(b.dev.book.reqs[h]);
    }
  }

  lemma StartSaved(b: Both, a: nat)
    requires Linked(b) && Enabled(b, Start(a)) && Saved(b)
    ensures Saved(Step(b, Start(a)))
  {
    var b' := Step(b, Start(a));
    forall h: nat | h in b'.dev.book.reqs && Carried(b'.dev.book.reqs[h])
      ensures b'.dev.book.reqs[h].blk !in b'.cache.book.unsaved
    {
      assert h in b.dev.book.reqs && b'.dev.book.reqs[h] == b.dev.book.reqs[h];
    }
  }

  lemma QuietSaved(b: Both, op: Op)
    requires Linked(b) && Enabled(b, op) && Saved(b) && (op.Take? || op.Irq? || op.Finish?)
    ensures Saved(Step(b, op))
  {
    match op
    case Take =>
      P.TakeKeeps(b.dev);
      assert V.PhaseOk(b.dev, b.dev.book.availQ[0]);
      DeviceSaved(b, P.TakeStep(b.dev));
    case Irq =>
      P.IrqKeeps(b.dev);
      assert V.PhaseOk(b.dev, b.dev.book.usedQ[0]);
      DeviceSaved(b, P.IrqStep(b.dev));
    case Finish(h) => DeviceSaved(b, P.FinishStep(b.dev, h));
  }

  lemma StepSaved(b: Both, op: Op, keys: set<R.Key>)
    requires Linked(b) && Enabled(b, op) && OpKeyIn(op, keys)
    requires R.OneDevice(keys) && R.KeysIn(b.cache, keys) && Saved(b)
    ensures Saved(Step(b, op)) && R.KeysIn(Step(b, op).cache, keys)
  {
    StepSeen(b, op, keys);
    if Seen(b, op) != [] { R.StepKeys(b.cache, Seen(b, op)[0], keys); }
    match op
    case Own(o) => OwnSaved(b, o, keys);
    case Start(a) => StartSaved(b, a);
    case Complete(h) => CompleteSaved(b, h);
    case _ => QuietSaved(b, op);
  }

  lemma {:induction false} RunSaved(b: Both, ops: seq<Op>, keys: set<R.Key>)
    requires Linked(b) && Runs(b, ops, keys) && R.OneDevice(keys) && R.KeysIn(b.cache, keys) && Saved(b)
    ensures Saved(Run(b, ops))
    decreases |ops|
  {
    if ops != [] {
      StepLinked(b, ops[0]);
      StepSaved(b, ops[0], keys);
      RunSaved(Step(b, ops[0]), ops[1..], keys);
    }
  }

  /** From initialisation on, with block numbers used with one device each: when a client's request is done, read or
      write, the memory of its buffer is what the disk has in its block. */
  lemma DoneReads(b: Both, ops: seq<Op>, keys: set<R.Key>, h: nat)
    requires Initial(b) && Runs(b, ops, keys) && R.OneDevice(keys) && Enabled(Run(b, ops), Finish(h))
    ensures var b' := Run(b, ops); var q := b'.dev.book.reqs[h];
      && q.buf < |b'.dev.ring.mem| && BufOf(b'.cache, q.buf).valid && q.blk == BufOf(b'.cache, q.buf).blk
      && b'.dev.ring.mem[q.buf] == DiskAt(b'.dev.ring.disk, q.blk)
  {
    InitialLinked(b);
    RunSeen(b, ops, keys);
    R.InitialInv(b.cache);
    R.RunCoherent(b.cache, AllSeen(b, ops), keys);
    RunSaved(b, ops, keys);
    DoneHas(Run(b, ops), h);
  }

  lemma DoneHas(b: Both, h: nat)
    requires Linked(b) && R.Coherent(b.cache) && Saved(b) && Enabled(b, Finish(h))
    ensures var q := b.dev.book.reqs[h];
      && q.buf < |b.dev.ring.mem| && BufOf(b.cache, q.buf).valid && q.blk == BufOf(b.cache, q.buf).blk
      && b.dev.ring.mem[q.buf] == DiskAt(b.dev.ring.disk, q.blk)
  {
    var q := b.dev.book.reqs[h];
    assert V.ReqOk(b.dev.ring, h, q) && ReqLinked(b.cache, q) && C.BufOk(b.cache, q.buf);
    assert C.ClientOk(b.cache, BufOf(b.cache, q.buf).holder as nat) && R.Agrees(b.cache, q.buf);
  }
}
