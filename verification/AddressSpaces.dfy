/** Whole runs over many address spaces: creation, fork, faults, stores, unmapping and exit. */
module AddressSpaces {
  import opened Frames
  import opened PageTables
  import opened Cow
  import opened TableFree

  // ----- boot and creation -----

  ghost function FreeRange(lo: nat, hi: nat): seq<Frame>
    requires lo <= hi
    decreases hi - lo
  {
    if lo == hi then [] else [(hi - 1) as Frame] + FreeRange(lo, hi - 1)
  }

  lemma {:induction false} FreeRangeAt(lo: nat, hi: nat)
    requires lo <= hi
    ensures |FreeRange(lo, hi)| == hi - lo && forall k :: 0 <= k < hi - lo ==> FreeRange(lo, hi)[k] == hi - 1 - k
    decreases hi - lo
  {
    if lo < hi { FreeRangeAt(lo, hi - 1); }
  }

  /** Memory after `kalloc_init`: every frame above the kernel image is on the list. */
  ghost function Boot(base: nat): Mem
    requires base <= NFRAMES
  {
    Mem(base, FreeRange(base, NFRAMES), seq(NFRAMES, _ => 0), seq(NFRAMES, _ => ZeroTable()),
        seq(NFRAMES, _ => ZeroPage()), map[])
  }

  lemma BootOk(base: nat)
    requires base <= NFRAMES
    ensures Inv(Boot(base), multiset{}) && |Boot(base).free| == NFRAMES - base
  {
    var m := Boot(base);
    FreeRangeAt(base, NFRAMES);
    forall f: Frame | Managed(m, f) ensures f in m.free { assert m.free[NFRAMES - 1 - f] == f; }
  }

  /** `uvmcreate`: a root table with no entries. */
  function NewRoot(m: Mem): Mem {
    if m.free == [] then m else Kalloc(m).(nodes := m.nodes[Head(m) := Node(2, Head(m), Head(m), 0)])
  }

  lemma NewRootKeeps(m: Mem, held: multiset<Frame>)
    requires Inv(m, held) && m.free != []
    ensures var r := Head(m); var m' := NewRoot(m);
      && Inv(m', held) && SameView(m, m') && KeepsBytes(m, m') && !IsRoot(m, r) && IsRoot(m', r)
      && (forall pg :: Lookup(m', r, pg) == NoPte)
  {
    var r := Head(m);
    var m1 := Kalloc(m);
    var m' := NewRoot(m);
    assert r in m.free;
    KallocKeeps(m, held);
    NewRootTree(m, held);
    assert SameView(m, m') && KeepsBytes(m, m') by { SameTablesView(m, m1); }
    assert forall t: Frame, i: nat :: IsLeaf(m', t, i) <==> IsLeaf(m1, t, i);
    assert forall f :: Refs(m', f) == Refs(m1, f);
    forall t: Frame, i: nat | IsLeaf(m', t, i)
      ensures LeafOk(m', t, i)
    {
      assert LeafOk(m1, t, i);
      assert (t, i) in Refs(m1, Entry(m1, t, i).frame);
    }
    forall f: Frame | InUse(m', f) ensures CountOk(m', held, f) { assert CountOk(m1, held + multiset{r}, f); }
  }

  lemma NewRootTree(m: Mem, held: multiset<Frame>)
    requires Inv(m, held) && m.free != []
    ensures Tree(NewRoot(m)) && forall i :: Entry(NewRoot(m), Head(m), i) == NoPte
  {
    var r := Head(m);
    var m' := NewRoot(m);
    assert r in m.free;
    KallocKeeps(m, held);
    forall t: Frame | t in m'.nodes ensures NodeOk(m', t) { if t != r { assert NodeOk(m, t); } }
    forall t: Frame, i: nat | t in m'.nodes && m'.nodes[t].level > 0 && 0 <= i < ENTRIES && Entry(m', t, i).valid
      ensures ChildOk(m', t, i)
    {
      assert ChildOk(m, t, i);
    }
  }

  // ----- fork -----

  /** `uvmcreate` and `uvmcopy`; on failure the child is emptied by `release_page_table`. */
  ghost function Fork(m: Mem, src: Frame): (Mem, bool) {
    var dst := Head(m);
    var (m2, ok) := CopyFrom(NewRoot(m), src, dst, 0, USER_PAGES);
    if ok then (m2, true) else (DropFrom(m2, dst, 0, ALL_PAGES), false)
  }

  /** Fork shares every user page: parent and child read the same bytes, neither can write them
      in place, and a page that was read-only before stays exactly as it was. */
  ghost predicate Forked(m: Mem, m': Mem, src: Frame, dst: Frame) {
    && (forall r | IsRoot(m, r) :: IsRoot(m', r)) && IsRoot(m', dst)
    && (forall pg | InRange(pg, 0, USER_PAGES) ::
          && Lookup(m', src, pg) == Marked(Lookup(m, src, pg)) == Lookup(m', dst, pg)
          && Downgraded(Lookup(m, src, pg), Lookup(m', src, pg)) && Content(m', dst, pg) == Content(m, src, pg))
    && SameContent(m, m')
    && (forall r: Frame, pg: Page | IsRoot(m, r) && r != src && PageOk(pg) :: Lookup(m', r, pg) == Lookup(m, r, pg))
  }

  /** The user page at which a fork gives up; `USER_PAGES` when it does not. */
  ghost function ForkStop(m: Mem, src: Frame): nat {
    StopAt(NewRoot(m), src, Head(m), 0, USER_PAGES)
  }

  /** A failed fork leaves the child empty and every address space its bytes.  In the parent the pages before the
      stop stay marked; every other entry of every address space is as it was. */
  ghost predicate ForkUndone(m: Mem, m': Mem, src: Frame, dst: Frame, stop: nat) {
    && (forall r | IsRoot(m, r) :: IsRoot(m', r)) && IsRoot(m', dst)
    && (forall pg | PageOk(pg) :: Lookup(m', dst, pg) == NoPte)
    && SameContent(m, m')
    && MarksLeft(m, m', src, stop)
  }

  ghost predicate MarksLeft(m: Mem, m': Mem, src: Frame, stop: nat) {
    forall r: Frame, pg: Page | IsRoot(m, r) && PageOk(pg) ::
      Lookup(m', r, pg) == if r == src && InRange(pg, 0, stop) then Marked(Lookup(m, r, pg)) else Lookup(m, r, pg)
  }

  lemma CopiedContent(m: Mem, m1: Mem, m2: Mem, held: multiset<Frame>, src: Frame, dst: Frame, stop: nat)
    requires Inv(m, held) && SameView(m, m1) && KeepsBytes(m, m1) && IsRoot(m, src) && !IsRoot(m, dst)
    requires Copied(m1, m2, src, dst, 0, stop) && KeepsBytes(m1, m2)
    ensures SameContent(m, m2) && MarksLeft(m, m2, src, stop)
  {
    forall r: Frame, pg: Page | IsRoot(m, r) && PageOk(pg)
      ensures Content(m2, r, pg) == Content(m, r, pg)
      ensures Lookup(m2, r, pg) ==
        if r == src && InRange(pg, 0, stop) then Marked(Lookup(m, r, pg)) else Lookup(m, r, pg)
    {
      assert IsRoot(m1, r) && r != dst;
      assert Lookup(m1, r, pg) == Lookup(m, r, pg);
      if r == src && InRange(pg, 0, stop) { assert CopiedAt(m1, m2, src, dst, pg); }
      if Lookup(m, r, pg).valid { MappedLeaf(m, held, r, pg); }
    }
  }

  lemma ForkKeeps(m: Mem, held: multiset<Frame>, src: Frame)
    requires Inv(m, held) && IsRoot(m, src) && m.free != []
    ensures var (m', ok) := Fork(m, src);
      && Inv(m', held) && !IsRoot(m, Head(m)) && ForkStop(m, src) <= USER_PAGES
      && (ok <==> ForkStop(m, src) == USER_PAGES)
      && (ok ==> Forked(m, m', src, Head(m)))
      && (!ok ==> ForkUndone(m, m', src, Head(m), ForkStop(m, src)) && MappedAt(m, src, ForkStop(m, src)))
      && (!ok ==> CopyFrom(NewRoot(m), src, Head(m), 0, USER_PAGES).0.free == [])
  {
    var dst, stop := Head(m), ForkStop(m, src);
    var m1 := NewRoot(m);
    NewRootKeeps(m, held);
    CopyKeeps(m1, held, src, dst, 0, USER_PAGES);
    var (m2, ok) := CopyFrom(m1, src, dst, 0, USER_PAGES);
    CopiedContent(m, m1, m2, held, src, dst, stop);
    if ok {
      ForkSuccess(m, m1, m2, held, src, dst);
    } else {
      DropKeeps(m2, held, dst, 0, ALL_PAGES);
      ForkFailure(m, m2, DropFrom(m2, dst, 0, ALL_PAGES), src, dst, stop);
      PageNum(stop);
    }
  }

  lemma MarkedFields(m: Mem, held: multiset<Frame>, r: Frame, pg: Page)
    requires Inv(m, held) && IsRoot(m, r) && PageOk(pg)
    ensures Downgraded(Lookup(m, r, pg), Marked(Lookup(m, r, pg)))
  {
    if Lookup(m, r, pg).valid { MappedLeaf(m, held, r, pg); }
  }

  lemma ForkSuccess(m: Mem, m1: Mem, m2: Mem, held: multiset<Frame>, src: Frame, dst: Frame)
    requires Inv(m, held) && SameView(m, m1) && IsRoot(m, src) && !IsRoot(m, dst) && IsRoot(m1, dst)
    requires Copied(m1, m2, src, dst, 0, USER_PAGES) && SameContent(m, m2)
    ensures Forked(m, m2, src, dst)
  {
    forall pg | InRange(pg, 0, USER_PAGES)
      ensures Lookup(m2, src, pg) == Marked(Lookup(m, src, pg)) == Lookup(m2, dst, pg)
      ensures Downgraded(Lookup(m, src, pg), Lookup(m2, src, pg)) && Content(m2, dst, pg) == Content(m, src, pg)
    {
      MarkedFields(m, held, src, pg);
      assert CopiedAt(m1, m2, src, dst, pg);
      assert Lookup(m1, src, pg) == Lookup(m, src, pg);
      assert Content(m2, src, pg) == Content(m, src, pg);
    }
    forall r: Frame, pg: Page | IsRoot(m, r) && r != src && PageOk(pg) ensures Lookup(m2, r, pg) == Lookup(m, r, pg) {
      assert IsRoot(m1, r) && Lookup(m1, r, pg) == Lookup(m, r, pg);
    }
  }

  lemma ForkFailure(m: Mem, m2: Mem, m': Mem, src: Frame, dst: Frame, stop: nat)
    requires !IsRoot(m, dst) && IsRoot(m2, dst) && Dropped(m2, m', dst, 0, ALL_PAGES) && SameContent(m, m2)
    requires (forall r | IsRoot(m, r) :: IsRoot(m2, r)) && MarksLeft(m, m2, src, stop)
    ensures ForkUndone(m, m', src, dst, stop)
  {
    forall pg | PageOk(pg) ensures Lookup(m', dst, pg) == NoPte {
      NumPage(pg);
      assert InRange(pg, 0, ALL_PAGES);
    }
    forall r: Frame, pg: Page | IsRoot(m, r) && PageOk(pg)
      ensures Content(m', r, pg) == Content(m, r, pg) && Lookup(m', r, pg) == Lookup(m2, r, pg)
    {
      assert IsRoot(m2, r) && r != dst;
      assert Content(m2, r, pg) == Content(m, r, pg);
    }
  }

  /** A failed fork changes nothing the parent sees exactly when no user page before the stop is writable. */
  lemma ForkUnchanged(m: Mem, held: multiset<Frame>, src: Frame)
    requires Inv(m, held) && IsRoot(m, src) && m.free != [] && !Fork(m, src).1
    ensures (forall pg | PageOk(pg) :: Lookup(Fork(m, src).0, src, pg) == Lookup(m, src, pg))
      <==> (forall pg | InRange(pg, 0, ForkStop(m, src)) :: !Lookup(m, src, pg).w)
  {
    var m', stop := Fork(m, src).0, ForkStop(m, src);
    ForkKeeps(m, held, src);
    assert forall pg | InRange(pg, 0, stop) :: Lookup(m', src, pg) == Marked(Lookup(m, src, pg));
  }

  // ----- runs -----

  datatype Op =
    | ForkOp(src: Frame)
    | StoreOp(r: Frame, pg: Page, off: nat, bytes: seq<Byte>)
    | CowOp(r: Frame, pg: Page)
    | LazyOp(r: Frame, pg: Page, perm: Pte, bytes: seq<Byte>)
    | UnmapOp(r: Frame, lo: nat, hi: nat)
    | ExitOp(r: Frame)

  /** When the kernel performs the operation; otherwise it changes nothing. */
  ghost predicate Enabled(m: Mem, op: Op) {
    match op
    case ForkOp(src) => IsRoot(m, src) && m.free != []
    case StoreOp(r, pg, _, _) => IsRoot(m, r) && PageOk(pg) && CanStore(m, r, pg)
    case CowOp(r, pg) => IsRoot(m, r) && PageOk(pg)
    case LazyOp(r, pg, perm, bytes) =>
      IsRoot(m, r) && PageOk(pg) && !Lookup(m, r, pg).valid && |bytes| == PGSIZE && !perm.cow && (perm.d ==> perm.w)
    case UnmapOp(r, lo, hi) => IsRoot(m, r) && lo <= hi <= ALL_PAGES
    case ExitOp(r) => IsRoot(m, r) && NoLeaves(m, r)
  }

  function RootLevel(m: Mem, r: Frame): nat {
    if NodeAt(m, r).level >= 0 then NodeAt(m, r).level else 0
  }

  ghost function Step(m: Mem, op: Op): Mem {
    if !Enabled(m, op) then m else
    match op
    case ForkOp(src) => Fork(m, src).0
    case StoreOp(r, pg, off, bytes) => StoreBytes(m, r, pg, off, bytes)
    case CowOp(r, pg) => CowFault(m, r, pg).0
    case LazyOp(r, pg, perm, bytes) => LazyMap(m, r, pg, perm, bytes).0
    case UnmapOp(r, lo, hi) => DropFrom(m, r, lo, hi)
    case ExitOp(r) => FreeWalk(m, r, RootLevel(m, r))
  }

  ghost function Run(m: Mem, ops: seq<Op>): Mem
    decreases |ops|
  {
    if ops == [] then m else Run(Step(m, ops[0]), ops[1..])
  }

  /** The operations by which an address space changes one of its own pages. */
  ghost predicate Touches(op: Op, r: Frame, pg: Page) {
    match op
    case ForkOp(_) => false
    case StoreOp(r', pg', _, _) => r' == r && pg' == pg
    case CowOp(_, _) => false
    case LazyOp(r', pg', _, _) => r' == r && pg' == pg
    case UnmapOp(r', lo, hi) => r' == r && InRange(pg, lo, hi)
    case ExitOp(r') => r' == r
  }

  ghost predicate ReadOnly(p: Pte) {
    p.valid && !p.w && !p.cow
  }

  /** Page `pg` of `r` keeps its bytes, and its entry if it is read-only. */
  ghost predicate PageKept(m: Mem, m': Mem, r: Frame, pg: Page) {
    && IsRoot(m', r) && Content(m', r, pg) == Content(m, r, pg)
    && (ReadOnly(Lookup(m, r, pg)) ==> Lookup(m', r, pg) == Lookup(m, r, pg))
  }

  ghost predicate Untouched(m: Mem, m': Mem, op: Op) {
    forall r: Frame, pg: Page | IsRoot(m, r) && PageOk(pg) && !Touches(op, r, pg) :: PageKept(m, m', r, pg)
  }

  lemma ForkUntouched(m: Mem, held: multiset<Frame>, op: Op)
    requires Inv(m, held) && op.ForkOp? && Enabled(m, op)
    ensures Inv(Step(m, op), held) && Untouched(m, Step(m, op), op)
  {
    ForkKeeps(m, held, op.src);
    var (m', ok) := Fork(m, op.src);
    forall r: Frame, pg: Page | IsRoot(m, r) && PageOk(pg) && !Touches(op, r, pg) ensures PageKept(m, m', r, pg) {
      if ok && r == op.src && !InRange(pg, 0, USER_PAGES) { ForkHigh(m, held, op.src, pg); }
    }
  }

  /** Pages outside the user half are not copied and keep their entries. */
  lemma ForkHigh(m: Mem, held: multiset<Frame>, src: Frame, pg: Page)
    requires Inv(m, held) && IsRoot(m, src) && m.free != [] && PageOk(pg) && !InRange(pg, 0, USER_PAGES)
    requires Fork(m, src).1
    ensures Lookup(Fork(m, src).0, src, pg) == Lookup(m, src, pg)
  {
    NewRootKeeps(m, held);
    CopyKeeps(NewRoot(m), held, src, Head(m), 0, USER_PAGES);
  }

  lemma StoreUntouched(m: Mem, held: multiset<Frame>, op: Op)
    requires Inv(m, held) && op.StoreOp? && Enabled(m, op)
    ensures Inv(Step(m, op), held) && Untouched(m, Step(m, op), op)
  {
    StoreKeeps(m, held, op.r, op.pg, op.off, op.bytes);
  }

  lemma CowUntouched(m: Mem, held: multiset<Frame>, op: Op)
    requires Inv(m, held) && op.CowOp? && Enabled(m, op)
    ensures Inv(Step(m, op), held) && Untouched(m, Step(m, op), op)
  {
    CowFaultKeeps(m, held, op.r, op.pg);
  }

  lemma LazyUntouched(m: Mem, held: multiset<Frame>, op: Op)
    requires Inv(m, held) && op.LazyOp? && Enabled(m, op)
    ensures Inv(Step(m, op), held) && Untouched(m, Step(m, op), op)
  {
    LazyMapKeeps(m, held, op.r, op.pg, op.perm, op.bytes);
  }

  lemma UnmapUntouched(m: Mem, held: multiset<Frame>, op: Op)
    requires Inv(m, held) && op.UnmapOp? && Enabled(m, op)
    ensures Inv(Step(m, op), held) && Untouched(m, Step(m, op), op)
  {
    DropKeeps(m, held, op.r, op.lo, op.hi);
  }

  lemma ExitUntouched(m: Mem, held: multiset<Frame>, op: Op)
    requires Inv(m, held) && op.ExitOp? && Enabled(m, op)
    ensures Inv(Step(m, op), held) && Untouched(m, Step(m, op), op)
  {
    var m' := Step(m, op);
    FreeWalkKeeps(m, held, op.r, RootLevel(m, op.r));
    forall r: Frame, pg: Page | IsRoot(m, r) && PageOk(pg) && r != op.r ensures PageKept(m, m', r, pg) {
      ExitView(m, m', held, op.r, r, pg);
    }
  }

  lemma ExitView(m: Mem, m': Mem, held: multiset<Frame>, gone: Frame, r: Frame, pg: Page)
    requires Inv(m, held) && RootFreed(m, m', gone) && IsRoot(m, r) && PageOk(pg) && r != gone
    ensures IsRoot(m', r) && Lookup(m', r, pg) == Lookup(m, r, pg) && Content(m', r, pg) == Content(m, r, pg)
  {
    assert NodeOk(m, r);
    if Entry(m, r, pg.i2).valid {
      assert ChildOk(m, r, pg.i2);
      var t1 := Entry(m, r, pg.i2).frame;
      if Entry(m, t1, pg.i1).valid { assert ChildOk(m, t1, pg.i1); }
    }
    if Lookup(m, r, pg).valid { MappedLeaf(m, held, r, pg); }
  }

  /** Every operation keeps the invariant and every page it does not touch. */
  lemma StepKeeps(m: Mem, held: multiset<Frame>, op: Op)
    requires Inv(m, held)
    ensures Inv(Step(m, op), held) && Untouched(m, Step(m, op), op)
  {
    if Enabled(m, op) {
      match op
      case ForkOp(_) => ForkUntouched(m, held, op);
      case StoreOp(_, _, _, _) => StoreUntouched(m, held, op);
      case CowOp(_, _) => CowUntouched(m, held, op);
      case LazyOp(_, _, _, _) => LazyUntouched(m, held, op);
      case UnmapOp(_, _, _) => UnmapUntouched(m, held, op);
      case ExitOp(_) => ExitUntouched(m, held, op);
    }
  }

  /** In every state reached by any run, reference counts are exact, the free list holds no
      duplicate and no mapped frame, tables are trees and shared frames are not writable. */
  lemma {:induction false} RunKeeps(m: Mem, held: multiset<Frame>, ops: seq<Op>)
    requires Inv(m, held)
    ensures Inv(Run(m, ops), held)
    decreases |ops|
  {
    if ops != [] {
      StepKeeps(m, held, ops[0]);
      RunKeeps(Step(m, ops[0]), held, ops[1..]);
    }
  }

  /** A page no operation of the run touches reads the same at the end, and stays read-only if it
      was, whatever other address spaces did: forked, faulted, stored, unmapped or exited. */
  lemma {:induction false} RunIsolates(m: Mem, held: multiset<Frame>, ops: seq<Op>, r: Frame, pg: Page)
    requires Inv(m, held) && IsRoot(m, r) && PageOk(pg)
    requires forall op | op in ops :: !Touches(op, r, pg)
    ensures PageKept(m, Run(m, ops), r, pg)
    decreases |ops|
  {
    if ops != [] {
      var m1 := Step(m, ops[0]);
      StepKeeps(m, held, ops[0]);
      assert ops[0] in ops && PageKept(m, m1, r, pg);
      assert forall op | op in ops[1..] :: op in ops;
      RunIsolates(m1, held, ops[1..], r, pg);
    }
  }

  /** Fork isolation: after a successful fork and any run in which one of the two address spaces
      does not touch a page, that address space still reads what the parent had at the fork. */
  lemma ForkIsolation(m: Mem, held: multiset<Frame>, src: Frame, ops: seq<Op>, who: Frame, pg: Page)
    requires Inv(m, held) && IsRoot(m, src) && m.free != [] && Fork(m, src).1
    requires who == src || who == Head(m)
    requires InRange(pg, 0, USER_PAGES) && forall op | op in ops :: !Touches(op, who, pg)
    ensures Content(Run(Fork(m, src).0, ops), who, pg) == Content(m, src, pg)
  {
    ForkKeeps(m, held, src);
    RunIsolates(Fork(m, src).0, held, ops, who, pg);
  }
}
