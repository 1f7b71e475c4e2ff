/** Writing after a fork: sharing takes the right to write in place, and never the right to write at all. */
module ForkWrites {
  import opened Frames
  import opened PageTables
  import opened Cow
  import opened TableFree
  import opened AddressSpaces

  /** After a successful fork both address spaces have every user page with its frame and rights, without the right to
      write in place, and copy-on-write exactly where the parent could write or already was to copy. */
  lemma ForkFields(m: Mem, held: multiset<Frame>, src: Frame, pg: Page)
    requires Inv(m, held) && IsRoot(m, src) && m.free != [] && Fork(m, src).1 && InRange(pg, 0, USER_PAGES)
    ensures var m' := Fork(m, src).0;
      && Downgraded(Lookup(m, src, pg), Lookup(m', src, pg))
      && Downgraded(Lookup(m, src, pg), Lookup(m', Head(m), pg))
  {
    ForkKeeps(m, held, src);
    assert Lookup(Fork(m, src).0, src, pg) == Lookup(Fork(m, src).0, Head(m), pg);
  }

  /** After a failed fork the parent's pages before the stop are left so, and no others. */
  lemma FailedForkFields(m: Mem, held: multiset<Frame>, src: Frame, pg: Page)
    requires Inv(m, held) && IsRoot(m, src) && m.free != [] && !Fork(m, src).1 && PageOk(pg)
    ensures var m' := Fork(m, src).0;
      if InRange(pg, 0, ForkStop(m, src)) then Downgraded(Lookup(m, src, pg), Lookup(m', src, pg))
      else Lookup(m', src, pg) == Lookup(m, src, pg)
  {
    ForkKeeps(m, held, src);
    MarkedFields(m, held, src, pg);
  }

  /** A user may write the page, at once or after a fault. */
  ghost predicate MayWrite(p: Pte) {
    p.valid && p.user && (p.w || p.cow)
  }

  /** Memory once the fault a write meets, if any, is resolved. */
  function Resolved(m: Mem, r: Frame, pg: Page): Mem {
    if Lookup(m, r, pg).w then m else CowFault(m, r, pg).0
  }

  /** A write goes through whenever the page may be written and a frame is free, or none is needed; no byte of any
      address space changes before it. */
  lemma WriteResolves(m: Mem, held: multiset<Frame>, r: Frame, pg: Page)
    requires Inv(m, held) && IsRoot(m, r) && PageOk(pg) && MayWrite(Lookup(m, r, pg))
    requires m.free != [] || Lookup(m, r, pg).w
    ensures var m' := Resolved(m, r, pg);
      && Inv(m', held) && IsRoot(m', r) && CanStore(m', r, pg) && SameContent(m, m')
      && (!Lookup(m, r, pg).w ==> CowFault(m, r, pg).1)
  {
    MappedLeaf(m, held, r, pg);
    CowFaultKeeps(m, held, r, pg);
  }

  /** A page the parent could write before a fork can be written in either space afterwards, with a frame free, and is
      then read as it was with the new bytes in it; the other space keeps what the parent had. */
  lemma ForkThenWrite(m: Mem, held: multiset<Frame>, src: Frame, who: Frame, other: Frame, pg: Page, off: nat,
      bytes: seq<Byte>)
    requires Inv(m, held) && IsRoot(m, src) && m.free != [] && Fork(m, src).1 && InRange(pg, 0, USER_PAGES)
    requires {who, other} == {src, Head(m)} && MayWrite(Lookup(m, src, pg)) && Fork(m, src).0.free != []
    ensures var m1 := Fork(m, src).0; var m2 := Resolved(m1, who, pg); var m3 := StoreBytes(m2, who, pg, off, bytes);
      && CanStore(m2, who, pg) && Content(m2, who, pg) == Content(m, src, pg) && Content(m, src, pg).Some?
      && Content(m3, who, pg) == Some(Patch(Content(m, src, pg).value, off, bytes))
      && Content(m3, other, pg) == Content(m, src, pg)
  {
    ForkKeeps(m, held, src);
    ForkFields(m, held, src, pg);
    var m1 := Fork(m, src).0;
    assert who in {src, Head(m)} && other in {src, Head(m)} && who != other by {
      assert src in {who, other} && Head(m) in {who, other};
    }
    WriteResolves(m1, held, who, pg);
    StoreKeeps(Resolved(m1, who, pg), held, who, pg, off, bytes);
  }

  // ----- over runs -----

  /** The operations that take a page away from its address space. */
  ghost predicate Removes(op: Op, r: Frame, pg: Page) {
    (op.UnmapOp? && op.r == r && InRange(pg, op.lo, op.hi)) || (op.ExitOp? && op.r == r)
  }

  lemma ForkWritable(m: Mem, held: multiset<Frame>, src: Frame, r: Frame, pg: Page)
    requires Inv(m, held) && IsRoot(m, src) && m.free != [] && IsRoot(m, r) && PageOk(pg)
    ensures MayWrite(Lookup(Fork(m, src).0, r, pg)) <==> MayWrite(Lookup(m, r, pg))
  {
    ForkKeeps(m, held, src);
    MarkedFields(m, held, src, pg);
    if Fork(m, src).1 && r == src && !InRange(pg, 0, USER_PAGES) { ForkHigh(m, held, src, pg); }
  }

  /** No operation but one that removes the page takes or gives the right to write it. */
  lemma StepWritable(m: Mem, held: multiset<Frame>, op: Op, r: Frame, pg: Page)
    requires Inv(m, held) && IsRoot(m, r) && PageOk(pg) && Lookup(m, r, pg).valid && !Removes(op, r, pg)
    ensures var m' := Step(m, op);
      IsRoot(m', r) && Lookup(m', r, pg).valid && (MayWrite(Lookup(m', r, pg)) <==> MayWrite(Lookup(m, r, pg)))
  {
    if Enabled(m, op) {
      match op
      case ForkOp(src) =>
        ForkKeeps(m, held, src);
        ForkWritable(m, held, src, r, pg);
        MarkedFields(m, held, src, pg);
        if Fork(m, src).1 && r == src && !InRange(pg, 0, USER_PAGES) { ForkHigh(m, held, src, pg); }
      case StoreOp(r', pg', off, bytes) => StoreKeeps(m, held, r', pg', off, bytes);
      case CowOp(r', pg') => CowFaultKeeps(m, held, r', pg');
      case LazyOp(r', pg', perm, bytes) => LazyMapKeeps(m, held, r', pg', perm, bytes);
      case UnmapOp(r', lo, hi) => DropKeeps(m, held, r', lo, hi);
      case ExitOp(r') =>
        FreeWalkKeeps(m, held, r', RootLevel(m, r'));
        ExitView(m, Step(m, op), held, r', r, pg);
    }
  }

  /** Over every run that does not remove the page, whatever forks and faults happen in any address space. */
  lemma {:induction false} RunWritable(m: Mem, held: multiset<Frame>, ops: seq<Op>, r: Frame, pg: Page)
    requires Inv(m, held) && IsRoot(m, r) && PageOk(pg) && Lookup(m, r, pg).valid
    requires forall op | op in ops :: !Removes(op, r, pg)
    ensures var m' := Run(m, ops);
      && Inv(m', held) && IsRoot(m', r) && Lookup(m', r, pg).valid
      && (MayWrite(Lookup(m', r, pg)) <==> MayWrite(Lookup(m, r, pg)))
    decreases |ops|
  {
    if ops != [] {
      var m1 := Step(m, ops[0]);
      assert ops[0] in ops && forall op | op in ops[1..] :: op in ops;
      StepWritable(m, held, ops[0], r, pg);
      StepKeeps(m, held, ops[0]);
      RunWritable(m1, held, ops[1..], r, pg);
    }
  }

  /** A page the parent could write before a fork: after the fork and any run that does not remove it, either space can
      still write it whenever a frame is free. */
  lemma WriteAfterFork(m: Mem, held: multiset<Frame>, src: Frame, ops: seq<Op>, who: Frame, pg: Page)
    requires Inv(m, held) && IsRoot(m, src) && m.free != [] && Fork(m, src).1 && (who == src || who == Head(m))
    requires InRange(pg, 0, USER_PAGES) && MayWrite(Lookup(m, src, pg))
    requires forall op | op in ops :: !Removes(op, who, pg)
    ensures var m' := Run(Fork(m, src).0, ops);
      IsRoot(m', who) && (m'.free != [] || Lookup(m', who, pg).w ==> CanStore(Resolved(m', who, pg), who, pg))
  {
    ForkKeeps(m, held, src);
    ForkFields(m, held, src, pg);
    RunWritable(Fork(m, src).0, held, ops, who, pg);
    var m' := Run(Fork(m, src).0, ops);
    if m'.free != [] || Lookup(m', who, pg).w { WriteResolves(m', held, who, pg); }
  }
}
