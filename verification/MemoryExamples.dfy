/** Runs at which a failed fork changes the parent and `freewalk` loses a page. */
module MemoryExamples {
  import opened Counting
  import opened Frames
  import opened PageTables
  import opened Cow
  import opened TableFree
  import opened AddressSpaces
  import opened ForkSpace

  const WRITABLE: Pte := Pte(true, 0, true, true, false, true, false, false)

  /** Two writable pages under different directories, with three frames left. */
  ghost predicate TwoPages(m: Mem, r: Frame) {
    && Inv(m, multiset{}) && IsRoot(m, r) && |m.free| == 3
    && Lookup(m, r, Page(0, 0, 0)).valid && Lookup(m, r, Page(0, 0, 0)).w && Lookup(m, r, Page(1, 0, 0)).valid
  }

  function Demand(r: Frame, i2: nat): Op {
    LazyOp(r, Page(i2, 0, 0), WRITABLE, ZeroPage())
  }

  lemma LazyStep(m: Mem, r: Frame, i2: nat)
    requires Inv(m, multiset{}) && IsRoot(m, r) && i2 < ENTRIES && |m.free| >= 3 && !Has(m, r, Dir(i2))
    ensures var m' := Step(m, Demand(r, i2));
      && Inv(m', multiset{}) && IsRoot(m', r) && |m'.free| == |m.free| - 3
      && SamePlaces(m, m', r, PathOf(Page(i2, 0, 0)))
      && Rewritten(m, m', r, Page(i2, 0, 0), LeafPte(Head(m), WRITABLE))
  {
    var pg := Page(i2, 0, 0);
    assert Missing(m, r, PathOf(pg)) == {Dir(i2), Tab(i2, 0)};
    LazyNeed(m, multiset{}, r, pg, WRITABLE, ZeroPage());
    LazyMapKeeps(m, multiset{}, r, pg, WRITABLE, ZeroPage());
  }

  /** With ten frames: a root and two pages take seven. */
  lemma TwoPagesRun() returns (m: Mem, r: Frame)
    ensures var m0 := Boot(NFRAMES - 10); r == Head(m0) && m == Run(NewRoot(m0), [Demand(r, 0), Demand(r, 1)])
    ensures TwoPages(m, r)
  {
    var m0 := Boot(NFRAMES - 10);
    BootOk(NFRAMES - 10);
    r := Head(m0);
    var m1 := NewRoot(m0);
    NewRootKeeps(m0, multiset{});
    NewRootTree(m0, multiset{});
    LazyStep(m1, r, 0);
    var m2 := Step(m1, Demand(r, 0));
    assert Has(m2, r, Dir(1)) <==> Has(m1, r, Dir(1)) || Dir(1) in PathOf(Page(0, 0, 0));
    LazyStep(m2, r, 1);
    m := Step(m2, Demand(r, 1));
    var a, b := Demand(r, 0), Demand(r, 1);
    assert [a, b][1..] == [b] && [b][1..] == [];
    assert Run(m2, [b]) == Run(m, []);
  }

  lemma TwoPagesNeed(m: Mem, r: Frame)
    requires TwoPages(m, r)
    ensures ForkNeeds(m, r, USER_PAGES) >= 5 && ForkNeeds(m, r, 1) == 3
  {
    var w := {Dir(0), Tab(0, 0), Dir(1), Tab(1, 0)};
    forall pl | pl in w ensures pl in Wants(m, r, 0, USER_PAGES) {
      WantsIs(m, r, 0, USER_PAGES, pl);
      assert InRange(Page(pl.i2, 0, 0), 0, USER_PAGES) && pl in PathOf(Page(pl.i2, 0, 0));
    }
    SubsetCard(w, Wants(m, r, 0, USER_PAGES));
    assert PageAt(0) == Page(0, 0, 0);
    assert Wants(m, r, 0, 1) == {Dir(0), Tab(0, 0)};
  }

  lemma TwoPagesFork(m: Mem, r: Frame)
    requires TwoPages(m, r)
    ensures m.free != [] && !Fork(m, r).1
    ensures InRange(Page(0, 0, 0), 0, ForkStop(m, r)) && MarksLeft(m, Fork(m, r).0, r, ForkStop(m, r))
  {
    TwoPagesNeed(m, r);
    ForkExact(m, multiset{}, r);
    StopExact(m, multiset{}, r);
    ForkKeeps(m, multiset{}, r);
  }

  /** A failed fork that changes the parent: the first page was writable and is copy-on-write afterwards. */
  lemma ForkLeavesMark() returns (m: Mem, r: Frame)
    ensures var m0 := Boot(NFRAMES - 10); r == Head(m0) && m == Run(NewRoot(m0), [Demand(r, 0), Demand(r, 1)])
    ensures Inv(m, multiset{}) && IsRoot(m, r) && m.free != [] && !Fork(m, r).1
    ensures var pg := Page(0, 0, 0);
      Lookup(m, r, pg).w && !Lookup(Fork(m, r).0, r, pg).w && Lookup(Fork(m, r).0, r, pg).cow
  {
    m, r := TwoPagesRun();
    TwoPagesFork(m, r);
  }

  /** `freewalk` on an address space that still maps a page: the counts are wrong afterwards. */
  lemma FreeWalkLosesPage() returns (m: Mem, r: Frame)
    ensures var m0 := Boot(NFRAMES - 10); r == Head(m0) && m == Run(NewRoot(m0), [Demand(r, 0), Demand(r, 1)])
    ensures Inv(m, multiset{}) && IsRoot(m, r) && !Counts(FreeWalk(m, r, 2), multiset{})
  {
    m, r := TwoPagesRun();
    var pg := Page(0, 0, 0);
    MappedLeaf(m, multiset{}, r, pg);
    WalkNode(m, r, pg);
    assert IsLeaf(m, LeafTable(m, r, pg).value, 0);
    FreeWalkExact(m, multiset{}, r, 2);
  }
}
