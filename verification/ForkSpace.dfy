/** How much memory a fork needs: one frame per table the child has to get.  Fork succeeds exactly when there are
    that many free frames, and otherwise stops at the first page whose tables no longer fit. */
module ForkSpace {
  import opened Counting
  import opened Frames
  import opened PageTables
  import opened Cow
  import opened TableFree
  import opened AddressSpaces

  // ----- the tables on the way to a page -----

  /** A directory or leaf table of an address space, by its place. */
  datatype Place = Dir(i2: nat) | Tab(i2: nat, i1: nat)

  function PathOf(pg: Page): set<Place> {
    {Dir(pg.i2), Tab(pg.i2, pg.i1)}
  }

  predicate PlaceOk(pl: Place) {
    pl.i2 < ENTRIES && (pl.Tab? ==> pl.i1 < ENTRIES)
  }

  predicate Has(m: Mem, r: Frame, pl: Place) {
    match pl
    case Dir(i2) => Entry(m, r, i2).valid
    case Tab(i2, i1) => LeafTable(m, r, Page(i2, i1, 0)).Some?
  }

  /** The places in `w` that have no table yet. */
  ghost function Missing(m: Mem, r: Frame, w: set<Place>): set<Place> {
    set pl | pl in w && !Has(m, r, pl)
  }

  ghost predicate AllOk(w: set<Place>) {
    forall pl | pl in w :: PlaceOk(pl)
  }

  /** The tables the mapped pages of [n, hi) hang on. */
  ghost function Wants(m: Mem, src: Frame, n: nat, hi: nat): set<Place>
    decreases hi - n, |m.free|
  {
    if n >= hi then {}
    else (if MappedAt(m, src, n) then PathOf(PageAt(n)) else {}) + Wants(m, src, n + 1, hi)
  }

  lemma {:induction false} WantsOk(m: Mem, src: Frame, n: nat, hi: nat)
    requires hi <= ALL_PAGES
    ensures AllOk(Wants(m, src, n, hi))
    decreases hi - n
  {
    if n < hi {
      PageNum(n);
      WantsOk(m, src, n + 1, hi);
    }
  }

  /** In words: a table is wanted exactly when some mapped page in the range hangs on it. */
  lemma {:induction false} WantsIs(m: Mem, src: Frame, n: nat, hi: nat, pl: Place)
    requires hi <= ALL_PAGES
    ensures pl in Wants(m, src, n, hi) <==>
      exists pg :: InRange(pg, n, hi) && Lookup(m, src, pg).valid && pl in PathOf(pg)
    decreases hi - n
  {
    if n < hi {
      PageNum(n);
      WantsIs(m, src, n + 1, hi, pl);
      if pl in Wants(m, src, n, hi) {
        if pl in Wants(m, src, n + 1, hi) {
          var pg :| InRange(pg, n + 1, hi) && Lookup(m, src, pg).valid && pl in PathOf(pg);
          assert InRange(pg, n, hi);
        } else {
          assert InRange(PageAt(n), n, hi);
        }
      }
      forall pg | InRange(pg, n, hi) && Lookup(m, src, pg).valid && pl in PathOf(pg)
        ensures pl in Wants(m, src, n, hi)
      {
        if NumOf(pg) == n { NumInjective(pg, PageAt(n)); } else { assert InRange(pg, n + 1, hi); }
      }
    }
  }

  /** The same pages mapped want the same tables. */
  lemma {:induction false} WantsSame(m: Mem, m': Mem, src: Frame, n: nat, hi: nat)
    requires hi <= ALL_PAGES && forall pg | InRange(pg, n, hi) :: Lookup(m', src, pg).valid == Lookup(m, src, pg).valid
    ensures Wants(m', src, n, hi) == Wants(m, src, n, hi)
    decreases hi - n
  {
    if n < hi {
      PageNum(n);
      assert InRange(PageAt(n), n, hi);
      forall pg | InRange(pg, n + 1, hi)
        ensures Lookup(m', src, pg).valid == Lookup(m, src, pg).valid
      {
        assert InRange(pg, n, hi);
      }
      WantsSame(m, m', src, n + 1, hi);
    }
  }

  // ----- one new table -----

  ghost predicate SamePlaces(m: Mem, m': Mem, r: Frame, more: set<Place>) {
    forall pl {:trigger Has(m', r, pl)} | PlaceOk(pl) :: Has(m', r, pl) <==> Has(m, r, pl) || pl in more
  }

  lemma NewDir(m: Mem, held: multiset<Frame>, r: Frame, i2: nat)
    requires Inv(m, held) && IsRoot(m, r) && i2 < ENTRIES && m.free != [] && !Entry(m, r, i2).valid
    ensures SamePlaces(m, NewTable(m, r, i2), r, {Dir(i2)}) && |NewTable(m, r, i2).free| == |m.free| - 1
  {
    var m' := NewTable(m, r, i2);
    TableInRange(m, r);
    NewTableEntries(m, r, i2);
    forall pl | PlaceOk(pl) ensures Has(m', r, pl) <==> Has(m, r, pl) || pl in {Dir(i2)} {
      if pl.Tab? && Entry(m, r, pl.i2).valid {
        assert ChildOk(m, r, pl.i2);
        TableInRange(m, Entry(m, r, pl.i2).frame);
      }
    }
  }

  lemma NewTab(m: Mem, held: multiset<Frame>, r: Frame, i2: nat, i1: nat)
    requires Inv(m, held) && IsRoot(m, r) && i2 < ENTRIES && i1 < ENTRIES && m.free != []
    requires Entry(m, r, i2).valid && !Entry(m, Entry(m, r, i2).frame, i1).valid
    ensures var m' := NewTable(m, Entry(m, r, i2).frame, i1);
      SamePlaces(m, m', r, {Tab(i2, i1)}) && |m'.free| == |m.free| - 1
  {
    var t := Entry(m, r, i2).frame;
    var m' := NewTable(m, t, i1);
    assert ChildOk(m, r, i2);
    TableInRange(m, r);
    NewTableEntries(m, t, i1);
    forall pl | PlaceOk(pl) ensures Has(m', r, pl) <==> Has(m, r, pl) || pl in {Tab(i2, i1)} {
      if Entry(m, r, pl.i2).valid {
        assert ChildOk(m, r, pl.i2);
        TableInRange(m, Entry(m, r, pl.i2).frame);
      }
    }
  }

  /** `walk` with allocation succeeds exactly when the free frames cover the missing tables; it then uses exactly
      that many and leaves exactly the path complete. */
  lemma WalkNeed(m: Mem, held: multiset<Frame>, r: Frame, pg: Page)
    requires Inv(m, held) && IsRoot(m, r) && PageOk(pg)
    ensures var (m', t) := WalkAlloc(m, r, pg); var k := |Missing(m, r, PathOf(pg))|;
      && (t.Some? <==> k <= |m.free|)
      && (t.Some? ==> |m'.free| == |m.free| - k && SamePlaces(m, m', r, PathOf(pg)))
  {
    var d, l := Dir(pg.i2), Tab(pg.i2, pg.i1);
    var miss := Missing(m, r, PathOf(pg));
    if !Has(m, r, d) {
      assert miss == {d, l};
      if m.free != [] {
        NewDir(m, held, r, pg.i2);
        NewTableEntries(m, r, pg.i2);
        NewTableKeeps(m, held, r, pg.i2);
        NewTableView(m, r, pg.i2);
        var m1 := NewTable(m, r, pg.i2);
        if m1.free != [] { NewTab(m1, held, r, pg.i2, pg.i1); }
      }
    } else if !Has(m, r, l) {
      assert miss == {l};
      if m.free != [] { NewTab(m, held, r, pg.i2, pg.i1); }
    } else {
      assert miss == {};
    }
  }

  /** Leaf entries are no tables. */
  lemma LeafPlaces(m: Mem, held: multiset<Frame>, t: Frame, i: nat, p: Pte, r: Frame)
    requires Inv(m, held) && IsLeafTable(m, t) && i < ENTRIES && IsRoot(m, r)
    ensures SamePlaces(m, SetEntry(m, t, i, p), r, {})
  {
    var m' := SetEntry(m, t, i, p);
    TableInRange(m, t);
    SetLeafRefs(m, t, i, p);
    forall pl | PlaceOk(pl) ensures Has(m', r, pl) <==> Has(m, r, pl) {
      if Entry(m, r, pl.i2).valid { assert ChildOk(m, r, pl.i2); }
    }
  }

  /** Mapping a page needs exactly the missing tables of its path. */
  lemma MapNeed(m: Mem, held: multiset<Frame>, r: Frame, pg: Page, f: Frame, perm: Pte)
    requires Inv(m, held) && IsRoot(m, r) && PageOk(pg) && !Lookup(m, r, pg).valid
    ensures var (m', res) := MapPage(m, r, pg, f, perm); var k := |Missing(m, r, PathOf(pg))|;
      && (res == Mapped <==> k <= |m.free|)
      && (res == Mapped ==> |m'.free| == |m.free| - k && SamePlaces(m, m', r, PathOf(pg)))
  {
    WalkNeed(m, held, r, pg);
    WalkGrows(m, held, r, pg);
    var (m1, t) := WalkAlloc(m, r, pg);
    if t.Some? {
      assert Lookup(m1, r, pg) == Lookup(m, r, pg);
      LeafPlaces(m1, held, t.value, pg.i0, LeafPte(f, perm), r);
    }
  }

  lemma MissingSame(m: Mem, m': Mem, r: Frame, w: set<Place>)
    requires SamePlaces(m, m', r, {}) && AllOk(w)
    ensures Missing(m', r, w) == Missing(m, r, w)
  {
  }

  lemma MarkPlaces(m: Mem, held: multiset<Frame>, src: Frame, pg: Page, r: Frame)
    requires Inv(m, held) && IsRoot(m, src) && IsRoot(m, r) && PageOk(pg) && Lookup(m, src, pg).valid
    ensures SamePlaces(m, Mark(m, src, pg), r, {}) && Mark(m, src, pg).free == m.free
  {
    var p := Lookup(m, src, pg);
    MappedLeaf(m, held, src, pg);
    var t := LeafTable(m, src, pg).value;
    LeafPlaces(m, held, t, pg.i0, Marked(p), r);
    var m1 := SetEntry(m, t, pg.i0, Marked(p));
    forall pl | PlaceOk(pl) ensures Has(Mark(m, src, pg), r, pl) <==> Has(m, r, pl) {
      assert Has(m1, r, pl) <==> Has(m, r, pl);
    }
  }

  lemma ShareNeed(m: Mem, held: multiset<Frame>, src: Frame, dst: Frame, pg: Page)
    requires Inv(m, held) && IsRoot(m, src) && IsRoot(m, dst) && src != dst && PageOk(pg)
    requires Lookup(m, src, pg).valid && !Lookup(m, dst, pg).valid
    ensures var (m', ok) := Share(m, src, dst, pg); var k := |Missing(m, dst, PathOf(pg))|;
      && (ok <==> k <= |m.free|)
      && (ok ==> |m'.free| == |m.free| - k && SamePlaces(m, m', dst, PathOf(pg)))
  {
    var p, m2 := Lookup(m, src, pg), Mark(m, src, pg);
    MarkKeeps(m, held, src, pg);
    MarkPlaces(m, held, src, pg, dst);
    MissingSame(m, m2, dst, PathOf(pg));
    assert Lookup(m2, dst, pg) == Lookup(m, dst, pg);
    MapNeed(m2, held + multiset{p.frame}, dst, pg, p.frame, Marked(p));
  }

  // ----- the whole copy -----

  /** Path and rest: what is missing splits into what one page takes and what is missing afterwards. */
  lemma MissingSplit(m: Mem, m': Mem, r: Frame, path: set<Place>, w: set<Place>)
    requires AllOk(path) && AllOk(w) && SamePlaces(m, m', r, path)
    ensures |Missing(m, r, path + w)| == |Missing(m, r, path)| + |Missing(m', r, w)|
  {
    var a, b := Missing(m, r, path), Missing(m', r, w);
    assert a !! b;
    assert Missing(m, r, path + w) == a + b;
  }

  lemma MissingMore(m: Mem, r: Frame, path: set<Place>, w: set<Place>)
    ensures |Missing(m, r, path)| <= |Missing(m, r, path + w)|
  {
    var a, b := Missing(m, r, path), Missing(m, r, path + w);
    assert a <= b;
    SubsetCard(a, b);
  }

  /** The frames the copy of [n, hi) still needs. */
  ghost function Need(m: Mem, src: Frame, dst: Frame, n: nat, hi: nat): nat {
    |Missing(m, dst, Wants(m, src, n, hi))|
  }

  /** One mapped page: it and the rest fit exactly when it fits and the rest fits afterwards. */
  lemma NeedStep(m: Mem, m1: Mem, src: Frame, dst: Frame, pg: Page, n: nat, hi: nat)
    requires n < hi <= ALL_PAGES && pg == PageAt(n) && Lookup(m, src, pg).valid && PageOk(pg)
    requires SamePlaces(m, m1, dst, PathOf(pg)) && Wants(m1, src, n + 1, hi) == Wants(m, src, n + 1, hi)
    ensures Need(m, src, dst, n, hi) == |Missing(m, dst, PathOf(pg))| + Need(m1, src, dst, n + 1, hi)
  {
    WantsOk(m, src, n + 1, hi);
    MissingSplit(m, m1, dst, PathOf(pg), Wants(m, src, n + 1, hi));
  }

  lemma SharedWants(m: Mem, m1: Mem, src: Frame, dst: Frame, pg: Page, n: nat, hi: nat)
    requires Shared(m, m1, src, dst, pg) && IsRoot(m, src) && hi <= ALL_PAGES
    ensures Wants(m1, src, n, hi) == Wants(m, src, n, hi)
  {
    WantsSame(m, m1, src, n, hi);
  }

  /** The copy succeeds exactly when the free frames cover the tables it needs. */
  lemma {:induction false} CopyNeed(m: Mem, held: multiset<Frame>, src: Frame, dst: Frame, n: nat, hi: nat)
    requires Inv(m, held) && IsRoot(m, src) && IsRoot(m, dst) && src != dst && n <= hi <= ALL_PAGES
    requires forall pg | InRange(pg, n, hi) :: Lookup(m, dst, pg) == NoPte
    ensures CopyFrom(m, src, dst, n, hi).1 <==> Need(m, src, dst, n, hi) <= |m.free|
    decreases hi - n, 1
  {
    if n == hi {
      assert Missing(m, dst, Wants(m, src, n, hi)) == {};
    } else {
      PageNum(n);
      var pg := PageAt(n);
      assert InRange(pg, n, hi);
      if !Lookup(m, src, pg).valid {
        CopyNeed(m, held, src, dst, n + 1, hi);
        assert Wants(m, src, n, hi) == Wants(m, src, n + 1, hi);
      } else {
        ShareKeeps(m, held, src, dst, pg);
        ShareNeed(m, held, src, dst, pg);
        var (m1, ok1) := Share(m, src, dst, pg);
        if ok1 {
          SharedNext(m, m1, src, dst, pg, n, hi);
          SharedWants(m, m1, src, dst, pg, n + 1, hi);
          NeedStep(m, m1, src, dst, pg, n, hi);
          NeedRest(m1, held, src, dst, n + 1, hi, CopyFrom(m, src, dst, n, hi).1);
        } else {
          MissingMore(m, dst, PathOf(pg), Wants(m, src, n + 1, hi));
        }
      }
    }
  }

  lemma {:induction false} NeedRest(m: Mem, held: multiset<Frame>, src: Frame, dst: Frame, n: nat, hi: nat, ok: bool)
    requires Inv(m, held) && IsRoot(m, src) && IsRoot(m, dst) && src != dst && n <= hi <= ALL_PAGES
    requires forall pg | InRange(pg, n, hi) :: Lookup(m, dst, pg) == NoPte
    requires ok == CopyFrom(m, src, dst, n, hi).1
    ensures ok <==> Need(m, src, dst, n, hi) <= |m.free|
    decreases hi - n, 2
  {
    CopyNeed(m, held, src, dst, n, hi);
  }

  /** Up to the stop the copy goes through. */
  lemma {:induction false} StopGoes(m: Mem, src: Frame, dst: Frame, n: nat, hi: nat, stop: nat)
    requires n <= hi && stop == StopAt(m, src, dst, n, hi)
    ensures n <= stop <= hi && CopyFrom(m, src, dst, n, stop).1
    decreases hi - n
  {
    if n < hi {
      if !Lookup(m, src, PageAt(n)).valid {
        StopGoes(m, src, dst, n + 1, hi, stop);
      } else {
        var (m1, ok) := Share(m, src, dst, PageAt(n));
        StopShared(m, src, dst, n, hi, m1, ok);
        if ok {
          StopGoes(m1, src, dst, n + 1, hi, stop);
          GoesShared(m, src, dst, n, stop, m1);
        }
      }
    }
  }

  lemma StopShared(m: Mem, src: Frame, dst: Frame, n: nat, hi: nat, m1: Mem, ok: bool)
    requires n < hi && Lookup(m, src, PageAt(n)).valid && Share(m, src, dst, PageAt(n)) == (m1, ok)
    ensures StopAt(m, src, dst, n, hi) == if ok then StopAt(m1, src, dst, n + 1, hi) else n
  {
  }

  lemma GoesShared(m: Mem, src: Frame, dst: Frame, n: nat, stop: nat, m1: Mem)
    requires n < stop && Lookup(m, src, PageAt(n)).valid && Share(m, src, dst, PageAt(n)) == (m1, true)
    requires CopyFrom(m1, src, dst, n + 1, stop).1
    ensures CopyFrom(m, src, dst, n, stop).1
  {
  }

  /** One page further it does not. */
  lemma {:induction false} StopEnds(m: Mem, src: Frame, dst: Frame, n: nat, hi: nat, stop: nat)
    requires n <= stop < hi && stop == StopAt(m, src, dst, n, hi)
    ensures !CopyFrom(m, src, dst, n, stop + 1).1
    decreases hi - n
  {
    if !Lookup(m, src, PageAt(n)).valid {
      StopGoes(m, src, dst, n + 1, hi, stop);
      StopEnds(m, src, dst, n + 1, hi, stop);
    } else {
      var (m1, ok) := Share(m, src, dst, PageAt(n));
      if ok {
        StopGoes(m1, src, dst, n + 1, hi, stop);
        StopEnds(m1, src, dst, n + 1, hi, stop);
      }
    }
  }

  lemma StopPrefix(m: Mem, src: Frame, dst: Frame, n: nat, hi: nat)
    requires n <= hi
    ensures var stop := StopAt(m, src, dst, n, hi);
      && n <= stop <= hi && CopyFrom(m, src, dst, n, stop).1
      && (stop < hi ==> !CopyFrom(m, src, dst, n, stop + 1).1)
  {
    var stop := StopAt(m, src, dst, n, hi);
    StopGoes(m, src, dst, n, hi, stop);
    if stop < hi { StopEnds(m, src, dst, n, hi, stop); }
  }

  // ----- fork -----

  /** A root, and the directories and leaf tables of the mapped user pages. */
  ghost function ForkNeeds(m: Mem, src: Frame, hi: nat): nat {
    1 + |Wants(m, src, 0, hi)|
  }

  lemma RootNeed(m: Mem, held: multiset<Frame>, src: Frame, hi: nat)
    requires Inv(m, held) && IsRoot(m, src) && m.free != [] && hi <= ALL_PAGES
    ensures 1 + Need(NewRoot(m), src, Head(m), 0, hi) == ForkNeeds(m, src, hi) && |NewRoot(m).free| == |m.free| - 1
  {
    var m1, dst := NewRoot(m), Head(m);
    NewRootKeeps(m, held);
    NewRootTree(m, held);
    WantsSame(m, m1, src, 0, hi);
    WantsOk(m, src, 0, hi);
    assert Missing(m1, dst, Wants(m1, src, 0, hi)) == Wants(m, src, 0, hi);
  }

  lemma CopyFits(m: Mem, held: multiset<Frame>, src: Frame, hi: nat)
    requires Inv(m, held) && IsRoot(m, src) && m.free != [] && hi <= ALL_PAGES
    ensures CopyFrom(NewRoot(m), src, Head(m), 0, hi).1 <==> ForkNeeds(m, src, hi) <= |m.free|
  {
    NewRootKeeps(m, held);
    RootNeed(m, held, src, hi);
    CopyNeed(NewRoot(m), held, src, Head(m), 0, hi);
  }

  /** Fork succeeds exactly when the free frames cover a root and the tables of the mapped user pages. */
  lemma ForkExact(m: Mem, held: multiset<Frame>, src: Frame)
    requires Inv(m, held) && IsRoot(m, src)
    ensures (m.free != [] && Fork(m, src).1) <==> ForkNeeds(m, src, USER_PAGES) <= |m.free|
  {
    if m.free != [] { CopyFits(m, held, src, USER_PAGES); }
  }

  lemma StopBelow(m: Mem, held: multiset<Frame>, src: Frame)
    requires Inv(m, held) && IsRoot(m, src) && m.free != [] && !Fork(m, src).1
    ensures ForkStop(m, src) < USER_PAGES
  {
    ForkKeeps(m, held, src);
  }

  /** A failed fork stops at the first user page whose tables no longer fit. */
  lemma StopExact(m: Mem, held: multiset<Frame>, src: Frame)
    requires Inv(m, held) && IsRoot(m, src) && m.free != [] && !Fork(m, src).1
    ensures var stop := ForkStop(m, src);
      stop < USER_PAGES && ForkNeeds(m, src, stop) <= |m.free| < ForkNeeds(m, src, stop + 1)
  {
    StopBelow(m, held, src);
    var stop := ForkStop(m, src);
    StopPrefix(NewRoot(m), src, Head(m), 0, USER_PAGES);
    CopyFits(m, held, src, stop);
    CopyFits(m, held, src, stop + 1);
  }

  // ----- mapping on demand -----

  /** A page is mapped on demand exactly when a frame is free for it and for each missing table. */
  lemma LazyNeed(m: Mem, held: multiset<Frame>, r: Frame, pg: Page, perm: Pte, bytes: seq<Byte>)
    requires Inv(m, held) && IsRoot(m, r) && PageOk(pg) && !Lookup(m, r, pg).valid && |bytes| == PGSIZE
    ensures var (m', ok) := LazyMap(m, r, pg, perm, bytes); var k := |Missing(m, r, PathOf(pg))|;
      && (ok <==> 1 + k <= |m.free|)
      && (ok ==> |m'.free| == |m.free| - 1 - k && SamePlaces(m, m', r, PathOf(pg)))
  {
    if m.free != [] {
      var m1 := SetPage(Kalloc(m), Head(m), bytes);
      KallocPage(m, held, bytes);
      assert IsRoot(m1, r) && Lookup(m1, r, pg) == Lookup(m, r, pg);
      FreshPlaces(m, m1, held, r);
      MissingSame(m, m1, r, PathOf(pg));
      MapNeed(m1, held + multiset{Head(m)}, r, pg, Head(m), perm);
      var (m2, res) := MapPage(m1, r, pg, Head(m), perm);
      if res == Mapped {
        forall pl | PlaceOk(pl) ensures Has(m2, r, pl) <==> Has(m, r, pl) || pl in PathOf(pg) {
          assert Has(m1, r, pl) <==> Has(m, r, pl);
        }
      }
    }
  }

  lemma FreshPlaces(m: Mem, m1: Mem, held: multiset<Frame>, r: Frame)
    requires Inv(m, held) && SameTables(m, m1) && IsRoot(m, r)
    ensures SamePlaces(m, m1, r, {})
  {
    forall pl | PlaceOk(pl) ensures Has(m1, r, pl) <==> Has(m, r, pl) {
      assert r in m.nodes;
      if Entry(m, r, pl.i2).valid { assert ChildOk(m, r, pl.i2); }
    }
  }
}
