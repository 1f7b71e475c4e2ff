/** The page-table words in physical memory over whole runs: every step of the address-space model is matched by the
    stores the kernel makes, and in every state of every run the words show the tables.  So the TLB refill handler
    grants what `Lookup` says wherever a run has come to.

    A step here says which words are stored and with what value; when it stores them follows the record step it
    matches.  Freed frames keep their words in this model: they are no tables until `kalloc` has zeroed them. */
module TlbRuns {
  import opened Frames
  import opened PageTables
  import opened PteWords
  import opened Cow
  import opened TableFree
  import AddressSpaces
  import opened TlbWalk

  /** Where the frames are: the address of every frame, and the frame at an address. */
  datatype Dram = Dram(at: seq<Addr>, places: Places)

  ghost predicate At(d: Dram, f: Frame)
    requires f < |d.at|
  {
    Holds(d.places, d.at[f].bits, f) && d.at[f].bits & PPN == d.at[f].bits
  }

  ghost predicate DramOk(d: Dram) {
    && |d.at| == NFRAMES && OneAddress(d.places)
    && forall f: Frame {:trigger At(d, f)} | f < NFRAMES :: At(d, f)
  }

  ghost predicate RowOk(tables: Tables, a: Addr) {
    a in tables && |tables[a]| == ENTRIES
  }

  /** Every frame has 512 words. */
  ghost predicate Rows(tables: Tables, d: Dram) {
    |d.at| == NFRAMES && forall f: Frame {:trigger d.at[f]} | f < NFRAMES :: RowOk(tables, d.at[f])
  }

  /** The words of the tables show their entries. */
  ghost predicate Mirrors(m: Mem, tables: Tables, d: Dram) {
    DramOk(d) && Rows(tables, d) && Shown(m, tables, d.places)
  }

  // ----- stores -----

  function ZeroWords(): (z: seq<bv64>)
    ensures |z| == ENTRIES
  {
    seq(ENTRIES, _ => 0)
  }

  /** `kalloc` zeroes the frame it hands out. */
  function Clear(tables: Tables, d: Dram, f: Frame): Tables {
    if f < |d.at| then tables[d.at[f] := ZeroWords()] else tables
  }

  function Put(tables: Tables, d: Dram, t: Frame, i: nat, w: bv64): Tables {
    if t < |d.at| then PutWord(tables, d.at[t].bits, i, w) else tables
  }

  function Get(tables: Tables, d: Dram, t: Frame, i: nat): bv64 {
    if t < |d.at| then WordAt(tables, d.at[t].bits, i) else 0
  }

  lemma GetShows(m: Mem, tables: Tables, d: Dram, t: Frame, i: nat)
    requires Mirrors(m, tables, d) && t in m.nodes && t < NFRAMES && i < ENTRIES
    ensures WordShows(Get(tables, d, t, i), Entry(m, t, i), d.places, IsLeafTable(m, t))
  {
    assert At(d, t);
    assert WordOk(m, tables, d.places, d.at[t].bits, t, i);
  }

  lemma PutRows(tables: Tables, d: Dram, t: Frame, i: nat, w: bv64)
    requires Rows(tables, d)
    ensures Rows(Put(tables, d, t, i, w), d)
  {
    var tables' := Put(tables, d, t, i, w);
    forall f: Frame | f < NFRAMES ensures RowOk(tables', d.at[f]) { assert RowOk(tables, d.at[f]); }
  }

  lemma PutMirrors(m: Mem, tables: Tables, d: Dram, t: Frame, i: nat, p: Pte, w: bv64)
    requires Shape(m) && Mirrors(m, tables, d) && t in m.nodes && t < NFRAMES && i < ENTRIES
    requires WordShows(w, p, d.places, IsLeafTable(m, t))
    ensures Mirrors(SetEntry(m, t, i, p), Put(tables, d, t, i, w), d)
  {
    assert At(d, t) && RowOk(tables, d.at[t]) && Addr(d.at[t].bits) == d.at[t];
    StoreShown(m, tables, d.places, d.at[t].bits, t, i, p, w);
    PutRows(tables, d, t, i, w);
  }

  ghost predicate KeepsTables(m: Mem, m': Mem) {
    && (forall t | t in m'.nodes :: t in m.nodes && m'.nodes[t] == m.nodes[t])
    && forall t, i {:trigger Entry(m', t, i)} | t in m'.nodes :: Entry(m', t, i) == Entry(m, t, i)
  }

  /** A step that leaves the entries of the tables, or frees tables. */
  lemma KeptMirrors(m: Mem, m': Mem, tables: Tables, d: Dram)
    requires Mirrors(m, tables, d) && KeepsTables(m, m')
    ensures Mirrors(m', tables, d)
  {
    forall pa: bv64, t: Frame, i: nat | Holds(d.places, pa, t) && t in m'.nodes && i < ENTRIES
      ensures WordOk(m', tables, d.places, pa, t, i)
    {
      assert WordOk(m, tables, d.places, pa, t, i);
      assert Entry(m', t, i) == Entry(m, t, i);
    }
  }

  lemma ClearAt(tables: Tables, d: Dram, f: Frame, pa: bv64, t: Frame, i: nat)
    requires DramOk(d) && f < NFRAMES && Holds(d.places, pa, t) && i < ENTRIES
    ensures WordAt(Clear(tables, d, f), pa, i) == if t == f then 0 else WordAt(tables, pa, i)
  {
    assert At(d, f) && Addr(d.at[f].bits) == d.at[f];
  }

  lemma ZeroShows(places: Places, leaf: bool)
    ensures WordShows(0, NoPte, places, leaf)
  {
  }

  /** A frame becomes a table with no entries. */
  lemma FreshMirrors(m: Mem, m': Mem, tables: Tables, d: Dram, f: Frame, n: Node)
    requires Mirrors(m, tables, d) && f < NFRAMES && f !in m.nodes && m'.nodes == m.nodes[f := n]
    requires forall t, i {:trigger Entry(m', t, i)} | t in m.nodes :: Entry(m', t, i) == Entry(m, t, i)
    requires forall i {:trigger Entry(m', f, i)} :: Entry(m', f, i) == NoPte
    ensures Mirrors(m', Clear(tables, d, f), d)
  {
    var tables' := Clear(tables, d, f);
    forall pa: bv64, t: Frame, i: nat | Holds(d.places, pa, t) && t in m'.nodes && i < ENTRIES
      ensures WordOk(m', tables', d.places, pa, t, i)
    {
      ClearAt(tables, d, f, pa, t, i);
      if t == f {
        assert Entry(m', f, i) == NoPte;
        ZeroShows(d.places, IsLeafTable(m', t));
      } else {
        assert WordOk(m, tables, d.places, pa, t, i);
        assert Entry(m', t, i) == Entry(m, t, i);
      }
    }
    forall g: Frame | g < NFRAMES ensures RowOk(tables', d.at[g]) { assert RowOk(tables, d.at[g]); }
  }

  // ----- creation -----

  lemma BootMirrors(base: nat, tables: Tables, d: Dram)
    requires base <= NFRAMES && DramOk(d) && Rows(tables, d)
    ensures Mirrors(AddressSpaces.Boot(base), tables, d)
  {
  }

  function RootWords(m: Mem, tables: Tables, d: Dram): Tables {
    if m.free == [] then tables else Clear(tables, d, Head(m))
  }

  lemma RootMirrors(m: Mem, held: multiset<Frame>, tables: Tables, d: Dram)
    requires Inv(m, held) && Mirrors(m, tables, d)
    ensures Mirrors(AddressSpaces.NewRoot(m), RootWords(m, tables, d), d)
  {
    if m.free != [] {
      var f := Head(m);
      assert m.free[0] == f;
      KallocKeeps(m, held);
      AddressSpaces.NewRootTree(m, held);
      FreshMirrors(m, AddressSpaces.NewRoot(m), tables, d, f, Node(2, f, f, 0));
    }
  }

  // ----- walk and mappages -----

  /** One level of `walk`: a new table is zeroed and its address stored in the directory. */
  function DescendWords(m: Mem, tables: Tables, d: Dram, t: Frame, i: nat): Tables {
    if Entry(m, t, i).valid || m.free == [] then tables
    else Put(Clear(tables, d, Head(m)), d, t, i, DirWord(if Head(m) < |d.at| then d.at[Head(m)].bits else 0))
  }

  lemma DirShows(d: Dram, f: Frame)
    requires DramOk(d) && f < NFRAMES
    ensures WordShows(DirWord(d.at[f].bits), DirPte(f), d.places, false)
  {
    assert At(d, f);
    DirWordIs(d.at[f].bits, f);
  }

  lemma DescendMirrors(m: Mem, held: multiset<Frame>, tables: Tables, d: Dram, t: Frame, i: nat)
    requires Inv(m, held) && Mirrors(m, tables, d) && t in m.nodes && m.nodes[t].level > 0 && i < ENTRIES
    ensures Mirrors(Descend(m, t, i).0, DescendWords(m, tables, d, t, i), d)
  {
    if !Entry(m, t, i).valid && m.free != [] {
      var f := Head(m);
      assert m.free[0] == f && Managed(m, f);
      NewTableEntries(m, t, i);
      KallocKeeps(m, held);
      var n := Node(m.nodes[t].level - 1, m.nodes[t].root, t, i);
      var m1 := Kalloc(m).(nodes := m.nodes[f := n]);
      assert forall j: nat :: Entry(m1, f, j) == NoPte;
      FreshMirrors(m, m1, tables, d, f, n);
      DirShows(d, f);
      PutMirrors(m1, Clear(tables, d, f), d, t, i, DirPte(f), DirWord(d.at[f].bits));
      assert NewTable(m, t, i) == SetEntry(m1, t, i, DirPte(f));
    }
  }

  function WalkWords(m: Mem, tables: Tables, d: Dram, r: Frame, pg: Page): Tables {
    var (m1, c1) := Descend(m, r, pg.i2);
    var tables1 := DescendWords(m, tables, d, r, pg.i2);
    if c1.None? then tables1 else DescendWords(m1, tables1, d, c1.value, pg.i1)
  }

  lemma WalkMirrors(m: Mem, held: multiset<Frame>, tables: Tables, d: Dram, r: Frame, pg: Page)
    requires Inv(m, held) && Mirrors(m, tables, d) && IsRoot(m, r) && PageOk(pg)
    ensures Mirrors(WalkAlloc(m, r, pg).0, WalkWords(m, tables, d, r, pg), d)
  {
    DescendGrows(m, held, r, pg.i2);
    DescendMirrors(m, held, tables, d, r, pg.i2);
    var (m1, c1) := Descend(m, r, pg.i2);
    if c1.Some? { DescendMirrors(m1, held, DescendWords(m, tables, d, r, pg.i2), d, c1.value, pg.i1); }
  }

  /** `mappages`, one page, with the word it stores. */
  function MapWords(m: Mem, tables: Tables, d: Dram, r: Frame, pg: Page, w: bv64): Tables {
    var (m1, t) := WalkAlloc(m, r, pg);
    var tables1 := WalkWords(m, tables, d, r, pg);
    if t.None? || Entry(m1, t.value, pg.i0).valid then tables1 else Put(tables1, d, t.value, pg.i0, w)
  }

  lemma MapMirrors(m: Mem, held: multiset<Frame>, tables: Tables, d: Dram, r: Frame, pg: Page, f: Frame, perm: Pte,
      w: bv64)
    requires Inv(m, held) && Mirrors(m, tables, d) && IsRoot(m, r) && PageOk(pg)
    requires WordShows(w, LeafPte(f, perm), d.places, true)
    ensures Mirrors(MapPage(m, r, pg, f, perm).0, MapWords(m, tables, d, r, pg, w), d)
  {
    WalkGrows(m, held, r, pg);
    WalkMirrors(m, held, tables, d, r, pg);
    var (m1, t) := WalkAlloc(m, r, pg);
    if t.Some? && !Entry(m1, t.value, pg.i0).valid {
      PutMirrors(m1, WalkWords(m, tables, d, r, pg), d, t.value, pg.i0, LeafPte(f, perm), w);
    }
  }

  // ----- fork -----

  /** One page of `uvmcopy`: the parent's word marked, and the child's built from its address and flags; without
      memory for the child's table the parent's word is put back. */
  function ShareWords(m: Mem, tables: Tables, d: Dram, src: Frame, dst: Frame, pg: Page): Tables {
    var t := LeafTableOr0(m, src, pg);
    var w := Get(tables, d, t, pg.i0);
    var mw := MarkWord(w);
    var tables3 := MapWords(Mark(m, src, pg), Put(tables, d, t, pg.i0, mw), d, dst, pg, LeafWord(Pa(w), UserFlags(mw)));
    if Share(m, src, dst, pg).1 then tables3 else Put(tables3, d, t, pg.i0, w)
  }

  lemma MarkMirrors(m: Mem, held: multiset<Frame>, tables: Tables, d: Dram, src: Frame, pg: Page, w: bv64)
    requires Inv(m, held) && Mirrors(m, tables, d) && IsRoot(m, src) && PageOk(pg) && Lookup(m, src, pg).valid
    requires w == Get(tables, d, LeafTableOr0(m, src, pg), pg.i0)
    ensures WordShows(w, Lookup(m, src, pg), d.places, true)
    ensures WordShows(MarkWord(w), Marked(Lookup(m, src, pg)), d.places, true)
    ensures LeafWord(Pa(w), UserFlags(MarkWord(w))) == MarkWord(w)
    ensures Mirrors(Mark(m, src, pg), Put(tables, d, LeafTableOr0(m, src, pg), pg.i0, MarkWord(w)), d)
  {
    var t, p := LeafTableOr0(m, src, pg), Lookup(m, src, pg);
    MappedLeaf(m, held, src, pg);
    GetShows(m, tables, d, t, pg.i0);
    MarkedShows(w, p, d.places);
    MarkWordIs(w, p.frame);
    ChildWordIs(MarkWord(w));
    assert At(d, t) && RowOk(tables, d.at[t]) && Addr(d.at[t].bits) == d.at[t];
    MarkShown(m, held, tables, d.places, src, pg, d.at[t].bits);
    PutRows(tables, d, t, pg.i0, MarkWord(w));
  }

  /** Putting the parent's word back after the child's table could not grow. */
  lemma UndoMirrors(m3: Mem, tables: Tables, d: Dram, t: Frame, i: nat, p: Pte, w: bv64)
    requires Shape(m3) && Mirrors(m3, tables, d) && IsLeafTable(m3, t) && t < NFRAMES && i < ENTRIES
    requires WordShows(w, p, d.places, true)
    ensures Mirrors(Inc(SetEntry(m3, t, i, p), p.frame, -1), Put(tables, d, t, i, w), d)
  {
    PutMirrors(m3, tables, d, t, i, p, w);
    var m4 := SetEntry(m3, t, i, p);
    KeptMirrors(m4, Inc(m4, p.frame, -1), Put(tables, d, t, i, w), d);
  }

  lemma ShareMirrors(m: Mem, held: multiset<Frame>, tables: Tables, d: Dram, src: Frame, dst: Frame, pg: Page)
    requires Inv(m, held) && Mirrors(m, tables, d) && IsRoot(m, src) && IsRoot(m, dst) && src != dst && PageOk(pg)
    requires Lookup(m, src, pg).valid && !Lookup(m, dst, pg).valid
    ensures Mirrors(Share(m, src, dst, pg).0, ShareWords(m, tables, d, src, dst, pg), d)
  {
    var t, p, m2 := LeafTableOr0(m, src, pg), Lookup(m, src, pg), Mark(m, src, pg);
    var w := Get(tables, d, t, pg.i0);
    var tables2 := Put(tables, d, t, pg.i0, MarkWord(w));
    MappedLeaf(m, held, src, pg);
    MarkKeeps(m, held, src, pg);
    MarkMirrors(m, held, tables, d, src, pg, w);
    var held2 := held + multiset{p.frame};
    MapMirrors(m2, held2, tables2, d, dst, pg, p.frame, Marked(p), MarkWord(w));
    MapPageKeeps(m2, held2, dst, pg, p.frame, Marked(p));
    var (m3, res) := MapPage(m2, dst, pg, p.frame, Marked(p));
    ShareResult(m, src, dst, pg, m3, res);
    if res != MapResult.Mapped {
      assert m2.nodes == m.nodes && IsLeafTable(m3, t);
      UndoMirrors(m3, MapWords(m2, tables2, d, dst, pg, MarkWord(w)), d, t, pg.i0, p, w);
    }
  }

  ghost function CopyWords(m: Mem, tables: Tables, d: Dram, src: Frame, dst: Frame, n: nat, hi: nat): Tables
    decreases hi - n
  {
    if n >= hi then tables
    else if !Lookup(m, src, PageAt(n)).valid then CopyWords(m, tables, d, src, dst, n + 1, hi)
    else
      var (m1, ok) := Share(m, src, dst, PageAt(n));
      var tables1 := ShareWords(m, tables, d, src, dst, PageAt(n));
      if !ok then tables1 else CopyWords(m1, tables1, d, src, dst, n + 1, hi)
  }

  lemma {:induction false} CopyMirrors(m: Mem, held: multiset<Frame>, tables: Tables, d: Dram, src: Frame, dst: Frame,
      n: nat, hi: nat)
    requires Inv(m, held) && Mirrors(m, tables, d) && IsRoot(m, src) && IsRoot(m, dst) && src != dst
    requires n <= hi <= 134217728 && forall pg | InRange(pg, n, hi) :: Lookup(m, dst, pg) == NoPte
    ensures Mirrors(CopyFrom(m, src, dst, n, hi).0, CopyWords(m, tables, d, src, dst, n, hi), d)
    decreases hi - n
  {
    if n < hi {
      PageNum(n);
      var pg := PageAt(n);
      assert InRange(pg, n, hi);
      if !Lookup(m, src, pg).valid {
        CopyMirrors(m, held, tables, d, src, dst, n + 1, hi);
      } else {
        ShareKeeps(m, held, src, dst, pg);
        ShareMirrors(m, held, tables, d, src, dst, pg);
        var (m1, ok) := Share(m, src, dst, pg);
        if ok {
          SharedNext(m, m1, src, dst, pg, n, hi);
          CopyMirrors(m1, held, ShareWords(m, tables, d, src, dst, pg), d, src, dst, n + 1, hi);
        }
      }
    }
  }

  // ----- unmapping -----

  /** The frame is freed and the word of the page zeroed. */
  function DropPageWords(m: Mem, tables: Tables, d: Dram, r: Frame, pg: Page): Tables {
    if Lookup(m, r, pg).valid then Put(tables, d, LeafTableOr0(m, r, pg), pg.i0, 0) else tables
  }

  lemma ReplaceMirrors(m: Mem, held: multiset<Frame>, tables: Tables, d: Dram, r: Frame, pg: Page, q: Pte, w: bv64)
    requires Inv(m, held) && Mirrors(m, tables, d) && IsRoot(m, r) && PageOk(pg) && Lookup(m, r, pg).valid
    requires WordShows(w, q, d.places, true)
    ensures Mirrors(ReplaceLeaf(m, r, pg, q), Put(tables, d, LeafTableOr0(m, r, pg), pg.i0, w), d)
  {
    MappedLeaf(m, held, r, pg);
    var t, f := LeafTableOr0(m, r, pg), Lookup(m, r, pg).frame;
    var m1 := SetEntry(m, t, pg.i0, q);
    PutMirrors(m, tables, d, t, pg.i0, q, w);
    KfreeSetEntry(m, t, pg.i0, q, f);
    assert f !in m1.nodes;
    KeptMirrors(m1, Kfree(m1, f), Put(tables, d, t, pg.i0, w), d);
  }

  ghost function DropWords(m: Mem, tables: Tables, d: Dram, r: Frame, n: nat, hi: nat): Tables
    decreases hi - n
  {
    if n >= hi then tables
    else DropWords(DropPage(m, r, PageAt(n)), DropPageWords(m, tables, d, r, PageAt(n)), d, r, n + 1, hi)
  }

  lemma {:induction false} DropMirrors(m: Mem, held: multiset<Frame>, tables: Tables, d: Dram, r: Frame, n: nat,
      hi: nat)
    requires Inv(m, held) && Mirrors(m, tables, d) && IsRoot(m, r) && n <= hi <= 134217728
    ensures Mirrors(DropFrom(m, r, n, hi), DropWords(m, tables, d, r, n, hi), d)
    decreases hi - n
  {
    if n < hi {
      PageNum(n);
      var pg := PageAt(n);
      if Lookup(m, r, pg).valid {
        ZeroShows(d.places, true);
        ReplaceMirrors(m, held, tables, d, r, pg, NoPte, 0);
        ReplaceKeeps(m, held, r, pg, NoPte);
        assert held - Held(NoPte) == held;
      }
      DropMirrors(DropPage(m, r, pg), held, DropPageWords(m, tables, d, r, pg), d, r, n + 1, hi);
    }
  }

  // ----- faults -----

  /** `handle_cow_fault`: the word of the private copy. */
  function CowWords(m: Mem, tables: Tables, d: Dram, r: Frame, pg: Page): Tables {
    var t := LeafTableOr0(m, r, pg);
    if !CowFault(m, r, pg).1 || Head(m) >= |d.at| then tables
    else Put(tables, d, t, pg.i0, PrivateWord(Get(tables, d, t, pg.i0), d.at[Head(m)].bits))
  }

  lemma PrivateShows(d: Dram, w: bv64, p: Pte, f: Frame)
    requires DramOk(d) && f < NFRAMES && p.valid && WordShows(w, p, d.places, true)
    ensures WordShows(PrivateWord(w, d.at[f].bits), p.(frame := f, cow := false, w := true, d := true), d.places, true)
  {
    assert At(d, f);
    PrivateWordIs(w, d.at[f].bits, f);
    PrivateGood(w, d.at[f].bits);
  }

  lemma CowMirrors(m: Mem, held: multiset<Frame>, tables: Tables, d: Dram, r: Frame, pg: Page)
    requires Inv(m, held) && Mirrors(m, tables, d) && IsRoot(m, r) && PageOk(pg)
    ensures Mirrors(CowFault(m, r, pg).0, CowWords(m, tables, d, r, pg), d)
  {
    if CowFault(m, r, pg).1 {
      var t, p, f := LeafTableOr0(m, r, pg), Lookup(m, r, pg), Head(m);
      assert m.free[0] == f && Managed(m, f);
      MappedLeaf(m, held, r, pg);
      KallocPage(m, held, PageBytes(m, p.frame));
      var m1 := SetPage(Kalloc(m), f, PageBytes(m, p.frame));
      KeptMirrors(m, m1, tables, d);
      GetShows(m, tables, d, t, pg.i0);
      PrivateShows(d, Get(tables, d, t, pg.i0), p, f);
      assert Lookup(m1, r, pg) == p && LeafTable(m1, r, pg) == LeafTable(m, r, pg);
      ReplaceMirrors(m1, held + multiset{f}, tables, d, r, pg, p.(frame := f, cow := false, w := true, d := true),
        PrivateWord(Get(tables, d, t, pg.i0), d.at[f].bits));
    }
  }

  /** A page filled on demand: the word `mappages` stores for the new frame. */
  function LazyWords(m: Mem, tables: Tables, d: Dram, r: Frame, pg: Page, perm: Pte, bytes: seq<Byte>): Tables {
    if m.free == [] || Head(m) >= |d.at| then tables
    else MapWords(SetPage(Kalloc(m), Head(m), bytes), tables, d, r, pg,
        LeafWord(d.at[Head(m)].bits, PermWord(perm)))
  }

  lemma LeafShows(d: Dram, f: Frame, perm: Pte)
    requires DramOk(d) && f < NFRAMES && !perm.cow && (perm.d ==> perm.w)
    ensures WordShows(LeafWord(d.at[f].bits, PermWord(perm)), LeafPte(f, perm), d.places, true)
  {
    var pa, pw := d.at[f].bits, PermWord(perm);
    assert At(d, f);
    PermWordIs(perm, f);
    LeafWordIs(pa, pw, f);
    LeafGood(pa, pw);
    assert Record(LeafWord(pa, pw), f) == LeafPte(f, perm);
  }

  /** The new frame is mapped, or freed again when the table cannot grow. */
  lemma MapOrFreeMirrors(m: Mem, held: multiset<Frame>, tables: Tables, d: Dram, r: Frame, pg: Page, f: Frame,
      perm: Pte, w: bv64)
    requires Inv(m, held) && Mirrors(m, tables, d) && IsRoot(m, r) && PageOk(pg) && !Lookup(m, r, pg).valid
    requires f in held && PermOk(m, f, perm) && WordShows(w, LeafPte(f, perm), d.places, true)
    ensures var (m', res) := MapPage(m, r, pg, f, perm);
      Mirrors(if res == MapResult.Mapped then m' else Kfree(m', f), MapWords(m, tables, d, r, pg, w), d)
  {
    MapMirrors(m, held, tables, d, r, pg, f, perm, w);
    MapPageKeeps(m, held, r, pg, f, perm);
    var (m', res) := MapPage(m, r, pg, f, perm);
    if res != MapResult.Mapped {
      KfreeKeeps(m', held, f);
      KeptMirrors(m', Kfree(m', f), MapWords(m, tables, d, r, pg, w), d);
    }
  }

  lemma LazyMirrors(m: Mem, held: multiset<Frame>, tables: Tables, d: Dram, r: Frame, pg: Page, perm: Pte,
      bytes: seq<Byte>)
    requires Inv(m, held) && Mirrors(m, tables, d) && IsRoot(m, r) && PageOk(pg) && !Lookup(m, r, pg).valid
    requires |bytes| == PGSIZE && !perm.cow && (perm.d ==> perm.w)
    ensures Mirrors(LazyMap(m, r, pg, perm, bytes).0, LazyWords(m, tables, d, r, pg, perm, bytes), d)
  {
    if m.free != [] {
      var f, held1 := Head(m), held + multiset{Head(m)};
      assert m.free[0] == f && Managed(m, f);
      KallocPage(m, held, bytes);
      var m1, w := SetPage(Kalloc(m), f, bytes), LeafWord(d.at[f].bits, PermWord(perm));
      KeptMirrors(m, m1, tables, d);
      LeafShows(d, f, perm);
      assert Lookup(m1, r, pg) == Lookup(m, r, pg);
      MapOrFreeMirrors(m1, held1, tables, d, r, pg, f, perm, w);
    }
  }

  // ----- runs -----

  ghost function ForkWords(m: Mem, tables: Tables, d: Dram, src: Frame): Tables {
    var m1, dst := AddressSpaces.NewRoot(m), Head(m);
    var (m2, ok) := CopyFrom(m1, src, dst, 0, USER_PAGES);
    var tables2 := CopyWords(m1, RootWords(m, tables, d), d, src, dst, 0, USER_PAGES);
    if ok then tables2 else DropWords(m2, tables2, d, dst, 0, ALL_PAGES)
  }

  lemma ForkMirrors(m: Mem, held: multiset<Frame>, tables: Tables, d: Dram, src: Frame)
    requires Inv(m, held) && Mirrors(m, tables, d) && IsRoot(m, src) && m.free != []
    ensures Mirrors(AddressSpaces.Fork(m, src).0, ForkWords(m, tables, d, src), d)
  {
    var m1, dst, tables1 := AddressSpaces.NewRoot(m), Head(m), RootWords(m, tables, d);
    AddressSpaces.NewRootKeeps(m, held);
    RootMirrors(m, held, tables, d);
    CopyKeeps(m1, held, src, dst, 0, USER_PAGES);
    CopyMirrors(m1, held, tables1, d, src, dst, 0, USER_PAGES);
    var (m2, ok) := CopyFrom(m1, src, dst, 0, USER_PAGES);
    if !ok { DropMirrors(m2, held, CopyWords(m1, tables1, d, src, dst, 0, USER_PAGES), d, dst, 0, ALL_PAGES); }
  }

  /** The stores of one operation. */
  ghost function StepWords(m: Mem, tables: Tables, d: Dram, op: AddressSpaces.Op): Tables {
    if !AddressSpaces.Enabled(m, op) then tables else
    match op
    case ForkOp(src) => ForkWords(m, tables, d, src)
    case StoreOp(_, _, _, _) => tables
    case CowOp(r, pg) => CowWords(m, tables, d, r, pg)
    case LazyOp(r, pg, perm, bytes) => LazyWords(m, tables, d, r, pg, perm, bytes)
    case UnmapOp(r, lo, hi) => DropWords(m, tables, d, r, lo, hi)
    case ExitOp(_) => tables
  }

  lemma ExitMirrors(m: Mem, held: multiset<Frame>, tables: Tables, d: Dram, op: AddressSpaces.Op)
    requires Inv(m, held) && Mirrors(m, tables, d) && op.ExitOp? && AddressSpaces.Enabled(m, op)
    ensures Mirrors(AddressSpaces.Step(m, op), tables, d)
  {
    FreeWalkKeeps(m, held, op.r, AddressSpaces.RootLevel(m, op.r));
    KeptMirrors(m, AddressSpaces.Step(m, op), tables, d);
  }

  lemma StepMirrors(m: Mem, held: multiset<Frame>, tables: Tables, d: Dram, op: AddressSpaces.Op)
    requires Inv(m, held) && Mirrors(m, tables, d)
    ensures Mirrors(AddressSpaces.Step(m, op), StepWords(m, tables, d, op), d)
  {
    if AddressSpaces.Enabled(m, op) {
      match op
      case ForkOp(src) => ForkMirrors(m, held, tables, d, src);
      case StoreOp(r, pg, off, bytes) => KeptMirrors(m, StoreBytes(m, r, pg, off, bytes), tables, d);
      case CowOp(r, pg) => CowMirrors(m, held, tables, d, r, pg);
      case LazyOp(r, pg, perm, bytes) => LazyMirrors(m, held, tables, d, r, pg, perm, bytes);
      case UnmapOp(r, lo, hi) => DropMirrors(m, held, tables, d, r, lo, hi);
      case ExitOp(_) => ExitMirrors(m, held, tables, d, op);
    }
  }

  ghost function RunWords(m: Mem, tables: Tables, d: Dram, ops: seq<AddressSpaces.Op>): Tables
    decreases |ops|
  {
    if ops == [] then tables
    else RunWords(AddressSpaces.Step(m, ops[0]), StepWords(m, tables, d, ops[0]), d, ops[1..])
  }

  /** Over every run the words in memory show the tables of the model. */
  lemma {:induction false} RunMirrors(m: Mem, held: multiset<Frame>, tables: Tables, d: Dram,
      ops: seq<AddressSpaces.Op>)
    requires Inv(m, held) && Mirrors(m, tables, d)
    ensures Inv(AddressSpaces.Run(m, ops), held)
    ensures Mirrors(AddressSpaces.Run(m, ops), RunWords(m, tables, d, ops), d)
    decreases |ops|
  {
    if ops != [] {
      AddressSpaces.StepKeeps(m, held, ops[0]);
      StepMirrors(m, held, tables, d, ops[0]);
      RunMirrors(AddressSpaces.Step(m, ops[0]), held, StepWords(m, tables, d, ops[0]), d, ops[1..]);
    }
  }

  /** Memory just after boot with the first address space created in it. */
  ghost function FirstSpace(base: nat): Mem
    requires base <= NFRAMES
  {
    AddressSpaces.NewRoot(AddressSpaces.Boot(base))
  }

  ghost function FirstWords(base: nat, tables: Tables, d: Dram): Tables
    requires base <= NFRAMES
  {
    RootWords(AddressSpaces.Boot(base), tables, d)
  }

  /** From boot, whatever was in memory then: after the first address space is created and any run of forks, stores,
      faults, unmappings and exits, a refill for an address space grants exactly what its tables say. */
  lemma RunGrants(base: nat, tables: Tables, d: Dram, ops: seq<AddressSpaces.Op>, r: Frame, badva: bv64, va: bv64,
      pair: Pair)
    requires base < NFRAMES && DramOk(d) && Rows(tables, d)
    requires InHalves(badva) && PairVa(va) == PairVa(badva)
    requires IsRoot(AddressSpaces.Run(FirstSpace(base), ops), r) && r < NFRAMES
    requires var words := RunWords(FirstSpace(base), FirstWords(base, tables, d), d, ops);
      Shows(pair, badva, WalkTables(words, d.at[r].bits, PairVa(badva)),
        WalkTables(words, d.at[r].bits, PairVa(badva) + 0x1000))
    ensures Grants(Half(pair, va), Lookup(AddressSpaces.Run(FirstSpace(base), ops), r, PageOf(va)), d.places)
  {
    var m0 := AddressSpaces.Boot(base);
    AddressSpaces.BootOk(base);
    BootMirrors(base, tables, d);
    RootMirrors(m0, multiset{}, tables, d);
    AddressSpaces.NewRootKeeps(m0, multiset{});
    RunMirrors(FirstSpace(base), multiset{}, FirstWords(base, tables, d), d, ops);
    assert At(d, r);
    RefillGrants(AddressSpaces.Run(FirstSpace(base), ops), multiset{},
      RunWords(FirstSpace(base), FirstWords(base, tables, d), d, ops), d.places, d.at[r].bits, r, badva, va, pair);
  }
}
