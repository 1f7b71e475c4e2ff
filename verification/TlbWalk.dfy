/** The TLB refill handler over page tables of 64-bit words in physical memory.  Where those words show the tables of
    the address-space model, the pair the handler writes translates and permits exactly what the model's `Lookup`
    says. */
module TlbWalk {
  import opened Frames
  import opened PageTables
  import opened PteWords
  import opened Cow

  // ----- tables of words -----

  datatype Addr = Addr(bits: bv64)

  /** The words of the page-table pages of physical memory, by page address. */
  type Tables = map<Addr, seq<bv64>>

  function WordAt(tables: Tables, pa: bv64, i: nat): bv64 {
    if Addr(pa) in tables && i < |tables[Addr(pa)]| then tables[Addr(pa)][i] else 0
  }

  function Bit(b: bv64, mask: bv64): nat {
    if b & mask != 0 then 1 else 0
  }

  /** The number nine bits stand for. */
  function Num(b: bv64): (n: nat)
    ensures n < ENTRIES
  {
    Bit(b, 1) + 2 * Bit(b, 2) + 4 * Bit(b, 4) + 8 * Bit(b, 8) + 16 * Bit(b, 16) + 32 * Bit(b, 32) + 64 * Bit(b, 64)
    + 128 * Bit(b, 128) + 256 * Bit(b, 256)
  }

  /** The virtual page of an address. */
  function PageOf(va: bv64): (pg: Page)
    ensures PageOk(pg)
  {
    Page(Num(Vpn(va, 2)), Num(Vpn(va, 1)), Num(Vpn(va, 0)))
  }

  function IndexAt(pg: Page, level: nat): nat {
    if level == 0 then pg.i0 else if level == 1 then pg.i1 else pg.i2
  }

  /** The levels of the walk from `level` down to the leaf. */
  function WalkFrom(tables: Tables, table: bv64, pg: Page, level: nat): Option<bv64>
    decreases level
  {
    var w := WordAt(tables, table, IndexAt(pg, level));
    if level == 0 then Some(w) else if !IsValid(w) then None else WalkFrom(tables, Pa(w), pg, level - 1)
  }

  function WalkTables(tables: Tables, root: bv64, va: bv64): Option<bv64> {
    if InHalves(va) then WalkFrom(tables, root, PageOf(va), 2) else None
  }

  /** `boot_walk_existing`: the leaf entry of an address, if the tables above it exist. */
  method WalkExisting(tables: Tables, root: bv64, va: bv64) returns (e: Option<bv64>)
    ensures e == WalkTables(tables, root, va)
  {
    if !InHalves(va) { return None; }
    e := WalkLevels(tables, root, PageOf(va));
  }

  method WalkLevels(tables: Tables, root: bv64, pg: Page) returns (e: Option<bv64>)
    ensures e == WalkFrom(tables, root, pg, 2)
  {
    var table, level := root, 2;
    while level > 0
      invariant level <= 2 && WalkFrom(tables, table, pg, level) == WalkFrom(tables, root, pg, 2)
    {
      var w := WordAt(tables, table, IndexAt(pg, level));
      if !IsValid(w) { return None; }
      table, level := Pa(w), level - 1;
    }
    e := Some(WordAt(tables, table, pg.i0));
  }

  // ----- words and records -----

  /** The frames of physical pages, by address: one frame per address. */
  type Places = map<Addr, Frame>

  predicate Holds(places: Places, pa: bv64, f: Frame) {
    Addr(pa) in places && places[Addr(pa)] == f
  }

  /** A word shows an entry: valid together, and then with the same fields and the address of its frame; a leaf word
      is as `mappages` and every later step leave it. */
  ghost predicate WordShows(w: bv64, e: Pte, places: Places, leaf: bool) {
    && (IsValid(w) <==> e.valid)
    && (e.valid ==> Record(w, e.frame) == e && Holds(places, Pa(w), e.frame) && (leaf ==> Good(w)))
  }

  ghost predicate WordOk(m: Mem, tables: Tables, places: Places, pa: bv64, t: Frame, i: nat) {
    WordShows(WordAt(tables, pa, i), Entry(m, t, i), places, IsLeafTable(m, t))
  }

  /** The words in memory show the tables. */
  ghost predicate Shown(m: Mem, tables: Tables, places: Places) {
    forall pa: bv64, t: Frame, i: nat {:trigger WordOk(m, tables, places, pa, t, i)} |
      Holds(places, pa, t) && t in m.nodes && i < ENTRIES ::
      WordOk(m, tables, places, pa, t, i)
  }

  /** One level: the walk over the words follows the entry of the table. */
  lemma WalkStep(m: Mem, tables: Tables, places: Places, pa: bv64, t: Frame, pg: Page, level: nat)
    requires 0 < level && WordOk(m, tables, places, pa, t, IndexAt(pg, level))
    ensures var e := Entry(m, t, IndexAt(pg, level)); var w := WordAt(tables, pa, IndexAt(pg, level));
      && (e.valid ==> Holds(places, Pa(w), e.frame))
      && (e.valid ==> WalkFrom(tables, pa, pg, level) == WalkFrom(tables, Pa(w), pg, level - 1))
      && (!e.valid ==> WalkFrom(tables, pa, pg, level) == None)
  {
  }

  /** The word the walk finds is valid exactly if the page is mapped, and then shows its entry. */
  lemma LookupShown(m: Mem, held: multiset<Frame>, tables: Tables, places: Places, root: bv64, r: Frame, pg: Page)
    requires Inv(m, held) && Holds(places, root, r) && IsRoot(m, r) && Shown(m, tables, places) && PageOk(pg)
    ensures var e, p := WalkFrom(tables, root, pg, 2), Lookup(m, r, pg);
      if e.Some? then WordShows(e.value, p, places, true) else !p.valid
  {
    assert WordOk(m, tables, places, root, r, pg.i2);
    WalkStep(m, tables, places, root, r, pg, 2);
    if Entry(m, r, pg.i2).valid {
      assert ChildOk(m, r, pg.i2);
      var a, t := Pa(WordAt(tables, root, pg.i2)), Entry(m, r, pg.i2).frame;
      assert WordOk(m, tables, places, a, t, pg.i1);
      WalkStep(m, tables, places, a, t, pg, 1);
      if Entry(m, t, pg.i1).valid {
        assert ChildOk(m, t, pg.i1);
        LeafShown(m, tables, places, Pa(WordAt(tables, a, pg.i1)), Entry(m, t, pg.i1).frame, pg);
      }
    }
  }

  lemma LeafShown(m: Mem, tables: Tables, places: Places, pa: bv64, t: Frame, pg: Page)
    requires Shown(m, tables, places) && Holds(places, pa, t) && IsLeafTable(m, t) && PageOk(pg)
    ensures var e, p := WalkFrom(tables, pa, pg, 0), Entry(m, t, pg.i0);
      e.Some? && WordShows(e.value, p, places, true) && WordShows(e.value, if p.valid then p else NoPte, places, true)
  {
    assert WordOk(m, tables, places, pa, t, pg.i0);
  }

  ghost predicate OneAddress(places: Places) {
    forall a, b | a in places && b in places && places[a] == places[b] :: a == b
  }

  function PutWord(tables: Tables, pa: bv64, i: nat, w: bv64): Tables {
    if Addr(pa) in tables && i < |tables[Addr(pa)]| then tables[Addr(pa) := tables[Addr(pa)][i := w]] else tables
  }

  lemma PutWordAt(tables: Tables, pa: bv64, i: nat, w: bv64, a: bv64, j: nat)
    requires Addr(pa) in tables && i < |tables[Addr(pa)]|
    ensures WordAt(PutWord(tables, pa, i, w), a, j) == if a == pa && j == i then w else WordAt(tables, a, j)
  {
  }

  /** A word stored into a table: the memory still shows the model if the word shows the entry stored. */
  lemma StoreShown(m: Mem, tables: Tables, places: Places, pa: bv64, t: Frame, i: nat, p: Pte, w: bv64)
    requires Shape(m) && Shown(m, tables, places) && OneAddress(places) && Holds(places, pa, t) && t in m.nodes
    requires t < NFRAMES
    requires Addr(pa) in tables && i < |tables[Addr(pa)]| && i < ENTRIES && WordShows(w, p, places, IsLeafTable(m, t))
    ensures Shown(SetEntry(m, t, i, p), PutWord(tables, pa, i, w), places)
  {
    var m', tables' := SetEntry(m, t, i, p), PutWord(tables, pa, i, w);
    forall a: bv64, s: Frame, j: nat | Holds(places, a, s) && s in m'.nodes && j < ENTRIES
      ensures WordOk(m', tables', places, a, s, j)
    {
      assert WordOk(m, tables, places, a, s, j);
      assert Entry(m', s, j) == if s == t && j == i then p else Entry(m, s, j);
      PutWordAt(tables, pa, i, w, a, j);
      assert s == t <==> a == pa;
    }
  }

  /** `uvmcopy` marking a page, in words and in the model. */
  lemma MarkShown(m: Mem, held: multiset<Frame>, tables: Tables, places: Places, src: Frame, pg: Page, pa: bv64)
    requires Inv(m, held) && Shown(m, tables, places) && OneAddress(places) && IsRoot(m, src) && PageOk(pg)
    requires Lookup(m, src, pg).valid && Holds(places, pa, LeafTableOr0(m, src, pg)) && Addr(pa) in tables
    requires pg.i0 < |tables[Addr(pa)]|
    ensures Shown(Mark(m, src, pg), PutWord(tables, pa, pg.i0, MarkWord(WordAt(tables, pa, pg.i0))), places)
  {
    MappedLeaf(m, held, src, pg);
    var t, p, w := LeafTableOr0(m, src, pg), Lookup(m, src, pg), WordAt(tables, pa, pg.i0);
    assert WordOk(m, tables, places, pa, t, pg.i0);
    MarkedShows(w, p, places);
    StoreShown(m, tables, places, pa, t, pg.i0, Marked(p), MarkWord(w));
    var m1, m2, tables' := SetEntry(m, t, pg.i0, Marked(p)), Mark(m, src, pg), PutWord(tables, pa, pg.i0, MarkWord(w));
    forall a: bv64, s: Frame, j: nat | Holds(places, a, s) && s in m2.nodes && j < ENTRIES
      ensures WordOk(m2, tables', places, a, s, j)
    {
      assert WordOk(m1, tables', places, a, s, j);
    }
  }

  lemma MarkedShows(w: bv64, p: Pte, places: Places)
    requires WordShows(w, p, places, true) && p.valid
    ensures WordShows(MarkWord(w), Marked(p), places, true)
  {
    MarkWordIs(w, p.frame);
    MarkGood(w);
  }

  // ----- the refill handler -----

  /** What the handler writes: the virtual pair with the page size, and the two entries. */
  datatype Pair = Pair(hi: bv64, lo0: bv64, lo1: bv64)

  predicate Mapped(e: Option<bv64>) {
    e.Some? && IsValid(e.value)
  }

  function LoOf(e: Option<bv64>): bv64 {
    if Mapped(e) then TlbWord(e.value) else 0
  }

  /** Nothing is written outside the two halves, and an access by the kernel with neither page mapped panics. */
  datatype Refill = Written(pair: Pair) | Outside | Panics

  /** What the handler does with the two entries of a pair in one of the halves. */
  predicate Refilled(r: Refill, badva: bv64, e0: Option<bv64>, e1: Option<bv64>, user: bool) {
    && !r.Outside? && (r.Panics? <==> !user && !Mapped(e0) && !Mapped(e1))
    && (r.Written? ==> Shows(r.pair, badva, e0, e1))
  }

  /** `boot_tlb_refill_handler`; `user` is whether the access came from user mode.  The lower 2^38 bytes go through
      the table in PGDL, the upper ones through the table in PGDH. */
  method RefillHandler(badva: bv64, tables: Tables, pgdl: bv64, pgdh: bv64, user: bool) returns (r: Refill)
    ensures badva < 0x40_0000_0000 ==> RefilledFrom(r, badva, tables, pgdl, user)
    ensures badva >= 0xFFFF_FFC0_0000_0000 ==> RefilledFrom(r, badva, tables, pgdh, user)
    ensures 0x40_0000_0000 <= badva < 0xFFFF_FFC0_0000_0000 <==> r.Outside?
  {
    HalvesAre(badva);
    var pairVa := PairVa(badva);
    if IsHigh(badva) {
      r := RefillFrom(badva, tables, pgdh, pairVa, pairVa + 0x1000, user);
    } else if IsLow(badva) {
      r := RefillFrom(badva, tables, pgdl, pairVa, pairVa + 0x1000, user);
    } else {
      r := Outside;
    }
  }

  predicate RefilledFrom(r: Refill, badva: bv64, tables: Tables, root: bv64, user: bool) {
    Refilled(r, badva, WalkTables(tables, root, PairVa(badva)), WalkTables(tables, root, PairVa(badva) + 0x1000), user)
  }

  method RefillFrom(badva: bv64, tables: Tables, root: bv64, va0: bv64, va1: bv64, user: bool) returns (r: Refill)
    ensures Refilled(r, badva, WalkTables(tables, root, va0), WalkTables(tables, root, va1), user)
  {
    var e0 := WalkExisting(tables, root, va0);
    var e1 := WalkExisting(tables, root, va1);
    r := Finish(badva, e0, e1, user);
  }

  method Finish(badva: bv64, e0: Option<bv64>, e1: Option<bv64>, user: bool) returns (r: Refill)
    ensures Refilled(r, badva, e0, e1, user)
  {
    var pair, none := Fill(badva, e0, e1);
    if none && !user { return Panics; }
    r := Written(pair);
  }

  /** The pair, and whether neither half is mapped. */
  method Fill(va: bv64, e0: Option<bv64>, e1: Option<bv64>) returns (pair: Pair, none: bool)
    ensures Shows(pair, va, e0, e1) && none == (!Mapped(e0) && !Mapped(e1))
  {
    var lo0, none0 := Lo(e0);
    var lo1, none1 := Lo(e1);
    var hi := Hi(va);
    pair := Pair(hi, lo0, lo1);
    none := none0 && none1;
  }

  /** One half of the pair, and whether it is zero. */
  method Lo(e: Option<bv64>) returns (lo: bv64, zero: bool)
    ensures lo == LoOf(e) && zero == !Mapped(e)
  {
    lo := 0;
    if e.Some? && IsValid(e.value) { lo := TlbWord(e.value); }
    NonZero(e);
    zero := lo == 0;
  }

  /** The pair shows the page table's two entries at an address. */
  predicate Shows(pair: Pair, va: bv64, e0: Option<bv64>, e1: Option<bv64>) {
    pair.hi == PairVa(va) | 12 && pair.lo0 == LoOf(e0) && pair.lo1 == LoOf(e1)
  }

  lemma NonZero(e: Option<bv64>)
    ensures LoOf(e) == 0 <==> !Mapped(e)
  {
    if Mapped(e) { TlbNonZero(e.value); }
  }

  /** The virtual page pair, with the page size in its low bits. */
  method Hi(va: bv64) returns (hi: bv64)
    ensures hi == PairVa(va) | 12
  {
    hi := (PairVa(va) & !0x1FFF) | 12;
  }

  /** The half of the pair the hardware uses for an address, by bit 12. */
  function Half(pair: Pair, va: bv64): bv64 {
    if va & 0x1000 == 0 then pair.lo0 else pair.lo1
  }

  lemma StartWalk(tables: Tables, root: bv64, va: bv64)
    requires InHalves(va)
    ensures WalkTables(tables, root, va & !0xFFF) == WalkFrom(tables, root, PageOf(va), 2)
  {
    StartHalf(va);
    PageStart(va);
  }

  /** The half of the pair for an address is the entry of its page. */
  lemma HalfIs(tables: Tables, root: bv64, badva: bv64, va: bv64, pair: Pair)
    requires PairVa(va) == PairVa(badva)
    requires Shows(pair, badva, WalkTables(tables, root, PairVa(badva)),
        WalkTables(tables, root, PairVa(badva) + 0x1000))
    ensures Half(pair, va) == LoOf(WalkTables(tables, root, va & !0xFFF))
  {
    PageOfPair(va);
    if va & 0x1000 == 0 {
      ClearHalf(tables, root, PairVa(badva), va & !0xFFF, va, pair);
    } else {
      SetHalf(tables, root, PairVa(badva) + 0x1000, va & !0xFFF, va, pair);
    }
  }

  lemma ClearHalf(tables: Tables, root: bv64, a: bv64, start: bv64, va: bv64, pair: Pair)
    requires va & 0x1000 == 0 && start == a && pair.lo0 == LoOf(WalkTables(tables, root, a))
    ensures Half(pair, va) == LoOf(WalkTables(tables, root, start))
  {
  }

  lemma SetHalf(tables: Tables, root: bv64, a: bv64, start: bv64, va: bv64, pair: Pair)
    requires va & 0x1000 != 0 && start == a && pair.lo1 == LoOf(WalkTables(tables, root, a))
    ensures Half(pair, va) == LoOf(WalkTables(tables, root, start))
  {
  }

  /** A TLB word permits what an entry does. */
  ghost predicate Grants(lo: bv64, p: Pte, places: Places) {
    && (lo & V != 0 <==> p.valid)
    && (p.valid ==> Holds(places, Pa(lo), p.frame) && (lo & D != 0 <==> p.w) && (lo & PLV == PLV <==> p.user))
    && (p.valid ==> (lo & NR != 0 <==> p.nr) && (lo & NX != 0 <==> p.nx))
  }

  lemma WordGrants(w: bv64, p: Pte, places: Places)
    requires WordShows(w, p, places, true)
    ensures Grants(LoOf(Some(w)), p, places)
  {
    if IsValid(w) { TlbGrants(w); }
  }

  /** For every address of the pair, the TLB entry the handler writes is valid exactly where the page is mapped, has
      the address of its frame, allows writing exactly where the page table does, and has its privilege and
      permissions. */
  lemma RefillGrants(m: Mem, held: multiset<Frame>, tables: Tables, places: Places, root: bv64, r: Frame, badva: bv64,
      va: bv64, pair: Pair)
    requires Inv(m, held) && Holds(places, root, r) && IsRoot(m, r) && Shown(m, tables, places)
    requires InHalves(badva) && PairVa(va) == PairVa(badva)
    requires Shows(pair, badva, WalkTables(tables, root, PairVa(badva)),
        WalkTables(tables, root, PairVa(badva) + 0x1000))
    ensures Grants(Half(pair, va), Lookup(m, r, PageOf(va)), places)
  {
    PairHalf(va, badva);
    HalfIs(tables, root, badva, va, pair);
    StartWalk(tables, root, va);
    FoundGrants(m, held, tables, places, root, r, PageOf(va), Half(pair, va));
  }

  lemma FoundGrants(m: Mem, held: multiset<Frame>, tables: Tables, places: Places, root: bv64, r: Frame, pg: Page,
      lo: bv64)
    requires Inv(m, held) && Holds(places, root, r) && IsRoot(m, r) && Shown(m, tables, places) && PageOk(pg)
    requires lo == LoOf(WalkFrom(tables, root, pg, 2))
    ensures Grants(lo, Lookup(m, r, pg), places)
  {
    LookupShown(m, held, tables, places, root, r, pg);
    var e := WalkFrom(tables, root, pg, 2);
    if e.Some? { WordGrants(e.value, Lookup(m, r, pg), places); }
  }
}
