/** Fork by sharing, copy-on-write faults, lazy pages and unmapping over shared frames. */
module Cow {
  import opened Frames
  import opened PageTables

  /** The bytes address space `r` sees on page `pg`. */
  function Content(m: Mem, r: Frame, pg: Page): Option<seq<Byte>> {
    var p := Lookup(m, r, pg);
    if p.valid then Some(PageBytes(m, p.frame)) else None
  }

  ghost predicate SameContent(m: Mem, m': Mem) {
    forall r: Frame, pg: Page | IsRoot(m, r) && PageOk(pg) :: Content(m', r, pg) == Content(m, r, pg)
  }

  ghost predicate SameContentExcept(m: Mem, m': Mem, r: Frame, pg: Page) {
    forall r': Frame, pg': Page | IsRoot(m, r') && PageOk(pg') && (r', pg') != (r, pg) ::
      Content(m', r', pg') == Content(m, r', pg')
  }

  /** A mapped page is a leaf slot; its frame is in use and counted. */
  lemma MappedLeaf(m: Mem, held: multiset<Frame>, r: Frame, pg: Page)
    requires Inv(m, held) && IsRoot(m, r) && PageOk(pg) && Lookup(m, r, pg).valid
    ensures var t := LeafTable(m, r, pg).value; var p := Lookup(m, r, pg);
      && LeafTable(m, r, pg).Some? && IsLeafTable(m, t) && t < NFRAMES && t !in m.free
      && IsLeaf(m, t, pg.i0) && LeafOk(m, t, pg.i0) && p == Entry(m, t, pg.i0)
      && (t, pg.i0) in Refs(m, p.frame) && t != p.frame && p.frame < NFRAMES && Ref(m, p.frame) >= 1
  {
    WalkNode(m, r, pg);
    var t := LeafTable(m, r, pg).value;
    TableInRange(m, t);
    assert IsLeaf(m, t, pg.i0);
    assert LeafOk(m, t, pg.i0);
    assert (t, pg.i0) in Refs(m, Lookup(m, r, pg).frame);
    assert CountOk(m, held, Lookup(m, r, pg).frame);
  }

  /** A frame in hand is counted. */
  lemma HeldCounted(m: Mem, held: multiset<Frame>, f: Frame)
    requires Inv(m, held) && f in held
    ensures Ref(m, f) >= 1
  {
    assert CountOk(m, held, f);
  }

  /** Two mapped pages on one frame: neither leaf is writable, unless it is the same page. */
  lemma SharedNotWritable(m: Mem, held: multiset<Frame>, r: Frame, pg: Page, r': Frame, pg': Page)
    requires Inv(m, held) && IsRoot(m, r) && IsRoot(m, r') && PageOk(pg) && PageOk(pg')
    requires Lookup(m, r, pg).valid && Lookup(m, r', pg').valid && (r, pg) != (r', pg')
    requires Lookup(m, r, pg).frame == Lookup(m, r', pg').frame
    ensures !Lookup(m, r, pg).w && !Lookup(m, r', pg').w
  {
    MappedLeaf(m, held, r, pg);
    MappedLeaf(m, held, r', pg');
    if LeafTable(m, r, pg) == LeafTable(m, r', pg') && pg.i0 == pg'.i0 {
      SlotUnique(m, r, pg, r', pg');
    }
  }

  /** After a rewrite of the leaf of (r, pg) to `p`, that page translates by `p` and every other
      page of every address space translates as before. */
  ghost predicate Rewritten(m: Mem, m': Mem, r: Frame, pg: Page, p: Pte) {
    && m'.base == m.base
    && (forall r' | IsRoot(m, r') :: IsRoot(m', r'))
    && (forall r', pg' | IsRoot(m, r') && PageOk(pg') ::
          Lookup(m', r', pg') == if r' == r && pg' == pg then (if p.valid then p else NoPte) else Lookup(m, r', pg'))
  }

  lemma RewriteLeaf(m: Mem, held: multiset<Frame>, r: Frame, pg: Page, p: Pte, held': multiset<Frame>)
    requires Inv(m, held) && IsRoot(m, r) && PageOk(pg) && LeafTable(m, r, pg).Some?
    requires p.valid ==> Mappable(m, LeafTable(m, r, pg).value, pg.i0, p)
    requires held' + Held(p) == held + Held(Lookup(m, r, pg))
    ensures var m' := SetEntry(m, LeafTable(m, r, pg).value, pg.i0, p);
      Inv(m', held') && Rewritten(m, m', r, pg, p) && KeepsBytes(m, m')
  {
    WalkNode(m, r, pg);
    SetLeafKeeps(m, held, LeafTable(m, r, pg).value, pg.i0, p, held');
    SetLeafView(m, r, pg, p);
  }

  // ----- virtual page numbers -----

  const USER_PAGES: nat := 67108864    // 256 * 512 * 512
  const ALL_PAGES: nat := 134217728    // 512 * 512 * 512

  /** Virtual page number `n` as its three indices, and back. */
  function PageAt(n: nat): Page {
    Page(n / 512 / 512, n / 512 % 512, n % 512)
  }

  function NumOf(pg: Page): nat {
    DirNum(pg.i2, pg.i1) * 512 + pg.i0
  }

  function DirNum(i2: nat, i1: nat): nat {
    i2 * 512 + i1
  }

  lemma PageNum(n: nat)
    requires n < 134217728
    ensures PageOk(PageAt(n)) && NumOf(PageAt(n)) == n
  {
  }

  lemma DivMod512(q: nat, r: nat)
    requires r < 512
    ensures (q * 512 + r) / 512 == q && (q * 512 + r) % 512 == r
  {
  }

  lemma NumPage(pg: Page)
    requires PageOk(pg)
    ensures NumOf(pg) < 134217728 && PageAt(NumOf(pg)) == pg
  {
    DivMod512(pg.i2 * 512 + pg.i1, pg.i0);
    DivMod512(pg.i2, pg.i1);
  }

  ghost predicate InRange(pg: Page, lo: nat, hi: nat) {
    PageOk(pg) && lo <= NumOf(pg) < hi
  }

  lemma NumInjective(pg: Page, pg': Page)
    requires PageOk(pg) && PageOk(pg') && NumOf(pg) == NumOf(pg')
    ensures pg == pg'
  {
    NumPage(pg);
    NumPage(pg');
  }

  // ----- mappages, one page -----

  datatype MapResult = Mapped | NoMemory | Remap

  /** The entry `mappages` writes: writable entries are also dirty. */
  function LeafPte(f: Frame, perm: Pte): Pte {
    perm.(valid := true, frame := f, d := perm.d || perm.w)
  }

  function MapPage(m: Mem, r: Frame, pg: Page, f: Frame, perm: Pte): (Mem, MapResult) {
    var (m1, t) := WalkAlloc(m, r, pg);
    if t.None? then (m1, NoMemory)
    else if Entry(m1, t.value, pg.i0).valid then (m1, Remap)
    else (SetEntry(m1, t.value, pg.i0, LeafPte(f, perm)), Mapped)
  }

  /** Permissions a caller may pass for frame `f`: writable only if nothing else maps it. */
  ghost predicate PermOk(m: Mem, f: Frame, perm: Pte) {
    && !(perm.w && perm.cow) && (perm.d ==> perm.w) && (perm.w ==> Refs(m, f) == {})
    && forall s | s in Refs(m, f) :: !Entry(m, s.0, s.1).w
  }

  lemma PermMappable(m: Mem, m1: Mem, held: multiset<Frame>, t: Frame, i: nat, f: Frame, perm: Pte)
    requires Grows(m, m1, held) && InUse(m, f) && PermOk(m, f, perm)
    ensures Mappable(m1, t, i, LeafPte(f, perm))
  {
    forall s | s in Refs(m1, f) ensures !Entry(m1, s.0, s.1).w {
      assert s in Refs(m, f);
    }
  }

  lemma MapAt(m: Mem, m1: Mem, held: multiset<Frame>, r: Frame, pg: Page, f: Frame, perm: Pte)
    requires Grows(m, m1, held) && IsRoot(m, r) && PageOk(pg) && f in held && InUse(m, f) && PermOk(m, f, perm)
    requires !Lookup(m, r, pg).valid && LeafTable(m1, r, pg).Some?
    ensures var m' := SetEntry(m1, LeafTable(m1, r, pg).value, pg.i0, LeafPte(f, perm));
      KeepsBytes(m, m') && Inv(m', held - multiset{f}) && Rewritten(m, m', r, pg, LeafPte(f, perm))
  {
    assert Lookup(m1, r, pg) == Lookup(m, r, pg);
    PermMappable(m, m1, held, LeafTable(m1, r, pg).value, pg.i0, f, perm);
    RewriteLeaf(m1, held, r, pg, LeafPte(f, perm), held - multiset{f});
  }

  lemma MapPageKeeps(m: Mem, held: multiset<Frame>, r: Frame, pg: Page, f: Frame, perm: Pte)
    requires Inv(m, held) && IsRoot(m, r) && PageOk(pg) && f in held && PermOk(m, f, perm)
    requires !Lookup(m, r, pg).valid
    ensures var (m', res) := MapPage(m, r, pg, f, perm);
      && KeepsBytes(m, m') && res != Remap
      && (res == Mapped ==> Inv(m', held - multiset{f}) && Rewritten(m, m', r, pg, LeafPte(f, perm)))
      && (res == NoMemory ==> Grows(m, m', held) && m'.free == [])
  {
    WalkGrows(m, held, r, pg);
    var (m1, t) := WalkAlloc(m, r, pg);
    if t.Some? {
      assert Lookup(m1, r, pg) == Lookup(m, r, pg);
      MapAt(m, m1, held, r, pg, f, perm);
    }
  }

  /** A remap is reported exactly for a page that is mapped, and changes nothing. */
  lemma MapPageRemap(m: Mem, held: multiset<Frame>, r: Frame, pg: Page, f: Frame, perm: Pte)
    requires Inv(m, held) && IsRoot(m, r) && PageOk(pg)
    ensures var (m', res) := MapPage(m, r, pg, f, perm);
      (res == Remap <==> Lookup(m, r, pg).valid) && (res == Remap ==> m' == m)
  {
    WalkGrows(m, held, r, pg);
    assert Lookup(WalkAlloc(m, r, pg).0, r, pg) == Lookup(m, r, pg);
  }

  /** Mapping frame `f` leaves the leaves of every other frame alone. */
  lemma MapPageRefs(m: Mem, held: multiset<Frame>, r: Frame, pg: Page, f: Frame, perm: Pte)
    requires Inv(m, held) && IsRoot(m, r) && PageOk(pg) && !Lookup(m, r, pg).valid
    ensures forall g | g != f :: Refs(MapPage(m, r, pg, f, perm).0, g) == Refs(m, g)
  {
    WalkGrows(m, held, r, pg);
    var (m1, t) := WalkAlloc(m, r, pg);
    if t.Some? {
      assert Lookup(m1, r, pg) == Lookup(m, r, pg);
      SetLeafRefs(m1, t.value, pg.i0, LeafPte(f, perm));
    }
  }

  // ----- mappages, a range -----

  /** The frames [f, f + k), each once. */
  ghost function FrameRange(f: Frame, k: nat): multiset<Frame> {
    multiset(FramesFrom(f, f + k))
  }

  ghost function FramesFrom(lo: Frame, hi: nat): set<Frame> {
    set g: Frame | g < hi && NotBelow(g, lo)
  }

  predicate NotBelow(g: Frame, lo: Frame) {
    lo <= g
  }

  /** Pages [n, n + k) of `r` map the frames from `f`, and nothing else changed. */
  ghost predicate RangeMapped(m: Mem, m': Mem, r: Frame, n: nat, f: Frame, k: nat, perm: Pte) {
    && (forall r' | IsRoot(m, r') :: IsRoot(m', r'))
    && (forall r': Frame, pg: Page {:trigger RangeEntry(m, m', r', pg, r, n, f, k, perm)} |
          IsRoot(m, r') && PageOk(pg) :: RangeEntry(m, m', r', pg, r, n, f, k, perm))
  }

  ghost predicate RangeEntry(m: Mem, m': Mem, r': Frame, pg: Page, r: Frame, n: nat, f: Frame, k: nat, perm: Pte) {
    Lookup(m', r', pg) ==
      if r' == r && InRange(pg, n, n + k) then LeafPte(f + (NumOf(pg) - n), perm) else Lookup(m, r', pg)
  }

  lemma RangeMappedStep(m: Mem, m1: Mem, m': Mem, r: Frame, pg: Page, n: nat, f: Frame, k: nat, perm: Pte)
    requires PageOk(pg) && NumOf(pg) == n + k && IsRoot(m, r)
    requires RangeMapped(m, m1, r, n, f, k, perm) && Rewritten(m1, m', r, pg, LeafPte(f + k, perm))
    ensures RangeMapped(m, m', r, n, f, k + 1, perm)
  {
    forall r': Frame, pg': Page | IsRoot(m, r') && PageOk(pg')
      ensures RangeEntry(m, m', r', pg', r, n, f, k + 1, perm)
    {
      assert IsRoot(m1, r') && RangeEntry(m, m1, r', pg', r, n, f, k, perm);
      if NumOf(pg') == n + k { NumInjective(pg, pg'); }
    }
  }

  lemma RangeMappedSame(m: Mem, m1: Mem, m': Mem, r: Frame, n: nat, f: Frame, k: nat, perm: Pte)
    requires RangeMapped(m, m1, r, n, f, k, perm) && SameView(m1, m')
    ensures RangeMapped(m, m', r, n, f, k, perm)
  {
    forall r': Frame, pg: Page | IsRoot(m, r') && PageOk(pg) ensures RangeEntry(m, m', r', pg, r, n, f, k, perm) {
      assert IsRoot(m1, r') && RangeEntry(m, m1, r', pg, r, n, f, k, perm);
    }
  }

  /** No leaf maps a frame strictly between `lo` and `hi`. */
  ghost predicate Unshared(m: Mem, lo: nat, hi: nat) {
    forall g | lo < g < hi :: Refs(m, g) == {}
  }

  lemma UnsharedKept(m: Mem, m': Mem, held: multiset<Frame>, r: Frame, pg: Page, f: Frame, hi: nat, perm: Pte)
    requires Inv(m, held) && IsRoot(m, r) && PageOk(pg) && !Lookup(m, r, pg).valid
    requires MapPage(m, r, pg, f, perm).0 == m' && Unshared(m, f, hi)
    requires !(perm.w && perm.cow) && (perm.d ==> perm.w)
    ensures Unshared(m', f + 1, hi) && (f + 1 < hi ==> PermOk(m', f + 1, perm))
  {
    MapPageRefs(m, held, r, pg, f, perm);
  }

  /** The leaves of the frames from `lo` on are those there were. */
  ghost predicate RefsFrom(m: Mem, m': Mem, lo: nat) {
    forall g: Frame | lo <= g :: Refs(m', g) == Refs(m, g)
  }

  lemma RefsFromNext(m0: Mem, m: Mem, m': Mem, held: multiset<Frame>, r: Frame, pg: Page, f: Frame, perm: Pte)
    requires Inv(m, held) && IsRoot(m, r) && PageOk(pg) && RefsFrom(m0, m, f)
    requires MapPage(m, r, pg, f, perm) == (m', Mapped)
    ensures RefsFrom(m0, m', f + 1)
  {
    MapPageRemap(m, held, r, pg, f, perm);
    MapPageRefs(m, held, r, pg, f, perm);
  }

  /** What is left of a range after its first frames can still be mapped. */
  lemma RestPlaceable(m0: Mem, m: Mem, f: Frame, k: nat, k1: nat, perm: Pte)
    requires 0 < k1 < k && RefsFrom(m0, m, f + k1) && PermOk(m0, f, perm) && Unshared(m0, f, f + k)
    ensures PermOk(m, f + k1, perm) && Unshared(m, f + k1, f + k)
  {
    assert Refs(m0, f + k1) == {};
  }

  lemma SplitRange(held: multiset<Frame>, f: Frame, k: nat, k1: nat)
    requires k1 <= k
    ensures held + FrameRange(f, k) == held + FrameRange(f + k1, k - k1) + FrameRange(f, k1)
  {
    assert f + k1 + (k - k1) == f + k;
    forall g: Frame ensures FrameRange(f, k)[g] == FrameRange(f, k1)[g] + FrameRange(f + k1, k - k1)[g] {
      RangeCount(f, k, g);
      RangeCount(f, k1, g);
      RangeCount(f + k1, k - k1, g);
    }
    assert FrameRange(f, k) == FrameRange(f, k1) + FrameRange(f + k1, k - k1);
  }

  lemma RangeCount(f: Frame, k: nat, g: Frame)
    ensures FrameRange(f, k)[g] == if f <= g < f + k then 1 else 0
  {
    assert NotBelow(g, f) <==> f <= g;
    assert g in FramesFrom(f, f + k) <==> f <= g < f + k;
  }

  /** Frames in hand are frames there are. */
  lemma RangeFits(m: Mem, held: multiset<Frame>, f: Frame, k: nat)
    requires Inv(m, held + FrameRange(f, k)) && k > 0
    ensures f + k <= NFRAMES
  {
    RangeCount(f, k, f + k - 1);
    assert InUse(m, f + k - 1);
  }

  /** The page numbered `n` is mapped. */
  ghost predicate MappedAt(m: Mem, src: Frame, n: nat) {
    Lookup(m, src, PageAt(n)).valid
  }

  /** The first `k1` of `k` frames are mapped; the rest, from `g` on, is in hand and can be mapped. */
  lemma RestReady(m0: Mem, m: Mem, held: multiset<Frame>, r: Frame, n: nat, f: Frame, k: nat, k1: nat, perm: Pte,
      g: Frame, left: nat)
    requires IsRoot(m0, r) && 0 < k1 < k && g == f + k1 && left == k - k1 && PermOk(m0, f, perm)
    requires Unshared(m0, f, f + k) && RefsFrom(m0, m, g)
    requires RangeDone(m0, m, held + FrameRange(g, left), r, n, f, k1, perm, Mapped, k1)
    ensures Inv(m, held + FrameRange(g, left)) && IsRoot(m, r) && PermOk(m, g, perm) && Unshared(m, g, g + left)
  {
    RestPlaceable(m0, m, f, k, k1, perm);
    NoRange(held + FrameRange(g, left), f + k1, k1 - k1);
  }

  lemma NoRange(held: multiset<Frame>, f: Frame, k: nat)
    requires k == 0
    ensures held + FrameRange(f, k) == held
  {
    assert FramesFrom(f, f + k) == {};
  }

  /** Memory after `done` of the `k` pages are mapped. */
  ghost predicate RangeState(m0: Mem, m: Mem, held: multiset<Frame>, r: Frame, n: nat, f: Frame, k: nat, done: nat,
      perm: Pte)
  {
    && IsRoot(m0, r) && done <= k && n + k <= 134217728
    && Inv(m, held + FrameRange(f + done, k - done)) && RangeMapped(m0, m, r, n, f, done, perm) && KeepsBytes(m0, m)
    && (done < k ==> PermOk(m, f + done, perm))
    && Unshared(m, f + done, f + k)
  }

  /** What mapping `k` pages has done when it ends after `done` of them: the frames not mapped are still in hand, and
      it ends early exactly for want of memory or at a page that is mapped already. */
  ghost predicate RangeDone(m0: Mem, m: Mem, held: multiset<Frame>, r: Frame, n: nat, f: Frame, k: nat, perm: Pte,
      res: MapResult, done: nat)
  {
    && done <= k && (res == Mapped <==> done == k) && (res == NoMemory ==> m.free == [])
    && (done < k ==> (res == Remap <==> MappedAt(m0, r, n + done)))
    && Inv(m, held + FrameRange(f + done, k - done)) && RangeMapped(m0, m, r, n, f, done, perm) && KeepsBytes(m0, m)
  }

  lemma RangeComplete(m0: Mem, m: Mem, held: multiset<Frame>, r: Frame, n: nat, f: Frame, k: nat, perm: Pte)
    requires RangeState(m0, m, held, r, n, f, k, k, perm)
    ensures RangeDone(m0, m, held, r, n, f, k, perm, Mapped, k)
  {
  }

  lemma RangeStateNext(m0: Mem, m: Mem, held: multiset<Frame>, r: Frame, n: nat, f: Frame, k: nat, done: nat, perm: Pte,
      pg: Page)
    requires RangeState(m0, m, held, r, n, f, k, done, perm) && done < k && PageOk(pg) && NumOf(pg) == n + done
    ensures IsRoot(m, r) && Lookup(m, r, pg) == Lookup(m0, r, pg) && f + done in held + FrameRange(f + done, k - done)
  {
    assert !InRange(pg, n, n + done) && RangeEntry(m0, m, r, pg, r, n, f, done, perm);
    RangeHeld(held, f + done, k - done);
  }

  lemma RangeStateStep(m0: Mem, m: Mem, m': Mem, held: multiset<Frame>, r: Frame, n: nat, f: Frame, k: nat, done: nat,
      perm: Pte, pg: Page)
    requires RangeState(m0, m, held, r, n, f, k, done, perm) && done < k && PageOk(pg) && NumOf(pg) == n + done
    requires MapPage(m, r, pg, f + done, perm) == (m', Mapped)
    ensures RangeState(m0, m', held, r, n, f, k, done + 1, perm)
  {
    RangeStateOne(m0, m, m', held, r, n, f, k, done, perm, pg, f + done, f + done + 1, k - done - 1);
    RangeMappedStep(m0, m, m', r, pg, n, f, done, perm);
    assert f + done + 1 == f + (done + 1) && k - done - 1 == k - (done + 1);
  }

  lemma RangeStateOne(m0: Mem, m: Mem, m': Mem, held: multiset<Frame>, r: Frame, n: nat, f: Frame, k: nat, done: nat,
      perm: Pte, pg: Page, g: Frame, next: Frame, left: nat)
    requires RangeState(m0, m, held, r, n, f, k, done, perm) && done < k && PageOk(pg) && NumOf(pg) == n + done
    requires g == f + done && next == g + 1 && left == k - done - 1 && MapPage(m, r, pg, g, perm) == (m', Mapped)
    ensures Inv(m', held + FrameRange(next, left)) && Rewritten(m, m', r, pg, LeafPte(g, perm)) && KeepsBytes(m0, m')
    ensures Unshared(m', next, f + k) && (next < f + k ==> PermOk(m', next, perm))
  {
    RangeStateNext(m0, m, held, r, n, f, k, done, perm, pg);
    RangeHeld(held, g, k - done);
    MapPageRemap(m, held + FrameRange(g, k - done), r, pg, g, perm);
    RangeMapOne(m0, m, m', held + FrameRange(g, k - done), held + FrameRange(next, left), r, pg, g, next, f + k, perm);
  }

  lemma RangeMapOne(m0: Mem, m: Mem, m': Mem, all: multiset<Frame>, rest: multiset<Frame>, r: Frame, pg: Page, g: Frame,
      next: Frame, hi: nat, perm: Pte)
    requires Inv(m, all) && IsRoot(m, r) && PageOk(pg) && !Lookup(m, r, pg).valid && g in all
    requires rest == all - multiset{g} && next == g + 1
    requires MapPage(m, r, pg, g, perm) == (m', Mapped) && PermOk(m, g, perm) && Unshared(m, g, hi) && KeepsBytes(m0, m)
    ensures Inv(m', rest) && Rewritten(m, m', r, pg, LeafPte(g, perm)) && KeepsBytes(m0, m')
    ensures Unshared(m', next, hi) && (next < hi ==> PermOk(m', next, perm))
  {
    MapPageKeeps(m, all, r, pg, g, perm);
    UnsharedKept(m, m', all, r, pg, g, hi, perm);
  }

  lemma RangeStateStop(m0: Mem, m: Mem, m': Mem, held: multiset<Frame>, r: Frame, n: nat, f: Frame, k: nat, done: nat,
      perm: Pte)
    requires RangeState(m0, m, held, r, n, f, k, done, perm) && SameView(m, m') && KeepsBytes(m, m')
    ensures RangeMapped(m0, m', r, n, f, done, perm) && KeepsBytes(m0, m')
  {
    RangeMappedSame(m0, m, m', r, n, f, done, perm);
  }

  /** One more page, or the end. */
  lemma RangeStateAfter(m0: Mem, m: Mem, m': Mem, held: multiset<Frame>, r: Frame, n: nat, f: Frame, k: nat, done: nat,
      perm: Pte, pg: Page, res: MapResult)
    requires RangeState(m0, m, held, r, n, f, k, done, perm) && done < k && PageOk(pg) && NumOf(pg) == n + done
    requires pg == PageAt(n + done)
    requires MapPage(m, r, pg, f + done, perm) == (m', res) && (res == Remap <==> Lookup(m, r, pg).valid)
    requires res == Remap ==> m' == m
    requires res == NoMemory ==> m'.free == [] && SameView(m, m') && KeepsBytes(m, m')
    requires res != Mapped ==> Inv(m', held + FrameRange(f + done, k - done))
    ensures res == Mapped ==> RangeState(m0, m', held, r, n, f, k, done + 1, perm)
    ensures res != Mapped ==> RangeDone(m0, m', held, r, n, f, k, perm, res, done)
  {
    if res == Mapped {
      RangeStateStep(m0, m, m', held, r, n, f, k, done, perm, pg);
    } else {
      RangeStateNext(m0, m, held, r, n, f, k, done, perm, pg);
      RangeStateStop(m0, m, m', held, r, n, f, k, done, perm);
    }
  }

  lemma RangeHeld(held: multiset<Frame>, f: Frame, k: nat)
    requires k > 0
    ensures f in held + FrameRange(f, k) && held + FrameRange(f, k) - multiset{f} == held + FrameRange(f + 1, k - 1)
  {
    assert NotBelow(f, f) && FramesFrom(f, f + k) == {f} + FramesFrom(f + 1, f + k);
  }

  // ----- uvmcopy, one page -----

  /** The entry fork leaves behind: a writable page becomes copy-on-write, others stay. */
  function Marked(p: Pte): Pte {
    if p.w then p.(cow := true, w := false, d := false) else p
  }

  /** What sharing leaves of an entry: the same frame and rights, no right to write, and copy-on-write exactly where
      writing was allowed or already was copy-on-write. */
  ghost predicate Downgraded(p: Pte, q: Pte) {
    && q.valid == p.valid
    && (p.valid ==> q.frame == p.frame && q.user == p.user && q.nr == p.nr && q.nx == p.nx)
    && (p.valid ==> !q.w && !q.d && (q.cow <==> p.w || p.cow))
  }

  function LeafTableOr0(m: Mem, r: Frame, pg: Page): Frame {
    var t := LeafTable(m, r, pg);
    if t.Some? then t.value else 0
  }

  /** The source page marked and one more reference taken on its frame. */
  function Mark(m: Mem, src: Frame, pg: Page): Mem {
    var p := Lookup(m, src, pg);
    Inc(SetEntry(m, LeafTableOr0(m, src, pg), pg.i0, Marked(p)), p.frame, 1)
  }

  /** One page of fork: mark it, share it, and undo both if the child's table cannot grow. */
  function Share(m: Mem, src: Frame, dst: Frame, pg: Page): (Mem, bool) {
    var p := Lookup(m, src, pg);
    var (m3, res) := MapPage(Mark(m, src, pg), dst, pg, p.frame, Marked(p));
    if res == Mapped then (m3, true)
    else (Inc(SetEntry(m3, LeafTableOr0(m, src, pg), pg.i0, p), p.frame, -1), false)
  }

  lemma ShareResult(m: Mem, src: Frame, dst: Frame, pg: Page, m3: Mem, res: MapResult)
    requires MapPage(Mark(m, src, pg), dst, pg, Lookup(m, src, pg).frame, Marked(Lookup(m, src, pg))) == (m3, res)
    ensures Share(m, src, dst, pg) == if res == Mapped then (m3, true)
      else (Inc(SetEntry(m3, LeafTableOr0(m, src, pg), pg.i0, Lookup(m, src, pg)), Lookup(m, src, pg).frame, -1), false)
  {
  }

  /** Every leaf on the frame of a mapped page, other than that page's own, is read-only. */
  lemma OthersReadOnly(m: Mem, held: multiset<Frame>, r: Frame, pg: Page)
    requires Inv(m, held) && IsRoot(m, r) && PageOk(pg) && Lookup(m, r, pg).valid
    ensures LeafTable(m, r, pg).Some?
    ensures var p := Lookup(m, r, pg); var slot := (LeafTable(m, r, pg).value, pg.i0);
      (forall s | s in Refs(m, p.frame) && s != slot :: !Entry(m, s.0, s.1).w) && (p.w ==> Refs(m, p.frame) == {slot})
  {
    MappedLeaf(m, held, r, pg);
    var p := Lookup(m, r, pg);
    forall s | s in Refs(m, p.frame) && s != (LeafTable(m, r, pg).value, pg.i0) ensures !Entry(m, s.0, s.1).w {
      assert LeafOk(m, s.0, s.1);
    }
  }

  lemma RewriteRefs(m: Mem, held: multiset<Frame>, r: Frame, pg: Page, p: Pte)
    requires Inv(m, held) && IsRoot(m, r) && PageOk(pg) && Lookup(m, r, pg).valid
    requires p.valid && p.frame == Lookup(m, r, pg).frame
    ensures LeafTable(m, r, pg).Some?
    ensures var t := LeafTable(m, r, pg).value; var m' := SetEntry(m, t, pg.i0, p);
      && Refs(m', p.frame) == Refs(m, p.frame) && (t, pg.i0) in Refs(m, p.frame)
      && LeafTable(m', r, pg) == LeafTable(m, r, pg)
      && (forall a, b :: Entry(m', a, b) == if a == t && b == pg.i0 then p else Entry(m, a, b))
  {
    MappedLeaf(m, held, r, pg);
    SetLeafRefs(m, LeafTable(m, r, pg).value, pg.i0, p);
    SetLeafView(m, r, pg, p);
  }

  lemma MarkKeeps(m: Mem, held: multiset<Frame>, src: Frame, pg: Page)
    requires Inv(m, held) && IsRoot(m, src) && PageOk(pg) && Lookup(m, src, pg).valid
    ensures var p := Lookup(m, src, pg); var m2 := Mark(m, src, pg);
      && LeafTable(m, src, pg).Some? && LeafTable(m2, src, pg) == LeafTable(m, src, pg)
      && Inv(m2, held + multiset{p.frame}) && Rewritten(m, m2, src, pg, Marked(p)) && KeepsBytes(m, m2)
      && PermOk(m2, p.frame, Marked(p))
      && Refs(m2, p.frame) == Refs(m, p.frame) && m2.nodes == m.nodes
      && LeafPte(p.frame, Marked(p)) == Marked(p) && InUse(m2, p.frame) && Downgraded(p, Lookup(m2, src, pg))
  {
    var p := Lookup(m, src, pg);
    MappedLeaf(m, held, src, pg);
    OthersReadOnly(m, held, src, pg);
    var t := LeafTable(m, src, pg).value;
    var m1 := SetEntry(m, t, pg.i0, Marked(p));
    RewriteRefs(m, held, src, pg, Marked(p));
    RewriteLeaf(m, held, src, pg, Marked(p), held);
    var m2 := Inc(m1, p.frame, 1);
    IncKeeps(m1, held, p.frame, 1, held + multiset{p.frame});
    SameRefs(m1, m2);
    SameTablesView(m1, m2);
  }

  lemma GrowsLeafTable(m: Mem, m': Mem, held: multiset<Frame>, r: Frame, pg: Page)
    requires Shape(m) && Tree(m) && Grows(m, m', held) && IsRoot(m, r) && PageOk(pg) && LeafTable(m, r, pg).Some?
    ensures LeafTable(m', r, pg) == LeafTable(m, r, pg)
  {
    assert ChildOk(m, r, pg.i2);
  }

  lemma UndoMappable(m: Mem, m3: Mem, held: multiset<Frame>, src: Frame, pg: Page)
    requires Inv(m, held) && IsRoot(m, src) && PageOk(pg) && Lookup(m, src, pg).valid
    requires Grows(Mark(m, src, pg), m3, held + multiset{Lookup(m, src, pg).frame})
    ensures var p := Lookup(m, src, pg); var t := LeafTableOr0(m, src, pg);
      && LeafTable(m3, src, pg) == Some(t) && Mappable(m3, t, pg.i0, p) && Lookup(m3, src, pg) == Marked(p)
      && IsRoot(m3, src) && InUse(m3, p.frame)
  {
    var p := Lookup(m, src, pg);
    MarkKeeps(m, held, src, pg);
    OthersReadOnly(m, held, src, pg);
    MappedLeaf(m, held, src, pg);
    GrowsLeafTable(Mark(m, src, pg), m3, held + multiset{p.frame}, src, pg);
    PermMappable(Mark(m, src, pg), m3, held + multiset{p.frame}, LeafTableOr0(m, src, pg), pg.i0, p.frame, Marked(p));
  }

  /** The failure path of `uvmcopy`: the marked entry and the reference are put back. */
  lemma UndoKeeps(m: Mem, m3: Mem, held: multiset<Frame>, src: Frame, pg: Page)
    requires Inv(m, held) && IsRoot(m, src) && PageOk(pg) && Lookup(m, src, pg).valid
    requires Grows(Mark(m, src, pg), m3, held + multiset{Lookup(m, src, pg).frame})
    ensures var p := Lookup(m, src, pg); var m' := Inc(SetEntry(m3, LeafTableOr0(m, src, pg), pg.i0, p), p.frame, -1);
      Inv(m', held) && SameView(m, m') && KeepsBytes(m, m') && m'.free == m3.free
  {
    var p := Lookup(m, src, pg);
    var held2 := held + multiset{p.frame};
    var m4 := SetEntry(m3, LeafTableOr0(m, src, pg), pg.i0, p);
    assert Inv(m4, held2) && Rewritten(m3, m4, src, pg, p) && KeepsBytes(m3, m4) && InUse(m4, p.frame) by {
      UndoMappable(m, m3, held, src, pg);
      RewriteLeaf(m3, held2, src, pg, p, held2);
    }
    IncKeeps(m4, held2, p.frame, -1, held);
    SameTablesView(m4, Inc(m4, p.frame, -1));
    UndoView(m, Mark(m, src, pg), m3, m4, held, src, pg);
  }

  lemma UndoView(m: Mem, m2: Mem, m3: Mem, m4: Mem, held: multiset<Frame>, src: Frame, pg: Page)
    requires Inv(m, held) && IsRoot(m, src) && PageOk(pg) && Lookup(m, src, pg).valid
    requires m2 == Mark(m, src, pg) && SameView(m2, m3) && KeepsBytes(m2, m3)
    requires Rewritten(m3, m4, src, pg, Lookup(m, src, pg)) && KeepsBytes(m3, m4)
    ensures SameView(m, m4) && KeepsBytes(m, m4)
  {
    MarkKeeps(m, held, src, pg);
    forall r: Frame, pg': Page | IsRoot(m, r) && PageOk(pg') ensures Lookup(m4, r, pg') == Lookup(m, r, pg') {
      assert IsRoot(m2, r) && IsRoot(m3, r);
      assert Lookup(m3, r, pg') == Lookup(m2, r, pg');
    }
  }

  /** What sharing a page does: both address spaces map the marked entry, nothing else changes;
      on failure nothing any address space sees changes. */
  ghost predicate Shared(m: Mem, m': Mem, src: Frame, dst: Frame, pg: Page) {
    && m'.base == m.base
    && (forall r | IsRoot(m, r) :: IsRoot(m', r))
    && (forall r, pg' | IsRoot(m, r) && PageOk(pg') :: Lookup(m', r, pg')
          == if (r == src || r == dst) && pg' == pg then Marked(Lookup(m, src, pg)) else Lookup(m, r, pg'))
  }

  lemma ShareKeeps(m: Mem, held: multiset<Frame>, src: Frame, dst: Frame, pg: Page)
    requires Inv(m, held) && IsRoot(m, src) && IsRoot(m, dst) && src != dst && PageOk(pg)
    requires Lookup(m, src, pg).valid && !Lookup(m, dst, pg).valid
    ensures var (m', ok) := Share(m, src, dst, pg);
      && Inv(m', held) && KeepsBytes(m, m')
      && (ok ==> Shared(m, m', src, dst, pg))
      && (!ok ==> SameView(m, m') && m'.free == [])
  {
    var p := Lookup(m, src, pg);
    var m2 := Mark(m, src, pg);
    MarkKeeps(m, held, src, pg);
    var held2 := held + multiset{p.frame};
    assert Lookup(m2, dst, pg) == Lookup(m, dst, pg);
    MapPageKeeps(m2, held2, dst, pg, p.frame, Marked(p));
    var (m3, res) := MapPage(m2, dst, pg, p.frame, Marked(p));
    if res == Mapped {
      assert held2 - multiset{p.frame} == held;
    } else {
      UndoKeeps(m, m3, held, src, pg);
    }
  }

  // ----- uvmcopy, all pages -----

  /** `uvmcopy` over virtual pages [n, hi) in increasing order. */
  ghost function CopyFrom(m: Mem, src: Frame, dst: Frame, n: nat, hi: nat): (Mem, bool)
    decreases hi - n, |m.free|
  {
    if n >= hi then (m, true)
    else if !Lookup(m, src, PageAt(n)).valid then CopyFrom(m, src, dst, n + 1, hi)
    else
      var (m1, ok) := Share(m, src, dst, PageAt(n));
      if !ok then (m1, false) else CopyFrom(m1, src, dst, n + 1, hi)
  }

  /** The page at which the copy gives up; `hi` when it does not. */
  ghost function StopAt(m: Mem, src: Frame, dst: Frame, n: nat, hi: nat): nat
    decreases hi - n, |m.free|
  {
    if n >= hi then hi
    else if !Lookup(m, src, PageAt(n)).valid then StopAt(m, src, dst, n + 1, hi)
    else
      var (m1, ok) := Share(m, src, dst, PageAt(n));
      if !ok then n else StopAt(m1, src, dst, n + 1, hi)
  }

  /** Pages [lo, hi) copied: there both address spaces have the source's entries, marked where they were
      writable; everywhere else, and in every other address space, nothing changed. */
  ghost predicate Copied(m: Mem, m': Mem, src: Frame, dst: Frame, lo: nat, hi: nat) {
    && m'.base == m.base
    && (forall r | IsRoot(m, r) :: IsRoot(m', r))
    && (forall r, pg | IsRoot(m, r) && r != src && r != dst && PageOk(pg) :: Lookup(m', r, pg) == Lookup(m, r, pg))
    && (forall pg | PageOk(pg) && !InRange(pg, lo, hi) ::
          Lookup(m', src, pg) == Lookup(m, src, pg) && Lookup(m', dst, pg) == Lookup(m, dst, pg))
    && (forall pg | InRange(pg, lo, hi) :: CopiedAt(m, m', src, dst, pg))
  }

  ghost predicate CopiedAt(m: Mem, m': Mem, src: Frame, dst: Frame, pg: Page) {
    Lookup(m', src, pg) == Marked(Lookup(m, src, pg)) == Lookup(m', dst, pg)
  }

  lemma CopySkip(m: Mem, m': Mem, src: Frame, dst: Frame, pg: Page, n: nat, hi: nat)
    requires PageOk(pg) && NumOf(pg) == n < hi && Copied(m, m', src, dst, n + 1, hi)
    requires Lookup(m, src, pg) == NoPte == Lookup(m, dst, pg)
    ensures Copied(m, m', src, dst, n, hi)
  {
    assert !InRange(pg, n + 1, hi);
    forall pg' | InRange(pg', n, hi) ensures CopiedAt(m, m', src, dst, pg') {
      if NumOf(pg') == n { NumInjective(pg, pg'); } else { assert InRange(pg', n + 1, hi); }
    }
    forall pg' | PageOk(pg') && !InRange(pg', n, hi) ensures !InRange(pg', n + 1, hi) {}
  }

  lemma CopyStep(m: Mem, m1: Mem, m': Mem, src: Frame, dst: Frame, pg: Page, n: nat, hi: nat)
    requires PageOk(pg) && NumOf(pg) == n < hi && src != dst && IsRoot(m, src) && IsRoot(m, dst)
    requires Shared(m, m1, src, dst, pg) && Copied(m1, m', src, dst, n + 1, hi)
    ensures Copied(m, m', src, dst, n, hi)
  {
    assert !InRange(pg, n + 1, hi);
    forall pg' | InRange(pg', n, hi) ensures CopiedAt(m, m', src, dst, pg') {
      if NumOf(pg') == n { NumInjective(pg, pg'); }
      else { assert InRange(pg', n + 1, hi); assert CopiedAt(m1, m', src, dst, pg'); }
    }
    forall pg' | PageOk(pg') && !InRange(pg', n, hi) ensures !InRange(pg', n + 1, hi) && pg' != pg {}
  }

  lemma CopyNone(m: Mem, m': Mem, src: Frame, dst: Frame, n: nat)
    requires SameView(m, m') && IsRoot(m, src) && IsRoot(m, dst)
    ensures Copied(m, m', src, dst, n, n)
  {
  }

  lemma SharedValid(m: Mem, m1: Mem, src: Frame, dst: Frame, pg: Page, n: nat)
    requires Shared(m, m1, src, dst, pg) && IsRoot(m, src) && Lookup(m, src, pg).valid && n < 134217728
    ensures MappedAt(m1, src, n) ==> MappedAt(m, src, n)
  {
    PageNum(n);
  }

  lemma SharedNext(m: Mem, m1: Mem, src: Frame, dst: Frame, pg: Page, n: nat, hi: nat)
    requires Shared(m, m1, src, dst, pg) && IsRoot(m, dst) && NumOf(pg) == n
    requires forall pg | InRange(pg, n, hi) :: Lookup(m, dst, pg) == NoPte
    ensures forall pg | InRange(pg, n + 1, hi) :: Lookup(m1, dst, pg) == NoPte
  {
    forall pg' | InRange(pg', n + 1, hi) ensures Lookup(m1, dst, pg') == NoPte { assert InRange(pg', n, hi); }
  }

  /** What a copy of pages [n, hi) that stopped at `stop` has done. */
  ghost predicate CopyDone(m: Mem, m': Mem, held: multiset<Frame>, src: Frame, dst: Frame, n: nat, hi: nat, stop: nat,
      ok: bool)
  {
    && Inv(m', held) && KeepsBytes(m, m') && n <= stop <= hi && (ok <==> stop == hi)
    && Copied(m, m', src, dst, n, stop)
    && (!ok ==> m'.free == [] && MappedAt(m, src, stop))
  }

  lemma CopyDoneShared(m: Mem, m1: Mem, m': Mem, held: multiset<Frame>, src: Frame, dst: Frame, pg: Page, n: nat,
      hi: nat, stop: nat, ok: bool)
    requires PageOk(pg) && NumOf(pg) == n < hi <= 134217728 && src != dst && IsRoot(m, src) && IsRoot(m, dst)
    requires Lookup(m, src, pg).valid
    requires Shared(m, m1, src, dst, pg) && KeepsBytes(m, m1) && CopyDone(m1, m', held, src, dst, n + 1, hi, stop, ok)
    ensures CopyDone(m, m', held, src, dst, n, hi, stop, ok)
  {
    CopyStep(m, m1, m', src, dst, pg, n, stop);
    if stop < hi { SharedValid(m, m1, src, dst, pg, stop); }
  }

  /** The copy fails exactly when it stops short.  It then stops at a mapped page, with every page before it
      copied, no other entry changed, and no frame left. */
  lemma {:induction false} CopyKeeps(m: Mem, held: multiset<Frame>, src: Frame, dst: Frame, n: nat, hi: nat)
    requires Inv(m, held) && IsRoot(m, src) && IsRoot(m, dst) && src != dst && n <= hi <= 134217728
    requires forall pg | InRange(pg, n, hi) :: Lookup(m, dst, pg) == NoPte
    ensures var (m', ok) := CopyFrom(m, src, dst, n, hi);
      CopyDone(m, m', held, src, dst, n, hi, StopAt(m, src, dst, n, hi), ok)
    decreases hi - n, 1
  {
    if n == hi {
      CopyNone(m, m, src, dst, n);
    } else {
      PageNum(n);
      var pg := PageAt(n);
      assert InRange(pg, n, hi);
      if !Lookup(m, src, pg).valid {
        CopyKeeps(m, held, src, dst, n + 1, hi);
        CopySkip(m, CopyFrom(m, src, dst, n, hi).0, src, dst, pg, n, StopAt(m, src, dst, n, hi));
      } else {
        var (m', ok) := CopyFrom(m, src, dst, n, hi);
        var (m1, ok1) := Share(m, src, dst, pg);
        ShareKeeps(m, held, src, dst, pg);
        if ok1 {
          SharedNext(m, m1, src, dst, pg, n, hi);
          CopyRest(m1, m', held, src, dst, n + 1, hi, StopAt(m, src, dst, n, hi), ok);
          CopyDoneShared(m, m1, m', held, src, dst, pg, n, hi, StopAt(m, src, dst, n, hi), ok);
        } else {
          CopyNone(m, m1, src, dst, n);
        }
      }
    }
  }

  lemma {:induction false} CopyRest(m: Mem, m': Mem, held: multiset<Frame>, src: Frame, dst: Frame, n: nat, hi: nat,
      stop: nat, ok: bool)
    requires Inv(m, held) && IsRoot(m, src) && IsRoot(m, dst) && src != dst && n <= hi <= 134217728
    requires forall pg | InRange(pg, n, hi) :: Lookup(m, dst, pg) == NoPte
    requires CopyFrom(m, src, dst, n, hi) == (m', ok) && StopAt(m, src, dst, n, hi) == stop
    ensures CopyDone(m, m', held, src, dst, n, hi, stop, ok)
    decreases hi - n, 2
  {
    CopyKeeps(m, held, src, dst, n, hi);
  }

  // ----- replacing or dropping a mapped page -----

  /** kfree the frame behind a mapped page and write `q` into its leaf entry. */
  function ReplaceLeaf(m: Mem, r: Frame, pg: Page, q: Pte): Mem {
    SetEntry(Kfree(m, Lookup(m, r, pg).frame), LeafTableOr0(m, r, pg), pg.i0, q)
  }

  lemma KfreeSetEntry(m: Mem, t: Frame, i: nat, q: Pte, f: Frame)
    requires t != f
    ensures SetEntry(Kfree(m, f), t, i, q) == Kfree(SetEntry(m, t, i, q), f)
  {
    var m1 := SetEntry(Kfree(m, f), t, i, q);
    var m2 := Kfree(SetEntry(m, t, i, q), f);
    assert m1.tab == m2.tab;
  }

  /** Pages that stay mapped keep their bytes when another page's reference is dropped. */
  lemma KfreeContent(m: Mem, held: multiset<Frame>, f: Frame)
    requires Inv(m, held) && f in held
    ensures SameContent(m, Kfree(m, f))
  {
    KfreeKeeps(m, held, f);
    SameTablesView(m, Kfree(m, f));
    forall r: Frame, pg: Page | IsRoot(m, r) && PageOk(pg) ensures Content(Kfree(m, f), r, pg) == Content(m, r, pg) {
      if Lookup(m, r, pg).valid {
        MappedLeaf(m, held, r, pg);
        assert CountOk(m, held, f);
      }
    }
  }

  lemma ReplaceKeeps(m: Mem, held: multiset<Frame>, r: Frame, pg: Page, q: Pte)
    requires Inv(m, held) && IsRoot(m, r) && PageOk(pg) && Lookup(m, r, pg).valid
    requires q.valid ==> q.frame in held && q.frame != Lookup(m, r, pg).frame && Refs(m, q.frame) == {} && q.d == q.w
    requires q.valid ==> !(q.w && q.cow)
    ensures var m' := ReplaceLeaf(m, r, pg, q);
      && Inv(m', held - Held(q)) && Rewritten(m, m', r, pg, q)
      && SameContentExcept(m, m', r, pg)
      && (q.valid ==> PageBytes(m', q.frame) == PageBytes(m, q.frame))
  {
    var f := Lookup(m, r, pg).frame;
    var t := LeafTableOr0(m, r, pg);
    MappedLeaf(m, held, r, pg);
    var held1 := held - Held(q) + multiset{f};
    var m1 := SetEntry(m, t, pg.i0, q);
    assert Inv(m1, held1) && Rewritten(m, m1, r, pg, q) && m1.data == m.data by {
      assert held1 + Held(q) == held + multiset{f};
      RewriteLeaf(m, held, r, pg, q, held1);
    }
    KfreeSetEntry(m, t, pg.i0, q, f);
    KfreeKeeps(m1, held1, f);
    assert held1 - multiset{f} == held - Held(q);
    SameTablesView(m1, Kfree(m1, f));
    KfreeContent(m1, held1, f);
    ReplaceContent(m, m1, ReplaceLeaf(m, r, pg, q), r, pg, q);
  }

  lemma ReplaceContent(m: Mem, m1: Mem, m': Mem, r: Frame, pg: Page, q: Pte)
    requires Rewritten(m, m1, r, pg, q) && m1.data == m.data && SameContent(m1, m')
    ensures SameContentExcept(m, m', r, pg)
  {
    forall r': Frame, pg': Page | IsRoot(m, r') && PageOk(pg') && (r', pg') != (r, pg)
      ensures Content(m', r', pg') == Content(m, r', pg')
    {
      assert IsRoot(m1, r');
      assert Lookup(m1, r', pg') == Lookup(m, r', pg');
    }
  }

  // ----- copy-on-write fault -----

  function CowFault(m: Mem, r: Frame, pg: Page): (Mem, bool) {
    var p := Lookup(m, r, pg);
    if !p.valid || !p.user || !p.cow || p.w || p.d || m.free == [] then (m, false) else
    var f := Head(m);
    var m1 := SetPage(Kalloc(m), f, PageBytes(m, p.frame));
    (ReplaceLeaf(m1, r, pg, p.(frame := f, cow := false, w := true, d := true)), true)
  }

  /** A resolved fault gives the page a private writable frame with the same bytes. */
  ghost predicate Privatized(m: Mem, m': Mem, r: Frame, pg: Page) {
    var p := Lookup(m, r, pg);
    && m.free != [] && Rewritten(m, m', r, pg, p.(frame := Head(m), cow := false, w := true, d := true))
    && SameContent(m, m')
  }

  lemma KallocPage(m: Mem, held: multiset<Frame>, bytes: seq<Byte>)
    requires Inv(m, held) && m.free != [] && |bytes| == PGSIZE
    ensures var f := Head(m); var m1 := SetPage(Kalloc(m), f, bytes);
      && Inv(m1, held + multiset{f}) && SameView(m, m1) && SameContent(m, m1) && KeepsBytes(m, m1)
      && SameTables(m, m1) && Refs(m1, f) == {} && InUse(m1, f) && !InUse(m, f) && PageBytes(m1, f) == bytes
      && (forall r, pg | IsRoot(m, r) && PageOk(pg) :: LeafTable(m1, r, pg) == LeafTable(m, r, pg))
  {
    var f := Head(m);
    assert f in m.free;
    KallocKeeps(m, held);
    var m0 := Kalloc(m);
    var m1 := SetPage(m0, f, bytes);
    SetPageKeeps(m0, held + multiset{f}, f, bytes);
    SameRefs(m0, m1);
    assert SameTables(m, m1);
    SameTablesView(m, m1);
    assert KeepsBytes(m, m1);
    KeptContent(m, m1, held);
  }

  lemma KeptContent(m: Mem, m1: Mem, held: multiset<Frame>)
    requires Inv(m, held) && SameView(m, m1) && KeepsBytes(m, m1)
    ensures SameContent(m, m1)
  {
    forall r: Frame, pg: Page | IsRoot(m, r) && PageOk(pg) ensures Content(m1, r, pg) == Content(m, r, pg) {
      if Lookup(m, r, pg).valid { MappedLeaf(m, held, r, pg); }
    }
  }

  lemma CowFaultKeeps(m: Mem, held: multiset<Frame>, r: Frame, pg: Page)
    requires Inv(m, held) && IsRoot(m, r) && PageOk(pg)
    ensures var (m', ok) := CowFault(m, r, pg);
      && Inv(m', held) && (!ok ==> m' == m) && (ok ==> Privatized(m, m', r, pg))
      && (ok <==> m.free != [] && Lookup(m, r, pg).cow && Lookup(m, r, pg).user)
  {
    var p := Lookup(m, r, pg);
    if p.valid { MappedLeaf(m, held, r, pg); }
    var (m', ok) := CowFault(m, r, pg);
    if ok {
      var f := Head(m);
      var m1 := SetPage(Kalloc(m), f, PageBytes(m, p.frame));
      KallocPage(m, held, PageBytes(m, p.frame));
      var q := p.(frame := f, cow := false, w := true, d := true);
      ReplaceKeeps(m1, held + multiset{f}, r, pg, q);
      assert held + multiset{f} - Held(q) == held;
      PrivatizedContent(m, m1, m', r, pg, q);
    }
  }

  lemma PrivatizedContent(m: Mem, m1: Mem, m': Mem, r: Frame, pg: Page, q: Pte)
    requires IsRoot(m, r) && PageOk(pg) && SameView(m, m1) && SameContent(m, m1) && Rewritten(m1, m', r, pg, q)
    requires SameContentExcept(m1, m', r, pg)
    requires q.valid && Content(m, r, pg) == Some(PageBytes(m', q.frame))
    ensures SameContent(m, m') && Rewritten(m, m', r, pg, q)
  {
    forall r': Frame, pg': Page | IsRoot(m, r') && PageOk(pg') ensures Content(m', r', pg') == Content(m, r', pg') {
      assert IsRoot(m1, r') && Lookup(m1, r', pg') == Lookup(m, r', pg');
    }
  }

  // ----- user stores and kernel copies into a user page -----

  function Patch(page: seq<Byte>, off: nat, bytes: seq<Byte>): seq<Byte> {
    if off + |bytes| <= |page| then page[..off] + bytes + page[off + |bytes|..] else page
  }

  /** A store goes through only where the leaf grants user write permission. */
  predicate CanStore(m: Mem, r: Frame, pg: Page) {
    var p := Lookup(m, r, pg);
    p.valid && p.user && p.w
  }

  function StoreBytes(m: Mem, r: Frame, pg: Page, off: nat, bytes: seq<Byte>): Mem {
    var p := Lookup(m, r, pg);
    SetPage(m, p.frame, Patch(PageBytes(m, p.frame), off, bytes))
  }

  /** A store changes the bytes of its own page in its own address space and of no other page
      in any address space. */
  lemma StoreKeeps(m: Mem, held: multiset<Frame>, r: Frame, pg: Page, off: nat, bytes: seq<Byte>)
    requires Inv(m, held) && IsRoot(m, r) && PageOk(pg) && CanStore(m, r, pg)
    ensures var m' := StoreBytes(m, r, pg, off, bytes);
      && Inv(m', held) && SameView(m, m') && SameContentExcept(m, m', r, pg)
      && Content(m, r, pg).Some? && Content(m', r, pg) == Some(Patch(Content(m, r, pg).value, off, bytes))
  {
    var p := Lookup(m, r, pg);
    MappedLeaf(m, held, r, pg);
    var m' := StoreBytes(m, r, pg, off, bytes);
    SetPageKeeps(m, held, p.frame, Patch(PageBytes(m, p.frame), off, bytes));
    SameTablesView(m, m');
    forall r': Frame, pg': Page | IsRoot(m, r') && PageOk(pg') && (r', pg') != (r, pg)
      ensures Content(m', r', pg') == Content(m, r', pg')
    {
      if Lookup(m, r', pg').valid && Lookup(m, r', pg').frame == p.frame { SharedNotWritable(m, held, r, pg, r', pg'); }
    }
  }

  // ----- lazily allocated pages -----

  /** A fresh frame holding `bytes` is mapped at an unmapped page, or freed again. */
  function LazyMap(m: Mem, r: Frame, pg: Page, perm: Pte, bytes: seq<Byte>): (Mem, bool) {
    if m.free == [] then (m, false) else
    var f := Head(m);
    var (m2, res) := MapPage(SetPage(Kalloc(m), f, bytes), r, pg, f, perm);
    if res == Mapped then (m2, true) else (Kfree(m2, f), false)
  }

  lemma LazyMapKeeps(m: Mem, held: multiset<Frame>, r: Frame, pg: Page, perm: Pte, bytes: seq<Byte>)
    requires Inv(m, held) && IsRoot(m, r) && PageOk(pg) && !Lookup(m, r, pg).valid && |bytes| == PGSIZE
    requires !perm.cow && (perm.d ==> perm.w)
    ensures var (m', ok) := LazyMap(m, r, pg, perm, bytes);
      && Inv(m', held) && SameContentExcept(m, m', r, pg)
      && (ok ==> Rewritten(m, m', r, pg, LeafPte(Head(m), perm)) && Content(m', r, pg) == Some(bytes))
      && (!ok ==> SameView(m, m') && SameContent(m, m') && |m'.free| <= 1)
  {
    if m.free != [] {
      var f := Head(m);
      var held1 := held + multiset{f};
      var m1 := SetPage(Kalloc(m), f, bytes);
      KallocPage(m, held, bytes);
      assert IsRoot(m1, r) && Lookup(m1, r, pg) == Lookup(m, r, pg);
      MapPageKeeps(m1, held1, r, pg, f, perm);
      var (m2, res) := MapPage(m1, r, pg, f, perm);
      assert held1 - multiset{f} == held;
      if res == Mapped {
        LazyContent(m, m1, m2, held1, r, pg, LeafPte(f, perm));
      } else {
        KfreeKeeps(m2, held1, f);
        SameTablesView(m2, Kfree(m2, f));
        KfreeContent(m2, held1, f);
        KeptContent(m1, m2, held1);
        LazyUndone(m, m1, m2, Kfree(m2, f));
      }
    }
  }

  lemma LazyContent(m: Mem, m1: Mem, m2: Mem, held: multiset<Frame>, r: Frame, pg: Page, q: Pte)
    requires Inv(m1, held) && SameView(m, m1) && SameContent(m, m1) && KeepsBytes(m1, m2) && Rewritten(m1, m2, r, pg, q)
    ensures Rewritten(m, m2, r, pg, q) && SameContentExcept(m, m2, r, pg)
  {
    forall r': Frame, pg': Page | IsRoot(m, r') && PageOk(pg') && (r', pg') != (r, pg)
      ensures Content(m2, r', pg') == Content(m, r', pg')
    {
      assert IsRoot(m1, r') && Lookup(m1, r', pg') == Lookup(m, r', pg');
      assert Content(m1, r', pg') == Content(m, r', pg');
      if Lookup(m1, r', pg').valid { MappedLeaf(m1, held, r', pg'); }
    }
  }

  lemma LazyUndone(m: Mem, m1: Mem, m2: Mem, m3: Mem)
    requires SameView(m, m1) && SameView(m1, m2) && SameTables(m2, m3) && Tree(m2)
    requires SameContent(m, m1) && SameContent(m1, m2) && SameContent(m2, m3)
    ensures SameView(m, m3) && SameContent(m, m3)
  {
    SameTablesView(m2, m3);
    forall r: Frame, pg: Page | IsRoot(m, r) && PageOk(pg)
      ensures Lookup(m3, r, pg) == Lookup(m, r, pg) && Content(m3, r, pg) == Content(m, r, pg)
    {
      assert IsRoot(m1, r) && IsRoot(m2, r);
      assert Lookup(m1, r, pg) == Lookup(m, r, pg) && Lookup(m2, r, pg) == Lookup(m1, r, pg);
      assert Content(m1, r, pg) == Content(m, r, pg) && Content(m2, r, pg) == Content(m1, r, pg);
    }
  }

  /** A frame taken and given straight back. */
  lemma ReadErrorKeeps(m: Mem, held: multiset<Frame>)
    requires Inv(m, held) && m.free != []
    ensures var m' := Kfree(Kalloc(m), Head(m)); Inv(m', held) && SameView(m, m') && SameContent(m, m')
  {
    var f := Head(m);
    KallocKeeps(m, held);
    var m1 := Kalloc(m);
    KfreeKeeps(m1, held + multiset{f}, f);
    assert held + multiset{f} - multiset{f} == held;
    assert f in m.free;
    SameTablesView(m, m1);
    assert KeepsBytes(m, m1);
    KeptContent(m, m1, held);
    KfreeContent(m1, held + multiset{f}, f);
    LazyUndone(m, m, m1, Kfree(m1, f));
  }

  // ----- unmapping a range -----

  function DropPage(m: Mem, r: Frame, pg: Page): Mem {
    if Lookup(m, r, pg).valid then ReplaceLeaf(m, r, pg, NoPte) else m
  }

  /** `kvmunmap`, `uvmunmap` and `release_page_table` over pages [n, hi). */
  ghost function DropFrom(m: Mem, r: Frame, n: nat, hi: nat): Mem
    decreases hi - n, |m.free|
  {
    if n >= hi then m else DropFrom(DropPage(m, r, PageAt(n)), r, n + 1, hi)
  }

  /** Exactly the pages [lo, hi) of `r` are unmapped; all others keep entry and bytes. */
  ghost predicate Dropped(m: Mem, m': Mem, r: Frame, lo: nat, hi: nat) {
    && m'.base == m.base
    && (forall r' | IsRoot(m, r') :: IsRoot(m', r'))
    && (forall pg | InRange(pg, lo, hi) :: Lookup(m', r, pg) == NoPte)
    && (forall r': Frame, pg: Page | IsRoot(m, r') && PageOk(pg) && !(r' == r && InRange(pg, lo, hi)) ::
          Lookup(m', r', pg) == Lookup(m, r', pg) && Content(m', r', pg) == Content(m, r', pg))
  }

  lemma {:induction false} DropKeeps(m: Mem, held: multiset<Frame>, r: Frame, n: nat, hi: nat)
    requires Inv(m, held) && IsRoot(m, r) && n <= hi <= 134217728
    ensures Inv(DropFrom(m, r, n, hi), held) && Dropped(m, DropFrom(m, r, n, hi), r, n, hi)
    decreases hi - n
  {
    if n < hi {
      PageNum(n);
      var pg := PageAt(n);
      var m1 := DropPage(m, r, pg);
      if Lookup(m, r, pg).valid {
        ReplaceKeeps(m, held, r, pg, NoPte);
        assert held - Held(NoPte) == held;
      }
      DropKeeps(m1, held, r, n + 1, hi);
      DropStep(m, m1, DropFrom(m, r, n, hi), r, pg, n, hi);
    }
  }

  lemma DropStep(m: Mem, m1: Mem, m': Mem, r: Frame, pg: Page, n: nat, hi: nat)
    requires PageOk(pg) && NumOf(pg) == n < hi && IsRoot(m, r)
    requires Rewritten(m, m1, r, pg, NoPte) && SameContentExcept(m, m1, r, pg) && Dropped(m1, m', r, n + 1, hi)
    ensures Dropped(m, m', r, n, hi)
  {
    assert !InRange(pg, n + 1, hi);
    forall pg' | InRange(pg', n, hi) ensures Lookup(m', r, pg') == NoPte {
      if NumOf(pg') == n { NumInjective(pg, pg'); } else { assert InRange(pg', n + 1, hi); }
    }
    forall r': Frame, pg': Page | IsRoot(m, r') && PageOk(pg') && !(r' == r && InRange(pg', n, hi))
      ensures Lookup(m', r', pg') == Lookup(m, r', pg') && Content(m', r', pg') == Content(m, r', pg')
    {
      assert IsRoot(m1, r') && (r', pg') != (r, pg);
      assert !(r' == r && InRange(pg', n + 1, hi));
    }
  }

  lemma DropRoots(m: Mem, held: multiset<Frame>, r: Frame, pg: Page)
    requires Inv(m, held) && IsRoot(m, r) && PageOk(pg)
    ensures forall r' | IsRoot(m, r') :: IsRoot(DropPage(m, r, pg), r')
  {
    if Lookup(m, r, pg).valid { ReplaceKeeps(m, held, r, pg, NoPte); }
  }

  // ----- skipping whole directories -----

  lemma PageInDir2(i2: nat, j: nat)
    requires i2 * 262144 <= j < i2 * 262144 + 262144
    ensures PageAt(j).i2 == i2
  {
    var x := j - i2 * 262144;
    assert j / 512 == i2 * 512 + x / 512;
    DivMod512(i2, x / 512);
  }

  lemma PageInDir1(i2: nat, i1: nat, j: nat)
    requires i1 < 512 && (i2 * 512 + i1) * 512 <= j < (i2 * 512 + i1) * 512 + 512
    ensures PageAt(j).i2 == i2 && PageAt(j).i1 == i1
  {
    DivMod512(i2 * 512 + i1, j - (i2 * 512 + i1) * 512);
    DivMod512(i2, i1);
  }

  /** Every page [n, n + k) of `r` is unmapped. */
  ghost predicate Hole(m: Mem, r: Frame, n: nat, k: nat) {
    forall j | n <= j < n + k :: !Lookup(m, r, PageAt(j)).valid
  }

  lemma HoleDir2(m: Mem, r: Frame, i2: nat)
    requires !Entry(m, r, i2).valid
    ensures Hole(m, r, i2 * 262144, 262144)
  {
    forall j | i2 * 262144 <= j < i2 * 262144 + 262144 ensures !Lookup(m, r, PageAt(j)).valid { PageInDir2(i2, j); }
  }

  lemma HoleDir1(m: Mem, r: Frame, i2: nat, i1: nat)
    requires i1 < 512 && (Entry(m, r, i2).valid ==> !Entry(m, Entry(m, r, i2).frame, i1).valid)
    ensures Hole(m, r, (i2 * 512 + i1) * 512, 512)
  {
    forall j | (i2 * 512 + i1) * 512 <= j < (i2 * 512 + i1) * 512 + 512
      ensures !Lookup(m, r, PageAt(j)).valid
    {
      PageInDir1(i2, i1, j);
    }
  }

  lemma {:induction false} CopyHole(m: Mem, src: Frame, dst: Frame, n: nat, k: nat, hi: nat)
    requires Hole(m, src, n, k) && n + k <= hi
    ensures CopyFrom(m, src, dst, n, hi) == CopyFrom(m, src, dst, n + k, hi)
    decreases k
  {
    if k > 0 {
      assert !Lookup(m, src, PageAt(n)).valid;
      CopyHole(m, src, dst, n + 1, k - 1, hi);
    }
  }

  lemma {:induction false} DropHole(m: Mem, r: Frame, n: nat, k: nat, hi: nat)
    requires Hole(m, r, n, k) && n + k <= hi
    ensures DropFrom(m, r, n, hi) == DropFrom(m, r, n + k, hi)
    decreases k
  {
    if k > 0 {
      assert !Lookup(m, r, PageAt(n)).valid;
      DropHole(m, r, n + 1, k - 1, hi);
    }
  }

  /** Directory entries that are valid stay as they are. */
  ghost predicate DirsKept(m: Mem, m': Mem) {
    && (forall t {:trigger NodeKept(m, m', t)} :: NodeKept(m, m', t))
    && (forall t, i {:trigger DirKept(m, m', t, i)} :: DirKept(m, m', t, i))
  }

  ghost predicate NodeKept(m: Mem, m': Mem, t: Frame) {
    t in m.nodes ==> t in m'.nodes && m'.nodes[t] == m.nodes[t]
  }

  ghost predicate DirKept(m: Mem, m': Mem, t: Frame, i: nat) {
    t in m.nodes && m.nodes[t].level > 0 && i < ENTRIES && Entry(m, t, i).valid ==> Entry(m', t, i) == Entry(m, t, i)
  }

  lemma DirsKeptTrans(m: Mem, m1: Mem, m': Mem)
    requires DirsKept(m, m1) && DirsKept(m1, m')
    ensures DirsKept(m, m')
  {
    forall t: Frame ensures NodeKept(m, m', t) { assert NodeKept(m, m1, t) && NodeKept(m1, m', t); }
    forall t: Frame, i: nat
      ensures DirKept(m, m', t, i)
    {
      assert NodeKept(m, m1, t) && DirKept(m, m1, t, i) && DirKept(m1, m', t, i);
    }
  }

  lemma ShareDirs(m: Mem, held: multiset<Frame>, src: Frame, dst: Frame, pg: Page)
    requires Inv(m, held) && IsRoot(m, src) && IsRoot(m, dst) && src != dst && PageOk(pg)
    requires Lookup(m, src, pg).valid && !Lookup(m, dst, pg).valid
    ensures DirsKept(m, Share(m, src, dst, pg).0)
  {
    var p := Lookup(m, src, pg);
    MarkKeeps(m, held, src, pg);
    MappedLeaf(m, held, src, pg);
    var m2 := Mark(m, src, pg);
    var t := LeafTable(m, src, pg).value;
    SetLeafRefs(m, t, pg.i0, Marked(p));
    assert DirsKept(m, m2);
    var (m4, res) := MapPage(m2, dst, pg, p.frame, Marked(p));
    MapPageDirs(m2, held + multiset{p.frame}, dst, pg, p.frame, Marked(p));
    DirsKeptTrans(m, m2, m4);
    if res != Mapped { UnmarkDirs(m, m4, t, pg.i0, p); }
  }

  lemma MapPageDirs(m: Mem, held: multiset<Frame>, r: Frame, pg: Page, f: Frame, perm: Pte)
    requires Inv(m, held) && IsRoot(m, r) && PageOk(pg)
    ensures DirsKept(m, MapPage(m, r, pg, f, perm).0)
  {
    WalkGrows(m, held, r, pg);
    var (m1, t) := WalkAlloc(m, r, pg);
    MapDirs(m, m1, held);
    if t.Some? {
      SetLeafRefs(m1, t.value, pg.i0, LeafPte(f, perm));
      SetLeafDirs(m1, t.value, pg.i0, LeafPte(f, perm));
      DirsKeptTrans(m, m1, SetEntry(m1, t.value, pg.i0, LeafPte(f, perm)));
    }
  }

  lemma SetLeafDirs(m: Mem, t: Frame, i: nat, p: Pte)
    requires IsLeafTable(m, t)
    ensures DirsKept(m, SetEntry(m, t, i, p))
  {
  }

  lemma MapDirs(m: Mem, m': Mem, held: multiset<Frame>)
    requires Grows(m, m', held)
    ensures DirsKept(m, m') && Shape(m')
  {
  }

  lemma UnmarkDirs(m: Mem, m': Mem, t: Frame, i: nat, p: Pte)
    requires DirsKept(m, m') && IsLeafTable(m, t)
    ensures DirsKept(m, Inc(SetEntry(m', t, i, p), p.frame, -1))
  {
    var m1 := Inc(SetEntry(m', t, i, p), p.frame, -1);
    forall x: Frame ensures NodeKept(m, m1, x) { assert NodeKept(m, m', x); }
    forall x: Frame, k: nat ensures DirKept(m, m1, x, k) { assert DirKept(m, m', x, k); }
  }

  /** Memory in the middle of `uvmcopy`, with the pages from `n` on still to be copied. */
  ghost predicate CopyReady(m: Mem, held: multiset<Frame>, src: Frame, dst: Frame, n: nat) {
    && Inv(m, held) && IsRoot(m, src) && IsRoot(m, dst) && src != dst
    && forall pg | InRange(pg, n, USER_PAGES) :: !Lookup(m, dst, pg).valid
  }

  /** One page of the copy: what `CopyFrom` still has to do after it. */
  lemma CopyFromStep(m: Mem, held: multiset<Frame>, src: Frame, dst: Frame, pg: Page, n: nat)
    requires CopyReady(m, held, src, dst, n) && PageOk(pg) && NumOf(pg) == n < USER_PAGES
    ensures !Lookup(m, dst, pg).valid
    ensures !Lookup(m, src, pg).valid ==>
      CopyFrom(m, src, dst, n, USER_PAGES) == CopyFrom(m, src, dst, n + 1, USER_PAGES)
    ensures !Lookup(m, src, pg).valid ==> CopyReady(m, held, src, dst, n + 1)
  {
    NumPage(pg);
    assert InRange(pg, n, USER_PAGES);
    forall pg' | InRange(pg', n + 1, USER_PAGES)
      ensures !Lookup(m, dst, pg').valid
    {
      assert InRange(pg', n, USER_PAGES);
    }
  }

  lemma CopyFromShare(m: Mem, held: multiset<Frame>, src: Frame, dst: Frame, pg: Page, n: nat, m1: Mem, ok: bool)
    requires CopyReady(m, held, src, dst, n) && PageOk(pg) && NumOf(pg) == n < USER_PAGES && Lookup(m, src, pg).valid
    requires Share(m, src, dst, pg) == (m1, ok)
    ensures ok ==> CopyReady(m1, held, src, dst, n + 1)
    ensures ok ==> CopyFrom(m, src, dst, n, USER_PAGES) == CopyFrom(m1, src, dst, n + 1, USER_PAGES)
    ensures !ok ==> Inv(m1, held) && IsRoot(m1, dst) && CopyFrom(m, src, dst, n, USER_PAGES) == (m1, false)
    ensures DirsKept(m, m1)
  {
    NumPage(pg);
    assert InRange(pg, n, USER_PAGES);
    ShareKeeps(m, held, src, dst, pg);
    ShareDirs(m, held, src, dst, pg);
    if ok {
      forall pg' | InRange(pg', n + 1, USER_PAGES)
        ensures !Lookup(m1, dst, pg').valid
      {
        assert InRange(pg', n, USER_PAGES) && pg' != pg;
      }
    }
  }

  lemma CopyReadyLater(m: Mem, held: multiset<Frame>, src: Frame, dst: Frame, n: nat, n': nat)
    requires CopyReady(m, held, src, dst, n) && n <= n'
    ensures CopyReady(m, held, src, dst, n')
  {
    forall pg | InRange(pg, n', USER_PAGES) ensures !Lookup(m, dst, pg).valid { assert InRange(pg, n, USER_PAGES); }
  }

  /** A slot of the root without a directory is passed over. */
  lemma SkipDir2(m: Mem, held: multiset<Frame>, src: Frame, dst: Frame, i2: nat, n: nat)
    requires CopyReady(m, held, src, dst, n) && i2 < 256 && n == i2 * 262144 && !Entry(m, src, i2).valid
    ensures CopyReady(m, held, src, dst, n + 262144)
    ensures CopyFrom(m, src, dst, n + 262144, USER_PAGES) == CopyFrom(m, src, dst, n, USER_PAGES)
  {
    HoleDir2(m, src, i2);
    CopyHole(m, src, dst, n, 262144, USER_PAGES);
    CopyReadyLater(m, held, src, dst, n, n + 262144);
  }

  lemma DirsKeptWalk(m: Mem, m': Mem, held: multiset<Frame>, r: Frame, pg: Page)
    requires Inv(m, held) && DirsKept(m, m') && IsRoot(m, r) && PageOk(pg) && LeafTable(m, r, pg).Some?
    ensures LeafTable(m', r, pg) == LeafTable(m, r, pg)
  {
    assert ChildOk(m, r, pg.i2) && DirKept(m, m', r, pg.i2) && DirKept(m, m', Entry(m, r, pg.i2).frame, pg.i1);
  }

  // ----- uvmalloc -----

  /** Pages [lo, hi) of `r` have become zero pages with the given permissions; nothing else changed. */
  ghost predicate Filled(m: Mem, m': Mem, r: Frame, lo: nat, hi: nat, perm: Pte) {
    && (forall r' | IsRoot(m, r') :: IsRoot(m', r'))
    && (forall r': Frame, pg: Page {:trigger FilledAt(m, m', r', pg, r, lo, hi, perm)} | IsRoot(m, r') && PageOk(pg) ::
          FilledAt(m, m', r', pg, r, lo, hi, perm))
  }

  ghost predicate FilledAt(m: Mem, m': Mem, r': Frame, pg: Page, r: Frame, lo: nat, hi: nat, perm: Pte) {
    if r' == r && InRange(pg, lo, hi) then
      Lookup(m', r', pg) == LeafPte(Lookup(m', r', pg).frame, perm) && Content(m', r', pg) == Some(ZeroPage())
    else Lookup(m', r', pg) == Lookup(m, r', pg) && Content(m', r', pg) == Content(m, r', pg)
  }

  lemma FilledStep(m: Mem, m1: Mem, m': Mem, r: Frame, lo: nat, hi: nat, perm: Pte, pg: Page, f: Frame)
    requires Filled(m, m1, r, lo, hi, perm) && PageOk(pg) && NumOf(pg) == hi >= lo && IsRoot(m, r)
    requires Rewritten(m1, m', r, pg, LeafPte(f, perm)) && Content(m', r, pg) == Some(ZeroPage())
    requires SameContentExcept(m1, m', r, pg)
    ensures Filled(m, m', r, lo, hi + 1, perm)
  {
    forall r': Frame, pg': Page | IsRoot(m, r') && PageOk(pg') ensures FilledAt(m, m', r', pg', r, lo, hi + 1, perm) {
      assert IsRoot(m1, r') && FilledAt(m, m1, r', pg', r, lo, hi, perm);
      if NumOf(pg') == hi { NumInjective(pg, pg'); }
    }
  }

  /** Every address space has the entries and the bytes it had. */
  ghost predicate SameSpaces(m: Mem, m': Mem) {
    forall r: Frame, pg: Page | IsRoot(m, r) && PageOk(pg) ::
      Lookup(m', r, pg) == Lookup(m, r, pg) && Content(m', r, pg) == Content(m, r, pg)
  }

  /** Filling has met page `n`, which was mapped: the pages before it are filled, and a frame is in hand. */
  ghost predicate FillStopped(m: Mem, m': Mem, held: multiset<Frame>, r: Frame, lo: nat, n: nat, perm: Pte, f: Frame) {
    && Filled(m, m', r, lo, n, perm) && MappedAt(m, r, n) && Inv(m', held + multiset{f})
    && forall pg | InRange(pg, lo, n) :: !Lookup(m, r, pg).valid
  }

  lemma FilledSame(m: Mem, m1: Mem, m': Mem, r: Frame, lo: nat, hi: nat, perm: Pte)
    requires Filled(m, m1, r, lo, hi, perm) && SameView(m1, m') && SameContent(m1, m')
    ensures Filled(m, m', r, lo, hi, perm)
  {
    forall r': Frame, pg: Page | IsRoot(m, r') && PageOk(pg) ensures FilledAt(m, m', r', pg, r, lo, hi, perm) {
      assert IsRoot(m1, r') && FilledAt(m, m1, r', pg, r, lo, hi, perm);
    }
  }

  lemma FilledNext(m0: Mem, m: Mem, m': Mem, held: multiset<Frame>, r: Frame, lo: nat, n: nat, perm: Pte, pg: Page)
    requires Inv(m, held) && IsRoot(m, r) && IsRoot(m0, r) && lo <= n && PageOk(pg) && NumOf(pg) == n
    requires !perm.cow && (perm.d ==> perm.w) && Filled(m0, m, r, lo, n, perm) && !Lookup(m, r, pg).valid
    requires forall pg' | InRange(pg', lo, n) :: !Lookup(m0, r, pg').valid
    requires (m', true) == LazyMap(m, r, pg, perm, ZeroPage())
    ensures IsRoot(m', r) && Filled(m0, m', r, lo, n + 1, perm)
    ensures forall pg' | InRange(pg', lo, n + 1) :: !Lookup(m0, r, pg').valid
  {
    LazyMapKeeps(m, held, r, pg, perm, ZeroPage());
    FilledStep(m0, m, m', r, lo, n, perm, pg, Head(m));
    assert !InRange(pg, lo, n) && FilledAt(m0, m, r, pg, r, lo, n, perm);
    forall pg' | InRange(pg', lo, n + 1) ensures !Lookup(m0, r, pg').valid {
      if NumOf(pg') == n { NumInjective(pg, pg'); } else { assert InRange(pg', lo, n); }
    }
  }

  lemma FilledRemap(m0: Mem, m: Mem, held: multiset<Frame>, r: Frame, lo: nat, n: nat, perm: Pte, pg: Page)
    requires Inv(m, held) && IsRoot(m, r) && IsRoot(m0, r) && PageOk(pg) && NumOf(pg) == n && pg == PageAt(n)
    requires Filled(m0, m, r, lo, n, perm) && Lookup(m, r, pg).valid && m.free != []
    requires forall pg' | InRange(pg', lo, n) :: !Lookup(m0, r, pg').valid
    ensures FillStopped(m0, Kalloc(m), held, r, lo, n, perm, Head(m))
  {
    KallocKeeps(m, held);
    SameTablesView(m, Kalloc(m));
    KeptContent(m, Kalloc(m), held) by { assert m.free[0] in m.free; }
    FilledSame(m0, m, Kalloc(m), r, lo, n, perm);
    assert !InRange(pg, lo, n) && FilledAt(m0, m, r, pg, r, lo, n, perm);
  }

  /** Dropping what was filled, after an attempt that changed no translation, gives the first state back. */
  lemma FilledUndone(m: Mem, m1: Mem, m2: Mem, m': Mem, r: Frame, lo: nat, hi: nat, perm: Pte)
    requires Filled(m, m1, r, lo, hi, perm) && SameView(m1, m2) && SameContent(m1, m2) && Dropped(m2, m', r, lo, hi)
    requires IsRoot(m, r)
    requires forall pg | InRange(pg, lo, hi) :: !Lookup(m, r, pg).valid
    ensures SameSpaces(m, m')
  {
    forall r': Frame, pg: Page | IsRoot(m, r') && PageOk(pg)
      ensures Lookup(m', r', pg) == Lookup(m, r', pg) && Content(m', r', pg) == Content(m, r', pg)
    {
      assert IsRoot(m1, r') && FilledAt(m, m1, r', pg, r, lo, hi, perm);
      assert IsRoot(m2, r');
    }
  }

  // ----- walking every leaf below a table -----

  /** How many pages one entry of a table at `level` covers. */
  function Stride(level: nat): nat {
    if level == 0 then 1 else if level == 1 then 512 else 262144
  }

  /** Table `t` at `level` translates the pages of `root` that start at `pg`. */
  ghost predicate TableAt(m: Mem, root: Frame, t: Frame, level: nat, pg: Page) {
    && PageOk(pg) && pg.i0 == 0
    && (level == 2 ==> t == root && pg == Page(0, 0, 0))
    && (level == 1 ==> pg.i1 == 0 && Entry(m, root, pg.i2).valid && Entry(m, root, pg.i2).frame == t)
    && (level == 0 ==> LeafTable(m, root, pg) == Some(t))
  }

  function SubPage(pg: Page, level: nat, i: nat): Page {
    if level == 2 then Page(i, 0, 0) else if level == 1 then Page(pg.i2, i, 0) else Page(pg.i2, pg.i1, i)
  }

  /** Entry `i` covers the pages from its first up to the first of entry `i + 1`. */
  lemma NextEntry(pg: Page, level: nat, i: nat)
    requires PageOk(pg) && i < 512 && level <= 2
    ensures NumOf(SubPage(pg, level, i)) + Stride(level) == NumOf(SubPage(pg, level, i + 1)) <= ALL_PAGES
    ensures level > 0 ==> NumOf(SubPage(SubPage(pg, level, i), level - 1, 512)) == NumOf(SubPage(pg, level, i + 1))
  {
    if level == 2 { NextDir(i); } else if level == 1 { NextTable(pg.i2, i); } else { NextTable(pg.i2, pg.i1); }
  }

  lemma NextDir(i2: nat)
    requires i2 < 512
    ensures DirNum(i2, 512) == DirNum(i2 + 1, 0) && DirNum(i2, 0) + 512 == DirNum(i2 + 1, 0) <= 262144
  {
  }

  lemma NextTable(i2: nat, i1: nat)
    requires i2 < 512 && i1 < 512
    ensures DirNum(i2, i1) + 1 == DirNum(i2, i1 + 1) <= 262144
  {
  }

  lemma TableAtIs(m: Mem, held: multiset<Frame>, root: Frame, t: Frame, level: nat, pg: Page)
    requires Inv(m, held) && IsRoot(m, root) && level <= 2 && TableAt(m, root, t, level, pg)
    ensures IsTable(m, t, level) && t < NFRAMES
  {
    if level == 0 { WalkNode(m, root, pg); }
    if level == 1 { assert ChildOk(m, root, pg.i2); }
    TableInRange(m, t);
  }

  /** Below an invalid entry nothing is mapped; below a valid one hangs the next table. */
  lemma SubTable(m: Mem, root: Frame, t: Frame, level: nat, pg: Page, i: nat)
    requires level <= 2 && TableAt(m, root, t, level, pg) && i < 512
    ensures PageOk(SubPage(pg, level, i))
    ensures level > 0 && Entry(m, t, i).valid ==>
      TableAt(m, root, Entry(m, t, i).frame, level - 1, SubPage(pg, level, i))
    ensures level == 0 ==> LeafTable(m, root, SubPage(pg, level, i)) == Some(t)
    ensures !Entry(m, t, i).valid ==> Hole(m, root, NumOf(SubPage(pg, level, i)), Stride(level))
  {
    if !Entry(m, t, i).valid {
      if level == 2 { HoleDir2(m, root, i); }
      if level == 1 { HoleDir1(m, root, pg.i2, i); }
      if level == 0 { NumPage(SubPage(pg, level, i)); }
    }
  }

  lemma DropDirs(m: Mem, held: multiset<Frame>, r: Frame, pg: Page)
    requires Inv(m, held) && IsRoot(m, r) && PageOk(pg) && Lookup(m, r, pg).valid
    ensures DirsKept(m, DropPage(m, r, pg))
  {
    MappedLeaf(m, held, r, pg);
    var f := Lookup(m, r, pg).frame;
    var t := LeafTable(m, r, pg).value;
    KfreeSetEntry(m, t, pg.i0, NoPte, f);
    SetLeafRefs(m, t, pg.i0, NoPte);
  }

  lemma DropFromOne(m: Mem, r: Frame, pg: Page)
    requires PageOk(pg)
    ensures NumOf(pg) < ALL_PAGES
    ensures DropFrom(m, r, NumOf(pg), ALL_PAGES) == DropFrom(DropPage(m, r, pg), r, NumOf(pg) + 1, ALL_PAGES)
  {
    NumPage(pg);
  }

  lemma DirsKeptTable(m: Mem, m': Mem, held: multiset<Frame>, root: Frame, t: Frame, level: nat, pg: Page)
    requires Inv(m, held) && DirsKept(m, m') && IsRoot(m, root) && level <= 2 && TableAt(m, root, t, level, pg)
    ensures TableAt(m', root, t, level, pg) && IsRoot(m', root)
  {
    assert NodeKept(m, m', root) && DirKept(m, m', root, pg.i2);
    if level == 0 { DirsKeptWalk(m, m', held, root, pg); }
  }
}
