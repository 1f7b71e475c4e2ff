/** `kmalloc`, `kmfree` and `kmem_cache_reap` over the words of memory, and what each keeps. */
module KmallocOps {
  import opened Slab
  import opened Kmalloc

  /** The smallest cache that fits, for sizes up to 2048. */
  method Bucket(size: nat) returns (idx: nat)
    requires size <= 2048
    ensures idx == BucketOf(size) && idx < 9 && size <= SizeOf(idx) && forall j | 0 <= j < idx :: SizeOf(j) < size
  {
    idx := 0;
    while SizeOf(idx) < size
      invariant idx < 9 && forall j | 0 <= j < idx :: SizeOf(j) < size
      decreases 9 - idx
    {
      assert idx != 8;
      idx := idx + 1;
    }
  }

  function BucketOf(size: nat): (idx: nat)
    ensures idx < 9 && (size <= 2048 ==> size <= SizeOf(idx) && forall j | 0 <= j < idx :: SizeOf(j) < size)
  {
    if size <= 8 then 0 else if size <= 16 then 1 else if size <= 32 then 2 else if size <= 64 then 3
    else if size <= 128 then 4 else if size <= 256 then 5 else if size <= 512 then 6 else if size <= 1024 then 7 else 8
  }

  datatype Given = Given(block: Block) | Nothing

  function ClearBlock(h: Heap, x: Block): Heap {
    if x.page < |h.mem| then SetRow(h, x.page, Cleared(h.mem[x.page], First(x), Span(x))) else h
  }

  /** An object of cache `k`, cleared, when some page of the cache has one. */
  function TakeObj(h: Heap, k: nat): (Heap, Given) {
    if k >= |h.caches| then (h, Nothing)
    else
      var (c, w) := Alloc(h.caches[k]);
      if w.Nowhere? then (h, Nothing)
      else (ClearBlock(SetCache(h, k, c), Small(k, w.page, w.obj)), Given(Small(k, w.page, w.obj)))
  }

  /** `kmem_cache_grow` on a page just taken from the page allocator. */
  function GrowOn(h: Heap, k: nat, p: nat): Heap {
    if k < |h.caches| then SetCache(SetRow(h, p, SlabRow(k)), k, Grow(h.caches[k], p)) else h
  }

  function SmallAlloc(h: Heap, k: nat): (Heap, Given) {
    var (h1, r) := TakeObj(h, k);
    if r.Given? then (h1, r)
    else
      var (h2, p) := Kalloc(h);
      if p == 0 then (h2, Nothing) else TakeObj(GrowOn(h2, k, p), k)
  }

  /** `kmalloc`. */
  function Malloc(h: Heap, size: nat): (Heap, Given) {
    if size <= 2048 then SmallAlloc(h, BucketOf(size))
    else if size <= 4048 then
      var (h1, p) := Kalloc(h);
      if p == 0 then (h1, Nothing) else (Put(h1, p, TAIL, 0), Given(Big(p)))
    else (h, Nothing)
  }

  // ----- the books after each step -----

  ghost function SetUse(b: Book, g: nat, u: Use): Book {
    b.(use := b.use[g := u])
  }

  ghost function SetFree(b: Book, k: nat, f: Free): Book {
    if k < |b.frees| then b.(frees := b.frees[k := f]) else b
  }

  ghost function KallocBook(b: Book): Book {
    if b.list == [] then b else SetUse(b.(list := b.list[1..]), b.list[0], Other)
  }

  ghost function KfreeBook(b: Book, g: nat): Book {
    SetUse(b.(list := [g] + b.list), g, Pool)
  }

  ghost function GrowBook(b: Book, k: nat, p: nat): Book {
    if k < |b.frees| then SetUse(SetFree(b, k, b.frees[k][p := CountDown(ROOM / SizeOf(k))]), p, SlabOf(k)) else b
  }

  ghost function TakeBook(h: Heap, b: Book, k: nat): Book {
    if k < |h.caches| && k < |b.frees| then SetFree(b, k, FreeAfterAlloc(h.caches[k], b.frees[k])) else b
  }

  ghost function SmallBook(h: Heap, b: Book, k: nat): Book {
    if TakeObj(h, k).1.Given? then TakeBook(h, b, k)
    else if b.list == [] then b
    else TakeBook(GrowOn(Kalloc(h).0, k, b.list[0]), GrowBook(KallocBook(b), k, b.list[0]), k)
  }

  ghost function MallocBook(h: Heap, b: Book, size: nat): Book {
    if size <= 2048 then SmallBook(h, b, BucketOf(size))
    else if size <= 4048 && b.list != [] then SetUse(KallocBook(b), b.list[0], Whole)
    else b
  }

  // ----- pages in and out -----

  /** `kalloc` fails exactly when no page is free; otherwise the page was free, is cleared, and now is the
      caller's. */
  lemma KallocKeeps(h: Heap, b: Book)
    requires HeapOk(h, b)
    ensures var (h', p) := Kalloc(h); var b' := KallocBook(b);
      && (p == 0 <==> b.list == []) && (p == 0 ==> h' == h)
      && (p != 0 ==> p == b.list[0] && UseOf(b, p) == Pool && UseOf(b', p) == Other && h'.mem == h.mem[p := Zeros()])
      && HeapOk(h', b') && AllStay(h, b, h', b') && h'.caches == h.caches && b'.frees == b.frees
  {
    if b.list != [] {
      var p := b.list[0];
      var h', b' := Kalloc(h).0, KallocBook(b);
      assert p in b.list && PageGood(h, b, p);
      forall g: nat | g != p ensures SamePage(h, b, h', b', g, 0) { assert g in b.list[1..] <==> g in b.list; }
      assert CacheOk(h, b, 0);
      assert p !in b.list[1..];
      assert PoolOk(h', b'.list);
      forall k ensures Owns(h', k, p) <==> UseOf(b', p) == SlabOf(k) { assert Owns(h', k, p) <==> Owns(h, k, p); }
      PageChange(h, b, h', b', p, 0);
      NoneLive(h, b, p);
      NoneLive(h', b', p);
      PageStay(h, b, h', b', p, 0);
    }
  }

  /** `kfree` of a page that is no slab page and not free already. */
  lemma KfreeKeeps(h: Heap, b: Book, g: nat)
    requires HeapOk(h, b) && (UseOf(b, g) == Other || UseOf(b, g) == Whole)
    ensures HeapOk(Kfree(h, g), KfreeBook(b, g)) && SameElsewhere(h, b, Kfree(h, g), KfreeBook(b, g), g, 0)
  {
    var h', b' := Kfree(h, g), KfreeBook(b, g);
    assert PageGood(h, b, g);
    forall x: nat | x != g ensures SamePage(h, b, h', b', x, 0) {}
    assert CacheOk(h, b, 0);
    PushPool(h, b, g);
    forall k ensures Owns(h', k, g) <==> UseOf(b', g) == SlabOf(k) { assert Owns(h', k, g) <==> Owns(h, k, g); }
    PageChange(h, b, h', b', g, 0);
  }

  lemma PushPool(h: Heap, b: Book, g: nat)
    requires PoolOk(h, b.list) && 0 < g < |h.mem| && |h.mem[g]| == WORDS && g !in b.list
    ensures PoolOk(Kfree(h, g), [g] + b.list)
  {
    var h', s := Kfree(h, g), [g] + b.list;
    forall i | 0 <= i < |s| ensures 0 < s[i] < |h'.mem| && Word(h', s[i], 0) == ItemOr0(s, i + 1) {
      if i > 0 { assert s[i] == b.list[i - 1] && b.list[i - 1] in b.list; }
    }
  }

  /** A page of someone else's, given back. */
  lemma GiveKeeps(h: Heap, b: Book, g: nat)
    requires HeapOk(h, b) && UseOf(b, g) == Other
    ensures HeapOk(Kfree(h, g), KfreeBook(b, g)) && AllStay(h, b, Kfree(h, g), KfreeBook(b, g))
  {
    KfreeKeeps(h, b, g);
    NoneLive(h, b, g);
    NoneLive(Kfree(h, g), KfreeBook(b, g), g);
    PageStay(h, b, Kfree(h, g), KfreeBook(b, g), g, 0);
  }

  // ----- growing -----

  /** The words of a new slab page hold the links of its objects. */
  lemma SlabRowLinks(k: nat, i: nat)
    requires i < ROOM / SizeOf(k)
    ensures Slot(k, i) < BODY && SlabRow(k)[Slot(k, i)] == NewPage(SizeOf(k)).words[i]
  {
    ObjectInside(k, i);
    DivCancel(i, Stride(k));
  }

  lemma AllCountDown(n: nat, i: nat)
    ensures i < n ==> i in CountDown(n)
  {
    if i < n { assert CountDown(n)[n - 1 - i] == i; }
  }

  lemma GrowOnKeeps(h: Heap, b: Book, k: nat, p: nat)
    requires HeapOk(h, b) && k < 9 && UseOf(b, p) == Other
    ensures var h', b' := GrowOn(h, k, p), GrowBook(b, k, p);
      && HeapOk(h', b') && AllStay(h, b, h', b') && h'.caches[k] == Grow(h.caches[k], p)
  {
    var h', b' := GrowOn(h, k, p), GrowBook(b, k, p);
    assert PageGood(h, b, p) && CacheOk(h, b, k) && !Owns(h, k, p);
    GrowKeeps(h.caches[k], b.frees[k], p);
    forall g: nat | g != p ensures SamePage(h, b, h', b', g, k) {}
    PoolStays(h, h', b.list);
    GrownGood(h, b, k, p);
    PageChange(h, b, h', b', p, k);
    NoneLive(h, b, p);
    forall x: Block | x.page == p ensures !IsLive(h', b', x) {
      if IsLive(h', b', x) { Inside(h', b', x); AllCountDown(ROOM / SizeOf(k), x.obj); }
    }
    PageStay(h, b, h', b', p, k);
  }

  lemma GrownGood(h: Heap, b: Book, k: nat, p: nat)
    requires HeapOk(h, b) && k < 9 && UseOf(b, p) == Other
    ensures PageGood(GrowOn(h, k, p), GrowBook(b, k, p), p)
  {
    var h', b' := GrowOn(h, k, p), GrowBook(b, k, p);
    assert PageGood(h, b, p) && CacheOk(h, b, k);
    NewPageOk(SizeOf(k));
    forall i | i in b'.frees[k][p]
      ensures i < |h'.caches[k].pages[p].words| && Word(h', p, Slot(k, i)) == h'.caches[k].pages[p].words[i]
    {
      SlabRowLinks(k, i);
    }
    forall j ensures Owns(h', j, p) <==> UseOf(b', p) == SlabOf(j) { assert !Owns(h, j, p); }
  }

  // ----- objects out -----

  ghost predicate Zeroed(h: Heap, x: Block) {
    forall w {:trigger Word(h, x.page, w)} | First(x) <= w < First(x) + Span(x) :: Word(h, x.page, w) == 0
  }

  /** What `kmalloc` promises of a block it gives. */
  ghost predicate Gives(h: Heap, b: Book, h': Heap, b': Book, x: Block) {
    && !IsLive(h, b, x) && IsLive(h', b', x) && Zeroed(h', x) && OthersStay(h, b, h', b', x)
  }

  ghost predicate PageSwapped(h: Heap, h': Heap, k: nat, g: nat, p: Page) {
    && |h'.mem| == |h.mem| && h'.head == h.head && h'.size == h.size && k < |h.caches|
    && g < |h'.mem| && |h'.mem[g]| == WORDS && Word(h', g, TAIL) == Word(h, g, TAIL)
    && (forall x: nat | x < |h.mem| && x != g :: h'.mem[x] == h.mem[x])
    && h'.caches == h.caches[k := Relist(h.caches[k], g, p)]
  }

  lemma SwappedElsewhere(h: Heap, b: Book, h': Heap, k: nat, g: nat, p: Page, f: seq<nat>)
    requires HeapOk(h, b) && Owns(h, k, g) && PageSwapped(h, h', k, g, p)
    ensures SameElsewhere(h, b, h', SetFree(b, k, b.frees[k][g := f]), g, k)
  {
    var b' := SetFree(b, k, b.frees[k][g := f]);
    RelistPages(h.caches[k], g, p);
    forall x: nat | x != g ensures SamePage(h, b, h', b', x, k) {}
  }

  lemma SwappedGood(h: Heap, b: Book, h': Heap, k: nat, g: nat, p: Page, f: seq<nat>)
    requires HeapOk(h, b) && Owns(h, k, g) && PageSwapped(h, h', k, g, p) && PageOk(p, f, SizeOf(k))
    requires forall i | i in f :: Word(h', g, Slot(k, i)) == p.words[i]
    ensures PageGood(h', SetFree(b, k, b.frees[k][g := f]), g)
  {
    var b' := SetFree(b, k, b.frees[k][g := f]);
    RelistPages(h.caches[k], g, p);
    assert PageGood(h, b, g);
    forall j ensures Owns(h', j, g) <==> UseOf(b', g) == SlabOf(j) { assert Owns(h', j, g) <==> Owns(h, j, g); }
  }

  /** A cache changed on page `g` only, together with words of that page. */
  lemma ObjectChange(h: Heap, b: Book, h': Heap, k: nat, g: nat, p: Page, f: seq<nat>)
    requires HeapOk(h, b) && Owns(h, k, g) && PageSwapped(h, h', k, g, p) && PageOk(p, f, SizeOf(k))
    requires forall i | i in f :: Word(h', g, Slot(k, i)) == p.words[i]
    ensures var b' := SetFree(b, k, b.frees[k][g := f]); HeapOk(h', b') && SameElsewhere(h, b, h', b', g, k)
  {
    SwappedCache(h, b, h', k, g, p, f);
    SwappedElsewhere(h, b, h', k, g, p, f);
    SwappedGood(h, b, h', k, g, p, f);
    SwappedPool(h, b, h', k, g, p);
    PageChange(h, b, h', SetFree(b, k, b.frees[k][g := f]), g, k);
  }

  lemma SwappedCache(h: Heap, b: Book, h': Heap, k: nat, g: nat, p: Page, f: seq<nat>)
    requires HeapOk(h, b) && Owns(h, k, g) && PageSwapped(h, h', k, g, p) && PageOk(p, f, SizeOf(k))
    ensures var b' := SetFree(b, k, b.frees[k][g := f]); |h'.caches| == |b'.frees| == 9 && CacheOk(h', b', k)
  {
    assert CacheOk(h, b, k);
    RelistKeeps(h.caches[k], b.frees[k], g, p, f);
    RelistPages(h.caches[k], g, p);
  }

  lemma SwappedPool(h: Heap, b: Book, h': Heap, k: nat, g: nat, p: Page)
    requires HeapOk(h, b) && Owns(h, k, g) && PageSwapped(h, h', k, g, p)
    ensures PoolOk(h', b.list)
  {
    assert PageGood(h, b, g);
    PoolStays(h, h', b.list);
  }

  /** The links of other objects lie outside a block. */
  lemma LinkOutside(k: nat, i: nat, j: nat)
    requires i != j
    ensures Slot(k, j) < Slot(k, i) || Slot(k, i) + Stride(k) <= Slot(k, j)
  {
    if i < j { Spread(Stride(k), i, j); } else { Spread(Stride(k), j, i); }
  }

  /** Words of one object of a slab page changed: the other live blocks of the page keep theirs. */
  lemma ObjectStay(h: Heap, b: Book, h': Heap, b': Book, y: Block)
    requires HeapOk(h, b) && HeapOk(h', b') && y.Small? && SameElsewhere(h, b, h', b', y.page, y.k)
    requires UseOf(b, y.page) == UseOf(b', y.page) == SlabOf(y.k) && y.obj < ROOM / SizeOf(y.k)
    requires forall i: nat {:trigger Live(h'.caches[y.k], b'.frees[y.k], y.page, i)} | i != y.obj ::
      Live(h'.caches[y.k], b'.frees[y.k], y.page, i) <==> Live(h.caches[y.k], b.frees[y.k], y.page, i)
    requires forall w: nat | w < First(y) || First(y) + Span(y) <= w :: Word(h', y.page, w) == Word(h, y.page, w)
    ensures OthersStay(h, b, h', b', y)
  {
    forall x | x != y ensures Stays(h, b, h', b', x) {
      if x.page != y.page {
        assert SamePage(h, b, h', b', x.page, y.k);
      } else {
        assert PageGood(h, b, y.page) && PageGood(h', b', y.page);
        if x.Small? {
          assert Owns(h, x.k, x.page) ==> x.k == y.k;
          assert Owns(h', x.k, x.page) ==> x.k == y.k;
          if x.k == y.k { LinkOutside(y.k, y.obj, x.obj); LinkOutside(y.k, x.obj, y.obj); }
        }
      }
    }
  }

  /** Taking an object succeeds exactly when some page of the cache has a free one.  The object was not live and
      is cleared; exactly it becomes live, and every other live block keeps its contents. */
  lemma TakeObjKeeps(h: Heap, b: Book, k: nat)
    requires HeapOk(h, b) && k < 9
    ensures var (h', r) := TakeObj(h, k); var b' := TakeBook(h, b, k);
      && (r == Nothing <==> forall g | g in h.caches[k].pages :: IsFull(h.caches[k].pages[g]))
      && (r.Given? ==> HeapOk(h', b') && r.block.Small? && r.block.k == k && Gives(h, b, h', b', r.block))
  {
    var c, f := h.caches[k], b.frees[k];
    assert CacheOk(h, b, k);
    AllocKeeps(c, f);
    var (c1, w) := Alloc(c);
    if w.At? {
      assert Owns(h, k, w.page);
      SmallTotal(h, b, k, w.page);
      assert w.page == Choose(c).page;
      TakeObjHeap(h, b, k, w);
      TakeObjStay(h, b, k, w);
    }
  }

  lemma TakeObjHeap(h: Heap, b: Book, k: nat, w: Where)
    requires HeapOk(h, b) && k < 9 && Alloc(h.caches[k]).1 == w && w.At? && Owns(h, k, w.page)
    ensures var h', b' := TakeObj(h, k).0, TakeBook(h, b, k); var x := Small(k, w.page, w.obj);
      && HeapOk(h', b') && SameElsewhere(h, b, h', b', w.page, k) && Zeroed(h', x) && First(x) + Span(x) <= BODY
      && (forall v: nat | v < First(x) || First(x) + Span(x) <= v :: Word(h', w.page, v) == Word(h, w.page, v))
  {
    var c, f, g := h.caches[k], b.frees[k], w.page;
    var h' := TakeObj(h, k).0;
    SmallTotal(h, b, k, g);
    assert PageGood(h, b, g);
    var p := PopObj(c.pages[g]).0;
    PopObjOk(c.pages[g], f[g], SizeOf(k));
    assert w.obj == f[g][0] && w.obj in f[g];
    ObjectInside(k, w.obj);
    forall i | i in f[g][1..] ensures Word(h', g, Slot(k, i)) == p.words[i] {
      assert i in f[g] && i != w.obj;
      LinkOutside(k, w.obj, i);
    }
    ObjectChange(h, b, h', k, g, p, f[g][1..]);
  }

  lemma TakeObjStay(h: Heap, b: Book, k: nat, w: Where)
    requires HeapOk(h, b) && k < 9 && Alloc(h.caches[k]).1 == w && w.At? && Owns(h, k, w.page)
    ensures var h', b' := TakeObj(h, k).0, TakeBook(h, b, k);
      OthersStay(h, b, h', b', Small(k, w.page, w.obj)) && IsLive(h', b', Small(k, w.page, w.obj))
  {
    TakeObjHeap(h, b, k, w);
    SmallTotal(h, b, k, w.page);
    assert CacheOk(h, b, k);
    AllocKeeps(h.caches[k], b.frees[k]);
    ObjectStay(h, b, TakeObj(h, k).0, TakeBook(h, b, k), Small(k, w.page, w.obj));
  }

  ghost predicate NoRoom(h: Heap, k: nat) {
    k < |h.caches| ==> h.head == 0 && forall g | g in h.caches[k].pages :: IsFull(h.caches[k].pages[g])
  }

  lemma SmallKeeps(h: Heap, b: Book, k: nat)
    requires HeapOk(h, b) && k < 9
    ensures var (h', r) := SmallAlloc(h, k); var b' := SmallBook(h, b, k);
      && HeapOk(h', b') && (r == Nothing <==> NoRoom(h, k)) && (r == Nothing ==> h' == h && b' == b)
      && (r.Given? ==> r.block.Small? && r.block.k == k && Gives(h, b, h', b', r.block))
  {
    TakeObjKeeps(h, b, k);
    KallocKeeps(h, b);
    if TakeObj(h, k).1 == Nothing && b.list != [] {
      var h1, b1, p := Kalloc(h).0, KallocBook(b), b.list[0];
      GrowOnKeeps(h1, b1, k, p);
      var h2, b2 := GrowOn(h1, k, p), GrowBook(b1, k, p);
      assert CacheOk(h1, b1, k);
      NewPageOk(SizeOf(k));
      assert p in h2.caches[k].pages && !IsFull(h2.caches[k].pages[p]);
      TakeObjKeeps(h2, b2, k);
      var (h3, r) := TakeObj(h2, k);
      AllStayTrans(h, b, h1, b1, h2, b2);
      StaysTrans(h, b, h2, b2, h3, TakeBook(h2, b2, k), r.block);
      assert Stays(h, b, h2, b2, r.block);
    }
  }

  lemma AllStayTrans(h: Heap, b: Book, h1: Heap, b1: Book, h2: Heap, b2: Book)
    requires AllStay(h, b, h1, b1) && AllStay(h1, b1, h2, b2)
    ensures AllStay(h, b, h2, b2)
  {
    forall x ensures Stays(h, b, h2, b2, x) { assert Stays(h, b, h1, b1, x) && Stays(h1, b1, h2, b2, x); }
  }

  /** `kmalloc`: the block is large enough, was not live and is cleared; exactly it becomes live, with the
      contents of every other live block unchanged.  Nothing is given exactly when the size is too large, or no
      page is left where one is needed; then nothing changes. */
  lemma MallocKeeps(h: Heap, b: Book, size: nat)
    requires HeapOk(h, b)
    ensures var (h', r) := Malloc(h, size); var b' := MallocBook(h, b, size);
      && HeapOk(h', b') && (r == Nothing ==> h' == h && b' == b)
      && (r.Given? ==> Capacity(r.block) >= size && Gives(h, b, h', b', r.block))
      && (r == Nothing <==> size > 4048 || (if size > 2048 then h.head == 0 else NoRoom(h, BucketOf(size))))
  {
    if size <= 2048 {
      SmallKeeps(h, b, BucketOf(size));
    } else if size <= 4048 {
      KallocKeeps(h, b);
      if b.list != [] { WholeKeeps(Kalloc(h).0, KallocBook(b), h, b); }
    }
  }

  /** A page just taken becomes one block. */
  lemma WholeKeeps(h: Heap, b: Book, h0: Heap, b0: Book)
    requires HeapOk(h, b) && HeapOk(h0, b0) && AllStay(h0, b0, h, b) && b0.list != [] && UseOf(b, b0.list[0]) == Other
    requires UseOf(b0, b0.list[0]) == Pool && b0.list[0] < |h.mem| && h.mem[b0.list[0]] == Zeros()
    ensures var p := b0.list[0]; var h', b' := Put(h, p, TAIL, 0), SetUse(b, p, Whole);
      HeapOk(h', b') && Gives(h0, b0, h', b', Big(p))
  {
    var p := b0.list[0];
    var h', b' := Put(h, p, TAIL, 0), SetUse(b, p, Whole);
    assert PageGood(h, b, p) && CacheOk(h, b, 0) && h'.mem[p] == Zeros();
    forall g: nat | g != p ensures SamePage(h, b, h', b', g, 0) {}
    PoolStays(h, h', b.list);
    forall k ensures Owns(h', k, p) <==> UseOf(b', p) == SlabOf(k) { assert Owns(h', k, p) <==> Owns(h, k, p); }
    PageChange(h, b, h', b', p, 0);
    forall x | x != Big(p) ensures Stays(h, b, h', b', x) {
      if x.page != p { assert SamePage(h, b, h', b', x.page, 0); }
      if x.Small? && x.page == p { assert !Owns(h, x.k, p) && !Owns(h', x.k, p); }
    }
    StaysTrans(h0, b0, h, b, h', b', Big(p));
  }
}
