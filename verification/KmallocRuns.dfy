/** `kmfree` of any address once handed out, exactly when it keeps the heap sound, and whole runs. */
module KmallocRuns {
  import opened Slab
  import opened Kmalloc
  import opened KmallocOps

  const STRAY: nat := 8192           // list heads from here on stand for addresses that are no object's

  /** What `kmfree` ends in: a heap, a panic, or the following of an owner word that names no cache of the page. */
  datatype Outcome = Done(heap: Heap) | Panics | Strays

  /** The free list of a page, followed for at most `n` objects. */
  function Follow(words: seq<nat>, head: nat, n: nat): seq<nat>
    decreases n
  {
    if n == 0 || head >= |words| then [] else [head] + Follow(words, words[head], n - 1)
  }

  lemma {:induction false} FollowLinked(words: seq<nat>, head: nat, s: seq<nat>, n: nat)
    requires Linked(words, head, s) && |s| <= n && |words| <= NIL
    ensures Follow(words, head, n) == s
    decreases n
  {
    if s != [] { FollowLinked(words, words[head], s[1..], n - 1); }
  }

  /** Object `i` of slab page `g` put in front of its free list, the link in its first word. */
  function Push(h: Heap, k: nat, g: nat, i: nat): Heap
    requires k < |h.caches| && g in h.caches[k].pages
  {
    var p := h.caches[k].pages[g];
    Put(SetCache(h, k, Relist(h.caches[k], g, PushObj(p, i))), g, Slot(k, i), p.head)
  }

  /** An address that is no object's, put in front of the free list all the same. */
  function PushStray(h: Heap, k: nat, g: nat, off: nat): Heap
    requires k < |h.caches| && g in h.caches[k].pages
  {
    var p := h.caches[k].pages[g];
    Put(SetCache(h, k, Relist(h.caches[k], g, p.(head := STRAY + off, count := p.count + 1))), g, off / 8, p.head)
  }

  /** `kmem_cache_free` of the byte `off` of slab page `g`. */
  function FreeSlab(h: Heap, k: nat, g: nat, off: nat): Outcome
    requires k < |h.caches| && g in h.caches[k].pages
  {
    var p := h.caches[k].pages[g];
    var i := off / SizeOf(k);
    if off % SizeOf(k) == 0 && i in Follow(p.words, p.head, p.total) then Done(h)
    else if p.count >= p.total then Panics
    else if off % SizeOf(k) == 0 && i < p.total then Done(Push(h, k, g, i))
    else Done(PushStray(h, k, g, off))
  }

  /** `kmfree`: the owner word at the tail of the page decides. */
  function Free(h: Heap, addr: nat): Outcome {
    var g, off := addr / 4096, addr % 4096;
    var t := Word(h, g, TAIL);
    if t == 0 then (if off != 0 then Panics else Done(Kfree(h, g)))
    else if t - 1 < |h.caches| && g in h.caches[t - 1].pages then FreeSlab(h, t - 1, g, off)
    else Strays
  }

  ghost function FreeBook(b: Book, x: Block): Book {
    match x
    case Small(k, g, i) =>
      if k < |b.frees| && g in b.frees[k] then SetFree(b, k, b.frees[k][g := [i] + b.frees[k][g]]) else b
    case Big(g) => KfreeBook(b, g)
  }

  // ----- freeing a live block -----

  /** The words of the page after the push. */
  lemma PushWords(h: Heap, b: Book, k: nat, g: nat, i: nat)
    requires HeapOk(h, b) && IsLive(h, b, Small(k, g, i))
    ensures Slot(k, i) + Stride(k) <= BODY && 0 < g < |h.mem| && |h.mem[g]| == WORDS
    ensures var h' := Push(h, k, g, i);
      && Word(h', g, Slot(k, i)) == h.caches[k].pages[g].head
      && (forall w: nat | w < Slot(k, i) || Slot(k, i) + Stride(k) <= w :: Word(h', g, w) == Word(h, g, w))
  {
    Inside(h, b, Small(k, g, i));
    assert PageGood(h, b, g);
  }

  lemma LaidAt(h: Heap, b: Book, k: nat, g: nat, j: nat)
    requires HeapOk(h, b) && Owns(h, k, g) && g in b.frees[k] && j in b.frees[k][g]
    ensures j < |h.caches[k].pages[g].words| && Word(h, g, Slot(k, j)) == h.caches[k].pages[g].words[j]
  {
    assert PageGood(h, b, g);
  }

  lemma PushLaid(h: Heap, b: Book, k: nat, g: nat, i: nat, j: nat)
    requires HeapOk(h, b) && IsLive(h, b, Small(k, g, i)) && j != i && j in b.frees[k][g]
    ensures j < |h.caches[k].pages[g].words| && Word(Push(h, k, g, i), g, Slot(k, j)) == h.caches[k].pages[g].words[j]
  {
    PushWords(h, b, k, g, i);
    assert Owns(h, k, g);
    LaidAt(h, b, k, g, j);
    LinkOutside(k, i, j);
  }

  lemma PushedPage(h: Heap, b: Book, k: nat, g: nat, i: nat)
    requires HeapOk(h, b) && IsLive(h, b, Small(k, g, i))
    ensures var q := PushObj(h.caches[k].pages[g], i);
      && PageSwapped(h, Push(h, k, g, i), k, g, q) && PageOk(q, [i] + b.frees[k][g], SizeOf(k))
      && i < |q.words| && q.words[i] == h.caches[k].pages[g].head
      && forall j | 0 <= j < |q.words| && j != i :: q.words[j] == h.caches[k].pages[g].words[j]
  {
    assert Owns(h, k, g);
    PushWords(h, b, k, g, i);
    SmallTotal(h, b, k, g);
    PushObjOk(h.caches[k].pages[g], b.frees[k][g], SizeOf(k), i);
  }

  lemma PushHeap(h: Heap, b: Book, k: nat, g: nat, i: nat)
    requires HeapOk(h, b) && IsLive(h, b, Small(k, g, i))
    ensures var h', b' := Push(h, k, g, i), FreeBook(b, Small(k, g, i));
      HeapOk(h', b') && SameElsewhere(h, b, h', b', g, k) && !IsLive(h', b', Small(k, g, i))
  {
    var h', q, f := Push(h, k, g, i), PushObj(h.caches[k].pages[g], i), b.frees[k][g];
    PushedPage(h, b, k, g, i);
    PushWords(h, b, k, g, i);
    forall j | j in [i] + f ensures Word(h', g, Slot(k, j)) == q.words[j] {
      if j != i { assert j in f; PushLaid(h, b, k, g, i, j); }
    }
    assert Owns(h, k, g);
    ObjectChange(h, b, h', k, g, q, [i] + f);
  }

  /** `kmfree` of a live block ends exactly that block's life; the contents of the others stay. */
  lemma FreeKeeps(h: Heap, b: Book, x: Block)
    requires HeapOk(h, b) && IsLive(h, b, x)
    ensures Free(h, Addr(x)).Done?
    ensures var h', b' := Free(h, Addr(x)).heap, FreeBook(b, x);
      HeapOk(h', b') && !IsLive(h', b', x) && OthersStay(h, b, h', b', x) && OthersKept(b, b')
  {
    RouteExact(h, b, x);
    Inside(h, b, x);
    assert PageGood(h, b, x.page);
    if x.Small? {
      FreeSmall(h, b, x);
    } else {
      var h', b' := Kfree(h, x.page), KfreeBook(b, x.page);
      KfreeKeeps(h, b, x.page);
      NoneLive(h', b', x.page);
      forall y | y != x ensures Stays(h, b, h', b', y) {
        if y.page != x.page { assert SamePage(h, b, h', b', y.page, 0); } else if IsLive(h, b, y) { Inside(h, b, y); }
      }
    }
  }

  lemma FreeSmall(h: Heap, b: Book, x: Block)
    requires HeapOk(h, b) && IsLive(h, b, x) && x.Small?
    ensures Free(h, Addr(x)) == Done(Push(h, x.k, x.page, x.obj))
    ensures var h', b' := Push(h, x.k, x.page, x.obj), FreeBook(b, x);
      HeapOk(h', b') && !IsLive(h', b', x) && OthersStay(h, b, h', b', x)
  {
    var k, g, i := x.k, x.page, x.obj;
    Inside(h, b, x);
    assert Owns(h, k, g) && PageGood(h, b, g);
    SmallTotal(h, b, k, g);
    SmallOffset(k, i);
    var p, f := h.caches[k].pages[g], b.frees[k][g];
    FollowLinked(p.words, p.head, f, p.total) by { FreeBound(f, p.total); }
    PushObjOk(p, f, SizeOf(k), i);
    PushHeap(h, b, k, g, i);
    PushWords(h, b, k, g, i);
    var h', b' := Push(h, k, g, i), FreeBook(b, x);
    RelistPages(h.caches[k], g, PushObj(p, i));
    forall j: nat | j != i ensures Live(h'.caches[k], b'.frees[k], g, j) <==> Live(h.caches[k], b.frees[k], g, j) {}
    ObjectStay(h, b, h', b', x);
  }

  // ----- freeing any address -----

  /** The address is that of a free object of a slab page. */
  ghost predicate OnList(b: Book, addr: nat) {
    var g, off, u := addr / 4096, addr % 4096, UseOf(b, addr / 4096);
    u.SlabOf? && u.k < |b.frees| && g in b.frees[u.k] && off % SizeOf(u.k) == 0 && off / SizeOf(u.k) in b.frees[u.k][g]
  }

  /** The address is that of a block of the page's present use: an object of a slab page, free or live, or a
      whole block. */
  ghost predicate Proper(b: Book, addr: nat) {
    match UseOf(b, addr / 4096)
    case SlabOf(k) => addr % 4096 % SizeOf(k) == 0 && addr % 4096 / SizeOf(k) < ROOM / SizeOf(k)
    case Whole => addr % 4096 == 0
    case _ => false
  }

  /** Nobody loses a page. */
  ghost predicate OthersKept(b: Book, b': Book) {
    forall g: nat {:trigger UseOf(b', g)} | UseOf(b, g) == Other :: UseOf(b', g) == Other
  }

  lemma FollowPage(h: Heap, b: Book, k: nat, g: nat)
    requires HeapOk(h, b) && Owns(h, k, g)
    ensures var p := h.caches[k].pages[g]; g in b.frees[k] && Follow(p.words, p.head, p.total) == b.frees[k][g]
  {
    SmallTotal(h, b, k, g);
    var p := h.caches[k].pages[g];
    FreeBound(b.frees[k][g], p.total);
    FollowLinked(p.words, p.head, b.frees[k][g], p.total);
  }

  /** A free changes nothing exactly when the page is a slab page and the address is on its free list.  So a
      repeated free is harmless as long as the page stays with its cache, and only there is it so by design. */
  lemma NothingChanges(h: Heap, b: Book, addr: nat)
    requires HeapOk(h, b) && UseOf(b, addr / 4096) != Nobody
    ensures Free(h, addr) == Done(h) <==> OnList(b, addr)
  {
    var g := addr / 4096;
    assert PageGood(h, b, g);
    if UseOf(b, g).SlabOf? {
      assert Owns(h, UseOf(b, g).k, g);
      SlabUnchanged(h, b, UseOf(b, g).k, g, addr % 4096);
    } else {
      if Word(h, g, TAIL) > 0 { assert !Owns(h, Word(h, g, TAIL) - 1, g); }
      assert Kfree(h, g).size == h.size + 1;
    }
  }

  lemma PushCounts(h: Heap, k: nat, g: nat, i: nat, off: nat)
    requires Owns(h, k, g)
    ensures Push(h, k, g, i) != h && PushStray(h, k, g, off) != h
  {
    var p := h.caches[k].pages[g];
    RelistPages(h.caches[k], g, PushObj(p, i));
    RelistPages(h.caches[k], g, p.(head := STRAY + off, count := p.count + 1));
    assert Push(h, k, g, i).caches[k].pages[g].count == p.count + 1;
    assert PushStray(h, k, g, off).caches[k].pages[g].count == p.count + 1;
  }

  lemma SlabUnchanged(h: Heap, b: Book, k: nat, g: nat, off: nat)
    requires HeapOk(h, b) && Owns(h, k, g)
    ensures g in b.frees[k]
    ensures FreeSlab(h, k, g, off) == Done(h) <==> off % SizeOf(k) == 0 && off / SizeOf(k) in b.frees[k][g]
  {
    FollowPage(h, b, k, g);
    PushCounts(h, k, g, off / SizeOf(k), off);
  }

  /** A block freed before, on a page still with its cache: freeing it again changes nothing. */
  lemma RepeatedFree(h: Heap, b: Book, x: Block)
    requires HeapOk(h, b) && !IsLive(h, b, x) && x.Small? && UseOf(b, x.page) == SlabOf(x.k)
    requires x.obj < ROOM / SizeOf(x.k)
    ensures Free(h, Addr(x)) == Done(h)
  {
    assert PageGood(h, b, x.page);
    assert Owns(h, x.k, x.page);
    SmallTotal(h, b, x.k, x.page);
    ObjectInside(x.k, x.obj);
    ByteAddress(x.page, First(x));
    SmallOffset(x.k, x.obj);
    NothingChanges(h, b, Addr(x));
  }

  /** A free page freed again is linked into a circle: no list of pages fits the free list any more. */
  lemma PoolFreedAgain(h: Heap, b: Book, g: nat)
    requires HeapOk(h, b) && UseOf(b, g) == Pool
    ensures Free(h, g * 4096) == Done(Kfree(h, g)) && forall s :: !PoolOk(Kfree(h, g), s)
  {
    assert PageGood(h, b, g);
    PageFreed(h, g);
    var j :| 0 <= j < |b.list| && b.list[j] == g;
    forall s ensures !PoolOk(Kfree(h, g), s) {
      if PoolOk(Kfree(h, g), s) {
        Circle(h, b.list, g, j, s, j);
      }
    }
  }

  lemma PageFreed(h: Heap, g: nat)
    requires Word(h, g, TAIL) == 0
    ensures Free(h, g * 4096) == Done(Kfree(h, g))
  {
    assert g * 4096 / 4096 == g && g * 4096 % 4096 == 0;
  }

  /** The links of the list after the second free. */
  lemma CircleLinks(h: Heap, list: seq<nat>, g: nat, i: nat)
    requires PoolOk(h, list) && g in list && i < |list| && |h.mem[g]| == WORDS
    ensures Kfree(h, g).head == g && Word(Kfree(h, g), g, 0) == list[0] && 0 < list[i]
    ensures list[i] != g && i + 1 < |list| ==> Word(Kfree(h, g), list[i], 0) == list[i + 1]
  {
    assert 0 < list[i] < |h.mem| && Word(h, list[i], 0) == ItemOr0(list, i + 1);
    var j :| 0 <= j < |list| && list[j] == g;
  }

  /** After the second free, the list starts with `g` and goes on like the old one, which reaches `g` again. */
  lemma {:induction false} Circle(h: Heap, list: seq<nat>, g: nat, j: nat, s: seq<nat>, i: nat)
    requires PoolOk(h, list) && j < |list| && list[j] == g && PoolOk(Kfree(h, g), s) && i <= j && |h.mem[g]| == WORDS
    ensures i + 1 < |s| && s[i + 1] == list[i]
    decreases i
  {
    var h' := Kfree(h, g);
    CircleLinks(h, list, g, i);
    assert |s| > 0 && s[0] == g;
    if i > 0 {
      Circle(h, list, g, j, s, i - 1);
      CircleLinks(h, list, g, i - 1);
      assert list[i - 1] != list[j];
      assert Word(h', s[i], 0) == ItemOr0(s, i + 1);
    } else {
      assert Word(h', s[0], 0) == ItemOr0(s, 1);
    }
  }

  /** A list head that is no object's belongs to no free list. */
  lemma StrayBreaks(h: Heap, k: nat, g: nat, off: nat)
    requires k < |h.caches| == 9 && g in h.caches[k].pages && g < |h.mem|
    ensures forall b :: !HeapOk(PushStray(h, k, g, off), b)
  {
    var h', p := PushStray(h, k, g, off), h.caches[k].pages[g];
    RelistPages(h.caches[k], g, p.(head := STRAY + off, count := p.count + 1));
    forall b ensures !HeapOk(h', b) {
      if HeapOk(h', b) {
        assert Owns(h', k, g);
        SmallTotal(h', b, k, g);
        assert false;
      }
    }
  }

  ghost predicate KeptBy(h: Heap, b: Book, addr: nat, h': Heap, b': Book) {
    HeapOk(h', b') && OthersKept(b, b') && OthersStay(h, b, h', b', Route(h, addr))
  }

  /** `kmfree` ends in a sound heap, with every other live block and everybody else's pages as before, exactly
      when the address is that of a block of the page's present use. */
  lemma FreeExact(h: Heap, b: Book, addr: nat)
    requires HeapOk(h, b) && UseOf(b, addr / 4096) != Nobody
    ensures (Free(h, addr).Done? && exists b' :: KeptBy(h, b, addr, Free(h, addr).heap, b')) <==> Proper(b, addr)
  {
    if Proper(b, addr) {
      ProperKept(h, b, addr);
    } else if Free(h, addr).Done? {
      ImproperLost(h, b, addr);
    }
  }

  lemma Exactly(x: nat, n: nat)
    requires n > 0 && x % n == 0
    ensures x == x / n * n
  {
  }

  lemma ProperBlock(h: Heap, b: Book, addr: nat)
    requires HeapOk(h, b) && Proper(b, addr)
    ensures Addr(Route(h, addr)) == addr && (!IsLive(h, b, Route(h, addr)) ==> OnList(b, addr))
  {
    var g := addr / 4096;
    assert PageGood(h, b, g);
    if UseOf(b, g).SlabOf? {
      var k := UseOf(b, g).k;
      assert Owns(h, k, g);
      SmallTotal(h, b, k, g);
      ObjectAddress(k, g, addr % 4096, addr);
    }
  }

  lemma ObjectAddress(k: nat, g: nat, off: nat, addr: nat)
    requires addr == g * 4096 + off && off % SizeOf(k) == 0
    ensures Addr(Small(k, g, off / SizeOf(k))) == addr
  {
    Exactly(off, SizeOf(k));
    Eightfold(off / SizeOf(k), Stride(k));
  }

  /** The book after a proper free. */
  ghost function AddrBook(h: Heap, b: Book, addr: nat): Book {
    if IsLive(h, b, Route(h, addr)) then FreeBook(b, Route(h, addr)) else b
  }

  lemma ProperKept(h: Heap, b: Book, addr: nat)
    requires HeapOk(h, b) && Proper(b, addr)
    ensures Free(h, addr).Done? && KeptBy(h, b, addr, Free(h, addr).heap, AddrBook(h, b, addr))
    ensures !IsLive(Free(h, addr).heap, AddrBook(h, b, addr), Route(h, addr))
  {
    ProperBlock(h, b, addr);
    var x := Route(h, addr);
    if IsLive(h, b, x) {
      FreeKeeps(h, b, x);
    } else {
      NothingChanges(h, b, addr);
      assert OthersStay(h, b, h, b, x);
    }
  }

  lemma KfreeListed(h: Heap, g: nat, b: Book)
    requires HeapOk(Kfree(h, g), b) && g > 0
    ensures UseOf(b, g) == Pool
  {
    assert b.list[0] == g;
    assert PageGood(Kfree(h, g), b, g);
  }

  lemma ImproperLost(h: Heap, b: Book, addr: nat)
    requires HeapOk(h, b) && UseOf(b, addr / 4096) != Nobody && !Proper(b, addr) && Free(h, addr).Done?
    ensures forall b' :: !KeptBy(h, b, addr, Free(h, addr).heap, b')
  {
    var g, off, t := addr / 4096, addr % 4096, Word(h, addr / 4096, TAIL);
    assert PageGood(h, b, g);
    if t == 0 {
      assert addr == g * 4096;
      if UseOf(b, g) == Pool {
        PoolFreedAgain(h, b, g);
      } else {
        forall b' | HeapOk(Kfree(h, g), b') ensures UseOf(b', g) == Pool { KfreeListed(h, g, b'); }
      }
    } else {
      assert Owns(h, t - 1, g);
      SmallTotal(h, b, t - 1, g);
      FollowPage(h, b, t - 1, g);
      StrayBreaks(h, t - 1, g, off);
    }
  }

  // ----- reaping, and writes by clients and others -----

  /** `kmem_cache_reap` on cache `k`: its first page without live objects goes back to the page allocator. */
  function ReapCache(h: Heap, k: nat): Heap {
    if k >= |h.caches| then h
    else
      var (c, w) := Reap(h.caches[k]);
      if w.At? then Kfree(SetCache(h, k, c), w.page) else h
  }

  ghost function DropBook(b: Book, k: nat, g: nat): Book {
    if k < |b.frees| then SetUse(SetFree(b, k, b.frees[k] - {g}), g, Other) else b
  }

  ghost function ReapBook(h: Heap, b: Book, k: nat): Book {
    if k < |h.caches| && Reap(h.caches[k]).1.At? then
      var g := Reap(h.caches[k]).1.page;
      KfreeBook(DropBook(b, k, g), g)
    else b
  }

  /** The page leaves its cache. */
  lemma DropKeeps(h: Heap, b: Book, k: nat, g: nat)
    requires HeapOk(h, b) && k < 9 && Reap(h.caches[k]).1 == At(g, 0)
    ensures var h', b' := SetCache(h, k, Reap(h.caches[k]).0), DropBook(b, k, g);
      HeapOk(h', b') && AllStay(h, b, h', b') && UseOf(b', g) == Other
  {
    var c, f := h.caches[k], b.frees[k];
    var h', b' := SetCache(h, k, Reap(c).0), DropBook(b, k, g);
    assert CacheOk(h, b, k);
    ReapKeeps(c, f);
    assert Owns(h, k, g) && PageGood(h, b, g);
    forall x: nat | x != g ensures SamePage(h, b, h', b', x, k) {}
    forall j ensures Owns(h', j, g) <==> UseOf(b', g) == SlabOf(j) { assert Owns(h, j, g) ==> j == k; }
    PageChange(h, b, h', b', g, k);
    forall x: Block | x.page == g ensures !IsLive(h, b, x) {
      if IsLive(h, b, x) { Inside(h, b, x); }
    }
    NoneLive(h', b', g);
    PageStay(h, b, h', b', g, k);
  }

  /** Reaping disturbs no live block. */
  lemma ReapCacheKeeps(h: Heap, b: Book, k: nat)
    requires HeapOk(h, b) && k < 9
    ensures HeapOk(ReapCache(h, k), ReapBook(h, b, k)) && AllStay(h, b, ReapCache(h, k), ReapBook(h, b, k))
  {
    var (c, w) := Reap(h.caches[k]);
    if w.At? {
      DropKeeps(h, b, k, w.page);
      var h1, b1 := SetCache(h, k, c), DropBook(b, k, w.page);
      GiveKeeps(h1, b1, w.page);
      AllStayTrans(h, b, h1, b1, Kfree(h1, w.page), KfreeBook(b1, w.page));
    }
  }

  /** A client's write within its block reaches no link, no owner word and no other block. */
  lemma StoreKeeps(h: Heap, b: Book, x: Block, off: nat, v: nat)
    requires HeapOk(h, b) && IsLive(h, b, x) && off < Span(x)
    ensures var h' := Put(h, x.page, First(x) + off, v); HeapOk(h', b) && IsLive(h', b, x) && OthersStay(h, b, h', b, x)
  {
    var h' := Put(h, x.page, First(x) + off, v);
    Inside(h, b, x);
    assert PageGood(h, b, x.page) && CacheOk(h, b, 0);
    forall g: nat | g != x.page ensures SamePage(h, b, h', b, g, 0) {}
    PoolStays(h, h', b.list);
    forall k
      ensures Owns(h', k, x.page) <==> UseOf(b, x.page) == SlabOf(k)
    {
      assert Owns(h', k, x.page) <==> Owns(h, k, x.page);
    }
    if x.Small? { StoreLaid(h, b, x, off, v); }
    PageChange(h, b, h', b, x.page, 0);
    forall y | y != x ensures Stays(h, b, h', b, y) {
      if IsLive(h, b, y) && y.page == x.page { WordsApart(h, b, x, y); }
    }
  }

  lemma StoreLaid(h: Heap, b: Book, x: Block, off: nat, v: nat)
    requires HeapOk(h, b) && IsLive(h, b, x) && x.Small? && off < Span(x)
    ensures Laid(Put(h, x.page, First(x) + off, v), b, x.k, x.page)
  {
    assert Owns(h, x.k, x.page);
    forall i | i in b.frees[x.k][x.page]
      ensures i < |h.caches[x.k].pages[x.page].words|
      ensures Word(Put(h, x.page, First(x) + off, v), x.page, Slot(x.k, i)) == h.caches[x.k].pages[x.page].words[i]
    {
      LaidAt(h, b, x.k, x.page, i);
      LinkOutside(x.k, x.obj, i);
    }
  }

  /** Whoever else has a page may write anything on it, the place of the owner word included. */
  lemma OtherStoreKeeps(h: Heap, b: Book, g: nat, w: nat, v: nat)
    requires HeapOk(h, b) && UseOf(b, g) == Other
    ensures HeapOk(Put(h, g, w, v), b) && AllStay(h, b, Put(h, g, w, v), b)
  {
    var h' := Put(h, g, w, v);
    assert PageGood(h, b, g) && CacheOk(h, b, 0);
    forall x: nat | x != g ensures SamePage(h, b, h', b, x, 0) {}
    PoolStays(h, h', b.list);
    forall k ensures Owns(h', k, g) <==> UseOf(b, g) == SlabOf(k) { assert Owns(h', k, g) <==> Owns(h, k, g); }
    PageChange(h, b, h', b, g, 0);
    NoneLive(h, b, g);
    NoneLive(h', b, g);
    PageStay(h, b, h', b, g, 0);
  }

  // ----- whole runs -----

  /** Requests and frees, reaping, client writes, and the takings, writes and returns of other users of pages. */
  datatype Op =
    | MallocOp(size: nat)
    | FreeOp(addr: nat)
    | ReapOp(k: nat)
    | StoreOp(block: Block, off: nat, v: nat)
    | TakeOp
    | OtherStoreOp(page: nat, w: nat, v: nat)
    | GiveOp(page: nat)

  /** `given` holds every address ever handed out. */
  datatype State = State(heap: Heap, book: Book, given: set<nat>)

  /** Any address once handed out may be freed, and freed again, while it is that of a block of the page's
      present use; clients write within live blocks, others on their own pages. */
  ghost predicate Enabled(s: State, op: Op) {
    match op
    case FreeOp(addr) => addr in s.given && Proper(s.book, addr)
    case ReapOp(k) => k < 9
    case StoreOp(x, off, _) => IsLive(s.heap, s.book, x) && off < Span(x)
    case OtherStoreOp(g, _, _) => UseOf(s.book, g) == Other
    case GiveOp(g) => UseOf(s.book, g) == Other
    case _ => true
  }

  ghost function Step(s: State, op: Op): State {
    match op
    case MallocOp(size) =>
      var (h, r) := Malloc(s.heap, size);
      State(h, MallocBook(s.heap, s.book, size), if r.Given? then s.given + {Addr(r.block)} else s.given)
    case FreeOp(addr) =>
      var r := Free(s.heap, addr);
      if r.Done? then s.(heap := r.heap, book := AddrBook(s.heap, s.book, addr)) else s
    case ReapOp(k) => s.(heap := ReapCache(s.heap, k), book := ReapBook(s.heap, s.book, k))
    case StoreOp(x, off, v) => s.(heap := Put(s.heap, x.page, First(x) + off, v))
    case TakeOp => s.(heap := Kalloc(s.heap).0, book := KallocBook(s.book))
    case OtherStoreOp(g, w, v) => s.(heap := Put(s.heap, g, w, v))
    case GiveOp(g) => s.(heap := Kfree(s.heap, g), book := KfreeBook(s.book, g))
  }

  ghost predicate Runs(s: State, ops: seq<Op>)
    decreases |ops|
  {
    ops == [] || (Enabled(s, ops[0]) && Runs(Step(s, ops[0]), ops[1..]))
  }

  ghost function Run(s: State, ops: seq<Op>): State
    decreases |ops|
  {
    if ops == [] then s else Run(Step(s, ops[0]), ops[1..])
  }

  /** No step but a block's own writes and its free changes what a live block holds. */
  ghost predicate Mine(s: State, op: Op, x: Block) {
    (op.StoreOp? && op.block == x) || (op.FreeOp? && Route(s.heap, op.addr) == x)
  }

  ghost predicate Untouched(s: State, op: Op, s': State) {
    forall x {:trigger Stays(s.heap, s.book, s'.heap, s'.book, x)} | IsLive(s.heap, s.book, x) && !Mine(s, op, x) ::
      Stays(s.heap, s.book, s'.heap, s'.book, x)
  }

  lemma UntouchedBut(s: State, op: Op, s': State, y: Block)
    requires OthersStay(s.heap, s.book, s'.heap, s'.book, y) && (IsLive(s.heap, s.book, y) ==> Mine(s, op, y))
    ensures Untouched(s, op, s')
  {
  }

  lemma UntouchedAll(s: State, op: Op, s': State)
    requires AllStay(s.heap, s.book, s'.heap, s'.book)
    ensures Untouched(s, op, s')
  {
  }

  lemma StepKeeps(s: State, op: Op)
    requires HeapOk(s.heap, s.book) && Enabled(s, op)
    ensures HeapOk(Step(s, op).heap, Step(s, op).book) && Untouched(s, op, Step(s, op))
  {
    var s' := Step(s, op);
    if op.MallocOp? || op.FreeOp? || op.StoreOp? {
      BlockStep(s, op);
    } else {
      match op
      case ReapOp(k) => ReapCacheKeeps(s.heap, s.book, k);
      case TakeOp => KallocKeeps(s.heap, s.book);
      case OtherStoreOp(g, w, v) => OtherStoreKeeps(s.heap, s.book, g, w, v);
      case GiveOp(g) => GiveKeeps(s.heap, s.book, g);
      UntouchedAll(s, op, s');
    }
  }

  lemma BlockStep(s: State, op: Op)
    requires HeapOk(s.heap, s.book) && Enabled(s, op) && (op.MallocOp? || op.FreeOp? || op.StoreOp?)
    ensures HeapOk(Step(s, op).heap, Step(s, op).book) && Untouched(s, op, Step(s, op))
  {
    var s' := Step(s, op);
    match op
    case MallocOp(size) =>
      MallocKeeps(s.heap, s.book, size);
      var r := Malloc(s.heap, size).1;
      if r.Given? { UntouchedBut(s, op, s', r.block); }
    case FreeOp(addr) =>
      ProperKept(s.heap, s.book, addr);
      UntouchedBut(s, op, s', Route(s.heap, addr));
    case StoreOp(x, off, v) =>
      StoreKeeps(s.heap, s.book, x, off, v);
      UntouchedBut(s, op, s', x);
  }

  /** Live blocks are pairwise disjoint, aligned, clear of the page tails, and each address leads back to its own
      block; per slab page the free and the live objects are all objects; the sizes kept are exact. */
  ghost predicate Sound(s: State) {
    && (forall x, y | IsLive(s.heap, s.book, x) && IsLive(s.heap, s.book, y) && x != y ::
          Addr(x) + Capacity(x) <= Addr(y) || Addr(y) + Capacity(y) <= Addr(x))
    && (forall x | IsLive(s.heap, s.book, x) ::
          Addr(x) % 4096 + Capacity(x) <= ROOM && Addr(x) % 8 == 0 && Route(s.heap, Addr(x)) == x)
    && s.heap.size == |s.book.list|
    && (forall k: nat, g: nat | Owns(s.heap, k, g) :: Counted(s, k, g))
  }

  ghost predicate Counted(s: State, k: nat, g: nat)
    requires Owns(s.heap, k, g)
  {
    && k < |s.book.frees| && g in s.book.frees[k]
    && s.heap.caches[k].totalSize == PAGE * |s.heap.caches[k].pages|
    && (forall i: nat :: i in Rest(s.book.frees[k][g], ROOM / SizeOf(k)) <==> IsLive(s.heap, s.book, Small(k, g, i)))
    && s.heap.caches[k].pages[g].count + |Rest(s.book.frees[k][g], ROOM / SizeOf(k))| == ROOM / SizeOf(k)
  }

  lemma HeapSound(s: State)
    requires HeapOk(s.heap, s.book)
    ensures Sound(s)
  {
    forall x, y | IsLive(s.heap, s.book, x) && IsLive(s.heap, s.book, y) && x != y
      ensures Addr(x) + Capacity(x) <= Addr(y) || Addr(y) + Capacity(y) <= Addr(x)
    {
      BlocksApart(s.heap, s.book, x, y);
    }
    forall x | IsLive(s.heap, s.book, x)
      ensures Addr(x) % 4096 + Capacity(x) <= ROOM && Addr(x) % 8 == 0 && Route(s.heap, Addr(x)) == x
    {
      Inside(s.heap, s.book, x);
      RouteExact(s.heap, s.book, x);
    }
    forall k: nat, g: nat | Owns(s.heap, k, g) ensures Counted(s, k, g) {
      SmallTotal(s.heap, s.book, k, g);
      assert CacheOk(s.heap, s.book, k);
      RestCount(s.book.frees[k][g], ROOM / SizeOf(k));
    }
  }

  lemma {:induction false} RunSound(s: State, ops: seq<Op>)
    requires HeapOk(s.heap, s.book) && Runs(s, ops)
    ensures HeapOk(Run(s, ops).heap, Run(s, ops).book) && Sound(Run(s, ops))
    decreases |ops|
  {
    if ops == [] {
      HeapSound(s);
    } else {
      StepKeeps(s, ops[0]);
      RunSound(Step(s, ops[0]), ops[1..]);
    }
  }

  /** Memory after `kalloc_init` and `kmalloc_cache_init`: the pages from 1 to `n` - 1 are free, the last one
      first, and nine caches are empty. */
  function InitialHeap(n: nat): Heap
    requires n > 0
  {
    Heap(seq(n, (g: nat) => Zeros()[0 := if g == 0 then 0 else g - 1]), n - 1, n - 1,
         seq(9, (k: nat) => Cache(SizeOf(k), map[], [], [], [], 0)))
  }

  ghost function AllFree(n: nat): (use: map<nat, Use>)
    ensures forall g :: g in use <==> 0 < g < n
    ensures forall g | g in use :: use[g] == Pool
  {
    if n <= 1 then map[] else AllFree(n - 1)[n - 1 := Pool]
  }

  ghost function Initial(n: nat): State
    requires n > 0
  {
    State(InitialHeap(n), Book(seq(9, _ => map[]), seq(n - 1, (i: nat) => n - 1 - i), AllFree(n)), {})
  }

  lemma InitialOk(n: nat)
    requires n > 0
    ensures HeapOk(Initial(n).heap, Initial(n).book)
  {
    var h, b := Initial(n).heap, Initial(n).book;
    forall k: nat | k < 9 ensures CacheOk(h, b, k) {
      forall g: nat ensures ListOk(h.caches[k], g) {}
    }
    forall g: nat ensures PageGood(h, b, g) {
      if 0 < g < n { assert b.list[n - 1 - g] == g; }
    }
  }

  /** A whole block freed twice: with one page, the page is linked to itself and counted twice. */
  lemma FreedTwice()
    ensures var h0 := InitialHeap(2); var (h1, r) := Malloc(h0, 3000);
      && r == Given(Big(1)) && Free(h1, 4096).Done? && Free(Free(h1, 4096).heap, 4096).Done?
      && var h3 := Free(Free(h1, 4096).heap, 4096).heap;
        h3.head == 1 && Word(h3, 1, 0) == 1 && h3.size == 2 && forall s :: !PoolOk(h3, s)
  {
    var s0 := Initial(2);
    InitialOk(2);
    assert s0.book.list == [1];
    MallocKeeps(s0.heap, s0.book, 3000);
    var h1, b1 := Malloc(s0.heap, 3000).0, MallocBook(s0.heap, s0.book, 3000);
    FreeKeeps(h1, b1, Big(1));
    assert Addr(Big(1)) == 4096;
    PoolFreedAgain(Free(h1, 4096).heap, FreeBook(b1, Big(1)), 1);
  }
}
