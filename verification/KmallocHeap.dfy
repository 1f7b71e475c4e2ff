/** `kmalloc` and `kmfree` in place, over memory, the page allocator's list and the cache table. */
module KmallocHeap {
  import opened Slab
  import opened Kmalloc
  import opened KmallocOps
  import opened KmallocRuns

  /** What `kmfree` does: return, panic, or follow an owner word that names no cache of the page. */
  datatype Ended = Returns | Stops | Wild

  function EmptyCaches(n: nat): seq<Cache> {
    seq(n, (k: nat) => Cache(SizeOf(k), map[], [], [], [], 0))
  }

  class KernelHeap {
    var mem: seq<seq<nat>>
    var head: nat
    var size: nat
    var caches: seq<Cache>
    var ready: bool
    ghost var book: Book

    /** Before the first call the cache table is empty; it stands for nine caches without pages. */
    function Abs(): Heap
      reads this
    {
      Heap(mem, head, size, if ready then caches else EmptyCaches(9))
    }

    ghost predicate Valid()
      reads this
    {
      HeapOk(Abs(), book) && (!ready ==> caches == [])
    }

    /** Memory as `kalloc_init` leaves it, with `n` - 1 free pages. */
    constructor (n: nat)
      requires n > 0
      ensures Valid() && Abs() == InitialHeap(n) && book == Initial(n).book
    {
      mem, head, size, caches, ready := InitialHeap(n).mem, n - 1, n - 1, [], false;
      book := Initial(n).book;
      new;
      InitialOk(n);
      assert EmptyCaches(9) == InitialHeap(n).caches;
    }

    /** `kmalloc_cache_init`: one cache per power of two from 8 to 2048, on the first call only. */
    method CacheInit()
      requires !ready ==> caches == []
      modifies `caches, `ready
      ensures ready && Abs() == old(Abs())
    {
      if ready { return; }
      var i := 8;
      while i <= 2048
        invariant |caches| <= 9 && caches == EmptyCaches(|caches|)
        invariant i == if |caches| < 9 then SizeOf(|caches|) else 4096
        decreases 4096 - i
      {
        assert i == SizeOf(|caches|);
        caches := caches + [Cache(i, map[], [], [], [], 0)];
        i := i * 2;
      }
      ready := true;
    }

    /** `memset` of a block. */
    method Clear(x: Block)
      requires x.page < |mem| && First(x) + Span(x) <= |mem[x.page]|
      modifies `mem
      ensures Abs() == ClearBlock(old(Abs()), x)
    {
      ghost var row := mem[x.page];
      var w := First(x);
      assert Cleared(row, w, 0) == row;
      while w < First(x) + Span(x)
        invariant First(x) <= w <= First(x) + Span(x)
        invariant mem == old(mem)[x.page := Cleared(row, First(x), w - First(x))]
      {
        mem := mem[x.page := mem[x.page][w := 0]];
        w := w + 1;
        assert mem[x.page] == Cleared(row, First(x), w - First(x));
      }
    }

    method TakePage() returns (p: nat)
      modifies `mem, `head, `size
      ensures (Abs(), p) == Kalloc(old(Abs()))
    {
      if head == 0 || size == 0 { return 0; }
      p := head;
      var next := Word(Abs(), p, 0);
      if p < |mem| { mem := mem[p := Zeros()]; }
      head, size := next, size - 1;
    }

    /** `kmem_cache_alloc` on the pages the cache has, and the clearing of the object. */
    method TakeObject(k: nat) returns (r: Given)
      requires ready && |caches| == 9 && k < 9 && (exists b :: HeapOk(Abs(), b))
      modifies `mem, `caches
      ensures (Abs(), r) == TakeObj(old(Abs()), k)
    {
      ghost var h := Abs();
      ghost var b :| HeapOk(h, b);
      TakeObjKeeps(h, b, k);
      var (c, w) := Alloc(caches[k]);
      if w.Nowhere? { return Nothing; }
      ghost var h' := TakeObj(h, k).0;
      Inside(h', TakeBook(h, b, k), Small(k, w.page, w.obj));
      caches := caches[k := c];
      var x := Small(k, w.page, w.obj);
      assert PageGood(h, b, x.page);
      Clear(x);
      r := Given(x);
    }

    /** An object of cache `k`; a cache without a free one grows by a page. */
    method AllocSmall(k: nat) returns (r: Given)
      requires Valid() && ready && k < 9
      modifies `mem, `head, `size, `caches
      ensures (Abs(), r) == SmallAlloc(old(Abs()), k)
    {
      ghost var h := Abs();
      r := TakeObject(k);
      if r.Given? { return; }
      KallocKeeps(h, book);
      var p := TakePage();
      if p == 0 { return Nothing; }
      mem := mem[p := SlabRow(k)];
      caches := caches[k := Grow(caches[k], p)];
      GrowOnKeeps(Kalloc(h).0, KallocBook(book), k, p);
      assert Abs() == GrowOn(Kalloc(h).0, k, p);
      r := TakeObject(k);
    }

    /** `kmalloc`: the block is large enough, was not live and is cleared, and no other live block changes; nothing is
        given exactly when the size is too large or no page is left where one is needed. */
    method Malloc(size: nat) returns (r: Given)
      requires Valid()
      modifies this
      ensures Valid() && ready && (Abs(), r) == KmallocOps.Malloc(old(Abs()), size)
      ensures r == Nothing ==> Abs() == old(Abs()) && book == old(book)
      ensures r.Given? ==> Capacity(r.block) >= size && Gives(old(Abs()), old(book), Abs(), book, r.block)
    {
      CacheInit();
      ghost var h := Abs();
      MallocKeeps(h, book, size);
      if size <= 2048 {
        var idx := Bucket(size);
        r := AllocSmall(idx);
      } else if size <= 4048 {
        KallocKeeps(h, book);
        var p := TakePage();
        if p == 0 {
          r := Nothing;
        } else {
          mem := mem[p := mem[p][TAIL := 0]];
          r := Given(Big(p));
        }
      } else {
        r := Nothing;
      }
      book := MallocBook(h, book, size);
    }

    /** Follow the free list of a page for at most its number of objects. */
    method OnFreeList(p: Page, i: nat) returns (found: bool)
      ensures found <==> i in Follow(p.words, p.head, p.total)
    {
      var cur: nat, n: nat := p.head, p.total;
      while n > 0 && cur < |p.words|
        invariant n <= p.total && (i in Follow(p.words, cur, n) <==> i in Follow(p.words, p.head, p.total))
        decreases n
      {
        if cur == i { return true; }
        cur, n := p.words[cur], n - 1;
      }
      found := false;
    }

    /** Page `q` of cache `k` takes the place of `p`, and word `w` of the page is set to the old list head. */
    method Relink(k: nat, g: nat, q: Page, w: nat)
      requires ready && k < |caches| && g in caches[k].pages && g < |mem|
      modifies `mem, `caches
      ensures Abs() == Put(SetCache(old(Abs()), k, Relist(old(caches)[k], g, q)), g, w, old(caches)[k].pages[g].head)
    {
      var row: seq<nat> := mem[g];
      if w < |row| { row := row[w := caches[k].pages[g].head]; }
      caches := caches[k := Relist(caches[k], g, q)];
      mem := mem[g := row];
    }

    method PushObject(k: nat, g: nat, i: nat)
      requires ready && k < |caches| && g in caches[k].pages && g < |mem|
      modifies `mem, `caches
      ensures Abs() == Push(old(Abs()), k, g, i)
    {
      Relink(k, g, PushObj(caches[k].pages[g], i), Slot(k, i));
    }

    /** The same with an address that is no object's. */
    method PushOther(k: nat, g: nat, off: nat)
      requires ready && k < |caches| && g in caches[k].pages && g < |mem|
      modifies `mem, `caches
      ensures Abs() == PushStray(old(Abs()), k, g, off)
    {
      var p := caches[k].pages[g];
      Relink(k, g, p.(head := STRAY + off, count := p.count + 1), off / 8);
    }

    /** `kmem_cache_free` of the byte `off` of page `g`. */
    method FreeObject(k: nat, g: nat, off: nat) returns (panics: bool)
      requires ready && k < |caches| && g in caches[k].pages && g < |mem|
      modifies `mem, `caches
      ensures panics ==> FreeSlab(old(Abs()), k, g, off).Panics? && Abs() == old(Abs())
      ensures !panics ==> FreeSlab(old(Abs()), k, g, off) == Done(Abs())
    {
      var p, i := caches[k].pages[g], off / SizeOf(k);
      if off % SizeOf(k) == 0 {
        var found := OnFreeList(p, i);
        if found { return false; }
      }
      if p.count >= p.total { return true; }
      panics := false;
      if off % SizeOf(k) == 0 && i < p.total {
        PushObject(k, g, i);
      } else {
        PushOther(k, g, off);
      }
    }

    /** `kmfree` of a pointer to a page: the owner word at its tail decides. */
    method FreeByTail(addr: nat) returns (out: Ended)
      requires ready && addr / 4096 < |mem| && |mem[addr / 4096]| == WORDS
      modifies `mem, `head, `size, `caches
      ensures out == Returns ==> KmallocRuns.Free(old(Abs()), addr) == Done(Abs())
      ensures out == Stops ==> KmallocRuns.Free(old(Abs()), addr) == Panics && Abs() == old(Abs())
      ensures out == Wild ==> KmallocRuns.Free(old(Abs()), addr) == Strays && Abs() == old(Abs())
    {
      var g, off := addr / 4096, addr % 4096;
      var t: nat := mem[g][TAIL];
      if t == 0 {
        if off != 0 { return Stops; }
        mem := mem[g := Zeros()[0 := head]];
        head, size := g, size + 1;
        out := Returns;
      } else if t - 1 < |caches| && g in caches[t - 1].pages {
        var panics := FreeObject(t - 1, g, off);
        out := if panics then Stops else Returns;
      } else {
        out := Wild;
      }
    }

    /** `kmfree`.  The free of a block of the page's present use ends its life, or leaves it as free as it was, and
        changes no other live block. */
    method Mfree(addr: nat, kernelEnd: nat) returns (out: Ended)
      requires Valid() && (addr != 0 ==> ready && UseOf(book, addr / 4096) != Nobody)
      modifies this
      ensures addr == 0 ==> out == Returns && Abs() == old(Abs()) && book == old(book)
      ensures addr != 0 && addr < kernelEnd ==> out == Stops && Abs() == old(Abs()) && book == old(book)
      ensures addr != 0 && addr >= kernelEnd ==>
        match out
        case Returns => KmallocRuns.Free(old(Abs()), addr) == Done(Abs())
        case Stops => KmallocRuns.Free(old(Abs()), addr) == Panics && Abs() == old(Abs())
        case Wild => KmallocRuns.Free(old(Abs()), addr) == Strays && Abs() == old(Abs())
      ensures addr != 0 && addr >= kernelEnd && Proper(old(book), addr) ==>
        && out == Returns && Valid() && KeptBy(old(Abs()), old(book), addr, Abs(), book)
        && !IsLive(Abs(), book, Route(old(Abs()), addr))
    {
      if addr == 0 { return Returns; }
      if addr < kernelEnd { return Stops; }
      ghost var h, b := Abs(), book;
      assert PageGood(h, b, addr / 4096);
      if Proper(b, addr) {
        ProperKept(h, b, addr);
        book := AddrBook(h, b, addr);
      }
      out := FreeByTail(addr);
    }
  }
}
