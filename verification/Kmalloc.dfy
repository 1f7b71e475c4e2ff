/** kmalloc: nine slab caches for sizes up to 2048 and whole pages above, over the words of memory.  `kmfree`
    tells the two apart by one word at the tail of the page, which clients and other users of pages could
    overwrite and which the page allocator clears. */
module Kmalloc {
  import opened Counting
  import opened Slab

  const WORDS: nat := 512            // 8-byte words of a page
  const BODY: nat := 506             // words before the header at the page tail
  const TAIL: nat := 508             // the header's owner word: 0, or 1 + the number of the cache

  /** `mem[g]` holds the words of page `g`; page 0 stands for the null pointer.  `head` and `size` belong to the
      page allocator, whose free pages are linked through their first words. */
  datatype Heap = Heap(mem: seq<seq<nat>>, head: nat, size: nat, caches: seq<Cache>)

  /** Words per object of cache `k`. */
  function Stride(k: nat): (n: nat)
    ensures 0 < n <= 256
  {
    match k
    case 0 => 1
    case 1 => 2
    case 2 => 4
    case 3 => 8
    case 4 => 16
    case 5 => 32
    case 6 => 64
    case 7 => 128
    case _ => 256
  }

  /** The first word of object `i` of a page of cache `k`. */
  function Slot(k: nat, i: nat): nat {
    i * Stride(k)
  }

  function SizeOf(k: nat): nat {
    8 * Stride(k)
  }

  /** A block handed out by kmalloc: an object of a slab page, or a whole page. */
  datatype Block = Small(k: nat, page: nat, obj: nat) | Big(page: nat)

  /** The words of its page a block takes. */
  function First(b: Block): nat {
    if b.Small? then Slot(b.k, b.obj) else 0
  }

  function Span(b: Block): nat {
    if b.Small? then Stride(b.k) else BODY
  }

  function Addr(b: Block): nat {
    b.page * 4096 + 8 * First(b)
  }

  function Capacity(b: Block): nat {
    8 * Span(b)
  }

  // ----- memory -----

  function Word(h: Heap, g: nat, w: nat): nat {
    if g < |h.mem| && w < |h.mem[g]| then h.mem[g][w] else 0
  }

  function SetRow(h: Heap, g: nat, row: seq<nat>): Heap {
    if g < |h.mem| then h.(mem := h.mem[g := row]) else h
  }

  /** One word stored. */
  function Put(h: Heap, g: nat, w: nat, v: nat): Heap {
    if g < |h.mem| && w < |h.mem[g]| then SetRow(h, g, h.mem[g][w := v]) else h
  }

  function Zeros(): (row: seq<nat>)
    ensures |row| == WORDS && forall w | 0 <= w < WORDS :: row[w] == 0
  {
    seq(WORDS, _ => 0)
  }

  /** A row with `n` words from `lo` on cleared. */
  function Cleared(row: seq<nat>, lo: nat, n: nat): (r: seq<nat>)
    ensures |r| == |row| && forall w | 0 <= w < |row| :: r[w] == if lo <= w < lo + n then 0 else row[w]
  {
    seq(|row|, (w: nat) requires w < |row| => if lo <= w < lo + n then 0 else row[w])
  }

  /** The words `kmem_cache_grow` leaves on a zeroed page: the links of its objects and the owner word. */
  function SlabRow(k: nat): (r: seq<nat>)
    ensures |r| == WORDS && r[TAIL] == k + 1
  {
    var p := NewPage(SizeOf(k));
    seq(WORDS, (w: nat) =>
      if w == TAIL then k + 1
      else if w % Stride(k) == 0 && w / Stride(k) < |p.words| then p.words[w / Stride(k)] else 0)
  }

  function SetCache(h: Heap, k: nat, c: Cache): Heap {
    if k < |h.caches| then h.(caches := h.caches[k := c]) else h
  }

  // ----- the page allocator -----

  /** `kalloc`: the first free page, cleared; page 0 when none is left. */
  function Kalloc(h: Heap): (Heap, nat) {
    if h.head == 0 || h.size == 0 then (h, 0)
    else (SetRow(h, h.head, Zeros()).(head := Word(h, h.head, 0), size := h.size - 1), h.head)
  }

  /** `kfree` of a page with one reference: clear it and link it in front. */
  function Kfree(h: Heap, g: nat): Heap {
    SetRow(h, g, Zeros()[0 := h.head]).(head := g, size := h.size + 1)
  }

  // ----- who has which page -----

  /** What a page is used for: on the free list, a slab page, a whole block, or taken by someone else. */
  datatype Use = Nobody | Pool | SlabOf(k: nat) | Whole | Other

  /** The free objects per cache and page, the free pages in list order, and the use of every page. */
  datatype Book = Book(frees: seq<Free>, list: seq<nat>, use: map<nat, Use>)

  ghost function UseOf(b: Book, g: nat): Use {
    if g in b.use then b.use[g] else Nobody
  }

  ghost predicate Owns(h: Heap, k: nat, g: nat) {
    k < |h.caches| && g in h.caches[k].pages
  }

  /** The links of the free objects lie in memory, at the first words of the objects. */
  ghost predicate Laid(h: Heap, b: Book, k: nat, g: nat) {
    k < |h.caches| && k < |b.frees| && g in h.caches[k].pages && g in b.frees[k] ==>
      forall i {:trigger i in b.frees[k][g]} | i in b.frees[k][g] ::
        i < |h.caches[k].pages[g].words| && Word(h, g, Slot(k, i)) == h.caches[k].pages[g].words[i]
  }

  /** One page: its use is unique, and the word at its tail names its owner. */
  ghost predicate PageGood(h: Heap, b: Book, g: nat) {
    var u := UseOf(b, g);
    && (u != Nobody ==> 0 < g < |h.mem| && |h.mem[g]| == WORDS)
    && (g in b.list <==> u == Pool)
    && (forall k {:trigger Owns(h, k, g)} :: Owns(h, k, g) <==> u == SlabOf(k))
    && (u.SlabOf? ==> Word(h, g, TAIL) == u.k + 1 && Laid(h, b, u.k, g))
    && (u == Whole || u == Pool ==> Word(h, g, TAIL) == 0)
  }

  ghost predicate CacheOk(h: Heap, b: Book, k: nat)
    requires k < |h.caches| && k < |b.frees|
  {
    h.caches[k].objSize == SizeOf(k) && Inv(h.caches[k], b.frees[k])
  }

  function ItemOr0(s: seq<nat>, i: nat): nat {
    if i < |s| then s[i] else 0
  }

  /** The links through the first words of the free pages spell out `s`. */
  ghost predicate PoolOk(h: Heap, s: seq<nat>) {
    && h.head == ItemOr0(s, 0) && h.size == |s| && Distinct(s)
    && forall i {:trigger s[i]} | 0 <= i < |s| :: 0 < s[i] < |h.mem| && Word(h, s[i], 0) == ItemOr0(s, i + 1)
  }

  ghost predicate HeapOk(h: Heap, b: Book) {
    && |h.caches| == |b.frees| == 9
    && (forall k: nat {:trigger CacheOk(h, b, k)} | k < 9 :: CacheOk(h, b, k))
    && PoolOk(h, b.list)
    && (forall g: nat {:trigger PageGood(h, b, g)} :: PageGood(h, b, g))
  }

  ghost predicate IsLive(h: Heap, b: Book, x: Block) {
    match x
    case Small(k, page, obj) => k < |h.caches| && k < |b.frees| && Live(h.caches[k], b.frees[k], page, obj)
    case Big(page) => UseOf(b, page) == Whole
  }

  // ----- where live blocks lie -----

  lemma DivCancel(i: nat, n: nat)
    requires n > 0
    ensures (i * n) / n == i && (i * n) % n == 0
  {
    var x := i * n;
    var q, r := x / n, x % n;
    assert x == q * n + r && 0 <= r < n;
    if q < i { Spread(n, q, i); }
    if i < q { Spread(n, i, q); }
  }

  /** An object of a slab page lies before the header. */
  lemma ObjectInside(k: nat, i: nat)
    requires i < ROOM / SizeOf(k)
    ensures Slot(k, i) + Stride(k) <= BODY
  {
    ObjectEnds(SizeOf(k), ROOM / SizeOf(k), i);
    Eightfold(i, Stride(k));
  }

  lemma {:induction false} Eightfold(i: nat, n: nat)
    ensures i * (8 * n) == 8 * (i * n)
  {
    if i > 0 {
      Eightfold(i - 1, n);
      assert i * (8 * n) == (i - 1) * (8 * n) + 8 * n;
      assert i * n == (i - 1) * n + n;
    }
  }

  lemma ByteAddress(g: nat, w: nat)
    requires w < WORDS
    ensures (g * 4096 + 8 * w) / 4096 == g && (g * 4096 + 8 * w) % 4096 == 8 * w
  {
  }

  lemma SmallTotal(h: Heap, b: Book, k: nat, g: nat)
    requires HeapOk(h, b) && Owns(h, k, g)
    ensures g in b.frees[k] && PageOk(h.caches[k].pages[g], b.frees[k][g], SizeOf(k))
    ensures h.caches[k].pages[g].total == ROOM / SizeOf(k) && UseOf(b, g) == SlabOf(k) && 0 < g < |h.mem|
  {
    assert CacheOk(h, b, k) && PageGood(h, b, g);
    assert PageOk(h.caches[k].pages[g], b.frees[k][g], h.caches[k].objSize);
  }

  /** A live block is on a page of its own use, inside the body of the page. */
  lemma Inside(h: Heap, b: Book, x: Block)
    requires HeapOk(h, b) && IsLive(h, b, x)
    ensures UseOf(b, x.page) == (if x.Small? then SlabOf(x.k) else Whole) && 0 < x.page < |h.mem|
    ensures First(x) + Span(x) <= BODY && (x.Small? ==> x.obj < ROOM / SizeOf(x.k))
    ensures Addr(x) / 4096 == x.page && Addr(x) % 4096 == 8 * First(x)
  {
    assert PageGood(h, b, x.page);
    if x.Small? {
      assert Owns(h, x.k, x.page);
      SmallTotal(h, b, x.k, x.page);
      ObjectInside(x.k, x.obj);
    }
    ByteAddress(x.page, First(x));
  }

  /** Live blocks share no word. */
  lemma WordsApart(h: Heap, b: Book, x: Block, y: Block)
    requires HeapOk(h, b) && IsLive(h, b, x) && IsLive(h, b, y) && x != y && x.page == y.page
    ensures First(x) + Span(x) <= First(y) || First(y) + Span(y) <= First(x)
  {
    Inside(h, b, x);
    Inside(h, b, y);
    assert x.Small? && y.Small? && x.k == y.k;
    if x.obj < y.obj { Spread(Stride(x.k), x.obj, y.obj); } else { Spread(Stride(x.k), y.obj, x.obj); }
  }

  /** Live blocks do not overlap, are 8-byte aligned and never touch the page-tail header. */
  lemma BlocksApart(h: Heap, b: Book, x: Block, y: Block)
    requires HeapOk(h, b) && IsLive(h, b, x) && IsLive(h, b, y) && x != y
    ensures Addr(x) + Capacity(x) <= Addr(y) || Addr(y) + Capacity(y) <= Addr(x)
    ensures Addr(x) % 4096 + Capacity(x) <= ROOM && Addr(x) % 8 == 0
  {
    Inside(h, b, x);
    Inside(h, b, y);
    if x.page == y.page { WordsApart(h, b, x, y); }
  }

  /** What `kmfree` takes an address for: the owner word at the tail of its page decides. */
  function Route(h: Heap, addr: nat): Block {
    var g := addr / 4096;
    var t := Word(h, g, TAIL);
    if t == 0 then Big(g) else Small(t - 1, g, (addr % 4096) / SizeOf(t - 1))
  }

  lemma SmallOffset(k: nat, i: nat)
    ensures (8 * Slot(k, i)) / SizeOf(k) == i && (8 * Slot(k, i)) % SizeOf(k) == 0
  {
    Eightfold(i, Stride(k));
    DivCancel(i, SizeOf(k));
  }

  /** `kmfree` takes the address of a live block back to exactly the allocator and object it came from. */
  lemma RouteExact(h: Heap, b: Book, x: Block)
    requires HeapOk(h, b) && IsLive(h, b, x)
    ensures Route(h, Addr(x)) == x
  {
    Inside(h, b, x);
    assert PageGood(h, b, x.page);
    if x.Small? { SmallOffset(x.k, x.obj); }
  }

  // ----- changes of one page -----

  /** Everything except page `g0` is as before; of the caches only `k0` may differ. */
  ghost predicate SameElsewhere(h: Heap, b: Book, h': Heap, b': Book, g0: nat, k0: nat) {
    && |h'.mem| == |h.mem| && |h.caches| == |h'.caches| == 9 && |b.frees| == |b'.frees| == 9 && k0 < 9
    && (forall k: nat | k < 9 && k != k0 :: h'.caches[k] == h.caches[k] && b'.frees[k] == b.frees[k])
    && (forall g: nat {:trigger SamePage(h, b, h', b', g, k0)} | g != g0 :: SamePage(h, b, h', b', g, k0))
  }

  ghost predicate SamePage(h: Heap, b: Book, h': Heap, b': Book, g: nat, k0: nat) {
    && (g < |h.mem| && g < |h'.mem| ==> h'.mem[g] == h.mem[g])
    && UseOf(b', g) == UseOf(b, g) && (g in b'.list <==> g in b.list)
    && (k0 < |h.caches| && k0 < |h'.caches| ==> SameKey(h.caches[k0].pages, h'.caches[k0].pages, g))
    && (k0 < |b.frees| && k0 < |b'.frees| ==> SameKey(b.frees[k0], b'.frees[k0], g))
  }

  ghost predicate SameKey<V>(m: map<nat, V>, m': map<nat, V>, g: nat) {
    (g in m' <==> g in m) && (g in m && g in m' ==> m'[g] == m[g])
  }

  lemma PageStays(h: Heap, b: Book, h': Heap, b': Book, g0: nat, k0: nat, g: nat)
    requires PageGood(h, b, g) && SameElsewhere(h, b, h', b', g0, k0) && g != g0
    ensures PageGood(h', b', g)
  {
    assert SamePage(h, b, h', b', g, k0);
    forall k ensures Owns(h', k, g) <==> UseOf(b', g) == SlabOf(k) { assert Owns(h', k, g) <==> Owns(h, k, g); }
  }

  /** The invariant after a change of one page. */
  lemma PageChange(h: Heap, b: Book, h': Heap, b': Book, g0: nat, k0: nat)
    requires HeapOk(h, b) && SameElsewhere(h, b, h', b', g0, k0)
    requires CacheOk(h', b', k0) && PoolOk(h', b'.list) && PageGood(h', b', g0)
    ensures HeapOk(h', b')
  {
    forall g: nat ensures PageGood(h', b', g) {
      assert PageGood(h, b, g);
      if g != g0 { PageStays(h, b, h', b', g0, k0, g); }
    }
    forall k: nat | k < 9 ensures CacheOk(h', b', k) { assert CacheOk(h, b, k); }
  }

  /** The same free pages with the same first words spell out the same list. */
  lemma PoolStays(h: Heap, h': Heap, s: seq<nat>)
    requires PoolOk(h, s) && h'.head == h.head && h'.size == h.size && |h'.mem| == |h.mem|
    requires forall g | g in s :: Word(h', g, 0) == Word(h, g, 0)
    ensures PoolOk(h', s)
  {
    forall i | 0 <= i < |s| ensures 0 < s[i] < |h'.mem| && Word(h', s[i], 0) == ItemOr0(s, i + 1) { assert s[i] in s; }
  }

  // ----- what clients see -----

  ghost predicate SameWords(h: Heap, h': Heap, x: Block) {
    forall w {:trigger Word(h', x.page, w)} | First(x) <= w < First(x) + Span(x) ::
      Word(h', x.page, w) == Word(h, x.page, w)
  }

  /** Exactly the live blocks of before stay live, with the same contents, except that `gone` ends. */
  ghost predicate Stays(h: Heap, b: Book, h': Heap, b': Book, x: Block) {
    (IsLive(h', b', x) <==> IsLive(h, b, x)) && (IsLive(h, b, x) ==> SameWords(h, h', x))
  }

  ghost predicate AllStay(h: Heap, b: Book, h': Heap, b': Book) {
    forall x {:trigger Stays(h, b, h', b', x)} {:trigger IsLive(h', b', x)} :: Stays(h, b, h', b', x)
  }

  /** All live blocks but `y` stay as they are. */
  ghost predicate OthersStay(h: Heap, b: Book, h': Heap, b': Book, y: Block) {
    forall x {:trigger Stays(h, b, h', b', x)} {:trigger IsLive(h', b', x)} | x != y :: Stays(h, b, h', b', x)
  }

  lemma StaysTrans(h: Heap, b: Book, h1: Heap, b1: Book, h2: Heap, b2: Book, y: Block)
    requires AllStay(h, b, h1, b1) && OthersStay(h1, b1, h2, b2, y)
    ensures OthersStay(h, b, h2, b2, y)
  {
    forall x | x != y ensures Stays(h, b, h2, b2, x) { assert Stays(h, b, h1, b1, x) && Stays(h1, b1, h2, b2, x); }
  }

  /** A page that had no live block, in a change that gives it none, disturbs nothing. */
  lemma PageStay(h: Heap, b: Book, h': Heap, b': Book, g0: nat, k0: nat)
    requires HeapOk(h, b) && HeapOk(h', b') && SameElsewhere(h, b, h', b', g0, k0)
    requires forall x: Block {:trigger IsLive(h, b, x)} | x.page == g0 :: !IsLive(h, b, x)
    requires forall x: Block {:trigger IsLive(h', b', x)} | x.page == g0 :: !IsLive(h', b', x)
    ensures AllStay(h, b, h', b')
  {
    forall x ensures Stays(h, b, h', b', x) {
      if x.page != g0 { assert SamePage(h, b, h', b', x.page, k0); }
    }
  }

  /** Pages of these uses hold no live block. */
  lemma NoneLive(h: Heap, b: Book, g: nat)
    requires HeapOk(h, b) && !UseOf(b, g).SlabOf? && UseOf(b, g) != Whole
    ensures forall x: Block {:trigger IsLive(h, b, x)} | x.page == g :: !IsLive(h, b, x)
  {
    forall x: Block | x.page == g ensures !IsLive(h, b, x) {
      if IsLive(h, b, x) { Inside(h, b, x); }
    }
  }
}
