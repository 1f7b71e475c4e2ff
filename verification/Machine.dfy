/** The kernel's memory routines as they run: a linked free list threaded through the frames,
    reference counts, and page tables updated in place.  Each method is tied to the function of
    `Frames`, `PageTables`, `Cow` or `TableFree` that says what it computes. */
module Machine {
  import opened Frames
  import opened PageTables
  import opened Cow
  import opened TableFree
  import opened AddressSpaces
  import opened UserCopy

  /** The link value of the list head, which closes the circular list. */
  const HEAD: nat := NFRAMES

  function Index(pg: Page, level: nat): nat {
    if level == 2 then pg.i2 else if level == 1 then pg.i1 else pg.i0
  }

  ghost predicate LinkOk(next: seq<nat>, free: seq<Frame>, k: nat)
    requires k < |free|
  {
    free[k] < |next| && next[free[k]] == if k + 1 < |free| then free[k + 1] else HEAD
  }

  const DRAM_BASE: nat := 0x200000

  /** The page number `walk` decodes from an address. */
  function PageNo(va: nat): nat {
    va / 4096 % ALL_PAGES
  }

  function FrameOf(pa: nat): Frame {
    if pa < DRAM_BASE then 0 else (pa - DRAM_BASE) / 4096
  }

  /** The arguments `mappages` refuses. */
  predicate BadRange(va: nat, pa: nat, size: nat) {
    size == 0 || va % 4096 != 0 || pa % 4096 != 0 || size % 4096 != 0 || va + size >= WORD || pa + size >= WORD
  }

  /** How `mappages` ended: done, out of memory, or with the panic on a remap. */
  function ResultOf(r: int, panics: bool): MapResult {
    if panics then Remap else if r == 0 then Mapped else NoMemory
  }

  /** What `mappages` demands of its callers: a writable frame is not shared. */
  ghost predicate Placeable(m: Mem, root: Frame, f: Frame, k: nat, perm: Pte) {
    IsRoot(m, root) && (k > 0 ==> PermOk(m, f, perm)) && Unshared(m, f, f + k)
  }

  /** How many of `k` pages from page `n` come before the end of the table, past which the walk goes on at page 0. */
  function BeforeEnd(n: nat, k: nat): nat {
    if n + k <= ALL_PAGES || n > ALL_PAGES then k else ALL_PAGES - n
  }

  /** What mapping across the end of the table has done when it ends after `done` pages: `k1` pages come before the end
      and `left` pages, with the frames from `g` on, after it; `mid` is memory when the end was reached. */
  ghost predicate AcrossDone(m0: Mem, mid: Mem, m: Mem, held: multiset<Frame>, r: Frame, n: nat, f: Frame, k1: nat,
      g: Frame, left: nat, perm: Pte, res: MapResult, done: nat)
  {
    if done < k1 then mid == m && RangeDone(m0, m, held + FrameRange(g, left), r, n, f, k1, perm, res, done)
    else
      && RangeDone(m0, mid, held + FrameRange(g, left), r, n, f, k1, perm, Mapped, k1)
      && RangeDone(mid, m, held, r, 0, g, left, perm, res, done - k1)
  }

  /** What mapping `k` pages has done, of which `k1` come before the end of the table. */
  ghost predicate WrapDone(m0: Mem, mid: Mem, m: Mem, held: multiset<Frame>, r: Frame, n: nat, f: Frame, k: nat,
      k1: nat, perm: Pte, res: MapResult, done: nat)
  {
    if k1 >= k then RangeDone(m0, m, held, r, n, f, k, perm, res, done)
    else AcrossDone(m0, mid, m, held, r, n, f, k1, f + k1, k - k1, perm, res, done)
  }

  /** The links starting at `first` spell out `free` and close at the head. */
  ghost predicate Chain(next: seq<nat>, first: nat, free: seq<Frame>) {
    && first == (if free == [] then HEAD else free[0])
    && forall k: nat {:trigger LinkOk(next, free, k)} | k < |free| :: LinkOk(next, free, k)
  }

  lemma ChainPush(next: seq<nat>, first: nat, free: seq<Frame>, f: Frame)
    requires Chain(next, first, free) && f < |next| && f !in free
    ensures Chain(next[f := first], f, [f] + free)
  {
    var next', free' := next[f := first], [f] + free;
    forall k: nat | k < |free'| ensures LinkOk(next', free', k) {
      if k > 0 { assert LinkOk(next, free, k - 1); }
    }
  }

  lemma ChainPop(next: seq<nat>, first: nat, free: seq<Frame>)
    requires Chain(next, first, free) && free != []
    ensures first < |next| && Chain(next, next[first], free[1..])
  {
    assert LinkOk(next, free, 0);
    forall k: nat | k < |free[1..]| ensures LinkOk(next, free[1..], k) { assert LinkOk(next, free, k + 1); }
  }

  class Memory {
    const base: nat
    var headNext: nat
    var next: seq<nat>
    var size: nat
    var refcnt: seq<int>
    var tab: seq<seq<Pte>>
    var data: seq<seq<Byte>>
    ghost var free: seq<Frame>
    ghost var nodes: map<Frame, Node>

    ghost function Abs(): Mem
      reads this
    {
      Mem(base, free, refcnt, tab, data, nodes)
    }

    /** The links from the head spell out `free`, and `size` is its length. */
    ghost predicate Linked()
      reads this
    {
      && size == |free| && |next| == NFRAMES && Chain(next, headNext, free)
      && forall k :: 0 <= k < |free| ==> free[k] < NFRAMES
    }

    ghost predicate Valid(held: multiset<Frame>)
      reads this
    {
      Linked() && Inv(Abs(), held)
    }

    /** `kalloc_init`: frames above the kernel image are freed in increasing order. */
    constructor (kernelEnd: nat)
      requires kernelEnd <= NFRAMES
      ensures base == kernelEnd && Abs() == Boot(kernelEnd) && Valid(multiset{})
    {
      base := kernelEnd;
      headNext := HEAD;
      next := seq(NFRAMES, _ => 0);
      size := 0;
      refcnt := seq(NFRAMES, _ => 0);
      tab := seq(NFRAMES, _ => ZeroTable());
      data := seq(NFRAMES, _ => ZeroPage());
      free := [];
      nodes := map[];
      new;
      var f := kernelEnd;
      while f < NFRAMES
        invariant base <= f <= NFRAMES && free == FreeRange(base, f) && Linked() && nodes == map[]
        invariant Abs() == Boot(base).(free := free)
      {
        FreeRangeAt(base, f);
        Release(f);
        assert tab == Boot(base).tab && data == Boot(base).data;
        f := f + 1;
      }
      BootOk(kernelEnd);
    }

    /** `kfree`: drop a reference; with the last one, push the zeroed frame on the list.  The panic for a
        frame outside the managed range is not reachable. */
    method Release(f: Frame)
      requires Linked() && base <= f < NFRAMES == |refcnt| == |tab| == |data|
      requires refcnt[f] <= 1 ==> f !in free
      modifies this
      ensures Linked() && Abs() == Kfree(old(Abs()), f)
    {
      if f >= NFRAMES || f < base {
        assert false;
      }
      if refcnt[f] > 1 {
        refcnt := refcnt[f := refcnt[f] - 1];
        return;
      }
      tab, data := tab[f := ZeroTable()], data[f := ZeroPage()];
      ChainPush(next, headNext, free, f);
      next := next[f := headNext];
      headNext := f;
      size := size + 1;
      free := [f] + free;
    }

    /** `kalloc`: pop the head of the list, or report that memory is exhausted. */
    method Acquire() returns (r: Option<Frame>)
      requires Linked() && NFRAMES == |refcnt| == |tab| == |data|
      modifies this
      ensures Linked() && Abs() == Kalloc(old(Abs()))
      ensures r == if old(free) == [] then None else Some(old(free)[0])
    {
      if headNext == HEAD {
        return None;
      }
      var f := headNext;
      ChainPop(next, headNext, free);
      headNext := next[f];
      size := size - 1;
      refcnt := refcnt[f := 1];
      tab, data := tab[f := ZeroTable()], data[f := ZeroPage()];
      free := free[1..];
      return Some(f);
    }

    /** One level of `walk`: the child table behind an entry, allocated if missing and asked for. */
    method Child(t: Frame, i: nat, alloc: bool, ghost held: multiset<Frame>) returns (c: Option<Frame>)
      requires Valid(held) && t in nodes && nodes[t].level > 0 && i < ENTRIES
      modifies this
      ensures Valid(held) && (c.Some? ==> IsTable(Abs(), c.value, old(nodes)[t].level - 1))
      ensures alloc ==> (Abs(), c) == Descend(old(Abs()), t, i)
      ensures !alloc ==> Abs() == old(Abs())
      ensures !alloc ==> c == (if Entry(Abs(), t, i).valid then Some(Entry(Abs(), t, i).frame) else None)
    {
      ghost var m := Abs();
      TableInRange(m, t);
      DescendGrows(m, held, t, i);
      if tab[t][i].valid {
        return Some(tab[t][i].frame);
      }
      if !alloc {
        return None;
      }
      c := Acquire();
      if c.None? {
        return None;
      }
      nodes := nodes[c.value := Node(nodes[t].level - 1, nodes[t].root, t, i)];
      tab := tab[t := tab[t][i := DirPte(c.value)]];
    }

    /** `walk`: the leaf table for a page, filling missing directory entries if asked to. */
    method Walk(root: Frame, pg: Page, alloc: bool, ghost held: multiset<Frame>) returns (r: Option<Frame>)
      requires Valid(held) && IsRoot(Abs(), root) && PageOk(pg)
      modifies this
      ensures Valid(held)
      ensures alloc ==> (Abs(), r) == WalkAlloc(old(Abs()), root, pg)
      ensures !alloc ==> Abs() == old(Abs()) && r == LeafTable(Abs(), root, pg)
    {
      var t: Frame := root;
      var level: nat := 2;
      ghost var m0 := Abs();
      while level > 0
        invariant level <= 2
        invariant Valid(held) && IsTable(Abs(), t, level)
        invariant level == 2 ==> t == root && Abs() == m0
        invariant level == 1 && alloc ==> (Abs(), Some(t)) == Descend(m0, root, pg.i2)
        invariant level == 0 && alloc ==> (Abs(), Some(t)) == WalkAlloc(m0, root, pg)
        invariant !alloc ==> Abs() == m0
        invariant level == 1 && !alloc ==> Entry(m0, root, pg.i2).valid && Entry(m0, root, pg.i2).frame == t
        invariant level == 0 && !alloc ==> LeafTable(m0, root, pg) == Some(t)
      {
        var c := Child(t, Index(pg, level), alloc, held);
        if c.None? {
          return None;
        }
        t, level := c.value, level - 1;
      }
      return Some(t);
    }

    /** `mappages` for one page. */
    method MapOne(root: Frame, pg: Page, f: Frame, perm: Pte, ghost held: multiset<Frame>) returns (res: MapResult)
      requires Valid(held) && IsRoot(Abs(), root) && PageOk(pg) && f in held && PermOk(Abs(), f, perm)
      modifies this
      ensures (Abs(), res) == MapPage(old(Abs()), root, pg, f, perm)
      ensures Valid(if res == Mapped then held - multiset{f} else held)
      ensures (res == Remap <==> Lookup(old(Abs()), root, pg).valid) && (res == Remap ==> Abs() == old(Abs()))
      ensures (res == NoMemory ==> free == [] && SameView(old(Abs()), Abs()) && KeepsBytes(old(Abs()), Abs()))
    {
      MapPageRemap(Abs(), held, root, pg, f, perm);
      if !Lookup(Abs(), root, pg).valid { MapPageKeeps(Abs(), held, root, pg, f, perm); }
      WalkGrows(Abs(), held, root, pg);
      var t := Walk(root, pg, true, held);
      if t.None? {
        return NoMemory;
      }
      if tab[t.value][pg.i0].valid {
        return Remap;
      }
      tab := tab[t.value := tab[t.value][pg.i0 := LeafPte(f, perm)]];
      return Mapped;
    }

    /** `mappages` for `k` pages from page number `n`: exactly those pages change; if memory runs
        out, or a page is mapped already, exactly the pages before, and the frames not mapped are still in hand. */
    method MapPages(root: Frame, n: nat, f: Frame, k: nat, perm: Pte, ghost held: multiset<Frame>)
      returns (res: MapResult, done: nat)
      requires Valid(held + FrameRange(f, k)) && IsRoot(Abs(), root) && n + k <= ALL_PAGES
      requires k > 0 ==> PermOk(Abs(), f, perm)
      requires Unshared(Abs(), f, f + k)
      modifies this
      ensures Linked() && RangeDone(old(Abs()), Abs(), held, root, n, f, k, perm, res, done)
      ensures res == Mapped ==> RefsFrom(old(Abs()), Abs(), f + k)
    {
      ghost var m0 := Abs();
      done := 0;
      res := Mapped;
      while done < k
        invariant Linked() && RangeState(m0, Abs(), held, root, n, f, k, done, perm) && res == Mapped
        invariant RefsFrom(m0, Abs(), f + done)
      {
        res := MapNext(root, n, f, k, done, perm, m0, held);
        if res != Mapped {
          return;
        }
        done := done + 1;
      }
      RangeComplete(m0, Abs(), held, root, n, f, k, perm);
    }

    /** `mappages` with its argument checks; addresses are 64-bit words, `va` is looked up by its low 39
        bits, and physical memory starts at DRAM_BASE. */
    method Mappages(root: Frame, va: nat, pa: nat, size: nat, perm: Pte, ghost held: multiset<Frame>)
      returns (r: int, done: nat, panics: bool, ghost mid: Mem)
      requires va < WORD && pa < WORD && size < WORD
      requires Valid(if BadRange(va, pa, size) then held else held + FrameRange(FrameOf(pa), size / 4096))
      requires !BadRange(va, pa, size) ==> Placeable(Abs(), root, FrameOf(pa), size / 4096, perm)
      modifies this
      ensures BadRange(va, pa, size) ==> r == -1 && !panics && Abs() == old(Abs())
      ensures r == 0 || r == -1
      ensures panics ==> r == -1
      ensures !BadRange(va, pa, size) ==> Linked()
      ensures !BadRange(va, pa, size) ==>
        WrapDone(old(Abs()), mid, Abs(), held, root, PageNo(va), FrameOf(pa), size / 4096,
          BeforeEnd(PageNo(va), size / 4096), perm, ResultOf(r, panics), done)
    {
      mid := Abs();
      if size == 0 || va % 4096 != 0 || pa % 4096 != 0 || size % 4096 != 0 {
        return -1, 0, false, mid;
      }
      if (va + size) % WORD < va || (pa + size) % WORD < pa {
        return -1, 0, false, mid;
      }
      var res;
      res, done, mid := MapWrapped(root, PageNo(va), FrameOf(pa), size / 4096, perm, held);
      r := if res == Mapped then 0 else -1;
      panics := res == Remap;
    }

    /** The loop of `mappages`, up to the end of the table and from its start again. */
    method MapWrapped(root: Frame, n: nat, f: Frame, k: nat, perm: Pte, ghost held: multiset<Frame>)
      returns (res: MapResult, done: nat, ghost mid: Mem)
      requires Valid(held + FrameRange(f, k)) && n < ALL_PAGES && k > 0 && Placeable(Abs(), root, f, k, perm)
      modifies this
      ensures Linked()
      ensures WrapDone(old(Abs()), mid, Abs(), held, root, n, f, k, BeforeEnd(n, k), perm, res, done)
    {
      var k1 := BeforeEnd(n, k);
      if k1 == k {
        res, done := MapPages(root, n, f, k, perm, held);
        mid := Abs();
      } else {
        res, done, mid := MapOver(root, n, f, k, k1, perm, held);
      }
    }

    method MapOver(root: Frame, n: nat, f: Frame, k: nat, k1: nat, perm: Pte, ghost held: multiset<Frame>)
      returns (res: MapResult, done: nat, ghost mid: Mem)
      requires Valid(held + FrameRange(f, k)) && 0 < k1 < k && n + k1 == ALL_PAGES && Placeable(Abs(), root, f, k, perm)
      modifies this
      ensures Linked() && WrapDone(old(Abs()), mid, Abs(), held, root, n, f, k, k1, perm, res, done)
    {
      RangeFits(Abs(), held, f, k);
      SplitRange(held, f, k, k1);
      res, done, mid := MapAcross(root, n, f, k, k1, f + k1, k - k1, perm, held);
    }

    method MapAcross(root: Frame, n: nat, f: Frame, ghost k: nat, k1: nat, g: Frame, left: nat, perm: Pte,
        ghost held: multiset<Frame>)
      returns (res: MapResult, done: nat, ghost mid: Mem)
      requires 0 < k1 < k && g == f + k1 && left == k - k1 && n + k1 <= ALL_PAGES && left <= ALL_PAGES
      requires Valid(held + FrameRange(g, left) + FrameRange(f, k1)) && Placeable(Abs(), root, f, k, perm)
      modifies this
      ensures Linked() && AcrossDone(old(Abs()), mid, Abs(), held, root, n, f, k1, g, left, perm, res, done)
    {
      ghost var m0 := Abs();
      res, done := MapPages(root, n, f, k1, perm, held + FrameRange(g, left));
      mid := Abs();
      if res == Mapped {
        RestReady(m0, mid, held, root, n, f, k, k1, perm, g, left);
        var more;
        res, more := MapPages(root, 0, g, left, perm, held);
        done := k1 + more;
      }
    }

    /** One round of `mappages`. */
    method MapNext(root: Frame, n: nat, f: Frame, k: nat, done: nat, perm: Pte, ghost m0: Mem,
        ghost held: multiset<Frame>)
      returns (res: MapResult)
      requires Linked() && RangeState(m0, Abs(), held, root, n, f, k, done, perm) && done < k
      requires RefsFrom(m0, Abs(), f + done)
      modifies this
      ensures Linked()
      ensures res == Mapped ==> RangeState(m0, Abs(), held, root, n, f, k, done + 1, perm)
      ensures res == Mapped ==> RefsFrom(m0, Abs(), f + (done + 1))
      ensures res != Mapped ==> RangeDone(m0, Abs(), held, root, n, f, k, perm, res, done)
    {
      ghost var m := Abs();
      var pg := PageAt(n + done);
      PageNum(n + done);
      RangeStateNext(m0, m, held, root, n, f, k, done, perm, pg);
      res := MapOne(root, pg, f + done, perm, held + FrameRange(f + done, k - done));
      RangeStateAfter(m0, m, Abs(), held, root, n, f, k, done, perm, pg, res);
      if res == Mapped {
        RefsFromNext(m0, m, Abs(), held + FrameRange(f + done, k - done), root, pg, f + done, perm);
        assert f + done + 1 == f + (done + 1);
      }
    }

    /** `handle_cow_fault`. */
    method HandleCowFault(root: Frame, pg: Page, ghost held: multiset<Frame>) returns (ok: bool)
      requires Valid(held) && IsRoot(Abs(), root) && PageOk(pg)
      modifies this
      ensures (Abs(), ok) == CowFault(old(Abs()), root, pg) && Valid(held)
    {
      ghost var m := Abs();
      CowFaultKeeps(m, held, root, pg);
      var t := Walk(root, pg, false, held);
      if t.None? {
        return false;
      }
      TableInRange(m, t.value) by { WalkNode(m, root, pg); }
      var p := tab[t.value][pg.i0];
      if !p.valid || !p.user || !p.cow || p.w || p.d {
        return false;
      }
      MappedLeaf(m, held, root, pg);
      var bytes := data[p.frame];
      if free != [] { KallocPage(m, held, bytes); }
      var mem := Acquire();
      if mem.None? {
        return false;
      }
      data := data[mem.value := bytes];
      ReplaceEntry(t.value, pg.i0, p.(frame := mem.value, cow := false, w := true, d := true), root, pg,
        held + multiset{mem.value});
      return true;
    }

    /** kfree the frame behind the leaf entry of a page and store another entry there. */
    method ReplaceEntry(t: Frame, i: nat, q: Pte, ghost root: Frame, ghost pg: Page, ghost held: multiset<Frame>)
      requires Valid(held) && IsRoot(Abs(), root) && PageOk(pg) && pg.i0 == i && LeafTable(Abs(), root, pg) == Some(t)
      requires Lookup(Abs(), root, pg).valid
      modifies this
      ensures Abs() == ReplaceLeaf(old(Abs()), root, pg, q) && Linked()
    {
      MappedLeaf(Abs(), held, root, pg);
      Release(tab[t][i].frame);
      tab := tab[t := tab[t][i := q]];
    }

    /** kfree the frame behind leaf entry (t, i) and clear the entry. */
    method ClearLeaf(root: Frame, t: Frame, i: nat, ghost pg: Page, ghost held: multiset<Frame>)
      requires Valid(held) && IsRoot(Abs(), root) && PageOk(pg) && pg.i0 == i && LeafTable(Abs(), root, pg) == Some(t)
      requires Lookup(Abs(), root, pg).valid
      modifies this
      ensures Abs() == DropPage(old(Abs()), root, pg) && Valid(held)
    {
      ReplaceKeeps(Abs(), held, root, pg, NoPte);
      assert held - Held(NoPte) == held;
      ReplaceEntry(t, i, NoPte, root, pg, held);
    }

    /** `kvmunmap` and `uvmunmap` with freeing: pages [lo, hi) of `root`. */
    method Unmap(root: Frame, lo: nat, hi: nat, ghost held: multiset<Frame>)
      requires Valid(held) && IsRoot(Abs(), root) && lo <= hi <= ALL_PAGES
      modifies this
      ensures Abs() == DropFrom(old(Abs()), root, lo, hi) && Valid(held)
    {
      var v := lo;
      while v < hi
        invariant lo <= v <= hi && Valid(held) && IsRoot(Abs(), root)
        invariant DropFrom(Abs(), root, v, hi) == DropFrom(old(Abs()), root, lo, hi)
      {
        PageNum(v);
        var pg := PageAt(v);
        var t := Walk(root, pg, false, held);
        if t.Some? {
          assert t.value < NFRAMES by { WalkNode(Abs(), root, pg); }
          if tab[t.value][pg.i0].valid {
            DropRoots(Abs(), held, root, pg);
            ClearLeaf(root, t.value, pg.i0, pg, held);
          }
        }
        v := v + 1;
      }
    }

    /** `kvmunmap` with its argument checks: nothing for size 0, a panic for a bad range. */
    method Kvmunmap(root: Frame, va: nat, size: nat, ghost held: multiset<Frame>) returns (panics: bool)
      requires Valid(held) && IsRoot(Abs(), root) && va < WORD && size < WORD && PageNo(va) + size / 4096 <= ALL_PAGES
      modifies this
      ensures Valid(held)
      ensures panics <==> size != 0 && (va % 4096 != 0 || size % 4096 != 0 || va + size >= WORD)
      ensures Abs() == if panics then old(Abs()) else DropFrom(old(Abs()), root, PageNo(va), PageNo(va) + size / 4096)
    {
      if size == 0 {
        return false;
      }
      if va % 4096 != 0 || size % 4096 != 0 || (va + size) % WORD < va {
        return true;
      }
      Unmap(root, PageNo(va), PageNo(va) + size / 4096, held);
      panics := false;
    }

    /** Mark a writable leaf copy-on-write and take a reference on its frame (`refcnt_inc`). */
    method MarkPage(src: Frame, pg: Page, t: Frame, ghost held: multiset<Frame>)
      requires Valid(held) && IsRoot(Abs(), src) && PageOk(pg) && LeafTable(Abs(), src, pg) == Some(t)
      requires Lookup(Abs(), src, pg).valid
      modifies this
      ensures Linked() && Abs() == Mark(old(Abs()), src, pg)
    {
      ghost var m := Abs();
      MappedLeaf(m, held, src, pg);
      var p := tab[t][pg.i0];
      if p.w {
        tab := tab[t := tab[t][pg.i0 := Marked(p)]];
      } else {
        assert tab[t][pg.i0 := p] == tab[t] && tab[t := tab[t]] == tab;
      }
      if refcnt[p.frame] <= 0 {
        assert false;
      }
      refcnt := refcnt[p.frame := refcnt[p.frame] + 1];
    }

    /** Put back the entry and the reference of a page that could not be shared (`refcnt_dec`). */
    method Unmark(pg: Page, t: Frame, p: Pte)
      requires Linked() && |refcnt| == NFRAMES && p.frame < NFRAMES && t < |tab| && pg.i0 < |tab[t]|
      requires refcnt[p.frame] > 0
      modifies this`tab, this`refcnt
      ensures Linked() && Abs() == Inc(SetEntry(old(Abs()), t, pg.i0, p), p.frame, -1)
    {
      tab := tab[t := tab[t][pg.i0 := p]];
      if refcnt[p.frame] <= 0 {
        assert false;
      }
      refcnt := refcnt[p.frame := refcnt[p.frame] - 1];
    }

    /** The body of `uvmcopy`'s inner loop for a valid leaf of `src` in table `t`. */
    method SharePage(src: Frame, dst: Frame, pg: Page, t: Frame, ghost held: multiset<Frame>) returns (ok: bool)
      requires Valid(held) && IsRoot(Abs(), src) && IsRoot(Abs(), dst) && src != dst && PageOk(pg)
      requires LeafTable(Abs(), src, pg) == Some(t) && Lookup(Abs(), src, pg).valid && !Lookup(Abs(), dst, pg).valid
      modifies this
      ensures (Abs(), ok) == Share(old(Abs()), src, dst, pg) && Valid(held)
    {
      ghost var m := Abs();
      assert t < NFRAMES && Lookup(m, src, pg) == Entry(m, t, pg.i0) && Entry(m, t, pg.i0).frame < NFRAMES by {
        MappedLeaf(m, held, src, pg);
      }
      var p := tab[t][pg.i0];
      MarkPage(src, pg, t, held);
      assert
        && Valid(held + multiset{p.frame}) && PermOk(Abs(), p.frame, Marked(p))
        && IsRoot(Abs(), dst) && !Lookup(Abs(), dst, pg).valid
      by {
        MarkKeeps(m, held, src, pg);
        assert Lookup(Abs(), dst, pg) == Lookup(m, dst, pg);
      }
      var res := MapOne(dst, pg, p.frame, Marked(p), held + multiset{p.frame});
      ShareResult(m, src, dst, pg, Abs(), res);
      if res != Mapped {
        assert refcnt[p.frame] > 0 by { HeldCounted(Abs(), held + multiset{p.frame}, p.frame); }
        Unmark(pg, t, p);
      }
      ok := res == Mapped;
      assert (Abs(), ok) == Share(m, src, dst, pg);
      assert Inv(Abs(), held) by { ShareKeeps(m, held, src, dst, pg); }
    }

    /** `uvmcopy`, innermost loop: the leaf table `t` of directory slots i2 and i1. */
    method CopyTable(src: Frame, dst: Frame, i2: nat, i1: nat, t: Frame, ghost held: multiset<Frame>) returns (ok: bool)
      requires Linked() && i2 < 256 && i1 < 512 && CopyReady(Abs(), held, src, dst, NumOf(Page(i2, i1, 0)))
      requires LeafTable(Abs(), src, Page(i2, i1, 0)) == Some(t)
      modifies this
      ensures Linked() && DirsKept(old(Abs()), Abs())
      ensures var n := NumOf(Page(i2, i1, 0)); var rest := CopyFrom(old(Abs()), src, dst, n, USER_PAGES);
        && (ok ==> CopyReady(Abs(), held, src, dst, n + 512) && CopyFrom(Abs(), src, dst, n + 512, USER_PAGES) == rest)
        && (!ok ==> Inv(Abs(), held) && IsRoot(Abs(), dst) && rest == (Abs(), false))
    {
      ghost var m0 := Abs();
      ghost var n := NumOf(Page(i2, i1, 0));
      ghost var at := n;
      var i0 := 0;
      while i0 < 512
        invariant 0 <= i0 <= 512 && Linked() && DirsKept(m0, Abs()) && at == n + i0
        invariant CopyReady(Abs(), held, src, dst, at)
        invariant CopyFrom(Abs(), src, dst, at, USER_PAGES) == CopyFrom(m0, src, dst, n, USER_PAGES)
      {
        ghost var m := Abs();
        assert LeafTable(m, src, Page(i2, i1, i0)) == Some(t) by {
          DirsKeptWalk(m0, m, held, src, Page(i2, i1, 0));
        }
        ok := CopyEntry(src, dst, Page(i2, i1, i0), t, at, held);
        DirsKeptTrans(m0, m, Abs());
        if !ok {
          return;
        }
        i0, at := i0 + 1, at + 1;
      }
      return true;
    }

    /** `uvmcopy`, one leaf entry: shared if it is valid. */
    method CopyEntry(src: Frame, dst: Frame, pg: Page, t: Frame, ghost n: nat, ghost held: multiset<Frame>)
      returns (ok: bool)
      requires Linked() && CopyReady(Abs(), held, src, dst, n) && PageOk(pg) && NumOf(pg) == n < USER_PAGES
      requires LeafTable(Abs(), src, pg) == Some(t)
      modifies this
      ensures Linked() && DirsKept(old(Abs()), Abs())
      ensures var rest := CopyFrom(old(Abs()), src, dst, n, USER_PAGES);
        && (ok ==> CopyReady(Abs(), held, src, dst, n + 1) && CopyFrom(Abs(), src, dst, n + 1, USER_PAGES) == rest)
        && (!ok ==> Inv(Abs(), held) && IsRoot(Abs(), dst) && rest == (Abs(), false))
    {
      ghost var m := Abs();
      WalkNode(m, src, pg);
      CopyFromStep(m, held, src, dst, pg, n);
      ok := true;
      if tab[t][pg.i0].valid {
        ok := SharePage(src, dst, pg, t, held);
        CopyFromShare(m, held, src, dst, pg, n, Abs(), ok);
      }
    }

    /** `uvmcopy`, middle loop: the directory `d` of root slot i2. */
    method CopyDir(src: Frame, dst: Frame, i2: nat, d: Frame, ghost held: multiset<Frame>) returns (ok: bool)
      requires Linked() && i2 < 256 && CopyReady(Abs(), held, src, dst, NumOf(Page(i2, 0, 0)))
      requires Entry(Abs(), src, i2).valid && Entry(Abs(), src, i2).frame == d
      modifies this
      ensures Linked() && DirsKept(old(Abs()), Abs())
      ensures var n := NumOf(Page(i2, 0, 0)); var rest := CopyFrom(old(Abs()), src, dst, n, USER_PAGES);
        && (ok ==> CopyReady(Abs(), held, src, dst, n + 262144))
        && (ok ==> CopyFrom(Abs(), src, dst, n + 262144, USER_PAGES) == rest)
        && (!ok ==> Inv(Abs(), held) && IsRoot(Abs(), dst) && rest == (Abs(), false))
    {
      ghost var m0 := Abs();
      ghost var n := NumOf(Page(i2, 0, 0));
      var i1 := 0;
      while i1 < 512
        invariant 0 <= i1 <= 512 && Linked() && DirsKept(m0, Abs())
        invariant CopyReady(Abs(), held, src, dst, n + i1 * 512)
        invariant CopyFrom(Abs(), src, dst, n + i1 * 512, USER_PAGES) == CopyFrom(m0, src, dst, n, USER_PAGES)
      {
        ghost var m := Abs();
        assert Entry(m, src, i2) == Entry(m0, src, i2) by { assert DirKept(m0, m, src, i2); }
        assert d < NFRAMES by { assert ChildOk(m, src, i2); TableInRange(m, d); }
        assert NumOf(Page(i2, i1, 0)) == n + i1 * 512;
        if tab[d][i1].valid {
          ok := CopyTable(src, dst, i2, i1, tab[d][i1].frame, held);
          DirsKeptTrans(m0, m, Abs());
          if !ok {
            return;
          }
        } else {
          HoleDir1(m, src, i2, i1);
          CopyHole(m, src, dst, n + i1 * 512, 512, USER_PAGES);
          CopyReadyLater(m, held, src, dst, n + i1 * 512, n + i1 * 512 + 512);
        }
        i1 := i1 + 1;
      }
      return true;
    }

    /** `release_page_table` at level 0, one valid entry. */
    method ReleaseLeaf(root: Frame, t: Frame, i: nat, ghost pg: Page, ghost held: multiset<Frame>)
      requires Valid(held) && IsRoot(Abs(), root) && PageOk(pg) && pg.i0 == i && LeafTable(Abs(), root, pg) == Some(t)
      requires Lookup(Abs(), root, pg).valid
      modifies this
      ensures Valid(held) && DirsKept(old(Abs()), Abs())
      ensures DropFrom(Abs(), root, NumOf(pg) + 1, ALL_PAGES) == DropFrom(old(Abs()), root, NumOf(pg), ALL_PAGES)
    {
      DropFromOne(Abs(), root, pg);
      DropDirs(Abs(), held, root, pg);
      ClearLeaf(root, t, i, pg, held);
    }

    /** `release_page_table`, one entry of table `t`. */
    method ReleaseEntry(root: Frame, t: Frame, level: nat, i: nat, ghost pg: Page, ghost held: multiset<Frame>)
      requires Valid(held) && IsRoot(Abs(), root) && level <= 2 && TableAt(Abs(), root, t, level, pg) && i < 512
      modifies this
      ensures Valid(held) && DirsKept(old(Abs()), Abs())
      ensures DropFrom(Abs(), root, NumOf(SubPage(pg, level, i + 1)), ALL_PAGES) ==
        DropFrom(old(Abs()), root, NumOf(SubPage(pg, level, i)), ALL_PAGES)
      decreases level, 0
    {
      ghost var m := Abs();
      ghost var sub := SubPage(pg, level, i);
      SubTable(m, root, t, level, pg, i);
      assert t < NFRAMES by { TableAtIs(m, held, root, t, level, pg); }
      NextEntry(pg, level, i);
      if !tab[t][i].valid {
        DropHole(m, root, NumOf(sub), Stride(level), ALL_PAGES);
      } else if level > 0 {
        assert SubPage(sub, level - 1, 0) == sub;
        ReleaseTable(root, tab[t][i].frame, level - 1, sub, held);
      } else {
        ReleaseLeaf(root, t, i, sub, held);
      }
    }

    /** `release_page_table`, one round, with the tables as they were at the start. */
    method ReleaseNext(root: Frame, t: Frame, level: nat, i: nat, ghost pg: Page, ghost m0: Mem,
        ghost held: multiset<Frame>)
      requires Valid(held) && Inv(m0, held) && IsRoot(m0, root) && level <= 2 && TableAt(m0, root, t, level, pg)
      requires i < 512 && DirsKept(m0, Abs())
      modifies this
      ensures Valid(held) && DirsKept(m0, Abs()) && NodeKept(m0, Abs(), root)
      ensures DropFrom(Abs(), root, NumOf(SubPage(pg, level, i + 1)), ALL_PAGES) ==
        DropFrom(old(Abs()), root, NumOf(SubPage(pg, level, i)), ALL_PAGES)
      decreases level, 1
    {
      ghost var m := Abs();
      DirsKeptTable(m0, m, held, root, t, level, pg);
      ReleaseEntry(root, t, level, i, pg, held);
      DirsKeptTrans(m0, m, Abs());
      assert NodeKept(m0, Abs(), root);
    }

    /** `release_page_table`: free and clear every leaf below table `t`. */
    method ReleaseTable(root: Frame, t: Frame, level: nat, ghost pg: Page, ghost held: multiset<Frame>)
      requires Valid(held) && IsRoot(Abs(), root) && level <= 2 && TableAt(Abs(), root, t, level, pg)
      modifies this
      ensures Valid(held) && DirsKept(old(Abs()), Abs()) && IsRoot(Abs(), root)
      ensures DropFrom(Abs(), root, NumOf(SubPage(pg, level, 512)), ALL_PAGES) ==
        DropFrom(old(Abs()), root, NumOf(pg), ALL_PAGES)
      decreases level, 2
    {
      ghost var m0 := Abs();
      var i := 0;
      assert NodeKept(m0, m0, root);
      assert SubPage(pg, level, 0) == pg;
      while i < 512
        invariant 0 <= i <= 512 && Valid(held) && DirsKept(m0, Abs()) && NodeKept(m0, Abs(), root)
        invariant DropFrom(Abs(), root, NumOf(SubPage(pg, level, i)), ALL_PAGES) ==
          DropFrom(m0, root, NumOf(pg), ALL_PAGES)
      {
        ReleaseNext(root, t, level, i, pg, m0, held);
        i := i + 1;
      }
    }

    /** `uvmcopy`, outermost loop: the lower half of the root. */
    method CopyDirs(src: Frame, dst: Frame, ghost held: multiset<Frame>) returns (ok: bool)
      requires Linked() && CopyReady(Abs(), held, src, dst, 0)
      modifies this
      ensures Valid(held) && IsRoot(Abs(), dst) && (Abs(), ok) == CopyFrom(old(Abs()), src, dst, 0, USER_PAGES)
    {
      ghost var m0 := Abs();
      ghost var at := 0;
      var i2 := 0;
      while i2 < 256
        invariant 0 <= i2 <= 256 && Linked() && at == i2 * 262144
        invariant CopyReady(Abs(), held, src, dst, at)
        invariant CopyFrom(Abs(), src, dst, at, USER_PAGES) == CopyFrom(m0, src, dst, 0, USER_PAGES)
      {
        ok := CopyRoot(src, dst, i2, at, held);
        if !ok {
          return;
        }
        i2, at := i2 + 1, at + 262144;
      }
      return true;
    }

    /** `uvmcopy`, one entry of the root: its directory if it has one. */
    method CopyRoot(src: Frame, dst: Frame, i2: nat, ghost n: nat, ghost held: multiset<Frame>) returns (ok: bool)
      requires Linked() && i2 < 256 && n == i2 * 262144 && CopyReady(Abs(), held, src, dst, n)
      modifies this
      ensures Linked()
      ensures var rest := CopyFrom(old(Abs()), src, dst, n, USER_PAGES);
        && (ok ==> CopyReady(Abs(), held, src, dst, n + 262144))
        && (ok ==> CopyFrom(Abs(), src, dst, n + 262144, USER_PAGES) == rest)
        && (!ok ==> Inv(Abs(), held) && IsRoot(Abs(), dst) && rest == (Abs(), false))
    {
      assert NumOf(Page(i2, 0, 0)) == n;
      TableInRange(Abs(), src);
      ok := true;
      if tab[src][i2].valid {
        ok := CopyDir(src, dst, i2, tab[src][i2].frame, held);
      } else {
        SkipDir2(Abs(), held, src, dst, i2, n);
      }
    }

    /** `uvmcopy`: share every user page of `src` with `dst`; on failure empty `dst` again. */
    method UvmCopy(src: Frame, dst: Frame, ghost held: multiset<Frame>) returns (ok: bool)
      requires Linked() && CopyReady(Abs(), held, src, dst, 0)
      modifies this
      ensures Valid(held)
      ensures var (m, good) := CopyFrom(old(Abs()), src, dst, 0, USER_PAGES);
        ok == good && Abs() == if good then m else DropFrom(m, dst, 0, ALL_PAGES)
    {
      ok := CopyDirs(src, dst, held);
      if !ok {
        ReleaseTable(dst, dst, 2, Page(0, 0, 0), held);
      }
    }

    /** A fresh frame with `bytes` mapped at an unmapped page (`handle_page_fault`, and the mapping
        half of the VMA fault handlers). */
    method MapFresh(root: Frame, pg: Page, perm: Pte, bytes: seq<Byte>, ghost held: multiset<Frame>) returns (ok: bool)
      requires Valid(held) && IsRoot(Abs(), root) && PageOk(pg) && !Lookup(Abs(), root, pg).valid && |bytes| == PGSIZE
      requires !perm.cow && (perm.d ==> perm.w)
      modifies this
      ensures (Abs(), ok) == LazyMap(old(Abs()), root, pg, perm, bytes) && Valid(held)
    {
      ghost var m := Abs();
      LazyMapKeeps(m, held, root, pg, perm, bytes);
      if free != [] { KallocPage(m, held, bytes); }
      var mem := Acquire();
      if mem.None? {
        return false;
      }
      data := data[mem.value := bytes];
      assert Lookup(Abs(), root, pg) == Lookup(m, root, pg);
      var res := MapOne(root, pg, mem.value, perm, held + multiset{mem.value});
      if res != Mapped {
        Release(mem.value);
        return false;
      }
      return true;
    }

    /** `uvmalloc` out of memory: the pages [lo, n) filled so far are unmapped again. */
    method UndoFill(root: Frame, lo: nat, n: nat, perm: Pte, ghost m0: Mem, ghost m: Mem, ghost held: multiset<Frame>)
      requires Valid(held) && IsRoot(Abs(), root) && IsRoot(m0, root) && lo <= n <= ALL_PAGES
      requires Filled(m0, m, root, lo, n, perm) && SameView(m, Abs()) && SameContent(m, Abs())
      requires forall pg | InRange(pg, lo, n) :: !Lookup(m0, root, pg).valid
      modifies this
      ensures Valid(held) && SameSpaces(m0, Abs())
    {
      DropKeeps(Abs(), held, root, lo, n);
      FilledUndone(m0, m, Abs(), DropFrom(Abs(), root, lo, n), root, lo, n, perm);
      Unmap(root, lo, n, held);
    }

    /** A zeroed frame mapped at a page; at a page that is mapped already `mappages` panics with the frame in hand. */
    method FillOne(root: Frame, pg: Page, perm: Pte, ghost held: multiset<Frame>) returns (res: MapResult)
      requires Valid(held) && IsRoot(Abs(), root) && PageOk(pg) && !perm.cow && (perm.d ==> perm.w)
      modifies this
      ensures res == Remap <==> Lookup(old(Abs()), root, pg).valid && old(free) != []
      ensures res == Mapped ==> !Lookup(old(Abs()), root, pg).valid
      ensures res == Remap ==> Abs() == Kalloc(old(Abs())) && Valid(held + multiset{Head(old(Abs()))})
      ensures res != Remap ==> Valid(held)
      ensures res == Mapped ==> (Abs(), true) == LazyMap(old(Abs()), root, pg, perm, ZeroPage())
      ensures res == NoMemory ==> SameView(old(Abs()), Abs()) && SameContent(old(Abs()), Abs())
    {
      ghost var m := Abs();
      if !Lookup(m, root, pg).valid { LazyMapKeeps(m, held, root, pg, perm, ZeroPage()); }
      if free != [] { KallocPage(m, held, ZeroPage()); }
      var mem := Acquire();
      if mem.None? {
        return NoMemory;
      }
      assert SetPage(Kalloc(m), mem.value, ZeroPage()) == Abs() && Lookup(Abs(), root, pg) == Lookup(m, root, pg);
      res := MapOne(root, pg, mem.value, perm, held + multiset{mem.value});
      if res == NoMemory { Release(mem.value); }
    }

    /** `uvmalloc`, one round: page `n` is filled, or everything is undone, or the page was mapped already. */
    method FillNext(root: Frame, lo: nat, n: nat, perm: Pte, ghost m0: Mem, ghost held: multiset<Frame>)
      returns (res: MapResult, ghost mem: Frame)
      requires Valid(held) && IsRoot(Abs(), root) && IsRoot(m0, root) && lo <= n < ALL_PAGES
      requires !perm.cow && (perm.d ==> perm.w) && Filled(m0, Abs(), root, lo, n, perm)
      requires forall pg | InRange(pg, lo, n) :: !Lookup(m0, root, pg).valid
      modifies this
      ensures res == Mapped ==> Valid(held) && IsRoot(Abs(), root) && Filled(m0, Abs(), root, lo, n + 1, perm)
      ensures res == Mapped ==> forall pg | InRange(pg, lo, n + 1) :: !Lookup(m0, root, pg).valid
      ensures res == NoMemory ==> Valid(held) && SameSpaces(m0, Abs())
      ensures res == Remap ==> FillStopped(m0, Abs(), held, root, lo, n, perm, mem) && Linked()
    {
      ghost var m := Abs();
      mem := Head(m);
      var pg := PageAt(n);
      PageNum(n);
      res := FillOne(root, pg, perm, held);
      if res == Mapped {
        FilledNext(m0, m, Abs(), held, root, lo, n, perm, pg);
      } else if res == NoMemory {
        UndoFill(root, lo, n, perm, m0, m, held);
      } else {
        FilledRemap(m0, m, held, root, lo, n, perm, pg);
      }
    }

    /** `uvmalloc`: zero pages at every page that meets [va, va + size); when memory runs out those already
        mapped are unmapped again, and at a page that was mapped before it panics. */
    method Uvmalloc(root: Frame, va: nat, size: nat, perm: Pte, ghost held: multiset<Frame>)
      returns (ok: bool, panics: bool, ghost stop: nat, ghost mem: Frame)
      requires Valid(held) && IsRoot(Abs(), root) && va + size + 4095 < 4096 * ALL_PAGES && !perm.cow
      requires (perm.d ==> perm.w)
      modifies this
      ensures !panics ==> Valid(held)
      ensures ok ==> !panics && Filled(old(Abs()), Abs(), root, va / 4096, (va + size + 4095) / 4096, perm)
      ensures ok ==>
        forall pg | InRange(pg, va / 4096, (va + size + 4095) / 4096) :: !Lookup(old(Abs()), root, pg).valid
      ensures !ok && !panics ==> SameSpaces(old(Abs()), Abs())
      ensures panics ==> va / 4096 <= stop < (va + size + 4095) / 4096 && Linked()
      ensures panics ==> FillStopped(old(Abs()), Abs(), held, root, va / 4096, stop, perm, mem)
    {
      ghost var m0 := Abs();
      var lo, end := va / 4096, (va + size + 4095) / 4096;
      var n := lo;
      panics, stop, mem := false, lo, 0;
      while n < end
        invariant lo <= n && (n <= end || n == lo) && Valid(held) && IsRoot(Abs(), root)
        invariant Filled(m0, Abs(), root, lo, n, perm)
        invariant forall pg | InRange(pg, lo, n) :: !Lookup(m0, root, pg).valid
      {
        var res;
        res, mem := FillNext(root, lo, n, perm, m0, held);
        if res != Mapped {
          return false, res == Remap, n, mem;
        }
        n := n + 1;
      }
      ok := true;
    }

    /** A frame allocated for a page that cannot be read, and given back. */
    method TakeAndReturn(ghost held: multiset<Frame>)
      requires Valid(held)
      modifies this
      ensures Valid(held) && SameView(old(Abs()), Abs()) && SameContent(old(Abs()), Abs())
    {
      ghost var m := Abs();
      if free != [] { KallocKeeps(m, held); }
      var mem := Acquire();
      if mem.Some? {
        ReadErrorKeeps(m, held);
        Release(mem.value);
      }
    }

    /** The lazy-allocation branch of `copyin` and `copyout` for the unmapped page at `va`. */
    method FaultIn(root: Frame, va: nat, lay: Layout, ghost held: multiset<Frame>) returns (ok: bool)
      requires Valid(held) && IsRoot(Abs(), root) && va < LOW_VA_LIMIT && !Lookup(Abs(), root, PageAt(va / 4096)).valid
      requires LayoutOk(lay) && va % 4096 == 0
      modifies this
      ensures Valid(held) && SameContentExcept(old(Abs()), Abs(), root, PageAt(va / 4096))
      ensures OthersSame(old(Abs()), Abs(), root)
      ensures ok ==> HasSource(lay, va) && Content(Abs(), root, PageAt(va / 4096)).Some?
      ensures ok ==> FromSource(lay, va, Content(Abs(), root, PageAt(va / 4096)).value)
      ensures ok ==> HasRights(lay, va, Lookup(Abs(), root, PageAt(va / 4096)))
      ensures ok ==> !Lookup(Abs(), root, PageAt(va / 4096)).cow
      ensures !ok ==> SameContent(old(Abs()), Abs()) && !Lookup(Abs(), root, PageAt(va / 4096)).valid
      ensures !ok ==> NoFill(Abs(), lay, va)
    {
      ghost var m := Abs();
      AddressPage(va);
      var pg := PageAt(va / 4096);
      var src := SourceOf(lay, va);
      SourceIs(lay, va);
      if FindVma(lay.vmas, va, 0).Some? { FindVmaOk(lay, va, 0); }
      match src {
        case NoSource =>
          return false;
        case ReadError =>
          TakeAndReturn(held);
          return false;
        case Fill(perm, bytes) =>
          LazyMapKeeps(m, held, root, pg, perm, bytes);
          ok := MapFresh(root, pg, perm, bytes, held);
      }
    }

    /** The leaf entry of a page as `walk` without allocation finds it. */
    method ReadPte(root: Frame, pg: Page, ghost held: multiset<Frame>) returns (p: Pte)
      requires Valid(held) && IsRoot(Abs(), root) && PageOk(pg)
      modifies this
      ensures Abs() == old(Abs()) && Linked() && p == Lookup(Abs(), root, pg)
    {
      var t := Walk(root, pg, false, held);
      if t.None? {
        return NoPte;
      }
      WalkNode(Abs(), root, pg);
      p := tab[t.value][pg.i0];
      if !p.valid {
        p := NoPte;
      }
    }

    /** Make the page at `va` present, then private if it is copy-on-write. */
    method Prepare(root: Frame, va: nat, lay: Layout, ghost held: multiset<Frame>) returns (ok: bool)
      requires Valid(held) && IsRoot(Abs(), root) && va < LOW_VA_LIMIT && va % 4096 == 0 && LayoutOk(lay)
      modifies this
      ensures Valid(held) && OthersSame(old(Abs()), Abs(), root)
      ensures SameContentExcept(old(Abs()), Abs(), root, PageAt(va / 4096))
      ensures forall x :: KeepsOutside(old(Abs()), Abs(), root, lay, x, x)
      ensures ok ==> Lookup(Abs(), root, PageAt(va / 4096)).valid && !Lookup(Abs(), root, PageAt(va / 4096)).cow
      ensures !ok ==> CannotStore(Abs(), root, va, lay)
    {
      ghost var m := Abs();
      AddressPage(va);
      var pg := PageAt(va / 4096);
      var p := ReadPte(root, pg, held);
      if !p.valid {
        ok := FaultIn(root, va, lay, held);
        forall x: nat ensures KeepsOutside(m, Abs(), root, lay, x, x) { FillKeeps(m, Abs(), root, lay, pg, va, x, x); }
        if !ok {
          return;
        }
        p := ReadPte(root, pg, held);
      } else {
        forall x: nat ensures KeepsOutside(m, Abs(), root, lay, x, x) { SameContentKeeps(m, Abs(), root, lay, x, x); }
      }
      if p.valid && p.cow {
        ghost var m1 := Abs();
        CowFaultKeeps(m1, held, root, pg);
        ok := HandleCowFault(root, pg, held);
        CowOthers(m, m1, Abs(), root, lay, pg);
        return;
      }
      return p.valid;
    }

    /** One round of `copyout`: `bytes` to user addresses from `va + off` within one page. */
    method PutChunk(root: Frame, va: nat, off: nat, bytes: seq<Byte>, lay: Layout, ghost held: multiset<Frame>)
      returns (ok: bool)
      requires Valid(held) && IsRoot(Abs(), root) && va < LOW_VA_LIMIT && va % 4096 == 0 && off + |bytes| <= 4096
      requires LayoutOk(lay)
      modifies this
      ensures Valid(held) && OthersSame(old(Abs()), Abs(), root)
      ensures KeepsOutside(old(Abs()), Abs(), root, lay, va + off, va + off + |bytes|)
      ensures ok ==> ReadsAs(Abs(), root, va + off, bytes)
      ensures !ok ==> CannotStore(Abs(), root, va, lay)
    {
      ghost var m := Abs();
      AddressPage(va);
      var pg := PageAt(va / 4096);
      ok := Prepare(root, va, lay, held);
      KeepsWider(m, Abs(), root, lay, va + off, |bytes|);
      if !ok {
        return;
      }
      ghost var m1 := Abs();
      var p := ReadPte(root, pg, held);
      if !(p.w && p.user) {
        return false;
      }
      MappedLeaf(m1, held, root, pg);
      StoreKeeps(m1, held, root, pg, off, bytes);
      data := data[p.frame := Patch(data[p.frame], off, bytes)];
      StoreWrites(m1, Abs(), root, lay, va, off, bytes);
      KeepsTrans(m, m1, Abs(), root, lay, va + off, va + off, va + off + |bytes|);
      StoreOthers(m, m1, Abs(), root, pg);
    }

    /** `copyout`: on success the user reads exactly `src` at `dst`; no other mapped byte of this
        address space and nothing in any other address space changes, even on failure.  It fails only for
        a bad range or because of a page `bad` of the range. */
    method CopyOut(root: Frame, dst: nat, src: seq<Byte>, lay: Layout, ghost held: multiset<Frame>)
      returns (ok: bool, ghost bad: nat)
      requires Valid(held) && IsRoot(Abs(), root) && LayoutOk(lay)
      modifies this
      ensures Valid(held) && OthersSame(old(Abs()), Abs(), root)
      ensures KeepsOutside(old(Abs()), Abs(), root, lay, dst, dst + |src|)
      ensures ok ==> ReadsAs(Abs(), root, dst, src) && dst != 0 && (src == [] || dst + |src| <= LOW_VA_LIMIT)
      ensures !ok ==>
        || dst == 0 || (src != [] && dst + |src| > LOW_VA_LIMIT)
        || (Meets(bad, dst, |src|) && CannotStore(Abs(), root, bad, lay))
    {
      bad := 0;
      if dst == 0 {
        return false, bad;
      }
      if src == [] {
        return true, bad;
      }
      if dst >= LOW_VA_LIMIT || dst + |src| > LOW_VA_LIMIT {
        return false, bad;
      }
      ok, bad := PutChunks(root, dst, src, lay, held);
    }

    /** The loop of `copyout`. */
    method PutChunks(root: Frame, dst: nat, src: seq<Byte>, lay: Layout, ghost held: multiset<Frame>)
      returns (ok: bool, ghost bad: nat)
      requires Valid(held) && IsRoot(Abs(), root) && LayoutOk(lay) && dst + |src| <= LOW_VA_LIMIT
      modifies this
      ensures Valid(held) && OthersSame(old(Abs()), Abs(), root)
      ensures KeepsOutside(old(Abs()), Abs(), root, lay, dst, dst + |src|)
      ensures ok ==> ReadsAs(Abs(), root, dst, src)
      ensures !ok ==> Meets(bad, dst, |src|) && CannotStore(Abs(), root, bad, lay)
    {
      ghost var m0 := Abs();
      bad := 0;
      var done := 0;
      while done < |src|
        invariant 0 <= done <= |src| && Valid(held) && IsRoot(Abs(), root)
        invariant CopiedOut(m0, Abs(), root, lay, dst, src, done)
      {
        var n;
        ok, n, bad := PutNext(root, dst, src, done, lay, m0, held);
        if !ok {
          return;
        }
        done := done + n;
      }
      assert src[..done] == src;
      return true, bad;
    }

    /** One round of the loop of `copyout`, up to the end of a page or of the bytes. */
    method PutNext(root: Frame, dst: nat, src: seq<Byte>, done: nat, lay: Layout, ghost m0: Mem,
        ghost held: multiset<Frame>)
      returns (ok: bool, n: nat, ghost bad: nat)
      requires Valid(held) && IsRoot(Abs(), root) && LayoutOk(lay) && dst + |src| <= LOW_VA_LIMIT && done < |src|
      requires IsRoot(m0, root) && CopiedOut(m0, Abs(), root, lay, dst, src, done)
      modifies this
      ensures Valid(held) && OthersSame(m0, Abs(), root) && 0 < n && done + n <= |src|
      ensures KeepsOutside(m0, Abs(), root, lay, dst, dst + |src|)
      ensures ok ==> IsRoot(Abs(), root) && CopiedOut(m0, Abs(), root, lay, dst, src, done + n)
      ensures !ok ==> Meets(bad, dst, |src|) && CannotStore(Abs(), root, bad, lay)
    {
      ghost var m := Abs();
      var off := (dst + done) % 4096;
      var va := dst + done - off;
      n := if 4096 - off > |src| - done then |src| - done else 4096 - off;
      bad := va;
      ok := PutChunk(root, va, off, src[done..done + n], lay, held);
      CopiedOutStep(m0, m, Abs(), root, lay, dst, src, done, n, ok);
    }

    /** One round of `copyin`: `n` bytes from user addresses `va + off` within one page. */
    method GetChunk(root: Frame, va: nat, off: nat, n: nat, lay: Layout, ghost held: multiset<Frame>)
      returns (out: Option<seq<Byte>>)
      requires Valid(held) && IsRoot(Abs(), root) && va < LOW_VA_LIMIT && va % 4096 == 0 && off + n <= 4096
      requires LayoutOk(lay)
      modifies this
      ensures Valid(held) && OthersSame(old(Abs()), Abs(), root) && KeepsOutside(old(Abs()), Abs(), root, lay, 0, 0)
      ensures out.Some? ==> |out.value| == n && ReadsAs(Abs(), root, va + off, out.value)
      ensures out.None? ==> CannotLoad(Abs(), root, va, lay)
    {
      ghost var m := Abs();
      AddressPage(va);
      var pg := PageAt(va / 4096);
      var p := ReadPte(root, pg, held);
      if !p.valid {
        var ok := FaultIn(root, va, lay, held);
        FillKeeps(m, Abs(), root, lay, pg, va, 0, 0);
        if !ok {
          return None;
        }
        p := ReadPte(root, pg, held);
      }
      if !p.valid || !p.user || p.nr {
        return None;
      }
      ReadsBack(Abs(), held, root, va, off, n);
      return Some(data[p.frame][off..off + n]);
    }

    /** `copyin`: on success the result is what the user reads at `src`; no mapped byte of any
        address space changes.  It fails only for a bad range or because of a page `bad` of the range. */
    method CopyIn(root: Frame, src: nat, len: nat, lay: Layout, ghost held: multiset<Frame>)
      returns (out: Option<seq<Byte>>, ghost bad: nat)
      requires Valid(held) && IsRoot(Abs(), root) && LayoutOk(lay)
      modifies this
      ensures Valid(held) && OthersSame(old(Abs()), Abs(), root) && KeepsOutside(old(Abs()), Abs(), root, lay, 0, 0)
      ensures out.Some? ==> |out.value| == len && ReadsAs(Abs(), root, src, out.value)
      ensures out.Some? ==> forall k | 0 <= k < len :: LoadedFrom(old(Abs()), root, lay, src + k, out.value[k])
      ensures out.Some? ==> (len == 0 || src + len <= LOW_VA_LIMIT)
      ensures out.None? ==>
        (len != 0 && src + len > LOW_VA_LIMIT) || (Meets(bad, src, len) && CannotLoad(Abs(), root, bad, lay))
    {
      bad := 0;
      if len == 0 {
        return Some([]), bad;
      }
      if src >= LOW_VA_LIMIT || src + len > LOW_VA_LIMIT {
        return None, bad;
      }
      out, bad := GetChunks(root, src, len, lay, held);
      if out.Some? { LoadsFrom(old(Abs()), Abs(), root, lay, src, out.value); }
    }

    /** The loop of `copyin`. */
    method GetChunks(root: Frame, src: nat, len: nat, lay: Layout, ghost held: multiset<Frame>)
      returns (out: Option<seq<Byte>>, ghost bad: nat)
      requires Valid(held) && IsRoot(Abs(), root) && LayoutOk(lay) && src + len <= LOW_VA_LIMIT
      modifies this
      ensures Valid(held) && OthersSame(old(Abs()), Abs(), root) && KeepsOutside(old(Abs()), Abs(), root, lay, 0, 0)
      ensures out.Some? ==> |out.value| == len && ReadsAs(Abs(), root, src, out.value)
      ensures out.None? ==> Meets(bad, src, len) && CannotLoad(Abs(), root, bad, lay)
    {
      ghost var m0 := Abs();
      bad := 0;
      var got: seq<Byte> := [];
      while |got| < len
        invariant |got| <= len && Valid(held) && IsRoot(Abs(), root) && CopiedIn(m0, Abs(), root, lay, src, got)
        decreases len - |got|
      {
        ghost var m := Abs();
        var off := (src + |got|) % 4096;
        var va := src + |got| - off;
        var n := if 4096 - off > len - |got| then len - |got| else 4096 - off;
        var chunk := GetChunk(root, va, off, n, lay, held);
        CopiedInStep(m0, m, Abs(), root, lay, src, got, chunk);
        if chunk.None? {
          return None, va;
        }
        got := got + chunk.value;
      }
      return Some(got), bad;
    }

    /** `freewalk_level`, one valid entry of table `t`: free the table behind it, clear the entry. */
    method FreeEntry(t: Frame, level: nat, i: nat)
      requires Linked() && Shape(Abs()) && t < NFRAMES && i < 512
      requires level > 0 ==> Freeable(Abs(), PostOrder(Abs(), tab[t][i].frame, level - 1))
      modifies this
      ensures Linked()
      ensures level > 0 ==> Abs() == SetEntry(FreeWalk(old(Abs()), old(tab)[t][i].frame, level - 1), t, i, NoPte)
      ensures level == 0 ==> Abs() == SetEntry(old(Abs()), t, i, NoPte)
      decreases level, 0
    {
      if level > 0 {
        ghost var sub := PostOrder(Abs(), tab[t][i].frame, level - 1);
        assert tab[t][i].frame in sub;
        FreeAllEffect(Abs(), sub);
        FreeLevel(tab[t][i].frame, level - 1);
      }
      tab := tab[t := tab[t][i := NoPte]];
    }

    /** The same, with the progress of the whole traversal. */
    method FreeOne(t: Frame, level: nat, i: nat, ghost m0: Mem, ghost done: seq<Frame>)
      returns (ghost done': seq<Frame>)
      requires Linked() && i < 512 && Freeing(m0, Abs(), t, level, i, done) && Freeable(m0, PostOrder(m0, t, level))
      requires Entry(Abs(), t, i).valid
      modifies this
      ensures Linked() && Freeing(m0, Abs(), t, level, i + 1, done')
      decreases level, 1
    {
      ghost var m := Abs();
      done' := done;
      if level == 0 {
        FreeingSkip(m0, m, SetEntry(m, t, i, NoPte), t, level, i, done);
      } else {
        ghost var sub := PostOrder(m0, tab[t][i].frame, level - 1);
        FreeingChild(m0, m, t, level, i, done, tab[t][i].frame, level - 1, sub);
        FreeingNext(m0, m, t, level, i, done, sub);
        done' := done + sub;
      }
      FreeEntry(t, level, i);
    }

    /** One round of the loop: entries that are not valid are left alone. */
    method FreeRound(t: Frame, level: nat, i: nat, ghost m0: Mem, ghost done: seq<Frame>)
      returns (ghost done': seq<Frame>)
      requires Linked() && i < 512 && Freeing(m0, Abs(), t, level, i, done) && Freeable(m0, PostOrder(m0, t, level))
      modifies this
      ensures Linked() && Freeing(m0, Abs(), t, level, i + 1, done')
      decreases level, 2
    {
      if tab[t][i].valid {
        done' := FreeOne(t, level, i, m0, done);
      } else {
        FreeingSkip(m0, Abs(), Abs(), t, level, i, done);
        done' := done;
      }
    }

    /** `freewalk_level`: free the tables below `t`, clear its entries, then free `t` itself. */
    method FreeLevel(t: Frame, level: nat)
      requires Linked() && Shape(Abs()) && t < NFRAMES && Freeable(Abs(), PostOrder(Abs(), t, level))
      modifies this
      ensures Linked() && Abs() == FreeWalk(old(Abs()), t, level)
      decreases level, 4
    {
      ghost var m0 := Abs();
      ghost var done := FreeEntries(t, level);
      FreeingDone(m0, Abs(), t, level, done);
      Release(t);
      nodes := nodes - {t};
    }

    /** The loop of `freewalk_level`. */
    method FreeEntries(t: Frame, level: nat) returns (ghost done: seq<Frame>)
      requires Linked() && Shape(Abs()) && t < NFRAMES && Freeable(Abs(), PostOrder(Abs(), t, level))
      modifies this
      ensures Linked() && Freeing(old(Abs()), Abs(), t, level, 512, done)
      decreases level, 3
    {
      ghost var m0 := Abs();
      done := [];
      FreeingStart(m0, t, level);
      var i := 0;
      while i < 512
        invariant Linked() && 0 <= i <= 512 && Freeing(m0, Abs(), t, level, i, done)
      {
        done := FreeRound(t, level, i, m0, done);
        i := i + 1;
      }
    }

    /** `freewalk`: all tables go back to the free list; the counts stay exact exactly if nothing was mapped. */
    method FreeTables(root: Frame, ghost held: multiset<Frame>)
      requires Valid(held) && IsRoot(Abs(), root)
      modifies this
      ensures Linked() && Abs() == FreeWalk(old(Abs()), root, RootLevel(old(Abs()), root))
      ensures RootFreed(old(Abs()), Abs(), root)
      ensures Counts(Abs(), held) <==> NoLeaves(old(Abs()), root)
      ensures NoLeaves(old(Abs()), root) ==> Valid(held)
    {
      ghost var m, level := Abs(), RootLevel(Abs(), root);
      RootFreeable(m, root, level);
      FreeWalkEffect(m, root, level);
      FreeWalkExact(m, held, root, level);
      if NoLeaves(m, root) { FreeWalkKeeps(m, held, root, level); }
      TableInRange(m, root);
      FreeLevel(root, 2);
    }
  }
}
