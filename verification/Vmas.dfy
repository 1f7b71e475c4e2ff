/** The table of virtual memory areas: `mmap` and `munmap` as updates of a map from pages to what backs
    them, with `munmap` taking the pages out of the page table as well. */
module Vmas {
  import C = Cow
  import F = Frames
  import M = Machine
  import P = PageTables

  const NVMA: nat := 16
  const MMAP_START: nat := 0x400_0000
  const WORD: nat := 0x1_0000_0000_0000_0000
  const USER_VA_TOP: nat := 0x40_0000_0000     // no stack starts above it

  /** `file` is -1 for anonymous memory. */
  datatype Vma = Vma(used: bool, start: nat, end: nat, file: int, offset: nat, prot: nat)

  type Table = seq<Vma>

  /** What backs a page. */
  datatype Backing = Nothing | Backed(file: int, offset: nat, prot: nat)

  predicate Covers(v: Vma, pg: nat) {
    v.used && v.start <= pg * 4096 < v.end
  }

  function BackingOf(v: Vma, pg: nat): Backing {
    if Covers(v, pg) then Backed(v.file, if v.file >= 0 then v.offset + (pg * 4096 - v.start) else 0, v.prot)
    else Nothing
  }

  /** What the first area covering a page says about it. */
  function View(vs: Table, pg: nat): Backing {
    if vs == [] then Nothing else if Covers(vs[0], pg) then BackingOf(vs[0], pg) else View(vs[1..], pg)
  }

  ghost predicate Apart(v: Vma, w: Vma) {
    v.used && w.used ==> v.end <= w.start || w.end <= v.start
  }

  ghost predicate Aligned(v: Vma) {
    v.used ==> v.start % 4096 == 0 && v.end % 4096 == 0 && v.start <= v.end <= 2 * USER_VA_TOP && v.start > 0
  }

  /** Used areas are page-aligned and pairwise disjoint. */
  ghost predicate Inv(vs: Table) {
    && |vs| == NVMA && (forall i | 0 <= i < |vs| :: Aligned(vs[i]))
    && (forall i, j | 0 <= i < |vs| && 0 <= j < |vs| && i != j :: Apart(vs[i], vs[j]))
  }

  /** Only one area covers a page, so the view of the page is that area's. */
  lemma {:induction false} ViewAt(vs: Table, pg: nat, i: nat)
    requires i < |vs| && Covers(vs[i], pg)
    requires forall j, k | 0 <= j < |vs| && 0 <= k < |vs| && j != k :: Apart(vs[j], vs[k])
    ensures View(vs, pg) == BackingOf(vs[i], pg)
  {
    if i > 0 {
      assert Apart(vs[0], vs[i]);
      ViewAt(vs[1..], pg, i - 1);
    }
  }

  lemma {:induction false} ViewNone(vs: Table, pg: nat)
    requires forall i | 0 <= i < |vs| :: !Covers(vs[i], pg)
    ensures View(vs, pg) == Nothing
  {
    if vs != [] { ViewNone(vs[1..], pg); }
  }

  /** Changing one area changes the view only of pages the old or the new area covers. */
  lemma ViewUpdate(vs: Table, i: nat, v: Vma, pg: nat)
    requires Inv(vs) && i < NVMA && Inv(vs[i := v])
    ensures View(vs[i := v], pg) ==
      if Covers(v, pg) then BackingOf(v, pg) else if Covers(vs[i], pg) then Nothing else View(vs, pg)
  {
    var vs' := vs[i := v];
    if Covers(v, pg) {
      ViewAt(vs', pg, i);
    } else if k :| 0 <= k < NVMA && k != i && Covers(vs[k], pg) {
      assert Apart(vs[k], vs[i]);
      ViewAt(vs', pg, k);
      ViewAt(vs, pg, k);
    } else {
      ViewNone(vs', pg);
      if !Covers(vs[i], pg) { ViewNone(vs, pg); }
    }
  }

  lemma UpdateInv(vs: Table, i: nat, v: Vma)
    requires Inv(vs) && i < NVMA && Aligned(v) && forall j | 0 <= j < NVMA && j != i :: Apart(v, vs[j])
    ensures Inv(vs[i := v])
  {
    var vs' := vs[i := v];
    forall j, k | 0 <= j < NVMA && 0 <= k < NVMA && j != k ensures Apart(vs'[j], vs'[k]) {
      if j != i && k != i { assert Apart(vs[j], vs[k]); }
    }
  }

  // ----- searching -----

  function RoundUp(len: nat): nat {
    (len + 4095) % WORD / 4096 * 4096
  }

  /** The overlap test of the kernel, on a range whose end may wrap. */
  predicate Hits(v: Vma, addr: nat, len: nat) {
    v.used && addr < v.end && v.start < (addr + len) % WORD
  }

  ghost predicate FreeRange(vs: Table, addr: nat, len: nat) {
    forall j | 0 <= j < |vs| :: !Hits(vs[j], addr, len)
  }

  datatype Errno = EINVAL | EOPNOTSUPP | EBADF | ENOMEM
  datatype Result = Ok(addr: nat) | Err(code: Errno)

  /** `prot2pte`: the user bit with the permissions asked for; 0 for none. */
  function ProtBits(prot: nat): nat {
    if prot == 0 then 0 else 8 + prot % 8
  }

  function FileAt(ofile: seq<int>, fd: int): int {
    if 0 <= fd < |ofile| then ofile[fd] else -1
  }

  /** The backing an mmap call asks for at file offset `offset`. */
  function Asked(prot: nat, flags: nat, fd: int, ofile: seq<int>, offset: nat): Backing {
    if flags / 32 % 2 == 1 then Backed(-1, 0, ProtBits(prot)) else Backed(FileAt(ofile, fd), offset, ProtBits(prot))
  }

  /** The arguments `do_mmap` accepts. */
  predicate GoodCall(addr: nat, len: nat, prot: nat, flags: nat, fd: int, offset: nat, ofile: seq<int>) {
    && addr == 0 && prot != 0 && offset % 4096 == 0 && len != 0 && flags % 16 == 2
    && if flags / 32 % 2 == 1 then fd == -1 && offset == 0 else 0 <= fd < |ofile| && prot / 2 % 2 == 0 && ofile[fd] >= 0
  }

  /** Some page from the start of the mmap region on takes the range. */
  ghost predicate HasRange(vs: Table, len: nat, stack0: nat, stack: nat) {
    && MMAP_START <= stack0 && len <= stack0 - MMAP_START
    && exists a :: MMAP_START <= a < stack && a % 4096 == 0 && FreeRange(vs, a, len)
  }

  ghost predicate HasSlot(vs: Table) {
    exists i :: 0 <= i < |vs| && !vs[i].used
  }

  /** A range in one used area that reaches one of its ends: what `munmap` can remove. */
  ghost predicate Edge(v: Vma, addr: nat, size: nat) {
    v.used && v.start <= addr && addr + size <= v.end && size > 0 && (addr == v.start || addr + size == v.end)
  }

  /** Rounding gives all requested pages exactly when the length does not wrap. */
  lemma RoundUpExact(len: nat)
    requires 0 < len < WORD
    ensures RoundUp(len) == (len + 4095) / 4096 * 4096 <==> len <= WORD - 4096
    ensures len > WORD - 4096 ==> RoundUp(len) == 0
    ensures RoundUp(len) % 4096 == 0 && RoundUp(len) < WORD
  {
  }

  /** A range that hits no area is apart from all of them. */
  lemma FreeApart(vs: Table, addr: nat, len: nat, v: Vma)
    requires addr + len < WORD && FreeRange(vs, addr, len) && v.used && v.start == addr && v.end == addr + len
    ensures forall j | 0 <= j < |vs| :: Apart(v, vs[j])
  {
    forall j | 0 <= j < |vs| ensures Apart(v, vs[j]) { assert !Hits(vs[j], addr, len); }
  }

  /** The area that contains a non-empty range is the only one the range hits. */
  lemma OnlyHit(vs: Table, addr: nat, size: nat, i: nat, j: nat)
    requires Inv(vs) && i < NVMA && j < NVMA && vs[i].used && vs[i].start <= addr && addr + size <= vs[i].end
    requires size > 0 && Hits(vs[j], addr, size)
    ensures i == j
  {
    assert Aligned(vs[i]);
  }

  /** What trimming an area leaves. */
  function Trim(v: Vma, addr: nat, end: nat): Vma {
    if addr == v.start && end == v.end then v.(used := false)
    else
      if addr == v.start && end >= addr then
        v.(offset := if v.file >= 0 then v.offset + (end - v.start) else v.offset, start := end)
    else v.(end := addr)
  }

  /** Trimming keeps the backing of every page that stays, file offset included. */
  lemma TrimIs(vs: Table, i: nat, addr: nat, size: nat)
    requires Inv(vs) && i < NVMA && Edge(vs[i], addr, size) && addr % 4096 == 0 && size % 4096 == 0
    ensures var v := Trim(vs[i], addr, addr + size);
      && Inv(vs[i := v])
      && forall pg: nat :: BackingOf(v, pg) == if addr <= pg * 4096 < addr + size then Nothing else BackingOf(vs[i], pg)
  {
    var v := Trim(vs[i], addr, addr + size);
    assert Aligned(vs[i]);
    forall j | 0 <= j < NVMA && j != i ensures Apart(v, vs[j]) { assert Apart(vs[i], vs[j]); }
    UpdateInv(vs, i, v);
  }

  lemma TrimView(vs: Table, i: nat, addr: nat, size: nat, pg: nat)
    requires Inv(vs) && i < NVMA && Edge(vs[i], addr, size) && addr % 4096 == 0 && size % 4096 == 0
    ensures View(vs[i := Trim(vs[i], addr, addr + size)], pg) ==
      if addr <= pg * 4096 < addr + size then Nothing else View(vs, pg)
    ensures addr <= pg * 4096 < addr + size ==> View(vs, pg) != Nothing
  {
    TrimIs(vs, i, addr, size);
    var v := Trim(vs[i], addr, addr + size);
    ViewUpdate(vs, i, v, pg);
    if Covers(vs[i], pg) { ViewAt(vs, pg, i); }
  }

  /** Pages [lo, hi) of `root` are gone from the page table; every other page of every address space is as it was. */
  ghost predicate Unmapped(m: F.Mem, m': F.Mem, root: F.Frame, lo: nat, hi: nat) {
    forall r: F.Frame, pg: P.Page | P.IsRoot(m, r) && P.PageOk(pg) ::
      && P.IsRoot(m', r)
      && P.Lookup(m', r, pg) == (if r == root && C.InRange(pg, lo, hi) then F.NoPte else P.Lookup(m, r, pg))
      && ((r == root && C.InRange(pg, lo, hi)) || C.Content(m', r, pg) == C.Content(m, r, pg))
  }

  lemma DroppedLookup(m: F.Mem, m': F.Mem, root: F.Frame, lo: nat, hi: nat)
    requires C.Dropped(m, m', root, lo, hi) && P.IsRoot(m, root)
    ensures Unmapped(m, m', root, lo, hi)
  {
  }

  class Areas {
    var vs: Table

    ghost predicate Valid()
      reads this
    {
      Inv(vs)
    }

    constructor ()
      ensures Valid() && (forall i | 0 <= i < NVMA :: !vs[i].used) && forall pg :: View(vs, pg) == Nothing
    {
      vs := seq(NVMA, _ => Vma(false, 0, 0, -1, 0, 0));
      new;
      forall pg ensures View(vs, pg) == Nothing { ViewNone(vs, pg); }
    }

    /** `find_free_vma_slot`. */
    method FindSlot() returns (i: nat)
      requires Valid()
      ensures i <= NVMA && (i < NVMA ==> !vs[i].used) && forall j | 0 <= j < i :: vs[j].used
    {
      i := 0;
      while i < NVMA
        invariant i <= NVMA && forall j | 0 <= j < i :: vs[j].used
      {
        if !vs[i].used { return; }
        i := i + 1;
      }
    }

    /** `find_overlapping_vma`; NVMA when there is none. */
    method FindOverlap(addr: nat, len: nat) returns (i: nat)
      requires Valid()
      ensures i <= NVMA && (i < NVMA ==> addr != 0 && Hits(vs[i], addr, len))
      ensures (i == NVMA ==> addr == 0 || FreeRange(vs, addr, len))
    {
      if addr == 0 { return NVMA; }
      i := 0;
      while i < NVMA
        invariant i <= NVMA && forall j | 0 <= j < i :: !Hits(vs[j], addr, len)
      {
        if vs[i].used && addr < vs[i].end && vs[i].start < (addr + len) % WORD { return; }
        i := i + 1;
      }
    }

    /** The inner loop of `find_free_range`. */
    method IsFree(addr: nat, len: nat) returns (found: bool)
      requires Valid()
      ensures found <==> FreeRange(vs, addr, len)
    {
      var j := 0;
      while j < NVMA
        invariant j <= NVMA && forall k | 0 <= k < j :: !Hits(vs[k], addr, len)
      {
        if vs[j].used && addr < vs[j].end && vs[j].start < (addr + len) % WORD { return false; }
        j := j + 1;
      }
      found := true;
    }

    /** `find_free_range`: the lowest page from the start of the mmap region on where the range hits no
        area.  `stack0` is the bound of the first test, `stack` the end of the search. */
    method FindRange(len: nat, stack0: nat, stack: nat) returns (addr: nat)
      requires Valid() && stack0 <= USER_VA_TOP && stack <= USER_VA_TOP
      ensures addr != 0 ==> MMAP_START <= addr < stack && addr % 4096 == 0 && FreeRange(vs, addr, len)
      ensures addr != 0 ==> forall a | MMAP_START <= a < addr && a % 4096 == 0 :: !FreeRange(vs, a, len)
      ensures addr != 0 <==> HasRange(vs, len, stack0, stack)
    {
      if MMAP_START > stack0 || len > stack0 - MMAP_START { return 0; }
      addr := MMAP_START;
      while addr < stack
        invariant MMAP_START <= addr && addr % 4096 == 0
        invariant forall a | MMAP_START <= a < addr && a % 4096 == 0 :: !FreeRange(vs, a, len)
      {
        var found := IsFree(addr, len);
        if found { return; }
        forall a | MMAP_START <= a < addr + 4096 && a % 4096 == 0
          ensures !FreeRange(vs, a, len)
        {
          assert a < addr || a == addr;
        }
        addr := addr + 4096;
      }
      addr := 0;
    }

    /** `do_mmap`.  `ofile` is the descriptor table, -1 for a closed one. */
    method Mmap(addr: nat, len: nat, prot: nat, flags: nat, fd: int, offset: nat, ofile: seq<int>, stack0: nat,
        stack: nat)
      returns (r: Result)
      requires Valid() && len < WORD && stack0 <= USER_VA_TOP && stack <= USER_VA_TOP
      requires forall i | 0 <= i < |ofile| :: ofile[i] >= -1
      modifies this
      ensures Valid()
      ensures r.Err? ==> vs == old(vs)
      ensures r.Ok? ==> r.addr >= MMAP_START
      ensures r.Ok? ==> (forall pg: nat | r.addr <= pg * 4096 < r.addr + RoundUp(len) :: View(old(vs), pg) == Nothing)
      ensures r.Ok? ==>
        forall pg: nat ::
          View(vs, pg) ==
            if r.addr <= pg * 4096 < r.addr + RoundUp(len) then
              Asked(prot, flags, fd, ofile, offset + (pg * 4096 - r.addr))
            else View(old(vs), pg)
      ensures r.Ok? ==>
        forall pg: nat | r.addr <= pg * 4096 < r.addr + RoundUp(len) ::
          View(vs, pg).Backed? && View(vs, pg).prot / 8 == 1 && View(vs, pg).prot % 8 == prot % 8
      ensures r.Ok? <==>
        && GoodCall(addr, len, prot, flags, fd, offset, ofile) && HasRange(old(vs), RoundUp(len), stack0, stack)
        && HasSlot(old(vs))
      ensures r == Err(ENOMEM) <==>
        && GoodCall(addr, len, prot, flags, fd, offset, ofile)
        && !(HasRange(old(vs), RoundUp(len), stack0, stack) && HasSlot(old(vs)))
      ensures r.Ok? ==> forall a | MMAP_START <= a < r.addr && a % 4096 == 0 :: !FreeRange(old(vs), a, RoundUp(len))
    {
      if addr != 0 { return Err(EOPNOTSUPP); }
      var length := RoundUp(len);
      if ProtBits(prot) == 0 { return Err(EINVAL); }
      if offset % 4096 != 0 { return Err(EINVAL); }
      if len == 0 { return Err(EINVAL); }
      var anonymous := flags / 32 % 2 == 1;
      if flags % 16 != 2 { return Err(EOPNOTSUPP); }
      if anonymous {
        if fd != -1 || offset != 0 { return Err(EINVAL); }
      } else {
        if fd < 0 || fd >= |ofile| { return Err(EBADF); }
        if prot / 2 % 2 == 1 { return Err(EOPNOTSUPP); }
        if ofile[fd] < 0 { return Err(EBADF); }
      }
      var a := FindRange(length, stack0, stack);
      if a == 0 { return Err(ENOMEM); }
      var slot := FindSlot();
      if slot == NVMA { return Err(ENOMEM); }
      var v := Vma(true, a, a + length, if anonymous then -1 else ofile[fd], if anonymous then 0 else offset,
          ProtBits(prot));
      RoundUpExact(len);
      FreeApart(vs, a, length, v);
      UpdateInv(vs, slot, v);
      ghost var was := vs;
      ghost var now := was[slot := v];
      forall pg: nat
        ensures View(now, pg) ==
          if a <= pg * 4096 < a + length then Asked(prot, flags, fd, ofile, offset + (pg * 4096 - a)) else View(was, pg)
      {
        ViewUpdate(was, slot, v, pg);
      }
      forall pg: nat | Covers(v, pg) ensures View(was, pg) == Nothing {
        forall j | 0 <= j < NVMA ensures !Covers(was[j], pg) { assert Apart(v, was[j]); }
        ViewNone(was, pg);
      }
      vs := vs[slot := v];
      assert vs == now && length == RoundUp(len);
      r := Ok(a);
    }

    /** `do_munmap`: accepted exactly for a page-aligned range that is a whole area or reaches one of its
        ends; it removes exactly those pages from the areas and from the page table.  `close` is the file to
        close. */
    method Munmap(mem: M.Memory, root: F.Frame, addr: nat, len: nat, ghost held: multiset<F.Frame>)
      returns (ok: bool, close: int)
      requires Valid() && addr < WORD && len < WORD && mem.Valid(held) && P.IsRoot(mem.Abs(), root)
      modifies this, mem
      ensures Valid() && mem.Valid(held)
      ensures ok <==>
        addr % 4096 == 0 && addr != 0 && len != 0 && exists i :: 0 <= i < NVMA && Edge(old(vs)[i], addr, RoundUp(len))
      ensures !ok ==> vs == old(vs) && mem.Abs() == old(mem.Abs())
      ensures ok ==>
        forall pg: nat :: View(vs, pg) == if addr <= pg * 4096 < addr + RoundUp(len) then Nothing else View(old(vs), pg)
      ensures ok ==> (forall pg: nat | addr <= pg * 4096 < addr + RoundUp(len) :: View(old(vs), pg) != Nothing)
      ensures ok ==> Unmapped(old(mem.Abs()), mem.Abs(), root, addr / 4096, (addr + RoundUp(len)) / 4096)
      ensures !ok ==> close == -1
      ensures ok ==>
        forall i | 0 <= i < NVMA && Edge(old(vs)[i], addr, RoundUp(len)) ::
          close == if old(vs)[i].end - old(vs)[i].start == RoundUp(len) then old(vs)[i].file else -1
    {
      close := -1;
      if addr % 4096 != 0 || addr == 0 || len == 0 { return false, -1; }
      RoundUpExact(len);
      var size := RoundUp(len);
      var end := (addr + size) % WORD;
      var i := FindOverlap(addr, size);
      ghost var was := vs;
      if i == NVMA {
        forall k | 0 <= k < NVMA
          ensures !Edge(was[k], addr, size)
        {
          assert Aligned(was[k]) && !Hits(was[k], addr, size);
        }
        return false, -1;
      }
      forall k | 0 <= k < NVMA && Edge(was[k], addr, size) ensures k == i { OnlyHit(was, addr, size, k, i); }
      assert Aligned(was[i]);
      if addr < vs[i].start || end > vs[i].end { return false, -1; }
      if addr > vs[i].start && end < vs[i].end { return false, -1; }
      assert Edge(vs[i], addr, size) && end == addr + size;
      Drop(mem, root, addr, size, held);
      ghost var now := was[i := Trim(was[i], addr, end)];
      forall pg: nat
        ensures View(now, pg) == (if addr <= pg * 4096 < addr + size then Nothing else View(was, pg))
        ensures (addr <= pg * 4096 < addr + size ==> View(was, pg) != Nothing)
      {
        TrimView(was, i, addr, size, pg);
      }
      TrimIs(was, i, addr, size);
      if addr == vs[i].start && end == vs[i].end { close := vs[i].file; }
      vs := vs[i := Trim(vs[i], addr, end)];
      ok := true;
    }

    /** The call of `kvmunmap`. */
    method Drop(mem: M.Memory, root: F.Frame, addr: nat, size: nat, ghost held: multiset<F.Frame>)
      requires mem.Valid(held) && P.IsRoot(mem.Abs(), root)
      requires addr % 4096 == 0 && size % 4096 == 0 && 0 < size && addr + size <= 2 * USER_VA_TOP
      modifies mem
      ensures mem.Valid(held) && Unmapped(old(mem.Abs()), mem.Abs(), root, addr / 4096, (addr + size) / 4096)
    {
      ghost var m := mem.Abs();
      var lo, hi := addr / 4096, (addr + size) / 4096;
      assert M.PageNo(addr) == lo && lo + size / 4096 == hi <= C.ALL_PAGES;
      var panics := mem.Kvmunmap(root, addr, size, held);
      C.DropKeeps(m, held, root, lo, hi);
      DroppedLookup(m, mem.Abs(), root, lo, hi);
    }
  }

  /** The largest length: `mmap` succeeds and maps nothing. */
  method EmptyMapping() returns (areas: Areas, r: Result)
    ensures r.Ok? && areas.Valid() && RoundUp(WORD - 1) == 0 && forall pg :: View(areas.vs, pg) == Nothing
  {
    areas := new Areas();
    assert FreeRange(areas.vs, MMAP_START, RoundUp(WORD - 1));
    assert !areas.vs[0].used;
    assert GoodCall(0, WORD - 1, 1, 34, -1, 0, []);
    r := areas.Mmap(0, WORD - 1, 1, 34, -1, 0, [], USER_VA_TOP, USER_VA_TOP);
  }
}
