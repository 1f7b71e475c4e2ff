/** What copies between kernel and user memory keep: addresses, lazy pages and user bytes. */
module UserCopy {
  import opened Frames
  import opened PageTables
  import opened Cow

  const LOW_VA_LIMIT: nat := 274877906944    // 1 << 38
  const WORD: nat := 0x1_0000_0000_0000_0000

  /** One mapped area: anonymous, or backed by file pages keyed by page address; a missing key is
      a page the file system fails to read. */
  datatype Vma = Vma(start: nat, end: nat, perm: Pte, file: Option<map<nat, seq<Byte>>>)

  datatype Layout = Layout(heapBottom: nat, heapTop: nat, stackBottom: nat, stackTop: nat, vmas: seq<Vma>)

  ghost predicate LayoutOk(lay: Layout) {
    forall i | 0 <= i < |lay.vmas| ::
      && !lay.vmas[i].perm.cow && (lay.vmas[i].perm.d ==> lay.vmas[i].perm.w)
      && (lay.vmas[i].file.Some? ==> forall a | a in lay.vmas[i].file.value :: |lay.vmas[i].file.value[a]| == PGSIZE)
  }

  /** `find_overlapping_vma` for the page at `va`, from slot `i` on; address 0 has no area. */
  function FindVma(vmas: seq<Vma>, va: nat, i: nat): Option<Vma>
    requires i <= |vmas|
    decreases |vmas| - i
  {
    if va == 0 || i == |vmas| then None
    else if va < vmas[i].end && vmas[i].start < va + PGSIZE then Some(vmas[i])
    else FindVma(vmas, va, i + 1)
  }

  lemma FindVmaOk(lay: Layout, va: nat, i: nat)
    requires LayoutOk(lay) && i <= |lay.vmas| && FindVma(lay.vmas, va, i).Some?
    ensures var v := FindVma(lay.vmas, va, i).value;
      !v.perm.cow && (v.perm.d ==> v.perm.w) && (v.file.Some? && va in v.file.value ==> |v.file.value[va]| == PGSIZE)
    decreases |lay.vmas| - i
  {
  }

  /** What a missing page is filled from. */
  datatype Source = NoSource | ReadError | Fill(perm: Pte, bytes: seq<Byte>)

  const UserRw := Pte(true, 0, true, true, false, true, false, false)

  /** The lazy-allocation decision of `copyin` and `copyout` for the page at `va`, including the
      range checks of `handle_page_fault`. */
  function SourceOf(lay: Layout, va: nat): Source {
    var v := FindVma(lay.vmas, va, 0);
    if v.Some? then
      if v.value.file.None? then Fill(v.value.perm, ZeroPage())
      else if va in v.value.file.value then Fill(v.value.perm, v.value.file.value[va]) else ReadError
    else
      var text := 0x10000 <= va < (lay.heapBottom + WORD - PGSIZE) % WORD;
      var heap := lay.heapBottom <= va < lay.heapTop;
      var stack := lay.stackBottom <= va < lay.stackTop;
      if (heap || stack || text) && lay.heapBottom <= va <= lay.stackBottom then Fill(UserRw, ZeroPage()) else NoSource
  }

  // ----- what a missing page must be -----

  /** An area meets the page at `va`; nothing is ever found for address 0. */
  predicate Overlaps(v: Vma, va: nat) {
    va != 0 && va < v.end && v.start < va + PGSIZE
  }

  /** Area `i` is the first that meets the page. */
  ghost predicate FirstArea(lay: Layout, va: nat, i: nat) {
    i < |lay.vmas| && Overlaps(lay.vmas[i], va) && forall j | 0 <= j < i :: !Overlaps(lay.vmas[j], va)
  }

  ghost predicate NoArea(lay: Layout, va: nat) {
    forall i | 0 <= i < |lay.vmas| :: !Overlaps(lay.vmas[i], va)
  }

  /** Outside all areas only pages from the heap's start to the stack's bottom are made: those of the heap, the lowest
      of the stack, and, for a heap that starts in the first page, any from 0x10000 on. */
  predicate OnDemand(lay: Layout, va: nat) {
    && lay.heapBottom <= va <= lay.stackBottom
    && (va < lay.heapTop || va == lay.stackBottom < lay.stackTop || (lay.heapBottom < PGSIZE && 0x10000 <= va))
  }

  /** The page can be made, memory permitting: an anonymous area, a file page that can be read, or one on demand. */
  ghost predicate HasSource(lay: Layout, va: nat) {
    || (exists i: nat :: FirstArea(lay, va, i) && (lay.vmas[i].file.Some? ==> va in lay.vmas[i].file.value))
    || (NoArea(lay, va) && OnDemand(lay, va))
  }

  /** Byte `k` of the page made at `va` is `v`: the file's in an area with a file, and zero otherwise. */
  ghost predicate Supplies(lay: Layout, va: nat, k: nat, v: Byte) {
    && HasSource(lay, va)
    && (forall i: nat | FirstArea(lay, va, i) :: AreaByte(lay.vmas[i], va, k, v))
    && (NoArea(lay, va) ==> v == 0)
  }

  ghost predicate AreaByte(a: Vma, va: nat, k: nat, v: Byte) {
    && (a.file.None? ==> v == 0)
    && (a.file.Some? ==> va in a.file.value && k < |a.file.value[va]| && v == a.file.value[va][k])
  }

  ghost predicate FromSource(lay: Layout, va: nat, page: seq<Byte>) {
    |page| == PGSIZE && forall k | 0 <= k < PGSIZE :: Supplies(lay, va, k, page[k])
  }

  /** The entry of the page has the rights of the area, or of a user page to read, write and execute. */
  ghost predicate HasRights(lay: Layout, va: nat, p: Pte) {
    && (forall i: nat | FirstArea(lay, va, i) :: SameRights(p, lay.vmas[i].perm))
    && (NoArea(lay, va) ==> p.w && p.d && !p.cow && p.user && !p.nr && !p.nx)
  }

  /** Writable pages are dirty from the start. */
  ghost predicate SameRights(p: Pte, perm: Pte) {
    p.w == perm.w && p.cow == perm.cow && p.user == perm.user && p.nr == perm.nr && p.nx == perm.nx && (p.d <==> p.w)
  }

  lemma FirstOnly(lay: Layout, va: nat, i: nat, j: nat)
    requires FirstArea(lay, va, i) && FirstArea(lay, va, j)
    ensures i == j
  {
  }

  lemma {:induction false} FindVmaIs(lay: Layout, va: nat, i: nat) returns (j: nat)
    requires i <= |lay.vmas| && forall x | 0 <= x < i :: !Overlaps(lay.vmas[x], va)
    ensures FindVma(lay.vmas, va, i).None? ==> NoArea(lay, va)
    ensures FindVma(lay.vmas, va, i).Some? ==>
      FirstArea(lay, va, j) && FindVma(lay.vmas, va, i) == Some(lay.vmas[j]) && !NoArea(lay, va)
    decreases |lay.vmas| - i
  {
    j := i;
    if va != 0 && i < |lay.vmas| && !Overlaps(lay.vmas[i], va) { j := FindVmaIs(lay, va, i + 1); }
  }

  /** In an area. */
  lemma AreaSource(lay: Layout, va: nat, j: nat)
    requires LayoutOk(lay) && FirstArea(lay, va, j) && !NoArea(lay, va) && FindVma(lay.vmas, va, 0) == Some(lay.vmas[j])
    ensures SourceOf(lay, va).Fill? <==> HasSource(lay, va)
    ensures SourceOf(lay, va).Fill? ==> FromSource(lay, va, SourceOf(lay, va).bytes)
    ensures SourceOf(lay, va).Fill? ==> forall f :: HasRights(lay, va, LeafPte(f, SourceOf(lay, va).perm))
  {
    forall i: nat | FirstArea(lay, va, i) ensures i == j { FirstOnly(lay, va, i, j); }
  }

  /** Outside all areas. */
  lemma PlainSource(lay: Layout, va: nat)
    requires NoArea(lay, va) && va < LOW_VA_LIMIT && FindVma(lay.vmas, va, 0).None?
    ensures SourceOf(lay, va).Fill? <==> HasSource(lay, va)
    ensures SourceOf(lay, va).Fill? ==> FromSource(lay, va, SourceOf(lay, va).bytes)
    ensures SourceOf(lay, va).Fill? ==> forall f :: HasRights(lay, va, LeafPte(f, SourceOf(lay, va).perm))
  {
    if lay.heapBottom <= va { TextRange(lay.heapBottom, va); }
  }

  lemma TextRange(heapBottom: nat, va: nat)
    requires va < LOW_VA_LIMIT && heapBottom <= va
    ensures va < (heapBottom + WORD - PGSIZE) % WORD <==> heapBottom < PGSIZE
  {
  }

  /** The decision is the one the areas and ranges call for, and so are bytes and rights. */
  lemma SourceIs(lay: Layout, va: nat)
    requires LayoutOk(lay) && va < LOW_VA_LIMIT
    ensures SourceOf(lay, va).Fill? <==> HasSource(lay, va)
    ensures SourceOf(lay, va).Fill? ==> FromSource(lay, va, SourceOf(lay, va).bytes)
    ensures SourceOf(lay, va).Fill? ==> forall f :: HasRights(lay, va, LeafPte(f, SourceOf(lay, va).perm))
  {
    var j := FindVmaIs(lay, va, 0);
    if FindVma(lay.vmas, va, 0).Some? { AreaSource(lay, va, j); } else { PlainSource(lay, va); }
  }

  /** A missing page cannot be filled: it has no source, or the frame and the tables it needs are not there. */
  ghost predicate NoFill(m: Mem, lay: Layout, va: nat) {
    !HasSource(lay, va) || |m.free| <= 1
  }

  /** The kernel cannot store to the page at `va`. */
  ghost predicate CannotStore(m: Mem, r: Frame, va: nat, lay: Layout) {
    var p := Lookup(m, r, PageAt(va / 4096));
    if !p.valid then NoFill(m, lay, va) else if p.cow then !p.user || m.free == [] else !p.w || !p.user
  }

  ghost predicate CannotLoad(m: Mem, r: Frame, va: nat, lay: Layout) {
    var p := Lookup(m, r, PageAt(va / 4096));
    if !p.valid then NoFill(m, lay, va) else !p.user || p.nr
  }

  /** The page at `va` holds some of the `n` bytes from `a`. */
  predicate Meets(va: nat, a: nat, n: nat) {
    va % 4096 == 0 && va < a + n && a < va + 4096
  }

  /** The byte at user address `a`, if its page is mapped. */
  function UserByte(m: Mem, r: Frame, a: nat): Option<Byte> {
    var c := Content(m, r, PageAt(a / 4096));
    if c.Some? && a % 4096 < |c.value| then Some(c.value[a % 4096]) else None
  }

  /** A user of `r` reads `bytes` from address `a` on. */
  ghost predicate ReadsAs(m: Mem, r: Frame, a: nat, bytes: seq<Byte>) {
    forall k {:trigger ReadsAt(m, r, a, bytes, k)} | 0 <= k < |bytes| :: ReadsAt(m, r, a, bytes, k)
  }

  predicate ReadsAt(m: Mem, r: Frame, a: nat, bytes: seq<Byte>, k: nat)
    requires k < |bytes|
  {
    UserByte(m, r, a + k) == Some(bytes[k])
  }

  ghost predicate OthersSame(m: Mem, m': Mem, r: Frame) {
    && (forall r' | IsRoot(m, r') :: IsRoot(m', r'))
    && (forall r': Frame, pg: Page {:trigger SamePageOf(m, m', r', pg)} | IsRoot(m, r') && r' != r && PageOk(pg) ::
          SamePageOf(m, m', r', pg))
  }

  predicate SamePageOf(m: Mem, m': Mem, r: Frame, pg: Page) {
    Lookup(m', r, pg) == Lookup(m, r, pg) && Content(m', r, pg) == Content(m, r, pg)
  }

  /** Outside user addresses [lo, hi) every mapped byte of `r` is kept, and new ones are those of their source. */
  ghost predicate KeepsOutside(m: Mem, m': Mem, r: Frame, lay: Layout, lo: nat, hi: nat) {
    forall a: nat {:trigger KeepsByte(m, m', r, lay, a)} | a < LOW_VA_LIMIT && !(lo <= a < hi) ::
      KeepsByte(m, m', r, lay, a)
  }

  /** A byte that is there stays; one that was not there and is now comes from the page's source. */
  ghost predicate KeepsByte(m: Mem, m': Mem, r: Frame, lay: Layout, a: nat) {
    var b, b' := UserByte(m, r, a), UserByte(m', r, a);
    (b.Some? ==> b' == b) && (b.None? && b'.Some? ==> Supplies(lay, a - a % 4096, a % 4096, b'.value))
  }

  lemma AddressPage(a: nat)
    requires a < LOW_VA_LIMIT
    ensures a / 4096 < 67108864 && PageOk(PageAt(a / 4096)) && NumOf(PageAt(a / 4096)) == a / 4096
  {
    PageNum(a / 4096);
  }

  lemma SamePage(a: nat, b: nat)
    requires a < LOW_VA_LIMIT && b < LOW_VA_LIMIT && PageAt(a / 4096) == PageAt(b / 4096)
    ensures a / 4096 == b / 4096
  {
    AddressPage(a);
    AddressPage(b);
  }

  /** Without a change of content nothing a user reads changes. */
  lemma SameContentKeeps(m: Mem, m': Mem, r: Frame, lay: Layout, lo: nat, hi: nat)
    requires IsRoot(m, r) && SameContent(m, m')
    ensures KeepsOutside(m, m', r, lay, lo, hi)
  {
    forall a: nat | a < LOW_VA_LIMIT ensures KeepsByte(m, m', r, lay, a) { AddressPage(a); }
  }

  /** Filling an unmapped page changes no mapped byte. */
  lemma FillKeeps(m: Mem, m': Mem, r: Frame, lay: Layout, pg: Page, va: nat, lo: nat, hi: nat)
    requires IsRoot(m, r) && SameContentExcept(m, m', r, pg) && Content(m, r, pg) == None
    requires va < LOW_VA_LIMIT && va % 4096 == 0 && pg == PageAt(va / 4096)
    requires Content(m', r, pg).Some? ==> FromSource(lay, va, Content(m', r, pg).value)
    ensures KeepsOutside(m, m', r, lay, lo, hi)
  {
    forall a: nat | a < LOW_VA_LIMIT ensures KeepsByte(m, m', r, lay, a) {
      AddressPage(a);
      if PageAt(a / 4096) == pg {
        SamePage(a, va);
        FillByte(m, m', r, lay, pg, va, a);
      }
    }
  }

  lemma FillByte(m: Mem, m': Mem, r: Frame, lay: Layout, pg: Page, va: nat, a: nat)
    requires Content(m, r, pg) == None && a / 4096 == va / 4096 && va % 4096 == 0 && pg == PageAt(a / 4096)
    requires Content(m', r, pg).Some? ==> FromSource(lay, va, Content(m', r, pg).value)
    ensures KeepsByte(m, m', r, lay, a)
  {
    assert a - a % 4096 == va;
  }

  /** What a read of address `a` gets: the byte there, or the one its page is made with. */
  ghost predicate LoadedFrom(m: Mem, r: Frame, lay: Layout, a: nat, v: Byte) {
    if UserByte(m, r, a).Some? then v == UserByte(m, r, a).value else Supplies(lay, a - a % 4096, a % 4096, v)
  }

  lemma LoadsFrom(m: Mem, m': Mem, r: Frame, lay: Layout, src: nat, out: seq<Byte>)
    requires KeepsOutside(m, m', r, lay, 0, 0) && ReadsAs(m', r, src, out) && src + |out| <= LOW_VA_LIMIT
    ensures forall k | 0 <= k < |out| :: LoadedFrom(m, r, lay, src + k, out[k])
  {
    forall k | 0 <= k < |out| ensures LoadedFrom(m, r, lay, src + k, out[k]) {
      assert ReadsAt(m', r, src, out, k) && KeepsByte(m, m', r, lay, src + k);
    }
  }

  lemma PageOfChunk(va: nat, x: nat)
    requires va % 4096 == 0 && x < 4096
    ensures (va + x) / 4096 == va / 4096 && (va + x) % 4096 == x
  {
  }

  lemma ReadsContent(m: Mem, r: Frame, va: nat, off: nat, n: nat, page: seq<Byte>)
    requires va % 4096 == 0 && off + n <= 4096 == |page| && Content(m, r, PageAt(va / 4096)) == Some(page)
    ensures ReadsAs(m, r, va + off, page[off..off + n])
  {
    var bytes, a := page[off..off + n], va + off;
    forall k | 0 <= k < |bytes| ensures ReadsAt(m, r, a, bytes, k) { PageOfChunk(va, off + k); }
  }

  /** A store of `bytes` at `va + off` is what a user then reads there, and changes nothing else. */
  lemma StoreWrites(m: Mem, m': Mem, r: Frame, lay: Layout, va: nat, off: nat, bytes: seq<Byte>)
    requires IsRoot(m, r) && va % 4096 == 0 && va < LOW_VA_LIMIT && off + |bytes| <= 4096
    requires SameContentExcept(m, m', r, PageAt(va / 4096)) && Content(m, r, PageAt(va / 4096)).Some?
    requires |Content(m, r, PageAt(va / 4096)).value| == 4096
    requires Content(m', r, PageAt(va / 4096)) == Some(Patch(Content(m, r, PageAt(va / 4096)).value, off, bytes))
    ensures KeepsOutside(m, m', r, lay, va + off, va + off + |bytes|)
    ensures ReadsAs(m', r, va + off, bytes)
  {
    forall a: nat | a < LOW_VA_LIMIT && !(va + off <= a < va + off + |bytes|) ensures KeepsByte(m, m', r, lay, a) {
      AddressPage(a);
      if PageAt(a / 4096) == PageAt(va / 4096) {
        SamePage(a, va);
        assert a == va + a % 4096;
      }
    }
    ReadsContent(m', r, va, off, |bytes|, Patch(Content(m, r, PageAt(va / 4096)).value, off, bytes));
    assert Patch(Content(m, r, PageAt(va / 4096)).value, off, bytes)[off..off + |bytes|] == bytes;
  }

  /** Bytes read from one address and the next chunk read together. */
  lemma ReadsMore(m: Mem, m': Mem, r: Frame, lay: Layout, a: nat, got: seq<Byte>, chunk: seq<Byte>, hi: nat)
    requires ReadsAs(m, r, a, got) && KeepsOutside(m, m', r, lay, a + |got|, hi) && ReadsAs(m', r, a + |got|, chunk)
    requires a + |got| <= LOW_VA_LIMIT
    ensures ReadsAs(m', r, a, got + chunk)
  {
    forall k | 0 <= k < |got + chunk| ensures ReadsAt(m', r, a, got + chunk, k) {
      if k < |got| { assert ReadsAt(m, r, a, got, k) && KeepsByte(m, m', r, lay, a + k); }
      else { assert ReadsAt(m', r, a + |got|, chunk, k - |got|); }
    }
  }

  lemma KeepsTrans(m: Mem, m1: Mem, m': Mem, r: Frame, lay: Layout, lo: nat, mid: nat, hi: nat)
    requires KeepsOutside(m, m1, r, lay, lo, mid) && KeepsOutside(m1, m', r, lay, mid, hi) && lo <= mid <= hi
    ensures KeepsOutside(m, m', r, lay, lo, hi)
  {
    forall a: nat | a < LOW_VA_LIMIT && !(lo <= a < hi)
      ensures KeepsByte(m, m', r, lay, a)
    {
      assert KeepsByte(m, m1, r, lay, a) && KeepsByte(m1, m', r, lay, a);
    }
  }

  lemma OthersTrans(m: Mem, m1: Mem, m': Mem, r: Frame)
    requires OthersSame(m, m1, r) && OthersSame(m1, m', r)
    ensures OthersSame(m, m', r)
  {
    forall r': Frame, pg: Page | IsRoot(m, r') && r' != r && PageOk(pg)
      ensures SamePageOf(m, m', r', pg)
    {
      assert SamePageOf(m, m1, r', pg) && SamePageOf(m1, m', r', pg);
    }
  }

  lemma KeepsWider(m: Mem, m': Mem, r: Frame, lay: Layout, lo: nat, n: nat)
    requires KeepsOutside(m, m', r, lay, lo, lo)
    ensures KeepsOutside(m, m', r, lay, lo, lo + n)
  {
  }

  lemma CowOthers(m: Mem, m1: Mem, m': Mem, r: Frame, lay: Layout, pg: Page)
    requires IsRoot(m, r) && PageOk(pg) && OthersSame(m, m1, r) && SameContentExcept(m, m1, r, pg)
    requires m' == m1 || Privatized(m1, m', r, pg)
    requires forall x :: KeepsOutside(m, m1, r, lay, x, x)
    ensures OthersSame(m, m', r) && SameContentExcept(m, m', r, pg) && forall x :: KeepsOutside(m, m', r, lay, x, x)
    ensures Lookup(m1, r, pg).valid ==> Lookup(m', r, pg).valid
  {
    if m' != m1 {
      forall x: nat ensures KeepsOutside(m, m', r, lay, x, x) {
        SameContentKeeps(m1, m', r, lay, x, x);
        KeepsTrans(m, m1, m', r, lay, x, x, x);
      }
      forall r': Frame, pg': Page | IsRoot(m, r') && PageOk(pg') && (r', pg') != (r, pg)
        ensures Content(m', r', pg') == Content(m, r', pg') && (r' != r ==> SamePageOf(m, m', r', pg'))
      {
        assert IsRoot(m1, r') && Content(m1, r', pg') == Content(m, r', pg');
        if r' != r { assert SamePageOf(m, m1, r', pg'); }
      }
    }
  }

  lemma StoreOthers(m: Mem, m1: Mem, m': Mem, r: Frame, pg: Page)
    requires OthersSame(m, m1, r) && SameView(m1, m') && SameContentExcept(m1, m', r, pg)
    ensures OthersSame(m, m', r)
  {
    forall r': Frame, pg': Page | IsRoot(m, r') && r' != r && PageOk(pg') ensures SamePageOf(m, m', r', pg') {
      assert IsRoot(m1, r') && SamePageOf(m, m1, r', pg');
    }
  }

  lemma KeepsWithin(m: Mem, m': Mem, r: Frame, lay: Layout, lo: nat, mid: nat, hi: nat)
    requires KeepsOutside(m, m', r, lay, lo, mid) && mid <= hi
    ensures KeepsOutside(m, m', r, lay, lo, hi)
  {
  }

  lemma ReadsBack(m: Mem, held: multiset<Frame>, r: Frame, va: nat, off: nat, n: nat)
    requires Inv(m, held) && IsRoot(m, r) && va < LOW_VA_LIMIT && va % 4096 == 0 && off + n <= 4096
    requires Lookup(m, r, PageAt(va / 4096)).valid
    ensures var f := Lookup(m, r, PageAt(va / 4096)).frame;
      f < NFRAMES && |PageBytes(m, f)| == 4096 && ReadsAs(m, r, va + off, PageBytes(m, f)[off..off + n])
  {
    AddressPage(va);
    MappedLeaf(m, held, r, PageAt(va / 4096));
    ReadsContent(m, r, va, off, n, PageBytes(m, Lookup(m, r, PageAt(va / 4096)).frame));
  }

  lemma KeepsAnywhere(m: Mem, m': Mem, r: Frame, lay: Layout, x: nat)
    requires KeepsOutside(m, m', r, lay, 0, 0)
    ensures KeepsOutside(m, m', r, lay, x, x)
  {
  }

  /** `copyout` after `done` bytes. */
  ghost predicate CopiedOut(m0: Mem, m: Mem, r: Frame, lay: Layout, dst: nat, src: seq<Byte>, done: nat) {
    && done <= |src| && OthersSame(m0, m, r) && KeepsOutside(m0, m, r, lay, dst, dst + done)
    && ReadsAs(m, r, dst, src[..done])
  }

  lemma CopiedOutStep(m0: Mem, m: Mem, m': Mem, r: Frame, lay: Layout, dst: nat, src: seq<Byte>, done: nat, n: nat,
      ok: bool)
    requires CopiedOut(m0, m, r, lay, dst, src, done) && done + n <= |src| && dst + |src| <= LOW_VA_LIMIT
    requires OthersSame(m, m', r) && KeepsOutside(m, m', r, lay, dst + done, dst + done + n)
    requires ok ==> ReadsAs(m', r, dst + done, src[done..done + n])
    ensures OthersSame(m0, m', r) && KeepsOutside(m0, m', r, lay, dst, dst + |src|)
    ensures ok ==> CopiedOut(m0, m', r, lay, dst, src, done + n)
  {
    OthersTrans(m0, m, m', r);
    KeepsTrans(m0, m, m', r, lay, dst, dst + done, dst + done + n);
    KeepsWithin(m0, m', r, lay, dst, dst + done + n, dst + |src|);
    if ok {
      ReadsMore(m, m', r, lay, dst, src[..done], src[done..done + n], dst + done + n);
      assert src[..done] + src[done..done + n] == src[..done + n];
    }
  }

  /** `copyin` after the bytes `got`. */
  ghost predicate CopiedIn(m0: Mem, m: Mem, r: Frame, lay: Layout, src: nat, got: seq<Byte>) {
    OthersSame(m0, m, r) && KeepsOutside(m0, m, r, lay, 0, 0) && ReadsAs(m, r, src, got)
  }

  lemma CopiedInStep(m0: Mem, m: Mem, m': Mem, r: Frame, lay: Layout, src: nat, got: seq<Byte>,
      chunk: Option<seq<Byte>>)
    requires CopiedIn(m0, m, r, lay, src, got) && src + |got| <= LOW_VA_LIMIT
    requires OthersSame(m, m', r) && KeepsOutside(m, m', r, lay, 0, 0)
    requires chunk.Some? ==> ReadsAs(m', r, src + |got|, chunk.value)
    ensures OthersSame(m0, m', r) && KeepsOutside(m0, m', r, lay, 0, 0)
    ensures chunk.Some? ==> CopiedIn(m0, m', r, lay, src, got + chunk.value)
  {
    OthersTrans(m0, m, m', r);
    KeepsTrans(m0, m, m', r, lay, 0, 0, 0);
    if chunk.Some? {
      KeepsAnywhere(m, m', r, lay, src + |got|);
      ReadsMore(m, m', r, lay, src, got, chunk.value, src + |got|);
    }
  }
}
