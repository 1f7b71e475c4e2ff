/** Physical page frames, page-table pages and user pages as one value.

    A frame is an index into DRAM.  Every frame has two views: `tab`, its 512
    page-table entries, and `data`, its 4096 bytes.  `Inv` keeps the frames used as
    tables apart from the frames used as user data, so no frame is ever written
    through both views while it is allocated.
 */
module Frames {

  const PGSIZE: nat := 4096
  const ENTRIES: nat := 512
  const NFRAMES: nat := 32256

  type Frame = nat
  type Byte = b: int | 0 <= b < 256

  datatype Option<+T> = None | Some(value: T)

  /** The page-table entry fields that fork, fault resolution and user copies look at. */
  datatype Pte = Pte(valid: bool, frame: Frame, w: bool, d: bool, cow: bool, user: bool, nr: bool, nx: bool)

  const NoPte := Pte(false, 0, false, false, false, false, false, false)

  function ZeroTable(): (z: seq<Pte>)
    ensures |z| == ENTRIES && forall i :: 0 <= i < ENTRIES ==> z[i] == NoPte
  {
    seq(ENTRIES, _ => NoPte)
  }

  function ZeroPage(): (z: seq<Byte>)
    ensures |z| == PGSIZE && forall i :: 0 <= i < PGSIZE ==> z[i] == 0
  {
    seq(PGSIZE, _ => 0)
  }

  /** Where a page-table page hangs: its level (2 is a root), the root above it, and
      the table and entry that point to it. */
  datatype Node = Node(level: int, root: Frame, parent: Frame, index: nat)

  /** The state of physical memory.  `free` is the free list from its head; `base` is the
      first frame above the kernel image; `nodes` records the page-table pages. */
  datatype Mem = Mem(
    base: nat,
    free: seq<Frame>,
    refcnt: seq<int>,
    tab: seq<seq<Pte>>,
    data: seq<seq<Byte>>,
    nodes: map<Frame, Node>)

  function Entry(m: Mem, t: Frame, i: nat): Pte {
    if t < |m.tab| && i < |m.tab[t]| then m.tab[t][i] else NoPte
  }

  function Ref(m: Mem, f: Frame): int {
    if f < |m.refcnt| then m.refcnt[f] else 0
  }

  ghost predicate IsLeafTable(m: Mem, t: Frame) {
    t in m.nodes && m.nodes[t].level == 0
  }

  /** Slot (t, i) is a leaf entry that maps a page. */
  ghost predicate IsLeaf(m: Mem, t: Frame, i: nat) {
    IsLeafTable(m, t) && i < ENTRIES && Entry(m, t, i).valid
  }

  /** All leaf entries, over all address spaces, that map frame `f`. */
  ghost function Refs(m: Mem, f: Frame): set<(Frame, nat)> {
    set t, i | t in m.nodes && 0 <= i < ENTRIES && IsLeaf(m, t, i) && Entry(m, t, i).frame == f :: (t, i)
  }

  ghost predicate Managed(m: Mem, f: Frame) {
    m.base <= f < NFRAMES
  }

  /** A frame that is neither free nor a page-table page. */
  ghost predicate InUse(m: Mem, f: Frame) {
    Managed(m, f) && f !in m.free && f !in m.nodes
  }

  ghost predicate Shape(m: Mem) {
    && m.base <= NFRAMES
    && |m.refcnt| == |m.tab| == |m.data| == NFRAMES
    && (forall f :: 0 <= f < NFRAMES ==> |m.tab[f]| == ENTRIES)
    && (forall f :: 0 <= f < NFRAMES ==> |m.data[f]| == PGSIZE)
  }

  ghost predicate FreeOk(m: Mem) {
    && (forall i :: 0 <= i < |m.free| ==> Managed(m, m.free[i]) && m.free[i] !in m.nodes)
    && (forall i, j :: 0 <= i < j < |m.free| ==> m.free[i] != m.free[j])
  }

  /** A valid directory entry points to the table one level down that translates its slice. */
  ghost predicate ChildOk(m: Mem, t: Frame, i: nat)
    requires t in m.nodes
  {
    var n := m.nodes[t];
    var c := Entry(m, t, i).frame;
    n.level > 0 && c in m.nodes && m.nodes[c] == Node(n.level - 1, n.root, t, i)
  }

  /** A table below a root is reached through exactly the entry its node names. */
  ghost predicate ParentOk(m: Mem, c: Frame)
    requires c in m.nodes
  {
    var n := m.nodes[c];
    && n.parent in m.nodes
    && m.nodes[n.parent].level == n.level + 1
    && m.nodes[n.parent].root == n.root
    && n.index < ENTRIES
    && Entry(m, n.parent, n.index).valid
    && Entry(m, n.parent, n.index).frame == c
  }

  ghost predicate NodeOk(m: Mem, t: Frame)
    requires t in m.nodes
  {
    var n := m.nodes[t];
    && Managed(m, t)
    && 0 <= n.level <= 2
    && Ref(m, t) == 1
    && n.root in m.nodes && m.nodes[n.root].level == 2
    && (n.level == 2 ==> n == Node(2, t, t, 0))
    && (n.level < 2 ==> ParentOk(m, t))
  }

  /** The page-table pages form disjoint trees of depth three. */
  ghost predicate Tree(m: Mem) {
    && (forall t {:trigger NodeOk(m, t)} :: t in m.nodes ==> NodeOk(m, t))
    && (forall t, i {:trigger ChildOk(m, t, i)} ::
          t in m.nodes && m.nodes[t].level > 0 && 0 <= i < ENTRIES && Entry(m, t, i).valid ==> ChildOk(m, t, i))
  }

  /** What every leaf entry keeps: it maps an allocated user frame, D is set iff W is,
      copy-on-write entries are not writable, and a writable entry is the only one that
      maps its frame. */
  ghost predicate LeafOk(m: Mem, t: Frame, i: nat) {
    var p := Entry(m, t, i);
    InUse(m, p.frame) && p.d == p.w && !(p.w && p.cow) && (p.w ==> Refs(m, p.frame) == {(t, i)})
  }

  ghost predicate Leaves(m: Mem) {
    forall t, i {:trigger LeafOk(m, t, i)} :: IsLeaf(m, t, i) ==> LeafOk(m, t, i)
  }

  /** Reference counts are exact: a frame in use is counted once for every leaf that maps it
      and once for every reference a running kernel path has in hand (`held`). */
  ghost predicate Counts(m: Mem, held: multiset<Frame>) {
    && (forall f {:trigger CountOk(m, held, f)} :: InUse(m, f) ==> CountOk(m, held, f))
    && (forall f :: f in held ==> InUse(m, f))
  }

  ghost predicate CountOk(m: Mem, held: multiset<Frame>, f: Frame) {
    Ref(m, f) == |Refs(m, f)| + held[f]
  }

  ghost predicate Inv(m: Mem, held: multiset<Frame>) {
    Shape(m) && FreeOk(m) && Tree(m) && Leaves(m) && Counts(m, held)
  }

  // ----- kalloc.c -----

  function Upd<T>(s: seq<T>, i: nat, v: T): seq<T> {
    if i < |s| then s[i := v] else s
  }

  function Head(m: Mem): Frame {
    if m.free == [] then 0 else m.free[0]
  }

  /** kalloc hands out the head of the list with count 1 and contents zero. */
  function Kalloc(m: Mem): Mem {
    if m.free == [] then m else
    var f := m.free[0];
    m.(free := m.free[1..], refcnt := Upd(m.refcnt, f, 1), tab := Upd(m.tab, f, ZeroTable()),
        data := Upd(m.data, f, ZeroPage()))
  }

  /** kfree drops one reference, and returns the zeroed frame to the list with the last one.
      The count of a returned frame is left as it was. */
  function Kfree(m: Mem, f: Frame): Mem {
    if Ref(m, f) > 1 then m.(refcnt := Upd(m.refcnt, f, Ref(m, f) - 1))
    else m.(free := [f] + m.free, tab := Upd(m.tab, f, ZeroTable()), data := Upd(m.data, f, ZeroPage()))
  }

  function Inc(m: Mem, f: Frame, k: int): Mem {
    m.(refcnt := Upd(m.refcnt, f, Ref(m, f) + k))
  }

  function SetEntry(m: Mem, t: Frame, i: nat, p: Pte): Mem {
    if t < |m.tab| then m.(tab := m.tab[t := Upd(m.tab[t], i, p)]) else m
  }

  function PageBytes(m: Mem, f: Frame): seq<Byte> {
    if f < |m.data| then m.data[f] else []
  }

  function SetPage(m: Mem, f: Frame, page: seq<Byte>): Mem {
    m.(data := Upd(m.data, f, page))
  }

  // ----- each primitive keeps the invariant -----

  /** Two states with the same tables, entry for entry. */
  ghost predicate SameTables(m: Mem, m': Mem) {
    && m'.base == m.base && m'.nodes == m.nodes
    && forall t, i {:trigger Entry(m', t, i)} | t in m.nodes :: Entry(m', t, i) == Entry(m, t, i)
  }

  lemma SameRefs(m: Mem, m': Mem)
    requires SameTables(m, m')
    ensures forall f :: Refs(m', f) == Refs(m, f)
  {
    forall t: Frame, i: nat ensures IsLeaf(m', t, i) <==> IsLeaf(m, t, i) {}
  }

  lemma SameTree(m: Mem, m': Mem)
    requires SameTables(m, m') && Tree(m)
    requires forall t | t in m.nodes :: Ref(m', t) == Ref(m, t)
    ensures Tree(m')
  {
    forall t: Frame | t in m'.nodes ensures NodeOk(m', t) { assert NodeOk(m, t); }
    forall t: Frame, i: nat | t in m'.nodes && m'.nodes[t].level > 0 && 0 <= i < ENTRIES && Entry(m', t, i).valid
      ensures ChildOk(m', t, i)
    {
      assert ChildOk(m, t, i);
    }
  }

  lemma SameLeaves(m: Mem, m': Mem)
    requires SameTables(m, m') && Leaves(m)
    requires forall f | InUse(m, f) && Refs(m, f) != {} :: InUse(m', f)
    ensures Leaves(m')
  {
    SameRefs(m, m');
    forall t: Frame, i: nat | IsLeaf(m', t, i) ensures LeafOk(m', t, i) {
      assert LeafOk(m, t, i);
      assert (t, i) in Refs(m, Entry(m, t, i).frame);
    }
  }

  /** No leaf maps a frame that is not in use. */
  lemma NoRefs(m: Mem, f: Frame)
    requires Leaves(m) && !InUse(m, f)
    ensures Refs(m, f) == {}
  {
    forall t: Frame, i: nat | IsLeaf(m, t, i) ensures Entry(m, t, i).frame != f { assert LeafOk(m, t, i); }
  }

  lemma KallocKeeps(m: Mem, held: multiset<Frame>)
    requires Inv(m, held) && m.free != []
    ensures var f := m.free[0]; var m' := Kalloc(m);
      Inv(m', held + multiset{f}) && Refs(m', f) == {} && held[f] == 0 && InUse(m', f) && SameTables(m, m')
  {
    var f := m.free[0];
    var m' := Kalloc(m);
    assert f in m.free;
    assert forall g :: g in m'.free <==> g in m.free && g != f;
    assert Shape(m') && FreeOk(m');
    assert SameTables(m, m');
    SameTree(m, m');
    SameLeaves(m, m');
    NoRefs(m, f);
    SameRefs(m, m');
    var held' := held + multiset{f};
    forall g: Frame | InUse(m', g) ensures CountOk(m', held', g) {
      if g != f { assert CountOk(m, held, g); }
    }
  }

  lemma KfreeKeeps(m: Mem, held: multiset<Frame>, f: Frame)
    requires Inv(m, held) && f in held
    ensures Inv(Kfree(m, f), held - multiset{f}) && SameTables(m, Kfree(m, f))
  {
    var m' := Kfree(m, f);
    var held' := held - multiset{f};
    assert InUse(m, f);
    assert CountOk(m, held, f);
    assert SameTables(m, m');
    assert forall g :: g in m'.free <==> g in m.free || (m.refcnt[f] <= 1 && g == f);
    assert Shape(m') && FreeOk(m');
    SameRefs(m, m');
    SameTree(m, m');
    SameLeaves(m, m');
    forall g: Frame | InUse(m', g) ensures CountOk(m', held', g) {
      assert CountOk(m, held, g);
    }
  }

  /** Taking or dropping one more reference to a frame that stays in use. */
  lemma IncKeeps(m: Mem, held: multiset<Frame>, f: Frame, k: int, held': multiset<Frame>)
    requires Inv(m, held) && InUse(m, f)
    requires (k == 1 && held' == held + multiset{f}) || (k == -1 && f in held && held' == held - multiset{f})
    ensures Inv(Inc(m, f, k), held') && SameTables(m, Inc(m, f, k))
  {
    var m' := Inc(m, f, k);
    assert SameTables(m, m');
    SameRefs(m, m');
    SameTree(m, m');
    SameLeaves(m, m');
    forall g: Frame | InUse(m', g) ensures CountOk(m', held', g) { assert CountOk(m, held, g); }
  }

  lemma SetPageKeeps(m: Mem, held: multiset<Frame>, f: Frame, page: seq<Byte>)
    requires Inv(m, held) && |page| == PGSIZE
    ensures Inv(SetPage(m, f, page), held) && SameTables(m, SetPage(m, f, page))
  {
    var m' := SetPage(m, f, page);
    assert SameTables(m, m');
    SameRefs(m, m');
    SameTree(m, m');
    SameLeaves(m, m');
    forall g: Frame | InUse(m', g) ensures CountOk(m', held, g) { assert CountOk(m, held, g); }
  }

  lemma SetLeafRefs(m: Mem, t: Frame, i: nat, p: Pte)
    requires Shape(m) && IsLeafTable(m, t) && t < NFRAMES && i < ENTRIES
    ensures forall a, b :: Entry(SetEntry(m, t, i, p), a, b) == if a == t && b == i then p else Entry(m, a, b)
    ensures forall f ::
        Refs(SetEntry(m, t, i, p), f) == Refs(m, f) - {(t, i)} + if p.valid && p.frame == f then {(t, i)} else {}
  {
    var m' := SetEntry(m, t, i, p);
    assert forall a: Frame, b: nat :: IsLeaf(m', a, b) <==> if a == t && b == i then p.valid else IsLeaf(m, a, b);
  }

  lemma SetLeafTree(m: Mem, t: Frame, i: nat, p: Pte)
    requires Shape(m) && Tree(m) && IsLeafTable(m, t) && t < NFRAMES && i < ENTRIES
    ensures Tree(SetEntry(m, t, i, p))
  {
    var m' := SetEntry(m, t, i, p);
    SetLeafRefs(m, t, i, p);
    forall a: Frame | a in m'.nodes ensures NodeOk(m', a) { assert NodeOk(m, a); }
    forall a: Frame, b: nat | a in m'.nodes && m'.nodes[a].level > 0 && 0 <= b < ENTRIES && Entry(m', a, b).valid
      ensures ChildOk(m', a, b)
    {
      assert ChildOk(m, a, b);
    }
  }

  lemma SetLeafCount(m: Mem, t: Frame, i: nat, p: Pte, g: Frame)
    requires Shape(m) && IsLeafTable(m, t) && t < NFRAMES && i < ENTRIES
    ensures var was := Entry(m, t, i);
      |Refs(SetEntry(m, t, i, p), g)| ==
        |Refs(m, g)| - (if was.valid && was.frame == g then 1 else 0) + (if p.valid && p.frame == g then 1 else 0)
  {
    SetLeafRefs(m, t, i, p);
    assert (t, i) in Refs(m, g) <==> Entry(m, t, i).valid && Entry(m, t, i).frame == g;
  }

  /** An entry that may be written into leaf slot (t, i). */
  ghost predicate Mappable(m: Mem, t: Frame, i: nat, p: Pte) {
    && InUse(m, p.frame) && p.d == p.w && !(p.w && p.cow)
    && (p.w ==> Refs(m, p.frame) <= {(t, i)})
    && forall s | s in Refs(m, p.frame) && s != (t, i) :: !Entry(m, s.0, s.1).w
  }

  lemma SetLeafLeaves(m: Mem, t: Frame, i: nat, p: Pte)
    requires Shape(m) && Leaves(m) && IsLeafTable(m, t) && t < NFRAMES && i < ENTRIES
    requires p.valid ==> Mappable(m, t, i, p)
    ensures Leaves(SetEntry(m, t, i, p))
  {
    var m' := SetEntry(m, t, i, p);
    SetLeafRefs(m, t, i, p);
    forall a: Frame, b: nat | IsLeaf(m', a, b) ensures LeafOk(m', a, b) {
      if (a, b) != (t, i) {
        assert LeafOk(m, a, b);
        assert (a, b) in Refs(m, Entry(m, a, b).frame);
      }
    }
  }

  ghost function Held(p: Pte): multiset<Frame> {
    if p.valid then multiset{p.frame} else multiset{}
  }

  lemma SetLeafCounts(m: Mem, held: multiset<Frame>, t: Frame, i: nat, p: Pte, held': multiset<Frame>)
    requires Shape(m) && Counts(m, held) && IsLeafTable(m, t) && t < NFRAMES && i < ENTRIES
    requires held' + Held(p) == held + Held(Entry(m, t, i))
    requires Entry(m, t, i).valid ==> InUse(m, Entry(m, t, i).frame)
    ensures Counts(SetEntry(m, t, i, p), held')
  {
    var m' := SetEntry(m, t, i, p);
    forall g: Frame ensures held'[g] + Held(p)[g] == held[g] + Held(Entry(m, t, i))[g] {
      assert (held' + Held(p))[g] == (held + Held(Entry(m, t, i)))[g];
    }
    forall g: Frame | InUse(m', g) ensures CountOk(m', held', g) {
      assert CountOk(m, held, g);
      SetLeafCount(m, t, i, p, g);
    }
    forall g: Frame | g in held' ensures InUse(m', g) {
      assert g in held || Held(Entry(m, t, i))[g] > 0;
    }
  }

  /** Rewriting a leaf entry.  The reference of the old entry moves to `held`, the reference of
      the new entry comes out of it. */
  lemma SetLeafKeeps(m: Mem, held: multiset<Frame>, t: Frame, i: nat, p: Pte, held': multiset<Frame>)
    requires Inv(m, held) && IsLeafTable(m, t) && t < NFRAMES && i < ENTRIES
    requires p.valid ==> Mappable(m, t, i, p)
    requires held' + Held(p) == held + Held(Entry(m, t, i))
    ensures Inv(SetEntry(m, t, i, p), held')
  {
    assert Entry(m, t, i).valid ==> LeafOk(m, t, i);
    SetLeafTree(m, t, i, p);
    SetLeafLeaves(m, t, i, p);
    SetLeafCounts(m, held, t, i, p, held');
  }
}
