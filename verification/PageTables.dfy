/** Three-level page tables over physical memory, and what each of them translates.

    A virtual page is named by its three table indices.  `Lookup` is the abstract view:
    a partial map from (root, page) to a leaf entry.
 */
module PageTables {
  import opened Frames

  datatype Page = Page(i2: nat, i1: nat, i0: nat)

  ghost predicate PageOk(pg: Page) {
    pg.i2 < ENTRIES && pg.i1 < ENTRIES && pg.i0 < ENTRIES
  }

  ghost predicate IsRoot(m: Mem, r: Frame) {
    r in m.nodes && m.nodes[r].level == 2
  }

  /** `walk` without allocation, down to the leaf table. */
  function LeafTable(m: Mem, r: Frame, pg: Page): Option<Frame> {
    var e2 := Entry(m, r, pg.i2);
    if !e2.valid then None else
    var e1 := Entry(m, e2.frame, pg.i1);
    if !e1.valid then None else Some(e1.frame)
  }

  function Lookup(m: Mem, r: Frame, pg: Page): Pte {
    var t := LeafTable(m, r, pg);
    if t.Some? && Entry(m, t.value, pg.i0).valid then Entry(m, t.value, pg.i0) else NoPte
  }

  /** Walking down reaches the leaf table whose node names exactly this root and these indices. */
  lemma WalkNode(m: Mem, r: Frame, pg: Page)
    requires Shape(m) && Tree(m) && IsRoot(m, r) && PageOk(pg) && LeafTable(m, r, pg).Some?
    ensures var t := LeafTable(m, r, pg).value;
      && IsLeafTable(m, t) && t < NFRAMES && m.nodes[t].root == r && m.nodes[t].index == pg.i1
      && m.nodes[t].parent in m.nodes && m.nodes[m.nodes[t].parent].index == pg.i2
      && m.nodes[m.nodes[t].parent].parent == r
  {
    assert NodeOk(m, r);
    assert ChildOk(m, r, pg.i2);
    var t1 := Entry(m, r, pg.i2).frame;
    assert NodeOk(m, t1);
    assert ChildOk(m, t1, pg.i1);
    assert NodeOk(m, Entry(m, t1, pg.i1).frame);
  }

  /** Every leaf table is reached by walking from the root its node names. */
  lemma NodeWalk(m: Mem, t: Frame, i0: nat)
    requires Shape(m) && Tree(m) && IsLeafTable(m, t)
    ensures var n := m.nodes[t];
      && IsRoot(m, n.root) && n.parent in m.nodes
      && PageOk(Page(m.nodes[n.parent].index, n.index, 0))
      && LeafTable(m, n.root, Page(m.nodes[n.parent].index, n.index, i0)) == Some(t)
  {
    assert NodeOk(m, t);
    var t1 := m.nodes[t].parent;
    assert NodeOk(m, t1);
    assert NodeOk(m, m.nodes[t1].parent);
  }

  /** No two (root, page) pairs share a leaf slot: the tables are trees without sharing. */
  lemma SlotUnique(m: Mem, r: Frame, pg: Page, r': Frame, pg': Page)
    requires Shape(m) && Tree(m) && IsRoot(m, r) && IsRoot(m, r') && PageOk(pg) && PageOk(pg')
    requires LeafTable(m, r, pg).Some? && LeafTable(m, r', pg') == LeafTable(m, r, pg) && pg.i0 == pg'.i0
    ensures r == r' && pg == pg'
  {
    WalkNode(m, r, pg);
    WalkNode(m, r', pg');
  }

  // ----- walk with allocation -----

  function DirPte(f: Frame): Pte {
    NoPte.(valid := true, frame := f)
  }

  function NodeAt(m: Mem, t: Frame): Node {
    if t in m.nodes then m.nodes[t] else Node(0, 0, 0, 0)
  }

  /** A directory entry is filled with a fresh zeroed table. */
  function NewTable(m: Mem, t: Frame, i: nat): Mem {
    var f := Head(m);
    SetEntry(Kalloc(m), t, i, DirPte(f)).(nodes := m.nodes[f := Node(NodeAt(m, t).level - 1, NodeAt(m, t).root, t, i)])
  }

  ghost predicate CanGrow(m: Mem, t: Frame, i: nat) {
    && Shape(m) && FreeOk(m) && Tree(m) && m.free != [] && t in m.nodes && m.nodes[t].level > 0 && i < ENTRIES
    && !Entry(m, t, i).valid
  }

  lemma NewTableEntries(m: Mem, t: Frame, i: nat)
    requires CanGrow(m, t, i)
    ensures t < NFRAMES && t != m.free[0] && m.free[0] !in m.nodes
    ensures forall a, b ::
      Entry(NewTable(m, t, i), a, b) ==
        if a == t && b == i then DirPte(m.free[0]) else if a == m.free[0] then NoPte else Entry(m, a, b)
    ensures forall a :: a in m.nodes ==> Ref(NewTable(m, t, i), a) == Ref(m, a)
  {
    assert NodeOk(m, t);
    var f := m.free[0];
    var m1 := Kalloc(m);
    assert forall a, b :: Entry(m1, a, b) == if a == f then NoPte else Entry(m, a, b);
  }

  lemma NewTableTree(m: Mem, t: Frame, i: nat)
    requires CanGrow(m, t, i)
    ensures t < NFRAMES && t != m.free[0]
    ensures Tree(NewTable(m, t, i))
  {
    NewTableEntries(m, t, i);
    var m' := NewTable(m, t, i);
    var f := m.free[0];
    forall a: Frame | a in m'.nodes ensures NodeOk(m', a) {
      assert NodeOk(m, t);
      if a != f { assert NodeOk(m, a); }
    }
    forall a: Frame, b: nat | a in m'.nodes && m'.nodes[a].level > 0 && 0 <= b < ENTRIES && Entry(m', a, b).valid
      ensures ChildOk(m', a, b)
    {
      if (a, b) != (t, i) { assert ChildOk(m, a, b); }
    }
  }

  lemma NewTableKeeps(m: Mem, held: multiset<Frame>, t: Frame, i: nat)
    requires Inv(m, held) && m.free != [] && t in m.nodes && m.nodes[t].level > 0 && i < ENTRIES
    requires !Entry(m, t, i).valid
    ensures t < NFRAMES && t != m.free[0]
    ensures Inv(NewTable(m, t, i), held)
    ensures forall f :: Refs(NewTable(m, t, i), f) == Refs(m, f)
  {
    NewTableEntries(m, t, i);
    NewTableTree(m, t, i);
    var f := m.free[0];
    var m1 := Kalloc(m);
    var m' := NewTable(m, t, i);
    KallocKeeps(m, held);
    assert forall a: Frame, b: nat :: IsLeaf(m', a, b) <==> IsLeaf(m, a, b);
    assert forall g :: Refs(m', g) == Refs(m, g);
    SameRefs(m, m1);
    forall a: Frame, b: nat | IsLeaf(m', a, b) ensures LeafOk(m', a, b) {
      assert LeafOk(m1, a, b);
      assert (a, b) in Refs(m1, Entry(m1, a, b).frame);
    }
    forall g: Frame | InUse(m', g) ensures CountOk(m', held, g) {
      assert CountOk(m1, held + multiset{f}, g);
    }
  }

  /** Every address space translates as before. */
  ghost predicate SameView(m: Mem, m': Mem) {
    && m'.base == m.base
    && (forall r | IsRoot(m, r) :: IsRoot(m', r))
    && (forall r, pg | IsRoot(m, r) && PageOk(pg) :: Lookup(m', r, pg) == Lookup(m, r, pg))
  }

  /** Frames in use stay in use and keep their bytes. */
  ghost predicate KeepsBytes(m: Mem, m': Mem) {
    forall g | InUse(m, g) :: InUse(m', g) && PageBytes(m', g) == PageBytes(m, g)
  }

  lemma NewTableView(m: Mem, t: Frame, i: nat)
    requires CanGrow(m, t, i)
    ensures t < NFRAMES && t != m.free[0]
    ensures SameView(m, NewTable(m, t, i)) && KeepsBytes(m, NewTable(m, t, i))
  {
    NewTableEntries(m, t, i);
    var m' := NewTable(m, t, i);
    assert m.free[0] in m.free && forall g :: g in m'.free ==> g in m.free;
    forall r: Frame, pg: Page | IsRoot(m, r) && PageOk(pg) ensures Lookup(m', r, pg) == Lookup(m, r, pg) {
      if Entry(m, r, pg.i2).valid {
        assert ChildOk(m, r, pg.i2);
        var t1 := Entry(m, r, pg.i2).frame;
        if Entry(m, t1, pg.i1).valid { assert ChildOk(m, t1, pg.i1); }
      }
    }
  }

  /** One level of `walk`: follow a valid entry, or fill it with a new table. */
  function Descend(m: Mem, t: Frame, i: nat): (Mem, Option<Frame>) {
    if Entry(m, t, i).valid then (m, Some(Entry(m, t, i).frame))
    else if m.free == [] then (m, None)
    else (NewTable(m, t, i), Some(Head(m)))
  }

  ghost predicate IsTable(m: Mem, t: Frame, level: nat) {
    t in m.nodes && m.nodes[t].level == level
  }

  lemma TableInRange(m: Mem, t: Frame)
    requires Shape(m) && FreeOk(m) && Tree(m) && t in m.nodes
    ensures t < NFRAMES && t !in m.free
  {
    assert NodeOk(m, t);
    assert forall k :: 0 <= k < |m.free| ==> m.free[k] != t;
  }

  /** What a step of `walk` does to memory: nothing any address space can see, no leaf added. */
  ghost predicate Grows(m: Mem, m': Mem, held: multiset<Frame>) {
    && Inv(m', held) && SameView(m, m') && KeepsBytes(m, m')
    && (forall f :: Refs(m', f) == Refs(m, f))
    && (forall t | t in m.nodes :: t in m'.nodes && m'.nodes[t] == m.nodes[t])
    && (forall t, i | t in m.nodes && Entry(m, t, i).valid :: Entry(m', t, i) == Entry(m, t, i))
    && |m'.free| <= |m.free|
  }

  lemma DescendGrows(m: Mem, held: multiset<Frame>, t: Frame, i: nat)
    requires Inv(m, held) && t in m.nodes && m.nodes[t].level > 0 && i < ENTRIES
    ensures t < NFRAMES && (m.free != [] ==> t != m.free[0])
    ensures var (m', c) := Descend(m, t, i);
      && Grows(m, m', held)
      && (c.None? <==> m.free == [] && !Entry(m, t, i).valid)
      && (c.Some? ==> Entry(m', t, i) == DirPte(c.value) || (Entry(m', t, i).valid && m' == m))
      && (c.Some? ==> Entry(m', t, i).valid && Entry(m', t, i).frame == c.value)
      && (c.Some? ==> IsTable(m', c.value, m.nodes[t].level - 1))
  {
    TableInRange(m, t);
    if Entry(m, t, i).valid {
      assert ChildOk(m, t, i);
    } else if m.free != [] {
      NewTableEntries(m, t, i);
      NewTableKeeps(m, held, t, i);
      NewTableView(m, t, i);
    }
  }

  /** `walk` with allocation: two levels of descent. */
  function WalkAlloc(m: Mem, r: Frame, pg: Page): (Mem, Option<Frame>) {
    var (m1, c1) := Descend(m, r, pg.i2);
    if c1.None? then (m1, None) else Descend(m1, c1.value, pg.i1)
  }

  lemma GrowsTrans(m: Mem, m1: Mem, m2: Mem, held: multiset<Frame>)
    requires Grows(m, m1, held) && Grows(m1, m2, held)
    ensures Grows(m, m2, held)
  {
  }

  lemma WalkGrows(m: Mem, held: multiset<Frame>, r: Frame, pg: Page)
    requires Inv(m, held) && IsRoot(m, r) && PageOk(pg)
    ensures var (m', t) := WalkAlloc(m, r, pg);
      && Grows(m, m', held)
      && (t.Some? ==> LeafTable(m', r, pg) == t && IsLeafTable(m', t.value) && t.value < NFRAMES)
      && (t.None? ==> m'.free == [] && LeafTable(m, r, pg) == None)
  {
    DescendGrows(m, held, r, pg.i2);
    var (m1, c1) := Descend(m, r, pg.i2);
    if c1.Some? {
      DescendGrows(m1, held, c1.value, pg.i1);
      var (m2, c2) := Descend(m1, c1.value, pg.i1);
      GrowsTrans(m, m1, m2, held);
      if c2.Some? { TableInRange(m2, c2.value); }
    }
  }

  /** Rewriting the leaf slot of (r, pg) changes the translation of that page and of no other. */
  lemma SetLeafView(m: Mem, r: Frame, pg: Page, p: Pte)
    requires Shape(m) && Tree(m) && IsRoot(m, r) && PageOk(pg) && LeafTable(m, r, pg).Some?
    ensures var m' := SetEntry(m, LeafTable(m, r, pg).value, pg.i0, p);
      && m'.nodes == m.nodes && m'.data == m.data && m'.base == m.base
      && (forall r', pg' | IsRoot(m, r') && PageOk(pg') :: LeafTable(m', r', pg') == LeafTable(m, r', pg'))
      && (forall r', pg' | IsRoot(m, r') && PageOk(pg') ::
            Lookup(m', r', pg') == if r' == r && pg' == pg then (if p.valid then p else NoPte) else Lookup(m, r', pg'))
  {
    WalkNode(m, r, pg);
    var t := LeafTable(m, r, pg).value;
    var m' := SetEntry(m, t, pg.i0, p);
    SetLeafRefs(m, t, pg.i0, p);
    forall r': Frame, pg': Page | IsRoot(m, r') && PageOk(pg') ensures LeafTable(m', r', pg') == LeafTable(m, r', pg') {
      if Entry(m, r', pg'.i2).valid { assert ChildOk(m, r', pg'.i2); }
    }
    forall r': Frame, pg': Page | IsRoot(m, r') && PageOk(pg')
      ensures Lookup(m', r', pg') == if r' == r && pg' == pg then (if p.valid then p else NoPte) else Lookup(m, r', pg')
    {
      if LeafTable(m, r', pg') == Some(t) && pg'.i0 == pg.i0 { SlotUnique(m, r, pg, r', pg'); }
    }
  }

  /** With the tables unchanged, every address space translates as before. */
  lemma SameTablesView(m: Mem, m': Mem)
    requires SameTables(m, m') && Tree(m)
    ensures forall r, pg | IsRoot(m, r) && PageOk(pg) ::
        LeafTable(m', r, pg) == LeafTable(m, r, pg) && Lookup(m', r, pg) == Lookup(m, r, pg)
  {
    forall r: Frame, pg: Page | IsRoot(m, r) && PageOk(pg)
      ensures LeafTable(m', r, pg) == LeafTable(m, r, pg) && Lookup(m', r, pg) == Lookup(m, r, pg)
    {
      if Entry(m, r, pg.i2).valid {
        assert ChildOk(m, r, pg.i2);
        var t1 := Entry(m, r, pg.i2).frame;
        if Entry(m, t1, pg.i1).valid { assert ChildOk(m, t1, pg.i1); }
      }
    }
  }
}
