/** Freeing the page-table pages of an address space (`freewalk`). */
module TableFree {
  import opened Counting
  import opened Frames
  import opened PageTables

  /** The table frames below and including `t`, in the order `freewalk_level` frees them. */
  ghost function PostOrder(m: Mem, t: Frame, level: nat): seq<Frame>
    decreases level, 513
  {
    (if level == 0 then [] else Kids(m, t, level, 0)) + [t]
  }

  ghost function Kids(m: Mem, t: Frame, level: nat, i: nat): seq<Frame>
    requires level > 0 && i <= 512
    decreases level, 512 - i
  {
    if i == 512 then []
    else (if Entry(m, t, i).valid then PostOrder(m, Entry(m, t, i).frame, level - 1) else []) + Kids(m, t, level, i + 1)
  }

  function FreeTable(m: Mem, t: Frame): Mem {
    Kfree(m, t).(nodes := m.nodes - {t})
  }

  ghost function FreeAll(m: Mem, ts: seq<Frame>): Mem
    decreases |ts|
  {
    if ts == [] then m else FreeAll(FreeTable(m, ts[0]), ts[1..])
  }

  /** `freewalk`: every table page of root `r` goes back to the allocator. */
  ghost function FreeWalk(m: Mem, r: Frame, level: nat): Mem {
    FreeAll(m, PostOrder(m, r, level))
  }

  // ----- the traversal visits exactly the tables of the root, each once -----

  ghost function Climb(m: Mem, c: Frame, k: nat): Frame {
    if k == 0 then c else NodeAt(m, Climb(m, c, k - 1)).parent
  }

  ghost predicate Under(m: Mem, c: Frame, t: Frame, level: nat) {
    c in m.nodes && 0 <= m.nodes[c].level <= level && Climb(m, c, level - m.nodes[c].level) == t
  }

  /** `c` lies below the entries of `t` with index at least `i`. */
  ghost predicate UnderKid(m: Mem, c: Frame, t: Frame, level: nat, i: nat)
    requires level > 0
  {
    && c in m.nodes && 0 <= m.nodes[c].level < level
    && var d := Climb(m, c, level - 1 - m.nodes[c].level);
    NodeAt(m, d).parent == t && NodeAt(m, d).index >= i
  }

  lemma ClimbLevel(m: Mem, c: Frame, k: nat)
    requires Tree(m) && c in m.nodes && m.nodes[c].level + k <= 2
    ensures Climb(m, c, k) in m.nodes && m.nodes[Climb(m, c, k)].level == m.nodes[c].level + k
    ensures m.nodes[Climb(m, c, k)].root == m.nodes[c].root
  {
    if k > 0 {
      ClimbLevel(m, c, k - 1);
      assert NodeOk(m, Climb(m, c, k - 1));
    }
  }

  lemma DistinctConcat(a: seq<Frame>, b: seq<Frame>)
    requires Distinct(a) && Distinct(b) && forall x | x in a :: x !in b
    ensures Distinct(a + b)
  {
    forall i, j | 0 <= i < j < |a + b| ensures (a + b)[i] != (a + b)[j] {
      if i < |a| { assert a[i] in a; }
      if j >= |a| { assert b[j - |a|] in b; }
    }
  }

  lemma {:induction false} PostOrderVisits(m: Mem, t: Frame, level: nat)
    requires Shape(m) && Tree(m) && t in m.nodes && m.nodes[t].level == level
    ensures forall c :: c in PostOrder(m, t, level) <==> Under(m, c, t, level)
    ensures Distinct(PostOrder(m, t, level))
    decreases level, 513
  {
    assert NodeOk(m, t);
    var kids := if level > 0 then Kids(m, t, level, 0) else [];
    if level > 0 { KidsVisits(m, t, level, 0); }
    forall c: Frame ensures c in kids + [t] <==> Under(m, c, t, level) { UnderParts(m, c, t, level); }
    DistinctConcat(kids, [t]);
  }

  /** A table below `t` is `t` itself or below one of its entries. */
  lemma UnderParts(m: Mem, c: Frame, t: Frame, level: nat)
    requires Tree(m) && t in m.nodes && m.nodes[t].level == level
    ensures Under(m, c, t, level) <==> c == t || (level > 0 && UnderKid(m, c, t, level, 0))
    ensures level > 0 ==> !UnderKid(m, t, t, level, 0)
  {
    assert NodeOk(m, t);
    if c in m.nodes && 0 <= m.nodes[c].level < level { ClimbLevel(m, c, level - 1 - m.nodes[c].level); }
  }

  lemma {:induction false} KidsVisits(m: Mem, t: Frame, level: nat, i: nat)
    requires Shape(m) && Tree(m) && t in m.nodes && m.nodes[t].level == level > 0 && i <= 512
    ensures forall c :: c in Kids(m, t, level, i) <==> UnderKid(m, c, t, level, i)
    ensures Distinct(Kids(m, t, level, i))
    decreases level, 512 - i
  {
    if i == 512 {
      forall c: Frame | c in m.nodes && 0 <= m.nodes[c].level < level ensures !UnderKid(m, c, t, level, i) {
        KidIndex(m, c, t, level);
      }
    } else {
      KidsVisits(m, t, level, i + 1);
      var first := if Entry(m, t, i).valid then PostOrder(m, Entry(m, t, i).frame, level - 1) else [];
      if Entry(m, t, i).valid {
        assert ChildOk(m, t, i);
        PostOrderVisits(m, Entry(m, t, i).frame, level - 1);
      }
      forall c: Frame ensures c in first <==> UnderKid(m, c, t, level, i) && !UnderKid(m, c, t, level, i + 1) {
        if c in m.nodes && 0 <= m.nodes[c].level < level { KidIndex(m, c, t, level); }
      }
      DistinctConcat(first, Kids(m, t, level, i + 1));
    }
  }

  /** The entry of `t` that a table below it hangs from. */
  lemma KidIndex(m: Mem, c: Frame, t: Frame, level: nat)
    requires Tree(m) && t in m.nodes && m.nodes[t].level == level > 0 && c in m.nodes && 0 <= m.nodes[c].level < level
    ensures var d := Climb(m, c, level - 1 - m.nodes[c].level);
      NodeAt(m, d).parent == t ==>
        NodeAt(m, d).index < 512 && Entry(m, t, NodeAt(m, d).index).valid && Entry(m, t, NodeAt(m, d).index).frame == d
  {
    assert NodeOk(m, t);
    var d := Climb(m, c, level - 1 - m.nodes[c].level);
    ClimbLevel(m, c, level - 1 - m.nodes[c].level);
    assert NodeOk(m, d);
  }

  lemma UnderRoot(m: Mem, c: Frame, r: Frame, level: nat)
    requires Tree(m) && IsRoot(m, r) && c in m.nodes && level == 2
    ensures Under(m, c, r, level) <==> m.nodes[c].root == r
  {
    assert NodeOk(m, r);
    assert NodeOk(m, c);
    ClimbLevel(m, c, level - m.nodes[c].level);
    assert NodeOk(m, Climb(m, c, level - m.nodes[c].level));
  }

  /** The tables freed with root `r` are exactly the nodes of `r`. */
  lemma PostOrderIsRoot(m: Mem, r: Frame, level: nat)
    requires Shape(m) && Tree(m) && IsRoot(m, r) && level == 2
    ensures forall c :: c in PostOrder(m, r, level) <==> c in m.nodes && m.nodes[c].root == r
    ensures Distinct(PostOrder(m, r, level))
  {
    PostOrderVisits(m, r, level);
    forall c: Frame | c in m.nodes ensures Under(m, c, r, level) <==> m.nodes[c].root == r {
      UnderRoot(m, c, r, level);
    }
  }

  // ----- freeing them keeps every other address space and the exact counts -----

  ghost function Rev(ts: seq<Frame>): seq<Frame> {
    if ts == [] then [] else Rev(ts[1..]) + [ts[0]]
  }

  lemma RevProps(ts: seq<Frame>)
    ensures |Rev(ts)| == |ts| && (forall x :: x in Rev(ts) <==> x in ts)
    ensures Distinct(ts) ==> Distinct(Rev(ts))
  {
    if ts != [] {
      RevProps(ts[1..]);
      if Distinct(ts) { DistinctConcat(Rev(ts[1..]), [ts[0]]); }
    }
  }

  /** The effect of freeing a list of single-reference tables. */
  lemma {:induction false} FreeAllEffect(m: Mem, ts: seq<Frame>)
    requires Shape(m) && forall t | t in ts :: t < NFRAMES && Ref(m, t) == 1
    ensures var m' := FreeAll(m, ts);
      && Shape(m') && m'.base == m.base && m'.refcnt == m.refcnt
      && m'.free == Rev(ts) + m.free
      && (forall t :: t in m'.nodes <==> t in m.nodes && t !in ts)
      && (forall t | t in m'.nodes :: m'.nodes[t] == m.nodes[t])
      && (forall f: Frame, i: nat | f !in ts :: Entry(m', f, i) == Entry(m, f, i))
      && (forall f: Frame | f !in ts :: PageBytes(m', f) == PageBytes(m, f))
    decreases |ts|
  {
    if ts != [] {
      var m1 := FreeTable(m, ts[0]);
      assert ts[0] in ts && forall t | t in ts[1..] :: t in ts;
      FreeAllEffect(m1, ts[1..]);
      assert Rev(ts[1..]) + ([ts[0]] + m.free) == Rev(ts) + m.free;
    }
  }

  /** Root `r` maps nothing. */
  ghost predicate NoLeaves(m: Mem, r: Frame) {
    forall t, i :: IsLeaf(m, t, i) ==> m.nodes[t].root != r
  }

  /** The tables of every other root are as they were, and those of `r` are on the free list. */
  ghost predicate RootFreed(m: Mem, m': Mem, r: Frame) {
    && Shape(m') && m'.base == m.base && m'.refcnt == m.refcnt
    && (forall t :: t in m'.nodes <==> t in m.nodes && m.nodes[t].root != r)
    && (forall t | t in m'.nodes :: m'.nodes[t] == m.nodes[t])
    && (forall t: Frame, i: nat {:trigger Entry(m', t, i)} | t in m'.nodes :: Entry(m', t, i) == Entry(m, t, i))
    && (forall f :: f in m'.free <==> f in m.free || (f in m.nodes && m.nodes[f].root == r))
    && (forall f | f !in m'.free :: PageBytes(m', f) == PageBytes(m, f))
    && FreeOk(m')
  }

  lemma FreeListed(m: Mem, m': Mem, r: Frame, ts: seq<Frame>)
    requires Shape(m) && FreeOk(m) && Tree(m)
    requires Distinct(ts) && forall c :: c in ts <==> c in m.nodes && m.nodes[c].root == r
    requires m'.base == m.base && m'.free == Rev(ts) + m.free && forall t :: t in m'.nodes <==> t in m.nodes && t !in ts
    ensures FreeOk(m') && forall f :: f in m'.free <==> f in m.free || f in ts
  {
    RevProps(ts);
    forall t | t in ts ensures t !in m.free && Managed(m, t) { assert NodeOk(m, t); TableInRange(m, t); }
    DistinctConcat(Rev(ts), m.free);
    forall k | 0 <= k < |m'.free| ensures Managed(m', m'.free[k]) && m'.free[k] !in m'.nodes {
      if k < |ts| { assert Rev(ts)[k] in Rev(ts); } else { assert m'.free[k] == m.free[k - |ts|]; }
    }
  }

  lemma FreeWalkEffect(m: Mem, r: Frame, level: nat)
    requires Shape(m) && FreeOk(m) && Tree(m) && IsRoot(m, r) && level == 2
    ensures RootFreed(m, FreeWalk(m, r, level), r)
    ensures |FreeWalk(m, r, level).free| == |m.free| + |PostOrder(m, r, level)|
  {
    var ts := PostOrder(m, r, level);
    PostOrderIsRoot(m, r, level);
    forall t | t in ts ensures t < NFRAMES && Ref(m, t) == 1 { assert NodeOk(m, t); }
    var m' := FreeAll(m, ts);
    FreeAllEffect(m, ts);
    FreeListed(m, m', r, ts);
    RevProps(ts);
  }

  lemma RootFreedTree(m: Mem, m': Mem, r: Frame)
    requires Tree(m) && RootFreed(m, m', r)
    ensures Tree(m')
  {
    forall t: Frame | t in m'.nodes ensures NodeOk(m', t) {
      assert NodeOk(m, t);
      assert NodeOk(m, m.nodes[t].root);
    }
    forall t: Frame, i: nat | t in m'.nodes && m'.nodes[t].level > 0 && 0 <= i < ENTRIES && Entry(m', t, i).valid
      ensures ChildOk(m', t, i)
    {
      assert ChildOk(m, t, i);
    }
  }

  lemma RootFreedRefs(m: Mem, m': Mem, r: Frame)
    requires RootFreed(m, m', r)
    ensures forall t: Frame, i: nat :: IsLeaf(m', t, i) <==> IsLeaf(m, t, i) && m.nodes[t].root != r
    ensures forall f :: Refs(m', f) <= Refs(m, f)
    ensures NoLeaves(m, r) ==> forall f :: Refs(m', f) == Refs(m, f)
  {
  }

  lemma RootFreedKeeps(m: Mem, m': Mem, held: multiset<Frame>, r: Frame)
    requires Inv(m, held) && RootFreed(m, m', r) && NoLeaves(m, r)
    ensures Inv(m', held)
  {
    RootFreedTree(m, m', r);
    RootFreedRefs(m, m', r);
    forall t: Frame, i: nat | IsLeaf(m', t, i) ensures LeafOk(m', t, i) { assert LeafOk(m, t, i); }
    forall f: Frame | InUse(m', f) ensures CountOk(m', held, f) { assert CountOk(m, held, f); }
  }

  lemma RootFreedLeaks(m: Mem, m': Mem, held: multiset<Frame>, r: Frame)
    requires Inv(m, held) && RootFreed(m, m', r) && !NoLeaves(m, r)
    ensures !Counts(m', held)
  {
    RootFreedRefs(m, m', r);
    var t: Frame, i: nat :| IsLeaf(m, t, i) && m.nodes[t].root == r;
    assert LeafOk(m, t, i);
    var f := Entry(m, t, i).frame;
    assert (t, i) in Refs(m, f) && (t, i) !in Refs(m', f);
    SubsetCard(Refs(m', f), Refs(m, f) - {(t, i)});
    assert CountOk(m, held, f);
    assert InUse(m', f) && !CountOk(m', held, f);
  }

  /** An address space that maps nothing is freed without disturbing anything else. */
  lemma FreeWalkKeeps(m: Mem, held: multiset<Frame>, r: Frame, level: nat)
    requires Inv(m, held) && IsRoot(m, r) && NoLeaves(m, r) && level == 2
    ensures Inv(FreeWalk(m, r, level), held) && RootFreed(m, FreeWalk(m, r, level), r)
  {
    FreeWalkEffect(m, r, level);
    RootFreedKeeps(m, FreeWalk(m, r, level), held, r);
  }

  /** Reference counts stay exact after `freewalk` if and only if the address space mapped
      nothing: a page still mapped keeps its count with no leaf behind it, and is lost. */
  lemma FreeWalkExact(m: Mem, held: multiset<Frame>, r: Frame, level: nat)
    requires Inv(m, held) && IsRoot(m, r) && level == 2
    ensures Counts(FreeWalk(m, r, level), held) <==> NoLeaves(m, r)
  {
    FreeWalkEffect(m, r, level);
    if NoLeaves(m, r) {
      RootFreedKeeps(m, FreeWalk(m, r, level), held, r);
    } else {
      RootFreedLeaks(m, FreeWalk(m, r, level), held, r);
    }
  }

  // ----- the traversal as it runs -----

  /** The tables below `t` are each listed once, allocated, and referenced once. */
  ghost predicate Freeable(m: Mem, ts: seq<Frame>) {
    Distinct(ts) && forall x | x in ts :: m.base <= x < NFRAMES && Ref(m, x) == 1 && x !in m.free
  }

  lemma RootFreeable(m: Mem, r: Frame, level: nat)
    requires Shape(m) && FreeOk(m) && Tree(m) && IsRoot(m, r) && level == 2
    ensures Freeable(m, PostOrder(m, r, level))
  {
    PostOrderIsRoot(m, r, level);
    forall x | x in PostOrder(m, r, level)
      ensures m.base <= x < NFRAMES && Ref(m, x) == 1 && x !in m.free
    {
      assert NodeOk(m, x);
      TableInRange(m, x);
    }
  }

  lemma FreeableParts(m: Mem, a: seq<Frame>, b: seq<Frame>)
    requires Freeable(m, a + b)
    ensures Freeable(m, a) && Freeable(m, b) && forall x | x in a :: x !in b
  {
    forall x | x in a ensures x in a + b && x !in b {
      var i :| 0 <= i < |a| && a[i] == x;
      assert (a + b)[i] == x;
      forall j | 0 <= j < |b| ensures b[j] != x { assert (a + b)[|a| + j] == b[j]; }
    }
    forall x | x in b ensures x in a + b {}
    forall i, j | 0 <= i < j < |a| ensures a[i] != a[j] { assert (a + b)[i] == a[i] && (a + b)[j] == a[j]; }
    forall i, j | 0 <= i < j < |b| ensures b[i] != b[j] { assert (a + b)[|a| + i] == b[i] && (a + b)[|a| + j] == b[j]; }
  }

  /** The tables `ts` have the same entries in both. */
  ghost predicate SameRows(m: Mem, m': Mem, ts: seq<Frame>) {
    forall x: Frame {:trigger SameRow(m, m', x)} | x in ts :: SameRow(m, m', x)
  }

  ghost predicate SameRow(m: Mem, m': Mem, t: Frame) {
    forall k: nat {:trigger Entry(m', t, k)} :: Entry(m', t, k) == Entry(m, t, k)
  }

  lemma SameRowsParts(m: Mem, m': Mem, ts: seq<Frame>, a: seq<Frame>, b: seq<Frame>)
    requires ts == a + b && SameRows(m, m', ts)
    ensures SameRows(m, m', a) && SameRows(m, m', b)
  {
    assert (forall x | x in a :: x in a + b) && (forall x | x in b :: x in a + b);
  }

  /** The traversal reads only the tables it visits. */
  lemma {:induction false} PostOrderFrame(m: Mem, m': Mem, t: Frame, level: nat)
    requires SameRows(m, m', PostOrder(m, t, level))
    ensures PostOrder(m', t, level) == PostOrder(m, t, level)
    decreases level, 514
  {
    if level > 0 {
      SameRowsParts(m, m', PostOrder(m, t, level), Kids(m, t, level, 0), [t]);
      assert t in [t] && SameRow(m, m', t);
      KidsFrame(m, m', t, level, 0);
    }
  }

  lemma {:induction false} KidsFrame(m: Mem, m': Mem, t: Frame, level: nat, i: nat)
    requires level > 0 && i <= 512 && SameRow(m, m', t) && SameRows(m, m', Kids(m, t, level, i))
    ensures Kids(m', t, level, i) == Kids(m, t, level, i)
    decreases level, 513 - i
  {
    if i < 512 {
      KidsParts(m, t, level, i);
      SameRowsParts(m, m', Kids(m, t, level, i), FirstKid(m, t, level, i), Kids(m, t, level, i + 1));
      KidsFrame(m, m', t, level, i + 1);
      FirstFrame(m, m', t, level, i);
      KidsParts(m', t, level, i);
    }
  }

  /** The tables below entry `i`. */
  ghost function FirstKid(m: Mem, t: Frame, level: nat, i: nat): seq<Frame>
    requires level > 0
  {
    if Entry(m, t, i).valid then PostOrder(m, Entry(m, t, i).frame, level - 1) else []
  }

  lemma {:induction false} FirstFrame(m: Mem, m': Mem, t: Frame, level: nat, i: nat)
    requires level > 0 && i < 512 && SameRow(m, m', t) && SameRows(m, m', FirstKid(m, t, level, i))
    ensures FirstKid(m', t, level, i) == FirstKid(m, t, level, i)
    decreases level, 512 - i
  {
    RowAt(m, m', t, i);
    if Entry(m, t, i).valid { PostOrderFrame(m, m', Entry(m, t, i).frame, level - 1); }
  }

  lemma RowAt(m: Mem, m': Mem, t: Frame, i: nat)
    requires SameRow(m, m', t)
    ensures Entry(m', t, i) == Entry(m, t, i)
  {
  }

  lemma KidsParts(m: Mem, t: Frame, level: nat, i: nat)
    requires level > 0 && i < 512
    ensures Kids(m, t, level, i) == FirstKid(m, t, level, i) + Kids(m, t, level, i + 1)
  {
  }

  lemma {:induction false} FreeAllConcat(m: Mem, a: seq<Frame>, b: seq<Frame>)
    ensures FreeAll(m, a + b) == FreeAll(FreeAll(m, a), b)
    decreases |a|
  {
    if a == [] { assert a + b == b; }
    else {
      assert (a + b)[1..] == a[1..] + b;
      FreeAllConcat(FreeTable(m, a[0]), a[1..], b);
    }
  }

  /** The same memory except for the entries of table `t`. */
  ghost predicate SameButRow(a: Mem, b: Mem, t: Frame) {
    && a.base == b.base && a.free == b.free && a.refcnt == b.refcnt && a.data == b.data && a.nodes == b.nodes
    && |a.tab| == |b.tab| && forall f | 0 <= f < |a.tab| && f != t :: a.tab[f] == b.tab[f]
  }

  lemma {:induction false} FreeAllRow(a: Mem, b: Mem, t: Frame, ts: seq<Frame>)
    requires SameButRow(a, b, t)
    ensures SameButRow(FreeAll(a, ts), FreeAll(b, ts), t)
    decreases |ts|
  {
    if ts != [] { FreeAllRow(FreeTable(a, ts[0]), FreeTable(b, ts[0]), t, ts[1..]); }
  }

  lemma FreeRow(a: Mem, b: Mem, t: Frame)
    requires SameButRow(a, b, t) && Ref(a, t) <= 1
    ensures FreeTable(a, t) == FreeTable(b, t)
  {
    assert FreeTable(a, t).tab == FreeTable(b, t).tab;
  }

  /** In the middle of freeing the children of `t`: `done` are freed, entries below `i` cleared. */
  ghost predicate Freeing(m0: Mem, m: Mem, t: Frame, level: nat, i: nat, done: seq<Frame>) {
    && i <= 512 && t < NFRAMES && Shape(m0) && Shape(m)
    && SameButRow(m, FreeAll(m0, done), t)
    && (level > 0 ==> done + Kids(m0, t, level, i) == Kids(m0, t, level, 0))
    && (level == 0 ==> done == [])
    && (forall k: nat | i <= k :: Entry(m, t, k) == Entry(m0, t, k))
  }

  lemma FreeingStart(m: Mem, t: Frame, level: nat)
    requires Shape(m) && t < NFRAMES
    ensures Freeing(m, m, t, level, 0, [])
  {
    if level > 0 { assert [] + Kids(m, t, level, 0) == Kids(m, t, level, 0); }
  }

  /** The next child's subtree is apart from `t` and from what was freed. */
  lemma ChildApart(m0: Mem, t: Frame, level: nat, i: nat, done: seq<Frame>, sub: seq<Frame>)
    requires level > 0 && i < 512 && Freeable(m0, PostOrder(m0, t, level))
    requires done + Kids(m0, t, level, i) == Kids(m0, t, level, 0)
    requires Entry(m0, t, i).valid && sub == PostOrder(m0, Entry(m0, t, i).frame, level - 1)
    ensures Freeable(m0, done) && Freeable(m0, sub) && forall x | x in sub :: x != t && x !in done
  {
    var rest := Kids(m0, t, level, i + 1);
    assert PostOrder(m0, t, level) == (done + (sub + rest)) + [t];
    FreeableParts(m0, done + (sub + rest), [t]);
    FreeableParts(m0, done, sub + rest);
    FreeableParts(m0, sub, rest);
    forall x | x in sub ensures x != t && x !in done {
      assert x in sub + rest;
      assert x in done + (sub + rest);
    }
  }

  /** What was freed so far leaves a subtree apart from it unread and untouched. */
  lemma SubtreeKept(m0: Mem, m: Mem, t: Frame, done: seq<Frame>, c: Frame, level: nat, sub: seq<Frame>)
    requires Shape(m0) && SameButRow(m, FreeAll(m0, done), t) && Freeable(m0, done) && Freeable(m0, sub)
    requires sub == PostOrder(m0, c, level)
    requires forall x | x in sub :: x != t && x !in done
    ensures PostOrder(m, c, level) == sub && Freeable(m, sub)
  {
    FreeAllEffect(m0, done);
    RevProps(done);
    forall x: Frame | x in sub ensures SameRow(m0, m, x) {
      forall k: nat ensures Entry(m, x, k) == Entry(m0, x, k) {
        assert Entry(m, x, k) == Entry(FreeAll(m0, done), x, k);
      }
    }
    PostOrderFrame(m0, m, c, level);
  }

  lemma FreeingChild(m0: Mem, m: Mem, t: Frame, level: nat, i: nat, done: seq<Frame>, c: Frame, below: nat,
      sub: seq<Frame>)
    requires Freeing(m0, m, t, level, i, done) && Freeable(m0, PostOrder(m0, t, level)) && level > 0 && i < 512
    requires Entry(m, t, i).valid
    requires c == Entry(m, t, i).frame && below == level - 1 && sub == PostOrder(m0, c, below)
    ensures PostOrder(m, c, below) == sub && Freeable(m, sub) && t !in sub
  {
    assert Entry(m0, t, i) == Entry(m, t, i) && done + Kids(m0, t, level, i) == Kids(m0, t, level, 0);
    ChildApart(m0, t, level, i, done, sub);
    SubtreeKept(m0, m, t, done, c, below, sub);
  }

  lemma FreeingSub(m0: Mem, m: Mem, t: Frame, done: seq<Frame>, sub: seq<Frame>)
    requires Shape(m) && SameButRow(m, FreeAll(m0, done), t) && Freeable(m, sub) && t !in sub
    ensures Shape(FreeAll(m, sub)) && SameButRow(FreeAll(m, sub), FreeAll(m0, done + sub), t)
    ensures forall k: nat :: Entry(FreeAll(m, sub), t, k) == Entry(m, t, k)
  {
    FreeAllEffect(m, sub);
    FreeAllRow(m, FreeAll(m0, done), t, sub);
    FreeAllConcat(m0, done, sub);
  }

  lemma FreeingNext(m0: Mem, m: Mem, t: Frame, level: nat, i: nat, done: seq<Frame>, sub: seq<Frame>)
    requires Freeing(m0, m, t, level, i, done) && level > 0 && i < 512 && Entry(m, t, i).valid
    requires sub == PostOrder(m0, Entry(m, t, i).frame, level - 1)
    requires Freeable(m, sub) && t !in sub
    ensures Freeing(m0, SetEntry(FreeAll(m, sub), t, i, NoPte), t, level, i + 1, done + sub)
  {
    FreeingSub(m0, m, t, done, sub);
    FreeingClear(m0, FreeAll(m, sub), t, i, done + sub);
    KidsNext(m0, t, level, i, done, sub);
  }

  lemma KidsNext(m0: Mem, t: Frame, level: nat, i: nat, done: seq<Frame>, sub: seq<Frame>)
    requires level > 0 && i < 512 && Entry(m0, t, i).valid && sub == PostOrder(m0, Entry(m0, t, i).frame, level - 1)
    ensures (done + sub) + Kids(m0, t, level, i + 1) == done + Kids(m0, t, level, i)
  {
    assert (done + sub) + Kids(m0, t, level, i + 1) == done + (sub + Kids(m0, t, level, i + 1));
  }

  lemma FreeingClear(m0: Mem, m: Mem, t: Frame, i: nat, done: seq<Frame>)
    requires Shape(m) && SameButRow(m, FreeAll(m0, done), t) && i < 512
    ensures var m' := SetEntry(m, t, i, NoPte);
      Shape(m') && SameButRow(m', FreeAll(m0, done), t) && forall k: nat | k > i :: Entry(m', t, k) == Entry(m, t, k)
  {
  }

  lemma FreeingSkip(m0: Mem, m: Mem, m': Mem, t: Frame, level: nat, i: nat, done: seq<Frame>)
    requires Freeing(m0, m, t, level, i, done) && i < 512 && (level == 0 || !Entry(m, t, i).valid)
    requires m' == m || m' == SetEntry(m, t, i, NoPte)
    ensures Freeing(m0, m', t, level, i + 1, done)
  {
    if level > 0 { assert [] + Kids(m0, t, level, i + 1) == Kids(m0, t, level, i + 1); }
  }

  lemma FreeingDone(m0: Mem, m: Mem, t: Frame, level: nat, done: seq<Frame>)
    requires Freeing(m0, m, t, level, 512, done) && Freeable(m0, PostOrder(m0, t, level))
    ensures PostOrder(m0, t, level) == done + [t] && Ref(m, t) == 1 && t !in m.free && m.base <= t
    ensures FreeTable(m, t) == FreeAll(m0, PostOrder(m0, t, level))
  {
    var ts := PostOrder(m0, t, level);
    assert ts == done + [t];
    assert t in ts;
    FreeableParts(m0, done, [t]);
    FreeAllEffect(m0, done);
    RevProps(done);
    FreeRow(m, FreeAll(m0, done), t);
    FreeAllConcat(m0, done, [t]);
  }
}
