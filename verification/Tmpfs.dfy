/** The page trees of tmpfs files: direct, single-indirect and double-indirect pages taken from `kalloc`
    and given back by `tmpfs_free_blocks`. */
module Tmpfs {
  const ENTRIES: nat := 512

  /** A place that can hold a page address: a word of the inode, of its indirect page, of its
      double-indirect page, or of a page below that. */
  datatype Pos =
    | Slot(ino: nat, k: nat)
    | Leaf1(ino: nat, i: nat)
    | Mid(ino: nat, i: nat)
    | Leaf2(ino: nat, j: nat, i: nat)

  /** The pages `kalloc` can hand out, the words of every page, and the block array of every inode.
      Address 0 is the null address. */
  datatype Fs = Fs(free: seq<nat>, mem: seq<seq<nat>>, inodes: seq<seq<nat>>)

  type Owner = map<nat, Pos>

  predicate PosOk(fs: Fs, p: Pos) {
    && p.ino < |fs.inodes|
    && match p { case Slot(_, k) => k < 12 case Leaf2(_, j, i) => j < 512 && i < 512 case _ => p.i < 512 }
  }

  predicate InTable(p: Pos) {
    !p.Slot?
  }

  function Parent(p: Pos): Pos {
    match p
    case Slot(_, _) => p
    case Leaf1(ino, _) => Slot(ino, 10)
    case Mid(ino, _) => Slot(ino, 11)
    case Leaf2(ino, j, _) => Mid(ino, j)
  }

  function Index(p: Pos): nat {
    if p.Slot? then p.k else p.i
  }

  function Word(fs: Fs, t: nat, i: nat): nat {
    if 0 < t < |fs.mem| && i < |fs.mem[t]| then fs.mem[t][i] else 0
  }

  function Blk(fs: Fs, ino: nat, k: nat): nat {
    if ino < |fs.inodes| && k < |fs.inodes[ino]| then fs.inodes[ino][k] else 0
  }

  /** The page address at a position, 0 if there is none. */
  function At(fs: Fs, p: Pos): nat {
    match p
    case Slot(ino, k) => Blk(fs, ino, k)
    case Leaf1(ino, i) => Word(fs, Blk(fs, ino, 10), i)
    case Mid(ino, i) => Word(fs, Blk(fs, ino, 11), i)
    case Leaf2(ino, j, i) => Word(fs, Word(fs, Blk(fs, ino, 11), j), i)
  }

  // ----- the invariant -----

  ghost predicate Shape(fs: Fs) {
    && (forall b | 0 <= b < |fs.mem| :: |fs.mem[b]| == ENTRIES)
    && (forall x | 0 <= x < |fs.inodes| :: |fs.inodes[x]| == 12)
  }

  ghost predicate FreeOk(fs: Fs, owner: Owner) {
    && (forall x | 0 <= x < |fs.free| :: 0 < fs.free[x] < |fs.mem| && fs.free[x] !in owner)
    && (forall x, y | 0 <= x < y < |fs.free| :: fs.free[x] != fs.free[y])
  }

  /** An address in the tree is an owned page, recorded at this very position. */
  ghost predicate Holds(fs: Fs, owner: Owner, p: Pos) {
    PosOk(fs, p) && At(fs, p) != 0 ==> At(fs, p) in owner && owner[At(fs, p)] == p
  }

  /** An owned page is at the position recorded for it. */
  ghost predicate Owned(fs: Fs, owner: Owner, b: nat) {
    b in owner ==> 0 < b < |fs.mem| && PosOk(fs, owner[b]) && At(fs, owner[b]) == b
  }

  /** Every page of `pool` is either free or at exactly one position of one inode. */
  ghost predicate Inv(fs: Fs, owner: Owner, pool: set<nat>) {
    && Shape(fs) && FreeOk(fs, owner) && pool == owner.Keys + Set(fs.free)
    && (forall p {:trigger Holds(fs, owner, p)} :: Holds(fs, owner, p))
    && (forall b {:trigger Owned(fs, owner, b)} :: Owned(fs, owner, b))
  }

  ghost function Set(s: seq<nat>): set<nat> {
    set x | x in s
  }

  /** Two positions never hold the same page. */
  lemma NoSharing(fs: Fs, owner: Owner, pool: set<nat>, p: Pos, q: Pos)
    requires Inv(fs, owner, pool) && PosOk(fs, p) && PosOk(fs, q) && At(fs, p) == At(fs, q) != 0
    ensures p == q && At(fs, p) !in fs.free
  {
    assert Holds(fs, owner, p) && Holds(fs, owner, q);
  }

  // ----- writing one position -----

  function Upd(s: seq<nat>, i: nat, v: nat): seq<nat> {
    if i < |s| then s[i := v] else s
  }

  function Put(fs: Fs, p: Pos, v: nat): Fs {
    if p.Slot? then
      (if p.ino < |fs.inodes| && p.k < |fs.inodes[p.ino]| then
         fs.(inodes := fs.inodes[p.ino := Upd(fs.inodes[p.ino], p.k, v)])
       else fs)
    else SetWord(fs, At(fs, Parent(p)), Index(p), v)
  }

  function SetWord(fs: Fs, t: nat, i: nat, v: nat): Fs {
    if 0 < t < |fs.mem| && i < |fs.mem[t]| then fs.(mem := fs.mem[t := Upd(fs.mem[t], i, v)]) else fs
  }

  function Zeros(): seq<nat> {
    seq(ENTRIES, i => 0)
  }

  /** `kalloc` clears the page it hands out, `kfree` the one it takes back. */
  function Clear(fs: Fs, b: nat): Fs {
    if b < |fs.mem| then fs.(mem := fs.mem[b := Zeros()]) else fs
  }

  /** Clearing a page that is no table changes no position. */
  lemma {:induction false} ClearAt(fs: Fs, owner: Owner, pool: set<nat>, b: nat, q: Pos)
    requires Inv(fs, owner, pool) && PosOk(fs, q)
    requires (b in owner ==> forall x | PosOk(fs, x) && InTable(x) && Parent(x) == owner[b] :: At(fs, x) == 0)
    ensures At(Clear(fs, b), q) == At(fs, q)
    decreases Depth(q)
  {
    if InTable(q) {
      ClearAt(fs, owner, pool, b, Parent(q));
      assert Holds(fs, owner, Parent(q));
    }
  }

  /** A position whose page holds file data, not addresses. */
  predicate IsData(p: Pos) {
    p.Leaf1? || p.Leaf2? || (p.Slot? && p.k < 10)
  }

  /** What a user writes into a data page is never taken for an address. */
  lemma {:induction false} DataAt(fs: Fs, owner: Owner, pool: set<nat>, p: Pos, words: seq<nat>, q: Pos)
    requires Inv(fs, owner, pool) && PosOk(fs, p) && IsData(p) && At(fs, p) != 0 && PosOk(fs, q) && |words| == ENTRIES
    ensures At(fs, p) < |fs.mem| && At(fs.(mem := fs.mem[At(fs, p) := words]), q) == At(fs, q)
    decreases Depth(q)
  {
    assert Holds(fs, owner, p) && Owned(fs, owner, At(fs, p));
    if InTable(q) {
      DataAt(fs, owner, pool, p, words, Parent(q));
      assert Holds(fs, owner, Parent(q));
    }
  }

  lemma StoreKeeps(fs: Fs, owner: Owner, pool: set<nat>, p: Pos, words: seq<nat>)
    requires Inv(fs, owner, pool) && PosOk(fs, p) && IsData(p) && At(fs, p) != 0 && |words| == ENTRIES
    ensures At(fs, p) < |fs.mem| && Inv(fs.(mem := fs.mem[At(fs, p) := words]), owner, pool)
  {
    DataAt(fs, owner, pool, p, words, p);
    var fs' := fs.(mem := fs.mem[At(fs, p) := words]);
    forall q
      ensures Holds(fs', owner, q)
    {
      if PosOk(fs, q) { DataAt(fs, owner, pool, p, words, q); }
      assert Holds(fs, owner, q);
    }
    forall b
      ensures Owned(fs', owner, b)
    {
      assert Owned(fs, owner, b);
      if b in owner { DataAt(fs, owner, pool, p, words, owner[b]); }
    }
  }

  function Depth(p: Pos): nat {
    if p.Slot? then 0 else if p.Leaf2? then 2 else 1
  }

  /** The pages below `p` are all gone. */
  ghost predicate Childless(fs: Fs, p: Pos) {
    forall q | PosOk(fs, q) && InTable(q) && Parent(q) == p :: At(fs, q) == 0
  }

  /** A write at `p` changes no other position, if the page written (or the one removed) has no children. */
  lemma {:induction false} PutAt(fs: Fs, owner: Owner, pool: set<nat>, p: Pos, v: nat, q: Pos)
    requires Inv(fs, owner, pool) && PosOk(fs, p) && PosOk(fs, q) && Childless(fs, p)
    requires (InTable(p) ==> At(fs, Parent(p)) != 0)
    requires v != 0 ==> v < |fs.mem| && v !in owner && fs.mem[v] == Zeros()
    ensures At(Put(fs, p, v), q) == if q == p then v else At(fs, q)
    decreases Depth(q)
  {
    if InTable(q) { PutAt(fs, owner, pool, p, v, Parent(q)); }
    if InTable(p) { PutWordAt(fs, owner, pool, p, v, q); }
  }

  lemma PutWordAt(fs: Fs, owner: Owner, pool: set<nat>, p: Pos, v: nat, q: Pos)
    requires Inv(fs, owner, pool) && PosOk(fs, p) && PosOk(fs, q) && Childless(fs, p) && InTable(p)
    requires At(fs, Parent(p)) != 0
    requires v != 0 ==> v < |fs.mem| && v !in owner && fs.mem[v] == Zeros()
    requires InTable(q) ==> At(Put(fs, p, v), Parent(q)) == if Parent(q) == p then v else At(fs, Parent(q))
    ensures At(Put(fs, p, v), q) == if q == p then v else At(fs, q)
  {
    assert Holds(fs, owner, Parent(p)) && Owned(fs, owner, At(fs, Parent(p)));
    if InTable(q) { assert Holds(fs, owner, Parent(q)); }
  }

  // ----- tmpfs_bmap -----

  /** Read a position; when it is empty take a page for it. */
  function Ensure(fs: Fs, p: Pos): (Fs, nat) {
    if At(fs, p) != 0 then (fs, At(fs, p))
    else if fs.free == [] then (fs, 0)
    else
      var b := fs.free[0];
      (Put(Clear(fs.(free := fs.free[1..]), b), p, b), b)
  }

  function OwnerAfter(fs: Fs, owner: Owner, p: Pos): Owner {
    if At(fs, p) != 0 || fs.free == [] then owner else owner[fs.free[0] := p]
  }

  /** Nothing below an empty position. */
  lemma EmptyBelow(fs: Fs, p: Pos)
    requires At(fs, p) == 0
    ensures Childless(fs, p)
  {
  }

  lemma EnsureAt(fs: Fs, owner: Owner, pool: set<nat>, p: Pos, q: Pos)
    requires Inv(fs, owner, pool) && PosOk(fs, p) && PosOk(fs, q) && (InTable(p) ==> At(fs, Parent(p)) != 0)
    ensures At(Ensure(fs, p).0, q) == if q == p then Ensure(fs, p).1 else At(fs, q)
  {
    if At(fs, p) == 0 && fs.free != [] {
      var b, fs1 := fs.free[0], Taken(fs);
      TakenInv(fs, owner, pool);
      ClearAt(fs, owner, pool, b, q);
      ClearAt(fs, owner, pool, b, p);
      if InTable(p) { ClearAt(fs, owner, pool, b, Parent(p)); }
      EmptyBelow(fs1, p);
      PutAt(fs1, owner, pool - {b}, p, b, q);
    }
  }

  function Taken(fs: Fs): Fs
    requires fs.free != []
  {
    Clear(fs.(free := fs.free[1..]), fs.free[0])
  }

  lemma TakenInv(fs: Fs, owner: Owner, pool: set<nat>)
    requires Inv(fs, owner, pool) && fs.free != []
    ensures Inv(Taken(fs), owner, pool - {fs.free[0]}) && forall q | PosOk(fs, q) :: At(Taken(fs), q) == At(fs, q)
  {
    var b, fs1 := fs.free[0], Taken(fs);
    forall q | PosOk(fs, q) ensures At(fs1, q) == At(fs, q) {
      ClearAt(fs, owner, pool, b, q);
      assert At(fs1, q) == At(Clear(fs, b), q);
    }
    forall q ensures Holds(fs1, owner, q) { assert Holds(fs, owner, q); }
    forall x ensures Owned(fs1, owner, x) { assert Owned(fs, owner, x); }
    assert fs.free == [b] + fs1.free;
    assert Set(fs1.free) == Set(fs.free) - {b};
  }

  lemma EnsureKeeps(fs: Fs, owner: Owner, pool: set<nat>, p: Pos)
    requires Inv(fs, owner, pool) && PosOk(fs, p) && (InTable(p) ==> At(fs, Parent(p)) != 0)
    ensures var (fs', b) := Ensure(fs, p);
      && Inv(fs', OwnerAfter(fs, owner, p), pool) && |fs'.inodes| == |fs.inodes|
      && (b == 0 <==> At(fs, p) == 0 && fs.free == [])
      && |fs'.free| == |fs.free| - (if At(fs, p) == 0 && b != 0 then 1 else 0)
      && forall q | PosOk(fs, q) :: At(fs', q) == if q == p then b else At(fs, q)
  {
    var (fs', b) := Ensure(fs, p);
    forall q | PosOk(fs, q) ensures At(fs', q) == if q == p then b else At(fs, q) { EnsureAt(fs, owner, pool, p, q); }
    if At(fs, p) == 0 && fs.free != [] {
      TakenInv(fs, owner, pool);
      EnsureInv(fs, owner, pool, p, Taken(fs), fs', b);
    }
  }

  lemma EnsureInv(fs: Fs, owner: Owner, pool: set<nat>, p: Pos, fs1: Fs, fs': Fs, b: nat)
    requires Inv(fs, owner, pool) && PosOk(fs, p) && fs.free != [] && b == fs.free[0] && b < |fs.mem| && At(fs, p) == 0
    requires b in pool
    requires fs1 == Taken(fs) && Inv(fs1, owner, pool - {b}) && fs' == Put(fs1, p, b)
    requires forall q | PosOk(fs, q) :: At(fs', q) == if q == p then b else At(fs, q)
    ensures Inv(fs', owner[b := p], pool)
  {
    var owner' := owner[b := p];
    assert fs.free == [b] + fs1.free;
    forall q ensures Holds(fs', owner', q) { assert Holds(fs, owner, q); }
    forall x ensures Owned(fs', owner', x) { assert Owned(fs, owner, x); }
    assert owner'.Keys == owner.Keys + {b};
  }

  /** The positions on the way to block `bn`, outermost first; none when the block is out of range. */
  function Path(ino: nat, bn: nat): seq<Pos> {
    if bn < 10 then [Slot(ino, bn)]
    else if bn - 10 < 512 then [Slot(ino, 10), Leaf1(ino, bn - 10)]
    else
      if bn - 522 < 262144 then
        [Slot(ino, 11), Mid(ino, (bn - 522) / 512), Leaf2(ino, (bn - 522) / 512, (bn - 522) % 512)]
    else []
  }

  /** Ensure each position of a path in turn; the last page, or 0 when memory ran out. */
  function Fill(fs: Fs, path: seq<Pos>): (Fs, nat)
    decreases |path|
  {
    if path == [] then (fs, 0)
    else
      var (fs1, b) := Ensure(fs, path[0]);
      if b == 0 || |path| == 1 then (fs1, b) else Fill(fs1, path[1..])
  }

  lemma FillTwo(fs: Fs, p: Pos, q: Pos)
    ensures var (fs1, b) := Ensure(fs, p); Fill(fs, [p, q]) == if b == 0 then (fs1, 0) else Ensure(fs1, q)
  {
    assert [p, q][1..] == [q];
  }

  lemma FillThree(fs: Fs, p: Pos, q: Pos, r: Pos)
    ensures var (fs1, b) := Ensure(fs, p); Fill(fs, [p, q, r]) == if b == 0 then (fs1, 0) else Fill(fs1, [q, r])
  {
    assert [p, q, r][1..] == [q, r];
  }

  ghost function FillOwner(fs: Fs, owner: Owner, path: seq<Pos>): Owner
    decreases |path|
  {
    if path == [] then owner
    else
      var (fs1, b) := Ensure(fs, path[0]);
      if b == 0 || |path| == 1 then OwnerAfter(fs, owner, path[0])
      else FillOwner(fs1, OwnerAfter(fs, owner, path[0]), path[1..])
  }

  lemma OwnerTwo(fs: Fs, owner: Owner, p: Pos, q: Pos)
    ensures var (fs1, b) := Ensure(fs, p); var o := OwnerAfter(fs, owner, p);
      FillOwner(fs, owner, [p, q]) == if b == 0 then o else OwnerAfter(fs1, o, q)
  {
    assert [p, q][1..] == [q];
  }

  lemma OwnerThree(fs: Fs, owner: Owner, p: Pos, q: Pos, r: Pos)
    ensures var (fs1, b) := Ensure(fs, p); var o := OwnerAfter(fs, owner, p);
      FillOwner(fs, owner, [p, q, r]) == if b == 0 then o else FillOwner(fs1, o, [q, r])
  {
    assert [p, q, r][1..] == [q, r];
  }

  /** `tmpfs_bmap`. */
  function Bmap(fs: Fs, ino: nat, bn: nat, alloc: bool): (Fs, nat) {
    var path := Path(ino, bn);
    if path == [] then (fs, 0) else if alloc then Fill(fs, path) else (fs, At(fs, path[|path| - 1]))
  }

  /** A chain of positions, each the parent of the next. */
  ghost predicate Chain(fs: Fs, path: seq<Pos>) {
    && (forall x | 0 <= x < |path| :: PosOk(fs, path[x]))
    && (forall x | 0 < x < |path| :: InTable(path[x]) && Parent(path[x]) == path[x - 1])
  }

  lemma PathChain(fs: Fs, ino: nat, bn: nat)
    requires ino < |fs.inodes|
    ensures Chain(fs, Path(ino, bn)) && (Path(ino, bn) != [] ==> Path(ino, bn)[0].Slot?)
    ensures (Path(ino, bn) == [] <==> bn >= 262666)
  {
  }

  /** How many pages the path still lacks. */
  function Missing(fs: Fs, path: seq<Pos>): nat
    decreases |path|
  {
    if path == [] then 0 else (if At(fs, path[0]) == 0 then 1 else 0) + Missing(fs, path[1..])
  }

  lemma {:induction false} MissingSame(fs: Fs, fs': Fs, path: seq<Pos>)
    requires forall p | p in path :: At(fs', p) == At(fs, p)
    ensures Missing(fs', path) == Missing(fs, path)
    decreases |path|
  {
    if path != [] { MissingSame(fs, fs', path[1..]); }
  }

  /** What filling a path does: the invariant holds, the answer is the page at the end, other positions are
      as before, and it fails exactly when memory does not suffice. */
  ghost predicate Filled(fs: Fs, fs': Fs, path: seq<Pos>, b: nat) {
    && path != [] && |fs'.inodes| == |fs.inodes| && (b != 0 ==> At(fs', path[|path| - 1]) == b)
    && (b != 0 <==> Missing(fs, path) <= |fs.free|)
    && forall q | PosOk(fs, q) :: At(fs', q) == At(fs, q) || (q in path && At(fs, q) == 0)
  }

  lemma {:induction false} FillKeeps(fs: Fs, owner: Owner, pool: set<nat>, path: seq<Pos>)
    requires Inv(fs, owner, pool) && path != [] && Chain(fs, path)
    requires (InTable(path[0]) ==> At(fs, Parent(path[0])) != 0)
    requires forall x, y | 0 <= x < y < |path| :: path[x] != path[y]
    ensures Inv(Fill(fs, path).0, FillOwner(fs, owner, path), pool)
    ensures Filled(fs, Fill(fs, path).0, path, Fill(fs, path).1)
    decreases |path|
  {
    var (fs1, b) := Ensure(fs, path[0]);
    EnsureKeeps(fs, owner, pool, path[0]);
    var rest := path[1..];
    MissingSame(fs, fs1, rest);
    if b != 0 && |path| > 1 {
      assert rest[0] == path[1];
      FillKeeps(fs1, OwnerAfter(fs, owner, path[0]), pool, rest);
      FilledMore(fs, fs1, Fill(fs, path).0, path, Fill(fs, path).1);
    } else if b != 0 {
      assert rest == [] && path[0] in path;
    } else {
      assert Missing(fs, path) > 0;
    }
  }

  lemma FilledMore(fs: Fs, fs1: Fs, fs': Fs, path: seq<Pos>, b: nat)
    requires |path| > 1 && Filled(fs1, fs', path[1..], b) && |fs1.inodes| == |fs.inodes| && At(fs1, path[0]) != 0
    requires Missing(fs1, path[1..]) == Missing(fs, path[1..])
    requires |fs1.free| == |fs.free| - (if At(fs, path[0]) == 0 then 1 else 0)
    requires forall q | PosOk(fs, q) :: At(fs1, q) == At(fs, q) || (q == path[0] && At(fs, q) == 0)
    ensures Filled(fs, fs', path, b)
  {
    var rest := path[1..];
    assert rest[|rest| - 1] == path[|path| - 1];
    forall q | PosOk(fs, q) ensures At(fs', q) == At(fs, q) || (q in path && At(fs, q) == 0) {
      assert PosOk(fs1, q) && (q in rest ==> q in path) && path[0] in path;
    }
  }

  /** The owners after `tmpfs_bmap` differ only by pages of this inode. */
  lemma {:induction false} FillOwners(fs: Fs, owner: Owner, path: seq<Pos>, ino: nat)
    requires forall p | p in path :: p.ino == ino
    requires FreeOk(fs, owner)
    ensures forall b | b in owner :: b in FillOwner(fs, owner, path) && FillOwner(fs, owner, path)[b] == owner[b]
    ensures forall b | b in FillOwner(fs, owner, path) && b !in owner :: FillOwner(fs, owner, path)[b].ino == ino
    decreases |path|
  {
    if path != [] {
      var (fs1, b) := Ensure(fs, path[0]);
      var owner1 := OwnerAfter(fs, owner, path[0]);
      if b != 0 && |path| > 1 {
        if At(fs, path[0]) == 0 { assert fs.free == [b] + fs1.free; }
        FillOwners(fs1, owner1, path[1..], ino);
      }
    }
  }

  // ----- tmpfs_free_blocks -----

  /** Give the page at a position back and clear the position. */
  function FreeAt(fs: Fs, p: Pos): Fs {
    var b := At(fs, p);
    if b == 0 then fs else Put(Clear(fs, b), p, 0).(free := [b] + fs.free)
  }

  lemma FreeAtKeeps(fs: Fs, owner: Owner, pool: set<nat>, p: Pos)
    requires Inv(fs, owner, pool) && PosOk(fs, p) && Childless(fs, p)
    ensures Inv(FreeAt(fs, p), owner - {At(fs, p)}, pool) && |FreeAt(fs, p).inodes| == |fs.inodes|
    ensures forall q | PosOk(fs, q) :: At(FreeAt(fs, p), q) == if q == p then 0 else At(fs, q)
  {
    var b, fs' := At(fs, p), FreeAt(fs, p);
    if b != 0 {
      forall q | PosOk(fs, q) ensures At(fs', q) == if q == p then 0 else At(fs, q) { FreeAtAt(fs, owner, pool, p, q); }
      assert Holds(fs, owner, p) && Owned(fs, owner, b);
      FreeInv(fs, owner, pool, p, fs', b);
    } else {
      assert 0 !in owner by { assert Owned(fs, owner, 0); }
      assert owner - {0} == owner;
    }
  }

  lemma FreeAtAt(fs: Fs, owner: Owner, pool: set<nat>, p: Pos, q: Pos)
    requires Inv(fs, owner, pool) && PosOk(fs, p) && Childless(fs, p) && At(fs, p) != 0 && PosOk(fs, q)
    ensures At(FreeAt(fs, p), q) == if q == p then 0 else At(fs, q)
  {
    var fs1 := Clear(fs, At(fs, p));
    assert Holds(fs, owner, p);
    ClearInv(fs, owner, pool, At(fs, p), p);
    assert InTable(p) ==> At(fs, Parent(p)) != 0;
    PutAt(fs1, owner, pool, p, 0, q);
    assert At(FreeAt(fs, p), q) == At(Put(fs1, p, 0), q);
  }

  lemma ClearInv(fs: Fs, owner: Owner, pool: set<nat>, b: nat, p: Pos)
    requires Inv(fs, owner, pool) && b in owner && owner[b] == p && Childless(fs, p)
    ensures Inv(Clear(fs, b), owner, pool) && Childless(Clear(fs, b), p)
    ensures forall q | PosOk(fs, q) :: At(Clear(fs, b), q) == At(fs, q)
  {
    var fs1 := Clear(fs, b);
    forall q | PosOk(fs, q) ensures At(fs1, q) == At(fs, q) { ClearAt(fs, owner, pool, b, q); }
    forall q ensures Holds(fs1, owner, q) { assert Holds(fs, owner, q); }
    forall x ensures Owned(fs1, owner, x) { assert Owned(fs, owner, x); }
  }

  lemma FreeInv(fs: Fs, owner: Owner, pool: set<nat>, p: Pos, fs': Fs, b: nat)
    requires Inv(fs, owner, pool) && PosOk(fs, p) && b == At(fs, p) != 0 && b in owner && owner[b] == p
    requires Shape(fs') && |fs'.mem| == |fs.mem| && |fs'.inodes| == |fs.inodes| && fs'.free == [b] + fs.free
    requires forall q | PosOk(fs, q) :: At(fs', q) == if q == p then 0 else At(fs, q)
    ensures Inv(fs', owner - {b}, pool)
  {
    var owner' := owner - {b};
    forall q ensures Holds(fs', owner', q) { assert Holds(fs, owner, q); }
    forall x ensures Owned(fs', owner', x) { assert Owned(fs, owner, x); }
    assert Owned(fs, owner, b);
    assert b !in fs.free;
    assert Set(fs'.free) == Set(fs.free) + {b};
  }

  /** Part way through `tmpfs_free_blocks`: only pages of `ino` have been given back. */
  ghost predicate Freeing(owner0: Owner, owner: Owner, ino: nat) {
    && (forall b | b in owner :: b in owner0 && owner0[b] == owner[b])
    && (forall b | b in owner0 && b !in owner :: owner0[b].ino == ino)
  }

  /** An empty position stays empty, and other inodes keep their pages. */
  lemma FreeingAt(fs0: Fs, owner0: Owner, fs: Fs, owner: Owner, pool: set<nat>, ino: nat, q: Pos)
    requires Inv(fs0, owner0, pool) && Inv(fs, owner, pool) && Freeing(owner0, owner, ino)
    requires |fs.inodes| == |fs0.inodes| && PosOk(fs0, q)
    ensures At(fs, q) == At(fs0, q) || (At(fs, q) == 0 && q.ino == ino)
  {
    assert Holds(fs0, owner0, q) && Holds(fs, owner, q);
    if At(fs0, q) != 0 && At(fs0, q) in owner { assert Owned(fs, owner, At(fs0, q)); }
    if At(fs, q) != 0 { assert Owned(fs0, owner0, At(fs, q)); }
  }

  lemma FreeingTrans(owner0: Owner, owner1: Owner, owner: Owner, ino: nat)
    requires Freeing(owner0, owner1, ino) && Freeing(owner1, owner, ino)
    ensures Freeing(owner0, owner, ino)
  {
  }

  /** While a page is at a position below a table, the table is where it was. */
  lemma TableStays(fs0: Fs, owner0: Owner, fs: Fs, owner: Owner, pool: set<nat>, p: Pos)
    requires Inv(fs0, owner0, pool) && Inv(fs, owner, pool) && Freeing(owner0, owner, p.ino)
    requires |fs.inodes| == |fs0.inodes|
    requires PosOk(fs0, p) && InTable(p) && At(fs, p) != 0
    ensures At(fs, Parent(p)) == At(fs0, Parent(p)) != 0
  {
    FreeingAt(fs0, owner0, fs, owner, pool, p.ino, Parent(p));
  }

  lemma FreeingOne(fs: Fs, owner: Owner, pool: set<nat>, p: Pos)
    requires Inv(fs, owner, pool) && PosOk(fs, p)
    ensures Freeing(owner, owner - {At(fs, p)}, p.ino)
  {
    assert Holds(fs, owner, p) && Owned(fs, owner, 0);
  }

  /** Word `i` of the page at a position that holds a pointer page. */
  function Child(p: Pos, i: nat): Pos {
    if p.Mid? then Leaf2(p.ino, p.i, i) else if p.Slot? && p.k == 11 then Mid(p.ino, i) else Leaf1(p.ino, i)
  }

  lemma ChildrenAre(fs: Fs, p: Pos)
    requires PosOk(fs, p) && (p.Mid? || (p.Slot? && p.k >= 10))
    requires forall i: nat {:trigger Child(p, i)} | i < 512 :: At(fs, Child(p, i)) == 0
    ensures Childless(fs, p)
  {
    forall q | PosOk(fs, q) && InTable(q) && Parent(q) == p ensures At(fs, q) == 0 { assert q == Child(p, Index(q)); }
  }

  /** The pages of an inode. */
  ghost function PagesOf(owner: Owner, ino: nat): set<nat> {
    set b | b in owner && owner[b].ino == ino
  }

  /** The free pages are the pages nobody owns, each listed once. */
  lemma FreeIs(fs: Fs, owner: Owner, pool: set<nat>)
    requires Inv(fs, owner, pool)
    ensures Set(fs.free) == pool - owner.Keys && |fs.free| == |pool - owner.Keys| && owner.Keys <= pool
  {
    SetSize(fs.free);
    assert Set(fs.free) == pool - owner.Keys;
  }

  lemma NoneLeft(fs: Fs, owner: Owner, pool: set<nat>, ino: nat)
    requires Inv(fs, owner, pool) && forall q | PosOk(fs, q) && q.ino == ino :: At(fs, q) == 0
    ensures PagesOf(owner, ino) == {}
  {
    forall b | b in owner ensures owner[b].ino != ino { assert Owned(fs, owner, b); }
  }

  /** When every position of the inode is empty, exactly its pages have been given back, each once. */
  lemma FreedExactly(fs0: Fs, owner0: Owner, fs: Fs, owner: Owner, pool: set<nat>, ino: nat)
    requires Inv(fs0, owner0, pool) && Inv(fs, owner, pool) && Freeing(owner0, owner, ino)
    requires forall q | PosOk(fs, q) && q.ino == ino :: At(fs, q) == 0
    ensures Set(fs.free) == Set(fs0.free) + PagesOf(owner0, ino) && Set(fs0.free) !! PagesOf(owner0, ino)
    ensures |fs.free| == |fs0.free| + |PagesOf(owner0, ino)|
  {
    NoneLeft(fs, owner, pool, ino);
    FreeIs(fs0, owner0, pool);
    FreeIs(fs, owner, pool);
    FreedSets(owner0, owner, pool, ino);
  }

  lemma FreedSets(owner0: Owner, owner: Owner, pool: set<nat>, ino: nat)
    requires Freeing(owner0, owner, ino) && PagesOf(owner, ino) == {} && owner0.Keys <= pool
    ensures pool - owner.Keys == (pool - owner0.Keys) + PagesOf(owner0, ino)
    ensures |pool - owner.Keys| == |pool - owner0.Keys| + |PagesOf(owner0, ino)|
  {
    forall b | b in PagesOf(owner0, ino) ensures b !in owner { assert b !in PagesOf(owner, ino); }
  }

  lemma {:induction false} SetSize(s: seq<nat>)
    requires forall x, y | 0 <= x < y < |s| :: s[x] != s[y]
    ensures |Set(s)| == |s|
    decreases |s|
  {
    if s == [] {
      assert Set(s) == {};
    } else {
      SetSize(s[1..]);
      assert s == [s[0]] + s[1..];
      assert Set(s) == {s[0]} + Set(s[1..]);
    }
  }

  // ----- any number of writes, then a truncation -----

  datatype Call = Call(bn: nat, alloc: bool)

  function Calls(fs: Fs, ino: nat, calls: seq<Call>): Fs
    decreases |calls|
  {
    if calls == [] then fs else Calls(Bmap(fs, ino, calls[0].bn, calls[0].alloc).0, ino, calls[1..])
  }

  ghost function CallsOwner(fs: Fs, owner: Owner, ino: nat, calls: seq<Call>): Owner
    decreases |calls|
  {
    if calls == [] then owner
    else CallsOwner(Bmap(fs, ino, calls[0].bn, calls[0].alloc).0,
        BmapOwner(fs, owner, ino, calls[0].bn, calls[0].alloc), ino, calls[1..])
  }

  ghost function BmapOwner(fs: Fs, owner: Owner, ino: nat, bn: nat, alloc: bool): Owner {
    if alloc then FillOwner(fs, owner, Path(ino, bn)) else owner
  }

  /** `tmpfs_bmap` answers the page of the block and keeps the invariant; with `alloc` it answers 0 exactly
      for a block out of range or when the free pages do not cover what the path lacks. */
  lemma BmapKeeps(fs: Fs, owner: Owner, pool: set<nat>, ino: nat, bn: nat, alloc: bool)
    requires Inv(fs, owner, pool) && ino < |fs.inodes|
    ensures var (fs', b) := Bmap(fs, ino, bn, alloc); var path := Path(ino, bn);
      && Inv(fs', BmapOwner(fs, owner, ino, bn, alloc), pool) && |fs'.inodes| == |fs.inodes|
      && (alloc ==> (b == 0 <==> bn >= 262666 || Missing(fs, path) > |fs.free|))
      && (b != 0 ==> path != [] && b == At(fs', path[|path| - 1]))
      && (forall q | PosOk(fs, q) :: At(fs', q) == At(fs, q) || (alloc && q in path && At(fs, q) == 0))
    ensures forall b | b in owner ::
        b in BmapOwner(fs, owner, ino, bn, alloc) && BmapOwner(fs, owner, ino, bn, alloc)[b] == owner[b]
    ensures forall b | b in BmapOwner(fs, owner, ino, bn, alloc) && b !in owner ::
        BmapOwner(fs, owner, ino, bn, alloc)[b].ino == ino
  {
    PathChain(fs, ino, bn);
    var path := Path(ino, bn);
    if path != [] && alloc {
      FillKeeps(fs, owner, pool, path);
      FillOwners(fs, owner, path, ino);
    }
  }

  lemma {:induction false} CallsKeep(fs: Fs, owner: Owner, pool: set<nat>, ino: nat, calls: seq<Call>)
    requires Inv(fs, owner, pool) && ino < |fs.inodes|
    ensures Inv(Calls(fs, ino, calls), CallsOwner(fs, owner, ino, calls), pool)
    ensures |Calls(fs, ino, calls).inodes| == |fs.inodes|
    ensures forall b | b in owner ::
        b in CallsOwner(fs, owner, ino, calls) && CallsOwner(fs, owner, ino, calls)[b] == owner[b]
    ensures forall b | b in CallsOwner(fs, owner, ino, calls) && b !in owner ::
        CallsOwner(fs, owner, ino, calls)[b].ino == ino
    decreases |calls|
  {
    if calls != [] {
      BmapKeeps(fs, owner, pool, ino, calls[0].bn, calls[0].alloc);
      CallsKeep(Bmap(fs, ino, calls[0].bn, calls[0].alloc).0, BmapOwner(fs, owner, ino, calls[0].bn, calls[0].alloc),
          pool, ino, calls[1..]);
    }
  }

  /** Whatever `tmpfs_bmap` took for an empty file, including calls that failed part way, is what a truncation that
      ends in `fs'` gives back. */
  lemma TakenReturned(fs: Fs, owner: Owner, pool: set<nat>, ino: nat, calls: seq<Call>, fs': Fs, owner': Owner)
    requires Inv(fs, owner, pool) && ino < |fs.inodes| && (forall q | PosOk(fs, q) && q.ino == ino :: At(fs, q) == 0)
    requires Inv(fs', owner', pool) && Freeing(CallsOwner(fs, owner, ino, calls), owner', ino)
    requires |fs'.inodes| == |fs.inodes|
    requires forall q | PosOk(fs', q) && q.ino == ino :: At(fs', q) == 0
    ensures Set(fs'.free) == Set(fs.free) && |fs'.free| == |fs.free|
  {
    CallsKeep(fs, owner, pool, ino, calls);
    NoneLeft(fs, owner, pool, ino);
    NoneLeft(fs', owner', pool, ino);
    FreeIs(fs, owner, pool);
    FreeIs(fs', owner', pool);
    SameOwners(owner, CallsOwner(fs, owner, ino, calls), owner', ino);
  }

  lemma SameOwners(owner: Owner, owner1: Owner, owner': Owner, ino: nat)
    requires (forall b | b in owner :: b in owner1 && owner1[b] == owner[b])
    requires (forall b | b in owner1 && b !in owner :: owner1[b].ino == ino)
    requires Freeing(owner1, owner', ino) && PagesOf(owner, ino) == {} && PagesOf(owner', ino) == {}
    ensures owner'.Keys == owner.Keys
  {
    forall b | b in owner ensures b in owner' { assert b !in PagesOf(owner, ino); }
    forall b | b in owner' ensures b in owner { assert b !in PagesOf(owner', ino); }
  }
}
