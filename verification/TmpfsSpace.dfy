/** When tmpfs finds its pages: exactly when the free pages cover those missing on the way. */
module TmpfsSpace {
  import opened Counting
  import opened Tmpfs

  /** The positions on the way to the blocks [lo, hi). */
  ghost function Paths(ino: nat, lo: nat, hi: nat): set<Pos> {
    set n, p | lo <= n < hi && p in Path(ino, n) :: p
  }

  /** The positions among `s` that still need a page. */
  ghost function Need(fs: Fs, s: set<Pos>): set<Pos> {
    set p | p in s && At(fs, p) == 0
  }

  ghost predicate Enough(fs: Fs, s: set<Pos>) {
    |Need(fs, s)| <= |fs.free|
  }

  lemma PathsOk(fs: Fs, ino: nat, lo: nat, hi: nat)
    requires ino < |fs.inodes|
    ensures forall p | p in Paths(ino, lo, hi) :: PosOk(fs, p)
  {
    forall p | p in Paths(ino, lo, hi) ensures PosOk(fs, p) {
      var n :| lo <= n < hi && p in Path(ino, n);
      PathChain(fs, ino, n);
    }
  }

  lemma PathsStep(ino: nat, n: nat, hi: nat)
    requires n < hi
    ensures Paths(ino, n, hi) == (set p | p in Path(ino, n)) + Paths(ino, n + 1, hi)
  {
  }

  /** One page taken meets one need. */
  lemma EnsureNeed(fs: Fs, owner: Owner, pool: set<nat>, p: Pos, s: set<Pos>)
    requires Inv(fs, owner, pool) && PosOk(fs, p) && (InTable(p) ==> At(fs, Parent(p)) != 0)
    requires p in s && forall q | q in s :: PosOk(fs, q)
    ensures var (fs', b) := Ensure(fs, p);
      && (b != 0 ==> (Enough(fs', s) <==> Enough(fs, s)))
      && (b == 0 ==> !Enough(fs, s))
  {
    EnsureKeeps(fs, owner, pool, p);
    var (fs', b) := Ensure(fs, p);
    if b == 0 {
      assert p in Need(fs, s);
    } else if At(fs, p) == 0 {
      assert Need(fs', s) == Need(fs, s) - {p} && p in Need(fs, s);
    } else {
      assert Need(fs', s) == Need(fs, s);
    }
  }

  /** Filling a path within `s` meets needs of `s` one page each, and all needs of the path. */
  lemma {:induction false} FillNeed(fs: Fs, owner: Owner, pool: set<nat>, path: seq<Pos>, s: set<Pos>)
    requires Inv(fs, owner, pool) && path != [] && Chain(fs, path)
    requires (InTable(path[0]) ==> At(fs, Parent(path[0])) != 0)
    requires forall x, y | 0 <= x < y < |path| :: path[x] != path[y]
    requires (forall p | p in path :: p in s) && forall q | q in s :: PosOk(fs, q)
    ensures var (fs', b) := Fill(fs, path);
      && (b != 0 ==> (Enough(fs', s) <==> Enough(fs, s)) && forall p | p in path :: At(fs', p) != 0)
      && (b == 0 ==> !Enough(fs, s))
    decreases |path|
  {
    var (fs1, b) := Ensure(fs, path[0]);
    EnsureKeeps(fs, owner, pool, path[0]);
    EnsureNeed(fs, owner, pool, path[0], s);
    if b != 0 && |path| > 1 {
      var rest := path[1..];
      assert rest[0] == path[1];
      FillNeed(fs1, OwnerAfter(fs, owner, path[0]), pool, rest, s);
      FillKeeps(fs1, OwnerAfter(fs, owner, path[0]), pool, rest);
      assert At(fs1, path[0]) == b;
    }
  }

  /** `tmpfs_bmap` finds a page if and only if the pages missing on the way fit in the free ones; and mapping one block
      of a range leaves the answer for the rest of the range unchanged. */
  lemma BmapNeed(fs: Fs, owner: Owner, pool: set<nat>, ino: nat, n: nat, hi: nat)
    requires Inv(fs, owner, pool) && ino < |fs.inodes| && n < hi && n < 262666
    ensures var (fs', b) := Bmap(fs, ino, n, true);
      && (b != 0 ==> (Enough(fs', Paths(ino, n + 1, hi)) <==> Enough(fs, Paths(ino, n, hi))))
      && (b == 0 ==> !Enough(fs, Paths(ino, n, hi)))
  {
    var (fs', b) := Bmap(fs, ino, n, true);
    PathsOk(fs, ino, n, hi);
    PathsStep(ino, n, hi);
    PathChain(fs, ino, n);
    FillNeed(fs, owner, pool, Path(ino, n), Paths(ino, n, hi));
    if b != 0 { assert Need(fs', Paths(ino, n + 1, hi)) == Need(fs', Paths(ino, n, hi)); }
  }

  /** With fewer blocks asked for, fewer pages are needed. */
  lemma EnoughLess(fs: Fs, ino: nat, lo: nat, mid: nat, hi: nat)
    requires mid <= hi && Enough(fs, Paths(ino, lo, hi))
    ensures Enough(fs, Paths(ino, lo, mid))
  {
    assert Need(fs, Paths(ino, lo, mid)) <= Need(fs, Paths(ino, lo, hi));
    SubsetCard(Need(fs, Paths(ino, lo, mid)), Need(fs, Paths(ino, lo, hi)));
  }

  /** A block that has its page needs nothing. */
  lemma {:induction false} PathHas(fs: Fs, path: seq<Pos>)
    requires path != [] && Chain(fs, path) && At(fs, path[|path| - 1]) != 0
    ensures forall p | p in path :: At(fs, p) != 0
    decreases |path|
  {
    if |path| > 1 {
      var last := path[|path| - 1];
      assert Parent(last) == path[|path| - 2];
      PathHas(fs, path[..|path| - 1]);
      assert path == path[..|path| - 1] + [last];
    }
  }

  // ----- one request after another -----

  /** Once the blocks [first, next) are mapped, the rest of any range fits exactly if the whole range did. */
  ghost predicate SpaceKept(fs0: Fs, fs: Fs, ino: nat, first: nat, next: nat) {
    forall hi: nat {:trigger Paths(ino, next, hi)} | next <= hi ::
      Enough(fs, Paths(ino, next, hi)) <==> Enough(fs0, Paths(ino, first, hi))
  }

  lemma SpaceNext(fs0: Fs, fs: Fs, owner: Owner, pool: set<nat>, ino: nat, first: nat, next: nat)
    requires Inv(fs, owner, pool) && ino < |fs.inodes| && next < 262666 && SpaceKept(fs0, fs, ino, first, next)
    ensures var (fs', b) := Bmap(fs, ino, next, true);
      && (b != 0 ==> SpaceKept(fs0, fs', ino, first, next + 1))
      && (b == 0 ==> forall hi: nat {:trigger Paths(ino, first, hi)} | next < hi :: !Enough(fs0, Paths(ino, first, hi)))
  {
    var (fs', b) := Bmap(fs, ino, next, true);
    forall hi: nat | next < hi
      ensures b != 0 ==> (Enough(fs', Paths(ino, next + 1, hi)) <==> Enough(fs0, Paths(ino, first, hi)))
      ensures b == 0 ==> !Enough(fs0, Paths(ino, first, hi))
    {
      BmapNeed(fs, owner, pool, ino, next, hi);
      assert Enough(fs, Paths(ino, next, hi)) <==> Enough(fs0, Paths(ino, first, hi));
    }
  }

  /** What is mapped already fitted. */
  lemma SpaceMapped(fs0: Fs, fs: Fs, ino: nat, first: nat, next: nat)
    requires SpaceKept(fs0, fs, ino, first, next)
    ensures Enough(fs0, Paths(ino, first, next))
  {
    assert Need(fs, Paths(ino, next, next)) == {};
    assert Enough(fs, Paths(ino, next, next));
  }
}
