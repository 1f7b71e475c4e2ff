/** When block mapping succeeds: exactly when the free blocks cover those missing on the way. */
module EasyFsSpace {
  import opened EasyFs

  /** The positions `bmap` visits for logical block `n`, top down. */
  function Path(ino: nat, n: nat): seq<Pos> {
    if n < 10 then [Direct(ino, n)]
    else if n < 1034 then [Single(ino), Leaf1(ino, n - 10)]
    else [Double(ino), Mid(ino, (n - 1034) / 1024), Leaf2(ino, (n - 1034) / 1024, (n - 1034) % 1024)]
  }

  /** All positions visited for logical blocks [lo, hi). */
  ghost function Paths(ino: nat, lo: nat, hi: nat): set<Pos> {
    set n, p | lo <= n < hi && p in Path(ino, n) :: p
  }

  /** The positions among `s` that still need a block. */
  ghost function Need(fs: Fs, s: set<Pos>): set<Pos> {
    set p | p in s && At(fs, p) == 0
  }

  ghost predicate Enough(fs: Fs, s: set<Pos>) {
    |Need(fs, s)| <= |FreeSet(fs)|
  }

  /** One allocation uses one free block and meets one need. */
  lemma EnsureNeed(fs: Fs, owner: map<nat, Pos>, p: Pos, s: set<Pos>)
    requires Inv(fs, owner) && PosOk(p) && (InTable(p) ==> Table(fs, p) != 0) && p in s && forall q | q in s :: PosOk(q)
    ensures var (fs', b) := Ensure(fs, p);
      && (b != 0 ==> (Enough(fs', s) <==> Enough(fs, s)))
      && (b == 0 ==> !Enough(fs, s))
  {
    EnsureKeeps(fs, owner, p);
    var (fs', b) := Ensure(fs, p);
    if b == 0 {
      assert FreeSet(fs) == {};
      assert p in Need(fs, s);
    } else if At(fs, p) == 0 {
      assert Need(fs', s) == Need(fs, s) - {p} && p in Need(fs, s);
      assert FreeSet(fs') == FreeSet(fs) - {b} && b in FreeSet(fs);
    }
  }

  lemma PathOk(ino: nat, n: nat)
    requires ino < NINODES && n < 1049610
    ensures forall p | p in Path(ino, n) :: PosOk(p)
  {
  }

  lemma EnsureNeedStep(fs: Fs, owner: map<nat, Pos>, p: Pos, s: set<Pos>)
    requires Inv(fs, owner) && PosOk(p) && (InTable(p) ==> Table(fs, p) != 0) && p in s && forall q | q in s :: PosOk(q)
    ensures var (fs', b) := Ensure(fs, p); var owner' := OwnerAfter(fs, owner, p);
      && Inv(fs', owner') && At(fs', p) == b
      && (forall q | PosOk(q) && At(fs, q) != 0 :: At(fs', q) == At(fs, q))
      && (b != 0 ==> (Enough(fs', s) <==> Enough(fs, s))) && (b == 0 ==> !Enough(fs, s))
  {
    EnsureKeeps(fs, owner, p);
    EnsureNeed(fs, owner, p, s);
  }

  /** `bmap` finds a block if and only if the blocks missing on the way fit in the free ones; and
      mapping one block of a range leaves the answer for the rest of the range unchanged. */
  lemma BmapNeed(fs: Fs, owner: map<nat, Pos>, ino: nat, n: nat, hi: nat)
    requires Inv(fs, owner) && ino < NINODES && n < hi <= 1049610
    ensures var (fs', b) := Bmap(fs, ino, n);
      && (b != 0 ==> (Enough(fs', Paths(ino, n + 1, hi)) <==> Enough(fs, Paths(ino, n, hi))))
      && (b == 0 ==> !Enough(fs, Paths(ino, n, hi)))
  {
    var s := Paths(ino, n, hi);
    PathsOk(ino, n, hi);
    PathsStep(ino, n, hi);
    var (fs', b) := Bmap(fs, ino, n);
    if n < 10 {
      assert Path(ino, n)[0] == Direct(ino, n);
      EnsureNeedStep(fs, owner, Direct(ino, n), s);
    } else if n < 1034 {
      BmapNeedSingle(fs, owner, ino, n, s);
    } else {
      BmapNeedDouble(fs, owner, ino, n, s);
    }
    if b != 0 { NeedRest(fs', ino, n, hi); }
  }

  lemma PathsOk(ino: nat, lo: nat, hi: nat)
    requires ino < NINODES && hi <= 1049610
    ensures forall p | p in Paths(ino, lo, hi) :: PosOk(p)
  {
    forall p | p in Paths(ino, lo, hi) ensures PosOk(p) {
      var n :| lo <= n < hi && p in Path(ino, n);
      PathOk(ino, n);
    }
  }

  lemma PathsStep(ino: nat, n: nat, hi: nat)
    requires n < hi
    ensures Paths(ino, n, hi) == (set p | p in Path(ino, n)) + Paths(ino, n + 1, hi)
  {
  }

  lemma NeedRest(fs: Fs, ino: nat, n: nat, hi: nat)
    requires n < hi && forall p | p in Path(ino, n) :: At(fs, p) != 0
    ensures Need(fs, Paths(ino, n + 1, hi)) == Need(fs, Paths(ino, n, hi))
  {
    PathsStep(ino, n, hi);
  }

  lemma BmapNeedSingle(fs: Fs, owner: map<nat, Pos>, ino: nat, n: nat, s: set<Pos>)
    requires Inv(fs, owner) && ino < NINODES && 10 <= n < 1034 && (forall q | q in s :: PosOk(q))
    requires forall p | p in Path(ino, n) :: p in s
    ensures var (fs', b) := Bmap(fs, ino, n);
      && (b != 0 ==> (Enough(fs', s) <==> Enough(fs, s)) && forall p | p in Path(ino, n) :: At(fs', p) != 0)
      && (b == 0 ==> !Enough(fs, s))
  {
    assert Path(ino, n)[0] == Single(ino) && Path(ino, n)[1] == Leaf1(ino, n - 10);
    EnsureNeedStep(fs, owner, Single(ino), s);
    var (fs1, t) := Ensure(fs, Single(ino));
    if t != 0 { EnsureNeedStep(fs1, OwnerAfter(fs, owner, Single(ino)), Leaf1(ino, n - 10), s); }
  }

  lemma BmapNeedDouble(fs: Fs, owner: map<nat, Pos>, ino: nat, n: nat, s: set<Pos>)
    requires Inv(fs, owner) && ino < NINODES && 1034 <= n < 1049610 && (forall q | q in s :: PosOk(q))
    requires forall p | p in Path(ino, n) :: p in s
    ensures var (fs', b) := Bmap(fs, ino, n);
      && (b != 0 ==> (Enough(fs', s) <==> Enough(fs, s)) && forall p | p in Path(ino, n) :: At(fs', p) != 0)
      && (b == 0 ==> !Enough(fs, s))
  {
    var j, k := (n - 1034) / 1024, (n - 1034) % 1024;
    assert Path(ino, n)[0] == Double(ino) && Path(ino, n)[1] == Mid(ino, j) && Path(ino, n)[2] == Leaf2(ino, j, k);
    EnsureNeedStep(fs, owner, Double(ino), s);
    var (fs1, t) := Ensure(fs, Double(ino));
    if t != 0 { BmapNeedBelow(fs1, OwnerAfter(fs, owner, Double(ino)), ino, j, k, s); }
  }

  lemma BmapNeedBelow(fs: Fs, owner: map<nat, Pos>, ino: nat, j: nat, k: nat, s: set<Pos>)
    requires Inv(fs, owner) && ino < NINODES && j < 1024 && k < 1024 && At(fs, Double(ino)) != 0
    requires (forall q | q in s :: PosOk(q)) && Mid(ino, j) in s && Leaf2(ino, j, k) in s
    ensures var (fs', b) := BmapBelow(fs, ino, j, k);
      && (b != 0 ==> (Enough(fs', s) <==> Enough(fs, s)) && At(fs', Double(ino)) != 0 && At(fs', Mid(ino, j)) != 0)
      && (b != 0 ==> At(fs', Leaf2(ino, j, k)) != 0)
      && (b == 0 ==> !Enough(fs, s))
  {
    EnsureNeedStep(fs, owner, Mid(ino, j), s);
    var (fs1, t) := Ensure(fs, Mid(ino, j));
    if t != 0 { EnsureNeedStep(fs1, OwnerAfter(fs, owner, Mid(ino, j)), Leaf2(ino, j, k), s); }
  }
}
