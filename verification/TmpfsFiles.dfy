/** `tmpfs_bmap` and `tmpfs_free_blocks` as they run, on the page words in place. */
module TmpfsFiles {
  import opened Tmpfs

  class Files {
    var free: seq<nat>
    var mem: seq<seq<nat>>
    var inodes: seq<seq<nat>>
    ghost var owner: Owner
    ghost const pool: set<nat>
    ghost const count: nat

    /** A file system with the given pages and inodes. */
    constructor (free0: seq<nat>, mem0: seq<seq<nat>>, inodes0: seq<seq<nat>>, ghost owner0: Owner,
        ghost pool0: set<nat>)
      ensures Abs() == Fs(free0, mem0, inodes0) && owner == owner0 && pool == pool0 && count == |mem0|
    {
      free, mem, inodes, owner, pool, count := free0, mem0, inodes0, owner0, pool0, |mem0|;
    }

    ghost function Abs(): Fs
      reads this
    {
      Fs(free, mem, inodes)
    }

    ghost predicate Valid()
      reads this
    {
      Inv(Abs(), owner, pool) && |mem| == count
    }

    /** A cleared page from the free list. */
    method Kalloc() returns (b: nat)
      requires forall x | 0 <= x < |free| :: 0 < free[x] < |mem|
      modifies `free, `mem
      ensures old(free) == [] ==> b == 0 && Abs() == old(Abs())
      ensures old(free) != [] ==> b == old(free)[0] && Abs() == Taken(old(Abs()))
    {
      if free == [] { return 0; }
      b := free[0];
      free := free[1..];
      mem := mem[b := Zeros()];
    }

    method Kfree(b: nat)
      requires b < |mem|
      modifies `free, `mem
      ensures Abs() == Clear(old(Abs()), b).(free := [b] + old(free))
    {
      mem := mem[b := Zeros()];
      free := [b] + free;
    }

    /** A block slot of the inode, filled when `alloc` asks for it. */
    method MapSlot(ino: nat, k: nat, alloc: bool) returns (b: nat)
      requires Valid() && ino < |inodes| && k < 12
      modifies this
      ensures Valid()
      ensures (Abs(), b) ==
        (if alloc then Ensure(old(Abs()), Slot(ino, k)) else (old(Abs()), At(old(Abs()), Slot(ino, k))))
      ensures owner == if alloc then OwnerAfter(old(Abs()), old(owner), Slot(ino, k)) else old(owner)
    {
      ghost var fs := Abs();
      EnsureKeeps(fs, owner, pool, Slot(ino, k));
      b := inodes[ino][k];
      if alloc && b == 0 {
        b := Kalloc();
        if b != 0 {
          owner := OwnerAfter(fs, owner, Slot(ino, k));
          inodes := inodes[ino := Upd(inodes[ino], k, b)];
        }
      }
    }

    /** Word `i` of the pointer page `t`, filled when `alloc` asks for it. */
    method MapWord(t: nat, i: nat, alloc: bool, ghost p: Pos) returns (b: nat)
      requires Valid() && PosOk(Abs(), p) && InTable(p) && At(Abs(), Parent(p)) == t && t != 0 && Index(p) == i
      modifies this
      ensures Valid() && (Abs(), b) == (if alloc then Ensure(old(Abs()), p) else (old(Abs()), At(old(Abs()), p)))
      ensures owner == if alloc then OwnerAfter(old(Abs()), old(owner), p) else old(owner)
    {
      ghost var fs := Abs();
      EnsureKeeps(fs, owner, pool, p);
      assert Holds(fs, owner, Parent(p)) && Owned(fs, owner, t);
      b := mem[t][i];
      if alloc && b == 0 {
        if free != [] { TakenInv(fs, owner, pool); }
        b := Kalloc();
        if b != 0 {
          owner := OwnerAfter(fs, owner, p);
          mem := mem[t := Upd(mem[t], i, b)];
        }
      }
    }

    /** The branch of `tmpfs_bmap` below the indirect page: two positions. */
    method MapSingle(ino: nat, n: nat, alloc: bool) returns (b: nat)
      requires Valid() && ino < |inodes| && n < 512
      modifies this
      ensures Valid()
      ensures owner == if alloc then FillOwner(old(Abs()), old(owner), [Slot(ino, 10), Leaf1(ino, n)]) else old(owner)
      ensures (Abs(), b) ==
        if alloc then Fill(old(Abs()), [Slot(ino, 10), Leaf1(ino, n)]) else (old(Abs()), At(old(Abs()), Leaf1(ino, n)))
    {
      FillTwo(Abs(), Slot(ino, 10), Leaf1(ino, n));
      OwnerTwo(Abs(), owner, Slot(ino, 10), Leaf1(ino, n));
      EnsureKeeps(Abs(), owner, pool, Slot(ino, 10));
      b := MapSlot(ino, 10, alloc);
      if b == 0 { return; }
      b := MapWord(b, n, alloc, Leaf1(ino, n));
    }

    /** Below page `t` of the double-indirect root: two positions. */
    method MapBelow(ino: nat, t: nat, j: nat, i: nat, alloc: bool) returns (b: nat)
      requires Valid() && ino < |inodes| && j < 512 && i < 512 && At(Abs(), Slot(ino, 11)) == t && t != 0
      modifies this
      ensures Valid()
      ensures owner == if alloc then FillOwner(old(Abs()), old(owner), [Mid(ino, j), Leaf2(ino, j, i)]) else old(owner)
      ensures (Abs(), b) ==
        if alloc then Fill(old(Abs()), [Mid(ino, j), Leaf2(ino, j, i)])
        else (old(Abs()), At(old(Abs()), Leaf2(ino, j, i)))
    {
      FillTwo(Abs(), Mid(ino, j), Leaf2(ino, j, i));
      OwnerTwo(Abs(), owner, Mid(ino, j), Leaf2(ino, j, i));
      EnsureKeeps(Abs(), owner, pool, Mid(ino, j));
      b := MapWord(t, j, alloc, Mid(ino, j));
      if b == 0 { return; }
      b := MapWord(b, i, alloc, Leaf2(ino, j, i));
    }

    /** The branch of `tmpfs_bmap` below the double-indirect page. */
    method MapDouble(ino: nat, j: nat, i: nat, alloc: bool) returns (b: nat)
      requires Valid() && ino < |inodes| && j < 512 && i < 512
      modifies this
      ensures Valid()
      ensures owner ==
        if alloc then FillOwner(old(Abs()), old(owner), [Slot(ino, 11), Mid(ino, j), Leaf2(ino, j, i)]) else old(owner)
      ensures (Abs(), b) ==
        if alloc then Fill(old(Abs()), [Slot(ino, 11), Mid(ino, j), Leaf2(ino, j, i)])
        else (old(Abs()), At(old(Abs()), Leaf2(ino, j, i)))
    {
      FillThree(Abs(), Slot(ino, 11), Mid(ino, j), Leaf2(ino, j, i));
      OwnerThree(Abs(), owner, Slot(ino, 11), Mid(ino, j), Leaf2(ino, j, i));
      EnsureKeeps(Abs(), owner, pool, Slot(ino, 11));
      b := MapSlot(ino, 11, alloc);
      if b == 0 { return; }
      b := MapBelow(ino, b, j, i, alloc);
    }

    /** `tmpfs_bmap`. */
    method Bmap(ino: nat, bn: nat, alloc: bool) returns (b: nat)
      requires Valid() && ino < |inodes|
      modifies this
      ensures Valid() && (Abs(), b) == Tmpfs.Bmap(old(Abs()), ino, bn, alloc)
      ensures owner == BmapOwner(old(Abs()), old(owner), ino, bn, alloc)
    {
      if bn < 10 {
        b := MapSlot(ino, bn, alloc);
        return;
      }
      var n := bn - 10;
      if n < 512 {
        b := MapSingle(ino, n, alloc);
        return;
      }
      n := n - 512;
      if n < 262144 {
        b := MapDouble(ino, n / 512, n % 512, alloc);
        return;
      }
      b := 0;
    }

    /** Give back the page in a slot of the inode. */
    method FreeSlot(ino: nat, k: nat)
      requires Valid() && ino < |inodes| && k < 12 && Childless(Abs(), Slot(ino, k))
      modifies this
      ensures Valid() && Abs() == FreeAt(old(Abs()), Slot(ino, k))
      ensures owner == old(owner) - {At(old(Abs()), Slot(ino, k))}
    {
      ghost var p := Slot(ino, k);
      FreeAtKeeps(Abs(), owner, pool, p);
      assert Holds(Abs(), owner, p) && Owned(Abs(), owner, At(Abs(), p));
      var b := inodes[ino][k];
      owner := owner - {b};
      if b != 0 {
        Kfree(b);
        inodes := inodes[ino := Upd(inodes[ino], k, 0)];
      }
    }

    /** Give back the page in word `i` of the pointer page `t`. */
    method FreeWord(t: nat, i: nat, ghost p: Pos)
      requires Valid() && PosOk(Abs(), p) && InTable(p) && At(Abs(), Parent(p)) == t && t != 0 && Index(p) == i
      requires Childless(Abs(), p)
      modifies this
      ensures Valid() && Abs() == FreeAt(old(Abs()), p) && owner == old(owner) - {At(old(Abs()), p)}
    {
      ghost var fs := Abs();
      FreeAtKeeps(fs, owner, pool, p);
      assert Holds(fs, owner, Parent(p)) && Owned(fs, owner, t) && Holds(fs, owner, p) && Owned(fs, owner, At(fs, p));
      var b := mem[t][i];
      if b != 0 { ClearInv(fs, owner, pool, b, p); }
      owner := owner - {b};
      if b != 0 {
        Kfree(b);
        mem := mem[t := Upd(mem[t], i, 0)];
      }
    }

    /** Give back every page listed in the pointer page `t` at position `p`. */
    method FreeRow(t: nat, ghost p: Pos)
      requires Valid() && PosOk(Abs(), p) && (p.Mid? || p == Slot(p.ino, 10)) && At(Abs(), p) == t && t != 0
      modifies this
      ensures Valid() && |inodes| == |old(inodes)| && Freeing(old(owner), owner, p.ino) && At(Abs(), p) == t
      ensures Childless(Abs(), p)
    {
      var i := 0;
      while i < 512
        invariant 0 <= i <= 512 && Valid() && |inodes| == |old(inodes)| && Freeing(old(owner), owner, p.ino)
        invariant At(Abs(), p) == t
        invariant forall x: nat {:trigger Child(p, x)} | x < i :: At(Abs(), Child(p, x)) == 0
      {
        ghost var fs, o, q := Abs(), owner, Child(p, i);
        FreeAtKeeps(fs, o, pool, q);
        FreeingOne(fs, o, pool, q);
        FreeWord(t, i, q);
        FreeingTrans(old(owner), o, owner, p.ino);
        i := i + 1;
      }
      ChildrenAre(Abs(), p);
    }

    method FreeDirect(ino: nat)
      requires Valid() && ino < |inodes|
      modifies this
      ensures Valid() && |inodes| == |old(inodes)| && Freeing(old(owner), owner, ino)
      ensures forall k: nat | k < 10 :: At(Abs(), Slot(ino, k)) == 0
    {
      var k := 0;
      while k < 10
        invariant 0 <= k <= 10 && Valid() && |inodes| == |old(inodes)| && Freeing(old(owner), owner, ino)
        invariant forall x: nat | x < k :: At(Abs(), Slot(ino, x)) == 0
      {
        ghost var o := owner;
        FreeAtKeeps(Abs(), o, pool, Slot(ino, k));
        FreeingOne(Abs(), o, pool, Slot(ino, k));
        FreeSlot(ino, k);
        FreeingTrans(old(owner), o, owner, ino);
        k := k + 1;
      }
    }

    /** Give back the root in slot `k`, whose words are all empty. */
    method FreeRoot(ino: nat, k: nat)
      requires Valid() && ino < |inodes| && k < 12 && Childless(Abs(), Slot(ino, k))
      modifies this
      ensures Valid() && |inodes| == |old(inodes)| && Freeing(old(owner), owner, ino) && At(Abs(), Slot(ino, k)) == 0
    {
      FreeAtKeeps(Abs(), owner, pool, Slot(ino, k));
      FreeingOne(Abs(), owner, pool, Slot(ino, k));
      FreeSlot(ino, k);
    }

    method FreeSingle(ino: nat)
      requires Valid() && ino < |inodes|
      modifies this
      ensures Valid() && |inodes| == |old(inodes)| && Freeing(old(owner), owner, ino) && At(Abs(), Slot(ino, 10)) == 0
    {
      var t := inodes[ino][10];
      if t != 0 {
        FreeRow(t, Slot(ino, 10));
        ghost var o := owner;
        FreeRoot(ino, 10);
        FreeingTrans(old(owner), o, owner, ino);
      }
    }

    /** One entry of the double-indirect page: the pages below it, then the page itself. */
    method FreeMid(ino: nat, t: nat, j: nat)
      requires Valid() && ino < |inodes| && j < 512 && At(Abs(), Slot(ino, 11)) == t && t != 0
      modifies this
      ensures Valid() && |inodes| == |old(inodes)| && Freeing(old(owner), owner, ino) && At(Abs(), Slot(ino, 11)) == t
      ensures At(Abs(), Mid(ino, j)) == 0
    {
      ghost var fs, p := Abs(), Mid(ino, j);
      assert Holds(fs, owner, Slot(ino, 11)) && Owned(fs, owner, t);
      var m := mem[t][j];
      if m != 0 {
        FreeRow(m, p);
        ghost var o := owner;
        TableStays(fs, old(owner), Abs(), o, pool, p);
        FreeAtKeeps(Abs(), o, pool, p);
        FreeingOne(Abs(), o, pool, p);
        FreeWord(t, j, p);
        FreeingTrans(old(owner), o, owner, ino);
      }
    }

    method FreeDouble(ino: nat)
      requires Valid() && ino < |inodes|
      modifies this
      ensures Valid() && |inodes| == |old(inodes)| && Freeing(old(owner), owner, ino) && At(Abs(), Slot(ino, 11)) == 0
    {
      var t := inodes[ino][11];
      if t == 0 { return; }
      var j := 0;
      while j < 512
        invariant 0 <= j <= 512 && Valid() && |inodes| == |old(inodes)| && Freeing(old(owner), owner, ino)
        invariant At(Abs(), Slot(ino, 11)) == t
        invariant forall x: nat {:trigger Child(Slot(ino, 11), x)} | x < j :: At(Abs(), Child(Slot(ino, 11), x)) == 0
      {
        ghost var fs, o := Abs(), owner;
        FreeMid(ino, t, j);
        FreeingTrans(old(owner), o, owner, ino);
        forall x: nat | x < j
          ensures At(Abs(), Child(Slot(ino, 11), x)) == 0
        {
          FreeingAt(fs, o, Abs(), owner, pool, ino, Child(Slot(ino, 11), x));
        }
        j := j + 1;
      }
      ChildrenAre(Abs(), Slot(ino, 11));
      ghost var o := owner;
      FreeRoot(ino, 11);
      FreeingTrans(old(owner), o, owner, ino);
    }

    /** `tmpfs_free_blocks`: every page of the inode goes back to `kalloc`, once, and no other; the file is
        empty and all others are as before. */
    method FreeBlocks(ino: nat)
      requires Valid() && ino < |inodes|
      modifies this
      ensures Valid() && |inodes| == |old(inodes)| && Freeing(old(owner), owner, ino)
      ensures forall q | PosOk(Abs(), q) :: At(Abs(), q) == if q.ino == ino then 0 else At(old(Abs()), q)
      ensures Set(free) == Set(old(free)) + PagesOf(old(owner), ino)
      ensures |free| == |old(free)| + |PagesOf(old(owner), ino)|
    {
      ghost var fs0, o0 := Abs(), owner;
      FreeDirect(ino);
      ghost var fs1, o1 := Abs(), owner;
      FreeSingle(ino);
      ghost var fs2, o2 := Abs(), owner;
      FreeingTrans(o0, o1, o2, ino);
      FreeDouble(ino);
      FreeingTrans(o0, o2, owner, ino);
      FreeingTrans(o1, o2, owner, ino);
      forall q | PosOk(Abs(), q) ensures At(Abs(), q) == if q.ino == ino then 0 else At(fs0, q) {
        FreeingAt(fs0, o0, Abs(), owner, pool, ino, q);
        FreeingAt(fs1, o1, Abs(), owner, pool, ino, q);
        FreeingAt(fs2, o2, Abs(), owner, pool, ino, Slot(ino, 10));
      }
      FreedExactly(fs0, o0, Abs(), owner, pool, ino);
    }

    /** Any number of `tmpfs_bmap` calls, as reads and writes make them. */
    method MapAll(ino: nat, calls: seq<Call>)
      requires Valid() && ino < |inodes|
      modifies this
      ensures Valid() && |inodes| == |old(inodes)|
      ensures Abs() == Calls(old(Abs()), ino, calls) && owner == CallsOwner(old(Abs()), old(owner), ino, calls)
    {
      var k := 0;
      while k < |calls|
        invariant k <= |calls| && Valid() && |inodes| == |old(inodes)|
        invariant Calls(Abs(), ino, calls[k..]) == Calls(old(Abs()), ino, calls)
        invariant CallsOwner(Abs(), owner, ino, calls[k..]) == CallsOwner(old(Abs()), old(owner), ino, calls)
      {
        BmapKeeps(Abs(), owner, pool, ino, calls[k].bn, calls[k].alloc);
        assert calls[k..][1..] == calls[k + 1..];
        var b := Bmap(ino, calls[k].bn, calls[k].alloc);
        k := k + 1;
      }
    }

    /** An empty file after any calls, failed ones included, and the truncation: the free pages are the ones there
        were before, and the file is empty again. */
    method MapAndTruncate(ino: nat, calls: seq<Call>)
      requires Valid() && ino < |inodes| && forall q | PosOk(Abs(), q) && q.ino == ino :: At(Abs(), q) == 0
      modifies this
      ensures Valid() && |inodes| == |old(inodes)| && Set(free) == Set(old(free)) && |free| == |old(free)|
      ensures forall q | PosOk(Abs(), q) && q.ino == ino :: At(Abs(), q) == 0
    {
      ghost var fs, o := Abs(), owner;
      MapAll(ino, calls);
      FreeBlocks(ino);
      TakenReturned(fs, o, pool, ino, calls, Abs(), owner);
    }
  }
}
