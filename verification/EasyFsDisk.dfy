/** The EasyFS allocator and file operations as they update the disk in place. */
module EasyFsDisk {
  import opened EasyFs
  import opened EasyFsSpace
  import opened EasyFsFiles

  /** One bit of a bitmap byte. */
  function Mask(k: nat): bv8
    requires k < 8
  {
    match k
    case 0 => 1
    case 1 => 2
    case 2 => 4
    case 3 => 8
    case 4 => 16
    case 5 => 32
    case 6 => 64
    case 7 => 128
  }

  predicate TestBit(b: bv8, k: nat)
    requires k < 8
  {
    b & Mask(k) != 0
  }

  lemma SetMask(b: bv8, k: nat, j: nat)
    requires k < 8 && j < 8
    ensures TestBit(b | Mask(k), j) <==> j == k || TestBit(b, j)
    ensures TestBit(b & !Mask(k), j) <==> j != k && TestBit(b, j)
  {
  }

  lemma FullByte(k: nat)
    requires k < 8
    ensures TestBit(0xFF, k)
  {
  }

  /** The data bitmap block read as one flag per data block. */
  function Bits(bs: seq<bv8>): (r: seq<bool>)
    requires |bs| == BSIZE
    ensures |r| == NBITS && forall i :: 0 <= i < NBITS ==> r[i] == TestBit(bs[i / 8], i % 8)
  {
    seq(NBITS, (i: nat) requires i < NBITS => TestBit(bs[i / 8], i % 8))
  }

  function Flip(b: bv8, k: nat, on: bool): (r: bv8)
    requires k < 8
    ensures forall j: nat | j < 8 :: TestBit(r, j) <==> if j == k then on else TestBit(b, j)
  {
    forall j: nat | j < 8 ensures TestBit(b | Mask(k), j) <==> j == k || TestBit(b, j) { SetMask(b, k, j); }
    forall j: nat | j < 8 ensures TestBit(b & !Mask(k), j) <==> j != k && TestBit(b, j) { SetMask(b, k, j); }
    if on then b | Mask(k) else b & !Mask(k)
  }

  lemma FlipAt(bs: seq<bv8>, i: nat, v: bv8, on: bool, j: nat)
    requires |bs| == BSIZE && i < NBITS && j < NBITS
    requires forall k: nat | k < 8 :: TestBit(v, k) <==> if k == i % 8 then on else TestBit(bs[i / 8], k)
    ensures Bits(bs[i / 8 := v])[j] == Bits(bs)[i := on][j]
  {
    if j / 8 == i / 8 && j % 8 == i % 8 { assert j == i; }
  }

  /** Changing one bit of one byte changes one flag. */
  lemma FlipBit(bs: seq<bv8>, i: nat, v: bv8, on: bool)
    requires |bs| == BSIZE && i < NBITS
    requires forall k: nat | k < 8 :: TestBit(v, k) <==> if k == i % 8 then on else TestBit(bs[i / 8], k)
    ensures Bits(bs[i / 8 := v]) == Bits(bs)[i := on]
  {
    var was, now := Bits(bs)[i := on], Bits(bs[i / 8 := v]);
    forall j | 0 <= j < NBITS ensures now[j] == was[j] { FlipAt(bs, i, v, on, j); }
  }

  /** Filling an empty table entry with a new block is one store in the table's block. */
  lemma EnsureEntry(fs: Fs, owner: map<nat, Pos>, p: Pos, t: nat, k: nat)
    requires Inv(fs, owner) && PosOk(p) && InTable(p) && Table(fs, p) == t && t != 0 && Index(p) == k && At(fs, p) == 0
    ensures var (fs1, b) := Balloc(fs);
      b != 0 ==> t < |fs1.ptr| && Ensure(fs, p) == (fs1.(ptr := fs1.ptr[t := Upd(fs1.ptr[t], k, b)]), b)
  {
    var (fs1, b) := Balloc(fs);
    if b != 0 {
      AttachReady(fs, owner, p, b);
      TableOwned(fs, owner, p);
      TableIsParent(fs, p);
      TableIsParent(fs1, p);
      assert PosOk(Parent(p));
      assert Table(fs1, p) == t;
    }
  }

  lemma EnsureSound(fs: Fs, owner: map<nat, Pos>, p: Pos)
    requires Inv(fs, owner) && PosOk(p) && (InTable(p) ==> Table(fs, p) != 0)
    ensures Inv(Ensure(fs, p).0, OwnerAfter(fs, owner, p))
  {
    EnsureKeeps(fs, owner, p);
  }

  /** Where truncation stands: positions from `n` on are still to be freed. */
  ghost predicate Truncating(fs: Fs, owner: map<nat, Pos>, start: Fs, ino: nat, n: nat) {
    && ino < NINODES && n <= |TruncOrder(ino)|
    && Inv(fs, owner) && ChildrenFirst(fs, TruncOrder(ino)[n..])
    && FreeSeq(fs, TruncOrder(ino)[n..]) == FreeSeq(start, TruncOrder(ino))
  }

  lemma TruncStart(fs: Fs, owner: map<nat, Pos>, ino: nat)
    requires Inv(fs, owner) && ino < NINODES
    ensures Truncating(fs, owner, fs, ino, 0)
  {
    TruncOrdered(ino);
    assert TruncOrder(ino)[0..] == TruncOrder(ino);
  }

  lemma TruncStep(fs: Fs, owner: map<nat, Pos>, start: Fs, ino: nat, n: nat)
    requires Truncating(fs, owner, start, ino, n) && n < |TruncOrder(ino)|
    ensures var p := TruncOrder(ino)[n]; Truncating(FreeAt(fs, p), Disown(owner, At(fs, p)), start, ino, n + 1)
    ensures var p := TruncOrder(ino)[n]; PosOk(p) && Childless(fs, p)
  {
    var ps := TruncOrder(ino)[n..];
    var p := ps[0];
    FreeFirst(fs, owner, ps);
    assert ps[1..] == TruncOrder(ino)[n + 1..];
    forall q | PosOk(q) && InTable(q) && Parent(q) == p
      ensures At(fs, q) == 0
    {
      assert q in ps[..0] || At(fs, q) == 0;
    }
  }

  /** Positions that hold nothing are passed over. */
  lemma {:induction false} TruncSkip(fs: Fs, owner: map<nat, Pos>, start: Fs, ino: nat, n: nat, m: nat)
    requires Truncating(fs, owner, start, ino, n) && n <= m <= |TruncOrder(ino)|
    requires forall i | n <= i < m :: At(fs, TruncOrder(ino)[i]) == 0
    ensures Truncating(fs, owner, start, ino, m)
    decreases m - n
  {
    if n < m {
      var p := TruncOrder(ino)[n];
      TruncStep(fs, owner, start, ino, n);
      assert 0 !in owner;
      assert Disown(owner, 0) == owner;
      TruncSkip(fs, owner, start, ino, n + 1, m);
    }
  }

  /** The order in which the four loops of the truncation visit the positions. */
  lemma TruncVisits(ino: nat)
    ensures var ps := TruncOrder(ino);
      && |ps| == 1050636
      && (forall i | 0 <= i < 10 :: ps[i] == Direct(ino, i))
      && (forall i | 0 <= i < 1024 :: ps[10 + i] == Leaf1(ino, i))
      && ps[1034] == Single(ino) && ps[1050635] == Double(ino)
  {
    var ps := TruncOrder(ino);
    assert forall i | 0 <= i < 1024 :: ps[10 + i] == Leaves1(ino)[i];
  }

  lemma TruncVisitsMid(ino: nat, j: nat, k: nat)
    requires j < 1024 && k <= 1024
    ensures |TruncOrder(ino)| == 1050636
    ensures TruncOrder(ino)[1035 + j * 1025 + k] == if k == 1024 then Mid(ino, j) else Leaf2(ino, j, k)
  {
    MidIndex(ino, j, k);
    assert TruncOrder(ino)[1035 + j * 1025 + k] == Mids(ino)[j * 1025 + k];
  }

  /** The second-level table `j` and its entries are visited from place `n` on. */
  ghost predicate MidPlaces(ino: nat, j: nat, n: nat) {
    && n + 1025 <= |TruncOrder(ino)| && TruncOrder(ino)[n + 1024] == Mid(ino, j)
    && forall k | 0 <= k < 1024 :: TruncOrder(ino)[n + k] == Leaf2(ino, j, k)
  }

  lemma MidVisits(ino: nat, j: nat, n: nat)
    requires j < 1024 && n == 1035 + j * 1025
    ensures MidPlaces(ino, j, n)
  {
    TruncVisitsMid(ino, j, 1024);
    forall k | 0 <= k < 1024 ensures TruncOrder(ino)[n + k] == Leaf2(ino, j, k) { TruncVisitsMid(ino, j, k); }
  }

  /** With no table, the whole stretch of positions below it is empty. */
  lemma SkipSingle(fs: Fs, owner: map<nat, Pos>, start: Fs, ino: nat)
    requires Truncating(fs, owner, start, ino, 10) && Blk(fs, ino, 10) == 0
    ensures Truncating(fs, owner, start, ino, 1035)
  {
    TruncVisits(ino);
    forall i | 10 <= i < 1035 ensures At(fs, TruncOrder(ino)[i]) == 0 {
      if i < 1034 { assert TruncOrder(ino)[10 + (i - 10)] == Leaf1(ino, i - 10); }
    }
    TruncSkip(fs, owner, start, ino, 10, 1035);
  }

  lemma SkipMid(fs: Fs, owner: map<nat, Pos>, start: Fs, ino: nat, j: nat)
    requires j < 1024 && Truncating(fs, owner, start, ino, 1035 + j * 1025) && Ptr(fs, Blk(fs, ino, 11), j) == 0
    ensures Truncating(fs, owner, start, ino, 1035 + (j + 1) * 1025)
  {
    var lo := 1035 + j * 1025;
    MidVisits(ino, j, lo);
    SkipPlaces(fs, owner, start, ino, j, lo);
    assert lo + 1025 == 1035 + (j + 1) * 1025;
  }

  lemma SkipPlaces(fs: Fs, owner: map<nat, Pos>, start: Fs, ino: nat, j: nat, lo: nat)
    requires j < 1024 && Truncating(fs, owner, start, ino, lo) && Ptr(fs, Blk(fs, ino, 11), j) == 0
    requires MidPlaces(ino, j, lo)
    ensures Truncating(fs, owner, start, ino, lo + 1025)
  {
    forall i | lo <= i < lo + 1025 ensures At(fs, TruncOrder(ino)[i]) == 0 {
      if i < lo + 1024 { assert TruncOrder(ino)[lo + (i - lo)] == Leaf2(ino, j, i - lo); }
    }
    TruncSkip(fs, owner, start, ino, lo, lo + 1025);
  }

  lemma SkipDouble(fs: Fs, owner: map<nat, Pos>, start: Fs, ino: nat)
    requires Truncating(fs, owner, start, ino, 1035) && Blk(fs, ino, 11) == 0
    ensures Truncating(fs, owner, start, ino, 1050636)
  {
    TruncVisits(ino);
    forall i | 1035 <= i < 1050636 ensures At(fs, TruncOrder(ino)[i]) == 0 {
      if i < 1050635 {
        var j, k := (i - 1035) / 1025, (i - 1035) % 1025;
        TruncVisitsMid(ino, j, k);
        assert i == 1035 + j * 1025 + k;
      }
    }
    TruncSkip(fs, owner, start, ino, 1035, 1050636);
  }

  /** Clearing a table entry is one store in the table's block. */
  lemma FreeEntryIs(fs: Fs, owner: map<nat, Pos>, p: Pos, t: nat, k: nat)
    requires Inv(fs, owner) && PosOk(p) && Childless(fs, p) && InTable(p) && Table(fs, p) == t && t != 0
    requires Index(p) == k
    ensures t < |fs.ptr| && k < |fs.ptr[t]| && fs.ptr[t][k] == At(fs, p) && Inv(FreeAt(fs, p), Disown(owner, At(fs, p)))
    ensures var fs1 := SetBit(fs, At(fs, p), false); At(fs, p) != 0 ==>
      Marked(fs, At(fs, p)) && t < |fs1.ptr| && FreeAt(fs, p) == fs1.(ptr := fs1.ptr[t := Upd(fs1.ptr[t], k, 0)])
  {
    FreeAtKeeps(fs, owner, p);
    TableOwned(fs, owner, p);
    TableIsParent(fs, p);
    if At(fs, p) != 0 {
      var fs1 := SetBit(fs, At(fs, p), false);
      FreeReady(fs, owner, p);
      TableIsParent(fs1, p);
      assert PosOk(Parent(p));
      assert Table(fs1, p) == t;
    }
  }

  lemma FreeSlotIs(fs: Fs, owner: map<nat, Pos>, p: Pos)
    requires Inv(fs, owner) && PosOk(p) && Childless(fs, p) && !InTable(p)
    ensures Blk(fs, p.ino, Index(p)) == At(fs, p) && Inv(FreeAt(fs, p), Disown(owner, At(fs, p)))
    ensures At(fs, p) != 0 ==> Marked(fs, At(fs, p))
    ensures At(fs, p) != 0 ==> FreeAt(fs, p) == SetBlk(SetBit(fs, At(fs, p), false), p.ino, Index(p), 0)
  {
    FreeAtKeeps(fs, owner, p);
    assert SlotOk(fs, owner, p);
  }

  lemma KeepsOthers(fs: Fs, owner: map<nat, Pos>, p: Pos, q: Pos, q': Pos)
    requires Inv(fs, owner) && PosOk(p) && Childless(fs, p) && PosOk(q) && PosOk(q') && p != q && p != q'
    ensures At(FreeAt(fs, p), q) == At(fs, q) && At(FreeAt(fs, p), q') == At(fs, q')
  {
    FreeAtKeeps(fs, owner, p);
  }

  /** Entry `k` of the indirect block at a position. */
  function Child(p: Pos, k: nat): Pos {
    if p.Mid? then Leaf2(p.ino, p.j, k) else Leaf1(p.ino, k)
  }

  lemma MidEntry(fs: Fs, owner: map<nat, Pos>, ino: nat, j: nat)
    requires Inv(fs, owner) && ino < NINODES && j < 1024 && Blk(fs, ino, 11) != 0
    ensures var t := Blk(fs, ino, 11); t < |fs.ptr| && |fs.ptr[t]| == 1024 && fs.ptr[t][j] == At(fs, Mid(ino, j))
  {
    TableOwned(fs, owner, Mid(ino, j));
  }

  class Disk {
    var bits: seq<bv8>
    var ptr: seq<seq<nat>>
    var data: seq<seq<Byte>>
    var inodes: seq<Inode>
    ghost var owner: map<nat, Pos>

    /** A disk with the given contents. */
    constructor (bits0: seq<bv8>, ptr0: seq<seq<nat>>, data0: seq<seq<Byte>>, inodes0: seq<Inode>,
        ghost owner0: map<nat, Pos>)
      ensures bits == bits0 && ptr == ptr0 && data == data0 && inodes == inodes0 && owner == owner0
    {
      bits, ptr, data, inodes, owner := bits0, ptr0, data0, inodes0, owner0;
    }

    ghost function Abs(): Fs
      reads this
      requires |bits| == BSIZE
    {
      Fs(Bits(bits), ptr, data, inodes)
    }

    ghost predicate Valid()
      reads this
    {
      |bits| == BSIZE && Inv(Abs(), owner)
    }

    /** Clear a block's two views. */
    method Zero(b: nat)
      requires b < |ptr| && b < |data|
      modifies `ptr, `data
      ensures ptr == old(ptr)[b := ZeroPtrs()] && data == old(data)[b := ZeroBytes()]
    {
      ptr := ptr[b := ZeroPtrs()];
      data := data[b := ZeroBytes()];
    }

    /** Set or clear the bit of data block `i`. */
    method Mark(i: nat, on: bool)
      requires |bits| == BSIZE && i < NBITS
      modifies `bits
      ensures |bits| == BSIZE && Bits(bits) == Bits(old(bits))[i := on]
    {
      var v := Flip(bits[i / 8], i % 8, on);
      FlipBit(bits, i, v, on);
      bits := bits[i / 8 := v];
    }

    /** The scan of `balloc`. */
    method FindFree() returns (b: nat)
      requires |bits| == BSIZE
      ensures b == FirstFree(Abs(), 0)
    {
      var bit := 0;
      while bit < NBITS
        invariant 0 <= bit <= NBITS && FirstFree(Abs(), bit) == FirstFree(Abs(), 0)
      {
        if bits[bit / 8] == 0xFF {
          FullByte(bit % 8);
        } else if !TestBit(bits[bit / 8], bit % 8) {
          return bit + DATA_BLOCK;
        }
        bit := bit + 1;
      }
      b := 0;
    }

    /** `balloc`.  The caller records the block; until then it is marked but unowned. */
    method Balloc() returns (b: nat)
      requires |bits| == BSIZE && |ptr| == |data| == TOTAL_BLOCKS
      modifies `bits, `ptr, `data
      ensures |bits| == BSIZE && (Abs(), b) == EasyFs.Balloc(old(Abs()))
    {
      b := FindFree();
      if b != 0 {
        Mark(b - DATA_BLOCK, true);
        Zero(b);
      }
    }

    /** `bfree`: neither panic is reachable for a marked block. */
    method Bfree(b: nat)
      requires |bits| == BSIZE && |ptr| == |data| == TOTAL_BLOCKS && Marked(Abs(), b)
      modifies `bits, `ptr, `data
      ensures |bits| == BSIZE && Abs() == SetBit(old(Abs()), b, false)
    {
      if b < DATA_BLOCK || b >= TOTAL_BLOCKS {
        assert false;
      }
      var i := b - DATA_BLOCK;
      if !TestBit(bits[i / 8], i % 8) {
        assert false;
      }
      Mark(i, false);
      Zero(b);
    }

    method SetSlot(ino: nat, k: nat, b: nat)
      requires ino < |inodes| && k < |inodes[ino].blocks|
      modifies `inodes
      ensures inodes == old(inodes)[ino := old(inodes[ino]).(blocks := old(inodes[ino].blocks)[k := b])]
    {
      inodes := inodes[ino := inodes[ino].(blocks := inodes[ino].blocks[k := b])];
    }

    /** An inode slot, filled with a new block when it is empty. */
    method MapSlot(ino: nat, k: nat, ghost p: Pos) returns (b: nat)
      requires Valid() && PosOk(p) && !InTable(p) && p.ino == ino && Index(p) == k
      modifies this
      ensures Valid() && (Abs(), b) == Ensure(old(Abs()), p)
    {
      ghost var fs, o := Abs(), owner;
      EnsureKeeps(fs, o, p);
      b := inodes[ino].blocks[k];
      if b == 0 {
        b := Balloc();
        if b == 0 { return; }
        SetSlot(ino, k, b);
        owner := OwnerAfter(fs, o, p);
      }
    }

    /** An entry of an indirect block, filled with a new block when it is empty. */
    method MapEntry(t: nat, k: nat, ghost p: Pos) returns (b: nat)
      requires Valid() && PosOk(p) && InTable(p) && Table(Abs(), p) == t && t != 0 && Index(p) == k
      modifies this
      ensures Valid() && (Abs(), b) == Ensure(old(Abs()), p)
    {
      EnsureSound(Abs(), owner, p);
      TableOwned(Abs(), owner, p);
      b := ptr[t][k];
      if b == 0 {
        ghost var o := OwnerAfter(Abs(), owner, p);
        b := FillEntry(t, k, p);
        owner := o;
      }
    }

    /** A new block for an empty entry. */
    method FillEntry(t: nat, k: nat, ghost p: Pos) returns (b: nat)
      requires Valid() && PosOk(p) && InTable(p) && Table(Abs(), p) == t && t != 0 && Index(p) == k && At(Abs(), p) == 0
      modifies `bits, `ptr, `data
      ensures |bits| == BSIZE && (Abs(), b) == Ensure(old(Abs()), p)
    {
      EnsureEntry(Abs(), owner, p, t, k);
      b := Balloc();
      if b != 0 { ptr := ptr[t := Upd(ptr[t], k, b)]; }
    }

    /** `bmap`. */
    method Bmap(ino: nat, n: nat) returns (b: nat)
      requires Valid() && ino < NINODES
      modifies this
      ensures Valid() && (Abs(), b) == EasyFs.Bmap(old(Abs()), ino, n)
    {
      ghost var fs := Abs();
      if n < NDIRECT {
        b := MapSlot(ino, n, Direct(ino, n));
      } else if n < 1034 {
        var t := MapSlot(ino, 10, Single(ino));
        if t == 0 { return 0; }
        EnsureKeeps(fs, old(owner), Single(ino));
        b := MapEntry(t, n - 10, Leaf1(ino, n - 10));
      } else if n < 1049610 {
        var t := MapSlot(ino, 11, Double(ino));
        if t == 0 { return 0; }
        EnsureKeeps(fs, old(owner), Double(ino));
        ghost var fs1, o1 := Abs(), owner;
        var t2 := MapEntry(t, (n - 1034) / 1024, Mid(ino, (n - 1034) / 1024));
        if t2 == 0 { return 0; }
        EnsureKeeps(fs1, o1, Mid(ino, (n - 1034) / 1024));
        b := MapEntry(t2, (n - 1034) % 1024, Leaf2(ino, (n - 1034) / 1024, (n - 1034) % 1024));
      } else {
        return 0;
      }
    }

    /** `bmap` as the read and write loops use it. */
    method MapBlock(ino: nat, n: nat) returns (b: nat)
      requires Valid() && ino < NINODES
      modifies this
      ensures Valid() && Mapping(old(Abs()), Abs(), owner, ino, n, b)
    {
      ghost var fs, o := Abs(), owner;
      b := Bmap(ino, n);
      BmapMapping(fs, o, owner, ino, n);
    }

    /** Free a marked block and clear the inode slot that holds it. */
    method DropSlot(ino: nat, k: nat, b: nat)
      requires |bits| == BSIZE && |ptr| == |data| == TOTAL_BLOCKS && Marked(Abs(), b) && ino < |inodes|
      requires k < |inodes[ino].blocks|
      modifies `bits, `ptr, `data, `inodes
      ensures |bits| == BSIZE && Abs() == SetBlk(SetBit(old(Abs()), b, false), ino, k, 0)
    {
      Bfree(b);
      SetSlot(ino, k, 0);
    }

    /** Free the block in an inode slot. */
    method FreeSlot(ino: nat, k: nat, ghost p: Pos)
      requires Valid() && PosOk(p) && Childless(Abs(), p) && !InTable(p) && p.ino == ino && Index(p) == k
      modifies this
      ensures Valid() && Abs() == FreeAt(old(Abs()), p)
    {
      ghost var fs, o := Abs(), owner;
      FreeSlotIs(fs, o, p);
      var b := inodes[ino].blocks[k];
      owner := Disown(o, At(fs, p));
      if b != 0 {
        DropSlot(ino, k, b);
      }
    }

    /** Free the block in an entry of table `t`. */
    method FreeEntry(t: nat, k: nat, ghost p: Pos)
      requires Valid() && PosOk(p) && Childless(Abs(), p) && InTable(p) && Table(Abs(), p) == t && t != 0
      requires Index(p) == k
      modifies this
      ensures Valid() && Abs() == FreeAt(old(Abs()), p)
    {
      ghost var fs, o := Abs(), owner;
      FreeEntryIs(fs, o, p, t, k);
      var b := ptr[t][k];
      owner := Disown(o, At(fs, p));
      if b != 0 {
        Bfree(b);
        ptr := ptr[t := Upd(ptr[t], k, 0)];
      }
    }

    method FreeDirect(ino: nat, ghost start: Fs)
      requires Valid() && Truncating(Abs(), owner, start, ino, 0)
      modifies this
      ensures Valid() && Truncating(Abs(), owner, start, ino, 10)
    {
      TruncVisits(ino);
      var i := 0;
      while i < NDIRECT
        invariant 0 <= i <= NDIRECT && Valid() && Truncating(Abs(), owner, start, ino, i)
      {
        TruncStep(Abs(), owner, start, ino, i);
        FreeSlot(ino, i, Direct(ino, i));
        i := i + 1;
      }
    }

    /** Free the 1024 blocks an indirect block lists. */
    method FreeRow(t: nat, ghost parent: Pos, ghost keep: Pos, ghost start: Fs, ghost n: nat)
      requires Valid() && (parent.Single? || parent.Mid?) && PosOk(parent) && PosOk(keep) && !keep.Leaf1?
      requires !keep.Leaf2?
      requires t != 0 && At(Abs(), parent) == t && Truncating(Abs(), owner, start, parent.ino, n)
      requires n + 1024 <= |TruncOrder(parent.ino)|
      requires forall k | 0 <= k < 1024 :: TruncOrder(parent.ino)[n + k] == Child(parent, k)
      modifies this
      ensures Valid() && Truncating(Abs(), owner, start, parent.ino, n + 1024)
      ensures At(Abs(), parent) == t && At(Abs(), keep) == At(old(Abs()), keep)
    {
      ghost var kept, at := At(Abs(), keep), n;
      var i := 0;
      while i < NINDIRECT
        invariant 0 <= i <= NINDIRECT && Valid() && at == n + i && Truncating(Abs(), owner, start, parent.ino, at)
        invariant At(Abs(), parent) == t && At(Abs(), keep) == kept
      {
        FreeChild(t, i, parent, keep, start, at);
        i, at := i + 1, at + 1;
      }
    }

    /** One round: the block of entry `i`, at place `n` of the order. */
    method FreeChild(t: nat, i: nat, ghost parent: Pos, ghost keep: Pos, ghost start: Fs, ghost n: nat)
      requires Valid() && (parent.Single? || parent.Mid?) && PosOk(parent) && PosOk(keep) && !keep.Leaf1?
      requires !keep.Leaf2? && i < 1024
      requires t != 0 && At(Abs(), parent) == t && Truncating(Abs(), owner, start, parent.ino, n)
      requires n < |TruncOrder(parent.ino)| && TruncOrder(parent.ino)[n] == Child(parent, i)
      modifies this
      ensures Valid() && Truncating(Abs(), owner, start, parent.ino, n + 1)
      ensures At(Abs(), parent) == t && At(Abs(), keep) == At(old(Abs()), keep)
    {
      ghost var p := Child(parent, i);
      TruncStep(Abs(), owner, start, parent.ino, n);
      KeepsOthers(Abs(), owner, p, parent, keep);
      TableIsParent(Abs(), p);
      FreeEntry(t, i, p);
    }

    method FreeSingle(ino: nat, ghost start: Fs)
      requires Valid() && Truncating(Abs(), owner, start, ino, 10)
      modifies this
      ensures Valid() && Truncating(Abs(), owner, start, ino, 1035)
    {
      TruncVisits(ino);
      var t := inodes[ino].blocks[10];
      if t == 0 {
        SkipSingle(Abs(), owner, start, ino);
        return;
      }
      FreeRow(t, Single(ino), Single(ino), start, 10);
      TruncStep(Abs(), owner, start, ino, 1034);
      FreeSlot(ino, 10, Single(ino));
    }

    /** One second-level table: its data blocks and then the table itself. */
    method FreeMid(ino: nat, t: nat, j: nat, ghost start: Fs)
      requires Valid() && j < 1024 && Truncating(Abs(), owner, start, ino, 1035 + j * 1025) && Blk(Abs(), ino, 11) == t
      requires t != 0
      modifies this
      ensures Valid() && Truncating(Abs(), owner, start, ino, 1035 + (j + 1) * 1025) && Blk(Abs(), ino, 11) == t
    {
      TruncVisits(ino);
      ghost var mid := Mid(ino, j);
      MidEntry(Abs(), owner, ino, j);
      var t2 := ptr[t][j];
      if t2 == 0 {
        SkipMid(Abs(), owner, start, ino, j);
        return;
      }
      ghost var n := 1035 + j * 1025;
      MidVisits(ino, j, n);
      FreeMidTable(ino, t, t2, j, start, n);
      assert n + 1025 == 1035 + (j + 1) * 1025;
    }

    /** A second-level table that exists, at places `n` to `n` + 1024 of the order. */
    method FreeMidTable(ino: nat, t: nat, t2: nat, j: nat, ghost start: Fs, ghost n: nat)
      requires Valid() && j < 1024 && Truncating(Abs(), owner, start, ino, n) && Blk(Abs(), ino, 11) == t && t != 0
      requires t2 != 0 && At(Abs(), Mid(ino, j)) == t2 && MidPlaces(ino, j, n)
      modifies this
      ensures Valid() && Truncating(Abs(), owner, start, ino, n + 1025) && Blk(Abs(), ino, 11) == t
    {
      ghost var mid := Mid(ino, j);
      FreeRow(t2, mid, Double(ino), start, n);
      TruncStep(Abs(), owner, start, ino, n + 1024);
      KeepsOthers(Abs(), owner, mid, Double(ino), Double(ino));
      FreeEntry(t, j, mid);
    }

    /** Every second-level table of the double-indirect block. */
    method FreeMids(ino: nat, t: nat, ghost start: Fs)
      requires Valid() && Truncating(Abs(), owner, start, ino, 1035) && Blk(Abs(), ino, 11) == t && t != 0
      modifies this
      ensures Valid() && Truncating(Abs(), owner, start, ino, 1050635)
    {
      var j := 0;
      while j < NINDIRECT
        invariant 0 <= j <= NINDIRECT && Valid() && Truncating(Abs(), owner, start, ino, 1035 + j * 1025)
        invariant Blk(Abs(), ino, 11) == t
      {
        FreeMid(ino, t, j, start);
        j := j + 1;
      }
    }

    method FreeDouble(ino: nat, ghost start: Fs)
      requires Valid() && Truncating(Abs(), owner, start, ino, 1035)
      modifies this
      ensures Valid() && Truncating(Abs(), owner, start, ino, 1050636)
    {
      var t := inodes[ino].blocks[11];
      if t == 0 {
        SkipDouble(Abs(), owner, start, ino);
      } else {
        FreeMids(ino, t, start);
        TruncVisits(ino);
        TruncStep(Abs(), owner, start, ino, 1050635);
        FreeSlot(ino, 11, Double(ino));
      }
    }

    /** `easyfs_itrunc`: only truncation to length 0 is supported. */
    method Itrunc(ino: nat, size: nat) returns (r: int)
      requires Valid() && ino < NINODES
      modifies this
      ensures Valid()
      ensures size != 0 ==> r == -1 && Abs() == old(Abs())
      ensures size == 0 ==> r == 0 && Abs() == Trunc(old(Abs()), ino)
    {
      if size != 0 { return -1; }
      ghost var start := Abs();
      TruncStart(start, owner, ino);
      FreeDirect(ino, start);
      FreeSingle(ino, start);
      FreeDouble(ino, start);
      TruncVisits(ino);
      assert TruncOrder(ino)[1050636..] == [];
      SizeInv(Abs(), owner, ino);
      inodes := inodes[ino := inodes[ino].(size := 0)];
      r := 0;
    }

    /** One round of the write loop: map the block and store the chunk that falls in it, up to byte `to`; no
        progress when the block cannot be mapped. */
    method WriteBlock(ino: nat, src: seq<Byte>, off: nat, tot: nat, ghost start: Fs) returns (to: nat)
      requires Valid() && ino < NINODES && tot < |src| && off + |src| < 0x1_0000_0000
      requires Writing(start, Abs(), ino, off, src, tot)
      modifies this
      ensures Valid() && tot <= to <= |src|
      ensures to != tot ==> Writing(start, Abs(), ino, off, src, to)
      ensures to == tot ==> Patched(start, Abs(), ino, off, src[..tot]) && SameSizes(start, Abs())
      ensures to == tot ==> !Fits(start, ino, off, |src|)
    {
      ghost var fs := Abs();
      var at := off + tot;
      var b := MapBlock(ino, at / 4096);
      WriteMapped(start, fs, Abs(), owner, ino, off, src, tot, b);
      if b == 0 { return tot; }
      var m := Chunk(at, |src| - tot);
      to := tot + m;
      WriteRound(start, fs, Abs(), owner, ino, off, src, tot, b, at, at % 4096, m, to);
      StoreChunk(b, at % 4096, src[tot..to]);
    }

    /** The write loop: all bytes are stored exactly if there is room for their blocks. */
    method WriteBlocks(ino: nat, src: seq<Byte>, off: nat) returns (tot: nat)
      requires Valid() && ino < NINODES && off + |src| < 0x1_0000_0000
      modifies this
      ensures Valid() && tot <= |src| && Patched(old(Abs()), Abs(), ino, off, src[..tot])
      ensures SameSizes(old(Abs()), Abs())
      ensures tot == |src| <==> Fits(old(Abs()), ino, off, |src|)
    {
      ghost var start := Abs();
      tot := 0;
      PatchedNothing(start, start, ino, off);
      while tot < |src|
        invariant Valid() && 0 <= tot <= |src| && Writing(start, Abs(), ino, off, src, tot)
      {
        var to := WriteBlock(ino, src, off, tot, start);
        if to == tot { return; }
        tot := to;
      }
      FitsNothing(Abs(), ino, off + tot);
    }

    /** `easyfs_write_inode` from a kernel buffer. */
    method WriteInode(ino: nat, src: seq<Byte>, off: nat) returns (r: int)
      requires Valid() && ino < NINODES && off < 0x1_0000_0000 && |src| < 0x1_0000_0000
      modifies this
      ensures Valid()
      ensures r == -1 <==> off + |src| >= 0x1_0000_0000
      ensures r == -1 ==> Abs() == old(Abs())
      ensures r != -1 ==> 0 <= r <= |src| && Patched(old(Abs()), Abs(), ino, off, src[..r])
      ensures r != -1 ==> forall i: nat | i < NINODES ::
        SizeOf(Abs(), i) == if i == ino && off + r > SizeOf(old(Abs()), i) then off + r else SizeOf(old(Abs()), i)
      ensures r != -1 ==> (r == |src| <==> Fits(old(Abs()), ino, off, |src|))
    {
      if off + |src| >= 0x1_0000_0000 { return -1; }
      ghost var start := Abs();
      r := WriteBlocks(ino, src, off);
      UpdateSize(ino, off + r, start, off, src[..r]);
    }

    method StoreChunk(b: nat, off: nat, bytes: seq<Byte>)
      requires |bits| == BSIZE && b < |data| && off + |bytes| <= |data[b]|
      modifies `data
      ensures Abs() == PutBytes(old(Abs()), b, off, bytes)
    {
      data := data[b := data[b][..off] + bytes + data[b][off + |bytes|..]];
    }

    /** Record the end of a write as the size when it lies beyond it. */
    method UpdateSize(ino: nat, end: nat, ghost start: Fs, ghost off: nat, ghost bytes: seq<Byte>)
      requires Valid() && ino < NINODES && Patched(start, Abs(), ino, off, bytes) && SameSizes(start, Abs())
      modifies `inodes
      ensures Valid() && Patched(start, Abs(), ino, off, bytes)
      ensures forall i: nat | i < NINODES ::
          SizeOf(Abs(), i) == if i == ino && end > SizeOf(start, i) then end else SizeOf(start, i)
    {
      GrowSizeKeeps(Abs(), owner, ino, end);
      PatchedTrans(start, Abs(), GrowSize(Abs(), ino, end), ino, off, bytes, []);
      if end > inodes[ino].size {
        inodes := inodes[ino := inodes[ino].(size := end)];
      }
      assert bytes + [] == bytes;
    }

    /** One round of the read loop: the chunk of the next block, or nothing when it cannot be mapped. */
    method ReadBlock(ino: nat, off: nat, len: nat, dst: seq<Byte>, ghost start: Fs) returns (chunk: seq<Byte>)
      requires Valid() && ino < NINODES && |dst| < len && off + len < 0x1_0000_0000
      requires Reading(start, Abs(), ino, off, len, dst)
      modifies this
      ensures Valid() && SameFiles(start, Abs()) && |dst| + |chunk| <= len
      ensures chunk != [] ==> Reading(start, Abs(), ino, off, len, dst + chunk)
      ensures chunk == [] ==> !Fits(start, ino, off, len)
    {
      ghost var fs := Abs();
      var at := off + |dst|;
      var b := MapBlock(ino, at / 4096);
      var m := Chunk(at, len - |dst|);
      ReadRound(start, fs, Abs(), owner, ino, off, len, dst, b, at, at % 4096, m);
      if b == 0 { return []; }
      chunk := data[b][at % 4096..at % 4096 + m];
    }

    /** `easyfs_read_inode` into a kernel buffer. */
    method ReadInode(ino: nat, off: nat, size: nat) returns (r: int, dst: seq<Byte>)
      requires Valid() && ino < NINODES && off < 0x1_0000_0000 && size < 0x1_0000_0000
      modifies this
      ensures Valid() && SameFiles(old(Abs()), Abs())
      ensures r == -1 <==> off > SizeOf(old(Abs()), ino) || off + size >= 0x1_0000_0000
      ensures r == -1 ==> Abs() == old(Abs()) && dst == []
      ensures r != -1 ==> r == |dst| && off + r <= SizeOf(old(Abs()), ino) && r <= size
      ensures r != -1 ==> dst == Stretch(old(Abs()), ino, off, r)
      ensures r != -1 ==>
        var want := if off + size > SizeOf(old(Abs()), ino) then SizeOf(old(Abs()), ino) - off else size;
        (r == want <==> Fits(old(Abs()), ino, off, want))
    {
      dst := [];
      if off > inodes[ino].size || off + size >= 0x1_0000_0000 { return -1, []; }
      var want := if off + size > inodes[ino].size then inodes[ino].size - off else size;
      ghost var start := Abs();
      SameFilesRefl(start);
      while |dst| < want
        invariant Valid() && |dst| <= want && Reading(start, Abs(), ino, off, want, dst)
        decreases want - |dst|
      {
        var chunk := ReadBlock(ino, off, want, dst, start);
        if chunk == [] { break; }
        dst := dst + chunk;
      }
      if |dst| == want { FitsNothing(Abs(), ino, off + |dst|); }
      r := |dst|;
    }
  }
}
