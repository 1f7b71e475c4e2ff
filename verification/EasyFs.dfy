/** EasyFS block mapping: inode block trees over a bitmap of data blocks.

    A block has two views, `ptr` (1024 block numbers) and `data` (4096 bytes).  Ownership keeps
    the blocks used as indirect tables apart from the blocks that hold file bytes. */
module EasyFs {

  const DATA_BLOCK: nat := 11
  const TOTAL_BLOCKS: nat := 4096
  const NBITS: nat := 4085           // TOTAL_BLOCKS - DATA_BLOCK
  const BSIZE: nat := 4096
  const NDIRECT: nat := 10
  const NINDIRECT: nat := 1024
  const NINODES: nat := 448          // 7 blocks of 64

  type Byte = b: int | 0 <= b < 256

  /** In-memory inode: size and the 12 block slots (10 direct, single, double indirect). */
  datatype Inode = Inode(size: nat, blocks: seq<nat>)

  datatype Fs = Fs(bitmap: seq<bool>, ptr: seq<seq<nat>>, data: seq<seq<Byte>>, inodes: seq<Inode>)

  /** A place in the inode trees that holds a block number. */
  datatype Pos =
    | Direct(ino: nat, k: nat)
    | Single(ino: nat)
    | Double(ino: nat)
    | Leaf1(ino: nat, k: nat)
    | Mid(ino: nat, j: nat)
    | Leaf2(ino: nat, j: nat, k: nat)

  ghost predicate PosOk(p: Pos) {
    && p.ino < NINODES
    && match p
       case Direct(_, k) => k < NDIRECT
       case Single(_) => true
       case Double(_) => true
       case Leaf1(_, k) => k < NINDIRECT
       case Mid(_, j) => j < NINDIRECT
       case Leaf2(_, j, k) => j < NINDIRECT && k < NINDIRECT
  }

  function Blk(fs: Fs, ino: nat, k: nat): nat {
    if ino < |fs.inodes| && k < |fs.inodes[ino].blocks| then fs.inodes[ino].blocks[k] else 0
  }

  function Ptr(fs: Fs, b: nat, k: nat): nat {
    if 0 < b < |fs.ptr| && k < |fs.ptr[b]| then fs.ptr[b][k] else 0
  }

  /** The block whose table holds this position; 0 for the inode's own slots. */
  function Table(fs: Fs, p: Pos): nat {
    match p
    case Direct(_, _) => 0
    case Single(_) => 0
    case Double(_) => 0
    case Leaf1(ino, _) => Blk(fs, ino, 10)
    case Mid(ino, _) => Blk(fs, ino, 11)
    case Leaf2(ino, j, _) => Ptr(fs, Blk(fs, ino, 11), j)
  }

  /** The block number stored at a position, 0 when it or a table above it is absent. */
  function At(fs: Fs, p: Pos): nat {
    match p
    case Direct(ino, k) => Blk(fs, ino, k)
    case Single(ino) => Blk(fs, ino, 10)
    case Double(ino) => Blk(fs, ino, 11)
    case Leaf1(_, k) => Ptr(fs, Table(fs, p), k)
    case Mid(_, j) => Ptr(fs, Table(fs, p), j)
    case Leaf2(_, _, k) => Ptr(fs, Table(fs, p), k)
  }

  predicate Marked(fs: Fs, b: nat) {
    DATA_BLOCK <= b < TOTAL_BLOCKS && b - DATA_BLOCK < |fs.bitmap| && fs.bitmap[b - DATA_BLOCK]
  }

  ghost predicate Shape(fs: Fs) {
    && |fs.bitmap| == NBITS && |fs.ptr| == TOTAL_BLOCKS && |fs.data| == TOTAL_BLOCKS && |fs.inodes| == NINODES
    && (forall b :: 0 <= b < TOTAL_BLOCKS ==> |fs.ptr[b]| == NINDIRECT && |fs.data[b]| == BSIZE)
    && (forall i :: 0 <= i < NINODES ==> |fs.inodes[i].blocks| == 12)
  }

  ghost predicate OwnerOk(fs: Fs, owner: map<nat, Pos>, b: nat) {
    b in owner && PosOk(owner[b]) && At(fs, owner[b]) == b
  }

  ghost predicate SlotOk(fs: Fs, owner: map<nat, Pos>, p: Pos) {
    At(fs, p) != 0 ==> At(fs, p) in owner && owner[At(fs, p)] == p
  }

  /** Marked blocks and non-zero positions correspond one to one: `owner` names, for every marked
      block, the one position that holds it. */
  ghost predicate Inv(fs: Fs, owner: map<nat, Pos>) {
    && Shape(fs)
    && (forall b :: b in owner <==> Marked(fs, b))
    && (forall b {:trigger OwnerOk(fs, owner, b)} :: b in owner ==> OwnerOk(fs, owner, b))
    && (forall p {:trigger SlotOk(fs, owner, p)} :: PosOk(p) ==> SlotOk(fs, owner, p))
  }

  // ----- primitives -----

  function Upd<T>(s: seq<T>, i: nat, v: T): seq<T> {
    if i < |s| then s[i := v] else s
  }

  function ZeroPtrs(): (z: seq<nat>)
    ensures |z| == NINDIRECT && forall i :: 0 <= i < NINDIRECT ==> z[i] == 0
  {
    seq(NINDIRECT, _ => 0)
  }

  function ZeroBytes(): (z: seq<Byte>)
    ensures |z| == BSIZE && forall i :: 0 <= i < BSIZE ==> z[i] == 0
  {
    seq(BSIZE, _ => 0)
  }

  /** Set a block's bit and zero its contents (`balloc` and `bfree` both zero it). */
  function SetBit(fs: Fs, b: nat, on: bool): Fs {
    fs.(bitmap := if b >= DATA_BLOCK then Upd(fs.bitmap, b - DATA_BLOCK, on) else fs.bitmap,
        ptr := Upd(fs.ptr, b, ZeroPtrs()), data := Upd(fs.data, b, ZeroBytes()))
  }

  function SetBlk(fs: Fs, ino: nat, k: nat, b: nat): Fs {
    if ino < |fs.inodes| then
      fs.(inodes := fs.inodes[ino := fs.inodes[ino].(blocks := Upd(fs.inodes[ino].blocks, k, b))])
    else fs
  }

  function SetPtr(fs: Fs, t: nat, k: nat, b: nat): Fs {
    if 0 < t < |fs.ptr| then fs.(ptr := fs.ptr[t := Upd(fs.ptr[t], k, b)]) else fs
  }

  /** Store block number `b` at position `p`. */
  function Put(fs: Fs, p: Pos, b: nat): Fs {
    match p
    case Direct(ino, k) => SetBlk(fs, ino, k, b)
    case Single(ino) => SetBlk(fs, ino, 10, b)
    case Double(ino) => SetBlk(fs, ino, 11, b)
    case Leaf1(_, k) => SetPtr(fs, Table(fs, p), k, b)
    case Mid(_, j) => SetPtr(fs, Table(fs, p), j, b)
    case Leaf2(_, _, k) => SetPtr(fs, Table(fs, p), k, b)
  }

  /** The position of the table that holds `p`, for positions inside a table. */
  function Parent(p: Pos): Pos {
    match p
    case Leaf1(ino, _) => Single(ino)
    case Mid(ino, _) => Double(ino)
    case Leaf2(ino, j, _) => Mid(ino, j)
    case _ => p
  }

  predicate InTable(p: Pos) {
    p.Leaf1? || p.Mid? || p.Leaf2?
  }

  /** The index of `p` within its table. */
  function Index(p: Pos): nat {
    match p
    case Leaf1(_, k) => k
    case Mid(_, j) => j
    case Leaf2(_, _, k) => k
    case Direct(_, k) => k
    case Single(_) => 10
    case Double(_) => 11
  }

  lemma TableIsParent(fs: Fs, p: Pos)
    requires InTable(p)
    ensures Table(fs, p) == At(fs, Parent(p)) && At(fs, p) == Ptr(fs, At(fs, Parent(p)), Index(p))
  {
  }

  /** The table of a position is owned by the parent position, so no two positions share a cell. */
  lemma TableOwned(fs: Fs, owner: map<nat, Pos>, p: Pos)
    requires Inv(fs, owner) && PosOk(p) && InTable(p) && Table(fs, p) != 0
    ensures Table(fs, p) in owner && owner[Table(fs, p)] == Parent(p) && DATA_BLOCK <= Table(fs, p) < TOTAL_BLOCKS
  {
    assert SlotOk(fs, owner, Parent(p));
  }

  ghost predicate Slots(fs: Fs, owner: map<nat, Pos>) {
    forall p {:trigger SlotOk(fs, owner, p)} :: PosOk(p) ==> SlotOk(fs, owner, p)
  }

  lemma SamePlace(p: Pos, q: Pos)
    requires InTable(p) && InTable(q) && Parent(p) == Parent(q) && Index(p) == Index(q)
    ensures p == q
  {
  }

  /** The table under `b` already says what the positions below `p` hold. */
  ghost predicate Hangs(fs: Fs, p: Pos, b: nat) {
    forall q | PosOk(q) && InTable(q) && Parent(q) == p :: Ptr(fs, b, Index(q)) == At(fs, q)
  }

  lemma PutCell(fs: Fs, p: Pos, b: nat, t: nat, k: nat)
    requires Shape(fs) && PosOk(p) && InTable(p) && 0 < Table(fs, p) < TOTAL_BLOCKS
    ensures Ptr(Put(fs, p, b), t, k) == if t == Table(fs, p) && k == Index(p) then b else Ptr(fs, t, k)
  {
  }

  lemma PutInode(fs: Fs, p: Pos, b: nat, i: nat, k: nat)
    requires Shape(fs) && PosOk(p) && !InTable(p)
    ensures Blk(Put(fs, p, b), i, k) == if i == p.ino && k == Index(p) then b else Blk(fs, i, k)
  {
  }

  /** Storing at one position changes no other. */
  lemma PutTop(fs: Fs, p: Pos, b: nat, q: Pos)
    requires Shape(fs) && PosOk(p) && PosOk(q) && !InTable(p) && Hangs(fs, p, b)
    ensures At(Put(fs, p, b), q) == if q == p then b else At(fs, q)
  {
    var fs' := Put(fs, p, b);
    assert fs'.ptr == fs.ptr;
    PutInode(fs, p, b, q.ino, 10);
    PutInode(fs, p, b, q.ino, 11);
    match q
    case Direct(i, k) => PutInode(fs, p, b, i, k);
    case Single(_) =>
    case Double(_) =>
    case Leaf1(_, _) =>
    case Mid(_, _) =>
    case Leaf2(i, j, k) => assert PosOk(Mid(i, j)) && Parent(Mid(i, j)) == Double(i);
  }

  lemma PutTable(fs: Fs, owner: map<nat, Pos>, p: Pos, b: nat, q: Pos)
    requires Shape(fs) && Slots(fs, owner) && PosOk(p) && PosOk(q) && InTable(p) && 0 < Table(fs, p) < TOTAL_BLOCKS
    requires b != Table(fs, p) && Hangs(fs, p, b)
    ensures At(Put(fs, p, b), q) == if q == p then b else At(fs, q)
  {
    var fs' := Put(fs, p, b);
    assert fs'.inodes == fs.inodes;
    assert SlotOk(fs, owner, Parent(p));
    forall t, k
      ensures Ptr(fs', t, k) == if t == Table(fs, p) && k == Index(p) then b else Ptr(fs, t, k)
    {
      PutCell(fs, p, b, t, k);
    }
    if InTable(q) {
      assert SlotOk(fs, owner, Parent(q));
      if Table(fs, q) == Table(fs, p) && Index(q) == Index(p) { SamePlace(p, q); }
      if q.Leaf2? {
        var mid := Mid(q.ino, q.j);
        assert SlotOk(fs, owner, Parent(mid));
        if Table(fs, mid) == Table(fs, p) && Index(mid) == Index(p) { SamePlace(p, mid); }
      }
    }
  }

  lemma PutAt(fs: Fs, owner: map<nat, Pos>, p: Pos, b: nat)
    requires Shape(fs) && Slots(fs, owner) && PosOk(p) && Hangs(fs, p, b)
    requires InTable(p) ==> 0 < Table(fs, p) < TOTAL_BLOCKS && b != Table(fs, p)
    ensures Shape(Put(fs, p, b)) && Put(fs, p, b).bitmap == fs.bitmap && Put(fs, p, b).data == fs.data
    ensures forall q :: PosOk(q) ==> At(Put(fs, p, b), q) == if q == p then b else At(fs, q)
  {
    forall q | PosOk(q) ensures At(Put(fs, p, b), q) == if q == p then b else At(fs, q) {
      if InTable(p) { PutTable(fs, owner, p, b, q); } else { PutTop(fs, p, b, q); }
    }
  }

  /** Setting a bit and zeroing a block moves no position, if no position with a value sits in it. */
  lemma SetBitAt(fs: Fs, b: nat, on: bool)
    requires Shape(fs) && DATA_BLOCK <= b < TOTAL_BLOCKS
    requires forall q | PosOk(q) && InTable(q) && Table(fs, q) == b :: At(fs, q) == 0
    ensures var fs' := SetBit(fs, b, on);
      && Shape(fs') && fs'.inodes == fs.inodes && fs'.data == fs.data[b := ZeroBytes()]
      && (forall x :: Marked(fs', x) <==> if x == b then on else Marked(fs, x))
      && (forall k :: Ptr(fs', b, k) == 0)
      && (forall q :: PosOk(q) ==> At(fs', q) == At(fs, q))
  {
    var fs' := SetBit(fs, b, on);
    assert forall t, k :: Ptr(fs', t, k) == if t == b then 0 else Ptr(fs, t, k);
    forall q | PosOk(q) ensures At(fs', q) == At(fs, q) {
      if q.Leaf2? {
        var mid := Mid(q.ino, q.j);
        assert PosOk(mid) && InTable(mid);
        assert At(fs', mid) == At(fs, mid);
      }
    }
  }

  // ----- allocation -----

  /** The lowest clear bit from `bit` on, as a block number; 0 when all are set. */
  function FirstFree(fs: Fs, bit: nat): (b: nat)
    ensures b != 0 ==> DATA_BLOCK + bit <= b < DATA_BLOCK + |fs.bitmap| && !fs.bitmap[b - DATA_BLOCK]
    ensures b == 0 ==> forall i :: bit <= i < |fs.bitmap| ==> fs.bitmap[i]
    ensures b != 0 ==> forall i :: bit <= i < b - DATA_BLOCK ==> fs.bitmap[i]
    decreases |fs.bitmap| - bit
  {
    if bit >= |fs.bitmap| then 0
    else if !fs.bitmap[bit] then bit + DATA_BLOCK
    else FirstFree(fs, bit + 1)
  }

  /** `balloc`: mark the lowest free block and zero it. */
  function Balloc(fs: Fs): (Fs, nat) {
    var b := FirstFree(fs, 0);
    if b == 0 then (fs, 0) else (SetBit(fs, b, true), b)
  }

  /** Read the block number at a position, allocating a block for it when it is 0. */
  function Ensure(fs: Fs, p: Pos): (Fs, nat) {
    if At(fs, p) != 0 then (fs, At(fs, p)) else
    var (fs1, b) := Balloc(fs);
    if b == 0 then (fs, 0) else (Put(fs1, p, b), b)
  }

  function OwnerAfter(fs: Fs, owner: map<nat, Pos>, p: Pos): map<nat, Pos> {
    var (_, b) := Ensure(fs, p);
    if At(fs, p) == 0 && b != 0 then owner[b := p] else owner
  }

  ghost predicate DiskFull(fs: Fs) {
    forall b :: DATA_BLOCK <= b < TOTAL_BLOCKS ==> Marked(fs, b)
  }

  /** Position `p` holds a block; every other position, every other block's bytes and all sizes are kept. */
  ghost predicate Ensured(fs: Fs, fs': Fs, p: Pos, b: nat) {
    && b != 0 && At(fs', p) == b && (At(fs, p) != 0 ==> fs' == fs)
    && (forall q :: PosOk(q) && q != p ==> At(fs', q) == At(fs, q))
    && (At(fs, p) == 0 ==> !Marked(fs, b) && DATA_BLOCK <= b < TOTAL_BLOCKS && |fs'.data| == |fs.data| == TOTAL_BLOCKS)
    && (At(fs, p) == 0 ==> fs'.data == fs.data[b := ZeroBytes()])
    && |fs'.inodes| == |fs.inodes| && (forall i :: 0 <= i < |fs.inodes| ==> fs'.inodes[i].size == fs.inodes[i].size)
  }

  lemma EnsureKeeps(fs: Fs, owner: map<nat, Pos>, p: Pos)
    requires Inv(fs, owner) && PosOk(p) && (InTable(p) ==> Table(fs, p) != 0)
    ensures var (fs', b) := Ensure(fs, p);
      && Inv(fs', OwnerAfter(fs, owner, p))
      && (b == 0 ==> fs' == fs && DiskFull(fs) && At(fs, p) == 0)
      && (b != 0 ==> Ensured(fs, fs', p, b))
  {
    assert SlotOk(fs, owner, p);
    if At(fs, p) == 0 {
      var (fs1, b) := Balloc(fs);
      if b != 0 {
        AttachKeeps(fs, owner, p, b);
      } else {
        forall x | DATA_BLOCK <= x < TOTAL_BLOCKS ensures Marked(fs, x) { assert fs.bitmap[x - DATA_BLOCK]; }
      }
    }
  }

  lemma AttachReady(fs: Fs, owner: map<nat, Pos>, p: Pos, b: nat)
    requires Inv(fs, owner) && PosOk(p) && (InTable(p) ==> Table(fs, p) != 0) && At(fs, p) == 0
    requires DATA_BLOCK <= b < TOTAL_BLOCKS && !Marked(fs, b)
    ensures var fs1 := SetBit(fs, b, true);
      && Shape(fs1) && Slots(fs1, owner) && Hangs(fs1, p, b) && fs1.inodes == fs.inodes
      && fs1.data == fs.data[b := ZeroBytes()]
      && (InTable(p) ==> 0 < Table(fs1, p) < TOTAL_BLOCKS && b != Table(fs1, p))
      && (forall x :: Marked(fs1, x) <==> x == b || Marked(fs, x))
      && (forall q :: PosOk(q) ==> At(fs1, q) == At(fs, q))
  {
    var fs1 := SetBit(fs, b, true);
    forall q | PosOk(q) && InTable(q) && Table(fs, q) == b
      ensures At(fs, q) == 0
    {
      assert SlotOk(fs, owner, Parent(q));
    }
    SetBitAt(fs, b, true);
    forall q | PosOk(q) ensures SlotOk(fs1, owner, q) { assert SlotOk(fs, owner, q); }
    if InTable(p) { TableOwned(fs, owner, p); TableIsParent(fs, p); TableIsParent(fs1, p); assert PosOk(Parent(p)); }
    forall q | PosOk(q) && InTable(q) && Parent(q) == p
      ensures Ptr(fs1, b, Index(q)) == At(fs1, q)
    {
      TableIsParent(fs, q);
    }
  }

  lemma AttachKeeps(fs: Fs, owner: map<nat, Pos>, p: Pos, b: nat)
    requires Inv(fs, owner) && PosOk(p) && (InTable(p) ==> Table(fs, p) != 0) && At(fs, p) == 0
    requires DATA_BLOCK <= b < TOTAL_BLOCKS && !Marked(fs, b)
    ensures Inv(Put(SetBit(fs, b, true), p, b), owner[b := p]) && Ensured(fs, Put(SetBit(fs, b, true), p, b), p, b)
  {
    var fs1 := SetBit(fs, b, true);
    var fs' := Put(fs1, p, b);
    var owner' := owner[b := p];
    AttachReady(fs, owner, p, b);
    PutAt(fs1, owner, p, b);
    PutSizes(fs1, p, b);
    forall x | x in owner' ensures OwnerOk(fs', owner', x) { if x != b { assert OwnerOk(fs, owner, x); } }
    forall q | PosOk(q) ensures SlotOk(fs', owner', q) { assert SlotOk(fs, owner, q); }
  }

  lemma PutSizes(fs: Fs, p: Pos, b: nat)
    ensures |Put(fs, p, b).inodes| == |fs.inodes|
    ensures forall i :: 0 <= i < |fs.inodes| ==> Put(fs, p, b).inodes[i].size == fs.inodes[i].size
  {
  }

  // ----- release -----

  /** `bfree` the block at a position and clear the position; nothing if it is already 0. */
  function FreeAt(fs: Fs, p: Pos): Fs {
    var b := At(fs, p);
    if b == 0 then fs else Put(SetBit(fs, b, false), p, 0)
  }

  function Disown(owner: map<nat, Pos>, b: nat): map<nat, Pos> {
    map x | x in owner && x != b :: owner[x]
  }

  /** Position `p` is cleared; every other position and every other block's bytes are kept. */
  ghost predicate Cleared(fs: Fs, fs': Fs, p: Pos) {
    && (forall q :: PosOk(q) ==> At(fs', q) == if q == p then 0 else At(fs, q))
    && |fs'.data| == |fs.data| && (forall x :: 0 <= x < |fs.data| && x != At(fs, p) ==> fs'.data[x] == fs.data[x])
    && |fs'.inodes| == |fs.inodes| && (forall i :: 0 <= i < |fs.inodes| ==> fs'.inodes[i].size == fs.inodes[i].size)
  }

  ghost predicate Childless(fs: Fs, p: Pos) {
    forall q | PosOk(q) && InTable(q) && Parent(q) == p :: At(fs, q) == 0
  }

  lemma FreeReady(fs: Fs, owner: map<nat, Pos>, p: Pos)
    requires Inv(fs, owner) && PosOk(p) && Childless(fs, p) && At(fs, p) != 0
    ensures var b := At(fs, p); var fs1 := SetBit(fs, b, false);
      && DATA_BLOCK <= b < TOTAL_BLOCKS && Marked(fs, b)
      && Shape(fs1) && Slots(fs1, owner) && Hangs(fs1, p, 0) && fs1.inodes == fs.inodes
      && fs1.data == fs.data[b := ZeroBytes()]
      && (InTable(p) ==> 0 < Table(fs1, p) < TOTAL_BLOCKS)
      && (forall x :: Marked(fs1, x) <==> x != b && Marked(fs, x))
      && (forall q :: PosOk(q) ==> At(fs1, q) == At(fs, q))
  {
    var b := At(fs, p);
    var fs1 := SetBit(fs, b, false);
    assert SlotOk(fs, owner, p);
    forall q | PosOk(q) && InTable(q) && Table(fs, q) == b
      ensures At(fs, q) == 0
    {
      assert SlotOk(fs, owner, Parent(q));
    }
    SetBitAt(fs, b, false);
    forall q | PosOk(q) ensures SlotOk(fs1, owner, q) { assert SlotOk(fs, owner, q); }
    if InTable(p) { TableOwned(fs, owner, p); }
  }

  lemma FreeAtKeeps(fs: Fs, owner: map<nat, Pos>, p: Pos)
    requires Inv(fs, owner) && PosOk(p) && Childless(fs, p)
    ensures Inv(FreeAt(fs, p), Disown(owner, At(fs, p))) && Cleared(fs, FreeAt(fs, p), p)
  {
    var b := At(fs, p);
    var owner' := Disown(owner, b);
    if b == 0 {
      assert 0 !in owner;
      assert owner' == owner;
    } else {
      var fs1 := SetBit(fs, b, false);
      var fs' := Put(fs1, p, 0);
      FreeReady(fs, owner, p);
      PutAt(fs1, owner, p, 0);
      PutSizes(fs1, p, 0);
      assert SlotOk(fs, owner, p);
      forall x | x in owner' ensures OwnerOk(fs', owner', x) { assert OwnerOk(fs, owner, x); }
      forall q | PosOk(q) ensures SlotOk(fs', owner', q) { assert SlotOk(fs, owner, q); }
    }
  }

  // ----- file contents -----

  const MAXFILE: nat := 1049610      // 10 + 1024 + 1024 * 1024

  /** The position that holds the data block of logical block `n`. */
  function DataPos(ino: nat, n: nat): Pos {
    if n < 10 then Direct(ino, n)
    else if n < 1034 then Leaf1(ino, n - 10)
    else Leaf2(ino, (n - 1034) / 1024, (n - 1034) % 1024)
  }

  lemma DataPosOk(ino: nat, n: nat)
    requires ino < NINODES && n < 1049610
    ensures PosOk(DataPos(ino, n))
  {
  }

  lemma DataPosInjective(ino: nat, n: nat, ino': nat, n': nat)
    requires n < 1049610 && n' < 1049610 && DataPos(ino, n) == DataPos(ino', n')
    ensures ino == ino' && n == n'
  {
  }

  /** Where the block numbers of a file are kept: ten in the inode, 1024 in the table its eleventh slot names, and
      1024 each in the tables named by the table its twelfth slot names. */
  lemma DataPosHolds(fs: Fs, ino: nat, j: nat, k: nat)
    requires j < 1024 && k < 1024
    ensures k < 10 ==> At(fs, DataPos(ino, k)) == Blk(fs, ino, k)
    ensures At(fs, DataPos(ino, 10 + k)) == Ptr(fs, Blk(fs, ino, 10), k)
    ensures At(fs, DataPos(ino, 1034 + 1024 * j + k)) == Ptr(fs, Ptr(fs, Blk(fs, ino, 11), j), k)
  {
  }

  /** The byte of file `ino` at offset `x`; unallocated blocks read as zero. */
  function FileByte(fs: Fs, ino: nat, x: nat): Byte {
    var b := At(fs, DataPos(ino, x / 4096));
    if 0 < b < |fs.data| && x % 4096 < |fs.data[b]| then fs.data[b][x % 4096] else 0
  }

  ghost predicate SameByte(fs: Fs, fs': Fs, ino: nat, x: nat) {
    FileByte(fs', ino, x) == FileByte(fs, ino, x)
  }

  ghost predicate SameSizes(fs: Fs, fs': Fs) {
    forall i: nat {:trigger SizeOf(fs', i)} | i < NINODES :: SizeOf(fs', i) == SizeOf(fs, i)
  }

  /** Every file has the same bytes and the same size. */
  ghost predicate SameFiles(fs: Fs, fs': Fs) {
    && (forall ino: nat, x: nat {:trigger SameByte(fs, fs', ino, x)} ::
          ino < NINODES && x < 4299202560 ==> SameByte(fs, fs', ino, x))
    && SameSizes(fs, fs')
  }

  function SizeOf(fs: Fs, ino: nat): nat {
    if ino < |fs.inodes| then fs.inodes[ino].size else 0
  }

  /** Allocating a block for any position changes no file: the block is zero, as the hole was. */
  lemma EnsuredFiles(fs: Fs, owner: map<nat, Pos>, fs': Fs, p: Pos, b: nat)
    requires Inv(fs, owner) && PosOk(p) && Ensured(fs, fs', p, b)
    ensures SameFiles(fs, fs')
  {
    forall ino: nat, x: nat | ino < NINODES && x < 4299202560 ensures SameByte(fs, fs', ino, x) {
      var q := DataPos(ino, x / 4096);
      DataPosOk(ino, x / 4096);
      assert SlotOk(fs, owner, q);
    }
  }

  lemma SameFilesTrans(a: Fs, b: Fs, c: Fs)
    requires SameFiles(a, b) && SameFiles(b, c)
    ensures SameFiles(a, c)
  {
    forall ino: nat, x: nat | ino < NINODES && x < 4299202560 ensures SameByte(a, c, ino, x) {
      assert SameByte(a, b, ino, x) && SameByte(b, c, ino, x);
    }
    forall i: nat | i < NINODES ensures SizeOf(c, i) == SizeOf(a, i) { assert SizeOf(b, i) == SizeOf(a, i); }
  }

  lemma SameFilesRefl(fs: Fs)
    ensures SameFiles(fs, fs)
  {
    assert forall ino: nat, x: nat {:trigger SameByte(fs, fs, ino, x)} ::
        ino < NINODES && x < 4299202560 ==> SameByte(fs, fs, ino, x);
  }

  /** `bmap`: the data block of logical block `n`, with every missing block on the way allocated. */
  function Bmap(fs: Fs, ino: nat, n: nat): (Fs, nat) {
    if n < 10 then Ensure(fs, Direct(ino, n))
    else if n < 1034 then
      var (fs1, t) := Ensure(fs, Single(ino));
      if t == 0 then (fs1, 0) else Ensure(fs1, Leaf1(ino, n - 10))
    else if n < 1049610 then
      var (fs1, t) := Ensure(fs, Double(ino));
      if t == 0 then (fs1, 0) else BmapBelow(fs1, ino, (n - 1034) / 1024, (n - 1034) % 1024)
    else (fs, 0)
  }

  /** The two lower levels of the double-indirect tree. */
  function BmapBelow(fs: Fs, ino: nat, j: nat, k: nat): (Fs, nat) {
    var (fs1, t) := Ensure(fs, Mid(ino, j));
    if t == 0 then (fs1, 0) else Ensure(fs1, Leaf2(ino, j, k))
  }

  ghost predicate Owned(fs: Fs) {
    exists owner :: Inv(fs, owner)
  }

  /** Whatever happens, ownership and every file are kept; a result is the block now at the data
      position, and no result means the disk is full or the block is out of range. */
  ghost predicate Mapped(fs: Fs, fs': Fs, ino: nat, n: nat, b: nat) {
    && Owned(fs') && SameFiles(fs, fs')
    && (b != 0 ==> n < 1049610 && At(fs', DataPos(ino, n)) == b)
    && (b == 0 ==> n >= 1049610 || (DiskFull(fs') && At(fs', DataPos(ino, n)) == 0))
  }

  lemma EnsureStep(fs: Fs, owner: map<nat, Pos>, p: Pos)
    requires Inv(fs, owner) && PosOk(p) && (InTable(p) ==> Table(fs, p) != 0)
    ensures var (fs', b) := Ensure(fs, p);
      && Inv(fs', OwnerAfter(fs, owner, p)) && SameFiles(fs, fs')
      && At(fs', p) == b && (b == 0 ==> fs' == fs && DiskFull(fs))
  {
    EnsureKeeps(fs, owner, p);
    var (fs', b) := Ensure(fs, p);
    if b != 0 { EnsuredFiles(fs, owner, fs', p, b); }
  }

  lemma BmapKeeps(fs: Fs, owner: map<nat, Pos>, ino: nat, n: nat)
    requires Inv(fs, owner) && ino < NINODES
    ensures var (fs', b) := Bmap(fs, ino, n); Mapped(fs, fs', ino, n, b)
  {
    if n < 10 {
      EnsureStep(fs, owner, Direct(ino, n));
    } else if n < 1034 {
      BmapSingleKeeps(fs, owner, ino, n);
    } else if n < 1049610 {
      BmapDoubleKeeps(fs, owner, ino, n);
    } else {
      assert Owned(fs);
    }
  }

  lemma BmapSingleKeeps(fs: Fs, owner: map<nat, Pos>, ino: nat, n: nat)
    requires Inv(fs, owner) && ino < NINODES && 10 <= n < 1034
    ensures var (fs', b) := Bmap(fs, ino, n); Mapped(fs, fs', ino, n, b)
  {
    EnsureStep(fs, owner, Single(ino));
    var (fs1, t) := Ensure(fs, Single(ino));
    if t != 0 {
      EnsureStep(fs1, OwnerAfter(fs, owner, Single(ino)), Leaf1(ino, n - 10));
      SameFilesTrans(fs, fs1, Ensure(fs1, Leaf1(ino, n - 10)).0);
    }
  }

  lemma BmapDoubleKeeps(fs: Fs, owner: map<nat, Pos>, ino: nat, n: nat)
    requires Inv(fs, owner) && ino < NINODES && 1034 <= n < 1049610
    ensures var (fs', b) := Bmap(fs, ino, n); Mapped(fs, fs', ino, n, b)
  {
    var j, k := (n - 1034) / 1024, (n - 1034) % 1024;
    EnsureStep(fs, owner, Double(ino));
    var (fs1, t) := Ensure(fs, Double(ino));
    if t != 0 {
      BmapBelowKeeps(fs1, OwnerAfter(fs, owner, Double(ino)), ino, j, k);
      SameFilesTrans(fs, fs1, BmapBelow(fs1, ino, j, k).0);
    }
  }

  lemma BmapBelowKeeps(fs: Fs, owner: map<nat, Pos>, ino: nat, j: nat, k: nat)
    requires Inv(fs, owner) && ino < NINODES && j < 1024 && k < 1024 && At(fs, Double(ino)) != 0
    ensures var (fs', b) := BmapBelow(fs, ino, j, k);
      Owned(fs') && SameFiles(fs, fs') && At(fs', Leaf2(ino, j, k)) == b && (b == 0 ==> DiskFull(fs'))
  {
    EnsureStep(fs, owner, Mid(ino, j));
    var (fs1, t) := Ensure(fs, Mid(ino, j));
    if t != 0 {
      EnsureStep(fs1, OwnerAfter(fs, owner, Mid(ino, j)), Leaf2(ino, j, k));
      SameFilesTrans(fs, fs1, Ensure(fs1, Leaf2(ino, j, k)).0);
    }
  }

  // ----- truncation -----

  ghost function FreeSeq(fs: Fs, ps: seq<Pos>): Fs
    decreases |ps|
  {
    if ps == [] then fs else FreeSeq(FreeAt(fs, ps[0]), ps[1..])
  }

  /** Every block is freed before the table that points to it. */
  ghost predicate ChildrenFirst(fs: Fs, ps: seq<Pos>) {
    && (forall i :: 0 <= i < |ps| ==> PosOk(ps[i]))
    && (forall i, q {:trigger ps[i], Parent(q)} | 0 <= i < |ps| && PosOk(q) && InTable(q) && Parent(q) == ps[i] ::
          q in ps[..i] || At(fs, q) == 0)
  }

  ghost function Remaining(owner: map<nat, Pos>, ps: seq<Pos>): map<nat, Pos> {
    map b | b in owner && owner[b] !in ps :: owner[b]
  }

  /** Exactly the positions listed are cleared; all other positions and the bytes of all blocks
      that stay owned are kept. */
  ghost predicate Freed(fs: Fs, fs': Fs, owner: map<nat, Pos>, ps: seq<Pos>) {
    && Inv(fs', Remaining(owner, ps))
    && (forall q :: PosOk(q) ==> At(fs', q) == if q in ps then 0 else At(fs, q))
    && |fs'.data| == |fs.data| && (forall b :: b in Remaining(owner, ps) && b < |fs.data| ==> fs'.data[b] == fs.data[b])
    && (forall i :: SizeOf(fs', i) == SizeOf(fs, i))
  }

  lemma {:induction false} FreeSeqKeeps(fs: Fs, owner: map<nat, Pos>, ps: seq<Pos>)
    requires Inv(fs, owner) && ChildrenFirst(fs, ps)
    ensures Freed(fs, FreeSeq(fs, ps), owner, ps)
    decreases |ps|
  {
    if ps == [] {
      assert Remaining(owner, ps) == owner;
    } else {
      var p := ps[0];
      var fs1 := FreeAt(fs, p);
      var owner1 := Disown(owner, At(fs, p));
      FreeFirst(fs, owner, ps);
      FreeSeqKeeps(fs1, owner1, ps[1..]);
      FreeSplit(fs, owner, ps);
      FreeRest(fs, fs1, FreeSeq(fs, ps), owner, ps);
    }
  }

  lemma FreeFirst(fs: Fs, owner: map<nat, Pos>, ps: seq<Pos>)
    requires Inv(fs, owner) && ChildrenFirst(fs, ps) && ps != []
    ensures Inv(FreeAt(fs, ps[0]), Disown(owner, At(fs, ps[0]))) && Cleared(fs, FreeAt(fs, ps[0]), ps[0])
    ensures ChildrenFirst(FreeAt(fs, ps[0]), ps[1..])
  {
    var p := ps[0];
    var fs1 := FreeAt(fs, p);
    assert ps[..0] == [];
    forall q | PosOk(q) && InTable(q) && Parent(q) == p
      ensures At(fs, q) == 0
    {
      assert q in ps[..0] || At(fs, q) == 0;
    }
    FreeAtKeeps(fs, owner, p);
    forall i, q | 0 <= i < |ps[1..]| && PosOk(q) && InTable(q) && Parent(q) == ps[1..][i]
      ensures q in ps[1..][..i] || At(fs1, q) == 0
    {
      assert ps[1..][i] == ps[i + 1];
      assert q in ps[..i + 1] || At(fs, q) == 0;
      assert ps[..i + 1] == [p] + ps[1..][..i];
    }
  }

  lemma FreeSplit(fs: Fs, owner: map<nat, Pos>, ps: seq<Pos>)
    requires Inv(fs, owner) && ps != [] && PosOk(ps[0])
    ensures Remaining(Disown(owner, At(fs, ps[0])), ps[1..]) == Remaining(owner, ps)
  {
    assert SlotOk(fs, owner, ps[0]);
    forall b | b in owner ensures owner[b] == ps[0] <==> b == At(fs, ps[0]) { assert OwnerOk(fs, owner, b); }
    assert forall q :: q in ps <==> q == ps[0] || q in ps[1..];
    assert Remaining(Disown(owner, At(fs, ps[0])), ps[1..]).Keys == Remaining(owner, ps).Keys;
  }

  lemma FreeRest(fs: Fs, fs1: Fs, fs': Fs, owner: map<nat, Pos>, ps: seq<Pos>)
    requires Inv(fs, owner) && ps != [] && PosOk(ps[0]) && Cleared(fs, fs1, ps[0])
    requires Freed(fs1, fs', Disown(owner, At(fs, ps[0])), ps[1..])
    requires Remaining(Disown(owner, At(fs, ps[0])), ps[1..]) == Remaining(owner, ps)
    ensures Freed(fs, fs', owner, ps)
  {
    assert forall q :: q in ps <==> q == ps[0] || q in ps[1..];
    assert SlotOk(fs, owner, ps[0]);
    forall b | b in Remaining(owner, ps) && b < |fs.data|
      ensures fs'.data[b] == fs.data[b]
    {
      assert OwnerOk(fs, owner, b);
    }
  }

  function Directs(ino: nat): seq<Pos> {
    seq(10, (k: nat) => Direct(ino, k))
  }

  function Leaves1(ino: nat): seq<Pos> {
    seq(1024, (k: nat) => Leaf1(ino, k))
  }

  /** For each second-level table, its 1024 data positions and then the table's own position. */
  function MidAt(ino: nat, i: nat): Pos {
    if i % 1025 == 1024 then Mid(ino, i / 1025) else Leaf2(ino, i / 1025, i % 1025)
  }

  function Mids(ino: nat): seq<Pos> {
    seq(1049600, (i: nat) => MidAt(ino, i))
  }

  /** The order in which `easyfs_itrunc` frees: data blocks before the tables that hold them. */
  function TruncOrder(ino: nat): seq<Pos> {
    Directs(ino) + (Leaves1(ino) + [Single(ino)]) + (Mids(ino) + [Double(ino)])
  }

  lemma MidIndex(ino: nat, j: nat, k: nat)
    requires k <= 1024
    ensures (j * 1025 + k) / 1025 == j && (j * 1025 + k) % 1025 == k
    ensures MidAt(ino, j * 1025 + k) == if k == 1024 then Mid(ino, j) else Leaf2(ino, j, k)
  {
  }

  lemma MidsHas(ino: nat, q: Pos)
    ensures q in Mids(ino) <==> q.ino == ino && ((q.Mid? && q.j < 1024) || (q.Leaf2? && q.j < 1024 && q.k < 1024))
  {
    if q.ino == ino && q.Mid? && q.j < 1024 {
      MidIndex(ino, q.j, 1024);
      assert Mids(ino)[q.j * 1025 + 1024] == q;
    }
    if q.ino == ino && q.Leaf2? && q.j < 1024 && q.k < 1024 {
      MidIndex(ino, q.j, q.k);
      assert Mids(ino)[q.j * 1025 + q.k] == q;
    }
  }

  /** The traversal lists exactly the positions of the inode. */
  lemma TruncHas(ino: nat, q: Pos)
    requires ino < NINODES
    ensures q in TruncOrder(ino) <==> PosOk(q) && q.ino == ino
  {
    MidsHas(ino, q);
    if q.ino == ino && q.Direct? && q.k < 10 { assert Directs(ino)[q.k] == q; }
    if q.ino == ino && q.Leaf1? && q.k < 1024 { assert Leaves1(ino)[q.k] == q; }
  }

  /** Tables come after their contents: `ps` may be freed once `before` has been. */
  ghost predicate Ordered(before: seq<Pos>, ps: seq<Pos>) {
    && (forall i :: 0 <= i < |ps| ==> PosOk(ps[i]))
    && (forall i, q {:trigger ps[i], Parent(q)} | 0 <= i < |ps| && PosOk(q) && InTable(q) && Parent(q) == ps[i] ::
          q in before || q in ps[..i])
  }

  lemma OrderedConcat(before: seq<Pos>, a: seq<Pos>, b: seq<Pos>)
    requires Ordered(before, a) && Ordered(before + a, b)
    ensures Ordered(before, a + b)
  {
    forall i, q | 0 <= i < |a + b| && PosOk(q) && InTable(q) && Parent(q) == (a + b)[i]
      ensures q in before || q in (a + b)[..i]
    {
      if i < |a| {
        assert (a + b)[i] == a[i] && (a + b)[..i] == a[..i];
      } else {
        assert (a + b)[i] == b[i - |a|] && (a + b)[..i] == a + b[..i - |a|];
      }
    }
  }

  lemma OrderedMids(ino: nat, before: seq<Pos>)
    requires ino < NINODES
    ensures Ordered(before, Mids(ino))
  {
    var ps := Mids(ino);
    forall i, q | 0 <= i < |ps| && PosOk(q) && InTable(q) && Parent(q) == ps[i] ensures q in before || q in ps[..i] {
      assert q.Leaf2? && ps[i] == MidAt(ino, i);
      MidIndex(ino, q.j, q.k);
      assert i == q.j * 1025 + 1024;
      assert ps[..i][q.j * 1025 + q.k] == q;
    }
  }

  lemma TruncOrdered(ino: nat)
    requires ino < NINODES
    ensures Ordered([], TruncOrder(ino))
  {
    var d, l, m := Directs(ino), Leaves1(ino), Mids(ino);
    assert Ordered([], d);
    assert Ordered(d, l);
    forall q | PosOk(q) && InTable(q) && Parent(q) == Single(ino) ensures q in d + l { assert l[q.k] == q; }
    assert Ordered(d + l, [Single(ino)]);
    assert [] + d == d;
    OrderedConcat(d, l, [Single(ino)]);
    OrderedConcat([], d, l + [Single(ino)]);
    var dl := d + (l + [Single(ino)]);
    assert [] + dl == dl;
    OrderedMids(ino, dl);
    forall q | PosOk(q) && InTable(q) && Parent(q) == Double(ino) ensures q in dl + m { MidsHas(ino, q); }
    assert Ordered(dl + m, [Double(ino)]);
    OrderedConcat(dl, m, [Double(ino)]);
    OrderedConcat([], dl, m + [Double(ino)]);
  }

  // ----- what truncation guarantees -----

  function Trunc0(fs: Fs, ino: nat): Fs {
    if ino < |fs.inodes| then fs.(inodes := fs.inodes[ino := fs.inodes[ino].(size := 0)]) else fs
  }

  /** `easyfs_itrunc` to length 0. */
  ghost function Trunc(fs: Fs, ino: nat): Fs {
    Trunc0(FreeSeq(fs, TruncOrder(ino)), ino)
  }

  ghost function MarkedSet(fs: Fs): set<nat> {
    set b | DATA_BLOCK <= b < TOTAL_BLOCKS && Marked(fs, b)
  }

  ghost function FreeSet(fs: Fs): set<nat> {
    set b | DATA_BLOCK <= b < TOTAL_BLOCKS && !Marked(fs, b)
  }

  /** The blocks of an inode's tree: data and tables. */
  ghost function TreeBlocks(fs: Fs, ino: nat): set<nat> {
    set p | p in TruncOrder(ino) && At(fs, p) != 0 :: At(fs, p)
  }

  lemma TruncEffect(fs: Fs, owner: map<nat, Pos>, ino: nat)
    requires Inv(fs, owner) && ino < NINODES
    ensures var fs' := Trunc(fs, ino); var owner' := Remaining(owner, TruncOrder(ino));
      && Inv(fs', owner') && |fs'.data| == |fs.data|
      && (forall b :: b in owner' && b < |fs.data| ==> fs'.data[b] == fs.data[b])
      && (forall p :: PosOk(p) ==> At(fs', p) == if p.ino == ino then 0 else At(fs, p))
      && (forall i :: 0 <= i < NINODES ==> SizeOf(fs', i) == if i == ino then 0 else SizeOf(fs, i))
  {
    var ps := TruncOrder(ino);
    TruncOrdered(ino);
    FreeSeqKeeps(fs, owner, ps);
    var fs1 := FreeSeq(fs, ps);
    forall p | PosOk(p)
      ensures At(Trunc(fs, ino), p) == if p.ino == ino then 0 else At(fs, p)
    {
      TruncHas(ino, p);
      SizeAt(fs1, ino, p);
    }
    SizeInv(fs1, Remaining(owner, ps), ino);
  }

  /** Truncation frees exactly the blocks of the tree, each once; the tree was marked, and the free
      blocks grow by exactly it. */
  lemma TruncBlocks(fs: Fs, owner: map<nat, Pos>, ino: nat)
    requires Inv(fs, owner) && ino < NINODES
    ensures var fs' := Trunc(fs, ino);
      && TreeBlocks(fs, ino) <= MarkedSet(fs) && MarkedSet(fs') == MarkedSet(fs) - TreeBlocks(fs, ino)
      && |FreeSet(fs')| == |FreeSet(fs)| + |TreeBlocks(fs, ino)|
  {
    var fs' := Trunc(fs, ino);
    TruncEffect(fs, owner, ino);
    forall b
      ensures b in TreeBlocks(fs, ino) <==> b in owner && owner[b] in TruncOrder(ino)
    {
      TreeOwner(fs, owner, ino, b);
    }
    assert FreeSet(fs') == FreeSet(fs) + TreeBlocks(fs, ino);
  }

  /** After truncation the inode is empty and every other file is untouched. */
  lemma TruncFiles(fs: Fs, owner: map<nat, Pos>, ino: nat)
    requires Inv(fs, owner) && ino < NINODES
    ensures var fs' := Trunc(fs, ino);
      && Owned(fs') && SizeOf(fs', ino) == 0 && (forall p :: PosOk(p) && p.ino == ino ==> At(fs', p) == 0)
      && (forall i, x | 0 <= i < NINODES && i != ino && 0 <= x < 4299202560 ::
            FileByte(fs', i, x) == FileByte(fs, i, x))
      && (forall i | 0 <= i < NINODES && i != ino :: SizeOf(fs', i) == SizeOf(fs, i))
  {
    var fs' := Trunc(fs, ino);
    TruncEffect(fs, owner, ino);
    forall i, x | 0 <= i < NINODES && i != ino && 0 <= x < 4299202560
      ensures FileByte(fs', i, x) == FileByte(fs, i, x)
    {
      OtherFile(fs, fs', owner, TruncOrder(ino), ino, i, x);
    }
  }

  lemma SizeAt(fs: Fs, ino: nat, p: Pos)
    ensures At(Trunc0(fs, ino), p) == At(fs, p)
  {
  }

  lemma SizeInv(fs: Fs, owner: map<nat, Pos>, ino: nat)
    requires Inv(fs, owner)
    ensures Inv(Trunc0(fs, ino), owner)
  {
    var fs' := Trunc0(fs, ino);
    forall b | b in owner ensures OwnerOk(fs', owner, b) { assert OwnerOk(fs, owner, b); SizeAt(fs, ino, owner[b]); }
    forall p | PosOk(p) ensures SlotOk(fs', owner, p) { assert SlotOk(fs, owner, p); SizeAt(fs, ino, p); }
  }

  lemma TreeOwner(fs: Fs, owner: map<nat, Pos>, ino: nat, b: nat)
    requires Inv(fs, owner) && ino < NINODES
    ensures b in TreeBlocks(fs, ino) <==> b in owner && owner[b] in TruncOrder(ino)
  {
    if b in TreeBlocks(fs, ino) {
      var p :| p in TruncOrder(ino) && At(fs, p) != 0 && At(fs, p) == b;
      TruncHas(ino, p);
      assert SlotOk(fs, owner, p);
    }
    if b in owner && owner[b] in TruncOrder(ino) {
      assert OwnerOk(fs, owner, b);
      assert 0 !in owner;
    }
  }

  lemma OtherFile(fs: Fs, fs': Fs, owner: map<nat, Pos>, ps: seq<Pos>, ino: nat, i: nat, x: nat)
    requires Inv(fs, owner) && ino < NINODES && i < NINODES && i != ino && x < 4299202560 && ps == TruncOrder(ino)
    requires forall p :: PosOk(p) ==> At(fs', p) == if p.ino == ino then 0 else At(fs, p)
    requires |fs'.data| == |fs.data|
    requires forall b :: b in Remaining(owner, ps) && b < |fs.data| ==> fs'.data[b] == fs.data[b]
    ensures FileByte(fs', i, x) == FileByte(fs, i, x)
  {
    var q := DataPos(i, x / 4096);
    DataPosOk(i, x / 4096);
    TruncHas(ino, q);
    assert SlotOk(fs, owner, q);
  }
}
