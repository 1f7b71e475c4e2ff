/** The image `mkfs` builds satisfies the EasyFS invariant and holds the given files; from it, any
    run of block mapping and truncation keeps the invariant. */
module EasyFsImage {
  import opened EasyFs
  import opened EasyFsFiles
  import opened EasyFsDisk

  // ----- whole runs -----

  datatype Op = MapOp(ino: nat, n: nat) | TruncOp(ino: nat)

  ghost predicate OpOk(op: Op) {
    op.ino < NINODES
  }

  ghost function Step(fs: Fs, op: Op): Fs {
    match op
    case MapOp(ino, n) => Bmap(fs, ino, n).0
    case TruncOp(ino) => Trunc(fs, ino)
  }

  ghost function Run(fs: Fs, ops: seq<Op>): Fs
    decreases |ops|
  {
    if ops == [] then fs else Run(Step(fs, ops[0]), ops[1..])
  }

  /** Every marked block sits at exactly one position, and every position holds a marked block of
      the data area. */
  ghost predicate ExactlyOwned(fs: Fs) {
    && (forall b: nat | Marked(fs, b) :: exists p :: PosOk(p) && At(fs, p) == b)
    && (forall p, q | PosOk(p) && PosOk(q) && At(fs, p) != 0 && At(fs, p) == At(fs, q) :: p == q)
    && (forall p | PosOk(p) && At(fs, p) != 0 :: Marked(fs, At(fs, p)) && 11 <= At(fs, p) <= 4095)
  }

  /** Exact ownership survives any sequence of mappings and truncations, full disk included. */
  lemma {:induction false} RunOwns(fs: Fs, ops: seq<Op>)
    requires Owned(fs) && forall i | 0 <= i < |ops| :: OpOk(ops[i])
    ensures Owned(Run(fs, ops)) && ExactlyOwned(Run(fs, ops))
    decreases |ops|
  {
    var owner :| Inv(fs, owner);
    if ops == [] {
      OwnedMeans(fs, owner);
    } else {
      StepOwns(fs, owner, ops[0]);
      RunOwns(Step(fs, ops[0]), ops[1..]);
    }
  }

  lemma StepOwns(fs: Fs, owner: map<nat, Pos>, op: Op)
    requires Inv(fs, owner) && OpOk(op)
    ensures Owned(Step(fs, op))
  {
    match op
    case MapOp(ino, n) => BmapKeeps(fs, owner, ino, n);
    case TruncOp(ino) => TruncFiles(fs, owner, ino);
  }

  lemma OwnedMeans(fs: Fs, owner: map<nat, Pos>)
    requires Inv(fs, owner)
    ensures ExactlyOwned(fs)
  {
    forall b | Marked(fs, b) ensures exists p :: PosOk(p) && At(fs, p) == b { assert OwnerOk(fs, owner, b); }
    forall p, q | PosOk(p) && PosOk(q) && At(fs, p) != 0 && At(fs, p) == At(fs, q) ensures p == q {
      assert SlotOk(fs, owner, p) && SlotOk(fs, owner, q);
    }
    forall p | PosOk(p) && At(fs, p) != 0
      ensures Marked(fs, At(fs, p)) && 11 <= At(fs, p) <= 4095
    {
      assert SlotOk(fs, owner, p);
    }
  }

  // ----- the image -----

  function Needed(f: seq<Byte>): nat {
    (|f| + 4095) / 4096
  }

  /** At most 64 files, each fitting the ten direct blocks. */
  ghost predicate FilesOk(files: seq<seq<Byte>>) {
    |files| <= 64 && forall i | 0 <= i < |files| :: Needed(files[i]) <= 10
  }

  /** The positions filled once files before `i` and the first `j` blocks of file `i` are placed. */
  ghost predicate Filled(files: seq<seq<Byte>>, p: Pos, i: nat, j: nat) {
    p.Direct?
    && ((p.ino == 1 && p.k == 0)
        || (2 <= p.ino < |files| + 2
            && (if p.ino < i + 2 then p.k < Needed(files[p.ino - 2]) else p.ino == i + 2 && p.k < j)))
  }

  /** Blocks 11 up to `next` are taken, one for each filled position; nothing else is stored. */
  ghost predicate Placed(files: seq<seq<Byte>>, fs: Fs, owner: map<nat, Pos>, next: nat, i: nat, j: nat) {
    && Inv(fs, owner) && 12 <= next <= 12 + 10 * i + j
    && (forall b: nat :: Marked(fs, b) <==> 11 <= b < next)
    && (forall p :: PosOk(p) ==> (At(fs, p) != 0 <==> Filled(files, p, i, j)))
  }

  /** What the image should hold. */
  function Expected(files: seq<seq<Byte>>, root: seq<Byte>, ino: nat, x: nat): Byte {
    if ino == 1 && x < |root| then root[x]
    else if 2 <= ino < |files| + 2 && x < |files[ino - 2]| then files[ino - 2][x]
    else 0
  }

  function Blank(): (fs: Fs)
    ensures Shape(fs) && (forall p :: PosOk(p) ==> At(fs, p) == 0) && (forall b :: !Marked(fs, b))
    ensures forall ino: nat, x: nat :: FileByte(fs, ino, x) == 0
    ensures forall i | 0 <= i < NINODES :: fs.inodes[i].size == 0
  {
    Fs(seq(NBITS, _ => false), seq(TOTAL_BLOCKS, _ => ZeroPtrs()), seq(TOTAL_BLOCKS, _ => ZeroBytes()),
        seq(NINODES, _ => Inode(0, seq(12, _ => 0))))
  }

  /** Taking the next block for the next position. */
  lemma PlaceNext(files: seq<seq<Byte>>, fs: Fs, owner: map<nat, Pos>, next: nat, i: nat, j: nat)
    requires FilesOk(files) && Placed(files, fs, owner, next, i, j) && i < |files| && j < Needed(files[i])
    ensures var p := Direct(i + 2, j); var fs' := Put(SetBit(fs, next, true), p, next);
      Placed(files, fs', owner[next := p], next + 1, i, j + 1) && Ensured(fs, fs', p, next)
  {
    var p := Direct(i + 2, j);
    var fs1 := SetBit(fs, next, true);
    var fs' := Put(fs1, p, next);
    assert PosOk(p) && !Filled(files, p, i, j);
    AttachKeeps(fs, owner, p, next);
    AttachReady(fs, owner, p, next);
    assert fs'.bitmap == fs1.bitmap;
    assert forall b :: Marked(fs', b) <==> Marked(fs1, b);
    forall q | PosOk(q) ensures At(fs', q) != 0 <==> Filled(files, q, i, j + 1) {
      assert q != p ==> At(fs', q) == At(fs, q);
      assert q != p ==> (Filled(files, q, i, j + 1) <==> Filled(files, q, i, j));
    }
  }

  lemma PlaceRoot(files: seq<seq<Byte>>)
    requires FilesOk(files)
    ensures var fs' := Put(SetBit(Blank(), 11, true), Direct(1, 0), 11);
      Placed(files, fs', map[11 := Direct(1, 0)], 12, 0, 0) && Ensured(Blank(), fs', Direct(1, 0), 11)
  {
    var fs, p := Blank(), Direct(1, 0);
    var fs1 := SetBit(fs, 11, true);
    var fs' := Put(fs1, p, 11);
    var none: map<nat, Pos> := map[];
    forall q | PosOk(q) ensures SlotOk(fs, none, q) {}
    assert Inv(fs, none);
    AttachKeeps(fs, none, p, 11);
    AttachReady(fs, none, p, 11);
    assert none[11 := p] == map[11 := p];
    assert fs'.bitmap == fs1.bitmap;
    assert forall b :: Marked(fs', b) <==> Marked(fs1, b);
    forall q | PosOk(q)
      ensures At(fs', q) != 0 <==> Filled(files, q, 0, 0)
    {
      assert q != p ==> At(fs', q) == At(fs, q);
    }
  }

  lemma PlaceFile(files: seq<seq<Byte>>, fs: Fs, owner: map<nat, Pos>, next: nat, i: nat)
    requires FilesOk(files) && i < |files| && Placed(files, fs, owner, next, i, Needed(files[i]))
    ensures Placed(files, fs, owner, next, i + 1, 0)
  {
    forall p | PosOk(p) ensures Filled(files, p, i, Needed(files[i])) <==> Filled(files, p, i + 1, 0) {}
  }

  // ----- building it -----

  /** No file has bytes yet beyond those stored for files before `i` and blocks before `j`. */
  ghost predicate Stored(files: seq<seq<Byte>>, root: seq<Byte>, fs: Fs, i: nat, j: nat) {
    forall ino: nat, x: nat {:trigger FileByte(fs, ino, x)} | ino < NINODES && x < 4299202560 ::
      FileByte(fs, ino, x) == if ino < i + 2 || (ino == i + 2 && x < j * 4096) then Expected(files, root, ino, x) else 0
  }

  ghost predicate Empty(fs: Fs) {
    forall ino: nat, x: nat {:trigger FileByte(fs, ino, x)} | ino < NINODES && x < 4299202560 ::
      FileByte(fs, ino, x) == 0
  }

  /** Before any data is written: all blocks are zero and the root directory is in block 11. */
  ghost predicate Blanks(fs: Fs) {
    && fs.ptr == seq(TOTAL_BLOCKS, _ => ZeroPtrs()) && fs.data == seq(TOTAL_BLOCKS, _ => ZeroBytes())
    && At(fs, Direct(1, 0)) == 11
  }

  lemma EmptyStays(fs: Fs, fs': Fs)
    requires Empty(fs) && SameFiles(fs, fs')
    ensures Empty(fs')
  {
    forall ino: nat, x: nat | ino < NINODES && x < 4299202560
      ensures FileByte(fs', ino, x) == 0
    {
      assert SameByte(fs, fs', ino, x);
    }
  }

  function ExpectedSize(files: seq<seq<Byte>>, ino: nat): nat {
    if ino == 1 then (|files| + 2) * 32 else if 2 <= ino < |files| + 2 then |files[ino - 2]| else 0
  }

  ghost predicate Sized(files: seq<seq<Byte>>, fs: Fs, i: nat) {
    forall ino: nat {:trigger SizeOf(fs, ino)} | ino < NINODES ::
      SizeOf(fs, ino) == if ino < i + 2 then ExpectedSize(files, ino) else 0
  }

  /** Recording a size moves no block and changes no byte. */
  lemma PlaceSize(files: seq<seq<Byte>>, fs: Fs, owner: map<nat, Pos>, next: nat, i: nat, j: nat, ino: nat, size: nat)
    requires Placed(files, fs, owner, next, i, j) && Empty(fs) && ino < NINODES && SizeOf(fs, ino) == 0
    ensures var fs' := GrowSize(fs, ino, size); Placed(files, fs', owner, next, i, j) && Empty(fs')
    ensures var fs' := GrowSize(fs, ino, size);
      |fs'.inodes| == |fs.inodes| && ino < |fs.inodes| && fs'.inodes == fs.inodes[ino := fs.inodes[ino].(size := size)]
  {
    var fs' := GrowSize(fs, ino, size);
    GrowSizeKeeps(fs, owner, ino, size);
    assert fs'.bitmap == fs.bitmap;
    assert forall b: nat :: Marked(fs', b) <==> Marked(fs, b);
    forall p ensures At(fs', p) == At(fs, p) { GrowSizeAt(fs, ino, size, p); }
    forall x: nat, y: nat | x < NINODES && y < 4299202560
      ensures FileByte(fs', x, y) == 0
    {
      assert PatchedAt(fs, fs', ino, 0, [], x, y);
    }
  }

  lemma SizedEnsured(files: seq<seq<Byte>>, fs: Fs, owner: map<nat, Pos>, fs': Fs, p: Pos, b: nat, i: nat)
    requires Inv(fs, owner) && PosOk(p) && Ensured(fs, fs', p, b) && Sized(files, fs, i) && Empty(fs)
    ensures Sized(files, fs', i) && Empty(fs')
  {
    EnsuredFiles(fs, owner, fs', p, b);
    EmptyStays(fs, fs');
    forall ino: nat | ino < NINODES ensures SizeOf(fs', ino) == SizeOf(fs, ino) {}
  }

  /** Assign the direct blocks of every file, in order, from block 12 on. */
  method PlaceInodes(files: seq<seq<Byte>>)
    returns (inodes: seq<Inode>, ghost fs: Fs, ghost owner: map<nat, Pos>, ghost last: nat)
    requires FilesOk(files)
    ensures Placed(files, fs, owner, last, |files|, 0) && Empty(fs) && fs.inodes == inodes && Sized(files, fs, |files|)
    ensures Blanks(fs)
  {
    inodes, fs, owner := PlaceRootInode(files);
    var next := 12;
    var i := 0;
    while i < |files|
      invariant 0 <= i <= |files| && Placed(files, fs, owner, next, i, 0) && Empty(fs) && fs.inodes == inodes
      invariant Sized(files, fs, i) && Blanks(fs)
    {
      inodes, next, fs, owner := PlaceBlocks(files, i, inodes, next, fs, owner);
      i := i + 1;
    }
    last := next;
  }

  method PlaceRootInode(files: seq<seq<Byte>>) returns (inodes: seq<Inode>, ghost fs: Fs, ghost owner: map<nat, Pos>)
    requires FilesOk(files)
    ensures Placed(files, fs, owner, 12, 0, 0) && Empty(fs) && fs.inodes == inodes && Sized(files, fs, 0) && Blanks(fs)
  {
    inodes := Blank().inodes;
    inodes := inodes[1 := inodes[1].(blocks := Upd(inodes[1].blocks, 0, 11))];
    ghost var fs0 := Blank();
    fs, owner := Put(SetBit(fs0, 11, true), Direct(1, 0), 11), map[11 := Direct(1, 0)];
    PlaceRoot(files);
    BlankInv();
    EnsuredFiles(fs0, map[], fs, Direct(1, 0), 11);
    EmptyStays(fs0, fs);
    PlaceSize(files, fs, owner, 12, 0, 0, 1, (|files| + 2) * 32);
    inodes := inodes[1 := inodes[1].(size := (|files| + 2) * 32)];
    fs := GrowSize(fs, 1, (|files| + 2) * 32);
  }

  lemma BlankInv()
    ensures Inv(Blank(), map[])
  {
    forall q | PosOk(q) ensures SlotOk(Blank(), map[], q) {}
  }

  /** The inode of file `i`: its size and its blocks. */
  method PlaceBlocks(files: seq<seq<Byte>>, i: nat, inodes0: seq<Inode>, next0: nat, ghost fs0: Fs,
      ghost owner0: map<nat, Pos>)
    returns (inodes: seq<Inode>, next: nat, ghost fs: Fs, ghost owner: map<nat, Pos>)
    requires FilesOk(files) && i < |files| && Placed(files, fs0, owner0, next0, i, 0) && Empty(fs0)
    requires fs0.inodes == inodes0 && Sized(files, fs0, i) && Blanks(fs0)
    ensures Placed(files, fs, owner, next, i + 1, 0) && Empty(fs) && fs.inodes == inodes && Sized(files, fs, i + 1)
    ensures Blanks(fs)
  {
    PlaceSize(files, fs0, owner0, next0, i, 0, i + 2, |files[i]|);
    inodes := inodes0[i + 2 := inodes0[i + 2].(size := |files[i]|)];
    next, fs, owner := next0, GrowSize(fs0, i + 2, |files[i]|), owner0;
    forall ino: nat | ino < NINODES ensures SizeOf(fs, ino) == if ino < i + 3 then ExpectedSize(files, ino) else 0 {
      assert SizeOf(fs0, ino) == if ino < i + 2 then ExpectedSize(files, ino) else 0;
    }
    var j := 0;
    while j < Needed(files[i])
      invariant 0 <= j <= Needed(files[i]) && Placed(files, fs, owner, next, i, j) && Empty(fs) && fs.inodes == inodes
      invariant Sized(files, fs, i + 1) && Blanks(fs)
    {
      ghost var p := Direct(i + 2, j);
      PlaceNext(files, fs, owner, next, i, j);
      SizedEnsured(files, fs, owner, Put(SetBit(fs, next, true), p, next), p, next, i + 1);
      fs, owner := Put(SetBit(fs, next, true), p, next), owner[next := p];
      inodes := inodes[i + 2 := inodes[i + 2].(blocks := Upd(inodes[i + 2].blocks, j, next))];
      j, next := j + 1, next + 1;
    }
    PlaceFile(files, fs, owner, next, i);
  }

  /** The `j`th block of a file, padded with zeros. */
  function Padded(f: seq<Byte>, j: nat): (c: seq<Byte>)
    requires j * 4096 <= |f|
    ensures |c| == 4096 && forall k | 0 <= k < 4096 :: c[k] == if j * 4096 + k < |f| then f[j * 4096 + k] else 0
  {
    seq<Byte>(4096, (k: nat) => if j * 4096 + k < |f| then f[j * 4096 + k] else 0)
  }

  /** Storing one padded block of file `i`. */
  lemma StoreNext(files: seq<seq<Byte>>, root: seq<Byte>, fs: Fs, owner: map<nat, Pos>, last: nat, i: nat, j: nat)
    requires FilesOk(files) && Placed(files, fs, owner, last, |files|, 0) && i < |files| && j < Needed(files[i])
    requires Stored(files, root, fs, i, j)
    ensures var b := At(fs, Direct(i + 2, j)); var fs' := PutBytes(fs, b, 0, Padded(files[i], j));
      && 0 < b < |fs.data| && |fs.data[b]| == 4096 && Placed(files, fs', owner, last, |files|, 0)
      && Stored(files, root, fs', i, j + 1)
      && fs'.inodes == fs.inodes
  {
    var p := Direct(i + 2, j);
    var b := At(fs, p);
    var at := j * 4096;
    var c := Padded(files[i], j);
    assert PosOk(p) && Filled(files, p, |files|, 0) && SlotOk(fs, owner, p);
    assert at % 4096 == 0 && at / 4096 == j;
    PutBytesPatches(fs, owner, i + 2, at, b, c);
    var fs' := PutBytes(fs, b, 0, c);
    SamePlaced(files, fs, owner, last, |files|, 0, b, c);
    forall ino: nat, x: nat | ino < NINODES && x < 4299202560
      ensures FileByte(fs', ino, x) ==
        if ino < i + 2 || (ino == i + 2 && x < (j + 1) * 4096) then Expected(files, root, ino, x) else 0
    {
      assert PatchedAt(fs, fs', i + 2, at, c, ino, x);
    }
  }

  lemma SamePlaced(files: seq<seq<Byte>>, fs: Fs, owner: map<nat, Pos>, last: nat, i: nat, j: nat, b: nat, c: seq<Byte>)
    requires Placed(files, fs, owner, last, i, j) && Inv(PutBytes(fs, b, 0, c), owner)
    ensures Placed(files, PutBytes(fs, b, 0, c), owner, last, i, j)
  {
    var fs' := PutBytes(fs, b, 0, c);
    forall p ensures At(fs', p) == At(fs, p) { PutBytesAt(fs, b, 0, c, p); }
    assert forall x: nat :: Marked(fs', x) <==> Marked(fs, x);
  }

  lemma StoreRoot(files: seq<seq<Byte>>, root: seq<Byte>, fs: Fs, owner: map<nat, Pos>, last: nat)
    requires FilesOk(files) && |root| <= 4096 && Placed(files, fs, owner, last, |files|, 0) && Empty(fs)
    ensures var b := At(fs, Direct(1, 0)); var fs' := PutBytes(fs, b, 0, root);
      && 0 < b < |fs.data| && |fs.data[b]| == 4096 && Placed(files, fs', owner, last, |files|, 0)
      && Stored(files, root, fs', 0, 0)
      && fs'.inodes == fs.inodes
  {
    var p := Direct(1, 0);
    var b := At(fs, p);
    assert PosOk(p) && Filled(files, p, |files|, 0) && SlotOk(fs, owner, p);
    PutBytesPatches(fs, owner, 1, 0, b, root);
    var fs' := PutBytes(fs, b, 0, root);
    SamePlaced(files, fs, owner, last, |files|, 0, b, root);
    forall ino: nat, x: nat | ino < NINODES && x < 4299202560
      ensures FileByte(fs', ino, x) == if ino < 2 then Expected(files, root, ino, x) else 0
    {
      assert PatchedAt(fs, fs', 1, 0, root, ino, x);
    }
  }

  /** All blocks of file `i` stored is the whole file stored. */
  lemma StoreFile(files: seq<seq<Byte>>, root: seq<Byte>, fs: Fs, i: nat)
    requires FilesOk(files) && i < |files| && Stored(files, root, fs, i, Needed(files[i]))
    ensures Stored(files, root, fs, i + 1, 0)
  {
    forall ino: nat, x: nat | ino < NINODES && x < 4299202560
      ensures FileByte(fs, ino, x) == if ino < i + 3 then Expected(files, root, ino, x) else 0
    {
      assert |files[i]| <= Needed(files[i]) * 4096;
    }
  }

  method StoreChunkAt(data0: seq<seq<Byte>>, b: nat, c: seq<Byte>) returns (data: seq<seq<Byte>>)
    requires b < |data0| && |c| <= |data0[b]|
    ensures data == data0[b := data0[b][..0] + c + data0[b][0 + |c|..]]
  {
    data := data0[b := c + data0[b][|c|..]];
    assert data0[b][..0] + c + data0[b][0 + |c|..] == c + data0[b][|c|..];
  }

  /** Write the directory block and then every file's blocks. */
  method PlaceData(files: seq<seq<Byte>>, root: seq<Byte>, inodes: seq<Inode>, ghost fs0: Fs, ghost owner: map<nat,
      Pos>, ghost last: nat, data0: seq<seq<Byte>>)
    returns (data: seq<seq<Byte>>, ghost fs: Fs)
    requires FilesOk(files) && |root| <= 4096 && Placed(files, fs0, owner, last, |files|, 0) && Empty(fs0)
    requires fs0.inodes == inodes && fs0.data == data0
    ensures Placed(files, fs, owner, last, |files|, 0) && Stored(files, root, fs, |files|, 0) && fs.inodes == inodes
    ensures fs.data == data && fs.ptr == fs0.ptr && fs.bitmap == fs0.bitmap
  {
    StoreRoot(files, root, fs0, owner, last);
    data := StoreChunkAt(data0, inodes[1].blocks[0], root);
    fs := PutBytes(fs0, At(fs0, Direct(1, 0)), 0, root);
    var i := 0;
    while i < |files|
      invariant 0 <= i <= |files| && Placed(files, fs, owner, last, |files|, 0) && Stored(files, root, fs, i, 0)
      invariant fs.inodes == inodes && fs.data == data && fs.ptr == fs0.ptr && fs.bitmap == fs0.bitmap
    {
      var j := 0;
      while j < Needed(files[i])
        invariant 0 <= j <= Needed(files[i]) && Placed(files, fs, owner, last, |files|, 0)
        invariant Stored(files, root, fs, i, j)
        invariant fs.inodes == inodes && fs.data == data && fs.ptr == fs0.ptr && fs.bitmap == fs0.bitmap
      {
        StoreNext(files, root, fs, owner, last, i, j);
        data := StoreChunkAt(data, inodes[i + 2].blocks[j], Padded(files[i], j));
        fs := PutBytes(fs, At(fs, Direct(i + 2, j)), 0, Padded(files[i], j));
        j := j + 1;
      }
      StoreFile(files, root, fs, i);
      i := i + 1;
    }
  }

  /** The bits set are those of the blocks of files before `i` and of the first `j` blocks of file `i`. */
  ghost predicate BitsSet(files: seq<seq<Byte>>, owner: map<nat, Pos>, bits: seq<bool>, i: nat, j: nat) {
    |bits| == NBITS && forall b: nat | b < NBITS :: bits[b] <==> b + 11 in owner && Filled(files, owner[b + 11], i, j)
  }

  lemma SetNext(files: seq<seq<Byte>>, fs: Fs, owner: map<nat, Pos>, last: nat, bits: seq<bool>, i: nat, j: nat)
    requires FilesOk(files) && Placed(files, fs, owner, last, |files|, 0) && i < |files| && j < Needed(files[i])
    requires BitsSet(files, owner, bits, i, j)
    ensures var b := At(fs, Direct(i + 2, j)); 11 <= b < 4096 && BitsSet(files, owner, bits[b - 11 := true], i, j + 1)
  {
    var p := Direct(i + 2, j);
    var b := At(fs, p);
    assert PosOk(p) && Filled(files, p, |files|, 0) && SlotOk(fs, owner, p);
    var now := bits[b - 11 := true];
    forall x: nat | x < NBITS ensures now[x] <==> x + 11 in owner && Filled(files, owner[x + 11], i, j + 1) {
      if x + 11 in owner { assert OwnerOk(fs, owner, x + 11); }
    }
  }

  lemma AllSet(files: seq<seq<Byte>>, fs: Fs, owner: map<nat, Pos>, last: nat, bits: seq<bool>)
    requires FilesOk(files) && Placed(files, fs, owner, last, |files|, 0) && BitsSet(files, owner, bits, |files|, 0)
    ensures bits == fs.bitmap
  {
    forall x: nat | x < NBITS ensures bits[x] == fs.bitmap[x] {
      assert Marked(fs, x + 11) <==> fs.bitmap[x];
      if x + 11 in owner { assert OwnerOk(fs, owner, x + 11); }
    }
  }

  lemma BitsNextFile(files: seq<seq<Byte>>, owner: map<nat, Pos>, bits: seq<bool>, i: nat)
    requires i < |files| && BitsSet(files, owner, bits, i, Needed(files[i]))
    ensures BitsSet(files, owner, bits, i + 1, 0)
  {
    forall x: nat | x < NBITS ensures bits[x] <==> x + 11 in owner && Filled(files, owner[x + 11], i + 1, 0) {
      assert x + 11 in owner ==>
          (Filled(files, owner[x + 11], i, Needed(files[i])) <==> Filled(files, owner[x + 11], i + 1, 0));
    }
  }

  lemma BitsRoot(files: seq<seq<Byte>>, fs: Fs, owner: map<nat, Pos>, last: nat, bits: seq<bool>)
    requires FilesOk(files) && Placed(files, fs, owner, last, |files|, 0) && At(fs, Direct(1, 0)) == 11
    requires |bits| == NBITS && forall x: nat | x < NBITS :: bits[x] <==> x == 0
    ensures BitsSet(files, owner, bits, 0, 0)
  {
    assert SlotOk(fs, owner, Direct(1, 0));
    forall x: nat | x < NBITS ensures bits[x] <==> x + 11 in owner && Filled(files, owner[x + 11], 0, 0) {
      if x + 11 in owner { assert OwnerOk(fs, owner, x + 11); }
    }
  }

  lemma ZeroBits(bs: seq<bv8>)
    requires |bs| == BSIZE && forall i | 0 <= i < BSIZE :: bs[i] == 0
    ensures forall x: nat | x < NBITS :: !Bits(bs)[x]
  {
    forall x: nat | x < NBITS ensures !Bits(bs)[x] { assert !TestBit(0, x % 8); }
  }

  /** Set the bit of every block in use. */
  method PlaceBits(files: seq<seq<Byte>>, inodes: seq<Inode>, ghost fs: Fs, ghost owner: map<nat, Pos>, ghost last: nat)
    returns (bits: seq<bv8>)
    requires FilesOk(files) && Placed(files, fs, owner, last, |files|, 0) && fs.inodes == inodes
    requires At(fs, Direct(1, 0)) == 11
    ensures |bits| == BSIZE && Bits(bits) == fs.bitmap
  {
    var zero := seq(BSIZE, _ => 0);
    ZeroBits(zero);
    bits := SetBitOf(zero, 0);
    BitsRoot(files, fs, owner, last, Bits(bits));
    var i := 0;
    while i < |files|
      invariant 0 <= i <= |files| && |bits| == BSIZE && BitsSet(files, owner, Bits(bits), i, 0)
    {
      var j := 0;
      while j < Needed(files[i])
        invariant 0 <= j <= Needed(files[i]) && |bits| == BSIZE && BitsSet(files, owner, Bits(bits), i, j)
      {
        SetNext(files, fs, owner, last, Bits(bits), i, j);
        bits := SetBitOf(bits, inodes[i + 2].blocks[j] - 11);
        j := j + 1;
      }
      BitsNextFile(files, owner, Bits(bits), i);
      i := i + 1;
    }
    AllSet(files, fs, owner, last, Bits(bits));
  }

  /** `set_bitmap`. */
  method SetBitOf(bs: seq<bv8>, i: nat) returns (r: seq<bv8>)
    requires |bs| == BSIZE && i < NBITS
    ensures |r| == BSIZE && Bits(r) == Bits(bs)[i := true]
  {
    var v := Flip(bs[i / 8], i % 8, true);
    FlipBit(bs, i, v, true);
    r := bs[i / 8 := v];
  }

  /** `mkfs`: the disk holds exactly the given files and satisfies the invariant. */
  method Mkfs(files: seq<seq<Byte>>, root: seq<Byte>) returns (d: Disk)
    requires FilesOk(files) && |root| <= 4096
    ensures fresh(d) && d.Valid()
    ensures forall ino: nat, x: nat | ino < NINODES && x < 4299202560 ::
        FileByte(d.Abs(), ino, x) == Expected(files, root, ino, x)
    ensures forall ino: nat | ino < NINODES :: SizeOf(d.Abs(), ino) == ExpectedSize(files, ino)
    ensures forall b: nat | Marked(d.Abs(), b) :: b < 12 + 10 * |files|
  {
    var inodes, fs, owner, last := PlaceInodes(files);
    var data0 := seq(TOTAL_BLOCKS, _ => ZeroBytes());
    var data, fs2 := PlaceData(files, root, inodes, fs, owner, last, data0);
    var bits := PlaceBits(files, inodes, fs2, owner, last);
    d := new Disk(bits, seq(TOTAL_BLOCKS, _ => ZeroPtrs()), data, inodes, owner);
    assert d.Abs() == fs2;
    forall ino: nat | ino < NINODES
      ensures SizeOf(fs2, ino) == ExpectedSize(files, ino)
    {
      assert SizeOf(fs2, ino) == SizeOf(fs, ino);
    }
  }
}
