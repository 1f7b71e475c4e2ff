/** Requests on an EasyFS disk against files that are plain byte sequences: in every run of reads, writes and
    truncations the replies and the disk are those of the plain files.  Also a read that falls short. */
module EasyFsRuns {
  import opened Counting
  import opened EasyFs
  import opened EasyFsSpace
  import opened EasyFsFiles
  import opened EasyFsDisk
  import opened EasyFsImage

  // ----- plain files -----

  const LIMIT: nat := 0x1_0000_0000
  const MAXBYTES: nat := 4299202560  // 4096 bytes in each of the blocks a file can have

  /** Files without blocks: sizes, and the byte of each file at each offset. */
  datatype Plain = Plain(sizes: seq<nat>, at: (nat, nat) -> Byte)

  datatype Request = Write(ino: nat, off: nat, src: seq<Byte>) | Read(ino: nat, off: nat, len: nat) | Truncate(ino: nat)

  /** `r` is -1 for a refused request and a count of bytes otherwise. */
  datatype Reply = Reply(r: int, bytes: seq<Byte>)

  ghost predicate RequestOk(q: Request) {
    && q.ino < NINODES
    && match q
       case Write(_, off, src) => off < LIMIT && |src| < LIMIT
       case Read(_, off, len) => off < LIMIT && len < LIMIT
       case Truncate(_) => true
  }

  function Size(f: Plain, ino: nat): nat {
    if ino < |f.sizes| then f.sizes[ino] else 0
  }

  function Wanted(size: nat, off: nat, len: nat): nat {
    if off + len <= size then len else if off <= size then size - off else 0
  }

  /** The replies plain files allow: refusals and bytes are fixed, and only a count may be short. */
  ghost predicate Allowed(f: Plain, q: Request, a: Reply) {
    match q
    case Write(_, off, src) => (a.r == -1 <==> off + |src| >= LIMIT) && (a.r != -1 ==> 0 <= a.r <= |src|)
    case Read(ino, off, len) =>
      && (a.r == -1 <==> off > Size(f, ino) || off + len >= LIMIT)
      && (a.r != -1 ==> a.r == |a.bytes| <= Wanted(Size(f, ino), off, len))
      && (a.r != -1 ==> forall k | 0 <= k < |a.bytes| :: a.bytes[k] == f.at(ino, off + k))
    case Truncate(_) => a.r == 0
  }

  /** The plain files after a request answered so. */
  ghost function Applied(f: Plain, q: Request, a: Reply): (g: Plain)
    ensures |g.sizes| == |f.sizes|
  {
    match q
    case Write(ino, off, src) =>
      if a.r < 0 || a.r > |src| then f
      else Plain(Upd(f.sizes, ino, if off + a.r > Size(f, ino) then off + a.r else Size(f, ino)),
                 (i: nat, x: nat) => if i == ino && off <= x < off + a.r then src[x - off] else f.at(i, x))
    case Read(_, _, _) => f
    case Truncate(ino) => Plain(Upd(f.sizes, ino, 0), (i: nat, x: nat) => if i == ino then 0 else f.at(i, x))
  }

  ghost predicate ByteShown(fs: Fs, f: Plain, i: nat, x: nat) {
    FileByte(fs, i, x) == f.at(i, x)
  }

  /** The disk holds exactly the plain files. */
  ghost predicate Shows(fs: Fs, f: Plain) {
    && |f.sizes| == NINODES && (forall i: nat {:trigger SizeOf(fs, i)} | i < NINODES :: SizeOf(fs, i) == f.sizes[i])
    && (forall i: nat, x: nat {:trigger ByteShown(fs, f, i, x)} | i < NINODES && x < MAXBYTES :: ByteShown(fs, f, i, x))
  }

  // ----- one request -----

  lemma WriteShown(fs: Fs, fs': Fs, f: Plain, ino: nat, off: nat, src: seq<Byte>, r: nat)
    requires Shows(fs, f) && ino < NINODES && r <= |src| && Patched(fs, fs', ino, off, src[..r])
    requires forall i: nat | i < NINODES ::
        SizeOf(fs', i) == if i == ino && off + r > SizeOf(fs, i) then off + r else SizeOf(fs, i)
    ensures Shows(fs', Applied(f, Write(ino, off, src), Reply(r, [])))
  {
    var f' := Applied(f, Write(ino, off, src), Reply(r, []));
    forall i: nat, x: nat | i < NINODES && x < MAXBYTES ensures ByteShown(fs', f', i, x) {
      assert ByteShown(fs, f, i, x) && PatchedAt(fs, fs', ino, off, src[..r], i, x);
    }
  }

  lemma SameShown(fs: Fs, fs': Fs, f: Plain)
    requires Shows(fs, f) && SameFiles(fs, fs')
    ensures Shows(fs', f)
  {
    forall i: nat, x: nat | i < NINODES && x < MAXBYTES ensures ByteShown(fs', f, i, x) {
      assert ByteShown(fs, f, i, x) && SameByte(fs, fs', i, x);
    }
  }

  lemma TruncShown(fs: Fs, owner: map<nat, Pos>, f: Plain, ino: nat)
    requires Inv(fs, owner) && Shows(fs, f) && ino < NINODES
    ensures Shows(Trunc(fs, ino), Applied(f, Truncate(ino), Reply(0, [])))
  {
    var fs', f' := Trunc(fs, ino), Applied(f, Truncate(ino), Reply(0, []));
    TruncFiles(fs, owner, ino);
    forall i: nat, x: nat | i < NINODES && x < MAXBYTES ensures ByteShown(fs', f', i, x) {
      assert ByteShown(fs, f, i, x);
      if i == ino { DataPosOk(ino, x / 4096); }
    }
  }

  lemma StretchShown(fs: Fs, f: Plain, ino: nat, off: nat, len: nat, dst: seq<Byte>)
    requires Shows(fs, f) && ino < NINODES && off + len < MAXBYTES && dst == Stretch(fs, ino, off, len)
    ensures forall k | 0 <= k < |dst| :: dst[k] == f.at(ino, off + k)
  {
    forall k | 0 <= k < |dst| ensures dst[k] == f.at(ino, off + k) { assert ByteShown(fs, f, ino, off + k); }
  }

  method PerformWrite(d: Disk, ino: nat, off: nat, src: seq<Byte>, ghost f: Plain) returns (a: Reply)
    requires d.Valid() && RequestOk(Write(ino, off, src)) && Shows(d.Abs(), f)
    modifies d
    ensures d.Valid() && Allowed(f, Write(ino, off, src), a) && Shows(d.Abs(), Applied(f, Write(ino, off, src), a))
    ensures a.r != -1 ==> (a.r == |src| <==> Fits(old(d.Abs()), ino, off, |src|))
  {
    ghost var fs := d.Abs();
    var r := d.WriteInode(ino, src, off);
    a := Reply(r, []);
    if r != -1 { WriteShown(fs, d.Abs(), f, ino, off, src, r); }
  }

  method PerformRead(d: Disk, ino: nat, off: nat, len: nat, ghost f: Plain) returns (a: Reply)
    requires d.Valid() && RequestOk(Read(ino, off, len)) && Shows(d.Abs(), f)
    modifies d
    ensures d.Valid() && Allowed(f, Read(ino, off, len), a) && Shows(d.Abs(), f)
    ensures a.r != -1 ==>
      (a.r == Wanted(Size(f, ino), off, len) <==> Fits(old(d.Abs()), ino, off, Wanted(Size(f, ino), off, len)))
  {
    ghost var fs := d.Abs();
    assert SizeOf(fs, ino) == f.sizes[ino];
    var r, dst := d.ReadInode(ino, off, len);
    a := Reply(r, dst);
    SameShown(fs, d.Abs(), f);
    if r != -1 { StretchShown(fs, f, ino, off, r, dst); }
  }

  /** Perform one request; a count is short exactly when the free blocks do not cover the missing ones. */
  method Perform(d: Disk, q: Request, ghost f: Plain) returns (a: Reply)
    requires d.Valid() && RequestOk(q) && Shows(d.Abs(), f)
    modifies d
    ensures d.Valid() && Allowed(f, q, a) && Shows(d.Abs(), Applied(f, q, a))
    ensures q.Write? && a.r != -1 ==> (a.r == |q.src| <==> Fits(old(d.Abs()), q.ino, q.off, |q.src|))
    ensures q.Read? && a.r != -1 ==>
      (a.r == Wanted(Size(f, q.ino), q.off, q.len) <==>
         Fits(old(d.Abs()), q.ino, q.off, Wanted(Size(f, q.ino), q.off, q.len)))
  {
    match q
    case Write(ino, off, src) => a := PerformWrite(d, ino, off, src, f);
    case Read(ino, off, len) => a := PerformRead(d, ino, off, len, f);
    case Truncate(ino) =>
      TruncShown(d.Abs(), d.owner, f, ino);
      var r := d.Itrunc(ino, 0);
      a := Reply(r, []);
  }

  // ----- whole runs -----

  ghost function AllApplied(f: Plain, qs: seq<Request>, answers: seq<Reply>): Plain
    requires |qs| == |answers|
    decreases |qs|
  {
    if qs == [] then f else AllApplied(Applied(f, qs[0], answers[0]), qs[1..], answers[1..])
  }

  ghost predicate AllAllowed(f: Plain, qs: seq<Request>, answers: seq<Reply>)
    requires |qs| == |answers|
    decreases |qs|
  {
    qs == [] || (Allowed(f, qs[0], answers[0]) && AllAllowed(Applied(f, qs[0], answers[0]), qs[1..], answers[1..]))
  }

  /** One more request at the end of a run. */
  lemma {:induction false} RunOn(f: Plain, qs: seq<Request>, answers: seq<Reply>, q: Request, a: Reply)
    requires |qs| == |answers| && AllAllowed(f, qs, answers)
    requires Allowed(AllApplied(f, qs, answers), q, a)
    ensures AllAllowed(f, qs + [q], answers + [a])
    ensures AllApplied(f, qs + [q], answers + [a]) == Applied(AllApplied(f, qs, answers), q, a)
    decreases |qs|
  {
    if qs == [] {
      assert ([] + [q])[1..] == [] && ([] + [a])[1..] == [];
    } else {
      assert (qs + [q])[1..] == qs[1..] + [q] && (answers + [a])[1..] == answers[1..] + [a];
      RunOn(Applied(f, qs[0], answers[0]), qs[1..], answers[1..], q, a);
    }
  }

  /** Any run of requests: the replies are those plain files allow, and the disk ends with the plain files. */
  method PerformAll(d: Disk, qs: seq<Request>, ghost f: Plain) returns (answers: seq<Reply>)
    requires d.Valid() && Shows(d.Abs(), f) && forall q | q in qs :: RequestOk(q)
    modifies d
    ensures d.Valid() && |answers| == |qs| && AllAllowed(f, qs, answers) && Shows(d.Abs(), AllApplied(f, qs, answers))
  {
    answers := [];
    while |answers| < |qs|
      invariant |answers| <= |qs| && d.Valid()
      invariant AllAllowed(f, qs[..|answers|], answers) && Shows(d.Abs(), AllApplied(f, qs[..|answers|], answers))
    {
      var k := |answers|;
      ghost var now := AllApplied(f, qs[..k], answers);
      var a := Perform(d, qs[k], now);
      assert qs[..k + 1] == qs[..k] + [qs[k]];
      RunOn(f, qs[..k], answers, qs[k], a);
      answers := answers + [a];
    }
    assert qs[..|qs|] == qs;
  }

  /** The files of a fresh image. */
  ghost function ImageFiles(files: seq<seq<Byte>>, root: seq<Byte>): Plain {
    Plain(seq(NINODES, (i: nat) => ExpectedSize(files, i)), (i: nat, x: nat) => Expected(files, root, i, x))
  }

  /** From the image `mkfs` builds, every run is a run of the plain files it was given. */
  method ImageRun(files: seq<seq<Byte>>, root: seq<Byte>, qs: seq<Request>) returns (d: Disk, answers: seq<Reply>)
    requires FilesOk(files) && |root| <= 4096 && forall q | q in qs :: RequestOk(q)
    ensures d.Valid() && |answers| == |qs| && AllAllowed(ImageFiles(files, root), qs, answers)
    ensures Shows(d.Abs(), AllApplied(ImageFiles(files, root), qs, answers))
  {
    d := Mkfs(files, root);
    ghost var f := ImageFiles(files, root);
    forall i: nat, x: nat | i < NINODES && x < MAXBYTES ensures ByteShown(d.Abs(), f, i, x) {
      assert FileByte(d.Abs(), i, x) == Expected(files, root, i, x);
    }
    answers := PerformAll(d, qs, f);
  }

  // ----- a read that falls short -----

  ghost function Blocks(fs: Fs, lo: nat, hi: nat): (s: set<nat>)
    ensures forall b :: b in s <==> lo <= b < hi
    decreases hi - lo, |fs.ptr|
  {
    if lo >= hi then {} else {lo} + Blocks(fs, lo + 1, hi)
  }

  lemma {:induction false} BlocksSize(fs: Fs, lo: nat, hi: nat)
    requires lo <= hi
    ensures |Blocks(fs, lo, hi)| == hi - lo
    decreases hi - lo
  {
    if lo < hi { BlocksSize(fs, lo + 1, hi); }
  }

  lemma BlockCount(fs: Fs)
    ensures |MarkedSet(fs)| + |FreeSet(fs)| == NBITS
  {
    BlocksSize(fs, DATA_BLOCK, TOTAL_BLOCKS);
    assert MarkedSet(fs) + FreeSet(fs) == Blocks(fs, DATA_BLOCK, TOTAL_BLOCKS);
  }

  /** The data positions of logical blocks [lo, hi). */
  ghost function DataSet(fs: Fs, ino: nat, lo: nat, hi: nat): set<Pos>
    decreases hi - lo, |fs.ptr|
  {
    if lo >= hi then {} else {DataPos(ino, lo)} + DataSet(fs, ino, lo + 1, hi)
  }

  lemma {:induction false} DataSetIs(fs: Fs, ino: nat, lo: nat, hi: nat)
    requires lo <= hi <= 1049610 && ino < NINODES
    ensures |DataSet(fs, ino, lo, hi)| == hi - lo && DataSet(fs, ino, lo, hi) <= Paths(ino, lo, hi)
    ensures forall p | p in DataSet(fs, ino, lo, hi) :: PosOk(p) && exists n :: lo <= n < hi && p == DataPos(ino, n)
    decreases hi - lo
  {
    if lo < hi {
      DataSetIs(fs, ino, lo + 1, hi);
      DataPosOk(ino, lo);
      if DataPos(ino, lo) in DataSet(fs, ino, lo + 1, hi) {
        var n :| lo + 1 <= n < hi && DataPos(ino, lo) == DataPos(ino, n);
        DataPosInjective(ino, lo, ino, n);
      }
      PathsStep(ino, lo, hi);
      assert DataPos(ino, lo) in Path(ino, lo);
    }
  }

  /** Positions with different blocks are no more than the blocks. */
  lemma {:induction false} Injects(fs: Fs, ps: set<Pos>, bs: set<nat>)
    requires (forall p | p in ps :: At(fs, p) in bs)
    requires forall p, q | p in ps && q in ps && At(fs, p) == At(fs, q) :: p == q
    ensures |ps| <= |bs|
    decreases ps
  {
    if ps != {} {
      var p :| p in ps;
      Injects(fs, ps - {p}, bs - {At(fs, p)});
    }
  }

  /** The positions that have blocks are no more than the blocks in use. */
  lemma HasCount(fs: Fs, owner: map<nat, Pos>, all: set<Pos>)
    requires Inv(fs, owner) && forall p | p in all :: PosOk(p)
    ensures |set p | p in all && At(fs, p) != 0| <= |MarkedSet(fs)|
  {
    var has := set p | p in all && At(fs, p) != 0;
    forall p | p in has ensures At(fs, p) in MarkedSet(fs) { assert SlotOk(fs, owner, p); }
    forall p, q | p in has && q in has && At(fs, p) == At(fs, q)
      ensures p == q
    {
      assert SlotOk(fs, owner, p) && SlotOk(fs, owner, q);
    }
    Injects(fs, has, MarkedSet(fs));
  }

  lemma HasAndNeed(fs: Fs, all: set<Pos>)
    ensures |all| == |set p | p in all && At(fs, p) != 0| + |Need(fs, all)|
  {
    var has := set p | p in all && At(fs, p) != 0;
    assert all == has + Need(fs, all) && has !! Need(fs, all);
  }

  /** A stretch of more blocks than the disk has never fits. */
  lemma TooLong(fs: Fs, owner: map<nat, Pos>, ino: nat, lo: nat, hi: nat)
    requires Inv(fs, owner) && ino < NINODES && lo <= hi <= 1049610 && hi - lo > NBITS
    ensures !Enough(fs, Paths(ino, lo, hi))
  {
    var all := DataSet(fs, ino, lo, hi);
    DataSetIs(fs, ino, lo, hi);
    HasCount(fs, owner, all);
    HasAndNeed(fs, all);
    assert Need(fs, all) <= Need(fs, Paths(ino, lo, hi));
    SubsetCard(Need(fs, all), Need(fs, Paths(ino, lo, hi)));
    BlockCount(fs);
  }

  /** One byte written far out in an empty file of a fresh image is stored. */
  lemma FirstByteFits(fs: Fs, owner: map<nat, Pos>, ino: nat, off: nat)
    requires Inv(fs, owner) && ino < NINODES && off < LIMIT && |FreeSet(fs)| >= 3
    ensures Fits(fs, ino, off, 1)
  {
    var n := off / 4096;
    assert BlocksEnd(off, 1) == n + 1;
    var s := set p | p in Path(ino, n);
    PathsStep(ino, n, n + 1);
    assert Paths(ino, n, n + 1) == s;
    PathCount(ino, n);
    SubsetCard(Need(fs, s), s);
  }

  lemma PathCount(ino: nat, n: nat)
    ensures |set p | p in Path(ino, n)| <= 3
  {
    var path := Path(ino, n);
    var s := set p | p in path;
    if |path| == 1 {
      assert s == {path[0]};
    } else if |path| == 2 {
      assert s == {path[0], path[1]};
    } else {
      assert s == {path[0], path[1], path[2]};
    }
  }

  /** A file with one byte at twenty million, on a fresh image: reading the holes before it runs out of blocks and
      returns fewer bytes than the file has. */
  method SparseRead() returns (d: Disk, w: int, r: int)
    ensures d.Valid() && SizeOf(d.Abs(), 3) == 20000001 && w == 1 && 0 <= r < 20000000
  {
    d := Mkfs([], []);
    ghost var fs := d.Abs();
    assert {12, 13, 14} <= FreeSet(fs);
    SubsetCard({12, 13, 14}, FreeSet(fs));
    FirstByteFits(fs, d.owner, 3, 20000000);
    w := d.WriteInode(3, [7], 20000000);
    TooLong(d.Abs(), d.owner, 3, 0, BlocksEnd(0, 20000000));
    var dst;
    r, dst := d.ReadInode(3, 0, 20000000);
  }
}
