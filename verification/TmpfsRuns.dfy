/** Runs of reads, writes and truncations of any tmpfs files, against files that are plain partial byte sequences; and
    two runs that show what the kernel's callers may not expect. */
module TmpfsRuns {
  import F = Frames
  import opened Counting
  import opened Tmpfs
  import opened TmpfsFiles
  import opened TmpfsSpace
  import opened TmpfsBytes

  // ----- plain files -----

  /** Files without pages: sizes, and the byte of each file at each offset where there is one. */
  datatype Plain = Plain(sizes: seq<nat>, at: (nat, nat) -> F.Option<Byte>)

  datatype Request = Write(ino: nat, off: nat, src: seq<Byte>) | Read(ino: nat, off: nat, len: nat) | Truncate(ino: nat)

  /** `r` is -1 for a request refused or not carried out in full; `done` is how much was written. */
  datatype Reply = Reply(r: int, bytes: seq<Byte>, done: nat)

  ghost predicate RequestOk(q: Request, count: nat) {
    && q.ino < count
    && match q
       case Write(_, off, src) => off < WORD && |src| < 0x1_0000_0000
       case Read(_, off, len) => off < WORD && len < 0x1_0000_0000
       case Truncate(_) => true
  }

  function Size(f: Plain, ino: nat): nat {
    if ino < |f.sizes| then f.sizes[ino] else 0
  }

  function SetSize(f: Plain, ino: nat, size: nat): seq<nat> {
    if ino < |f.sizes| then f.sizes[ino := size] else f.sizes
  }

  /** Byte `x` of file `i` after the first `done` bytes of `src` are written at `off` in `ino`. */
  function ByteAfter(f: Plain, ino: nat, off: nat, src: seq<Byte>, done: nat, i: nat, x: nat): F.Option<Byte> {
    if i == ino && off <= x < off + done && x - off < |src| then F.Some(src[x - off])
    else if i == ino && f.at(i, x) == F.None && Touched(off, done, x) then F.Some(0)
    else f.at(i, x)
  }

  /** The replies plain files allow: only how far a write gets is left open, and it stops short only where there is no
      byte. */
  ghost predicate Allowed(f: Plain, q: Request, a: Reply) {
    match q
    case Write(ino, off, src) =>
      if Refused(off, |src|) then a.r == -1 && a.done == 0
      else
        && a.done <= |src| && a.r == (if a.done == |src| then |src| else -1)
        && (a.done < |src| ==> f.at(ino, off + a.done) == F.None && (a.done == 0 || (off + a.done) % PGSIZE == 0))
    case Read(ino, off, len) =>
      if Refused(off, len) then a.r == -1
      else
        && a.r == |a.bytes| && off + |a.bytes| <= End(Size(f, ino), off, len)
        && (forall k | 0 <= k < |a.bytes| :: f.at(ino, off + k) == F.Some(a.bytes[k]))
        && (off + |a.bytes| < End(Size(f, ino), off, len) ==> f.at(ino, off + |a.bytes|) == F.None)
    case Truncate(_) => a.r == 0
  }

  /** The plain files after a request answered so. */
  ghost function Applied(f: Plain, q: Request, a: Reply): (g: Plain)
    ensures |g.sizes| == |f.sizes|
  {
    match q
    case Write(ino, off, src) =>
      if Refused(off, |src|) then f
      else Plain(SetSize(f, ino, SizeAfter(Size(f, ino), off, src, a.done)),
          (i: nat, x: nat) => ByteAfter(f, ino, off, src, a.done, i, x))
    case Read(_, _, _) => f
    case Truncate(ino) => Plain(SetSize(f, ino, 0), (i: nat, x: nat) => if i == ino then F.None else f.at(i, x))
  }

  ghost predicate ByteShown(im: Image, f: Plain, i: nat, x: nat) {
    ByteOf(im, i, x) == f.at(i, x)
  }

  /** The pages hold exactly the plain files. */
  ghost predicate Shows(im: Image, sizes: seq<nat>, f: Plain) {
    sizes == f.sizes && forall i: nat, x: nat {:trigger ByteShown(im, f, i, x)} :: ByteShown(im, f, i, x)
  }

  // ----- one request -----

  lemma WriteShown(im: Image, im': Image, sizes: seq<nat>, sizes': seq<nat>, f: Plain, ino: nat, off: nat,
      src: seq<Byte>, a: Reply)
    requires Shows(im, sizes, f) && ino < |sizes| && !Refused(off, |src|) && Wrote(im, im', ino, off, src, a.done)
    requires sizes' == sizes[ino := SizeAfter(sizes[ino], off, src, a.done)]
    ensures Shows(im', sizes', Applied(f, Write(ino, off, src), a))
  {
    var f' := Applied(f, Write(ino, off, src), a);
    forall i: nat, x: nat ensures ByteShown(im', f', i, x) {
      assert ByteShown(im, f, i, x);
      assert ByteOf(im', i, x) == After(im, ino, off, src, a.done, i, x);
    }
  }

  lemma TruncateShown(im: Image, im': Image, sizes: seq<nat>, f: Plain, ino: nat, a: Reply)
    requires Shows(im, sizes, f) && ino < |sizes| && Emptied(im, im', ino)
    ensures Shows(im', sizes[ino := 0], Applied(f, Truncate(ino), a))
  {
    var f' := Applied(f, Truncate(ino), a);
    forall i: nat, x: nat ensures ByteShown(im', f', i, x) {
      assert ByteShown(im, f, i, x);
      assert ByteOf(im', i, x) == if i == ino then F.None else ByteOf(im, i, x);
    }
  }

  /** A write stops where there was no byte before. */
  lemma StopShown(im: Image, im': Image, sizes: seq<nat>, f: Plain, ino: nat, off: nat, src: seq<Byte>, done: nat)
    requires Shows(im, sizes, f) && Wrote(im, im', ino, off, src, done) && ByteOf(im', ino, off + done) == F.None
    ensures f.at(ino, off + done) == F.None
  {
    assert ByteShown(im, f, ino, off + done);
    assert ByteOf(im', ino, off + done) == After(im, ino, off, src, done, ino, off + done);
  }

  lemma ReadShown(im: Image, sizes: seq<nat>, f: Plain, ino: nat, off: nat, len: nat, out: seq<Byte>)
    requires Shows(im, sizes, f) && ino < |sizes| && !Refused(off, len) && IsRead(im, ino, sizes[ino], off, len, out)
    ensures Allowed(f, Read(ino, off, len), Reply(|out|, out, 0))
  {
    forall k | 0 <= k < |out| ensures f.at(ino, off + k) == F.Some(out[k]) { assert ByteShown(im, f, ino, off + k); }
    assert ByteShown(im, f, ino, off + |out|);
  }

  method PerformWrite(s: Store, ino: nat, off: nat, src: seq<Byte>, ghost f: Plain) returns (a: Reply)
    requires s.Valid() && RequestOk(Write(ino, off, src), |s.sizes|) && Shows(s.Abs(), s.sizes, f)
    modifies s, s.files
    ensures s.Valid() && Allowed(f, Write(ino, off, src), a)
    ensures Shows(s.Abs(), s.sizes, Applied(f, Write(ino, off, src), a))
    ensures !Refused(off, |src|) ==> Stops(old(s.files.Abs()), ino, off, |src|, a.done)
  {
    ghost var im, sizes := s.Abs(), s.sizes;
    var r, done := s.Write(ino, off, src);
    a := Reply(r, [], done);
    if !Refused(off, |src|) {
      WriteShown(im, s.Abs(), sizes, s.sizes, f, ino, off, src, a);
      if done < |src| { StopShown(im, s.Abs(), sizes, f, ino, off, src, done); }
    }
  }

  method PerformRead(s: Store, ino: nat, off: nat, len: nat, ghost f: Plain) returns (a: Reply)
    requires s.Valid() && RequestOk(Read(ino, off, len), |s.sizes|) && Shows(s.Abs(), s.sizes, f)
    modifies s.files
    ensures s.Valid() && Allowed(f, Read(ino, off, len), a) && s.Abs() == old(s.Abs())
  {
    var r, out := s.Read(ino, off, len);
    a := Reply(r, out, 0);
    if !Refused(off, len) { ReadShown(s.Abs(), s.sizes, f, ino, off, len, out); }
  }

  /** Perform one request; a write gets exactly as far as the free pages carry it. */
  method Perform(s: Store, q: Request, ghost f: Plain) returns (a: Reply)
    requires s.Valid() && RequestOk(q, |s.sizes|) && Shows(s.Abs(), s.sizes, f)
    modifies s, s.files
    ensures s.Valid() && Allowed(f, q, a) && Shows(s.Abs(), s.sizes, Applied(f, q, a))
    ensures q.Write? && !Refused(q.off, |q.src|) ==> Stops(old(s.files.Abs()), q.ino, q.off, |q.src|, a.done)
  {
    match q
    case Write(ino, off, src) => a := PerformWrite(s, ino, off, src, f);
    case Read(ino, off, len) => a := PerformRead(s, ino, off, len, f);
    case Truncate(ino) =>
      ghost var im, sizes := s.Abs(), s.sizes;
      var r := s.Truncate(ino, 0);
      a := Reply(r, [], 0);
      TruncateShown(im, s.Abs(), sizes, f, ino, a);
  }

  // ----- whole runs -----

  ghost function AllApplied(f: Plain, qs: seq<Request>, answers: seq<Reply>): Plain
    requires |qs| == |answers|
    decreases |qs|
  {
    if qs == [] then f else AllApplied(Applied(f, qs[0], answers[0]), qs[1..], answers[1..])
  }

  ghost predicate AllAllowed(f: Plain, qs: seq<Request>, answers: seq<Reply>)
    requires |qs| == |answers|
    decreases |qs|
  {
    qs == [] || (Allowed(f, qs[0], answers[0]) && AllAllowed(Applied(f, qs[0], answers[0]), qs[1..], answers[1..]))
  }

  /** One more request at the end of a run. */
  lemma {:induction false} RunOn(f: Plain, qs: seq<Request>, answers: seq<Reply>, q: Request, a: Reply)
    requires |qs| == |answers| && AllAllowed(f, qs, answers)
    requires Allowed(AllApplied(f, qs, answers), q, a)
    ensures AllAllowed(f, qs + [q], answers + [a])
    ensures AllApplied(f, qs + [q], answers + [a]) == Applied(AllApplied(f, qs, answers), q, a)
    decreases |qs|
  {
    if qs == [] {
      assert ([] + [q])[1..] == [] && ([] + [a])[1..] == [];
    } else {
      assert (qs + [q])[1..] == qs[1..] + [q] && (answers + [a])[1..] == answers[1..] + [a];
      RunOn(Applied(f, qs[0], answers[0]), qs[1..], answers[1..], q, a);
    }
  }

  /** Any run of requests: the replies are those plain files allow, and the pages end with the plain files. */
  method PerformAll(s: Store, qs: seq<Request>, ghost f: Plain) returns (answers: seq<Reply>)
    requires s.Valid() && Shows(s.Abs(), s.sizes, f) && forall q | q in qs :: RequestOk(q, |s.sizes|)
    modifies s, s.files
    ensures s.Valid() && |answers| == |qs| && AllAllowed(f, qs, answers)
    ensures Shows(s.Abs(), s.sizes, AllApplied(f, qs, answers))
  {
    answers := [];
    while |answers| < |qs|
      invariant |answers| <= |qs| && s.Valid() && |s.sizes| == |old(s.sizes)|
      invariant AllAllowed(f, qs[..|answers|], answers)
      invariant Shows(s.Abs(), s.sizes, AllApplied(f, qs[..|answers|], answers))
    {
      var k := |answers|;
      ghost var now := AllApplied(f, qs[..k], answers);
      var a := Perform(s, qs[k], now);
      assert qs[..k + 1] == qs[..k] + [qs[k]];
      RunOn(f, qs[..k], answers, qs[k], a);
      answers := answers + [a];
    }
    assert qs[..|qs|] == qs;
  }

  // ----- files without holes -----

  /** A byte is there exactly if the first byte of its page is. */
  ghost predicate Whole(f: Plain) {
    forall i: nat, x: nat {:trigger PageWhole(f, i, x)} :: PageWhole(f, i, x)
  }

  ghost predicate PageWhole(f: Plain, i: nat, x: nat) {
    f.at(i, x).Some? <==> f.at(i, x / PGSIZE * PGSIZE).Some?
  }

  /** No read of file `i` stops short. */
  ghost predicate Full(f: Plain, i: nat) {
    forall x: nat {:trigger f.at(i, x)} | x < Size(f, i) :: f.at(i, x).Some?
  }

  ghost predicate AllFull(f: Plain) {
    Whole(f) && forall i: nat {:trigger Full(f, i)} :: Full(f, i)
  }

  lemma ShownWhole(im: Image, owner: Owner, pool: set<nat>, sizes: seq<nat>, f: Plain)
    requires ImageOk(im, owner, pool) && Shows(im, sizes, f)
    ensures Whole(f)
  {
    forall i: nat, x: nat ensures PageWhole(f, i, x) {
      var y := x / PGSIZE * PGSIZE;
      assert y / PGSIZE == x / PGSIZE && y % PGSIZE == 0;
      assert ByteShown(im, f, i, x) && ByteShown(im, f, i, y);
      if PageOf(im.fs, i, x / PGSIZE) != 0 { PageIs(im, owner, pool, i, x / PGSIZE); }
    }
  }

  ghost predicate InReach(f: Plain, q: Request) {
    q.Write? ==> Reaches(Size(f, q.ino), q.off, |q.src|)
  }

  lemma WriteWhole(f: Plain, q: Request, a: Reply)
    requires Whole(f) && q.Write? && Allowed(f, q, a)
    ensures Whole(Applied(f, q, a))
  {
    var f' := Applied(f, q, a);
    forall i: nat, x: nat ensures PageWhole(f', i, x) {
      var y := x / PGSIZE * PGSIZE;
      assert PageWhole(f, i, x) && y / PGSIZE == x / PGSIZE;
      InTouched(q.off, a.done, x);
      InTouched(q.off, a.done, y);
    }
  }

  lemma InTouched(off: nat, done: nat, x: nat)
    ensures off <= x < off + done ==> Touched(off, done, x)
  {
  }

  lemma FullPage(f: Plain, i: nat, x: nat)
    requires Whole(f) && Full(f, i) && x / PGSIZE < (Size(f, i) + PGSIZE - 1) / PGSIZE
    ensures f.at(i, x).Some?
  {
    var y := x / PGSIZE * PGSIZE;
    assert y < Size(f, i) && f.at(i, y).Some? && PageWhole(f, i, x);
  }

  lemma WriteFull(f: Plain, q: Request, a: Reply, i: nat)
    requires Whole(f) && Full(f, i) && q.Write? && Allowed(f, q, a) && InReach(f, q)
    ensures Full(Applied(f, q, a), i)
  {
    var f' := Applied(f, q, a);
    if i == q.ino && !Refused(q.off, |q.src|) {
      forall x: nat | x < Size(f', i) ensures f'.at(i, x).Some? {
        if x < Size(f, i) {
          assert f.at(i, x).Some?;
        } else if x < q.off {
          ReachedGap(Size(f, i), q.off, |q.src|, x);
          if x / PGSIZE < (Size(f, i) + PGSIZE - 1) / PGSIZE { FullPage(f, i, x); }
        }
      }
    } else {
      forall x: nat | x < Size(f', i) ensures f'.at(i, x).Some? { assert f.at(i, x).Some?; }
    }
  }

  lemma StepFull(f: Plain, q: Request, a: Reply)
    requires AllFull(f) && Allowed(f, q, a) && InReach(f, q)
    ensures AllFull(Applied(f, q, a))
  {
    var f' := Applied(f, q, a);
    match q
    case Write(_, _, _) =>
      WriteWhole(f, q, a);
      forall i: nat ensures Full(f', i) { WriteFull(f, q, a, i); }
    case Read(_, _, _) =>
    case Truncate(ino) =>
      forall i: nat, x: nat ensures PageWhole(f', i, x) { assert PageWhole(f, i, x); }
      forall i: nat ensures Full(f', i) { assert Full(f, i); }
  }

  ghost predicate AllInReach(f: Plain, qs: seq<Request>, answers: seq<Reply>)
    requires |qs| == |answers|
    decreases |qs|
  {
    qs == [] || (InReach(f, qs[0]) && AllInReach(Applied(f, qs[0], answers[0]), qs[1..], answers[1..]))
  }

  /** Over every run in which each write starts within reach, failed writes included, no read of any file stops
      short. */
  lemma {:induction false} RunFull(f: Plain, qs: seq<Request>, answers: seq<Reply>)
    requires |qs| == |answers| && AllFull(f) && AllAllowed(f, qs, answers) && AllInReach(f, qs, answers)
    ensures AllFull(AllApplied(f, qs, answers))
    decreases |qs|
  {
    if qs != [] {
      StepFull(f, qs[0], answers[0]);
      RunFull(Applied(f, qs[0], answers[0]), qs[1..], answers[1..]);
    }
  }

  /** In such a file a read gives every byte up to the end. */
  lemma FullReply(f: Plain, ino: nat, off: nat, len: nat, a: Reply)
    requires Full(f, ino) && Allowed(f, Read(ino, off, len), a) && !Refused(off, len)
    ensures off + |a.bytes| == End(Size(f, ino), off, len)
  {
  }

  // ----- an empty file system -----

  function NoFiles(count: nat): Plain {
    Plain(seq(count, _ => 0), (i: nat, x: nat) => F.None)
  }

  ghost function PagesTo(n: nat): (s: set<nat>)
    ensures forall b :: b in s <==> 0 < b <= n
  {
    if n == 0 then {} else PagesTo(n - 1) + {n}
  }

  lemma {:induction false} PagesCard(n: nat)
    ensures |PagesTo(n)| == n
  {
    if n > 0 { PagesCard(n - 1); }
  }

  function EmptyFs(pages: nat, count: nat): Fs {
    Fs(seq(pages, (i: nat) => i + 1), seq(pages + 1, _ => Zeros()), seq(count, _ => seq(12, _ => 0)))
  }

  lemma EmptyAt(pages: nat, count: nat, p: Pos)
    ensures At(EmptyFs(pages, count), p) == 0
  {
  }

  lemma EmptyInv(pages: nat, count: nat)
    ensures Inv(EmptyFs(pages, count), map[], PagesTo(pages))
  {
    var fs := EmptyFs(pages, count);
    forall b | b in PagesTo(pages) ensures b in Set(fs.free) { assert fs.free[b - 1] == b; }
    forall p ensures Holds(fs, map[], p) { EmptyAt(pages, count, p); }
    forall b ensures Owned(fs, map[], b) {}
  }

  lemma EmptyImage(pages: nat, count: nat, im: Image)
    requires im == Image(EmptyFs(pages, count), seq(pages + 1, _ => ZeroRow()))
    ensures ImageOk(im, map[], PagesTo(pages)) && Shows(im, seq(count, _ => 0), NoFiles(count))
  {
    EmptyInv(pages, count);
    forall b: nat ensures RowOk(im, b) {}
    forall i: nat, x: nat ensures ByteShown(im, NoFiles(count), i, x) {
      EmptyAt(pages, count, Last(i, x / PGSIZE));
    }
  }

  /** Empty files and `pages` free pages. */
  method MakeStore(pages: nat, count: nat) returns (s: Store)
    ensures fresh(s) && fresh(s.files) && s.Valid() && s.files.pool == PagesTo(pages) && s.files.owner == map[]
    ensures s.files.Abs() == EmptyFs(pages, count) && s.sizes == NoFiles(count).sizes
    ensures Shows(s.Abs(), s.sizes, NoFiles(count))
  {
    var fs := EmptyFs(pages, count);
    var files := new Files(fs.free, fs.mem, fs.inodes, map[], PagesTo(pages));
    s := new Store(files, seq(pages + 1, _ => ZeroRow()), seq(count, _ => 0));
    EmptyImage(pages, count, s.Abs());
  }

  /** From an empty file system every run is a run of plain files, and if its writes start within reach no read stops
      short. */
  method FreshRun(pages: nat, count: nat, qs: seq<Request>) returns (s: Store, answers: seq<Reply>)
    requires forall q | q in qs :: RequestOk(q, count)
    ensures s.Valid() && |answers| == |qs| && AllAllowed(NoFiles(count), qs, answers)
    ensures Shows(s.Abs(), s.sizes, AllApplied(NoFiles(count), qs, answers))
    ensures AllInReach(NoFiles(count), qs, answers) ==> AllFull(AllApplied(NoFiles(count), qs, answers))
  {
    s := MakeStore(pages, count);
    ghost var f := NoFiles(count);
    ShownWhole(s.Abs(), s.files.owner, s.files.pool, s.sizes, f);
    answers := PerformAll(s, qs, f);
    if AllInReach(f, qs, answers) { RunFull(f, qs, answers); }
  }

  // ----- two runs -----

  /** One data page of the first ten is all a byte needs. */
  lemma DirectCovers(fs: Fs, ino: nat, off: nat)
    requires off / PGSIZE < 10 && fs.free != []
    ensures Covers(fs, ino, off, 1)
  {
    var n := off / PGSIZE;
    PathsStep(ino, n, n + 1);
    assert Path(ino, n) == [Slot(ino, n)];
    assert Paths(ino, n, n + 1) == {Slot(ino, n)};
    SubsetCard(Need(fs, {Slot(ino, n)}), {Slot(ino, n)});
  }

  lemma FirstByte(im: Image, ino: nat, size: nat, off: nat, out: seq<Byte>)
    requires IsRead(im, ino, size, off, 1, out) && off < size
    ensures out == if ByteOf(im, ino, off).Some? then [ByteOf(im, ino, off).value] else []
  {
    assert |out| > 0 ==> ByteOf(im, ino, off + 0) == F.Some(out[0]);
  }

  /** One byte written at 8192 into an empty file: the file has 8193 bytes, and a read at its start gives none. */
  method HoleRead() returns (s: Store, w: int, r: int, out: seq<Byte>)
    ensures s.Valid() && s.sizes == [8193] && w == 1 && r == 0 && out == []
  {
    s := MakeStore(1, 1);
    ghost var im := s.Abs();
    assert ByteShown(im, NoFiles(1), 0, 0);
    DirectCovers(im.fs, 0, 8192);
    var done;
    w, done := s.Write(0, 8192, [7]);
    assert ByteOf(s.Abs(), 0, 0) == After(im, 0, 8192, [7], 1, 0, 0);
    r, out := s.Read(0, 0, 1);
    FirstByte(s.Abs(), 0, 8193, 0, out);
  }

  /** No bytes written at 5 into an empty file, without a page in the system: the file has 5 bytes afterwards. */
  method EmptyWrite() returns (s: Store, w: int)
    ensures s.Valid() && s.sizes == [5] && w == 0
  {
    s := MakeStore(0, 1);
    var done;
    w, done := s.Write(0, 5, []);
  }

  /** With one page in all, no page is free once the first block of a file has one. */
  lemma NoneFree(im: Image, owner: Owner, ino: nat)
    requires ImageOk(im, owner, PagesTo(1)) && PageOf(im.fs, ino, 0) != 0
    ensures im.fs.free == []
  {
    var b := PageOf(im.fs, ino, 0);
    PageIs(im, owner, PagesTo(1), ino, 0);
    assert Holds(im.fs, owner, Last(ino, 0)) && b in PagesTo(1);
    assert PagesTo(1) == {b} && Set(im.fs.free) <= PagesTo(1) && b !in Set(im.fs.free);
    SetEmpty(im.fs.free);
  }

  lemma SetEmpty(free: seq<nat>)
    ensures Set(free) == {} <==> free == []
  {
    if free != [] { assert free[0] in Set(free); }
  }

  lemma NotCovered(im: Image, ino: nat, n: nat)
    requires im.fs.free == [] && PageOf(im.fs, ino, 1) == 0 && n > PGSIZE
    ensures !Covers(im.fs, ino, 0, n)
  {
    var s := Paths(ino, 0, BlocksEnd(0, n));
    assert Path(ino, 1)[0] == Slot(ino, 1) && 1 < BlocksEnd(0, n);
    assert Slot(ino, 1) in Path(ino, 1) && Slot(ino, 1) in s;
    assert Slot(ino, 1) in Need(im.fs, s);
  }

  /** One page in all, with one byte of a file in it. */
  method OneByte() returns (s: Store)
    ensures fresh(s) && fresh(s.files) && s.Valid() && s.sizes == [1] && s.files.pool == PagesTo(1)
    ensures ByteOf(s.Abs(), 0, 0) == F.Some(1) && ByteOf(s.Abs(), 0, 4096) == F.None
  {
    s := MakeStore(1, 1);
    ghost var im := s.Abs();
    DirectCovers(im.fs, 0, 0);
    var r, done := s.Write(0, 0, [1]);
    assert ByteShown(im, NoFiles(1), 0, 4096);
    assert ByteOf(s.Abs(), 0, 4096) == After(im, 0, 0, [1], 1, 0, 4096);
    assert ByteOf(s.Abs(), 0, 0) == After(im, 0, 0, [1], 1, 0, 0);
  }

  lemma SecondWrite(im: Image, owner: Owner)
    requires ImageOk(im, owner, PagesTo(1)) && ByteOf(im, 0, 0).Some? && ByteOf(im, 0, 4096) == F.None
    ensures Covers(im.fs, 0, 0, 1) && !Covers(im.fs, 0, 0, 4097)
  {
    NoneFree(im, owner, 0);
    PageCovers(im, owner, PagesTo(1), 0, 0);
    if PageOf(im.fs, 0, 1) != 0 { PageIs(im, owner, PagesTo(1), 0, 1); }
    NotCovered(im, 0, 4097);
  }

  method ReadFirst(s: Store) returns (out: seq<Byte>)
    requires s.Valid() && s.sizes == [1]
    modifies s.files
    ensures s.Valid() && s.Abs() == old(s.Abs())
    ensures out == if ByteOf(s.Abs(), 0, 0).Some? then [ByteOf(s.Abs(), 0, 0).value] else []
  {
    var r;
    r, out := s.Read(0, 0, 1);
    FirstByte(s.Abs(), 0, 1, 0, out);
  }

  /** With one page in all and one byte of a file in it, 4097 bytes written at the start do not fit: the call fails and
      the size stays 1, but the byte is gone. */
  method FailedWrite() returns (s: Store, before: seq<Byte>, w: int, after: seq<Byte>)
    ensures s.Valid() && s.sizes == [1] && before == [1] && w == -1 && after == [7]
  {
    s := OneByte();
    before := ReadFirst(s);
    ghost var im := s.Abs();
    SecondWrite(im, s.files.owner);
    var sevens, done := seq<Byte>(4097, _ => 7), 0;
    w, done := s.Write(0, 0, sevens);
    assert ByteOf(s.Abs(), 0, 0) == After(im, 0, 0, sevens, done, 0, 0);
    after := ReadFirst(s);
  }
}
