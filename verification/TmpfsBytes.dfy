/** The bytes of tmpfs files: `tmpfs_vfs_read` and `tmpfs_vfs_write` over the page trees.  A page is seen twice, as
    512 words in `Fs` and as 4096 bytes here; data pages are never read as words. */
module TmpfsBytes {
  import F = Frames
  import opened Tmpfs
  import opened TmpfsFiles
  import opened TmpfsSpace

  const PGSIZE: nat := 4096
  const MAXFILE: nat := 262666
  const WORD: nat := 0x1_0000_0000_0000_0000

  type Byte = b: int | 0 <= b < 256

  /** The page trees and the bytes of every page. */
  datatype Image = Image(fs: Fs, data: seq<seq<Byte>>)

  function ZeroRow(): (z: seq<Byte>)
    ensures |z| == PGSIZE && forall i | 0 <= i < PGSIZE :: z[i] == 0
  {
    seq<Byte>(PGSIZE, _ => 0)
  }

  ghost predicate RowOk(im: Image, b: nat) {
    b < |im.data| ==> |im.data[b]| == PGSIZE && (b in im.fs.free ==> im.data[b] == ZeroRow())
  }

  /** Free pages are zero: `kfree` and `kalloc` both clear them. */
  ghost predicate ImageOk(im: Image, owner: Owner, pool: set<nat>) {
    && Inv(im.fs, owner, pool) && |im.data| == |im.fs.mem|
    && forall b: nat {:trigger RowOk(im, b)} :: RowOk(im, b)
  }

  /** The position of data page `bn`, for a block in range. */
  function Last(ino: nat, bn: nat): Pos {
    if bn < 10 then Slot(ino, bn)
    else if bn < 522 then Leaf1(ino, bn - 10)
    else Leaf2(ino, (bn - 522) / 512, (bn - 522) % 512)
  }

  function PageOf(fs: Fs, ino: nat, bn: nat): nat {
    if bn < MAXFILE then At(fs, Last(ino, bn)) else 0
  }

  /** Byte `x` of a file, if its page exists. */
  function ByteOf(im: Image, ino: nat, x: nat): F.Option<Byte> {
    var b := PageOf(im.fs, ino, x / PGSIZE);
    if b == 0 || b >= |im.data| || x % PGSIZE >= |im.data[b]| then F.None else F.Some(im.data[b][x % PGSIZE])
  }

  /** Where the pages of a file are kept: ten in the inode, 512 in the page its eleventh slot names, and 512 each in
      the pages named by the page its twelfth slot names. */
  lemma PageOfHolds(fs: Fs, ino: nat, j: nat, i: nat)
    requires j < 512 && i < 512
    ensures i < 10 ==> PageOf(fs, ino, i) == Blk(fs, ino, i)
    ensures PageOf(fs, ino, 10 + i) == Word(fs, Blk(fs, ino, 10), i)
    ensures PageOf(fs, ino, 522 + 512 * j + i) == Word(fs, Word(fs, Blk(fs, ino, 11), j), i)
  {
  }

  lemma LastIs(fs: Fs, ino: nat, bn: nat)
    requires ino < |fs.inodes| && bn < MAXFILE
    ensures PosOk(fs, Last(ino, bn)) && IsData(Last(ino, bn))
    ensures var path := Path(ino, bn);
      path != [] && path[|path| - 1] == Last(ino, bn) && forall q | q in path && IsData(q) :: q == Last(ino, bn)
    ensures Bmap(fs, ino, bn, false) == (fs, PageOf(fs, ino, bn))
  {
  }

  lemma LastInjective(ino: nat, bn: nat, ino': nat, bn': nat)
    requires Last(ino, bn) == Last(ino', bn')
    ensures ino == ino' && bn == bn'
  {
  }

  /** A page that exists is allocated, and no other block has it. */
  lemma PageIs(im: Image, owner: Owner, pool: set<nat>, ino: nat, bn: nat)
    requires ImageOk(im, owner, pool) && PageOf(im.fs, ino, bn) != 0
    ensures var b := PageOf(im.fs, ino, bn);
      && ino < |im.fs.inodes| && b < |im.data| && |im.data[b]| == PGSIZE && b !in im.fs.free
      && forall i, n {:trigger PageOf(im.fs, i, n)} | PageOf(im.fs, i, n) == b :: i == ino && n == bn
  {
    var b := PageOf(im.fs, ino, bn);
    InRange(im.fs, ino, bn);
    LastIs(im.fs, ino, bn);
    assert Holds(im.fs, owner, Last(ino, bn)) && Owned(im.fs, owner, b) && RowOk(im, b);
    forall i, n | PageOf(im.fs, i, n) == b ensures i == ino && n == bn {
      InRange(im.fs, i, n);
      LastIs(im.fs, i, n);
      NoSharing(im.fs, owner, pool, Last(ino, bn), Last(i, n));
      LastInjective(ino, bn, i, n);
    }
  }

  lemma InRange(fs: Fs, ino: nat, bn: nat)
    requires PageOf(fs, ino, bn) != 0
    ensures ino < |fs.inodes| && bn < MAXFILE
  {
  }

  // ----- one page of a write -----

  /** A path that could not be filled has no page at its end. */
  lemma {:induction false} FillFails(fs: Fs, owner: Owner, pool: set<nat>, path: seq<Pos>)
    requires Inv(fs, owner, pool) && path != [] && Chain(fs, path)
    requires (InTable(path[0]) ==> At(fs, Parent(path[0])) != 0)
    requires Fill(fs, path).1 == 0
    ensures At(Fill(fs, path).0, path[|path| - 1]) == 0
    decreases |path|
  {
    EnsureKeeps(fs, owner, pool, path[0]);
    var (fs1, b) := Ensure(fs, path[0]);
    if b == 0 {
      EmptyAlong(fs, path);
    } else {
      assert path[1..][0] == path[1];
      FillFails(fs1, OwnerAfter(fs, owner, path[0]), pool, path[1..]);
    }
  }

  lemma {:induction false} EmptyAlong(fs: Fs, path: seq<Pos>)
    requires path != [] && Chain(fs, path) && At(fs, path[0]) == 0
    ensures At(fs, path[|path| - 1]) == 0
    decreases |path|
  {
    if |path| > 1 {
      assert path[1..][0] == path[1] && Parent(path[1]) == path[0];
      EmptyAlong(fs, path[1..]);
    }
  }

  /** The page of another block, or one that exists, is not changed by `tmpfs_bmap`. */
  lemma MapPages(fs: Fs, owner: Owner, pool: set<nat>, ino: nat, bn: nat, i: nat, n: nat)
    requires Inv(fs, owner, pool) && ino < |fs.inodes| && bn < MAXFILE
    ensures var (fs', b) := Bmap(fs, ino, bn, true);
      PageOf(fs', i, n) == if i == ino && n == bn then b else PageOf(fs, i, n)
  {
    var (fs', b) := Bmap(fs, ino, bn, true);
    BmapKeeps(fs, owner, pool, ino, bn, true);
    LastIs(fs, ino, bn);
    PathChain(fs, ino, bn);
    if b == 0 { FillFails(fs, owner, pool, Path(ino, bn)); }
    if i < |fs.inodes| && n < MAXFILE {
      LastIs(fs, i, n);
      if Last(i, n) == Last(ino, bn) { LastInjective(i, n, ino, bn); }
    }
  }

  /** The free pages only get fewer. */
  lemma MapFree(fs: Fs, owner: Owner, fs': Fs, owner': Owner, pool: set<nat>, b: nat)
    requires Inv(fs, owner, pool) && Inv(fs', owner', pool) && forall x | x in owner :: x in owner'
    requires b in fs'.free
    ensures b in fs.free
  {
    assert b in Set(fs'.free) && b in pool;
    assert b !in owner';
    assert b in Set(fs.free);
  }

  /** A page `tmpfs_bmap` has put where there was none came from the free list. */
  lemma MapTaken(fs: Fs, owner: Owner, pool: set<nat>, ino: nat, bn: nat)
    requires Inv(fs, owner, pool) && ino < |fs.inodes| && bn < MAXFILE && PageOf(fs, ino, bn) == 0
    ensures var (fs', b) := Bmap(fs, ino, bn, true); b != 0 ==> b in fs.free
  {
    var (fs', b) := Bmap(fs, ino, bn, true);
    var owner' := BmapOwner(fs, owner, ino, bn, true);
    BmapKeeps(fs, owner, pool, ino, bn, true);
    LastIs(fs, ino, bn);
    if b != 0 {
      assert Holds(fs', owner', Last(ino, bn)) && Owned(fs, owner, b);
      assert b in owner'.Keys && b in pool && b in Set(fs.free);
    }
  }

  /** Byte `x` of file `i` once block `bn` of `ino` has a page, if it has got one. */
  function Fresh(im: Image, ino: nat, bn: nat, got: bool, i: nat, x: nat): F.Option<Byte> {
    if i == ino && x / PGSIZE == bn && ByteOf(im, i, x) == F.None && got then F.Some(0) else ByteOf(im, i, x)
  }

  /** `tmpfs_bmap` seen in bytes: a new page is zero, everything else stays. */
  lemma MapBytes(im: Image, owner: Owner, pool: set<nat>, ino: nat, bn: nat)
    requires ImageOk(im, owner, pool) && ino < |im.fs.inodes| && bn < MAXFILE
    ensures var (fs', b) := Bmap(im.fs, ino, bn, true); var im' := im.(fs := fs');
      && ImageOk(im', BmapOwner(im.fs, owner, ino, bn, true), pool)
      && (forall i: nat, x: nat {:trigger ByteOf(im', i, x)} :: ByteOf(im', i, x) == Fresh(im, ino, bn, b != 0, i, x))
  {
    var (fs', b) := Bmap(im.fs, ino, bn, true);
    var im', owner' := im.(fs := fs'), BmapOwner(im.fs, owner, ino, bn, true);
    BmapKeeps(im.fs, owner, pool, ino, bn, true);
    BmapMem(im.fs, ino, bn);
    forall c: nat ensures RowOk(im', c) {
      assert RowOk(im, c);
      if c in fs'.free { MapFree(im.fs, owner, fs', owner', pool, c); }
    }
    forall i: nat, x: nat
      ensures ByteOf(im', i, x) == Fresh(im, ino, bn, b != 0, i, x)
    {
      var n := x / PGSIZE;
      MapPages(im.fs, owner, pool, ino, bn, i, n);
      if PageOf(im.fs, i, n) != 0 {
        PageIs(im, owner, pool, i, n);
        if i == ino && n == bn { MapSame(im.fs, owner, pool, ino, bn); }
      } else if i == ino && n == bn && b != 0 {
        MapTaken(im.fs, owner, pool, ino, bn);
        assert RowOk(im, b);
        PageIs(im', owner', pool, ino, bn);
      }
    }
  }

  lemma MapSame(fs: Fs, owner: Owner, pool: set<nat>, ino: nat, bn: nat)
    requires Inv(fs, owner, pool) && ino < |fs.inodes| && bn < MAXFILE && PageOf(fs, ino, bn) != 0
    ensures Bmap(fs, ino, bn, true).1 == PageOf(fs, ino, bn)
  {
    BmapKeeps(fs, owner, pool, ino, bn, true);
    LastIs(fs, ino, bn);
    MapPages(fs, owner, pool, ino, bn, ino, bn);
  }

  lemma BmapMem(fs: Fs, ino: nat, bn: nat)
    ensures |Bmap(fs, ino, bn, true).0.mem| == |fs.mem|
  {
    FillMem(fs, Path(ino, bn));
  }

  lemma {:induction false} FillMem(fs: Fs, path: seq<Pos>)
    ensures |Fill(fs, path).0.mem| == |fs.mem|
    decreases |path|
  {
    if path != [] {
      var (fs1, b) := Ensure(fs, path[0]);
      assert |fs1.mem| == |fs.mem|;
      if b != 0 && |path| > 1 { FillMem(fs1, path[1..]); }
    }
  }

  function Splice(row: seq<Byte>, i: nat, s: seq<Byte>): (r: seq<Byte>)
    requires i + |s| <= |row|
    ensures |r| == |row| && forall k | 0 <= k < |row| :: r[k] == if i <= k < i + |s| then s[k - i] else row[k]
  {
    row[..i] + s + row[i + |s|..]
  }

  /** Byte `x` of file `i` after the bytes `s` are stored at `at` in `ino`. */
  function Stored(im: Image, ino: nat, at: nat, s: seq<Byte>, i: nat, x: nat): F.Option<Byte> {
    if i == ino && at <= x < at + |s| then F.Some(s[x - at]) else ByteOf(im, i, x)
  }

  /** Bytes stored in the page of a block change that stretch of that file and nothing else. */
  lemma StoreBytes(im: Image, owner: Owner, pool: set<nat>, ino: nat, at: nat, s: seq<Byte>)
    requires ImageOk(im, owner, pool) && PageOf(im.fs, ino, at / PGSIZE) != 0 && at % PGSIZE + |s| <= PGSIZE
    ensures var b := PageOf(im.fs, ino, at / PGSIZE); b < |im.data| && |im.data[b]| == PGSIZE
    ensures var b := PageOf(im.fs, ino, at / PGSIZE);
      var im' := im.(data := im.data[b := Splice(im.data[b], at % PGSIZE, s)]);
      && ImageOk(im', owner, pool)
      && (forall i: nat, x: nat {:trigger ByteOf(im', i, x)} :: ByteOf(im', i, x) == Stored(im, ino, at, s, i, x))
  {
    var b := PageOf(im.fs, ino, at / PGSIZE);
    PageIs(im, owner, pool, ino, at / PGSIZE);
    var im' := im.(data := im.data[b := Splice(im.data[b], at % PGSIZE, s)]);
    forall c: nat ensures RowOk(im', c) { assert RowOk(im, c); }
    forall i: nat, x: nat
      ensures ByteOf(im', i, x) == Stored(im, ino, at, s, i, x)
    {
      StoreAt(im, im', b, ino, at, s, i, x);
    }
  }

  lemma StoreAt(im: Image, im': Image, b: nat, ino: nat, at: nat, s: seq<Byte>, i: nat, x: nat)
    requires b == PageOf(im.fs, ino, at / PGSIZE) != 0 && b < |im.data| && |im.data[b]| == PGSIZE
    requires at % PGSIZE + |s| <= PGSIZE && im' == im.(data := im.data[b := Splice(im.data[b], at % PGSIZE, s)])
    requires forall i, n {:trigger PageOf(im.fs, i, n)} | PageOf(im.fs, i, n) == b :: i == ino && n == at / PGSIZE
    ensures ByteOf(im', i, x) == Stored(im, ino, at, s, i, x)
  {
    var c := PageOf(im.fs, i, x / PGSIZE);
    if at <= x < at + |s| { assert x / PGSIZE == at / PGSIZE && x % PGSIZE - at % PGSIZE == x - at; }
    if c == b { assert x - at == x % PGSIZE - at % PGSIZE; }
  }

  // ----- whole writes -----

  /** Byte `x` of file `i` after the first `done` bytes of `buf` are written at `off` in `ino`: pages that had to be
      made are zero where nothing was written. */
  function After(im: Image, ino: nat, off: nat, buf: seq<Byte>, done: nat, i: nat, x: nat): F.Option<Byte>
    requires done <= |buf|
  {
    if i == ino && off <= x < off + done then F.Some(buf[x - off])
    else if i == ino && ByteOf(im, i, x) == F.None && Touched(off, done, x) then F.Some(0)
    else ByteOf(im, i, x)
  }

  /** The page of byte `x` is one a write of `done` bytes at `off` reaches. */
  predicate Touched(off: nat, done: nat, x: nat) {
    done > 0 && off / PGSIZE <= x / PGSIZE <= (off + done - 1) / PGSIZE
  }

  ghost predicate Wrote(im: Image, im': Image, ino: nat, off: nat, buf: seq<Byte>, done: nat) {
    && done <= |buf|
    && forall i: nat, x: nat {:trigger ByteOf(im', i, x)} :: ByteOf(im', i, x) == After(im, ino, off, buf, done, i, x)
  }

  /** The next stretch of a write, up to the end of its page. */
  ghost predicate NextStretch(off: nat, buf: seq<Byte>, done: nat, len: nat) {
    && 0 < len && done + len <= |buf| && (off + done) % PGSIZE + len <= PGSIZE
    && (done == 0 || (off + done) % PGSIZE == 0)
  }

  /** How much of `left` bytes at `at` go into its page. */
  function Stretch(at: nat, left: nat): nat {
    if PGSIZE - at % PGSIZE < left then PGSIZE - at % PGSIZE else left
  }

  lemma StretchIs(off: nat, buf: seq<Byte>, done: nat, len: nat)
    requires done < |buf| && (done == 0 || (off + done) % PGSIZE == 0) && len == Stretch(off + done, |buf| - done)
    ensures NextStretch(off, buf, done, len) && (done + len == |buf| || (off + done + len) % PGSIZE == 0)
    ensures off + |buf| <= MAXFILE * PGSIZE ==> (off + done) / PGSIZE < MAXFILE
  {
  }

  lemma TouchedNext(off: nat, buf: seq<Byte>, done: nat, len: nat, x: nat)
    requires NextStretch(off, buf, done, len)
    ensures Touched(off, done + len, x) <==> Touched(off, done, x) || x / PGSIZE == (off + done) / PGSIZE
  {
    var at := off + done;
    assert (at + len - 1) / PGSIZE == at / PGSIZE;
    if done > 0 { assert (at - 1) / PGSIZE == at / PGSIZE - 1; }
  }

  lemma AfterNext(im0: Image, im: Image, im1: Image, im2: Image, ino: nat, off: nat, buf: seq<Byte>, done: nat,
      len: nat, i: nat, x: nat)
    requires NextStretch(off, buf, done, len) && ByteOf(im, i, x) == After(im0, ino, off, buf, done, i, x)
    requires ByteOf(im1, i, x) == Fresh(im, ino, (off + done) / PGSIZE, true, i, x)
    requires ByteOf(im2, i, x) == Stored(im1, ino, off + done, buf[done..done + len], i, x)
    ensures ByteOf(im2, i, x) == After(im0, ino, off, buf, done + len, i, x)
  {
    TouchedNext(off, buf, done, len, x);
    if off + done <= x < off + done + len { assert buf[done..done + len][x - off - done] == buf[x - off]; }
  }

  lemma WroteNext(im0: Image, im: Image, im1: Image, im2: Image, ino: nat, off: nat, buf: seq<Byte>, done: nat,
      len: nat)
    requires Wrote(im0, im, ino, off, buf, done) && NextStretch(off, buf, done, len)
    requires forall i: nat, x: nat {:trigger ByteOf(im1, i, x)} ::
      ByteOf(im1, i, x) == Fresh(im, ino, (off + done) / PGSIZE, true, i, x)
    requires forall i: nat, x: nat {:trigger ByteOf(im2, i, x)} ::
      ByteOf(im2, i, x) == Stored(im1, ino, off + done, buf[done..done + len], i, x)
    ensures Wrote(im0, im2, ino, off, buf, done + len)
  {
    forall i: nat, x: nat ensures ByteOf(im2, i, x) == After(im0, ino, off, buf, done + len, i, x) {
      assert ByteOf(im1, i, x) == Fresh(im, ino, (off + done) / PGSIZE, true, i, x);
      AfterNext(im0, im, im1, im2, ino, off, buf, done, len, i, x);
    }
  }

  lemma WroteSame(im0: Image, im: Image, im1: Image, ino: nat, off: nat, buf: seq<Byte>, done: nat)
    requires Wrote(im0, im, ino, off, buf, done)
    requires forall i: nat, x: nat {:trigger ByteOf(im1, i, x)} ::
      ByteOf(im1, i, x) == Fresh(im, ino, (off + done) / PGSIZE, false, i, x)
    ensures Wrote(im0, im1, ino, off, buf, done)
  {
    forall i: nat, x: nat ensures ByteOf(im1, i, x) == After(im0, ino, off, buf, done, i, x) {
      assert ByteOf(im, i, x) == After(im0, ino, off, buf, done, i, x);
    }
  }

  /** The files after a round: the stretch is written, or there is no page. */
  function RoundImage(im: Image, at: nat, s: seq<Byte>, fs': Fs, b: nat): Image
    requires at % PGSIZE + |s| <= PGSIZE && (b != 0 ==> b < |im.data| && |im.data[b]| == PGSIZE)
  {
    if b == 0 then im.(fs := fs') else Image(fs', im.data[b := Splice(im.data[b], at % PGSIZE, s)])
  }

  lemma RoundResult(im0: Image, im: Image, owner: Owner, pool: set<nat>, ino: nat, off: nat, buf: seq<Byte>, done: nat,
      len: nat, at: nat, bn: nat, fs': Fs, b: nat)
    returns (im': Image)
    requires ImageOk(im, owner, pool) && ino < |im.fs.inodes| && Wrote(im0, im, ino, off, buf, done)
    requires at == off + done && bn == at / PGSIZE < MAXFILE && NextStretch(off, buf, done, len)
    requires (fs', b) == Bmap(im.fs, ino, bn, true)
    ensures b != 0 ==> b < |im.data| && |im.data[b]| == PGSIZE
    ensures im' == RoundImage(im, at, buf[done..done + len], fs', b) && |fs'.inodes| == |im.fs.inodes|
    ensures ImageOk(im', BmapOwner(im.fs, owner, ino, bn, true), pool)
    ensures Wrote(im0, im', ino, off, buf, if b == 0 then done else done + len)
    ensures b == 0 ==> fs'.free == [] && ByteOf(im', ino, at) == F.None
  {
    var im1 := im.(fs := fs');
    MapBytes(im, owner, pool, ino, bn);
    BmapKeeps(im.fs, owner, pool, ino, bn, true);
    MapPages(im.fs, owner, pool, ino, bn, ino, bn);
    if b == 0 {
      im' := im1;
      WroteSame(im0, im, im1, ino, off, buf, done);
      MapEmpties(im.fs, owner, pool, ino, bn);
    } else {
      var s := buf[done..done + len];
      StoreBytes(im1, BmapOwner(im.fs, owner, ino, bn, true), pool, ino, at, s);
      im' := im1.(data := im.data[b := Splice(im.data[b], at % PGSIZE, s)]);
      WroteNext(im0, im, im1, im', ino, off, buf, done, len);
    }
  }

  // ----- how far a write gets -----

  /** The block after the last one that `n` bytes at `off` reach. */
  function BlocksEnd(off: nat, n: nat): nat {
    if n == 0 then off / PGSIZE else (off + n - 1) / PGSIZE + 1
  }

  /** The free pages cover what `n` bytes at `off` still need: data pages and the pages that list them. */
  ghost predicate Covers(fs: Fs, ino: nat, off: nat, n: nat) {
    Enough(fs, Paths(ino, off / PGSIZE, BlocksEnd(off, n)))
  }

  /** A write of `n` bytes gets as far as `done`: the free pages cover that much and no byte more. */
  ghost predicate Stops(fs: Fs, ino: nat, off: nat, n: nat, done: nat) {
    && done <= n && Covers(fs, ino, off, done) && (done == n <==> Covers(fs, ino, off, n))
    && (done < n ==> !Covers(fs, ino, off, done + 1))
  }

  lemma CoversLess(fs: Fs, ino: nat, off: nat, n: nat, n': nat)
    requires n <= n' && Covers(fs, ino, off, n')
    ensures Covers(fs, ino, off, n)
  {
    EnoughLess(fs, ino, off / PGSIZE, BlocksEnd(off, n), BlocksEnd(off, n'));
  }

  /** The state before the write decides how far it gets. */
  lemma StopsOnce(fs: Fs, ino: nat, off: nat, n: nat, done: nat, done': nat)
    requires Stops(fs, ino, off, n, done) && Stops(fs, ino, off, n, done')
    ensures done == done'
  {
    if done < done' { CoversLess(fs, ino, off, done + 1, done'); }
    if done' < done { CoversLess(fs, ino, off, done' + 1, done); }
  }

  lemma BlocksNext(off: nat, buf: seq<Byte>, done: nat, len: nat)
    requires NextStretch(off, buf, done, len)
    ensures BlocksEnd(off, done) == (off + done) / PGSIZE
    ensures BlocksEnd(off, done + len) == BlocksEnd(off, done + 1) == (off + done) / PGSIZE + 1 <= BlocksEnd(off, |buf|)
  {
    var at := off + done;
    assert (at + len - 1) / PGSIZE == at / PGSIZE;
    if done > 0 { assert (at - 1) / PGSIZE == at / PGSIZE - 1; }
  }

  /** One round in pages: the rest fits exactly if the whole did, or this is where the write stops. */
  lemma RoundSpace(fs0: Fs, fs: Fs, owner: Owner, pool: set<nat>, ino: nat, off: nat, buf: seq<Byte>, done: nat,
      len: nat)
    requires Inv(fs, owner, pool) && ino < |fs.inodes| && done < |buf| && off + |buf| <= MAXFILE * PGSIZE
    requires PageEnd(off, buf, done) && len == Stretch(off + done, |buf| - done)
    requires SpaceUsed(fs0, fs, ino, off, done)
    ensures var (fs', b) := Bmap(fs, ino, (off + done) / PGSIZE, true);
      && (b != 0 ==> SpaceUsed(fs0, fs', ino, off, done + len))
      && (b == 0 ==> Stops(fs0, ino, off, |buf|, done))
  {
    StretchIs(off, buf, done, len);
    BlocksNext(off, buf, done, len);
    SpaceMapped(fs0, fs, ino, off / PGSIZE, BlocksEnd(off, done));
    SpaceNext(fs0, fs, owner, pool, ino, off / PGSIZE, BlocksEnd(off, done));
  }

  /** Between two rounds a write is at the end of a page. */
  predicate PageEnd(off: nat, buf: seq<Byte>, done: nat) {
    done == 0 || done == |buf| || (off + done) % PGSIZE == 0
  }

  ghost predicate SpaceUsed(fs0: Fs, fs: Fs, ino: nat, off: nat, done: nat) {
    SpaceKept(fs0, fs, ino, off / PGSIZE, BlocksEnd(off, done))
  }

  /** A write that has stopped at `done`: no page is free and the next one is missing. */
  ghost predicate Stopped(fs0: Fs, im: Image, ino: nat, off: nat, buf: seq<Byte>, done: nat) {
    && Stops(fs0, ino, off, |buf|, done) && (done == 0 || (off + done) % PGSIZE == 0)
    && im.fs.free == [] && ByteOf(im, ino, off + done) == F.None
  }

  /** The next round, with the stretch it chooses. */
  lemma RoundFor(im0: Image, im: Image, owner: Owner, pool: set<nat>, ino: nat, off: nat, buf: seq<Byte>, done: nat,
      len: nat, at: nat)
    returns (im': Image)
    requires ImageOk(im, owner, pool) && ino < |im.fs.inodes| && Wrote(im0, im, ino, off, buf, done) && done < |buf|
    requires at == off + done && len == Stretch(at, |buf| - done) && off + |buf| <= MAXFILE * PGSIZE
    requires PageEnd(off, buf, done)
    ensures 0 < len && done + len <= |buf| && at % PGSIZE + len <= PGSIZE && PageEnd(off, buf, done + len)
    ensures var (fs', b) := Bmap(im.fs, ino, at / PGSIZE, true);
      && (b != 0 ==> b < |im.data| && |im.data[b]| == PGSIZE)
      && im' == RoundImage(im, at, buf[done..done + len], fs', b) && |fs'.inodes| == |im.fs.inodes| && im'.fs == fs'
      && ImageOk(im', BmapOwner(im.fs, owner, ino, at / PGSIZE, true), pool)
      && (b != 0 ==> Wrote(im0, im', ino, off, buf, done + len))
      && (b == 0 ==> Wrote(im0, im', ino, off, buf, done) && im'.fs.free == [] && ByteOf(im', ino, at) == F.None)
  {
    StretchIs(off, buf, done, len);
    var (fs', b) := Bmap(im.fs, ino, at / PGSIZE, true);
    im' := RoundResult(im0, im, owner, pool, ino, off, buf, done, len, at, at / PGSIZE, fs', b);
  }

  lemma RoundSeen(fs0: Fs, im: Image, im': Image, owner: Owner, pool: set<nat>, ino: nat, off: nat, buf: seq<Byte>,
      done: nat, next: nat, at: nat)
    requires ImageOk(im, owner, pool) && ino < |im.fs.inodes| && done < |buf| && off + |buf| <= MAXFILE * PGSIZE
    requires PageEnd(off, buf, done) && at == off + done && next == done + Stretch(at, |buf| - done)
    requires SpaceUsed(fs0, im.fs, ino, off, done) && im'.fs == Bmap(im.fs, ino, at / PGSIZE, true).0
    requires Bmap(im.fs, ino, at / PGSIZE, true).1 == 0 ==> im'.fs.free == [] && ByteOf(im', ino, at) == F.None
    ensures Bmap(im.fs, ino, at / PGSIZE, true).1 != 0 ==> SpaceUsed(fs0, im'.fs, ino, off, next)
    ensures Bmap(im.fs, ino, at / PGSIZE, true).1 == 0 ==> Stopped(fs0, im', ino, off, buf, done)
  {
    RoundSpace(fs0, im.fs, owner, pool, ino, off, buf, done, next - done);
  }

  // ----- truncation -----

  /** The bytes once `kfree` has cleared the pages on the free list. */
  function Cleared(data: seq<seq<Byte>>, free: seq<nat>): (r: seq<seq<Byte>>)
    ensures |r| == |data| && forall b | 0 <= b < |data| :: r[b] == if b in free then ZeroRow() else data[b]
  {
    seq(|data|, (b: nat) requires b < |data| => if b in free then ZeroRow() else data[b])
  }

  /** File `ino` has no page left and every other file has its bytes. */
  ghost predicate Emptied(im: Image, im': Image, ino: nat) {
    forall i: nat, x: nat {:trigger ByteOf(im', i, x)} ::
      ByteOf(im', i, x) == if i == ino then F.None else ByteOf(im, i, x)
  }

  lemma TruncBytes(im: Image, owner: Owner, im': Image, owner': Owner, pool: set<nat>, ino: nat)
    requires ImageOk(im, owner, pool) && Inv(im'.fs, owner', pool) && |im'.fs.mem| == |im.fs.mem|
    requires |im'.fs.inodes| == |im.fs.inodes| && im'.data == Cleared(im.data, im'.fs.free)
    requires forall q | PosOk(im'.fs, q) :: At(im'.fs, q) == if q.ino == ino then 0 else At(im.fs, q)
    ensures ImageOk(im', owner', pool) && Emptied(im, im', ino)
  {
    forall b: nat ensures RowOk(im', b) { assert RowOk(im, b); }
    forall i: nat, x: nat ensures ByteOf(im', i, x) == if i == ino then F.None else ByteOf(im, i, x) {
      var n := x / PGSIZE;
      if i < |im.fs.inodes| && n < MAXFILE {
        LastIs(im.fs, i, n);
        assert PosOk(im'.fs, Last(i, n));
        assert PageOf(im'.fs, i, n) == if i == ino then 0 else PageOf(im.fs, i, n);
        if PageOf(im'.fs, i, n) != 0 { PageIs(im', owner', pool, i, n); }
      }
    }
  }

  /** The arguments both calls refuse. */
  predicate Refused(off: nat, n: nat) {
    off + n >= WORD || off + n > MAXFILE * PGSIZE
  }

  /** Where a read that finds every page ends. */
  function End(size: nat, off: nat, n: nat): nat {
    if off >= size then off else if off + n < size then off + n else size
  }

  /** What a read gives: the bytes from `off` on, up to the end or to the first byte whose page was never made. */
  ghost predicate IsRead(im: Image, ino: nat, size: nat, off: nat, n: nat, out: seq<Byte>) {
    && off + |out| <= End(size, off, n)
    && (forall k | 0 <= k < |out| :: ByteOf(im, ino, off + k) == F.Some(out[k]))
    && (off + |out| < End(size, off, n) ==> ByteOf(im, ino, off + |out|) == F.None)
  }

  function Max(a: nat, b: nat): nat {
    if a < b then b else a
  }

  function SizeAfter(size: nat, off: nat, buf: seq<Byte>, done: nat): nat {
    if done == |buf| then Max(size, off + |buf|) else size
  }

  class Store {
    const files: Files
    var data: seq<seq<Byte>>
    var sizes: seq<nat>

    constructor (files0: Files, data0: seq<seq<Byte>>, sizes0: seq<nat>)
      ensures files == files0 && data == data0 && sizes == sizes0
    {
      files, data, sizes := files0, data0, sizes0;
    }

    ghost function Abs(): Image
      reads this, files
    {
      Image(files.Abs(), data)
    }

    ghost predicate Valid()
      reads this, files
    {
      ImageOk(Abs(), files.owner, files.pool) && |sizes| == |files.inodes| && files.Valid()
    }

    /** One round of a write; `next` is how far it has got then, or `done` when there is no page. */
    method WriteRound(ino: nat, off: nat, buf: seq<Byte>, done: nat, ghost im0: Image, ghost im: Image)
      returns (next: nat, ghost im': Image)
      requires Valid() && ino < |sizes| && done < |buf| && off + |buf| <= MAXFILE * PGSIZE && Abs() == im
      requires Wrote(im0, im, ino, off, buf, done) && PageEnd(off, buf, done)
      requires SpaceUsed(im0.fs, im.fs, ino, off, done)
      modifies this, files
      ensures Valid() && sizes == old(sizes) && Abs() == im' && done <= next <= |buf|
      ensures Wrote(im0, im', ino, off, buf, next) && PageEnd(off, buf, next)
      ensures done < next ==> SpaceUsed(im0.fs, im'.fs, ino, off, next)
      ensures done == next ==> Stopped(im0.fs, im', ino, off, buf, done)
    {
      var at := off + done;
      var len := Stretch(at, |buf| - done);
      im' := RoundFor(im0, im, files.owner, files.pool, ino, off, buf, done, len, at);
      RoundSeen(im0.fs, im, im', files.owner, files.pool, ino, off, buf, done, done + len, at);
      var ok := PutStretch(ino, at, buf[done..done + len], im, im');
      next := if ok then done + len else done;
    }

    /** The page of a stretch, and the stretch stored in it. */
    method PutStretch(ino: nat, at: nat, s: seq<Byte>, ghost im: Image, ghost im': Image) returns (ok: bool)
      requires Valid() && Abs() == im && ino < |sizes| && at % PGSIZE + |s| <= PGSIZE
      requires var (fs', b) := Bmap(im.fs, ino, at / PGSIZE, true);
        && (b != 0 ==> b < |im.data| && |im.data[b]| == PGSIZE) && im' == RoundImage(im, at, s, fs', b)
        && |fs'.inodes| == |im.fs.inodes|
        && ImageOk(im', BmapOwner(im.fs, files.owner, ino, at / PGSIZE, true), files.pool)
      modifies this, files
      ensures Valid() && sizes == old(sizes) && Abs() == im'
      ensures ok <==> Bmap(im.fs, ino, at / PGSIZE, true).1 != 0
    {
      var b := files.Bmap(ino, at / PGSIZE, true);
      if b == 0 { return false; }
      data := data[b := Splice(data[b], at % PGSIZE, s)];
      ok := true;
    }

    /** `tmpfs_vfs_write`: all of the buffer if the free pages cover what it needs, and otherwise as much as they cover,
        whole pages of it, with the size not changed. */
    method Write(ino: nat, off: nat, buf: seq<Byte>) returns (r: int, done: nat)
      requires Valid() && ino < |sizes| && off < WORD && |buf| < 0x1_0000_0000
      modifies this, files
      ensures Valid() && |sizes| == |old(sizes)|
      ensures Refused(off, |buf|) ==> r == -1 && done == 0 && Abs() == old(Abs()) && sizes == old(sizes)
      ensures !Refused(off, |buf|) ==> Wrote(old(Abs()), Abs(), ino, off, buf, done)
      ensures !Refused(off, |buf|) ==> Stops(old(files.Abs()), ino, off, |buf|, done)
      ensures !Refused(off, |buf|) ==> r == if done == |buf| then |buf| else -1
      ensures !Refused(off, |buf|) ==> sizes == old(sizes)[ino := SizeAfter(old(sizes)[ino], off, buf, done)]
      ensures !Refused(off, |buf|) && buf == [] ==> (sizes == old(sizes) <==> off <= old(sizes)[ino])
      ensures !Refused(off, |buf|) && done < |buf| ==> Stopped(old(files.Abs()), Abs(), ino, off, buf, done)
    {
      if (off + |buf|) % WORD < off || off + |buf| > MAXFILE * PGSIZE { return -1, 0; }
      ghost var im;
      done, im := WriteAll(ino, off, buf);
      if done < |buf| { return -1, done; }
      sizes := sizes[ino := Max(sizes[ino], off + |buf|)];
      r := |buf|;
    }

    /** The loop of `tmpfs_vfs_write`. */
    method WriteAll(ino: nat, off: nat, buf: seq<Byte>) returns (done: nat, ghost im: Image)
      requires Valid() && ino < |sizes| && off + |buf| <= MAXFILE * PGSIZE
      modifies this, files
      ensures Valid() && sizes == old(sizes) && Abs() == im && Wrote(old(Abs()), im, ino, off, buf, done)
      ensures Stops(old(files.Abs()), ino, off, |buf|, done)
      ensures done < |buf| ==> Stopped(old(files.Abs()), im, ino, off, buf, done)
    {
      ghost var im0 := Abs();
      im, done := im0, 0;
      while done < |buf|
        invariant done <= |buf| && Valid() && sizes == old(sizes) && Abs() == im
        invariant Wrote(im0, im, ino, off, buf, done) && PageEnd(off, buf, done)
        invariant SpaceUsed(im0.fs, im.fs, ino, off, done)
      {
        var next;
        next, im := WriteRound(ino, off, buf, done, im0, im);
        if next == done { return; }
        done := next;
      }
      SpaceMapped(im0.fs, im.fs, ino, off / PGSIZE, BlocksEnd(off, done));
    }

    /** `tmpfs_vfs_truncate`: only to size 0; the pages of the file go back and its bytes with them. */
    method Truncate(ino: nat, size: nat) returns (r: int)
      requires Valid() && ino < |sizes|
      modifies this, files
      ensures Valid() && (size != 0 ==> r == -1 && Abs() == old(Abs()) && sizes == old(sizes))
      ensures size == 0 ==> r == 0 && Emptied(old(Abs()), Abs(), ino) && sizes == old(sizes)[ino := 0]
      ensures size == 0 ==> |files.free| == |old(files.free)| + |PagesOf(old(files.owner), ino)|
    {
      if size != 0 { return -1; }
      ghost var im, owner := Abs(), files.owner;
      files.FreeBlocks(ino);
      data := Cleared(data, files.free);
      TruncBytes(im, owner, Abs(), files.owner, files.pool, ino);
      sizes := sizes[ino := 0];
      r := 0;
    }

    /** One round of a read: the bytes up to the end of the page; none when there is no page. */
    method ReadRound(ino: nat, at: nat, total: nat) returns (chunk: seq<Byte>)
      requires Valid() && ino < |sizes| && at < total <= MAXFILE * PGSIZE
      modifies files
      ensures Valid() && Abs() == old(Abs())
      ensures at + |chunk| <= total && forall k | 0 <= k < |chunk| :: ByteOf(Abs(), ino, at + k) == F.Some(chunk[k])
      ensures chunk == [] ==> ByteOf(Abs(), ino, at) == F.None
    {
      var bn, i := at / PGSIZE, at % PGSIZE;
      ghost var im := Abs();
      LastIs(im.fs, ino, bn);
      var b := files.Bmap(ino, bn, false);
      if b == 0 { return []; }
      PageIs(im, files.owner, files.pool, ino, bn);
      var len := Stretch(at, total - at);
      chunk := data[b][i..i + len];
      forall k | 0 <= k < len ensures ByteOf(im, ino, at + k) == F.Some(chunk[k]) {
        assert (at + k) / PGSIZE == bn && (at + k) % PGSIZE == i + k;
      }
    }

    /** `tmpfs_vfs_read`: nothing changes, and the bytes are those of the file up to its end or to a page that was
        never made. */
    method Read(ino: nat, off: nat, n: nat) returns (r: int, out: seq<Byte>)
      requires Valid() && ino < |sizes| && off < WORD && n < 0x1_0000_0000
      modifies files
      ensures Valid() && Abs() == old(Abs())
      ensures Refused(off, n) ==> r == -1 && out == []
      ensures !Refused(off, n) ==> r == |out| && IsRead(Abs(), ino, sizes[ino], off, n, out)
    {
      out := [];
      if (off + n) % WORD < off || off + n > MAXFILE * PGSIZE { return -1, []; }
      if off >= sizes[ino] { return 0, []; }
      var total := if off + n > sizes[ino] then sizes[ino] else off + n;
      var at := off;
      while at < total
        invariant off <= at <= total && Valid() && Abs() == old(Abs()) && at == off + |out|
        invariant forall k | 0 <= k < |out| :: ByteOf(Abs(), ino, off + k) == F.Some(out[k])
      {
        var chunk := ReadRound(ino, at, total);
        if chunk == [] { break; }
        out := out + chunk;
        at := at + |chunk|;
      }
      r := |out|;
    }
  }

  /** Without a page `tmpfs_bmap` has used up the free pages. */
  lemma MapEmpties(fs: Fs, owner: Owner, pool: set<nat>, ino: nat, bn: nat)
    requires Inv(fs, owner, pool) && ino < |fs.inodes| && bn < MAXFILE && Bmap(fs, ino, bn, true).1 == 0
    ensures Bmap(fs, ino, bn, true).0.free == []
  {
    PathChain(fs, ino, bn);
    FillEmpties(fs, Path(ino, bn));
  }

  lemma {:induction false} FillEmpties(fs: Fs, path: seq<Pos>)
    requires path != [] && Fill(fs, path).1 == 0 && forall x | 0 <= x < |fs.free| :: fs.free[x] != 0
    ensures Fill(fs, path).0.free == []
    decreases |path|
  {
    var (fs1, b) := Ensure(fs, path[0]);
    if b != 0 { FillEmpties(fs1, path[1..]); }
  }

  // ----- reads and writes together -----

  /** A write that went through is read back. */
  lemma ReadBack(im: Image, im': Image, ino: nat, off: nat, buf: seq<Byte>, size: nat, out: seq<Byte>)
    requires Wrote(im, im', ino, off, buf, |buf|) && off + |buf| <= size && IsRead(im', ino, size, off, |buf|, out)
    ensures out == buf
  {
    forall k | 0 <= k < |buf| ensures out[k] == buf[k] { assert ByteOf(im', ino, off + k) == F.Some(buf[k]); }
  }

  /** A write, whether it went through or not, is not seen in any other file. */
  lemma OtherFiles(im: Image, im': Image, ino: nat, off: nat, buf: seq<Byte>, done: nat, i: nat, size: nat, at: nat,
      n: nat, out: seq<Byte>)
    requires Wrote(im, im', ino, off, buf, done) && i != ino
    ensures IsRead(im', i, size, at, n, out) <==> IsRead(im, i, size, at, n, out)
  {
    assert forall x: nat :: ByteOf(im', i, x) == ByteOf(im, i, x);
  }

  /** A read is full exactly if every page of the stretch has been made. */
  lemma FullRead(im: Image, ino: nat, size: nat, off: nat, n: nat, out: seq<Byte>)
    requires IsRead(im, ino, size, off, n, out)
    ensures off + |out| == End(size, off, n) <==>
      forall x: nat | off <= x < End(size, off, n) :: ByteOf(im, ino, x).Some?
  {
    if off + |out| == End(size, off, n) {
      forall x: nat | off <= x < End(size, off, n) ensures ByteOf(im, ino, x).Some? {
        assert ByteOf(im, ino, off + (x - off)) == F.Some(out[x - off]);
      }
    }
  }

  /** No read in a file of `size` bytes stops short. */
  ghost predicate Solid(im: Image, ino: nat, size: nat) {
    forall x: nat {:trigger ByteOf(im, ino, x)} | x < size :: ByteOf(im, ino, x).Some?
  }

  /** The write starts no later than in the page after the last one; an empty write, no later than at its end. */
  predicate Reaches(size: nat, off: nat, n: nat) {
    if n == 0 then off <= (size + PGSIZE - 1) / PGSIZE * PGSIZE else off / PGSIZE <= (size + PGSIZE - 1) / PGSIZE
  }

  /** Every page up to the one the size ends in is there as a whole. */
  lemma SolidPages(im: Image, owner: Owner, pool: set<nat>, ino: nat, size: nat, x: nat)
    requires ImageOk(im, owner, pool) && Solid(im, ino, size) && x / PGSIZE < (size + PGSIZE - 1) / PGSIZE
    ensures ByteOf(im, ino, x).Some?
  {
    var y := x / PGSIZE * PGSIZE;
    assert y < size && y / PGSIZE == x / PGSIZE;
    assert ByteOf(im, ino, y).Some?;
    PageIs(im, owner, pool, ino, x / PGSIZE);
  }

  /** Writes within reach, failed ones included, keep a file without holes. */
  lemma SolidKept(im: Image, owner: Owner, pool: set<nat>, im': Image, ino: nat, size: nat, off: nat, buf: seq<Byte>,
      done: nat)
    requires ImageOk(im, owner, pool) && Wrote(im, im', ino, off, buf, done) && Solid(im, ino, size)
    requires Reaches(size, off, |buf|)
    ensures Solid(im', ino, SizeAfter(size, off, buf, done))
  {
    forall x: nat | x < SizeAfter(size, off, buf, done) ensures ByteOf(im', ino, x).Some? {
      assert ByteOf(im', ino, x) == After(im, ino, off, buf, done, ino, x);
      if x < size {
        assert ByteOf(im, ino, x).Some?;
      } else if x < off {
        ReachedGap(size, off, |buf|, x);
        if x / PGSIZE < (size + PGSIZE - 1) / PGSIZE { SolidPages(im, owner, pool, ino, size, x); }
      }
    }
  }

  lemma ReachedGap(size: nat, off: nat, n: nat, x: nat)
    requires Reaches(size, off, n) && size <= x < off
    ensures x / PGSIZE < (size + PGSIZE - 1) / PGSIZE || (n > 0 && x / PGSIZE == off / PGSIZE)
  {
    if n == 0 {
      assert x < (size + PGSIZE - 1) / PGSIZE * PGSIZE;
    } else {
      assert x / PGSIZE <= off / PGSIZE;
    }
  }

  /** A file with no page past its end: a write that goes through keeps it without holes exactly if it is within
      reach. */
  lemma SolidExact(im: Image, owner: Owner, pool: set<nat>, im': Image, ino: nat, size: nat, off: nat, buf: seq<Byte>)
    requires ImageOk(im, owner, pool) && Wrote(im, im', ino, off, buf, |buf|) && Solid(im, ino, size)
    requires forall x: nat | (size + PGSIZE - 1) / PGSIZE <= x / PGSIZE :: ByteOf(im, ino, x) == F.None
    ensures Solid(im', ino, Max(size, off + |buf|)) <==> Reaches(size, off, |buf|)
  {
    if Reaches(size, off, |buf|) {
      SolidKept(im, owner, pool, im', ino, size, off, buf, |buf|);
    } else {
      var x := (size + PGSIZE - 1) / PGSIZE * PGSIZE;
      GapIs(size, off, |buf|, x);
      assert ByteOf(im, ino, x) == F.None;
      assert ByteOf(im', ino, x) == After(im, ino, off, buf, |buf|, ino, x);
    }
  }

  /** What a reader of a file of `size` bytes sees is what it was before `done` bytes of `buf` were written at `off`. */
  ghost predicate Unseen(im: Image, ino: nat, size: nat, off: nat, buf: seq<Byte>, done: nat)
    requires done <= |buf|
  {
    forall x: nat {:trigger ByteOf(im, ino, x)} | x < size ::
      After(im, ino, off, buf, done, ino, x) == ByteOf(im, ino, x)
  }

  /** A byte whose page exists can be written without memory. */
  lemma PageCovers(im: Image, owner: Owner, pool: set<nat>, ino: nat, off: nat)
    requires ImageOk(im, owner, pool) && ByteOf(im, ino, off).Some?
    ensures Covers(im.fs, ino, off, 1)
  {
    var bn := off / PGSIZE;
    InRange(im.fs, ino, bn);
    LastIs(im.fs, ino, bn);
    PathChain(im.fs, ino, bn);
    PathHas(im.fs, Path(ino, bn));
    PathsStep(ino, bn, bn + 1);
    assert Need(im.fs, Paths(ino, bn, bn + 1)) == {};
  }

  /** A write the free pages do not cover, in a file without holes: nothing of it is seen, whatever the buffer, exactly
      if it starts at or behind the end. */
  lemma FailedExact(im: Image, owner: Owner, pool: set<nat>, ino: nat, size: nat, off: nat, n: nat, done: nat)
    requires ImageOk(im, owner, pool) && Solid(im, ino, size)
    requires !Covers(im.fs, ino, off, n) && Stops(im.fs, ino, off, n, done)
    ensures (forall buf: seq<Byte> | |buf| == n :: Unseen(im, ino, size, off, buf, done)) <==> off >= size
  {
    if off < size {
      assert ByteOf(im, ino, off).Some?;
      PageCovers(im, owner, pool, ino, off);
      var v: Byte := if ByteOf(im, ino, off) == F.Some(0) then 1 else 0;
      var buf: seq<Byte> := seq<Byte>(n, _ => v);
      assert After(im, ino, off, buf, done, ino, off) == F.Some(v) != ByteOf(im, ino, off);
      assert !Unseen(im, ino, size, off, buf, done);
    }
  }

  lemma GapIs(size: nat, off: nat, n: nat, x: nat)
    requires !Reaches(size, off, n) && x == (size + PGSIZE - 1) / PGSIZE * PGSIZE
    ensures size <= x < off && x / PGSIZE == (size + PGSIZE - 1) / PGSIZE && !Touched(off, n, x)
  {
  }
}
