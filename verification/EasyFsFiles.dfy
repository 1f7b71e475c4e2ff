/** EasyFS files as flat byte sequences: what writing and reading a stretch of a file does. */
module EasyFsFiles {
  import opened EasyFs
  import opened EasyFsSpace

  /** Overwrite part of one data block. */
  function PutBytes(fs: Fs, b: nat, off: nat, bytes: seq<Byte>): Fs {
    if b < |fs.data| && off + |bytes| <= |fs.data[b]|
    then fs.(data := fs.data[b := fs.data[b][..off] + bytes + fs.data[b][off + |bytes|..]])
    else fs
  }

  /** Grow the recorded size of an inode to `end`, never shrinking it. */
  function GrowSize(fs: Fs, ino: nat, end: nat): Fs {
    if ino < |fs.inodes| && end > fs.inodes[ino].size
    then fs.(inodes := fs.inodes[ino := fs.inodes[ino].(size := end)]) else fs
  }

  ghost predicate PatchedAt(fs: Fs, fs': Fs, ino: nat, off: nat, bytes: seq<Byte>, i: nat, x: nat) {
    FileByte(fs', i, x) == if i == ino && off <= x < off + |bytes| then bytes[x - off] else FileByte(fs, i, x)
  }

  /** The bytes of file `ino` from `off` on are `bytes`; every other byte of every file is kept. */
  ghost predicate Patched(fs: Fs, fs': Fs, ino: nat, off: nat, bytes: seq<Byte>) {
    forall i: nat, x: nat {:trigger PatchedAt(fs, fs', ino, off, bytes, i, x)} | i < NINODES && x < 4299202560 ::
      PatchedAt(fs, fs', ino, off, bytes, i, x)
  }

  lemma PutBytesAt(fs: Fs, b: nat, off: nat, bytes: seq<Byte>, p: Pos)
    ensures At(PutBytes(fs, b, off, bytes), p) == At(fs, p)
  {
    assert forall t: nat, k: nat :: Ptr(PutBytes(fs, b, off, bytes), t, k) == Ptr(fs, t, k);
  }

  lemma GrowSizeAt(fs: Fs, ino: nat, end: nat, p: Pos)
    ensures At(GrowSize(fs, ino, end), p) == At(fs, p)
  {
    assert forall i: nat, k: nat :: Blk(GrowSize(fs, ino, end), i, k) == Blk(fs, i, k);
  }

  /** Changing bytes or sizes moves no block. */
  lemma SameTree(fs: Fs, fs': Fs, owner: map<nat, Pos>)
    requires Inv(fs, owner) && Shape(fs') && fs'.bitmap == fs.bitmap && forall p :: PosOk(p) ==> At(fs', p) == At(fs, p)
    ensures Inv(fs', owner)
  {
    forall b | b in owner ensures OwnerOk(fs', owner, b) { assert OwnerOk(fs, owner, b); }
    forall p | PosOk(p) ensures SlotOk(fs', owner, p) { assert SlotOk(fs, owner, p); }
  }

  lemma BlockOffset(n: nat, at: nat, off: nat, x: nat)
    requires n == at / 4096 && off == at % 4096
    ensures at <= x < at + (4096 - off) ==> x / 4096 == n && x % 4096 == off + (x - at)
    ensures x / 4096 == n && off <= x % 4096 ==> at <= x && x % 4096 - off == x - at
  {
  }

  /** Writing into the data block of one logical block changes exactly that stretch of that file. */
  lemma PutBytesPatches(fs: Fs, owner: map<nat, Pos>, ino: nat, at: nat, b: nat, bytes: seq<Byte>)
    requires Inv(fs, owner) && ino < NINODES && at + |bytes| <= 4299202560 && at % 4096 + |bytes| <= 4096
    requires at / 4096 < 1049610
    requires b != 0 && At(fs, DataPos(ino, at / 4096)) == b
    ensures var fs' := PutBytes(fs, b, at % 4096, bytes);
      Inv(fs', owner) && Patched(fs, fs', ino, at, bytes) && SameSizes(fs, fs')
  {
    var n, off := at / 4096, at % 4096;
    var fs' := PutBytes(fs, b, off, bytes);
    DataPosOk(ino, n);
    assert SlotOk(fs, owner, DataPos(ino, n));
    forall p ensures At(fs', p) == At(fs, p) { PutBytesAt(fs, b, off, bytes, p); }
    SameTree(fs, fs', owner);
    forall i: nat, x: nat | i < NINODES && x < 4299202560
      ensures PatchedAt(fs, fs', ino, at, bytes, i, x)
    {
      PatchedByte(fs, owner, ino, at, b, bytes, i, x);
    }
  }

  lemma PatchedByte(fs: Fs, owner: map<nat, Pos>, ino: nat, at: nat, b: nat, bytes: seq<Byte>, i: nat, x: nat)
    requires Inv(fs, owner) && ino < NINODES && at % 4096 + |bytes| <= 4096 && at / 4096 < 1049610
    requires b != 0 && At(fs, DataPos(ino, at / 4096)) == b && i < NINODES && x < 4299202560
    ensures PatchedAt(fs, PutBytes(fs, b, at % 4096, bytes), ino, at, bytes, i, x)
  {
    var n, off := at / 4096, at % 4096;
    var fs' := PutBytes(fs, b, off, bytes);
    var q := DataPos(i, x / 4096);
    DataPosOk(i, x / 4096);
    DataPosOk(ino, n);
    PutBytesAt(fs, b, off, bytes, q);
    assert SlotOk(fs, owner, DataPos(ino, n)) && SlotOk(fs, owner, q);
    BlockOffset(n, at, off, x);
    if At(fs, q) == b { DataPosInjective(i, x / 4096, ino, n); }
  }

  lemma GrowSizeKeeps(fs: Fs, owner: map<nat, Pos>, ino: nat, end: nat)
    requires Inv(fs, owner) && ino < NINODES
    ensures var fs' := GrowSize(fs, ino, end);
      && Inv(fs', owner) && Patched(fs, fs', ino, 0, [])
      && (forall i: nat | i < NINODES ::
            SizeOf(fs', i) == if i == ino && end > SizeOf(fs, i) then end else SizeOf(fs, i))
  {
    var fs' := GrowSize(fs, ino, end);
    forall p ensures At(fs', p) == At(fs, p) { GrowSizeAt(fs, ino, end, p); }
    SameTree(fs, fs', owner);
  }

  /** Two adjacent stretches written one after the other are one stretch. */
  lemma PatchedTrans(a: Fs, b: Fs, c: Fs, ino: nat, off: nat, s: seq<Byte>, t: seq<Byte>)
    requires Patched(a, b, ino, off, s) && Patched(b, c, ino, off + |s|, t)
    ensures Patched(a, c, ino, off, s + t)
  {
    forall i: nat, x: nat | i < NINODES && x < 4299202560
      ensures PatchedAt(a, c, ino, off, s + t, i, x)
    {
      assert PatchedAt(a, b, ino, off, s, i, x) && PatchedAt(b, c, ino, off + |s|, t, i, x);
    }
  }

  /** Writing nothing is keeping every byte. */
  lemma PatchedNothing(fs: Fs, fs': Fs, ino: nat, off: nat)
    requires forall i: nat, x: nat | i < NINODES && x < 4299202560 :: FileByte(fs', i, x) == FileByte(fs, i, x)
    ensures Patched(fs, fs', ino, off, [])
  {
    forall i: nat, x: nat | i < NINODES && x < 4299202560 ensures PatchedAt(fs, fs', ino, off, [], i, x) {}
  }

  /** The stretch of a file as a sequence. */
  function Stretch(fs: Fs, ino: nat, off: nat, len: nat): (s: seq<Byte>)
    ensures |s| == len && forall k :: 0 <= k < len ==> s[k] == FileByte(fs, ino, off + k)
  {
    seq<Byte>(len, (k: nat) => FileByte(fs, ino, off + k))
  }

  /** Reading back a stretch that was written gives exactly the bytes written, whatever was written
      elsewhere in between by operations that keep it. */
  lemma ReadBack(fs: Fs, fs': Fs, ino: nat, off: nat, bytes: seq<Byte>)
    requires ino < NINODES && off + |bytes| <= 4299202560 && Patched(fs, fs', ino, off, bytes)
    ensures Stretch(fs', ino, off, |bytes|) == bytes
  {
    forall k | 0 <= k < |bytes| ensures Stretch(fs', ino, off, |bytes|)[k] == bytes[k] {
      assert PatchedAt(fs, fs', ino, off, bytes, ino, off + k);
    }
  }

  /** One past the last logical block touched by `len` bytes at `off`. */
  function BlocksEnd(off: nat, len: nat): nat {
    if len == 0 then off / 4096 else (off + len - 1) / 4096 + 1
  }

  /** Whether the free blocks suffice for every block still missing under `len` bytes at `off`. */
  ghost predicate Fits(fs: Fs, ino: nat, off: nat, len: nat) {
    Enough(fs, Paths(ino, off / 4096, BlocksEnd(off, len)))
  }

  /** The first `tot` bytes are written, and the rest fits now exactly if everything fitted at the start. */
  ghost predicate Writing(start: Fs, fs: Fs, ino: nat, off: nat, src: seq<Byte>, tot: nat) {
    && tot <= |src| && Patched(start, fs, ino, off, src[..tot]) && SameSizes(start, fs)
    && (Fits(fs, ino, off + tot, |src| - tot) <==> Fits(start, ino, off, |src|))
  }

  /** Nothing is needed for an empty stretch. */
  lemma FitsNothing(fs: Fs, ino: nat, off: nat)
    ensures Fits(fs, ino, off, 0)
  {
    assert Paths(ino, off / 4096, off / 4096) == {};
    assert Need(fs, {}) == {};
  }

  lemma ChunkEnd(at: nat, len: nat, m: nat)
    requires len > 0 && m == if len < 4096 - at % 4096 then len else 4096 - at % 4096
    ensures 0 < m <= len && at % 4096 + m <= 4096
    ensures BlocksEnd(at, len) > at / 4096
    ensures m < len ==> (at + m) / 4096 == at / 4096 + 1 && BlocksEnd(at + m, len - m) == BlocksEnd(at, len)
    ensures m == len ==> BlocksEnd(at, len) == at / 4096 + 1
  {
  }

  lemma PatchedSame(a: Fs, b: Fs, c: Fs, ino: nat, off: nat, bytes: seq<Byte>)
    requires Patched(a, b, ino, off, bytes) && SameSizes(a, b) && SameFiles(b, c)
    ensures Patched(a, c, ino, off, bytes) && SameSizes(a, c)
  {
    forall i: nat, x: nat | i < NINODES && x < 4299202560
      ensures PatchedAt(a, c, ino, off, bytes, i, x)
    {
      assert PatchedAt(a, b, ino, off, bytes, i, x) && SameByte(b, c, i, x);
    }
    forall i: nat | i < NINODES ensures SizeOf(c, i) == SizeOf(a, i) { assert SizeOf(b, i) == SizeOf(a, i); }
  }

  /** The size of the next chunk: up to the end of the block or of the request. */
  function Chunk(at: nat, left: nat): nat {
    if left < 4096 - at % 4096 then left else 4096 - at % 4096
  }

  /** Mapping block `n` settles what it needs: the rest of a range then fits exactly if it all did. */
  ghost predicate Settles(fs: Fs, fs': Fs, ino: nat, n: nat, hi: nat, b: nat) {
    && (b != 0 ==> (Enough(fs', Paths(ino, n + 1, hi)) <==> Enough(fs, Paths(ino, n, hi))))
    && (b == 0 ==> !Enough(fs, Paths(ino, n, hi)))
  }

  /** What one call of `bmap` achieves. */
  ghost predicate Mapping(fs: Fs, fs': Fs, owner': map<nat, Pos>, ino: nat, n: nat, b: nat) {
    && ino < NINODES && Inv(fs', owner') && SameFiles(fs, fs')
    && (b != 0 ==> At(fs', DataPos(ino, n)) == b)
    && (forall hi: nat {:trigger Settles(fs, fs', ino, n, hi, b)} | n < hi <= 1049610 ::
          Settles(fs, fs', ino, n, hi, b))
  }

  lemma BmapMapping(fs: Fs, owner: map<nat, Pos>, owner': map<nat, Pos>, ino: nat, n: nat)
    requires Inv(fs, owner) && ino < NINODES && Inv(Bmap(fs, ino, n).0, owner')
    ensures Mapping(fs, Bmap(fs, ino, n).0, owner', ino, n, Bmap(fs, ino, n).1)
  {
    BmapKeeps(fs, owner, ino, n);
    var (fs', b) := Bmap(fs, ino, n);
    forall hi: nat | n < hi <= 1049610 ensures Settles(fs, fs', ino, n, hi, b) { BmapNeed(fs, owner, ino, n, hi); }
  }

  lemma MappingIs(fs: Fs, fs': Fs, owner': map<nat, Pos>, ino: nat, at: nat, len: nat, m: nat, b: nat)
    requires Mapping(fs, fs', owner', ino, at / 4096, b) && len > 0 && at + len <= 0x1_0000_0000 && m == Chunk(at, len)
    requires m <= len
    ensures b == 0 ==> !Fits(fs, ino, at, len)
    ensures b != 0 ==> (Fits(fs', ino, at + m, len - m) <==> Fits(fs, ino, at, len))
  {
    ChunkEnd(at, len, m);
    assert Settles(fs, fs', ino, at / 4096, BlocksEnd(at, len), b);
    if m == len {
      FitsNothing(fs', ino, at + m);
      assert Paths(ino, at / 4096 + 1, at / 4096 + 1) == {};
      assert Need(fs', {}) == {};
    }
  }

  /** The block was mapped; the bytes written so far are kept. */
  lemma WriteMapped(start: Fs, fs: Fs, fs': Fs, owner': map<nat, Pos>, ino: nat, off: nat, src: seq<Byte>, tot: nat,
      b: nat)
    requires Mapping(fs, fs', owner', ino, (off + tot) / 4096, b) && Writing(start, fs, ino, off, src, tot)
    requires tot < |src| && off + |src| < 0x1_0000_0000
    ensures Patched(start, fs', ino, off, src[..tot]) && SameSizes(start, fs')
    ensures b == 0 ==> !Fits(start, ino, off, |src|)
  {
    MappingIs(fs, fs', owner', ino, off + tot, |src| - tot, Chunk(off + tot, |src| - tot), b);
    PatchedSame(start, fs, fs', ino, off, src[..tot]);
  }

  /** Storing the chunk in the mapped block advances the write by the chunk. */
  lemma WriteStored(start: Fs, fs: Fs, owner: map<nat, Pos>, fs': Fs, ino: nat, off: nat, src: seq<Byte>, tot: nat,
      b: nat, at: nat, o: nat, m: nat, to: nat)
    requires ino < NINODES && Inv(fs, owner) && tot < |src| && off + |src| < 0x1_0000_0000 && to == tot + m
    requires at == off + tot && o == at % 4096 && 0 < m <= |src| - tot && o + m <= 4096
    requires fs' == PutBytes(fs, b, o, src[tot..to])
    requires Patched(start, fs, ino, off, src[..tot]) && SameSizes(start, fs)
    requires b != 0 && At(fs, DataPos(ino, at / 4096)) == b
    requires Fits(fs, ino, at + m, |src| - tot - m) <==> Fits(start, ino, off, |src|)
    ensures Inv(fs', owner) && Writing(start, fs', ino, off, src, to)
  {
    PutBytesPatches(fs, owner, ino, at, b, src[tot..to]);
    SameFit(fs, owner, fs', b, o, src[tot..to], ino, at + m, |src| - tot - m);
    WrittenOn(start, fs, fs', ino, off, src, tot, m, at, at + m, |src| - tot - m, to);
  }

  /** A chunk more, with `left` bytes from `next` on to go. */
  lemma WrittenOn(start: Fs, fs: Fs, fs': Fs, ino: nat, off: nat, src: seq<Byte>, tot: nat, m: nat, at: nat, next: nat,
      left: nat, to: nat)
    requires at == off + tot && next == at + m && tot + m + left == |src| && to == tot + m
    requires Patched(start, fs, ino, off, src[..tot]) && SameSizes(start, fs)
    requires Patched(fs, fs', ino, at, src[tot..to]) && SameSizes(fs, fs')
    requires Fits(fs', ino, next, left) <==> Fits(start, ino, off, |src|)
    ensures Writing(start, fs', ino, off, src, to)
  {
    WriteOn(start, fs, fs', ino, off, src, tot, m);
    assert off + to == next && |src| - to == left;
  }

  lemma WriteOn(start: Fs, fs: Fs, fs': Fs, ino: nat, off: nat, src: seq<Byte>, tot: nat, m: nat)
    requires tot + m <= |src| && Patched(start, fs, ino, off, src[..tot]) && SameSizes(start, fs)
    requires Patched(fs, fs', ino, off + tot, src[tot..tot + m]) && SameSizes(fs, fs')
    ensures Patched(start, fs', ino, off, src[..tot + m]) && SameSizes(start, fs')
  {
    PatchedTrans(start, fs, fs', ino, off, src[..tot], src[tot..tot + m]);
    assert src[..tot] + src[tot..tot + m] == src[..tot + m];
    forall i: nat | i < NINODES ensures SizeOf(fs', i) == SizeOf(start, i) { assert SizeOf(fs, i) == SizeOf(start, i); }
  }

  /** One round of the write loop. */
  lemma WriteRound(start: Fs, fs: Fs, fs': Fs, owner': map<nat, Pos>, ino: nat, off: nat, src: seq<Byte>, tot: nat,
      b: nat, at: nat, o: nat, m: nat, to: nat)
    requires at == off + tot && o == at % 4096 && tot < |src| && m == Chunk(at, |src| - tot) && to == tot + m
    requires off + |src| < 0x1_0000_0000 && b != 0
    requires Mapping(fs, fs', owner', ino, at / 4096, b) && Writing(start, fs, ino, off, src, tot)
    ensures 0 < m <= |src| - tot && o + m <= 4096 && b < |fs'.data| && |fs'.data[b]| == 4096
    ensures var fs2 := PutBytes(fs', b, o, src[tot..to]);
      Inv(fs2, owner') && Writing(start, fs2, ino, off, src, to)
  {
    ChunkEnd(at, |src| - tot, m);
    WriteMapped(start, fs, fs', owner', ino, off, src, tot, b);
    MappingIs(fs, fs', owner', ino, at, |src| - tot, m, b);
    WriteStored(start, fs', owner', PutBytes(fs', b, o, src[tot..to]), ino, off, src, tot, b, at, o, m, to);
    assert b < |fs'.data| && |fs'.data[b]| == 4096 by { ChunkBytes(fs', owner', ino, at, b, 0); }
  }

  /** Storing bytes takes no block. */
  lemma SameFit(fs: Fs, owner: map<nat, Pos>, fs': Fs, b: nat, off: nat, bytes: seq<Byte>, ino: nat, at: nat, len: nat)
    requires Inv(fs, owner) && ino < NINODES && at + len < 0x1_0000_0000 && fs' == PutBytes(fs, b, off, bytes)
    ensures Fits(fs', ino, at, len) <==> Fits(fs, ino, at, len)
  {
    forall p ensures At(fs', p) == At(fs, p) { PutBytesAt(fs, b, off, bytes, p); }
    var s := Paths(ino, at / 4096, BlocksEnd(at, len));
    assert Need(fs', s) == Need(fs, s);
    assert FreeSet(fs') == FreeSet(fs);
  }

  /** The first `tot` bytes of the stretch are read; no file has changed. */
  ghost predicate Reading(start: Fs, fs: Fs, ino: nat, off: nat, len: nat, dst: seq<Byte>) {
    && |dst| <= len && SameFiles(start, fs) && dst == Stretch(start, ino, off, |dst|)
    && (Fits(fs, ino, off + |dst|, len - |dst|) <==> Fits(start, ino, off, len))
  }

  /** The chunk of the mapped block holds the next bytes of the file. */
  lemma ChunkBytes(fs: Fs, owner: map<nat, Pos>, ino: nat, at: nat, b: nat, m: nat)
    requires ino < NINODES && Inv(fs, owner) && at < 0x1_0000_0000 && b != 0 && At(fs, DataPos(ino, at / 4096)) == b
    requires at % 4096 + m <= 4096
    ensures b < |fs.data| && |fs.data[b]| == 4096 && fs.data[b][at % 4096..at % 4096 + m] == Stretch(fs, ino, at, m)
  {
    DataPosOk(ino, at / 4096);
    assert SlotOk(fs, owner, DataPos(ino, at / 4096));
    var chunk := fs.data[b][at % 4096..at % 4096 + m];
    forall k | 0 <= k < m
      ensures chunk[k] == FileByte(fs, ino, at + k)
    {
      BlockOffset(at / 4096, at, at % 4096, at + k);
    }
  }

  lemma SameStretch(fs: Fs, fs': Fs, ino: nat, off: nat, len: nat)
    requires ino < NINODES && off + len <= 0x1_0000_0000 && SameFiles(fs, fs')
    ensures Stretch(fs', ino, off, len) == Stretch(fs, ino, off, len)
  {
    forall k: nat | k < len
      ensures Stretch(fs', ino, off, len)[k] == Stretch(fs, ino, off, len)[k]
    {
      assert SameByte(fs, fs', ino, off + k);
    }
  }

  lemma ReadStored(start: Fs, fs: Fs, owner: map<nat, Pos>, ino: nat, off: nat, len: nat, dst: seq<Byte>, b: nat,
      at: nat, o: nat, m: nat)
    requires ino < NINODES && Inv(fs, owner) && |dst| < len && off + len < 0x1_0000_0000
    requires at == off + |dst| && o == at % 4096 && 0 < m <= len - |dst| && o + m <= 4096
    requires SameFiles(start, fs) && dst == Stretch(start, ino, off, |dst|)
    requires b != 0 && At(fs, DataPos(ino, at / 4096)) == b
    requires Fits(fs, ino, at + m, len - |dst| - m) <==> Fits(start, ino, off, len)
    ensures b < |fs.data| && |fs.data[b]| == 4096 && Reading(start, fs, ino, off, len, dst + fs.data[b][o..o + m])
  {
    ChunkBytes(fs, owner, ino, at, b, m);
    SameStretch(start, fs, ino, at, m);
    ReadOn(start, fs, ino, off, len, dst, fs.data[b][o..o + m], at, at + m, len - |dst| - m);
  }

  /** A chunk more, with `left` bytes from `next` on to go. */
  lemma ReadOn(start: Fs, fs: Fs, ino: nat, off: nat, len: nat, dst: seq<Byte>, chunk: seq<Byte>, at: nat, next: nat,
      left: nat)
    requires SameFiles(start, fs) && dst == Stretch(start, ino, off, |dst|)
    requires at == off + |dst| && next == at + |chunk| && |dst| + |chunk| + left == len
    requires chunk == Stretch(start, ino, at, |chunk|)
    requires Fits(fs, ino, next, left) <==> Fits(start, ino, off, len)
    ensures Reading(start, fs, ino, off, len, dst + chunk)
  {
    StretchOn(start, ino, off, |dst|, |chunk|);
    var n := |dst + chunk|;
    assert off + n == next && len - n == left;
  }

  lemma StretchOn(fs: Fs, ino: nat, off: nat, n: nat, m: nat)
    ensures Stretch(fs, ino, off, n) + Stretch(fs, ino, off + n, m) == Stretch(fs, ino, off, n + m)
  {
  }

  /** One round of the read loop. */
  lemma ReadRound(start: Fs, fs: Fs, fs': Fs, owner': map<nat, Pos>, ino: nat, off: nat, len: nat, dst: seq<Byte>,
      b: nat, at: nat, o: nat, m: nat)
    requires at == off + |dst| && o == at % 4096 && |dst| < len && m == Chunk(at, len - |dst|)
    requires off + len < 0x1_0000_0000
    requires Mapping(fs, fs', owner', ino, at / 4096, b) && Reading(start, fs, ino, off, len, dst)
    ensures SameFiles(start, fs') && (b == 0 ==> !Fits(start, ino, off, len))
    ensures 0 < m <= len - |dst| && o + m <= 4096
    ensures b != 0 ==> b < |fs'.data| && |fs'.data[b]| == 4096
    ensures b != 0 ==> Reading(start, fs', ino, off, len, dst + fs'.data[b][o..o + m])
  {
    ChunkEnd(at, len - |dst|, m);
    MappingIs(fs, fs', owner', ino, at, len - |dst|, m, b);
    SameFilesTrans(start, fs, fs');
    if b != 0 { ReadStored(start, fs', owner', ino, off, len, dst, b, at, o, m); }
  }
}
