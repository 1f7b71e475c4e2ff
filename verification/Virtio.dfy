/** The virtio-blk split ring: descriptor free list, available and used rings, and the driver's
    request records, against a device that takes and completes requests in any order. */
module Virtio {
  import opened Blocks
  import opened Counting

  const END: nat := 255              // terminator of descriptor chains

  /** What a descriptor points at. */
  datatype Addr = NoAddr | ReqAddr(i: nat) | DataAddr(buf: nat) | StatusAddr(i: nat)

  datatype Desc = Desc(addr: Addr, len: nat, write: bool, more: bool, next: nat)

  /** Request header: direction and first sector. */
  datatype Header = Header(out: bool, sector: nat)

  /** Memory shared with the device, the driver's records, the buffers and the disk.  `info[i]` is the
      buffer waiting for the chain headed by `i`, or -1. */
  datatype Ring = Ring(
    desc: seq<Desc>, freeHead: nat, header: seq<Header>, info: seq<int>, status: seq<nat>,
    availRing: seq<nat>, availIdx: nat, usedRing: seq<nat>, usedIdx: nat, lastUsed: nat,
    done: seq<bool>, mem: seq<Block>,
    seenIdx: nat, taken: set<nat>, disk: map<nat, Block>)

  datatype Phase = Queued | Taken | Used | Done

  /** An outstanding request: its buffer, direction, block, and the other two descriptors. */
  datatype Request = Request(serial: nat, buf: nat, out: bool, blk: nat, d1: nat, d2: nat, phase: Phase)

  /** One executed transfer. */
  datatype Transfer = Transfer(buf: nat, out: bool, blk: nat, data: Block)

  /** The history of a run: the free list in order, the requests by chain head, the unread parts of
      the two rings, and the transfers the device has executed. */
  datatype Book = Book(free: seq<nat>, reqs: map<nat, Request>, seen: nat, availQ: seq<nat>, last: nat, usedQ: seq<nat>,
      log: map<nat, Transfer>, serial: nat)

  datatype Sys = Sys(ring: Ring, book: Book)

  // ----- descriptor free list -----

  ghost predicate Linked(desc: seq<Desc>, head: nat, s: seq<nat>)
    decreases |s|
  {
    if s == [] then head == END
    else head == s[0] && head < |desc| && Linked(desc, desc[head].next, s[1..])
  }

  /** Changing descriptors outside a list leaves it linked. */
  lemma {:induction false} LinkedFrame(desc: seq<Desc>, desc': seq<Desc>, head: nat, s: seq<nat>)
    requires Linked(desc, head, s) && |desc'| == |desc| && forall d | d in s :: d < |desc| ==> desc'[d] == desc[d]
    ensures Linked(desc', head, s)
    decreases |s|
  {
    if s != [] {
      assert s[0] in s && forall d | d in s[1..] :: d in s;
      LinkedFrame(desc, desc', desc[head].next, s[1..]);
    }
  }

  function Upd<T>(s: seq<T>, i: nat, v: T): seq<T> {
    if i < |s| then s[i := v] else s
  }

  /** `alloc_desc`: the head of the free list, or -1. */
  function AllocDesc(r: Ring): (Ring, int) {
    if r.freeHead == END || r.freeHead >= |r.desc| then (r, -1 as int)
    else (r.(freeHead := r.desc[r.freeHead].next), r.freeHead as int)
  }

  /** `insert_free_desc_list`: clear a descriptor and push it. */
  function Insert(r: Ring, idx: nat): Ring {
    r.(desc := Upd(r.desc, idx, Desc(NoAddr, 0, false, false, r.freeHead)), freeHead := idx)
  }

  function InsertAll(r: Ring, s: seq<nat>): Ring
    decreases |s|
  {
    if s == [] then r else InsertAll(Insert(r, s[0]), s[1..])
  }

  datatype Three = Some(a: nat, b: nat, c: nat) | None

  /** `alloc3_desc`: three descriptors, or none with everything returned. */
  function Alloc3(r: Ring): (Ring, Three) {
    var (r1, a) := AllocDesc(r);
    if a < 0 then (r1, None) else
    var (r2, b) := AllocDesc(r1);
    if b < 0 then (Insert(r2, a), None) else
    var (r3, c) := AllocDesc(r2);
    if c < 0 then (Insert(Insert(r3, a), b), None) else (r3, Some(a, b, c))
  }

  // ----- the driver and the device -----

  /** The part of `virtio_disk_rw` that fills the chain and publishes it. */
  function Publish(r: Ring, buf: nat, out: bool, blk: nat, a: nat, b: nat, c: nat): Ring {
    var header := Upd(r.header, a, Header(out, blk * 8));
    var d0 := Upd(r.desc, a, Desc(ReqAddr(a), 16, false, true, b));
    var d1 := Upd(d0, b, Desc(DataAddr(buf), 4096, !out, true, c));
    var d2 := Upd(d1, c, Desc(StatusAddr(a), 1, true, false, END));
    r.(header := header, desc := d2, done := Upd(r.done, buf, false), info := Upd(r.info, a, buf),
       availRing := Upd(r.availRing, r.availIdx % 64, a), availIdx := (r.availIdx + 1) % 65536)
  }

  /** One attempt of `virtio_disk_rw` to submit: with fewer than three free descriptors it sleeps. */
  function Submit(r: Ring, buf: nat, out: bool, blk: nat): Ring {
    var (r1, got) := Alloc3(r);
    match got
    case None => r1
    case Some(a, b, c) => Publish(r1, buf, out, blk, a, b, c)
  }

  /** The device reads the next available slot. */
  function Take(r: Ring): Ring {
    if r.seenIdx % 64 < |r.availRing|
    then r.(taken := r.taken + {r.availRing[r.seenIdx % 64]}, seenIdx := (r.seenIdx + 1) % 65536) else r
  }

  function DescAt(r: Ring, i: nat): Desc {
    if i < |r.desc| then r.desc[i] else Desc(NoAddr, 0, false, false, END)
  }

  /** What the device reads from a chain: direction, block and buffer. */
  function Decode(r: Ring, h: nat): Transfer {
    var d0 := DescAt(r, h);
    var d1 := DescAt(r, d0.next);
    var hdr := if d0.addr.ReqAddr? && d0.addr.i < |r.header| then r.header[d0.addr.i] else Header(false, 0);
    var buf := if d1.addr.DataAddr? then d1.addr.buf else |r.mem|;
    var blk := hdr.sector / 8;
    var data :=
      if hdr.out then (if buf < |r.mem| then r.mem[buf] else ZeroBlock())
      else DiskAt(r.disk, blk);
    Transfer(buf, hdr.out, blk, data)
  }

  /** The status byte the device writes through the last descriptor of a chain. */
  function StatusSlot(r: Ring, h: nat): nat {
    var d2 := DescAt(r, DescAt(r, DescAt(r, h).next).next);
    if d2.addr.StatusAddr? then d2.addr.i else |r.status|
  }

  /** The device executes a request it holds and reports it. */
  function Complete(r: Ring, h: nat): Ring {
    var t := Decode(r, h);
    r.(disk := if t.out then r.disk[t.blk := t.data] else r.disk,
       mem := if t.out then r.mem else Upd(r.mem, t.buf, t.data),
       status := Upd(r.status, StatusSlot(r, h), 0),
       usedRing := Upd(r.usedRing, r.usedIdx % 64, h), usedIdx := (r.usedIdx + 1) % 65536,
       taken := r.taken - {h})
  }

  /** The interrupt handler's panic for an id that names no waiting request. */
  predicate BadUsed(r: Ring) {
    var slot := r.lastUsed % 64;
    || slot >= |r.usedRing| || r.usedRing[slot] >= |r.info| || r.info[r.usedRing[slot]] < 0
    || r.info[r.usedRing[slot]] >= |r.done|
  }

  /** One round of the interrupt handler's loop. */
  function Irq(r: Ring): Ring {
    if BadUsed(r) then r
    else r.(done := r.done[r.info[r.usedRing[r.lastUsed % 64]] := true], lastUsed := (r.lastUsed + 1) % 65536)
  }

  /** The end of `virtio_disk_rw`: forget the buffer and free the chain. */
  function Finish(r: Ring, h: nat): Ring {
    var b := DescAt(r, h).next;
    InsertAll(r.(info := Upd(r.info, h, -1)), [h, b, DescAt(r, b).next])
  }

  // ----- the invariant -----

  /** The three descriptors of an outstanding request hold exactly that request. */
  ghost predicate ReqOk(r: Ring, h: nat, q: Request)
    requires Shape(r)
  {
    && h < 64 && q.d1 < 64 && q.d2 < 64 && q.buf < |r.mem| && h != q.d1 && h != q.d2 && q.d1 != q.d2
    && r.desc[h] == Desc(ReqAddr(h), 16, false, true, q.d1)
    && r.desc[q.d1] == Desc(DataAddr(q.buf), 4096, !q.out, true, q.d2)
    && r.desc[q.d2] == Desc(StatusAddr(h), 1, true, false, END)
    && r.header[h] == Header(q.out, q.blk * 8) && r.info[h] == q.buf
    && (r.done[q.buf] <==> q.phase == Done)
  }

  ghost predicate InChain(d: nat, h: nat, q: Request) {
    d == h || d == q.d1 || d == q.d2
  }

  /** Descriptor `d` is free, or lies in exactly the chain of `h`. */
  ghost predicate DescOk(b: Book, d: nat) {
    && (d in b.free ==> forall h | h in b.reqs :: !InChain(d, h, b.reqs[h]))
    && (d !in b.free ==> exists h :: h in b.reqs && InChain(d, h, b.reqs[h]))
  }

  ghost predicate Apart(b: Book, h: nat, h': nat) {
    h in b.reqs && h' in b.reqs && h != h' ==>
      && b.reqs[h].buf != b.reqs[h'].buf && b.reqs[h].serial != b.reqs[h'].serial
      && (forall d: nat | InChain(d, h, b.reqs[h]) :: !InChain(d, h', b.reqs[h']))
  }

  /** A request's transfer is in the log exactly when the device has executed it, and then its status is 0. */
  ghost predicate LogOk(s: Sys, h: nat) {
    h in s.book.reqs ==>
      var q := s.book.reqs[h];
      && q.serial < s.book.serial
      && (q.serial in s.book.log <==> q.phase == Used || q.phase == Done)
      && (q.serial in s.book.log ==> h < |s.ring.status| && s.ring.status[h] == 0)
      && (q.serial in s.book.log ==>
            var t := s.book.log[q.serial];
            && t.buf == q.buf && t.out == q.out && t.blk == q.blk
            && (!q.out ==> q.buf < |s.ring.mem| && s.ring.mem[q.buf] == t.data))
  }

  /** Where a request stands decides which ring shows it. */
  ghost predicate PhaseOk(s: Sys, h: nat) {
    && (h in s.book.availQ <==> h in s.book.reqs && s.book.reqs[h].phase == Queued)
    && (h in s.ring.taken <==> h in s.book.reqs && s.book.reqs[h].phase == Taken)
    && (h in s.book.usedQ <==> h in s.book.reqs && s.book.reqs[h].phase == Used)
  }

  ghost predicate Shape(r: Ring) {
    && |r.desc| == |r.header| == |r.info| == |r.status| == |r.availRing| == |r.usedRing| == 64
    && |r.done| == |r.mem|
  }

  /** The ring slots from absolute position `base` on hold `q`. */
  ghost predicate Shows(ring: seq<nat>, base: nat, q: seq<nat>)
    requires |ring| == 64
  {
    forall k: nat {:trigger q[k]} | k < |q| :: ring[(base + k) % 64] == q[k]
  }

  /** The rings show exactly the unread entries, whatever the 16-bit indices have wrapped to. */
  ghost predicate RingsOk(s: Sys)
    requires Shape(s.ring)
  {
    && s.ring.seenIdx == s.book.seen % 65536 && s.ring.availIdx == (s.book.seen + |s.book.availQ|) % 65536
    && s.ring.lastUsed == s.book.last % 65536 && s.ring.usedIdx == (s.book.last + |s.book.usedQ|) % 65536
    && Shows(s.ring.availRing, s.book.seen, s.book.availQ) && Shows(s.ring.usedRing, s.book.last, s.book.usedQ)
  }

  /** The free list, in order. */
  ghost predicate FreeList(r: Ring, free: seq<nat>) {
    |r.desc| == 64 && Linked(r.desc, r.freeHead, free) && Distinct(free) && forall d | d in free :: d < 64
  }

  ghost predicate FreeOk(s: Sys) {
    && FreeList(s.ring, s.book.free)
    && |s.book.free| + 3 * |s.book.reqs| == 64
  }

  ghost predicate Inv(s: Sys) {
    && Shape(s.ring) && FreeOk(s) && RingsOk(s) && Distinct(s.book.availQ) && Distinct(s.book.usedQ)
    && (forall d: nat {:trigger DescOk(s.book, d)} | d < 64 :: DescOk(s.book, d))
    && (forall h: nat, h': nat {:trigger Apart(s.book, h, h')} :: Apart(s.book, h, h'))
    && (forall h: nat {:trigger ReqOk(s.ring, h, s.book.reqs[h])} | h in s.book.reqs ::
          ReqOk(s.ring, h, s.book.reqs[h]))
    && (forall h: nat {:trigger LogOk(s, h)} :: LogOk(s, h))
    && (forall h: nat {:trigger PhaseOk(s, h)} :: PhaseOk(s, h))
    && (forall d: nat {:trigger s.ring.info[d]} | d < 64 :: s.ring.info[d] == -1 <==> d !in s.book.reqs)
    && (forall x | x in s.book.log :: x < s.book.serial)
  }

  /** Filling the next slot of a ring that is not full. */
  lemma ShowsPush(ring: seq<nat>, base: nat, q: seq<nat>, h: nat)
    requires |ring| == 64 && Shows(ring, base, q) && |q| < 64
    ensures Shows(ring[(base + |q|) % 64 := h], base, q + [h])
  {
    var ring' := ring[(base + |q|) % 64 := h];
    forall k: nat | k < |q + [h]| ensures ring'[(base + k) % 64] == (q + [h])[k] {
      if k < |q| { SlotsApart(base, k, |q|); assert ring[(base + k) % 64] == q[k]; }
    }
  }

  lemma ShowsPop(ring: seq<nat>, base: nat, q: seq<nat>)
    requires |ring| == 64 && Shows(ring, base, q) && q != []
    ensures ring[base % 64] == q[0] && Shows(ring, base + 1, q[1..])
  {
    assert ring[(base + 0) % 64] == q[0];
    forall k: nat | k < |q[1..]|
      ensures ring[(base + 1 + k) % 64] == q[1..][k]
    {
      assert ring[(base + (k + 1)) % 64] == q[k + 1];
    }
  }

  // ----- counting -----

  /** At most 21 requests are outstanding, so neither ring ever holds more than 21 unread entries. */
  lemma AtMost21(s: Sys)
    requires Inv(s)
    ensures |s.book.reqs| <= 21 && |s.book.availQ| <= 21 && |s.book.usedQ| <= 21
  {
    forall h | h in s.book.availQ ensures h in s.book.reqs.Keys { assert PhaseOk(s, h); }
    forall h | h in s.book.usedQ ensures h in s.book.reqs.Keys { assert PhaseOk(s, h); }
    DistinctCard(s.book.availQ, s.book.reqs.Keys);
    DistinctCard(s.book.usedQ, s.book.reqs.Keys);
    assert |s.book.reqs.Keys| == |s.book.reqs|;
  }

  lemma WrapSlot(n: nat)
    ensures (n % 65536) % 64 == n % 64
  {
  }

  lemma NextIndex(n: nat)
    ensures (n % 65536 + 1) % 65536 == (n + 1) % 65536
  {
  }

  lemma SlotsApart(base: nat, k: nat, n: nat)
    requires k < n < 64
    ensures (base + k) % 64 != (base + n) % 64
  {
  }

  /** The slot the driver fills next, and the slot the device fills next, hold no unread entry. */
  lemma NoOverwrite(s: Sys, k: nat)
    requires Inv(s)
    ensures k < |s.book.availQ| ==> (s.book.seen + k) % 64 != s.ring.availIdx % 64
    ensures k < |s.book.usedQ| ==> (s.book.last + k) % 64 != s.ring.usedIdx % 64
  {
    AtMost21(s);
    WrapSlot(s.book.seen + |s.book.availQ|);
    WrapSlot(s.book.last + |s.book.usedQ|);
    if k < |s.book.availQ| { SlotsApart(s.book.seen, k, |s.book.availQ|); }
    if k < |s.book.usedQ| { SlotsApart(s.book.last, k, |s.book.usedQ|); }
  }

  /** The handler's 16-bit comparison is exact: it stops exactly when nothing is unread.  The same
      holds for the device's view of the available ring. */
  lemma IndexExact(s: Sys)
    requires Inv(s)
    ensures s.ring.lastUsed != s.ring.usedIdx <==> s.book.usedQ != []
    ensures s.ring.seenIdx != s.ring.availIdx <==> s.book.availQ != []
  {
    AtMost21(s);
  }

  /** Whenever the handler finds an entry, it names a waiting request: the panic is unreachable. */
  lemma NoBadUsed(s: Sys)
    requires Inv(s) && s.ring.lastUsed != s.ring.usedIdx
    ensures !BadUsed(s.ring) && s.book.usedQ != [] && s.ring.usedRing[s.ring.lastUsed % 64] == s.book.usedQ[0]
  {
    IndexExact(s);
    WrapSlot(s.book.last);
    ShowsPop(s.ring.usedRing, s.book.last, s.book.usedQ);
    var h := s.book.usedQ[0];
    assert PhaseOk(s, h);
    assert ReqOk(s.ring, h, s.book.reqs[h]);
  }

  // ----- the free list -----

  /** Allocation takes descriptors off the front of the list; with fewer than three it puts them back
      (in reverse order) and reports failure. */
  function FreeAfter(free: seq<nat>): seq<nat> {
    if |free| >= 3 then free[3..] else if |free| == 2 then [free[1], free[0]] else free
  }

  lemma Alloc3Is(r: Ring, free: seq<nat>)
    requires FreeList(r, free)
    ensures var (r', got) := Alloc3(r);
      && (|free| >= 3 <==> got.Some?)
      && (got.Some? ==> got == Some(free[0], free[1], free[2]) && r' == r.(freeHead := r'.freeHead))
      && r' == r.(freeHead := r'.freeHead, desc := r'.desc)
      && FreeList(r', FreeAfter(free)) && (got.None? ==> multiset(FreeAfter(free)) == multiset(free))
      && (forall d: nat | d < 64 && d !in free :: r'.desc[d] == r.desc[d])
  {
    assert forall i | 0 <= i < |free| :: free[i] in free;
    if free != [] {
      assert Linked(r.desc, r.desc[free[0]].next, free[1..]);
      if |free| > 1 {
        assert free[1..][0] == free[1] && free[1..][1..] == free[2..];
        assert Linked(r.desc, r.desc[free[1]].next, free[2..]);
        if |free| > 2 {
          assert free[2..][0] == free[2] && free[2..][1..] == free[3..];
          assert forall d | d in free[3..] :: d in free;
        } else {
          AllocTwo(r, free);
        }
      } else {
        assert free[1..] == [];
        var r1 := AllocDesc(r).0;
        assert Insert(r1, free[0]).desc[free[0]].next == END;
        assert free == [free[0]];
      }
    }
  }

  lemma AllocTwo(r: Ring, free: seq<nat>)
    requires FreeList(r, free) && |free| == 2
    ensures var (r', got) := Alloc3(r);
      && got == None && r' == r.(freeHead := r'.freeHead, desc := r'.desc) && |r'.desc| == 64
      && Linked(r'.desc, r'.freeHead, [free[1], free[0]]) && multiset([free[1], free[0]]) == multiset(free)
      && (forall d: nat | d < 64 && d !in free :: r'.desc[d] == r.desc[d])
  {
    var a, b := free[0], free[1];
    assert free == [a, b] && a in free && b in free;
    assert Linked(r.desc, r.desc[a].next, free[1..]);
    assert free[1..][0] == b && free[1..][1..] == [];
    assert Linked(r.desc, r.desc[b].next, []);
    var r1 := r.(freeHead := b);
    var r3 := r.(freeHead := END);
    assert AllocDesc(r) == (r1, a) && AllocDesc(r1) == (r3, b) && AllocDesc(r3) == (r3, -1);
    var r4 := Insert(r3, a);
    var r5 := Insert(r4, b);
    assert Alloc3(r) == (r5, None);
    assert Linked(r5.desc, END, []);
    assert [a][1..] == [] && Linked(r5.desc, a, [a]);
    assert [b, a][1..] == [a] && Linked(r5.desc, b, [b, a]);
  }

  /** Putting back a chain pushes its descriptors one by one. */
  lemma InsertThree(r: Ring, a: nat, b: nat, c: nat, free: seq<nat>)
    requires |r.desc| == 64 && a < 64 && b < 64 && c < 64 && a != b && a != c && b != c
    requires Linked(r.desc, r.freeHead, free) && a !in free && b !in free && c !in free
    ensures var r' := InsertAll(r, [a, b, c]);
      && r' == r.(freeHead := c, desc := r'.desc) && |r'.desc| == 64 && Linked(r'.desc, c, [c, b, a] + free)
      && (forall d: nat | d < 64 && d != a && d != b && d != c :: r'.desc[d] == r.desc[d])
  {
    var r1 := Insert(r, a);
    var r2 := Insert(r1, b);
    var r3 := Insert(r2, c);
    assert [a, b, c][1..] == [b, c] && [b, c][1..] == [c] && [c][1..] == [];
    assert InsertAll(r3, []) == r3;
    assert InsertAll(r2, [c]) == r3;
    assert InsertAll(r1, [b, c]) == r3;
    assert InsertAll(r, [a, b, c]) == r3;
    LinkedFrame(r.desc, r3.desc, r.freeHead, free);
    assert ([a] + free)[1..] == free && Linked(r3.desc, a, [a] + free);
    assert ([b, a] + free)[1..] == [a] + free && Linked(r3.desc, b, [b, a] + free);
    assert ([c, b, a] + free)[1..] == [b, a] + free;
  }
}
