/** Every interleaving of requests, device activity and interrupts keeps the ring invariant. */
module VirtioProtocol {
  import opened Blocks
  import opened Counting
  import opened Virtio

  // ----- steps on the ring together with its history -----

  ghost predicate Busy(s: Sys, buf: nat) {
    exists h :: h in s.book.reqs && s.book.reqs[h].buf == buf
  }

  ghost function SubmitStep(s: Sys, buf: nat, out: bool, blk: nat): Sys {
    var b := s.book;
    match Alloc3(s.ring).1
    case None => Sys(Submit(s.ring, buf, out, blk), b.(free := FreeAfter(b.free)))
    case Some(a, d1, d2) => Sys(Submit(s.ring, buf, out, blk),
      b.(free := FreeAfter(b.free), reqs := b.reqs[a := Request(b.serial, buf, out, blk, d1, d2, Queued)],
          availQ := b.availQ + [a], serial := b.serial + 1))
  }

  ghost function Move(b: Book, h: nat, p: Phase): map<nat, Request> {
    if h in b.reqs then b.reqs[h := b.reqs[h].(phase := p)] else b.reqs
  }

  ghost function TakeStep(s: Sys): Sys {
    if s.book.availQ == [] then s
    else Sys(Take(s.ring),
        s.book.(reqs := Move(s.book, s.book.availQ[0], Taken), availQ := s.book.availQ[1..], seen := s.book.seen + 1))
  }

  ghost function CompleteStep(s: Sys, h: nat): Sys {
    if h !in s.book.reqs then s
    else Sys(Complete(s.ring, h),
        s.book.(reqs := Move(s.book, h, Used), usedQ := s.book.usedQ + [h],
        log := s.book.log[s.book.reqs[h].serial := Decode(s.ring, h)]))
  }

  ghost function IrqStep(s: Sys): Sys {
    if s.book.usedQ == [] then s
    else Sys(Irq(s.ring), s.book.(reqs := Move(s.book, s.book.usedQ[0], Done), usedQ := s.book.usedQ[1..],
        last := s.book.last + 1))
  }

  ghost function FinishStep(s: Sys, h: nat): Sys {
    if h !in s.book.reqs then s
    else var q := s.book.reqs[h];
      Sys(Finish(s.ring, h), s.book.(reqs := s.book.reqs - {h}, free := [q.d2, q.d1, h] + s.book.free))
  }

  ghost function FillStep(s: Sys, buf: nat, data: Block): Sys {
    s.(ring := s.ring.(mem := Upd(s.ring.mem, buf, data)))
  }

  // ----- submission -----

  lemma NotHead(s: Sys, d: nat)
    requires Inv(s) && d in s.book.free
    ensures d < 64 && d !in s.book.reqs && forall h | h in s.book.reqs :: !InChain(d, h, s.book.reqs[h])
  {
    assert DescOk(s.book, d);
  }

  ghost predicate Fresh(s: Sys, a: nat, d1: nat, d2: nat) {
    && a < 64 && d1 < 64 && d2 < 64 && a != d1 && a != d2 && d1 != d2 && a !in s.book.reqs
    && forall h | h in s.book.reqs ::
         !InChain(a, h, s.book.reqs[h]) && !InChain(d1, h, s.book.reqs[h]) && !InChain(d2, h, s.book.reqs[h])
  }

  /** A published request: the first three free descriptors now hold it. */
  ghost predicate Submitted(s: Sys, s': Sys, buf: nat, out: bool, blk: nat) {
    var free := s.book.free;
    && |free| >= 3 && Fresh(s, free[0], free[1], free[2])
    && s'.ring == Publish(s.ring.(freeHead := s'.ring.freeHead), buf, out, blk, free[0], free[1], free[2])
    && s'.book == s.book.(free := free[3..],
        reqs := s.book.reqs[free[0] := Request(s.book.serial, buf, out, blk, free[1], free[2], Queued)],
                          availQ := s.book.availQ + [free[0]], serial := s.book.serial + 1)
  }

  lemma SubmitIs(s: Sys, buf: nat, out: bool, blk: nat)
    requires Inv(s) && |s.book.free| >= 3
    ensures Submitted(s, SubmitStep(s, buf, out, blk), buf, out, blk)
    ensures Linked(s.ring.desc, SubmitStep(s, buf, out, blk).ring.freeHead, s.book.free[3..])
  {
    var free := s.book.free;
    Alloc3Is(s.ring, free);
    NotHead(s, free[0]);
    NotHead(s, free[1]);
    NotHead(s, free[2]);
  }

  lemma SubmitFree(s: Sys, s': Sys, buf: nat, out: bool, blk: nat)
    requires Inv(s) && Submitted(s, s', buf, out, blk) && Linked(s.ring.desc, s'.ring.freeHead, s.book.free[3..])
    ensures Shape(s'.ring) && FreeOk(s')
  {
    var free := s.book.free;
    RestFree(free);
    LinkedFrame(s.ring.desc, s'.ring.desc, s'.ring.freeHead, free[3..]);
    NewKey(s.book.reqs, s'.book.reqs, free[0]);
  }

  lemma RestFree(free: seq<nat>)
    requires Distinct(free) && |free| >= 3
    ensures Distinct(free[3..])
    ensures forall d | d in free[3..] :: d in free && d != free[0] && d != free[1] && d != free[2]
  {
    forall d | d in free[3..] ensures d in free && d != free[0] && d != free[1] && d != free[2] {
      var k :| 0 <= k < |free[3..]| && free[3..][k] == d;
      assert free[k + 3] == d;
    }
  }

  lemma NewKey(reqs: map<nat, Request>, reqs': map<nat, Request>, h: nat)
    requires h !in reqs && reqs'.Keys == reqs.Keys + {h}
    ensures |reqs'| == |reqs| + 1
  {
    assert |reqs'| == |reqs'.Keys| && |reqs| == |reqs.Keys|;
  }

  lemma SubmitRings(s: Sys, s': Sys, buf: nat, out: bool, blk: nat)
    requires Inv(s) && Submitted(s, s', buf, out, blk) && Shape(s'.ring)
    ensures RingsOk(s') && Distinct(s'.book.availQ)
  {
    var n := s.book.seen + |s.book.availQ|;
    NextIndex(n);
    WrapSlot(n);
    AtMost21(s);
    ShowsPush(s.ring.availRing, s.book.seen, s.book.availQ, s.book.free[0]);
    assert s'.ring.availRing == s.ring.availRing[n % 64 := s.book.free[0]];
    assert PhaseOk(s, s.book.free[0]);
  }

  lemma SubmitOwn(s: Sys, s': Sys, buf: nat, out: bool, blk: nat)
    requires Inv(s) && Submitted(s, s', buf, out, blk) && !Busy(s, buf)
    ensures
      && (forall d: nat {:trigger DescOk(s'.book, d)} | d < 64 :: DescOk(s'.book, d))
      && (forall h: nat, h': nat {:trigger Apart(s'.book, h, h')} :: Apart(s'.book, h, h'))
  {
    var free := s.book.free;
    forall d: nat | d < 64 ensures DescOk(s'.book, d) {
      assert DescOk(s.book, d);
      assert d in free <==> d == free[0] || d == free[1] || d == free[2] || d in free[3..];
      if d !in free {
        var h :| h in s.book.reqs && InChain(d, h, s.book.reqs[h]);
        assert h in s'.book.reqs && InChain(d, h, s'.book.reqs[h]);
      } else if d !in free[3..] {
        assert free[0] in s'.book.reqs && InChain(d, free[0], s'.book.reqs[free[0]]);
      }
    }
    forall h: nat, h': nat ensures Apart(s'.book, h, h') {
      assert Apart(s.book, h, h') && LogOk(s, h) && LogOk(s, h');
    }
  }

  lemma SubmitReqs(s: Sys, s': Sys, buf: nat, out: bool, blk: nat)
    requires Inv(s) && Submitted(s, s', buf, out, blk) && Shape(s'.ring) && buf < |s.ring.mem| && !Busy(s, buf)
    ensures
      && (forall h: nat {:trigger ReqOk(s'.ring, h, s'.book.reqs[h])} | h in s'.book.reqs ::
            ReqOk(s'.ring, h, s'.book.reqs[h]))
      && (forall h: nat {:trigger LogOk(s', h)} :: LogOk(s', h))
      && (forall h: nat {:trigger PhaseOk(s', h)} :: PhaseOk(s', h))
      && (forall d: nat {:trigger s'.ring.info[d]} | d < 64 :: s'.ring.info[d] == -1 <==> d !in s'.book.reqs)
  {
    var free := s.book.free;
    forall h: nat | h in s'.book.reqs ensures ReqOk(s'.ring, h, s'.book.reqs[h]) {
      if h != free[0] { assert ReqOk(s.ring, h, s.book.reqs[h]); }
    }
    forall h: nat ensures LogOk(s', h) { assert LogOk(s, h); }
    forall h: nat ensures PhaseOk(s', h) { assert PhaseOk(s, h); }
  }

  /** Rearranging the free list touches nothing else. */
  lemma SameReqs(s: Sys, s': Sys)
    requires Inv(s) && FreeOk(s') && s'.book == s.book.(free := s'.book.free)
    requires multiset(s'.book.free) == multiset(s.book.free)
    requires s'.ring == s.ring.(desc := s'.ring.desc, freeHead := s'.ring.freeHead) && |s'.ring.desc| == 64
    requires forall d: nat | d < 64 && d !in s.book.free :: s'.ring.desc[d] == s.ring.desc[d]
    ensures Inv(s')
  {
    forall d
      ensures d in s'.book.free <==> d in s.book.free
    {
      assert d in multiset(s'.book.free) <==> d in multiset(s.book.free);
    }
    forall d: nat | d < 64 ensures DescOk(s'.book, d) { assert DescOk(s.book, d); }
    forall h: nat, h': nat ensures Apart(s'.book, h, h') { assert Apart(s.book, h, h'); }
    forall h: nat | h in s'.book.reqs ensures ReqOk(s'.ring, h, s'.book.reqs[h]) { ReqStays(s, s', h); }
    SameRest(s, s');
  }

  lemma ReqStays(s: Sys, s': Sys, h: nat)
    requires Inv(s) && h in s.book.reqs
    requires s'.ring == s.ring.(desc := s'.ring.desc, freeHead := s'.ring.freeHead) && |s'.ring.desc| == 64
    requires forall d: nat | d < 64 && d !in s.book.free :: s'.ring.desc[d] == s.ring.desc[d]
    ensures ReqOk(s'.ring, h, s.book.reqs[h])
  {
    var q := s.book.reqs[h];
    assert ReqOk(s.ring, h, q);
    assert DescOk(s.book, h) && DescOk(s.book, q.d1) && DescOk(s.book, q.d2);
  }

  /** What does not concern descriptors is kept. */
  lemma SameRest(s: Sys, s': Sys)
    requires Inv(s) && s'.book == s.book.(free := s'.book.free)
    requires s'.ring == s.ring.(desc := s'.ring.desc, freeHead := s'.ring.freeHead) && |s'.ring.desc| == 64
    ensures Shape(s'.ring) && RingsOk(s')
    ensures (forall h: nat {:trigger LogOk(s', h)} :: LogOk(s', h))
    ensures (forall h: nat {:trigger PhaseOk(s', h)} :: PhaseOk(s', h))
    ensures forall d: nat {:trigger s'.ring.info[d]} | d < 64 :: s'.ring.info[d] == -1 <==> d !in s'.book.reqs
  {
    forall h: nat ensures LogOk(s', h) { assert LogOk(s, h); }
    forall h: nat ensures PhaseOk(s', h) { assert PhaseOk(s, h); }
  }

  /** With fewer than three descriptors nothing is published; the list keeps its descriptors.  This
      happens only with all 21 chains in use. */
  lemma SubmitFails(s: Sys, buf: nat, out: bool, blk: nat)
    requires Inv(s) && |s.book.free| < 3
    ensures var s' := SubmitStep(s, buf, out, blk); Inv(s') && s'.book.reqs == s.book.reqs && |s.book.reqs| == 21
  {
    Alloc3Is(s.ring, s.book.free);
    SameReqs(s, SubmitStep(s, buf, out, blk));
  }

  lemma SubmitKeeps(s: Sys, buf: nat, out: bool, blk: nat)
    requires Inv(s) && buf < |s.ring.mem| && !Busy(s, buf)
    ensures Inv(SubmitStep(s, buf, out, blk))
  {
    if |s.book.free| < 3 {
      SubmitFails(s, buf, out, blk);
    } else {
      var s' := SubmitStep(s, buf, out, blk);
      SubmitIs(s, buf, out, blk);
      SubmitFree(s, s', buf, out, blk);
      SubmitRings(s, s', buf, out, blk);
      SubmitOwn(s, s', buf, out, blk);
      SubmitReqs(s, s', buf, out, blk);
    }
  }

  // ----- steps that move one request on -----

  /** Only the phase of request `h` changes in the history. */
  ghost predicate Moved(s: Sys, s': Sys, h: nat, p: Phase) {
    && h in s.book.reqs && s'.book.reqs == Move(s.book, h, p) && s'.book.free == s.book.free
    && s'.book.serial == s.book.serial
    && Shape(s'.ring) && s'.ring.desc == s.ring.desc && s'.ring.freeHead == s.ring.freeHead
    && s'.ring.header == s.ring.header && s'.ring.info == s.ring.info
    && |s'.ring.mem| == |s.ring.mem|
  }

  lemma MovedOwn(s: Sys, s': Sys, h: nat, p: Phase)
    requires Inv(s) && Moved(s, s', h, p)
    ensures FreeOk(s')
    ensures forall d: nat {:trigger DescOk(s'.book, d)} | d < 64 :: DescOk(s'.book, d)
    ensures forall x: nat, y: nat {:trigger Apart(s'.book, x, y)} :: Apart(s'.book, x, y)
    ensures forall d: nat {:trigger s'.ring.info[d]} | d < 64 :: s'.ring.info[d] == -1 <==> d !in s'.book.reqs
  {
    assert s'.book.reqs.Keys == s.book.reqs.Keys;
    forall d: nat | d < 64 ensures DescOk(s'.book, d) {
      assert DescOk(s.book, d);
      if d !in s.book.free {
        var x :| x in s.book.reqs && InChain(d, x, s.book.reqs[x]);
        assert x in s'.book.reqs && InChain(d, x, s'.book.reqs[x]);
      }
    }
    forall x: nat, y: nat ensures Apart(s'.book, x, y) { assert Apart(s.book, x, y); }
  }

  /** The parts of the invariant about single requests and the rings. */
  ghost predicate Rest(s: Sys)
    requires Shape(s.ring)
  {
    && RingsOk(s) && Distinct(s.book.availQ) && Distinct(s.book.usedQ)
    && (forall h: nat {:trigger ReqOk(s.ring, h, s.book.reqs[h])} | h in s.book.reqs ::
          ReqOk(s.ring, h, s.book.reqs[h]))
    && (forall h: nat {:trigger LogOk(s, h)} :: LogOk(s, h))
    && (forall h: nat {:trigger PhaseOk(s, h)} :: PhaseOk(s, h))
    && (forall x | x in s.book.log :: x < s.book.serial)
  }

  lemma DistinctTail(q: seq<nat>)
    requires Distinct(q) && q != []
    ensures Distinct(q[1..]) && forall x :: x in q[1..] <==> x in q && x != q[0]
  {
  }

  lemma TakeRest(s: Sys, s': Sys, h: nat)
    requires Inv(s) && s.book.availQ != [] && h == s.book.availQ[0] && s' == TakeStep(s) && Shape(s'.ring)
    ensures Rest(s')
  {
    WrapSlot(s.book.seen);
    NextIndex(s.book.seen);
    ShowsPop(s.ring.availRing, s.book.seen, s.book.availQ);
    DistinctTail(s.book.availQ);
    assert PhaseOk(s, h);
    forall x: nat | x in s'.book.reqs
      ensures ReqOk(s'.ring, x, s'.book.reqs[x])
    {
      assert ReqOk(s.ring, x, s.book.reqs[x]);
    }
    forall x: nat ensures LogOk(s', x) { assert LogOk(s, x); }
    forall x: nat ensures PhaseOk(s', x) { assert PhaseOk(s, x); }
  }

  /** The device takes the oldest unread request, and exactly that one. */
  lemma TakeKeeps(s: Sys)
    requires Inv(s) && s.ring.seenIdx != s.ring.availIdx
    ensures Inv(TakeStep(s)) && s.book.availQ != [] && TakeStep(s).ring.taken == s.ring.taken + {s.book.availQ[0]}
  {
    IndexExact(s);
    var h, s' := s.book.availQ[0], TakeStep(s);
    assert PhaseOk(s, h);
    WrapSlot(s.book.seen);
    ShowsPop(s.ring.availRing, s.book.seen, s.book.availQ);
    MovedOwn(s, s', h, Taken);
    TakeRest(s, s', h);
  }

  /** What the device reads from a chain is the request that was submitted. */
  lemma DecodeIs(s: Sys, h: nat)
    requires Inv(s) && h in s.book.reqs
    ensures var q, t := s.book.reqs[h], Decode(s.ring, h);
      && q.buf < |s.ring.mem| && t.buf == q.buf && t.out == q.out && t.blk == q.blk && StatusSlot(s.ring, h) == h
      && (t.out ==> t.data == s.ring.mem[q.buf])
      && (!t.out ==> t.data == DiskAt(s.ring.disk, q.blk))
  {
    assert ReqOk(s.ring, h, s.book.reqs[h]);
  }

  lemma CompleteRings(s: Sys, s': Sys, h: nat)
    requires Inv(s) && h in s.ring.taken && h in s.book.reqs && s' == CompleteStep(s, h) && Shape(s'.ring)
    ensures RingsOk(s') && Distinct(s'.book.usedQ)
  {
    var n := s.book.last + |s.book.usedQ|;
    WrapSlot(n);
    NextIndex(n);
    AtMost21(s);
    ShowsPush(s.ring.usedRing, s.book.last, s.book.usedQ, h);
    assert s'.ring.usedRing == s.ring.usedRing[n % 64 := h];
    assert PhaseOk(s, h);
  }

  lemma CompleteRest(s: Sys, s': Sys, h: nat)
    requires Inv(s) && h in s.ring.taken && h in s.book.reqs && s' == CompleteStep(s, h) && Shape(s'.ring)
    requires RingsOk(s') && Distinct(s'.book.usedQ)
    ensures Rest(s')
  {
    DecodeIs(s, h);
    assert PhaseOk(s, h) && LogOk(s, h);
    forall x: nat | x in s'.book.reqs
      ensures ReqOk(s'.ring, x, s'.book.reqs[x])
    {
      assert ReqOk(s.ring, x, s.book.reqs[x]);
    }
    forall x: nat
      ensures LogOk(s', x)
    {
      assert LogOk(s, x) && Apart(s.book, x, h);
      if x in s.book.reqs { assert ReqOk(s.ring, x, s.book.reqs[x]); }
    }
    forall x: nat ensures PhaseOk(s', x) { assert PhaseOk(s, x); }
  }

  /** Completing a held request executes exactly the submitted transfer, for the first time: nothing
      but its own block (write) or its own buffer (read) changes. */
  lemma CompleteKeeps(s: Sys, h: nat)
    requires Inv(s) && h in s.ring.taken
    ensures var s' := CompleteStep(s, h);
      && Inv(s') && h in s.book.reqs && s.book.reqs[h].serial !in s.book.log
      && (var q := s.book.reqs[h];
          && q.buf < |s.ring.mem|
          && (q.out ==> s'.ring.disk == s.ring.disk[q.blk := s.ring.mem[q.buf]] && s'.ring.mem == s.ring.mem)
          && (!q.out ==> s'.ring.disk == s.ring.disk)
          && (!q.out ==> s'.ring.mem == s.ring.mem[q.buf := DiskAt(s.ring.disk, q.blk)]))
  {
    var s' := CompleteStep(s, h);
    assert PhaseOk(s, h) && LogOk(s, h);
    DecodeIs(s, h);
    assert ReqOk(s.ring, h, s.book.reqs[h]);
    MovedOwn(s, s', h, Used);
    CompleteRings(s, s', h);
    CompleteRest(s, s', h);
  }

  lemma IrqRest(s: Sys, s': Sys, h: nat)
    requires Inv(s) && s.ring.lastUsed != s.ring.usedIdx && s.book.usedQ != [] && h == s.book.usedQ[0]
    requires s' == IrqStep(s) && Shape(s'.ring)
    ensures Rest(s')
  {
    NoBadUsed(s);
    NextIndex(s.book.last);
    ShowsPop(s.ring.usedRing, s.book.last, s.book.usedQ);
    DistinctTail(s.book.usedQ);
    assert PhaseOk(s, h);
    assert ReqOk(s.ring, h, s.book.reqs[h]);
    forall x: nat | x in s'.book.reqs
      ensures ReqOk(s'.ring, x, s'.book.reqs[x])
    {
      assert ReqOk(s.ring, x, s.book.reqs[x]) && Apart(s.book, x, h);
    }
    forall x: nat ensures LogOk(s', x) { assert LogOk(s, x); }
    forall x: nat ensures PhaseOk(s', x) { assert PhaseOk(s, x); }
  }

  /** The handler marks done the buffer of a request the device has executed. */
  lemma IrqKeeps(s: Sys)
    requires Inv(s) && s.ring.lastUsed != s.ring.usedIdx
    ensures Inv(IrqStep(s)) && !BadUsed(s.ring) && s.book.usedQ != [] && s.book.usedQ[0] in s.book.reqs
    ensures s.book.reqs[s.book.usedQ[0]].serial in s.book.log
  {
    NoBadUsed(s);
    var h, s' := s.book.usedQ[0], IrqStep(s);
    assert PhaseOk(s, h) && LogOk(s, h);
    MovedOwn(s, s', h, Done);
    IrqRest(s, s', h);
  }

  // ----- completion seen by the caller -----

  /** `virtio_disk_rw` returns only after the device executed its own request: the buffer, direction
      and block of the transfer are those submitted, and a read's buffer still holds the data. */
  lemma FinishMeans(s: Sys, h: nat)
    requires Inv(s) && h in s.book.reqs && s.book.reqs[h].buf < |s.ring.done| && s.ring.done[s.book.reqs[h].buf]
    ensures var q := s.book.reqs[h];
      && q.serial in s.book.log
      && (var t := s.book.log[q.serial];
          && t.buf == q.buf && t.out == q.out && t.blk == q.blk
          && (!q.out ==> q.buf < |s.ring.mem| && s.ring.mem[q.buf] == t.data))
  {
    assert ReqOk(s.ring, h, s.book.reqs[h]) && LogOk(s, h);
  }

  /** The finished chain is back on the free list and the request is forgotten. */
  ghost predicate Finished(s: Sys, s': Sys, h: nat) {
    && h in s.book.reqs && h < 64 && |s.ring.info| == 64
    && (var q := s.book.reqs[h];
        && q.d1 < 64 && q.d2 < 64
        && s'.ring == s.ring.(info := s.ring.info[h := -1], desc := s'.ring.desc, freeHead := q.d2)
        && |s'.ring.desc| == |s.ring.desc| == 64
        && Linked(s'.ring.desc, q.d2, [q.d2, q.d1, h] + s.book.free)
        && (forall d: nat | d < 64 && !InChain(d, h, q) :: s'.ring.desc[d] == s.ring.desc[d])
        && s'.book == s.book.(reqs := s.book.reqs - {h}, free := [q.d2, q.d1, h] + s.book.free))
  }

  lemma FinishIs(s: Sys, h: nat)
    requires Inv(s) && h in s.book.reqs
    ensures Finished(s, FinishStep(s, h), h)
  {
    var q := s.book.reqs[h];
    assert ReqOk(s.ring, h, q);
    assert DescOk(s.book, h) && DescOk(s.book, q.d1) && DescOk(s.book, q.d2);
    InsertThree(s.ring.(info := Upd(s.ring.info, h, -1)), h, q.d1, q.d2, s.book.free);
  }

  lemma FinishFree(s: Sys, s': Sys, h: nat)
    requires Inv(s) && Finished(s, s', h)
    ensures FreeOk(s')
    ensures forall d: nat {:trigger DescOk(s'.book, d)} | d < 64 :: DescOk(s'.book, d)
    ensures forall x: nat, y: nat {:trigger Apart(s'.book, x, y)} :: Apart(s'.book, x, y)
  {
    var q := s.book.reqs[h];
    assert ReqOk(s.ring, h, q);
    assert DescOk(s.book, h) && DescOk(s.book, q.d1) && DescOk(s.book, q.d2);
    assert s'.book.reqs.Keys == s.book.reqs.Keys - {h};
    forall d: nat | d < 64 ensures DescOk(s'.book, d) {
      assert DescOk(s.book, d);
      assert d in s'.book.free <==> InChain(d, h, q) || d in s.book.free;
      if InChain(d, h, q) {
        forall x | x in s'.book.reqs ensures !InChain(d, x, s'.book.reqs[x]) { assert Apart(s.book, h, x); }
      } else if d !in s.book.free {
        var x :| x in s.book.reqs && InChain(d, x, s.book.reqs[x]);
        assert x in s'.book.reqs && InChain(d, x, s'.book.reqs[x]);
      }
    }
    forall x: nat, y: nat ensures Apart(s'.book, x, y) { assert Apart(s.book, x, y); }
  }

  lemma FinishRest(s: Sys, s': Sys, h: nat)
    requires Inv(s) && Finished(s, s', h) && Shape(s'.ring) && s.book.reqs[h].phase == Done
    ensures Rest(s')
  {
    forall x: nat | x in s'.book.reqs
      ensures ReqOk(s'.ring, x, s'.book.reqs[x])
    {
      assert ReqOk(s.ring, x, s.book.reqs[x]) && Apart(s.book, h, x);
    }
    forall x: nat ensures LogOk(s', x) { assert LogOk(s, x); }
    forall x: nat ensures PhaseOk(s', x) { assert PhaseOk(s, x); }
  }

  lemma FinishKeeps(s: Sys, h: nat)
    requires Inv(s) && h in s.book.reqs && s.book.reqs[h].phase == Done
    ensures Inv(FinishStep(s, h))
  {
    var s' := FinishStep(s, h);
    FinishIs(s, h);
    assert Shape(s'.ring);
    FinishFree(s, s', h);
    FinishRest(s, s', h);
  }

  /** Clients may change a buffer that no request is using. */
  lemma FillKeeps(s: Sys, buf: nat, data: Block)
    requires Inv(s) && !Busy(s, buf)
    ensures Inv(FillStep(s, buf, data))
  {
    var s' := FillStep(s, buf, data);
    forall h: nat | h in s'.book.reqs
      ensures ReqOk(s'.ring, h, s'.book.reqs[h])
    {
      assert ReqOk(s.ring, h, s.book.reqs[h]);
    }
    forall h: nat ensures LogOk(s', h) { assert LogOk(s, h); }
    forall h: nat ensures PhaseOk(s', h) { assert PhaseOk(s, h); }
  }

  /** Each descriptor is free or in exactly one outstanding chain, never both. */
  lemma Partition(s: Sys, d: nat)
    requires Inv(s) && d < 64
    ensures d in s.book.free <==> !exists h :: h in s.book.reqs && InChain(d, h, s.book.reqs[h])
    ensures forall h, h' |
      && h in s.book.reqs && h' in s.book.reqs
      && InChain(d, h, s.book.reqs[h]) && InChain(d, h', s.book.reqs[h']) :: h == h'
  {
    assert DescOk(s.book, d);
    forall h, h' |
      && h in s.book.reqs && h' in s.book.reqs
      && InChain(d, h, s.book.reqs[h]) && InChain(d, h', s.book.reqs[h'])
      ensures h == h'
    {
      assert Apart(s.book, h, h');
    }
  }

  // ----- whole runs -----

  datatype Op =
    | SubmitOp(buf: nat, out: bool, blk: nat)
    | TakeOp
    | CompleteOp(h: nat)
    | IrqOp
    | FinishOp(h: nat)
    | FillOp(buf: nat, data: Block)

  /** A caller owns its buffer exclusively; the device moves when there is something unread or held;
      the handler runs while the indices differ; a caller goes on when its buffer is done. */
  ghost predicate Enabled(s: Sys, op: Op) {
    match op
    case SubmitOp(buf, _, _) => buf < |s.ring.mem| && !Busy(s, buf)
    case TakeOp => s.ring.seenIdx != s.ring.availIdx
    case CompleteOp(h) => h in s.ring.taken
    case IrqOp => s.ring.lastUsed != s.ring.usedIdx
    case FinishOp(h) => h in s.book.reqs && s.book.reqs[h].buf < |s.ring.done| && s.ring.done[s.book.reqs[h].buf]
    case FillOp(buf, _) => !Busy(s, buf)
  }

  ghost function Step(s: Sys, op: Op): Sys {
    match op
    case SubmitOp(buf, out, blk) => SubmitStep(s, buf, out, blk)
    case TakeOp => TakeStep(s)
    case CompleteOp(h) => CompleteStep(s, h)
    case IrqOp => IrqStep(s)
    case FinishOp(h) => FinishStep(s, h)
    case FillOp(buf, data) => FillStep(s, buf, data)
  }

  lemma StepKeeps(s: Sys, op: Op)
    requires Inv(s) && Enabled(s, op)
    ensures Inv(Step(s, op))
  {
    match op
    case SubmitOp(buf, out, blk) => SubmitKeeps(s, buf, out, blk);
    case TakeOp => TakeKeeps(s);
    case CompleteOp(h) => CompleteKeeps(s, h);
    case IrqOp => IrqKeeps(s);
    case FinishOp(h) => assert ReqOk(s.ring, h, s.book.reqs[h]); FinishKeeps(s, h);
    case FillOp(buf, data) => FillKeeps(s, buf, data);
  }

  ghost predicate Runs(s: Sys, ops: seq<Op>)
    decreases |ops|
  {
    ops == [] || (Enabled(s, ops[0]) && Runs(Step(s, ops[0]), ops[1..]))
  }

  ghost function Run(s: Sys, ops: seq<Op>): Sys
    decreases |ops|
  {
    if ops == [] then s else Run(Step(s, ops[0]), ops[1..])
  }

  /** `virtio_disk_init`: all descriptors free, both rings empty. */
  ghost predicate Initial(s: Sys) {
    && Shape(s.ring) && (forall i: nat | i < 64 :: s.ring.desc[i].next == if i == 63 then END else i + 1)
    && s.ring.freeHead == 0
    && (forall i: nat | i < 64 :: s.ring.info[i] == -1)
    && s.ring.availIdx == s.ring.usedIdx == s.ring.lastUsed == s.ring.seenIdx == 0 && s.ring.taken == {}
    && s.book == Book(seq(64, (i: nat) => i), map[], 0, [], 0, [], map[], 0)
  }

  lemma {:induction false} InitialLinked(desc: seq<Desc>, n: nat, s: seq<nat>)
    requires |desc| == 64 && n <= 64 && (forall i: nat | i < 64 :: desc[i].next == if i == 63 then END else i + 1)
    requires |s| == 64 - n && forall i: nat | i < |s| :: s[i] == n + i
    ensures Linked(desc, if n == 64 then END else n, s)
    decreases 64 - n
  {
    if n < 64 { InitialLinked(desc, n + 1, s[1..]); }
  }

  lemma InitialInv(s: Sys)
    requires Initial(s)
    ensures Inv(s)
  {
    InitialLinked(s.ring.desc, 0, s.book.free);
    forall d: nat | d < 64 ensures DescOk(s.book, d) { assert s.book.free[d] == d; }
    forall h: nat, h': nat ensures Apart(s.book, h, h') {}
    forall h: nat ensures LogOk(s, h) {}
    forall h: nat ensures PhaseOk(s, h) {}
  }

  /** Every interleaving, from initialisation on: the free list and the chains partition the 64
      descriptors, at most 21 requests are outstanding, no unread slot is about to be overwritten and
      the invalid-descriptor panic cannot be reached. */
  lemma {:induction false} RunKeeps(s: Sys, ops: seq<Op>)
    requires Inv(s) && Runs(s, ops)
    ensures var s' := Run(s, ops);
      Inv(s') && |s'.book.reqs| <= 21 && (s'.ring.lastUsed != s'.ring.usedIdx ==> !BadUsed(s'.ring))
    decreases |ops|
  {
    if ops == [] {
      AtMost21(s);
      if s.ring.lastUsed != s.ring.usedIdx { NoBadUsed(s); }
    } else {
      StepKeeps(s, ops[0]);
      RunKeeps(Step(s, ops[0]), ops[1..]);
    }
  }
}
