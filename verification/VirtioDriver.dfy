/** The virtio-blk driver as it updates the queue in place. */
module VirtioDriver {
  import opened Blocks
  import opened Counting
  import opened Virtio
  import opened VirtioProtocol

  class Driver {
    var desc: seq<Desc>
    var freeHead: nat
    var header: seq<Header>
    var info: seq<int>
    var status: seq<nat>
    var availRing: seq<nat>
    var availIdx: nat
    var usedRing: seq<nat>
    var usedIdx: nat
    var lastUsed: nat
    var done: seq<bool>
    var mem: seq<Block>
    // The device's own state.
    var seenIdx: nat
    var taken: set<nat>
    var disk: map<nat, Block>
    ghost var book: Book

    ghost function Now(): Ring
      reads this
    {
      Ring(desc, freeHead, header, info, status, availRing, availIdx, usedRing, usedIdx, lastUsed, done, mem, seenIdx,
          taken, disk)
    }

    ghost function State(): Sys
      reads this
    {
      Sys(Now(), book)
    }

    ghost predicate Valid()
      reads this
    {
      Inv(State())
    }

    /** `virtio_disk_init` with `init_free_desc_list`, over the given buffers and disk contents. */
    constructor (buffers: seq<Block>, disk0: map<nat, Block>)
      ensures Valid() && Initial(State()) && mem == buffers && disk == disk0
    {
      desc := seq(64, _ => Desc(NoAddr, 0, false, false, 0));
      header := seq(64, _ => Header(false, 0));
      info := seq(64, _ => -1);
      status := seq(64, _ => 0);
      availRing, usedRing := seq(64, _ => 0), seq(64, _ => 0);
      availIdx, usedIdx, lastUsed, seenIdx, taken := 0, 0, 0, 0, {};
      done := seq(|buffers|, _ => false);
      mem, disk := buffers, disk0;
      book := Book(seq(64, (i: nat) => i), map[], 0, [], 0, [], map[], 0);
      freeHead := 0;
      new;
      var i := 0;
      while i < 64
        invariant 0 <= i <= 64 && |desc| == 64 && forall k: nat | k < i :: desc[k].next == k + 1
        modifies `desc
      {
        desc := desc[i := desc[i].(next := i + 1)];
        i := i + 1;
      }
      desc := desc[63 := desc[63].(next := 255)];
      InitialInv(State());
    }

    /** `alloc_desc`. */
    method AllocDesc() returns (idx: int)
      requires |desc| == 64 && (freeHead == END || freeHead < 64)
      modifies `freeHead
      ensures (Now(), idx) == Virtio.AllocDesc(old(Now()))
    {
      if freeHead == END { return -1; }
      idx := freeHead;
      freeHead := desc[freeHead].next;
    }

    /** `insert_free_desc_list`, with the clearing done by `free_desc`. */
    method InsertDesc(idx: nat)
      requires idx < |desc|
      modifies `freeHead, `desc
      ensures Now() == Insert(old(Now()), idx)
    {
      var current := freeHead;
      desc := desc[idx := Desc(NoAddr, 0, false, false, 0)];
      freeHead := idx;
      desc := desc[idx := desc[idx].(next := current)];
    }

    /** `free_chain`: follow the links until the terminator. */
    method FreeChain(head: nat, ghost chain: seq<nat>)
      requires |desc| == 64 && Linked(desc, head, chain) && Distinct(chain) && chain != []
      requires forall d | d in chain :: d < 64
      modifies `freeHead, `desc
      ensures Now() == InsertAll(old(Now()), chain)
    {
      var idx := head;
      assert chain[0] in chain;
      ghost var rest := chain;
      ghost var start := Now();
      while idx != END
        invariant |desc| == 64 && Linked(desc, idx, rest) && Distinct(rest) && (forall d | d in rest :: d < 64)
        invariant (rest == [] <==> idx == END)
        invariant InsertAll(Now(), rest) == InsertAll(start, chain)
        decreases |rest|
      {
        assert rest != [] && rest[0] == idx && idx in rest;
        var next := desc[idx].next;
        ghost var before := desc;
        InsertDesc(idx);
        LinkedFrame(before, desc, next, rest[1..]);
        assert forall d | d in rest[1..] :: d in rest;
        assert rest[1..] != [] ==> rest[1..][0] in rest;
        rest := rest[1..];
        idx := next;
      }
    }

    /** `alloc3_desc`. */
    method Alloc3(ghost free: seq<nat>) returns (got: Three)
      requires FreeList(Now(), free)
      modifies `freeHead, `desc
      ensures (Now(), got) == Virtio.Alloc3(old(Now())) && FreeList(Now(), FreeAfter(free))
    {
      Alloc3Is(Now(), free);
      FrontOk(Now(), free);
      var a := AllocDesc();
      if a < 0 { return None; }
      var b := AllocDesc();
      if b < 0 {
        InsertDesc(a);
        return None;
      }
      var c := AllocDesc();
      if c < 0 {
        InsertDesc(a);
        InsertDesc(b);
        return None;
      }
      got := Some(a, b, c);
    }

    /** `virtio_disk_rw` up to its wait: either the request is published, or fewer than three
        descriptors are free and the caller sleeps. */
    method SubmitRequest(buf: nat, out: bool, blk: nat) returns (head: int)
      requires Valid() && buf < |mem| && !Busy(State(), buf)
      modifies this
      ensures Valid() && State() == SubmitStep(old(State()), buf, out, blk)
      ensures head >= 0 <==> |old(book.reqs)| < 21
      ensures head >= 0 ==> head in book.reqs && book.reqs[head].buf == buf && book.reqs[head].phase == Queued
    {
      ghost var s := State();
      SubmitKeeps(s, buf, out, blk);
      book := SubmitStep(s, buf, out, blk).book;
      var got := Alloc3(s.book.free);
      Alloc3Is(s.ring, s.book.free);
      match got
      case None => head := -1;
      case Some(a, b, c) =>
        SubmitIs(s, buf, out, blk);
        Fill(buf, out, blk, a, b, c);
        head := a;
    }

    /** Fill the three descriptors and publish the chain. */
    method Fill(buf: nat, out: bool, blk: nat, a: nat, b: nat, c: nat)
      requires Shape(Now()) && a < 64 && b < 64 && c < 64 && buf < |mem|
      modifies this
      ensures Now() == Publish(old(Now()), buf, out, blk, a, b, c) && book == old(book)
    {
      FillDescs(buf, out, blk, a, b, c);
      done := done[buf := false];
      info := info[a := buf];
      PushAvail(a);
    }

    method FillDescs(buf: nat, out: bool, blk: nat, a: nat, b: nat, c: nat)
      requires |header| == |desc| == 64 && a < 64 && b < 64 && c < 64
      modifies `header, `desc
      ensures header == Upd(old(header), a, Header(out, blk * 8))
      ensures desc ==
        Upd(Upd(Upd(old(desc), a, Desc(ReqAddr(a), 16, false, true, b)), b, Desc(DataAddr(buf), 4096, !out, true, c)),
            c, Desc(StatusAddr(a), 1, true, false, END))
    {
      header := header[a := Header(out, blk * 8)];
      desc := desc[a := Desc(ReqAddr(a), 16, false, true, b)];
      desc := desc[b := Desc(DataAddr(buf), 4096, !out, true, c)];
      desc := desc[c := Desc(StatusAddr(a), 1, true, false, END)];
    }

    method PushAvail(a: nat)
      requires |availRing| == 64
      modifies `availRing, `availIdx
      ensures availRing == Upd(old(availRing), old(availIdx) % 64, a) && availIdx == (old(availIdx) + 1) % 65536
    {
      var slot := availIdx % 64;
      availRing := availRing[slot := a];
      availIdx := (availIdx + 1) % 65536;
    }

    /** `virtio_blk_irq_handler`: marks exactly the reported requests done; neither panic is reachable. */
    method IrqHandler()
      requires Valid()
      modifies this
      ensures Valid() && lastUsed == usedIdx && book.usedQ == []
      ensures book.reqs.Keys == old(book.reqs).Keys
      ensures forall h | h in book.reqs ::
          book.reqs[h] ==
            if old(book.reqs)[h].phase == Used then old(book.reqs)[h].(phase := Done) else old(book.reqs)[h]
    {
      ghost var reqs := book.reqs;
      while lastUsed != usedIdx
        invariant Valid() && Progress(reqs, book.reqs)
        decreases |book.usedQ|
      {
        IrqProgress(State(), reqs);
        IrqOne();
      }
      IndexExact(State());
      forall h: nat ensures h in book.reqs <==> h in reqs { assert ProgressAt(reqs, book.reqs, h); }
      forall h | h in book.reqs
        ensures book.reqs[h] == if reqs[h].phase == Used then reqs[h].(phase := Done) else reqs[h]
      {
        assert PhaseOk(State(), h);
        assert ProgressAt(reqs, book.reqs, h);
      }
    }

    /** One round of the handler's loop. */
    method IrqOne()
      requires Valid() && lastUsed != usedIdx
      modifies this
      ensures Valid() && State() == IrqStep(old(State())) && usedIdx == old(usedIdx)
    {
      ghost var s := State();
      IrqKeeps(s);
      NoBadUsed(s);
      var id := usedRing[lastUsed % 64];
      assert PhaseOk(s, id) && LogOk(s, id);
      if id >= 64 || info[id] < 0 || status[id] != 0 {
        assert false;
      }
      done := done[info[id] := true];
      lastUsed := (lastUsed + 1) % 65536;
      book := IrqStep(s).book;
    }

    /** The end of `virtio_disk_rw`, once the buffer is done. */
    method FinishRequest(head: nat)
      requires Valid() && head in book.reqs && book.reqs[head].phase == Done
      modifies this
      ensures Valid() && State() == FinishStep(old(State()), head)
    {
      ghost var s := State();
      ghost var q := book.reqs[head];
      assert ReqOk(s.ring, head, q);
      FinishKeeps(s, head);
      book := FinishStep(s, head).book;
      info := info[head := -1];
      assert [head, q.d1, q.d2][1..] == [q.d1, q.d2] && [q.d1, q.d2][1..] == [q.d2] && [q.d2][1..] == [];
      assert Linked(desc, END, []) && Linked(desc, q.d2, [q.d2]) && Linked(desc, q.d1, [q.d1, q.d2]);
      FreeChain(head, [head, q.d1, q.d2]);
    }
  }

  /** A request reported to the driver stays as it is until it is done; all others stay as they are. */
  ghost predicate ProgressAt(reqs: map<nat, Request>, reqs': map<nat, Request>, h: nat) {
    && (h in reqs' <==> h in reqs)
    && (h in reqs && h in reqs' ==>
          reqs'[h] == reqs[h] || (reqs[h].phase == Used && reqs'[h] == reqs[h].(phase := Done)))
  }

  ghost predicate Progress(reqs: map<nat, Request>, reqs': map<nat, Request>) {
    forall h: nat {:trigger ProgressAt(reqs, reqs', h)} :: ProgressAt(reqs, reqs', h)
  }

  lemma IrqProgress(s: Sys, reqs: map<nat, Request>)
    requires Inv(s) && s.ring.lastUsed != s.ring.usedIdx && Progress(reqs, s.book.reqs)
    ensures Progress(reqs, IrqStep(s).book.reqs) && |IrqStep(s).book.usedQ| < |s.book.usedQ|
  {
    IndexExact(s);
    assert s.book.usedQ[0] in s.book.usedQ && PhaseOk(s, s.book.usedQ[0]);
    forall h: nat ensures ProgressAt(reqs, IrqStep(s).book.reqs, h) { assert ProgressAt(reqs, s.book.reqs, h); }
  }

  lemma FrontOk(r: Ring, free: seq<nat>)
    requires FreeList(r, free)
    ensures r.freeHead == END || r.freeHead < 64
    ensures |free| > 0 ==> r.freeHead < 64 && (r.desc[r.freeHead].next == END || r.desc[r.freeHead].next < 64)
    ensures |free| > 1 ==> var d := r.desc[r.freeHead].next; d < 64 && (r.desc[d].next == END || r.desc[d].next < 64)
    ensures |free| == 0 ==> r.freeHead == END
    ensures |free| == 1 ==> r.desc[r.freeHead].next == END
  {
    assert forall i | 0 <= i < |free| :: free[i] in free;
    if |free| > 0 {
      assert Linked(r.desc, r.desc[free[0]].next, free[1..]);
      if |free| > 1 {
        assert free[1..][0] == free[1] && free[1..][1..] == free[2..];
        assert Linked(r.desc, r.desc[free[1]].next, free[2..]);
        if |free| > 2 { assert free[2..][0] == free[2]; }
      }
    }
  }
}
