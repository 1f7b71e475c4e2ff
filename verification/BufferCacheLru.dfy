/** Which buffer is recycled: of those nobody uses, the one released longest ago, in every run. */
module BufferCacheLru {
  import opened BufferCache
  import opened BufferCacheRuns

  /** The step takes the last reference to buffer `i` away. */
  ghost predicate Freed(s: Sys, s': Sys, i: nat) {
    BufAt(s.cache, i).refcnt > 0 && BufAt(s'.cache, i).refcnt == 0
  }

  /** When each buffer was last freed, after a step at time `now`. */
  ghost function Stamp(s: Sys, s': Sys, times: seq<int>, now: int): (r: seq<int>)
    requires |times| == 32
    ensures |r| == 32 && forall i: nat | i < 32 :: r[i] == if Freed(s, s', i) then now else times[i]
  {
    seq(32, (i: nat) requires i < 32 => if Freed(s, s', i) then now else times[i])
  }

  /** Before the first step, lower buffers count as freed earlier. */
  ghost function Origin(): (r: seq<int>)
    ensures |r| == 32 && forall i | 0 <= i < 32 :: r[i] == i - 32
  {
    seq(32, i => i - 32)
  }

  ghost function Times(s: Sys, ops: seq<Op>, times: seq<int>, now: int): (r: seq<int>)
    requires |times| == 32
    ensures |r| == 32
    decreases |ops|
  {
    if ops == [] then times
    else
      var s' := Step(s, ops[0]);
      Times(s', ops[1..], Stamp(s, s', times, now), now + 1)
  }

  /** The list runs from the buffer freed last to the one freed first. */
  ghost predicate Ordered(order: seq<nat>, times: seq<int>, now: int) {
    && OrderOk(order) && |times| == 32
    && (forall i | 0 <= i < 32 :: times[i] < now)
    && (forall p, q | 0 <= p < q < 32 :: times[order[p]] > times[order[q]])
  }

  lemma MovedOrdered(order: seq<nat>, k: nat, times: seq<int>, times': seq<int>, now: int)
    requires Ordered(order, times, now) && k < 32 && times' == times[order[k] := now]
    ensures Ordered(Moved(order, k), times', now + 1)
  {
    var t := Moved(order, k);
    MovedOk(order, k);
    forall p, q | 0 <= p < q < 32 ensures times'[t[p]] > times'[t[q]] {
      MovedAt(order, k, p);
      MovedAt(order, k, q);
      assert t[p] != t[q];
    }
  }

  /** No step but the drop of a last reference frees a buffer or moves one in the list. */
  lemma OthersStay(s: Sys, op: Op)
    requires Inv(s) && Enabled(s, op) && !op.DropOp?
    ensures var s' := Step(s, op); s'.cache.order == s.cache.order && forall i: nat | i < 32 :: !Freed(s, s', i)
  {
    assert ClientOk(s, op.a);
  }

  lemma DropOrdered(s: Sys, a: nat, times: seq<int>, now: int)
    requires Inv(s) && Enabled(s, DropOp(a)) && Ordered(s.cache.order, times, now)
    ensures var s' := DropStep(s, a); Ordered(s'.cache.order, Stamp(s, s', times, now), now + 1)
  {
    var s', i := DropStep(s, a), s.book.clients[a].buf;
    assert ClientOk(s, a) && BufOk(s, i);
    assert a in ClientsOn(s.book, i);
    if BufAt(s.cache, i).refcnt == 1 {
      ToFrontIs(s.cache.order, i);
      var k :| 0 <= k < 32 && s.cache.order[k] == i && ToFront(s.cache.order, i) == Moved(s.cache.order, k);
      assert Stamp(s, s', times, now) == times[i := now];
      MovedOrdered(s.cache.order, k, times, times[i := now], now);
    } else {
      assert Stamp(s, s', times, now) == times;
    }
  }

  lemma StepOrdered(s: Sys, op: Op, times: seq<int>, now: int)
    requires Inv(s) && Enabled(s, op) && Ordered(s.cache.order, times, now)
    ensures var s' := Step(s, op); Ordered(s'.cache.order, Stamp(s, s', times, now), now + 1)
  {
    if op.DropOp? {
      DropOrdered(s, op.a, times, now);
    } else {
      OthersStay(s, op);
      assert Stamp(s, Step(s, op), times, now) == times;
    }
  }

  lemma {:induction false} RunOrdered(s: Sys, ops: seq<Op>, keys: set<Key>, times: seq<int>, now: int)
    requires Inv(s) && Runs(s, ops, keys) && Ordered(s.cache.order, times, now)
    ensures Inv(Run(s, ops)) && Ordered(Run(s, ops).cache.order, Times(s, ops, times, now), now + |ops|)
    decreases |ops|
  {
    if ops != [] {
      StepKeeps(s, ops[0]);
      StepOrdered(s, ops[0], times, now);
      RunOrdered(Step(s, ops[0]), ops[1..], keys, Stamp(s, Step(s, ops[0]), times, now), now + 1);
    }
  }

  /** The last unreferenced buffer in the list. */
  lemma VictimOldest(c: Cache, times: seq<int>, now: int, i: nat, j: nat)
    requires Ordered(c.order, times, now) && |c.bufs| == 32 && Victim(c, 32) > 0 && i == c.order[Victim(c, 32) - 1]
    requires j < 32 && BufAt(c, j).refcnt == 0 && j != i
    ensures times[i] < times[j]
  {
    AllListed(c.order, j);
    var q :| 0 <= q < 32 && c.order[q] == j;
  }

  /** From `binit`, whatever ran before: a client whose block is not cached gets a buffer nobody uses, and of these
      the one whose last user let go of it the longest ago. */
  lemma RecycledOldest(s0: Sys, ops: seq<Op>, keys: set<Key>, a: nat, dev: nat, blk: nat)
    requires Initial(s0) && Runs(s0, ops, keys) && a !in Run(s0, ops).book.clients
    requires forall i: nat | i < 32 :: !Matches(BufAt(Run(s0, ops).cache, i), dev, blk)
    ensures var s, times := Run(s0, ops), Times(s0, ops, Origin(), 0);
      var s' := GetStep(s, a, dev, blk);
      a in s'.book.clients ==>
        var i := s'.book.clients[a].buf;
        && i < 32 && BufAt(s.cache, i).refcnt == 0
        && forall j: nat | j < 32 && j != i && BufAt(s.cache, j).refcnt == 0 :: times[i] < times[j]
  {
    InitialInv(s0);
    RunOrdered(s0, ops, keys, Origin(), 0);
    var s, times := Run(s0, ops), Times(s0, ops, Origin(), 0);
    var c, s' := s.cache, GetStep(s, a, dev, blk);
    var v := Victim(c, 32);
    assert Find(c, dev, blk, 0) == 32;
    if v > 0 {
      var i := c.order[v - 1];
      assert s'.book.clients[a].buf == i;
      forall j: nat | j < 32 && j != i && BufAt(c, j).refcnt == 0 ensures times[i] < times[j] {
        VictimOldest(c, times, |ops|, i, j);
      }
    }
  }
}
