/** The LRU buffer cache: 32 buffers, looked up by (device, block), recycled from the least recently
    used end, and shared by clients that lock, read, write and release them concurrently. */
module BufferCache {
  import opened Blocks
  import opened Counting

  /** `holder` is the client that holds the sleep lock, or -1. */
  datatype Buf = Buf(dev: nat, blk: nat, valid: bool, refcnt: nat, holder: int, data: Block)

  /** `order` lists the buffers from most to least recently used. */
  datatype Cache = Cache(bufs: seq<Buf>, order: seq<nat>, disk: map<nat, Block>)

  datatype Stage = Waiting | Holding | Releasing

  /** One use of a buffer, from `bread` to `brelse`.  `dirty` means changed since the last `bwrite`. */
  datatype Client = Client(dev: nat, blk: nat, buf: nat, stage: Stage, dirty: bool)

  /** The clients, the buffers never used since initialisation, and the blocks whose buffer was released changed
      and has been neither written nor read again since. */
  datatype Book = Book(clients: map<nat, Client>, unused: set<nat>, unsaved: set<nat>)

  datatype Sys = Sys(cache: Cache, book: Book)

  function BufAt(c: Cache, i: nat): Buf {
    if i < |c.bufs| then c.bufs[i] else Buf(0, 0, false, 0, -1, ZeroBlock())
  }

  function SetBuf(c: Cache, i: nat, b: Buf): Cache {
    if i < |c.bufs| then c.(bufs := c.bufs[i := b]) else c
  }

  // ----- lookup and recycling -----

  predicate Matches(b: Buf, dev: nat, blk: nat) {
    b.blk == blk && b.dev == dev
  }

  /** The first position from `k` on, in list order, of a buffer with the key; the length if none. */
  function Find(c: Cache, dev: nat, blk: nat, k: nat): (r: nat)
    requires k <= |c.order|
    ensures k <= r <= |c.order| && (r < |c.order| ==> Matches(BufAt(c, c.order[r]), dev, blk))
    ensures forall j | k <= j < r :: !Matches(BufAt(c, c.order[j]), dev, blk)
    decreases |c.order| - k
  {
    if k == |c.order| then k
    else if Matches(BufAt(c, c.order[k]), dev, blk) then k
    else Find(c, dev, blk, k + 1)
  }

  /** One past the last position below `k` of an unreferenced buffer; 0 if none. */
  function Victim(c: Cache, k: nat): (r: nat)
    requires k <= |c.order|
    ensures r <= k && (r > 0 ==> BufAt(c, c.order[r - 1]).refcnt == 0)
    ensures forall j | r <= j < k :: BufAt(c, c.order[j]).refcnt != 0
  {
    if k == 0 then 0
    else if BufAt(c, c.order[k - 1]).refcnt == 0 then k
    else Victim(c, k - 1)
  }

  /** `bget` up to the sleep lock: the buffer for the block with one more reference, or -1. */
  function Bget(c: Cache, dev: nat, blk: nat): (Cache, int) {
    var k := Find(c, dev, blk, 0);
    if k < |c.order| then
      var i := c.order[k];
      (SetBuf(c, i, BufAt(c, i).(refcnt := BufAt(c, i).refcnt + 1)), i as int)
    else
      var v := Victim(c, |c.order|);
      if v == 0 then (c, -1 as int)
      else
        var i := c.order[v - 1];
        (SetBuf(c, i, BufAt(c, i).(blk := blk, dev := dev, valid := false, refcnt := BufAt(c, i).refcnt + 1)), i as int)
  }

  /** The list without `i`, then with `i` in front. */
  function ToFront(order: seq<nat>, i: nat): seq<nat> {
    if exists k :: 0 <= k < |order| && order[k] == i then
      Moved(order, PosOf(order, i))
    else order
  }

  /** The element at `k` in front, the others as they were. */
  function Moved(order: seq<nat>, k: nat): seq<nat>
    requires k < |order|
  {
    [order[k]] + (order[..k] + order[k + 1..])
  }

  function PosOf(order: seq<nat>, i: nat): (k: nat)
    requires exists k :: 0 <= k < |order| && order[k] == i
    ensures k < |order| && order[k] == i
  {
    if order[0] == i then 0 else
    assert exists k :: 0 <= k < |order[1..]| && order[1..][k] == i by {
      var k :| 0 <= k < |order| && order[k] == i;
      assert order[1..][k - 1] == i;
    }
    1 + PosOf(order[1..], i)
  }

  /** The second half of `brelse`: drop a reference, and on the last one move the buffer to the front. */
  function Drop(c: Cache, i: nat): Cache {
    var b := BufAt(c, i);
    var n := if b.refcnt > 0 then b.refcnt - 1 else 0;
    var c1 := SetBuf(c, i, b.(refcnt := n));
    if n == 0 then c1.(order := ToFront(c.order, i)) else c1
  }

  // ----- steps -----

  ghost function GetStep(s: Sys, a: nat, dev: nat, blk: nat): Sys {
    var (c, i) := Bget(s.cache, dev, blk);
    if i < 0 then s
    else Sys(c, s.book.(clients := s.book.clients[a := Client(dev, blk, i, Waiting, false)],
        unused := s.book.unused - {i}))
  }

  ghost function Put(s: Sys, a: nat, cl: Client): Book {
    s.book.(clients := s.book.clients[a := cl])
  }

  ghost function LockStep(s: Sys, a: nat): Sys {
    if a !in s.book.clients then s else
    var cl := s.book.clients[a];
    Sys(SetBuf(s.cache, cl.buf, BufAt(s.cache, cl.buf).(holder := a)), Put(s, a, cl.(stage := Holding)))
  }

  /** The disk read of `bread`. */
  ghost function LoadStep(s: Sys, a: nat): Sys {
    if a !in s.book.clients then s else
    var cl := s.book.clients[a];
    var b := BufAt(s.cache, cl.buf);
    Sys(SetBuf(s.cache, cl.buf, b.(valid := true, data := DiskAt(s.cache.disk, b.blk))),
        s.book.(unsaved := s.book.unsaved - {b.blk}))
  }

  ghost function ModifyStep(s: Sys, a: nat, data: Block): Sys {
    if a !in s.book.clients then s else
    var cl := s.book.clients[a];
    Sys(SetBuf(s.cache, cl.buf, BufAt(s.cache, cl.buf).(data := data)), Put(s, a, cl.(dirty := true)))
  }

  /** `bwrite`. */
  ghost function WriteStep(s: Sys, a: nat): Sys {
    if a !in s.book.clients then s else
    var cl := s.book.clients[a];
    var b := BufAt(s.cache, cl.buf);
    Sys(s.cache.(disk := s.cache.disk[b.blk := b.data]),
        Put(s, a, cl.(dirty := false)).(unsaved := s.book.unsaved - {b.blk}))
  }

  /** The first half of `brelse`: release the sleep lock. */
  ghost function UnlockStep(s: Sys, a: nat): Sys {
    if a !in s.book.clients then s else
    var cl := s.book.clients[a];
    var b := BufAt(s.cache, cl.buf);
    Sys(SetBuf(s.cache, cl.buf, b.(holder := -1)),
        Put(s, a, cl.(stage := Releasing, dirty := false)).(
          unsaved := if cl.dirty then s.book.unsaved + {b.blk} else s.book.unsaved))
  }

  ghost function DropStep(s: Sys, a: nat): Sys {
    if a !in s.book.clients then s else
    Sys(Drop(s.cache, s.book.clients[a].buf), s.book.(clients := s.book.clients - {a}))
  }

  // ----- the invariant -----

  ghost function ClientsOn(b: Book, i: nat): set<nat> {
    set a | a in b.clients && b.clients[a].buf == i
  }

  /** Buffer `i`: the reference count is the number of clients, and the key of a used buffer is only
      unprotected when its data is valid. */
  ghost predicate BufOk(s: Sys, i: nat) {
    var b := BufAt(s.cache, i);
    && b.refcnt == |ClientsOn(s.book, i)|
    && (i in s.book.unused ==> b.dev == 0 && b.blk == 0 && !b.valid && b.refcnt == 0)
    && (i !in s.book.unused ==> b.valid || b.refcnt > 0)
    && (b.holder >= 0 ==> b.holder in s.book.clients && s.book.clients[b.holder].buf == i)
    && (b.holder >= 0 ==> s.book.clients[b.holder].stage == Holding)
  }

  /** A client's buffer carries the client's key for as long as the client exists. */
  ghost predicate ClientOk(s: Sys, a: nat) {
    a in s.book.clients ==>
      var cl := s.book.clients[a];
      && cl.buf < 32 && cl.buf !in s.book.unused && Matches(BufAt(s.cache, cl.buf), cl.dev, cl.blk)
      && (cl.stage == Holding <==> BufAt(s.cache, cl.buf).holder == a) && (cl.dirty ==> cl.stage == Holding)
      && (cl.stage == Releasing ==> BufAt(s.cache, cl.buf).valid) && (cl.dirty ==> BufAt(s.cache, cl.buf).valid)
  }

  /** Used buffers have different keys; and a used buffer with the initial key comes before every
      buffer that still has it unused. */
  ghost predicate Unique(s: Sys, i: nat, j: nat) {
    && i < 32 && j < 32 && i != j && i !in s.book.unused
    && Matches(BufAt(s.cache, i), BufAt(s.cache, j).dev, BufAt(s.cache, j).blk) ==>
      j in s.book.unused && Before(s.cache.order, i, j)
  }

  ghost predicate Before(order: seq<nat>, i: nat, j: nat) {
    forall p, q | 0 <= p < |order| && 0 <= q < |order| && order[p] == i && order[q] == j :: p < q
  }

  ghost predicate OrderOk(order: seq<nat>) {
    |order| == 32 && Distinct(order) && (forall k | 0 <= k < 32 :: order[k] < 32)
  }

  ghost predicate Inv(s: Sys) {
    && |s.cache.bufs| == 32 && OrderOk(s.cache.order)
    && (forall i: nat {:trigger BufOk(s, i)} | i < 32 :: BufOk(s, i))
    && (forall a: nat {:trigger ClientOk(s, a)} :: ClientOk(s, a))
    && (forall i: nat, j: nat {:trigger Unique(s, i, j)} :: Unique(s, i, j))
  }

  // ----- list order -----

  lemma AllListed(order: seq<nat>, i: nat)
    requires OrderOk(order) && i < 32
    ensures i in order
  {
    if i !in order {
      DistinctCard(order, Below(32) - {i});
      assert false;
    }
  }

  ghost function Below(n: nat): (u: set<nat>)
    ensures |u| == n && forall x :: x in u <==> 0 <= x < n
  {
    if n == 0 then {} else Below(n - 1) + {n - 1}
  }

  /** Where the element at position `p` was before the one at `k` went to the front. */
  function Source(k: nat, p: nat): nat {
    if p == 0 then k else if p <= k then p - 1 else p
  }

  lemma MovedAt(order: seq<nat>, k: nat, p: nat)
    requires k < |order| && p < |order|
    ensures |Moved(order, k)| == |order| && Source(k, p) < |order| && Moved(order, k)[p] == order[Source(k, p)]
  {
  }

  lemma MovedOk(order: seq<nat>, k: nat)
    requires OrderOk(order) && k < |order|
    ensures OrderOk(Moved(order, k))
  {
    var t := Moved(order, k);
    forall p | 0 <= p < 32 ensures t[p] < 32 { MovedAt(order, k, p); }
    forall p, q | 0 <= p < q < 32 ensures t[p] != t[q] {
      MovedAt(order, k, p);
      MovedAt(order, k, q);
      assert Source(k, p) != Source(k, q);
    }
  }

  /** Two others keep their order. */
  lemma MovedBefore(order: seq<nat>, k: nat, x: nat, y: nat)
    requires k < |order| && x != order[k] && y != order[k] && Before(order, x, y)
    ensures Before(Moved(order, k), x, y)
  {
    var t := Moved(order, k);
    forall p, q | 0 <= p < |t| && 0 <= q < |t| && t[p] == x && t[q] == y ensures p < q {
      MovedAt(order, k, p);
      MovedAt(order, k, q);
      assert Source(k, p) < Source(k, q);
    }
  }

  /** The moved one is before all others. */
  lemma MovedFirst(order: seq<nat>, k: nat, y: nat)
    requires OrderOk(order) && k < |order| && y != order[k]
    ensures Before(Moved(order, k), order[k], y)
  {
    var t := Moved(order, k);
    MovedOk(order, k);
    forall p, q | 0 <= p < |t| && 0 <= q < |t| && t[p] == order[k] && t[q] == y ensures p < q {
      MovedAt(order, k, p);
      assert order[Source(k, p)] == order[k];
    }
  }

  lemma ToFrontIs(order: seq<nat>, i: nat)
    requires OrderOk(order) && i < 32
    ensures OrderOk(ToFront(order, i)) && ToFront(order, i)[0] == i
    ensures forall x, y | x != i && y != i && Before(order, x, y) :: Before(ToFront(order, i), x, y)
    ensures forall y | y != i :: Before(ToFront(order, i), i, y)
    ensures exists k :: 0 <= k < |order| && order[k] == i && ToFront(order, i) == Moved(order, k)
  {
    AllListed(order, i);
    var k := PosOf(order, i);
    MovedOk(order, k);
    forall x, y | x != i && y != i && Before(order, x, y) ensures Before(Moved(order, k), x, y) {
      MovedBefore(order, k, x, y);
    }
    forall y | y != i ensures Before(Moved(order, k), i, y) { MovedFirst(order, k, y); }
  }
}
