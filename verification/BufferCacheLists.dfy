/** The buffer cache as it relinks its doubly linked list and updates its buffers in place. */
module BufferCacheLists {
  import opened Blocks
  import opened BufferCache
  import opened BufferCacheRuns
  import L = Lists

  const HEAD: nat := 32

  lemma ListAll(order: seq<nat>)
    requires |order| == 32 && forall k: nat | k < 32 :: order[k] == 31 - k
    ensures order == seq(32, (k: nat) requires k < 32 => 31 - k) && forall x :: x in order <==> 0 <= x < 32
  {
    forall x | 0 <= x < 32 ensures x in order { assert order[31 - x] == x; }
  }

  class Bcache {
    var bufs: seq<Buf>
    var links: L.Links
    var disk: map<nat, Block>
    ghost var order: seq<nat>
    ghost var book: Book

    ghost function Now(): Cache
      reads this
    {
      Cache(bufs, order, disk)
    }

    ghost function State(): Sys
      reads this
    {
      Sys(Now(), book)
    }

    /** The links spell out the order, and the protocol invariant holds. */
    ghost predicate Valid()
      reads this
    {
      && |links.next| == |links.prev| == 33 && L.Holds(links, HEAD, order) && Inv(State())
    }

    /** `binit`. */
    constructor (disk0: map<nat, Block>)
      ensures Valid() && Initial(State()) && disk == disk0
    {
      bufs := seq(32, _ => Buf(0, 0, false, 0, -1, ZeroBlock()));
      links := L.Links(seq(33, _ => 0), seq(33, _ => 0));
      disk := disk0;
      order, book := [], Book(map[], {}, {});
      new;
      links := L.Init(links, HEAD);
      L.InitHolds(L.Links(seq(33, _ => 0), seq(33, _ => 0)), HEAD);
      var i := 0;
      while i < 32
        invariant 0 <= i <= 32 && |links.next| == |links.prev| == 33 && L.Holds(links, HEAD, order)
        invariant |order| == i && (forall k: nat | k < i :: order[k] == i - 1 - k)
        modifies `links, `order
      {
        L.AddFrontHolds(links, i, HEAD, order);
        links := L.AddFront(links, i, HEAD);
        order := [i] + order;
        i := i + 1;
      }
      ListAll(order);
      book := Book(map[], set x | x in order, {});
      InitialInv(State());
    }

    /** The forward scan of `bget`: the position of the first buffer with the key. */
    method Scan(dev: nat, blk: nat) returns (i: nat, ghost k: nat)
      requires Valid()
      ensures k == Find(Now(), dev, blk, 0) && (i == HEAD <==> k == 32) && (k < 32 ==> i == order[k])
    {
      i, k := L.Next(links, HEAD), 0;
      L.EmptyIff(links, HEAD, order);
      while i != HEAD
        invariant 0 <= k <= 32 && Find(Now(), dev, blk, k) == Find(Now(), dev, blk, 0)
        invariant i == if k < 32 then order[k] else HEAD
        decreases 32 - k
      {
        if bufs[i].blk == blk && bufs[i].dev == dev { return; }
        L.Neighbours(links, HEAD, order, k);
        i, k := L.Next(links, i), k + 1;
      }
    }

    /** The backward scan of `bget`: the least recently used unreferenced buffer. */
    method ScanBack() returns (i: nat, ghost v: nat)
      requires Valid()
      ensures v == Victim(Now(), 32) && (i == HEAD <==> v == 0) && (v > 0 ==> i == order[v - 1])
    {
      i, v := L.Prev(links, HEAD), 32;
      L.EmptyIff(links, HEAD, order);
      while i != HEAD
        invariant 0 <= v <= 32 && Victim(Now(), v) == Victim(Now(), 32) && i == if v > 0 then order[v - 1] else HEAD
        decreases v
      {
        if bufs[i].refcnt == 0 { return; }
        L.Neighbours(links, HEAD, order, v - 1);
        i, v := L.Prev(links, i), v - 1;
      }
    }

    /** `bget` up to the sleep lock, for client `a`. */
    method Bget(ghost a: nat, dev: nat, blk: nat) returns (i: int)
      requires Valid() && a !in book.clients
      modifies this
      ensures Valid() && State() == GetStep(old(State()), a, dev, blk) && i == BufferCache.Bget(old(Now()), dev, blk).1
      ensures i >= 0 ==> a in book.clients && book.clients[a].buf == i && Matches(bufs[i], dev, blk)
    {
      ghost var s := State();
      GetKeeps(s, a, dev, blk);
      var j, k := Scan(dev, blk);
      if j != HEAD {
        book := GetStep(s, a, dev, blk).book;
        bufs := bufs[j := bufs[j].(refcnt := bufs[j].refcnt + 1)];
        return j;
      }
      var x, v := ScanBack();
      if x != HEAD {
        book := GetStep(s, a, dev, blk).book;
        bufs := bufs[x := bufs[x].(blk := blk, dev := dev, valid := false, refcnt := bufs[x].refcnt + 1)];
        return x;
      }
      i := -1;
    }

    /** The second half of `brelse`, for a client that has released the sleep lock. */
    method DropRef(ghost a: nat, i: nat)
      requires Valid() && a in book.clients && book.clients[a].stage == Releasing && book.clients[a].buf == i
      modifies this
      ensures Valid() && State() == DropStep(old(State()), a)
    {
      ghost var s := State();
      DropKeeps(s, a);
      assert ClientOk(s, a) && BufOk(s, i) && a in ClientsOn(s.book, i);
      bufs := bufs[i := bufs[i].(refcnt := bufs[i].refcnt - 1)];
      if bufs[i].refcnt == 0 { MoveToFront(i); }
      book := DropStep(s, a).book;
    }

    /** Unlink a buffer and relink it after the head. */
    method MoveToFront(i: nat)
      requires |links.next| == |links.prev| == 33 && L.Holds(links, HEAD, order) && OrderOk(order) && i < 32
      modifies `links, `order
      ensures |links.next| == |links.prev| == 33 && L.Holds(links, HEAD, order) && order == ToFront(old(order), i)
    {
      ToFrontIs(order, i);
      ghost var k :| 0 <= k < |order| && order[k] == i && ToFront(order, i) == [i] + (order[..k] + order[k + 1..]);
      L.UnlinkHolds(links, HEAD, order, k);
      links := L.Unlink(links, i);
      assert i !in L.Without(order, k);
      L.AddFrontHolds(links, i, HEAD, L.Without(order, k));
      links := L.AddFront(links, i, HEAD);
      order := ToFront(order, i);
    }

    /** The rest of `bread`, once client `a` holds the sleep lock of buffer `i`. */
    method Load(ghost a: nat, i: nat)
      requires Valid() && Holds(State(), a) && book.clients[a].buf == i
      modifies this
      ensures Valid() && Ready(State(), a)
      ensures State() == if BufAt(old(Now()), i).valid then old(State()) else LoadStep(old(State()), a)
    {
      ghost var s := State();
      assert ClientOk(s, a);
      if !bufs[i].valid {
        LoadKeeps(s, a);
        bufs := bufs[i := bufs[i].(valid := true, data := DiskAt(disk, bufs[i].blk))];
        book := LoadStep(s, a).book;
      }
    }

    /** `bwrite` by client `a`, which holds the sleep lock of buffer `i`. */
    method Bwrite(ghost a: nat, i: nat)
      requires Valid() && Ready(State(), a) && book.clients[a].buf == i
      modifies this
      ensures Valid() && State() == WriteStep(old(State()), a) && disk == old(disk)[bufs[i].blk := bufs[i].data]
    {
      ghost var s := State();
      assert ClientOk(s, a);
      WriteKeeps(s, a);
      disk := disk[bufs[i].blk := bufs[i].data];
      book := WriteStep(s, a).book;
    }
  }
}
