/** The slab allocator: pages cut into equal objects, an inline free list per page, and three lists of
    pages by how full they are. */
module Slab {
  import opened Counting

  const PAGE: nat := 4096
  const ROOM: nat := 4048            // bytes before the 48-byte header at the page tail
  const NIL: nat := 4096             // end of a free list; no object index reaches it

  /** One slab page.  `words[i]` is the first word of object `i`: a free-list link while the object is
      free, client data while it is live. */
  datatype Page = Page(total: nat, count: nat, head: nat, words: seq<nat>)

  datatype Cache = Cache(objSize: nat, pages: map<nat, Page>, full: seq<nat>, partial: seq<nat>, empty: seq<nat>,
      totalSize: nat)

  /** The free objects of every page, in list order. */
  type Free = map<nat, seq<nat>>

  // ----- one page -----

  ghost predicate Linked(words: seq<nat>, head: nat, s: seq<nat>)
    decreases |s|
  {
    if s == [] then head == NIL
    else head == s[0] && head < |words| && Linked(words, words[head], s[1..])
  }

  ghost predicate PageOk(p: Page, free: seq<nat>, objSize: nat) {
    && objSize >= 8 && p.total == ROOM / objSize && 0 < p.total < NIL && |p.words| == p.total
    && p.count == |free| && Linked(p.words, p.head, free) && Distinct(free) && (forall i | i in free :: i < p.total)
  }

  lemma {:induction false} LinkedFrame(w: seq<nat>, w': seq<nat>, head: nat, s: seq<nat>)
    requires Linked(w, head, s) && |w'| == |w| && forall i | i in s :: i < |w| ==> w'[i] == w[i]
    ensures Linked(w', head, s)
    decreases |s|
  {
    if s != [] {
      assert s[0] in s && forall i | i in s[1..] :: i in s;
      LinkedFrame(w, w', w[head], s[1..]);
    }
  }

  /** Distinct free objects are no more than all objects, and all of them are free exactly at the limit. */
  lemma {:induction false} FreeBound(s: seq<nat>, n: nat)
    requires Distinct(s) && forall i | i in s :: i < n
    ensures |s| <= n && (|s| == n ==> forall i: nat | i < n :: i in s)
    decreases n
  {
    if s != [] {
      assert s[0] in s;
      if n - 1 in s {
        var k :| 0 <= k < |s| && s[k] == n - 1;
        var t := s[..k] + s[k + 1..];
        forall i | i in t ensures i < n - 1 {
          var j :| 0 <= j < |t| && t[j] == i;
          var l := if j < k then j else j + 1;
          assert i == s[l] && s[l] in s && s[l] != s[k];
        }
        FreeBound(t, n - 1);
        forall i: nat | i < n && |s| == n ensures i in s { if i < n - 1 { assert i in t; } }
      } else {
        FreeBound(s, n - 1);
      }
    }
  }

  /** The objects below `n` that are not free. */
  ghost function Rest(s: seq<nat>, n: nat): set<nat> {
    set i: nat | i < n && i !in s
  }

  /** Free and other objects together are all objects. */
  lemma {:induction false} RestCount(s: seq<nat>, n: nat)
    requires Distinct(s) && forall i | i in s :: i < n
    ensures |Rest(s, n)| + |s| == n
    decreases n
  {
    if n == 0 {
      FreeBound(s, 0);
    } else if n - 1 in s {
      var k :| 0 <= k < |s| && s[k] == n - 1;
      var t := s[..k] + s[k + 1..];
      forall i ensures i in t <==> i in s && i != n - 1 {
        if i in s && i != n - 1 {
          var j :| 0 <= j < |s| && s[j] == i;
          assert t[if j < k then j else j - 1] == i;
        }
      }
      assert Rest(s, n) == Rest(t, n - 1);
      RestCount(t, n - 1);
    } else {
      assert Rest(s, n) == Rest(s, n - 1) + {n - 1};
      RestCount(s, n - 1);
    }
  }

  /** Object `i` of a page occupies these bytes of it. */
  function Start(objSize: nat, i: nat): nat {
    i * objSize
  }

  /** Objects do not overlap each other and stop short of the header. */
  lemma ObjectsApart(objSize: nat, total: nat, i: nat, j: nat)
    requires objSize > 0 && total == ROOM / objSize && i < total && j < total
    ensures Start(objSize, i) + objSize <= ROOM
    ensures i != j ==>
      Start(objSize, i) + objSize <= Start(objSize, j) || Start(objSize, j) + objSize <= Start(objSize, i)
    ensures i == j <==> Start(objSize, i) == Start(objSize, j)
  {
    ObjectEnds(objSize, total, i);
    if i < j { Spread(objSize, i, j); }
    if j < i { Spread(objSize, j, i); }
  }

  lemma {:induction false} Spread(n: nat, i: nat, j: nat)
    requires n > 0 && i < j
    ensures i * n + n <= j * n
    decreases j
  {
    assert j * n == (j - 1) * n + n;
    if i < j - 1 { Spread(n, i, j - 1); }
  }

  lemma ObjectEnds(objSize: nat, total: nat, i: nat)
    requires objSize > 0 && total == ROOM / objSize && i < total
    ensures i * objSize + objSize <= ROOM
  {
    assert total * objSize <= ROOM;
    Spread(objSize, i, total);
  }

  // ----- page operations -----

  /** `kmem_cache_grow`'s loop: link all objects, the last one first. */
  function NewPage(objSize: nat): Page
    requires objSize > 0
  {
    var n := ROOM / objSize;
    Page(n, n, if n == 0 then NIL else n - 1, seq(n, (i: nat) => if i == 0 then NIL else i - 1))
  }

  function CountDown(n: nat): (s: seq<nat>)
    ensures |s| == n && forall k | 0 <= k < n :: s[k] == n - 1 - k
  {
    seq(n, (k: nat) requires k < n => n - 1 - k)
  }

  lemma {:induction false} CountDownLinked(words: seq<nat>, n: nat)
    requires n <= |words| && forall i: nat | i < n :: words[i] == if i == 0 then NIL else i - 1
    ensures Linked(words, if n == 0 then NIL else n - 1, CountDown(n))
  {
    if n > 0 {
      CountDownLinked(words, n - 1);
      assert CountDown(n)[1..] == CountDown(n - 1);
    }
  }

  lemma NewPageOk(objSize: nat)
    requires 8 <= objSize <= ROOM
    ensures PageOk(NewPage(objSize), CountDown(ROOM / objSize), objSize)
  {
    var n := ROOM / objSize;
    assert 0 < n <= ROOM / 8 by { Quotient(objSize); }
    CountDownLinked(NewPage(objSize).words, n);
  }

  lemma Quotient(objSize: nat)
    requires 8 <= objSize <= ROOM
    ensures 0 < ROOM / objSize <= 506
  {
    var n := ROOM / objSize;
    assert n * objSize <= ROOM;
    assert n * objSize >= n * 8;
  }

  /** Take the first free object. */
  function PopObj(p: Page): (Page, nat) {
    var next := if p.head < |p.words| then p.words[p.head] else NIL;
    (p.(head := next, count := if p.count > 0 then p.count - 1 else 0), p.head)
  }

  lemma PopObjOk(p: Page, free: seq<nat>, objSize: nat)
    requires PageOk(p, free, objSize) && p.count > 0
    ensures PopObj(p).1 == free[0] && PageOk(PopObj(p).0, free[1..], objSize)
  {
    assert forall i | i in free[1..] :: i in free;
  }

  /** Push an object. */
  function PushObj(p: Page, i: nat): Page {
    p.(words := if i < |p.words| then p.words[i := p.head] else p.words, head := i, count := p.count + 1)
  }

  lemma PushObjOk(p: Page, free: seq<nat>, objSize: nat, i: nat)
    requires PageOk(p, free, objSize) && i < p.total && i !in free
    ensures PageOk(PushObj(p, i), [i] + free, objSize) && |free| < p.total
  {
    var p' := PushObj(p, i);
    LinkedFrame(p.words, p'.words, p.head, free);
    assert ([i] + free)[1..] == free;
    FreeBound([i] + free, p.total);
  }

  /** A client changing a live object leaves the free list alone. */
  lemma ClientWriteOk(p: Page, free: seq<nat>, objSize: nat, i: nat, v: nat)
    requires PageOk(p, free, objSize) && i < p.total && i !in free
    ensures PageOk(p.(words := p.words[i := v]), free, objSize)
  {
    LinkedFrame(p.words, p.words[i := v], p.head, free);
  }

  // ----- a cache -----

  predicate IsFull(p: Page) {
    p.count == 0
  }

  predicate IsEmpty(p: Page) {
    p.count == p.total
  }

  /** Page `g` is on exactly the list its free count dictates. */
  ghost predicate ListOk(c: Cache, g: nat) {
    && (g in c.full <==> g in c.pages && IsFull(c.pages[g]))
    && (g in c.empty <==> g in c.pages && IsEmpty(c.pages[g]))
    && (g in c.partial <==> g in c.pages && !IsFull(c.pages[g]) && !IsEmpty(c.pages[g]))
  }

  ghost predicate Inv(c: Cache, free: Free) {
    && c.objSize >= 8 && free.Keys == c.pages.Keys && c.totalSize == PAGE * |c.pages|
    && Distinct(c.full) && Distinct(c.partial) && Distinct(c.empty)
    && (forall g: nat {:trigger ListOk(c, g)} :: ListOk(c, g))
    && (forall g: nat {:trigger PageOk(c.pages[g], free[g], c.objSize)} | g in c.pages ::
          PageOk(c.pages[g], free[g], c.objSize))
  }

  /** The objects handed out and not yet returned. */
  ghost predicate Live(c: Cache, free: Free, g: nat, i: nat) {
    g in c.pages && g in free && i < c.pages[g].total && i !in free[g]
  }

  function IndexOf(s: seq<nat>, g: nat): (k: nat)
    ensures k <= |s| && (k < |s| ==> s[k] == g) && (k == |s| <==> g !in s)
  {
    if s == [] then 0
    else if s[0] == g then 0
    else
      assert forall x :: x in s <==> x == s[0] || x in s[1..];
      1 + IndexOf(s[1..], g)
  }

  /** The list without `g`. */
  function Remove(s: seq<nat>, g: nat): seq<nat> {
    var k := IndexOf(s, g);
    if k < |s| then s[..k] + s[k + 1..] else s
  }

  lemma RemoveIs(s: seq<nat>, g: nat)
    requires Distinct(s)
    ensures Distinct(Remove(s, g)) && forall x :: x in Remove(s, g) <==> x in s && x != g
  {
    var k, r := IndexOf(s, g), Remove(s, g);
    if k < |s| {
      assert forall i | 0 <= i < |r| :: r[i] == s[if i < k then i else i + 1];
      forall x ensures x in r <==> x in s && x != g {
        if x in s && x != g {
          var i :| 0 <= i < |s| && s[i] == x;
          assert r[if i < k then i else i - 1] == x;
        }
      }
    }
  }

  lemma AppendDistinct(s: seq<nat>, g: nat)
    requires Distinct(s) && g !in s
    ensures Distinct(s + [g])
  {
  }

  // ----- cache operations -----

  datatype Kind = Full | Partial | Empty

  function KindOf(p: Page): Kind {
    if p.count == 0 then Full else if p.count == p.total then Empty else Partial
  }

  function ListOf(c: Cache, k: Kind): seq<nat> {
    match k
    case Full => c.full
    case Partial => c.partial
    case Empty => c.empty
  }

  function SetList(c: Cache, k: Kind, s: seq<nat>): Cache {
    match k
    case Full => c.(full := s)
    case Partial => c.(partial := s)
    case Empty => c.(empty := s)
  }

  /** Replace page `g` by `p`; when its kind changes, `list_del` it and `list_add_tail` it elsewhere. */
  function Relist(c: Cache, g: nat, p: Page): Cache {
    if g !in c.pages then c
    else
      var was, now := KindOf(c.pages[g]), KindOf(p);
      var c1 := c.(pages := c.pages[g := p]);
      if was == now then c1
      else
        var c2 := SetList(c1, was, Remove(ListOf(c1, was), g));
        SetList(c2, now, ListOf(c2, now) + [g])
  }

  ghost predicate ListsOk(c: Cache) {
    && Distinct(c.full) && Distinct(c.partial) && Distinct(c.empty)
    && (forall g: nat {:trigger ListOk(c, g)} :: ListOk(c, g))
  }

  /** The lists after a move: `g` leaves the one and joins the other. */
  lemma MovedLists(c: Cache, g: nat, was: Kind, now: Kind, k: Kind)
    requires Distinct(ListOf(c, was)) && Distinct(ListOf(c, k)) && was != now && (g in ListOf(c, k) ==> k == was)
    ensures var c2 := SetList(c, was, Remove(ListOf(c, was), g)); var c' := SetList(c2, now, ListOf(c2, now) + [g]);
      && c'.pages == c.pages && Distinct(ListOf(c', k))
      && forall x :: x in ListOf(c', k) <==> (x in ListOf(c, k) && x != g) || (k == now && x == g)
  {
    RemoveIs(ListOf(c, was), g);
    AppendDistinct(if k == was then Remove(ListOf(c, was), g) else ListOf(c, k), g);
  }

  lemma RelistLists(c: Cache, g: nat, p: Page)
    requires ListsOk(c) && g in c.pages && p.total > 0 && c.pages[g].total > 0
    ensures ListsOk(Relist(c, g, p))
  {
    var c' := Relist(c, g, p);
    assert ListOk(c, g);
    var was, now := KindOf(c.pages[g]), KindOf(p);
    if was != now {
      var c1 := c.(pages := c.pages[g := p]);
      MovedLists(c1, g, was, now, Full);
      MovedLists(c1, g, was, now, Partial);
      MovedLists(c1, g, was, now, Empty);
    }
    forall x: nat ensures ListOk(c', x) { assert ListOk(c, x); }
  }

  lemma RelistKeeps(c: Cache, free: Free, g: nat, p: Page, f: seq<nat>)
    requires Inv(c, free) && g in c.pages && PageOk(p, f, c.objSize)
    ensures Inv(Relist(c, g, p), free[g := f])
  {
    assert PageOk(c.pages[g], free[g], c.objSize);
    RelistLists(c, g, p);
    RelistPages(c, g, p);
    SwapKeeps(c, Relist(c, g, p), free, g, p, f);
  }

  lemma RelistPages(c: Cache, g: nat, p: Page)
    requires g in c.pages
    ensures var c' := Relist(c, g, p);
      c'.pages == c.pages[g := p] && c'.objSize == c.objSize && c'.totalSize == c.totalSize
  {
  }

  /** One page replaced by a sound one, with the lists in order again. */
  lemma SwapKeeps(c: Cache, c': Cache, free: Free, g: nat, p: Page, f: seq<nat>)
    requires Inv(c, free) && g in c.pages && PageOk(p, f, c.objSize) && ListsOk(c')
    requires c'.pages == c.pages[g := p] && c'.objSize == c.objSize && c'.totalSize == c.totalSize
    ensures Inv(c', free[g := f])
  {
    var free' := free[g := f];
    assert c'.pages.Keys == c.pages.Keys;
    assert |c'.pages| == |c'.pages.Keys| && |c.pages| == |c.pages.Keys|;
    forall x: nat | x in c'.pages
      ensures PageOk(c'.pages[x], free'[x], c'.objSize)
    {
      if x != g { assert PageOk(c.pages[x], free[x], c.objSize); }
    }
  }

  /** `kmem_cache_grow` with page `g` from the page allocator; an object too large for a page fails. */
  function Grow(c: Cache, g: nat): Cache {
    if c.objSize == 0 || ROOM / c.objSize == 0 then c
    else c.(pages := c.pages[g := NewPage(c.objSize)], empty := c.empty + [g], totalSize := c.totalSize + PAGE)
  }

  lemma GrowKeeps(c: Cache, free: Free, g: nat)
    requires Inv(c, free) && g !in c.pages && c.objSize <= ROOM
    ensures Inv(Grow(c, g), free[g := CountDown(ROOM / c.objSize)])
  {
    var c', free' := Grow(c, g), free[g := CountDown(ROOM / c.objSize)];
    NewPageOk(c.objSize);
    GrowLists(c, c', g, NewPage(c.objSize));
    GrowPages(c, c', free, free', g);
  }

  lemma GrowPages(c: Cache, c': Cache, free: Free, free': Free, g: nat)
    requires Inv(c, free) && g !in c.pages && g in c'.pages && g in free' && c'.objSize == c.objSize
    requires c'.pages == c.pages[g := c'.pages[g]] && free' == free[g := free'[g]]
    requires PageOk(c'.pages[g], free'[g], c.objSize)
    ensures c'.pages.Keys == free'.Keys && forall x: nat | x in c'.pages :: PageOk(c'.pages[x], free'[x], c'.objSize)
  {
    forall x: nat | x in c'.pages
      ensures PageOk(c'.pages[x], free'[x], c'.objSize)
    {
      if x != g { assert PageOk(c.pages[x], free[x], c.objSize); }
    }
  }

  lemma GrowLists(c: Cache, c': Cache, g: nat, p: Page)
    requires ListsOk(c) && g !in c.pages && p.count == p.total > 0
    requires c' == c.(pages := c.pages[g := p], empty := c.empty + [g], totalSize := c'.totalSize)
    ensures ListsOk(c')
  {
    assert ListOk(c, g);
    AppendDistinct(c.empty, g);
    forall x: nat ensures ListOk(c', x) { assert ListOk(c, x); }
  }

  datatype Where = At(page: nat, obj: nat) | Nowhere

  /** The page `kmem_cache_alloc` looks at first. */
  function Choose(c: Cache): Where {
    if c.partial != [] then At(c.partial[0], 0) else if c.empty != [] then At(c.empty[0], 0) else Nowhere
  }

  /** `kmem_cache_alloc` without growing. */
  function Alloc(c: Cache): (Cache, Where) {
    var w := Choose(c);
    if w.Nowhere? || w.page !in c.pages || c.pages[w.page].count == 0 then (c, Nowhere)
    else
      var (p, i) := PopObj(c.pages[w.page]);
      (Relist(c, w.page, p), At(w.page, i))
  }

  ghost function FreeAfterAlloc(c: Cache, free: Free): Free {
    var w := Choose(c);
    if w.At? && w.page in free && free[w.page] != [] then free[w.page := free[w.page][1..]] else free
  }

  /** Page `g` lost the first of its free objects: exactly that one becomes live. */
  lemma LiveTaken(c: Cache, c': Cache, free: Free, g: nat, p: Page)
    requires g in c.pages && g in free && free[g] != [] && Distinct(free[g]) && free[g][0] < c.pages[g].total
    requires c'.pages == c.pages[g := p] && p.total == c.pages[g].total
    ensures forall x, i :: Live(c', free[g := free[g][1..]], x, i) <==>
      Live(c, free, x, i) || (x == g && i == free[g][0])
  {
    var f, free' := free[g], free[g := free[g][1..]];
    forall x, i
      ensures Live(c', free', x, i) <==> Live(c, free, x, i) || (x == g && i == f[0])
    {
      if x == g { FirstFree(f, i); }
    }
  }

  lemma FirstFree(f: seq<nat>, i: nat)
    requires f != [] && Distinct(f)
    ensures i in f[1..] <==> i in f && i != f[0]
  {
    assert f == [f[0]] + f[1..];
  }

  /** Page `g` got object `i` back: exactly that one is live no more. */
  lemma LiveGiven(c: Cache, c': Cache, free: Free, g: nat, p: Page, i: nat)
    requires g in c.pages && g in free && c'.pages == c.pages[g := p] && p.total == c.pages[g].total
    ensures forall x, j :: Live(c', free[g := [i] + free[g]], x, j) <==> Live(c, free, x, j) && !(x == g && j == i)
  {
  }

  /** Without growing, allocation fails exactly when every page is full; otherwise it hands out an
      object that was free, and exactly that object becomes live. */
  lemma AllocKeeps(c: Cache, free: Free)
    requires Inv(c, free)
    ensures var (c', w) := Alloc(c); var free' := FreeAfterAlloc(c, free);
      && Inv(c', free') && (w.Nowhere? <==> forall g | g in c.pages :: IsFull(c.pages[g])) && (w.Nowhere? ==> c' == c)
      && (w.At? ==> w.page in c.pages && w.obj < c.pages[w.page].total && !Live(c, free, w.page, w.obj))
      && (w.At? && IsEmpty(c.pages[w.page]) ==> forall g | g in c.pages :: IsFull(c.pages[g]) || IsEmpty(c.pages[g]))
      && (forall g, i :: Live(c', free', g, i) <==> Live(c, free, g, i) || (w.At? && g == w.page && i == w.obj))
      && c'.objSize == c.objSize && c'.pages.Keys == c.pages.Keys
      && forall g | g in c.pages :: c'.pages[g].total == c.pages[g].total
  {
    var w := Choose(c);
    if w.At? {
      var g := w.page;
      assert g in c.partial || g in c.empty;
      assert ListOk(c, g);
      assert PageOk(c.pages[g], free[g], c.objSize);
      PopObjOk(c.pages[g], free[g], c.objSize);
      RelistKeeps(c, free, g, PopObj(c.pages[g]).0, free[g][1..]);
      RelistPages(c, g, PopObj(c.pages[g]).0);
      LiveTaken(c, Relist(c, g, PopObj(c.pages[g]).0), free, g, PopObj(c.pages[g]).0);
      forall x | x in c.pages && c.partial == [] ensures IsFull(c.pages[x]) || IsEmpty(c.pages[x]) {
        assert ListOk(c, x);
      }
    } else {
      forall g | g in c.pages ensures IsFull(c.pages[g]) { assert ListOk(c, g); }
    }
  }

  /** `kmem_cache_free` of object `i` of page `g`; freeing an object that is already free does nothing. */
  function Release(c: Cache, g: nat, i: nat, f: seq<nat>): Cache {
    if g !in c.pages || i in f then c else Relist(c, g, PushObj(c.pages[g], i))
  }

  ghost function FreeAfterRelease(free: Free, g: nat, i: nat): Free {
    if g !in free || i in free[g] then free else free[g := [i] + free[g]]
  }

  /** A live object becomes free, and nothing else changes; a repeated free changes nothing at all; and
      the count never exceeds the total, so neither panic is reachable. */
  lemma ReleaseKeeps(c: Cache, free: Free, g: nat, i: nat)
    requires Inv(c, free) && g in c.pages && i < c.pages[g].total
    ensures var c' := Release(c, g, i, free[g]); var free' := FreeAfterRelease(free, g, i);
      && Inv(c', free') && (!Live(c, free, g, i) ==> c' == c && free' == free)
      && (Live(c, free, g, i) ==> c.pages[g].count + 1 <= c.pages[g].total)
      && (forall x, j :: Live(c', free', x, j) <==> Live(c, free, x, j) && !(x == g && j == i))
      && c'.objSize == c.objSize && c'.pages.Keys == c.pages.Keys
      && forall x | x in c.pages :: c'.pages[x].total == c.pages[x].total
  {
    assert PageOk(c.pages[g], free[g], c.objSize);
    if i !in free[g] {
      PushObjOk(c.pages[g], free[g], c.objSize, i);
      RelistKeeps(c, free, g, PushObj(c.pages[g], i), [i] + free[g]);
      RelistPages(c, g, PushObj(c.pages[g], i));
      LiveGiven(c, Relist(c, g, PushObj(c.pages[g], i)), free, g, PushObj(c.pages[g], i), i);
    }
  }

  /** `kmem_cache_reap`: give back the first page whose objects are all free. */
  function Reap(c: Cache): (Cache, Where) {
    if c.empty == [] || c.empty[0] !in c.pages || !IsEmpty(c.pages[c.empty[0]]) then (c, Nowhere)
    else (c.(pages := c.pages - {c.empty[0]}, empty := Remove(c.empty, c.empty[0]),
        totalSize := if c.totalSize >= PAGE then c.totalSize - PAGE else 0), At(c.empty[0], 0))
  }

  /** Only a page without live objects is given back, and no live object is affected. */
  lemma ReapKeeps(c: Cache, free: Free)
    requires Inv(c, free)
    ensures var (c', w) := Reap(c);
      && (w.Nowhere? <==> c.empty == []) && (w.Nowhere? ==> c' == c)
      && (w.At? ==> w.page in c.pages && Inv(c', free - {w.page}) && c'.totalSize == c.totalSize - PAGE)
      && (w.At? ==> forall i :: !Live(c, free, w.page, i))
      && (w.At? ==> forall g, i :: Live(c', free - {w.page}, g, i) <==> Live(c, free, g, i))
  {
    if c.empty != [] {
      var g := c.empty[0];
      assert g in c.empty;
      assert ListOk(c, g);
      var (c', w) := Reap(c);
      assert PageOk(c.pages[g], free[g], c.objSize);
      FreeBound(free[g], c.pages[g].total);
      RemoveIs(c.empty, g);
      assert c'.pages.Keys == c.pages.Keys - {g};
      forall x: nat ensures ListOk(c', x) { assert ListOk(c, x); }
      forall x: nat | x in c'.pages
        ensures PageOk(c'.pages[x], (free - {g})[x], c'.objSize)
      {
        assert PageOk(c.pages[x], free[x], c.objSize);
      }
    }
  }
}
