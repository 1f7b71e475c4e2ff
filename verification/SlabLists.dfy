/** A slab cache as it pushes and pops inline free lists and moves pages between linked lists. */
module SlabLists {
  import opened Counting
  import opened Slab
  import L = Lists

  /** Page `g` is node `g + 3`; nodes 0, 1 and 2 are the heads of the full, partial and empty lists. */
  function Nodes(s: seq<nat>): (r: seq<nat>)
    ensures |r| == |s| && forall i | 0 <= i < |s| :: r[i] == s[i] + 3
  {
    seq(|s|, (i: nat) requires i < |s| => s[i] + 3)
  }

  function HeadOf(k: Kind): nat {
    match k
    case Full => 0
    case Partial => 1
    case Empty => 2
  }

  /** The three lists spell out the cache's three sequences of pages. */
  ghost predicate Spelled(l: L.Links, c: Cache) {
    && |l.next| == |l.prev| && forall k: Kind {:trigger SpelledAt(l, c, k)} :: SpelledAt(l, c, k)
  }

  ghost predicate SpelledAt(l: L.Links, c: Cache, k: Kind) {
    L.Holds(l, HeadOf(k), Nodes(ListOf(c, k)))
  }

  /** No page is on two lists. */
  ghost predicate Apart(c: Cache) {
    forall j: Kind, k: Kind, g: nat {:trigger g in ListOf(c, j), g in ListOf(c, k)} | j != k && g in ListOf(c, j) ::
      g !in ListOf(c, k)
  }

  lemma InvApart(c: Cache, free: Free)
    requires Inv(c, free)
    ensures Apart(c)
  {
    forall j: Kind, k: Kind, g: nat | j != k && g in ListOf(c, j) ensures g !in ListOf(c, k) {
      assert ListOk(c, g);
      assert PageOk(c.pages[g], free[g], c.objSize);
    }
  }

  lemma NodeIn(s: seq<nat>, g: nat)
    ensures g + 3 in Nodes(s) <==> g in s
  {
    if g in s {
      var i :| 0 <= i < |s| && s[i] == g;
      assert Nodes(s)[i] == g + 3;
    }
  }

  lemma ApartNodes(c: Cache, j: Kind, k: Kind, n: nat)
    requires Apart(c) && j != k && (n == HeadOf(j) || n in Nodes(ListOf(c, j)))
    ensures n != HeadOf(k) && n !in Nodes(ListOf(c, k))
  {
    if n >= 3 {
      NodeIn(ListOf(c, j), n - 3);
      NodeIn(ListOf(c, k), n - 3);
    }
  }

  /** `list_del` of a page on list `k`. */
  lemma DelSpelled(l: L.Links, c: Cache, k: Kind, g: nat)
    requires Spelled(l, c) && Apart(c) && g in ListOf(c, k)
    ensures Spelled(L.Del(l, g + 3), SetList(c, k, Remove(ListOf(c, k), g))) && |L.Del(l, g + 3).next| == |l.next|
  {
    var s := ListOf(c, k);
    var i := IndexOf(s, g);
    var l', c' := L.Del(l, g + 3), SetList(c, k, Remove(s, g));
    assert SpelledAt(l, c, k);
    L.DelHolds(l, HeadOf(k), Nodes(s), i);
    NodesWithout(s, g);
    SetListAt(c, k, Remove(s, g), k);
    SetListOthers(c, k, Remove(s, g));
    OneListChanged(l, l', c, c', k);
  }

  lemma NodesWithout(s: seq<nat>, g: nat)
    requires g in s
    ensures L.Without(Nodes(s), IndexOf(s, g)) == Nodes(Remove(s, g))
  {
  }

  lemma SetListOthers(c: Cache, k: Kind, s: seq<nat>)
    ensures forall j: Kind | j != k :: ListOf(SetList(c, k, s), j) == ListOf(c, j)
  {
  }

  /** After a change confined to list `k`, which is spelled out again, all lists are. */
  lemma OneListChanged(l: L.Links, l': L.Links, c: Cache, c': Cache, k: Kind)
    requires Spelled(l, c) && Apart(c) && L.Size(l') == L.Size(l) && |l'.next| == |l'.prev| && SpelledAt(l', c', k)
    requires forall j: Kind | j != k :: ListOf(c', j) == ListOf(c, j)
    requires forall n | n != HeadOf(k) && n !in Nodes(ListOf(c, k)) ::
        L.Next(l', n) == L.Next(l, n) && L.Prev(l', n) == L.Prev(l, n)
    ensures Spelled(l', c')
  {
    forall j: Kind ensures SpelledAt(l', c', j) {
      if j != k { OtherList(l, l', c, j, k); }
    }
  }

  /** A change confined to one list leaves another spelled out. */
  lemma OtherList(l: L.Links, l': L.Links, c: Cache, j: Kind, k: Kind)
    requires Spelled(l, c) && Apart(c) && j != k && L.Size(l') == L.Size(l)
    requires forall n | n != HeadOf(k) && n !in Nodes(ListOf(c, k)) ::
        L.Next(l', n) == L.Next(l, n) && L.Prev(l', n) == L.Prev(l, n)
    ensures L.Holds(l', HeadOf(j), Nodes(ListOf(c, j)))
  {
    forall n | n == HeadOf(j) || n in Nodes(ListOf(c, j))
      ensures n != HeadOf(k) && n !in Nodes(ListOf(c, k))
    {
      ApartNodes(c, j, k, n);
    }
    assert SpelledAt(l, c, j);
    L.HoldsFrame(l, l', HeadOf(j), Nodes(ListOf(c, j)));
  }

  /** `list_add_tail` of a page that is on no list. */
  lemma AddSpelled(l: L.Links, c: Cache, k: Kind, g: nat)
    requires Spelled(l, c) && Apart(c) && g + 3 < |l.next| && (forall j: Kind :: g !in ListOf(c, j))
    ensures Spelled(L.AddTail(l, g + 3, HeadOf(k)), SetList(c, k, ListOf(c, k) + [g]))
    ensures |L.AddTail(l, g + 3, HeadOf(k)).next| == |l.next|
  {
    var s := ListOf(c, k);
    var l', c' := L.AddTail(l, g + 3, HeadOf(k)), SetList(c, k, s + [g]);
    NodeIn(s, g);
    assert SpelledAt(l, c, k);
    L.AddTailHolds(l, g + 3, HeadOf(k), Nodes(s));
    assert Nodes(s) + [g + 3] == Nodes(s + [g]);
    forall j: Kind ensures SpelledAt(l', c', j) {
      if j != k {
        var t := Nodes(ListOf(c, j));
        NodeIn(ListOf(c, j), g);
        forall n | n == HeadOf(j) || n in t
          ensures n != HeadOf(k) && n !in Nodes(s) && n != g + 3
        {
          ApartNodes(c, j, k, n);
        }
        assert SpelledAt(l, c, j);
        L.HoldsFrame(l, l', HeadOf(j), t);
      }
    }
  }

  /** Taking a page off its list leaves the others apart and the page on none. */
  lemma RemoveApart(c: Cache, k: Kind, g: nat)
    requires Apart(c) && Distinct(ListOf(c, k)) && g in ListOf(c, k)
    ensures var c' := SetList(c, k, Remove(ListOf(c, k), g)); Apart(c') && forall j: Kind :: g !in ListOf(c', j)
  {
    var c' := SetList(c, k, Remove(ListOf(c, k), g));
    RemoveIs(ListOf(c, k), g);
    forall j: Kind ensures forall x :: x in ListOf(c', j) <==> x in ListOf(c, j) && !(j == k && x == g) {}
  }

  /** Moving a page to the list of its new kind, as links and as sequences. */
  lemma MoveSpelled(l: L.Links, c: Cache, free: Free, g: nat, p: Page)
    requires Spelled(l, c) && Inv(c, free) && g in c.pages && g + 3 < |l.next| && KindOf(p) != KindOf(c.pages[g])
    ensures var l1 := L.Del(l, g + 3); var l2 := L.AddTail(l1, g + 3, HeadOf(KindOf(p)));
      Spelled(l2, Relist(c, g, p)) && |l2.next| == |l.next|
  {
    var was, now := KindOf(c.pages[g]), KindOf(p);
    assert Apart(c) && g in ListOf(c, was) && Distinct(ListOf(c, was)) by {
      InvApart(c, free);
      assert ListOk(c, g);
      assert PageOk(c.pages[g], free[g], c.objSize);
    }
    DelSpelled(l, c, was, g);
    RemoveApart(c, was, g);
    var c1 := SetList(c, was, Remove(ListOf(c, was), g));
    AddSpelled(L.Del(l, g + 3), c1, now, g);
    var c2 := SetList(c1, now, ListOf(c1, now) + [g]);
    RelistIs(c, g, p);
    SameSpelled(L.AddTail(L.Del(l, g + 3), g + 3, HeadOf(now)), c2, Relist(c, g, p));
  }

  /** The links of page `g` once it is `p`. */
  function Relink(l: L.Links, was: Kind, now: Kind, g: nat): L.Links {
    if was != now then L.AddTail(L.Del(l, g + 3), g + 3, HeadOf(now)) else l
  }

  lemma RelinkSpelled(l: L.Links, c: Cache, free: Free, g: nat, p: Page)
    requires Spelled(l, c) && Inv(c, free) && g in c.pages && g + 3 < |l.next|
    ensures var l' := Relink(l, KindOf(c.pages[g]), KindOf(p), g); Spelled(l', Relist(c, g, p)) && |l'.next| == |l.next|
  {
    if KindOf(p) != KindOf(c.pages[g]) {
      MoveSpelled(l, c, free, g, p);
    } else {
      SameSpelled(l, c, Relist(c, g, p));
    }
  }

  lemma RelistIs(c: Cache, g: nat, p: Page)
    requires g in c.pages && KindOf(p) != KindOf(c.pages[g])
    ensures var was, now := KindOf(c.pages[g]), KindOf(p); var c1 := SetList(c, was, Remove(ListOf(c, was), g));
      forall k: Kind :: ListOf(Relist(c, g, p), k) == ListOf(SetList(c1, now, ListOf(c1, now) + [g]), k)
  {
    var was, now := KindOf(c.pages[g]), KindOf(p);
    forall k: Kind
      ensures ListOf(Relist(c, g, p), k) ==
        ListOf(SetList(SetList(c, was, Remove(ListOf(c, was), g)), now,
            ListOf(SetList(c, was, Remove(ListOf(c, was), g)), now) + [g]), k)
    {
      MovedList(c, was, now, g, k);
      MovedList(c.(pages := c.pages[g := p]), was, now, g, k);
    }
  }

  /** List `k` after `g` moved from list `was` to list `now`. */
  lemma MovedList(c: Cache, was: Kind, now: Kind, g: nat, k: Kind)
    requires was != now
    ensures var c1 := SetList(c, was, Remove(ListOf(c, was), g));
      ListOf(SetList(c1, now, ListOf(c1, now) + [g]), k) ==
        if k == now then ListOf(c, now) + [g] else if k == was then Remove(ListOf(c, was), g) else ListOf(c, k)
  {
    var s := Remove(ListOf(c, was), g);
    var c1 := SetList(c, was, s);
    SetListAt(c, was, s, k);
    SetListAt(c, was, s, now);
    SetListAt(c1, now, ListOf(c1, now) + [g], k);
  }

  lemma SetListAt(c: Cache, k: Kind, s: seq<nat>, j: Kind)
    ensures ListOf(SetList(c, k, s), j) == if j == k then s else ListOf(c, j)
  {
  }

  lemma SameSpelled(l: L.Links, c: Cache, c': Cache)
    requires Spelled(l, c) && forall k: Kind :: ListOf(c', k) == ListOf(c, k)
    ensures Spelled(l, c')
  {
    forall k: Kind ensures SpelledAt(l, c', k) { assert SpelledAt(l, c, k); }
  }

  /** The node `kmem_cache_alloc` finds: after the second head, else after the third, else none. */
  function FirstNode(l: L.Links): nat {
    if L.Next(l, 1) != 1 then L.Next(l, 1) else if L.Next(l, 2) != 2 then L.Next(l, 2) else 0
  }

  /** It is the node of the page to allocate from, which has a free object. */
  lemma FirstPage(l: L.Links, c: Cache, free: Free)
    requires Spelled(l, c) && Inv(c, free)
    ensures FirstNode(l) == if Choose(c).At? then Choose(c).page + 3 else 0
    ensures Choose(c).At? ==>
      var g := Choose(c).page;
      && g in c.pages && g in free && c.pages[g].count > 0 && free[g] != []
      && PopObj(c.pages[g]).1 == free[g][0] && PageOk(PopObj(c.pages[g]).0, free[g][1..], c.objSize)
  {
    assert SpelledAt(l, c, Partial) && SpelledAt(l, c, Empty);
    L.EmptyIff(l, 1, Nodes(c.partial));
    L.EmptyIff(l, 2, Nodes(c.empty));
    if Choose(c).At? {
      var g := Choose(c).page;
      assert g in (if c.partial != [] then c.partial else c.empty);
      assert ListOk(c, g);
      assert PageOk(c.pages[g], free[g], c.objSize);
      PopObjOk(c.pages[g], free[g], c.objSize);
    }
  }

  class KmemCache {
    const objSize: nat
    var pages: map<nat, Page>
    var links: L.Links
    var totalSize: nat
    ghost var full: seq<nat>
    ghost var partial: seq<nat>
    ghost var empty: seq<nat>
    ghost var free: Free

    ghost function Now(): Cache
      reads this
    {
      Cache(objSize, pages, full, partial, empty, totalSize)
    }

    ghost predicate Valid()
      reads this
    {
      Inv(Now(), free) && Spelled(links, Now()) && forall g | g in pages :: g + 3 < |links.next|
    }

    /** `kmem_cache_create` for object size `size`, with room for pages below `limit`. */
    constructor (size: nat, limit: nat)
      ensures Valid() && objSize == (if size < 8 then 8 else (size + 7) / 8 * 8) && pages == map[] && totalSize == 0
      ensures |links.next| == limit + 3
    {
      objSize := if size < 8 then 8 else (size + 7) / 8 * 8;
      pages, totalSize := map[], 0;
      full, partial, empty, free := [], [], [], map[];
      var l := L.Links(seq(limit + 3, _ => 0), seq(limit + 3, _ => 0));
      var l0 := L.Init(l, 0);
      var l1 := L.Init(l0, 1);
      var l2 := L.Init(l1, 2);
      links := l2;
      new;
      L.InitHolds(l, 0);
      L.InitHolds(l0, 1);
      L.InitHolds(l1, 2);
      L.HoldsFrame(l0, l1, 0, []);
      L.HoldsFrame(l1, l2, 0, []);
      L.HoldsFrame(l1, l2, 1, []);
      forall k: Kind ensures SpelledAt(links, Now(), k) { assert Nodes([]) == []; }
      forall g: nat ensures ListOk(Now(), g) {}
    }

    /** Replace page `g` and move it when its kind changes. */
    method Move(g: nat, p: Page, ghost f: seq<nat>)
      requires Valid() && g in pages && PageOk(p, f, objSize)
      modifies this
      ensures Valid() && Now() == Relist(old(Now()), g, p) && free == old(free)[g := f] && links.next != []
      ensures |links.next| == |old(links.next)|
    {
      ghost var c' := Relist(Now(), g, p);
      RelistKeeps(Now(), free, g, p, f);
      RelistPages(Now(), g, p);
      RelinkSpelled(links, Now(), free, g, p);
      var was, now := KindOf(pages[g]), KindOf(p);
      if was != now { links := L.AddTail(L.Del(links, g + 3), g + 3, HeadOf(now)); }
      pages := pages[g := p];
      full, partial, empty, free := c'.full, c'.partial, c'.empty, free[g := f];
      assert Now() == c';
    }

    /** The loop of `kmem_cache_grow` that links the objects of a new page. */
    method LinkObjects(n: nat) returns (head: nat, words: seq<nat>)
      ensures |words| == n && head == (if n == 0 then NIL else n - 1)
      ensures words == seq(n, (i: nat) => if i == 0 then NIL else i - 1)
    {
      head, words := NIL, [];
      var i := 0;
      while i < n
        invariant 0 <= i <= n && |words| == i && head == (if i == 0 then NIL else i - 1)
        invariant forall k: nat | k < i :: words[k] == if k == 0 then NIL else k - 1
      {
        words := words + [head];
        head := i;
        i := i + 1;
      }
    }

    /** `kmem_cache_grow` with page `g` from the page allocator; 0 when not even one object fits. */
    method GrowPage(g: nat) returns (size: nat)
      requires Valid() && g !in pages && g + 3 < |links.next|
      modifies this
      ensures Valid() && size == (if objSize <= ROOM then PAGE else 0) && |links.next| == |old(links.next)|
      ensures Now() == if objSize <= ROOM then Grow(old(Now()), g) else old(Now())
    {
      var n := ROOM / objSize;
      NoRoom(objSize);
      if n == 0 {
        return 0;
      }
      ghost var c := Now();
      GrowKeeps(c, free, g);
      InvApart(c, free);
      assert ListOk(c, g);
      assert forall k: Kind :: g !in ListOf(c, k);
      AddSpelled(links, c, Empty, g);
      var head, words := LinkObjects(n);
      assert NewPage(objSize) == Page(n, n, head, words);
      links := L.AddTail(links, g + 3, HeadOf(Empty));
      pages := pages[g := Page(n, n, head, words)];
      totalSize := totalSize + PAGE;
      empty := empty + [g];
      free := free[g := CountDown(n)];
      assert Now() == Grow(c, g);
      SameSpelled(links, SetList(c, Empty, ListOf(c, Empty) + [g]), Now());
      size := PAGE;
    }

    /** `kmem_cache_alloc` with the no-sleep flag: the first partial page, else the first empty one. */
    method AllocObj() returns (w: Where)
      requires Valid()
      modifies this
      ensures Valid() && (Now(), w) == Alloc(old(Now())) && free == FreeAfterAlloc(old(Now()), old(free))
      ensures |links.next| == |old(links.next)|
    {
      FirstPage(links, Now(), free);
      var node := 0;
      if L.Next(links, 1) != 1 {
        node := L.Next(links, 1);
      } else if L.Next(links, 2) != 2 {
        node := L.Next(links, 2);
      }
      if node == 0 { return Nowhere; }
      var g := node - 3;
      if pages[g].count == 0 { return Nowhere; }
      var (p, i) := PopObj(pages[g]);
      Move(g, p, free[g][1..]);
      w := At(g, i);
    }

    /** The double-free scan of `kmem_cache_free`. */
    method OnFreeList(g: nat, i: nat) returns (found: bool)
      requires Valid() && g in pages
      ensures found <==> i in free[g]
    {
      assert PageOk(pages[g], free[g], objSize);
      ghost var rest := free[g];
      var tmp := pages[g].head;
      while tmp != NIL
        invariant Linked(pages[g].words, tmp, rest) && (i in free[g] <==> i in rest) && (tmp == NIL <==> rest == [])
        invariant (forall x | x in rest :: x in free[g])
        decreases |rest|
      {
        assert rest[0] in rest;
        if tmp == i { return true; }
        assert forall x :: x in rest <==> x == rest[0] || x in rest[1..];
        assert rest[1..] != [] ==> rest[1..][0] in rest[1..];
        tmp := pages[g].words[tmp];
        rest := rest[1..];
      }
      found := false;
    }

    /** `kmem_cache_free` of object `i` of page `g`. */
    method FreeObj(g: nat, i: nat)
      requires Valid() && g in pages && i < pages[g].total
      modifies this
      ensures Valid() && Now() == Release(old(Now()), g, i, old(free)[g]) && free == FreeAfterRelease(old(free), g, i)
    {
      var found := OnFreeList(g, i);
      if found { return; }
      assert PageOk(pages[g], free[g], objSize);
      PushObjOk(pages[g], free[g], objSize, i);
      if pages[g].count + 1 > pages[g].total {
        assert false;
      }
      Move(g, PushObj(pages[g], i), [i] + free[g]);
    }

    /** `kmem_cache_reap`: unlink the first empty page and give it back. */
    method ReapPage() returns (w: Where)
      requires Valid()
      modifies this
      ensures Valid() && (Now(), w) == Reap(old(Now()))
    {
      ghost var c := Now();
      ReapIs(links, c, free);
      if L.Next(links, 2) == 2 { return Nowhere; }
      var g := L.Next(links, 2) - 3;
      if pages[g].count != pages[g].total { return Nowhere; }
      links := L.Del(links, g + 3);
      pages := pages - {g};
      totalSize := totalSize - PAGE;
      ghost var c' := Reap(c).0;
      empty, free := c'.empty, free - {g};
      w := At(g, 0);
    }
  }

  /** The first empty page, if any, is the node after the third head, and unlinking it reaps it. */
  lemma ReapIs(l: L.Links, c: Cache, free: Free)
    requires Spelled(l, c) && Inv(c, free)
    ensures L.Next(l, 2) == 2 <==> c.empty == []
    ensures c.empty != [] ==> var g := c.empty[0];
      && L.Next(l, 2) == g + 3 && g in c.pages && c.pages[g].count == c.pages[g].total && c.totalSize >= PAGE
      && Spelled(L.Del(l, g + 3), Reap(c).0) && Inv(Reap(c).0, free - {g}) && |L.Del(l, g + 3).next| == |l.next|
  {
    assert SpelledAt(l, c, Empty);
    L.EmptyIff(l, 2, Nodes(c.empty));
    if c.empty != [] {
      ReapSound(c, free);
      InvApart(c, free);
      ReapSpelled(l, c);
    }
  }

  lemma ReapSound(c: Cache, free: Free)
    requires Inv(c, free) && c.empty != []
    ensures var g := c.empty[0];
      && g in c.pages && c.pages[g].count == c.pages[g].total && c.totalSize >= PAGE && Inv(Reap(c).0, free - {g})
  {
    var g := c.empty[0];
    ReapKeeps(c, free);
    assert g in c.empty && ListOk(c, g);
    assert g in c.pages.Keys;
  }

  lemma ReapSpelled(l: L.Links, c: Cache)
    requires Spelled(l, c) && Apart(c) && c.empty != [] && c.empty[0] in c.pages && IsEmpty(c.pages[c.empty[0]])
    ensures var l' := L.Del(l, c.empty[0] + 3); Spelled(l', Reap(c).0) && |l'.next| == |l.next|
  {
    var g := c.empty[0];
    DelSpelled(l, c, Empty, g);
    ReapLists(c);
    SameSpelled(L.Del(l, g + 3), SetList(c, Empty, Remove(ListOf(c, Empty), g)), Reap(c).0);
  }

  lemma ReapLists(c: Cache)
    requires c.empty != [] && c.empty[0] in c.pages && IsEmpty(c.pages[c.empty[0]])
    ensures forall k: Kind :: ListOf(Reap(c).0, k) == ListOf(SetList(c, Empty, Remove(c.empty, c.empty[0])), k)
  {
  }

  lemma NoRoom(n: nat)
    requires n >= 8
    ensures ROOM / n == 0 <==> n > ROOM
  {
    if n <= ROOM { Quotient(n); }
  }
}
