/** Circular doubly linked lists with a head node, over arrays of links. */
module Lists {
  import opened Counting

  /** Nodes are indices; node `i` points to `next[i]` and `prev[i]`. */
  datatype Links = Links(next: seq<nat>, prev: seq<nat>)

  function Size(l: Links): nat {
    if |l.next| < |l.prev| then |l.next| else |l.prev|
  }

  function Next(l: Links, i: nat): nat {
    if i < |l.next| then l.next[i] else 0
  }

  function Prev(l: Links, i: nat): nat {
    if i < |l.prev| then l.prev[i] else 0
  }

  function SetNext(l: Links, i: nat, v: nat): Links {
    if i < |l.next| then l.(next := l.next[i := v]) else l
  }

  function SetPrev(l: Links, i: nat, v: nat): Links {
    if i < |l.prev| then l.(prev := l.prev[i := v]) else l
  }

  /** Node `i` of the cycle `c` (head first) and its successor point to each other. */
  ghost predicate LinkOk(l: Links, c: seq<nat>, i: nat)
    requires i < |c|
  {
    var j := if i + 1 == |c| then 0 else i + 1;
    Next(l, c[i]) == c[j] && Prev(l, c[j]) == c[i]
  }

  /** The list at `head` holds exactly the nodes `s`, in order. */
  ghost predicate Holds(l: Links, head: nat, s: seq<nat>) {
    var c := [head] + s;
    && Distinct(c) && (forall i: nat | i < |c| :: c[i] < Size(l))
    && (forall i: nat {:trigger LinkOk(l, c, i)} | i < |c| :: LinkOk(l, c, i))
  }

  /** `list_init`. */
  function Init(l: Links, head: nat): Links {
    SetPrev(SetNext(l, head, head), head, head)
  }

  /** `list_add_tail`. */
  function AddTail(l: Links, node: nat, head: nat): Links {
    var l1 := SetNext(l, node, head);
    var l2 := SetPrev(l1, node, Prev(l1, head));
    var l3 := SetNext(l2, Prev(l2, head), node);
    SetPrev(l3, head, node)
  }

  /** Insertion right after the head, as the buffer cache does it. */
  function AddFront(l: Links, node: nat, head: nat): Links {
    var l1 := SetNext(l, node, Next(l, head));
    var l2 := SetPrev(l1, node, head);
    var l3 := SetPrev(l2, Next(l2, head), node);
    SetNext(l3, head, node)
  }

  /** Unlinking a node, as the buffer cache does it. */
  function Unlink(l: Links, node: nat): Links {
    var l1 := SetPrev(l, Next(l, node), Prev(l, node));
    SetNext(l1, Prev(l1, node), Next(l1, node))
  }

  /** `list_del`. */
  function Del(l: Links, node: nat): Links {
    var n := Next(l, node);
    var l1 := SetNext(l, Prev(l, node), n);
    var l2 := SetPrev(l1, n, Prev(l1, node));
    SetPrev(SetNext(l2, node, 0), node, 0)
  }

  lemma InitHolds(l: Links, head: nat)
    requires head < Size(l)
    ensures Holds(Init(l, head), head, [])
  {
    var c := [head] + [];
    assert LinkOk(Init(l, head), c, 0);
  }

  /** A list is empty exactly when its head points to itself. */
  lemma EmptyIff(l: Links, head: nat, s: seq<nat>)
    requires Holds(l, head, s)
    ensures Next(l, head) == head <==> s == []
    ensures s != [] ==> Next(l, head) == s[0] && Prev(l, head) == s[|s| - 1]
  {
    var c := [head] + s;
    assert LinkOk(l, c, 0);
    assert LinkOk(l, c, |s|);
    if s != [] { assert c[1] == s[0]; }
  }

  /** The neighbours of the node at position `k`. */
  lemma Neighbours(l: Links, head: nat, s: seq<nat>, k: nat)
    requires Holds(l, head, s) && k < |s|
    ensures Next(l, s[k]) == if k + 1 < |s| then s[k + 1] else head
    ensures Prev(l, s[k]) == if k > 0 then s[k - 1] else head
  {
    var c := [head] + s;
    assert LinkOk(l, c, k);
    assert LinkOk(l, c, k + 1);
  }

  /** Links of nodes outside a list do not matter to it. */
  lemma HoldsFrame(l: Links, l': Links, head: nat, s: seq<nat>)
    requires Holds(l, head, s) && Size(l') == Size(l)
    requires forall i | i == head || i in s :: Next(l', i) == Next(l, i) && Prev(l', i) == Prev(l, i)
    ensures Holds(l', head, s)
  {
    var c := [head] + s;
    forall i: nat | i < |c| ensures LinkOk(l', c, i) { assert LinkOk(l, c, i); }
  }

  lemma AddTailHolds(l: Links, node: nat, head: nat, s: seq<nat>)
    requires Holds(l, head, s) && node < Size(l) && node != head && node !in s && |l.next| == |l.prev|
    ensures Holds(AddTail(l, node, head), head, s + [node])
    ensures var l' := AddTail(l, node, head); |l'.next| == |l.next| && |l'.prev| == |l.prev|
    ensures forall i | i != node && i != head && i !in s ::
        Next(AddTail(l, node, head), i) == Next(l, i) && Prev(AddTail(l, node, head), i) == Prev(l, i)
  {
    var l' := AddTail(l, node, head);
    var c, c' := [head] + s, [head] + (s + [node]);
    assert c' == c + [node];
    assert forall i | 0 <= i < |c| :: c[i] != node;
    assert LinkOk(l, c, |s|);
    assert Prev(l, head) == c[|s|];
    forall i: nat | i < |c'| ensures LinkOk(l', c', i) {
      if i < |s| { assert LinkOk(l, c, i); assert c'[i] == c[i] && c'[i + 1] == c[i + 1]; }
    }
  }

  /** The cycle with a node put right after the head. */
  lemma FrontCycle(head: nat, node: nat, s: seq<nat>, i: nat)
    requires i < |s| + 2
    ensures ([head] + ([node] + s))[i] == if i == 0 then head else if i == 1 then node else ([head] + s)[i - 1]
  {
  }

  lemma AddFrontOne(l: Links, node: nat, head: nat, s: seq<nat>, i: nat)
    requires Holds(l, head, s) && node < Size(l) && node != head && node !in s && |l.next| == |l.prev| && i < |s| + 2
    ensures LinkOk(AddFront(l, node, head), [head] + ([node] + s), i)
  {
    var c := [head] + s;
    var j := if i + 1 == |s| + 2 then 0 else i + 1;
    FrontCycle(head, node, s, i);
    FrontCycle(head, node, s, j);
    assert forall k | 0 <= k < |c| :: c[k] != node;
    assert LinkOk(l, c, 0);
    if i >= 2 { assert LinkOk(l, c, i - 1); }
  }

  lemma AddFrontHolds(l: Links, node: nat, head: nat, s: seq<nat>)
    requires Holds(l, head, s) && node < Size(l) && node != head && node !in s && |l.next| == |l.prev|
    ensures Holds(AddFront(l, node, head), head, [node] + s)
    ensures var l' := AddFront(l, node, head); |l'.next| == |l.next| && |l'.prev| == |l.prev|
  {
    var l' := AddFront(l, node, head);
    var c, c' := [head] + s, [head] + ([node] + s);
    forall i: nat | i < |c'|
      ensures c'[i] == if i == 0 then head else if i == 1 then node else c[i - 1]
    {
      FrontCycle(head, node, s, i);
    }
    forall i, j | 0 <= i < j < |c'| ensures c'[i] != c'[j] {
      if i != 1 && j != 1 { assert c[if i == 0 then 0 else i - 1] != c[j - 1]; }
    }
    forall i: nat | i < |c'| ensures c'[i] < Size(l') { if i != 1 { assert c[if i == 0 then 0 else i - 1] < Size(l); } }
    forall i: nat | i < |c'| ensures LinkOk(l', c', i) { AddFrontOne(l, node, head, s, i); }
  }

  function Without(s: seq<nat>, k: nat): seq<nat>
    requires k < |s|
  {
    s[..k] + s[k + 1..]
  }

  /** The cycle without position `k` of the list. */
  lemma WithoutCycle(head: nat, s: seq<nat>, k: nat, i: nat)
    requires k < |s| && i < |s|
    ensures |Without(s, k)| == |s| - 1
    ensures ([head] + Without(s, k))[i] == if i <= k then ([head] + s)[i] else ([head] + s)[i + 1]
  {
  }

  lemma UnlinkHolds(l: Links, head: nat, s: seq<nat>, k: nat)
    requires Holds(l, head, s) && k < |s| && |l.next| == |l.prev|
    ensures var l' := Unlink(l, s[k]); Holds(l', head, Without(s, k)) && |l'.next| == |l.next| && |l'.prev| == |l.prev|
    ensures forall i | i != head && i !in s ::
        Next(Unlink(l, s[k]), i) == Next(l, i) && Prev(Unlink(l, s[k]), i) == Prev(l, i)
  {
    var l', t := Unlink(l, s[k]), Without(s, k);
    var c, c' := [head] + s, [head] + t;
    Neighbours(l, head, s, k);
    assert |c'| == |s|;
    forall i: nat | i < |c'| ensures c'[i] == if i <= k then c[i] else c[i + 1] { WithoutCycle(head, s, k, i); }
    forall i, j | 0 <= i < j < |c'| ensures c'[i] != c'[j] {
      assert c[if i <= k then i else i + 1] != c[if j <= k then j else j + 1];
    }
    forall i: nat | i < |c'| ensures c'[i] < Size(l') { assert c[if i <= k then i else i + 1] < Size(l); }
    forall i: nat | i < |c'| ensures LinkOk(l', c', i) { UnlinkOne(l, head, s, k, i); }
  }

  lemma UnlinkOne(l: Links, head: nat, s: seq<nat>, k: nat, i: nat)
    requires Holds(l, head, s) && k < |s| && |l.next| == |l.prev| && i < |s|
    ensures |[head] + Without(s, k)| == |s| && LinkOk(Unlink(l, s[k]), [head] + Without(s, k), i)
  {
    var l', c := Unlink(l, s[k]), [head] + s;
    var j := if i + 1 == |s| then 0 else i + 1;
    WithoutCycle(head, s, k, i);
    WithoutCycle(head, s, k, j);
    Neighbours(l, head, s, k);
    assert c[k + 1] == s[k] && LinkOk(l, c, k) && LinkOk(l, c, k + 1);
    if i < k { assert LinkOk(l, c, i); }
    if i > k { assert LinkOk(l, c, i + 1); }
  }

  lemma DelHolds(l: Links, head: nat, s: seq<nat>, k: nat)
    requires Holds(l, head, s) && k < |s| && |l.next| == |l.prev|
    ensures var l' := Del(l, s[k]); Holds(l', head, Without(s, k)) && |l'.next| == |l.next| && |l'.prev| == |l.prev|
    ensures forall i | i != head && i !in s ::
      Next(Del(l, s[k]), i) == Next(l, i) && Prev(Del(l, s[k]), i) == Prev(l, i)
  {
    var u := Unlink(l, s[k]);
    Neighbours(l, head, s, k);
    UnlinkHolds(l, head, s, k);
    var c := [head] + s;
    assert c[k + 1] == s[k];
    var d := Del(l, s[k]);
    assert d == SetPrev(SetNext(u, s[k], 0), s[k], 0);
    assert forall i | i != s[k] :: Next(d, i) == Next(u, i) && Prev(d, i) == Prev(u, i);
    forall i | i == head || i in Without(s, k) ensures Next(d, i) == Next(u, i) && Prev(d, i) == Prev(u, i) {
      if i != head {
        var j :| 0 <= j < |s| && j != k && s[j] == i;
        assert c[j + 1] != c[k + 1];
      } else {
        assert c[0] != c[k + 1];
      }
    }
    HoldsFrame(u, d, head, Without(s, k));
  }
}
