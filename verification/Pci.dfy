/** First-fit placement of PCI memory BARs in the MMIO window, and the merging of page ranges to map. */
module Pci {

  const WINDOW: nat := 0x4000_0000
  const WINDOW_END: nat := 0x8000_0000
  const WORD: nat := 0x1_0000_0000_0000_0000
  const PAGE: nat := 4096

  datatype Bar = Bar(valid: bool, io: bool, base: nat, size: nat)

  /** A memory BAR that already has an address. */
  predicate Assigned(b: Bar) {
    b.valid && !b.io && b.base != 0
  }

  /** Its end does not wrap around the 64-bit address space. */
  predicate WellFormed(b: Bar) {
    b.base + b.size < WORD
  }

  predicate Overlaps(b: Bar, base: nat, size: nat) {
    base < b.base + b.size && b.base < base + size
  }

  /** No assigned BAR other than `self` overlaps the range. */
  ghost predicate IsFree(bars: seq<Bar>, self: nat, base: nat, size: nat) {
    forall k | 0 <= k < |bars| && k != self && Assigned(bars[k]) :: !Overlaps(bars[k], base, size)
  }

  ghost predicate AllWellFormed(bars: seq<Bar>, self: nat) {
    forall k | 0 <= k < |bars| && k != self && Assigned(bars[k]) :: WellFormed(bars[k])
  }

  lemma WrapTest(b: Bar)
    requires b.base < WORD && b.size < WORD
    ensures (b.base + b.size) % WORD < b.base <==> !WellFormed(b)
  {
  }

  ghost predicate Blocks(b: Bar, base: nat, size: nat, end: nat) {
    Assigned(b) && WellFormed(b) && Overlaps(b, base, size) && end == b.base + b.size
  }

  /** `pci_memory_conflict`: the end of the first overlapping BAR, 2^64 - 1 at a malformed one, or 0. */
  method Conflict(bars: seq<Bar>, base: nat, size: nat, self: nat) returns (end: nat)
    requires forall k | 0 <= k < |bars| :: bars[k].base < WORD && bars[k].size < WORD
    ensures end == 0 <==> IsFree(bars, self, base, size) && AllWellFormed(bars, self)
    ensures end != 0 ==>
      || (exists k :: 0 <= k < |bars| && k != self && Blocks(bars[k], base, size, end))
      || (end == WORD - 1 && !AllWellFormed(bars, self))
  {
    var k := 0;
    while k < |bars|
      invariant 0 <= k <= |bars|
      invariant forall j | 0 <= j < k && j != self && Assigned(bars[j]) ::
        WellFormed(bars[j]) && !Overlaps(bars[j], base, size)
    {
      if k != self && Assigned(bars[k]) {
        WrapTest(bars[k]);
        if (bars[k].base + bars[k].size) % WORD < bars[k].base { return WORD - 1; }
        if base < bars[k].base + bars[k].size && bars[k].base < base + size {
          assert Blocks(bars[k], base, size, bars[k].base + bars[k].size);
          return bars[k].base + bars[k].size;
        }
      }
      k := k + 1;
    }
    end := 0;
  }

  // ----- alignment -----

  lemma {:induction false} Spread(n: nat, i: nat, j: nat)
    requires n > 0 && i < j
    ensures i * n + n <= j * n
    decreases j
  {
    assert j * n == (j - 1) * n + n;
    if i < j - 1 { Spread(n, i, j - 1); }
  }

  function RoundUp(x: nat, a: nat): nat
    requires a > 0
  {
    (x + a - 1) / a * a
  }

  /** `RoundUp` is the least multiple that is not below. */
  lemma RoundUpIs(x: nat, a: nat)
    requires a > 0
    ensures x <= RoundUp(x, a) < x + a && RoundUp(x, a) % a == 0
    ensures forall y: nat | x <= y < RoundUp(x, a) :: y % a != 0
  {
    var p := (x + a - 1) / a;
    assert x + a - 1 == p * a + (x + a - 1) % a;
    MultipleMod(p, a);
    forall y: nat | x <= y < RoundUp(x, a) ensures y % a != 0 {
      var q := y / a;
      assert y == q * a + y % a;
      if y % a == 0 {
        if q >= p {
          if q > p { Spread(a, p, q); }
        } else {
          Spread(a, q, p);
        }
      }
    }
  }

  lemma {:induction false} MultipleMod(p: nat, a: nat)
    requires a > 0
    ensures (p * a) % a == 0
  {
    var q, r := (p * a) / a, (p * a) % a;
    assert p * a == q * a + r && 0 <= r < a;
    if q < p { Spread(a, q, p); }
    if p < q { Spread(a, p, q); }
  }

  // ----- first fit -----

  function Align(size: nat): nat {
    if size > PAGE then size else PAGE
  }

  /** An address the BAR may get: aligned, inside the window, and free. */
  ghost predicate Suitable(bars: seq<Bar>, self: nat, size: nat, c: nat) {
    c % Align(size) == 0 && WINDOW <= c && c + size <= WINDOW_END && IsFree(bars, self, c, size)
  }

  datatype Place = Some(base: nat) | None

  /** The allocation loop: the least suitable address.  It gives up exactly when there is none, or when
      some other assigned BAR is malformed. */
  method FirstFit(bars: seq<Bar>, self: nat, size: nat) returns (place: Place)
    requires 0 < size && forall k | 0 <= k < |bars| :: bars[k].base < WORD && bars[k].size < WORD
    ensures place.Some? <==> AllWellFormed(bars, self) && exists c: nat :: Suitable(bars, self, size, c)
    ensures place.Some? ==> Suitable(bars, self, size, place.base)
    ensures place.Some? ==> forall c: nat | Suitable(bars, self, size, c) :: place.base <= c
  {
    var align := Align(size);
    var candidate := WINDOW;
    while true
      invariant WINDOW <= candidate
      invariant (AllWellFormed(bars, self) ==> forall c: nat | Suitable(bars, self, size, c) :: candidate <= c)
      decreases WINDOW_END + align - candidate
    {
      if candidate > WINDOW_END { return None; }
      RoundUpIs(candidate, align);
      ghost var before := candidate;
      candidate := RoundUp(candidate, align);
      assert AllWellFormed(bars, self) ==> forall c: nat | Suitable(bars, self, size, c) :: candidate <= c;
      if candidate >= WINDOW_END || size > WINDOW_END - candidate { return None; }
      var conflict := Conflict(bars, candidate, size, self);
      if conflict == 0 {
        assert Suitable(bars, self, size, candidate);
        return Some(candidate);
      }
      if AllWellFormed(bars, self) {
        ghost var k :| 0 <= k < |bars| && k != self && Blocks(bars[k], candidate, size, conflict);
        forall c: nat | Suitable(bars, self, size, c) ensures conflict <= c { assert !Overlaps(bars[k], c, size); }
      }
      candidate := conflict;
    }
  }

  /** One other BAR that ends at 2^64 makes every placement fail, even in an empty window. */
  method MalformedBar() returns (place: Place)
    ensures place.None?
    ensures var bars := [Bar(true, false, 0, PAGE), Bar(true, false, WORD - PAGE, PAGE)];
      Suitable(bars, 0, PAGE, WINDOW) && !WellFormed(bars[1])
  {
    var bars := [Bar(true, false, 0, PAGE), Bar(true, false, WORD - PAGE, PAGE)];
    assert !WellFormed(bars[1]) && Assigned(bars[1]);
    place := FirstFit(bars, 0, PAGE);
  }

  // ----- placing all BARs of a device -----

  predicate IsPowerOfTwo(n: nat)
    decreases n
  {
    n == 1 || (n > 1 && n % 2 == 0 && IsPowerOfTwo(n / 2))
  }

  /** A memory BAR in the window, aligned to its size and apart from all other assigned BARs. */
  ghost predicate Sound(bars: seq<Bar>, i: nat)
    requires i < |bars|
  {
    var b := bars[i];
    b.valid && !b.io ==>
      && Assigned(b) && b.size > 0 && WINDOW <= b.base && b.base + b.size <= WINDOW_END && b.base % b.size == 0
      && IsFree(bars, i, b.base, b.size)
  }

  ghost predicate InWord(bars: seq<Bar>) {
    forall k | 0 <= k < |bars| :: bars[k].base < WORD && bars[k].size < WORD
  }

  /** Only addresses of the device's unassigned memory BARs, at positions `lo` up to `hi`, differ. */
  ghost predicate OnlyPlaced(before: seq<Bar>, after: seq<Bar>, lo: nat, hi: nat) {
    && |after| == |before|
    && forall k: nat | k < |before| ::
         || after[k] == before[k]
         || (lo <= k < hi && before[k].valid && !before[k].io && before[k].base == 0
             && after[k] == before[k].(base := after[k].base))
  }

  /** What the checks before any allocation accept: a sound size, and for an assigned BAR an address in the
      window that conflicts with nothing. */
  ghost predicate Acceptable(bars: seq<Bar>, i: nat)
    requires i < |bars|
  {
    var b := bars[i];
    b.valid && !b.io ==>
      SizeOk(b.size) && (b.base != 0 ==> InWindow(b) && IsFree(bars, i, b.base, b.size) && AllWellFormed(bars, i))
  }

  predicate SizeOk(size: nat) {
    0 < size <= 0x4000_0000 && IsPowerOfTwo(size)
  }

  predicate InWindow(b: Bar)
    requires b.size > 0
  {
    WINDOW <= b.base && b.base + b.size <= WINDOW_END && b.base % b.size == 0
  }

  /** The checks on one BAR before anything is allocated. */
  method CheckBar(bars: seq<Bar>, i: nat) returns (ok: bool)
    requires i < |bars| && InWord(bars)
    ensures ok <==> Acceptable(bars, i)
  {
    var b := bars[i];
    if !b.valid || b.io { return true; }
    if b.size == 0 || !IsPowerOfTwo(b.size) || b.size > 0x4000_0000 { return false; }
    if b.base != 0 {
      if b.base < WINDOW || b.base >= WINDOW_END || b.size > WINDOW_END - b.base || b.base % b.size != 0 {
        return false;
      }
      var c := Conflict(bars, b.base, b.size, i);
      if c != 0 { return false; }
    }
    ok := true;
  }

  lemma AlignSize(size: nat, c: nat)
    requires IsPowerOfTwo(size) && c % Align(size) == 0
    ensures c % size == 0
  {
    if size <= PAGE { PowerDivides(size, PAGE, c); }
  }

  /** A multiple of a power of two is a multiple of every smaller one. */
  lemma {:induction false} PowerDivides(size: nat, p: nat, c: nat)
    requires IsPowerOfTwo(size) && IsPowerOfTwo(p) && size <= p && c % p == 0
    ensures c % size == 0
    decreases p
  {
    if size < p {
      PowerGap(size, p);
      HalfDivides(p / 2, c);
      PowerDivides(size, p / 2, c);
    }
  }

  lemma {:induction false} PowerGap(size: nat, p: nat)
    requires IsPowerOfTwo(size) && IsPowerOfTwo(p) && size < p
    ensures size <= p / 2 && p % 2 == 0
    decreases size
  {
    if size > 1 { PowerGap(size / 2, p / 2); }
  }

  lemma HalfDivides(m: nat, c: nat)
    requires m > 0 && c % (2 * m) == 0
    ensures c % m == 0
  {
    var q := c / (2 * m);
    assert c == (2 * q) * m;
    MultipleMod(2 * q, m);
  }

  /** Placing one more BAR where it is free keeps the BARs placed before apart. */
  lemma PlaceKeeps(bars: seq<Bar>, i: nat, c: nat, k: nat)
    requires i < |bars| && k < |bars| && k != i && Sound(bars, k) && IsFree(bars, i, c, bars[i].size)
    ensures Sound(bars[i := bars[i].(base := c)], k)
  {
    var bars' := bars[i := bars[i].(base := c)];
    var b := bars[k];
    if b.valid && !b.io {
      forall j | 0 <= j < |bars'| && j != k && Assigned(bars'[j]) ensures !Overlaps(bars'[j], b.base, b.size) {
        if j == i { assert !Overlaps(bars[k], c, bars[i].size); } else { assert !Overlaps(bars[j], b.base, b.size); }
      }
    }
  }

  /** An unassigned BAR got the least address suitable once the BARs before it had theirs. */
  ghost predicate LeastPlaced(bars0: seq<Bar>, bars: seq<Bar>, i: nat) {
    i < |bars0| == |bars| && bars0[i].valid && !bars0[i].io && bars0[i].base == 0 ==>
      var before := bars[..i] + bars0[i..];
      && Suitable(before, i, bars0[i].size, bars[i].base)
      && forall c: nat | Suitable(before, i, bars0[i].size, c) :: bars[i].base <= c
  }

  /** `pci_assign_memory_bars` up to the mapping: check the six BARs at `lo`, then place the unassigned ones one
      after the other.  On success all memory BARs of the device are sound, each placed one has the least address
      that was suitable, and nothing else has changed.  On failure nothing has, and BAR `why` either was not
      acceptable or, with the BARs before it placed as in `mid`, has no suitable address. */
  method AssignBars(bars0: seq<Bar>, lo: nat) returns (ok: bool, bars: seq<Bar>, ghost why: nat, ghost mid: seq<Bar>)
    requires lo + 6 <= |bars0| && InWord(bars0)
    ensures ok ==> OnlyPlaced(bars0, bars, lo, lo + 6)
    ensures ok ==>
      forall i: nat | lo <= i < lo + 6 :: Acceptable(bars0, i) && Sound(bars, i) && LeastPlaced(bars0, bars, i)
    ensures !ok ==> bars == bars0 && lo <= why < lo + 6 && (!Acceptable(bars0, why) || NoPlace(bars0, mid, lo, why))
  {
    var i := lo;
    while i < lo + 6
      invariant lo <= i <= lo + 6 && forall k: nat | lo <= k < i :: Acceptable(bars0, k)
    {
      var fine := CheckBar(bars0, i);
      if !fine { return false, bars0, i, bars0; }
      i := i + 1;
    }
    ok, bars, why, mid := PlaceBars(bars0, lo);
  }

  /** Placing one BAR after the other. */
  method PlaceBars(bars0: seq<Bar>, lo: nat) returns (ok: bool, bars: seq<Bar>, ghost why: nat, ghost mid: seq<Bar>)
    requires lo + 6 <= |bars0| && InWord(bars0) && forall i: nat | lo <= i < lo + 6 :: Acceptable(bars0, i)
    ensures ok ==> OnlyPlaced(bars0, bars, lo, lo + 6)
    ensures ok ==> forall i: nat | lo <= i < lo + 6 :: Sound(bars, i) && LeastPlaced(bars0, bars, i)
    ensures !ok ==> bars == bars0 && lo <= why < lo + 6 && NoPlace(bars0, mid, lo, why)
  {
    bars, why, mid := bars0, lo, bars0;
    forall k: nat | lo <= k < lo + 6 && Assigned(bars0[k]) ensures Sound(bars, k) { assert Acceptable(bars0, k); }
    var i := lo;
    while i < lo + 6
      invariant lo <= i <= lo + 6 && InWord(bars) && OnlyPlaced(bars0, bars, lo, i)
      invariant forall k: nat | lo <= k < lo + 6 && (k < i || Assigned(bars0[k])) :: Sound(bars, k)
      invariant forall k: nat | lo <= k < i :: LeastPlaced(bars0, bars, k)
    {
      if bars[i].valid && !bars[i].io && bars[i].base == 0 {
        assert Acceptable(bars0, i) && bars[i] == bars0[i];
        var place := FirstFit(bars, i, bars[i].size);
        if place.None? { return false, bars0, i, bars; }
        AlignSize(bars[i].size, place.base);
        ghost var was := bars;
        bars := bars[i := bars[i].(base := place.base)];
        forall k: nat | lo <= k < lo + 6 && (k < i + 1 || Assigned(bars0[k])) ensures Sound(bars, k) {
          if k != i { PlaceKeeps(was, i, place.base, k); } else { PlacedSound(was, i, place.base); }
        }
        assert bars[..i] + bars0[i..] == was;
        forall k: nat | lo <= k < i
          ensures LeastPlaced(bars0, bars, k)
        {
          assert LeastPlaced(bars0, was, k) && bars[..k] == was[..k];
        }
      }
      i := i + 1;
    }
    ok := true;
  }

  /** The unassigned BAR `i` has no suitable address once the BARs before it are placed. */
  ghost predicate NoPlace(bars0: seq<Bar>, mid: seq<Bar>, lo: nat, i: nat) {
    && i < |bars0| == |mid| && bars0[i].valid && !bars0[i].io && bars0[i].base == 0
    && OnlyPlaced(bars0, mid, lo, i) && (forall k: nat | lo <= k < i :: Sound(mid, k))
    && !(AllWellFormed(mid, i) && exists c: nat :: Suitable(mid, i, bars0[i].size, c))
  }

  lemma PlacedSound(bars: seq<Bar>, i: nat, c: nat)
    requires i < |bars| && bars[i].size > 0 && Suitable(bars, i, bars[i].size, c) && c % bars[i].size == 0
    ensures Sound(bars[i := bars[i].(base := c)], i)
  {
    var bars' := bars[i := bars[i].(base := c)];
    forall j | 0 <= j < |bars'| && j != i && Assigned(bars'[j])
      ensures !Overlaps(bars'[j], c, bars[i].size)
    {
      assert !Overlaps(bars[j], c, bars[i].size);
    }
  }

  // ----- page ranges -----

  datatype Range = Range(start: nat, end: nat)

  ghost predicate Within(r: Range, x: nat) {
    r.start <= x < r.end
  }

  ghost predicate Covered(rs: seq<Range>, x: nat) {
    exists i :: 0 <= i < |rs| && Within(rs[i], x)
  }

  /** The first `i` are sorted and none of the rest starts before them. */
  ghost predicate SortedTo(rs: seq<Range>, i: nat) {
    && i <= |rs| && (forall k | 0 < k < i :: rs[k - 1].start <= rs[k].start)
    && (0 < i ==> forall l | i <= l < |rs| :: rs[i - 1].start <= rs[l].start)
  }

  ghost predicate Sorted(rs: seq<Range>) {
    forall k | 0 < k < |rs| :: rs[k - 1].start <= rs[k].start
  }

  method Exchange(a: array<Range>, i: nat, j: nat)
    requires i < j < a.Length
    modifies a
    ensures a[..] == old(a[..])[i := old(a[j])][j := old(a[i])] && multiset(a[..]) == multiset(old(a[..]))
  {
    a[i], a[j] := a[j], a[i];
  }

  /** Position `i` starts no later than those after it, up to `j`. */
  ghost predicate LeastTo(rs: seq<Range>, i: nat, j: nat) {
    i < j <= |rs| && forall l | i < l < j :: rs[i].start <= rs[l].start
  }

  lemma ExchangeKeeps(rs: seq<Range>, i: nat, j: nat)
    requires i < j < |rs| && SortedTo(rs, i) && LeastTo(rs, i, j) && rs[j].start < rs[i].start
    ensures var now := rs[i := rs[j]][j := rs[i]]; SortedTo(now, i) && LeastTo(now, i, j + 1)
  {
  }

  lemma SortedNext(rs: seq<Range>, i: nat)
    requires SortedTo(rs, i) && i < |rs| && LeastTo(rs, i, |rs|)
    ensures SortedTo(rs, i + 1)
  {
  }

  /** The inner loop: bring the least remaining start to position `i`. */
  method SortOne(a: array<Range>, i: nat)
    requires i < a.Length && SortedTo(a[..], i)
    modifies a
    ensures SortedTo(a[..], i + 1) && multiset(a[..]) == multiset(old(a[..]))
  {
    var j := i + 1;
    while j < a.Length
      invariant i + 1 <= j <= a.Length && multiset(a[..]) == multiset(old(a[..])) && SortedTo(a[..], i)
      invariant LeastTo(a[..], i, j)
    {
      if a[j].start < a[i].start {
        ExchangeKeeps(a[..], i, j);
        Exchange(a, i, j);
      }
      j := j + 1;
    }
    SortedNext(a[..], i);
  }

  /** The exchange sort by start address, in place. */
  method SortRanges(a: array<Range>)
    modifies a
    ensures Sorted(a[..]) && multiset(a[..]) == multiset(old(a[..]))
  {
    var i := 0;
    while i < a.Length
      invariant 0 <= i <= a.Length && SortedTo(a[..], i) && multiset(a[..]) == multiset(old(a[..]))
    {
      SortOne(a, i);
      i := i + 1;
    }
  }

  /** `out` is what the first `i` of the sorted ranges merge to. */
  ghost predicate Merged(rs: seq<Range>, i: nat, out: seq<Range>) {
    && i <= |rs| && |out| <= i && (i > 0 ==> out != [])
    && (forall k | 0 < k < |out| :: out[k - 1].end < out[k].start)
    && (forall k | 0 <= k < |out| :: out[k].start < out[k].end)
    && (i > 0 ==> out[|out| - 1].start <= rs[i - 1].start)
    && (forall x: nat {:trigger Covered(out, x)} :: Covered(out, x) <==> Covered(rs[..i], x))
  }

  function MergeOne(out: seq<Range>, r: Range): seq<Range> {
    if out != [] && r.start <= out[|out| - 1].end then
      (if r.end > out[|out| - 1].end then out[|out| - 1 := out[|out| - 1].(end := r.end)] else out)
    else out + [r]
  }

  lemma CoverMerge(out: seq<Range>, r: Range, x: nat)
    requires r.start < r.end && (out != [] ==> out[|out| - 1].start <= r.start)
    ensures Covered(MergeOne(out, r), x) <==> Covered(out, x) || Within(r, x)
  {
    var now := MergeOne(out, r);
    if Covered(out, x) || Within(r, x) {
      if Within(r, x) {
        assert out != [] && r.start <= out[|out| - 1].end ==> Within(now[|now| - 1], x) || Within(r, x);
        if x < now[|now| - 1].start { assert false; }
        assert Within(now[|now| - 1], x);
      } else {
        var i :| 0 <= i < |out| && Within(out[i], x);
        assert Within(now[i], x);
      }
    }
    if Covered(now, x) {
      var i :| 0 <= i < |now| && Within(now[i], x);
      if i < |out| && !Within(out[i], x) { assert i == |out| - 1; }
    }
  }

  lemma MergeStep(rs: seq<Range>, i: nat, out: seq<Range>)
    requires Merged(rs, i, out) && i < |rs| && Sorted(rs) && rs[i].start < rs[i].end
    ensures Merged(rs, i + 1, MergeOne(out, rs[i]))
  {
    var r, now := rs[i], MergeOne(out, rs[i]);
    assert i > 0 ==> rs[i - 1].start <= rs[i].start;
    forall x: nat ensures Covered(now, x) <==> Covered(rs[..i + 1], x) {
      CoverMerge(out, r, x);
      assert Covered(out, x) <==> Covered(rs[..i], x);
      CoverNext(rs, i, x);
    }
  }

  lemma CoverNext(rs: seq<Range>, i: nat, x: nat)
    requires i < |rs|
    ensures Covered(rs[..i + 1], x) <==> Covered(rs[..i], x) || Within(rs[i], x)
  {
    assert forall k | 0 <= k < i :: rs[..i + 1][k] == rs[..i][k];
    assert rs[..i + 1][i] == rs[i];
  }

  /** Merge range `i` into the ranges kept so far. */
  method MergeAt(a: array<Range>, count: nat, i: nat) returns (count': nat)
    requires count <= i < a.Length
    modifies a
    ensures count' <= i + 1 && a[..count'] == MergeOne(old(a[..count]), old(a[i])) && a[i + 1..] == old(a[i + 1..])
  {
    count' := count;
    if count > 0 && a[i].start <= a[count - 1].end {
      if a[i].end > a[count - 1].end { a[count - 1] := a[count - 1].(end := a[i].end); }
    } else {
      a[count] := a[i];
      count' := count + 1;
    }
  }

  lemma SameTail(a: seq<Range>, rs: seq<Range>, i: nat)
    requires i < |a| == |rs| && a[i..] == rs[i..]
    ensures a[i] == rs[i] && a[i + 1..] == rs[i + 1..]
  {
    assert a[i] == a[i..][0] && rs[i] == rs[i..][0];
    assert a[i + 1..] == a[i..][1..] && rs[i + 1..] == rs[i..][1..];
  }

  /** The merge, in place: the first `count` ranges end up sorted, apart from each other, and cover the
      same addresses as all ranges did. */
  method MergeRanges(a: array<Range>) returns (count: nat)
    requires Sorted(a[..]) && forall k | 0 <= k < a.Length :: a[k].start < a[k].end
    modifies a
    ensures count <= a.Length && Merged(old(a[..]), a.Length, a[..count])
  {
    ghost var rs := a[..];
    count := 0;
    var i := 0;
    while i < a.Length
      invariant 0 <= count <= i <= a.Length && Merged(rs, i, a[..count]) && a[i..] == rs[i..]
    {
      SameTail(a[..], rs, i);
      MergeStep(rs, i, a[..count]);
      ghost var now := a[..];
      count := MergeAt(a, count, i);
      assert a[i + 1..] == now[i + 1..];
      i := i + 1;
    }
  }

  /** Sorting and merging together, on any number of page ranges. */
  method SortAndMerge(a: array<Range>) returns (count: nat)
    requires forall k | 0 <= k < a.Length :: a[k].start < a[k].end
    modifies a
    ensures count <= a.Length && (forall k | 0 < k < count :: a[k - 1].end < a[k].start)
    ensures forall x: nat :: Covered(a[..count], x) <==> Covered(old(a[..]), x)
  {
    ghost var rs := a[..];
    SortRanges(a);
    ghost var sorted := a[..];
    forall k | 0 <= k < |sorted| ensures sorted[k].start < sorted[k].end {
      assert sorted[k] in multiset(sorted);
      assert sorted[k] in rs;
    }
    count := MergeRanges(a);
    forall x: nat ensures Covered(a[..count], x) <==> Covered(rs, x) {
      SameCover(sorted, rs, x);
      assert sorted[..a.Length] == sorted;
    }
    forall k | 0 < k < count ensures a[k - 1].end < a[k].start { assert a[..count][k - 1].end < a[..count][k].start; }
  }

  lemma SameCover(a: seq<Range>, b: seq<Range>, x: nat)
    requires multiset(a) == multiset(b)
    ensures Covered(a, x) <==> Covered(b, x)
  {
    if Covered(a, x) { CoverOneWay(a, b, x); }
    if Covered(b, x) { CoverOneWay(b, a, x); }
  }

  lemma CoverOneWay(a: seq<Range>, b: seq<Range>, x: nat)
    requires multiset(a) == multiset(b) && Covered(a, x)
    ensures Covered(b, x)
  {
    var i :| 0 <= i < |a| && Within(a[i], x);
    assert a[i] in multiset(a);
    assert a[i] in b;
  }
}
