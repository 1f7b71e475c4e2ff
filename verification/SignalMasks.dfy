/** Signal masks as 64-bit words; bit `n` stands for signal `n + 1`. */
module SignalMasks {

  // ----- mask words -----

  /** The set bits among the lowest `k` of a word, numbered from `from` on. */
  function Members(mask: bv64, from: nat, k: nat): set<nat>
    decreases k, from
  {
    if k == 0 then {} else (if mask & 1 != 0 then {from} else {}) + Members(mask >> 1, from + 1, k - 1)
  }

  /** The set a mask word stands for. */
  function Bits(mask: bv64): set<nat> {
    Members(mask, 0, 64)
  }

  predicate IsLeast(m: set<nat>, n: nat) {
    n in m && forall k | k in m :: n <= k
  }

  lemma {:induction false} MembersFrom(mask: bv64, from: nat, k: nat)
    ensures forall n | n in Members(mask, from, k) :: from <= n < from + k
    decreases k
  {
    if k > 0 { MembersFrom(mask >> 1, from + 1, k - 1); }
  }

  /** Clear low bits are passed over, one, two, four, eight, sixteen or thirty-two at a time. */
  lemma Skip1(mask: bv64, from: nat, k: nat)
    requires mask & 1 == 0 && k >= 1
    ensures Members(mask, from, k) == Members(mask >> 1, from + 1, k - 1)
  {
  }

  lemma Skip2(mask: bv64, from: nat, k: nat)
    requires mask & 0x3 == 0 && k >= 2
    ensures Members(mask, from, k) == Members(mask >> 2, from + 2, k - 2)
  {
    Low2(mask);
    Skip1(mask, from, k);
    Skip1(mask >> 1, from + 1, k - 1);
  }

  lemma Low2(mask: bv64)
    requires mask & 0x3 == 0
    ensures mask & 1 == 0 && (mask >> 1) & 1 == 0 && (mask >> 1) >> 1 == mask >> 2
  {
  }

  lemma Skip4(mask: bv64, from: nat, k: nat)
    requires mask & 0xF == 0 && k >= 4
    ensures Members(mask, from, k) == Members(mask >> 4, from + 4, k - 4)
  {
    Low4(mask);
    Skip2(mask, from, k);
    Skip2(mask >> 2, from + 2, k - 2);
  }

  lemma Low4(mask: bv64)
    requires mask & 0xF == 0
    ensures mask & 0x3 == 0 && (mask >> 2) & 0x3 == 0 && (mask >> 2) >> 2 == mask >> 4
  {
  }

  lemma Skip8(mask: bv64, from: nat, k: nat)
    requires mask & 0xFF == 0 && k >= 8
    ensures Members(mask, from, k) == Members(mask >> 8, from + 8, k - 8)
  {
    Low8(mask);
    Skip4(mask, from, k);
    Skip4(mask >> 4, from + 4, k - 4);
  }

  lemma Low8(mask: bv64)
    requires mask & 0xFF == 0
    ensures mask & 0xF == 0 && (mask >> 4) & 0xF == 0 && (mask >> 4) >> 4 == mask >> 8
  {
  }

  lemma Skip16(mask: bv64, from: nat, k: nat)
    requires mask & 0xFFFF == 0 && k >= 16
    ensures Members(mask, from, k) == Members(mask >> 16, from + 16, k - 16)
  {
    Low16(mask);
    Skip8(mask, from, k);
    Skip8(mask >> 8, from + 8, k - 8);
  }

  lemma Low16(mask: bv64)
    requires mask & 0xFFFF == 0
    ensures mask & 0xFF == 0 && (mask >> 8) & 0xFF == 0 && (mask >> 8) >> 8 == mask >> 16
  {
  }

  lemma Skip32(mask: bv64, from: nat, k: nat)
    requires mask & 0xFFFF_FFFF == 0 && k >= 32
    ensures Members(mask, from, k) == Members(mask >> 32, from + 32, k - 32)
  {
    Low32(mask);
    Skip16(mask, from, k);
    Skip16(mask >> 16, from + 16, k - 16);
  }

  lemma Low32(mask: bv64)
    requires mask & 0xFFFF_FFFF == 0
    ensures mask & 0xFFFF == 0 && (mask >> 16) & 0xFFFF == 0 && (mask >> 16) >> 16 == mask >> 32
  {
  }

  /** A set bit in the lower half, or else in the upper half. */
  lemma HalfHas(mask: bv64)
    ensures mask != 0 && mask & 0xFFFF_FFFF == 0 ==> (mask >> 32) & 0xFFFF_FFFF != 0
    ensures mask & 0xFFFF_FFFF != 0 && mask & 0xFFFF == 0 ==> (mask >> 16) & 0xFFFF != 0
    ensures mask & 0xFFFF != 0 && mask & 0xFF == 0 ==> (mask >> 8) & 0xFF != 0
    ensures mask & 0xFF != 0 && mask & 0xF == 0 ==> (mask >> 4) & 0xF != 0
    ensures mask & 0xF != 0 && mask & 0x3 == 0 ==> (mask >> 2) & 0x3 != 0
    ensures mask & 0x3 != 0 && mask & 0x1 == 0 ==> (mask >> 1) & 0x1 != 0
  {
  }

  lemma FirstIsLeast(mask: bv64, from: nat, k: nat)
    requires mask & 1 != 0 && k >= 1
    ensures IsLeast(Members(mask, from, k), from)
  {
    MembersFrom(mask >> 1, from + 1, k - 1);
  }

  /** `lowest_set_bit`, by binary search. */
  method LowestSetBit(mask0: bv64) returns (n: nat)
    requires mask0 != 0
    ensures n < 64 && IsLeast(Bits(mask0), n)
  {
    var mask := mask0;
    n := 0;
    HalfHas(mask);
    if mask & 0xFFFF_FFFF == 0 {
      Skip32(mask, n, 64);
      mask, n := mask >> 32, n + 32;
    }
    ghost var k := 64 - n;
    HalfHas(mask);
    if mask & 0xFFFF == 0 {
      Skip16(mask, n, k);
      mask, n, k := mask >> 16, n + 16, k - 16;
    }
    var low := LowestOf16(mask, n, k);
    n := low;
  }

  /** The rest of the search, with a set bit among the lowest sixteen. */
  method LowestOf16(mask0: bv64, from: nat, ghost k0: nat) returns (n: nat)
    requires mask0 & 0xFFFF != 0 && k0 >= 16
    ensures from <= n < from + 16 && IsLeast(Members(mask0, from, k0), n)
  {
    var mask := mask0;
    ghost var k := k0;
    n := from;
    HalfHas(mask);
    if mask & 0xFF == 0 {
      Skip8(mask, n, k);
      mask, n, k := mask >> 8, n + 8, k - 8;
    }
    HalfHas(mask);
    if mask & 0xF == 0 {
      Skip4(mask, n, k);
      mask, n, k := mask >> 4, n + 4, k - 4;
    }
    HalfHas(mask);
    if mask & 0x3 == 0 {
      Skip2(mask, n, k);
      mask, n, k := mask >> 2, n + 2, k - 2;
    }
    HalfHas(mask);
    if mask & 0x1 == 0 {
      Skip1(mask, n, k);
      mask, n, k := mask >> 1, n + 1, k - 1;
    }
    FirstIsLeast(mask, n, k);
  }

  /** `ready & (ready - 1)`. */
  function Clear(mask: bv64): bv64 {
    mask & (mask - 1)
  }

  lemma ClearOdd(mask: bv64)
    requires mask & 1 != 0
    ensures Clear(mask) & 1 == 0 && Clear(mask) >> 1 == mask >> 1
  {
  }

  lemma ClearEven(mask: bv64)
    requires mask & 1 == 0 && mask != 0
    ensures Clear(mask) & 1 == 0 && Clear(mask) >> 1 == Clear(mask >> 1)
  {
  }

  /** Bit by bit: `c` is `mask` without its lowest set bit. */
  predicate Without(mask: bv64, c: bv64, k: nat)
    decreases k
  {
    k == 0 || (c & 1 == 0 && if mask & 1 != 0 then c >> 1 == mask >> 1 else Without(mask >> 1, c >> 1, k - 1))
  }

  lemma {:induction false} ClearWithout(mask: bv64, k: nat)
    ensures Without(mask, Clear(mask), k)
    decreases k
  {
    if k > 0 {
      if mask & 1 != 0 {
        ClearOdd(mask);
      } else {
        ClearWithout(mask >> 1, k - 1);
        if mask == 0 { ClearZero(); } else { ClearEven(mask); }
      }
    }
  }

  lemma ClearZero()
    ensures Clear(0) == 0 && (0 as bv64) >> 1 == 0
  {
  }

  lemma {:induction false} WithoutLeast(mask: bv64, c: bv64, from: nat, k: nat, n: nat)
    requires IsLeast(Members(mask, from, k), n) && Without(mask, c, k)
    ensures Members(c, from, k) == Members(mask, from, k) - {n}
    decreases k
  {
    if k > 0 {
      Skip1(c, from, k);
      MembersFrom(mask >> 1, from + 1, k - 1);
      if mask & 1 == 0 { WithoutLeast(mask >> 1, c >> 1, from + 1, k - 1, n); }
    }
  }

  /** Clearing removes exactly the lowest bit. */
  lemma ClearLowest(mask: bv64, n: nat)
    requires IsLeast(Bits(mask), n)
    ensures Bits(Clear(mask)) == Bits(mask) - {n}
  {
    ClearWithout(mask, 64);
    WithoutLeast(mask, Clear(mask), 0, 64, n);
  }

  /** The lowest set bit, and the word without it. */
  method SplitLowest(mask: bv64) returns (n: nat, rest: bv64)
    requires mask != 0
    ensures IsLeast(Bits(mask), n) && Bits(rest) == Bits(mask) - {n}
  {
    n := LowestSetBit(mask);
    rest := Clear(mask);
    ClearLowest(mask, n);
  }

  lemma {:induction false} NoMembers(from: nat, k: nat)
    ensures Members(0, from, k) == {}
    decreases k
  {
    if k > 0 {
      ClearZero();
      NoMembers(from + 1, k - 1);
    }
  }

  // ----- the word of a set -----

  function Shifted(x: bv64, low: bool): bv64 {
    (x << 1) | if low then 1 else 0
  }

  /** The word with the members of `m` from `from` on as its lowest `k` bits. */
  function WordFrom(m: set<nat>, from: nat, k: nat): bv64
    decreases k, from
  {
    if k == 0 then 0 else Shifted(WordFrom(m, from + 1, k - 1), from in m)
  }

  function WordOf(m: set<nat>): bv64 {
    WordFrom(m, 0, 64)
  }

  /** All of the lowest `k` bits are set. */
  predicate Ones(mask: bv64, k: nat)
    decreases k
  {
    k == 0 || (mask & 1 == 1 && Ones(mask >> 1, k - 1))
  }

  lemma AndBits(x: bv64, mask: bv64)
    ensures (x & mask) >> 1 == (x >> 1) & (mask >> 1)
    ensures mask & 1 == 1 ==> (x & mask) & 1 == x & 1
  {
  }

  /** Two words with the same lowest `k` bits. */
  predicate Agree(x: bv64, y: bv64, k: nat)
    decreases k
  {
    k == 0 || (x & 1 == y & 1 && Agree(x >> 1, y >> 1, k - 1))
  }

  lemma {:induction false} AgreeMembers(x: bv64, y: bv64, from: nat, k: nat)
    requires Agree(x, y, k)
    ensures Members(x, from, k) == Members(y, from, k)
    decreases k
  {
    if k > 0 { AgreeMembers(x >> 1, y >> 1, from + 1, k - 1); }
  }

  lemma {:induction false} OnesAgree(x: bv64, mask: bv64, k: nat)
    requires Ones(mask, k)
    ensures Agree(x & mask, x, k)
    decreases k
  {
    if k > 0 {
      AndBits(x, mask);
      OnesAgree(x >> 1, mask >> 1, k - 1);
    }
  }

  lemma {:induction false} OnesFewer(mask: bv64, j: nat, k: nat)
    requires j <= k && Ones(mask, k)
    ensures Ones(mask, j)
    decreases k
  {
    if j > 0 { OnesFewer(mask >> 1, j - 1, k - 1); }
  }

  lemma ShiftedBits(x: bv64, low: bool)
    ensures Shifted(x, low) >> 1 == x & 0x7FFF_FFFF_FFFF_FFFF && (Shifted(x, low) & 1 != 0 <==> low)
  {
  }

  lemma Ones8(mask: bv64, k: nat)
    requires mask & 0xFF == 0xFF && Ones(mask >> 8, k)
    ensures Ones(mask, k + 8)
  {
    LowOnes(mask);
    assert Ones(mask >> 7, k + 1);
    assert Ones(mask >> 5, k + 3);
    assert Ones(mask >> 3, k + 5);
    assert Ones(mask >> 1, k + 7);
  }

  lemma LowOnes(mask: bv64)
    requires mask & 0xFF == 0xFF
    ensures mask & 1 == 1 && (mask >> 1) & 1 == 1 && (mask >> 2) & 1 == 1 && (mask >> 3) & 1 == 1
    ensures (mask >> 4) & 1 == 1 && (mask >> 5) & 1 == 1 && (mask >> 6) & 1 == 1 && (mask >> 7) & 1 == 1
    ensures (mask >> 1) >> 1 == mask >> 2 && (mask >> 2) >> 1 == mask >> 3 && (mask >> 3) >> 1 == mask >> 4
    ensures (mask >> 4) >> 1 == mask >> 5 && (mask >> 5) >> 1 == mask >> 6 && (mask >> 6) >> 1 == mask >> 7
    ensures (mask >> 7) >> 1 == mask >> 8
  {
  }

  lemma Ones63()
    ensures Ones(0x7FFF_FFFF_FFFF_FFFF, 63)
  {
    LowOnes(0xFF);
    Ones8(0x7FFF, 7);
    Ones8(0x7F_FFFF, 15);
    Ones8(0x7FFF_FFFF, 23);
    Ones8(0x7F_FFFF_FFFF, 31);
    Ones8(0x7FFF_FFFF_FFFF, 39);
    Ones8(0x7F_FFFF_FFFF_FFFF, 47);
    Ones8(0x7FFF_FFFF_FFFF_FFFF, 55);
  }

  lemma ShiftedMembers(x: bv64, low: bool, from: nat, k: nat)
    requires 0 < k <= 64
    ensures Members(Shifted(x, low), from, k) == (if low then {from} else {}) + Members(x, from + 1, k - 1)
  {
    ShiftedBits(x, low);
    Ones63();
    OnesFewer(0x7FFF_FFFF_FFFF_FFFF, k - 1, 63);
    OnesAgree(x, 0x7FFF_FFFF_FFFF_FFFF, k - 1);
    AgreeMembers(x & 0x7FFF_FFFF_FFFF_FFFF, x, from + 1, k - 1);
  }

  lemma {:induction false} WordMembers(m: set<nat>, from: nat, k: nat)
    requires k <= 64
    ensures Members(WordFrom(m, from, k), from, k) == set n | n in m && from <= n < from + k
    decreases k
  {
    if k > 0 {
      WordMembers(m, from + 1, k - 1);
      ShiftedMembers(WordFrom(m, from + 1, k - 1), from in m, from, k);
    }
  }

  /** The word of a set stands for that set. */
  lemma WordOfIs(m: set<nat>)
    requires forall n | n in m :: n < 64
    ensures Bits(WordOf(m)) == m
  {
    WordMembers(m, 0, 64);
  }

  // ----- masks as sets -----

  /** The word whose bits are given, lowest first. */
  function FromBits(bs: seq<bool>): nat {
    if bs == [] then 0 else (if bs[0] then 1 else 0) + 2 * FromBits(bs[1..])
  }

  predicate BitAt(w: nat, n: nat) {
    if n == 0 then w % 2 == 1 else BitAt(w / 2, n - 1)
  }

  function Power(n: nat): nat {
    if n == 0 then 1 else 2 * Power(n - 1)
  }

  lemma {:induction false} PowerSum(a: nat, b: nat)
    ensures Power(a + b) == Power(a) * Power(b)
  {
    if a > 0 {
      PowerSum(a - 1, b);
      Twice(Power(a - 1), Power(b));
    }
  }

  lemma Twice(x: nat, y: nat)
    ensures 2 * (x * y) == (2 * x) * y
  {
  }

  lemma Power64()
    ensures Power(64) == 0x1_0000_0000_0000_0000
  {
    assert Power(4) == 16;
    PowerSum(4, 4);
    PowerSum(8, 8);
    PowerSum(16, 16);
    PowerSum(32, 32);
  }

  lemma {:induction false} WordBound(bs: seq<bool>)
    ensures FromBits(bs) < Power(|bs|)
  {
    if bs != [] { WordBound(bs[1..]); }
  }

  /** A word gives back the bits it was made from. */
  lemma {:induction false} WordBits(bs: seq<bool>, n: nat)
    requires n < |bs|
    ensures BitAt(FromBits(bs), n) <==> bs[n]
  {
    var w := FromBits(bs);
    assert w / 2 == FromBits(bs[1..]) && (w % 2 == 1 <==> bs[0]);
    if n > 0 { WordBits(bs[1..], n - 1); }
  }
}
