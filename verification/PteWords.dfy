/** Page-table entries and TLB entries as 64-bit words: the word operations of the kernel are the record
    operations the address-space model uses, and a TLB entry grants what its page-table entry grants. */
module PteWords {
  import opened Frames
  import Cow

  const V: bv64 := 0x1
  const D: bv64 := 0x2
  const PLV: bv64 := 0xC
  const MAT: bv64 := 0x30
  const MAT_CC: bv64 := 0x10
  const G: bv64 := 0x40
  const P: bv64 := 0x80
  const W: bv64 := 0x100
  const COW: bv64 := 0x200
  const PPN: bv64 := 0x0000_FFFF_FFFF_F000
  const NR: bv64 := 0x2000_0000_0000_0000
  const NX: bv64 := 0x4000_0000_0000_0000
  const RPLV: bv64 := 0x8000_0000_0000_0000

  predicate IsValid(w: bv64) {
    w & (V | P) == V | P
  }

  function Pa(w: bv64): bv64 {
    w & PPN
  }

  /** The record a word stands for, with the frame its physical address denotes. */
  function Record(w: bv64, f: Frame): Pte {
    Pte(IsValid(w), f, w & W != 0, w & D != 0, w & COW != 0, w & PLV == PLV, w & NR != 0, w & NX != 0)
  }

  /** All bits a leaf entry may have. */
  predicate LeafBits(w: bv64) {
    w & !(V | D | PLV | MAT_CC | P | W | COW | PPN | NR | NX) == 0
  }

  // ----- building entries -----

  /** `pte_from_perm`: read 1, write 2, execute 4, user 8. */
  function FromPerm(perm: bv64): bv64 {
    (if perm & 8 != 0 then PLV else 0) | (if perm & 1 == 0 then NR else 0)
    | (if perm & 4 == 0 then NX else 0) | (if perm & 2 != 0 then W | D else 0)
  }

  /** The negative bits say what is not allowed, and D goes with W. */
  lemma FromPermIs(perm: bv64, f: Frame)
    ensures Record(FromPerm(perm), f) ==
      Pte(false, f, perm & 2 != 0, perm & 2 != 0, false, perm & 8 != 0, perm & 1 == 0, perm & 4 == 0)
    ensures Pa(FromPerm(perm)) == 0 && LeafBits(FromPerm(perm))
  {
  }

  /** The leaf entry `mappages` stores. */
  function LeafWord(pa: bv64, perm: bv64): bv64 {
    (pa & PPN) | (if perm & W != 0 then perm | D else perm) | V | P | MAT_CC
  }

  lemma LeafWordIs(pa: bv64, perm: bv64, f: Frame)
    requires LeafBits(perm) && Pa(perm) == 0
    ensures Record(LeafWord(pa, perm), f) == Cow.LeafPte(f, Record(perm, f)) && Pa(LeafWord(pa, perm)) == pa & PPN
    ensures LeafBits(LeafWord(pa, perm))
  {
  }

  /** The flags of a permission record that is neither a mapping nor copy-on-write. */
  function PermWord(perm: Pte): bv64 {
    (if perm.w then W else 0) | (if perm.d then D else 0) | (if perm.user then PLV else 0)
    | (if perm.nr then NR else 0) | (if perm.nx then NX else 0)
  }

  lemma PermWordIs(perm: Pte, f: Frame)
    requires !perm.cow
    ensures Record(PermWord(perm), f) == perm.(valid := false, frame := f)
    ensures LeafBits(PermWord(perm)) && Pa(PermWord(perm)) == 0
  {
  }

  lemma LeafGood(pa: bv64, perm: bv64)
    requires LeafBits(perm) && Pa(perm) == 0 && (perm & D != 0 ==> perm & W != 0)
    ensures Good(LeafWord(pa, perm))
  {
  }

  /** The directory entry `walk` stores for a new table. */
  function DirWord(pa: bv64): bv64 {
    (pa & PPN) | V | P
  }

  lemma DirWordIs(pa: bv64, f: Frame)
    ensures Record(DirWord(pa), f) == Pte(true, f, false, false, false, false, false, false)
    ensures Pa(DirWord(pa)) == pa & PPN && IsValid(DirWord(pa))
  {
  }

  // ----- sharing and fault resolution -----

  /** The source entry after `uvmcopy` has marked it. */
  function MarkWord(w: bv64): bv64 {
    if w & W != 0 then (w | COW) & !(W | D) else w
  }

  lemma MarkWordIs(w: bv64, f: Frame)
    ensures Record(MarkWord(w), f) == Cow.Marked(Record(w, f)) && Pa(MarkWord(w)) == Pa(w)
  {
    if w & W != 0 { MarkBits(w); }
  }

  /** Bit by bit: W goes, and D with it; COW is set exactly where W or COW was; every other bit stays. */
  lemma MarkWordBits(w: bv64)
    ensures MarkWord(w) & W == 0 && (MarkWord(w) & COW != 0 <==> w & W != 0 || w & COW != 0)
    ensures MarkWord(w) & D == if w & W != 0 then 0 else w & D
    ensures MarkWord(w) & !(COW | W | D) == w & !(COW | W | D)
  {
    if w & W != 0 {
      MarkBits(w);
      MarkOthers(w, (w | COW) & !(W | D));
    }
  }

  lemma MarkOthers(w: bv64, m: bv64)
    requires m == (w | COW) & !(W | D)
    ensures m & !(COW | W | D) == w & !(COW | W | D)
  {
  }

  lemma MarkBits(w: bv64)
    ensures var m := (w | COW) & !(W | D);
      && m & W == 0 && m & D == 0 && m & COW != 0
      && m & (V | P) == w & (V | P) && m & PLV == w & PLV && m & NR == w & NR && m & NX == w & NX && m & PPN == w & PPN
  {
    var m := (w | COW) & !(W | D);
    assert m & COW == COW;
  }

  /** `loongarch_user_pte_flags`. */
  function UserFlags(w: bv64): bv64 {
    w & (D | PLV | MAT | G | W | NR | NX | RPLV | COW | P | V)
  }

  /** The child gets the very word the parent has been left with. */
  lemma ChildWordIs(w: bv64)
    requires IsValid(w) && LeafBits(w) && w & MAT_CC != 0 && (w & W != 0 ==> w & D != 0)
    ensures LeafWord(Pa(w), UserFlags(w)) == w
  {
  }

  /** The entry `handle_cow_fault` stores for the private copy. */
  function PrivateWord(w: bv64, pa: bv64): bv64 {
    (pa & PPN) | ((UserFlags(w) & !COW) | W | D)
  }

  lemma PrivateWordIs(w: bv64, pa: bv64, f: Frame)
    requires LeafBits(w)
    ensures Record(PrivateWord(w, pa), f) == Record(w, f).(cow := false, w := true, d := true)
    ensures Pa(PrivateWord(w, pa)) == pa & PPN && LeafBits(PrivateWord(w, pa))
  {
  }

  /** An entry as `mappages` leaves it and every later step keeps it. */
  predicate Good(w: bv64) {
    IsValid(w) && LeafBits(w) && w & MAT_CC != 0 && (w & W != 0 <==> w & D != 0)
  }

  /** What can happen to a user entry: a fork marks it, a write fault replaces it by a private copy. */
  datatype Step = Fork | WriteFault(pa: bv64, frame: Frame)

  function WordStep(w: bv64, s: Step): bv64 {
    match s
    case Fork => MarkWord(w)
    case WriteFault(pa, _) => if w & PLV == PLV && w & COW != 0 && w & (W | D) == 0 then PrivateWord(w, pa) else w
  }

  function RecordStep(p: Pte, s: Step): Pte {
    match s
    case Fork => Cow.Marked(p)
    case WriteFault(_, f) =>
      if p.user && p.cow && !p.w && !p.d then p.(frame := f, cow := false, w := true, d := true) else p
  }

  function WordRun(w: bv64, steps: seq<Step>): bv64
    decreases |steps|
  {
    if steps == [] then w else WordRun(WordStep(w, steps[0]), steps[1..])
  }

  function RecordRun(p: Pte, steps: seq<Step>): Pte
    decreases |steps|
  {
    if steps == [] then p else RecordRun(RecordStep(p, steps[0]), steps[1..])
  }

  lemma WordStepIs(w: bv64, s: Step, f: Frame)
    requires Good(w)
    ensures Good(WordStep(w, s))
    ensures Record(WordStep(w, s), RecordStep(Record(w, f), s).frame) == RecordStep(Record(w, f), s)
    ensures Pa(WordStep(w, s)) == Pa(w) || (s.WriteFault? && Pa(WordStep(w, s)) == s.pa & PPN)
  {
    match s
    case Fork =>
      MarkWordIs(w, f);
      MarkGood(w);
    case WriteFault(pa, g) =>
      Faultable(w);
      if w & PLV == PLV && w & COW != 0 && w & (W | D) == 0 {
        PrivateWordIs(w, pa, g);
        PrivateGood(w, pa);
      }
  }

  lemma MarkGood(w: bv64)
    requires Good(w)
    ensures Good(MarkWord(w))
  {
  }

  lemma PrivateGood(w: bv64, pa: bv64)
    requires Good(w)
    ensures Good(PrivateWord(w, pa))
  {
  }

  lemma Faultable(w: bv64)
    ensures w & (W | D) == 0 <==> w & W == 0 && w & D == 0
  {
  }

  /** Over every run of forks and write faults the words follow the records, and stay entries that a later
      fork copies exactly and the TLB shows exactly. */
  lemma {:induction false} RunRefines(w: bv64, steps: seq<Step>, f: Frame)
    requires Good(w)
    ensures Good(WordRun(w, steps))
    ensures Record(WordRun(w, steps), RecordRun(Record(w, f), steps).frame) == RecordRun(Record(w, f), steps)
    ensures var last := WordRun(w, steps); LeafWord(Pa(last), UserFlags(last)) == last
    ensures var last := WordRun(w, steps); TlbWord(last) & D != 0 <==> RecordRun(Record(w, f), steps).w
    decreases |steps|
  {
    if steps == [] {
      ChildWordIs(w);
      TlbWordIs(w);
    } else {
      WordStepIs(w, steps[0], f);
      RunRefines(WordStep(w, steps[0]), steps[1..], RecordStep(Record(w, f), steps[0]).frame);
    }
  }

  // ----- addresses -----

  /** `loongarch_vpn`. */
  function Vpn(va: bv64, level: nat): bv64
    requires level <= 2
  {
    (if level == 0 then va >> 12 else if level == 1 then va >> 21 else va >> 30) & 0x1FF
  }

  /** The address `uvmcopy` rebuilds from three indices. */
  function Rebuild(i2: bv64, i1: bv64, i0: bv64): bv64 {
    (i2 << 30) | (i1 << 21) | (i0 << 12)
  }

  /** `walk` decodes the rebuilt address to the same indices. */
  lemma RebuildDecodes(i2: bv64, i1: bv64, i0: bv64)
    requires i2 < 512 && i1 < 512 && i0 < 512
    ensures var va := Rebuild(i2, i1, i0); Vpn(va, 2) == i2 && Vpn(va, 1) == i1 && Vpn(va, 0) == i0 && va & 0xFFF == 0
  {
  }

  /** Every page of the lower half is rebuilt from its indices, the first below 256. */
  lemma DecodeRebuilds(va: bv64)
    requires va < 0x40_0000_0000
    ensures Rebuild(Vpn(va, 2), Vpn(va, 1), Vpn(va, 0)) == va & !0xFFF && Vpn(va, 2) < 256
  {
    Field0(va);
    Field1(va);
    Field2(va);
    JoinFields(va);
    LowField(va);
  }

  lemma Field0(va: bv64)
    ensures ((va >> 12) & 0x1FF) << 12 == va & 0x1F_F000
  {
  }

  lemma Field1(va: bv64)
    ensures ((va >> 21) & 0x1FF) << 21 == va & 0x3FE0_0000
  {
  }

  lemma Field2(va: bv64)
    ensures ((va >> 30) & 0x1FF) << 30 == va & 0x7F_C000_0000
  {
  }

  lemma JoinFields(va: bv64)
    requires va < 0x40_0000_0000
    ensures (va & 0x7F_C000_0000) | (va & 0x3FE0_0000) | (va & 0x1F_F000) == va & !0xFFF
  {
  }

  lemma LowField(va: bv64)
    requires va < 0x40_0000_0000
    ensures (va >> 30) & 0x1FF < 256
  {
  }

  // ----- the TLB -----

  /** `loongarch_pte_to_tlbelo`. */
  function TlbWord(w: bv64): bv64 {
    if !IsValid(w) then 0
    else
      Pa(w) | (if w & V != 0 then V else 0) | (if w & D != 0 then D else 0)
      | (if w & PLV != 0 then w & PLV else 0) | (if w & MAT != 0 then w & MAT else 0)
      | (if w & G != 0 then G else 0) | (if w & NR != 0 then NR else 0)
      | (if w & NX != 0 then NX else 0) | (if w & RPLV != 0 then RPLV else 0)
  }

  /** `TlbWord` keeps exactly these fields. */
  lemma TlbFields(w: bv64)
    ensures IsValid(w) ==> TlbWord(w) == w & (PPN | V | D | PLV | MAT | G | NR | NX | RPLV)
  {
    if IsValid(w) {
      TlbLow(w);
      TlbHigh(w);
    }
  }

  lemma TlbLow(w: bv64)
    ensures (if w & V != 0 then V else 0) | (if w & D != 0 then D else 0) == w & (V | D)
    ensures (if w & PLV != 0 then w & PLV else 0) == w & PLV && (if w & MAT != 0 then w & MAT else 0) == w & MAT
  {
  }

  lemma TlbHigh(w: bv64)
    ensures (if w & G != 0 then G else 0) == w & G && (if w & NR != 0 then NR else 0) == w & NR
    ensures (if w & NX != 0 then NX else 0) == w & NX && (if w & RPLV != 0 then RPLV else 0) == w & RPLV
  {
  }

  lemma Masked(w: bv64, t: bv64)
    requires t == w & (PPN | V | D | PLV | MAT | G | NR | NX | RPLV)
    ensures t & PPN == w & PPN && t & V == w & V && t & D == w & D && t & PLV == w & PLV
    ensures t & (NR | NX | RPLV) == w & (NR | NX | RPLV)
  {
  }

  /** The TLB entry is valid exactly if the page-table entry is, and then has the same address, privilege
      and permissions; it allows writing exactly if the page-table entry does. */
  lemma TlbWordIs(w: bv64)
    requires w & W != 0 <==> w & D != 0
    ensures TlbWord(w) & V != 0 <==> IsValid(w)
    ensures IsValid(w) ==> Pa(TlbWord(w)) == Pa(w) && (TlbWord(w) & D != 0 <==> w & W != 0)
    ensures IsValid(w) ==> TlbWord(w) & PLV == w & PLV && TlbWord(w) & (NR | NX | RPLV) == w & (NR | NX | RPLV)
  {
    if IsValid(w) {
      TlbFields(w);
      Masked(w, TlbWord(w));
    }
  }

  function PairVa(va: bv64): bv64 {
    va & !0x1FFF
  }

  lemma PageOfPair(va: bv64)
    ensures va & 0x1000 == 0 ==> PairVa(va) == va & !0xFFF
    ensures va & 0x1000 != 0 ==> PairVa(va) + 0x1000 == va & !0xFFF
  {
  }

  /** The first byte of a page has its indices and its half. */
  lemma PageStart(va: bv64)
    ensures Vpn(va & !0xFFF, 2) == Vpn(va, 2) && Vpn(va & !0xFFF, 1) == Vpn(va, 1) && Vpn(va & !0xFFF, 0) == Vpn(va, 0)
  {
  }

  /** The bits above the 38 of an address in one half. */
  function Top(va: bv64): bv64 {
    va >> 38
  }

  predicate IsLow(va: bv64) {
    Top(va) == 0
  }

  predicate IsHigh(va: bv64) {
    Top(va) == 0x3FF_FFFF
  }

  predicate InHalves(va: bv64) {
    IsLow(va) || IsHigh(va)
  }

  /** The halves as `loongarch_is_low_va` and `loongarch_is_high_va` compare them. */
  lemma HalvesAre(va: bv64)
    ensures (IsLow(va) <==> va < 0x40_0000_0000) && (IsHigh(va) <==> va >= 0xFFFF_FFC0_0000_0000)
  {
  }

  lemma StartTop(va: bv64)
    ensures Top(va & !0xFFF) == Top(va)
  {
  }

  lemma StartHalf(va: bv64)
    ensures InHalves(va & !0xFFF) <==> InHalves(va)
  {
    StartTop(va);
  }

  lemma PairTop(va: bv64)
    ensures Top(PairVa(va)) == Top(va)
  {
  }

  lemma PairHalf(va: bv64, badva: bv64)
    requires PairVa(va) == PairVa(badva)
    ensures InHalves(va) <==> InHalves(badva)
  {
    PairTop(va);
    PairTop(badva);
  }

  lemma TlbGrants(w: bv64)
    requires Good(w)
    ensures var lo := TlbWord(w);
      && lo & V != 0 && Pa(lo) == Pa(w) && (lo & D != 0 <==> w & W != 0) && (lo & PLV == PLV <==> w & PLV == PLV)
      && (lo & NR != 0 <==> w & NR != 0) && (lo & NX != 0 <==> w & NX != 0)
  {
    TlbWordIs(w);
    HighBits(TlbWord(w), w);
  }

  lemma HighBits(a: bv64, b: bv64)
    requires a & (NR | NX | RPLV) == b & (NR | NX | RPLV)
    ensures a & NR == b & NR && a & NX == b & NX
  {
  }

  lemma ValidV(w: bv64)
    requires IsValid(w)
    ensures w & V == V
  {
  }

  lemma TlbNonZero(w: bv64)
    requires IsValid(w)
    ensures TlbWord(w) != 0
  {
    TlbFields(w);
    Masked(w, TlbWord(w));
    ValidV(w);
  }
}
