/** Signal delivery: the frames a pass pushes on the user stack, and how `rt_sigreturn` undoes them. */
module Signals {
  import opened SignalMasks

  // ----- user memory -----

  type Byte = b: int | 0 <= b < 256
  type Memory = map<nat, Byte>

  function At(m: Memory, a: nat): Byte {
    if a in m then m[a] else 0
  }

  function Read(m: Memory, a: nat, n: nat): (s: seq<Byte>)
    ensures |s| == n && forall i | 0 <= i < n :: s[i] == At(m, a + i)
  {
    seq<Byte>(n, (i: nat) => At(m, a + i))
  }

  function Write(m: Memory, a: nat, s: seq<Byte>): (m': Memory)
    ensures forall x: nat :: At(m', x) == if a <= x < a + |s| then s[x - a] else At(m, x)
    decreases |s|
  {
    if s == [] then m else Write(m[a := s[0]], a + 1, s[1..])
  }

  lemma ReadBack(m: Memory, a: nat, s: seq<Byte>)
    ensures Read(Write(m, a, s), a, |s|) == s
  {
  }

  // ----- words in memory, least significant byte first -----

  function Encode(x: nat, n: nat): (s: seq<Byte>)
    ensures |s| == n
  {
    if n == 0 then [] else [x % 256] + Encode(x / 256, n - 1)
  }

  function Decode(s: seq<Byte>): nat {
    if s == [] then 0 else s[0] + 256 * Decode(s[1..])
  }

  function Power(n: nat): nat {
    if n == 0 then 1 else 256 * Power(n - 1)
  }

  lemma {:induction false} DecodeEncode(x: nat, n: nat)
    requires x < Power(n)
    ensures Decode(Encode(x, n)) == x
  {
    if n > 0 {
      assert x / 256 < Power(n - 1);
      DecodeEncode(x / 256, n - 1);
      assert Encode(x, n)[1..] == Encode(x / 256, n - 1);
    }
  }

  function EncodeAll(ws: seq<nat>): (s: seq<Byte>)
    ensures |s| == 8 * |ws|
  {
    if ws == [] then [] else Encode(ws[0], 8) + EncodeAll(ws[1..])
  }

  function DecodeAll(s: seq<Byte>): seq<nat>
    requires |s| % 8 == 0
    decreases |s|
  {
    if s == [] then [] else [Decode(s[..8])] + DecodeAll(s[8..])
  }

  ghost predicate Words(ws: seq<nat>) {
    forall i | 0 <= i < |ws| :: ws[i] < 0x1_0000_0000_0000_0000
  }

  lemma {:induction false} DecodeEncodeAll(ws: seq<nat>)
    requires Words(ws)
    ensures DecodeAll(EncodeAll(ws)) == ws
  {
    if ws != [] {
      var s := EncodeAll(ws);
      assert s[..8] == Encode(ws[0], 8) && s[8..] == EncodeAll(ws[1..]);
      assert Power(8) == 0x1_0000_0000_0000_0000;
      DecodeEncode(ws[0], 8);
      DecodeEncodeAll(ws[1..]);
      assert [ws[0]] + ws[1..] == ws;
    }
  }

  // ----- frames -----

  const SP: nat := 2
  const A0: nat := 3
  const RA: nat := 0
  const EPC: nat := 31
  const FRAME: nat := 264            // 32 registers and the mask
  const WORD: nat := 0x1_0000_0000_0000_0000

  datatype Action = Action(handler: nat, restorer: nat, mask: set<nat>)

  /** A process as signals see it: 32 saved registers, the two masks and its memory. */
  datatype Proc = Proc(tf: seq<nat>, blocked: set<nat>, pending: set<nat>, mem: Memory)

  ghost predicate ProcOk(p: Proc) {
    |p.tf| == 32 && Words(p.tf) && MaskOk(p.blocked)
  }

  /** Masks are sets of bit numbers below 64; bit `n` stands for signal `n + 1`. */
  ghost predicate MaskOk(m: set<nat>) {
    forall n | n in m :: n < 64
  }

  function MaskBits(m: set<nat>): (bs: seq<bool>)
    ensures |bs| == 64 && forall n: nat | n < 64 :: bs[n] == (n in m)
  {
    seq(64, (n: nat) => n in m)
  }

  function MaskWord(m: set<nat>): nat {
    FromBits(MaskBits(m))
  }

  function WordMask(w: nat): set<nat> {
    set n: nat | n < 64 && BitAt(w, n)
  }

  lemma MaskRoundTrip(m: set<nat>)
    requires MaskOk(m)
    ensures WordMask(MaskWord(m)) == m && MaskWord(m) < WORD
  {
    forall n: nat | n < 64 ensures BitAt(MaskWord(m), n) <==> n in m { WordBits(MaskBits(m), n); }
    WordBound(MaskBits(m));
    Power64();
  }

  /** Where the frame goes: below the stack pointer, 16-byte aligned, in 64-bit arithmetic. */
  function FrameAt(sp: nat): nat {
    (sp - FRAME) % WORD / 16 * 16
  }

  lemma FrameAtIs(sp: nat)
    requires FRAME <= sp < WORD
    ensures FrameAt(sp) % 16 == 0 && FrameAt(sp) + FRAME <= sp < FrameAt(sp) + FRAME + 16
  {
  }

  /** One delivery: the signal, its handler and restorer, and the masks while the handler runs. */
  datatype Entry = Entry(sig: nat, handler: nat, restorer: nat, blocked: set<nat>, pending: set<nat>)

  /** Push a frame and enter the handler. */
  function Deliver(p: Proc, e: Entry): Proc
    requires |p.tf| == 32
  {
    var fsp := FrameAt(p.tf[SP]);
    Proc(p.tf[SP := fsp][EPC := e.handler][A0 := e.sig][RA := e.restorer], e.blocked, e.pending,
         Write(p.mem, fsp, EncodeAll(p.tf + [MaskWord(p.blocked)])))
  }

  /** `rt_sigreturn`: take the frame at the stack pointer; a frame with a zero pc or sp is refused. */
  function SigReturn(p: Proc): Proc
    requires |p.tf| == 32
  {
    var ws := DecodeAll(Read(p.mem, p.tf[SP], FRAME));
    if |ws| != 33 || ws[EPC] == 0 || ws[SP] == 0 then p
    else p.(tf := ws[..32], blocked := WordMask(ws[32]))
  }

  /** The memory at `a` holds a frame with these registers and this mask. */
  ghost predicate Holds(m: Memory, a: nat, tf: seq<nat>, mask: set<nat>) {
    Read(m, a, FRAME) == EncodeAll(tf + [MaskWord(mask)])
  }

  /** Returning on an intact frame restores all registers, a0 included, and the mask. */
  lemma ReturnRestores(p: Proc, tf: seq<nat>, mask: set<nat>)
    requires ProcOk(p) && |tf| == 32 && Words(tf) && MaskOk(mask) && Holds(p.mem, p.tf[SP], tf, mask) && tf[EPC] != 0
    requires tf[SP] != 0
    ensures SigReturn(p) == p.(tf := tf, blocked := mask)
  {
    var ws := tf + [MaskWord(mask)];
    MaskRoundTrip(mask);
    DecodeEncodeAll(ws);
    assert ws[..32] == tf;
  }

  /** On an intact frame the saved state comes back if and only if its pc and sp are not 0, or the process is
      in that state already. */
  lemma ReturnExact(p: Proc, tf: seq<nat>, mask: set<nat>)
    requires ProcOk(p) && |tf| == 32 && Words(tf) && MaskOk(mask) && Holds(p.mem, p.tf[SP], tf, mask)
    ensures SigReturn(p) == p.(tf := tf, blocked := mask) <==>
      (tf[EPC] != 0 && tf[SP] != 0) || (p.tf == tf && p.blocked == mask)
  {
    if tf[EPC] != 0 && tf[SP] != 0 {
      ReturnRestores(p, tf, mask);
    } else {
      ReturnOnZero(p, tf, mask);
    }
  }

  lemma ReturnOnZero(p: Proc, tf: seq<nat>, mask: set<nat>)
    requires ProcOk(p) && |tf| == 32 && Words(tf) && MaskOk(mask) && Holds(p.mem, p.tf[SP], tf, mask)
    requires tf[EPC] == 0 || tf[SP] == 0
    ensures SigReturn(p) == p
  {
    MaskRoundTrip(mask);
    DecodeEncodeAll(tf + [MaskWord(mask)]);
  }

  /** A frame with saved pc 0: the return is refused and the registers stay those of the handler. */
  lemma ReturnRefused() returns (p: Proc, tf: seq<nat>)
    ensures ProcOk(p) && |tf| == 32 && Words(tf) && Holds(p.mem, p.tf[SP], tf, {}) && tf[EPC] == 0 && tf[SP] != 0
    ensures SigReturn(p) == p && p.tf != tf
  {
    tf := seq(32, i => if i == SP then 4096 else 0);
    p := RefusedAt(tf, 2048);
  }

  lemma RefusedAt(tf: seq<nat>, sp: nat) returns (p: Proc)
    requires |tf| == 32 && Words(tf) && tf[EPC] == 0 && sp < WORD && sp != tf[SP]
    ensures ProcOk(p) && Holds(p.mem, p.tf[SP], tf, {}) && SigReturn(p) == p && p.tf != tf
  {
    var frame := EncodeAll(tf + [MaskWord({})]);
    p := Proc(tf[SP := sp], {}, {}, Write(map[], sp, frame));
    ReadBack(map[], sp, frame);
    assert p.tf[SP] != tf[SP];
    ReturnOnZero(p, tf, {});
  }

  ghost predicate EntryOk(e: Entry) {
    0 < e.handler < WORD && e.restorer < WORD && e.sig < WORD && MaskOk(e.blocked)
  }

  lemma DeliverHolds(p: Proc, e: Entry)
    requires ProcOk(p) && EntryOk(e) && FRAME <= p.tf[SP]
    ensures var p' := Deliver(p, e); var fsp := p'.tf[SP];
      && ProcOk(p') && fsp == FrameAt(p.tf[SP]) && fsp % 16 == 0 && fsp + FRAME <= p.tf[SP]
      && Holds(p'.mem, fsp, p.tf, p.blocked)
      && forall x: nat | x >= p.tf[SP] || x < fsp :: At(p'.mem, x) == At(p.mem, x)
  {
    FrameAtIs(p.tf[SP]);
    ReadBack(p.mem, FrameAt(p.tf[SP]), EncodeAll(p.tf + [MaskWord(p.blocked)]));
  }

  // ----- nested deliveries, handlers running in between -----

  /** What a frame on the stack was pushed for. */
  datatype Saved = Saved(addr: nat, tf: seq<nat>, mask: set<nat>)

  datatype Sys = Sys(proc: Proc, stack: seq<Saved>)

  /** A frame is intact and lies below the stack pointer it saved. */
  ghost predicate SavedOk(m: Memory, f: Saved) {
    && |f.tf| == 32 && Words(f.tf) && MaskOk(f.mask) && Holds(m, f.addr, f.tf, f.mask) && f.addr % 16 == 0
    && f.addr + FRAME <= f.tf[SP]
  }

  /** The address the stack pointer may not rise above while `stack` is in use. */
  function Limit(stack: seq<Saved>): nat {
    if stack == [] then WORD else stack[|stack| - 1].addr
  }

  /** All frames are intact, and each lies wholly below the one before. */
  ghost predicate StackOk(m: Memory, stack: seq<Saved>) {
    && (forall i | 0 <= i < |stack| :: SavedOk(m, stack[i]))
    && (forall i | 0 < i < |stack| :: stack[i].tf[SP] <= stack[i - 1].addr)
  }

  ghost predicate SysOk(s: Sys) {
    ProcOk(s.proc) && StackOk(s.proc.mem, s.stack) && s.proc.tf[SP] <= Limit(s.stack)
  }

  /** A signal arrives, user code runs, or a handler returns. */
  datatype Op = DeliverOp(e: Entry) | UserOp(next: Proc) | ReturnOp

  /** The byte belongs to a frame on the stack. */
  ghost predicate InFrame(stack: seq<Saved>, x: nat) {
    exists i :: 0 <= i < |stack| && stack[i].addr <= x < stack[i].addr + FRAME
  }

  /** User code may do anything that writes no byte of a frame and keeps the stack pointer below the frames; a
      handler returns with the stack pointer at its frame. */
  ghost predicate Enabled(s: Sys, op: Op) {
    match op
    case DeliverOp(e) => EntryOk(e) && |s.proc.tf| == 32 && FRAME <= s.proc.tf[SP]
    case UserOp(next) =>
      && ProcOk(next) && next.tf[SP] <= Limit(s.stack)
      && forall x: nat | InFrame(s.stack, x) :: At(next.mem, x) == At(s.proc.mem, x)
    case ReturnOp => |s.proc.tf| == 32 && s.proc.tf[SP] == Limit(s.stack) && CanReturn(s.stack)
  }

  /** The frame on top has a nonzero pc and sp, so `rt_sigreturn` accepts it. */
  ghost predicate CanReturn(stack: seq<Saved>) {
    stack != [] && (var top := stack[|stack| - 1]; |top.tf| == 32 && top.tf[EPC] != 0 && top.tf[SP] != 0)
  }

  ghost function Step(s: Sys, op: Op): Sys {
    match op
    case DeliverOp(e) =>
      if |s.proc.tf| == 32 then
        Sys(Deliver(s.proc, e), s.stack + [Saved(FrameAt(s.proc.tf[SP]), s.proc.tf, s.proc.blocked)])
      else s
    case UserOp(next) => Sys(next, s.stack)
    case ReturnOp => if s.stack != [] && |s.proc.tf| == 32 then Sys(SigReturn(s.proc), s.stack[..|s.stack| - 1]) else s
  }

  lemma StackBelow(m: Memory, stack: seq<Saved>, i: nat)
    requires StackOk(m, stack) && i < |stack|
    ensures Limit(stack) <= stack[i].addr
    decreases |stack| - i
  {
    if i + 1 < |stack| {
      StackBelow(m, stack, i + 1);
      assert SavedOk(m, stack[i + 1]);
    }
  }

  /** Frames are disjoint and aligned in every state of a run. */
  lemma FramesApart(m: Memory, stack: seq<Saved>, i: nat, j: nat)
    requires StackOk(m, stack) && i < j < |stack|
    ensures stack[j].addr + FRAME <= stack[i].addr && stack[i].addr % 16 == 0
    decreases j - i
  {
    assert SavedOk(m, stack[i]) && SavedOk(m, stack[j]);
    if i + 1 < j {
      FramesApart(m, stack, i + 1, j);
      assert SavedOk(m, stack[i + 1]);
    }
  }

  /** A frame above the stack pointer survives a change below it. */
  lemma SavedStays(m: Memory, m': Memory, f: Saved, sp: nat)
    requires SavedOk(m, f) && sp <= f.addr && forall x: nat | x >= sp :: At(m', x) == At(m, x)
    ensures SavedOk(m', f)
  {
    assert Read(m', f.addr, FRAME) == Read(m, f.addr, FRAME);
  }

  lemma PushStack(m: Memory, m': Memory, stack: seq<Saved>, top: Saved)
    requires StackOk(m, stack) && SavedOk(m', top) && top.tf[SP] <= Limit(stack)
    requires forall x: nat | x >= top.tf[SP] :: At(m', x) == At(m, x)
    ensures StackOk(m', stack + [top])
  {
    var now := stack + [top];
    forall i | 0 <= i < |now| ensures SavedOk(m', now[i]) {
      if i < |stack| {
        StackBelow(m, stack, i);
        SavedStays(m, m', stack[i], top.tf[SP]);
      }
    }
  }

  lemma DeliverKeeps(s: Sys, e: Entry)
    requires SysOk(s) && Enabled(s, DeliverOp(e))
    ensures SysOk(Step(s, DeliverOp(e)))
  {
    DeliverHolds(s.proc, e);
    PushStack(s.proc.mem, Deliver(s.proc, e).mem, s.stack, Saved(FrameAt(s.proc.tf[SP]), s.proc.tf, s.proc.blocked));
  }

  /** A return gives back exactly the registers and mask of the frame on top. */
  lemma ReturnKeeps(s: Sys)
    requires SysOk(s) && Enabled(s, ReturnOp)
    ensures var s' := Step(s, ReturnOp); var top := s.stack[|s.stack| - 1];
      && SysOk(s') && s'.proc.tf == top.tf && s'.proc.blocked == top.mask && s'.proc.mem == s.proc.mem
      && s'.proc.pending == s.proc.pending
  {
    var top := s.stack[|s.stack| - 1];
    assert SavedOk(s.proc.mem, top);
    ReturnRestores(s.proc, top.tf, top.mask);
  }

  lemma UserKeeps(s: Sys, next: Proc)
    requires SysOk(s) && Enabled(s, UserOp(next))
    ensures SysOk(Sys(next, s.stack))
  {
    forall i | 0 <= i < |s.stack| ensures SavedOk(next.mem, s.stack[i]) {
      var f := s.stack[i];
      assert SavedOk(s.proc.mem, f);
      forall x: nat | f.addr <= x < f.addr + FRAME
        ensures At(next.mem, x) == At(s.proc.mem, x)
      {
        assert InFrame(s.stack, x);
      }
      assert Read(next.mem, f.addr, FRAME) == Read(s.proc.mem, f.addr, FRAME);
    }
  }

  lemma StepKeeps(s: Sys, op: Op)
    requires SysOk(s) && Enabled(s, op)
    ensures SysOk(Step(s, op))
  {
    match op
    case DeliverOp(e) => DeliverKeeps(s, e);
    case UserOp(next) => UserKeeps(s, next);
    case ReturnOp => ReturnKeeps(s);
  }

  ghost function Run(s: Sys, ops: seq<Op>): Sys
    decreases |ops|
  {
    if ops == [] then s else Run(Step(s, ops[0]), ops[1..])
  }

  /** Every step is possible and the stack never has fewer than `base` frames. */
  ghost predicate Runs(s: Sys, ops: seq<Op>, base: nat)
    decreases |ops|
  {
    |s.stack| >= base && (ops == [] || (Enabled(s, ops[0]) && Runs(Step(s, ops[0]), ops[1..], base)))
  }

  lemma {:induction false} RunKeeps(s: Sys, ops: seq<Op>, base: nat)
    requires SysOk(s) && Runs(s, ops, base)
    ensures var s' := Run(s, ops); SysOk(s') && |s'.stack| >= base && s'.stack[..base] == s.stack[..base]
    decreases |ops|
  {
    if ops != [] {
      StepKeeps(s, ops[0]);
      RunKeeps(Step(s, ops[0]), ops[1..], base);
    }
  }

  /** While the handler of a delivery runs, its frame stays where it is. */
  lemma FrameStays(s: Sys, e: Entry, ops: seq<Op>)
    requires SysOk(s) && Enabled(s, DeliverOp(e)) && Runs(Step(s, DeliverOp(e)), ops, |s.stack| + 1)
    requires |Run(Step(s, DeliverOp(e)), ops).stack| == |s.stack| + 1
    ensures var s2 := Run(Step(s, DeliverOp(e)), ops);
      SysOk(s2) && s2.stack == s.stack + [Saved(FrameAt(s.proc.tf[SP]), s.proc.tf, s.proc.blocked)]
  {
    var s1 := Step(s, DeliverOp(e));
    DeliverKeeps(s, e);
    RunKeeps(s1, ops, |s.stack| + 1);
    assert s1.stack[..|s.stack| + 1] == s1.stack;
    var s2 := Run(s1, ops);
    assert s2.stack[..|s.stack| + 1] == s2.stack;
  }

  /** Deliveries nest: whatever happens while the handler runs, further deliveries and their returns
      included, the return that matches a delivery restores the registers, a0 included, and the mask the
      process had when that signal was delivered. */
  lemma DeliveryRestored(s: Sys, e: Entry, ops: seq<Op>, s2: Sys)
    requires SysOk(s) && Enabled(s, DeliverOp(e)) && s.proc.tf[EPC] != 0 && s.proc.tf[SP] != 0
    requires Runs(Step(s, DeliverOp(e)), ops, |s.stack| + 1) && s2 == Run(Step(s, DeliverOp(e)), ops)
    requires |s2.stack| == |s.stack| + 1 && |s2.proc.tf| == 32 && s2.proc.tf[SP] == Limit(s2.stack)
    ensures var s3 := Step(s2, ReturnOp);
      s3.proc.tf == s.proc.tf && s3.proc.blocked == s.proc.blocked && s3.stack == s.stack && SysOk(s3)
  {
    FrameStays(s, e, ops);
    TopRestored(s2, s.stack, Saved(FrameAt(s.proc.tf[SP]), s.proc.tf, s.proc.blocked));
  }

  lemma TopRestored(s: Sys, below: seq<Saved>, top: Saved)
    requires SysOk(s) && s.stack == below + [top] && s.proc.tf[SP] == Limit(s.stack) && |top.tf| == 32
    requires top.tf[EPC] != 0 && top.tf[SP] != 0
    ensures var s' := Step(s, ReturnOp);
      s'.proc.tf == top.tf && s'.proc.blocked == top.mask && s'.stack == below && SysOk(s')
  {
    assert s.stack[|s.stack| - 1] == top;
    ReturnKeeps(s);
    assert s.stack[..|s.stack| - 1] == below;
  }

  // ----- one pass of `check_signal` -----

  /** How a pass ends: all ready signals taken, the process exits, or a frame could not be pushed. */
  datatype Outcome = Finished | Exits(sig: nat) | Stopped

  ghost function DeliverAll(p: Proc, es: seq<Entry>): Proc
    requires |p.tf| == 32
    ensures |DeliverAll(p, es).tf| == 32
    decreases |es|
  {
    if es == [] then p else Deliver(DeliverAll(p, es[..|es| - 1]), es[|es| - 1])
  }

  function Unwind(p: Proc, k: nat): Proc
    requires |p.tf| == 32
    decreases k
  {
    if k == 0 then p else Unwind(SigReturn(p), k - 1)
  }

  /** Enough stack for `k` more frames, and a place to return to. */
  ghost predicate Roomy(p: Proc, k: nat) {
    ProcOk(p) && p.tf[SP] > 280 * k && p.tf[EPC] != 0
  }

  lemma {:induction false} DeliverAllOk(p: Proc, es: seq<Entry>, k: nat)
    requires Roomy(p, |es| + k) && EntriesFit(es)
    ensures Roomy(DeliverAll(p, es), k)
    decreases |es|
  {
    if es != [] {
      var rest, e := es[..|es| - 1], es[|es| - 1];
      DeliverAllOk(p, rest, k + 1);
      assert e in es;
      var q := DeliverAll(p, rest);
      DeliverHolds(q, e);
      FrameAtIs(q.tf[SP]);
    }
  }

  ghost predicate EntriesFit(es: seq<Entry>) {
    forall e | e in es :: EntryOk(e)
  }

  /** `q` has the registers and the mask of `d` and its memory from the stack pointer up. */
  ghost predicate Resumes(q: Proc, d: Proc) {
    SameRegs(q, d) && forall x: nat | x >= d.tf[SP] :: At(q.mem, x) == At(d.mem, x)
  }

  /** A return undoes the last delivery. */
  lemma ReturnUndoes(d: Proc, e: Entry, q: Proc)
    requires ProcOk(d) && EntryOk(e) && FRAME <= d.tf[SP] && d.tf[EPC] != 0 && Resumes(q, Deliver(d, e))
    ensures Resumes(SigReturn(q), d)
  {
    DeliverHolds(d, e);
    assert Read(q.mem, q.tf[SP], FRAME) == Read(Deliver(d, e).mem, q.tf[SP], FRAME);
    ReturnRestores(q, d.tf, d.blocked);
  }

  lemma ReturnOnce(p: Proc, es: seq<Entry>, q: Proc)
    requires Roomy(p, |es|) && EntriesFit(es) && es != []
    requires Resumes(q, DeliverAll(p, es))
    ensures Resumes(SigReturn(q), DeliverAll(p, es[..|es| - 1]))
  {
    assert es[|es| - 1] in es;
    DeliverAllOk(p, es[..|es| - 1], 1);
    ReturnUndoes(DeliverAll(p, es[..|es| - 1]), es[|es| - 1], q);
  }

  /** Returning `j` times leads back to where the process stood before the last `j` deliveries. */
  lemma {:induction false} PassUnwound(p: Proc, es: seq<Entry>, q: Proc, j: nat)
    requires Roomy(p, |es|) && EntriesFit(es) && j <= |es|
    requires Resumes(q, DeliverAll(p, es))
    ensures SameRegs(Unwind(q, j), DeliverAll(p, es[..|es| - j]))
    decreases j
  {
    if j == 0 {
      assert es[..|es|] == es;
    } else {
      var rest := es[..|es| - 1];
      ReturnOnce(p, es, q);
      PassUnwound(p, rest, SigReturn(q), j - 1);
      assert rest[..|rest| - (j - 1)] == es[..|es| - j];
    }
  }

  /** As many returns as a pass made deliveries give back the registers, a0 included, and the mask the
      process had before the pass. */
  lemma PassRestored(p: Proc, es: seq<Entry>, q: Proc)
    requires Roomy(p, |es|) && EntriesFit(es)
    requires Resumes(q, DeliverAll(p, es))
    ensures SameRegs(Unwind(q, |es|), p)
  {
    PassUnwound(p, es, q, |es|);
  }

  /** A pass writes nothing from the stack pointer up and leaves it aligned below. */
  lemma {:induction false} PassBelow(p: Proc, es: seq<Entry>)
    requires Roomy(p, |es|) && EntriesFit(es)
    ensures Below(p, DeliverAll(p, es))
    decreases |es|
  {
    if es != [] {
      var rest, e := es[..|es| - 1], es[|es| - 1];
      assert e in es;
      PassBelow(p, rest);
      DeliverAllOk(p, rest, 1);
      DeliverHolds(DeliverAll(p, rest), e);
    }
  }

  ghost predicate Below(p: Proc, d: Proc) {
    && |p.tf| == |d.tf| == 32 && d.tf[SP] <= p.tf[SP] && (d.tf[SP] % 16 == 0 || d.tf[SP] == p.tf[SP])
    && forall x: nat | x >= p.tf[SP] :: At(d.mem, x) == At(p.mem, x)
  }

  ghost predicate SameRegs(p: Proc, q: Proc) {
    |p.tf| == 32 && p.tf == q.tf && p.blocked == q.blocked
  }

  /** The same process, up to the pending mask. */
  ghost predicate SameBut(p: Proc, q: Proc) {
    SameRegs(p, q) && p.mem == q.mem
  }

  class Process {
    var tf: seq<nat>
    var blocked: set<nat>
    var pending: set<nat>
    var mem: Memory
    var actions: seq<Action>

    ghost function Now(): Proc
      reads this
    {
      Proc(tf, blocked, pending, mem)
    }

    /** Push a frame and enter the handler: it starts at its address with the signal in a0 and returns to the
        restorer; the frame at its stack pointer holds the old registers and mask. */
    method PushFrame(sig: nat, action: Action, blocking: set<nat>)
      requires |tf| == 32
      modifies `tf, `blocked, `mem
      ensures |tf| == 32 && tf[EPC] == action.handler && tf[A0] == sig && tf[RA] == action.restorer
      ensures forall r | 0 <= r < 32 && r !in {SP, EPC, A0, RA} :: tf[r] == old(tf)[r]
      ensures tf[SP] == FrameAt(old(tf)[SP]) && Holds(mem, tf[SP], old(tf), old(blocked)) && blocked == blocking
      ensures forall x: nat | !(tf[SP] <= x < tf[SP] + FRAME) :: At(mem, x) == At(old(mem), x)
      ensures Now() == Deliver(old(Now()), Entry(sig, action.handler, action.restorer, blocking, pending))
    {
      var fsp := FrameAt(tf[SP]);
      ReadBack(mem, fsp, EncodeAll(tf + [MaskWord(blocked)]));
      mem := Write(mem, fsp, EncodeAll(tf + [MaskWord(blocked)]));
      tf := tf[SP := fsp][EPC := action.handler][A0 := sig][RA := action.restorer];
      blocked := blocking;
    }

    /** One ready signal: ignored, fatal, refused for want of a restorer or of room for the frame, or
        delivered. */
    method TakeSignal(n: nat, room: nat -> bool, ghost p0: Proc, ghost es: seq<Entry>)
      returns (out: Outcome, ghost es': seq<Entry>)
      requires n < 63 && |p0.tf| == 32 && |tf| == 32 && ActionsOk(actions) && MaskOk(blocked)
      requires SameBut(Now(), DeliverAll(p0, es)) && AllEntered(p0, actions, es)
      modifies `tf, `blocked, `pending, `mem
      ensures SameBut(Now(), DeliverAll(p0, es')) && |tf| == 32 && MaskOk(blocked) && AllEntered(p0, actions, es')
      ensures out == Stopped <==> Refused(actions[n + 1], room, old(tf)[SP])
      ensures out == Stopped ==> es' == es && pending == old(pending) && tf == old(tf)
      ensures out != Stopped ==> pending == old(pending) - {n}
      ensures out != Stopped ==> (out == if actions[n + 1].handler == 0 then Exits(n + 1) else Finished)
      ensures out != Stopped ==>
        es' == if actions[n + 1].handler <= 1 then es else es + [EntryOf(n, actions[n + 1], old(blocked), pending)]
    {
      var action := actions[n + 1];
      es' := es;
      if action.handler == 1 {
        pending := pending - {n};
        return Finished, es;
      }
      if action.handler == 0 {
        pending := pending - {n};
        return Exits(n + 1), es;
      }
      if action.restorer == 0 || !room(FrameAt(tf[SP])) { return Stopped, es; }
      pending := pending - {n};
      var blocking := blocked + action.mask + {n};
      ghost var e := EntryOf(n, action, blocked, pending);
      DeliverNext(p0, es, Now(), e);
      EnteredNext(p0, actions, es, n, pending);
      es' := es + [e];
      PushFrame(n + 1, action, blocking);
      out := Finished;
    }

    /** One round of the loop below. */
    method TakeLowest(n: nat, room: nat -> bool, ghost p0: Proc, ghost es: seq<Entry>, ghost all: set<nat>,
        ghost taken: set<nat>, ghost ready: set<nat>)
      returns (out: Outcome, ghost es': seq<Entry>, ghost taken': set<nat>)
      requires n < 63 && |p0.tf| == 32 && |tf| == 32 && ActionsOk(actions) && MaskOk(blocked)
      requires SameBut(Now(), DeliverAll(p0, es)) && AllEntered(p0, actions, es) && pending == p0.pending - taken
      requires Passing(all, taken, ready, es, actions) && IsLeast(ready, n)
      modifies `tf, `blocked, `pending, `mem
      ensures |tf| == 32 && MaskOk(blocked) && SameBut(Now(), DeliverAll(p0, es')) && pending == p0.pending - taken'
      ensures AllEntered(p0, actions, es')
      ensures EntriesOk(es', taken', actions)
      ensures out == Finished ==> Passing(all, taken', ready - {n}, es', actions)
      ensures out != Finished ==> PassDone(out, all, taken', actions, room, tf[SP])
    {
      ghost var was := blocked;
      out, es' := TakeSignal(n, room, p0, es);
      taken' := taken;
      if out == Stopped {
        PassStops(all, taken, ready, n, actions, room, tf[SP]);
        return;
      }
      TakeNext(all, es, es', taken, ready, n, actions, was, pending);
      taken' := taken + {n};
      if out.Exits? { PassExits(all, taken', ready - {n}, n, actions, room, tf[SP]); }
    }

    /** The loop of `check_signal`.  `room` says where a frame can be written.  The entries are the
        deliveries made, in increasing order of signals; `taken` are the signals consumed, each once: all
        ready ones if the pass finishes, and never one that was blocked or not pending. */
    method DeliverReady(room: nat -> bool) returns (out: Outcome, ghost es: seq<Entry>, ghost taken: set<nat>)
      requires |tf| == 32 && ActionsOk(actions) && MaskOk(blocked) && SentOk(pending)
      modifies `tf, `blocked, `pending, `mem
      ensures |tf| == 32 && SameBut(Now(), DeliverAll(old(Now()), es)) && EntriesOk(es, taken, actions)
      ensures pending == old(pending) - taken && AllEntered(old(Now()), actions, es)
      ensures PassDone(out, old(pending) - old(blocked), taken, actions, room, tf[SP])
    {
      WordOfIs(pending - blocked);
      out, es, taken := DeliverWord(WordOf(pending - blocked), room, pending - blocked);
    }

    /** The loop itself, over the word of the ready signals. */
    method DeliverWord(ready: bv64, room: nat -> bool, ghost all: set<nat>)
      returns (out: Outcome, ghost es: seq<Entry>, ghost taken: set<nat>)
      requires |tf| == 32 && ActionsOk(actions) && MaskOk(blocked) && Bits(ready) == all && SentOk(all)
      modifies `tf, `blocked, `pending, `mem
      ensures |tf| == 32 && SameBut(Now(), DeliverAll(old(Now()), es)) && EntriesOk(es, taken, actions)
      ensures pending == old(pending) - taken && AllEntered(old(Now()), actions, es)
      ensures PassDone(out, all, taken, actions, room, tf[SP])
    {
      ghost var p0 := Now();
      var word := ready;
      es, taken := [], {};
      assert AllEntered(p0, actions, []);
      while word != 0
        invariant AllEntered(p0, actions, es)
        invariant |tf| == 32 && MaskOk(blocked) && SameBut(Now(), DeliverAll(p0, es)) && pending == p0.pending - taken
        invariant Passing(all, taken, Bits(word), es, actions)
        decreases Bits(word)
      {
        var n, rest := SplitLowest(word);
        out, es, taken := TakeLowest(n, room, p0, es, all, taken, Bits(word));
        word := rest;
        if out != Finished { return; }
      }
      NoMembers(0, 64);
      out := Finished;
    }

    /** `check_signal`: a pending SIGKILL, then SIGSTOP, ends the process whatever is blocked; otherwise the
        ready signals are delivered.  The process then stands at the handler of the last signal delivered, and each
        return brings it to the handler of the one before, with the mask as it was there. */
    method CheckSignal(room: nat -> bool) returns (out: Outcome, ghost es: seq<Entry>, ghost taken: set<nat>)
      requires |tf| == 32 && ActionsOk(actions) && MaskOk(blocked) && SentOk(pending)
      modifies `tf, `blocked, `pending, `mem
      ensures |tf| == 32 && SameBut(Now(), DeliverAll(old(Now()), es)) && EntriesOk(es, taken, actions)
      ensures pending == old(pending) - taken
      ensures Entered(old(Now()), actions, es, Now())
      ensures Roomy(old(Now()), |es|) ==> Undone(old(Now()), Now(), |es|) && Below(old(Now()), Now())
      ensures Roomy(old(Now()), |es|) ==> Unwinds(old(Now()), actions, es, Now())
      ensures KILL in old(pending) ==> out == Exits(9) && taken == {}
      ensures KILL !in old(pending) && STOP in old(pending) ==> out == Exits(19) && taken == {}
      ensures KILL !in old(pending) && STOP !in old(pending) ==>
        PassDone(out, old(pending) - old(blocked), taken, actions, room, tf[SP])
    {
      es, taken := [], {};
      assert AllEntered(Now(), actions, []);
      if KILL in pending || STOP in pending {
        out := if KILL in pending then Exits(9) else Exits(19);
      } else {
        out, es, taken := DeliverReady(room);
      }
      EnteredLast(old(Now()), actions, es, Now());
      if Roomy(old(Now()), |es|) {
        PassUndone(old(Now()), es, taken, actions, Now());
        PassUnwinds(old(Now()), es, taken, actions, Now());
      }
    }

    /** `kill` once the process is found: signal 0 and signals out of range are not sent. */
    method Send(sig: int) returns (ok: bool)
      requires SentOk(pending)
      modifies `pending
      ensures SentOk(pending) && (ok <==> 0 <= sig < 64)
      ensures pending == if 0 < sig < 64 then old(pending) + {(sig - 1) as nat} else old(pending)
    {
      if sig < 0 || sig >= 64 { return false; }
      if sig != 0 { pending := pending + {(sig - 1) as nat}; }
      ok := true;
    }
  }

  /** Signal 64 has no action and is never sent. */
  ghost predicate SentOk(pending: set<nat>) {
    forall n | n in pending :: n < 63
  }

  const KILL: nat := 8    // the bit of signal 9
  const STOP: nat := 18   // the bit of signal 19

  /** A caught signal that cannot be delivered now. */
  predicate Refused(action: Action, room: nat -> bool, sp: nat) {
    action.handler > 1 && (action.restorer == 0 || !room(FrameAt(sp)))
  }

  function EntryOf(n: nat, action: Action, blocked: set<nat>, pending: set<nat>): Entry {
    Entry(n + 1, action.handler, action.restorer, blocked + action.mask + {n}, pending)
  }

  /** How a pass over the signals `all` ends: all are taken and none is fatal; or the last one taken is the
      first fatal one; or the first one not taken is caught but refused. */
  ghost predicate PassDone(out: Outcome, all: set<nat>, taken: set<nat>, acts: seq<Action>, room: nat -> bool, sp: nat)
    requires |acts| == 64
  {
    && taken <= all && (forall a, b | a in taken && b in all - taken :: a < b)
    && (out == Finished ==> taken == all && NoneFatal(taken, acts))
    && (out.Exits? ==> 0 < out.sig < 64 && out.sig - 1 in taken && acts[out.sig].handler == 0)
    && (out.Exits? ==> NoneFatal(taken - {out.sig - 1}, acts))
    && (out == Stopped ==>
          exists n ::
            n in all - taken && n + 1 < 64 && (forall b | b in all - taken :: n <= b) && Refused(acts[n + 1], room, sp))
  }

  lemma DeliverNext(p0: Proc, es: seq<Entry>, p: Proc, e: Entry)
    requires |p0.tf| == 32 && SameBut(p, DeliverAll(p0, es))
    ensures SameBut(Deliver(p, e), DeliverAll(p0, es + [e]))
  {
    assert (es + [e])[..|es|] == es;
  }

  /** The delivery of the signal with bit `n`, to its registered handler. */
  ghost predicate EntryFor(e: Entry, n: nat, acts: seq<Action>) {
    && e.sig == n + 1 && n + 1 < |acts| && e.handler == acts[n + 1].handler > 1 && e.restorer == acts[n + 1].restorer
    && acts[n + 1].mask <= e.blocked && n in e.blocked && MaskOk(e.blocked)
  }

  /** The registered actions are words and masks of 64 bits. */
  ghost predicate ActionsOk(acts: seq<Action>) {
    |acts| == 64 && forall i | 0 <= i < 64 :: acts[i].handler < WORD && acts[i].restorer < WORD && MaskOk(acts[i].mask)
  }

  lemma EntriesValid(es: seq<Entry>, taken: set<nat>, acts: seq<Action>)
    requires EntriesOk(es, taken, acts) && ActionsOk(acts)
    ensures EntriesFit(es)
  {
    forall e | e in es ensures EntryOk(e) {
      var i :| 0 <= i < |es| && es[i] == e;
      assert EntryAt(es, taken, acts, i);
    }
  }

  /** Returning `k` times from `d`, and from any state that has its registers and its memory from the stack pointer
      up, gives back the registers and the mask of `p`. */
  ghost predicate Undone(p: Proc, d: Proc, k: nat) {
    forall q: Proc {:trigger Unwind(q, k)} | Resumes(q, d) :: SameRegs(Unwind(q, k), p)
  }

  lemma PassUndone(p: Proc, es: seq<Entry>, taken: set<nat>, acts: seq<Action>, d: Proc)
    requires Roomy(p, |es|) && EntriesOk(es, taken, acts) && ActionsOk(acts) && SameBut(d, DeliverAll(p, es))
    ensures Undone(p, d, |es|)
  {
    EntriesValid(es, taken, acts);
    forall q: Proc | Resumes(q, d) ensures SameRegs(Unwind(q, |es|), p) { PassRestored(p, es, q); }
  }

  lemma PassUnwinds(p: Proc, es: seq<Entry>, taken: set<nat>, acts: seq<Action>, d: Proc)
    requires Roomy(p, |es|) && EntriesOk(es, taken, acts) && ActionsOk(acts) && SameBut(d, DeliverAll(p, es))
    requires AllEntered(p, acts, es)
    ensures Unwinds(p, acts, es, d) && Below(p, d)
  {
    EntriesValid(es, taken, acts);
    PassBelow(p, es);
    forall q: Proc, j: nat | j <= |es| && Resumes(q, d)
      ensures Entered(p, acts, es[..|es| - j], Unwind(q, j))
    {
      PassUnwound(p, es, q, j);
      assert EnteredAt(p, acts, es, |es| - j);
    }
  }

  // ----- where deliveries lead, on the actions and the signals delivered alone -----

  /** Signal `n` blocks the signal with bit `b` while its handler runs: it is its own, or in its action's mask. */
  ghost predicate Blocks(acts: seq<Action>, n: nat, b: nat) {
    0 < n < |acts| && (b == n - 1 || b in acts[n].mask)
  }

  ghost predicate SomeBlocks(acts: seq<Action>, es: seq<Entry>, b: nat) {
    exists i :: 0 <= i < |es| && Blocks(acts, es[i].sig, b)
  }

  /** The process stands where the deliveries of these signals to `p` leave it: at the handler of the last, with its
      number in a0 and its restorer in ra; all they block is blocked, and nothing else is new. */
  ghost predicate Entered(p: Proc, acts: seq<Action>, es: seq<Entry>, q: Proc) {
    && |p.tf| == |q.tf| == 32
    && (forall r | 0 <= r < 32 && r !in {SP, EPC, A0, RA} :: q.tf[r] == p.tf[r])
    && (es == [] ==> q.tf == p.tf)
    && (es != [] ==> AtHandler(acts, es[|es| - 1].sig, q))
    && (forall b: nat :: b in q.blocked <==> b in p.blocked || SomeBlocks(acts, es, b))
  }

  ghost predicate AtHandler(acts: seq<Action>, n: nat, q: Proc) {
    && |q.tf| == 32 && n < |acts|
    && q.tf[EPC] == acts[n].handler && q.tf[A0] == n && q.tf[RA] == acts[n].restorer
  }

  ghost predicate EnteredAt(p: Proc, acts: seq<Action>, es: seq<Entry>, k: nat) {
    |p.tf| == 32 && k <= |es| ==> Entered(p, acts, es[..k], DeliverAll(p, es[..k]))
  }

  /** So it is after each of the deliveries. */
  ghost predicate AllEntered(p: Proc, acts: seq<Action>, es: seq<Entry>) {
    forall k: nat {:trigger EnteredAt(p, acts, es, k)} :: EnteredAt(p, acts, es, k)
  }

  /** Returning `j` times from `d` leads to where the deliveries but the last `j` left the process. */
  ghost predicate Unwinds(p: Proc, acts: seq<Action>, es: seq<Entry>, d: Proc) {
    forall q: Proc, j: nat {:trigger Unwind(q, j)} | j <= |es| && Resumes(q, d) ::
      Entered(p, acts, es[..|es| - j], Unwind(q, j))
  }

  lemma EnteredLast(p: Proc, acts: seq<Action>, es: seq<Entry>, d: Proc)
    requires |p.tf| == 32 && AllEntered(p, acts, es) && SameBut(d, DeliverAll(p, es))
    ensures Entered(p, acts, es, d)
  {
    assert EnteredAt(p, acts, es, |es|) && es[..|es|] == es;
  }

  lemma EnteredNext(p: Proc, acts: seq<Action>, es: seq<Entry>, n: nat, pending: set<nat>)
    requires |p.tf| == 32 && AllEntered(p, acts, es) && n + 1 < |acts|
    ensures AllEntered(p, acts, es + [EntryOf(n, acts[n + 1], DeliverAll(p, es).blocked, pending)])
  {
    var e := EntryOf(n, acts[n + 1], DeliverAll(p, es).blocked, pending);
    var es' := es + [e];
    forall k: nat ensures EnteredAt(p, acts, es', k) {
      if k <= |es| {
        assert EnteredAt(p, acts, es, k) && es'[..k] == es[..k];
      } else if k == |es'| {
        assert EnteredAt(p, acts, es, |es|) && es[..|es|] == es && es'[..k] == es' && es'[..|es|] == es;
        OneMore(p, acts, es, n, e);
      }
    }
  }

  lemma OneMore(p: Proc, acts: seq<Action>, es: seq<Entry>, n: nat, e: Entry)
    requires |p.tf| == 32 && Entered(p, acts, es, DeliverAll(p, es)) && n + 1 < |acts|
    requires e.sig == n + 1 && e.handler == acts[n + 1].handler && e.restorer == acts[n + 1].restorer
    requires e.blocked == DeliverAll(p, es).blocked + acts[n + 1].mask + {n}
    ensures Entered(p, acts, es + [e], Deliver(DeliverAll(p, es), e))
  {
    forall b: nat ensures b in e.blocked <==> b in p.blocked || SomeBlocks(acts, es + [e], b) {
      MoreBlocks(acts, es, e, b);
    }
  }

  lemma MoreBlocks(acts: seq<Action>, es: seq<Entry>, e: Entry, b: nat)
    ensures SomeBlocks(acts, es + [e], b) <==> SomeBlocks(acts, es, b) || Blocks(acts, e.sig, b)
  {
    var es' := es + [e];
    if SomeBlocks(acts, es, b) {
      var i :| 0 <= i < |es| && Blocks(acts, es[i].sig, b);
      assert Blocks(acts, es'[i].sig, b);
    }
    if Blocks(acts, e.sig, b) { assert Blocks(acts, es'[|es|].sig, b); }
  }

  ghost predicate Delivered(es: seq<Entry>, n: nat) {
    exists i :: 0 <= i < |es| && es[i].sig == n + 1
  }

  /** Entry `i` is the delivery of a signal taken. */
  ghost predicate EntryAt(es: seq<Entry>, taken: set<nat>, acts: seq<Action>, i: nat) {
    i < |es| ==> es[i].sig > 0 && es[i].sig - 1 in taken && EntryFor(es[i], es[i].sig - 1, acts)
  }

  ghost predicate Rises(es: seq<Entry>, i: nat, j: nat) {
    i < j < |es| ==> es[i].sig < es[j].sig
  }

  /** The deliveries are of exactly the caught signals taken, each once, in increasing order. */
  ghost predicate EntriesOk(es: seq<Entry>, taken: set<nat>, acts: seq<Action>) {
    && (forall i: nat {:trigger EntryAt(es, taken, acts, i)} :: EntryAt(es, taken, acts, i))
    && (forall i: nat, j: nat {:trigger Rises(es, i, j)} :: Rises(es, i, j))
    && (forall n: nat {:trigger Delivered(es, n)} | n in taken && Caught(acts, n) :: Delivered(es, n))
  }

  predicate Caught(acts: seq<Action>, n: nat) {
    n + 1 < |acts| && acts[n + 1].handler > 1
  }

  predicate NotFatal(acts: seq<Action>, n: nat) {
    n + 1 < |acts| ==> acts[n + 1].handler != 0
  }

  /** `all` splits into what is taken and what is ready, with everything taken below everything ready. */
  ghost predicate Apart(all: set<nat>, taken: set<nat>, ready: set<nat>) {
    taken + ready == all && forall a, b | a in taken && b in ready :: a < b
  }

  /** In the middle of a pass: no signal taken so far is fatal. */
  ghost predicate Passing(all: set<nat>, taken: set<nat>, ready: set<nat>, es: seq<Entry>, acts: seq<Action>) {
    Apart(all, taken, ready) && EntriesOk(es, taken, acts) && NoneFatal(taken, acts)
  }

  ghost predicate NoneFatal(taken: set<nat>, acts: seq<Action>) {
    forall k: nat {:trigger NotFatal(acts, k)} | k in taken :: NotFatal(acts, k)
  }

  lemma PassStops(all: set<nat>, taken: set<nat>, ready: set<nat>, n: nat, acts: seq<Action>, room: nat -> bool,
      sp: nat)
    requires |acts| == 64 && Apart(all, taken, ready) && n in ready && n < 63 && (forall k | k in ready :: n <= k)
    requires Refused(acts[n + 1], room, sp)
    ensures PassDone(Stopped, all, taken, acts, room, sp)
  {
    assert all - taken == ready;
  }

  lemma PassExits(all: set<nat>, taken: set<nat>, ready: set<nat>, n: nat, acts: seq<Action>, room: nat -> bool,
      sp: nat)
    requires |acts| == 64 && Apart(all, taken, ready) && n in taken && n < 63 && NoneFatal(taken - {n}, acts)
    requires acts[n + 1].handler == 0
    ensures PassDone(Exits(n + 1), all, taken, acts, room, sp)
  {
    assert all - taken <= ready;
  }

  lemma TakeNext(all: set<nat>, es: seq<Entry>, es': seq<Entry>, taken: set<nat>, ready: set<nat>, n: nat,
      acts: seq<Action>, blocked: set<nat>, pending: set<nat>)
    requires Passing(all, taken, ready, es, acts) && n in ready && (forall k | k in ready :: n <= k) && n < 63
    requires ActionsOk(acts) && MaskOk(blocked)
    requires es' == if acts[n + 1].handler <= 1 then es else es + [EntryOf(n, acts[n + 1], blocked, pending)]
    ensures Apart(all, taken + {n}, ready - {n}) && EntriesOk(es', taken + {n}, acts) && n in all
    ensures acts[n + 1].handler != 0 ==> NoneFatal(taken + {n}, acts)
    ensures NoneFatal((taken + {n}) - {n}, acts)
  {
    if Caught(acts, n) {
      EntriesMore(es, taken, n, acts, EntryOf(n, acts[n + 1], blocked, pending));
    } else {
      EntriesSame(es, taken, n, acts);
    }
  }

  lemma EntriesMore(es: seq<Entry>, taken: set<nat>, n: nat, acts: seq<Action>, e: Entry)
    requires EntriesOk(es, taken, acts) && (forall k | k in taken :: k < n) && EntryFor(e, n, acts)
    ensures EntriesOk(es + [e], taken + {n}, acts)
  {
    var es' := es + [e];
    forall i: nat ensures EntryAt(es', taken + {n}, acts, i) { assert EntryAt(es, taken, acts, i); }
    forall i: nat, j: nat ensures Rises(es', i, j) { assert Rises(es, i, j) && EntryAt(es, taken, acts, i); }
    forall k: nat | k in taken + {n} && Caught(acts, k) ensures Delivered(es', k) {
      if k in taken {
        assert Delivered(es, k);
        var i :| 0 <= i < |es| && es[i].sig == k + 1;
        assert es'[i].sig == k + 1;
      } else {
        assert es'[|es|].sig == k + 1;
      }
    }
  }

  lemma EntriesSame(es: seq<Entry>, taken: set<nat>, n: nat, acts: seq<Action>)
    requires EntriesOk(es, taken, acts) && !Caught(acts, n)
    ensures EntriesOk(es, taken + {n}, acts)
  {
    forall i: nat ensures EntryAt(es, taken + {n}, acts, i) { assert EntryAt(es, taken, acts, i); }
  }
}
