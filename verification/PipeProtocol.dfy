/** Readers, writers and closers of one pipe, interleaved at every lock and wakeup step. */
module PipeProtocol {
  import opened PipeRing

  /** Where a process stands.  `SleepA` is between releasing the pipe lock and being marked asleep, with
      the process's own lock held; `Wake` loops carry the index of the next process to look at.  A process
      outside carries what its last call returned, one in the last wakeup of its call what it will return. */
  datatype Pc =
    | Idle(ret: int)
    | RTry(size: nat)
    | RCheck(size: nat)
    | RSleepA(size: nat)
    | RAsleep(size: nat)
    | RWoken(size: nat)
    | RCopy(size: nat, i: nat)
    | RWake(k: nat, ret: int)
    | WTry(size: nat, i: nat)
    | WCheck(size: nat, i: nat, added: bool)
    | WWake(size: nat, i: nat, k: nat)
    | WDone(k: nat, ret: int)
    | WSleepA(size: nat, i: nat)
    | WAsleep(size: nat, i: nat)
    | WWoken(size: nat, i: nat)
    | CTry(wr: bool)
    | CWake(wr: bool, k: nat)

  const EFAULT := 14
  const EPIPE := 32

  /** `lock` is the holder of the pipe lock, or -1. */
  datatype Sys = Sys(ring: Ring, flow: Flow, readable: bool, writable: bool, lock: int, pcs: seq<Pc>)

  predicate Inside(pc: Pc) {
    pc.RCheck? || pc.RCopy? || pc.RWake? || pc.WCheck? || pc.WWake? || pc.WDone? || pc.CWake?
  }

  /** Asleep, or about to be, waiting for bytes. */
  predicate WaitsToRead(pc: Pc) {
    pc.RSleepA? || pc.RAsleep?
  }

  /** Asleep, or about to be, waiting for room. */
  predicate WaitsToWrite(pc: Pc) {
    pc.WSleepA? || pc.WAsleep?
  }

  /** A process that holds its own process lock. */
  predicate SelfLocked(pc: Pc) {
    pc.RSleepA? || pc.WSleepA?
  }

  function Set(s: Sys, p: nat, pc: Pc): Sys {
    if p < |s.pcs| then s.(pcs := s.pcs[p := pc]) else s
  }

  function Lock(s: Sys, p: nat, pc: Pc): Sys {
    Set(s, p, pc).(lock := p)
  }

  function Unlock(s: Sys, p: nat, pc: Pc): Sys {
    Set(s, p, pc).(lock := -1)
  }

  /** One turn of `wakeup`'s loop: process `k` becomes runnable if it sleeps on the channel. */
  function WakeOne(s: Sys, k: nat, readers: bool): Sys {
    if k >= |s.pcs| then s
    else if readers && s.pcs[k].RAsleep? then Set(s, k, RWoken(s.pcs[k].size))
    else if !readers && s.pcs[k].WAsleep? then Set(s, k, WWoken(s.pcs[k].size, s.pcs[k].i))
    else s
  }

  /** A step of process `p` can be taken now: it needs the pipe lock, or the lock of the process it is
      about to wake. */
  predicate Ready(s: Sys, p: nat) {
    p < |s.pcs| && match s.pcs[p]
      case Idle(_) => false
      case RTry(_) => s.lock == -1
      case RWoken(_) => s.lock == -1
      case WTry(_, _) => s.lock == -1
      case WWoken(_, _) => s.lock == -1
      case CTry(_) => s.lock == -1
      case RAsleep(_) => false
      case WAsleep(_, _) => false
      case RWake(k, _) => k < |s.pcs| ==> !SelfLocked(s.pcs[k])
      case WWake(_, _, k) => k < |s.pcs| ==> !SelfLocked(s.pcs[k])
      case WDone(k, _) => k < |s.pcs| ==> !SelfLocked(s.pcs[k])
      case CWake(_, k) => k < |s.pcs| ==> !SelfLocked(s.pcs[k])
      case _ => true
  }

  function ReadNext(s: Sys, p: nat, pc: Pc, ok: bool): Sys {
    match pc
    case RTry(size) => Lock(s, p, RCheck(size))
    case RWoken(size) => Lock(s, p, RCheck(size))
    case RCheck(size) =>
      if IsEmpty(s.ring) && s.writable then Unlock(s, p, RSleepA(size)) else Set(s, p, RCopy(size, 0))
    case RSleepA(size) => Set(s, p, RAsleep(size))
    case RCopy(size, i) =>
      if i >= size || IsEmpty(s.ring) then Set(s, p, RWake(0, i))
      else if !ok then Set(s, p, RWake(0, if i == 0 then -EFAULT else i))
      else Set(s, p, RCopy(size, i + 1)).(ring := Pop(s.ring),
          flow := s.flow.(delivered := s.flow.delivered + [Front(s.ring)]))
    case RWake(k, ret) =>
      if k >= |s.pcs| then Unlock(s, p, Idle(ret)) else Set(WakeOne(s, k, false), p, RWake(k + 1, ret))
    case _ => s
  }

  function WriteNext(s: Sys, p: nat, pc: Pc, ok: bool, ch: Byte): Sys {
    match pc
    case WTry(size, i) => Lock(s, p, WCheck(size, i, false))
    case WWoken(size, i) => Lock(s, p, WCheck(size, i, false))
    case WCheck(size, i, added) =>
      if i >= size then Set(s, p, WDone(0, i))
      else if !s.readable then Unlock(s, p, Idle(if i > 0 then i else -EPIPE))
      else if IsFull(s.ring) then Set(s, p, WWake(size, i, 0))
      else if !ok then Set(s, p, WDone(0, if i == 0 then -EFAULT else i))
      else Set(s, p, WCheck(size, i + 1, true)).(ring := Push(s.ring, ch),
          flow := s.flow.(accepted := s.flow.accepted + [ch]))
    case WWake(size, i, k) =>
      if k >= |s.pcs| then Unlock(s, p, WSleepA(size, i)) else Set(WakeOne(s, k, true), p, WWake(size, i, k + 1))
    case WDone(k, ret) =>
      if k >= |s.pcs| then Unlock(s, p, Idle(ret)) else Set(WakeOne(s, k, true), p, WDone(k + 1, ret))
    case WSleepA(size, i) => Set(s, p, WAsleep(size, i))
    case _ => s
  }

  function CloseNext(s: Sys, p: nat, pc: Pc): Sys {
    match pc
    case CTry(wr) =>
      if wr then Lock(s, p, CWake(true, 0)).(writable := false) else Lock(s, p, CWake(false, 0)).(readable := false)
    case CWake(wr, k) => if k >= |s.pcs| then Unlock(s, p, Idle(0)) else Set(WakeOne(s, k, wr), p, CWake(wr, k + 1))
    case _ => s
  }

  /** The next step of process `p`; `ok` is whether the byte can be copied from or to the caller, `ch`
      the byte a writer supplies. */
  function Next(s: Sys, p: nat, ok: bool, ch: Byte): Sys {
    if p >= |s.pcs| then s
    else
      var pc := s.pcs[p];
      if pc.CTry? || pc.CWake? then CloseNext(s, p, pc)
      else if pc.RTry? || pc.RCheck? || pc.RSleepA? || pc.RWoken? || pc.RCopy? || pc.RWake? then ReadNext(s, p, pc, ok)
      else WriteNext(s, p, pc, ok, ch)
  }

  // ----- the invariant -----

  /** The lock holder will still look at process `p` on the read channel before it lets go. */
  predicate OwesReader(pc: Pc, p: nat) {
    (pc.WCheck? && pc.added) || ((pc.WWake? || pc.WDone?) && pc.k <= p) || (pc.CWake? && pc.wr && pc.k <= p)
  }

  predicate OwesWriter(pc: Pc, p: nat) {
    pc.RCopy? || (pc.RWake? && pc.k <= p) || (pc.CWake? && !pc.wr && pc.k <= p)
  }

  ghost predicate ProcOk(s: Sys, p: nat)
    requires p < |s.pcs| && s.lock < |s.pcs|
  {
    var pc := s.pcs[p];
    && (Inside(pc) <==> s.lock == p)
    && (WaitsToRead(pc) ==> (IsEmpty(s.ring) && s.writable) || (s.lock >= 0 && OwesReader(s.pcs[s.lock], p)))
    && (WaitsToWrite(pc) ==> (IsFull(s.ring) && s.readable) || (s.lock >= 0 && OwesWriter(s.pcs[s.lock], p)))
    && (pc.WCheck? && pc.added ==> s.readable)
    && (pc.WWake? ==> IsFull(s.ring) && s.readable)
  }

  ghost predicate Inv(s: Sys) {
    && -1 <= s.lock < |s.pcs| && Fifo(s.ring, s.flow)
    && forall p: nat {:trigger ProcOk(s, p)} | p < |s.pcs| :: ProcOk(s, p)
  }

  /** No lost wakeup: with the pipe lock free, a sleeping reader means an empty pipe whose write end is
      open, and a sleeping writer a full pipe whose read end is open. */
  lemma NoLostWakeup(s: Sys, p: nat)
    requires Inv(s) && s.lock == -1 && p < |s.pcs|
    ensures WaitsToRead(s.pcs[p]) ==> InTransit(s.flow) == 0 && s.writable
    ensures WaitsToWrite(s.pcs[p]) ==> InTransit(s.flow) == 512 && s.readable
  {
    assert ProcOk(s, p);
    TestsExact(s.ring, s.flow);
  }

  /** Only a reader copying out or a writer copying in touches the bytes. */
  lemma BytesStay(s: Sys, p: nat, ok: bool, ch: Byte)
    requires p < |s.pcs| && !s.pcs[p].RCopy? && !s.pcs[p].WCheck?
    ensures var s' := Next(s, p, ok, ch); s'.ring == s.ring && s'.flow == s.flow
  {
    var pc := s.pcs[p];
    if pc.CTry? || pc.CWake? {
      assert CloseNext(s, p, pc).ring == s.ring && CloseNext(s, p, pc).flow == s.flow;
    } else if pc.RTry? || pc.RCheck? || pc.RSleepA? || pc.RWoken? || pc.RWake? {
      assert ReadNext(s, p, pc, ok).ring == s.ring && ReadNext(s, p, pc, ok).flow == s.flow;
    } else {
      assert WriteNext(s, p, pc, ok, ch).ring == s.ring && WriteNext(s, p, pc, ok, ch).flow == s.flow;
    }
  }

  lemma FlowKept(s: Sys, p: nat, ok: bool, ch: Byte)
    requires Inv(s) && Ready(s, p)
    ensures var s' := Next(s, p, ok, ch); Fifo(s'.ring, s'.flow)
  {
    if s.pcs[p].RCopy? {
      if !IsEmpty(s.ring) { PopKeeps(s.ring, s.flow); }
    } else if s.pcs[p].WCheck? {
      if !IsFull(s.ring) { PushKeeps(s.ring, s.flow, ch); }
    } else {
      BytesStay(s, p, ok, ch);
    }
  }

  lemma ReadWoken(s: Sys, p: nat, ok: bool, ch: Byte, q: nat)
    requires Inv(s) && Ready(s, p) && q < |s.pcs| && (s.pcs[p].RTry? || s.pcs[p].RCheck? || s.pcs[p].RWoken?)
    ensures var s' := Next(s, p, ok, ch); |s'.pcs| == |s.pcs| && -1 <= s'.lock < |s.pcs| && ProcOk(s', q)
  {
    assert ProcOk(s, p) && ProcOk(s, q);
  }

  lemma ReadWakeKept(s: Sys, p: nat, ok: bool, ch: Byte, q: nat)
    requires Inv(s) && Ready(s, p) && q < |s.pcs| && s.pcs[p].RWake?
    ensures var s' := Next(s, p, ok, ch); |s'.pcs| == |s.pcs| && -1 <= s'.lock < |s.pcs| && ProcOk(s', q)
  {
    assert ProcOk(s, p) && ProcOk(s, q);
  }

  lemma ReadKept(s: Sys, p: nat, ok: bool, ch: Byte, q: nat)
    requires Inv(s) && Ready(s, p) && q < |s.pcs| && (s.pcs[p].RSleepA? || s.pcs[p].RCopy?)
    ensures var s' := Next(s, p, ok, ch); |s'.pcs| == |s.pcs| && -1 <= s'.lock < |s.pcs| && ProcOk(s', q)
  {
    assert ProcOk(s, p) && ProcOk(s, q);
  }

  lemma WriteKept(s: Sys, p: nat, ok: bool, ch: Byte, q: nat)
    requires Inv(s) && Ready(s, p) && q < |s.pcs|
    requires s.pcs[p].WTry? || s.pcs[p].WCheck? || s.pcs[p].WSleepA? || s.pcs[p].WWoken?
    ensures var s' := Next(s, p, ok, ch); |s'.pcs| == |s.pcs| && -1 <= s'.lock < |s.pcs| && ProcOk(s', q)
  {
    assert ProcOk(s, p) && ProcOk(s, q);
  }

  lemma WriteWakeKept(s: Sys, p: nat, ok: bool, ch: Byte, q: nat)
    requires Inv(s) && Ready(s, p) && q < |s.pcs| && (s.pcs[p].WWake? || s.pcs[p].WDone?)
    ensures var s' := Next(s, p, ok, ch); |s'.pcs| == |s.pcs| && -1 <= s'.lock < |s.pcs| && ProcOk(s', q)
  {
    assert ProcOk(s, p) && ProcOk(s, q);
  }

  lemma CloseKept(s: Sys, p: nat, ok: bool, ch: Byte, q: nat)
    requires Inv(s) && Ready(s, p) && q < |s.pcs| && (s.pcs[p].CTry? || s.pcs[p].CWake?)
    ensures var s' := Next(s, p, ok, ch); |s'.pcs| == |s.pcs| && -1 <= s'.lock < |s.pcs| && ProcOk(s', q)
  {
    assert ProcOk(s, p) && ProcOk(s, q);
  }

  lemma NextProc(s: Sys, p: nat, ok: bool, ch: Byte, q: nat)
    requires Inv(s) && Ready(s, p) && q < |s.pcs|
    ensures var s' := Next(s, p, ok, ch); |s'.pcs| == |s.pcs| && -1 <= s'.lock < |s.pcs| && ProcOk(s', q)
  {
    var pc := s.pcs[p];
    if pc.CTry? || pc.CWake? {
      CloseKept(s, p, ok, ch, q);
    } else if pc.WWake? || pc.WDone? {
      WriteWakeKept(s, p, ok, ch, q);
    } else if pc.WTry? || pc.WCheck? || pc.WSleepA? || pc.WWoken? {
      WriteKept(s, p, ok, ch, q);
    } else if pc.RTry? || pc.RCheck? || pc.RWoken? {
      ReadWoken(s, p, ok, ch, q);
    } else if pc.RWake? {
      ReadWakeKept(s, p, ok, ch, q);
    } else {
      ReadKept(s, p, ok, ch, q);
    }
  }

  lemma NextKeeps(s: Sys, p: nat, ok: bool, ch: Byte)
    requires Inv(s) && Ready(s, p)
    ensures Inv(Next(s, p, ok, ch))
  {
    FlowKept(s, p, ok, ch);
    NextProc(s, p, ok, ch, p);
    var s' := Next(s, p, ok, ch);
    forall q: nat | q < |s'.pcs| ensures ProcOk(s', q) { NextProc(s, p, ok, ch, q); }
  }

  /** A copy that fails neither consumes nor adds a byte; no other step touches the bytes either. */
  lemma OnlyCopiesMove(s: Sys, p: nat, ok: bool, ch: Byte)
    requires Inv(s) && Ready(s, p)
    ensures var s' := Next(s, p, ok, ch);
      && (!ok ==> s'.ring == s.ring && s'.flow == s.flow)
      && s.flow.delivered <= s'.flow.delivered && s.flow.accepted <= s'.flow.accepted
      && (s'.flow.delivered != s.flow.delivered ==> s.pcs[p].RCopy? && s'.flow.accepted == s.flow.accepted)
      && (s'.flow.delivered != s.flow.delivered ==> |s'.flow.delivered| == |s.flow.delivered| + 1)
      && (s'.flow.accepted != s.flow.accepted ==> s.pcs[p].WCheck? && s'.flow.delivered == s.flow.delivered)
      && (s'.flow.accepted != s.flow.accepted ==> s'.flow.accepted == s.flow.accepted + [ch])
  {
    if !s.pcs[p].RCopy? && !s.pcs[p].WCheck? { BytesStay(s, p, ok, ch); }
  }

  // ----- whole runs -----

  /** A process enters an operation, takes a step, or is made runnable by a signal. */
  datatype Op = Enter(p: nat, pc: Pc) | Go(p: nat, ok: bool, ch: Byte) | Kick(p: nat)

  ghost predicate Enabled(s: Sys, op: Op) {
    match op
    case Enter(p, pc) =>
      p < |s.pcs| && s.pcs[p].Idle? && ((pc.RTry? && pc.size > 0) || (pc.WTry? && pc.i == 0) || pc.CTry?)
    case Go(p, _, _) => Ready(s, p)
    case Kick(p) => p < |s.pcs| && (s.pcs[p].RAsleep? || s.pcs[p].WAsleep?)
  }

  ghost function Step(s: Sys, op: Op): Sys {
    match op
    case Enter(p, pc) => Set(s, p, pc)
    case Go(p, ok, ch) => Next(s, p, ok, ch)
    case Kick(p) => WakeOne(s, p, p < |s.pcs| && s.pcs[p].RAsleep?)
  }

  lemma StepKeeps(s: Sys, op: Op)
    requires Inv(s) && Enabled(s, op)
    ensures Inv(Step(s, op))
  {
    match op
    case Go(p, ok, ch) => NextKeeps(s, p, ok, ch);
    case Enter(p, pc) =>
      var s' := Set(s, p, pc);
      forall q: nat | q < |s'.pcs| ensures ProcOk(s', q) { assert ProcOk(s, q) && ProcOk(s, p); }
    case Kick(p) =>
      var s' := Step(s, op);
      forall q: nat | q < |s'.pcs| ensures ProcOk(s', q) { assert ProcOk(s, q) && ProcOk(s, p); }
  }

  ghost predicate Runs(s: Sys, ops: seq<Op>)
    decreases |ops|
  {
    ops == [] || (Enabled(s, ops[0]) && Runs(Step(s, ops[0]), ops[1..]))
  }

  ghost function Run(s: Sys, ops: seq<Op>): Sys
    decreases |ops|
  {
    if ops == [] then s else Run(Step(s, ops[0]), ops[1..])
  }

  /** A new pipe with no process inside it. */
  ghost predicate Initial(s: Sys) {
    && |s.ring.buf| == 512 && s.ring.nread == s.ring.nwrite == 0 && s.flow == Flow([], []) && s.readable && s.writable
    && s.lock == -1
    && forall p | 0 <= p < |s.pcs| :: s.pcs[p].Idle?
  }

  lemma InitialInv(s: Sys)
    requires Initial(s)
    ensures Inv(s)
  {
    forall p: nat | p < |s.pcs| ensures ProcOk(s, p) { assert s.pcs[p].Idle?; }
  }

  /** Delivered bytes are a prefix of accepted ones, at most 512 are in transit, and with the pipe lock
      free no process sleeps whose condition holds. */
  ghost predicate Sound(s: Sys) {
    && s.flow.delivered <= s.flow.accepted && InTransit(s.flow) <= 512
    && (s.lock == -1 ==> forall p: nat | p < |s.pcs| ::
          && (WaitsToRead(s.pcs[p]) ==> InTransit(s.flow) == 0 && s.writable)
          && (WaitsToWrite(s.pcs[p]) ==> InTransit(s.flow) == 512 && s.readable))
  }

  lemma InvSound(s: Sys)
    requires Inv(s)
    ensures Sound(s)
  {
    if s.lock == -1 {
      forall p: nat | p < |s.pcs|
        ensures (WaitsToRead(s.pcs[p]) ==> InTransit(s.flow) == 0 && s.writable)
        ensures (WaitsToWrite(s.pcs[p]) ==> InTransit(s.flow) == 512 && s.readable)
      {
        NoLostWakeup(s, p);
      }
    }
  }

  /** For any number of readers, writers and closers and any interleaving. */
  lemma {:induction false} RunKeeps(s: Sys, ops: seq<Op>)
    requires Inv(s) && Runs(s, ops)
    ensures Inv(Run(s, ops)) && Sound(Run(s, ops))
    decreases |ops|
  {
    if ops == [] {
      InvSound(s);
    } else {
      StepKeeps(s, ops[0]);
      RunKeeps(Step(s, ops[0]), ops[1..]);
    }
  }
}
