/** What a call on a pipe returns, in every interleaving: a call is watched from its entry to its return. */
module PipeReturns {
  import opened PipeRing
  import opened PipeProtocol

  /** The call a process is in or last made, the bytes it has moved in its own steps, and whether a copy of
      a byte from or to its caller has failed. */
  datatype Watch = Watch(call: Pc, moved: seq<Byte>, failed: bool)

  function Wanted(call: Pc): nat {
    if call.RTry? || call.WTry? then call.size else 0
  }

  /** Bytes put in and not yet taken out. */
  function Held(s: Sys): int {
    |s.flow.accepted| - |s.flow.delivered|
  }

  /** A byte is to be copied now: one is wanted, and the pipe has one to give or room for one and a reader. */
  ghost predicate Copies(s: Sys, p: nat, w: Watch)
    requires p < |s.pcs|
  {
    && |w.moved| < Wanted(w.call)
    && (|| (s.pcs[p].RCopy? && Held(s) > 0)
        || (s.pcs[p].WCheck? && Held(s) < 512 && s.readable))
  }

  ghost function WatchStep(s: Sys, op: Op, p: nat, w: Watch): Watch
    requires Inv(s) && Enabled(s, op) && p < |s.pcs|
  {
    match op
    case Enter(q, pc) => if q == p then Watch(pc, [], false) else w
    case Kick(_) => w
    case Go(q, ok, ch) =>
      if q != p then w
      else
        var s' := Step(s, op);
        OnlyCopiesMove(s, p, ok, ch);
        w.(moved := w.moved + s'.flow.delivered[|s.flow.delivered|..] + s'.flow.accepted[|s.flow.accepted|..],
           failed := w.failed || (!ok && Copies(s, p, w)))
  }

  ghost predicate IsTail(t: seq<Byte>, s: seq<Byte>) {
    |t| <= |s| && s[|s| - |t|..] == t
  }

  /** A read returns the number of bytes it took, which are the last ones delivered, in one piece.  None means end
      of file, fewer than asked for a copy that failed or an empty pipe; a copy that fails first is an error. */
  ghost predicate ReadEnd(s: Sys, w: Watch, ret: int)
    requires w.call.RTry?
  {
    || (ret == -14 && w.failed && w.moved == [])
    || (&& ret == |w.moved| <= w.call.size && IsTail(w.moved, s.flow.delivered)
        && (ret == 0 ==> Held(s) == 0 && !s.writable)
        && (ret < w.call.size ==> w.failed || Held(s) == 0))
  }

  /** A write returns the number of bytes it put in, fewer than asked only if a copy failed or the read end is
      closed; with none put in either is an error. */
  ghost predicate WriteEnd(s: Sys, w: Watch, ret: int)
    requires w.call.WTry?
  {
    || (ret == -14 && w.failed && w.moved == [])
    || (ret == -32 && !s.readable && w.moved == [] && w.call.size > 0)
    || (ret == |w.moved| <= w.call.size && (ret < w.call.size ==> ret > 0 && (w.failed || !s.readable)))
  }

  ghost predicate CloseEnd(s: Sys, w: Watch)
    requires w.call.CTry?
  {
    if w.call.wr then !s.writable else !s.readable
  }

  /** What holds when a watched call returns. */
  ghost predicate Ended(s: Sys, w: Watch, ret: int) {
    && (w.call.RTry? ==> ReadEnd(s, w, ret))
    && (w.call.WTry? ==> WriteEnd(s, w, ret))
    && (w.call.CTry? ==> ret == 0 && CloseEnd(s, w))
    && (w.call.RTry? || w.call.WTry? || w.call.CTry?)
  }

  ghost predicate Reading(pc: Pc, w: Watch) {
    && (pc.RTry? || pc.RCheck? || pc.RSleepA? || pc.RAsleep? || pc.RWoken?)
    && w == Watch(RTry(pc.size), [], false) && pc.size > 0
  }

  ghost predicate Copying(s: Sys, pc: Pc, w: Watch) {
    && pc.RCopy? && w.call == RTry(pc.size) && 0 < pc.size && !w.failed && |w.moved| == pc.i <= pc.size
    && IsTail(w.moved, s.flow.delivered)
    && (pc.i == 0 && Held(s) == 0 ==> !s.writable)
  }

  ghost predicate Writing(pc: Pc, w: Watch) {
    && (pc.WTry? || pc.WCheck? || pc.WWake? || pc.WSleepA? || pc.WAsleep? || pc.WWoken?)
    && w.call == WTry(pc.size, 0) && !w.failed && |w.moved| == pc.i <= pc.size
  }

  /** The watch agrees with where the process stands. */
  ghost predicate Link(s: Sys, p: nat, w: Watch)
    requires p < |s.pcs|
  {
    var pc := s.pcs[p];
    || pc.Idle? || Reading(pc, w) || Copying(s, pc, w) || Writing(pc, w)
    || (pc.RWake? && w.call.RTry? && ReadEnd(s, w, pc.ret))
    || (pc.WDone? && w.call.WTry? && WriteEnd(s, w, pc.ret))
    || (pc.CTry? && w.call == pc)
    || (pc.CWake? && w.call == CTry(pc.wr) && CloseEnd(s, w))
  }

  /** Unmoved, or woken. */
  ghost predicate Stirred(pc: Pc, pc': Pc) {
    || pc' == pc
    || (pc.RAsleep? && pc' == RWoken(pc.size))
    || (pc.WAsleep? && pc' == WWoken(pc.size, pc.i))
  }

  /** Ends close, each by a closer of that end only, and never open again. */
  ghost predicate Closes(s: Sys, s': Sys, op: Op)
    requires op.p < |s.pcs|
  {
    && (s'.writable <==> s.writable && !(op.Go? && s.pcs[op.p] == CTry(true)))
    && (s'.readable <==> s.readable && !(op.Go? && s.pcs[op.p] == CTry(false)))
  }

  lemma ReadShape(s: Sys, op: Op, q: nat)
    requires op.Go? && op.p < |s.pcs| && q < |s.pcs| && !s.pcs[op.p].CTry?
    ensures var s' := ReadNext(s, op.p, s.pcs[op.p], op.ok);
      |s'.pcs| == |s.pcs| && Closes(s, s', op) && (q != op.p ==> Stirred(s.pcs[q], s'.pcs[q]))
  {
  }

  lemma WriteShape(s: Sys, op: Op, q: nat)
    requires op.Go? && op.p < |s.pcs| && q < |s.pcs| && !s.pcs[op.p].CTry?
    ensures var s' := WriteNext(s, op.p, s.pcs[op.p], op.ok, op.ch);
      |s'.pcs| == |s.pcs| && Closes(s, s', op) && (q != op.p ==> Stirred(s.pcs[q], s'.pcs[q]))
  {
  }

  lemma CloseShape(s: Sys, op: Op, q: nat)
    requires op.Go? && op.p < |s.pcs| && q < |s.pcs|
    ensures var s' := CloseNext(s, op.p, s.pcs[op.p]);
      |s'.pcs| == |s.pcs| && Closes(s, s', op) && (q != op.p ==> Stirred(s.pcs[q], s'.pcs[q]))
  {
  }

  /** A step leaves every other process where it is, or wakes it, and closes an end only for its closer. */
  lemma StepShape(s: Sys, op: Op, q: nat)
    requires Enabled(s, op) && q < |s.pcs|
    ensures |Step(s, op).pcs| == |s.pcs| && Closes(s, Step(s, op), op)
    ensures (op.Kick? || q != op.p) ==> Stirred(s.pcs[q], Step(s, op).pcs[q])
  {
    if op.Go? {
      if !s.pcs[op.p].CTry? {
        ReadShape(s, op, q);
        WriteShape(s, op, q);
      }
      CloseShape(s, op, q);
    }
  }

  /** The holder of the lock sees no one else move a byte or close an end. */
  lemma HolderAlone(s: Sys, op: Op, p: nat)
    requires Inv(s) && Enabled(s, op) && p < |s.pcs| && Inside(s.pcs[p]) && !(op.Go? && op.p == p)
    ensures var s' := Step(s, op);
      s'.flow == s.flow && s'.readable == s.readable && s'.writable == s.writable
  {
    assert ProcOk(s, p);
    StepShape(s, op, p);
    if op.Go? {
      assert ProcOk(s, op.p);
      BytesStay(s, op.p, op.ok, op.ch);
    }
  }

  lemma OtherLinked(s: Sys, op: Op, p: nat, w: Watch)
    requires Inv(s) && Enabled(s, op) && p < |s.pcs| && !(op.Go? && op.p == p) && !(op.Enter? && op.p == p)
    requires Link(s, p, w)
    ensures |Step(s, op).pcs| == |s.pcs| && Link(Step(s, op), p, w)
  {
    StepShape(s, op, p);
    var s' := Step(s, op);
    if Inside(s.pcs[p]) {
      HolderAlone(s, op, p);
      SameLink(s, s', p, w);
    }
  }

  lemma SameLink(s: Sys, s': Sys, p: nat, w: Watch)
    requires p < |s.pcs| == |s'.pcs| && Link(s, p, w) && s'.pcs[p] == s.pcs[p]
    requires s'.flow == s.flow && s'.readable == s.readable && s'.writable == s.writable
    ensures Link(s', p, w)
  {
  }

  lemma ReadLinked(s: Sys, op: Op, p: nat, w: Watch)
    requires Inv(s) && Enabled(s, op) && p < |s.pcs| && op.Go? && op.p == p && Link(s, p, w)
    requires Reading(s.pcs[p], w)
    ensures |Step(s, op).pcs| == |s.pcs| && Link(Step(s, op), p, WatchStep(s, op, p, w))
  {
    TestsExact(s.ring, s.flow);
    BytesStay(s, p, op.ok, op.ch);
  }

  lemma CopyLinked(s: Sys, op: Op, p: nat, w: Watch)
    requires Inv(s) && Enabled(s, op) && p < |s.pcs| && op.Go? && op.p == p && Link(s, p, w)
    requires Copying(s, s.pcs[p], w)
    ensures |Step(s, op).pcs| == |s.pcs| && Link(Step(s, op), p, WatchStep(s, op, p, w))
  {
    TestsExact(s.ring, s.flow);
  }

  lemma WriteLinked(s: Sys, op: Op, p: nat, w: Watch)
    requires Inv(s) && Enabled(s, op) && p < |s.pcs| && op.Go? && op.p == p && Link(s, p, w)
    requires Writing(s.pcs[p], w) && s.pcs[p].WCheck?
    ensures var s', w' := Step(s, op), WatchStep(s, op, p, w);
      |s'.pcs| == |s.pcs| && Link(s', p, w') && (s'.pcs[p].Idle? ==> Ended(s', w', s'.pcs[p].ret))
  {
    TestsExact(s.ring, s.flow);
  }

  lemma WaitLinked(s: Sys, op: Op, p: nat, w: Watch)
    requires Inv(s) && Enabled(s, op) && p < |s.pcs| && op.Go? && op.p == p && Link(s, p, w)
    requires Writing(s.pcs[p], w) && !s.pcs[p].WCheck?
    ensures |Step(s, op).pcs| == |s.pcs| && Link(Step(s, op), p, WatchStep(s, op, p, w))
    ensures !Step(s, op).pcs[p].Idle?
  {
    BytesStay(s, p, op.ok, op.ch);
  }

  lemma CloseLinked(s: Sys, op: Op, p: nat, w: Watch)
    requires Inv(s) && Enabled(s, op) && p < |s.pcs| && op.Go? && op.p == p && Link(s, p, w)
    requires s.pcs[p].CTry? || s.pcs[p].CWake?
    ensures var s', w' := Step(s, op), WatchStep(s, op, p, w);
      |s'.pcs| == |s.pcs| && Link(s', p, w') && (s'.pcs[p].Idle? ==> Ended(s', w', s'.pcs[p].ret))
  {
    BytesStay(s, p, op.ok, op.ch);
  }

  /** A step that is not a copy moves no byte, and the watch stays. */
  lemma WatchStays(s: Sys, op: Op, p: nat, w: Watch)
    requires Inv(s) && Enabled(s, op) && p < |s.pcs| && op.Go? && op.p == p && !s.pcs[p].RCopy? && !s.pcs[p].WCheck?
    ensures WatchStep(s, op, p, w) == w && Step(s, op).flow == s.flow
  {
    BytesStay(s, p, op.ok, op.ch);
  }

  /** The last wakeup of a call goes on, or returns with the lock free. */
  ghost predicate Leaves(pc: Pc, pc': Pc) {
    || (pc.RWake? && pc' == RWake(pc.k + 1, pc.ret))
    || (pc.WDone? && pc' == WDone(pc.k + 1, pc.ret))
    || ((pc.RWake? || pc.WDone?) && pc' == Idle(pc.ret))
  }

  lemma LastWake(s: Sys, op: Op, p: nat)
    requires Enabled(s, op) && p < |s.pcs| && op.Go? && op.p == p && (s.pcs[p].RWake? || s.pcs[p].WDone?)
    ensures |Step(s, op).pcs| == |s.pcs| && Leaves(s.pcs[p], Step(s, op).pcs[p])
  {
  }

  lemma ReadLeaves(s: Sys, op: Op, p: nat, w: Watch)
    requires Inv(s) && Enabled(s, op) && p < |s.pcs| && op.Go? && op.p == p && Link(s, p, w) && s.pcs[p].RWake?
    ensures var s', w' := Step(s, op), WatchStep(s, op, p, w);
      |s'.pcs| == |s.pcs| && Link(s', p, w') && (s'.pcs[p].Idle? ==> Ended(s', w', s'.pcs[p].ret))
  {
    WatchStays(s, op, p, w);
    LastWake(s, op, p);
    StepShape(s, op, p);
  }

  lemma WriteLeaves(s: Sys, op: Op, p: nat, w: Watch)
    requires Inv(s) && Enabled(s, op) && p < |s.pcs| && op.Go? && op.p == p && Link(s, p, w) && s.pcs[p].WDone?
    ensures var s', w' := Step(s, op), WatchStep(s, op, p, w);
      |s'.pcs| == |s.pcs| && Link(s', p, w') && (s'.pcs[p].Idle? ==> Ended(s', w', s'.pcs[p].ret))
  {
    WatchStays(s, op, p, w);
    LastWake(s, op, p);
    StepShape(s, op, p);
  }

  /** One step of anyone. */
  lemma StepLinked(s: Sys, op: Op, p: nat, w: Watch)
    requires Inv(s) && Enabled(s, op) && p < |s.pcs| && Link(s, p, w)
    ensures var s', w' := Step(s, op), WatchStep(s, op, p, w);
      && |s'.pcs| == |s.pcs| && Link(s', p, w')
      && (!s.pcs[p].Idle? && s'.pcs[p].Idle? ==> Ended(s', w', s'.pcs[p].ret))
  {
    if op.Go? && op.p == p {
      if Reading(s.pcs[p], w) {
        ReadLinked(s, op, p, w);
      } else if Copying(s, s.pcs[p], w) {
        CopyLinked(s, op, p, w);
      } else if Writing(s.pcs[p], w) {
        if s.pcs[p].WCheck? { WriteLinked(s, op, p, w); } else { WaitLinked(s, op, p, w); }
      } else if s.pcs[p].CTry? || s.pcs[p].CWake? {
        CloseLinked(s, op, p, w);
      } else if s.pcs[p].RWake? {
        ReadLeaves(s, op, p, w);
      } else {
        WriteLeaves(s, op, p, w);
      }
    } else if !(op.Enter? && op.p == p) {
      OtherLinked(s, op, p, w);
      StepShape(s, op, p);
    }
  }

  ghost function WatchRun(s: Sys, ops: seq<Op>, p: nat, w: Watch): Watch
    requires Inv(s) && Runs(s, ops) && p < |s.pcs| && Link(s, p, w)
    decreases |ops|
  {
    if ops == [] then w
    else
      StepKeeps(s, ops[0]);
      StepLinked(s, ops[0], p, w);
      WatchRun(Step(s, ops[0]), ops[1..], p, WatchStep(s, ops[0], p, w))
  }

  lemma {:induction false} RunLinked(s: Sys, ops: seq<Op>, p: nat, w: Watch)
    requires Inv(s) && Runs(s, ops) && p < |s.pcs| && Link(s, p, w)
    ensures Inv(Run(s, ops)) && |Run(s, ops).pcs| == |s.pcs| && Link(Run(s, ops), p, WatchRun(s, ops, p, w))
    decreases |ops|
  {
    if ops != [] {
      StepKeeps(s, ops[0]);
      StepLinked(s, ops[0], p, w);
      RunLinked(Step(s, ops[0]), ops[1..], p, WatchStep(s, ops[0], p, w));
    }
  }

  /** Over every run of any number of readers, writers and closers, and every process in it: when a call
      returns, it returns what it should. */
  lemma EveryReturn(s0: Sys, ops: seq<Op>, op: Op, p: nat, w0: Watch)
    requires Initial(s0) && Inv(s0) && p < |s0.pcs| && Runs(s0, ops) && Enabled(Run(s0, ops), op)
    ensures Inv(Run(s0, ops)) && |Run(s0, ops).pcs| == |s0.pcs|
    ensures var s, w := Run(s0, ops), WatchRun(s0, ops, p, w0);
      var s', w' := Step(s, op), WatchStep(s, op, p, w);
      |s'.pcs| == |s.pcs| && (!s.pcs[p].Idle? && s'.pcs[p].Idle? ==> Ended(s', w', s'.pcs[p].ret))
  {
    RunLinked(s0, ops, p, w0);
    StepLinked(Run(s0, ops), op, p, WatchRun(s0, ops, p, w0));
  }
}
