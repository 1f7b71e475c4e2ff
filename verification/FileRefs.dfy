/** Open files and the descriptors and memory areas that refer to them: reference counts are exact, the last
    reference is dropped once, a pipe is freed once, and each open file keeps one reference on its inode. */
module FileRefs {

  const NFD: nat := 128              // descriptors per process
  const NSLOT: nat := 144            // descriptors and then 16 memory areas

  datatype Kind = NoFile | Node(inode: nat) | PipeEnd(pipe: nat, writable: bool)

  datatype File = File(ref: nat, kind: Kind)

  /** `freed` counts how often the pipe was freed. */
  datatype Pipe = Pipe(readable: bool, writable: bool, freed: nat)

  /** `procs[i][j]` is the file slot `j` of process `i` refers to, or -1.  `inodes[n]` counts the references taken
      on inode `n` and not given back; `lent[n]` are those that the code outside of open files has. */
  datatype State = State(files: seq<File>, procs: seq<seq<int>>, pipes: seq<Pipe>, inodes: seq<nat>, lent: seq<nat>)

  type Slot = (nat, nat)

  /** The slots that refer to file `f`. */
  ghost function Slots(procs: seq<seq<int>>, f: nat): set<Slot> {
    set i: nat, j: nat | i < |procs| && j < |procs[i]| && procs[i][j] == f :: (i, j)
  }

  /** The open files on inode `n`. */
  ghost function NodeFiles(files: seq<File>, n: nat): set<nat> {
    set f: nat | f < |files| && files[f].kind == Node(n)
  }

  /** Each open file on an inode keeps one reference on it. */
  ghost predicate NodeOk(s: State, n: nat)
    requires n < |s.inodes| == |s.lent|
  {
    s.inodes[n] == |NodeFiles(s.files, n)| + s.lent[n]
  }

  ghost predicate NodesOk(s: State) {
    && |s.inodes| == |s.lent|
    && forall n: nat {:trigger NodeOk(s, n)} | n < |s.inodes| :: NodeOk(s, n)
  }

  ghost predicate Shape(s: State) {
    forall i | 0 <= i < |s.procs| ::
      |s.procs[i]| == NSLOT && forall j | 0 <= j < NSLOT :: -1 <= s.procs[i][j] < |s.files|
  }

  /** The count of a file is the number of slots that refer to it, plus references in hand. */
  ghost predicate RefOk(s: State, held: multiset<nat>, f: nat)
    requires f < |s.files|
  {
    s.files[f].ref == |Slots(s.procs, f)| + held[f]
  }

  ghost predicate KindOk(s: State, f: nat)
    requires f < |s.files|
  {
    && (s.files[f].ref == 0 ==> s.files[f].kind == NoFile)
    && (s.files[f].kind.PipeEnd? ==> s.files[f].kind.pipe < |s.pipes|)
    && (s.files[f].kind.Node? ==> s.files[f].kind.inode < |s.inodes|)
  }

  /** Some open file is this end of the pipe. */
  ghost predicate EndOpen(s: State, p: nat, w: bool) {
    exists f :: 0 <= f < |s.files| && s.files[f].kind == PipeEnd(p, w)
  }

  /** A pipe's flags tell which of its ends are open, and it is freed when neither is, once. */
  ghost predicate PipeOk(s: State, p: nat)
    requires p < |s.pipes|
  {
    var q := s.pipes[p];
    && (q.readable <==> EndOpen(s, p, false)) && (q.writable <==> EndOpen(s, p, true))
    && q.freed == if q.readable || q.writable then 0 else 1
  }

  ghost predicate EndsApart(s: State) {
    forall f, g |
      && 0 <= f < |s.files| && 0 <= g < |s.files|
      && s.files[f].kind.PipeEnd? && s.files[f].kind == s.files[g].kind :: f == g
  }

  ghost predicate Inv(s: State, held: multiset<nat>) {
    && Shape(s) && EndsApart(s) && NodesOk(s)
    && (forall f: nat {:trigger RefOk(s, held, f)} | f < |s.files| :: RefOk(s, held, f))
    && (forall f: nat {:trigger KindOk(s, f)} | f < |s.files| :: KindOk(s, f))
    && (forall p: nat {:trigger PipeOk(s, p)} | p < |s.pipes| :: PipeOk(s, p))
  }

  // ----- primitive steps -----

  function SetSlot(s: State, i: nat, j: nat, v: int): State {
    if i < |s.procs| && j < |s.procs[i]| then s.(procs := s.procs[i := s.procs[i][j := v]]) else s
  }

  lemma SlotsAfter(s: State, i: nat, j: nat, v: int, f: nat)
    requires Shape(s) && i < |s.procs| && j < NSLOT
    ensures Slots(SetSlot(s, i, j, v).procs, f) ==
      (if v == f then Slots(s.procs, f) + {(i, j)} else Slots(s.procs, f) - {(i, j)})
  {
    var procs' := SetSlot(s, i, j, v).procs;
    forall x: Slot
      ensures x in Slots(procs', f) <==>
        x in (if v == f then Slots(s.procs, f) + {(i, j)} else Slots(s.procs, f) - {(i, j)})
    {
      if x.0 < |s.procs| && x.1 < NSLOT {
        assert procs'[x.0][x.1] == if x == (i, j) then v else s.procs[x.0][x.1];
      }
    }
  }

  /** The references in hand once `v` is stored in a slot that had `was`. */
  function Moved(held: multiset<nat>, v: int, was: int): multiset<nat> {
    (if v >= 0 then held - multiset{v as nat} else held) + if was >= 0 then multiset{was as nat} else multiset{}
  }

  /** Storing a reference that is in hand, or taking one out of a slot. */
  lemma SlotKeeps(s: State, held: multiset<nat>, i: nat, j: nat, v: int)
    requires Inv(s, held) && i < |s.procs| && j < NSLOT && -1 <= v < |s.files| && (v >= 0 ==> held[v as nat] > 0)
    ensures var was := s.procs[i][j];
      Inv(SetSlot(s, i, j, v), Moved(held, v, was))
  {
    var s', was := SetSlot(s, i, j, v), s.procs[i][j];
    var held' := Moved(held, v, was);
    forall f: nat | f < |s'.files| ensures RefOk(s', held', f) {
      assert RefOk(s, held, f);
      SlotsAfter(s, i, j, v, f);
      assert (i, j) in Slots(s.procs, f) <==> was == f;
    }
    SameKinds(s, s', held, held');
  }

  /** What concerns kinds and pipes only depends on the files and pipes. */
  lemma SameKinds(s: State, s': State, held: multiset<nat>, held': multiset<nat>)
    requires Inv(s, held) && s'.files == s.files && s'.pipes == s.pipes && s'.inodes == s.inodes && s'.lent == s.lent
    requires Shape(s')
    requires forall f: nat | f < |s'.files| :: RefOk(s', held', f)
    ensures Inv(s', held')
  {
    forall f: nat | f < |s'.files| ensures KindOk(s', f) { assert KindOk(s, f); }
    forall p: nat | p < |s'.pipes| ensures PipeOk(s', p) {
      assert PipeOk(s, p);
      assert forall w :: EndOpen(s', p, w) <==> EndOpen(s, p, w);
    }
    forall n: nat | n < |s'.inodes| ensures NodeOk(s', n) { assert NodeOk(s, n); }
  }

  /** Inodes keep their counts when no file changes to or from one. */
  lemma SameNodes(s: State, s': State)
    requires NodesOk(s) && |s'.files| == |s.files| && s'.inodes == s.inodes && s'.lent == s.lent
    requires forall f | 0 <= f < |s.files| ::
        s'.files[f].kind == s.files[f].kind || (!s'.files[f].kind.Node? && !s.files[f].kind.Node?)
    ensures NodesOk(s')
  {
    forall n: nat | n < |s'.inodes| ensures NodeOk(s', n) {
      assert NodeOk(s, n);
      assert NodeFiles(s'.files, n) == NodeFiles(s.files, n);
    }
  }

  /** `filedup`: one more reference, in hand.  Its panic is unreachable for a file a slot refers to. */
  function Dup(s: State, f: nat): State {
    if f < |s.files| then s.(files := s.files[f := s.files[f].(ref := s.files[f].ref + 1)]) else s
  }

  lemma DupKeeps(s: State, held: multiset<nat>, f: nat)
    requires Inv(s, held) && f < |s.files| && s.files[f].ref > 0
    ensures Inv(Dup(s, f), held + multiset{f})
  {
    var s', held' := Dup(s, f), held + multiset{f};
    forall g: nat | g < |s'.files| ensures RefOk(s', held', g) { assert RefOk(s, held, g); }
    forall g: nat | g < |s'.files| ensures KindOk(s', g) { assert KindOk(s, g); }
    SameEnds(s, s');
    SameNodes(s, s');
  }

  /** Pipes stay as they are when no kind changes. */
  lemma SameEnds(s: State, s': State)
    requires |s'.files| == |s.files| && (forall f | 0 <= f < |s.files| :: s'.files[f].kind == s.files[f].kind)
    requires s'.pipes == s.pipes
    requires forall p: nat {:trigger PipeOk(s, p)} | p < |s.pipes| :: PipeOk(s, p)
    ensures forall p: nat {:trigger PipeOk(s', p)} | p < |s'.pipes| :: PipeOk(s', p)
  {
    forall p: nat | p < |s'.pipes| ensures PipeOk(s', p) {
      assert PipeOk(s, p);
      forall w ensures EndOpen(s', p, w) <==> EndOpen(s, p, w) {
        if EndOpen(s', p, w) {
          var f :| 0 <= f < |s'.files| && s'.files[f].kind == PipeEnd(p, w);
          assert s.files[f].kind == PipeEnd(p, w);
        }
        if EndOpen(s, p, w) {
          var f :| 0 <= f < |s.files| && s.files[f].kind == PipeEnd(p, w);
          assert s'.files[f].kind == PipeEnd(p, w);
        }
      }
    }
  }

  /** `pipe_close`. */
  function PipeClose(q: Pipe, w: bool): Pipe {
    var q' := if w then q.(writable := false) else q.(readable := false);
    if !q'.readable && !q'.writable then q'.(freed := q'.freed + 1) else q'
  }

  /** `fileclose`: drop a reference in hand, and on the last one release what the file stood for. */
  function Drop(s: State, f: nat): State {
    if f >= |s.files| || s.files[f].ref == 0 then s
    else
      var file := s.files[f];
      if file.ref > 1 then s.(files := s.files[f := file.(ref := file.ref - 1)])
      else
        var s1 := s.(files := s.files[f := File(0, NoFile)]);
        match file.kind
        case PipeEnd(p, w) => if p < |s.pipes| then s1.(pipes := s.pipes[p := PipeClose(s.pipes[p], w)]) else s1
        case Node(n) => s1.(inodes := Less(s.inodes, n))
        case NoFile => s1
  }

  /** One reference fewer. */
  function Less(counts: seq<nat>, n: nat): seq<nat> {
    if n < |counts| && counts[n] > 0 then counts[n := counts[n] - 1] else counts
  }

  lemma HeldRef(s: State, held: multiset<nat>, f: nat)
    requires Inv(s, held) && held[f] > 0 && f < |s.files|
    ensures s.files[f].ref > 0
  {
    assert RefOk(s, held, f);
  }

  lemma DropKeeps(s: State, held: multiset<nat>, f: nat)
    requires Inv(s, held) && f < |s.files| && held[f] > 0
    ensures Inv(Drop(s, f), held - multiset{f})
  {
    var s', held' := Drop(s, f), held - multiset{f};
    assert RefOk(s, held, f);
    forall g: nat | g < |s'.files| ensures RefOk(s', held', g) { assert RefOk(s, held, g); }
    forall g: nat | g < |s'.files| ensures KindOk(s', g) { assert KindOk(s, g); }
    if s.files[f].ref > 1 {
      SameEnds(s, s');
      SameNodes(s, s');
    } else {
      LastDrop(s, held, f);
      LastNode(s, held, f);
    }
  }

  /** The last drop of a file on an inode gives exactly its reference back. */
  lemma LastNode(s: State, held: multiset<nat>, f: nat)
    requires Inv(s, held) && f < |s.files| && s.files[f].ref == 1
    ensures NodesOk(Drop(s, f))
    ensures s.files[f].kind.Node? ==> s.files[f].kind.inode < |s.inodes| && s.inodes[s.files[f].kind.inode] > 0
  {
    var s', k := Drop(s, f), s.files[f].kind;
    assert KindOk(s, f);
    if k.Node? {
      assert NodeOk(s, k.inode);
      assert f in NodeFiles(s.files, k.inode);
    }
    forall n: nat | n < |s'.inodes| ensures NodeOk(s', n) {
      assert NodeOk(s, n);
      assert NodeFiles(s'.files, n) == if k == Node(n) then NodeFiles(s.files, n) - {f} else NodeFiles(s.files, n);
    }
  }

  /** The last drop of a pipe end closes that end, and nothing of any other pipe. */
  lemma LastDrop(s: State, held: multiset<nat>, f: nat)
    requires Inv(s, held) && f < |s.files| && s.files[f].ref == 1
    ensures forall p: nat {:trigger PipeOk(Drop(s, f), p)} | p < |Drop(s, f).pipes| :: PipeOk(Drop(s, f), p)
    ensures s.files[f].kind.PipeEnd? ==> s.files[f].kind.pipe < |s.pipes| && s.pipes[s.files[f].kind.pipe].freed == 0
  {
    var s', k := Drop(s, f), s.files[f].kind;
    assert KindOk(s, f);
    if k.PipeEnd? {
      assert PipeOk(s, k.pipe);
      assert EndOpen(s, k.pipe, k.writable);
    }
    forall p: nat | p < |s'.pipes| ensures PipeOk(s', p) {
      assert PipeOk(s, p);
      forall w ensures EndOpen(s', p, w) <==> EndOpen(s, p, w) && k != PipeEnd(p, w) { EndAfter(s, s', f, p, w); }
    }
  }

  lemma EndAfter(s: State, s': State, f: nat, p: nat, w: bool)
    requires f < |s.files| && s'.files == s.files[f := File(0, NoFile)] && EndsApart(s)
    ensures EndOpen(s', p, w) <==> EndOpen(s, p, w) && s.files[f].kind != PipeEnd(p, w)
  {
    if EndOpen(s', p, w) {
      var g :| 0 <= g < |s'.files| && s'.files[g].kind == PipeEnd(p, w);
      assert g != f && s.files[g].kind == PipeEnd(p, w);
    }
    if EndOpen(s, p, w) && s.files[f].kind != PipeEnd(p, w) {
      var g :| 0 <= g < |s.files| && s.files[g].kind == PipeEnd(p, w);
      assert s'.files[g].kind == PipeEnd(p, w);
    }
  }

  /** `filealloc`: the first file without references gets one, in hand. */
  function Alloc(s: State, f: nat): State {
    if f < |s.files| then s.(files := s.files[f := s.files[f].(ref := 1)]) else s
  }

  lemma AllocKeeps(s: State, held: multiset<nat>, f: nat)
    requires Inv(s, held) && f < |s.files| && s.files[f].ref == 0
    ensures Inv(Alloc(s, f), held + multiset{f}) && held[f] == 0
  {
    var s', held' := Alloc(s, f), held + multiset{f};
    assert RefOk(s, held, f);
    forall g: nat | g < |s'.files| ensures RefOk(s', held', g) { assert RefOk(s, held, g); }
    forall g: nat | g < |s'.files| ensures KindOk(s', g) { assert KindOk(s, g); }
    SameEnds(s, s');
    SameNodes(s, s');
  }

  /** A new file takes over a reference on its inode. */
  function SetNode(s: State, f: nat, inode: nat): State {
    if f < |s.files| then s.(files := s.files[f := s.files[f].(kind := Node(inode))], lent := Less(s.lent, inode))
    else s
  }

  lemma SetNodeKeeps(s: State, held: multiset<nat>, f: nat, inode: nat)
    requires Inv(s, held) && f < |s.files| && held[f] > 0 && s.files[f].kind == NoFile && inode < |s.lent|
    requires s.lent[inode] > 0
    ensures Inv(SetNode(s, f, inode), held)
  {
    var s' := SetNode(s, f, inode);
    assert RefOk(s, held, f);
    forall g: nat | g < |s'.files| ensures RefOk(s', held, g) { assert RefOk(s, held, g); }
    forall g: nat | g < |s'.files| ensures KindOk(s', g) { assert KindOk(s, g); }
    forall p: nat | p < |s'.pipes| ensures PipeOk(s', p) {
      assert PipeOk(s, p);
      forall w ensures EndOpen(s', p, w) <==> EndOpen(s, p, w) {
        if EndOpen(s', p, w) {
          var g :| 0 <= g < |s'.files| && s'.files[g].kind == PipeEnd(p, w);
          assert s.files[g].kind == PipeEnd(p, w);
        }
        if EndOpen(s, p, w) {
          var g :| 0 <= g < |s.files| && s.files[g].kind == PipeEnd(p, w);
          assert s'.files[g].kind == PipeEnd(p, w);
        }
      }
    }
    SetNodeCounts(s, f, inode);
  }

  lemma SetNodeCounts(s: State, f: nat, inode: nat)
    requires NodesOk(s) && f < |s.files| && s.files[f].kind == NoFile && inode < |s.lent| && s.lent[inode] > 0
    ensures NodesOk(SetNode(s, f, inode))
  {
    var s' := SetNode(s, f, inode);
    forall n: nat | n < |s'.inodes| ensures NodeOk(s', n) {
      assert NodeOk(s, n);
      assert NodeFiles(s'.files, n) == if n == inode then NodeFiles(s.files, n) + {f} else NodeFiles(s.files, n);
    }
  }

  /** A reference on an inode taken by a lookup. */
  function GetNode(s: State, n: nat): State {
    if n < |s.inodes| && n < |s.lent| then
      s.(inodes := s.inodes[n := s.inodes[n] + 1], lent := s.lent[n := s.lent[n] + 1])
    else s
  }

  /** `vfs_iput` of a reference no file has. */
  function PutNode(s: State, n: nat): State {
    s.(inodes := Less(s.inodes, n), lent := Less(s.lent, n))
  }

  lemma GetNodeKeeps(s: State, held: multiset<nat>, n: nat)
    requires Inv(s, held) && n < |s.inodes|
    ensures Inv(GetNode(s, n), held)
  {
    LentKeeps(s, GetNode(s, n), held, n);
  }

  lemma PutNodeKeeps(s: State, held: multiset<nat>, n: nat)
    requires Inv(s, held) && n < |s.inodes| && s.lent[n] > 0
    ensures Inv(PutNode(s, n), held)
  {
    assert NodeOk(s, n);
    LentKeeps(s, PutNode(s, n), held, n);
  }

  /** A change of the two counts of one inode by the same amount. */
  lemma LentKeeps(s: State, s': State, held: multiset<nat>, n: nat)
    requires Inv(s, held) && n < |s.inodes| && |s'.inodes| == |s.inodes| && |s'.lent| == |s.lent|
    requires s'.files == s.files && s'.procs == s.procs && s'.pipes == s.pipes
    requires s'.inodes[n] + s.lent[n] == s.inodes[n] + s'.lent[n]
    requires forall k | 0 <= k < |s.inodes| && k != n :: s'.inodes[k] == s.inodes[k] && s'.lent[k] == s.lent[k]
    ensures Inv(s', held)
  {
    forall f: nat | f < |s'.files|
      ensures RefOk(s', held, f) && KindOk(s', f)
    {
      assert RefOk(s, held, f) && KindOk(s, f);
    }
    forall p: nat | p < |s'.pipes| ensures PipeOk(s', p) {
      assert PipeOk(s, p);
      assert forall w :: EndOpen(s', p, w) <==> EndOpen(s, p, w);
    }
    forall k: nat | k < |s'.inodes| ensures NodeOk(s', k) { assert NodeOk(s, k); }
  }

  /** `pipe_alloc` once it has two files: a new pipe with both ends open. */
  function SetPipe(s: State, r: nat, w: nat): State {
    if r < |s.files| && w < |s.files| then
      var n := |s.pipes|;
      s.(files := s.files[r := s.files[r].(kind := PipeEnd(n, false))][w := s.files[w].(kind := PipeEnd(n, true))],
         pipes := s.pipes + [Pipe(true, true, 0)])
    else s
  }

  lemma SetPipeKeeps(s: State, held: multiset<nat>, r: nat, w: nat)
    requires Inv(s, held) && r < |s.files| && w < |s.files| && r != w && held[r] > 0 && held[w] > 0
    requires s.files[r].kind == NoFile && s.files[w].kind == NoFile
    ensures Inv(SetPipe(s, r, w), held)
  {
    var s' := SetPipe(s, r, w);
    assert RefOk(s, held, r) && RefOk(s, held, w);
    forall g: nat | g < |s'.files| ensures RefOk(s', held, g) { assert RefOk(s, held, g); }
    forall g: nat | g < |s'.files| ensures KindOk(s', g) { assert KindOk(s, g); }
    forall f, g |
      && 0 <= f < |s'.files| && 0 <= g < |s'.files|
      && s'.files[f].kind.PipeEnd? && s'.files[f].kind == s'.files[g].kind
      ensures f == g
    {
      assert KindOk(s, f) && KindOk(s, g);
    }
    forall p: nat | p < |s'.pipes| ensures PipeOk(s', p) {
      if p < |s.pipes| {
        assert PipeOk(s, p);
        forall e ensures EndOpen(s', p, e) <==> EndOpen(s, p, e) { PipeEnds(s, s', r, w, p, e); }
      } else {
        assert s'.files[r].kind == PipeEnd(p, false) && s'.files[w].kind == PipeEnd(p, true);
      }
    }
    SameNodes(s, s');
  }

  lemma PipeEnds(s: State, s': State, r: nat, w: nat, p: nat, e: bool)
    requires s' == SetPipe(s, r, w) && r < |s.files| && w < |s.files| && s.files[r].kind == NoFile
    requires s.files[w].kind == NoFile && p < |s.pipes|
    ensures EndOpen(s', p, e) <==> EndOpen(s, p, e)
  {
    if EndOpen(s', p, e) {
      var g :| 0 <= g < |s'.files| && s'.files[g].kind == PipeEnd(p, e);
      assert s.files[g].kind == PipeEnd(p, e);
    }
    if EndOpen(s, p, e) {
      var g :| 0 <= g < |s.files| && s.files[g].kind == PipeEnd(p, e);
      assert s'.files[g].kind == PipeEnd(p, e);
    }
  }

  // ----- whole runs -----

  /** Everything open, dup, dup3, close, pipe2, fork, mmap, munmap, exec and exit do is made of these. */
  datatype Act =
    | DupAct(f: nat)
    | PutAct(i: nat, j: nat, v: int)
    | DropAct(f: nat)
    | AllocAct(f: nat)
    | NodeAct(f: nat, inode: nat)
    | PipeAct(r: nat, w: nat)
    | LookupAct(inode: nat)
    | IputAct(inode: nat)

  datatype Run = Run(state: State, held: multiset<nat>)

  ghost predicate Enabled(x: Run, act: Act) {
    var s := x.state;
    match act
    case DupAct(f) => f < |s.files| && s.files[f].ref > 0
    case PutAct(i, j, v) => i < |s.procs| && j < NSLOT && -1 <= v < |s.files| && (v >= 0 ==> x.held[v as nat] > 0)
    case DropAct(f) => f < |s.files| && x.held[f] > 0
    case AllocAct(f) => f < |s.files| && s.files[f].ref == 0
    case NodeAct(f, n) => f < |s.files| && x.held[f] > 0 && s.files[f].kind == NoFile && n < |s.lent| && s.lent[n] > 0
    case LookupAct(n) => n < |s.inodes|
    case IputAct(n) => n < |s.inodes| && n < |s.lent| && s.lent[n] > 0
    case PipeAct(r, w) =>
      && r < |s.files| && w < |s.files| && r != w && x.held[r] > 0 && x.held[w] > 0 && s.files[r].kind == NoFile
      && s.files[w].kind == NoFile
  }

  ghost function Next(x: Run, act: Act): Run
    requires Shape(x.state) && Enabled(x, act)
  {
    var s := x.state;
    match act
    case DupAct(f) => Run(Dup(s, f), x.held + multiset{f})
    case PutAct(i, j, v) => Run(SetSlot(s, i, j, v),
      Moved(x.held, v, s.procs[i][j]))
    case DropAct(f) => Run(Drop(s, f), x.held - multiset{f})
    case AllocAct(f) => Run(Alloc(s, f), x.held + multiset{f})
    case NodeAct(f, inode) => Run(SetNode(s, f, inode), x.held)
    case PipeAct(r, w) => Run(SetPipe(s, r, w), x.held)
    case LookupAct(n) => Run(GetNode(s, n), x.held)
    case IputAct(n) => Run(PutNode(s, n), x.held)
  }

  lemma ActKeeps(x: Run, act: Act)
    requires Inv(x.state, x.held) && Enabled(x, act)
    ensures Inv(Next(x, act).state, Next(x, act).held)
  {
    match act
    case DupAct(f) => DupKeeps(x.state, x.held, f);
    case PutAct(i, j, v) => SlotKeeps(x.state, x.held, i, j, v);
    case DropAct(f) => DropKeeps(x.state, x.held, f);
    case AllocAct(f) => AllocKeeps(x.state, x.held, f);
    case NodeAct(f, inode) => SetNodeKeeps(x.state, x.held, f, inode);
    case PipeAct(r, w) => SetPipeKeeps(x.state, x.held, r, w);
    case LookupAct(n) => GetNodeKeeps(x.state, x.held, n);
    case IputAct(n) => PutNodeKeeps(x.state, x.held, n);
  }

  ghost predicate Reaches(x: Run, acts: seq<Act>, y: Run)
    decreases |acts|
  {
    if acts == [] then x == y else Shape(x.state) && Enabled(x, acts[0]) && Reaches(Next(x, acts[0]), acts[1..], y)
  }

  /** In every run, whenever no reference is in hand, each count is exactly the number of slots of all
      processes that refer to the file, every pipe is freed once if both its ends are closed and never before,
      and the references on an inode are exactly those of its open files and those lent. */
  lemma {:induction false} RunExact(x: Run, acts: seq<Act>, y: Run)
    requires Inv(x.state, x.held) && Reaches(x, acts, y)
    ensures Inv(y.state, y.held)
    ensures y.held == multiset{} ==>
      forall f: nat | f < |y.state.files| :: y.state.files[f].ref == |Slots(y.state.procs, f)|
    ensures forall p: nat | p < |y.state.pipes| ::
        y.state.pipes[p].freed == if EndOpen(y.state, p, false) || EndOpen(y.state, p, true) then 0 else 1
    ensures |y.state.inodes| == |y.state.lent|
    ensures forall n: nat | n < |y.state.inodes| :: y.state.inodes[n] == |NodeFiles(y.state.files, n)| + y.state.lent[n]
    decreases |acts|
  {
    if acts == [] {
      forall f: nat | f < |y.state.files| && y.held == multiset{}
        ensures y.state.files[f].ref == |Slots(y.state.procs, f)|
      {
        assert RefOk(y.state, y.held, f);
      }
      forall p: nat | p < |y.state.pipes|
        ensures y.state.pipes[p].freed == if EndOpen(y.state, p, false) || EndOpen(y.state, p, true) then 0 else 1
      {
        assert PipeOk(y.state, p);
      }
      forall n: nat | n < |y.state.inodes|
        ensures y.state.inodes[n] == |NodeFiles(y.state.files, n)| + y.state.lent[n]
      {
        assert NodeOk(y.state, n);
      }
    } else {
      ActKeeps(x, acts[0]);
      RunExact(Next(x, acts[0]), acts[1..], y);
    }
  }

  // ----- system calls -----

  /** Every file that is open was open before and is what it was. */
  ghost predicate Shrunk(s: State, s': State) {
    && |s'.files| == |s.files| && |s'.pipes| == |s.pipes|
    && forall f | 0 <= f < |s.files| && s'.files[f].ref > 0 :: s.files[f].ref > 0 && s'.files[f].kind == s.files[f].kind
  }

  lemma ShrunkOn(a: State, b: State, c: State)
    requires Shrunk(a, b) && Shrunk(b, c)
    ensures Shrunk(a, c)
  {
  }

  /** A file some slot refers to has references. */
  lemma SlotRef(s: State, held: multiset<nat>, i: nat, j: nat)
    requires Inv(s, held) && i < |s.procs| && j < NSLOT && s.procs[i][j] >= 0
    ensures s.files[s.procs[i][j]].ref > 0
  {
    var f := s.procs[i][j];
    assert RefOk(s, held, f);
    assert (i, j) in Slots(s.procs, f);
  }

  lemma Cleared(was: seq<seq<int>>, i: nat, j: nat, f: nat)
    requires i < |was| && j < |was[i]| && was[i][j] == -1
    ensures var now := was[i := was[i][j := f]]; now[i := now[i][j := -1]] == was
  {
    assert was[i][j := f][j := -1] == was[i];
  }

  /** Both slots stored and then cleared again, the first one first. */
  lemma BothCleared(was: seq<seq<int>>, i: nat, j: nat, k: nat, f: nat, g: nat)
    requires i < |was| && j < |was[i]| && k < |was[i]| && j != k && was[i][j] == -1 && was[i][k] == -1
    ensures var now := was[i := was[i][j := f]]; var both := now[i := now[i][k := g]];
      var one := both[i := both[i][j := -1]]; one[i := one[i][k := -1]] == was
  {
    assert was[i][j := f][k := g][j := -1][k := -1] == was[i];
  }

  lemma BothStored(was: seq<seq<int>>, i: nat, j: nat, k: nat, f: nat, g: nat)
    requires i < |was| && j < |was[i]| && k < |was[i]|
    ensures var now := was[i := was[i][j := f]]; now[i := now[i][k := g]] == was[i := was[i][j := f][k := g]]
  {
  }

  /** The second search finds the next free descriptor after the first. */
  lemma SecondFd(was: seq<int>, now: seq<int>, j: nat, k: nat, f: nat)
    requires |was| == NSLOT && j < NFD && now == was[j := f] && was[j] == -1 && (forall x | 0 <= x < j :: was[x] != -1)
    requires k <= NFD && (k < NFD ==> now[k] == -1) && forall x | 0 <= x < k :: now[x] != -1
    ensures j < k && (k < NFD ==> was[k] == -1) && (k < NFD <==> HasFds(was, 2))
    ensures forall x | 0 <= x < k && x != j :: was[x] != -1
  {
    forall x | 0 <= x < k && x != j ensures was[x] != -1 { assert now[x] != -1; }
  }

  /** At least `n` files, one or two, are unused. */
  ghost predicate HasFiles(files: seq<File>, n: nat) {
    exists f, g :: 0 <= f <= g < |files| && (n > 1 ==> f < g) && files[f].ref == 0 && files[g].ref == 0
  }

  /** At least `n` descriptors, one or two, are free. */
  ghost predicate HasFds(slots: seq<int>, n: nat)
    requires |slots| == NSLOT
  {
    exists j, k :: 0 <= j <= k < NFD && (n > 1 ==> j < k) && slots[j] == -1 && slots[k] == -1
  }

  class Files {
    var files: seq<File>
    var procs: seq<seq<int>>
    var pipes: seq<Pipe>
    var inodes: seq<nat>
    // References on inodes that no file has.
    ghost var lent: seq<nat>

    ghost function Now(): State
      reads this
    {
      State(files, procs, pipes, inodes, lent)
    }

    /** Between system calls no reference is in hand. */
    ghost predicate Valid()
      reads this
    {
      Inv(Now(), multiset{})
    }

    constructor (nfiles: nat, nprocs: nat, ninodes: nat)
      ensures Valid() && |files| == nfiles && |procs| == nprocs && |inodes| == ninodes
      ensures forall i | 0 <= i < nprocs :: procs[i] == seq(NSLOT, _ => -1)
    {
      files := seq(nfiles, _ => File(0, NoFile));
      procs := seq(nprocs, _ => seq(NSLOT, _ => -1));
      pipes := [];
      inodes := seq(ninodes, _ => 0);
      lent := seq(ninodes, _ => 0);
      new;
      forall f: nat | f < |files| ensures RefOk(Now(), multiset{}, f) { assert Slots(procs, f) == {}; }
      forall f: nat | f < |files| ensures KindOk(Now(), f) {}
      forall n: nat | n < |inodes| ensures NodeOk(Now(), n) { assert NodeFiles(files, n) == {}; }
    }

    /** Store `v` in a slot; `after` are the references then in hand. */
    method PutSlot(i: nat, j: nat, v: int, ghost held: multiset<nat>, ghost after: multiset<nat>)
      requires Inv(Now(), held) && i < |procs| && j < NSLOT && -1 <= v < |files| && (v >= 0 ==> held[v as nat] > 0)
      requires var was := procs[i][j];
        after == Moved(held, v, was)
      modifies `procs
      ensures Now() == SetSlot(old(Now()), i, j, v) && Inv(Now(), after)
    {
      SlotKeeps(Now(), held, i, j, v);
      procs := procs[i := procs[i][j := v]];
    }

    /** `filedup`. */
    method DupFile(f: nat, ghost held: multiset<nat>, ghost after: multiset<nat>)
      requires Inv(Now(), held) && f < |files| && files[f].ref > 0 && after == held + multiset{f}
      modifies `files
      ensures Now() == Dup(old(Now()), f) && Inv(Now(), after)
    {
      DupKeeps(Now(), held, f);
      if files[f].ref < 1 {
        assert false;
      }
      files := files[f := files[f].(ref := files[f].ref + 1)];
    }

    /** A lookup: one reference on the inode, lent to the caller. */
    method Lookup(n: nat)
      requires Valid() && n < |inodes|
      modifies `inodes, `lent
      ensures Valid() && Now() == GetNode(old(Now()), n)
    {
      GetNodeKeeps(Now(), multiset{}, n);
      inodes := inodes[n := inodes[n] + 1];
      lent := lent[n := lent[n] + 1];
    }

    /** `vfs_iput` of a reference lent to the caller. */
    method Iput(n: nat)
      requires Valid() && n < |inodes| && lent[n] > 0
      modifies `inodes, `lent
      ensures Valid() && Now() == PutNode(old(Now()), n)
    {
      PutNodeKeeps(Now(), multiset{}, n);
      assert NodeOk(Now(), n);
      inodes := inodes[n := inodes[n] - 1];
      lent := lent[n := lent[n] - 1];
    }

    /** `fileclose`: its panic is unreachable with a reference in hand. */
    method CloseFile(f: nat, ghost held: multiset<nat>, ghost after: multiset<nat>)
      requires Inv(Now(), held) && f < |files| && held[f] > 0 && after == held - multiset{f}
      modifies `files, `pipes, `inodes
      ensures Now() == Drop(old(Now()), f) && Inv(Now(), after) && Shrunk(old(Now()), Now())
    {
      DropKeeps(Now(), held, f);
      HeldRef(Now(), held, f);
      assert KindOk(Now(), f);
      if files[f].ref == 1 { LastNode(Now(), held, f); }
      if files[f].ref < 1 {
        assert false;
      }
      var file := files[f];
      files := files[f := file.(ref := file.ref - 1)];
      if files[f].ref > 0 { return; }
      files := files[f := File(0, NoFile)];
      if file.kind.PipeEnd? {
        pipes := pipes[file.kind.pipe := PipeClose(pipes[file.kind.pipe], file.kind.writable)];
      } else if file.kind.Node? {
        inodes := inodes[file.kind.inode := inodes[file.kind.inode] - 1];
      }
    }

    /** `filealloc`; |files| when the table is full. */
    method AllocFile(ghost held: multiset<nat>) returns (f: nat)
      requires Inv(Now(), held)
      modifies `files
      ensures f <= |old(files)| && |files| == |old(files)|
      ensures f < |files| ==> Now() == Alloc(old(Now()), f) && Inv(Now(), held + multiset{f}) && old(files)[f].ref == 0
      ensures f < |files| ==> files[f].kind == NoFile && held[f] == 0
      ensures f == |files| ==> Now() == old(Now())
      ensures forall x | 0 <= x < f :: old(files)[x].ref != 0
    {
      f := 0;
      while f < |files|
        invariant f <= |files| && files == old(files) && forall x | 0 <= x < f :: files[x].ref != 0
      {
        if files[f].ref == 0 {
          AllocKeeps(Now(), held, f);
          assert KindOk(Now(), f);
          files := files[f := files[f].(ref := 1)];
          return;
        }
        f := f + 1;
      }
    }

    /** The lowest free descriptor from `from` on; NFD when there is none. */
    method FindFd(i: nat, from: nat) returns (j: nat)
      requires i < |procs| && |procs[i]| == NSLOT && from <= NFD
      ensures from <= j <= NFD && (j < NFD ==> procs[i][j] == -1) && forall k | from <= k < j :: procs[i][k] != -1
    {
      j := from;
      while j < NFD
        invariant from <= j <= NFD && forall k | from <= k < j :: procs[i][k] != -1
      {
        if procs[i][j] == -1 { return; }
        j := j + 1;
      }
    }

    /** `openat` once the node is found, with the reference the lookup took: a new file in the lowest free
        descriptor has it then, or it is given back and nothing changes for any process. */
    method Open(i: nat, inode: nat) returns (fd: int)
      requires Valid() && i < |procs| && inode < |inodes| && lent[inode] > 0
      modifies this
      ensures Valid() && |files| == |old(files)| && |procs| == |old(procs)| && |procs[i]| == NSLOT
      ensures lent == Less(old(lent), inode)
      ensures fd >= 0 ==> fd < NFD && old(procs)[i][fd] == -1 && procs[i][fd] >= 0
      ensures fd >= 0 ==> procs == old(procs)[i := old(procs)[i][fd := procs[i][fd]]]
      ensures fd >= 0 ==> files[procs[i][fd]] == File(1, Node(inode)) && inodes == old(inodes)
      ensures fd < 0 ==> procs == old(procs) && inodes == Less(old(inodes), inode)
      ensures fd >= 0 <==> HasFiles(old(files), 1) && HasFds(old(procs)[i], 1)
      ensures fd >= 0 ==> forall k | 0 <= k < fd :: old(procs)[i][k] != -1
    {
      var f := AllocFile(multiset{});
      if f == |files| {
        Iput(inode);
        return -1;
      }
      assert multiset{} + multiset{f} == multiset{f};
      SetNodeKeeps(Now(), multiset{f}, f, inode);
      files := files[f := files[f].(kind := Node(inode))];
      lent := lent[inode := lent[inode] - 1];
      var j := FindFd(i, 0);
      if j == NFD {
        CloseFile(f, multiset{f}, multiset{});
        return -1;
      }
      PutSlot(i, j, f, multiset{f}, multiset{});
      fd := j;
    }

    /** `dup_from`: the lowest free descriptor from `minfd` on gets the same file. */
    method DupFrom(i: nat, fd: int, minfd: int) returns (newfd: int)
      requires Valid() && i < |procs|
      modifies this
      ensures Valid() && pipes == old(pipes)
      ensures newfd >= 0 <==>
        && 0 <= minfd < NFD && 0 <= fd < NFD && old(procs)[i][fd] >= 0
        && exists j :: minfd <= j < NFD && old(procs)[i][j] == -1
      ensures newfd >= 0 ==> minfd <= newfd < NFD && old(procs)[i][newfd] == -1
      ensures newfd >= 0 ==> procs == old(procs)[i := old(procs)[i][newfd := old(procs)[i][fd]]]
      ensures newfd >= 0 ==> forall k | minfd <= k < newfd :: old(procs)[i][k] != -1
      ensures newfd < 0 ==> Now() == old(Now())
    {
      if minfd < 0 || minfd >= NFD { return -1; }
      if fd < 0 || fd >= NFD { return -1; }
      var f := procs[i][fd];
      if f < 0 { return -1; }
      var j := FindFd(i, minfd);
      if j == NFD { return -1; }
      SlotRef(Now(), multiset{}, i, fd);
      DupFile(f, multiset{}, multiset{f as nat});
      PutSlot(i, j, f, multiset{f as nat}, multiset{});
      newfd := j;
    }

    /** `sys_close`. */
    method CloseFd(i: nat, fd: int) returns (ok: bool)
      requires Valid() && i < |procs|
      modifies this
      ensures Valid() && (ok <==> 0 <= fd < NFD && old(procs)[i][fd] >= 0)
      ensures ok ==> procs == old(procs)[i := old(procs)[i][fd := -1]] && Shrunk(old(Now()), Now())
      ensures !ok ==> Now() == old(Now())
    {
      if fd < 0 || fd >= NFD || procs[i][fd] < 0 { return false; }
      ClearSlot(i, fd);
      ok := true;
    }

    /** Empty a slot that refers to a file and drop its reference. */
    method ClearSlot(i: nat, j: nat)
      requires Valid() && i < |procs| && j < NSLOT && procs[i][j] >= 0
      modifies this
      ensures Valid() && procs == old(procs)[i := old(procs)[i][j := -1]] && Shrunk(old(Now()), Now())
    {
      var f := procs[i][j];
      PutSlot(i, j, -1, multiset{}, multiset{f as nat});
      CloseFile(f, multiset{f as nat}, multiset{});
    }

    /** `sys_dup3`. */
    method Dup3(i: nat, oldfd: int, newfd: int, flags: int) returns (r: int)
      requires Valid() && i < |procs|
      modifies this
      ensures Valid() && (r == newfd || r < 0)
      ensures r >= 0 <==>
        0 <= oldfd < NFD && old(procs)[i][oldfd] >= 0 && 0 <= newfd < NFD && newfd != oldfd && flags == 0
      ensures r >= 0 ==> procs == old(procs)[i := old(procs)[i][newfd := old(procs)[i][oldfd]]]
      ensures r >= 0 ==> Shrunk(old(Now()), Now())
      ensures r < 0 ==> Now() == old(Now())
    {
      if oldfd < 0 || oldfd >= NFD || procs[i][oldfd] < 0 { return -1; }
      if newfd < 0 || newfd >= NFD { return -1; }
      if newfd == oldfd { return -1; }
      if flags != 0 { return -1; }
      var f, g := procs[i][oldfd], procs[i][newfd];
      if g == f {
        assert procs[i][newfd := f] == procs[i];
        return newfd;
      }
      SlotRef(Now(), multiset{}, i, oldfd);
      DupFile(f, multiset{}, multiset{f as nat});
      PutSlot(i, newfd, f, multiset{f as nat}, if g >= 0 then multiset{g as nat} else multiset{});
      if g >= 0 { CloseFile(g, multiset{g as nat}, multiset{}); }
      r := newfd;
    }

    /** The file part of `do_mmap`: an unused area refers to the file of a descriptor. */
    method MapFile(i: nat, fd: nat, v: nat)
      requires Valid() && i < |procs| && fd < NFD <= v < NSLOT && procs[i][fd] >= 0 && procs[i][v] == -1
      modifies this
      ensures Valid() && procs == old(procs)[i := old(procs)[i][v := old(procs)[i][fd]]] && pipes == old(pipes)
    {
      var f := procs[i][fd];
      SlotRef(Now(), multiset{}, i, fd);
      DupFile(f, multiset{}, multiset{f as nat});
      PutSlot(i, v, f, multiset{f as nat}, multiset{});
    }

    /** The loop that `exec` runs over the areas, and `exit` over descriptors and areas: empty all slots
        from `lo` to `hi`. */
    method ClearAll(i: nat, lo: nat, hi: nat)
      requires Valid() && i < |procs| && lo <= hi <= NSLOT
      modifies this
      ensures Valid() && |procs| == |old(procs)| && (forall k | 0 <= k < |procs| && k != i :: procs[k] == old(procs)[k])
      ensures Shrunk(old(Now()), Now())
      ensures forall j | 0 <= j < NSLOT :: procs[i][j] == if lo <= j < hi then -1 else old(procs)[i][j]
    {
      var j := lo;
      while j < hi
        invariant lo <= j <= hi && Valid() && |procs| == |old(procs)|
        invariant (forall k | 0 <= k < |procs| && k != i :: procs[k] == old(procs)[k]) && Shrunk(old(Now()), Now())
        invariant forall k | 0 <= k < NSLOT :: procs[i][k] == if lo <= k < j then -1 else old(procs)[i][k]
      {
        if procs[i][j] >= 0 {
          ghost var was := Now();
          ClearSlot(i, j);
          ShrunkOn(old(Now()), was, Now());
        }
        j := j + 1;
      }
    }

    /** `exit`: the process refers to nothing any more; other processes are not affected. */
    method Exit(i: nat)
      requires Valid() && i < |procs|
      modifies this
      ensures Valid() && |procs| == |old(procs)| && (forall k | 0 <= k < |procs| && k != i :: procs[k] == old(procs)[k])
      ensures Shrunk(old(Now()), Now())
      ensures forall j | 0 <= j < NSLOT :: procs[i][j] == -1
    {
      ClearAll(i, 0, NFD);
      ghost var was := Now();
      ClearAll(i, NFD, NSLOT);
      ShrunkOn(old(Now()), was, Now());
    }

    /** `exec`: the areas go, the descriptors stay. */
    method Exec(i: nat)
      requires Valid() && i < |procs|
      modifies this
      ensures Valid() && |procs| == |old(procs)| && (forall k | 0 <= k < |procs| && k != i :: procs[k] == old(procs)[k])
      ensures Shrunk(old(Now()), Now())
      ensures forall j | 0 <= j < NSLOT :: procs[i][j] == if j >= NFD then -1 else old(procs)[i][j]
    {
      ClearAll(i, NFD, NSLOT);
    }

    /** `fork`: the child, which referred to nothing, refers to everything the parent does. */
    method Fork(i: nat, c: nat)
      requires Valid() && i < |procs| && c < |procs| && i != c && forall j | 0 <= j < NSLOT :: procs[c][j] == -1
      modifies this
      ensures Valid() && procs == old(procs)[c := old(procs)[i]] && pipes == old(pipes)
    {
      var j := 0;
      while j < NSLOT
        invariant j <= NSLOT && Valid() && |procs| == |old(procs)| && pipes == old(pipes)
        invariant (forall k | 0 <= k < |procs| && k != c :: procs[k] == old(procs)[k])
        invariant forall k | 0 <= k < NSLOT :: procs[c][k] == if k < j then procs[i][k] else -1
      {
        var f := procs[i][j];
        if f >= 0 {
          SlotRef(Now(), multiset{}, i, j);
          DupFile(f, multiset{}, multiset{f as nat});
          PutSlot(c, j, f, multiset{f as nat}, multiset{});
        }
        j := j + 1;
      }
      assert procs[c] == procs[i];
    }

    /** The descriptors for two new files in hand, or both files closed again. */
    method PutEnds(i: nat, f: nat, g: nat, copied: bool) returns (r: int, w: int)
      requires f < |files| && g < |files| && f != g && Inv(Now(), multiset{f, g}) && i < |procs|
      modifies this
      ensures Valid() && (r >= 0 <==> w >= 0)
      ensures r < 0 ==> procs == old(procs)
      ensures r >= 0 ==> r < w < NFD && old(procs)[i][r] == -1 && old(procs)[i][w] == -1 && files == old(files)
      ensures r >= 0 ==> procs == old(procs)[i := old(procs)[i][r := f][w := g]]
      ensures r >= 0 <==> copied && HasFds(old(procs)[i], 2)
      ensures r >= 0 ==> forall k | 0 <= k < w && k != r :: old(procs)[i][k] != -1
    {
      ghost var was := procs;
      var j := FindFd(i, 0);
      if j == NFD {
        CloseTwo(f, g);
        return -1, -1;
      }
      PutSlot(i, j, f, multiset{f, g}, multiset{g});
      var k := FindFd(i, 0);
      SecondFd(was[i], procs[i], j, k, f);
      if k == NFD || !copied {
        TakeBack(i, j, k, f, g, was);
        return -1, -1;
      }
      PutSlot(i, k, g, multiset{g}, multiset{});
      BothStored(was, i, j, k, f, g);
      r, w := j, k;
    }

    /** Close two files in hand. */
    method CloseTwo(f: nat, g: nat)
      requires f < |files| && g < |files| && f != g && Inv(Now(), multiset{f, g})
      modifies this
      ensures Valid() && procs == old(procs)
    {
      CloseFile(f, multiset{f, g}, multiset{g});
      CloseFile(g, multiset{g}, multiset{});
    }

    /** Undo the first descriptor, and the second one if there is one, and close both files. */
    method TakeBack(i: nat, j: nat, k: nat, f: nat, g: nat, ghost was: seq<seq<int>>)
      requires f < |files| && g < |files| && f != g && Inv(Now(), multiset{g}) && i < |procs| == |was|
      requires |was[i]| == NSLOT
      requires j < NFD && k <= NFD && j != k && procs == was[i := was[i][j := f]] && was[i][j] == -1
      requires (k < NFD ==> was[i][k] == -1)
      modifies this
      ensures Valid() && procs == was
    {
      if k < NFD {
        PutSlot(i, k, g, multiset{g}, multiset{});
        PutSlot(i, j, -1, multiset{}, multiset{f});
        PutSlot(i, k, -1, multiset{f}, multiset{f, g});
        BothCleared(was, i, j, k, f, g);
      } else {
        PutSlot(i, j, -1, multiset{g}, multiset{f, g});
        Cleared(was, i, j, f);
      }
      CloseTwo(f, g);
    }

    /** `sys_pipe2`: two descriptors for the two ends of a new pipe.  When memory, descriptors or the copy
        to the caller fail, no descriptor changes. */
    method Pipe2(i: nat, flags: int, memory: bool, copied: bool) returns (r: int, w: int)
      requires Valid() && i < |procs|
      modifies this
      ensures Valid() && (r >= 0 <==> w >= 0) && |procs| == |old(procs)| && |procs[i]| == NSLOT
      ensures r < 0 ==> procs == old(procs)
      ensures r >= 0 ==> r < w < NFD && old(procs)[i][r] == -1 && old(procs)[i][w] == -1 && procs[i][r] >= 0
      ensures r >= 0 ==> procs[i][w] >= 0
      ensures r >= 0 ==> procs == old(procs)[i := old(procs)[i][r := procs[i][r]][w := procs[i][w]]]
      ensures r >= 0 <==> flags == 0 && memory && copied && HasFiles(old(files), 2) && HasFds(old(procs)[i], 2)
      ensures r >= 0 ==> forall k | 0 <= k < w && k != r :: old(procs)[i][k] != -1
      ensures r >= 0 ==> files[procs[i][r]] == File(1, PipeEnd(|old(pipes)|, false))
      ensures r >= 0 ==> files[procs[i][w]] == File(1, PipeEnd(|old(pipes)|, true))
    {
      if flags != 0 { return -1, -1; }
      var f, g := AllocTwo();
      if f == |files| { return -1, -1; }
      if !memory {
        CloseTwo(f, g);
        return -1, -1;
      }
      SetPipeKeeps(Now(), multiset{f, g}, f, g);
      var n := |pipes|;
      files := files[f := files[f].(kind := PipeEnd(n, false))][g := files[g].(kind := PipeEnd(n, true))];
      pipes := pipes + [Pipe(true, true, 0)];
      r, w := PutEnds(i, f, g, copied);
    }

    /** Two new files in hand; |files| when there are not two. */
    method AllocTwo() returns (f: nat, g: nat)
      requires Valid()
      modifies `files, `pipes, `inodes
      ensures |files| == |old(files)| && pipes == old(pipes) && (f < |files| <==> HasFiles(old(files), 2))
      ensures f >= |files| ==> f == |files| && Valid()
      ensures f < |files| ==> f < g < |files| && Inv(Now(), multiset{f, g}) && files[f] == files[g] == File(1, NoFile)
    {
      ghost var was := files;
      f := AllocFile(multiset{});
      g := f;
      if f == |files| { return; }
      assert multiset{} + multiset{f} == multiset{f};
      ghost var mid := files;
      assert mid == was[f := was[f].(ref := 1)];
      g := AllocFile(multiset{f});
      assert multiset{f} + multiset{g} == multiset{f, g};
      forall x | 0 <= x < g && x != f ensures was[x].ref != 0 { assert mid[x].ref != 0; }
      assert g < |mid| ==> was[f].ref == 0 && was[g].ref == 0;
      if g == |files| {
        CloseFile(f, multiset{f}, multiset{});
        f := |files|;
      }
    }
  }
}
