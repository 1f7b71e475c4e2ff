/** The pipe's ring buffer: 512 bytes addressed by two 32-bit counters that only ever grow and wrap. */
module PipeRing {

  const SIZE: nat := 512
  const WORD: nat := 0x1_0000_0000

  type Byte = b: int | 0 <= b < 256

  datatype Ring = Ring(buf: seq<Byte>, nread: nat, nwrite: nat)

  /** All bytes ever accepted and ever delivered. */
  datatype Flow = Flow(accepted: seq<Byte>, delivered: seq<Byte>)

  predicate IsEmpty(r: Ring) {
    r.nread == r.nwrite
  }

  /** The unsigned 32-bit difference of the counters. */
  function Used(r: Ring): nat {
    (r.nwrite - r.nread) % WORD
  }

  predicate IsFull(r: Ring) {
    Used(r) >= SIZE
  }

  function Front(r: Ring): Byte {
    if r.nread % SIZE < |r.buf| then r.buf[r.nread % SIZE] else 0
  }

  function Pop(r: Ring): Ring {
    r.(nread := (r.nread + 1) % WORD)
  }

  function Push(r: Ring, ch: Byte): Ring {
    r.(buf := if r.nwrite % SIZE < |r.buf| then r.buf[r.nwrite % SIZE := ch] else r.buf,
        nwrite := (r.nwrite + 1) % WORD)
  }

  /** What is delivered is a prefix of what was accepted; the rest, at most 512 bytes, is in the ring
      in order.  The counters are the two lengths modulo 2^32. */
  ghost predicate Fifo(r: Ring, f: Flow) {
    && |r.buf| == SIZE && f.delivered <= f.accepted && |f.accepted| - |f.delivered| <= SIZE
    && r.nread == |f.delivered| % WORD && r.nwrite == |f.accepted| % WORD
    && forall k: nat {:trigger f.accepted[k]} | |f.delivered| <= k < |f.accepted| :: r.buf[k % SIZE] == f.accepted[k]
  }

  ghost function InTransit(f: Flow): nat
    requires f.delivered <= f.accepted
  {
    |f.accepted| - |f.delivered|
  }

  lemma WrapIndex(n: nat)
    ensures (n % WORD) % SIZE == n % SIZE && (n % WORD + 1) % WORD == (n + 1) % WORD
  {
  }

  lemma WrapDifference(r: nat, w: nat)
    requires r <= w <= r + SIZE
    ensures (w % WORD - r % WORD) % WORD == w - r && (r % WORD == w % WORD <==> r == w)
  {
  }

  /** The tests on wrapped counters are exact. */
  lemma TestsExact(r: Ring, f: Flow)
    requires Fifo(r, f)
    ensures IsEmpty(r) <==> InTransit(f) == 0
    ensures Used(r) == InTransit(f) && (IsFull(r) <==> InTransit(f) == SIZE)
  {
    WrapDifference(|f.delivered|, |f.accepted|);
  }

  /** Reading takes the oldest byte that has not been delivered. */
  lemma PopKeeps(r: Ring, f: Flow)
    requires Fifo(r, f) && !IsEmpty(r)
    ensures |f.delivered| < |f.accepted| && Front(r) == f.accepted[|f.delivered|]
    ensures Fifo(Pop(r), f.(delivered := f.delivered + [Front(r)]))
  {
    TestsExact(r, f);
    var n := |f.delivered|;
    WrapIndex(n);
    assert r.buf[n % SIZE] == f.accepted[n];
    assert f.delivered + [f.accepted[n]] == f.accepted[..n + 1];
  }

  lemma SlotFree(k: nat, n: nat)
    requires k < n < k + SIZE
    ensures k % SIZE != n % SIZE
  {
  }

  /** Writing with room left overwrites no byte that is still to be read. */
  lemma PushKeeps(r: Ring, f: Flow, ch: Byte)
    requires Fifo(r, f) && !IsFull(r)
    ensures Fifo(Push(r, ch), f.(accepted := f.accepted + [ch]))
  {
    TestsExact(r, f);
    var n, f' := |f.accepted|, f.(accepted := f.accepted + [ch]);
    WrapIndex(n);
    forall k: nat | |f'.delivered| <= k < |f'.accepted| ensures Push(r, ch).buf[k % SIZE] == f'.accepted[k] {
      if k < n { SlotFree(k, n); assert r.buf[k % SIZE] == f.accepted[k]; }
    }
  }

  function Min(a: nat, b: nat): nat {
    if a < b then a else b
  }

  class Pipe {
    var buf: array<Byte>
    var nread: nat
    var nwrite: nat
    ghost var flow: Flow

    ghost function Now(): Ring
      reads this, buf
    {
      Ring(buf[..], nread, nwrite)
    }

    ghost predicate Valid()
      reads this, buf
    {
      buf.Length == SIZE && Fifo(Now(), flow)
    }

    /** `pipe_alloc`'s ring. */
    constructor ()
      ensures Valid() && fresh(buf) && flow == Flow([], [])
    {
      buf := new Byte[SIZE](_ => 0);
      nread, nwrite := 0, 0;
      flow := Flow([], []);
    }

    /** The copying loop of `pipe_read`: up to `size` bytes, stopping when the ring is empty or when
        copying to the caller fails at byte `fault`.  Exactly the bytes delivered leave the ring. */
    method Drain(size: nat, fault: nat) returns (out: seq<Byte>)
      requires Valid()
      modifies this
      ensures Valid() && buf == old(buf) && flow.accepted == old(flow.accepted)
      ensures flow.delivered == old(flow.delivered) + out
      ensures |out| == Min(Min(size, fault), |old(flow.accepted)| - |old(flow.delivered)|)
    {
      out := [];
      while |out| < size
        invariant Valid() && buf == old(buf) && flow.accepted == old(flow.accepted)
        invariant flow.delivered == old(flow.delivered) + out
        invariant |out| <= Min(size, fault)
        decreases size - |out|
      {
        TestsExact(Now(), flow);
        if nread == nwrite { return; }
        if |out| == fault { return; }
        PopKeeps(Now(), flow);
        var ch := buf[nread % SIZE];
        flow := flow.(delivered := flow.delivered + [ch]);
        out := out + [ch];
        nread := (nread + 1) % WORD;
      }
    }

    /** The copying loop of `pipe_write` between two sleeps: bytes of `src` from `i` on, stopping when
        the ring is full or when copying from the caller fails at byte `fault`. */
    method Fill(src: seq<Byte>, i: nat, fault: nat) returns (j: nat)
      requires Valid() && i <= |src| && i <= fault
      modifies this, buf
      ensures Valid() && buf == old(buf) && i <= j <= |src| && flow.delivered == old(flow.delivered)
      ensures flow.accepted == old(flow.accepted) + src[i..j]
      ensures j - i == Min(Min(|src|, fault) - i, SIZE - (|old(flow.accepted)| - |old(flow.delivered)|))
    {
      j := i;
      assert src[i..i] == [];
      while j < |src|
        invariant Valid() && buf == old(buf) && i <= j <= |src| && j <= fault
        invariant flow.delivered == old(flow.delivered) && flow.accepted == old(flow.accepted) + src[i..j]
      {
        TestsExact(Now(), flow);
        if (nwrite - nread) % WORD >= SIZE { return; }
        if j == fault { return; }
        PushKeeps(Now(), flow, src[j]);
        ghost var r := Now();
        flow := flow.(accepted := flow.accepted + [src[j]]);
        assert src[i..j + 1] == src[i..j] + [src[j]];
        var slot := nwrite % SIZE;
        buf[slot] := src[j];
        nwrite := (nwrite + 1) % WORD;
        assert Now() == Push(r, src[j]);
        j := j + 1;
      }
    }
  }
}
