/** How `proc` (main.cpp) spreads the 256 pages over `thread + 1` processes:
    the parent forks `thread` children, each process learns its id `tid`, and
    process `tid` renders the pages of its chunk. Only the id and chunk
    arithmetic is modelled; creating and reaping processes is not. */
module Partition {
  import opened CInt

  /** Chunk length: `0xFF / (thread + 1)`. */
  function Splice(thread: nat): nat {
    0xFF / (thread + 1)
  }

  /** First page of process `tid`. */
  function ChunkStart(tid: nat, thread: nat): int {
    tid * Splice(thread)
  }

  /** Last page of process `tid`: the last process runs to page 0xFF. */
  function ChunkEnd(tid: nat, thread: nat): int {
    if tid == thread then 0xFF else (tid + 1) * Splice(thread) - 1
  }

  /** The integers `lo, lo + 1, ..., hi - 1`, empty when `hi <= lo`. */
  function Interval(lo: int, hi: int): (s: seq<int>)
    ensures |s| == if lo <= hi then hi - lo else 0
    ensures forall k :: 0 <= k < |s| ==> s[k] == lo + k
    decreases hi - lo
  {
    if hi <= lo then [] else [lo] + Interval(lo + 1, hi)
  }

  /** The pages process `tid` renders, in order: `for (i = start; i <= end; i++)`. */
  function WorkerPages(tid: nat, thread: nat): seq<int> {
    Interval(ChunkStart(tid, thread), ChunkEnd(tid, thread) + 1)
  }

  /** The pages of processes `0 .. t - 1`, one after the other. */
  function PagesOfFirst(t: nat, thread: nat): seq<int> {
    if t == 0 then [] else PagesOfFirst(t - 1, thread) + WorkerPages(t - 1, thread)
  }

  /** The `thread + 1` chunks of length `Splice(thread)` fit in the 256 pages. */
  lemma SpliceFits(thread: nat)
    ensures (thread + 1) * Splice(thread) <= 0xFF
    ensures ChunkStart(thread, thread) <= 0xFF
  {
    FloorQuotient(0xFF, thread + 1);
    MulMonotone(thread, thread + 1, Splice(thread));
  }

  /** Every chunk is a (possibly empty) run of pages inside `0 .. 0xFF`. */
  lemma ChunkInRange(tid: nat, thread: nat)
    requires tid <= thread
    ensures 0 <= ChunkStart(tid, thread) <= ChunkEnd(tid, thread) + 1
    ensures ChunkEnd(tid, thread) <= 0xFF
  {
    SpliceFits(thread);
    MulMonotone(0, tid, Splice(thread));
    MulMonotone(tid, thread, Splice(thread));
    MulMonotone(tid + 1, thread + 1, Splice(thread));
    assert (tid + 1) * Splice(thread) == tid * Splice(thread) + Splice(thread);
  }

  /** Consecutive chunks meet: each chunk but the last ends just before the next starts. */
  lemma ChunksContiguous(tid: nat, thread: nat)
    requires tid < thread
    ensures ChunkEnd(tid, thread) + 1 == ChunkStart(tid + 1, thread)
  {
  }

  /** Chunks of different processes are ordered and never share a page. */
  lemma ChunksOrdered(t1: nat, t2: nat, thread: nat)
    requires t1 < t2 <= thread
    ensures ChunkEnd(t1, thread) < ChunkStart(t2, thread)
  {
    MulMonotone(t1 + 1, t2, Splice(thread));
  }

  /** Appending adjacent intervals gives the interval spanning both. */
  lemma {:induction false} IntervalAppend(lo: int, mid: int, hi: int)
    requires lo <= mid <= hi
    ensures Interval(lo, mid) + Interval(mid, hi) == Interval(lo, hi)
  {
    var s := Interval(lo, mid) + Interval(mid, hi);
    assert |s| == |Interval(lo, hi)|;
    forall k | 0 <= k < |s|
      ensures s[k] == Interval(lo, hi)[k]
    {
    }
  }

  /** The first `t` processes together render pages `0 .. t * splice - 1`, in order. */
  lemma {:induction false} PagesOfFirstPrefix(t: nat, thread: nat)
    requires t <= thread
    ensures PagesOfFirst(t, thread) == Interval(0, t * Splice(thread))
  {
    if t > 0 {
      var s := Splice(thread);
      PagesOfFirstPrefix(t - 1, thread);
      ProductStep(t - 1, s);
      assert WorkerPages(t - 1, thread) == Interval((t - 1) * s, t * s);
      IntervalAppend(0, (t - 1) * s, t * s);
    }
  }

  /** Whatever the number of processes, their chunks taken in id order are
      exactly the pages `0 .. 0xFF`, each once and in increasing order. */
  lemma WorkersCoverAllPages(thread: nat)
    ensures PagesOfFirst(thread + 1, thread) == Interval(0, 0x100)
  {
    PagesOfFirstPrefix(thread, thread);
    ChunkInRange(thread, thread);
    IntervalAppend(0, ChunkStart(thread, thread), 0x100);
  }

  /** The process that renders page `p`. */
  function Owner(p: int, thread: nat): nat {
    if Splice(thread) == 0 then thread
    else if p < 0 then 0
    else Min(p / Splice(thread), thread)
  }

  /** Page `p` lies in the chunk of process `tid` exactly when `tid` is its owner:
      the chunks are pairwise disjoint and cover all 256 pages. */
  lemma OwnerUnique(p: int, tid: nat, thread: nat)
    requires 0 <= p <= 0xFF && tid <= thread
    ensures ChunkStart(tid, thread) <= p <= ChunkEnd(tid, thread) <==> tid == Owner(p, thread)
  {
    var o := Owner(p, thread);
    var s := Splice(thread);
    ChunkInRange(o, thread);
    if s != 0 {
      FloorQuotient(p, s);
      MulMonotone(o, p / s, s);
      assert (o + 1) * s == o * s + s;
    }
    if tid < o {
      ChunksOrdered(tid, o, thread);
    } else if o < tid {
      ChunksOrdered(o, tid, thread);
      ChunkInRange(tid, thread);
    }
  }

  /** With no extra processes the parent renders every page. */
  lemma SingleProcessRendersAll()
    ensures WorkerPages(0, 0) == Interval(0, 0x100)
  {
  }

  /** With 255 or more extra processes the chunk length is zero: every
      process but the last gets no page and the last renders them all. */
  lemma ZeroSplice(thread: nat)
    ensures Splice(thread) == 0 <==> thread >= 0xFF
    ensures Splice(thread) == 0 ==>
              WorkerPages(thread, thread) == Interval(0, 0x100) &&
              forall tid :: 0 <= tid < thread ==> WorkerPages(tid, thread) == []
  {
    if thread < 0xFF {
      assert 0xFF / (thread + 1) >= 1;
    }
  }

  /** The ids handed out by the fork loop of `main`, in the order the
      processes come into being. The parent counts `thrd` down from `thread`
      and forks once per round; the child of a round takes `thread - thrd`
      and leaves the loop. So the parent keeps id 0 and the child forked in
      round `k` gets `k + 1`, and ids `0 .. thread` occur once each when
      every fork succeeds. */
  method ForkLoop(thread: nat) returns (ids: seq<nat>)
    ensures |ids| == thread + 1
    ensures forall k :: 0 <= k < |ids| ==> ids[k] == k
  {
    ids := [0];
    var thrd: int := thread;
    while thrd > 0
      invariant 0 <= thrd <= thread
      invariant |ids| == thread - thrd + 1
      invariant forall k :: 0 <= k < |ids| ==> ids[k] == k
    {
      thrd := thrd - 1;
      ids := ids + [thread - thrd];
    }
  }

  /** The value `proc` returns, `!tid`: non-zero exactly for the parent, the
      only process that goes on to wait for the others. */
  function ProcStatus(tid: nat): (status: int)
    ensures status == 0 || status == 1
    ensures status != 0 <==> tid == 0
  {
    if tid == 0 then 1 else 0
  }
}
