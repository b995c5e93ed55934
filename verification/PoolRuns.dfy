/** Whole runs of pool clients that write only their own user bytes. */
module PoolRuns {
  import opened Words
  import opened PoolSpec
  import opened PoolLemmas
  import opened PoolRealloc
  import opened PoolLaws

  datatype Op =
    | DoAlloc(size: u32)
    | DoFree(ptr: u32)
    | DoRealloc(ptr: u32, newSize: u32)
    | DoWrite(ptr: u32, i: nat, v: byte)   // store v at user byte i of the allocation at ptr

  predicate IsLive(s: State, live: seq<Extent>, ptr: nat) {
    Find(s.base, live, ptr) < |live|
  }

  /** What the pool asks of its callers: sizes that do not wrap, and no stale pointer that still
      carries the ALLOCATED magic. NULL, foreign and already freed pointers may be passed to free. */
  predicate Legal(s: State, live: seq<Extent>, op: Op) {
    match op
    case DoAlloc(size) => size + 4111 < 0x1_0000_0000
    case DoFree(ptr) => Accepted(s, ptr) ==> IsLive(s, live, ptr)
    case DoRealloc(ptr, newSize) => newSize + 4111 < 0x1_0000_0000 && (ptr == 0 || IsLive(s, live, ptr))
    case DoWrite(ptr, i, v) => IsLive(s, live, ptr) && i < UserSize(live[Find(s.base, live, ptr)])
  }

  function Apply(s: State, live: seq<Extent>, op: Op): (r: (State, seq<Extent>))
    requires Inv(s, live) && Legal(s, live, op)
    ensures Inv(r.0, r.1) && r.0.base == s.base && |r.0.bits| == |s.bits|
  {
    match op
    case DoAlloc(size) =>
      AllocKeepsInv(s, live, size);
      var (s', live', _) := Alloc(s, live, size);
      (s', live')
    case DoFree(ptr) =>
      FreeKeepsInv(s, live, ptr);
      Free(s, live, ptr)
    case DoRealloc(ptr, newSize) =>
      ReallocSamePool(s, live, ptr, newSize);
      var (s', live', _) := Realloc(s, live, ptr, newSize);
      (s', live')
    case DoWrite(ptr, i, v) =>
      (WriteAt(s, live, Find(s.base, live, ptr), i, v), live)
  }

  /** User byte i of live[k] set to v. */
  function WriteAt(s: State, live: seq<Extent>, k: nat, i: nat, v: byte): (r: State)
    requires Inv(s, live) && k < |live| && i < UserSize(live[k])
    ensures Inv(r, live)
  {
    var mem' := s.mem[Off(live[k].start) + 16 + i := v];
    UserWriteKeepsInv(s, live, k, mem');
    s.(mem := mem')
  }

  lemma ReallocSamePool(s: State, live: seq<Extent>, ptr: nat, newSize: u32)
    requires Inv(s, live) && newSize + 4111 < 0x1_0000_0000 && (ptr == 0 || Find(s.base, live, ptr) < |live|)
    ensures var s' := Realloc(s, live, ptr, newSize).0; s'.base == s.base && |s'.bits| == |s.bits|
  {
    hide Inv, Accepted, CanExpand, BlocksFor, Alloc, Move, FreeAt, Store32, Paint;
    var k := Find(s.base, live, ptr);
    if ptr == 0 {
      AllocSamePool(s, live, newSize);
    } else if newSize == 0 {
      FreeSamePool(s, live, k);
    } else if newSize > UserSize(live[k]) {
      MoveSamePool(s, live, k, newSize);
    }
  }

  lemma AllocSamePool(s: State, live: seq<Extent>, size: u32)
    requires Inv(s, live) && size + 4111 < 0x1_0000_0000
    ensures s.head < 0x1_0000_0000
    ensures var s' := Alloc(s, live, size).0; s'.base == s.base && |s'.bits| == |s.bits|
  {
    hide PutHeader, FirstFit, BlocksFor;
    AllocKeepsInv(s, live, size);
  }

  lemma FreeSamePool(s: State, live: seq<Extent>, k: nat)
    requires Inv(s, live) && k < |live|
    ensures var s' := FreeAt(s, live, k); s'.base == s.base && |s'.bits| == |s.bits|
  {
    hide Detached;
  }

  lemma MoveSamePool(s: State, live: seq<Extent>, k: nat, newSize: u32)
    requires Inv(s, live) && k < |live| && UserSize(live[k]) < newSize && newSize + 4111 < 0x1_0000_0000
    ensures var s' := Move(s, live, k, newSize).0; s'.base == s.base && |s'.bits| == |s.bits|
  {
    hide Alloc, FreeAt, Blit;
    assert WellSized(s);
    hide Inv;
    AllocSamePool(s, live, newSize);
    AllocKeepsInv(s, live, newSize);
    var (s1, live1, p) := Alloc(s, live, newSize);
    if p != 0 {
      AfterAlloc(s, live, k, newSize);
      FreeSamePool(Copied(s1, live1, k + 1), live1, k + 1);
    }
  }

  /** The state psram_pool_init leaves: nothing allocated, memory arbitrary. */
  predicate Fresh(s: State, live: seq<Extent>) {
    && live == [] && s.used == 0 && s.head == 0
    && forall i :: 0 <= i < |s.bits| ==> !s.bits[i]
  }

  predicate LegalRun(s: State, live: seq<Extent>, ops: seq<Op>)
    requires Inv(s, live)
    decreases |ops|
  {
    ops == [] ||
    (Legal(s, live, ops[0]) && var (s', live') := Apply(s, live, ops[0]); LegalRun(s', live', ops[1..]))
  }

  function Run(s: State, live: seq<Extent>, ops: seq<Op>): (State, seq<Extent>)
    requires Inv(s, live) && LegalRun(s, live, ops)
    decreases |ops|
  {
    if ops == [] then (s, live)
    else var (s', live') := Apply(s, live, ops[0]); Run(s', live', ops[1..])
  }

  lemma FreshIsInv(s: State, live: seq<Extent>)
    requires WellSized(s) && Fresh(s, live)
    ensures Inv(s, live)
  {
  }

  /** From the initial state every legal run keeps all views of the heap in agreement. */
  lemma {:induction false} RunKeepsInv(s: State, live: seq<Extent>, ops: seq<Op>)
    requires Inv(s, live) && LegalRun(s, live, ops)
    ensures var (s', live') := Run(s, live, ops);
      Inv(s', live') && s'.used == PopCount(s'.bits) == TotalLen(live')
    decreases |ops|
  {
    UsedIsPopCount(s, live);
    if ops != [] {
      var (s', live') := Apply(s, live, ops[0]);
      RunKeepsInv(s', live', ops[1..]);
    }
  }

  // ---------- isolation ----------

  predicate Touches(op: Op, ptr: nat) {
    match op
    case DoAlloc(_) => false
    case DoFree(p) => p == ptr
    case DoRealloc(p, _) => p == ptr
    case DoWrite(p, _, _) => p == ptr
  }

  lemma WriteFrame(s: State, live: seq<Extent>, k: nat, a: nat, v: byte, d: Extent)
    requires Inv(s, live) && k < |live| && d in live && d != live[k]
    requires Off(live[k].start) <= a < Off(live[k].start + live[k].len)
    ensures Kept(s, s.(mem := s.mem[a := v]), live, d)
  {
  }

  lemma ReallocFrame(s: State, live: seq<Extent>, ptr: u32, newSize: u32, d: Extent)
    requires Inv(s, live) && Legal(s, live, DoRealloc(ptr, newSize)) && d in live && UserPtr(s.base, d) != ptr
    ensures var (s', live', _) := Realloc(s, live, ptr, newSize); Kept(s, s', live', d)
  {
    if ptr == 0 {
      AllocFrame(s, live, newSize);
    } else if newSize == 0 {
      FreeOtherFrame(s, live, ptr, d);
    } else {
      ReallocAtContract(s, live, Find(s.base, live, ptr), newSize);
    }
  }

  lemma FreeOtherFrame(s: State, live: seq<Extent>, ptr: nat, d: Extent)
    requires Inv(s, live) && d in live && UserPtr(s.base, d) != ptr
    ensures var (s', live') := Free(s, live, ptr); Kept(s, s', live', d)
  {
    var k := Find(s.base, live, ptr);
    if k < |live| { FreeFrame(s, live, k); }
  }

  lemma ApplyFrame(s: State, live: seq<Extent>, op: Op, d: Extent)
    requires Inv(s, live) && Legal(s, live, op) && d in live && !Touches(op, UserPtr(s.base, d))
    ensures var (s', live') := Apply(s, live, op); Kept(s, s', live', d)
  {
    match op
    case DoAlloc(size) => AllocFrame(s, live, size);
    case DoFree(ptr) => FreeOtherFrame(s, live, ptr, d);
    case DoRealloc(ptr, newSize) => ReallocFrame(s, live, ptr, newSize, d);
    case DoWrite(ptr, i, v) =>
      var k := Find(s.base, live, ptr);
      WriteFrame(s, live, k, Off(live[k].start) + 16 + i, v, d);
  }

  /** However long others run, an allocation that no operation names keeps its place, its header and every byte. */
  lemma {:induction false} RunKeepsUntouched(s: State, live: seq<Extent>, ops: seq<Op>, d: Extent)
    requires Inv(s, live) && LegalRun(s, live, ops) && d in live
    requires forall op :: op in ops ==> !Touches(op, UserPtr(s.base, d))
    ensures var (s', live') := Run(s, live, ops); Kept(s, s', live', d)
    decreases |ops|
  {
    if ops != [] {
      var (s1, live1) := Apply(s, live, ops[0]);
      ApplyFrame(s, live, ops[0], d);
      RunKeepsUntouched(s1, live1, ops[1..], d);
      var (s', live') := Run(s1, live1, ops[1..]);
      KeptThen(s, s1, s', live1, live', d);
    }
  }

  lemma KeptThen(s: State, s1: State, s2: State, live1: seq<Extent>, live2: seq<Extent>, d: Extent)
    requires Kept(s, s1, live1, d) && Kept(s1, s2, live2, d)
    ensures Kept(s, s2, live2, d)
  {
  }
}
