/** Several tasks on one pool, interleaved between any two mutex sections and between any two bytes of a
    memcpy. A realloc is not atomic: it reads num_blocks without the lock, tries to expand under the lock with
    a count computed before it, allocates under the lock, copies without it and frees under it. */
module PoolTasks {
  import opened Words
  import opened PoolSpec
  import opened PoolLemmas
  import opened PoolRealloc
  import opened PoolRuns

  /** Where a task stands. `data` is what the caller's allocation held when realloc was called. */
  datatype Pc =
    | Idle
    | Measured(ptr: nat, newSize: u32, n: nat, data: seq<byte>)              // num_blocks read, no lock held
    | MustMove(ptr: nat, newSize: u32, n: nat, data: seq<byte>)              // expansion refused
    | Copying(ptr: nat, newSize: u32, n: nat, data: seq<byte>, to: nat, m: nat, i: nat)
    | Returned(ptr: nat, newSize: u32, m: nat, data: seq<byte>)              // realloc returned ptr
    | Failed(ptr: nat, n: nat, data: seq<byte>)                              // realloc returned NULL

  /** `own` says which task uses which live pointer. */
  datatype Sys = Sys(s: State, live: seq<Extent>, own: map<nat, nat>, pcs: seq<Pc>)

  datatype Act =
    | TakeAlloc(size: u32)
    | TakeFree(ptr: u32)
    | TakeWrite(ptr: u32, i: nat, v: byte)
    | CallRealloc(ptr: u32, newSize: u32)
    | Expand
    | AllocNew
    | CopyByte
    | FreeOld
    | Finish

  // ---------- what a task relies on ----------

  /** ptr is live with n blocks and its user bytes start with data. */
  ghost predicate Holding(s: State, live: seq<Extent>, ptr: nat, n: nat, data: seq<byte>) {
    var k := Find(s.base, live, ptr);
    && k < |live| && live[k].len == n && |data| <= Off(n) - 16
    && Off(live[k].start + n) <= |s.mem|
    && forall i :: 0 <= i < |data| ==> ByteAt(s.mem, live[k], 16 + i) == data[i]
  }

  ghost predicate Owns(own: map<nat, nat>, t: nat, ptr: nat) {
    ptr in own && own[ptr] == t
  }

  ghost predicate PcOk(x: Sys, t: nat, pc: Pc) {
    match pc
    case Idle => true
    case Measured(ptr, newSize, n, data) =>
      && Owns(x.own, t, ptr) && Holding(x.s, x.live, ptr, n, data)
      && |data| == Off(n) - 16 < newSize && newSize + 4111 < 0x1_0000_0000
    case MustMove(ptr, newSize, n, data) =>
      && Owns(x.own, t, ptr) && Holding(x.s, x.live, ptr, n, data)
      && |data| == Off(n) - 16 < newSize && newSize + 4111 < 0x1_0000_0000
    case Copying(ptr, newSize, n, data, to, m, i) =>
      && Owns(x.own, t, ptr) && Holding(x.s, x.live, ptr, n, data) && |data| == Off(n) - 16
      && Owns(x.own, t, to) && to != ptr && newSize <= Off(m) - 16 && n <= m
      && i <= |data| && Holding(x.s, x.live, to, m, data[..i])
    case Returned(ptr, newSize, m, data) =>
      Owns(x.own, t, ptr) && Holding(x.s, x.live, ptr, m, data) && newSize <= Off(m) - 16
    case Failed(ptr, n, data) =>
      Owns(x.own, t, ptr) && Holding(x.s, x.live, ptr, n, data) && |data| == Off(n) - 16
  }

  ghost predicate OwnsLive(x: Sys) {
    forall ptr: nat :: ptr in x.own <==> IsLive(x.s, x.live, ptr)
  }

  /** The heap invariant, every live pointer owned by one task, and what each task relies on. */
  ghost predicate SysInv(x: Sys) {
    && Inv(x.s, x.live)
    && OwnsLive(x)
    && forall t :: 0 <= t < |x.pcs| ==> PcOk(x, t, x.pcs[t])
  }

  // ---------- the steps ----------

  function ReadBlocks(s: State, ptr: nat): nat
    requires s.base + 16 <= ptr && ptr - s.base - 8 <= |s.mem|
  {
    Load32(s.mem, ptr - s.base - 16 + 4)
  }

  /** The locked section of realloc on raw memory: position and length are read again under the lock, while
      the number of extra blocks and the new length were fixed before it. */
  predicate RawCanExpand(s: State, ptr: nat, extra: nat)
    requires s.base + 16 <= ptr && ptr - s.base <= |s.mem|
  {
    var h := ptr - s.base - 16;
    Clear(s.bits, Load32(s.mem, h) + Load32(s.mem, h + 4), extra)
  }

  function RawExpand(s: State, ptr: nat, extra: nat, newBlocks: u32): State
    requires s.base + 16 <= ptr && ptr - s.base <= |s.mem|
  {
    var h := ptr - s.base - 16;
    var next := Load32(s.mem, h) + Load32(s.mem, h + 4);
    s.(bits := Paint(s.bits, next, next + extra, true), used := s.used + extra,
       mem := Store32(s.mem, h + 4, newBlocks))
  }

  predicate Addressable(s: State, ptr: nat) {
    s.base + 16 <= ptr && ptr - s.base <= |s.mem|
  }

  /** Task t may take the step: tasks use only pointers they own, and one operation at a time. */
  ghost predicate Enabled(x: Sys, t: nat, a: Act)
    requires SysInv(x)
  {
    && t < |x.pcs|
    && var pc := x.pcs[t];
      match a
      case TakeAlloc(size) => pc.Idle? && size + 4111 < 0x1_0000_0000
      case TakeFree(ptr) => pc.Idle? && Owns(x.own, t, ptr)
      case TakeWrite(ptr, i, v) => pc.Idle? && Owns(x.own, t, ptr) && Legal(x.s, x.live, DoWrite(ptr, i, v))
      case CallRealloc(ptr, newSize) =>
        pc.Idle? && Owns(x.own, t, ptr) && 0 < newSize && newSize + 4111 < 0x1_0000_0000
      case Expand => pc.Measured?
      case AllocNew => pc.MustMove?
      case CopyByte => pc.Copying? && pc.i < |pc.data|
      case FreeOld => pc.Copying? && pc.i == |pc.data|
      case Finish => pc.Returned? || pc.Failed?
  }

  /** The extent behind a live pointer. */
  function At(s: State, live: seq<Extent>, ptr: nat): Extent
    requires IsLive(s, live, ptr)
  {
    live[Find(s.base, live, ptr)]
  }

  lemma LiveAt(s: State, live: seq<Extent>, ptr: nat)
    requires Inv(s, live) && IsLive(s, live, ptr)
    ensures var e := At(s, live, ptr);
      && e in live && ptr == UserPtr(s.base, e) && 1 <= e.len && e.start + e.len <= |s.bits|
      && |s.mem| == Off(|s.bits|) && Addressable(s, ptr) && Accepted(s, ptr)
      && Load32(s.mem, ptr - s.base - 16) == e.start && Load32(s.mem, ptr - s.base - 16 + 4) == e.len
  {
    var k := Find(s.base, live, ptr);
    assert HeaderOk(s.base, s.mem, live, k);
    LiveAccepted(s, live, k);
  }

  /** All user bytes of the allocation a task owns at ptr. */
  ghost function BytesAt(x: Sys, ptr: nat): seq<byte>
    requires SysInv(x) && ptr in x.own
  {
    LiveAt(x.s, x.live, ptr);
    UserData(x.s, At(x.s, x.live, ptr))
  }

  ghost function SetPc(x: Sys, t: nat, pc: Pc): Sys
    requires t < |x.pcs|
  {
    x.(pcs := x.pcs[t := pc])
  }

  ghost function StepAlloc(x: Sys, t: nat, size: u32): (Sys, nat)
    requires SysInv(x) && size + 4111 < 0x1_0000_0000
  {
    AllocKeepsInv(x.s, x.live, size);
    var r := Alloc(x.s, x.live, size);
    (Sys(r.0, r.1, if r.2 == 0 then x.own else x.own[r.2 := t], x.pcs), r.2)
  }

  ghost function StepFree(x: Sys, ptr: nat): Sys
    requires SysInv(x)
  {
    var r := Free(x.s, x.live, ptr);
    Sys(r.0, r.1, x.own - {ptr}, x.pcs)
  }

  ghost function StepMeasure(x: Sys, t: nat, ptr: nat, newSize: u32): Sys
    requires SysInv(x) && t < |x.pcs| && Owns(x.own, t, ptr)
  {
    LiveAt(x.s, x.live, ptr);
    var n := ReadBlocks(x.s, ptr);
    var data := UserData(x.s, At(x.s, x.live, ptr));
    SetPc(x, t, if newSize <= 4096 * n - 16 then Returned(ptr, newSize, n, data) else Measured(ptr, newSize, n, data))
  }

  ghost function StepExpand(x: Sys, t: nat): Sys
    requires SysInv(x) && t < |x.pcs| && x.pcs[t].Measured?
  {
    var Measured(ptr, newSize, n, data) := x.pcs[t];
    LiveAt(x.s, x.live, ptr);
    var newBlocks := BlocksFor(newSize);
    var extra := newBlocks - n;
    if RawCanExpand(x.s, ptr, extra) then
      var k := Find(x.s.base, x.live, ptr);
      SetPc(x.(s := RawExpand(x.s, ptr, extra, newBlocks), live := x.live[k := Extent(x.live[k].start, newBlocks)]),
            t, Returned(ptr, newSize, newBlocks, data))
    else SetPc(x, t, MustMove(ptr, newSize, n, data))
  }

  ghost function StepAllocNew(x: Sys, t: nat): Sys
    requires SysInv(x) && t < |x.pcs| && x.pcs[t].MustMove?
  {
    var MustMove(ptr, newSize, n, data) := x.pcs[t];
    var r := StepAlloc(x, t, newSize);
    SetPc(r.0, t, if r.1 == 0 then Failed(ptr, n, data)
                  else Copying(ptr, newSize, n, data, r.1, BlocksFor(newSize), 0))
  }

  ghost function StepCopy(x: Sys, t: nat): Sys
    requires SysInv(x) && t < |x.pcs| && x.pcs[t].Copying? && x.pcs[t].i < |x.pcs[t].data|
  {
    var pc := x.pcs[t];
    LiveAt(x.s, x.live, pc.ptr);
    LiveAt(x.s, x.live, pc.to);
    SetPc(x.(s := x.s.(mem := x.s.mem[pc.to - x.s.base + pc.i := x.s.mem[pc.ptr - x.s.base + pc.i]])),
          t, pc.(i := pc.i + 1))
  }

  ghost function StepFreeOld(x: Sys, t: nat): Sys
    requires SysInv(x) && t < |x.pcs| && x.pcs[t].Copying?
  {
    var pc := x.pcs[t];
    SetPc(StepFree(x, pc.ptr), t, Returned(pc.to, pc.newSize, pc.m, pc.data))
  }

  ghost function StepWrite(x: Sys, ptr: nat, i: nat, v: byte): Sys
    requires SysInv(x) && IsLive(x.s, x.live, ptr) && i < UserSize(At(x.s, x.live, ptr))
  {
    LiveAt(x.s, x.live, ptr);
    x.(s := x.s.(mem := x.s.mem[ptr - x.s.base + i := v]))
  }

  ghost function Step(x: Sys, t: nat, a: Act): Sys
    requires SysInv(x) && Enabled(x, t, a)
  {
    match a
    case TakeAlloc(size) => StepAlloc(x, t, size).0
    case TakeFree(ptr) => StepFree(x, ptr)
    case TakeWrite(ptr, i, v) => StepWrite(x, ptr, i, v)
    case CallRealloc(ptr, newSize) => StepMeasure(x, t, ptr, newSize)
    case Expand => StepExpand(x, t)
    case AllocNew => StepAllocNew(x, t)
    case CopyByte => StepCopy(x, t)
    case FreeOld => StepFreeOld(x, t)
    case Finish => SetPc(x, t, Idle)
  }

  // ---------- what other tasks rely on survives ----------

  lemma HoldingKept(s: State, live: seq<Extent>, s': State, live': seq<Extent>, ptr: nat, n: nat, data: seq<byte>)
    requires Inv(s, live) && Inv(s', live') && s'.base == s.base
    requires Holding(s, live, ptr, n, data) && Kept(s, s', live', At(s, live, ptr))
    ensures Holding(s', live', ptr, n, data)
  {
  }

  /** From x to x' everything that tasks other than t own is kept. */
  ghost predicate OthersKept(x: Sys, x': Sys, t: nat) {
    && x'.s.base == x.s.base && |x'.pcs| == |x.pcs|
    && (forall u :: 0 <= u < |x.pcs| && u != t ==> x'.pcs[u] == x.pcs[u])
    && (forall ptr: nat :: ptr in x.own && x.own[ptr] != t ==>
          ptr in x'.own && x'.own[ptr] == x.own[ptr] && IsLive(x.s, x.live, ptr) &&
          Kept(x.s, x'.s, x'.live, At(x.s, x.live, ptr)))
  }

  lemma PcKept(x: Sys, x': Sys, t: nat, u: nat, pc: Pc)
    requires Inv(x.s, x.live) && Inv(x'.s, x'.live) && OthersKept(x, x', t) && u != t && PcOk(x, u, pc)
    ensures PcOk(x', u, pc)
  {
    if !pc.Idle? {
      var n := if pc.Returned? then pc.m else pc.n;
      HoldingKept(x.s, x.live, x'.s, x'.live, pc.ptr, n, pc.data);
      if pc.Copying? {
        HoldingKept(x.s, x.live, x'.s, x'.live, pc.to, pc.m, pc.data[..pc.i]);
      }
    }
  }

  lemma Assemble(x: Sys, x': Sys, t: nat)
    requires SysInv(x) && t < |x.pcs| && Inv(x'.s, x'.live) && OwnsLive(x') && OthersKept(x, x', t)
    requires PcOk(x', t, x'.pcs[t])
    ensures SysInv(x')
  {
    forall u | 0 <= u < |x'.pcs| ensures PcOk(x', u, x'.pcs[u]) {
      if u != t { PcKept(x, x', t, u, x.pcs[u]); }
    }
  }

  // ---------- each step keeps the invariant ----------

  /** Everything live but the allocation at `except` is kept, with its owner. */
  ghost predicate KeptBut(x: Sys, x': Sys, except: nat) {
    && x'.s.base == x.s.base
    && (forall ptr: nat :: ptr in x.own && ptr != except ==>
          ptr in x'.own && x'.own[ptr] == x.own[ptr] && IsLive(x.s, x.live, ptr) &&
          Kept(x.s, x'.s, x'.live, At(x.s, x.live, ptr)))
  }

  lemma LiveIn(s: State, live: seq<Extent>, ptr: nat)
    requires Inv(s, live)
    ensures IsLive(s, live, ptr) <==> exists e :: e in live && UserPtr(s.base, e) == ptr
  {
  }

  lemma AllocStep(x: Sys, t: nat, size: u32)
    requires SysInv(x) && size + 4111 < 0x1_0000_0000
    ensures var (x', p) := StepAlloc(x, t, size);
      && Inv(x'.s, x'.live) && OwnsLive(x') && KeptBut(x, x', 0) && x'.pcs == x.pcs
      && (p != 0 ==> p !in x.own && Owns(x'.own, t, p) && size <= Off(BlocksFor(size)) - 16 &&
                     Holding(x'.s, x'.live, p, BlocksFor(size), []))
  {
    AllocKeepsInv(x.s, x.live, size);
    AllocFrame(x.s, x.live, size);
    var r := Alloc(x.s, x.live, size);
    if r.2 != 0 { AllocLive(x.s, x.live, size); }
    hide Alloc, BlocksFor, Kept;
    Allocated(x, StepAlloc(x, t, size).0, t, r.2, BlocksFor(size));
  }

  lemma Allocated(x: Sys, x': Sys, t: nat, p: nat, n: nat)
    requires Inv(x.s, x.live) && OwnsLive(x) && Inv(x'.s, x'.live) && x'.s.base == x.s.base
    requires x'.own == if p == 0 then x.own else x.own[p := t]
    requires p == 0 ==> x'.s == x.s && x'.live == x.live
    requires p != 0 ==>
               && |x'.live| >= 1 && x'.live == [x'.live[0]] + x.live && p == UserPtr(x.s.base, x'.live[0])
               && x'.live[0].len == n && !IsLive(x.s, x.live, p)
    requires forall d :: d in x.live ==> Kept(x.s, x'.s, x'.live, d)
    ensures OwnsLive(x') && KeptBut(x, x', 0)
    ensures p != 0 ==> Holding(x'.s, x'.live, p, n, [])
  {
    hide Kept, SameUser, SameHeader;
    forall ptr: nat | ptr in x.own && ptr != 0
      ensures IsLive(x.s, x.live, ptr) && Kept(x.s, x'.s, x'.live, At(x.s, x.live, ptr))
    {
      LiveAt(x.s, x.live, ptr);
    }
    if p != 0 { AllocatedLive(x, x', t, p, n); }
  }

  lemma AllocatedLive(x: Sys, x': Sys, t: nat, p: nat, n: nat)
    requires Inv(x.s, x.live) && OwnsLive(x) && Inv(x'.s, x'.live) && x'.s.base == x.s.base && x'.own == x.own[p := t]
    requires |x'.live| >= 1 && x'.live == [x'.live[0]] + x.live && p == UserPtr(x.s.base, x'.live[0])
    requires x'.live[0].len == n
    ensures OwnsLive(x') && Holding(x'.s, x'.live, p, n, [])
  {
    FindLive(x.s.base, x'.live, 0, |x'.s.bits|);
    forall ptr: nat ensures ptr in x'.own <==> IsLive(x'.s, x'.live, ptr) {
      LiveIn(x.s, x.live, ptr);
      LiveIn(x'.s, x'.live, ptr);
      hide Inv, IsLive;
      assert forall e :: e in x'.live <==> e == x'.live[0] || e in x.live;
    }
  }

  lemma AllocLive(s: State, live: seq<Extent>, size: u32)
    requires Inv(s, live) && size + 4111 < 0x1_0000_0000 && s.head < 0x1_0000_0000
    requires Alloc(s, live, size).2 != 0
    ensures var r := Alloc(s, live, size);
      && Inv(r.0, r.1) && r.0.base == s.base && r.1 == [r.1[0]] + live && r.2 == UserPtr(s.base, r.1[0])
      && r.1[0].len == BlocksFor(size) && size <= UserSize(r.1[0]) && !IsLive(s, live, r.2)
  {
    AllocKeepsInv(s, live, size);
    var r := Alloc(s, live, size);
    LiveIn(s, live, r.2);
    assert forall k :: 0 < k < |r.1| ==> Apart(r.1[0], r.1[k]) && r.1[k] == live[k - 1];
  }

  lemma FreeStep(x: Sys, ptr: nat)
    requires SysInv(x) && ptr in x.own
    ensures var x' := StepFree(x, ptr);
      Inv(x'.s, x'.live) && OwnsLive(x') && KeptBut(x, x', ptr) && x'.pcs == x.pcs
  {
    LiveAt(x.s, x.live, ptr);
    FreeKeepsInv(x.s, x.live, ptr);
    var x' := StepFree(x, ptr);
    var k := Find(x.s.base, x.live, ptr);
    forall q: nat ensures q in x'.own <==> IsLive(x'.s, x'.live, q) {
      LiveIn(x.s, x.live, q);
      LiveIn(x'.s, x'.live, q);
      RemainingLive(x.s, x.live, k, q);
    }
    forall q: nat | q in x.own && q != ptr
      ensures IsLive(x.s, x.live, q) && Kept(x.s, x'.s, x'.live, At(x.s, x.live, q))
    {
      LiveAt(x.s, x.live, q);
      FreeOtherFrame(x.s, x.live, ptr, At(x.s, x.live, q));
    }
  }

  lemma RemainingLive(s: State, live: seq<Extent>, k: nat, q: nat)
    requires Inv(s, live) && k < |live|
    ensures (exists e :: e in RemoveAt(live, k) && UserPtr(s.base, e) == q) <==>
            (exists e :: e in live && UserPtr(s.base, e) == q) && q != UserPtr(s.base, live[k])
  {
  }

  /** Rewriting user bytes of the allocation at ptr. */
  lemma StoreStep(x: Sys, ptr: nat, i: nat, v: byte)
    requires SysInv(x) && IsLive(x.s, x.live, ptr) && i < UserSize(At(x.s, x.live, ptr))
    ensures Addressable(x.s, ptr) && ptr - x.s.base + i < |x.s.mem|
    ensures var x' := x.(s := x.s.(mem := x.s.mem[ptr - x.s.base + i := v]));
      Inv(x'.s, x'.live) && OwnsLive(x') && KeptBut(x, x', ptr)
  {
    LiveAt(x.s, x.live, ptr);
    var k := Find(x.s.base, x.live, ptr);
    var a := ptr - x.s.base + i;
    UserWriteKeepsInv(x.s, x.live, k, x.s.mem[a := v]);
    var x' := x.(s := x.s.(mem := x.s.mem[a := v]));
    forall q: nat | q in x.own && q != ptr
      ensures IsLive(x.s, x.live, q) && Kept(x.s, x'.s, x'.live, At(x.s, x.live, q))
    {
      LiveAt(x.s, x.live, q);
      WriteFrame(x.s, x.live, k, a, v, At(x.s, x.live, q));
    }
  }

  lemma MeasureStep(x: Sys, t: nat, ptr: nat, newSize: u32)
    requires SysInv(x) && t < |x.pcs| && Owns(x.own, t, ptr) && newSize + 4111 < 0x1_0000_0000
    ensures SysInv(StepMeasure(x, t, ptr, newSize))
  {
    MeasuredHolds(x, ptr);
    LiveAt(x.s, x.live, ptr);
    var x' := StepMeasure(x, t, ptr, newSize);
    hide Holding, Inv, OwnsLive, UserData;
    assert PcOk(x', t, x'.pcs[t]);
    SameHeap(x, x', t);
  }

  lemma MeasuredHolds(x: Sys, ptr: nat)
    requires SysInv(x) && ptr in x.own
    ensures var data := BytesAt(x, ptr);
      && Addressable(x.s, ptr) && var n := ReadBlocks(x.s, ptr);
        && Holding(x.s, x.live, ptr, n, data) && |data| == Off(n) - 16
  {
    LiveAt(x.s, x.live, ptr);
  }

  /** A step that moves only the program counter of t. */
  lemma SameHeap(x: Sys, x': Sys, t: nat)
    requires SysInv(x) && t < |x.pcs| == |x'.pcs| && x' == SetPc(x, t, x'.pcs[t]) && PcOk(x', t, x'.pcs[t])
    ensures SysInv(x')
  {
  }

  /** The extra blocks counted before the lock are still the right number under it, so the raw section is
      ExpandAt: nobody but the owner changes the length of a live allocation. */
  lemma RawIsExpandAt(s: State, live: seq<Extent>, ptr: nat, n: nat, newBlocks: u32)
    requires Inv(s, live) && IsLive(s, live, ptr) && At(s, live, ptr).len == n <= newBlocks
    ensures Addressable(s, ptr)
    ensures var k := Find(s.base, live, ptr);
      && (RawCanExpand(s, ptr, newBlocks - n) <==> CanExpand(s, live[k], newBlocks - n))
      && (RawCanExpand(s, ptr, newBlocks - n) ==>
            RawExpand(s, ptr, newBlocks - n, newBlocks) == ExpandAt(s, live, k, newBlocks - n).0)
  {
    hide Paint, Store32, Stored;
    LiveAt(s, live, ptr);
  }

  lemma MeasuredFacts(x: Sys, t: nat)
    requires SysInv(x) && t < |x.pcs| && x.pcs[t].Measured?
    ensures var pc := x.pcs[t];
      && Inv(x.s, x.live) && IsLive(x.s, x.live, pc.ptr) && At(x.s, x.live, pc.ptr).len == pc.n
      && pc.n <= BlocksFor(pc.newSize) < 0x1_0000_0000 && UserPtr(x.s.base, At(x.s, x.live, pc.ptr)) == pc.ptr
  {
    assert PcOk(x, t, x.pcs[t]);
    LiveAt(x.s, x.live, x.pcs[t].ptr);
  }

  lemma ExpandStep(x: Sys, t: nat)
    requires SysInv(x) && t < |x.pcs| && x.pcs[t].Measured?
    ensures SysInv(StepExpand(x, t))
  {
    hide SysInv, Inv, RawExpand, RawCanExpand, CanExpand, BlocksFor, ExpandAt;
    var pc := x.pcs[t];
    MeasuredFacts(x, t);
    var newBlocks := BlocksFor(pc.newSize);
    var k := Find(x.s.base, x.live, pc.ptr);
    RawIsExpandAt(x.s, x.live, pc.ptr, pc.n, newBlocks);
    var x' := StepExpand(x, t);
    if RawCanExpand(x.s, pc.ptr, newBlocks - pc.n) {
      ExpandedState(x, x', t, k, newBlocks);
    } else {
      RefusedState(x, t);
    }
  }

  lemma RefusedState(x: Sys, t: nat)
    requires SysInv(x) && t < |x.pcs| && x.pcs[t].Measured?
    ensures var pc := x.pcs[t]; SysInv(SetPc(x, t, MustMove(pc.ptr, pc.newSize, pc.n, pc.data)))
  {
    var pc := x.pcs[t];
    assert PcOk(x, t, pc);
    hide Holding, Inv, OwnsLive;
    SameHeap(x, SetPc(x, t, MustMove(pc.ptr, pc.newSize, pc.n, pc.data)), t);
  }

  lemma ExpandedState(x: Sys, x': Sys, t: nat, k: nat, newBlocks: nat)
    requires SysInv(x) && t < |x.pcs| && x.pcs[t].Measured? && k < |x.live|
    requires var pc := x.pcs[t];
      && newBlocks == BlocksFor(pc.newSize) >= x.live[k].len == pc.n && UserPtr(x.s.base, x.live[k]) == pc.ptr
      && CanExpand(x.s, x.live[k], newBlocks - pc.n)
      && x'.s == ExpandAt(x.s, x.live, k, newBlocks - pc.n).0
      && x'.live == x.live[k := Extent(x.live[k].start, newBlocks)]
      && x'.own == x.own
      && x'.pcs == x.pcs[t := Returned(pc.ptr, pc.newSize, newBlocks, pc.data)]
    ensures SysInv(x')
  {
    hide CanExpand, ExpandAt, Inv, PcOk, OwnsLive, Kept, SameUser, BlocksFor, SysInv, Holding;
    var pc := x.pcs[t];
    MeasuredFacts(x, t);
    ExpandFacts(x.s, x.live, k, newBlocks, x'.s);
    GrownState(x, x', t, k, newBlocks);
  }

  lemma ExpandFacts(s: State, live: seq<Extent>, k: nat, len: nat, s': State)
    requires Inv(s, live) && k < |live| && live[k].len <= len && CanExpand(s, live[k], len - live[k].len)
    requires s' == ExpandAt(s, live, k, len - live[k].len).0
    ensures var live' := live[k := Extent(live[k].start, len)];
      && Inv(s', live') && s'.base == s.base && SameUser(s.mem, s'.mem, live[k])
      && forall d :: d in live && d != live[k] ==> Kept(s, s', live', d)
  {
    ExpandKeepsInv(s, live, k, len - live[k].len);
    ExpandFrame(s, live, k, len - live[k].len);
    hide Inv, Kept, SameUser, Paint, Store32, Stored;
  }

  lemma GrownState(x: Sys, x': Sys, t: nat, k: nat, newBlocks: nat)
    requires SysInv(x) && t < |x.pcs| && x.pcs[t].Measured? && k < |x.live|
    requires var pc := x.pcs[t];
      && newBlocks == BlocksFor(pc.newSize) >= x.live[k].len == pc.n && UserPtr(x.s.base, x.live[k]) == pc.ptr
      && x'.live == x.live[k := Extent(x.live[k].start, newBlocks)]
      && x'.own == x.own
      && x'.pcs == x.pcs[t := Returned(pc.ptr, pc.newSize, newBlocks, pc.data)]
    requires Inv(x'.s, x'.live) && x'.s.base == x.s.base && SameUser(x.s.mem, x'.s.mem, x.live[k])
    requires forall d :: d in x.live && d != x.live[k] ==> Kept(x.s, x'.s, x'.live, d)
    ensures SysInv(x')
  {
    var pc := x.pcs[t];
    GrownLive(x.s, x'.s, x.live, k, newBlocks);
    GrownHolding(x.s, x'.s, x.live, k, newBlocks, pc.data);
    GrownOthers(x, x', t, k);
    hide Kept, Holding, OthersKept;
    Assemble(x, x', t);
  }

  lemma GrownOthers(x: Sys, x': Sys, t: nat, k: nat)
    requires Inv(x.s, x.live) && OwnsLive(x) && k < |x.live| && Owns(x.own, t, UserPtr(x.s.base, x.live[k]))
    requires x'.own == x.own && x'.s.base == x.s.base && |x'.pcs| == |x.pcs|
    requires forall u :: 0 <= u < |x.pcs| && u != t ==> x'.pcs[u] == x.pcs[u]
    requires forall d :: d in x.live && d != x.live[k] ==> Kept(x.s, x'.s, x'.live, d)
    ensures OthersKept(x, x', t)
  {
  }

  lemma GrownLive(s: State, s': State, live: seq<Extent>, k: nat, len: nat)
    requires Inv(s, live) && k < |live| && s'.base == s.base
    requires Inv(s', live[k := Extent(live[k].start, len)])
    ensures var live' := live[k := Extent(live[k].start, len)];
      && Find(s.base, live', UserPtr(s.base, live[k])) == k
      && forall q: nat :: IsLive(s', live', q) <==> IsLive(s, live, q)
  {
    var live' := live[k := Extent(live[k].start, len)];
    FindLive(s.base, live', k, |s'.bits|);
    forall q: nat ensures IsLive(s', live', q) <==> IsLive(s, live, q) {
      SamePtrs(s.base, live, live', q);
    }
  }

  lemma SamePtrs(base: nat, l: seq<Extent>, l': seq<Extent>, q: nat)
    requires |l| == |l'| && forall j :: 0 <= j < |l| ==> l'[j].start == l[j].start
    ensures Find(base, l', q) < |l'| <==> Find(base, l, q) < |l|
  {
  }

  lemma GrownHolding(s: State, s': State, live: seq<Extent>, k: nat, len: nat, data: seq<byte>)
    requires Inv(s, live) && k < |live| && s'.base == s.base && live[k].len <= len
    requires Inv(s', live[k := Extent(live[k].start, len)]) && SameUser(s.mem, s'.mem, live[k])
    requires Holding(s, live, UserPtr(s.base, live[k]), live[k].len, data)
    ensures Holding(s', live[k := Extent(live[k].start, len)], UserPtr(s.base, live[k]), len, data)
  {
    var e, live' := live[k], live[k := Extent(live[k].start, len)];
    FindLive(s.base, live, k, |s.bits|);
    FindLive(s.base, live', k, |s'.bits|);
    forall i | 0 <= i < |data| ensures ByteAt(s'.mem, live'[k], 16 + i) == data[i] {
      assert ByteAt(s.mem, e, 16 + i) == data[i];
    }
  }

  lemma KeptButOthers(x: Sys, x': Sys, t: nat, ptr: nat)
    requires SysInv(x) && t < |x.pcs| && KeptBut(x, x', ptr) && (ptr in x.own ==> x.own[ptr] == t)
    requires |x'.pcs| == |x.pcs| && forall u :: 0 <= u < |x.pcs| && u != t ==> x'.pcs[u] == x.pcs[u]
    ensures OthersKept(x, x', t)
  {
  }

  lemma AllocNewStep(x: Sys, t: nat)
    requires SysInv(x) && t < |x.pcs| && x.pcs[t].MustMove?
    ensures SysInv(StepAllocNew(x, t))
  {
    var MustMove(ptr, newSize, n, data) := x.pcs[t];
    AllocStep(x, t, newSize);
    var (x1, p) := StepAlloc(x, t, newSize);
    var x' := StepAllocNew(x, t);
    LiveAt(x.s, x.live, ptr);
    NullNotOwned(x);
    HoldingKept(x.s, x.live, x'.s, x'.live, ptr, n, data);
    assert data[..0] == [];
    KeptButOthers(x, x', t, 0);
    assert PcOk(x', t, x'.pcs[t]);
    Assemble(x, x', t);
  }

  lemma CopyingFacts(x: Sys, t: nat)
    requires SysInv(x) && t < |x.pcs| && x.pcs[t].Copying? && x.pcs[t].i < |x.pcs[t].data|
    ensures var pc := x.pcs[t];
      && Inv(x.s, x.live) && Holding(x.s, x.live, pc.ptr, pc.n, pc.data)
      && IsLive(x.s, x.live, pc.to) && pc.i < UserSize(At(x.s, x.live, pc.to))
  {
    assert PcOk(x, t, x.pcs[t]);
  }

  lemma CopyStep(x: Sys, t: nat)
    requires SysInv(x) && t < |x.pcs| && x.pcs[t].Copying? && x.pcs[t].i < |x.pcs[t].data|
    ensures SysInv(StepCopy(x, t))
  {
    hide SysInv, Inv, Holding, Kept, IsLive, At;
    var pc := x.pcs[t];
    CopyingFacts(x, t);
    SourceByte(x.s, x.live, pc.ptr, pc.n, pc.data, pc.i);
    StoreStep(x, pc.to, pc.i, pc.data[pc.i]);
    CopiedState(x, StepCopy(x, t), t);
  }

  lemma SourceByte(s: State, live: seq<Extent>, ptr: nat, n: nat, data: seq<byte>, i: nat)
    requires Inv(s, live) && Holding(s, live, ptr, n, data) && i < |data|
    ensures Addressable(s, ptr) && ptr - s.base + i < |s.mem| && s.mem[ptr - s.base + i] == data[i]
  {
  }

  lemma CopiedState(x: Sys, x': Sys, t: nat)
    requires SysInv(x) && t < |x.pcs| && x.pcs[t].Copying? && x.pcs[t].i < |x.pcs[t].data|
    requires var pc := x.pcs[t];
      && Addressable(x.s, pc.to) && pc.to - x.s.base + pc.i < |x.s.mem|
      && x' == x.(s := x.s.(mem := x.s.mem[pc.to - x.s.base + pc.i := pc.data[pc.i]]),
                  pcs := x.pcs[t := pc.(i := pc.i + 1)])
    requires Inv(x'.s, x'.live) && OwnsLive(x') && KeptBut(x, x', x.pcs[t].to)
    ensures SysInv(x')
  {
    hide Holding, Inv, OwnsLive, Kept, SysInv, KeptBut, IsLive;
    var pc := x.pcs[t];
    CopyingKept(x, x', t);
    HoldingKept(x.s, x.live, x'.s, x'.live, pc.ptr, pc.n, pc.data);
    CopiedOne(x.s, x'.s, x.live, pc.to, pc.m, pc.data, pc.i);
    KeptButOthers(x, x', t, pc.to);
    Assemble(x, x', t);
  }

  lemma CopyingKept(x: Sys, x': Sys, t: nat)
    requires SysInv(x) && t < |x.pcs| && x.pcs[t].Copying? && KeptBut(x, x', x.pcs[t].to)
    ensures var pc := x.pcs[t];
      && PcOk(x, t, pc) && Inv(x.s, x.live) && IsLive(x.s, x.live, pc.ptr)
      && Kept(x.s, x'.s, x'.live, At(x.s, x.live, pc.ptr)) && pc.to in x.own && x.own[pc.to] == t
      && Owns(x'.own, t, pc.ptr)
  {
    assert PcOk(x, t, x.pcs[t]);
  }

  lemma CopiedOne(s: State, s': State, live: seq<Extent>, to: nat, m: nat, data: seq<byte>, i: nat)
    requires Inv(s, live) && i < |data| <= Off(m) - 16 && Holding(s, live, to, m, data[..i])
    requires Addressable(s, to) && to - s.base + i < |s.mem|
    requires s' == s.(mem := s.mem[to - s.base + i := data[i]])
    ensures Holding(s', live, to, m, data[..i + 1])
  {
  }

  lemma FreeOldStep(x: Sys, t: nat)
    requires SysInv(x) && t < |x.pcs| && x.pcs[t].Copying? && x.pcs[t].i == |x.pcs[t].data|
    ensures SysInv(StepFreeOld(x, t))
  {
    var pc := x.pcs[t];
    CopiedAll(x, t);
    hide SysInv, Inv, Holding, IsLive, At, Kept, OwnsLive, Free;
    FreeStep(x, pc.ptr);
    var x' := StepFreeOld(x, t);
    HoldingKept(x.s, x.live, x'.s, x'.live, pc.to, pc.m, pc.data);
    KeptButOthers(x, x', t, pc.ptr);
    Assemble(x, x', t);
  }

  lemma CopiedAll(x: Sys, t: nat)
    requires SysInv(x) && t < |x.pcs| && x.pcs[t].Copying? && x.pcs[t].i == |x.pcs[t].data|
    ensures var pc := x.pcs[t];
      && Inv(x.s, x.live) && Holding(x.s, x.live, pc.to, pc.m, pc.data) && Owns(x.own, t, pc.ptr) && Owns(x.own, t, pc.to)
      && pc.to != pc.ptr && pc.newSize <= Off(pc.m) - 16
  {
    assert PcOk(x, t, x.pcs[t]);
    assert x.pcs[t].data[..x.pcs[t].i] == x.pcs[t].data;
  }

  /** A step of an idle task that keeps everything but one allocation of its own. */
  lemma IdleStep(x: Sys, x': Sys, t: nat, ptr: nat)
    requires SysInv(x) && t < |x.pcs| && x.pcs[t].Idle? && KeptBut(x, x', ptr) && (ptr in x.own ==> x.own[ptr] == t)
    requires x'.pcs == x.pcs && Inv(x'.s, x'.live) && OwnsLive(x')
    ensures SysInv(x')
  {
    KeptButOthers(x, x', t, ptr);
    Assemble(x, x', t);
  }

  /** The heap invariant, exclusive ownership and what every task relies on survive every step of every task. */
  lemma StepKeepsInv(x: Sys, t: nat, a: Act)
    requires SysInv(x) && Enabled(x, t, a)
    ensures SysInv(Step(x, t, a))
  {
    hide StepMeasure, StepExpand, StepAllocNew, StepCopy, StepFreeOld, KeptBut, OwnsLive;
    match a
    case TakeAlloc(size) =>
      AllocStep(x, t, size);
      NullNotOwned(x);
      IdleStep(x, StepAlloc(x, t, size).0, t, 0);
    case TakeFree(ptr) =>
      FreeStep(x, ptr);
      IdleStep(x, StepFree(x, ptr), t, ptr);
    case TakeWrite(ptr, i, v) =>
      StoreStep(x, ptr, i, v);
      IdleStep(x, StepWrite(x, ptr, i, v), t, ptr);
    case CallRealloc(ptr, newSize) => MeasureStep(x, t, ptr, newSize);
    case Expand => ExpandStep(x, t);
    case AllocNew => AllocNewStep(x, t);
    case CopyByte => CopyStep(x, t);
    case FreeOld => FreeOldStep(x, t);
    case Finish => SameHeap(x, SetPc(x, t, Idle), t);
  }

  lemma NullNotOwned(x: Sys)
    requires SysInv(x)
    ensures 0 !in x.own
  {
  }

  // ---------- every interleaving ----------

  /** Any number of idle tasks on a freshly initialized pool. */
  lemma StartIsSafe(x: Sys)
    requires WellSized(x.s) && Fresh(x.s, x.live) && x.own == map[]
    requires forall t :: 0 <= t < |x.pcs| ==> x.pcs[t] == Idle
    ensures SysInv(x)
  {
  }

  ghost predicate Interleaving(x: Sys, sched: seq<(nat, Act)>, y: Sys)
    requires SysInv(x)
    decreases |sched|
  {
    if sched == [] then y == x
    else
      Enabled(x, sched[0].0, sched[0].1) &&
      (StepKeepsInv(x, sched[0].0, sched[0].1);
       Interleaving(Step(x, sched[0].0, sched[0].1), sched[1..], y))
  }

  /** Safety over every schedule, from StartIsSafe's states on. */
  lemma {:induction false} ScheduleKeepsInv(x: Sys, sched: seq<(nat, Act)>, y: Sys)
    requires SysInv(x) && Interleaving(x, sched, y)
    ensures SysInv(y)
    decreases |sched|
  {
    if sched != [] {
      StepKeepsInv(x, sched[0].0, sched[0].1);
      ScheduleKeepsInv(Step(x, sched[0].0, sched[0].1), sched[1..], y);
    }
  }

  /** The task is inside, or just back from, the realloc of ptr to newSize that found `data` there. */
  predicate FromCall(pc: Pc, ptr: nat, newSize: u32, data: seq<byte>) {
    match pc
    case Idle => false
    case Returned(_, size, _, d) => size == newSize && d == data
    case Failed(p, _, d) => p == ptr && d == data
    case _ => pc.ptr == ptr && pc.newSize == newSize && pc.data == data
  }

  lemma CallIsRecorded(x: Sys, t: nat, ptr: u32, newSize: u32)
    requires SysInv(x) && Enabled(x, t, CallRealloc(ptr, newSize))
    ensures FromCall(Step(x, t, CallRealloc(ptr, newSize)).pcs[t], ptr, newSize, BytesAt(x, ptr))
    ensures var pc := Step(x, t, CallRealloc(ptr, newSize)).pcs[t]; pc.Returned? ==> pc.ptr == ptr
  {
  }

  /** No step of any task, but the caller's own Finish, makes it forget the call. */
  lemma CallIsKept(x: Sys, t: nat, u: nat, a: Act, ptr: nat, newSize: u32, data: seq<byte>)
    requires SysInv(x) && t < |x.pcs| && FromCall(x.pcs[t], ptr, newSize, data)
    requires Enabled(x, u, a) && !(u == t && a.Finish?)
    ensures FromCall(Step(x, u, a).pcs[t], ptr, newSize, data)
  {
    hide SysInv, RawExpand, RawCanExpand, BlocksFor, Alloc, Free, UserData;
  }

  lemma {:induction false} CallSurvives(x: Sys, sched: seq<(nat, Act)>, y: Sys, t: nat, ptr: nat, newSize: u32,
                                        data: seq<byte>)
    requires SysInv(x) && Interleaving(x, sched, y) && t < |x.pcs| && (t, Finish) !in sched
    requires FromCall(x.pcs[t], ptr, newSize, data)
    ensures t < |y.pcs| && FromCall(y.pcs[t], ptr, newSize, data)
    decreases |sched|
  {
    if sched != [] {
      var (u, a) := sched[0];
      StepKeepsInv(x, u, a);
      CallIsKept(x, t, u, a, ptr, newSize, data);
      CallSurvives(Step(x, u, a), sched[1..], y, t, ptr, newSize, data);
    }
  }

  /** What realloc promises across every schedule. In x task t calls it for a pointer it owns; whatever all tasks do
      then, up to t's next operation: if it has returned a pointer, t owns there an allocation of at least the size
      asked for that starts with all the bytes the old one held at the call; if it has returned NULL, t still owns
      the old allocation, with its length and all its bytes. */
  lemma EveryScheduleSafe(x: Sys, t: nat, ptr: u32, newSize: u32, sched: seq<(nat, Act)>, y: Sys)
    requires SysInv(x) && Enabled(x, t, CallRealloc(ptr, newSize)) && (t, Finish) !in sched
    requires (StepKeepsInv(x, t, CallRealloc(ptr, newSize));
              Interleaving(Step(x, t, CallRealloc(ptr, newSize)), sched, y))
    ensures SysInv(y) && t < |y.pcs|
    ensures y.pcs[t].Returned? ==>
              var pc := y.pcs[t];
              && Owns(y.own, t, pc.ptr) && newSize <= Off(pc.m) - 16
              && Holding(y.s, y.live, pc.ptr, pc.m, BytesAt(x, ptr))
    ensures y.pcs[t].Failed? ==>
              Owns(y.own, t, ptr) && Holding(y.s, y.live, ptr, At(x.s, x.live, ptr).len, BytesAt(x, ptr))
  {
    StepKeepsInv(x, t, CallRealloc(ptr, newSize));
    var x1 := Step(x, t, CallRealloc(ptr, newSize));
    CallIsRecorded(x, t, ptr, newSize);
    CallSurvives(x1, sched, y, t, ptr, newSize, BytesAt(x, ptr));
    ScheduleKeepsInv(x1, sched, y);
    LiveAt(x.s, x.live, ptr);
    hide Holding;
    assert PcOk(y, t, y.pcs[t]);
  }
}
