/** When the steps of interleaved tasks succeed, and what a realloc that nobody interrupts does
    (src/psram_pool.c:152-301). */
module TaskLaws {
  import opened Words
  import opened PoolSpec
  import opened PoolLemmas
  import opened PoolRealloc
  import opened PoolLaws
  import opened PoolRuns
  import opened ReallocLaws
  import opened PoolTasks

  // ---------- when a step succeeds ----------

  lemma TaskFacts(x: Sys, t: nat)
    requires SysInv(x) && t < |x.pcs| && (x.pcs[t].Measured? || x.pcs[t].MustMove?)
    ensures var pc := x.pcs[t];
      && Inv(x.s, x.live) && 0 < pc.newSize && pc.newSize + 4111 < 0x1_0000_0000 && 0 !in x.own
      && var k := Find(x.s.base, x.live, pc.ptr);
        && k < |x.live| && x.live[k].len == pc.n && pc.ptr == UserPtr(x.s.base, x.live[k])
        && UserSize(x.live[k]) < pc.newSize
  {
    assert PcOk(x, t, x.pcs[t]);
  }

  /** In whatever state the others have brought the pool to: the allocation inside a realloc fails, and realloc returns
      NULL, if and only if the request with its header is longer than the longest free run at that moment. Otherwise the
      copy begins, into an allocation that was handed to nobody before. */
  lemma AllocNewFailsIff(x: Sys, t: nat, run: nat)
    requires SysInv(x) && Enabled(x, t, AllocNew) && LongestRun(x.s.bits, run)
    ensures var y, pc := Step(x, t, AllocNew), x.pcs[t];
      && (y.pcs[t].Failed? <==> 16 + pc.newSize > 4096 * run)
      && (!y.pcs[t].Failed? ==> y.pcs[t].Copying? && y.pcs[t].i == 0 && y.pcs[t].to !in x.own && Owns(y.own, t, y.pcs[t].to))
      && (y.pcs[t].Failed? ==> y.s == x.s && y.live == x.live && y.own == x.own)
  {
    hide SysInv, Inv, OwnsLive, Alloc, ReallocLaws.Granted, LongestRun, Find, IsLive, KeptBut, Holding;
    TaskFacts(x, t);
    AllocResult(x.s, x.live, x.pcs[t].newSize, run);
    AllocStep(x, t, x.pcs[t].newSize);
  }

  /** An allocation hands its caller a new pointer if and only if the request is not empty and fits that run; if not,
      nothing changes. */
  lemma TakeAllocGivesIff(x: Sys, t: nat, size: u32, run: nat)
    requires SysInv(x) && Enabled(x, t, TakeAlloc(size)) && LongestRun(x.s.bits, run)
    ensures var y := Step(x, t, TakeAlloc(size));
      && ((exists p: nat :: p !in x.own && Owns(y.own, t, p)) <==> 0 < size && 16 + size <= 4096 * run)
      && (!(0 < size && 16 + size <= 4096 * run) ==> y == x)
  {
    hide SysInv, Inv, OwnsLive, Alloc, ReallocLaws.Granted, LongestRun, IsLive, KeptBut, Holding;
    InvOf(x);
    AllocResult(x.s, x.live, size, run);
    AllocStep(x, t, size);
    var r := StepAlloc(x, t, size);
    assert r.1 != 0 ==> r.1 !in x.own && Owns(r.0.own, t, r.1);
  }

  lemma InvOf(x: Sys)
    requires SysInv(x)
    ensures Inv(x.s, x.live)
  {
  }

  /** A free takes the pointer from its owner and gives exactly that extent back. */
  lemma TakeFreeGivesBack(x: Sys, t: nat, ptr: u32)
    requires SysInv(x) && Enabled(x, t, TakeFree(ptr))
    ensures IsLive(x.s, x.live, ptr)
    ensures var y := Step(x, t, TakeFree(ptr));
      GivenBack(x.s, x.live, Find(x.s.base, x.live, ptr), y.s, y.live) && ptr !in y.own
  {
    hide GivenBack, Inv, Free;
    assert OwnsLive(x);
    FreeResult(x.s, x.live, Find(x.s.base, x.live, ptr));
  }

  /** A write changes the byte it names, in the caller's own allocation, and nothing else. */
  lemma TakeWriteWrites(x: Sys, t: nat, ptr: u32, i: nat, v: byte)
    requires SysInv(x) && Enabled(x, t, TakeWrite(ptr, i, v))
    ensures ptr in x.own && i < |BytesAt(x, ptr)|
    ensures var y := Step(x, t, TakeWrite(ptr, i, v));
      SysInv(y) && y.own == x.own && y.live == x.live && BytesAt(y, ptr) == BytesAt(x, ptr)[i := v]
  {
    StepKeepsInv(x, t, TakeWrite(ptr, i, v));
    LiveAt(x.s, x.live, ptr);
    hide Inv, PcOk;
  }

  /** Some block that the extent would need to grow to n blocks is taken or lies beyond the pool. */
  predicate Obstructed(bits: seq<bool>, e: Extent, n: nat) {
    e.start + n > |bits| || exists i :: e.start + e.len <= i < e.start + n && bits[i]
  }

  lemma ObstructedIff(bits: seq<bool>, e: Extent, n: nat)
    requires e.len <= n && e.start + e.len <= |bits|
    ensures Obstructed(bits, e, n) <==> !Clear(bits, e.start + e.len, n - e.len)
  {
  }

  /** The expansion is refused if and only if a block it needs behind the extent is taken or out of range; otherwise the
      extent has exactly the blocks the request needs, and realloc returns the pointer it was given. */
  lemma ExpandRefusedIff(x: Sys, t: nat, n: nat)
    requires SysInv(x) && Enabled(x, t, Expand) && Needs(x.pcs[t].newSize, n)
    ensures var y, pc := Step(x, t, Expand), x.pcs[t];
      var k := Find(x.s.base, x.live, pc.ptr);
      && k < |x.live|
      && (y.pcs[t].MustMove? <==> Obstructed(x.s.bits, x.live[k], n))
      && (y.pcs[t].MustMove? ==> y.s == x.s && y.live == x.live && y.own == x.own)
      && (!y.pcs[t].MustMove? ==>
            y.pcs[t].Returned? && y.pcs[t].ptr == pc.ptr && Grown(x.s, x.live, k, n, y.s, y.live))
  {
    hide SysInv, OwnsLive, BlocksFor, Needs, Grown, Obstructed, Inv, RawExpand, RawCanExpand, Find, Clear, StepExpand,
      Paint, Store32, Stored, PcOk;
    var pc := x.pcs[t];
    TaskFacts(x, t);
    var k := Find(x.s.base, x.live, pc.ptr);
    NeedsBlocks(pc.newSize, n);
    MoreThan(x.live[k], pc.newSize, n);
    ExtentFits(x.s, x.live, k);
    ObstructedIff(x.s.bits, x.live[k], n);
    RawIsExpandAt(x.s, x.live, pc.ptr, pc.n, n);
    ExpandResult(x.s, x.live, k, n);
    ExpandIs(x, t);
  }

  lemma MoreThan(e: Extent, size: nat, n: nat)
    requires Needs(size, n) && UserSize(e) < size
    ensures e.len < n
  {
  }

  lemma ExtentFits(s: State, live: seq<Extent>, k: nat)
    requires Inv(s, live) && k < |live|
    ensures live[k].start + live[k].len <= |s.bits| && 1 <= live[k].len
  {
  }

  // ---------- a realloc that nobody interrupts ----------

  /** The task is in the middle of a realloc. */
  predicate Midway(pc: Pc) {
    pc.Measured? || pc.MustMove? || pc.Copying?
  }

  /** The one step a task in the middle of a realloc can take. */
  function NextAct(pc: Pc): Act
    requires Midway(pc)
  {
    match pc
    case Measured(_, _, _, _) => Expand
    case MustMove(_, _, _, _) => AllocNew
    case Copying(_, _, _, data, _, _, i) => if i < |data| then CopyByte else FreeOld
  }

  /** How many steps there are to go at most. */
  function ToGo(pc: Pc): nat {
    match pc
    case Measured(_, _, _, data) => |data| + 4
    case MustMove(_, _, _, data) => |data| + 3
    case Copying(_, _, _, data, _, _, i) => if i <= |data| then |data| - i + 1 else 0
    case _ => 0
  }

  lemma NextEnabled(x: Sys, t: nat)
    requires SysInv(x) && t < |x.pcs| && Midway(x.pcs[t])
    ensures Enabled(x, t, NextAct(x.pcs[t])) && SysInv(Step(x, t, NextAct(x.pcs[t])))
    ensures var y := Step(x, t, NextAct(x.pcs[t])); |y.pcs| == |x.pcs| && ToGo(y.pcs[t]) < ToGo(x.pcs[t])
  {
    hide SysInv, StepExpand, StepAllocNew, StepCopy, StepFreeOld;
    CopyInRange(x, t);
    StepKeepsInv(x, t, NextAct(x.pcs[t]));
    match x.pcs[t]
    case Measured(_, _, _, _) => ExpandNearer(x, t);
    case MustMove(_, _, _, _) => AllocNearer(x, t);
    case Copying(_, _, _, data, _, _, i) => if i < |data| { CopyNearer(x, t); } else { FreeNearer(x, t); }
  }

  lemma CopyInRange(x: Sys, t: nat)
    requires SysInv(x) && t < |x.pcs|
    ensures x.pcs[t].Copying? ==> x.pcs[t].i <= |x.pcs[t].data|
  {
    assert PcOk(x, t, x.pcs[t]);
  }

  lemma ExpandNearer(x: Sys, t: nat)
    requires SysInv(x) && t < |x.pcs| && x.pcs[t].Measured?
    ensures var y := StepExpand(x, t); |y.pcs| == |x.pcs| && ToGo(y.pcs[t]) < ToGo(x.pcs[t])
  {
    hide SysInv, RawExpand, RawCanExpand, BlocksFor, IsLive;
  }

  lemma AllocNearer(x: Sys, t: nat)
    requires SysInv(x) && t < |x.pcs| && x.pcs[t].MustMove?
    ensures var y := StepAllocNew(x, t); |y.pcs| == |x.pcs| && ToGo(y.pcs[t]) < ToGo(x.pcs[t])
  {
    hide SysInv, Alloc, BlocksFor;
  }

  lemma CopyNearer(x: Sys, t: nat)
    requires SysInv(x) && t < |x.pcs| && x.pcs[t].Copying? && x.pcs[t].i < |x.pcs[t].data|
    ensures var y := StepCopy(x, t); |y.pcs| == |x.pcs| && ToGo(y.pcs[t]) < ToGo(x.pcs[t])
  {
    hide SysInv, IsLive;
  }

  lemma FreeNearer(x: Sys, t: nat)
    requires SysInv(x) && t < |x.pcs| && x.pcs[t].Copying? && x.pcs[t].i <= |x.pcs[t].data|
    ensures var y := StepFreeOld(x, t); |y.pcs| == |x.pcs| && ToGo(y.pcs[t]) < ToGo(x.pcs[t])
  {
    hide SysInv, Free;
  }

  /** The steps of task t alone, until its realloc has returned. */
  ghost function Alone(x: Sys, t: nat): Sys
    requires SysInv(x) && t < |x.pcs|
    decreases ToGo(x.pcs[t])
  {
    if !Midway(x.pcs[t]) then x
    else
      NextEnabled(x, t);
      Alone(Step(x, t, NextAct(x.pcs[t])), t)
  }

  /** What a realloc in state x with pointer and size leaves and returns if it is one atomic call. */
  ghost predicate DoesRealloc(x: Sys, t: nat, ptr: nat, newSize: u32, y: Sys)
    requires Inv(x.s, x.live) && newSize + 4111 < 0x1_0000_0000 && IsLive(x.s, x.live, ptr) && t < |y.pcs|
  {
    var r := Realloc(x.s, x.live, ptr, newSize);
    && y.s == r.0 && y.live == r.1
    && (if r.2 == 0 then y.pcs[t].Failed? else y.pcs[t].Returned? && y.pcs[t].ptr == r.2)
  }

  /** The bytes still to be copied are those the old allocation held all along. */
  lemma {:induction false} AloneCopies(x: Sys, t: nat, s1: State, src: nat, dst: nat)
    requires SysInv(x) && t < |x.pcs| && x.pcs[t].Copying?
    requires var pc := x.pcs[t];
      && pc.i <= |pc.data| && src == pc.ptr - x.s.base && dst == pc.to - x.s.base
      && src + |pc.data| <= |s1.mem| && dst + |pc.data| <= |s1.mem|
      && (dst + |pc.data| <= src || src + |pc.data| <= dst)
      && x.s == Memcpy(s1, dst, src, pc.i)
    ensures var pc, y := x.pcs[t], Alone(x, t);
      var s2 := Memcpy(s1, dst, src, |pc.data|);
      && Inv(s2, x.live) && t < |y.pcs| && y.pcs[t].Returned? && y.pcs[t].ptr == pc.to
      && y.s == Free(s2, x.live, pc.ptr).0 && y.live == Free(s2, x.live, pc.ptr).1
    decreases |x.pcs[t].data| - x.pcs[t].i
  {
    hide SysInv, Inv, Free, Alone, IsLive, Memcpy;
    var pc := x.pcs[t];
    InvOf(x);
    CopiedByte(s1, src, dst, |pc.data|, pc.i);
    AloneTurn(x, t);
    var y := Step(x, t, NextAct(pc));
    if pc.i < |pc.data| {
      AloneCopies(y, t, s1, src, dst);
    } else {
      AloneDone(y, t);
    }
  }

  lemma AloneTurn(x: Sys, t: nat)
    requires SysInv(x) && t < |x.pcs| && Midway(x.pcs[t])
    ensures Enabled(x, t, NextAct(x.pcs[t])) && SysInv(Step(x, t, NextAct(x.pcs[t])))
    ensures t < |Step(x, t, NextAct(x.pcs[t])).pcs| && Alone(x, t) == Alone(Step(x, t, NextAct(x.pcs[t])), t)
  {
    hide SysInv, Step, Enabled;
    NextEnabled(x, t);
  }

  lemma CopiedByte(s1: State, src: nat, dst: nat, n: nat, i: nat)
    requires src + n <= |s1.mem| && dst + n <= |s1.mem| && (dst + n <= src || src + n <= dst) && i <= n
    ensures var s := Memcpy(s1, dst, src, i);
      && s.base == s1.base && |s.mem| == |s1.mem|
      && (i < n ==> s.(mem := s.mem[dst + i := s.mem[src + i]]) == Memcpy(s1, dst, src, i + 1))
  {
    if i == n { return; }
    var s := Memcpy(s1, dst, src, i);
    assert s.mem[dst + i := s.mem[src + i]] == Blit(s1.mem, src, dst, i + 1);
  }

  /** Run to its end with no step of another task in between, realloc leaves exactly the bitmap, counter, list and bytes
      that the atomic Realloc leaves, and returns the same pointer. */
  lemma AloneIsRealloc(x: Sys, t: nat, ptr: u32, newSize: u32)
    requires SysInv(x) && Enabled(x, t, CallRealloc(ptr, newSize))
    ensures SysInv(Step(x, t, CallRealloc(ptr, newSize))) && t < |Step(x, t, CallRealloc(ptr, newSize)).pcs|
    ensures Inv(x.s, x.live) && IsLive(x.s, x.live, ptr)
    ensures var y := Alone(Step(x, t, CallRealloc(ptr, newSize)), t);
      t < |y.pcs| && DoesRealloc(x, t, ptr, newSize, y)
  {
    StepKeepsInv(x, t, CallRealloc(ptr, newSize));
    CalledFacts(x, t, ptr, newSize);
    hide SysInv, Inv, ReallocAt, Alone, Find, BlocksFor;
    var x1 := Step(x, t, CallRealloc(ptr, newSize));
    if x1.pcs[t].Measured? {
      AloneMeasured(x1, t);
    } else {
      AloneDone(x1, t);
    }
  }

  lemma AloneDone(x: Sys, t: nat)
    requires SysInv(x) && t < |x.pcs| && !Midway(x.pcs[t])
    ensures Alone(x, t) == x
  {
  }

  lemma CalledFacts(x: Sys, t: nat, ptr: u32, newSize: u32)
    requires SysInv(x) && Enabled(x, t, CallRealloc(ptr, newSize))
    ensures Inv(x.s, x.live) && IsLive(x.s, x.live, ptr) && ptr > 0
    ensures var y, k := Step(x, t, CallRealloc(ptr, newSize)), Find(x.s.base, x.live, ptr);
      && |y.pcs| == |x.pcs| && y.s == x.s && y.live == x.live
      && (if newSize <= UserSize(x.live[k]) then
            y.pcs[t].Returned? && y.pcs[t].ptr == ptr
            && Realloc(x.s, x.live, ptr, newSize).0 == x.s && Realloc(x.s, x.live, ptr, newSize).1 == x.live
            && Realloc(x.s, x.live, ptr, newSize).2 == ptr
          else
            y.pcs[t].Measured? && y.pcs[t].ptr == ptr && y.pcs[t].newSize == newSize)
  {
    hide Inv, PcOk, ReallocAt, Find, StepMeasure, UserData;
    LiveAt(x.s, x.live, ptr);
    NoOpIs(x.s, x.live, Find(x.s.base, x.live, ptr), newSize);
    MeasureIs(x, t, ptr, newSize);
  }

  lemma NoOpIs(s: State, live: seq<Extent>, k: nat, newSize: u32)
    requires Inv(s, live) && k < |live| && newSize + 4111 < 0x1_0000_0000
    ensures newSize <= UserSize(live[k]) ==>
              var r := ReallocAt(s, live, k, newSize); r.0 == s && r.1 == live && r.2 == UserPtr(s.base, live[k])
  {
    hide Inv, Move, TryExpand;
  }

  lemma MeasureIs(x: Sys, t: nat, ptr: nat, newSize: u32)
    requires SysInv(x) && t < |x.pcs| && Owns(x.own, t, ptr)
    ensures IsLive(x.s, x.live, ptr)
    ensures var y, k := StepMeasure(x, t, ptr, newSize), Find(x.s.base, x.live, ptr);
      && |y.pcs| == |x.pcs| && y.s == x.s && y.live == x.live
      && (if newSize <= UserSize(x.live[k]) then y.pcs[t].Returned? && y.pcs[t].ptr == ptr
          else y.pcs[t].Measured? && y.pcs[t].ptr == ptr && y.pcs[t].newSize == newSize)
  {
    hide Inv, PcOk, UserData, Find;
    LiveAt(x.s, x.live, ptr);
  }

  lemma ExpandIs(x: Sys, t: nat)
    requires SysInv(x) && t < |x.pcs| && x.pcs[t].Measured?
    ensures var pc := x.pcs[t];
      && Inv(x.s, x.live) && IsLive(x.s, x.live, pc.ptr) && Addressable(x.s, pc.ptr) && BlocksFor(pc.newSize) >= pc.n
      && var n, k, y := BlocksFor(pc.newSize), Find(x.s.base, x.live, pc.ptr), StepExpand(x, t);
        && |y.pcs| == |x.pcs| && y.own == x.own
        && (if RawCanExpand(x.s, pc.ptr, n - pc.n) then
              y.s == RawExpand(x.s, pc.ptr, n - pc.n, n) && y.live == x.live[k := Extent(x.live[k].start, n)]
              && y.pcs[t] == Returned(pc.ptr, pc.newSize, n, pc.data)
            else y.s == x.s && y.live == x.live && y.pcs[t] == MustMove(pc.ptr, pc.newSize, pc.n, pc.data))
  {
    hide SysInv, Inv, RawExpand, RawCanExpand, BlocksFor, Find;
    MeasuredFacts(x, t);
    LiveAt(x.s, x.live, x.pcs[t].ptr);
  }

  /** From the point where the length has been read and found too small. */
  lemma AloneMeasured(x: Sys, t: nat)
    requires SysInv(x) && t < |x.pcs| && x.pcs[t].Measured?
    ensures var pc, y := x.pcs[t], Alone(x, t);
      && Inv(x.s, x.live) && IsLive(x.s, x.live, pc.ptr) && pc.newSize + 4111 < 0x1_0000_0000 && t < |y.pcs|
      && DoesRealloc(x, t, pc.ptr, pc.newSize, y)
  {
    hide SysInv, Inv, Alone, RawExpand, RawCanExpand, CanExpand, BlocksFor, Find, Move, Enabled, StepExpand, PcOk,
      Paint, Store32, Stored;
    var pc := x.pcs[t];
    var k := Find(x.s.base, x.live, pc.ptr);
    TaskFacts(x, t);
    MeasuredFacts(x, t);
    RawIsExpandAt(x.s, x.live, pc.ptr, pc.n, BlocksFor(pc.newSize));
    AloneTurn(x, t);
    var y := StepExpand(x, t);
    assert y == Step(x, t, Expand);
    hide Step;
    ExpandIs(x, t);
    if RawCanExpand(x.s, pc.ptr, BlocksFor(pc.newSize) - pc.n) {
      AloneDone(y, t);
    } else {
      AloneMoves(y, t);
    }
  }

  /** From the point where the expansion has been refused. */
  lemma AloneMoves(x: Sys, t: nat)
    requires SysInv(x) && t < |x.pcs| && x.pcs[t].MustMove?
    ensures var pc, y, k := x.pcs[t], Alone(x, t), Find(x.s.base, x.live, x.pcs[t].ptr);
      && Inv(x.s, x.live) && k < |x.live| && UserSize(x.live[k]) < pc.newSize && pc.newSize + 4111 < 0x1_0000_0000
      && t < |y.pcs|
      && var r := Move(x.s, x.live, k, pc.newSize);
        && y.s == r.0 && y.live == r.1
        && (if r.2 == 0 then y.pcs[t].Failed? else y.pcs[t].Returned? && y.pcs[t].ptr == r.2)
  {
    hide SysInv, Inv, Alone, Alloc, BlocksFor, Find, Move, Enabled, Free, CopyFits, Memcpy, StepAllocNew, PcOk;
    var pc := x.pcs[t];
    var k := Find(x.s.base, x.live, pc.ptr);
    TaskFacts(x, t);
    InvShape(x.s, x.live);
    AloneTurn(x, t);
    var y := StepAllocNew(x, t);
    AllocStarts(x, t);
    assert y == Step(x, t, AllocNew);
    hide Step;
    var r := Alloc(x.s, x.live, pc.newSize);
    BeforeCopy(x.s, x.live, k, pc.newSize, r.0, r.1, r.2);
    if r.2 == 0 {
      AloneDone(y, t);
    } else {
      NothingCopied(r.0, r.2, pc.ptr, UserSize(x.live[k]));
      AloneCopies(y, t, r.0, pc.ptr - x.s.base, r.2 - x.s.base);
      AfterCopy(x.s, x.live, k, pc.newSize, r.0, r.1, r.2,
                Memcpy(r.0, r.2 - r.0.base, pc.ptr - r.0.base, UserSize(x.live[k])));
    }
  }

  lemma NothingCopied(s: State, p: nat, ptr: nat, n: int)
    requires CopyFits(s, p, ptr, n)
    ensures s.base <= p && s.base <= ptr && n >= 0
    ensures ptr - s.base + n <= |s.mem| && p - s.base + n <= |s.mem|
    ensures p - s.base + n <= ptr - s.base || ptr - s.base + n <= p - s.base
    ensures Memcpy(s, p - s.base, ptr - s.base, 0) == s
  {
    assert Blit(s.mem, ptr - s.base, p - s.base, 0) == s.mem;
  }

  lemma AllocStarts(x: Sys, t: nat)
    requires SysInv(x) && t < |x.pcs| && x.pcs[t].MustMove?
    ensures Inv(x.s, x.live) && x.s.head < 0x1_0000_0000 && x.pcs[t].newSize + 4111 < 0x1_0000_0000
    ensures var y, pc := StepAllocNew(x, t), x.pcs[t];
      var r := Alloc(x.s, x.live, pc.newSize);
      && |y.pcs| == |x.pcs| && y.s == r.0 && y.live == r.1
      && (if r.2 == 0 then y.pcs[t].Failed?
          else y.pcs[t].Copying? && y.pcs[t].to == r.2 && y.pcs[t].i == 0 && y.pcs[t].ptr == pc.ptr
               && |y.pcs[t].data| == Off(pc.n) - 16)
  {
    assert PcOk(x, t, x.pcs[t]);
    InvShape(x.s, x.live);
    hide Inv, Alloc, Holding;
  }

  /** So does every schedule that runs task t alone from the call to the return. */
  lemma {:induction false} AloneIsEverySchedule(x: Sys, t: nat, sched: seq<(nat, Act)>, y: Sys)
    requires SysInv(x) && t < |x.pcs| && Interleaving(x, sched, y)
    requires forall i :: 0 <= i < |sched| ==> sched[i].0 == t && !sched[i].1.Finish?
    requires Midway(x.pcs[t]) || x.pcs[t].Returned? || x.pcs[t].Failed?
    requires t < |y.pcs| && !Midway(y.pcs[t])
    ensures y == Alone(x, t)
    decreases |sched|
  {
    hide SysInv, Step, Alone;
    if sched == [] {
      AloneDone(x, t);
    } else {
      var a := sched[0].1;
      OnlyNext(x, t, a);
      AloneTurn(x, t);
      StepKeepsInv(x, t, a);
      StillInside(x, t);
      AloneIsEverySchedule(Step(x, t, a), t, sched[1..], y);
    }
  }

  lemma OnlyNext(x: Sys, t: nat, a: Act)
    requires SysInv(x) && t < |x.pcs| && Enabled(x, t, a) && !x.pcs[t].Idle? && !a.Finish?
    ensures Midway(x.pcs[t]) && a == NextAct(x.pcs[t])
  {
    hide SysInv;
  }

  lemma StillInside(x: Sys, t: nat)
    requires SysInv(x) && t < |x.pcs| && Midway(x.pcs[t])
    ensures Enabled(x, t, NextAct(x.pcs[t]))
    ensures var pc := Step(x, t, NextAct(x.pcs[t])).pcs[t]; Midway(pc) || pc.Returned? || pc.Failed?
  {
    NextEnabled(x, t);
    hide SysInv, RawExpand, RawCanExpand, BlocksFor, Alloc, Free, IsLive, Holding;
  }
}
