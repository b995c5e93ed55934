/** The header check of psram_pool_free (src/psram_pool.c:225-233): the condition under which it tells live pointers
    from stale ones, and the clients under which that condition lasts. */
module PoolGuard {
  import opened Words
  import opened PoolSpec
  import opened PoolLemmas
  import opened PoolRealloc
  import opened PoolLaws
  import opened PoolRuns

  /** The pointer that block b would have if an allocation started there. */
  function BlockPtr(base: nat, b: nat): nat {
    base + Off(b) + 16
  }

  /** Block b looks like the start of a live allocation. */
  predicate MagicAt(mem: seq<byte>, b: nat) {
    Off(b) + 16 <= |mem| && Load32(mem, Off(b) + 8) == MAGIC_ALLOCATED
  }

  ghost predicate Starts(live: seq<Extent>, b: nat) {
    exists k :: 0 <= k < |live| && live[k].start == b
  }

  /** Only live allocations look like one. */
  ghost predicate Genuine(mem: seq<byte>, live: seq<Extent>) {
    forall b: nat :: MagicAt(mem, b) ==> Starts(live, b)
  }

  // ---------- the check is exact ----------

  lemma LiveStarts(s: State, live: seq<Extent>, b: nat)
    requires Inv(s, live)
    ensures IsLive(s, live, BlockPtr(s.base, b)) <==> Starts(live, b)
    ensures Starts(live, b) ==> b < |s.bits| && MagicAt(s.mem, b)
    ensures Accepted(s, BlockPtr(s.base, b)) <==> MagicAt(s.mem, b)
  {
    if Starts(live, b) {
      var k :| 0 <= k < |live| && live[k].start == b;
      assert HeaderOk(s.base, s.mem, live, k);
    }
  }

  /** The check accepts exactly the live ones among all block pointers if and only if no other block carries the
      ALLOCATED magic at its byte 8. */
  lemma GuardIsExactIff(s: State, live: seq<Extent>)
    requires Inv(s, live)
    ensures Genuine(s.mem, live) <==>
            forall b: nat :: Accepted(s, BlockPtr(s.base, b)) <==> IsLive(s, live, BlockPtr(s.base, b))
  {
    hide Inv, Accepted, IsLive, MagicAt, Starts, BlockPtr;
    forall b: nat
      ensures IsLive(s, live, BlockPtr(s.base, b)) <==> Starts(live, b)
      ensures Starts(live, b) ==> MagicAt(s.mem, b)
      ensures Accepted(s, BlockPtr(s.base, b)) <==> MagicAt(s.mem, b)
    {
      LiveStarts(s, live, b);
    }
    if forall b: nat :: Accepted(s, BlockPtr(s.base, b)) <==> IsLive(s, live, BlockPtr(s.base, b)) {
      forall b: nat | MagicAt(s.mem, b) ensures Starts(live, b) {
        assert Accepted(s, BlockPtr(s.base, b));
      }
    }
  }

  // ---------- what each operation does to the magics ----------

  lemma SameMagic(mem: seq<byte>, mem': seq<byte>, b: nat)
    requires |mem| == |mem'| && (Off(b) + 16 <= |mem| ==> SameBytes(mem, mem', Off(b) + 8, Off(b) + 12))
    ensures MagicAt(mem, b) <==> MagicAt(mem', b)
  {
    if Off(b) + 16 <= |mem| { LinkFrame(mem, mem', Off(b) + 8); }
  }

  lemma PlaceGenuine(mem: seq<byte>, mem': seq<byte>, live: seq<Extent>, e: Extent, next: nat)
    requires Genuine(mem, live) && HeaderPut(mem, mem', e, next)
    ensures Genuine(mem', [e] + live)
  {
    var live' := [e] + live;
    forall b: nat | MagicAt(mem', b) ensures Starts(live', b) {
      if b == e.start {
        assert live'[0].start == b;
      } else {
        SameMagic(mem, mem', b);
        var k :| 0 <= k < |live| && live[k].start == b;
        assert live'[k + 1].start == b;
      }
    }
  }

  lemma AllocGenuine(s: State, live: seq<Extent>, size: u32)
    requires Inv(s, live) && Genuine(s.mem, live) && s.head < 0x1_0000_0000 && size + 4111 < 0x1_0000_0000
    ensures var (s', live', _) := Alloc(s, live, size); Genuine(s'.mem, live')
  {
    hide Genuine, BlocksFor, FirstFit, HeadersOk, BitsOk, Paint;
    var (s', live', p) := Alloc(s, live, size);
    if p != 0 { PlaceGenuine(s.mem, s'.mem, live, live'[0], s.head); }
  }

  /** Unlinking touches bytes 12 to 16 of one header, poisoning the magic of another. */
  lemma DetachGenuine(mem: seq<byte>, live: seq<Extent>, k: nat, next: u32)
    requires Genuine(mem, live) && k < |live| && Off(live[k].start) + 16 <= |mem|
    requires k > 0 ==> Off(live[k - 1].start) + 16 <= |mem|
    ensures Genuine(Detached(mem, live, k, next), RemoveAt(live, k))
  {
    hide Detached, MagicAt;
    forall b: nat | MagicAt(Detached(mem, live, k, next), b) ensures Starts(RemoveAt(live, k), b) {
      DetachedMagic(mem, live, k, next, b);
      var j :| 0 <= j < |live| && live[j].start == b;
      assert RemoveAt(live, k)[if j < k then j else j - 1].start == b;
    }
  }

  lemma DetachedMagic(mem: seq<byte>, live: seq<Extent>, k: nat, next: u32, b: nat)
    requires k < |live| && Off(live[k].start) + 16 <= |mem|
    requires k > 0 ==> Off(live[k - 1].start) + 16 <= |mem|
    ensures MagicAt(Detached(mem, live, k, next), b) <==> b != live[k].start && MagicAt(mem, b)
  {
    hide MagicAt, Off, Store32;
    if k > 0 { LinkMagic(mem, live[k - 1].start, next, b); }
    PoisonMagic(if k == 0 then mem else Store32(mem, Off(live[k - 1].start) + 12, next), live[k].start, b);
  }

  lemma LinkMagic(mem: seq<byte>, c: nat, v: u32, b: nat)
    requires Off(c) + 16 <= |mem|
    ensures MagicAt(mem, b) <==> MagicAt(Store32(mem, Off(c) + 12, v), b)
  {
    hide Store32;
    SameMagic(mem, Store32(mem, Off(c) + 12, v), b);
  }

  lemma PoisonMagic(mem: seq<byte>, c: nat, b: nat)
    requires Off(c) + 16 <= |mem|
    ensures MagicAt(Store32(mem, Off(c) + 8, MAGIC_FREED), b) <==> b != c && MagicAt(mem, b)
  {
    hide Store32;
    if b != c { SameMagic(mem, Store32(mem, Off(c) + 8, MAGIC_FREED), b); }
  }

  lemma FreeAtGenuine(s: State, live: seq<Extent>, k: nat)
    requires Inv(s, live) && k < |live| && Genuine(s.mem, live)
    ensures Genuine(FreeAt(s, live, k).mem, RemoveAt(live, k))
  {
    hide Genuine, Detached, BitsOk, Paint;
    var next := NextPtr(s.base, live, k + 1);
    NextPtrBound(s, live, k + 1);
    assert k > 0 ==> HeaderOk(s.base, s.mem, live, k - 1);
    assert HeaderOk(s.base, s.mem, live, k);
    DetachGenuine(s.mem, live, k, next);
  }

  lemma ExpandGenuine(mem: seq<byte>, mem': seq<byte>, live: seq<Extent>, k: nat, len: u32)
    requires k < |live| && Genuine(mem, live) && Stored(mem, mem', Off(live[k].start) + 4, len)
    ensures Genuine(mem', live[k := Extent(live[k].start, len)])
  {
    var live' := live[k := Extent(live[k].start, len)];
    forall b: nat | MagicAt(mem', b) ensures Starts(live', b) {
      SameMagic(mem, mem', b);
      var j :| 0 <= j < |live| && live[j].start == b;
      assert live'[j].start == b;
    }
  }

  lemma ExpandAtGenuine(s: State, live: seq<Extent>, k: nat, extra: nat)
    requires Inv(s, live) && k < |live| && CanExpand(s, live[k], extra) && Genuine(s.mem, live)
    ensures Genuine(ExpandAt(s, live, k, extra).0.mem, ExpandAt(s, live, k, extra).1)
  {
    hide Genuine, Paint, Store32, BitsOk;
    assert HeaderOk(s.base, s.mem, live, k);
    ExpandGenuine(s.mem, ExpandAt(s, live, k, extra).0.mem, live, k, live[k].len + extra);
  }

  lemma InteriorIsNoStart(live: seq<Extent>, total: nat, k: nat, b: nat)
    requires Laid(live, total) && k < |live| && live[k].start < b < live[k].start + live[k].len
    ensures !Starts(live, b)
  {
    forall j | 0 <= j < |live| ensures live[j].start != b {
      assert j != k ==> Apart(live[j], live[k]);
    }
  }

  /** memcpy carries byte 8 of a block inside the source to byte 8 of a block inside the target, and neither carries
      the magic. */
  lemma CopyGenuine(mem: seq<byte>, live: seq<Extent>, total: nat, k: nat)
    requires Laid(live, total) && |mem| == Off(total) && 0 < k < |live| && live[k].len <= live[0].len
    requires Genuine(mem, live)
    ensures Off(live[k].start) + 16 + UserSize(live[k]) <= |mem| && Off(live[0].start) + 16 + UserSize(live[k]) <= |mem|
    ensures Genuine(Blit(mem, Off(live[k].start) + 16, Off(live[0].start) + 16, UserSize(live[k])), live)
  {
    var d, e := live[0], live[k];
    assert Off(e.start) + 16 + UserSize(e) <= |mem| && Off(d.start) + 16 + UserSize(e) <= |mem|;
    var mem' := Blit(mem, Off(e.start) + 16, Off(d.start) + 16, UserSize(e));
    forall b: nat | MagicAt(mem', b) ensures Starts(live, b) {
      if d.start < b < d.start + e.len {
        var c := e.start + (b - d.start);
        InteriorIsNoStart(live, total, k, c);
        CopiedMagic(mem, d, e, b);
        assert false;
      } else {
        SameMagic(mem, mem', b);
      }
    }
  }

  lemma CopiedMagic(mem: seq<byte>, d: Extent, e: Extent, b: nat)
    requires e.len >= 1 && Off(d.start + e.len) <= |mem| && Off(e.start + e.len) <= |mem|
    requires d.start < b < d.start + e.len
    ensures MagicAt(Blit(mem, Off(e.start) + 16, Off(d.start) + 16, UserSize(e)), b) <==>
            MagicAt(mem, e.start + (b - d.start))
  {
    var mem', c := Blit(mem, Off(e.start) + 16, Off(d.start) + 16, UserSize(e)), e.start + (b - d.start);
    assert mem'[Off(b) + 8..Off(b) + 12] == mem[Off(c) + 8..Off(c) + 12];
    SameWord(mem, mem', Off(c) + 8, Off(b) + 8);
  }

  lemma SameWord(mem: seq<byte>, mem': seq<byte>, a: nat, b: nat)
    requires a + 4 <= |mem| && b + 4 <= |mem'| && mem[a..a + 4] == mem'[b..b + 4]
    ensures Load32(mem, a) == Load32(mem', b)
  {
    var w, w' := mem[a..a + 4], mem'[b..b + 4];
    assert w[0] == w'[0] && w[1] == w'[1] && w[2] == w'[2] && w[3] == w'[3];
  }

  lemma CopiedGenuine(s: State, live: seq<Extent>, k: nat)
    requires Inv(s, live) && 0 < k < |live| && live[k].len <= live[0].len && Genuine(s.mem, live)
    ensures Genuine(Copied(s, live, k).mem, live)
  {
    hide Genuine, Blit;
    CopyGenuine(s.mem, live, |s.bits|, k);
  }

  lemma MoveGenuine(s: State, live: seq<Extent>, k: nat, newSize: u32)
    requires Inv(s, live) && k < |live| && UserSize(live[k]) < newSize && newSize + 4111 < 0x1_0000_0000
    requires Genuine(s.mem, live)
    ensures var (s', live', _) := Move(s, live, k, newSize); Genuine(s'.mem, live')
  {
    hide Genuine, Alloc, Copied, FreeAt;
    HeadBound(s, live);
    assert WellSized(s);
    hide Inv;
    AllocKeepsInv(s, live, newSize);
    AllocGenuine(s, live, newSize);
    var (s1, live1, p) := Alloc(s, live, newSize);
    if p != 0 {
      AfterAlloc(s, live, k, newSize);
      CopiedGenuine(s1, live1, k + 1);
      FreeAtGenuine(Copied(s1, live1, k + 1), live1, k + 1);
    }
  }

  lemma ReallocGenuine(s: State, live: seq<Extent>, ptr: nat, newSize: u32)
    requires Inv(s, live) && newSize + 4111 < 0x1_0000_0000 && (ptr == 0 || Find(s.base, live, ptr) < |live|)
    requires Genuine(s.mem, live)
    ensures var (s', live', _) := Realloc(s, live, ptr, newSize); Genuine(s'.mem, live')
  {
    hide Genuine, Inv, Accepted, Alloc, FreeAt, Move, BlocksFor, ExpandAt, CanExpand;
    var k := Find(s.base, live, ptr);
    HeadBound(s, live);
    if ptr == 0 {
      AllocGenuine(s, live, newSize);
    } else if newSize == 0 {
      FreeAtGenuine(s, live, k);
    } else if newSize > UserSize(live[k]) {
      var extra := BlocksFor(newSize) - live[k].len;
      GrowsBy(live[k], newSize);
      if CanExpand(s, live[k], extra) {
        ExpandAtGenuine(s, live, k, extra);
      } else {
        MoveGenuine(s, live, k, newSize);
      }
    }
  }

  lemma HeadBound(s: State, live: seq<Extent>)
    requires Inv(s, live)
    ensures s.head < 0x1_0000_0000
  {
    NextPtrBound(s, live, 0);
  }

  lemma GrowsBy(e: Extent, newSize: u32)
    requires UserSize(e) < newSize && newSize + 4111 < 0x1_0000_0000
    ensures BlocksFor(newSize) >= e.len
  {
  }

  // ---------- clients ----------

  /** The write of v at user byte i of live[k] completes the magic at byte 8 of a block inside the allocation. */
  predicate Completes(s: State, live: seq<Extent>, k: nat, i: nat, v: byte)
    requires k < |live| && Off(live[k].start) + 16 + i < |s.mem|
  {
    var a := Off(live[k].start) + 16 + i;
    a / 4096 > live[k].start && MagicAt(s.mem[a := v], a / 4096)
  }

  predicate Forges(s: State, live: seq<Extent>, op: Op)
    requires Inv(s, live) && Legal(s, live, op)
  {
    op.DoWrite? && Completes(s, live, Find(s.base, live, op.ptr), op.i, op.v)
  }

  lemma WriteGenuineIff(mem: seq<byte>, live: seq<Extent>, total: nat, k: nat, i: nat, v: byte)
    requires Laid(live, total) && |mem| == Off(total) && k < |live| && i < UserSize(live[k]) && Genuine(mem, live)
    ensures var a := Off(live[k].start) + 16 + i;
      && a < |mem|
      && (Genuine(mem[a := v], live) <==> !(a / 4096 > live[k].start && MagicAt(mem[a := v], a / 4096)))
  {
    var a := Off(live[k].start) + 16 + i;
    assert a < Off(live[k].start + live[k].len) <= |mem|;
    var c, mem' := a / 4096, mem[a := v];
    if c > live[k].start {
      InteriorIsNoStart(live, total, k, c);
    }
    if !(c > live[k].start && MagicAt(mem', c)) {
      forall b: nat | MagicAt(mem', b) ensures Starts(live, b) {
        if b != c || c == live[k].start { SameMagic(mem, mem', b); }
      }
    }
  }

  /** Every operation, client writes included, keeps the condition, except exactly a write that completes the magic
      where an allocation could start. */
  lemma ApplyGenuineIff(s: State, live: seq<Extent>, op: Op)
    requires Inv(s, live) && Legal(s, live, op) && Genuine(s.mem, live)
    ensures Genuine(Apply(s, live, op).0.mem, Apply(s, live, op).1) <==> !Forges(s, live, op)
  {
    hide Genuine, Inv, Alloc, Free, Realloc, Accepted, Completes;
    match op
    case DoAlloc(size) => HeadBound(s, live); AllocGenuine(s, live, size);
    case DoFree(ptr) => FreeGenuine(s, live, ptr);
    case DoRealloc(ptr, newSize) => ReallocGenuine(s, live, ptr, newSize);
    case DoWrite(ptr, i, v) => StoreGenuineIff(s, live, Find(s.base, live, ptr), i, v);
  }

  lemma FreeGenuine(s: State, live: seq<Extent>, ptr: nat)
    requires Inv(s, live) && Genuine(s.mem, live)
    ensures Genuine(Free(s, live, ptr).0.mem, Free(s, live, ptr).1)
  {
    hide Genuine, Inv, FreeAt, Accepted;
    var k := Find(s.base, live, ptr);
    if k < |live| { FreeAtGenuine(s, live, k); }
  }

  lemma StoreGenuineIff(s: State, live: seq<Extent>, k: nat, i: nat, v: byte)
    requires Inv(s, live) && k < |live| && i < UserSize(live[k]) && Genuine(s.mem, live)
    ensures Off(live[k].start) + 16 + i < |s.mem|
    ensures Genuine(s.mem[Off(live[k].start) + 16 + i := v], live) <==> !Completes(s, live, k, i, v)
  {
    hide Genuine, MagicAt;
    WriteGenuineIff(s.mem, live, |s.bits|, k, i, v);
  }

  /** A client that frees what it likes as long as it is NULL, foreign, or a pointer that alloc could have returned at
      some time, and that forges no header. */
  predicate Honest(s: State, live: seq<Extent>, op: Op)
    requires Inv(s, live)
  {
    match op
    case DoFree(ptr) => InBounds(s, ptr) ==> (ptr - s.base) % 4096 == 16
    case _ => Legal(s, live, op) && !Forges(s, live, op)
  }

  lemma HonestIsLegal(s: State, live: seq<Extent>, op: Op)
    requires Inv(s, live) && Genuine(s.mem, live) && Honest(s, live, op)
    ensures Legal(s, live, op) && !Forges(s, live, op)
  {
    if op.DoFree? && Accepted(s, op.ptr) {
      var b := (op.ptr - s.base - 16) / 4096;
      assert op.ptr == BlockPtr(s.base, b);
      LiveStarts(s, live, b);
    }
  }

  /** Every operation is honest at the state it meets. */
  predicate HonestRun(s: State, live: seq<Extent>, ops: seq<Op>)
    requires Inv(s, live) && Genuine(s.mem, live)
    decreases |ops|
  {
    ops == [] ||
    (Honest(s, live, ops[0]) &&
     (HonestIsLegal(s, live, ops[0]); ApplyGenuineIff(s, live, ops[0]);
      HonestRun(Apply(s, live, ops[0]).0, Apply(s, live, ops[0]).1, ops[1..])))
  }

  /** Runs of honest clients are legal, and at their end the check still tells live block pointers from all others. */
  lemma {:induction false} HonestRunGuarded(s: State, live: seq<Extent>, ops: seq<Op>)
    requires Inv(s, live) && Genuine(s.mem, live) && HonestRun(s, live, ops)
    ensures LegalRun(s, live, ops)
    ensures var (s', live') := Run(s, live, ops);
      && Inv(s', live') && Genuine(s'.mem, live')
      && forall b: nat :: Accepted(s', BlockPtr(s'.base, b)) <==> IsLive(s', live', BlockPtr(s'.base, b))
    decreases |ops|
  {
    hide Genuine, Inv, Apply, Accepted, IsLive, Honest, Legal;
    if ops == [] {
      GuardIsExactIff(s, live);
    } else {
      HonestIsLegal(s, live, ops[0]);
      ApplyGenuineIff(s, live, ops[0]);
      HonestRunGuarded(Apply(s, live, ops[0]).0, Apply(s, live, ops[0]).1, ops[1..]);
    }
  }

  /** However long ago a block pointer was freed, and whatever honest clients did since: freeing it again changes
      nothing if and only if no allocation starts there by then. */
  lemma StaleFreeIff(s: State, live: seq<Extent>, ops: seq<Op>, b: nat)
    requires Inv(s, live) && Genuine(s.mem, live) && HonestRun(s, live, ops)
    ensures LegalRun(s, live, ops)
    ensures var (s', live') := Run(s, live, ops);
      var p := BlockPtr(s.base, b);
      Inv(s', live') && (Free(s', live', p) == (s', live') <==> !IsLive(s', live', p))
  {
    hide Genuine, Run, HonestRun, LegalRun, Inv, FreeAt;
    HonestRunGuarded(s, live, ops);
    RunKeepsBase(s, live, ops);
    var (s', live') := Run(s, live, ops);
    assert Accepted(s', BlockPtr(s'.base, b)) <==> IsLive(s', live', BlockPtr(s'.base, b));
  }

  lemma {:induction false} RunKeepsBase(s: State, live: seq<Extent>, ops: seq<Op>)
    requires Inv(s, live) && LegalRun(s, live, ops)
    ensures Run(s, live, ops).0.base == s.base
    decreases |ops|
  {
    hide Inv, Legal;
    if ops != [] { RunKeepsBase(Apply(s, live, ops[0]).0, Apply(s, live, ops[0]).1, ops[1..]); }
  }

  /** A pointer freed and handed out again names the new owner: after alloc, free and an alloc of the same size, its
      old owner's second free gives the new owner's blocks back. */
  lemma SecondFreeTakesNewOwner(s: State, live: seq<Extent>, size: u32)
    requires Inv(s, live) && size + 4111 < 0x1_0000_0000 && s.head < 0x1_0000_0000
    requires Alloc(s, live, size).2 != 0
    ensures var (s1, live1, p) := Alloc(s, live, size);
      && Inv(s1, live1)
      && var (s2, live2) := Free(s1, live1, p);
        && Inv(s2, live2) && s2.head < 0x1_0000_0000
        && var (s3, live3, q) := Alloc(s2, live2, size);
          && q == p && Inv(s3, live3) && live3 == live1
          && Free(s3, live3, p).1 == live && Free(s3, live3, p).0.bits == s.bits
  {
    var (s1, live1, p) := Alloc(s, live, size);
    AllocKeepsInv(s, live, size);
    FreeUndoesAlloc(s, live, size, live1[0], s1.mem);
    assert s1.(mem := s1.mem) == s1;
    var (s2, live2) := Free(s1, live1, p);
    FreeKeepsInv(s1, live1, p);
    AllocKeepsInv(s2, live2, size);
    var (s3, live3, q) := Alloc(s2, live2, size);
    FreeUndoesAlloc(s2, live2, size, live3[0], s3.mem);
    assert s3.(mem := s3.mem) == s3;
  }
}
