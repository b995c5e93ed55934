/** Reallocation, frames of every operation, and the laws relating them. */
module PoolRealloc {
  import opened Words
  import opened PoolSpec
  import opened PoolLemmas

  // ---------- pointers ----------

  lemma FindLive(base: nat, live: seq<Extent>, k: nat, total: nat)
    requires k < |live| && Laid(live, total)
    ensures Find(base, live, UserPtr(base, live[k])) == k
  {
  }

  lemma LiveAccepted(s: State, live: seq<Extent>, k: nat)
    requires Inv(s, live) && k < |live|
    ensures Accepted(s, UserPtr(s.base, live[k]))
  {
    assert HeaderOk(s.base, s.mem, live, k);
  }

  // ---------- frames ----------

  /** d keeps its place, its bytes and its header (list link apart). */
  ghost predicate Kept(s: State, s': State, live': seq<Extent>, d: Extent) {
    d in live' && SameUser(s.mem, s'.mem, d) && SameHeader(s.mem, s'.mem, d)
  }

  lemma PutHeaderFrame(s: State, mem': seq<byte>, live: seq<Extent>, e: Extent, next: nat)
    requires Inv(s, live) && Clear(s.bits, e.start, e.len) && e.len >= 1
    requires HeaderPut(s.mem, mem', e, next)
    ensures forall d :: d in live ==> SameUser(s.mem, mem', d) && SameHeader(s.mem, mem', d)
  {
    AllocLaid(s.bits, live, e);
  }

  lemma AllocFrame(s: State, live: seq<Extent>, size: u32)
    requires Inv(s, live) && size + 4111 < 0x1_0000_0000
    ensures s.head < 0x1_0000_0000
    ensures var (s', live', _) := Alloc(s, live, size);
      forall d :: d in live ==> Kept(s, s', live', d)
  {
    NextPtrBound(s, live, 0);
    var start := FirstFit(s.bits, BlocksFor(size), 0);
    if size != 0 && start != -1 {
      var e := Extent(start, BlocksFor(size));
      PutHeaderFrame(s, PutHeader(s.mem, e, s.head), live, e, s.head);
    }
  }

  lemma UnlinkFrame(mem: seq<byte>, m1: seq<byte>, mem': seq<byte>, live: seq<Extent>, k: nat, total: nat,
                    next: u32, j: nat)
    requires k < |live| && j < |live| && j != k && Laid(live, total) && |mem| == Off(total)
    requires if k == 0 then m1 == mem else Stored(mem, m1, Off(live[k - 1].start) + 12, next)
    requires Stored(m1, mem', Off(live[k].start) + 8, MAGIC_FREED)
    ensures SameUser(mem, mem', live[j]) && SameHeader(mem, mem', live[j])
  {
  }

  lemma FreeFrame(s: State, live: seq<Extent>, k: nat)
    requires Inv(s, live) && k < |live|
    ensures forall d :: d in live && d != live[k] ==> Kept(s, FreeAt(s, live, k), RemoveAt(live, k), d)
  {
    var next := NextPtr(s.base, live, k + 1);
    NextPtrBound(s, live, k + 1);
    var m1 := if k == 0 then s.mem else Store32(s.mem, Off(live[k - 1].start) + 12, next);
    forall d | d in live && d != live[k] ensures Kept(s, FreeAt(s, live, k), RemoveAt(live, k), d) {
      var j: nat :| j < |live| && live[j] == d;
      UnlinkFrame(s.mem, m1, FreeAt(s, live, k).mem, live, k, |s.bits|, next, j);
      assert RemoveAt(live, k)[if j < k then j else j - 1] == d;
    }
  }

  lemma ExpandFrame(s: State, live: seq<Extent>, k: nat, extra: nat)
    requires Inv(s, live) && k < |live| && CanExpand(s, live[k], extra)
    ensures var (s', live') := ExpandAt(s, live, k, extra);
      && (forall d :: d in live && d != live[k] ==> Kept(s, s', live', d))
      && SameUser(s.mem, s'.mem, live[k])
  {
    var (s', live') := ExpandAt(s, live, k, extra);
    forall d | d in live && d != live[k] ensures Kept(s, s', live', d) {
      var j: nat :| j < |live| && live[j] == d;
      assert Apart(live[j], live[k]);
      assert live'[j] == d;
    }
  }

  // ---------- realloc ----------

  /** memcpy of all user bytes of live[k] into the extent at the head of the list. */
  function Copied(s: State, live: seq<Extent>, k: nat): (r: State)
    requires Inv(s, live) && 0 < k < |live| && live[k].len <= live[0].len
    ensures Inv(r, live)
  {
    var mem' := Blit(s.mem, Off(live[k].start) + 16, Off(live[0].start) + 16, UserSize(live[k]));
    UserWriteKeepsInv(s, live, 0, mem');
    s.(mem := mem')
  }

  function Move(s: State, live: seq<Extent>, k: nat, newSize: u32): (r: (State, seq<Extent>, nat))
    requires Inv(s, live) && k < |live| && UserSize(live[k]) < newSize && newSize + 4111 < 0x1_0000_0000
    ensures Inv(r.0, r.1)
  {
    AllocKeepsInv(s, live, newSize);
    var (s1, live1, p) := Alloc(s, live, newSize);
    if p == 0 then (s, live, 0)
    else
      AfterAlloc(s, live, k, newSize);
      var s2 := Copied(s1, live1, k + 1);
      FreeAtKeepsInv(s2, live1, k + 1);
      (FreeAt(s2, live1, k + 1), RemoveAt(live1, k + 1), p)
  }

  /** The locked expansion attempt. */
  function TryExpand(s: State, live: seq<Extent>, k: nat, extra: nat): (r: (State, seq<Extent>, bool))
    requires Inv(s, live) && k < |live|
    ensures Inv(r.0, r.1)
  {
    if CanExpand(s, live[k], extra) then
      ExpandKeepsInv(s, live, k, extra);
      var (s', live') := ExpandAt(s, live, k, extra);
      (s', live', true)
    else (s, live, false)
  }

  /** Realloc of a live pointer to a non-zero size. */
  function ReallocAt(s: State, live: seq<Extent>, k: nat, newSize: u32): (r: (State, seq<Extent>, nat))
    requires Inv(s, live) && k < |live| && newSize + 4111 < 0x1_0000_0000
    ensures Inv(r.0, r.1)
  {
    var e := live[k];
    if newSize <= UserSize(e) then (s, live, UserPtr(s.base, e))
    else
      var (s', live', ok) := TryExpand(s, live, k, BlocksFor(newSize) - e.len);
      if ok then (s', live', UserPtr(s.base, e)) else Move(s, live, k, newSize)
  }

  function Realloc(s: State, live: seq<Extent>, ptr: nat, newSize: u32): (r: (State, seq<Extent>, nat))
    requires Inv(s, live) && newSize + 4111 < 0x1_0000_0000
    requires ptr == 0 || Find(s.base, live, ptr) < |live|
    ensures Inv(r.0, r.1)
  {
    if ptr == 0 then AllocKeepsInv(s, live, newSize); Alloc(s, live, newSize)
    else if newSize == 0 then
      FreeKeepsInv(s, live, ptr);
      var (s', live') := Free(s, live, ptr);
      (s', live', 0)
    else ReallocAt(s, live, Find(s.base, live, ptr), newSize)
  }

  /** After a successful allocation the old extents stand one place further down the list. */
  lemma AfterAlloc(s: State, live: seq<Extent>, k: nat, size: u32)
    requires Inv(s, live) && k < |live| && size + 4111 < 0x1_0000_0000
    requires s.head < 0x1_0000_0000 && Alloc(s, live, size).2 != 0
    ensures var (s', live', p) := Alloc(s, live, size);
      && Inv(s', live') && |live'| == |live| + 1
      && live'[k + 1] == live[k]
      && p == UserPtr(s.base, live'[0]) && s'.base == s.base
      && UserSize(live'[0]) >= size
      && Apart(live'[0], live[k])
      && |s'.bits| == |s.bits|
      && Find(s.base, live', UserPtr(s.base, live[k])) == k + 1
  {
    AllocKeepsInv(s, live, size);
    var (s', live', p) := Alloc(s, live, size);
    assert live'[k + 1] == live[k];
    assert Apart(live'[0], live'[k + 1]);
    FindLive(s.base, live', k + 1, |s'.bits|);
  }

  lemma CopiedFrame(s: State, live: seq<Extent>, k: nat)
    requires Inv(s, live) && 0 < k < |live| && live[k].len <= live[0].len
    ensures var s' := Copied(s, live, k);
      && SameOutside(s.mem, s'.mem, Off(live[0].start) + 16, Off(live[0].start + live[0].len))
      && CarriesOver(s.mem, live[k], s'.mem, live[0])
      && (forall d :: d in live && d != live[0] ==> Kept(s, s', live, d))
  {
  }

  /** The three frames of a move (allocate, copy, free) put together, on arbitrary memories. */
  lemma MoveFrames(s: State, s1: State, s2: State, s3: State, live: seq<Extent>, live1: seq<Extent>, k: nat, total: nat)
    requires k < |live| && |live1| == |live| + 1 && live1[1..] == live
    requires Laid(live1, total) && |s.mem| == |s1.mem| == |s2.mem| == |s3.mem| == Off(total)
    requires forall d :: d in live ==> Kept(s, s1, live1, d)
    requires forall d :: d in live1 && d != live1[0] ==> Kept(s1, s2, live1, d)
    requires forall d :: d in live1 && d != live1[k + 1] ==> Kept(s2, s3, RemoveAt(live1, k + 1), d)
    requires live[k].len <= live1[0].len
    requires CarriesOver(s1.mem, live[k], s2.mem, live1[0])
    ensures RemoveAt(live1, k + 1) == [live1[0]] + RemoveAt(live, k)
    ensures CarriesOver(s.mem, live[k], s3.mem, live1[0])
    ensures forall d :: d in live && d != live[k] ==> Kept(s, s3, RemoveAt(live1, k + 1), d)
  {
    assert live1[k + 1] == live[k];
    assert Apart(live1[0], live1[k + 1]);
    forall d | d in live && d != live[k] ensures Kept(s, s3, RemoveAt(live1, k + 1), d) {
      assert d in live1;
      var j: nat :| j < |live| && live[j] == d;
      assert live1[j + 1] == d && Apart(live1[0], live1[j + 1]);
      assert Kept(s, s1, live1, d) && Kept(s1, s2, live1, d) && Kept(s2, s3, RemoveAt(live1, k + 1), d);
    }
    assert live1[0] in live1 && live1[0] != live1[k + 1];
    MoveCarries(s, s1, s2, s3, live1, RemoveAt(live1, k + 1), live[k], live1[0]);
  }

  lemma MoveCarries(s: State, s1: State, s2: State, s3: State, live1: seq<Extent>, live3: seq<Extent>, e: Extent, d: Extent)
    requires |s.mem| == |s1.mem| == |s2.mem| == |s3.mem|
    requires 1 <= e.len <= d.len && Off(e.start + e.len) <= |s.mem| && Off(d.start + d.len) <= |s.mem|
    requires Kept(s, s1, live1, e) && Kept(s2, s3, live3, d) && CarriesOver(s1.mem, e, s2.mem, d)
    ensures CarriesOver(s.mem, e, s3.mem, d)
  {
    forall i | 16 <= i < Off(e.len) ensures ByteAt(s3.mem, d, i) == ByteAt(s.mem, e, i) {
      assert ByteAt(s2.mem, d, i) == ByteAt(s1.mem, e, i);
    }
  }

  /** A move that succeeds puts all old bytes into a fresh, larger extent apart from the old one;
      a move that fails changes nothing. */
  ghost predicate Moved(s: State, live: seq<Extent>, k: nat, newSize: u32, s': State, live': seq<Extent>, p: nat)
    requires k < |live|
  {
    && |live'| >= 1
    && live' == [live'[0]] + RemoveAt(live, k)
    && p == UserPtr(s.base, live'[0])
    && newSize <= UserSize(live'[0]) && Apart(live'[0], live[k])
    && CarriesOver(s.mem, live[k], s'.mem, live'[0])
    && (forall d :: d in live && d != live[k] ==> Kept(s, s', live', d))
  }

  lemma MoveContract(s: State, live: seq<Extent>, k: nat, newSize: u32)
    requires Inv(s, live) && k < |live| && UserSize(live[k]) < newSize && newSize + 4111 < 0x1_0000_0000
    ensures var (s', live', p) := Move(s, live, k, newSize);
      if p == 0 then s' == s && live' == live && FirstFit(s.bits, BlocksFor(newSize), 0) == -1
      else Moved(s, live, k, newSize, s', live', p)
  {
    AllocKeepsInv(s, live, newSize);
    var (s1, live1, p) := Alloc(s, live, newSize);
    if p != 0 {
      AfterAlloc(s, live, k, newSize);
      AllocFrame(s, live, newSize);
      CopiedFrame(s1, live1, k + 1);
      var s2 := Copied(s1, live1, k + 1);
      FreeAtKeepsInv(s2, live1, k + 1);
      FreeFrame(s2, live1, k + 1);
      MoveFrames(s, s1, s2, FreeAt(s2, live1, k + 1), live, live1, k, |s1.bits|);
    }
  }

  /** The promise of psram_pool_realloc: NULL leaves everything as it was; a pointer names a live extent that
      is large enough and starts with all the old bytes; every other allocation keeps place, header and bytes. */
  ghost predicate Reallocated(s: State, live: seq<Extent>, e: Extent, newSize: u32,
                              s': State, live': seq<Extent>, p: nat)
  {
    && (p == 0 ==> s' == s && live' == live && newSize > UserSize(e))
    && (p != 0 ==> exists e' :: e' in live' && p == UserPtr(s.base, e') && newSize <= UserSize(e') &&
                                CarriesOver(s.mem, e, s'.mem, e'))
    && (forall d :: d in live && d != e ==> Kept(s, s', live', d))
    && |live'| == |live|
  }

  lemma ExpandContract(s: State, live: seq<Extent>, k: nat, newSize: u32, extra: nat)
    requires Inv(s, live) && k < |live| && CanExpand(s, live[k], extra)
    requires newSize <= UserSize(Extent(live[k].start, live[k].len + extra))
    ensures var (s', live') := ExpandAt(s, live, k, extra);
      Reallocated(s, live, live[k], newSize, s', live', UserPtr(s.base, live[k]))
  {
    ExpandKeepsInv(s, live, k, extra);
    ExpandFrame(s, live, k, extra);
    var (s', live') := ExpandAt(s, live, k, extra);
    assert live'[k] in live';
    assert CarriesOver(s.mem, live[k], s'.mem, live'[k]);
  }

  lemma MovedReallocates(s: State, live: seq<Extent>, k: nat, newSize: u32, s': State, live': seq<Extent>, p: nat)
    requires k < |live| && s.base > 0 && Moved(s, live, k, newSize, s', live', p)
    ensures Reallocated(s, live, live[k], newSize, s', live', p)
  {
  }

  lemma ReallocAtContract(s: State, live: seq<Extent>, k: nat, newSize: u32)
    requires Inv(s, live) && k < |live| && newSize + 4111 < 0x1_0000_0000
    ensures var (s', live', p) := ReallocAt(s, live, k, newSize);
      Reallocated(s, live, live[k], newSize, s', live', p)
  {
    hide Reallocated, Moved, Blit, FirstFit, Paint;
    var e := live[k];
    var extra := BlocksFor(newSize) - e.len;
    if newSize <= UserSize(e) {
      NoOpContract(s, live, k, newSize);
    } else if CanExpand(s, e, extra) {
      ExpandContract(s, live, k, newSize, extra);
    } else {
      MoveContract(s, live, k, newSize);
      var (s', live', p) := Move(s, live, k, newSize);
      if p != 0 { MovedReallocates(s, live, k, newSize, s', live', p); } else { RefusedContract(s, live, e, newSize); }
    }
  }

  lemma RefusedContract(s: State, live: seq<Extent>, e: Extent, newSize: u32)
    requires Inv(s, live) && newSize > UserSize(e)
    ensures Reallocated(s, live, e, newSize, s, live, 0)
  {
  }

  lemma NoOpContract(s: State, live: seq<Extent>, k: nat, newSize: u32)
    requires Inv(s, live) && k < |live| && newSize <= UserSize(live[k])
    ensures Reallocated(s, live, live[k], newSize, s, live, UserPtr(s.base, live[k]))
  {
  }

  lemma ReallocContract(s: State, live: seq<Extent>, k: nat, newSize: u32)
    requires Inv(s, live) && k < |live| && 0 < newSize && newSize + 4111 < 0x1_0000_0000
    ensures Find(s.base, live, UserPtr(s.base, live[k])) == k
    ensures var (s', live', p) := Realloc(s, live, UserPtr(s.base, live[k]), newSize);
      Inv(s', live') && Reallocated(s, live, live[k], newSize, s', live', p)
  {
    FindLive(s.base, live, k, |s.bits|);
    ReallocAtContract(s, live, k, newSize);
  }

  // ---------- the steps of realloc as the methods take them ----------

  function Memcpy(s: State, dst: nat, src: nat, n: nat): State
    requires dst + n <= |s.mem| && src + n <= |s.mem|
  {
    s.(mem := Blit(s.mem, src, dst, n))
  }

  /** The copy stays inside the pool and its source and target are apart. */
  predicate CopyFits(s: State, p: nat, ptr: nat, n: int) {
    && n >= 0 && s.base <= p && s.base <= ptr
    && p - s.base + n <= |s.mem| && ptr - s.base + n <= |s.mem|
    && (p + n <= ptr || ptr + n <= p)
  }

  lemma CopyReady(s: State, live: seq<Extent>, k: nat)
    requires Inv(s, live) && 0 < k < |live| && live[k].len <= live[0].len
    ensures var p, ptr, n := UserPtr(s.base, live[0]), UserPtr(s.base, live[k]), UserSize(live[k]);
      && CopyFits(s, p, ptr, n)
      && Memcpy(s, p - s.base, ptr - s.base, n) == Copied(s, live, k) && Copied(s, live, k).base == s.base
      && Find(s.base, live, ptr) == k && Accepted(Copied(s, live, k), ptr)
  {
    hide Blit, Accepted, Find, CopyFits;
    assert WellSized(s) && Laid(live, |s.bits|);
    hide Inv;
    ApartFits(s, live, k);
    FindLive(s.base, live, k, |s.bits|);
    CopiedAccepted(s, live, k);
  }

  lemma ApartFits(s: State, live: seq<Extent>, k: nat)
    requires WellSized(s) && Laid(live, |s.bits|) && 0 < k < |live| && live[k].len <= live[0].len
    ensures CopyFits(s, UserPtr(s.base, live[0]), UserPtr(s.base, live[k]), UserSize(live[k]))
  {
    assert Apart(live[0], live[k]);
  }

  lemma CopiedAccepted(s: State, live: seq<Extent>, k: nat)
    requires Inv(s, live) && 0 < k < |live| && live[k].len <= live[0].len
    ensures Accepted(Copied(s, live, k), UserPtr(s.base, live[k])) && Copied(s, live, k).base == s.base
  {
    LiveAccepted(Copied(s, live, k), live, k);
  }

  lemma BeforeCopy(s: State, live: seq<Extent>, k: nat, newSize: u32, s1: State, live1: seq<Extent>, p: nat)
    requires Inv(s, live) && k < |live| && UserSize(live[k]) < newSize && newSize + 4111 < 0x1_0000_0000
    requires s.head < 0x1_0000_0000 &&
             var r := Alloc(s, live, newSize); s1 == r.0 && live1 == r.1 && p == r.2
    ensures p == 0 ==> var r := Move(s, live, k, newSize); r.0 == s1 && r.1 == live1 && r.2 == 0
    ensures p != 0 ==> s1.base == s.base && CopyFits(s1, p, UserPtr(s.base, live[k]), UserSize(live[k]))
  {
    hide Blit, PutHeader, FirstFit, BlocksFor, Paint, Detached, CopyFits, Memcpy, FreeAt, RemoveAt, Copied;
    AllocKeepsInv(s, live, newSize);
    if p != 0 {
      AfterAlloc(s, live, k, newSize);
      CopyReady(s1, live1, k + 1);
    }
  }

  /** Allocate, memcpy, free is Move. */
  lemma AfterCopy(s: State, live: seq<Extent>, k: nat, newSize: u32, s1: State, live1: seq<Extent>, p: nat, s2: State)
    requires Inv(s, live) && k < |live| && UserSize(live[k]) < newSize && newSize + 4111 < 0x1_0000_0000
    requires s.head < 0x1_0000_0000 &&
             var r := Alloc(s, live, newSize); s1 == r.0 && live1 == r.1 && p == r.2 && p != 0
    requires CopyFits(s1, p, UserPtr(s.base, live[k]), UserSize(live[k]))
    requires s2 == Memcpy(s1, p - s1.base, UserPtr(s.base, live[k]) - s1.base, UserSize(live[k]))
    ensures Inv(s2, live1) && Find(s2.base, live1, UserPtr(s.base, live[k])) < |live1|
    ensures var r := Free(s2, live1, UserPtr(s.base, live[k]));
      var m := Move(s, live, k, newSize);
      m.0 == r.0 && m.1 == r.1 && m.2 == p && Inv(r.0, r.1)
  {
    hide Blit, Alloc, CopyFits, Memcpy, FreeAt, RemoveAt, Copied, Accepted, Find, UserPtr;
    assert WellSized(s);
    hide Inv;
    AllocKeepsInv(s, live, newSize);
    AfterAlloc(s, live, k, newSize);
    CopyReady(s1, live1, k + 1);
  }
}
