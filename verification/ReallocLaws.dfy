/** What psram_pool_realloc returns and does, case by case, in terms of the bitmap, the list and the request
    (src/psram_pool.c:254-301). */
module ReallocLaws {
  import opened Words
  import opened PoolSpec
  import opened PoolLemmas
  import opened PoolRealloc
  import opened PoolLaws
  import opened PoolRuns

  /** n blocks cover a request of `size` bytes with its header, and fewer do not. */
  predicate Needs(size: nat, n: nat) {
    n >= 1 && 4096 * (n - 1) < 16 + size <= 4096 * n
  }

  lemma NeedsBlocks(size: u32, n: nat)
    requires size + 4111 < 0x1_0000_0000
    ensures Needs(size, n) <==> n == BlocksFor(size)
  {
  }

  /** alloc(0) is NULL and changes nothing; any other request is granted exactly when it fits the longest free run. */
  lemma AllocResult(s: State, live: seq<Extent>, size: u32, run: nat)
    requires Inv(s, live) && size + 4111 < 0x1_0000_0000 && LongestRun(s.bits, run)
    ensures s.head < 0x1_0000_0000
    ensures var r := Alloc(s, live, size);
      && (r.2 != 0 <==> 0 < size && 16 + size <= 4096 * run)
      && (r.2 == 0 ==> r.0 == s && r.1 == live)
      && (r.2 != 0 ==> Granted(s, live, size, r.0, r.1, r.2))
  {
    AllocKeepsInv(s, live, size);
    if size > 0 { AllocSucceedsIff(s, live, size, run); }
    if Alloc(s, live, size).2 != 0 {
      AllocIsFirstFit(s, live, size);
      AllocFrame(s, live, size);
      GrantedFacts(s, live, size);
    }
  }

  /** p names a fresh extent at the head of the list, on blocks that were free, large enough and with less than a block
      to spare; nothing else has changed. */
  ghost predicate Granted(s: State, live: seq<Extent>, size: nat, s': State, live': seq<Extent>, p: nat) {
    && Inv(s', live') && |live'| == |live| + 1 && live'[1..] == live
    && var e := live'[0];
      && p == UserPtr(s.base, e) && Needs(size, e.len) && Clear(s.bits, e.start, e.len)
      && forall d :: d in live ==> Kept(s, s', live', d)
  }

  lemma GrantedFacts(s: State, live: seq<Extent>, size: u32)
    requires Inv(s, live) && size + 4111 < 0x1_0000_0000 && s.head < 0x1_0000_0000 && Alloc(s, live, size).2 != 0
    ensures var r := Alloc(s, live, size);
      && |r.1| == |live| + 1 && r.1[1..] == live && r.2 == UserPtr(s.base, r.1[0]) && Needs(size, r.1[0].len)
      && Clear(s.bits, r.1[0].start, r.1[0].len)
  {
    hide PutHeader, Paint;
  }

  /** realloc(NULL, size) is alloc(size): granted exactly when the request is not empty and fits the longest free run. */
  lemma ReallocOfNull(s: State, live: seq<Extent>, size: u32, run: nat)
    requires Inv(s, live) && size + 4111 < 0x1_0000_0000 && LongestRun(s.bits, run)
    ensures var r := Realloc(s, live, 0, size);
      && (r.2 != 0 <==> 0 < size && 16 + size <= 4096 * run)
      && (r.2 == 0 ==> r.0 == s && r.1 == live)
      && (r.2 != 0 ==> Granted(s, live, size, r.0, r.1, r.2))
  {
    hide Alloc, Granted, Inv;
    AllocResult(s, live, size, run);
  }

  /** The extent e is given back: exactly its bits become clear, the counter drops by its length, every other allocation
      is kept. */
  ghost predicate GivenBack(s: State, live: seq<Extent>, k: nat, s': State, live': seq<Extent>)
    requires k < |live|
  {
    && Inv(s', live') && live' == live[..k] + live[k + 1..]
    && Find(s.base, live', UserPtr(s.base, live[k])) == |live'|
    && |s'.bits| == |s.bits|
    && (forall i :: 0 <= i < |s.bits| ==> (s'.bits[i] <==> s.bits[i] && !InExtent(live[k], i)))
    && s'.used == s.used - live[k].len && s'.base == s.base
    && forall d :: d in live && d != live[k] ==> Kept(s, s', live', d)
  }

  /** free of a live pointer gives exactly its extent back. */
  lemma FreeResult(s: State, live: seq<Extent>, k: nat)
    requires Inv(s, live) && k < |live|
    ensures var r := Free(s, live, UserPtr(s.base, live[k])); GivenBack(s, live, k, r.0, r.1)
  {
    hide Inv, Detached, Kept, Accepted, Find;
    InvShape(s, live);
    FindLive(s.base, live, k, |s.bits|);
    LiveAccepted(s, live, k);
    FreeAtKeepsInv(s, live, k);
    FreeFrame(s, live, k);
    GoneFrom(s.base, live, k, |s.bits|);
  }

  lemma GoneFrom(base: nat, live: seq<Extent>, k: nat, total: nat)
    requires Laid(live, total) && k < |live|
    ensures Find(base, RemoveAt(live, k), UserPtr(base, live[k])) == |live| - 1
  {
    var live' := RemoveAt(live, k);
    forall j | 0 <= j < |live'| ensures UserPtr(base, live'[j]) != UserPtr(base, live[k]) {
      var i := if j < k then j else j + 1;
      assert live'[j] == live[i] && Apart(live[i], live[k]);
    }
  }

  /** realloc(ptr, 0) of a live pointer frees it and returns NULL. */
  lemma ReallocToNothing(s: State, live: seq<Extent>, k: nat)
    requires Inv(s, live) && k < |live|
    ensures Find(s.base, live, UserPtr(s.base, live[k])) == k
    ensures var r := Realloc(s, live, UserPtr(s.base, live[k]), 0); r.2 == 0 && GivenBack(s, live, k, r.0, r.1)
  {
    hide Inv, Free, GivenBack;
    assert WellSized(s) && Laid(live, |s.bits|) by { InvShape(s, live); }
    FindLive(s.base, live, k, |s.bits|);
    FreeResult(s, live, k);
  }

  lemma InvShape(s: State, live: seq<Extent>)
    requires Inv(s, live)
    ensures WellSized(s) && Laid(live, |s.bits|) && s.head < 0x1_0000_0000
  {
    NextPtrBound(s, live, 0);
  }

  /** live[k] has grown in place to n blocks. */
  ghost predicate Grown(s: State, live: seq<Extent>, k: nat, n: nat, s': State, live': seq<Extent>)
    requires k < |live|
  {
    var e := live[k];
    && live' == live[k := Extent(e.start, n)] && s'.used == s.used + n - e.len && |s'.bits| == |s.bits|
    && forall i :: 0 <= i < |s.bits| ==> (s'.bits[i] <==> s.bits[i] || InExtent(Extent(e.start, n), i))
  }

  /** live[k] has moved to n blocks that were free, at the head of the list. */
  ghost predicate MovedTo(s: State, live: seq<Extent>, k: nat, n: nat, s': State, live': seq<Extent>, p: nat)
    requires k < |live|
  {
    && |live'| == |live| && live'[1..] == live[..k] + live[k + 1..]
    && live'[0].len == n && p == UserPtr(s.base, live'[0]) && Clear(s.bits, live'[0].start, n)
    && |s'.bits| == |s.bits| && s'.used == s.used + n - live[k].len
    && forall i :: 0 <= i < |s.bits| ==>
         (s'.bits[i] <==> InExtent(live'[0], i) || (s.bits[i] && !InExtent(live[k], i)))
  }

  /** Which of its four outcomes a realloc to a non-zero size has, for all states and sizes: nothing if the allocation is
      large enough already; growth in place if the blocks behind it that are missing are free; else a move, or NULL
      exactly when no free run is long enough. */
  lemma ReallocDecides(s: State, live: seq<Extent>, k: nat, newSize: u32, n: nat, run: nat)
    requires Inv(s, live) && k < |live| && 0 < newSize && newSize + 4111 < 0x1_0000_0000
    requires Needs(newSize, n) && LongestRun(s.bits, run)
    ensures Find(s.base, live, UserPtr(s.base, live[k])) == k
    ensures var e, ptr := live[k], UserPtr(s.base, live[k]);
      var r := Realloc(s, live, ptr, newSize);
      if n <= e.len then r.0 == s && r.1 == live && r.2 == ptr
      else if Clear(s.bits, e.start + e.len, n - e.len) then r.2 == ptr && Grown(s, live, k, n, r.0, r.1)
      else if n <= run then r.2 != 0 && r.2 != ptr && MovedTo(s, live, k, n, r.0, r.1, r.2)
      else r.2 == 0 && r.0 == s && r.1 == live
  {
    hide Inv, TryExpand, Move, Grown, MovedTo, BlocksFor, Needs, UserSize;
    InvShape(s, live);
    FindLive(s.base, live, k, |s.bits|);
    NeedsBlocks(newSize, n);
    Enough(live[k], newSize, n);
    if n > live[k].len {
      ExpandResult(s, live, k, n);
      if !Clear(s.bits, live[k].start + live[k].len, n - live[k].len) { MoveResult(s, live, k, newSize, n, run); }
    }
  }

  lemma Enough(e: Extent, size: nat, n: nat)
    requires Needs(size, n)
    ensures size <= UserSize(e) <==> n <= e.len
  {
  }

  lemma ExpandResult(s: State, live: seq<Extent>, k: nat, n: nat)
    requires Inv(s, live) && k < |live| && n > live[k].len
    ensures var r := PoolRealloc.TryExpand(s, live, k, n - live[k].len);
      && (r.2 <==> Clear(s.bits, live[k].start + live[k].len, n - live[k].len))
      && (r.2 ==> Grown(s, live, k, n, r.0, r.1))
  {
    var e := live[k];
    assert forall i :: InExtent(e, i) && 0 <= i < |s.bits| ==> Covered(live, i);
    hide Covered, HeadersOk, Laid, Store32, Stored;
  }

  lemma MoveResult(s: State, live: seq<Extent>, k: nat, newSize: u32, n: nat, run: nat)
    requires Inv(s, live) && k < |live| && UserSize(live[k]) < newSize && newSize + 4111 < 0x1_0000_0000
    requires n == BlocksFor(newSize) && LongestRun(s.bits, run)
    ensures var r := Move(s, live, k, newSize);
      if n <= run then r.2 != 0 && r.2 != UserPtr(s.base, live[k]) && MovedTo(s, live, k, n, r.0, r.1, r.2)
      else r.2 == 0 && r.0 == s && r.1 == live
  {
    hide Inv, Alloc, Granted, MovedTo, Blit, BlocksFor, FreeAt, LongestRun, Copied;
    InvShape(s, live);
    assert 0 < newSize;
    AllocResult(s, live, newSize, run);
    NeedsRun(newSize, n, run);
    var r := Alloc(s, live, newSize);
    if r.2 != 0 {
      AllocKeepsInv(s, live, newSize);
      AfterAlloc(s, live, k, newSize);
      MovedBits(s, live, k, newSize, n);
    }
  }

  lemma NeedsRun(size: u32, n: nat, run: nat)
    requires size + 4111 < 0x1_0000_0000 && n == BlocksFor(size)
    ensures n <= run <==> 16 + size <= 4096 * run
  {
  }

  lemma MovedBits(s: State, live: seq<Extent>, k: nat, newSize: u32, n: nat)
    requires Inv(s, live) && k < |live| && UserSize(live[k]) < newSize && newSize + 4111 < 0x1_0000_0000
    requires n == BlocksFor(newSize) && s.head < 0x1_0000_0000 && Alloc(s, live, newSize).2 != 0
    ensures var r := Move(s, live, k, newSize);
      r.2 != 0 && r.2 != UserPtr(s.base, live[k]) && MovedTo(s, live, k, n, r.0, r.1, r.2)
  {
    hide Blit, PutHeader, FirstFit, BlocksFor, Detached, Covered, HeadersOk, BitsOk;
    AllocKeepsInv(s, live, newSize);
    AfterAlloc(s, live, k, newSize);
    AllocIsFirstFit(s, live, newSize);
    hide Alloc;
    assert live[k] in live;
  }

  // ---------- the operations of a run ----------

  /** In a run, an allocation is granted exactly when it fits. */
  lemma RunAllocs(s: State, live: seq<Extent>, size: u32, run: nat)
    requires Inv(s, live) && Legal(s, live, DoAlloc(size)) && LongestRun(s.bits, run)
    ensures var r := Apply(s, live, DoAlloc(size));
      if 0 < size && 16 + size <= 4096 * run then
        exists p: nat :: Granted(s, live, size, r.0, r.1, p)
      else r.0 == s && r.1 == live
  {
    hide Inv, Alloc, Granted, LongestRun;
    InvShape(s, live);
    AllocResult(s, live, size, run);
    var r, a := Alloc(s, live, size), Apply(s, live, DoAlloc(size));
    assert a.0 == r.0 && a.1 == r.1;
    assert r.2 != 0 ==> Granted(s, live, size, a.0, a.1, r.2);
  }

  /** A free gives exactly the extent of a live pointer back, and changes nothing for any other pointer. */
  lemma RunFrees(s: State, live: seq<Extent>, ptr: u32)
    requires Inv(s, live) && Legal(s, live, DoFree(ptr))
    ensures var r, k := Apply(s, live, DoFree(ptr)), Find(s.base, live, ptr);
      if k < |live| then GivenBack(s, live, k, r.0, r.1) else r.0 == s && r.1 == live
  {
    hide Inv, GivenBack, Find, FreeAt;
    var k := Find(s.base, live, ptr);
    if k < |live| { FreeResult(s, live, k); }
  }

  /** A client's write is read back where it was made, and nowhere else. */
  lemma RunWrites(s: State, live: seq<Extent>, ptr: u32, i: nat, v: byte)
    requires Inv(s, live) && Legal(s, live, DoWrite(ptr, i, v))
    ensures var r, k := Apply(s, live, DoWrite(ptr, i, v)), Find(s.base, live, ptr);
      && r.1 == live && 1 <= live[k].len && Off(live[k].start + live[k].len) <= |s.mem| == |r.0.mem|
      && i < |UserData(s, live[k])| && UserData(r.0, live[k]) == UserData(s, live[k])[i := v]
      && SameOutside(s.mem, r.0.mem, Off(live[k].start) + 16 + i, Off(live[k].start) + 16 + i + 1)
  {
    hide HeadersOk, BitsOk;
  }

  /** A realloc in a run is the realloc whose outcomes ReallocOfNull, ReallocToNothing and ReallocDecides give. */
  lemma RunReallocs(s: State, live: seq<Extent>, ptr: u32, newSize: u32)
    requires Inv(s, live) && Legal(s, live, DoRealloc(ptr, newSize))
    ensures Apply(s, live, DoRealloc(ptr, newSize)).0 == Realloc(s, live, ptr, newSize).0
    ensures Apply(s, live, DoRealloc(ptr, newSize)).1 == Realloc(s, live, ptr, newSize).1
  {
    hide Inv, Realloc;
  }
}
