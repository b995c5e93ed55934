/** Laws of the pool: what the concrete state determines, when allocation succeeds,
    what free undoes, and safety over whole runs of client operations. */
module PoolLaws {
  import opened Words
  import opened PoolSpec
  import opened PoolLemmas
  import opened PoolRealloc

  // ---------- the state determines its extents ----------

  /** One header, read from the address where both lists have their k-th, says what stands there and where the next is. */
  lemma SameHeaderAt(s: State, l: seq<Extent>, l': seq<Extent>, k: nat)
    requires Inv(s, l) && Inv(s, l') && k < |l| && NextPtr(s.base, l, k) == NextPtr(s.base, l', k)
    ensures k < |l'| && l[k] == l'[k] && NextPtr(s.base, l, k + 1) == NextPtr(s.base, l', k + 1)
  {
    hide Load32, BitsOk, Laid;
    assert HeaderOk(s.base, s.mem, l, k);
    assert k < |l'| ==> HeaderOk(s.base, s.mem, l', k);
  }

  lemma {:induction false} SamePrefix(s: State, l: seq<Extent>, l': seq<Extent>, k: nat)
    requires Inv(s, l) && Inv(s, l') && k <= |l|
    ensures k <= |l'| && l[..k] == l'[..k] && NextPtr(s.base, l, k) == NextPtr(s.base, l', k)
  {
    if k > 0 {
      SamePrefix(s, l, l', k - 1);
      SameHeaderAt(s, l, l', k - 1);
      hide Inv, NextPtr;
      assert l[..k] == l[..k - 1] + [l[k - 1]] && l'[..k] == l'[..k - 1] + [l'[k - 1]];
    }
  }

  /** Walking the header list through memory meets the live extents, each once, and nothing else:
      two readings of one state agree. */
  lemma LiveUnique(s: State, l: seq<Extent>, l': seq<Extent>)
    requires Inv(s, l) && Inv(s, l')
    ensures l == l'
  {
    SamePrefix(s, l, l', |l|);
    SamePrefix(s, l', l, |l'|);
  }

  // ---------- the counter counts ----------

  lemma {:induction false} PopCountPaint(bits: seq<bool>, lo: nat, hi: nat)
    requires lo <= hi <= |bits| && forall i :: lo <= i < hi ==> bits[i]
    ensures PopCount(Paint(bits, lo, hi, false)) == PopCount(bits) - (hi - lo)
  {
    var n := |bits|;
    var p := Paint(bits, lo, hi, false);
    if n == 0 {
      assert p == bits;
    } else if hi == n && lo < hi {
      PopCountPaint(bits[..n - 1], lo, hi - 1);
      assert p[..n - 1] == Paint(bits[..n - 1], lo, hi - 1, false);
    } else if lo == hi {
      assert p == bits;
    } else {
      PopCountPaint(bits[..n - 1], lo, hi);
      assert p[..n - 1] == Paint(bits[..n - 1], lo, hi, false);
    }
  }

  lemma {:induction false} PopCountClear(bits: seq<bool>)
    requires forall i :: 0 <= i < |bits| ==> !bits[i]
    ensures PopCount(bits) == 0
  {
    if bits != [] { PopCountClear(bits[..|bits| - 1]); }
  }

  lemma {:induction false} PopCountLive(bits: seq<bool>, live: seq<Extent>)
    requires Laid(live, |bits|) && BitsOk(bits, live)
    ensures PopCount(bits) == TotalLen(live)
    decreases |live|
  {
    hide BitsOk, Laid, Paint, PopCount, RemoveAt;
    if live == [] {
      NothingLive(bits);
    } else {
      var e := live[0];
      FirstIsSet(bits, live);
      RemoveBits(bits, live, 0);
      PopCountLive(Paint(bits, e.start, e.start + e.len, false), live[1..]);
      PopCountPaint(bits, e.start, e.start + e.len);
    }
  }

  lemma NothingLive(bits: seq<bool>)
    requires BitsOk(bits, [])
    ensures PopCount(bits) == 0
  {
    hide PopCount;
    PopCountClear(bits);
  }

  lemma FirstIsSet(bits: seq<bool>, live: seq<Extent>)
    requires live != [] && Laid(live, |bits|) && BitsOk(bits, live)
    ensures live[0].start + live[0].len <= |bits| && Laid(live[1..], |bits|) && RemoveAt(live, 0) == live[1..]
    ensures forall i :: live[0].start <= i < live[0].start + live[0].len ==> bits[i]
  {
    forall i | live[0].start <= i < live[0].start + live[0].len ensures bits[i] { assert InExtent(live[0], i); }
  }

  /** used_blocks is at once the number of set bits and the sum of num_blocks over the list. */
  lemma UsedIsPopCount(s: State, live: seq<Extent>)
    requires Inv(s, live)
    ensures s.used == PopCount(s.bits) == TotalLen(live)
  {
    PopCountLive(s.bits, live);
  }

  // ---------- when allocation succeeds ----------

  /** alloc returns non-NULL exactly when header plus request fit in the longest free run. */
  lemma AllocSucceedsIff(s: State, live: seq<Extent>, size: u32, run: nat)
    requires Inv(s, live) && 0 < size && size + 4111 < 0x1_0000_0000 && LongestRun(s.bits, run)
    ensures s.head < 0x1_0000_0000
    ensures Alloc(s, live, size).2 != 0 <==> 16 + size <= 4096 * run
  {
    NextPtrBound(s, live, 0);
    var n := BlocksFor(size);
    BlocksForCovers(size);
    if n <= run {
      var lo: nat :| Clear(s.bits, lo, run);
      assert Clear(s.bits, lo, n);
    }
  }

  /** The extent handed out is the lowest one: no earlier block starts a large enough free run. */
  lemma AllocIsFirstFit(s: State, live: seq<Extent>, size: u32)
    requires Inv(s, live) && size + 4111 < 0x1_0000_0000 && s.head < 0x1_0000_0000
    requires Alloc(s, live, size).2 != 0
    ensures var live' := Alloc(s, live, size).1;
      && |live'| == |live| + 1
      && var e := live'[0];
        && Clear(s.bits, e.start, e.len)
        && UserSize(e) - 4096 < size <= UserSize(e)
        && (forall q: nat :: q < e.start ==> !Clear(s.bits, q, e.len))
        && Alloc(s, live, size) == Place(s, live, e)
  {
    hide BlocksFor, PutHeader;
  }

  // ---------- what free undoes ----------

  /** s3 is s again, but for bytes inside the extent e. */
  ghost predicate Restored(s: State, s3: State, e: Extent) {
    && s3.base == s.base && s3.bits == s.bits && s3.used == s.used && s3.head == s.head
    && SameOutside(s.mem, s3.mem, Off(e.start), Off(e.start + e.len))
  }

  lemma FreeHead(s: State, s2: State, live: seq<Extent>, e: Extent)
    requires Inv(s2, [e] + live) && Clear(s.bits, e.start, e.len)
    requires s2.base == s.base && s2.used == s.used + e.len && s.head == NextPtr(s.base, live, 0)
    requires s2.bits == Paint(s.bits, e.start, e.start + e.len, true)
    requires SameOutside(s.mem, s2.mem, Off(e.start), Off(e.start + e.len))
    ensures Find(s2.base, [e] + live, UserPtr(s.base, e)) == 0 && Accepted(s2, UserPtr(s.base, e))
    ensures Restored(s, FreeAt(s2, [e] + live, 0), e) && RemoveAt([e] + live, 0) == live
  {
    hide HeadersOk, BitsOk, Find, Accepted, FreeAt, Restored, RemoveAt;
    assert ([e] + live)[0] == e;
    FindLive(s.base, [e] + live, 0, |s2.bits|);
    LiveAccepted(s2, [e] + live, 0);
    assert e.len >= 1;
    RemoveHead(live, e);
    RestoredState(s, s2, FreeAt(s2, [e] + live, 0), live, e);
  }

  lemma RemoveHead(live: seq<Extent>, e: Extent)
    ensures RemoveAt([e] + live, 0) == live
  {
  }

  lemma RestoredState(s: State, s2: State, s3: State, live: seq<Extent>, e: Extent)
    requires Inv(s2, [e] + live) && s3 == FreeAt(s2, [e] + live, 0) && e.len >= 1 && Clear(s.bits, e.start, e.len)
    requires s2.base == s.base && s2.used == s.used + e.len && s.head == NextPtr(s.base, live, 0)
    requires s2.bits == Paint(s.bits, e.start, e.start + e.len, true)
    requires SameOutside(s.mem, s2.mem, Off(e.start), Off(e.start + e.len))
    ensures Restored(s, s3, e)
  {
    hide HeadersOk, BitsOk, Paint, SameOutside, Store32, Stored;
    assert ([e] + live)[0] == e && NextPtr(s.base, [e] + live, 1) == NextPtr(s.base, live, 0);
    RestoredBits(s.bits, e);
    RestoredMem(s.mem, s2.mem, Store32(s2.mem, Off(e.start) + 8, MAGIC_FREED), e);
  }

  lemma FreeUndoesPlace(s: State, live: seq<Extent>, e: Extent, mem1: seq<byte>, mem': seq<byte>)
    requires Inv(s, live) && e.len >= 1 && Clear(s.bits, e.start, e.len)
    requires HeaderPut(s.mem, mem1, e, s.head)
    requires SameOutside(mem1, mem', Off(e.start) + 16, Off(e.start + e.len))
    ensures var s2 := State(s.base, Paint(s.bits, e.start, e.start + e.len, true), s.used + e.len,
                            HeaderAddr(s.base, e), mem');
      && Inv(s2, [e] + live)
      && Find(s2.base, [e] + live, UserPtr(s.base, e)) == 0 && Accepted(s2, UserPtr(s.base, e))
      && Restored(s, FreeAt(s2, [e] + live, 0), e) && RemoveAt([e] + live, 0) == live
  {
    PlaceKeepsInv(s, live, e, mem1);
    var s1 := State(s.base, Paint(s.bits, e.start, e.start + e.len, true), s.used + e.len,
                    HeaderAddr(s.base, e), mem1);
    UserWriteKeepsInv(s1, [e] + live, 0, mem');
    FreeHead(s, s1.(mem := mem'), live, e);
  }

  /** Freeing what was just allocated, after any writes to its user bytes, restores the bitmap, the counter,
      the list and every byte outside the extent. */
  lemma FreeUndoesAlloc(s: State, live: seq<Extent>, size: u32, e: Extent, mem': seq<byte>)
    requires Inv(s, live) && size + 4111 < 0x1_0000_0000 && s.head < 0x1_0000_0000
    requires Alloc(s, live, size).2 != 0 && e == Alloc(s, live, size).1[0]
    requires SameOutside(Alloc(s, live, size).0.mem, mem', Off(e.start) + 16, Off(e.start + e.len))
    ensures var (s1, live1, p) := Alloc(s, live, size);
      && Inv(s1.(mem := mem'), live1)
      && var (s3, live3) := Free(s1.(mem := mem'), live1, p);
        Restored(s, s3, e) && live3 == live
  {
    hide PutHeader, Store32, FirstFit, BlocksFor, Covered, FreeAt, RemoveAt, Paint, HeadersOk, BitsOk, Find, Accepted;
    AllocIsFirstFit(s, live, size);
    FreeUndoesPlace(s, live, e, PutHeader(s.mem, e, s.head), mem');
  }

  lemma RestoredBits(bits: seq<bool>, e: Extent)
    requires Clear(bits, e.start, e.len)
    ensures Paint(Paint(bits, e.start, e.start + e.len, true), e.start, e.start + e.len, false) == bits
  {
  }

  lemma RestoredMem(m: seq<byte>, m2: seq<byte>, m3: seq<byte>, e: Extent)
    requires e.len >= 1 && SameOutside(m, m2, Off(e.start), Off(e.start + e.len))
    requires Stored(m2, m3, Off(e.start) + 8, MAGIC_FREED)
    ensures SameOutside(m, m3, Off(e.start), Off(e.start + e.len))
  {
  }

  /** A second free of the same pointer is refused and changes nothing. */
  lemma DoubleFreeIsNoOp(s: State, live: seq<Extent>, k: nat)
    requires Inv(s, live) && k < |live|
    ensures var p := UserPtr(s.base, live[k]);
      var (s1, live1) := Free(s, live, p);
      Inv(s1, live1) && live1 == RemoveAt(live, k) && !Accepted(s1, p) && Free(s1, live1, p) == (s1, live1)
  {
    hide Accepted, FreeAt, RemoveAt, Find;
    assert Laid(live, |s.bits|);
    hide Inv;
    FindLive(s.base, live, k, |s.bits|);
    LiveAccepted(s, live, k);
    FreeAtKeepsInv(s, live, k);
    Poisoned(s, live, k);
  }

  lemma Poisoned(s: State, live: seq<Extent>, k: nat)
    requires Inv(s, live) && k < |live|
    ensures !Accepted(FreeAt(s, live, k), UserPtr(s.base, live[k]))
  {
    hide Paint, BitsOk, HeadersOk, Detached;
    assert FreeAt(s, live, k).base == s.base;
    var next := NextPtr(s.base, live, k + 1);
    NextPtrBound(s, live, k + 1);
    assert FreeAt(s, live, k).mem == Detached(s.mem, live, k, next);
    hide FreeAt, Inv;
    PoisonRead(s.mem, live, k, next);
  }

  lemma PoisonRead(mem: seq<byte>, live: seq<Extent>, k: nat, next: u32)
    requires k < |live| && Off(live[k].start) + 16 <= |mem| && (k > 0 ==> Off(live[k - 1].start) + 16 <= |mem|)
    ensures Load32(Detached(mem, live, k, next), Off(live[k].start) + 8) == MAGIC_FREED
  {
    hide Load32, Bytes32;
  }
}
