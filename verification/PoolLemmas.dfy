/** What each critical section of the pool keeps and what it changes. */
module PoolLemmas {
  import opened Words
  import opened PoolSpec

  // ---------- memory frames ----------

  ghost predicate SameUser(m: seq<byte>, m': seq<byte>, e: Extent) {
    SameBytes(m, m', Off(e.start) + 16, Off(e.start + e.len))
  }

  /** Start block, length and magic of e's header are the same; the list link may differ. */
  ghost predicate SameHeader(m: seq<byte>, m': seq<byte>, e: Extent) {
    SameBytes(m, m', Off(e.start), Off(e.start) + 12)
  }

  /** Byte i of extent e, counted from its first block. */
  function ByteAt(m: seq<byte>, e: Extent, i: nat): byte
    requires i < Off(e.len) && Off(e.start + e.len) <= |m|
  {
    m[Off(e.start) + i]
  }

  /** e' in m' starts with all the user bytes of e in m. */
  ghost predicate CarriesOver(m: seq<byte>, e: Extent, m': seq<byte>, e': Extent) {
    && 1 <= e.len <= e'.len
    && Off(e.start + e.len) <= |m| && Off(e'.start + e'.len) <= |m'|
    && forall i :: 16 <= i < Off(e.len) ==> ByteAt(m', e', i) == ByteAt(m, e, i)
  }

  lemma HeaderFrame(base: nat, m: seq<byte>, m': seq<byte>, live: seq<Extent>, k: nat, live': seq<Extent>, k': nat)
    requires k < |live| && k' < |live'| && live[k] == live'[k']
    requires HeaderOk(base, m, live, k)
    requires SameHeader(m, m', live[k])
    requires Off(live[k].start) + 16 <= |m'|
    requires Load32(m', Off(live[k].start) + 12) == NextPtr(base, live', k' + 1)
    ensures HeaderOk(base, m', live', k')
  {
  }

  lemma LinkFrame(m: seq<byte>, m': seq<byte>, a: nat)
    requires SameBytes(m, m', a, a + 4)
    ensures Load32(m, a) == Load32(m', a)
  {
  }

  // ---------- extents ----------

  lemma CoveredCons(e: Extent, live: seq<Extent>, i: int)
    ensures Covered([e] + live, i) <==> InExtent(e, i) || Covered(live, i)
  {
    var l := [e] + live;
    if InExtent(e, i) { assert InExtent(l[0], i); }
    if Covered(live, i) {
      var k :| 0 <= k < |live| && InExtent(live[k], i);
      assert InExtent(l[k + 1], i);
    }
    if Covered(l, i) {
      var k :| 0 <= k < |l| && InExtent(l[k], i);
      if k > 0 { assert InExtent(live[k - 1], i); }
    }
  }

  lemma CoveredRemove(live: seq<Extent>, k: nat, i: int)
    requires k < |live| && forall j :: 0 <= j < |live| && j != k ==> Apart(live[j], live[k])
    ensures Covered(RemoveAt(live, k), i) <==> Covered(live, i) && !InExtent(live[k], i)
  {
    var l := RemoveAt(live, k);
    if Covered(l, i) {
      var j :| 0 <= j < |l| && InExtent(l[j], i);
      assert InExtent(live[if j < k then j else j + 1], i);
    }
    if Covered(live, i) && !InExtent(live[k], i) {
      var j :| 0 <= j < |live| && InExtent(live[j], i);
      assert l[if j < k then j else j - 1] == live[j];
    }
  }

  lemma CoveredGrow(live: seq<Extent>, k: nat, extra: nat, i: int)
    requires k < |live|
    ensures var e := live[k];
      Covered(live[k := Extent(e.start, e.len + extra)], i) <==>
      Covered(live, i) || e.start + e.len <= i < e.start + e.len + extra
  {
    var e := live[k];
    var l := live[k := Extent(e.start, e.len + extra)];
    if Covered(l, i) {
      var j :| 0 <= j < |l| && InExtent(l[j], i);
      if j != k || InExtent(e, i) { assert InExtent(live[j], i); }
    }
    if Covered(live, i) {
      var j :| 0 <= j < |live| && InExtent(live[j], i);
      assert InExtent(l[j], i);
    }
    if e.start + e.len <= i < e.start + e.len + extra { assert InExtent(l[k], i); }
  }

  lemma {:induction false} TotalLenRemove(live: seq<Extent>, k: nat)
    requires k < |live|
    ensures TotalLen(RemoveAt(live, k)) == TotalLen(live) - live[k].len
  {
    var l := RemoveAt(live, k);
    if k == 0 {
      assert l == live[1..];
    } else {
      TotalLenRemove(live[1..], k - 1);
      assert l[1..] == RemoveAt(live[1..], k - 1);
      assert l[0] == live[0];
    }
  }

  lemma {:induction false} TotalLenUpdate(live: seq<Extent>, k: nat, e: Extent)
    requires k < |live|
    ensures TotalLen(live[k := e]) == TotalLen(live) - live[k].len + e.len
  {
    var l := live[k := e];
    if k == 0 {
      assert l[1..] == live[1..];
    } else {
      TotalLenUpdate(live[1..], k - 1, e);
      assert l[1..] == live[1..][k - 1 := e];
    }
  }

  /** A run of clear bits is apart from every live extent. */
  lemma ClearIsApart(bits: seq<bool>, live: seq<Extent>, lo: nat, n: nat, j: nat)
    requires BitsOk(bits, live) && Laid(live, |bits|) && Clear(bits, lo, n) && n >= 1 && j < |live|
    ensures Apart(Extent(lo, n), live[j])
  {
    var e := live[j];
    var i := if lo >= e.start then lo else e.start;
    assert InExtent(e, i) && i < |bits| ==> Covered(live, i);
  }

  // ---------- the sections keep the invariant ----------

  lemma AllocHeader(base: nat, mem: seq<byte>, mem': seq<byte>, live: seq<Extent>, e: Extent, k: nat)
    requires k < |live| && HeaderOk(base, mem, live, k)
    requires HeaderPut(mem, mem', e, NextPtr(base, live, 0))
    requires e.start != live[k].start
    ensures HeaderOk(base, mem', [e] + live, k + 1)
  {
  }

  lemma AllocHeaders(base: nat, mem: seq<byte>, mem': seq<byte>, live: seq<Extent>, e: Extent)
    requires HeadersOk(base, mem, live)
    requires HeaderPut(mem, mem', e, NextPtr(base, live, 0))
    requires forall j :: 0 <= j < |live| ==> e.start != live[j].start
    ensures HeadersOk(base, mem', [e] + live)
  {
    var live' := [e] + live;
    forall k | 0 <= k < |live'| ensures HeaderOk(base, mem', live', k) {
      if k > 0 {
        assert HeaderOk(base, mem, live, k - 1);
        AllocHeader(base, mem, mem', live, e, k - 1);
      } else {
        assert NextPtr(base, live', 1) == NextPtr(base, live, 0);
      }
    }
  }

  lemma AllocBits(bits: seq<bool>, live: seq<Extent>, e: Extent)
    requires BitsOk(bits, live)
    ensures BitsOk(Paint(bits, e.start, e.start + e.len, true), [e] + live)
  {
    var bits' := Paint(bits, e.start, e.start + e.len, true);
    forall i | 0 <= i < |bits'| ensures bits'[i] <==> Covered([e] + live, i) {
      CoveredCons(e, live, i);
    }
  }

  lemma AllocLaid(bits: seq<bool>, live: seq<Extent>, e: Extent)
    requires BitsOk(bits, live) && Laid(live, |bits|) && e.len >= 1 && Clear(bits, e.start, e.len)
    ensures Laid([e] + live, |bits|)
    ensures forall j :: 0 <= j < |live| ==> Apart(e, live[j])
  {
    forall j: nat | j < |live| ensures Apart(e, live[j]) {
      ClearIsApart(bits, live, e.start, e.len, j);
    }
  }

  lemma PlaceKeepsInv(s: State, live: seq<Extent>, e: Extent, mem': seq<byte>)
    requires Inv(s, live) && e.len >= 1 && Clear(s.bits, e.start, e.len)
    requires HeaderPut(s.mem, mem', e, s.head)
    ensures Inv(State(s.base, Paint(s.bits, e.start, e.start + e.len, true), s.used + e.len,
                      s.base + Off(e.start), mem'), [e] + live)
  {
    AllocLaid(s.bits, live, e);
    AllocBits(s.bits, live, e);
    AllocHeaders(s.base, s.mem, mem', live, e);
    assert ([e] + live)[1..] == live;
  }

  lemma AllocKeepsInv(s: State, live: seq<Extent>, size: u32)
    requires Inv(s, live) && size + 4111 < 0x1_0000_0000
    ensures s.head < 0x1_0000_0000
    ensures Inv(Alloc(s, live, size).0, Alloc(s, live, size).1)
  {
    NextPtrBound(s, live, 0);
    var start := FirstFit(s.bits, BlocksFor(size), 0);
    if size != 0 && start != -1 {
      var e := Extent(start, BlocksFor(size));
      PlaceKeepsInv(s, live, e, PutHeader(s.mem, e, s.head));
    }
  }

  /** mem' is mem with live[k] unlinked and its header poisoned. */
  ghost predicate Unlinked(base: nat, mem: seq<byte>, mem': seq<byte>, live: seq<Extent>, k: nat)
    requires k < |live|
  {
    && |mem| == |mem'|
    && (forall j :: 0 <= j < |live| && j != k ==> SameHeader(mem, mem', live[j]))
    && (forall j :: 0 <= j < |live| && j != k && j != k - 1 ==>
          SameBytes(mem, mem', Off(live[j].start) + 12, Off(live[j].start) + 16))
    && (k > 0 ==> Off(live[k - 1].start) + 16 <= |mem'| &&
                  Load32(mem', Off(live[k - 1].start) + 12) == NextPtr(base, live, k + 1))
  }

  lemma UnlinkStores(base: nat, mem: seq<byte>, m1: seq<byte>, mem': seq<byte>, live: seq<Extent>, k: nat, total: nat,
                     next: u32)
    requires k < |live| && Laid(live, total) && |mem| == Off(total)
    requires next == NextPtr(base, live, k + 1)
    requires if k == 0 then m1 == mem else Stored(mem, m1, Off(live[k - 1].start) + 12, next)
    requires Stored(m1, mem', Off(live[k].start) + 8, MAGIC_FREED)
    ensures Unlinked(base, mem, mem', live, k)
  {
    forall j | 0 <= j < |live| && j != k
      ensures SameHeader(mem, mem', live[j])
      ensures j != k - 1 ==> SameBytes(mem, mem', Off(live[j].start) + 12, Off(live[j].start) + 16)
    {
      assert Apart(live[j], live[k]);
      assert k > 0 && j != k - 1 ==> Apart(live[j], live[k - 1]);
    }
    if k > 0 {
      assert Apart(live[k - 1], live[k]);
      LinkFrame(m1, mem', Off(live[k - 1].start) + 12);
    }
  }

  lemma FreeUnlinks(s: State, live: seq<Extent>, k: nat)
    requires Inv(s, live) && k < |live|
    ensures Unlinked(s.base, s.mem, FreeAt(s, live, k).mem, live, k)
  {
    var next := NextPtr(s.base, live, k + 1);
    NextPtrBound(s, live, k + 1);
    var m1 := if k == 0 then s.mem else Store32(s.mem, Off(live[k - 1].start) + 12, next);
    UnlinkStores(s.base, s.mem, m1, FreeAt(s, live, k).mem, live, k, |s.bits|, next);
  }

  lemma UnlinkHeaders(base: nat, mem: seq<byte>, mem': seq<byte>, live: seq<Extent>, k: nat)
    requires k < |live| && HeadersOk(base, mem, live) && Unlinked(base, mem, mem', live, k)
    ensures HeadersOk(base, mem', RemoveAt(live, k))
  {
    var live' := RemoveAt(live, k);
    forall j | 0 <= j < |live'| ensures HeaderOk(base, mem', live', j) {
      var o := if j < k then j else j + 1;
      assert HeaderOk(base, mem, live, o);
      assert SameHeader(mem, mem', live[o]);
      if j + 1 != k { LinkFrame(mem, mem', Off(live[o].start) + 12); }
      HeaderFrame(base, mem, mem', live, o, live', j);
    }
  }

  lemma RemoveBits(bits: seq<bool>, live: seq<Extent>, k: nat)
    requires BitsOk(bits, live) && Laid(live, |bits|) && k < |live|
    ensures BitsOk(Paint(bits, live[k].start, live[k].start + live[k].len, false), RemoveAt(live, k))
  {
    var bits' := Paint(bits, live[k].start, live[k].start + live[k].len, false);
    forall i | 0 <= i < |bits'| ensures bits'[i] <==> Covered(RemoveAt(live, k), i) {
      CoveredRemove(live, k, i);
    }
  }

  lemma FreeAtKeepsInv(s: State, live: seq<Extent>, k: nat)
    requires Inv(s, live) && k < |live|
    ensures Inv(FreeAt(s, live, k), RemoveAt(live, k))
  {
    var s', live' := FreeAt(s, live, k), RemoveAt(live, k);
    FreeUnlinks(s, live, k);
    UnlinkHeaders(s.base, s.mem, s'.mem, live, k);
    RemoveBits(s.bits, live, k);
    TotalLenRemove(live, k);
  }

  lemma FreeKeepsInv(s: State, live: seq<Extent>, ptr: nat)
    requires Inv(s, live)
    ensures Inv(Free(s, live, ptr).0, Free(s, live, ptr).1)
  {
    var k := Find(s.base, live, ptr);
    if k < |live| { FreeAtKeepsInv(s, live, k); }
  }

  lemma ExpandHeader(base: nat, mem: seq<byte>, mem': seq<byte>, live: seq<Extent>, k: nat, len: u32, j: nat)
    requires k < |live| && j < |live|
    requires HeaderOk(base, mem, live, j) && (j != k ==> live[j].start != live[k].start)
    requires Stored(mem, mem', Off(live[k].start) + 4, len)
    ensures HeaderOk(base, mem', live[k := Extent(live[k].start, len)], j)
  {
    var live' := live[k := Extent(live[k].start, len)];
    var a := Off(live[j].start);
    assert NextPtr(base, live', j + 1) == NextPtr(base, live, j + 1);
    LinkFrame(mem, mem', a + 12);
    if j != k {
      HeaderFrame(base, mem, mem', live, j, live', j);
    } else {
      LinkFrame(mem, mem', a);
      LinkFrame(mem, mem', a + 8);
    }
  }

  lemma GrowLaid(bits: seq<bool>, live: seq<Extent>, k: nat, extra: nat)
    requires k < |live| && BitsOk(bits, live) && Laid(live, |bits|)
    requires Clear(bits, live[k].start + live[k].len, extra)
    ensures Laid(live[k := Extent(live[k].start, live[k].len + extra)], |bits|)
  {
    var e := live[k];
    var live' := live[k := Extent(e.start, e.len + extra)];
    forall j: nat | j < |live| && j != k ensures Apart(live'[k], live[j]) {
      if extra >= 1 { ClearIsApart(bits, live, e.start + e.len, extra, j); }
      assert Apart(live[j], e);
    }
  }

  lemma GrowBits(bits: seq<bool>, live: seq<Extent>, k: nat, extra: nat)
    requires k < |live| && BitsOk(bits, live)
    ensures var e := live[k];
      BitsOk(Paint(bits, e.start + e.len, e.start + e.len + extra, true), live[k := Extent(e.start, e.len + extra)])
  {
    var e := live[k];
    var bits' := Paint(bits, e.start + e.len, e.start + e.len + extra, true);
    forall i | 0 <= i < |bits'| ensures bits'[i] <==> Covered(live[k := Extent(e.start, e.len + extra)], i) {
      CoveredGrow(live, k, extra, i);
    }
  }

  lemma ExpandKeepsInv(s: State, live: seq<Extent>, k: nat, extra: nat)
    requires Inv(s, live) && k < |live| && CanExpand(s, live[k], extra)
    ensures Inv(ExpandAt(s, live, k, extra).0, ExpandAt(s, live, k, extra).1)
  {
    hide HeadersOk, BitsOk, Paint;
    var (s', live') := ExpandAt(s, live, k, extra);
    GrowHeaders(s.base, s.mem, s'.mem, live, k, live[k].len + extra, |s.bits|);
    GrowLaid(s.bits, live, k, extra);
    GrowBits(s.bits, live, k, extra);
    hide Laid;
    TotalLenUpdate(live, k, live'[k]);
  }

  lemma GrowHeaders(base: nat, mem: seq<byte>, mem': seq<byte>, live: seq<Extent>, k: nat, len: u32, total: nat)
    requires k < |live| && Laid(live, total) && HeadersOk(base, mem, live)
    requires Stored(mem, mem', Off(live[k].start) + 4, len)
    ensures HeadersOk(base, mem', live[k := Extent(live[k].start, len)])
  {
    hide Stored;
    var live' := live[k := Extent(live[k].start, len)];
    forall j | 0 <= j < |live'| ensures HeaderOk(base, mem', live', j) {
      assert j != k ==> Apart(live[j], live[k]);
      assert HeaderOk(base, mem, live, j);
      ExpandHeader(base, mem, mem', live, k, len, j);
    }
  }

  /** Clients may write their own user bytes at will. */
  lemma UserWriteKeepsInv(s: State, live: seq<Extent>, k: nat, mem': seq<byte>)
    requires Inv(s, live) && k < |live|
    requires SameOutside(s.mem, mem', Off(live[k].start) + 16, Off(live[k].start + live[k].len))
    ensures Inv(s.(mem := mem'), live)
  {
    forall j | 0 <= j < |live| ensures HeaderOk(s.base, mem', live, j) {
      assert HeaderOk(s.base, s.mem, live, j);
      assert j != k ==> Apart(live[j], live[k]);
      LinkFrame(s.mem, mem', Off(live[j].start) + 12);
      HeaderFrame(s.base, s.mem, mem', live, j, live, j);
    }
  }
}
