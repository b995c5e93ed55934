/** Specification of the PSRAM block pool (src/psram_pool.c) on values: the state,
    the effect of each critical section, and the heap invariant.
    Class `PsramPool.Pool` implements these functions with the loops of the source. */
module PoolSpec {
  import opened Words

  const MAGIC_ALLOCATED: u32 := 0xA110CA7E
  const MAGIC_FREED: u32 := 0xF2EEB10C

  /** One allocation: `len` blocks from block `start`, the first 16 bytes of which are its header. */
  datatype Extent = Extent(start: nat, len: nat)

  /** `bits[i]` is bitmap bit i, `head` the address of the first header or 0, `mem` the pool memory,
      which the machine sees at addresses [base, base + |mem|). */
  datatype State = State(base: nat, bits: seq<bool>, used: int, head: nat, mem: seq<byte>)

  // ---------- layout ----------

  function Off(block: nat): nat {
    4096 * block
  }

  function HeaderAddr(base: nat, e: Extent): nat {
    base + Off(e.start)
  }

  /** The pointer a caller holds for extent e. */
  function UserPtr(base: nat, e: Extent): nat {
    base + Off(e.start) + 16
  }

  function UserSize(e: Extent): int {
    Off(e.len) - 16
  }

  /** The user bytes of e. */
  function UserData(s: State, e: Extent): seq<byte>
    requires 1 <= e.len && Off(e.start + e.len) <= |s.mem|
  {
    s.mem[Off(e.start) + 16..Off(e.start + e.len)]
  }

  ghost predicate WellSized(s: State) {
    && 1 <= |s.bits|
    && |s.mem| == Off(|s.bits|)
    && 0 < s.base
    && s.base + Off(|s.bits|) < 0x1_0000_0000
  }

  /** Blocks for a request of `size` bytes plus header, in 32-bit `size_t` arithmetic. */
  function BlocksFor(size: u32): (n: nat)
    ensures size + 4111 < 0x1_0000_0000 ==> n >= 1 && 4096 * (n - 1) < 16 + size <= 4096 * n
  {
    ((16 + size) % 0x1_0000_0000 + 4095) % 0x1_0000_0000 / 4096
  }

  /** The rounding up covers the request exactly when the sum does not wrap. */
  lemma BlocksForCovers(size: u32)
    ensures 4096 * BlocksFor(size) >= 16 + size <==> size + 4111 < 0x1_0000_0000
    ensures size + 4111 < 0x1_0000_0000 ==>
              forall n: nat :: 4096 * n >= 16 + size <==> n >= BlocksFor(size)
  {
  }

  // ---------- bitmap ----------

  predicate Clear(bits: seq<bool>, lo: nat, n: nat) {
    lo + n <= |bits| && forall i :: lo <= i < lo + n ==> !bits[i]
  }

  function Paint(bits: seq<bool>, lo: nat, hi: nat, v: bool): (r: seq<bool>)
    ensures |r| == |bits|
  {
    seq(|bits|, i requires 0 <= i < |bits| => if lo <= i < hi then v else bits[i])
  }

  /** Least index from `from` on that starts n clear bits, or -1. */
  function FirstFit(bits: seq<bool>, n: nat, from: nat): (r: int)
    ensures r == -1 || (from <= r && Clear(bits, r, n))
    ensures forall q :: from <= q < (if r == -1 then |bits| + 1 else r) ==> !Clear(bits, q, n)
    decreases |bits| - from
  {
    if from + n > |bits| then -1
    else if Clear(bits, from, n) then from
    else FirstFit(bits, n, from + 1)
  }

  function PopCount(bits: seq<bool>): nat {
    if bits == [] then 0 else PopCount(bits[..|bits| - 1]) + (if bits[|bits| - 1] then 1 else 0)
  }

  /** r is the length of the longest run of clear bits. */
  ghost predicate LongestRun(bits: seq<bool>, r: nat) {
    && (exists lo: nat :: Clear(bits, lo, r))
    && (forall lo: nat, n: nat :: Clear(bits, lo, n) ==> n <= r)
  }

  // ---------- headers and the list threaded through them ----------

  /** Address of the k-th header of the list, 0 past its end. */
  function NextPtr(base: nat, live: seq<Extent>, k: nat): nat {
    if k < |live| then HeaderAddr(base, live[k]) else 0
  }

  /** Every byte outside block range [lo, hi) is the same. */
  ghost predicate SameOutside(m: seq<byte>, m': seq<byte>, lo: int, hi: int) {
    |m| == |m'| && forall x :: 0 <= x < |m| && !(lo <= x < hi) ==> m[x] == m'[x]
  }

  /** mem' carries a fresh header for e and is otherwise mem. */
  ghost predicate HeaderPut(mem: seq<byte>, mem': seq<byte>, e: Extent, next: nat) {
    var h := Off(e.start);
    && h + 16 <= |mem|
    && SameOutside(mem, mem', h, h + 16)
    && Load32(mem', h) == e.start
    && Load32(mem', h + 4) == e.len
    && Load32(mem', h + 8) == MAGIC_ALLOCATED
    && Load32(mem', h + 12) == next
  }

  function PutHeader(mem: seq<byte>, e: Extent, next: u32): (r: seq<byte>)
    requires Off(e.start) + 16 <= |mem| && e.start < 0x1_0000_0000 && e.len < 0x1_0000_0000
    ensures |r| == |mem| && HeaderPut(mem, r, e, next)
  {
    var h := Off(e.start);
    var m1 := Store32(mem, h, e.start);
    var m2 := Store32(m1, h + 4, e.len);
    var m3 := Store32(m2, h + 8, MAGIC_ALLOCATED);
    var r := Store32(m3, h + 12, next);
    PutHeaderStores(mem, m1, m2, m3, r, e, next);
    r
  }

  lemma PutHeaderStores(mem: seq<byte>, m1: seq<byte>, m2: seq<byte>, m3: seq<byte>, r: seq<byte>, e: Extent, next: u32)
    requires Off(e.start) + 16 <= |mem| && e.start < 0x1_0000_0000 && e.len < 0x1_0000_0000
    requires Stored(mem, m1, Off(e.start), e.start)
    requires Stored(m1, m2, Off(e.start) + 4, e.len)
    requires Stored(m2, m3, Off(e.start) + 8, MAGIC_ALLOCATED)
    requires Stored(m3, r, Off(e.start) + 12, next)
    ensures HeaderPut(mem, r, e, next)
  {
  }

  /** The header of live[k] as it must stand in memory. */
  ghost predicate HeaderOk(base: nat, mem: seq<byte>, live: seq<Extent>, k: nat)
    requires k < |live|
  {
    var h := Off(live[k].start);
    && h + 16 <= |mem|
    && Load32(mem, h) == live[k].start
    && Load32(mem, h + 4) == live[k].len
    && Load32(mem, h + 8) == MAGIC_ALLOCATED
    && Load32(mem, h + 12) == NextPtr(base, live, k + 1)
  }

  predicate InExtent(e: Extent, i: int) {
    e.start <= i < e.start + e.len
  }

  predicate Apart(d: Extent, e: Extent) {
    d.start + d.len <= e.start || e.start + e.len <= d.start
  }

  ghost predicate Covered(live: seq<Extent>, i: int) {
    exists k :: 0 <= k < |live| && InExtent(live[k], i)
  }

  function TotalLen(live: seq<Extent>): nat {
    if live == [] then 0 else live[0].len + TotalLen(live[1..])
  }

  ghost predicate Laid(live: seq<Extent>, total: nat) {
    && (forall k :: 0 <= k < |live| ==> 1 <= live[k].len && live[k].start + live[k].len <= total)
    && (forall j, k :: 0 <= j < |live| && 0 <= k < |live| && j != k ==> Apart(live[j], live[k]))
  }

  ghost predicate HeadersOk(base: nat, mem: seq<byte>, live: seq<Extent>) {
    forall k :: 0 <= k < |live| ==> HeaderOk(base, mem, live, k)
  }

  ghost predicate BitsOk(bits: seq<bool>, live: seq<Extent>) {
    forall i :: 0 <= i < |bits| ==> (bits[i] <==> Covered(live, i))
  }

  /** The heap invariant: bitmap, counter, headers and list describe the same extents `live`,
      listed in the order of the header list. */
  ghost predicate Inv(s: State, live: seq<Extent>) {
    && WellSized(s)
    && Laid(live, |s.bits|)
    && HeadersOk(s.base, s.mem, live)
    && s.head == NextPtr(s.base, live, 0)
    && BitsOk(s.bits, live)
    && s.used == TotalLen(live)
  }

  // ---------- the critical sections ----------

  function Find(base: nat, live: seq<Extent>, ptr: nat): (k: nat)
    ensures k <= |live|
    ensures k < |live| ==> UserPtr(base, live[k]) == ptr
    ensures k == |live| ==> forall j :: 0 <= j < |live| ==> UserPtr(base, live[j]) != ptr
  {
    if live == [] then 0
    else if UserPtr(base, live[0]) == ptr then 0
    else 1 + Find(base, live[1..], ptr)
  }

  /** Mark e's blocks, count them, write its header and put it at the head of the list. */
  function Place(s: State, live: seq<Extent>, e: Extent): (State, seq<Extent>, nat)
    requires WellSized(s) && s.head < 0x1_0000_0000 && e.len >= 1 && e.start + e.len <= |s.bits|
  {
    (State(s.base, Paint(s.bits, e.start, e.start + e.len, true), s.used + e.len, HeaderAddr(s.base, e),
           PutHeader(s.mem, e, s.head)),
     [e] + live,
     UserPtr(s.base, e))
  }

  function Alloc(s: State, live: seq<Extent>, size: u32): (State, seq<Extent>, nat)
    requires WellSized(s) && s.head < 0x1_0000_0000 && size + 4111 < 0x1_0000_0000
  {
    var start := FirstFit(s.bits, BlocksFor(size), 0);
    if size == 0 || start == -1 then (s, live, 0)
    else Place(s, live, Extent(start, BlocksFor(size)))
  }

  predicate InBounds(s: State, ptr: nat) {
    s.base + 16 <= ptr < s.base + |s.mem|
  }

  /** The pointer passes every check of psram_pool_free. */
  predicate Accepted(s: State, ptr: nat) {
    InBounds(s, ptr) && Load32(s.mem, ptr - s.base - 16 + 8) == MAGIC_ALLOCATED
  }

  /** Memory with the header of live[k] bypassed by its predecessor's link and its magic poisoned. */
  function Detached(mem: seq<byte>, live: seq<Extent>, k: nat, next: u32): (r: seq<byte>)
    requires k < |live| && Off(live[k].start) + 16 <= |mem|
    requires k > 0 ==> Off(live[k - 1].start) + 16 <= |mem|
    ensures |r| == |mem|
  {
    var unlinked := if k == 0 then mem else Store32(mem, Off(live[k - 1].start) + 12, next);
    Store32(unlinked, Off(live[k].start) + 8, MAGIC_FREED)
  }

  /** Remove live[k]: clear its bits, unlink its header, poison its magic. */
  function FreeAt(s: State, live: seq<Extent>, k: nat): State
    requires k < |live| && Inv(s, live)
  {
    var e := live[k];
    var next := NextPtr(s.base, live, k + 1);
    NextPtrBound(s, live, k + 1);
    State(s.base, Paint(s.bits, e.start, e.start + e.len, false), s.used - e.len,
          if k == 0 then next else s.head,
          Detached(s.mem, live, k, next))
  }

  function RemoveAt(live: seq<Extent>, k: nat): (r: seq<Extent>)
    requires k < |live|
    ensures |r| == |live| - 1
    ensures forall j :: 0 <= j < |r| ==> r[j] == live[if j < k then j else j + 1]
  {
    live[..k] + live[k + 1..]
  }

  function Free(s: State, live: seq<Extent>, ptr: nat): (r: (State, seq<Extent>))
    requires Inv(s, live)
  {
    var k := Find(s.base, live, ptr);
    if !Accepted(s, ptr) || k == |live| then (s, live)
    else (FreeAt(s, live, k), RemoveAt(live, k))
  }

  /** Room to grow live[k] in place by `extra` blocks. */
  predicate CanExpand(s: State, e: Extent, extra: nat) {
    Clear(s.bits, e.start + e.len, extra)
  }

  function ExpandAt(s: State, live: seq<Extent>, k: nat, extra: nat): (State, seq<Extent>)
    requires Inv(s, live) && k < |live| && CanExpand(s, live[k], extra)
  {
    var e := live[k];
    (s.(bits := Paint(s.bits, e.start + e.len, e.start + e.len + extra, true),
        used := s.used + extra,
        mem := Store32(s.mem, Off(e.start) + 4, e.len + extra)),
     live[k := Extent(e.start, e.len + extra)])
  }

  function Blit(mem: seq<byte>, src: nat, dst: nat, n: nat): (r: seq<byte>)
    requires src + n <= |mem| && dst + n <= |mem|
    ensures |r| == |mem|
  {
    seq(|mem|, i requires 0 <= i < |mem| => if dst <= i < dst + n then mem[src + i - dst] else mem[i])
  }

  // ---------- facts used to state the functions above ----------

  lemma NextPtrBound(s: State, live: seq<Extent>, k: nat)
    requires WellSized(s) && Laid(live, |s.bits|)
    ensures NextPtr(s.base, live, k) < 0x1_0000_0000
  {
  }
}
