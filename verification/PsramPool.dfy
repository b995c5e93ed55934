/** The PSRAM block pool as the source runs it: a bitmap of 32-bit words, in-band headers and a list
    threaded through pool memory, all updated in place (src/psram_pool.c). Each method is proved to
    take the state to the value that `PoolSpec` names. */
module PsramPool {
  import opened Words
  import opened PoolSpec
  import opened PoolLemmas
  import opened PoolRealloc
  import opened PoolLaws
  import opened PoolRuns

  const NOT_FOUND: u32 := 0xFFFF_FFFF
  const MAX_BLOCKS: nat := 1792

  /** The bitmap words read as one bit per block. */
  function BitsOf(words: seq<u32>, total: nat): (bits: seq<bool>)
    requires total <= 32 * |words|
    ensures |bits| == total
    ensures forall i :: 0 <= i < total ==> bits[i] == Bit(words[i / 32], i % 32)
  {
    seq(total, i requires 0 <= i < total => Bit(words[i / 32], i % 32))
  }

  lemma BitsOfUpdate(words: seq<u32>, total: nat, idx: nat, w: u32, v: bool)
    requires total <= 32 * |words| && idx < total
    requires forall j: nat :: j < 32 ==> Bit(w, j) == if j == idx % 32 then v else Bit(words[idx / 32], j)
    ensures BitsOf(words[idx / 32 := w], total) == BitsOf(words, total)[idx := v]
  {
  }

  lemma SetWord(w: u32, k: nat)
    requires k < 32
    ensures Or(w, Pow2(k)) < 0x1_0000_0000
    ensures forall j: nat :: Bit(Or(w, Pow2(k)), j) == if j == k then true else Bit(w, j)
  {
    Pow2Of32();
    Pow2Monotone(k + 1, 32);
    OrBound(w, Pow2(k), 32);
    forall j: nat ensures Bit(Or(w, Pow2(k)), j) == if j == k then true else Bit(w, j) {
      BitOr(w, Pow2(k), j);
      BitPow2(k, j);
    }
  }

  lemma BelowPow32(k: nat)
    requires k < 32
    ensures 2 * Pow2(k) <= Pow2(32) == 0x1_0000_0000
  {
    Pow2Of32();
    Pow2Monotone(k + 1, 32);
    assert Pow2(k + 1) == 2 * Pow2(k);
  }

  lemma ClearWord(w: u32, k: nat)
    requires k < 32
    ensures Pow2(k) < 0x1_0000_0000
    ensures forall j: nat :: j < 32 ==> Bit(And(w, Not32(Pow2(k))), j) == if j == k then false else Bit(w, j)
  {
    hide And, Shr, Bit;
    BelowPow32(k);
    hide Pow2;
    forall j: nat | j < 32
      ensures Bit(And(w, Not32(Pow2(k))), j) == if j == k then false else Bit(w, j)
    {
      BitAnd(w, Not32(Pow2(k)), j);
      BitComplement(Pow2(k), 32, j);
      BitPow2(k, j);
    }
  }

  lemma ReadBit(w: u32, k: nat)
    ensures And(Shr(w, k), 1) == 1 <==> Bit(w, k)
    ensures And(Shr(w, k), 1) <= 1
  {
  }

  /** The static `g_pool` of the source: no object until psram_pool_init has succeeded. */
  class Kernel {
    var pool: Pool?

    constructor ()
      ensures pool == null
    {
      pool := null;
    }

    /** `region` is the address of the memory heap_caps_malloc returned, 0 if it returned NULL; the flags say
        whether the bitmap and the mutex could be allocated. */
    method Init(poolSize: u32, region: u32, bitmapOk: bool, mutexOk: bool) returns (rc: int)
      requires region != 0 ==> region + poolSize < 0x1_0000_0000
      modifies this
      ensures old(pool) != null ==> rc == 0 && pool == old(pool)
      ensures old(pool) == null ==>
                (rc == 0 <==> 1 <= poolSize / 4096 <= 1792 && region != 0 && bitmapOk && mutexOk)
      ensures old(pool) == null && rc == 0 ==>
                && pool != null && fresh(pool) && fresh(pool.mem) && fresh(pool.bitmap) && pool.Valid()
                && pool.base == region && pool.total == poolSize / 4096 && Fresh(pool.state, pool.live)
      ensures old(pool) == null && rc != 0 ==> rc == -1 && pool == null
    {
      if pool != null { return 0; }
      var blocks := poolSize / 4096;
      if blocks == 0 || blocks > MAX_BLOCKS { return -1; }
      if region == 0 || !bitmapOk || !mutexOk { return -1; }
      pool := new Pool(blocks, region);
      return 0;
    }
  }

  class Pool {
    const base: u32              // address of pool_base
    const mem: array<byte>       // the memory behind it
    const bitmap: array<u32>
    const total: u32
    var used: int
    var head: u32                // header_list
    // The same as a value, and the extents it describes:
    ghost var state: State
    ghost var live: seq<Extent>

    /** The value agrees with the fields and the arrays. */
    ghost predicate Shape()
      reads `state, `used, `head, mem, bitmap
      ensures Shape() ==>
                && state.base == base && state.used == used && state.head == head
                && |state.bits| == total && |state.mem| == mem.Length
    {
      && total <= 32 * bitmap.Length
      && state == State(base, BitsOf(bitmap[..], total), used, head, mem[..])
    }

    ghost predicate Valid()
      reads this, bitmap, mem
    {
      Shape() && Inv(state, live)
    }

    /** Memory of the pool as malloc left it, bitmap cleared. */
    constructor (blocks: u32, region: u32)
      requires 1 <= blocks && region != 0 && region + blocks * 4096 < 0x1_0000_0000
      ensures Valid() && fresh(mem) && fresh(bitmap)
      ensures base == region && total == blocks && Fresh(state, live)
    {
      base, total, used, head := region, blocks, 0, 0;
      mem := new byte[blocks * 4096];
      bitmap := new u32[(blocks + 31) / 32](_ => 0);
      new;
      state, live := State(base, BitsOf(bitmap[..], total), 0, 0, mem[..]), [];
      ClearedBits(bitmap[..], total);
      FreshIsInv(state, live);
    }

    // ---------- bitmap ----------

    method BitmapGet(idx: nat) returns (b: bool)
      requires Shape() && idx < total
      ensures b == state.bits[idx]
    {
      ReadBit(bitmap[idx / 32], idx % 32);
      b := And(Shr(bitmap[idx / 32], idx % 32), 1) == 1;
    }

    method BitmapSet(idx: nat)
      requires Shape() && idx < total
      modifies bitmap, `state
      ensures Shape() && state == old(state).(bits := old(state.bits)[idx := true])
    {
      SetWord(bitmap[idx / 32], idx % 32);
      BitsOfUpdate(bitmap[..], total, idx, Or(bitmap[idx / 32], Pow2(idx % 32)), true);
      bitmap[idx / 32] := Or(bitmap[idx / 32], Pow2(idx % 32));
      assert bitmap[..] == old(bitmap[..])[idx / 32 := bitmap[idx / 32]];
      state := state.(bits := state.bits[idx := true]);
    }

    method BitmapClear(idx: nat)
      requires Shape() && idx < total
      modifies bitmap, `state
      ensures Shape() && state == old(state).(bits := old(state.bits)[idx := false])
    {
      ClearWord(bitmap[idx / 32], idx % 32);
      BitsOfUpdate(bitmap[..], total, idx, And(bitmap[idx / 32], Not32(Pow2(idx % 32))), false);
      bitmap[idx / 32] := And(bitmap[idx / 32], Not32(Pow2(idx % 32)));
      assert bitmap[..] == old(bitmap[..])[idx / 32 := bitmap[idx / 32]];
      state := state.(bits := state.bits[idx := false]);
    }

    method MarkBlocks(lo: nat, n: nat)
      requires Shape() && lo + n <= total
      modifies bitmap, `state
      ensures Shape() && state == old(state).(bits := Paint(old(state.bits), lo, lo + n, true))
    {
      hide Shape;
      var i := lo;
      while i < lo + n
        invariant lo <= i <= lo + n && Shape()
        invariant state == old(state).(bits := Paint(old(state.bits), lo, i, true))
      {
        BitmapSet(i);
        assert state.bits == Paint(old(state.bits), lo, i + 1, true);
        i := i + 1;
      }
    }

    method UnmarkBlocks(lo: nat, n: nat)
      requires Shape() && lo + n <= total
      modifies bitmap, `state
      ensures Shape() && state == old(state).(bits := Paint(old(state.bits), lo, lo + n, false))
    {
      hide Shape;
      var i := lo;
      while i < lo + n
        invariant lo <= i <= lo + n && Shape()
        invariant state == old(state).(bits := Paint(old(state.bits), lo, i, false))
      {
        BitmapClear(i);
        assert state.bits == Paint(old(state.bits), lo, i + 1, false);
        i := i + 1;
      }
    }

    /** Least index that is a multiple of the alignment and starts nblocks clear bits, or NOT_FOUND if none is.
        After a set bit the scan jumps to the next aligned index. */
    method FindContiguousFree(nblocks: nat, alignment: nat) returns (r: u32)
      requires Shape() && nblocks >= 1 && total < 0x8000_0000
      requires alignment <= 1 || IsPow2(alignment)
      ensures r == NOT_FOUND ==> forall q: nat :: !FitsAt(state.bits, nblocks, alignment, q)
      ensures r != NOT_FOUND ==> FitsAt(state.bits, nblocks, alignment, r)
      ensures r != NOT_FOUND ==> forall q: nat :: q < r ==> !FitsAt(state.bits, nblocks, alignment, q)
    {
      hide Shape, Scanning, FitsAt, NoFitBelow, LeastAligned, RoundUp, IsPow2;
      ghost var bits := state.bits;
      var runStart: nat, runLen: nat := 0, 0;
      var i: nat := 0;
      if alignment > 1 {
        Pow2Word(alignment);
        RoundUpSpec(alignment, 0);
        i := RoundUp(alignment, 0);
      }
      ScanStarts(bits, nblocks, alignment, i);
      while i < total
        invariant Scanning(bits, nblocks, alignment, runStart, runLen, i)
        decreases total - i
      {
        var taken := BitmapGet(i);
        if !taken {
          StepClear(bits, nblocks, alignment, runStart, runLen, i);
          if runLen == 0 { runStart := i; }
          runLen := runLen + 1;
          if runLen >= nblocks { return runStart; }
        } else {
          StepTaken(bits, nblocks, alignment, runStart, runLen, i);
          runLen := 0;
          NextAligned(alignment, i + 1);
          if alignment > 1 {
            RoundUpSpec(alignment, i + 1);
            var nextAligned := RoundUp(alignment, i + 1);
            if nextAligned > i + 1 {
              i := nextAligned - 1;
              runLen := 0;
            }
          }
        }
        i := i + 1;
      }
      ScanEnds(bits, nblocks, alignment, runStart, runLen, i);
      return NOT_FOUND;
    }

    method CheckClear(lo: nat, n: nat) returns (ok: bool)
      requires Shape() && lo <= total
      ensures ok <==> Clear(state.bits, lo, n)
    {
      hide Shape;
      ok := true;
      var i := 0;
      while i < n && ok
        invariant 0 <= i <= n
        invariant ok ==> Clear(state.bits, lo, i)
        invariant !ok ==> !Clear(state.bits, lo, n)
      {
        if lo + i >= total {
          ok := false;
        } else {
          var taken := BitmapGet(lo + i);
          if taken { ok := false; }
        }
        i := i + 1;
      }
    }

    // ---------- scalars and words of pool memory ----------

    method SetUsed(n: int)
      requires Shape()
      modifies `used, `state
      ensures Shape() && state == old(state).(used := n)
    {
      used := n;
      state := state.(used := n);
    }

    method SetHead(p: u32)
      requires Shape()
      modifies `head, `state
      ensures Shape() && state == old(state).(head := p)
    {
      head := p;
      state := state.(head := p);
    }

    method LoadWord(a: nat) returns (v: u32)
      requires Shape() && a + 4 <= |state.mem|
      ensures v == Load32(state.mem, a)
    {
      var b0: int, b1: int, b2: int, b3: int := mem[a], mem[a + 1], mem[a + 2], mem[a + 3];
      v := b0 + 0x100 * b1 + 0x1_0000 * b2 + 0x100_0000 * b3;
    }

    method StoreWord(a: nat, v: u32)
      requires Shape() && a + 4 <= |state.mem|
      modifies mem, `state
      ensures Shape() && state == old(state).(mem := Store32(old(state.mem), a, v))
    {
      var b := Bytes32(v);
      mem[a], mem[a + 1], mem[a + 2], mem[a + 3] := b[0], b[1], b[2], b[3];
      state := state.(mem := Store32(state.mem, a, v));
    }

    method StoreByte(a: nat, v: byte)
      requires Shape() && a < |state.mem|
      modifies mem, `state
      ensures Shape() && state == old(state).(mem := old(state.mem)[a := v])
    {
      mem[a] := v;
      state := state.(mem := state.mem[a := v]);
    }

    method LoadByte(a: nat) returns (v: byte)
      requires Shape() && a < |state.mem|
      ensures v == state.mem[a]
    {
      v := mem[a];
    }

    method WriteHeader(block: u32, len: u32, next: u32)
      requires Shape() && Off(block) + 16 <= |state.mem|
      modifies mem, `state
      ensures Shape() && state == old(state).(mem := PutHeader(old(state.mem), Extent(block, len), next))
    {
      hide Shape, Store32, Stored, Load32;
      StoreWord(Off(block), block);
      StoreWord(Off(block) + 4, len);
      StoreWord(Off(block) + 8, MAGIC_ALLOCATED);
      StoreWord(Off(block) + 12, next);
    }

    // ---------- public interface ----------

    method AllocAligned(size: u32, alignment: u32) returns (ptr: u32)
      requires Valid() && size + 4111 < 0x1_0000_0000
      modifies this, mem, bitmap
      ensures Valid()
      ensures old(head) < 0x1_0000_0000 && var r := Alloc(old(state), old(live), size);
                state == r.0 && live == r.1 && ptr == r.2
    {
      SmallPool(state, live);
      if size == 0 { return 0; }
      hide Shape, Inv, Alloc, FirstFit, BlocksFor, WellSized, Place;
      var nblocks := BlocksFor(size);
      var start := FindContiguousFree(nblocks, AlignBlocks(alignment));
      FirstFitIs(state.bits, nblocks, start);
      Found(state, live, size, start);
      if start == NOT_FOUND { return 0; }
      Occupy(start, nblocks);
      ptr := base + start * 4096 + 16;
      AllocDone(old(state), old(live), size, start, state, live);
    }

    /** Mark the blocks, count them, write the header and link it at the head of the list. */
    method Occupy(start: u32, nblocks: u32)
      requires Shape() && WellSized(state) && nblocks >= 1 && start + nblocks <= |state.bits|
      modifies this, mem, bitmap
      ensures Shape()
      ensures old(state.head) < 0x1_0000_0000
      ensures state == Place(old(state), old(live), Extent(start, nblocks)).0
      ensures live == [Extent(start, nblocks)] + old(live)
    {
      hide Shape, WellSized, Place, PutHeader, HeaderPut, Paint, Off;
      ghost var s0, live0 := state, live;
      BlockFits(s0, start);
      live := [Extent(start, nblocks)] + live;
      Claim(start, nblocks);
      Register(start, nblocks);
      Placed(s0, live0, Extent(start, nblocks), state);
    }

    method Register(start: u32, nblocks: u32)
      requires Shape() && Off(start) + 16 <= |state.mem| && base + Off(start) < 0x1_0000_0000
      modifies this`state, this`head, mem
      ensures Shape()
      ensures state == old(state).(mem := PutHeader(old(state.mem), Extent(start, nblocks), old(head)),
                                   head := base + Off(start))
    {
      hide Shape, PutHeader, HeaderPut;
      WriteHeader(start, nblocks, head);
      SetHead(base + start * 4096);
    }

    method Claim(start: u32, nblocks: u32)
      requires Shape() && start + nblocks <= total
      modifies this`state, this`used, bitmap
      ensures Shape()
      ensures state == old(state).(bits := Paint(old(state.bits), start, start + nblocks, true),
                                   used := old(state.used) + nblocks)
    {
      hide Shape, Paint;
      MarkBlocks(start, nblocks);
      SetUsed(used + nblocks);
    }

    /** Walk the links in memory up to the header of live[k]: `prev` is the address of the header that
        links to it, 0 if the list head does. */
    method FindLink(hdr: u32, ghost k: nat) returns (prev: u32, cur: u32)
      requires Shape() && Listed(state, live) && k < |live| && hdr == HeaderAddr(base, live[k])
      ensures cur == hdr && prev == if k == 0 then 0 else HeaderAddr(base, live[k - 1])
    {
      hide Shape, Listed, Load32;
      LinksOk(state, live, k);
      prev, cur := 0, head;
      ghost var j: nat := 0;
      while cur != 0 && cur != hdr
        invariant j <= k && cur == NextPtr(base, live, j)
        invariant prev == if j == 0 then 0 else HeaderAddr(base, live[j - 1])
        decreases |live| - j
      {
        prev := cur;
        cur := LoadWord(cur - base + 12);
        j := j + 1;
      }
    }

    /** Take the header of live[k] off the list and poison it. */
    method Detach(hdr: u32, ghost k: nat)
      requires Shape() && Listed(state, live) && k < |live| && hdr == HeaderAddr(base, live[k])
      modifies `head, `state, mem
      ensures Shape() && CanDetach(old(state), live, k) && state == DetachedState(old(state), live, k)
    {
      hide Shape, Listed, Load32, Store32, Stored, DetachedState;
      ghost var s0 := state;
      LinksOk(state, live, k);
      var prev, cur := FindLink(hdr, k);
      if cur != 0 {
        var next := LoadWord(hdr - base + 12);
        if prev == 0 {
          SetHead(next);
        } else {
          StoreWord(prev - base + 12, next);
        }
      }
      ghost var s1 := state;
      StoreWord(hdr - base + 8, MAGIC_FREED);
      StoresDetach(s0, live, k, s1, state);
    }

    /** The critical section of free, for the accepted pointer of live[k]. */
    method Release(hdr: nat, ghost k: nat)
      requires Shape() && Inv(state, live) && k < |live| && hdr == Off(live[k].start)
      modifies this, mem, bitmap
      ensures Shape() && Inv(state, live)
      ensures state == FreeAt(old(state), old(live), k) && live == RemoveAt(old(live), k)
    {
      ghost var s0 := state;
      InvParts(s0, live, k);
      hide Shape, Inv, Listed, Load32, Paint, RemoveAt, FreeAt, CanDetach, DetachedState;
      var start := LoadWord(hdr);
      var n := LoadWord(hdr + 4);
      UnmarkBlocks(start, n);
      ghost var s1 := state;
      SetUsed(used - n);
      ghost var s2 := state;
      ListedFrame(s0, s2, live);
      Detach(base + hdr, k);
      Released(s0, live, k, start, n, s1, s2, state);
      live := RemoveAt(live, k);
    }

    method Free(ptr: u32)
      requires Valid()
      requires Accepted(state, ptr) ==> Find(base, live, ptr) < |live|
      modifies this, mem, bitmap
      ensures Valid()
      ensures var r := PoolSpec.Free(old(state), old(live), ptr); state == r.0 && live == r.1
    {
      hide Shape, FreeAt, RemoveAt, Load32;
      if ptr < base + 16 || ptr >= base + total * 4096 { return; }
      if ptr == 0 { return; }
      var hdr := ptr - base - 16;
      var magic := LoadWord(hdr + 8);
      if magic != MAGIC_ALLOCATED { return; }
      Release(hdr, Find(base, live, ptr));
    }

    /** memcpy inside the pool; C leaves it undefined when source and target overlap. */
    method CopyBytes(dst: nat, src: nat, n: nat)
      requires Shape() && src + n <= |state.mem| && dst + n <= |state.mem|
      requires dst + n <= src || src + n <= dst
      modifies mem, `state
      ensures Shape() && state == PoolRealloc.Memcpy(old(state), dst, src, n)
    {
      hide Shape;
      var i := 0;
      assert Blit(state.mem, src, dst, 0) == state.mem;
      while i < n
        invariant 0 <= i <= n && Shape()
        invariant state == old(state).(mem := Blit(old(state.mem), src, dst, i))
      {
        var v := LoadByte(src + i);
        StoreByte(dst + i, v);
        assert state.mem == Blit(old(state.mem), src, dst, i + 1);
        i := i + 1;
      }
    }

    /** The critical section of realloc: grow live[k] in place if the blocks behind it are free. */
    method TryExpand(hdr: nat, extra: nat, newBlocks: u32, ghost k: nat) returns (ok: bool)
      requires Shape() && Inv(state, live) && k < |live| && hdr == Off(live[k].start)
      requires newBlocks == live[k].len + extra
      modifies this, mem, bitmap
      ensures Shape()
      ensures var r := PoolRealloc.TryExpand(old(state), old(live), k, extra);
                state == r.0 && live == r.1 && ok == r.2
    {
      InvParts(state, live, k);
      ghost var s0, e := state, live[k];
      hide Shape, Inv, Listed, Load32, Paint, Store32, Stored, PoolRealloc.TryExpand;
      var start := LoadWord(hdr);
      var n := LoadWord(hdr + 4);
      var next := start + n;
      ok := CheckClear(next, extra);
      NotExpanded(s0, live, k, extra, next, ok);
      if ok {
        Grow(hdr, next, extra, newBlocks, k);
      }
    }

    method Grow(hdr: nat, next: nat, extra: nat, newBlocks: u32, ghost k: nat)
      requires Valid() && k < |live| && hdr == Off(live[k].start) && next == live[k].start + live[k].len
      requires newBlocks == live[k].len + extra && Clear(state.bits, next, extra)
      modifies this, mem, bitmap
      ensures Shape()
      ensures var r := PoolRealloc.TryExpand(old(state), old(live), k, extra); state == r.0 && live == r.1 && r.2
    {
      hide Shape, Inv, Listed, Load32, Paint, Store32, Stored, PoolRealloc.TryExpand;
      assert next + extra <= |state.bits|;
      hide Clear;
      ghost var s0, live0 := state, live;
      InvParts(s0, live, k);
      MarkBlocks(next, extra);
      ghost var s1 := state;
      SetUsed(used + extra);
      ghost var s2 := state;
      StoreWord(hdr + 4, newBlocks);
      live := live[k := Extent(live[k].start, newBlocks)];
      Expanded(s0, live0, k, extra, next, newBlocks, s1, s2, state, live);
    }

    /** Allocate, copy all old user bytes, free the old extent. */
    method MoveTo(ptr: u32, oldUserSize: nat, newSize: u32, ghost k: nat) returns (p: u32)
      requires Valid() && k < |live| && ptr == UserPtr(base, live[k])
      requires oldUserSize == UserSize(live[k]) < newSize && newSize + 4111 < 0x1_0000_0000
      modifies this, mem, bitmap
      ensures Shape()
      ensures var r := Move(old(state), old(live), k, newSize);
                state == r.0 && live == r.1 && p == r.2
    {
      ghost var s0, live0 := state, live;
      hide Shape, Inv, Alloc, PoolSpec.Free, Find, Move, Memcpy, Accepted;
      p := AllocAligned(newSize, 4096);
      ghost var s1, live1 := state, live;
      BeforeCopy(s0, live0, k, newSize, s1, live1, p);
      if p != 0 {
        CopyBytes(p - base, ptr - base, oldUserSize);
        AfterCopy(s0, live0, k, newSize, s1, live1, p, state);
        Free(ptr);
      }
    }

    method Realloc(ptr: u32, newSize: u32) returns (p: u32)
      requires Valid() && newSize + 4111 < 0x1_0000_0000
      requires ptr != 0 ==> Find(base, live, ptr) < |live|
      modifies this, mem, bitmap
      ensures Valid()
      ensures var r := PoolRealloc.Realloc(old(state), old(live), ptr, newSize);
                state == r.0 && live == r.1 && p == r.2
    {
      hide Shape, Alloc, PoolSpec.Free, ReallocAt, Inv;
      if ptr == 0 {
        p := AllocAligned(newSize, 4096);
      } else if newSize == 0 {
        Free(ptr);
        p := 0;
      } else {
        p := Resize(ptr, newSize, Find(base, live, ptr));
      }
    }

    /** Realloc of the live pointer of live[k] to a non-zero size. */
    method Resize(ptr: u32, newSize: u32, ghost k: nat) returns (p: u32)
      requires Valid() && k < |live| && ptr == UserPtr(base, live[k])
      requires newSize + 4111 < 0x1_0000_0000
      modifies this, mem, bitmap
      ensures Shape()
      ensures var r := ReallocAt(old(state), old(live), k, newSize);
                state == r.0 && live == r.1 && p == r.2
    {
      hide Shape, Inv, Listed, Load32, Move, PoolRealloc.TryExpand, ReallocAt, BlocksFor;
      InvParts(state, live, k);
      ReallocCases(state, live, k, newSize);
      var hdr := ptr - base - 16;
      var numBlocks := LoadWord(hdr + 4);
      var oldUserSize := numBlocks * 4096 - 16;
      if newSize <= oldUserSize { return ptr; }
      p := GrowOrMove(ptr, numBlocks, newSize, k);
    }

    /** Realloc beyond what the allocation holds. */
    method GrowOrMove(ptr: u32, numBlocks: u32, newSize: u32, ghost k: nat) returns (p: u32)
      requires Valid() && k < |live| && ptr == UserPtr(base, live[k]) && numBlocks == live[k].len
      requires UserSize(live[k]) < newSize && newSize + 4111 < 0x1_0000_0000
      modifies this, mem, bitmap
      ensures Shape()
      ensures var r := ReallocAt(old(state), old(live), k, newSize);
                state == r.0 && live == r.1 && p == r.2
    {
      hide Shape, Inv, Listed, Load32, Move, PoolRealloc.TryExpand, ReallocAt, BlocksFor;
      InvParts(state, live, k);
      ReallocCases(state, live, k, newSize);
      MoreBlocks(live[k].len, newSize);
      var newBlocks := BlocksFor(newSize);
      var ok := TryExpand(ptr - base - 16, newBlocks - numBlocks, newBlocks, k);
      if ok {
        p := ptr;
      } else {
        p := MoveTo(ptr, numBlocks * 4096 - 16, newSize, k);
      }
    }

    method FreeSize() returns (n: int)
      requires Valid()
      ensures n == 4096 * (|state.bits| - PopCount(state.bits))
    {
      UsedIsPopCount(state, live);
      return (total - used) * 4096;
    }

    /** 4096 times the length of the longest run of clear bits. */
    method MaxFreeBlock() returns (n: int)
      requires Valid()
      ensures exists r: nat :: LongestRun(state.bits, r) && n == 4096 * r
    {
      hide Shape, Inv;
      ghost var bits := state.bits;
      var maxRun: nat, curRun: nat := 0, 0;
      var i: nat := 0;
      while i < total
        invariant i <= total && curRun <= i
        invariant RunTo(bits, i, curRun) && LongestIn(bits, i, maxRun)
      {
        var taken := BitmapGet(i);
        RunStep(bits, i, curRun, maxRun);
        if !taken {
          curRun := curRun + 1;
          if curRun > maxRun { maxRun := curRun; }
        } else {
          curRun := 0;
        }
        i := i + 1;
      }
      assert LongestRun(bits, maxRun);
      return maxRun * 4096;
    }
  }

  // ---------- the scan for the longest free run ----------

  /** The clear run that ends just before i has length cur. */
  ghost predicate RunTo(bits: seq<bool>, i: nat, cur: nat) {
    cur <= i <= |bits| && Clear(bits, i - cur, cur) && (cur < i ==> bits[i - cur - 1])
  }

  ghost predicate LongestIn(bits: seq<bool>, i: nat, r: nat) {
    && (exists lo: nat :: lo + r <= i && Clear(bits, lo, r))
    && (forall lo: nat, n: nat :: lo + n <= i && Clear(bits, lo, n) ==> n <= r)
  }

  lemma RunStep(bits: seq<bool>, i: nat, cur: nat, best: nat)
    requires i < |bits| && RunTo(bits, i, cur) && LongestIn(bits, i, best)
    ensures var cur' := if bits[i] then 0 else cur + 1;
      RunTo(bits, i + 1, cur') && LongestIn(bits, i + 1, if cur' > best then cur' else best)
  {
  }

  lemma ClearedBits(words: seq<u32>, total: nat)
    requires total <= 32 * |words| && forall j :: 0 <= j < |words| ==> words[j] == 0
    ensures forall i :: 0 <= i < total ==> !BitsOf(words, total)[i]
  {
    forall i | 0 <= i < total ensures !BitsOf(words, total)[i] {
      ShrZero(i % 32);
    }
  }

  lemma SmallPool(s: State, live: seq<Extent>)
    requires Inv(s, live)
    ensures s.head < 0x1_0000_0000 && WellSized(s)
    ensures |s.bits| < 0x8000_0000 && |s.mem| == Off(|s.bits|) && s.base + |s.mem| < 0x1_0000_0000
  {
  }

  predicate FitsAt(bits: seq<bool>, n: nat, alignment: nat, q: nat) {
    Aligned(q, alignment) && Clear(bits, q, n)
  }

  ghost predicate NoFitBelow(bits: seq<bool>, n: nat, alignment: nat, lim: nat) {
    forall q: nat :: q < lim ==> !FitsAt(bits, n, alignment, q)
  }

  /** The scan stands at i inside a clear run of runLen < n bits that begins aligned; nothing fits before it. */
  ghost predicate Scanning(bits: seq<bool>, n: nat, alignment: nat, runStart: nat, runLen: nat, i: nat) {
    && runLen < n
    && (runLen == 0 ==> Aligned(i, alignment) && NoFitBelow(bits, n, alignment, i))
    && (runLen > 0 ==> runStart + runLen == i && Aligned(runStart, alignment) && Clear(bits, runStart, runLen) &&
                       NoFitBelow(bits, n, alignment, runStart))
  }

  lemma ScanStarts(bits: seq<bool>, n: nat, alignment: nat, i: nat)
    requires n >= 1 && (i == 0 || LeastAligned(i, alignment, 0))
    ensures Scanning(bits, n, alignment, 0, 0, i)
  {
    assert Aligned(0, alignment);
  }

  lemma StepClear(bits: seq<bool>, n: nat, alignment: nat, runStart: nat, runLen: nat, i: nat)
    requires Scanning(bits, n, alignment, runStart, runLen, i) && i < |bits| && !bits[i]
    ensures runLen > 0 ==> runStart <= i
    ensures var runStart' := if runLen == 0 then i else runStart;
      if runLen + 1 >= n then
        FitsAt(bits, n, alignment, runStart') && forall q: nat :: q < runStart' ==> !FitsAt(bits, n, alignment, q)
      else Scanning(bits, n, alignment, runStart', runLen + 1, i + 1)
  {
  }

  /** A set bit at i rules out every start up to i, hence every start before the next aligned index. */
  lemma StepTaken(bits: seq<bool>, n: nat, alignment: nat, runStart: nat, runLen: nat, i: nat)
    requires Scanning(bits, n, alignment, runStart, runLen, i) && i < |bits| && bits[i]
    ensures forall next: nat :: LeastAligned(next, alignment, i + 1) ==> Scanning(bits, n, alignment, runStart, 0, next)
  {
  }

  lemma ScanEnds(bits: seq<bool>, n: nat, alignment: nat, runStart: nat, runLen: nat, i: nat)
    requires Scanning(bits, n, alignment, runStart, runLen, i) && i >= |bits|
    ensures forall q: nat :: !FitsAt(bits, n, alignment, q)
  {
  }

  // ---------- rounding up to a power of two ----------

  lemma NextAligned(alignment: nat, x: nat)
    ensures alignment <= 1 ==> LeastAligned(x, alignment, x)
    ensures forall r: nat :: LeastAligned(r, alignment, x) ==> r >= x
  {
  }

  function RoundUp(a: u32, x: u32): nat
    requires 1 <= a
  {
    And((x + a - 1) % 0x1_0000_0000, Not32(a - 1))
  }

  lemma Pow2Word(a: nat)
    requires IsPow2(a)
    ensures 1 <= a <= 0x8000_0000
  {
    var k: nat :| k < 32 && a == Pow2(k);
    Pow2Of32();
    Pow2Monotone(k, 31);
  }

  lemma RoundUpMasks(a: nat, y: nat)
    requires IsPow2(a) && y < 0x1_0000_0000
    ensures 1 <= a <= 0x8000_0000
    ensures And(y, Not32(a - 1)) == y - y % a
  {
    hide And, Low;
    Pow2Word(a);
    var k: nat :| k < 32 && a == Pow2(k);
    Pow2Of32();
    AndHighMask(y, 32, k);
  }

  /** `(x + a - 1) & ~(a - 1)` is the least multiple of a that is at least x, for any power of two a,
      as long as the sum does not wrap. */
  lemma RoundUpSpec(a: nat, x: nat)
    requires IsPow2(a) && x + a - 1 < 0x1_0000_0000
    ensures 1 <= a <= 0x8000_0000 && x < 0x1_0000_0000
    ensures RoundUp(a, x) < x + a && LeastAligned(RoundUp(a, x), a, x)
  {
    hide IsPow2, LeastAligned, RoundUp;
    Pow2Word(a);
    var y := x + a - 1;
    RoundUpIs(a, x);
    RoundDown(a, y);
    LeastMultiple(a, x, y - y % a);
  }

  lemma RoundUpIs(a: nat, x: nat)
    requires IsPow2(a) && x + a - 1 < 0x1_0000_0000
    ensures 1 <= a <= 0x8000_0000 && x < 0x1_0000_0000
    ensures RoundUp(a, x) == (x + a - 1) - (x + a - 1) % a
  {
    hide And, IsPow2;
    Pow2Word(a);
    RoundUpMasks(a, x + a - 1);
  }

  lemma FirstFitIs(bits: seq<bool>, n: nat, start: u32)
    requires n >= 1 && |bits| < 0x8000_0000
    requires start == NOT_FOUND ==> forall q: nat :: !FitsAt(bits, n, 1, q)
    requires start != NOT_FOUND ==> FitsAt(bits, n, 1, start) && forall q: nat :: q < start ==> !FitsAt(bits, n, 1, q)
    ensures FirstFit(bits, n, 0) == if start == NOT_FOUND then -1 else start
  {
    var f := FirstFit(bits, n, 0);
    if f != -1 { assert FitsAt(bits, n, 1, f); }
    if start != NOT_FOUND { assert Clear(bits, start, n); }
  }

  /** The part of the invariant that concerns the list. */
  ghost predicate Listed(s: State, live: seq<Extent>) {
    && WellSized(s) && Laid(live, |s.bits|) && HeadersOk(s.base, s.mem, live)
    && s.head == NextPtr(s.base, live, 0)
  }

  lemma ListedFrame(s: State, s': State, live: seq<Extent>)
    requires Listed(s, live) && s'.base == s.base && s'.mem == s.mem && s'.head == s.head && |s'.bits| == |s.bits|
    ensures Listed(s', live)
  {
  }

  lemma LinksOk(s: State, live: seq<Extent>, k: nat)
    requires Listed(s, live) && k < |live|
    ensures s.base > 0 && s.head == NextPtr(s.base, live, 0)
    ensures forall j :: 0 <= j < |live| ==>
              Off(live[j].start) + 16 <= |s.mem| && HeaderAddr(s.base, live[j]) < 0x1_0000_0000 &&
              Load32(s.mem, Off(live[j].start) + 12) == NextPtr(s.base, live, j + 1)
    ensures forall j :: 0 <= j < |live| && j != k ==> live[j].start != live[k].start
  {
    forall j | 0 <= j < |live|
      ensures Off(live[j].start) + 16 <= |s.mem| && HeaderAddr(s.base, live[j]) < 0x1_0000_0000 &&
              Load32(s.mem, Off(live[j].start) + 12) == NextPtr(s.base, live, j + 1)
    {
      assert HeaderOk(s.base, s.mem, live, j);
    }
    assert forall j :: 0 <= j < |live| && j != k ==> Apart(live[j], live[k]);
  }

  lemma InvParts(s: State, live: seq<Extent>, k: nat)
    requires Inv(s, live) && k < |live|
    ensures Listed(s, live) && s.base + |s.mem| < 0x1_0000_0000 && |s.mem| == Off(|s.bits|)
    ensures live[k].start + live[k].len <= |s.bits| && live[k].len >= 1
    ensures Load32(s.mem, Off(live[k].start)) == live[k].start
    ensures Load32(s.mem, Off(live[k].start) + 4) == live[k].len
  {
    assert HeaderOk(s.base, s.mem, live, k);
  }

  predicate CanDetach(s: State, live: seq<Extent>, k: nat) {
    && k < |live| && NextPtr(s.base, live, k + 1) < 0x1_0000_0000 && Off(live[k].start) + 16 <= |s.mem|
    && (k > 0 ==> Off(live[k - 1].start) + 16 <= |s.mem|)
  }

  function DetachedState(s: State, live: seq<Extent>, k: nat): State
    requires CanDetach(s, live, k)
  {
    var next := NextPtr(s.base, live, k + 1);
    s.(head := if k == 0 then next else s.head, mem := Detached(s.mem, live, k, next))
  }

  // ---------- the steps of each critical section put together ----------

  lemma StoresDetach(s: State, live: seq<Extent>, k: nat, s1: State, s2: State)
    requires CanDetach(s, live, k)
    requires var next := NextPtr(s.base, live, k + 1);
      s1 == if k == 0 then s.(head := next) else s.(mem := Store32(s.mem, Off(live[k - 1].start) + 12, next))
    requires s2 == s1.(mem := Store32(s1.mem, Off(live[k].start) + 8, MAGIC_FREED))
    ensures s2 == DetachedState(s, live, k)
  {
    hide Store32;
  }

  lemma Released(s: State, live: seq<Extent>, k: nat, start: nat, n: nat, s1: State, s2: State, s3: State)
    requires Inv(s, live) && k < |live| && CanDetach(s2, live, k) && Extent(start, n) == live[k]
    requires s1 == s.(bits := Paint(s.bits, start, start + n, false))
    requires s2 == s1.(used := s1.used - n)
    requires s3 == DetachedState(s2, live, k)
    ensures s3 == FreeAt(s, live, k) && Inv(s3, RemoveAt(live, k))
  {
    hide Inv, Detached, Paint;
    FreeAtKeepsInv(s, live, k);
  }

  lemma NotExpanded(s: State, live: seq<Extent>, k: nat, extra: nat, next: nat, ok: bool)
    requires Inv(s, live) && k < |live| && next == live[k].start + live[k].len && (ok <==> Clear(s.bits, next, extra))
    ensures !ok ==> var r := PoolRealloc.TryExpand(s, live, k, extra); r.0 == s && r.1 == live && !r.2
  {
  }

  lemma Expanded(s: State, live: seq<Extent>, k: nat, extra: nat, next: nat, len: u32, s1: State, s2: State, s3: State,
                 live': seq<Extent>)
    requires Inv(s, live) && k < |live| && next == live[k].start + live[k].len && Clear(s.bits, next, extra)
    requires len == live[k].len + extra && Off(live[k].start) + 8 <= |s.mem|
    requires s1 == s.(bits := Paint(s.bits, next, next + extra, true))
    requires s2 == s1.(used := s1.used + extra)
    requires s3 == s2.(mem := Store32(s2.mem, Off(live[k].start) + 4, len))
    requires live' == live[k := Extent(live[k].start, len)]
    ensures var r := PoolRealloc.TryExpand(s, live, k, extra); r.0 == s3 && r.1 == live' && r.2
  {
  }

  /** The alignment argument after both clamps: always one block. */
  function AlignBlocks(alignment: u32): (a: u32)
    ensures a == 1
  {
    var align := if alignment > 4096 then 4096 else if alignment < 1 then 1 else alignment;
    if align / 4096 < 1 then 1 else align / 4096
  }

  lemma Found(s: State, live: seq<Extent>, size: u32, start: u32)
    requires Inv(s, live) && 0 < size && size + 4111 < 0x1_0000_0000
    requires FirstFit(s.bits, BlocksFor(size), 0) == if start == NOT_FOUND then -1 else start
    ensures s.head < 0x1_0000_0000
    ensures start == NOT_FOUND ==> var r := Alloc(s, live, size); r.0 == s && r.1 == live && r.2 == 0
    ensures start != NOT_FOUND ==>
              start + BlocksFor(size) <= |s.bits| && s.base + start * 4096 + 16 < 0x1_0000_0000
  {
  }

  lemma MoreBlocks(len: nat, newSize: u32)
    requires 4096 * len - 16 < newSize && newSize + 4111 < 0x1_0000_0000
    ensures len <= BlocksFor(newSize) < 0x1_0000_0000
  {
    BlocksForCovers(newSize);
  }

  /** The branches of realloc, component by component. */
  lemma ReallocCases(s: State, live: seq<Extent>, k: nat, newSize: u32)
    requires Inv(s, live) && k < |live| && newSize + 4111 < 0x1_0000_0000
    ensures var r, ptr := ReallocAt(s, live, k, newSize), UserPtr(s.base, live[k]);
      if newSize <= UserSize(live[k]) then r.0 == s && r.1 == live && r.2 == ptr
      else
        BlocksFor(newSize) >= live[k].len &&
        var t := PoolRealloc.TryExpand(s, live, k, BlocksFor(newSize) - live[k].len);
        if t.2 then r.0 == t.0 && r.1 == t.1 && r.2 == ptr
        else
          var m := Move(s, live, k, newSize);
          t.0 == s && t.1 == live && r.0 == m.0 && r.1 == m.1 && r.2 == m.2
  {
    hide Move, Inv, ExpandAt, CanExpand;
  }

  lemma BlockFits(s: State, start: nat)
    requires WellSized(s) && start < |s.bits|
    ensures Off(start) + 16 <= |s.mem| && s.base + Off(start) + 16 < 0x1_0000_0000
  {
  }

  lemma Placed(s: State, live: seq<Extent>, e: Extent, s': State)
    requires WellSized(s) && s.head < 0x1_0000_0000 && e.len >= 1 && e.start + e.len <= |s.bits|
    requires Off(e.start) + 16 <= |s.mem| && e.len < 0x1_0000_0000
    requires s' == s.(bits := Paint(s.bits, e.start, e.start + e.len, true), used := s.used + e.len,
                      mem := PutHeader(s.mem, e, s.head), head := s.base + Off(e.start))
    ensures Place(s, live, e).0 == s'
  {
    hide PutHeader, Paint;
  }

  lemma AllocDone(s: State, live: seq<Extent>, size: u32, start: u32, s': State, live': seq<Extent>)
    requires Inv(s, live) && 0 < size && size + 4111 < 0x1_0000_0000 && s.head < 0x1_0000_0000
    requires start != NOT_FOUND && start == FirstFit(s.bits, BlocksFor(size), 0)
    requires s' == Place(s, live, Extent(start, BlocksFor(size))).0
    requires live' == [Extent(start, BlocksFor(size))] + live
    ensures var r := Alloc(s, live, size);
      r.0 == s' && r.1 == live' && r.2 == s.base + start * 4096 + 16 && Inv(s', live')
  {
    AllocKeepsInv(s, live, size);
    hide BlocksFor, FirstFit, PutHeader, HeaderPut, Paint, Inv;
  }
}
