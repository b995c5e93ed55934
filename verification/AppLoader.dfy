/** The loader and relocator as they run: a file streamed in 4 KB chunks into pool memory, patched in place there,
    and given back on every failure (src/app_loader.c). */
module AppLoader {
  import opened Words
  import opened Reloc
  import opened PoolSpec
  import opened PoolRealloc
  import opened PoolLaws
  import opened PsramPool
  import opened LoaderSpec
  import EspappFile

  const CHUNK: nat := 4096

  /** memcpy of a chunk into pool memory. */
  method WriteBytes(pool: Pool, at: nat, data: seq<byte>)
    requires pool.Shape() && at + |data| <= |pool.state.mem|
    modifies pool, pool.mem
    ensures pool.Shape() && pool.live == old(pool.live)
    ensures pool.state == old(pool.state).(mem := Splice(old(pool.state.mem), at, data))
  {
    ghost var s0, live0 := pool.state, pool.live;
    assert Splice(s0.mem, at, data[..0]) == s0.mem;
    var i := 0;
    while i < |data|
      invariant 0 <= i <= |data| && pool.Shape() && pool.live == live0
      invariant pool.state == s0.(mem := Splice(s0.mem, at, data[..i]))
    {
      pool.StoreByte(at + i, data[i]);
      SpliceByte(s0.mem, at, data, i);
      i := i + 1;
    }
    assert data[..i] == data;
  }

  /** memset to zero. */
  method ZeroFill(pool: Pool, at: nat, n: nat)
    requires pool.Shape() && at + n <= |pool.state.mem|
    modifies pool, pool.mem
    ensures pool.Shape() && pool.live == old(pool.live)
    ensures pool.state == old(pool.state).(mem := Zeroed(old(pool.state.mem), at, n))
  {
    ghost var s0, live0 := pool.state, pool.live;
    assert Zeroed(s0.mem, at, 0) == s0.mem;
    var i := 0;
    while i < n
      invariant 0 <= i <= n && pool.Shape() && pool.live == live0
      invariant pool.state == s0.(mem := Zeroed(s0.mem, at, i))
    {
      pool.StoreByte(at + i, 0);
      ZeroedByte(s0.mem, at, i);
      i := i + 1;
    }
  }

  lemma ZeroedByte(mem: seq<byte>, at: nat, i: nat)
    requires at + i < |mem|
    ensures Zeroed(mem, at, i)[at + i := 0] == Zeroed(mem, at, i + 1)
  {
  }

  // ---------- relocation in pool memory ----------

  /** The region of pool memory at `at` holds img; everything else is as in mem. */
  ghost predicate Standing(pool: Pool, s0: State, at: nat, img: seq<byte>)
    reads pool, pool.mem, pool.bitmap
  {
    && pool.Shape() && at + |img| <= |s0.mem|
    && pool.state == s0.(mem := Splice(s0.mem, at, img))
  }

  method FetchWord(pool: Pool, ghost s0: State, at: nat, ghost img: seq<byte>, a: nat) returns (w: u32)
    requires Standing(pool, s0, at, img) && a + 4 <= |img|
    ensures w == Load32(img, a)
  {
    hide Load32;
    SpliceLoad(s0.mem, at, img, a);
    w := pool.LoadWord(at + a);
  }

  method PatchWord(pool: Pool, ghost s0: State, at: nat, ghost img: seq<byte>, a: nat, v: u32)
    requires Standing(pool, s0, at, img) && a + 4 <= |img|
    modifies pool, pool.mem
    ensures Standing(pool, s0, at, Store32(img, a, v)) && pool.live == old(pool.live)
  {
    hide Store32, Stored, Splice;
    SpliceStore(s0.mem, at, img, a, v);
    pool.StoreWord(at + a, v);
  }

  method FetchEntry(pool: Pool, ghost s0: State, at: nat, ghost img: seq<byte>, a: nat) returns (e: Entry)
    requires Standing(pool, s0, at, img) && a + 8 <= |img|
    ensures e == ReadEntry(img, a)
  {
    assert pool.state.mem == Splice(s0.mem, at, img);
    var offset := FetchWord(pool, s0, at, img, a);
    var kind := pool.LoadByte(at + a + 4);
    var target := pool.LoadByte(at + a + 5);
    var lo: int := pool.LoadByte(at + a + 6);
    var hi: int := pool.LoadByte(at + a + 7);
    assert kind == img[a + 4] && target == img[a + 5];
    assert lo == img[a + 6] && hi == img[a + 7];
    e := Entry(offset, kind, target, lo + 256 * hi);
  }

  method ResolveTarget(base: u32, h: Header, target: byte, api: seq<u32>) returns (ok: bool, v: u32)
    requires base + h.code + h.rodata + h.data < 0x1_0000_0000
    ensures ok <==> IsSection(target) || IsApi(target, api)
    ensures ok ==> v == Resolve(base, h, target, api)
  {
    var rodataBase := base + h.code;
    var dataBase := rodataBase + h.rodata;
    var bssBase := dataBase + h.data;
    ok, v := true, 0;
    if target == 0 { v := base; }
    else if target == 1 { v := rodataBase; }
    else if target == 2 { v := dataBase; }
    else if target == 3 { v := bssBase; }
    else if target >= 0x10 {
      var index := target - 0x10;
      if index >= |api| { ok := false; } else { v := api[index]; }
    } else { ok := false; }
  }

  /** One turn of the loop: resolve the target, then patch by type; either check may fail. */
  method PatchEntry(pool: Pool, ghost s0: State, at: nat, ghost img: seq<byte>, base: u32, h: Header, api: seq<u32>,
                    e: Entry) returns (ok: bool)
    requires Standing(pool, s0, at, img) && WellFormed(e, |img|)
    requires base + |img| < 0x1_0000_0000 && h.code + h.rodata + h.data <= |img|
    modifies pool, pool.mem
    ensures pool.live == old(pool.live) && ok == Good(e, api)
    ensures Standing(pool, s0, at, if ok then PatchOne(img, base, h, api, e) else img)
  {
    hide Standing, Store32, Stored, Load32, CallWord, Signed32, Resolve, Signed16;
    var known, target := ResolveTarget(base, h, e.target, api);
    if !known { return false; }
    var targetVal := (target + Signed16(e.addend)) % 0x1_0000_0000;
    if e.kind == REL_ABS32 || e.kind == REL_L32R || e.kind == REL_KERNEL_API {
      PatchWord(pool, s0, at, img, e.offset, targetVal);
      ok := true;
    } else if e.kind == REL_CALL {
      var patchAddr := base + e.offset;
      var insn := FetchWord(pool, s0, at, img, e.offset);
      CallWordIs(insn, targetVal, patchAddr);
      PatchWord(pool, s0, at, img, e.offset, CallWord(insn, targetVal, patchAddr));
      ok := true;
    } else { ok := false; }
  }

  /** Read the table from memory behind the sections and patch the image in place. */
  method ApplyRelocations(pool: Pool, ghost s0: State, at: nat, ghost img0: seq<byte>, base: u32, h: Header,
                          api: seq<u32>) returns (ok: bool, ghost img: seq<byte>)
    requires Standing(pool, s0, at, img0) && base + |img0| < 0x1_0000_0000
    requires SizesAddUp(h) && LoadedSize(h) + 8 * h.relocCount <= |img0|
    requires SitesBelow(img0, LoadedSize(h), h.relocCount)
    modifies pool, pool.mem
    ensures pool.live == old(pool.live) && Standing(pool, s0, at, img)
    ensures Outcome(img, ok) == ApplyInPlace(img0, base, h, api, LoadedSize(h), h.relocCount, 0)
  {
    hide ApplyInPlace, PatchOne, ReadEntry, Good, Splice, Standing, SitesBelow, Table;
    img := img0;
    var table := LoadedSize(h);
    var i := 0;
    while i < h.relocCount
      invariant 0 <= i <= h.relocCount && |img| == |img0| && Standing(pool, s0, at, img)
      invariant SitesBelow(img, table, h.relocCount) && pool.live == old(pool.live)
      invariant ApplyInPlace(img, base, h, api, table, h.relocCount, i) ==
                ApplyInPlace(img0, base, h, api, table, h.relocCount, 0)
    {
      var e := FetchEntry(pool, s0, at, img, table + 8 * i);
      InPlaceTurn(img, base, h, api, table, h.relocCount, i);
      ok := PatchEntry(pool, s0, at, img, base, h, api, e);
      if !ok { return; }
      img := PatchOne(img, base, h, api, e);
      i := i + 1;
    }
    InPlaceEnd(img, base, h, api, table, h.relocCount);
    ok := true;
  }

  lemma InPlaceEnd(img: seq<byte>, base: u32, h: Header, api: seq<u32>, table: nat, n: nat)
    requires table + 8 * n <= |img| && SitesBelow(img, table, n)
    ensures ApplyInPlace(img, base, h, api, table, n, n) == Outcome(img, true)
  {
  }

  // ---------- load and unload ----------

  /** fread: at most n bytes from pos on. */
  function Fread(f: seq<byte>, pos: nat, n: nat): (r: seq<byte>)
    requires pos <= |f|
    ensures |r| <= n && (|r| == n <==> pos + n <= |f|) && r <= f[pos..]
  {
    if pos + n <= |f| then f[pos..pos + n] else f[pos..]
  }

  /** The 4 KB loop: the same bytes go, in order, to the hash and to memory. */
  method StreamBody(pool: Pool, ghost s1: State, at: nat, f: seq<byte>, h: Header)
    returns (ok: bool, hashed: seq<byte>, ghost img: seq<byte>)
    requires |f| >= HEADER_BYTES && Standing(pool, s1, at, []) && at + StreamLen(h) <= |s1.mem|
    modifies pool, pool.mem
    ensures pool.live == old(pool.live) && Standing(pool, s1, at, img) && |img| <= StreamLen(h)
    ensures ok <==> |f| >= HEADER_BYTES + StreamLen(h)
    ensures ok ==> hashed == img == f[HEADER_BYTES..HEADER_BYTES + StreamLen(h)]
  {
    hide Standing, StreamLen;
    var pos := HEADER_BYTES;
    var remaining: nat := StreamLen(h);
    hashed, img := [], [];
    var offset := 0;
    while remaining > 0
      invariant pos == HEADER_BYTES + offset <= |f| && offset + remaining == StreamLen(h)
      invariant hashed == img == f[HEADER_BYTES..pos]
      invariant Standing(pool, s1, at, img) && pool.live == old(pool.live)
      decreases remaining
    {
      var chunk := if remaining < CHUNK then remaining else CHUNK;
      var buf := Fread(f, pos, chunk);
      if |buf| != chunk { return false, hashed, img; }
      hashed := hashed + buf;
      AppendChunk(pool, s1, at, img, at + offset, buf);
      assert f[HEADER_BYTES..pos] + buf == f[HEADER_BYTES..pos + chunk];
      img := img + buf;
      pos := pos + chunk;
      offset := offset + chunk;
      remaining := remaining - chunk;
    }
    ok := true;
  }

  method AppendChunk(pool: Pool, ghost s1: State, at: nat, ghost img: seq<byte>, to: nat,
                     buf: seq<byte>)
    requires Standing(pool, s1, at, img) && to == at + |img| && at + |img| + |buf| <= |s1.mem|
    modifies pool, pool.mem
    ensures Standing(pool, s1, at, img + buf) && pool.live == old(pool.live)
  {
    SpliceMore(s1.mem, at, img, buf);
    WriteBytes(pool, to, buf);
  }

  method ClearBss(pool: Pool, ghost s1: State, at: nat, ghost img: seq<byte>, from: nat, n: nat)
    requires Standing(pool, s1, at, img) && from + n <= |img|
    modifies pool, pool.mem
    ensures Standing(pool, s1, at, Zeroed(img, from, n)) && pool.live == old(pool.live)
  {
    SpliceZeroed(s1.mem, at, img, from, n);
    ZeroFill(pool, at + from, n);
  }

  /** The pool as it was when memory was granted, and the extent granted. */
  datatype Grant = Grant(s0: State, live0: seq<Extent>, e: Extent)

  /** g is a free run of g.s0 that can be handed out, at user address p. */
  ghost predicate Granted(g: Grant, p: nat) {
    && Inv(g.s0, g.live0) && g.s0.head < 0x1_0000_0000 && 1 <= g.e.len && Clear(g.s0.bits, g.e.start, g.e.len)
    && p == UserPtr(g.s0.base, g.e) && p + UserSize(g.e) < 0x1_0000_0000
    && Off(g.e.start) + 16 + UserSize(g.e) <= |g.s0.mem|
  }

  ghost function GrantedState(g: Grant): State
    requires WellSized(g.s0) && g.s0.head < 0x1_0000_0000 && 1 <= g.e.len && g.e.start + g.e.len <= |g.s0.bits|
  {
    Place(g.s0, g.live0, g.e).0
  }

  /** g has been allocated at p and its user memory starts with img; nothing else was touched. */
  ghost predicate Writing(pool: Pool, g: Grant, p: nat, img: seq<byte>)
    reads pool, pool.mem, pool.bitmap
  {
    && Granted(g, p) && pool.base == g.s0.base && |img| <= UserSize(g.e)
    && pool.live == [g.e] + g.live0
    && Standing(pool, GrantedState(g), Off(g.e.start) + 16, img)
  }

  /** Give the blocks back after a failure. */
  method Cleanup(pool: Pool, p: u32, ghost g: Grant, ghost img: seq<byte>)
    requires Writing(pool, g, p, img)
    modifies pool, pool.mem, pool.bitmap
    ensures pool.Valid() && pool.live == g.live0 && Restored(g.s0, pool.state, g.e)
  {
    SpliceHolds(g, p, img);
    UnloadRestores(g.s0, g.live0, pool.state, pool.live, g.e);
    hide Restored, Holds, Splice, Place, GrantedState;
    pool.Free(p);
  }

  lemma SpliceHolds(g: Grant, p: nat, img: seq<byte>)
    requires Granted(g, p) && |img| <= UserSize(g.e)
    ensures var s1 := GrantedState(g);
      && Off(g.e.start) + 16 + |img| <= |s1.mem|
      && Holds(g.s0, g.live0, s1.(mem := Splice(s1.mem, Off(g.e.start) + 16, img)), [g.e] + g.live0, g.e)
  {
  }

  lemma AllocGrants(s0: State, live0: seq<Extent>, size: u32, s1: State, live1: seq<Extent>, p: nat)
    requires Inv(s0, live0) && 0 < size && size + 4111 < 0x1_0000_0000 && s0.head < 0x1_0000_0000
    requires var r := Alloc(s0, live0, size); s1 == r.0 && live1 == r.1 && p == r.2
    ensures p == 0 ==> s1 == s0 && live1 == live0 && FirstFit(s0.bits, BlocksFor(size), 0) == -1
    ensures p != 0 ==>
              && FirstFit(s0.bits, BlocksFor(size), 0) != -1 && |live1| >= 1
              && var g := Grant(s0, live0, live1[0]);
                && g.e.len == BlocksFor(size) && size <= UserSize(g.e) && Granted(g, p)
                && s1 == GrantedState(g) && live1 == [g.e] + live0
  {
  }

  lemma StreamRoom(g: Grant, p: nat, h: Header)
    requires Granted(g, p) && BodyLen(h) <= UserSize(g.e)
    ensures StreamLen(h) == BodyLen(h) && p - g.s0.base == Off(g.e.start) + 16
    ensures p - g.s0.base + StreamLen(h) <= |GrantedState(g).mem|
  {
    hide PutHeader, Paint, BodyLen, StreamLen;
    StreamIsBody(h);
  }

  method ReadBody(pool: Pool, p: u32, ghost g: Grant, f: seq<byte>, h: Header)
    returns (ok: bool, hashed: seq<byte>, ghost img: seq<byte>)
    requires Writing(pool, g, p, []) && |f| >= HEADER_BYTES && BodyLen(h) <= UserSize(g.e)
    modifies pool, pool.mem
    ensures Writing(pool, g, p, img)
    ensures ok <==> |f| >= HEADER_BYTES + BodyLen(h)
    ensures ok ==> hashed == img == Body(f, h)
  {
    hide Standing, GrantedState, BodyLen, StreamLen, UserSize;
    StreamRoom(g, p, h);
    ok, hashed, img := StreamBody(pool, GrantedState(g), p - pool.base, f, h);
  }

  /** What e's user memory holds behind img. */
  ghost function Behind(g: Grant, p: nat, img: seq<byte>): seq<byte>
    requires Granted(g, p) && |img| <= UserSize(g.e)
  {
    GrantedState(g).mem[Off(g.e.start) + 16 + |img|..Off(g.e.start) + 16 + UserSize(g.e)]
  }

  lemma WholeRegion(pool: Pool, g: Grant, p: nat, img: seq<byte>)
    requires Writing(pool, g, p, img)
    ensures var all := img + Behind(g, p, img); |all| == UserSize(g.e) && Writing(pool, g, p, all)
  {
    hide PutHeader, HeaderPut, Paint;
    SplicePrefix(GrantedState(g).mem, Off(g.e.start) + 16, img, UserSize(g.e));
  }

  method PrepareBss(pool: Pool, p: u32, ghost g: Grant, ghost img: seq<byte>, from: nat, n: nat)
    requires Writing(pool, g, p, img) && from + n <= |img|
    modifies pool, pool.mem
    ensures Writing(pool, g, p, Zeroed(img, from, n))
  {
    hide PutHeader, HeaderPut, Paint, GrantedState, Standing, Zeroed;
    ClearBss(pool, GrantedState(g), p - pool.base, img, from, n);
  }

  method Relocate(pool: Pool, p: u32, ghost g: Grant, ghost img0: seq<byte>, h: Header, api: seq<u32>)
    returns (ok: bool, ghost img: seq<byte>)
    requires Writing(pool, g, p, img0) && SizesAddUp(h) && BodyLen(h) <= |img0|
    requires SitesBelow(img0, LoadedSize(h), h.relocCount)
    modifies pool, pool.mem
    ensures Writing(pool, g, p, img)
    ensures Outcome(img, ok) == ApplyInPlace(img0, p, h, api, LoadedSize(h), h.relocCount, 0)
  {
    ok, img := ApplyRelocations(pool, GrantedState(g), p - pool.base, img0, p, h, api);
  }

  /** The 64 bytes behind the body are its signature. */
  method CheckSignature(f: seq<byte>, end: nat, hashed: seq<byte>, env: Env) returns (st: Status)
    requires end <= |f|
    ensures st == if |f| < end + 64 then BodyRead
                  else if !SignatureHolds(env, hashed, f[end..end + 64]) then Signature else LoadOk
  {
    var sig := Fread(f, end, 64);
    if |sig| != 64 { return BodyRead; }
    return if SignatureHolds(env, hashed, sig) then LoadOk else Signature;
  }

  /** Steps 3 to 7 of the load; whatever the result, only e's user memory has been written. */
  method Fill(pool: Pool, p: u32, ghost g: Grant, f: seq<byte>, h: Header, env: Env, api: seq<u32>)
    returns (st: Status, ghost img: seq<byte>, ghost tail: seq<byte>)
    requires Writing(pool, g, p, [])
    requires |f| >= HEADER_BYTES && h == ParseHeader(f) && Validate(f, env) == LoadOk && SizesAddUp(h)
    requires BodyLen(h) <= UserSize(g.e) && TotalRam(h) <= UserSize(g.e)
    requires |f| >= HEADER_BYTES + BodyLen(h) ==> SitesBelow(Body(f, h), LoadedSize(h), h.relocCount)
    modifies pool, pool.mem
    ensures st == StatusOf(Some(f), env, api, true) && Writing(pool, g, p, img)
    ensures st == LoadOk ==> |img| == UserSize(g.e) && ImageLoaded(img, tail, p, f, h, api)
  {
    StatusAfterHeader(f, env, api);
    HeaderFacts(f, env);
    hide Writing, StatusOf, Validate, ParseHeader, ImageLoaded, TableRead, AllGood, SitesBelow, Body, TotalRam,
      SizesAddUp, LoadedSize, UserSize, SignatureHolds, AfterBody;
    tail := [];
    var ok, hashed;
    ok, hashed, img := ReadBody(pool, p, g, f, h);
    if !ok { st := BodyRead; return; }
    st, img, tail := VerifyAndRelocate(pool, p, g, f, h, hashed, env, api);
  }

  /** Steps 4 to 7, with the body in memory. */
  method VerifyAndRelocate(pool: Pool, p: u32, ghost g: Grant, f: seq<byte>, h: Header, hashed: seq<byte>, env: Env,
                           api: seq<u32>)
    returns (st: Status, ghost img: seq<byte>, ghost tail: seq<byte>)
    requires |f| >= HEADER_BYTES + BodyLen(h) && Writing(pool, g, p, Body(f, h)) && hashed == Body(f, h)
    requires SizesAddUp(h) && TotalRam(h) <= UserSize(g.e) && h.code >= 4 && h.bss % 4 == 0
    requires SitesBelow(Body(f, h), LoadedSize(h), h.relocCount)
    modifies pool, pool.mem
    ensures st == AfterBody(f, h, env, api) && Writing(pool, g, p, img)
    ensures st == LoadOk ==> |img| == UserSize(g.e) && ImageLoaded(img, tail, p, f, h, api)
  {
    hide Writing, ImageLoaded, TableRead, AllGood, SitesBelow, Body, TotalRam, SizesAddUp, LoadedSize, UserSize,
      SignatureHolds;
    img, tail := hashed, [];
    st := CheckSignature(f, HEADER_BYTES + BodyLen(h), hashed, env);
    if st != LoadOk { return; }
    var ok;
    ok, img, tail := RelocateBody(pool, p, g, f, h, api);
    st := if !ok then RelocError else if !env.ctxOk then PsAlloc else LoadOk;
  }

  /** BSS memset, then relocation. */
  method RelocateBody(pool: Pool, p: u32, ghost g: Grant, ghost f: seq<byte>, h: Header, api: seq<u32>)
    returns (ok: bool, ghost img: seq<byte>, ghost tail: seq<byte>)
    requires |f| >= HEADER_BYTES + BodyLen(h) && Writing(pool, g, p, Body(f, h))
    requires SizesAddUp(h) && TotalRam(h) <= UserSize(g.e) && h.code >= 4 && h.bss % 4 == 0
    requires SitesBelow(Body(f, h), LoadedSize(h), h.relocCount)
    modifies pool, pool.mem
    ensures Writing(pool, g, p, img) && |img| == UserSize(g.e) && ImageLoaded(img, tail, p, f, h, api)
    ensures ok <==> AllGood(TableRead(f, h), api)
  {
    hide Writing, SitesBelow, ApplyInPlace, TableRead, AllGood, ImageLoaded, Staged, Body;
    tail := Stage(pool, p, g, f, h);
    ok, img := Relocate(pool, p, g, Staged(f, h, tail), h, api);
    RelocationDone(f, h, tail, p, api, img, ok);
  }

  method Stage(pool: Pool, p: u32, ghost g: Grant, ghost f: seq<byte>, h: Header) returns (ghost tail: seq<byte>)
    requires |f| >= HEADER_BYTES + BodyLen(h) && Writing(pool, g, p, Body(f, h))
    requires SizesAddUp(h) && TotalRam(h) <= UserSize(g.e) && h.code >= 4 && h.bss % 4 == 0
    requires SitesBelow(Body(f, h), LoadedSize(h), h.relocCount)
    modifies pool, pool.mem
    ensures Writing(pool, g, p, Staged(f, h, tail)) && |Staged(f, h, tail)| == UserSize(g.e)
    ensures BodyLen(h) <= UserSize(g.e) && SitesBelow(Staged(f, h, tail), LoadedSize(h), h.relocCount)
  {
    WholeRegion(pool, g, p, Body(f, h));
    tail := Behind(g, p, Body(f, h));
    StagedSites(f, h, tail);
    ghost var all := Body(f, h) + tail;
    hide Writing, Granted, SitesBelow, Zeroed, Behind, Staged, Body, TotalRam, LoadedSize, SizesAddUp, UserSize;
    PrepareBss(pool, p, g, all, LoadedSize(h), h.bss);
  }

  lemma StagedSites(f: seq<byte>, h: Header, tail: seq<byte>)
    requires |f| >= HEADER_BYTES + BodyLen(h) && SizesAddUp(h) && h.code >= 4 && h.bss % 4 == 0
    requires SitesBelow(Body(f, h), LoadedSize(h), h.relocCount)
    ensures SitesBelow(Staged(f, h, tail), LoadedSize(h), h.relocCount) && BodyLen(h) <= |Staged(f, h, tail)|
    ensures |Staged(f, h, tail)| == BodyLen(h) + |tail| && LoadedSize(h) + h.bss == TotalRam(h)
    ensures Staged(f, h, tail) == Zeroed(Body(f, h) + tail, LoadedSize(h), h.bss)
  {
  }

  lemma RelocationDone(f: seq<byte>, h: Header, tail: seq<byte>, p: u32, api: seq<u32>, img: seq<byte>, ok: bool)
    requires |f| >= HEADER_BYTES + BodyLen(h) && SizesAddUp(h) && h.code >= 4 && h.bss % 4 == 0
    requires SitesBelow(Body(f, h), LoadedSize(h), h.relocCount)
    requires SitesBelow(Staged(f, h, tail), LoadedSize(h), h.relocCount) && BodyLen(h) <= |Staged(f, h, tail)|
    requires Outcome(img, ok) == ApplyInPlace(Staged(f, h, tail), p, h, api, LoadedSize(h), h.relocCount, 0)
    ensures ImageLoaded(img, tail, p, f, h, api) && |img| == |Staged(f, h, tail)|
    ensures ok <==> AllGood(TableRead(f, h), api)
  {
    hide ApplyInPlace, SitesBelow, TableRead, AllGood, Zeroed;
    StagedOk(f, h, tail, p, api);
  }

  /** Everything after the allocation: on failure the blocks are given back. */
  method LoadInto(pool: Pool, p: u32, ghost g: Grant, f: seq<byte>, h: Header, env: Env, api: seq<u32>)
    returns (st: Status, ghost img: seq<byte>, ghost tail: seq<byte>)
    requires Writing(pool, g, p, [])
    requires |f| >= HEADER_BYTES && h == ParseHeader(f) && Validate(f, env) == LoadOk && SizesAddUp(h)
    requires BodyLen(h) <= UserSize(g.e) && TotalRam(h) <= UserSize(g.e)
    requires |f| >= HEADER_BYTES + BodyLen(h) ==> SitesBelow(Body(f, h), LoadedSize(h), h.relocCount)
    modifies pool, pool.mem, pool.bitmap
    ensures st == StatusOf(Some(f), env, api, true)
    ensures st != LoadOk ==> pool.Valid() && pool.live == g.live0 && Restored(g.s0, pool.state, g.e)
    ensures st == LoadOk ==>
              Writing(pool, g, p, img) && |img| == UserSize(g.e) && ImageLoaded(img, tail, p, f, h, api)
  {
    hide Writing, StatusOf, Validate, Restored, ImageLoaded, ParseHeader, SitesBelow;
    st, img, tail := Fill(pool, p, g, f, h, env, api);
    if st != LoadOk { Cleanup(pool, p, g, img); }
  }

  lemma HeaderFacts(f: seq<byte>, env: Env)
    requires |f| >= HEADER_BYTES && Validate(f, env) == LoadOk
    ensures var h := ParseHeader(f); h.code >= 4 && h.bss % 4 == 0
  {
    hide ParseHeader;
    AcceptedFacts(ParseHeader(f), env.crc(f[..60]));
  }

  lemma AcceptedFacts(h: Header, crc: u32)
    requires ValidateHeader(h, crc) == LoadOk
    ensures h.code >= 4 && h.bss % 4 == 0
    ensures SizesAddUp(h) ==> 0 < TotalRam(h) && TotalRam(h) + 4111 < 0x1_0000_0000
  {
  }

  /** A successful load: e stands at the head of the list of a pool otherwise as before, holding the relocated image,
      and the context points at it. */
  ghost predicate Loaded(s0: State, live0: seq<Extent>, s: State, live: seq<Extent>, e: Extent, tail: seq<byte>,
                         ctx: Context, f: seq<byte>, api: seq<u32>)
  {
    && Inv(s0, live0) && s0.head < 0x1_0000_0000 && Holds(s0, live0, s, live, e)
    && Off(e.start + e.len) <= |s.mem| && UserPtr(s0.base, e) < 0x1_0000_0000 && |f| >= HEADER_BYTES
    && var h := ParseHeader(f);
      && ctx == Context(UserPtr(s0.base, e), TotalRam(h), h.entry) && TotalRam(h) <= UserSize(e)
      && ImageLoaded(UserData(s, e), tail, UserPtr(s0.base, e), f, h, api)
  }

  /** app_loader_load. `e` is the extent the image was given, `tail` what its blocks held behind the body. */
  method Load(pool: Pool, file: Option<seq<byte>>, env: Env, api: seq<u32>)
    returns (st: Status, ctx: Option<Context>, ghost e: Extent, ghost tail: seq<byte>)
    requires pool.Valid() && (file.Some? ==> Loadable(file.value, env))
    modifies pool, pool.mem, pool.bitmap
    ensures pool.Valid()
    ensures st == StatusOf(file, env, api, Fits(old(pool.state), file))
    ensures st != LoadOk ==> ctx == None && pool.live == old(pool.live) && Restored(old(pool.state), pool.state, e)
    ensures st == LoadOk ==>
              file.Some? && ctx.Some? &&
              Loaded(old(pool.state), old(pool.live), pool.state, pool.live, e, tail, ctx.value, file.value, api)
    ensures st == LoadOk ==>
              var f := file.value;
              && EspappFile.Signed(f, EspappFile.Unpack(f), env) && ctx.value.entry == Load32(f, 60)
              && ctx.value.totalRam == EspappFile.Ram(EspappFile.Unpack(f))
  {
    ctx, e, tail := None, Extent(0, 0), [];
    if file.None? { st := FileOpen; return; }
    var f := file.value;
    if |f| < HEADER_BYTES { st := HeaderRead; return; }
    var h := ParseHeader(f);
    st := ValidateHeader(h, env.crc(f[..60]));
    if st != LoadOk { return; }
    HeaderFacts(f, env);
    ghost var s0 := pool.state;
    st, ctx, e, tail := LoadAccepted(pool, f, h, env, api);
    if st == LoadOk { AcceptedContext(s0, f, env, api); }
  }

  lemma AcceptedContext(s0: State, f: seq<byte>, env: Env, api: seq<u32>)
    requires |f| >= HEADER_BYTES && StatusOf(Some(f), env, api, Fits(s0, Some(f))) == LoadOk && Loadable(f, env)
    ensures EspappFile.Signed(f, EspappFile.Unpack(f), env)
    ensures ParseHeader(f).entry == Load32(f, 60) && TotalRam(ParseHeader(f)) == EspappFile.Ram(EspappFile.Unpack(f))
  {
    hide ParseHeader, Validate, AfterBody, Fits, SitesBelow;
    EspappFile.AcceptedFile(s0, f, env, api);
  }

  /** The load of a file whose header has been accepted. */
  method LoadAccepted(pool: Pool, f: seq<byte>, h: Header, env: Env, api: seq<u32>)
    returns (st: Status, ctx: Option<Context>, ghost e: Extent, ghost tail: seq<byte>)
    requires pool.Valid() && |f| >= HEADER_BYTES && h == ParseHeader(f) && Validate(f, env) == LoadOk
    requires Loadable(f, env)
    modifies pool, pool.mem, pool.bitmap
    ensures pool.Valid()
    ensures st == StatusOf(Some(f), env, api, Fits(old(pool.state), Some(f)))
    ensures st != LoadOk ==> ctx == None && pool.live == old(pool.live) && Restored(old(pool.state), pool.state, e)
    ensures st == LoadOk ==>
              ctx.Some? && Loaded(old(pool.state), old(pool.live), pool.state, pool.live, e, tail, ctx.value, f, api)
  {
    ghost var s0, live0 := pool.state, pool.live;
    SmallPool(s0, live0);
    LoadReady(f, env);
    ctx, e, tail := None, Extent(0, 0), [];
    hide Alloc, Restored, ImageLoaded, ParseHeader, Holds, Validate, Loaded, StatusOf, Fits, SitesBelow, Body, Loadable,
      SizesAddUp, BodyLen, TotalRam, LoadedSize, BlocksFor, FirstFit, Granted, GrantedState;
    var size := TotalRam(h);
    var p := pool.AllocAligned(size, 4);
    AllocGrants(s0, live0, size, pool.state, pool.live, p);
    StatusByFit(f, env, api, s0);
    if p == 0 { st := PsAlloc; return; }
    e := pool.live[0];
    ghost var g, img := Grant(s0, live0, e), [];
    StartWriting(pool, g, p);
    st, img, tail := LoadInto(pool, p, g, f, h, env, api);
    if st == LoadOk {
      ctx := Some(Context(p, size, h.entry));
      LoadedNow(pool, g, p, img, tail, ctx.value, f, api);
    }
  }

  lemma LoadReady(f: seq<byte>, env: Env)
    requires |f| >= HEADER_BYTES && Validate(f, env) == LoadOk && Loadable(f, env)
    ensures var h := ParseHeader(f);
      && SizesAddUp(h) && 0 < TotalRam(h) && TotalRam(h) + 4111 < 0x1_0000_0000
      && BodyLen(h) <= 4096 * BlocksFor(TotalRam(h)) - 16
      && (|f| >= HEADER_BYTES + BodyLen(h) ==> SitesBelow(Body(f, h), LoadedSize(h), h.relocCount))
  {
    HeaderFacts(f, env);
    HeaderRoom(f, env);
    hide Validate, ParseHeader, SitesBelow, Body, SizesAddUp, TotalRam, BlocksFor, LoadedSize, BodyLen;
  }

  lemma HeaderRoom(f: seq<byte>, env: Env)
    requires |f| >= HEADER_BYTES && Validate(f, env) == LoadOk && SizesAddUp(ParseHeader(f))
    ensures var h := ParseHeader(f); 0 < TotalRam(h) && TotalRam(h) + 4111 < 0x1_0000_0000
  {
    hide ParseHeader, TotalRam, SizesAddUp;
    AcceptedFacts(ParseHeader(f), env.crc(f[..60]));
  }

  /** A block just granted holds nothing of the image yet. */
  lemma StartWriting(pool: Pool, g: Grant, p: nat)
    requires pool.Shape() && Granted(g, p) && pool.state == GrantedState(g) && pool.live == [g.e] + g.live0
    ensures Writing(pool, g, p, [])
  {
    SpliceNothing(pool.state.mem, Off(g.e.start) + 16);
  }

  lemma LoadedNow(pool: Pool, g: Grant, p: u32, img: seq<byte>, tail: seq<byte>, ctx: Context, f: seq<byte>,
                  api: seq<u32>)
    requires Writing(pool, g, p, img) && |img| == UserSize(g.e) && |f| >= HEADER_BYTES
    requires ctx == Context(p, TotalRam(ParseHeader(f)), ParseHeader(f).entry) && ctx.totalRam <= UserSize(g.e)
    requires ImageLoaded(img, tail, p, f, ParseHeader(f), api)
    ensures Loaded(g.s0, g.live0, pool.state, pool.live, g.e, tail, ctx, f, api) && pool.Valid()
  {
    SpliceHolds(g, p, img);
    UnloadRestores(g.s0, g.live0, pool.state, pool.live, g.e);
    assert UserData(pool.state, g.e) == img;
  }

  /** app_loader_unload, at any later time: whatever the app wrote into its own memory, and whatever else has been
      allocated or freed meanwhile, e is given back and every other allocation is kept. If nothing else changed since
      the load from s0 and live0, the pool is as before it, but for bytes in the image's own blocks. */
  method Unload(pool: Pool, ctx: Context, ghost e: Extent, ghost s0: State, ghost live0: seq<Extent>)
    requires pool.Valid() && e in pool.live && ctx.base == UserPtr(pool.base, e)
    modifies pool, pool.mem, pool.bitmap
    ensures pool.Valid()
    ensures exists k: nat :: k < |old(pool.live)| && old(pool.live)[k] == e && pool.live == RemoveAt(old(pool.live), k)
    ensures forall d :: d in old(pool.live) && d != e ==> Kept(old(pool.state), pool.state, pool.live, d)
    ensures Inv(s0, live0) && s0.head < 0x1_0000_0000 && Holds(s0, live0, old(pool.state), old(pool.live), e) ==>
              pool.live == live0 && Restored(s0, pool.state, e)
  {
    ghost var k: nat :| k < |pool.live| && pool.live[k] == e;
    FindLive(pool.base, pool.live, k, |pool.state.bits|);
    FreeFrame(pool.state, pool.live, k);
    LiveAccepted(pool.state, pool.live, k);
    if Inv(s0, live0) && s0.head < 0x1_0000_0000 && Holds(s0, live0, pool.state, pool.live, e) {
      UnloadRestores(s0, live0, pool.state, pool.live, e);
    }
    hide Restored, Holds, FreeAt, Kept;
    pool.Free(ctx.base);
  }

  lemma SpliceNothing(mem: seq<byte>, at: nat)
    requires at <= |mem|
    ensures Splice(mem, at, []) == mem
  {
  }
}
