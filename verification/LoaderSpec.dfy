/** What app_loader_load does with a file, on values (src/app_loader.c:207-325). */
module LoaderSpec {
  import opened Words
  import opened Reloc
  import opened PoolSpec
  import opened PoolLaws

  datatype Option<T> = None | Some(value: T)

  /** ROM and library routines, and whether malloc grants the context. */
  datatype Env = Env(crc: seq<byte> -> u32, hash: seq<byte> -> seq<byte>, verify: (seq<byte>, seq<byte>) -> bool,
                     ctxOk: bool)

  /** The loader's context: where the image stands and where to enter it. */
  datatype Context = Context(base: nat, totalRam: u32, entry: u32)

  /** The packed header as it lies in the file. */
  function ParseHeader(f: seq<byte>): Header
    requires |f| >= HEADER_BYTES
  {
    Header(Load32(f, 0), f[4], Load32(f, 40), Load32(f, 44), Load32(f, 48), Load32(f, 52),
           Load32(f, 56), Load32(f, 60), Load32(f, 68))
  }

  function Validate(f: seq<byte>, env: Env): Status
    requires |f| >= HEADER_BYTES
  {
    ValidateHeader(ParseHeader(f), env.crc(f[..60]))
  }

  /** Sections and relocation table. */
  function BodyLen(h: Header): nat {
    LoadedSize(h) + 8 * h.relocCount
  }

  /** How many bytes the loader streams: the same sum in 32-bit size_t arithmetic. */
  function StreamLen(h: Header): u32 {
    (LoadedSize(h) + 8 * h.relocCount % 0x1_0000_0000) % 0x1_0000_0000
  }

  lemma StreamIsBody(h: Header)
    ensures StreamLen(h) == BodyLen(h) <==> BodyLen(h) < 0x1_0000_0000
    ensures StreamLen(h) <= BodyLen(h)
  {
  }

  function Body(f: seq<byte>, h: Header): (b: seq<byte>)
    requires |f| >= HEADER_BYTES + BodyLen(h)
    ensures |b| == BodyLen(h)
  {
    f[HEADER_BYTES..HEADER_BYTES + BodyLen(h)]
  }

  /** memset(0) over [from, from + n). */
  function Zeroed(img: seq<byte>, from: nat, n: nat): (r: seq<byte>)
    ensures |r| == |img|
  {
    seq(|img|, i requires 0 <= i < |img| => if from <= i < from + n then 0 else img[i])
  }

  /** What the loader assumes of a file whose header it accepts: section sizes that add up, a body (table included)
      that fits the blocks allocated for the sections, and patch sites inside the sections. */
  ghost predicate Loadable(f: seq<byte>, env: Env) {
    |f| >= HEADER_BYTES && Validate(f, env) == LoadOk ==>
      var h := ParseHeader(f);
      && SizesAddUp(h)
      && BodyLen(h) <= 4096 * BlocksFor(TotalRam(h)) - 16
      && (|f| >= HEADER_BYTES + BodyLen(h) ==> SitesBelow(Body(f, h), LoadedSize(h), h.relocCount))
  }

  /** Byte i behind the allocation header of e lies in e. */
  predicate InUserBytes(e: Extent, i: nat) {
    Off(e.start) + 16 + i < Off(e.start + e.len)
  }

  /** The loader streams into the extent granted for sections and BSS alone. Nothing is written outside exactly when
      the 32-bit stream length fits the extent. Every byte of the table that the relocator walks has been streamed, and
      into the extent, exactly when the real body fits it: when the table fits in BSS or in what rounding up to blocks
      leaves over. */
  lemma BodyStaysInside(e: Extent, h: Header)
    requires SizesAddUp(h) && e.len == BlocksFor(TotalRam(h)) && TotalRam(h) + 4111 < 0x1_0000_0000
    ensures (forall i: nat :: i < StreamLen(h) ==> InUserBytes(e, i)) <==>
            StreamLen(h) <= 4096 * BlocksFor(TotalRam(h)) - 16
    ensures (forall i: nat :: i < BodyLen(h) ==> i < StreamLen(h) && InUserBytes(e, i)) <==>
            BodyLen(h) <= 4096 * BlocksFor(TotalRam(h)) - 16
    ensures 8 * h.relocCount <= h.bss ==> BodyLen(h) <= 4096 * BlocksFor(TotalRam(h)) - 16
    ensures BodyLen(h) <= 4096 * BlocksFor(TotalRam(h)) - 16 ==> 8 * h.relocCount < h.bss + 4096
  {
    BlocksForCovers(TotalRam(h));
    OffApart(e.start, e.len);
    StreamIsBody(h);
    assert TotalRam(h) == LoadedSize(h) + h.bss && BodyLen(h) == LoadedSize(h) + 8 * h.relocCount;
    RoomBound(TotalRam(h));
    hide BlocksFor, Off, TotalRam, LoadedSize, BodyLen, StreamLen;
    var room := 4096 * BlocksFor(TotalRam(h)) - 16;
    if StreamLen(h) > room { assert !InUserBytes(e, room); }
    if BodyLen(h) > room { assert !InUserBytes(e, room); }
  }

  lemma RoomBound(size: u32)
    requires size + 4111 < 0x1_0000_0000
    ensures 0 <= 4096 * BlocksFor(size) - 16 < 0x1_0000_0000
  {
  }

  lemma OffApart(start: nat, len: nat)
    ensures Off(start + len) - Off(start) == 4096 * len
  {
  }

  /** An accepted header whose stream runs over: 4080 bytes of code fill one block with its allocation header, and the
      one relocation entry lands in the next. */
  lemma BodyRunsOver()
    ensures var h := Header(ESPAPP_MAGIC, 1, 4080, 0, 0, 0, 1, 0, 0);
      ValidateHeader(h, 0) == LoadOk && BlocksFor(TotalRam(h)) == 1
      && StreamLen(h) == BodyLen(h) > 4096 * BlocksFor(TotalRam(h)) - 16
  {
  }

  /** An accepted header whose stream stays inside because its length wraps: 2^29 entries count as no bytes at all, and
      the relocator walks them although not one has been streamed. */
  lemma StreamWraps()
    ensures var h := Header(ESPAPP_MAGIC, 1, 4080, 0, 0, 0, 0x2000_0000, 0, 0);
      ValidateHeader(h, 0) == LoadOk && BlocksFor(TotalRam(h)) == 1
      && StreamLen(h) == LoadedSize(h) <= 4096 * BlocksFor(TotalRam(h)) - 16 < BodyLen(h)
  {
  }

  /** The table the relocator reads: the file's, after the BSS memset that runs before it. */
  function TableRead(f: seq<byte>, h: Header): seq<Entry>
    requires |f| >= HEADER_BYTES + BodyLen(h)
  {
    Table(Zeroed(Body(f, h), LoadedSize(h), h.bss), LoadedSize(h), h.relocCount)
  }

  /** The kernel verifies the hash of the body against the signature behind it. */
  predicate SignatureHolds(env: Env, body: seq<byte>, sig: seq<byte>) {
    env.verify(env.hash(body), sig)
  }

  /** The result code of what follows the reading of the body. */
  ghost function AfterBody(f: seq<byte>, h: Header, env: Env, api: seq<u32>): Status
    requires |f| >= HEADER_BYTES + BodyLen(h)
  {
    var end := HEADER_BYTES + BodyLen(h);
    if |f| < end + 64 then BodyRead
    else if !SignatureHolds(env, Body(f, h), f[end..end + 64]) then Signature
    else if !AllGood(TableRead(f, h), api) then RelocError
    else if !env.ctxOk then PsAlloc
    else LoadOk
  }

  /** The result code, branch by branch. `fits` says whether the pool has a large enough free run. */
  ghost function StatusOf(file: Option<seq<byte>>, env: Env, api: seq<u32>, fits: bool): Status {
    if file.None? then FileOpen
    else
      var f := file.value;
      if |f| < HEADER_BYTES then HeaderRead
      else if Validate(f, env) != LoadOk then Validate(f, env)
      else
        var h := ParseHeader(f);
        if !fits then PsAlloc
        else if |f| < HEADER_BYTES + BodyLen(h) then BodyRead
        else AfterBody(f, h, env, api)
  }

  /** The result code once the header is accepted and memory granted. */
  lemma StatusAfterHeader(f: seq<byte>, env: Env, api: seq<u32>)
    requires |f| >= HEADER_BYTES && Validate(f, env) == LoadOk
    ensures var h := ParseHeader(f);
      StatusOf(Some(f), env, api, true) ==
      if |f| < HEADER_BYTES + BodyLen(h) then BodyRead else AfterBody(f, h, env, api)
  {
  }

  // ---------- images inside pool memory ----------

  /** mem with data written at `at`. */
  function Splice(mem: seq<byte>, at: nat, data: seq<byte>): (r: seq<byte>)
    requires at + |data| <= |mem|
    ensures |r| == |mem|
    ensures forall i :: 0 <= i < |mem| ==> r[i] == if at <= i < at + |data| then data[i - at] else mem[i]
  {
    mem[..at] + data + mem[at + |data|..]
  }

  lemma SpliceLoad(mem: seq<byte>, at: nat, img: seq<byte>, a: nat)
    requires at + |img| <= |mem| && a + 4 <= |img|
    ensures Load32(Splice(mem, at, img), at + a) == Load32(img, a)
  {
  }

  lemma SpliceStore(mem: seq<byte>, at: nat, img: seq<byte>, a: nat, v: u32)
    requires at + |img| <= |mem| && a + 4 <= |img|
    ensures Store32(Splice(mem, at, img), at + a, v) == Splice(mem, at, Store32(img, a, v))
  {
  }

  lemma SpliceByte(mem: seq<byte>, at: nat, data: seq<byte>, i: nat)
    requires at + |data| <= |mem| && i < |data|
    ensures Splice(mem, at, data[..i])[at + i := data[i]] == Splice(mem, at, data[..i + 1])
  {
  }

  lemma SpliceMore(mem: seq<byte>, at: nat, a: seq<byte>, b: seq<byte>)
    requires at + |a| + |b| <= |mem|
    ensures Splice(Splice(mem, at, a), at + |a|, b) == Splice(mem, at, a + b)
  {
  }

  /** Writing a prefix of the region [at, at + n) leaves its tail. */
  lemma SplicePrefix(mem: seq<byte>, at: nat, a: seq<byte>, n: nat)
    requires at + n <= |mem| && |a| <= n
    ensures Splice(mem, at, a) == Splice(mem, at, a + mem[at + |a|..at + n])
  {
  }

  lemma SpliceZeroed(mem: seq<byte>, at: nat, img: seq<byte>, from: nat, n: nat)
    requires at + |img| <= |mem| && from + n <= |img|
    ensures Zeroed(Splice(mem, at, img), at + from, n) == Splice(mem, at, Zeroed(img, from, n))
  {
  }

  // ---------- the BSS memset and the relocation table ----------

  /** A memset of whole words can only clear the offset of an entry, or all of it; offset 0 is a site in the code. */
  lemma ZeroedSites(img: seq<byte>, table: nat, n: nat, bss: nat)
    requires table + 8 * n <= |img| && SitesBelow(img, table, n) && table >= 4 && bss % 4 == 0
    ensures SitesBelow(Zeroed(img, table, bss), table, n)
  {
  }

  /** The BSS memset finds zeros only where it meets the table. */
  predicate TableSurvives(f: seq<byte>, h: Header)
    requires |f| >= HEADER_BYTES + BodyLen(h)
  {
    forall i :: LoadedSize(h) <= i < BodyLen(h) && i < LoadedSize(h) + h.bss ==> Body(f, h)[i] == 0
  }

  /** The relocator reads the file's own table exactly then, in particular whenever the app has no BSS. */
  lemma TableSurvivesIff(f: seq<byte>, h: Header)
    requires |f| >= HEADER_BYTES + BodyLen(h)
    ensures TableRead(f, h) == Table(Body(f, h), LoadedSize(h), h.relocCount) <==> TableSurvives(f, h)
    ensures h.bss == 0 ==> TableSurvives(f, h)
  {
    var body, t, n := Body(f, h), LoadedSize(h), h.relocCount;
    var z := Zeroed(body, t, h.bss);
    if TableRead(f, h) == Table(body, t, n) {
      forall i | t <= i < |body| && i < t + h.bss ensures body[i] == 0 {
        var k := (i - t) / 8;
        assert Table(z, t, n)[k] == Table(body, t, n)[k];
        SameEntryBytes(z, body, t + 8 * k, i);
      }
    }
    if TableSurvives(f, h) {
      assert z == body;
    }
  }

  lemma SameEntryBytes(z: seq<byte>, m: seq<byte>, a: nat, x: nat)
    requires a + 8 <= |z| == |m| && a <= x < a + 8 && ReadEntry(z, a) == ReadEntry(m, a)
    ensures z[x] == m[x]
  {
    hide Load32;
    LoadDigits(z, a);
    LoadDigits(m, a);
  }

  /** When BSS covers the whole table, relocation degenerates: whatever the file's table said, the only effect is
      that the load address overwrites the first word of the code. */
  lemma BssErasesTable(img: seq<byte>, base: u32, h: Header, api: seq<u32>, n: nat)
    requires SizesAddUp(h) && LoadedSize(h) >= 4 && LoadedSize(h) + 8 * n <= |img| && 1 <= n && 8 * n <= h.bss
    ensures var es := Table(Zeroed(img, LoadedSize(h), h.bss), LoadedSize(h), n);
      && AllWellFormed(es, |img|)
      && ApplyList(img, base, h, api, es) == Outcome(Store32(img, 0, base), true)
  {
    var z := Zeroed(img, LoadedSize(h), h.bss);
    var es := Table(z, LoadedSize(h), n);
    forall i | 0 <= i < n ensures es[i] == Entry(0, 0, 0, 0) {
      var a := LoadedSize(h) + 8 * i;
      assert forall x :: a <= x < a + 8 ==> z[x] == 0;
    }
    ZeroEntries(img, base, h, api, es);
  }

  lemma {:induction false} ZeroEntries(img: seq<byte>, base: u32, h: Header, api: seq<u32>, es: seq<Entry>)
    requires 1 <= |es| && |img| >= 4 && forall i :: 0 <= i < |es| ==> es[i] == Entry(0, 0, 0, 0)
    ensures AllWellFormed(es, |img|)
    ensures ApplyList(img, base, h, api, es) == Outcome(Store32(img, 0, base), true)
    decreases |es|
  {
    ZeroPatch(img, base, h, api);
    var img1 := PatchOne(img, base, h, api, es[0]);
    hide Store32, Stored, PatchOne;
    assert img1 == Store32(img, 0, base) && Good(es[0], api);
    if |es| > 1 {
      ZeroEntries(img1, base, h, api, es[1..]);
      StoreTwice(img, base);
    } else {
      assert es[1..] == [];
    }
  }

  lemma ZeroPatch(img: seq<byte>, base: u32, h: Header, api: seq<u32>)
    requires |img| >= 4
    ensures var e := Entry(0, 0, 0, 0); Good(e, api) && PatchOne(img, base, h, api, e) == Store32(img, 0, base)
  {
    hide Store32, Load32;
  }

  lemma StoreTwice(img: seq<byte>, v: u32)
    requires |img| >= 4
    ensures Store32(Store32(img, 0, v), 0, v) == Store32(img, 0, v)
  {
  }

  // ---------- the pool around a loaded image ----------

  /** s1 is s with e allocated at the head of the list and e's user bytes overwritten at will. */
  ghost predicate Holds(s: State, live: seq<Extent>, s1: State, live1: seq<Extent>, e: Extent)
    requires Inv(s, live) && s.head < 0x1_0000_0000
  {
    && 1 <= e.len && Clear(s.bits, e.start, e.len) && live1 == [e] + live
    && s1 == Place(s, live, e).0.(mem := s1.mem)
    && SameOutside(Place(s, live, e).0.mem, s1.mem, Off(e.start) + 16, Off(e.start + e.len))
  }

  /** Freeing the image gives everything back: bitmap, counter, list, and every byte outside the image's blocks. */
  lemma UnloadRestores(s: State, live: seq<Extent>, s1: State, live1: seq<Extent>, e: Extent)
    requires Inv(s, live) && s.head < 0x1_0000_0000 && Holds(s, live, s1, live1, e)
    ensures Inv(s1, live1) && Find(s1.base, live1, UserPtr(s.base, e)) == 0 && Accepted(s1, UserPtr(s.base, e))
    ensures var r := Free(s1, live1, UserPtr(s.base, e)); Restored(s, r.0, e) && r.1 == live
  {
    hide PutHeader, Paint, FreeAt;
    FreeUndoesPlace(s, live, e, PutHeader(s.mem, e, s.head), s1.mem);
  }

  // ---------- the loaded image ----------

  predicate Fits(s: State, file: Option<seq<byte>>) {
    file.Some? && |file.value| >= HEADER_BYTES &&
    FirstFit(s.bits, BlocksFor(TotalRam(ParseHeader(file.value))), 0) != -1
  }

  lemma StatusByFit(f: seq<byte>, env: Env, api: seq<u32>, s: State)
    requires |f| >= HEADER_BYTES && Validate(f, env) == LoadOk
    ensures var st := StatusOf(Some(f), env, api, Fits(s, Some(f)));
      st == if FirstFit(s.bits, BlocksFor(TotalRam(ParseHeader(f))), 0) == -1 then PsAlloc
            else StatusOf(Some(f), env, api, true)
  {
    hide FirstFit, BlocksFor;
  }

  /** The image before relocation: the body as read, then what the blocks held, BSS cleared. */
  ghost function Staged(f: seq<byte>, h: Header, tail: seq<byte>): seq<byte>
    requires |f| >= HEADER_BYTES + BodyLen(h)
  {
    Zeroed(Body(f, h) + tail, LoadedSize(h), h.bss)
  }

  lemma StagedTable(f: seq<byte>, h: Header, tail: seq<byte>)
    requires |f| >= HEADER_BYTES + BodyLen(h) && SizesAddUp(h) && h.code >= 4 && h.bss % 4 == 0
    requires SitesBelow(Body(f, h), LoadedSize(h), h.relocCount)
    ensures SitesBelow(Staged(f, h, tail), LoadedSize(h), h.relocCount)
    ensures Table(Staged(f, h, tail), LoadedSize(h), h.relocCount) == TableRead(f, h)
  {
    var t: nat, n: nat := LoadedSize(h), h.relocCount;
    var body := Body(f, h);
    ZeroedSites(body, t, n, h.bss);
    SameTable(Zeroed(body, t, h.bss), Staged(f, h, tail), t, n);
  }

  /** The table depends only on the bytes up to its end. */
  lemma SameTable(m: seq<byte>, m': seq<byte>, t: nat, n: nat)
    requires t + 8 * n <= |m| <= |m'| && forall x :: 0 <= x < |m| ==> m[x] == m'[x]
    ensures Table(m', t, n) == Table(m, t, n)
    ensures SitesBelow(m, t, n) ==> SitesBelow(m', t, n)
  {
  }

  /** Relocation accepts the staged image exactly when every entry of the table it reads is good. */
  lemma StagedOk(f: seq<byte>, h: Header, tail: seq<byte>, base: u32, api: seq<u32>)
    requires |f| >= HEADER_BYTES + BodyLen(h) && SizesAddUp(h) && h.code >= 4 && h.bss % 4 == 0
    requires SitesBelow(Body(f, h), LoadedSize(h), h.relocCount)
    ensures SitesBelow(Staged(f, h, tail), LoadedSize(h), h.relocCount)
    ensures ApplyInPlace(Staged(f, h, tail), base, h, api, LoadedSize(h), h.relocCount, 0).ok <==>
            AllGood(TableRead(f, h), api)
  {
    StagedTable(f, h, tail);
    var img, t, n := Staged(f, h, tail), LoadedSize(h), h.relocCount;
    InPlaceIsList(img, base, h, api, t, n, 0);
    var es := Table(img, t, n);
    assert es[0..] == es;
    OkIffAllGood(img, base, h, api, es);
  }

  /** m is the relocated image of file f at address base; `tail` is what the blocks held behind the body. */
  ghost predicate ImageLoaded(m: seq<byte>, tail: seq<byte>, base: u32, f: seq<byte>, h: Header, api: seq<u32>) {
    && |f| >= HEADER_BYTES + BodyLen(h)
    && SitesBelow(Staged(f, h, tail), LoadedSize(h), h.relocCount)
    && m == ApplyInPlace(Staged(f, h, tail), base, h, api, LoadedSize(h), h.relocCount, 0).img
  }

  /** What an app whose table survives and whose patch sites are disjoint finds in memory: its own sections and table,
      BSS cleared, each site holding the patch for this load address. */
  lemma LoadedImage(m: seq<byte>, tail: seq<byte>, base: u32, f: seq<byte>, h: Header, api: seq<u32>)
    requires ImageLoaded(m, tail, base, f, h, api) && TableSurvives(f, h)
    requires SitesBelow(Body(f, h), LoadedSize(h), h.relocCount)
    requires var es := Table(Body(f, h), LoadedSize(h), h.relocCount); AllGood(es, api) && SitesApart(es)
    ensures var es := Table(Body(f, h), LoadedSize(h), h.relocCount);
      var img := Staged(f, h, tail);
      && Body(f, h) <= img && (h.bss == 0 ==> img == Body(f, h) + tail)
      && AllWellFormed(es, |img|) && Relocated(img, m, base, h, api, es)
  {
    BodyKept(f, h, tail);
    var rest := Staged(f, h, tail)[|Body(f, h)|..];
    assert Staged(f, h, tail) == Body(f, h) + rest;
    hide ReadEntry, ApplyInPlace, ApplyList, Relocated, SitesBelow, LoadedSize, Body, Staged;
    RelocatedInPlace(Body(f, h), rest, base, h, api);
  }

  lemma BodyKept(f: seq<byte>, h: Header, tail: seq<byte>)
    requires |f| >= HEADER_BYTES + BodyLen(h) && TableSurvives(f, h)
    ensures Body(f, h) <= Staged(f, h, tail) && (h.bss == 0 ==> Staged(f, h, tail) == Body(f, h) + tail)
  {
    ZeroNothing(Body(f, h) + tail, LoadedSize(h));
    var body := Body(f, h);
    assert forall i :: 0 <= i < |body| ==> Staged(f, h, tail)[i] == body[i];
  }

  lemma ZeroNothing(img: seq<byte>, from: nat)
    ensures Zeroed(img, from, 0) == img
  {
  }

  lemma RelocatedInPlace(body: seq<byte>, tail: seq<byte>, base: u32, h: Header, api: seq<u32>)
    requires |body| == BodyLen(h) && SitesBelow(body, LoadedSize(h), h.relocCount)
    requires var es := Table(body, LoadedSize(h), h.relocCount); AllGood(es, api) && SitesApart(es)
    ensures SitesBelow(body + tail, LoadedSize(h), h.relocCount)
    ensures var es := Table(body, LoadedSize(h), h.relocCount);
      && AllWellFormed(es, |body + tail|)
      && Relocated(body + tail, ApplyInPlace(body + tail, base, h, api, LoadedSize(h), h.relocCount, 0).img,
                   base, h, api, es)
  {
    var t: nat, n: nat := LoadedSize(h), h.relocCount;
    var img, es := body + tail, Table(body, t, n);
    hide ReadEntry, ApplyInPlace, ApplyList, Relocated, LoadedSize;
    SameTable(body, img, t, n);
    InPlaceIsList(img, base, h, api, t, n, 0);
    assert Table(img, t, n)[0..] == es;
    ListIsClosedForm(img, base, h, api, es);
  }
}
