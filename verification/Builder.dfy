/** The body of an .espapp file as the build tool writes it (tools/build_espapp.py:166-211, 243-265), and its
    agreement with what the loader reads. */
module Builder {
  import opened Words
  import opened Reloc
  import opened LoaderSpec

  // ---------- padding ----------

  /** x & ~y on naturals. */
  function AndNot(x: nat, y: nat): nat {
    if x == 0 then 0 else 2 * AndNot(x / 2, y / 2) + (if x % 2 == 1 && y % 2 == 0 then 1 else 0)
  }

  lemma {:induction false} AndNotIs(x: nat, y: nat)
    ensures AndNot(x, y) + And(x, y) == x
    decreases x
  {
    if x != 0 {
      AndNotIs(x / 2, y / 2);
      if y == 0 { assert And(x / 2, 0) == 0; }
    }
  }

  function AlignUp(value: nat, alignment: nat): nat
    requires alignment >= 1
  {
    AndNot(value + alignment - 1, alignment - 1)
  }

  /** For a power of two, align_up gives the least multiple that is at least the value. */
  lemma AlignUpSpec(value: nat, k: nat)
    ensures var a := Pow2(k); value <= AlignUp(value, a) < value + a && LeastAligned(AlignUp(value, a), a, value)
  {
    hide And, AndNot, Pow2, LeastAligned;
    var a := Pow2(k);
    var y := value + a - 1;
    AndNotIs(y, a - 1);
    AndLowMask(y, k);
    RoundDown(a, y);
    LeastMultiple(a, value, y - y % a);
  }

  function Pad(data: seq<byte>, alignment: nat): (r: seq<byte>)
    requires alignment >= 1
    ensures data <= r
  {
    var remainder := |data| % alignment;
    if remainder == 0 then data else data + seq(alignment - remainder, i => 0)
  }

  /** Padding appends zeros up to the length align_up computes. */
  lemma PadLength(data: seq<byte>, k: nat)
    ensures var a := Pow2(k);
      && |Pad(data, a)| == AlignUp(|data|, a)
      && |Pad(data, a)| % a == 0
      && forall i :: |data| <= i < |Pad(data, a)| ==> Pad(data, a)[i] == 0
  {
    var a := Pow2(k);
    AlignUpSpec(|data|, k);
    hide AlignUp, Pow2;
    PaddedMultiple(|data|, a);
    var n := |Pad(data, a)|;
    var u := AlignUp(|data|, a);
    assert Aligned(n, a);
    if u < n { MultiplesApart(a, u, n); }
  }

  lemma PaddedMultiple(n: nat, a: nat)
    requires a >= 1
    ensures n % a != 0 ==> (n + a - n % a) % a == 0
  {
    assert n == a * (n / a) + n % a;
    if n % a != 0 { ModUnique(n + a - n % a, a, n / a + 1, 0); }
  }

  // ---------- relocation entries ----------

  /** A RELA record of the ELF file. */
  datatype Rela = Rela(offset: u32, kind: byte, addend: int)

  const R_32: byte := 1
  const R_SLOT0_OP: byte := 20
  const R_ASM_EXPAND: byte := 21

  predicate Supported(r: Rela) {
    r.kind == R_32 || r.kind == R_SLOT0_OP || r.kind == R_ASM_EXPAND
  }

  /** `addend & 0xFFFF` of a Python integer: its two's complement low half. */
  function Low16(x: int): (r: int)
    ensures 0 <= r < 0x1_0000
  {
    x % 0x1_0000
  }

  function Convert(r: Rela): Entry
    requires Supported(r)
  {
    Entry(r.offset, if r.kind == R_32 then REL_ABS32 else REL_CALL, 0, Low16(r.addend))
  }

  /** The entries kept, in order. */
  function Converted(raw: seq<Rela>): seq<Entry> {
    if raw == [] then []
    else
      var rest := Converted(raw[..|raw| - 1]);
      var last := raw[|raw| - 1];
      if Supported(last) then rest + [Convert(last)] else rest
  }

  predicate Packable(e: Entry) {
    0 <= e.addend < 0x1_0000
  }

  function PackEntry(e: Entry): (r: seq<byte>)
    requires Packable(e)
    ensures |r| == 8
  {
    Bytes32(e.offset) + [e.kind, e.target] + Bytes16(e.addend)
  }

  function PackAll(es: seq<Entry>): (r: seq<byte>)
    requires forall i :: 0 <= i < |es| ==> Packable(es[i])
    ensures |r| == 8 * |es|
  {
    if es == [] then [] else PackAll(es[..|es| - 1]) + PackEntry(es[|es| - 1])
  }

  lemma {:induction false} ConvertedPackable(raw: seq<Rela>)
    ensures forall i :: 0 <= i < |Converted(raw)| ==>
              var e := Converted(raw)[i]; Packable(e) && e.target == 0 && e.kind <= 1
  {
    if raw != [] { ConvertedPackable(raw[..|raw| - 1]); }
  }

  /** Which records are kept: those of ELF type 1, 20 or 21, in their order; idx says where they stand. */
  ghost predicate Kept(raw: seq<Rela>, idx: seq<nat>) {
    && (forall a :: 0 <= a < |idx| ==> idx[a] < |raw| && KeptKind(raw[idx[a]].kind))
    && (forall a, b :: 0 <= a < b < |idx| ==> idx[a] < idx[b])
    && (forall i: nat :: i < |raw| && KeptKind(raw[i].kind) ==> i in idx)
  }

  predicate KeptKind(kind: byte) {
    kind == 1 || kind == 20 || kind == 21
  }

  /** The eight bytes at a encode r: its offset, type 0 for an ELF record of type 1 and type 1 for the others, target 0,
      and its addend, exact in -32768..32767 and else congruent modulo 2^16. */
  predicate Encodes(m: seq<byte>, a: nat, r: Rela)
    requires a + 8 <= |m|
  {
    && Load32(m, a) == r.offset && m[a + 4] == (if r.kind == 1 then 0 else 1) && m[a + 5] == 0
    && var low := Load16(m, a + 6);
      && low % 0x1_0000 == r.addend % 0x1_0000
      && (-0x8000 <= r.addend < 0x8000 ==> Signed16(low) == r.addend)
  }

  /** The table m is the encoding of the kept records, in order and nothing else. */
  ghost predicate IsTableOf(raw: seq<Rela>, m: seq<byte>, idx: seq<nat>) {
    && Kept(raw, idx) && |m| == 8 * |idx|
    && forall j :: 0 <= j < |idx| ==> Encodes(m, 8 * j, raw[idx[j]])
  }

  lemma {:induction false} ConvertedIs(raw: seq<Rela>) returns (idx: seq<nat>)
    ensures Kept(raw, idx) && |Converted(raw)| == |idx|
    ensures forall j :: 0 <= j < |idx| ==> Converted(raw)[j] == Convert(raw[idx[j]])
    decreases |raw|
  {
    if raw == [] { return []; }
    hide Convert, Kept, KeptKind;
    var init, m := raw[..|raw| - 1], |raw| - 1;
    var was := ConvertedIs(init);
    idx := if Supported(raw[m]) then was + [m] else was;
    KeptMore(raw, was, idx);
    KeptAt(init, was);
    KeptAt(raw, idx);
    hide Supported;
    forall j | 0 <= j < |idx| ensures Converted(raw)[j] == Convert(raw[idx[j]]) {
      if j < |was| { assert raw[idx[j]] == init[idx[j]]; }
    }
  }

  lemma KeptAt(raw: seq<Rela>, idx: seq<nat>)
    requires Kept(raw, idx)
    ensures forall a :: 0 <= a < |idx| ==> idx[a] < |raw| && Supported(raw[idx[a]])
  {
  }

  lemma KeptMore(raw: seq<Rela>, was: seq<nat>, idx: seq<nat>)
    requires raw != [] && Kept(raw[..|raw| - 1], was)
    requires idx == if Supported(raw[|raw| - 1]) then was + [|raw| - 1] else was
    ensures Kept(raw, idx)
  {
    forall i: nat | i < |raw| && KeptKind(raw[i].kind) ensures i in idx {
      if i < |raw| - 1 { assert raw[..|raw| - 1][i] == raw[i] && i in was; }
    }
  }

  /** Reading a packed entry back meets the record it came from. */
  lemma EntryEncodes(m: seq<byte>, a: nat, r: Rela)
    requires Supported(r) && a + 8 <= |m| && ReadEntry(m, a) == Convert(r)
    ensures Encodes(m, a, r)
  {
    AddendRoundTrip(r.addend);
  }

  lemma PackedIsTable(raw: seq<Rela>) returns (idx: seq<nat>)
    ensures forall i :: 0 <= i < |Converted(raw)| ==> Packable(Converted(raw)[i])
    ensures IsTableOf(raw, PackAll(Converted(raw)), idx)
  {
    hide ReadEntry, Convert, Encodes, PackEntry, Packable, Converted;
    ConvertedPackable(raw);
    idx := ConvertedIs(raw);
    var es := Converted(raw);
    var m := PackAll(es);
    TableRoundTrip([], es, []);
    assert [] + m + [] == m;
    forall j | 0 <= j < |idx| ensures Encodes(m, 8 * j, raw[idx[j]]) {
      assert Table(m, 0, |es|)[j] == ReadEntry(m, 8 * j);
      EntryEncodes(m, 8 * j, raw[idx[j]]);
    }
  }

  /** convert_relocations: unsupported records are skipped with a warning. */
  method ConvertRelocations(raw: seq<Rela>) returns (output: seq<byte>, ghost idx: seq<nat>)
    ensures IsTableOf(raw, output, idx)
    ensures forall i :: 0 <= i < |Converted(raw)| ==> Packable(Converted(raw)[i])
    ensures output == PackAll(Converted(raw))
  {
    output := [];
    ConvertedPackable(raw);
    var i := 0;
    while i < |raw|
      invariant 0 <= i <= |raw|
      invariant forall j :: 0 <= j < |Converted(raw[..i])| ==> Packable(Converted(raw[..i])[j])
      invariant output == PackAll(Converted(raw[..i]))
    {
      assert raw[..i + 1][..i] == raw[..i];
      ConvertedPackable(raw[..i + 1]);
      if Supported(raw[i]) {
        var e := Convert(raw[i]);
        assert Converted(raw[..i + 1])[..|Converted(raw[..i])|] == Converted(raw[..i]);
        output := output + PackEntry(e);
      }
      i := i + 1;
    }
    assert raw[..i] == raw;
    idx := PackedIsTable(raw);
  }

  lemma PackReads(prefix: seq<byte>, e: Entry, suffix: seq<byte>)
    requires Packable(e)
    ensures ReadEntry(prefix + PackEntry(e) + suffix, |prefix|) == e
  {
    var m := prefix + PackEntry(e) + suffix;
    var a := |prefix|;
    hide Load32, Load16;
    assert m[a..a + 4] == Bytes32(e.offset);
    LoadBytes32(m, a, e.offset);
    assert m[a + 4] == e.kind && m[a + 5] == e.target;
    assert m[a + 6..a + 8] == Bytes16(e.addend);
    LoadBytes16(m, a + 6, e.addend);
  }

  /** Reading the table behind any prefix gives back the entries packed there. */
  lemma {:induction false} TableRoundTrip(prefix: seq<byte>, es: seq<Entry>, suffix: seq<byte>)
    requires forall i :: 0 <= i < |es| ==> Packable(es[i])
    ensures Table(prefix + PackAll(es) + suffix, |prefix|, |es|) == es
    decreases |es|
  {
    var m := prefix + PackAll(es) + suffix;
    if es != [] {
      var init, last := es[..|es| - 1], es[|es| - 1];
      assert m == prefix + PackAll(init) + (PackEntry(last) + suffix);
      TableRoundTrip(prefix, init, PackEntry(last) + suffix);
      assert m == (prefix + PackAll(init)) + PackEntry(last) + suffix;
      PackReads(prefix + PackAll(init), last, suffix);
      forall i | 0 <= i < |es| ensures ReadEntry(m, |prefix| + 8 * i) == es[i] {
        if i < |init| { assert Table(m, |prefix|, |init|)[i] == init[i]; }
      }
    }
  }

  /** The addend survives the trip through 16 bits exactly when it fits; otherwise it comes back congruent. */
  lemma AddendRoundTrip(addend: int)
    ensures Signed16(Low16(addend)) == addend <==> -0x8000 <= addend < 0x8000
    ensures (Signed16(Low16(addend)) - addend) % 0x1_0000 == 0
  {
  }

  // ---------- the body ----------

  /** Sections of the ELF file and the linker's size symbols, 0 when absent. */
  datatype Elf = Elf(text: seq<byte>, rodata: seq<byte>, data: seq<byte>, relas: seq<Rela>,
                     codeSym: u32, rodataSym: u32, dataSym: u32, bssSym: u32)

  function SizeOr(sym: u32, data: seq<byte>): nat {
    if sym != 0 then sym else |Pad(data, 4)|
  }

  function BuildBody(elf: Elf): seq<byte> {
    ConvertedPackable(elf.relas);
    Pad(elf.text, 4) + Pad(elf.rodata, 4) + Pad(elf.data, 4) + PackAll(Converted(elf.relas))
  }

  /** The header carries the sizes the tool computes. */
  predicate HeaderOf(h: Header, elf: Elf) {
    && h.code == SizeOr(elf.codeSym, elf.text) && h.rodata == SizeOr(elf.rodataSym, elf.rodata)
    && h.data == SizeOr(elf.dataSym, elf.data) && h.bss == elf.bssSym
    && h.relocCount == |Converted(elf.relas)|
  }

  /** The linker's symbols, where present, give the padded section lengths. */
  predicate SymbolsAgree(elf: Elf) {
    && SizeOr(elf.codeSym, elf.text) == |Pad(elf.text, 4)|
    && SizeOr(elf.rodataSym, elf.rodata) == |Pad(elf.rodata, 4)|
    && SizeOr(elf.dataSym, elf.data) == |Pad(elf.data, 4)|
  }

  lemma FourParts(a: seq<byte>, b: seq<byte>, c: seq<byte>, d: seq<byte>)
    ensures var m := a + b + c + d;
      && m[..|a|] == a && m[|a|..|a| + |b|] == b && m[|a| + |b|..|a| + |b| + |c|] == c
      && m == (a + b + c) + d + []
  {
  }

  /** The loader's offsets recover every section and the whole table from the body the tool wrote. */
  lemma BodyParses(elf: Elf, h: Header)
    requires HeaderOf(h, elf) && SymbolsAgree(elf) && SizesAddUp(h)
    ensures var body := BuildBody(elf);
      && |body| == BodyLen(h)
      && body[..h.code] == Pad(elf.text, 4)
      && body[h.code..h.code + h.rodata] == Pad(elf.rodata, 4)
      && body[h.code + h.rodata..LoadedSize(h)] == Pad(elf.data, 4)
      && Table(body, LoadedSize(h), h.relocCount) == Converted(elf.relas)
      && exists idx :: IsTableOf(elf.relas, body[LoadedSize(h)..], idx)
  {
    hide Pad, Converted, PackAll, PackEntry, ReadEntry, Packable;
    ConvertedPackable(elf.relas);
    var es := Converted(elf.relas);
    var text, rodata, data := Pad(elf.text, 4), Pad(elf.rodata, 4), Pad(elf.data, 4);
    FourParts(text, rodata, data, PackAll(es));
    assert BuildBody(elf) == text + rodata + data + PackAll(es);
    assert LoadedSize(h) == |text + rodata + data|;
    TableRoundTrip(text + rodata + data, es, []);
    var idx := PackedIsTable(elf.relas);
    assert BuildBody(elf)[LoadedSize(h)..] == PackAll(es);
    hide IsTableOf;
  }

  /** A size symbol is absent or agrees with the section. */
  predicate Agrees(sym: u32, data: seq<byte>) {
    sym == 0 || sym == |Pad(data, 4)|
  }

  /** The loader finds every section where the tool put it if and only if each linker symbol that is present agrees with
      its padded section; the tool neither checks this nor writes a body that follows the symbols. */
  lemma SectionsFoundIff(elf: Elf, h: Header)
    requires HeaderOf(h, elf) && SizesAddUp(h)
    ensures var body := BuildBody(elf);
      (h.code <= |body| && body[..h.code] == Pad(elf.text, 4)
       && h.code + h.rodata <= |body| && body[h.code..h.code + h.rodata] == Pad(elf.rodata, 4)
       && LoadedSize(h) <= |body| && body[h.code + h.rodata..LoadedSize(h)] == Pad(elf.data, 4)) <==>
      Agrees(elf.codeSym, elf.text) && Agrees(elf.rodataSym, elf.rodata) && Agrees(elf.dataSym, elf.data)
  {
    hide BuildBody, Pad, Converted, IsTableOf, Table;
    if SymbolsAgree(elf) {
      BodyStands(elf, h);
      BodyParses(elf, h);
    }
  }

  /** The kept records patch words inside the sections, no two of them overlapping. */
  ghost predicate SitesFit(raw: seq<Rela>, limit: nat) {
    && (forall i :: 0 <= i < |raw| && KeptKind(raw[i].kind) ==> raw[i].offset + 4 <= limit)
    && (forall i, j :: 0 <= i < j < |raw| && KeptKind(raw[i].kind) && KeptKind(raw[j].kind) ==>
          raw[i].offset + 4 <= raw[j].offset || raw[j].offset + 4 <= raw[i].offset)
  }

  /** No kept record patches byte x. */
  ghost predicate OffSitesOf(raw: seq<Rela>, x: int) {
    forall i :: 0 <= i < |raw| && KeptKind(raw[i].kind) ==> !(raw[i].offset <= x < raw[i].offset + 4)
  }

  /** The word the kept record r leaves in m, at base, where img held another: for type 1 the address of its addend; for
      the others the opcode byte kept and the word distance floor((addend - offset - 3) / 4). */
  predicate Holds(m: seq<byte>, img: seq<byte>, base: u32, r: Rela)
    requires r.offset + 4 <= |m| == |img|
  {
    -0x8000 <= r.addend < 0x8000 ==>
      var w := Load32(m, r.offset);
      if r.kind == 1 then w == (base + r.addend) % 0x1_0000_0000
      else w / 0x100_0000 == Load32(img, r.offset) / 0x100_0000
           && Signed24(w % 0x100_0000) == (r.addend - r.offset - 3) / 4
  }

  /** From ELF to memory. A body the tool wrote, loaded with its table intact (without BSS in particular) after the
      loader has checked its size, stands in memory as the padded sections with every record of type 1, 20 or 21 applied
      at its offset for this load address, and no other byte changed; no record is ever rejected. */
  lemma BuiltAppLoads(elf: Elf, f: seq<byte>, h: Header, m: seq<byte>, tail: seq<byte>, base: u32, api: seq<u32>)
    requires HeaderOf(h, elf) && SymbolsAgree(elf) && SizesAddUp(h) && TotalRam(h) <= APP_MAX_LOAD_SIZE
    requires |f| >= HEADER_BYTES + BodyLen(h) && Body(f, h) == BuildBody(elf) && TableSurvives(f, h)
    requires SitesFit(elf.relas, LoadedSize(h)) && ImageLoaded(m, tail, base, f, h, api)
    ensures AllGood(TableRead(f, h), api)
    ensures var img := Staged(f, h, tail);
      && BuildBody(elf) <= img && |m| == |img| && LoadedSize(h) <= |img|
      && (forall i :: 0 <= i < |elf.relas| && KeptKind(elf.relas[i].kind) ==> Holds(m, img, base, elf.relas[i]))
      && (forall x :: 0 <= x < |img| && OffSitesOf(elf.relas, x) ==> m[x] == img[x])
  {
    hide BuildBody, Converted, ReadEntry, Relocated, ImageLoaded, TableRead, Pad, PackAll, Body, Staged, TableSurvives,
      Holds, Convert, SitesFit;
    var idx := ConvertedIs(elf.relas);
    var es := Converted(elf.relas);
    BodyParses(elf, h);
    ConvertedGood(elf.relas, api);
    TableSurvivesIff(f, h);
    SitesOf(elf.relas, es, idx, LoadedSize(h));
    ListSites(Body(f, h), LoadedSize(h), h.relocCount);
    LoadedImage(m, tail, base, f, h, api);
    RecordsHold(elf.relas, es, idx, Staged(f, h, tail), m, base, h, api);
  }

  lemma SitesOf(raw: seq<Rela>, es: seq<Entry>, idx: seq<nat>, limit: nat)
    requires Kept(raw, idx) && |es| == |idx| && SitesFit(raw, limit)
    requires forall j :: 0 <= j < |idx| ==> es[j] == Convert(raw[idx[j]])
    ensures SitesApart(es) && forall j :: 0 <= j < |es| ==> SiteIn(es[j], limit)
  {
    forall i, j | 0 <= i < |es| && 0 <= j < |es| && i != j
      ensures es[i].offset + 4 <= es[j].offset || es[j].offset + 4 <= es[i].offset
    {
      var a, b := if i < j then i else j, if i < j then j else i;
      assert idx[a] < idx[b];
    }
  }

  lemma RecordsHold(raw: seq<Rela>, es: seq<Entry>, idx: seq<nat>, img: seq<byte>, m: seq<byte>, base: u32, h: Header,
                    api: seq<u32>)
    requires Kept(raw, idx) && |es| == |idx| && forall j :: 0 <= j < |idx| ==> es[j] == Convert(raw[idx[j]])
    requires SizesAddUp(h) && TotalRam(h) <= APP_MAX_LOAD_SIZE
    requires forall j :: 0 <= j < |es| ==> SiteIn(es[j], LoadedSize(h))
    requires LoadedSize(h) <= |img| && AllWellFormed(es, |img|) && AllGood(es, api) && Relocated(img, m, base, h, api, es)
    ensures |m| == |img|
    ensures forall i :: 0 <= i < |raw| && KeptKind(raw[i].kind) ==>
              raw[i].offset + 4 <= |img| && Holds(m, img, base, raw[i])
    ensures forall x :: 0 <= x < |img| && OffSitesOf(raw, x) ==> m[x] == img[x]
  {
    assert |m| == |img|;
    hide Relocated, Holds, LoadedSize, TotalRam, AllGood;
    forall i | 0 <= i < |raw| && KeptKind(raw[i].kind)
      ensures raw[i].offset + 4 <= |img| && Holds(m, img, base, raw[i])
    {
      var j :| 0 <= j < |idx| && idx[j] == i;
      AtSite(img, m, base, h, api, es, j);
      RecordHolds(raw[i], es[j], img, m, base, h, api);
    }
    OffSites(img, m, base, h, api, es);
    forall x | 0 <= x < |img| && OffSitesOf(raw, x) ensures m[x] == img[x] {
      forall j | 0 <= j < |es| ensures !InSite(es[j], x) { assert KeptKind(raw[idx[j]].kind); }
    }
  }

  lemma RecordHolds(r: Rela, e: Entry, img: seq<byte>, m: seq<byte>, base: u32, h: Header, api: seq<u32>)
    requires Supported(r) && e == Convert(r) && SizesAddUp(h) && TotalRam(h) <= APP_MAX_LOAD_SIZE
    requires SiteIn(e, LoadedSize(h)) && LoadedSize(h) <= |img| == |m|
    requires Good(e, api) && Load32(m, e.offset) == Patched(Load32(img, e.offset), base, h, e, api)
    ensures r.offset + 4 <= |img| && Holds(m, img, base, r)
  {
    hide CallWord, Load32, Signed24, Signed16, Low16, TotalRam;
    AddendRoundTrip(r.addend);
    if e.kind == 1 {
      hide Patched;
      RoomFor(h);
      CallPatchExact(Load32(img, e.offset), base, h, e, api);
    }
  }

  lemma RoomFor(h: Header)
    requires SizesAddUp(h) && TotalRam(h) <= APP_MAX_LOAD_SIZE
    ensures h.code + h.rodata + h.data + h.bss <= APP_MAX_LOAD_SIZE && LoadedSize(h) == h.code + h.rodata + h.data
  {
  }

  /** What the word patched for a pointer to a section points at. Target 0, 1 and 2: the first byte of the padded code,
      read-only data and data, wherever the image was loaded; target 3: the zeros of BSS. Target 16 + i gives entry i of the
      kernel's table. */
  lemma PointersMeetSections(elf: Elf, f: seq<byte>, h: Header, tail: seq<byte>, base: u32, e: Entry, api: seq<u32>,
                             was: u32)
    requires HeaderOf(h, elf) && SymbolsAgree(elf) && SizesAddUp(h) && base + TotalRam(h) < 0x1_0000_0000
    requires |f| >= HEADER_BYTES + BodyLen(h) && Body(f, h) == BuildBody(elf) && TableSurvives(f, h)
    requires TotalRam(h) <= BodyLen(h) + |tail|
    requires (e.kind == 0 || e.kind == 2 || e.kind == 3) && e.addend == 0
    requires e.target <= 3 || 16 <= e.target < 16 + |api|
    ensures Good(e, api)
    ensures var img, p := Staged(f, h, tail), Patched(was, base, h, e, api) - base;
      && (e.target == 0 ==> Stands(img, p, Pad(elf.text, 4)))
      && (e.target == 1 ==> Stands(img, p, Pad(elf.rodata, 4)))
      && (e.target == 2 ==> Stands(img, p, Pad(elf.data, 4)))
      && (e.target == 3 ==> 0 <= p && p + h.bss <= |img| && forall i :: p <= i < p + h.bss ==> img[i] == 0)
      && (e.target >= 16 ==> Patched(was, base, h, e, api) == api[e.target - 16])
  {
    hide BuildBody, Pad, Converted, PackAll, TableSurvives, Table, IsTableOf, Body, Staged, BodyLen, Patched, TotalRam,
      Stands, HeaderOf, SymbolsAgree;
    BodyStands(elf, h);
    BodyKept(f, h, tail);
    BssCleared(f, h, tail);
    SectionPointer(was, base, h, e, api);
    var body, img := BuildBody(elf), Staged(f, h, tail);
    StillStands(body, img, 0, Pad(elf.text, 4));
    StillStands(body, img, h.code, Pad(elf.rodata, 4));
    StillStands(body, img, h.code + h.rodata, Pad(elf.data, 4));
  }

  /** img holds `part` from p on. */
  predicate Stands(img: seq<byte>, p: int, part: seq<byte>) {
    0 <= p && p + |part| <= |img| && img[p..p + |part|] == part
  }

  lemma BodyStands(elf: Elf, h: Header)
    requires HeaderOf(h, elf) && SymbolsAgree(elf) && SizesAddUp(h)
    ensures var body := BuildBody(elf);
      && Stands(body, 0, Pad(elf.text, 4)) && Stands(body, h.code, Pad(elf.rodata, 4))
      && Stands(body, h.code + h.rodata, Pad(elf.data, 4)) && |body| == BodyLen(h)
  {
    hide BuildBody, Pad, Converted, IsTableOf, Table;
    BodyParses(elf, h);
    var body := BuildBody(elf);
    assert body[0..h.code] == body[..h.code];
  }

  lemma StillStands(body: seq<byte>, img: seq<byte>, p: nat, part: seq<byte>)
    requires body <= img && Stands(body, p, part)
    ensures Stands(img, p, part)
  {
    assert img[p..p + |part|] == body[p..p + |part|];
  }

  lemma BssCleared(f: seq<byte>, h: Header, tail: seq<byte>)
    requires |f| >= HEADER_BYTES + BodyLen(h) && SizesAddUp(h) && TotalRam(h) <= BodyLen(h) + |tail|
    ensures |Staged(f, h, tail)| == BodyLen(h) + |tail| && LoadedSize(h) + h.bss <= |Staged(f, h, tail)|
    ensures LoadedSize(h) == h.code + h.rodata + h.data
    ensures forall i :: LoadedSize(h) <= i < LoadedSize(h) + h.bss ==> Staged(f, h, tail)[i] == 0
  {
  }

  lemma SectionPointer(was: u32, base: u32, h: Header, e: Entry, api: seq<u32>)
    requires SizesAddUp(h) && base + TotalRam(h) < 0x1_0000_0000
    requires (e.kind == 0 || e.kind == 2 || e.kind == 3) && e.addend == 0
    requires e.target <= 3 || 16 <= e.target < 16 + |api|
    ensures Good(e, api)
    ensures var w := Patched(was, base, h, e, api);
      && (e.target == 0 ==> w == base) && (e.target == 1 ==> w == base + h.code)
      && (e.target == 2 ==> w == base + h.code + h.rodata) && (e.target == 3 ==> w == base + h.code + h.rodata + h.data)
      && (e.target >= 16 ==> w == api[e.target - 16])
  {
    hide Patched, PlaceOf, TotalRam, SizesAddUp;
    PatchedWord(was, base, h, e, api);
    PlaceFits(base, h, e.target, api);
  }

  lemma PlaceFits(base: u32, h: Header, target: byte, api: seq<u32>)
    requires SizesAddUp(h) && base + TotalRam(h) < 0x1_0000_0000
    requires target <= 3 || 16 <= target < 16 + |api|
    ensures 0 <= PlaceOf(base, h, target, api) < 0x1_0000_0000
    ensures target <= 3 ==>
              PlaceOf(base, h, target, api) ==
              base + if target == 0 then 0 else if target == 1 then h.code else if target == 2 then h.code + h.rodata
                     else h.code + h.rodata + h.data
    ensures target >= 16 ==> PlaceOf(base, h, target, api) == api[target - 16]
  {
  }

  lemma ConvertedGood(raw: seq<Rela>, api: seq<u32>)
    ensures AllGood(Converted(raw), api)
  {
  }

  lemma ListSites(m: seq<byte>, t: nat, n: nat)
    requires t + 8 * n <= |m| && forall i :: 0 <= i < n ==> SiteIn(Table(m, t, n)[i], t)
    ensures SitesBelow(m, t, n)
  {
    forall i | 0 <= i < n ensures SiteIn(ReadEntry(m, t + 8 * i), t) {
      assert Table(m, t, n)[i] == ReadEntry(m, t + 8 * i);
    }
  }
}
