/** Header validation and the relocation engine (src/app_loader.c:32-76, 118-201) as functions on the image,
    the bytes from app_base on. All address arithmetic is modulo 2^32. */
module Reloc {
  import opened Words

  const APP_MAX_LOAD_SIZE: int := 0x20_0000
  const ESPAPP_MAGIC: u32 := 0x45535041
  const KERNEL_ABI_VERSION: int := 0x100  // major 1 in the high byte, minor 0
  const HEADER_BYTES: nat := 72

  /** The fields of espapp_header_t that the loader uses. */
  datatype Header = Header(magic: u32, abi: byte, code: u32, rodata: u32, data: u32, bss: u32,
                           relocCount: u32, entry: u32, crc: u32)

  datatype Status =
    | LoadOk | FileOpen | HeaderRead | BadMagic | BadCrc | AbiMismatch | TooLarge
    | PsAlloc | BodyRead | Signature | RelocError | NoEntry

  /** code + rodata + data in 32-bit size_t arithmetic. */
  function LoadedSize(h: Header): u32 {
    (h.code + h.rodata + h.data) % 0x1_0000_0000
  }

  function TotalRam(h: Header): u32 {
    (LoadedSize(h) + h.bss) % 0x1_0000_0000
  }

  function ValidateHeader(h: Header, computedCrc: u32): Status {
    if h.magic != ESPAPP_MAGIC then BadMagic
    else if computedCrc != h.crc then BadCrc
    else if h.abi > KERNEL_ABI_VERSION then AbiMismatch
    else if TotalRam(h) > APP_MAX_LOAD_SIZE then TooLarge
    else if h.entry >= h.code then NoEntry
    else if h.code % 4 != 0 || h.rodata % 4 != 0 || h.data % 4 != 0 || h.bss % 4 != 0 then BadCrc
    else LoadOk
  }

  /** The four section sizes add up without wrapping. */
  predicate SizesAddUp(h: Header) {
    h.code + h.rodata + h.data + h.bss < 0x1_0000_0000
  }

  /** The 2 MB limit holds for the real sum of the sections of every accepted header exactly when the 32-bit sum
      does not wrap. */
  lemma SizeLimitIff(h: Header, crc: u32)
    requires ValidateHeader(h, crc) == LoadOk
    ensures h.code + h.rodata + h.data + h.bss <= APP_MAX_LOAD_SIZE <==> SizesAddUp(h)
    ensures SizesAddUp(h) ==> LoadedSize(h) == h.code + h.rodata + h.data && 4 <= h.code && h.entry < LoadedSize(h)
  {
  }

  /** An accepted header whose sections add up to 4 GB. */
  lemma SizeLimitFails()
    ensures var h := Header(ESPAPP_MAGIC, 1, 4, 0xFFFF_FFFC, 0, 0, 0, 0, 0);
      ValidateHeader(h, 0) == LoadOk && h.code + h.rodata + h.data + h.bss > APP_MAX_LOAD_SIZE
  {
  }

  /** The header's version is one byte and the kernel's is 256, so no binary is ever turned away for its ABI. */
  lemma AbiNeverRejects(h: Header, crc: u32)
    ensures ValidateHeader(h, crc) != AbiMismatch
  {
  }

  // ---------- one entry ----------

  datatype Entry = Entry(offset: u32, kind: byte, target: byte, addend: int)

  const REL_ABS32: byte := 0
  const REL_CALL: byte := 1
  const REL_L32R: byte := 2
  const REL_KERNEL_API: byte := 3

  function ReadEntry(img: seq<byte>, a: nat): (e: Entry)
    requires a + 8 <= |img|
    ensures 0 <= e.addend < 0x1_0000
  {
    Entry(Load32(img, a), img[a + 4], img[a + 5], Load16(img, a + 6))
  }

  /** Offset of a section from app_base. */
  function SectionOffset(h: Header, target: byte): nat {
    if target == 0 then 0
    else if target == 1 then h.code
    else if target == 2 then h.code + h.rodata
    else h.code + h.rodata + h.data
  }

  predicate IsSection(target: byte) {
    target <= 3
  }

  predicate IsApi(target: byte, api: seq<u32>) {
    target >= 0x10 && target - 0x10 < |api|
  }

  /** An entry the loader accepts. */
  predicate Good(e: Entry, api: seq<u32>) {
    e.kind <= 3 && (IsSection(e.target) || IsApi(e.target, api))
  }

  function Resolve(base: u32, h: Header, target: byte, api: seq<u32>): u32
    requires IsSection(target) || IsApi(target, api)
  {
    if IsSection(target) then (base + SectionOffset(h, target)) % 0x1_0000_0000 else api[target - 0x10]
  }

  function TargetValue(base: u32, h: Header, e: Entry, api: seq<u32>): u32
    requires Good(e, api) && 0 <= e.addend < 0x1_0000
  {
    (Resolve(base, h, e.target, api) + Signed16(e.addend)) % 0x1_0000_0000
  }

  /** The CALL patch: opcode byte kept, the low 24 bits take the PC-relative word offset. */
  function CallWord(insn: u32, targetVal: u32, patchAddr: u32): (w: nat) {
    var pcRel := Signed32((targetVal - (patchAddr + 3)) % 0x1_0000_0000);
    Or(And(insn, 0xFF00_0000), And((pcRel / 4) % 0x1_0000_0000, 0x00FF_FFFF))
  }

  lemma MaskSplit(insn: u32, y: u32)
    ensures Or(And(insn, 0xFF00_0000), And(y, 0x00FF_FFFF)) == insn - insn % 0x100_0000 + y % 0x100_0000
  {
    Pow2Of32();
    hide And, Or, Low, Pow2;
    AndHighMask(insn, 32, 24);
    AndLowMask(y, 24);
    var hi := insn - insn % 0x100_0000;
    LowIsMod(hi, 24);
    OrDisjoint(hi, y % 0x100_0000, 24);
  }

  lemma CallWordIs(insn: u32, targetVal: u32, patchAddr: u32)
    ensures CallWord(insn, targetVal, patchAddr) ==
            insn - insn % 0x100_0000 +
            (Signed32((targetVal - (patchAddr + 3)) % 0x1_0000_0000) / 4) % 0x100_0000
    ensures CallWord(insn, targetVal, patchAddr) < 0x1_0000_0000
  {
    hide And, Or, Signed32;
    var y := Signed32((targetVal - (patchAddr + 3)) % 0x1_0000_0000) / 4;
    MaskSplit(insn, y % 0x1_0000_0000);
    ModMod(y);
  }

  lemma ModMod(y: int)
    ensures y % 0x1_0000_0000 % 0x100_0000 == y % 0x100_0000
  {
  }

  /** The word an entry leaves at its site, given the word that stood there. */
  function Patched(old_: u32, base: u32, h: Header, e: Entry, api: seq<u32>): u32
    requires Good(e, api) && 0 <= e.addend < 0x1_0000
  {
    var v := TargetValue(base, h, e, api);
    if e.kind == REL_CALL then
      CallWordIs(old_, v, (base + e.offset) % 0x1_0000_0000);
      CallWord(old_, v, (base + e.offset) % 0x1_0000_0000)
    else v
  }

  // ---------- the whole table ----------

  /** Image after the entries so far, and whether all of them were accepted. */
  datatype Outcome = Outcome(img: seq<byte>, ok: bool)

  predicate SiteIn(e: Entry, limit: nat) {
    e.offset + 4 <= limit
  }

  predicate WellFormed(e: Entry, limit: nat) {
    SiteIn(e, limit) && 0 <= e.addend < 0x1_0000
  }

  function PatchOne(img: seq<byte>, base: u32, h: Header, api: seq<u32>, e: Entry): (r: seq<byte>)
    requires WellFormed(e, |img|) && Good(e, api)
    ensures |r| == |img|
  {
    Store32(img, e.offset, Patched(Load32(img, e.offset), base, h, e, api))
  }

  /** The loop of apply_relocations: entry i is read from the image as patched by the entries before it. */
  function ApplyInPlace(img: seq<byte>, base: u32, h: Header, api: seq<u32>, table: nat, n: nat, i: nat): (r: Outcome)
    requires i <= n && table + 8 * n <= |img| && SitesBelow(img, table, n)
    ensures |r.img| == |img|
    decreases n - i
  {
    if i == n then Outcome(img, true)
    else
      var e := ReadEntry(img, table + 8 * i);
      assert SiteIn(e, table) by { assert SiteIn(ReadEntry(img, table + 8 * i), table); }
      if !Good(e, api) then Outcome(img, false)
      else
        PatchKeepsTable(img, base, h, api, e, table, n);
        ApplyInPlace(PatchOne(img, base, h, api, e), base, h, api, table, n, i + 1)
  }

  /** One turn of the loop. */
  lemma InPlaceTurn(img: seq<byte>, base: u32, h: Header, api: seq<u32>, table: nat, n: nat, i: nat)
    requires i < n && table + 8 * n <= |img| && SitesBelow(img, table, n)
    ensures var e := ReadEntry(img, table + 8 * i);
      && WellFormed(e, table) && WellFormed(e, |img|)
      && (!Good(e, api) ==> ApplyInPlace(img, base, h, api, table, n, i) == Outcome(img, false))
      && (Good(e, api) ==>
            var img' := PatchOne(img, base, h, api, e);
            && |img'| == |img| && SitesBelow(img', table, n)
            && ApplyInPlace(img, base, h, api, table, n, i) == ApplyInPlace(img', base, h, api, table, n, i + 1))
  {
  }

  /** Every entry of the table patches a site below the table. */
  predicate SitesBelow(img: seq<byte>, table: nat, n: nat)
    requires table + 8 * n <= |img|
  {
    forall i :: 0 <= i < n ==> SiteIn(ReadEntry(img, table + 8 * i), table)
  }

  /** A patch below the table leaves every entry as it was. */
  lemma PatchKeepsTable(img: seq<byte>, base: u32, h: Header, api: seq<u32>, e: Entry, table: nat, n: nat)
    requires table + 8 * n <= |img| && SitesBelow(img, table, n)
    requires WellFormed(e, table) && Good(e, api)
    ensures var img' := PatchOne(img, base, h, api, e);
      && (forall i :: 0 <= i < n ==> ReadEntry(img', table + 8 * i) == ReadEntry(img, table + 8 * i))
      && SitesBelow(img', table, n) && Table(img', table, n) == Table(img, table, n)
  {
  }

  function Table(img: seq<byte>, table: nat, n: nat): (es: seq<Entry>)
    requires table + 8 * n <= |img|
    ensures |es| == n
    ensures forall i :: 0 <= i < n ==> es[i] == ReadEntry(img, table + 8 * i)
  {
    seq(n, i requires 0 <= i < n => ReadEntry(img, table + 8 * i))
  }

  predicate AllWellFormed(es: seq<Entry>, limit: nat) {
    forall i :: 0 <= i < |es| ==> WellFormed(es[i], limit)
  }

  /** The entries of a fixed list applied in order. */
  function ApplyList(img: seq<byte>, base: u32, h: Header, api: seq<u32>, es: seq<Entry>): (r: Outcome)
    requires AllWellFormed(es, |img|)
    ensures |r.img| == |img|
    decreases |es|
  {
    if es == [] then Outcome(img, true)
    else if !Good(es[0], api) then Outcome(img, false)
    else ApplyList(PatchOne(img, base, h, api, es[0]), base, h, api, es[1..])
  }

  /** The in-memory table is never altered by its own patches: patching in place is applying the list of entries
      the table held at the start. */
  lemma {:induction false} InPlaceIsList(img: seq<byte>, base: u32, h: Header, api: seq<u32>,
                                         table: nat, n: nat, i: nat)
    requires i <= n && table + 8 * n <= |img| && SitesBelow(img, table, n)
    ensures AllWellFormed(Table(img, table, n)[i..], |img|)
    ensures ApplyInPlace(img, base, h, api, table, n, i) ==
            ApplyList(img, base, h, api, Table(img, table, n)[i..])
    decreases n - i
  {
    var es := Table(img, table, n)[i..];
    forall j | 0 <= j < |es| ensures WellFormed(es[j], |img|) {
      assert SiteIn(ReadEntry(img, table + 8 * (i + j)), table);
    }
    if i < n {
      var e := ReadEntry(img, table + 8 * i);
      assert es[0] == e && es[1..] == Table(img, table, n)[i + 1..];
      assert WellFormed(es[0], |img|) && SiteIn(e, table);
      if Good(e, api) {
        PatchKeepsTable(img, base, h, api, e, table, n);
        InPlaceIsList(PatchOne(img, base, h, api, e), base, h, api, table, n, i + 1);
      }
    }
  }

  /** The call succeeds exactly when every entry has a known type and a known target. */
  lemma {:induction false} OkIffAllGood(img: seq<byte>, base: u32, h: Header, api: seq<u32>, es: seq<Entry>)
    requires AllWellFormed(es, |img|)
    ensures ApplyList(img, base, h, api, es).ok <==> forall i :: 0 <= i < |es| ==> Good(es[i], api)
    decreases |es|
  {
    if es != [] && Good(es[0], api) {
      OkIffAllGood(PatchOne(img, base, h, api, es[0]), base, h, api, es[1..]);
      assert forall i :: 0 < i < |es| ==> es[i] == es[1..][i - 1];
    }
  }

  // ---------- closed form ----------

  predicate InSite(e: Entry, x: int) {
    e.offset <= x < e.offset + 4
  }

  predicate SitesApart(es: seq<Entry>) {
    forall i, j :: 0 <= i < |es| && 0 <= j < |es| && i != j ==>
      es[i].offset + 4 <= es[j].offset || es[j].offset + 4 <= es[i].offset
  }

  predicate AllGood(es: seq<Entry>, api: seq<u32>) {
    forall i :: 0 <= i < |es| ==> Good(es[i], api)
  }

  /** img' is img with each site holding the patch computed from the original word there, and nothing else changed. */
  ghost predicate Relocated(img: seq<byte>, img': seq<byte>, base: u32, h: Header, api: seq<u32>, es: seq<Entry>)
    requires AllWellFormed(es, |img|) && AllGood(es, api)
  {
    && |img'| == |img|
    && (forall i :: 0 <= i < |es| ==>
          Load32(img', es[i].offset) == Patched(Load32(img, es[i].offset), base, h, es[i], api))
    && (forall x :: 0 <= x < |img| && (forall i :: 0 <= i < |es| ==> !InSite(es[i], x)) ==> img'[x] == img[x])
  }

  lemma PatchElsewhere(img: seq<byte>, base: u32, h: Header, api: seq<u32>, e: Entry, a: nat)
    requires WellFormed(e, |img|) && Good(e, api) && a + 4 <= |img|
    requires e.offset + 4 <= a || a + 4 <= e.offset
    ensures Load32(PatchOne(img, base, h, api, e), a) == Load32(img, a)
  {
  }

  /** With disjoint sites the result is the closed form. */
  lemma {:induction false} ListIsClosedForm(img: seq<byte>, base: u32, h: Header, api: seq<u32>, es: seq<Entry>)
    requires AllWellFormed(es, |img|) && AllGood(es, api) && SitesApart(es)
    ensures ApplyList(img, base, h, api, es).ok
    ensures Relocated(img, ApplyList(img, base, h, api, es).img, base, h, api, es)
    decreases |es|
  {
    if es != [] {
      var img1 := PatchOne(img, base, h, api, es[0]);
      var rest := es[1..];
      assert forall i :: 0 <= i < |rest| ==> rest[i] == es[i + 1];
      ListIsClosedForm(img1, base, h, api, rest);
      var img' := ApplyList(img1, base, h, api, rest).img;
      forall i | 0 <= i < |es|
        ensures Load32(img', es[i].offset) == Patched(Load32(img, es[i].offset), base, h, es[i], api)
      {
        if i > 0 {
          PatchElsewhere(img, base, h, api, es[0], es[i].offset);
          assert rest[i - 1] == es[i];
        } else {
          SiteSurvives(img1, img', base, h, api, rest, es[0].offset);
        }
      }
      forall x | 0 <= x < |img| && (forall i :: 0 <= i < |es| ==> !InSite(es[i], x)) ensures img'[x] == img[x] {
        assert !InSite(es[0], x);
        assert forall i :: 0 <= i < |rest| ==> !InSite(rest[i], x);
      }
    }
  }

  /** A word apart from every site is carried over. */
  lemma SiteSurvives(img: seq<byte>, img': seq<byte>, base: u32, h: Header, api: seq<u32>, es: seq<Entry>, a: nat)
    requires AllWellFormed(es, |img|) && AllGood(es, api) && Relocated(img, img', base, h, api, es)
    requires a + 4 <= |img|
    requires forall i :: 0 <= i < |es| ==> es[i].offset + 4 <= a || a + 4 <= es[i].offset
    ensures Load32(img', a) == Load32(img, a)
  {
  }

  /** The closed form determines the image. */
  lemma RelocatedUnique(img: seq<byte>, m: seq<byte>, m': seq<byte>, base: u32, h: Header, api: seq<u32>,
                        es: seq<Entry>, es': seq<Entry>)
    requires AllWellFormed(es, |img|) && AllGood(es, api) && Relocated(img, m, base, h, api, es)
    requires AllWellFormed(es', |img|) && AllGood(es', api) && Relocated(img, m', base, h, api, es')
    requires forall e :: e in es <==> e in es'
    ensures m == m'
  {
    forall x | 0 <= x < |img| ensures m[x] == m'[x] {
      if i :| 0 <= i < |es| && InSite(es[i], x) {
        assert es[i] in es';
        var j :| 0 <= j < |es'| && es'[j] == es[i];
        SameWord(m, m', es[i].offset, x);
      } else {
        assert forall j :: 0 <= j < |es'| ==> es'[j] in es;
        assert forall j :: 0 <= j < |es'| ==> !InSite(es'[j], x);
      }
    }
  }

  lemma SameWord(m: seq<byte>, m': seq<byte>, a: nat, x: nat)
    requires a + 4 <= |m| == |m'| && a <= x < a + 4 && Load32(m, a) == Load32(m', a)
    ensures m[x] == m'[x]
  {
    hide Load32;
    LoadDigits(m, a);
    LoadDigits(m', a);
  }

  lemma ApartOfPermuted(es: seq<Entry>, es': seq<Entry>)
    requires SitesApart(es) && multiset(es) == multiset(es')
    ensures SitesApart(es')
  {
    forall i, j | 0 <= i < |es'| && 0 <= j < |es'| && i != j
      ensures es'[i].offset + 4 <= es'[j].offset || es'[j].offset + 4 <= es'[i].offset
    {
      assert es'[i] in multiset(es') && es'[j] in multiset(es');
      assert es'[i] in es && es'[j] in es;
      if es'[i] == es'[j] {
        TwiceInMultiset(es', i, j);
        OnceInMultiset(es, es'[i]);
      }
    }
  }

  lemma TwiceInMultiset(es: seq<Entry>, i: nat, j: nat)
    requires i < |es| && j < |es| && i != j && es[i] == es[j]
    ensures multiset(es)[es[i]] >= 2
  {
    var lo, hi := if i < j then i else j, if i < j then j else i;
    assert es == es[..lo] + [es[lo]] + es[lo + 1..hi] + [es[hi]] + es[hi + 1..];
  }

  lemma {:induction false} OnceInMultiset(es: seq<Entry>, e: Entry)
    requires SitesApart(es)
    ensures multiset(es)[e] <= 1
    decreases |es|
  {
    if es != [] {
      var rest := es[1..];
      assert es == [es[0]] + rest && forall i :: 0 <= i < |rest| ==> rest[i] == es[i + 1];
      OnceInMultiset(rest, e);
      assert es[0] !in rest;
      hide SitesApart;
      assert multiset(es)[e] == multiset([es[0]])[e] + multiset(rest)[e];
    }
  }

  /** With disjoint sites the order of the table does not matter. */
  lemma OrderIrrelevant(img: seq<byte>, base: u32, h: Header, api: seq<u32>, es: seq<Entry>, es': seq<Entry>)
    requires AllWellFormed(es, |img|) && AllGood(es, api) && SitesApart(es) && multiset(es) == multiset(es')
    ensures AllWellFormed(es', |img|)
    ensures ApplyList(img, base, h, api, es) == ApplyList(img, base, h, api, es')
  {
    assert forall e :: e in es <==> e in multiset(es);
    assert forall e :: e in es' <==> e in multiset(es');
    forall i | 0 <= i < |es'| ensures WellFormed(es'[i], |img|) && Good(es'[i], api) {
      assert es'[i] in es;
    }
    ApartOfPermuted(es, es');
    ListIsClosedForm(img, base, h, api, es);
    ListIsClosedForm(img, base, h, api, es');
    RelocatedUnique(img, ApplyList(img, base, h, api, es).img, ApplyList(img, base, h, api, es').img,
                    base, h, api, es, es');
  }

  // ---------- loading at two bases ----------

  lemma TranslateValue(b1: u32, b2: u32, h: Header, e: Entry, api: seq<u32>)
    requires Good(e, api) && 0 <= e.addend < 0x1_0000
    ensures IsSection(e.target) ==>
              (TargetValue(b2, h, e, api) - TargetValue(b1, h, e, api)) % 0x1_0000_0000 == (b2 - b1) % 0x1_0000_0000
    ensures !IsSection(e.target) ==> TargetValue(b2, h, e, api) == TargetValue(b1, h, e, api)
  {
    if IsSection(e.target) {
      BaseDistance(b1, b2, SectionOffset(h, e.target), Signed16(e.addend));
    }
  }

  lemma BaseDistance(b1: u32, b2: u32, section: nat, addend: int)
    ensures (((b2 + section) % 0x1_0000_0000 + addend) % 0x1_0000_0000 -
             ((b1 + section) % 0x1_0000_0000 + addend) % 0x1_0000_0000) % 0x1_0000_0000 == (b2 - b1) % 0x1_0000_0000
  {
    var t1, t2 := (b1 + section) % 0x1_0000_0000, (b2 + section) % 0x1_0000_0000;
    var k := (b1 + section) / 0x1_0000_0000 + (t1 + addend) / 0x1_0000_0000
             - (b2 + section) / 0x1_0000_0000 - (t2 + addend) / 0x1_0000_0000;
    assert (t2 + addend) % 0x1_0000_0000 - (t1 + addend) % 0x1_0000_0000 == (b2 - b1) + 0x1_0000_0000 * k;
    ModShift(b2 - b1, k);
  }

  lemma SectionTarget(base: u32, h: Header, e: Entry, api: seq<u32>)
    requires Good(e, api) && 0 <= e.addend < 0x1_0000 && IsSection(e.target)
    ensures TargetValue(base, h, e, api) ==
            ((base + SectionOffset(h, e.target)) % 0x1_0000_0000 + Signed16(e.addend)) % 0x1_0000_0000
  {
  }

  lemma CallIsPositionIndependent(insn: u32, b1: u32, b2: u32, h: Header, e: Entry, api: seq<u32>)
    requires Good(e, api) && 0 <= e.addend < 0x1_0000 && e.kind == REL_CALL && IsSection(e.target)
    ensures Patched(insn, b1, h, e, api) == Patched(insn, b2, h, e, api)
  {
    hide Patched, CallWord, TargetValue, SectionOffset, Signed16, Good;
    CallPatched(insn, b1, h, e, api);
    CallPatched(insn, b2, h, e, api);
    SameCall(insn, b1, b2, SectionOffset(h, e.target), Signed16(e.addend), e.offset);
  }

  lemma CallPatched(insn: u32, base: u32, h: Header, e: Entry, api: seq<u32>)
    requires Good(e, api) && 0 <= e.addend < 0x1_0000 && e.kind == REL_CALL && IsSection(e.target)
    ensures Patched(insn, base, h, e, api) ==
            CallWord(insn,
                     ((base + SectionOffset(h, e.target)) % 0x1_0000_0000 + Signed16(e.addend)) % 0x1_0000_0000,
                     (base + e.offset) % 0x1_0000_0000)
  {
    hide CallWord, TargetValue, SectionOffset, Signed16, Good;
    SectionTarget(base, h, e, api);
  }

  lemma SameCall(insn: u32, b1: u32, b2: u32, section: nat, addend: int, offset: u32)
    ensures CallWord(insn, ((b1 + section) % 0x1_0000_0000 + addend) % 0x1_0000_0000, (b1 + offset) % 0x1_0000_0000)
         == CallWord(insn, ((b2 + section) % 0x1_0000_0000 + addend) % 0x1_0000_0000, (b2 + offset) % 0x1_0000_0000)
  {
    hide CallWord;
    Distance(b1, section, addend, offset);
    Distance(b2, section, addend, offset);
    SameDistance(insn, ((b1 + section) % 0x1_0000_0000 + addend) % 0x1_0000_0000, (b1 + offset) % 0x1_0000_0000,
                 ((b2 + section) % 0x1_0000_0000 + addend) % 0x1_0000_0000, (b2 + offset) % 0x1_0000_0000);
  }

  lemma SameDistance(insn: u32, v1: u32, p1: u32, v2: u32, p2: u32)
    requires (v1 - (p1 + 3)) % 0x1_0000_0000 == (v2 - (p2 + 3)) % 0x1_0000_0000
    ensures CallWord(insn, v1, p1) == CallWord(insn, v2, p2)
  {
  }

  /** Modulo 2^32 the base cancels out of target minus site. */
  lemma Distance(base: u32, section: nat, addend: int, offset: u32)
    ensures (((base + section) % 0x1_0000_0000 + addend) % 0x1_0000_0000 - ((base + offset) % 0x1_0000_0000 + 3))
            % 0x1_0000_0000 == (section + addend - offset - 3) % 0x1_0000_0000
  {
  }

  lemma ModShift(x: int, k: int)
    ensures (x + 0x1_0000_0000 * k) % 0x1_0000_0000 == x % 0x1_0000_0000
  {
  }

  /** A CALL to a fixed address from a site d bytes further on, d a multiple of 4, encodes d / 4 words less. */
  lemma CallMoves(insn: u32, v: u32, p1: u32, p2: u32)
    requires (p2 - p1) % 4 == 0
    ensures CallWord(insn, v, p1) / 0x100_0000 == CallWord(insn, v, p2) / 0x100_0000
    ensures (CallWord(insn, v, p2) - CallWord(insn, v, p1) + (p2 - p1) / 4) % 0x100_0000 == 0
  {
    CallWordIs(insn, v, p1);
    CallWordIs(insn, v, p2);
    hide CallWord, Signed32;
    var y1 := Signed32((v - (p1 + 3)) % 0x1_0000_0000) / 4;
    var y2 := Signed32((v - (p2 + 3)) % 0x1_0000_0000) / 4;
    SplitWord(insn, y1 % 0x100_0000);
    SplitWord(insn, y2 % 0x100_0000);
    WordDistance(v - (p1 + 3));
    WordDistance(v - (p2 + 3));
    assert (v - (p2 + 3)) / 4 == (v - (p1 + 3)) / 4 - (p2 - p1) / 4;
    SameResidue(y1, (v - (p1 + 3)) / 4, y2, (v - (p2 + 3)) / 4);
  }

  /** Wrapping to 32 bits and reading as signed does not show in the low 24 bits of the word distance. */
  lemma WordDistance(x: int)
    ensures (Signed32(x % 0x1_0000_0000) / 4) % 0x100_0000 == (x / 4) % 0x100_0000
  {
    var k := (x - Signed32(x % 0x1_0000_0000)) / 0x1_0000_0000;
    assert x == Signed32(x % 0x1_0000_0000) + 0x1_0000_0000 * k;
    assert x / 4 == Signed32(x % 0x1_0000_0000) / 4 + 0x4000_0000 * k;
    assert x / 4 == Signed32(x % 0x1_0000_0000) / 4 + 0x100_0000 * (64 * k);
  }

  lemma SameResidue(y1: int, x1: int, y2: int, x2: int)
    requires y1 % 0x100_0000 == x1 % 0x100_0000 && y2 % 0x100_0000 == x2 % 0x100_0000
    ensures (y2 % 0x100_0000 - y1 % 0x100_0000 + (x1 - x2)) % 0x100_0000 == 0
  {
  }

  /** How the words at one site of the two images are related: they differ by exactly the distance of the bases
      (absolute, section target), are the same (CALL to a section; absolute kernel target), or, for a CALL to the
      kernel from bases a multiple of 4 apart, as all load addresses in one pool are, encode that many words less. */
  predicate Translated(e: Entry, b1: u32, b2: u32, w1: u32, w2: u32) {
    && (e.kind == REL_CALL && !IsSection(e.target) && (b2 - b1) % 4 == 0 ==>
          w1 / 0x100_0000 == w2 / 0x100_0000 && (w2 - w1 + (b2 - b1) / 4) % 0x100_0000 == 0)
    && (e.kind != REL_CALL && IsSection(e.target) ==> (w2 - w1) % 0x1_0000_0000 == (b2 - b1) % 0x1_0000_0000)
    && (e.kind == REL_CALL && IsSection(e.target) ==> w1 == w2)
    && (e.kind != REL_CALL && !IsSection(e.target) ==> w1 == w2)
  }

  lemma TranslateWord(insn: u32, b1: u32, b2: u32, h: Header, e: Entry, api: seq<u32>)
    requires Good(e, api) && 0 <= e.addend < 0x1_0000
    ensures Translated(e, b1, b2, Patched(insn, b1, h, e, api), Patched(insn, b2, h, e, api))
  {
    hide CallWord, TargetValue;
    TranslateValue(b1, b2, h, e, api);
    if e.kind == REL_CALL && IsSection(e.target) {
      CallIsPositionIndependent(insn, b1, b2, h, e, api);
    } else if e.kind == REL_CALL && (b2 - b1) % 4 == 0 {
      KernelCallMoves(insn, b1, b2, e.offset, TargetValue(b1, h, e, api));
    }
  }

  lemma KernelCallMoves(insn: u32, b1: u32, b2: u32, offset: u32, v: u32)
    requires (b2 - b1) % 4 == 0
    ensures var w1 := CallWord(insn, v, (b1 + offset) % 0x1_0000_0000);
      var w2 := CallWord(insn, v, (b2 + offset) % 0x1_0000_0000);
      w1 / 0x100_0000 == w2 / 0x100_0000 && (w2 - w1 + (b2 - b1) / 4) % 0x100_0000 == 0
  {
    var p1, p2 := (b1 + offset) % 0x1_0000_0000, (b2 + offset) % 0x1_0000_0000;
    var k := (b2 + offset) / 0x1_0000_0000 - (b1 + offset) / 0x1_0000_0000;
    assert p2 - p1 == b2 - b1 - 0x1_0000_0000 * k;
    assert (p2 - p1) % 4 == 0 && (p2 - p1) / 4 == (b2 - b1) / 4 - 0x100_0000 * (64 * k);
    CallMoves(insn, v, p1, p2);
    hide CallWord;
    ModPlus(CallWord(insn, v, p2) - CallWord(insn, v, p1) + (p2 - p1) / 4, 64 * k);
  }

  lemma ModPlus(x: int, k: int)
    ensures (x + 0x100_0000 * k) % 0x100_0000 == x % 0x100_0000
  {
  }

  /** One image relocated at two bases: equal outside the sites and translated at each site. */
  lemma TranslationCorrect(img: seq<byte>, b1: u32, b2: u32, h: Header, api: seq<u32>, es: seq<Entry>)
    requires AllWellFormed(es, |img|) && AllGood(es, api) && SitesApart(es)
    ensures var m1, m2 := ApplyList(img, b1, h, api, es).img, ApplyList(img, b2, h, api, es).img;
      && (forall i :: 0 <= i < |es| ==>
            Translated(es[i], b1, b2, Load32(m1, es[i].offset), Load32(m2, es[i].offset)))
      && (forall x :: 0 <= x < |img| && (forall i :: 0 <= i < |es| ==> !InSite(es[i], x)) ==> m1[x] == m2[x] == img[x])
  {
    hide Translated, Patched, ApplyList, Relocated, Load32, Good, SitesApart;
    ListIsClosedForm(img, b1, h, api, es);
    ListIsClosedForm(img, b2, h, api, es);
    var m1, m2 := ApplyList(img, b1, h, api, es).img, ApplyList(img, b2, h, api, es).img;
    forall i | 0 <= i < |es|
      ensures Translated(es[i], b1, b2, Load32(m1, es[i].offset), Load32(m2, es[i].offset))
    {
      AtSite(img, m1, b1, h, api, es, i);
      AtSite(img, m2, b2, h, api, es, i);
      TranslateWord(Load32(img, es[i].offset), b1, b2, h, es[i], api);
    }
    OffSites(img, m1, b1, h, api, es);
    OffSites(img, m2, b2, h, api, es);
  }

  lemma AtSite(img: seq<byte>, m: seq<byte>, base: u32, h: Header, api: seq<u32>, es: seq<Entry>, i: nat)
    requires AllWellFormed(es, |img|) && AllGood(es, api) && Relocated(img, m, base, h, api, es) && i < |es|
    ensures Load32(m, es[i].offset) == Patched(Load32(img, es[i].offset), base, h, es[i], api)
  {
  }

  lemma OffSites(img: seq<byte>, m: seq<byte>, base: u32, h: Header, api: seq<u32>, es: seq<Entry>)
    requires AllWellFormed(es, |img|) && AllGood(es, api) && Relocated(img, m, base, h, api, es)
    ensures forall x :: 0 <= x < |img| && (forall i :: 0 <= i < |es| ==> !InSite(es[i], x)) ==> m[x] == img[x]
  {
  }

  // ---------- the arithmetic of a CALL patch ----------

  /** Sign extension of a 24-bit field. */
  function Signed24(x: int): int
    requires 0 <= x < 0x100_0000
  {
    if x < 0x80_0000 then x else x - 0x100_0000
  }

  /** In an image the loader accepts, a CALL to a section keeps its opcode byte and encodes exactly the word distance
      floor((target - site - 3) / 4), with no wrap anywhere. */
  lemma CallPatchExact(insn: u32, base: u32, h: Header, e: Entry, api: seq<u32>)
    requires Good(e, api) && 0 <= e.addend < 0x1_0000 && e.kind == REL_CALL && IsSection(e.target)
    requires h.code + h.rodata + h.data + h.bss <= APP_MAX_LOAD_SIZE && e.offset + 4 <= h.code + h.rodata + h.data
    ensures var w := Patched(insn, base, h, e, api);
      var pcRel := SectionOffset(h, e.target) + Signed16(e.addend) - (e.offset + 3);
      && w / 0x100_0000 == insn / 0x100_0000
      && Signed24(w % 0x100_0000) == pcRel / 4
      && pcRel == 4 * (pcRel / 4) + pcRel % 4
  {
    hide CallWord;
    var v := TargetValue(base, h, e, api);
    var p := (base + e.offset) % 0x1_0000_0000;
    var pcRel := SectionOffset(h, e.target) + Signed16(e.addend) - (e.offset + 3);
    Distance(base, SectionOffset(h, e.target), Signed16(e.addend), e.offset);
    SmallSigned(pcRel);
    CallWordIs(insn, v, p);
    SplitWord(insn, (pcRel / 4) % 0x100_0000);
    SmallSigned24(pcRel / 4);
  }

  /** Where the place a target names is: the start of code, read-only data, data or BSS, or a kernel function. */
  function PlaceOf(base: u32, h: Header, target: byte, api: seq<u32>): int
    requires target <= 3 || 16 <= target < 16 + |api|
  {
    if target >= 16 then api[target - 16]
    else base + (if target >= 1 then h.code else 0) + (if target >= 2 then h.rodata else 0) + (if target == 3 then h.data else 0)
  }

  /** The word any accepted entry leaves at its site, as arithmetic: the place of its target plus its signed addend,
      modulo 2^32; for a CALL the top byte of the old word and the low 24 bits of the signed distance over 4. */
  lemma PatchedWord(was: u32, base: u32, h: Header, e: Entry, api: seq<u32>)
    requires e.kind <= 3 && (e.target <= 3 || 16 <= e.target < 16 + |api|) && 0 <= e.addend < 0x1_0000
    ensures Good(e, api)
    ensures var addend := if e.addend < 0x8000 then e.addend else e.addend - 0x1_0000;
      var v := (PlaceOf(base, h, e.target, api) + addend) % 0x1_0000_0000;
      var d := (v - (base + e.offset) - 3) % 0x1_0000_0000;
      Patched(was, base, h, e, api) ==
      if e.kind != 1 then v
      else was - was % 0x100_0000 + ((if d < 0x8000_0000 then d else d - 0x1_0000_0000) / 4) % 0x100_0000
  {
    hide CallWord;
    var addend := if e.addend < 0x8000 then e.addend else e.addend - 0x1_0000;
    ModSum(PlaceOf(base, h, e.target, api), addend);
    var v := TargetValue(base, h, e, api);
    ModDifference(v, base + e.offset);
    CallWordIs(was, v, (base + e.offset) % 0x1_0000_0000);
  }

  lemma ModSum(x: int, y: int)
    ensures (x % 0x1_0000_0000 + y) % 0x1_0000_0000 == (x + y) % 0x1_0000_0000
  {
  }

  lemma ModDifference(v: int, x: int)
    ensures (v - (x % 0x1_0000_0000 + 3)) % 0x1_0000_0000 == (v - x - 3) % 0x1_0000_0000
  {
  }

  lemma SmallSigned(x: int)
    requires -0x8000_0000 <= x < 0x8000_0000
    ensures Signed32(x % 0x1_0000_0000) == x
  {
  }

  lemma SmallSigned24(x: int)
    requires -0x80_0000 <= x < 0x80_0000
    ensures Signed24(x % 0x100_0000) == x
  {
  }

  lemma SplitWord(insn: u32, low: nat)
    requires low < 0x100_0000
    ensures (insn - insn % 0x100_0000 + low) / 0x100_0000 == insn / 0x100_0000
    ensures (insn - insn % 0x100_0000 + low) % 0x100_0000 == low
  {
  }
}
