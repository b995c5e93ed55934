/** The .espapp file byte by byte (src/espapp_format.h:8-28), and what the loader's result code says about those
    bytes (src/app_loader.c:32-76, 207-300). */
module EspappFile {
  import opened Words
  import opened Reloc
  import opened PoolSpec
  import opened PoolLaws
  import opened LoaderSpec

  /** espapp_header_t in full. */
  datatype FileHeader = FileHeader(magic: u32, abi: byte, flags: byte, reserved: int, name: seq<byte>,
                                   code: u32, rodata: u32, data: u32, bss: u32, relocCount: u32,
                                   entry: u32, totalSize: u32, crc: u32)

  predicate Printable(x: FileHeader) {
    |x.name| == 32 && 0 <= x.reserved < 0x1_0000
  }

  /** The packed structure, little-endian. */
  function PackHeader(x: FileHeader): (r: seq<byte>)
    requires Printable(x)
    ensures |r| == 72
  {
    Bytes32(x.magic) + [x.abi, x.flags] + Bytes16(x.reserved) + x.name
    + Bytes32(x.code) + Bytes32(x.rodata) + Bytes32(x.data) + Bytes32(x.bss) + Bytes32(x.relocCount)
    + Bytes32(x.entry) + Bytes32(x.totalSize) + Bytes32(x.crc)
  }

  /** f begins with the header x. */
  ghost predicate Begins(f: seq<byte>, x: FileHeader) {
    Printable(x) && |f| >= 72 && f[..72] == PackHeader(x)
  }

  lemma FieldsAt(f: seq<byte>, x: FileHeader)
    requires Begins(f, x)
    ensures f[4] == x.abi && f[5] == x.flags && f[6..8] == Bytes16(x.reserved) && f[8..40] == x.name
    ensures f[..4] == Bytes32(x.magic) && f[40..44] == Bytes32(x.code) && f[44..48] == Bytes32(x.rodata)
    ensures f[48..52] == Bytes32(x.data) && f[52..56] == Bytes32(x.bss) && f[56..60] == Bytes32(x.relocCount)
    ensures f[60..64] == Bytes32(x.entry) && f[64..68] == Bytes32(x.totalSize) && f[68..72] == Bytes32(x.crc)
  {
    hide Bytes32, Bytes16;
    var p := PackHeader(x);
    assert forall i :: 0 <= i < 72 ==> f[i] == p[i];
    assert p[4] == x.abi && p[5] == x.flags;
    assert p[..4] == Bytes32(x.magic) && p[6..8] == Bytes16(x.reserved) && p[8..40] == x.name;
    assert p[40..44] == Bytes32(x.code) && p[44..48] == Bytes32(x.rodata) && p[48..52] == Bytes32(x.data);
    assert p[52..56] == Bytes32(x.bss) && p[56..60] == Bytes32(x.relocCount) && p[60..64] == Bytes32(x.entry);
    assert p[64..68] == Bytes32(x.totalSize) && p[68..72] == Bytes32(x.crc);
  }

  /** The loader reads every field it uses from the place where the structure has it, whatever name, flags, total size
      and what follows the header are. */
  lemma HeaderRoundTrip(f: seq<byte>, x: FileHeader)
    requires Begins(f, x)
    ensures ParseHeader(f) == Header(x.magic, x.abi, x.code, x.rodata, x.data, x.bss, x.relocCount, x.entry, x.crc)
  {
    hide PackHeader, Load32, Bytes32;
    FieldsAt(f, x);
    LoadBytes32(f, 0, x.magic);
    LoadBytes32(f, 40, x.code);
    LoadBytes32(f, 44, x.rodata);
    LoadBytes32(f, 48, x.data);
    LoadBytes32(f, 52, x.bss);
    LoadBytes32(f, 56, x.relocCount);
    LoadBytes32(f, 60, x.entry);
    LoadBytes32(f, 68, x.crc);
  }

  function Unpack(f: seq<byte>): FileHeader
    requires |f| >= 72
  {
    FileHeader(Load32(f, 0), f[4], f[5], Load16(f, 6), f[8..40], Load32(f, 40), Load32(f, 44), Load32(f, 48),
               Load32(f, 52), Load32(f, 56), Load32(f, 60), Load32(f, 64), Load32(f, 68))
  }

  lemma BytesOfLoad(f: seq<byte>, a: nat)
    requires a + 4 <= |f|
    ensures Bytes32(Load32(f, a)) == f[a..a + 4]
  {
    hide Load32;
    LoadDigits(f, a);
  }

  /** Every file of at least 72 bytes begins with some header. */
  lemma EveryFileBegins(f: seq<byte>)
    requires |f| >= 72
    ensures Begins(f, Unpack(f))
  {
    hide Bytes32, Load32;
    var x := Unpack(f);
    BytesOfLoad(f, 0);
    BytesOfLoad(f, 40);
    BytesOfLoad(f, 44);
    BytesOfLoad(f, 48);
    BytesOfLoad(f, 52);
    BytesOfLoad(f, 56);
    BytesOfLoad(f, 60);
    BytesOfLoad(f, 64);
    BytesOfLoad(f, 68);
    assert Bytes16(x.reserved) == f[6..8];
    hide Load16, Bytes16;
    Parts(f);
    Join(f, 60, 64);
    Join(f, 64, 68);
    Join(f, 68, 72);
  }

  lemma Join(f: seq<byte>, a: nat, b: nat)
    requires a <= b <= |f|
    ensures f[..a] + f[a..b] == f[..b]
  {
  }

  // ---------- what the CRC covers ----------

  /** The fields in the first 60 bytes are the same. */
  predicate SameChecked(x: FileHeader, y: FileHeader) {
    x == y.(entry := x.entry, totalSize := x.totalSize, crc := x.crc)
  }

  /** The CRC is taken over 60 bytes of a structure of 72: it depends on every field but the entry offset, the total size
      and itself. */
  lemma CrcCovers(f: seq<byte>, g: seq<byte>, x: FileHeader, y: FileHeader)
    requires Begins(f, x) && Begins(g, y)
    ensures f[..60] == g[..60] <==> SameChecked(x, y)
  {
    FieldsAt(f, x);
    FieldsAt(g, y);
    if f[..60] == g[..60] {
      assert forall i :: 0 <= i < 60 ==> f[..60][i] == f[i] && g[..60][i] == g[i];
      HeaderRoundTrip(f, x);
      HeaderRoundTrip(g, y);
      SameLoads(f, g);
      LoadBytes16(f, 6, x.reserved);
      LoadBytes16(g, 6, y.reserved);
      hide PackHeader, Load32, Bytes32, Bytes16;
      assert f[8..40] == g[8..40];
    }
    if SameChecked(x, y) {
      hide PackHeader, Load32, Bytes32, Bytes16;
      Parts(f);
      Parts(g);
    }
  }

  lemma SameLoads(f: seq<byte>, g: seq<byte>)
    requires |f| >= 60 && |g| >= 60 && forall i :: 0 <= i < 60 ==> f[i] == g[i]
    ensures Load32(f, 0) == Load32(g, 0) && Load16(f, 6) == Load16(g, 6)
    ensures forall a :: 0 <= a <= 56 ==> Load32(f, a) == Load32(g, a)
  {
  }

  lemma Parts(f: seq<byte>)
    requires |f| >= 60
    ensures f[..60] == f[..4] + [f[4], f[5]] + f[6..8] + f[8..40] + f[40..44] + f[44..48] + f[48..52] + f[52..56] + f[56..60]
  {
    assert [f[4], f[5]] == f[4..6];
    Join(f, 4, 6);
    Join(f, 6, 8);
    Join(f, 8, 40);
    Join(f, 40, 44);
    Join(f, 44, 48);
    Join(f, 48, 52);
    Join(f, 52, 56);
    Join(f, 56, 60);
  }

  // ---------- the verdict on the header ----------

  /** The sum of the four section sizes as the loader computes it. */
  function Ram(x: FileHeader): int {
    (x.code + x.rodata + x.data + x.bss) % 0x1_0000_0000
  }

  predicate AllAligned(x: FileHeader) {
    x.code % 4 == 0 && x.rodata % 4 == 0 && x.data % 4 == 0 && x.bss % 4 == 0
  }

  /** Each result of the header's validation in exactly its case, on the bytes of the file. */
  lemma HeaderVerdict(f: seq<byte>, x: FileHeader, env: Env)
    requires Begins(f, x)
    ensures var st, magic, intact := Validate(f, env), f[..4] == [0x41, 0x50, 0x53, 0x45], env.crc(f[..60]) == x.crc;
      && (st == BadMagic <==> !magic)
      && (st == BadCrc <==> magic && (!intact || (Ram(x) <= 2097152 && x.entry < x.code && !AllAligned(x))))
      && (st == TooLarge <==> magic && intact && Ram(x) > 2097152)
      && (st == NoEntry <==> magic && intact && Ram(x) <= 2097152 && x.entry >= x.code)
      && (st == LoadOk <==> magic && intact && Ram(x) <= 2097152 && x.entry < x.code && AllAligned(x))
      && (st == BadMagic || st == BadCrc || st == TooLarge || st == NoEntry || st == LoadOk)
  {
    hide PackHeader, ParseHeader, Bytes32, TotalRam, Begins, ValidateHeader, Ram, AllAligned;
    HeaderRoundTrip(f, x);
    MagicAt(f, x);
    RamIs(ParseHeader(f));
    ValidateIs(ParseHeader(f), x, env.crc(f[..60]));
  }

  lemma MagicAt(f: seq<byte>, x: FileHeader)
    requires Begins(f, x)
    ensures |f| >= 72 && (f[..4] == [0x41, 0x50, 0x53, 0x45] <==> x.magic == 0x45535041)
  {
    hide PackHeader, Bytes32;
    FieldsAt(f, x);
    MagicBytes(x.magic);
  }

  lemma ValidateIs(h: Header, x: FileHeader, crc: u32)
    requires h == Header(x.magic, x.abi, x.code, x.rodata, x.data, x.bss, x.relocCount, x.entry, x.crc)
    requires TotalRam(h) == (h.code + h.rodata + h.data + h.bss) % 0x1_0000_0000
    ensures var st, magic, intact := ValidateHeader(h, crc), x.magic == 0x45535041, crc == x.crc;
      && (st == BadMagic <==> !magic)
      && (st == BadCrc <==> magic && (!intact || (Ram(x) <= 2097152 && x.entry < x.code && !AllAligned(x))))
      && (st == TooLarge <==> magic && intact && Ram(x) > 2097152)
      && (st == NoEntry <==> magic && intact && Ram(x) <= 2097152 && x.entry >= x.code)
      && (st == LoadOk <==> magic && intact && Ram(x) <= 2097152 && x.entry < x.code && AllAligned(x))
      && (st == BadMagic || st == BadCrc || st == TooLarge || st == NoEntry || st == LoadOk)
  {
    hide TotalRam;
  }

  lemma MagicBytes(m: u32)
    ensures Bytes32(m) == [0x41, 0x50, 0x53, 0x45] <==> m == 0x45535041
  {
    Digits(m);
  }

  lemma RamIs(h: Header)
    ensures TotalRam(h) == (h.code + h.rodata + h.data + h.bss) % 0x1_0000_0000
  {
  }

  // ---------- the verdict on the file ----------

  /** Sections and relocation table. */
  function BodyBytes(x: FileHeader): nat {
    x.code + x.rodata + x.data + 8 * x.relocCount
  }

  /** Byte j of the file's body as the relocator sees it, after the memset of BSS. */
  function Seen(f: seq<byte>, x: FileHeader, j: nat): byte
    requires 72 + j < |f|
  {
    var loaded := x.code + x.rodata + x.data;
    if loaded <= j < loaded + x.bss then 0 else f[72 + j]
  }

  /** Entry i of the table has a type up to 3 and a target that is a section or an entry of the kernel's table. */
  predicate EntryKnown(f: seq<byte>, x: FileHeader, i: nat, api: seq<u32>)
    requires i < x.relocCount && |f| >= 72 + BodyBytes(x)
  {
    var a := x.code + x.rodata + x.data + 8 * i;
    Seen(f, x, a + 4) <= 3 && (Seen(f, x, a + 5) <= 3 || 16 <= Seen(f, x, a + 5) < 16 + |api|)
  }

  predicate AllKnown(f: seq<byte>, x: FileHeader, api: seq<u32>)
    requires |f| >= 72 + BodyBytes(x)
  {
    forall i: nat :: i < x.relocCount ==> EntryKnown(f, x, i, api)
  }

  /** The 64 bytes behind the body verify as a signature of its hash. */
  predicate Signed(f: seq<byte>, x: FileHeader, env: Env) {
    var end := 72 + BodyBytes(x);
    |f| >= end + 64 && env.verify(env.hash(f[72..end]), f[end..end + 64])
  }

  lemma SizesAgree(f: seq<byte>, x: FileHeader)
    requires Begins(f, x) && x.code + x.rodata + x.data + x.bss < 0x1_0000_0000
    ensures BodyLen(ParseHeader(f)) == BodyBytes(x) && LoadedSize(ParseHeader(f)) == x.code + x.rodata + x.data
    ensures TotalRam(ParseHeader(f)) == Ram(x)
    ensures |f| >= 72 + BodyBytes(x) ==> Body(f, ParseHeader(f)) == f[72..72 + BodyBytes(x)]
  {
    hide PackHeader, ParseHeader;
    HeaderRoundTrip(f, x);
    RamIs(ParseHeader(f));
    hide TotalRam;
  }

  lemma KnownIsGood(f: seq<byte>, x: FileHeader, api: seq<u32>)
    requires Begins(f, x) && x.code + x.rodata + x.data + x.bss < 0x1_0000_0000 && |f| >= 72 + BodyBytes(x)
    ensures |f| >= HEADER_BYTES + BodyLen(ParseHeader(f))
    ensures AllGood(TableRead(f, ParseHeader(f)), api) <==> AllKnown(f, x, api)
  {
    hide PackHeader, ParseHeader, BodyLen, LoadedSize, Body, Load32, Load16, Seen;
    SizesAgree(f, x);
    HeaderRoundTrip(f, x);
    var h := ParseHeader(f);
    var z := Zeroed(Body(f, h), LoadedSize(h), h.bss);
    forall i: nat | i < x.relocCount ensures Good(TableRead(f, h)[i], api) <==> EntryKnown(f, x, i, api) {
      var a := x.code + x.rodata + x.data + 8 * i;
      SeenIs(f, x, h, a + 4);
      SeenIs(f, x, h, a + 5);
      assert TableRead(f, h)[i] == ReadEntry(z, a);
    }
  }

  lemma SeenIs(f: seq<byte>, x: FileHeader, h: Header, j: nat)
    requires |f| >= HEADER_BYTES + BodyLen(h) && BodyLen(h) == BodyBytes(x) && j < BodyBytes(x)
    requires LoadedSize(h) == x.code + x.rodata + x.data && h.bss == x.bss
    ensures Zeroed(Body(f, h), LoadedSize(h), h.bss)[j] == Seen(f, x, j)
  {
  }

  /** Once the header is accepted and its sizes add up: each result of the load in exactly its case, on the bytes of the
      file, the longest free run of the pool, and what malloc says. In particular an app is loaded only if the 64 bytes
      behind its body verify against the hash of that body. */
  lemma LoadVerdict(s: State, f: seq<byte>, x: FileHeader, env: Env, api: seq<u32>, run: nat)
    requires Begins(f, x) && Validate(f, env) == LoadOk && x.code + x.rodata + x.data + x.bss < 0x1_0000_0000
    requires LongestRun(s.bits, run)
    ensures var st := StatusOf(Some(f), env, api, Fits(s, Some(f)));
      var granted := 16 + x.code + x.rodata + x.data + x.bss <= 4096 * run;
      var whole := |f| >= 72 + BodyBytes(x) + 64;
      && (st == BodyRead <==> granted && !whole)
      && (st == Signature <==> granted && whole && !Signed(f, x, env))
      && (st == RelocError <==> granted && Signed(f, x, env) && !AllKnown(f, x, api))
      && (st == PsAlloc <==> !granted || (Signed(f, x, env) && AllKnown(f, x, api) && !env.ctxOk))
      && (st == LoadOk <==> granted && Signed(f, x, env) && AllKnown(f, x, api) && env.ctxOk)
  {
    hide PackHeader, ParseHeader, Validate, BodyLen, Body, TableRead, AllGood, AllKnown, TotalRam, FirstFit, LongestRun,
      BlocksFor;
    SizesAgree(f, x);
    SmallRam(f, x, env);
    FitsIff(s, f, x, run);
    if |f| >= 72 + BodyBytes(x) { KnownIsGood(f, x, api); }
  }

  lemma SmallRam(f: seq<byte>, x: FileHeader, env: Env)
    requires Begins(f, x) && Validate(f, env) == LoadOk && x.code + x.rodata + x.data + x.bss < 0x1_0000_0000
    ensures 0 < Ram(x) == x.code + x.rodata + x.data + x.bss <= 2097152
  {
    hide PackHeader, Validate, Begins;
    HeaderVerdict(f, x, env);
  }

  lemma FitsIff(s: State, f: seq<byte>, x: FileHeader, run: nat)
    requires Begins(f, x) && LongestRun(s.bits, run) && TotalRam(ParseHeader(f)) == Ram(x) <= 2097152
    ensures Fits(s, Some(f)) <==> 16 + Ram(x) <= 4096 * run
  {
    hide PackHeader, ParseHeader;
    var n := BlocksFor(Ram(x));
    BlocksForCovers(Ram(x));
    if n <= run {
      var lo: nat :| Clear(s.bits, lo, run);
      assert Clear(s.bits, lo, n);
    }
  }

  /** A file that cannot be opened, or is shorter than a header. */
  lemma NoHeaderVerdict(s: State, file: Option<seq<byte>>, env: Env, api: seq<u32>)
    ensures var st := StatusOf(file, env, api, Fits(s, file));
      && (st == FileOpen <==> file.None?)
      && (st == HeaderRead <==> file.Some? && |file.value| < 72)
      && (file.Some? && |file.value| >= 72 && Validate(file.value, env) != LoadOk ==> st == Validate(file.value, env))
  {
    hide PackHeader, ParseHeader, Validate, BodyLen, Body, TableRead, AllGood, Fits, SignatureHolds, Unpack;
    if file.Some? && |file.value| >= 72 {
      EveryFileBegins(file.value);
      HeaderVerdict(file.value, Unpack(file.value), env);
    }
  }

  /** What a load that has succeeded says about the file. */
  lemma AcceptedFile(s: State, f: seq<byte>, env: Env, api: seq<u32>)
    requires |f| >= 72 && SizesAddUp(ParseHeader(f)) && StatusOf(Some(f), env, api, Fits(s, Some(f))) == LoadOk
    ensures Signed(f, Unpack(f), env)
    ensures ParseHeader(f).entry == Load32(f, 60) && TotalRam(ParseHeader(f)) == Ram(Unpack(f))
  {
    hide PackHeader, Validate, TableRead, AllGood, Fits, Unpack, Load32;
    EveryFileBegins(f);
    HeaderRoundTrip(f, Unpack(f));
    SizesAgree(f, Unpack(f));
    UnpackedEntry(f);
  }

  lemma UnpackedEntry(f: seq<byte>)
    requires |f| >= 72
    ensures Unpack(f).entry == Load32(f, 60)
  {
  }
}
