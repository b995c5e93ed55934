/** The ESPAV container: chunks as the recorder writes them (apps/camera/svc_av_recorder.c:118-134) and as the
    converter reads them (tools/espav_converter.py:37-48). */
module Espav {
  import opened Words

  const VIDEO: byte := 1
  const AUDIO: byte := 2

  datatype Chunk = Chunk(ts: u32, kind: byte, data: seq<byte>)
  datatype Frame = Frame(ts: u32, data: seq<byte>)

  predicate Sized(c: Chunk) {
    |c.data| < 0x1_0000_0000
  }

  function EncodeChunk(c: Chunk): (r: seq<byte>)
    requires Sized(c)
    ensures |r| == 9 + |c.data|
  {
    Bytes32(c.ts) + [c.kind] + Bytes32(|c.data|) + c.data
  }

  /** Behind `front` there is one chunk: time, type, size and data at their places in espav_chunk_t. */
  predicate EndsWithChunk(file: seq<byte>, front: seq<byte>, ts: u32, kind: byte, data: seq<byte>) {
    var n := |front|;
    && |file| == n + 9 + |data| && file[..n] == front
    && Load32(file, n) == ts && file[n + 4] == kind && Load32(file, n + 5) == |data| && file[n + 9..] == data
  }

  lemma ChunkAtEnd(front: seq<byte>, c: Chunk)
    requires Sized(c)
    ensures EndsWithChunk(front + EncodeChunk(c), front, c.ts, c.kind, c.data)
  {
    hide Load32, Bytes32;
    var f, n := front + EncodeChunk(c), |front|;
    assert f[n..n + 4] == Bytes32(c.ts) && f[n + 5..n + 9] == Bytes32(|c.data|);
    LoadBytes32(f, n, c.ts);
    LoadBytes32(f, n + 5, |c.data|);
  }

  predicate AllSized(cs: seq<Chunk>) {
    forall i :: 0 <= i < |cs| ==> Sized(cs[i])
  }

  function Encode(cs: seq<Chunk>): seq<byte>
    requires AllSized(cs)
  {
    if cs == [] then [] else EncodeChunk(cs[0]) + Encode(cs[1..])
  }

  /** write_chunk onto a medium that takes `room` more bytes: header, then data, each by one fwrite. */
  method WriteChunk(file: seq<byte>, room: nat, c: Chunk) returns (file': seq<byte>, ok: bool)
    requires Sized(c)
    ensures ok <==> 9 + |c.data| <= room
    ensures file' == file + (if ok then EncodeChunk(c) else EncodeChunk(c)[..room])
    ensures ok ==> EndsWithChunk(file', file, c.ts, c.kind, c.data)
  {
    if 9 + |c.data| <= room { ChunkAtEnd(file, c); }
    hide EndsWithChunk;
    var header := Bytes32(c.ts) + [c.kind] + Bytes32(|c.data|);
    assert EncodeChunk(c) == header + c.data;
    if room < 9 {
      assert EncodeChunk(c)[..room] == header[..room];
      return file + header[..room], false;
    }
    file' := file + header;
    if room - 9 < |c.data| {
      assert EncodeChunk(c)[..room] == header + c.data[..room - 9];
      return file' + c.data[..room - 9], false;
    }
    assert file + header + c.data == file + (header + c.data);
    return file' + c.data, true;
  }

  // ---------- the reader ----------

  /** f.read(n) at the front of f. */
  function Take(f: seq<byte>, n: nat): seq<byte> {
    if n <= |f| then f[..n] else f
  }

  /** The chunk at the front of f; its data is cut short by the end of the file. */
  function First(f: seq<byte>): (c: Chunk)
    requires |f| >= 9
    ensures 9 + |c.data| <= |f|
  {
    Chunk(Load32(f, 0), f[4], Take(f[9..], Load32(f, 5)))
  }

  function Parse(f: seq<byte>): seq<Chunk>
    decreases |f|
  {
    if |f| < 9 then [] else [First(f)] + Parse(f[9 + |First(f).data|..])
  }

  /** The chunks of one kind, in order, as the converter's lists hold them. */
  function Frames(cs: seq<Chunk>, kind: byte): seq<Frame> {
    if cs == [] then []
    else (if cs[0].kind == kind then [Frame(cs[0].ts, cs[0].data)] else []) + Frames(cs[1..], kind)
  }

  /** The chunk loop of read_espav. */
  method ReadChunks(f: seq<byte>) returns (video: seq<Frame>, audio: seq<Frame>)
    ensures video == Frames(Parse(f), VIDEO) && audio == Frames(Parse(f), AUDIO)
  {
    video, audio := [], [];
    var pos := 0;
    hide Frames, Parse, First;
    while true
      invariant 0 <= pos <= |f|
      invariant Frames(Parse(f), VIDEO) == video + Frames(Parse(f[pos..]), VIDEO)
      invariant Frames(Parse(f), AUDIO) == audio + Frames(Parse(f[pos..]), AUDIO)
      decreases |f| - pos
    {
      ParseStep(f, pos);
      var header := Take(f[pos..], 9);
      if |header| < 9 { break; }
      var c := First(f[pos..]);
      if c.kind == VIDEO {
        video := video + [Frame(c.ts, c.data)];
      } else if c.kind == AUDIO {
        audio := audio + [Frame(c.ts, c.data)];
      }
      pos := pos + 9 + |c.data|;
    }
  }

  lemma ParseStep(f: seq<byte>, pos: nat)
    requires pos <= |f|
    ensures |f| - pos < 9 ==> forall kind: byte :: Frames(Parse(f[pos..]), kind) == []
    ensures |f| - pos >= 9 ==>
              var c := First(f[pos..]);
              forall kind: byte :: Frames(Parse(f[pos..]), kind) ==
                (if c.kind == kind then [Frame(c.ts, c.data)] else []) + Frames(Parse(f[pos + 9 + |c.data|..]), kind)
  {
  }

  /** The header check of read_espav: it reads four bytes and compares them with the five of the name. */
  predicate MagicAccepted(f: seq<byte>) {
    Take(f, 4) == [0x45, 0x53, 0x50, 0x41, 0x56]
  }

  /** So the converter turns every file away, the recorder's own included. */
  lemma ReaderRejectsEveryFile(f: seq<byte>)
    ensures !MagicAccepted(f)
  {
  }

  // ---------- round trip ----------

  lemma FirstOfChunk(c: Chunk, rest: seq<byte>)
    requires Sized(c)
    ensures First(EncodeChunk(c) + rest) == c && (EncodeChunk(c) + rest)[9 + |c.data|..] == rest
  {
    CutFirst(c, rest, 9 + |c.data| + |rest|);
    assert (EncodeChunk(c) + rest)[..9 + |c.data| + |rest|] == EncodeChunk(c) + rest;
  }

  /** Cutting a file inside its first chunk's data, or behind it. */
  lemma CutFirst(c: Chunk, rest: seq<byte>, cut: nat)
    requires Sized(c) && 9 <= cut <= 9 + |c.data| + |rest|
    ensures First((EncodeChunk(c) + rest)[..cut]) == Chunk(c.ts, c.kind, Take(c.data, cut - 9))
    ensures cut >= 9 + |c.data| ==> (EncodeChunk(c) + rest)[..cut][9 + |c.data|..] == rest[..cut - 9 - |c.data|]
  {
    var f := (EncodeChunk(c) + rest)[..cut];
    var header := Bytes32(c.ts) + [c.kind] + Bytes32(|c.data|);
    assert EncodeChunk(c) + rest == header + (c.data + rest);
    assert f == header + (c.data + rest)[..cut - 9];
    hide Load32;
    assert f[0..4] == Bytes32(c.ts);
    LoadBytes32(f, 0, c.ts);
    assert f[5..9] == Bytes32(|c.data|);
    LoadBytes32(f, 5, |c.data|);
    assert f[9..] == (c.data + rest)[..cut - 9];
  }

  /** What remains of a chunk list when its file is cut after `cut` bytes. */
  function Cut(cs: seq<Chunk>, cut: nat): seq<Chunk> {
    if cs == [] || cut < 9 then []
    else if cut < 9 + |cs[0].data| then [Chunk(cs[0].ts, cs[0].kind, cs[0].data[..cut - 9])]
    else [cs[0]] + Cut(cs[1..], cut - 9 - |cs[0].data|)
  }

  /** Reading a file cut anywhere. */
  lemma {:induction false} ParseOfCut(cs: seq<Chunk>, cut: nat)
    requires AllSized(cs) && cut <= |Encode(cs)|
    ensures Parse(Encode(cs)[..cut]) == Cut(cs, cut)
    decreases |cs|
  {
    if cs != [] && cut >= 9 {
      var c, rest := cs[0], Encode(cs[1..]);
      CutFirst(c, rest, cut);
      var f := Encode(cs)[..cut];
      if cut >= 9 + |c.data| {
        assert Take(c.data, cut - 9) == c.data;
        ParseOfCut(cs[1..], cut - 9 - |c.data|);
      } else {
        assert |f[9 + |First(f).data|..]| == 0;
      }
    }
  }

  /** The chunks read from a cut file are a prefix of those written, the last one's data possibly shortened. */
  lemma {:induction false} CutIsPrefix(cs: seq<Chunk>, cut: nat)
    ensures var r := Cut(cs, cut);
      && |r| <= |cs|
      && (forall i :: 0 <= i < |r| - 1 ==> r[i] == cs[i])
      && (|r| > 0 ==> var l := |r| - 1; r[l].ts == cs[l].ts && r[l].kind == cs[l].kind && r[l].data <= cs[l].data)
    decreases |cs|
  {
    if cs != [] && cut >= 9 + |cs[0].data| {
      CutIsPrefix(cs[1..], cut - 9 - |cs[0].data|);
    }
  }

  lemma {:induction false} CutNothing(cs: seq<Chunk>)
    requires AllSized(cs)
    ensures Cut(cs, |Encode(cs)|) == cs
    decreases |cs|
  {
    if cs != [] { CutNothing(cs[1..]); }
  }

  /** Reading what was written gives the chunks back. */
  lemma RoundTrip(cs: seq<Chunk>)
    requires AllSized(cs)
    ensures Parse(Encode(cs)) == cs
  {
    assert Encode(cs)[..|Encode(cs)|] == Encode(cs);
    ParseOfCut(cs, |Encode(cs)|);
    CutNothing(cs);
  }

  lemma {:induction false} EncodeAppend(cs: seq<Chunk>, c: Chunk)
    requires AllSized(cs) && Sized(c)
    ensures AllSized(cs + [c]) && Encode(cs + [c]) == Encode(cs) + EncodeChunk(c)
    decreases |cs|
  {
    hide EncodeChunk;
    if cs == [] {
      assert cs + [c] == [c] && [c][1..] == [];
      assert Encode([c]) == EncodeChunk(c) + Encode([]);
    } else {
      assert (cs + [c])[1..] == cs[1..] + [c];
      EncodeAppend(cs[1..], c);
    }
  }
}
