/** The sliding window the MP3 player decodes from (apps/audio/app_audio.c:119-179): unconsumed bytes are moved to
    the front of a 2048-byte buffer, which is refilled when less than half full. */
module Mp3Window {
  import opened Words

  const SIZE: nat := 2048

  /** What one pass of the loop meets: whether the read succeeds, how much it delivers at most, and how much of
      what it is offered the decoder uses at most. */
  datatype Pass = Pass(ok: bool, most: nat, used: nat)

  function Least(a: nat, b: nat): nat {
    if a < b then a else b
  }

  lemma LeastBounds(a: nat, b: nat)
    ensures Least(a, b) <= a && Least(a, b) <= b && (a > 0 && b > 0 ==> Least(a, b) > 0)
  {
  }

  class Window {
    const buf: array<byte>
    var len: nat
    var offset: nat
    ghost var fed: seq<byte>     // every byte put into the window so far
    ghost var eaten: seq<byte>   // every byte consumed out of the window so far
    ghost var heard: seq<byte>   // every byte the decoder has consumed, the probe decode included

    ghost predicate Valid()
      reads this, buf
    {
      buf.Length == SIZE && offset <= len <= SIZE && eaten + buf[offset..len] == fed
    }

    constructor ()
      ensures Valid() && fresh(buf) && len == 0 && fed == [] && eaten == [] && heard == []
    {
      buf := new byte[SIZE](_ => 0);
      len, offset, fed, eaten, heard := 0, 0, [], [], [];
    }

    /** Moves the unconsumed bytes to the front, in place. */
    method Compact()
      requires Valid()
      modifies this`len, this`offset, buf
      ensures Valid() && offset == 0 && len == old(len) - old(offset) && buf[..len] == old(buf[offset..len])
    {
      if offset > 0 {
        var remaining := len - offset;
        ghost var was := buf[offset..len];
        for i := 0 to remaining
          modifies buf
          invariant buf[..i] == was[..i]
          invariant forall j :: i <= j < remaining ==> buf[offset + j] == was[j]
        {
          buf[i] := buf[offset + i];
          assert buf[..i + 1] == buf[..i] + [was[i]];
        }
        len, offset := remaining, 0;
        assert buf[..len] == was;
      }
    }

    /** One fs.read at position pos of the file, into the space behind what is in the window. */
    method Read(file: seq<byte>, pos: nat, most: nat) returns (r: nat)
      requires Valid() && pos <= |file|
      modifies buf
      ensures Valid() && r == Least(most, Least(SIZE - len, |file| - pos))
      ensures buf[..len] == old(buf[..len]) && buf[len..len + r] == file[pos..pos + r]
    {
      r := Least(most, Least(SIZE - len, |file| - pos));
      ghost var was := buf[..len];
      for i := 0 to r
        invariant buf[..len] == was
        invariant buf[len..len + i] == file[pos..pos + i]
      {
        buf[len + i] := file[pos + i];
        assert buf[len..len + i + 1] == buf[len..len + i] + [file[pos + i]];
      }
      assert buf[offset..len] == was[offset..];
    }

    /** Counting r bytes just read. */
    method Extend(r: nat, ghost bytes: seq<byte>)
      requires Valid() && len + r <= SIZE && buf[len..len + r] == bytes
      modifies this`len, this`fed
      ensures Valid() && len == old(len) + r && fed == old(fed) + bytes
    {
      assert buf[offset..len + r] == buf[offset..len] + bytes;
      assert eaten + (buf[offset..len] + bytes) == (eaten + buf[offset..len]) + bytes;
      len := len + r;
      fed := fed + bytes;
    }

    /** Refilling a window that is less than half full: it takes exactly what the read delivers. A read that fails or
        gives nothing ends the playback when the window is empty, and is ignored otherwise. */
    method Refill(file: seq<byte>, pos: nat, p: Pass) returns (pos': nat, ended: bool)
      requires Valid() && pos <= |file|
      modifies this`len, this`fed, buf
      ensures Valid() && pos <= pos' <= |file| && fed == old(fed) + file[pos..pos'] && len >= old(len)
      ensures ended ==> len == 0 && pos' == pos && (p.ok && p.most > 0 ==> pos == |file|)
      ensures ended <==> old(len) == 0 && (!p.ok || p.most == 0 || pos == |file|)
      ensures pos' == if old(len) < 1024 && !ended then pos + Least(p.most, Least(2048 - old(len), |file| - pos)) else pos
      ensures !ended ==> len > 0
    {
      pos', ended := pos, false;
      if len < SIZE / 2 {
        var r := Read(file, pos, p.most);
        if !p.ok || r == 0 {
          if len == 0 {
            ended := true;
            return;
          }
        }
        Extend(r, file[pos..pos + r]);
        pos' := pos + r;
      }
    }

    /** One decoder call: it is offered exactly the unconsumed rest of what was fed, and uses some of it. */
    method Decode(used: nat) returns (ghost offered: seq<byte>)
      requires Valid() && offset == 0
      modifies this`offset, this`eaten, this`heard
      ensures Valid() && offered == buf[..len] && old(eaten) + offered == fed
      ensures offset == Least(used, len) && eaten == old(eaten) + offered[..offset]
      ensures heard == old(heard) + offered[..offset] && (used > 0 && len > 0 ==> offset > 0)
    {
      hide Least;
      LeastBounds(used, len);
      offered := buf[..len];
      var consumed := Least(used, len);
      if consumed > 0 {
        offset := offset + consumed;
      }
      eaten := eaten + offered[..consumed];
      heard := heard + offered[..consumed];
      assert offered == offered[..consumed] + buf[consumed..len];
      assert eaten + buf[offset..len] == old(eaten) + (offered[..consumed] + buf[consumed..len]);
    }

    /** The decode that only reads the format: what it consumes stays in the window. */
    method Probe(used: nat)
      requires Valid()
      modifies this`heard
      ensures Valid() && heard == old(heard) + buf[..Least(used, len)]
    {
      var consumed := Least(used, len);
      heard := heard + buf[..consumed];
    }

    /** Filling the window for probing and the probe decode. */
    method Open(file: seq<byte>, probe: nat, probeUsed: nat)
      requires Valid() && len == 0 && fed == [] && eaten == [] && heard == []
      modifies this`len, this`fed, this`heard, buf
      ensures Valid() && fed == Chunk(file, probe)
      ensures heard == Chunk(file, probe)[..Least(probeUsed, |Chunk(file, probe)|)]
    {
      var r := Read(file, 0, probe);
      Extend(r, file[..r]);
      assert offset == 0 && buf[..len] == buf[offset..len] == fed;
      Probe(probeUsed);
    }

    /** One turn of the loop: what the decoder consumes in it leaves the window. */
    method Turn(file: seq<byte>, pos: nat, p: Pass, ghost tried: seq<byte>) returns (pos': nat, ended: bool)
      requires Valid() && pos <= |file| && heard == tried + eaten
      modifies this`len, this`offset, this`fed, this`eaten, this`heard, buf
      ensures Valid() && pos <= pos' <= |file| && fed == old(fed) + file[pos..pos'] && heard == tried + eaten
      ensures ended ==> offset == len && pos' == pos && (p.ok && p.most > 0 ==> pos == |file|)
      ensures ended <==> old(offset) == old(len) && (!p.ok || p.most == 0 || pos == |file|)
      ensures !ended && p.used > 0 ==> |eaten| > |old(eaten)|
      ensures |eaten| >= |old(eaten)|
    {
      hide Least;
      Compact();
      assert len == 0 <==> old(offset) == old(len);
      pos', ended := Refill(file, pos, p);
      if !ended {
        ghost var was := eaten;
        ghost var offered := Decode(p.used);
        assert (tried + was) + offered[..offset] == tried + (was + offered[..offset]);
      }
    }

    /** Probing and the decoding loop; each pass of `passes` is one turn while the play flag is up. Before the
        loop one read fills the window, the decoder reads the format from it, which may use up some bytes, and the
        file is opened again with the window kept: the loop feeds that decoder the probe chunk and then the whole
        file from its first byte. It leaves early only when a read failed or gave nothing and every byte that was
        fed had been consumed; with reads that all succeed the decoder has then consumed exactly the file if and
        only if the probe read nothing. It does leave, within as many passes as there are bytes to consume and one
        more, if the decoder always uses something of what it is offered. */
    method Play(file: seq<byte>, probe: nat, probeUsed: nat, passes: seq<Pass>) returns (pos: nat, ended: bool)
      requires Valid() && len == 0 && fed == [] && eaten == [] && heard == []
      modifies this, buf
      ensures Valid() && pos <= |file|
      ensures eaten + buf[offset..len] == Chunk(file, probe) + file[..pos]
      ensures heard == Chunk(file, probe)[..Least(probeUsed, |Chunk(file, probe)|)] + eaten
      ensures ended ==> offset == len
      ensures ended && (forall i :: 0 <= i < |passes| ==> passes[i].ok && passes[i].most > 0) ==>
                && eaten == Chunk(file, probe) + file
                && (heard == file <==> probe == 0 || file == [])
      ensures (forall i :: 0 <= i < |passes| ==> passes[i].used > 0) && |passes| > |Chunk(file, probe)| + |file| ==> ended
    {
      Open(file, probe, probeUsed);
      ghost var first := Chunk(file, probe);
      ghost var tried := heard;
      pos, ended := 0, false;
      assert first + file[..0] == first && tried + [] == tried;
      for i := 0 to |passes|
        invariant Valid() && pos <= |file| && fed == first + file[..pos] && !ended
        invariant heard == tried + eaten
        invariant (forall j :: 0 <= j < i ==> passes[j].used > 0) ==> i <= |eaten|
      {
        ghost var at := pos;
        pos, ended := Turn(file, pos, passes[i], tried);
        assert first + file[..at] + file[at..pos] == first + file[..pos];
        if ended {
          assert eaten + buf[offset..len] == eaten;
          assert pos == |file| ==> file[..pos] == file;
          break;
        }
      }
      assert !ended ==> |eaten| <= |fed| <= |first| + |file|;
    }
  }

  /** What a probe read of at most `most` bytes finds at the start of the file. */
  function Chunk(file: seq<byte>, most: nat): seq<byte> {
    file[..Least(most, Least(SIZE, |file|))]
  }
}
