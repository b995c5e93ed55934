/** The recorder's atomic sections on its state record (apps/camera/svc_av_recorder.c:60-89), its queues, its file and
    the heap. `x` is the step machine's state; each method takes one of its steps. */
module RecorderDevice {
  import opened Words
  import opened Espav
  import opened Recorder
  import opened RecorderLaws

  /** The fields of the device as one value. */
  datatype Fields = Fields(stop: bool, videoQueue: seq<Item>, audioQueue: seq<Item>, frameCount: u32,
                           audioChunkCount: u32, file: seq<byte>, elapsed: nat, heap: set<nat>, nextBuffer: nat)

  /** The fields are the state machine's, and the heap holds the buffers it has not freed. */
  ghost predicate Agrees(x: Rec, f: Fields) {
    && Inv(x) && f.stop == x.stop && f.file == x.file && f.elapsed == x.elapsed && f.nextBuffer == x.next
    && f.videoQueue == x.video.queue && f.audioQueue == x.audio.queue
    && f.frameCount == x.video.count && f.audioChunkCount == x.audio.count
    && forall id: nat :: id in f.heap <==> id < x.next && id !in x.freed
  }

  class Device {
    var stopRequested: bool
    var videoQueue: seq<Item>
    var audioQueue: seq<Item>
    var frameCount: u32
    var audioChunkCount: u32
    var file: seq<byte>
    var elapsed: nat          // milliseconds since the start
    var space: nat            // bytes the card still takes
    var heap: set<nat>        // buffers allocated and not yet freed
    var nextBuffer: nat
    ghost var x: Rec

    ghost function Now(): Fields
      reads this
    {
      Fields(stopRequested, videoQueue, audioQueue, frameCount, audioChunkCount, file, elapsed, heap, nextBuffer)
    }

    ghost predicate Valid()
      reads this
    {
      Agrees(x, Now())
    }

    /** svc_av_recorder_start, once the header is written and the queues exist. */
    constructor (space: nat)
      ensures Valid() && x == Started()
    {
      this.space := space;
      stopRequested, videoQueue, audioQueue, frameCount, audioChunkCount := false, [], [], 0, 0;
      file, elapsed, heap, nextBuffer := [], 0, {}, 0;
      x := Started();
      new;
      StartedIsInv();
    }

    function QueueOf(k: Kind): seq<Item>
      reads this
    {
      if k == Video then videoQueue else audioQueue
    }

    method SetQueue(k: Kind, q: seq<Item>)
      modifies this`videoQueue, this`audioQueue
      ensures videoQueue == (if k == Video then q else old(videoQueue))
      ensures audioQueue == (if k == Audio then q else old(audioQueue))
    {
      if k == Video { videoQueue := q; } else { audioQueue := q; }
    }

    /** heap_caps_malloc. */
    method Malloc(granted: bool) returns (id: nat)
      requires nextBuffer !in heap
      modifies this`heap, this`nextBuffer
      ensures id == old(nextBuffer)
      ensures heap == (if granted then old(heap) + {id} else old(heap))
      ensures nextBuffer == old(nextBuffer) + (if granted then 1 else 0)
    {
      id := nextBuffer;
      if granted {
        heap := heap + {id};
        nextBuffer := nextBuffer + 1;
      }
    }

    /** heap_caps_free: only of a buffer that is allocated. */
    method FreeBuffer(id: nat)
      requires id in heap
      modifies this`heap
      ensures heap == old(heap) - {id}
    {
      heap := heap - {id};
    }

    method Tick(ms: nat)
      requires Valid()
      modifies this
      ensures Valid() && x == Step(old(x), Act.Tick(ms))
      ensures Now() == old(Now()).(elapsed := old(elapsed) + ms)
    {
      StepKeepsInv(x, Act.Tick(ms));
      elapsed := elapsed + ms;
      x := Step(x, Act.Tick(ms));
    }

    /** svc_av_recorder_stop up to its delay. */
    method RequestStop()
      requires Valid()
      modifies this
      ensures Valid() && x == Step(old(x), Stop)
      ensures Now() == old(Now()).(stop := true)
    {
      StepKeepsInv(x, Stop);
      stopRequested := true;
      x := Step(x, Stop);
    }

    /** A captured frame or chunk copied into a buffer of its own; nothing is kept if there is no memory. */
    method CopySample(k: Kind, data: Payload, granted: bool) returns (item: Item)
      requires Valid() && Enabled(x, Capture(k, data, granted))
      modifies this
      ensures Valid() && x == Step(old(x), Capture(k, data, granted))
      ensures granted ==>
                && LaneOf(x, k).task == Holding(item)
                && item.data == data && item.ts == elapsed % 0x1_0000_0000 && item.id !in old(heap)
                && Now() == old(Now()).(heap := old(heap) + {item.id}, nextBuffer := old(nextBuffer) + 1)
      ensures !granted ==> Now() == old(Now()) && WentRound(old(x), x, k)
    {
      CaptureRound(x, k, data, granted);
      CaptureAgrees(x, Now(), k, data, granted);
      hide Agrees, Step, Enabled;
      var id := Malloc(granted);
      item := Item(id, elapsed % 0x1_0000_0000, data);
      x := Step(x, Capture(k, data, granted));
    }

    /** xQueueSend without waiting; a full queue costs the item its buffer. */
    method SendItem(k: Kind, item: Item)
      requires Valid() && LaneOf(x, k).task == Holding(item)
      modifies this
      ensures Valid() && x == Step(old(x), Send(k))
      ensures if |old(QueueOf(k))| < (if k == Video then 4 else 16) then
                Now() == WithQueue(old(Now()), k, old(QueueOf(k)) + [item])
              else Now() == old(Now()).(heap := old(heap) - {item.id}) && item.id in old(heap)
    {
      SendAgrees(x, Now(), k, item);
      hide Agrees, Step, Enabled;
      if |QueueOf(k)| < Capacity(k) {
        SetQueue(k, QueueOf(k) + [item]);
      } else {
        FreeBuffer(item.id);
      }
      x := Step(x, Send(k));
    }

    /** The audio capture task up to its loop: without microphone or read buffer it ends at once. */
    method OpenMic(ok: bool, granted: bool) returns (scratch: nat)
      requires Valid() && x.audio.task == Starting
      modifies this
      ensures Valid() && x == Step(old(x), Act.OpenMic(ok, granted))
      ensures ok && granted ==> x.scratch == [scratch] && x.audio.task == Polling && heap == old(heap) + {scratch}
      ensures !(ok && granted) ==> x.audio.task == Ended && Now() == old(Now())
    {
      OpenAgrees(x, Now(), ok, granted);
      hide Agrees, Step, Enabled;
      scratch := Malloc(ok && granted);
      x := Step(x, Act.OpenMic(ok, granted));
    }

    /** The check at the head of a capture loop; when it fails the audio task gives its read buffer back. */
    method LoopCheck(k: Kind, scratch: nat) returns (again: bool)
      requires Valid() && LaneOf(x, k).task == Polling && (k == Audio ==> x.scratch == [scratch])
      modifies this
      ensures Valid() && x == Step(old(x), Check(k))
      ensures LaneOf(x, k).task == (if again then Inside else Ended) && (again <==> !stopRequested)
      ensures Now() == if !again && k == Audio then old(Now()).(heap := old(heap) - {scratch}) else old(Now())
    {
      CheckAgrees(x, Now(), k, scratch);
      hide Agrees, Step, Enabled;
      again := !stopRequested;
      if !again && k == Audio { FreeBuffer(scratch); }
      x := Step(x, Check(k));
    }

    /** Nothing captured in this pass: the task goes round again, and nothing else has changed. */
    method SkipPass(k: Kind)
      requires Valid() && LaneOf(x, k).task == Inside
      modifies this
      ensures Valid() && x == Step(old(x), Skip(k))
      ensures Now() == old(Now()) && WentRound(old(x), x, k)
    {
      SkipRound(x, k);
      SkipAgrees(x, Now(), k);
      hide Agrees, Step, Enabled;
      x := Step(x, Skip(k));
    }

    /** The writer's guard, one read at a time: the stop flag first. */
    method GuardStop() returns (enter: bool)
      requires Valid() && x.writer == ReadStop
      modifies this
      ensures Valid() && x == Step(old(x), Turn(true, 0)) && x.writer == if enter then Drain(Video) else LookVideo
      ensures Now() == old(Now()) && (enter <==> !stopRequested)
    {
      GuardAgrees(x, Now());
      hide Agrees, Step, Enabled;
      enter := !stopRequested;
      x := Step(x, Turn(true, 0));
    }

    /** Then the length of each queue. */
    method GuardQueue(k: Kind) returns (enter: bool)
      requires Valid() && x.writer == if k == Video then LookVideo else LookAudio
      modifies this
      ensures Valid() && x == Step(old(x), Turn(true, 0))
      ensures x.writer == if enter then Drain(Video) else if k == Video then LookAudio else Done
      ensures Now() == old(Now()) && (enter <==> QueueOf(k) != [])
    {
      GuardAgrees(x, Now());
      hide Agrees, Step, Enabled;
      enter := |QueueOf(k)| > 0;
      x := Step(x, Turn(true, 0));
    }

    /** xQueueReceive without waiting. */
    method Receive(k: Kind) returns (got: bool, item: Item)
      requires Valid() && x.writer == Drain(k)
      modifies this
      ensures Valid() && x == Step(old(x), Turn(true, 0)) && (got <==> old(LaneOf(x, k).queue) != [])
      ensures x.writer == if got then Writing(k, item) else if k == Video then Drain(Audio) else ReadStop
      ensures got <==> old(QueueOf(k)) != []
      ensures got ==> item == old(QueueOf(k))[0] && Now() == WithQueue(old(Now()), k, old(QueueOf(k))[1..])
      ensures !got ==> Now() == old(Now())
    {
      ReceiveAgrees(x, Now(), k);
      hide Agrees, Step, Enabled;
      got, item := false, Item(0, 0, []);
      if QueueOf(k) != [] {
        got, item := true, QueueOf(k)[0];
        SetQueue(k, QueueOf(k)[1..]);
      }
      x := Step(x, Turn(true, 0));
    }

    /** write_chunk with its counter. */
    method WriteItem(k: Kind, item: Item) returns (ok: bool)
      requires Valid() && x.writer == Writing(k, item)
      modifies this
      ensures ok <==> 9 + |item.data| <= old(space)
      ensures Valid() && x == Step(old(x), Turn(ok, if ok then 0 else old(space))) && x.writer == Freeing(k, item.id)
      ensures ok ==> EndsWithChunk(file, old(file), item.ts, if k == Video then 1 else 2, item.data)
      ensures !ok ==> old(file) <= file && |file| == |old(file)| + old(space)
    {
      hide Agrees, Step, Enabled, EncodeChunk, EndsWithChunk;
      ghost var part := if 9 + |item.data| <= space then 0 else space;
      WriteAgrees(x, Now(), k, item, 9 + |item.data| <= space, part);
      file, ok := WriteChunk(file, space, ChunkOf(k, item));
      space := if ok then space - 9 - |item.data| else 0;
      if ok {
        if k == Video { frameCount := (frameCount + 1) % 0x1_0000_0000; }
        else { audioChunkCount := (audioChunkCount + 1) % 0x1_0000_0000; }
      }
      x := Step(x, Turn(ok, part));
    }

    /** The writer frees what it received, written or not. */
    method FreeItem(k: Kind, id: nat)
      requires Valid() && x.writer == Freeing(k, id)
      modifies this
      ensures Valid() && x == Step(old(x), Turn(true, 0)) && x.writer == Drain(k)
      ensures id in old(heap) && Now() == old(Now()).(heap := old(heap) - {id})
    {
      FreeAgrees(x, Now(), k, id);
      hide Agrees, Step, Enabled;
      FreeBuffer(id);
      x := Step(x, Turn(true, 0));
    }

    /** The inner loop of file_writer_task for one queue, with the capture tasks over. */
    method DrainQueue(k: Kind)
      requires Valid() && CaptureOver(x) && x.stop && x.writer == Drain(k)
      modifies this
      ensures Valid() && CaptureOver(x) && x.stop && Work(x) < Work(old(x))
      ensures x.video.sent == old(x).video.sent && x.audio.sent == old(x).audio.sent
      ensures x.writer == if k == Video then Drain(Audio) else ReadStop
    {
      while true
        invariant Valid() && CaptureOver(x) && x.stop && x.writer == Drain(k) && Work(x) <= Work(old(x))
        invariant x.video.sent == old(x).video.sent && x.audio.sent == old(x).audio.sent
        decreases Work(x)
      {
        hide Inv, Work, CaptureOver, Step;
        Ahead(x, Turn(true, 0));
        var got, item := Receive(k);
        if !got { return; }
        ghost var ok', part := 9 + |item.data| <= space, if 9 + |item.data| <= space then 0 else space;
        Ahead(x, Turn(ok', part));
        var ok := WriteItem(k, item);
        Ahead(x, Turn(true, 0));
        FreeItem(k, item.id);
      }
    }

    /** file_writer_task from the head of its loop, with stop requested and the capture tasks over: it ends, no buffer
        is left, every item that was ever sent has been handled, and unless a write failed the file reads back as
        everything that was sent. */
    method WriterTask()
      requires Valid() && CaptureOver(x) && x.stop && x.writer == ReadStop
      modifies this
      ensures Valid() && x.writer == Done && heap == {}
      ensures x.video.handled == old(x).video.sent && x.audio.handled == old(x).audio.sent
      ensures !x.broken ==>
                && Frames(Parse(file), VIDEO) == FramesOf(old(x).video.sent)
                && Frames(Parse(file), AUDIO) == FramesOf(old(x).audio.sent)
    {
      while true
        invariant Valid() && CaptureOver(x) && x.stop && x.writer == ReadStop
        invariant x.video.sent == old(x).video.sent && x.audio.sent == old(x).audio.sent
        decreases Work(x)
      {
        hide Inv, Work, CaptureOver, Step;
        Ahead(x, Turn(true, 0));
        var enter := GuardStop();
        if !enter {
          Ahead(x, Turn(true, 0));
          enter := GuardQueue(Video);
          if !enter {
            Ahead(x, Turn(true, 0));
            enter := GuardQueue(Audio);
          }
        }
        if !enter { break; }
        DrainQueue(Video);
        DrainQueue(Audio);
      }
      DrainedAfterCapture(x, []);
      if !x.broken {
        RecordedInOrder(x, Video);
        RecordedInOrder(x, Audio);
      }
    }
  }

  /** The task of stream k is at its loop check again, and nothing else differs. */
  ghost predicate WentRound(x: Rec, y: Rec, k: Kind) {
    if k == Video then y == x.(video := x.video.(task := Polling)) else y == x.(audio := x.audio.(task := Polling))
  }

  lemma SkipRound(x: Rec, k: Kind)
    requires LaneOf(x, k).task == Inside
    ensures WentRound(x, Step(x, Skip(k)), k)
  {
  }

  lemma CaptureRound(x: Rec, k: Kind, data: Payload, granted: bool)
    requires Enabled(x, Capture(k, data, granted))
    ensures !granted ==> WentRound(x, Step(x, Capture(k, data, granted)), k)
  {
  }

  lemma CaptureAgrees(x: Rec, f: Fields, k: Kind, data: Payload, granted: bool)
    requires Agrees(x, f) && Enabled(x, Capture(k, data, granted))
    ensures f.nextBuffer !in f.heap
    ensures var y := Step(x, Capture(k, data, granted));
      && (granted ==> LaneOf(y, k).task == Holding(Item(f.nextBuffer, f.elapsed % 0x1_0000_0000, data)))
      && Agrees(y, if granted then f.(heap := f.heap + {f.nextBuffer}, nextBuffer := f.nextBuffer + 1) else f)
  {
    hide Inv, InUse, CaptureStep, SkipStep;
    StepKeepsInv(x, Capture(k, data, granted));
    BuffersFreedOnce(x);
    if granted { CopyEffect(x, k, data); } else { SkipEffect(x, k); }
  }

  /** Nothing the device can see has changed but the heap's bookkeeping. */
  predicate SameFields(x: Rec, y: Rec) {
    && y.stop == x.stop && y.file == x.file && y.elapsed == x.elapsed
    && y.video.queue == x.video.queue && y.audio.queue == x.audio.queue
    && y.video.count == x.video.count && y.audio.count == x.audio.count
  }

  lemma CopyEffect(x: Rec, k: Kind, data: Payload)
    ensures var y := CaptureStep(x, k, data);
      && SameFields(x, y) && y.next == x.next + 1 && y.freed == x.freed
      && LaneOf(y, k).task == Holding(Item(x.next, x.elapsed % 0x1_0000_0000, data))
  {
  }

  lemma SkipEffect(x: Rec, k: Kind)
    ensures SameFields(x, SkipStep(x, k)) && SkipStep(x, k).next == x.next && SkipStep(x, k).freed == x.freed
  {
  }

  lemma SkipAgrees(x: Rec, f: Fields, k: Kind)
    requires Agrees(x, f) && LaneOf(x, k).task == Inside
    ensures Enabled(x, Skip(k)) && Agrees(Step(x, Skip(k)), f)
  {
    hide Inv, SkipStep;
    StepKeepsInv(x, Skip(k));
    SkipEffect(x, k);
  }

  lemma OpenEffect(x: Rec, granted: bool)
    ensures var y := OpenStep(x, granted);
      && SameFields(x, y) && y.next == (if granted then x.next + 1 else x.next) && y.freed == x.freed
      && (granted ==> y.scratch == [x.next])
  {
  }

  lemma OpenAgrees(x: Rec, f: Fields, ok: bool, granted: bool)
    requires Agrees(x, f) && x.audio.task == Starting
    ensures Enabled(x, OpenMic(ok, granted)) && f.nextBuffer !in f.heap
    ensures var y := Step(x, OpenMic(ok, granted));
      && (ok && granted ==> y.scratch == [f.nextBuffer])
      && Agrees(y, if ok && granted then f.(heap := f.heap + {f.nextBuffer}, nextBuffer := f.nextBuffer + 1) else f)
  {
    hide Inv, InUse, OpenStep;
    StepKeepsInv(x, OpenMic(ok, granted));
    BuffersFreedOnce(x);
    OpenEffect(x, ok && granted);
  }

  lemma CheckEffect(x: Rec, k: Kind)
    ensures var y := CheckStep(x, k);
      && SameFields(x, y) && y.next == x.next && LaneOf(y, k).task == (if x.stop then Ended else Inside)
      && y.freed == if x.stop && k == Audio then x.freed + x.scratch else x.freed
  {
  }

  lemma ScratchInUse(x: Rec, scratch: nat)
    requires x.scratch == [scratch]
    ensures InUse(x, scratch)
  {
    assert scratch in x.scratch;
  }

  lemma CheckAgrees(x: Rec, f: Fields, k: Kind, scratch: nat)
    requires Agrees(x, f) && LaneOf(x, k).task == Polling && (k == Audio ==> x.scratch == [scratch])
    ensures Enabled(x, Check(k)) && (k == Audio ==> scratch in f.heap)
    ensures var y := Step(x, Check(k));
      && LaneOf(y, k).task == (if f.stop then Ended else Inside)
      && Agrees(y, if f.stop && k == Audio then f.(heap := f.heap - {scratch}) else f)
  {
    hide Inv, InUse, CheckStep;
    if k == Audio { ScratchInUse(x, scratch); }
    StepKeepsInv(x, Check(k));
    BuffersFreedOnce(x);
    CheckEffect(x, k);
  }

  lemma GuardEffect(x: Rec)
    requires x.writer == ReadStop || x.writer == LookVideo || x.writer == LookAudio
    ensures var y := GuardStep(x);
      && SameFields(x, y) && y.next == x.next && y.freed == x.freed
      && y.writer == match x.writer
         case ReadStop => if x.stop then LookVideo else Drain(Video)
         case LookVideo => if |x.video.queue| > 0 then Drain(Video) else LookAudio
         case _ => if |x.audio.queue| > 0 then Drain(Video) else Done
  {
  }

  lemma GuardAgrees(x: Rec, f: Fields)
    requires Agrees(x, f) && (x.writer == ReadStop || x.writer == LookVideo || x.writer == LookAudio)
    ensures Enabled(x, Turn(true, 0)) && Agrees(Step(x, Turn(true, 0)), f)
    ensures Step(x, Turn(true, 0)).writer == match x.writer
            case ReadStop => if f.stop then LookVideo else Drain(Video)
            case LookVideo => if |f.videoQueue| > 0 then Drain(Video) else LookAudio
            case _ => if |f.audioQueue| > 0 then Drain(Video) else Done
  {
    hide Inv, GuardStep;
    StepKeepsInv(x, Turn(true, 0));
    GuardEffect(x);
  }

  lemma FreeAgrees(x: Rec, f: Fields, k: Kind, id: nat)
    requires Agrees(x, f) && x.writer == Freeing(k, id)
    ensures Enabled(x, Turn(true, 0)) && id in f.heap && Step(x, Turn(true, 0)).writer == Drain(k)
    ensures Agrees(Step(x, Turn(true, 0)), f.(heap := f.heap - {id}))
  {
    assert InUse(x, id);
    hide Inv, InUse;
    StepKeepsInv(x, Turn(true, 0));
    BuffersFreedOnce(x);
    assert SameFields(x, FreeStep(x, k, id));
  }

  function WithQueue(f: Fields, k: Kind, q: seq<Item>): Fields {
    if k == Video then f.(videoQueue := q) else f.(audioQueue := q)
  }

  lemma SendEffect(x: Rec, k: Kind, item: Item)
    requires LaneOf(x, k).task == Holding(item)
    ensures var q, y := LaneOf(x, k).queue, Step(x, Send(k));
      var fits := |q| < Capacity(k);
      && y.stop == x.stop && y.file == x.file && y.elapsed == x.elapsed && y.next == x.next
      && y.video.count == x.video.count && y.audio.count == x.audio.count
      && y.video.queue == (if fits && k == Video then q + [item] else x.video.queue)
      && y.audio.queue == (if fits && k == Audio then q + [item] else x.audio.queue)
      && y.freed == if fits then x.freed else x.freed + [item.id]
  {
  }

  lemma HeldInUse(x: Rec, k: Kind, item: Item)
    requires LaneOf(x, k).task == Holding(item)
    ensures InUse(x, item.id)
  {
    assert InTask(LaneOf(x, k).task)[0] == item;
  }

  lemma SendAgrees(x: Rec, f: Fields, k: Kind, item: Item)
    requires Agrees(x, f) && LaneOf(x, k).task == Holding(item)
    ensures Enabled(x, Send(k)) && item.id in f.heap
    ensures var q := LaneOf(x, k).queue;
      Agrees(Step(x, Send(k)),
             if |q| < Capacity(k) then WithQueue(f, k, q + [item]) else f.(heap := f.heap - {item.id}))
  {
    hide Inv, InUse, Step;
    StepKeepsInv(x, Send(k));
    BuffersFreedOnce(x);
    HeldInUse(x, k, item);
    SendEffect(x, k, item);
  }

  lemma ReceiveAgrees(x: Rec, f: Fields, k: Kind)
    requires Agrees(x, f) && x.writer == Drain(k)
    ensures Enabled(x, Turn(true, 0))
    ensures var y, q := Step(x, Turn(true, 0)), LaneOf(x, k).queue;
      && Agrees(y, if q != [] then WithQueue(f, k, q[1..]) else f)
      && y.writer == if q != [] then Writing(k, q[0]) else if k == Video then Drain(Audio) else ReadStop
  {
    hide Inv, ReceiveStep;
    StepKeepsInv(x, Turn(true, 0));
    ReceiveEffect(x, k);
  }

  lemma ReceiveEffect(x: Rec, k: Kind)
    ensures var y, q := ReceiveStep(x, k), LaneOf(x, k).queue;
      && y.stop == x.stop && y.file == x.file && y.elapsed == x.elapsed && y.next == x.next && y.freed == x.freed
      && y.video.count == x.video.count && y.audio.count == x.audio.count
      && y.video.queue == (if q != [] && k == Video then q[1..] else x.video.queue)
      && y.audio.queue == (if q != [] && k == Audio then q[1..] else x.audio.queue)
      && y.writer == if q != [] then Writing(k, q[0]) else if k == Video then Drain(Audio) else ReadStop
  {
  }

  lemma WriteEffect(x: Rec, k: Kind, item: Item, ok: bool, part: nat)
    requires x.writer == Writing(k, item) && part < 9 + |item.data|
    ensures var y, c := Step(x, Turn(ok, part)), EncodeChunk(ChunkOf(k, item));
      && y.stop == x.stop && y.elapsed == x.elapsed && y.next == x.next && y.freed == x.freed
      && y.writer == Freeing(k, item.id) && y.video.queue == x.video.queue && y.audio.queue == x.audio.queue
      && y.video.count == (if ok && k == Video then (x.video.count + 1) % 0x1_0000_0000 else x.video.count)
      && y.audio.count == (if ok && k == Audio then (x.audio.count + 1) % 0x1_0000_0000 else x.audio.count)
      && y.file == x.file + if ok then c else c[..part]
  {
    hide EncodeChunk;
  }

  lemma WriteAgrees(x: Rec, f: Fields, k: Kind, item: Item, ok: bool, part: nat)
    requires Agrees(x, f) && x.writer == Writing(k, item) && part < 9 + |item.data|
    ensures Enabled(x, Turn(ok, part)) && Step(x, Turn(ok, part)).writer == Freeing(k, item.id)
    ensures var c := EncodeChunk(ChunkOf(k, item));
      Agrees(Step(x, Turn(ok, part)),
             f.(file := f.file + if ok then c else c[..part],
                frameCount := if ok && k == Video then (f.frameCount + 1) % 0x1_0000_0000 else f.frameCount,
                audioChunkCount := if ok && k == Audio then (f.audioChunkCount + 1) % 0x1_0000_0000
                                   else f.audioChunkCount))
  {
    hide Inv, EncodeChunk, Step;
    StepKeepsInv(x, Turn(ok, part));
    WriteEffect(x, k, item, ok, part);
  }

  lemma Ahead(x: Rec, a: Act)
    requires Inv(x) && CaptureOver(x) && x.stop && Enabled(x, a) && a.Turn?
    ensures CaptureOver(Step(x, a)) && Step(x, a).stop && Work(Step(x, a)) < Work(x)
    ensures Step(x, a).video.sent == x.video.sent && Step(x, a).audio.sent == x.audio.sent
  {
    StepAfterCapture(x, a);
    StopMakesProgress(x, a);
  }
}
