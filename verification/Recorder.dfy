/** The A/V recorder (apps/camera/svc_av_recorder.c) as steps of its three tasks: two capture tasks feed two
    bounded queues, one writer drains them into an ESPAV file. A step is what runs between two points where
    another task can be seen: one read of the stop flag, one queue call, one write_chunk, one free. */
module Recorder {
  import opened Words
  import opened Espav

  const AUDIO_CHUNK_SIZE: nat := 1024

  datatype Kind = Video | Audio

  /** What a 32-bit size_t can count. */
  type Payload = d: seq<byte> | |d| < 0x1_0000_0000

  /** A queue item; `id` names its heap buffer. */
  datatype Item = Item(id: nat, ts: u32, data: Payload)

  /** A capture task: before its first loop check, at the check, in the loop body, with a filled buffer. */
  datatype Task = Starting | Polling | Inside | Holding(item: Item) | Ended

  /** The writer: at one of the three reads of its guard, at a receive, or with a received item. */
  datatype Writer =
    | ReadStop | LookVideo | LookAudio
    | Drain(kind: Kind)
    | Writing(kind: Kind, item: Item)
    | Freeing(kind: Kind, id: nat)
    | Done

  /** One capture task with its queue. The histories: `past` holds the captured items whose send was tried, in
      order; `sent` and `dropped` split them; `handled` was passed to write_chunk, `written` is the part that
      succeeded; `mark` is how many items had been sent when the writer last found the queue empty in its guard. */
  datatype Lane = Lane(task: Task, queue: seq<Item>, count: u32,
                       past: seq<Item>, sent: seq<Item>, dropped: seq<Item>,
                       handled: seq<Item>, written: seq<Item>, mark: nat)

  /** `scratch` is the audio task's read buffer, `next` the next buffer name, `freed` every free so far.
      `file` is what follows the 32-byte header; `chunks` the chunks whose write succeeded, `clean` those
      before the first failed write. */
  datatype Rec = Rec(stop: bool, elapsed: nat, next: nat, freed: seq<nat>, scratch: seq<nat>,
                     video: Lane, audio: Lane, writer: Writer,
                     file: seq<byte>, chunks: seq<Chunk>, clean: seq<Chunk>, broken: bool)

  datatype Act =
    | Tick(ms: nat)
    | Stop
    | OpenMic(ok: bool, buffer: bool)
    | Check(kind: Kind)
    | Skip(kind: Kind)
    | Capture(kind: Kind, data: Payload, buffer: bool)
    | Send(kind: Kind)
    | Turn(ok: bool, part: nat)

  // ---------- reading the state ----------

  function Capacity(k: Kind): nat {
    if k == Video then 4 else 16
  }

  function Tag(k: Kind): byte {
    if k == Video then VIDEO else AUDIO
  }

  function LaneOf(x: Rec, k: Kind): Lane {
    if k == Video then x.video else x.audio
  }

  function WithLane(x: Rec, k: Kind, l: Lane): Rec {
    if k == Video then x.(video := l) else x.(audio := l)
  }

  function InTask(t: Task): seq<Item> {
    if t.Holding? then [t.item] else []
  }

  function InWriter(w: Writer, k: Kind): seq<Item> {
    if w.Writing? && w.kind == k then [w.item] else []
  }

  /** Everything captured into a buffer, in the order of capture. */
  function Captured(l: Lane): seq<Item> {
    l.past + InTask(l.task)
  }

  function Ids(q: seq<Item>): seq<nat> {
    seq(|q|, i requires 0 <= i < |q| => q[i].id)
  }

  function One(b: bool): nat {
    if b then 1 else 0
  }

  /** How often `id` is held by a capture task or its queue. */
  ghost function InLane(l: Lane, id: nat): nat {
    One(l.task.Holding? && l.task.item.id == id) + multiset(Ids(l.queue))[id]
  }

  /** How often the buffer `id` turns up over every place a buffer can be in. */
  ghost function Places(x: Rec, id: nat): nat {
    multiset(x.freed)[id] + multiset(x.scratch)[id] + InLane(x.video, id) + InLane(x.audio, id)
    + One(x.writer.Writing? && x.writer.item.id == id) + One(x.writer.Freeing? && x.writer.id == id)
  }

  function ChunkOf(k: Kind, item: Item): Chunk {
    Chunk(item.ts, Tag(k), item.data)
  }

  function FramesOf(q: seq<Item>): seq<Frame> {
    seq(|q|, i requires 0 <= i < |q| => Frame(q[i].ts, q[i].data))
  }

  // ---------- the steps ----------

  function NewLane(t: Task): Lane {
    Lane(t, [], 0, [], [], [], [], [], 0)
  }

  /** The state svc_av_recorder_start leaves behind. */
  function Started(): Rec {
    Rec(false, 0, 0, [], [], NewLane(Polling), NewLane(Starting), ReadStop, [], [], [], false)
  }

  predicate Enabled(x: Rec, a: Act) {
    match a
    case Tick(_) => true
    case Stop => true
    case OpenMic(_, _) => x.audio.task == Starting
    case Check(k) => LaneOf(x, k).task == Polling
    case Skip(k) => LaneOf(x, k).task == Inside
    case Capture(k, data, _) =>
      LaneOf(x, k).task == Inside && (k == Audio ==> 0 < |data| <= AUDIO_CHUNK_SIZE)
    case Send(k) => LaneOf(x, k).task.Holding?
    case Turn(_, part) =>
      && x.writer != Done
      && (x.writer.Writing? ==> part < 9 + |x.writer.item.data|)
  }

  function CaptureLane(l: Lane, item: Item): Lane {
    l.(task := Holding(item))
  }

  /** A send that does not wait: a full queue drops the item. */
  function SendLane(l: Lane, cap: nat): Lane
    requires l.task.Holding?
  {
    var item := l.task.item;
    var l1 := l.(task := Polling, past := l.past + [item]);
    if |l.queue| < cap then l1.(queue := l.queue + [item], sent := l.sent + [item])
    else l1.(dropped := l.dropped + [item])
  }

  function ReceiveLane(l: Lane): Lane
    requires l.queue != []
  {
    l.(queue := l.queue[1..])
  }

  function WriteLane(l: Lane, item: Item, ok: bool): Lane {
    var l1 := l.(handled := l.handled + [item]);
    if ok then l1.(written := l.written + [item], count := (l.count + 1) % 0x1_0000_0000) else l1
  }

  function MarkLane(l: Lane): Lane {
    l.(mark := |l.sent|)
  }

  /** write_chunk on the file; a failed write leaves the first `part` bytes of the chunk behind. */
  function WriteFile(x: Rec, c: Chunk, ok: bool, part: nat): (y: Rec)
    requires Sized(c) && part <= 9 + |c.data|
    ensures y == x.(file := y.file, chunks := y.chunks, clean := y.clean, broken := y.broken)
  {
    if ok then
      x.(file := x.file + EncodeChunk(c), chunks := x.chunks + [c],
         clean := if x.broken then x.clean else x.clean + [c])
    else
      x.(file := x.file + EncodeChunk(c)[..part], broken := true)
  }

  /** One read of the writer's guard. */
  function GuardStep(x: Rec): Rec {
    match x.writer
    case ReadStop => x.(writer := if x.stop then LookVideo else Drain(Video))
    case LookVideo =>
      if x.video.queue != [] then x.(writer := Drain(Video))
      else x.(writer := LookAudio, video := MarkLane(x.video))
    case LookAudio =>
      if x.audio.queue != [] then x.(writer := Drain(Video))
      else x.(writer := Done, audio := MarkLane(x.audio))
    case _ => x
  }

  /** A receive that does not wait. */
  function ReceiveStep(x: Rec, k: Kind): Rec {
    var l := LaneOf(x, k);
    if l.queue != [] then WithLane(x.(writer := Writing(k, l.queue[0])), k, ReceiveLane(l))
    else x.(writer := if k == Video then Drain(Audio) else ReadStop)
  }

  function WriteStep(x: Rec, k: Kind, item: Item, ok: bool, part: nat): Rec
    requires part <= 9 + |item.data|
  {
    WriteFile(WithLane(x.(writer := Freeing(k, item.id)), k, WriteLane(LaneOf(x, k), item, ok)),
              ChunkOf(k, item), ok, part)
  }

  function FreeStep(x: Rec, k: Kind, id: nat): Rec {
    x.(writer := Drain(k), freed := x.freed + [id])
  }

  function WriterStep(x: Rec, ok: bool, part: nat): Rec
    requires x.writer.Writing? ==> part <= 9 + |x.writer.item.data|
  {
    match x.writer
    case Drain(k) => ReceiveStep(x, k)
    case Writing(k, item) => WriteStep(x, k, item, ok, part)
    case Freeing(k, id) => FreeStep(x, k, id)
    case _ => GuardStep(x)
  }

  function OpenStep(x: Rec, granted: bool): Rec {
    if granted then x.(audio := x.audio.(task := Polling), scratch := [x.next], next := x.next + 1)
    else x.(audio := x.audio.(task := Ended))
  }

  function CheckStep(x: Rec, k: Kind): Rec {
    var y := WithLane(x, k, LaneOf(x, k).(task := if x.stop then Ended else Inside));
    if x.stop && k == Audio then y.(scratch := [], freed := x.freed + x.scratch) else y
  }

  function SkipStep(x: Rec, k: Kind): Rec {
    WithLane(x, k, LaneOf(x, k).(task := Polling))
  }

  function CaptureStep(x: Rec, k: Kind, data: Payload): Rec {
    var item := Item(x.next, x.elapsed % 0x1_0000_0000, data);
    WithLane(x, k, CaptureLane(LaneOf(x, k), item)).(next := x.next + 1)
  }

  function SendStep(x: Rec, k: Kind): Rec
    requires LaneOf(x, k).task.Holding?
  {
    var l := LaneOf(x, k);
    var y := WithLane(x, k, SendLane(l, Capacity(k)));
    if |l.queue| < Capacity(k) then y else y.(freed := x.freed + [l.task.item.id])
  }

  function Step(x: Rec, a: Act): Rec
    requires Enabled(x, a)
  {
    match a
    case Tick(ms) => x.(elapsed := x.elapsed + ms)
    case Stop => x.(stop := true)
    case OpenMic(ok, buffer) => OpenStep(x, ok && buffer)
    case Check(k) => CheckStep(x, k)
    case Skip(k) => SkipStep(x, k)
    case Capture(k, data, buffer) => if buffer then CaptureStep(x, k, data) else SkipStep(x, k)
    case Send(k) => SendStep(x, k)
    case Turn(ok, part) => WriterStep(x, ok, part)
  }

  // ---------- the invariant ----------

  /** `all` is a merge of a and b that keeps the order of each. */
  ghost predicate Interleaves(all: seq<Item>, a: seq<Item>, b: seq<Item>)
    decreases |all|
  {
    if all == [] then a == [] && b == []
    else
      var m := |all| - 1;
      || (a != [] && a[|a| - 1] == all[m] && Interleaves(all[..m], a[..|a| - 1], b))
      || (b != [] && b[|b| - 1] == all[m] && Interleaves(all[..m], a, b[..|b| - 1]))
  }

  predicate InOrder(q: seq<Item>) {
    forall i, j :: 0 <= i < j < |q| ==> q[i].ts <= q[j].ts
  }

  predicate NoneAfter(q: seq<Item>, elapsed: nat) {
    forall i :: 0 <= i < |q| ==> q[i].ts <= elapsed
  }

  ghost predicate LaneInv(l: Lane, cap: nat, hand: seq<Item>, elapsed: nat) {
    && |l.queue| <= cap
    && Interleaves(l.past, l.sent, l.dropped)
    && l.sent == l.handled + hand + l.queue
    && (elapsed < 0x1_0000_0000 ==> InOrder(Captured(l)) && NoneAfter(Captured(l), elapsed))
    && l.count == |l.written| % 0x1_0000_0000
    && l.mark <= |l.handled|
  }

  /** Every buffer ever allocated is in one place, once. */
  ghost predicate Accounted(x: Rec) {
    forall id: nat :: Places(x, id) == One(id < x.next)
  }

  ghost predicate FileInv(x: Rec) {
    && AllSized(x.chunks) && x.clean <= x.chunks
    && Frames(x.chunks, VIDEO) == FramesOf(x.video.written)
    && Frames(x.chunks, AUDIO) == FramesOf(x.audio.written)
    && (forall i :: 0 <= i < |x.chunks| ==> x.chunks[i].kind == VIDEO || x.chunks[i].kind == AUDIO)
    && Encode(x.clean) <= x.file
    && (!x.broken ==>
          && x.clean == x.chunks && x.file == Encode(x.chunks)
          && x.video.written == x.video.handled && x.audio.written == x.audio.handled)
  }

  /** What the guard reads establish: items sent since stay in the queue. */
  predicate MarksOk(x: Rec) {
    && (x.writer == LookAudio || x.writer == Done ==> x.video.mark == |x.video.handled|)
    && (x.writer == Done ==> x.audio.mark == |x.audio.handled|)
    && (x.writer == LookVideo || x.writer == LookAudio || x.writer == Done ==> x.stop)
  }

  /** The audio task has its read buffer while it runs. */
  predicate ScratchOk(x: Rec) {
    && (x.audio.task == Starting || x.audio.task == Ended ==> x.scratch == [])
    && x.video.task != Starting
  }

  ghost predicate Inv(x: Rec) {
    && LaneInv(x.video, 4, InWriter(x.writer, Video), x.elapsed)
    && LaneInv(x.audio, 16, InWriter(x.writer, Audio), x.elapsed)
    && Accounted(x) && FileInv(x) && MarksOk(x) && ScratchOk(x)
  }

  // ---------- every step keeps the invariant ----------

  lemma Push(all: seq<Item>, a: seq<Item>, b: seq<Item>, z: Item)
    requires Interleaves(all, a, b)
    ensures Interleaves(all + [z], a + [z], b) && Interleaves(all + [z], a, b + [z])
  {
  }

  lemma IdsAppend(p: seq<Item>, q: seq<Item>)
    ensures Ids(p + q) == Ids(p) + Ids(q)
  {
  }

  lemma {:induction false} FramesAppend(cs: seq<Chunk>, c: Chunk, kind: byte)
    ensures Frames(cs + [c], kind) == Frames(cs, kind) + if c.kind == kind then [Frame(c.ts, c.data)] else []
    decreases |cs|
  {
    if cs == [] {
      assert cs + [c] == [c] && [c][1..] == [];
    } else {
      assert (cs + [c])[0] == cs[0] && (cs + [c])[1..] == cs[1..] + [c];
      FramesAppend(cs[1..], c, kind);
      var first := if cs[0].kind == kind then [Frame(cs[0].ts, cs[0].data)] else [];
      var last := if c.kind == kind then [Frame(c.ts, c.data)] else [];
      assert first + (Frames(cs[1..], kind) + last) == first + Frames(cs[1..], kind) + last;
    }
  }

  lemma SentLane(l: Lane, cap: nat, hand: seq<Item>, e: nat)
    requires LaneInv(l, cap, hand, e) && l.task.Holding?
    ensures LaneInv(SendLane(l, cap), cap, hand, e)
  {
    hide Interleaves, InOrder, NoneAfter;
    Push(l.past, l.sent, l.dropped, l.task.item);
    assert Captured(SendLane(l, cap)) == Captured(l);
  }

  lemma SentPlaces(l: Lane, cap: nat, id: nat)
    requires l.task.Holding?
    ensures InLane(l, id) == InLane(SendLane(l, cap), id) + One(|l.queue| >= cap && l.task.item.id == id)
  {
    IdsAppend(l.queue, [l.task.item]);
    assert Ids([l.task.item]) == [l.task.item.id];
  }

  lemma TakenPlaces(l: Lane, id: nat)
    requires l.queue != []
    ensures InLane(l, id) == InLane(ReceiveLane(l), id) + One(l.queue[0].id == id)
  {
    assert l.queue == [l.queue[0]] + l.queue[1..];
    IdsAppend([l.queue[0]], l.queue[1..]);
    assert Ids([l.queue[0]]) == [l.queue[0].id];
  }

  lemma CapturedLane(l: Lane, cap: nat, hand: seq<Item>, e: nat, item: Item)
    requires LaneInv(l, cap, hand, e) && l.task == Inside && item.ts == e % 0x1_0000_0000
    ensures LaneInv(CaptureLane(l, item), cap, hand, e)
  {
    assert Captured(l) == l.past;
  }

  lemma IdleLane(l: Lane, cap: nat, hand: seq<Item>, e: nat, t: Task)
    requires LaneInv(l, cap, hand, e) && !l.task.Holding? && !t.Holding?
    ensures LaneInv(l.(task := t), cap, hand, e)
  {
  }

  lemma ReceivedLane(l: Lane, cap: nat, e: nat)
    requires LaneInv(l, cap, [], e) && l.queue != []
    ensures LaneInv(ReceiveLane(l), cap, [l.queue[0]], e)
  {
    assert l.queue == [l.queue[0]] + l.queue[1..];
    assert l.handled + [] + l.queue == l.handled + [l.queue[0]] + l.queue[1..];
    assert Captured(ReceiveLane(l)) == Captured(l);
  }

  lemma WroteLane(l: Lane, cap: nat, e: nat, item: Item, ok: bool)
    requires LaneInv(l, cap, [item], e)
    ensures LaneInv(WriteLane(l, item, ok), cap, [], e)
  {
  }

  lemma MarkedLane(l: Lane, cap: nat, e: nat)
    requires LaneInv(l, cap, [], e) && l.queue == []
    ensures LaneInv(MarkLane(l), cap, [], e)
    ensures MarkLane(l).mark == |l.handled|
  {
  }

  lemma TickedLane(l: Lane, cap: nat, hand: seq<Item>, e: nat, e': nat)
    requires LaneInv(l, cap, hand, e) && e <= e'
    ensures LaneInv(l, cap, hand, e')
  {
  }

  // ---------- what a step leaves alone ----------

  predicate SameWriting(l: Lane, m: Lane) {
    m.handled == l.handled && m.written == l.written && m.count == l.count && m.mark == l.mark
  }

  predicate SameCapture(l: Lane, m: Lane) {
    m.task == l.task && m.past == l.past && m.sent == l.sent && m.dropped == l.dropped
  }

  predicate SameDisk(x: Rec, y: Rec) {
    y.file == x.file && y.chunks == x.chunks && y.clean == x.clean && y.broken == x.broken
  }

  /** A capture task's step leaves the writer's side alone. */
  predicate CaptureFrame(x: Rec, y: Rec) {
    && y.writer == x.writer && (x.stop ==> y.stop) && SameDisk(x, y)
    && SameWriting(x.video, y.video) && SameWriting(x.audio, y.audio) && (ScratchOk(x) ==> ScratchOk(y))
  }

  /** The writer's step leaves the capture tasks' side alone. */
  predicate WriterFrame(x: Rec, y: Rec) {
    && y.stop == x.stop && y.elapsed == x.elapsed && y.next == x.next && y.scratch == x.scratch
    && SameCapture(x.video, y.video) && SameCapture(x.audio, y.audio)
  }

  /** Nothing was written, and what was handled is the same. */
  predicate FileFrame(x: Rec, y: Rec) {
    && SameDisk(x, y) && y.video.written == x.video.written && y.audio.written == x.audio.written
    && y.video.handled == x.video.handled && y.audio.handled == x.audio.handled
  }

  lemma OpenSide(x: Rec, granted: bool)
    requires x.audio.task == Starting
    ensures CaptureFrame(x, OpenStep(x, granted))
  {
  }

  lemma CheckSide(x: Rec, k: Kind)
    requires LaneOf(x, k).task == Polling
    ensures CaptureFrame(x, CheckStep(x, k))
  {
  }

  lemma SkipSide(x: Rec, k: Kind)
    requires LaneOf(x, k).task == Inside
    ensures CaptureFrame(x, SkipStep(x, k))
  {
  }

  lemma CopySide(x: Rec, k: Kind, data: Payload)
    requires LaneOf(x, k).task == Inside
    ensures CaptureFrame(x, CaptureStep(x, k, data))
  {
  }

  lemma SendSide(x: Rec, k: Kind)
    requires LaneOf(x, k).task.Holding?
    ensures CaptureFrame(x, SendStep(x, k))
  {
  }

  lemma CaptureSide(x: Rec, a: Act)
    requires Enabled(x, a) && !a.Turn?
    ensures CaptureFrame(x, Step(x, a))
  {
    match a
    case OpenMic(ok, buffer) => OpenSide(x, ok && buffer);
    case Check(k) => CheckSide(x, k);
    case Skip(k) => SkipSide(x, k);
    case Capture(k, data, buffer) => if buffer { CopySide(x, k, data); } else { SkipSide(x, k); }
    case Send(k) => SendSide(x, k);
    case _ =>
      hide OpenStep, CheckStep, SkipStep, CaptureStep, SendStep, WriterStep;
  }

  lemma GuardSide(x: Rec)
    ensures WriterFrame(x, GuardStep(x)) && FileFrame(x, GuardStep(x))
  {
    hide MarkLane;
    MarkSide(x.video);
    MarkSide(x.audio);
  }

  lemma MarkSide(l: Lane)
    ensures SameCapture(l, MarkLane(l)) && MarkLane(l).written == l.written && MarkLane(l).handled == l.handled
  {
  }

  lemma ReceiveSide(x: Rec, k: Kind)
    ensures WriterFrame(x, ReceiveStep(x, k)) && FileFrame(x, ReceiveStep(x, k))
  {
  }

  lemma WriteSide(x: Rec, k: Kind, item: Item, ok: bool, part: nat)
    requires part <= 9 + |item.data|
    ensures WriterFrame(x, WriteStep(x, k, item, ok, part))
  {
    hide WriteFile;
  }

  lemma FreeSide(x: Rec, k: Kind, id: nat)
    ensures WriterFrame(x, FreeStep(x, k, id)) && FileFrame(x, FreeStep(x, k, id))
  {
  }

  lemma WriterSide(x: Rec, ok: bool, part: nat)
    requires Enabled(x, Turn(ok, part))
    ensures WriterFrame(x, WriterStep(x, ok, part))
    ensures !x.writer.Writing? ==> FileFrame(x, WriterStep(x, ok, part))
  {
    hide WriterFrame, FileFrame, GuardStep, ReceiveStep, WriteStep, FreeStep;
    match x.writer
    case Drain(k) => ReceiveSide(x, k);
    case Writing(k, item) => WriteSide(x, k, item, ok, part);
    case Freeing(k, id) => FreeSide(x, k, id);
    case _ => GuardSide(x);
  }

  // ---------- the parts of the invariant ----------

  /** One lane after a step: its queue bound, its histories, its order. */
  lemma StepLane(x: Rec, a: Act, k: Kind)
    requires Inv(x) && Enabled(x, a)
    ensures var y := Step(x, a);
      LaneInv(LaneOf(y, k), Capacity(k), InWriter(y.writer, k), y.elapsed)
  {
    hide LaneInv, Accounted, FileInv, Captured;
    var l, hand := LaneOf(x, k), InWriter(x.writer, k);
    match a
    case Tick(ms) => TickedLane(l, Capacity(k), hand, x.elapsed, x.elapsed + ms);
    case Stop =>
    case OpenMic(ok, buffer) =>
      if k == Audio { IdleLane(l, 16, hand, x.elapsed, if ok && buffer then Polling else Ended); }
    case Check(j) =>
      if j == k { IdleLane(l, Capacity(k), hand, x.elapsed, if x.stop then Ended else Inside); }
    case Skip(j) =>
      if j == k { IdleLane(l, Capacity(k), hand, x.elapsed, Polling); }
    case Capture(j, data, buffer) =>
      if j == k {
        if buffer { CapturedLane(l, Capacity(k), hand, x.elapsed, Item(x.next, x.elapsed % 0x1_0000_0000, data)); }
        else { IdleLane(l, Capacity(k), hand, x.elapsed, Polling); }
      }
    case Send(j) =>
      if j == k { SentLane(l, Capacity(k), hand, x.elapsed); }
    case Turn(ok, part) => TurnLane(x, ok, part, k);
  }

  lemma TurnLane(x: Rec, ok: bool, part: nat, k: Kind)
    requires Inv(x) && Enabled(x, Turn(ok, part))
    ensures var y := WriterStep(x, ok, part);
      LaneInv(LaneOf(y, k), Capacity(k), InWriter(y.writer, k), y.elapsed)
  {
    hide LaneInv, Accounted, FileInv, Captured, EncodeChunk, ReceiveLane, WriteLane, MarkLane;
    var l := LaneOf(x, k);
    match x.writer
    case LookVideo =>
      if k == Video && l.queue == [] { MarkedLane(l, 4, x.elapsed); }
    case LookAudio =>
      if k == Audio && l.queue == [] { MarkedLane(l, 16, x.elapsed); }
    case Drain(j) =>
      if j == k && l.queue != [] { ReceivedLane(l, Capacity(k), x.elapsed); }
    case Writing(j, item) =>
      if j == k { WroteLane(l, Capacity(k), x.elapsed, item, ok); }
    case _ =>
  }

  /** A step moves one buffer or adds the next one, so the account stays balanced. */
  lemma StepAccounted(x: Rec, a: Act)
    requires Inv(x) && Enabled(x, a)
    ensures Accounted(Step(x, a))
  {
    var y := Step(x, a);
    forall id: nat ensures Places(y, id) == One(id < y.next) {
      hide LaneInv, FileInv, Places;
      StepPlaces(x, a, id);
    }
  }

  lemma LanePlaces(x: Rec, k: Kind, l: Lane, id: nat)
    ensures Places(WithLane(x, k, l), id) + InLane(LaneOf(x, k), id) == Places(x, id) + InLane(l, id)
  {
  }

  lemma FreePlaces(x: Rec, ids: seq<nat>, id: nat)
    ensures Places(x.(freed := x.freed + ids), id) == Places(x, id) + multiset(ids)[id]
  {
  }

  lemma IdlePlaces(x: Rec, k: Kind, t: Task, id: nat)
    requires !LaneOf(x, k).task.Holding? && !t.Holding?
    ensures Places(WithLane(x, k, LaneOf(x, k).(task := t)), id) == Places(x, id)
  {
  }

  lemma OpenPlaces(x: Rec, granted: bool, id: nat)
    requires x.audio.task == Starting && ScratchOk(x)
    ensures Places(OpenStep(x, granted), id) == Places(x, id) + One(granted && x.next == id)
  {
  }

  lemma CheckPlaces(x: Rec, k: Kind, id: nat)
    requires LaneOf(x, k).task == Polling
    ensures Places(CheckStep(x, k), id) == Places(x, id)
  {
    var t := if x.stop then Ended else Inside;
    IdlePlaces(x, k, t, id);
    var y := WithLane(x, k, LaneOf(x, k).(task := t));
    hide InLane, WithLane, LaneOf;
    if x.stop && k == Audio {
      assert y.freed == x.freed && y.scratch == x.scratch by { assert WithLane(x, k, LaneOf(x, k).(task := t)) == y; }
      FreeScratch(y, id);
    }
  }

  lemma FreeScratch(y: Rec, id: nat)
    ensures Places(y.(scratch := [], freed := y.freed + y.scratch), id) == Places(y, id)
  {
  }

  lemma CapturePlaces(x: Rec, k: Kind, data: Payload, id: nat)
    requires LaneOf(x, k).task == Inside
    ensures Places(CaptureStep(x, k, data), id) == Places(x, id) + One(x.next == id)
  {
    hide InLane;
    var item := Item(x.next, x.elapsed % 0x1_0000_0000, data);
    HeldPlaces(LaneOf(x, k), item, id);
    LanePlaces(x, k, CaptureLane(LaneOf(x, k), item), id);
  }

  lemma HeldPlaces(l: Lane, item: Item, id: nat)
    requires !l.task.Holding?
    ensures InLane(CaptureLane(l, item), id) == InLane(l, id) + One(item.id == id)
  {
  }

  lemma SendPlaces(x: Rec, k: Kind, id: nat)
    requires LaneOf(x, k).task.Holding?
    ensures Places(SendStep(x, k), id) == Places(x, id)
  {
    hide InLane, SendLane;
    var l := LaneOf(x, k);
    SentPlaces(l, Capacity(k), id);
    LanePlaces(x, k, SendLane(l, Capacity(k)), id);
    FreePlaces(WithLane(x, k, SendLane(l, Capacity(k))), [l.task.item.id], id);
  }

  lemma StepPlaces(x: Rec, a: Act, id: nat)
    requires ScratchOk(x) && Enabled(x, a)
    ensures Places(Step(x, a), id) == Places(x, id) + One(x.next == id && Step(x, a).next == x.next + 1)
    ensures Step(x, a).next == x.next || Step(x, a).next == x.next + 1
  {
    hide Places, OpenStep, CheckStep, SkipStep, CaptureStep, SendStep, WriterStep;
    StepNext(x, a);
    match a
    case OpenMic(ok, buffer) => OpenPlaces(x, ok && buffer, id);
    case Check(k) => CheckPlaces(x, k, id);
    case Skip(k) => SkipPlaces(x, k, id);
    case Capture(k, data, buffer) =>
      if buffer { CapturePlaces(x, k, data, id); } else { SkipPlaces(x, k, id); }
    case Send(k) => SendPlaces(x, k, id);
    case Turn(ok, part) => TurnPlaces(x, ok, part, id);
    case _ => SamePlaces(x, Step(x, a), id);
  }

  lemma SkipPlaces(x: Rec, k: Kind, id: nat)
    requires LaneOf(x, k).task == Inside
    ensures Places(SkipStep(x, k), id) == Places(x, id)
  {
    hide Places;
    IdlePlaces(x, k, Polling, id);
  }

  lemma SamePlaces(x: Rec, y: Rec, id: nat)
    requires y == x.(elapsed := y.elapsed, stop := y.stop)
    ensures Places(y, id) == Places(x, id)
  {
  }

  lemma StepNext(x: Rec, a: Act)
    requires Enabled(x, a)
    ensures Step(x, a).next ==
            x.next + One((a.Capture? && a.buffer) || (a.OpenMic? && a.ok && a.buffer))
  {
    hide WriterStep;
    if a.Turn? { WriterSide(x, a.ok, a.part); }
  }

  lemma GuardPlaces(x: Rec, id: nat)
    requires x.writer == ReadStop || x.writer == LookVideo || x.writer == LookAudio
    ensures Places(GuardStep(x), id) == Places(x, id)
  {
    MarkPlaces(x.video, id);
    MarkPlaces(x.audio, id);
    hide InLane, MarkLane;
  }

  lemma MarkPlaces(l: Lane, id: nat)
    ensures InLane(MarkLane(l), id) == InLane(l, id)
  {
  }

  lemma ReceivePlaces(x: Rec, k: Kind, id: nat)
    requires x.writer == Drain(k)
    ensures Places(ReceiveStep(x, k), id) == Places(x, id)
  {
    hide InLane, ReceiveLane;
    var l := LaneOf(x, k);
    if l.queue != [] {
      TakenPlaces(l, id);
      LanePlaces(x, k, ReceiveLane(l), id);
    }
  }

  lemma WritePlaces(x: Rec, k: Kind, item: Item, ok: bool, part: nat, id: nat)
    requires x.writer == Writing(k, item) && part <= 9 + |item.data|
    ensures Places(WriteStep(x, k, item, ok, part), id) == Places(x, id)
  {
    hide WriteFile;
  }

  lemma TurnPlaces(x: Rec, ok: bool, part: nat, id: nat)
    requires Enabled(x, Turn(ok, part))
    ensures Places(WriterStep(x, ok, part), id) == Places(x, id)
  {
    hide GuardStep, ReceiveStep, WriteStep;
    match x.writer
    case Drain(k) => ReceivePlaces(x, k, id);
    case Writing(k, item) => WritePlaces(x, k, item, ok, part, id);
    case Freeing(k, freeing) =>
      hide InLane;
      FreePlaces(x, [freeing], id);
    case _ => GuardPlaces(x, id);
  }

  lemma StepFile(x: Rec, a: Act)
    requires FileInv(x) && Enabled(x, a)
    ensures FileInv(Step(x, a))
  {
    hide FileInv, WriterStep, OpenStep, CheckStep, SkipStep, CaptureStep, SendStep;
    if !a.Turn? {
      CaptureSide(x, a);
      SameFile(x, Step(x, a));
    } else if x.writer.Writing? {
      WriteKeepsFile(x, a.ok, a.part);
    } else {
      WriterSide(x, a.ok, a.part);
      SameFile(x, WriterStep(x, a.ok, a.part));
    }
  }

  lemma SameFile(x: Rec, y: Rec)
    requires FileInv(x) && FileFrame(x, y)
    ensures FileInv(y)
  {
  }

  lemma WriteKeepsFile(x: Rec, ok: bool, part: nat)
    requires FileInv(x) && x.writer.Writing? && part < 9 + |x.writer.item.data|
    ensures FileInv(WriterStep(x, ok, part))
  {
    hide Encode, EncodeChunk, Frames;
    var k, item := x.writer.kind, x.writer.item;
    var c := ChunkOf(k, item);
    FramesAppend(x.chunks, c, VIDEO);
    FramesAppend(x.chunks, c, AUDIO);
    EncodeAppend(x.clean, c);
    assert FramesOf(LaneOf(x, k).written + [item]) == FramesOf(LaneOf(x, k).written) + [Frame(c.ts, c.data)];
  }

  lemma StepMarks(x: Rec, a: Act)
    requires Inv(x) && Enabled(x, a)
    ensures MarksOk(Step(x, a)) && ScratchOk(Step(x, a))
  {
    hide LaneInv, Accounted, FileInv, WriterStep, OpenStep, CheckStep, SkipStep, CaptureStep, SendStep;
    if a.Turn? {
      WriterSide(x, a.ok, a.part);
      TurnMarks(x, a.ok, a.part);
    } else {
      CaptureSide(x, a);
    }
  }

  lemma TurnMarks(x: Rec, ok: bool, part: nat)
    requires Inv(x) && Enabled(x, Turn(ok, part))
    ensures MarksOk(WriterStep(x, ok, part))
  {
    hide LaneInv, Accounted, FileInv, GuardStep, WriteFile, WriteLane;
    if x.writer.ReadStop? || x.writer.LookVideo? || x.writer.LookAudio? { GuardMarks(x); }
  }

  lemma GuardMarks(x: Rec)
    requires Inv(x)
    ensures MarksOk(GuardStep(x))
  {
    hide LaneInv, Accounted, FileInv;
    if x.writer == LookVideo && x.video.queue == [] {
      MarkedLane(x.video, 4, x.elapsed);
    } else if x.writer == LookAudio && x.audio.queue == [] {
      MarkedLane(x.audio, 16, x.elapsed);
    }
  }

  /** Every step of every task keeps the invariant. */
  lemma StepKeepsInv(x: Rec, a: Act)
    requires Inv(x) && Enabled(x, a)
    ensures Inv(Step(x, a))
  {
    hide LaneInv, Accounted, FileInv, MarksOk, ScratchOk, Step, Enabled;
    StepAccounted(x, a);
    StepLane(x, a, Video);
    StepLane(x, a, Audio);
    StepFile(x, a);
    StepMarks(x, a);
  }
}
