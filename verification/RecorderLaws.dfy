/** What holds over whole runs of the recorder's three tasks. */
module RecorderLaws {
  import opened Words
  import opened Espav
  import opened Recorder

  ghost predicate LegalRun(x: Rec, acts: seq<Act>)
    decreases |acts|
  {
    acts == [] || (Enabled(x, acts[0]) && LegalRun(Step(x, acts[0]), acts[1..]))
  }

  ghost function Run(x: Rec, acts: seq<Act>): Rec
    requires LegalRun(x, acts)
    decreases |acts|
  {
    if acts == [] then x else Run(Step(x, acts[0]), acts[1..])
  }

  lemma StartedIsInv()
    ensures Inv(Started())
  {
  }

  /** The invariant over every interleaving of the three tasks, the clock and the stop request. */
  lemma {:induction false} RunKeepsInv(x: Rec, acts: seq<Act>)
    requires Inv(x) && LegalRun(x, acts)
    ensures Inv(Run(x, acts))
    decreases |acts|
  {
    if acts != [] {
      StepKeepsInv(x, acts[0]);
      RunKeepsInv(Step(x, acts[0]), acts[1..]);
    }
  }

  // ---------- buffers ----------

  predicate Has(q: seq<Item>, id: nat) {
    exists i :: 0 <= i < |q| && q[i].id == id
  }

  /** Some task or queue can still reach the buffer. */
  predicate InUse(x: Rec, id: nat) {
    || id in x.scratch
    || Has(InTask(x.video.task), id) || Has(InTask(x.audio.task), id)
    || Has(x.video.queue, id) || Has(x.audio.queue, id)
    || (x.writer.Writing? && x.writer.item.id == id) || (x.writer.Freeing? && x.writer.id == id)
  }

  lemma HasCounts(q: seq<Item>, id: nat)
    ensures Has(q, id) <==> multiset(Ids(q))[id] > 0
  {
    if Has(q, id) {
      var i :| 0 <= i < |q| && q[i].id == id;
      assert Ids(q)[i] in Ids(q);
    }
  }

  lemma HasInTask(t: Task, id: nat)
    ensures Has(InTask(t), id) <==> t.Holding? && t.item.id == id
  {
    if t.Holding? { assert InTask(t)[0] == t.item; }
  }

  lemma FreedTwice(freed: seq<nat>, i: nat, j: nat)
    requires i < j < |freed|
    ensures freed[i] == freed[j] ==> multiset(freed)[freed[i]] >= 2
  {
    assert freed == freed[..j] + freed[j..];
    assert freed[i] in freed[..j] && freed[j] in freed[j..];
  }

  /** Every buffer ever allocated is either still in use or freed, never both, and freed at most once. */
  lemma BuffersFreedOnce(x: Rec)
    requires Inv(x)
    ensures forall id: nat :: (id in x.freed || InUse(x, id)) <==> id < x.next
    ensures forall id: nat :: !(id in x.freed && InUse(x, id))
    ensures forall i, j :: 0 <= i < j < |x.freed| ==> x.freed[i] != x.freed[j]
  {
    hide LaneInv, FileInv;
    forall id: nat
      ensures ((id in x.freed || InUse(x, id)) <==> id < x.next) && !(id in x.freed && InUse(x, id))
    {
      HasCounts(x.video.queue, id);
      HasCounts(x.audio.queue, id);
      HasInTask(x.video.task, id);
      HasInTask(x.audio.task, id);
      assert Places(x, id) == One(id < x.next);
    }
    forall i, j | 0 <= i < j < |x.freed| ensures x.freed[i] != x.freed[j] {
      FreedTwice(x.freed, i, j);
      assert Places(x, x.freed[i]) <= 1;
    }
  }

  // ---------- what a merge keeps ----------

  lemma LastOut(s: seq<Item>)
    requires s != []
    ensures multiset(s) == multiset(s[..|s| - 1]) + multiset{s[|s| - 1]}
  {
    assert s == s[..|s| - 1] + [s[|s| - 1]];
  }

  lemma {:induction false} InterleavesCounts(all: seq<Item>, a: seq<Item>, b: seq<Item>)
    requires Interleaves(all, a, b)
    ensures multiset(all) == multiset(a) + multiset(b) && |all| == |a| + |b|
    decreases |all|
  {
    if all != [] {
      var m := |all| - 1;
      var init, z := all[..m], all[m];
      LastOut(all);
      if a != [] && a[|a| - 1] == z && Interleaves(init, a[..|a| - 1], b) {
        InterleavesCounts(init, a[..|a| - 1], b);
        LastOut(a);
        hide Interleaves;
        Reorder(multiset(a[..|a| - 1]), multiset(b), multiset{z});
      } else {
        InterleavesCounts(init, a, b[..|b| - 1]);
        LastOut(b);
        hide Interleaves;
        Reorder(multiset(b[..|b| - 1]), multiset(a), multiset{z});
      }
    }
  }

  lemma Reorder(a: multiset<Item>, b: multiset<Item>, z: multiset<Item>)
    ensures a + b + z == (a + z) + b && b + a + z == b + (a + z)
  {
  }

  lemma {:induction false} InterleavesKeepsOrder(all: seq<Item>, a: seq<Item>, b: seq<Item>)
    requires Interleaves(all, a, b) && InOrder(all)
    ensures InOrder(a)
    decreases |all|
  {
    if all != [] {
      var m := |all| - 1;
      if a != [] && a[|a| - 1] == all[m] && Interleaves(all[..m], a[..|a| - 1], b) {
        InterleavesKeepsOrder(all[..m], a[..|a| - 1], b);
        InterleavesCounts(all[..m], a[..|a| - 1], b);
        forall i | 0 <= i < |a| - 1 ensures a[i].ts <= all[m].ts {
          assert a[..|a| - 1][i] in multiset(all[..m]);
        }
      } else {
        InterleavesKeepsOrder(all[..m], a, b[..|b| - 1]);
      }
    }
  }

  /** captured = dropped + queued + in the capturing hand + in the writer's hand + handled, item by item. */
  lemma Conservation(x: Rec, k: Kind)
    requires Inv(x)
    ensures var l := LaneOf(x, k);
      && multiset(Captured(l)) == multiset(l.dropped) + multiset(l.queue) + multiset(InTask(l.task))
                                  + multiset(InWriter(x.writer, k)) + multiset(l.handled)
      && |Captured(l)| == |l.dropped| + |l.queue| + |InTask(l.task)| + |InWriter(x.writer, k)| + |l.handled|
  {
    InterleavesCounts(LaneOf(x, k).past, LaneOf(x, k).sent, LaneOf(x, k).dropped);
  }

  // ---------- the file ----------

  /** While no write failed and the clock has not wrapped, the converter's list for each stream holds exactly
      what the writer handled of it: a prefix of what was sent, which is what was captured less the drops, in
      the order of capture, with timestamps that never go back. The counter is its length. */
  lemma RecordedInOrder(x: Rec, k: Kind)
    requires Inv(x) && !x.broken
    ensures var l := LaneOf(x, k);
      && Frames(Parse(x.file), Tag(k)) == FramesOf(l.handled)
      && l.handled <= l.sent && Interleaves(l.past, l.sent, l.dropped) && l.past <= Captured(l)
      && (x.elapsed < 0x1_0000_0000 ==> InOrder(l.handled))
      && l.count == |l.handled| % 0x1_0000_0000
  {
    var l := LaneOf(x, k);
    hide Frames, Parse, FramesOf, Accounted, Interleaves, Encode;
    RoundTrip(x.chunks);
    LaneOrder(l, Capacity(k), InWriter(x.writer, k), x.elapsed);
  }

  lemma LaneOrder(l: Lane, cap: nat, hand: seq<Item>, elapsed: nat)
    requires LaneInv(l, cap, hand, elapsed)
    ensures l.handled <= l.sent && Interleaves(l.past, l.sent, l.dropped) && l.past <= Captured(l)
    ensures elapsed < 0x1_0000_0000 ==> InOrder(l.handled)
  {
    if elapsed < 0x1_0000_0000 {
      assert forall i :: 0 <= i < |l.past| ==> Captured(l)[i] == l.past[i];
      InterleavesKeepsOrder(l.past, l.sent, l.dropped);
    }
  }

  lemma {:induction false} ParsePrefix(cs: seq<Chunk>, f: seq<byte>)
    requires AllSized(cs) && Encode(cs) <= f
    ensures cs <= Parse(f)
    decreases |cs|
  {
    if cs != [] {
      hide EncodeChunk;
      var rest := f[9 + |cs[0].data|..];
      assert f == EncodeChunk(cs[0]) + rest;
      FirstOfChunk(cs[0], rest);
      ParsePrefix(cs[1..], rest);
    }
  }

  /** A failed write can spoil what follows it, but every chunk recorded before it is still read back. */
  lemma FailedWriteKeepsEarlierChunks(x: Rec)
    requires Inv(x)
    ensures x.clean <= Parse(x.file)
  {
    ParsePrefix(x.clean, x.file);
  }

  // ---------- the end of a recording ----------

  /** When the writer has left its loop, what is stranded in a queue is what was sent after the writer last
      looked at that queue. */
  lemma StrandedIsSentAfterTheLook(x: Rec)
    requires Inv(x) && x.writer == Done
    ensures x.video.mark <= |x.video.sent| && x.audio.mark <= |x.audio.sent|
    ensures x.video.handled == x.video.sent[..x.video.mark] && x.video.queue == x.video.sent[x.video.mark..]
    ensures x.audio.handled == x.audio.sent[..x.audio.mark] && x.audio.queue == x.audio.sent[x.audio.mark..]
  {
  }

  /** With all three tasks over, every buffer has been freed exactly when nothing was sent after those looks. */
  lemma AllFreedIff(x: Rec)
    requires Inv(x) && x.writer == Done && x.video.task == Ended && x.audio.task == Ended
    ensures (forall id: nat :: id < x.next ==> id in x.freed) <==>
            |x.video.sent| == x.video.mark && |x.audio.sent| == x.audio.mark
  {
    BuffersFreedOnce(x);
    StrandedIsSentAfterTheLook(x);
    if forall id: nat :: id < x.next ==> id in x.freed {
      assert x.video.queue != [] ==> InUse(x, x.video.queue[0].id);
      assert x.audio.queue != [] ==> InUse(x, x.audio.queue[0].id);
    } else {
      var id: nat :| id < x.next && id !in x.freed;
      assert InUse(x, id);
    }
  }

  /** The act leads from x to y. */
  ghost predicate Does(x: Rec, a: Act, y: Rec) {
    Enabled(x, a) && Step(x, a) == y
  }

  ghost predicate Leads(x: Rec, acts: seq<Act>, z: Rec) {
    LegalRun(x, acts) && Run(x, acts) == z
  }

  lemma Before(x: Rec, a: Act, y: Rec, acts: seq<Act>, z: Rec)
    requires Does(x, a, y) && Leads(y, acts, z)
    ensures Leads(x, [a] + acts, z)
  {
    assert ([a] + acts)[1..] == acts;
  }

  /** A frame in hand with the audio task over and stop requested, at one read of the writer's guard. */
  function Caught(data: Payload, w: Writer): Rec {
    var x := Started();
    x.(video := x.video.(task := Holding(Item(0, 0, data))), audio := x.audio.(task := Ended), next := 1, stop := true,
       writer := w)
  }

  lemma CatchesFrame(data: Payload)
    ensures Leads(Started(), [Check(Video), Capture(Video, data, true), OpenMic(false, false), Stop],
                  Caught(data, ReadStop))
  {
    var x0 := Started();
    var x1 := x0.(video := x0.video.(task := Inside));
    var x2 := x1.(video := x1.video.(task := Holding(Item(0, 0, data))), next := 1);
    var x3 := x2.(audio := x2.audio.(task := Ended));
    var x4 := Caught(data, ReadStop);
    assert Does(x0, Check(Video), x1) && Does(x1, Capture(Video, data, true), x2);
    assert Does(x2, OpenMic(false, false), x3) && Does(x3, Stop, x4);
    assert Leads(x4, [], x4);
    hide Does, Leads;
    Before(x3, Stop, x4, [], x4);
    Before(x2, OpenMic(false, false), x3, [Stop], x4);
    Before(x1, Capture(Video, data, true), x2, [OpenMic(false, false), Stop], x4);
    Before(x0, Check(Video), x1, [Capture(Video, data, true), OpenMic(false, false), Stop], x4);
    assert [Stop] + [] == [Stop] && [OpenMic(false, false)] + [Stop] == [OpenMic(false, false), Stop];
    assert [Capture(Video, data, true)] + [OpenMic(false, false), Stop]
        == [Capture(Video, data, true), OpenMic(false, false), Stop];
    assert [Check(Video)] + [Capture(Video, data, true), OpenMic(false, false), Stop]
        == [Check(Video), Capture(Video, data, true), OpenMic(false, false), Stop];
  }

  /** The same frame sent after the writer's look at the video queue. */
  function Left(data: Payload, t: Task): Rec {
    var x := Caught(data, LookAudio);
    var item := Item(0, 0, data);
    x.(video := x.video.(task := t, past := [item], queue := [item], sent := [item]))
  }

  lemma LeavesFrame(data: Payload)
    ensures Leads(Caught(data, ReadStop), [Turn(true, 0), Turn(true, 0), Send(Video), Check(Video)], Left(data, Ended))
  {
    var x4, x5, x6 := Caught(data, ReadStop), Caught(data, LookVideo), Caught(data, LookAudio);
    var x7, x8 := Left(data, Polling), Left(data, Ended);
    assert Does(x4, Turn(true, 0), x5) && Does(x5, Turn(true, 0), x6);
    assert Does(x6, Send(Video), x7) && Does(x7, Check(Video), x8);
    assert Leads(x8, [], x8);
    hide Does, Leads, Caught, Left;
    Before(x7, Check(Video), x8, [], x8);
    Before(x6, Send(Video), x7, [Check(Video)], x8);
    Before(x5, Turn(true, 0), x6, [Send(Video), Check(Video)], x8);
    Before(x4, Turn(true, 0), x5, [Turn(true, 0), Send(Video), Check(Video)], x8);
    assert [Check(Video)] + [] == [Check(Video)] && [Send(Video)] + [Check(Video)] == [Send(Video), Check(Video)];
    assert [Turn(true, 0)] + [Send(Video), Check(Video)] == [Turn(true, 0), Send(Video), Check(Video)];
    assert [Turn(true, 0)] + [Turn(true, 0), Send(Video), Check(Video)]
        == [Turn(true, 0), Turn(true, 0), Send(Video), Check(Video)];
  }

  lemma {:induction false} Follows(x: Rec, acts: seq<Act>, y: Rec, more: seq<Act>, z: Rec)
    requires Leads(x, acts, y) && Leads(y, more, z)
    ensures Leads(x, acts + more, z)
    decreases |acts|
  {
    if acts == [] {
      assert acts + more == more;
    } else {
      Follows(Step(x, acts[0]), acts[1..], y, more, z);
      assert (acts + more)[1..] == acts[1..] + more;
    }
  }

  /** The stronger hope, that nothing is stranded when both capture tasks have ended by the time the writer's
      guard fails, is false: the guard looks at the video queue first, and a task past its own stop check can
      still send before the guard looks at the audio queue. */
  lemma StrandedFrame(data: Payload)
    ensures var acts := [Check(Video), Capture(Video, data, true), OpenMic(false, false), Stop]
                        + [Turn(true, 0), Turn(true, 0), Send(Video), Check(Video)];
      && LegalRun(Started(), acts)
      && var x := Run(Started(), acts);
      && x.video.task == Ended && x.audio.task == Ended && x.writer == LookAudio && x.audio.queue == []
      && Step(x, Turn(true, 0)).writer == Done
      && Step(x, Turn(true, 0)).video.queue == [Item(0, 0, data)]
  {
    hide LegalRun, Run;
    CatchesFrame(data);
    LeavesFrame(data);
    Follows(Started(), [Check(Video), Capture(Video, data, true), OpenMic(false, false), Stop], Caught(data, ReadStop),
            [Turn(true, 0), Turn(true, 0), Send(Video), Check(Video)], Left(data, Ended));
  }

  predicate CaptureOver(x: Rec) {
    && x.video.task == Ended && x.audio.task == Ended
    && (x.writer == LookAudio || x.writer == Done ==> x.video.queue == [])
    && (x.writer == Done ==> x.audio.queue == [])
  }

  lemma StepAfterCapture(x: Rec, a: Act)
    requires Inv(x) && CaptureOver(x) && Enabled(x, a)
    ensures CaptureOver(Step(x, a)) && Step(x, a).video.sent == x.video.sent && Step(x, a).audio.sent == x.audio.sent
  {
    hide Inv, WriterStep;
    if a.Turn? {
      WriterSide(x, a.ok, a.part);
      TurnAfterCapture(x, a.ok, a.part);
    }
  }

  lemma TurnAfterCapture(x: Rec, ok: bool, part: nat)
    requires CaptureOver(x) && Enabled(x, Turn(ok, part))
    ensures var y := WriterStep(x, ok, part);
      && (y.writer == LookAudio || y.writer == Done ==> y.video.queue == [])
      && (y.writer == Done ==> y.audio.queue == [])
  {
    hide WriteFile;
  }

  /** If both capture tasks have ended before the writer begins its last pass over the guard, every item they
      sent has been handled and every buffer freed by the time the writer is done. */
  lemma {:induction false} DrainedAfterCapture(x: Rec, acts: seq<Act>)
    requires Inv(x) && CaptureOver(x) && LegalRun(x, acts) && Run(x, acts).writer == Done
    ensures var y := Run(x, acts);
      && y.video.handled == x.video.sent && y.audio.handled == x.audio.sent
      && forall id: nat :: id < y.next ==> id in y.freed
    decreases |acts|
  {
    if acts == [] {
      AllFreedIff(x);
    } else {
      StepKeepsInv(x, acts[0]);
      StepAfterCapture(x, acts[0]);
      DrainedAfterCapture(Step(x, acts[0]), acts[1..]);
    }
  }

  // ---------- when a capture task may end ----------

  /** The microphone or the audio task's read buffer is refused. */
  predicate Refuses(a: Act) {
    a.OpenMic? && !(a.ok && a.buffer)
  }

  /** A step ends a capture task only with stop requested, or by refusing the audio task its microphone or buffer. */
  lemma StepEnds(x: Rec, a: Act)
    requires Enabled(x, a)
    ensures var y := Step(x, a);
      && (y.stop <==> x.stop || a.Stop?)
      && (y.video.task == Ended ==> x.video.task == Ended || x.stop)
      && (y.audio.task == Ended ==> x.audio.task == Ended || x.stop || Refuses(a))
  {
    hide WriterStep;
    if a.Turn? { WriterSide(x, a.ok, a.part); }
  }

  lemma {:induction false} EndedFrom(x: Rec, acts: seq<Act>)
    requires LegalRun(x, acts)
    ensures var y := Run(x, acts);
      && (y.stop <==> x.stop || Stop in acts)
      && (y.video.task == Ended ==> x.video.task == Ended || x.stop || Stop in acts)
      && (y.audio.task == Ended ==>
            x.audio.task == Ended || x.stop || Stop in acts || exists a :: a in acts && Refuses(a))
    decreases |acts|
  {
    hide Step, Enabled;
    if acts != [] {
      StepEnds(x, acts[0]);
      EndedFrom(Step(x, acts[0]), acts[1..]);
    }
  }

  /** Over every run from the start: the stop flag is up exactly when stop has been requested; a pass with nothing to
      record, or without memory, ends no task: the video task is over only after a stop request, the audio task only
      after one or when its microphone or buffer was refused. */
  lemma EndedOnlyWhenAsked(acts: seq<Act>)
    requires LegalRun(Started(), acts)
    ensures var y := Run(Started(), acts);
      && (y.stop <==> Stop in acts)
      && (y.video.task == Ended ==> Stop in acts)
      && (y.audio.task == Ended ==> Stop in acts || exists a :: a in acts && Refuses(a))
  {
    EndedFrom(Started(), acts);
  }

  // ---------- stopping ----------

  /** An upper bound on the steps still to come once stop is requested, clock ticks aside. */
  function Work(x: Rec): nat {
    TaskWork(x.video.task) + TaskWork(x.audio.task) + 20 * (|x.video.queue| + |x.audio.queue|) + WriterWork(x)
  }

  function TaskWork(t: Task): nat {
    match t
    case Starting => 400
    case Inside => 300
    case Holding(_) => 200
    case Polling => 100
    case Ended => 0
  }

  function WriterWork(x: Rec): (w: nat)
    ensures w <= 13
  {
    var more := x.video.queue != [] || x.audio.queue != [];
    match x.writer
    case ReadStop => if more then 9 else 3
    case LookVideo => if more then 8 else 2
    case LookAudio => if more then 7 else 1
    case Drain(k) => if k == Video then 5 else if x.video.queue != [] then 10 else 4
    case Writing(_, _) => 13
    case Freeing(_, _) => 12
    case Done => 0
  }

  lemma GuardProgress(x: Rec)
    requires x.stop && (x.writer == ReadStop || x.writer == LookVideo || x.writer == LookAudio)
    ensures WriterWork(GuardStep(x)) < WriterWork(x)
    ensures GuardStep(x).video.queue == x.video.queue && GuardStep(x).audio.queue == x.audio.queue
  {
  }

  lemma ReceiveProgress(x: Rec, k: Kind)
    requires x.writer == Drain(k)
    ensures var y := ReceiveStep(x, k);
      WriterWork(y) + 20 * (|y.video.queue| + |y.audio.queue|) < WriterWork(x) + 20 * (|x.video.queue| + |x.audio.queue|)
  {
  }

  lemma WriteProgress(x: Rec, k: Kind, item: Item, ok: bool, part: nat)
    requires x.writer == Writing(k, item) && part <= 9 + |item.data|
    ensures WriterWork(WriteStep(x, k, item, ok, part)) < WriterWork(x)
    ensures WriteStep(x, k, item, ok, part).video.queue == x.video.queue
    ensures WriteStep(x, k, item, ok, part).audio.queue == x.audio.queue
  {
    hide WriteFile;
  }

  lemma TurnMakesProgress(x: Rec, ok: bool, part: nat)
    requires x.stop && Enabled(x, Turn(ok, part))
    ensures WriterStep(x, ok, part).stop && Work(WriterStep(x, ok, part)) < Work(x)
  {
    WriterSide(x, ok, part);
    hide GuardStep, ReceiveStep, WriteStep, TaskWork;
    match x.writer
    case Drain(k) =>
      hide WriterWork;
      ReceiveProgress(x, k);
    case Writing(k, item) =>
      hide WriterWork;
      WriteProgress(x, k, item, ok, part);
    case Freeing(_, _) =>
    case _ =>
      hide WriterWork;
      GuardProgress(x);
  }

  /** A capture task has come nearer to its end, adding at most one item to a queue. */
  predicate Nearer(x: Rec, y: Rec) {
    && TaskWork(y.video.task) + TaskWork(y.audio.task) + 100 <= TaskWork(x.video.task) + TaskWork(x.audio.task)
    && |y.video.queue| + |y.audio.queue| <= |x.video.queue| + |x.audio.queue| + 1
  }

  lemma OpenNearer(x: Rec, granted: bool)
    requires x.audio.task == Starting
    ensures Nearer(x, OpenStep(x, granted))
  {
  }

  lemma CheckNearer(x: Rec, k: Kind)
    requires LaneOf(x, k).task == Polling && x.stop
    ensures Nearer(x, CheckStep(x, k))
  {
  }

  lemma SkipNearer(x: Rec, k: Kind)
    requires LaneOf(x, k).task == Inside
    ensures Nearer(x, SkipStep(x, k))
  {
  }

  lemma CopyNearer(x: Rec, k: Kind, data: Payload)
    requires LaneOf(x, k).task == Inside
    ensures Nearer(x, CaptureStep(x, k, data))
  {
  }

  lemma SendNearer(x: Rec, k: Kind)
    requires LaneOf(x, k).task.Holding?
    ensures Nearer(x, SendStep(x, k))
  {
  }

  /** After a stop request every step but a clock tick or another request brings the end nearer. */
  lemma StopMakesProgress(x: Rec, a: Act)
    requires x.stop && Enabled(x, a) && !a.Tick? && !a.Stop?
    ensures Step(x, a).stop && Work(Step(x, a)) < Work(x)
  {
    hide WriterStep, OpenStep, CheckStep, SkipStep, CaptureStep, SendStep, WriterWork, TaskWork;
    if a.Turn? {
      TurnMakesProgress(x, a.ok, a.part);
    } else {
      CaptureSide(x, a);
      match a
      case OpenMic(ok, buffer) => OpenNearer(x, ok && buffer);
      case Check(k) => CheckNearer(x, k);
      case Skip(k) => SkipNearer(x, k);
      case Capture(k, data, buffer) => if buffer { CopyNearer(x, k, data); } else { SkipNearer(x, k); }
      case Send(k) => SendNearer(x, k);
    }
  }

  /** And no task is ever stuck: until all three are over, some step is possible. */
  lemma NeverStuck(x: Rec)
    requires Inv(x)
    ensures (exists a :: Enabled(x, a) && !a.Tick? && !a.Stop?) <==>
            !(x.video.task == Ended && x.audio.task == Ended && x.writer == Done)
  {
    hide LaneInv, Accounted, FileInv;
    var k := if x.video.task != Ended then Video else Audio;
    if x.writer != Done {
      assert Enabled(x, Turn(true, 0));
    } else if LaneOf(x, k).task != Ended {
      var t := LaneOf(x, k).task;
      var step := if t == Starting then OpenMic(true, true) else if t == Polling then Check(k)
                  else if t == Inside then Skip(k) else Send(k);
      assert Enabled(x, step);
    }
  }

  /** So every run after a stop request is bounded: at most Work steps before all three tasks are over. */
  lemma {:induction false} StopEndsTheRun(x: Rec, acts: seq<Act>)
    requires Inv(x) && x.stop && LegalRun(x, acts)
    requires forall i :: 0 <= i < |acts| ==> !acts[i].Tick? && !acts[i].Stop?
    ensures |acts| + Work(Run(x, acts)) <= Work(x)
    decreases |acts|
  {
    if acts != [] {
      StepKeepsInv(x, acts[0]);
      StopMakesProgress(x, acts[0]);
      StopEndsTheRun(Step(x, acts[0]), acts[1..]);
    }
  }
}
