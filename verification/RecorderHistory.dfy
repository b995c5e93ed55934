/** What a run of the recorder says about its actions: what was captured and when, what the queues accepted, and what
    is stranded at the end. */
module RecorderHistory {
  import opened Espav
  import opened Recorder
  import opened RecorderLaws

  // ---------- captures ----------

  /** The captures of one stream that got a buffer, with their times and data, read off the actions alone; the list
      begins `elapsed` milliseconds after the start. */
  function Ledger(acts: seq<Act>, elapsed: nat, k: Kind): seq<Frame> {
    if acts == [] then []
    else
      (if acts[0].Capture? && acts[0].kind == k && acts[0].buffer
       then [Frame(elapsed % 0x1_0000_0000, acts[0].data)] else [])
      + Ledger(acts[1..], if acts[0].Tick? then elapsed + acts[0].ms else elapsed, k)
  }

  lemma OpenCaptures(x: Rec, granted: bool, k: Kind)
    requires x.audio.task == Starting
    ensures Captured(LaneOf(OpenStep(x, granted), k)) == Captured(LaneOf(x, k))
  {
  }

  lemma CheckCaptures(x: Rec, j: Kind, k: Kind)
    requires LaneOf(x, j).task == Polling
    ensures Captured(LaneOf(CheckStep(x, j), k)) == Captured(LaneOf(x, k))
  {
  }

  lemma SkipCaptures(x: Rec, j: Kind, k: Kind)
    requires LaneOf(x, j).task == Inside
    ensures Captured(LaneOf(SkipStep(x, j), k)) == Captured(LaneOf(x, k))
  {
  }

  lemma SendCaptures(x: Rec, j: Kind, k: Kind)
    requires LaneOf(x, j).task.Holding?
    ensures Captured(LaneOf(SendStep(x, j), k)) == Captured(LaneOf(x, k))
  {
    if j == k { assert Captured(SendLane(LaneOf(x, k), Capacity(k))) == Captured(LaneOf(x, k)); }
  }

  lemma CopyCaptures(x: Rec, j: Kind, data: Payload, k: Kind)
    requires LaneOf(x, j).task == Inside
    ensures FramesOf(Captured(LaneOf(CaptureStep(x, j, data), k))) == FramesOf(Captured(LaneOf(x, k)))
            + if j == k then [Frame(x.elapsed % 0x1_0000_0000, data)] else []
  {
    if j == k {
      var item := Item(x.next, x.elapsed % 0x1_0000_0000, data);
      assert Captured(LaneOf(CaptureStep(x, j, data), k)) == Captured(LaneOf(x, k)) + [item];
    }
  }

  lemma StepElapsed(x: Rec, a: Act)
    requires Enabled(x, a)
    ensures Step(x, a).elapsed == if a.Tick? then x.elapsed + a.ms else x.elapsed
  {
    hide WriterStep;
    if a.Turn? { WriterSide(x, a.ok, a.part); }
  }

  lemma StepCaptures(x: Rec, a: Act, k: Kind)
    requires Enabled(x, a)
    ensures FramesOf(Captured(LaneOf(Step(x, a), k))) == FramesOf(Captured(LaneOf(x, k))) + Ledger([a], x.elapsed, k)
  {
    assert Ledger([a][1..], x.elapsed, k) == [];
    assert a.Tick? || a.Stop? || a.Turn? || a.OpenMic? || a.Check? || a.Skip? || a.Send? || !a.buffer ==>
      Ledger([a], x.elapsed, k) == [];
    hide OpenStep, CheckStep, SkipStep, SendStep, CaptureStep, WriterStep, FramesOf;
    match a
    case OpenMic(ok, buffer) => OpenCaptures(x, ok && buffer, k);
    case Check(j) => CheckCaptures(x, j, k);
    case Skip(j) => SkipCaptures(x, j, k);
    case Send(j) => SendCaptures(x, j, k);
    case Capture(j, data, buffer) => if buffer { CopyCaptures(x, j, data, k); } else { SkipCaptures(x, j, k); }
    case Turn(ok, part) => WriterSide(x, ok, part);
    case _ =>
  }

  /** Over every run the captured items of a stream are exactly the granted captures, in order. */
  lemma {:induction false} CapturedIsLedger(x: Rec, acts: seq<Act>, k: Kind)
    requires Inv(x) && LegalRun(x, acts)
    ensures FramesOf(Captured(LaneOf(Run(x, acts), k))) ==
            FramesOf(Captured(LaneOf(x, k))) + Ledger(acts, x.elapsed, k)
    decreases |acts|
  {
    hide Inv, Enabled, Step, Captured, LaneOf;
    if acts != [] {
      var y := Step(x, acts[0]);
      StepKeepsInv(x, acts[0]);
      StepCaptures(x, acts[0], k);
      StepElapsed(x, acts[0]);
      CapturedIsLedger(y, acts[1..], k);
      LedgerCons(acts, x.elapsed, k);
    }
  }

  lemma LedgerCons(acts: seq<Act>, elapsed: nat, k: Kind)
    requires acts != []
    ensures var later := if acts[0].Tick? then elapsed + acts[0].ms else elapsed;
      Ledger(acts, elapsed, k) == Ledger([acts[0]], elapsed, k) + Ledger(acts[1..], later, k)
  {
    assert [acts[0]][1..] == [];
  }

  /** End to end: a run from the start that ends with the writer done, no failed write, nothing dropped, nothing in
      hand and nothing stranded leaves a file that reads back as every capture, with its time and its data. */
  lemma WholeRecording(acts: seq<Act>, k: Kind)
    requires LegalRun(Started(), acts)
    requires var y := Run(Started(), acts);
      !y.broken && y.writer == Done && LaneOf(y, k).dropped == LaneOf(y, k).queue == InTask(LaneOf(y, k).task) == []
    ensures Frames(Parse(Run(Started(), acts).file), Tag(k)) == Ledger(acts, 0, k)
  {
    hide Interleaves, Frames, Parse, Ledger, Run, LegalRun, Inv, FramesOf, InOrder;
    StartedIsInv();
    RunKeepsInv(Started(), acts);
    CapturedIsLedger(Started(), acts, k);
    AllHandled(Run(Started(), acts), k);
    assert Captured(LaneOf(Started(), k)) == [];
    NoFrames();
  }

  lemma NoFrames()
    ensures forall fs: seq<Frame> :: FramesOf([]) + fs == fs
  {
  }

  lemma AllHandled(y: Rec, k: Kind)
    requires Inv(y) && !y.broken && y.writer == Done
    requires LaneOf(y, k).dropped == LaneOf(y, k).queue == InTask(LaneOf(y, k).task) == []
    ensures Frames(Parse(y.file), Tag(k)) == FramesOf(Captured(LaneOf(y, k)))
  {
    RecordedInOrder(y, k);
    var l := LaneOf(y, k);
    AllSent(l.past, l.sent);
    hide Interleaves, Frames, Parse, FramesOf, InOrder, Accounted, FileInv, MarksOk, ScratchOk;
    assert l.sent == l.handled + [] + [];
    assert Captured(l) == l.past + [];
  }

  lemma {:induction false} AllSent(all: seq<Item>, a: seq<Item>)
    ensures Interleaves(all, a, []) ==> a == all
    decreases |all|
  {
    if all != [] && Interleaves(all, a, []) {
      AllSent(all[..|all| - 1], a[..|a| - 1]);
      assert all == all[..|all| - 1] + [all[|all| - 1]] && a == a[..|a| - 1] + [all[|all| - 1]];
    }
  }

  // ---------- what is stranded ----------

  /** The items that a queue accepted during a run. */
  ghost function Accepted(x: Rec, acts: seq<Act>, k: Kind): seq<Item>
    requires LegalRun(x, acts)
    decreases |acts|
  {
    if acts == [] then []
    else AcceptedBy(x, acts[0], k) + Accepted(Step(x, acts[0]), acts[1..], k)
  }

  function AcceptedBy(x: Rec, a: Act, k: Kind): seq<Item>
    requires Enabled(x, a)
  {
    if a == Send(k) && |LaneOf(x, k).queue| < Capacity(k) then [LaneOf(x, k).task.item] else []
  }

  predicate Quiet(acts: seq<Act>) {
    forall i :: 0 <= i < |acts| ==> !acts[i].Turn?
  }

  ghost predicate SentOnly(x: Rec, y: Rec, k: Kind, items: seq<Item>) {
    LaneOf(y, k).sent == LaneOf(x, k).sent + items && LaneOf(y, k).mark == LaneOf(x, k).mark && y.writer == x.writer
  }

  lemma OpenSends(x: Rec, granted: bool, k: Kind)
    ensures SentOnly(x, OpenStep(x, granted), k, [])
  {
  }

  lemma CheckSends(x: Rec, j: Kind, k: Kind)
    ensures SentOnly(x, CheckStep(x, j), k, [])
  {
  }

  lemma SkipSends(x: Rec, j: Kind, k: Kind)
    ensures SentOnly(x, SkipStep(x, j), k, [])
  {
  }

  lemma CopySends(x: Rec, j: Kind, data: Payload, k: Kind)
    ensures SentOnly(x, CaptureStep(x, j, data), k, [])
  {
  }

  lemma SendSends(x: Rec, j: Kind, k: Kind)
    requires LaneOf(x, j).task.Holding?
    ensures SentOnly(x, SendStep(x, j), k, AcceptedBy(x, Send(j), k))
  {
  }

  /** While the writer takes no turn, only accepted sends change a lane's record of what was sent. */
  lemma QuietStep(x: Rec, a: Act, k: Kind)
    requires Enabled(x, a) && !a.Turn?
    ensures SentOnly(x, Step(x, a), k, AcceptedBy(x, a, k))
  {
    match a
    case OpenMic(ok, buffer) => OpenSends(x, ok && buffer, k);
    case Check(j) => CheckSends(x, j, k);
    case Skip(j) => SkipSends(x, j, k);
    case Capture(j, data, buffer) => if buffer { CopySends(x, j, data, k); } else { SkipSends(x, j, k); }
    case Send(j) => SendSends(x, j, k);
    case _ =>
      hide OpenStep, CheckStep, SkipStep, CaptureStep, SendStep, WriterStep;
  }

  lemma {:induction false} QuietRun(x: Rec, acts: seq<Act>, k: Kind)
    requires LegalRun(x, acts) && Quiet(acts)
    ensures var l, y := LaneOf(x, k), Run(x, acts);
      && LaneOf(y, k).sent == l.sent + Accepted(x, acts, k)
      && LaneOf(y, k).mark == l.mark && y.writer == x.writer
    decreases |acts|
  {
    hide Step, Enabled, AcceptedBy, LaneOf;
    if acts != [] {
      QuietStep(x, acts[0], k);
      QuietRun(Step(x, acts[0]), acts[1..], k);
    }
  }

  lemma {:induction false} DoneIsQuiet(x: Rec, acts: seq<Act>)
    requires LegalRun(x, acts) && x.writer == Done
    ensures Quiet(acts)
    decreases |acts|
  {
    if acts != [] {
      QuietStep(x, acts[0], Video);
      DoneIsQuiet(Step(x, acts[0]), acts[1..]);
    }
  }

  /** The exact condition in terms of the schedule. At x the writer finds the video queue empty, `between` runs until it
      finds the audio queue empty and leaves its loop, `after` is the rest. What the queues then hold is exactly what
      they accepted since the writer's look at each; with all tasks over, every buffer has been freed if and only if
      they accepted nothing. */
  lemma StrandedIsAccepted(x: Rec, between: seq<Act>, after: seq<Act>)
    requires Inv(x) && x.writer == LookVideo && x.video.queue == []
    requires LegalRun(Step(x, Turn(true, 0)), between) && Quiet(between)
    requires var z := Run(Step(x, Turn(true, 0)), between);
      z.writer == LookAudio && z.audio.queue == [] && LegalRun(Step(z, Turn(true, 0)), after)
    ensures var x1 := Step(x, Turn(true, 0));
      var z1 := Step(Run(x1, between), Turn(true, 0));
      var y := Run(z1, after);
      var video := Accepted(x1, between, Video) + Accepted(z1, after, Video);
      && y.writer == Done && y.video.queue == video && y.audio.queue == Accepted(z1, after, Audio)
      && (y.video.task == Ended && y.audio.task == Ended ==>
            ((forall id: nat :: id < y.next ==> id in y.freed) <==> video == [] && Accepted(z1, after, Audio) == []))
  {
    var x1 := Step(x, Turn(true, 0));
    var z := Run(x1, between);
    var z1 := Step(z, Turn(true, 0));
    var y := Run(z1, after);
    hide Inv, Run, LegalRun, Accepted, Enabled, Quiet, Step;
    StepKeepsInv(x, Turn(true, 0));
    RunKeepsInv(x1, between);
    StepKeepsInv(z, Turn(true, 0));
    RunKeepsInv(z1, after);
    LookMarks(x);
    QuietRun(x1, between, Video);
    LookMarks(z);
    DoneIsQuiet(z1, after);
    QuietRun(z1, after, Video);
    QuietRun(z1, after, Audio);
    StrandedIsSentAfterTheLook(y);
    Behind(x1.video.sent, Accepted(x1, between, Video), Accepted(z1, after, Video));
    Behind(z1.audio.sent, Accepted(z1, after, Audio), []);
    if y.video.task == Ended && y.audio.task == Ended { AllFreedIff(y); }
  }

  lemma LookMarks(x: Rec)
    requires x.writer == LookVideo || x.writer == LookAudio
    ensures Enabled(x, Turn(true, 0))
    ensures var y := Step(x, Turn(true, 0));
      && (x.writer == LookVideo && x.video.queue == [] ==>
            y.writer == LookAudio && y.video.mark == |y.video.sent|)
      && (x.writer == LookAudio && x.audio.queue == [] ==>
            y.writer == Done && y.audio.mark == |y.audio.sent| && y.video == x.video)
  {
  }

  lemma Behind(s: seq<Item>, a: seq<Item>, b: seq<Item>)
    ensures (s + a + b)[|s|..] == a + b && (s + a)[|s|..] == a
  {
  }
}
