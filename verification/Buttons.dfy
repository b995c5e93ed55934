/** The button event generator, poll_buttons (src/svc_input.c:56-109). */
module Buttons {
  import opened Words

  const LONG_PRESS_MS: u32 := 800
  const FORCE_QUIT_MS: u32 := 2000

  /** One button as the driver remembers it. */
  datatype Button = Button(pressed: bool, pressTime: u32, longFired: bool)

  datatype Kind = Press | Release | Long
  datatype Event = Event(kind: Kind, hold: u32, now: u32)
  datatype Tagged = Tagged(button: nat, event: Event)
  datatype Gesture = NoGesture | VolUp | VolDown | ForceQuit

  /** A poll finds the button down or up at a time in milliseconds; the driver sees the time modulo 2^32. */
  datatype Sample = Sample(at: nat, down: bool)

  /** Unsigned subtraction. */
  function Since(now: u32, then_: u32): u32 {
    (now - then_) % 0x1_0000_0000
  }

  const IDLE := Button(false, 0, false)

  /** What one poll does to one button, and the events it sends, one at most. */
  function React(b: Button, now: u32, down: bool): (Button, seq<Event>) {
    if down && !b.pressed then (Button(true, now, false), [Event(Press, 0, now)])
    else if !down && b.pressed then
      (b.(pressed := false), [Event(Release, Since(now, b.pressTime), now)])
    else if down && b.pressed && !b.longFired && Since(now, b.pressTime) >= LONG_PRESS_MS then
      (b.(longFired := true), [Event(Long, Since(now, b.pressTime), now)])
    else (b, [])
  }

  function Clock(s: Sample): u32 {
    s.at % 0x1_0000_0000
  }

  /** The button after a list of samples, starting from a released one. */
  function After(samples: seq<Sample>): Button
    decreases |samples|
  {
    if samples == [] then IDLE
    else
      var m := |samples| - 1;
      React(After(samples[..m]), Clock(samples[m]), samples[m].down).0
  }

  /** What sample k makes the driver send. */
  function Sent(samples: seq<Sample>, k: nat): seq<Event>
    requires k < |samples|
  {
    React(After(samples[..k]), Clock(samples[k]), samples[k].down).1
  }

  /** Everything sent, in order. */
  function Trace(samples: seq<Sample>): seq<Event>
    decreases |samples|
  {
    if samples == [] then []
    else Trace(samples[..|samples| - 1]) + Sent(samples, |samples| - 1)
  }

  /** The gesture a LONG event leaves pending; other events leave it as it is. */
  function Noticed(g: Gesture, t: Tagged): Gesture {
    if t.event.kind != Long then g
    else if t.button == 1 then VolUp
    else if t.button == 2 then VolDown
    else if t.button == 0 && t.event.hold >= FORCE_QUIT_MS then ForceQuit
    else g
  }

  function Pending(g: Gesture, es: seq<Tagged>): Gesture
    decreases |es|
  {
    if es == [] then g else Noticed(Pending(g, es[..|es| - 1]), es[|es| - 1])
  }

  lemma PendingAppend(g: Gesture, es: seq<Tagged>, more: seq<Tagged>)
    requires |more| <= 1
    ensures Pending(g, es + more) == if more == [] then Pending(g, es) else Noticed(Pending(g, es), more[0])
  {
    if more == [] {
      assert es + more == es;
    } else {
      assert (es + more)[..|es|] == es;
    }
  }

  // ---------- the grammar of a trace ----------

  /** es is what can be sent so far by a button that is up (0), down (1) or long since down (2) at its end. */
  predicate Grammar(es: seq<Event>, phase: nat)
    decreases |es|
  {
    if es == [] then phase == 0
    else
      var m := |es| - 1;
      match es[m].kind
      case Press => phase == 1 && Grammar(es[..m], 0)
      case Long => phase == 2 && Grammar(es[..m], 1)
      case Release => phase == 0 && (Grammar(es[..m], 1) || Grammar(es[..m], 2))
  }

  function Phase(b: Button): nat {
    if !b.pressed then 0 else if b.longFired then 2 else 1
  }

  /** Every trace is a prefix of (PRESS LONG? RELEASE)*, and ends where the button stands. */
  lemma {:induction false} TraceGrammar(samples: seq<Sample>)
    ensures Grammar(Trace(samples), Phase(After(samples)))
    decreases |samples|
  {
    if samples != [] {
      var m := |samples| - 1;
      TraceGrammar(samples[..m]);
      var t, e := Trace(samples[..m]), Sent(samples, m);
      if e != [] {
        assert Trace(samples) == t + [e[0]];
        assert (t + [e[0]])[..|t|] == t;
      } else {
        assert Trace(samples) == t;
      }
    }
  }

  // ---------- which sample sends what ----------

  /** Where the press that sample k belongs to began. */
  function Start(samples: seq<Sample>, k: nat): (j: nat)
    requires k < |samples| && samples[k].down
    ensures j <= k && (forall i :: j <= i <= k ==> samples[i].down)
    ensures j > 0 ==> !samples[j - 1].down
  {
    if k == 0 || !samples[k - 1].down then k else Start(samples, k - 1)
  }

  function Held(samples: seq<Sample>, j: nat, k: nat): u32
    requires j < |samples| && k < |samples|
  {
    Since(Clock(samples[k]), Clock(samples[j]))
  }

  /** Some sample of the press that began at j, after j and up to k, was held for 800 ms or more. */
  predicate HeldLong(samples: seq<Sample>, j: nat, k: nat)
    requires k <= |samples|
  {
    exists i :: j < i < k && Held(samples, j, i) >= LONG_PRESS_MS
  }

  /** The state is a function of the current press alone. */
  lemma {:induction false} AfterIs(samples: seq<Sample>, k: nat)
    requires k <= |samples|
    ensures var b := After(samples[..k]);
      && (b.pressed <==> k > 0 && samples[k - 1].down)
      && (b.pressed ==> var j := Start(samples, k - 1);
            b.pressTime == Clock(samples[j]) && (b.longFired <==> HeldLong(samples, j, k)))
    decreases k
  {
    if k > 0 {
      AfterIs(samples, k - 1);
      assert samples[..k][..k - 1] == samples[..k - 1];
      var b := After(samples[..k - 1]);
      if samples[k - 1].down && b.pressed {
        var j := Start(samples, k - 2);
        assert Start(samples, k - 1) == j;
        assert HeldLong(samples, j, k) <==> HeldLong(samples, j, k - 1) || Held(samples, j, k - 1) >= LONG_PRESS_MS;
      }
    }
  }

  /** Exactly which samples send which event: PRESS when the button goes down, RELEASE when it goes up, LONG at
      the first later sample of a press that is held for 800 ms or more; `hold` is the time since the press. */
  lemma SentIs(samples: seq<Sample>, k: nat)
    requires k < |samples|
    ensures var was, now := k > 0 && samples[k - 1].down, samples[k].down;
      Sent(samples, k) ==
        if now && !was then [Event(Press, 0, Clock(samples[k]))]
        else if !now && was then
          [Event(Release, Held(samples, Start(samples, k - 1), k), Clock(samples[k]))]
        else if now && Held(samples, Start(samples, k), k) >= 800
                && !HeldLong(samples, Start(samples, k), k) then
          [Event(Long, Held(samples, Start(samples, k), k), Clock(samples[k]))]
        else []
  {
    AfterIs(samples, k);
  }

  predicate TimeFlows(samples: seq<Sample>) {
    forall i, k :: 0 <= i <= k < |samples| ==> samples[i].at <= samples[k].at
  }

  /** The clock may wrap any number of times: `hold` is exact for every press shorter than 2^32 ms. */
  lemma HoldExact(samples: seq<Sample>, j: nat, k: nat)
    requires j <= k < |samples| && TimeFlows(samples)
    ensures Held(samples, j, k) == samples[k].at - samples[j].at <==> samples[k].at - samples[j].at < 0x1_0000_0000
  {
  }

  predicate SendsLong(samples: seq<Sample>, i: nat)
    requires i < |samples|
  {
    Sent(samples, i) != [] && Sent(samples, i)[0].kind == Long
  }

  lemma {:induction false} SamePress(samples: seq<Sample>, i: nat, k: nat)
    requires k < |samples| && samples[k].down && Start(samples, k) <= i <= k
    ensures Start(samples, i) == Start(samples, k)
    decreases k
  {
    if i < k { SamePress(samples, i, k - 1); }
  }

  lemma {:induction false} LongSentIff(samples: seq<Sample>, k: nat)
    requires k < |samples| && samples[k].down
    ensures var j := Start(samples, k);
      (exists i :: j < i <= k && SendsLong(samples, i)) <==> HeldLong(samples, j, k + 1)
    decreases k
  {
    var j := Start(samples, k);
    forall i | j < i <= k && SendsLong(samples, i) ensures HeldLong(samples, j, k + 1) {
      SamePress(samples, i, k);
      SentIs(samples, i);
    }
    if HeldLong(samples, j, k + 1) {
      if HeldLong(samples, j, k) {
        LongSentIff(samples, k - 1);
      } else {
        SentIs(samples, k);
        assert SendsLong(samples, k);
      }
    }
  }

  /** While the button has been down since sample j, and for less than 2^32 ms, a LONG event has been sent by sample k
      exactly when some sample after j was at least 800 ms later than it; the flag says the same. */
  lemma LongIff(samples: seq<Sample>, k: nat)
    requires k < |samples| && samples[k].down && TimeFlows(samples)
    requires samples[k].at - samples[Start(samples, k)].at < 0x1_0000_0000
    ensures var j := Start(samples, k);
      && (After(samples[..k + 1]).longFired <==> samples[k].at - samples[j].at >= 800)
      && ((exists i :: j < i <= k && SendsLong(samples, i)) <==> samples[k].at - samples[j].at >= 800)
  {
    hide Sent, After, HeldLong, Held, SendsLong, Start;
    AfterIs(samples, k + 1);
    LongSentIff(samples, k);
    HeldLongIff(samples, Start(samples, k), k);
  }

  lemma HeldLongIff(samples: seq<Sample>, j: nat, k: nat)
    requires j <= k < |samples| && TimeFlows(samples) && samples[k].at - samples[j].at < 0x1_0000_0000
    ensures HeldLong(samples, j, k + 1) <==> samples[k].at - samples[j].at >= LONG_PRESS_MS
  {
    hide Held;
    forall i | j <= i <= k ensures Held(samples, j, i) == samples[i].at - samples[j].at {
      HoldExact(samples, j, i);
    }
    if samples[k].at - samples[j].at >= LONG_PRESS_MS {
      assert Held(samples, j, k) >= LONG_PRESS_MS && j < k < k + 1;
    }
  }

  // ---------- the force-quit gesture ----------

  /** Sample k of the Back button makes the driver note the force-quit gesture. */
  predicate AsksToQuit(samples: seq<Sample>, k: nat)
    requires k < |samples|
  {
    Sent(samples, k) != [] && Noticed(NoGesture, Tagged(0, Sent(samples, k)[0])) == ForceQuit
  }

  /** Exactly when: the press is at least 2000 ms old, and the poll before fell in its first 800 ms. A press with any
      poll in between has spent its LONG event before. */
  lemma ForceQuitIff(samples: seq<Sample>, k: nat)
    requires k < |samples| && TimeFlows(samples)
    requires samples[k].down ==> samples[k].at - samples[Start(samples, k)].at < 0x1_0000_0000
    ensures AsksToQuit(samples, k) <==>
            samples[k].down &&
            var j := Start(samples, k);
            j < k && samples[k].at - samples[j].at >= 2000 && samples[k - 1].at - samples[j].at < 800
  {
    SentIs(samples, k);
    if samples[k].down {
      var j := Start(samples, k);
      HoldExact(samples, j, k);
      hide Since, Sent, After, HeldLong;
      if j < k { HeldLongIff(samples, j, k - 1); }
    }
  }

  ghost predicate QuitAsked(samples: seq<Sample>) {
    exists k: nat :: k < |samples| && AsksToQuit(samples, k)
  }

  /** Polled at most `gap` ms apart. */
  predicate Steady(samples: seq<Sample>, gap: nat) {
    TimeFlows(samples) && forall i :: 0 < i < |samples| ==> samples[i].at - samples[i - 1].at <= gap
  }

  /** So with polls at most 1200 ms apart no press of any length is ever a force quit. */
  lemma NeverAsksToQuit(samples: seq<Sample>)
    requires Steady(samples, 1200)
    ensures !QuitAsked(samples)
  {
    forall k: nat | k < |samples| ensures !AsksToQuit(samples, k) {
      if SendsLong(samples, k) { LongComesEarly(samples, k, 1200); }
    }
  }

  /** Back held for 2500 ms, with a poll at 800 ms: a LONG event, no force quit. */
  lemma HeldWithoutForceQuit()
    ensures var held := [Sample(0, true), Sample(800, true), Sample(2000, true), Sample(2500, true)];
      Start(held, 3) == 0 && held[3].at - held[0].at >= 2000 && SendsLong(held, 1) && !QuitAsked(held)
  {
    var held := [Sample(0, true), Sample(800, true), Sample(2000, true), Sample(2500, true)];
    assert Start(held, 0) == 0 && Start(held, 1) == 0 && Start(held, 2) == 0;
    hide Sent, After, QuitAsked;
    NeverAsksToQuit(held);
    LongIff(held, 1);
  }

  /** Held as long without a poll between 800 and 2000 ms: a force quit. */
  lemma HeldWithForceQuit()
    ensures QuitAsked([Sample(0, true), Sample(2000, true)])
  {
    var late := [Sample(0, true), Sample(2000, true)];
    assert Start(late, 1) == 0;
    ForceQuitIff(late, 1);
    assert AsksToQuit(late, 1);
  }

  /** LONG fires at the first poll past 800 ms, so with polls at most 1200 ms apart it never carries the 2000 ms
      that the force-quit gesture asks for. */
  lemma LongComesEarly(samples: seq<Sample>, k: nat, gap: nat)
    requires k < |samples| && TimeFlows(samples)
    requires forall i :: 0 < i <= k ==> samples[i].at - samples[i - 1].at <= gap
    requires LONG_PRESS_MS + gap < 0x1_0000_0000
    requires SendsLong(samples, k)
    ensures 800 <= Sent(samples, k)[0].hold < 800 + gap
  {
    SentIs(samples, k);
    var j := Start(samples, k);
    EarlyUntil(samples, j, k, k - 1, gap);
    HoldExact(samples, j, k);
  }

  lemma {:induction false} EarlyUntil(samples: seq<Sample>, j: nat, k: nat, i: nat, gap: nat)
    requires j <= i < k < |samples| && TimeFlows(samples) && !HeldLong(samples, j, k)
    requires forall i :: 0 < i <= k ==> samples[i].at - samples[i - 1].at <= gap
    requires LONG_PRESS_MS + gap < 0x1_0000_0000
    ensures samples[i].at - samples[j].at < LONG_PRESS_MS
    decreases i
  {
    if i > j {
      EarlyUntil(samples, j, k, i - 1, gap);
      HoldExact(samples, j, i);
      assert Held(samples, j, i) < LONG_PRESS_MS;
    }
  }

  // ---------- the gesture a poll leaves pending ----------

  /** The last sample makes the driver send LONG. */
  predicate LongNow(samples: seq<Sample>) {
    samples != [] && SendsLong(samples, |samples| - 1)
  }

  /** For how long it says the button has been held. */
  function LongHold(samples: seq<Sample>): u32
    requires LongNow(samples)
  {
    Sent(samples, |samples| - 1)[0].hold
  }

  /** What the last sample of button i makes of a pending gesture: LONG of button 1 is volume up, of button 2 volume
      down, of button 0 (Back), if held for 2000 ms, force quit. */
  function Heeded(g: Gesture, i: nat, samples: seq<Sample>): Gesture {
    if !LongNow(samples) then g
    else if i == 1 then VolUp
    else if i == 2 then VolDown
    else if i == 0 && LongHold(samples) >= 2000 then ForceQuit
    else g
  }

  lemma HeededIs(g: Gesture, i: nat, samples: seq<Sample>, s: Sample)
    ensures var es := React(After(samples), Clock(s), s.down).1;
      Heeded(g, i, samples + [s]) == if es == [] then g else Noticed(g, Tagged(i, es[0]))
  {
    var more := samples + [s];
    assert more[..|samples|] == samples;
    assert Sent(more, |samples|) == React(After(samples), Clock(s), s.down).1;
    hide React, After;
  }

  /** The samples of the first i buttons, the later ones last, decide. */
  function HeededAll(g: Gesture, samples: seq<seq<Sample>>, i: nat): Gesture
    requires |samples| == 4 && i <= 4
  {
    if i == 0 then g else Heeded(HeededAll(g, samples, i - 1), i - 1, samples[i - 1])
  }

  lemma {:induction false} HeededSame(g: Gesture, samples: seq<seq<Sample>>, samples': seq<seq<Sample>>, i: nat)
    requires |samples| == |samples'| == 4 && i <= 4 && forall j :: 0 <= j < i ==> samples[j] == samples'[j]
    ensures HeededAll(g, samples, i) == HeededAll(g, samples', i)
  {
    if i > 0 { HeededSame(g, samples, samples', i - 1); }
  }

  lemma HeededNext(g: Gesture, samples: seq<seq<Sample>>, samples': seq<seq<Sample>>, i: nat)
    requires |samples| == |samples'| == 4 && i < 4 && forall j :: 0 <= j < i ==> samples[j] == samples'[j]
    ensures HeededAll(g, samples', i + 1) == Heeded(HeededAll(g, samples, i), i, samples'[i])
  {
    HeededSame(g, samples, samples', i);
  }

  /** The pending gesture after a poll, in terms of the samples. */
  lemma HeededIsLast(g: Gesture, samples: seq<seq<Sample>>)
    requires |samples| == 4
    ensures HeededAll(g, samples, 4) ==
            if LongNow(samples[2]) then VolDown
            else if LongNow(samples[1]) then VolUp
            else if LongNow(samples[0]) && LongHold(samples[0]) >= 2000 then ForceQuit
            else g
  {
    hide SendsLong, LongHold, LongNow;
    assert HeededAll(g, samples, 1) == Heeded(HeededAll(g, samples, 0), 0, samples[0]);
    assert HeededAll(g, samples, 2) == Heeded(HeededAll(g, samples, 1), 1, samples[1]);
    assert HeededAll(g, samples, 3) == Heeded(HeededAll(g, samples, 2), 2, samples[2]);
    assert HeededAll(g, samples, 4) == Heeded(HeededAll(g, samples, 3), 3, samples[3]);
  }

  // ---------- the driver ----------

  /** The events of one button out of the common stream. */
  function Of(es: seq<Tagged>, i: nat): seq<Event>
    decreases |es|
  {
    if es == [] then []
    else Of(es[..|es| - 1], i) + if es[|es| - 1].button == i then [es[|es| - 1].event] else []
  }

  lemma OfAppend(es: seq<Tagged>, t: Tagged)
    ensures forall i :: Of(es + [t], i) == Of(es, i) + if t.button == i then [t.event] else []
  {
  }

  lemma OneMore(samples: seq<Sample>, s: Sample)
    ensures After(samples + [s]) == React(After(samples), Clock(s), s.down).0
    ensures var es := React(After(samples), Clock(s), s.down).1;
      Trace(samples + [s]) == if es == [] then Trace(samples) else Trace(samples) + [es[0]]
  {
  }

  /** One more sample keeps a force quit that was asked for, and is one itself if its event says so. */
  lemma QuitGrows(samples: seq<Sample>, s: Sample)
    ensures QuitAsked(samples) ==> QuitAsked(samples + [s])
    ensures var es := React(After(samples), Clock(s), s.down).1;
      es != [] && Noticed(NoGesture, Tagged(0, es[0])) == ForceQuit ==> QuitAsked(samples + [s])
  {
    var more := samples + [s];
    assert more[..|samples|] == samples;
    forall k: nat | k < |samples| && AsksToQuit(samples, k) ensures AsksToQuit(more, k) {
      assert more[..k] == samples[..k];
    }
    var es := React(After(samples), Clock(s), s.down).1;
    if es != [] && Noticed(NoGesture, Tagged(0, es[0])) == ForceQuit { assert AsksToQuit(more, |samples|); }
  }

  lemma NoticedQuit(g: Gesture, t: Tagged)
    ensures Noticed(g, t) == ForceQuit ==> g == ForceQuit || (t.button == 0 && Noticed(NoGesture, t) == ForceQuit)
  {
  }

  /** The samples once the first i buttons have been polled. */
  ghost function Polled(samples: seq<seq<Sample>>, at: nat, levels: seq<bool>, i: nat): (r: seq<seq<Sample>>)
    requires |samples| == |levels| == 4
    ensures |r| == 4
  {
    seq(4, j requires 0 <= j < 4 => if j < i then samples[j] + [Sample(at, levels[j])] else samples[j])
  }

  lemma PolledNext(samples: seq<seq<Sample>>, at: nat, levels: seq<bool>, i: nat)
    requires |samples| == |levels| == 4 && i < 4
    ensures var p := Polled(samples, at, levels, i);
      Polled(samples, at, levels, i + 1) == p[i := p[i] + [Sample(at, levels[i])]]
  {
  }

  lemma PolledAll(samples: seq<seq<Sample>>, at: nat, levels: seq<bool>)
    requires |samples| == |levels| == 4
    ensures forall j :: 0 <= j < 4 ==> Polled(samples, at, levels, 4)[j] == samples[j] + [Sample(at, levels[j])]
  {
  }

  lemma NothingPolled(samples: seq<seq<Sample>>, at: nat, levels: seq<bool>, g: Gesture)
    requires |samples| == |levels| == 4
    ensures Polled(samples, at, levels, 0) == samples && HeededAll(g, samples, 0) == g && Pending(g, []) == g
    ensures InButtonOrder([], 0)
  {
  }

  lemma Regroup(a: seq<Tagged>, b: seq<Tagged>, c: seq<Tagged>)
    ensures a + b + c == a + (b + c)
  {
  }

  /** Events of buttons below i, no two of one button, in the order of the buttons. */
  predicate InButtonOrder(es: seq<Tagged>, i: nat) {
    && (forall a :: 0 <= a < |es| ==> es[a].button < i)
    && (forall a, b :: 0 <= a < b < |es| ==> es[a].button < es[b].button)
  }

  lemma OrderAppend(es: seq<Tagged>, more: seq<Tagged>, i: nat)
    requires InButtonOrder(es, i) && |more| <= 1 && (more != [] ==> more[0].button == i)
    ensures InButtonOrder(es + more, i + 1)
  {
  }

  /** Each button's state and events come from its own samples and from nothing else; a pending force quit was asked
      for by a sample of the Back button. */
  ghost predicate Told(bs: seq<Button>, samples: seq<seq<Sample>>, events: seq<Tagged>, g: Gesture) {
    && |bs| == |samples| == 4 && (g == ForceQuit ==> QuitAsked(samples[0]))
    && forall i :: 0 <= i < 4 ==> bs[i] == After(samples[i]) && Of(events, i) == Trace(samples[i])
  }

  lemma ToldState(bs: seq<Button>, samples: seq<seq<Sample>>, events: seq<Tagged>, g: Gesture, i: nat)
    requires Told(bs, samples, events, g) && i < 4
    ensures bs[i] == After(samples[i])
  {
  }

  lemma ToldMore(bs: seq<Button>, samples: seq<seq<Sample>>, events: seq<Tagged>, g: Gesture, i: nat, s: Sample)
    requires Told(bs, samples, events, g) && i < 4
    ensures var r := React(bs[i], Clock(s), s.down);
      var bs', samples' := bs[i := r.0], samples[i := samples[i] + [s]];
      if r.1 == [] then Told(bs', samples', events, g)
      else Told(bs', samples', events + [Tagged(i, r.1[0])], Noticed(g, Tagged(i, r.1[0])))
  {
    hide React, After, Trace, Of, Noticed, QuitAsked, Clock;
    var r := React(bs[i], Clock(s), s.down);
    OneMore(samples[i], s);
    QuitGrows(samples[i], s);
    if r.1 != [] {
      OfAppend(events, Tagged(i, r.1[0]));
      NoticedQuit(g, Tagged(i, r.1[0]));
    }
    var samples' := samples[i := samples[i] + [s]];
    assert forall j :: 0 <= j < 4 && j != i ==> samples'[j] == samples[j];
  }

  /** The four buttons, and the stream of events offered to the queue. */
  class Driver {
    const pressed: array<bool>
    const pressTime: array<u32>
    const longFired: array<bool>
    var gesture: Gesture
    var events: seq<Tagged>
    ghost var samples: seq<seq<Sample>>   // what the polls have found so far, by button

    ghost predicate Shape()
      reads this
    {
      pressed.Length == pressTime.Length == longFired.Length == |samples| == 4 && pressed != longFired
    }

    function State(i: nat): Button
      requires Shape() && i < 4
      reads this, pressed, pressTime, longFired
    {
      Button(pressed[i], pressTime[i], longFired[i])
    }

    ghost predicate Valid()
      reads this, pressed, pressTime, longFired
    {
      Shape() && Told([State(0), State(1), State(2), State(3)], samples, events, gesture)
    }

    constructor ()
      ensures Valid() && fresh(pressed) && fresh(pressTime) && fresh(longFired)
      ensures samples == [[], [], [], []] && events == [] && gesture == NoGesture
    {
      pressed := new bool[4](_ => false);
      pressTime := new u32[4](_ => 0);
      longFired := new bool[4](_ => false);
      gesture, events, samples := NoGesture, [], [[], [], [], []];
    }

    /** One pass over the four buttons; `sent` are the events it sends. */
    method Poll(at: nat, levels: seq<bool>) returns (ghost sent: seq<Tagged>)
      requires Valid() && |levels| == 4
      modifies this, pressed, pressTime, longFired
      ensures Valid()
      ensures forall i :: 0 <= i < 4 ==> samples[i] == old(samples[i]) + [Sample(at, levels[i])]
      ensures events == old(events) + sent && InButtonOrder(sent, 4)
      ensures gesture == Pending(old(gesture), sent)
      ensures gesture ==
              if LongNow(samples[2]) then VolDown
              else if LongNow(samples[1]) then VolUp
              else if LongNow(samples[0]) && LongHold(samples[0]) >= 2000 then ForceQuit
              else old(gesture)
    {
      hide Pending, Noticed, React, Told, InButtonOrder, State, Since, Polled, Heeded, LongNow, LongHold, HeededAll;
      sent := [];
      NothingPolled(samples, at, levels, gesture);
      for i := 0 to 4
        invariant Valid()
        invariant samples == Polled(old(samples), at, levels, i)
        invariant events == old(events) + sent && InButtonOrder(sent, i)
        invariant gesture == Pending(old(gesture), sent)
        invariant gesture == HeededAll(old(gesture), samples, i)
      {
        ghost var before, was := sent, samples;
        ghost var more := PollOne(i, at, levels[i]);
        sent := before + more;
        PolledNext(old(samples), at, levels, i);
        PendingAppend(old(gesture), before, more);
        OrderAppend(before, more, i);
        Regroup(old(events), before, more);
        HeededNext(old(gesture), was, samples, i);
      }
      PolledAll(old(samples), at, levels);
      HeededIsLast(old(gesture), samples);
    }

    method Send(i: nat, e: Event)
      modifies this`events, this`gesture
      ensures events == old(events) + [Tagged(i, e)] && gesture == Noticed(old(gesture), Tagged(i, e))
    {
      events := events + [Tagged(i, e)];
      if e.kind == Long {
        if i == 1 {
          gesture := VolUp;
        } else if i == 2 {
          gesture := VolDown;
        } else if i == 0 && e.hold >= FORCE_QUIT_MS {
          gesture := ForceQuit;
        }
      }
    }

    /** The three branches for one button. */
    method Touch(i: nat, now: u32, level: bool)
      requires Shape() && i < 4
      modifies pressed, pressTime, longFired, this`events, this`gesture
      ensures Shape() && State(i) == React(old(State(i)), now, level).0
      ensures forall j :: 0 <= j < 4 && j != i ==> State(j) == old(State(j))
      ensures var es := React(old(State(i)), now, level).1;
        if es == [] then events == old(events) && gesture == old(gesture)
        else events == old(events) + [Tagged(i, es[0])] && gesture == Noticed(old(gesture), Tagged(i, es[0]))
    {
      if level && !pressed[i] {
        pressed[i], pressTime[i], longFired[i] := true, now, false;
        Send(i, Event(Press, 0, now));
      } else if !level && pressed[i] {
        pressed[i] := false;
        var held := Since(now, pressTime[i]);
        Send(i, Event(Release, held, now));
      } else if level && pressed[i] && !longFired[i] {
        var held := Since(now, pressTime[i]);
        if held >= LONG_PRESS_MS {
          longFired[i] := true;
          Send(i, Event(Long, held, now));
        }
      }
    }

    method PollOne(i: nat, at: nat, level: bool) returns (ghost sent: seq<Tagged>)
      requires Valid() && i < 4
      modifies this, pressed, pressTime, longFired
      ensures Valid() && samples == old(samples)[i := old(samples[i]) + [Sample(at, level)]]
      ensures events == old(events) + sent && |sent| <= 1 && (sent != [] ==> sent[0].button == i)
      ensures gesture == if sent == [] then old(gesture) else Noticed(old(gesture), sent[0])
      ensures gesture == Heeded(old(gesture), i, samples[i])
    {
      hide React, Since, Told, Noticed, Heeded, After;
      HeededIs(gesture, i, samples[i], Sample(at, level));
      ghost var bs, b := [State(0), State(1), State(2), State(3)], State(i);
      ToldState(bs, samples, events, gesture, i);
      ToldMore(bs, samples, events, gesture, i, Sample(at, level));
      var now: u32 := at % 0x1_0000_0000;
      Touch(i, now, level);
      ghost var es := React(b, now, level).1;
      sent := if es == [] then [] else [Tagged(i, es[0])];
      samples := samples[i := samples[i] + [Sample(at, level)]];
      assert [State(0), State(1), State(2), State(3)] == bs[i := State(i)];
    }

    /** svc_input_consume_sys_gesture. */
    method ConsumeGesture() returns (g: Gesture)
      requires Valid()
      modifies this`gesture
      ensures Valid() && g == old(gesture) && gesture == NoGesture
    {
      g := gesture;
      gesture := NoGesture;
    }

    /** Whatever has been polled and consumed: as long as the polls were at most 1200 ms apart, no force quit is
        pending. */
    lemma NoForceQuit()
      requires Valid() && Steady(samples[0], 1200)
      ensures gesture != ForceQuit
    {
      NeverAsksToQuit(samples[0]);
    }
  }
}
