/** What the unit changes is noticed: a free line is polled, and the poll's answer brings the mirror up to
    date after a bounded number of results. */
module Noticed {
  import opened Bytes
  import opened EepromLayout
  import opened Codec
  import opened Requests
  import opened Firmware
  import opened RequestMask
  import opened UnitModel
  import opened Polling
  import SW = StopAndWait
  import SC = SectionCell
  import Simulation
  import Coherence
  import Drain
  import Timing
  import ImageDelivery

  // ---- The firmware while nothing is read ----

  predicate SilentInputs(inputs: seq<SW.Input>) {
    forall i | i in inputs :: SW.Acceptable(i) && i.Tick? && i.val == BUFFER_RX_EMPTY
  }

  /** No debug request is due in any iteration. */
  predicate NoDebugDue(f: Fw, inputs: seq<SW.Input>) {
    f.running == Running ==> forall i | i in inputs && i.Tick? :: i.clock.debug.first - f.debugT < 4000
  }

  /** Connected, with nothing pending or outstanding, and no timer set after the reading `u`. */
  predicate Free(f: Fw, u: U32) {
    Timed(f) && f.mask == {} && !f.busy && f.pollT <= u && f.debugT <= u
  }

  /** What `f` becomes when its poll has gone out: but for the timers, that. */
  predicate Polled(f: Fw, g: Fw) {
    && g.sent == f.sent + [Poll] && g.busy && g.mask == {} && g.mirror == f.mirror && g.running == f.running
    && g.com == WbmConnected
  }

  lemma SilentIs(f: Fw, i: SW.Input)
    requires SW.Acceptable(i) && i.Tick? && i.val == BUFFER_RX_EMPTY && f.mask == {}
    ensures SW.Next(f, i) == Timers(f, i.clock)
  {
  }

  /** An iteration that reads nothing, on a free line with no debug request due: a poll or nothing. */
  lemma FreeIteration(f: Fw, c: Readings, u: U32)
    requires Free(f, u) && Timing.Ascends(c, u, c.message) && Timers(f, c).com == WbmConnected
    requires f.running == Running ==> c.debug.first - f.debugT < 4000
    ensures if c.poll.first - f.pollT >= Every(f.running) then Polled(f, Timers(f, c)) else Timers(f, c) == f
  {
  }

  lemma BusyIteration(f: Fw, g: Fw, c: Readings)
    requires Polled(f, g) && Timers(g, c).com == WbmConnected
    ensures Polled(f, Timers(g, c))
  {
  }

  lemma {:induction false} BusyStays(f: Fw, g: Fw, inputs: seq<SW.Input>)
    requires Polled(f, g) && SilentInputs(inputs) && SW.RunOf(g, inputs).com == WbmConnected
    ensures Polled(f, SW.RunOf(g, inputs))
    decreases |inputs|
  {
    if inputs != [] {
      var h := SW.Next(g, inputs[0]);
      SW.ConnectedThroughout(h, inputs[1..]);
      SilentIs(g, inputs[0]);
      BusyIteration(f, g, inputs[0].clock);
      BusyStays(f, h, inputs[1..]);
    }
  }

  lemma {:induction false} TestsAscend(inputs: seq<SW.Input>, t: U32, u: U32, last: U32)
    requires Timing.Ordered(inputs, u, last) && t <= u
    ensures LastTest(inputs, t) >= t
    decreases |inputs|
  {
    if inputs != [] {
      TestsAscend(inputs[1..], TestAfter(inputs[0], t), Timing.TimeAfter(inputs[0], u), last);
    }
  }

  /** While nothing is read and no debug request is due, a free line is polled exactly once its timer is a
      period old at a poll test: 1 s in Running mode, 5 s in PowerOff. */
  lemma {:induction false} SilenceEndsInPoll(f: Fw, inputs: seq<SW.Input>, t: U32, u: U32, last: U32)
    requires Free(f, u) && t <= u && t - f.pollT < Every(f.running)
    requires SilentInputs(inputs) && NoDebugDue(f, inputs) && Timing.Ordered(inputs, u, last)
    requires SW.RunOf(f, inputs).com == WbmConnected
    ensures if LastTest(inputs, t) - f.pollT >= Every(f.running) then Polled(f, SW.RunOf(f, inputs))
            else SW.RunOf(f, inputs) == f
    decreases |inputs|
  {
    if inputs != [] {
      var i, rest, g := inputs[0], inputs[1..], SW.Next(f, inputs[0]);
      SW.ConnectedThroughout(g, rest);
      SilentIs(f, i);
      FreeIteration(f, i.clock, u);
      TestsAscend(rest, i.clock.poll.first, i.clock.message, last);
      if i.clock.poll.first - f.pollT >= Every(f.running) {
        BusyStays(f, g, rest);
      } else {
        SilenceEndsInPoll(f, rest, i.clock.poll.first, i.clock.message, last);
      }
    }
  }

  // ---- Firmware and unit ----

  /** Nothing is read and no image arrives; the unit may change what it likes. */
  predicate Silent(events: seq<Event>) {
    forall e | e in events :: e.UnitChange? || (e.Tick? && e.val == BUFFER_RX_EMPTY)
  }

  lemma {:induction false} SilentInputsOf(y: Sys, events: seq<Event>)
    requires Possible(y, events) && Silent(events)
    ensures ImageDelivery.NoImage(events) && SilentInputs(ImageDelivery.InputsOf(events))
    ensures Run(y, events).reply == y.reply
    decreases |events|
  {
    if events != [] { SilentInputsOf(Step(y, events[0]), events[1..]); }
  }

  lemma {:induction false} SilenceLosesNothing(s: Section, y: Sys, events: seq<Event>, g: SC.Gap)
    requires Counted(s) && Possible(y, events) && Silent(events) && Coherence.Keeps(SC.Tracked, s, y, g)
    requires Run(y, events).fw.com == WbmConnected
    ensures Coherence.AdmitsAll(SC.Tracked, s, y, events, g)
    decreases |events|
  {
    if events != [] {
      Coherence.StaysConnected(y, events);
      Coherence.StepKeeps(SC.Tracked, s, y, events[0], g);
      SilenceLosesNothing(s, Step(y, events[0]), events[1..], Coherence.GapAfter(s, y, events[0], g));
    }
  }

  /** The wait for the next poll: nothing is read, no debug request is due, and at the last poll test the
      timer is a period old. */
  predicate Waits(y: Sys, wait: seq<Event>, t: U32, u: U32, last: U32)
    requires Possible(y, wait)
  {
    var inputs := ImageDelivery.InputsOf(wait);
    && Free(y.fw, u) && t <= u && t - y.fw.pollT < Every(y.fw.running)
    && Silent(wait) && NoDebugDue(y.fw, inputs) && Timing.Ordered(inputs, u, last)
    && Run(y, wait).fw.com == WbmConnected
    && LastTest(inputs, t) - y.fw.pollT >= Every(y.fw.running)
  }

  /** At its end exactly one poll has gone out, and the unit's answer to it carries its counters. */
  lemma {:induction false} WaitEndsInPoll(y: Sys, wait: seq<Event>, t: U32, u: U32, last: U32, counter: Byte)
    requires Possible(y, wait) && y.reply == None && Waits(y, wait, t, u, last)
    ensures var m := Run(y, wait);
            && Polled(y.fw, m.fw) && Enabled(m, UnitServe(counter))
            && Step(m, UnitServe(counter)) == m.(reply := Some(PollReply(CountersOf(m.unit))))
  {
    SilentInputsOf(y, wait);
    ImageDelivery.FirmwareSees(y, wait);
    SilenceEndsInPoll(y.fw, ImageDelivery.InputsOf(wait), t, u, last);
    var m := Run(y, wait);
    assert m.fw.sent != [] && Last(m.fw) == Poll;
  }

  // ---- And so to an up-to-date mirror ----

  lemma {:induction false} AdmitsPrefix(r: SC.Regime, s: Section, y: Sys, a: seq<Event>, b: seq<Event>, g: SC.Gap)
    requires Counted(s) && Possible(y, a + b) && Possible(y, a) && Coherence.AdmitsAll(r, s, y, a + b, g)
    ensures Coherence.AdmitsAll(r, s, y, a, g)
    decreases |a|
  {
    if a != [] {
      assert (a + b)[0] == a[0] && (a + b)[1..] == a[1..] + b;
      AdmitsPrefix(r, s, Step(y, a[0]), a[1..], b, Coherence.GapAfter(s, y, a[0], g));
    }
  }

  /** After the first `n` events section `s` is the unit's. */
  ghost predicate CopiedAfter(s: Section, y: Sys, events: seq<Event>, n: nat) {
    && n <= |events| && Possible(y, events[..n])
    && var z := Run(y, events[..n]); Content(z.fw.mirror, s) == Content(z.unit, s)
  }

  /** From an answered poll with nothing pending, 30 results bring the section up to date, if neither unit
      nor app changes anything meanwhile and no result drops the section. */
  lemma {:induction false} AnswerBringsUpToDate(s: Section, y: Sys, events: seq<Event>, g: SC.Gap) returns (n: nat)
    requires Counted(s) && Possible(y, events) && Coherence.Keeps(SC.Tracked, s, y, g) && Coherence.Few(g)
    requires y.reply == Some(PollReply(CountersOf(y.unit))) && y.fw.busy && !Drain.Awaits(y.fw, false)
    requires events != [] && events[0].Tick? && events[0].val > RUN_DOWNLOAD
    requires Coherence.AdmitsAll(SC.CatchUp, s, y, events, g) && ImageDelivery.NoImage(events)
    requires Run(y, events).fw.com == WbmConnected && Drain.AnsweredIn(events) >= 30
    ensures CopiedAfter(s, y, events, n)
  {
    n := Drain.DrainsFromAnywhere(y, events);
    var a, b := events[..n], events[n..];
    assert events == a + b;
    ImageDelivery.RunSplits(y, a, b);
    AdmitsPrefix(SC.CatchUp, s, y, a, b, g);
    assert a != [];
    if b != [] { assert Enabled(Run(y, a), b[0]); }
    Coherence.QuietDrainCopies(s, y, a, g);
  }

  /** A change made at the unit is noticed. The line is free and nothing is pending; the unit changes what it
      likes while the poll timer runs out; then it answers the poll that has gone out, and from the moment
      its answer is taken in, 30 results later at most the section has been the unit's. */
  lemma {:induction false} ChangeIsNoticed(s: Section, y: Sys, g: SC.Gap, wait: seq<Event>, t: U32, u: U32, last: U32,
                                           counter: Byte, events: seq<Event>) returns (n: nat)
    requires Counted(s) && Coherence.Keeps(SC.Tracked, s, y, g) && y.reply == None
    requires Possible(y, wait) && Waits(y, wait, t, u, last)
    requires Coherence.Few(Coherence.GapRun(s, y, wait, g))
    requires Enabled(Run(y, wait), UnitServe(counter))
    requires var m, h := Step(Run(y, wait), UnitServe(counter)), Coherence.GapRun(s, y, wait, g).(late := 0);
             && Possible(m, events) && events != [] && events[0].Tick? && events[0].val > RUN_DOWNLOAD
             && Coherence.AdmitsAll(SC.CatchUp, s, m, events, h) && ImageDelivery.NoImage(events)
             && Run(m, events).fw.com == WbmConnected && Drain.AnsweredIn(events) >= 30
    ensures var m := Run(y, wait);
            && m.fw.sent == y.fw.sent + [Poll]
            && CopiedAfter(s, Step(m, UnitServe(counter)), events, n)
  {
    var m, h := Run(y, wait), Coherence.GapRun(s, y, wait, g);
    WaitEndsInPoll(y, wait, t, u, last, counter);
    SilenceLosesNothing(s, y, wait, g);
    Coherence.RunKeeps(SC.Tracked, s, y, wait, g);
    Coherence.ServeKeeps(SC.Tracked, s, m, UnitServe(counter), h);
    ServedPoll(s, m, counter, h);
    n := AnswerBringsUpToDate(s, Step(m, UnitServe(counter)), events, h.(late := 0));
  }

  lemma ServedPoll(s: Section, m: Sys, counter: Byte, h: SC.Gap)
    requires Counted(s) && m.fw.sent != [] && Last(m.fw) == Poll
    ensures Coherence.GapAfter(s, m, UnitServe(counter), h) == h.(late := 0)
  {
  }
}
