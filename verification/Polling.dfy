/** A free line is used: exactly when the timers send, how often they do at least, and that a change
    made at the unit is noticed. */
module Polling {
  import opened Bytes
  import opened EepromLayout
  import opened Codec
  import opened Requests
  import opened Firmware
  import opened RequestMask
  import opened StopAndWait
  import opened Timing
  import UM = UnitModel
  import SC = SectionCell
  import Simulation
  import Coherence
  import Drain
  import ImageDelivery

  // ---- One iteration, in true time ----

  /** A debug request is due: only in Running mode, 4 s after the last, or at a wrap of the counter. */
  predicate DebugTime(mode: RunningMode, since: nat, test: Test<nat>) {
    mode == Running && (test.first >= since + 4000 || test.second / WORD32 > since / WORD32)
  }

  /** A poll is due: 1 s after the timer was set in Running mode, 5 s after in PowerOff, or at a wrap. */
  predicate PollTime(mode: RunningMode, since: nat, test: Test<nat>) {
    match mode
    case Running => test.first >= since + 1000 || test.second / WORD32 > since / WORD32
    case PowerOff => test.first >= since + 5000 || test.second / WORD32 > since / WORD32
    case Initializing => false
  }

  /** `d` and `p`: the true times at which the debug and the poll timer were set. */
  predicate SetAt(f: Fw, c: Clock<nat>, d: nat, p: nat) {
    && f.debugT == d % WORD32 && f.pollT == p % WORD32
    && d <= c.debug.first && p <= c.debug.first && Ascends(c, c.debug.first, c.message)
    && c.poll.second < d + WORD32 && c.poll.second < p + WORD32
  }

  /** When the poll timer was set, as the poll test finds it: a debug request restarts it. */
  function PollSetBefore(f: Fw, c: Clock<nat>, d: nat, p: nat): nat {
    if DebugTime(f.running, d, c.debug) then c.debugPoll else p
  }

  /** On a free line the timers send exactly one debug request if one is due, else exactly one poll if
      one is due, and hold the line; else nothing. On a held line they send nothing. */
  lemma {:induction false} TimersSendExactly(f: Fw, c: Clock<nat>, d: nat, p: nat)
    requires SetAt(f, c, d, p)
    ensures var g := Timers(f, Shown(c));
            var debug, poll := DebugTime(f.running, d, c.debug),
                               PollTime(f.running, PollSetBefore(f, c, d, p), c.poll);
            && g.sent == f.sent + (if f.busy then [] else if debug then [Debug] else if poll then [Poll] else [])
            && (g.com == WbmConnected ==> (g.busy <==> f.busy || debug || poll))
  {
    var since := PollSetBefore(f, c, d, p);
    ElapsedExactly(d, c.debug.first, c.debug.second, POLLING_DEBUG_DATA_MS);
    LaterEpoch(d, c.debug.second);
    DebugSets(f, c, d, p);
    ElapsedExactly(since, c.poll.first, c.poll.second, PollPeriod(f));
    LaterEpoch(since, c.poll.second);
    PollSendsExactly(DebugTick(f, Shown(c)), Shown(c));
  }

  lemma LaterEpoch(a: nat, b: nat)
    requires a <= b
    ensures b / WORD32 != a / WORD32 <==> b / WORD32 > a / WORD32
  {
  }

  lemma DebugSets(f: Fw, c: Clock<nat>, d: nat, p: nat)
    requires SetAt(f, c, d, p)
    requires DebugTime(f.running, d, c.debug) <==>
             f.running == Running && Elapsed(Shown(c).debug, f.debugT, POLLING_DEBUG_DATA_MS)
    ensures var g := DebugTick(f, Shown(c));
            var debug := DebugTime(f.running, d, c.debug);
            && g.running == f.running && g.pollT == PollSetBefore(f, c, d, p) % WORD32
            && g.sent == f.sent + (if debug && !f.busy then [Debug] else [])
            && (g.busy <==> f.busy || debug)
  {
  }

  lemma PollSendsExactly(f: Fw, c: Readings)
    ensures var g := TimeoutTick(PollTick(f, c), c);
            var due := f.running != Initializing && Elapsed(c.poll, f.pollT, PollPeriod(f));
            && g.sent == f.sent + (if due && !f.busy then [Poll] else [])
            && (g.com == WbmConnected ==> (g.busy <==> f.busy || due))
  {
  }

  // ---- Over runs: how often at least ----

  /** The poll period by mode, in milliseconds. */
  function Every(mode: RunningMode): nat {
    if mode == PowerOff then 5000 else 1000
  }

  predicate Fires(f: Fw, c: Readings) {
    DebugDue(f, c) || PollDue(f, c)
  }

  /** The line is free whenever a timer fires. */
  predicate FreeWhenDue(f: Fw, inputs: seq<Input>)
    requires forall i | i in inputs :: Acceptable(i)
    decreases |inputs|
  {
    inputs == [] ||
    ((inputs[0].Tick? && Fires(f, inputs[0].clock) ==> !f.busy) && FreeWhenDue(Next(f, inputs[0]), inputs[1..]))
  }

  function TestAfter(i: Input, t: U32): U32 {
    if i.Tick? then i.clock.poll.first else t
  }

  /** From the poll test of one iteration to the end of the next one's poll at most `d` ms; `t` is the
      poll test before. */
  predicate Spaced(inputs: seq<Input>, t: U32, d: nat)
    decreases |inputs|
  {
    inputs != [] ==>
      (inputs[0].Tick? ==> inputs[0].clock.pollSet - t <= d) && Spaced(inputs[1..], TestAfter(inputs[0], t), d)
  }

  /** The last poll test of a run. */
  function LastTest(inputs: seq<Input>, t: U32): U32
    decreases |inputs|
  {
    if inputs == [] then t else LastTest(inputs[1..], TestAfter(inputs[0], t))
  }

  /** The polls and debug requests of a trace. */
  function TimerSends(t: seq<LineEvent>): nat {
    CountOf(t, Poll) + CountOf(t, Debug)
  }

  predicate Timed(f: Fw) {
    f.com == WbmConnected && f.running != Initializing && Known(f.mask)
  }

  /** A timer that fires on a free line sends, and the poll timer moves on by a period and `d` at most. */
  lemma FiringSends(f: Fw, c: Readings, t: U32, u: U32, d: nat)
    requires Timed(f) && f.pollT <= u && Ascends(c, u, c.message)
    requires t - f.pollT < Every(f.running) && c.pollSet - t <= d
    ensures var g := Timers(f, c);
            && (Fires(f, c) && !f.busy ==> g.sent != f.sent)
            && (!Fires(f, c) ==> g.sent == f.sent && g.pollT == f.pollT)
            && g.pollT <= c.pollSet && g.pollT - f.pollT < Every(f.running) + d
            && c.poll.first - g.pollT < Every(f.running)
  {
  }

  /** Whether the timers of an iteration send. */
  function SendOf(f: Fw, i: Input): nat {
    if i.Tick? && Timers(f, i.clock).sent != f.sent then 1 else 0
  }

  function SendsOf(f: Fw, inputs: seq<Input>): nat
    requires forall i | i in inputs :: Acceptable(i)
    decreases |inputs|
  {
    if inputs == [] then 0 else SendOf(f, inputs[0]) + SendsOf(Next(f, inputs[0]), inputs[1..])
  }

  lemma StepSends(f: Fw, i: Input)
    requires f.com == WbmConnected && Known(f.mask) && Acceptable(i)
    ensures Known(Next(f, i).mask) && TimerSends(Trace(f, i)) == SendOf(f, i)
  {
    StepCount(f, i, Poll);
    StepCount(f, i, Debug);
    if i.Tick? { TimersSendNoOther(f, i.clock); }
  }

  lemma TimersSendNoOther(f: Fw, c: Readings)
    ensures var g := Timers(f, c);
            g.sent != f.sent ==> Newest(g) == Poll || Newest(g) == Debug
  {
  }

  lemma {:induction false} SendsAreTraced(f: Fw, inputs: seq<Input>)
    requires f.com == WbmConnected && Known(f.mask) && forall i | i in inputs :: Acceptable(i)
    requires RunOf(f, inputs).com == WbmConnected
    ensures SendsOf(f, inputs) == TimerSends(TraceOf(f, inputs))
    decreases |inputs|
  {
    if inputs != [] {
      var g := Next(f, inputs[0]);
      ConnectedThroughout(g, inputs[1..]);
      StepSends(f, inputs[0]);
      TraceSplits(f, inputs, Poll);
      TraceSplits(f, inputs, Debug);
      SendsAreTraced(g, inputs[1..]);
    }
  }

  /** The time that `n` requests cover at one per `e` and `d`. */
  function Covered(n: nat, e: nat, d: nat): nat {
    if n == 0 then e else Covered(n - 1, e, d) + e + d
  }

  lemma {:induction false} CoveredIs(n: nat, e: nat, d: nat)
    ensures Covered(n, e, d) == (e + d) * n + e
  {
    if n > 0 {
      CoveredIs(n - 1, e, d);
      assert (e + d) * n == (e + d) * (n - 1) + (e + d);
    }
  }

  lemma CoversMore(m: nat, n: nat, p: int, p': int, z: int, e: nat, d: nat)
    requires m <= 1 && (m == 0 ==> p' == p) && p' - p < e + d && z - p' < Covered(n, e, d)
    ensures z - p < Covered(m + n, e, d)
  {
  }

  /** What the run still needs after its first iteration. */
  lemma TimedStep(f: Fw, i: Input, t: U32, u: U32, d: nat)
    requires Timed(f) && Acceptable(i) && f.pollT <= u && t - f.pollT < Every(f.running)
    requires i.Tick? ==> Ascends(i.clock, u, i.clock.message) && i.clock.pollSet - t <= d
    requires i.Tick? && Fires(f, i.clock) ==> !f.busy
    requires Next(f, i).com == WbmConnected
    ensures var g := Next(f, i);
            && Timed(g) && g.running == f.running && g.pollT <= TimeAfter(i, u)
            && TestAfter(i, t) - g.pollT < Every(f.running) && g.pollT - f.pollT < Every(f.running) + d
            && SendOf(f, i) <= 1 && (SendOf(f, i) == 0 ==> g.pollT == f.pollT)
  {
    if i.Tick? {
      FiringSends(f, i.clock, t, u, d);
      StepSends(f, i);
      RestKeepsTimers(Timers(f, i.clock), i.clock.message, i.val, i.rx);
      TimersKeepMode(f, i.clock);
    }
  }

  lemma TimersKeepMode(f: Fw, c: Readings)
    ensures Timers(f, c).running == f.running
  {
  }

  /** A Connected run between two wraps with the line free whenever a timer fires; `t` and `u` are its last
      poll test and its last reading before, and the poll timer was not due at `t`. */
  predicate Paced(f: Fw, inputs: seq<Input>, t: U32, u: U32, last: U32, d: nat) {
    && Timed(f) && f.pollT <= u && t - f.pollT < Every(f.running)
    && (forall i | i in inputs :: Acceptable(i))
    && Ordered(inputs, u, last) && Spaced(inputs, t, d) && FreeWhenDue(f, inputs)
    && RunOf(f, inputs).com == WbmConnected
  }

  lemma PacedStep(f: Fw, inputs: seq<Input>, t: U32, u: U32, last: U32, d: nat)
    requires Paced(f, inputs, t, u, last, d) && inputs != []
    ensures var i, g := inputs[0], Next(f, inputs[0]);
            && Paced(g, inputs[1..], TestAfter(i, t), TimeAfter(i, u), last, d)
            && g.running == f.running && g.pollT - f.pollT < Every(f.running) + d
            && SendOf(f, i) <= 1 && (SendOf(f, i) == 0 ==> g.pollT == f.pollT)
  {
    ConnectedThroughout(Next(f, inputs[0]), inputs[1..]);
    TimedStep(f, inputs[0], t, u, d);
  }

  /** The timers have sent at least once per period and `d` over the run. */
  predicate SentEnough(f: Fw, inputs: seq<Input>, t: U32, d: nat)
    requires forall i | i in inputs :: Acceptable(i)
  {
    LastTest(inputs, t) - f.pollT < Covered(SendsOf(f, inputs), Every(f.running), d)
  }

  lemma NothingYet(f: Fw, t: U32, d: nat)
    requires t - f.pollT < Every(f.running)
    ensures SentEnough(f, [], t, d)
  {
  }

  lemma SentEnoughStep(f: Fw, inputs: seq<Input>, t: U32, d: nat)
    requires inputs != [] && (forall i | i in inputs :: Acceptable(i))
    requires var i, g := inputs[0], Next(f, inputs[0]);
             && g.running == f.running && g.pollT - f.pollT < Every(f.running) + d
             && SendOf(f, i) <= 1 && (SendOf(f, i) == 0 ==> g.pollT == f.pollT)
             && SentEnough(g, inputs[1..], TestAfter(i, t), d)
    ensures SentEnough(f, inputs, t, d)
  {
    var i, g := inputs[0], Next(f, inputs[0]);
    CoversMore(SendOf(f, i), SendsOf(g, inputs[1..]), f.pollT, g.pollT, LastTest(inputs, t), Every(f.running), d);
  }

  /** Whatever is read and however many images arrive: as long as the line is free when a timer fires,
      the timers send at least once per period and `d`. */
  lemma {:induction false} SendsAtLeast(f: Fw, inputs: seq<Input>, t: U32, u: U32, last: U32, d: nat)
    requires Paced(f, inputs, t, u, last, d)
    ensures SentEnough(f, inputs, t, d)
    decreases |inputs|
  {
    if inputs == [] {
      NothingYet(f, t, d);
    } else {
      PacedStep(f, inputs, t, u, last, d);
      SendsAtLeast(Next(f, inputs[0]), inputs[1..], TestAfter(inputs[0], t), TimeAfter(inputs[0], u), last, d);
      SentEnoughStep(f, inputs, t, d);
    }
  }

  /** Debug requests are sent in Running mode only. */
  lemma {:induction false} NoDebugWhenOff(f: Fw, inputs: seq<Input>)
    requires f.com == WbmConnected && f.running == PowerOff && Known(f.mask)
    requires forall i | i in inputs :: Acceptable(i)
    ensures CountOf(TraceOf(f, inputs), Debug) == 0
    decreases |inputs|
  {
    if inputs != [] {
      var g := Next(f, inputs[0]);
      OffStep(f, inputs[0]);
      TraceSplits(f, inputs, Debug);
      if g.com == WbmConnected { NoDebugWhenOff(g, inputs[1..]); }
    }
  }

  lemma OffStep(f: Fw, i: Input)
    requires f.com == WbmConnected && f.running == PowerOff && Known(f.mask) && Acceptable(i)
    ensures CountOf(Trace(f, i), Debug) == 0 && Next(f, i).running == PowerOff && Known(Next(f, i).mask)
  {
    StepCount(f, i, Debug);
    if i.Tick? {
      OffSendsPolls(f, i.clock);
      TimersKeepMode(f, i.clock);
      RestKeepsTimers(Timers(f, i.clock), i.clock.message, i.val, i.rx);
    }
  }

  lemma OffSendsPolls(f: Fw, c: Readings)
    requires f.running == PowerOff
    ensures Timers(f, c).sent != f.sent ==> Newest(Timers(f, c)) == Poll
  {
  }

  lemma EnoughByCount(f: Fw, inputs: seq<Input>, t: U32, d: nat, n: nat)
    requires (forall i | i in inputs :: Acceptable(i)) && SentEnough(f, inputs, t, d) && SendsOf(f, inputs) == n
    ensures LastTest(inputs, t) - f.pollT < Covered(n, Every(f.running), d)
  {
  }

  lemma CountIsSends(f: Fw, inputs: seq<Input>) returns (polls: nat, debugs: nat)
    requires Timed(f) && (forall i | i in inputs :: Acceptable(i)) && RunOf(f, inputs).com == WbmConnected
    ensures polls == CountOf(TraceOf(f, inputs), Poll) && debugs == CountOf(TraceOf(f, inputs), Debug)
    ensures SendsOf(f, inputs) == polls + debugs
  {
    polls, debugs := CountOf(TraceOf(f, inputs), Poll), CountOf(TraceOf(f, inputs), Debug);
    SendsAreTraced(f, inputs);
  }

  /** The time from `p` to `z` is covered by so many polls: in PowerOff by one per 5 s and `d`, in Running
      by one per 1 s and `d`, less one debug request per 4 s of `window`. By CoveredIs `n` of them cover
      (period + d) * n + period. */
  predicate PollsCover(mode: RunningMode, polls: nat, p: int, z: int, window: nat, d: nat) {
    && (mode == PowerOff ==> z - p < Covered(polls, 5000, d))
    && (mode == Running ==> z - p < Covered(polls + window / 4000 + 1, 1000, d))
  }

  lemma DebugsAtMost(f: Fw, inputs: seq<Input>, t: U32, u: U32, last: U32, d: nat)
    requires Paced(f, inputs, t, u, last, d)
    ensures u <= last
    ensures f.running == PowerOff ==> CountOf(TraceOf(f, inputs), Debug) == 0
    ensures f.running == Running ==> CountOf(TraceOf(f, inputs), Debug) <= (last - u) / 4000 + 1
  {
    OrderedEnds(inputs, u, last);
    if f.running == PowerOff { NoDebugWhenOff(f, inputs); } else { PollingRate(f, inputs, u, last, Debug); }
  }

  lemma PacedCounts(f: Fw, inputs: seq<Input>, t: U32, u: U32, last: U32, d: nat)
    requires Paced(f, inputs, t, u, last, d)
    ensures SendsOf(f, inputs) == CountOf(TraceOf(f, inputs), Poll) + CountOf(TraceOf(f, inputs), Debug)
  {
    var _, _ := CountIsSends(f, inputs);
  }

  lemma {:induction false} PolledAtLeast(f: Fw, inputs: seq<Input>, t: U32, u: U32, last: U32, d: nat)
    returns (polls: nat, window: nat)
    requires Paced(f, inputs, t, u, last, d)
    ensures polls == CountOf(TraceOf(f, inputs), Poll) && window == last - u
    ensures PollsCover(f.running, polls, f.pollT, LastTest(inputs, t), window, d)
  {
    polls := CountOf(TraceOf(f, inputs), Poll);
    var debugs := CountOf(TraceOf(f, inputs), Debug);
    DebugsAtMost(f, inputs, t, u, last, d);
    window := last - u;
    assert if f.running == PowerOff then debugs == 0 else debugs <= window / 4000 + 1;
    assert SendsOf(f, inputs) == polls + debugs by { PacedCounts(f, inputs, t, u, last, d); }
    assert SentEnough(f, inputs, t, d) by { SendsAtLeast(f, inputs, t, u, last, d); }
    EnoughPolls(f, inputs, t, d, polls, debugs, window);
  }

  lemma EnoughPolls(f: Fw, inputs: seq<Input>, t: U32, d: nat, polls: nat, debugs: nat, window: nat)
    requires f.running != Initializing && (forall i | i in inputs :: Acceptable(i))
    requires SentEnough(f, inputs, t, d) && SendsOf(f, inputs) == polls + debugs
    requires if f.running == PowerOff then debugs == 0 else debugs <= window / 4000 + 1
    ensures PollsCover(f.running, polls, f.pollT, LastTest(inputs, t), window, d)
  {
    EnoughByCount(f, inputs, t, d, polls + debugs);
    CoverIsEnough(f.running, polls, debugs, f.pollT, LastTest(inputs, t), window, d);
  }

  lemma CoverIsEnough(mode: RunningMode, polls: nat, debugs: nat, p: int, z: int, window: nat, d: nat)
    requires mode != Initializing && z - p < Covered(polls + debugs, Every(mode), d)
    requires if mode == PowerOff then debugs == 0 else debugs <= window / 4000 + 1
    ensures PollsCover(mode, polls, p, z, window, d)
  {
    if mode == Running { CoversLonger(polls + debugs, polls + window / 4000 + 1, 1000, d); }
  }

  lemma {:induction false} CoversLonger(n: nat, m: nat, e: nat, d: nat)
    requires n <= m
    ensures Covered(n, e, d) <= Covered(m, e, d)
  {
    if n < m { CoversLonger(n, m - 1, e, d); }
  }
}
