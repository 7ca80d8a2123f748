/** The 32-bit millisecond clock: when the elapsed-time test fires, how often the unit is polled,
    and exactly when the Connected state times out. */
module Timing {
  import opened Bytes
  import opened EepromLayout
  import opened Codec
  import opened Requests
  import opened Firmware
  import opened StopAndWait

  /** For true times less than 2^32 ms apart the test fires exactly when its first reading reaches
      the limit or the counter has wrapped by its second. */
  lemma ElapsedExactly(since: nat, first: nat, second: nat, limit: nat)
    requires since <= first <= second < since + WORD32
    ensures Elapsed(Test(first % WORD32, second % WORD32), since % WORD32, limit) <==>
            first - since >= limit || second / WORD32 != since / WORD32
  {
    Wraps(since, first);
    Wraps(since, second);
  }

  /** The readings of two true times less than 2^32 apart. */
  lemma Wraps(since: nat, now: nat)
    requires since <= now < since + WORD32
    ensures (now % WORD32 - since % WORD32) % WORD32 == now - since
    ensures now % WORD32 < since % WORD32 <==> now / WORD32 != since / WORD32
  {
    var d := now - since;
    var r := since % WORD32;
    assert now == WORD32 * (since / WORD32) + r + d;
    if r + d < WORD32 {
      assert now / WORD32 == since / WORD32 && now % WORD32 == r + d;
    } else {
      assert now / WORD32 == since / WORD32 + 1 && now % WORD32 == r + d - WORD32;
    }
  }

  // ---- Polling rate between two wraps ----

  /** The readings of an iteration lie between `lo` and `hi`, in their order. */
  predicate Ascends(c: Clock<int>, lo: int, hi: int) {
    && lo <= c.debug.first <= c.debug.second <= c.debugSet <= c.debugPoll <= c.debugTimeout
    && c.debugTimeout <= c.poll.first <= c.poll.second <= c.pollSet <= c.pollTimeout
    && c.pollTimeout <= c.timeout.first <= c.timeout.second <= c.message <= hi
  }

  /** The clock readings of a run do not go backwards from `t` on, and end by `last`. */
  predicate Ordered(inputs: seq<Input>, t: U32, last: U32)
    decreases |inputs|
  {
    if inputs == [] then t <= last
    else if inputs[0].Tick? then
      Ascends(inputs[0].clock, t, inputs[0].clock.message) && Ordered(inputs[1..], inputs[0].clock.message, last)
    else Ordered(inputs[1..], t, last)
  }

  function TimeAfter(i: Input, t: U32): U32 {
    if i.Tick? then i.clock.message else t
  }

  lemma {:induction false} OrderedEnds(inputs: seq<Input>, t: U32, last: U32)
    requires Ordered(inputs, t, last)
    ensures t <= last
    decreases |inputs|
  {
    if inputs != [] { OrderedEnds(inputs[1..], TimeAfter(inputs[0], t), last); }
  }

  function CountOf(t: seq<LineEvent>, r: Request): nat {
    if t == [] then 0 else (if t[0] == Sent(r) then 1 else 0) + CountOf(t[1..], r)
  }

  lemma {:induction false} CountConcat(t: seq<LineEvent>, u: seq<LineEvent>, r: Request)
    ensures CountOf(t + u, r) == CountOf(t, r) + CountOf(u, r)
  {
    if t == [] {
      assert t + u == u;
    } else {
      CountConcat(t[1..], u, r);
      assert (t + u)[1..] == t[1..] + u;
    }
  }

  /** The period of a request the timers send, and its timer. */
  function Period(r: Request): nat {
    if r == Debug then POLLING_DEBUG_DATA_MS else POLLING_BASE_POWER_ON_MS
  }

  function TimerOf(f: Fw, r: Request): U32 {
    if r == Debug then f.debugT else f.pollT
  }

  /** The test before a poll (debug) request, and the reading its timer is set to after it. */
  function TestOf(c: Readings, r: Request): Test<U32> {
    if r == Debug then c.debug else c.poll
  }

  function SetOf(c: Readings, r: Request): U32 {
    if r == Debug then c.debugSet else c.pollSet
  }

  lemma DebugSends(f: Fw, c: Readings)
    requires f.running == Running
    ensures var g := Timers(f, c);
            && g.running == Running && g.debugT in {f.debugT, c.debugSet}
            && (g.sent != f.sent && Newest(g) == Debug ==>
                  g.debugT == c.debugSet && Elapsed(c.debug, f.debugT, POLLING_DEBUG_DATA_MS))
  {
  }

  lemma PollSends(f: Fw, c: Readings)
    requires f.running == Running
    ensures var g := Timers(f, c);
            && g.running == Running && g.pollT in {f.pollT, c.debugPoll, c.pollSet}
            && (g.sent != f.sent && Newest(g) == Poll ==>
                  g.pollT == c.pollSet && Elapsed(c.poll, f.pollT, POLLING_BASE_POWER_ON_MS))
  {
  }

  /** In Running mode the timers send a poll (debug) request only when its period is over, and
      then restart its timer. */
  lemma TimersSend(f: Fw, c: Readings, r: Request)
    requires f.running == Running && (r == Poll || r == Debug)
    ensures var g := Timers(f, c);
            && g.running == Running
            && TimerOf(g, r) in {TimerOf(f, r), SetOf(c, r), c.debugPoll}
            && (g.sent != f.sent && Newest(g) == r ==>
                  TimerOf(g, r) == SetOf(c, r) && Elapsed(TestOf(c, r), TimerOf(f, r), Period(r)))
  {
    if r == Debug { DebugSends(f, c); } else { PollSends(f, c); }
  }

  lemma DispatchSendsNoPoll(f: Fw)
    requires RequestMask.Known(f.mask)
    ensures var g := Dispatch(f);
            g.sent != f.sent ==> g.sent != [] && Last(g) != Poll && Last(g) != Debug
  {
    if f.mask != {} && !f.busy { RequestMask.DispatchSendsChoice(f); }
  }

  lemma CountNew(f: Fw, g: Fw, r: Request)
    requires NewlySent(f, g) == (if g.sent == f.sent then [] else [Sent(Newest(g))])
    ensures CountOf(NewlySent(f, g), r) == if g.sent != f.sent && Newest(g) == r then 1 else 0
  {
  }

  lemma StepCount(f: Fw, i: Input, r: Request)
    requires f.com == WbmConnected && Acceptable(i) && RequestMask.Known(f.mask)
    requires r == Poll || r == Debug
    ensures RequestMask.Known(Next(f, i).mask)
    ensures CountOf(Trace(f, i), r) ==
            if i.Tick? && Timers(f, i.clock).sent != f.sent && Newest(Timers(f, i.clock)) == r then 1 else 0
  {
    if i.Tick? {
      var g := Timers(f, i.clock);
      var h := HandleResult(g, i.clock.message, i.val, i.rx);
      TimersTrace(f, i.clock);
      HandleTrace(g, i.clock.message, i.val, i.rx);
      DispatchTrace(h);
      DispatchSendsNoPoll(h);
      var t2 := if Releases(i.val, i.rx) then [Released] else [];
      CountNew(f, g, r);
      CountNew(h, Dispatch(h), r);
      assert CountOf(t2, r) == 0;
      CountConcat(NewlySent(f, g), t2, r);
      CountConcat(NewlySent(f, g) + t2, NewlySent(h, Dispatch(h)), r);
    }
  }

  lemma RestKeepsTimers(f: Fw, now: U32, val: int, rx: seq<Byte>)
    requires Readable(val, rx)
    ensures var g := Dispatch(HandleResult(f, now, val, rx));
            && g.com == f.com && g.running == f.running && g.pollT == f.pollT && g.debugT == f.debugT
            && g.timeoutT == if val > RUN_DOWNLOAD then now else f.timeoutT
  {
  }

  /** One step: its requests fit the time its timer moves on, and the timer stays behind the clock. */
  lemma StepRate(f: Fw, i: Input, since: U32, t: U32, r: Request)
    requires f.com == WbmConnected && f.running == Running && RequestMask.Known(f.mask) && Acceptable(i)
    requires since <= t && TimerOf(f, r) == since && (i.Tick? ==> Ascends(i.clock, t, i.clock.message))
    requires r == Poll || r == Debug
    ensures var g := Next(f, i);
            && g.running == Running && RequestMask.Known(g.mask)
            && since <= TimerOf(g, r) <= TimeAfter(i, t)
            && Period(r) * CountOf(Trace(f, i), r) <= TimerOf(g, r) - since
  {
    StepCount(f, i, r);
    if i.Tick? {
      TimersSend(f, i.clock, r);
      RestKeepsTimers(Timers(f, i.clock), i.clock.message, i.val, i.rx);
      ElapsedUnwrapped(since, TestOf(i.clock, r), Period(r));
    }
  }

  lemma ElapsedUnwrapped(since: U32, test: Test<U32>, limit: nat)
    requires since <= test.first <= test.second
    ensures Elapsed(test, since, limit) <==> test.first - since >= limit
  {
  }

  /** What a run sends of `r`: what its first step sends, and the rest while Connected. */
  lemma TraceSplits(f: Fw, inputs: seq<Input>, r: Request)
    requires f.com == WbmConnected && inputs != [] && forall i | i in inputs :: Acceptable(i)
    ensures var g := Next(f, inputs[0]);
            CountOf(TraceOf(f, inputs), r) ==
            CountOf(Trace(f, inputs[0]), r) + if g.com == WbmConnected then CountOf(TraceOf(g, inputs[1..]), r) else 0
  {
    CountConcat(Trace(f, inputs[0]), TraceOf(Next(f, inputs[0]), inputs[1..]), r);
  }

  /** From a timer that was set at `since`, the requests sent up to `last` fit their period. */
  lemma {:induction false} RateFrom(f: Fw, inputs: seq<Input>, since: U32, t: U32, last: U32, r: Request)
    requires f.com == WbmConnected && f.running == Running && RequestMask.Known(f.mask)
    requires forall i | i in inputs :: Acceptable(i)
    requires Ordered(inputs, t, last) && since <= t && TimerOf(f, r) == since
    requires r == Poll || r == Debug
    ensures Period(r) * CountOf(TraceOf(f, inputs), r) <= last - since
    decreases |inputs|
  {
    OrderedEnds(inputs, t, last);
    if inputs != [] {
      var i := inputs[0];
      var g, t' := Next(f, i), TimeAfter(i, t);
      StepRate(f, i, since, t, r);
      OrderedEnds(inputs[1..], t', last);
      TraceSplits(f, inputs, r);
      if g.com == WbmConnected {
        RateFrom(g, inputs[1..], TimerOf(g, r), t', last, r);
        RateAdds(Period(r), CountOf(Trace(f, i), r), CountOf(TraceOf(g, inputs[1..]), r), since, TimerOf(g, r), last);
      }
    }
  }

  lemma RateAdds(p: nat, n: nat, m: nat, a: int, b: int, c: int)
    requires p * n <= b - a && p * m <= c - b
    ensures p * (n + m) <= c - a
  {
  }

  /** A request of a step restarts its timer within the step. */
  lemma SendRestarts(f: Fw, i: Input, t: U32, r: Request)
    requires f.com == WbmConnected && f.running == Running && RequestMask.Known(f.mask) && Acceptable(i)
    requires i.Tick? ==> Ascends(i.clock, t, i.clock.message)
    requires r == Poll || r == Debug
    ensures var g := Next(f, i);
            && g.running == Running && RequestMask.Known(g.mask) && CountOf(Trace(f, i), r) <= 1
            && (CountOf(Trace(f, i), r) == 1 ==> t <= TimerOf(g, r) <= TimeAfter(i, t))
  {
    StepCount(f, i, r);
    if i.Tick? {
      TimersSend(f, i.clock, r);
      RestKeepsTimers(Timers(f, i.clock), i.clock.message, i.val, i.rx);
    }
  }

  /** Two requests of a kind are a period apart. */
  lemma {:induction false} SpacedSends(f: Fw, inputs: seq<Input>, t: U32, last: U32, r: Request)
    requires f.com == WbmConnected && f.running == Running && RequestMask.Known(f.mask)
    requires forall i | i in inputs :: Acceptable(i)
    requires Ordered(inputs, t, last)
    requires r == Poll || r == Debug
    ensures CountOf(TraceOf(f, inputs), r) > 0 ==> Period(r) * (CountOf(TraceOf(f, inputs), r) - 1) <= last - t
    decreases |inputs|
  {
    OrderedEnds(inputs, t, last);
    if inputs != [] {
      var i := inputs[0];
      var g, t' := Next(f, i), TimeAfter(i, t);
      SendRestarts(f, i, t, r);
      OrderedEnds(inputs[1..], t', last);
      if g.com == WbmConnected {
        if CountOf(Trace(f, i), r) == 1 {
          RateFrom(g, inputs[1..], TimerOf(g, r), t', last, r);
        } else {
          SpacedSends(g, inputs[1..], t', last, r);
        }
      }
      SpacedStep(f, inputs, t, last, r);
    }
  }

  lemma SpacedStep(f: Fw, inputs: seq<Input>, t: U32, last: U32, r: Request)
    requires f.com == WbmConnected && inputs != [] && forall i | i in inputs :: Acceptable(i)
    requires t <= TimeAfter(inputs[0], t) <= last
    requires var first, g := CountOf(Trace(f, inputs[0]), r), Next(f, inputs[0]);
             && first <= 1
             && (g.com == WbmConnected ==>
                   var later := CountOf(TraceOf(g, inputs[1..]), r);
                   && (first == 1 ==> t <= TimerOf(g, r) && Period(r) * later <= last - TimerOf(g, r))
                   && (first == 0 && later > 0 ==> Period(r) * (later - 1) <= last - TimeAfter(inputs[0], t)))
    ensures CountOf(TraceOf(f, inputs), r) > 0 ==> Period(r) * (CountOf(TraceOf(f, inputs), r) - 1) <= last - t
  {
    var i, g := inputs[0], Next(f, inputs[0]);
    var later := if g.com == WbmConnected then CountOf(TraceOf(g, inputs[1..]), r) else 0;
    TraceSplits(f, inputs, r);
    OneMore(Period(r), CountOf(Trace(f, i), r), later, CountOf(TraceOf(f, inputs), r),
            t, if g.com == WbmConnected then TimerOf(g, r) else t, TimeAfter(i, t), last);
  }

  lemma OneMore(p: nat, first: nat, later: nat, n: nat, t: int, timer: int, t': int, last: int)
    requires n == first + later && first <= 1 && t <= t' <= last
    requires first == 1 && later > 0 ==> t <= timer && p * later <= last - timer
    requires first == 0 && later > 0 ==> p * (later - 1) <= last - t'
    ensures n > 0 ==> p * (n - 1) <= last - t
  {
  }

  /** Between two wraps of the clock, any window of T ms in Running mode holds at most
      T/1000 + 1 poll frames and T/4000 + 1 debug frames. */
  lemma {:induction false} PollingRate(f: Fw, inputs: seq<Input>, t: U32, last: U32, r: Request)
    requires f.com == WbmConnected && f.running == Running && RequestMask.Known(f.mask)
    requires forall i | i in inputs :: Acceptable(i)
    requires Ordered(inputs, t, last)
    requires r == Poll || r == Debug
    ensures CountOf(TraceOf(f, inputs), r) <= (last - t) / Period(r) + 1
  {
    var n := CountOf(TraceOf(f, inputs), r);
    OrderedEnds(inputs, t, last);
    SpacedSends(f, inputs, t, last, r);
    if n > 0 { Quotient(Period(r), n - 1, last - t); }
  }

  lemma Quotient(p: nat, n: nat, b: nat)
    requires p > 0 && p * n <= b
    ensures n <= b / p
  {
    if n > b / p { Scaled(p, b / p + 1, n); }
  }

  // ---- The timeout of the Connected state ----

  /** What an iteration reads at the true times `c`. */
  function Shown(c: Clock<nat>): Readings {
    Clock(Test(c.debug.first % WORD32, c.debug.second % WORD32),
          c.debugSet % WORD32, c.debugPoll % WORD32, c.debugTimeout % WORD32,
          Test(c.poll.first % WORD32, c.poll.second % WORD32), c.pollSet % WORD32, c.pollTimeout % WORD32,
          Test(c.timeout.first % WORD32, c.timeout.second % WORD32), c.message % WORD32)
  }

  predicate DebugDue(f: Fw, c: Readings) {
    f.running == Running && Elapsed(c.debug, f.debugT, POLLING_DEBUG_DATA_MS)
  }

  predicate PollDue(f: Fw, c: Readings) {
    f.running != Initializing && Elapsed(c.poll, DebugTick(f, c).pollT, PollPeriod(f))
  }

  /** The true time of the last restart of the timeout timer before it is tested: `q`, or a restart
      by the debug or poll timer in this iteration. */
  function RestartedAt(f: Fw, c: Clock<nat>, q: nat): nat {
    if PollDue(f, Shown(c)) then c.pollTimeout else if DebugDue(f, Shown(c)) then c.debugTimeout else q
  }

  function PollSetAt(f: Fw, c: Clock<nat>, p: nat): nat {
    if PollDue(f, Shown(c)) then c.pollSet else if DebugDue(f, Shown(c)) then c.debugPoll else p
  }

  /** The counter wraps between that restart and the test. */
  predicate WrapsBeforeTest(f: Fw, c: Clock<nat>, q: nat) {
    RestartedAt(f, c, q) / WORD32 != c.timeout.second / WORD32
  }

  /** The timers in true time: `p` when the poll timer and `q` when the timeout timer was last set.
      The poll timer was not due at `t`, and the last reading so far was at `u`. The timeout timer
      was set at most five seconds before the poll timer, as the handshake leaves it. */
  predicate Clocked(f: Fw, p: nat, q: nat, t: nat, u: nat) {
    && f.com == WbmConnected && f.running != Initializing
    && f.pollT == p % WORD32 && f.timeoutT == q % WORD32
    && p <= t <= u && q <= u && t - p < 5000 && p <= q + 5000
  }

  /** An iteration that starts after `u`, ends its tests less than 2^32 - 10000 ms after `t`, and
      takes less than five seconds from its poll test to its timeout test. */
  predicate Prompt(c: Clock<nat>, t: nat, u: nat) {
    && Ascends(c, u, c.message)
    && c.timeout.second < t + WORD32 - 10000
    && c.timeout.first - c.poll.first < 5000
  }

  lemma TicksAre(f: Fw, c: Clock<nat>, p: nat, q: nat)
    requires f.pollT == p % WORD32 && f.timeoutT == q % WORD32
    ensures var g := PollTick(DebugTick(f, Shown(c)), Shown(c));
            && g.pollT == PollSetAt(f, c, p) % WORD32 && g.timeoutT == RestartedAt(f, c, q) % WORD32
            && g.com == f.com && g.running == f.running
    ensures Timers(f, Shown(c)) == TimeoutTick(PollTick(DebugTick(f, Shown(c)), Shown(c)), Shown(c))
  {
  }

  /** The poll timer as the poll test sees it. */
  function PollSince(f: Fw, c: Clock<nat>, p: nat): nat {
    if DebugDue(f, Shown(c)) then c.debugPoll else p
  }

  lemma PollTestExact(f: Fw, c: Clock<nat>, p: nat, q: nat, t: nat, u: nat)
    requires Clocked(f, p, q, t, u) && Prompt(c, t, u)
    ensures PollDue(f, Shown(c)) <==>
            var since := PollSince(f, c, p);
            c.poll.first - since >= PollPeriod(f) || c.poll.second / WORD32 != since / WORD32
  {
    ElapsedExactly(PollSince(f, c, p), c.poll.first, c.poll.second, PollPeriod(f));
  }

  lemma SameEpoch(a: nat, b: nat, c: nat)
    requires a <= b <= c && a / WORD32 == c / WORD32
    ensures a / WORD32 == b / WORD32
  {
  }

  /** The timeout test itself: at 15 s, or at a wrap of the counter, the error state, with the line free and
      nothing pending. */
  lemma TimeoutExactly(f: Fw, c: Clock<nat>, q: nat)
    requires f.timeoutT == q % WORD32 && q <= c.timeout.first <= c.timeout.second < q + WORD32
    ensures var g := TimeoutTick(f, Shown(c));
            if c.timeout.first >= q + 15000 || c.timeout.second / WORD32 != q / WORD32 then
              g.com == WbmError && !g.busy && g.mask == {} && g.retries == 0 && g.sent == f.sent
            else g == f
  {
    ElapsedExactly(q, c.timeout.first, c.timeout.second, TIMEOUT_MS);
  }

  /** An iteration leaves Connected exactly if the counter wraps between the last restart of the
      timeout and its test; the fifteen seconds themselves never pass. */
  lemma TimesOutExactly(f: Fw, c: Clock<nat>, p: nat, q: nat, t: nat, u: nat)
    requires Clocked(f, p, q, t, u) && Prompt(c, t, u)
    ensures Timers(f, Shown(c)).com == WbmConnected <==> !WrapsBeforeTest(f, c, q)
  {
    var r := RestartedAt(f, c, q);
    TicksAre(f, c, p, q);
    PollTestExact(f, c, p, q, t, u);
    ElapsedExactly(r, c.timeout.first, c.timeout.second, TIMEOUT_MS);
  }

  /** Unless the timeout was last set before the poll timer, that wrap falls between the poll test
      and the timeout test of the same iteration. */
  lemma WrapIsInsideIteration(f: Fw, c: Clock<nat>, p: nat, q: nat, t: nat, u: nat)
    requires Clocked(f, p, q, t, u) && Prompt(c, t, u)
    requires p <= q || p / WORD32 == q / WORD32
    requires WrapsBeforeTest(f, c, q)
    ensures c.poll.second / WORD32 != c.timeout.second / WORD32
  {
    PollTestExact(f, c, p, q, t, u);
    if c.poll.second / WORD32 == c.timeout.second / WORD32 {
      if PollDue(f, Shown(c)) {
        SameEpoch(c.poll.second, c.pollTimeout, c.timeout.second);
      } else if PollSince(f, c, p) <= RestartedAt(f, c, q) {
        SameEpoch(PollSince(f, c, p), RestartedAt(f, c, q), c.poll.second);
      }
    }
  }

  function RestartAfter(f: Fw, i: Input, c: Clock<nat>, q: nat): nat
    requires i.Tick?
  {
    if i.val > RUN_DOWNLOAD then c.message else RestartedAt(f, c, q)
  }

  lemma TickStaysClocked(f: Fw, i: Input, c: Clock<nat>, p: nat, q: nat, t: nat, u: nat) returns (t': nat)
    requires Clocked(f, p, q, t, u) && Prompt(c, t, u) && Acceptable(i) && i.Tick? && i.clock == Shown(c)
    requires !WrapsBeforeTest(f, c, q)
    ensures Clocked(Next(f, i), PollSetAt(f, c, p), RestartAfter(f, i, c, q), t', c.message) && t' >= c.poll.first
  {
    TimesOutExactly(f, c, p, q, t, u);
    TicksAre(f, c, p, q);
    PollTestExact(f, c, p, q, t, u);
    RestKeepsTimers(Timers(f, i.clock), i.clock.message, i.val, i.rx);
    t' := if PollDue(f, Shown(c)) then c.pollSet else c.poll.first;
    ClockedRest(Timers(f, i.clock), Next(f, i), PollSetAt(f, c, p), RestartedAt(f, c, q),
                RestartAfter(f, i, c, q), t', c.message);
  }

  lemma ClockedRest(g: Fw, h: Fw, p: nat, q: nat, q': nat, t: nat, u: nat)
    requires Clocked(g, p, q, t, u) && h.com == g.com && h.running == g.running && h.pollT == g.pollT
    requires h.timeoutT == q' % WORD32 && q <= q' <= u
    ensures Clocked(h, p, q', t, u)
  {
  }

  /** `times` are the true times of the iterations. */
  predicate Timely(inputs: seq<Input>, times: seq<Clock<nat>>, t: nat, u: nat)
    decreases |inputs|
  {
    && |inputs| == |times|
    && (inputs != [] ==>
      && Acceptable(inputs[0])
      && if inputs[0].Tick? then
           && inputs[0].clock == Shown(times[0]) && Prompt(times[0], t, u)
           && Timely(inputs[1..], times[1..], times[0].poll.first, times[0].message)
         else Timely(inputs[1..], times[1..], t, u))
  }

  /** No iteration of the run has that wrap. */
  predicate NoWrapBeforeTest(f: Fw, inputs: seq<Input>, times: seq<Clock<nat>>, q: nat)
    requires |inputs| == |times| && forall i | i in inputs :: Acceptable(i)
    decreases |inputs|
  {
    inputs == [] ||
    if inputs[0].Tick? then
      && !WrapsBeforeTest(f, times[0], q)
      && NoWrapBeforeTest(Next(f, inputs[0]), inputs[1..], times[1..], RestartAfter(f, inputs[0], times[0], q))
    else NoWrapBeforeTest(Next(f, inputs[0]), inputs[1..], times[1..], q)
  }

  /** A Connected unit task stays Connected, whatever is read, rejected or lost, exactly as long as
      the counter does not wrap between a restart of the timeout and its next test. */
  lemma {:induction false} ConnectedExactly(f: Fw, inputs: seq<Input>, times: seq<Clock<nat>>,
                                            p: nat, q: nat, t: nat, u: nat)
    requires Clocked(f, p, q, t, u) && Timely(inputs, times, t, u)
    requires forall i | i in inputs :: Acceptable(i)
    ensures RunOf(f, inputs).com == WbmConnected <==> NoWrapBeforeTest(f, inputs, times, q)
    decreases |inputs|
  {
    if inputs != [] {
      var i, g := inputs[0], Next(f, inputs[0]);
      if i.Tick? {
        var c := times[0];
        TimesOutExactly(f, c, p, q, t, u);
        RestKeepsTimers(Timers(f, i.clock), i.clock.message, i.val, i.rx);
        if !WrapsBeforeTest(f, c, q) {
          var t' := TickStaysClocked(f, i, c, p, q, t, u);
          TimelyLater(inputs[1..], times[1..], c.poll.first, t', c.message);
          ConnectedExactly(g, inputs[1..], times[1..], PollSetAt(f, c, p), RestartAfter(f, i, c, q), t', c.message);
        }
      } else {
        ConnectedExactly(g, inputs[1..], times[1..], p, q, t, u);
      }
    }
  }

  lemma {:induction false} TimelyLater(inputs: seq<Input>, times: seq<Clock<nat>>, t: nat, t': nat, u: nat)
    requires Timely(inputs, times, t, u) && t <= t'
    ensures Timely(inputs, times, t', u)
    decreases |inputs|
  {
    if inputs != [] && !inputs[0].Tick? { TimelyLater(inputs[1..], times[1..], t, t', u); }
  }

  /** The poll and timeout tests of every iteration fall between the same two wraps. */
  predicate TestsUnwrapped(inputs: seq<Input>, times: seq<Clock<nat>>)
    requires |inputs| == |times|
  {
    forall k | 0 <= k < |inputs| && inputs[k].Tick? ::
      times[k].poll.second / WORD32 == times[k].timeout.second / WORD32
  }

  /** So the timeout never fires as long as no wrap falls inside an iteration's tests, nor, at the
      entry, between the two timers; a wrap anywhere else does no harm. */
  lemma {:induction false} NeverTimesOut(f: Fw, inputs: seq<Input>, times: seq<Clock<nat>>,
                                         p: nat, q: nat, t: nat, u: nat)
    requires Clocked(f, p, q, t, u) && Timely(inputs, times, t, u)
    requires forall i | i in inputs :: Acceptable(i)
    requires (p <= q || p / WORD32 == q / WORD32) && TestsUnwrapped(inputs, times)
    ensures RunOf(f, inputs).com == WbmConnected
    decreases |inputs|
  {
    if inputs != [] {
      var i, g := inputs[0], Next(f, inputs[0]);
      assert TestsUnwrapped(inputs[1..], times[1..]) by {
        forall k | 0 <= k < |inputs| - 1 && inputs[1..][k].Tick?
          ensures times[1..][k].poll.second / WORD32 == times[1..][k].timeout.second / WORD32
        {
          assert inputs[1..][k] == inputs[k + 1];
        }
      }
      if i.Tick? {
        var c := times[0];
        assert inputs[0].Tick?;
        if WrapsBeforeTest(f, c, q) {
          WrapIsInsideIteration(f, c, p, q, t, u);
        } else {
          var t' := TickStaysClocked(f, i, c, p, q, t, u);
          TimelyLater(inputs[1..], times[1..], c.poll.first, t', c.message);
          RestartsTogether(f, i, c, p, q, t, u);
          NeverTimesOut(g, inputs[1..], times[1..], PollSetAt(f, c, p), RestartAfter(f, i, c, q), t', c.message);
        }
      } else {
        NeverTimesOut(g, inputs[1..], times[1..], p, q, t, u);
      }
    }
  }

  lemma RestartsTogether(f: Fw, i: Input, c: Clock<nat>, p: nat, q: nat, t: nat, u: nat)
    requires Clocked(f, p, q, t, u) && Prompt(c, t, u) && i.Tick?
    requires p <= q || p / WORD32 == q / WORD32
    ensures var p', q' := PollSetAt(f, c, p), RestartAfter(f, i, c, q);
            p' <= q' || p' / WORD32 == q' / WORD32
  {
  }

  /** A reply that is lost altogether is never recovered from: with nothing more read, nothing is
      ever sent again, whatever the clock shows and however many images arrive. */
  lemma {:induction false} LostReplyHangs(f: Fw, inputs: seq<Input>)
    requires f.com == WbmConnected && f.busy
    requires forall i | i in inputs :: Acceptable(i) && (i.Tick? ==> i.val == BUFFER_RX_EMPTY)
    ensures var g := RunOf(f, inputs);
            g.sent == f.sent && (g.com == WbmConnected ==> g.busy)
    decreases |inputs|
  {
    if inputs != [] {
      var i, g := inputs[0], Next(f, inputs[0]);
      if i.Tick? { SilentTick(f, i); }
      if g.com == WbmConnected { LostReplyHangs(g, inputs[1..]); }
    }
  }

  lemma SilentTick(f: Fw, i: Input)
    requires f.com == WbmConnected && f.busy && Acceptable(i) && i.Tick? && i.val == BUFFER_RX_EMPTY
    ensures var g := Next(f, i);
            g.sent == f.sent && (g.com == WbmConnected ==> g.busy)
  {
    TimersTrace(f, i.clock);
    TimersKeepSent(f, i.clock);
  }

  lemma TimersKeepSent(f: Fw, c: Readings)
    requires f.busy
    ensures Timers(f, c).sent == f.sent
  {
  }

  /** A wrap between the poll test and the timeout test of one iteration: the error state, half a
      second after all timers were set. */
  lemma WrapInsideIterationIsFatal(f: Fw, rx: seq<Byte>)
    requires f.com == WbmConnected && f.running == Running && |rx| == SERIAL_BUFFER
    requires f.pollT == f.debugT == f.timeoutT == WORD32 - 500
    ensures var late: Test<U32> := Test(WORD32 - 1, WORD32 - 1);
            Iterate(f, Clock(late, 0, 0, 0, late, 0, 0, Test(0, 0), 0), BUFFER_RX_EMPTY, rx).com == WbmError
  {
  }

  /** And a counter that wraps between the last step of the handshake and the entry to Connected
      sends the first iteration there. */
  lemma WrapAtEntryIsFatal(f: Fw, c: Readings, rx: seq<Byte>)
    requires f.com == WbmConnected && f.running == Running && |rx| == SERIAL_BUFFER
    requires f.timeoutT == WORD32 - 1 && f.pollT == 0 && f.debugT == 0
    requires Ascends(c, 0, 900)
    ensures Iterate(f, c, BUFFER_RX_EMPTY, rx).com == WbmError
  {
  }
}
