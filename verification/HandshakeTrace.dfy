/** What the handshake puts on the wire and how long it may take, whatever is read. */
module HandshakeTrace {
  import opened Bytes
  import opened EepromLayout
  import opened Codec
  import opened Requests
  import opened Firmware
  import opened Handshake
  import Timing

  datatype Input = Input(visit: Visit<U32>, val: int, rx: seq<Byte>, boot: bool)

  predicate Accepted(f: Fw, inputs: seq<Input>)
    decreases |inputs|
  {
    inputs == [] || f.com != WbmCommunicating ||
    (Usable(f, inputs[0].visit, inputs[0].val, inputs[0].rx) && Accepted(Next(f, inputs[0]), inputs[1..]))
  }

  function Next(f: Fw, i: Input): Fw
    requires Usable(f, i.visit, i.val, i.rx)
  {
    Connect(f, i.visit, i.val, i.rx, i.boot)
  }

  /** The unit task calls Connect_To_Unit as long as it is communicating. */
  function RunOf(f: Fw, inputs: seq<Input>): Fw
    requires Accepted(f, inputs)
    decreases |inputs|
  {
    if inputs == [] || f.com != WbmCommunicating then f else RunOf(Next(f, inputs[0]), inputs[1..])
  }

  // ---- The frames sent ----

  function Polls(n: nat): (s: seq<Request>)
    ensures |s| == n && forall i :: 0 <= i < n ==> s[i] == Poll
  {
    seq(n, _ => Poll)
  }

  /** The six section reads in their fixed order, then the closing poll. */
  const LOAD_SEQUENCE: seq<Request> :=
    [Read(Info), Read(Configuration), Read(SettingPar), Read(SetTemp), Read(DayProg), Read(HWSetting), Poll]

  function Step(c: ConnectState): nat {
    if Rank(c) > 7 then 7 else Rank(c)
  }

  /** Before the link is found: whole rounds of two polls, each ended by a restart at 9600 baud,
      and the polls of the present round; afterwards the load sequence, as far as the state. */
  predicate TraceOk(f: Fw, rounds: nat) {
    && f.retries <= 2
    && (f.slow <==> rounds > 0)
    && if InLoad(f.conn) then
         && |f.sent| > Step(f.conn) && f.sent == Polls(|f.sent| - Step(f.conn)) + LOAD_SEQUENCE[..Step(f.conn)]
         && 2 * rounds < |f.sent| - Step(f.conn) <= 2 * rounds + 2
         && (f.foundLink <==> f.conn != LinkConnected)
       else
         && f.conn in {Init, LinkConnecting, TrySerialLink, Bootloader}
         && f.sent == Polls(2 * rounds + f.retries) && !f.foundLink
         && (f.conn == Init ==> f.retries == 0)
         && (f.conn == LinkConnecting ==> f.retries < 2)
         && (f.conn == TrySerialLink ==> 1 <= f.retries)
  }

  lemma LoadNext(c: ConnectState)
    requires c == LinkConnected || Loads(c)
    ensures Step(Following(c).1) == Step(c) + 1 <= 7 && LOAD_SEQUENCE[Step(c)] == Following(c).0
    ensures LOAD_SEQUENCE[..Step(c) + 1] == LOAD_SEQUENCE[..Step(c)] + [Following(c).0]
    ensures InLoad(Following(c).1) && Following(c).1 != LinkConnected
  {
  }

  lemma AskTrace(f: Fw, g: Fw, start: U32, rounds: nat)
    requires TraceOk(f, rounds) && (f.conn == LinkConnected || Loads(f.conn))
    requires g == Ask(f.(mirror := g.mirror, foundLink := true), start)
    ensures TraceOk(g, rounds)
  {
    LoadNext(f.conn);
    var k := Step(f.conn);
    assert f.sent + [LOAD_SEQUENCE[k]] == Polls(|f.sent| - k) + LOAD_SEQUENCE[..k + 1];
  }

  lemma PollTrace(f: Fw, i: Input, rounds: nat)
    requires f.conn == LinkConnecting && TraceOk(f, rounds) && Usable(f, i.visit, i.val, i.rx)
    ensures TraceOk(Next(f, i), rounds)
  {
    var g := Next(f, i);
    assert g.sent == Polls(2 * rounds + g.retries);
  }

  /** Waiting for the first reply: a second silence starts a new round. */
  lemma TryTrace(f: Fw, i: Input, rounds: nat)
    requires f.conn == TrySerialLink && TraceOk(f, rounds) && Usable(f, i.visit, i.val, i.rx)
    ensures TraceOk(Next(f, i), if Next(f, i).conn == Init then rounds + 1 else rounds)
  {
    var g := Next(f, i);
    assert g.sent == f.sent && g.conn in {Init, LinkConnecting, Bootloader, LinkConnected, TrySerialLink};
    assert f.sent == Polls(|f.sent| - 0) + LOAD_SEQUENCE[..0];
  }

  lemma StepTrace(f: Fw, i: Input, rounds: nat) returns (rounds': nat)
    requires f.com == WbmCommunicating && TraceOk(f, rounds) && Usable(f, i.visit, i.val, i.rx)
    ensures TraceOk(Next(f, i), rounds') && (rounds' == rounds || rounds' == rounds + 1)
  {
    var g := Next(f, i);
    rounds' := rounds;
    if f.conn == TrySerialLink {
      TryTrace(f, i, rounds);
      if g.conn == Init { rounds' := rounds + 1; }
    } else if f.conn == LinkConnecting {
      PollTrace(f, i, rounds);
    } else if g.sent != f.sent {
      AskShape(f, i);
      AskTrace(f, g, i.visit.start, rounds);
    } else {
      OtherTrace(f, i, rounds);
    }
  }

  /** A state other than LinkConnecting that sends, asks for the next section or the closing poll. */
  lemma AskShape(f: Fw, i: Input)
    requires f.conn != LinkConnecting && Usable(f, i.visit, i.val, i.rx) && Next(f, i).sent != f.sent
    requires f.conn == LinkConnected || f.foundLink || !InLoad(f.conn)
    ensures var g := Next(f, i);
            && (f.conn == LinkConnected || Loads(f.conn))
            && g == Ask(f.(mirror := g.mirror, foundLink := true), i.visit.start)
  {
    if Loads(f.conn) { ConnectLoads(f, i.visit, i.val, i.rx, i.boot); }
  }

  lemma OtherTrace(f: Fw, i: Input, rounds: nat)
    requires f.conn != TrySerialLink && f.conn != LinkConnecting && TraceOk(f, rounds)
    requires Usable(f, i.visit, i.val, i.rx) && Next(f, i).sent == f.sent
    ensures TraceOk(Next(f, i), rounds)
  {
    SilentStep(f, i);
  }

  /** A state that sends nothing and is not looking for the link stays where it is in the order. */
  lemma SilentStep(f: Fw, i: Input)
    requires f.conn != TrySerialLink && f.conn != LinkConnecting
    requires Usable(f, i.visit, i.val, i.rx) && Next(f, i).sent == f.sent
    ensures var g := Next(f, i);
            && g.slow == f.slow && g.foundLink == f.foundLink && (g.retries == f.retries || g.retries == 0)
            && (g.conn == f.conn || (f.conn == Init && g.conn == LinkConnecting && g.retries == 0)
                || (f.conn == PollingBase && g.conn == Connected))
            && (g.conn == f.conn && !InLoad(f.conn) ==> g == f)
  {
  }

  /** From power-up, whatever is read: rounds of two polls, each unanswered round followed by a
      restart at 9600 baud, then one or two polls, then the six section reads in order, then a
      poll; never more than two retries. */
  lemma {:induction false} FramesInOrder(f: Fw, inputs: seq<Input>, rounds: nat) returns (rounds': nat)
    requires TraceOk(f, rounds) && Accepted(f, inputs)
    ensures TraceOk(RunOf(f, inputs), rounds')
    decreases |inputs|
  {
    rounds' := rounds;
    if inputs != [] && f.com == WbmCommunicating {
      rounds' := StepTrace(f, inputs[0], rounds);
      rounds' := FramesInOrder(Next(f, inputs[0]), inputs[1..], rounds');
    }
  }

  /** So from power-up the frames sent are `polls` polls and then the first `asked` frames of the
      load sequence: polls in whole rounds of two while no link is found, one or two in the round
      that finds it, and no frame but these. */
  lemma {:induction false} FramesFromPowerUp(f: Fw, inputs: seq<Input>) returns (rounds: nat, polls: nat, asked: nat)
    requires f.conn == Init && f.retries == 0 && !f.foundLink && !f.slow && f.sent == [] && Accepted(f, inputs)
    ensures var g := RunOf(f, inputs);
            && asked <= 7 && g.sent == Polls(polls) + LOAD_SEQUENCE[..asked]
            && g.retries <= 2 && (g.slow <==> rounds > 0)
            && 2 * rounds <= polls <= 2 * rounds + 2
            && (InLoad(g.conn) ==> asked == Step(g.conn) && polls > 2 * rounds)
            && (!InLoad(g.conn) ==> asked == 0)
  {
    rounds := FramesInOrder(f, inputs, 0);
    var g := RunOf(f, inputs);
    asked := if InLoad(g.conn) then Step(g.conn) else 0;
    polls := |g.sent| - asked;
    assert LOAD_SEQUENCE[..0] == [];
  }

  // ---- How long it takes once the link is found ----

  /** A call that takes at most `d` ms from its timeout test to the restart of the timer, delays and
      transmission included, and comes less than 2^32 - 15000 - d ms after `t`. */
  predicate Prompt(v: Visit<nat>, t: nat, d: nat) {
    && t <= v.test.first <= v.test.second <= v.start <= v.test.first + d
    && v.test.second < t + WORD32 - TIMEOUT_MS - d
  }

  /** `times`: the true times of the calls. */
  predicate Timely(inputs: seq<Input>, times: seq<Visit<nat>>, t: nat, d: nat)
    decreases |inputs|
  {
    && |inputs| == |times|
    && (inputs != [] ==>
      && Prompt(times[0], t, d) && inputs[0].visit == Shown(times[0])
      && Timely(inputs[1..], times[1..], times[0].start, d))
  }

  function Shown(v: Visit<nat>): Visit<U32> {
    Visit(Test(v.test.first % WORD32, v.test.second % WORD32), v.start % WORD32)
  }

  /** The load began at `start`, the present state was entered at `q`, the last call ended at `t`:
      every state so far, the present one included, has taken less than 15 s and `d`. */
  predicate OnTime(f: Fw, start: nat, q: nat, t: nat, d: nat) {
    && f.com == WbmCommunicating && InLoad(f.conn) && f.conn != LinkConnected
    && f.timeoutT == q % WORD32 && start <= q <= t
    && (q == start || q - start < (TIMEOUT_MS + d) * (Rank(f.conn) - 1))
    && (f.conn == Connected || t - q < TIMEOUT_MS + d)
  }

  /** One call of a waiting state. */
  lemma WaitShape(f: Fw, i: Input)
    requires f.com == WbmCommunicating && InLoad(f.conn) && f.conn != LinkConnected && f.conn != Connected
    requires Usable(f, i.visit, i.val, i.rx)
    ensures var g := Next(f, i);
            if Elapsed(i.visit.test, f.timeoutT, TIMEOUT_MS) then g.com == WbmError
            else
              && g.com == f.com
              && (g == f || (InLoad(g.conn) && g.conn != LinkConnected && Rank(g.conn) == Rank(f.conn) + 1
                             && g.timeoutT == i.visit.start))
  {
    if Loads(f.conn) { LoadTarget(f.conn); }
  }

  lemma Stretched(a: int, b: int, n: nat, k: nat)
    requires a < k * n && b < k && k > 0
    ensures a + b < k * (n + 1)
  {
  }

  lemma StepOnTime(f: Fw, i: Input, start: nat, q: nat, t: nat, v: Visit<nat>, d: nat) returns (q': nat)
    requires OnTime(f, start, q, t, d) && Usable(f, i.visit, i.val, i.rx) && i.visit == Shown(v)
    requires Prompt(v, t, d)
    ensures var g := Next(f, i);
            g.com == WbmError || g.com == WbmConnected || OnTime(g, start, q', v.start, d)
  {
    q' := q;
    if f.conn != Connected {
      Timing.ElapsedExactly(q, v.test.first, v.test.second, TIMEOUT_MS);
      WaitShape(f, i);
      if Next(f, i) != f {
        q' := v.start;
        if !Elapsed(i.visit.test, f.timeoutT, TIMEOUT_MS) { NextOnTime(start, q, v, d, Rank(f.conn)); }
      }
    }
  }

  /** The bound after one more state. */
  lemma NextOnTime(start: nat, q: nat, v: Visit<nat>, d: nat, rank: nat)
    requires rank >= 1 && q <= v.start <= v.test.first + d && v.test.first - q < TIMEOUT_MS
    requires q == start || (q > start && q - start < (TIMEOUT_MS + d) * (rank - 1))
    ensures v.start == start || v.start - start < (TIMEOUT_MS + d) * rank
  {
    Scaled(TIMEOUT_MS + d, 1, rank);
    if q != start { Stretched(q - start, v.start - q, rank - 1, TIMEOUT_MS + d); }
  }

  /** Asking for the first section starts the load, when that request has gone out. */
  lemma LoadStarts(f: Fw, i: Input, v: Visit<nat>, d: nat)
    requires f.com == WbmCommunicating && f.conn == LinkConnected && Usable(f, i.visit, i.val, i.rx)
    requires i.visit == Shown(v)
    ensures OnTime(Next(f, i), v.start, v.start, v.start, d)
  {
  }

  /** Whatever is read, the run is over, in Connected or in the error state, one call after seven
      waits of 15 s and seven times `d` have passed since the first section was asked for. */
  lemma {:induction false} LoadEnds(f: Fw, inputs: seq<Input>, times: seq<Visit<nat>>,
                                    start: nat, q: nat, t: nat, d: nat)
    requires OnTime(f, start, q, t, d) && Accepted(f, inputs) && Timely(inputs, times, t, d)
    requires |times| >= 2 && times[|times| - 2].start >= start + 7 * (15000 + d)
    ensures RunOf(f, inputs).com == WbmConnected || RunOf(f, inputs).com == WbmError
    decreases |inputs|
  {
    var g := Next(f, inputs[0]);
    var q' := StepOnTime(f, inputs[0], start, q, t, times[0], d);
    if g.com == WbmCommunicating {
      assert RunOf(f, inputs) == RunOf(g, inputs[1..]);
      if |inputs| == 2 {
        LastCall(g, inputs[1..], start, q', times[0].start, d);
      } else {
        LoadEnds(g, inputs[1..], times[1..], start, q', times[0].start, d);
      }
    } else {
      assert RunOf(f, inputs) == RunOf(g, inputs[1..]) == g;
    }
  }

  lemma SevenWaits(g: Fw, start: nat, q: nat, t: nat, d: nat)
    requires OnTime(g, start, q, t, d)
    ensures g.conn == Connected || t - start < 7 * (TIMEOUT_MS + d)
  {
    if g.conn != Connected { Scaled(TIMEOUT_MS + d, Rank(g.conn) - 1, 6); }
  }

  /** By then the only state left is the one that enters Connected. */
  lemma LastCall(g: Fw, inputs: seq<Input>, start: nat, q: nat, t: nat, d: nat)
    requires OnTime(g, start, q, t, d) && t >= start + 7 * (TIMEOUT_MS + d) && |inputs| == 1 && Accepted(g, inputs)
    ensures RunOf(g, inputs).com == WbmConnected
  {
    SevenWaits(g, start, q, t, d);
    assert RunOf(g, inputs) == RunOf(Next(g, inputs[0]), inputs[1..]) == Next(g, inputs[0]);
  }
}
