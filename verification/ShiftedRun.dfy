/** A run from power-up in which the first poll is answered late: the unit answers every request
    once and in order, nothing is lost, and the mirror is loaded wrongly. There is one for every
    unit and every initial mirror. */
module ShiftedRun {
  import opened Bytes
  import opened EepromLayout
  import opened Codec
  import opened Requests
  import opened Firmware
  import opened Handshake
  import opened HandshakeShift
  import HandshakeTrace
  import HL = HandshakeLoad
  import UM = UnitModel

  /** A receive buffer that carries a reply to a poll or a read. */
  function BufferOf(r: UM.Reply): (rx: seq<Byte>)
    requires r.PollReply? || (r.ReadReply? && |r.data| == Count(r.section))
    ensures |rx| == SERIAL_BUFFER
  {
    match r
    case PollReply(c) =>
      Zeros(SERIAL_BUFFER)[TYPE_COMMAND := COMMAND_POLLING_BASE]
        [IRSP_CNT_UPDATE_EEP_INFO := c.info][IRSP_CNT_UPDATE_EEP_INFO + 1 := c.settingPar]
        [IRSP_CNT_UPDATE_EEP_INFO + 2 := c.setTemp][IRSP_CNT_UPDATE_EEP_INFO + 3 := c.dayProg]
    case ReadReply(s, data) =>
      Splice(Zeros(SERIAL_BUFFER)[TYPE_COMMAND := COMMAND_READ_EEPROM]
               [ADDR_BYTE_START_EEP := Start(s)][ADDR_NUM_BYTE_EEP := Count(s)],
             START_DATA_EEPROM, data)
  }

  lemma BufferCarries(r: UM.Reply)
    requires r.PollReply? || (r.ReadReply? && |r.data| == Count(r.section))
    ensures UM.Carries(2, BufferOf(r), r)
    ensures BufferOf(r)[ADDR_NUM_BYTE_EEP] == if r.PollReply? then 0 else Count(r.section)
  {
  }

  /** The request sent before the one the state awaits. */
  function Earlier(c: ConnectState): Request {
    match c
    case ReadConfiguration => Read(Info)
    case ReadSettingPar => Read(Configuration)
    case ReadSetTemp => Read(SettingPar)
    case ReadDayProg => Read(SetTemp)
    case ReadHWSetting => Read(DayProg)
    case PollingBase => Read(HWSetting)
    case _ => Poll
  }

  const T: U32 := TIMEOUT_MS

  const AT_T: Visit<U32> := Visit(Test(T, T), T)

  /** A waiting state of the load with two requests unanswered, its own and the one before. */
  predicate OneBehind(h: HSys) {
    && h.fw.com == WbmCommunicating && (Loads(h.fw.conn) || h.fw.conn == PollingBase)
    && h.fw.timeoutT == T && |h.rx| == SERIAL_BUFFER
    && h.replies == [] && h.pending == [Earlier(h.fw.conn), Awaited(h.fw.conn)]
  }

  /** The unit answers the older one, and the state takes that answer. */
  function Pair(h: HSys): seq<Event>
    requires OneBehind(h)
  {
    [UnitServe, Call(AT_T, 2, BufferOf(UM.Answer(h.unit, h.pending[0])), false)]
  }

  lemma EarlierFits(c: ConnectState, unit: Image)
    requires Loads(c)
    ensures LoadInBounds(c, BufferOf(UM.Answer(unit, Earlier(c))))
  {
    BufferCarries(UM.Answer(unit, Earlier(c)));
  }

  /** The second half of the pair, in a load state. */
  lemma TakesEarlier(h: HSys, r: UM.Reply)
    requires OneBehind(h) && r == UM.Answer(h.unit, h.pending[0]) && Loads(h.fw.conn)
    ensures var y := h.(pending := [Awaited(h.fw.conn)], replies := [r]);
            var e := Call(AT_T, 2, BufferOf(r), false);
            && Enabled(y, e)
            && var z := Handshake.Step(y, e);
               OneBehind(z) && Rank(z.fw.conn) == Rank(h.fw.conn) + 1
  {
    var y := h.(pending := [Awaited(h.fw.conn)], replies := [r]);
    BufferCarries(r);
    EarlierFits(h.fw.conn, h.unit);
    TakesShape(y, Call(AT_T, 2, BufferOf(r), false));
    LoadTarget(h.fw.conn);
    OneBehindAgain(h.fw.conn);
  }

  /** And in the state that awaits the closing poll. */
  lemma TakesLastSection(h: HSys, r: UM.Reply)
    requires OneBehind(h) && r == UM.Answer(h.unit, h.pending[0]) && h.fw.conn == PollingBase
    ensures var y := h.(pending := [Poll], replies := [r]);
            var e := Call(AT_T, 2, BufferOf(r), false);
            && Enabled(y, e)
            && var z := Handshake.Step(y, e);
               z.fw.com == WbmCommunicating && z.fw.conn == Connected && |z.rx| == SERIAL_BUFFER
  {
    BufferCarries(r);
  }

  lemma ServesEarlier(h: HSys)
    requires OneBehind(h)
    ensures Enabled(h, UnitServe)
    ensures Handshake.Step(h, UnitServe) ==
            h.(pending := [Awaited(h.fw.conn)], replies := [UM.Answer(h.unit, h.pending[0])])
  {
  }

  /** What the pair leads to: the next state, again one behind, or the last. */
  predicate MovedOn(h: HSys, z: HSys) {
    && z.fw.com == WbmCommunicating && Rank(z.fw.conn) == Rank(h.fw.conn) + 1
    && (OneBehind(z) || (z.fw.conn == Connected && |z.rx| == SERIAL_BUFFER))
  }

  lemma PairTakes(h: HSys, y: HSys, e: Event)
    requires OneBehind(h)
    requires var r := UM.Answer(h.unit, h.pending[0]);
             y == h.(pending := [Awaited(h.fw.conn)], replies := [r]) && e == Call(AT_T, 2, BufferOf(r), false)
    ensures Enabled(y, e) && MovedOn(h, Handshake.Step(y, e))
  {
    var r := UM.Answer(h.unit, h.pending[0]);
    if Loads(h.fw.conn) { TakesEarlier(h, r); } else { TakesLastSection(h, r); }
  }

  lemma TwoSteps(h: HSys, a: Event, b: Event)
    requires (a.UnitServe? || a.Call?) && (b.UnitServe? || b.Call?)
    requires Enabled(h, a) && Enabled(Handshake.Step(h, a), b)
    ensures Possible(h, [a, b]) && Faithful([a, b]) && Run(h, [a, b]) == Handshake.Step(Handshake.Step(h, a), b)
  {
    OneStep(h, a);
    OneStep(Handshake.Step(h, a), b);
    Joined(h, [a], [b]);
    assert [a, b] == [a] + [b];
  }

  lemma PairRuns(h: HSys)
    requires OneBehind(h)
    ensures Possible(h, Pair(h)) && Faithful(Pair(h)) && MovedOn(h, Run(h, Pair(h)))
  {
    var e := Pair(h)[1];
    ServesEarlier(h);
    PairTakes(h, Handshake.Step(h, UnitServe), e);
    TwoSteps(h, UnitServe, e);
  }

  lemma OneBehindAgain(c: ConnectState)
    requires Loads(c)
    ensures var (r, d) := Following(c);
            Earlier(d) == Awaited(c) && Awaited(d) == r && (Loads(d) || d == PollingBase)
  {
  }

  lemma Joined(h: HSys, a: seq<Event>, b: seq<Event>)
    requires Possible(h, a) && Faithful(a) && Possible(Run(h, a), b) && Faithful(b)
    ensures Possible(h, a + b) && Faithful(a + b) && Run(h, a + b) == Run(Run(h, a), b)
  {
    RunSplits(h, a, b);
  }

  lemma {:induction false} BehindToTheEnd(h: HSys) returns (events: seq<Event>)
    requires OneBehind(h)
    ensures Possible(h, events) && Faithful(events)
    ensures var z := Run(h, events);
            z.fw.com == WbmCommunicating && z.fw.conn == Connected && |z.rx| == SERIAL_BUFFER
    decreases 8 - Rank(h.fw.conn)
  {
    PairRuns(h);
    events := Pair(h);
    var z := Run(h, events);
    if z.fw.conn != Connected {
      var rest := BehindToTheEnd(z);
      Joined(h, events, rest);
      events := events + rest;
    }
  }

  // ---- From power-up ----

  predicate PoweredUp(h: HSys) {
    && h.fw.com == WbmCommunicating && h.fw.conn == Init && h.fw.sent == [] && !h.fw.foundLink
    && h.fw.timeoutT == 0 && |h.rx| == SERIAL_BUFFER && h.pending == [] && h.replies == []
  }

  const AT_0: Visit<U32> := Visit(Test(0, 0), 0)

  function Silent(v: Visit<U32>, rx: seq<Byte>): Event {
    Call(v, BUFFER_RX_EMPTY, rx, false)
  }

  /** Start, poll, fifteen seconds of silence, and a second poll. */
  function TwoPolls(h: HSys): seq<Event> {
    [Silent(AT_0, h.rx), Silent(AT_0, h.rx), Silent(AT_T, h.rx), Silent(AT_T, h.rx)]
  }

  lemma StartStep(h: HSys)
    requires PoweredUp(h)
    ensures var e := Silent(AT_0, h.rx);
            Enabled(h, e) && Handshake.Step(h, e) == h.(fw := h.fw.(conn := LinkConnecting, retries := 0))
  {
  }

  lemma PollStep(h: HSys, v: Visit<U32>)
    requires h.fw.com == WbmCommunicating && h.fw.conn == LinkConnecting && |h.rx| == SERIAL_BUFFER
    requires h.fw.retries < 2 && !h.fw.foundLink
    ensures var e := Silent(v, h.rx);
            && Enabled(h, e)
            && Handshake.Step(h, e) ==
               h.(fw := h.fw.(conn := TrySerialLink, retries := h.fw.retries + 1, timeoutT := v.start,
                              sent := h.fw.sent + [Poll]),
                  pending := h.pending + [Poll])
  {
  }

  lemma LateStep(h: HSys)
    requires h.fw.com == WbmCommunicating && h.fw.conn == TrySerialLink && |h.rx| == SERIAL_BUFFER
    requires h.fw.retries == 1 && h.fw.timeoutT == 0
    ensures var e := Silent(AT_T, h.rx);
            Enabled(h, e) && Handshake.Step(h, e) == h.(fw := h.fw.(conn := LinkConnecting, timeoutT := T))
  {
  }

  lemma TwoPollsRun(h: HSys)
    requires PoweredUp(h)
    ensures Possible(h, TwoPolls(h)) && Faithful(TwoPolls(h))
    ensures Run(h, TwoPolls(h)) ==
            h.(fw := h.fw.(conn := TrySerialLink, retries := 2, sent := [Poll, Poll], timeoutT := T),
               pending := [Poll, Poll])
  {
    var a, b := Silent(AT_0, h.rx), Silent(AT_T, h.rx);
    StartStep(h);
    var h1 := Handshake.Step(h, a);
    PollStep(h1, AT_0);
    var h2 := Handshake.Step(h1, a);
    LateStep(h2);
    var h3 := Handshake.Step(h2, b);
    PollStep(h3, AT_T);
    FourSteps(h, a, a, b, b);
    assert TwoPolls(h) == [a] + [a] + [b] + [b];
  }

  lemma FourSteps(h: HSys, a: Event, b: Event, c: Event, d: Event)
    requires a.Call? && b.Call? && c.Call? && d.Call? && Enabled(h, a)
    requires var h1 := Handshake.Step(h, a);
             && Enabled(h1, b)
             && var h2 := Handshake.Step(h1, b);
                && Enabled(h2, c)
                && Enabled(Handshake.Step(h2, c), d)
    ensures var e := [a] + [b] + [c] + [d];
            && Possible(h, e) && Faithful(e)
            && Run(h, e) == Handshake.Step(Handshake.Step(Handshake.Step(Handshake.Step(h, a), b), c), d)
  {
    var h1 := Handshake.Step(h, a);
    var h2 := Handshake.Step(h1, b);
    OneStep(h, a);
    OneStep(h1, b);
    Joined(h, [a], [b]);
    OneStep(h2, c);
    Joined(h, [a] + [b], [c]);
    OneStep(Handshake.Step(h2, c), d);
    Joined(h, [a] + [b] + [c], [d]);
  }

  lemma OneStep(h: HSys, e: Event)
    requires Enabled(h, e)
    ensures Possible(h, [e]) && Run(h, [e]) == Handshake.Step(h, e)
  {
    assert [e][1..] == [];
    assert Possible(Handshake.Step(h, e), []);
  }

  /** The first poll's answer finds the link, with the second poll unanswered. */
  lemma LateAnswerFindsLink(h: HSys) returns (events: seq<Event>)
    requires PoweredUp(h)
    ensures Possible(h, events) && Faithful(events)
    ensures var z := Run(h, events);
            && z.fw.com == WbmCommunicating && z.fw.conn == LinkConnected && z.fw.timeoutT == T
            && z.pending == [Poll] && z.replies == [] && |z.rx| == SERIAL_BUFFER
            && z.unit == h.unit && z.fw.mirror == h.fw.mirror
  {
    TwoPollsRun(h);
    var y := Run(h, TwoPolls(h));
    var r := UM.Answer(y.unit, Poll);
    var y1 := y.(pending := [Poll], replies := [r]);
    var e := Call(AT_T, 2, BufferOf(r), false);
    BufferCarries(r);
    assert Handshake.Step(y, UnitServe) == y1;
    assert Handshake.Step(y1, e) == y1.(fw := y.fw.(conn := LinkConnected), rx := BufferOf(r), replies := []);
    OneStep(y, UnitServe);
    OneStep(y1, e);
    Joined(y, [UnitServe], [e]);
    Joined(h, TwoPolls(h), [UnitServe] + [e]);
    events := TwoPolls(h) + ([UnitServe] + [e]);
  }

  /** The first section is asked for with that poll still unanswered. */
  lemma AskedBehind(y: HSys)
    requires y.fw.com == WbmCommunicating && y.fw.conn == LinkConnected && |y.rx| == SERIAL_BUFFER
    requires y.pending == [Poll] && y.replies == []
    ensures var e := Silent(AT_T, y.rx);
            Enabled(y, e) && OneBehind(Handshake.Step(y, e))
  {
    assert Handshake.Step(y, Silent(AT_T, y.rx)) ==
           y.(fw := Ask(y.fw.(foundLink := true), T), pending := [Poll, Read(Info)]);
  }

  /** From where the link was found to Connected. */
  lemma BehindFromLink(y: HSys) returns (events: seq<Event>, last: Event)
    requires y.fw.com == WbmCommunicating && y.fw.conn == LinkConnected && |y.rx| == SERIAL_BUFFER
    requires y.pending == [Poll] && y.replies == []
    ensures CompletesWith(y, 1, events, last) && Faithful(events)
  {
    var e := Silent(AT_T, y.rx);
    AskedBehind(y);
    OneStep(y, e);
    var rest := BehindToTheEnd(Handshake.Step(y, e));
    Joined(y, [e], rest);
    events := [e] + rest;
    FaithfulLosesNothing(events);
    last := Silent(AT_T, Run(y, events).rx);
  }

  /** For every unit and every initial mirror: a run from power-up that loses nothing and changes
      nothing, enters Connected with a poll unanswered, and leaves in bytes 59..143 of the mirror
      the unit's DayProg bytes 153..237. */
  lemma {:induction false} LateAnswerSpoilsLoad(h: HSys)
    returns (found: seq<Event>, load: seq<Event>, last: Event)
    requires PoweredUp(h)
    ensures Possible(h, found + load) && Faithful(found + load) && Enabled(Run(h, found + load), last)
    ensures var z := Handshake.Step(Run(h, found + load), last);
            && z.fw.com == WbmConnected && z.unit == h.unit && |z.pending| + |z.replies| == 1
            && (forall i | 59 <= i < 144 :: z.fw.mirror[i] == h.unit[i + 94])
  {
    found := LateAnswerFindsLink(h);
    var y := Run(h, found);
    load, last := BehindFromLink(y);
    FaithfulLosesNothing(load);
    var poll := RightAfterOneExactly(y, load, last);
    var _, _ := EachTakesEarlierAnswer(y, 1, load, last);
    Joined(h, found, load);
    var z := Handshake.Step(Run(h, found + load), last);
    forall i | 59 <= i < 144
      ensures z.fw.mirror[i] == h.unit[i + 94]
    {
      assert z.fw.mirror[i] == ByteAfterOne(y.fw.mirror, y.unit, poll, i);
    }
  }
}
