/** The three ways to lose a section, each as a run of firmware and unit from where the handshake leaves
    them: a rejected re-read, a rejected write and a refused write. */
module StaleSection {
  import opened Bytes
  import opened EepromLayout
  import opened Codec
  import opened Requests
  import opened Firmware
  import opened RequestMask
  import opened UnitModel
  import opened Coherence
  import Simulation
  import SC = SectionCell
  import HS = Handshake
  import HL = HandshakeLoad

  /** Every reading at `t`. */
  function AllAt(t: U32): Readings {
    Clock(Test(t, t), t, t, t, Test(t, t), t, t, Test(t, t), t)
  }

  /** No timer is due at `t`. */
  predicate Quiet(f: Fw, t: U32) {
    f.com == WbmConnected && f.pollT == f.debugT == t && f.timeoutT <= t < f.timeoutT + TIMEOUT_MS
  }

  lemma QuietTimers(f: Fw, t: U32)
    requires Quiet(f, t)
    ensures Timers(f, AllAt(t)) == f
  {
  }

  const REFUSED: Byte := '1' as int

  /** A receive buffer with a write reply that carries the counters `c`. */
  function AckBuffer(c: Counters, accepted: bool): (rx: seq<Byte>)
    ensures |rx| == SERIAL_BUFFER
  {
    Zeros(SERIAL_BUFFER)[TYPE_COMMAND := COMMAND_WRITE_EEPROM]
      [IRSW_RESULT_W := if accepted then WRITE_OK else REFUSED]
      [IRSW_CNT_UPDATE_EEP_INFO := c.info][IRSW_CNT_UPDATE_EEP_INFO + 1 := c.settingPar]
      [IRSW_CNT_UPDATE_EEP_INFO + 2 := c.setTemp][IRSW_CNT_UPDATE_EEP_INFO + 3 := c.dayProg]
  }

  lemma AckCarries(c: Counters, accepted: bool)
    ensures Carries(2, AckBuffer(c, accepted), WriteReply(c, accepted)) && Readable(2, AckBuffer(c, accepted))
  {
  }

  function Idle(t: U32): Event {
    Tick(AllAt(t), BUFFER_RX_EMPTY, Zeros(SERIAL_BUFFER))
  }

  function Acked(t: U32, c: Counters, accepted: bool): Event {
    Tick(AllAt(t), 2, AckBuffer(c, accepted))
  }

  function Rejected(t: U32): Event {
    Tick(AllAt(t), ERROR_CKSUM_16, Zeros(SERIAL_BUFFER))
  }

  // ---- The steps of the run ----

  /** The dispatcher's next request has gone out. */
  function NextSent(f: Fw): Fw
    requires Known(f.mask) && f.mask != {}
  {
    var (isRead, s) := Choice(f.mask);
    if isRead then SendsRead(f, s) else SendsWrite(f, s)
  }

  lemma IdleSends(y: Sys, t: U32)
    requires Quiet(y.fw, t) && !y.fw.busy && y.fw.mask != {} && Known(y.fw.mask)
    ensures Enabled(y, Idle(t))
    ensures UnitModel.Step(y, Idle(t)) == y.(fw := NextSent(y.fw))
  {
    QuietTimers(y.fw, t);
    DispatchSendsChoice(y.fw);
  }

  lemma RejectedSends(y: Sys, t: U32)
    requires Quiet(y.fw, t) && y.fw.mask != {} && Known(y.fw.mask)
    ensures Enabled(y, Rejected(t))
    ensures UnitModel.Step(y, Rejected(t)) == y.(fw := NextSent(y.fw.(busy := false)), reply := None)
  {
    QuietTimers(y.fw, t);
    DispatchSendsChoice(y.fw.(busy := false));
  }

  /** The firmware after a write reply with the counters `c`, before it sends again. */
  function AfterAck(f: Fw, t: U32, c: Counters): Fw {
    f.(timeoutT := t, mask := Raised(f.mask, f.mirror, c), mirror := WithCounters(f.mirror, c), busy := false)
  }

  lemma AckSends(y: Sys, t: U32, c: Counters, accepted: bool)
    requires Quiet(y.fw, t) && y.reply == Some(WriteReply(c, accepted)) && Known(y.fw.mask) && y.fw.mask != {}
    ensures Known(Raised(y.fw.mask, y.fw.mirror, c)) && Raised(y.fw.mask, y.fw.mirror, c) != {}
    ensures Enabled(y, Acked(t, c, accepted))
    ensures UnitModel.Step(y, Acked(t, c, accepted)) == y.(fw := NextSent(AfterAck(y.fw, t, c)), reply := None)
  {
    QuietTimers(y.fw, t);
    AckCarries(c, accepted);
    RaisedBits(y.fw.mask, y.fw.mirror, c, Info);
    Simulation.AckShape(y, t, 2, AckBuffer(c, accepted));
    assert HandleResult(y.fw, t, 2, AckBuffer(c, accepted)) == AfterAck(y.fw, t, c);
    assert Raised(y.fw.mask, y.fw.mirror, c) >= y.fw.mask;
    DispatchSendsChoice(AfterAck(y.fw, t, c));
  }

  /** Serving a write of what the unit holds, with the counter it has, leaves the unit as it is. */
  lemma SameWriteServed(y: Sys, s: Section, data: seq<Byte>)
    requires y.fw.com == WbmConnected && y.fw.busy && y.fw.sent != [] && y.reply.None? && Counted(s)
    requires Last(y.fw) == Write(s, data) && data == Content(y.unit, s)
    ensures var e := UnitServe(Counter(y.unit, s));
            Enabled(y, e) && UnitModel.Step(y, e) == y.(reply := Some(WriteReply(CountersOf(y.unit), true)))
  {
    var stored := Stored(y.unit, s, data, Counter(y.unit, s));
    assert data[Count(s) - 1 := Counter(y.unit, s)] == data;
    assert stored == y.unit;
  }

  // ---- The run ----

  /** Where the handshake leaves a quiet system: everything equal, nothing pending, no timer due. */
  predicate Fresh(y: Sys, t: U32) {
    && Quiet(y.fw, t) && !y.fw.busy && y.fw.mask == {} && y.reply == None
    && forall s | Counted(s) :: Content(y.fw.mirror, s) == Content(y.unit, s)
  }

  lemma EntersQuiet(h: HS.HSys, e: HS.Event)
    requires HS.Enabled(h, e) && e.Call? && h.fw.conn == Connected
    requires h.fw.timeoutT <= e.visit.start < h.fw.timeoutT + TIMEOUT_MS
    ensures Quiet(HS.Step(h, e).fw, e.visit.start)
  {
  }

  lemma SectionLoaded(h: HS.HSys, events: seq<HS.Event>, last: HS.Event, z: HS.HSys, s: Section)
    requires HL.Completes(h, events, last) && HL.QuietLoad(events) && h.fw.mask == {}
    requires z == HS.Step(HS.Run(h, events), last)
    ensures Content(z.fw.mirror, s) == Content(z.unit, s) && !z.fw.busy
  {
    HL.QuietSection(h, events, last, s);
    HL.HandshakeLoads(h, events, last, s);
    HL.QuietUnit(s, h, events, HL.UNREAD, HS.BaseOf(h.fw));
  }

  /** Such a state is reached by every handshake with a quiet unit and app, if the last two calls are less
      than 15 seconds apart and the clock does not wrap between them. */
  lemma {:induction false} HandshakeLeavesFresh(h: HS.HSys, events: seq<HS.Event>, last: HS.Event, m: HS.HSys)
    requires HL.Completes(h, events, last) && HL.QuietLoad(events) && h.fw.mask == {}
    requires m == HS.Run(h, events)
    requires last.Call? && m.fw.timeoutT <= last.visit.start < m.fw.timeoutT + TIMEOUT_MS
    ensures var z := HS.Step(m, last);
            Fresh(Sys(z.fw, z.unit, None), last.visit.start)
  {
    var z := HS.Step(m, last);
    HL.QuietUnitIsLoaded(h, events, last);
    HL.CompletesFromConnected(Info, h, events, last);
    EntersQuiet(m, last);
    forall s: Section
      ensures Content(z.fw.mirror, s) == Content(z.unit, s) && !z.fw.busy
    {
      SectionLoaded(h, events, last, z, s);
    }
    SectionLoaded(h, events, last, z, Info);
  }

  lemma CountersAfterChange(unit: Image, data: seq<Byte>)
    requires |data| == Count(Info)
    ensures var after := Changed(unit, Info, data);
            && CountersOf(after) == CountersOf(unit).(info := (Counter(unit, Info) + 1) % 256)
            && Content(after, SettingPar) == Content(unit, SettingPar)
            && Content(after, Info) == SC.Marked(data, (Counter(unit, Info) + 1) % 256)
  {
    Simulation.StoredCell(unit, Info, data, ChangeCounter(unit, Info), Info);
    Simulation.StoredCell(unit, Info, data, ChangeCounter(unit, Info), SettingPar);
    Simulation.StoredCell(unit, Info, data, ChangeCounter(unit, Info), SetTemp);
    Simulation.StoredCell(unit, Info, data, ChangeCounter(unit, Info), DayProg);
    Simulation.CounterIsLast(unit, Info);
  }

  // The states after the second, fourth, sixth, seventh and ninth event.

  function WriteOut(f: Fw, m: Mask, s: Section): Fw {
    f.(mask := m, busy := true, sent := f.sent + [Write(s, Content(f.mirror, s))])
  }

  function FirstWrite(y: Sys): Sys {
    y.(fw := WriteOut(y.fw, {12, 13, 14, 15}, Info))
  }

  function SecondWrite(y: Sys, t: U32): Sys {
    y.(fw := WriteOut(FirstWrite(y).fw.(timeoutT := t), {13, 14, 15}, SettingPar))
  }

  function ChangedServed(y: Sys, t: U32, data: seq<Byte>): Sys
    requires |data| == Count(Info)
  {
    var after := Changed(y.unit, Info, data);
    SecondWrite(y, t).(unit := after, reply := Some(WriteReply(CountersOf(after), true)))
  }

  function ReRead(y: Sys, t: U32, data: seq<Byte>): Sys
    requires |data| == Count(Info)
  {
    var z := ChangedServed(y, t, data);
    z.(fw := z.fw.(mirror := WithCounters(z.fw.mirror, CountersOf(z.unit)), sent := z.fw.sent + [Read(Info)]),
       reply := None)
  }

  function Stale(y: Sys, t: U32, data: seq<Byte>): Sys
    requires |data| == Count(Info)
  {
    var z := ReRead(y, t, data);
    z.(fw := WriteOut(z.fw, {14, 15}, SetTemp))
  }

  /** A run of `events`, none of which is a rejected message, from `y` to `z`. */
  ghost predicate Leads(y: Sys, events: seq<Event>, z: Sys) {
    Possible(y, events) && Run(y, events) == z && forall e | e in events :: e.Tick? ==> e.val >= 0
  }

  /** One event before a run. */
  lemma Before(y: Sys, e: Event, m: Sys, rest: seq<Event>, z: Sys) returns (events: seq<Event>)
    requires Enabled(y, e) && m == UnitModel.Step(y, e) && (e.Tick? ==> e.val >= 0) && Leads(m, rest, z)
    ensures events == [e] + rest && Leads(y, events, z)
  {
    events := [e] + rest;
    assert events[0] == e && events[1..] == rest;
  }

  /** The system with an app image in the mirror, its writes still pending. */
  function Edited(y: Sys, image: Image): Sys {
    y.(fw := y.fw.(mirror := image))
  }

  lemma ImageTaken(y: Sys, t: U32, image: Image)
    requires Fresh(y, t)
    ensures var e := AppImage(image);
            && Enabled(y, e)
            && UnitModel.Step(y, e) == y.(fw := y.fw.(mirror := image, mask := WRITE_BITS))
            && Enabled(UnitModel.Step(y, e), Idle(t))
            && UnitModel.Step(UnitModel.Step(y, e), Idle(t)) == FirstWrite(Edited(y, image))
  {
    var y1 := y.(fw := y.fw.(mirror := image, mask := WRITE_BITS));
    assert UnitModel.Step(y, AppImage(image)) == y1;
    IdleSends(y1, t);
    assert WRITE_BITS - {11} == {12, 13, 14, 15};
  }

  function FirstServed(y: Sys): Sys {
    FirstWrite(y).(reply := Some(WriteReply(CountersOf(y.unit), true)))
  }

  lemma FirstWriteServed(y: Sys, t: U32)
    requires Fresh(y, t)
    ensures var e := UnitServe(CountersOf(y.unit).info);
            Enabled(FirstWrite(y), e) && UnitModel.Step(FirstWrite(y), e) == FirstServed(y)
  {
    SameWriteServed(FirstWrite(y), Info, Content(y.fw.mirror, Info));
    Simulation.CounterIsLast(y.unit, Info);
  }

  lemma FourWritesLeft()
    ensures Choice({12, 13, 14, 15}) == (false, SettingPar)
    ensures {12, 13, 14, 15} - {12} == {13, 14, 15}
  {
  }

  lemma FirstWriteAcked(y: Sys, t: U32)
    requires Fresh(y, t)
    ensures var e := Acked(t, CountersOf(y.unit), true);
            Enabled(FirstServed(y), e) && UnitModel.Step(FirstServed(y), e) == SecondWrite(y, t)
  {
    var z, c := FirstServed(y), CountersOf(y.unit);
    SameCounters(y);
    NothingRaised(z.fw.mask, z.fw.mirror);
    FourWritesLeft();
    AckSends(z, t, c, true);
    assert AfterAck(z.fw, t, c) == z.fw.(timeoutT := t, busy := false);
  }

  lemma UnitChangesInfo(y: Sys, t: U32, data: seq<Byte>)
    requires Fresh(y, t) && |data| == Count(Info)
    ensures var e, d := UnitChange(Info, data), UnitServe(CountersOf(y.unit).settingPar);
            && Enabled(SecondWrite(y, t), e)
            && var y5 := SecondWrite(y, t).(unit := Changed(y.unit, Info, data));
               && UnitModel.Step(SecondWrite(y, t), e) == y5
               && Enabled(y5, d) && UnitModel.Step(y5, d) == ChangedServed(y, t, data)
  {
    var after := Changed(y.unit, Info, data);
    var y5 := SecondWrite(y, t).(unit := after);
    CountersAfterChange(y.unit, data);
    Simulation.CounterIsLast(after, SettingPar);
    assert UnitModel.Step(SecondWrite(y, t), UnitChange(Info, data)) == y5;
    SameWriteServed(y5, SettingPar, Content(y.fw.mirror, SettingPar));
  }

  lemma OnlyInfoRaised(e: Image, c: Counters)
    requires c == CountersOf(e).(info := (Counter(e, Info) + 1) % 256)
    ensures Raised({13, 14, 15}, e, c) == {0, 13, 14, 15}
  {
  }

  lemma InfoReRead(y: Sys, t: U32, data: seq<Byte>)
    requires Fresh(y, t) && |data| == Count(Info)
    ensures var e := Acked(t, CountersOf(Changed(y.unit, Info, data)), true);
            Enabled(ChangedServed(y, t, data), e)
            && UnitModel.Step(ChangedServed(y, t, data), e) == ReRead(y, t, data)
  {
    var z := ChangedServed(y, t, data);
    var c := CountersOf(z.unit);
    SameCounters(y);
    CountersAfterChange(y.unit, data);
    OnlyInfoRaised(z.fw.mirror, c);
    ThreeWritesLeft();
    AckSends(z, t, c, true);
  }

  lemma ThreeWritesLeft()
    ensures Choice({13, 14, 15}) == (false, SetTemp)
    ensures {13, 14, 15} - {13} == {14, 15}
    ensures Choice({0, 13, 14, 15}) == (true, Info)
    ensures {0, 13, 14, 15} - {0} == {13, 14, 15}
  {
  }

  function ReReadServed(y: Sys, t: U32, data: seq<Byte>): Sys
    requires |data| == Count(Info)
  {
    var z := ReRead(y, t, data);
    z.(reply := Some(ReadReply(Info, Content(z.unit, Info))))
  }

  lemma ReReadAnswered(y: Sys, t: U32, data: seq<Byte>)
    requires Fresh(y, t) && |data| == Count(Info)
    ensures Enabled(ReRead(y, t, data), UnitServe(0))
    ensures UnitModel.Step(ReRead(y, t, data), UnitServe(0)) == ReReadServed(y, t, data)
  {
  }

  lemma ReReadRejected(y: Sys, t: U32, data: seq<Byte>)
    requires Fresh(y, t) && |data| == Count(Info)
    ensures Enabled(ReReadServed(y, t, data), Rejected(t))
    ensures UnitModel.Step(ReReadServed(y, t, data), Rejected(t)) == Stale(y, t, data)
  {
    ThreeWritesLeft();
    RejectedSends(ReReadServed(y, t, data), t);
  }

  /** The change leaves everything but the counter as it was. */
  predicate OnlyCounts(y: Sys, data: seq<Byte>)
    requires |data| == Count(Info)
  {
    data[..Count(Info) - 1] == Content(y.unit, Info)[..Count(Info) - 1]
  }

  lemma MarkedApart(a: seq<Byte>, b: seq<Byte>, k: Byte)
    requires |a| == |b| > 0
    ensures SC.Marked(a, k) == SC.Marked(b, k) <==> a[..|a| - 1] == b[..|b| - 1]
  {
    assert SC.Marked(a, k)[..|a| - 1] == a[..|a| - 1] && SC.Marked(b, k)[..|b| - 1] == b[..|b| - 1];
    assert SC.Marked(a, k) == a[..|a| - 1] + [k] && SC.Marked(b, k) == b[..|b| - 1] + [k];
  }

  lemma StaleExactly(y: Sys, t: U32, data: seq<Byte>)
    requires Fresh(y, t) && |data| == Count(Info)
    ensures Stale(y, t, data).fw.com == WbmConnected
    ensures Coherent(Info, Stale(y, t, data)) <==> OnlyCounts(y, data)
  {
    var z := Stale(y, t, data);
    var k := (Counter(y.unit, Info) + 1) % 256;
    CountersAfterChange(y.unit, data);
    Simulation.CountersLanded(Info, y.fw.mirror, CountersOf(z.unit));
    assert Content(z.fw.mirror, Info) == SC.Marked(Content(y.unit, Info), k);
    assert Content(z.unit, Info) == SC.Marked(data, k);
    MarkedApart(Content(y.unit, Info), data, k);
    Simulation.CounterIsLast(z.fw.mirror, Info);
    Simulation.CounterIsLast(z.unit, Info);
  }

  /** An app image equal to the mirror: its writes of Info and SettingPar go out, and while the
      second is outstanding the unit changes Info; its write reply asks for a re-read. */
  lemma UpToReRead(y: Sys, t: U32, data: seq<Byte>) returns (events: seq<Event>)
    requires Fresh(y, t) && |data| == Count(Info)
    ensures Leads(y, events, ReReadServed(y, t, data))
  {
    var z := ReReadServed(y, t, data);
    ReReadAnswered(y, t, data);
    events := Before(ReRead(y, t, data), UnitServe(0), z, [], z);
    InfoReRead(y, t, data);
    var c := CountersOf(Changed(y.unit, Info, data));
    events := Before(ChangedServed(y, t, data), Acked(t, c, true), ReRead(y, t, data), events, z);
    events := UpToChange(y, t, data, events, z);
  }

  lemma UpToChange(y: Sys, t: U32, data: seq<Byte>, rest: seq<Event>, z: Sys) returns (events: seq<Event>)
    requires Fresh(y, t) && |data| == Count(Info) && Leads(ChangedServed(y, t, data), rest, z)
    ensures Leads(y, events, z)
  {
    var c := CountersOf(y.unit);
    var y1, y5 := y.(fw := y.fw.(mask := WRITE_BITS)), SecondWrite(y, t).(unit := Changed(y.unit, Info, data));
    UnitChangesInfo(y, t, data);
    events := Before(y5, UnitServe(c.settingPar), ChangedServed(y, t, data), rest, z);
    events := Before(SecondWrite(y, t), UnitChange(Info, data), y5, events, z);
    FirstWriteAcked(y, t);
    events := Before(FirstServed(y), Acked(t, c, true), SecondWrite(y, t), events, z);
    FirstWriteServed(y, t);
    events := Before(FirstWrite(y), UnitServe(c.info), FirstServed(y), events, z);
    ImageTaken(y, t, y.fw.mirror);
    assert Edited(y, y.fw.mirror) == y;
    events := Before(y1, Idle(t), FirstWrite(y), events, z);
    events := Before(y, AppImage(y.fw.mirror), y1, events, z);
  }

  /** From any such state, and for any change of Info: a run whose only rejected message is its last,
      after which Info differs from the unit's with the unit's own counter, nothing pending for it and
      neither a read nor a write of it outstanding, unless the change was to its counter alone. */
  lemma {:induction false} OneRejectionGoesStale(y: Sys, t: U32, data: seq<Byte>)
    returns (calm: seq<Event>, last: Event)
    requires Fresh(y, t) && |data| == Count(Info)
    ensures Possible(y, calm) && (forall e | e in calm :: e.Tick? ==> e.val >= 0)
    ensures Enabled(Run(y, calm), last) && last.Tick? && last.val < 0
    ensures var z := UnitModel.Step(Run(y, calm), last);
            z.fw.com == WbmConnected && (Coherent(Info, z) <==> OnlyCounts(y, data))
  {
    calm := UpToReRead(y, t, data);
    ReReadRejected(y, t, data);
    StaleExactly(y, t, data);
    last := Rejected(t);
  }

  // ---- A write that is rejected or refused ----

  /** The image holds other bytes for Info than the unit, under the unit's counter. */
  predicate EditsInfo(y: Sys, image: Image) {
    Counter(image, Info) == Counter(y.unit, Info) && Content(image, Info) != Content(y.unit, Info)
  }

  lemma WriteDropped(y: Sys, z: Sys, image: Image)
    requires z.unit == y.unit && Content(z.fw.mirror, Info) == Content(image, Info)
    requires 0 !in z.fw.mask && 11 !in z.fw.mask
    requires z.fw.sent != [] && (Last(z.fw).Read? || Last(z.fw).Write?) && Last(z.fw).section != Info
    ensures Coherent(Info, z) <==> !EditsInfo(y, image)
  {
    Simulation.CounterIsLast(z.fw.mirror, Info);
    Simulation.CounterIsLast(image, Info);
  }

  /** An app image and one rejected message: the image's bytes for Info never reach the unit, and Info
      stays different under the unit's own counter, with nothing pending and nothing outstanding for it,
      exactly if the image edits Info and keeps its counter. */
  lemma {:induction false} OneRejectedWriteGoesStale(y: Sys, t: U32, image: Image)
    requires Fresh(y, t)
    ensures var events := [AppImage(image), Idle(t), Rejected(t)];
            && Possible(y, events) && Run(y, events).fw.com == WbmConnected
            && (Coherent(Info, Run(y, events)) <==> !EditsInfo(y, image))
  {
    ImageTaken(y, t, image);
    var z := FirstWrite(Edited(y, image));
    FourWritesLeft();
    RejectedSends(z, t);
    WriteDropped(y, UnitModel.Step(z, Rejected(t)), image);
    ThreeSteps(y, AppImage(image), Idle(t), Rejected(t));
  }

  lemma ThreeSteps(y: Sys, a: Event, b: Event, c: Event)
    requires Enabled(y, a) && Enabled(UnitModel.Step(y, a), b)
    requires Enabled(UnitModel.Step(UnitModel.Step(y, a), b), c)
    ensures Possible(y, [a, b, c])
    ensures Run(y, [a, b, c]) == UnitModel.Step(UnitModel.Step(UnitModel.Step(y, a), b), c)
  {
    OneMore(y, [], a);
    assert [] + [a] == [a];
    OneMore(y, [a], b);
    assert [a] + [b] == [a, b];
    OneMore(y, [a, b], c);
    assert [a, b] + [c] == [a, b, c];
  }

  function RefusedAll(y: Sys): Sys {
    y.(reply := Some(WriteReply(CountersOf(y.unit), false)))
  }

  /** Nothing pending for Info: what is sent next is about another section. */
  lemma NextIsOther(y: Sys, f: Fw, image: Image)
    requires Known(f.mask) && f.mask != {} && 0 !in f.mask && 11 !in f.mask
    requires Content(f.mirror, Info) == Content(image, Info)
    ensures Coherent(Info, y.(fw := NextSent(f), reply := None)) <==> !EditsInfo(y, image)
  {
    NotInfo(f.mask);
    WriteDropped(y, y.(fw := NextSent(f), reply := None), image);
  }

  lemma NextIsReRead(y: Sys, f: Fw)
    requires Known(f.mask) && 0 in f.mask
    ensures Coherent(Info, y.(fw := NextSent(f), reply := None))
  {
  }

  /** The firmware after the refusal, before it sends again. */
  function AfterRefusal(y: Sys, t: U32, image: Image): Fw {
    AfterAck(FirstWrite(Edited(y, image)).fw, t, CountersOf(y.unit))
  }

  lemma RefusalMask(y: Sys, t: U32, image: Image)
    requires Fresh(y, t)
    ensures var f := AfterRefusal(y, t, image);
            && Known(f.mask) && f.mask != {} && 11 !in f.mask
            && (0 in f.mask <==> Counter(image, Info) != Counter(y.unit, Info))
            && Content(f.mirror, Info) == SC.Marked(Content(image, Info), Counter(y.unit, Info))
  {
    var m: Mask := {12, 13, 14, 15};
    RaisedBits(m, image, CountersOf(y.unit), Info);
    assert 12 in Raised(m, image, CountersOf(y.unit));
    Simulation.CounterIsLast(y.unit, Info);
    Simulation.CountersLanded(Info, image, CountersOf(y.unit));
  }

  /** With the unit's counter in the image nothing is raised for Info by the refusal; with another, its
      re-read. */
  lemma RefusalSends(y: Sys, t: U32, image: Image)
    requires Fresh(y, t)
    ensures var f := AfterRefusal(y, t, image);
            && Known(f.mask) && f.mask != {}
            && (Coherent(Info, y.(fw := NextSent(f), reply := None)) <==> !EditsInfo(y, image))
  {
    var f := AfterRefusal(y, t, image);
    RefusalMask(y, t, image);
    if Counter(image, Info) == Counter(y.unit, Info) {
      Simulation.CounterIsLast(y.unit, Info);
      KeepsCounter(image, CountersOf(y.unit));
      NextIsOther(y, f, image);
    } else {
      NextIsReRead(y, f);
    }
  }

  lemma RefusalStep(y: Sys, t: U32, image: Image)
    requires Fresh(y, t)
    ensures var z := RefusedAll(FirstWrite(Edited(y, image)));
            var e := Acked(t, CountersOf(y.unit), false);
            var f := AfterRefusal(y, t, image);
            && Enabled(z, e) && Known(f.mask) && f.mask != {}
            && UnitModel.Step(z, e) == y.(fw := NextSent(f), reply := None)
  {
    RefusalMask(y, t, image);
    AckSends(RefusedAll(FirstWrite(Edited(y, image))), t, CountersOf(y.unit), false);
  }

  lemma KeepsCounter(image: Image, c: Counters)
    requires c.Of(Info) == Counter(image, Info)
    ensures SC.Marked(Content(image, Info), c.Of(Info)) == Content(image, Info)
  {
    Simulation.CounterIsLast(image, Info);
  }

  lemma NotInfo(mask: Mask)
    requires Known(mask) && mask != {} && 0 !in mask && 11 !in mask
    ensures var (isRead, s) := Choice(mask);
            s != Info && 0 !in mask - {if isRead then ReadBit(s) else WriteBit(s)}
            && 11 !in mask - {if isRead then ReadBit(s) else WriteBit(s)}
  {
  }

  lemma UpToRefusal(y: Sys, t: U32, image: Image)
    requires Fresh(y, t)
    ensures var events := [AppImage(image), Idle(t), UnitRefuse];
            Possible(y, events) && Run(y, events) == RefusedAll(FirstWrite(Edited(y, image)))
  {
    ImageTaken(y, t, image);
    var z := FirstWrite(Edited(y, image));
    assert Enabled(z, UnitRefuse) && UnitModel.Step(z, UnitRefuse) == RefusedAll(z);
    ThreeSteps(y, AppImage(image), Idle(t), UnitRefuse);
  }

  /** The image arrives, its write of Info goes out, the unit refuses it and the refusal is taken in. */
  function Refusal(y: Sys, t: U32, image: Image): seq<Event> {
    [AppImage(image), Idle(t), UnitRefuse, Acked(t, CountersOf(y.unit), false)]
  }

  lemma RefusalRun(y: Sys, t: U32, image: Image)
    requires Fresh(y, t)
    ensures var f := AfterRefusal(y, t, image);
            && Known(f.mask) && f.mask != {} && Possible(y, Refusal(y, t, image))
            && Run(y, Refusal(y, t, image)) == y.(fw := NextSent(f), reply := None)
  {
    var e := Acked(t, CountersOf(y.unit), false);
    var start := [AppImage(image), Idle(t), UnitRefuse];
    UpToRefusal(y, t, image);
    RefusalStep(y, t, image);
    OneMore(y, start, e);
    assert start + [e] == Refusal(y, t, image);
  }

  /** The same with no rejected message at all, if the unit refuses the write: the result byte of a write
      reply is not looked at. */
  lemma {:induction false} OneRefusedWriteGoesStale(y: Sys, t: U32, image: Image)
    requires Fresh(y, t)
    ensures Possible(y, Refusal(y, t, image))
    ensures var z := Run(y, Refusal(y, t, image));
            z.fw.com == WbmConnected && (Coherent(Info, z) <==> !EditsInfo(y, image))
  {
    RefusalRun(y, t, image);
    RefusalSends(y, t, image);
  }

  lemma {:induction false} OneMore(y: Sys, events: seq<Event>, e: Event)
    requires Possible(y, events) && Enabled(Run(y, events), e)
    ensures Possible(y, events + [e]) && Run(y, events + [e]) == UnitModel.Step(Run(y, events), e)
    decreases |events|
  {
    if events == [] {
      assert events + [e] == [e] && [e][1..] == [];
    } else {
      assert (events + [e])[0] == events[0] && (events + [e])[1..] == events[1..] + [e];
      OneMore(UnitModel.Step(y, events[0]), events[1..], e);
    }
  }

  // ---- Counters ----

  lemma SameCounters(y: Sys)
    requires forall s | Counted(s) :: Content(y.fw.mirror, s) == Content(y.unit, s)
    ensures CountersOf(y.fw.mirror) == CountersOf(y.unit)
  {
    assert Counted(Info) && Counted(SettingPar) && Counted(SetTemp) && Counted(DayProg);
    forall s | Counted(s)
      ensures CountersOf(y.fw.mirror).Of(s) == CountersOf(y.unit).Of(s)
    {
      Simulation.CounterIsLast(y.fw.mirror, s);
      Simulation.CounterIsLast(y.unit, s);
    }
    assert forall c: Counters :: c == Counters(c.Of(Info), c.Of(SettingPar), c.Of(SetTemp), c.Of(DayProg));
  }

  lemma NothingRaised(mask: Mask, e: Image)
    ensures Raised(mask, e, CountersOf(e)) == mask && WithCounters(e, CountersOf(e)) == e
  {
  }
}
