/** Every step of firmware and unit together is, for each counted section, a step of its cell. */
module Simulation {
  import opened Bytes
  import opened EepromLayout
  import opened Codec
  import opened Requests
  import opened Firmware
  import opened RequestMask
  import opened UnitModel
  import SC = SectionCell

  /** What the line and the mask keep, whatever is read. */
  predicate LineOk(y: Sys) {
    && Known(y.fw.mask)
    && (y.fw.busy ==> y.fw.sent != [] && Sendable(Last(y.fw)))
    && (y.reply.Some? ==> y.fw.busy && Answers(y.reply.value, Last(y.fw)))
  }

  function LineOf(s: Section, f: Fw): SC.Line
    requires f.busy ==> f.sent != []
  {
    if !f.busy then SC.Free
    else match Last(f)
      case Read(t) => if t == s then SC.Fetch else SC.Elsewhere
      case Write(t, data) => if t == s then SC.Push(data) else SC.Elsewhere
      case _ => SC.Elsewhere
  }

  function NewsOf(s: Section, y: Sys): SC.News
    requires Counted(s) && LineOk(y)
  {
    match y.reply
    case None => SC.Silent
    case Some(PollReply(c)) => SC.Polled(c.Of(s))
    case Some(DebugReply) => SC.Unrelated
    case Some(ReadReply(t, data)) => if t == s then SC.Fetched(data) else SC.Unrelated
    case Some(WriteReply(c, accepted)) =>
      if Last(y.fw).section == s && accepted then SC.Pushed(c.Of(s)) else SC.WroteOther(c.Of(s))
  }

  /** The section `s` of a system. */
  function CellOf(s: Section, y: Sys): (c: SC.Cell)
    requires Counted(s) && LineOk(y)
    ensures c.Valid()
  {
    SC.Cell(Content(y.fw.mirror, s), Content(y.unit, s),
            ReadBit(s) in y.fw.mask, WriteBit(s) in y.fw.mask, LineOf(s, y.fw), NewsOf(s, y))
  }

  // ---- Each step of the system is a step of every cell ----

  lemma StoredCell(unit: Image, t: Section, data: seq<Byte>, counter: Byte, s: Section)
    requires |data| == Count(t) && Counted(s)
    ensures Content(Stored(unit, t, data, counter), s) ==
            if s == t then SC.Marked(data, counter) else Content(unit, s)
  {
    var stored := if Counted(t) then data[Count(t) - 1 := counter] else data;
    if s != t { WriteKeepsOthers(unit, t, stored, s); }
  }

  lemma CounterIsLast(e: Image, s: Section)
    requires Counted(s)
    ensures Counter(e, s) == SC.Ctr(Content(e, s)) == CountersOf(e).Of(s)
  {
  }

  /** A step that only moves the unit's EEPROM moves only the cell's copy of it. */
  lemma UnitMoves(s: Section, y: Sys, unit: Image)
    requires Counted(s) && LineOk(y)
    ensures LineOk(y.(unit := unit))
    ensures CellOf(s, y.(unit := unit)) == CellOf(s, y).(theirs := Content(unit, s))
  {
  }

  function ChangeEvent(s: Section, e: Event): SC.Event
    requires e.UnitChange?
  {
    if e.section == s then SC.Change(e.data) else SC.Take(SC.TakeNone)
  }

  /** Storing a section on the unit's side, in the cell of section `s`. */
  lemma StoreMoves(s: Section, y: Sys, t: Section, data: seq<Byte>, counter: Byte)
    requires Counted(s) && LineOk(y) && |data| == Count(t)
    ensures var z := y.(unit := Stored(y.unit, t, data, counter));
            && LineOk(z)
            && CellOf(s, z) == if s == t then CellOf(s, y).(theirs := SC.Marked(data, counter)) else CellOf(s, y)
  {
    StoredCell(y.unit, t, data, counter, s);
    UnitMoves(s, y, Stored(y.unit, t, data, counter));
  }

  lemma OwnChangeSimulated(s: Section, y: Sys, data: seq<Byte>)
    requires Counted(s) && LineOk(y) && |data| == Count(s)
    ensures var z := y.(unit := Changed(y.unit, s, data));
            LineOk(z) && CellOf(s, z) == SC.Step(CellOf(s, y), SC.Change(data))
  {
    CounterIsLast(y.unit, s);
    StoreMoves(s, y, s, data, ChangeCounter(y.unit, s));
    CellChanges(CellOf(s, y), data, ChangeCounter(y.unit, s));
  }

  lemma CellChanges(c: SC.Cell, data: seq<Byte>, k: Byte)
    requires c.Valid() && |data| == |c.theirs| && k == (SC.Ctr(c.theirs) + 1) % 256
    ensures SC.Enabled(c, SC.Change(data)) && SC.Step(c, SC.Change(data)) == c.(theirs := SC.Marked(data, k))
  {
  }

  lemma ChangeSimulated(s: Section, y: Sys, e: Event)
    requires Counted(s) && e.UnitChange? && Enabled(y, e) && LineOk(y)
    ensures LineOk(Step(y, e))
    ensures CellOf(s, Step(y, e)) == SC.Step(CellOf(s, y), ChangeEvent(s, e))
  {
    if e.section == s {
      OwnChangeSimulated(s, y, e.data);
    } else {
      StoreMoves(s, y, e.section, e.data, ChangeCounter(y.unit, e.section));
    }
  }

  function ServeEvent(s: Section, y: Sys, e: Event): SC.Event
    requires Counted(s) && e.UnitServe? && Enabled(y, e)
  {
    SC.Serve(e.counter,
             match Last(y.fw)
             case Poll => SC.Polled(Counter(y.unit, s))
             case Write(t, _) => if t == s then SC.Unrelated else SC.WroteOther(Counter(y.unit, s))
             case _ => SC.Unrelated)
  }

  /** Answering a request, in the cell of section `s`. */
  lemma AnswerMoves(s: Section, y: Sys)
    requires Counted(s) && LineOk(y) && y.reply.None? && y.fw.busy
    ensures var z := y.(reply := Some(Answer(y.unit, Last(y.fw))));
            && LineOk(z)
            && CellOf(s, z) == CellOf(s, y).(news :=
              match Last(y.fw)
              case Poll => SC.Polled(SC.Ctr(Content(y.unit, s)))
              case Debug => SC.Unrelated
              case Read(t) => if t == s then SC.Fetched(Content(y.unit, s)) else SC.Unrelated
              case Write(t, _) =>
                var k := SC.Ctr(Content(y.unit, s)); if t == s then SC.Pushed(k) else SC.WroteOther(k))
  {
    CounterIsLast(y.unit, s);
  }

  /** The cell after a write of section `t` has been stored and answered. */
  lemma StoredAndAnswered(s: Section, y: Sys, t: Section, data: seq<Byte>, counter: Byte)
    requires Counted(s) && LineOk(y) && y.reply.None? && y.fw.busy && Last(y.fw) == Write(t, data)
    ensures var z := y.(unit := Stored(y.unit, t, data, counter));
            var w := z.(reply := Some(Answer(z.unit, Last(z.fw))));
            && LineOk(w)
            && CellOf(s, w) ==
               if s == t then CellOf(s, y).(theirs := SC.Marked(data, counter), news := SC.Pushed(counter))
               else CellOf(s, y).(news := SC.WroteOther(SC.Ctr(Content(y.unit, s))))
  {
    StoreMoves(s, y, t, data, counter);
    AnswerMoves(s, y.(unit := Stored(y.unit, t, data, counter)));
    StoredCell(y.unit, t, data, counter, s);
  }

  lemma ServeEnabled(s: Section, y: Sys, e: Event)
    requires Counted(s) && e.UnitServe? && Enabled(y, e) && LineOk(y)
    ensures SC.Enabled(CellOf(s, y), ServeEvent(s, y, e))
  {
    CounterIsLast(y.unit, s);
  }

  lemma ServeShape(y: Sys, e: Event)
    requires e.UnitServe? && Enabled(y, e)
    ensures var q := Last(y.fw);
            var z := if q.Write? then y.(unit := Stored(y.unit, q.section, q.data, e.counter)) else y;
            Step(y, e) == z.(reply := Some(Answer(z.unit, q)))
  {
  }

  lemma {:induction false} ServeSimulated(s: Section, y: Sys, e: Event)
    requires Counted(s) && e.UnitServe? && Enabled(y, e) && LineOk(y)
    ensures LineOk(Step(y, e))
    ensures SC.Enabled(CellOf(s, y), ServeEvent(s, y, e))
    ensures CellOf(s, Step(y, e)) == SC.Step(CellOf(s, y), ServeEvent(s, y, e))
  {
    var q := Last(y.fw);
    CounterIsLast(y.unit, s);
    ServeEnabled(s, y, e);
    ServeShape(y, e);
    if q.Write? {
      StoredAndAnswered(s, y, q.section, q.data, e.counter);
    } else {
      AnswerMoves(s, y);
    }
  }

  /** A refused write is, to a section it was not for, the same as a served one. */
  function RefuseEvent(s: Section, y: Sys): SC.Event
    requires Counted(s) && Enabled(y, UnitRefuse)
  {
    if Last(y.fw).section == s then SC.Refuse else SC.Serve(0, SC.WroteOther(Counter(y.unit, s)))
  }

  lemma RefuseSimulated(s: Section, y: Sys)
    requires Counted(s) && Enabled(y, UnitRefuse) && LineOk(y)
    ensures LineOk(Step(y, UnitRefuse))
    ensures SC.Enabled(CellOf(s, y), RefuseEvent(s, y))
    ensures CellOf(s, Step(y, UnitRefuse)) == SC.Step(CellOf(s, y), RefuseEvent(s, y))
  {
    CounterIsLast(y.unit, s);
  }

  lemma ImageSimulated(s: Section, y: Sys, e: Event)
    requires Counted(s) && e.AppImage? && Enabled(y, e) && LineOk(y)
    ensures LineOk(Step(y, e))
    ensures CellOf(s, Step(y, e)) == SC.Step(CellOf(s, y), SC.Image(Content(e.image, s)))
  {
  }

  // The three stages of a firmware iteration.

  function TimerEvent(f: Fw, clock: Readings): SC.Event {
    if Timers(f, clock).busy != f.busy then SC.Timer else SC.Take(SC.TakeNone)
  }

  /** What the timers may do: nothing but note the time, or send a poll or debug request on a
      free line. */
  lemma TimersShape(f: Fw, clock: Readings)
    ensures var g := Timers(f, clock);
            g.com == WbmConnected ==>
              && g.mirror == f.mirror && g.mask == f.mask
              && if g.busy == f.busy then g.sent == f.sent
                 else g.busy && (g.sent == f.sent + [Poll] || g.sent == f.sent + [Debug])
  {
  }

  lemma TimerMoves(s: Section, y: Sys, g: Fw)
    requires Counted(s) && LineOk(y) && g.mirror == y.fw.mirror && g.mask == y.fw.mask
    requires if g.busy == y.fw.busy then g.sent == y.fw.sent
             else g.busy && (g.sent == y.fw.sent + [Poll] || g.sent == y.fw.sent + [Debug])
    ensures LineOk(y.(fw := g))
    ensures CellOf(s, y.(fw := g)) ==
            if g.busy == y.fw.busy then CellOf(s, y) else CellOf(s, y).(line := SC.Elsewhere)
  {
  }

  lemma {:induction false} TimersSimulated(s: Section, y: Sys, clock: Readings)
    requires Counted(s) && LineOk(y) && Timers(y.fw, clock).com == WbmConnected
    ensures var z := y.(fw := Timers(y.fw, clock));
            && LineOk(z)
            && SC.Enabled(CellOf(s, y), TimerEvent(y.fw, clock))
            && CellOf(s, z) == SC.Step(CellOf(s, y), TimerEvent(y.fw, clock))
  {
    TimersShape(y.fw, clock);
    TimerMoves(s, y, Timers(y.fw, clock));
  }

  /** The system after Read_Message returned `val` with `rx`, before the dispatcher. */
  function Handled(y: Sys, now: U32, val: int, rx: seq<Byte>): Sys
    requires Readable(val, rx)
  {
    y.(fw := HandleResult(y.fw, now, val, rx), reply := if val > RUN_DOWNLOAD || val < 0 then None else y.reply)
  }

  function OutcomeOf(val: int): SC.Event {
    SC.Result(if val > RUN_DOWNLOAD then SC.Delivered else if val < 0 then SC.Rejected else SC.Nothing)
  }

  lemma ReadLanded(s: Section, f: Fw, rx: seq<Byte>, t: Section, data: seq<Byte>)
    requires Counted(s) && |rx| == SERIAL_BUFFER && CopyInBounds(rx) && |data| == Count(t)
    requires rx[ADDR_BYTE_START_EEP] == Start(t) && Payload(rx) == data
    ensures Content(ReadParse(f, rx).mirror, s) == if s == t then data else Content(f.mirror, s)
  {
    if s != t { WriteKeepsOthers(f.mirror, t, data, s); }
  }

  lemma CountersLanded(s: Section, e: Image, c: Counters)
    requires Counted(s)
    ensures Content(WithCounters(e, c), s) == SC.Marked(Content(e, s), c.Of(s))
  {
  }

  /** A reply taken in frees the line; what it did to mirror and mask shows in the cell. */
  lemma Lands(s: Section, y: Sys, g: Fw)
    requires Counted(s) && LineOk(y) && Known(g.mask) && !g.busy
    ensures var z := y.(fw := g, reply := None);
            && LineOk(z)
            && CellOf(s, z) == CellOf(s, y).(mine := Content(g.mirror, s), fetch := ReadBit(s) in g.mask,
                                             push := WriteBit(s) in g.mask, line := SC.Free, news := SC.Silent)
  {
  }

  lemma PollShape(y: Sys, now: U32, val: int, rx: seq<Byte>)
    requires Readable(val, rx) && y.reply.Some? && y.reply.value.PollReply? && Carries(val, rx, y.reply.value)
    ensures Handled(y, now, val, rx) ==
            y.(fw := y.fw.(timeoutT := now, busy := false,
                           mask := Raised(y.fw.mask, y.fw.mirror, y.reply.value.counters)),
               reply := None)
  {
  }

  lemma PollLanded(s: Section, y: Sys, now: U32, val: int, rx: seq<Byte>)
    requires Counted(s) && LineOk(y) && Readable(val, rx)
    requires y.reply.Some? && y.reply.value.PollReply? && Carries(val, rx, y.reply.value)
    ensures var z := Handled(y, now, val, rx);
            LineOk(z) && CellOf(s, z) == SC.Step(CellOf(s, y), SC.Result(SC.Delivered))
  {
    CounterIsLast(y.fw.mirror, s);
    RaisedBits(y.fw.mask, y.fw.mirror, y.reply.value.counters, s);
    PollShape(y, now, val, rx);
    Lands(s, y, Handled(y, now, val, rx).fw);
  }

  lemma BytesShape(y: Sys, now: U32, val: int, rx: seq<Byte>)
    requires Readable(val, rx) && y.reply.Some? && y.reply.value.ReadReply? && Carries(val, rx, y.reply.value)
    ensures CopyInBounds(rx) && Payload(rx) == y.reply.value.data
    ensures Handled(y, now, val, rx) ==
            y.(fw := ReadParse(y.fw.(timeoutT := now), rx).(busy := false), reply := None)
  {
  }

  lemma ReadCell(s: Section, c: SC.Cell, t: Section, data: seq<Byte>)
    requires c.Valid() && c.news == (if t == s then SC.Fetched(data) else SC.Unrelated) && c.line != SC.Free
    ensures SC.Step(c, SC.Result(SC.Delivered)) ==
            c.(mine := if t == s then data else c.mine, line := SC.Free, news := SC.Silent)
  {
  }

  lemma BytesLanded(s: Section, y: Sys, now: U32, val: int, rx: seq<Byte>)
    requires Counted(s) && LineOk(y) && Readable(val, rx)
    requires y.reply.Some? && y.reply.value.ReadReply? && Carries(val, rx, y.reply.value)
    ensures var z := Handled(y, now, val, rx);
            LineOk(z) && CellOf(s, z) == SC.Step(CellOf(s, y), SC.Result(SC.Delivered))
  {
    BytesShape(y, now, val, rx);
    var f := y.fw.(timeoutT := now);
    var g := ReadParse(f, rx).(busy := false);
    ReadLanded(s, f, rx, y.reply.value.section, y.reply.value.data);
    Lands(s, y, g);
    ReadCell(s, CellOf(s, y), y.reply.value.section, y.reply.value.data);
  }

  lemma AckShape(y: Sys, now: U32, val: int, rx: seq<Byte>)
    requires Readable(val, rx) && y.reply.Some? && y.reply.value.WriteReply? && Carries(val, rx, y.reply.value)
    ensures var c := y.reply.value.counters;
            Handled(y, now, val, rx) ==
            y.(fw := y.fw.(timeoutT := now, mask := Raised(y.fw.mask, y.fw.mirror, c),
                           mirror := WithCounters(y.fw.mirror, c), busy := false),
               reply := None)
  {
  }

  lemma AckLanded(s: Section, y: Sys, now: U32, val: int, rx: seq<Byte>)
    requires Counted(s) && LineOk(y) && Readable(val, rx)
    requires y.reply.Some? && y.reply.value.WriteReply? && Carries(val, rx, y.reply.value)
    ensures var z := Handled(y, now, val, rx);
            LineOk(z) && CellOf(s, z) == SC.Step(CellOf(s, y), SC.Result(SC.Delivered))
  {
    var c := y.reply.value.counters;
    var g := y.fw.(timeoutT := now, mask := Raised(y.fw.mask, y.fw.mirror, c),
                   mirror := WithCounters(y.fw.mirror, c), busy := false);
    CounterIsLast(y.fw.mirror, s);
    RaisedBits(y.fw.mask, y.fw.mirror, c, s);
    CountersLanded(s, y.fw.mirror, c);
    Lands(s, y, g);
    AckShape(y, now, val, rx);
  }

  lemma DeliverySimulated(s: Section, y: Sys, now: U32, val: int, rx: seq<Byte>)
    requires Counted(s) && LineOk(y) && Readable(val, rx)
    requires val > RUN_DOWNLOAD && y.reply.Some? && Carries(val, rx, y.reply.value)
    ensures var z := Handled(y, now, val, rx);
            LineOk(z) && CellOf(s, z) == SC.Step(CellOf(s, y), SC.Result(SC.Delivered))
  {
    match y.reply.value
    case PollReply(_) => PollLanded(s, y, now, val, rx);
    case DebugReply => Lands(s, y, Handled(y, now, val, rx).fw);
    case ReadReply(_, _) => BytesLanded(s, y, now, val, rx);
    case WriteReply(_, _) => AckLanded(s, y, now, val, rx);
  }

  lemma {:induction false} HandleSimulated(s: Section, y: Sys, now: U32, val: int, rx: seq<Byte>)
    requires Counted(s) && LineOk(y) && Readable(val, rx)
    requires val > RUN_DOWNLOAD ==> y.reply.Some? && Carries(val, rx, y.reply.value)
    ensures var z := Handled(y, now, val, rx);
            && LineOk(z)
            && SC.Enabled(CellOf(s, y), OutcomeOf(val))
            && CellOf(s, z) == SC.Step(CellOf(s, y), OutcomeOf(val))
  {
    if val > RUN_DOWNLOAD {
      DeliverySimulated(s, y, now, val, rx);
    } else if val < 0 {
      Lands(s, y, y.fw.(busy := false));
    }
  }

  function TakeEvent(s: Section, f: Fw): SC.Event
    requires Known(f.mask)
  {
    SC.Take(if f.mask == {} || f.busy then SC.TakeNone
            else var (isRead, t) := Choice(f.mask);
              if t != s then SC.TakeOther else if isRead then SC.TakeFetch else SC.TakePush)
  }

  lemma SendMoves(s: Section, y: Sys, isRead: bool, t: Section)
    requires Counted(s) && LineOk(y) && !y.fw.busy && y.reply.None?
    requires if isRead then Counted(t) else t != Configuration
    ensures var z := y.(fw := if isRead then SendsRead(y.fw, t) else SendsWrite(y.fw, t));
            var c := CellOf(s, y);
            && LineOk(z)
            && CellOf(s, z) == if s != t then c.(line := SC.Elsewhere)
                               else if isRead then c.(line := SC.Fetch, fetch := false)
                               else c.(line := SC.Push(c.mine), push := false)
  {
  }

  lemma {:induction false} DispatchSimulated(s: Section, y: Sys)
    requires Counted(s) && LineOk(y)
    ensures var z := y.(fw := Dispatch(y.fw));
            && LineOk(z)
            && SC.Enabled(CellOf(s, y), TakeEvent(s, y.fw))
            && CellOf(s, z) == SC.Step(CellOf(s, y), TakeEvent(s, y.fw))
  {
    if y.fw.mask != {} && !y.fw.busy {
      var (isRead, t) := Choice(y.fw.mask);
      DispatchSendsChoice(y.fw);
      SendMoves(s, y, isRead, t);
    }
  }
}
