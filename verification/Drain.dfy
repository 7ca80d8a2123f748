/** The request mask drains: with no new app image, every round trip uses up some of a bounded
    amount of work, and no poll or debug request can slip in before the mask is empty. */
module Drain {
  import opened Bytes
  import opened EepromLayout
  import opened Codec
  import opened Requests
  import opened Firmware
  import opened RequestMask
  import opened UnitModel
  import opened Simulation

  function On(mask: Mask, bit: nat): nat {
    if bit in mask then 1 else 0
  }

  function Reads(mask: Mask): nat {
    On(mask, 0) + On(mask, 1) + On(mask, 2) + On(mask, 3)
  }

  function Writes(mask: Mask): nat {
    On(mask, 11) + On(mask, 12) + On(mask, 13) + On(mask, 14) + On(mask, 15)
  }

  predicate Awaits(f: Fw, read: bool) {
    f.busy && f.sent != [] && if read then Last(f).Read? else Last(f).Write?
  }

  /** The round trips still owed: a pending write may cause four re-reads, and so may the one
      that is outstanding. */
  function Work(f: Fw): nat {
    5 * Writes(f.mask) + Reads(f.mask) + if Awaits(f, false) then 4 else 0
  }

  /** Serving the mask: the line is held by a read or a write. */
  predicate Serving(f: Fw) {
    Awaits(f, true) || Awaits(f, false)
  }

  /** While the line is held the timers send nothing. */
  lemma TimersWait(f: Fw, clock: Readings)
    requires f.busy && Timers(f, clock).com == WbmConnected
    ensures var g := Timers(f, clock);
            g.busy && g.sent == f.sent && g.mask == f.mask && g.mirror == f.mirror
  {
  }

  lemma RaisedCost(mask: Mask, e: Image, c: Counters)
    ensures Writes(Raised(mask, e, c)) == Writes(mask) && Reads(Raised(mask, e, c)) <= 4
  {
  }

  /** A reply to a read raises nothing; one to a write at most the four read bits. */
  lemma {:induction false} ReplyCost(y: Sys, e: Event)
    requires e.Tick? && Enabled(y, e) && LineOk(y) && Serving(y.fw)
    ensures var g := HandleResult(y.fw, e.clock.message, e.val, e.rx);
            && Known(g.mask) && Work(g) <= Work(y.fw)
            && g.sent == y.fw.sent && (g.busy ==> Work(g) == Work(y.fw))
  {
    if e.val > RUN_DOWNLOAD && y.reply.value.WriteReply? {
      RaisedCost(y.fw.mask, y.fw.mirror, y.reply.value.counters);
    }
  }

  lemma ReadTaken(mask: Mask, s: Section)
    requires Counted(s) && ReadBit(s) in mask
    ensures Reads(mask - {ReadBit(s)}) == Reads(mask) - 1 && Writes(mask - {ReadBit(s)}) == Writes(mask)
  {
  }

  lemma WriteTaken(mask: Mask, s: Section)
    requires s != Configuration && WriteBit(s) in mask
    ensures Writes(mask - {WriteBit(s)}) == Writes(mask) - 1 && Reads(mask - {WriteBit(s)}) == Reads(mask)
  {
  }

  lemma SendCost(f: Fw, isRead: bool, s: Section)
    requires !f.busy
    requires if isRead then Counted(s) && ReadBit(s) in f.mask else s != Configuration && WriteBit(s) in f.mask
    ensures var g := if isRead then SendsRead(f, s) else SendsWrite(f, s);
            Serving(g) && Work(g) + 1 == Work(f)
  {
    if isRead { ReadTaken(f.mask, s); } else { WriteTaken(f.mask, s); }
  }

  lemma {:induction false} DispatchCost(f: Fw)
    requires Known(f.mask) && f.mask != {} && !f.busy
    ensures var g := Dispatch(f);
            Serving(g) && Work(g) + 1 == Work(f) && g.sent == f.sent + [Last(g)]
  {
    var (isRead, s) := Choice(f.mask);
    DispatchSendsChoice(f);
    SendCost(f, isRead, s);
  }

  /** What an iteration may add to the requests sent: nothing, or one read or write, paid for by
      the work it takes away. */
  predicate PaidFor(f: Fw, g: Fw) {
    || (g.sent == f.sent && Work(g) <= Work(f))
    || (g.sent == f.sent + [Newest(g)] && IsWork(Newest(g)) && Work(g) + 1 <= Work(f))
  }

  predicate IsWork(r: Request) {
    r.Read? || r.Write?
  }

  /** One iteration that starts with the line held by a read or write. */
  lemma {:induction false} TickCost(y: Sys, e: Event)
    requires e.Tick? && Enabled(y, e) && LineOk(y) && Serving(y.fw)
    requires UnitModel.Step(y, e).fw.com == WbmConnected
    ensures var g := UnitModel.Step(y, e).fw;
            PaidFor(y.fw, g) && (Serving(g) || (g.mask == {} && !g.busy))
  {
    var y1 := y.(fw := Timers(y.fw, e.clock));
    TimersWait(y.fw, e.clock);
    ReplyCost(y1, e);
    var h := HandleResult(y1.fw, e.clock.message, e.val, e.rx);
    assert Work(h) <= Work(y1.fw) == Work(y.fw);
    if h.mask != {} && !h.busy { DispatchCost(h); }
    assert UnitModel.Step(y, e).fw == Dispatch(h);
  }

  /** Every state before the last still serves the mask. */
  predicate ServingUntil(y: Sys, events: seq<Event>)
    requires Possible(y, events)
    decreases |events|
  {
    events != [] ==> Serving(y.fw) && ServingUntil(UnitModel.Step(y, events[0]), events[1..])
  }

  lemma OtherStepsCostNothing(y: Sys, e: Event)
    requires Enabled(y, e) && !e.Tick? && !e.AppImage?
    ensures UnitModel.Step(y, e).fw == y.fw
  {
  }

  lemma LineStaysOk(y: Sys, e: Event)
    requires Enabled(y, e) && LineOk(y) && UnitModel.Step(y, e).fw.com == WbmConnected
    ensures LineOk(UnitModel.Step(y, e))
  {
    match e
    case UnitChange(_, _) => ChangeSimulated(Info, y, e);
    case UnitServe(_) => ServeSimulated(Info, y, e);
    case UnitRefuse => RefuseSimulated(Info, y);
    case AppImage(_) => ImageSimulated(Info, y, e);
    case Tick(_, _, _) =>
      var y1 := y.(fw := Timers(y.fw, e.clock));
      TimersSimulated(Info, y, e.clock);
      HandleSimulated(Info, y1, e.clock.message, e.val, e.rx);
      DispatchSimulated(Info, Handled(y1, e.clock.message, e.val, e.rx));
  }

  lemma Chained(f: Fw, g: Fw, h: Fw)
    requires PaidFor(f, g) && Bounded(g, h)
    ensures Bounded(f, h)
  {
  }

  /** From `f` to `h` only reads and writes were sent, each paid for by work. */
  predicate Bounded(f: Fw, h: Fw) {
    && f.sent <= h.sent
    && |h.sent| - |f.sent| + Work(h) <= Work(f)
    && forall i | |f.sent| <= i < |h.sent| :: IsWork(h.sent[i])
  }

  /** However the replies turn out, good or rejected, the requests sent while the mask is being
      served are reads and writes only, and their number is bounded by the work there was. */
  lemma {:induction false} RoundTripsBounded(y: Sys, events: seq<Event>)
    requires LineOk(y) && Possible(y, events) && ServingUntil(y, events)
    requires forall e | e in events :: !e.AppImage?
    requires Run(y, events).fw.com == WbmConnected
    ensures Bounded(y.fw, Run(y, events).fw)
    decreases |events|
  {
    if events != [] {
      var e, z := events[0], UnitModel.Step(y, events[0]);
      if events[1..] != [] { assert Enabled(z, events[1..][0]); }
      LineStaysOk(y, e);
      if e.Tick? { TickCost(y, e); } else { OtherStepsCostNothing(y, e); }
      RoundTripsBounded(z, events[1..]);
      Chained(y.fw, z.fw, Run(z, events[1..]).fw);
    }
  }

  /** Serving ends only with an empty mask: no iteration leaves the line free, or gives it to a
      poll or debug request, while something is pending. */
  lemma {:induction false} ServingEndsDrained(y: Sys, e: Event)
    requires Enabled(y, e) && LineOk(y) && !e.AppImage? && Serving(y.fw)
    requires UnitModel.Step(y, e).fw.com == WbmConnected
    ensures var g := UnitModel.Step(y, e).fw;
            Serving(g) || (g.mask == {} && !g.busy)
  {
    if e.Tick? { TickCost(y, e); } else { OtherStepsCostNothing(y, e); }
  }

  // ---- Every result ends a round trip ----

  /** A tick in which Read_Message brings a reply or rejects one. */
  predicate Answered(e: Event) {
    e.Tick? && (e.val > RUN_DOWNLOAD || e.val < 0)
  }

  function AnsweredIn(events: seq<Event>): nat {
    if events == [] then 0 else (if Answered(events[0]) then 1 else 0) + AnsweredIn(events[1..])
  }

  lemma ReplyFreesLine(y: Sys, e: Event)
    requires e.Tick? && Enabled(y, e) && LineOk(y) && Serving(y.fw)
    ensures HandleResult(y.fw, e.clock.message, e.val, e.rx).busy == !Answered(e)
  {
  }

  /** An answer is followed at once by the next request, or the mask is empty. */
  lemma {:induction false} AnswerSendsNext(y: Sys, e: Event)
    requires e.Tick? && Enabled(y, e) && LineOk(y) && Serving(y.fw)
    requires UnitModel.Step(y, e).fw.com == WbmConnected && Serving(UnitModel.Step(y, e).fw)
    ensures |UnitModel.Step(y, e).fw.sent| == |y.fw.sent| + if Answered(e) then 1 else 0
  {
    TickShape(y, e);
    ServedThroughTimers(y, e);
    AnswerThenDispatch(y.(fw := Timers(y.fw, e.clock)), e);
  }

  lemma TickShape(y: Sys, e: Event)
    requires e.Tick? && Enabled(y, e)
    ensures UnitModel.Step(y, e).fw == Dispatch(HandleResult(Timers(y.fw, e.clock), e.clock.message, e.val, e.rx))
    ensures UnitModel.Step(y, e).fw.com == Timers(y.fw, e.clock).com
  {
  }

  lemma ServedThroughTimers(y: Sys, e: Event)
    requires e.Tick? && Enabled(y, e) && LineOk(y) && Serving(y.fw) && Timers(y.fw, e.clock).com == WbmConnected
    ensures var y1 := y.(fw := Timers(y.fw, e.clock));
            Enabled(y1, e) && LineOk(y1) && Serving(y1.fw) && y1.fw.sent == y.fw.sent
  {
    TimersWait(y.fw, e.clock);
  }

  lemma AnswerThenDispatch(y: Sys, e: Event)
    requires e.Tick? && Enabled(y, e) && LineOk(y) && Serving(y.fw)
    requires Serving(Dispatch(HandleResult(y.fw, e.clock.message, e.val, e.rx)))
    ensures var g := Dispatch(HandleResult(y.fw, e.clock.message, e.val, e.rx));
            |g.sent| == |y.fw.sent| + if Answered(e) then 1 else 0
  {
    ReplyFreesLine(y, e);
    ReplyCost(y, e);
    DispatchOnlyIfFree(HandleResult(y.fw, e.clock.message, e.val, e.rx));
  }

  lemma DispatchOnlyIfFree(h: Fw)
    requires Known(h.mask) && Serving(Dispatch(h))
    ensures |Dispatch(h).sent| == |h.sent| + if h.busy then 0 else 1
  {
    if h.mask != {} && !h.busy { DispatchCost(h); }
  }

  lemma {:induction false} AnswersAreRoundTrips(y: Sys, events: seq<Event>)
    requires LineOk(y) && Possible(y, events) && ServingUntil(y, events) && Serving(Run(y, events).fw)
    requires forall e | e in events :: !e.AppImage?
    requires Run(y, events).fw.com == WbmConnected
    ensures |Run(y, events).fw.sent| == |y.fw.sent| + AnsweredIn(events)
    decreases |events|
  {
    if events != [] {
      var e, z := events[0], UnitModel.Step(y, events[0]);
      if events[1..] != [] { assert Enabled(z, events[1..][0]); }
      LineStaysOk(y, e);
      if e.Tick? { AnswerSendsNext(y, e); } else { OtherStepsCostNothing(y, e); }
      AnswersAreRoundTrips(z, events[1..]);
    }
  }

  /** Nothing pending and the line free. */
  predicate Idle(f: Fw) {
    f.mask == {} && !f.busy
  }

  /** After the first `k` events the mask has drained. */
  ghost predicate IdleAfter(y: Sys, events: seq<Event>, k: nat) {
    k <= |events| && Possible(y, events[..k]) && Idle(Run(y, events[..k]).fw)
  }

  lemma IdleLater(y: Sys, events: seq<Event>, k: nat)
    requires events != [] && Enabled(y, events[0]) && IdleAfter(UnitModel.Step(y, events[0]), events[1..], k)
    ensures IdleAfter(y, events, k + 1)
  {
    assert events[..k + 1][0] == events[0] && events[..k + 1][1..] == events[1..][..k];
  }

  lemma IdleNow(y: Sys, events: seq<Event>)
    requires Idle(y.fw)
    ensures IdleAfter(y, events, 0)
  {
    assert events[..0] == [];
  }

  /** One step while the mask is served: it is still served, with less work by the answer that came
      in, or the line is free and nothing is pending. */
  lemma ServedStep(y: Sys, e: Event)
    requires Enabled(y, e) && LineOk(y) && !e.AppImage? && Serving(y.fw)
    requires UnitModel.Step(y, e).fw.com == WbmConnected
    ensures var g := UnitModel.Step(y, e).fw;
            Idle(g) || (Serving(g) && Work(g) + (if Answered(e) then 1 else 0) <= Work(y.fw))
  {
    if e.Tick? {
      TickCost(y, e);
      if Serving(UnitModel.Step(y, e).fw) { AnswerSendsNext(y, e); }
    } else {
      OtherStepsCostNothing(y, e);
    }
  }

  /** The mask drains: while it is being served and no new image comes, once more results have
      come in, good or rejected, than there was work, some state on the way had an empty mask and a
      free line. */
  lemma {:induction false} DrainsWithin(y: Sys, events: seq<Event>) returns (k: nat)
    requires LineOk(y) && Possible(y, events) && Serving(y.fw)
    requires forall e | e in events :: !e.AppImage?
    requires Run(y, events).fw.com == WbmConnected
    requires AnsweredIn(events) > Work(y.fw)
    ensures IdleAfter(y, events, k)
    decreases |events|
  {
    var e, z := events[0], UnitModel.Step(y, events[0]);
    if events[1..] != [] { assert Enabled(z, events[1..][0]); }
    LineStaysOk(y, e);
    ServedStep(y, e);
    if Idle(z.fw) {
      IdleNow(z, events[1..]);
      k := 0;
    } else {
      k := DrainsWithin(z, events[1..]);
    }
    IdleLater(y, events, k);
    k := k + 1;
  }

  lemma WorkBound(f: Fw)
    ensures Work(f) <= if Awaits(f, false) then 33 else 29
  {
  }

  /** From a free line with anything pending: once the first request has gone out, 29 results are
      enough, so 29 round trips. */
  lemma {:induction false} TwentyNineRoundTrips(y: Sys, events: seq<Event>) returns (k: nat)
    requires LineOk(y) && Possible(y, events) && !y.fw.busy
    requires forall e | e in events :: !e.AppImage?
    requires Run(y, events).fw.com == WbmConnected
    requires events != [] && events[0].Tick? && Serving(UnitModel.Step(y, events[0]).fw)
    requires AnsweredIn(events[1..]) >= 29
    ensures IdleAfter(y, events, k)
  {
    var z := UnitModel.Step(y, events[0]);
    assert Enabled(z, events[1..][0]);
    LineStaysOk(y, events[0]);
    UnservedStep(y, events[0]);
    k := DrainsWithin(z, events[1..]);
    IdleLater(y, events, k);
    k := k + 1;
  }

  lemma TimersOnFreeLine(f: Fw, clock: Readings)
    requires !Serving(f) && Timers(f, clock).com == WbmConnected
    ensures var g := Timers(f, clock);
            !Serving(g) && (f.busy ==> g.busy) && g.mask == f.mask
  {
  }

  lemma UnservedReply(y: Sys, e: Event)
    requires e.Tick? && Enabled(y, e) && LineOk(y) && !Serving(y.fw)
    ensures var h := HandleResult(y.fw, e.clock.message, e.val, e.rx);
            && Known(h.mask) && !Serving(h) && (Answered(e) ==> !h.busy)
  {
  }

  /** A step while no read or write is out: an answer, if any, is followed by the first read or
      write, or nothing is pending. */
  lemma UnservedStep(y: Sys, e: Event)
    requires Enabled(y, e) && LineOk(y) && !e.AppImage? && !Serving(y.fw)
    requires UnitModel.Step(y, e).fw.com == WbmConnected
    ensures var g := UnitModel.Step(y, e).fw;
            && (Answered(e) ==> Serving(g) || Idle(g))
            && (Serving(g) ==> Work(g) <= 28)
  {
    if e.Tick? {
      var y1 := y.(fw := Timers(y.fw, e.clock));
      TimersSimulated(Info, y, e.clock);
      TimersOnFreeLine(y.fw, e.clock);
      UnservedReply(y1, e);
      FirstRequest(HandleResult(y1.fw, e.clock.message, e.val, e.rx));
    } else {
      OtherStepsCostNothing(y, e);
    }
  }

  lemma FirstRequest(h: Fw)
    requires Known(h.mask) && !Serving(h)
    ensures var g := Dispatch(h);
            && (Serving(g) ==> Work(g) <= 28)
            && (!h.busy ==> Serving(g) || Idle(g))
  {
    WorkBound(h);
    if h.mask != {} && !h.busy { DispatchCost(h); }
  }

  /** From any state at all the mask has drained after 34 results, or 30 if no write is out. */
  lemma {:induction false} DrainsFromAnywhere(y: Sys, events: seq<Event>) returns (k: nat)
    requires LineOk(y) && Possible(y, events)
    requires forall e | e in events :: !e.AppImage?
    requires Run(y, events).fw.com == WbmConnected
    requires AnsweredIn(events) >= if Awaits(y.fw, false) then 34 else 30
    ensures IdleAfter(y, events, k)
    decreases |events|
  {
    WorkBound(y.fw);
    if Idle(y.fw) {
      IdleNow(y, events);
      k := 0;
    } else if Serving(y.fw) {
      k := DrainsWithin(y, events);
    } else {
      var e, z := events[0], UnitModel.Step(y, events[0]);
      if events[1..] != [] { assert Enabled(z, events[1..][0]); }
      LineStaysOk(y, e);
      UnservedStep(y, e);
      if Idle(z.fw) {
        IdleNow(z, events[1..]);
        k := 0;
      } else if Serving(z.fw) {
        k := DrainsWithin(z, events[1..]);
      } else {
        k := DrainsFromAnywhere(z, events[1..]);
      }
      IdleLater(y, events, k);
      k := k + 1;
    }
  }
}
