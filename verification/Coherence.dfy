/** The mirror is a coherent copy of the unit: whatever app images arrive, whatever the unit changes,
    refuses or leaves any counter on, and whatever is rejected on the line, a section is coherent in
    every state of a run exactly if no result loses it. */
module Coherence {
  import opened Bytes
  import opened EepromLayout
  import opened Codec
  import opened Requests
  import opened Firmware
  import opened RequestMask
  import opened UnitModel
  import opened Simulation
  import SC = SectionCell

  /** Equal to the unit's, or known to differ, or already being fetched or pushed. */
  predicate Coherent(s: Section, y: Sys)
    requires Counted(s)
  {
    || Content(y.fw.mirror, s) == Content(y.unit, s)
    || Counter(y.fw.mirror, s) != Counter(y.unit, s)
    || Pending(y.fw.mask, s)
    || Outstanding(s, y.fw)
  }

  /** A read or a write of section `s` is outstanding. */
  predicate Outstanding(s: Section, f: Fw) {
    f.busy && f.sent != [] && (Last(f).Read? || Last(f).Write?) && Last(f).section == s
  }

  // ---- The changes the mirror has not seen ----

  /** A result that ends a read or write of section `s` without bringing its bytes, confirming them or
      asking for them: a rejected one, or a refusal of the write with the mirror's own counter. Neither a
      read nor a write of the section is pending. */
  predicate Drops(s: Section, y: Sys, e: Event)
    requires Counted(s)
  {
    && e.Tick? && Outstanding(s, y.fw) && !Pending(y.fw.mask, s)
    && (e.val < 0 || (e.val > RUN_DOWNLOAD && RefusedWith(s, y, Counter(y.fw.mirror, s))))
  }

  /** The reply under way refuses a write, and its counter for section `s` is `k`. */
  predicate RefusedWith(s: Section, y: Sys, k: Byte)
    requires Counted(s)
  {
    y.reply.Some? && y.reply.value.WriteReply? && !y.reply.value.accepted && y.reply.value.counters.Of(s) == k
  }

  /** Section `s` after the delivery of reply `r`. */
  function LandedGap(s: Section, y: Sys, r: Reply, g: SC.Gap): SC.Gap
    requires Counted(s)
  {
    match r
    case ReadReply(t, _) => if t == s then SC.Gap(g.late, g.late, g.late, true) else g
    case WriteReply(c, accepted) =>
      if accepted && Outstanding(s, y.fw) then SC.Gap(g.late, g.late, g.late, WriteBit(s) !in y.fw.mask)
      else g.(since := g.late, known := g.known && c.Of(s) == Counter(y.fw.mirror, s))
    case _ => g
  }

  /** The age of section `s` of the mirror. While `known`, it is what the unit held `unseen` of its
      changes ago: an image ends that, and so does a foreign counter; fetched and accepted bytes bring it
      back, and a dropped copy is as old as its counter says. since counts the unit's changes since
      the counter adopted last was the unit's, late those since the reply under way was made. */
  function GapAfter(s: Section, y: Sys, e: Event, g: SC.Gap): SC.Gap
    requires Counted(s)
  {
    match e
    case UnitChange(t, _) =>
      if t == s then g.(unseen := g.unseen + 1, late := g.late + 1, since := g.since + 1) else g
    case UnitServe(_) => g.(late := 0, known := g.known && !(Outstanding(s, y.fw) && Last(y.fw).Write?))
    case UnitRefuse => g.(late := 0)
    case AppImage(_) => g.(known := false)
    case Tick(_, val, _) =>
      if Drops(s, y, e) && !g.known then
        SC.Gap(SC.Distance(Content(y.fw.mirror, s), Content(y.unit, s)), g.late, g.since, true)
      else if val > RUN_DOWNLOAD && y.reply.Some? then LandedGap(s, y, y.reply.value, g)
      else g
  }

  /** The result loses section `s`: it drops bytes that are not the unit's, and by then the unit's
      counter is the mirror's. For a rejected re-read that means that the unit's changes since the counter
      was adopted are a multiple of 256; for a rejected write, that the frame was sent with the unit's
      counter; for a refused one, that the unit's changes since the refusal are a multiple of 256. */
  predicate Loses(s: Section, y: Sys, e: Event, g: SC.Gap)
    requires Counted(s) && LineOk(y)
  {
    && Drops(s, y, e) && !g.known
    && (if e.val > RUN_DOWNLOAD then g.late % 256 == 0
        else if Last(y.fw).Write? then SC.Ctr(Last(y.fw).data) == Counter(y.unit, s)
        else g.since % 256 == 0)
    && Content(y.fw.mirror, s) != Content(y.unit, s)
  }

  function GapRun(s: Section, y: Sys, events: seq<Event>, g: SC.Gap): SC.Gap
    requires Counted(s) && Possible(y, events)
    decreases |events|
  {
    if events == [] then g
    else GapRun(s, UnitModel.Step(y, events[0]), events[1..], GapAfter(s, y, events[0], g))
  }

  // ---- One step of the system keeps what every cell event keeps ----

  /** An iteration is three cell events: the timers, the result of Read_Message, the dispatcher. */
  lemma TickInStages(s: Section, y: Sys, e: Event)
    returns (timer: SC.Event, c1: SC.Cell, c2: SC.Cell, take: SC.Event)
    requires Counted(s) && e.Tick? && Enabled(y, e) && LineOk(y)
    requires UnitModel.Step(y, e).fw.com == WbmConnected
    ensures Timers(y.fw, e.clock).com == WbmConnected && LineOk(y.(fw := Timers(y.fw, e.clock)))
    ensures LineOk(UnitModel.Step(y, e))
    ensures timer == SC.Timer || timer == SC.Take(SC.TakeNone)
    ensures SC.Enabled(CellOf(s, y), timer) && c1 == SC.Step(CellOf(s, y), timer)
    ensures SC.Enabled(c1, OutcomeOf(e.val)) && c2 == SC.Step(c1, OutcomeOf(e.val))
    ensures take.Take? && SC.Enabled(c2, take)
    ensures CellOf(s, UnitModel.Step(y, e)) == SC.Step(c2, take)
  {
    var y1 := y.(fw := Timers(y.fw, e.clock));
    TimersSimulated(s, y, e.clock);
    timer, c1 := TimerEvent(y.fw, e.clock), CellOf(s, y1);
    var y2 := Handled(y1, e.clock.message, e.val, e.rx);
    HandleSimulated(s, y1, e.clock.message, e.val, e.rx);
    c2, take := CellOf(s, y2), TakeEvent(s, y2.fw);
    DispatchSimulated(s, y2);
    assert UnitModel.Step(y, e) == y2.(fw := Dispatch(y2.fw));
  }

  /** No write is pending or outstanding. */
  predicate WriteFree(f: Fw) {
    f.mask !! WRITE_BITS && (f.busy ==> f.sent != [] && !Last(f).Write?)
  }

  lemma TimersWriteFree(f: Fw, clock: Readings)
    requires WriteFree(f)
    ensures WriteFree(Timers(f, clock))
  {
  }

  lemma DispatchWriteFree(f: Fw)
    requires WriteFree(f) && Known(f.mask)
    ensures WriteFree(Dispatch(f))
  {
    if f.mask != {} && !f.busy { DispatchSendsChoice(f); }
  }

  lemma HandleWriteFree(y: Sys, e: Event)
    requires e.Tick? && Enabled(y, e) && LineOk(y) && WriteFree(y.fw)
    ensures var h := HandleResult(y.fw, e.clock.message, e.val, e.rx);
            WriteFree(h) && Known(h.mask)
  {
  }

  lemma TickWriteFree(y: Sys, e: Event)
    requires e.Tick? && Enabled(y, e) && LineOk(y) && WriteFree(y.fw)
    requires LineOk(y.(fw := Timers(y.fw, e.clock))) && Timers(y.fw, e.clock).com == WbmConnected
    ensures WriteFree(UnitModel.Step(y, e).fw)
  {
    var y1 := y.(fw := Timers(y.fw, e.clock));
    TimersWriteFree(y.fw, e.clock);
    HandleWriteFree(y1, e);
    DispatchWriteFree(HandleResult(y1.fw, e.clock.message, e.val, e.rx));
  }

  lemma DropsShow(s: Section, y: Sys, e: Event)
    requires Counted(s) && e.Tick? && Enabled(y, e) && LineOk(y)
    ensures Drops(s, y, e) <==> SC.Drops(CellOf(s, y), OutcomeOf(e.val))
  {
    CounterIsLast(y.fw.mirror, s);
  }

  lemma LandedShows(s: Section, y: Sys, g: SC.Gap)
    requires Counted(s) && LineOk(y) && y.reply.Some?
    ensures LandedGap(s, y, y.reply.value, g) == SC.LandedGap(CellOf(s, y), g)
  {
    CounterIsLast(y.fw.mirror, s);
  }

  /** A result in the cell of section `s`. */
  lemma ResultShows(s: Section, y: Sys, e: Event, g: SC.Gap)
    requires Counted(s) && e.Tick? && Enabled(y, e) && LineOk(y)
    ensures var c := CellOf(s, y);
            && (Drops(s, y, e) <==> SC.Drops(c, OutcomeOf(e.val)))
            && (Loses(s, y, e, g) <==> SC.Loses(c, OutcomeOf(e.val), g))
            && GapAfter(s, y, e, g) == SC.GapAfter(c, OutcomeOf(e.val), g)
  {
    DropsShow(s, y, e);
    if e.val > RUN_DOWNLOAD { LandedShows(s, y, g); }
    CounterIsLast(y.unit, s);
  }

  /** A poll or debug request on a free line makes no difference to a result. */
  lemma TimerLeavesResult(c: SC.Cell, timer: SC.Event, outcome: SC.Event, g: SC.Gap)
    requires (timer == SC.Timer || timer == SC.Take(SC.TakeNone)) && SC.Enabled(c, timer) && outcome.Result?
    ensures var c1 := SC.Step(c, timer);
            && (SC.Drops(c1, outcome) <==> SC.Drops(c, outcome))
            && (SC.Loses(c1, outcome, g) <==> SC.Loses(c, outcome, g))
            && SC.GapAfter(c1, outcome, g) == SC.GapAfter(c, outcome, g)
  {
  }

  /** What each regime excludes. Tracked: the results that lose section `s`. CatchUp: app images, the
      unit's own changes, and the results that drop the section. */
  predicate Admits(r: SC.Regime, s: Section, y: Sys, e: Event, g: SC.Gap)
    requires Counted(s) && LineOk(y)
  {
    match r
    case Tracked => !Loses(s, y, e, g)
    case CatchUp => !e.AppImage? && !e.UnitChange? && !Drops(s, y, e)
  }

  predicate AdmitsAll(r: SC.Regime, s: Section, y: Sys, events: seq<Event>, g: SC.Gap)
    requires Counted(s) && Possible(y, events)
    decreases |events|
  {
    events == [] ||
    (LineOk(y) && Admits(r, s, y, events[0], g)
     && AdmitsAll(r, s, UnitModel.Step(y, events[0]), events[1..], GapAfter(s, y, events[0], g)))
  }

  predicate Keeps(r: SC.Regime, s: Section, y: Sys, g: SC.Gap)
    requires Counted(s)
  {
    LineOk(y) && SC.Holds(r, CellOf(s, y), g)
  }

  lemma {:induction false} TickKeeps(r: SC.Regime, s: Section, y: Sys, e: Event, g: SC.Gap)
    requires Counted(s) && e.Tick? && Enabled(y, e) && Keeps(r, s, y, g) && Admits(r, s, y, e, g)
    requires UnitModel.Step(y, e).fw.com == WbmConnected
    ensures Keeps(r, s, UnitModel.Step(y, e), GapAfter(s, y, e, g))
  {
    var timer, c1, _, take := TickInStages(s, y, e);
    ResultShows(s, y, e, g);
    TimerLeavesResult(CellOf(s, y), timer, OutcomeOf(e.val), g);
    SC.IterationKeeps(r, CellOf(s, y), timer, OutcomeOf(e.val).outcome, take, g);
  }

  /** Section `s` has other bytes than the unit's under the unit's own counter, and neither a read nor a
      write of it is pending or outstanding, nor does the reply under way tell of another counter. */
  predicate Stale(s: Section, y: Sys)
    requires Counted(s)
  {
    LineOk(y) && SC.Stale(CellOf(s, y))
  }

  lemma StaleIsIncoherent(s: Section, y: Sys)
    requires Counted(s) && Stale(s, y)
    ensures !Coherent(s, y)
  {
    CellShows(s, y);
  }

  /** A result that loses the section leaves it stale. */
  lemma {:induction false} LostIsStale(s: Section, y: Sys, e: Event, g: SC.Gap)
    requires Counted(s) && Enabled(y, e) && Keeps(SC.Tracked, s, y, g) && Loses(s, y, e, g)
    requires UnitModel.Step(y, e).fw.com == WbmConnected
    ensures Stale(s, UnitModel.Step(y, e)) && !Coherent(s, UnitModel.Step(y, e))
  {
    var timer, c1, _, take := TickInStages(s, y, e);
    ResultShows(s, y, e, g);
    TimerLeavesResult(CellOf(s, y), timer, OutcomeOf(e.val), g);
    SC.IterationLoses(CellOf(s, y), timer, OutcomeOf(e.val).outcome, take, g);
    StaleIsIncoherent(s, UnitModel.Step(y, e));
  }

  /** The unit does not change section `s`, and no app image arrives. */
  predicate Leaves(s: Section, e: Event) {
    !e.AppImage? && !(e.UnitChange? && e.section == s)
  }

  lemma StaleBesideChange(s: Section, y: Sys, e: Event)
    requires Counted(s) && Enabled(y, e) && Stale(s, y) && e.UnitChange? && e.section != s
    ensures Stale(s, UnitModel.Step(y, e))
  {
    ChangeSimulated(s, y, e);
    assert ChangeEvent(s, e) == SC.Take(SC.TakeNone);
    SC.StaleStays(CellOf(s, y), SC.Take(SC.TakeNone));
  }

  lemma StaleServed(s: Section, y: Sys, e: Event)
    requires Counted(s) && Enabled(y, e) && Stale(s, y) && (e.UnitServe? || e.UnitRefuse?)
    ensures Stale(s, UnitModel.Step(y, e))
  {
    if e.UnitServe? {
      ServeSimulated(s, y, e);
      SC.StaleStays(CellOf(s, y), ServeEvent(s, y, e));
    } else {
      RefuseSimulated(s, y);
      SC.StaleStays(CellOf(s, y), RefuseEvent(s, y));
    }
  }

  lemma StaleTick(s: Section, y: Sys, e: Event)
    requires Counted(s) && Enabled(y, e) && Stale(s, y) && e.Tick?
    requires UnitModel.Step(y, e).fw.com == WbmConnected
    ensures Stale(s, UnitModel.Step(y, e))
  {
    var timer, _, _, take := TickInStages(s, y, e);
    SC.IterationStaysStale(CellOf(s, y), timer, OutcomeOf(e.val).outcome, take);
  }

  lemma StaleStep(s: Section, y: Sys, e: Event)
    requires Counted(s) && Enabled(y, e) && Stale(s, y) && Leaves(s, e)
    requires UnitModel.Step(y, e).fw.com == WbmConnected
    ensures Stale(s, UnitModel.Step(y, e))
  {
    match e
    case UnitChange(_, _) => StaleBesideChange(s, y, e);
    case UnitServe(_) => StaleServed(s, y, e);
    case UnitRefuse => StaleServed(s, y, e);
    case Tick(_, _, _) => StaleTick(s, y, e);
  }

  /** Stale for good: whatever is polled, read, written, refused or rejected, until the unit changes the
      section or an app image arrives. */
  lemma {:induction false} StaleForGood(s: Section, y: Sys, events: seq<Event>)
    requires Counted(s) && Stale(s, y) && Possible(y, events)
    requires forall e | e in events :: Leaves(s, e)
    requires Run(y, events).fw.com == WbmConnected
    ensures Stale(s, Run(y, events)) && !Coherent(s, Run(y, events))
    decreases |events|
  {
    if events == [] {
      StaleIsIncoherent(s, y);
    } else {
      StaysConnected(y, events);
      StaleStep(s, y, events[0]);
      StaleForGood(s, UnitModel.Step(y, events[0]), events[1..]);
    }
  }

  lemma CellShows(s: Section, y: Sys)
    requires Counted(s) && LineOk(y)
    ensures Coherent(s, y) <==> SC.Coherent(CellOf(s, y))
  {
    CounterIsLast(y.fw.mirror, s);
    CounterIsLast(y.unit, s);
  }

  lemma ChangeKeeps(r: SC.Regime, s: Section, y: Sys, e: Event, g: SC.Gap)
    requires Counted(s) && e.UnitChange? && Enabled(y, e) && Keeps(r, s, y, g) && Admits(r, s, y, e, g)
    ensures Keeps(r, s, UnitModel.Step(y, e), GapAfter(s, y, e, g))
  {
    ChangeSimulated(s, y, e);
    SC.StepKeeps(r, CellOf(s, y), ChangeEvent(s, e), g);
  }

  lemma ServeKeeps(r: SC.Regime, s: Section, y: Sys, e: Event, g: SC.Gap)
    requires Counted(s) && e.UnitServe? && Enabled(y, e) && Keeps(r, s, y, g)
    ensures Keeps(r, s, UnitModel.Step(y, e), GapAfter(s, y, e, g))
  {
    ServeSimulated(s, y, e);
    SC.StepKeeps(r, CellOf(s, y), ServeEvent(s, y, e), g);
    assert SC.GapAfter(CellOf(s, y), ServeEvent(s, y, e), g) == GapAfter(s, y, e, g);
  }

  lemma RefuseKeeps(r: SC.Regime, s: Section, y: Sys, g: SC.Gap)
    requires Counted(s) && Enabled(y, UnitRefuse) && Keeps(r, s, y, g)
    ensures Keeps(r, s, UnitModel.Step(y, UnitRefuse), GapAfter(s, y, UnitRefuse, g))
  {
    RefuseSimulated(s, y);
    SC.StepKeeps(r, CellOf(s, y), RefuseEvent(s, y), g);
    assert SC.GapAfter(CellOf(s, y), RefuseEvent(s, y), g) == GapAfter(s, y, UnitRefuse, g);
  }

  lemma ImageKeeps(r: SC.Regime, s: Section, y: Sys, e: Event, g: SC.Gap)
    requires Counted(s) && e.AppImage? && Enabled(y, e) && Keeps(r, s, y, g) && Admits(r, s, y, e, g)
    ensures Keeps(r, s, UnitModel.Step(y, e), GapAfter(s, y, e, g))
  {
    ImageSimulated(s, y, e);
    SC.StepKeeps(r, CellOf(s, y), SC.Image(Content(e.image, s)), g);
  }

  lemma {:induction false} StepKeeps(r: SC.Regime, s: Section, y: Sys, e: Event, g: SC.Gap)
    requires Counted(s) && Enabled(y, e) && Keeps(r, s, y, g) && Admits(r, s, y, e, g)
    requires UnitModel.Step(y, e).fw.com == WbmConnected
    ensures Keeps(r, s, UnitModel.Step(y, e), GapAfter(s, y, e, g))
  {
    match e
    case UnitChange(_, _) => ChangeKeeps(r, s, y, e, g);
    case UnitServe(_) => ServeKeeps(r, s, y, e, g);
    case UnitRefuse => RefuseKeeps(r, s, y, g);
    case AppImage(_) => ImageKeeps(r, s, y, e, g);
    case Tick(_, _, _) => TickKeeps(r, s, y, e, g);
  }

  lemma StaysConnected(y: Sys, events: seq<Event>)
    requires events != [] && Possible(y, events) && Run(y, events).fw.com == WbmConnected
    ensures UnitModel.Step(y, events[0]).fw.com == WbmConnected
  {
    if events[1..] != [] { assert Enabled(UnitModel.Step(y, events[0]), events[1..][0]); }
  }

  lemma {:induction false} RunKeeps(r: SC.Regime, s: Section, y: Sys, events: seq<Event>, g: SC.Gap)
    requires Counted(s) && Possible(y, events) && Keeps(r, s, y, g)
    requires AdmitsAll(r, s, y, events, g)
    requires Run(y, events).fw.com == WbmConnected
    ensures Keeps(r, s, Run(y, events), GapRun(s, y, events, g))
    decreases |events|
  {
    if events != [] {
      var z := UnitModel.Step(y, events[0]);
      StaysConnected(y, events);
      StepKeeps(r, s, y, events[0], g);
      RunKeeps(r, s, z, events[1..], GapAfter(s, y, events[0], g));
    }
  }

  // ---- The theorems ----

  /** Where the handshake leaves section `s`: the line free, and either a copy of what the unit held
      `unseen` of its own changes ago, or bytes of an app image whose write is pending. */
  predicate Started(s: Section, y: Sys, g: SC.Gap)
    requires Counted(s)
  {
    && y.fw.com == WbmConnected && !y.fw.busy && y.reply == None && Known(y.fw.mask)
    && (if g.known then SC.Stamped(Content(y.fw.mirror, s), Content(y.unit, s), g.unseen)
        else WriteBit(s) in y.fw.mask)
  }

  lemma StartedKeeps(s: Section, y: Sys, g: SC.Gap)
    requires Counted(s) && Started(s, y, g)
    ensures Keeps(SC.Tracked, s, y, g)
  {
  }

  /** Fewer than 256 changes of the unit that a copy of known age has not seen. */
  predicate Few(g: SC.Gap) {
    g.known ==> g.unseen < 256
  }

  lemma KeptIsCoherent(s: Section, y: Sys, g: SC.Gap)
    requires Counted(s) && Keeps(SC.Tracked, s, y, g) && Few(g)
    ensures Coherent(s, y)
  {
    SC.InvIsCoherent(CellOf(s, y), g);
    CellShows(s, y);
  }

  /** App images may arrive at any moment, the unit may change any section at any moment, may refuse any
      write and serves requests whenever it likes; any result may be rejected. In every Connected state
      of a run in which no result loses the section, it is coherent. */
  lemma {:induction false} CoherentWithWrites(y: Sys, g: SC.Gap, events: seq<Event>, s: Section)
    requires Counted(s) && Started(s, y, g) && Possible(y, events)
    requires AdmitsAll(SC.Tracked, s, y, events, g)
    requires Run(y, events).fw.com == WbmConnected && Few(GapRun(s, y, events, g))
    ensures Coherent(s, Run(y, events))
  {
    StartedKeeps(s, y, g);
    RunKeeps(SC.Tracked, s, y, events, g);
    KeptIsCoherent(s, Run(y, events), GapRun(s, y, events, g));
  }

  predicate AlwaysFew(s: Section, y: Sys, events: seq<Event>, g: SC.Gap)
    requires Counted(s) && Possible(y, events)
    decreases |events|
  {
    Few(g) && (events != [] ==>
      AlwaysFew(s, UnitModel.Step(y, events[0]), events[1..], GapAfter(s, y, events[0], g)))
  }

  predicate AlwaysCoherent(s: Section, y: Sys, events: seq<Event>)
    requires Counted(s) && Possible(y, events)
    decreases |events|
  {
    Coherent(s, y) && (events != [] ==> AlwaysCoherent(s, UnitModel.Step(y, events[0]), events[1..]))
  }

  lemma {:induction false} CoherentFrom(y: Sys, g: SC.Gap, events: seq<Event>, s: Section)
    requires Counted(s) && Keeps(SC.Tracked, s, y, g) && Possible(y, events)
    requires Run(y, events).fw.com == WbmConnected && AlwaysFew(s, y, events, g)
    ensures AlwaysCoherent(s, y, events) <==> AdmitsAll(SC.Tracked, s, y, events, g)
    decreases |events|
  {
    KeptIsCoherent(s, y, g);
    if events != [] {
      var z := UnitModel.Step(y, events[0]);
      StaysConnected(y, events);
      if Loses(s, y, events[0], g) {
        LostIsStale(s, y, events[0], g);
      } else {
        StepKeeps(SC.Tracked, s, y, events[0], g);
        CoherentFrom(z, GapAfter(s, y, events[0], g), events[1..], s);
      }
    }
  }

  /** And only of such a run: the section is coherent in every state exactly if no result loses it. */
  lemma {:induction false} CoherentExactly(y: Sys, g: SC.Gap, events: seq<Event>, s: Section)
    requires Counted(s) && Started(s, y, g) && Possible(y, events)
    requires Run(y, events).fw.com == WbmConnected && AlwaysFew(s, y, events, g)
    ensures AlwaysCoherent(s, y, events) <==> AdmitsAll(SC.Tracked, s, y, events, g)
  {
    StartedKeeps(s, y, g);
    CoherentFrom(y, g, events, s);
  }

  // ---- The counter as a version stamp ----

  predicate SameVersion(s: Section, y: Sys)
    requires Counted(s)
  {
    Counter(y.fw.mirror, s) == Counter(y.unit, s) <==> Content(y.fw.mirror, s) == Content(y.unit, s)
  }

  /** In any such run, while a section is a copy of known age it has the unit's counter exactly when it
      has the unit's bytes. */
  lemma {:induction false} KnownIsVersion(y: Sys, g: SC.Gap, events: seq<Event>, s: Section)
    requires Counted(s) && Started(s, y, g) && Possible(y, events)
    requires AdmitsAll(SC.Tracked, s, y, events, g)
    requires Run(y, events).fw.com == WbmConnected
    requires var h := GapRun(s, y, events, g); h.known && h.unseen < 256
    ensures SameVersion(s, Run(y, events))
  {
    StartedKeeps(s, y, g);
    RunKeeps(SC.Tracked, s, y, events, g);
    var z := Run(y, events);
    SC.KnownIsVersion(CellOf(s, z), GapRun(s, y, events, g));
    CounterIsLast(z.fw.mirror, s);
    CounterIsLast(z.unit, s);
  }

  lemma ReadsAreWriteFree(f: Fw)
    requires !f.busy && f.mask <= READ_BITS
    ensures WriteFree(f)
  {
  }

  lemma WriteFreeStep(s: Section, y: Sys, e: Event, g: SC.Gap)
    requires Counted(s) && Enabled(y, e) && LineOk(y) && WriteFree(y.fw) && !e.AppImage? && g.known
    requires UnitModel.Step(y, e).fw.com == WbmConnected
    ensures WriteFree(UnitModel.Step(y, e).fw) && GapAfter(s, y, e, g).known && !Loses(s, y, e, g)
  {
    if e.Tick? {
      var _, _, _, _ := TickInStages(s, y, e);
      TickWriteFree(y, e);
    }
  }

  lemma {:induction false} WriteFreeRun(s: Section, y: Sys, events: seq<Event>, g: SC.Gap)
    requires Counted(s) && Possible(y, events) && Keeps(SC.Tracked, s, y, g) && WriteFree(y.fw) && g.known
    requires forall e | e in events :: !e.AppImage?
    requires Run(y, events).fw.com == WbmConnected
    ensures AdmitsAll(SC.Tracked, s, y, events, g) && GapRun(s, y, events, g).known
    decreases |events|
  {
    if events != [] {
      var z := UnitModel.Step(y, events[0]);
      StaysConnected(y, events);
      WriteFreeStep(s, y, events[0], g);
      StepKeeps(SC.Tracked, s, y, events[0], g);
      WriteFreeRun(s, z, events[1..], GapAfter(s, y, events[0], g));
    }
  }

  /** Without app images nothing is ever lost, whatever is rejected: the update counter is a version
      stamp in every state. */
  lemma {:induction false} CounterIsVersion(y: Sys, g: SC.Gap, events: seq<Event>, s: Section)
    requires Counted(s) && Started(s, y, g) && g.known && y.fw.mask <= READ_BITS && Possible(y, events)
    requires forall e | e in events :: !e.AppImage?
    requires Run(y, events).fw.com == WbmConnected
    requires GapRun(s, y, events, g).unseen < 256
    ensures SameVersion(s, Run(y, events))
  {
    StartedKeeps(s, y, g);
    ReadsAreWriteFree(y.fw);
    WriteFreeRun(s, y, events, g);
    KnownIsVersion(y, g, events, s);
  }

  // ---- Once the unit and the app are quiet ----

  /** Nothing pending and no read or write outstanding. */
  predicate Drained(y: Sys) {
    y.fw.mask == {} && (y.fw.busy && y.fw.sent != [] ==> !Last(y.fw).Read? && !Last(y.fw).Write?)
  }

  lemma {:induction false} PollStepMakesCurrent(s: Section, y: Sys, e: Event, g: SC.Gap)
    requires Counted(s) && Enabled(y, e) && e.Tick? && e.val > RUN_DOWNLOAD
    requires Keeps(SC.Tracked, s, y, g)
    requires Few(g) && y.reply == Some(PollReply(CountersOf(y.unit)))
    requires UnitModel.Step(y, e).fw.com == WbmConnected
    ensures Keeps(SC.CatchUp, s, UnitModel.Step(y, e), g)
  {
    CounterIsLast(y.unit, s);
    var timer, c1, c2, take := TickInStages(s, y, e);
    SC.PollIteration(CellOf(s, y), timer, take, g);
  }

  lemma CurrentIsCopied(s: Section, y: Sys, g: SC.Gap)
    requires Counted(s) && Keeps(SC.CatchUp, s, y, g) && Drained(y)
    ensures Content(y.fw.mirror, s) == Content(y.unit, s)
  {
  }

  /** A poll reply taken in by the first of `events`, and quiet events up to a drained mask. */
  predicate QuietDrain(s: Section, y: Sys, events: seq<Event>, g: SC.Gap)
    requires Counted(s) && Possible(y, events)
  {
    && events != []
    && y.reply == Some(PollReply(CountersOf(y.unit)))
    && events[0].Tick? && events[0].val > RUN_DOWNLOAD
    && AdmitsAll(SC.CatchUp, s, y, events, g)
    && Run(y, events).fw.com == WbmConnected && Drained(Run(y, events))
  }

  lemma {:induction false} QuietDrainCopies(s: Section, y: Sys, events: seq<Event>, g: SC.Gap)
    requires Counted(s) && Possible(y, events) && QuietDrain(s, y, events, g)
    requires Keeps(SC.Tracked, s, y, g) && Few(g)
    ensures Content(Run(y, events).fw.mirror, s) == Content(Run(y, events).unit, s)
  {
    var z := UnitModel.Step(y, events[0]);
    StaysConnected(y, events);
    PollStepMakesCurrent(s, y, events[0], g);
    RunKeeps(SC.CatchUp, s, z, events[1..], g);
    CurrentIsCopied(s, Run(y, events), GapRun(s, z, events[1..], g));
  }

  /** After any history in which no result loses the section: once unit and app are quiet, one poll reply
      followed by a drained mask makes the section equal to the unit's, if meanwhile no result drops it. */
  lemma {:induction false} QuietUnitIsCopied(y: Sys, g: SC.Gap, before: seq<Event>, after: seq<Event>, s: Section)
    requires Counted(s) && Started(s, y, g) && Possible(y, before)
    requires AdmitsAll(SC.Tracked, s, y, before, g)
    requires Run(y, before).fw.com == WbmConnected && Few(GapRun(s, y, before, g))
    requires Possible(Run(y, before), after) && QuietDrain(s, Run(y, before), after, GapRun(s, y, before, g))
    ensures var z := Run(Run(y, before), after);
            Content(z.fw.mirror, s) == Content(z.unit, s)
  {
    StartedKeeps(s, y, g);
    RunKeeps(SC.Tracked, s, y, before, g);
    QuietDrainCopies(s, Run(y, before), after, GapRun(s, y, before, g));
  }
}
