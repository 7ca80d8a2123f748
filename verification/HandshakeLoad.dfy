/** What the handshake loads: section by section a copy of what the unit held when it served the
    read, and the read bits of the sections that changed before the closing poll. An app image that
    arrives later than a section was read replaces the copy, and its write is pending at the end. */
module HandshakeLoad {
  import opened Bytes
  import opened EepromLayout
  import opened Codec
  import opened Requests
  import opened Firmware
  import opened RequestMask
  import opened Handshake
  import UM = UnitModel
  import SC = SectionCell
  import Simulation
  import Coherence

  // ---- The changes the mirror has not seen ----

  /** `copy` is what section `s` of the unit held `n` of its own changes ago. */
  predicate Fresh(s: Section, copy: seq<Byte>, theirs: seq<Byte>, n: nat)
    requires |copy| == |theirs| == Count(s)
  {
    if Counted(s) then SC.Stamped(copy, theirs, n) else n == 0 ==> copy == theirs
  }

  /** The call takes in a read reply with the bytes of section `s`. */
  predicate Brings(s: Section, h: HSys, e: Event) {
    Takes(h, e) && h.replies != [] && h.replies[0].ReadReply? && SameRange(h.replies[0].section, s)
  }

  /** copied: the mirror's bytes are a copy of the unit's, not of the last app image or the mirror at
      the start; unseen: the unit's changes to the section since that copy was the unit's; late: those since
      it last served a request. */
  datatype Age = Age(unseen: nat, late: nat, copied: bool)

  const UNREAD := Age(0, 0, false)

  function AgeAfter(s: Section, h: HSys, e: Event, g: Age): Age {
    match e
    case UnitChange(t, _) => if SameRange(t, s) then Age(g.unseen + 1, g.late + 1, g.copied) else g
    case UnitServe => g.(late := 0)
    case AppImage(_) => g.(copied := false)
    case Call(_, _, _, _) => if Brings(s, h, e) then Age(g.late, g.late, true) else g
    case _ => g
  }

  function AgeRun(s: Section, h: HSys, events: seq<Event>, g: Age): Age
    requires Possible(h, events)
    decreases |events|
  {
    if events == [] then g
    else AgeRun(s, Step(h, events[0]), events[1..], AgeAfter(s, h, events[0], g))
  }

  // ---- The invariant of the load, for one section ----

  /** The rank of the state that reads section `s`. */
  function ReadAt(s: Section): nat {
    match s
    case Info => 1
    case Configuration => 2
    case HWSetting => 2
    case SettingPar => 3
    case SetTemp => 4
    case DayProg => 5
  }

  /** Nothing but the awaited request is unanswered, and nothing but its reply under way. */
  predicate OnlyAwaited(h: HSys) {
    || (h.pending == [] && h.replies == [])
    || (h.fw.conn != LinkConnected && h.fw.conn != Connected
        && ((h.pending == [Awaited(h.fw.conn)] && h.replies == [])
            || (h.pending == [] && |h.replies| == 1 && UM.Answers(h.replies[0], Awaited(h.fw.conn)))))
  }

  /** The bytes no section covers. */
  predicate Uncovered(i: nat) {
    127 <= i < 133 || 238 <= i
  }

  predicate SameUncovered(e: Image, was: Image) {
    forall i | 0 <= i < EEPROM_SIZE && Uncovered(i) :: e[i] == was[i]
  }

  /** The counters `c` of a poll reply are those the unit had `late` changes ago. */
  predicate PolledAgo(s: Section, c: Counters, unit: Image, late: nat) {
    Counted(s) ==> (c.Of(s) + late) % 256 == Counter(unit, s)
  }

  predicate ReplyFresh(s: Section, r: UM.Reply, unit: Image, late: nat) {
    match r
    case ReadReply(t, data) =>
      |data| == Count(t) && (SameRange(t, s) ==> Fresh(s, data, Content(unit, s), late))
    case PollReply(c) => PolledAgo(s, c, unit, late)
    case _ => true
  }

  predicate NewsFresh(s: Section, h: HSys, late: nat) {
    h.replies != [] ==> ReplyFresh(s, h.replies[0], h.unit, late)
  }

  /** Section `s` of the mirror is a copy of the unit's, or what the last image (or the mirror at the
      start) had. */
  predicate From(s: Section, mirror: Image, unit: Image, g: Age, was: Image) {
    && SameUncovered(mirror, was)
    && if g.copied then Fresh(s, Content(mirror, s), Content(unit, s), g.unseen)
       else Content(mirror, s) == Content(was, s)
  }

  predicate Inv(s: Section, h: HSys, g: Age, b: Base) {
    && InLoad(h.fw.conn) && OnlyAwaited(h) && g.late <= g.unseen
    && !h.fw.busy && h.fw.mask == b.writes <= WRITE_BITS && |h.rx| == SERIAL_BUFFER
    && From(s, h.fw.mirror, h.unit, g, b.image)
    && NewsFresh(s, h, g.late)
    && (Rank(h.fw.conn) > ReadAt(s) && !g.copied ==> b.writes == WRITE_BITS)
    && (h.fw.conn == Connected ==> PolledAgo(s, CountersAt(h.rx, IRSP_CNT_UPDATE_EEP_INFO), h.unit, g.late))
  }

  // ---- The unit's steps ----

  lemma ChangeBeside(unit: Image, t: Section, data: seq<Byte>, s: Section)
    requires |data| == Count(t) && !SameRange(t, s)
    ensures Content(UM.Changed(unit, t, data), s) == Content(unit, s)
    ensures Counted(s) ==> Counter(UM.Changed(unit, t, data), s) == Counter(unit, s)
  {
    WriteKeepsOthers(unit, t, if Counted(t) then data[Count(t) - 1 := UM.ChangeCounter(unit, t)] else data, s);
  }

  lemma ChangedContent(unit: Image, s: Section, data: seq<Byte>)
    requires Counted(s) && |data| == Count(s)
    ensures Content(UM.Changed(unit, s, data), s) == SC.Marked(data, (SC.Ctr(Content(unit, s)) + 1) % 256)
  {
    NextCounter(unit, s);
    Simulation.StoredCell(unit, s, data, UM.ChangeCounter(unit, s), s);
    assert UM.Changed(unit, s, data) == UM.Stored(unit, s, data, UM.ChangeCounter(unit, s));
  }

  lemma NextCounter(unit: Image, s: Section)
    requires Counted(s)
    ensures UM.ChangeCounter(unit, s) == (SC.Ctr(Content(unit, s)) + 1) % 256
  {
    Simulation.CounterIsLast(unit, s);
  }

  lemma ChangeAges(s: Section, copy: seq<Byte>, unit: Image, data: seq<Byte>, n: nat)
    requires Counted(s) && |copy| == |data| == Count(s) && SC.Stamped(copy, Content(unit, s), n)
    ensures SC.Stamped(copy, Content(UM.Changed(unit, s, data), s), n + 1)
  {
    ChangedContent(unit, s, data);
    SC.StampedChange(copy, Content(unit, s), n, data);
  }

  lemma ChangeAgesFresh(s: Section, copy: seq<Byte>, unit: Image, t: Section, data: seq<Byte>, n: nat)
    requires |copy| == Count(s) && |data| == Count(t) && SameRange(t, s)
    requires Fresh(s, copy, Content(unit, s), n)
    ensures Fresh(s, copy, Content(UM.Changed(unit, t, data), s), n + 1)
  {
    if Counted(s) { ChangeAges(s, copy, unit, data, n); }
  }

  lemma ChangeAgesPoll(s: Section, c: Counters, unit: Image, data: seq<Byte>, late: nat)
    requires Counted(s) && |data| == Count(s) && PolledAgo(s, c, unit, late)
    ensures PolledAgo(s, c, UM.Changed(unit, s, data), late + 1)
  {
  }

  lemma ChangeBesideReply(s: Section, r: UM.Reply, unit: Image, t: Section, data: seq<Byte>, late: nat)
    requires |data| == Count(t) && !SameRange(t, s) && ReplyFresh(s, r, unit, late)
    ensures ReplyFresh(s, r, UM.Changed(unit, t, data), late)
  {
    ChangeBeside(unit, t, data, s);
  }

  lemma ChangeAgesReply(s: Section, r: UM.Reply, unit: Image, t: Section, data: seq<Byte>, late: nat)
    requires |data| == Count(t) && SameRange(t, s) && ReplyFresh(s, r, unit, late)
    ensures ReplyFresh(s, r, UM.Changed(unit, t, data), late + 1)
  {
    match r
    case ReadReply(u, bytes) => if SameRange(u, s) { ChangeAgesFresh(s, bytes, unit, t, data, late); }
    case PollReply(c) => if Counted(s) { ChangeAgesPoll(s, c, unit, data, late); }
    case _ =>
  }

  /** A reply after a change of section `t`, counted if it is a change of `s`. */
  lemma ReplyAfterChange(s: Section, r: UM.Reply, unit: Image, t: Section, data: seq<Byte>, late: nat)
    requires |data| == Count(t) && ReplyFresh(s, r, unit, late)
    ensures ReplyFresh(s, r, UM.Changed(unit, t, data), if SameRange(t, s) then late + 1 else late)
  {
    if SameRange(t, s) {
      ChangeAgesReply(s, r, unit, t, data, late);
    } else {
      ChangeBesideReply(s, r, unit, t, data, late);
    }
  }

  lemma ChangeKeepsNews(s: Section, h: HSys, e: Event, g: Age)
    requires e.UnitChange? && Enabled(h, e) && NewsFresh(s, h, g.late)
    ensures NewsFresh(s, Step(h, e), AgeAfter(s, h, e, g).late)
  {
    if h.replies != [] { ReplyAfterChange(s, h.replies[0], h.unit, e.section, e.data, g.late); }
  }

  lemma ChangeKeepsCopy(s: Section, h: HSys, e: Event, g: Age, was: Image)
    requires e.UnitChange? && Enabled(h, e) && From(s, h.fw.mirror, h.unit, g, was)
    ensures From(s, h.fw.mirror, Step(h, e).unit, AgeAfter(s, h, e, g), was)
  {
    if SameRange(e.section, s) {
      if g.copied { ChangeAgesFresh(s, Content(h.fw.mirror, s), h.unit, e.section, e.data, g.unseen); }
    } else {
      ChangeBeside(h.unit, e.section, e.data, s);
    }
  }

  lemma ChangeKeepsPolled(s: Section, h: HSys, e: Event, c: Counters, g: Age)
    requires e.UnitChange? && Enabled(h, e) && PolledAgo(s, c, h.unit, g.late)
    ensures PolledAgo(s, c, Step(h, e).unit, AgeAfter(s, h, e, g).late)
  {
    if SameRange(e.section, s) {
      if Counted(s) { ChangeAgesPoll(s, c, h.unit, e.data, g.late); }
    } else {
      ChangeBesidePoll(s, c, h.unit, e.section, e.data, g.late);
    }
  }

  lemma ChangeBesidePoll(s: Section, c: Counters, unit: Image, t: Section, data: seq<Byte>, late: nat)
    requires |data| == Count(t) && !SameRange(t, s) && PolledAgo(s, c, unit, late)
    ensures PolledAgo(s, c, UM.Changed(unit, t, data), late)
  {
    ChangeBeside(unit, t, data, s);
  }

  lemma ChangeKeeps(s: Section, h: HSys, e: Event, g: Age, b: Base)
    requires e.UnitChange? && Enabled(h, e) && Inv(s, h, g, b)
    ensures Inv(s, Step(h, e), AgeAfter(s, h, e, g), b)
  {
    ChangeKeepsNews(s, h, e, g);
    ChangeKeepsCopy(s, h, e, g, b.image);
    if h.fw.conn == Connected { ChangeKeepsPolled(s, h, e, CountersAt(h.rx, IRSP_CNT_UPDATE_EEP_INFO), g); }
  }

  lemma ServeAnswers(s: Section, h: HSys)
    requires InLoad(h.fw.conn) && OnlyAwaited(h) && h.pending != []
    ensures var z := h.(pending := h.pending[1..], replies := h.replies + [UM.Answer(h.unit, h.pending[0])]);
            OnlyAwaited(z) && NewsFresh(s, z, 0)
  {
    AnswerFresh(s, h.unit, h.pending[0]);
    if Loads(h.fw.conn) { LoadTarget(h.fw.conn); }
  }

  lemma AnswerFresh(s: Section, unit: Image, q: Request)
    requires q.Poll? || q.Read?
    ensures ReplyFresh(s, UM.Answer(unit, q), unit, 0) && UM.Answers(UM.Answer(unit, q), q)
  {
    if Counted(s) { Simulation.CounterIsLast(unit, s); }
  }

  lemma ServeKeeps(s: Section, h: HSys, e: Event, g: Age, b: Base)
    requires e.UnitServe? && Enabled(h, e) && Inv(s, h, g, b)
    ensures Inv(s, Step(h, e), AgeAfter(s, h, e, g), b)
  {
    ServeAnswers(s, h);
  }

  lemma LossKeeps(s: Section, h: HSys, e: Event, g: Age, b: Base)
    requires (e.RequestLost? || e.ReplyLost?) && Enabled(h, e) && Inv(s, h, g, b)
    ensures Inv(s, Step(h, e), AgeAfter(s, h, e, g), b)
  {
  }

  lemma ImageKeeps(s: Section, h: HSys, e: Event, g: Age, b: Base)
    requires e.AppImage? && Enabled(h, e) && Inv(s, h, g, b)
    ensures Inv(s, Step(h, e), AgeAfter(s, h, e, g), BaseNext(e, b))
  {
  }

  // ---- The firmware's steps ----

  lemma OverwriteShows(e: Image, t: Section, data: seq<Byte>, s: Section)
    requires |data| == Count(t)
    ensures Content(Overwrite(e, t, data), s) == if SameRange(t, s) then data else Content(e, s)
  {
    if !SameRange(t, s) { WriteKeepsOthers(e, t, data, s); }
  }

  lemma OverwriteKeepsUncovered(e: Image, t: Section, data: seq<Byte>, was: Image)
    requires |data| == Count(t) && SameUncovered(e, was)
    ensures SameUncovered(Overwrite(e, t, data), was)
  {
  }

  /** The section a load state reads, and the reply it takes. */
  lemma TakesAwaited(h: HSys, e: Event) returns (t: Section, data: seq<Byte>)
    requires Enabled(h, e) && Loads(h.fw.conn) && Takes(h, e) && OnlyAwaited(h)
    ensures h.replies == [UM.ReadReply(t, data)] && |data| == Count(t) && t == LOAD_ORDER[Rank(h.fw.conn) - 1]
    ensures 1 <= Rank(h.fw.conn) <= 6 && ReadAt(t) <= Rank(h.fw.conn)
    ensures Step(h, e) ==
            h.(fw := Ask(h.fw.(mirror := Overwrite(h.fw.mirror, t, data)), e.visit.start), rx := e.rx,
               replies := [], pending := [Following(h.fw.conn).0])
  {
    LoadTarget(h.fw.conn);
    TakesShape(h, e);
    t, data := h.replies[0].section, h.replies[0].data;
  }

  /** A later state has read `s` exactly if an earlier one had or this one does. */
  lemma ReadSoFar(c: ConnectState, s: Section)
    requires Loads(c)
    ensures Rank(Following(c).1) > ReadAt(s) <==>
            Rank(c) > ReadAt(s) || SameRange(LOAD_ORDER[Rank(c) - 1], s)
    ensures InLoad(Following(c).1) && Following(c).1 != Connected && Following(c).1 != LinkConnected
    ensures Awaited(Following(c).1) == Following(c).0
  {
  }

  /** The copy of `s` after the bytes of section `t` have been copied. */
  lemma CopyOver(s: Section, mirror: Image, unit: Image, t: Section, data: seq<Byte>, g: Age, was: Image)
    requires |data| == Count(t) && From(s, mirror, unit, g, was)
    requires SameRange(t, s) ==> Fresh(s, data, Content(unit, s), g.late)
    ensures From(s, Overwrite(mirror, t, data), unit, if SameRange(t, s) then Age(g.late, g.late, true) else g, was)
  {
    OverwriteShows(mirror, t, data, s);
    OverwriteKeepsUncovered(mirror, t, data, was);
  }

  lemma CopyAfterTake(s: Section, h: HSys, e: Event, g: Age, b: Base)
    requires Enabled(h, e) && Loads(h.fw.conn) && Takes(h, e) && Inv(s, h, g, b)
    ensures From(s, Step(h, e).fw.mirror, h.unit, AgeAfter(s, h, e, g), b.image)
    ensures AgeAfter(s, h, e, g) ==
            if SameRange(LOAD_ORDER[Rank(h.fw.conn) - 1], s) then Age(g.late, g.late, true) else g
  {
    var t, data := TakesAwaited(h, e);
    CopyOver(s, h.fw.mirror, h.unit, t, data, g, b.image);
    assert Step(h, e).fw.mirror == Overwrite(h.fw.mirror, t, data);
    assert Brings(s, h, e) <==> SameRange(t, s);
  }

  lemma TakeKeeps(s: Section, h: HSys, e: Event, g: Age, b: Base)
    requires Enabled(h, e) && Loads(h.fw.conn) && Takes(h, e) && Inv(s, h, g, b)
    ensures Inv(s, Step(h, e), AgeAfter(s, h, e, g), b)
  {
    CopyAfterTake(s, h, e, g, b);
    ReadSoFar(h.fw.conn, s);
    var _, _ := TakesAwaited(h, e);
  }

  /** The closing poll's reply is in the buffer when the last state is entered. */
  lemma PollTaken(s: Section, h: HSys, e: Event, g: Age, b: Base)
    requires Enabled(h, e) && h.fw.conn == PollingBase && Takes(h, e) && Inv(s, h, g, b)
    ensures Inv(s, Step(h, e), AgeAfter(s, h, e, g), b)
  {
    assert Step(h, e) ==
           h.(fw := h.fw.(conn := Connected, timeoutT := e.visit.start), rx := e.rx, replies := []);
  }

  lemma OtherCallKeeps(s: Section, h: HSys, e: Event, g: Age, b: Base)
    requires Enabled(h, e) && e.Call? && !Takes(h, e) && Inv(s, h, g, b)
    requires Step(h, e).fw.com == WbmCommunicating
    ensures Inv(s, Step(h, e), AgeAfter(s, h, e, g), b)
  {
    if h.fw.conn == LinkConnected {
      assert Step(h, e) ==
             h.(fw := Ask(h.fw.(foundLink := true), e.visit.start), rx := e.rx, pending := [Read(Info)]);
    } else {
      assert Step(h, e) == h.(rx := e.rx) && h.fw.conn != Connected;
    }
  }

  /** Whatever the step: a section asked for and answered is a copy of the unit's of that age, or an app
      image has come since and its write is pending. */
  lemma StepKeeps(s: Section, h: HSys, e: Event, g: Age, b: Base)
    requires Inv(s, h, g, b) && Enabled(h, e) && Step(h, e).fw.com == WbmCommunicating
    ensures Inv(s, Step(h, e), AgeAfter(s, h, e, g), BaseNext(e, b))
  {
    match e
    case UnitChange(_, _) => ChangeKeeps(s, h, e, g, b);
    case UnitServe => ServeKeeps(s, h, e, g, b);
    case RequestLost => LossKeeps(s, h, e, g, b);
    case ReplyLost => LossKeeps(s, h, e, g, b);
    case AppImage(_) => ImageKeeps(s, h, e, g, b);
    case Call(_, _, _, _) =>
      if !Takes(h, e) { OtherCallKeeps(s, h, e, g, b); }
      else if Loads(h.fw.conn) { TakeKeeps(s, h, e, g, b); }
      else { PollTaken(s, h, e, g, b); }
  }

  lemma {:induction false} RunKeeps(s: Section, h: HSys, events: seq<Event>, g: Age, b: Base)
    requires Inv(s, h, g, b) && Possible(h, events) && Run(h, events).fw.com == WbmCommunicating
    ensures Inv(s, Run(h, events), AgeRun(s, h, events, g), BaseAfter(events, b))
    decreases |events|
  {
    if events != [] {
      var z := Step(h, events[0]);
      if events[1..] != [] { assert Enabled(z, events[1..][0]); }
      StepKeeps(s, h, events[0], g, b);
      RunKeeps(s, z, events[1..], AgeAfter(s, h, events[0], g), BaseNext(events[0], b));
    }
  }

  // ---- Entering Connected ----

  /** The link is found, no poll is left unanswered, and a run ends in Connected. */
  ghost predicate Completes(h: HSys, events: seq<Event>, last: Event) {
    && h.fw.conn == LinkConnected && h.pending == [] && h.replies == []
    && !h.fw.busy && h.fw.mask <= WRITE_BITS && |h.rx| == SERIAL_BUFFER
    && Possible(h, events) && Enabled(Run(h, events), last)
    && Step(Run(h, events), last).fw.com == WbmConnected
  }

  /** What the load left of section `s`, and of the app images. */
  function Loaded(s: Section, h: HSys, events: seq<Event>): (Age, Base)
    requires Possible(h, events)
  {
    (AgeRun(s, h, events, UNREAD), BaseAfter(events, BaseOf(h.fw)))
  }

  lemma CompletesFromConnected(s: Section, h: HSys, events: seq<Event>, last: Event)
    requires Completes(h, events, last)
    ensures var z := Run(h, events);
            var (g, b) := Loaded(s, h, events);
            last.Call? && z.fw.conn == Connected && Inv(s, z, g, b)
  {
    RunKeeps(s, h, events, UNREAD, BaseOf(h.fw));
    if last.Call? { OnlyConnectedEnters(Run(h, events).fw, last.visit, last.val, last.rx, last.boot); }
  }

  /** The unit's counter of section `s` when it served the closing poll is not the mirror's: for a copy,
      because the unit changed it after serving its read. */
  predicate Differs(s: Section, unit: Image, g: Age, was: Image)
    requires Counted(s)
  {
    if g.copied then (g.unseen - g.late) % 256 != 0 else (Counter(was, s) + g.late) % 256 != Counter(unit, s)
  }

  /** Connected has been entered: the line is free; section `s` is a copy from `unseen` changes ago, or
      has the last app image's bytes and its write pending; its read bit is pending exactly if the
      closing poll brought another counter than the mirror's. */
  predicate Entered(s: Section, z: HSys, g: Age, b: Base) {
    && z.fw.com == WbmConnected && !z.fw.busy && z.pending == [] && z.replies == []
    && From(s, z.fw.mirror, z.unit, g, b.image) && g.late <= g.unseen
    && (!g.copied ==> b.writes == WRITE_BITS)
    && b.writes <= WRITE_BITS && b.writes <= z.fw.mask <= b.writes + READ_BITS
    && (Counted(s) ==> (ReadBit(s) in z.fw.mask <==> Differs(s, z.unit, g, b.image)))
    && z.fw.running == (if z.fw.mirror[76] == 0 then PowerOff else Running)
  }

  lemma EntersKnowing(s: Section, h: HSys, e: Event, g: Age, b: Base)
    requires Inv(s, h, g, b) && Enabled(h, e) && e.Call? && h.fw.conn == Connected
    ensures Entered(s, Step(h, e), g, b) && Step(h, e).unit == h.unit
  {
    EnterShape(h, e);
    if Counted(s) { RaisesIfChanged(s, h.fw, h.unit, CountersAt(h.rx, IRSP_CNT_UPDATE_EEP_INFO), g, b.image); }
  }

  lemma EnterShape(h: HSys, e: Event)
    requires Enabled(h, e) && e.Call? && h.fw.conn == Connected && h.fw.mask <= WRITE_BITS
    ensures var z := Step(h, e);
            && z.fw.com == WbmConnected && z.fw.mirror == h.fw.mirror && z.fw.busy == h.fw.busy && z.unit == h.unit
            && z.pending == h.pending && z.replies == h.replies
            && z.fw.mask == Raised(h.fw.mask, h.fw.mirror, CountersAt(h.rx, IRSP_CNT_UPDATE_EEP_INFO))
            && h.fw.mask <= z.fw.mask <= h.fw.mask + READ_BITS
            && z.fw.running == (if z.fw.mirror[76] == 0 then PowerOff else Running)
  {
  }

  lemma RaisesIfChanged(s: Section, f: Fw, unit: Image, c: Counters, g: Age, was: Image)
    requires Counted(s) && g.late <= g.unseen && f.mask <= WRITE_BITS
    requires From(s, f.mirror, unit, g, was) && PolledAgo(s, c, unit, g.late)
    ensures ReadBit(s) in Raised(f.mask, f.mirror, c) <==> Differs(s, unit, g, was)
  {
    RaisedBits(f.mask, f.mirror, c, s);
    Simulation.CounterIsLast(f.mirror, s);
    Simulation.CounterIsLast(unit, s);
    Simulation.CounterIsLast(was, s);
    SameByte(Counter(f.mirror, s), c.Of(s), if g.copied then g.unseen else g.late, g.late, Counter(unit, s));
  }

  /** Two counters, the second of them the one the unit had `m` changes ago. */
  lemma SameByte(a: Byte, b: Byte, n: nat, m: nat, k: Byte)
    requires m <= n && (b + m) % 256 == k
    ensures (a + n) % 256 == k ==> (a == b <==> (n - m) % 256 == 0)
    ensures n == m ==> (a == b <==> (a + n) % 256 == k)
  {
  }

  /** Whatever the mirror held, however the unit changes meanwhile and whenever app images arrive: reaching
      Connected means that each section is what the unit held `unseen` of its changes ago, or has the bytes of
      an image that came later than its read, whose write is pending; the bytes outside the sections are
      the last image's or as before; the line is free, and pending are exactly the writes asked for by images
      and the reads of the sections whose counter was another when the closing poll was served. */
  lemma {:induction false} HandshakeLoads(h: HSys, events: seq<Event>, last: Event, s: Section)
    requires Completes(h, events, last)
    ensures var y := Run(h, events);
            var (g, b) := Loaded(s, h, events);
            Entered(s, Step(y, last), g, b) && Step(y, last).unit == y.unit
  {
    CompletesFromConnected(s, h, events, last);
    var (g, b) := Loaded(s, h, events);
    EntersKnowing(s, Run(h, events), last, g, b);
  }

  /** The section as the runs of the Connected state see it. */
  function Handed(g: Age): SC.Gap {
    SC.Gap(g.unseen, 0, 0, g.copied)
  }

  /** Where the handshake ends is where the coherence theorems about Connected runs begin. */
  lemma {:induction false} HandshakeStartsCoherence(h: HSys, events: seq<Event>, last: Event, s: Section)
    requires Completes(h, events, last) && Counted(s)
    ensures var z := Step(Run(h, events), last);
            Coherence.Started(s, UM.Sys(z.fw, z.unit, None), Handed(Loaded(s, h, events).0))
  {
    HandshakeLoads(h, events, last, s);
  }

  // ---- A unit that does not change meanwhile ----

  /** Neither the unit nor an app changes anything. */
  predicate QuietLoad(events: seq<Event>) {
    forall e | e in events :: !e.UnitChange? && !e.AppImage?
  }

  lemma {:induction false} QuietUnit(s: Section, h: HSys, events: seq<Event>, g: Age, b: Base)
    requires Possible(h, events) && QuietLoad(events) && g.unseen == g.late == 0
    ensures Run(h, events).unit == h.unit && BaseAfter(events, b) == b
    ensures AgeRun(s, h, events, g).unseen == AgeRun(s, h, events, g).late == 0
    decreases |events|
  {
    if events != [] { QuietUnit(s, Step(h, events[0]), events[1..], AgeAfter(s, h, events[0], g), b); }
  }

  lemma {:induction false} QuietSection(h: HSys, events: seq<Event>, last: Event, s: Section)
    requires Completes(h, events, last) && QuietLoad(events) && h.fw.mask == {}
    ensures var g := Step(Run(h, events), last).fw;
            && Content(g.mirror, s) == Content(h.unit, s) && SameUncovered(g.mirror, h.fw.mirror)
            && g.mask <= READ_BITS && (Counted(s) ==> ReadBit(s) !in g.mask)
  {
    HandshakeLoads(h, events, last, s);
    QuietUnit(s, h, events, UNREAD, BaseOf(h.fw));
    NoGapIsEqual(s, Step(Run(h, events), last), Loaded(s, h, events).0, BaseOf(h.fw));
  }

  lemma NoGapIsEqual(s: Section, z: HSys, g: Age, b: Base)
    requires Entered(s, z, g, b) && g.unseen == g.late == 0 && b.writes == {}
    ensures Content(z.fw.mirror, s) == Content(z.unit, s) && SameUncovered(z.fw.mirror, b.image)
    ensures z.fw.mask <= READ_BITS && (Counted(s) ==> ReadBit(s) !in z.fw.mask)
  {
    assert WRITE_BITS != {};
  }

  /** Then every byte of every section is the unit's and every other byte is what it was, and
      nothing is pending for any counted section. */
  lemma {:induction false} QuietUnitIsLoaded(h: HSys, events: seq<Event>, last: Event)
    requires Completes(h, events, last) && QuietLoad(events) && h.fw.mask == {}
    ensures var g := Step(Run(h, events), last).fw;
            && (forall i | 0 <= i < EEPROM_SIZE :: g.mirror[i] == if Uncovered(i) then h.fw.mirror[i] else h.unit[i])
            && g.mask == {}
  {
    var g := Step(Run(h, events), last).fw;
    QuietSection(h, events, last, Info);
    forall s: Section
      ensures Content(g.mirror, s) == Content(h.unit, s)
      ensures Counted(s) ==> ReadBit(s) !in g.mask
    {
      QuietSection(h, events, last, s);
    }
    SectionsAreBytes(g.mirror, h.unit);
    NoReadBits(g.mask);
  }

  lemma NoReadBits(mask: Mask)
    requires mask <= READ_BITS && forall s | Counted(s) :: ReadBit(s) !in mask
    ensures mask == {}
  {
    assert ReadBit(Info) == 0 && ReadBit(SettingPar) == 1 && ReadBit(SetTemp) == 2 && ReadBit(DayProg) == 3;
  }

  lemma SectionsAreBytes(mirror: Image, unit: Image)
    requires forall s: Section :: Content(mirror, s) == Content(unit, s)
    ensures forall i | 0 <= i < EEPROM_SIZE && !Uncovered(i) :: mirror[i] == unit[i]
  {
    forall i | 0 <= i < EEPROM_SIZE && !Uncovered(i)
      ensures mirror[i] == unit[i]
    {
      WrittenSectionsPartition(i);
      var s :| s in {Info, SettingPar, SetTemp, DayProg, HWSetting} && InSection(i, s);
      assert Content(mirror, s)[i - Start(s)] == Content(unit, s)[i - Start(s)];
    }
  }
}
