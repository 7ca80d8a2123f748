/** Connect_To_Unit: the retrying handshake that loads the mirror section by section. */
module Handshake {
  import opened Bytes
  import opened EepromLayout
  import opened Codec
  import opened Requests
  import opened Firmware
  import opened UnitModel

  /** The states that wait for an answer, and call Read_Message while their timeout runs. */
  predicate Waiting(c: ConnectState) {
    c in {TrySerialLink, ReadInfo, ReadConfiguration, ReadSettingPar, ReadSetTemp, ReadDayProg, ReadHWSetting,
          PollingBase}
  }

  /** The readings of one call: the timeout test, and the setting of the timer, which comes after
      the delay and the transmission. */
  datatype Visit<+T> = Visit(test: Test<T>, start: T)

  predicate CallsRead(f: Fw, v: Visit<U32>) {
    Waiting(f.conn) && !Elapsed(v.test, f.timeoutT, TIMEOUT_MS)
  }

  /** Where a load state copies its reply, and what it asks for next in which state. */
  function Target(c: ConnectState): nat {
    match c
    case ReadInfo => AddrUnit
    case ReadSettingPar => SetPowerOn
    case ReadSetTemp => BypassMinTempExt
    case ReadDayProg => SDayProg
    case _ => NumMotors
  }

  function Following(c: ConnectState): (Request, ConnectState) {
    match c
    case LinkConnected => (Read(Info), ReadInfo)
    case ReadInfo => (Read(Configuration), ReadConfiguration)
    case ReadConfiguration => (Read(SettingPar), ReadSettingPar)
    case ReadSettingPar => (Read(SetTemp), ReadSetTemp)
    case ReadSetTemp => (Read(DayProg), ReadDayProg)
    case ReadDayProg => (Read(HWSetting), ReadHWSetting)
    case _ => (Poll, PollingBase)
  }

  predicate Loads(c: ConnectState) {
    c in {ReadInfo, ReadConfiguration, ReadSettingPar, ReadSetTemp, ReadDayProg, ReadHWSetting}
  }

  /** A reply that a load state can copy without leaving the record or the buffer: the state takes
      the length from the reply but the address from itself. */
  predicate LoadInBounds(c: ConnectState, rx: seq<Byte>)
    requires |rx| == SERIAL_BUFFER
  {
    && Target(c) + rx[ADDR_NUM_BYTE_EEP] as int <= EEPROM_SIZE
    && START_DATA_EEPROM + rx[ADDR_NUM_BYTE_EEP] as int <= SERIAL_BUFFER
  }

  predicate Usable(f: Fw, v: Visit<U32>, val: int, rx: seq<Byte>) {
    |rx| == SERIAL_BUFFER && (CallsRead(f, v) && Loads(f.conn) && val > RUN_DOWNLOAD ==> LoadInBounds(f.conn, rx))
  }

  function Ask(f: Fw, start: U32): Fw {
    var (r, c) := Following(f.conn);
    f.(sent := f.sent + [r], conn := c, timeoutT := start)
  }

  function Fails(f: Fw): Fw {
    f.(com := WbmError, retries := 0)
  }

  /** The last state: choose the running mode, start the timers and compare counters with the
      poll reply that is still in the buffer. */
  function Enter(f: Fw, start: U32, rx: seq<Byte>): Fw
    requires |rx| == SERIAL_BUFFER
  {
    PollParse(f.(running := if f.mirror[SetPowerOn] == 0 then PowerOff else Running,
                 pollT := start, debugT := start, com := WbmConnected), rx)
  }

  /** One call of Connect_To_Unit. If it calls Read_Message, `val` is the result; `rx` is
      buff_ser1 and `boot` Bootloader_Mode after that. */
  function Connect(f: Fw, v: Visit<U32>, val: int, rx: seq<Byte>, boot: bool): Fw
    requires Usable(f, v, val, rx)
  {
    var late := Elapsed(v.test, f.timeoutT, TIMEOUT_MS);
    match f.conn
    case Init => f.(timeoutT := v.start, conn := LinkConnecting, retries := 0)
    case LinkConnecting =>
      (if f.retries < 2 && !f.foundLink then
         f.(sent := f.sent + [Poll], retries := f.retries + 1, timeoutT := v.start)
       else f).(conn := TrySerialLink)
    case TrySerialLink =>
      if late then
        if f.retries == 2 then f.(retries := 0, slow := true, conn := Init, com := WbmCommunicating)
        else f.(timeoutT := v.start, conn := LinkConnecting)
      else if boot then f.(conn := Bootloader)
      else if val > RUN_DOWNLOAD then f.(conn := LinkConnected)
      else f
    case LinkConnected => Ask(f.(foundLink := true), v.start)
    case PollingBase =>
      if late then Fails(f)
      else if val > RUN_DOWNLOAD then f.(conn := Connected, timeoutT := v.start)
      else f
    case Connected => Enter(f, v.start, rx)
    case Bootloader => f
    case _ =>
      if late then Fails(f)
      else if val > RUN_DOWNLOAD then
        Ask(f.(mirror := Splice(f.mirror, Target(f.conn), Payload(rx))), v.start)
      else f
  }

  /** The six load states do the same thing. */
  lemma ConnectLoads(f: Fw, v: Visit<U32>, val: int, rx: seq<Byte>, boot: bool)
    requires Usable(f, v, val, rx) && Loads(f.conn)
    ensures Connect(f, v, val, rx, boot) ==
            if !CallsRead(f, v) then Fails(f)
            else if val <= RUN_DOWNLOAD then f
            else Ask(f.(mirror := Splice(f.mirror, Target(f.conn), Payload(rx))), v.start)
  {
  }

  // ---- With a unit that answers each request once and in order ----

  /** pending: the requests sent and not yet served, oldest first; replies: the replies under way,
      oldest first; rx: buff_ser1. */
  datatype HSys = HSys(fw: Fw, unit: Image, pending: seq<Request>, replies: seq<Reply>, rx: seq<Byte>)

  datatype Event =
    | UnitChange(section: Section, data: seq<Byte>)
    | UnitServe                                     // the unit answers its oldest request
    | RequestLost                                   // the oldest request never reaches the unit
    | ReplyLost                                     // the oldest reply never gets through
    | AppImage(image: Image)
    | Call(visit: Visit<U32>, val: int, rx: seq<Byte>, boot: bool)   // a call of Connect_To_Unit

  predicate Takes(h: HSys, e: Event) {
    e.Call? && CallsRead(h.fw, e.visit) && e.val > RUN_DOWNLOAD
  }

  predicate Enabled(h: HSys, e: Event) {
    && h.fw.com == WbmCommunicating && |h.rx| == SERIAL_BUFFER
    && match e
       case UnitChange(s, data) => |data| == Count(s)
       case UnitServe => h.pending != []
       case RequestLost => h.pending != []
       case ReplyLost => h.replies != []
       case AppImage(_) => true
       case Call(v, val, rx, _) =>
         && Usable(h.fw, v, val, rx)
         && (Takes(h, e) ==> h.replies != [] && Carries(val, rx, h.replies[0]))
         && (!CallsRead(h.fw, v) ==> rx == h.rx)
  }

  function Step(h: HSys, e: Event): HSys
    requires Enabled(h, e)
  {
    match e
    case UnitChange(s, data) => h.(unit := Changed(h.unit, s, data))
    case UnitServe => h.(pending := h.pending[1..], replies := h.replies + [Answer(h.unit, h.pending[0])])
    case RequestLost => h.(pending := h.pending[1..])
    case ReplyLost => h.(replies := h.replies[1..])
    case AppImage(image) => h.(fw := TakeImage(h.fw, image))
    case Call(v, val, rx, boot) =>
      var g := Connect(h.fw, v, val, rx, boot);
      h.(fw := g, rx := rx,
         replies := if Takes(h, e) then h.replies[1..] else h.replies,
         pending := if g.sent == h.fw.sent then h.pending else h.pending + [Newest(g)])
  }

  predicate Possible(h: HSys, events: seq<Event>)
    decreases |events|
  {
    events == [] || (Enabled(h, events[0]) && Possible(Step(h, events[0]), events[1..]))
  }

  function Run(h: HSys, events: seq<Event>): HSys
    requires Possible(h, events)
    decreases |events|
  {
    if events == [] then h else Run(Step(h, events[0]), events[1..])
  }

  /** How far the load has come: the number of sections asked for. */
  function Rank(c: ConnectState): nat {
    match c
    case ReadInfo => 1
    case ReadConfiguration => 2
    case ReadSettingPar => 3
    case ReadSetTemp => 4
    case ReadDayProg => 5
    case ReadHWSetting => 6
    case PollingBase => 7
    case Connected => 8
    case _ => 0
  }

  predicate InLoad(c: ConnectState) {
    c == LinkConnected || Loads(c) || c == PollingBase || c == Connected
  }

  const LOAD_ORDER: seq<Section> := [Info, Configuration, SettingPar, SetTemp, DayProg, HWSetting]

  /** The request the present state waits for. */
  function Awaited(c: ConnectState): Request {
    match c
    case ReadInfo => Read(Info)
    case ReadConfiguration => Read(Configuration)
    case ReadSettingPar => Read(SettingPar)
    case ReadSetTemp => Read(SetTemp)
    case ReadDayProg => Read(DayProg)
    case ReadHWSetting => Read(HWSetting)
    case _ => Poll
  }

  lemma LoadTarget(c: ConnectState)
    requires Loads(c)
    ensures 1 <= Rank(c) <= 6 && Awaited(c) == Read(LOAD_ORDER[Rank(c) - 1])
    ensures Target(c) == Start(LOAD_ORDER[Rank(c) - 1])
    ensures Rank(Following(c).1) == Rank(c) + 1 && Awaited(Following(c).1) == Following(c).0
  {
  }

  /** What a call of a load state does when a message is there: one reply fewer, one request more,
      and the payload at the state's own address. */
  lemma TakesShape(h: HSys, e: Event)
    requires Enabled(h, e) && Loads(h.fw.conn) && Takes(h, e)
    ensures Step(h, e) ==
            h.(fw := Ask(h.fw.(mirror := Splice(h.fw.mirror, Target(h.fw.conn), Payload(e.rx))), e.visit.start),
               rx := e.rx, replies := h.replies[1..], pending := h.pending + [Following(h.fw.conn).0])
  {
    ConnectLoads(h.fw, e.visit, e.val, e.rx, e.boot);
  }

  /** Only the last state enters Connected, and it always does. */
  lemma OnlyConnectedEnters(f: Fw, v: Visit<U32>, val: int, rx: seq<Byte>, boot: bool)
    requires f.com == WbmCommunicating && Usable(f, v, val, rx)
    ensures Connect(f, v, val, rx, boot).com == WbmConnected <==> f.conn == Connected
  {
  }

  lemma {:induction false} RunSplits(h: HSys, a: seq<Event>, b: seq<Event>)
    requires Possible(h, a) && Possible(Run(h, a), b)
    ensures Possible(h, a + b) && Run(h, a + b) == Run(Run(h, a), b)
    decreases |a|
  {
    if a == [] {
      assert a + b == b;
    } else {
      assert (a + b)[0] == a[0] && (a + b)[1..] == a[1..] + b;
      RunSplits(Step(h, a[0]), a[1..], b);
    }
  }

  // ---- From power-up to the moment the link is found ----

  function LossOf(e: Event): nat {
    if e.RequestLost? || e.ReplyLost? then 1 else 0
  }

  function LostIn(events: seq<Event>): nat {
    if events == [] then 0 else LossOf(events[0]) + LostIn(events[1..])
  }

  /** What app images leave: the last one, and the write bits of all sections; at the start the mirror
      and the write bits there were. */
  datatype Base = Base(image: Image, writes: Mask)

  function BaseOf(f: Fw): Base {
    Base(f.mirror, f.mask)
  }

  function BaseNext(e: Event, b: Base): Base {
    if e.AppImage? then Base(e.image, b.writes + WRITE_BITS) else b
  }

  function BaseAfter(events: seq<Event>, b: Base): Base {
    if events == [] then b else BaseAfter(events[1..], BaseNext(events[0], b))
  }

  predicate Seeking(c: ConnectState) {
    c in {Init, LinkConnecting, TrySerialLink, LinkConnected}
  }

  /** `lost` polls or their replies were lost; every other poll sent, but for the one whose answer
      found the link, is still to be served or its reply to be taken. */
  predicate PollsAccounted(h: HSys, lost: nat) {
    && Seeking(h.fw.conn)
    && |h.fw.sent| == |h.pending| + |h.replies| + lost + (if h.fw.conn == LinkConnected then 1 else 0)
  }

  lemma SeekStep(h: HSys, e: Event, lost: nat)
    requires Enabled(h, e) && PollsAccounted(h, lost) && Seeking(Step(h, e).fw.conn)
    ensures PollsAccounted(Step(h, e), lost + LossOf(e))
    ensures BaseOf(Step(h, e).fw) == BaseNext(e, BaseOf(h.fw))
  {
  }

  lemma LoadNeverSeeks(h: HSys, e: Event)
    requires Enabled(h, e) && !Seeking(h.fw.conn)
    ensures !Seeking(Step(h, e).fw.conn)
  {
    if e.Call? && Loads(h.fw.conn) { ConnectLoads(h.fw, e.visit, e.val, e.rx, e.boot); }
  }

  lemma {:induction false} StaysSeeking(h: HSys, events: seq<Event>)
    requires Possible(h, events) && Seeking(Run(h, events).fw.conn)
    ensures Seeking(h.fw.conn)
    decreases |events|
  {
    if events != [] {
      StaysSeeking(Step(h, events[0]), events[1..]);
      if !Seeking(h.fw.conn) { LoadNeverSeeks(h, events[0]); }
    }
  }

  lemma {:induction false} SeekRun(h: HSys, events: seq<Event>, lost: nat)
    requires Possible(h, events) && PollsAccounted(h, lost) && Seeking(Run(h, events).fw.conn)
    ensures PollsAccounted(Run(h, events), lost + LostIn(events))
    ensures BaseOf(Run(h, events).fw) == BaseAfter(events, BaseOf(h.fw))
    decreases |events|
  {
    if events != [] {
      var z := Step(h, events[0]);
      StaysSeeking(z, events[1..]);
      SeekStep(h, events[0], lost);
      SeekRun(z, events[1..], lost + LossOf(events[0]));
    }
  }

  /** When the link is found, one poll is unanswered for each poll sent before the answered one
      and not lost; until then nothing but an app image touches the mirror or the mask. */
  lemma FoundWithUnanswered(h: HSys, events: seq<Event>)
    requires h.fw.conn == Init && h.fw.sent == [] && h.pending == [] && h.replies == []
    requires Possible(h, events) && Run(h, events).fw.conn == LinkConnected
    ensures var z := Run(h, events);
            && |z.pending| + |z.replies| == |z.fw.sent| - 1 - LostIn(events)
            && BaseOf(z.fw) == BaseAfter(events, BaseOf(h.fw))
  {
    SeekRun(h, events, 0);
  }
}
