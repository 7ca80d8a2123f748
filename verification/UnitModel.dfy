/** The ventilation unit and the line: what a unit does with a request, how its own changes move
    its counters, and the runs of firmware and unit together. */
module UnitModel {
  import opened Bytes
  import opened EepromLayout
  import opened Codec
  import opened Requests
  import opened Firmware
  import opened RequestMask

  datatype Reply =
    | PollReply(counters: Counters)
    | DebugReply
    | ReadReply(section: Section, data: seq<Byte>)
    | WriteReply(counters: Counters, accepted: bool)

  // Byte 6 of a write reply: the character '0' for an accepted write, another for a refused one.
  const IRSW_RESULT_W := 6
  const WRITE_OK: Byte := '0' as int

  /** The downloaded buffer `rx` holds the reply `r`. */
  predicate Carries(val: int, rx: seq<Byte>, r: Reply) {
    && val > RUN_DOWNLOAD && |rx| == SERIAL_BUFFER
    && match r
       case PollReply(c) =>
         rx[TYPE_COMMAND] == COMMAND_POLLING_BASE && CountersAt(rx, IRSP_CNT_UPDATE_EEP_INFO) == c
       case DebugReply => rx[TYPE_COMMAND] == COMMAND_DATA_DEBUG
       case ReadReply(s, data) =>
         && rx[TYPE_COMMAND] == COMMAND_READ_EEPROM
         && rx[ADDR_BYTE_START_EEP] == Start(s) && rx[ADDR_NUM_BYTE_EEP] == Count(s)
         && Payload(rx) == data
       case WriteReply(c, accepted) =>
         && rx[TYPE_COMMAND] == COMMAND_WRITE_EEPROM && CountersAt(rx, IRSW_CNT_UPDATE_EEP_INFO) == c
         && (accepted <==> rx[IRSW_RESULT_W] == WRITE_OK)
  }

  /** The unit stores a section; in a counted section the counter byte is its own. */
  function Stored(unit: Image, s: Section, data: seq<Byte>, counter: Byte): Image
    requires |data| == Count(s)
  {
    Overwrite(unit, s, if Counted(s) then data[Count(s) - 1 := counter] else data)
  }

  /** A change on the unit's side (keypad, timer, another master) steps the section's counter. */
  function Changed(unit: Image, s: Section, data: seq<Byte>): Image
    requires |data| == Count(s)
  {
    Stored(unit, s, data, ChangeCounter(unit, s))
  }

  function ChangeCounter(unit: Image, s: Section): Byte {
    if Counted(s) then (Counter(unit, s) + 1) % 256 else 0
  }

  /** The unit's EEPROM after serving a request. It may leave any counter on a section it was
      told to write: the firmware's argument does not depend on that choice. */
  function Served(unit: Image, r: Request, counter: Byte): Image
    requires Sendable(r)
  {
    if r.Write? then Stored(unit, r.section, r.data, counter) else unit
  }

  function Answer(after: Image, r: Request): Reply {
    match r
    case Poll => PollReply(CountersOf(after))
    case Debug => DebugReply
    case Read(s) => ReadReply(s, Content(after, s))
    case Write(_, _) => WriteReply(CountersOf(after), true)
  }

  /** `r` is the kind of reply that request `q` asks for. */
  predicate Answers(r: Reply, q: Request) {
    match r
    case PollReply(_) => q.Poll?
    case DebugReply => q.Debug?
    case ReadReply(s, data) => q == Read(s) && |data| == Count(s)
    case WriteReply(_, _) => q.Write?
  }

  predicate Sendable(r: Request) {
    r.Write? ==> |r.data| == Count(r.section)
  }

  /** Firmware, unit, and the reply under way from one to the other. */
  datatype Sys = Sys(fw: Fw, unit: Image, reply: Option<Reply>)

  datatype Event =
    | UnitChange(section: Section, data: seq<Byte>)
    | UnitServe(counter: Byte)
    | UnitRefuse                                    // the unit answers a write but does not store it
    | AppImage(image: Image)
    | Tick(clock: Readings, val: int, rx: seq<Byte>)

  /** The steps that can happen in the Connected state. A message only comes out of Read_Message
      when the unit has answered, and is then that answer or a rejected one. */
  predicate Enabled(y: Sys, e: Event) {
    && y.fw.com == WbmConnected
    && match e
       case UnitChange(s, data) => |data| == Count(s)
       case UnitServe(_) => y.fw.busy && y.fw.sent != [] && Sendable(Last(y.fw)) && y.reply.None?
       case UnitRefuse => y.fw.busy && y.fw.sent != [] && Last(y.fw).Write? && Sendable(Last(y.fw)) && y.reply.None?
       case AppImage(_) => true
       case Tick(_, val, rx) =>
         && Readable(val, rx)
         && (val > RUN_DOWNLOAD ==> y.reply.Some? && Carries(val, rx, y.reply.value))
  }

  function Step(y: Sys, e: Event): Sys
    requires Enabled(y, e)
  {
    match e
    case UnitChange(s, data) => y.(unit := Changed(y.unit, s, data))
    case UnitServe(counter) =>
      var after := Served(y.unit, Last(y.fw), counter);
      y.(unit := after, reply := Some(Answer(after, Last(y.fw))))
    case UnitRefuse => y.(reply := Some(WriteReply(CountersOf(y.unit), false)))
    case AppImage(image) => y.(fw := TakeImage(y.fw, image))
    case Tick(clock, val, rx) =>
      y.(fw := Iterate(y.fw, clock, val, rx),
         reply := if val > RUN_DOWNLOAD || val < 0 then None else y.reply)
  }

  predicate Possible(y: Sys, events: seq<Event>)
    decreases |events|
  {
    events == [] || (Enabled(y, events[0]) && Possible(Step(y, events[0]), events[1..]))
  }

  function Run(y: Sys, events: seq<Event>): Sys
    requires Possible(y, events)
    decreases |events|
  {
    if events == [] then y else Run(Step(y, events[0]), events[1..])
  }
}
