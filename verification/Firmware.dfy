/** The state of src/unit_comm.c as a value, and one iteration of its Connected state as a
    function. Class UnitTask runs the same iteration on fields and arrays; the theorems about
    runs are stated on these functions. */
module Firmware {
  import opened Bytes
  import opened EepromLayout
  import opened Codec
  import opened Requests

  const POLLING_BASE_POWER_ON_MS := 1000
  const POLLING_BASE_POWER_OFF_MS := 5000
  const POLLING_DEBUG_DATA_MS := 4000
  const TIMEOUT_MS := 15000

  datatype ComState = WbmInitialize | WbmCommunicating | WbmConnected | WbmError

  datatype RunningMode = Initializing | PowerOff | Running

  datatype ConnectState =
    | Init | LinkConnecting | TrySerialLink | LinkConnected
    | ReadInfo | ReadConfiguration | ReadSettingPar | ReadSetTemp | ReadDayProg | ReadHWSetting
    | PollingBase | Connected | Bootloader

  /** com: WBM_Com_State; conn: currentState; mirror: gRDEeprom; mask: Read_Eeprom_Request_Index;
      busy: Eeprom_Data_received; the three timers in milliseconds; slow: UART at 9600 baud;
      sent: every request put on the wire so far. */
  datatype Fw = Fw(com: ComState, conn: ConnectState, running: RunningMode, mirror: Image,
                   mask: Mask, busy: bool, pollT: U32, debugT: U32, timeoutT: U32,
                   retries: nat, foundLink: bool, slow: bool, sent: seq<Request>)

  /** The request most recently sent. */
  function Last(f: Fw): Request
    requires f.sent != []
  {
    f.sent[|f.sent| - 1]
  }

  /** The same for a state that may have sent nothing. */
  function Newest(g: Fw): Request {
    if g.sent == [] then Poll else Last(g)
  }

  /** The update counters of the four counted sections. */
  datatype Counters = Counters(info: Byte, settingPar: Byte, setTemp: Byte, dayProg: Byte)
  {
    function Of(s: Section): Byte
      requires Counted(s)
    {
      match s
      case Info => info
      case SettingPar => settingPar
      case SetTemp => setTemp
      case DayProg => dayProg
    }
  }

  function CountersOf(e: Image): Counters {
    Counters(e[CntUpdateInfo], e[CntUpdateSettingPar], e[CntUpdateSetTemp], e[CntUpdateDayProg])
  }

  function WithCounters(e: Image, c: Counters): Image {
    e[CntUpdateInfo := c.info][CntUpdateSettingPar := c.settingPar]
     [CntUpdateSetTemp := c.setTemp][CntUpdateDayProg := c.dayProg]
  }

  /** Read_Eeprom_Request_Index, a uint16_t of which the source only sets, clears and tests
      single bits: the set of its bit positions. */
  type Mask = set<nat>

  function ReadBit(s: Section): nat
    requires Counted(s)
  {
    match s
    case Info => 0
    case SettingPar => 1
    case SetTemp => 2
    case DayProg => 3
  }

  function WriteBit(s: Section): nat
    requires s != Configuration
  {
    match s
    case Info => 11
    case SettingPar => 12
    case SetTemp => 13
    case DayProg => 14
    case HWSetting => 15
  }

  const READ_BITS: Mask := {0, 1, 2, 3}
  const WRITE_BITS: Mask := {11, 12, 13, 14, 15}

  // ---- The clock ----

  /** An elapsed-time test reads the clock twice: for the 32-bit difference, and for the question
      whether the clock went backwards. */
  datatype Test<+T> = Test(first: T, second: T)

  predicate Elapsed(test: Test<U32>, since: U32, limit: nat) {
    (test.first - since) % WORD32 >= limit || test.second < since
  }

  /** The readings of one iteration, in their order: the debug test, the three settings after a
      debug request, the poll test, the two settings after a poll, the timeout test, and the
      setting on a message. A reading that the iteration does not take is left unused. */
  datatype Clock<+T> = Clock(debug: Test<T>, debugSet: T, debugPoll: T, debugTimeout: T,
                            poll: Test<T>, pollSet: T, pollTimeout: T,
                            timeout: Test<T>, message: T)

  type Readings = Clock<U32>

  // ---- One iteration of the Connected state, in the order of the source ----

  function Sends(f: Fw, r: Request): Fw {
    f.(busy := true, sent := f.sent + [r])
  }

  function DebugTick(f: Fw, c: Readings): Fw {
    if f.running == Running && Elapsed(c.debug, f.debugT, POLLING_DEBUG_DATA_MS) then
      (if !f.busy then Sends(f, Debug) else f).(debugT := c.debugSet, pollT := c.debugPoll, timeoutT := c.debugTimeout)
    else f
  }

  function PollPeriod(f: Fw): nat {
    if f.running == PowerOff then POLLING_BASE_POWER_OFF_MS else POLLING_BASE_POWER_ON_MS
  }

  function PollTick(f: Fw, c: Readings): Fw {
    if f.running != Initializing && Elapsed(c.poll, f.pollT, PollPeriod(f)) then
      (if !f.busy then Sends(f, Poll) else f).(pollT := c.pollSet, timeoutT := c.pollTimeout)
    else f
  }

  function TimeoutTick(f: Fw, c: Readings): Fw {
    if Elapsed(c.timeout, f.timeoutT, TIMEOUT_MS) then
      f.(com := WbmError, retries := 0, busy := false, mask := {})
    else f
  }

  // Indices of the counters in a poll reply and in a write reply.
  const IRSP_CNT_UPDATE_EEP_INFO := 38
  const IRSW_CNT_UPDATE_EEP_INFO := 7

  function CountersAt(rx: seq<Byte>, at: nat): Counters
    requires at + 4 <= |rx|
  {
    Counters(rx[at], rx[at + 1], rx[at + 2], rx[at + 3])
  }

  function Flag(differs: bool, bit: nat): Mask {
    if differs then {bit} else {}
  }

  /** The mask with the read bit of every section whose counter in `c` is not the mirror's. */
  function Raised(mask: Mask, e: Image, c: Counters): Mask {
    mask + Flag(c.info != e[CntUpdateInfo], 0)
         + Flag(c.settingPar != e[CntUpdateSettingPar], 1)
         + Flag(c.setTemp != e[CntUpdateSetTemp], 2)
         + Flag(c.dayProg != e[CntUpdateDayProg], 3)
  }

  function PollParse(f: Fw, rx: seq<Byte>): Fw
    requires |rx| == SERIAL_BUFFER
  {
    f.(mask := Raised(f.mask, f.mirror, CountersAt(rx, IRSP_CNT_UPDATE_EEP_INFO)))
  }

  /** The copy of a read reply stays inside the record and the receive buffer. */
  predicate CopyInBounds(rx: seq<Byte>)
    requires |rx| == SERIAL_BUFFER
  {
    && rx[ADDR_BYTE_START_EEP] as int + rx[ADDR_NUM_BYTE_EEP] <= EEPROM_SIZE
    && START_DATA_EEPROM + rx[ADDR_NUM_BYTE_EEP] as int <= SERIAL_BUFFER
  }

  function Payload(rx: seq<Byte>): (d: seq<Byte>)
    requires |rx| == SERIAL_BUFFER && START_DATA_EEPROM + rx[ADDR_NUM_BYTE_EEP] as int <= SERIAL_BUFFER
    ensures |d| == rx[ADDR_NUM_BYTE_EEP]
  {
    rx[START_DATA_EEPROM..START_DATA_EEPROM + rx[ADDR_NUM_BYTE_EEP]]
  }

  function ReadParse(f: Fw, rx: seq<Byte>): Fw
    requires |rx| == SERIAL_BUFFER && CopyInBounds(rx)
  {
    f.(mirror := Splice(f.mirror, rx[ADDR_BYTE_START_EEP], Payload(rx)))
  }

  function WriteParse(f: Fw, rx: seq<Byte>): Fw
    requires |rx| == SERIAL_BUFFER
  {
    var c := CountersAt(rx, IRSW_CNT_UPDATE_EEP_INFO);
    f.(mask := Raised(f.mask, f.mirror, c), mirror := WithCounters(f.mirror, c))
  }

  /** A result of Read_Message the firmware can act on without leaving its buffers. */
  predicate Readable(val: int, rx: seq<Byte>) {
    |rx| == SERIAL_BUFFER && (val > RUN_DOWNLOAD && rx[TYPE_COMMAND] == COMMAND_READ_EEPROM ==> CopyInBounds(rx))
  }

  predicate Recognised(rx: seq<Byte>)
    requires |rx| == SERIAL_BUFFER
  {
    rx[TYPE_COMMAND] in {COMMAND_POLLING_BASE, COMMAND_DATA_DEBUG, COMMAND_READ_EEPROM, COMMAND_WRITE_EEPROM}
  }

  function HandleResult(f: Fw, now: U32, val: int, rx: seq<Byte>): (g: Fw)
    requires Readable(val, rx)
    ensures g.com == f.com && g.sent == f.sent && g.running == f.running
    ensures g.pollT == f.pollT && g.debugT == f.debugT && (g.timeoutT == f.timeoutT || g.timeoutT == now)
  {
    if val > RUN_DOWNLOAD then
      var g := f.(timeoutT := now);
      var cmd := rx[TYPE_COMMAND];
      if cmd == COMMAND_POLLING_BASE then PollParse(g, rx).(busy := false)
      else if cmd == COMMAND_DATA_DEBUG then g.(busy := false)
      else if cmd == COMMAND_READ_EEPROM then ReadParse(g, rx).(busy := false)
      else if cmd == COMMAND_WRITE_EEPROM then WriteParse(g, rx).(busy := false)
      else g
    else if val < 0 then f.(busy := false)
    else f
  }

  function SendsRead(f: Fw, s: Section): Fw
    requires Counted(s)
  {
    Sends(f, Read(s)).(mask := f.mask - {ReadBit(s)})
  }

  function SendsWrite(f: Fw, s: Section): Fw
    requires s != Configuration
  {
    Sends(f, Write(s, Content(f.mirror, s))).(mask := f.mask - {WriteBit(s)})
  }

  /** The six retired request bits: marked as outstanding, yet nothing is sent. */
  function SendsNothing(f: Fw, bit: nat): Fw {
    f.(busy := true, mask := f.mask - {bit})
  }

  function Dispatch(f: Fw): (g: Fw)
    ensures g.com == f.com && g.mirror == f.mirror && g.running == f.running
    ensures g.pollT == f.pollT && g.debugT == f.debugT && g.timeoutT == f.timeoutT
  {
    if f.mask == {} || f.busy then f
    else if 0 in f.mask then SendsRead(f, Info)
    else if 1 in f.mask then SendsRead(f, SettingPar)
    else if 2 in f.mask then SendsRead(f, SetTemp)
    else if 3 in f.mask then SendsRead(f, DayProg)
    else if 4 in f.mask then SendsNothing(f, 4)
    else if 5 in f.mask then SendsNothing(f, 5)
    else if 6 in f.mask then SendsNothing(f, 6)
    else if 7 in f.mask then SendsNothing(f, 7)
    else if 8 in f.mask then SendsNothing(f, 8)
    else if 9 in f.mask then SendsNothing(f, 9)
    else if 11 in f.mask then SendsWrite(f, Info)
    else if 12 in f.mask then SendsWrite(f, SettingPar)
    else if 13 in f.mask then SendsWrite(f, SetTemp)
    else if 14 in f.mask then SendsWrite(f, DayProg)
    else if 15 in f.mask then SendsWrite(f, HWSetting)
    else f
  }

  /** The timers at the top of an iteration: at most one of debug and poll is sent. */
  function Timers(f: Fw, c: Readings): Fw {
    TimeoutTick(PollTick(DebugTick(f, c), c), c)
  }

  /** One iteration: `val` and `rx` are what Read_Message returned and left in buff_ser1. */
  function Iterate(f: Fw, c: Readings, val: int, rx: seq<Byte>): Fw
    requires Readable(val, rx)
  {
    Dispatch(HandleResult(Timers(f, c), c.message, val, rx))
  }

  /** An app image from MQTT or from an executed BLE write. */
  function TakeImage(f: Fw, image: Image): Fw {
    f.(mirror := image, mask := f.mask + WRITE_BITS)
  }
}
