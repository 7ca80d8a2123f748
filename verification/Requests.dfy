/** The request frames of src/WBM_Serial.c, built in a local buffer that starts out
    uninitialised, and what a unit reads back from them. */
module Requests {
  import opened Bytes
  import opened EepromLayout
  import opened Codec

  const COMMAND_DATA_DEBUG: Byte := 'D' as int
  const COMMAND_POLLING_BASE: Byte := 'P' as int
  const COMMAND_READ_EEPROM: Byte := 'R' as int
  const COMMAND_WRITE_EEPROM: Byte := 'W' as int

  // Checksum position of a request with two address bytes (IRQR_CRC_LO, IRQD_CRC_LO), and the
  // indices of those bytes and of the data of a write.
  const IRQR_CRC_LO := 6
  const ADDR_BYTE_START_EEP := 4
  const ADDR_NUM_BYTE_EEP := 5
  const START_DATA_EEPROM := 6

  /** A request as the firmware means it; a write carries the bytes taken from the mirror. */
  datatype Request =
    | Poll
    | Debug
    | Read(section: Section)
    | Write(section: Section, data: seq<Byte>)

  /** A request as a unit sees it: an address range, not a section name. */
  datatype Received =
    | PollRequest(error: Byte, serial: seq<Byte>)
    | DebugRequest
    | ReadRange(start: nat, count: nat)
    | WriteRange(start: nat, data: seq<Byte>)

  function Decode(f: seq<Byte>): Option<Received> {
    if |f| < 7 || f[POS_CRC_LO] as int + 2 != |f| then None
    else if f[TYPE_COMMAND] == COMMAND_POLLING_BASE then
      Some(PollRequest(f[START_DATA], f[START_DATA + 1..|f| - 2]))
    else if f[TYPE_COMMAND] == COMMAND_DATA_DEBUG then Some(DebugRequest)
    else if f[TYPE_COMMAND] == COMMAND_READ_EEPROM && |f| == IRQR_CRC_LO + 2 then
      Some(ReadRange(f[ADDR_BYTE_START_EEP], f[ADDR_NUM_BYTE_EEP]))
    else if f[TYPE_COMMAND] == COMMAND_WRITE_EEPROM && |f| == IRQR_CRC_LO + f[ADDR_NUM_BYTE_EEP] + 2 then
      Some(WriteRange(f[ADDR_BYTE_START_EEP], f[START_DATA_EEPROM..|f| - 2]))
    else None
  }

  /** `f` is a well-formed frame from which a unit reads back exactly the request `r`. */
  ghost predicate OnWire(f: seq<Byte>, r: Request) {
    && IsFrame(f)
    && match r
       case Poll => Decode(f).Some? && Decode(f).value.PollRequest?
       case Debug => Decode(f) == Some(DebugRequest)
       case Read(s) => Decode(f) == Some(ReadRange(Start(s), Count(s)))
       case Write(s, data) => Decode(f) == Some(WriteRange(Start(s), data))
  }

  /** Byte for byte: "sm", the checksum's position, 'P', 'D', 'R' or 'W', for a section its start and length, for
      a write its data, and the complement of the byte sum, low byte first. */
  lemma {:induction false} RequestBytes(f: seq<Byte>, r: Request)
    requires OnWire(f, r)
    ensures |f| >= 7 && f[0] == 0x73 && f[1] == 0x6D && f[2] == |f| - 2
    ensures f[|f| - 2] as int + 256 * f[|f| - 1] as int == 0xFFFF - Sum(f[..|f| - 2]) % 0x1_0000
    ensures match r
            case Poll => f[3] == 0x50
            case Debug => f[3] == 0x44
            case Read(s) => |f| == 8 && f[3] == 0x52 && f[4] == Start(s) && f[5] == Count(s)
            case Write(s, data) =>
              f[3] == 0x57 && f[4] == Start(s) && f[5] == |data| == |f| - 8 && f[6..|f| - 2] == data
  {
    var body := f[..|f| - 2];
    assert Seal(body)[|body|] == Checksum(body) % 256 && Seal(body)[|body| + 1] == Checksum(body) / 256;
  }

  /** A poll's error byte and serial number. */
  lemma PollBytes(f: seq<Byte>, error: Byte, serial: seq<Byte>)
    requires IsFrame(f) && Decode(f) == Some(PollRequest(error, serial))
    ensures |f| == |serial| + 7 && f[3] == 0x50 && f[4] == error && f[5..|f| - 2] == serial
  {
  }

  method SendPollingBase(error: Byte, serial: seq<Byte>) returns (f: seq<Byte>)
    requires |serial| <= 120
    ensures IsFrame(f) && Decode(f) == Some(PollRequest(error, serial))
  {
    var tx := new Byte[SERIAL_BUFFER];
    tx[POS_CRC_LO] := |serial| + START_DATA + 1;
    tx[TYPE_COMMAND] := COMMAND_POLLING_BASE;
    tx[START_DATA] := error;
    for i := 0 to |serial|
      invariant tx[POS_CRC_LO] == |serial| + START_DATA + 1
      invariant tx[TYPE_COMMAND] == COMMAND_POLLING_BASE && tx[START_DATA] == error
      invariant tx[START_DATA + 1..START_DATA + 1 + i] == serial[..i]
    {
      tx[START_DATA + 1 + i] := serial[i];
    }
    ghost var body := tx[..];
    SentShape(body);
    f := WriteMessage(tx);
    PollDecodes(f, body, error, serial);
  }

  method SendDataDebug() returns (f: seq<Byte>)
    ensures OnWire(f, Debug)
  {
    var tx := new Byte[SERIAL_BUFFER];
    tx[POS_CRC_LO] := IRQR_CRC_LO;
    tx[TYPE_COMMAND] := COMMAND_DATA_DEBUG;
    SentShape(tx[..]);
    f := WriteMessage(tx);
  }

  method SendReadEeprom(s: Section) returns (f: seq<Byte>)
    ensures OnWire(f, Read(s))
  {
    var tx := new Byte[SERIAL_BUFFER];
    tx[POS_CRC_LO] := IRQR_CRC_LO;
    tx[TYPE_COMMAND] := COMMAND_READ_EEPROM;
    tx[ADDR_BYTE_START_EEP] := Start(s);
    tx[ADDR_NUM_BYTE_EEP] := Count(s);
    SentShape(tx[..]);
    f := WriteMessage(tx);
  }

  /** Com_SendRequest_WriteEeprom: nothing is written for a range beyond the record, and an empty message for
      120 bytes, which no frame can hold. */
  method SendWriteRange(eeprom: array<Byte>, start: Byte, count: Byte) returns (f: Option<seq<Byte>>)
    requires eeprom.Length == EEPROM_SIZE && count <= 120
    ensures f.Some? <==> start + count <= EEPROM_SIZE
    ensures f.Some? && count <= 119 ==>
              IsFrame(f.value) && Decode(f.value) == Some(WriteRange(start, eeprom[start..start + count]))
    ensures f.Some? && count == 120 ==> f.value == []
  {
    if start + count > EEPROM_SIZE { return None; }
    var tx := new Byte[SERIAL_BUFFER];
    tx[POS_CRC_LO] := IRQR_CRC_LO + count;
    tx[TYPE_COMMAND] := COMMAND_WRITE_EEPROM;
    tx[ADDR_BYTE_START_EEP] := start;
    tx[ADDR_NUM_BYTE_EEP] := count;
    var data := eeprom[start..start + count];
    Memcpy(tx, START_DATA_EEPROM, data);
    ghost var body := tx[..];
    assert body[START_DATA_EEPROM..START_DATA_EEPROM + count] == data;
    CompletedIsSealed(body);
    var g := WriteMessage(tx);
    if count <= 119 {
      SentShape(body);
      WriteDecodes(g, body, start, data);
    }
    f := Some(g);
  }

  lemma PollDecodes(f: seq<Byte>, body: seq<Byte>, error: Byte, serial: seq<Byte>)
    requires IsFrame(f) && |body| == SERIAL_BUFFER && |f| == |serial| + START_DATA + 3 <= 127
    requires forall i | 2 <= i < |f| - 2 :: f[i] == body[i]
    requires body[TYPE_COMMAND] == COMMAND_POLLING_BASE && body[START_DATA] == error
    requires body[START_DATA + 1..START_DATA + 1 + |serial|] == serial
    ensures Decode(f) == Some(PollRequest(error, serial))
  {
    assert f[START_DATA + 1..|f| - 2] == serial;
  }

  lemma WriteDecodes(f: seq<Byte>, body: seq<Byte>, start: Byte, data: seq<Byte>)
    requires IsFrame(f) && |body| == SERIAL_BUFFER && |f| == IRQR_CRC_LO + |data| + 2
    requires forall i | 2 <= i < |f| - 2 :: f[i] == body[i]
    requires body[TYPE_COMMAND] == COMMAND_WRITE_EEPROM
    requires body[ADDR_BYTE_START_EEP] == start && body[ADDR_NUM_BYTE_EEP] == |data|
    requires body[START_DATA_EEPROM..START_DATA_EEPROM + |data|] == data
    ensures Decode(f) == Some(WriteRange(start, data))
  {
    assert f[START_DATA_EEPROM..|f| - 2] == data;
  }

  method SendWriteEeprom(eeprom: array<Byte>, s: Section) returns (f: seq<Byte>)
    requires eeprom.Length == EEPROM_SIZE
    ensures OnWire(f, Write(s, Content(eeprom[..], s)))
  {
    var r := SendWriteRange(eeprom, Start(s), Count(s));
    f := r.value;
  }
}
