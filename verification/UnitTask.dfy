/** The unit task (src/unit_comm.c) on its own variables and buffers: every method does to them
    what the functions of Firmware and Handshake say, and every request it logs is really on the
    wire. */
module UnitTask {
  import opened Bytes
  import opened EepromLayout
  import opened Codec
  import opened Requests
  import opened Firmware
  import opened Mailbox
  import opened Handshake

  ghost predicate Logged(wire: seq<seq<Byte>>, requests: seq<Request>) {
    |wire| == |requests| && forall i | 0 <= i < |wire| :: OnWire(wire[i], requests[i])
  }

  lemma LogAppend(wire: seq<seq<Byte>>, requests: seq<Request>, f: seq<Byte>, r: Request)
    requires Logged(wire, requests) && OnWire(f, r)
    ensures Logged(wire + [f], requests + [r])
  {
    forall i | 0 <= i < |wire| + 1
      ensures OnWire((wire + [f])[i], (requests + [r])[i])
    {
      if i < |wire| { assert OnWire(wire[i], requests[i]); }
    }
  }

  class Task {
    const port: SerialPort
    const eeprom: array<Byte>
    const serial: seq<Byte>
    var error: Byte
    var com: ComState
    var conn: ConnectState
    var running: RunningMode
    var mask: Mask
    var busy: bool
    var pollT: U32
    var debugT: U32
    var timeoutT: U32
    var retries: nat
    var foundLink: bool
    var slow: bool
    var wire: seq<seq<Byte>>
    ghost var requests: seq<Request>

    ghost predicate Valid()
      reads this, eeprom, port, port.cache, port.buff
    {
      && eeprom.Length == EEPROM_SIZE && eeprom != port.cache && eeprom != port.buff
      && port.Valid() && |serial| <= 20
      && Logged(wire, requests)
    }

    ghost function View(): Fw
      requires eeprom.Length == EEPROM_SIZE
      reads this, eeprom
    {
      Fw(com, conn, running, eeprom[..], mask, busy, pollT, debugT, timeoutT,
         retries, foundLink, slow, requests)
    }

    constructor (port: SerialPort, serial: seq<Byte>, now: U32)
      requires port.Valid() && |serial| <= 20
      ensures Valid() && fresh(eeprom) && this.port == port
      ensures View() == Fw(WbmInitialize, Init, Initializing, Zeros(EEPROM_SIZE), {}, false, now, now, 0,
                           0, false, false, [])
    {
      this.port, this.serial := port, serial;
      eeprom := new Byte[EEPROM_SIZE](_ => 0);
      error, com, conn, running := 0, WbmInitialize, Init, Initializing;
      mask, busy, pollT, debugT, timeoutT := {}, false, now, now, 0;
      retries, foundLink, slow := 0, false, false;
      wire, requests := [], [];
      new;
      assert eeprom[..] == Zeros(EEPROM_SIZE);
    }

    // ---- Requests ----

    /** The last frame on the wire is a poll with the error byte and the serial number. */
    ghost predicate PolledLast()
      reads this
    {
      wire != [] && Decode(wire[|wire| - 1]) == Some(PollRequest(error, serial))
    }

    method SendPoll()
      requires Valid()
      modifies this`wire, this`requests
      ensures Valid() && requests == old(requests) + [Request.Poll] && PolledLast()
    {
      var f := SendPollingBase(error, serial);
      LogAppend(wire, requests, f, Request.Poll);
      wire, requests := wire + [f], requests + [Request.Poll];
    }

    method SendDebug()
      requires Valid()
      modifies this`wire, this`requests
      ensures Valid() && requests == old(requests) + [Debug]
    {
      var f := SendDataDebug();
      LogAppend(wire, requests, f, Debug);
      wire, requests := wire + [f], requests + [Debug];
    }

    method SendRead(s: Section)
      requires Valid()
      modifies this`wire, this`requests
      ensures Valid() && requests == old(requests) + [Read(s)]
    {
      var f := SendReadEeprom(s);
      LogAppend(wire, requests, f, Read(s));
      wire, requests := wire + [f], requests + [Read(s)];
    }

    method SendWrite(s: Section)
      requires Valid()
      modifies this`wire, this`requests
      ensures Valid() && requests == old(requests) + [Write(s, Content(eeprom[..], s))]
    {
      var f := SendWriteEeprom(eeprom, s);
      ghost var r := Write(s, Content(eeprom[..], s));
      LogAppend(wire, requests, f, r);
      wire, requests := wire + [f], requests + [r];
    }

    // ---- One iteration of the Connected state ----

    method RunDebugTimer(c: Readings)
      requires Valid()
      modifies this`wire, this`requests, this`busy, this`debugT, this`pollT, this`timeoutT
      ensures Valid() && View() == DebugTick(old(View()), c)
    {
      if running == Running && Elapsed(c.debug, debugT, POLLING_DEBUG_DATA_MS) {
        if !busy {
          SendDebug();
          busy := true;
        }
        debugT := c.debugSet;
        pollT := c.debugPoll;
        timeoutT := c.debugTimeout;
      }
    }

    method PollIfFree()
      requires Valid()
      modifies this`wire, this`requests, this`busy
      ensures Valid() && View() == if old(busy) then old(View()) else Sends(old(View()), Request.Poll)
      ensures !old(busy) ==> PolledLast()
    {
      if !busy {
        SendPoll();
        busy := true;
      }
    }

    method RunPollTimer(c: Readings)
      requires Valid()
      modifies this`wire, this`requests, this`busy, this`pollT, this`timeoutT
      ensures Valid() && View() == PollTick(old(View()), c)
    {
      if running == PowerOff || running == Running {
        var period := if running == PowerOff then POLLING_BASE_POWER_OFF_MS else POLLING_BASE_POWER_ON_MS;
        if Elapsed(c.poll, pollT, period) {
          PollIfFree();
          pollT := c.pollSet;
          timeoutT := c.pollTimeout;
        }
      }
    }

    method CheckTimeout(c: Readings)
      requires Valid()
      modifies this`com, this`retries, this`busy, this`mask
      ensures Valid() && View() == TimeoutTick(old(View()), c)
    {
      if Elapsed(c.timeout, timeoutT, TIMEOUT_MS) {
        com := WbmError;
        retries := 0;
        busy := false;
        mask := {};
      }
    }

    /** The counter comparisons of WBM_Polling_Base_Data_Parse. */
    method ParsePoll()
      requires Valid()
      modifies this`mask
      ensures Valid() && View() == PollParse(old(View()), port.buff[..])
    {
      var rx := port.buff;
      var at := IRSP_CNT_UPDATE_EEP_INFO;
      ghost var e, c := eeprom[..], CountersAt(rx[..], at);
      if rx[at] != eeprom[CntUpdateInfo] { mask := mask + {0}; }
      if rx[at + 1] != eeprom[CntUpdateSettingPar] { mask := mask + {1}; }
      if rx[at + 2] != eeprom[CntUpdateSetTemp] { mask := mask + {2}; }
      if rx[at + 3] != eeprom[CntUpdateDayProg] { mask := mask + {3}; }
      assert mask == Raised(old(mask), e, c);
    }

    method ParseRead()
      requires Valid() && CopyInBounds(port.buff[..])
      modifies eeprom
      ensures Valid() && View() == ReadParse(old(View()), port.buff[..])
    {
      var n := port.buff[ADDR_NUM_BYTE_EEP];
      Memcpy(eeprom, port.buff[ADDR_BYTE_START_EEP], port.buff[START_DATA_EEPROM..START_DATA_EEPROM + n]);
      assert port.buff[START_DATA_EEPROM..START_DATA_EEPROM + n] == Payload(port.buff[..]);
    }

    /** One of the four blocks of WBM_Write_Eeprom_Data_Parse. */
    method AdoptCounter(counter: Byte, at: nat, bit: nat)
      requires Valid() && at < EEPROM_SIZE
      modifies this`mask, eeprom
      ensures Valid() && eeprom[..] == old(eeprom[..])[at := counter]
      ensures mask == old(mask) + Flag(counter != old(eeprom[at]), bit)
    {
      var high := if counter > eeprom[at] then counter else eeprom[at];
      var low := if counter < eeprom[at] then counter else eeprom[at];
      if high - low >= 1 { mask := mask + {bit}; }
      eeprom[at] := counter;
    }

    method ParseWrite()
      requires Valid()
      modifies this`mask, eeprom
      ensures Valid() && View() == WriteParse(old(View()), port.buff[..])
    {
      ghost var c := CountersAt(port.buff[..], IRSW_CNT_UPDATE_EEP_INFO);
      var at := IRSW_CNT_UPDATE_EEP_INFO;
      AdoptCounter(port.buff[at], CntUpdateInfo, 0);
      AdoptCounter(port.buff[at + 1], CntUpdateSettingPar, 1);
      AdoptCounter(port.buff[at + 2], CntUpdateSetTemp, 2);
      AdoptCounter(port.buff[at + 3], CntUpdateDayProg, 3);
      assert eeprom[..] == WithCounters(old(eeprom[..]), c);
      assert mask == Raised(old(mask), old(eeprom[..]), c);
    }

    /** What the loop does with the result of Read_Message; a rejected message is wiped. */
    method HandleMessage(now: U32, val: int)
      requires Valid() && Readable(val, port.buff[..])
      modifies this`mask, this`busy, this`timeoutT, eeprom, port.buff
      ensures Valid() && View() == HandleResult(old(View()), now, val, old(port.buff[..]))
      ensures port.View() == old(port.View()).(buff := if val < 0 then Zeros(SERIAL_BUFFER) else old(port.buff[..]))
    {
      if val > RUN_DOWNLOAD {
        timeoutT := now;
        var command := port.buff[TYPE_COMMAND];
        if command == COMMAND_POLLING_BASE {
          ParsePoll();
          busy := false;
        } else if command == COMMAND_DATA_DEBUG {
          busy := false;
        } else if command == COMMAND_READ_EEPROM {
          ParseRead();
          busy := false;
        } else if command == COMMAND_WRITE_EEPROM {
          ParseWrite();
          busy := false;
        }
      } else if val < 0 {
        busy := false;
        Clear(port.buff);
      }
    }

    method RequestRead(s: Section)
      requires Valid() && Counted(s)
      modifies this`wire, this`requests, this`busy, this`mask
      ensures Valid() && View() == SendsRead(old(View()), s)
    {
      SendRead(s);
      busy := true;
      mask := mask - {ReadBit(s)};
    }

    method RequestWrite(s: Section)
      requires Valid() && s != Configuration
      modifies this`wire, this`requests, this`busy, this`mask
      ensures Valid() && View() == SendsWrite(old(View()), s)
    {
      SendWrite(s);
      busy := true;
      mask := mask - {WriteBit(s)};
    }

    method Retire(bit: nat)
      requires Valid()
      modifies this`busy, this`mask
      ensures Valid() && View() == SendsNothing(old(View()), bit)
    {
      busy := true;
      mask := mask - {bit};
    }

    method DispatchRequest()
      requires Valid()
      modifies this`wire, this`requests, this`busy, this`mask
      ensures Valid() && View() == Dispatch(old(View()))
    {
      if mask != {} && !busy {
        if 0 in mask { RequestRead(Info); }
        else if 1 in mask { RequestRead(SettingPar); }
        else if 2 in mask { RequestRead(SetTemp); }
        else if 3 in mask { RequestRead(DayProg); }
        else if 4 in mask { Retire(4); }
        else if 5 in mask { Retire(5); }
        else if 6 in mask { Retire(6); }
        else if 7 in mask { Retire(7); }
        else if 8 in mask { Retire(8); }
        else if 9 in mask { Retire(9); }
        else if 11 in mask { RequestWrite(Info); }
        else if 12 in mask { RequestWrite(SettingPar); }
        else if 13 in mask { RequestWrite(SetTemp); }
        else if 14 in mask { RequestWrite(DayProg); }
        else if 15 in mask { RequestWrite(HWSetting); }
      }
    }

    /** One pass through the Connected case of the unit task's loop. */
    method Iteration(c: Readings)
      requires Valid() && Readable(ReadResult(port.View()), AfterRead(port.View()).buff)
      modifies this, eeprom, port, port.buff
      ensures Valid()
      ensures var p := old(port.View());
              && View() == Iterate(old(View()), c, ReadResult(p), AfterRead(p).buff)
              && port.View() == AfterRead(p).(buff := if ReadResult(p) < 0 then Zeros(SERIAL_BUFFER)
                                                      else AfterRead(p).buff)
    {
      RunDebugTimer(c);
      RunPollTimer(c);
      CheckTimeout(c);
      var val := port.Read();
      HandleMessage(c.message, val);
      DispatchRequest();
    }

    /** An app image from MQTT: 241 bytes are copied from the start of the payload, whatever its
        length; `beyond` is what lies behind a shorter one. */
    method ReceiveImage(payload: seq<Byte>, beyond: seq<Byte>)
      requires Valid() && |payload + beyond| >= EEPROM_SIZE
      modifies this`mask, eeprom
      ensures Valid() && View() == TakeImage(old(View()), (payload + beyond)[..EEPROM_SIZE])
    {
      var image := (payload + beyond)[..EEPROM_SIZE];
      Memcpy(eeprom, 0, image);
      assert eeprom[..] == image;
      mask := mask + {11};
      mask := mask + {12};
      mask := mask + {13};
      mask := mask + {14};
      mask := mask + {15};
      assert mask == old(mask) + WRITE_BITS;
    }

    // ---- Connect_To_Unit ----

    method AskSection(s: Section, next: ConnectState)
      requires Valid()
      modifies this`wire, this`requests, this`conn
      ensures Valid() && View() == old(View()).(sent := old(requests) + [Read(s)], conn := next)
    {
      SendRead(s);
      conn := next;
    }

    method AskPoll()
      requires Valid()
      modifies this`wire, this`requests, this`conn
      ensures Valid() && View() == old(View()).(sent := old(requests) + [Request.Poll], conn := PollingBase)
      ensures PolledLast()
    {
      SendPoll();
      conn := PollingBase;
    }

    /** Send the request of the next state and enter it. */
    method AskNext(start: U32)
      requires Valid() && (conn == LinkConnected || Loads(conn))
      modifies this`wire, this`requests, this`conn, this`timeoutT
      ensures Valid() && View() == Ask(old(View()), start)
    {
      if conn == LinkConnected {
        AskSection(Info, ReadInfo);
      } else if conn == ReadInfo {
        AskSection(Configuration, ReadConfiguration);
      } else if conn == ReadConfiguration {
        AskSection(SettingPar, ReadSettingPar);
      } else if conn == ReadSettingPar {
        AskSection(SetTemp, ReadSetTemp);
      } else if conn == ReadSetTemp {
        AskSection(DayProg, ReadDayProg);
      } else if conn == ReadDayProg {
        AskSection(HWSetting, ReadHWSetting);
      } else {
        AskPoll();
      }
      timeoutT := start;
    }

    /** The reply's bytes go to the state's own address. */
    method CopySection()
      requires Valid() && LoadInBounds(conn, port.buff[..])
      modifies eeprom
      ensures Valid() && eeprom[..] == Splice(old(eeprom[..]), Target(conn), Payload(port.buff[..]))
    {
      var n := port.buff[ADDR_NUM_BYTE_EEP];
      assert port.buff[START_DATA_EEPROM..START_DATA_EEPROM + n] == Payload(port.buff[..]);
      Memcpy(eeprom, Target(conn), port.buff[START_DATA_EEPROM..START_DATA_EEPROM + n]);
    }

    /** A load state: wait for the reply, copy it, ask for the next section. */
    method LoadSection(v: Visit<U32>)
      requires Valid() && Loads(conn)
      requires Usable(View(), v, ReadResult(port.View()), AfterRead(port.View()).buff)
      modifies this`com, this`retries, this`wire, this`requests, this`conn, this`timeoutT, eeprom, port, port.buff
      ensures Valid()
      ensures View() == Connect(old(View()), v, ReadResult(old(port.View())), AfterRead(old(port.View())).buff, false)
      ensures port.View() == if CallsRead(old(View()), v) then AfterRead(old(port.View())) else old(port.View())
    {
      ghost var p := port.View();
      ConnectLoads(View(), v, ReadResult(p), AfterRead(p).buff, false);
      if Elapsed(v.test, timeoutT, TIMEOUT_MS) {
        com := WbmError;
        retries := 0;
      } else {
        var val := port.Read();
        if val > RUN_DOWNLOAD {
          CopySection();
          AskNext(v.start);
        }
      }
    }

    method TryLink(v: Visit<U32>)
      requires Valid() && conn == TrySerialLink
      modifies this`com, this`conn, this`retries, this`slow, this`timeoutT, port, port.buff
      ensures Valid()
      ensures var p := old(port.View());
              && View() == Connect(old(View()), v, ReadResult(p), AfterRead(p).buff, AfterRead(p).bootloaderMode)
              && port.View() == if CallsRead(old(View()), v) then AfterRead(p) else p
    {
      if Elapsed(v.test, timeoutT, TIMEOUT_MS) {
        if retries == 2 {
          com := WbmError;
          retries := 0;
          slow := true;
          conn := Init;
          com := WbmCommunicating;
        } else {
          timeoutT := v.start;
          conn := LinkConnecting;
        }
      } else {
        var val := port.Read();
        if val > RUN_DOWNLOAD { conn := LinkConnected; }
        if port.bootloaderMode { conn := Bootloader; }
      }
    }

    method AwaitPoll(v: Visit<U32>)
      requires Valid() && conn == PollingBase
      modifies this`com, this`retries, this`conn, this`timeoutT, port, port.buff
      ensures Valid()
      ensures var p := old(port.View());
              && View() == Connect(old(View()), v, ReadResult(p), AfterRead(p).buff, AfterRead(p).bootloaderMode)
              && port.View() == if CallsRead(old(View()), v) then AfterRead(p) else p
    {
      if Elapsed(v.test, timeoutT, TIMEOUT_MS) {
        com := WbmError;
        retries := 0;
      } else {
        var val := port.Read();
        if val > RUN_DOWNLOAD {
          conn := Connected;
          timeoutT := v.start;
        }
      }
    }

    method StartRunning(start: U32)
      requires Valid()
      modifies this`running, this`pollT, this`debugT, this`com
      ensures Valid()
      ensures View() == old(View()).(running := if eeprom[SetPowerOn] == 0 then PowerOff else Running,
                                     pollT := start, debugT := start, com := WbmConnected)
    {
      if eeprom[SetPowerOn] == 0 { running := PowerOff; } else { running := Running; }
      pollT := start;
      debugT := pollT;
      com := WbmConnected;
    }

    /** The last state of the handshake: choose the running mode, start the timers, compare. */
    method EnterConnected(start: U32)
      requires Valid()
      modifies this`running, this`pollT, this`debugT, this`com, this`mask
      ensures Valid() && View() == Enter(old(View()), start, port.buff[..])
    {
      StartRunning(start);
      ParsePoll();
    }

    /** Poll at most twice while no link was ever found. */
    method AskForLink(start: U32)
      requires Valid()
      modifies this`timeoutT, this`retries, this`wire, this`requests
      ensures Valid()
      ensures var f := old(View());
              View() == if f.retries < 2 && !f.foundLink then
                          f.(sent := f.sent + [Request.Poll], retries := f.retries + 1, timeoutT := start)
                        else f
      ensures requests != old(requests) ==> PolledLast()
    {
      if retries < 2 && !foundLink {
        SendPoll();
        retries := retries + 1;
        timeoutT := start;
      }
    }

    /** The first two states: start, and ask for a link. */
    method SeekLink(v: Visit<U32>, ghost val: int, ghost boot: bool)
      requires Valid() && (conn == Init || conn == LinkConnecting)
      modifies this`timeoutT, this`conn, this`retries, this`wire, this`requests
      ensures Valid() && View() == Connect(old(View()), v, val, port.buff[..], boot)
    {
      if conn == Init {
        timeoutT := v.start;
        conn := LinkConnecting;
        retries := 0;
      } else {
        AskForLink(v.start);
        conn := TrySerialLink;
      }
    }

    /** The states that do not read. */
    method StepUnread(v: Visit<U32>, ghost val: int, ghost boot: bool)
      requires Valid() && !Waiting(conn) && conn != Bootloader
      modifies this
      ensures Valid() && View() == Connect(old(View()), v, val, port.buff[..], boot)
    {
      if conn == Init || conn == LinkConnecting {
        SeekLink(v, val, boot);
      } else if conn == LinkConnected {
        foundLink := true;
        AskNext(v.start);
      } else {
        EnterConnected(v.start);
      }
    }

    /** One call of Connect_To_Unit; the transfer itself is BootTransfer.Transfer. */
    method ConnectToUnit(v: Visit<U32>)
      requires Valid() && conn != Bootloader
      requires Usable(View(), v, ReadResult(port.View()), AfterRead(port.View()).buff)
      modifies this, eeprom, port, port.buff
      ensures Valid()
      ensures var p := old(port.View());
              var q := if CallsRead(old(View()), v) then AfterRead(p) else p;
              && port.View() == q
              && View() == Connect(old(View()), v, ReadResult(p), q.buff, q.bootloaderMode)
    {
      ghost var p := port.View();
      if !Waiting(conn) {
        StepUnread(v, ReadResult(p), p.bootloaderMode);
      } else if conn == TrySerialLink {
        TryLink(v);
      } else if conn == PollingBase {
        AwaitPoll(v);
      } else {
        LoadSection(v);
      }
    }
  }
}
