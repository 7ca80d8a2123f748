/** From the unit's reply frame to the reply the firmware acts on: through the line, the receive
    cache and Read_Message. */
module ReplyPath {
  import opened Bytes
  import opened EepromLayout
  import opened Codec
  import opened Requests
  import opened Firmware
  import opened UnitModel
  import opened Mailbox

  /** The frame of a reply: the fields the firmware reads are all inside it. */
  ghost predicate Encodes(f: seq<Byte>, r: Reply) {
    && IsFrame(f)
    && match r
       case PollReply(c) =>
         |f| >= IRSP_CNT_UPDATE_EEP_INFO + 4 + 2 && f[TYPE_COMMAND] == COMMAND_POLLING_BASE
         && CountersAt(f, IRSP_CNT_UPDATE_EEP_INFO) == c
       case DebugReply => f[TYPE_COMMAND] == COMMAND_DATA_DEBUG
       case ReadReply(s, data) =>
         && |f| == START_DATA_EEPROM + Count(s) + 2 && f[TYPE_COMMAND] == COMMAND_READ_EEPROM
         && f[ADDR_BYTE_START_EEP] == Start(s) && f[ADDR_NUM_BYTE_EEP] == Count(s)
         && f[START_DATA_EEPROM..|f| - 2] == data
       case WriteReply(c, accepted) =>
         && |f| >= IRSW_CNT_UPDATE_EEP_INFO + 4 + 2 && f[TYPE_COMMAND] == COMMAND_WRITE_EEPROM
         && CountersAt(f, IRSW_CNT_UPDATE_EEP_INFO) == c && (accepted <==> f[IRSW_RESULT_W] == WRITE_OK)
  }

  /** The port and the result after the poll that downloads an arrival: the first or the second. */
  function Taken(p: Port): (Port, int)
    requires p.Valid()
  {
    if Downloads(p) then (AfterRead(p), ReadResult(p)) else (AfterRead(AfterRead(p)), ReadResult(AfterRead(p)))
  }

  lemma BufferCarries(f: seq<Byte>, r: Reply)
    requires Encodes(f, r)
    ensures Carries(|f|, Padded(f, SERIAL_BUFFER), r)
  {
    var b := Padded(f, SERIAL_BUFFER);
    assert b[..|f|] == f;
    assert forall i | 0 <= i < |f| :: b[i] == f[i];
    if r.ReadReply? {
      SectionMap();
      assert Payload(b) == f[START_DATA_EEPROM..|f| - 2];
    }
  }

  /** A reply frame that arrives intact is, within two polls, exactly that reply to the firmware. */
  lemma {:induction false} ReplyDelivered(p: Port, f: seq<Byte>, r: Reply)
    requires p.Valid() && Encodes(f, r)
    ensures var (q, v) := Taken(Arrival(p, f));
            v == |f| && Carries(v, q.buff, r)
  {
    DownloadedWithinTwoPolls(p, f);
    FrameAccepted(f);
    BufferCarries(f, r);
  }

  /** A reply frame with one byte altered on the line is a rejected message, unless the alteration
      spells one of the texts that skip validation. */
  lemma DamagedReplyRejected(p: Port, f: seq<Byte>, k: nat, v: Byte)
    requires p.Valid() && IsFrame(f) && k < |f| && v != f[k]
    requires !Bypassed(Padded(f[k := v], SERIAL_BUFFER))
    ensures Taken(Arrival(p, f[k := v])).1 < 0
  {
    DownloadedWithinTwoPolls(p, f[k := v]);
    AlteredByteRejected(f, k, v);
  }
}
