/** Which request the dispatcher takes out of the mask. */
module RequestMask {
  import opened Bytes
  import opened EepromLayout
  import opened Requests
  import opened Firmware

  /** Only the four read bits and the five write bits are ever used (0xF80F). */
  predicate Known(mask: Mask) {
    mask <= READ_BITS + WRITE_BITS
  }

  predicate Pending(mask: Mask, s: Section)
    requires Counted(s)
  {
    ReadBit(s) in mask || WriteBit(s) in mask
  }

  /** Comparing counters raises exactly the read bits of the sections that differ. */
  lemma RaisedBits(mask: Mask, e: Image, c: Counters, s: Section)
    requires Counted(s)
    ensures Known(mask) ==> Known(Raised(mask, e, c))
    ensures ReadBit(s) in Raised(mask, e, c) <==> ReadBit(s) in mask || c.Of(s) != Counter(e, s)
    ensures WriteBit(s) in Raised(mask, e, c) <==> WriteBit(s) in mask
  {
  }

  /** The pending request served next: reads in section order, then writes in section order. */
  function Choice(mask: Mask): (c: (bool, Section))
    requires Known(mask) && mask != {}
    ensures c.0 ==> Counted(c.1) && ReadBit(c.1) in mask
    ensures !c.0 ==> c.1 != Configuration && WriteBit(c.1) in mask && mask !! READ_BITS
  {
    if 0 in mask then (true, Info)
    else if 1 in mask then (true, SettingPar)
    else if 2 in mask then (true, SetTemp)
    else if 3 in mask then (true, DayProg)
    else if 11 in mask then (false, Info)
    else if 12 in mask then (false, SettingPar)
    else if 13 in mask then (false, SetTemp)
    else if 14 in mask then (false, DayProg)
    else
      assert 15 in mask by { var i :| i in mask; }
      (false, HWSetting)
  }

  /** With a request pending and the line free, the dispatcher sends exactly that request, a
      write with the mirror's bytes, and takes exactly its bit out of the mask. */
  lemma DispatchSendsChoice(f: Fw)
    requires Known(f.mask) && f.mask != {} && !f.busy
    ensures var (isRead, s) := Choice(f.mask);
            Dispatch(f) == if isRead then SendsRead(f, s) else SendsWrite(f, s)
  {
  }

  /** `b` is the lowest pending bit the dispatcher knows: any of the sixteen but bit 10. */
  predicate Lowest(mask: Mask, b: nat) {
    b in mask && b <= 15 && b != 10 && forall x | x in mask :: x >= b || x == 10
  }

  /** With the line free the dispatcher takes exactly the lowest bit, the retired ones included: 0 to 3 read, 4 to
      9 send nothing and still hold the line, 11 to 15 write the mirror's bytes. */
  lemma {:induction false} TakesLowestBit(f: Fw, b: nat)
    requires !f.busy && Lowest(f.mask, b)
    ensures var g := Dispatch(f);
            && g.busy && g.mask == f.mask - {b}
            && g.sent == f.sent + (if b <= 3 then [Read([Info, SettingPar, SetTemp, DayProg][b])]
                                   else if b <= 9 then []
                                   else var s := [Info, SettingPar, SetTemp, DayProg, HWSetting][b - 11];
                                     [Write(s, Content(f.mirror, s))])
  {
    assert forall x | x in f.mask && x < b :: x == 10;
  }

  /** Where the counters of a poll reply lie, and what they are compared with. */
  lemma PollCounters(f: Fw, rx: seq<Byte>)
    requires |rx| == 128
    ensures var g := PollParse(f, rx);
            && (0 in g.mask <==> 0 in f.mask || rx[38] != f.mirror[58])
            && (1 in g.mask <==> 1 in f.mask || rx[39] != f.mirror[126])
            && (2 in g.mask <==> 2 in f.mask || rx[40] != f.mirror[152])
            && (3 in g.mask <==> 3 in f.mask || rx[41] != f.mirror[237])
  {
  }

  /** And those of a write reply, which are adopted as well. */
  lemma WriteCounters(f: Fw, rx: seq<Byte>)
    requires |rx| == 128
    ensures var g := WriteParse(f, rx);
            && (0 in g.mask <==> 0 in f.mask || rx[7] != f.mirror[58]) && g.mirror[58] == rx[7]
            && (1 in g.mask <==> 1 in f.mask || rx[8] != f.mirror[126]) && g.mirror[126] == rx[8]
            && (2 in g.mask <==> 2 in f.mask || rx[9] != f.mirror[152]) && g.mirror[152] == rx[9]
            && (3 in g.mask <==> 3 in f.mask || rx[10] != f.mirror[237]) && g.mirror[237] == rx[10]
  {
  }

  /** A read reply: its address, its length, and its bytes from the seventh on. */
  lemma ReadBytes(f: Fw, rx: seq<Byte>, i: nat)
    requires |rx| == 128 && CopyInBounds(rx) && i < 241
    ensures ReadParse(f, rx).mirror[i] ==
            if rx[4] <= i < rx[4] as int + rx[5] then rx[6 + (i - rx[4])] else f.mirror[i]
  {
    var d := Payload(rx);
    assert forall j | 0 <= j < |d| :: d[j] == rx[6 + j];
    assert ReadParse(f, rx).mirror[rx[4]..rx[4] as int + rx[5]] == d;
  }

  /** The command byte decides how a message is handled, and whether it frees the line. */
  lemma CommandByte(f: Fw, now: U32, val: int, rx: seq<Byte>)
    requires |rx| == 128 && Readable(val, rx) && val > 1
    ensures var g := HandleResult(f, now, val, rx);
            && g.timeoutT == now
            && g.busy == (f.busy && rx[3] !in {0x50, 0x44, 0x52, 0x57})
            && (rx[3] != 0x52 && rx[3] != 0x57 ==> g.mirror == f.mirror)
            && (rx[3] != 0x50 && rx[3] != 0x57 ==> g.mask == f.mask)
            && (rx[3] == 0x50 ==> g.mask == PollParse(f, rx).mask)
            && (rx[3] == 0x57 ==> g.mask == WriteParse(f, rx).mask && g.mirror == WriteParse(f, rx).mirror)
            && (rx[3] == 0x52 ==> g.mirror == ReadParse(f, rx).mirror)
  {
  }

  /** A rejected message frees the line and does nothing else; an empty port and a message still arriving do
      nothing. */
  lemma OtherResults(f: Fw, now: U32, val: int, rx: seq<Byte>)
    requires |rx| == 128 && val <= 1
    ensures HandleResult(f, now, val, rx) == if val < 0 then f.(busy := false) else f
  {
  }
}
