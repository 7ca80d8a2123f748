/** The two texts of the bootloader, from the bytes on the line to what the firmware does: "Bootloader" takes
    a handshake that waits for its first answer to the bootloader, "ACK" brings the next chunk, and
    nothing else does either. */
module Greeting {
  import opened Bytes
  import opened EepromLayout
  import opened Codec
  import opened Requests
  import opened Firmware
  import opened Handshake
  import opened Mailbox
  import BT = BootTransfer

  // ---- The texts as bytes ----

  const GREETING: seq<Byte> := [0x42, 0x6F, 0x6F, 0x74, 0x6C, 0x6F, 0x61, 0x64, 0x65, 0x72]
  const ACKNOWLEDGE: seq<Byte> := [0x41, 0x43, 0x4B]

  /** The message has the bytes `t` in it, before any NUL. */
  ghost predicate Holds(data: seq<Byte>, t: seq<Byte>) {
    exists k | 0 <= k <= |data| - |t| :: HoldsAt(data, t, k)
  }

  predicate HoldsAt(data: seq<Byte>, t: seq<Byte>, k: nat)
    requires k + |t| <= |data|
  {
    data[k..k + |t|] == t && 0 !in data[..k]
  }

  /** A message of which Read_Message sees the greeting, and one of which it sees an acknowledgement. */
  ghost predicate Greets(data: seq<Byte>) {
    |data| < 128 && Holds(data, GREETING)
  }

  ghost predicate Acknowledges(data: seq<Byte>) {
    |data| < 128 && Holds(data, ACKNOWLEDGE) && !Holds(data, GREETING)
  }

  predicate BytesOf(t: seq<Byte>, text: string) {
    |t| == |text| && forall j | 0 <= j < |t| :: t[j] == text[j] as int
  }

  lemma TheTexts()
    ensures BytesOf(GREETING, BOOTLOADER_TEXT) && BytesOf(ACKNOWLEDGE, ACK_TEXT)
    ensures forall j | 0 <= j < |BOOTLOADER_TEXT| :: BOOTLOADER_TEXT[j] != '\0'
    ensures forall j | 0 <= j < |ACK_TEXT| :: ACK_TEXT[j] != '\0'
  {
  }

  lemma HoldsIsSpells(data: seq<Byte>, t: seq<Byte>, text: string)
    requires BytesOf(t, text)
    ensures Holds(data, t) <==> Spells(data, text)
  {
    forall k | 0 <= k <= |data| - |t|
      ensures HoldsAt(data, t, k) <==> SpellsAt(data, text, k)
    {
      HoldsAtIsSpellsAt(data, t, text, k);
    }
  }

  lemma HoldsAtIsSpellsAt(data: seq<Byte>, t: seq<Byte>, text: string, k: nat)
    requires BytesOf(t, text) && k + |t| <= |data|
    ensures HoldsAt(data, t, k) <==> SpellsAt(data, text, k)
  {
    var mid, start := data[k..k + |t|], data[..k];
    assert forall j | 0 <= j < |t| :: mid[j] == data[k + j];
    assert forall j | 0 <= j < k :: start[j] == data[j];
  }

  /** What the buffer of a downloaded arrival shows of the two texts. */
  lemma ShownTexts(data: seq<Byte>)
    ensures HasText(Shown(data), BOOTLOADER_TEXT) <==> Greets(data)
    ensures HasText(Shown(data), ACK_TEXT) && !HasText(Shown(data), BOOTLOADER_TEXT) <==> Acknowledges(data)
  {
    TheTexts();
    HoldsIsSpells(data, GREETING, BOOTLOADER_TEXT);
    HoldsIsSpells(data, ACKNOWLEDGE, ACK_TEXT);
    if |data| < SERIAL_BUFFER {
      TextIsSpelt(data, BOOTLOADER_TEXT);
      TextIsSpelt(data, ACK_TEXT);
    } else {
      assert Zeros(SERIAL_BUFFER) == Padded([], SERIAL_BUFFER);
      TextIsSpelt([], BOOTLOADER_TEXT);
      TextIsSpelt([], ACK_TEXT);
    }
  }

  /** The ten bytes alone are a greeting, accepted with their length and no valid head. */
  lemma GreetingSkipsValidation()
    ensures Greets(GREETING) && Verdict(Padded(GREETING, SERIAL_BUFFER), 10) == 10
    ensures Padded(GREETING, SERIAL_BUFFER)[START_MSG_0] != PROTO_START_MSG_0
  {
    assert HoldsAt(GREETING, GREETING, 0);
    ShownTexts(GREETING);
  }

  // ---- The flags of the port ----

  /** Of two calls after an arrival exactly one downloads it; the other changes no flag. */
  lemma FlagsAfterArrival(p: Port, data: seq<Byte>)
    requires p.Valid() && data != []
    ensures var p0 := Arrival(p, data);
            var q := AfterRead(p0);
            var d := if Downloads(p0) then q else AfterRead(q);
            && (d.bootloaderMode <==> p.bootloaderMode || Greets(data))
            && (d.ackReceived <==> p.ackReceived || Acknowledges(data))
            && !Downloads(d) && d.available == 0
            && (!Downloads(p0) ==> q.bootloaderMode == p.bootloaderMode && q.ackReceived == p.ackReceived)
            && (!Downloads(p0) ==> ReadResult(p0) == RUN_DOWNLOAD)
  {
    DownloadedWithinTwoPolls(p, data);
    ShownTexts(data);
  }

  // ---- The handshake ----

  /** The firmware and its port. */
  datatype Gateway = Gateway(fw: Fw, port: Port)

  predicate Callable(w: Gateway, v: Visit<U32>) {
    w.port.Valid() && Usable(w.fw, v, ReadResult(w.port), AfterRead(w.port).buff)
  }

  /** One call of Connect_To_Unit. */
  function Called(w: Gateway, v: Visit<U32>): Gateway
    requires Callable(w, v)
  {
    var q := if CallsRead(w.fw, v) then AfterRead(w.port) else w.port;
    Gateway(Connect(w.fw, v, ReadResult(w.port), q.buff, q.bootloaderMode), q)
  }

  /** A call that is not late while the first answer is waited for: Bootloader if the flag is up after
      Read_Message, whatever that returned; else LinkConnected on a message; else it goes on waiting. */
  lemma FirstAnswerDecides(f: Fw, v: Visit<U32>, val: int, rx: seq<Byte>, boot: bool)
    requires f.conn == TrySerialLink && CallsRead(f, v) && |rx| == 128
    ensures var g := Connect(f, v, val, rx, boot);
            && (g.conn == Bootloader <==> boot)
            && (g.conn == LinkConnected <==> !boot && val > 1)
            && (g.conn == TrySerialLink <==> !boot && val <= 1)
            && g == f.(conn := g.conn)
  {
  }

  predicate Seeks(w: Gateway, v: Visit<U32>) {
    w.port.Valid() && w.fw.conn == TrySerialLink && CallsRead(w.fw, v)
  }

  lemma BootloaderStays(w: Gateway, v: Visit<U32>)
    requires w.port.Valid() && w.fw.conn == Bootloader
    ensures Callable(w, v) && Called(w, v).fw.conn == Bootloader
  {
  }

  /** From the bytes on the line: while the first answer is waited for, any arrival takes the firmware to
      the bootloader within two calls exactly if it has the greeting in it or one came before; whatever
      the port held. */
  lemma {:induction false} GreetingEntersBootloader(w: Gateway, data: seq<Byte>, v1: Visit<U32>, v2: Visit<U32>)
    requires Seeks(w, v1) && Seeks(w, v2) && data != []
    ensures var w0 := w.(port := Arrival(w.port, data));
            && Callable(w0, v1) && Callable(Called(w0, v1), v2)
            && (Called(Called(w0, v1), v2).fw.conn == Bootloader <==> w.port.bootloaderMode || Greets(data))
  {
    var w0 := w.(port := Arrival(w.port, data));
    var w1 := Called(w0, v1);
    FlagsAfterArrival(w.port, data);
    FirstAnswerDecides(w0.fw, v1, ReadResult(w0.port), w1.port.buff, w1.port.bootloaderMode);
    if w1.fw.conn == TrySerialLink {
      FirstAnswerDecides(w1.fw, v2, ReadResult(w1.port), AfterRead(w1.port).buff, AfterRead(w1.port).bootloaderMode);
    }
  }

  // ---- Over runs ----

  datatype Event = Arrive(data: seq<Byte>) | Call(visit: Visit<U32>)

  /** The firmware, and its port with all that arrived. */
  datatype Desk = Desk(fw: Fw, history: History)

  predicate Enabled(d: Desk, e: Event) {
    d.history.port.Valid() && (e.Call? ==> Callable(Gateway(d.fw, d.history.port), e.visit))
  }

  function Step(d: Desk, e: Event): (z: Desk)
    requires Enabled(d, e)
    ensures z.history.port.Valid()
  {
    match e
    case Arrive(data) => d.(history := Mailbox.Step(d.history, Mailbox.Arrive(data)))
    case Call(v) =>
      Desk(Called(Gateway(d.fw, d.history.port), v).fw,
           if CallsRead(d.fw, v) then Mailbox.Step(d.history, Mailbox.Poll) else d.history)
  }

  predicate Possible(d: Desk, events: seq<Event>)
    decreases |events|
  {
    events == [] || (Enabled(d, events[0]) && Possible(Step(d, events[0]), events[1..]))
  }

  function Run(d: Desk, events: seq<Event>): Desk
    requires Possible(d, events)
    decreases |events|
  {
    if events == [] then d else Run(Step(d, events[0]), events[1..])
  }

  ghost predicate Greeted(arrivals: seq<seq<Byte>>) {
    exists a | a in arrivals :: Greets(a)
  }

  ghost predicate OnlyIfGreeted(d: Desk) {
    Tracks(d.history) && (d.history.port.bootloaderMode || d.fw.conn == Bootloader ==> Greeted(d.history.arrivals))
  }

  lemma GreetedBefore(arrivals: seq<seq<Byte>>, data: seq<Byte>)
    requires Greeted(arrivals)
    ensures Greeted(arrivals + [data])
  {
    var a :| a in arrivals && Greets(a);
    assert a in arrivals + [data];
  }

  lemma ReadGreets(h: History)
    requires Tracks(h)
    ensures AfterRead(h.port).bootloaderMode ==> h.port.bootloaderMode || Greeted(h.arrivals)
  {
    if Downloads(h.port) {
      DownloadShowsLatest(h);
      ShownTexts(h.arrivals[|h.arrivals| - 1]);
      assert h.arrivals[|h.arrivals| - 1] in h.arrivals;
    }
  }

  lemma OnlyTheFlagEnters(f: Fw, v: Visit<U32>, val: int, rx: seq<Byte>, boot: bool)
    requires Usable(f, v, val, rx) && Connect(f, v, val, rx, boot).conn == Bootloader
    ensures f.conn == Bootloader || boot
  {
    if Loads(f.conn) { ConnectLoads(f, v, val, rx, boot); }
  }

  lemma StepOnlyIfGreeted(d: Desk, e: Event)
    requires Enabled(d, e) && OnlyIfGreeted(d)
    ensures OnlyIfGreeted(Step(d, e))
  {
    match e
    case Arrive(data) =>
      StepTracks(d.history, Mailbox.Arrive(data));
      if Greeted(d.history.arrivals) { GreetedBefore(d.history.arrivals, data); }
    case Call(v) =>
      var p := d.history.port;
      var q := if CallsRead(d.fw, v) then AfterRead(p) else p;
      StepTracks(d.history, Mailbox.Poll);
      ReadGreets(d.history);
      if Step(d, e).fw.conn == Bootloader { OnlyTheFlagEnters(d.fw, v, ReadResult(p), q.buff, q.bootloaderMode); }
  }

  /** Whatever arrives and however often the firmware is called: it is in the bootloader only if some
      arrival had the greeting in it. */
  lemma {:induction false} OnlyGreetingEntersBootloader(d: Desk, events: seq<Event>)
    requires d.history == Boot() && d.fw.conn != Bootloader && Possible(d, events)
    ensures Run(d, events).fw.conn == Bootloader ==> Greeted(Run(d, events).history.arrivals)
  {
    RunOnlyIfGreeted(d, events);
  }

  lemma {:induction false} RunOnlyIfGreeted(d: Desk, events: seq<Event>)
    requires OnlyIfGreeted(d) && Possible(d, events)
    ensures OnlyIfGreeted(Run(d, events))
    decreases |events|
  {
    if events != [] {
      StepOnlyIfGreeted(d, events[0]);
      RunOnlyIfGreeted(Step(d, events[0]), events[1..]);
    }
  }

  // ---- The transfer ----

  /** One call of Bootloader_State1, which does nothing once the transfer has ended. */
  function Continued(b: BT.Boot, file: seq<Byte>, p: Port): (r: (BT.Boot, Port))
    requires p.Valid() && b.moved <= b.size == |file|
    ensures r.1.Valid() && r.0.moved <= r.0.size == |file|
  {
    if b.state != BT.Sending then (b, p)
    else
      var q := AfterRead(p);
      (if q.ackReceived then BT.OnAck(b, file) else b, q.(ackReceived := false))
  }

  /** An arrival and the two calls after it. */
  function Answered(b: BT.Boot, file: seq<Byte>, p: Port, data: seq<Byte>): (r: (BT.Boot, Port))
    requires p.Valid() && b.moved <= b.size == |file|
    ensures r.1.Valid() && r.0.moved <= r.0.size == |file|
  {
    var (b1, p1) := Continued(b, file, Arrival(p, data));
    Continued(b1, file, p1)
  }

  /** From the bytes on the line: an arrival brings exactly one more chunk if it acknowledges, and none
      otherwise. */
  lemma {:induction false} AckBringsChunk(b: BT.Boot, file: seq<Byte>, p: Port, data: seq<Byte>)
    requires p.Valid() && b.moved <= b.size == |file| && b.state == BT.Sending && !p.ackReceived && data != []
    ensures var (c, q) := Answered(b, file, p, data);
            c == (if Acknowledges(data) then BT.OnAck(b, file) else b) && q.Valid() && !q.ackReceived
  {
    FlagsAfterArrival(p, data);
  }

  predicate Arrived(arrivals: seq<seq<Byte>>) {
    forall i | 0 <= i < |arrivals| :: arrivals[i] != []
  }

  ghost function AcksIn(arrivals: seq<seq<Byte>>): nat {
    if arrivals == [] then 0
    else AcksIn(arrivals[..|arrivals| - 1]) + if Acknowledges(arrivals[|arrivals| - 1]) then 1 else 0
  }

  /** A transfer after the arrivals, each followed by two calls. */
  function Transferred(b: BT.Boot, file: seq<Byte>, p: Port, arrivals: seq<seq<Byte>>): (r: (BT.Boot, Port))
    requires p.Valid() && b.moved <= b.size == |file|
    ensures r.1.Valid() && r.0.moved <= r.0.size == |file|
  {
    if arrivals == [] then (b, p)
    else
      var n := |arrivals| - 1;
      var (c, q) := Transferred(b, file, p, arrivals[..n]);
      Answered(c, file, q, arrivals[n])
  }

  lemma EndedStays(b: BT.Boot, file: seq<Byte>, p: Port, data: seq<Byte>)
    requires p.Valid() && b.moved <= b.size == |file| && b.state != BT.Sending
    ensures Answered(b, file, p, data) == (b, Arrival(p, data))
  {
  }

  lemma OneArrival(b: BT.Boot, file: seq<Byte>, p: Port, data: seq<Byte>)
    requires p.Valid() && b.moved <= b.size == |file| && !p.ackReceived && data != []
    ensures var (c, q) := Answered(b, file, p, data);
            !q.ackReceived && c == if b.state == BT.Sending && Acknowledges(data) then BT.OnAck(b, file) else b
  {
    if b.state == BT.Sending { AckBringsChunk(b, file, p, data); } else { EndedStays(b, file, p, data); }
  }

  lemma {:induction false} OneAckMore(b: BT.Boot, file: seq<Byte>, n: nat)
    requires b.moved <= b.size == |file|
    ensures var m := BT.AfterAcks(b, file, n);
            BT.AfterAcks(b, file, n + 1) == if m.state == BT.Sending then BT.OnAck(m, file) else m
  {
  }

  lemma AcksGrow(arrivals: seq<seq<Byte>>)
    requires arrivals != []
    ensures var n := |arrivals| - 1;
            AcksIn(arrivals) == AcksIn(arrivals[..n]) + if Acknowledges(arrivals[n]) then 1 else 0
  {
  }

  lemma OneArrivalMore(b: BT.Boot, file: seq<Byte>, k: nat, q: Port, data: seq<Byte>, more: nat)
    requires q.Valid() && b.moved <= b.size == |file| && !q.ackReceived && data != []
    requires more == k + if Acknowledges(data) then 1 else 0
    ensures var (c, p) := Answered(BT.AfterAcks(b, file, k), file, q, data);
            c == BT.AfterAcks(b, file, more) && !p.ackReceived
  {
    OneArrival(BT.AfterAcks(b, file, k), file, q, data);
    OneAckMore(b, file, k);
  }

  lemma {:induction false} ArrivalsAreAcks(b: BT.Boot, file: seq<Byte>, p: Port, arrivals: seq<seq<Byte>>)
    requires p.Valid() && b.moved <= b.size == |file| && !p.ackReceived && Arrived(arrivals)
    ensures var (c, q) := Transferred(b, file, p, arrivals);
            c == BT.AfterAcks(b, file, AcksIn(arrivals)) && !q.ackReceived
  {
    if arrivals != [] {
      var n := |arrivals| - 1;
      var earlier := arrivals[..n];
      ArrivalsAreAcks(b, file, p, earlier);
      AcksGrow(arrivals);
      OneArrivalMore(b, file, AcksIn(earlier), Transferred(b, file, p, earlier).1, arrivals[n], AcksIn(arrivals));
    }
  }

  /** From the bytes on the line to the file: whatever arrives, the transfer has ended exactly once the
      acknowledgements cover the file at 16 bytes each, and its payloads then decode to the file exactly if
      the size is a multiple of four. */
  lemma {:induction false} AcksDeliverFile(file: seq<Byte>, p: Port, arrivals: seq<seq<Byte>>)
    requires p.Valid() && !p.ackReceived && file != [] && Arrived(arrivals)
    ensures var b := Transferred(BT.Open(BT.START, Some(file)), file, p, arrivals).0;
            && (b.state == BT.Ended <==> 16 * AcksIn(arrivals) >= |file|)
            && (b.state == BT.Ended ==>
                  && |b.sent| >= 1 && b.sent[0] == BT.Header(file)
                  && BT.Decoded(BT.Stream(b.sent[1..])) == if |file| % 4 == 0 then Some(file) else None)
  {
    ArrivalsAreAcks(BT.Open(BT.START, Some(file)), file, p, arrivals);
    BT.DeliversFile(file, AcksIn(arrivals));
  }
}
