/** An app image reaches the unit: each of its five sections goes out in exactly one write frame,
    with the image's bytes unless something newer landed in the mirror first. */
module ImageToWire {
  import opened Bytes
  import opened EepromLayout
  import opened Codec
  import opened Requests
  import opened Firmware
  import opened RequestMask
  import opened StopAndWait
  import Simulation
  import PreparedWrite

  /** A message that lands in section `s` of the mirror: a read reply that overlaps it, or a write
      reply with another counter for it. */
  predicate Touches(f: Fw, i: Input, s: Section)
    requires Acceptable(i)
  {
    && i.Tick? && i.val > RUN_DOWNLOAD
    && var cmd := i.rx[TYPE_COMMAND];
       || (cmd == COMMAND_READ_EEPROM
           && i.rx[ADDR_BYTE_START_EEP] <= EndAddress(s)
           && Start(s) < i.rx[ADDR_BYTE_START_EEP] as int + i.rx[ADDR_NUM_BYTE_EEP])
       || (cmd == COMMAND_WRITE_EEPROM && Counted(s)
           && CountersAt(i.rx, IRSW_CNT_UPDATE_EEP_INFO).Of(s) != Counter(f.mirror, s))
  }

  /** Up to the moment the write of `s` is sent, nothing touches the section and no image arrives. */
  predicate Undisturbed(f: Fw, inputs: seq<Input>, s: Section)
    requires s != Configuration && forall i | i in inputs :: Acceptable(i)
    decreases |inputs|
  {
    inputs == [] || f.com != WbmConnected || WriteBit(s) !in f.mask ||
    (inputs[0].Tick? && !Touches(f, inputs[0], s) && Undisturbed(Next(f, inputs[0]), inputs[1..], s))
  }

  function WritesOf(t: seq<Request>, s: Section): seq<Request> {
    if t == [] then []
    else (if t[0].Write? && t[0].section == s then [t[0]] else []) + WritesOf(t[1..], s)
  }

  lemma {:induction false} WritesConcat(t: seq<Request>, u: seq<Request>, s: Section)
    ensures WritesOf(t + u, s) == WritesOf(t, s) + WritesOf(u, s)
  {
    if t == [] {
      assert t + u == u;
    } else {
      assert (t + u)[1..] == t[1..] + u && (t + u)[0] == t[0];
      WritesConcat(t[1..], u, s);
      var first := if t[0].Write? && t[0].section == s then [t[0]] else [];
      assert WritesOf(t, s) == first + WritesOf(t[1..], s);
      assert WritesOf(t + u, s) == first + (WritesOf(t[1..], s) + WritesOf(u, s));
    }
  }

  lemma ReadBeside(f: Fw, rx: seq<Byte>, s: Section)
    requires |rx| == SERIAL_BUFFER && CopyInBounds(rx)
    requires EndAddress(s) < rx[ADDR_BYTE_START_EEP]
             || rx[ADDR_BYTE_START_EEP] as int + rx[ADDR_NUM_BYTE_EEP] <= Start(s)
    ensures Content(ReadParse(f, rx).mirror, s) == Content(f.mirror, s)
  {
    SpliceBeside(f.mirror, rx[ADDR_BYTE_START_EEP], Payload(rx), Start(s), Count(s));
  }

  lemma SameCounter(e: Image, c: Counters, s: Section)
    requires Counted(s) ==> c.Of(s) == Counter(e, s)
    ensures Content(WithCounters(e, c), s) == Content(e, s)
  {
    if Counted(s) { Simulation.CountersLanded(s, e, c); }
  }

  lemma HandleKeepsSection(f: Fw, i: Input, s: Section)
    requires Acceptable(i) && i.Tick? && !Touches(f, i, s)
    ensures Content(HandleResult(f, i.clock.message, i.val, i.rx).mirror, s) == Content(f.mirror, s)
  {
    if i.val > RUN_DOWNLOAD {
      var cmd := i.rx[TYPE_COMMAND];
      if cmd == COMMAND_READ_EEPROM {
        ReadBeside(f.(timeoutT := i.clock.message), i.rx, s);
      } else if cmd == COMMAND_WRITE_EEPROM {
        SameCounter(f.mirror, CountersAt(i.rx, IRSW_CNT_UPDATE_EEP_INFO), s);
      }
    }
  }

  lemma RaisedKeepsWrites(mask: Mask, e: Image, c: Counters, bit: nat)
    requires bit in WRITE_BITS
    ensures bit in Raised(mask, e, c) <==> bit in mask
    ensures Known(mask) ==> Known(Raised(mask, e, c))
  {
  }

  lemma HandleKeepsWriteBits(f: Fw, i: Input, s: Section)
    requires Acceptable(i) && i.Tick? && s != Configuration && Known(f.mask)
    ensures var g := HandleResult(f, i.clock.message, i.val, i.rx);
            Known(g.mask) && (WriteBit(s) in g.mask <==> WriteBit(s) in f.mask)
  {
    if i.val > RUN_DOWNLOAD {
      var bit := WriteBit(s);
      RaisedKeepsWrites(f.mask, f.mirror, CountersAt(i.rx, IRSP_CNT_UPDATE_EEP_INFO), bit);
      RaisedKeepsWrites(f.mask, f.mirror, CountersAt(i.rx, IRSW_CNT_UPDATE_EEP_INFO), bit);
    }
  }

  lemma {:induction false} DispatchWrites(f: Fw, s: Section)
    requires Known(f.mask) && s != Configuration
    ensures var g := Dispatch(f);
            && Known(g.mask)
            && f.sent <= g.sent
            && WritesOf(g.sent[|f.sent|..], s) ==
               (if WriteBit(s) in f.mask && WriteBit(s) !in g.mask then [Write(s, Content(f.mirror, s))] else [])
            && (WriteBit(s) !in f.mask ==> WriteBit(s) !in g.mask)
  {
    if f.mask != {} && !f.busy {
      var (isRead, t) := Choice(f.mask);
      DispatchSendsChoice(f);
      var r := if isRead then Read(t) else Write(t, Content(f.mirror, t));
      assert Dispatch(f).sent[|f.sent|..] == [r];
      assert WritesOf([r], s) == if r.Write? && r.section == s then [r] else [];
    }
  }

  lemma TimersWriteNothing(f: Fw, clock: Readings, s: Section)
    requires Timers(f, clock).com == WbmConnected
    ensures var g := Timers(f, clock);
            g.mirror == f.mirror && g.mask == f.mask && f.sent <= g.sent && WritesOf(g.sent[|f.sent|..], s) == []
  {
  }

  /** One iteration: the write of `s` goes out once, when its bit is taken, with the bytes the
      mirror held before the iteration if nothing touched the section. */
  lemma {:induction false} TickWrites(f: Fw, i: Input, s: Section)
    requires Acceptable(i) && i.Tick? && s != Configuration && Known(f.mask)
    requires Next(f, i).com == WbmConnected
    ensures var g := Next(f, i);
            && Known(g.mask) && f.sent <= g.sent
            && (WriteBit(s) !in f.mask ==> WriteBit(s) !in g.mask && WritesOf(g.sent[|f.sent|..], s) == [])
            && (WriteBit(s) in g.mask ==> WritesOf(g.sent[|f.sent|..], s) == [])
            && (!Touches(f, i, s) ==>
              && (WriteBit(s) in g.mask ==> Content(g.mirror, s) == Content(f.mirror, s))
              && (WriteBit(s) in f.mask && WriteBit(s) !in g.mask ==>
                    WritesOf(g.sent[|f.sent|..], s) == [Write(s, Content(f.mirror, s))]))
  {
    var f1 := Timers(f, i.clock);
    var f2 := HandleResult(f1, i.clock.message, i.val, i.rx);
    TimersWriteNothing(f, i.clock, s);
    HandleKeepsWriteBits(f1, i, s);
    if !Touches(f, i, s) { HandleKeepsSection(f1, i, s); }
    DispatchWrites(f2, s);
    WritesFrom(f.sent, f1.sent, Dispatch(f2).sent, s);
  }

  lemma WritesFrom(a: seq<Request>, b: seq<Request>, c: seq<Request>, s: Section)
    requires a <= b <= c
    ensures a <= c && WritesOf(c[|a|..], s) == WritesOf(b[|a|..], s) + WritesOf(c[|b|..], s)
  {
    assert c[|a|..] == b[|a|..] + c[|b|..];
    WritesConcat(b[|a|..], c[|b|..], s);
  }

  /** What was sent from `f` to `g` about section `s`: nothing, or the write of `data` if the bit
      was taken in between. */
  predicate SentIfTaken(f: Fw, g: Fw, s: Section, data: seq<Byte>)
    requires s != Configuration
  {
    && f.sent <= g.sent
    && WritesOf(g.sent[|f.sent|..], s) ==
       (if WriteBit(s) in f.mask && WriteBit(s) !in g.mask then [Write(s, data)] else [])
    && (WriteBit(s) in g.mask ==> WriteBit(s) in f.mask)
  }

  lemma SentChained(f: Fw, m: Fw, g: Fw, s: Section, data: seq<Byte>)
    requires s != Configuration && SentIfTaken(f, m, s, data) && SentIfTaken(m, g, s, data)
    ensures SentIfTaken(f, g, s, data)
  {
    WritesFrom(f.sent, m.sent, g.sent, s);
  }

  /** From `f` to `g` section `s` was written once if its bit was taken in between, else not. */
  predicate OnceIfTaken(f: Fw, g: Fw, s: Section)
    requires s != Configuration
  {
    && f.sent <= g.sent
    && |WritesOf(g.sent[|f.sent|..], s)| == (if WriteBit(s) in f.mask && WriteBit(s) !in g.mask then 1 else 0)
    && (WriteBit(s) in g.mask ==> WriteBit(s) in f.mask)
  }

  lemma OnceChained(f: Fw, m: Fw, g: Fw, s: Section)
    requires s != Configuration && OnceIfTaken(f, m, s) && OnceIfTaken(m, g, s)
    ensures OnceIfTaken(f, g, s)
  {
    WritesFrom(f.sent, m.sent, g.sent, s);
  }

  lemma TickWritesOnce(f: Fw, i: Input, s: Section)
    requires Acceptable(i) && i.Tick? && s != Configuration && Known(f.mask)
    requires Next(f, i).com == WbmConnected
    ensures Known(Next(f, i).mask) && OnceIfTaken(f, Next(f, i), s)
  {
    var f1 := Timers(f, i.clock);
    var f2 := HandleResult(f1, i.clock.message, i.val, i.rx);
    TimersWriteNothing(f, i.clock, s);
    HandleKeepsWriteBits(f1, i, s);
    DispatchWrites(f2, s);
    WritesFrom(f.sent, f1.sent, Dispatch(f2).sent, s);
  }

  /** From the arrival of an image until the next one, whatever lands in the mirror meanwhile: as
      long as the write of a section is pending it has not been sent; once it is not, it has been
      sent in exactly one frame. */
  lemma {:induction false} WrittenOnce(f: Fw, inputs: seq<Input>, s: Section)
    requires f.com == WbmConnected && Known(f.mask) && s != Configuration
    requires forall i | i in inputs :: Acceptable(i) && i.Tick?
    requires RunOf(f, inputs).com == WbmConnected
    ensures OnceIfTaken(f, RunOf(f, inputs), s)
    decreases |inputs|
  {
    if inputs != [] {
      var m := Next(f, inputs[0]);
      ConnectedThroughout(m, inputs[1..]);
      TickWritesOnce(f, inputs[0], s);
      WrittenOnce(m, inputs[1..], s);
      OnceChained(f, m, RunOf(f, inputs), s);
    }
  }

  /** And if nothing disturbed the section before that, with exactly the bytes it had. */
  lemma {:induction false} WrittenIntact(f: Fw, inputs: seq<Input>, s: Section, data: seq<Byte>)
    requires f.com == WbmConnected && Known(f.mask) && s != Configuration
    requires forall i | i in inputs :: Acceptable(i) && i.Tick?
    requires RunOf(f, inputs).com == WbmConnected
    requires Undisturbed(f, inputs, s)
    requires WriteBit(s) in f.mask ==> Content(f.mirror, s) == data
    ensures SentIfTaken(f, RunOf(f, inputs), s, data)
    decreases |inputs|
  {
    if inputs != [] {
      var m := Next(f, inputs[0]);
      ConnectedThroughout(m, inputs[1..]);
      TickWrites(f, inputs[0], s);
      WrittenIntact(m, inputs[1..], s, data);
      SentChained(f, m, RunOf(f, inputs), s, data);
    }
  }

  /** What was sent for section `s` of an image, with `g` the state now. */
  predicate OnWireOnce(writes: seq<Request>, g: Fw, image: Image, s: Section, intact: bool)
    requires s != Configuration
  {
    && |writes| == (if WriteBit(s) in g.mask then 0 else 1)
    && (intact && WriteBit(s) !in g.mask ==> writes == [Write(s, Content(image, s))])
  }

  /** A pending write on the wire, wherever its bit came from: the section goes out in exactly one frame
      once its bit is taken, with the bytes it had if nothing disturbed it before. */
  lemma {:induction false} PendingReachesWire(f: Fw, inputs: seq<Input>, s: Section)
    requires f.com == WbmConnected && Known(f.mask) && s != Configuration && WriteBit(s) in f.mask
    requires forall i | i in inputs :: Acceptable(i) && i.Tick?
    requires RunOf(f, inputs).com == WbmConnected
    ensures var g := RunOf(f, inputs);
            && f.sent <= g.sent
            && OnWireOnce(WritesOf(g.sent[|f.sent|..], s), g, f.mirror, s, Undisturbed(f, inputs, s))
  {
    WrittenOnce(f, inputs, s);
    if Undisturbed(f, inputs, s) { WrittenIntact(f, inputs, s, Content(f.mirror, s)); }
  }

  /** The app image on the wire: each section in exactly one frame once its bit is taken, with the
      image's bytes if nothing disturbed the section before. */
  lemma {:induction false} ImageReachesWire(f: Fw, image: Image, inputs: seq<Input>, s: Section)
    requires f.com == WbmConnected && Known(f.mask) && s != Configuration
    requires forall i | i in inputs :: Acceptable(i) && i.Tick?
    requires RunOf(TakeImage(f, image), inputs).com == WbmConnected
    ensures var g := RunOf(TakeImage(f, image), inputs);
            && f.sent <= g.sent
            && OnWireOnce(WritesOf(g.sent[|f.sent|..], s), g, image, s, Undisturbed(TakeImage(f, image), inputs, s))
  {
    assert WriteBit(s) in WRITE_BITS;
    PendingReachesWire(TakeImage(f, image), inputs, s);
  }

  /** An image written over BLE in fragments: any split of it, in any order, is accepted fragment by fragment,
      and what is then executed ends up on the wire in the same way. */
  lemma {:induction false} QueuedImageReachesWire(f: Fw, garbage: seq<Byte>, fragments: seq<PreparedWrite.Fragment>,
                                                  image: Image, inputs: seq<Input>, s: Section)
    requires f.com == WbmConnected && Known(f.mask) && s != Configuration
    requires |garbage| == PreparedWrite.PREPARE_BUF_MAX_SIZE && PreparedWrite.Splits(fragments, image)
    requires forall i | i in inputs :: Acceptable(i) && i.Tick?
    requires RunOf(TakeImage(f, image), inputs).com == WbmConnected
    ensures fragments != [] && PreparedWrite.EndsWithin(fragments[0])
    ensures var (buf, answers) := PreparedWrite.Queued(fragments, garbage);
            && (forall i | 0 <= i < |fragments| :: answers[i] == PreparedWrite.GattOk)
            && buf.Some?
            && var f0 := TakeImage(f, buf.value[..EEPROM_SIZE]);
               var g := RunOf(f0, inputs);
               && f.sent <= g.sent
               && OnWireOnce(WritesOf(g.sent[|f.sent|..], s), g, image, s, Undisturbed(f0, inputs, s))
  {
    PreparedWrite.QueuedWriteGathersImage(garbage, fragments, image);
    ImageReachesWire(f, image, inputs, s);
  }

  // ---- Byte by byte ----

  /** The write requests whose section covers byte `i`. */
  function Covering(t: seq<Request>, i: nat): seq<Request> {
    if t == [] then []
    else (if t[0].Write? && InSection(i, t[0].section) then [t[0]] else []) + Covering(t[1..], i)
  }

  predicate NoConfiguration(t: seq<Request>) {
    forall i | 0 <= i < |t| :: t[i].Write? ==> t[i].section != Configuration
  }

  lemma {:induction false} CoveringIsWritesOf(t: seq<Request>, i: nat, s: Section)
    requires NoConfiguration(t) && i < EEPROM_SIZE && s != Configuration && InSection(i, s)
    ensures Covering(t, i) == WritesOf(t, s)
  {
    if t != [] {
      WrittenSectionsPartition(i);
      assert t[0].Write? && InSection(i, t[0].section) ==> SameRange(t[0].section, s);
      CoveringIsWritesOf(t[1..], i, s);
    }
  }

  lemma {:induction false} CoveringNothing(t: seq<Request>, i: nat)
    requires 127 <= i < 133 || 238 <= i < EEPROM_SIZE
    requires NoConfiguration(t)
    ensures Covering(t, i) == []
  {
    if t != [] { CoveringNothing(t[1..], i); }
  }

  /** Only sections other than Configuration are written from `f` to `g`. */
  predicate SendsSections(f: Fw, g: Fw) {
    f.sent <= g.sent && NoConfiguration(g.sent[|f.sent|..])
  }

  lemma SectionsChained(f: Fw, m: Fw, g: Fw)
    requires SendsSections(f, m) && SendsSections(m, g)
    ensures SendsSections(f, g)
  {
    assert g.sent[|f.sent|..] == m.sent[|f.sent|..] + g.sent[|m.sent|..];
  }

  lemma DispatchSendsSections(f: Fw)
    requires Known(f.mask)
    ensures SendsSections(f, Dispatch(f)) && Known(Dispatch(f).mask)
  {
    if f.mask != {} && !f.busy { DispatchSendsChoice(f); }
  }

  lemma TimersSendSections(f: Fw, clock: Readings)
    requires Timers(f, clock).com == WbmConnected
    ensures SendsSections(f, Timers(f, clock)) && Timers(f, clock).mask == f.mask
  {
  }

  lemma TickSendsSections(f: Fw, i: Input)
    requires Acceptable(i) && i.Tick? && Known(f.mask) && Next(f, i).com == WbmConnected
    ensures SendsSections(f, Next(f, i)) && Known(Next(f, i).mask)
  {
    var f1 := Timers(f, i.clock);
    var f2 := HandleResult(f1, i.clock.message, i.val, i.rx);
    TimersSendSections(f, i.clock);
    HandleKeepsWriteBits(f1, i, Info);
    DispatchSendsSections(f2);
    assert SendsSections(f1, f2) && Next(f, i) == Dispatch(f2);
    SectionsChained(f, f1, Dispatch(f2));
  }

  lemma {:induction false} RunSendsSections(f: Fw, inputs: seq<Input>)
    requires f.com == WbmConnected && Known(f.mask)
    requires forall i | i in inputs :: Acceptable(i) && i.Tick?
    requires RunOf(f, inputs).com == WbmConnected
    ensures SendsSections(f, RunOf(f, inputs))
    decreases |inputs|
  {
    if inputs != [] {
      var m := Next(f, inputs[0]);
      ConnectedThroughout(m, inputs[1..]);
      TickSendsSections(f, inputs[0]);
      RunSendsSections(m, inputs[1..]);
      SectionsChained(f, m, RunOf(f, inputs));
    }
  }

  /** `writes` is one write frame that covers byte `i`, and carries `v` for it if `intact`. */
  predicate OneWriteOf(writes: seq<Request>, i: nat, v: Byte, intact: bool) {
    && |writes| == 1 && writes[0].Write? && InSection(i, writes[0].section)
    && (intact ==>
      i - Start(writes[0].section) < |writes[0].data| && writes[0].data[i - Start(writes[0].section)] == v)
  }

  /** The written section that covers byte `i`. */
  function SectionAt(i: nat): (s: Section)
    requires i < 127 || 133 <= i < 238
    ensures s != Configuration && InSection(i, s)
  {
    if i < 59 then Info else if i < 76 then HWSetting else if i < 127 then SettingPar
    else if i < 153 then SetTemp else DayProg
  }

  lemma {:induction false} WritesAreOf(t: seq<Request>, s: Section)
    ensures forall i | 0 <= i < |WritesOf(t, s)| :: WritesOf(t, s)[i].Write? && WritesOf(t, s)[i].section == s
  {
    if t != [] { WritesAreOf(t[1..], s); }
  }

  /** Once the writes pending for all sections have gone out, whatever landed in the mirror meanwhile,
      every byte of 0..126 and 133..237 has gone out in exactly one write frame and every other byte in
      none; the value is the mirror's at the start if nothing disturbed the byte's section before. */
  lemma EachByteWrittenOnce(f: Fw, inputs: seq<Input>, i: nat)
    requires f.com == WbmConnected && Known(f.mask) && WRITE_BITS <= f.mask && i < EEPROM_SIZE
    requires forall x | x in inputs :: Acceptable(x) && x.Tick?
    requires RunOf(f, inputs).com == WbmConnected && RunOf(f, inputs).mask !! WRITE_BITS
    ensures var g := RunOf(f, inputs);
            && f.sent <= g.sent
            && var writes := Covering(g.sent[|f.sent|..], i);
               if i < 127 || 133 <= i < 238 then
                 OneWriteOf(writes, i, f.mirror[i], Undisturbed(f, inputs, SectionAt(i)))
               else writes == []
  {
    var g := RunOf(f, inputs);
    RunSendsSections(f, inputs);
    var t := g.sent[|f.sent|..];
    if i < 127 || 133 <= i < 238 {
      var s := SectionAt(i);
      assert WriteBit(s) in WRITE_BITS;
      PendingReachesWire(f, inputs, s);
      CoveringIsWritesOf(t, i, s);
      WritesAreOf(t, s);
    } else {
      CoveringNothing(t, i);
    }
  }
}
