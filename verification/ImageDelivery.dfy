/** An app image is delivered in bounded time: whenever it arrives, in Connected or during the handshake,
    34 results later every byte of its sections has gone out in exactly one write frame. */
module ImageDelivery {
  import opened Bytes
  import opened EepromLayout
  import opened Codec
  import opened Requests
  import opened Firmware
  import opened RequestMask
  import opened UnitModel
  import opened ImageToWire
  import SW = StopAndWait
  import Simulation
  import Drain
  import Handshake
  import HL = HandshakeLoad

  // ---- What the firmware sees of a run of firmware and unit ----

  function InputsOf(events: seq<Event>): (inputs: seq<SW.Input>) {
    if events == [] then []
    else
      var e := events[0];
      (if e.Tick? then [SW.Tick(e.clock, e.val, e.rx)] else []) + InputsOf(events[1..])
  }

  predicate NoImage(events: seq<Event>) {
    forall e | e in events :: !e.AppImage?
  }

  predicate TicksOnly(inputs: seq<SW.Input>) {
    forall i | i in inputs :: SW.Acceptable(i) && i.Tick?
  }

  lemma {:induction false} TicksAreInputs(y: Sys, events: seq<Event>)
    requires Possible(y, events)
    ensures TicksOnly(InputsOf(events))
    decreases |events|
  {
    if events != [] { TicksAreInputs(Step(y, events[0]), events[1..]); }
  }

  lemma TickIsNext(y: Sys, e: Event)
    requires Enabled(y, e) && e.Tick?
    ensures SW.Next(y.fw, SW.Tick(e.clock, e.val, e.rx)) == Step(y, e).fw
  {
  }

  lemma FirstInput(f: Fw, i: SW.Input, rest: seq<SW.Input>)
    requires f.com == WbmConnected && TicksOnly([i] + rest)
    ensures TicksOnly(rest) && SW.Acceptable(i) && SW.RunOf(f, [i] + rest) == SW.RunOf(SW.Next(f, i), rest)
  {
    assert ([i] + rest)[1..] == rest && ([i] + rest)[0] == i;
    assert forall x | x in rest :: x in [i] + rest;
  }

  lemma {:induction false} FirmwareSees(y: Sys, events: seq<Event>)
    requires Possible(y, events) && NoImage(events)
    ensures TicksOnly(InputsOf(events)) && SW.RunOf(y.fw, InputsOf(events)) == Run(y, events).fw
    decreases |events|
  {
    TicksAreInputs(y, events);
    if events != [] {
      var e, z := events[0], Step(y, events[0]);
      FirmwareSees(z, events[1..]);
      if e.Tick? {
        TickIsNext(y, e);
        FirstInput(y.fw, SW.Tick(e.clock, e.val, e.rx), InputsOf(events[1..]));
      } else {
        Drain.OtherStepsCostNothing(y, e);
        assert InputsOf(events) == InputsOf(events[1..]);
      }
    }
  }

  // ---- The mask drains, so the image has been written ----

  lemma {:induction false} RunSplits(y: Sys, a: seq<Event>, b: seq<Event>)
    requires Possible(y, a + b)
    ensures Possible(y, a) && Possible(Run(y, a), b) && Run(y, a + b) == Run(Run(y, a), b)
    decreases |a|
  {
    if a == [] {
      assert a + b == b;
    } else {
      assert (a + b)[0] == a[0] && (a + b)[1..] == a[1..] + b;
      RunSplits(Step(y, a[0]), a[1..], b);
    }
  }

  /** A state with an empty mask is followed, without new images, by states with no write pending. */
  lemma NoWritesLater(y: Sys, events: seq<Event>)
    requires y.fw.mask == {} && y.fw.com == WbmConnected && Possible(y, events) && NoImage(events)
    requires Run(y, events).fw.com == WbmConnected
    ensures Run(y, events).fw.mask !! WRITE_BITS
  {
    FirmwareSees(y, events);
    forall s: Section | s != Configuration
      ensures WriteBit(s) !in Run(y, events).fw.mask
    {
      WrittenOnce(y.fw, InputsOf(events), s);
    }
    NoWriteBits(Run(y, events).fw.mask);
  }

  lemma NoWriteBits(mask: Mask)
    requires forall s: Section | s != Configuration :: WriteBit(s) !in mask
    ensures mask !! WRITE_BITS
  {
    assert WriteBit(Info) == 11 && WriteBit(SettingPar) == 12 && WriteBit(SetTemp) == 13 && WriteBit(DayProg) == 14
           && WriteBit(HWSetting) == 15;
  }

  /** Results enough for the mask to drain from any state. */
  function Enough(f: Fw): nat {
    if Drain.Awaits(f, false) then 34 else 30
  }

  lemma {:induction false} WrittenByThen(y: Sys, events: seq<Event>)
    requires y.fw.com == WbmConnected && Simulation.LineOk(y) && Possible(y, events) && NoImage(events)
    requires Run(y, events).fw.com == WbmConnected && Drain.AnsweredIn(events) >= Enough(y.fw)
    ensures Run(y, events).fw.mask !! WRITE_BITS
  {
    var k := Drain.DrainsFromAnywhere(y, events);
    assert events == events[..k] + events[k..];
    RunSplits(y, events[..k], events[k..]);
    var m := Run(y, events[..k]);
    if events[k..] != [] { assert Enabled(m, events[k..][0]); }
    NoWritesLater(m, events[k..]);
  }

  /** With the write bits of all sections pending: 30 results later, or 34 if a write is outstanding, each
      byte of the written sections has gone out in exactly one write frame and every other byte in none;
      with the value it had, if nothing landed in its section before the write was sent. */
  lemma {:induction false} PendingDelivered(y: Sys, events: seq<Event>, i: nat)
    requires y.fw.com == WbmConnected && Simulation.LineOk(y) && WRITE_BITS <= y.fw.mask && i < EEPROM_SIZE
    requires Possible(y, events) && NoImage(events)
    requires Run(y, events).fw.com == WbmConnected && Drain.AnsweredIn(events) >= Enough(y.fw)
    ensures TicksOnly(InputsOf(events))
    ensures InOneFrame(y.fw, events, Run(y, events).fw, i)
  {
    FirmwareSees(y, events);
    WrittenByThen(y, events);
    EachByteWrittenOnce(y.fw, InputsOf(events), i);
  }

  /** Between `f` and `g` byte `i` went out once if a written section covers it, else not at all. */
  predicate InOneFrame(f: Fw, events: seq<Event>, g: Fw, i: nat)
    requires i < EEPROM_SIZE && TicksOnly(InputsOf(events))
  {
    && f.sent <= g.sent
    && var writes := Covering(g.sent[|f.sent|..], i);
       if i < 127 || 133 <= i < 238 then
         OneWriteOf(writes, i, f.mirror[i], Undisturbed(f, InputsOf(events), SectionAt(i)))
       else writes == []
  }

  /** An app image in any Connected state, whatever is pending or outstanding. */
  lemma {:induction false} ImageDelivered(y: Sys, image: Image, events: seq<Event>, i: nat)
    requires y.fw.com == WbmConnected && Simulation.LineOk(y) && i < EEPROM_SIZE
    requires Possible(Step(y, AppImage(image)), events) && NoImage(events)
    requires Run(Step(y, AppImage(image)), events).fw.com == WbmConnected
    requires Drain.AnsweredIn(events) >= Enough(y.fw)
    ensures TicksOnly(InputsOf(events))
    ensures InOneFrame(TakeImage(y.fw, image), events, Run(Step(y, AppImage(image)), events).fw, i)
  {
    var z := Step(y, AppImage(image));
    Simulation.ImageSimulated(Info, y, AppImage(image));
    FirmwareSees(z, events);
    PendingDelivered(z, events, i);
  }

  /** The system as the handshake hands it over. */
  function Handed(z: Handshake.HSys): Sys {
    Sys(z.fw, z.unit, None)
  }

  /** An app image during the handshake: it goes out from Connected in the same way, the bytes of each
      section that was not read since as the image has them, of the others as they were read. */
  lemma {:induction false} EarlyImageDelivered(h: Handshake.HSys, load: seq<Handshake.Event>, last: Handshake.Event,
                                               events: seq<Event>, i: nat)
    requires HL.Completes(h, load, last) && i < EEPROM_SIZE && (i < 127 || 133 <= i < 238)
    requires Handshake.BaseAfter(load, Handshake.BaseOf(h.fw)).writes == WRITE_BITS
    requires var y := Handed(Handshake.Step(Handshake.Run(h, load), last));
             && Possible(y, events) && NoImage(events)
             && Run(y, events).fw.com == WbmConnected && Drain.AnsweredIn(events) >= 30
    ensures TicksOnly(InputsOf(events))
    ensures var y := Handed(Handshake.Step(Handshake.Run(h, load), last));
            var (g, b) := HL.Loaded(SectionAt(i), h, load);
            && InOneFrame(y.fw, events, Run(y, events).fw, i)
            && (!g.copied ==> y.fw.mirror[i] == b.image[i])
  {
    var y := Handed(Handshake.Step(Handshake.Run(h, load), last));
    HL.HandshakeLoads(h, load, last, SectionAt(i));
    FirmwareSees(y, events);
    PendingDelivered(y, events, i);
    SameByte(y.fw.mirror, HL.Loaded(SectionAt(i), h, load).1.image, i);
  }

  lemma SameByte(a: Image, b: Image, i: nat)
    requires i < 127 || 133 <= i < 238
    ensures Content(a, SectionAt(i)) == Content(b, SectionAt(i)) ==> a[i] == b[i]
  {
    var s := SectionAt(i);
    assert Content(a, s)[i - Start(s)] == a[i] && Content(b, s)[i - Start(s)] == b[i];
  }
}
