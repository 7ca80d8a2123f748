/** Stop and wait: the firmware never has two requests on the line, and is only ever waiting for a
    request it really sent, whatever Read_Message returns and whenever app images arrive. */
module StopAndWait {
  import opened Bytes
  import opened EepromLayout
  import opened Codec
  import opened Requests
  import opened Firmware
  import opened RequestMask

  datatype Input = Tick(clock: Readings, val: int, rx: seq<Byte>) | NewImage(image: Image)

  predicate Acceptable(i: Input) {
    i.Tick? ==> Readable(i.val, i.rx)
  }

  function Next(f: Fw, i: Input): Fw
    requires Acceptable(i)
  {
    match i
    case Tick(clock, val, rx) => Iterate(f, clock, val, rx)
    case NewImage(image) => TakeImage(f, image)
  }

  /** What happens on the line: a request goes out, or a result of Read_Message releases it. */
  datatype LineEvent = Sent(request: Request) | Released

  /** A rejected message or a recognised reply ends the wait. */
  predicate Releases(val: int, rx: seq<Byte>)
    requires Readable(val, rx)
  {
    val < 0 || (val > RUN_DOWNLOAD && Recognised(rx))
  }

  function NewlySent(f: Fw, g: Fw): seq<LineEvent>
  {
    if |f.sent| >= |g.sent| then []
    else
      var n := |g.sent| - |f.sent|;
      seq(n, i requires 0 <= i < n => Sent(g.sent[|f.sent| + i]))
  }

  /** The line events of one step, in order. */
  function Trace(f: Fw, i: Input): seq<LineEvent>
    requires Acceptable(i)
  {
    match i
    case NewImage(_) => []
    case Tick(clock, val, rx) =>
      var g := Timers(f, clock);
      var h := HandleResult(g, clock.message, val, rx);
      NewlySent(f, g) + (if Releases(val, rx) then [Released] else []) + NewlySent(h, Dispatch(h))
  }

  function TraceOf(f: Fw, inputs: seq<Input>): seq<LineEvent>
    requires forall i | i in inputs :: Acceptable(i)
    decreases |inputs|
  {
    if inputs == [] || f.com != WbmConnected then []
    else Trace(f, inputs[0]) + TraceOf(Next(f, inputs[0]), inputs[1..])
  }

  function RunOf(f: Fw, inputs: seq<Input>): Fw
    requires forall i | i in inputs :: Acceptable(i)
    decreases |inputs|
  {
    if inputs == [] || f.com != WbmConnected then f else RunOf(Next(f, inputs[0]), inputs[1..])
  }

  /** A run that is Connected at its end was Connected from its start. */
  lemma ConnectedThroughout(f: Fw, inputs: seq<Input>)
    requires forall i | i in inputs :: Acceptable(i)
    requires RunOf(f, inputs).com == WbmConnected
    ensures f.com == WbmConnected
  {
  }

  /** No request follows another without a release in between; `held`: a request is out when the
      trace begins. */
  predicate Alternates(t: seq<LineEvent>, held: bool)
    decreases |t|
  {
    t == [] || (!(held && t[0].Sent?) && Alternates(t[1..], t[0].Sent?))
  }

  /** Whether a request is out when the trace ends. */
  predicate HeldAfter(t: seq<LineEvent>, held: bool)
  {
    if t == [] then held else t[|t| - 1].Sent?
  }

  lemma {:induction false} AlternatesConcat(t: seq<LineEvent>, u: seq<LineEvent>, held: bool)
    requires Alternates(t, held) && Alternates(u, HeldAfter(t, held))
    ensures Alternates(t + u, held)
    ensures HeldAfter(t + u, held) == HeldAfter(u, HeldAfter(t, held))
    decreases |t|
  {
    if t == [] {
      assert t + u == u;
    } else {
      AlternatesConcat(t[1..], u, t[0].Sent?);
      assert (t + u)[1..] == t[1..] + u;
    }
  }

  lemma TimersTrace(f: Fw, clock: Readings)
    requires f.com == WbmConnected
    ensures var g := Timers(f, clock);
            && NewlySent(f, g) == (if g.sent == f.sent then [] else [Sent(Newest(g))])
            && (g.sent != f.sent ==> !f.busy && |g.sent| == |f.sent| + 1)
            && (g.com == WbmConnected ==> g.mask == f.mask && g.busy == (f.busy || g.sent != f.sent))
            && (g.com != WbmConnected ==> g.mask == {} && !g.busy)
            && (Known(f.mask) ==> Known(g.mask))
  {
  }

  lemma DispatchTrace(f: Fw)
    requires Known(f.mask)
    ensures var g := Dispatch(f);
            && NewlySent(f, g) == (if g.sent == f.sent then [] else [Sent(Newest(g))])
            && (g.sent != f.sent <==> f.mask != {} && !f.busy)
            && g.busy == (f.busy || g.sent != f.sent)
            && Known(g.mask)
  {
    if f.mask != {} && !f.busy { DispatchSendsChoice(f); }
  }

  lemma HandleTrace(f: Fw, now: U32, val: int, rx: seq<Byte>)
    requires Readable(val, rx) && Known(f.mask)
    ensures var g := HandleResult(f, now, val, rx);
            && Known(g.mask)
            && g.busy == (f.busy && !Releases(val, rx))
            && (f.mask == {} && !Releases(val, rx) ==> g.mask == {})
  {
  }

  /** One step keeps the alternation; while Connected, busy means exactly that a request is out. */
  lemma {:induction false} StepAlternates(f: Fw, i: Input)
    requires f.com == WbmConnected && Known(f.mask) && Acceptable(i)
    ensures var g := Next(f, i);
            && Alternates(Trace(f, i), f.busy)
            && Known(g.mask)
            && (g.com == WbmConnected ==> g.busy == HeldAfter(Trace(f, i), f.busy))
  {
    if i.Tick? {
      var g := Timers(f, i.clock);
      var h := HandleResult(g, i.clock.message, i.val, i.rx);
      TimersTrace(f, i.clock);
      HandleTrace(g, i.clock.message, i.val, i.rx);
      DispatchTrace(h);
      var t1 := NewlySent(f, g);
      var t2 := if Releases(i.val, i.rx) then [Released] else [];
      AlternatesConcat(t1, t2, f.busy);
      AlternatesConcat(t1 + t2, NewlySent(h, Dispatch(h)), f.busy);
    }
  }

  /** In every Connected run, between two sent requests there is a rejected message or a
      recognised reply; the mask holds no bit outside 0xF80F; and the busy flag is set exactly
      while a request is unanswered. */
  lemma {:induction false} RunAlternates(f: Fw, inputs: seq<Input>)
    requires f.com == WbmConnected && Known(f.mask)
    requires forall i | i in inputs :: Acceptable(i)
    ensures var g := RunOf(f, inputs);
            && Alternates(TraceOf(f, inputs), f.busy)
            && Known(g.mask)
            && (g.com == WbmConnected ==> g.busy == HeldAfter(TraceOf(f, inputs), f.busy))
    decreases |inputs|
  {
    if inputs != [] {
      var g := Next(f, inputs[0]);
      StepAlternates(f, inputs[0]);
      if g.com == WbmConnected {
        RunAlternates(g, inputs[1..]);
        AlternatesConcat(Trace(f, inputs[0]), TraceOf(g, inputs[1..]), f.busy);
      } else {
        assert TraceOf(f, inputs) == Trace(f, inputs[0]);
      }
    }
  }
}
