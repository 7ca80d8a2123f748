/** Wi-Fi provisioning over BLE (src/ble.c): the SSID and the password arrive in chunks, a state
    machine says what is still missing, and a one-shot timer ends an idle attempt. */
module Provisioning {
  import opened Bytes
  import WifiQueue

  const MAX_SSID := WifiQueue.MAX_SSID_LENGTH
  const MAX_PASSWORD := WifiQueue.MAX_PASSWORD_LENGTH

  datatype State =
    | Idle | WaitSsid | WaitPassword | Ready | Applying | Done | Error | Booting | RuntimeReady

  /** ble_packet_t: None for a null pointer. */
  type Packet = Option<seq<Byte>>

  function Length(p: Packet): nat {
    if p.None? then 0 else |p.value|
  }

  /** ssidText and passwordText: the global buffers WIFI_SSID and WIFI_PASSWORD; armed: the timer
      runs; requests: what was handed to the Wi-Fi queue. */
  datatype Prov = Prov(ssid: Packet, password: Packet, ssidText: seq<Byte>, passwordText: seq<Byte>,
                       state: State, armed: bool, requests: seq<(seq<Byte>, seq<Byte>)>)
  {
    predicate Valid() {
      |ssidText| == MAX_SSID + 1 && |passwordText| == MAX_PASSWORD + 1
    }
  }

  // ---- Packets ----

  /** ble_packet_append; `memory`: the allocation succeeds. The first chunk is not checked against
      the limit. */
  function Appended(p: Packet, data: seq<Byte>, limit: nat, memory: bool): (bool, Packet) {
    if p.None? then (if memory then (true, Some(data)) else (false, None))
    else if |p.value| + |data| > limit || !memory then (false, None)
    else (true, Some(p.value + data))
  }

  function Shortened(s: seq<Byte>, n: nat): (r: seq<Byte>)
    ensures |r| <= n
  {
    if |s| > n then s[..n] else s
  }

  /** ble_packet_copy_to_string: as much as fits, and a NUL. */
  function CopiedTo(p: Packet, out: seq<Byte>): (r: seq<Byte>)
    requires |out| > 0
    ensures |r| == |out|
  {
    if p.None? then out[0 := 0] else Splice(out, 0, Shortened(p.value, |out| - 1) + [0])
  }

  /** The buffer holds the NUL-terminated string `s`. */
  predicate HoldsText(buffer: seq<Byte>, s: seq<Byte>) {
    |s| < |buffer| && buffer[..|s|] == s && buffer[|s|] == 0
  }

  /** A C string: the bytes before the first NUL. */
  function CString(buffer: seq<Byte>): seq<Byte> {
    if buffer == [] || buffer[0] == 0 then [] else [buffer[0]] + CString(buffer[1..])
  }

  // ---- The state machine as a value ----

  /** ble_set_prov_status: the status decides whether the timer runs. */
  function WithStatus(p: Prov, s: State): Prov {
    p.(state := s, armed := s in {WaitSsid, WaitPassword, Ready})
  }

  datatype Event =
    | WriteSsid(data: seq<Byte>, memory: bool)
    | WritePassword(data: seq<Byte>, memory: bool)
    | WriteConnect
    | WriteOther
    | PeerConnects
    | PeerDisconnects
    | TimerFires
    | Runtime(ready: bool)

  function Offered(p: Prov): Prov {
    p.(requests := p.requests + [(CString(p.ssidText), CString(p.passwordText))])
  }

  function AfterSsid(p: Prov, data: seq<Byte>, memory: bool): Prov
    requires p.Valid()
  {
    var (ok, packet) := Appended(p.ssid, data, MAX_SSID, memory);
    if !ok then WithStatus(p.(ssid := packet), Error)
    else
      var q := p.(ssid := packet, ssidText := CopiedTo(packet, p.ssidText));
      if Length(q.password) > 0 then Offered(WithStatus(q, Ready)) else WithStatus(q, WaitPassword)
  }

  function AfterPassword(p: Prov, data: seq<Byte>, memory: bool): Prov
    requires p.Valid()
  {
    var (ok, packet) := Appended(p.password, data, MAX_PASSWORD, memory);
    if !ok then WithStatus(p.(password := packet), Error)
    else
      var q := p.(password := packet, passwordText := CopiedTo(packet, p.passwordText));
      if Length(q.ssid) == 0 then WithStatus(q, WaitSsid) else Offered(WithStatus(q, Ready))
  }

  /** The queue takes the request unless the SSID is the empty string. */
  function AfterConnect(p: Prov): Prov {
    if Length(p.ssid) == 0 || Length(p.password) == 0 then WithStatus(p, Error)
    else
      var q := Offered(WithStatus(p, Applying));
      if CString(p.ssidText) == [] then WithStatus(q, Error)
      else WithStatus(q, Done).(ssid := None, password := None)
  }

  function Step(p: Prov, e: Event): Prov
    requires p.Valid()
  {
    match e
    case WriteSsid(data, memory) => AfterSsid(p.(armed := true), data, memory)
    case WritePassword(data, memory) => AfterPassword(p.(armed := true), data, memory)
    case WriteConnect => AfterConnect(p.(armed := true))
    case WriteOther => p.(armed := true)
    case PeerConnects => p.(armed := true)
    case PeerDisconnects => WithStatus(p.(ssid := None, password := None), WaitSsid)
    case TimerFires => if p.armed then WithStatus(p.(ssid := None, password := None), Error) else p
    case Runtime(ready) => WithStatus(p, if ready then RuntimeReady else Booting)
  }

  /** The events in order. */
  function Run(p: Prov, events: seq<Event>): (q: Prov)
    requires p.Valid()
    ensures q.Valid()
  {
    if events == [] then p else Step(Run(p, events[..|events| - 1]), events[|events| - 1])
  }

  // ---- What every event sequence keeps ----

  /** The status says what is there: READY both parts, WAIT_PASSWORD only the SSID, WAIT_SSID no SSID, DONE
      neither; while one of the first three shows, the timer runs. */
  predicate Inv(p: Prov) {
    && p.Valid()
    && match p.state
       case WaitSsid => Length(p.ssid) == 0 && p.armed
       case WaitPassword => Length(p.ssid) > 0 && Length(p.password) == 0 && p.armed
       case Ready => Length(p.ssid) > 0 && Length(p.password) > 0 && p.armed
       case Done => p.ssid.None? && p.password.None?
       case Applying => false
       case _ => true
  }

  /** An empty chunk, with a successful allocation, of the SSID while it has no bytes, or of the password
      while it has none and the SSID has some. */
  predicate Breaks(p: Prov, e: Event) {
    || (e == WriteSsid([], true) && Length(p.ssid) == 0)
    || (e == WritePassword([], true) && Length(p.password) == 0 && Length(p.ssid) > 0)
  }

  /** The first shows WAIT_PASSWORD or READY without an SSID, the second READY without a password; no
      other event makes the status wrong. */
  lemma {:induction false} StepKeepsExactly(p: Prov, e: Event)
    requires Inv(p)
    ensures Inv(Step(p, e)) <==> !Breaks(p, e)
  {
    match e
    case WriteSsid(data, memory) => AppendLength(p.ssid, data, MAX_SSID, memory);
    case WritePassword(data, memory) => AppendLength(p.password, data, MAX_PASSWORD, memory);
    case _ =>
  }

  lemma AppendLength(p: Packet, data: seq<Byte>, limit: nat, memory: bool)
    ensures var (ok, q) := Appended(p, data, limit, memory);
            && (ok ==> memory && Length(q) == Length(p) + |data|)
            && (!ok ==> q.None?)
            && (data == [] && Length(p) == 0 ==> ok == memory)
            && (Length(p) + |data| == 0 <==> Length(p) == 0 && data == [])
  {
  }

  /** The status is right after every event of the sequence, and at the start. */
  predicate AlwaysRight(p: Prov, events: seq<Event>)
    requires p.Valid()
  {
    Inv(Run(p, events)) && (events != [] ==> AlwaysRight(p, events[..|events| - 1]))
  }

  /** No event of the sequence is such a chunk where it falls. */
  predicate NoneBreaks(p: Prov, events: seq<Event>)
    requires p.Valid()
  {
    events != [] ==>
      var n := |events| - 1;
      !Breaks(Run(p, events[..n]), events[n]) && NoneBreaks(p, events[..n])
  }

  lemma AlwaysRightAtEnd(p: Prov, events: seq<Event>)
    requires p.Valid() && AlwaysRight(p, events)
    ensures Inv(Run(p, events))
  {
  }

  /** Over any events the status is right all along exactly if none of them is such a chunk. */
  lemma {:induction false} RunKeepsExactly(p: Prov, events: seq<Event>)
    requires Inv(p)
    ensures AlwaysRight(p, events) <==> NoneBreaks(p, events)
    decreases |events|
  {
    if events != [] {
      var n := |events| - 1;
      RunKeepsExactly(p, events[..n]);
      if AlwaysRight(p, events[..n]) {
        AlwaysRightAtEnd(p, events[..n]);
        StepKeepsExactly(Run(p, events[..n]), events[n]);
      }
    }
  }

  // ---- Reassembly ----

  predicate IsChunk(e: Event) {
    (e.WriteSsid? || e.WritePassword?) && e.memory && e.data != []
  }

  predicate Goes(e: Event, toSsid: bool) {
    if toSsid then e.WriteSsid? else e.WritePassword?
  }

  /** The SSID chunks, or the password chunks, of a sequence of writes, put together. */
  function Text(writes: seq<Event>, ofSsid: bool): seq<Byte>
    requires forall e | e in writes :: IsChunk(e)
  {
    if writes == [] then []
    else
      var n := |writes| - 1;
      Text(writes[..n], ofSsid) + if Goes(writes[n], ofSsid) then writes[n].data else []
  }

  /** A packet and its string after chunks that make up `text`: untouched if there was none. */
  predicate Assembled(p: Packet, buffer: seq<Byte>, text: seq<Byte>, before: seq<Byte>) {
    if text == [] then p.None? && buffer == before else p == Some(text) && HoldsText(buffer, text)
  }

  lemma CopyHolds(text: seq<Byte>, out: seq<Byte>)
    requires |text| < |out|
    ensures HoldsText(CopiedTo(Some(text), out), text)
  {
    var r := CopiedTo(Some(text), out);
    assert r[0..0 + |text + [0]|] == text + [0];
    assert r[..|text|] == (text + [0])[..|text|] && r[|text|] == (text + [0])[|text|];
  }

  lemma ChunkAssembles(p: Packet, buffer: seq<Byte>, text: seq<Byte>, before: seq<Byte>, data: seq<Byte>, limit: nat)
    requires Assembled(p, buffer, text, before) && data != []
    requires |text| + |data| <= limit && |buffer| == limit + 1
    ensures var (ok, packet) := Appended(p, data, limit, true);
            ok && packet.Some? && Assembled(packet, CopiedTo(packet, buffer), text + data, before)
  {
    assert [] + data == data;
    CopyHolds(text + data, buffer);
  }

  /** What the next chunk does to the texts: its own grows, the other stays. */
  lemma TextGrows(writes: seq<Event>, e: Event)
    requires forall x | x in writes :: IsChunk(x)
    requires IsChunk(e)
    ensures var all := writes + [e];
            && (forall x | x in all :: IsChunk(x))
            && Text(all, true) == (if e.WriteSsid? then Text(writes, true) + e.data else Text(writes, true))
            && Text(all, false) == (if e.WritePassword? then Text(writes, false) + e.data else Text(writes, false))
  {
    assert (writes + [e])[..|writes|] == writes;
  }

  /** Chunks of the two parts in any order, neither part longer than its limit: each packet and
      each global string is the concatenation of its chunks, and the state says what is missing. */
  lemma {:induction false} Reassembles(p: Prov, writes: seq<Event>)
    requires p.Valid() && p.ssid.None? && p.password.None?
    requires forall e | e in writes :: IsChunk(e)
    requires |Text(writes, true)| <= 32 && |Text(writes, false)| <= 64
    ensures var q, ssid, password := Run(p, writes), Text(writes, true), Text(writes, false);
            && Assembled(q.ssid, q.ssidText, ssid, p.ssidText)
            && Assembled(q.password, q.passwordText, password, p.passwordText)
            && (writes != [] ==>
                  q.state == (if ssid == [] then WaitSsid else if password == [] then WaitPassword else Ready))
  {
    if writes != [] {
      var n := |writes| - 1;
      var e, earlier := writes[n], writes[..n];
      assert writes == earlier + [e] && IsChunk(e);
      TextGrows(earlier, e);
      Reassembles(p, earlier);
      var q := Run(p, earlier);
      if e.WriteSsid? {
        ChunkAssembles(q.ssid, q.ssidText, Text(earlier, true), p.ssidText, e.data, MAX_SSID);
      } else {
        ChunkAssembles(q.password, q.passwordText, Text(earlier, false), p.passwordText, e.data, MAX_PASSWORD);
      }
    }
  }

  /** When the second part is complete the request offered to the queue is the two strings. */
  lemma ReadyOffersTexts(p: Prov, e: Event)
    requires p.Valid() && IsChunk(e) && Step(p, e).state == Ready
    ensures var q := Step(p, e);
            q.requests == p.requests + [(CString(q.ssidText), CString(q.passwordText))]
  {
  }

  lemma {:induction false} TextIsCString(buffer: seq<Byte>, s: seq<Byte>)
    requires HoldsText(buffer, s) && 0 !in s
    ensures CString(buffer) == s
    decreases |s|
  {
    if s != [] {
      assert buffer[0] == s[0];
      assert buffer[1..][..|s| - 1] == s[1..];
      TextIsCString(buffer[1..], s[1..]);
    }
  }

  /** From BLE chunks to the Wi-Fi queue: once both parts are there, the request last offered is
      accepted by the queue, whatever its consumer does meanwhile, with exactly the SSID and the
      password that were written. */
  lemma {:induction false} ChunksReachQueue(p: Prov, writes: seq<Event>, m: WifiQueue.Manager, first: nat, second: nat)
    requires p.Valid() && p.ssid.None? && p.password.None?
    requires forall e | e in writes :: IsChunk(e)
    requires 0 < |Text(writes, true)| <= 32 && 0 < |Text(writes, false)| <= 64
    requires 0 !in Text(writes, true) && 0 !in Text(writes, false)
    requires WifiQueue.Inv(m) && m.producer.Ready?
    ensures var q := Run(p, writes);
            && q.requests != []
            && var (ssid, password) := q.requests[|q.requests| - 1];
               var (ok, z) := WifiQueue.Enqueued(m, WifiQueue.Enqueue(ssid, password, true), first, second);
               && ok
               && z.accepted == m.accepted +
                    [WifiQueue.Request(Text(writes, true), Text(writes, false), true, m.counter + 1)]
  {
    CompleteOffersTexts(p, writes);
    AcceptedAsWritten(m, Text(writes, true), Text(writes, false), true, first, second);
  }

  lemma CompleteOffersTexts(p: Prov, writes: seq<Event>)
    requires p.Valid() && p.ssid.None? && p.password.None?
    requires forall e | e in writes :: IsChunk(e)
    requires 0 < |Text(writes, true)| <= 32 && 0 < |Text(writes, false)| <= 64
    requires 0 !in Text(writes, true) && 0 !in Text(writes, false)
    ensures var q := Run(p, writes);
            q.requests != [] && q.requests[|q.requests| - 1] == (Text(writes, true), Text(writes, false))
  {
    var q, n := Run(p, writes), |writes| - 1;
    Reassembles(p, writes);
    assert IsChunk(writes[n]);
    ReadyOffersTexts(Run(p, writes[..n]), writes[n]);
    TextIsCString(q.ssidText, Text(writes, true));
    TextIsCString(q.passwordText, Text(writes, false));
  }

  lemma AcceptedAsWritten(m: WifiQueue.Manager, ssid: seq<Byte>, password: seq<Byte>, persist: bool,
                          first: nat, second: nat)
    requires WifiQueue.Inv(m) && m.producer.Ready?
    requires 0 < |ssid| <= MAX_SSID && |password| <= MAX_PASSWORD
    ensures var (ok, z) := WifiQueue.Enqueued(m, WifiQueue.Enqueue(ssid, password, persist), first, second);
            ok && z.accepted == m.accepted + [WifiQueue.Request(ssid, password, persist, m.counter + 1)]
  {
    var e := WifiQueue.Enqueue(ssid, password, persist);
    MadeAsWritten(m, ssid, password, persist);
    WifiQueue.EnqueueNeverFails(m, e, first, second);
    assert WifiQueue.Made(m, e) == WifiQueue.Request(ssid, password, persist, m.counter + 1);
  }

  lemma MadeAsWritten(m: WifiQueue.Manager, ssid: seq<Byte>, password: seq<Byte>, persist: bool)
    requires |ssid| <= MAX_SSID && |password| <= MAX_PASSWORD
    ensures WifiQueue.Made(m, WifiQueue.Enqueue(ssid, password, persist))
            == WifiQueue.Request(ssid, password, persist, m.counter + 1)
  {
  }

  // ---- The connect command ----

  /** The request last offered. */
  function LastOffer(p: Prov): (seq<Byte>, seq<Byte>)
    requires p.requests != []
  {
    p.requests[|p.requests| - 1]
  }

  /** With both parts there it offers exactly the two strings, and ends in DONE with both parts gone if the
      SSID string is not empty, in ERROR with both kept if it is; with a part missing it offers
      nothing and ends in ERROR. */
  lemma {:induction false} ConnectOffersExactly(p: Prov)
    requires p.Valid()
    ensures var q, both := Step(p, WriteConnect), Length(p.ssid) > 0 && Length(p.password) > 0;
            && q.ssidText == p.ssidText && q.passwordText == p.passwordText
            && q.requests == p.requests + (if both then [(CString(p.ssidText), CString(p.passwordText))] else [])
            && (q.state == Done <==> both && CString(p.ssidText) != [])
            && (q.state != Done ==> q.state == Error && q.ssid == p.ssid && q.password == p.password)
            && (q.state == Done ==> q.ssid == None && q.password == None)
            && !q.armed
  {
  }

  /** DONE is shown exactly if the queue accepts the request, whatever its consumer does meanwhile; what it
      accepts are the two strings. */
  lemma {:induction false} DoneIffAccepted(p: Prov, m: WifiQueue.Manager, first: nat, second: nat)
    requires Terminated(p) && Length(p.ssid) > 0 && Length(p.password) > 0
    requires WifiQueue.Inv(m) && m.producer.Ready?
    ensures var q := Step(p, WriteConnect);
            && q.requests != []
            && var (ssid, password) := LastOffer(q);
               var (ok, z) := WifiQueue.Enqueued(m, WifiQueue.Enqueue(ssid, password, true), first, second);
               && (q.state == Done <==> ok)
               && z.accepted == m.accepted + if ok then [WifiQueue.Request(CString(p.ssidText), CString(p.passwordText),
                                                                           true, m.counter + 1)] else []
  {
    ConnectOffersExactly(p);
    var ssid, password := CString(p.ssidText), CString(p.passwordText);
    CStringFits(p.ssidText);
    CStringFits(p.passwordText);
    if ssid == [] {
      EmptyIsRefused(m, password, first, second);
    } else {
      AcceptedAsWritten(m, ssid, password, true, first, second);
    }
  }

  /** Chunks of both parts, then the connect command: DONE, and the queue has accepted exactly the SSID and the
      password that were written. */
  lemma {:induction false} ConnectDeliversChunks(p: Prov, writes: seq<Event>, m: WifiQueue.Manager,
                                                 first: nat, second: nat)
    requires p.Valid() && p.ssid.None? && p.password.None?
    requires forall e | e in writes :: IsChunk(e)
    requires 0 < |Text(writes, true)| <= 32 && 0 < |Text(writes, false)| <= 64
    requires 0 !in Text(writes, true) && 0 !in Text(writes, false)
    requires WifiQueue.Inv(m) && m.producer.Ready?
    ensures var q := Step(Run(p, writes), WriteConnect);
            && q.state == Done && q.requests != []
            && var (ssid, password) := LastOffer(q);
               var (ok, z) := WifiQueue.Enqueued(m, WifiQueue.Enqueue(ssid, password, true), first, second);
               && ok
               && z.accepted == m.accepted +
                    [WifiQueue.Request(Text(writes, true), Text(writes, false), true, m.counter + 1)]
  {
    var q := Run(p, writes);
    Reassembles(p, writes);
    TextIsCString(q.ssidText, Text(writes, true));
    TextIsCString(q.passwordText, Text(writes, false));
    ConnectOffersExactly(q);
    AcceptedAsWritten(m, Text(writes, true), Text(writes, false), true, first, second);
  }

  // ---- The end of an attempt ----

  /** A disconnect or the timer forgets both parts and offers nothing. */
  lemma AttemptEnds(p: Prov, e: Event)
    requires p.Valid() && (e.PeerDisconnects? || (e.TimerFires? && p.armed))
    ensures var q := Step(p, e);
            && q.Valid() && q.ssid == None && q.password == None && q.requests == p.requests
            && q.state == (if e.PeerDisconnects? then WaitSsid else Error)
  {
  }

  /** So whatever was written before, the request of the next attempt has the chunks of that attempt only. */
  lemma {:induction false} NothingIsLeftOver(p: Prov, e: Event, writes: seq<Event>)
    requires p.Valid() && (e.PeerDisconnects? || (e.TimerFires? && p.armed))
    requires forall x | x in writes :: IsChunk(x)
    requires 0 < |Text(writes, true)| <= 32 && 0 < |Text(writes, false)| <= 64
    requires 0 !in Text(writes, true) && 0 !in Text(writes, false)
    ensures var q := Run(Step(p, e), writes);
            q.requests != [] && LastOffer(q) == (Text(writes, true), Text(writes, false))
  {
    AttemptEnds(p, e);
    CompleteOffersTexts(Step(p, e), writes);
  }

  /** The connect command, the runtime flag and the timer itself end the wait: the timer then does nothing. */
  lemma TimerIsOver(p: Prov, e: Event)
    requires p.Valid() && (e.WriteConnect? || e.Runtime? || e.TimerFires?)
    ensures var q := Step(p, e);
            Step(q, TimerFires) == q && (e.Runtime? ==> q.state == if e.ready then RuntimeReady else Booting)
  {
  }

  /** A connection, or a write to anything else, starts the timer in every state: if nothing more comes, it
      forgets both parts. */
  lemma ActivityStartsTimer(p: Prov, e: Event)
    requires p.Valid() && (e.PeerConnects? || e.WriteOther?)
    ensures var q := Step(p, e);
            && q.Valid() && q.ssid == p.ssid && q.password == p.password && q.state == p.state
            && var z := Step(q, TimerFires); z.ssid == None && z.password == None && z.state == Error && !z.armed
  {
  }

  lemma EmptyIsRefused(m: WifiQueue.Manager, password: seq<Byte>, first: nat, second: nat)
    requires m.producer.Ready?
    ensures WifiQueue.Enqueued(m, WifiQueue.Enqueue([], password, true), first, second) == (false, m)
  {
  }

  /** The global strings are NUL-terminated. */
  predicate Terminated(p: Prov) {
    p.Valid() && 0 in p.ssidText && 0 in p.passwordText
  }

  lemma CopyTerminates(packet: Packet, out: seq<Byte>)
    requires |out| > 0
    ensures 0 in CopiedTo(packet, out)
  {
    var r := CopiedTo(packet, out);
    if packet.None? {
      assert r[0] == 0;
    } else {
      var s := Shortened(packet.value, |out| - 1) + [0];
      assert r[0..0 + |s|] == s && r[|s| - 1] == s[|s| - 1] == 0;
    }
  }

  lemma StepTerminates(p: Prov, e: Event)
    requires Terminated(p)
    ensures Terminated(Step(p, e))
  {
    match e
    case WriteSsid(data, memory) => CopyTerminates(Appended(p.ssid, data, MAX_SSID, memory).1, p.ssidText);
    case WritePassword(data, memory) =>
      CopyTerminates(Appended(p.password, data, MAX_PASSWORD, memory).1, p.passwordText);
    case _ =>
  }

  /** So they fit the queue's request. */
  lemma {:induction false} CStringFits(buffer: seq<Byte>)
    requires 0 in buffer
    ensures |CString(buffer)| < |buffer|
  {
    if buffer[0] != 0 { CStringFits(buffer[1..]); }
  }

  /** A chunk after the first that would pass the limit empties its packet and shows ERROR, and
      leaves the global string as it was. */
  lemma OverflowEmpties(p: Prov, data: seq<Byte>, memory: bool, ofSsid: bool)
    requires p.Valid()
    requires var packet := if ofSsid then p.ssid else p.password;
             packet.Some? && |packet.value| + |data| > (if ofSsid then 32 else 64)
    ensures var q := Step(p, if ofSsid then WriteSsid(data, memory) else WritePassword(data, memory));
            && q.state == Error && !q.armed && q.ssidText == p.ssidText && q.passwordText == p.passwordText
            && q.requests == p.requests
            && (if ofSsid then q.ssid.None? && q.password == p.password else q.password.None? && q.ssid == p.ssid)
  {
  }

  /** The first chunk is not checked: a longer one is kept whole, and its string is cut. */
  lemma LongFirstChunkIsCut(p: Prov, data: seq<Byte>)
    requires p.Valid() && p.ssid.None? && |data| > 32
    ensures var q := Step(p, WriteSsid(data, true));
            q.ssid == Some(data) && HoldsText(q.ssidText, data[..32])
  {
    var q := Step(p, WriteSsid(data, true));
    CopyHolds(data[..MAX_SSID], p.ssidText);
    assert CopiedTo(Some(data[..MAX_SSID]), p.ssidText) == CopiedTo(Some(data), p.ssidText);
  }

  // ---- The handlers on their globals ----

  class BleProvisioning {
    var ssid: Packet
    var password: Packet
    const ssidText: array<Byte>
    const passwordText: array<Byte>
    var state: State
    var armed: bool
    var requests: seq<(seq<Byte>, seq<Byte>)>

    function View(): Prov
      reads this, ssidText, passwordText
    {
      Prov(ssid, password, ssidText[..], passwordText[..], state, armed, requests)
    }

    ghost predicate Valid()
      reads this, ssidText, passwordText
    {
      ssidText != passwordText && View().Valid()
    }

    constructor ()
      ensures Valid() && Inv(View()) && state == Idle
    {
      ssid, password, state, armed, requests := None, None, Idle, false, [];
      ssidText := new Byte[MAX_SSID + 1](_ => 0);
      passwordText := new Byte[MAX_PASSWORD + 1](_ => 0);
    }

    method SetStatus(s: State)
      requires Valid()
      modifies this`state, this`armed
      ensures Valid() && View() == WithStatus(old(View()), s)
    {
      state := s;
      if state == WaitSsid || state == WaitPassword || state == Ready { armed := true; } else { armed := false; }
    }

    method CopyToString(packet: Packet, out: array<Byte>)
      requires out.Length > 0
      modifies out
      ensures out[..] == CopiedTo(packet, old(out[..]))
    {
      if packet.None? {
        out[0] := 0;
        return;
      }
      var n := |packet.value|;
      if n >= out.Length { n := out.Length - 1; }
      Memcpy(out, 0, packet.value[..n]);
      out[n] := 0;
      assert packet.value[..n] == Shortened(packet.value, out.Length - 1);
      assert out[..n + 1] == packet.value[..n] + [0];
    }

    /** Hands the two global strings to the Wi-Fi queue, which refuses an empty SSID. */
    method Offer() returns (queued: bool)
      requires Valid()
      modifies this`requests
      ensures Valid() && View() == Offered(old(View()))
      ensures queued <==> CString(ssidText[..]) != []
    {
      requests := requests + [(CString(ssidText[..]), CString(passwordText[..]))];
      queued := ssidText[0] != 0;
    }

    method WriteSsidChunk(data: seq<Byte>, memory: bool)
      requires Valid()
      modifies this, ssidText
      ensures Valid() && View() == Step(old(View()), WriteSsid(data, memory))
    {
      armed := true;
      var (ok, packet) := Appended(ssid, data, MAX_SSID, memory);
      ssid := packet;
      if !ok {
        SetStatus(Error);
        return;
      }
      CopyToString(ssid, ssidText);
      if Length(password) > 0 {
        SetStatus(Ready);
        var _ := Offer();
      } else {
        SetStatus(WaitPassword);
      }
    }

    method WritePasswordChunk(data: seq<Byte>, memory: bool)
      requires Valid()
      modifies this, passwordText
      ensures Valid() && View() == Step(old(View()), WritePassword(data, memory))
    {
      armed := true;
      var (ok, packet) := Appended(password, data, MAX_PASSWORD, memory);
      password := packet;
      if !ok {
        SetStatus(Error);
        return;
      }
      CopyToString(password, passwordText);
      if Length(ssid) == 0 {
        SetStatus(WaitSsid);
      } else {
        SetStatus(Ready);
        var _ := Offer();
      }
    }

    method ConnectToCloud()
      requires Valid()
      modifies this
      ensures Valid() && View() == Step(old(View()), WriteConnect)
    {
      armed := true;
      if Length(ssid) == 0 || Length(password) == 0 {
        SetStatus(Error);
      } else {
        SetStatus(Applying);
        var queued := Offer();
        if queued {
          SetStatus(Done);
          ssid := None;
          password := None;
        } else {
          SetStatus(Error);
        }
      }
    }

    method Disconnect()
      requires Valid()
      modifies this
      ensures Valid() && View() == Step(old(View()), PeerDisconnects)
    {
      armed := false;
      ssid := None;
      password := None;
      SetStatus(WaitSsid);
    }

    /** The one-shot timer runs out. */
    method Timeout()
      requires Valid() && armed
      modifies this
      ensures Valid() && View() == Step(old(View()), TimerFires)
    {
      ssid := None;
      password := None;
      SetStatus(Error);
    }

    method SetRuntimeReady(ready: bool)
      requires Valid()
      modifies this`state, this`armed
      ensures Valid() && View() == Step(old(View()), Runtime(ready))
    {
      if ready { SetStatus(RuntimeReady); } else { SetStatus(Booting); }
    }
  }
}
