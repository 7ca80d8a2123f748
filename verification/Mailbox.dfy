/** The receive path: the single-slot cache that the UART task overwrites (src/Uart1.c) and
    Read_Message, which needs two polls per message (src/WBM_Serial.c). */
module Mailbox {
  import opened Bytes
  import opened Codec

  const CACHE := 128

  /** cache and available: s_rx_cache, s_rx_available; cursor: s_rx_ptr as an offset into the
      cache, None for NULL; tail: rx_buf_tail; buff: buff_ser1. */
  datatype Port = Port(cache: seq<Byte>, available: nat, cursor: Option<nat>, tail: Byte,
                       buff: seq<Byte>, received: Byte, bootloaderMode: bool, ackReceived: bool)
  {
    predicate Valid() {
      && |cache| == CACHE && |buff| == SERIAL_BUFFER
      && available <= CACHE && tail <= CACHE
      && (tail != 0 ==> cursor == Some(0))
    }
  }

  function Truncated(data: seq<Byte>): (r: seq<Byte>)
    ensures |r| <= CACHE
  {
    if |data| > CACHE then data[..CACHE] else data
  }

  /** The UART_DATA branch of uart_event_task. */
  function Arrival(p: Port, data: seq<Byte>): (q: Port)
    requires p.Valid()
    ensures q.Valid()
  {
    p.(cache := Padded(Truncated(data), CACHE), available := |Truncated(data)|)
  }

  /** Read_Message up to the download decision: claim the slot, then compare with the tail. */
  function Claimed(p: Port): (q: Port)
    requires p.Valid()
    ensures |q.cache| == CACHE && |q.buff| == SERIAL_BUFFER && q.available == 0
  {
    if p.available == 0 then p else p.(cursor := Some(0), available := 0)
  }

  predicate Downloads(p: Port) {
    if p.available != 0 then p.available == p.tail else p.tail != 0
  }

  /** The message a download takes out of the cache. */
  function Message(p: Port): (m: seq<Byte>)
    requires p.Valid()
    ensures |m| < SERIAL_BUFFER
  {
    p.cache[..p.tail % SERIAL_BUFFER]
  }

  function Downloaded(p: Port): (q: Port)
    requires p.Valid() && Downloads(p)
    ensures q.Valid()
  {
    var m := Message(p);
    var b := Padded(m, SERIAL_BUFFER);
    p.(available := 0, cursor := Some(|m|), tail := 0, buff := b, received := |m|,
       bootloaderMode := p.bootloaderMode || HasText(b, BOOTLOADER_TEXT),
       ackReceived := p.ackReceived || (HasText(b, ACK_TEXT) && !HasText(b, BOOTLOADER_TEXT)))
  }

  /** The port after one call of Read_Message. */
  function AfterRead(p: Port): (q: Port)
    requires p.Valid()
    ensures q.Valid()
  {
    if Downloads(p) then Downloaded(p)
    else if p.available != 0 then Claimed(p).(tail := p.available)
    else p
  }

  /** What that call returns. */
  function ReadResult(p: Port): int
    requires p.Valid()
  {
    if Downloads(p) then Verdict(Padded(Message(p), SERIAL_BUFFER), |Message(p)|)
    else if p.available != 0 then RUN_DOWNLOAD
    else BUFFER_RX_EMPTY
  }

  class SerialPort {
    const cache: array<Byte>
    var available: nat
    var cursor: Option<nat>
    var tail: Byte
    const buff: array<Byte>
    var received: Byte
    var bootloaderMode: bool
    var ackReceived: bool

    function View(): Port
      reads this, cache, buff
    {
      Port(cache[..], available, cursor, tail, buff[..], received, bootloaderMode, ackReceived)
    }

    ghost predicate Valid()
      reads this, cache, buff
    {
      cache != buff && View().Valid()
    }

    constructor ()
      ensures Valid() && fresh(cache) && fresh(buff)
      ensures View() == Port(Zeros(CACHE), 0, None, 0, Zeros(SERIAL_BUFFER), 0, false, false)
    {
      cache := new Byte[CACHE](_ => 0);
      buff := new Byte[SERIAL_BUFFER](_ => 0);
      available, cursor, tail, received := 0, None, 0, 0;
      bootloaderMode, ackReceived := false, false;
      new;
      assert cache[..] == Zeros(CACHE) && buff[..] == Zeros(SERIAL_BUFFER);
    }

    /** uart_event_task handling one UART_DATA event. */
    method Receive(data: seq<Byte>)
      requires Valid()
      modifies this`available, cache
      ensures Valid() && View() == Arrival(old(View()), data)
    {
      var copyLen := |data|;
      if copyLen > cache.Length { copyLen := cache.Length; }
      available := copyLen;
      Clear(cache);
      Memcpy(cache, 0, data[..copyLen]);
      assert data[..copyLen] == Truncated(data);
      assert cache[..] == Padded(Truncated(data), CACHE);
    }

    /** Uart1_RxClaim through Serial_available. */
    method SerialAvailable() returns (n: nat)
      requires Valid()
      modifies this`available, this`cursor
      ensures n == old(available)
      ensures View() == Claimed(old(View()))
    {
      if available == 0 { return 0; }
      cursor := Some(0);
      n := available;
      available := 0;
    }

    method SerialRead() returns (data: Byte)
      requires cursor.Some? ==> cursor.value < cache.Length
      modifies this`cursor
      ensures old(cursor).Some? ==> data == cache[old(cursor).value] && cursor == Some(old(cursor).value + 1)
      ensures old(cursor).None? ==> data == 0 && cursor == None
    {
      data := 0;
      if cursor.Some? {
        data := cache[cursor.value];
        cursor := Some(cursor.value + 1);
      }
    }

    /** Moves the pending message from the cache to the front of a zeroed buff_ser1. */
    method Download() returns (len: nat)
      requires Valid() && tail != 0
      modifies this`cursor, this`tail, this`received, buff
      ensures len == |Message(old(View()))|
      ensures var p := old(View());
              View() == p.(cursor := Some(len), tail := 0, received := len,
                           buff := Padded(Message(p), SERIAL_BUFFER))
    {
      ghost var message := Message(View());
      len := tail % SERIAL_BUFFER;
      tail := 0;
      Clear(buff);
      for i := 0 to len
        invariant cursor == Some(i) && tail == 0 && cache[..len] == message
        invariant buff[..] == Padded(message[..i], SERIAL_BUFFER)
      {
        var data := SerialRead();
        buff[i] := data;
        assert message[..i + 1] == message[..i] + [data];
      }
      assert message[..len] == message;
      received := len;
      assert cache[..] == old(cache[..]);
    }

    /** The checks of Read_Message on the downloaded buffer. */
    method Validate(len: nat) returns (val: int)
      requires buff.Length == SERIAL_BUFFER && len < SERIAL_BUFFER
      modifies this`bootloaderMode, this`ackReceived
      ensures val == Verdict(buff[..], len)
      ensures bootloaderMode == (old(bootloaderMode) || HasText(buff[..], BOOTLOADER_TEXT))
      ensures ackReceived == (old(ackReceived)
                              || (HasText(buff[..], ACK_TEXT) && !HasText(buff[..], BOOTLOADER_TEXT)))
    {
      if !HasText(buff[..], BOOTLOADER_TEXT) {
        if !HasText(buff[..], ACK_TEXT) {
          if buff[START_MSG_0] != PROTO_START_MSG_0 || buff[START_MSG_1] != PROTO_START_MSG_1 {
            return ERROR_HEAD_MESSAGE;
          }
          if buff[POS_CRC_LO] as int + 2 != len || len <= START_DATA {
            return ERROR_LEN_MESSAGE;
          }
          var i := buff[POS_CRC_LO];
          var computed := CalcCksum16(buff, i);
          if buff[i + 1] as int * 256 + buff[i] != computed { return ERROR_CKSUM_16; }
        } else {
          ackReceived := true;
        }
      } else {
        bootloaderMode := true;
      }
      val := len;
    }

    method Read() returns (val: int)
      requires Valid()
      modifies this, buff
      ensures Valid()
      ensures View() == AfterRead(old(View())) && val == ReadResult(old(View()))
    {
      var byteAval := SerialAvailable();
      if byteAval != 0 {
        if byteAval != tail {
          tail := byteAval;
          return RUN_DOWNLOAD;
        }
      } else if tail == 0 {
        return BUFFER_RX_EMPTY;
      }
      var len := Download();
      val := Validate(len);
    }
  }

  // ---- Every interleaving of arrivals and polls ----

  datatype Event = Arrive(data: seq<Byte>) | Poll

  /** A port with its history: the arrivals so far and, for each download, the number of
      arrivals seen when it happened and the buffer it produced. */
  datatype History = History(port: Port, arrivals: seq<seq<Byte>>, downloads: seq<(nat, seq<Byte>)>)

  function Step(h: History, e: Event): (h': History)
    requires h.port.Valid()
    ensures h'.port.Valid()
  {
    match e
    case Arrive(data) => h.(port := Arrival(h.port, data), arrivals := h.arrivals + [data])
    case Poll =>
      var p := AfterRead(h.port);
      h.(port := p,
         downloads := if Downloads(h.port) then h.downloads + [(|h.arrivals|, p.buff)] else h.downloads)
  }

  function Run(h: History, events: seq<Event>): (h': History)
    requires h.port.Valid()
    ensures h'.port.Valid()
    decreases |events|
  {
    if events == [] then h else Run(Step(h, events[0]), events[1..])
  }

  function Boot(): (h: History)
    ensures h.port.Valid()
  {
    History(Port(Zeros(CACHE), 0, None, 0, Zeros(SERIAL_BUFFER), 0, false, false), [], [])
  }

  /** What a download may show of an arrival: its bytes, zero-filled; nothing of one that fills
      the cache, whose length is taken modulo the buffer size. */
  function Shown(data: seq<Byte>): (r: seq<Byte>)
    ensures |r| == SERIAL_BUFFER
  {
    if |data| >= SERIAL_BUFFER then Zeros(SERIAL_BUFFER) else Padded(data, SERIAL_BUFFER)
  }

  /** The last arrival is waiting in the slot, or claimed and waiting for its second poll, or
      already downloaded; the cache always holds exactly that arrival. */
  ghost predicate Tracks(h: History) {
    var p := h.port;
    var n := |h.arrivals|;
    && p.Valid()
    && (n == 0 ==> p.cache == Zeros(CACHE) && p.available == 0 && p.tail == 0)
    && (n > 0 ==>
      var last := Truncated(h.arrivals[n - 1]);
      && p.cache == Padded(last, CACHE)
      && (p.available != 0 ==> p.available == |last|)
      && (p.available == 0 && p.tail != 0 && last != [] ==> p.tail == |last|))
    && (h.downloads != [] ==>
      var latest := h.downloads[|h.downloads| - 1].0;
      latest <= n && (latest == n ==> p.available == 0 && p.tail == 0))
  }

  ghost predicate Faithful(arrivals: seq<seq<Byte>>, downloads: seq<(nat, seq<Byte>)>) {
    && (forall d | d in downloads :: 0 < d.0 <= |arrivals| && d.1 == Shown(arrivals[d.0 - 1]))
    && (forall i, j | 0 <= i < j < |downloads| :: downloads[i].0 < downloads[j].0)
  }

  /** The message of a port whose cache holds the latest arrival. */
  lemma MessageOfLatest(p: Port, data: seq<Byte>)
    requires p.Valid() && p.cache == Padded(Truncated(data), CACHE)
    requires data == [] || p.tail == |Truncated(data)|
    ensures Padded(Message(p), SERIAL_BUFFER) == Shown(data)
  {
    if |data| >= CACHE {
      assert Message(p) == [];
    } else if data == [] {
      assert Message(p) == Zeros(p.tail % SERIAL_BUFFER);
    } else {
      assert Message(p) == data;
    }
  }

  lemma DownloadShowsLatest(h: History)
    requires Tracks(h) && Downloads(h.port)
    ensures h.arrivals != []
    ensures Downloaded(h.port).buff == Shown(h.arrivals[|h.arrivals| - 1])
    ensures h.downloads != [] ==> h.downloads[|h.downloads| - 1].0 != |h.arrivals|
  {
    MessageOfLatest(h.port, h.arrivals[|h.arrivals| - 1]);
  }

  lemma StepTracks(h: History, e: Event)
    requires Tracks(h)
    ensures Tracks(Step(h, e))
  {
    match e
    case Arrive(data) => assert (h.arrivals + [data])[|h.arrivals|] == data;
    case Poll =>
  }

  lemma FaithfulToMore(arrivals: seq<seq<Byte>>, downloads: seq<(nat, seq<Byte>)>, data: seq<Byte>)
    requires Faithful(arrivals, downloads)
    ensures Faithful(arrivals + [data], downloads)
  {
  }

  lemma FaithfulDownload(arrivals: seq<seq<Byte>>, downloads: seq<(nat, seq<Byte>)>, buff: seq<Byte>)
    requires Faithful(arrivals, downloads)
    requires arrivals != [] && buff == Shown(arrivals[|arrivals| - 1])
    requires downloads != [] ==> downloads[|downloads| - 1].0 < |arrivals|
    ensures Faithful(arrivals, downloads + [(|arrivals|, buff)])
  {
    var n, more := |downloads|, downloads + [(|arrivals|, buff)];
    forall i, j | 0 <= i < j < n + 1
      ensures more[i].0 < more[j].0
    {
      assert more[i] == downloads[i];
      if j < n { assert more[j] == downloads[j]; } else { assert i == n - 1 || downloads[i].0 < downloads[n - 1].0; }
    }
  }

  /** What a poll adds to the history. */
  lemma PollShape(h: History)
    requires h.port.Valid()
    ensures Step(h, Poll).arrivals == h.arrivals
    ensures Step(h, Poll).downloads ==
            if Downloads(h.port) then h.downloads + [(|h.arrivals|, Downloaded(h.port).buff)] else h.downloads
  {
  }

  lemma PollFaithful(h: History)
    requires Tracks(h) && Faithful(h.arrivals, h.downloads) && Downloads(h.port)
    ensures Faithful(h.arrivals, h.downloads + [(|h.arrivals|, Downloaded(h.port).buff)])
  {
    DownloadShowsLatest(h);
    LatestIsEarlier(h);
    FaithfulDownload(h.arrivals, h.downloads, Downloaded(h.port).buff);
  }

  lemma LatestIsEarlier(h: History)
    requires Tracks(h) && Downloads(h.port)
    ensures h.downloads != [] ==> h.downloads[|h.downloads| - 1].0 < |h.arrivals|
  {
  }

  lemma StepFaithful(h: History, e: Event)
    requires Tracks(h) && Faithful(h.arrivals, h.downloads)
    ensures Faithful(Step(h, e).arrivals, Step(h, e).downloads)
  {
    match e
    case Arrive(data) => FaithfulToMore(h.arrivals, h.downloads, data);
    case Poll =>
      PollShape(h);
      if Downloads(h.port) { PollFaithful(h); }
  }

  /** Whatever the interleaving of arrivals and polls, each downloaded buffer is one whole
      arrival (never a mix), the most recent one at that moment, and no arrival is ever
      downloaded twice. */
  lemma {:induction false} DownloadsAreLatestArrivals(events: seq<Event>)
    ensures var h := Run(Boot(), events);
            Faithful(h.arrivals, h.downloads)
  {
    RunKeeps(Boot(), events);
  }

  lemma {:induction false} RunKeeps(h: History, events: seq<Event>)
    requires Tracks(h) && Faithful(h.arrivals, h.downloads)
    ensures Tracks(Run(h, events))
    ensures Faithful(Run(h, events).arrivals, Run(h, events).downloads)
    decreases |events|
  {
    if events != [] {
      StepTracks(h, events[0]);
      StepFaithful(h, events[0]);
      RunKeeps(Step(h, events[0]), events[1..]);
    }
  }

  /** After an arrival followed by silence, some poll within the next two downloads it, and the
      poll returns its verdict; 128 bytes or more are always rejected. */
  lemma {:induction false} DownloadedWithinTwoPolls(p: Port, data: seq<Byte>)
    requires p.Valid() && data != []
    ensures var p0 := Arrival(p, data);
            var (p1, v1) := (AfterRead(p0), ReadResult(p0));
            var (p2, v2) := (AfterRead(p1), ReadResult(p1));
            var first := Downloads(p0);
            var (q, v) := if first then (p1, v1) else (p2, v2);
            && (first || (v1 == RUN_DOWNLOAD && p1.buff == p.buff && Downloads(p1)))
            && q.buff == Shown(data) && q.available == 0 && q.tail == 0
            && (|data| < SERIAL_BUFFER ==> v == Verdict(Padded(data, SERIAL_BUFFER), |data|))
            && (|data| >= SERIAL_BUFFER ==> v == ERROR_HEAD_MESSAGE)
  {
    var p0 := Arrival(p, data);
    var d := if Downloads(p0) then p0 else AfterRead(p0);
    assert d.cache == Padded(Truncated(data), CACHE);
    if |data| < SERIAL_BUFFER {
      assert Message(d) == data;
    } else {
      assert Message(d) == [];
      ZerosAreRejected();
    }
  }

  lemma ZerosAreRejected()
    ensures Verdict(Padded([], SERIAL_BUFFER), 0) == ERROR_HEAD_MESSAGE
  {
    var b := Padded([], SERIAL_BUFFER);
    forall text: string, k: nat | text in {BOOTLOADER_TEXT, ACK_TEXT} && k + |text| <= |b|
      ensures !TextAt(b, text, k)
    {
      assert b[..k + |text|][0] == 0;
    }
  }

  /** A frame sent to a quiet or busy port comes out of the second poll at the latest, complete
      and accepted. */
  lemma {:induction false} FrameDelivered(p: Port, f: seq<Byte>)
    requires p.Valid() && IsFrame(f)
    ensures var p0 := Arrival(p, f);
            var (p1, v1) := (AfterRead(p0), ReadResult(p0));
            var (p2, v2) := (AfterRead(p1), ReadResult(p1));
            var (q, v) := if Downloads(p0) then (p1, v1) else (p2, v2);
            v == |f| && q.buff[..|f|] == f
  {
    DownloadedWithinTwoPolls(p, f);
    FrameAccepted(f);
  }
}
