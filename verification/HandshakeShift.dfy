/** What a poll that is left unanswered does to the load: every state then takes the answer to an
    earlier request, without noticing. */
module HandshakeShift {
  import opened Bytes
  import opened EepromLayout
  import opened Codec
  import opened Requests
  import opened Firmware
  import opened Handshake
  import opened HandshakeTrace
  import HL = HandshakeLoad
  import UM = UnitModel

  /** Neither the unit nor an app changes anything; requests and replies may be lost. */
  predicate Still(events: seq<Event>) {
    forall e | e in events :: !e.UnitChange? && !e.AppImage?
  }

  /** And nothing is lost. */
  predicate Faithful(events: seq<Event>) {
    forall e | e in events :: e.UnitServe? || e.Call?
  }

  lemma {:induction false} FaithfulLosesNothing(events: seq<Event>)
    requires Faithful(events)
    ensures Still(events) && LostIn(events) == 0
  {
    if events != [] {
      assert events[0].UnitServe? || events[0].Call?;
      FaithfulLosesNothing(events[1..]);
    }
  }

  /** The requests in the order the unit gets them: `k` polls, then the load sequence. */
  function Asked(k: nat): (q: seq<Request>)
    ensures |q| == k + 7
  {
    Polls(k) + LOAD_SEQUENCE
  }

  lemma AskedAt(k: nat, i: nat)
    requires i < k + 7
    ensures Asked(k)[i] == if i < k then Poll else LOAD_SEQUENCE[i - k]
  {
  }

  // ---- The payloads copied, one after the other ----

  /** The n-th payload is copied to the start of the n-th section of the load order. */
  predicate Fit(taken: seq<seq<Byte>>) {
    |taken| <= 6 &&
    forall i | 0 <= i < |taken| ::
      Start(LOAD_ORDER[i]) + |taken[i]| <= EEPROM_SIZE && START_DATA_EEPROM + |taken[i]| <= SERIAL_BUFFER
  }

  function Copied(was: Image, taken: seq<seq<Byte>>): Image
    requires Fit(taken)
  {
    if taken == [] then was
    else
      var n := |taken| - 1;
      Splice(Copied(was, taken[..n]), Start(LOAD_ORDER[n]), taken[n])
  }

  /** taken: the payloads copied so far; from: which request of the sequence each message taken was the
      answer to; waiting: the requests unanswered, those whose reply is under way first; lost: how many
      requests and replies were lost. */
  datatype Trail = Trail(taken: seq<seq<Byte>>, from: seq<nat>, waiting: seq<nat>, lost: nat)

  /** The payloads are the unit's sections where a section was asked for. */
  predicate AreAnswers(taken: seq<seq<Byte>>, from: seq<nat>, unit: Image, k: nat) {
    && |taken| <= |from| && |taken| <= 6 && (forall i | 0 <= i < |from| :: from[i] < k + 7)
    && forall i | 0 <= i < |taken| && Asked(k)[from[i]].Read? ::
         taken[i] == Content(unit, Asked(k)[from[i]].section)
  }

  /** How many replies have been taken, and how many requests sent since the oldest unanswered. */
  function TakenAt(c: ConnectState): nat {
    if Rank(c) == 0 then 0 else Rank(c) - 1
  }

  // ---- Strictly increasing indices ----

  predicate Ascending(a: seq<nat>, n: nat) {
    && (forall i | 0 <= i < |a| :: a[i] < n)
    && forall i, j | 0 <= i < j < |a| :: a[i] < a[j]
  }

  lemma AscendingMore(a: seq<nat>, n: nat)
    requires Ascending(a, n)
    ensures Ascending(a + [n], n + 1)
  {
  }

  lemma AscendingWithout(a: seq<nat>, b: seq<nat>, c: seq<nat>, n: nat)
    requires Ascending(a + b + c, n)
    ensures Ascending(a + c, n)
  {
    var all, d, m := a + b + c, a + c, |a|;
    forall i | 0 <= i < |d|
      ensures d[i] == all[if i < m then i else i + |b|]
    {
    }
  }

  /** As many as there can be: then all of them. */
  lemma {:induction false} AscendingFull(a: seq<nat>, n: nat)
    requires Ascending(a, n) && |a| == n
    ensures forall i | 0 <= i < n :: a[i] == i
  {
    if n > 0 {
      AscendingBound(a, n, n - 1);
      assert a == a[..n - 1] + [a[n - 1]];
      AscendingFull(a[..n - 1], n - 1);
    }
  }

  lemma {:induction false} AscendingBound(a: seq<nat>, n: nat, i: nat)
    requires Ascending(a, n) && i < |a|
    ensures a[i] >= i
  {
    if i > 0 { AscendingBound(a, n, i - 1); }
  }

  // ---- The requests unanswered ----

  predicate Matches(w: seq<nat>, replies: seq<UM.Reply>, pending: seq<Request>, unit: Image, k: nat) {
    && |w| == |replies| + |pending|
    && (forall i | 0 <= i < |w| :: w[i] < k + 7)
    && (forall i | 0 <= i < |replies| :: replies[i] == UM.Answer(unit, Asked(k)[w[i]]))
    && (forall i | 0 <= i < |pending| :: pending[i] == Asked(k)[w[|replies| + i]])
  }

  lemma MatchesSent(w: seq<nat>, replies: seq<UM.Reply>, pending: seq<Request>, unit: Image, k: nat, n: nat)
    requires Matches(w, replies, pending, unit, k) && n < k + 7
    ensures Matches(w + [n], replies, pending + [Asked(k)[n]], unit, k)
  {
  }

  lemma MatchesServed(w: seq<nat>, replies: seq<UM.Reply>, pending: seq<Request>, unit: Image, k: nat)
    requires Matches(w, replies, pending, unit, k) && pending != []
    ensures Matches(w, replies + [UM.Answer(unit, pending[0])], pending[1..], unit, k)
  {
    assert pending[0] == Asked(k)[w[|replies|]];
  }

  lemma MatchesNext(w: seq<nat>, replies: seq<UM.Reply>, pending: seq<Request>, unit: Image, k: nat)
    requires Matches(w, replies, pending, unit, k) && replies != []
    ensures w != [] && Matches(w[1..], replies[1..], pending, unit, k)
    ensures w[0] < k + 7 && replies[0] == UM.Answer(unit, Asked(k)[w[0]])
  {
    assert |w[1..]| == |replies[1..]| + |pending|;
  }

  /** The index list without the oldest request not served. */
  function Unserved(w: seq<nat>, served: nat): seq<nat>
    requires served < |w|
  {
    w[..served] + w[served + 1..]
  }

  lemma MatchesLost(w: seq<nat>, replies: seq<UM.Reply>, pending: seq<Request>, unit: Image, k: nat)
    requires Matches(w, replies, pending, unit, k) && pending != []
    ensures |replies| < |w| && Matches(Unserved(w, |replies|), replies, pending[1..], unit, k)
  {
    var u := Unserved(w, |replies|);
    assert forall i | 0 <= i < |replies| :: u[i] == w[i];
    assert forall i | |replies| <= i < |u| :: u[i] == w[i + 1];
  }

  /** Every request sent is answered and taken, or waiting, or lost, the first two in the order sent; no
      state has taken the answer to a request sent later. */
  predicate Accounted(c: ConnectState, from: seq<nat>, waiting: seq<nat>, lost: nat, k: nat) {
    var n := k + HandshakeTrace.Step(c);
    && Ascending(from + waiting, n) && |from| == TakenAt(c)
    && |from| + |waiting| + lost == n
    && forall i | 0 <= i < |from| :: from[i] <= k + i
  }

  predicate InSequence(h: HSys, k: nat, t: Trail) {
    && Matches(t.waiting, h.replies, h.pending, h.unit, k)
    && Accounted(h.fw.conn, t.from, t.waiting, t.lost, k)
  }

  predicate Shifted(h: HSys, k: nat, was: Image, t: Trail) {
    && InLoad(h.fw.conn) && InSequence(h, k, t)
    && |t.taken| == (if TakenAt(h.fw.conn) > 6 then 6 else TakenAt(h.fw.conn))
    && Fit(t.taken) && AreAnswers(t.taken, t.from, h.unit, k) && h.fw.mirror == Copied(was, t.taken)
  }

  /** The request a state sends when it moves on is the next of the sequence. */
  lemma FollowingIsNext(c: ConnectState, k: nat)
    requires c == LinkConnected || Loads(c)
    ensures var n := HandshakeTrace.Step(c);
            && n < 7 && Following(c).0 == Asked(k)[k + n] && HandshakeTrace.Step(Following(c).1) == n + 1
            && InLoad(Following(c).1)
            && TakenAt(Following(c).1) == (if c == LinkConnected then 0 else TakenAt(c) + 1) <= 6
            && (Loads(c) ==> TakenAt(c) + 1 == n)
  {
    LoadNext(c);
  }

  // ---- The steps of unit and line ----

  lemma ServeShifts(h: HSys, k: nat, was: Image, t: Trail)
    requires Shifted(h, k, was, t) && Enabled(h, UnitServe)
    ensures Shifted(Handshake.Step(h, UnitServe), k, was, t)
  {
    MatchesServed(t.waiting, h.replies, h.pending, h.unit, k);
  }

  lemma RequestLostShifts(h: HSys, k: nat, was: Image, t: Trail) returns (u: Trail)
    requires Shifted(h, k, was, t) && Enabled(h, RequestLost)
    ensures Shifted(Handshake.Step(h, RequestLost), k, was, u) && u.lost == t.lost + 1
  {
    var n := |h.replies|;
    MatchesLost(t.waiting, h.replies, h.pending, h.unit, k);
    u := t.(waiting := Unserved(t.waiting, n), lost := t.lost + 1);
    LostAccounted(h.fw.conn, t.from, t.waiting, n, t.lost, k);
  }

  lemma ReplyLostShifts(h: HSys, k: nat, was: Image, t: Trail) returns (u: Trail)
    requires Shifted(h, k, was, t) && Enabled(h, ReplyLost)
    ensures Shifted(Handshake.Step(h, ReplyLost), k, was, u) && u.lost == t.lost + 1
  {
    MatchesNext(t.waiting, h.replies, h.pending, h.unit, k);
    u := t.(waiting := t.waiting[1..], lost := t.lost + 1);
    assert Unserved(t.waiting, 0) == t.waiting[1..];
    LostAccounted(h.fw.conn, t.from, t.waiting, 0, t.lost, k);
  }

  lemma LostAccounted(c: ConnectState, from: seq<nat>, waiting: seq<nat>, i: nat, lost: nat, k: nat)
    requires Accounted(c, from, waiting, lost, k) && i < |waiting|
    ensures Accounted(c, from, Unserved(waiting, i), lost + 1, k)
  {
    var a, b, d := from + waiting[..i], [waiting[i]], waiting[i + 1..];
    assert from + waiting == a + b + d;
    AscendingWithout(a, b, d, k + HandshakeTrace.Step(c));
    assert from + Unserved(waiting, i) == a + d;
  }

  // ---- The firmware's steps ----

  lemma FirstAskShifts(h: HSys, e: Event, k: nat, was: Image, t: Trail) returns (u: Trail)
    requires Shifted(h, k, was, t) && Enabled(h, e) && e.Call? && h.fw.conn == LinkConnected
    ensures Shifted(Handshake.Step(h, e), k, was, u) && u.lost == t.lost
  {
    FollowingIsNext(h.fw.conn, k);
    u := t.(waiting := t.waiting + [k]);
    MatchesSent(t.waiting, h.replies, h.pending, h.unit, k, k);
    AscendingMore(t.from + t.waiting, k);
    assert t.from + u.waiting == t.from + t.waiting + [k];
    assert Handshake.Step(h, e) ==
           h.(fw := Ask(h.fw.(foundLink := true), e.visit.start), rx := e.rx, pending := h.pending + [Read(Info)]);
  }

  lemma AppendCopied(was: Image, taken: seq<seq<Byte>>, p: seq<Byte>)
    requires Fit(taken) && |taken| < 6 && Start(LOAD_ORDER[|taken|]) + |p| <= EEPROM_SIZE
    requires START_DATA_EEPROM + |p| <= SERIAL_BUFFER
    ensures Fit(taken + [p]) && Copied(was, taken + [p]) == Splice(Copied(was, taken), Start(LOAD_ORDER[|taken|]), p)
  {
    assert (taken + [p])[..|taken|] == taken;
  }

  lemma PayloadFits(c: ConnectState, rx: seq<Byte>)
    requires Loads(c) && |rx| == SERIAL_BUFFER && LoadInBounds(c, rx)
    ensures 0 <= TakenAt(c) < 6 && Target(c) == Start(LOAD_ORDER[TakenAt(c)])
    ensures START_DATA_EEPROM + rx[ADDR_NUM_BYTE_EEP] as int <= SERIAL_BUFFER
    ensures Start(LOAD_ORDER[TakenAt(c)]) + |Payload(rx)| <= EEPROM_SIZE
    ensures START_DATA_EEPROM + |Payload(rx)| <= SERIAL_BUFFER
  {
    LoadTarget(c);
  }

  lemma PayloadAnswers(rx: seq<Byte>, val: int, unit: Image, q: Request)
    requires q.Poll? || q.Read?
    requires UM.Carries(val, rx, UM.Answer(unit, q))
    requires START_DATA_EEPROM + rx[ADDR_NUM_BYTE_EEP] as int <= SERIAL_BUFFER
    ensures q.Read? ==> Payload(rx) == Content(unit, q.section)
  {
  }

  lemma MoreAnswers(taken: seq<seq<Byte>>, from: seq<nat>, unit: Image, k: nat, p: seq<Byte>, i: nat)
    requires AreAnswers(taken, from, unit, k) && |taken| == |from| < 6 && i < k + 7
    requires Asked(k)[i].Read? ==> p == Content(unit, Asked(k)[i].section)
    ensures AreAnswers(taken + [p], from + [i], unit, k)
  {
  }

  /** The oldest reply is taken: the request it answers was the first one waiting. */
  lemma NextAccounted(c: ConnectState, d: ConnectState, from: seq<nat>, waiting: seq<nat>, lost: nat, k: nat)
    requires Accounted(c, from, waiting, lost, k) && waiting != [] && TakenAt(d) == TakenAt(c) + 1
    requires HandshakeTrace.Step(c) <= TakenAt(c) + 1 && HandshakeTrace.Step(d) == HandshakeTrace.Step(c)
    ensures Accounted(d, from + [waiting[0]], waiting[1..], lost, k)
  {
    assert from + waiting == from + [waiting[0]] + waiting[1..];
    assert (from + waiting)[|from|] == waiting[0];
  }

  lemma TakenAccounted(c: ConnectState, d: ConnectState, from: seq<nat>, waiting: seq<nat>, lost: nat, k: nat)
    requires Accounted(c, from, waiting, lost, k) && waiting != [] && TakenAt(d) == TakenAt(c) + 1
    requires HandshakeTrace.Step(c) == TakenAt(c) + 1 && HandshakeTrace.Step(d) == HandshakeTrace.Step(c) + 1
    ensures Accounted(d, from + [waiting[0]], waiting[1..] + [k + HandshakeTrace.Step(c)], lost, k)
  {
    var n := k + HandshakeTrace.Step(c);
    AscendingMore(from + waiting, n);
    assert from + waiting + [n] == from + [waiting[0]] + (waiting[1..] + [n]);
    assert (from + waiting)[|from|] == waiting[0];
  }

  lemma TakeCopies(h: HSys, e: Event, was: Image, taken: seq<seq<Byte>>)
    requires Enabled(h, e) && Takes(h, e) && Loads(h.fw.conn)
    requires Fit(taken) && |taken| == TakenAt(h.fw.conn) && h.fw.mirror == Copied(was, taken)
    ensures var more := taken + [Payload(e.rx)];
            |taken| < 6 && Fit(more) && Handshake.Step(h, e).fw.mirror == Copied(was, more)
  {
    PayloadFits(h.fw.conn, e.rx);
    TakesShape(h, e);
    AppendCopied(was, taken, Payload(e.rx));
  }

  lemma TakeMatches(w: seq<nat>, replies: seq<UM.Reply>, pending: seq<Request>, unit: Image, k: nat, n: nat)
    requires Matches(w, replies, pending, unit, k) && replies != [] && n < k + 7
    ensures w != [] && Matches(w[1..] + [n], replies[1..], pending + [Asked(k)[n]], unit, k)
  {
    MatchesNext(w, replies, pending, unit, k);
    MatchesSent(w[1..], replies[1..], pending, unit, k, n);
  }

  /** The sequence moves on: one reply taken, one request sent. */
  lemma SequenceMoves(h: HSys, z: HSys, k: nat, t: Trail, u: Trail, n: nat)
    requires InSequence(h, k, t) && Loads(h.fw.conn) && h.replies != [] && t.waiting != []
    requires n == k + HandshakeTrace.Step(h.fw.conn)
    requires u.lost == t.lost && u.from == t.from + [t.waiting[0]] && u.waiting == t.waiting[1..] + [n]
    requires z.unit == h.unit && z.fw.conn == Following(h.fw.conn).1
    requires z.replies == h.replies[1..] && z.pending == h.pending + [Following(h.fw.conn).0]
    ensures InSequence(z, k, u)
  {
    var c, d := h.fw.conn, z.fw.conn;
    FollowingIsNext(c, k);
    TakeMatches(t.waiting, h.replies, h.pending, h.unit, k, n);
    assert Matches(u.waiting, z.replies, z.pending, z.unit, k);
    TakenAccounted(c, d, t.from, t.waiting, t.lost, k);
    assert Accounted(d, u.from, u.waiting, u.lost, k);
  }

  lemma TakeMoves(h: HSys, e: Event, k: nat, t: Trail, u: Trail)
    requires InSequence(h, k, t) && Enabled(h, e) && Takes(h, e) && Loads(h.fw.conn)
    requires t.waiting != [] && u.lost == t.lost && u.from == t.from + [t.waiting[0]]
    requires u.waiting == t.waiting[1..] + [k + HandshakeTrace.Step(h.fw.conn)]
    ensures InSequence(Handshake.Step(h, e), k, u)
    ensures Handshake.Step(h, e).unit == h.unit && Handshake.Step(h, e).fw.conn == Following(h.fw.conn).1
  {
    TakesShape(h, e);
    SequenceMoves(h, Handshake.Step(h, e), k, t, u, k + HandshakeTrace.Step(h.fw.conn));
  }

  lemma TakeAnswers(h: HSys, e: Event, k: nat, t: Trail)
    requires InSequence(h, k, t) && Enabled(h, e) && Takes(h, e) && Loads(h.fw.conn)
    requires AreAnswers(t.taken, t.from, h.unit, k) && |t.taken| == |t.from| < 6
    ensures t.waiting != [] && AreAnswers(t.taken + [Payload(e.rx)], t.from + [t.waiting[0]], h.unit, k)
  {
    MatchesNext(t.waiting, h.replies, h.pending, h.unit, k);
    PayloadFits(h.fw.conn, e.rx);
    AskedAt(k, t.waiting[0]);
    PayloadAnswers(e.rx, e.val, h.unit, Asked(k)[t.waiting[0]]);
    MoreAnswers(t.taken, t.from, h.unit, k, Payload(e.rx), t.waiting[0]);
  }

  lemma TakeShifts(h: HSys, e: Event, k: nat, was: Image, t: Trail) returns (u: Trail)
    requires Shifted(h, k, was, t) && Enabled(h, e) && Takes(h, e) && Loads(h.fw.conn)
    ensures Shifted(Handshake.Step(h, e), k, was, u) && u.lost == t.lost
  {
    TakeCopies(h, e, was, t.taken);
    TakeAnswers(h, e, k, t);
    u := Trail(t.taken + [Payload(e.rx)], t.from + [t.waiting[0]],
               t.waiting[1..] + [k + HandshakeTrace.Step(h.fw.conn)], t.lost);
    TakeMoves(h, e, k, t, u);
    FollowingIsNext(h.fw.conn, k);
  }

  lemma PollTakenShape(h: HSys, e: Event)
    requires Enabled(h, e) && Takes(h, e) && h.fw.conn == PollingBase
    ensures Handshake.Step(h, e) ==
            h.(fw := h.fw.(conn := Connected, timeoutT := e.visit.start), rx := e.rx, replies := h.replies[1..])
  {
  }

  lemma PollShifts(h: HSys, e: Event, k: nat, was: Image, t: Trail) returns (u: Trail)
    requires Shifted(h, k, was, t) && Enabled(h, e) && Takes(h, e) && h.fw.conn == PollingBase
    ensures Shifted(Handshake.Step(h, e), k, was, u) && u.lost == t.lost
  {
    PollTakenShape(h, e);
    MatchesNext(t.waiting, h.replies, h.pending, h.unit, k);
    NextAccounted(PollingBase, Connected, t.from, t.waiting, t.lost, k);
    u := Trail(t.taken, t.from + [t.waiting[0]], t.waiting[1..], t.lost);
    SameAnswers(t.taken, t.from, h.unit, k, t.waiting[0]);
  }

  lemma SameAnswers(taken: seq<seq<Byte>>, from: seq<nat>, unit: Image, k: nat, i: nat)
    requires AreAnswers(taken, from, unit, k) && i < k + 7
    ensures AreAnswers(taken, from + [i], unit, k)
  {
    assert forall j | 0 <= j < |from| :: (from + [i])[j] == from[j];
  }

  lemma IdleCallShifts(h: HSys, e: Event, k: nat, was: Image, t: Trail)
    requires Shifted(h, k, was, t) && Enabled(h, e) && e.Call? && !Takes(h, e) && h.fw.conn != LinkConnected
    requires Handshake.Step(h, e).fw.com == WbmCommunicating
    ensures Shifted(Handshake.Step(h, e), k, was, t)
  {
    assert Handshake.Step(h, e) == h.(rx := e.rx);
  }

  lemma CallShifts(h: HSys, e: Event, k: nat, was: Image, t: Trail) returns (u: Trail)
    requires Shifted(h, k, was, t) && Enabled(h, e) && e.Call?
    requires Handshake.Step(h, e).fw.com == WbmCommunicating
    ensures Shifted(Handshake.Step(h, e), k, was, u) && u.lost == t.lost
  {
    if h.fw.conn == LinkConnected {
      u := FirstAskShifts(h, e, k, was, t);
    } else if !Takes(h, e) {
      IdleCallShifts(h, e, k, was, t);
      u := t;
    } else if Loads(h.fw.conn) {
      u := TakeShifts(h, e, k, was, t);
    } else {
      u := PollShifts(h, e, k, was, t);
    }
  }

  lemma StepShifts(h: HSys, e: Event, k: nat, was: Image, t: Trail) returns (u: Trail)
    requires Shifted(h, k, was, t) && Enabled(h, e) && !e.UnitChange? && !e.AppImage?
    requires Handshake.Step(h, e).fw.com == WbmCommunicating
    ensures Shifted(Handshake.Step(h, e), k, was, u) && u.lost == t.lost + LossOf(e)
    ensures Handshake.Step(h, e).unit == h.unit
  {
    match e
    case UnitServe =>
      ServeShifts(h, k, was, t);
      u := t;
    case RequestLost => u := RequestLostShifts(h, k, was, t);
    case ReplyLost => u := ReplyLostShifts(h, k, was, t);
    case Call(_, _, _, _) => u := CallShifts(h, e, k, was, t);
  }

  lemma {:induction false} RunShifts(h: HSys, events: seq<Event>, k: nat, was: Image, t: Trail) returns (u: Trail)
    requires Shifted(h, k, was, t) && Possible(h, events) && Still(events)
    requires Run(h, events).fw.com == WbmCommunicating
    ensures Shifted(Run(h, events), k, was, u) && Run(h, events).unit == h.unit && u.lost == t.lost + LostIn(events)
    decreases |events|
  {
    u := t;
    if events != [] {
      var e, z := events[0], Handshake.Step(h, events[0]);
      if events[1..] != [] { assert Enabled(z, events[1..][0]); }
      u := StepShifts(h, e, k, was, t);
      u := RunShifts(z, events[1..], k, was, u);
    }
  }

  // ---- The load with `k` polls left unanswered ----

  /** Nothing but polls is unanswered. */
  predicate OnlyPolls(h: HSys) {
    && (forall i | 0 <= i < |h.pending| :: h.pending[i] == Poll)
    && (forall i | 0 <= i < |h.replies| :: h.replies[i] == UM.Answer(h.unit, Poll))
  }

  /** The link is found with `k` polls unanswered, served or not; from then on neither unit nor app change
      anything, whatever is lost, and the run ends in Connected. */
  ghost predicate CompletesWith(h: HSys, k: nat, events: seq<Event>, last: Event) {
    && h.fw.conn == LinkConnected && OnlyPolls(h) && |h.pending| + |h.replies| == k
    && Possible(h, events) && Still(events)
    && Enabled(Run(h, events), last) && Handshake.Step(Run(h, events), last).fw.com == WbmConnected
  }

  function Firsts(k: nat): (a: seq<nat>)
    ensures |a| == k && forall i | 0 <= i < k :: a[i] == i
  {
    seq(k, i => i)
  }

  lemma FirstsArePolls(replies: seq<UM.Reply>, pending: seq<Request>, unit: Image, k: nat)
    requires |pending| + |replies| == k
    requires forall i | 0 <= i < |pending| :: pending[i] == Poll
    requires forall i | 0 <= i < |replies| :: replies[i] == UM.Answer(unit, Poll)
    ensures Matches(Firsts(k), replies, pending, unit, k)
  {
    forall i | 0 <= i < k
      ensures Asked(k)[Firsts(k)[i]] == Poll
    {
      AskedAt(k, i);
    }
  }

  lemma FirstsAccounted(k: nat)
    ensures Accounted(LinkConnected, [], Firsts(k), 0, k)
  {
    assert [] + Firsts(k) == Firsts(k);
  }

  lemma StartsShifted(h: HSys, k: nat)
    requires h.fw.conn == LinkConnected && OnlyPolls(h) && |h.pending| + |h.replies| == k
    ensures Shifted(h, k, h.fw.mirror, Trail([], [], Firsts(k), 0))
  {
    FirstsArePolls(h.replies, h.pending, h.unit, k);
    FirstsAccounted(k);
  }

  /** The answers the seven waiting states took: `from[i]` is the place in the sequence of `k` polls and the
      load requests of the request that state `i` took the answer to. They come in the order sent, and
      none is later than the state's own request, which is at `k + i`. */
  predicate Answered(taken: seq<seq<Byte>>, from: seq<nat>, unit: Image, k: nat) {
    && |taken| == 6 && Fit(taken) && |from| == 7 && Ascending(from, k + 7)
    && AreAnswers(taken, from, unit, k)
    && forall i | 0 <= i < 7 :: from[i] <= k + i
  }

  /** Whatever is lost: each of the six states copies the payload of the answer it took to its own
      address; Connected is entered with `k` requests unanswered, less those lost. */
  lemma {:induction false} EachTakesEarlierAnswer(h: HSys, k: nat, events: seq<Event>, last: Event)
    returns (taken: seq<seq<Byte>>, from: seq<nat>)
    requires CompletesWith(h, k, events, last)
    ensures var z := Handshake.Step(Run(h, events), last);
            && Answered(taken, from, h.unit, k)
            && z.fw.mirror == Copied(h.fw.mirror, taken) && z.unit == h.unit
            && |z.pending| + |z.replies| == k - LostIn(events)
    ensures LostIn(events) == 0 ==> forall i | 0 <= i < 7 :: from[i] == i
  {
    StartsShifted(h, k);
    var t := RunShifts(h, events, k, h.fw.mirror, Trail([], [], Firsts(k), 0));
    taken, from := t.taken, t.from;
    if last.Call? { OnlyConnectedEnters(Run(h, events).fw, last.visit, last.val, last.rx, last.boot); }
    EntersUnread(Run(h, events), last);
    AllTaken(t.from, t.waiting, t.lost, k);
  }

  /** In the last state seven answers have been taken. */
  lemma AllTaken(from: seq<nat>, waiting: seq<nat>, lost: nat, k: nat)
    requires Accounted(Connected, from, waiting, lost, k)
    ensures |from| == 7 && Ascending(from, k + 7) && |waiting| == k - lost
    ensures lost == 0 ==> forall i | 0 <= i < 7 :: from[i] == i
  {
    AscendingWithout(from, waiting, [], k + 7);
    assert from + [] == from && from + waiting + [] == from + waiting;
    if lost == 0 {
      AscendingFull(from + waiting, k + 7);
      assert forall i | 0 <= i < 7 :: (from + waiting)[i] == from[i];
    }
  }

  /** How many places early a state's answer comes never grows; so once a state takes its own answer, all
      later ones do. */
  lemma {:induction false} OwnFromThere(from: seq<nat>, k: nat, i: nat, j: nat)
    requires |from| == 7 && Ascending(from, k + 7) && (forall x | 0 <= x < 7 :: from[x] <= k + x)
    requires i <= j < 7
    ensures k + j - from[j] <= k + i - from[i]
    decreases j
  {
    if i < j { OwnFromThere(from, k, i, j - 1); }
  }

  lemma EntersUnread(h: HSys, e: Event)
    requires Enabled(h, e) && h.fw.conn == Connected && e.Call?
    ensures var z := Handshake.Step(h, e);
            z.fw.mirror == h.fw.mirror && z.unit == h.unit && z.pending == h.pending && z.replies == h.replies
  {
  }

  lemma LoadAddresses()
    ensures forall i | 0 <= i < 6 :: Start(LOAD_ORDER[i]) == [0, 59, 76, 133, 153, 59][i]
  {
  }

  lemma CopiedNext(was: Image, taken: seq<seq<Byte>>, n: nat)
    requires Fit(taken) && 1 <= n <= |taken|
    ensures Fit(taken[..n]) && Fit(taken[..n - 1])
    ensures Copied(was, taken[..n]) == Splice(Copied(was, taken[..n - 1]), Start(LOAD_ORDER[n - 1]), taken[n - 1])
  {
    assert taken[..n][..n - 1] == taken[..n - 1];
  }

  /** Byte `i` of a mirror loaded with one poll left unanswered; `poll` is what the first state took
      for the bytes of its section. */
  function ByteAfterOne(was: Image, unit: Image, poll: seq<Byte>, i: nat): Byte
    requires i < EEPROM_SIZE
  {
    if i < 59 then (if i < |poll| then poll[i] else was[i])
    else if i < 144 then unit[i + 94]       // HWSetting took DayProg
    else if i < 153 then unit[i - 57]       // SetTemp took SettingPar
    else if i < 173 then unit[i - 20]       // DayProg took SetTemp
    else if i < 184 then unit[i - 57]
    else was[i]
  }

  lemma SpliceAt(dst: seq<Byte>, at: nat, src: seq<Byte>, i: nat)
    requires at + |src| <= |dst| && i < |dst|
    ensures Splice(dst, at, src)[i] == if at <= i < at + |src| then src[i - at] else dst[i]
  {
  }

  lemma SectionByte(e: Image, s: Section, i: nat)
    requires i < Count(s)
    ensures Content(e, s)[i] == e[Start(s) + i]
  {
  }

  /** Byte `i` after `n` payloads: the last one that covers it. */
  function ByteOf(was: Image, taken: seq<seq<Byte>>, n: nat, i: nat): Byte
    requires |taken| == 6 && n <= 6 && i < EEPROM_SIZE
  {
    if n == 0 then was[i]
    else
      var at := [0, 59, 76, 133, 153, 59][n - 1];
      if at <= i < at + |taken[n - 1]| then taken[n - 1][i - at] else ByteOf(was, taken, n - 1, i)
  }

  lemma {:induction false} CopiedByte(was: Image, taken: seq<seq<Byte>>, n: nat, i: nat)
    requires Fit(taken) && |taken| == 6 && n <= 6 && i < EEPROM_SIZE
    ensures Fit(taken[..n]) && Copied(was, taken[..n])[i] == ByteOf(was, taken, n, i)
    decreases n
  {
    if n > 0 {
      LoadAddresses();
      CopiedByte(was, taken, n - 1, i);
      CopiedNext(was, taken, n);
      SpliceAt(Copied(was, taken[..n - 1]), Start(LOAD_ORDER[n - 1]), taken[n - 1], i);
    }
  }

  lemma CopiedIs(was: Image, taken: seq<seq<Byte>>, i: nat)
    requires Fit(taken) && |taken| == 6 && i < EEPROM_SIZE
    ensures Copied(was, taken)[i] == ByteOf(was, taken, 6, i)
    ensures ByteOf(was, taken, 6, i) ==
            if 59 <= i < 59 + |taken[5]| then taken[5][i - 59]
            else if 153 <= i < 153 + |taken[4]| then taken[4][i - 153]
            else ByteOf(was, taken, 4, i)
    ensures ByteOf(was, taken, 4, i) ==
            if 133 <= i < 133 + |taken[3]| then taken[3][i - 133]
            else if 76 <= i < 76 + |taken[2]| then taken[2][i - 76]
            else ByteOf(was, taken, 2, i)
    ensures ByteOf(was, taken, 2, i) ==
            if 59 <= i < 59 + |taken[1]| then taken[1][i - 59] else if i < |taken[0]| then taken[0][i] else was[i]
  {
    CopiedByte(was, taken, 6, i);
    assert taken[..6] == taken;
    OneDown(was, taken, 6, i);
    OneDown(was, taken, 5, i);
    OneDown(was, taken, 4, i);
    OneDown(was, taken, 3, i);
    OneDown(was, taken, 2, i);
    OneDown(was, taken, 1, i);
  }

  lemma OneDown(was: Image, taken: seq<seq<Byte>>, n: nat, i: nat)
    requires |taken| == 6 && 0 < n <= 6 && i < EEPROM_SIZE
    ensures ByteOf(was, taken, 0, i) == was[i]
    ensures var at := [0, 59, 76, 133, 153, 59][n - 1];
            ByteOf(was, taken, n, i) ==
            if at <= i < at + |taken[n - 1]| then taken[n - 1][i - at] else ByteOf(was, taken, n - 1, i)
  {
  }

  /** Nothing was lost: each state took the next answer. */
  predicate Unshifted(from: seq<nat>) {
    |from| == 7 && forall i | 0 <= i < 7 :: from[i] == i
  }

  lemma AnswersAfterOne(taken: seq<seq<Byte>>, from: seq<nat>, unit: Image)
    requires |taken| == 6 && AreAnswers(taken, from, unit, 1) && Unshifted(from)
    ensures taken[1] == Content(unit, Info) && taken[2] == Content(unit, Configuration)
    ensures taken[3] == Content(unit, SettingPar) && taken[4] == Content(unit, SetTemp)
    ensures taken[5] == Content(unit, DayProg)
  {
    assert Asked(1)[1] == Read(Info) && Asked(1)[2] == Read(Configuration) && Asked(1)[3] == Read(SettingPar);
    assert Asked(1)[4] == Read(SetTemp) && Asked(1)[5] == Read(DayProg);
  }

  /** With one poll left unanswered the mirror is, byte for byte, this, whatever it and the unit
      hold: so 59..143 hold the unit's DayProg bytes 153..237. */
  lemma ByteAfterOneIs(was: Image, unit: Image, taken: seq<seq<Byte>>, from: seq<nat>, i: nat)
    requires |taken| == 6 && Fit(taken) && AreAnswers(taken, from, unit, 1) && Unshifted(from) && i < EEPROM_SIZE
    ensures Copied(was, taken)[i] == ByteAfterOne(was, unit, taken[0], i)
  {
    SectionMap();
    AnswersAfterOne(taken, from, unit);
    CopiedIs(was, taken, i);
    if 59 <= i < 144 { SectionByte(unit, DayProg, i - 59); }
    else if 153 <= i < 173 { SectionByte(unit, SetTemp, i - 153); }
    else if 133 <= i < 184 { SectionByte(unit, SettingPar, i - 133); }
  }

  /** Every byte of every section is the unit's. */
  predicate Right(mirror: Image, unit: Image) {
    forall i | 0 <= i < EEPROM_SIZE && !HL.Uncovered(i) :: mirror[i] == unit[i]
  }

  /** With one poll left unanswered and nothing lost afterwards the load is right exactly if all these
      bytes happen to coincide. */
  lemma {:induction false} RightAfterOneExactly(h: HSys, events: seq<Event>, last: Event) returns (poll: seq<Byte>)
    requires CompletesWith(h, 1, events, last) && LostIn(events) == 0
    ensures var z := Handshake.Step(Run(h, events), last);
            && (forall i | 0 <= i < EEPROM_SIZE :: z.fw.mirror[i] == ByteAfterOne(h.fw.mirror, h.unit, poll, i))
            && (Right(z.fw.mirror, z.unit) <==>
                  forall i | 0 <= i < EEPROM_SIZE && !HL.Uncovered(i) ::
                    h.unit[i] == ByteAfterOne(h.fw.mirror, h.unit, poll, i))
            && |z.pending| + |z.replies| == 1
  {
    var taken, from := EachTakesEarlierAnswer(h, 1, events, last);
    poll := taken[0];
    forall i | 0 <= i < EEPROM_SIZE
      ensures Copied(h.fw.mirror, taken)[i] == ByteAfterOne(h.fw.mirror, h.unit, poll, i)
    {
      ByteAfterOneIs(h.fw.mirror, h.unit, taken, from, i);
    }
  }

  // ---- Exactly when the load is right ----

  /** Five bytes by which a shifted load shows: the first of HWSetting is none of the first bytes of
      the other sections, and the first of DayProg is not that of Info. */
  predicate Telling(unit: Image) {
    unit[59] !in {unit[0], unit[76], unit[133], unit[153]} && unit[153] != unit[0]
  }

  lemma OwnAnswer(taken: seq<seq<Byte>>, from: seq<nat>, unit: Image, k: nat, i: nat)
    requires |taken| == 6 && AreAnswers(taken, from, unit, k) && i < 6 && from[i] == k + i
    ensures taken[i] == Content(unit, LOAD_ORDER[i])
  {
    AskedAt(k, k + i);
    assert LOAD_SEQUENCE[i] == Read(LOAD_ORDER[i]);
  }

  /** Where all states from `i` on copied their own sections, these are right. */
  lemma RightByte(was: Image, unit: Image, taken: seq<seq<Byte>>, i: nat, j: nat, x: nat)
    requires |taken| == 6 && Fit(taken) && i <= j < 6
    requires forall n | i <= n < 6 :: taken[n] == Content(unit, LOAD_ORDER[n])
    requires InSection(x, LOAD_ORDER[j]) && x < EEPROM_SIZE
    ensures Copied(was, taken)[x] == unit[x]
  {
    SectionMap();
    CopiedIs(was, taken, x);
    var s := if j == 1 then HWSetting else LOAD_ORDER[j];
    SectionByte(unit, s, x - Start(s));
  }

  lemma RightSection(was: Image, unit: Image, taken: seq<seq<Byte>>, i: nat, j: nat)
    requires |taken| == 6 && Fit(taken) && i <= j < 6
    requires forall n | i <= n < 6 :: taken[n] == Content(unit, LOAD_ORDER[n])
    ensures Content(Copied(was, taken), LOAD_ORDER[j]) == Content(unit, LOAD_ORDER[j])
  {
    var s, m := LOAD_ORDER[j], Copied(was, taken);
    forall n | 0 <= n < Count(s)
      ensures Content(m, s)[n] == Content(unit, s)[n]
    {
      SectionByte(m, s, n);
      SectionByte(unit, s, n);
      RightByte(was, unit, taken, i, j, Start(s) + n);
    }
  }

  lemma OwnSections(taken: seq<seq<Byte>>, from: seq<nat>, unit: Image, k: nat, i: nat)
    requires Answered(taken, from, unit, k) && i < 6 && from[i] == k + i
    ensures forall n | i <= n < 6 :: taken[n] == Content(unit, LOAD_ORDER[n])
  {
    forall n | i <= n < 6
      ensures taken[n] == Content(unit, LOAD_ORDER[n])
    {
      OwnFromThere(from, k, i, n);
      OwnAnswer(taken, from, unit, k, n);
    }
  }

  /** Whatever is lost: from the first state on that takes its own answer, every section read is right. */
  lemma {:induction false} RightOnceCaughtUp(h: HSys, k: nat, events: seq<Event>, last: Event)
    returns (taken: seq<seq<Byte>>, from: seq<nat>)
    requires CompletesWith(h, k, events, last)
    ensures var m := Handshake.Step(Run(h, events), last).fw.mirror;
            && Answered(taken, from, h.unit, k) && m == Copied(h.fw.mirror, taken)
            && (forall i, j | 0 <= i <= j < 6 && from[i] == k + i ::
                  Content(m, LOAD_ORDER[j]) == Content(h.unit, LOAD_ORDER[j]))
            && (from[0] == k ==> Right(m, h.unit))
    ensures LostIn(events) == 0 ==> Unshifted(from)
  {
    taken, from := EachTakesEarlierAnswer(h, k, events, last);
    forall i, j | 0 <= i <= j < 6 && from[i] == k + i
      ensures Content(Copied(h.fw.mirror, taken), LOAD_ORDER[j]) == Content(h.unit, LOAD_ORDER[j])
    {
      OwnSections(taken, from, h.unit, k, i);
      RightSection(h.fw.mirror, h.unit, taken, i, j);
    }
    if from[0] == k { AllRight(h.fw.mirror, h.unit, taken, from, k); }
  }

  lemma AllRight(was: Image, unit: Image, taken: seq<seq<Byte>>, from: seq<nat>, k: nat)
    requires Answered(taken, from, unit, k) && from[0] == k
    ensures Right(Copied(was, taken), unit)
  {
    OwnSections(taken, from, unit, k, 0);
    assert LOAD_ORDER == [Info, Configuration, SettingPar, SetTemp, DayProg, HWSetting];
    forall x | 0 <= x < EEPROM_SIZE && !HL.Uncovered(x)
      ensures Copied(was, taken)[x] == unit[x]
    {
      WrittenSectionsPartition(x);
      var s :| s in {Info, SettingPar, SetTemp, DayProg, HWSetting} && InSection(x, s);
      var j := if s == Info then 0 else if s == SettingPar then 2 else if s == SetTemp then 3
               else if s == DayProg then 4 else 5;
      RightByte(was, unit, taken, 0, j, x);
    }
  }

  /** What HWSetting and DayProg take with `k` polls left unanswered and nothing lost. */
  lemma AnswersShifted(taken: seq<seq<Byte>>, from: seq<nat>, unit: Image, k: nat)
    requires |taken| == 6 && AreAnswers(taken, from, unit, k) && Unshifted(from) && 1 <= k <= 5
    ensures k == 4 ==> taken[4] == Content(unit, Info)
    ensures k != 4 ==> exists s | s in {Info, SettingPar, SetTemp, DayProg} :: taken[5] == Content(unit, s)
    ensures k == 4 ==> |taken[5]| == 17
  {
    AskedAt(k, 5);
    AskedAt(k, 4);
    assert from[5] == 5 && from[4] == 4;
    if k != 4 {
      var s := LOAD_SEQUENCE[5 - k].section;
      assert s in {Info, SettingPar, SetTemp, DayProg} && taken[5] == Content(unit, s);
    }
  }

  lemma ShiftedLoadIsWrong(was: Image, unit: Image, taken: seq<seq<Byte>>, from: seq<nat>, k: nat)
    requires |taken| == 6 && Fit(taken) && AreAnswers(taken, from, unit, k) && Unshifted(from)
    requires 1 <= k <= 5 && Telling(unit)
    ensures !Right(Copied(was, taken), unit)
  {
    SectionMap();
    AnswersShifted(taken, from, unit, k);
    var i := if k == 4 then 153 else 59;
    CopiedIs(was, taken, i);
    if k == 4 {
      SectionByte(unit, Info, 0);
    } else {
      var s :| s in {Info, SettingPar, SetTemp, DayProg} && taken[5] == Content(unit, s);
      SectionByte(unit, s, 0);
    }
    assert Copied(was, taken)[i] != unit[i];
  }

  /** With none left unanswered the load is right whatever is lost; with up to five and nothing lost
      afterwards, it is right exactly if there is none, for every unit whose bytes tell. The line is free of
      old requests exactly if as many were lost as were left unanswered. */
  lemma {:induction false} RightExactlyIfNoneUnanswered(h: HSys, k: nat, events: seq<Event>, last: Event)
    requires CompletesWith(h, k, events, last)
    ensures var z := Handshake.Step(Run(h, events), last);
            && (k == 0 ==> Right(z.fw.mirror, h.unit))
            && (k <= 5 && LostIn(events) == 0 && Telling(h.unit) ==> (Right(z.fw.mirror, h.unit) <==> k == 0))
            && (z.pending == [] && z.replies == [] <==> LostIn(events) == k)
  {
    var _, _ := EachTakesEarlierAnswer(h, k, events, last);
    var taken, from := RightOnceCaughtUp(h, k, events, last);
    assert k == 0 ==> from[0] == k;
    if 0 < k <= 5 && LostIn(events) == 0 && Telling(h.unit) {
      ShiftedLoadIsWrong(h.fw.mirror, h.unit, taken, from, k);
    }
  }

  /** From six polls left unanswered on and with nothing lost afterwards, nothing of the unit's EEPROM is
      loaded: all six states take poll replies, and each byte of the mirror is what it was or a byte of one
      of them. */
  lemma {:induction false} SixPollsLoadNothing(h: HSys, k: nat, events: seq<Event>, last: Event)
    returns (polls: seq<seq<Byte>>)
    requires CompletesWith(h, k, events, last) && LostIn(events) == 0 && k >= 6
    ensures |polls| == 6 && forall j | 0 <= j < 6 :: Asked(k)[j] == Poll
    ensures var m := Handshake.Step(Run(h, events), last).fw.mirror;
            forall i | 0 <= i < EEPROM_SIZE :: m[i] == h.fw.mirror[i] || exists j | 0 <= j < 6 :: m[i] in polls[j]
  {
    var from;
    polls, from := EachTakesEarlierAnswer(h, k, events, last);
    forall i | 0 <= i < EEPROM_SIZE
      ensures var b := Copied(h.fw.mirror, polls)[i]; b == h.fw.mirror[i] || exists j | 0 <= j < 6 :: b in polls[j]
    {
      CopiedByte(h.fw.mirror, polls, 6, i);
      assert polls[..6] == polls;
      ComesFrom(h.fw.mirror, polls, 6, i);
    }
  }

  lemma {:induction false} ComesFrom(was: Image, taken: seq<seq<Byte>>, n: nat, i: nat)
    requires |taken| == 6 && n <= 6 && i < EEPROM_SIZE
    ensures ByteOf(was, taken, n, i) == was[i] || exists j | 0 <= j < 6 :: ByteOf(was, taken, n, i) in taken[j]
    decreases n
  {
    if n > 0 { ComesFrom(was, taken, n - 1, i); }
  }

  // ---- From power-up to Connected ----

  /** While the link is sought nothing but polls is unanswered. */
  lemma SeekKeepsPolls(h: HSys, e: Event)
    requires Enabled(h, e) && Seeking(h.fw.conn) && OnlyPolls(h) && !e.UnitChange?
    requires Seeking(Handshake.Step(h, e).fw.conn)
    ensures OnlyPolls(Handshake.Step(h, e)) && Handshake.Step(h, e).unit == h.unit
  {
  }

  lemma {:induction false} SeekRunKeepsPolls(h: HSys, events: seq<Event>)
    requires Possible(h, events) && Seeking(h.fw.conn) && OnlyPolls(h) && Seeking(Run(h, events).fw.conn)
    requires forall e | e in events :: !e.UnitChange?
    ensures OnlyPolls(Run(h, events)) && Run(h, events).unit == h.unit
    decreases |events|
  {
    if events != [] {
      var z := Handshake.Step(h, events[0]);
      StaysSeeking(z, events[1..]);
      SeekKeepsPolls(h, events[0]);
      SeekRunKeepsPolls(z, events[1..]);
    }
  }

  /** A run from power-up, `found` up to the answer that finds the link and `load` up to the last
      call, with a unit that does not change and, after the link is found, no app image. */
  ghost predicate LoadsFromPowerUp(h: HSys, found: seq<Event>, load: seq<Event>, last: Event) {
    && h.fw.conn == Init && h.fw.sent == [] && h.pending == [] && h.replies == []
    && Possible(h, found) && (forall e | e in found :: !e.UnitChange?)
    && var y := Run(h, found);
       && y.fw.conn == LinkConnected
       && Possible(y, load) && Still(load)
       && Enabled(Run(y, load), last) && Handshake.Step(Run(y, load), last).fw.com == WbmConnected
  }

  /** The polls unanswered when the link is found: those sent, but for the answered one and the lost. */
  function Unanswered(h: HSys, found: seq<Event>): int
    requires Possible(h, found)
  {
    |Run(h, found).fw.sent| - 1 - LostIn(found)
  }

  lemma FoundCompletes(h: HSys, found: seq<Event>, load: seq<Event>, last: Event) returns (k: nat)
    requires LoadsFromPowerUp(h, found, load, last)
    ensures k == Unanswered(h, found) && CompletesWith(Run(h, found), k, load, last)
    ensures Run(h, found).unit == h.unit
  {
    var y := Run(h, found);
    FoundWithUnanswered(h, found);
    SeekRunKeepsPolls(h, found);
    k := |y.pending| + |y.replies|;
  }

  /** From power-up: if every poll but the answered one was lost the load is right, whatever else is lost;
      if nothing is lost after the link is found, it is right exactly then, for any unit whose bytes tell
      and up to six polls that were not. No old request is left exactly if every poll but the answered one
      was lost, before or after. */
  lemma {:induction false} RightExactlyIfOthersLost(h: HSys, found: seq<Event>, load: seq<Event>, last: Event)
    requires LoadsFromPowerUp(h, found, load, last)
    ensures Unanswered(h, found) >= 0
    ensures var z := Handshake.Step(Run(Run(h, found), load), last);
            var m := z.fw.mirror;
            && (Unanswered(h, found) == 0 ==> Right(m, h.unit))
            && (Unanswered(h, found) <= 5 && LostIn(load) == 0 && Telling(h.unit) ==>
                  (Right(m, h.unit) <==> Unanswered(h, found) == 0))
            && (z.pending == [] && z.replies == [] <==> LostIn(load) == Unanswered(h, found))
  {
    var k := FoundCompletes(h, found, load, last);
    RightExactlyIfNoneUnanswered(Run(h, found), k, load, last);
  }
}
