/** The Wi-Fi request queue of src/mqtt_app.c: a bounded queue that drops its oldest request for a
    new one, and a consumer that applies only the newest request it finds. Producer and consumer
    interleave at every queue operation. */
module WifiQueue {
  import opened Bytes

  const WIFI_REQ_QUEUE_LEN := 8
  const MAX_SSID_LENGTH := 32
  const MAX_PASSWORD_LENGTH := 64

  /** number: how many requests had been made, this one included; the source keeps it in 32 bits. */
  datatype Request = Request(ssid: seq<Byte>, password: seq<Byte>, persist: bool, number: nat)
  {
    function Id(): U32 { number % WORD32 }
  }

  /** strlcpy into a buffer of `max` + 1 characters. */
  function Copied(s: seq<Byte>, max: nat): seq<Byte> {
    if |s| > max then s[..max] else s
  }

  /** Between its queue operations an enqueue holds the request it has made. */
  datatype Producer = Ready | Full(request: Request) | Discarded(request: Request)

  datatype Consumer = Waiting | Draining(latest: Request)

  /** queue: oldest first. accepted, superseded and applied: the requests that were ever put into
      the queue, that were dropped or passed over for another, and that were applied. */
  datatype Manager = Manager(queue: seq<Request>, counter: nat, producer: Producer, consumer: Consumer,
                             accepted: seq<Request>, superseded: seq<Request>, applied: seq<Request>)

  const EMPTY := Manager([], 0, Ready, Waiting, [], [], [])

  datatype Event =
    | Enqueue(ssid: seq<Byte>, password: seq<Byte>, persist: bool)   // a call, up to its first xQueueSend
    | Proceed                                                  // the producer's next queue operation
    | Consume                                                  // the consumer's next queue operation

  predicate Enabled(m: Manager, e: Event) {
    match e
    case Enqueue(_, _, _) => m.producer.Ready?
    case Proceed => !m.producer.Ready?
    case Consume => true
  }

  function Made(m: Manager, e: Event): Request
    requires e.Enqueue?
  {
    Request(Copied(e.ssid, MAX_SSID_LENGTH), Copied(e.password, MAX_PASSWORD_LENGTH), e.persist, m.counter + 1)
  }

  function Accept(m: Manager, r: Request): Manager {
    m.(queue := m.queue + [r], producer := Ready, accepted := m.accepted + [r])
  }

  /** None: the second xQueueSend failed and so did the enqueue. */
  function Step(m: Manager, e: Event): Option<Manager>
    requires Enabled(m, e)
  {
    match e
    case Enqueue(ssid, _, _) =>
      if ssid == [] then Some(m)
      else
        var r := Made(m, e);
        var m1 := m.(counter := m.counter + 1);
        Some(if |m.queue| < WIFI_REQ_QUEUE_LEN then Accept(m1, r) else m1.(producer := Full(r)))
    case Proceed =>
      if m.producer.Full? then
        var m1 := m.(producer := Discarded(m.producer.request));
        Some(if m.queue == [] then m1
             else m1.(queue := m.queue[1..], superseded := m.superseded + [m.queue[0]]))
      else if |m.queue| < WIFI_REQ_QUEUE_LEN then Some(Accept(m, m.producer.request))
      else None
    case Consume => Some(Consumed(m))
  }

  /** mqtt_task's next xQueueReceive: it takes the oldest request and passes over the one it had;
      on an empty queue it applies the one it has. */
  function Consumed(m: Manager): Manager {
    if m.queue != [] then
      m.(queue := m.queue[1..], consumer := Draining(m.queue[0]),
         superseded := m.superseded + if m.consumer.Draining? then [m.consumer.latest] else [])
    else if m.consumer.Draining? then m.(consumer := Waiting, applied := m.applied + [m.consumer.latest])
    else m
  }

  predicate Possible(m: Manager, events: seq<Event>)
    decreases |events|
  {
    events == [] ||
    (Enabled(m, events[0]) && (Step(m, events[0]).Some? ==> Possible(Step(m, events[0]).value, events[1..])))
  }

  /** The state after a run, or None if some enqueue failed on the way. */
  function Run(m: Manager, events: seq<Event>): Option<Manager>
    requires Possible(m, events)
    decreases |events|
  {
    if events == [] then Some(m)
    else if Step(m, events[0]).None? then None
    else Run(Step(m, events[0]).value, events[1..])
  }

  // ---- The invariant ----

  predicate Ascending(s: seq<Request>) {
    forall i, j | 0 <= i < j < |s| :: s[i].number < s[j].number
  }

  function Held(m: Manager): seq<Request> {
    (if m.consumer.Draining? then [m.consumer.latest] else []) + m.queue
  }

  function InFlight(m: Manager): seq<Request> {
    if m.producer.Ready? then [] else [m.producer.request]
  }

  /** Every request that is not superseded, in the order of its way through the system. */
  function Chain(m: Manager): seq<Request> {
    m.applied + Held(m) + InFlight(m)
  }

  predicate Superseded(r: Request, chain: seq<Request>) {
    chain != [] && r.number < chain[|chain| - 1].number
  }

  /** The chain ascends up to the counter, and what was superseded was so by its newest. */
  ghost predicate Linked(chain: seq<Request>, superseded: seq<Request>, counter: nat) {
    && Ascending(chain)
    && (forall r | r in chain :: r.number <= counter)
    && (forall r | r in superseded :: Superseded(r, chain))
  }

  predicate Bounded(m: Manager) {
    |m.queue| <= WIFI_REQ_QUEUE_LEN && (m.producer.Discarded? ==> |m.queue| < WIFI_REQ_QUEUE_LEN)
  }

  /** With no enqueue under way the newest request is the last accepted one. */
  predicate NewestAccepted(m: Manager) {
    m.producer.Ready? && m.accepted != [] ==>
      Chain(m) != [] && Chain(m)[|Chain(m)| - 1] == m.accepted[|m.accepted| - 1]
  }

  /** Every accepted request is in exactly one place. */
  ghost predicate Conserved(m: Manager) {
    multiset(m.accepted) == multiset(m.superseded) + multiset(m.applied) + multiset(Held(m))
  }

  ghost predicate Inv(m: Manager) {
    Bounded(m) && ChainLinked(m) && NewestAccepted(m) && Conserved(m)
  }

  /** Leaving one request out of a chain, but for its last: it is superseded. */
  lemma LeftOut(a: seq<Request>, x: Request, b: seq<Request>, superseded: seq<Request>, counter: nat)
    requires b != [] && Linked(a + [x] + b, superseded, counter)
    ensures Linked(a + b, superseded + [x], counter)
    ensures (a + b)[|a + b| - 1] == (a + [x] + b)[|a + [x] + b| - 1]
  {
    var chain := a + [x] + b;
    forall i, j | 0 <= i < j < |a + b|
      ensures (a + b)[i].number < (a + b)[j].number
    {
      var i' := if i < |a| then i else i + 1;
      var j' := if j < |a| then j else j + 1;
      assert (a + b)[i] == chain[i'] && (a + b)[j] == chain[j'];
    }
    var newest := b[|b| - 1];
    assert chain[|a|] == x && chain[|chain| - 1] == newest && (a + b)[|a + b| - 1] == newest;
    forall r | r in superseded + [x]
      ensures Superseded(r, a + b)
    {
      assert r == x || Superseded(r, chain);
    }
  }

  lemma LinkedOn(chain: seq<Request>, r: Request, superseded: seq<Request>, counter: nat)
    requires Linked(chain, superseded, counter) && r.number == counter + 1
    ensures Linked(chain + [r], superseded, counter + 1)
  {
    if chain != [] { assert chain[|chain| - 1] in chain; }
  }

  ghost predicate ChainLinked(m: Manager) {
    Linked(Chain(m), m.superseded, m.counter)
  }

  // Each step, conjunct by conjunct.

  lemma EnqueueLinks(m: Manager, e: Event)
    requires ChainLinked(m) && e.Enqueue? && Enabled(m, e) && e.ssid != []
    ensures ChainLinked(Step(m, e).value)
  {
    LinkedOn(Chain(m), Made(m, e), m.superseded, m.counter);
    assert Chain(Step(m, e).value) == Chain(m) + [Made(m, e)];
  }

  lemma EnqueueNewest(m: Manager, e: Event)
    requires NewestAccepted(m) && e.Enqueue? && Enabled(m, e) && e.ssid != []
    ensures NewestAccepted(Step(m, e).value)
  {
    assert Chain(Step(m, e).value) == Chain(m) + [Made(m, e)];
  }

  lemma EnqueueConserves(m: Manager, e: Event)
    requires Conserved(m) && e.Enqueue? && Enabled(m, e) && e.ssid != []
    ensures Conserved(Step(m, e).value)
  {
    var m' := Step(m, e).value;
    assert Held(m') == if |m.queue| < WIFI_REQ_QUEUE_LEN then Held(m) + [Made(m, e)] else Held(m);
  }

  lemma EnqueueKeeps(m: Manager, e: Event)
    requires Inv(m) && e.Enqueue? && Enabled(m, e)
    ensures Step(m, e).Some? && Inv(Step(m, e).value)
  {
    if e.ssid != [] {
      EnqueueLinks(m, e);
      EnqueueNewest(m, e);
      EnqueueConserves(m, e);
    }
  }

  function Latest(m: Manager): seq<Request> {
    if m.consumer.Draining? then [m.consumer.latest] else []
  }

  /** The oldest request leaves the queue for the set of superseded ones. */
  lemma DropLinks(m: Manager)
    requires ChainLinked(m) && m.producer.Full? && m.queue != []
    ensures ChainLinked(Step(m, Proceed).value)
  {
    var a, b := m.applied + Latest(m), m.queue[1..] + InFlight(m);
    assert Chain(m) == a + [m.queue[0]] + b && Chain(Step(m, Proceed).value) == a + b;
    LeftOut(a, m.queue[0], b, m.superseded, m.counter);
  }

  lemma DropConserves(m: Manager)
    requires Conserved(m) && m.producer.Full? && m.queue != []
    ensures Conserved(Step(m, Proceed).value)
  {
    var m' := Step(m, Proceed).value;
    assert Held(m) == Latest(m) + [m.queue[0]] + m.queue[1..] && Held(m') == Latest(m) + m.queue[1..];
  }

  lemma AcceptLinks(m: Manager)
    requires ChainLinked(m) && m.producer.Discarded?
    ensures ChainLinked(Accept(m, m.producer.request)) && NewestAccepted(Accept(m, m.producer.request))
  {
    assert Chain(Accept(m, m.producer.request)) == Chain(m);
  }

  lemma AcceptConserves(m: Manager, r: Request)
    requires Conserved(m)
    ensures Conserved(Accept(m, r))
  {
    assert Held(Accept(m, r)) == Held(m) + [r];
  }

  lemma ProceedKeeps(m: Manager)
    requires Inv(m) && Enabled(m, Proceed)
    ensures Step(m, Proceed).Some? && Inv(Step(m, Proceed).value)
  {
    if m.producer.Discarded? {
      AcceptLinks(m);
      AcceptConserves(m, m.producer.request);
    } else if m.queue != [] {
      DropLinks(m);
      DropConserves(m);
    }
  }

  /** The consumer passes over the request it had, if any, for the oldest in the queue. */
  lemma TakeLinks(m: Manager)
    requires ChainLinked(m) && m.queue != []
    ensures ChainLinked(Consumed(m))
  {
    var b := m.queue + InFlight(m);
    assert m.queue == [m.queue[0]] + m.queue[1..];
    assert Chain(Consumed(m)) == m.applied + b;
    if m.consumer.Draining? {
      assert Chain(m) == m.applied + [m.consumer.latest] + b;
      LeftOut(m.applied, m.consumer.latest, b, m.superseded, m.counter);
    } else {
      assert Chain(m) == m.applied + b;
    }
  }

  lemma TakeNewest(m: Manager)
    requires NewestAccepted(m) && m.queue != []
    ensures NewestAccepted(Consumed(m))
  {
    assert m.queue == [m.queue[0]] + m.queue[1..];
    assert Chain(Consumed(m)) == m.applied + m.queue + InFlight(m);
  }

  lemma TakeConserves(m: Manager)
    requires Conserved(m) && m.queue != []
    ensures Conserved(Consumed(m))
  {
    assert m.queue == [m.queue[0]] + m.queue[1..];
    assert Held(m) == Latest(m) + m.queue && Held(Consumed(m)) == m.queue;
  }

  lemma ApplyKeeps(m: Manager)
    requires Inv(m) && m.queue == []
    ensures Inv(Consumed(m))
  {
    ApplyKeepsChain(m);
    ApplyConserves(m);
  }

  lemma ApplyKeepsChain(m: Manager)
    requires m.queue == []
    ensures Chain(Consumed(m)) == Chain(m)
    ensures ChainLinked(m) ==> ChainLinked(Consumed(m))
    ensures NewestAccepted(m) ==> NewestAccepted(Consumed(m))
  {
  }

  lemma ApplyConserves(m: Manager)
    requires Conserved(m) && m.queue == []
    ensures Conserved(Consumed(m))
  {
  }

  lemma ConsumeKeeps(m: Manager)
    requires Inv(m)
    ensures Inv(Consumed(m))
  {
    if m.queue != [] {
      TakeLinks(m);
      TakeNewest(m);
      TakeConserves(m);
    } else {
      ApplyKeeps(m);
    }
  }

  /** However producer and consumer interleave: no enqueue fails, and the invariant holds. */
  lemma {:induction false} RunKeeps(m: Manager, events: seq<Event>)
    requires Inv(m) && Possible(m, events)
    ensures Run(m, events).Some? && Inv(Run(m, events).value)
    decreases |events|
  {
    if events != [] {
      match events[0] {
        case Enqueue(_, _, _) => EnqueueKeeps(m, events[0]);
        case Proceed => ProceedKeeps(m);
        case Consume => ConsumeKeeps(m);
      }
      RunKeeps(Step(m, events[0]).value, events[1..]);
    }
  }

  // ---- What the invariant says ----

  lemma AscendingIds(s: seq<Request>, counter: nat)
    requires Ascending(s) && counter < WORD32 && forall r | r in s :: r.number <= counter
    ensures forall i, j | 0 <= i < j < |s| :: s[i].Id() < s[j].Id()
  {
    forall i, j | 0 <= i < j < |s|
      ensures s[i].Id() < s[j].Id()
    {
      assert s[i] in s && s[j] in s;
    }
  }

  lemma PartAscends(c: seq<Request>, lo: nat, n: nat, counter: nat)
    requires Ascending(c) && lo + n <= |c| && forall r | r in c :: r.number <= counter
    ensures Ascending(c[lo..lo + n]) && forall r | r in c[lo..lo + n] :: r.number <= counter
  {
  }

  lemma PartOfChain(m: Manager)
    requires ChainLinked(m)
    ensures Ascending(m.queue) && forall r | r in m.queue :: r.number <= m.counter
    ensures Ascending(m.applied) && forall r | r in m.applied :: r.number <= m.counter
  {
    var k := |m.applied| + |Latest(m)|;
    PartAscends(Chain(m), 0, |m.applied|, m.counter);
    PartAscends(Chain(m), k, |m.queue|, m.counter);
    assert m.applied == Chain(m)[0..|m.applied|];
    assert m.queue == Chain(m)[k..k + |m.queue|];
  }

  lemma AcceptedSupersedes(m: Manager, r: Request)
    requires Inv(m) && m.producer.Ready? && r in m.superseded
    ensures exists a | a in m.accepted :: r.number < a.number
  {
    assert r in multiset(m.superseded);
    assert r in multiset(m.accepted);
    assert m.accepted[|m.accepted| - 1] in m.accepted;
  }

  /** In every reachable state with fewer than 2^32 requests made: the queue holds at most eight
      requests with ascending ids; the ids applied ascend; and once no enqueue is under way every
      request dropped or passed over is superseded by one that was accepted later. */
  lemma QueueIsOrdered(events: seq<Event>)
    requires Possible(EMPTY, events) && Run(EMPTY, events).Some?
    requires Run(EMPTY, events).value.counter < WORD32
    ensures var m := Run(EMPTY, events).value;
            && |m.queue| <= WIFI_REQ_QUEUE_LEN
            && (forall i, j | 0 <= i < j < |m.queue| :: m.queue[i].Id() < m.queue[j].Id())
            && (forall i, j | 0 <= i < j < |m.applied| :: m.applied[i].Id() < m.applied[j].Id())
            && (m.producer.Ready? ==> forall r | r in m.superseded :: exists a | a in m.accepted :: r.number < a.number)
  {
    RunKeeps(EMPTY, events);
    var m := Run(EMPTY, events).value;
    PartOfChain(m);
    AscendingIds(m.queue, m.counter);
    AscendingIds(m.applied, m.counter);
    if m.producer.Ready? {
      forall r | r in m.superseded
        ensures exists a | a in m.accepted :: r.number < a.number
      {
        AcceptedSupersedes(m, r);
      }
    }
  }

  function ConsumeAll(m: Manager, n: nat): Manager
    decreases n
  {
    if n == 0 then m else ConsumeAll(Consumed(m), n - 1)
  }

  lemma ConsumedHolds(m: Manager)
    ensures var z := Consumed(m);
            z.producer == m.producer && z.counter == m.counter && z.accepted == m.accepted
    ensures Consumed(m).(producer := Ready) == Consumed(m.(producer := Ready))
  {
  }

  lemma {:induction false} DrainsQueue(m: Manager)
    requires Inv(m)
    ensures var z := ConsumeAll(m, |m.queue| + 1);
            Inv(z) && z.queue == [] && z.consumer.Waiting? && z.accepted == m.accepted && z.producer == m.producer
    decreases |m.queue|
  {
    ConsumeKeeps(m);
    ConsumedHolds(m);
    if m.queue == [] {
      assert ConsumeAll(m, 1) == ConsumeAll(Consumed(m), 0) == Consumed(m);
    } else {
      DrainsQueue(Consumed(m));
    }
  }

  /** Once producers are quiet, the consumer's next |queue| + 1 receives apply the last accepted
      request, and it is the last request applied; every accepted request has then been applied or
      superseded, exactly once. */
  lemma {:induction false} DrainSelectsLast(m: Manager)
    requires Inv(m) && m.producer.Ready? && m.accepted != []
    ensures var z := ConsumeAll(m, |m.queue| + 1);
            && z.applied != [] && z.applied[|z.applied| - 1] == m.accepted[|m.accepted| - 1]
            && multiset(m.accepted) == multiset(z.superseded) + multiset(z.applied)
  {
    DrainsQueue(m);
    AllApplied(ConsumeAll(m, |m.queue| + 1));
  }

  lemma AllApplied(z: Manager)
    requires NewestAccepted(z) && Conserved(z) && z.queue == [] && z.consumer.Waiting? && z.producer.Ready?
    ensures z.accepted != [] ==> z.applied != [] && z.applied[|z.applied| - 1] == z.accepted[|z.accepted| - 1]
    ensures multiset(z.accepted) == multiset(z.superseded) + multiset(z.applied)
  {
    assert Chain(z) == z.applied;
  }

  // ---- What is dropped is the oldest ----

  /** The queue holds the last accepted requests, oldest first. */
  predicate IsNewest(m: Manager) {
    |m.queue| <= |m.accepted| && m.queue == m.accepted[|m.accepted| - |m.queue|..]
  }

  lemma IsNewestStep(m: Manager, e: Event)
    requires Enabled(m, e) && IsNewest(m) && Step(m, e).Some?
    ensures IsNewest(Step(m, e).value)
  {
    var z := Step(m, e).value;
    if |z.queue| > |m.queue| {
      assert z.accepted == m.accepted + [z.queue[|m.queue|]];
      assert z.accepted[|z.accepted| - |z.queue|..] == m.queue + [z.queue[|m.queue|]];
    }
  }

  /** Whatever the interleaving, the queue is a tail of the accepted requests: to make room the oldest is
      dropped, never a newer one. */
  lemma {:induction false} QueueIsNewest(m: Manager, events: seq<Event>)
    requires IsNewest(m) && Possible(m, events) && Run(m, events).Some?
    ensures IsNewest(Run(m, events).value)
    decreases |events|
  {
    if events != [] {
      IsNewestStep(m, events[0]);
      QueueIsNewest(Step(m, events[0]).value, events[1..]);
    }
  }

  /** A ninth request on a full queue that nobody empties drops exactly the first of the eight. */
  lemma {:induction false} NinthDropsFirst(m: Manager, e: Event)
    requires m.producer.Ready? && e.Enqueue? && e.ssid != [] && |m.queue| == 8
    ensures var (ok, z) := Enqueued(m, e, 0, 0);
            ok && z.queue == m.queue[1..] + [Made(m, e)] && z.superseded == m.superseded + [m.queue[0]]
  {
  }

  // ---- The two tasks on the shared queue ----

  class WifiManager {
    var queue: seq<Request>
    var counter: nat
    var consumer: Consumer
    ghost var accepted: seq<Request>
    ghost var superseded: seq<Request>
    ghost var applied: seq<Request>

    ghost function View(): Manager
      reads this
    {
      Manager(queue, counter, Ready, consumer, accepted, superseded, applied)
    }

    constructor ()
      ensures View() == EMPTY
    {
      queue, counter, consumer := [], 0, Waiting;
      accepted, superseded, applied := [], [], [];
    }

    method Send(r: Request) returns (ok: bool)
      modifies this`queue, this`accepted
      ensures ok == (|old(queue)| < WIFI_REQ_QUEUE_LEN)
      ensures if ok then View() == Accept(old(View()), r) else View() == old(View())
    {
      ok := |queue| < WIFI_REQ_QUEUE_LEN;
      if ok { queue, accepted := queue + [r], accepted + [r]; }
    }

    /** One xQueueReceive of mqtt_task. */
    method ConsumeOne()
      modifies this`queue, this`consumer, this`superseded, this`applied
      ensures View() == Consumed(old(View()))
    {
      if queue != [] {
        if consumer.Draining? { superseded := superseded + [consumer.latest]; }
        consumer := Draining(queue[0]);
        queue := queue[1..];
      } else if consumer.Draining? {
        applied := applied + [consumer.latest];
        consumer := Waiting;
      }
    }

    method ConsumerRuns(n: nat)
      modifies this`queue, this`consumer, this`superseded, this`applied
      ensures View() == ConsumeAll(old(View()), n)
    {
      for i := 0 to n
        invariant counter == old(counter) && accepted == old(accepted)
        invariant ConsumeAll(View(), n - i) == ConsumeAll(old(View()), n)
      {
        ConsumeOne();
      }
    }

    method Discard()
      modifies this`queue, this`superseded
      ensures View() == Dropped(old(View()))
    {
      if queue != [] { queue, superseded := queue[1..], superseded + [queue[0]]; }
    }

    /** mqtt_enqueue_wifi_credentials; the consumer runs `first` and `second` operations between
        its own. */
    method Enqueue(ssid: seq<Byte>, password: seq<Byte>, persist: bool, first: nat, second: nat) returns (ok: bool)
      modifies this
      ensures (ok, View()) == Enqueued(old(View()), Event.Enqueue(ssid, password, persist), first, second)
    {
      if ssid == [] { return false; }
      counter := counter + 1;
      var r := Request(Copied(ssid, MAX_SSID_LENGTH), Copied(password, MAX_PASSWORD_LENGTH), persist, counter);
      ok := Send(r);
      if !ok {
        ConsumerRuns(first);
        Discard();
        ConsumerRuns(second);
        ok := Send(r);
      }
    }
  }

  function Dropped(m: Manager): Manager {
    if m.queue == [] then m else m.(queue := m.queue[1..], superseded := m.superseded + [m.queue[0]])
  }

  /** A whole enqueue: its result, and the state it leaves. */
  function Enqueued(m: Manager, e: Event, first: nat, second: nat): (bool, Manager)
    requires e.Enqueue?
  {
    if e.ssid == [] then (false, m)
    else
      var m1, r := m.(counter := m.counter + 1), Made(m, e);
      if |m.queue| < WIFI_REQ_QUEUE_LEN then (true, Accept(m1, r))
      else
        var z := ConsumeAll(Dropped(ConsumeAll(m1, first)), second);
        if |z.queue| < WIFI_REQ_QUEUE_LEN then (true, Accept(z, r)) else (false, z)
  }

  /** The result and state of an enqueue that succeeded, with `r` accepted last. */
  ghost predicate AcceptedLast(m: Manager, r: Request, result: (bool, Manager)) {
    && result.0 && Inv(result.1) && result.1.producer.Ready?
    && result.1.counter == m.counter + 1 && result.1.accepted == m.accepted + [r]
  }

  /** Without an SSID nothing happens at all: no number is used up, and nothing is dropped. */
  lemma EmptySsidIsIgnored(m: Manager, e: Event, first: nat, second: nat)
    requires m.producer.Ready? && e.Enqueue? && e.ssid == []
    ensures Step(m, e) == Some(m) && Enqueued(m, e, first, second) == (false, m)
  {
  }

  /** Whatever the consumer does meanwhile, an enqueue with an SSID succeeds and keeps the
      invariant. */
  lemma EnqueueNeverFails(m: Manager, e: Event, first: nat, second: nat)
    requires Inv(m) && m.producer.Ready? && e.Enqueue? && e.ssid != []
    ensures AcceptedLast(m, Made(m, e), Enqueued(m, e, first, second))
  {
    EnqueueKeeps(m, e);
    if |m.queue| < WIFI_REQ_QUEUE_LEN {
      EnqueuedAtOnce(m, e, first, second);
    } else {
      EnqueuedFull(m, e, first, second);
      DropAndSend(Step(m, e).value, first, second);
    }
  }

  lemma EnqueuedAtOnce(m: Manager, e: Event, first: nat, second: nat)
    requires m.producer.Ready? && e.Enqueue? && e.ssid != [] && |m.queue| < WIFI_REQ_QUEUE_LEN
    ensures Enqueued(m, e, first, second) == (true, Step(m, e).value)
    ensures var z := Step(m, e).value;
            z.producer.Ready? && z.counter == m.counter + 1 && z.accepted == m.accepted + [Made(m, e)]
  {
  }

  /** The state in which the consumer leaves an enqueue that found the queue full. */
  function MadeRoom(m: Manager, first: nat, second: nat): Manager {
    ConsumeAll(Dropped(ConsumeAll(m, first)), second)
  }

  lemma EnqueuedFull(m: Manager, e: Event, first: nat, second: nat)
    requires m.producer.Ready? && e.Enqueue? && e.ssid != [] && |m.queue| == WIFI_REQ_QUEUE_LEN
    ensures var m1 := Step(m, e).value;
            && m1.producer == Full(Made(m, e)) && m1.counter == m.counter + 1 && m1.accepted == m.accepted
            && var z := MadeRoom(m1.(producer := Ready), first, second);
               Enqueued(m, e, first, second) ==
               if |z.queue| < WIFI_REQ_QUEUE_LEN then (true, Accept(z, Made(m, e))) else (false, z)
  {
    assert Step(m, e).value.(producer := Ready) == m.(counter := m.counter + 1);
  }

  lemma DropAndSend(m: Manager, first: nat, second: nat)
    requires Inv(m) && m.producer.Full?
    ensures var r := m.producer.request;
            var z := MadeRoom(m.(producer := Ready), first, second);
            && |z.queue| < WIFI_REQ_QUEUE_LEN && Inv(Accept(z, r))
            && z.counter == m.counter && z.accepted == m.accepted
  {
    var m1 := HeldThrough(m, first);
    DropStep(m1);
    var m3 := HeldThrough(Step(m1, Proceed).value, second);
    AcceptStep(m3);
  }

  lemma DropStep(m: Manager)
    requires Inv(m) && m.producer.Full?
    ensures var z := Step(m, Proceed).value;
            && Inv(z) && z.producer == Discarded(m.producer.request)
            && z.counter == m.counter && z.accepted == m.accepted
            && z.(producer := Ready) == Dropped(m.(producer := Ready))
  {
    ProceedKeeps(m);
  }

  lemma AcceptStep(m: Manager)
    requires Inv(m) && m.producer.Discarded?
    ensures |m.queue| < WIFI_REQ_QUEUE_LEN && Inv(Accept(m.(producer := Ready), m.producer.request))
  {
    ProceedKeeps(m);
    assert Accept(m.(producer := Ready), m.producer.request) == Step(m, Proceed).value;
  }

  lemma {:induction false} ConsumingHolds(m: Manager, n: nat)
    ensures var z := ConsumeAll(m, n);
            && z.producer == m.producer && z.counter == m.counter && z.accepted == m.accepted
            && z.(producer := Ready) == ConsumeAll(m.(producer := Ready), n)
    decreases n
  {
    if n > 0 {
      ConsumedHolds(m);
      ConsumingHolds(Consumed(m), n - 1);
    }
  }

  lemma {:induction false} ConsumingKeeps(m: Manager, n: nat)
    requires Inv(m)
    ensures Inv(ConsumeAll(m, n))
    decreases n
  {
    if n > 0 {
      ConsumeKeeps(m);
      ConsumingKeeps(Consumed(m), n - 1);
    }
  }

  /** The consumer neither sees nor disturbs an enqueue under way. */
  lemma HeldThrough(m: Manager, n: nat) returns (z: Manager)
    requires Inv(m)
    ensures z == ConsumeAll(m, n) && Inv(z) && z.producer == m.producer
    ensures z.counter == m.counter && z.accepted == m.accepted
    ensures z.(producer := Ready) == ConsumeAll(m.(producer := Ready), n)
  {
    z := ConsumeAll(m, n);
    ConsumingHolds(m, n);
    ConsumingKeeps(m, n);
  }
}
