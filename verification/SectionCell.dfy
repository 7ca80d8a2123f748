/** The protocol as one counted section sees it: the firmware's copy, the unit's copy, what is
    pending for the section, what the outstanding request is about and what the reply under way
    says. Every stage of a firmware iteration and every step of the unit is one of the events. */
module SectionCell {
  import opened Bytes

  /** The outstanding request, seen from the section. */
  datatype Line = Free | Fetch | Push(data: seq<Byte>) | Elsewhere

  /** The reply under way, seen from the section. */
  datatype News =
    | Silent
    | Fetched(data: seq<Byte>)        // this section's bytes
    | Pushed(counter: Byte)           // a write of this section was accepted
    | WroteOther(counter: Byte)       // a write of another section was served, or one of this refused
    | Polled(counter: Byte)           // a poll reply
    | Unrelated

  /** mine, theirs: the section in the mirror and in the unit, the update counter last;
      fetch, push: its read and write bits. */
  datatype Cell = Cell(mine: seq<Byte>, theirs: seq<Byte>, fetch: bool, push: bool, line: Line, news: News)
  {
    predicate Valid() {
      && |mine| == |theirs| > 0
      && (line.Push? ==> |line.data| == |mine|)
      && (news.Fetched? ==> |news.data| == |mine|)
    }
  }

  function Ctr(b: seq<Byte>): Byte
    requires b != []
  {
    b[|b| - 1]
  }

  function Marked(b: seq<Byte>, counter: Byte): (r: seq<Byte>)
    requires b != []
    ensures |r| == |b| && Ctr(r) == counter
  {
    b[|b| - 1 := counter]
  }

  datatype Outcome = Nothing | Rejected | Delivered

  datatype Choice = TakeNone | TakeFetch | TakePush | TakeOther

  datatype Event =
    | Change(data: seq<Byte>)                     // the unit changes the section
    | Serve(counter: Byte, other: News)           // the unit serves the outstanding request
    | Refuse                                      // the unit refuses the outstanding write of the section
    | Image(data: seq<Byte>)                      // an app image arrives
    | Timer                                       // a poll or debug request is sent
    | Result(outcome: Outcome)                    // Read_Message
    | Take(choice: Choice)                        // the dispatcher

  predicate Enabled(c: Cell, e: Event) {
    && c.Valid()
    && match e
       case Change(data) => |data| == |c.theirs|
       case Serve(_, other) =>
         && c.line != Free && c.news == Silent
         && (c.line == Elsewhere ==>
              other == Unrelated || other == Polled(Ctr(c.theirs)) || other == WroteOther(Ctr(c.theirs)))
       case Refuse => c.line.Push? && c.news == Silent
       case Image(data) => |data| == |c.mine|
       case Timer => c.line == Free
       case Result(outcome) => outcome == Delivered ==> c.news != Silent && c.line != Free
       case Take(choice) =>
         && (choice == TakeFetch ==> c.fetch)
         && (choice == TakePush ==> c.push && !c.fetch)
         && (choice != TakeNone ==> c.line == Free)
  }

  function Step(c: Cell, e: Event): (d: Cell)
    requires Enabled(c, e)
    ensures d.Valid()
  {
    match e
    case Change(data) => c.(theirs := Marked(data, (Ctr(c.theirs) + 1) % 256))
    case Serve(counter, other) =>
      (match c.line
       case Push(data) => c.(theirs := Marked(data, counter), news := Pushed(counter))
       case Fetch => c.(news := Fetched(c.theirs))
       case _ => c.(news := other))
    case Refuse => c.(news := WroteOther(Ctr(c.theirs)))
    case Image(data) => c.(mine := data, push := true)
    case Timer => c.(line := Elsewhere)
    case Result(Nothing) => c
    case Result(Rejected) => c.(line := Free, news := Silent)
    case Result(Delivered) => Landed(c).(line := Free, news := Silent)
    case Take(TakeNone) => c
    case Take(TakeFetch) => c.(line := Fetch, fetch := false)
    case Take(TakePush) => c.(line := Push(c.mine), push := false)
    case Take(TakeOther) => c.(line := Elsewhere)
  }

  function Landed(c: Cell): Cell
    requires c.Valid()
  {
    match c.news
    case Fetched(data) => c.(mine := data)
    case Pushed(k) => c.(fetch := c.fetch || k != Ctr(c.mine), mine := Marked(c.mine, k))
    case WroteOther(k) => c.(fetch := c.fetch || k != Ctr(c.mine), mine := Marked(c.mine, k))
    case Polled(k) => c.(fetch := c.fetch || k != Ctr(c.mine))
    case _ => c
  }

  predicate Outstanding(c: Cell) {
    c.line == Fetch || c.line.Push?
  }

  predicate Pending(c: Cell) {
    c.fetch || c.push
  }

  /** A result that ends a read or write of the section without bringing its bytes, confirming them or
      asking for them: a rejected one, or a refusal whose counter is the mirror's. Nothing newer is
      pending for the section. */
  predicate Drops(c: Cell, e: Event)
    requires c.Valid()
  {
    && !Pending(c)
    && ((e == Result(Rejected) && Outstanding(c))
        || (e == Result(Delivered) && c.line.Push? && c.news == WroteOther(Ctr(c.mine))))
  }

  // ---- The age of the mirror's copy ----

  /** known: the copy is the unit's of `unseen` of its changes ago; it is not after an image and after a
      foreign counter was adopted, until the bytes are fetched or accepted.
      since: unit changes since the counter the mirror last adopted was the unit's;
      late: unit changes since the reply under way was made. */
  datatype Gap = Gap(unseen: nat, late: nat, since: nat, known: bool)

  /** How far the unit's counter is ahead. */
  function Distance(mine: seq<Byte>, theirs: seq<Byte>): nat
    requires mine != [] && theirs != []
  {
    (Ctr(theirs) - Ctr(mine)) % 256
  }

  function GapAfter(c: Cell, e: Event, g: Gap): Gap
    requires c.Valid()
  {
    match e
    case Change(_) => g.(unseen := g.unseen + 1, late := g.late + 1, since := g.since + 1)
    case Serve(_, _) => g.(late := 0, known := g.known && !c.line.Push?)
    case Refuse => g.(late := 0)
    case Image(_) => g.(known := false)
    case Result(outcome) =>
      if Drops(c, e) && !g.known then Gap(Distance(c.mine, c.theirs), g.late, g.since, true)
      else if outcome == Delivered then LandedGap(c, g)
      else g
    case _ => g
  }

  function LandedGap(c: Cell, g: Gap): Gap
    requires c.Valid()
  {
    match c.news
    case Fetched(_) => Gap(g.late, g.late, g.late, true)
    case Pushed(_) => Gap(g.late, g.late, g.late, !c.push)
    case WroteOther(k) => g.(since := g.late, known := g.known && k == Ctr(c.mine))
    case _ => g
  }

  /** `copy` is what the unit held `n` of its own changes ago. */
  predicate Stamped(copy: seq<Byte>, theirs: seq<Byte>, n: nat)
    requires copy != [] && theirs != []
  {
    && (Ctr(copy) + n) % 256 == Ctr(theirs)
    && (n == 0 ==> copy == theirs)
  }

  /** What a reply says about the section was so `late` changes ago. */
  predicate NewsStamped(c: Cell, g: Gap)
    requires c.Valid()
  {
    match c.news
    case Fetched(data) => c.line == Fetch && Stamped(data, c.theirs, g.late)
    case Pushed(k) => c.line.Push? && Stamped(Marked(c.line.data, k), c.theirs, g.late)
    case WroteOther(k) => (c.line == Elsewhere || c.line.Push?) && (k + g.late) % 256 == Ctr(c.theirs)
    case Silent => true
    case _ => c.line == Elsewhere
  }

  predicate Coherent(c: Cell)
    requires c.Valid()
  {
    || c.mine == c.theirs
    || Ctr(c.mine) != Ctr(c.theirs)
    || Pending(c)
    || Outstanding(c)
  }

  // ---- What every event keeps but a lost one ----

  predicate Inv(c: Cell, g: Gap) {
    && c.Valid()
    && NewsStamped(c, g)
    && (c.line.Push? ==> !c.fetch && (!c.push ==> c.line.data == c.mine))
    && (g.known ==> Stamped(c.mine, c.theirs, g.unseen))
    && (!g.known ==> Pending(c) || Outstanding(c))
    && (!g.known && !c.push && !c.line.Push? ==> (Ctr(c.mine) + g.since) % 256 == Ctr(c.theirs))
  }

  /** At a dropping result the unit's counter is the mirror's again. A re-read: the unit's changes since
      the counter was adopted are a multiple of 256. A write: the frame has the unit's counter. A
      refusal: the unit's changes since then are a multiple of 256. */
  predicate Coincides(c: Cell, e: Event, g: Gap)
    requires c.Valid()
  {
    if e == Result(Delivered) then g.late % 256 == 0
    else if c.line.Push? then Ctr(c.line.data) == Ctr(c.theirs)
    else g.since % 256 == 0
  }

  /** The event makes the section stale for good. */
  predicate Loses(c: Cell, e: Event, g: Gap)
    requires c.Valid()
  {
    Drops(c, e) && !g.known && Coincides(c, e, g) && c.mine != c.theirs
  }

  lemma Advanced(a: Byte, b: Byte, n: nat)
    requires (a + n) % 256 == b
    ensures a == b <==> n % 256 == 0
  {
  }

  lemma DistanceIsStamp(mine: seq<Byte>, theirs: seq<Byte>)
    requires mine != [] && theirs != [] && (Ctr(mine) == Ctr(theirs) ==> mine == theirs)
    ensures Stamped(mine, theirs, Distance(mine, theirs))
  {
  }

  lemma CoincidesExactly(c: Cell, e: Event, g: Gap)
    requires Inv(c, g) && Drops(c, e) && !g.known
    ensures Coincides(c, e, g) <==> Ctr(c.mine) == Ctr(c.theirs)
  {
    if e == Result(Delivered) {
      Advanced(Ctr(c.mine), Ctr(c.theirs), g.late);
    } else if c.line == Fetch {
      Advanced(Ctr(c.mine), Ctr(c.theirs), g.since);
    }
  }

  /** A dropped section is one whose counter, if it is the unit's, comes with the unit's bytes. */
  lemma DropKeepsInv(c: Cell, e: Event, g: Gap)
    requires Enabled(c, e) && Inv(c, g) && Drops(c, e) && !g.known && !Loses(c, e, g)
    ensures Inv(Step(c, e), GapAfter(c, e, g))
  {
    CoincidesExactly(c, e, g);
    DistanceIsStamp(c.mine, c.theirs);
    DropShape(c, e);
  }

  /** It leaves mirror and unit as they are, and nothing pending or outstanding. */
  lemma DropShape(c: Cell, e: Event)
    requires Enabled(c, e) && Drops(c, e)
    ensures Step(c, e) == c.(line := Free, news := Silent)
  {
    if e == Result(Delivered) { assert Marked(c.mine, Ctr(c.mine)) == c.mine; }
  }

  /** Other bytes under the unit's counter, and nothing that would fetch or push them. */
  predicate Stale(c: Cell) {
    && c.Valid() && !Coherent(c)
    && (c.news == Silent || c.news == Unrelated || c.news == Polled(Ctr(c.mine)) || c.news == WroteOther(Ctr(c.mine)))
  }

  lemma LostIsStale(c: Cell, e: Event, g: Gap)
    requires Enabled(c, e) && Inv(c, g) && Loses(c, e, g)
    ensures Stale(Step(c, e))
  {
    CoincidesExactly(c, e, g);
    DropShape(c, e);
  }

  /** What is stale stays so until the unit changes the section or an image arrives. */
  lemma {:induction false} StaleStays(c: Cell, e: Event)
    requires Enabled(c, e) && Stale(c) && !e.Change? && !e.Image?
    ensures Stale(Step(c, e))
  {
    if e == Result(Delivered) && c.news.WroteOther? { assert Marked(c.mine, Ctr(c.mine)) == c.mine; }
  }

  lemma ResultKeepsInv(c: Cell, e: Event, g: Gap)
    requires Enabled(c, e) && Inv(c, g) && e.Result? && !(Drops(c, e) && !g.known)
    ensures Inv(Step(c, e), GapAfter(c, e, g))
  {
    if e.outcome == Delivered && c.news.WroteOther? && c.news.counter == Ctr(c.mine) {
      assert Marked(c.mine, c.news.counter) == c.mine;
    }
  }

  /** One more change of the unit. */
  lemma StampedChange(copy: seq<Byte>, theirs: seq<Byte>, n: nat, data: seq<Byte>)
    requires copy != [] && theirs != [] && data != [] && Stamped(copy, theirs, n)
    ensures Stamped(copy, Marked(data, (Ctr(theirs) + 1) % 256), n + 1)
  {
  }

  lemma CounterSteps(k: int, n: nat, counter: Byte)
    requires (k + n) % 256 == counter
    ensures (k + (n + 1)) % 256 == (counter + 1) % 256
  {
  }

  lemma ChangeKeepsNews(c: Cell, e: Event, g: Gap)
    requires Enabled(c, e) && NewsStamped(c, g) && e.Change?
    ensures NewsStamped(Step(c, e), GapAfter(c, e, g))
  {
    var d := Step(c, e);
    assert d == c.(theirs := Marked(e.data, (Ctr(c.theirs) + 1) % 256));
    match c.news
    case Fetched(data) => StampedChange(data, c.theirs, g.late, e.data);
    case Pushed(k) => StampedChange(Marked(c.line.data, k), c.theirs, g.late, e.data);
    case WroteOther(k) => CounterSteps(k, g.late, Ctr(c.theirs));
    case _ =>
  }

  lemma ChangeKeepsInv(c: Cell, e: Event, g: Gap)
    requires Enabled(c, e) && Inv(c, g) && e.Change?
    ensures Inv(Step(c, e), GapAfter(c, e, g))
  {
    ChangeKeepsNews(c, e, g);
    if g.known {
      StampedChange(c.mine, c.theirs, g.unseen, e.data);
    } else if !c.push && !c.line.Push? {
      CounterSteps(Ctr(c.mine), g.since, Ctr(c.theirs));
    }
  }

  lemma ServeKeepsInv(c: Cell, e: Event, g: Gap)
    requires Enabled(c, e) && Inv(c, g) && e.Serve?
    ensures Inv(Step(c, e), GapAfter(c, e, g))
  {
  }

  /** Whatever happens to a section, it stays a copy of known age, pending or outstanding, unless the
      event loses it. */
  lemma {:induction false} StepKeepsInv(c: Cell, e: Event, g: Gap)
    requires Enabled(c, e) && Inv(c, g) && !Loses(c, e, g)
    ensures Inv(Step(c, e), GapAfter(c, e, g))
  {
    match e
    case Change(_) => ChangeKeepsInv(c, e, g);
    case Serve(_, _) => ServeKeepsInv(c, e, g);
    case Result(_) => if Drops(c, e) && !g.known { DropKeepsInv(c, e, g); } else { ResultKeepsInv(c, e, g); }
    case _ =>
  }

  /** A section of known age has the unit's counter exactly when it has the unit's bytes. */
  lemma KnownIsVersion(c: Cell, g: Gap)
    requires Inv(c, g) && g.known && g.unseen < 256
    ensures Ctr(c.mine) == Ctr(c.theirs) <==> c.mine == c.theirs
  {
    Advanced(Ctr(c.mine), Ctr(c.theirs), g.unseen);
  }

  lemma InvIsCoherent(c: Cell, g: Gap)
    requires Inv(c, g) && (g.known ==> g.unseen < 256)
    ensures Coherent(c)
  {
    if g.known { KnownIsVersion(c, g); }
  }

  // ---- Catching up once the unit and the app are quiet ----

  /** Whatever is not already equal is on its way, and what is on its way is current. */
  predicate Current(c: Cell, g: Gap) {
    && Inv(c, g)
    && (c.news != Silent ==> g.late == 0)
    && (c.mine == c.theirs || Pending(c) || Outstanding(c))
  }

  predicate Quiet(c: Cell, e: Event)
    requires c.Valid()
  {
    !e.Change? && !e.Image? && !Drops(c, e)
  }

  lemma StepKeepsCurrent(c: Cell, e: Event, g: Gap)
    requires Enabled(c, e) && Current(c, g) && Quiet(c, e)
    ensures Current(Step(c, e), GapAfter(c, e, g))
  {
    StepKeepsInv(c, e, g);
    if e == Result(Delivered) && c.news.WroteOther? && c.news.counter == Ctr(c.mine) {
      assert Marked(c.mine, c.news.counter) == c.mine;
    }
  }

  /** A poll reply with the unit's present counter makes the section current: either the
      counters agree and so do the bytes, or the section is going to be fetched. */
  lemma PollMakesCurrent(c: Cell, g: Gap)
    requires Inv(c, g) && (g.known ==> g.unseen < 256) && c.news == Polled(Ctr(c.theirs))
    ensures Current(Step(c, Result(Delivered)), GapAfter(c, Result(Delivered), g))
  {
    ResultKeepsInv(c, Result(Delivered), g);
    if g.known { KnownIsVersion(c, g); }
  }

  lemma PollIteration(c: Cell, timer: Event, take: Event, g: Gap)
    requires Inv(c, g) && (g.known ==> g.unseen < 256) && c.news == Polled(Ctr(c.theirs))
    requires (timer == Timer || timer == Take(TakeNone)) && Enabled(c, timer)
    requires Enabled(Step(c, timer), Result(Delivered))
    requires take.Take? && Enabled(Step(Step(c, timer), Result(Delivered)), take)
    ensures Current(Step(Step(Step(c, timer), Result(Delivered)), take), g)
  {
    assert c.line == Elsewhere && Step(c, timer) == c;
    PollMakesCurrent(c, g);
    StepKeepsCurrent(Step(c, Result(Delivered)), take, g);
  }

  // ---- The two regimes together ----

  datatype Regime = Tracked | CatchUp

  predicate Holds(r: Regime, c: Cell, g: Gap) {
    match r
    case Tracked => Inv(c, g)
    case CatchUp => Current(c, g)
  }

  predicate Allowed(r: Regime, c: Cell, e: Event, g: Gap)
    requires c.Valid()
  {
    match r
    case Tracked => !Loses(c, e, g)
    case CatchUp => Quiet(c, e)
  }

  lemma StepKeeps(r: Regime, c: Cell, e: Event, g: Gap)
    requires Enabled(c, e) && Holds(r, c, g) && Allowed(r, c, e, g)
    ensures Holds(r, Step(c, e), GapAfter(c, e, g))
  {
    match r
    case Tracked => StepKeepsInv(c, e, g);
    case CatchUp => StepKeepsCurrent(c, e, g);
  }

  /** The three cell events of an iteration. */
  lemma IterationKeeps(r: Regime, c: Cell, timer: Event, outcome: Outcome, take: Event, g: Gap)
    requires timer == Timer || timer == Take(TakeNone)
    requires Enabled(c, timer) && Holds(r, c, g)
    requires var c1 := Step(c, timer);
             Enabled(c1, Result(outcome)) && Allowed(r, c1, Result(outcome), g) && take.Take?
             && Enabled(Step(c1, Result(outcome)), take)
    ensures var c1 := Step(c, timer);
            Holds(r, Step(Step(c1, Result(outcome)), take), GapAfter(c1, Result(outcome), g))
  {
    var c1 := Step(c, timer);
    var c2, g' := Step(c1, Result(outcome)), GapAfter(c1, Result(outcome), g);
    StepKeeps(r, c, timer, g);
    StepKeeps(r, c1, Result(outcome), g);
    StepKeeps(r, c2, take, g');
  }

  /** Neither the timers nor the dispatcher save a section that the result loses. */
  lemma IterationLoses(c: Cell, timer: Event, outcome: Outcome, take: Event, g: Gap)
    requires timer == Timer || timer == Take(TakeNone)
    requires Enabled(c, timer) && Inv(c, g)
    requires var c1 := Step(c, timer);
             Enabled(c1, Result(outcome)) && Loses(c1, Result(outcome), g) && take.Take?
             && Enabled(Step(c1, Result(outcome)), take)
    ensures var c1 := Step(c, timer);
            Stale(Step(Step(c1, Result(outcome)), take))
  {
    var c1 := Step(c, timer);
    StepKeepsInv(c, timer, g);
    LostIsStale(c1, Result(outcome), g);
    StaleStays(Step(c1, Result(outcome)), take);
  }

  lemma IterationStaysStale(c: Cell, timer: Event, outcome: Outcome, take: Event)
    requires timer == Timer || timer == Take(TakeNone)
    requires Enabled(c, timer) && Stale(c)
    requires var c1 := Step(c, timer);
             Enabled(c1, Result(outcome)) && take.Take? && Enabled(Step(c1, Result(outcome)), take)
    ensures var c1 := Step(c, timer);
            Stale(Step(Step(c1, Result(outcome)), take))
  {
    var c1 := Step(c, timer);
    StaleStays(c, timer);
    StaleStays(c1, Result(outcome));
    StaleStays(Step(c1, Result(outcome)), take);
  }
}
