/** What the handshake does while nobody answers: two polls 15 seconds apart, then a restart at 9600 baud. */
module Seeking {
  import opened Bytes
  import opened Codec
  import opened Requests
  import opened Firmware
  import opened Handshake
  import opened HandshakeTrace

  lemma {:induction false} RunJoins(f: Fw, a: seq<Input>, b: seq<Input>)
    requires Accepted(f, a) && Accepted(RunOf(f, a), b)
    ensures Accepted(f, a + b) && RunOf(f, a + b) == RunOf(RunOf(f, a), b)
    decreases |a|
  {
    if a == [] {
      assert a + b == b;
    } else if f.com == WbmCommunicating {
      assert (a + b)[0] == a[0] && (a + b)[1..] == a[1..] + b;
      RunJoins(Next(f, a[0]), a[1..], b);
    }
  }

  /** A call that reads nothing. */
  predicate Unanswered(i: Input) {
    |i.rx| == SERIAL_BUFFER && i.val <= 1 && !i.boot
  }

  predicate InTime(i: Input, since: U32) {
    Unanswered(i) && !Elapsed(i.visit.test, since, 15000)
  }

  predicate TooLate(i: Input, since: U32) {
    Unanswered(i) && Elapsed(i.visit.test, since, 15000)
  }

  lemma OneCall(f: Fw, i: Input)
    requires f.com == WbmCommunicating && Usable(f, i.visit, i.val, i.rx)
    ensures Accepted(f, [i]) && RunOf(f, [i]) == Next(f, i)
  {
    assert [i][1..] == [];
  }

  /** The call that starts a round, and the one that asks. */
  lemma StartAndAsk(f: Fw, start: Input, ask: Input)
    requires f.com == WbmCommunicating && f.conn == Init && !f.foundLink && Unanswered(start) && Unanswered(ask)
    ensures Usable(f, start.visit, start.val, start.rx)
    ensures Next(f, start) == f.(timeoutT := start.visit.start, conn := LinkConnecting, retries := 0)
    ensures Accepted(f, [start] + [ask])
    ensures RunOf(f, [start] + [ask]) ==
            f.(timeoutT := ask.visit.start, conn := TrySerialLink, retries := 1, sent := f.sent + [Poll])
  {
    var g := f.(timeoutT := start.visit.start, conn := LinkConnecting, retries := 0);
    OneCall(f, start);
    OneCall(g, ask);
    RunJoins(f, [start], [ask]);
  }

  /** Waiting changes nothing. */
  lemma {:induction false} WaitingStays(f: Fw, wait: seq<Input>)
    requires f.com == WbmCommunicating && f.conn == TrySerialLink
    requires forall i | 0 <= i < |wait| :: InTime(wait[i], f.timeoutT)
    ensures Accepted(f, wait) && RunOf(f, wait) == f
    decreases |wait|
  {
    if wait != [] {
      assert InTime(wait[0], f.timeoutT);
      assert Next(f, wait[0]) == f;
      WaitingStays(f, wait[1..]);
    }
  }

  /** 15 seconds without an answer to the first poll: it asks again. */
  lemma AsksAgain(f: Fw, wait: seq<Input>, late: Input, ask: Input)
    requires f.com == WbmCommunicating && f.conn == TrySerialLink && f.retries == 1 && !f.foundLink
    requires (forall i | 0 <= i < |wait| :: InTime(wait[i], f.timeoutT)) && TooLate(late, f.timeoutT)
    requires Unanswered(ask)
    ensures Accepted(f, wait + [late] + [ask])
    ensures RunOf(f, wait + [late] + [ask]) ==
            f.(timeoutT := ask.visit.start, retries := 2, sent := f.sent + [Poll])
  {
    WaitingStays(f, wait);
    OneCall(f, late);
    RunJoins(f, wait, [late]);
    var g := f.(timeoutT := late.visit.start, conn := LinkConnecting);
    assert Next(f, late) == g;
    OneCall(g, ask);
    RunJoins(f, wait + [late], [ask]);
  }

  /** 15 seconds without an answer to the second: it starts over at 9600 baud. */
  lemma StartsOver(f: Fw, wait: seq<Input>, late: Input)
    requires f.com == WbmCommunicating && f.conn == TrySerialLink && f.retries == 2
    requires (forall i | 0 <= i < |wait| :: InTime(wait[i], f.timeoutT)) && TooLate(late, f.timeoutT)
    ensures Accepted(f, wait + [late])
    ensures RunOf(f, wait + [late]) == f.(retries := 0, slow := true, conn := Init)
  {
    WaitingStays(f, wait);
    OneCall(f, late);
    RunJoins(f, wait, [late]);
  }

  /** A whole round without an answer: exactly two polls go out, the second after the first has waited its 15
      seconds, and when that has waited its own the handshake is back at its start, at 9600 baud. */
  lemma {:induction false} SilentRound(f: Fw, start: Input, ask1: Input, wait1: seq<Input>, late1: Input,
                                       ask2: Input, wait2: seq<Input>, late2: Input)
    requires f.com == WbmCommunicating && f.conn == Init && !f.foundLink
    requires Unanswered(start) && Unanswered(ask1) && Unanswered(ask2)
    requires forall i | 0 <= i < |wait1| :: InTime(wait1[i], ask1.visit.start)
    requires forall i | 0 <= i < |wait2| :: InTime(wait2[i], ask2.visit.start)
    requires TooLate(late1, ask1.visit.start) && TooLate(late2, ask2.visit.start)
    ensures var calls := [start] + [ask1] + (wait1 + [late1] + [ask2]) + (wait2 + [late2]);
            && Accepted(f, calls)
            && RunOf(f, calls) == f.(timeoutT := ask2.visit.start, retries := 0, slow := true,
                                     sent := f.sent + [Poll] + [Poll])
  {
    var f1 := f.(timeoutT := ask1.visit.start, conn := TrySerialLink, retries := 1, sent := f.sent + [Poll]);
    var f2 := f1.(timeoutT := ask2.visit.start, retries := 2, sent := f1.sent + [Poll]);
    StartAndAsk(f, start, ask1);
    AsksAgain(f1, wait1, late1, ask2);
    RunJoins(f, [start] + [ask1], wait1 + [late1] + [ask2]);
    StartsOver(f2, wait2, late2);
    RunJoins(f, [start] + [ask1] + (wait1 + [late1] + [ask2]), wait2 + [late2]);
  }
}
