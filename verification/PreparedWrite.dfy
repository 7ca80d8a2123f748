/** Queued BLE writes of an app image (src/ble.c): fragments gathered in a malloc'ed buffer and
    executed into the mirror. */
module PreparedWrite {
  import opened Bytes
  import opened EepromLayout
  import opened Firmware
  import UnitTask

  const PREPARE_BUF_MAX_SIZE := 1024

  datatype Status = GattOk | NoResources | InvalidOffset | InvalidAttrLen

  /** One prepare-write request. */
  datatype Fragment = Fragment(offset: nat, value: seq<Byte>)

  /** The answer to a fragment; the very first one is taken unchecked. */
  function StatusOf(open: bool, memory: bool, fr: Fragment): Status {
    if !open then (if memory then GattOk else NoResources)
    else if fr.offset > PREPARE_BUF_MAX_SIZE then InvalidOffset
    else if fr.offset + |fr.value| > PREPARE_BUF_MAX_SIZE then InvalidAttrLen
    else GattOk
  }

  function Applied(buf: seq<Byte>, fr: Fragment): seq<Byte>
    requires fr.offset + |fr.value| <= |buf|
  {
    Splice(buf, fr.offset, fr.value)
  }

  /** The buffer after a fragment, None for a null pointer; `garbage` is what malloc gives. A fragment that
      is not accepted changes nothing. */
  function Prepared(buf: Option<seq<Byte>>, fr: Fragment, memory: bool, garbage: seq<Byte>): Option<seq<Byte>>
    requires |garbage| == PREPARE_BUF_MAX_SIZE && (buf.Some? ==> |buf.value| == PREPARE_BUF_MAX_SIZE)
    requires buf.None? ==> fr.offset + |fr.value| <= PREPARE_BUF_MAX_SIZE
  {
    if StatusOf(buf.Some?, memory, fr) != GattOk then buf
    else Some(Applied(if buf.None? then garbage else buf.value, fr))
  }

  /** prepare_write_env, with the unit task it writes into. */
  class PrepareEnv {
    var buf: array?<Byte>
    var len: nat
    const task: UnitTask.Task

    ghost predicate Valid()
      reads this, task, task.eeprom, task.port, task.port.cache, task.port.buff
    {
      && task.Valid()
      && (buf != null ==>
           buf.Length == PREPARE_BUF_MAX_SIZE && buf !in {task.eeprom, task.port.cache, task.port.buff})
    }

    constructor (task: UnitTask.Task)
      requires task.Valid()
      ensures Valid() && buf == null && this.task == task
    {
      this.task, buf, len := task, null, 0;
    }

    function View(): Option<seq<Byte>>
      reads this, buf
    {
      if buf == null then None else Some(buf[..])
    }

    /** prepare_write_event_env; `memory`: malloc succeeds. The first fragment must fit, because
        the source copies it without a check. */
    method Prepare(fr: Fragment, memory: bool) returns (status: Status, ghost garbage: seq<Byte>)
      requires Valid()
      requires buf == null ==> fr.offset + |fr.value| <= PREPARE_BUF_MAX_SIZE
      modifies this`buf, this`len, buf
      ensures Valid()
      ensures status == StatusOf(old(buf) != null, memory, fr)
      ensures |garbage| == PREPARE_BUF_MAX_SIZE && View() == Prepared(old(View()), fr, memory, garbage)
      ensures old(buf) != null ==> buf == old(buf)
      ensures old(buf) == null && buf != null ==> fresh(buf)
      ensures len == (if old(buf) == null then 0 else old(len)) + if status == GattOk then |fr.value| else 0
    {
      status, garbage := GattOk, Zeros(PREPARE_BUF_MAX_SIZE);
      if buf == null {
        len := 0;
        if memory { buf := new Byte[PREPARE_BUF_MAX_SIZE]; } else { status := NoResources; }
      } else if fr.offset > PREPARE_BUF_MAX_SIZE {
        status := InvalidOffset;
      } else if fr.offset + |fr.value| > PREPARE_BUF_MAX_SIZE {
        status := InvalidAttrLen;
      }
      if status != GattOk { return; }
      garbage := buf[..];
      Memcpy(buf, fr.offset, fr.value);
      len := len + |fr.value|;
    }

    /** exec_write_event_env: the image goes to the mirror whole and asks for all five writes. */
    method Execute(commit: bool)
      requires Valid()
      modifies this`buf, this`len, task`mask, task.eeprom
      ensures Valid() && buf == null && len == 0
      ensures task.View() == if commit && old(buf) != null then
                               TakeImage(old(task.View()), old(buf[..])[..EEPROM_SIZE])
                             else old(task.View())
    {
      if commit && buf != null { task.ReceiveImage(buf[..], []); }
      if buf != null { buf := null; }
      len := 0;
    }
  }

  // ---- Which fragments are accepted ----

  /** The first fragment is accepted exactly if there is memory; a later one exactly if it ends within
      1024 bytes, and a refused one is told whether it begins there. */
  lemma AcceptedExactly(memory: bool, fr: Fragment)
    ensures StatusOf(false, memory, fr) == (if memory then GattOk else NoResources)
    ensures StatusOf(true, memory, fr) == GattOk <==> fr.offset + |fr.value| <= 1024
    ensures StatusOf(true, memory, fr) == InvalidOffset <==> fr.offset > 1024
    ensures StatusOf(true, memory, fr) == InvalidAttrLen <==> fr.offset <= 1024 < fr.offset + |fr.value|
  {
  }

  /** A run of prepare-writes from a null pointer whose allocation succeeds: the buffer, and the answers. */
  function Queued(fragments: seq<Fragment>, garbage: seq<Byte>): (r: (Option<seq<Byte>>, seq<Status>))
    requires |garbage| == PREPARE_BUF_MAX_SIZE
    requires fragments != [] ==> fragments[0].offset + |fragments[0].value| <= PREPARE_BUF_MAX_SIZE
    ensures r.0.Some? <==> fragments != []
    ensures r.0.Some? ==> |r.0.value| == PREPARE_BUF_MAX_SIZE
    ensures |r.1| == |fragments|
  {
    if fragments == [] then (None, [])
    else
      var n := |fragments| - 1;
      var (buf, answers) := Queued(fragments[..n], garbage);
      (Prepared(buf, fragments[n], true, garbage), answers + [StatusOf(buf.Some?, true, fragments[n])])
  }

  predicate EndsWithin(fr: Fragment) {
    fr.offset + |fr.value| <= 1024
  }

  predicate Within(fragments: seq<Fragment>) {
    forall i | 0 <= i < |fragments| :: EndsWithin(fragments[i])
  }

  function Accepted(fragments: seq<Fragment>): (r: seq<Fragment>)
    ensures Within(r)
  {
    if fragments == [] then []
    else
      var n := |fragments| - 1;
      Accepted(fragments[..n]) + if EndsWithin(fragments[n]) then [fragments[n]] else []
  }

  lemma {:induction false} AllAccepted(fragments: seq<Fragment>)
    requires Within(fragments)
    ensures Accepted(fragments) == fragments
  {
    if fragments != [] {
      var n := |fragments| - 1;
      AllAccepted(fragments[..n]);
      assert fragments == fragments[..n] + [fragments[n]];
    }
  }

  lemma GatheredNext(buf: seq<Byte>, fragments: seq<Fragment>, fr: Fragment)
    requires |buf| == PREPARE_BUF_MAX_SIZE && Within(fragments) && EndsWithin(fr)
    ensures Within(fragments + [fr]) && Gathered(buf, fragments + [fr]) == Applied(Gathered(buf, fragments), fr)
  {
    var all := fragments + [fr];
    assert all[..|all| - 1] == fragments && all[|all| - 1] == fr;
  }

  lemma AcceptedNext(fragments: seq<Fragment>, fr: Fragment)
    ensures Accepted(fragments + [fr]) ==
            if EndsWithin(fr) then Accepted(fragments) + [fr] else Accepted(fragments)
  {
    var all := fragments + [fr];
    assert all[..|all| - 1] == fragments && all[|all| - 1] == fr;
    assert Accepted(fragments) + [] == Accepted(fragments);
  }

  /** The next answer, and the buffer after it. */
  lemma QueuedNext(fragments: seq<Fragment>, fr: Fragment, garbage: seq<Byte>)
    requires |garbage| == PREPARE_BUF_MAX_SIZE && EndsWithin((fragments + [fr])[0])
    ensures fragments != [] ==> EndsWithin(fragments[0])
    ensures var (buf, answers) := Queued(fragments, garbage);
            Queued(fragments + [fr], garbage) ==
            (Prepared(buf, fr, true, garbage), answers + [StatusOf(buf.Some?, true, fr)])
  {
    var all := fragments + [fr];
    assert all[..|all| - 1] == fragments && all[|all| - 1] == fr;
  }

  /** The buffer is what the accepted fragments leave, and a fragment was accepted exactly if it ends
      within 1024 bytes. */
  ghost predicate IsGathered(fragments: seq<Fragment>, garbage: seq<Byte>, buf: Option<seq<Byte>>,
                             answers: seq<Status>)
    requires |garbage| == PREPARE_BUF_MAX_SIZE
  {
    && buf == Some(Gathered(garbage, Accepted(fragments))) && |answers| == |fragments|
    && forall i | 0 <= i < |fragments| :: answers[i] == GattOk <==> EndsWithin(fragments[i])
  }

  lemma IsGatheredNext(fragments: seq<Fragment>, garbage: seq<Byte>, buf: Option<seq<Byte>>,
                       answers: seq<Status>, fr: Fragment)
    requires |garbage| == PREPARE_BUF_MAX_SIZE && IsGathered(fragments, garbage, buf, answers)
    ensures IsGathered(fragments + [fr], garbage, Prepared(buf, fr, true, garbage),
                       answers + [StatusOf(true, true, fr)])
  {
    AcceptedNext(fragments, fr);
    AcceptedExactly(true, fr);
    if EndsWithin(fr) { GatheredNext(garbage, Accepted(fragments), fr); }
  }

  /** Whatever fragments come after a first one that fits: the buffer is what the accepted ones leave, in
      their order, and a fragment is accepted exactly if it ends within 1024 bytes. */
  lemma {:induction false} RunGathersAccepted(garbage: seq<Byte>, fragments: seq<Fragment>)
    requires |garbage| == PREPARE_BUF_MAX_SIZE && fragments != [] && EndsWithin(fragments[0])
    ensures var (buf, answers) := Queued(fragments, garbage);
            IsGathered(fragments, garbage, buf, answers)
  {
    var n := |fragments| - 1;
    var earlier, fr := fragments[..n], fragments[n];
    assert fragments == earlier + [fr];
    QueuedNext(earlier, fr, garbage);
    if n == 0 {
      FirstGathered(garbage, fr);
    } else {
      RunGathersAccepted(garbage, earlier);
      var (buf, answers) := Queued(earlier, garbage);
      IsGatheredNext(earlier, garbage, buf, answers, fr);
    }
  }

  lemma OneAccepted(fr: Fragment)
    requires EndsWithin(fr)
    ensures Accepted([fr]) == [fr]
  {
    assert [fr][..0] == [];
  }

  lemma OneGathered(garbage: seq<Byte>, fr: Fragment)
    requires |garbage| == PREPARE_BUF_MAX_SIZE && EndsWithin(fr)
    ensures Gathered(garbage, [fr]) == Applied(garbage, fr)
  {
    assert [fr][..0] == [];
  }

  lemma FirstGathered(garbage: seq<Byte>, fr: Fragment)
    requires |garbage| == PREPARE_BUF_MAX_SIZE && EndsWithin(fr)
    ensures IsGathered([fr], garbage, Prepared(None, fr, true, garbage), [StatusOf(false, true, fr)])
  {
    var one := [fr];
    OneAccepted(fr);
    OneGathered(garbage, fr);
    assert Gathered(garbage, Accepted(one)) == Applied(garbage, fr);
    assert Prepared(None, fr, true, garbage) == Some(Applied(garbage, fr));
  }

  /** The buffer after the fragments, one by one. */
  function Gathered(buf: seq<Byte>, fragments: seq<Fragment>): (r: seq<Byte>)
    requires |buf| == PREPARE_BUF_MAX_SIZE && Within(fragments)
    ensures |r| == |buf|
  {
    if fragments == [] then buf
    else Applied(Gathered(buf, fragments[..|fragments| - 1]), fragments[|fragments| - 1])
  }

  /** A fragment whose bytes are the image's at its offset. */
  predicate Part(fr: Fragment, image: Image) {
    fr.offset + |fr.value| <= EEPROM_SIZE && fr.value == image[fr.offset..fr.offset + |fr.value|]
  }

  predicate Covers(fr: Fragment, i: nat) {
    fr.offset <= i < fr.offset + |fr.value|
  }

  /** Fragments of one image that together cover it; they may overlap and come in any order. */
  ghost predicate Splits(fragments: seq<Fragment>, image: Image) {
    && (forall fr | fr in fragments :: Part(fr, image))
    && (forall i | 0 <= i < EEPROM_SIZE :: CoveredAt(fragments, i))
  }

  ghost predicate CoveredAt(fragments: seq<Fragment>, i: nat) {
    exists k | 0 <= k < |fragments| :: Covers(fragments[k], i)
  }

  predicate Holds(buf: seq<Byte>, fr: Fragment) {
    fr.offset + |fr.value| <= |buf| && buf[fr.offset..fr.offset + |fr.value|] == fr.value
  }

  /** A later fragment of the same image cannot spoil an earlier one. */
  lemma LaterKeepsEarlier(buf: seq<Byte>, later: Fragment, earlier: Fragment, image: Image)
    requires |buf| == PREPARE_BUF_MAX_SIZE && Part(later, image) && Part(earlier, image) && Holds(buf, earlier)
    ensures Holds(Applied(buf, later), earlier)
  {
    var after := Applied(buf, later);
    forall j | 0 <= j < |earlier.value|
      ensures after[earlier.offset + j] == earlier.value[j]
    {
      var x := earlier.offset + j;
      assert earlier.value[j] == image[x];
      if Covers(later, x) {
        assert after[x] == after[later.offset..later.offset + |later.value|][x - later.offset];
      } else {
        assert after[x] == buf[x] == buf[earlier.offset..earlier.offset + |earlier.value|][j];
      }
    }
  }

  lemma {:induction false} GatheredHolds(garbage: seq<Byte>, fragments: seq<Fragment>, image: Image)
    requires |garbage| == PREPARE_BUF_MAX_SIZE
    requires forall fr | fr in fragments :: Part(fr, image)
    requires Within(fragments)
    ensures forall fr | fr in fragments :: Holds(Gathered(garbage, fragments), fr)
    decreases |fragments|
  {
    if fragments != [] {
      var n := |fragments| - 1;
      GatheredHolds(garbage, fragments[..n], image);
      forall fr | fr in fragments
        ensures Holds(Gathered(garbage, fragments), fr)
      {
        if fr != fragments[n] {
          assert fr in fragments[..n];
          LaterKeepsEarlier(Gathered(garbage, fragments[..n]), fragments[n], fr, image);
        }
      }
    }
  }

  lemma SplitIsWithin(fragments: seq<Fragment>, image: Image)
    requires Splits(fragments, image)
    ensures fragments != [] && Within(fragments)
  {
    assert CoveredAt(fragments, 0);
    forall i | 0 <= i < |fragments|
      ensures EndsWithin(fragments[i])
    {
      assert Part(fragments[i], image);
    }
  }

  /** Any split of an image into fragments, overlapping or not, in any order: every fragment is accepted, and
      they are gathered into exactly that image, whatever the malloc'ed buffer held. */
  lemma {:induction false} QueuedWriteGathersImage(garbage: seq<Byte>, fragments: seq<Fragment>, image: Image)
    requires |garbage| == PREPARE_BUF_MAX_SIZE && Splits(fragments, image)
    ensures fragments != [] && EndsWithin(fragments[0])
    ensures var (buf, answers) := Queued(fragments, garbage);
            && (forall i | 0 <= i < |fragments| :: answers[i] == GattOk)
            && buf.Some? && buf.value[..EEPROM_SIZE] == image
  {
    SplitIsWithin(fragments, image);
    RunGathersAccepted(garbage, fragments);
    AllAccepted(fragments);
    GatheredIsImage(garbage, fragments, image);
  }

  lemma GatheredIsImage(garbage: seq<Byte>, fragments: seq<Fragment>, image: Image)
    requires |garbage| == PREPARE_BUF_MAX_SIZE && Within(fragments) && Splits(fragments, image)
    ensures Gathered(garbage, fragments)[..EEPROM_SIZE] == image
  {
    var buf := Gathered(garbage, fragments);
    GatheredHolds(garbage, fragments, image);
    forall i | 0 <= i < EEPROM_SIZE
      ensures buf[i] == image[i]
    {
      assert CoveredAt(fragments, i);
      var k :| 0 <= k < |fragments| && Covers(fragments[k], i);
      HeldByte(buf, fragments[k], image, i);
    }
  }

  lemma HeldByte(buf: seq<Byte>, fr: Fragment, image: Image, i: nat)
    requires |buf| == PREPARE_BUF_MAX_SIZE && Holds(buf, fr) && Part(fr, image) && Covers(fr, i)
    ensures buf[i] == image[i]
  {
    assert buf[i] == buf[fr.offset..fr.offset + |fr.value|][i - fr.offset];
    assert image[i] == image[fr.offset..fr.offset + |fr.value|][i - fr.offset];
  }
}
