/** The streamed firmware store (_http1_event_handler of src/main.c): a new image replaces the
    stored one only if its version, found in the first three chunks, is another. */
module FirmwareStore {
  import opened Bytes

  const BUFFER_TEST := 1536

  /** The version is two binary-coded bytes of the image. */
  function Version(buffer: seq<Byte>): nat
    requires |buffer| == BUFFER_TEST
  {
    buffer[1173] as int * 100 + buffer[1172] as int / 16 * 10 + buffer[1172] as int % 16
  }

  /** file: firmware.bin on flash; writing: File_opened, the file is being written; version, load and
      count: Firmware_version, Load_Counter and Data_Counter; pointer: Pointer as an offset;
      behind: the memory behind Buffer_Test, which a write of more bytes than that goes on reading. */
  datatype Store = Store(file: Option<seq<Byte>>, writing: bool, version: nat, load: nat, count: nat,
                         buffer: seq<Byte>, pointer: nat, behind: seq<Byte>)
  {
    predicate Valid() {
      && |buffer| == BUFFER_TEST && |behind| == WORD16 && load < 3 && count < WORD16
      && (writing ==> file.Some? && version == 0)
    }
  }

  /** fread of the start of the file over the buffer. */
  function ReadOver(buffer: seq<Byte>, file: seq<Byte>): (r: seq<Byte>)
    requires |buffer| == BUFFER_TEST
    ensures |r| == BUFFER_TEST
  {
    Splice(buffer, 0, if |file| > BUFFER_TEST then file[..BUFFER_TEST] else file)
  }

  /** HTTP_EVENT_ON_CONNECTED; `writable`: a file can be writing for writing. */
  function Connect(s: Store, writable: bool): (t: Store)
    requires s.Valid()
    ensures t.Valid()
  {
    if s.file.None? then
      if writable then s.(file := Some([]), writing := true, version := 0) else s.(writing := false, version := 0)
    else
      s.(writing := false, version := Version(ReadOver(s.buffer, s.file.value)),
         buffer := Zeros(BUFFER_TEST), pointer := 0)
  }

  /** The state once a chunk is in the buffer. */
  function Loaded(s: Store, chunk: seq<Byte>): Store
    requires s.Valid() && s.pointer + |chunk| <= BUFFER_TEST
  {
    s.(buffer := Splice(s.buffer, s.pointer, chunk), pointer := s.pointer + |chunk|,
       count := (s.count + |chunk|) % WORD16)
  }

  /** The copy into the buffer does not leave it. */
  predicate Fits(s: Store, chunk: seq<Byte>)
    requires s.Valid()
  {
    s.version != 0 ==> s.pointer + |chunk| <= BUFFER_TEST
  }

  /** HTTP_EVENT_ON_DATA. */
  function OnData(s: Store, chunk: seq<Byte>, writable: bool): (t: Store)
    requires s.Valid() && Fits(s, chunk)
    ensures t.Valid()
  {
    if s.version != 0 then
      var t := Loaded(s, chunk);
      if s.load + 1 < 3 then t.(load := s.load + 1)
      else if Version(t.buffer) == s.version then t.(load := 0, version := 0)
      else
        t.(file := if writable then Some((t.buffer + t.behind)[..t.count]) else None, writing := writable,
           load := 0, version := 0)
    else if s.writing then s.(file := Some(s.file.value + chunk))
    else s
  }

  /** HTTP_EVENT_ON_FINISH. */
  function Finish(s: Store): Store {
    if s.writing then s.(writing := false, version := 0) else s
  }

  /** HTTP_EVENT_ERROR. */
  function Fail(s: Store): Store {
    if s.writing then s.(writing := false, load := 0, version := 0, file := None) else s
  }

  predicate FitAll(s: Store, chunks: seq<seq<Byte>>, writable: bool)
    requires s.Valid()
    decreases |chunks|
  {
    chunks == [] || (Fits(s, chunks[0]) && FitAll(OnData(s, chunks[0], writable), chunks[1..], writable))
  }

  function DataAll(s: Store, chunks: seq<seq<Byte>>, writable: bool): (t: Store)
    requires s.Valid() && FitAll(s, chunks, writable)
    ensures t.Valid()
    decreases |chunks|
  {
    if chunks == [] then s else DataAll(OnData(s, chunks[0], writable), chunks[1..], writable)
  }

  function Body(chunks: seq<seq<Byte>>): seq<Byte> {
    if chunks == [] then [] else chunks[0] + Body(chunks[1..])
  }

  /** One whole check: connect, the body in chunks, finish. */
  function Check(s: Store, chunks: seq<seq<Byte>>, writable: bool): Store
    requires s.Valid() && FitAll(Connect(s, writable), chunks, writable)
  {
    Finish(DataAll(Connect(s, writable), chunks, writable))
  }

  // ---- What a check does ----

  lemma {:induction false} Appends(s: Store, chunks: seq<seq<Byte>>, writable: bool)
    requires s.Valid() && FitAll(s, chunks, writable) && s.writing
    ensures DataAll(s, chunks, writable) == s.(file := Some(s.file.value + Body(chunks)))
    decreases |chunks|
  {
    if chunks == [] {
      assert s.file.value + [] == s.file.value;
    } else {
      Appends(OnData(s, chunks[0], writable), chunks[1..], writable);
      assert s.file.value + chunks[0] + Body(chunks[1..]) == s.file.value + Body(chunks);
    }
  }

  lemma {:induction false} Ignores(s: Store, chunks: seq<seq<Byte>>, writable: bool)
    requires s.Valid() && FitAll(s, chunks, writable) && !s.writing && s.version == 0
    ensures DataAll(s, chunks, writable) == s
    decreases |chunks|
  {
    if chunks != [] { Ignores(s, chunks[1..], writable); }
  }

  /** `body` has been loaded so far, on top of the `before` bytes counted by earlier checks. */
  predicate Loading(s: Store, body: seq<Byte>, before: nat) {
    && s.Valid() && s.version != 0 && |body| <= BUFFER_TEST
    && s.buffer == Padded(body, BUFFER_TEST) && s.pointer == |body| && s.count == (before + |body|) % WORD16
  }

  lemma LoadOne(s: Store, chunk: seq<Byte>, writable: bool, body: seq<Byte>, before: nat)
    requires Loading(s, body, before) && Fits(s, chunk) && s.load < 2
    ensures var t := OnData(s, chunk, writable);
            Loading(t, body + chunk, before) && t == Loaded(s, chunk).(load := s.load + 1)
  {
    SplicedOn(body, chunk);
    CountAdds(before, |body|, |chunk|);
    assert |body + chunk| == |body| + |chunk|;
  }

  /** How many bytes have been counted, by this check and the ones before, modulo 2^16: as many
      go to the new file first. */
  function Count(first: seq<Byte>, before: nat): nat {
    (before + |first|) % WORD16
  }

  /** The first bytes from the buffer on, zeros behind what was loaded and then what lies behind the
      buffer. */
  function Counted(first: seq<Byte>, before: nat, behind: seq<Byte>): seq<Byte>
    requires |first| <= BUFFER_TEST && |behind| == WORD16
  {
    (Padded(first, BUFFER_TEST) + behind)[..Count(first, before)]
  }

  /** The version of an image: that of its start, filled up with zeros. */
  function ImageVersion(file: seq<Byte>): nat {
    Version(Padded(if |file| > BUFFER_TEST then file[..BUFFER_TEST] else file, BUFFER_TEST))
  }

  /** What the loaded chunks make of a stored file; `same`: they have its version. */
  predicate Decided(s: Store, t: Store, first: seq<Byte>, before: nat, writable: bool, same: bool) {
    && s.Valid() && t.Valid() && t.version == 0 && t.load == 0
    && |first| <= BUFFER_TEST && t.count == Count(first, before)
    && if same then t.file == s.file && t.writing == s.writing
       else
         && t.writing == writable
         && t.file == if writable then Some(Counted(first, before, s.behind)) else None
  }

  lemma LoadedShows(s: Store, chunk: seq<Byte>, body: seq<Byte>, before: nat)
    requires Loading(s, body, before) && s.pointer + |chunk| <= BUFFER_TEST
    ensures var t, all := Loaded(s, chunk), body + chunk;
            && |all| <= BUFFER_TEST && t.buffer == Padded(all, BUFFER_TEST) && t.count == Count(all, before)
            && Version(t.buffer) == ImageVersion(all)
  {
    SplicedOn(body, chunk);
    CountAdds(before, |body|, |chunk|);
    assert |body + chunk| == |body| + |chunk|;
  }

  lemma SplicedOn(body: seq<Byte>, chunk: seq<Byte>)
    requires |body| + |chunk| <= BUFFER_TEST
    ensures Splice(Padded(body, BUFFER_TEST), |body|, chunk) == Padded(body + chunk, BUFFER_TEST)
  {
  }

  lemma CountAdds(n: nat, a: nat, b: nat)
    ensures ((n + a) % WORD16 + b) % WORD16 == (n + (a + b)) % WORD16
  {
  }

  /** The third chunk decides. */
  lemma LoadLast(s: Store, chunk: seq<Byte>, writable: bool, body: seq<Byte>, before: nat)
    requires Loading(s, body, before) && Fits(s, chunk) && s.load == 2
    ensures var all := body + chunk;
            Decided(s, OnData(s, chunk, writable), all, before, writable, ImageVersion(all) == s.version)
  {
    LoadedShows(s, chunk, body, before);
  }

  /** The bytes of the first `n` chunks, and the chunks after them. */
  function Leading(chunks: seq<seq<Byte>>, n: nat): seq<Byte>
    requires n <= |chunks|
    decreases n
  {
    if n == 0 then [] else chunks[0] + Leading(chunks[1..], n - 1)
  }

  function After(chunks: seq<seq<Byte>>, n: nat): (r: seq<seq<Byte>>)
    requires n <= |chunks|
    decreases n
  {
    if n == 0 then chunks else After(chunks[1..], n - 1)
  }

  lemma {:induction false} BodySplits(chunks: seq<seq<Byte>>, n: nat)
    requires n <= |chunks|
    ensures Body(chunks) == Leading(chunks, n) + Body(After(chunks, n))
    decreases n
  {
    if n > 0 { BodySplits(chunks[1..], n - 1); }
  }

  /** Too few chunks decide nothing, but they are counted. */
  lemma {:induction false} TooFewChunks(s: Store, chunks: seq<seq<Byte>>, writable: bool, body: seq<Byte>, before: nat)
    requires Loading(s, body, before) && !s.writing && FitAll(s, chunks, writable) && s.load + |chunks| < 3
    ensures var t := DataAll(s, chunks, writable);
            t.file == s.file && !t.writing && t.load == s.load + |chunks| && t.version == s.version
    ensures DataAll(s, chunks, writable).count == Count(Body(chunks), s.count)
    decreases |chunks|
  {
    if chunks != [] {
      LoadOne(s, chunks[0], writable, body, before);
      TooFewChunks(OnData(s, chunks[0], writable), chunks[1..], writable, body + chunks[0], before);
      CountAdds(s.count, |chunks[0]|, |Body(chunks[1..])|);
    }
  }

  /** Once the load counter is three, the rest of the chunks finds `t`. */
  ghost predicate Decides(s: Store, chunks: seq<seq<Byte>>, writable: bool, t: Store, body: seq<Byte>, before: nat,
                          same: bool)
    requires s.Valid() && FitAll(s, chunks, writable) && s.load + |chunks| >= 3
  {
    var rest := After(chunks, 3 - s.load);
    && Decided(s, t, body + Leading(chunks, 3 - s.load), before, writable, same)
    && FitAll(t, rest, writable) && DataAll(s, chunks, writable) == DataAll(t, rest, writable)
  }

  lemma LastDecides(s: Store, chunks: seq<seq<Byte>>, writable: bool, body: seq<Byte>, before: nat)
    requires Loading(s, body, before) && FitAll(s, chunks, writable) && s.load == 2 && |chunks| >= 1
    ensures Leading(chunks, 1) == chunks[0]
    ensures Decides(s, chunks, writable, OnData(s, chunks[0], writable), body, before,
                    ImageVersion(body + chunks[0]) == s.version)
  {
    assert chunks[0] + [] == chunks[0];
    Unrolled(s, chunks, writable);
    LoadLast(s, chunks[0], writable, body, before);
  }

  lemma RestMoves(s: Store, s1: Store, chunks: seq<seq<Byte>>, writable: bool, t: Store, n: nat)
    requires s.Valid() && t.Valid() && |chunks| >= 1 && FitAll(s, chunks, writable) && 0 < n <= |chunks|
    requires s1 == OnData(s, chunks[0], writable)
    requires FitAll(s1, chunks[1..], writable) && FitAll(t, After(chunks[1..], n - 1), writable)
    requires DataAll(s1, chunks[1..], writable) == DataAll(t, After(chunks[1..], n - 1), writable)
    ensures After(chunks, n) == After(chunks[1..], n - 1)
    ensures DataAll(s, chunks, writable) == DataAll(t, After(chunks, n), writable)
  {
    Unrolled(s, chunks, writable);
  }

  lemma EarlierDecides(s: Store, chunks: seq<seq<Byte>>, writable: bool, t: Store, body: seq<Byte>, before: nat,
                       same: bool)
    requires Loading(s, body, before) && FitAll(s, chunks, writable) && s.load < 2 && s.load + |chunks| >= 3
    requires var s1 := OnData(s, chunks[0], writable);
             s1.load == s.load + 1 && Decides(s1, chunks[1..], writable, t, body + chunks[0], before, same)
    ensures Decides(s, chunks, writable, t, body, before, same)
  {
    var s1, n := OnData(s, chunks[0], writable), 3 - s.load;
    LeadingNext(body, chunks, n);
    LoadOne(s, chunks[0], writable, body, before);
    DecidedEarlier(s, s1, t, body + Leading(chunks, n), before, writable, same);
    RestMoves(s, s1, chunks, writable, t, n);
  }

  lemma Associates(a: seq<Byte>, b: seq<Byte>, c: seq<Byte>)
    ensures a + b + c == a + (b + c)
  {
  }

  lemma LeadingNext(body: seq<Byte>, chunks: seq<seq<Byte>>, n: nat)
    requires 0 < n <= |chunks|
    ensures body + Leading(chunks, n) == body + chunks[0] + Leading(chunks[1..], n - 1)
  {
    Associates(body, chunks[0], Leading(chunks[1..], n - 1));
  }

  lemma {:induction false} EnoughChunks(s: Store, chunks: seq<seq<Byte>>, writable: bool, body: seq<Byte>,
                                        before: nat, all: seq<Byte>) returns (t: Store, same: bool)
    requires Loading(s, body, before) && FitAll(s, chunks, writable) && s.load + |chunks| >= 3
    requires all == body + Leading(chunks, 3 - s.load)
    ensures Decides(s, chunks, writable, t, body, before, same)
    ensures same <==> ImageVersion(all) == s.version
    decreases |chunks|
  {
    var s1 := OnData(s, chunks[0], writable);
    LeadingNext(body, chunks, 3 - s.load);
    if s.load == 2 {
      assert all == body + chunks[0];
      LastDecides(s, chunks, writable, body, before);
      t, same := s1, ImageVersion(body + chunks[0]) == s.version;
    } else {
      LoadOne(s, chunks[0], writable, body, before);
      t, same := EnoughChunks(s1, chunks[1..], writable, body + chunks[0], before, all);
      EarlierDecides(s, chunks, writable, t, body, before, same);
    }
  }

  lemma Unrolled(s: Store, chunks: seq<seq<Byte>>, writable: bool)
    requires s.Valid() && |chunks| >= 1 && FitAll(s, chunks, writable)
    ensures Fits(s, chunks[0]) && FitAll(OnData(s, chunks[0], writable), chunks[1..], writable)
    ensures DataAll(s, chunks, writable) == DataAll(OnData(s, chunks[0], writable), chunks[1..], writable)
  {
  }

  lemma DecidedEarlier(s: Store, s1: Store, t: Store, lead: seq<Byte>, before: nat, writable: bool, same: bool)
    requires s.Valid() && Decided(s1, t, lead, before, writable, same)
    requires s1.file == s.file && s1.writing == s.writing && s1.behind == s.behind
    ensures Decided(s, t, lead, before, writable, same)
  {
  }

  /** The state before a check: no file being written. An earlier check that ended with fewer than
      three chunks may have left the load counter at 1 or 2. */
  predicate AtRest(s: Store) {
    s.Valid() && !s.writing
  }

  /** Without a stored file the body becomes the file, however it is chunked. */
  lemma NoFileTakesBody(s: Store, chunks: seq<seq<Byte>>, writable: bool)
    requires AtRest(s) && s.file.None? && FitAll(Connect(s, writable), chunks, writable)
    ensures Check(s, chunks, writable).file == if writable then Some(Body(chunks)) else None
    ensures AtRest(Check(s, chunks, writable))
  {
    if writable {
      Appends(Connect(s, writable), chunks, writable);
      assert [] + Body(chunks) == Body(chunks);
    } else {
      Ignores(Connect(s, writable), chunks, writable);
    }
  }

  /** What a whole check makes of the stored file: `lead` are the bytes of the deciding chunks,
      `rest` those of the chunks after them. */
  predicate Outcome(stored: Option<seq<Byte>>, file: Option<seq<Byte>>, lead: seq<Byte>, rest: seq<Byte>,
                    writable: bool, before: nat, behind: seq<Byte>, same: bool)
  {
    && |lead| <= BUFFER_TEST && |behind| == WORD16
    && file == if same then stored else if writable then Some(Counted(lead, before, behind) + rest) else None
  }

  lemma FinishOutcome(s: Store, t: Store, rest: seq<seq<Byte>>, writable: bool, lead: seq<Byte>, before: nat,
                      same: bool)
    requires Decided(s, t, lead, before, writable, same) && !s.writing && FitAll(t, rest, writable)
    ensures Outcome(s.file, Finish(DataAll(t, rest, writable)).file, lead, Body(rest), writable, before, s.behind,
                    same)
    ensures Finish(DataAll(t, rest, writable)).count == Count(lead, before)
    ensures Finish(DataAll(t, rest, writable)).load == 0
  {
    if t.writing { Appends(t, rest, writable); } else { Ignores(t, rest, writable); }
  }

  /** The file after a check that found the stored version `v`, not 0, if enough chunks came. */
  lemma EnoughChunksOutcome(s: Store, chunks: seq<seq<Byte>>, writable: bool, before: nat, n: nat)
    returns (same: bool)
    requires Loading(s, [], before) && !s.writing && FitAll(s, chunks, writable) && n == 3 - s.load <= |chunks|
    ensures Outcome(s.file, Finish(DataAll(s, chunks, writable)).file, Leading(chunks, n), Body(After(chunks, n)),
                    writable, before, s.behind, same)
    ensures same <==> ImageVersion(Leading(chunks, n)) == s.version
    ensures Finish(DataAll(s, chunks, writable)).count == Count(Leading(chunks, n), before)
    ensures Finish(DataAll(s, chunks, writable)).load == 0
  {
    var t;
    var lead := Leading(chunks, n);
    assert [] + lead == lead;
    t, same := EnoughChunks(s, chunks, writable, [], before, lead);
    FinishOutcome(s, t, After(chunks, n), writable, lead, before, same);
  }

  function StoredVersion(s: Store): nat
    requires s.Valid() && s.file.Some?
  {
    Version(ReadOver(s.buffer, s.file.value))
  }

  lemma StartsLoading(s: Store, writable: bool)
    requires AtRest(s) && s.file.Some? && StoredVersion(s) != 0
    ensures var c := Connect(s, writable);
            && Loading(c, [], s.count) && c.load == s.load && !c.writing
            && c.version == StoredVersion(s) && c.file == s.file && c.behind == s.behind
  {
    assert Connect(s, writable).buffer == Padded([], BUFFER_TEST);
  }

  /** A stored file stays if its version reads 0 or if too few chunks come, which the next check
      then finds counted. */
  lemma StoredFileKept(s: Store, chunks: seq<seq<Byte>>, writable: bool)
    requires AtRest(s) && s.file.Some? && FitAll(Connect(s, writable), chunks, writable)
    requires StoredVersion(s) == 0 || s.load + |chunks| < 3
    ensures var t := Check(s, chunks, writable);
            && t.file == s.file && AtRest(t)
            && t.load == (if StoredVersion(s) == 0 then s.load else s.load + |chunks|)
            && t.count == (if StoredVersion(s) == 0 then s.count else Count(Body(chunks), s.count))
  {
    if StoredVersion(s) == 0 {
      Ignores(Connect(s, writable), chunks, writable);
    } else {
      StartsLoading(s, writable);
      TooFewChunks(Connect(s, writable), chunks, writable, [], s.count);
    }
  }

  /** Otherwise it stays if the versions match; if not, it is replaced by the body, whose leading
      chunks are cut or filled up with zeros to the number of bytes counted by this check and
      earlier ones. */
  lemma StoredFileReplaced(s: Store, chunks: seq<seq<Byte>>, writable: bool, n: nat) returns (same: bool)
    requires AtRest(s) && s.file.Some? && FitAll(Connect(s, writable), chunks, writable)
    requires StoredVersion(s) != 0 && n == 3 - s.load <= |chunks|
    ensures Outcome(s.file, Check(s, chunks, writable).file, Leading(chunks, n), Body(After(chunks, n)),
                    writable, s.count, s.behind, same)
    ensures same <==> ImageVersion(Leading(chunks, n)) == StoredVersion(s)
    ensures Check(s, chunks, writable).count == Count(Leading(chunks, n), s.count)
    ensures AtRest(Check(s, chunks, writable))
    ensures Check(s, chunks, writable).load == 0
  {
    StartsLoading(s, writable);
    same := EnoughChunksOutcome(Connect(s, writable), chunks, writable, s.count, n);
  }

  function Boot(file: Option<seq<Byte>>, behind: seq<Byte>): Store {
    Store(file, false, 0, 0, 0, Zeros(BUFFER_TEST), 0, behind)
  }

  /** From 1174 bytes on, the deciding chunks have the version of the whole body. */
  lemma LeadingTellsVersion(chunks: seq<seq<Byte>>, n: nat)
    requires n <= |chunks| && 1174 <= |Leading(chunks, n)| <= BUFFER_TEST
    ensures ImageVersion(Leading(chunks, n)) == ImageVersion(Body(chunks))
  {
    BodySplits(chunks, n);
    LongEnough(Leading(chunks, n), Body(After(chunks, n)));
  }

  lemma LongEnough(start: seq<Byte>, rest: seq<Byte>)
    requires 1174 <= |start| <= BUFFER_TEST
    ensures ImageVersion(start) == ImageVersion(start + rest)
  {
  }

  lemma BootReadsImageVersion(file: seq<Byte>, behind: seq<Byte>)
    requires |behind| == WORD16
    ensures StoredVersion(Boot(Some(file), behind)) == ImageVersion(file)
  {
    var head := if |file| > BUFFER_TEST then file[..BUFFER_TEST] else file;
    assert ReadOver(Zeros(BUFFER_TEST), file) == Padded(head, BUFFER_TEST);
  }

  lemma CountedIsBody(first: seq<Byte>, rest: seq<Byte>, before: nat, behind: seq<Byte>)
    requires |first| <= BUFFER_TEST && before < WORD16 && |behind| == WORD16
    ensures Counted(first, before, behind) + rest == first + rest <==> before == 0
  {
    if before == 0 {
      assert Counted(first, 0, behind) == first;
    } else {
      OtherCount(|first|, before);
      assert |Counted(first, before, behind) + rest| != |first + rest|;
    }
  }

  lemma OtherCount(n: nat, before: nat)
    requires n <= BUFFER_TEST && 0 < before < WORD16
    ensures (before + n) % WORD16 != n
  {
  }

  /** The first check after boot, for a stored file of non-zero version and at least three chunks:
      unchanged if the versions match, the whole body otherwise. */
  lemma {:induction false} FirstCheck(file: seq<Byte>, behind: seq<Byte>, chunks: seq<seq<Byte>>)
    requires |behind| == WORD16 && |chunks| >= 3 && FitAll(Connect(Boot(Some(file), behind), true), chunks, true)
    requires ImageVersion(file) != 0
    ensures |Leading(chunks, 3)| <= BUFFER_TEST
    ensures Check(Boot(Some(file), behind), chunks, true).file ==
            Some(if ImageVersion(Leading(chunks, 3)) == ImageVersion(file) then file else Body(chunks))
  {
    var lead, rest := Leading(chunks, 3), Body(After(chunks, 3));
    BootReadsImageVersion(file, behind);
    var _ := StoredFileReplaced(Boot(Some(file), behind), chunks, true, 3);
    BodySplits(chunks, 3);
    CountedIsBody(lead, rest, 0, behind);
  }

  /** Data_Counter is never reset: a check that replaces the file, in whatever state earlier checks left
      the counters, stores the body exactly when the bytes they counted are a multiple of 2^16. */
  lemma ReplacedByBodyIffFirst(s: Store, chunks: seq<seq<Byte>>, n: nat)
    requires AtRest(s) && s.file.Some? && n == 3 - s.load <= |chunks| && FitAll(Connect(s, true), chunks, true)
    requires StoredVersion(s) != 0 && StoredVersion(s) != ImageVersion(Leading(chunks, n))
    ensures Check(s, chunks, true).file == Some(Body(chunks)) <==> s.count == 0
  {
    var same := StoredFileReplaced(s, chunks, true, n);
    assert !same;
    BodySplits(chunks, n);
    StoresBody(s.file, Check(s, chunks, true).file, Leading(chunks, n), Body(After(chunks, n)), Body(chunks),
               s.count, s.behind, same);
  }

  lemma StoresBody(stored: Option<seq<Byte>>, file: Option<seq<Byte>>, lead: seq<Byte>, rest: seq<Byte>,
                   body: seq<Byte>, before: nat, behind: seq<Byte>, same: bool)
    requires Outcome(stored, file, lead, rest, true, before, behind, same) && !same
    requires body == lead + rest && before < WORD16
    ensures file == Some(body) <==> before == 0
  {
    CountedIsBody(lead, rest, before, behind);
  }

  // ---- Interrupted downloads, and the version itself ----

  /** A download that fails after any chunks: a file being written is gone, whatever it replaced, and the next
      check starts as after boot but for the byte count; a stored file that was not yet given up stays. */
  lemma {:induction false} InterruptedLeavesNoPart(s: Store, chunks: seq<seq<Byte>>, writable: bool)
    requires AtRest(s) && FitAll(Connect(s, writable), chunks, writable)
    ensures var t := DataAll(Connect(s, writable), chunks, writable);
            var z := Fail(t);
            && AtRest(z)
            && (t.writing ==> z.file == None && z.load == 0 && z.version == 0)
            && (!t.writing ==> z == t && (t.file == s.file || (t.file == None && !writable)))
  {
    KeptOrGivenUp(Connect(s, writable), chunks, writable);
    WritingStays(Connect(s, writable), chunks, writable);
  }

  /** While no file is being written the stored one is untouched, or lost because none could be opened. */
  lemma {:induction false} KeptOrGivenUp(s: Store, chunks: seq<seq<Byte>>, writable: bool)
    requires s.Valid() && FitAll(s, chunks, writable)
    ensures var t := DataAll(s, chunks, writable);
            !t.writing ==> t.file == s.file || (t.file == None && !writable)
    decreases |chunks|
  {
    if chunks != [] {
      KeptOrGivenUp(OnData(s, chunks[0], writable), chunks[1..], writable);
      WritingStays(OnData(s, chunks[0], writable), chunks[1..], writable);
    }
  }

  lemma {:induction false} WritingStays(s: Store, chunks: seq<seq<Byte>>, writable: bool)
    requires s.Valid() && FitAll(s, chunks, writable)
    ensures s.writing ==> DataAll(s, chunks, writable).writing
    decreases |chunks|
  {
    if chunks != [] { WritingStays(OnData(s, chunks[0], writable), chunks[1..], writable); }
  }

  /** Bytes 1172 and 1173 are the version: the hundreds as a number, the rest in binary-coded decimal. */
  lemma VersionReads(buffer: seq<Byte>, hundreds: Byte, tens: nat, ones: nat)
    requires |buffer| == 1536 && tens < 10 && ones < 10
    requires buffer[1173] == hundreds && buffer[1172] == 16 * tens + ones
    ensures Version(buffer) == 100 * hundreds + 10 * tens + ones
  {
  }

  // ---- The handler on its globals ----

  class HttpStore {
    var file: Option<seq<Byte>>
    var writing: bool
    var version: nat
    var load: nat
    var count: nat
    const buffer: array<Byte>
    var pointer: nat
    const behind: seq<Byte>

    function View(): Store
      reads this, buffer
    {
      Store(file, writing, version, load, count, buffer[..], pointer, behind)
    }

    constructor (file: Option<seq<Byte>>, behind: seq<Byte>)
      requires |behind| == WORD16
      ensures View() == Boot(file, behind) && View().Valid()
    {
      this.behind := behind;
      this.file, writing, version, load, count, pointer := file, false, 0, 0, 0, 0;
      buffer := new Byte[BUFFER_TEST](_ => 0);
      new;
      assert buffer[..] == Zeros(BUFFER_TEST);
    }

    method OnConnected(writable: bool)
      requires View().Valid()
      modifies this, buffer
      ensures View() == Connect(old(View()), writable)
    {
      if file.None? {
        writing := true;
        if writable { file := Some([]); } else { writing := false; }
        version := 0;
      } else {
        writing := false;
        var head := if |file.value| > buffer.Length then file.value[..buffer.Length] else file.value;
        Memcpy(buffer, 0, head);
        version := Version(buffer[..]);
        Clear(buffer);
        pointer := 0;
      }
    }

    method OnChunk(chunk: seq<Byte>, writable: bool)
      requires View().Valid() && Fits(View(), chunk)
      modifies this, buffer
      ensures View() == OnData(old(View()), chunk, writable)
    {
      if version != 0 {
        if load < 3 {
          Memcpy(buffer, pointer, chunk);
          pointer := pointer + |chunk|;
          load := load + 1;
          count := (count + |chunk|) % WORD16;
        }
        if load == 3 {
          var server := Version(buffer[..]);
          if server != version {
            if writable {
              writing := true;
              file := Some((buffer[..] + behind)[..count]);
            } else {
              writing := false;
              file := None;
            }
          }
          load := 0;
          version := 0;
        }
      } else if writing {
        file := Some(file.value + chunk);
      }
    }

    method OnFinish()
      modifies this`writing, this`version
      ensures View() == Finish(old(View()))
    {
      if writing {
        writing := false;
        version := 0;
      }
    }

    method OnError()
      modifies this`writing, this`version, this`load, this`file
      ensures View() == Fail(old(View()))
    {
      if writing {
        writing := false;
        load := 0;
        version := 0;
        file := None;
      }
    }
  }
}
