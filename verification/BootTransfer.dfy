/** The firmware transfer to the unit's bootloader (Bootloader_State and Bootloader_State1 of
    src/unit_comm.c): a header, then 16 bytes of the file for every ACK, each four-byte word
    reversed and written as eight characters '0' + nibble. */
module BootTransfer {
  import opened Bytes
  import opened Mailbox

  const ZERO_CHAR: Byte := '0' as int
  const CHUNK := 16
  const SEND_BUFFER := 100
  const TEMP_BUFFER := 20
  const HEADER_LENGTH := 14

  // ---- The text of a word and of a chunk ----

  function HighNibble(b: Byte): Byte { b / 16 + ZERO_CHAR }

  function LowNibble(b: Byte): Byte { b % 16 + ZERO_CHAR }

  function WordText(w: seq<Byte>): (t: seq<Byte>)
    requires |w| == 4
    ensures |t| == 8
  {
    [HighNibble(w[3]), LowNibble(w[3]), HighNibble(w[2]), LowNibble(w[2]),
     HighNibble(w[1]), LowNibble(w[1]), HighNibble(w[0]), LowNibble(w[0])]
  }

  /** The text of the whole words of `c`. */
  function TextOf(c: seq<Byte>): (t: seq<Byte>)
    ensures |t| == |c| / 4 * 8
  {
    if |c| < 4 then [] else WordText(c[..4]) + TextOf(c[4..])
  }

  /** What is sent for `c`: bytes beyond the last whole word go out as NULs. */
  function Encoded(c: seq<Byte>): (m: seq<Byte>)
    ensures |m| == 2 * |c|
  {
    Padded(TextOf(c), 2 * |c|)
  }

  // ---- The bootloader's side: read the characters back ----

  predicate Digits(t: seq<Byte>) {
    forall i | 0 <= i < |t| :: 48 <= t[i] < 64
  }

  function ByteOf(high: Byte, low: Byte): Byte
    requires 48 <= high < 64 && 48 <= low < 64
  {
    (high - 48) * 16 + (low - 48)
  }

  function WordOf(t: seq<Byte>): seq<Byte>
    requires |t| == 8 && Digits(t)
  {
    [ByteOf(t[6], t[7]), ByteOf(t[4], t[5]), ByteOf(t[2], t[3]), ByteOf(t[0], t[1])]
  }

  function Decoded(t: seq<Byte>): Option<seq<Byte>> {
    if t == [] then Some([])
    else if |t| < 8 || !Digits(t[..8]) then None
    else
      var rest := Decoded(t[8..]);
      if rest.None? then None else Some(WordOf(t[..8]) + rest.value)
  }

  lemma WordDecodes(w: seq<Byte>)
    requires |w| == 4
    ensures Digits(WordText(w)) && WordOf(WordText(w)) == w
  {
  }

  lemma {:induction false} TextDecodes(c: seq<Byte>)
    requires |c| % 4 == 0
    ensures Decoded(TextOf(c)) == Some(c)
  {
    if c != [] {
      var t := TextOf(c);
      WordDecodes(c[..4]);
      TextDecodes(c[4..]);
      assert t[..8] == WordText(c[..4]) && t[8..] == TextOf(c[4..]);
      assert c == c[..4] + c[4..];
    }
  }

  lemma {:induction false} RaggedTextIsRefused(t: seq<Byte>)
    requires |t| % 8 != 0
    ensures Decoded(t) == None
  {
    if |t| >= 8 { RaggedTextIsRefused(t[8..]); }
  }

  lemma TextCons(w: seq<Byte>, c: seq<Byte>)
    requires |w| == 4
    ensures TextOf(w + c) == WordText(w) + TextOf(c)
  {
    assert (w + c)[..4] == w && (w + c)[4..] == c;
  }

  lemma {:induction false} TextConcat(c: seq<Byte>, d: seq<Byte>)
    requires |c| % 4 == 0
    ensures TextOf(c + d) == TextOf(c) + TextOf(d)
  {
    if c == [] {
      assert c + d == d;
    } else {
      var w, rest := c[..4], c[4..];
      TextConcat(rest, d);
      TextStep(w, rest, d);
      assert c == w + rest && c + d == w + (rest + d);
    }
  }

  lemma TextStep(w: seq<Byte>, rest: seq<Byte>, d: seq<Byte>)
    requires |w| == 4 && TextOf(rest + d) == TextOf(rest) + TextOf(d)
    ensures TextOf(w + (rest + d)) == TextOf(w + rest) + TextOf(d)
  {
    TextCons(w, rest);
    TextCons(w, rest + d);
  }

  lemma EncodedConcat(c: seq<Byte>, d: seq<Byte>)
    requires |c| % 4 == 0
    ensures Encoded(c + d) == Encoded(c) + Encoded(d)
  {
    TextConcat(c, d);
  }

  // ---- The header ----

  function SizeText(size: nat): (t: seq<Byte>)
    ensures |t| == 6
  {
    [size / 0x10_0000 % 16 + ZERO_CHAR, size / 0x1_0000 % 16 + ZERO_CHAR, size / 0x1000 % 16 + ZERO_CHAR,
     size / 0x100 % 16 + ZERO_CHAR, size / 16 % 16 + ZERO_CHAR, size % 16 + ZERO_CHAR]
  }

  function Digit(t: seq<Byte>, i: nat): int
    requires i < |t|
  {
    t[i] as int - 48
  }

  function SizeOf(t: seq<Byte>): int
    requires |t| >= 6
  {
    ((((Digit(t, 0) * 16 + Digit(t, 1)) * 16 + Digit(t, 2)) * 16 + Digit(t, 3)) * 16 + Digit(t, 4)) * 16 + Digit(t, 5)
  }

  function FirstWord(file: seq<Byte>): (w: seq<Byte>)
    ensures |w| == 4
  {
    Padded(if |file| < 4 then file else file[..4], 4)
  }

  function Header(file: seq<Byte>): (t: seq<Byte>)
    ensures |t| == HEADER_LENGTH
  {
    SizeText(|file|) + WordText(FirstWord(file))
  }

  lemma WordTextDecodes(w: seq<Byte>)
    requires |w| == 4
    ensures Decoded(WordText(w)) == Some(w)
  {
    TextDecodes(w);
    assert w[..4] == w && TextOf(w[4..]) == [];
    assert TextOf(w) == WordText(w);
  }

  /** The header gives the size modulo 2^24 and, reversed like every word, the first word. */
  lemma HeaderDecodes(file: seq<Byte>)
    ensures SizeOf(Header(file)) == |file| % 0x100_0000
    ensures Decoded(Header(file)[6..]) == Some(FirstWord(file))
  {
    var h := Header(file);
    assert h[..6] == SizeText(|file|) && h[6..] == WordText(FirstWord(file));
    WordTextDecodes(FirstWord(file));
    SizeTextReads(|file|);
  }

  lemma SizeTextReads(n: nat)
    ensures SizeOf(SizeText(n)) == n % 0x100_0000
  {
    var a := n / 16;
    var b, c, d, e := a / 16, a / 0x100, a / 0x1000, a / 0x1_0000;
    PeelNibble(n, 0x10_0000);
    PeelNibble(a, 0x1_0000);
    PeelNibble(b, 0x1000);
    PeelNibble(c, 0x100);
    PeelNibble(d, 16);
    DivTwice(n);
    DivTwice(a);
    assert n % 0x100_0000 == ((((e % 16 * 16 + d % 16) * 16 + c % 16) * 16 + b % 16) * 16 + a % 16) * 16 + n % 16;
  }

  lemma DivTwice(n: nat)
    ensures n / 16 / 16 == n / 0x100
    ensures n / 16 / 0x100 == n / 0x1000 && n / 0x100 / 16 == n / 0x1000
    ensures n / 16 / 0x1000 == n / 0x1_0000 && n / 0x1000 / 16 == n / 0x1_0000
    ensures n / 16 / 0x1_0000 == n / 0x10_0000
  {
  }

  lemma PeelNibble(n: nat, k: nat)
    requires k > 0
    ensures n % (16 * k) == n / 16 % k * 16 + n % 16
  {
    var q := n / 16;
    var m := 16 * k;
    assert q == k * (q / k) + q % k;
    assert 16 * (k * (q / k)) == m * (q / k);
    ModIs(n, m, q / k, q % k * 16 + n % 16);
  }

  lemma ModIs(n: nat, m: nat, q: nat, r: nat)
    requires n == m * q + r && r < m
    ensures n % m == r
  {
    var d := n / m;
    if d < q {
      Scaled(m, d + 1, q);
    } else if d > q {
      Scaled(m, q + 1, d);
    }
  }

  // ---- The transfer as a value ----

  datatype State = Opening | Sending | Ended

  /** moved: Bytes_Transfered; sent: every write to the UART. */
  datatype Boot = Boot(state: State, size: nat, moved: nat, sent: seq<seq<Byte>>)

  function NoFileHeader(): (t: seq<Byte>)
    ensures |t| == HEADER_LENGTH && forall i | 0 <= i < |t| :: t[i] == ZERO_CHAR
  {
    seq(HEADER_LENGTH, _ => ZERO_CHAR)
  }

  /** Bootloader_State with no server update running; None: there is no readable file. */
  function Open(b: Boot, file: Option<seq<Byte>>): Boot {
    if file.None? then b.(state := Ended, size := 0, sent := b.sent + [NoFileHeader()])
    else b.(state := Sending, size := |file.value|, sent := b.sent + [Header(file.value)])
  }

  /** Bootloader_State1 with an ACK received. */
  function OnAck(b: Boot, file: seq<Byte>): Boot
    requires b.moved <= b.size == |file|
  {
    if b.size - b.moved > CHUNK then
      b.(moved := b.moved + CHUNK, sent := b.sent + [Encoded(file[b.moved..b.moved + CHUNK])])
    else if b.size - b.moved != 0 then
      b.(state := Ended, sent := b.sent + [Encoded(file[b.moved..])])
    else b
  }

  /** Bootloader_State_end looks at no ACK. */
  function AfterAcks(b: Boot, file: seq<Byte>, n: nat): (r: Boot)
    requires b.moved <= b.size == |file|
    ensures r.moved <= r.size == |file|
  {
    if n == 0 then b
    else
      var m := AfterAcks(b, file, n - 1);
      if m.state == Sending then OnAck(m, file) else m
  }

  const START := Boot(Opening, 0, 0, [])

  function Stream(sent: seq<seq<Byte>>): seq<Byte> {
    if sent == [] then [] else Stream(sent[..|sent| - 1]) + sent[|sent| - 1]
  }

  function AcksFor(size: nat): nat {
    (size + CHUNK - 1) / CHUNK
  }

  /** Where the transfer is after `n` ACKs, and what its payloads amount to. */
  predicate At(b: Boot, file: seq<Byte>, n: nat) {
    && b.moved <= b.size == |file| && |b.sent| >= 1 && b.sent[0] == Header(file)
    && if CHUNK * n < |file| then
         && b.state == Sending && b.moved == CHUNK * n && |b.sent| == 1 + n
         && Stream(b.sent[1..]) == Encoded(file[..CHUNK * n])
       else b.state == Ended && |b.sent| == 1 + AcksFor(|file|) && Stream(b.sent[1..]) == Encoded(file)
  }

  lemma AtNext(b: Boot, file: seq<Byte>, n: nat)
    requires At(b, file, n) && CHUNK * n < |file|
    ensures At(OnAck(b, file), file, n + 1)
  {
    assert CHUNK * (n + 1) == CHUNK * n + CHUNK;
    AckShape(b, file);
    StreamNext(b, file);
    assert file[..|file|] == file;
  }

  lemma {:induction false} Progress(file: seq<Byte>, n: nat)
    requires file != []
    ensures At(AfterAcks(Open(START, Some(file)), file, n), file, n)
  {
    if n == 0 {
      assert file[..0] == [];
    } else {
      Progress(file, n - 1);
      if CHUNK * (n - 1) < |file| { AtNext(AfterAcks(Open(START, Some(file)), file, n - 1), file, n - 1); }
    }
  }

  lemma StreamNext(m: Boot, file: seq<Byte>)
    requires m.state == Sending && m.moved < m.size == |file| && m.moved % 4 == 0
    requires |m.sent| >= 1 && Stream(m.sent[1..]) == Encoded(file[..m.moved])
    ensures Stream(OnAck(m, file).sent[1..]) == Encoded(file[..UpTo(m)])
  {
    var c := file[m.moved..UpTo(m)];
    AckShape(m, file);
    StreamAppend(m.sent, Encoded(c));
    EncodedConcat(file[..m.moved], c);
    assert file[..m.moved] + c == file[..UpTo(m)];
  }

  /** Where the next chunk ends. */
  function UpTo(m: Boot): nat {
    if m.size - m.moved > CHUNK then m.moved + CHUNK else m.size
  }

  lemma AckShape(m: Boot, file: seq<Byte>)
    requires m.state == Sending && m.moved < m.size == |file|
    ensures OnAck(m, file).sent == m.sent + [Encoded(file[m.moved..UpTo(m)])]
    ensures OnAck(m, file).state == if UpTo(m) < m.size then Sending else Ended
    ensures OnAck(m, file).moved == if UpTo(m) < m.size then UpTo(m) else m.moved
  {
    assert file[m.moved..] == file[m.moved..|file|];
  }

  lemma StreamAppend(sent: seq<seq<Byte>>, m: seq<Byte>)
    requires |sent| >= 1
    ensures Stream((sent + [m])[1..]) == Stream(sent[1..]) + m
  {
    assert (sent + [m])[1..] == sent[1..] + [m];
    assert (sent[1..] + [m])[..|sent| - 1] == sent[1..];
  }

  /** Exactly ceil(size / 16) ACKs end the transfer of a non-empty file, and its payloads decode
      to exactly the file if the size is a multiple of four; otherwise they do not decode. */
  lemma DeliversFile(file: seq<Byte>, n: nat)
    requires file != []
    ensures var b := AfterAcks(Open(START, Some(file)), file, n);
            && (b.state == Ended <==> 16 * n >= |file|)
            && (b.state == Ended ==>
                  && |b.sent| == 1 + (|file| + 15) / 16 && b.sent[0] == Header(file)
                  && Decoded(Stream(b.sent[1..])) == if |file| % 4 == 0 then Some(file) else None)
  {
    Progress(file, n);
    EncodedDecodes(file);
  }

  lemma EncodedDecodes(c: seq<Byte>)
    ensures Decoded(Encoded(c)) == if |c| % 4 == 0 then Some(c) else None
  {
    if |c| % 4 == 0 {
      TextDecodes(c);
      assert Encoded(c) == TextOf(c);
    } else {
      RaggedTextIsRefused(Encoded(c));
    }
  }

  /** Every ACK but the last brings the end closer; the last one ends the transfer. */
  lemma AckProgress(b: Boot, file: seq<Byte>)
    requires b.state == Sending && b.moved < b.size == |file|
    ensures var c := OnAck(b, file);
            if c.state == Sending then 0 < c.size - c.moved < b.size - b.moved else c.state == Ended
  {
  }

  /** An existing but empty file is announced with size 0 and then waits for ever. */
  lemma {:induction false} EmptyFileNeverEnds(n: nat)
    ensures var b := AfterAcks(Open(START, Some([])), [], n);
            b.state == Sending && b.sent == [Header([])] && SizeOf(Header([])) == 0
  {
    if n > 0 { EmptyFileNeverEnds(n - 1); }
  }

  /** No file: the bootloader is told size 0 and first word 0, in characters. */
  lemma NoFileSendsZeros()
    ensures var b := Open(START, None);
            && b.state == Ended && |b.sent| == 1
            && SizeOf(b.sent[0]) == 0 && Decoded(b.sent[0][6..]) == Some([0, 0, 0, 0])
  {
    WordTextDecodes([0, 0, 0, 0]);
    assert Open(START, None).sent[0][6..] == WordText([0, 0, 0, 0]);
  }

  // ---- The transfer on its buffers ----

  class Transfer {
    const port: SerialPort
    const sendBuffer: array<Byte>
    const tempBuffer: array<Byte>
    var file: seq<Byte>
    var pos: nat
    var fileStart: seq<Byte>
    var state: State
    var size: nat
    var moved: nat
    var sent: seq<seq<Byte>>

    function View(): Boot
      reads this
    {
      Boot(state, size, moved, sent)
    }

    /** The open file stands where the next chunk begins. */
    ghost predicate Valid()
      reads this, port, port.cache, port.buff
    {
      && sendBuffer.Length == SEND_BUFFER && tempBuffer.Length == TEMP_BUFFER && |fileStart| == 4
      && port.Valid() && sendBuffer != tempBuffer
      && {sendBuffer, tempBuffer} !! {port.cache, port.buff}
      && (state == Opening ==> moved == 0 && fileStart == Zeros(4))
      && (state == Sending ==> size == |file| && pos == moved <= size)
    }

    constructor (port: SerialPort)
      requires port.Valid()
      ensures Valid() && this.port == port && View() == START
    {
      this.port := port;
      sendBuffer := new Byte[SEND_BUFFER](_ => 0);
      tempBuffer := new Byte[TEMP_BUFFER](_ => 0);
      file, pos, fileStart := [], 0, Zeros(4);
      state, size, moved, sent := Opening, 0, 0, [];
    }

    /** fread from the open file into the front of a zeroed tempBuffer. */
    method ReadFile(n: nat)
      requires n <= tempBuffer.Length && pos + n <= |file|
      modifies this`pos, tempBuffer
      ensures pos == old(pos) + n
      ensures tempBuffer[..] == Padded(file[old(pos)..pos], tempBuffer.Length)
    {
      Clear(tempBuffer);
      Memcpy(tempBuffer, 0, file[pos..pos + n]);
      assert tempBuffer[..] == Padded(file[pos..pos + n], tempBuffer.Length);
      pos := pos + n;
    }

    method WriteSize()
      requires sendBuffer.Length == SEND_BUFFER
      modifies sendBuffer
      ensures sendBuffer[..] == Splice(old(sendBuffer[..]), 0, SizeText(size))
    {
      LastButOneNibble(size);
      ghost var before := sendBuffer[..];
      ghost var t := SizeText(size);
      sendBuffer[0] := size / 0x10_0000 % 16 + 48;
      sendBuffer[1] := size / 0x1_0000 % 16 + 48;
      sendBuffer[2] := size / 0x1000 % 16 + 48;
      sendBuffer[3] := size / 0x100 % 16 + 48;
      sendBuffer[4] := size % 0x100 / 16 + 48;
      sendBuffer[5] := size % 16 + 48;
      assert sendBuffer[..] == before[0 := t[0]][1 := t[1]][2 := t[2]][3 := t[3]][4 := t[4]][5 := t[5]];
      SixWritten(before, t);
    }

    method WriteByte(b: Byte, at: nat)
      requires at + 2 <= sendBuffer.Length
      modifies sendBuffer
      ensures sendBuffer[at] == HighNibble(b) && sendBuffer[at + 1] == LowNibble(b)
      ensures forall i | 0 <= i < sendBuffer.Length && i != at && i != at + 1 :: sendBuffer[i] == old(sendBuffer[i])
    {
      sendBuffer[at] := b / 16 + 48;
      sendBuffer[at + 1] := b % 16 + 48;
    }

    /** One word, its last byte first. */
    method WriteWord(w: seq<Byte>, at: nat)
      requires |w| == 4 && at + 8 <= sendBuffer.Length
      modifies sendBuffer
      ensures sendBuffer[..] == Splice(old(sendBuffer[..]), at, WordText(w))
    {
      WriteByte(w[3], at);
      WriteByte(w[2], at + 2);
      WriteByte(w[1], at + 4);
      WriteByte(w[0], at + 6);
      assert sendBuffer[at..at + 8] == WordText(w);
    }

    method AnnounceNothing()
      requires Valid() && state == Opening
      modifies this`size, this`sent, this`state, sendBuffer
      ensures Valid() && View() == Open(old(View()), None)
    {
      size := 0;
      Clear(sendBuffer);
      WriteSize();
      ZeroCharacters();
      var m := sendBuffer[..HEADER_LENGTH];
      IsNoFileHeader(m);
      sent := sent + [m];
      state := Ended;
    }

    /** The loop that overwrites the whole buffer with '0'. */
    method ZeroCharacters()
      modifies sendBuffer
      ensures forall j :: 0 <= j < sendBuffer.Length ==> sendBuffer[j] == ZERO_CHAR
    {
      for i := 0 to sendBuffer.Length
        invariant forall j :: 0 <= j < i ==> sendBuffer[j] == ZERO_CHAR
      {
        sendBuffer[i] := ZERO_CHAR;
      }
    }

    method WriteHeader()
      requires sendBuffer.Length == SEND_BUFFER && size == |file| && fileStart == FirstWord(file)
      modifies sendBuffer
      ensures sendBuffer[..HEADER_LENGTH] == Header(file)
    {
      Clear(sendBuffer);
      WriteSize();
      WriteWord(fileStart, 6);
      assert sendBuffer[..6] == SizeText(size);
    }

    /** Bootloader_State: `found` is the file on flash; `updating`: the server update task runs. */
    method Begin(found: Option<seq<Byte>>, updating: bool)
      requires Valid() && state == Opening
      modifies this, sendBuffer
      ensures Valid() && View() == if updating then old(View()) else Open(old(View()), found)
      ensures !updating && found.Some? ==> file == found.value
    {
      if updating { return; }
      if found.None? {
        AnnounceNothing();
        return;
      }
      file := found.value;
      size := |file|;
      var n := if |file| < 4 then |file| else 4;
      fileStart := file[..n] + fileStart[n..];
      assert fileStart == FirstWord(file);
      WriteHeader();
      pos := 0;
      sent := sent + [sendBuffer[..HEADER_LENGTH]];
      state := Sending;
    }

    /** Sends the next `n` bytes of the file. */
    method SendChunk(n: nat)
      requires Valid() && state == Sending && n <= CHUNK && pos + n <= |file|
      modifies this`pos, this`sent, sendBuffer, tempBuffer
      ensures pos == old(pos) + n
      ensures sent == old(sent) + [Encoded(file[old(pos)..pos])]
    {
      ghost var c := file[pos..pos + n];
      Clear(sendBuffer);
      ReadFile(n);
      assert tempBuffer[..n] == c;
      FillWords(n);
      assert file[old(pos)..pos] == c;
      sent := sent + [sendBuffer[..2 * n]];
    }

    /** The loop over the words of tempBuffer. */
    method FillWords(n: nat)
      requires n <= CHUNK && tempBuffer.Length == TEMP_BUFFER && sendBuffer.Length == SEND_BUFFER
      requires sendBuffer != tempBuffer && sendBuffer[..] == Zeros(SEND_BUFFER)
      modifies sendBuffer
      ensures sendBuffer[..2 * n] == Encoded(tempBuffer[..n])
    {
      ghost var c := tempBuffer[..n];
      FilledEnds(c);
      for i := 0 to n / 4
        invariant tempBuffer[..n] == c
        invariant sendBuffer[..] == Filled(c, i)
      {
        var w := tempBuffer[4 * i..4 * i + 4];
        assert w == c[4 * i..4 * i + 4];
        WriteWord(w, 8 * i);
        FillStep(c, i, w);
      }
    }

    /** What State1 does with an ACK. */
    method Acknowledge()
      requires Valid() && state == Sending
      modifies this`pos, this`state, this`moved, this`sent, sendBuffer, tempBuffer
      ensures Valid() && View() == OnAck(old(View()), file)
    {
      if size - moved > CHUNK {
        SendChunk(CHUNK);
        moved := moved + CHUNK;
      } else if size - moved != 0 {
        assert file[moved..] == file[pos..pos + (size - moved)];
        SendChunk(size - moved);
        state := Ended;
      }
    }

    /** Bootloader_State1. */
    method Continue()
      requires Valid() && state == Sending
      modifies this`pos, this`state, this`moved, this`sent, port, port.buff, sendBuffer, tempBuffer
      ensures Valid()
      ensures var p := AfterRead(old(port.View()));
              && port.View() == p.(ackReceived := false)
              && View() == if p.ackReceived then OnAck(old(View()), file) else old(View())
    {
      var _ := port.Read();
      if port.ackReceived {
        port.ackReceived := false;
        Acknowledge();
      }
    }
  }

  lemma PaddedStep(t: seq<Byte>, w: seq<Byte>, n: nat)
    requires |t| + |w| <= n
    ensures Splice(Padded(t, n), |t|, w) == Padded(t + w, n)
  {
  }

  /** sendBuffer after `i` words. */
  function Filled(c: seq<Byte>, i: nat): (r: seq<Byte>)
    requires 4 * i <= |c| <= CHUNK
    ensures |r| == SEND_BUFFER
  {
    Padded(TextOf(c[..4 * i]), SEND_BUFFER)
  }

  lemma FillStep(c: seq<Byte>, i: nat, w: seq<Byte>)
    requires 4 * i + 4 <= |c| <= CHUNK && w == c[4 * i..4 * i + 4]
    ensures Splice(Filled(c, i), 8 * i, WordText(w)) == Filled(c, i + 1)
  {
    var t := TextOf(c[..4 * i]);
    assert |t| == 8 * i;
    WordAppended(c, i);
    assert 4 * (i + 1) == 4 * i + 4;
    PaddedStep(t, WordText(w), SEND_BUFFER);
  }

  lemma FilledEnds(c: seq<Byte>)
    requires |c| <= CHUNK
    ensures Filled(c, 0) == Zeros(SEND_BUFFER)
    ensures Filled(c, |c| / 4)[..2 * |c|] == Encoded(c)
  {
    assert TextOf(c[..0]) == [];
    TextOfWords(c, 4 * (|c| / 4));
    PaddedCut(TextOf(c), 2 * |c|, SEND_BUFFER);
  }

  lemma PaddedCut(t: seq<Byte>, m: nat, n: nat)
    requires |t| <= m <= n
    ensures Padded(t, n)[..m] == Padded(t, m)
  {
  }

  lemma LastButOneNibble(n: nat)
    ensures n % 0x100 / 16 == n / 16 % 16
  {
  }

  lemma SixWritten(before: seq<Byte>, t: seq<Byte>)
    requires |t| == 6 <= |before|
    ensures before[0 := t[0]][1 := t[1]][2 := t[2]][3 := t[3]][4 := t[4]][5 := t[5]] == Splice(before, 0, t)
  {
  }

  lemma IsNoFileHeader(m: seq<Byte>)
    requires |m| == HEADER_LENGTH && forall j | 0 <= j < |m| :: m[j] == ZERO_CHAR
    ensures m == NoFileHeader()
  {
  }

  lemma TextOfWords(c: seq<Byte>, n: nat)
    requires n <= |c| < n + 4 && n % 4 == 0
    ensures TextOf(c) == TextOf(c[..n])
  {
    TextOfTail(c[..n], c[n..]);
    assert c == c[..n] + c[n..];
  }

  /** Fewer than four bytes at the end have no text. */
  lemma TextOfTail(words: seq<Byte>, tail: seq<Byte>)
    requires |words| % 4 == 0 && |tail| < 4
    ensures TextOf(words + tail) == TextOf(words)
  {
    assert TextOf(tail) == [];
    TextConcat(words, tail);
  }

  lemma WordAppended(c: seq<Byte>, i: nat)
    requires 4 * i + 4 <= |c|
    ensures TextOf(c[..4 * i + 4]) == TextOf(c[..4 * i]) + WordText(c[4 * i..4 * i + 4])
  {
    var w := c[4 * i..4 * i + 4];
    TextConcat(c[..4 * i], w);
    assert c[..4 * i] + w == c[..4 * i + 4];
    assert w[..4] == w && TextOf(w[4..]) == [];
  }
}
