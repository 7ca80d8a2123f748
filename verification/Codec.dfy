/** The frames of the unit's serial protocol: 's', 'm', checksum position, command, data, and the
    one's complement of the 16-bit byte sum, low byte first (src/WBM_Serial.c). */
module Codec {
  import opened Bytes

  // Indices of the message head.
  const START_MSG_0 := 0
  const START_MSG_1 := 1
  const POS_CRC_LO := 2
  const TYPE_COMMAND := 3
  const START_DATA := 4

  const PROTO_START_MSG_0: Byte := 's' as int
  const PROTO_START_MSG_1: Byte := 'm' as int

  const SERIAL_BUFFER := 128

  // Results of Read_Message below zero, and the two that are not a message length.
  const ERROR_HEAD_MESSAGE := -1
  const ERROR_LEN_MESSAGE := -2
  const ERROR_CKSUM_16 := -3
  const BUFFER_RX_EMPTY := 0
  const RUN_DOWNLOAD := 1

  function Sum(s: seq<Byte>): nat {
    if s == [] then 0 else Sum(s[..|s| - 1]) + s[|s| - 1]
  }

  function Checksum(s: seq<Byte>): (c: nat)
    ensures c < WORD16
  {
    WORD16 - 1 - Sum(s) % WORD16
  }

  lemma SumNext(s: seq<Byte>, b: Byte)
    ensures Sum(s + [b]) == Sum(s) + b
  {
    assert (s + [b])[..|s|] == s;
  }

  /** calc_cksum_16: a uint16_t accumulator, complemented. */
  method CalcCksum16(buffer: array<Byte>, length: nat) returns (cksum: nat)
    requires length <= buffer.Length
    ensures cksum == Checksum(buffer[..length])
  {
    var temp := 0;
    for i := 0 to length
      invariant temp == Sum(buffer[..i]) % WORD16
    {
      SumNext(buffer[..i], buffer[i]);
      assert buffer[..i + 1] == buffer[..i] + [buffer[i]];
      temp := (temp + buffer[i]) % WORD16;
    }
    cksum := WORD16 - 1 - temp;
  }

  /** The bytes put on the wire for a buffer whose checksum position is `pos`. */
  function Seal(body: seq<Byte>): (frame: seq<Byte>)
    ensures |frame| == |body| + 2
  {
    var c := Checksum(body);
    body + [c % 256, c / 256]
  }

  /** A buffer with its head stamped, cut at its own checksum position. */
  function Stamped(buff: seq<Byte>): seq<Byte>
    requires 3 <= |buff| && 3 <= buff[POS_CRC_LO] <= |buff|
  {
    buff[START_MSG_0 := PROTO_START_MSG_0][START_MSG_1 := PROTO_START_MSG_1][..buff[POS_CRC_LO]]
  }

  /** A buffer with its head stamped and the checksum of what lies before its position put there. */
  function Completed(buff: seq<Byte>): (r: seq<Byte>)
    requires |buff| == SERIAL_BUFFER && buff[POS_CRC_LO] <= 126
    ensures |r| == |buff|
  {
    var s := buff[START_MSG_0 := PROTO_START_MSG_0][START_MSG_1 := PROTO_START_MSG_1];
    var i, c := buff[POS_CRC_LO], Checksum(s[..buff[POS_CRC_LO]]);
    s[i := c % 256][i + 1 := c / 256]
  }

  /** Write_Message: completes the caller's buffer in place and sends a prefix of it. The sent
      length is the checksum position plus 2, masked to 7 bits. Beyond position 126 the checksum
      would be written outside the buffer. */
  method WriteMessage(buff: array<Byte>) returns (sent: seq<Byte>)
    requires buff.Length == SERIAL_BUFFER && buff[POS_CRC_LO] <= 126
    modifies buff
    ensures buff[..] == Completed(old(buff[..]))
    ensures sent == Completed(old(buff[..]))[..(old(buff[POS_CRC_LO]) + 2) % 128]
  {
    buff[START_MSG_0] := PROTO_START_MSG_0;
    buff[START_MSG_1] := PROTO_START_MSG_1;
    ghost var stamped := buff[..];
    var len := (buff[POS_CRC_LO] + 2) % 128;
    var cksum := CalcCksum16(buff, buff[POS_CRC_LO]);
    var i := buff[POS_CRC_LO];
    assert buff[..i] == stamped[..i];
    var low: Byte, high: Byte := cksum % 256, cksum / 256;
    buff[i] := low;
    buff[i + 1] := high;
    assert buff[..] == stamped[i := low][i + 1 := high];
    sent := buff[..len];
  }

  /** For the positions of every request, 3 to 125, what is sent is the stamped prefix, sealed, and
      the same bytes stand in the buffer; at 126 the masked length is 0 and nothing is sent. */
  lemma CompletedIsSealed(buff: seq<Byte>)
    requires |buff| == SERIAL_BUFFER && 3 <= buff[POS_CRC_LO] <= 126
    ensures buff[POS_CRC_LO] <= 125 ==>
              && Completed(buff)[..(buff[POS_CRC_LO] + 2) % 128] == Seal(Stamped(buff))
              && Completed(buff) == Splice(buff, 0, Seal(Stamped(buff)))
    ensures buff[POS_CRC_LO] == 126 ==> Completed(buff)[..(buff[POS_CRC_LO] + 2) % 128] == []
  {
  }

  /** strstr on the received buffer, which ends at its first NUL byte. */
  predicate HasText(buff: seq<Byte>, text: string) {
    exists k | 0 <= k <= |buff| - |text| :: TextAt(buff, text, k)
  }

  predicate TextAt(buff: seq<Byte>, text: string, k: nat)
    requires k + |text| <= |buff|
  {
    && (forall j | 0 <= j < |text| :: buff[k + j] == text[j] as int)
    && 0 !in buff[..k + |text|]
  }

  const BOOTLOADER_TEXT := "Bootloader"
  const ACK_TEXT := "ACK"

  predicate Bypassed(buff: seq<Byte>) {
    HasText(buff, BOOTLOADER_TEXT) || HasText(buff, ACK_TEXT)
  }

  /** The message contains the text before any NUL. */
  ghost predicate Spells(data: seq<Byte>, text: string) {
    exists k | 0 <= k <= |data| - |text| :: SpellsAt(data, text, k)
  }

  predicate SpellsAt(data: seq<Byte>, text: string, k: nat)
    requires k + |text| <= |data|
  {
    && (forall j | 0 <= j < |text| :: data[k + j] == text[j] as int)
    && forall j | 0 <= j < k :: data[j] != 0
  }

  /** The buffer holds a text exactly if the message it was filled with spells it. */
  lemma {:induction false} TextIsSpelt(data: seq<Byte>, text: string)
    requires |data| <= SERIAL_BUFFER && text != "" && forall j | 0 <= j < |text| :: text[j] != '\0'
    ensures HasText(Padded(data, SERIAL_BUFFER), text) <==> Spells(data, text)
  {
    var b, n := Padded(data, SERIAL_BUFFER), |text|;
    assert b[..|data|] == data;
    if HasText(b, text) {
      var k :| 0 <= k <= |b| - n && TextAt(b, text, k);
      assert b[k + (n - 1)] == text[n - 1] as int;
      assert k + n <= |data|;
      var start := b[..k + n];
      assert forall j | 0 <= j < k :: start[j] == data[j] != 0;
      assert SpellsAt(data, text, k);
    }
    if Spells(data, text) {
      var k :| 0 <= k <= |data| - n && SpellsAt(data, text, k);
      SpeltAt(data, text, k);
    }
  }

  lemma SpeltAt(data: seq<Byte>, text: string, k: nat)
    requires k + |text| <= |data| <= SERIAL_BUFFER && SpellsAt(data, text, k)
    requires forall j | 0 <= j < |text| :: text[j] != '\0'
    ensures TextAt(Padded(data, SERIAL_BUFFER), text, k)
  {
    var b := Padded(data, SERIAL_BUFFER);
    assert b[..|data|] == data;
    var start := b[..k + |text|];
    forall i | 0 <= i < |start|
      ensures start[i] != 0
    {
      if i >= k { assert data[k + (i - k)] == text[i - k] as int; }
    }
  }

  /** What Read_Message returns for a downloaded buffer of `len` received bytes. */
  function Verdict(buff: seq<Byte>, len: nat): int
    requires |buff| == SERIAL_BUFFER && len < SERIAL_BUFFER
  {
    if Bypassed(buff) then len
    else if buff[START_MSG_0] != PROTO_START_MSG_0 || buff[START_MSG_1] != PROTO_START_MSG_1 then
      ERROR_HEAD_MESSAGE
    else if buff[POS_CRC_LO] as int + 2 != len || len <= START_DATA then ERROR_LEN_MESSAGE
    else
      var i := buff[POS_CRC_LO];
      if buff[i + 1] as int * 256 + buff[i] != Checksum(buff[..i]) then ERROR_CKSUM_16
      else len
  }

  /** A frame of this protocol: what Write_Message sends for some buffer. */
  ghost predicate IsFrame(f: seq<Byte>) {
    && 5 <= |f| <= 127
    && f[START_MSG_0] == PROTO_START_MSG_0
    && f[START_MSG_1] == PROTO_START_MSG_1
    && f[POS_CRC_LO] == |f| - 2
    && f == Seal(f[..|f| - 2])
  }

  /** Everything Write_Message sends is a frame that fits an int8_t length. */
  lemma SentIsFrame(buff: seq<Byte>)
    requires |buff| == SERIAL_BUFFER && 3 <= buff[POS_CRC_LO] <= 125
    ensures IsFrame(Seal(Stamped(buff)))
    ensures |Seal(Stamped(buff))| == buff[POS_CRC_LO] + 2 <= 127
  {
    var f := Seal(Stamped(buff));
    assert f[..|f| - 2] == Stamped(buff);
  }

  lemma StampKeepsRest(buff: seq<Byte>)
    requires |buff| == SERIAL_BUFFER && 3 <= buff[POS_CRC_LO] <= 125
    ensures forall i | 2 <= i < buff[POS_CRC_LO] :: Seal(Stamped(buff))[i] == buff[i]
  {
    var stamped := Stamped(buff);
    assert forall i | 2 <= i < |stamped| :: stamped[i] == buff[i];
    assert forall i | 0 <= i < |stamped| :: Seal(stamped)[i] == stamped[i];
  }

  /** What Write_Message sends for such a buffer: a frame with the buffer's own bytes after the head. */
  lemma SentShape(buff: seq<Byte>)
    requires |buff| == SERIAL_BUFFER && 3 <= buff[POS_CRC_LO] <= 125
    ensures var f := Completed(buff)[..(buff[POS_CRC_LO] + 2) % 128];
            && IsFrame(f) && |f| == buff[POS_CRC_LO] + 2
            && forall i | 2 <= i < |f| - 2 :: f[i] == buff[i]
  {
    CompletedIsSealed(buff);
    SentIsFrame(buff);
    StampKeepsRest(buff);
  }

  /** A frame that arrives unchanged is accepted with its full length and identical bytes. */
  lemma FrameAccepted(f: seq<Byte>)
    requires IsFrame(f)
    ensures Verdict(Padded(f, SERIAL_BUFFER), |f|) == |f|
    ensures Padded(f, SERIAL_BUFFER)[..|f|] == f
  {
    var b := Padded(f, SERIAL_BUFFER);
    var i := |f| - 2;
    assert b[..i] == f[..i];
    assert b[i] == f[i] == Checksum(f[..i]) % 256;
  }

  lemma {:induction false} SumBound(s: seq<Byte>)
    ensures Sum(s) <= 255 * |s|
  {
    if s != [] { SumBound(s[..|s| - 1]); }
  }

  lemma {:induction false} SumUpdate(s: seq<Byte>, k: nat, v: Byte)
    requires k < |s|
    ensures Sum(s[k := v]) == Sum(s) - s[k] + v
  {
    var n := |s| - 1;
    if k == n {
      assert s[k := v][..n] == s[..n];
    } else {
      SumUpdate(s[..n], k, v);
      assert s[k := v][..n] == s[..n][k := v];
    }
  }

  /** A frame with exactly one byte altered is rejected, wherever the byte is, exactly if the
      altered bytes do not spell one of the two texts that skip validation. */
  lemma AlteredByteRejected(f: seq<Byte>, k: nat, v: Byte)
    requires IsFrame(f) && k < |f| && v != f[k]
    ensures Verdict(Padded(f[k := v], SERIAL_BUFFER), |f|) < 0 <==> !Bypassed(Padded(f[k := v], SERIAL_BUFFER))
  {
    var b := Padded(f[k := v], SERIAL_BUFFER);
    var i := |f| - 2;
    assert b[..|f|] == f[k := v];
    assert b[i] == f[k := v][i] && b[i + 1] == f[k := v][i + 1];
    assert b[0] == f[k := v][0] && b[1] == f[k := v][1] && b[2] == f[k := v][2];
    if 3 <= k < i {
      assert b[..i] == f[..i][k := v];
      ChecksumDiffers(f[..i], k, v);
      SameBytesSameSum(f[i], f[i + 1], Checksum(f[..i]), Checksum(b[..i]));
    } else if i <= k {
      assert b[..i] == f[..i];
    }
  }

  lemma ChecksumDiffers(body: seq<Byte>, k: nat, v: Byte)
    requires k < |body| <= 125 && v != body[k]
    ensures Checksum(body[k := v]) != Checksum(body)
  {
    SumUpdate(body, k, v);
    SumBound(body);
    SumBound(body[k := v]);
  }

  lemma SameBytesSameSum(low: Byte, high: Byte, c: nat, d: nat)
    requires c < WORD16 && low == c % 256 && high == c / 256 && c != d
    ensures high as int * 256 + low != d
  {
  }

  /** The two texts really do skip validation: this buffer has no valid head and is accepted. */
  lemma AckSkipsValidation()
    ensures var b := Padded(['A' as int, 'C' as int, 'K' as int], SERIAL_BUFFER);
            Verdict(b, 3) == 3 && b[START_MSG_0] != PROTO_START_MSG_0
  {
    var b := Padded(['A' as int, 'C' as int, 'K' as int], SERIAL_BUFFER);
    assert TextAt(b, ACK_TEXT, 0);
  }
}
