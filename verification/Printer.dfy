/** publish_debug_message (src/mqtt_app.c): bytes printed as a decimal list into a fixed buffer
    with a chain of snprintf calls. */
module Printer {
  import opened Bytes

  const JSON_BUFFER := 1024

  const HEAD := "{\"message\":\""
  const TOPIC := "\",\"topic\":\""
  const ADDRESS := "\",\"address\":\""
  const END := "\"}"

  function DigitChar(d: nat): char
    requires d < 10
  {
    '0' + d as char
  }

  /** "%d" for a byte. */
  function Decimal(b: Byte): (t: string)
    ensures 1 <= |t| <= 3
  {
    if b < 10 then [DigitChar(b)]
    else if b < 100 then [DigitChar(b / 10), DigitChar(b % 10)]
    else [DigitChar(b / 100), DigitChar(b / 10 % 10), DigitChar(b % 10)]
  }

  function ListText(data: seq<Byte>): string {
    if data == [] then ""
    else Decimal(data[0]) + (if |data| == 1 then "" else "," + ListText(data[1..]))
  }

  function Tail(topic: string, address: string): string {
    TOPIC + topic + ADDRESS + address + END
  }

  /** The whole text. */
  function Json(data: seq<Byte>, topic: string, address: string): string {
    HEAD + ListText(data) + Tail(topic, address)
  }

  // ---- The loop ----

  /** snprintf of a text that fits with its NUL. */
  method Print(buffer: array<char>, at: nat, text: string) returns (n: nat)
    requires at + |text| < buffer.Length
    modifies buffer
    ensures n == |text|
    ensures buffer[..at + n] == old(buffer[..at]) + text && buffer[at + n] == '\0'
  {
    for i := 0 to |text|
      invariant buffer[..at + i] == old(buffer[..at]) + text[..i]
    {
      buffer[at + i] := text[i];
      assert text[..i + 1] == text[..i] + [text[i]];
    }
    buffer[at + |text|] := '\0';
    assert text[..|text|] == text;
    n := |text|;
  }

  /** One byte of the list, with a comma unless it is the last; the length of the text after it. */
  method PrintItem(buffer: array<char>, at: nat, b: Byte, last: bool) returns (end: nat)
    requires at + |Decimal(b)| + (if last then 0 else 1) < buffer.Length
    modifies buffer
    ensures at <= end < buffer.Length
    ensures buffer[..end] == old(buffer[..at]) + Decimal(b) + if last then "" else ","
  {
    var n := Print(buffer, at, Decimal(b));
    end := at + n;
    if !last {
      n := Print(buffer, end, ",");
      end := end + n;
    }
  }

  /** The text published, if MQTT is ready; json_len is its length. Texts that do not fit the
      buffer are outside this model: the source then computes addresses beyond it. */
  method Publish(data: seq<Byte>, topic: string, address: string, ready: bool) returns (published: Option<string>)
    requires |Json(data, topic, address)| < JSON_BUFFER
    ensures published == if ready then Some(Json(data, topic, address)) else None
  {
    var buffer := new char[JSON_BUFFER](_ => '\0');
    var jsonLen := Print(buffer, 0, HEAD);
    assert HEAD + ListText(data[0..]) == HEAD + ListText(data) by { assert data[0..] == data; }
    for i := 0 to |data|
      invariant 0 <= jsonLen <= |HEAD + ListText(data)|
      invariant buffer[..jsonLen] + ListText(data[i..]) == HEAD + ListText(data)
    {
      ghost var before := buffer[..jsonLen];
      ListSplits(data, i);
      assert |before + ListText(data[i..])| == |HEAD + ListText(data)|;
      jsonLen := PrintItem(buffer, jsonLen, data[i], i == |data| - 1);
      Regroup(before, Decimal(data[i]), if i < |data| - 1 then "," else "", ListText(data[i + 1..]));
    }
    assert buffer[..jsonLen] == HEAD + ListText(data);
    var n := Print(buffer, jsonLen, Tail(topic, address));
    jsonLen := jsonLen + n;
    if ready { published := Some(buffer[..jsonLen]); } else { published := None; }
  }

  lemma ListSplits(data: seq<Byte>, i: nat)
    requires i < |data|
    ensures ListText(data[i..]) ==
            Decimal(data[i]) + (if i < |data| - 1 then "," else "") + ListText(data[i + 1..])
  {
    assert data[i..][1..] == data[i + 1..];
    if i == |data| - 1 { assert data[i + 1..] == []; }
  }

  lemma Regroup(a: string, b: string, c: string, d: string)
    ensures a + b + c + d == a + (b + c + d)
  {
  }

  // ---- Reading it back ----

  predicate IsDigit(c: char) {
    '0' <= c <= '9'
  }

  /** The value of the leading digits, after `acc`, and what follows them. */
  function Digits(t: string, acc: nat): (nat, string) {
    if t == "" || !IsDigit(t[0]) then (acc, t) else Digits(t[1..], 10 * acc + (t[0] - '0') as nat)
  }

  lemma {:induction false} DigitsShorten(t: string, acc: nat)
    ensures |Digits(t, acc).1| <= |t|
    ensures t != "" && IsDigit(t[0]) ==> |Digits(t, acc).1| < |t|
  {
    if t != "" && IsDigit(t[0]) { DigitsShorten(t[1..], 10 * acc + (t[0] - '0') as nat); }
  }

  /** A decimal list up to the closing quote. */
  function ParseList(t: string): Option<seq<Byte>>
    decreases |t|
  {
    if t == "" then None
    else if t[0] == '"' then Some([])
    else if !IsDigit(t[0]) then None
    else
      var (v, rest) := Digits(t, 0);
      assert |rest| < |t| by { DigitsShorten(t, 0); }
      if v >= 256 || rest == "" then None
      else if rest[0] == '"' then Some([v])
      else if rest[0] != ',' then None
      else
        var more := ParseList(rest[1..]);
        if more.None? then None else Some([v] + more.value)
  }

  function Parse(text: string): Option<seq<Byte>> {
    if HEAD <= text then ParseList(text[|HEAD|..]) else None
  }

  lemma DigitReads(d: nat, rest: string, acc: nat)
    requires d < 10
    ensures Digits([DigitChar(d)] + rest, acc) == Digits(rest, 10 * acc + d)
  {
    assert ([DigitChar(d)] + rest)[1..] == rest;
  }

  lemma DigitsOf(b: Byte)
    ensures 10 * (b / 10) + b % 10 == b
    ensures 10 * (10 * (b / 100) + b / 10 % 10) + b % 10 == b
    ensures b / 100 < 10 && (b < 100 ==> b / 10 < 10)
  {
  }

  lemma DecimalReads(b: Byte, rest: string)
    requires rest == "" || !IsDigit(rest[0])
    ensures Digits(Decimal(b) + rest, 0) == (b, rest)
  {
    DigitsOf(b);
    StopsAt(rest, b);
    if b < 10 {
      DigitReads(b, rest, 0);
    } else if b < 100 {
      TwoDigitsRead(b / 10, b % 10, rest, 0);
      assert Decimal(b) == [DigitChar(b / 10), DigitChar(b % 10)];
    } else {
      ThreeDigitsRead(b / 100, b / 10 % 10, b % 10, rest);
      assert Decimal(b) == [DigitChar(b / 100), DigitChar(b / 10 % 10), DigitChar(b % 10)];
    }
  }

  lemma ThreeDigitsRead(hundreds: nat, tens: nat, ones: nat, rest: string)
    requires hundreds < 10 && tens < 10 && ones < 10
    ensures Digits([DigitChar(hundreds), DigitChar(tens), DigitChar(ones)] + rest, 0)
            == Digits(rest, 10 * (10 * hundreds + tens) + ones)
  {
    var tail := [DigitChar(tens), DigitChar(ones)] + rest;
    assert [DigitChar(hundreds), DigitChar(tens), DigitChar(ones)] + rest == [DigitChar(hundreds)] + tail;
    DigitReads(hundreds, tail, 0);
    TwoDigitsRead(tens, ones, rest, hundreds);
  }

  lemma TwoDigitsRead(tens: nat, ones: nat, rest: string, acc: nat)
    requires tens < 10 && ones < 10
    ensures Digits([DigitChar(tens), DigitChar(ones)] + rest, acc) == Digits(rest, 10 * (10 * acc + tens) + ones)
  {
    var tail := [DigitChar(ones)] + rest;
    assert [DigitChar(tens), DigitChar(ones)] + rest == [DigitChar(tens)] + tail;
    DigitReads(tens, tail, acc);
    DigitReads(ones, rest, 10 * acc + tens);
  }

  lemma StopsAt(rest: string, acc: nat)
    requires rest == "" || !IsDigit(rest[0])
    ensures Digits(rest, acc) == (acc, rest)
  {
  }

  /** The parser on one number and what follows it. */
  lemma NumberReads(b: Byte, rest: string)
    requires rest != "" && (rest[0] == '"' || rest[0] == ',')
    ensures ParseList(Decimal(b) + rest) ==
            if rest[0] == '"' then Some([b])
            else if ParseList(rest[1..]).None? then None
            else Some([b] + ParseList(rest[1..]).value)
  {
    DecimalReads(b, rest);
    assert IsDigit((Decimal(b) + rest)[0]);
  }

  lemma {:induction false} ListReads(data: seq<Byte>, rest: string)
    requires rest != "" && rest[0] == '"'
    ensures ParseList(ListText(data) + rest) == Some(data)
    decreases |data|
  {
    if data == [] {
      assert ListText(data) + rest == rest;
    } else {
      assert data == [data[0]] + data[1..];
      if |data| == 1 {
        assert ListText(data) + rest == Decimal(data[0]) + rest;
        NumberReads(data[0], rest);
        assert data == [data[0]];
      } else {
        var more := "," + ListText(data[1..]) + rest;
        assert ListText(data) + rest == Decimal(data[0]) + more;
        assert more[1..] == ListText(data[1..]) + rest;
        NumberReads(data[0], more);
        ListReads(data[1..], rest);
      }
    }
  }

  /** A decimal-list parser recovers exactly the bytes, whatever topic and address are. */
  lemma ParserRecovers(data: seq<Byte>, topic: string, address: string)
    ensures Parse(Json(data, topic, address)) == Some(data)
  {
    var text := Json(data, topic, address);
    ListReads(data, Tail(topic, address));
    assert text[..|HEAD|] == HEAD && text[|HEAD|..] == ListText(data) + Tail(topic, address);
  }

  // ---- The whole text, read by its keys ----

  predicate Quoteless(t: string) {
    forall i | 0 <= i < |t| :: t[i] != '"'
  }

  /** The characters before the first quote, and what follows that quote. */
  function UpToQuote(t: string): (r: Option<(string, string)>)
    ensures r.Some? ==> |r.value.1| < |t|
  {
    if t == "" then None
    else if t[0] == '"' then Some(("", t[1..]))
    else
      match UpToQuote(t[1..])
      case None => None
      case Some((s, rest)) => Some(([t[0]] + s, rest))
  }

  /** A quoted string at the front of the text. */
  function Quoted(t: string): (r: Option<(string, string)>)
    ensures r.Some? ==> |r.value.1| < |t|
  {
    if t == "" || t[0] != '"' then None else UpToQuote(t[1..])
  }

  /** The members of an object whose values are strings, up to its closing brace. */
  function Members(t: string): Option<seq<(string, string)>>
    decreases |t|
  {
    match Quoted(t)
    case None => None
    case Some((key, afterKey)) =>
      if afterKey == "" || afterKey[0] != ':' then None
      else
        match Quoted(afterKey[1..])
        case None => None
        case Some((value, rest)) =>
          if rest == "}" then Some([(key, value)])
          else if rest == "" || rest[0] != ',' then None
          else
            match Members(rest[1..])
            case None => None
            case Some(more) => Some([(key, value)] + more)
  }

  function ParseObject(t: string): Option<seq<(string, string)>> {
    if t == "" || t[0] != '{' then None else Members(t[1..])
  }

  /** The value of the first member with the key. */
  function Find(members: seq<(string, string)>, key: string): Option<string> {
    if members == [] then None
    else if members[0].0 == key then Some(members[0].1)
    else Find(members[1..], key)
  }

  lemma {:induction false} UpToQuoteReads(s: string, rest: string)
    requires Quoteless(s)
    ensures UpToQuote(s + "\"" + rest) == Some((s, rest))
  {
    var t := s + "\"" + rest;
    if s == "" {
      assert t[1..] == rest;
    } else {
      assert t[1..] == s[1..] + "\"" + rest;
      UpToQuoteReads(s[1..], rest);
      assert [s[0]] + s[1..] == s;
    }
  }

  /** A member as text. */
  function Member(key: string, value: string): string {
    "\"" + key + "\":\"" + value + "\""
  }

  lemma QuotedReads(s: string, rest: string)
    requires Quoteless(s)
    ensures Quoted("\"" + s + "\"" + rest) == Some((s, rest))
  {
    var t := "\"" + s + "\"" + rest;
    assert t[1..] == s + "\"" + rest;
    UpToQuoteReads(s, rest);
  }

  /** The parser once a member's key and value have been read. */
  lemma MembersStep(t: string, key: string, afterKey: string, value: string, rest: string)
    requires Quoted(t) == Some((key, afterKey)) && afterKey != "" && afterKey[0] == ':'
    requires Quoted(afterKey[1..]) == Some((value, rest))
    ensures rest == "}" ==> Members(t) == Some([(key, value)])
    ensures rest != "" && rest[0] == ',' && Members(rest[1..]).Some? ==>
              Members(t) == Some([(key, value)] + Members(rest[1..]).value)
  {
  }

  lemma MemberReads(key: string, value: string, rest: string)
    requires Quoteless(key) && Quoteless(value)
    ensures rest == "}" ==> Members(Member(key, value) + rest) == Some([(key, value)])
    ensures rest != "" && rest[0] == ',' && Members(rest[1..]).Some? ==>
              Members(Member(key, value) + rest) == Some([(key, value)] + Members(rest[1..]).value)
  {
    var tail := "\"" + value + "\"" + rest;
    var afterKey := ":" + tail;
    var t := Member(key, value) + rest;
    MemberOpens("\"" + key + "\":\"", key, value, rest);
    assert t == "\"" + key + "\"" + afterKey;
    assert afterKey[1..] == tail;
    QuotedReads(key, afterKey);
    QuotedReads(value, rest);
    MembersStep(t, key, afterKey, value, rest);
  }

  lemma {:induction false} ListHasNoQuote(data: seq<Byte>)
    ensures Quoteless(ListText(data))
  {
    if data != [] { ListHasNoQuote(data[1..]); }
  }

  /** A member's text, opened by its key. */
  lemma MemberOpens(open: string, key: string, value: string, rest: string)
    requires open == "\"" + key + "\":\""
    ensures Member(key, value) + rest == open + value + ("\"" + rest)
  {
  }

  /** The text between a member's value and the next one's. */
  lemma NextMember(separator: string, open: string, value: string, rest: string)
    requires separator == "\"," + open
    ensures separator + value + rest == "\"" + ("," + (open + value + rest))
  {
  }

  lemma TailNests(topic: string, address: string)
    ensures Tail(topic, address) == TOPIC + topic + (ADDRESS + address + END)
  {
  }

  lemma HeadOpens(text: string, rest: string)
    ensures HEAD + text + rest == "{" + ("\"message\":\"" + text + rest)
  {
    assert HEAD == "{" + "\"message\":\"";
  }

  lemma JsonIsMembers(data: seq<Byte>, topic: string, address: string)
    ensures var t3 := Member("address", address) + "}";
            var t2 := Member("topic", topic) + ("," + t3);
            Json(data, topic, address) == "{" + (Member("message", ListText(data)) + ("," + t2))
  {
    var t3 := Member("address", address) + "}";
    var t2 := Member("topic", topic) + ("," + t3);
    var last := ADDRESS + address + END;
    MemberOpens("\"address\":\"", "address", address, "}");
    assert END == "\"" + "}";
    NextMember(ADDRESS, "\"address\":\"", address, END);
    assert last == "\"" + ("," + t3);
    MemberOpens("\"topic\":\"", "topic", topic, "," + t3);
    NextMember(TOPIC, "\"topic\":\"", topic, last);
    TailNests(topic, address);
    assert Tail(topic, address) == "\"" + ("," + t2);
    MemberOpens("\"message\":\"", "message", ListText(data), "," + t2);
    HeadOpens(ListText(data), Tail(topic, address));
  }

  /** The published text is an object from which its three members are read back by their keys, whatever
      they are, if topic and address have no quote in them. */
  lemma {:induction false} MembersReadBack(data: seq<Byte>, topic: string, address: string)
    requires Quoteless(topic) && Quoteless(address)
    ensures var members := ParseObject(Json(data, topic, address));
            && members.Some? && |members.value| == 3
            && Find(members.value, "message") == Some(ListText(data))
            && Find(members.value, "topic") == Some(topic)
            && Find(members.value, "address") == Some(address)
    ensures ParseList(ListText(data) + "\"") == Some(data)
  {
    var t3 := Member("address", address) + "}";
    var t2 := Member("topic", topic) + ("," + t3);
    var t1 := Member("message", ListText(data)) + ("," + t2);
    JsonIsMembers(data, topic, address);
    ListHasNoQuote(data);
    MemberReads("address", address, "}");
    MemberReads("topic", topic, "," + t3);
    MemberReads("message", ListText(data), "," + t2);
    assert ("," + t3)[1..] == t3 && ("," + t2)[1..] == t2 && ("{" + t1)[1..] == t1;
    var members := [("message", ListText(data))] + ([("topic", topic)] + [("address", address)]);
    assert ParseObject(Json(data, topic, address)) == Some(members);
    FindsThree(ListText(data), topic, address);
    ListReads(data, "\"");
  }

  lemma FindsThree(message: string, topic: string, address: string)
    ensures var m := [("message", message)] + ([("topic", topic)] + [("address", address)]);
            && Find(m, "message") == Some(message) && Find(m, "topic") == Some(topic)
            && Find(m, "address") == Some(address)
  {
    var m3 := [("address", address)];
    var m2 := [("topic", topic)] + m3;
    var m := [("message", message)] + m2;
    assert m[1..] == m2 && m2[1..] == m3;
    assert "message" != "topic" && "message" != "address" && "topic" != "address";
    assert Find(m3, "address") == Some(address) && Find(m2, "topic") == Some(topic);
    assert Find(m2, "address") == Some(address);
  }

  // ---- Exactly how long the text is ----

  function Width(b: Byte): nat {
    if b < 10 then 1 else if b < 100 then 2 else 3
  }

  function Widths(data: seq<Byte>): nat {
    if data == [] then 0 else Width(data[0]) + Widths(data[1..])
  }

  lemma {:induction false} ListLength(data: seq<Byte>)
    ensures data != [] ==> |ListText(data)| == Widths(data) + |data| - 1
    ensures |data| <= Widths(data) <= 3 * |data|
  {
    if data != [] { ListLength(data[1..]); }
  }

  /** The exact length of the text, and so exactly the payloads that fit the buffer with their NUL. */
  lemma JsonLength(data: seq<Byte>, topic: string, address: string)
    ensures var n := Widths(data) + |data| + |topic| + |address| + (if data == [] then 38 else 37);
            && |Json(data, topic, address)| == n
            && (|Json(data, topic, address)| < JSON_BUFFER <==> n <= 1023)
    ensures data != [] ==> |Json(data, topic, address)| <= 37 + 4 * |data| + |topic| + |address|
  {
    ListLength(data);
  }

  /** A publication of the 241-byte EEPROM fits whatever it holds exactly if topic and address have
      at most 22 characters together. */
  lemma EepromPublicationFits(topic: string, address: string)
    ensures (forall data: seq<Byte> | |data| == 241 :: |Json(data, topic, address)| < JSON_BUFFER)
            <==> |topic| + |address| <= 22
  {
    forall data: seq<Byte> | |data| == 241
      ensures |Json(data, topic, address)| <= 1001 + |topic| + |address|
    {
      JsonLength(data, topic, address);
    }
    var worst: seq<Byte> := seq(241, _ => 255);
    Widest(worst);
    JsonLength(worst, topic, address);
  }

  lemma {:induction false} Widest(data: seq<Byte>)
    requires forall i | 0 <= i < |data| :: data[i] >= 100
    ensures Widths(data) == 3 * |data|
  {
    if data != [] { Widest(data[1..]); }
  }
}
