/** What a notification says: its JSON reads back, and how much of it shrinking may take. */
module NotificationLaws {
  import opened Common
  import opened ObserverErrors

  // ---- Reading JSON back (RFC 8259 section 7) ----

  function HexValue(c: char): Option<nat> {
    if '0' <= c <= '9' then Some(c as int - '0' as int)
    else if 'a' <= c <= 'f' then Some(c as int - 'a' as int + 10)
    else if 'A' <= c <= 'F' then Some(c as int - 'A' as int + 10)
    else None
  }

  /** The character an escape at the start of `s`, after its backslash, stands for, and its length. */
  function ReadEscape(s: string): Option<(char, nat)> {
    if s == "" then None
    else match s[0]
      case '"' => Some(('"', 1))
      case '\\' => Some(('\\', 1))
      case '/' => Some(('/', 1))
      case 'b' => Some(('\U{0008}', 1))
      case 'f' => Some(('\U{000C}', 1))
      case 'n' => Some(('\n', 1))
      case 'r' => Some(('\r', 1))
      case 't' => Some(('\t', 1))
      case 'u' =>
        if |s| < 5 || (exists i :: 1 <= i < 5 && HexValue(s[i]).None?) then None
        else
          var v := ((HexValue(s[1]).value * 16 + HexValue(s[2]).value) * 16 + HexValue(s[3]).value) * 16 + HexValue(s[4]).value;
          if 0xD800 <= v < 0xE000 || v > 0xFFFF then None else Some((v as char, 5))
      case _ => None
  }

  /** The string literal at the start of `s`, after its opening quote, and what follows it. */
  function ReadString(s: string): (r: Option<(string, string)>)
    ensures r.Some? ==> |r.value.1| < |s|
    decreases |s|
  {
    if s == "" || s[0] < ' ' then None
    else if s[0] == '"' then Some(("", s[1..]))
    else
      var escaped := if s[0] == '\\' then ReadEscape(s[1..]) else Some((s[0], 0));
      if escaped.None? || 1 + escaped.value.1 > |s| then None
      else
        var rest := ReadString(s[1 + escaped.value.1..]);
        if rest.None? then None else Some(([escaped.value.0] + rest.value.0, rest.value.1))
  }

  predicate Opens(s: string, prefix: string) {
    prefix <= s
  }

  /** The members of an object after its opening brace. */
  function ReadMembers(s: string): Option<seq<(string, string)>>
    decreases |s|
  {
    if !Opens(s, "\"") then None
    else
      var key := ReadString(s[1..]);
      if key.None? || !Opens(key.value.1, ":\"") then None
      else
        var value := ReadString(key.value.1[2..]);
        if value.None? then None
        else if value.value.1 == "}" then Some([(key.value.0, value.value.0)])
        else if !Opens(value.value.1, ",") then None
        else
          var rest := ReadMembers(value.value.1[1..]);
          if rest.None? then None else Some([(key.value.0, value.value.0)] + rest.value)
  }

  function ReadObject(s: string): Option<seq<(string, string)>> {
    if Opens(s, "{") then ReadMembers(s[1..]) else None
  }

  lemma ReadOneEscaped(c: char, tail: string)
    ensures var s := EscapeChar(c) + tail;
            && s[0] != '"' && !(s[0] < ' ')
            && (s[0] != '\\' ==> s == [c] + tail)
            && (s[0] == '\\' ==> ReadEscape(s[1..]) == Some((c, |EscapeChar(c)| - 1)) && s[|EscapeChar(c)|..] == tail)
  {
    var e := EscapeChar(c);
    var s := e + tail;
    assert s[|e|..] == tail;
    if |e| == 6 {
      assert s[1..][1] == '0' && s[1..][2] == '0' && s[1..][3] == e[4] && s[1..][4] == e[5];
    }
  }

  /** An escaped string reads back as itself, whatever follows its closing quote. */
  lemma {:induction false} StringRoundTrip(s: string, tail: string)
    ensures ReadString(Escape(s) + "\"" + tail) == Some((s, tail))
  {
    if s == "" {
      assert Escape(s) + "\"" + tail == "\"" + tail;
    } else {
      var c, rest := s[0], Escape(s[1..]) + "\"" + tail;
      StringRoundTrip(s[1..], tail);
      assert Escape(s) + "\"" + tail == EscapeChar(c) + rest;
      ReadOneEscaped(c, rest);
      assert s == [c] + s[1..];
    }
  }

  lemma MemberSlices(key: string, value: string, tail: string)
    ensures var s := "\"" + key + "\":\"" + value + "\"" + tail;
            && s[0] == '"' && s[1..] == key + "\"" + (":\"" + value + "\"" + tail)
    ensures (":\"" + value + "\"" + tail)[2..] == value + "\"" + tail
  {
  }

  /** One member is read off the front of an object. */
  lemma MemberRead(key: string, value: string, tail: string)
    requires tail == "}" || Opens(tail, ",")
    ensures var rest := ReadMembers(tail[1..]);
            ReadMembers(Member(key, value) + tail)
            == if tail == "}" then Some([(key, value)])
               else if rest.None? then None else Some([(key, value)] + rest.value)
  {
    hide Escape, ReadString;
    MemberSlices(Escape(key), Escape(value), tail);
    StringRoundTrip(key, ":\"" + Escape(value) + "\"" + tail);
    StringRoundTrip(value, tail);
  }

  lemma {:induction false} MembersRoundTrip(fields: seq<(string, string)>)
    requires fields != []
    ensures ReadMembers(Members(fields) + "}") == Some(fields)
    decreases |fields|
  {
    hide ReadMembers, Member;
    var (key, value) := fields[0];
    var tail := if |fields| == 1 then "}" else "," + (Members(fields[1..]) + "}");
    MemberRead(key, value, tail);
    assert Members(fields) + "}" == Member(key, value) + tail;
    if |fields| == 1 {
      assert fields == [(key, value)];
    } else {
      MembersRoundTrip(fields[1..]);
      assert tail[1..] == Members(fields[1..]) + "}";
      assert fields == [(key, value)] + fields[1..];
    }
  }

  /** Every notification is a JSON object that reads back as exactly its fields. */
  lemma NotificationReadsBack(code: ObserverErrorCode, d: Draft, at: string)
    ensures ReadObject(EncodeObject(Fields(code, d, at))) == Some(Fields(code, d, at))
  {
    hide Members, ReadMembers;
    var fields := Fields(code, d, at);
    MembersRoundTrip(fields);
    assert EncodeObject(fields)[1..] == Members(fields) + "}";
  }

  /** The value of the first field of that name. */
  function Lookup(fields: seq<(string, string)>, key: string): Option<string> {
    if fields == [] then None
    else if fields[0].0 == key then Some(fields[0].1)
    else Lookup(fields[1..], key)
  }

  /** The code point of the bytes at the start of a text and their number (RFC 3629 section 3). */
  function ReadPoint(bytes: seq<byte>): Option<(nat, nat)> {
    if bytes == [] then None
    else
      var lead: int := bytes[0];
      if lead < 0x80 then Some((lead, 1))
      else if lead < 0xE0 && |bytes| >= 2 then Some((Fold(lead % 32, bytes[1]), 2))
      else if 0xE0 <= lead < 0xF0 && |bytes| >= 3 then Some((Fold(Fold(lead % 16, bytes[1]), bytes[2]), 3))
      else if 0xF0 <= lead && |bytes| >= 4 then Some((Fold(Fold(Fold(lead % 8, bytes[1]), bytes[2]), bytes[3]), 4))
      else None
  }

  /** Six more bits from a continuation byte. */
  function Fold(high: nat, b: byte): nat {
    high * 64 + b % 64
  }

  /** The text behind UTF-8 bytes. */
  function ReadUtf8(bytes: seq<byte>): string
    decreases |bytes|
  {
    var point := ReadPoint(bytes);
    if point.None? || point.value.0 >= 0x11_0000 || 0xD800 <= point.value.0 < 0xE000 then ""
    else [point.value.0 as char] + ReadUtf8(bytes[point.value.1..])
  }

  lemma LastSix(n: nat)
    ensures Fold(n / 0x40, 0x80 + n % 0x40) == n
  {
  }

  lemma TwoBytes(n: nat)
    requires n < 0x800
    ensures Fold((0xC0 + n / 0x40) % 32, 0x80 + n % 0x40) == n
  {
  }

  lemma ThreeBytes(n: nat)
    requires n < 0x1_0000
    ensures Fold(Fold((0xE0 + n / 0x1000) % 16, 0x80 + n / 0x40 % 0x40), 0x80 + n % 0x40) == n
  {
    hide Fold;
    var m := n / 0x40;
    assert n / 0x1000 == m / 0x40 && (0xE0 + m / 0x40) % 16 == m / 0x40;
    LastSix(m);
    LastSix(n);
  }

  lemma FourBytes(n: nat)
    requires n < 0x11_0000
    ensures Fold(Fold(Fold((0xF0 + n / 0x4_0000 % 8) % 8, 0x80 + n / 0x1000 % 0x40), 0x80 + n / 0x40 % 0x40), 0x80 + n % 0x40) == n
  {
    hide Fold;
    var l := n / 0x40;
    var m := l / 0x40;
    assert n / 0x1000 == m && n / 0x4_0000 == m / 0x40 && m / 0x40 < 8;
    assert (0xF0 + m / 0x40 % 8) % 8 == m / 0x40;
    LastSix(m);
    LastSix(l);
    LastSix(n);
  }

  lemma ReadUtf8Char(c: char, tail: seq<byte>)
    ensures ReadUtf8(Utf8Char(c) + tail) == [c] + ReadUtf8(tail)
  {
    hide Fold;
    var n, bytes := c as int, Utf8Char(c) + tail;
    assert bytes[|Utf8Char(c)|..] == tail;
    if n >= 0x1_0000 {
      FourBytes(n);
    } else if n >= 0x800 {
      ThreeBytes(n);
    } else if n >= 0x80 {
      TwoBytes(n);
    }
    assert ReadPoint(bytes) == Some((n, |Utf8Char(c)|));
  }

  lemma {:induction false} Utf8RoundTrip(s: string)
    ensures ReadUtf8(Utf8(s)) == s
  {
    hide Utf8Char, ReadUtf8;
    if s == "" {
      ReadUtf8Nothing();
    } else {
      Utf8RoundTrip(s[1..]);
      ReadUtf8Char(s[0], Utf8(s[1..]));
      assert s == [s[0]] + s[1..];
    }
  }

  lemma ReadUtf8Nothing()
    ensures ReadUtf8([]) == ""
  {
  }

  /** Decoding the bytes of a notification gives an object with each part under its own name and nothing else. */
  lemma NotificationSays(code: ObserverErrorCode, d: Draft, at: string, name: string)
    ensures var read := ReadObject(ReadUtf8(Encode(code, d, at)));
            && read.Some?
            && Lookup(read.value, name) ==
                 if name == "code" then Some(CodeName(code))
                 else if name == "message" then Some(d.message)
                 else if name == "topic" then d.topic
                 else if name == "iata" then d.iata
                 else if name == "at" then Some(at)
                 else None
  {
    hide EncodeObject, ReadObject, Utf8, ReadUtf8, Fields, Lookup, CodeName;
    NotificationReadsBack(code, d, at);
    Utf8RoundTrip(EncodeObject(Fields(code, d, at)));
    FieldByName(code, d, at, name);
  }

  lemma LookupIn(key: string, value: string, rest: seq<(string, string)>, name: string)
    ensures Lookup([(key, value)] + rest, name) == if key == name then Some(value) else Lookup(rest, name)
  {
    assert ([(key, value)] + rest)[1..] == rest;
  }

  lemma LookupFrom(optional: seq<(string, string)>, key: string, rest: seq<(string, string)>, name: string)
    requires |optional| <= 1 && (optional != [] ==> optional[0].0 == key)
    ensures Lookup(optional + rest, name) == if optional != [] && key == name then Some(optional[0].1) else Lookup(rest, name)
  {
    hide Lookup;
    if optional == [] {
      assert optional + rest == rest;
    } else {
      assert optional == [(key, optional[0].1)];
      LookupIn(key, optional[0].1, rest, name);
    }
  }

  lemma FieldByName(code: ObserverErrorCode, d: Draft, at: string, name: string)
    ensures Lookup(Fields(code, d, at), name) ==
      if name == "code" then Some(CodeName(code))
      else if name == "message" then Some(d.message)
      else if name == "topic" then d.topic
      else if name == "iata" then d.iata
      else if name == "at" then Some(at)
      else None
  {
    hide CodeName, Lookup;
    var topic := if d.topic.Some? then [("topic", d.topic.value)] else [];
    var iata := if d.iata.Some? then [("iata", d.iata.value)] else [];
    assert Fields(code, d, at)
        == [("code", CodeName(code))] + ([("message", d.message)] + (topic + (iata + ([("at", at)] + []))));
    LookupIn("code", CodeName(code), [("message", d.message)] + (topic + (iata + ([("at", at)] + []))), name);
    LookupIn("message", d.message, topic + (iata + ([("at", at)] + [])), name);
    LookupFrom(topic, "topic", iata + ([("at", at)] + []), name);
    LookupFrom(iata, "iata", [("at", at)] + [], name);
    LookupIn("at", at, [], name);
    LookupNothing(name);
  }

  lemma LookupNothing(name: string)
    ensures Lookup([], name).None?
  {
  }

  // ---- What shrinking keeps ----

  /** `short` is `text` itself or a prefix of at least `least` characters followed by dots. */
  predicate Abbreviates(short: string, text: string, least: nat) {
    short == text || exists k :: least <= k < |text| && short == text[..k] + "..."
  }

  lemma ShortenAbbreviates(short: string, text: string, least: nat)
    requires Abbreviates(short, text, least) && least >= 3 && |short| >= 2 * least
    ensures Abbreviates(Shorten(short), text, least)
  {
    var half := |short| / 2;
    if short == text {
      assert Shorten(short) == text[..half] + "...";
    } else {
      var k :| least <= k < |text| && short == text[..k] + "...";
      assert half <= k && short[..half] == text[..half];
      assert Shorten(short) == text[..half] + "...";
    }
  }

  predicate OptionalAbbreviates(short: Option<string>, text: Option<string>) {
    short.None? || (text.Some? && Abbreviates(short.value, text.value, 4))
  }

  /** How a draft reached by shrinking relates to the original: IATA is touched only once the topic is
      gone, the message only once both are gone, and what is left are beginnings of the originals. */
  predicate ShrunkFrom(d: Draft, original: Draft) {
    && OptionalAbbreviates(d.topic, original.topic)
    && OptionalAbbreviates(d.iata, original.iata)
    && Abbreviates(d.message, original.message, 16)
    && (d.iata != original.iata ==> d.topic.None?)
    && (d.message != original.message ==> d.topic.None? && d.iata.None?)
  }

  lemma ShrinkStep(d: Draft, original: Draft)
    requires ShrunkFrom(d, original) && Shrink(d).Some?
    ensures ShrunkFrom(Shrink(d).value, original)
  {
    hide Shorten, Abbreviates;
    if d.topic.Some? {
      if |d.topic.value| > 8 { ShortenAbbreviates(d.topic.value, original.topic.value, 4); }
    } else if d.iata.Some? {
      if |d.iata.value| > 8 { ShortenAbbreviates(d.iata.value, original.iata.value, 4); }
    } else {
      ShortenAbbreviates(d.message, original.message, 16);
    }
  }

  lemma {:induction false} SettledFrom(code: ObserverErrorCode, d: Draft, original: Draft, at: string)
    requires |at| == 24 && ShrunkFrom(d, original)
    ensures Settle(code, d, at).Some? && ShrunkFrom(Settle(code, d, at).value, original)
    decreases Weight(d)
  {
    hide Fits, ShrunkFrom;
    SmallDraftFits(code, d, at);
    if !Fits(code, d, at) {
      ShrinkLightens(d);
      ShrinkStep(d, original);
      SettledFrom(code, Shrink(d).value, original, at);
    }
  }

  // ---- Shrinking takes no more than it must ----

  /** Whether a notification with these parts stays within 768 bytes. */
  predicate Within(code: ObserverErrorCode, message: string, topic: Option<string>, iata: Option<string>, at: string) {
    |Encode(code, Draft(message, topic, iata), at)| <= 768
  }

  predicate StepsDown(versions: seq<string>, i: nat, limit: nat)
    requires 0 < i < |versions|
  {
    |versions[i - 1]| > limit && IsHalf(versions[i], versions[i - 1])
  }

  /** Versions of a text, each half of the one before it, which is longer than `limit`. */
  predicate IsHalving(versions: seq<string>, text: string, limit: nat) {
    && |versions| > 0 && versions[0] == text
    && forall i :: 0 < i < |versions| ==> StepsDown(versions, i, limit)
  }

  /** What comes after those versions: half of the last, or nothing when that was short enough to go. */
  predicate Succeeds(next: Option<string>, versions: seq<string>, limit: nat) {
    && |versions| > 0
    && var last := versions[|versions| - 1];
       if next.Some? then |last| > limit && IsHalf(next.value, last) else |last| <= limit
  }

  predicate TopicRefused(code: ObserverErrorCode, versions: seq<string>, original: Draft, at: string) {
    forall i :: 0 <= i < |versions| ==> !Within(code, original.message, Some(versions[i]), original.iata, at)
  }

  predicate IataRefused(code: ObserverErrorCode, versions: seq<string>, original: Draft, at: string) {
    forall i :: 0 <= i < |versions| ==> !Within(code, original.message, None, Some(versions[i]), at)
  }

  predicate MessageRefused(code: ObserverErrorCode, versions: seq<string>, at: string) {
    forall i :: 0 <= i < |versions| ==> !Within(code, versions[i], None, None, at)
  }

  /** The topic is the original one, or no version before it fitted beside message and IATA as given. */
  ghost predicate TopicNeeded(code: ObserverErrorCode, d: Draft, original: Draft, at: string) {
    d.topic == original.topic
    || (original.topic.Some?
        && exists versions :: IsHalving(versions, original.topic.value, 8) && Succeeds(d.topic, versions, 8)
                              && TopicRefused(code, versions, original, at))
  }

  /** The IATA is the original one, or no version before it fitted beside the message as given, without a topic. */
  ghost predicate IataNeeded(code: ObserverErrorCode, d: Draft, original: Draft, at: string) {
    d.iata == original.iata
    || (original.iata.Some?
        && exists versions :: IsHalving(versions, original.iata.value, 8) && Succeeds(d.iata, versions, 8)
                              && IataRefused(code, versions, original, at))
  }

  /** The message is the original one, or no version before it fitted on its own. */
  ghost predicate MessageNeeded(code: ObserverErrorCode, d: Draft, original: Draft, at: string) {
    d.message == original.message
    || exists versions :: IsHalving(versions, original.message, 32) && Succeeds(Some(d.message), versions, 32)
                          && MessageRefused(code, versions, at)
  }

  /** Nothing was taken from a draft that did not have to go, and nothing out of turn. */
  ghost predicate TakesNoMore(code: ObserverErrorCode, d: Draft, original: Draft, at: string) {
    && (d.iata != original.iata ==> d.topic.None?)
    && (d.message != original.message ==> d.topic.None? && d.iata.None?)
    && TopicNeeded(code, d, original, at) && IataNeeded(code, d, original, at) && MessageNeeded(code, d, original, at)
  }

  lemma HalvingStarts(text: string, limit: nat)
    ensures IsHalving([text], text, limit)
  {
  }

  lemma HalvingGrows(versions: seq<string>, text: string, next: string, limit: nat)
    requires IsHalving(versions, text, limit) && Succeeds(Some(next), versions, limit)
    ensures IsHalving(versions + [next], text, limit)
  {
    hide IsHalf;
    var longer := versions + [next];
    forall i | 0 < i < |longer| ensures StepsDown(longer, i, limit) {
      if i < |versions| { assert StepsDown(versions, i, limit); }
    }
  }

  lemma FitsIsWithin(code: ObserverErrorCode, d: Draft, at: string)
    ensures Fits(code, d, at) <==> Within(code, d.message, d.topic, d.iata, at)
  {
    hide Encode;
  }

  /** The versions of the topic tried so far, the present one included. */
  lemma TopicVersions(code: ObserverErrorCode, d: Draft, original: Draft, at: string) returns (versions: seq<string>)
    requires d.message == original.message && d.iata == original.iata && TopicNeeded(code, d, original, at)
    requires d.topic.Some? && !Fits(code, d, at)
    ensures original.topic.Some? && IsHalving(versions, original.topic.value, 8)
    ensures |versions| > 0 && versions[|versions| - 1] == d.topic.value && TopicRefused(code, versions, original, at)
  {
    hide IsHalving, Fits, Within, IsHalf, Succeeds;
    FitsIsWithin(code, d, at);
    if d.topic == original.topic {
      versions := [d.topic.value];
      HalvingStarts(d.topic.value, 8);
    } else {
      var before :| IsHalving(before, original.topic.value, 8) && Succeeds(d.topic, before, 8)
                    && TopicRefused(code, before, original, at);
      HalvingGrows(before, original.topic.value, d.topic.value, 8);
      versions := before + [d.topic.value];
    }
  }

  lemma IataVersions(code: ObserverErrorCode, d: Draft, original: Draft, at: string) returns (versions: seq<string>)
    requires d.message == original.message && d.topic.None? && IataNeeded(code, d, original, at)
    requires d.iata.Some? && !Fits(code, d, at)
    ensures original.iata.Some? && IsHalving(versions, original.iata.value, 8)
    ensures |versions| > 0 && versions[|versions| - 1] == d.iata.value && IataRefused(code, versions, original, at)
  {
    hide IsHalving, Fits, Within, IsHalf, Succeeds;
    FitsIsWithin(code, d, at);
    if d.iata == original.iata {
      versions := [d.iata.value];
      HalvingStarts(d.iata.value, 8);
    } else {
      var before :| IsHalving(before, original.iata.value, 8) && Succeeds(d.iata, before, 8)
                    && IataRefused(code, before, original, at);
      HalvingGrows(before, original.iata.value, d.iata.value, 8);
      versions := before + [d.iata.value];
    }
  }

  lemma MessageVersions(code: ObserverErrorCode, d: Draft, original: Draft, at: string) returns (versions: seq<string>)
    requires d.topic.None? && d.iata.None? && MessageNeeded(code, d, original, at) && !Fits(code, d, at)
    ensures IsHalving(versions, original.message, 32)
    ensures |versions| > 0 && versions[|versions| - 1] == d.message && MessageRefused(code, versions, at)
  {
    hide IsHalving, Fits, Within, IsHalf, Succeeds;
    FitsIsWithin(code, d, at);
    if d.message == original.message {
      versions := [d.message];
      HalvingStarts(d.message, 32);
    } else {
      var before :| IsHalving(before, original.message, 32) && Succeeds(Some(d.message), before, 32)
                    && MessageRefused(code, before, at);
      HalvingGrows(before, original.message, d.message, 32);
      versions := before + [d.message];
    }
  }

  lemma TopicStep(code: ObserverErrorCode, d: Draft, original: Draft, at: string)
    requires TakesNoMore(code, d, original, at) && !Fits(code, d, at) && d.topic.Some?
    ensures Shrink(d).Some? && TakesNoMore(code, Shrink(d).value, original, at)
  {
    hide IsHalving, Shorten, Fits, IsHalf, TopicRefused, IataNeeded, MessageNeeded;
    var versions := TopicVersions(code, d, original, at);
    var next := Shrink(d).value;
    ShortenHalves(d.topic.value);
    assert Succeeds(next.topic, versions, 8);
    OthersNeeded(code, d, next, original, at);
  }

  lemma IataStep(code: ObserverErrorCode, d: Draft, original: Draft, at: string)
    requires TakesNoMore(code, d, original, at) && !Fits(code, d, at) && d.topic.None? && d.iata.Some?
    ensures Shrink(d).Some? && TakesNoMore(code, Shrink(d).value, original, at)
  {
    hide IsHalving, Shorten, Fits, IsHalf, IataRefused, TopicNeeded, MessageNeeded;
    var versions := IataVersions(code, d, original, at);
    var next := Shrink(d).value;
    ShortenHalves(d.iata.value);
    assert Succeeds(next.iata, versions, 8);
    OthersNeeded(code, d, next, original, at);
  }

  lemma MessageStep(code: ObserverErrorCode, d: Draft, original: Draft, at: string)
    requires TakesNoMore(code, d, original, at) && !Fits(code, d, at) && d.topic.None? && d.iata.None? && Shrink(d).Some?
    ensures TakesNoMore(code, Shrink(d).value, original, at)
  {
    hide IsHalving, Shorten, Fits, IsHalf, MessageRefused, TopicNeeded, IataNeeded;
    var versions := MessageVersions(code, d, original, at);
    var next := Shrink(d).value;
    ShortenHalves(d.message);
    assert Succeeds(Some(next.message), versions, 32);
    OthersNeeded(code, d, next, original, at);
  }

  /** What a part owes to the original depends on that part alone. */
  lemma OthersNeeded(code: ObserverErrorCode, d: Draft, next: Draft, original: Draft, at: string)
    ensures d.topic == next.topic ==> (TopicNeeded(code, d, original, at) <==> TopicNeeded(code, next, original, at))
    ensures d.iata == next.iata ==> (IataNeeded(code, d, original, at) <==> IataNeeded(code, next, original, at))
    ensures d.message == next.message ==> (MessageNeeded(code, d, original, at) <==> MessageNeeded(code, next, original, at))
  {
    hide IsHalving, Succeeds, TopicRefused, IataRefused, MessageRefused;
  }

  lemma ShrinkNeeded(code: ObserverErrorCode, d: Draft, original: Draft, at: string)
    requires TakesNoMore(code, d, original, at) && !Fits(code, d, at) && Shrink(d).Some?
    ensures TakesNoMore(code, Shrink(d).value, original, at)
  {
    hide TakesNoMore, Fits;
    if d.topic.Some? {
      TopicStep(code, d, original, at);
    } else if d.iata.Some? {
      IataStep(code, d, original, at);
    } else {
      MessageStep(code, d, original, at);
    }
  }

  lemma {:induction false} SettledNeeded(code: ObserverErrorCode, d: Draft, original: Draft, at: string)
    requires |at| == 24 && TakesNoMore(code, d, original, at)
    ensures Settle(code, d, at).Some? && TakesNoMore(code, Settle(code, d, at).value, original, at)
    decreases Weight(d)
  {
    hide Fits, TakesNoMore;
    SmallDraftFits(code, d, at);
    if !Fits(code, d, at) {
      ShrinkLightens(d);
      ShrinkNeeded(code, d, original, at);
      SettledNeeded(code, Shrink(d).value, original, at);
    }
  }

  /** A notification gives up no more of its topic, then its IATA, then its message than it must: of the versions of a
      text, each half of the one before, it has the first that fits, and goes without a topic or an IATA only when not
      even a version of at most eight characters fitted. */
  lemma ShrinksNoMoreThanNeeded(code: ObserverErrorCode, d: Draft, at: string)
    requires |at| == 24
    ensures var r := Settle(code, d, at);
            r.Some? && Within(code, r.value.message, r.value.topic, r.value.iata, at) && TakesNoMore(code, r.value, d, at)
  {
    hide Encode, IsHalving;
    AlwaysSettles(code, d, at);
    SettledNeeded(code, d, d, at);
  }

  /** The notification for any message, topic and IATA: within the byte limit, unchanged when it fits
      already, and otherwise shortened topic first, then IATA, then message. */
  lemma NotificationShape(code: ObserverErrorCode, d: Draft, at: string)
    requires |at| == 24
    ensures var r := Settle(code, d, at);
            && r.Some? && Fits(code, r.value, at)
            && (Fits(code, d, at) ==> r.value == d)
            && ShrunkFrom(r.value, d)
            && ReadObject(EncodeObject(Fields(code, r.value, at))) == Some(Fields(code, r.value, at))
  {
    hide Fits, EncodeObject, ReadObject;
    AlwaysSettles(code, d, at);
    SettledFrom(code, d, d, at);
    NotificationReadsBack(code, Settle(code, d, at).value, at);
  }
}
