/** Stable error codes and the bounded denial notification (src/mqtt/errors.rs). */
module ObserverErrors {
  import opened Common

  const OBSERVER_ERROR_PAYLOAD_MAX_BYTES: nat := 768

  datatype ObserverErrorCode =
    | AuthInvalidUsernameFormat | AuthInvalidPublicKey | AuthMissingToken | AuthInvalidToken
    | AuthInvalidPassword | AuthWrongAudience | AuthStaleToken | AuthShuttingDown | AuthInternalError
    | SubscriberConnectionLimit
    | PublishNotMeshcoreTopic | PublishBadTopicShape | PublishPlaceholderIata | PublishTestIngressDisabled
    | PublishInvalidIataFormat | PublishSecondaryIata | PublishUnknownIata | PublishKeyMismatch
    | PublishStaleConnection | PublishStaleStatus | PublishReservedSubtopic | PublishSerialResponseInvalid
    | PublishPayloadTooLarge | PublishInvalidJson | PublishOriginMissing | PublishOriginMismatch
    | PublishUnknownClient | PublishInternalError

  function CodeName(c: ObserverErrorCode): (r: string)
    ensures |r| <= 31
  {
    match c
    case AuthInvalidUsernameFormat => "AUTH_INVALID_USERNAME_FORMAT"
    case AuthInvalidPublicKey => "AUTH_INVALID_PUBLIC_KEY"
    case AuthMissingToken => "AUTH_MISSING_TOKEN"
    case AuthInvalidToken => "AUTH_INVALID_TOKEN"
    case AuthInvalidPassword => "AUTH_INVALID_PASSWORD"
    case AuthWrongAudience => "AUTH_WRONG_AUDIENCE"
    case AuthStaleToken => "AUTH_STALE_TOKEN"
    case AuthShuttingDown => "AUTH_SHUTTING_DOWN"
    case AuthInternalError => "AUTH_INTERNAL_ERROR"
    case SubscriberConnectionLimit => "SUBSCRIBER_CONNECTION_LIMIT"
    case PublishNotMeshcoreTopic => "PUBLISH_NOT_MESHCORE_TOPIC"
    case PublishBadTopicShape => "PUBLISH_BAD_TOPIC_SHAPE"
    case PublishPlaceholderIata => "PUBLISH_PLACEHOLDER_IATA"
    case PublishTestIngressDisabled => "PUBLISH_TEST_INGRESS_DISABLED"
    case PublishInvalidIataFormat => "PUBLISH_INVALID_IATA_FORMAT"
    case PublishSecondaryIata => "PUBLISH_SECONDARY_IATA"
    case PublishUnknownIata => "PUBLISH_UNKNOWN_IATA"
    case PublishKeyMismatch => "PUBLISH_KEY_MISMATCH"
    case PublishStaleConnection => "PUBLISH_STALE_CONNECTION"
    case PublishStaleStatus => "PUBLISH_STALE_STATUS"
    case PublishReservedSubtopic => "PUBLISH_RESERVED_SUBTOPIC"
    case PublishSerialResponseInvalid => "PUBLISH_SERIAL_RESPONSE_INVALID"
    case PublishPayloadTooLarge => "PUBLISH_PAYLOAD_TOO_LARGE"
    case PublishInvalidJson => "PUBLISH_INVALID_JSON"
    case PublishOriginMissing => "PUBLISH_ORIGIN_MISSING"
    case PublishOriginMismatch => "PUBLISH_ORIGIN_MISMATCH"
    case PublishUnknownClient => "PUBLISH_UNKNOWN_CLIENT"
    case PublishInternalError => "PUBLISH_INTERNAL_ERROR"
  }

  // ---- JSON text (RFC 8259 section 7) and its UTF-8 bytes ----

  function HexDigit(n: nat): char
    requires n < 16
  {
    if n < 10 then ('0' as int + n) as char else ('a' as int + n - 10) as char
  }

  function EscapeChar(c: char): string {
    if c == '"' then "\\\""
    else if c == '\\' then "\\\\"
    else if c == '\U{0008}' then "\\b"
    else if c == '\t' then "\\t"
    else if c == '\n' then "\\n"
    else if c == '\U{000C}' then "\\f"
    else if c == '\r' then "\\r"
    else if c < ' ' then "\\u00" + [HexDigit(c as int / 16), HexDigit(c as int % 16)]
    else [c]
  }

  function Escape(s: string): string {
    if s == "" then "" else EscapeChar(s[0]) + Escape(s[1..])
  }

  function Utf8Char(c: char): (r: seq<byte>)
    ensures 1 <= |r| <= 4 && (c as int < 0x80 ==> |r| == 1)
  {
    var n := c as int;
    if n < 0x80 then [n]
    else if n < 0x800 then [0xC0 + n / 0x40, 0x80 + n % 0x40]
    else if n < 0x1_0000 then [0xE0 + n / 0x1000, 0x80 + n / 0x40 % 0x40, 0x80 + n % 0x40]
    else [0xF0 + n / 0x4_0000 % 8, 0x80 + n / 0x1000 % 0x40, 0x80 + n / 0x40 % 0x40, 0x80 + n % 0x40]
  }

  function Utf8(s: string): seq<byte> {
    if s == "" then [] else Utf8Char(s[0]) + Utf8(s[1..])
  }

  function Member(key: string, value: string): string {
    "\"" + Escape(key) + "\":\"" + Escape(value) + "\""
  }

  function Members(fields: seq<(string, string)>): string {
    if fields == [] then ""
    else if |fields| == 1 then Member(fields[0].0, fields[0].1)
    else Member(fields[0].0, fields[0].1) + "," + Members(fields[1..])
  }

  function EncodeObject(fields: seq<(string, string)>): string {
    "{" + Members(fields) + "}"
  }

  // ---- Shrinking ----

  /** The parts of a notification that may be shortened. */
  datatype Draft = Draft(message: string, topic: Option<string>, iata: Option<string>)

  function Fields(code: ObserverErrorCode, d: Draft, at: string): seq<(string, string)> {
    [("code", CodeName(code)), ("message", d.message)]
    + (if d.topic.Some? then [("topic", d.topic.value)] else [])
    + (if d.iata.Some? then [("iata", d.iata.value)] else [])
    + [("at", at)]
  }

  function Encode(code: ObserverErrorCode, d: Draft, at: string): seq<byte> {
    Utf8(EncodeObject(Fields(code, d, at)))
  }

  predicate Fits(code: ObserverErrorCode, d: Draft, at: string) {
    |Encode(code, d, at)| <= OBSERVER_ERROR_PAYLOAD_MAX_BYTES
  }

  function Shorten(text: string): string {
    text[..|text| / 2] + "..."
  }

  function ShrinkOptional(text: string): Option<string> {
    if |text| <= 8 then None else Some(Shorten(text))
  }

  /** The next draft to try: topic first, then IATA, then the message; None when nothing is left. */
  function Shrink(d: Draft): Option<Draft> {
    if d.topic.Some? then Some(d.(topic := ShrinkOptional(d.topic.value)))
    else if d.iata.Some? then Some(d.(iata := ShrinkOptional(d.iata.value)))
    else if |d.message| > 32 then Some(d.(message := Shorten(d.message)))
    else None
  }

  function OptionalWeight(o: Option<string>): nat {
    if o.None? then 0 else |o.value| + 1
  }

  function Weight(d: Draft): nat {
    |d.message| + OptionalWeight(d.topic) + OptionalWeight(d.iata)
  }

  /** The first draft in the shrinking order that fits; None when none does. */
  function Settle(code: ObserverErrorCode, d: Draft, at: string): Option<Draft>
    decreases Weight(d)
  {
    if Fits(code, d, at) then Some(d)
    else if Shrink(d).None? then None
    else Settle(code, Shrink(d).value, at)
  }

  function Fallback(code: ObserverErrorCode, at: string): seq<byte> {
    Utf8("{\"code\":\"" + CodeName(code) + "\",\"message\":\"Observer request denied.\",\"at\":\"" + at + "\"}")
  }

  // ---- The notification as its code builds it ----

  /** The first half of a text, the odd character left out, and dots. */
  predicate IsHalf(short: string, text: string) {
    exists k :: 0 <= k <= |text| && (|text| == 2 * k || |text| == 2 * k + 1) && short == text[..k] + "..."
  }

  lemma ShortenHalves(text: string)
    ensures IsHalf(Shorten(text), text)
  {
    assert 0 <= |text| / 2 <= |text|;
  }

  method ShrinkValue(value: Option<string>) returns (changed: bool, result: Option<string>)
    ensures changed == value.Some?
    ensures value.Some? && |value.value| > 8 ==> result.Some? && IsHalf(result.value, value.value)
    ensures value.None? || |value.value| <= 8 ==> result.None?
    ensures result == if value.None? then None else ShrinkOptional(value.value)
  {
    if value.None? { return false, None; }
    var text := value.value;
    if |text| <= 8 {
      result := None;
    } else {
      var keep := |text| / 2;
      result := Some(text[..keep] + "...");
      ShortenHalves(text);
    }
    changed := true;
  }

  method ShrinkRequired(value: string) returns (changed: bool, result: string)
    ensures changed == (|value| > 32)
    ensures if changed then IsHalf(result, value) else result == value
    ensures result == if changed then Shorten(value) else value
  {
    if |value| <= 32 { return false, value; }
    var keep := |value| / 2;
    ShortenHalves(value);
    return true, value[..keep] + "...";
  }

  /** The loop shortens until the encoding fits, and never needs its fallback text. */
  method Notification(code: ObserverErrorCode, draft: Draft, at: string) returns (out: seq<byte>)
    requires |at| == 24
    ensures Settle(code, draft, at).Some? && out == Encode(code, Settle(code, draft, at).value, at)
    ensures |out| <= OBSERVER_ERROR_PAYLOAD_MAX_BYTES
  {
    hide Encode, Shorten, IsHalf;
    var d := draft;
    while true
      invariant Settle(code, d, at) == Settle(code, draft, at)
      decreases Weight(d)
    {
      var encoded := Encode(code, d, at);
      if |encoded| <= OBSERVER_ERROR_PAYLOAD_MAX_BYTES {
        return encoded;
      }
      SmallDraftFits(code, d, at);
      ShrinkLightens(d);
      var changed, topic := ShrinkValue(d.topic);
      if changed {
        d := d.(topic := topic);
        continue;
      }
      var changedIata, iata := ShrinkValue(d.iata);
      if changedIata {
        d := d.(iata := iata);
        continue;
      }
      var changedMessage, message := ShrinkRequired(d.message);
      if changedMessage {
        d := d.(message := message);
        continue;
      }
      assert false;
      return Fallback(code, at);
    }
  }

  lemma ShrinkLightens(d: Draft)
    requires Shrink(d).Some?
    ensures Weight(Shrink(d).value) < Weight(d)
  {
  }

  // ---- The byte bound ----

  lemma BytesConcat(a: seq<byte>, b: seq<byte>, c: seq<byte>)
    ensures a + (b + c) == (a + b) + c
  {
  }

  lemma {:induction false} Utf8Append(a: string, b: string)
    ensures Utf8(a + b) == Utf8(a) + Utf8(b)
  {
    if a == "" {
      assert a + b == b;
    } else {
      Utf8Append(a[1..], b);
      assert (a + b)[1..] == a[1..] + b && (a + b)[0] == a[0];
      BytesConcat(Utf8Char(a[0]), Utf8(a[1..]), Utf8(b));
    }
  }

  lemma EscapedCharBytes(c: char)
    ensures |Utf8(EscapeChar(c))| <= 6
  {
    var e := EscapeChar(c);
    if |e| == 1 {
      assert Utf8(e) == Utf8Char(c) + Utf8(e[1..]);
    } else {
      AsciiBytes(e);
    }
  }

  lemma {:induction false} AsciiBytes(s: string)
    requires forall i :: 0 <= i < |s| ==> s[i] as int < 0x80
    ensures |Utf8(s)| == |s|
  {
    if s != "" { AsciiBytes(s[1..]); }
  }

  /** Escaping and encoding never take more than six bytes a character. */
  lemma {:induction false} EscapedBytes(s: string)
    ensures |Utf8(Escape(s))| <= 6 * |s|
  {
    if s != "" {
      EscapedCharBytes(s[0]);
      EscapedBytes(s[1..]);
      Utf8Append(EscapeChar(s[0]), Escape(s[1..]));
    }
  }

  lemma MemberBytes(key: string, value: string)
    ensures |Utf8(Member(key, value))| <= 6 * |key| + 6 * |value| + 5
  {
    hide Escape, Utf8;
    AsciiBytes("\"");
    AsciiBytes("\":\"");
    EscapedBytes(key);
    EscapedBytes(value);
    Utf8Append("\"", Escape(key));
    Utf8Append("\"" + Escape(key), "\":\"");
    Utf8Append("\"" + Escape(key) + "\":\"", Escape(value));
    Utf8Append("\"" + Escape(key) + "\":\"" + Escape(value), "\"");
  }

  /** With topic and IATA gone a message of at most 32 characters always fits. */
  lemma SmallDraftFits(code: ObserverErrorCode, d: Draft, at: string)
    requires |at| == 24
    ensures Shrink(d).None? ==> Fits(code, d, at)
  {
    hide Member, Utf8, Shorten;
    if Shrink(d).None? {
      var fields := [("code", CodeName(code)), ("message", d.message), ("at", at)];
      assert Fields(code, d, at) == fields;
      var a, b, c := Member("code", CodeName(code)), Member("message", d.message), Member("at", at);
      MemberBytes("code", CodeName(code));
      MemberBytes("message", d.message);
      MemberBytes("at", at);
      assert fields[1..][1..] == [("at", at)];
      assert Members(fields[1..][1..]) == c;
      assert Members(fields[1..]) == b + "," + c;
      assert Members(fields) == a + "," + (b + "," + c);
      AsciiBytes("{");
      AsciiBytes("}");
      AsciiBytes(",");
      Utf8Append(b, ",");
      Utf8Append(b + ",", c);
      Utf8Append(a, ",");
      Utf8Append(a + ",", b + "," + c);
      Utf8Append("{", Members(fields));
      Utf8Append("{" + Members(fields), "}");
    }
  }

  lemma {:induction false} AlwaysSettles(code: ObserverErrorCode, d: Draft, at: string)
    requires |at| == 24
    ensures Settle(code, d, at).Some? && Fits(code, Settle(code, d, at).value, at)
    decreases Weight(d)
  {
    hide Fits;
    SmallDraftFits(code, d, at);
    if !Fits(code, d, at) {
      ShrinkLightens(d);
      AlwaysSettles(code, Shrink(d).value, at);
    }
  }
}
