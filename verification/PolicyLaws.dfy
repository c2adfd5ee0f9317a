/** What the publish, routing and delivery policies guarantee together. */
module PolicyLaws {
  import opened Common
  import opened Topics
  import opened ObserverErrors
  import opened Policy

  lemma SplitStep(s: string, sep: char)
    requires s != ""
    ensures var rest := Split(s[1..], sep);
            && |rest| > 0
            && Split(s, sep) == if s[0] == sep then [""] + rest else [[s[0]] + rest[0]] + rest[1..]
  {
  }

  lemma LowerCons(c: char, s: string)
    ensures Lower([c] + s) == [LowerChar(c)] + Lower(s)
  {
    assert ([c] + s)[1..] == s;
  }

  lemma {:induction false} SplitOfLower(s: string, sep: char)
    requires LowerChar(sep) == sep && !('a' <= sep <= 'z')
    ensures |Split(Lower(s), sep)| == |Split(s, sep)|
    ensures forall i :: 0 <= i < |Split(s, sep)| ==> Split(Lower(s), sep)[i] == Lower(Split(s, sep)[i])
  {
    hide Split, Lower;
    if s == "" {
      EmptySplit(sep);
    } else {
      var rest, lower := Split(s[1..], sep), Split(Lower(s[1..]), sep);
      SplitOfLower(s[1..], sep);
      LowerCons(s[0], s[1..]);
      assert [s[0]] + s[1..] == s;
      assert Lower(s)[1..] == Lower(s[1..]) && Lower(s)[0] == LowerChar(s[0]);
      SplitStep(s, sep);
      SplitStep(Lower(s), sep);
      EmptySplit(sep);
      LowerCons(s[0], rest[0]);
      forall i | 0 <= i < |Split(s, sep)| ensures Split(Lower(s), sep)[i] == Lower(Split(s, sep)[i]) {
        if s[0] == sep {
          if i > 0 { assert lower[i - 1] == Lower(rest[i - 1]); }
        } else if i > 0 {
          assert lower[i] == Lower(rest[i]);
        }
      }
    }
  }

  lemma EmptySplit(sep: char)
    ensures Lower("") == "" && Split("", sep) == [""]
  {
  }

  /** The subtopic root that publishing checks is the topic level that routing checks. */
  lemma RootIsFourthPart(topic: string)
    requires Parse(topic).Some?
    ensures Split(Lower(Parse(topic).value.subtopic), '/')[0] == Lower(Split(topic, '/')[3])
  {
    var tail := Split(topic, '/')[3..];
    SplitIsFree(topic, '/');
    SplitOfJoin(tail, '/');
    SplitOfLower(Join(tail, '/'), '/');
  }

  /** A canonical topic keeps its fourth level and its reading. */
  lemma CanonicalView(topic: string)
    requires Parse(topic).Some?
    ensures var canonical := Normalized(Parse(topic).value);
            && Parse(canonical) == Parse(topic) && |Split(topic, '/')| >= 4
            && |Split(canonical, '/')| >= 4 && Split(canonical, '/')[0] == "meshcore"
            && Split(canonical, '/')[2] == Parse(topic).value.publicKey
            && Split(canonical, '/')[3] == Split(topic, '/')[3]
            && StartsWith(canonical, "meshcore/") && !IsSys(canonical)
  {
    CanonicalRoundTrip(topic);
    assert CanonicalParts(topic)[3] == Split(topic, '/')[3..][0];
    var canonical := Normalized(Parse(topic).value);
    assert canonical[0] == 'm';
  }

  lemma Literals()
    ensures Lower("error") == "error" && Lower("serial/commands") == "serial/commands"
    ensures Lower("serial/responses") == "serial/responses"
    ensures Split("serial/commands", '/')[0] == "serial" && Split("serial/responses", '/')[0] == "serial"
  {
    hide Split;
    SplitAtFirst("serial", '/', "commands");
    assert "serial" + ['/'] + "commands" == "serial/commands";
    SplitAtFirst("serial", '/', "responses");
    assert "serial" + ['/'] + "responses" == "serial/responses";
  }

  /** What an accepted observer publish looks like. */
  lemma AcceptedShape(
    config: Config, publicKey: string, owns: bool, parsed: MeshcoreTopic, payload: seq<byte>, retain: bool,
    origin: Option<ObserverErrorCode>)
    requires AuthorizeParsed(config, publicKey, owns, parsed, payload, retain, origin).Allowed?
    ensures AuthorizeParsed(config, publicKey, owns, parsed, payload, retain, origin).publish
            == AllowedPublish(Normalized(parsed), retain)
    ensures var subtopic := Lower(parsed.subtopic);
            && owns && parsed.publicKey == Upper(publicKey)
            && subtopic != "error" && !StartsWith(subtopic, "error/") && subtopic != "serial/commands"
            && Split(subtopic, '/')[0] != "internal" && Split(subtopic, '/')[0] != "raw"
            && (Split(subtopic, '/')[0] == "serial" ==> subtopic == "serial/responses")
  {
    hide Split, IsJwtShape, Lower, JsonLimit, Normalized, IsThreeCapitals;
  }

  /** Every accepted publish keeps its RETAIN flag, and resubmitting it on its canonical topic is
      accepted unchanged. */
  lemma AcceptedIsStable(
    config: Config, principal: Principal, owns: bool, topic: string, payload: seq<byte>, retain: bool,
    origin: Option<ObserverErrorCode>)
    requires AuthorizePublish(config, principal, owns, topic, payload, retain, origin).Allowed?
    ensures var first := AuthorizePublish(config, principal, owns, topic, payload, retain, origin);
            && first.publish.retain == retain
            && Parse(topic).Some? && first.publish.topic == Normalized(Parse(topic).value)
            && AuthorizePublish(config, principal, owns, first.publish.topic, payload, retain, origin) == first
  {
    hide Split, Parse, Normalized, AuthorizeParsed, Lower;
    CanonicalView(topic);
    if principal.Publisher? {
      AcceptedShape(config, principal.publicKey, owns, Parse(topic).value, payload, retain, origin);
    }
  }

  /** An observer's accepted publish is never delivered to an observer, always to an admin, and to any
      other subscriber exactly when it is not a serial response. */
  lemma ObserverPublishVisibility(
    config: Config, publicKey: string, owns: bool, topic: string, payload: seq<byte>, retain: bool,
    origin: Option<ObserverErrorCode>, other: string, isOwner: bool, username: string, role: Role)
    requires AuthorizePublish(config, Publisher(publicKey), owns, topic, payload, retain, origin).Allowed?
    ensures var out := AuthorizePublish(config, Publisher(publicKey), owns, topic, payload, retain, origin).publish.topic;
            && !DeliveryAllows(Publisher(other), out, isOwner)
            && (DeliveryAllows(Subscriber(username, role), out, isOwner)
                <==> role == Admin || !EqIgnoreCase(Parse(topic).value.subtopic, "serial/responses"))
  {
    hide Split, Parse, Normalized, AuthorizeParsed, Lower;
    AcceptedShape(config, publicKey, owns, Parse(topic).value, payload, retain, origin);
    CanonicalView(topic);
    RootIsFourthPart(topic);
    Literals();
    if Split(topic, '/')[3] == "error" { FourthOfError(topic); }
  }

  /** A topic whose fourth level is exactly `error` has a reserved subtopic. */
  lemma FourthOfError(topic: string)
    requires Parse(topic).Some? && Split(topic, '/')[3] == "error"
    ensures var subtopic := Lower(Parse(topic).value.subtopic);
            subtopic == "error" || StartsWith(subtopic, "error/")
  {
    hide Split;
    assert Lower("error") == "error";
    assert Join(Split(topic, '/')[3..], '/')[..5] == "error";
  }

  /** An accepted admin command reaches the observer named in its topic while that connection owns
      the key, no other observer, and of the subscribers exactly the admins. */
  lemma AdminCommandReach(
    config: Config, admin: string, topic: string, payload: seq<byte>, retain: bool, owns: bool,
    origin: Option<ObserverErrorCode>, observer: string, isOwner: bool, username: string, role: Role)
    requires AuthorizePublish(config, Subscriber(admin, Admin), owns, topic, payload, retain, origin).Allowed?
    ensures var out := AuthorizePublish(config, Subscriber(admin, Admin), owns, topic, payload, retain, origin).publish.topic;
            && (DeliveryAllows(Publisher(observer), out, isOwner) <==> isOwner && Upper(observer) == Parse(topic).value.publicKey)
            && (DeliveryAllows(Subscriber(username, role), out, isOwner) <==> role == Admin)
  {
    hide Split, Parse, Normalized, Lower, Upper;
    CanonicalView(topic);
    RootIsFourthPart(topic);
    Literals();
  }

  // ---- Denial notifications (src/mqtt/broker/notifications.rs) ----

  predicate IsLetter(c: char) {
    'a' <= c <= 'z' || 'A' <= c <= 'Z'
  }

  function NormalizeDenialIata(value: string): Option<string> {
    if EqIgnoreCase(value, "test") then Some("test")
    else
      var upper := Upper(value);
      if |upper| == 3 && forall i :: 0 <= i < |upper| ==> IsLetter(upper[i]) then Some(upper) else None
  }

  function ExtractTopicIata(topic: Option<string>): Option<string> {
    if topic.None? then None
    else
      var parts := Split(topic.value, '/');
      if parts[0] != "meshcore" || |parts| < 3 then None
      else NormalizeDenialIata(Trim(parts[1]))
  }

  function DenialIata(denial: Denial): string {
    var own := if denial.iata.Some? then NormalizeDenialIata(denial.iata.value) else None;
    if own.Some? then own.value
    else
      var fromTopic := ExtractTopicIata(denial.topic);
      if fromTopic.Some? then fromTopic.value else "XXX"
  }

  function NotificationTopic(denial: Denial, publicKey: string): string {
    "meshcore/" + DenialIata(denial) + "/" + publicKey + "/error"
  }

  lemma NormalizedDenialIataShape(value: string)
    ensures var r := NormalizeDenialIata(value);
            r.Some? ==> r.value == "test" || IsThreeCapitals(r.value)
  {
    var upper := Upper(value);
    if |upper| == 3 && forall i :: 0 <= i < |upper| ==> IsLetter(upper[i]) {
      assert forall i :: 0 <= i < |upper| ==> IsUpperLetter(upper[i]);
    }
  }

  /** Whatever topic and IATA a denial carries, the routing IATA is `test` or three capitals. */
  lemma DenialIataShape(denial: Denial)
    ensures DenialIata(denial) == "test" || IsThreeCapitals(DenialIata(denial))
  {
    hide NormalizeDenialIata, Split;
    if denial.iata.Some? { NormalizedDenialIataShape(denial.iata.value); }
    if denial.topic.Some? {
      var parts := Split(denial.topic.value, '/');
      if |parts| >= 3 { NormalizedDenialIataShape(Trim(parts[1])); }
    }
  }

  lemma ShapedIataIsGood(iata: string)
    requires iata == "test" || IsThreeCapitals(iata)
    ensures Free(iata, '/') && !BadPart(iata) && CanonicalIata(Trim(iata)) == iata
  {
    TrimmedStays(iata);
    if iata != "test" {
      assert Upper(iata) == iata;
      assert |Lower(iata)| == 3 && |Lower("test")| == 4;
    }
  }

  lemma NotificationParts(iata: string, publicKey: string)
    requires Free(iata, '/') && Free(publicKey, '/')
    ensures Split("meshcore/" + iata + "/" + publicKey + "/error", '/') == ["meshcore", iata, publicKey, "error"]
  {
    hide Split;
    var parts := ["meshcore", iata, publicKey, "error"];
    assert parts[1..][1..][1..] == ["error"];
    assert Join(parts, '/') == "meshcore" + "/" + Join(parts[1..], '/');
    assert Join(parts[1..], '/') == iata + "/" + Join(parts[1..][1..], '/');
    assert Join(parts[1..][1..], '/') == publicKey + "/" + "error";
    assert Join(parts, '/') == "meshcore/" + iata + "/" + publicKey + "/error";
    SplitOfJoin(parts, '/');
  }

  /** A denial notification always parses to its observer's own `error` topic. */
  lemma NotificationParses(denial: Denial, publicKey: string)
    requires IsHexKey(publicKey)
    ensures Parse(NotificationTopic(denial, publicKey)) == Some(MeshcoreTopic(DenialIata(denial), Upper(publicKey), "error"))
    ensures Split(NotificationTopic(denial, publicKey), '/') == ["meshcore", DenialIata(denial), publicKey, "error"]
  {
    hide Split, BadPart, DenialIata, IsThreeCapitals;
    DenialIataShape(denial);
    ShapedIataIsGood(DenialIata(denial));
    HexKeyIsGood(publicKey);
    NotificationParts(DenialIata(denial), publicKey);
    NamesAreGood();
    assert ["meshcore", DenialIata(denial), publicKey, "error"][3..] == ["error"];
  }

  lemma NamesAreGood()
    ensures !BadPart("meshcore") && !BadPart("error")
  {
    TrimmedStays("meshcore");
    TrimmedStays("error");
  }

  /** It reaches exactly the observer it is about, owner or stale, and the admins. */
  lemma NotificationReach(denial: Denial, publicKey: string, observer: string, isOwner: bool, username: string, role: Role)
    requires IsHexKey(publicKey)
    ensures DeliveryAllows(Publisher(observer), NotificationTopic(denial, publicKey), isOwner) <==> Upper(observer) == Upper(publicKey)
    ensures DeliveryAllows(Subscriber(username, role), NotificationTopic(denial, publicKey), isOwner) <==> role == Admin
  {
    hide Split, Parse, NotificationTopic, Lower, Upper;
    Literals();
    NotificationParses(denial, publicKey);
  }
}
