/**
 Who may publish where, read off the levels of the topic: a reference for the
 string tests the publish policy makes one after another.
 */
module PublishRules {
  import opened Common
  import opened Topics
  import opened ObserverErrors
  import opened Policy
  import opened PolicyLaws
  import opened TextLaws

  /** IATAs an observer may publish under. */
  predicate ServedIata(config: Config, iata: string) {
    if iata == "test" then config.allowTestIngress
    else
      && |iata| == 3 && (forall i :: 0 <= i < 3 ==> 'A' <= iata[i] <= 'Z')
      && iata != "XXX" && iata in config.allowedIata && iata !in config.secondaryIata
  }

  /** The IATA a topic names, read without surrounding white space and without regard to case. */
  function IataOf(levels: seq<string>): string
    requires |levels| >= 2
  {
    CanonicalIata(Trim(levels[1]))
  }

  /** The topic an accepted publish is stored and forwarded under. */
  function CanonicalTopic(levels: seq<string>): string
    requires |levels| >= 4
  {
    Join(["meshcore", IataOf(levels), Upper(levels[2])] + levels[3..], '/')
  }

  /** An empty retained message clears a topic and needs no content. */
  predicate Clears(payload: seq<byte>, retain: bool) {
    payload == [] && retain
  }

  predicate IsTokenByte(b: byte) {
    var c := b as char;
    'A' <= c <= 'Z' || 'a' <= c <= 'z' || '0' <= c <= '9' || c == '-' || c == '_'
  }

  predicate AllToken(bytes: seq<byte>) {
    bytes != [] && forall k :: 0 <= k < |bytes| ==> IsTokenByte(bytes[k])
  }

  /** Three non-empty pieces of unpadded base64url text with a dot between each two. */
  ghost predicate IsToken(payload: seq<byte>) {
    exists a: seq<byte>, b: seq<byte>, c: seq<byte> ::
      AllToken(a) && AllToken(b) && AllToken(c) && payload == a + [46] + (b + [46] + c)
  }

  ghost predicate ObserverMayPublish(
    config: Config, publicKey: string, owns: bool, levels: seq<string>, payload: seq<byte>, retain: bool,
    origin: Option<ObserverErrorCode>)
  {
    && IsMeshcore(levels) && owns
    && SameText(levels[2], publicKey)
    && ServedIata(config, IataOf(levels))
    && !SameText(levels[3], "error") && !SameText(levels[3], "internal") && !SameText(levels[3], "raw")
    && if SameText(levels[3], "serial") then
         && |levels| == 5 && SameText(levels[4], "responses")
         && (Clears(payload, retain) || (|payload| <= 4_096 && IsToken(payload)))
       else
         && (Clears(payload, retain) || origin.None?)
         && (|payload| <= config.jsonPublishMaxBytes
             || (|levels| == 4 && SameText(levels[3], "neighbors") && |payload| <= 10_240))
  }

  predicate IsAdminTopic(config: Config, levels: seq<string>) {
    && IsMeshcore(levels) && IataOf(levels) in config.allowedIata
    && |levels| == 5 && SameText(levels[3], "serial") && SameText(levels[4], "commands")
  }

  // ---- Levels of a topic and prefixes of a subtopic ----

  lemma FirstLevel(s: string, head: string)
    requires Free(head, '/')
    ensures Split(s, '/')[0] == head <==> s == head || StartsWith(s, head + "/")
  {
    if s == head {
      SplitOfFree(head, '/');
    } else if StartsWith(s, head + "/") {
      SplitAtFirst(head, '/', s[|head| + 1..]);
      assert s == head + ['/'] + s[|head| + 1..];
    }
    if Split(s, '/')[0] == head {
      JoinOfSplit(s, '/');
      if |Split(s, '/')| > 1 {
        assert s == head + ['/'] + Join(Split(s, '/')[1..], '/');
      }
    }
  }

  lemma TwoLevels(s: string, a: string, b: string)
    requires Free(a, '/') && Free(b, '/')
    ensures s == a + "/" + b <==> Split(s, '/') == [a, b]
  {
    SplitAtFirst(a, '/', b);
    SplitOfFree(b, '/');
    JoinOfSplit(s, '/');
    assert Join([a, b], '/') == a + ['/'] + b by { assert [a, b][1..] == [b]; }
  }

  lemma OneLevel(s: string, a: string)
    requires Free(a, '/')
    ensures s == a <==> Split(s, '/') == [a]
  {
    SplitOfFree(a, '/');
    JoinOfSplit(s, '/');
  }

  /** The lower-cased subtopic splits into the lower-cased levels from the fourth on. */
  lemma SubtopicLevels(topic: string)
    requires Parse(topic).Some?
    ensures var levels, parts := Split(Lower(Parse(topic).value.subtopic), '/'), Split(topic, '/');
            && |parts| >= 4 && |levels| == |parts| - 3
            && forall i :: 0 <= i < |levels| ==> levels[i] == Lower(parts[i + 3])
  {
    var parts := Split(topic, '/');
    SplitIsFree(topic, '/');
    SplitOfJoin(parts[3..], '/');
    SplitOfLower(Parse(topic).value.subtopic, '/');
  }

  lemma MeshcoreReading(topic: string)
    ensures Parse(topic).Some? <==> IsMeshcore(Split(topic, '/'))
    ensures Parse(topic).Some? ==>
              && Parse(topic).value.publicKey == Upper(Split(topic, '/')[2])
              && Parse(topic).value.iata == IataOf(Split(topic, '/'))
              && Normalized(Parse(topic).value) == CanonicalTopic(Split(topic, '/'))
    ensures StartsWith(topic, "meshcore/") <==> Split(topic, '/')[0] == "meshcore" && |Split(topic, '/')| > 1
  {
    hide Split, Join, Trim, Upper, BadPart, IsHexKey, IsMeshcore, CanonicalIata, Normalized;
    MeshcoreParses(topic);
    FirstLevel(topic, "meshcore");
    OneLevel(topic, "meshcore");
    assert "meshcore" + "/" == "meshcore/";
    if Parse(topic).Some? { NormalizedIsJoin(topic); }
  }

  lemma MeshcoreOpens(levels: seq<string>)
    requires IsMeshcore(levels)
    ensures |levels| >= 4 && levels[0] == "meshcore"
  {
  }

  // ---- Tokens ----

  lemma TokenBytes(bytes: seq<byte>)
    ensures AllToken(bytes) <==> bytes != [] && AllBase64Url(bytes)
    ensures AllToken(bytes) ==> Free(bytes, 46)
  {
    forall k | 0 <= k < |bytes| ensures IsTokenByte(bytes[k]) <==> IsBase64Url(bytes[k]) {
    }
  }

  lemma JoinOfOne(c: seq<byte>)
    ensures Join([c], 46) == c
  {
  }

  lemma JoinOfThree(a: seq<byte>, b: seq<byte>, c: seq<byte>)
    ensures Join([a, b, c], 46) == a + [46] + (b + [46] + c)
  {
    hide Join;
    assert [a, b, c] == [a] + [b, c] && [b, c] == [b] + [c];
    JoinCons(a, [b, c], 46);
    JoinCons(b, [c], 46);
    JoinOfOne(c);
  }

  lemma TokenParts(a: seq<byte>, b: seq<byte>, c: seq<byte>)
    requires AllToken(a) && AllToken(b) && AllToken(c)
    ensures Split(a + [46] + (b + [46] + c), 46) == [a, b, c]
  {
    hide Split, Join;
    TokenBytes(a);
    TokenBytes(b);
    TokenBytes(c);
    JoinOfThree(a, b, c);
    SplitOfJoin([a, b, c], 46);
  }

  /** The shape asked of a serial response, said without splitting it. */
  lemma TokenExact(payload: seq<byte>)
    ensures IsJwtShape(payload) <==> IsToken(payload)
  {
    hide Split, Join, AllBase64Url, AllToken;
    if IsToken(payload) {
      var a: seq<byte>, b: seq<byte>, c: seq<byte> :|
        AllToken(a) && AllToken(b) && AllToken(c) && payload == a + [46] + (b + [46] + c);
      TokenParts(a, b, c);
      TokenBytes(a);
      TokenBytes(b);
      TokenBytes(c);
    }
    if IsJwtShape(payload) {
      var parts := Split(payload, 46);
      JoinOfSplit(payload, 46);
      assert parts == [parts[0], parts[1], parts[2]];
      JoinOfThree(parts[0], parts[1], parts[2]);
      TokenBytes(parts[0]);
      TokenBytes(parts[1]);
      TokenBytes(parts[2]);
    }
  }

  /** The string tests on a subtopic, said of its levels. */
  lemma SubtopicTests(s: string)
    ensures var levels := Split(s, '/');
            && |levels| > 0
            && (s == "error" || StartsWith(s, "error/") <==> levels[0] == "error")
            && (s == "serial/commands" <==> levels == ["serial", "commands"])
            && (s == "serial/responses" <==> levels == ["serial", "responses"])
            && (s == "neighbors" <==> levels == ["neighbors"])
  {
    hide Split;
    FirstLevel(s, "error");
    TwoLevels(s, "serial", "commands");
    TwoLevels(s, "serial", "responses");
    OneLevel(s, "neighbors");
    assert "error" + "/" == "error/" && "serial" + "/" + "commands" == "serial/commands";
    assert "serial" + "/" + "responses" == "serial/responses";
  }

  /** The decision on a parsed topic, said of the lower-cased subtopic's levels. */
  predicate AllowedOnLevels(
    config: Config, levels: seq<string>, payload: seq<byte>, retain: bool, origin: Option<ObserverErrorCode>)
  {
    && |levels| > 0 && levels[0] !in {"error", "internal", "raw"}
    && if levels[0] == "serial" then
         levels == ["serial", "responses"] && (Clears(payload, retain) || (|payload| <= SERIAL_MAX_BYTES && IsJwtShape(payload)))
       else
         && (Clears(payload, retain) || origin.None?)
         && (|payload| <= config.jsonPublishMaxBytes || (levels == ["neighbors"] && |payload| <= FIRMWARE_NEIGHBORS_JSON_BUFFER_BYTES))
  }

  lemma DecisionOnLevels(
    config: Config, publicKey: string, owns: bool, parsed: MeshcoreTopic, payload: seq<byte>, retain: bool,
    origin: Option<ObserverErrorCode>)
    ensures AuthorizeParsed(config, publicKey, owns, parsed, payload, retain, origin).Allowed?
       <==> && owns && parsed.publicKey == Upper(publicKey) && ServedIata(config, parsed.iata)
            && AllowedOnLevels(config, Split(Lower(parsed.subtopic), '/'), payload, retain, origin)
  {
    hide Split, Lower, Upper, IsJwtShape, Normalized;
    SubtopicTests(Lower(parsed.subtopic));
  }

  lemma LowerIs(s: string, word: string)
    requires NoCapital(word)
    ensures Lower(s) == word <==> SameText(s, word)
  {
    CaseDecides(s, word);
    SmallIsLower(word);
  }

  /** The levels of the lower-cased subtopic, said of the topic's own. */
  lemma LevelsSpell(subtopic: seq<string>, levels: seq<string>)
    requires |levels| >= 4 && |subtopic| == |levels| - 3
    requires forall i :: 0 <= i < |subtopic| ==> subtopic[i] == Lower(levels[i + 3])
    ensures subtopic[0] == "error" <==> SameText(levels[3], "error")
    ensures subtopic[0] == "internal" <==> SameText(levels[3], "internal")
    ensures subtopic[0] == "raw" <==> SameText(levels[3], "raw")
    ensures subtopic[0] == "serial" <==> SameText(levels[3], "serial")
    ensures subtopic == ["neighbors"] <==> |levels| == 4 && SameText(levels[3], "neighbors")
  {
    hide Lower, SameText;
    LowerIs(levels[3], "error");
    LowerIs(levels[3], "internal");
    LowerIs(levels[3], "raw");
    LowerIs(levels[3], "serial");
    LowerIs(levels[3], "neighbors");
    assert subtopic[0] == Lower(levels[3]);
  }

  lemma PairSpells(subtopic: seq<string>, levels: seq<string>, first: string, second: string)
    requires |levels| >= 4 && |subtopic| == |levels| - 3
    requires forall i :: 0 <= i < |subtopic| ==> subtopic[i] == Lower(levels[i + 3])
    requires NoCapital(first) && NoCapital(second)
    ensures subtopic == [first, second] <==> |levels| == 5 && SameText(levels[3], first) && SameText(levels[4], second)
  {
    hide Lower, SameText, NoCapital;
    if |levels| == 5 {
      LowerIs(levels[3], first);
      LowerIs(levels[4], second);
      assert subtopic[0] == Lower(levels[3]) && subtopic[1] == Lower(levels[4]);
    }
  }

  /** An observer's publish is accepted exactly when the levels of its topic, its payload and its
      ownership allow it; nothing else is accepted and nothing that qualifies is refused. */
  lemma ObserverAcceptedExactly(
    config: Config, publicKey: string, owns: bool, topic: string, payload: seq<byte>, retain: bool,
    origin: Option<ObserverErrorCode>)
    ensures AuthorizePublish(config, Publisher(publicKey), owns, topic, payload, retain, origin).Allowed?
       <==> ObserverMayPublish(config, publicKey, owns, Split(topic, '/'), payload, retain, origin)
  {
    hide Split, Parse, Lower, Upper, AuthorizeParsed, IsMeshcore, ServedIata, IataOf, IsJwtShape, IsToken, SameText, Normalized,
      CanonicalTopic;
    MeshcoreReading(topic);
    if Parse(topic).Some? {
      SubtopicLevels(topic);
      var subtopic, levels := Split(Lower(Parse(topic).value.subtopic), '/'), Split(topic, '/');
      LevelsSpell(subtopic, levels);
      PairSpells(subtopic, levels, "serial", "responses");
      CaseDecides(levels[2], publicKey);
      TokenExact(payload);
      MeshcoreOpens(levels);
      DecisionOnLevels(config, publicKey, owns, Parse(topic).value, payload, retain, origin);
    }
  }

  // ---- The decision itself ----

  /** The first objection to an observer's publish, in the order in which they are reported. */
  ghost function Objection(
    config: Config, publicKey: string, owns: bool, levels: seq<string>, payload: seq<byte>, retain: bool,
    origin: Option<ObserverErrorCode>): Option<ObserverErrorCode>
    requires |levels| > 0
  {
    if levels[0] != "meshcore" || |levels| == 1 then Some(PublishNotMeshcoreTopic)
    else if !IsMeshcore(levels) then Some(PublishBadTopicShape)
    else if IataObjection(config, IataOf(levels)).Some? then IataObjection(config, IataOf(levels))
    else if !SameText(levels[2], publicKey) then Some(PublishKeyMismatch)
    else if !owns then Some(PublishStaleConnection)
    else ContentObjection(config, levels, payload, retain, origin)
  }

  function IataObjection(config: Config, iata: string): Option<ObserverErrorCode> {
    if iata == "XXX" then Some(PublishPlaceholderIata)
    else if iata == "test" then if config.allowTestIngress then None else Some(PublishTestIngressDisabled)
    else if |iata| != 3 || exists i :: 0 <= i < 3 && !('A' <= iata[i] <= 'Z') then Some(PublishInvalidIataFormat)
    else if iata in config.secondaryIata then Some(PublishSecondaryIata)
    else if iata !in config.allowedIata then Some(PublishUnknownIata)
    else None
  }

  ghost function ContentObjection(
    config: Config, levels: seq<string>, payload: seq<byte>, retain: bool, origin: Option<ObserverErrorCode>)
    : Option<ObserverErrorCode>
    requires |levels| >= 4
  {
    var root := levels[3];
    if SameText(root, "error") || SameText(root, "internal") || SameText(root, "raw") then Some(PublishReservedSubtopic)
    else if SameText(root, "serial") && !(|levels| == 5 && SameText(levels[4], "responses")) then
      Some(PublishReservedSubtopic)
    else if Clears(payload, retain) then None
    else if SameText(root, "serial") then
      if |payload| > 4_096 then Some(PublishPayloadTooLarge)
      else if !IsToken(payload) then Some(PublishSerialResponseInvalid)
      else None
    else if |payload| > config.jsonPublishMaxBytes && !(|levels| == 4 && SameText(root, "neighbors") && |payload| <= 10_240)
    then Some(PublishPayloadTooLarge)
    else origin
  }

  /** The same, for the lower-cased levels of a parsed subtopic. */
  ghost function ParsedObjection(
    config: Config, subtopic: seq<string>, payload: seq<byte>, retain: bool, origin: Option<ObserverErrorCode>)
    : Option<ObserverErrorCode>
    requires |subtopic| > 0
  {
    if subtopic[0] == "error" || subtopic[0] == "internal" || subtopic[0] == "raw" then Some(PublishReservedSubtopic)
    else if subtopic[0] == "serial" && subtopic != ["serial", "responses"] then Some(PublishReservedSubtopic)
    else if Clears(payload, retain) then None
    else if subtopic[0] == "serial" then
      if |payload| > 4_096 then Some(PublishPayloadTooLarge)
      else if !IsJwtShape(payload) then Some(PublishSerialResponseInvalid)
      else None
    else if |payload| > config.jsonPublishMaxBytes && !(subtopic == ["neighbors"] && |payload| <= 10_240)
    then Some(PublishPayloadTooLarge)
    else origin
  }

  predicate ClosesFor(code: ObserverErrorCode) {
    code in {PublishPlaceholderIata, PublishInvalidIataFormat, PublishKeyMismatch, PublishStaleConnection}
  }

  /** An objection as a denial; four of them close the connection. */
  predicate Reports(decision: Decision, parsed: MeshcoreTopic, objection: Option<ObserverErrorCode>, retain: bool) {
    match objection
    case None => decision == Allowed(AllowedPublish(Normalized(parsed), retain))
    case Some(code) => decision == Denied(Denial(code, Some(Normalized(parsed)), Some(parsed.iata), ClosesFor(code)))
  }

  lemma ParsedDecision(
    config: Config, publicKey: string, owns: bool, parsed: MeshcoreTopic, payload: seq<byte>, retain: bool,
    origin: Option<ObserverErrorCode>)
    requires origin.Some? ==> !ClosesFor(origin.value)
    ensures var decision := AuthorizeParsed(config, publicKey, owns, parsed, payload, retain, origin);
            var iata := IataObjection(config, parsed.iata);
            Reports(decision, parsed,
              if iata.Some? then iata
              else if parsed.publicKey != Upper(publicKey) then Some(PublishKeyMismatch)
              else if !owns then Some(PublishStaleConnection)
              else ParsedObjection(config, Split(Lower(parsed.subtopic), '/'), payload, retain, origin), retain)
  {
    hide Split, Lower, Upper, IsJwtShape, Normalized;
    SubtopicTests(Lower(parsed.subtopic));
  }

  /** Every decision on an observer's publish: whether it is accepted, under which topic, and otherwise
      with which code, topic and IATA it is denied and whether the connection is closed. */
  lemma ObserverDecisionExactly(
    config: Config, publicKey: string, owns: bool, topic: string, payload: seq<byte>, retain: bool,
    origin: Option<ObserverErrorCode>)
    requires origin.Some? ==> origin.value in {PublishInvalidJson, PublishOriginMissing, PublishOriginMismatch}
    ensures var levels := Split(topic, '/');
            var objection := Objection(config, publicKey, owns, levels, payload, retain, origin);
            AuthorizePublish(config, Publisher(publicKey), owns, topic, payload, retain, origin) ==
              if objection.None? then Allowed(AllowedPublish(CanonicalTopic(levels), retain))
              else if !IsMeshcore(levels) then Denied(Denial(objection.value, Some(topic), None, false))
              else
                Denied(Denial(objection.value, Some(CanonicalTopic(levels)), Some(IataOf(levels)),
                  objection.value in
                    {PublishPlaceholderIata, PublishInvalidIataFormat, PublishKeyMismatch, PublishStaleConnection}))
  {
    hide Split, Parse, Lower, Upper, AuthorizeParsed, IsMeshcore, IataOf, IsJwtShape, IsToken, SameText, Normalized,
      CanonicalTopic, IataObjection;
    MeshcoreReading(topic);
    if Parse(topic).Some? {
      SubtopicLevels(topic);
      var subtopic, levels := Split(Lower(Parse(topic).value.subtopic), '/'), Split(topic, '/');
      LevelsSpell(subtopic, levels);
      PairSpells(subtopic, levels, "serial", "responses");
      CaseDecides(levels[2], publicKey);
      TokenExact(payload);
      MeshcoreOpens(levels);
      ParsedDecision(config, publicKey, owns, Parse(topic).value, payload, retain, origin);
    }
  }

  /** An admin may publish serial commands on allowed IATAs, of bounded size, and nothing else; the other
      subscribers may publish nothing. No denial of theirs names an IATA or closes a connection. */
  lemma SubscriberDecisionExactly(
    config: Config, username: string, role: Role, owns: bool, topic: string, payload: seq<byte>, retain: bool,
    origin: Option<ObserverErrorCode>)
    ensures var levels := Split(topic, '/');
            AuthorizePublish(config, Subscriber(username, role), owns, topic, payload, retain, origin) ==
              if role != Admin then Denied(Denial(PublishReservedSubtopic, Some(topic), None, false))
              else if !IsAdminTopic(config, levels) then Denied(Denial(PublishBadTopicShape, Some(topic), None, false))
              else if |payload| > 4_096 then Denied(Denial(PublishPayloadTooLarge, Some(topic), None, false))
              else Allowed(AllowedPublish(CanonicalTopic(levels), retain))
  {
    hide Split, Parse, Lower, IsMeshcore, IataOf, Normalized, CanonicalTopic, SameText;
    MeshcoreReading(topic);
    if Parse(topic).Some? {
      Literals();
      SubtopicLevels(topic);
      var subtopic, levels := Split(Lower(Parse(topic).value.subtopic), '/'), Split(topic, '/');
      PairSpells(subtopic, levels, "serial", "commands");
      SubtopicTests(Lower(Parse(topic).value.subtopic));
    }
  }
}
