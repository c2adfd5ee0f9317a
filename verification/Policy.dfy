/** Publish authorisation, routing and delivery (src/mqtt/policy/publish.rs, delivery.rs). */
module Policy {
  import opened Common
  import opened Topics
  import opened ObserverErrors

  const SERIAL_MAX_BYTES: nat := 4_096
  const FIRMWARE_NEIGHBORS_JSON_BUFFER_BYTES: nat := 10_240

  datatype Role = Admin | FullAccess | Limited

  datatype Principal = Publisher(publicKey: string) | Subscriber(username: string, role: Role)

  datatype Config = Config(
    allowedIata: set<string>,
    secondaryIata: map<string, string>,
    allowTestIngress: bool,
    jsonPublishMaxBytes: nat)

  datatype AllowedPublish = AllowedPublish(topic: string, retain: bool)

  /** A denial without its prose. */
  datatype Denial = Denial(code: ObserverErrorCode, topic: Option<string>, iata: Option<string>, close: bool)

  datatype Decision = Allowed(publish: AllowedPublish) | Denied(denial: Denial)

  function Deny(code: ObserverErrorCode, topic: string): Decision {
    Denied(Denial(code, Some(topic), None, false))
  }

  function DenyParsed(code: ObserverErrorCode, parsed: MeshcoreTopic, close: bool): Decision {
    Denied(Denial(code, Some(Normalized(parsed)), Some(parsed.iata), close))
  }

  /** `origin` is what checking the JSON payload's `origin_id` would report; None when it matches. */
  function AuthorizePublish(
    config: Config, principal: Principal, ownsObserver: bool, topic: string, payload: seq<byte>, retain: bool,
    origin: Option<ObserverErrorCode>): Decision
  {
    match principal
    case Subscriber(_, Admin) => AuthorizeAdminPublish(config, topic, payload, retain)
    case Subscriber(_, _) => Deny(PublishReservedSubtopic, topic)
    case Publisher(publicKey) =>
      AuthorizeObserverPublish(config, publicKey, ownsObserver, topic, payload, retain, origin)
  }

  function AuthorizeAdminPublish(config: Config, topic: string, payload: seq<byte>, retain: bool): Decision {
    var parsed := Parse(topic);
    if parsed.None? then Deny(PublishBadTopicShape, topic)
    else if !EqIgnoreCase(parsed.value.subtopic, "serial/commands") || parsed.value.iata !in config.allowedIata then
      Deny(PublishBadTopicShape, topic)
    else if |payload| > SERIAL_MAX_BYTES then Deny(PublishPayloadTooLarge, topic)
    else Allowed(AllowedPublish(Normalized(parsed.value), retain))
  }

  predicate StartsWith(s: string, prefix: string) {
    prefix <= s
  }

  function AuthorizeObserverPublish(
    config: Config, publicKey: string, ownsObserver: bool, topic: string, payload: seq<byte>, retain: bool,
    origin: Option<ObserverErrorCode>): Decision
  {
    if !StartsWith(topic, "meshcore/") then Deny(PublishNotMeshcoreTopic, topic)
    else if Parse(topic).None? then Deny(PublishBadTopicShape, topic)
    else AuthorizeParsed(config, publicKey, ownsObserver, Parse(topic).value, payload, retain, origin)
  }

  function AuthorizeParsed(
    config: Config, publicKey: string, ownsObserver: bool, parsed: MeshcoreTopic, payload: seq<byte>, retain: bool,
    origin: Option<ObserverErrorCode>): Decision
  {
    var iataProblem := ValidateIata(config, parsed);
    var subtopic := Lower(parsed.subtopic);
    var root := Split(subtopic, '/')[0];
    if iataProblem.Some? then iataProblem.value
    else if parsed.publicKey != Upper(publicKey) then DenyParsed(PublishKeyMismatch, parsed, true)
    else if !ownsObserver then DenyParsed(PublishStaleConnection, parsed, true)
    else if subtopic == "error" || StartsWith(subtopic, "error/") then DenyParsed(PublishReservedSubtopic, parsed, false)
    else if root == "internal" then DenyParsed(PublishReservedSubtopic, parsed, false)
    else if subtopic == "serial/commands" then DenyParsed(PublishReservedSubtopic, parsed, false)
    else if root == "serial" && subtopic != "serial/responses" then DenyParsed(PublishReservedSubtopic, parsed, false)
    else if root == "raw" then DenyParsed(PublishReservedSubtopic, parsed, false)
    else if subtopic == "serial/responses" then AuthorizeSerialResponse(parsed, payload, retain)
    else if |payload| > JsonLimit(config, subtopic) then DenyParsed(PublishPayloadTooLarge, parsed, false)
    else if !(retain && payload == []) && origin.Some? then DenyParsed(origin.value, parsed, false)
    else Allowed(AllowedPublish(Normalized(parsed), retain))
  }

  function JsonLimit(config: Config, subtopic: string): nat {
    if subtopic == "neighbors" then Max(config.jsonPublishMaxBytes, FIRMWARE_NEIGHBORS_JSON_BUFFER_BYTES)
    else config.jsonPublishMaxBytes
  }

  predicate IsUpperLetter(c: char) {
    'A' <= c <= 'Z'
  }

  predicate IsThreeCapitals(iata: string) {
    |iata| == 3 && forall i :: 0 <= i < |iata| ==> IsUpperLetter(iata[i])
  }

  function ValidateIata(config: Config, parsed: MeshcoreTopic): Option<Decision> {
    if parsed.iata == "XXX" then Some(DenyParsed(PublishPlaceholderIata, parsed, true))
    else if parsed.iata == "test" then
      if config.allowTestIngress then None else Some(DenyParsed(PublishTestIngressDisabled, parsed, false))
    else if !IsThreeCapitals(parsed.iata) then Some(DenyParsed(PublishInvalidIataFormat, parsed, true))
    else if parsed.iata in config.secondaryIata then Some(DenyParsed(PublishSecondaryIata, parsed, false))
    else if parsed.iata !in config.allowedIata then Some(DenyParsed(PublishUnknownIata, parsed, false))
    else None
  }

  predicate IsBase64Url(b: byte) {
    0x30 <= b <= 0x39 || 0x41 <= b <= 0x5A || 0x61 <= b <= 0x7A || b == 0x5F || b == 0x2D
  }

  predicate AllBase64Url(part: seq<byte>) {
    forall j :: 0 <= j < |part| ==> IsBase64Url(part[j])
  }

  predicate IsJwtShape(payload: seq<byte>) {
    var parts := Split(payload, 0x2E);
    && |parts| == 3
    && forall i :: 0 <= i < 3 ==> parts[i] != [] && AllBase64Url(parts[i])
  }

  function AuthorizeSerialResponse(parsed: MeshcoreTopic, payload: seq<byte>, retain: bool): Decision {
    if payload == [] && retain then Allowed(AllowedPublish(Normalized(parsed), true))
    else if |payload| > SERIAL_MAX_BYTES then DenyParsed(PublishPayloadTooLarge, parsed, false)
    else if !IsJwtShape(payload) then DenyParsed(PublishSerialResponseInvalid, parsed, false)
    else Allowed(AllowedPublish(Normalized(parsed), retain))
  }

  // ---- Routing and delivery ----

  predicate IsSys(topic: string) {
    topic == "$SYS" || StartsWith(topic, "$SYS/")
  }

  predicate RouteAllows(principal: Principal, topic: string) {
    match principal
    case Subscriber(_, Admin) => true
    case Subscriber(_, _) => !IsSys(topic) && !IsPrivateTopic(topic) && !IsObserverErrorTopic(topic)
    case Publisher(publicKey) =>
      var parsed := Parse(topic);
      parsed.Some? && parsed.value.publicKey == Upper(publicKey)
      && Lower(parsed.value.subtopic) in {"error", "serial/commands"}
  }

  predicate IsOwnObserverError(topic: string, publicKey: string) {
    var parsed := Parse(topic);
    parsed.Some? && parsed.value.publicKey == Upper(publicKey) && EqIgnoreCase(parsed.value.subtopic, "error")
  }

  predicate DeliveryAllows(principal: Principal, topic: string, isOwner: bool) {
    if principal.Publisher? && !isOwner then IsOwnObserverError(topic, principal.publicKey)
    else RouteAllows(principal, topic)
  }
}
