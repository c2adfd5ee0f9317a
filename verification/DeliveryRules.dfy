/** Who receives what, read off the levels of a topic, and where a denial is announced. */
module DeliveryRules {
  import opened Common
  import opened Topics
  import opened TextLaws
  import opened ObserverErrors
  import opened Policy
  import opened PolicyLaws
  import opened PublishRules

  /** What a subscriber without the admin role never sees. */
  predicate IsHidden(levels: seq<string>)
    requires |levels| > 0
  {
    || levels[0] == "$SYS"
    || (&& levels[0] == "meshcore" && |levels| >= 4
        && (|| SameText(levels[3], "internal") || SameText(levels[3], "serial")
            || (levels[3] == "error" && IsKeyText(levels[2]))))
  }

  /** An observer's own error channel. */
  predicate IsErrorChannel(levels: seq<string>, publicKey: string) {
    IsMeshcore(levels) && SameText(levels[2], publicKey) && |levels| == 4 && SameText(levels[3], "error")
  }

  /** The channel an observer takes admin commands from. */
  predicate IsCommandChannel(levels: seq<string>, publicKey: string) {
    && IsMeshcore(levels) && SameText(levels[2], publicKey)
    && |levels| == 5 && SameText(levels[3], "serial") && SameText(levels[4], "commands")
  }

  /** Admins receive everything, other subscribers what is not hidden, and an observer its own error channel
      and, while its connection owns the key, its command channel. */
  predicate Receives(principal: Principal, levels: seq<string>, isOwner: bool)
    requires |levels| > 0
  {
    || (principal.Subscriber? && principal.role == Admin)
    || (principal.Subscriber? && !IsHidden(levels))
    || (principal.Publisher? && IsErrorChannel(levels, principal.publicKey))
    || (principal.Publisher? && isOwner && IsCommandChannel(levels, principal.publicKey))
  }

  lemma SysLevel(topic: string)
    ensures IsSys(topic) <==> Split(topic, '/')[0] == "$SYS"
  {
    hide Split;
    FirstLevel(topic, "$SYS");
    assert "$SYS" + "/" == "$SYS/";
  }

  lemma HiddenLevels(topic: string)
    ensures IsSys(topic) || IsPrivateTopic(topic) || IsObserverErrorTopic(topic) <==> IsHidden(Split(topic, '/'))
  {
    hide Split, Lower, SameText, IsHexKey, IsKeyText, IsSys;
    SysLevel(topic);
    var levels := Split(topic, '/');
    if |levels| >= 4 {
      LowerIs(levels[3], "internal");
      LowerIs(levels[3], "serial");
      KeyTextExact(levels[2]);
    }
  }

  /** A parsed topic's subtopic, said of the topic's levels. */
  lemma OwnChannels(topic: string, publicKey: string)
    requires Parse(topic).Some?
    ensures var t, levels := Parse(topic).value, Split(topic, '/');
            && (t.publicKey == Upper(publicKey) && Lower(t.subtopic) == "error" <==> IsErrorChannel(levels, publicKey))
            && (t.publicKey == Upper(publicKey) && Lower(t.subtopic) == "serial/commands"
                <==> IsCommandChannel(levels, publicKey))
  {
    hide Split, Parse, Lower, Upper, IsMeshcore, SameText, Normalized, CanonicalTopic, IataOf;
    MeshcoreReading(topic);
    SubtopicLevels(topic);
    var levels, subtopic := Split(topic, '/'), Split(Lower(Parse(topic).value.subtopic), '/');
    MeshcoreOpens(levels);
    CaseDecides(levels[2], publicKey);
    PairSpells(subtopic, levels, "serial", "commands");
    LowerIs(levels[3], "error");
    OneLevel(Lower(Parse(topic).value.subtopic), "error");
    SubtopicTests(Lower(Parse(topic).value.subtopic));
  }

  /** Delivery, exactly: for every principal and topic, owner or not. */
  lemma DeliveredExactly(principal: Principal, topic: string, isOwner: bool)
    ensures DeliveryAllows(principal, topic, isOwner) <==> Receives(principal, Split(topic, '/'), isOwner)
  {
    hide Split, Parse, Lower, Upper, IsSys, IsPrivateTopic, IsObserverErrorTopic, IsHidden, IsErrorChannel, IsCommandChannel;
    HiddenLevels(topic);
    if principal.Publisher? {
      if Parse(topic).Some? {
        OwnChannels(topic, principal.publicKey);
        LowerIs(Parse(topic).value.subtopic, "error");
        CaseDecides(Parse(topic).value.subtopic, "error");
      } else {
        OnlyMeshcoreChannels(topic, principal.publicKey);
      }
    }
  }

  lemma OnlyMeshcoreChannels(topic: string, publicKey: string)
    requires Parse(topic).None?
    ensures !IsErrorChannel(Split(topic, '/'), publicKey) && !IsCommandChannel(Split(topic, '/'), publicKey)
  {
    hide Split, Parse, IsMeshcore;
    MeshcoreParses(topic);
  }

  /** Routing is what delivery is to a connection that owns its key. */
  lemma RoutedExactly(principal: Principal, topic: string)
    ensures RouteAllows(principal, topic) <==> Receives(principal, Split(topic, '/'), true)
  {
    DeliveredExactly(principal, topic, true);
  }

  // ---- Where a denial is announced (src/mqtt/broker/notifications.rs) ----

  /** `test` or three letters, in any case. */
  predicate IsRoutable(text: string) {
    || SameText(text, "test")
    || (|text| == 3 && forall i :: 0 <= i < 3 ==> 'a' <= text[i] <= 'z' || 'A' <= text[i] <= 'Z')
  }

  /** The IATA level of a topic with at least one level after it. */
  predicate NamesRoutable(levels: seq<string>) {
    |levels| >= 3 && levels[0] == "meshcore" && IsRoutable(Trim(levels[1]))
  }

  lemma RoutableExactly(value: string)
    ensures NormalizeDenialIata(value) == if IsRoutable(value) then Some(CanonicalIata(value)) else None
  {
    hide Upper;
    CaseDecides(value, "test");
    CasesExact(value);
    assert forall i :: 0 <= i < |value| ==> SameLetter(Upper(value)[i], value[i]);
  }

  /** The IATA a denial is announced under: its own if that is routable, else that of the topic it carries,
      else the placeholder. */
  lemma DenialIataExactly(denial: Denial)
    ensures DenialIata(denial) ==
      if denial.iata.Some? && IsRoutable(denial.iata.value) then CanonicalIata(denial.iata.value)
      else if denial.topic.Some? && NamesRoutable(Split(denial.topic.value, '/')) then
        CanonicalIata(Trim(Split(denial.topic.value, '/')[1]))
      else "XXX"
  {
    hide Split, NormalizeDenialIata, IsRoutable, CanonicalIata, Trim;
    if denial.iata.Some? { RoutableExactly(denial.iata.value); }
    if denial.topic.Some? {
      var levels := Split(denial.topic.value, '/');
      if |levels| >= 2 { RoutableExactly(Trim(levels[1])); }
    }
  }
}
