/** Topic parsing and canonical form (src/mqtt/policy/topics.rs). */
module Topics {
  import opened Common

  // ---- Text operations of the original's standard library ----

  function LowerChar(c: char): char {
    if 'A' <= c <= 'Z' then (c as int + 32) as char else c
  }

  function UpperChar(c: char): char {
    if 'a' <= c <= 'z' then (c as int - 32) as char else c
  }

  function Lower(s: string): (r: string)
    ensures |r| == |s|
  {
    seq(|s|, i requires 0 <= i < |s| => LowerChar(s[i]))
  }

  function Upper(s: string): (r: string)
    ensures |r| == |s|
  {
    seq(|s|, i requires 0 <= i < |s| => UpperChar(s[i]))
  }

  predicate EqIgnoreCase(a: string, b: string) {
    Lower(a) == Lower(b)
  }

  predicate IsHexDigit(c: char) {
    '0' <= c <= '9' || 'a' <= c <= 'f' || 'A' <= c <= 'F'
  }

  predicate IsHexKey(s: string) {
    |s| == 64 && forall i :: 0 <= i < |s| ==> IsHexDigit(s[i])
  }

  /** Unicode White_Space. */
  predicate IsWhite(c: char) {
    || '\U{0009}' <= c <= '\U{000D}' || c == ' ' || c == '\U{0085}' || c == '\U{00A0}' || c == '\U{1680}'
    || '\U{2000}' <= c <= '\U{200A}' || c == '\U{2028}' || c == '\U{2029}' || c == '\U{202F}'
    || c == '\U{205F}' || c == '\U{3000}'
  }

  function TrimStart(s: string): string {
    if s != "" && IsWhite(s[0]) then TrimStart(s[1..]) else s
  }

  function TrimEnd(s: string): string {
    if s != "" && IsWhite(s[|s| - 1]) then TrimEnd(s[..|s| - 1]) else s
  }

  function Trim(s: string): string {
    TrimEnd(TrimStart(s))
  }

  function Split<T(==)>(s: seq<T>, sep: T): (parts: seq<seq<T>>)
    ensures |parts| > 0
  {
    if s == [] then [[]]
    else
      var rest := Split(s[1..], sep);
      if s[0] == sep then [[]] + rest else [[s[0]] + rest[0]] + rest[1..]
  }

  function Join<T>(parts: seq<seq<T>>, sep: T): seq<T> {
    if |parts| == 0 then []
    else if |parts| == 1 then parts[0]
    else parts[0] + [sep] + Join(parts[1..], sep)
  }

  predicate Free<T(==)>(s: seq<T>, c: T) {
    c !in s
  }

  // ---- The module itself ----

  datatype MeshcoreTopic = MeshcoreTopic(iata: string, publicKey: string, subtopic: string)

  predicate BadPart(part: string) {
    Trim(part) == "" || '+' in part || '#' in part
  }

  function CanonicalIata(raw: string): string {
    if EqIgnoreCase(raw, "test") then "test" else Upper(raw)
  }

  function Parse(topic: string): Option<MeshcoreTopic> {
    var parts := Split(topic, '/');
    if |parts| < 4 || parts[0] != "meshcore" || (exists i :: 0 <= i < |parts| && BadPart(parts[i])) then None
    else
      var key := Upper(parts[2]);
      if !IsHexKey(key) then None
      else Some(MeshcoreTopic(CanonicalIata(Trim(parts[1])), key, Join(parts[3..], '/')))
  }

  predicate IsPrivateTopic(topic: string) {
    var parts := Split(topic, '/');
    |parts| >= 4 && parts[0] == "meshcore" && Lower(parts[3]) in {"internal", "serial"}
  }

  predicate IsObserverErrorTopic(topic: string) {
    var parts := Split(topic, '/');
    |parts| >= 4 && parts[0] == "meshcore" && parts[3] == "error" && IsHexKey(parts[2])
  }

  function Normalized(t: MeshcoreTopic): string {
    "meshcore/" + t.iata + "/" + t.publicKey + "/" + t.subtopic
  }

  // ---- Splitting and joining are inverse ----

  lemma {:induction false} JoinOfSplit<T>(s: seq<T>, sep: T)
    ensures Join(Split(s, sep), sep) == s
  {
    if s != [] {
      JoinOfSplit(s[1..], sep);
      var rest := Split(s[1..], sep);
      var parts := Split(s, sep);
      if s[0] == sep {
        assert parts[1..] == rest;
      } else if |rest| > 1 {
        assert parts[1..] == rest[1..];
      }
    }
  }

  lemma {:induction false} SplitIsFree<T>(s: seq<T>, sep: T)
    ensures forall i :: 0 <= i < |Split(s, sep)| ==> Free(Split(s, sep)[i], sep)
  {
    if s != [] {
      SplitIsFree(s[1..], sep);
    }
  }

  lemma {:induction false} SplitOfFree<T>(s: seq<T>, sep: T)
    requires Free(s, sep)
    ensures Split(s, sep) == [s]
  {
    if s != [] {
      SplitOfFree(s[1..], sep);
      assert [s[0]] + s[1..] == s;
    }
  }

  lemma {:induction false} SplitAtFirst<T>(head: seq<T>, sep: T, tail: seq<T>)
    requires Free(head, sep)
    ensures Split(head + [sep] + tail, sep) == [head] + Split(tail, sep)
  {
    var s := head + [sep] + tail;
    if head == [] {
      assert s[1..] == tail;
      assert Split(s, sep) == [[]] + Split(tail, sep);
    } else {
      SplitAtFirst(head[1..], sep, tail);
      assert s[1..] == head[1..] + [sep] + tail;
      assert [s[0]] + head[1..] == head;
    }
  }

  lemma {:induction false} SplitOfJoin<T>(parts: seq<seq<T>>, sep: T)
    requires |parts| > 0 && forall i :: 0 <= i < |parts| ==> Free(parts[i], sep)
    ensures Split(Join(parts, sep), sep) == parts
  {
    if |parts| == 1 {
      SplitOfFree(parts[0], sep);
    } else {
      SplitOfJoin(parts[1..], sep);
      SplitAtFirst(parts[0], sep, Join(parts[1..], sep));
    }
  }

  lemma SplitOfFour(iata: string, key: string, tail: string)
    requires '/' !in iata && '/' !in key
    ensures Split("meshcore/" + iata + "/" + key + "/" + tail, '/') == ["meshcore", iata, key] + Split(tail, '/')
  {
    hide Split;
    SplitAtFirst(key, '/', tail);
    SplitAtFirst(iata, '/', key + ['/'] + tail);
    SplitAtFirst("meshcore", '/', iata + ['/'] + (key + ['/'] + tail));
    assert "meshcore/" + iata + "/" + key + "/" + tail == "meshcore" + ['/'] + (iata + ['/'] + (key + ['/'] + tail));
  }

  // ---- Trimming and upper-casing ----

  predicate Trimmed(s: string) {
    s == "" || (!IsWhite(s[0]) && !IsWhite(s[|s| - 1]))
  }

  lemma {:induction false} TrimStartParts(s: string)
    ensures TrimStart(s) == "" || !IsWhite(TrimStart(s)[0])
    ensures forall c :: c in TrimStart(s) ==> c in s
  {
    if s != "" && IsWhite(s[0]) {
      TrimStartParts(s[1..]);
    }
  }

  lemma {:induction false} TrimEndParts(s: string)
    ensures TrimEnd(s) <= s
    ensures TrimEnd(s) == "" || !IsWhite(TrimEnd(s)[|TrimEnd(s)| - 1])
  {
    if s != "" && IsWhite(s[|s| - 1]) {
      TrimEndParts(s[..|s| - 1]);
    }
  }

  lemma TrimResult(s: string)
    ensures Trimmed(Trim(s))
    ensures forall c :: c in Trim(s) ==> c in s
  {
    TrimStartParts(s);
    TrimEndParts(TrimStart(s));
  }

  lemma TrimmedStays(s: string)
    requires Trimmed(s)
    ensures Trim(s) == s
  {
  }

  lemma CanonicalIataIsCanonical(raw: string)
    requires Trimmed(raw)
    ensures Trimmed(CanonicalIata(raw)) && CanonicalIata(CanonicalIata(raw)) == CanonicalIata(raw)
    ensures |CanonicalIata(raw)| == |raw|
  {
    if EqIgnoreCase(raw, "test") {
      assert |Lower(raw)| == |Lower("test")|;
    } else {
      assert Lower(Upper(raw)) == Lower(raw);
      assert Upper(Upper(raw)) == Upper(raw);
    }
  }

  lemma CanonicalIataAvoids(raw: string, c: char)
    requires c !in raw && !('A' <= c <= 'Z') && !('a' <= c <= 'z')
    ensures c !in CanonicalIata(raw)
  {
  }

  /** The parts a canonical topic is made of. */
  function CanonicalParts(topic: string): seq<string>
    requires Parse(topic).Some?
  {
    var t := Parse(topic).value;
    ["meshcore", t.iata, t.publicKey] + Split(topic, '/')[3..]
  }

  lemma JoinCons<T>(a: seq<T>, rest: seq<seq<T>>, sep: T)
    requires |rest| > 0
    ensures Join([a] + rest, sep) == a + [sep] + Join(rest, sep)
  {
    assert ([a] + rest)[1..] == rest;
  }

  lemma JoinOfFour<T>(a: seq<T>, b: seq<T>, c: seq<T>, rest: seq<seq<T>>, sep: T)
    requires |rest| > 0
    ensures Join([a, b, c] + rest, sep) == a + [sep] + (b + [sep] + (c + [sep] + Join(rest, sep)))
  {
    hide Join;
    JoinCons(c, rest, sep);
    JoinCons(b, [c] + rest, sep);
    JoinCons(a, [b] + ([c] + rest), sep);
    assert [a, b, c] + rest == [a] + ([b] + ([c] + rest));
  }

  lemma NormalizedIsJoin(topic: string)
    requires Parse(topic).Some?
    ensures Normalized(Parse(topic).value) == Join(CanonicalParts(topic), '/')
  {
    hide Split, Join, Trim, Upper, Lower, EqIgnoreCase, BadPart;
    var t := Parse(topic).value;
    JoinOfFour("meshcore", t.iata, t.publicKey, Split(topic, '/')[3..], '/');
    assert Normalized(t) == "meshcore" + "/" + (t.iata + "/" + (t.publicKey + "/" + t.subtopic));
  }

  /** A parsed IATA is non-blank, wildcard-free, slash-free and stable under parsing. */
  lemma ParsedIataIsGood(topic: string)
    requires Parse(topic).Some?
    ensures var iata := Parse(topic).value.iata;
            !BadPart(iata) && Free(iata, '/') && CanonicalIata(Trim(iata)) == iata
  {
    var raw := Split(topic, '/')[1];
    SplitIsFree(topic, '/');
    TrimResult(raw);
    assert !BadPart(raw);
    CanonicalIataIsCanonical(Trim(raw));
    CanonicalIataAvoids(Trim(raw), '/');
    CanonicalIataAvoids(Trim(raw), '+');
    CanonicalIataAvoids(Trim(raw), '#');
    TrimmedStays(CanonicalIata(Trim(raw)));
  }

  lemma HexKeyIsGood(key: string)
    requires IsHexKey(key)
    ensures !BadPart(key) && Free(key, '/') && IsHexKey(Upper(key)) && Upper(Upper(key)) == Upper(key)
  {
    TrimmedStays(key);
  }

  lemma CanonicalPartsAreGood(topic: string)
    requires Parse(topic).Some?
    ensures forall i :: 0 <= i < |CanonicalParts(topic)| ==>
              Free(CanonicalParts(topic)[i], '/') && !BadPart(CanonicalParts(topic)[i])
  {
    hide BadPart;
    var split, parts := Split(topic, '/'), CanonicalParts(topic);
    SplitIsFree(topic, '/');
    ParsedIataIsGood(topic);
    HexKeyIsGood(Parse(topic).value.publicKey);
    assert !BadPart(split[0]);
    forall i | 0 <= i < |parts| ensures Free(parts[i], '/') && !BadPart(parts[i]) {
      if i >= 3 {
        assert parts[i] == split[i];
      }
    }
  }

  /** Parsing a canonical topic gives back the parse it was built from. */
  lemma CanonicalRoundTrip(topic: string)
    requires Parse(topic).Some?
    ensures Parse(Normalized(Parse(topic).value)) == Parse(topic)
    ensures Split(Normalized(Parse(topic).value), '/') == CanonicalParts(topic)
  {
    hide BadPart;
    var parts := CanonicalParts(topic);
    CanonicalPartsAreGood(topic);
    NormalizedIsJoin(topic);
    SplitOfJoin(parts, '/');
    ParsedIataIsGood(topic);
    HexKeyIsGood(Parse(topic).value.publicKey);
    assert parts[3..] == Split(topic, '/')[3..];
    assert Upper(Upper(Split(topic, '/')[2])) == Upper(Split(topic, '/')[2]);
  }

  /** Topics with the same canonical form are the same topic to every policy. */
  lemma CanonicalFormDecides(topic: string, other: string)
    requires Parse(topic).Some? && Parse(other).Some?
    ensures Normalized(Parse(topic).value) == Normalized(Parse(other).value) <==> Parse(topic) == Parse(other)
  {
    CanonicalRoundTrip(topic);
    CanonicalRoundTrip(other);
  }
}
