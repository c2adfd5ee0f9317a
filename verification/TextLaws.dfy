/** What the text operations on topics mean, character by character. */
module TextLaws {
  import opened Common
  import opened Topics

  const WHITE: string :=
    "\t\n\U{000B}\U{000C}\r \U{0085}\U{00A0}\U{1680}\U{2000}\U{2001}\U{2002}\U{2003}\U{2004}\U{2005}\U{2006}\U{2007}\U{2008}\U{2009}\U{200A}\U{2028}\U{2029}\U{202F}\U{205F}\U{3000}"

  const HEX: string := "0123456789abcdefABCDEF"

  /** Equal, or the two cases of one ASCII letter. */
  predicate SameLetter(a: char, b: char) {
    || a == b
    || ('a' <= a <= 'z' && a as int == b as int + 32)
    || ('a' <= b <= 'z' && b as int == a as int + 32)
  }

  predicate SameText(a: string, b: string) {
    |a| == |b| && forall i :: 0 <= i < |a| ==> SameLetter(a[i], b[i])
  }

  predicate NoSmallLetter(s: string) {
    forall i :: 0 <= i < |s| ==> !('a' <= s[i] <= 'z')
  }

  predicate NoCapital(s: string) {
    forall i :: 0 <= i < |s| ==> !('A' <= s[i] <= 'Z')
  }

  predicate Blank(s: string) {
    forall i :: 0 <= i < |s| ==> s[i] in WHITE
  }

  predicate IsKeyText(s: string) {
    |s| == 64 && forall i :: 0 <= i < |s| ==> s[i] in HEX
  }

  // ---- Letter case ----

  /** Upper-casing and lower-casing change the case of ASCII letters and nothing else. */
  lemma CasesExact(s: string)
    ensures SameText(Upper(s), s) && NoSmallLetter(Upper(s))
    ensures SameText(Lower(s), s) && NoCapital(Lower(s))
  {
  }

  /** Comparing texts without regard to case, in either direction. */
  lemma CaseDecides(a: string, b: string)
    ensures SameText(a, b) <==> Lower(a) == Lower(b)
    ensures SameText(a, b) <==> Upper(a) == Upper(b)
    ensures SameText(a, b) <==> EqIgnoreCase(a, b)
  {
    if |a| == |b| {
      forall i | 0 <= i < |a|
        ensures SameLetter(a[i], b[i]) <==> Lower(a)[i] == Lower(b)[i]
        ensures SameLetter(a[i], b[i]) <==> Upper(a)[i] == Upper(b)[i]
      {
      }
      assert SameText(a, b) ==> Lower(a) == Lower(b) && Upper(a) == Upper(b);
    }
  }

  lemma SmallIsLower(s: string)
    requires NoCapital(s)
    ensures Lower(s) == s
  {
  }

  lemma CapitalIsUpper(s: string)
    requires NoSmallLetter(s)
    ensures Upper(s) == s
  {
  }

  /** An IATA is read as `test` if it spells that in any case, and else as its capitals. */
  lemma CanonicalIataExact(raw: string)
    ensures SameText(CanonicalIata(raw), raw)
    ensures SameText(raw, "test") ==> CanonicalIata(raw) == "test"
    ensures !SameText(raw, "test") ==> NoSmallLetter(CanonicalIata(raw))
  {
    CaseDecides(raw, "test");
    CasesExact(raw);
    if SameText(raw, "test") {
      assert forall i :: 0 <= i < |raw| ==> SameLetter("test"[i], raw[i]);
    }
  }

  // ---- White space ----

  lemma WhiteExact(c: char)
    ensures IsWhite(c) <==> c in WHITE
  {
    assert WHITE[0] == '\t' && WHITE[1] == '\n' && WHITE[2] == '\U{000B}' && WHITE[3] == '\U{000C}' && WHITE[4] == '\r';
    assert WHITE[9] == '\U{2000}' && WHITE[10] == '\U{2001}' && WHITE[11] == '\U{2002}' && WHITE[12] == '\U{2003}';
    assert WHITE[13] == '\U{2004}' && WHITE[14] == '\U{2005}' && WHITE[15] == '\U{2006}' && WHITE[16] == '\U{2007}';
    assert WHITE[17] == '\U{2008}' && WHITE[18] == '\U{2009}' && WHITE[19] == '\U{200A}';
  }

  lemma {:induction false} TrimStartExact(s: string) returns (a: nat)
    ensures a <= |s| && TrimStart(s) == s[a..]
    ensures forall i :: 0 <= i < a ==> IsWhite(s[i])
    ensures a < |s| ==> !IsWhite(s[a])
  {
    a := 0;
    if s != "" && IsWhite(s[0]) {
      var rest := TrimStartExact(s[1..]);
      a := rest + 1;
    }
  }

  lemma {:induction false} TrimEndExact(s: string) returns (b: nat)
    ensures b <= |s| && TrimEnd(s) == s[..b]
    ensures forall i :: b <= i < |s| ==> IsWhite(s[i])
    ensures 0 < b ==> !IsWhite(s[b - 1])
  {
    b := |s|;
    if s != "" && IsWhite(s[|s| - 1]) {
      b := TrimEndExact(s[..|s| - 1]);
    }
  }

  /** Trimming cuts off exactly the leading and the trailing white space. */
  lemma TrimExact(s: string) returns (a: nat, b: nat)
    ensures a <= b <= |s| && Trim(s) == s[a..b]
    ensures Blank(s[..a]) && Blank(s[b..])
    ensures a < b ==> s[a] !in WHITE && s[b - 1] !in WHITE
    ensures Trim(s) == "" <==> Blank(s)
  {
    hide IsWhite;
    a := TrimStartExact(s);
    var n := TrimEndExact(s[a..]);
    b := a + n;
    forall i | 0 <= i < |s| ensures IsWhite(s[i]) <==> s[i] in WHITE { WhiteExact(s[i]); }
    assert forall i :: b <= i < |s| ==> s[i] == s[a..][i - a];
    assert s[a..][..n] == s[a..b];
    if a < b {
      assert !IsWhite(s[a]);
      assert s[a..][n - 1] == s[b - 1];
    }
  }

  /** A topic level is refused exactly when it is blank or holds a wildcard. */
  lemma BadPartExact(part: string)
    ensures BadPart(part) <==> Blank(part) || '+' in part || '#' in part
  {
    var a, b := TrimExact(part);
  }

  lemma KeyTextExact(s: string)
    ensures IsHexKey(s) <==> IsKeyText(s)
  {
    forall i | 0 <= i < |s| ensures IsHexDigit(s[i]) <==> s[i] in HEX {
      HexExact(s[i]);
    }
  }

  lemma HexExact(c: char)
    ensures IsHexDigit(c) <==> c in HEX
  {
    assert HEX[0] == '0' && HEX[1] == '1' && HEX[2] == '2' && HEX[3] == '3' && HEX[4] == '4' && HEX[5] == '5';
    assert HEX[6] == '6' && HEX[7] == '7' && HEX[8] == '8' && HEX[9] == '9' && HEX[10] == 'a' && HEX[11] == 'b';
    assert HEX[12] == 'c' && HEX[13] == 'd' && HEX[14] == 'e' && HEX[15] == 'f' && HEX[16] == 'A' && HEX[17] == 'B';
    assert HEX[18] == 'C' && HEX[19] == 'D' && HEX[20] == 'E' && HEX[21] == 'F';
  }

  // ---- Topics ----

  /** A topic of this system, by its levels. */
  predicate IsMeshcore(levels: seq<string>) {
    && |levels| >= 4 && levels[0] == "meshcore" && IsKeyText(levels[2])
    && forall i :: 0 <= i < |levels| ==> !Blank(levels[i]) && '+' !in levels[i] && '#' !in levels[i]
  }

  lemma MeshcoreParses(topic: string)
    ensures Parse(topic).Some? <==> IsMeshcore(Split(topic, '/'))
  {
    hide Split, BadPart, IsHexKey, IsKeyText, Upper, Trim, CanonicalIata, Join;
    var levels := Split(topic, '/');
    forall i | 0 <= i < |levels| ensures BadPart(levels[i]) <==> Blank(levels[i]) || '+' in levels[i] || '#' in levels[i] {
      BadPartExact(levels[i]);
    }
    if |levels| >= 4 {
      KeyTextExact(levels[2]);
      KeyCase(levels[2]);
    }
  }

  lemma KeyCase(key: string)
    ensures IsHexKey(Upper(key)) <==> IsHexKey(key)
  {
    assert forall i :: 0 <= i < |key| ==> (IsHexDigit(Upper(key)[i]) <==> IsHexDigit(key[i]));
  }

  /** Which topics are read, and what is read off them: the IATA without the white space around it, the key
      in capitals, and everything from the fourth level on as it stands. */
  lemma ParseExact(topic: string) returns (a: nat, b: nat)
    ensures Parse(topic).Some? <==> IsMeshcore(Split(topic, '/'))
    ensures Parse(topic).Some? ==>
      var levels, t := Split(topic, '/'), Parse(topic).value;
      && a < b <= |levels[1]| && Blank(levels[1][..a]) && Blank(levels[1][b..])
      && levels[1][a] !in WHITE && levels[1][b - 1] !in WHITE
      && SameText(t.iata, levels[1][a..b]) && (t.iata == "test" || NoSmallLetter(t.iata))
      && SameText(t.publicKey, levels[2]) && NoSmallLetter(t.publicKey)
      && t.subtopic == Join(levels[3..], '/')
  {
    hide Split, BadPart, IsHexKey, IsKeyText, Upper, Trim, CanonicalIata, Join, Blank, SameText, NoSmallLetter;
    MeshcoreParses(topic);
    var levels := Split(topic, '/');
    a, b := 0, 0;
    if Parse(topic).Some? {
      a, b := TrimExact(levels[1]);
      CanonicalIataExact(Trim(levels[1]));
      CasesExact(levels[2]);
      assert !Blank(levels[1]);
    }
  }
}
