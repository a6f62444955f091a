/** Escaping and splitting of structured vCard values, and the values built from them. */
module VCardText {
  import opened Wrappers
  import opened Text

  /** `strings.ReplaceAll` of one character. */
  function ReplaceAll(s: string, c: char, replacement: string): string {
    if s == "" then "" else (if s[0] == c then replacement else [s[0]]) + ReplaceAll(s[1..], c, replacement)
  }

  /** Two passes: backslashes are doubled first, then each ";" gets one in front. */
  function EscapeComponent(s: string): string {
    ReplaceAll(ReplaceAll(s, '\\', "\\\\"), ';', "\\;")
  }

  /** The same, one character at a time. */
  function Escaped(s: string): string {
    if s == "" then "" else EscapedChar(s[0]) + Escaped(s[1..])
  }

  lemma {:induction false} ReplaceAllAppend(a: string, b: string, c: char, replacement: string)
    ensures ReplaceAll(a + b, c, replacement) == ReplaceAll(a, c, replacement) + ReplaceAll(b, c, replacement)
  {
    if a == "" {
      assert a + b == b;
    } else {
      assert (a + b)[1..] == a[1..] + b;
      ReplaceAllAppend(a[1..], b, c, replacement);
    }
  }

  /** The second pass leaves what the first one added alone. */
  lemma {:induction false} EscapeIsCharwise(s: string)
    ensures EscapeComponent(s) == Escaped(s)
  {
    if s != "" {
      EscapeIsCharwise(s[1..]);
      var first := if s[0] == '\\' then "\\\\" else [s[0]];
      ReplaceAllAppend(first, ReplaceAll(s[1..], '\\', "\\\\"), ';', "\\;");
      assert ReplaceAll(first, ';', "\\;") == if s[0] == '\\' || s[0] == ';' then ['\\', s[0]] else [s[0]] by {
        assert first[1..] == if s[0] == '\\' then "\\" else "";
        assert ReplaceAll("\\", ';', "\\;") == "\\";
      }
    }
  }

  /** Components read from `s` while `current` is being collected. */
  function Components(s: string, current: string): seq<string>
    decreases |s|
  {
    if s == "" then [current]
    else if s[0] == '\\' && |s| > 1 then Components(s[2..], current + [s[1]])
    else if s[0] == ';' then [current] + Components(s[1..], "")
    else Components(s[1..], current + [s[0]])
  }

  /** Split on unescaped ";", unescaping on the way. */
  method SplitComponents(s: string) returns (parts: seq<string>)
    ensures parts == Components(s, "")
  {
    parts := [];
    var current := "";
    var i := 0;
    while i < |s|
      invariant i <= |s|
      invariant Components(s, "") == parts + Components(s[i..], current)
    {
      var rest := s[i..];
      if s[i] == '\\' && i + 1 < |s| {
        assert rest[2..] == s[i + 2..];
        current := current + [s[i + 1]];
        i := i + 2;
      } else if s[i] == ';' {
        assert rest[1..] == s[i + 1..];
        parts := parts + [current];
        current := "";
        i := i + 1;
      } else {
        assert rest[1..] == s[i + 1..];
        current := current + [s[i]];
        i := i + 1;
      }
    }
    parts := parts + [current];
  }

  function EscapedChar(c: char): string {
    if c == '\\' || c == ';' then ['\\', c] else [c]
  }

  lemma ComponentsOfChar(c: char, tail: string, current: string)
    ensures Components(EscapedChar(c) + tail, current) == Components(tail, current + [c])
  {
    var s := EscapedChar(c) + tail;
    assert s[|EscapedChar(c)|..] == tail;
  }

  lemma {:induction false} ComponentsOfEscaped(s: string, rest: string, current: string)
    ensures Components(Escaped(s) + rest, current) == Components(rest, current + s)
    decreases |s|
  {
    hide Components;
    if s == "" {
      assert Escaped(s) + rest == rest && current + s == current;
    } else {
      var tail := Escaped(s[1..]) + rest;
      assert Escaped(s) + rest == EscapedChar(s[0]) + tail;
      ComponentsOfChar(s[0], tail, current);
      ComponentsOfEscaped(s[1..], rest, current + [s[0]]);
      assert current + s == current + [s[0]] + s[1..];
    }
  }

  function EscapeAll(parts: seq<string>): seq<string> {
    seq(|parts|, i requires 0 <= i < |parts| => EscapeComponent(parts[i]))
  }

  /** Splitting the ";"-join of escaped components gives the components back, whatever they hold. */
  lemma {:induction false} ComponentsRoundTrip(parts: seq<string>)
    requires parts != []
    ensures Components(Join(EscapeAll(parts), ';'), "") == parts
  {
    EscapeIsCharwise(parts[0]);
    assert "" + parts[0] == parts[0];
    if |parts| == 1 {
      ComponentsOfEscaped(parts[0], "", "");
      assert Escaped(parts[0]) + "" == Escaped(parts[0]);
      assert parts == [parts[0]];
    } else {
      var rest := Join(EscapeAll(parts[1..]), ';');
      assert EscapeAll(parts)[1..] == EscapeAll(parts[1..]);
      assert Join(EscapeAll(parts), ';') == Escaped(parts[0]) + ([';'] + rest);
      ComponentsOfEscaped(parts[0], [';'] + rest, "");
      ComponentsRoundTrip(parts[1..]);
      assert ([';'] + rest)[1..] == rest;
      assert parts == [parts[0]] + parts[1..];
    }
  }

  /** The i-th component, or the empty string. */
  function Component(parts: seq<string>, i: nat): string {
    if i < |parts| then parts[i] else ""
  }

  /** The values that are not blank, in order. */
  function NonEmpty(values: seq<string>): seq<string> {
    if values == [] then []
    else (if TrimSpace(values[0]) != "" then [values[0]] else []) + NonEmpty(values[1..])
  }

  // Addresses

  datatype Address = Address(kind: string, street: string, city: string, region: string, postal: string,
                             country: string, pobox: string, apartment: string, floor: string)

  /** PO box, apartment and floor do not count: an address with nothing else is empty. */
  predicate IsEmptyAddress(a: Address) {
    TrimSpace(a.street + a.city + a.region + a.postal + a.country) == ""
  }

  /** The ADR value POBox;Extended;Street;Locality;Region;Postal;Country, its first two always left empty. */
  function AddressValue(a: Address): string {
    Join(EscapeAll(["", "", a.street, a.city, a.region, a.postal, a.country]), ';')
  }

  function AddressOf(value: string, kind: string): Address {
    var c := Components(value, "");
    Address(kind, TrimSpace(Join(NonEmpty([Component(c, 2), Component(c, 1)]), ' ')),
            Component(c, 3), Component(c, 4), Component(c, 5), Component(c, 6), "", "", "")
  }

  function CommaJoined(parts: seq<string>): string {
    if parts == [] then "" else if |parts| == 1 then parts[0] else parts[0] + ", " + CommaJoined(parts[1..])
  }

  /** The one-line form of an address: its parts that are not blank. */
  function FormatAddress(a: Address): string {
    CommaJoined(NonEmpty([a.street, a.pobox, a.apartment, a.floor, a.city, a.region, a.postal, a.country]))
  }

  lemma BlankIffPartsBlank(a: string, b: string)
    ensures TrimSpace(a + b) == "" <==> TrimSpace(a) == "" && TrimSpace(b) == ""
  {
    TrimSpaceEmpty(a + b);
    TrimSpaceEmpty(a);
    TrimSpaceEmpty(b);
    if TrimSpace(a + b) == "" {
      assert forall i :: 0 <= i < |a| ==> (a + b)[i] == a[i];
      assert forall i :: 0 <= i < |b| ==> (a + b)[|a| + i] == b[i];
    }
  }

  lemma StreetAlone(street: string)
    ensures TrimSpace(Join(NonEmpty([street, ""]), ' ')) == TrimSpace(street)
  {
    assert [street, ""][1..] == [""] && [""][1..] == [];
    TrimSpaceTrims(street);
  }

  /** What is left of an address: its street trimmed, its PO box, apartment and floor gone. */
  function Reduced(a: Address, kind: string): Address {
    a.(kind := kind, street := TrimSpace(a.street), pobox := "", apartment := "", floor := "")
  }

  predicate HasSubStreet(a: Address) {
    a.pobox != "" || a.apartment != "" || a.floor != ""
  }

  /** An address comes back reduced; an empty one stays empty. */
  lemma AddressRoundTrip(a: Address, kind: string)
    ensures AddressOf(AddressValue(a), kind) == Reduced(a, kind)
    ensures IsEmptyAddress(AddressOf(AddressValue(a), kind)) <==> IsEmptyAddress(a)
  {
    hide Components, Join, NonEmpty, TrimSpace, EscapeAll;
    ComponentsRoundTrip(["", "", a.street, a.city, a.region, a.postal, a.country]);
    StreetAlone(a.street);
    TrimSpaceTrims(a.street);
    TrimSpaceTrims(TrimSpace(a.street));
    var tail := a.city + a.region + a.postal + a.country;
    assert a.street + a.city + a.region + a.postal + a.country == a.street + tail;
    assert TrimSpace(a.street) + a.city + a.region + a.postal + a.country == TrimSpace(a.street) + tail;
    BlankIffPartsBlank(a.street, tail);
    BlankIffPartsBlank(TrimSpace(a.street), tail);
  }

  /** Only its street trimmed: that is how an address comes back exactly when its three sub-street parts are empty. */
  lemma AddressSurvivesExactly(a: Address)
    ensures AddressOf(AddressValue(a), a.kind) == a.(street := TrimSpace(a.street)) <==> !HasSubStreet(a)
  {
    AddressRoundTrip(a, a.kind);
  }

  // Organisation

  /** The ORG value: the organisation, and the department when there is one. */
  function OrgValue(organization: string, department: string): string {
    Join(EscapeAll(if department != "" then [organization, department] else [organization]), ';')
  }

  /** Organisation and department survive export and import up to surrounding white space. */
  lemma OrgRoundTrip(organization: string, department: string)
    ensures var c := Components(OrgValue(organization, department), "");
            && TrimSpace(Component(c, 0)) == TrimSpace(organization)
            && TrimSpace(Component(c, 1)) == TrimSpace(department)
    ensures OrgValue(organization, department) != "" <==> organization != "" || department != ""
  {
    hide Components, Join, EscapeAll, TrimSpace;
    var parts := if department != "" then [organization, department] else [organization];
    ComponentsRoundTrip(parts);
    assert OrgValue(organization, department) == Join(EscapeAll(parts), ';');
    assert Component(parts, 0) == organization;
    assert Component(parts, 1) == department;
    OrgIsThere(organization, department);
  }

  lemma OrgIsThere(organization: string, department: string)
    ensures OrgValue(organization, department) != "" <==> organization != "" || department != ""
  {
    hide EscapeComponent;
    EscapeIsCharwise(organization);
    if department == "" {
      assert EscapeAll([organization]) == [EscapeComponent(organization)];
    } else {
      var parts := EscapeAll([organization, department]);
      assert |parts| == 2;
    }
  }

  // Unescaped joins

  function Count(s: string, c: char): nat {
    if s == "" then 0 else (if s[0] == c then 1 else 0) + Count(s[1..], c)
  }

  lemma {:induction false} CountAppend(a: string, b: string, c: char)
    ensures Count(a + b, c) == Count(a, c) + Count(b, c)
  {
    if a == "" {
      assert a + b == b;
    } else {
      assert (a + b)[1..] == a[1..] + b;
      CountAppend(a[1..], b, c);
    }
  }

  lemma {:induction false} CountAbsent(s: string, c: char)
    requires c !in s
    ensures Count(s, c) == 0
  {
    if s != "" {
      assert s[0] in s;
      CountAbsent(s[1..], c);
    }
  }

  /** Splitting yields one part more than there are separators. */
  lemma {:induction false} SplitCounts(s: string, sep: char)
    ensures |Split(s, sep)| == Count(s, sep) + 1
    decreases |s|
  {
    match IndexOf(s, sep)
    case None => CountAbsent(s, sep);
    case Some(i) =>
      SplitCounts(s[i + 1..], sep);
      assert s == s[..i] + ([sep] + s[i + 1..]);
      CountAppend(s[..i], [sep] + s[i + 1..], sep);
      CountAbsent(s[..i], sep);
      assert ([sep] + s[i + 1..])[1..] == s[i + 1..];
  }

  lemma {:induction false} JoinCounts(parts: seq<string>, sep: char)
    requires parts != []
    ensures Count(Join(parts, sep), sep) >= |parts| - 1
  {
    if |parts| > 1 {
      var rest := Join(parts[1..], sep);
      assert Join(parts, sep) == parts[0] + ([sep] + rest);
      CountAppend(parts[0], [sep] + rest, sep);
      assert ([sep] + rest)[1..] == rest;
      JoinCounts(parts[1..], sep);
    }
  }

  lemma JoinSplitsLong(parts: seq<string>, sep: char)
    requires parts != []
    ensures |Split(Join(parts, sep), sep)| >= |parts|
  {
    SplitCounts(Join(parts, sep), sep);
    JoinCounts(parts, sep);
  }

  lemma BrokenPart(parts: seq<string>, sep: char)
    requires parts != [] && sep in parts[0]
    ensures Split(Join(parts, sep), sep)[0] != parts[0]
  {
    var s := Join(parts, sep);
    var i := IndexOf(parts[0], sep).value;
    var tail := parts[0][i + 1..] + s[|parts[0]|..];
    assert s == parts[0][..i] + [sep] + tail;
    FirstIndex(parts[0][..i], sep, tail);
  }

  lemma WholePart(parts: seq<string>, sep: char)
    requires |parts| > 1 && sep !in parts[0]
    ensures Split(Join(parts, sep), sep) == [parts[0]] + Split(Join(parts[1..], sep), sep)
  {
    var s, rest := Join(parts, sep), Join(parts[1..], sep);
    FirstIndex(parts[0], sep, rest);
    assert s[..|parts[0]|] == parts[0] && s[|parts[0]| + 1..] == rest;
  }

  /**
   * N and CATEGORIES are joined without escaping: the parts come back in their places exactly
   * when none of them holds the separator.
   */
  lemma {:induction false} UnescapedJoinExact(parts: seq<string>, sep: char)
    requires parts != []
    ensures |Split(Join(parts, sep), sep)| >= |parts|
    ensures Split(Join(parts, sep), sep)[..|parts|] == parts <==> forall p :: p in parts ==> sep !in p
  {
    hide Split, Join;
    JoinSplitsLong(parts, sep);
    if sep in parts[0] {
      BrokenPart(parts, sep);
    } else if |parts| == 1 {
      SplitJoin(parts, sep);
    } else {
      WholePart(parts, sep);
      UnescapedJoinExact(parts[1..], sep);
      ConsTakes(parts, Split(Join(parts[1..], sep), sep));
    }
  }

  lemma ConsTakes(parts: seq<string>, tail: seq<string>)
    requires |parts| > 1 && |tail| >= |parts| - 1
    ensures ([parts[0]] + tail)[..|parts|] == parts <==> tail[..|parts| - 1] == parts[1..]
  {
    assert ([parts[0]] + tail)[..|parts|] == [parts[0]] + tail[..|parts| - 1];
    assert parts == [parts[0]] + parts[1..];
    assert ([parts[0]] + tail[..|parts| - 1])[1..] == tail[..|parts| - 1];
  }
}
