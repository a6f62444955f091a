/** What stands on an exported card, and what an import makes of a card from elsewhere. */
module VCardWire {
  import opened Wrappers
  import opened Text
  import opened VCardText
  import opened VCardMapper
  import opened VCardRoundTrip
  import Decimal

  // Types

  /** A type with a label of its own is any but the eight standard ones; upper and lower case do not count. */
  lemma CustomTypeExactly(kind: string)
    ensures IsCustomType(kind)
            <==> Lower(TrimSpace(kind)) !in {"", "home", "work", "cell", "mobile", "fax", "voice", "pager", "other"}
  {
    hide Lower, TrimSpace;
  }

  /** Standard types are written in upper case; cell and mobile both as CELL and VOICE. */
  lemma TypeTokensExactly(kind: string)
    ensures var up := Upper(TrimSpace(kind));
            && (up == "" ==> TypeTokens(kind) == [])
            && (up == "CELL" || up == "MOBILE" ==> TypeTokens(kind) == ["CELL", "VOICE"])
            && (up != "" && up != "CELL" && up != "MOBILE" ==> TypeTokens(kind) == [up])
  {
  }

  /**
   * A field with a custom type opens the next group and labels it there; any other carries its tokens behind
   * those of its property.
   */
  lemma TypedFieldOnCard(d: Draft, name: Property, value: string, kind: string, base: seq<string>)
    requires name != Label
    ensures var d', tokens := TypedAdded(d, name, value, kind, base), base + TypeTokens(kind);
            var group := "item" + Decimal.Render(d.groups + 1);
            if Lower(TrimSpace(kind)) !in {"", "home", "work", "cell", "mobile", "fax", "voice", "pager", "other"} then
              && d'.groups == d.groups + 1
              && Fields(d'.card, name)
                 == Fields(d.card, name) + [Field(value, group, if base == [] then map[] else map[TypeParam := base])]
              && Fields(d'.card, Label) == Fields(d.card, Label) + [Field(TrimSpace(kind), group, map[])]
            else
              && d'.groups == d.groups && Fields(d'.card, Label) == Fields(d.card, Label)
              && Fields(d'.card, name)
                 == Fields(d.card, name) + [Field(value, "", if tokens == [] then map[] else map[TypeParam := tokens])]
  {
    hide TypedAdded, Lower, TrimSpace, TypeTokens, IsCustomType, Fields;
    CustomTypeExactly(kind);
    TypedAddedFields(d, name, value, kind, base);
  }

  /** Fields written behind earlier ones all carry the tokens of their property first. */
  lemma {:induction false} BaseIsOnEveryField(d: Draft, name: Property, entries: seq<Typed>, base: seq<string>)
    requires name != Label && base != []
    ensures var before, after := Fields(d.card, name), Fields(AllAdded(d, name, entries, base).card, name);
            && before <= after
            && forall i :: |before| <= i < |after| ==>
                 TypeParam in after[i].params && base <= after[i].params[TypeParam]
  {
    hide TypedAdded, Fields, TypeTokens, Lower, TrimSpace;
    if entries != [] {
      var n := |entries| - 1;
      BaseIsOnEveryField(d, name, entries[..n], base);
      if entries[n].value != "" {
        TypedFieldOnCard(AllAdded(d, name, entries[..n], base), name, entries[n].value, entries[n].kind, base);
      }
    }
  }

  lemma {:induction false} OthersAreLeft(d: Draft, name: Property, entries: seq<Typed>, base: seq<string>, p: Property)
    requires name != Label && p != name && p != Label
    ensures Fields(AllAdded(d, name, entries, base).card, p) == Fields(d.card, p)
  {
    hide TypedAdded, Fields;
    if entries != [] {
      var n := |entries| - 1;
      OthersAreLeft(d, name, entries[..n], base, p);
      if entries[n].value != "" {
        TypedAddedFields(AllAdded(d, name, entries[..n], base), name, entries[n].value, entries[n].kind, base);
      }
    }
  }

  lemma EmailsOfSection(c: Contact, header: Card)
    requires Fields(header, Email) == []
    ensures var fields := Fields(TypedSection(c, header).card, Email);
            forall i :: 0 <= i < |fields| ==>
              TypeParam in fields[i].params && ["INTERNET"] <= fields[i].params[TypeParam]
  {
    hide AllAdded, Fields, EffectiveEmails, EffectivePhones, EffectiveAddresses, AddressEntries;
    var d1 := AllAdded(Draft(header, 0), Email, EffectiveEmails(c), ["INTERNET"]);
    var d2 := AllAdded(d1, Telephone, EffectivePhones(c), []);
    var d3 := AllAdded(d2, Adr, AddressEntries(EffectiveAddresses(c)), []);
    BaseIsOnEveryField(Draft(header, 0), Email, EffectiveEmails(c), ["INTERNET"]);
    OthersAreLeft(d1, Telephone, EffectivePhones(c), [], Email);
    OthersAreLeft(d2, Adr, AddressEntries(EffectiveAddresses(c)), [], Email);
    OthersAreLeft(d3, Url, c.urls, [], Email);
  }

  /** Every email of an exported card is marked INTERNET before its type. */
  lemma EmailsAreInternet(c: Contact, newUid: string, extras: Card)
    ensures var fields := Fields(Exported(c, newUid, extras), Email);
            forall i :: 0 <= i < |fields| ==>
              TypeParam in fields[i].params && ["INTERNET"] <= fields[i].params[TypeParam]
  {
    hide *;
    var h := Header(c, newUid);
    ExportedFields(c, newUid, extras);
    EmailsOfBody(c, newUid);
    HeaderHasNoEmail(c, newUid);
    EmailsOfSection(c, h);
  }

  lemma HeaderHasNoEmail(c: Contact, newUid: string)
    ensures Fields(Header(c, newUid), Email) == []
  {
    hide Header, Fields;
    HeaderFields(c, newUid);
  }

  lemma EmailsOfBody(c: Contact, newUid: string)
    ensures Fields(Body(c, newUid), Email) == Fields(TypedSection(c, Header(c, newUid)).card, Email)
  {
    hide Body, TypedSection, Header, Trailer, Fields, HasTrailer, ReadOf;
    SectionFields(c, newUid);
    TrailerFields(TypedSection(c, Header(c, newUid)).card, c);
    BodyIs(c, newUid);
  }

  /** What a type comes back as. */
  lemma CanonicalExactly(kind: string)
    ensures var t := TrimSpace(kind);
            && (Lower(t) in {"", "home", "work", "cell", "fax", "pager", "other"} ==> Canonical(kind) == Lower(t))
            && (Lower(t) == "mobile" ==> Canonical(kind) == "cell")
            && (Lower(t) == "voice" ==> Canonical(kind) == "")
            && (IsCustomType(kind) && !Wrapped(t) ==> Canonical(kind) == t)
  {
    hide Lower, TrimSpace;
    CustomTypeIsNone();
  }

  lemma CustomTypeIsNone()
    ensures forall t :: t in {"home", "work", "cell", "mobile", "fax", "voice", "pager", "other"} <==> t in STANDARD
  {
  }

  /** Apple's wrapping is taken off a label, which is then in lower case, "mobile" again as "cell". */
  lemma WrappedLabel(inner: string)
    ensures NormalizeLabel("_$!<" + inner + ">!$_") == if Lower(inner) == "mobile" then "cell" else Lower(inner)
  {
    hide Lower;
    var tag := "_$!<" + inner + ">!$_";
    assert tag[4..|tag| - 4] == inner;
  }

  /** The first label of a field's group names its type, unless it is blank; then the TYPE parameter does. */
  lemma LabelBeforeType(labels: seq<Field>, l: Field, more: seq<Field>, f: Field)
    requires f.group != "" && Lower(l.group) == Lower(f.group)
    requires forall i :: 0 <= i < |labels| ==> Lower(labels[i].group) != Lower(f.group)
    ensures TypeForField(labels + ([l] + more), f)
            == if TrimSpace(l.value) != "" then NormalizeLabel(TrimSpace(l.value)) else TypeFromField(f)
  {
    hide TrimSpace, NormalizeLabel, TypeFromField;
    LookupAbsent(labels, f.group);
    LookupAppend(labels, [l] + more, f.group);
  }

  /** Of the TYPE tokens the first counts that is no marker; cell and mobile are one. */
  lemma FirstTypeCounts(token: string, rest: seq<string>)
    requires ',' !in token && Trimmed(token)
    ensures var u := Upper(token);
            && (u in {"", "INTERNET", "VOICE", "PREF"} ==> TypeOfParams([token] + rest) == TypeOfParams(rest))
            && (u in {"CELL", "MOBILE"} ==> TypeOfParams([token] + rest) == "cell")
            && (u !in {"", "INTERNET", "VOICE", "PREF", "CELL", "MOBILE"} ==> TypeOfParams([token] + rest) == Lower(u))
  {
    hide Upper, Lower, TypeOfParams, Trimmed;
    FirstTokenType(token, rest);
  }

  // Flat values

  /** A contact that has only the flat email, phone or address exports that one, as home, cell and home. */
  lemma FlatValuesAreExported(c: Contact, newUid: string, extras: Card)
    ensures var r := Imported(Exported(c, newUid, extras), BLANK);
            && (c.emails == [] && c.email != "" ==> r.emails == [Typed("home", c.email)] && r.email == c.email)
            && (c.phones == [] && c.phone != "" ==> r.phones == [Typed("cell", c.phone)] && r.phone == c.phone)
            && (c.addresses == [] && TrimSpace(c.address) != ""
                ==> r.addresses == [Address("home", TrimSpace(c.address), "", "", "", "", "", "", "")])
            && (c.emails == [] && c.email == "" ==> r.emails == [])
            && (c.phones == [] && c.phone == "" ==> r.phones == [])
            && (c.addresses == [] && c.address == "" ==> r.addresses == [])
            && (c.emails != [] ==> r.emails == CanonicalAll(c.emails))
            && (c.phones != [] ==> r.phones == CanonicalAll(c.phones))
            && (c.addresses != [] ==> r.addresses == CanonicalAddresses(c.addresses))
  {
    hide Imported, Exported, Canonical, CanonicalAll, CanonicalAddresses, WithValue, TrimSpace, FormatAddress;
    TypedValuesRoundTrip(c, newUid, extras);
    HomeAndCell();
    OneTyped(Typed("home", c.email));
    OneTyped(Typed("cell", c.phone));
    NothingTyped();
    TrimSpaceTrims("");
    var a := StreetOnly(c.address);
    OneAddress(a);
    assert a.street + a.city + a.region + a.postal + a.country == c.address;
  }

  lemma OneTyped(e: Typed)
    ensures e.value != "" ==> CanonicalAll([e]) == [Typed(Canonical(e.kind), e.value)]
  {
    assert [e][..0] == [] && CanonicalAll([]) == [];
  }

  lemma NothingTyped()
    ensures CanonicalAll([]) == [] && CanonicalAddresses([]) == []
  {
  }

  lemma HomeAndCell()
    ensures Canonical("home") == "home" && Canonical("cell") == "cell"
  {
    HomeStaysHome();
    hide TrimSpace;
    TrimSpaceTrims("cell");
    assert Lower("cell") == "cell";
  }

  // Structured values

  lemma PlainExactly(value: string)
    ensures Plain(value) == Field(value, "", map[])
  {
  }

  lemma {:induction false} JoinSemicolons(parts: seq<string>)
    requires parts != []
    ensures Join(parts, ';') == if |parts| == 1 then parts[0] else parts[0] + ";" + Join(parts[1..], ';')
  {
  }

  /** An address is written as seven components, PO box and extended address empty. */
  lemma AddressOnCard(a: Address)
    ensures AddressValue(a)
            == "" + ";" + ("" + ";" + (Escaped(a.street) + ";" + (Escaped(a.city) + ";" + (Escaped(a.region) + ";"
               + (Escaped(a.postal) + ";" + Escaped(a.country))))))
  {
    hide Escaped, EscapeComponent;
    var plain := ["", "", a.street, a.city, a.region, a.postal, a.country];
    var p := EscapeAll(plain);
    forall i | 0 <= i < 7 ensures p[i] == Escaped(plain[i]) {
      EscapeIsCharwise(plain[i]);
    }
    assert Escaped("") == "" by { EscapedNothing(); }
    assert p[1..][1..] == p[2..] && p[2..][1..] == p[3..] && p[3..][1..] == p[4..];
    assert p[4..][1..] == p[5..] && p[5..][1..] == p[6..];
    hide Join, EscapeAll;
    JoinSemicolons(p);
    JoinSemicolons(p[1..]);
    JoinSemicolons(p[2..]);
    JoinSemicolons(p[3..]);
    JoinSemicolons(p[4..]);
    JoinSemicolons(p[5..]);
    JoinSemicolons(p[6..]);
  }

  lemma EscapedNothing()
    ensures Escaped("") == ""
  {
  }

  /** Escaping puts a backslash before each backslash and semicolon, and changes nothing else. */
  lemma EscapedExactly(c: char, s: string)
    ensures Escaped([c] + s) == (if c == '\\' || c == ';' then ['\\', c] else [c]) + Escaped(s)
    ensures Escaped("") == ""
  {
    assert ([c] + s)[1..] == s;
  }

  /**
   * Seven components are read as an address: the street with the extended address behind it, then city,
   * region, postal code and country; a PO box is not taken over.
   */
  lemma AddressFromCard(parts: seq<string>, kind: string)
    requires |parts| == 7
    ensures var extended, street := parts[1], parts[2];
            AddressOf(Join(EscapeAll(parts), ';'), kind)
            == Address(kind,
                       TrimSpace(if TrimSpace(street) == "" then (if TrimSpace(extended) == "" then "" else extended)
                                 else if TrimSpace(extended) == "" then street else street + " " + extended),
                       parts[3], parts[4], parts[5], parts[6], "", "", "")
  {
    ComponentsRoundTrip(parts);
    StreetThenExtended(parts[2], parts[1]);
    hide Components, Join, EscapeAll, TrimSpace, NonEmpty;
  }

  lemma StreetThenExtended(street: string, extended: string)
    ensures Join(NonEmpty([street, extended]), ' ')
            == if TrimSpace(street) == "" then (if TrimSpace(extended) == "" then "" else extended)
               else if TrimSpace(extended) == "" then street else street + " " + extended
  {
    hide TrimSpace;
    assert [street, extended][1..] == [extended] && [extended][1..] == [];
    assert [street] + [extended] == [street, extended];
    assert NonEmpty([]) == [];
    assert NonEmpty([extended]) == if TrimSpace(extended) != "" then [extended] else [];
  }

  /** N is written as last, first and middle name, prefix and suffix, and read in that order. */
  lemma NameOnCard(c: Contact, newUid: string, extras: Card)
    requires newUid != ""
    ensures Fields(Exported(c, newUid, extras), Name)
            == [Plain(c.lastname + ";" + (c.firstname + ";" + (c.middleName + ";" + (c.prefix + ";" + c.suffix))))]
  {
    var p := [c.lastname, c.firstname, c.middleName, c.prefix, c.suffix];
    assert p[1..][1..] == p[2..] && p[2..][1..] == p[3..] && p[3..][1..] == p[4..];
    assert NameValue(c) == Join(p, ';');
    hide *;
    RequiredProperties(c, newUid, extras);
    JoinSemicolons(p);
    JoinSemicolons(p[1..]);
    JoinSemicolons(p[2..]);
    JoinSemicolons(p[3..]);
    JoinSemicolons(p[4..]);
  }

  /** FN is first and last name, trimmed; without either the nickname, without that "Unknown". */
  lemma FormattedNameExactly(c: Contact)
    ensures var both := TrimSpace(c.firstname + " " + c.lastname);
            && (both != "" ==> FullName(c) == both)
            && (both == "" && c.nickname != "" ==> FullName(c) == c.nickname)
            && (both == "" && c.nickname == "" ==> FullName(c) == "Unknown")
  {
    hide TrimSpace;
  }

  /** The organisation is the contact's, or else its work information; a department goes behind it. */
  lemma OrganizationOnCard(c: Contact, newUid: string, extras: Card)
    ensures var org := if c.organization != "" then c.organization else c.workInformation;
            Value(Exported(c, newUid, extras), Organization)
            == if c.department != "" then Escaped(org) + ";" + Escaped(c.department) else Escaped(org)
  {
    hide Exported, Body, Fields, Escaped, EscapeComponent, ImppFields, Join;
    ExportedFields(c, newUid, extras);
    BodyFields(c, newUid);
    var org := if c.organization != "" then c.organization else c.workInformation;
    OrgValueExactly(org, c.department);
    OrgIsThere(org, c.department);
    SameFieldsSameValue(Exported(c, newUid, extras), Body(c, newUid), Organization);
    if org == "" && c.department == "" {
      EscapedNothing();
    }
  }

  lemma SameFieldsSameValue(a: Card, b: Card, p: Property)
    requires Fields(a, p) == Fields(b, p)
    ensures Value(a, p) == Value(b, p)
  {
  }

  lemma OrgValueExactly(org: string, department: string)
    ensures OrgValue(org, department)
            == if department != "" then Escaped(org) + ";" + Escaped(department) else Escaped(org)
  {
    hide Escaped, EscapeComponent;
    EscapeIsCharwise(org);
    EscapeIsCharwise(department);
    assert EscapeAll([org]) == [Escaped(org)];
    assert EscapeAll([org, department]) == [Escaped(org), Escaped(department)];
    assert [Escaped(org), Escaped(department)][1..] == [Escaped(department)];
    hide EscapeAll, Join;
    JoinSemicolons([Escaped(org)]);
    JoinSemicolons([Escaped(department)]);
    JoinSemicolons([Escaped(org), Escaped(department)]);
  }

  /** The single values that are written as they are, circles joined at commas, and each handle with its service. */
  lemma PlainValuesOnCard(c: Contact, newUid: string, extras: Card)
    ensures var card := Exported(c, newUid, extras);
            && Value(card, Uid) == (if c.uid != "" then c.uid else newUid) && Value(card, Nickname) == c.nickname
            && Value(card, Birthday) == c.birthday && Value(card, Anniversary) == c.anniversary
            && Value(card, Title) == c.jobTitle && Value(card, Role) == c.role
            && Fields(card, Categories) == (if c.circles != [] then [Plain(Join(c.circles, ','))] else [])
            && |Fields(card, Impp)| == |WithValue(c.impps)|
            && (forall i :: 0 <= i < |WithValue(c.impps)| ==>
                  Fields(card, Impp)[i]
                  == Field(WithValue(c.impps)[i].value, "",
                           if WithValue(c.impps)[i].kind != "" then map[ServiceParam := [WithValue(c.impps)[i].kind]]
                           else map[]))
  {
    hide Exported, Body, Fields, Join, ImppFields, OrgValue, EffectiveOrganization, WithValue;
    ExportedFields(c, newUid, extras);
    BodyFields(c, newUid);
    var card, body := Exported(c, newUid, extras), Body(c, newUid);
    forall p: Property | !p.Unmapped? ensures Value(card, p) == Value(body, p) {
      SameFieldsSameValue(card, body, p);
    }
    HandlesOnCard(c.impps);
  }

  lemma {:induction false} HandlesOnCard(impps: seq<Typed>)
    ensures var fields, with := ImppFields(impps), WithValue(impps);
            && |fields| == |with|
            && forall i :: 0 <= i < |with| ==>
                 fields[i] == Field(with[i].value, "",
                                    if with[i].kind != "" then map[ServiceParam := [with[i].kind]] else map[])
  {
    if impps != [] {
      HandlesOnCard(impps[..|impps| - 1]);
    }
  }

  /** The entries with a value, in order. */
  lemma WithValueExactly(entries: seq<Typed>, last: Typed)
    ensures WithValue([]) == []
    ensures WithValue(entries + [last]) == WithValue(entries) + if last.value != "" then [last] else []
  {
    assert (entries + [last])[..|entries|] == entries;
  }

  // Reading cards from elsewhere

  /** A date of eight digits gets its dashes, as does one without a year; other values stay as they are. */
  lemma BirthdayExactly(b: string)
    ensures |b| == 8 && b[0] != '-'
            ==> NormalizeBirthday(b) == [b[0], b[1], b[2], b[3], '-', b[4], b[5], '-', b[6], b[7]]
    ensures |b| == 6 && b[0] == '-' && b[1] == '-' ==> NormalizeBirthday(b) == ['-', '-', b[2], b[3], '-', b[4], b[5]]
    ensures !(|b| == 8 && b[0] != '-') && !(|b| == 6 && b[0] == '-' && b[1] == '-') ==> NormalizeBirthday(b) == b
  {
  }

  /** The five letters of GENDER, in upper or lower case. */
  lemma GenderExactly(g: string)
    ensures GenderOf(g) == if g in {"M", "m"} then "male" else if g in {"F", "f"} then "female"
                           else if g in {"O", "o"} then "other"
                           else if g in {"N", "n", "U", "u"} then "prefer_not_to_say" else ""
  {
    if |g| == 1 {
      assert g == [g[0]] && Upper(g) == [UpperChar(g[0])];
    }
  }

  /** Without N the formatted name is split at its first space; a single word is a first name. */
  lemma FormattedNameIsSplit(card: Card, c: Contact, first: string, last: string)
    requires Fields(card, Name) == [] && ' ' !in first
    ensures Value(card, FormattedName) == first + " " + last
            ==> Imported(card, c).firstname == first && Imported(card, c).lastname == last
    ensures Value(card, FormattedName) == first && first != ""
            ==> Imported(card, c).firstname == first && Imported(card, c).lastname == c.lastname
  {
    hide Fields, Value, Components, NormalizeBirthday, NameParts, OrKeep, TrimSpace, GenderOf, TrimAll, Read,
         ReadAddresses, ReadImpps, FirstValue, FirstLine, Component;
    FirstIndex(first, ' ', last);
    var fn := first + " " + last;
    assert fn[..|first|] == first && fn[|first| + 1..] == last;
  }

  /**
   * What a card says replaces what the contact had, and what it does not say stays; a department stays when
   * the organisation comes without one.
   */
  lemma ImportReplaces(card: Card, c: Contact)
    ensures var r, org := Imported(card, c), Components(Value(card, Organization), "");
            && |org| >= 1
            && r.uid == (if Value(card, Uid) != "" then Value(card, Uid) else c.uid)
            && r.nickname == (if Value(card, Nickname) != "" then Value(card, Nickname) else c.nickname)
            && r.jobTitle == (if Value(card, Title) != "" then Value(card, Title) else c.jobTitle)
            && r.role == (if Value(card, Role) != "" then Value(card, Role) else c.role)
            && r.birthday == (if NormalizeBirthday(Value(card, Birthday)) != ""
                              then NormalizeBirthday(Value(card, Birthday)) else c.birthday)
            && r.anniversary == (if NormalizeBirthday(Value(card, Anniversary)) != ""
                                 then NormalizeBirthday(Value(card, Anniversary)) else c.anniversary)
            && r.organization == (if Value(card, Organization) != "" then TrimSpace(org[0]) else c.organization)
            && r.department == (if Value(card, Organization) != "" && |org| > 1 && TrimSpace(org[1]) != ""
                                then TrimSpace(org[1]) else c.department)
            && r.workInformation == c.workInformation
            && r.gender == (if Value(card, Gender) != "" then GenderOf(Value(card, Gender)) else c.gender)
            && r.circles == (if Value(card, Categories) != "" then TrimAll(Split(Value(card, Categories), ','))
                             else c.circles)
  {
    hide WithLists, WithScalars, Components, TrimSpace, GenderOf, TrimAll, Fields, Value, Split, NormalizeBirthday;
    ListsKeepScalars(card, c);
    ScalarsExactly(card, WithLists(card, c));
  }

  lemma NamedKeeps(card: Card, c: Contact)
    ensures var n := Named(card, c);
            n == c.(lastname := n.lastname, firstname := n.firstname, middleName := n.middleName, prefix := n.prefix,
                    suffix := n.suffix)
  {
    hide NameParts, Value, Fields;
  }

  lemma ScalarsExactly(card: Card, c: Contact)
    ensures var r, org := WithScalars(card, c), Components(Value(card, Organization), "");
            && |org| >= 1
            && r.uid == (if Value(card, Uid) != "" then Value(card, Uid) else c.uid)
            && r.nickname == (if Value(card, Nickname) != "" then Value(card, Nickname) else c.nickname)
            && r.jobTitle == (if Value(card, Title) != "" then Value(card, Title) else c.jobTitle)
            && r.role == (if Value(card, Role) != "" then Value(card, Role) else c.role)
            && r.birthday == (if NormalizeBirthday(Value(card, Birthday)) != ""
                              then NormalizeBirthday(Value(card, Birthday)) else c.birthday)
            && r.anniversary == (if NormalizeBirthday(Value(card, Anniversary)) != ""
                                 then NormalizeBirthday(Value(card, Anniversary)) else c.anniversary)
            && r.organization == (if Value(card, Organization) != "" then TrimSpace(org[0]) else c.organization)
            && r.department == (if Value(card, Organization) != "" && |org| > 1 && TrimSpace(org[1]) != ""
                                then TrimSpace(org[1]) else c.department)
            && r.workInformation == c.workInformation && r.gender == c.gender && r.circles == c.circles
  {
    ComponentsAreThere(Value(card, Organization), "");
    OrgOfImport(Components(Value(card, Organization), ""));
    NamedKeeps(card, c);
    hide Named, Components, TrimSpace, Fields, Value, NormalizeBirthday, Component;
  }

  lemma {:induction false} ComponentsAreThere(s: string, current: string)
    ensures |Components(s, current)| >= 1
    decreases |s|
  {
    if s != "" {
      if s[0] == '\\' && |s| > 1 {
        ComponentsAreThere(s[2..], current + [s[1]]);
      } else if s[0] != ';' {
        ComponentsAreThere(s[1..], current + [s[0]]);
      }
    }
  }

  lemma OrgOfImport(org: seq<string>)
    requires |org| >= 1
    ensures Component(org, 0) == org[0]
    ensures TrimSpace(Component(org, 1)) == if |org| > 1 then TrimSpace(org[1]) else ""
  {
    TrimSpaceTrims("");
  }

  lemma ListsKeepScalars(card: Card, c: Contact)
    ensures var w := WithLists(card, c);
            && w.uid == c.uid && w.nickname == c.nickname && w.birthday == c.birthday
            && w.anniversary == c.anniversary && w.organization == c.organization && w.department == c.department
            && w.jobTitle == c.jobTitle && w.role == c.role && w.gender == c.gender && w.circles == c.circles
            && w.workInformation == c.workInformation
  {
    hide Read, ReadAddresses, ReadImpps, Fields, FirstValue, FirstLine;
  }

  /** A new contact is blank in all columns a card does not fill. */
  lemma NewContactIsBlank()
    ensures Imported(map[], BLANK)
            == Contact("", "", "", "", "", "", "", "", "", "", "", [], [], [], [], [], "", "", [], "", "", "", "", "")
  {
    var none: Card := map[];
    SilentCardChangesNothing(none, BLANK);
  }

  /** A list a card has replaces the contact's, and its first value the flat one; a list it has not stays. */
  lemma ListsReplace(card: Card, c: Contact)
    ensures var r, labels := Imported(card, c), Fields(card, Label);
            && r.emails == (if Fields(card, Email) != [] then Read(labels, Fields(card, Email)) else c.emails)
            && r.phones == (if Fields(card, Telephone) != [] then Read(labels, Fields(card, Telephone)) else c.phones)
            && r.addresses == (if Fields(card, Adr) != [] then ReadAddresses(labels, Fields(card, Adr))
                               else c.addresses)
            && r.urls == (if Fields(card, Url) != [] then Read(labels, Fields(card, Url)) else c.urls)
            && r.impps == (if Fields(card, Impp) != [] then ReadImpps(Fields(card, Impp)) else c.impps)
            && r.email == (if Fields(card, Email) != [] && r.emails != [] then r.emails[0].value else c.email)
            && r.phone == (if Fields(card, Telephone) != [] && r.phones != [] then r.phones[0].value else c.phone)
            && r.address == (if Fields(card, Adr) != [] && r.addresses != [] then FormatAddress(r.addresses[0])
                             else c.address)
  {
    hide Read, ReadAddresses, ReadImpps, Fields, Value, GenderOf, TrimAll, WithScalars, FormatAddress;
    ScalarsKeepLists(card, WithLists(card, c));
  }

  /** The unmapped properties of a card are kept instead of the earlier ones, when there are any. */
  lemma ExtrasExactly(card: Card, existing: Card)
    ensures forall p :: p in UnmappedOf(card) <==> p.Unmapped? && Fields(card, p) != []
    ensures forall p :: p in UnmappedOf(card) ==> UnmappedOf(card)[p] == card[p]
    ensures (exists p :: p in UnmappedOf(card)) ==> ExtrasAfter(card, existing) == UnmappedOf(card)
    ensures (forall p :: p !in UnmappedOf(card)) ==> ExtrasAfter(card, existing) == existing
  {
    assert (forall p :: p !in UnmappedOf(card)) ==> UnmappedOf(card) == map[];
  }

  /** An address on one line: its parts that are not blank, in order, with commas between. */
  lemma OneLineExactly(a: Address)
    ensures FormatAddress(a)
            == CommaJoined(Shown(a.street) + (Shown(a.pobox) + (Shown(a.apartment) + (Shown(a.floor) + (Shown(a.city)
                           + (Shown(a.region) + (Shown(a.postal) + Shown(a.country))))))))
  {
    hide CommaJoined, Shown;
    var v := [a.street, a.pobox, a.apartment, a.floor, a.city, a.region, a.postal, a.country];
    assert v[1..][1..] == v[2..] && v[2..][1..] == v[3..] && v[3..][1..] == v[4..] && v[4..][1..] == v[5..];
    assert v[5..][1..] == v[6..] && v[6..][1..] == v[7..] && v[7..][1..] == [];
    hide NonEmpty;
    NonEmptyStep(v);
    NonEmptyStep(v[1..]);
    NonEmptyStep(v[2..]);
    NonEmptyStep(v[3..]);
    NonEmptyStep(v[4..]);
    NonEmptyStep(v[5..]);
    NonEmptyStep(v[6..]);
    NonEmptyStep(v[7..]);
    NonEmptyNone();
    assert Shown(v[7]) + [] == Shown(v[7]);
  }

  function Shown(part: string): seq<string> {
    if TrimSpace(part) == "" then [] else [part]
  }

  lemma NonEmptyStep(v: seq<string>)
    requires v != []
    ensures NonEmpty(v) == Shown(v[0]) + NonEmpty(v[1..])
  {
  }

  lemma NonEmptyNone()
    ensures NonEmpty([]) == []
  {
  }

  lemma CommasBetween(first: string, rest: seq<string>)
    ensures CommaJoined([]) == "" && CommaJoined([first]) == first
    ensures rest != [] ==> CommaJoined([first] + rest) == first + ", " + CommaJoined(rest)
  {
    assert ([first] + rest)[1..] == rest;
  }
}
