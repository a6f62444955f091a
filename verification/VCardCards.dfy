/** The mapper as it runs: a card filled property by property, and a contact updated from a card. */
module VCardCards {
  import opened Wrappers
  import opened Text
  import opened VCardText
  import opened VCardMapper
  import opened VCardRoundTrip

  /** A card under construction and the counter its group names come from. */
  class CardWriter {
    var card: Card
    var groups: nat

    constructor ()
      ensures card == map[] && groups == 0
    {
      card, groups := map[], 0;
    }

    function State(): Draft
      reads this
    {
      Draft(card, groups)
    }

    method SetValue(name: Property, value: string)
      modifies this
      ensures card == old(card)[name := [Plain(value)]] && groups == old(groups)
    {
      card := card[name := [Plain(value)]];
    }

    method Add(name: Property, f: Field)
      modifies this
      ensures card == Added(old(card), name, f) && groups == old(groups)
    {
      card := card[name := Fields(card, name) + [f]];
    }

    method NextGroup() returns (group: string)
      modifies this
      ensures groups == old(groups) + 1 && card == old(card) && group == GroupName(groups)
    {
      groups := groups + 1;
      group := GroupName(groups);
    }

    /** One field: a custom label gets a group of its own and a label field, a standard type a TYPE parameter. */
    method AddTypedField(name: Property, value: string, kind: string, base: seq<string>)
      modifies this
      ensures State() == TypedAdded(old(State()), name, value, kind, base)
    {
      if IsCustomType(kind) {
        var group := NextGroup();
        Add(name, Field(value, group, TypeParams(base)));
        Add(Label, Field(TrimSpace(kind), group, map[]));
      } else {
        Add(name, Field(value, "", TypeParams(base + TypeTokens(kind))));
      }
    }

    method AddEntries(name: Property, entries: seq<Typed>, base: seq<string>)
      modifies this
      ensures State() == AllAdded(old(State()), name, entries, base)
    {
      for i := 0 to |entries|
        invariant State() == AllAdded(old(State()), name, entries[..i], base)
      {
        assert entries[..i + 1][..i] == entries[..i];
        if entries[i].value != "" {
          AddTypedField(name, entries[i].value, entries[i].kind, base);
        }
      }
      assert entries[..|entries|] == entries;
    }

    /** Each non-empty address, its components escaped one by one before they are joined. */
    method AddAddresses(addresses: seq<Address>)
      modifies this
      ensures State() == AllAdded(old(State()), Adr, AddressEntries(addresses), [])
    {
      hide TypedAdded, Join, EscapeAll, IsEmptyAddress;
      ghost var entries := AddressEntries(addresses);
      for i := 0 to |addresses|
        invariant State() == AllAdded(old(State()), Adr, entries[..i], [])
      {
        var a := addresses[i];
        assert entries[..i + 1][..i] == entries[..i] && entries[i] == AddressEntry(a);
        if !IsEmptyAddress(a) {
          var parts := EscapeParts(["", "", a.street, a.city, a.region, a.postal, a.country]);
          AddressHasValue(a);
          AddTypedField(Adr, Join(parts, ';'), a.kind, []);
        }
      }
      assert entries[..|addresses|] == entries;
    }

    method AddImpps(impps: seq<Typed>)
      requires Fields(card, Impp) == []
      modifies this
      ensures groups == old(groups)
      ensures card == if ImppFields(impps) != [] then old(card)[Impp := ImppFields(impps)] else old(card)
    {
      for i := 0 to |impps|
        invariant groups == old(groups)
        invariant card == if ImppFields(impps[..i]) != [] then old(card)[Impp := ImppFields(impps[..i])] else old(card)
      {
        assert impps[..i + 1][..i] == impps[..i];
        if impps[i].value != "" {
          Add(Impp, ImppField(impps[i]));
        }
      }
      assert impps[..|impps|] == impps;
    }

    /** Kept fields go behind the ones already there. */
    method AddKept(name: Property, kept: seq<Field>)
      modifies this
      ensures card == Extended(old(card), name, kept) && groups == old(groups)
    {
      for i := 0 to |kept|
        invariant card == Extended(old(card), name, kept[..i]) && groups == old(groups)
      {
        assert kept[..i + 1] == kept[..i] + [kept[i]];
        assert Fields(old(card), name) + kept[..i] + [kept[i]] == Fields(old(card), name) + kept[..i + 1];
        assert i == 0 ==> Fields(old(card), name) + kept[..i] == Fields(old(card), name);
        Add(name, kept[i]);
        PutTwice(old(card), name, Fields(old(card), name) + kept[..i], Fields(old(card), name) + kept[..i + 1]);
      }
      assert kept[..|kept|] == kept;
    }

    /** The unmapped properties of earlier imports, in whatever order the map yields them. */
    method Restore(extras: Card)
      modifies this
      ensures card == Restored(old(card), extras) && groups == old(groups)
    {
      hide Extended, Restored;
      var todo := extras.Keys;
      RestoredNone(card, extras);
      while todo != {}
        invariant todo <= extras.Keys && groups == old(groups)
        invariant card == RestoredPart(old(card), extras, extras.Keys - todo)
        decreases |todo|
      {
        hide RestoredPart;
        var name :| name in todo;
        RestoredStep(old(card), extras, extras.Keys - todo, name);
        assert extras.Keys - (todo - {name}) == extras.Keys - todo + {name};
        if name.Unmapped? {
          AddKept(name, extras[name]);
        }
        todo := todo - {name};
      }
      RestoredWhole(old(card), extras);
      assert extras.Keys - todo == extras.Keys;
    }

    /** The whole card, in the order of the vCard's sections. */
    method Write(c: Contact, newUid: string, extras: Card)
      requires card == map[] && groups == 0
      modifies this
      ensures card == Exported(c, newUid, extras)
    {
      hide AllAdded, ImppFields, Restored, AddressEntries;
      SetValue(Version, "3.0");
      SetValue(Uid, if c.uid != "" then c.uid else newUid);
      var fn := TrimSpace(c.firstname + " " + c.lastname);
      if fn == "" {
        fn := c.nickname;
      }
      if fn == "" {
        fn := "Unknown";
      }
      SetValue(FormattedName, fn);
      SetValue(Name, Join([c.lastname, c.firstname, c.middleName, c.prefix, c.suffix], ';'));
      if c.nickname != "" {
        SetValue(Nickname, c.nickname);
      }
      assert State() == Draft(Header(c, newUid), 0);
      WriteTyped(c);
      SectionFields(c, newUid);
      assert InTrailer(Impp);
      WritePersonal(c);
      WriteWork(c);
      Restore(extras);
    }

    method WriteTyped(c: Contact)
      requires groups == 0
      modifies this
      ensures card == TypedSection(c, old(card)).card
    {
      hide AllAdded, Fields;
      var emails := c.emails;
      if emails == [] && c.email != "" {
        emails := [Typed("home", c.email)];
      }
      AddEntries(Email, emails, ["INTERNET"]);
      var phones := c.phones;
      if phones == [] && c.phone != "" {
        phones := [Typed("cell", c.phone)];
      }
      AddEntries(Telephone, phones, []);
      var addresses := c.addresses;
      if addresses == [] && c.address != "" {
        addresses := [StreetOnly(c.address)];
      }
      AddAddresses(addresses);
      AddEntries(Url, c.urls, []);
    }

    method WritePersonal(c: Contact)
      requires Fields(card, Impp) == []
      modifies this
      ensures card == PersonalAdded(old(card), c)
    {
      hide ImppFields, Join, Fields;
      AddImpps(c.impps);
      if c.birthday != "" {
        SetValue(Birthday, c.birthday);
      }
      if c.anniversary != "" {
        SetValue(Anniversary, c.anniversary);
      }
      if c.circles != [] {
        SetValue(Categories, Join(c.circles, ','));
      }
    }

    method WriteWork(c: Contact)
      modifies this
      ensures card == WorkAdded(old(card), c)
    {
      hide Join, EscapeAll;
      var org := c.organization;
      if org == "" {
        org := c.workInformation;
      }
      if org != "" || c.department != "" {
        var parts := [org];
        if c.department != "" {
          parts := parts + [c.department];
        }
        assert parts == if c.department != "" then [org, c.department] else [org];
        var escaped := EscapeParts(parts);
        SetValue(Organization, Join(escaped, ';'));
      }
      if c.jobTitle != "" {
        SetValue(Title, c.jobTitle);
      }
      if c.role != "" {
        SetValue(Role, c.role);
      }
    }
  }

  lemma PutTwice(card: Card, name: Property, first: seq<Field>, second: seq<Field>)
    ensures card[name := first][name := second] == card[name := second]
  {
  }

  function Extended(card: Card, name: Property, kept: seq<Field>): Card {
    if kept != [] then card[name := Fields(card, name) + kept] else card
  }

  /** The card with the unmapped properties of `done` put back. */
  ghost function RestoredPart(card: Card, extras: Card, done: set<Property>): Card {
    card + map name | name in extras && name in done && name.Unmapped? && extras[name] != [] ::
             Fields(card, name) + extras[name]
  }

  lemma RestoredNone(card: Card, extras: Card)
    ensures RestoredPart(card, extras, extras.Keys - extras.Keys) == card
  {
  }

  lemma RestoredWhole(card: Card, extras: Card)
    ensures RestoredPart(card, extras, extras.Keys) == Restored(card, extras)
  {
  }

  lemma RestoredStep(card: Card, extras: Card, done: set<Property>, name: Property)
    requires name in extras && name !in done
    ensures RestoredPart(card, extras, done + {name})
            == if name.Unmapped? then Extended(RestoredPart(card, extras, done), name, extras[name])
               else RestoredPart(card, extras, done)
  {
  }

  /** `escapeComponent` over every component. */
  method EscapeParts(parts: seq<string>) returns (escaped: seq<string>)
    ensures escaped == EscapeAll(parts)
  {
    escaped := [];
    for i := 0 to |parts|
      invariant |escaped| == i && forall k :: 0 <= k < i ==> escaped[k] == EscapeComponent(parts[k])
    {
      escaped := escaped + [EscapeComponent(parts[i])];
    }
  }

  /** The label of a group, looked for among the label fields in order. */
  method LabelFromGroup(labels: seq<Field>, group: string) returns (tag: Option<string>)
    ensures tag == Lookup(labels, group)
  {
    for i := 0 to |labels|
      invariant Lookup(labels, group) == Lookup(labels[i..], group)
    {
      assert labels[i..][0] == labels[i] && labels[i..][1..] == labels[i + 1..];
      if EqualFold(labels[i].group, group) {
        return Some(labels[i].value);
      }
    }
    return None;
  }

  /** `typeFromField`: over every TYPE value and every comma-separated token in it. */
  method FieldType(f: Field) returns (kind: string)
    ensures kind == TypeFromField(f)
  {
    hide Split, Upper, Lower, TrimSpace;
    var raws := if TypeParam in f.params then f.params[TypeParam] else [];
    for i := 0 to |raws|
      invariant TypeOfParams(raws) == TypeOfParams(raws[i..])
    {
      assert raws[i..][0] == raws[i] && raws[i..][1..] == raws[i + 1..];
      var tokens := Split(raws[i], ',');
      for j := 0 to |tokens|
        invariant TypeOfTokens(tokens) == TypeOfTokens(tokens[j..])
      {
        assert tokens[j..][0] == tokens[j] && tokens[j..][1..] == tokens[j + 1..];
        var u := Upper(TrimSpace(tokens[j]));
        if u == "" || u == "INTERNET" || u == "VOICE" || u == "PREF" {
          continue;
        }
        return if u == "CELL" || u == "MOBILE" then "cell" else Lower(u);
      }
    }
    return "";
  }

  method FieldKind(labels: seq<Field>, f: Field) returns (kind: string)
    ensures kind == TypeForField(labels, f)
  {
    if f.group != "" {
      var tag := LabelFromGroup(labels, f.group);
      if tag.Some? && TrimSpace(tag.value) != "" {
        return NormalizeLabel(TrimSpace(tag.value));
      }
    }
    kind := FieldType(f);
  }

  method ReadEntries(labels: seq<Field>, fields: seq<Field>) returns (entries: seq<Typed>)
    ensures entries == Read(labels, fields)
  {
    hide TypeForField;
    entries := [];
    for i := 0 to |fields|
      invariant entries == Read(labels, fields[..i])
    {
      assert fields[..i + 1][..i] == fields[..i];
      if fields[i].value != "" {
        var kind := FieldKind(labels, fields[i]);
        entries := entries + [Typed(kind, fields[i].value)];
      }
    }
    assert fields[..|fields|] == fields;
  }

  /** Street and extended address share a line; POBox is ignored. */
  method ReadAddressFields(labels: seq<Field>, fields: seq<Field>) returns (addresses: seq<Address>)
    ensures addresses == ReadAddresses(labels, fields)
  {
    hide TypeForField, Components, IsEmptyAddress, Join, NonEmpty, TrimSpace, Component;
    addresses := [];
    for i := 0 to |fields|
      invariant addresses == ReadAddresses(labels, fields[..i])
    {
      assert fields[..i + 1][..i] == fields[..i];
      var parts := SplitComponents(fields[i].value);
      var kind := FieldKind(labels, fields[i]);
      var a := Address(kind, TrimSpace(Join(NonEmpty([Component(parts, 2), Component(parts, 1)]), ' ')),
                       Component(parts, 3), Component(parts, 4), Component(parts, 5), Component(parts, 6), "", "", "");
      if !IsEmptyAddress(a) {
        addresses := addresses + [a];
      }
    }
    assert fields[..|fields|] == fields;
  }

  method ReadImppFields(fields: seq<Field>) returns (impps: seq<Typed>)
    ensures impps == ReadImpps(fields)
  {
    hide TypeFromField;
    impps := [];
    for i := 0 to |fields|
      invariant impps == ReadImpps(fields[..i])
    {
      assert fields[..i + 1][..i] == fields[..i];
      var f := fields[i];
      if f.value != "" {
        var named := ServiceParam in f.params && f.params[ServiceParam] != [];
        var service := if named then f.params[ServiceParam][0] else "";
        if service == "" {
          service := FieldType(f);
        }
        impps := impps + [Typed(service, f.value)];
      }
    }
    assert fields[..|fields|] == fields;
  }

  lemma NamedKeepsTheRest(card: Card, c: Contact)
    ensures Named(card, c) == c.(lastname := Named(card, c).lastname, firstname := Named(card, c).firstname,
                                 middleName := Named(card, c).middleName, prefix := Named(card, c).prefix,
                                 suffix := Named(card, c).suffix)
  {
    hide NameParts, Fields, Value;
  }

  lemma NormalizedIsThere(b: string)
    ensures NormalizeBirthday(b) == "" <==> b == ""
  {
  }

  /** A contact record that imports update in place. */
  class ContactRecord {
    var contact: Contact
    var extras: Card

    constructor (existing: Contact, kept: Card)
      ensures contact == existing && extras == kept
    {
      contact, extras := existing, kept;
    }

    method UpdateMailAndPhone(card: Card)
      modifies this`contact
      ensures var c, labels := old(contact), Fields(card, Label);
              var emails := if Fields(card, Email) != [] then Read(labels, Fields(card, Email)) else c.emails;
              var phones := if Fields(card, Telephone) != [] then Read(labels, Fields(card, Telephone)) else c.phones;
              contact == c.(emails := emails, phones := phones,
                            email := if Fields(card, Email) != [] then FirstValue(emails, c.email) else c.email,
                            phone := if Fields(card, Telephone) != [] then FirstValue(phones, c.phone) else c.phone)
    {
      hide Read, Fields;
      var labels := Fields(card, Label);
      if Fields(card, Email) != [] {
        var emails := ReadEntries(labels, Fields(card, Email));
        contact := contact.(emails := emails);
        if emails != [] {
          contact := contact.(email := emails[0].value);
        }
      }
      if Fields(card, Telephone) != [] {
        var phones := ReadEntries(labels, Fields(card, Telephone));
        contact := contact.(phones := phones);
        if phones != [] {
          contact := contact.(phone := phones[0].value);
        }
      }
    }

    method UpdateLists(card: Card)
      modifies this`contact
      ensures contact == WithLists(card, old(contact))
    {
      hide Read, ReadAddresses, ReadImpps, Fields, FirstValue, FormatAddress;
      var labels := Fields(card, Label);
      UpdateMailAndPhone(card);
      if Fields(card, Adr) != [] {
        var addresses := ReadAddressFields(labels, Fields(card, Adr));
        contact := contact.(addresses := addresses);
        if addresses != [] {
          contact := contact.(address := FormatAddress(addresses[0]));
        }
      }
      if Fields(card, Url) != [] {
        var urls := ReadEntries(labels, Fields(card, Url));
        contact := contact.(urls := urls);
      }
      if Fields(card, Impp) != [] {
        var impps := ReadImppFields(Fields(card, Impp));
        contact := contact.(impps := impps);
      }
    }

    method UpdateName(card: Card)
      modifies this`contact
      ensures contact == Named(card, old(contact))
    {
      hide Fields, Value, Component, Split;
      var fn := Value(card, FormattedName);
      if Fields(card, Name) != [] {
        var n := NameParts(card);
        contact := contact.(lastname := n[0], firstname := n[1], middleName := n[2], prefix := n[3], suffix := n[4]);
      } else if fn != "" {
        match IndexOf(fn, ' ') {
          case None => contact := contact.(firstname := fn);
          case Some(i) => contact := contact.(firstname := fn[..i], lastname := fn[i + 1..]);
        }
      }
    }

    method UpdateScalars(card: Card)
      modifies this`contact
      ensures contact == WithScalars(card, old(contact))
    {
      hide Fields, Value, Named, TrimSpace, NormalizeBirthday, Component, Components;
      NormalizedIsThere(Value(card, Birthday));
      NormalizedIsThere(Value(card, Anniversary));
      NamedKeepsTheRest(card, contact);
      UpdateName(card);
      if Value(card, Uid) != "" {
        contact := contact.(uid := Value(card, Uid));
      }
      if Value(card, Nickname) != "" {
        contact := contact.(nickname := Value(card, Nickname));
      }
      if Value(card, Birthday) != "" {
        contact := contact.(birthday := NormalizeBirthday(Value(card, Birthday)));
      }
      UpdateWork(card);
      if Value(card, Anniversary) != "" {
        contact := contact.(anniversary := NormalizeBirthday(Value(card, Anniversary)));
      }
    }

    method UpdateWork(card: Card)
      modifies this`contact
      ensures var c, org := old(contact), Components(Value(card, Organization), "");
              var has := Value(card, Organization) != "";
              contact == c.(
                organization := if has then TrimSpace(Component(org, 0)) else c.organization,
                department := if has then OrKeep(TrimSpace(Component(org, 1)), c.department) else c.department,
                jobTitle := OrKeep(Value(card, Title), c.jobTitle),
                role := OrKeep(Value(card, Role), c.role))
    {
      hide Value, TrimSpace, Component, Components;
      if Value(card, Organization) != "" {
        var parts := SplitComponents(Value(card, Organization));
        contact := contact.(organization := TrimSpace(Component(parts, 0)));
        var department := TrimSpace(Component(parts, 1));
        if department != "" {
          contact := contact.(department := department);
        }
      }
      if Value(card, Title) != "" {
        contact := contact.(jobTitle := Value(card, Title));
      }
      if Value(card, Role) != "" {
        contact := contact.(role := Value(card, Role));
      }
    }

    /** What the card says replaces what the contact had; what it leaves out stays. */
    method Import(card: Card)
      modifies this
      ensures contact == Imported(card, old(contact))
      ensures extras == ExtrasAfter(card, old(extras))
    {
      hide Value, WithLists, WithScalars, GenderOf, TrimAll, Split;
      UpdateLists(card);
      UpdateScalars(card);
      if Value(card, Gender) != "" {
        contact := contact.(gender := GenderOf(Value(card, Gender)));
      }
      if Value(card, Categories) != "" {
        var circles := TrimEach(Split(Value(card, Categories), ','));
        contact := contact.(circles := circles);
      }
      var unmapped := ExtractUnmapped(card);
      if unmapped != map[] {
        extras := unmapped;
      }
    }
  }

  /** The unmapped properties outside `todo`. */
  ghost function KeptPart(card: Card, todo: set<Property>): Card {
    map name | name in card && name !in todo && name.Unmapped? && card[name] != [] :: card[name]
  }

  /** The same, with the first `n` fields of one more. */
  ghost function CopiedSoFar(card: Card, todo: set<Property>, at: Property, n: nat): Card
    requires at in card && n <= |card[at]|
  {
    if n > 0 then KeptPart(card, todo)[at := card[at][..n]] else KeptPart(card, todo)
  }

  lemma CopiedOneMore(card: Card, todo: set<Property>, at: Property, n: nat)
    requires at in card && at in todo && n < |card[at]|
    ensures var before := CopiedSoFar(card, todo, at, n);
            CopiedSoFar(card, todo, at, n + 1) == before[at := Fields(before, at) + [card[at][n]]]
  {
    assert card[at][..n + 1] == card[at][..n] + [card[at][n]];
    assert [] + [card[at][0]] == [card[at][0]];
  }

  lemma CopiedAll(card: Card, todo: set<Property>, at: Property)
    requires at in card && at in todo
    ensures KeptPart(card, todo - {at})
            == if at.Unmapped? then CopiedSoFar(card, todo, at, |card[at]|) else KeptPart(card, todo)
  {
    assert card[at][..|card[at]|] == card[at];
  }

  lemma KeptNone(card: Card)
    ensures KeptPart(card, card.Keys) == map[] && KeptPart(card, {}) == UnmappedOf(card)
  {
  }

  /** `extractUnmappedProperties`: the fields of every name that is not mapped. */
  method ExtractUnmapped(card: Card) returns (extra: Card)
    ensures extra == UnmappedOf(card)
  {
    hide KeptPart, CopiedSoFar;
    extra := map[];
    var todo := card.Keys;
    KeptNone(card);
    while todo != {}
      invariant todo <= card.Keys && extra == KeptPart(card, todo)
      decreases |todo|
    {
      var name :| name in todo;
      CopiedAll(card, todo, name);
      if name.Unmapped? {
        CopiedNone(card, todo, name);
        for i := 0 to |card[name]|
          invariant extra == CopiedSoFar(card, todo, name, i)
        {
          extra := extra[name := Fields(extra, name) + [card[name][i]]];
          CopiedOneMore(card, todo, name, i);
        }
      }
      todo := todo - {name};
    }
  }

  lemma CopiedNone(card: Card, todo: set<Property>, at: Property)
    requires at in card
    ensures CopiedSoFar(card, todo, at, 0) == KeptPart(card, todo)
  {
  }

  method TrimEach(parts: seq<string>) returns (trimmed: seq<string>)
    ensures trimmed == TrimAll(parts)
  {
    hide TrimSpace;
    trimmed := parts;
    for i := 0 to |parts|
      invariant |trimmed| == |parts|
      invariant forall k :: 0 <= k < i ==> trimmed[k] == TrimSpace(parts[k])
      invariant forall k :: i <= k < |parts| ==> trimmed[k] == parts[k]
    {
      trimmed := trimmed[i := TrimSpace(trimmed[i])];
    }
  }
}
