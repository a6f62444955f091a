/** What survives exporting a contact to a vCard and importing it again. */
module VCardRoundTrip {
  import opened Wrappers
  import opened Text
  import opened VCardText
  import opened VCardMapper
  import Decimal

  // Group names

  lemma GroupNamesDiffer(m: nat, n: nat)
    ensures EqualFold(GroupName(m), GroupName(n)) <==> m == n
    ensures GroupName(n) != ""
  {
    assert Lower("item") == "item";
    GroupNameIsLower(m);
    GroupNameIsLower(n);
    if GroupName(m) == GroupName(n) {
      assert GroupName(m)[4..] == Decimal.Render(m) && GroupName(n)[4..] == Decimal.Render(n);
      Decimal.RenderInjective(m, n);
    }
  }

  lemma GroupNameIsLower(n: nat)
    ensures Lower(GroupName(n)) == GroupName(n)
  {
    var g := GroupName(n);
    forall i | 0 <= i < |g| ensures LowerChar(g[i]) == g[i] {
      if i >= 4 {
        assert g[i] == Decimal.Render(n)[i - 4];
      }
    }
  }

  /** The labels of a card being written: one per group handed out, in order. */
  ghost predicate Numbered(d: Draft) {
    && |Fields(d.card, Label)| == d.groups
    && forall i :: 0 <= i < d.groups ==> Fields(d.card, Label)[i].group == GroupName(i + 1)
  }

  lemma {:induction false} LookupAppend(labels: seq<Field>, more: seq<Field>, group: string)
    ensures Lookup(labels + more, group)
            == if Lookup(labels, group).Some? then Lookup(labels, group) else Lookup(more, group)
  {
    if labels == [] {
      assert labels + more == more;
    } else {
      assert (labels + more)[1..] == labels[1..] + more;
      LookupAppend(labels[1..], more, group);
    }
  }

  lemma {:induction false} LookupAbsent(labels: seq<Field>, group: string)
    requires forall i :: 0 <= i < |labels| ==> !EqualFold(labels[i].group, group)
    ensures Lookup(labels, group) == None
  {
    if labels != [] {
      LookupAbsent(labels[1..], group);
    }
  }

  /** A field whose label, if it is to have one, is already on the card. */
  predicate Settled(labels: seq<Field>, f: Field) {
    f.group == "" || Lookup(labels, f.group).Some?
  }

  predicate AllSettled(labels: seq<Field>, fields: seq<Field>) {
    forall i :: 0 <= i < |fields| ==> Settled(labels, fields[i])
  }

  lemma TypeIsStable(labels: seq<Field>, more: seq<Field>, f: Field)
    requires Settled(labels, f)
    ensures Settled(labels + more, f)
    ensures TypeForField(labels + more, f) == TypeForField(labels, f)
  {
    LookupAppend(labels, more, f.group);
  }

  /** Labels added later do not change how the fields already written read. */
  lemma {:induction false} ReadIsStable(labels: seq<Field>, more: seq<Field>, fields: seq<Field>)
    requires AllSettled(labels, fields)
    ensures AllSettled(labels + more, fields)
    ensures Read(labels + more, fields) == Read(labels, fields)
  {
    hide Settled, TypeForField;
    if fields != [] {
      var n := |fields| - 1;
      assert AllSettled(labels, fields[..n]);
      ReadIsStable(labels, more, fields[..n]);
      TypeIsStable(labels, more, fields[n]);
      forall i | 0 <= i < |fields| ensures Settled(labels + more, fields[i]) {
        TypeIsStable(labels, more, fields[i]);
      }
    }
  }

  // Standard types

  lemma PlainToken(token: string)
    requires ',' !in token && Trimmed(token)
    ensures Split(token, ',') == [token] && TrimSpace(token) == token
  {
    SplitJoin([token], ',');
    TrimSpaceTrims(token);
  }

  lemma UpperOfLower(s: string)
    ensures Upper(Lower(s)) == Upper(s) && Lower(Upper(s)) == Lower(s)
  {
  }

  /** The first TYPE value decides, unless it is a marker. */
  lemma FirstTokenType(token: string, rest: seq<string>)
    requires ',' !in token && Trimmed(token)
    ensures var u := Upper(token);
            TypeOfParams([token] + rest)
            == if u in {"", "INTERNET", "VOICE", "PREF"} then TypeOfParams(rest)
               else if u == "CELL" || u == "MOBILE" then "cell"
               else Lower(u)
  {
    hide Upper, Lower, Split, TrimSpace;
    PlainToken(token);
    assert ([token] + rest)[1..] == rest;
    assert TypeOfTokens([token][1..]) == None;
  }

  lemma MarkersInBothCases()
    ensures Lower("CELL") == "cell" && Lower("MOBILE") == "mobile" && Lower("VOICE") == "voice"
    ensures Upper("cell") == "CELL" && Upper("mobile") == "MOBILE" && Upper("voice") == "VOICE"
    ensures Lower("INTERNET") == "internet" && Lower("PREF") == "pref"
    ensures Upper("INTERNET") == "INTERNET" && Upper("VOICE") == "VOICE" && Upper("CELL") == "CELL"
  {
  }

  lemma StandardHasNoComma(s: string)
    requires s in STANDARD
    ensures ',' !in s
  {
  }

  /** The TYPE value of a standard type is one plain token. */
  lemma UpperIsPlain(t: string)
    requires Trimmed(t) && (t == "" || Lower(t) in STANDARD)
    ensures ',' !in Upper(t) && Trimmed(Upper(t)) && Upper(Upper(t)) == Upper(t)
  {
    if t != "" {
      StandardHasNoComma(Lower(t));
      forall i | 0 <= i < |t| ensures Upper(t)[i] != ',' {
        assert Lower(t)[i] in Lower(t);
      }
    }
  }

  lemma InternetIsPlain()
    ensures ',' !in "INTERNET" && Trimmed("INTERNET") && Upper("INTERNET") == "INTERNET"
  {
  }

  /** EMAIL's INTERNET marker does not hide the type after it. */
  lemma BaseIsSkipped(base: seq<string>, tokens: seq<string>)
    requires base == [] || base == ["INTERNET"]
    ensures TypeOfParams(base + tokens) == TypeOfParams(tokens)
  {
    hide TypeOfParams, Upper, Trimmed;
    if base == [] {
      assert base + tokens == tokens;
    } else {
      InternetIsPlain();
      FirstTokenType("INTERNET", tokens);
    }
  }

  lemma ParamsReadBack(value: string, group: string, tokens: seq<string>)
    ensures TypeFromField(Field(value, group, TypeParams(tokens))) == TypeOfParams(tokens)
  {
    hide TypeOfParams;
  }

  /** A standard type, or none, is read back from the TYPE parameter in its canonical form. */
  lemma StandardTypeReads(value: string, kind: string, base: seq<string>)
    requires !IsCustomType(kind) && (base == [] || base == ["INTERNET"])
    ensures TypeFromField(Field(value, "", TypeParams(base + TypeTokens(kind)))) == Canonical(kind)
  {
    hide *;
    StandardTokensRead(kind);
    BaseIsSkipped(base, TypeTokens(kind));
    ParamsReadBack(value, "", base + TypeTokens(kind));
  }

  lemma StandardTokensRead(kind: string)
    requires !IsCustomType(kind)
    ensures TypeOfParams(TypeTokens(kind)) == Canonical(kind)
  {
    var t := TrimSpace(kind);
    TrimSpaceTrims(kind);
    hide Upper, Lower, TrimSpace, Trimmed, TypeOfParams;
    UpperOfLower(t);
    MarkersInBothCases();
    if t == "" {
      assert Upper(t) == "" && Lower(t) == "";
      assert TypeOfParams([]) == "" by { NoTokens(); }
    } else {
      UpperIsPlain(t);
      var up := Upper(t);
      assert up != "" && Lower(t) != "";
      if up == "CELL" || up == "MOBILE" {
        assert TypeTokens(kind) == ["CELL"] + ["VOICE"];
        UpperIsPlainCell();
        FirstTokenType("CELL", ["VOICE"]);
      } else {
        assert TypeTokens(kind) == [up] + [];
        FirstTokenType(up, []);
        NoTokens();
      }
    }
  }

  lemma NoTokens()
    ensures TypeOfParams([]) == ""
  {
  }

  lemma UpperIsPlainCell()
    ensures ',' !in "CELL" && Trimmed("CELL")
  {
  }

  // Typed values

  /** What an importer reads for a typed property of the card. */
  function ReadOf(card: Card, name: Property): seq<Typed> {
    Read(Fields(card, Label), Fields(card, name))
  }

  predicate Legible(card: Card, name: Property) {
    AllSettled(Fields(card, Label), Fields(card, name))
  }

  /** The entries with a value, each type in its canonical form. */
  function CanonicalAll(entries: seq<Typed>): seq<Typed> {
    if entries == [] then []
    else
      var before := CanonicalAll(entries[..|entries| - 1]);
      var e := entries[|entries| - 1];
      if e.value == "" then before else before + [Typed(Canonical(e.kind), e.value)]
  }

  /** A later draft of the same card: labels are only appended. */
  ghost predicate Extends(d: Draft, d': Draft) {
    Numbered(d) && Numbered(d') && Fields(d.card, Label) <= Fields(d'.card, Label)
  }

  lemma CustomTypeReads(labels: seq<Field>, value: string, kind: string, group: string, base: seq<string>)
    requires IsCustomType(kind) && group != ""
    requires forall i :: 0 <= i < |labels| ==> !EqualFold(labels[i].group, group)
    ensures var f, all := Field(value, group, TypeParams(base)), labels + [Field(TrimSpace(kind), group, map[])];
            Settled(all, f) && TypeForField(all, f) == Canonical(kind)
  {
    hide NormalizeLabel, TypeFromField, TypeParams, TrimSpace, Trimmed;
    var l := Field(TrimSpace(kind), group, map[]);
    LookupAbsent(labels, group);
    LookupAppend(labels, [l], group);
    assert Lookup([l], group) == Some(TrimSpace(kind));
    TrimSpaceTrims(kind);
    TrimSpaceTrims(TrimSpace(kind));
  }

  /** A group just handed out has no label yet. */
  lemma NextGroupIsNew(d: Draft)
    requires Numbered(d)
    ensures var group := GroupName(d.groups + 1);
            group != "" && forall i :: 0 <= i < d.groups ==> !EqualFold(Fields(d.card, Label)[i].group, group)
  {
    hide GroupName, EqualFold;
    GroupNamesDiffer(d.groups + 1, d.groups + 1);
    forall i | 0 <= i < d.groups ensures !EqualFold(Fields(d.card, Label)[i].group, GroupName(d.groups + 1)) {
      GroupNamesDiffer(i + 1, d.groups + 1);
    }
  }

  /** One field more: it settles, and reads as its entry in canonical form. */
  lemma ReadOneMore(labels: seq<Field>, more: seq<Field>, fields: seq<Field>, f: Field, kind: string)
    requires AllSettled(labels, fields) && f.value != ""
    requires Settled(labels + more, f) && TypeForField(labels + more, f) == kind
    ensures AllSettled(labels + more, fields + [f])
    ensures Read(labels + more, fields + [f]) == Read(labels, fields) + [Typed(kind, f.value)]
  {
    hide Settled, TypeForField;
    ReadIsStable(labels, more, fields);
    assert (fields + [f])[..|fields|] == fields;
  }

  lemma TypedAddedFields(d: Draft, name: Property, value: string, kind: string, base: seq<string>)
    requires name != Label
    ensures var d', custom := TypedAdded(d, name, value, kind, base), IsCustomType(kind);
            var group := GroupName(d.groups + 1);
            && Fields(d'.card, name) == Fields(d.card, name)
               + [if custom then Field(value, group, TypeParams(base))
                  else Field(value, "", TypeParams(base + TypeTokens(kind)))]
            && Fields(d'.card, Label) == Fields(d.card, Label)
               + (if custom then [Field(TrimSpace(kind), group, map[])] else [])
            && d'.groups == d.groups + (if custom then 1 else 0)
            && forall other :: other != name && other != Label ==> Fields(d'.card, other) == Fields(d.card, other)
  {
    hide IsCustomType, TypeTokens, TypeParams, GroupName, TrimSpace;
  }

  lemma TypedAddedReads(d: Draft, name: Property, value: string, kind: string, base: seq<string>)
    requires name != Label && value != "" && (base == [] || base == ["INTERNET"])
    requires Numbered(d) && Legible(d.card, name)
    ensures var d' := TypedAdded(d, name, value, kind, base);
            && Numbered(d') && Extends(d, d') && Legible(d'.card, name)
            && ReadOf(d'.card, name) == ReadOf(d.card, name) + [Typed(Canonical(kind), value)]
            && forall other :: other != name && other != Label ==> Fields(d'.card, other) == Fields(d.card, other)
  {
    hide TypedAdded, IsCustomType, TypeTokens, TypeParams, GroupName, TrimSpace, Canonical, Settled, TypeForField,
         EqualFold, Fields;
    var labels, fields := Fields(d.card, Label), Fields(d.card, name);
    TypedAddedFields(d, name, value, kind, base);
    if IsCustomType(kind) {
      var group := GroupName(d.groups + 1);
      NextGroupIsNew(d);
      CustomTypeReads(labels, value, kind, group, base);
      var f, l := Field(value, group, TypeParams(base)), Field(TrimSpace(kind), group, map[]);
      ReadOneMore(labels, [l], fields, f, Canonical(kind));
    } else {
      var f := Field(value, "", TypeParams(base + TypeTokens(kind)));
      StandardTypeReads(value, kind, base);
      UngroupedReads(labels + [], f);
      ReadOneMore(labels, [], fields, f, Canonical(kind));
      assert labels + [] == labels;
    }
  }

  lemma UngroupedReads(labels: seq<Field>, f: Field)
    requires f.group == ""
    ensures Settled(labels, f) && TypeForField(labels, f) == TypeFromField(f)
  {
    hide TypeFromField, TrimSpace;
  }

  /** Adding to one property leaves how another one reads. */
  lemma OthersReadTheSame(d: Draft, d': Draft, other: Property)
    requires Extends(d, d') && Legible(d.card, other)
    requires Fields(d'.card, other) == Fields(d.card, other)
    ensures Legible(d'.card, other) && ReadOf(d'.card, other) == ReadOf(d.card, other)
  {
    hide Settled;
    var labels, labels' := Fields(d.card, Label), Fields(d'.card, Label);
    ReadIsStable(labels, labels'[|labels|..], Fields(d.card, other));
    assert labels + labels'[|labels|..] == labels';
  }

  lemma ExtendsFurther(d: Draft, d': Draft, d'': Draft)
    requires Extends(d, d') && Extends(d', d'')
    ensures Extends(d, d'')
  {
  }

  /** What has been written to a property since `d`, as it reads, while no other property changed. */
  ghost predicate Wrote(d: Draft, d': Draft, name: Property, entries: seq<Typed>) {
    && Numbered(d') && Extends(d, d') && Legible(d'.card, name)
    && ReadOf(d'.card, name) == ReadOf(d.card, name) + entries
    && forall other :: other != name && other != Label ==> Fields(d'.card, other) == Fields(d.card, other)
  }

  lemma WroteOneMore(d: Draft, d': Draft, name: Property, entries: seq<Typed>, value: string, kind: string,
                     base: seq<string>)
    requires Wrote(d, d', name, entries)
    requires name != Label && value != "" && (base == [] || base == ["INTERNET"])
    ensures Wrote(d, TypedAdded(d', name, value, kind, base), name, entries + [Typed(Canonical(kind), value)])
  {
    hide TypedAdded, Canonical, Legible, ReadOf, Fields, Numbered, Extends;
    var d'' := TypedAdded(d', name, value, kind, base);
    var x := [Typed(Canonical(kind), value)];
    TypedAddedReads(d', name, value, kind, base);
    ExtendsFurther(d, d', d'');
    assert (ReadOf(d.card, name) + entries) + x == ReadOf(d.card, name) + (entries + x);
  }

  /** Writing a list of typed values and reading it back gives its canonical form; no other property changes. */
  lemma {:induction false} AllAddedReads(d: Draft, name: Property, entries: seq<Typed>, base: seq<string>)
    requires name != Label && (base == [] || base == ["INTERNET"])
    requires Numbered(d) && Legible(d.card, name)
    ensures Wrote(d, AllAdded(d, name, entries, base), name, CanonicalAll(entries))
  {
    hide Wrote, TypedAdded, Canonical, Legible, Numbered;
    if entries == [] {
      NothingWritten(d, name);
    } else {
      var n := |entries| - 1;
      AllAddedReads(d, name, entries[..n], base);
      if entries[n].value != "" {
        WroteOneMore(d, AllAdded(d, name, entries[..n], base), name, CanonicalAll(entries[..n]),
                     entries[n].value, entries[n].kind, base);
      }
    }
  }

  lemma NothingWritten(d: Draft, name: Property)
    requires Numbered(d) && Legible(d.card, name)
    ensures Wrote(d, d, name, [])
  {
  }

  // Addresses

  /** The addresses that typed values hold; the empty ones are skipped. */
  function AddressesOf(entries: seq<Typed>): seq<Address> {
    if entries == [] then []
    else
      var before := AddressesOf(entries[..|entries| - 1]);
      var a := AddressOf(entries[|entries| - 1].value, entries[|entries| - 1].kind);
      if IsEmptyAddress(a) then before else before + [a]
  }

  /** The non-empty addresses, each reduced and with its type in canonical form. */
  function CanonicalAddresses(addresses: seq<Address>): seq<Address> {
    if addresses == [] then []
    else
      var before := CanonicalAddresses(addresses[..|addresses| - 1]);
      var a := addresses[|addresses| - 1];
      if IsEmptyAddress(a) then before
      else before + [Reduced(a, Canonical(a.kind))]
  }

  lemma NoValueNoAddress(kind: string)
    ensures IsEmptyAddress(AddressOf("", kind))
  {
    assert Components("", "") == [""];
    assert Component([""], 2) == "" && Component([""], 1) == "";
    StreetAlone("");
  }

  lemma AddressHasValue(a: Address)
    ensures AddressValue(a) != ""
  {
    var parts := EscapeAll(["", "", a.street, a.city, a.region, a.postal, a.country]);
    assert |Join(parts, ';')| >= 1;
  }

  lemma {:induction false} AddressesAreTypedValues(labels: seq<Field>, fields: seq<Field>)
    ensures ReadAddresses(labels, fields) == AddressesOf(Read(labels, fields))
  {
    hide AddressOf, TypeForField, IsEmptyAddress;
    if fields != [] {
      var n := |fields| - 1;
      var f, before := fields[n], Read(labels, fields[..n]);
      AddressesAreTypedValues(labels, fields[..n]);
      if f.value == "" {
        NoValueNoAddress(TypeForField(labels, f));
      } else {
        assert (before + [Typed(TypeForField(labels, f), f.value)])[..|before|] == before;
      }
    }
  }

  lemma {:induction false} AddressesComeBack(addresses: seq<Address>)
    ensures AddressesOf(CanonicalAll(AddressEntries(addresses))) == CanonicalAddresses(addresses)
  {
    hide AddressOf, AddressValue, IsEmptyAddress, Canonical, TrimSpace;
    if addresses != [] {
      var n := |addresses| - 1;
      var a, before := addresses[n], CanonicalAll(AddressEntries(addresses[..n]));
      AddressesComeBack(addresses[..n]);
      assert AddressEntries(addresses)[..n] == AddressEntries(addresses[..n]);
      if !IsEmptyAddress(a) {
        AddressHasValue(a);
        AddressRoundTrip(a, Canonical(a.kind));
        assert (before + [Typed(Canonical(a.kind), AddressValue(a))])[..|before|] == before;
      }
    }
  }

  /** Every address, with only its type made canonical and its street trimmed. */
  function AllTrimmed(addresses: seq<Address>): seq<Address> {
    seq(|addresses|, i requires 0 <= i < |addresses| =>
      addresses[i].(kind := Canonical(addresses[i].kind), street := TrimSpace(addresses[i].street)))
  }

  lemma {:induction false} NoMoreAddresses(addresses: seq<Address>)
    ensures |CanonicalAddresses(addresses)| <= |addresses|
  {
    if addresses != [] {
      NoMoreAddresses(addresses[..|addresses| - 1]);
    }
  }

  /**
   * No address is lost or shortened exactly when each has content beyond, and nothing in, PO box, apartment
   * and floor.
   */
  lemma {:induction false} AddressesSurviveExactly(addresses: seq<Address>)
    ensures CanonicalAddresses(addresses) == AllTrimmed(addresses)
            <==> forall a :: a in addresses ==> !IsEmptyAddress(a) && !HasSubStreet(a)
  {
    hide IsEmptyAddress, Canonical, TrimSpace;
    if addresses != [] {
      var n := |addresses| - 1;
      var a := addresses[n];
      AddressesSurviveExactly(addresses[..n]);
      NoMoreAddresses(addresses[..n]);
      assert addresses == addresses[..n] + [a];
      assert AllTrimmed(addresses) == AllTrimmed(addresses[..n]) + AllTrimmed([a]);
      assert AllTrimmed([a])[0] == a.(kind := Canonical(a.kind), street := TrimSpace(a.street));
      if !IsEmptyAddress(a) {
        LastDecides(CanonicalAddresses(addresses[..n]), AllTrimmed(addresses[..n]),
                    Reduced(a, Canonical(a.kind)), AllTrimmed([a])[0]);
        assert AllTrimmed([a]) == [AllTrimmed([a])[0]];
      }
    }
  }

  lemma LastDecides<T>(p: seq<T>, q: seq<T>, x: T, y: T)
    ensures p + [x] == q + [y] <==> p == q && x == y
  {
    if p + [x] == q + [y] {
      assert (p + [x])[..|p|] == p && (q + [y])[..|q|] == q;
      assert (p + [x])[|p|] == x && (q + [y])[|q|] == y;
    }
  }

  lemma OneAddress(a: Address)
    ensures CanonicalAddresses([a]) == if IsEmptyAddress(a) then [] else [Reduced(a, Canonical(a.kind))]
  {
    hide IsEmptyAddress, Canonical, Reduced;
    assert [a][..0] == [];
    assert CanonicalAddresses([]) == [];
  }

  lemma HomeStaysHome()
    ensures Canonical("home") == "home"
  {
    hide TrimSpace;
    TrimSpaceTrims("home");
    assert Lower("home") == "home";
  }

  /** An address that is only a PO box is dropped, and one with a street loses its box. */
  lemma PostBoxIsLost()
    ensures CanonicalAddresses([StreetOnly("").(pobox := "12")]) == []
    ensures CanonicalAddresses([StreetOnly("High Street 1").(pobox := "12")]) == [StreetOnly("High Street 1")]
  {
    hide CanonicalAddresses, Canonical, TrimSpace;
    var box, both := StreetOnly("").(pobox := "12"), StreetOnly("High Street 1").(pobox := "12");
    OneAddress(box);
    OneAddress(both);
    HomeStaysHome();
    TrimSpaceTrims("");
    TrimSpaceTrims("High Street 1");
    assert box.street + box.city + box.region + box.postal + box.country == "";
    assert both.street + both.city + both.region + both.postal + both.country == "High Street 1";
  }

  // The whole card

  predicate InHeader(p: Property) {
    p.Version? || p.Uid? || p.FormattedName? || p.Name? || p.Nickname?
  }

  lemma HeaderFields(c: Contact, newUid: string)
    ensures var h := Header(c, newUid);
            && Fields(h, Uid) == [Plain(if c.uid != "" then c.uid else newUid)]
            && Fields(h, Name) == [Plain(NameValue(c))]
            && Value(h, Nickname) == c.nickname
            && forall p: Property :: !InHeader(p) ==> Fields(h, p) == []
  {
    hide NameValue, FullName;
  }

  predicate IsTyped(p: Property) {
    p.Email? || p.Telephone? || p.Adr? || p.Url?
  }

  /** Writing one typed property leaves the others as they were. */
  lemma OneSection(d: Draft, name: Property, entries: seq<Typed>, base: seq<string>)
    requires IsTyped(name) && (base == [] || base == ["INTERNET"])
    requires Numbered(d) && forall p :: IsTyped(p) ==> Legible(d.card, p)
    requires ReadOf(d.card, name) == []
    ensures var d' := AllAdded(d, name, entries, base);
            && Numbered(d') && (forall p :: IsTyped(p) ==> Legible(d'.card, p))
            && ReadOf(d'.card, name) == CanonicalAll(entries)
            && (forall p :: IsTyped(p) && p != name ==> ReadOf(d'.card, p) == ReadOf(d.card, p))
            && (forall p :: !IsTyped(p) && p != Label ==> Fields(d'.card, p) == Fields(d.card, p))
  {
    hide AllAdded, Fields, Legible, ReadOf, CanonicalAll, Numbered;
    AllAddedReads(d, name, entries, base);
    forall p | IsTyped(p) && p != name
      ensures Legible(AllAdded(d, name, entries, base).card, p)
      ensures ReadOf(AllAdded(d, name, entries, base).card, p) == ReadOf(d.card, p)
    {
      OthersReadTheSame(d, AllAdded(d, name, entries, base), p);
    }
  }

  lemma EmptyIsLegible(header: Card, p: Property)
    requires Fields(header, p) == []
    ensures Legible(header, p) && ReadOf(header, p) == []
  {
  }

  lemma TypedSectionReads(c: Contact, header: Card)
    requires Fields(header, Label) == [] && forall p :: IsTyped(p) ==> Fields(header, p) == []
    ensures var card := TypedSection(c, header).card;
            && ReadOf(card, Email) == CanonicalAll(EffectiveEmails(c))
            && ReadOf(card, Telephone) == CanonicalAll(EffectivePhones(c))
            && ReadOf(card, Adr) == CanonicalAll(AddressEntries(EffectiveAddresses(c)))
            && ReadOf(card, Url) == CanonicalAll(c.urls)
            && forall p :: !IsTyped(p) && p != Label ==> Fields(card, p) == Fields(header, p)
  {
    var d0 := Draft(header, 0);
    assert Numbered(d0);
    hide AllAdded, Fields, Legible, ReadOf, CanonicalAll, Numbered, EffectiveEmails, EffectivePhones,
         EffectiveAddresses, AddressEntries;
    forall p | IsTyped(p) ensures Legible(header, p) && ReadOf(header, p) == [] {
      EmptyIsLegible(header, p);
    }
    OneSection(d0, Email, EffectiveEmails(c), ["INTERNET"]);
    var d1 := AllAdded(d0, Email, EffectiveEmails(c), ["INTERNET"]);
    OneSection(d1, Telephone, EffectivePhones(c), []);
    var d2 := AllAdded(d1, Telephone, EffectivePhones(c), []);
    OneSection(d2, Adr, AddressEntries(EffectiveAddresses(c)), []);
    var d3 := AllAdded(d2, Adr, AddressEntries(EffectiveAddresses(c)), []);
    OneSection(d3, Url, c.urls, []);
  }

  lemma SetIfFields(card: Card, name: Property, value: string)
    requires Fields(card, name) == []
    ensures Value(SetIf(card, name, value), name) == value
    ensures forall p :: p != name ==> Fields(SetIf(card, name, value), p) == Fields(card, p)
  {
  }

  lemma PutFields(card: Card, name: Property, fields: seq<Field>, put: bool)
    requires !put ==> Fields(card, name) == fields
    ensures var c := if put then card[name := fields] else card;
            Fields(c, name) == fields && forall p :: p != name ==> Fields(c, p) == Fields(card, p)
  {
  }

  lemma PersonalFields(card: Card, c: Contact)
    requires Fields(card, Impp) == [] && Fields(card, Birthday) == [] && Fields(card, Anniversary) == []
    requires Fields(card, Categories) == []
    ensures var t := PersonalAdded(card, c);
            && Fields(t, Impp) == ImppFields(c.impps)
            && Value(t, Birthday) == c.birthday && Value(t, Anniversary) == c.anniversary
            && Fields(t, Categories) == (if c.circles != [] then [Plain(Join(c.circles, ','))] else [])
            && forall p: Property :: !(p.Impp? || p.Birthday? || p.Anniversary? || p.Categories?) ==>
                 Fields(t, p) == Fields(card, p)
  {
    hide ImppFields, Join, SetIf, Fields;
    var impps := ImppFields(c.impps);
    PutFields(card, Impp, impps, impps != []);
    var c1 := if impps != [] then card[Impp := impps] else card;
    SetIfFields(c1, Birthday, c.birthday);
    var c2 := SetIf(c1, Birthday, c.birthday);
    SetIfFields(c2, Anniversary, c.anniversary);
    var circles := if c.circles != [] then [Plain(Join(c.circles, ','))] else [];
    PutFields(SetIf(c2, Anniversary, c.anniversary), Categories, circles, c.circles != []);
  }

  lemma WorkFields(card: Card, c: Contact)
    requires Fields(card, Organization) == [] && Fields(card, Title) == [] && Fields(card, Role) == []
    ensures var t, has := WorkAdded(card, c), EffectiveOrganization(c) != "" || c.department != "";
            && Value(t, Organization) == (if has then OrgValue(EffectiveOrganization(c), c.department) else "")
            && Value(t, Title) == c.jobTitle && Value(t, Role) == c.role
            && forall p: Property :: !(p.Organization? || p.Title? || p.Role?) ==> Fields(t, p) == Fields(card, p)
  {
    hide OrgValue, EffectiveOrganization, SetIf, Fields;
    var org := EffectiveOrganization(c);
    var has := org != "" || c.department != "";
    var orgs := if has then [Plain(OrgValue(org, c.department))] else [];
    PutFields(card, Organization, orgs, has);
    var c1 := if has then card[Organization := orgs] else card;
    SetIfFields(c1, Title, c.jobTitle);
    SetIfFields(SetIf(c1, Title, c.jobTitle), Role, c.role);
  }

  lemma RestoredFields(card: Card, extras: Card, p: Property)
    ensures Fields(Restored(card, extras), p) == Fields(card, p) + if p.Unmapped? then Fields(extras, p) else []
  {
  }

  predicate InTrailer(p: Property) {
    p.Impp? || p.Birthday? || p.Anniversary? || p.Categories? || p.Organization? || p.Title? || p.Role?
  }

  lemma TrailerFields(card: Card, c: Contact)
    requires forall p :: InTrailer(p) ==> Fields(card, p) == []
    ensures forall p :: !InTrailer(p) ==> Fields(Trailer(card, c), p) == Fields(card, p)
    ensures HasTrailer(Trailer(card, c), c)
  {
    hide PersonalAdded, WorkAdded, Fields, ImppFields, Join, OrgValue, EffectiveOrganization;
    assert InTrailer(Impp) && InTrailer(Birthday) && InTrailer(Anniversary) && InTrailer(Categories);
    assert InTrailer(Organization) && InTrailer(Title) && InTrailer(Role);
    PersonalFields(card, c);
    WorkFields(PersonalAdded(card, c), c);
  }

  /** The properties after the typed ones. */
  ghost predicate HasTrailer(card: Card, c: Contact) {
    var has := EffectiveOrganization(c) != "" || c.department != "";
    && Fields(card, Impp) == ImppFields(c.impps)
    && Value(card, Birthday) == c.birthday && Value(card, Anniversary) == c.anniversary
    && Fields(card, Categories) == (if c.circles != [] then [Plain(Join(c.circles, ','))] else [])
    && Value(card, Organization) == (if has then OrgValue(EffectiveOrganization(c), c.department) else "")
    && Value(card, Title) == c.jobTitle && Value(card, Role) == c.role
  }

  /** The card as written before the trailer: header and typed properties. */
  lemma SectionFields(c: Contact, newUid: string)
    ensures var h := Header(c, newUid);
            && (forall p :: InTrailer(p) ==> Fields(TypedSection(c, h).card, p) == [])
            && (forall p :: !InHeader(p) && p != Label && !IsTyped(p) ==> Fields(TypedSection(c, h).card, p) == [])
            && (forall p :: InHeader(p) ==> Fields(TypedSection(c, h).card, p) == Fields(h, p))
            && ReadOf(TypedSection(c, h).card, Email) == CanonicalAll(EffectiveEmails(c))
            && ReadOf(TypedSection(c, h).card, Telephone) == CanonicalAll(EffectivePhones(c))
            && ReadOf(TypedSection(c, h).card, Adr) == CanonicalAll(AddressEntries(EffectiveAddresses(c)))
            && ReadOf(TypedSection(c, h).card, Url) == CanonicalAll(c.urls)
  {
    hide Header, TypedSection, Fields, ReadOf, CanonicalAll, EffectiveEmails, EffectivePhones, EffectiveAddresses,
         AddressEntries, Value, NameValue;
    HeaderFields(c, newUid);
    TypedSectionReads(c, Header(c, newUid));
  }

  /** The written card, before the unmapped properties are put back: typed values as an importer reads them. */
  lemma BodyReads(c: Contact, newUid: string)
    ensures var card := Body(c, newUid);
            && ReadOf(card, Email) == CanonicalAll(EffectiveEmails(c))
            && ReadOf(card, Telephone) == CanonicalAll(EffectivePhones(c))
            && ReadOf(card, Adr) == CanonicalAll(AddressEntries(EffectiveAddresses(c)))
            && ReadOf(card, Url) == CanonicalAll(c.urls)
  {
    hide ReadOf, CanonicalAll, EffectiveEmails, EffectivePhones, EffectiveAddresses, AddressEntries, Header,
         TypedSection,
         Trailer, Fields, HasTrailer;
    SectionFields(c, newUid);
    var s := TypedSection(c, Header(c, newUid)).card;
    TrailerFields(s, c);
    forall p | IsTyped(p) ensures ReadOf(Body(c, newUid), p) == ReadOf(s, p) {
      SameFieldsReadSame(s, Body(c, newUid), p);
    }
  }

  lemma SameFieldsReadSame(a: Card, b: Card, p: Property)
    requires Fields(a, p) == Fields(b, p) && Fields(a, Label) == Fields(b, Label)
    ensures ReadOf(a, p) == ReadOf(b, p)
  {
  }

  /** The single-valued properties of the written card. */
  lemma BodyFields(c: Contact, newUid: string)
    ensures var card := Body(c, newUid);
            && HasTrailer(card, c)
            && Value(card, Uid) == (if c.uid != "" then c.uid else newUid)
            && Fields(card, Name) == [Plain(NameValue(c))]
            && Value(card, Nickname) == c.nickname
            && Fields(card, Gender) == [] && Fields(card, Photo) == []
            && forall name :: Fields(card, Unmapped(name)) == []
  {
    hide ReadOf, CanonicalAll, EffectiveEmails, EffectivePhones, EffectiveAddresses, AddressEntries, Header,
         TypedSection,
         Trailer, Fields, HasTrailer, NameValue;
    SectionFields(c, newUid);
    HeaderFields(c, newUid);
    TrailerFields(TypedSection(c, Header(c, newUid)).card, c);
  }

  lemma ExportedFields(c: Contact, newUid: string, extras: Card)
    ensures forall p: Property :: !p.Unmapped? ==> Fields(Exported(c, newUid, extras), p) == Fields(Body(c, newUid), p)
    ensures forall p: Property :: p.Unmapped? ==> Fields(Exported(c, newUid, extras), p) == Fields(extras, p)
  {
    hide Body, Restored, Fields, HasTrailer;
    BodyFields(c, newUid);
    forall p: Property ensures Fields(Exported(c, newUid, extras), p)
                     == Fields(Body(c, newUid), p) + if p.Unmapped? then Fields(extras, p) else [] {
      RestoredFields(Body(c, newUid), extras, p);
    }
  }

  // Reading it back

  function WithValue(entries: seq<Typed>): seq<Typed> {
    if entries == [] then []
    else
      var before := WithValue(entries[..|entries| - 1]);
      if entries[|entries| - 1].value == "" then before else before + [entries[|entries| - 1]]
  }

  lemma {:induction false} ImppsComeBack(impps: seq<Typed>)
    ensures ReadImpps(ImppFields(impps)) == WithValue(impps)
  {
    if impps != [] {
      var n := |impps| - 1;
      ImppsComeBack(impps[..n]);
      if impps[n].value != "" {
        var before := ImppFields(impps[..n]);
        assert (before + [ImppField(impps[n])])[..|before|] == before;
        assert TypeFromField(ImppField(impps[n])) == "";
      }
    }
  }

  /** What importing into a new contact makes of the repeated properties. */
  lemma ListsOfImport(card: Card)
    ensures var r := Imported(card, BLANK);
            && r.emails == ReadOf(card, Email) && r.phones == ReadOf(card, Telephone) && r.urls == ReadOf(card, Url)
            && r.addresses == ReadAddresses(Fields(card, Label), Fields(card, Adr))
            && r.impps == ReadImpps(Fields(card, Impp))
            && r.email == FirstValue(r.emails, "") && r.phone == FirstValue(r.phones, "")
            && r.address == FirstLine(r.addresses, "")
  {
    hide Read, ReadAddresses, ReadImpps, Fields, Value, GenderOf, TrimAll, WithLists, WithScalars, FirstValue,
         FirstLine;
    ScalarsKeepLists(card, WithLists(card, BLANK));
    BlankLists(card);
  }

  lemma ScalarsKeepLists(card: Card, c: Contact)
    ensures var r := WithScalars(card, c);
            && r.emails == c.emails && r.phones == c.phones && r.urls == c.urls && r.addresses == c.addresses
            && r.impps == c.impps && r.email == c.email && r.phone == c.phone && r.address == c.address
  {
    hide Fields, Value, Components, NormalizeBirthday, NameParts, OrKeep, TrimSpace;
  }

  lemma BlankLists(card: Card)
    ensures var r := WithLists(card, BLANK);
            && r.emails == ReadOf(card, Email) && r.phones == ReadOf(card, Telephone) && r.urls == ReadOf(card, Url)
            && r.addresses == ReadAddresses(Fields(card, Label), Fields(card, Adr))
            && r.impps == ReadImpps(Fields(card, Impp))
            && r.email == FirstValue(r.emails, "") && r.phone == FirstValue(r.phones, "")
            && r.address == FirstLine(r.addresses, "")
  {
    hide Read, ReadAddresses, ReadImpps, Fields, FormatAddress;
    ReadNothing(Fields(card, Label));
  }

  lemma ReadNothing(labels: seq<Field>)
    ensures Read(labels, []) == [] && ReadAddresses(labels, []) == [] && ReadImpps([]) == []
  {
  }

  /** Every typed list comes back with its non-empty values in order, each type in canonical form. */
  lemma TypedValuesRoundTrip(c: Contact, newUid: string, extras: Card)
    ensures var r := Imported(Exported(c, newUid, extras), BLANK);
            && r.emails == CanonicalAll(EffectiveEmails(c))
            && r.phones == CanonicalAll(EffectivePhones(c))
            && r.urls == CanonicalAll(c.urls)
            && r.addresses == CanonicalAddresses(EffectiveAddresses(c))
            && r.impps == WithValue(c.impps)
            && r.email == FirstValue(r.emails, "") && r.phone == FirstValue(r.phones, "")
            && r.address == FirstLine(r.addresses, "")
  {
    hide FirstValue, FirstLine, Imported, Exported, Body, CanonicalAll, CanonicalAddresses, WithValue, Read,
         ReadAddresses, ReadImpps, Fields,
         EffectiveEmails, EffectivePhones, EffectiveAddresses, AddressEntries, AddressesOf, ImppFields, Value;
    var card, body := Exported(c, newUid, extras), Body(c, newUid);
    ListsOfImport(card);
    ExportedFields(c, newUid, extras);
    BodyReads(c, newUid);
    BodyFields(c, newUid);
    AddressesAreTypedValues(Fields(card, Label), Fields(card, Adr));
    AddressesComeBack(EffectiveAddresses(c));
    ImppsComeBack(c.impps);
  }

  lemma BlankStays(card: Card)
    ensures var w := WithLists(card, BLANK);
            w.uid == w.nickname == w.birthday == w.anniversary == w.organization == w.department == w.jobTitle
            == w.role == w.gender == "" && w.circles == []
  {
    hide Read, ReadAddresses, ReadImpps, Fields, FirstValue;
  }

  /** What importing into a new contact makes of the single-valued properties. */
  lemma ScalarsOfImport(card: Card)
    ensures var r, org := Imported(card, BLANK), Components(Value(card, Organization), "");
            && r.uid == Value(card, Uid) && r.nickname == Value(card, Nickname)
            && r.birthday == NormalizeBirthday(Value(card, Birthday))
            && r.anniversary == NormalizeBirthday(Value(card, Anniversary))
            && r.organization == (if Value(card, Organization) != "" then TrimSpace(Component(org, 0)) else "")
            && r.department == (if Value(card, Organization) != "" then TrimSpace(Component(org, 1)) else "")
            && r.jobTitle == Value(card, Title) && r.role == Value(card, Role)
            && r.gender == (if Value(card, Gender) != "" then GenderOf(Value(card, Gender)) else "")
  {
    hide WithLists, Components, NameParts, TrimSpace, GenderOf, TrimAll, Fields, Value, NormalizeBirthday, Component;
    BlankStays(card);
  }

  /** The single-valued columns come back; white space around organisation and department is lost, and the gender. */
  lemma ScalarsRoundTrip(c: Contact, newUid: string, extras: Card)
    ensures var r := Imported(Exported(c, newUid, extras), BLANK);
            && r.uid == (if c.uid != "" then c.uid else newUid)
            && r.nickname == c.nickname
            && r.birthday == NormalizeBirthday(c.birthday) && r.anniversary == NormalizeBirthday(c.anniversary)
            && r.organization == TrimSpace(EffectiveOrganization(c)) && r.department == TrimSpace(c.department)
            && r.jobTitle == c.jobTitle && r.role == c.role
            && r.gender == ""
  {
    hide Imported, Exported, Body, Components, OrgValue, EffectiveOrganization, TrimSpace, Fields, NormalizeBirthday,
         Component,
         ImppFields, GenderOf;
    ScalarsOfImport(Exported(c, newUid, extras));
    ExportedFields(c, newUid, extras);
    BodyFields(c, newUid);
    OrgRoundTrip(EffectiveOrganization(c), c.department);
    TrimSpaceTrims("");
  }

  lemma NamesOfImport(card: Card)
    requires Fields(card, Name) != []
    ensures Names(Imported(card, BLANK)) == NameParts(card)
  {
    hide WithLists, Components, TrimSpace, GenderOf, TrimAll, Split, Fields, Value, NormalizeBirthday, Component,
         OrKeep;
  }

  function Names(c: Contact): seq<string> {
    [c.lastname, c.firstname, c.middleName, c.prefix, c.suffix]
  }

  lemma NamePartsSplit(card: Card, value: string)
    requires Fields(card, Name) == [Plain(value)] && |Split(value, ';')| >= 5
    ensures NameParts(card) == Split(value, ';')[..5]
  {
    hide Split, Fields;
  }

  /** The five name parts come back exactly when none of them holds a ";". */
  lemma NamesRoundTrip(c: Contact, newUid: string, extras: Card)
    ensures var r := Imported(Exported(c, newUid, extras), BLANK);
            Names(r) == Names(c) <==> forall n :: n in Names(c) ==> ';' !in n
  {
    hide Imported, Exported, Body, Split, Join, Fields, HasTrailer, NameParts, Value;
    var card := Exported(c, newUid, extras);
    ExportedFields(c, newUid, extras);
    BodyFields(c, newUid);
    NamesOfImport(card);
    UnescapedJoinExact(Names(c), ';');
    NamePartsSplit(card, Join(Names(c), ';'));
  }

  // Circles

  /** Circles come back exactly when each is trimmed and comma-free; a lone empty name is dropped. */
  lemma CirclesRoundTrip(c: Contact, newUid: string, extras: Card)
    ensures Imported(Exported(c, newUid, extras), BLANK).circles == c.circles
            <==> c.circles != [""] && forall n :: n in c.circles ==> ',' !in n && Trimmed(n)
  {
    hide Exported, Body, Fields, WithLists, WithScalars, Join, Split, TrimSpace, Trimmed, GenderOf, ImppFields,
         OrgValue, EffectiveOrganization;
    ExportedFields(c, newUid, extras);
    BodyFields(c, newUid);
    CirclesOfImport(Exported(c, newUid, extras));
    CirclesExact(c.circles);
  }

  lemma CirclesOfImport(card: Card)
    ensures Imported(card, BLANK).circles
            == if Value(card, Categories) != "" then TrimAll(Split(Value(card, Categories), ',')) else []
  {
    hide WithLists, TrimAll, Split, Value, GenderOf, NormalizeBirthday, NameParts, Components, TrimSpace, OrKeep;
    BlankStays(card);
  }

  lemma CirclesExact(circles: seq<string>)
    ensures (if Join(circles, ',') != "" then TrimAll(Split(Join(circles, ','), ',')) else []) == circles
            <==> circles != [""] && forall n :: n in circles ==> ',' !in n && Trimmed(n)
  {
    hide Split, TrimSpace, Trimmed;
    var v := Join(circles, ',');
    var read := TrimAll(Split(v, ','));
    if v != "" {
      if forall n :: n in circles ==> ',' !in n && Trimmed(n) {
        SplitJoin(circles, ',');
        forall i | 0 <= i < |circles| ensures read[i] == circles[i] {
          TrimSpaceTrims(circles[i]);
        }
      }
      SplitHasNoSeparator(v, ',');
      forall i | 0 <= i < |read| ensures ',' !in read[i] && Trimmed(read[i]) {
        TrimKeepsOut(Split(v, ',')[i], ',');
        TrimSpaceTrims(Split(v, ',')[i]);
      }
    } else if circles != [] {
      assert |circles| == 1 && circles == [""];
    }
  }

  // Unmapped properties

  /** A photo among the kept properties, from before it was mapped, is not written again. */
  lemma KeptPhotoIsSkipped(c: Contact, newUid: string, extras: Card)
    ensures Fields(Exported(c, newUid, extras), Photo) == []
  {
    hide Exported, Body, Fields, HasTrailer;
    ExportedFields(c, newUid, extras);
    BodyFields(c, newUid);
  }

  /** Properties without a column are carried through an export and an import. */
  lemma UnmappedRoundTrip(c: Contact, newUid: string, extras: Card)
    ensures UnmappedOf(Exported(c, newUid, extras)) == UnmappedOf(extras)
  {
    hide Exported, Body;
    ExportedFields(c, newUid, extras);
    var card := Exported(c, newUid, extras);
    forall name: Property ensures name in UnmappedOf(card) <==> name in UnmappedOf(extras)
                          ensures name in UnmappedOf(card) ==> UnmappedOf(card)[name] == UnmappedOf(extras)[name] {
      assert name.Unmapped? ==> Fields(card, name) == Fields(extras, name);
    }
  }

  // Types

  predicate Wrapped(tag: string) {
    |tag| >= 8 && HasPrefix(tag, "_$!<") && HasSuffix(tag, ">!$_")
  }

  lemma TrimmedWords()
    ensures Trimmed("cell") && Trimmed("") && Lower("cell") == "cell"
  {
  }

  lemma CustomLabelIsExact(t: string, kind: string)
    requires |t| <= |kind|
    ensures NormalizeLabel(t) == kind <==> t == kind && !Wrapped(kind)
  {
    hide Lower;
    if Wrapped(t) {
      assert |Lower(t[4..|t| - 4])| == |t| - 8;
      assert |"mobile"| == 6;
    }
  }

  lemma StandardTypeIsExact(kind: string)
    requires !IsCustomType(kind)
    ensures Canonical(kind) == kind <==> Trimmed(kind) && Lower(kind) == kind && kind != "mobile" && kind != "voice"
  {
    hide Lower, TrimSpace, Trimmed, IsCustomType;
    var t := TrimSpace(kind);
    TrimSpaceTrims(kind);
    TrimmedWords();
    LowerStaysTrimmed(t);
    TrimSpaceTrims("cell");
    TrimSpaceTrims("");
  }

  /** The types that come back as they were. */
  lemma CanonicalIsExact(kind: string)
    ensures Canonical(kind) == kind
            <==> if IsCustomType(kind) then Trimmed(kind) && !Wrapped(kind)
                 else Trimmed(kind) && Lower(kind) == kind && kind != "mobile" && kind != "voice"
  {
    var t := TrimSpace(kind);
    assert |t| <= |kind|;
    hide Lower, TrimSpace, Trimmed, IsCustomType, NormalizeLabel, Wrapped;
    if IsCustomType(kind) {
      TrimSpaceTrims(kind);
      CustomLabelIsExact(t, kind);
    } else {
      StandardTypeIsExact(kind);
    }
  }

  /** A second import normalises dates no further. */
  lemma NormalizedBirthdayStays(b: string)
    ensures NormalizeBirthday(NormalizeBirthday(b)) == NormalizeBirthday(b)
  {
  }

  /**
   * Every exported card has, once each, the properties vCard 3.0 requires: VERSION, FN, which is never empty,
   * and N, the five name parts joined at semicolons. It also has one UID that is not empty.
   */
  lemma RequiredProperties(c: Contact, newUid: string, extras: Card)
    requires newUid != ""
    ensures var card := Exported(c, newUid, extras);
            && Fields(card, Version) == [Plain("3.0")] && |Fields(card, Uid)| == 1 && Value(card, Uid) != ""
            && |Fields(card, FormattedName)| == 1 && Value(card, FormattedName) != ""
            && Fields(card, Name) == [Plain(NameValue(c))]
            && (TrimSpace(c.firstname + " " + c.lastname) != "" ==>
                  Value(card, FormattedName) == TrimSpace(c.firstname + " " + c.lastname))
  {
    hide *;
    ExportedFields(c, newUid, extras);
    BodyRequired(c, newUid);
    var card := Exported(c, newUid, extras);
    FirstOf(card, Uid, if c.uid != "" then c.uid else newUid);
    FirstOf(card, FormattedName, FullName(c));
    FullNameIs(c);
  }

  lemma FirstOf(card: Card, p: Property, value: string)
    requires Fields(card, p) == [Plain(value)]
    ensures Value(card, p) == value
  {
  }

  lemma FullNameIs(c: Contact)
    ensures FullName(c) != ""
    ensures TrimSpace(c.firstname + " " + c.lastname) != "" ==> FullName(c) == TrimSpace(c.firstname + " " + c.lastname)
  {
    hide TrimSpace;
  }

  lemma BodyRequired(c: Contact, newUid: string)
    ensures var body := Body(c, newUid);
            && Fields(body, Version) == [Plain("3.0")]
            && Fields(body, Uid) == [Plain(if c.uid != "" then c.uid else newUid)]
            && Fields(body, FormattedName) == [Plain(FullName(c))]
            && Fields(body, Name) == [Plain(NameValue(c))]
  {
    hide Body, Header, TypedSection, Trailer, Fields, HasTrailer, TrimSpace, NameValue, FullName;
    BodyFields(c, newUid);
    SectionFields(c, newUid);
    TrailerFields(TypedSection(c, Header(c, newUid)).card, c);
    HeaderRequired(c, newUid);
    BodyIs(c, newUid);
  }

  lemma BodyIs(c: Contact, newUid: string)
    ensures Body(c, newUid) == Trailer(TypedSection(c, Header(c, newUid)).card, c)
  {
  }

  lemma HeaderRequired(c: Contact, newUid: string)
    ensures var h := Header(c, newUid);
            && Fields(h, Version) == [Plain("3.0")]
            && Fields(h, Uid) == [Plain(if c.uid != "" then c.uid else newUid)]
            && Fields(h, FormattedName) == [Plain(FullName(c))] && FullName(c) != ""
  {
    hide NameValue, TrimSpace;
  }

  /** What a card does not mention, an import leaves alone. */
  lemma SilentCardChangesNothing(card: Card, c: Contact)
    requires forall p: Property :: !p.Unmapped? ==> Fields(card, p) == []
    ensures Imported(card, c) == c
  {
    hide Read, ReadAddresses, ReadImpps, Fields, GenderOf, TrimAll, Components, NameParts, TrimSpace, Component,
         FirstValue, FirstLine;
    assert NormalizeBirthday("") == "";
  }
}
