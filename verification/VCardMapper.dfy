/** Contacts to vCards and back: typed values, custom labels in property groups, and the rest of the card. */
module VCardMapper {
  import opened Wrappers
  import opened Text
  import opened VCardText
  import Decimal

  datatype Typed = Typed(kind: string, value: string)

  datatype Contact = Contact(
    uid: string, firstname: string, lastname: string, middleName: string, prefix: string, suffix: string,
    nickname: string, gender: string, email: string, phone: string, address: string,
    emails: seq<Typed>, phones: seq<Typed>, addresses: seq<Address>, urls: seq<Typed>, impps: seq<Typed>,
    birthday: string, anniversary: string, circles: seq<string>, organization: string, workInformation: string,
    department: string, jobTitle: string, role: string)

  const BLANK := Contact("", "", "", "", "", "", "", "", "", "", "", [], [], [], [], [], "", "", [], "", "", "", "", "")

  /** The property names with a column of their own; any other name is kept as it is. */
  datatype Property =
    | Version | Uid | FormattedName | Name | Nickname | Email | Telephone | Adr | Url | Impp | Birthday
    | Anniversary | Categories | Organization | Title | Role | Gender | Label | Photo | Unmapped(name: string)

  datatype Param = TypeParam | ServiceParam

  datatype Field = Field(value: string, group: string, params: map<Param, seq<string>>)

  type Card = map<Property, seq<Field>>

  function Fields(card: Card, name: Property): seq<Field> {
    if name in card then card[name] else []
  }

  function Plain(value: string): Field {
    Field(value, "", map[])
  }

  function Added(card: Card, name: Property, f: Field): Card {
    card[name := Fields(card, name) + [f]]
  }

  function SetIf(card: Card, name: Property, value: string): Card {
    if value != "" then card[name := [Plain(value)]] else card
  }

  // Types and labels

  const STANDARD := {"home", "work", "cell", "mobile", "fax", "voice", "pager", "other"}

  predicate IsCustomType(kind: string) {
    var t := Lower(TrimSpace(kind));
    t != "" && t !in STANDARD
  }

  function TypeTokens(kind: string): seq<string> {
    var up := Upper(TrimSpace(kind));
    if up == "" then [] else if up == "CELL" || up == "MOBILE" then ["CELL", "VOICE"] else [up]
  }

  function TypeParams(tokens: seq<string>): map<Param, seq<string>> {
    if tokens == [] then map[] else map[TypeParam := tokens]
  }

  function GroupName(n: nat): string {
    "item" + Decimal.Render(n)
  }

  /** Apple's pseudo-labels name a standard type between "_$!<" and ">!$_". */
  function NormalizeLabel(tag: string): string {
    if |tag| >= 8 && HasPrefix(tag, "_$!<") && HasSuffix(tag, ">!$_") then
      var inner := Lower(tag[4..|tag| - 4]);
      if inner == "mobile" then "cell" else inner
    else tag
  }

  /** The label of a group: the first label field whose group matches without case. */
  function Lookup(labels: seq<Field>, group: string): Option<string> {
    if labels == [] then None
    else if EqualFold(labels[0].group, group) then Some(labels[0].value)
    else Lookup(labels[1..], group)
  }

  /** The first token that is a type, not a transport or preference marker. */
  function TypeOfTokens(tokens: seq<string>): Option<string> {
    if tokens == [] then None
    else
      var u := Upper(TrimSpace(tokens[0]));
      if u in {"", "INTERNET", "VOICE", "PREF"} then TypeOfTokens(tokens[1..])
      else if u == "CELL" || u == "MOBILE" then Some("cell")
      else Some(Lower(u))
  }

  function TypeOfParams(raws: seq<string>): string {
    if raws == [] then ""
    else
      match TypeOfTokens(Split(raws[0], ','))
      case Some(t) => t
      case None => TypeOfParams(raws[1..])
  }

  function TypeFromField(f: Field): string {
    TypeOfParams(if TypeParam in f.params then f.params[TypeParam] else [])
  }

  /** The type of an imported field: a group label before the TYPE parameter. */
  function TypeForField(labels: seq<Field>, f: Field): string {
    var tag := if f.group == "" then None else Lookup(labels, f.group);
    if tag.Some? && TrimSpace(tag.value) != "" then NormalizeLabel(TrimSpace(tag.value)) else TypeFromField(f)
  }

  /** What a type comes back as: custom labels as they are, "mobile" as "cell", "voice" as nothing. */
  function Canonical(kind: string): string {
    var t := TrimSpace(kind);
    if IsCustomType(kind) then NormalizeLabel(t)
    else if Lower(t) == "mobile" then "cell"
    else if Lower(t) == "voice" then ""
    else Lower(t)
  }

  // Export

  /** A card being written, and the number of groups handed out. */
  datatype Draft = Draft(card: Card, groups: nat)

  function TypedAdded(d: Draft, name: Property, value: string, kind: string, base: seq<string>): Draft {
    if IsCustomType(kind) then
      var group := GroupName(d.groups + 1);
      var grouped := Added(d.card, name, Field(value, group, TypeParams(base)));
      Draft(Added(grouped, Label, Field(TrimSpace(kind), group, map[])), d.groups + 1)
    else
      Draft(Added(d.card, name, Field(value, "", TypeParams(base + TypeTokens(kind)))), d.groups)
  }

  /** Every entry with a value, in order. */
  function AllAdded(d: Draft, name: Property, entries: seq<Typed>, base: seq<string>): Draft {
    if entries == [] then d
    else
      var before := AllAdded(d, name, entries[..|entries| - 1], base);
      var e := entries[|entries| - 1];
      if e.value == "" then before else TypedAdded(before, name, e.value, e.kind, base)
  }

  function EffectiveEmails(c: Contact): seq<Typed> {
    if c.emails == [] && c.email != "" then [Typed("home", c.email)] else c.emails
  }

  function EffectivePhones(c: Contact): seq<Typed> {
    if c.phones == [] && c.phone != "" then [Typed("cell", c.phone)] else c.phones
  }

  function StreetOnly(street: string): Address {
    Address("home", street, "", "", "", "", "", "", "")
  }

  function EffectiveAddresses(c: Contact): seq<Address> {
    if c.addresses == [] && c.address != "" then [StreetOnly(c.address)] else c.addresses
  }

  /** An address as a typed value; an empty one has none. */
  function AddressEntry(a: Address): Typed {
    Typed(a.kind, if IsEmptyAddress(a) then "" else AddressValue(a))
  }

  function AddressEntries(addresses: seq<Address>): seq<Typed> {
    seq(|addresses|, i requires 0 <= i < |addresses| => AddressEntry(addresses[i]))
  }

  function FullName(c: Contact): string {
    var fn := TrimSpace(c.firstname + " " + c.lastname);
    if fn != "" then fn else if c.nickname != "" then c.nickname else "Unknown"
  }

  function NameValue(c: Contact): string {
    Join([c.lastname, c.firstname, c.middleName, c.prefix, c.suffix], ';')
  }

  function Header(c: Contact, newUid: string): Card {
    SetIf(map[Version := [Plain("3.0")], Uid := [Plain(if c.uid != "" then c.uid else newUid)],
              FormattedName := [Plain(FullName(c))], Name := [Plain(NameValue(c))]],
          Nickname, c.nickname)
  }

  function ImppField(im: Typed): Field {
    Field(im.value, "", if im.kind != "" then map[ServiceParam := [im.kind]] else map[])
  }

  function ImppFields(impps: seq<Typed>): seq<Field> {
    if impps == [] then []
    else
      var before := ImppFields(impps[..|impps| - 1]);
      if impps[|impps| - 1].value == "" then before else before + [ImppField(impps[|impps| - 1])]
  }

  function EffectiveOrganization(c: Contact): string {
    if c.organization != "" then c.organization else c.workInformation
  }

  /** IMPP, BDAY, ANNIVERSARY and CATEGORIES. */
  function PersonalAdded(card: Card, c: Contact): Card {
    var impps := ImppFields(c.impps);
    var c1 := if impps != [] then card[Impp := impps] else card;
    var c2 := SetIf(SetIf(c1, Birthday, c.birthday), Anniversary, c.anniversary);
    if c.circles != [] then c2[Categories := [Plain(Join(c.circles, ','))]] else c2
  }

  /** ORG, TITLE and ROLE. */
  function WorkAdded(card: Card, c: Contact): Card {
    var c1 := if EffectiveOrganization(c) != "" || c.department != ""
              then card[Organization := [Plain(OrgValue(EffectiveOrganization(c), c.department))]] else card;
    SetIf(SetIf(c1, Title, c.jobTitle), Role, c.role)
  }

  function Trailer(card: Card, c: Contact): Card {
    WorkAdded(PersonalAdded(card, c), c)
  }

  /** The unmapped properties kept from earlier imports; mapped names among them are skipped. */
  function Restored(card: Card, extras: Card): Card {
    card + map name | name in extras && name.Unmapped? && extras[name] != [] :: Fields(card, name) + extras[name]
  }

  function TypedSection(c: Contact, header: Card): Draft {
    AllAdded(AllAdded(AllAdded(AllAdded(Draft(header, 0), Email, EffectiveEmails(c), ["INTERNET"]),
                               Telephone, EffectivePhones(c), []),
                      Adr, AddressEntries(EffectiveAddresses(c)), []),
             Url, c.urls, [])
  }

  function Body(c: Contact, newUid: string): Card {
    Trailer(TypedSection(c, Header(c, newUid)).card, c)
  }

  function Exported(c: Contact, newUid: string, extras: Card): Card {
    Restored(Body(c, newUid), extras)
  }

  // Import

  /** The typed values of a property; fields without a value are skipped. */
  function Read(labels: seq<Field>, fields: seq<Field>): seq<Typed> {
    if fields == [] then []
    else
      var before := Read(labels, fields[..|fields| - 1]);
      var f := fields[|fields| - 1];
      if f.value == "" then before else before + [Typed(TypeForField(labels, f), f.value)]
  }

  function ReadAddresses(labels: seq<Field>, fields: seq<Field>): seq<Address> {
    if fields == [] then []
    else
      var before := ReadAddresses(labels, fields[..|fields| - 1]);
      var a := AddressOf(fields[|fields| - 1].value, TypeForField(labels, fields[|fields| - 1]));
      if IsEmptyAddress(a) then before else before + [a]
  }

  function ReadImpps(fields: seq<Field>): seq<Typed> {
    if fields == [] then []
    else
      var before := ReadImpps(fields[..|fields| - 1]);
      var f := fields[|fields| - 1];
      var service := if ServiceParam in f.params && f.params[ServiceParam] != [] then f.params[ServiceParam][0] else "";
      if f.value == "" then before else before + [Typed(if service != "" then service else TypeFromField(f), f.value)]
  }

  /** The value of a property's first field. */
  function Value(card: Card, name: Property): string {
    if Fields(card, name) != [] then Fields(card, name)[0].value else ""
  }

  function NormalizeBirthday(b: string): string {
    if |b| == 10 && b[4] == '-' && b[7] == '-' then b
    else if |b| == 7 && b[0] == '-' && b[1] == '-' && b[4] == '-' then b
    else if |b| == 8 && b[0] != '-' then b[..4] + "-" + b[4..6] + "-" + b[6..]
    else if |b| == 6 && b[0] == '-' && b[1] == '-' then b[..4] + "-" + b[4..]
    else b
  }

  function OrKeep(value: string, existing: string): string {
    if value != "" then value else existing
  }

  function FirstValue(values: seq<Typed>, existing: string): string {
    if values != [] then values[0].value else existing
  }

  function FirstLine(addresses: seq<Address>, existing: string): string {
    if addresses != [] then FormatAddress(addresses[0]) else existing
  }

  /** The parts of N in the order LastName, FirstName, MiddleName, Prefix, Suffix. */
  function NameParts(card: Card): seq<string> {
    var parts := Split(Value(card, Name), ';');
    [Component(parts, 0), Component(parts, 1), Component(parts, 2), Component(parts, 3), Component(parts, 4)]
  }

  /** The repeated properties replace what the contact had, unless the card has none of them. */
  function WithLists(card: Card, c: Contact): Contact {
    var labels := Fields(card, Label);
    var emails := if Fields(card, Email) != [] then Read(labels, Fields(card, Email)) else c.emails;
    var phones := if Fields(card, Telephone) != [] then Read(labels, Fields(card, Telephone)) else c.phones;
    var addresses := if Fields(card, Adr) != [] then ReadAddresses(labels, Fields(card, Adr)) else c.addresses;
    c.(emails := emails, phones := phones,
       email := if Fields(card, Email) != [] then FirstValue(emails, c.email) else c.email,
       phone := if Fields(card, Telephone) != [] then FirstValue(phones, c.phone) else c.phone,
       addresses := addresses,
       address := if Fields(card, Adr) != [] then FirstLine(addresses, c.address) else c.address,
       urls := if Fields(card, Url) != [] then Read(labels, Fields(card, Url)) else c.urls,
       impps := if Fields(card, Impp) != [] then ReadImpps(Fields(card, Impp)) else c.impps)
  }

  /** The name: N before FN, which is split at its first space. */
  function Named(card: Card, c: Contact): Contact {
    var n, fn := NameParts(card), Value(card, FormattedName);
    if Fields(card, Name) != [] then
      c.(lastname := n[0], firstname := n[1], middleName := n[2], prefix := n[3], suffix := n[4])
    else if fn != "" then
      match IndexOf(fn, ' ')
      case None => c.(firstname := fn)
      case Some(i) => c.(firstname := fn[..i], lastname := fn[i + 1..])
    else c
  }

  /** The single-valued properties. */
  function WithScalars(card: Card, c: Contact): Contact {
    var org, has := Components(Value(card, Organization), ""), Value(card, Organization) != "";
    Named(card, c).(uid := OrKeep(Value(card, Uid), c.uid),
           nickname := OrKeep(Value(card, Nickname), c.nickname),
           birthday := OrKeep(NormalizeBirthday(Value(card, Birthday)), c.birthday),
           anniversary := OrKeep(NormalizeBirthday(Value(card, Anniversary)), c.anniversary),
           organization := if has then TrimSpace(Component(org, 0)) else c.organization,
           department := if has then OrKeep(TrimSpace(Component(org, 1)), c.department) else c.department,
           jobTitle := OrKeep(Value(card, Title), c.jobTitle),
           role := OrKeep(Value(card, Role), c.role))
  }

  function TrimAll(parts: seq<string>): seq<string> {
    seq(|parts|, i requires 0 <= i < |parts| => TrimSpace(parts[i]))
  }

  function GenderOf(g: string): string {
    var up := Upper(g);
    if up == "M" then "male" else if up == "F" then "female" else if up == "O" then "other"
    else if up == "N" || up == "U" then "prefer_not_to_say" else ""
  }

  function Imported(card: Card, existing: Contact): Contact {
    var c := WithScalars(card, WithLists(card, existing));
    c.(gender := if Value(card, Gender) != "" then GenderOf(Value(card, Gender)) else c.gender,
       circles := if Value(card, Categories) != "" then TrimAll(Split(Value(card, Categories), ',')) else c.circles)
  }

  /** The properties of a card that have no column. */
  function UnmappedOf(card: Card): Card {
    map name | name in card && name.Unmapped? && card[name] != [] :: card[name]
  }

  /** What is kept of a card's unmapped properties; a card without any keeps the earlier ones. */
  function ExtrasAfter(card: Card, existing: Card): Card {
    if UnmappedOf(card) != map[] then UnmappedOf(card) else existing
  }
}
