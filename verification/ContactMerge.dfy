/** Merging one contact into another: resolution, what moves, what is deleted, and runs of merges. */
module ContactMerge {
  import opened Wrappers
  import opened Text
  import opened MergeUnion

  /**
   * `groups` are the activities, households, circles and tags a contact is in: join rows that exist at most
   * once for a contact and a group.
   */
  datatype Contact = Contact(user: nat, deleted: bool, photo: string, thumbnail: string,
                             scalars: map<string, string>, lists: Lists, values: map<string, string>,
                             cadence: Option<string>, groups: set<string>)

  /** A row of a table whose rows belong to one contact each. */
  datatype RowId = RowId(table: string, id: nat)

  /** The one such table whose rows do not follow a merge. */
  const SYNC_LINKS := "contact_sync_links"

  /** Contacts, the contact each live row is on, the ids of the field definitions in order, and the photo files. */
  datatype Store = Store(contacts: map<nat, Contact>, rows: map<RowId, nat>, definitions: seq<string>,
                         files: set<string>)

  datatype Request = Request(user: nat, keepId: nat, mergeId: nat, resolutions: map<string, string>)

  datatype Error = SameContact | NotFound(id: nat) | Unresolved(fields: seq<string>) | NeitherPolicy

  const CADENCE := "cadence_policy"

  /** The keys of `mergeScalarFields`, in the order in which conflicts are reported. */
  function MergeKeys(): seq<string> {
    ["anniversary", "birthday", "contact_information", "department", "firstname", "gender", "how_we_met", "job_title",
     "lastname", "middle_name", "nickname", "organization", "prefix", "role", "suffix", "work_information"]
  }

  /** The same with the cadence policy in its place. */
  function ConflictKeys(): (keys: seq<string>)
    ensures forall k :: k in keys <==> k in MergeKeys() || k == CADENCE
    ensures CADENCE !in MergeKeys()
  {
    var sorted := MergeKeys();
    assert sorted == sorted[..2] + sorted[2..];
    assert forall i :: 0 <= i < |sorted| ==> sorted[i][0] != 'c' || sorted[i][1] == 'o';
    assert CADENCE[1] == 'a';
    sorted[..2] + [CADENCE] + sorted[2..]
  }

  /** The fields a merge resolves one by one. */
  lemma MergeKeysAre(key: string)
    ensures key in MergeKeys()
            <==> key in {"anniversary", "birthday", "contact_information", "department", "firstname", "gender",
                         "how_we_met", "job_title", "lastname", "middle_name", "nickname", "organization", "prefix",
                         "role", "suffix", "work_information"}
    ensures ConflictKeys()
            == ["anniversary", "birthday", "cadence_policy", "contact_information", "department", "firstname",
                "gender", "how_we_met", "job_title", "lastname", "middle_name", "nickname", "organization", "prefix",
                "role", "suffix", "work_information"]
  {
  }

  predicate Live(s: Store, id: nat) {
    id in s.contacts && !s.contacts[id].deleted
  }

  predicate Owned(s: Store, user: nat, id: nat) {
    Live(s, id) && s.contacts[id].user == user
  }

  function Scalar(c: Contact, key: string): string {
    if key in c.scalars then c.scalars[key] else ""
  }

  // Conflicts

  predicate Conflicting(keeper: string, loser: string) {
    keeper != loser && keeper != "" && loser != ""
  }

  predicate PoliciesDiffer(keeper: Contact, loser: Contact) {
    keeper.cadence.Some? && loser.cadence.Some? && keeper.cadence != loser.cadence
  }

  predicate FieldConflicts(keeper: Contact, loser: Contact, key: string) {
    if key == CADENCE then PoliciesDiffer(keeper, loser) else Conflicting(Scalar(keeper, key), Scalar(loser, key))
  }

  function ScalarConflicts(keeper: Contact, loser: Contact, keys: seq<string>): seq<string> {
    if keys == [] then []
    else
      var before, key := ScalarConflicts(keeper, loser, keys[..|keys| - 1]), keys[|keys| - 1];
      if FieldConflicts(keeper, loser, key) then before + [key] else before
  }

  /** A custom field has one value per contact, so two values conflict even when they are equal. */
  function ValueConflicts(keeper: Contact, loser: Contact, definitions: seq<string>): seq<string> {
    if definitions == [] then []
    else
      var before, d := ValueConflicts(keeper, loser, definitions[..|definitions| - 1]), definitions[|definitions| - 1];
      if d in keeper.values && d in loser.values then before + [d] else before
  }

  function Conflicts(keeper: Contact, loser: Contact, definitions: seq<string>): seq<string> {
    ScalarConflicts(keeper, loser, ConflictKeys()) + ValueConflicts(keeper, loser, definitions)
  }

  function Missing(conflicts: seq<string>, resolutions: map<string, string>): seq<string> {
    if conflicts == [] then []
    else
      var before, field := Missing(conflicts[..|conflicts| - 1], resolutions), conflicts[|conflicts| - 1];
      if field in resolutions then before else before + [field]
  }

  // The keeper afterwards

  function Resolved(key: string, keeper: string, loser: string, resolutions: map<string, string>): string {
    if Conflicting(keeper, loser) then (if key in resolutions then resolutions[key] else "")
    else if keeper != "" then keeper else loser
  }

  function ResolvedScalars(keeper: Contact, loser: Contact, resolutions: map<string, string>): map<string, string> {
    map key | key in keeper.scalars.Keys + (set k | k in MergeKeys()) ::
      if key in MergeKeys() then Resolved(key, Scalar(keeper, key), Scalar(loser, key), resolutions)
      else keeper.scalars[key]
  }

  function RepointedValues(keeper: Contact, loser: Contact, resolutions: map<string, string>): map<string, string> {
    map d | d in keeper.values.Keys + loser.values.Keys ::
      if d in keeper.values && d in loser.values then (if d in resolutions then resolutions[d] else "")
      else if d in keeper.values then keeper.values[d] else loser.values[d]
  }

  predicate AdoptsPhoto(keeper: Contact, loser: Contact) {
    keeper.photo == "" && loser.photo != ""
  }

  /** The cadence policy that survives; a choice that is neither side's is refused. */
  function SurvivingPolicy(keeper: Contact, loser: Contact, resolutions: map<string, string>)
    : Result<Option<string>, Error>
  {
    if loser.cadence.None? then Ok(keeper.cadence)
    else if keeper.cadence.None? || keeper.cadence == loser.cadence then Ok(loser.cadence)
    else if CADENCE in resolutions && resolutions[CADENCE] == loser.cadence.value then Ok(loser.cadence)
    else if CADENCE in resolutions && resolutions[CADENCE] == keeper.cadence.value then Ok(keeper.cadence)
    else Err(NeitherPolicy)
  }

  function KeeperAfter(keeper: Contact, loser: Contact, policy: Option<string>, resolutions: map<string,
                       string>): Contact {
    keeper.(photo := if AdoptsPhoto(keeper, loser) then loser.photo else keeper.photo,
            thumbnail := if AdoptsPhoto(keeper, loser) then loser.thumbnail else keeper.thumbnail,
            scalars := ResolvedScalars(keeper, loser, resolutions),
            lists := MergedLists(keeper.lists, loser.lists),
            values := RepointedValues(keeper, loser, resolutions),
            cadence := policy,
            groups := keeper.groups + loser.groups)
  }

  /** The files a contact's row refers to; an inline thumbnail is not a file. */
  function PhotoFiles(c: Contact): set<string> {
    (if c.photo != "" then {c.photo} else {})
    + if c.thumbnail != "" && !HasPrefix(c.thumbnail, "data:") then {c.thumbnail} else {}
  }

  function LoserAfter(loser: Contact): Contact {
    loser.(deleted := true, values := map[], cadence := None, groups := {})
  }

  /** The loser's rows go to the keeper, but for its sync links, which are deleted. */
  function Repointed(rows: map<RowId, nat>, keepId: nat, mergeId: nat): map<RowId, nat> {
    map r | r in rows && !(rows[r] == mergeId && r.table == SYNC_LINKS) ::
      if rows[r] == mergeId then keepId else rows[r]
  }

  predicate IsPair(s: Store, r: Request) {
    r.keepId != r.mergeId && Owned(s, r.user, r.keepId) && Owned(s, r.user, r.mergeId)
  }

  function PairRejection(s: Store, r: Request): Option<Error> {
    if r.keepId == r.mergeId then Some(SameContact)
    else if !Owned(s, r.user, r.keepId) then Some(NotFound(r.keepId))
    else if !Owned(s, r.user, r.mergeId) then Some(NotFound(r.mergeId))
    else None
  }

  function ConflictRejection(keeper: Contact, loser: Contact, definitions: seq<string>,
      resolutions: map<string, string>)
    : (e: Option<Error>)
    ensures e.None? ==> SurvivingPolicy(keeper, loser, resolutions).Ok?
  {
    var missing := Missing(Conflicts(keeper, loser, definitions), resolutions);
    if missing != [] then Some(Unresolved(missing))
    else if SurvivingPolicy(keeper, loser, resolutions).Err? then Some(NeitherPolicy)
    else None
  }

  function Rejection(s: Store, r: Request): (e: Option<Error>)
    ensures e.None? ==> IsPair(s, r)
  {
    if PairRejection(s, r).Some? then PairRejection(s, r)
    else ConflictRejection(s.contacts[r.keepId], s.contacts[r.mergeId], s.definitions, r.resolutions)
  }

  function Applied(s: Store, r: Request, policy: Option<string>, hasPhotoDir: bool): Store
    requires r.keepId in s.contacts && r.mergeId in s.contacts
  {
    var keeper, loser := s.contacts[r.keepId], s.contacts[r.mergeId];
    Store(s.contacts[r.keepId := KeeperAfter(keeper, loser, policy, r.resolutions)][r.mergeId := LoserAfter(loser)],
          Repointed(s.rows, r.keepId, r.mergeId), s.definitions,
          if hasPhotoDir && !AdoptsPhoto(keeper, loser) then s.files - PhotoFiles(loser) else s.files)
  }

  function Merged(s: Store, r: Request, hasPhotoDir: bool): Store {
    if Rejection(s, r).Some? then s
    else
      var policy := SurvivingPolicy(s.contacts[r.keepId], s.contacts[r.mergeId], r.resolutions).value;
      Applied(s, r, policy, hasPhotoDir)
  }

  // What one merge does

  lemma {:induction false} MissingNone(conflicts: seq<string>, resolutions: map<string, string>)
    ensures Missing(conflicts, resolutions) == [] <==> forall f :: f in conflicts ==> f in resolutions
  {
    if conflicts != [] {
      var n := |conflicts| - 1;
      MissingNone(conflicts[..n], resolutions);
      assert conflicts == conflicts[..n] + [conflicts[n]];
    }
  }

  lemma {:induction false} ScalarConflictsExact(keeper: Contact, loser: Contact, keys: seq<string>, key: string)
    ensures key in ScalarConflicts(keeper, loser, keys) <==> key in keys && FieldConflicts(keeper, loser, key)
  {
    hide FieldConflicts;
    if keys != [] {
      var n := |keys| - 1;
      ScalarConflictsExact(keeper, loser, keys[..n], key);
      assert keys == keys[..n] + [keys[n]];
    }
  }

  lemma {:induction false} ValueConflictsExact(keeper: Contact, loser: Contact, definitions: seq<string>, d: string)
    ensures d in ValueConflicts(keeper, loser, definitions)
            <==> d in definitions && d in keeper.values && d in loser.values
  {
    if definitions != [] {
      var n := |definitions| - 1;
      ValueConflictsExact(keeper, loser, definitions[..n], d);
      assert definitions == definitions[..n] + [definitions[n]];
    }
  }

  /** The conflicts that are reported, and those still to decide, in order. */
  lemma {:induction false} ConflictsInOrder(keeper: Contact, loser: Contact, keys: seq<string>)
    ensures Firsts(keys, (k: string) => FieldConflicts(keeper, loser, k), Never, ScalarConflicts(keeper, loser, keys))
    ensures Firsts(keys, (d: string) => d in keeper.values && d in loser.values, Never,
                   ValueConflicts(keeper, loser, keys))
  {
    hide FieldConflicts, FirstsAt;
    var conflicts, both := (k: string) => FieldConflicts(keeper, loser, k),
                           (d: string) => d in keeper.values && d in loser.values;
    if keys == [] {
      NoFirsts(conflicts, Never);
      NoFirsts(both, Never);
      assert FirstsAt([], conflicts, Never, [], []) && FirstsAt([], both, Never, [], []);
    } else {
      var n := |keys| - 1;
      ConflictsInOrder(keeper, loser, keys[..n]);
      FilterGrows(keys, conflicts, ScalarConflicts(keeper, loser, keys[..n]));
      FilterGrows(keys, both, ValueConflicts(keeper, loser, keys[..n]));
    }
  }

  lemma FilterGrows(keys: seq<string>, counts: string -> bool, before: seq<string>)
    requires keys != [] && Firsts(keys[..|keys| - 1], counts, Never, before)
    ensures var last := keys[|keys| - 1];
            Firsts(keys, counts, Never, if counts(last) then before + [last] else before)
  {
    hide FirstsAt;
    var n := |keys| - 1;
    var places :| FirstsAt(keys[..n], counts, Never, before, places);
    FirstsGrow(keys[..n], keys[n], counts, Never, before, places);
    assert keys == keys[..n] + [keys[n]];
  }

  lemma {:induction false} MissingInOrder(conflicts: seq<string>, resolutions: map<string, string>)
    ensures Firsts(conflicts, (f: string) => f !in resolutions, Never, Missing(conflicts, resolutions))
  {
    hide FirstsAt;
    var open := (f: string) => f !in resolutions;
    if conflicts == [] {
      NoFirsts(open, Never);
      assert FirstsAt([], open, Never, [], []);
    } else {
      var n := |conflicts| - 1;
      MissingInOrder(conflicts[..n], resolutions);
      FilterGrows(conflicts, open, Missing(conflicts[..n], resolutions));
    }
  }

  /** A refused merge names what is wrong: equal ids, a contact that is not the caller's, or what is undecided. */
  lemma RefusalExactly(s: Store, r: Request)
    ensures var e := Rejection(s, r);
            && (e == Some(SameContact) <==> r.keepId == r.mergeId)
            && (r.keepId != r.mergeId && !Owned(s, r.user, r.keepId) ==> e == Some(NotFound(r.keepId)))
            && (r.keepId != r.mergeId && Owned(s, r.user, r.keepId) && !Owned(s, r.user, r.mergeId)
                ==> e == Some(NotFound(r.mergeId)))
            && (e.Some? && e.value.Unresolved? ==>
                  IsPair(s, r) && e.value.fields != [] && forall f :: f in e.value.fields ==> f !in r.resolutions)
            && (e == Some(NeitherPolicy) ==>
                  IsPair(s, r) && CADENCE in r.resolutions
                  && Some(r.resolutions[CADENCE]) !in {s.contacts[r.keepId].cadence, s.contacts[r.mergeId].cadence})
  {
    hide MergeKeys, ConflictKeys, ScalarConflicts, ValueConflicts, Missing, Conflicting, Scalar;
    if IsPair(s, r) {
      var keeper, loser := s.contacts[r.keepId], s.contacts[r.mergeId];
      var conflicts := Conflicts(keeper, loser, s.definitions);
      MissingNone(conflicts, r.resolutions);
      MissingIsOpen(conflicts, r.resolutions);
      ScalarConflictsExact(keeper, loser, ConflictKeys(), CADENCE);
    }
  }

  lemma {:induction false} MissingIsOpen(conflicts: seq<string>, resolutions: map<string, string>)
    ensures forall f :: f in Missing(conflicts, resolutions) ==> f !in resolutions
  {
    if conflicts != [] {
      MissingIsOpen(conflicts[..|conflicts| - 1], resolutions);
    }
  }

  /**
   * A merge goes through exactly when both contacts are the caller's, live and distinct, and every conflict
   * is decided.
   */
  lemma AcceptedExactly(s: Store, r: Request)
    ensures Rejection(s, r) == None
            <==> && r.keepId != r.mergeId && r.keepId in s.contacts && r.mergeId in s.contacts
                 && var keeper, loser := s.contacts[r.keepId], s.contacts[r.mergeId];
                    && keeper.user == r.user && loser.user == r.user && !keeper.deleted && !loser.deleted
                    && (forall k :: k in MergeKeys() && Conflicting(Scalar(keeper, k), Scalar(loser, k)) ==>
                          k in r.resolutions)
                    && (forall d :: d in s.definitions && d in keeper.values && d in loser.values ==>
                          d in r.resolutions)
                    && (PoliciesDiffer(keeper, loser)
                        ==> CADENCE in r.resolutions
                            && r.resolutions[CADENCE] in {keeper.cadence.value, loser.cadence.value})
  {
    hide MergeKeys, ConflictKeys, Missing, ScalarConflicts, ValueConflicts, Conflicting, Scalar;
    if r.keepId != r.mergeId && Owned(s, r.user, r.keepId) && Owned(s, r.user, r.mergeId) {
      var keeper, loser := s.contacts[r.keepId], s.contacts[r.mergeId];
      MissingNone(Conflicts(keeper, loser, s.definitions), r.resolutions);
      forall k ensures k in ScalarConflicts(keeper, loser, ConflictKeys())
                       <==> k in ConflictKeys() && FieldConflicts(keeper, loser, k) {
        ScalarConflictsExact(keeper, loser, ConflictKeys(), k);
      }
      forall d ensures d in ValueConflicts(keeper, loser, s.definitions)
                       <==> d in s.definitions && d in keeper.values && d in loser.values {
        ValueConflictsExact(keeper, loser, s.definitions, d);
      }
    }
  }

  /** Every custom value belongs to a known definition. */
  ghost predicate ValuesDefined(s: Store) {
    forall id :: id in s.contacts ==> forall d :: d in s.contacts[id].values ==> d in s.definitions
  }

  /** The keeper takes the caller's pick for every conflict and otherwise loses no value of either contact. */
  lemma KeeperHasEverything(s: Store, r: Request, hasPhotoDir: bool)
    requires Rejection(s, r) == None && ValuesDefined(s)
    ensures var keeper, loser := s.contacts[r.keepId], s.contacts[r.mergeId];
            var after := Merged(s, r, hasPhotoDir).contacts[r.keepId];
            && (forall k :: k in MergeKeys() ==>
                  var a, b, x := Scalar(keeper, k), Scalar(loser, k), Scalar(after, k);
                  (a == "" || a == b ==> x == b) && (b == "" ==> x == a)
                  && (a != b && a != "" && b != "" ==> k in r.resolutions && x == r.resolutions[k]))
            && (forall k :: k !in MergeKeys() ==> Scalar(after, k) == Scalar(keeper, k))
            && after.values.Keys == keeper.values.Keys + loser.values.Keys
            && (forall d :: d in after.values ==>
                  if d in keeper.values && d in loser.values
                  then d in r.resolutions && after.values[d] == r.resolutions[d]
                  else after.values[d] == if d in keeper.values then keeper.values[d] else loser.values[d])
            && after.cadence in {keeper.cadence, loser.cadence}
            && (after.cadence == None ==> keeper.cadence == None && loser.cadence == None)
            && after.photo == (if keeper.photo != "" then keeper.photo else loser.photo)
            && after.thumbnail
               == (if keeper.photo == "" && loser.photo != "" then loser.thumbnail else keeper.thumbnail)
            && (PoliciesDiffer(keeper, loser) ==>
                  CADENCE in r.resolutions && after.cadence == Some(r.resolutions[CADENCE]))
            && after.groups == keeper.groups + loser.groups
            && after.user == keeper.user && !after.deleted
  {
    AcceptedExactly(s, r);
    hide MergeKeys, Missing, ScalarConflicts, ValueConflicts;
    var keeper, loser := s.contacts[r.keepId], s.contacts[r.mergeId];
    var after := Merged(s, r, hasPhotoDir).contacts[r.keepId];
    assert after.scalars == ResolvedScalars(keeper, loser, r.resolutions);
    forall k ensures k in MergeKeys() ==>
        Scalar(after, k) == Resolved(k, Scalar(keeper, k), Scalar(loser, k), r.resolutions)
             ensures k !in MergeKeys() ==> Scalar(after, k) == Scalar(keeper, k) {
    }
  }

  /** What the keeper's row says of a field, whether or not it is there. */
  lemma KeeperScalarsExactly(s: Store, r: Request, hasPhotoDir: bool, key: string)
    requires Rejection(s, r) == None && key in MergeKeys()
    ensures var keeper, loser := s.contacts[r.keepId].scalars, s.contacts[r.mergeId].scalars;
            var a, b := if key in keeper then keeper[key] else "", if key in loser then loser[key] else "";
            var after := Merged(s, r, hasPhotoDir).contacts[r.keepId].scalars;
            && key in after
            && (a == b || a == "" || b == "" ==> after[key] == if a != "" then a else b)
            && (a != b && a != "" && b != "" ==> key in r.resolutions && after[key] == r.resolutions[key])
  {
    AcceptedExactly(s, r);
    hide MergeKeys, Missing, ScalarConflicts, ValueConflicts, RepointedValues, MergedLists;
    var keeper, loser := s.contacts[r.keepId], s.contacts[r.mergeId];
    var after := Merged(s, r, hasPhotoDir).contacts[r.keepId];
    assert after.scalars == ResolvedScalars(keeper, loser, r.resolutions);
  }

  /** The contact that is merged stays as a deleted row, without values, cadence or groups. */
  lemma LoserIsEmptied(s: Store, r: Request, hasPhotoDir: bool)
    requires Rejection(s, r) == None
    ensures var loser, after := s.contacts[r.mergeId], Merged(s, r, hasPhotoDir).contacts[r.mergeId];
            && after.deleted && after.values == map[] && after.cadence == None && after.groups == {}
            && after == loser.(deleted := true, values := map[], cadence := None, groups := {})
  {
    hide Missing, Conflicts, SurvivingPolicy, KeeperAfter, PhotoFiles, Repointed;
  }

  /** A row of the merged contact goes to the keeper, unless it is a sync link, which is deleted; no other moves. */
  lemma RowsAfterMerge(s: Store, r: Request, hasPhotoDir: bool, n: RowId)
    requires Rejection(s, r) == None
    ensures var rows := Merged(s, r, hasPhotoDir).rows;
            && (n in rows <==> n in s.rows && !(s.rows[n] == r.mergeId && n.table == "contact_sync_links"))
            && (n in rows ==> rows[n] == if s.rows[n] == r.mergeId then r.keepId else s.rows[n])
  {
    hide Missing, Conflicts, SurvivingPolicy, KeeperAfter, PhotoFiles;
  }

  /** A file the row of a contact names: its photo, or its thumbnail unless that is inline. */
  predicate IsFileOf(c: Contact, file: string) {
    file != "" && (file == c.photo || (file == c.thumbnail && !HasPrefix(file, "data:")))
  }

  lemma PhotoFilesAre(c: Contact, file: string)
    ensures file in PhotoFiles(c) <==> IsFileOf(c, file)
  {
  }

  /** The files that go with a merge: those of the merged contact, unless the keeper has taken over its photo. */
  lemma FilesAfterMerge(s: Store, r: Request, hasPhotoDir: bool, file: string)
    requires Rejection(s, r) == None
    ensures var keeper, loser := s.contacts[r.keepId], s.contacts[r.mergeId];
            file in Merged(s, r, hasPhotoDir).files
            <==> file in s.files
                 && !(hasPhotoDir && IsFileOf(loser, file) && !(keeper.photo == "" && loser.photo != ""))
  {
    hide Missing, Conflicts, SurvivingPolicy, KeeperAfter, PhotoFiles, Repointed, IsFileOf;
    PhotoFilesAre(s.contacts[r.mergeId], file);
  }

  /** Definitions and contacts other than the two are as before. */
  lemma MergeLeavesOthers(s: Store, r: Request, hasPhotoDir: bool)
    ensures var s' := Merged(s, r, hasPhotoDir);
            && s'.definitions == s.definitions && s'.contacts.Keys == s.contacts.Keys
            && (Rejection(s, r).Some? ==> s' == s)
            && forall id :: id in s.contacts && id != r.keepId && id != r.mergeId ==> s'.contacts[id] == s.contacts[id]
  {
    hide Missing, Conflicts, SurvivingPolicy, KeeperAfter, PhotoFiles, Repointed;
  }

  /** The keeper's lists are its own entries and then the other's, but for those that are the same as an earlier one. */
  lemma KeeperHasEveryEntry(s: Store, r: Request, hasPhotoDir: bool)
    requires Rejection(s, r) == None
    ensures var keeper, loser := s.contacts[r.keepId].lists, s.contacts[r.mergeId].lists;
            var after := Merged(s, r, hasPhotoDir).contacts[r.keepId].lists;
            && Firsts(keeper.emails + loser.emails, Any, SameText, after.emails)
            && Firsts(keeper.phones + loser.phones, Any, SameNumber, after.phones)
            && Firsts(keeper.addresses + loser.addresses, Any, SameAddressText, after.addresses)
            && Firsts(keeper.urls + loser.urls, Any, SameText, after.urls)
            && Firsts(keeper.impps + loser.impps, Any, SameText, after.impps)
            && Firsts(keeper.circles + loser.circles, NotBlank, SameCircle, after.circles)
  {
    hide Missing, Conflicts, SurvivingPolicy, ResolvedScalars, RepointedValues, Repointed, MergedLists, Firsts;
    MergedListsAreFirsts(s.contacts[r.keepId].lists, s.contacts[r.mergeId].lists);
  }

  // Runs

  datatype Loss = Loss(loser: nat, keeper: nat)

  /** Where a row was last put, and how many merges there had been. */
  datatype Placement = Placement(contact: nat, at: nat)

  datatype World = World(store: Store, losses: seq<Loss>, placed: map<RowId, Placement>)

  datatype Step =
    | Create(id: nat, user: nat)
    | Merge(request: Request, hasPhotoDir: bool)
    | Delete(user: nat, id: nat, hasPhotoDir: bool)
    | Upload(user: nat, id: nat, photo: string, thumbnail: string)
    | Put(row: RowId, user: nat, id: nat)
    | SetValues(user: nat, id: nat, values: map<string, string>)
    | Define(definition: string, at: nat)
    | Undefine(definition: string)

  function Deleted(s: Store, user: nat, id: nat, hasPhotoDir: bool): Store {
    if Owned(s, user, id) then
      Store(s.contacts[id := LoserAfter(s.contacts[id])], map n | n in s.rows && s.rows[n] != id :: s.rows[n],
            s.definitions, if hasPhotoDir then s.files - PhotoFiles(s.contacts[id]) else s.files)
    else s
  }

  /** Uploads are stored under new names, with an inline thumbnail; the file of the photo before goes. */
  predicate NewPhoto(s: Store, photo: string, thumbnail: string) {
    photo != "" && photo !in s.files && (thumbnail == "" || HasPrefix(thumbnail, "data:"))
  }

  function Uploaded(s: Store, user: nat, id: nat, photo: string, thumbnail: string): Store {
    if Owned(s, user, id) && NewPhoto(s, photo, thumbnail) then
      s.(contacts := s.contacts[id := s.contacts[id].(photo := photo, thumbnail := thumbnail)],
         files := s.files + {photo} - (if s.contacts[id].photo != "" then {s.contacts[id].photo} else {}))
    else s
  }

  /** A contact's custom values are replaced; a payload with an unknown definition is rejected. */
  function WithValues(s: Store, user: nat, id: nat, values: map<string, string>): Store {
    if Owned(s, user, id) && forall d :: d in values ==> d in s.definitions then
      s.(contacts := s.contacts[id := s.contacts[id].(values := values)])
    else s
  }

  /** A deleted definition takes its values with it. */
  function Undefined(s: Store, d: string): Store {
    s.(definitions := Without(s.definitions, d),
       contacts := map id | id in s.contacts :: s.contacts[id].(values := s.contacts[id].values - {d}))
  }

  function Without(definitions: seq<string>, d: string): (r: seq<string>)
    ensures forall x :: x in r <==> x in definitions && x != d
  {
    if definitions == [] then []
    else if definitions[0] == d then Without(definitions[1..], d)
    else [definitions[0]] + Without(definitions[1..], d)
  }

  /** What a delete and an upload leave, of the caller's own live contact. */
  lemma DeleteAndUploadExactly(s: Store, user: nat, id: nat, hasPhotoDir: bool, photo: string, thumbnail: string)
    requires id in s.contacts && s.contacts[id].user == user && !s.contacts[id].deleted
    ensures var c, s' := s.contacts[id], Deleted(s, user, id, hasPhotoDir);
            && s'.contacts == s.contacts[id := c.(deleted := true, values := map[], cadence := None, groups := {})]
            && (forall n :: n in s'.rows <==> n in s.rows && s.rows[n] != id)
            && (forall n :: n in s'.rows ==> s'.rows[n] == s.rows[n]) && s'.definitions == s.definitions
            && forall f :: f in s'.files <==> f in s.files && !(hasPhotoDir && IsFileOf(c, f))
    ensures NewPhoto(s, photo, thumbnail) ==>
              var c, s' := s.contacts[id], Uploaded(s, user, id, photo, thumbnail);
              && s'.contacts == s.contacts[id := c.(photo := photo, thumbnail := thumbnail)]
              && s'.rows == s.rows && s'.definitions == s.definitions
              && forall f :: f in s'.files <==> (f in s.files || f == photo) && (f != c.photo || c.photo == "")
  {
    hide HasPrefix, PhotoFiles, IsFileOf;
    forall f ensures f in PhotoFiles(s.contacts[id]) <==> IsFileOf(s.contacts[id], f) {
      PhotoFilesAre(s.contacts[id], f);
    }
  }

  function Next(w: World, step: Step): World {
    match step
    case Create(id, user) =>
      if id in w.store.contacts then w
      else
        var c := Contact(user, false, "", "", map[], NO_LISTS, map[], None, {});
        w.(store := w.store.(contacts := w.store.contacts[id := c]))
    case Merge(r, hasPhotoDir) =>
      World(Merged(w.store, r, hasPhotoDir),
            if Rejection(w.store, r).None? then w.losses + [Loss(r.mergeId, r.keepId)] else w.losses, w.placed)
    case Delete(user, id, hasPhotoDir) => w.(store := Deleted(w.store, user, id, hasPhotoDir))
    case Upload(user, id, photo, thumbnail) => w.(store := Uploaded(w.store, user, id, photo, thumbnail))
    case Put(row, user, id) =>
      if Owned(w.store, user, id) then
        w.(store := w.store.(rows := w.store.rows[row := id]), placed := w.placed[row := Placement(id, |w.losses|)])
      else w
    case SetValues(user, id, values) => w.(store := WithValues(w.store, user, id, values))
    case Define(d, at) =>
      if d in w.store.definitions || at > |w.store.definitions| then w
      else w.(store := w.store.(definitions := w.store.definitions[..at] + [d] + w.store.definitions[at..]))
    case Undefine(d) => w.(store := Undefined(w.store, d))
  }

  function Run(w: World, steps: seq<Step>): World
    decreases |steps|
  {
    if steps == [] then w else Run(Next(w, steps[0]), steps[1..])
  }

  /** Each contact loses at most once, is gone from then on, and never keeps another one afterwards. */
  ghost predicate Forest(losses: seq<Loss>) {
    && (forall i :: 0 <= i < |losses| ==> losses[i].keeper != losses[i].loser)
    && forall i, j :: 0 <= i < j < |losses| ==>
        losses[i].loser != losses[j].loser && losses[j].keeper != losses[i].loser
  }

  ghost predicate LosersAreGone(w: World) {
    forall i :: 0 <= i < |w.losses| ==> Gone(w.store, w.losses[i].loser)
  }

  ghost predicate Inv(w: World) {
    Forest(w.losses) && LosersAreGone(w)
  }

  predicate Gone(s: Store, id: nat) {
    id in s.contacts && s.contacts[id].deleted
  }

  /** What a step does to a contact's life: a deleted contact stays deleted. */
  lemma GoneStaysOnce(w: World, step: Step, id: nat)
    requires Gone(w.store, id)
    ensures Gone(Next(w, step).store, id)
  {
    hide Missing, Conflicts, SurvivingPolicy, KeeperAfter, PhotoFiles, Repointed;
  }

  lemma StepKeepsInv(w: World, step: Step)
    requires Inv(w)
    ensures Inv(Next(w, step))
  {
    hide KeeperAfter, PhotoFiles, Repointed, Missing, Conflicts, SurvivingPolicy;
    var w', n := Next(w, step), |w.losses|;
    forall i | 0 <= i < n ensures Gone(w'.store, w.losses[i].loser) {
      GoneStaysOnce(w, step, w.losses[i].loser);
    }
    if step.Merge? && Rejection(w.store, step.request).None? {
      var r := step.request;
      assert w'.losses == w.losses + [Loss(r.mergeId, r.keepId)];
      assert Live(w.store, r.keepId) && Live(w.store, r.mergeId);
      forall i | 0 <= i < n ensures w.losses[i].loser != r.mergeId && w.losses[i].loser != r.keepId {
        assert Gone(w.store, w.losses[i].loser);
      }
      assert Gone(w'.store, r.mergeId);
    } else {
      assert w'.losses == w.losses;
    }
    assert Inv(w');
  }

  lemma {:induction false} RunKeepsInv(w: World, steps: seq<Step>)
    requires Inv(w)
    ensures Inv(Run(w, steps))
    decreases |steps|
  {
    hide Inv, Next;
    if steps != [] {
      StepKeepsInv(w, steps[0]);
      RunKeepsInv(Next(w, steps[0]), steps[1..]);
    }
  }

  lemma {:induction false} GoneStays(w: World, steps: seq<Step>, id: nat)
    requires Gone(w.store, id)
    ensures Gone(Run(w, steps).store, id)
    decreases |steps|
  {
    hide Next, Gone;
    if steps != [] {
      GoneStaysOnce(w, steps[0], id);
      GoneStays(Next(w, steps[0]), steps[1..], id);
    }
  }

  /** A chain of "merged into" links. */
  ghost predicate Chain(losses: seq<Loss>, path: seq<nat>) {
    forall k :: 0 <= k < |path| - 1 ==> Loss(path[k], path[k + 1]) in losses
  }

  /** When a contact lost, or the end of time if it never did. */
  function LostAt(losses: seq<Loss>, id: nat): (t: nat)
    ensures t <= |losses|
    ensures t < |losses| ==> losses[t].loser == id
    ensures forall i :: 0 <= i < t ==> losses[i].loser != id
  {
    if losses == [] then 0
    else if losses[0].loser == id then 0
    else 1 + LostAt(losses[1..], id)
  }

  lemma {:induction false} ChainGoesForward(losses: seq<Loss>, path: seq<nat>, j: nat, k: nat)
    requires Forest(losses) && Chain(losses, path)
    requires j < k < |path|
    ensures LostAt(losses, path[j]) < LostAt(losses, path[k])
  {
    assert Loss(path[k - 1], path[k - 1 + 1]) in losses;
    var i :| 0 <= i < |losses| && losses[i] == Loss(path[k - 1], path[k]);
    assert LostAt(losses, path[k - 1]) == i;
    assert forall h :: 0 <= h <= i ==> losses[h].loser != path[k];
    if j < k - 1 {
      ChainGoesForward(losses, path, j, k - 1);
    }
  }

  /** The contact a chain of merges ends at. */
  function Survivor(losses: seq<Loss>, id: nat): nat {
    if losses == [] then id
    else Survivor(losses[1..], if losses[0].loser == id then losses[0].keeper else id)
  }

  lemma ForestTail(losses: seq<Loss>)
    requires Forest(losses) && losses != []
    ensures Forest(losses[1..])
  {
    assert forall i :: 0 <= i < |losses| - 1 ==> losses[1..][i] == losses[i + 1];
  }

  lemma {:induction false} ChainToSurvivor(losses: seq<Loss>, id: nat) returns (path: seq<nat>)
    requires Forest(losses)
    ensures path != [] && path[0] == id && path[|path| - 1] == Survivor(losses, id) && Chain(losses, path)
  {
    if losses == [] {
      path := [id];
    } else {
      ForestTail(losses);
      var first := losses[0];
      if first.loser == id {
        var rest := ChainToSurvivor(losses[1..], first.keeper);
        path := [id] + rest;
      } else {
        path := ChainToSurvivor(losses[1..], id);
      }
    }
  }

  lemma {:induction false} SurvivorAvoids(losses: seq<Loss>, id: nat, x: nat)
    requires id != x && forall i :: 0 <= i < |losses| ==> losses[i].keeper != x
    ensures Survivor(losses, id) != x
  {
    if losses != [] {
      SurvivorAvoids(losses[1..], if losses[0].loser == id then losses[0].keeper else id, x);
    }
  }

  lemma {:induction false} SurvivorNeverLost(losses: seq<Loss>, id: nat)
    requires Forest(losses)
    ensures forall i :: 0 <= i < |losses| ==> losses[i].loser != Survivor(losses, id)
  {
    if losses != [] {
      ForestTail(losses);
      var next := if losses[0].loser == id then losses[0].keeper else id;
      SurvivorNeverLost(losses[1..], next);
      SurvivorAvoids(losses[1..], next, losses[0].loser);
      forall i | 0 <= i < |losses| ensures losses[i].loser != Survivor(losses, id) {
        if i > 0 {
          assert losses[1..][i - 1] == losses[i];
        }
      }
    }
  }

  /**
   * In any run the "merged into" links form a forest: no chain of them visits a contact twice, each contact
   * is merged into at most one other, and from any contact a chain leads to one that never lost a merge.
   */
  lemma MergesFormAForest(w: World, steps: seq<Step>, id: nat) returns (path: seq<nat>)
    requires w.losses == []
    ensures var losses := Run(w, steps).losses;
            && (forall p: seq<nat>, j: nat, k: nat :: Chain(losses, p) && j < k < |p| ==> p[j] != p[k])
            && (forall a, b :: a in losses && b in losses && a.loser == b.loser ==> a == b)
            && path != [] && path[0] == id && Chain(losses, path)
            && forall l :: l in losses ==> l.loser != path[|path| - 1]
  {
    RunKeepsInv(w, steps);
    hide Run, LostAt;
    var losses := Run(w, steps).losses;
    forall p: seq<nat>, j: nat, k: nat | Chain(losses, p) && j < k < |p| ensures p[j] != p[k] {
      ChainGoesForward(losses, p, j, k);
    }
    path := ChainToSurvivor(losses, id);
    SurvivorNeverLost(losses, id);
  }

  function LiveIds(s: Store): set<nat> {
    set id | id in s.contacts && !s.contacts[id].deleted
  }

  /** A merge removes exactly one live contact, and no other contact than the two changes. */
  lemma OneContactGoes(s: Store, r: Request, hasPhotoDir: bool)
    requires Rejection(s, r) == None
    ensures var s' := Merged(s, r, hasPhotoDir);
            && r.mergeId in LiveIds(s) && LiveIds(s') == LiveIds(s) - {r.mergeId} && |LiveIds(s')| == |LiveIds(s)| - 1
            && s'.contacts.Keys == s.contacts.Keys
            && forall id :: id in s.contacts && id != r.keepId && id != r.mergeId ==> s'.contacts[id] == s.contacts[id]
  {
    hide Missing, Conflicts, SurvivingPolicy, KeeperAfter, PhotoFiles, Repointed, AdoptsPhoto;
    var keeper, loser := s.contacts[r.keepId], s.contacts[r.mergeId];
    KeeperLives(keeper, loser, SurvivingPolicy(keeper, loser, r.resolutions).value, r.resolutions);
    OneIdGoes(s, Merged(s, r, hasPhotoDir), r.mergeId);
  }

  lemma OneIdGoes(s: Store, s': Store, gone: nat)
    requires Live(s, gone) && forall id :: Live(s', id) <==> Live(s, id) && id != gone
    ensures gone in LiveIds(s) && LiveIds(s') == LiveIds(s) - {gone} && |LiveIds(s')| == |LiveIds(s)| - 1
  {
    assert forall id :: id in LiveIds(s) <==> Live(s, id);
    assert forall id :: id in LiveIds(s') <==> Live(s', id);
    assert LiveIds(s') == LiveIds(s) - {gone};
  }

  /** A pair that has been merged is refused ever after, either way round, with nothing changed. */
  lemma RepeatIsRefused(w: World, r: Request, hasPhotoDir: bool, steps: seq<Step>, again: Request)
    requires Rejection(w.store, r) == None
    requires {again.keepId, again.mergeId} == {r.keepId, r.mergeId}
    ensures var w' := Run(Next(w, Merge(r, hasPhotoDir)), steps);
            && Rejection(w'.store, again).Some? && Rejection(w'.store, again).value.NotFound?
            && Merged(w'.store, again, hasPhotoDir) == w'.store
  {
    hide Missing, Conflicts, SurvivingPolicy, KeeperAfter, PhotoFiles, Repointed, Run;
    var w1 := Next(w, Merge(r, hasPhotoDir));
    assert Gone(w1.store, r.mergeId);
    GoneStays(w1, steps, r.mergeId);
    assert again.keepId in {r.keepId, r.mergeId} && again.mergeId in {r.keepId, r.mergeId};
    assert r.keepId in {again.keepId, again.mergeId} && r.mergeId in {again.keepId, again.mergeId};
  }

  // Rows

  /** Every row is where the merges since it was last put have taken it, and that contact is live. */
  ghost predicate RowPlaced(w: World, n: RowId) {
    && n in w.placed && w.placed[n].at <= |w.losses|
    && n in w.store.rows && w.store.rows[n] == Survivor(w.losses[w.placed[n].at..], w.placed[n].contact)
    && Live(w.store, w.store.rows[n])
  }

  ghost predicate RowsPlaced(w: World) {
    forall n :: n in w.store.rows ==> RowPlaced(w, n)
  }

  lemma {:induction false} SurvivorAppend(losses: seq<Loss>, last: Loss, id: nat)
    ensures Survivor(losses + [last], id)
            == if Survivor(losses, id) == last.loser then last.keeper else Survivor(losses, id)
  {
    if losses != [] {
      assert (losses + [last])[1..] == losses[1..] + [last];
      SurvivorAppend(losses[1..], last, if losses[0].loser == id then losses[0].keeper else id);
    } else {
      assert (losses + [last])[1..] == [];
    }
  }

  lemma MergePlacesRow(w: World, r: Request, hasPhotoDir: bool, n: RowId)
    requires RowsPlaced(w) && Rejection(w.store, r).None?
    ensures n in w.store.rows && n.table != SYNC_LINKS ==> n in Merged(w.store, r, hasPhotoDir).rows
    ensures n in Merged(w.store, r, hasPhotoDir).rows
            ==> n in w.store.rows && RowPlaced(Next(w, Merge(r, hasPhotoDir)), n)
  {
    hide Missing, Conflicts, SurvivingPolicy, KeeperAfter, PhotoFiles, Survivor;
    if n in Merged(w.store, r, hasPhotoDir).rows {
      assert RowPlaced(w, n);
      var loss, p := Loss(r.mergeId, r.keepId), w.placed[n];
      var keeper, loser := w.store.contacts[r.keepId], w.store.contacts[r.mergeId];
      SurvivorAppend(w.losses[p.at..], loss, p.contact);
      assert (w.losses + [loss])[p.at..] == w.losses[p.at..] + [loss];
      KeeperLives(keeper, loser, SurvivingPolicy(keeper, loser, r.resolutions).value, r.resolutions);
    }
  }

  lemma MergePlacesRows(w: World, r: Request, hasPhotoDir: bool)
    requires RowsPlaced(w) && Rejection(w.store, r).None?
    ensures RowsPlaced(Next(w, Merge(r, hasPhotoDir)))
  {
    var w' := Next(w, Merge(r, hasPhotoDir));
    hide Merged, Rejection, RowPlaced;
    forall n | n in w'.store.rows ensures RowPlaced(w', n) {
      MergePlacesRow(w, r, hasPhotoDir, n);
    }
  }

  lemma RefusedMerge(s: Store, r: Request, hasPhotoDir: bool)
    requires Rejection(s, r).Some?
    ensures Merged(s, r, hasPhotoDir) == s
  {
  }

  /** Steps that move no row and end no contact with rows. */
  lemma SameRowsArePlaced(w: World, w': World)
    requires RowsPlaced(w) && w'.losses == w.losses && w'.placed == w.placed
    requires forall n :: n in w'.store.rows ==> n in w.store.rows && w'.store.rows[n] == w.store.rows[n]
    requires forall n :: n in w'.store.rows ==> Live(w.store, w.store.rows[n]) ==> Live(w'.store, w.store.rows[n])
    ensures RowsPlaced(w')
  {
    hide Survivor, Live;
    forall n | n in w'.store.rows ensures RowPlaced(w', n) {
      assert RowPlaced(w, n);
    }
  }

  lemma PutPlacesRow(w: World, row: RowId, user: nat, id: nat)
    requires RowsPlaced(w)
    ensures RowsPlaced(Next(w, Put(row, user, id)))
  {
    var w' := Next(w, Put(row, user, id));
    forall n | n in w'.store.rows ensures RowPlaced(w', n) {
      if n == row && Owned(w.store, user, id) {
        assert w.losses[|w.losses|..] == [];
      } else {
        assert RowPlaced(w, n);
      }
    }
  }

  lemma OtherStepsMoveNoRow(w: World, step: Step)
    requires !step.Merge? && !step.Put?
    ensures var w' := Next(w, step);
            && w'.losses == w.losses && w'.placed == w.placed
            && forall n :: n in w'.store.rows ==>
                 && n in w.store.rows && w'.store.rows[n] == w.store.rows[n]
                 && (Live(w.store, w.store.rows[n]) ==> Live(w'.store, w.store.rows[n]))
  {
    hide Merged, PhotoFiles, NewPhoto, Without;
  }

  lemma StepPlacesRows(w: World, step: Step)
    requires RowsPlaced(w)
    ensures RowsPlaced(Next(w, step))
  {
    hide Survivor, Rejection, RowsPlaced, Live, Merged, Deleted, Uploaded, WithValues, Undefined;
    var w' := Next(w, step);
    match step
    case Merge(r, hasPhotoDir) =>
      if Rejection(w.store, r).None? {
        MergePlacesRows(w, r, hasPhotoDir);
      } else {
        RefusedMerge(w.store, r, hasPhotoDir);
        SameRowsArePlaced(w, w');
      }
    case Put(row, user, id) => PutPlacesRow(w, row, user, id);
    case _ =>
      OtherStepsMoveNoRow(w, step);
      SameRowsArePlaced(w, w');
  }

  /** Only a delete loses a row, and a merge a sync link; a row that is not put anywhere keeps its placement. */
  lemma StepKeepsRow(w: World, step: Step, n: RowId)
    requires RowsPlaced(w)
    ensures n in w.store.rows && n.table != SYNC_LINKS && !step.Delete? ==> n in Next(w, step).store.rows
    ensures (step.Put? ==> step.row != n)
            ==> (n in Next(w, step).store.rows ==> n in w.store.rows)
                && (n in w.placed ==> n in Next(w, step).placed && Next(w, step).placed[n] == w.placed[n])
  {
    hide RowsPlaced, Rejection, PhotoFiles, NewPhoto;
    if step.Merge? && Rejection(w.store, step.request).None? {
      MergePlacesRow(w, step.request, step.hasPhotoDir, n);
    }
  }

  /** No step of the run puts the row anywhere. */
  ghost predicate NeverPut(steps: seq<Step>, n: RowId) {
    forall step :: step in steps && step.Put? ==> step.row != n
  }

  ghost predicate NoDelete(steps: seq<Step>) {
    forall step :: step in steps ==> !step.Delete?
  }

  lemma {:induction false} RunPlacesRows(w: World, steps: seq<Step>, n: RowId)
    requires RowsPlaced(w)
    ensures RowsPlaced(Run(w, steps))
    ensures n in w.store.rows && n.table != SYNC_LINKS && NoDelete(steps) ==> n in Run(w, steps).store.rows
    ensures NeverPut(steps, n)
            ==> (n in Run(w, steps).store.rows ==> n in w.store.rows)
                && (n in w.placed ==> n in Run(w, steps).placed && Run(w, steps).placed[n] == w.placed[n])
    decreases |steps|
  {
    hide RowsPlaced, Next;
    if steps != [] {
      StepPlacesRows(w, steps[0]);
      StepKeepsRow(w, steps[0], n);
      RunPlacesRows(Next(w, steps[0]), steps[1..], n);
    }
  }

  /**
   * Over any run each row sits on a live contact: the one that survives, of all merges since, the contact it
   * was last put on, or was on at the start. Only deletes of contacts lose rows, and merges sync links.
   */
  lemma RowsFollow(s: Store, steps: seq<Step>, n: RowId)
    requires forall m :: m in s.rows ==> Live(s, s.rows[m])
    ensures var w := Run(World(s, [], map m | m in s.rows :: Placement(s.rows[m], 0)), steps);
            && (n in w.store.rows ==> RowPlaced(w, n))
            && (n in w.store.rows && NeverPut(steps, n)
                ==> n in s.rows && w.store.rows[n] == Survivor(w.losses, s.rows[n]))
            && (n in s.rows && n.table != SYNC_LINKS && NoDelete(steps) ==> n in w.store.rows)
  {
    var start := World(s, [], map m | m in s.rows :: Placement(s.rows[m], 0));
    assert RowsPlaced(start);
    hide Run, Survivor;
    RunPlacesRows(start, steps, n);
    var w := Run(start, steps);
    assert w.losses[0..] == w.losses;
  }

  // Photo files

  /** No file is shared by two live contacts, and every file a live contact refers to is on disk. */
  ghost predicate PhotosKept(s: Store) {
    && (forall a, b :: Live(s, a) && Live(s, b) && a != b ==> PhotoFiles(s.contacts[a]) !! PhotoFiles(s.contacts[b]))
    && forall a :: Live(s, a) ==> PhotoFiles(s.contacts[a]) <= s.files
  }

  /** One contact is gone; another has kept its own files or taken over the files of the first. */
  lemma TakenOverFilesAreKept(s: Store, s': Store, keepId: nat, mergeId: nat)
    requires PhotosKept(s) && Live(s, keepId) && Live(s, mergeId) && keepId != mergeId
    requires forall a :: Live(s', a) ==> Live(s, a) && a != mergeId
    requires forall a :: Live(s', a) && a != keepId ==> s'.contacts[a] == s.contacts[a]
    requires Live(s', keepId)
    requires var own, theirs := PhotoFiles(s.contacts[keepId]), PhotoFiles(s.contacts[mergeId]);
             var after := PhotoFiles(s'.contacts[keepId]);
             (after == own && s.files - theirs <= s'.files) || (after == theirs && s.files <= s'.files)
    ensures PhotosKept(s')
  {
    hide PhotoFiles;
  }

  lemma KeeperFiles(keeper: Contact, loser: Contact, policy: Option<string>, resolutions: map<string, string>)
    ensures PhotoFiles(KeeperAfter(keeper, loser, policy, resolutions))
            == if AdoptsPhoto(keeper, loser) then PhotoFiles(loser) else PhotoFiles(keeper)
  {
    hide ResolvedScalars, RepointedValues, HasPrefix;
  }

  lemma MergeKeepsPhotos(s: Store, r: Request, hasPhotoDir: bool)
    requires PhotosKept(s)
    ensures PhotosKept(Merged(s, r, hasPhotoDir))
  {
    hide Missing, Conflicts, SurvivingPolicy, KeeperAfter, PhotoFiles, AdoptsPhoto, PhotosKept, Repointed;
    if Rejection(s, r).None? {
      var keeper, loser := s.contacts[r.keepId], s.contacts[r.mergeId];
      var policy := SurvivingPolicy(keeper, loser, r.resolutions).value;
      KeeperFiles(keeper, loser, policy, r.resolutions);
      KeeperLives(keeper, loser, policy, r.resolutions);
      TakenOverFilesAreKept(s, Merged(s, r, hasPhotoDir), r.keepId, r.mergeId);
    }
  }

  lemma KeeperLives(keeper: Contact, loser: Contact, policy: Option<string>, resolutions: map<string, string>)
    ensures KeeperAfter(keeper, loser, policy, resolutions).deleted == keeper.deleted
  {
    hide ResolvedScalars, RepointedValues;
  }

  lemma UploadKeepsPhotos(s: Store, user: nat, id: nat, photo: string, thumbnail: string)
    requires PhotosKept(s)
    ensures PhotosKept(Uploaded(s, user, id, photo, thumbnail))
  {
    if Owned(s, user, id) && NewPhoto(s, photo, thumbnail) {
      var s', was := Uploaded(s, user, id, photo, thumbnail), s.contacts[id];
      assert PhotoFiles(s'.contacts[id]) == {photo};
      assert was.photo != "" ==> was.photo in PhotoFiles(was) && was.photo in s.files;
      hide PhotoFiles, HasPrefix;
      forall a | Live(s', a) && a != id
        ensures PhotoFiles(s'.contacts[a]) <= s'.files && photo !in PhotoFiles(s'.contacts[a])
      {
        assert Live(s, a) && Live(s, id);
      }
    }
  }

  lemma DeleteKeepsPhotos(s: Store, user: nat, id: nat, hasPhotoDir: bool)
    requires PhotosKept(s)
    ensures PhotosKept(Deleted(s, user, id, hasPhotoDir))
  {
    hide PhotoFiles;
  }

  /** Steps that leave photos and files alone, but for new contacts without a photo. */
  lemma SamePhotosAreKept(s: Store, s': Store)
    requires PhotosKept(s) && s'.files == s.files
    requires forall id :: Live(s', id) ==>
                 PhotoFiles(s'.contacts[id]) == if Live(s, id) then PhotoFiles(s.contacts[id]) else {}
    ensures PhotosKept(s')
  {
    hide PhotoFiles;
  }

  lemma ValuesKeepPhotos(s: Store, user: nat, id: nat, values: map<string, string>)
    requires PhotosKept(s)
    ensures PhotosKept(WithValues(s, user, id, values))
  {
    SamePhotosAreKept(s, WithValues(s, user, id, values));
  }

  lemma UndefineKeepsPhotos(s: Store, d: string)
    requires PhotosKept(s)
    ensures PhotosKept(Undefined(s, d))
  {
    SamePhotosAreKept(s, Undefined(s, d));
  }

  lemma StepKeepsPhotos(w: World, step: Step)
    requires PhotosKept(w.store)
    ensures PhotosKept(Next(w, step).store)
  {
    hide HasPrefix, Merged, Deleted, Uploaded, PhotosKept, WithValues, Undefined;
    match step
    case Create(id, user) => SamePhotosAreKept(w.store, Next(w, step).store);
    case Merge(r, hasPhotoDir) => MergeKeepsPhotos(w.store, r, hasPhotoDir);
    case Delete(user, id, hasPhotoDir) => DeleteKeepsPhotos(w.store, user, id, hasPhotoDir);
    case Upload(user, id, photo, thumbnail) => UploadKeepsPhotos(w.store, user, id, photo, thumbnail);
    case Put(row, user, id) => SamePhotosAreKept(w.store, Next(w, step).store);
    case SetValues(user, id, values) => ValuesKeepPhotos(w.store, user, id, values);
    case Define(d, at) => SamePhotosAreKept(w.store, Next(w, step).store);
    case Undefine(d) => UndefineKeepsPhotos(w.store, d);
  }

  /** Starting from distinct photo files, no merge, delete or upload ever removes a live contact's photo file. */
  lemma {:induction false} RunKeepsPhotos(w: World, steps: seq<Step>)
    requires PhotosKept(w.store)
    ensures PhotosKept(Run(w, steps).store)
    decreases |steps|
  {
    hide PhotosKept, Next;
    if steps != [] {
      StepKeepsPhotos(w, steps[0]);
      RunKeepsPhotos(Next(w, steps[0]), steps[1..]);
    }
  }

  lemma StepKeepsDefinitions(w: World, step: Step)
    requires ValuesDefined(w.store)
    ensures ValuesDefined(Next(w, step).store)
  {
    hide Missing, Conflicts, SurvivingPolicy, PhotoFiles, Repointed, ResolvedScalars;
  }

  /** So along any run custom values belong to known definitions, as a merge presumes. */
  lemma {:induction false} RunKeepsDefinitions(w: World, steps: seq<Step>)
    requires ValuesDefined(w.store)
    ensures ValuesDefined(Run(w, steps).store)
    decreases |steps|
  {
    hide ValuesDefined, Next;
    if steps != [] {
      StepKeepsDefinitions(w, steps[0]);
      RunKeepsDefinitions(Next(w, steps[0]), steps[1..]);
    }
  }

  // The handler

  method ComputeScalarConflicts(keeper: Contact, loser: Contact, keys: seq<string>) returns (fields: seq<string>)
    ensures fields == ScalarConflicts(keeper, loser, keys)
  {
    hide FieldConflicts;
    fields := [];
    for i := 0 to |keys|
      invariant fields == ScalarConflicts(keeper, loser, keys[..i])
    {
      assert keys[..i + 1][..i] == keys[..i];
      if FieldConflicts(keeper, loser, keys[i]) {
        fields := fields + [keys[i]];
      }
    }
    assert keys[..|keys|] == keys;
  }

  method ComputeValueConflicts(keeper: Contact, loser: Contact, definitions: seq<string>) returns (fields: seq<string>)
    ensures fields == ValueConflicts(keeper, loser, definitions)
  {
    fields := [];
    for i := 0 to |definitions|
      invariant fields == ValueConflicts(keeper, loser, definitions[..i])
    {
      assert definitions[..i + 1][..i] == definitions[..i];
      if definitions[i] in keeper.values && definitions[i] in loser.values {
        fields := fields + [definitions[i]];
      }
    }
    assert definitions[..|definitions|] == definitions;
  }

  method MissingResolutions(conflicts: seq<string>, resolutions: map<string, string>) returns (missing: seq<string>)
    ensures missing == Missing(conflicts, resolutions)
  {
    missing := [];
    for i := 0 to |conflicts|
      invariant missing == Missing(conflicts[..i], resolutions)
    {
      assert conflicts[..i + 1][..i] == conflicts[..i];
      if conflicts[i] !in resolutions {
        missing := missing + [conflicts[i]];
      }
    }
    assert conflicts[..|conflicts|] == conflicts;
  }

  /** `ApplyContactMergeResolution`, field by field. */
  method ApplyScalars(keeper: Contact, loser: Contact, resolutions: map<string, string>)
    returns (scalars: map<string, string>)
    ensures scalars == ResolvedScalars(keeper, loser, resolutions)
  {
    hide Resolved, MergeKeys, Scalar;
    var keys := MergeKeys();
    scalars := keeper.scalars;
    for i := 0 to |keys|
      invariant scalars.Keys == keeper.scalars.Keys + (set k | k in keys[..i])
      invariant forall k :: k in keys[..i] ==>
          scalars[k] == Resolved(k, Scalar(keeper, k), Scalar(loser, k), resolutions)
      invariant forall k :: k in keeper.scalars && k !in keys[..i] ==> scalars[k] == keeper.scalars[k]
    {
      assert keys[..i + 1] == keys[..i] + [keys[i]];
      scalars := scalars[keys[i] := Resolved(keys[i], Scalar(keeper, keys[i]), Scalar(loser, keys[i]), resolutions)];
    }
    assert keys[..|keys|] == keys;
  }

  /** The custom values: the loser's half of each conflict is dropped, the pick goes on the keeper's, the rest moves. */
  method RepointValues(keeper: Contact, loser: Contact, conflicts: seq<string>, resolutions: map<string, string>)
    returns (values: map<string, string>)
    requires forall d :: d in conflicts <==> d in keeper.values && d in loser.values
    requires forall d :: d in conflicts ==> d in resolutions
    ensures values == RepointedValues(keeper, loser, resolutions)
  {
    var moving := map d | d in loser.values && d !in keeper.values :: loser.values[d];
    values := keeper.values;
    for i := 0 to |conflicts|
      invariant values.Keys == keeper.values.Keys
      invariant forall d :: d in values ==>
                  values[d] == if d in conflicts[..i] then resolutions[d] else keeper.values[d]
    {
      assert conflicts[..i + 1] == conflicts[..i] + [conflicts[i]];
      assert conflicts[i] in conflicts;
      values := values[conflicts[i] := resolutions[conflicts[i]]];
    }
    assert conflicts[..|conflicts|] == conflicts;
    values := values + moving;
  }

  class MergeStore {
    var contacts: map<nat, Contact>
    var rows: map<RowId, nat>
    var definitions: seq<string>
    var files: set<string>

    constructor (s: Store)
      ensures State() == s
    {
      contacts, rows, definitions, files := s.contacts, s.rows, s.definitions, s.files;
    }

    function State(): Store
      reads this
    {
      Store(contacts, rows, definitions, files)
    }

    method LoadMergePair(r: Request) returns (e: Option<Error>)
      ensures e.None?
              <==> r.keepId != r.mergeId && Owned(State(), r.user, r.keepId) && Owned(State(), r.user, r.mergeId)
      ensures e.Some? ==> Rejection(State(), r) == e
    {
      if r.keepId == r.mergeId {
        return Some(SameContact);
      }
      if !Owned(State(), r.user, r.keepId) {
        return Some(NotFound(r.keepId));
      }
      if !Owned(State(), r.user, r.mergeId) {
        return Some(NotFound(r.mergeId));
      }
      return None;
    }

    /** `AddPhotoToContact`: the row first, then the file it named before. */
    method UploadPhoto(user: nat, id: nat, photo: string, thumbnail: string)
      requires NewPhoto(State(), photo, thumbnail)
      modifies this`contacts, this`files
      ensures State() == Uploaded(old(State()), user, id, photo, thumbnail)
    {
      if !Owned(State(), user, id) {
        return;
      }
      files := files + {photo};
      var before := contacts[id].photo;
      contacts := contacts[id := contacts[id].(photo := photo, thumbnail := thumbnail)];
      if before != "" {
        files := files - {before};
      }
    }

    /** Only the files of the row as it is handed over: adopted names have been blanked on it. */
    method DeletePhotos(c: Contact, hasPhotoDir: bool)
      modifies this
      ensures files == (if hasPhotoDir then old(files) - PhotoFiles(c) else old(files))
      ensures contacts == old(contacts) && rows == old(rows) && definitions == old(definitions)
    {
      if !hasPhotoDir {
        return;
      }
      if c.photo != "" {
        files := files - {c.photo};
      }
      if c.thumbnail != "" && !HasPrefix(c.thumbnail, "data:") {
        files := files - {c.thumbnail};
      }
    }

    /** What the caller still has to decide, scalars and cadence before custom values. */
    method CheckConflicts(r: Request) returns (valueFields: seq<string>, missing: seq<string>)
      requires Owned(State(), r.user, r.keepId) && Owned(State(), r.user, r.mergeId)
      ensures valueFields == ValueConflicts(contacts[r.keepId], contacts[r.mergeId], definitions)
      ensures missing == Missing(Conflicts(contacts[r.keepId], contacts[r.mergeId], definitions), r.resolutions)
    {
      hide ScalarConflicts, ValueConflicts, Missing, ConflictKeys;
      var keeper, loser := contacts[r.keepId], contacts[r.mergeId];
      var fields := ComputeScalarConflicts(keeper, loser, ConflictKeys());
      valueFields := ComputeValueConflicts(keeper, loser, definitions);
      assert fields + valueFields == Conflicts(keeper, loser, definitions);
      missing := MissingResolutions(fields + valueFields, r.resolutions);
    }

    /** The writes of the transaction; a refused cadence choice rolls them back. */
    method ApplyMerge(r: Request, valueFields: seq<string>) returns (e: Option<Error>, loser': Contact)
      requires r.keepId != r.mergeId && Owned(State(), r.user, r.keepId) && Owned(State(), r.user, r.mergeId)
      requires var keeper, loser := contacts[r.keepId], contacts[r.mergeId];
               forall d :: d in valueFields <==> d in keeper.values && d in loser.values
      requires forall d :: d in valueFields ==> d in r.resolutions
      modifies this`contacts, this`rows
      ensures var keeper, loser := old(contacts[r.keepId]), old(contacts[r.mergeId]);
              var policy := SurvivingPolicy(keeper, loser, r.resolutions);
              && e == (if policy.Err? then Some(policy.error) else None)
              && contacts == (if policy.Err? then old(contacts)
                              else old(contacts)[r.keepId := KeeperAfter(keeper, loser, policy.value, r.resolutions)]
                                                [r.mergeId := LoserAfter(loser)])
              && rows == (if policy.Err? then old(rows) else Repointed(old(rows), r.keepId, r.mergeId))
              && loser' == if AdoptsPhoto(keeper, loser) then loser.(photo := "", thumbnail := "") else loser
    {
      hide ResolvedScalars, RepointedValues, SurvivingPolicy, MergedLists;
      var keeper, loser := contacts[r.keepId], contacts[r.mergeId];
      var contactsBefore, rowsBefore := contacts, rows;
      var keeper' := keeper;
      loser' := loser;
      if keeper.photo == "" && loser.photo != "" {
        keeper' := keeper'.(photo := loser.photo, thumbnail := loser.thumbnail);
        loser' := loser'.(photo := "", thumbnail := "");
      }
      var scalars := ApplyScalars(keeper, loser, r.resolutions);
      var lists := MergeLists(keeper.lists, loser.lists);
      keeper' := keeper'.(scalars := scalars, lists := lists);
      rows := map n | n in rows :: if rows[n] == r.mergeId && n.table != SYNC_LINKS then r.keepId else rows[n];
      var values := RepointValues(keeper, loser, valueFields, r.resolutions);
      keeper' := keeper'.(values := values, groups := keeper.groups + (loser.groups - keeper.groups));
      assert keeper'.groups == keeper.groups + loser.groups;
      var policy := SurvivingPolicy(keeper, loser, r.resolutions);
      if policy.Err? {
        contacts, rows := contactsBefore, rowsBefore;
        return Some(policy.error), loser';
      }
      keeper' := keeper'.(cadence := policy.value);
      contacts := contacts[r.keepId := keeper'];
      Sweep(r.mergeId);
      contacts := contacts[r.mergeId := LoserAfter(loser)];
      e := None;
    }

    /** `deleteContactAssociations`: after the repointing it finds nothing left but sync links. */
    method Sweep(id: nat)
      modifies this`rows
      ensures rows == map n | n in old(rows) && old(rows)[n] != id :: old(rows)[n]
    {
      rows := map n | n in rows && rows[n] != id :: rows[n];
    }

    /** `CommitContactMerge`: all of it or, when it is refused, none of it. */
    method CommitMerge(r: Request, hasPhotoDir: bool) returns (e: Option<Error>)
      requires ValuesDefined(State())
      modifies this
      ensures e == Rejection(old(State()), r)
      ensures State() == Merged(old(State()), r, hasPhotoDir)
    {
      hide Missing, Conflicts, KeeperAfter, LoserAfter, Repointed, ValueConflicts, ValuesDefined, HasPrefix;
      e := LoadMergePair(r);
      if e.Some? {
        return;
      }
      var valueFields, missing := CheckConflicts(r);
      if missing != [] {
        return Some(Unresolved(missing));
      }
      DecidedValues(State(), r, valueFields);
      var loser';
      e, loser' := ApplyMerge(r, valueFields);
      if e.None? {
        DeletePhotos(loser', hasPhotoDir);
      }
    }
  }

  /** Once nothing is missing, every custom value both contacts have is decided. */
  lemma DecidedValues(s: Store, r: Request, valueFields: seq<string>)
    requires ValuesDefined(s) && Owned(s, r.user, r.keepId) && Owned(s, r.user, r.mergeId)
    requires valueFields == ValueConflicts(s.contacts[r.keepId], s.contacts[r.mergeId], s.definitions)
    requires Missing(Conflicts(s.contacts[r.keepId], s.contacts[r.mergeId], s.definitions), r.resolutions) == []
    ensures var keeper, loser := s.contacts[r.keepId], s.contacts[r.mergeId];
            forall d :: d in valueFields <==> d in keeper.values && d in loser.values
    ensures forall d :: d in valueFields ==> d in r.resolutions
  {
    hide MergeKeys, ScalarConflicts, ValueConflicts, Missing;
    var keeper, loser := s.contacts[r.keepId], s.contacts[r.mergeId];
    MissingNone(Conflicts(keeper, loser, s.definitions), r.resolutions);
    forall d ensures d in valueFields <==> d in keeper.values && d in loser.values {
      ValueConflictsExact(keeper, loser, s.definitions, d);
    }
  }
}
