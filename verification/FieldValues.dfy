/** Replacing a contact's custom field values: validate everything, delete what is absent, upsert the rest. */
module FieldValues {
  import opened Wrappers

  datatype Row = Row(definition: string, user: nat, entity: string, value: string)

  /** The rows by primary key, and the next key. */
  datatype Table = Table(rows: map<nat, Row>, nextId: nat)

  datatype Input = Input(definition: string, value: string)

  datatype Error = UnknownDefinition(definition: string) | InvalidValue(definition: string)

  /** The owner of each field definition, and what its constraints accept. */
  datatype Schema = Schema(owners: map<string, nat>, accepts: (string, string) -> bool)

  // Invariants the schema keeps

  predicate Mine(r: Row, user: nat, entity: string) {
    r.user == user && r.entity == entity
  }

  ghost predicate KeysBelow(t: Table) {
    forall id :: id in t.rows ==> id < t.nextId
  }

  /** The unique index on (field_definition_id, entity_id). */
  ghost predicate OnePerDefinition(rows: map<nat, Row>) {
    forall i, j :: i in rows && j in rows && i != j ==>
      rows[i].definition != rows[j].definition || rows[i].entity != rows[j].entity
  }

  /** A value belongs to the owner of its definition. */
  ghost predicate OwnersAgree(rows: map<nat, Row>, owners: map<string, nat>) {
    forall id :: id in rows ==> rows[id].definition in owners && rows[id].user == owners[rows[id].definition]
  }

  ghost predicate Valid(t: Table, owners: map<string, nat>) {
    KeysBelow(t) && OnePerDefinition(t.rows) && OwnersAgree(t.rows, owners)
  }

  // What a replace computes

  predicate Acceptable(input: Input, user: nat, schema: Schema) {
    && input.definition in schema.owners && schema.owners[input.definition] == user
    && schema.accepts(input.definition, input.value)
  }

  predicate HasDefinition(payload: seq<Input>, definition: string) {
    exists i :: 0 <= i < |payload| && payload[i].definition == definition
  }

  /** The payload as a map: the last entry for a definition counts. */
  function LastValue(payload: seq<Input>, definition: string): string
    requires HasDefinition(payload, definition)
  {
    var n := |payload| - 1;
    if payload[n].definition == definition then payload[n].value else LastValue(payload[..n], definition)
  }

  function Kept(rows: map<nat, Row>, user: nat, entity: string, payload: seq<Input>): map<nat, Row> {
    map id | id in rows && (Mine(rows[id], user, entity) ==> HasDefinition(payload, rows[id].definition)) :: rows[id]
  }

  /** The upsert's lookup: the first row for the definition and the contact, whoever owns it. */
  function Find(rows: map<nat, Row>, definition: string, entity: string, below: nat): (id: Option<nat>)
    ensures id.Some? ==> id.value < below && id.value in rows
                         && rows[id.value].definition == definition && rows[id.value].entity == entity
    ensures id.None? ==> forall i :: i in rows && i < below ==>
              rows[i].definition != definition || rows[i].entity != entity
  {
    if below == 0 then None
    else
      var earlier := Find(rows, definition, entity, below - 1);
      if earlier.Some? then earlier
      else if below - 1 in rows && rows[below - 1].definition == definition && rows[below - 1].entity == entity
      then Some(below - 1)
      else None
  }

  function Upserted(t: Table, user: nat, entity: string, input: Input): Table {
    match Find(t.rows, input.definition, entity, t.nextId)
    case Some(id) => t.(rows := t.rows[id := t.rows[id].(value := input.value)])
    case None => Table(t.rows[t.nextId := Row(input.definition, user, entity, input.value)], t.nextId + 1)
  }

  function AllUpserted(t: Table, user: nat, entity: string, payload: seq<Input>): Table {
    if payload == [] then t
    else Upserted(AllUpserted(t, user, entity, payload[..|payload| - 1]), user, entity, payload[|payload| - 1])
  }

  function Replaced(t: Table, user: nat, entity: string, payload: seq<Input>): Table {
    AllUpserted(t.(rows := Kept(t.rows, user, entity, payload)), user, entity, payload)
  }

  /** A value is accepted when the definition is the caller's and its constraints hold. */
  lemma AcceptableExactly(input: Input, user: nat, schema: Schema)
    ensures Acceptable(input, user, schema)
            <==> && input.definition in schema.owners && schema.owners[input.definition] == user
                 && schema.accepts(input.definition, input.value)
  {
  }

  // What it means

  /** The state after the first entries of a payload, whose definitions are all among `defined`. */
  ghost predicate Progress(before: Table, t: Table, user: nat, entity: string, payload: seq<Input>) {
    && before.nextId <= t.nextId
    && (forall id :: id in before.rows ==> id in t.rows && t.rows[id] == before.rows[id].(value := t.rows[id].value))
    && (forall id :: id in before.rows && !Mine(before.rows[id], user, entity) ==> t.rows[id] == before.rows[id])
    && (forall id :: id in t.rows && id !in before.rows ==> Mine(t.rows[id], user, entity) && before.nextId <= id)
    && (forall id :: id in t.rows && Mine(t.rows[id], user, entity) ==> Right(before, t, payload, id))
    && (forall k :: 0 <= k < |payload| ==> Stored(t, user, entity, payload[k].definition))
  }

  /** A row of the contact holds what the payload says, or what it held before. */
  ghost predicate Right(before: Table, t: Table, payload: seq<Input>, id: nat)
    requires id in t.rows
  {
    if HasDefinition(payload, t.rows[id].definition) then t.rows[id].value == LastValue(payload, t.rows[id].definition)
    else id in before.rows && t.rows[id] == before.rows[id]
  }

  ghost predicate Stored(t: Table, user: nat, entity: string, definition: string) {
    exists id :: id in t.rows && Mine(t.rows[id], user, entity) && t.rows[id].definition == definition
  }

  lemma LastOfAppend(payload: seq<Input>, input: Input, definition: string)
    ensures HasDefinition(payload + [input], definition)
            <==> HasDefinition(payload, definition) || input.definition == definition
    ensures HasDefinition(payload + [input], definition) ==>
              LastValue(payload + [input], definition)
              == if input.definition == definition then input.value else LastValue(payload, definition)
  {
    var all := payload + [input];
    assert all[..|payload|] == payload;
    if HasDefinition(payload, definition) {
      var i :| 0 <= i < |payload| && payload[i].definition == definition;
      assert all[i].definition == definition;
    }
    if input.definition == definition {
      assert all[|payload|].definition == definition;
    }
  }

  lemma UpsertKeepsValid(t: Table, user: nat, entity: string, input: Input, owners: map<string, nat>)
    requires Valid(t, owners) && input.definition in owners && owners[input.definition] == user
    ensures Valid(Upserted(t, user, entity, input), owners)
  {
  }

  /** An upsert touches one row, and it is the caller's row for that definition. */
  lemma UpsertTouches(t: Table, user: nat, entity: string, input: Input, owners: map<string, nat>) returns (id: nat)
    requires Valid(t, owners) && input.definition in owners && owners[input.definition] == user
    ensures Upserted(t, user, entity, input).rows == t.rows[id := Row(input.definition, user, entity, input.value)]
    ensures t.nextId <= Upserted(t, user, entity, input).nextId
    ensures if id in t.rows then t.rows[id] == Row(input.definition, user, entity, t.rows[id].value) else id == t.nextId
    ensures forall i :: i in t.rows && Mine(t.rows[i], user, entity) && i != id ==>
              t.rows[i].definition != input.definition
  {
    var at := Find(t.rows, input.definition, entity, t.nextId);
    id := if at.Some? then at.value else t.nextId;
  }

  lemma UpsertProgresses(before: Table, t: Table, user: nat, entity: string, payload: seq<Input>, input: Input,
                         owners: map<string, nat>)
    requires Valid(t, owners) && input.definition in owners && owners[input.definition] == user
    requires Progress(before, t, user, entity, payload)
    ensures Progress(before, Upserted(t, user, entity, input), user, entity, payload + [input])
  {
    hide HasDefinition, LastValue, Upserted, Valid, Find, Stored;
    var t', all := Upserted(t, user, entity, input), payload + [input];
    var id := UpsertTouches(t, user, entity, input, owners);
    UpsertStores(t, t', id, user, entity, payload, input);
    forall i | i in t'.rows && Mine(t'.rows[i], user, entity) ensures Right(before, t', all, i) {
      LastOfAppend(payload, input, t'.rows[i].definition);
      assert i != id ==> Right(before, t, payload, i);
    }
  }

  lemma UpsertStores(t: Table, t': Table, id: nat, user: nat, entity: string, payload: seq<Input>, input: Input)
    requires t'.rows == t.rows[id := Row(input.definition, user, entity, input.value)]
    requires id in t.rows ==> t.rows[id].definition == input.definition
    requires forall k :: 0 <= k < |payload| ==> Stored(t, user, entity, payload[k].definition)
    ensures var all := payload + [input];
            forall k :: 0 <= k < |all| ==> Stored(t', user, entity, all[k].definition)
  {
    var all := payload + [input];
    assert Mine(t'.rows[id], user, entity) && t'.rows[id].definition == input.definition;
    forall k | 0 <= k < |all| ensures Stored(t', user, entity, all[k].definition) {
      if k < |payload| {
        assert Stored(t, user, entity, payload[k].definition);
        var i :| i in t.rows && Mine(t.rows[i], user, entity) && t.rows[i].definition == payload[k].definition;
        assert Mine(t'.rows[i], user, entity) && t'.rows[i].definition == payload[k].definition;
      }
    }
  }

  lemma NothingYet(before: Table, user: nat, entity: string)
    ensures Progress(before, before, user, entity, [])
  {
  }

  lemma {:induction false} UpsertsProgress(before: Table, user: nat, entity: string, payload: seq<Input>,
                                           owners: map<string, nat>)
    requires Valid(before, owners)
    requires forall i :: 0 <= i < |payload| ==> payload[i].definition in owners && owners[payload[i].definition] == user
    ensures var t := AllUpserted(before, user, entity, payload);
            Valid(t, owners) && Progress(before, t, user, entity, payload)
  {
    hide Valid, Upserted, Progress;
    if payload == [] {
      NothingYet(before, user, entity);
    } else {
      var n := |payload| - 1;
      UpsertsProgress(before, user, entity, payload[..n], owners);
      var t := AllUpserted(before, user, entity, payload[..n]);
      UpsertKeepsValid(t, user, entity, payload[n], owners);
      UpsertProgresses(before, t, user, entity, payload[..n], payload[n], owners);
      assert payload[..n] + [payload[n]] == payload;
    }
  }

  /**
   * After a replace the contact's values are exactly the payload read as a map: one row per definition,
   * holding the last value given for it. A row that survives keeps its id, new rows get new ids, and every
   * other row is untouched, because a value's owner is its definition's owner.
   */
  lemma ReplaceIsExact(t: Table, user: nat, entity: string, payload: seq<Input>, owners: map<string, nat>)
    requires Valid(t, owners)
    requires forall i :: 0 <= i < |payload| ==> payload[i].definition in owners && owners[payload[i].definition] == user
    ensures var t' := Replaced(t, user, entity, payload);
            && Valid(t', owners)
            && (forall d :: Stored(t', user, entity, d) <==> HasDefinition(payload, d))
            && (forall id :: id in t'.rows && Mine(t'.rows[id], user, entity) ==>
                  HasDefinition(payload, t'.rows[id].definition)
                  && t'.rows[id].value == LastValue(payload, t'.rows[id].definition))
            && (forall id :: id in t.rows && Mine(t.rows[id], user, entity) ==>
                  if HasDefinition(payload, t.rows[id].definition)
                  then id in t'.rows && t'.rows[id] == t.rows[id].(value := LastValue(payload, t.rows[id].definition))
                  else id !in t'.rows)
            && (forall id :: id in t.rows && !Mine(t.rows[id], user, entity) ==>
                  id in t'.rows && t'.rows[id] == t.rows[id])
            && (forall id :: id in t'.rows && id !in t.rows ==> Mine(t'.rows[id], user, entity) && t.nextId <= id)
  {
    hide LastValue, Valid, Upserted, Find, AllUpserted, Stored, HasDefinition;
    var before := t.(rows := Kept(t.rows, user, entity, payload));
    KeptIsValid(t, user, entity, payload, owners);
    UpsertsProgress(before, user, entity, payload, owners);
    var t' := Replaced(t, user, entity, payload);
    StoredIsDefined(before, t', user, entity, payload);
    forall id | id in t'.rows && Mine(t'.rows[id], user, entity)
      ensures HasDefinition(payload, t'.rows[id].definition)
    {
      assert Right(before, t', payload, id);
    }
  }

  lemma KeptIsValid(t: Table, user: nat, entity: string, payload: seq<Input>, owners: map<string, nat>)
    requires Valid(t, owners)
    ensures Valid(t.(rows := Kept(t.rows, user, entity, payload)), owners)
    ensures forall id :: id in t.rows ==> id < t.nextId
  {
  }

  lemma StoredIsDefined(before: Table, t: Table, user: nat, entity: string, payload: seq<Input>)
    requires Progress(before, t, user, entity, payload)
    requires forall id :: id in before.rows && Mine(before.rows[id], user, entity) ==>
                            HasDefinition(payload, before.rows[id].definition)
    ensures forall d :: Stored(t, user, entity, d) <==> HasDefinition(payload, d)
  {
    hide LastValue;
    forall d ensures Stored(t, user, entity, d) <==> HasDefinition(payload, d) {
      if Stored(t, user, entity, d) {
        var id :| id in t.rows && Mine(t.rows[id], user, entity) && t.rows[id].definition == d;
        assert Right(before, t, payload, id);
      }
      if HasDefinition(payload, d) {
        var i :| 0 <= i < |payload| && payload[i].definition == d;
        assert Stored(t, user, entity, payload[i].definition);
      }
    }
  }

  /** Without that invariant the lookup, which does not filter by user, would write another user's row. */
  lemma OwnersMustAgree()
    ensures var t := Table(map[0 := Row("d", 2, "e", "theirs")], 1);
            var owners := map["d" := 1];
            var t' := Replaced(t, 1, "e", [Input("d", "mine")]);
            && KeysBelow(t) && OnePerDefinition(t.rows) && !OwnersAgree(t.rows, owners)
            && t'.rows == map[0 := Row("d", 2, "e", "mine")] && !Stored(t', 1, "e", "d")
  {
    var rows := map[0 := Row("d", 2, "e", "theirs")];
    var t, payload := Table(rows, 1), [Input("d", "mine")];
    assert Kept(rows, 1, "e", payload) == rows;
    assert payload[..0] == [] && AllUpserted(t, 1, "e", []) == t;
    assert Find(rows, "d", "e", 0) == None;
    assert Find(rows, "d", "e", 1) == Some(0);
  }

  // The handler

  class FieldValueTable {
    var rows: map<nat, Row>
    var nextId: nat

    constructor (t: Table)
      ensures State() == t
    {
      rows, nextId := t.rows, t.nextId;
    }

    function State(): Table
      reads this
    {
      Table(rows, nextId)
    }

    method DeleteAbsent(user: nat, entity: string, payload: seq<Input>)
      modifies this`rows
      ensures rows == Kept(old(rows), user, entity, payload)
    {
      if payload == [] {
        rows := map id | id in rows && !Mine(rows[id], user, entity) :: rows[id];
      } else {
        var ids := IncomingDefinitions(payload);
        SameDefinitions(payload, ids);
        rows := map id | id in rows && !(Mine(rows[id], user, entity) && rows[id].definition !in ids) :: rows[id];
      }
    }

    /** `ReplaceContactFieldValues`: nothing is written unless the whole payload is valid. */
    method Replace(user: nat, entity: string, payload: seq<Input>, schema: Schema) returns (e: Option<Error>)
      modifies this
      ensures e.None? <==> forall i :: 0 <= i < |payload| ==>
                && payload[i].definition in schema.owners && schema.owners[payload[i].definition] == user
                && schema.accepts(payload[i].definition, payload[i].value)
      ensures State() == if e.Some? then old(State()) else Replaced(old(State()), user, entity, payload)
    {
      hide Kept, Upserted;
      e := Validate(user, payload, schema);
      if e.Some? {
        return;
      }
      DeleteAbsent(user, entity, payload);
      ghost var start := State();
      for i := 0 to |payload|
        invariant State() == AllUpserted(start, user, entity, payload[..i])
      {
        assert payload[..i + 1][..i] == payload[..i];
        Upsert(user, entity, payload[i]);
      }
      assert payload[..|payload|] == payload;
    }

    method Upsert(user: nat, entity: string, input: Input)
      modifies this
      ensures State() == Upserted(old(State()), user, entity, input)
    {
      var existing := First(input.definition, entity);
      if existing.Some? {
        rows := rows[existing.value := rows[existing.value].(value := input.value)];
      } else {
        rows := rows[nextId := Row(input.definition, user, entity, input.value)];
        nextId := nextId + 1;
      }
    }

    /** The row with the lowest key for a definition and a contact. */
    method First(definition: string, entity: string) returns (id: Option<nat>)
      ensures id == Find(rows, definition, entity, nextId)
    {
      for i := 0 to nextId
        invariant Find(rows, definition, entity, i) == None
      {
        if i in rows && rows[i].definition == definition && rows[i].entity == entity {
          FindStays(rows, definition, entity, i + 1, nextId);
          return Some(i);
        }
      }
      return None;
    }
  }

  lemma {:induction false} FindStays(rows: map<nat, Row>, definition: string, entity: string, n: nat, m: nat)
    requires n <= m && Find(rows, definition, entity, n).Some?
    ensures Find(rows, definition, entity, m) == Find(rows, definition, entity, n)
  {
    if n < m {
      FindStays(rows, definition, entity, n, m - 1);
    }
  }

  method IncomingDefinitions(payload: seq<Input>) returns (ids: seq<string>)
    ensures |ids| == |payload| && forall i :: 0 <= i < |payload| ==> ids[i] == payload[i].definition
  {
    ids := [];
    for i := 0 to |payload|
      invariant |ids| == i && forall k :: 0 <= k < i ==> ids[k] == payload[k].definition
    {
      ids := ids + [payload[i].definition];
    }
  }

  lemma SameDefinitions(payload: seq<Input>, ids: seq<string>)
    requires |ids| == |payload| && forall i :: 0 <= i < |payload| ==> ids[i] == payload[i].definition
    ensures forall d :: d in ids <==> HasDefinition(payload, d)
  {
  }

  function Complaint(definition: string, user: nat, schema: Schema): Error {
    if definition in schema.owners && schema.owners[definition] == user then InvalidValue(definition)
    else UnknownDefinition(definition)
  }

  /** The first entry that is not the caller's to set, or that its definition does not accept. */
  method Validate(user: nat, payload: seq<Input>, schema: Schema) returns (e: Option<Error>)
    ensures e.None? <==> forall i :: 0 <= i < |payload| ==> Acceptable(payload[i], user, schema)
    ensures e.Some? ==> exists i :: 0 <= i < |payload| && !Acceptable(payload[i], user, schema)
                                    && (forall k :: 0 <= k < i ==> Acceptable(payload[k], user, schema))
                                    && e.value == Complaint(payload[i].definition, user, schema)
    ensures e.Some? ==>
              match e.value
              case UnknownDefinition(d) => !(d in schema.owners && schema.owners[d] == user)
              case InvalidValue(d) =>
                d in schema.owners && schema.owners[d] == user
                && exists i :: 0 <= i < |payload| && payload[i].definition == d && !schema.accepts(d, payload[i].value)
  {
    for i := 0 to |payload|
      invariant forall k :: 0 <= k < i ==> Acceptable(payload[k], user, schema)
    {
      var d := payload[i].definition;
      if d !in schema.owners || schema.owners[d] != user {
        assert !Acceptable(payload[i], user, schema);
        return Some(UnknownDefinition(d));
      }
      if !schema.accepts(d, payload[i].value) {
        assert !Acceptable(payload[i], user, schema);
        return Some(InvalidValue(d));
      }
    }
    return None;
  }
}
