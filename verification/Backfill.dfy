/**
 * Encrypting the plaintext left in the encrypted columns: one transaction per column, the audit
 * log's no-update trigger dropped and recreated inside its own.
 */
module Backfill {
  import opened Wrappers
  import opened Text
  import opened AtRest

  datatype CellId = CellId(table: string, column: string, row: string)

  /** Stored cells; None is SQL NULL. */
  type Cells = map<CellId, Option<string>>

  const AUDIT_TABLE := "audit_events"

  /** The encrypted columns, table and column name. */
  const COLUMN_NAMES: seq<(string, string)> := [
    ("contacts", "card"), ("contacts", "crm"), ("contacts", "passthrough"), ("contacts", "how_we_met"),
    ("contacts", "work_information"), ("contacts", "contact_information"), ("life_events", "description"),
    ("reminders", "message"), ("reminder_completions", "message"), ("gifts", "description"), ("gifts", "notes"),
    ("gifts", "occasion"), ("preferences", "value"), ("preferences", "notes"), ("conversation_agenda", "content"),
    ("audit_events", "before_snapshot"), ("contact_sync_conflicts", "local_value"),
    ("contact_sync_conflicts", "remote_value"), ("contact_sync_links", "synced_values")]

  /** The specs the backfill works through, written "table.column". */
  function EncryptedColumns(): seq<string> {
    seq(|COLUMN_NAMES|, i requires 0 <= i < |COLUMN_NAMES| => COLUMN_NAMES[i].0 + "." + COLUMN_NAMES[i].1)
  }

  /** Split "table.column" at its first dot, with something on either side. */
  function SplitSpec(spec: string): Option<(string, string)> {
    match IndexOf(spec, '.')
    case None => None
    case Some(i) => if 0 < i < |spec| - 1 then Some((spec[..i], spec[i + 1..])) else None
  }

  /** `value LIKE 'encv1:%'`: SQLite compares ASCII letters without case. */
  predicate LikeCiphertext(value: string) {
    |value| >= |CIPHERTEXT_PREFIX| && EqualFold(value[..|CIPHERTEXT_PREFIX|], CIPHERTEXT_PREFIX)
  }

  /** The rows the backfill of a column selects. */
  predicate Selected(stored: Option<string>) {
    stored.Some? && stored.value != "" && !LikeCiphertext(stored.value)
  }

  lemma PrefixIsLike(value: string)
    ensures HasPrefix(value, CIPHERTEXT_PREFIX) ==> LikeCiphertext(value)
  {
  }

  predicate InColumn(id: CellId, spec: string) {
    SplitSpec(spec) == Some((id.table, id.column))
  }

  function Encrypted(c: Crypto, dek: Bytes, nonce: Bytes, stored: Option<string>): Option<string> {
    if stored.None? then None else Some(Ciphertext(c, c.sealWith(dek, nonce, stored.value)))
  }

  /** One column done. */
  function ColumnDone(c: Crypto, dek: Bytes, nonces: CellId -> Bytes, cells: Cells, spec: string): Cells {
    map id | id in cells ::
      if InColumn(id, spec) && Selected(cells[id]) then Encrypted(c, dek, nonces(id), cells[id]) else cells[id]
  }

  /** The first `n` columns of a list done, in order. */
  function ColumnsDone(c: Crypto, dek: Bytes, nonces: CellId -> Bytes, cells: Cells, specs: seq<string>, n: nat): Cells
    requires n <= |specs|
  {
    if n == 0 then cells
    else ColumnDone(c, dek, nonces, ColumnsDone(c, dek, nonces, cells, specs, n - 1), specs[n - 1])
  }

  predicate InColumns(id: CellId, specs: seq<string>, n: nat)
    requires n <= |specs|
  {
    exists i :: 0 <= i < n && InColumn(id, specs[i])
  }

  lemma CiphertextIsPrefixed(c: Crypto, sealed: Bytes)
    ensures HasPrefix(Ciphertext(c, sealed), CIPHERTEXT_PREFIX) && !Selected(Some(Ciphertext(c, sealed)))
  {
    var s := Ciphertext(c, sealed);
    assert s == CIPHERTEXT_PREFIX + (KEY_ID + ":" + c.encode64(sealed));
    PrefixIsLike(s);
  }

  /** An encrypted cell is not selected again. */
  lemma EncryptedOnce(c: Crypto, dek: Bytes, nonce: Bytes, stored: Option<string>)
    requires Selected(stored)
    ensures !Selected(Encrypted(c, dek, nonce, stored))
  {
    hide Ciphertext, LikeCiphertext, HasPrefix;
    CiphertextIsPrefixed(c, c.sealWith(dek, nonce, stored.value));
  }

  /**
   * The state after `n` columns, cell by cell: every selected cell of those columns encrypted once, all else
   * as before.
   */
  lemma {:induction false} ColumnsDoneAt(c: Crypto, dek: Bytes, nonces: CellId -> Bytes, cells: Cells,
                                         specs: seq<string>, n: nat)
    requires n <= |specs|
    ensures var after := ColumnsDone(c, dek, nonces, cells, specs, n);
            && after.Keys == cells.Keys
            && forall id :: id in cells ==>
                 after[id] == if InColumns(id, specs, n) && Selected(cells[id])
                              then Encrypted(c, dek, nonces(id), cells[id]) else cells[id]
  {
    hide SplitSpec, InColumn, Selected, Encrypted;
    if n > 0 {
      ColumnsDoneAt(c, dek, nonces, cells, specs, n - 1);
      var after := ColumnsDone(c, dek, nonces, cells, specs, n);
      forall id | id in cells
        ensures after[id] == if InColumns(id, specs, n) && Selected(cells[id])
                             then Encrypted(c, dek, nonces(id), cells[id]) else cells[id]
      {
        OneColumnMore(id, specs, n);
        hide InColumns;
        if Selected(cells[id]) {
          EncryptedOnce(c, dek, nonces(id), cells[id]);
        }
      }
    }
  }

  lemma OneColumnMore(id: CellId, specs: seq<string>, n: nat)
    requires 0 < n <= |specs|
    ensures InColumns(id, specs, n) <==> InColumns(id, specs, n - 1) || InColumn(id, specs[n - 1])
  {
    hide InColumn;
  }

  /**
   * A run stopped after any number of columns and run again from the start ends exactly like one
   * uninterrupted run, when each cell keeps its nonce.
   */
  lemma ResumedRunIsOneRun(c: Crypto, dek: Bytes, nonces: CellId -> Bytes, cells: Cells, specs: seq<string>, n: nat)
    requires n <= |specs|
    ensures ColumnsDone(c, dek, nonces, ColumnsDone(c, dek, nonces, cells, specs, n), specs, |specs|)
            == ColumnsDone(c, dek, nonces, cells, specs, |specs|)
  {
    hide Ciphertext, LikeCiphertext, HasPrefix, SplitSpec, InColumn, ColumnsDone;
    var part := ColumnsDone(c, dek, nonces, cells, specs, n);
    ColumnsDoneAt(c, dek, nonces, cells, specs, n);
    ColumnsDoneAt(c, dek, nonces, cells, specs, |specs|);
    ColumnsDoneAt(c, dek, nonces, part, specs, |specs|);
    forall id | id in cells && InColumns(id, specs, n) && Selected(cells[id])
      ensures InColumns(id, specs, |specs|) && !Selected(part[id])
    {
      CiphertextIsPrefixed(c, c.sealWith(dek, nonces(id), cells[id].value));
    }
  }

  /** A further run changes nothing, whatever nonces it draws. */
  lemma SecondRunChangesNothing(c: Crypto, dek: Bytes, nonces: CellId -> Bytes, nonces': CellId -> Bytes,
                                cells: Cells, specs: seq<string>)
    ensures var done := ColumnsDone(c, dek, nonces, cells, specs, |specs|);
            ColumnsDone(c, dek, nonces', done, specs, |specs|) == done
  {
    hide Ciphertext, LikeCiphertext, HasPrefix, SplitSpec, InColumn;
    var done := ColumnsDone(c, dek, nonces, cells, specs, |specs|);
    ColumnsDoneAt(c, dek, nonces, cells, specs, |specs|);
    ColumnsDoneAt(c, dek, nonces', done, specs, |specs|);
    forall id | id in cells && InColumns(id, specs, |specs|) ensures !Selected(done[id]) {
      if Selected(cells[id]) {
        CiphertextIsPrefixed(c, c.sealWith(dek, nonces(id), cells[id].value));
      }
    }
  }

  // What a run leaves in a cell

  /** The first six characters are "encv1:", in upper or lower case. */
  predicate LooksEncrypted(value: string) {
    && |value| >= 6 && value[0] in {'e', 'E'} && value[1] in {'n', 'N'} && value[2] in {'c', 'C'}
    && value[3] in {'v', 'V'} && value[4] == '1' && value[5] == ':'
  }

  lemma LowerIs(c: char, letter: char)
    requires 'a' <= letter <= 'z'
    ensures LowerChar(c) == letter <==> c == letter || c == letter - 'a' + 'A'
  {
  }

  lemma LikeIsCharwise(value: string)
    ensures LikeCiphertext(value) <==> LooksEncrypted(value)
  {
    if |value| >= 6 {
      var head := value[..6];
      LowerIs(head[0], 'e');
      LowerIs(head[1], 'n');
      LowerIs(head[2], 'c');
      LowerIs(head[3], 'v');
      assert Lower("encv1:") == "encv1:";
      assert Lower(head) == "encv1:" <==> forall i :: 0 <= i < 6 ==> Lower(head)[i] == "encv1:"[i];
      assert forall i :: 0 <= i < 6 ==> head[i] == value[i];
    }
  }

  /** A column is named by a spec: the table, a dot, and the column. */
  predicate NamedBy(id: CellId, specs: seq<string>) {
    id.table != "" && id.column != "" && '.' !in id.table && id.table + "." + id.column in specs
  }

  lemma SplitsExactly(spec: string, table: string, column: string)
    ensures SplitSpec(spec) == Some((table, column))
            <==> table != "" && column != "" && '.' !in table && spec == table + "." + column
  {
    if table != "" && column != "" && '.' !in table && spec == table + "." + column {
      SplitSpecOf(table, column);
    }
    if SplitSpec(spec) == Some((table, column)) {
      var i := IndexOf(spec, '.').value;
      assert spec == spec[..i] + [spec[i]] + spec[i + 1..];
    }
  }

  lemma NamedIsInColumns(id: CellId, specs: seq<string>)
    ensures InColumns(id, specs, |specs|) <==> NamedBy(id, specs)
  {
    hide SplitSpec;
    forall i | 0 <= i < |specs|
      ensures InColumn(id, specs[i])
              <==> id.table != "" && id.column != "" && '.' !in id.table && specs[i] == id.table + "." + id.column
    {
      SplitsExactly(specs[i], id.table, id.column);
    }
  }

  /**
   * A full run encrypts exactly the cells of the named columns that are neither NULL nor empty nor begin with
   * "encv1:" in any case, into "encv1:main:" and their sealed text, and leaves every other cell as it was.
   */
  lemma FullRunExactly(c: Crypto, dek: Bytes, nonces: CellId -> Bytes, cells: Cells, specs: seq<string>, id: CellId)
    requires id in cells
    ensures var after := ColumnsDone(c, dek, nonces, cells, specs, |specs|);
            && id in after
            && after[id] == if NamedBy(id, specs) && cells[id].Some? && cells[id].value != ""
                               && !LooksEncrypted(cells[id].value)
                            then Some("encv1:main:" + c.encode64(c.sealWith(dek, nonces(id), cells[id].value)))
                            else cells[id]
  {
    hide InColumns, LikeCiphertext, LooksEncrypted, NamedBy, ColumnsDone;
    ColumnsDoneAt(c, dek, nonces, cells, specs, |specs|);
    NamedIsInColumns(id, specs);
    if cells[id].Some? {
      LikeIsCharwise(cells[id].value);
    }
    assert CIPHERTEXT_PREFIX + KEY_ID + ":" == "encv1:main:";
  }

  /**
   * So after a full run a non-empty cell of a named column begins with "encv1:", exactly unless it held a
   * plaintext that begins with those characters in another case.
   */
  lemma FullRunPrefixes(c: Crypto, dek: Bytes, nonces: CellId -> Bytes, cells: Cells, specs: seq<string>, id: CellId)
    requires id in cells && cells[id].Some? && cells[id].value != "" && NamedBy(id, specs)
    ensures var after := ColumnsDone(c, dek, nonces, cells, specs, |specs|);
            id in after && after[id].Some?
            && (HasPrefix(after[id].value, "encv1:")
                <==> !(LooksEncrypted(cells[id].value) && !HasPrefix(cells[id].value, "encv1:")))
  {
    hide ColumnsDone, NamedBy;
    FullRunExactly(c, dek, nonces, cells, specs, id);
    var sealed := c.encode64(c.sealWith(dek, nonces(id), cells[id].value));
    assert "encv1:main:" + sealed == "encv1:" + ("main:" + sealed);
  }

  /** The columns a shipped run works through, and the table whose trigger it lifts. */
  lemma ShippedColumns(id: CellId)
    ensures NamedBy(id, EncryptedColumns())
            <==> (id.table, id.column) in {
                   ("contacts", "card"), ("contacts", "crm"), ("contacts", "passthrough"), ("contacts", "how_we_met"),
                   ("contacts", "work_information"), ("contacts", "contact_information"),
                   ("life_events", "description"), ("reminders", "message"), ("reminder_completions", "message"),
                   ("gifts", "description"), ("gifts", "notes"), ("gifts", "occasion"), ("preferences", "value"),
                   ("preferences", "notes"), ("conversation_agenda", "content"), ("audit_events", "before_snapshot"),
                   ("contact_sync_conflicts", "local_value"), ("contact_sync_conflicts", "remote_value"),
                   ("contact_sync_links", "synced_values")}
    ensures AUDIT_TABLE == "audit_events"
  {
    hide SplitSpec;
    var specs := EncryptedColumns();
    forall i | 0 <= i < |specs|
      ensures (id.table != "" && id.column != "" && '.' !in id.table && specs[i] == id.table + "." + id.column)
              <==> COLUMN_NAMES[i] == (id.table, id.column)
    {
      ShippedSpecsSplit(i);
      SplitsExactly(specs[i], id.table, id.column);
    }
    ColumnNamed(id, specs);
  }

  lemma ColumnNamed(id: CellId, specs: seq<string>)
    requires |specs| == |COLUMN_NAMES|
    requires forall i :: 0 <= i < |specs| ==>
               ((id.table != "" && id.column != "" && '.' !in id.table && specs[i] == id.table + "." + id.column)
                <==> COLUMN_NAMES[i] == (id.table, id.column))
    ensures NamedBy(id, specs) <==> (id.table, id.column) in COLUMN_NAMES
  {
    if NamedBy(id, specs) {
      var i :| 0 <= i < |specs| && specs[i] == id.table + "." + id.column;
      assert COLUMN_NAMES[i] == (id.table, id.column);
    }
    if (id.table, id.column) in COLUMN_NAMES {
      var i :| 0 <= i < |COLUMN_NAMES| && COLUMN_NAMES[i] == (id.table, id.column);
      assert specs[i] == id.table + "." + id.column;
    }
  }

  lemma UpperCaseIsLike()
    ensures LikeCiphertext("ENCV1:x") && !HasPrefix("ENCV1:x", CIPHERTEXT_PREFIX) && !Selected(Some("ENCV1:x"))
  {
    assert "ENCV1:x"[..6] == "ENCV1:";
    assert Lower("ENCV1:") == Lower("encv1:");
    assert CIPHERTEXT_PREFIX[0] == 'e';
  }

  /** The plaintext "ENCV1:x" in an encrypted column is never encrypted. */
  lemma UpperCasePrefixStaysPlain(c: Crypto, dek: Bytes, nonces: CellId -> Bytes, cells: Cells,
                                  specs: seq<string>, id: CellId)
    requires id in cells && cells[id] == Some("ENCV1:x") && InColumns(id, specs, |specs|)
    ensures var after := ColumnsDone(c, dek, nonces, cells, specs, |specs|);
            id in after && after[id] == Some("ENCV1:x") && !HasPrefix("ENCV1:x", CIPHERTEXT_PREFIX)
  {
    UpperCaseIsLike();
    hide *;
    ColumnsDoneAt(c, dek, nonces, cells, specs, |specs|);
  }

  /** What a read of a cell gives. */
  function ReadCell(c: Crypto, engine: Engine, stored: Option<string>): Result<string, Error> {
    Decrypt(c, engine, if stored.Some? then stored.value else "")
  }

  lemma EncryptedReadsTheSame(c: Crypto, engine: Engine, nonce: Bytes, stored: Option<string>)
    requires c.Ideal() && engine.on && CipherKey(engine.dek) && Selected(stored)
    ensures ReadCell(c, engine, Encrypted(c, engine.dek, nonce, stored)) == ReadCell(c, engine, stored)
  {
    PrefixIsLike(stored.value);
    CiphertextOpens(c, engine, nonce, stored.value);
  }

  /** No number of columns changes what an armed read returns, nor which rows there are. */
  lemma BackfillKeepsReads(c: Crypto, engine: Engine, nonces: CellId -> Bytes, cells: Cells, specs: seq<string>, n: nat)
    requires c.Ideal() && engine.on && CipherKey(engine.dek) && n <= |specs|
    ensures var after := ColumnsDone(c, engine.dek, nonces, cells, specs, n);
            && after.Keys == cells.Keys
            && forall id :: id in cells ==> ReadCell(c, engine, after[id]) == ReadCell(c, engine, cells[id])
  {
    hide Ciphertext, LikeCiphertext, HasPrefix, SplitSpec, InColumn, ReadCell;
    ColumnsDoneAt(c, engine.dek, nonces, cells, specs, n);
    forall id | id in cells && Selected(cells[id])
      ensures ReadCell(c, engine, Encrypted(c, engine.dek, nonces(id), cells[id])) == ReadCell(c, engine, cells[id])
    {
      EncryptedReadsTheSame(c, engine, nonces(id), cells[id]);
    }
  }

  lemma SplitSpecOf(table: string, column: string)
    requires table != "" && column != "" && '.' !in table
    ensures SplitSpec(table + "." + column) == Some((table, column))
  {
    FirstIndex(table, '.', column);
    var spec := table + "." + column;
    assert spec[..|table|] == table && spec[|table| + 1..] == column;
  }

  lemma TableNamesHaveNoDot(i: nat)
    requires i < |COLUMN_NAMES|
    ensures COLUMN_NAMES[i].0 != "" && COLUMN_NAMES[i].1 != "" && '.' !in COLUMN_NAMES[i].0
  {
  }

  /** Every shipped spec splits into its table and column, so no run stops on a malformed spec. */
  lemma ShippedSpecsSplit(i: nat)
    requires i < |EncryptedColumns()|
    ensures SplitSpec(EncryptedColumns()[i]) == Some(COLUMN_NAMES[i])
  {
    TableNamesHaveNoDot(i);
    SplitSpecOf(COLUMN_NAMES[i].0, COLUMN_NAMES[i].1);
  }

  // The transactions

  class Database {
    var cells: Cells
    var tables: set<string>
    /** The trigger that aborts every UPDATE of the audit log. */
    var auditGuard: bool

    ghost predicate Valid()
      reads this
    {
      forall id :: id in cells ==> id.table in tables
    }

    /** UPDATE of one cell; false when the audit trigger or the database aborts it. */
    method UpdateCell(id: CellId, value: string, fails: bool) returns (ok: bool)
      requires id in cells
      modifies this`cells
      ensures ok <==> !fails && !(id.table == AUDIT_TABLE && auditGuard)
      ensures cells == if ok then old(cells)[id := Some(value)] else old(cells)
    {
      if fails || (id.table == AUDIT_TABLE && auditGuard) {
        return false;
      }
      cells := cells[id := Some(value)];
      return true;
    }

    /**
     * One column's transaction. `failAt` names the row, if any, whose UPDATE the database refuses.
     * A failure rolls everything back, the dropped trigger included.
     */
    method BackfillColumn(c: Crypto, engine: Engine, spec: string, nonces: CellId -> Bytes, failAt: Option<CellId>)
      returns (ok: bool)
      requires Valid() && engine.on && CipherKey(engine.dek)
      modifies this`cells, this`auditGuard
      ensures Valid()
      ensures ok ==> cells == ColumnDone(c, engine.dek, nonces, old(cells), spec)
      ensures ok ==> auditGuard == (old(auditGuard)
                       || (SplitSpec(spec).Some? && SplitSpec(spec).value.0 == AUDIT_TABLE && AUDIT_TABLE in tables))
      ensures !ok ==> cells == old(cells) && auditGuard == old(auditGuard)
      ensures SplitSpec(spec).Some? && failAt.None? ==> ok
    {
      hide Ciphertext, LikeCiphertext, HasPrefix;
      var split := SplitSpec(spec);
      if split.None? {
        return false;
      }
      hide SplitSpec;
      var table, column := split.value.0, split.value.1;
      if table !in tables {
        return true;
      }
      var todo := set id | id in cells && id.table == table && id.column == column && Selected(cells[id]);
      var savedCells, savedGuard := cells, auditGuard;
      if table == AUDIT_TABLE {
        auditGuard := false;
      }
      var updated := EncryptRows(c, engine, todo, nonces, failAt);
      if !updated {
        cells, auditGuard := savedCells, savedGuard;
        return false;
      }
      if table == AUDIT_TABLE {
        auditGuard := true;
      }
      return true;
    }

    /** Encrypt the selected rows in place, stopping at the first UPDATE that is refused. */
    method EncryptRows(c: Crypto, engine: Engine, rows: set<CellId>, nonces: CellId -> Bytes, failAt: Option<CellId>)
      returns (ok: bool)
      requires engine.on && CipherKey(engine.dek) && rows <= cells.Keys
      requires forall id :: id in rows ==> Selected(cells[id]) && !(id.table == AUDIT_TABLE && auditGuard)
      modifies this`cells
      ensures cells.Keys == old(cells).Keys
      ensures ok <==> !(failAt.Some? && failAt.value in rows)
      ensures ok ==> forall id :: id in cells ==>
                cells[id] == if id in rows then Encrypted(c, engine.dek, nonces(id), old(cells)[id]) else old(cells)[id]
    {
      hide Ciphertext, LikeCiphertext, HasPrefix;
      var todo := rows;
      while todo != {}
        invariant todo <= rows && cells.Keys == old(cells).Keys
        invariant failAt.Some? ==> failAt.value !in rows - todo
        invariant forall id :: id in cells ==>
                    cells[id] == if id in rows - todo then Encrypted(c, engine.dek, nonces(id), old(cells)[id])
                                 else old(cells)[id]
        decreases todo
      {
        var id :| id in todo;
        var ct := Encrypt(c, engine, nonces(id), cells[id].value);
        var updated := UpdateCell(id, ct.value, failAt == Some(id));
        if !updated {
          return false;
        }
        todo := todo - {id};
      }
      return true;
    }

    /** The whole backfill: stops at the first failing column, having committed the ones before it. */
    method Run(c: Crypto, engine: Engine, nonces: CellId -> Bytes, failAt: Option<CellId>) returns (ok: bool, done: nat)
      requires Valid() && (engine.on ==> CipherKey(engine.dek))
      modifies this`cells, this`auditGuard
      ensures Valid() && done <= |EncryptedColumns()|
      ensures cells == ColumnsDone(c, engine.dek, nonces, old(cells), EncryptedColumns(), done)
      ensures old(auditGuard) ==> auditGuard
      ensures !engine.on ==> ok && done == 0
      ensures engine.on ==> (ok <==> done == |EncryptedColumns()|) && (failAt.None? ==> ok)
    {
      hide EncryptedColumns, ColumnDone, SplitSpec;
      done := 0;
      if !engine.on {
        return true, 0;
      }
      while done < |EncryptedColumns()|
        invariant Valid() && done <= |EncryptedColumns()|
        invariant cells == ColumnsDone(c, engine.dek, nonces, old(cells), EncryptedColumns(), done)
        invariant old(auditGuard) ==> auditGuard
      {
        ShippedSpecsSplit(done);
        var committed := BackfillColumn(c, engine, EncryptedColumns()[done], nonces, failAt);
        if !committed {
          return false, done;
        }
        done := done + 1;
      }
      ok := true;
    }
  }
}
