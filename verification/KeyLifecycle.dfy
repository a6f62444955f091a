/**
 * Whole runs of a deployment with encryption at rest: boots with the right, a wrong or no master
 * key, restarts, writes, backfills and key rotations, in any order.
 */
module KeyLifecycle {
  import opened Wrappers
  import opened Text
  import opened AtRest
  import opened Backfill

  /** Known to the proofs only: the one data key ever made and the master key that wraps it now. */
  datatype Keys = Keys(dek: Bytes, kek: Bytes)

  /** `meaning` is the value last written to each cell; `keys` appears with the first armed boot. */
  datatype World = World(engine: Engine, row: KeyRow, cells: Cells, meaning: map<CellId, string>, keys: Option<Keys>)

  datatype Step =
    | Boot(kek: Option<Bytes>, freshDek: Bytes, nonce: Bytes)
    | Restart
    | Write(id: CellId, value: string, nonce: Bytes)
    | WriteNull(id: CellId)
    | BackfillColumns(n: nat, nonces: CellId -> Bytes)
    | Rotate(oldKek: Bytes, newKek: Bytes, nonce: Bytes)

  /** A new data key is 32 random bytes; no value written while disarmed begins with the ciphertext prefix. */
  predicate Enabled(w: World, step: Step) {
    && (step.Boot? ==> |step.freshDek| == KEY_SIZE)
    && (step.Write? ==> w.engine.on || !HasPrefix(step.value, CIPHERTEXT_PREFIX))
    && (step.BackfillColumns? ==> step.n <= |EncryptedColumns()|)
  }

  function Next(c: Crypto, w: World, step: Step): World
    requires Enabled(w, step)
  {
    match step
    case Boot(kek, freshDek, nonce) =>
      (match Initialized(c, w.engine, w.row, kek, freshDek, nonce)
       case Err(_) => w
       case Ok((engine, row)) =>
         w.(engine := engine, row := row,
            keys := if w.keys.None? && engine.on then Some(Keys(engine.dek, engine.kek)) else w.keys))
    case Restart => w.(engine := OFF)
    case Write(id, value, nonce) =>
      (match Encrypt(c, w.engine, nonce, value)
       case Err(_) => w
       case Ok(stored) => w.(cells := w.cells[id := Some(stored)], meaning := w.meaning[id := value]))
    case WriteNull(id) => w.(cells := w.cells[id := None], meaning := w.meaning[id := ""])
    case BackfillColumns(n, nonces) =>
      if w.engine.on then w.(cells := ColumnsDone(c, w.engine.dek, nonces, w.cells, EncryptedColumns(), n)) else w
    case Rotate(oldKek, newKek, nonce) =>
      (match Rotated(c, w.engine, w.row, oldKek, newKek, nonce)
       case Err(_) => w
       case Ok((engine, row)) =>
         w.(engine := engine, row := row,
            keys := if w.keys.Some? then Some(w.keys.value.(kek := newKek)) else None))
  }

  ghost predicate IsSealed(c: Crypto, keys: Keys, stored: string, meaning: string) {
    exists nonce :: stored == Ciphertext(c, c.sealWith(keys.dek, nonce, meaning))
  }

  predicate IsPlain(stored: string, meaning: string) {
    stored == meaning && !HasPrefix(meaning, CIPHERTEXT_PREFIX)
  }

  /** A cell stores its value as NULL for the empty value, as plaintext, or sealed under the data key. */
  ghost predicate Stores(c: Crypto, keys: Option<Keys>, stored: Option<string>, meaning: string) {
    if stored.None? then meaning == ""
    else IsPlain(stored.value, meaning) || (keys.Some? && IsSealed(c, keys.value, stored.value, meaning))
  }

  ghost predicate RowWraps(c: Crypto, row: KeyRow, keys: Option<Keys>) {
    match keys
    case None => row == None
    case Some(k) =>
      CipherKey(k.dek) && CipherKey(k.kek) && exists nonce :: row == Some(c.sealWith(k.kek, nonce, k.dek))
  }

  ghost predicate Inv(c: Crypto, w: World) {
    && RowWraps(c, w.row, w.keys)
    && (w.engine.on ==> w.keys.Some? && w.engine.dek == w.keys.value.dek)
    && w.cells.Keys == w.meaning.Keys
    && forall id :: id in w.cells ==> Stores(c, w.keys, w.cells[id], w.meaning[id])
  }

  /** A fresh deployment over any legacy plaintext. */
  predicate Fresh(w: World) {
    && w.engine == OFF && w.row == None && w.keys == None && w.cells.Keys == w.meaning.Keys
    && forall id :: id in w.cells ==>
         if w.cells[id].None? then w.meaning[id] == "" else IsPlain(w.cells[id].value, w.meaning[id])
  }

  lemma RowOpens(c: Crypto, w: World, kek: Bytes)
    requires c.Ideal() && RowWraps(c, w.row, w.keys) && w.keys.Some?
    ensures w.row.Some? && w.row.value != ""
    ensures Open(c, kek, w.row.value) == if kek == w.keys.value.kek then Some(w.keys.value.dek) else None
  {
    var k := w.keys.value;
    var nonce :| w.row == Some(c.sealWith(k.kek, nonce, k.dek));
    assert |c.sealWith(k.kek, nonce, k.dek)| >= NONCE_SIZE;
  }

  lemma BootKeepsInv(c: Crypto, w: World, kek: Option<Bytes>, freshDek: Bytes, nonce: Bytes)
    requires c.Ideal() && Inv(c, w) && |freshDek| == KEY_SIZE
    ensures Inv(c, Next(c, w, Boot(kek, freshDek, nonce)))
  {
    hide Ciphertext, HasPrefix;
    if kek.Some? {
      if w.keys.Some? {
        RowOpens(c, w, kek.value);
      } else if CipherKey(kek.value) {
        var w' := Next(c, w, Boot(kek, freshDek, nonce));
        assert w'.row == Some(c.sealWith(kek.value, nonce, freshDek));
        assert RowWraps(c, w'.row, w'.keys);
      }
    }
  }

  lemma WriteKeepsInv(c: Crypto, w: World, id: CellId, value: string, nonce: Bytes)
    requires c.Ideal() && Inv(c, w) && Enabled(w, Write(id, value, nonce))
    ensures Inv(c, Next(c, w, Write(id, value, nonce)))
  {
    hide Ciphertext, RowWraps;
    var w' := Next(c, w, Write(id, value, nonce));
    if value != "" && w.engine.on {
      if CipherKey(w.engine.dek) {
        assert IsSealed(c, w.keys.value, w'.cells[id].value, value);
      }
    } else {
      assert IsPlain(value, value);
    }
  }

  /** A cell the backfill encrypts still stores its meaning. */
  lemma EncryptedStores(c: Crypto, keys: Keys, nonce: Bytes, stored: Option<string>, meaning: string)
    requires Stores(c, Some(keys), stored, meaning) && Selected(stored)
    ensures Stores(c, Some(keys), Encrypted(c, keys.dek, nonce, stored), meaning)
  {
    SelectedIsPlain(c, Some(keys), stored, meaning);
    hide Ciphertext, Selected, HasPrefix;
    assert IsSealed(c, keys, Encrypted(c, keys.dek, nonce, stored).value, meaning);
  }

  lemma BackfillKeepsInv(c: Crypto, w: World, n: nat, nonces: CellId -> Bytes)
    requires c.Ideal() && Inv(c, w) && n <= |EncryptedColumns()|
    ensures Inv(c, Next(c, w, BackfillColumns(n, nonces)))
  {
    hide RowWraps, InColumns, Stores, Encrypted, Selected, EncryptedColumns, ColumnsDone;
    if w.engine.on {
      ColumnsDoneAt(c, w.engine.dek, nonces, w.cells, EncryptedColumns(), n);
      var w' := Next(c, w, BackfillColumns(n, nonces));
      forall id | id in w.cells ensures Stores(c, w.keys, w'.cells[id], w.meaning[id]) {
        if Selected(w.cells[id]) {
          EncryptedStores(c, w.keys.value, nonces(id), w.cells[id], w.meaning[id]);
        }
      }
    }
  }

  lemma SelectedIsPlain(c: Crypto, keys: Option<Keys>, stored: Option<string>, meaning: string)
    requires Stores(c, keys, stored, meaning) && Selected(stored)
    ensures stored == Some(meaning)
  {
    if keys.Some? {
      forall nonce ensures !Selected(Some(Ciphertext(c, c.sealWith(keys.value.dek, nonce, meaning)))) {
        CiphertextIsPrefixed(c, c.sealWith(keys.value.dek, nonce, meaning));
      }
    }
  }

  lemma RotateKeepsInv(c: Crypto, w: World, oldKek: Bytes, newKek: Bytes, nonce: Bytes)
    requires c.Ideal() && Inv(c, w)
    ensures Inv(c, Next(c, w, Rotate(oldKek, newKek, nonce)))
  {
    hide Ciphertext, HasPrefix;
    if w.keys.Some? {
      RowOpens(c, w, oldKek);
      var w' := Next(c, w, Rotate(oldKek, newKek, nonce));
      if oldKek == w.keys.value.kek && CipherKey(newKek) {
        assert w'.row == Some(c.sealWith(newKek, nonce, w.keys.value.dek));
        assert RowWraps(c, w'.row, w'.keys);
        forall id | id in w.cells ensures Stores(c, w'.keys, w.cells[id], w.meaning[id]) {
          if w.cells[id].Some? && !IsPlain(w.cells[id].value, w.meaning[id]) {
            assert IsSealed(c, w.keys.value, w.cells[id].value, w.meaning[id]);
            assert IsSealed(c, w'.keys.value, w.cells[id].value, w.meaning[id]);
          }
        }
      }
    }
  }

  lemma StepKeepsInv(c: Crypto, w: World, step: Step)
    requires c.Ideal() && Inv(c, w) && Enabled(w, step)
    ensures Inv(c, Next(c, w, step))
  {
    match step
    case Boot(kek, freshDek, nonce) => BootKeepsInv(c, w, kek, freshDek, nonce);
    case Restart =>
    case Write(id, value, nonce) => WriteKeepsInv(c, w, id, value, nonce);
    case WriteNull(id) =>
    case BackfillColumns(n, nonces) => BackfillKeepsInv(c, w, n, nonces);
    case Rotate(oldKek, newKek, nonce) => RotateKeepsInv(c, w, oldKek, newKek, nonce);
  }

  predicate Runnable(c: Crypto, w: World, steps: seq<Step>)
    decreases |steps|
  {
    steps == [] || (Enabled(w, steps[0]) && Runnable(c, Next(c, w, steps[0]), steps[1..]))
  }

  function Run(c: Crypto, w: World, steps: seq<Step>): World
    requires Runnable(c, w, steps)
    decreases |steps|
  {
    if steps == [] then w else Run(c, Next(c, w, steps[0]), steps[1..])
  }

  lemma {:induction false} RunKeepsInv(c: Crypto, w: World, steps: seq<Step>)
    requires c.Ideal() && Inv(c, w) && Runnable(c, w, steps)
    ensures Inv(c, Run(c, w, steps))
    decreases |steps|
  {
    hide Inv, Next;
    if steps != [] {
      StepKeepsInv(c, w, steps[0]);
      RunKeepsInv(c, Next(c, w, steps[0]), steps[1..]);
    }
  }

  lemma ReadInInv(c: Crypto, w: World, engine: Engine, id: CellId)
    requires c.Ideal() && Inv(c, w) && id in w.cells
    ensures w.keys.Some? && engine.on && engine.dek == w.keys.value.dek
            ==> ReadCell(c, engine, w.cells[id]) == Ok(w.meaning[id])
    ensures !engine.on && ReadCell(c, engine, w.cells[id]).Ok? ==> ReadCell(c, engine, w.cells[id]) == Ok(w.meaning[id])
    ensures !engine.on && w.cells[id].Some? && !IsPlain(w.cells[id].value, w.meaning[id])
            ==> ReadCell(c, engine, w.cells[id]).Err?
  {
    hide Ciphertext;
    var stored, meaning := w.cells[id], w.meaning[id];
    if stored.Some? && !IsPlain(stored.value, meaning) {
      var k := w.keys.value;
      assert IsSealed(c, k, stored.value, meaning);
      var nonce :| stored.value == Ciphertext(c, c.sealWith(k.dek, nonce, meaning));
      if engine.on && engine.dek == k.dek {
        CiphertextOpens(c, engine, nonce, meaning);
      }
      if !engine.on {
        CiphertextFailsClosed(c, engine, k.dek, nonce, meaning);
      }
    }
  }

  /**
   * Over every run from a fresh deployment: an armed read returns the value last written, and a
   * disarmed one either does too or fails; it never returns a ciphertext.
   */
  lemma ReadsReturnLastWrite(c: Crypto, w: World, steps: seq<Step>, id: CellId)
    requires c.Ideal() && Fresh(w) && Runnable(c, w, steps)
    requires id in Run(c, w, steps).cells
    ensures var w' := Run(c, w, steps);
            && id in w'.meaning
            && (w'.engine.on ==> ReadCell(c, w'.engine, w'.cells[id]) == Ok(w'.meaning[id]))
            && (!w'.engine.on ==> ReadCell(c, w'.engine, w'.cells[id]) == Ok(w'.meaning[id])
                                  || ReadCell(c, w'.engine, w'.cells[id]) == Err(NotArmed))
  {
    assert Inv(c, w);
    RunKeepsInv(c, w, steps);
    var w' := Run(c, w, steps);
    ReadInInv(c, w', w'.engine, id);
  }

  /**
   * Over every run, a boot with a master key succeeds exactly when it is the current one, then
   * arms the one data key; a wrong key changes neither engine nor database.
   */
  lemma OnlyCurrentKeyBoots(c: Crypto, w: World, steps: seq<Step>, kek: Bytes, freshDek: Bytes, nonce: Bytes)
    requires c.Ideal() && Fresh(w) && Runnable(c, w, steps) && |freshDek| == KEY_SIZE
    requires Run(c, w, steps).keys.Some?
    ensures var w' := Run(c, w, steps);
            var booted := Initialized(c, w'.engine, w'.row, Some(kek), freshDek, nonce);
            && (booted.Ok? <==> kek == w'.keys.value.kek)
            && (VerifyBackup(c, w'.row, Some(kek)).Ok? <==> booted.Ok?)
            && (booted.Ok? ==> booted.value == (Engine(true, w'.keys.value.dek, kek), w'.row))
            && (booted.Err? ==> Next(c, w', Boot(Some(kek), freshDek, nonce)) == w')
  {
    assert Inv(c, w);
    RunKeepsInv(c, w, steps);
    hide Inv, Ciphertext;
    assert RowWraps(c, Run(c, w, steps).row, Run(c, w, steps).keys) by { InvHasRow(c, Run(c, w, steps)); }
    RowOpens(c, Run(c, w, steps), kek);
  }

  lemma InvHasRow(c: Crypto, w: World)
    requires Inv(c, w)
    ensures RowWraps(c, w.row, w.keys)
  {
  }

  /**
   * Over every run, a rotation succeeds exactly from the current master key to a usable one; then
   * only the new key boots, no cell has changed, and a running engine keeps its data key.
   */
  lemma RotationHandsOver(c: Crypto, w: World, steps: seq<Step>, oldKek: Bytes, newKek: Bytes, nonce: Bytes,
                          kek: Bytes, freshDek: Bytes, bootNonce: Bytes)
    requires c.Ideal() && Fresh(w) && Runnable(c, w, steps) && |freshDek| == KEY_SIZE
    requires Run(c, w, steps).keys.Some?
    ensures var w' := Run(c, w, steps);
            var rotated := Rotated(c, w'.engine, w'.row, oldKek, newKek, nonce);
            && (rotated.Ok? <==> oldKek == w'.keys.value.kek && CipherKey(newKek))
            && (rotated.Ok? ==>
                  && (Initialized(c, OFF, rotated.value.1, Some(kek), freshDek, bootNonce).Ok? <==> kek == newKek)
                  && Next(c, w', Rotate(oldKek, newKek, nonce)).cells == w'.cells
                  && Next(c, w', Rotate(oldKek, newKek, nonce)).row == rotated.value.1
                  && Next(c, w', Rotate(oldKek, newKek, nonce)).engine
                     == Engine(w'.engine.on, w'.keys.value.dek, newKek)
                  && rotated.value.0.on == w'.engine.on && rotated.value.0.dek == w'.keys.value.dek)
  {
    assert Inv(c, w);
    RunKeepsInv(c, w, steps);
    var w' := Run(c, w, steps);
    InvHasRow(c, w');
    hide Inv, Ciphertext;
    RowOpens(c, w', oldKek);
    if oldKek == w'.keys.value.kek && CipherKey(newKek) {
      var row := Some(c.sealWith(newKek, nonce, w'.keys.value.dek));
      var after := w'.(row := row, keys := Some(Keys(w'.keys.value.dek, newKek)));
      assert RowWraps(c, after.row, after.keys);
      RowOpens(c, after, kek);
    }
  }

  // The engine and the key row, updated in place

  class KeyedEngine {
    var on: bool
    var dek: Bytes
    var kek: Bytes
    var keyRow: KeyRow

    ghost function Armed(): Engine
      reads this
    {
      Engine(on, dek, kek)
    }

    method LoadOrCreate(c: Crypto, master: Bytes, freshDek: Bytes, nonce: Bytes) returns (r: Result<Bytes, Error>)
      modifies this`keyRow
      ensures var spec := LoadOrCreateDek(c, old(keyRow), master, freshDek, nonce);
              && (r.Ok? <==> spec.Ok?)
              && (r.Ok? ==> (r.value, keyRow) == spec.value)
              && (r.Err? ==> keyRow == old(keyRow) && r.error == spec.error)
    {
      if keyRow.Some? && keyRow.value != "" {
        var unwrapped := Open(c, master, keyRow.value);
        if unwrapped.None? {
          return Err(CannotUnwrap);
        }
        return Ok(unwrapped.value);
      }
      var wrapped := Seal(c, master, nonce, freshDek);
      if wrapped.None? {
        return Err(CannotWrap);
      }
      if keyRow.Some? {
        return Err(CannotPersist);
      }
      keyRow := wrapped;
      return Ok(freshDek);
    }

    /** Boot: on failure neither the engine nor the key row has changed. */
    method Initialize(c: Crypto, master: Option<Bytes>, freshDek: Bytes, nonce: Bytes) returns (r: Result<(), Error>)
      modifies this
      ensures var spec := Initialized(c, old(Armed()), old(keyRow), master, freshDek, nonce);
              && (r.Ok? <==> spec.Ok?)
              && (r.Ok? ==> (Armed(), keyRow) == spec.value)
              && (r.Err? ==> Armed() == old(Armed()) && keyRow == old(keyRow))
    {
      if master.None? {
        on, dek, kek := false, "", "";
        return Ok(());
      }
      var loaded := LoadOrCreate(c, master.value, freshDek, nonce);
      if loaded.Err? {
        return Err(loaded.error);
      }
      dek := loaded.value;
      kek := master.value;
      on := true;
      return Ok(());
    }

    /** Rotation rewraps the one row, then swaps the keys in memory; it does not arm a disarmed engine. */
    method RotateMasterKey(c: Crypto, oldKek: Bytes, newKek: Bytes, nonce: Bytes) returns (r: Result<(), Error>)
      modifies this
      ensures var spec := Rotated(c, old(Armed()), old(keyRow), oldKek, newKek, nonce);
              && (r.Ok? <==> spec.Ok?)
              && (r.Ok? ==> (Armed(), keyRow) == spec.value)
              && (r.Err? ==> Armed() == old(Armed()) && keyRow == old(keyRow))
    {
      if keyRow.None? || keyRow.value == "" {
        return Err(NoWrappedKey);
      }
      var unwrapped := Open(c, oldKek, keyRow.value);
      if unwrapped.None? {
        return Err(CannotUnwrap);
      }
      var wrapped := Seal(c, newKek, nonce, unwrapped.value);
      if wrapped.None? {
        return Err(CannotWrap);
      }
      keyRow := wrapped;
      dek := unwrapped.value;
      kek := newKek;
      return Ok(());
    }
  }
}
