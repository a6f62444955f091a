/**
 * Field-level encryption at rest: an engine holding a data key, the one database row that keeps
 * that key wrapped under the master key, and cells that mix plaintext and ciphertext.
 */
module AtRest {
  import opened Wrappers
  import opened Text

  type Bytes = string

  const CIPHERTEXT_PREFIX := "encv1:"
  const KEY_ID := "main"
  const KEY_SIZE: nat := 32
  const NONCE_SIZE: nat := 12

  /** The cipher and the base64url codec the layer is built on. */
  datatype Crypto = Crypto(
    sealWith: (Bytes, Bytes, Bytes) -> Bytes,
    openWith: (Bytes, Bytes) -> Option<Bytes>,
    encode64: Bytes -> string,
    decode64: string -> Option<Bytes>)
  {
    /** An ideal AEAD: the sealing key opens, no other key does. The codec inverts. */
    ghost predicate Ideal() {
      && (forall k, n, p :: openWith(k, sealWith(k, n, p)) == Some(p))
      && (forall k, k', n, p :: k != k' ==> openWith(k', sealWith(k, n, p)) == None)
      && (forall k, n, p :: |sealWith(k, n, p)| >= NONCE_SIZE)
      && (forall b :: decode64(encode64(b)) == Some(b))
    }
  }

  /** `aes.NewCipher` takes keys of 16, 24 or 32 bytes only. */
  predicate CipherKey(key: Bytes) {
    |key| in {16, 24, 32}
  }

  function Seal(c: Crypto, key: Bytes, nonce: Bytes, plaintext: Bytes): Option<Bytes> {
    if CipherKey(key) then Some(c.sealWith(key, nonce, plaintext)) else None
  }

  function Open(c: Crypto, key: Bytes, data: Bytes): Option<Bytes> {
    if !CipherKey(key) || |data| < NONCE_SIZE then None else c.openWith(key, data)
  }

  datatype Error = NeedsDatabase | CannotUnwrap | CannotWrap | CannotPersist | NoWrappedKey
                 | NotArmed | MalformedValue | DecryptionFailed

  /** The in-memory engine. */
  datatype Engine = Engine(on: bool, dek: Bytes, kek: Bytes)

  const OFF := Engine(false, "", "")

  function Ciphertext(c: Crypto, sealed: Bytes): string {
    CIPHERTEXT_PREFIX + KEY_ID + ":" + c.encode64(sealed)
  }

  /** Encrypt a value for storage; the empty string, and every value while disarmed, is stored as it is. */
  function Encrypt(c: Crypto, engine: Engine, nonce: Bytes, plaintext: string): Result<string, Error> {
    if plaintext == "" then Ok("")
    else if !engine.on then Ok(plaintext)
    else
      match Seal(c, engine.dek, nonce, plaintext)
      case None => Err(CannotWrap)
      case Some(sealed) => Ok(Ciphertext(c, sealed))
  }

  /** Open a stored value; a value without the prefix is legacy plaintext and returned as it is. */
  function Decrypt(c: Crypto, engine: Engine, stored: string): Result<string, Error> {
    if stored == "" then Ok("")
    else if !HasPrefix(stored, CIPHERTEXT_PREFIX) then Ok(stored)
    else if !engine.on then Err(NotArmed)
    else
      var rest := TrimPrefix(stored, CIPHERTEXT_PREFIX);
      match IndexOf(rest, ':')
      case None => Err(MalformedValue)
      case Some(i) =>
        if rest[..i] != KEY_ID then Err(MalformedValue)
        else
          match c.decode64(rest[i + 1..])
          case None => Err(MalformedValue)
          case Some(raw) =>
            match Open(c, engine.dek, raw)
            case None => Err(DecryptionFailed)
            case Some(plaintext) => Ok(plaintext)
  }

  /** The key row: absent, or with its wrapped key, which may be empty bytes. */
  type KeyRow = Option<Bytes>

  /** Load the data key, or make one from `freshDek` when there is no row; a second row is never inserted. */
  function LoadOrCreateDek(c: Crypto, row: KeyRow, kek: Bytes, freshDek: Bytes, nonce: Bytes)
    : Result<(Bytes, KeyRow), Error>
  {
    if row.Some? && row.value != "" then
      match Open(c, kek, row.value)
      case None => Err(CannotUnwrap)
      case Some(dek) => Ok((dek, row))
    else
      match Seal(c, kek, nonce, freshDek)
      case None => Err(CannotWrap)
      case Some(wrapped) => if row.Some? then Err(CannotPersist) else Ok((freshDek, Some(wrapped)))
  }

  /** Boot with an optional master key: the engine and key row afterwards. */
  function Initialized(c: Crypto, engine: Engine, row: KeyRow, kek: Option<Bytes>, freshDek: Bytes, nonce: Bytes)
    : Result<(Engine, KeyRow), Error>
  {
    if kek.None? then Ok((OFF, row))
    else
      match LoadOrCreateDek(c, row, kek.value, freshDek, nonce)
      case Err(e) => Err(e)
      case Ok((dek, row')) => Ok((Engine(true, dek, kek.value), row'))
  }

  /** The restore-side check of a database under a master key. */
  function VerifyBackup(c: Crypto, row: KeyRow, kek: Option<Bytes>): Result<(), Error> {
    if kek.None? || row.None? || row.value == "" then Ok(())
    else if Open(c, kek.value, row.value).None? then Err(CannotUnwrap)
    else Ok(())
  }

  /** Rewrap the data key under a new master key. */
  function Rotated(c: Crypto, engine: Engine, row: KeyRow, oldKek: Bytes, newKek: Bytes, nonce: Bytes)
    : Result<(Engine, KeyRow), Error>
  {
    if row.None? || row.value == "" then Err(NoWrappedKey)
    else
      match Open(c, oldKek, row.value)
      case None => Err(CannotUnwrap)
      case Some(dek) =>
        match Seal(c, newKek, nonce, dek)
        case None => Err(CannotWrap)
        case Some(wrapped) => Ok((engine.(dek := dek, kek := newKek), Some(wrapped)))
  }

  // The stored forms

  /** What a value is stored as. */
  lemma StoredForm(c: Crypto, engine: Engine, nonce: Bytes, plaintext: string)
    ensures Encrypt(c, engine, nonce, plaintext)
            == if plaintext == "" || !engine.on then Ok(plaintext)
               else if |engine.dek| in {16, 24, 32}
               then Ok("encv1:main:" + c.encode64(c.sealWith(engine.dek, nonce, plaintext)))
               else Err(CannotWrap)
  {
    assert CIPHERTEXT_PREFIX + KEY_ID + ":" == "encv1:main:";
  }

  lemma CutAtKeyId(rest: string, i: nat, payload: string)
    requires IndexOf(rest, ':') == Some(i)
    ensures rest == "main:" + payload <==> rest[..i] == "main" && rest[i + 1..] == payload
  {
    if rest == "main:" + payload {
      FirstIndex("main", ':', payload);
      assert rest == "main" + [':'] + payload;
    }
    if rest[..i] == "main" && rest[i + 1..] == payload {
      assert rest == rest[..i] + [rest[i]] + rest[i + 1..];
    }
  }

  /** What a stored payload opens to: keys of 16, 24 or 32 bytes, and at least the 12 bytes of a nonce. */
  predicate OpensTo(c: Crypto, key: Bytes, payload: string, plaintext: string) {
    var raw := c.decode64(payload);
    raw.Some? && |key| in {16, 24, 32} && |raw.value| >= 12 && c.openWith(key, raw.value) == Some(plaintext)
  }

  lemma DecryptsCut(c: Crypto, engine: Engine, rest: string, plaintext: string)
    requires engine.on
    ensures Decrypt(c, engine, "encv1:" + rest) == Ok(plaintext)
            <==> exists payload :: rest == "main:" + payload && OpensTo(c, engine.dek, payload, plaintext)
  {
    var stored := "encv1:" + rest;
    assert stored[|CIPHERTEXT_PREFIX|..] == rest && CIPHERTEXT_PREFIX <= stored;
    match IndexOf(rest, ':')
    case None =>
      forall payload ensures rest != "main:" + payload {
        assert ("main:" + payload)[4] == ':';
      }
    case Some(i) =>
      forall payload ensures rest == "main:" + payload <==> rest[..i] == "main" && rest[i + 1..] == payload {
        CutAtKeyId(rest, i, payload);
      }
      var payload := rest[i + 1..];
      assert rest[..i] == "main" ==> rest == "main:" + payload;
      assert Decrypt(c, engine, stored) == Ok(plaintext)
             <==> rest[..i] == "main" && OpensTo(c, engine.dek, payload, plaintext);
  }

  /**
   * A stored value reads as a plaintext exactly when it is that plaintext and does not begin with "encv1:", or
   * is "encv1:main:" and a payload that opens to it under the armed engine's data key.
   */
  lemma DecryptsExactly(c: Crypto, engine: Engine, stored: string, plaintext: string)
    ensures Decrypt(c, engine, stored) == Ok(plaintext)
            <==> if HasPrefix(stored, "encv1:")
                 then engine.on && exists payload :: stored == "encv1:" + ("main:" + payload)
                                                     && OpensTo(c, engine.dek, payload, plaintext)
                 else stored == plaintext
  {
    hide OpensTo;
    if HasPrefix(stored, "encv1:") {
      var rest := stored[6..];
      assert stored == "encv1:" + rest;
      if engine.on {
        DecryptsCut(c, engine, rest, plaintext);
        hide Decrypt;
        forall payload ensures stored == "encv1:" + ("main:" + payload) <==> rest == "main:" + payload {
          assert ("encv1:" + ("main:" + payload))[6..] == "main:" + payload;
        }
      }
    }
  }

  /** What a boot with a master key gives: the data key in the row, or a new one for a database without a row. */
  lemma BootExactly(c: Crypto, engine: Engine, row: KeyRow, kek: Bytes, freshDek: Bytes, nonce: Bytes)
    ensures var r := Initialized(c, engine, row, Some(kek), freshDek, nonce);
            if row == None then
              r == if |kek| in {16, 24, 32}
                   then Ok((Engine(true, freshDek, kek), Some(c.sealWith(kek, nonce, freshDek)))) else Err(CannotWrap)
            else if row == Some("") then r == Err(if |kek| in {16, 24, 32} then CannotPersist else CannotWrap)
            else r == if |kek| in {16, 24, 32} && |row.value| >= 12 && c.openWith(kek, row.value).Some?
                      then Ok((Engine(true, c.openWith(kek, row.value).value, kek), row)) else Err(CannotUnwrap)
  {
  }

  /** What a rotation gives: the same data key, sealed under the new master key, and the engine's flag as it was. */
  lemma RotationExactly(c: Crypto, engine: Engine, row: KeyRow, oldKek: Bytes, newKek: Bytes, nonce: Bytes)
    ensures var r := Rotated(c, engine, row, oldKek, newKek, nonce);
            if row == None || row == Some("") then r == Err(NoWrappedKey)
            else if !(|oldKek| in {16, 24, 32} && |row.value| >= 12 && c.openWith(oldKek, row.value).Some?)
            then r == Err(CannotUnwrap)
            else
              var dek := c.openWith(oldKek, row.value).value;
              r == if |newKek| in {16, 24, 32}
                   then Ok((Engine(engine.on, dek, newKek), Some(c.sealWith(newKek, nonce, dek)))) else Err(CannotWrap)
  {
  }

  /** Without a master key the engine is off and holds no key; the key row stays. */
  lemma NoMasterKeyDisarms(c: Crypto, engine: Engine, row: KeyRow, freshDek: Bytes, nonce: Bytes)
    ensures Initialized(c, engine, row, None, freshDek, nonce) == Ok((Engine(false, "", ""), row))
  {
  }

  /** What was encrypted under a data key decrypts to itself under that key. */
  lemma DecryptEncrypt(c: Crypto, engine: Engine, nonce: Bytes, plaintext: string)
    requires c.Ideal() && engine.on && CipherKey(engine.dek)
    ensures Encrypt(c, engine, nonce, plaintext).Ok?
    ensures Decrypt(c, engine, Encrypt(c, engine, nonce, plaintext).value) == Ok(plaintext)
  {
    if plaintext != "" {
      CiphertextOpens(c, engine, nonce, plaintext);
    }
  }

  /** A ciphertext is recognised as one and its payload recovered from between its separators. */
  lemma CiphertextParses(c: Crypto, sealed: Bytes)
    requires c.Ideal()
    ensures var stored, rest := Ciphertext(c, sealed), TrimPrefix(Ciphertext(c, sealed), CIPHERTEXT_PREFIX);
            && stored != "" && HasPrefix(stored, CIPHERTEXT_PREFIX)
            && IndexOf(rest, ':') == Some(|KEY_ID|) && rest[..|KEY_ID|] == KEY_ID
            && c.decode64(rest[|KEY_ID| + 1..]) == Some(sealed)
  {
    var stored := Ciphertext(c, sealed);
    var rest := KEY_ID + ":" + c.encode64(sealed);
    assert stored == CIPHERTEXT_PREFIX + rest;
    assert TrimPrefix(stored, CIPHERTEXT_PREFIX) == rest;
    FirstIndex(KEY_ID, ':', c.encode64(sealed));
    assert rest[|KEY_ID| + 1..] == c.encode64(sealed);
  }

  lemma CiphertextOpens(c: Crypto, engine: Engine, nonce: Bytes, plaintext: string)
    requires c.Ideal() && engine.on && CipherKey(engine.dek)
    ensures Decrypt(c, engine, Ciphertext(c, c.sealWith(engine.dek, nonce, plaintext))) == Ok(plaintext)
  {
    hide Ciphertext, TrimPrefix, HasPrefix, IndexOf;
    CiphertextParses(c, c.sealWith(engine.dek, nonce, plaintext));
  }

  /** A disarmed engine, or an engine with another data key, fails on a ciphertext and never returns it. */
  lemma CiphertextFailsClosed(c: Crypto, engine: Engine, dek: Bytes, nonce: Bytes, plaintext: string)
    requires c.Ideal() && (!engine.on || engine.dek != dek)
    ensures Decrypt(c, engine, Ciphertext(c, c.sealWith(dek, nonce, plaintext))).Err?
  {
    hide Ciphertext, TrimPrefix, HasPrefix, IndexOf;
    CiphertextParses(c, c.sealWith(dek, nonce, plaintext));
  }

  /**
   * The restore check accepts a database exactly when a boot under the same key would, except on
   * a key row whose wrapped key is empty: the check passes it, the boot cannot insert its row.
   */
  lemma RestoreCheckIsBoot(c: Crypto, engine: Engine, row: KeyRow, kek: Option<Bytes>, freshDek: Bytes, nonce: Bytes)
    requires kek.Some? ==> CipherKey(kek.value)
    ensures (VerifyBackup(c, row, kek).Ok? <==> Initialized(c, engine, row, kek, freshDek, nonce).Ok?)
            <==> !(kek.Some? && row == Some(""))
  {
  }
}
