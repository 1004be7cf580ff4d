/**
 * The SafeVault class: an in-memory table of secrets under string labels,
 * unlocked by a key that PBKDF2 derives from the master password and a
 * random salt, and persisted as a JSON object with three fields (`salt`,
 * `iterations`, `data`) whose `data` is the Fernet token of the whole
 * table.
 */
module Vault {
  import opened Wrappers
  import opened Base64
  import opened Crypto

  /** The PBKDF2 iteration count used for every derivation. */
  const KdfIterations: nat := 480000

  /** The number of random bytes drawn for the salt of a new vault. */
  const SaltLength: nat := 16

  /** The JSON object read from or written to the vault file, each field present or missing. */
  datatype Container = Container(salt: Option<string>, iterations: Option<int>, data: Option<string>)

  /** What `json.load` made of an existing vault file: no JSON at all, a JSON value that is not an object, or an object. */
  datatype VaultFile = Unparseable | NotAnObject | Parsed(content: Container)

  /** The exception wrapped into "Error loading vault: ...". */
  datatype LoadCause =
    | NotSubscriptable                    // indexing a JSON value that is not an object raised TypeError
    | SaltNotBase64(reason: DecodeError)  // b64decode raised
    | SaltRefused                         // key derivation raised "Salt is missing"
    | PayloadNotJson                      // the plaintext is not a JSON table

  /** The messages a `VaultError` can carry. */
  datatype VaultError =
    | MissingSalt                    // "Salt is missing. Cannot derive key."
    | AuthenticationFailed           // "Authentication failed. Invalid password or corrupted vault file."
    | LoadFailed(cause: LoadCause)   // "Error loading vault: ..."

  /** Why opening a vault raised: a `VaultError`, or the JSON decoding error of an unreadable file. */
  datatype OpenError = Vault(error: VaultError) | FileNotJson

  /** What a successful load establishes: the salt read back, the derived key and the decrypted table. */
  datatype Session = Session(salt: Bytes, key: Bytes, table: Table)

  /** What `list_keys` shows: the empty notice, or the labels one per line. */
  datatype Listing = EmptyNotice | Labels(labels: seq<string>)

  /**
   * Loading an existing vault on values: read the salt with the standard
   * decoder, derive the key, decrypt `data`, parse the table. A missing
   * `salt`, and a missing `data` or a token that does not decrypt once the
   * salt has given a key, all end in the authentication message; a salt
   * that does not decode or decodes to nothing, and a plaintext that is not
   * a table, are wrapped as load errors. The stored iteration count is
   * never consulted.
   */
  function OpenExisting(c: Suite, password: Bytes, content: Container): (r: Result<Session, VaultError>)
    ensures content.salt.None? ==> r == Err(AuthenticationFailed)
    ensures content.salt.Some? && StandardDecode(content.salt.value).Err? ==>
      r == Err(LoadFailed(SaltNotBase64(StandardDecode(content.salt.value).error)))
    ensures content.salt.Some? && StandardDecode(content.salt.value) == Ok([]) ==> r == Err(LoadFailed(SaltRefused))
    ensures content.salt.Some? && StandardDecode(content.salt.value).Ok? && StandardDecode(content.salt.value).value != [] ==>
      var key := c.pbkdf2(password, StandardDecode(content.salt.value).value, KdfIterations);
      && (content.data.None? || c.decrypt(key, content.data.value).None? ==> r == Err(AuthenticationFailed))
      && (content.data.Some? && c.decrypt(key, content.data.value).Some? && c.loads(c.decrypt(key, content.data.value).value).None? ==>
            r == Err(LoadFailed(PayloadNotJson)))
    ensures r.Ok? ==>
      && content.salt.Some? && content.data.Some?
      && StandardDecode(content.salt.value) == Ok(r.value.salt) && r.value.salt != []
      && r.value.key == c.pbkdf2(password, r.value.salt, KdfIterations)
      && c.decrypt(r.value.key, content.data.value).Some?
      && c.loads(c.decrypt(r.value.key, content.data.value).value) == Some(r.value.table)
    ensures r.Err? && r.error != AuthenticationFailed ==> r.error.LoadFailed?
  {
    if content.salt.None? then Err(AuthenticationFailed)
    else match StandardDecode(content.salt.value)
      case Err(e) => Err(LoadFailed(SaltNotBase64(e)))
      case Ok(salt) =>
        if salt == [] then Err(LoadFailed(SaltRefused))
        else
          var key := c.pbkdf2(password, salt, KdfIterations);
          if content.data.None? then Err(AuthenticationFailed)
          else match c.decrypt(key, content.data.value)
            case None => Err(AuthenticationFailed)
            case Some(plain) => match c.loads(plain)
              case None => Err(LoadFailed(PayloadNotJson))
              case Some(table) => Ok(Session(salt, key, table))
  }

  /**
   * The container that saving writes: the salt in the URL-safe alphabet,
   * the constant iteration count, and a token that only the session key
   * opens, to the serialized table.
   */
  function SaveImage(c: Suite, salt: Bytes, key: Bytes, table: Table, iv: Bytes): (r: Container)
    ensures r.salt == Some(Encode(UrlSafe, salt)) && r.iterations == Some(KdfIterations) && r.data.Some?
    ensures Correct(c) ==> c.decrypt(key, r.data.value) == Some(c.dumps(table))
    ensures Authenticated(c) ==> forall other :: other != key ==> c.decrypt(other, r.data.value) == None
  {
    Container(Some(Encode(UrlSafe, salt)), Some(KdfIterations), Some(c.encrypt(key, c.dumps(table), iv)))
  }

  /**
   * Saving with the salt written in the standard alphabet, the one the
   * loader reads: what the code evidently intends at line 96.
   */
  function SaveImageStandardSalt(c: Suite, salt: Bytes, key: Bytes, table: Table, iv: Bytes): (r: Container)
    ensures r.salt == Some(Encode(Standard, salt)) && r.iterations == Some(KdfIterations)
    ensures r.data == SaveImage(c, salt, key, table, iv).data
  {
    Container(Some(Encode(Standard, salt)), Some(KdfIterations), Some(c.encrypt(key, c.dumps(table), iv)))
  }

  /**
   * Loading with the salt read by `urlsafe_b64decode`, the decoder of the
   * alphabet the salt is written in: what the code evidently intends at
   * line 67. Every other step is the as-written load.
   */
  function OpenExistingUrlSafe(c: Suite, password: Bytes, content: Container): (r: Result<Session, VaultError>)
    ensures content.salt.None? ==> r == Err(AuthenticationFailed)
    ensures r.Ok? ==>
      && content.salt.Some? && content.data.Some?
      && UrlSafeDecode(content.salt.value) == Ok(r.value.salt) && r.value.salt != []
      && r.value.key == c.pbkdf2(password, r.value.salt, KdfIterations)
      && c.decrypt(r.value.key, content.data.value).Some?
      && c.loads(c.decrypt(r.value.key, content.data.value).value) == Some(r.value.table)
    ensures content.salt.Some? && !HasUrlOnlyChar(content.salt.value) ==> r == OpenExisting(c, password, content)
  {
    if content.salt.None? then OpenExisting(c, password, content)
    else OpenExisting(c, password, content.(salt := Some(UrlSafeToStandard(content.salt.value))))
  }

  /** Decoding the written salt text gives a different salt, which PBKDF2 turns into a different key for this password. */
  ghost predicate ReadBackSaltChangesKey(c: Suite, password: Bytes, salt: Bytes)
  {
    var readBack := StandardDecode(Encode(UrlSafe, salt));
    readBack.Ok? && readBack.value != salt ==>
      c.pbkdf2(password, readBack.value, KdfIterations) != c.pbkdf2(password, salt, KdfIterations)
  }

  class SafeVault {
    /** The libraries the vault calls. */
    const crypto: Suite
    /** The UTF-8 password; None once derivation has deleted it. */
    var password: Option<Bytes>
    /** The secret table. */
    var data: Table
    /** The salt; None until it is drawn or read. */
    var salt: Option<Bytes>
    /** The Fernet handle, represented by the key it was built from; None until derived. */
    var fernet: Option<Bytes>

    /** The state of an opened vault: salt and key present, password dropped. */
    predicate Unlocked()
      reads this
    {
      salt.Some? && salt.value != [] && fernet.Some? && password.None?
    }

    /** The attributes set before the vault file is looked at. */
    constructor(crypto: Suite, password: string)
      ensures this.crypto == crypto && this.password == Some(crypto.utf8(password))
      ensures data == map[] && salt == None && fernet == None
    {
      this.crypto := crypto;
      this.password := Some(crypto.utf8(password));
      data := map[];
      salt := None;
      fernet := None;
    }

    /**
     * Constructing a vault: with no file, a new vault on the given random
     * salt; with a file, a load that either unlocks the vault or raises.
     */
    static method Open(crypto: Suite, password: string, file: Option<VaultFile>, randomSalt: Bytes)
      returns (r: Result<SafeVault, OpenError>)
      requires |randomSalt| == SaltLength
      ensures r.Ok? ==> fresh(r.value) && r.value.crypto == crypto && r.value.Unlocked()
      ensures file.None? ==>
        && r.Ok? && r.value.data == map[] && r.value.salt == Some(randomSalt)
        && r.value.fernet == Some(crypto.pbkdf2(crypto.utf8(password), randomSalt, KdfIterations))
      ensures file == Some(Unparseable) ==> r == Err(FileNotJson)
      ensures file == Some(NotAnObject) ==> r == Err(Vault(LoadFailed(NotSubscriptable)))
      ensures file.Some? && file.value.Parsed? ==>
        match OpenExisting(crypto, crypto.utf8(password), file.value.content)
        case Ok(s) => r.Ok? && r.value.data == s.table && r.value.salt == Some(s.salt) && r.value.fernet == Some(s.key)
        case Err(e) => r == Err(Vault(e))
    {
      var v := new SafeVault(crypto, password);
      if file.None? {
        v.SetupNewVault(randomSalt);
        return Ok(v);
      }
      var err := v.LoadVault(file.value);
      if err.Some? {
        return Err(err.value);
      }
      return Ok(v);
    }

    /** A fresh vault: the random salt, the key derived from it, the table left empty. */
    method SetupNewVault(randomSalt: Bytes)
      requires password.Some? && |randomSalt| == SaltLength
      modifies this`salt, this`fernet, this`password
      ensures salt == Some(randomSalt) && password.None?
      ensures fernet == Some(crypto.pbkdf2(old(password).value, randomSalt, KdfIterations))
    {
      salt := Some(randomSalt);
      var refused := DeriveKeyAndFernet();
      assert refused.None?;  // a 16-byte salt is never refused
    }

    /**
     * Key derivation: refuses a missing or empty salt and changes nothing;
     * otherwise sets the cipher from PBKDF2 at the fixed iteration count
     * and deletes the password.
     */
    method DeriveKeyAndFernet() returns (err: Option<VaultError>)
      requires password.Some?
      modifies this`fernet, this`password
      ensures err.Some? <==> salt.None? || salt.value == []
      ensures err.Some? ==> err == Some(MissingSalt) && fernet == old(fernet) && password == old(password)
      ensures err.None? ==> fernet == Some(crypto.pbkdf2(old(password).value, salt.value, KdfIterations)) && password.None?
    {
      if salt.None? || salt.value == [] {
        return Some(MissingSalt);
      }
      var keyBytes := crypto.pbkdf2(password.value, salt.value, KdfIterations);
      fernet := Some(keyBytes);
      password := None;
      return None;
    }

    /**
     * Loading the vault file. The table is assigned last, only once the
     * token has been decrypted and parsed; a failure leaves it as it was,
     * with the salt and key reached so far.
     */
    method LoadVault(file: VaultFile) returns (err: Option<OpenError>)
      requires password.Some? && salt.None? && fernet.None?
      modifies this`salt, this`fernet, this`password, this`data
      ensures err.Some? ==> data == old(data)
      ensures file.Unparseable? ==> err == Some(FileNotJson) && salt == None && fernet == None && password == old(password)
      ensures file.NotAnObject? ==>
        err == Some(Vault(LoadFailed(NotSubscriptable))) && salt == None && fernet == None && password == old(password)
      ensures file.Parsed? ==>
        match OpenExisting(crypto, old(password).value, file.content)
        case Ok(s) => err.None? && data == s.table && salt == Some(s.salt) && fernet == Some(s.key) && password.None?
        case Err(e) => err == Some(Vault(e))
      ensures salt.Some? ==> file.Parsed? && file.content.salt.Some? && StandardDecode(file.content.salt.value) == Ok(salt.value)
      ensures fernet.Some? ==>
        salt.Some? && fernet == Some(crypto.pbkdf2(old(password).value, salt.value, KdfIterations)) && password.None?
      ensures fernet.None? ==> password == old(password)
    {
      if file.Unparseable? {
        return Some(FileNotJson);
      }
      if file.NotAnObject? {
        return Some(Vault(LoadFailed(NotSubscriptable)));
      }
      var content := file.content;
      if content.salt.None? {
        return Some(Vault(AuthenticationFailed));
      }
      var decoded := StandardDecode(content.salt.value);
      if decoded.Err? {
        return Some(Vault(LoadFailed(SaltNotBase64(decoded.error))));
      }
      salt := Some(decoded.value);
      var refused := DeriveKeyAndFernet();
      if refused.Some? {
        return Some(Vault(LoadFailed(SaltRefused)));
      }
      if content.data.None? {
        return Some(Vault(AuthenticationFailed));
      }
      var plain := crypto.decrypt(fernet.value, content.data.value);
      if plain.None? {
        return Some(Vault(AuthenticationFailed));
      }
      var table := crypto.loads(plain.value);
      if table.None? {
        return Some(Vault(LoadFailed(PayloadNotJson)));
      }
      data := table.value;
      return None;
    }

    /** Saving: the whole table encrypted under the session key, next to the salt and the constant iteration count. */
    method SaveVault(iv: Bytes) returns (written: Container)
      requires salt.Some? && fernet.Some?
      ensures written == SaveImage(crypto, salt.value, fernet.value, data, iv)
      ensures written.salt == Some(Encode(UrlSafe, salt.value)) && written.iterations == Some(KdfIterations)
      ensures Correct(crypto) ==> crypto.decrypt(fernet.value, written.data.value) == Some(crypto.dumps(data))
    {
      var jsonData := crypto.dumps(data);
      var encrypted := crypto.encrypt(fernet.value, jsonData, iv);
      written := Container(Some(Encode(UrlSafe, salt.value)), Some(KdfIterations), Some(encrypted));
    }

    /** Insert or overwrite; an empty label or value is refused and nothing changes. */
    method AddEntry(key: string, value: string) returns (added: bool)
      modifies this`data
      ensures added <==> key != "" && value != ""
      ensures !added ==> data == old(data)
      ensures added ==> key in data && data[key] == value
      ensures forall k :: k != key ==> (k in data <==> k in old(data)) && (k in data ==> data[k] == old(data)[k])
    {
      if key == "" || value == "" {
        return false;
      }
      data := data[key := value];
      return true;
    }

    /** Lookup that answers None for an absent label instead of raising. */
    function GetEntry(key: string): (r: Option<string>)
      reads this
      ensures r.Some? <==> key in data
      ensures r.Some? ==> r.value == data[key]
    {
      if key in data then Some(data[key]) else None
    }

    /** Removal that reports whether the label was present; every other entry stays. */
    method DeleteEntry(key: string) returns (removed: bool)
      modifies this`data
      ensures removed <==> key in old(data)
      ensures key !in data
      ensures data == old(data) - {key}
    {
      if key in data {
        data := data - {key};
        return true;
      }
      return false;
    }

    /** The empty notice for an empty table, otherwise every stored label exactly once. */
    method ListKeys() returns (listing: Listing)
      ensures listing.EmptyNotice? <==> data == map[]
      ensures listing.Labels? ==> forall k :: k in data <==> k in listing.labels
      ensures listing.Labels? ==> |listing.labels| == |data|
      ensures listing.Labels? ==> forall i, j :: 0 <= i < j < |listing.labels| ==> listing.labels[i] != listing.labels[j]
    {
      if data == map[] {
        return EmptyNotice;
      }
      var labels: seq<string> := [];
      var remaining := data.Keys;
      while remaining != {}
        invariant remaining <= data.Keys
        invariant forall k :: k in data ==> (k in labels <==> k !in remaining)
        invariant forall i :: 0 <= i < |labels| ==> labels[i] in data
        invariant forall i, j :: 0 <= i < j < |labels| ==> labels[i] != labels[j]
        invariant |labels| + |remaining| == |data.Keys|
        decreases |remaining|
      {
        var k :| k in remaining;
        labels := labels + [k];
        remaining := remaining - {k};
      }
      return Labels(labels);
    }
  }

  /**
   * The entry operations as a caller sees them: a stored value is found
   * again, a deleted label is gone, and a second delete reports nothing.
   */
  method EntryLifecycle(v: SafeVault, key: string, value: string)
    returns (added: bool, found: Option<string>, removed: bool, foundAfter: Option<string>, removedAgain: bool)
    modifies v
    ensures added <==> key != "" && value != ""
    ensures added ==> found == Some(value) && removed
    ensures !added ==> found == old(v.GetEntry(key)) && (removed <==> key in old(v.data))
    ensures foundAfter == None && !removedAgain
    ensures v.data == old(v.data) - {key}
  {
    added := v.AddEntry(key, value);
    found := v.GetEntry(key);
    removed := v.DeleteEntry(key);
    foundAfter := v.GetEntry(key);
    removedAgain := v.DeleteEntry(key);
    assert added ==> v.data == old(v.data)[key := value] - {key};
  }

  // -----------------------------------------------------------------------
  // The open/save protocol
  // -----------------------------------------------------------------------

  /** The `iterations` field has no effect on loading. */
  lemma IterationsIgnored(c: Suite, password: Bytes, content: Container, stored: Option<int>)
    ensures OpenExisting(c, password, content.(iterations := stored)) == OpenExisting(c, password, content)
  {
  }

  /**
   * A container without `salt` or without `data` never opens. Without `salt`
   * it reports an authentication failure; without `data` it does so only
   * once the salt has decoded to bytes, since the salt is read first.
   */
  lemma MissingFieldRejected(c: Suite, password: Bytes, content: Container)
    requires content.salt.None? || content.data.None?
    ensures OpenExisting(c, password, content).Err?
    ensures content.salt.None? ==> OpenExisting(c, password, content) == Err(AuthenticationFailed)
    ensures content.salt.Some? && StandardDecode(content.salt.value).Ok? && StandardDecode(content.salt.value).value != [] ==>
      OpenExisting(c, password, content) == Err(AuthenticationFailed)
    ensures content.salt.Some? && !(StandardDecode(content.salt.value).Ok? && StandardDecode(content.salt.value).value != []) ==>
      OpenExisting(c, password, content).error.LoadFailed?
  {
  }

  /** Saving then opening with the same password restores the table when the written salt reads back. */
  lemma SaveThenOpenRestores(c: Suite, password: Bytes, salt: Bytes, table: Table, iv: Bytes)
    requires Correct(c)
    requires salt != [] && !HasUrlOnlyChar(Encode(UrlSafe, salt))
    ensures var key := c.pbkdf2(password, salt, KdfIterations);
      OpenExisting(c, password, SaveImage(c, salt, key, table, iv)) == Ok(Session(salt, key, table))
  {
    UrlSafeReadAsStandard(salt);
  }

  /**
   * When the written salt holds '-' or '_', the standard decoder skips them:
   * decoding fails or yields a different salt, hence a different key, and an
   * authenticated token is rejected.
   */
  lemma SaveThenOpenRejectsUrlSalt(c: Suite, password: Bytes, salt: Bytes, table: Table, iv: Bytes)
    requires Authenticated(c) && ReadBackSaltChangesKey(c, password, salt)
    requires HasUrlOnlyChar(Encode(UrlSafe, salt))
    ensures OpenExisting(c, password, SaveImage(c, salt, c.pbkdf2(password, salt, KdfIterations), table, iv)).Err?
  {
    UrlSafeReadAsStandard(salt);
    var decoded := StandardDecode(Encode(UrlSafe, salt));
    if decoded.Ok? && decoded.value != [] {
      assert decoded.value != salt;
    }
  }

  /** The save/load round trip holds exactly when the URL-safe salt text has neither '-' nor '_'. */
  lemma SaveThenOpenIff(c: Suite, password: Bytes, salt: Bytes, table: Table, iv: Bytes)
    requires Correct(c) && Authenticated(c) && ReadBackSaltChangesKey(c, password, salt)
    requires salt != []
    ensures var key := c.pbkdf2(password, salt, KdfIterations);
      OpenExisting(c, password, SaveImage(c, salt, key, table, iv)) == Ok(Session(salt, key, table))
      <==> !HasUrlOnlyChar(Encode(UrlSafe, salt))
  {
    if HasUrlOnlyChar(Encode(UrlSafe, salt)) {
      SaveThenOpenRejectsUrlSalt(c, password, salt, table, iv);
    } else {
      SaveThenOpenRestores(c, password, salt, table, iv);
    }
  }

  /** A password whose key differs from the one the vault was saved under is rejected with the authentication message. */
  lemma WrongPasswordRejected(c: Suite, password: Bytes, guess: Bytes, salt: Bytes, table: Table, iv: Bytes)
    requires Authenticated(c)
    requires salt != [] && !HasUrlOnlyChar(Encode(UrlSafe, salt))
    requires c.pbkdf2(guess, salt, KdfIterations) != c.pbkdf2(password, salt, KdfIterations)
    ensures OpenExisting(c, guess, SaveImage(c, salt, c.pbkdf2(password, salt, KdfIterations), table, iv)) == Err(AuthenticationFailed)
  {
    UrlSafeReadAsStandard(salt);
  }

  /** With the salt written in the standard alphabet, saving then opening with the same password restores every salt. */
  lemma StandardSaltSaveThenOpen(c: Suite, password: Bytes, salt: Bytes, table: Table, iv: Bytes)
    requires Correct(c) && salt != []
    ensures var key := c.pbkdf2(password, salt, KdfIterations);
      OpenExisting(c, password, SaveImageStandardSalt(c, salt, key, table, iv)) == Ok(Session(salt, key, table))
  {
    StandardRoundTrip(salt);
  }

  /** With the salt read in the alphabet it is written in, saving then opening with the same password restores every salt. */
  lemma UrlSafeSaveThenOpen(c: Suite, password: Bytes, salt: Bytes, table: Table, iv: Bytes)
    requires Correct(c) && salt != []
    ensures var key := c.pbkdf2(password, salt, KdfIterations);
      OpenExistingUrlSafe(c, password, SaveImage(c, salt, key, table, iv)) == Ok(Session(salt, key, table))
  {
    UrlSafeTextToStandard(salt);
    StandardRoundTrip(salt);
  }
}
