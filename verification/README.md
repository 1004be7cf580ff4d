# SafeVault in Dafny

A model of the `SafeVault` class of `SafeValt.py`: a single-user secret
store whose table of secrets (label to value) lives in memory, is unlocked
by a key that PBKDF2-HMAC-SHA256 derives from a master password and a
16-byte random salt, and is saved as a JSON object with the fields `salt`,
`iterations` and `data`, where `data` is the Fernet token of the whole
table.

Files:

- `wrappers.dfy` — `Option` and `Result`.
- `base64.dfy` — the salt's text form: the RFC 4648 encoder with either the
  standard alphabet (RFC 4648 section 4) or the URL- and filename-safe
  alphabet (RFC 4648 section 5), and Python's `base64.b64decode` as the vault calls it
  (standard alphabet, `validate=False`), which rejects non-ASCII text and
  then decodes like CPython's `binascii.a2b_base64` in non-strict mode:
  characters outside the standard alphabet are skipped, a '=' ends the
  input once it completes a quantum, and a dangling data character or an
  unfinished quantum is an error.
- `crypto.dfy` — the libraries the vault calls (UTF-8 encoding, PBKDF2,
  Fernet encrypt/decrypt, JSON dumps/loads) as function-valued fields of a
  `Suite`, with the assumptions the proofs use stated as predicates:
  `Correct` (decrypting under the key that encrypted gives the plaintext
  back, and loads undoes dumps), `Authenticated` (a token made under one
  key is rejected under any other).
- `vault.dfy` — the `SafeVault` class with its fields `password`, `data`,
  `salt` and `fernet`, the load and save steps on values (`OpenExisting`,
  `SaveImage`), and the lemmas about the protocol. It also states the one
  hypothesis about PBKDF2 that the failing round trip needs,
  `ReadBackSaltChangesKey`: for the one salt the decoder returns in place
  of the written one, the password gets a different key. It is a
  hypothesis about a single pair of salts, not a claim that PBKDF2 is
  collision-free.

Two inconsistencies of the code are modelled as written:

- The iteration count is written from the constant (`SafeValt.py:97`),
  derivation always uses the constant (`SafeValt.py:50`), and loading never
  reads the stored field: `IterationsIgnored`.
- The salt is written with the URL-safe alphabet (`SafeValt.py:96`) and read
  with the standard decoder (`SafeValt.py:67`), which is RFC 4648 section 4
  only. The decoder skips '-' and
  '_', so the salt comes back unchanged exactly when its written text holds
  neither (`Base64.UrlSafeReadAsStandard`); otherwise decoding fails or
  yields fewer bytes, so a saved vault no longer opens with its own password
  (`SaveThenOpenIff`). Sixteen 0xFF bytes are one such salt
  (`Base64.UrlSaltExample`). For a uniformly random 16-byte salt each of
  the first 21 data characters is '-' or '_' with probability 1/32 (the
  22nd carries only two bits and never is), so about half of all new vaults
  (1 - (31/32)^21, roughly 0.49) cannot be reopened after saving.

Other behaviours of the code that the model keeps as written:

- A missing `salt`, or a missing `data` after a salt that decodes to
  non-empty bytes, ends in the authentication message, because the
  `KeyError` is caught together with `InvalidToken` (`SafeValt.py:80-82`);
  it is not reported as a distinct corrupt-vault error. The salt is decoded
  and the key derived (`SafeValt.py:67-70`) before `data` is read
  (`SafeValt.py:73`), so a container without `data` whose salt does not
  decode, or decodes to nothing, ends in "Error loading vault: ..." instead.
- A file that is not JSON raises the JSON decoding error itself, not a
  `VaultError`, because `json.load` runs before the `try` (`SafeValt.py:62-63`):
  `FileNotJson`. A file that is JSON but not an object (`[]`, `42`, `null`)
  fails at `content['salt']` with a `TypeError` inside the `try`, which is
  wrapped as "Error loading vault: ...": `LoadFailed(NotSubscriptable)`.
- The key-derivation error of a load is wrapped as "Error loading vault: ..."
  by the generic handler (`SafeValt.py:83-84`): `LoadFailed(SaltRefused)`.
- There is no iteration floor and the stored count is not authoritative.

## Model

| member | source | states |
|---|---|---|
| `Vault.OpenExisting` | SafeValt.py:60-84 | a missing `salt` gives the authentication error; a salt text that does not decode gives the wrapped decoding error, one that decodes to nothing the wrapped key-derivation error; after a non-empty salt, a missing `data` or a token that does not decrypt under PBKDF2 of password and salt gives the authentication error, and a plaintext that is not a table the wrapped JSON error; success only when both fields are present, the salt text decodes to a non-empty salt, the key is PBKDF2 of password and that salt at 480000 iterations, the token decrypts under it and the plaintext parses to the returned table |
| `Vault.OpenExistingUrlSafe` | SafeValt.py:60-84 | the corrected load, reading the salt with `urlsafe_b64decode`: a missing `salt` gives the authentication error; success only with the salt the URL-safe decoder returns and the key, token and table as in the as-written load; on salt text without '-' or '_' it behaves exactly as the as-written load |
| `Vault.UrlSafeSaveThenOpen` | SafeValt.py:67-99 | with the salt read in the alphabet it is written in, save then open with the same password restores salt, key and table for every non-empty salt |
| `Vault.SaveImage` | SafeValt.py:88-99 | the salt field is the URL-safe text of the salt, the iteration field the constant, and the data token decrypts under the key, and only under the key, to the serialized table |
| `Vault.SaveImageStandardSalt` | SafeValt.py:88-99 | the writer-side alternative correction: same iterations and token, salt text in RFC 4648 section 4 |
| `Vault.StandardSaltSaveThenOpen` | SafeValt.py:67-99 | with the salt written in the standard alphabet, save then open with the as-written load and the same password restores salt, key and table for every non-empty salt |
| `Vault.SafeVault.constructor` | SafeValt.py:20-25 | the password is held as its UTF-8 bytes; table empty, salt and cipher absent |
| `Vault.SafeVault.Open` | SafeValt.py:20-32 | with no file: unlocked, salt is the 16 random bytes, key is PBKDF2 of password and salt, table empty; with an unparseable file: the JSON error; with JSON that is not an object: the wrapped load error; with a parsed file: unlocked with the loaded salt, key and table exactly when the load succeeds, otherwise the load's `VaultError` |
| `Vault.SafeVault.SetupNewVault` | SafeValt.py:34-39 | the salt becomes the random bytes, the cipher is keyed by PBKDF2 of password and salt at the fixed count, the password is dropped |
| `Vault.SafeVault.DeriveKeyAndFernet` | SafeValt.py:41-58 | fails with the missing-salt error exactly when the salt is absent or empty, changing nothing; otherwise the cipher key is PBKDF2(password, salt, 480000) and the password is no longer held |
| `Vault.SafeVault.LoadVault` | SafeValt.py:60-84 | a file that is not JSON gives the JSON error, JSON that is not an object a wrapped load error, otherwise the outcome is that of `OpenExisting`: a missing `salt`, or a missing `data` or failed decrypt after a non-empty salt, give the authentication error, other failures a wrapped load error; the table is assigned only on success; any salt kept was decoded from the file; any key kept is derived from it and the password is then dropped |
| `Vault.SafeVault.SaveVault` | SafeValt.py:86-104 | writes the URL-safe salt text, the constant iteration count and the token of the serialized table, which decrypts under the session key to that serialization |
| `Vault.SafeVault.AddEntry` | SafeValt.py:106-113 | succeeds exactly when label and value are non-empty; on refusal the table is unchanged; on success the label maps to the value; every other label and value is unchanged |
| `Vault.SafeVault.GetEntry` | SafeValt.py:115-117 | returns the stored value when the label is present and None otherwise, reading the table only |
| `Vault.SafeVault.DeleteEntry` | SafeValt.py:119-126 | reports true exactly when the label was present; afterwards it is absent and the table is the old one minus that label |
| `Vault.SafeVault.ListKeys` | SafeValt.py:128-136 | reports the empty notice exactly when the table is empty; otherwise lists every stored label, each exactly once |
| `Vault.EntryLifecycle` | SafeValt.py:106-126 | add then get finds the value; delete then get finds nothing; a second delete reports false; refused adds change nothing |
| `Vault.IterationsIgnored` | SafeValt.py:60-84 | the stored `iterations` field has no effect on loading |
| `Vault.MissingFieldRejected` | SafeValt.py:65-82 | a container missing `salt` or `data` never opens; a missing `salt`, or a missing `data` after a salt that decodes to non-empty bytes, gives the authentication error; a missing `data` after any other salt gives a wrapped load error |
| `Vault.SaveThenOpenRestores` | SafeValt.py:67-99 | if the crypto suite is correct and the written salt has no '-' or '_', loading what was saved with the same password restores salt, key and table |
| `Vault.SaveThenOpenRejectsUrlSalt` | SafeValt.py:67-99 | if the written salt has '-' or '_', tokens are authenticated and the salt read back (if any) gives a different key, loading what was saved fails |
| `Vault.SaveThenOpenIff` | SafeValt.py:67-99 | save-then-load with the same password restores the table exactly when the URL-safe salt text has neither '-' nor '_' |
| `Vault.WrongPasswordRejected` | SafeValt.py:72-82 | a password whose derived key differs is rejected with the authentication error, never an altered table |
| `Base64.Scan` | SafeValt.py:67 | the non-strict decoding scan only appends to the bytes already emitted; text with no standard-alphabet character adds nothing; at the end of the text it succeeds exactly at a quantum boundary |
| `Base64.UrlSafeDecode` | SafeValt.py:67 | `urlsafe_b64decode` of a str, the decoder the corrected load uses: non-ASCII text is refused, and text with neither '-' nor '_' decodes exactly as with `b64decode` |
| `Base64.UrlSafeTextToStandard` | SafeValt.py:96 | translating '-' to '+' and '_' to '/' turns the RFC 4648 section 5 text of any bytes into their section 4 text |
| `Base64.UrlSafeRoundTrip` | SafeValt.py:96 | `urlsafe_b64decode` inverts `urlsafe_b64encode` on every byte sequence |
| `Base64.StandardDecode` | SafeValt.py:67 | `b64decode` of a str: non-ASCII text is refused; a success yields at most 3 bytes per 4 standard-alphabet characters, whatever else the text holds |
| `Base64.Symbol` | SafeValt.py:96 | the two alphabets agree below 62; only the URL-safe one yields '-' or '_', for 62 and 63; the standard table decodes each standard character to its value |
| `Base64.Sextets` | SafeValt.py:96 | n bytes give 4 characters per full group and 2 or 3 for a partial one |
| `Base64.Encode` | SafeValt.py:96 | the text is ASCII and 4 characters per started 3-byte group long |
| `Base64.ScanEncoded` | SafeValt.py:67 | decoding standard-alphabet text appends exactly the bytes it encodes |
| `Base64.StandardRoundTrip` | SafeValt.py:67 | the standard decoder inverts the RFC 4648 section 4 encoder |
| `Base64.ScanLength` | SafeValt.py:67 | a successful decode yields at most 3 bytes per 4 standard-alphabet characters |
| `Base64.UrlSafeReadAsStandard` | SafeValt.py:67 | RFC 4648 section 5 text read with the standard decoder gives the bytes back exactly when it holds neither '-' nor '_'; otherwise it fails or gives fewer bytes |
| `Base64.UrlSaltExample` | SafeValt.py:96 | sixteen 0xFF bytes encode with '_' and do not survive the round trip |

## Findings

| source | as written | input that shows it | evidently intended | confidence | as-written member | corrected member |
|---|---|---|---|---|---|---|
| SafeValt.py:96 | the salt is written with `urlsafe_b64encode` (RFC 4648 section 5) but read at line 67 with `b64decode` (section 4), which skips '-' and '_' | the salt of sixteen 0xFF bytes, whose text starts with '_'; about half of random 16-byte salts contain '-' or '_' | the salt is read with the decoder of the alphabet it is written in (`urlsafe_b64decode`, base64url as the file format gives it), so every saved vault, including those already written, reopens with its password | high (proved; not executed) | `Vault.SaveThenOpenIff` | `Vault.UrlSafeSaveThenOpen` |

The class keeps the code as written (`LoadVault` reads with `OpenExisting`,
`SaveVault` writes `SaveImage`). The corrected load `OpenExistingUrlSafe`
and its round trip `UrlSafeSaveThenOpen` stand beside it. The writer-side
alternative, `SaveImageStandardSalt` with `StandardSaltSaveThenOpen`, also
restores every salt, but only for vaults saved after the change: a vault
already written with '-' or '_' in its salt text stays unreadable to the
as-written load.

## Left out

- `main`, `main_menu`, `get_master_password` and the start-up library check (`SafeValt.py:139-236`): interactive input and console output.
- Printed messages: `AddEntry` returns whether it stored the entry and `ListKeys` returns what would be printed, instead of printing.
- File system: `os.path.exists`, reading and writing `vault_data.json` are replaced by an optional `VaultFile` argument and a returned `Container`; I/O errors are not modelled.
- Randomness: `os.urandom(16)` is the `randomSalt` argument and Fernet's IV and timestamp are the `iv` argument of `SaveVault`.
- PBKDF2-HMAC-SHA256, Fernet, UTF-8 and JSON are uninterpreted functions of a `Suite`; the byte length of keys and tokens, Fernet's HMAC and time-stamps are not modelled.
- JSON text: a decrypted payload that parses to something other than a string-to-string object is treated as a load error, whereas the code would assign it to `data`.
- Field types: a container field of the wrong JSON type (a number for `salt`, say) is not modelled; fields are either strings (`iterations` an integer) or missing. A file whose JSON is not an object is modelled (`NotAnObject`).
- Insertion order of the table and of the key listing: the table is a `map`, so `ListKeys` lists the labels in an unspecified order.
- `Vault.SafeVault.LoadVault`: requires the state left by the constructor (password held, no salt, no cipher), the only state in which the code calls it.
- `Vault.SafeVault.SaveVault`: requires salt and cipher to be present, which every successfully opened vault has; the code would raise on a vault without them.
