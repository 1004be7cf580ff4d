/**
 * The libraries the vault calls but whose internals are not part of this
 * model: UTF-8 encoding of the password, PBKDF2-HMAC-SHA256, Fernet, and
 * the JSON encoding of the secret table inside the ciphertext. Each is a
 * function-valued field, so nothing about it is known beyond the
 * assumptions stated as predicates below.
 */
module Crypto {
  import opened Wrappers
  import opened Base64

  type Bytes = seq<byte>

  /** The live secret table: label to secret value. */
  type Table = map<string, string>

  datatype Suite = Suite(
    /** `str.encode('utf-8')` */
    utf8: string -> Bytes,
    /** PBKDF2-HMAC-SHA256 with output length 32: (password, salt, iterations) to key bytes. */
    pbkdf2: (Bytes, Bytes, nat) -> Bytes,
    /** `Fernet(urlsafe_b64encode(key)).encrypt(plaintext).decode()`: the third argument stands for the random IV and timestamp. */
    encrypt: (Bytes, Bytes, Bytes) -> string,
    /** `Fernet(urlsafe_b64encode(key)).decrypt(token)`: None stands for InvalidToken. */
    decrypt: (Bytes, string) -> Option<Bytes>,
    /** `json.dumps(table).encode('utf-8')` */
    dumps: Table -> Bytes,
    /** `json.loads(bytes.decode('utf-8'))`: None stands for any exception or a result that is not a string table. */
    loads: Bytes -> Option<Table>)

  /** Fernet decrypts under the key it encrypted with, and JSON reads back what it wrote. */
  ghost predicate Correct(c: Suite)
  {
    && (forall key, plain, iv :: c.decrypt(key, c.encrypt(key, plain, iv)) == Some(plain))
    && (forall t :: c.loads(c.dumps(t)) == Some(t))
  }

  /** Fernet's authentication tag: a token made under one key is rejected under any other. */
  ghost predicate Authenticated(c: Suite)
  {
    forall key, other, plain, iv :: key != other ==> c.decrypt(other, c.encrypt(key, plain, iv)) == None
  }
}
