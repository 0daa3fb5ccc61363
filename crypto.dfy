/**
 * Symbolic stand-ins for the cryptographic libraries the backend calls:
 * bcrypt password hashing and JSON Web Tokens (RFC 7519). Neither algorithm is
 * modelled; only what the handlers rely on is: a hash is checked by `compare`
 * against the key bcrypt derives from the password (its first 72 UTF-8 bytes),
 * and a signed token carries its claims and its lifetime.
 */
module Crypto {
  import opened Common

  /** The cost factor passed to `bcrypt.genSalt`. */
  const SALT_ROUNDS: nat := 10

  /** The UTF-8 encoding of one character, as bytes. */
  function Utf8Char(c: char): (b: seq<int>)
    ensures 1 <= |b| <= 4
    ensures forall i :: 0 <= i < |b| ==> 0 <= b[i] < 256
  {
    var n := c as int;
    if n < 0x80 then [n]
    else if n < 0x800 then [0xC0 + n / 0x40, 0x80 + n % 0x40]
    else if n < 0x1_0000 then [0xE0 + n / 0x1000, 0x80 + (n / 0x40) % 0x40, 0x80 + n % 0x40]
    else [0xF0 + (n / 0x4_0000) % 8, 0x80 + (n / 0x1000) % 0x40, 0x80 + (n / 0x40) % 0x40, 0x80 + n % 0x40]
  }

  /** The UTF-8 encoding of a string. */
  function Utf8(s: string): (b: seq<int>)
    ensures |b| >= |s|
  {
    if s == [] then [] else Utf8Char(s[0]) + Utf8(s[1..])
  }

  /** Encoding a concatenation is concatenating the encodings. */
  lemma {:induction false} Utf8Append(a: string, b: string)
    ensures Utf8(a + b) == Utf8(a) + Utf8(b)
  {
    if a == [] {
      assert a + b == b;
    } else {
      assert (a + b)[1..] == a[1..] + b;
      Utf8Append(a[1..], b);
    }
  }

  /** The most key bytes bcrypt reads. */
  const MAX_KEY_BYTES := 72

  /**
   * The key bcrypt derives from a password: its UTF-8 bytes followed by a zero
   * byte, of which at most the first 72 are read.
   */
  function Key(password: string): (k: seq<int>)
    ensures |k| <= MAX_KEY_BYTES
    ensures |Utf8(password)| < MAX_KEY_BYTES ==> k == Utf8(password) + [0]
    ensures |Utf8(password)| >= MAX_KEY_BYTES ==> k == Utf8(password)[..MAX_KEY_BYTES]
  {
    var bytes := Utf8(password) + [0];
    if |bytes| <= MAX_KEY_BYTES then bytes else bytes[..MAX_KEY_BYTES]
  }

  /**
   * A bcrypt hash. It is a term built from the salt and the key, never a plain
   * string, so a stored hash can never equal the password it protects.
   */
  datatype PasswordHash = Bcrypt(rounds: nat, salt: nat, key: seq<int>)

  /** `bcrypt.hash(password, salt)` with a salt from `bcrypt.genSalt(SALT_ROUNDS)`. */
  function Hash(password: string, salt: nat): (h: PasswordHash)
    ensures Compare(password, h)
    ensures forall other :: Compare(other, h) <==> Key(other) == Key(password)
    ensures h.rounds == SALT_ROUNDS && h.salt == salt
  {
    Bcrypt(SALT_ROUNDS, salt, Key(password))
  }

  /**
   * `bcrypt.compare(password, hash)`: the password's key is the one the hash was
   * made from, so a password longer than 72 bytes is judged by its first 72.
   */
  function Compare(password: string, h: PasswordHash): (ok: bool)
    ensures ok ==> |h.key| <= MAX_KEY_BYTES
    ensures |Utf8(password)| < MAX_KEY_BYTES ==> (ok <==> h.key == Utf8(password) + [0])
    ensures |Utf8(password)| >= MAX_KEY_BYTES ==> (ok <==> h.key == Utf8(password)[..MAX_KEY_BYTES])
  {
    Key(password) == h.key
  }

  /**
   * Only the first 72 bytes of a password count: two passwords that share them
   * verify against each other's hash, whatever follows.
   */
  lemma LongPasswordsCollide(prefix: string, x: string, y: string, salt: nat)
    requires |Utf8(prefix)| >= MAX_KEY_BYTES
    ensures Compare(prefix + x, Hash(prefix + y, salt))
  {
    Utf8Append(prefix, x);
    Utf8Append(prefix, y);
    assert Utf8(prefix + x)[..MAX_KEY_BYTES] == Utf8(prefix)[..MAX_KEY_BYTES];
    assert Utf8(prefix + y)[..MAX_KEY_BYTES] == Utf8(prefix)[..MAX_KEY_BYTES];
  }

  /** A password of fewer than 72 bytes verifies only against a password with the same bytes. */
  lemma ShortPasswordsCompareWhole(password: string, other: string, salt: nat)
    requires |Utf8(password)| < MAX_KEY_BYTES && |Utf8(other)| < MAX_KEY_BYTES
    ensures Compare(other, Hash(password, salt)) <==> Utf8(other) == Utf8(password)
  {
    if Compare(other, Hash(password, salt)) {
      assert Utf8(other) == (Utf8(other) + [0])[..|Utf8(other)|];
      assert Utf8(password) == (Utf8(password) + [0])[..|Utf8(password)|];
    }
  }

  /** Lifetime of a session token (`expiresIn: '24h'`), in seconds. */
  const SESSION_TTL: nat := 24 * 60 * 60

  /** Lifetime of a second-factor token (`expiresIn: '5m'`), in seconds. */
  const TEMP_TTL: nat := 5 * 60

  /** The `type` claim of a second-factor token. */
  const TEMP_TYPE := "temp"

  /**
   * A token's payload: `id` always, `username` in session tokens, `type` in
   * second-factor tokens.
   */
  datatype Claims = Claims(id: Id, username: Option<string>, typ: Option<string>)

  /** `jwt.sign(claims, JWT_SECRET, { expiresIn: ttl })`. */
  datatype Jwt = Jwt(claims: Claims, ttl: nat)

  /** The 24-hour token `{ id, username }` issued by register and after a verified code. */
  function SessionToken(id: Id, username: string): (t: Jwt)
    ensures t.claims.id == id && t.claims.username == Some(username) && t.claims.typ == None
    ensures t.ttl == 86400
  {
    Jwt(Claims(id, Some(username), None), SESSION_TTL)
  }

  /** The 5-minute token `{ id, type: 'temp' }` issued by login when a second factor is due. */
  function TempToken(id: Id): (t: Jwt)
    ensures t.claims.id == id && t.claims.typ == Some("temp") && t.claims.username == None
    ensures t.ttl == 300
  {
    Jwt(Claims(id, None, Some(TEMP_TYPE)), TEMP_TTL)
  }

  /**
   * A token as a client presents it: absent or empty, or a string that decodes
   * to a token together with whether `jwt.verify` accepts it (signed with the
   * server key and not expired). The validity bit is opaque: signatures and
   * clocks are not modelled.
   */
  datatype Presented = NoToken | Token(jwt: Jwt, verifies: bool)
}
