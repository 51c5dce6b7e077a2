/** The key lifecycle of the vault (`EncryptionService`): a master key held
    in memory while unlocked, and two secure-storage entries, the salt and
    the PIN verifier. The cryptographic primitives are parameters (a
    `Crypto` record of functions); the secure storage is a map with a flag
    saying whether writes succeed. Every operation is a pure transition on
    a `Vault` value. */
module Encryption {
  import opened Wrappers

  type byte = x: int | 0 <= x < 256

  /** The primitives the service calls, as opaque functions.
      - `pbkdf2(pin, salt)`: the hex text of the derived 256-bit key
        (100,000 iterations);
      - `sha256(pin)`: the hex text of the PIN digest (the verifier);
      - `sha512(key)`: the 64 raw bytes of the digest of the key text;
      - `aesEncrypt(data, passphrase)`: the ciphertext text;
      - `aesDecrypt(data, passphrase)`: the plaintext, or `None` when
        decoding the decrypted bytes as UTF-8 throws. */
  datatype Crypto = Crypto(
    pbkdf2: (string, string) -> string,
    sha256: string -> string,
    sha512: string -> seq<byte>,
    aesEncrypt: (string, string) -> string,
    aesDecrypt: (string, string) -> Option<string>)

  /** What the library guarantees and the model relies on only where a
      lemma says so: 64 hex characters from PBKDF2, 64 bytes from SHA-512,
      and AES decryption undoing encryption under the same passphrase. */
  ghost predicate WellFormed(c: Crypto)
  {
    && (forall pin, salt :: |c.pbkdf2(pin, salt)| == 64)
    && (forall k :: |c.sha512(k)| == 64)
    && (forall data, k :: c.aesDecrypt(c.aesEncrypt(data, k), k) == Some(data))
  }

  /** Keychain service aliases. The salt lives under the alias named for the
      master key. */
  const SaltAlias := "vault_master_key"
  const PinHashAlias := "vault_pin_hash"

  /** Secure storage: one password per service alias; when `writable` is
      false every write throws. */
  datatype Keychain = Keychain(entries: map<string, string>, writable: bool)

  datatype Vault = Vault(masterKey: Option<string>, keychain: Keychain)

  /** A vault nothing has been stored in yet. */
  function FreshVault(writable: bool): Vault
  {
    Vault(None, Keychain(map[], writable))
  }

  /** `!this.masterKey` is false: a key is held and it is not the empty text. */
  predicate Ready(v: Vault)
  {
    v.masterKey.Some? && v.masterKey.value != ""
  }

  /** `isUnlocked`. */
  predicate IsUnlocked(v: Vault)
  {
    v.masterKey != None
  }

  /** `lock`. */
  function Lock(v: Vault): (r: Vault)
    ensures !IsUnlocked(r) && !Ready(r)
    ensures r.keychain == v.keychain
  {
    v.(masterKey := None)
  }

  /** `getOrCreateSalt`: the stored salt, or `newSalt` stored as the salt when
      there is none; failing (the exception) when it must store and cannot. */
  function GetOrCreateSalt(kc: Keychain, newSalt: string): (r: Option<(string, Keychain)>)
    ensures r.Some? ==> SaltAlias in r.value.1.entries && r.value.1.entries[SaltAlias] == r.value.0
    ensures r.Some? ==> r.value.1.writable == kc.writable
    ensures SaltAlias in kc.entries ==> r == Some((kc.entries[SaltAlias], kc))
    ensures SaltAlias !in kc.entries && !kc.writable ==> r == None
    ensures SaltAlias !in kc.entries && kc.writable ==>
      r == Some((newSalt, kc.(entries := kc.entries[SaltAlias := newSalt])))
  {
    if SaltAlias in kc.entries then Some((kc.entries[SaltAlias], kc))
    else if !kc.writable then None
    else Some((newSalt, kc.(entries := kc.entries[SaltAlias := newSalt])))
  }

  /** Once a salt exists every later call returns it and stores nothing. */
  lemma SaltCreatedOnce(kc: Keychain, newSalt: string, newSalt2: string)
    requires GetOrCreateSalt(kc, newSalt).Some?
    ensures var (salt, kc2) := GetOrCreateSalt(kc, newSalt).value;
      && kc2.entries[SaltAlias] == salt
      && GetOrCreateSalt(kc2, newSalt2) == Some((salt, kc2))
  {
  }

  /** `initializeFromPIN`: derive the key from the PIN and the salt, hold it,
      then store the PIN digest as the verifier. A failure to store the
      verifier is reported after the key has already been set. */
  function InitializeFromPin(v: Vault, c: Crypto, pin: string, freshSalt: string): (r: (Vault, bool))
    ensures r.1 ==> r.0.keychain.writable
    ensures GetOrCreateSalt(v.keychain, freshSalt) == None ==> r == (v, false)
    ensures GetOrCreateSalt(v.keychain, freshSalt).Some? ==>
      var (salt, kc) := GetOrCreateSalt(v.keychain, freshSalt).value;
      && r.0.masterKey == Some(c.pbkdf2(pin, salt))
      && SaltAlias in r.0.keychain.entries && r.0.keychain.entries[SaltAlias] == salt
      && (r.1 <==> kc.writable)
      && (r.1 ==> r.0.keychain.entries == kc.entries[PinHashAlias := c.sha256(pin)])
      && (!r.1 ==> r.0.keychain == kc)
  {
    match GetOrCreateSalt(v.keychain, freshSalt)
    case None => (v, false)
    case Some((salt, kc)) =>
      assert SaltAlias != PinHashAlias by { assert SaltAlias[6] != PinHashAlias[6]; }
      var unlocked := Vault(Some(c.pbkdf2(pin, salt)), kc);
      if !kc.writable then (unlocked, false)
      else (unlocked.(keychain := kc.(entries := kc.entries[PinHashAlias := c.sha256(pin)])), true)
  }

  /** `verifyPIN`: with no verifier stored, or a digest that differs from it,
      nothing changes; otherwise the key is re-derived from the PIN and the
      salt. */
  function VerifyPin(v: Vault, c: Crypto, pin: string, freshSalt: string): (r: (Vault, bool))
    ensures !r.1 ==> r.0 == v
    ensures r.1 <==>
      && PinHashAlias in v.keychain.entries
      && c.sha256(pin) == v.keychain.entries[PinHashAlias]
      && GetOrCreateSalt(v.keychain, freshSalt).Some?
    ensures r.1 ==>
      var (salt, kc) := GetOrCreateSalt(v.keychain, freshSalt).value;
      r.0 == Vault(Some(c.pbkdf2(pin, salt)), kc)
  {
    if PinHashAlias !in v.keychain.entries then (v, false)
    else if c.sha256(pin) != v.keychain.entries[PinHashAlias] then (v, false)
    else
      match GetOrCreateSalt(v.keychain, freshSalt)
      case None => (v, false)
      case Some((salt, kc)) => (Vault(Some(c.pbkdf2(pin, salt)), kc), true)
  }

  /** `changePIN`: verify the old PIN, then initialise from the new one. */
  function ChangePin(v: Vault, c: Crypto, oldPin: string, newPin: string, freshSalt: string): (r: (Vault, bool))
  {
    var (v1, ok) := VerifyPin(v, c, oldPin, freshSalt);
    if !ok then (v1, false) else InitializeFromPin(v1, c, newPin, freshSalt)
  }

  /** `encrypt`: fails (null) unless a key is held. */
  function Encrypt(v: Vault, c: Crypto, data: string): (r: Option<string>)
    ensures !Ready(v) ==> r == None
    ensures Ready(v) ==> r == Some(c.aesEncrypt(data, v.masterKey.value))
  {
    if !Ready(v) then None else Some(c.aesEncrypt(data, v.masterKey.value))
  }

  /** `decrypt`: fails (null) unless a key is held, or when decoding throws. */
  function Decrypt(v: Vault, c: Crypto, data: string): (r: Option<string>)
    ensures !Ready(v) ==> r == None
    ensures Ready(v) ==> r == c.aesDecrypt(data, v.masterKey.value)
  {
    if !Ready(v) then None else c.aesDecrypt(data, v.masterKey.value)
  }

  /** Files as their base64 text; a missing path makes reads throw. */
  type Files = map<string, string>

  /** `encryptFile`: the ciphertext of the file's base64 text. */
  function EncryptFile(v: Vault, c: Crypto, fs: Files, path: string): (r: Option<string>)
    ensures r.Some? <==> Ready(v) && path in fs
    ensures r.Some? ==> r == Encrypt(v, c, fs[path])
  {
    if !Ready(v) then None
    else if path !in fs then None
    else Encrypt(v, c, fs[path])
  }

  /** `decryptFile`: writes the plaintext to `outPath` and reports success;
      a null or empty plaintext is a failure and writes nothing. */
  function DecryptFile(v: Vault, c: Crypto, fs: Files, data: string, outPath: string): (r: (Files, bool))
    ensures !r.1 ==> r.0 == fs
    ensures r.1 <==> Decrypt(v, c, data).Some? && Decrypt(v, c, data).value != ""
    ensures r.1 ==> r.0 == fs[outPath := Decrypt(v, c, data).value]
  {
    if !Ready(v) then (fs, false)
    else
      var plain := Decrypt(v, c, data);
      if plain.None? || plain.value == "" then (fs, false)
      else (fs[outPath := plain.value], true)
  }

  /** While locked, every guarded operation fails closed and writes nothing. */
  lemma LockedFailsClosed(v: Vault, c: Crypto, fs: Files, data: string, path: string)
    requires v.masterKey == None
    ensures Encrypt(v, c, data) == None && Decrypt(v, c, data) == None
    ensures EncryptFile(v, c, fs, path) == None
    ensures DecryptFile(v, c, fs, data, path) == (fs, false)
    ensures GetRealmEncryptionKey(v, c) == None
  {
  }

  /** After `lock`, nothing can be encrypted or decrypted. */
  lemma LockThenFails(v: Vault, c: Crypto, fs: Files, data: string, path: string)
    ensures !IsUnlocked(Lock(v))
    ensures Encrypt(Lock(v), c, data) == None && Decrypt(Lock(v), c, data) == None
    ensures DecryptFile(Lock(v), c, fs, data, path) == (fs, false)
    ensures GetRealmEncryptionKey(Lock(v), c) == None
  {
    LockedFailsClosed(Lock(v), c, fs, data, path);
  }

  // Hex text of a byte string, and its decoding with
  // `hex.match(/.{1,2}/g).map(b => parseInt(b, 16))`.

  /** The lower-case hexadecimal digit for a value below 16. */
  function HexDigit(d: nat): char
    requires d < 16
  {
    if d < 10 then ('0' as int + d) as char else ('a' as int + d - 10) as char
  }

  /** CryptoJS `toString()`: two lower-case hex digits per byte. */
  function HexEncode(bs: seq<byte>): (h: string)
    ensures |h| == 2 * |bs|
  {
    if bs == [] then ""
    else [HexDigit(bs[0] / 16), HexDigit(bs[0] % 16)] + HexEncode(bs[1..])
  }

  /** `match(/.{1,2}/g)` on text without line terminators: consecutive pairs,
      the last one possibly a single character. */
  function Pairs(s: string): (ps: seq<string>)
    ensures forall i :: 0 <= i < |ps| ==> 1 <= |ps[i]| <= 2
    decreases |s|
  {
    if |s| <= 2 then (if s == "" then [] else [s])
    else [s[..2]] + Pairs(s[2..])
  }

  /** The value of one hexadecimal digit, or `None` for any other character. */
  function HexValue(ch: char): Option<nat>
  {
    if '0' <= ch <= '9' then Some(ch as int - '0' as int)
    else if 'a' <= ch <= 'f' then Some(ch as int - 'a' as int + 10)
    else if 'A' <= ch <= 'F' then Some(ch as int - 'A' as int + 10)
    else None
  }

  /** `parseInt(p, 16)` of a chunk of at most two characters, stored into a
      `Uint8Array`, for chunks that start with a hex digit or have none: the
      value of the leading hex digits, 0 when there is none (`NaN` becomes
      0). `parseInt` also skips leading white space and accepts a sign; those
      cases are not modelled, since only hex-encoded key material, which
      holds nothing but hex digits, reaches this parser. */
  function ParseHexChunk(p: string): byte
    requires |p| <= 2
  {
    if p == [] || HexValue(p[0]).None? then 0
    else if |p| == 2 && HexValue(p[1]).Some? then HexValue(p[0]).value * 16 + HexValue(p[1]).value
    else HexValue(p[0]).value
  }

  function ParsePairs(ps: seq<string>): (bs: seq<byte>)
    requires forall i :: 0 <= i < |ps| ==> |ps[i]| <= 2
  {
    if ps == [] then [] else [ParseHexChunk(ps[0])] + ParsePairs(ps[1..])
  }

  lemma PairsCons(a: char, b: char, rest: string)
    ensures Pairs([a, b] + rest) == [[a, b]] + Pairs(rest)
  {
    var s := [a, b] + rest;
    if rest == [] {
      assert s == [a, b];
    } else {
      assert |s| > 2;
      assert s[..2] == [a, b] && s[2..] == rest;
    }
  }

  lemma ChunkRoundTrip(b: byte)
    ensures ParseHexChunk([HexDigit(b / 16), HexDigit(b % 16)]) == b
  {
    assert HexValue(HexDigit(b / 16)) == Some(b / 16);
    assert HexValue(HexDigit(b % 16)) == Some(b % 16);
  }

  /** Decoding the hex text of a byte string gives the bytes back. */
  lemma {:induction false} HexRoundTrip(bs: seq<byte>)
    ensures ParsePairs(Pairs(HexEncode(bs))) == bs
  {
    if bs != [] {
      var b := bs[0];
      var hi, lo := HexDigit(b / 16), HexDigit(b % 16);
      PairsCons(hi, lo, HexEncode(bs[1..]));
      ChunkRoundTrip(b);
      HexRoundTrip(bs[1..]);
      var ps := Pairs(HexEncode(bs));
      assert ps == [[hi, lo]] + Pairs(HexEncode(bs[1..]));
      assert ps[1..] == Pairs(HexEncode(bs[1..]));
      assert bs == [b] + bs[1..];
    }
  }

  /** `getRealmEncryptionKey`: fails (null) while locked; otherwise the bytes
      decoded from the hex text of the SHA-512 digest of the key, and `null`
      if that text is empty. */
  function GetRealmEncryptionKey(v: Vault, c: Crypto): (r: Option<seq<byte>>)
    ensures !Ready(v) ==> r == None
  {
    if !Ready(v) then None
    else
      var hex := HexEncode(c.sha512(v.masterKey.value));
      var ps := Pairs(hex);
      if ps == [] then None
      else Some(ParsePairs(ps))
  }

  /** The storage key is the 64-byte SHA-512 digest of the master key,
      computed without loss through its hex text. */
  lemma RealmKeyIsDigest(v: Vault, c: Crypto)
    requires WellFormed(c) && Ready(v)
    ensures GetRealmEncryptionKey(v, c) == Some(c.sha512(v.masterKey.value))
    ensures |GetRealmEncryptionKey(v, c).value| == 64
  {
    HexRoundTrip(c.sha512(v.masterKey.value));
  }

  /** Re-deriving the storage key from the same unlocked state, or from any
      state holding the same key, yields the same bytes. */
  lemma RealmKeyDeterministic(v: Vault, w: Vault, c: Crypto)
    requires v.masterKey == w.masterKey
    ensures GetRealmEncryptionKey(v, c) == GetRealmEncryptionKey(w, c)
  {
  }

  /** A wrong PIN, or no stored verifier, leaves the vault as it was. */
  lemma WrongPinChangesNothing(v: Vault, c: Crypto, pin: string, freshSalt: string)
    requires PinHashAlias !in v.keychain.entries || c.sha256(pin) != v.keychain.entries[PinHashAlias]
    ensures VerifyPin(v, c, pin, freshSalt) == (v, false)
  {
  }

  /** After a successful initialisation the same PIN verifies, re-deriving
      the identical key and changing nothing else. */
  lemma InitializeThenVerify(v: Vault, c: Crypto, pin: string, s1: string, s2: string)
    requires InitializeFromPin(v, c, pin, s1).1
    ensures var v1 := InitializeFromPin(v, c, pin, s1).0;
      VerifyPin(v1, c, pin, s2) == (v1, true)
  {
    var (salt, kc) := GetOrCreateSalt(v.keychain, s1).value;
    var v1 := InitializeFromPin(v, c, pin, s1).0;
    assert GetOrCreateSalt(v1.keychain, s2) == Some((salt, v1.keychain));
  }

  /** Another PIN whose digest differs does not verify. */
  lemma InitializeThenOtherPinFails(v: Vault, c: Crypto, pin: string, other: string, s1: string, s2: string)
    requires InitializeFromPin(v, c, pin, s1).1
    requires c.sha256(other) != c.sha256(pin)
    ensures var v1 := InitializeFromPin(v, c, pin, s1).0;
      VerifyPin(v1, c, other, s2) == (v1, false)
  {
  }

  /** A wrong old PIN makes `changePIN` fail with nothing changed; a right
      one behaves as initialising from the new PIN with the salt kept. */
  lemma ChangePinSpec(v: Vault, c: Crypto, oldPin: string, newPin: string, freshSalt: string)
    ensures !VerifyPin(v, c, oldPin, freshSalt).1 ==> ChangePin(v, c, oldPin, newPin, freshSalt) == (v, false)
    ensures VerifyPin(v, c, oldPin, freshSalt).1 ==>
      && ChangePin(v, c, oldPin, newPin, freshSalt)
         == InitializeFromPin(VerifyPin(v, c, oldPin, freshSalt).0, c, newPin, freshSalt)
      && (SaltAlias in v.keychain.entries ==>
            ChangePin(v, c, oldPin, newPin, freshSalt).0.keychain.entries[SaltAlias]
            == v.keychain.entries[SaltAlias])
  {
  }

  /** The held key always has the shape PBKDF2 produces: 64 characters. */
  ghost predicate KeyShaped(v: Vault)
  {
    v.masterKey.Some? ==> |v.masterKey.value| == 64
  }

  /** Every transition keeps the key well shaped, so an unlocked vault is
      always ready to encrypt. */
  lemma TransitionsKeepKeyShaped(v: Vault, c: Crypto, pin: string, newPin: string, freshSalt: string)
    requires WellFormed(c) && KeyShaped(v)
    ensures KeyShaped(InitializeFromPin(v, c, pin, freshSalt).0)
    ensures KeyShaped(VerifyPin(v, c, pin, freshSalt).0)
    ensures KeyShaped(ChangePin(v, c, pin, newPin, freshSalt).0)
    ensures KeyShaped(Lock(v))
    ensures IsUnlocked(v) <==> Ready(v)
  {
    var (v1, ok) := VerifyPin(v, c, pin, freshSalt);
    assert KeyShaped(v1);
  }

  /** Create a vault with PIN "1234", encrypt "hello vault", decrypt it. */
  lemma ScenarioEncryptDecrypt(c: Crypto, freshSalt: string)
    requires WellFormed(c)
    ensures var (v, ok) := InitializeFromPin(FreshVault(true), c, "1234", freshSalt);
      && ok
      && Encrypt(v, c, "hello vault").Some?
      && Decrypt(v, c, Encrypt(v, c, "hello vault").value) == Some("hello vault")
  {
    var (v, ok) := InitializeFromPin(FreshVault(true), c, "1234", freshSalt);
    assert |v.masterKey.value| == 64;
  }

  /** A vault created with "1234" refuses "9999" (when their digests differ). */
  lemma ScenarioWrongPin(c: Crypto, s1: string, s2: string)
    requires c.sha256("9999") != c.sha256("1234")
    ensures var (v, ok) := InitializeFromPin(FreshVault(true), c, "1234", s1);
      ok && !VerifyPin(v, c, "9999", s2).1
  {
    InitializeThenOtherPinFails(FreshVault(true), c, "1234", "9999", s1, s2);
  }
}
