/**
 The Android wallet: two preference stores, the wallet itself ("moaWallet") and the one prepared by
 a password reset ("tempWallet"), and the flag that says which of them is read and written.
 Cryptography is a parameter; random bytes are arguments; None, Threw stand for a Java exception.
 */
module Wallets {
  import opened Wrappers
  import opened Hex
  import opened Tokens
  import Base64
  import DateOfBirth
  import RestorePipeline

  type bytes = seq<octet>
  type Prefs = map<string, string>

  // A result of the cipher functions is empty when the Java code caught an exception.
  datatype Library = Library(
    utf8: string -> bytes,
    kdf: (bytes, bytes, int, nat) -> bytes,
    encrypt: (string, bytes, bytes, bytes) -> bytes,
    decrypt: (string, bytes, bytes, bytes) -> bytes,
    rsaEncrypt: (string, bytes, bytes) -> bytes,
    rsaDecrypt: (string, bytes) -> bytes,
    hash: (string, bytes) -> bytes,
    hmac: (string, bytes, bytes) -> bytes,
    base58: bytes -> string,
    unbase58: string -> bytes,
    envelope: DateOfBirth.Library)

  // The algorithm of that name undoes its encryption.
  ghost predicate Inverts(lib: Library, alg: string)
  {
    forall iv, k, x :: lib.encrypt(alg, iv, k, x) != [] ==> lib.decrypt(alg, iv, k, lib.encrypt(alg, iv, k, x)) == x
  }

  // RSA decryption undoes encryption; Base58 is a round trip and prints something for something.
  ghost predicate Sound(lib: Library)
  {
    && (forall k, r, x :: lib.rsaEncrypt(k, r, x) != [] ==> lib.rsaDecrypt(k, lib.rsaEncrypt(k, r, x)) == x)
    && (forall x :: lib.unbase58(lib.base58(x)) == x)
    && (forall x :: x != [] ==> lib.base58(x) != "")
    && DateOfBirth.Sound(lib.envelope)
  }

  const VERSION := "Version.Info"
  const SYMMETRIC := "Symmetric.Alg"
  const KEY_SIZE := "Symmetric.KeySize"
  const HASH := "Hash.Alg"
  const SIGNATURE := "Signature.Alg"
  const ECC := "ECC.Alg"
  const CURVE := "ECC.Curve"
  const MAC_ALG := "MAC.Alg"
  const ITERATIONS := "Iteration.Count"
  const SALT := "Salt.Value"
  const CIPHERED := "Ciphered.Data"
  const PUBLIC_KEY := "Wallet.PublicKey"
  const ADDRESS := "Wallet.Addr"
  const OS := "OS.Info"
  const MAC := "MAC.Data"

  const DEFAULTS: Prefs := map[
    VERSION := "1", SYMMETRIC := "AES/CTR/NoPadding", KEY_SIZE := "256", HASH := "SHA256",
    SIGNATURE := "SHA256withECDSA", ECC := "EC", CURVE := "secp256r1", MAC_ALG := "HmacSHA256", ITERATIONS := "4096"]

  datatype Outcome = Done | Rejected | Threw

  function Get(p: Prefs, key: string): string { if key in p then p[key] else "" }

  // ---- what one preference store says ----

  // Integer.parseInt, of digits of any script; None stands for NumberFormatException.
  function ParseInt(s: string): Option<int>
  {
    var signed := s != "" && (s[0] == '-' || s[0] == '+');
    match Digits(if signed then s[1..] else s)
    case None => None
    case Some(n) =>
      var x := if signed && s[0] == '-' then -n else n;
      if -0x8000_0000 <= x < 0x8000_0000 then Some(x) else None
  }

  function Digits(s: string): Option<int>
  {
    if s == "" || JavaDecimal(s[|s| - 1]) < 0 then None
    else
      var last := JavaDecimal(s[|s| - 1]);
      if |s| == 1 then Some(last)
      else match Digits(s[..|s| - 1]) case Some(n) => Some(10 * n + last) case None => None
  }

  function Initialized(p: Prefs): Prefs { if Get(p, VERSION) != "" then p else p + DEFAULTS }

  lemma DefaultsMerge(p: Prefs)
    ensures p[VERSION := "1"][SYMMETRIC := "AES/CTR/NoPadding"][KEY_SIZE := "256"][HASH := "SHA256"]
      [SIGNATURE := "SHA256withECDSA"][ECC := "EC"][CURVE := "secp256r1"][MAC_ALG := "HmacSHA256"][ITERATIONS := "4096"]
      == p + DEFAULTS
  {
  }

  // The salt stored, or else a new one, which is stored.
  function SaltIn(lib: Library, p: Prefs, newSalt: bytes): bytes
  {
    if Get(p, SALT) != "" then lib.unbase58(Get(p, SALT)) else newSalt
  }

  function WithSalt(lib: Library, p: Prefs, newSalt: bytes): Prefs
  {
    if Get(p, SALT) != "" then p else p[SALT := lib.base58(newSalt)]
  }

  lemma SaltStays(lib: Library, p: Prefs, newSalt: bytes)
    ensures WithSalt(lib, WithSalt(lib, p, newSalt), newSalt) == WithSalt(lib, p, newSalt)
  {
  }

  lemma HmacSetting(lib: Library, p: Prefs, newSalt: bytes)
    ensures Get(WithSalt(lib, p, newSalt), MAC_ALG) == Get(p, MAC_ALG)
  {
  }

  datatype CipherKey = CipherKey(alg: string, iv: bytes, key: bytes)

  // The key and IV derived from a password: None on an exception, Some(None) for a derived key of the wrong length.
  function KeyFor(lib: Library, p: Prefs, psw: string, salt: bytes): Option<Option<CipherKey>>
  {
    match ParseInt(Get(p, ITERATIONS))
    case None => None
    case Some(iterations) =>
      var dk := lib.kdf(lib.utf8(psw), salt, iterations, 48);
      if |dk| != 48 then Some(None) else
      match ParseInt(Get(p, KEY_SIZE))
      case None => None
      case Some(bits) =>
        if bits / 8 > 48 || bits <= -8 then None
        else
          var size := if bits < 0 then 0 else bits / 8;
          Some(Some(CipherKey(Get(p, SYMMETRIC), dk[size..], dk[..size])))
  }

  function Encrypted(lib: Library, p: Prefs, psw: string, salt: bytes, data: bytes): Option<bytes>
  {
    match KeyFor(lib, p, psw, salt)
    case None => None
    case Some(None) => Some([])
    case Some(Some(k)) => Some(lib.encrypt(k.alg, k.iv, k.key, data))
  }

  function Decrypted(lib: Library, p: Prefs, psw: string, salt: bytes, data: bytes): Option<bytes>
  {
    match KeyFor(lib, p, psw, salt)
    case None => None
    case Some(None) => Some([])
    case Some(Some(k)) => Some(lib.decrypt(k.alg, k.iv, k.key, data))
  }

  // The end of the hash of the public key from byte 12 on.
  function Address(lib: Library, p: Prefs, puk: bytes): Option<bytes>
  {
    var h := lib.hash(Get(p, HASH), puk);
    if |h| < 12 then None else Some(h[12..])
  }

  // Version, operating system, salt and iteration count open the authenticated text.
  function MacHead(p: Prefs): string { Get(p, VERSION) + Get(p, OS) + Get(p, SALT) + Get(p, ITERATIONS) }

  function MacText(p: Prefs): string { MacHead(p) + Get(p, CIPHERED) + Get(p, PUBLIC_KEY) + Get(p, ADDRESS) }

  function MacFor(lib: Library, p: Prefs, base58Salt: string, psw: string, text: string): string
  {
    var key := lib.hash(Get(p, HASH), lib.unbase58(base58Salt) + lib.utf8(psw));
    lib.base58(lib.hmac(Get(p, MAC_ALG), lib.utf8(text), key))
  }

  // The check before every signature.
  function MacOpens(lib: Library, p: Prefs, psw: string): bool
  {
    Get(p, ADDRESS) != "" && Get(p, MAC) == MacFor(lib, p, Get(p, SALT), psw, MacText(p))
  }

  function PrivateKey(lib: Library, rsaKey: string, p: Prefs, psw: string, newSalt: bytes): Option<bytes>
  {
    if Get(p, CIPHERED) == "" then Some([])
    else Decrypted(lib, WithSalt(lib, p, newSalt), psw, SaltIn(lib, p, newSalt),
      lib.rsaDecrypt(rsaKey, lib.unbase58(Get(p, CIPHERED))))
  }

  // ---- what saving makes of a preference store ----

  function WithWallet(lib: Library, os: string, p: Prefs, psw: string, prk: string, puk: string, address: string): Prefs
  {
    var q := p[CIPHERED := prk][PUBLIC_KEY := puk][ADDRESS := address][OS := os];
    q[MAC := MacFor(lib, q, Get(q, SALT), psw, MacText(q))]
  }

  // save(byte[], byte[])
  function Saved(lib: Library, os: string, rsaKey: string, p: Prefs, psw: string, prk: bytes, puk: bytes,
                 newSalt: bytes, random: bytes): (Prefs, Outcome)
  {
    match Address(lib, p, puk)
    case None => (p, Threw)
    case Some(address) =>
      if address == [] then (p, Rejected)
      else
        var q := WithSalt(lib, p, newSalt);
        match Encrypted(lib, q, psw, SaltIn(lib, p, newSalt), prk)
        case None => (q, Threw)
        case Some(first) =>
          if first == [] || lib.rsaEncrypt(rsaKey, random, first) == [] then (q, Rejected)
          else (WithWallet(lib, os, q, psw, lib.base58(lib.rsaEncrypt(rsaKey, random, first)),
                           lib.base58(puk), lib.base58(address)), Done)
  }

  // The three fields of E(prk) $ E(puk) $ salt.
  datatype Fields = Fields(encPrk: bytes, encPuk: bytes, salt: bytes)

  function BodyFields(msg: string): Option<Fields>
  {
    var ts := Tokenize(msg, '$');
    if |ts| < 3 then None else
    match (Base64.Decode(ts[0]), Base64.Decode(ts[1]), Base64.Decode(ts[2]))
    case (Some(prk), Some(puk), Some(salt)) => Some(Fields(prk, puk, salt))
    case _ => None
  }

  // save(String, String), once the fields are read. The salt has been replaced before anything can fail.
  function Restored(lib: Library, os: string, rsaKey: string, p: Prefs, psw: string, fs: Fields,
                    newSalt: bytes, random: bytes): (Prefs, Outcome)
  {
    var p' := p[SALT := lib.base58(fs.salt)];
    var q := WithSalt(lib, p', newSalt);
    match Decrypted(lib, q, psw, SaltIn(lib, p', newSalt), fs.encPuk)
    case None => (q, Threw)
    case Some(puk) =>
      match Address(lib, q, puk)
      case None => (q, Threw)
      case Some(address) =>
        if address == [] || lib.rsaEncrypt(rsaKey, random, fs.encPrk) == [] then (q, Rejected)
        else (WithWallet(lib, os, q, psw, lib.base58(lib.rsaEncrypt(rsaKey, random, fs.encPrk)),
                         lib.base58(puk), lib.base58(address)), Done)
  }

  // generateRestoreDataFormat: None on an exception, "" when encryption failed.
  function Printed(lib: Library, p: Prefs, psw: string, prk: bytes, puk: bytes, newSalt: bytes): Option<string>
  {
    var q, salt := WithSalt(lib, p, newSalt), SaltIn(lib, p, newSalt);
    match Encrypted(lib, q, psw, salt, prk)
    case None => None
    case Some(encPrk) => if encPrk == [] then Some("") else
      match Encrypted(lib, q, psw, SaltIn(lib, q, newSalt), puk)
      case None => None
      case Some(encPuk) => if encPuk == [] then Some("") else
        Some(RestorePipeline.RestoreData(lib.hmac(Get(p, MAC_ALG), encPuk, lib.utf8(psw)), encPrk, encPuk,
                                         SaltIn(lib, q, newSalt)))
  }

  // String.split drops trailing empty fields.
  function DropEmpty(fs: seq<string>): seq<string>
  {
    if fs != [] && fs[|fs| - 1] == "" then DropEmpty(fs[..|fs| - 1]) else fs
  }

  // verifyHmacPsw
  function HmacVerified(lib: Library, p: Prefs, psw: string, msg: string): Option<bool>
  {
    if msg == "" then Some(false) else
    var ts := Tokenize(msg, '%');
    if |ts| < 2 then None else
    var fs := DropEmpty(Split(ts[1], '$'));
    if |fs| < 2 then None else
    match (Base64.Decode(ts[0]), Base64.Decode(fs[1]))
    case (Some(hmac), Some(encPuk)) => Some(hmac == lib.hmac(Get(p, MAC_ALG), encPuk, lib.utf8(psw)))
    case _ => None
  }

  // restoreWallet of the helper: the check, then the part behind the separator is saved.
  function RestoredFrom(lib: Library, os: string, rsaKey: string, p: Prefs, psw: string, msg: string,
                        newSalt: bytes, random: bytes): (Prefs, Outcome)
  {
    match HmacVerified(lib, p, psw, msg)
    case None => (p, Threw)
    case Some(ok) =>
      var parts := DropEmpty(Split(msg, '%'));
      if !ok then (p, Rejected)
      else if |parts| < 2 then (p, Threw)
      else if parts[1] == "" then (p, Rejected)
      else match BodyFields(parts[1])
           case None => (p, Threw)
           case Some(fs) => Restored(lib, os, rsaKey, p, psw, fs, newSalt, random)
  }

  // ---- the password reset ----

  datatype Store = Store(main: Prefs, temp: Prefs, initMode: bool)

  datatype Request = Request(id: Option<string>, dateOfBirth: Option<string>, encryptedHmacPsw: Option<string>,
                             restoreMsg: Option<string>, hmacPsw: Option<string>)

  datatype Keys = Keys(prk: bytes, puk: bytes, salt: bytes)

  // The old password, as the hex text of the bytes in the envelope.
  function OldPassword(lib: Library, rq: Request): Option<string>
    requires DateOfBirth.Sound(lib.envelope)
  {
    if rq.id.None? || rq.dateOfBirth.None? || rq.encryptedHmacPsw.None? then None else
    match DateOfBirth.Decrypted(lib.envelope, lib.utf8(rq.id.value), lib.utf8(rq.dateOfBirth.value),
      rq.encryptedHmacPsw.value)
    case None => None
    case Some(h) => Some(Text(h))
  }

  // Whether the main store is asked for its salt.
  predicate AsksForSalt(lib: Library, rq: Request)
    requires DateOfBirth.Sound(lib.envelope)
  {
    && OldPassword(lib, rq).Some? && rq.restoreMsg.Some?
    && var ts := Tokenize(rq.restoreMsg.value, '$'); |ts| > 0 && Base64.Decode(ts[0]).Some?
  }

  // Both keys, decrypted under the salt of the main store, and the salt of the message.
  function OldKeys(lib: Library, p: Prefs, rq: Request, newSalt: bytes): Option<Keys>
    requires DateOfBirth.Sound(lib.envelope)
  {
    if !AsksForSalt(lib, rq) then None else
    match BodyFields(rq.restoreMsg.value)
    case None => None
    case Some(fs) =>
      var psw, q, salt := OldPassword(lib, rq).value, WithSalt(lib, p, newSalt), SaltIn(lib, p, newSalt);
      match (Decrypted(lib, q, psw, salt, fs.encPrk), Decrypted(lib, q, psw, SaltIn(lib, q, newSalt), fs.encPuk))
      case (Some(prk), Some(puk)) => Some(Keys(prk, puk, fs.salt))
      case _ => None
  }

  // generateBackUpRestoreDataFormat: the store it leaves, whether a wallet was prepared in it, and the
  // message. An exception behind the second switch leaves the flag on.
  function Prepared(lib: Library, os: string, rsaKey: string, st: Store, rq: Request,
                    newSalt: bytes, random: bytes): (Store, Outcome, Option<string>)
    requires DateOfBirth.Sound(lib.envelope)
  {
    var main := if AsksForSalt(lib, rq) then WithSalt(lib, st.main, newSalt) else st.main;
    var temp := Initialized(st.temp);
    match OldKeys(lib, st.main, rq, newSalt)
    case None => (Store(main, temp, false), Threw, None)
    case Some(keys) =>
      var salted := temp[SALT := lib.base58(keys.salt)];
      match rq.hmacPsw
      case None => (Store(main, salted, true), Threw, None)
      case Some(psw) =>
        var (saved, outcome) := Saved(lib, os, rsaKey, salted, psw, keys.prk, keys.puk, newSalt, random);
        if outcome == Threw then (Store(main, saved, true), Threw, None) else
        match Printed(lib, saved, psw, keys.prk, keys.puk, newSalt)
        case None => (Store(main, WithSalt(lib, saved, newSalt), true), Threw, None)
        case Some(msg) => (Store(main, WithSalt(lib, saved, newSalt), false), outcome, Some(msg))
  }

  // removeTempWallet
  function Aborted(st: Store): Store { Store(st.main, map[], false) }

  // updateWallet
  function Committed(st: Store): Store
  {
    Store(st.main[CIPHERED := Get(st.temp, CIPHERED)][PUBLIC_KEY := Get(st.temp, PUBLIC_KEY)]
          [ADDRESS := Get(st.temp, ADDRESS)][MAC := Get(st.temp, MAC)][SALT := Get(st.temp, SALT)], map[], false)
  }

  // ---- the object ----

  class Wallet {
    var main: Prefs
    var temp: Prefs
    var isPswInitMode: bool
    var password: Option<string>
    const hasReceiver: bool
    const lib: Library
    const os: string
    const rsaKey: string

    constructor (lib: Library, os: string, rsaKey: string, hasReceiver: bool, main: Prefs, temp: Prefs)
      ensures this.lib == lib && this.os == os && this.rsaKey == rsaKey && this.hasReceiver == hasReceiver
      ensures Stored() == Store(main, temp, false) && password == Some("")
    {
      this.lib, this.os, this.rsaKey, this.hasReceiver := lib, os, rsaKey, hasReceiver;
      this.main, this.temp, isPswInitMode, password := main, temp, false, Some("");
    }

    function Stored(): Store
      reads this
    {
      Store(main, temp, isPswInitMode)
    }

    // The store the flag selects.
    function Prefs(): Prefs
      reads this
    {
      if isPswInitMode then temp else main
    }

    // The store, with the selected preferences replaced.
    ghost function With(p: Prefs): Store
      reads this
    {
      if isPswInitMode then Store(main, p, true) else Store(p, temp, false)
    }

    method SetValuesInPreferences(key: string, value: string)
      modifies this`main, this`temp
      ensures Stored() == old(With(Prefs()[key := value])) && Prefs() == old(Prefs())[key := value]
    {
      if isPswInitMode {
        temp := temp[key := value];
      } else {
        main := main[key := value];
      }
    }

    method InitProperties()
      modifies this`main, this`temp
      ensures Stored() == old(With(Initialized(Prefs())))
    {
      if |Get(Prefs(), VERSION)| > 0 {
        return;
      }
      SetValuesInPreferences(VERSION, "1");
      SetValuesInPreferences(SYMMETRIC, "AES/CTR/NoPadding");
      SetValuesInPreferences(KEY_SIZE, "256");
      SetValuesInPreferences(HASH, "SHA256");
      SetValuesInPreferences(SIGNATURE, "SHA256withECDSA");
      SetValuesInPreferences(ECC, "EC");
      SetValuesInPreferences(CURVE, "secp256r1");
      SetValuesInPreferences(MAC_ALG, "HmacSHA256");
      SetValuesInPreferences(ITERATIONS, "4096");
      DefaultsMerge(old(Prefs()));
    }

    method GetSalt(newSalt: bytes) returns (salt: bytes)
      modifies this`main, this`temp
      ensures salt == SaltIn(lib, old(Prefs()), newSalt)
      ensures Stored() == old(With(WithSalt(lib, Prefs(), newSalt)))
    {
      var base58Salt := Get(Prefs(), SALT);
      if |base58Salt| == 0 {
        SetValuesInPreferences(SALT, lib.base58(newSalt));
        salt := newSalt;
      } else {
        salt := lib.unbase58(base58Salt);
      }
    }

    // None for a null password or a malformed setting; Some(None) for a derived key of the wrong length.
    method DeriveKey(psw: Option<string>, newSalt: bytes) returns (k: Option<Option<CipherKey>>)
      modifies this`main, this`temp
      ensures psw.None? ==> k.None? && Stored() == old(Stored())
      ensures psw.Some?
        ==> k == KeyFor(lib, old(WithSalt(lib, Prefs(), newSalt)), psw.value, SaltIn(lib, old(Prefs()), newSalt))
      ensures psw.Some? ==> Stored() == old(With(WithSalt(lib, Prefs(), newSalt)))
    {
      if psw.None? {
        return None;
      }
      var salt := GetSalt(newSalt);
      var iterations := ParseInt(Get(Prefs(), ITERATIONS));
      if iterations.None? {
        return None;
      }
      var derivedKey := lib.kdf(lib.utf8(psw.value), salt, iterations.value, 48);
      if |derivedKey| != 48 {
        return Some(None);
      }
      var bits := ParseInt(Get(Prefs(), KEY_SIZE));
      if bits.None? {
        return None;
      }
      // Java's division truncates; copyOfRange and copyOf refuse a size outside 0..48.
      var keySize := if bits.value < 0 then -((-bits.value) / 8) else bits.value / 8;
      if keySize < 0 || keySize > 48 {
        return None;
      }
      k := Some(Some(CipherKey(Get(Prefs(), SYMMETRIC), derivedKey[keySize..], derivedKey[..keySize])));
    }

    method EncryptPBKDF2(psw: Option<string>, data: bytes, newSalt: bytes) returns (r: Option<bytes>)
      modifies this`main, this`temp
      ensures psw.None? ==> r.None? && Stored() == old(Stored())
      ensures psw.Some?
        ==> r == Encrypted(lib, old(WithSalt(lib, Prefs(), newSalt)), psw.value, SaltIn(lib, old(Prefs()), newSalt),
          data)
      ensures psw.Some? ==> Stored() == old(With(WithSalt(lib, Prefs(), newSalt)))
    {
      hide KeyFor, WithSalt, SaltIn;
      var k := DeriveKey(psw, newSalt);
      match k
      case None => r := None;
      case Some(None) => r := Some([]);
      case Some(Some(key)) => r := Some(lib.encrypt(key.alg, key.iv, key.key, data));
    }

    method DecryptPBKDF2(psw: string, data: bytes, newSalt: bytes) returns (r: Option<bytes>)
      modifies this`main, this`temp
      ensures r == Decrypted(lib, old(WithSalt(lib, Prefs(), newSalt)), psw, SaltIn(lib, old(Prefs()), newSalt), data)
      ensures Stored() == old(With(WithSalt(lib, Prefs(), newSalt)))
    {
      hide KeyFor, WithSalt, SaltIn;
      var k := DeriveKey(Some(psw), newSalt);
      match k
      case None => r := None;
      case Some(None) => r := Some([]);
      case Some(Some(key)) => r := Some(lib.decrypt(key.alg, key.iv, key.key, data));
    }

    // The MAC is printed under the running system's name, before it is read back from the store.
    method SetWalletPref(cipheredPrk: string, puk: string, address: string)
      requires password.Some?
      modifies this`main, this`temp
      ensures Stored() == old(With(WithWallet(lib, os, Prefs(), password.value, cipheredPrk, puk, address)))
    {
      SetValuesInPreferences(CIPHERED, cipheredPrk);
      SetValuesInPreferences(PUBLIC_KEY, puk);
      SetValuesInPreferences(ADDRESS, address);
      SetValuesInPreferences(OS, os);
      var targetMacData := Get(Prefs(), VERSION) + os + Get(Prefs(), SALT) + Get(Prefs(), ITERATIONS)
        + cipheredPrk + puk + address;
      assert targetMacData == MacText(Prefs());
      SetValuesInPreferences(MAC, MacFor(lib, Prefs(), Get(Prefs(), SALT), password.value, targetMacData));
    }

    method CheckMACData(psw: string) returns (ok: bool)
      ensures ok == MacOpens(lib, Prefs(), psw)
    {
      if |Get(Prefs(), ADDRESS)| == 0 {
        return false;
      }
      var mergedWalletData := Get(Prefs(), VERSION) + Get(Prefs(), OS) + Get(Prefs(), SALT) + Get(Prefs(), ITERATIONS)
        + Get(Prefs(), CIPHERED) + Get(Prefs(), PUBLIC_KEY) + Get(Prefs(), ADDRESS);
      ok := Get(Prefs(), MAC) == MacFor(lib, Prefs(), Get(Prefs(), SALT), psw, mergedWalletData);
    }

    method GetDecryptedPrivateKey(psw: string, newSalt: bytes) returns (r: Option<bytes>)
      modifies this`main, this`temp
      ensures r == PrivateKey(lib, rsaKey, old(Prefs()), psw, newSalt)
      ensures Stored() == old(if Get(Prefs(), CIPHERED) == "" then Stored() else With(WithSalt(lib, Prefs(), newSalt)))
    {
      var lastEncryptedPrk := Get(Prefs(), CIPHERED);
      if |lastEncryptedPrk| == 0 {
        return Some([]);
      }
      r := DecryptPBKDF2(psw, lib.rsaDecrypt(rsaKey, lib.unbase58(lastEncryptedPrk)), newSalt);
    }

    // generateSignedTransaction, up to the private key handed to the signer; None: no signature.
    method UnlockForSigning(psw: string, newSalt: bytes) returns (prk: Option<bytes>)
      modifies this`main, this`temp
      ensures var r := PrivateKey(lib, rsaKey, old(Prefs()), psw, newSalt);
        prk == if old(MacOpens(lib, Prefs(), psw)) && r != Some([]) then r else None
      ensures Stored() == old(if MacOpens(lib, Prefs(), psw) && Get(Prefs(), CIPHERED) != ""
                              then With(WithSalt(lib, Prefs(), newSalt)) else Stored())
    {
      hide PrivateKey, MacOpens;
      var opens := CheckMACData(psw);
      if !opens {
        return None;
      }
      prk := GetDecryptedPrivateKey(psw, newSalt);
      if prk == Some([]) {
        prk := None;
      }
    }

    // save(byte[], byte[])
    method Save(prk: bytes, puk: bytes, newSalt: bytes, random: bytes) returns (outcome: Outcome)
      modifies this`main, this`temp
      ensures password.None? ==> outcome != Done && Stored() == old(Stored())
      ensures password.Some? ==>
        var (p, o) := Saved(lib, os, rsaKey, old(Prefs()), password.value, prk, puk, newSalt, random);
        Stored() == old(With(p)) && outcome == o
    {
      hide Encrypted, WithSalt, SaltIn, WithWallet;
      var walletAddress := Address(lib, Prefs(), puk);
      if walletAddress.None? {
        return Threw;
      }
      if |walletAddress.value| == 0 {
        return Rejected;
      }
      var firstEncryptedPrk := EncryptPBKDF2(password, prk, newSalt);
      if firstEncryptedPrk.None? {
        return Threw;
      }
      if |firstEncryptedPrk.value| == 0 {
        return Rejected;
      }
      var lastEncryptedPrk := lib.rsaEncrypt(rsaKey, random, firstEncryptedPrk.value);
      if |lastEncryptedPrk| == 0 {
        return Rejected;
      }
      SetWalletPref(lib.base58(lastEncryptedPrk), lib.base58(puk), lib.base58(walletAddress.value));
      outcome := Done;
    }

    // save(String, String)
    method SaveMessage(psw: string, msg: string, newSalt: bytes, random: bytes) returns (outcome: Outcome)
      modifies this
      ensures !hasReceiver || msg == "" ==> outcome == Rejected && Stored() == old(Stored())
      ensures hasReceiver && msg != "" && BodyFields(msg).None? ==> outcome == Threw && Stored() == old(Stored())
      ensures hasReceiver && msg != "" && BodyFields(msg).Some? ==>
        var (p, o) := Restored(lib, os, rsaKey, old(Prefs()), psw, BodyFields(msg).value, newSalt, random);
        Stored() == old(With(p)) && outcome == o
      ensures password ==
        if !hasReceiver || msg == "" || BodyFields(msg).None? then old(password)
        else if outcome == Threw then Some(psw) else Some("")
    {
      hide Decrypted, WithSalt, SaltIn, WithWallet, Address, Base64.Decode, Tokenize;
      if !hasReceiver || |msg| == 0 {
        return Rejected;
      }
      var st := new StringTokenizer(msg, '$');
      var token := st.NextToken();
      if token.None? || Base64.Decode(token.value).None? {
        return Threw;
      }
      var encPrk := Base64.Decode(token.value).value;
      token := st.NextToken();
      if token.None? || Base64.Decode(token.value).None? {
        return Threw;
      }
      var encPuk := Base64.Decode(token.value).value;
      token := st.NextToken();
      if token.None? || Base64.Decode(token.value).None? {
        return Threw;
      }
      var salt := Base64.Decode(token.value).value;
      assert BodyFields(msg) == Some(Fields(encPrk, encPuk, salt));
      SetValuesInPreferences(SALT, lib.base58(salt));
      password := Some(psw);
      var puk := DecryptPBKDF2(psw, encPuk, newSalt);
      if puk.None? {
        return Threw;
      }
      var walletAddress := Address(lib, Prefs(), puk.value);
      if walletAddress.None? {
        return Threw;
      }
      if |walletAddress.value| == 0 {
        password := Some("");
        return Rejected;
      }
      var lastEncryptedPrk := lib.rsaEncrypt(rsaKey, random, encPrk);
      if |lastEncryptedPrk| == 0 {
        password := Some("");
        return Rejected;
      }
      SetWalletPref(lib.base58(lastEncryptedPrk), lib.base58(puk.value), lib.base58(walletAddress.value));
      password := Some("");
      outcome := Done;
    }

    method GenerateRestoreDataFormat(prk: bytes, puk: bytes, newSalt: bytes) returns (r: Option<string>)
      modifies this`main, this`temp
      ensures password.None? ==> r.None? && Stored() == old(Stored())
      ensures password.Some? ==> r == Printed(lib, old(Prefs()), password.value, prk, puk, newSalt)
      ensures password.Some? ==> Stored() == old(With(WithSalt(lib, Prefs(), newSalt)))
    {
      hide Encrypted, RestorePipeline.RestoreData, WithSalt, SaltIn;
      SaltStays(lib, Prefs(), newSalt);
      HmacSetting(lib, Prefs(), newSalt);
      var encryptedPrk := EncryptPBKDF2(password, prk, newSalt);
      if encryptedPrk.None? {
        return None;
      }
      if |encryptedPrk.value| == 0 {
        return Some("");
      }
      var encryptedPuk := EncryptPBKDF2(password, puk, newSalt);
      if encryptedPuk.None? {
        return None;
      }
      if |encryptedPuk.value| == 0 {
        return Some("");
      }
      var hmacEncryptedPuk := lib.hmac(Get(Prefs(), MAC_ALG), encryptedPuk.value, lib.utf8(password.value));
      var salt := GetSalt(newSalt);
      r := Some(RestorePipeline.RestoreData(hmacEncryptedPuk, encryptedPrk.value, encryptedPuk.value, salt));
    }

    method VerifyHmacPsw(psw: string, msg: string) returns (r: Option<bool>)
      ensures r == HmacVerified(lib, Prefs(), psw, msg)
    {
      hide Base64.Decode, Tokenize, Split, DropEmpty;
      if |msg| == 0 {
        return Some(false);
      }
      var st := new StringTokenizer(msg, '%');
      var token := st.NextToken();
      if token.None? || Base64.Decode(token.value).None? {
        return None;
      }
      var hmacEncryptedPuk := Base64.Decode(token.value).value;
      token := st.NextToken();
      if token.None? {
        return None;
      }
      var msgSplit := DropEmpty(Split(token.value, '$'));
      if |msgSplit| < 2 || Base64.Decode(msgSplit[1]).None? {
        return None;
      }
      var encPuk := Base64.Decode(msgSplit[1]).value;
      r := Some(hmacEncryptedPuk == lib.hmac(Get(Prefs(), MAC_ALG), encPuk, lib.utf8(psw)));
    }

    method RestoreWallet(psw: string, msg: string, newSalt: bytes, random: bytes) returns (outcome: Outcome)
      modifies this
      ensures hasReceiver ==>
        var (p, o) := RestoredFrom(lib, os, rsaKey, old(Prefs()), psw, msg, newSalt, random);
        Stored() == old(With(p)) && outcome == o
      ensures !hasReceiver ==> outcome != Done && Stored() == old(Stored())
    {
      hide HmacVerified, BodyFields, DropEmpty, Split, Restored;
      var verified := VerifyHmacPsw(psw, msg);
      if verified.None? {
        return Threw;
      }
      if !verified.value {
        return Rejected;
      }
      var restoreMsg := DropEmpty(Split(msg, '%'));
      if |restoreMsg| < 2 {
        return Threw;
      }
      outcome := SaveMessage(psw, restoreMsg[1], newSalt, random);
    }

    // The decryption half of the reset: reads the main store, whose salt it may have to create.
    method RecoverKeys(rq: Request, newSalt: bytes) returns (keys: Option<Keys>)
      requires DateOfBirth.Sound(lib.envelope) && !isPswInitMode
      modifies this`main, this`temp
      ensures keys == OldKeys(lib, old(main), rq, newSalt)
      ensures temp == old(temp) && main == if AsksForSalt(lib, rq) then old(WithSalt(lib, main, newSalt)) else old(main)
    {
      hide Base64.Decode, Tokenize, Decrypted, DateOfBirth.Decrypted, Text, WithSalt, SaltIn;
      SaltStays(lib, main, newSalt);
      if rq.id.None? || rq.dateOfBirth.None? || rq.encryptedHmacPsw.None? {
        return None;
      }
      var hmacPsw := DateOfBirth.Decrypted(lib.envelope, lib.utf8(rq.id.value), lib.utf8(rq.dateOfBirth.value),
                                           rq.encryptedHmacPsw.value);
      if hmacPsw.None? || rq.restoreMsg.None? {
        return None;
      }
      var st := new StringTokenizer(rq.restoreMsg.value, '$');
      var token := st.NextToken();
      if token.None? || Base64.Decode(token.value).None? {
        return None;
      }
      var encPrk := Base64.Decode(token.value).value;
      assert AsksForSalt(lib, rq);
      var prk := DecryptPBKDF2(Text(hmacPsw.value), encPrk, newSalt);
      token := st.NextToken();
      if prk.None? || token.None? || Base64.Decode(token.value).None? {
        return None;
      }
      var encPuk := Base64.Decode(token.value).value;
      var puk := DecryptPBKDF2(Text(hmacPsw.value), encPuk, newSalt);
      token := st.NextToken();
      if puk.None? || token.None? || Base64.Decode(token.value).None? {
        return None;
      }
      keys := Some(Keys(prk.value, puk.value, Base64.Decode(token.value).value));
    }

    method GenerateBackUpRestoreDataFormat(rq: Request, newSalt: bytes, random: bytes)
      returns (outcome: Outcome, msg: Option<string>)
      requires DateOfBirth.Sound(lib.envelope)
      modifies this
      ensures (Stored(), outcome, msg) == Prepared(lib, os, rsaKey, old(Stored()), rq, newSalt, random)
    {
      hide OldKeys, AsksForSalt, WithSalt, Saved, Printed;
      isPswInitMode := true;
      InitProperties();
      isPswInitMode := false;
      var keys := RecoverKeys(rq, newSalt);
      if keys.None? {
        return Threw, None;
      }
      isPswInitMode := true;
      SetValuesInPreferences(SALT, lib.base58(keys.value.salt));
      password := rq.hmacPsw;
      outcome := Save(keys.value.prk, keys.value.puk, newSalt, random);
      if outcome == Threw {
        return Threw, None;
      }
      msg := GenerateRestoreDataFormat(keys.value.prk, keys.value.puk, newSalt);
      if msg.None? {
        return Threw, None;
      }
      password := Some("");
      isPswInitMode := false;
    }

    method RemoveTempWallet()
      modifies this`temp, this`isPswInitMode
      ensures Stored() == Aborted(old(Stored()))
    {
      temp := map[];
      isPswInitMode := false;
    }

    method UpdateWallet()
      modifies this`main, this`temp, this`isPswInitMode
      ensures Stored() == Committed(old(Stored()))
    {
      isPswInitMode := true;
      var cipheredData := Get(Prefs(), CIPHERED);
      var puk := Get(Prefs(), PUBLIC_KEY);
      var addr := Get(Prefs(), ADDRESS);
      var mac := Get(Prefs(), MAC);
      var salt := Get(Prefs(), SALT);
      isPswInitMode := false;
      SetValuesInPreferences(CIPHERED, cipheredData);
      SetValuesInPreferences(PUBLIC_KEY, puk);
      SetValuesInPreferences(ADDRESS, addr);
      SetValuesInPreferences(MAC, mac);
      SetValuesInPreferences(SALT, salt);
      RemoveTempWallet();
    }
  }
}
