// Restoring a wallet from a message: when it succeeds, what it leaves otherwise, and what the check
// before it vouches for.
module RestoreLaws {
  import opened Wrappers
  import opened Tokens
  import opened Wallets
  import opened WalletLaws
  import opened MacLaws
  import Base64
  import RestorePipeline

  // The message decrypts to a public key with an address, and RSA takes its encrypted private key.
  predicate Restorable(lib: Library, rsaKey: string, p: Prefs, psw: string, fs: Fields, random: bytes)
  {
    var puk := Decrypted(lib, p, psw, fs.salt, fs.encPuk);
    && puk.Some? && Address(lib, p, puk.value).Some? && Address(lib, p, puk.value) != Some([])
    && lib.rsaEncrypt(rsaKey, random, fs.encPrk) != []
  }

  lemma SameAddress(lib: Library, p: Prefs, q: Prefs, puk: bytes)
    requires SameDigests(p, q)
    ensures Address(lib, p, puk) == Address(lib, q, puk)
  {
  }

  // A restore succeeds exactly if the message is restorable. Otherwise the salt has been replaced and
  // nothing else, so the store is as it was exactly if the salt is the one it had.
  lemma RestoredIff(lib: Library, os: string, rsaKey: string, p: Prefs, psw: string, fs: Fields,
                    newSalt: bytes, random: bytes)
    requires Sound(lib) && fs.salt != []
    ensures var (q, outcome) := Restored(lib, os, rsaKey, p, psw, fs, newSalt, random);
      && (outcome == Done <==> Restorable(lib, rsaKey, p, psw, fs, random))
      && (outcome == Threw <==>
          var puk := Decrypted(lib, p, psw, fs.salt, fs.encPuk); puk.None? || Address(lib, p, puk.value).None?)
      && (outcome != Done ==> q == p[SALT := lib.base58(fs.salt)])
      && (outcome != Done ==> (q == p <==> SALT in p && p[SALT] == lib.base58(fs.salt)))
  {
    hide Decrypted, Address, WithWallet, WithSalt, SaltIn, SameCipher, SameDigests;
    var base := p[SALT := lib.base58(fs.salt)];
    NewSaltSettings(lib, p, fs.salt, newSalt);
    SameDecryption(lib, p, base, psw, fs.salt, fs.encPuk);
    var puk := Decrypted(lib, p, psw, fs.salt, fs.encPuk);
    if puk.Some? {
      SameAddress(lib, p, base, puk.value);
    }
  }

  // What a restorable message leaves: the public key it decrypts to, with its address, and a wallet
  // that opens to whatever its E(prk) decrypts to.
  lemma RestoredIs(lib: Library, os: string, rsaKey: string, p: Prefs, psw: string, fs: Fields,
                   newSalt: bytes, random: bytes, newSalt': bytes)
    requires Sound(lib) && fs.salt != [] && Restorable(lib, rsaKey, p, psw, fs, random)
    ensures var q := Restored(lib, os, rsaKey, p, psw, fs, newSalt, random).0;
      var puk := Decrypted(lib, p, psw, fs.salt, fs.encPuk).value;
      && MacOpens(lib, q, psw)
      && Get(q, PUBLIC_KEY) == lib.base58(puk) && Get(q, ADDRESS) == lib.base58(Address(lib, p, puk).value)
      && PrivateKey(lib, rsaKey, q, psw, newSalt') == Decrypted(lib, p, psw, fs.salt, fs.encPrk)
  {
    hide Decrypted, Address, WithWallet, WithSalt, SaltIn, SameCipher, SameDigests, MacOpens, PrivateKey, MacHead;
    var base := p[SALT := lib.base58(fs.salt)];
    NewSaltSettings(lib, p, fs.salt, newSalt);
    SameDecryption(lib, p, base, psw, fs.salt, fs.encPuk);
    var puk := Decrypted(lib, p, psw, fs.salt, fs.encPuk).value;
    SameAddress(lib, p, base, puk);
    var last := lib.rsaEncrypt(rsaKey, random, fs.encPrk);
    var address := lib.base58(Address(lib, p, puk).value);
    StoredWalletOpens(lib, os, rsaKey, base, psw, last, lib.base58(puk), address, newSalt');
    NewSaltSettings(lib, p, fs.salt, newSalt');
    var q := Restored(lib, os, rsaKey, p, psw, fs, newSalt, random).0;
    Agreeing(p, base, q);
    SameDecryption(lib, p, q, psw, fs.salt, fs.encPrk);
  }

  // ---- the check ----

  // The check compares the HMAC with that of E(puk): neither E(prk) nor the salt plays a part.
  lemma HmacVerifiedIs(lib: Library, p: Prefs, psw: string, hmac: bytes, fs: Fields)
    requires hmac != [] && fs.encPrk != [] && fs.encPuk != [] && fs.salt != []
    ensures HmacVerified(lib, p, psw, RestorePipeline.RestoreData(hmac, fs.encPrk, fs.encPuk, fs.salt))
      == Some(hmac == lib.hmac(Get(p, MAC_ALG), fs.encPuk, lib.utf8(psw)))
  {
    hide Base64.Encode, Base64.Decode, Tokenize, Split, DropEmpty, RestorePipeline.RestoreData, RestorePipeline.Body;
    PrintedFields(hmac, fs.encPrk, fs.encPuk, fs.salt);
    Base64.DecodeEncode(hmac);
    Base64.DecodeEncode(fs.encPuk);
    assert RestorePipeline.RestoreData(hmac, fs.encPrk, fs.encPuk, fs.salt) != "" by {
      NotEmpty(hmac, fs);
    }
  }

  lemma NotEmpty(hmac: bytes, fs: Fields)
    ensures RestorePipeline.RestoreData(hmac, fs.encPrk, fs.encPuk, fs.salt) != ""
  {
    hide Base64.Encode;
  }

  // Restoring a message that passes the check is restoring its fields.
  lemma VerifiedIsRestored(lib: Library, os: string, rsaKey: string, p: Prefs, psw: string, hmac: bytes, fs: Fields,
                           newSalt: bytes, random: bytes)
    requires hmac != [] && fs.encPrk != [] && fs.encPuk != [] && fs.salt != []
    requires hmac == lib.hmac(Get(p, MAC_ALG), fs.encPuk, lib.utf8(psw))
    ensures RestoredFrom(lib, os, rsaKey, p, psw, RestorePipeline.RestoreData(hmac, fs.encPrk, fs.encPuk, fs.salt),
                         newSalt, random)
      == Restored(lib, os, rsaKey, p, psw, fs, newSalt, random)
  {
    hide HmacVerified, Restored, BodyFields, Split, DropEmpty, RestorePipeline.RestoreData, RestorePipeline.Body;
    HmacVerifiedIs(lib, p, psw, hmac, fs);
    PrintedFields(hmac, fs.encPrk, fs.encPuk, fs.salt);
  }

  // A message that does not pass leaves the store as it was, as an exception or as a refusal.
  lemma RefusedMessageChangesNothing(lib: Library, os: string, rsaKey: string, p: Prefs, psw: string, msg: string,
                                     newSalt: bytes, random: bytes)
    requires HmacVerified(lib, p, psw, msg) != Some(true)
    ensures RestoredFrom(lib, os, rsaKey, p, psw, msg, newSalt, random)
      == (p, if HmacVerified(lib, p, psw, msg).None? then Threw else Rejected)
  {
    hide HmacVerified, Restored, BodyFields, Split, DropEmpty;
  }

  // A message cut off behind E(puk) passes the check as well; reading its salt then throws, before
  // anything is stored.
  lemma SaltlessMessageThrows(lib: Library, os: string, rsaKey: string, p: Prefs, psw: string, encPrk: bytes,
                              encPuk: bytes, newSalt: bytes, random: bytes)
    requires encPrk != [] && encPuk != [] && lib.hmac(Get(p, MAC_ALG), encPuk, lib.utf8(psw)) != []
    ensures var body := Base64.Encode(encPrk) + "$" + Base64.Encode(encPuk);
      var msg := Base64.Encode(lib.hmac(Get(p, MAC_ALG), encPuk, lib.utf8(psw))) + "%" + body;
      && HmacVerified(lib, p, psw, msg) == Some(true)
      && RestoredFrom(lib, os, rsaKey, p, psw, msg, newSalt, random) == (p, Threw)
  {
    hide Base64.Encode, Base64.Decode, Split, NonEmpty, DropEmpty, Restored, Get;
    var hmac := lib.hmac(Get(p, MAC_ALG), encPuk, lib.utf8(psw));
    TwoFields(hmac, encPrk, encPuk);
    Base64.DecodeEncode(hmac);
    Base64.DecodeEncode(encPuk);
  }

  lemma TwoFields(hmac: bytes, encPrk: bytes, encPuk: bytes)
    requires hmac != [] && encPrk != [] && encPuk != []
    ensures var body := Base64.Encode(encPrk) + "$" + Base64.Encode(encPuk);
      var msg := Base64.Encode(hmac) + "%" + body;
      && Tokenize(msg, '%') == DropEmpty(Split(msg, '%')) == [Base64.Encode(hmac), body]
      && Tokenize(body, '$') == DropEmpty(Split(body, '$')) == [Base64.Encode(encPrk), Base64.Encode(encPuk)]
      && msg != "" && body != ""
  {
    hide Base64.Encode, Split, NonEmpty;
    var body := Base64.Encode(encPrk) + "$" + Base64.Encode(encPuk);
    Base64.NoSeparators(hmac);
    Base64.NoSeparators(encPrk);
    Base64.NoSeparators(encPuk);
    SplitField(Base64.Encode(encPrk), '$', Base64.Encode(encPuk));
    SplitField(Base64.Encode(encPuk), '$', "");
    SplitField(Base64.Encode(hmac), '%', body);
    SplitField(body, '%', "");
    var msg := Base64.Encode(hmac) + "%" + body;
    assert Split(body, '$') == [Base64.Encode(encPrk), Base64.Encode(encPuk)];
    assert Split(msg, '%') == [Base64.Encode(hmac), body];
    NonEmptyAll(Split(msg, '%'));
    NonEmptyAll(Split(body, '$'));
  }

  /**
   What a verified restore vouches for: another E(prk) under the same HMAC, E(puk) and salt passes the
   same check and leaves the same public key and address, and a wallet that opens to the other key.
   */
  lemma VerifiedVouches(lib: Library, os: string, rsaKey: string, p: Prefs, psw: string, hmac: bytes, fs: Fields,
                        other: bytes, newSalt: bytes, random: bytes, newSalt': bytes)
    requires Sound(lib) && hmac != [] && fs.encPrk != [] && fs.encPuk != [] && fs.salt != [] && other != []
    requires hmac == lib.hmac(Get(p, MAC_ALG), fs.encPuk, lib.utf8(psw))
    requires Restorable(lib, rsaKey, p, psw, fs, random)
    requires Restorable(lib, rsaKey, p, psw, fs.(encPrk := other), random)
    ensures
      var msg := RestorePipeline.RestoreData(hmac, fs.encPrk, fs.encPuk, fs.salt);
      var msg' := RestorePipeline.RestoreData(hmac, other, fs.encPuk, fs.salt);
      var (q, outcome) := RestoredFrom(lib, os, rsaKey, p, psw, msg, newSalt, random);
      var (q', outcome') := RestoredFrom(lib, os, rsaKey, p, psw, msg', newSalt, random);
      && outcome == Done && outcome' == Done
      && Get(q, PUBLIC_KEY) == Get(q', PUBLIC_KEY) && Get(q, ADDRESS) == Get(q', ADDRESS)
      && MacOpens(lib, q, psw) && MacOpens(lib, q', psw)
      && PrivateKey(lib, rsaKey, q, psw, newSalt') == Decrypted(lib, p, psw, fs.salt, fs.encPrk)
      && PrivateKey(lib, rsaKey, q', psw, newSalt') == Decrypted(lib, p, psw, fs.salt, other)
  {
    hide RestoredFrom, Restored, Decrypted, Address, MacOpens, PrivateKey, RestorePipeline.RestoreData;
    var fs' := fs.(encPrk := other);
    VerifiedIsRestored(lib, os, rsaKey, p, psw, hmac, fs, newSalt, random);
    VerifiedIsRestored(lib, os, rsaKey, p, psw, hmac, fs', newSalt, random);
    RestoredIff(lib, os, rsaKey, p, psw, fs, newSalt, random);
    RestoredIff(lib, os, rsaKey, p, psw, fs', newSalt, random);
    RestoredIs(lib, os, rsaKey, p, psw, fs, newSalt, random, newSalt');
    RestoredIs(lib, os, rsaKey, p, psw, fs', newSalt, random, newSalt');
  }

  // ---- restores that fail ----

  // PKCS#1 padding of a 2048-bit key leaves room for 245 bytes.
  ghost predicate RsaLimit(lib: Library) { forall k, r, x | |x| > 245 :: lib.rsaEncrypt(k, r, x) == [] }

  // So a message whose E(prk) is longer passes the check, is not stored, and replaces the salt.
  lemma OverlongKeyReplacesSalt(lib: Library, os: string, rsaKey: string, p: Prefs, psw: string, fs: Fields,
                                newSalt: bytes, random: bytes)
    requires Sound(lib) && RsaLimit(lib) && |fs.encPrk| > 245 && fs.encPuk != [] && fs.salt != []
    requires lib.hmac(Get(p, MAC_ALG), fs.encPuk, lib.utf8(psw)) != []
    ensures
      var hmac := lib.hmac(Get(p, MAC_ALG), fs.encPuk, lib.utf8(psw));
      var msg := RestorePipeline.RestoreData(hmac, fs.encPrk, fs.encPuk, fs.salt);
      && HmacVerified(lib, p, psw, msg) == Some(true)
      && RestoredFrom(lib, os, rsaKey, p, psw, msg, newSalt, random).1 != Done
      && RestoredFrom(lib, os, rsaKey, p, psw, msg, newSalt, random).0 == p[SALT := lib.base58(fs.salt)]
  {
    hide RestoredFrom, Restored, HmacVerified, Decrypted, Address, RestorePipeline.RestoreData;
    var hmac := lib.hmac(Get(p, MAC_ALG), fs.encPuk, lib.utf8(psw));
    HmacVerifiedIs(lib, p, psw, hmac, fs);
    VerifiedIsRestored(lib, os, rsaKey, p, psw, hmac, fs, newSalt, random);
    RestoredIff(lib, os, rsaKey, p, psw, fs, newSalt, random);
  }

  // After a failed restore the password of the wallet still opens it exactly if the salt is the old one,
  // given that the MAC tells the two texts apart.
  lemma FailedRestoreOpensIff(lib: Library, p: Prefs, oldPsw: string, salt: bytes)
    requires MacOpens(lib, p, oldPsw) && MacsApart(lib, p, p[SALT := lib.base58(salt)], oldPsw)
    ensures MacOpens(lib, p[SALT := lib.base58(salt)], oldPsw) <==> Get(p, SALT) == lib.base58(salt)
  {
    hide MacOpens, Get, MacsApart;
    assert AUTHENTICATED[2] == SALT;
    TamperedIff(lib, p, oldPsw, SALT, lib.base58(salt));
  }

  lemma SaltedEntries(p: Prefs, salt: string)
    ensures var q := p[SALT := salt];
      && Get(q, SALT) == salt && Get(q, MAC) == Get(p, MAC) && Get(q, VERSION) == Get(p, VERSION)
      && Get(q, OS) == Get(p, OS) && Get(q, ITERATIONS) == Get(p, ITERATIONS) && Get(q, CIPHERED) == Get(p, CIPHERED)
      && Get(q, PUBLIC_KEY) == Get(p, PUBLIC_KEY) && Get(q, ADDRESS) == Get(p, ADDRESS) && SameDigests(p, q)
  {
    hide Get;
    var keys := [MAC, VERSION, OS, ITERATIONS, CIPHERED, PUBLIC_KEY, ADDRESS, HASH, MAC_ALG];
    forall i | 0 <= i < |keys|
      ensures Get(p[SALT := salt], keys[i]) == Get(p, keys[i])
    {
      GetOther(p, keys[i], SALT, salt);
    }
    assert keys[0] == MAC && keys[1] == VERSION && keys[2] == OS && keys[3] == ITERATIONS && keys[4] == CIPHERED
      && keys[5] == PUBLIC_KEY && keys[6] == ADDRESS && keys[7] == HASH && keys[8] == MAC_ALG;
    GetWritten(p, SALT, salt);
  }
}
