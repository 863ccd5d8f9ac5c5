// What saving, restoring and resetting a wallet promise.
module WalletLaws {
  import opened Wrappers
  import opened Hex
  import opened Tokens
  import opened Wallets
  import Base64
  import DateOfBirth
  import RestorePipeline

  // ---- settings ----

  predicate SameCipher(p: Prefs, q: Prefs)
  {
    Get(p, ITERATIONS) == Get(q, ITERATIONS) && Get(p, KEY_SIZE) == Get(q, KEY_SIZE)
      && Get(p, SYMMETRIC) == Get(q, SYMMETRIC)
  }

  predicate SameDigests(p: Prefs, q: Prefs) { Get(p, HASH) == Get(q, HASH) && Get(p, MAC_ALG) == Get(q, MAC_ALG) }

  lemma DecryptionInverts(lib: Library, p: Prefs, q: Prefs, psw: string, salt: bytes, x: bytes)
    requires Inverts(lib, Get(p, SYMMETRIC)) && SameCipher(p, q)
    requires Encrypted(lib, p, psw, salt, x).Some? && Encrypted(lib, p, psw, salt, x) != Some([])
    ensures Decrypted(lib, q, psw, salt, Encrypted(lib, p, psw, salt, x).value) == Some(x)
  {
    hide ParseInt;
  }

  // ---- one store ----

  // A stored wallet opens under its password: the MAC printed from the arguments and the running
  // system's name is the MAC printed from the store.
  lemma StoredWalletOpens(lib: Library, os: string, rsaKey: string, p: Prefs, psw: string, last: bytes,
                          puk: string, address: string, newSalt: bytes)
    requires Sound(lib) && last != [] && address != "" && Get(p, SALT) != ""
    ensures var q := WithWallet(lib, os, p, psw, lib.base58(last), puk, address);
      && MacOpens(lib, q, psw)
      && PrivateKey(lib, rsaKey, q, psw, newSalt)
        == Decrypted(lib, q, psw, SaltIn(lib, p, newSalt), lib.rsaDecrypt(rsaKey, last))
      && Get(q, PUBLIC_KEY) == puk && Get(q, ADDRESS) == address && Get(q, SALT) == Get(p, SALT)
      && SameCipher(p, q) && SameDigests(p, q) && Get(q, CIPHERED) == lib.base58(last)
      && MacHead(q) == Get(p, VERSION) + os + Get(p, SALT) + Get(p, ITERATIONS)
  {
    hide MacFor, Decrypted, Get, MacText, MacHead, SameCipher, SameDigests;
    var q1 := p[CIPHERED := lib.base58(last)][PUBLIC_KEY := puk][ADDRESS := address][OS := os];
    var q := WithWallet(lib, os, p, psw, lib.base58(last), puk, address);
    FourEntries(p, lib.base58(last), puk, address, os);
    OnlyMac(q1, q[MAC]);
    Agreeing(p, q1, q);
    MacOfSame(lib, q1, q, Get(q, SALT), psw, MacText(q));
    MacEntry(q1, q[MAC]);
    SaltKept(lib, q, newSalt);
    SameSalt(lib, p, q, newSalt);
    assert lib.base58(last) != "";
  }

  lemma FourEntries(p: Prefs, prk: string, puk: string, address: string, os: string)
    ensures var q := p[CIPHERED := prk][PUBLIC_KEY := puk][ADDRESS := address][OS := os];
      && Get(q, CIPHERED) == prk && Get(q, PUBLIC_KEY) == puk && Get(q, ADDRESS) == address
      && Get(q, SALT) == Get(p, SALT)
      && SameCipher(p, q) && SameDigests(p, q)
      && MacHead(q) == Get(p, VERSION) + os + Get(p, SALT) + Get(p, ITERATIONS)
  {
  }

  lemma Agreeing(p: Prefs, q: Prefs, r: Prefs)
    requires SameCipher(p, q) && SameDigests(p, q) && SameCipher(q, r) && SameDigests(q, r)
    ensures SameCipher(p, r) && SameDigests(p, r)
  {
  }

  lemma MacEntry(p: Prefs, mac: string)
    ensures Get(p[MAC := mac], MAC) == mac
  {
  }

  lemma SameSalt(lib: Library, p: Prefs, q: Prefs, newSalt: bytes)
    requires Get(p, SALT) == Get(q, SALT)
    ensures SaltIn(lib, p, newSalt) == SaltIn(lib, q, newSalt)
  {
  }

  lemma OnlyMac(p: Prefs, mac: string)
    ensures var q := p[MAC := mac];
      MacText(q) == MacText(p) && MacHead(q) == MacHead(p) && SameCipher(p, q) && SameDigests(p, q)
      && Get(q, SALT) == Get(p, SALT) && Get(q, ADDRESS) == Get(p, ADDRESS) && Get(q, CIPHERED) == Get(p, CIPHERED)
      && Get(q, PUBLIC_KEY) == Get(p, PUBLIC_KEY)
  {
    hide Get;
    var keys := [VERSION, OS, SALT, ITERATIONS, CIPHERED, PUBLIC_KEY, ADDRESS, KEY_SIZE, SYMMETRIC, HASH, MAC_ALG];
    forall i | 0 <= i < |keys|
      ensures Get(p[MAC := mac], keys[i]) == Get(p, keys[i])
    {
      GetOther(p, keys[i], MAC, mac);
    }
    assert keys[0] == VERSION && keys[1] == OS && keys[2] == SALT && keys[3] == ITERATIONS && keys[4] == CIPHERED
      && keys[5] == PUBLIC_KEY && keys[6] == ADDRESS && keys[7] == KEY_SIZE && keys[8] == SYMMETRIC && keys[9] == HASH
      && keys[10] == MAC_ALG;
  }

  lemma GetOther(p: Prefs, key: string, written: string, value: string)
    requires key != written
    ensures Get(p[written := value], key) == Get(p, key)
  {
  }

  lemma MacOfSame(lib: Library, p: Prefs, q: Prefs, salt: string, psw: string, text: string)
    requires SameDigests(p, q)
    ensures MacFor(lib, p, salt, psw, text) == MacFor(lib, q, salt, psw, text)
  {
  }

  // Hash of salt and password; the HMAC under it of all that is authenticated.
  function MacKey(lib: Library, p: Prefs, psw: string): bytes
  {
    lib.hash(Get(p, HASH), lib.unbase58(Get(p, SALT)) + lib.utf8(psw))
  }

  function PrintedMac(lib: Library, p: Prefs, psw: string): string
  {
    lib.base58(lib.hmac(Get(p, MAC_ALG), lib.utf8(MacText(p)), MacKey(lib, p, psw)))
  }

  // The printed MAC tells the authenticated texts of the two stores apart.
  predicate MacsApart(lib: Library, p: Prefs, q: Prefs, psw: string)
  {
    PrintedMac(lib, p, psw) == PrintedMac(lib, q, psw) ==> MacText(p) == MacText(q)
  }

  lemma MacOpensRaw(lib: Library, p: Prefs, psw: string)
    ensures MacOpens(lib, p, psw) <==> Get(p, ADDRESS) != "" && Get(p, MAC) == PrintedMac(lib, p, psw)
  {
    hide Get, MacText;
  }

  predicate Opens(lib: Library, rsaKey: string, p: Prefs, psw: string, prk: bytes, newSalt: bytes)
  {
    MacOpens(lib, p, psw) && PrivateKey(lib, rsaKey, p, psw, newSalt) == Some(prk)
  }

  // save(byte[], byte[]) stores a wallet that opens under the password to the private key given.
  lemma SavedOpens(lib: Library, os: string, rsaKey: string, p: Prefs, psw: string, prk: bytes, puk: bytes,
                   newSalt: bytes, random: bytes, newSalt': bytes)
    requires Sound(lib) && Inverts(lib, Get(p, SYMMETRIC)) && newSalt != []
    requires Saved(lib, os, rsaKey, p, psw, prk, puk, newSalt, random).1 == Done
    ensures var q := Saved(lib, os, rsaKey, p, psw, prk, puk, newSalt, random).0;
      && Opens(lib, rsaKey, q, psw, prk, newSalt') && Get(q, CIPHERED) != ""
      && Address(lib, p, puk).Some? && Address(lib, p, puk) != Some([])
      && Get(q, PUBLIC_KEY) == lib.base58(puk) && Get(q, ADDRESS) == lib.base58(Address(lib, p, puk).value)
      && Get(q, SALT) == Get(WithSalt(lib, p, newSalt), SALT)
      && SameCipher(p, q) && SameDigests(p, q)
      && MacHead(q) == Get(p, VERSION) + os + Get(q, SALT) + Get(p, ITERATIONS)
  {
    hide Encrypted, Decrypted, MacOpens, PrivateKey, WithWallet, MacHead;
    var p', salt := WithSalt(lib, p, newSalt), SaltIn(lib, p, newSalt);
    SaltedSettings(lib, p, newSalt, newSalt');
    var first := Encrypted(lib, p', psw, salt, prk).value;
    var last := lib.rsaEncrypt(rsaKey, random, first);
    var q := Saved(lib, os, rsaKey, p, psw, prk, puk, newSalt, random).0;
    StoredWalletOpens(lib, os, rsaKey, p', psw, last, lib.base58(puk), lib.base58(Address(lib, p, puk).value),
      newSalt');
    DecryptionInverts(lib, p', q, psw, salt, prk);
  }

  lemma SaltedSettings(lib: Library, p: Prefs, newSalt: bytes, newSalt': bytes)
    requires Sound(lib) && newSalt != []
    ensures var q := WithSalt(lib, p, newSalt);
      && SameCipher(p, q) && SameDigests(p, q) && Get(q, SALT) != ""
      && SaltIn(lib, q, newSalt') == SaltIn(lib, p, newSalt)
      && Get(q, VERSION) == Get(p, VERSION)
  {
  }

  // A restore that fails after reading the message has replaced the salt and nothing else.
  lemma FailedRestoreReplacesSalt(lib: Library, os: string, rsaKey: string, p: Prefs, psw: string, fs: Fields,
                                  newSalt: bytes, random: bytes)
    requires Sound(lib) && fs.salt != []
    requires Restored(lib, os, rsaKey, p, psw, fs, newSalt, random).1 != Done
    ensures Restored(lib, os, rsaKey, p, psw, fs, newSalt, random).0 == p[SALT := lib.base58(fs.salt)]
  {
    hide Decrypted, Address;
  }

  // ---- from device to device ----

  // The fields of a printed message.
  lemma PrintedFields(hmac: bytes, encPrk: bytes, encPuk: bytes, salt: bytes)
    requires hmac != [] && encPrk != [] && encPuk != [] && salt != []
    ensures var msg := RestorePipeline.RestoreData(hmac, encPrk, encPuk, salt);
      && Tokenize(msg, '%') == [Base64.Encode(hmac), RestorePipeline.Body(encPrk, encPuk, salt)]
      && DropEmpty(Split(msg, '%')) == [Base64.Encode(hmac), RestorePipeline.Body(encPrk, encPuk, salt)]
    ensures DropEmpty(Split(RestorePipeline.Body(encPrk, encPuk, salt), '$'))
      == [Base64.Encode(encPrk), Base64.Encode(encPuk), Base64.Encode(salt)]
    ensures BodyFields(RestorePipeline.Body(encPrk, encPuk, salt)) == Some(Fields(encPrk, encPuk, salt))
    ensures RestorePipeline.Body(encPrk, encPuk, salt) != ""
  {
    hide Base64.Encode, Base64.Decode, Split, NonEmpty, RestorePipeline.RestoreData;
    RestorePipeline.RestoreDataSplits(hmac, encPrk, encPuk, salt);
    var body := RestorePipeline.Body(encPrk, encPuk, salt);
    NonEmptyAll([Base64.Encode(hmac), body]);
    NonEmptyAll([Base64.Encode(encPrk), Base64.Encode(encPuk), Base64.Encode(salt)]);
    Base64.DecodeEncode(encPrk);
    Base64.DecodeEncode(encPuk);
    Base64.DecodeEncode(salt);
  }

  lemma PrintedIs(lib: Library, p: Prefs, psw: string, prk: bytes, puk: bytes, newSalt: bytes)
    requires Sound(lib) && newSalt != []
    requires Printed(lib, p, psw, prk, puk, newSalt).Some? && Printed(lib, p, psw, prk, puk, newSalt) != Some("")
    ensures var q, salt := WithSalt(lib, p, newSalt), SaltIn(lib, p, newSalt);
      var e, f := Encrypted(lib, q, psw, salt, prk), Encrypted(lib, q, psw, salt, puk);
      && e.Some? && e != Some([]) && f.Some? && f != Some([])
      && Printed(lib, p, psw, prk, puk, newSalt)
         == Some(RestorePipeline.RestoreData(lib.hmac(Get(p, MAC_ALG), f.value, lib.utf8(psw)), e.value, f.value, salt))
  {
    hide Encrypted, RestorePipeline.RestoreData;
    SaltedSettings(lib, p, newSalt, newSalt);
  }

  /**
   A message printed on one device under a password is accepted under that password on any device of
   the same settings, whatever salt, RSA key and operating system that one has, and is stored exactly
   if the address is not empty and RSA encryption works; the wallet stored has the same public key,
   its address, and opens under the password to the same private key.
   */
  lemma DeviceToDevice(lib: Library, p: Prefs, psw: string, prk: bytes, puk: bytes, newSalt: bytes, msg: string,
                       os': string, rsaKey': string, p': Prefs, newSalt': bytes, random: bytes, newSalt'': bytes)
    requires Sound(lib) && Inverts(lib, Get(p, SYMMETRIC)) && newSalt != [] && SaltIn(lib, p, newSalt) != []
    requires forall alg, x, k :: lib.hmac(alg, x, k) != []
    requires Printed(lib, p, psw, prk, puk, newSalt) == Some(msg) && msg != ""
    requires SameCipher(p, p') && SameDigests(p, p')
    ensures HmacVerified(lib, p', psw, msg) == Some(true)
    ensures var (q, outcome) := RestoredFrom(lib, os', rsaKey', p', psw, msg, newSalt', random);
      var encPrk := Encrypted(lib, WithSalt(lib, p, newSalt), psw, SaltIn(lib, p, newSalt), prk);
      && (outcome == Done <==> Address(lib, p, puk).Some? && Address(lib, p, puk) != Some([])
                               && encPrk.Some? && lib.rsaEncrypt(rsaKey', random, encPrk.value) != [])
      && (outcome == Done ==> Opens(lib, rsaKey', q, psw, prk, newSalt'')
                              && Get(q, PUBLIC_KEY) == lib.base58(puk)
                              && Get(q, ADDRESS) == lib.base58(Address(lib, p, puk).value))
  {
    hide Encrypted, Decrypted, RestorePipeline.RestoreData, RestorePipeline.Body, Tokenize, Split, DropEmpty,
         BodyFields, Base64.Decode, Base64.Encode, Printed, MacOpens, PrivateKey, WithWallet, MacHead, WithSalt;
    PrintedIs(lib, p, psw, prk, puk, newSalt);
    SaltedSettings(lib, p, newSalt, newSalt);
    var r, salt := WithSalt(lib, p, newSalt), SaltIn(lib, p, newSalt);
    var encPrk, encPuk := Encrypted(lib, r, psw, salt, prk).value, Encrypted(lib, r, psw, salt, puk).value;
    var hmac := lib.hmac(Get(p, MAC_ALG), encPuk, lib.utf8(psw));
    PrintedFields(hmac, encPrk, encPuk, salt);
    Base64.DecodeEncode(hmac);
    Base64.DecodeEncode(encPuk);
    var base := p'[SALT := lib.base58(salt)];
    NewSaltSettings(lib, p', salt, newSalt');
    DecryptionInverts(lib, r, base, psw, salt, puk);
    var (q, outcome) := RestoredFrom(lib, os', rsaKey', p', psw, msg, newSalt', random);
    if outcome == Done {
      var last := lib.rsaEncrypt(rsaKey', random, encPrk);
      var address := lib.base58(Address(lib, p, puk).value);
      StoredWalletOpens(lib, os', rsaKey', base, psw, last, lib.base58(puk), address, newSalt'');
      NewSaltSettings(lib, p', salt, newSalt'');
      DecryptionInverts(lib, r, q, psw, salt, prk);
    }
  }

  lemma NewSaltSettings(lib: Library, p: Prefs, salt: bytes, newSalt: bytes)
    requires Sound(lib) && salt != []
    ensures var q := p[SALT := lib.base58(salt)];
      && SameCipher(p, q) && SameDigests(p, q) && Get(q, SALT) == lib.base58(salt) && Get(q, SALT) != ""
      && WithSalt(lib, q, newSalt) == q && SaltIn(lib, q, newSalt) == salt
      && Get(q, VERSION) == Get(p, VERSION)
  {
  }

  // ---- the password reset ----

  lemma PreparedMain(lib: Library, os: string, rsaKey: string, st: Store, rq: Request, newSalt: bytes, random: bytes)
    requires DateOfBirth.Sound(lib.envelope)
    ensures Prepared(lib, os, rsaKey, st, rq, newSalt, random).0.main
      == if AsksForSalt(lib, rq) then WithSalt(lib, st.main, newSalt) else st.main
  {
    hide AsksForSalt, OldKeys, Saved, Printed, WithSalt, Initialized;
  }

  // Preparing a reset touches the main store exactly when it has no salt yet and the request gets as
  // far as asking for it; then it stores a new one.
  lemma PreparationKeepsMain(lib: Library, os: string, rsaKey: string, st: Store, rq: Request, newSalt: bytes,
                             random: bytes)
    requires Sound(lib) && newSalt != []
    ensures var st' := Prepared(lib, os, rsaKey, st, rq, newSalt, random).0;
      && (st'.main == st.main <==> Get(st.main, SALT) != "" || !AsksForSalt(lib, rq))
      && (st'.main == st.main || st'.main == st.main[SALT := lib.base58(newSalt)])
  {
    hide AsksForSalt, Prepared;
    PreparedMain(lib, os, rsaKey, st, rq, newSalt, random);
  }

  datatype Event = Prepare(rq: Request, newSalt: bytes, random: bytes) | Abort | Commit

  function After(lib: Library, os: string, rsaKey: string, st: Store, e: Event): Store
    requires DateOfBirth.Sound(lib.envelope)
  {
    match e
    case Prepare(rq, newSalt, random) => Prepared(lib, os, rsaKey, st, rq, newSalt, random).0
    case Abort => Aborted(st)
    case Commit => Committed(st)
  }

  function Run(lib: Library, os: string, rsaKey: string, st: Store, es: seq<Event>): Store
    requires DateOfBirth.Sound(lib.envelope)
    decreases |es|
  {
    if es == [] then st else Run(lib, os, rsaKey, After(lib, os, rsaKey, st, es[0]), es[1..])
  }

  lemma {:induction false} RunOneMore(lib: Library, os: string, rsaKey: string, st: Store, es: seq<Event>, e: Event)
    requires Sound(lib)
    ensures Run(lib, os, rsaKey, st, es + [e]) == After(lib, os, rsaKey, Run(lib, os, rsaKey, st, es), e)
    decreases |es|
  {
    hide After;
    if es == [] {
      assert [] + [e] == [e] && [e][1..] == [];
    } else {
      assert (es + [e])[1..] == es[1..] + [e];
      RunOneMore(lib, os, rsaKey, After(lib, os, rsaKey, st, es[0]), es[1..], e);
    }
  }

  // What the three events do: a preparation is the method's, an abort drops the temporary store, a
  // commit copies five entries of it; both select the wallet again.
  lemma EventIs(lib: Library, os: string, rsaKey: string, st: Store, e: Event, key: string)
    requires Sound(lib)
    ensures var st' := After(lib, os, rsaKey, st, e);
      match e
      case Prepare(rq, newSalt, random) => st' == Prepared(lib, os, rsaKey, st, rq, newSalt, random).0
      case Abort => st'.main == st.main && st'.temp == map[] && !st'.initMode
      case Commit =>
        && Get(st'.main, key)
           == Get(if key in {CIPHERED, PUBLIC_KEY, ADDRESS, MAC, SALT} then st.temp else st.main, key)
        && st'.temp == map[] && !st'.initMode
  {
    hide Prepared;
  }

  // Until a commit, no run of preparations and aborts, failed or not, changes the wallet; and once it
  // is aborted the wallet selected is the one from before.
  lemma {:induction false} MainUntilCommit(lib: Library, os: string, rsaKey: string, st: Store, es: seq<Event>)
    requires Sound(lib) && Get(st.main, SALT) != "" && Commit !in es
    ensures Run(lib, os, rsaKey, st, es).main == st.main
    ensures Aborted(Run(lib, os, rsaKey, st, es)) == Store(st.main, map[], false)
    decreases |es|
  {
    hide Prepared, Aborted, Committed;
    if es != [] {
      OneEventKeepsMain(lib, os, rsaKey, st, es[0]);
      MainUntilCommit(lib, os, rsaKey, After(lib, os, rsaKey, st, es[0]), es[1..]);
    }
    assert Aborted(Run(lib, os, rsaKey, st, es)) == Store(Run(lib, os, rsaKey, st, es).main, map[], false) by {
      AbortIs(Run(lib, os, rsaKey, st, es));
    }
  }

  lemma AbortIs(st: Store)
    ensures Aborted(st) == Store(st.main, map[], false)
  {
  }

  lemma OneEventKeepsMain(lib: Library, os: string, rsaKey: string, st: Store, e: Event)
    requires Sound(lib) && Get(st.main, SALT) != "" && e != Commit
    ensures After(lib, os, rsaKey, st, e).main == st.main
  {
    hide AsksForSalt, Prepared;
    if e.Prepare? {
      PreparedMain(lib, os, rsaKey, st, e.rq, e.newSalt, e.random);
    }
  }

  // Committing when nothing was prepared leaves a wallet that no password opens.
  lemma CommitWithoutPreparation(lib: Library, rsaKey: string, st: Store, psw: string, newSalt: bytes)
    requires Get(st.temp, ADDRESS) == ""
    ensures !MacOpens(lib, Committed(st).main, psw)
  {
  }

  // So a second commit destroys what the first one stored.
  lemma SecondCommitErases(lib: Library, rsaKey: string, st: Store, psw: string, newSalt: bytes)
    ensures !MacOpens(lib, Committed(Committed(st)).main, psw)
    ensures PrivateKey(lib, rsaKey, Committed(Committed(st)).main, psw, newSalt) == Some([])
  {
  }

  // What a successful preparation has in the temporary store.
  lemma PreparedStore(lib: Library, os: string, rsaKey: string, st: Store, rq: Request, newSalt: bytes, random: bytes,
                      keys: Keys, newSalt': bytes)
    requires Sound(lib) && Inverts(lib, Get(Initialized(st.temp), SYMMETRIC)) && newSalt != [] && keys.salt != []
    requires OldKeys(lib, st.main, rq, newSalt) == Some(keys) && rq.hmacPsw.Some?
    requires Prepared(lib, os, rsaKey, st, rq, newSalt, random).1 == Done
    ensures var st', temp := Prepared(lib, os, rsaKey, st, rq, newSalt, random).0, Initialized(st.temp);
      && Opens(lib, rsaKey, st'.temp, rq.hmacPsw.value, keys.prk, newSalt')
      && Get(st'.temp, PUBLIC_KEY) == lib.base58(keys.puk)
      && Address(lib, temp, keys.puk).Some? && Get(st'.temp, ADDRESS) == lib.base58(Address(lib, temp, keys.puk).value)
      && Get(st'.temp, SALT) == lib.base58(keys.salt)
      && SameCipher(temp, st'.temp) && SameDigests(temp, st'.temp)
      && MacHead(st'.temp) == Get(temp, VERSION) + os + lib.base58(keys.salt) + Get(temp, ITERATIONS)
      && Get(st'.temp, ADDRESS) != "" && Get(st'.temp, CIPHERED) != ""
  {
    hide OldKeys, Saved, Printed, MacOpens, PrivateKey, MacHead, Initialized, Opens, WithSalt;
    var temp := Initialized(st.temp);
    var salted := temp[SALT := lib.base58(keys.salt)];
    var saved := Saved(lib, os, rsaKey, salted, rq.hmacPsw.value, keys.prk, keys.puk, newSalt, random).0;
    NewSaltSettings(lib, temp, keys.salt, newSalt);
    SavedOpens(lib, os, rsaKey, salted, rq.hmacPsw.value, keys.prk, keys.puk, newSalt, random, newSalt');
    SaltKept(lib, saved, newSalt);
  }

  lemma SaltKept(lib: Library, p: Prefs, newSalt: bytes)
    requires Get(p, SALT) != ""
    ensures WithSalt(lib, p, newSalt) == p
  {
  }

  // The part of the authenticated text in front of the keys, after a commit.
  function CommittedHead(p: Prefs, salt: string): string { Get(p, VERSION) + Get(p, OS) + salt + Get(p, ITERATIONS) }

  lemma CommittedEntries(st: Store)
    ensures var c := Committed(st).main;
      && Get(c, CIPHERED) == Get(st.temp, CIPHERED) && Get(c, PUBLIC_KEY) == Get(st.temp, PUBLIC_KEY)
      && Get(c, ADDRESS) == Get(st.temp, ADDRESS) && Get(c, MAC) == Get(st.temp, MAC)
      && Get(c, SALT) == Get(st.temp, SALT)
      && SameCipher(c, st.main) && SameDigests(c, st.main)
      && MacHead(c) == CommittedHead(st.main, Get(st.temp, SALT))
  {
    hide Get;
    CommittedCopies(st);
    var keys := [VERSION, OS, ITERATIONS, KEY_SIZE, SYMMETRIC, HASH, MAC_ALG];
    forall i | 0 <= i < |keys|
      ensures Get(Committed(st).main, keys[i]) == Get(st.main, keys[i])
    {
      CommittedKeeps(st, keys[i]);
    }
    assert keys[0] == VERSION && keys[1] == OS && keys[2] == ITERATIONS && keys[3] == KEY_SIZE && keys[4] == SYMMETRIC
      && keys[5] == HASH && keys[6] == MAC_ALG;
  }

  lemma CommittedCopies(st: Store)
    ensures var c := Committed(st).main;
      && Get(c, CIPHERED) == Get(st.temp, CIPHERED) && Get(c, PUBLIC_KEY) == Get(st.temp, PUBLIC_KEY)
      && Get(c, ADDRESS) == Get(st.temp, ADDRESS) && Get(c, MAC) == Get(st.temp, MAC)
      && Get(c, SALT) == Get(st.temp, SALT)
  {
  }

  lemma CommittedKeeps(st: Store, key: string)
    requires key != CIPHERED && key != PUBLIC_KEY && key != ADDRESS && key != MAC && key != SALT
    ensures Get(Committed(st).main, key) == Get(st.main, key)
  {
  }

  /**
   After a commit the new password decrypts the private key that was prepared. It passes the check
   exactly if version, operating system, salt and iterations read one after the other as they did in
   the temporary store, given that the MAC tells the two texts apart: updateWallet copies neither the
   settings nor the operating system.
   */
  lemma CommitOpens(lib: Library, rsaKey: string, st: Store, psw: string, prk: bytes, newSalt: bytes)
    requires Opens(lib, rsaKey, st.temp, psw, prk, newSalt)
    requires Get(st.temp, SALT) != "" && Get(st.temp, CIPHERED) != ""
    requires SameCipher(st.main, st.temp) && SameDigests(st.main, st.temp)
    requires MacsApart(lib, Committed(st).main, st.temp, psw)
    ensures PrivateKey(lib, rsaKey, Committed(st).main, psw, newSalt) == Some(prk)
    ensures MacOpens(lib, Committed(st).main, psw)
      <==> CommittedHead(st.main, Get(st.temp, SALT)) == MacHead(st.temp)
  {
    hide Get, MacFor, KeyFor, MacKey, Committed, MacHead, Decrypted, MacOpens;
    var c := Committed(st).main;
    CommittedEntries(st);
    MacOpensRaw(lib, c, psw);
    MacOpensRaw(lib, st.temp, psw);
    SameDecryption(lib, c, st.temp, psw, SaltIn(lib, c, newSalt),
                   lib.rsaDecrypt(rsaKey, lib.unbase58(Get(c, CIPHERED))));
    SaltKept(lib, c, newSalt);
    SaltKept(lib, st.temp, newSalt);
    var tail := Get(c, CIPHERED) + Get(c, PUBLIC_KEY) + Get(c, ADDRESS);
    assert MacText(c) == MacHead(c) + tail && MacText(st.temp) == MacHead(st.temp) + tail;
    SameTail(MacHead(c), MacHead(st.temp), tail);
    if MacText(c) == MacText(st.temp) {
      SamePrint(lib, c, st.temp, psw);
    }
  }

  lemma SamePrint(lib: Library, p: Prefs, q: Prefs, psw: string)
    requires SameDigests(p, q) && Get(p, SALT) == Get(q, SALT) && MacText(p) == MacText(q)
    ensures PrintedMac(lib, p, psw) == PrintedMac(lib, q, psw)
  {
    hide MacText;
  }

  lemma SameDecryption(lib: Library, p: Prefs, q: Prefs, psw: string, salt: bytes, x: bytes)
    requires SameCipher(p, q)
    ensures Decrypted(lib, p, psw, salt, x) == Decrypted(lib, q, psw, salt, x)
  {
    hide KeyFor;
    SameKey(lib, p, q, psw, salt);
  }

  lemma SameKey(lib: Library, p: Prefs, q: Prefs, psw: string, salt: bytes)
    requires SameCipher(p, q)
    ensures KeyFor(lib, p, psw, salt) == KeyFor(lib, q, psw, salt)
  {
    hide ParseInt;
  }

  lemma SameTail(a: string, b: string, tail: string)
    ensures a + tail == b + tail <==> a == b
  {
    if a + tail == b + tail {
      assert a == (a + tail)[..|a|] && b == (b + tail)[..|b|];
    }
  }

  // ---- the whole reset ----

  // A request made from what the wallet itself printed: the envelope of the 14 bytes h, whose hex text
  // is the old password, and the restore message of both keys under that password and the stored salt.
  ghost predicate Genuine(lib: Library, p: Prefs, rq: Request, h: bytes, r: octet, encPrk: bytes, encPuk: bytes,
                          prk: bytes, puk: bytes)
    requires Sound(lib)
  {
    && Get(p, SALT) != "" && lib.unbase58(Get(p, SALT)) != [] && |h| == 14
    && rq.id.Some? && rq.dateOfBirth.Some? && rq.hmacPsw.Some?
    && rq.encryptedHmacPsw == Some(Base64.Encode(DateOfBirth.Envelope(lib.envelope, lib.utf8(rq.id.value), Text(h),
                                                                     lib.utf8(rq.dateOfBirth.value), r)))
    && encPrk != [] && Encrypted(lib, p, Text(h), lib.unbase58(Get(p, SALT)), prk) == Some(encPrk)
    && encPuk != [] && Encrypted(lib, p, Text(h), lib.unbase58(Get(p, SALT)), puk) == Some(encPuk)
    && rq.restoreMsg == Some(RestorePipeline.Body(encPrk, encPuk, lib.unbase58(Get(p, SALT))))
  }

  lemma GenuineRecovers(lib: Library, p: Prefs, rq: Request, h: bytes, r: octet, encPrk: bytes, encPuk: bytes,
                        prk: bytes, puk: bytes, newSalt: bytes)
    requires Sound(lib) && DateOfBirth.Digests32(lib.envelope) && Inverts(lib, Get(p, SYMMETRIC))
    requires Genuine(lib, p, rq, h, r, encPrk, encPuk, prk, puk)
    ensures OldKeys(lib, p, rq, newSalt) == Some(Keys(prk, puk, lib.unbase58(Get(p, SALT))))
  {
    hide Base64.Encode, Base64.Decode, DateOfBirth.Envelope, DateOfBirth.Decrypted, Text, Bytes, Encrypted, Decrypted,
         Tokenize, RestorePipeline.Body;
    var salt := lib.unbase58(Get(p, SALT));
    BytesOfText(h);
    DateOfBirth.EnvelopeDecrypts(lib.envelope, lib.utf8(rq.id.value), Text(h), lib.utf8(rq.dateOfBirth.value), r);
    assert OldPassword(lib, rq) == Some(Text(h));
    PrintedFields(salt, encPrk, encPuk, salt);
    DecryptionInverts(lib, p, p, Text(h), salt, prk);
    DecryptionInverts(lib, p, p, Text(h), salt, puk);
  }

  // What saving under a new password needs: an address, and encryption that works.
  predicate Storable(lib: Library, rsaKey: string, temp: Prefs, psw: string, salt: bytes, prk: bytes, puk: bytes,
                     random: bytes)
  {
    var encPrk := Encrypted(lib, temp, psw, salt, prk);
    && Address(lib, temp, puk).Some? && Address(lib, temp, puk) != Some([])
    && encPrk.Some? && encPrk != Some([]) && lib.rsaEncrypt(rsaKey, random, encPrk.value) != []
  }

  lemma PrintedIsThere(lib: Library, p: Prefs, psw: string, prk: bytes, puk: bytes, newSalt: bytes)
    requires Get(p, SALT) != "" && KeyFor(lib, p, psw, SaltIn(lib, p, newSalt)).Some?
    ensures Printed(lib, p, psw, prk, puk, newSalt).Some?
  {
    hide KeyFor, RestorePipeline.RestoreData;
    SaltKept(lib, p, newSalt);
  }

  lemma EncryptedKey(lib: Library, p: Prefs, psw: string, salt: bytes, x: bytes)
    ensures Encrypted(lib, p, psw, salt, x).Some? <==> KeyFor(lib, p, psw, salt).Some?
  {
    hide KeyFor;
  }

  // Saving into the salted temporary store.
  lemma SavedIff(lib: Library, os: string, rsaKey: string, temp: Prefs, psw: string, salt: bytes, prk: bytes,
                 puk: bytes, newSalt: bytes, random: bytes)
    requires Sound(lib) && salt != []
    ensures var salted := temp[SALT := lib.base58(salt)];
      Saved(lib, os, rsaKey, salted, psw, prk, puk, newSalt, random).1 == Done
      <==> Storable(lib, rsaKey, temp, psw, salt, prk, puk, random)
  {
    hide KeyFor, WithWallet, WithSalt, SaltIn;
    var salted := temp[SALT := lib.base58(salt)];
    NewSaltSettings(lib, temp, salt, newSalt);
    SameKey(lib, temp, salted, psw, salt);
  }

  // A preparation that gets hold of the keys succeeds exactly if they can be stored: the message is
  // printed whenever the wallet is saved.
  lemma PreparedIff(lib: Library, os: string, rsaKey: string, st: Store, rq: Request, newSalt: bytes, random: bytes,
                    keys: Keys)
    requires Sound(lib) && newSalt != [] && keys.salt != []
    requires Inverts(lib, Get(Initialized(st.temp), SYMMETRIC))
    requires OldKeys(lib, st.main, rq, newSalt) == Some(keys) && rq.hmacPsw.Some?
    ensures Prepared(lib, os, rsaKey, st, rq, newSalt, random).1 == Done
      <==> Storable(lib, rsaKey, Initialized(st.temp), rq.hmacPsw.value, keys.salt, keys.prk, keys.puk, random)
  {
    hide OldKeys, Saved, Printed, Initialized, WithSalt, SaltIn, KeyFor, Opens, MacHead, Storable, SameCipher;
    var temp, psw := Initialized(st.temp), rq.hmacPsw.value;
    var salted := temp[SALT := lib.base58(keys.salt)];
    NewSaltSettings(lib, temp, keys.salt, newSalt);
    SavedIff(lib, os, rsaKey, temp, psw, keys.salt, keys.prk, keys.puk, newSalt, random);
    var (saved, outcome) := Saved(lib, os, rsaKey, salted, psw, keys.prk, keys.puk, newSalt, random);
    if outcome == Done {
      SavedHasKey(lib, os, rsaKey, salted, psw, keys.prk, keys.puk, newSalt, random);
      PrintedIsThere(lib, saved, psw, keys.prk, keys.puk, newSalt);
    }
  }

  lemma SavedHasKey(lib: Library, os: string, rsaKey: string, p: Prefs, psw: string, prk: bytes, puk: bytes,
                    newSalt: bytes, random: bytes)
    requires Sound(lib) && Inverts(lib, Get(p, SYMMETRIC)) && newSalt != [] && Get(p, SALT) != ""
    requires Saved(lib, os, rsaKey, p, psw, prk, puk, newSalt, random).1 == Done
    ensures var q := Saved(lib, os, rsaKey, p, psw, prk, puk, newSalt, random).0;
      Get(q, SALT) != "" && KeyFor(lib, q, psw, SaltIn(lib, q, newSalt)).Some?
  {
    hide KeyFor, WithWallet, Opens, MacHead, Encrypted;
    var q := Saved(lib, os, rsaKey, p, psw, prk, puk, newSalt, random).0;
    SavedOpens(lib, os, rsaKey, p, psw, prk, puk, newSalt, random, newSalt);
    SaltKept(lib, p, newSalt);
    SameSalt(lib, p, q, newSalt);
    EncryptedKey(lib, p, psw, SaltIn(lib, p, newSalt), prk);
    SameKey(lib, p, q, psw, SaltIn(lib, p, newSalt));
  }

  /**
   The reset as a whole: a genuine request is prepared exactly if the keys can be stored, and committed
   it then leaves a wallet of the same public key, under the same salt, whose private key the new
   password decrypts; the new password passes the check if version, operating system and iterations of
   the two stores agree.
   */
  lemma ResetKeepsKeys(lib: Library, os: string, rsaKey: string, st: Store, rq: Request, newSalt: bytes, random: bytes,
                       h: bytes, r: octet, encPrk: bytes, encPuk: bytes, prk: bytes, puk: bytes)
    requires Sound(lib) && DateOfBirth.Digests32(lib.envelope) && Inverts(lib, Get(st.main, SYMMETRIC)) && newSalt != []
    requires Genuine(lib, st.main, rq, h, r, encPrk, encPuk, prk, puk)
    requires var temp := Initialized(st.temp);
      SameCipher(st.main, temp) && SameDigests(st.main, temp)
      && Get(st.main, VERSION) == Get(temp, VERSION) && Get(st.main, OS) == os
    requires lib.base58(lib.unbase58(Get(st.main, SALT))) == Get(st.main, SALT)
    ensures rq.hmacPsw.Some? && Address(lib, st.main, puk) == Address(lib, Initialized(st.temp), puk)
    ensures Prepared(lib, os, rsaKey, st, rq, newSalt, random).1 == Done
      <==> Storable(lib, rsaKey, st.main, rq.hmacPsw.value, lib.unbase58(Get(st.main, SALT)), prk, puk, random)
    ensures Prepared(lib, os, rsaKey, st, rq, newSalt, random).1 == Done ==>
      var c := Committed(Prepared(lib, os, rsaKey, st, rq, newSalt, random).0).main;
      && Opens(lib, rsaKey, c, rq.hmacPsw.value, prk, newSalt)
      && Get(c, PUBLIC_KEY) == lib.base58(puk) && Get(c, SALT) == Get(st.main, SALT)
      && Address(lib, st.main, puk).Some? && Get(c, ADDRESS) == lib.base58(Address(lib, st.main, puk).value)
  {
    hide OldKeys, Prepared, Committed, Initialized, MacFor, Genuine, Encrypted, Decrypted, Opens, Storable;
    var salt := lib.unbase58(Get(st.main, SALT));
    var keys, temp := Keys(prk, puk, salt), Initialized(st.temp);
    GenuineHas(lib, st.main, rq, h, r, encPrk, encPuk, prk, puk);
    GenuineRecovers(lib, st.main, rq, h, r, encPrk, encPuk, prk, puk, newSalt);
    PreparedIff(lib, os, rsaKey, st, rq, newSalt, random, keys);
    SameStorable(lib, rsaKey, st.main, temp, rq.hmacPsw.value, salt, prk, puk, random);
    if Prepared(lib, os, rsaKey, st, rq, newSalt, random).1 == Done {
      PreparedStore(lib, os, rsaKey, st, rq, newSalt, random, keys, newSalt);
      PreparedMain(lib, os, rsaKey, st, rq, newSalt, random);
      var st' := Prepared(lib, os, rsaKey, st, rq, newSalt, random).0;
      CommittedEntries(st');
      SameHeads(lib, rsaKey, st', rq.hmacPsw.value, prk, newSalt);
    }
  }

  lemma SameStorable(lib: Library, rsaKey: string, p: Prefs, q: Prefs, psw: string, salt: bytes, prk: bytes, puk: bytes,
                     random: bytes)
    requires SameCipher(p, q) && SameDigests(p, q)
    ensures Storable(lib, rsaKey, p, psw, salt, prk, puk, random)
      <==> Storable(lib, rsaKey, q, psw, salt, prk, puk, random)
    ensures Address(lib, p, puk) == Address(lib, q, puk)
  {
    hide KeyFor;
    SameKey(lib, p, q, psw, salt);
  }

  lemma GenuineHas(lib: Library, p: Prefs, rq: Request, h: bytes, r: octet, encPrk: bytes, encPuk: bytes, prk: bytes,
                   puk: bytes)
    requires Sound(lib) && Genuine(lib, p, rq, h, r, encPrk, encPuk, prk, puk)
    ensures Get(p, SALT) != "" && lib.unbase58(Get(p, SALT)) != [] && rq.hmacPsw.Some?
  {
  }

  // With equal heads the two texts are one, and no hypothesis about the MAC is needed.
  lemma SameHeads(lib: Library, rsaKey: string, st: Store, psw: string, prk: bytes, newSalt: bytes)
    requires Opens(lib, rsaKey, st.temp, psw, prk, newSalt)
    requires Get(st.temp, SALT) != "" && Get(st.temp, CIPHERED) != ""
    requires SameCipher(st.main, st.temp) && SameDigests(st.main, st.temp)
    requires CommittedHead(st.main, Get(st.temp, SALT)) == MacHead(st.temp)
    ensures Opens(lib, rsaKey, Committed(st).main, psw, prk, newSalt)
  {
    hide MacFor, Committed, Decrypted, MacOpens, PrivateKey, MacHead;
    CommittedEntries(st);
    CommitOpens(lib, rsaKey, st, psw, prk, newSalt);
  }
}
