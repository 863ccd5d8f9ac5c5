// Whom the check before every signature lets through: one password, and a wallet with none of its
// authenticated entries changed.
module MacLaws {
  import opened Wrappers
  import opened Hex
  import opened Wallets
  import opened WalletLaws
  import DateOfBirth

  // ---- passwords ----

  // The hash tells the two salted passwords apart, and the printed HMAC the two keys.
  ghost predicate PasswordsApart(lib: Library, p: Prefs, psw: string, psw': string)
  {
    var text := lib.utf8(MacText(p));
    && (MacKey(lib, p, psw) == MacKey(lib, p, psw') ==> lib.utf8(psw) == lib.utf8(psw'))
    && (lib.base58(lib.hmac(Get(p, MAC_ALG), text, MacKey(lib, p, psw)))
        == lib.base58(lib.hmac(Get(p, MAC_ALG), text, MacKey(lib, p, psw')))
        ==> MacKey(lib, p, psw) == MacKey(lib, p, psw'))
  }

  // A wallet that opens to a password opens to no other.
  lemma OnlyItsPassword(lib: Library, p: Prefs, psw: string, psw': string)
    requires MacOpens(lib, p, psw) && PasswordsApart(lib, p, psw, psw')
    ensures MacOpens(lib, p, psw') <==> lib.utf8(psw) == lib.utf8(psw')
  {
    hide Get, MacText;
  }

  // So a wallet that was saved.
  lemma SavedOpensOnly(lib: Library, os: string, rsaKey: string, p: Prefs, psw: string, prk: bytes, puk: bytes,
                       newSalt: bytes, random: bytes, psw': string)
    requires Sound(lib) && Inverts(lib, Get(p, SYMMETRIC)) && newSalt != []
    requires Saved(lib, os, rsaKey, p, psw, prk, puk, newSalt, random).1 == Done
    requires PasswordsApart(lib, Saved(lib, os, rsaKey, p, psw, prk, puk, newSalt, random).0, psw, psw')
    ensures MacOpens(lib, Saved(lib, os, rsaKey, p, psw, prk, puk, newSalt, random).0, psw')
      <==> lib.utf8(psw) == lib.utf8(psw')
  {
    hide Saved, MacOpens, PrivateKey, PasswordsApart, Inverts;
    var q := Saved(lib, os, rsaKey, p, psw, prk, puk, newSalt, random).0;
    SavedOpens(lib, os, rsaKey, p, psw, prk, puk, newSalt, random, newSalt);
    OnlyItsPassword(lib, q, psw, psw');
  }

  // And a wallet whose reset was committed: the old password, like any other, opens it no more unless
  // it is the new one.
  lemma ResetOpensOnly(lib: Library, os: string, rsaKey: string, st: Store, rq: Request, newSalt: bytes,
                       random: bytes, h: bytes, r: octet, encPrk: bytes, encPuk: bytes, prk: bytes, puk: bytes,
                       psw': string)
    requires Sound(lib) && DateOfBirth.Digests32(lib.envelope) && Inverts(lib, Get(st.main, SYMMETRIC)) && newSalt != []
    requires Genuine(lib, st.main, rq, h, r, encPrk, encPuk, prk, puk) && rq.hmacPsw.Some?
    requires var temp := Initialized(st.temp);
      SameCipher(st.main, temp) && SameDigests(st.main, temp)
      && Get(st.main, VERSION) == Get(temp, VERSION) && Get(st.main, OS) == os
    requires lib.base58(lib.unbase58(Get(st.main, SALT))) == Get(st.main, SALT)
    requires Prepared(lib, os, rsaKey, st, rq, newSalt, random).1 == Done
    requires PasswordsApart(lib, Committed(Prepared(lib, os, rsaKey, st, rq, newSalt, random).0).main,
                            rq.hmacPsw.value, psw')
    ensures MacOpens(lib, Committed(Prepared(lib, os, rsaKey, st, rq, newSalt, random).0).main, psw')
      <==> lib.utf8(rq.hmacPsw.value) == lib.utf8(psw')
  {
    hide Prepared, Committed, MacOpens, PrivateKey, PasswordsApart, Inverts, Genuine, Initialized, Storable;
    var c := Committed(Prepared(lib, os, rsaKey, st, rq, newSalt, random).0).main;
    ResetKeepsKeys(lib, os, rsaKey, st, rq, newSalt, random, h, r, encPrk, encPuk, prk, puk);
    OnlyItsPassword(lib, c, rq.hmacPsw.value, psw');
  }

  // ---- entries ----

  const AUTHENTICATED: seq<string> := [VERSION, OS, SALT, ITERATIONS, CIPHERED, PUBLIC_KEY, ADDRESS]

  function Merged(p: Prefs, keys: seq<string>): string
  {
    if keys == [] then "" else Get(p, keys[0]) + Merged(p, keys[1..])
  }

  lemma MacTextIs(p: Prefs)
    ensures MacText(p) == Merged(p, AUTHENTICATED)
  {
    hide Get;
    assert Merged(p, AUTHENTICATED[6..]) == Get(p, ADDRESS) + Merged(p, AUTHENTICATED[7..]);
    assert Merged(p, AUTHENTICATED[5..]) == Get(p, PUBLIC_KEY) + Merged(p, AUTHENTICATED[6..]);
    assert Merged(p, AUTHENTICATED[4..]) == Get(p, CIPHERED) + Merged(p, AUTHENTICATED[5..]);
    assert Merged(p, AUTHENTICATED[3..]) == Get(p, ITERATIONS) + Merged(p, AUTHENTICATED[4..]);
    assert Merged(p, AUTHENTICATED[2..]) == Get(p, SALT) + Merged(p, AUTHENTICATED[3..]);
    assert Merged(p, AUTHENTICATED[1..]) == Get(p, OS) + Merged(p, AUTHENTICATED[2..]);
    Regroup(Get(p, VERSION), Get(p, OS), Get(p, SALT), Get(p, ITERATIONS), Get(p, CIPHERED), Get(p, PUBLIC_KEY),
            Get(p, ADDRESS));
  }

  lemma Regroup(a: string, b: string, c: string, d: string, e: string, f: string, g: string)
    ensures (a + b + c + d) + e + f + g == a + (b + (c + (d + (e + (f + (g + ""))))))
  {
  }

  predicate Once(keys: seq<string>) { forall i, j | 0 <= i < j < |keys| :: keys[i] != keys[j] }

  lemma {:induction false} OthersMerge(p: Prefs, key: string, value: string, keys: seq<string>)
    requires key !in keys
    ensures Merged(p[key := value], keys) == Merged(p, keys)
  {
    hide Get;
    if keys != [] {
      GetOther(p, keys[0], key, value);
      OthersMerge(p, key, value, keys[1..]);
    }
  }

  // Changing one entry changes the merged text.
  lemma {:induction false} MergedApart(p: Prefs, key: string, value: string, keys: seq<string>)
    requires Once(keys) && key in keys
    ensures Merged(p[key := value], keys) == Merged(p, keys) <==> value == Get(p, key)
  {
    hide Get;
    var rest := keys[1..];
    if keys[0] == key {
      OthersMerge(p, key, value, rest);
      GetWritten(p, key, value);
      SameTail(value, Get(p, key), Merged(p, rest));
    } else {
      GetOther(p, keys[0], key, value);
      MergedApart(p, key, value, rest);
      SameHead(Get(p, keys[0]), Merged(p[key := value], rest), Merged(p, rest));
    }
  }

  lemma SameHead(head: string, a: string, b: string)
    ensures head + a == head + b <==> a == b
  {
    if head + a == head + b {
      assert a == (head + a)[|head|..] && b == (head + b)[|head|..];
    }
  }

  lemma GetWritten(p: Prefs, key: string, value: string)
    ensures Get(p[key := value], key) == value
  {
  }

  /**
   Whichever of the seven authenticated entries is overwritten, the check then fails, unless the entry
   is what it was; given that the printed MAC tells the two texts apart.
   */
  lemma TamperedIff(lib: Library, p: Prefs, psw: string, key: string, value: string)
    requires MacOpens(lib, p, psw) && key in AUTHENTICATED && MacsApart(lib, p, p[key := value], psw)
    ensures MacOpens(lib, p[key := value], psw) <==> value == Get(p, key)
  {
    hide Get, MacText;
    var q := p[key := value];
    MacTextIs(p);
    MacTextIs(q);
    KeysAreApart();
    MergedApart(p, key, value, AUTHENTICATED);
    if value == Get(p, key) {
      SameGets(p, key, value);
    } else {
      GetOther(p, MAC, key, value);
      MacOpensRaw(lib, p, psw);
      MacOpensRaw(lib, q, psw);
    }
  }

  lemma KeysAreApart()
    ensures Once(AUTHENTICATED) && MAC !in AUTHENTICATED
  {
  }

  lemma SameGets(p: Prefs, key: string, value: string)
    requires value == Get(p, key)
    ensures forall k :: Get(p[key := value], k) == Get(p, k)
  {
  }
}
