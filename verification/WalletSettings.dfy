// What the settings of a store mean: the numbers they are read as, the key cut from a password, the
// address, and every outcome of saving.
module WalletSettings {
  import opened Wrappers
  import opened Hex
  import opened Tokens
  import opened Wallets
  import opened WalletLaws
  import Ledgers
  import Base64
  import DateOfBirth

  // ---- numbers ----

  predicate AllDigits(s: string) { s != "" && forall i | 0 <= i < |s| :: JavaDecimal(s[i]) >= 0 }

  // A text of digits is read, and the first digit stands for the highest power of ten.
  lemma {:induction false} DigitsFront(s: string)
    ensures Digits(s).Some? <==> AllDigits(s)
    ensures AllDigits(s) && |s| > 1 ==>
      Digits(s[1..]).Some? && Digits(s).value == JavaDecimal(s[0]) * Ledgers.Pow10(|s| - 1) + Digits(s[1..]).value
    ensures AllDigits(s) && |s| == 1 ==> Digits(s).value == JavaDecimal(s[0])
    ensures Digits(s).Some? ==> Digits(s).value >= 0
  {
    hide JavaDecimal;
    if |s| > 1 {
      var front, rest := s[..|s| - 1], s[1..];
      DigitsFront(front);
      AllDigitsFront(s);
      assert rest[..|rest| - 1] == front[1..] && rest[|rest| - 1] == s[|s| - 1];
      if AllDigits(s) {
        AllDigitsFront(rest);
        Tenfold(JavaDecimal(s[0]), Ledgers.Pow10(|s| - 2), if |s| > 2 then Digits(front[1..]).value else 0);
      }
    }
  }

  lemma AllDigitsFront(s: string)
    requires s != ""
    ensures AllDigits(s) <==> (|s| == 1 || AllDigits(s[..|s| - 1])) && JavaDecimal(s[|s| - 1]) >= 0
    ensures AllDigits(s) && |s| > 1 ==> AllDigits(s[1..])
  {
    hide JavaDecimal;
  }

  lemma Tenfold(d: int, p: int, rest: int)
    ensures 10 * (d * p + rest) == d * (10 * p) + 10 * rest
  {
  }

  lemma {:induction false} DecimalIsRead(n: nat)
    ensures Digits(Ledgers.Decimal(n)) == Some(n)
    ensures Ledgers.Decimal(n)[0] != '-' && Ledgers.Decimal(n)[0] != '+'
  {
    hide JavaDecimal;
    LastDigit(n % 10);
    if n >= 10 {
      DecimalIsRead(n / 10);
      assert Ledgers.Decimal(n)[..|Ledgers.Decimal(n)| - 1] == Ledgers.Decimal(n / 10);
    }
  }

  lemma LastDigit(n: nat)
    requires n < 10
    ensures JavaDecimal(Ledgers.Digit(n)) == n && Ledgers.Digit(n) != '-' && Ledgers.Digit(n) != '+'
  {
  }

  // Every int is read back from its text, with or without a sign, and no number beyond.
  lemma ParsesDecimal(n: nat)
    ensures ParseInt(Ledgers.Decimal(n)) == ParseInt("+" + Ledgers.Decimal(n))
      == if n < 0x8000_0000 then Some(n) else None
    ensures ParseInt("-" + Ledgers.Decimal(n)) == if n <= 0x8000_0000 then Some(-(n as int)) else None
    ensures ParseInt("") == None && ParseInt("-") == None && ParseInt("+") == None
  {
    hide Digits;
    var s := Ledgers.Decimal(n);
    DecimalIsRead(n);
    assert ("+" + s)[1..] == s && ("-" + s)[1..] == s;
    DigitsFront("");
    assert "-"[1..] == "" && "+"[1..] == "";
  }

  // ---- keys ----

  // The derived bytes are key and IV one behind the other; the key has as many whole bytes as the setting
  // has bits.
  lemma KeyIs(lib: Library, p: Prefs, psw: string, salt: bytes, k: CipherKey)
    ensures KeyFor(lib, p, psw, salt) == Some(Some(k)) <==>
      var iterations, bits := ParseInt(Get(p, ITERATIONS)), ParseInt(Get(p, KEY_SIZE));
      && iterations.Some? && bits.Some? && k.alg == Get(p, SYMMETRIC)
      && k.key + k.iv == lib.kdf(lib.utf8(psw), salt, iterations.value, 48) && |k.key + k.iv| == 48
      && (if bits.value < 0 then bits.value > -8 && k.key == [] else 8 * |k.key| <= bits.value < 8 * |k.key| + 8)
  {
    hide ParseInt, Get;
    var iterations, bits := ParseInt(Get(p, ITERATIONS)), ParseInt(Get(p, KEY_SIZE));
    if iterations.Some? && bits.Some? {
      var dk := lib.kdf(lib.utf8(psw), salt, iterations.value, 48);
      if k.key + k.iv == dk {
        assert k.key == dk[..|k.key|] && k.iv == dk[|k.key|..];
      }
    }
  }

  // The bounds of an int setting in the text DEFAULTS gives it.
  lemma DefaultNumbers()
    ensures ParseInt("256") == Some(256) && ParseInt("4096") == Some(4096)
  {
    assert Ledgers.Decimal(256) == "256" by { assert Ledgers.Decimal(25) == "25"; }
    assert Ledgers.Decimal(4096) == "4096" by { assert Ledgers.Decimal(409) == "409"; }
    ParsesDecimal(256);
    ParsesDecimal(4096);
  }

  // A new store encrypts with AES in counter mode under 32 bytes of key and 16 of IV, from 4096 rounds.
  lemma DefaultCipher(lib: Library, p: Prefs, psw: string, salt: bytes, x: bytes)
    requires Get(p, VERSION) == ""
    requires |lib.kdf(lib.utf8(psw), salt, 4096, 48)| == 48
    ensures var dk := lib.kdf(lib.utf8(psw), salt, 4096, 48);
      Encrypted(lib, Initialized(p), psw, salt, x) == Some(lib.encrypt("AES/CTR/NoPadding", dk[32..], dk[..32], x))
  {
    hide ParseInt, Initialized;
    DefaultNumbers();
    DefaultEntries(p);
  }

  lemma DefaultEntries(p: Prefs)
    requires Get(p, VERSION) == ""
    ensures var q := Initialized(p);
      && Get(q, ITERATIONS) == "4096" && Get(q, KEY_SIZE) == "256" && Get(q, SYMMETRIC) == "AES/CTR/NoPadding"
      && Get(q, HASH) == "SHA256" && Get(q, MAC_ALG) == "HmacSHA256" && Get(q, VERSION) == "1"
      && Get(q, SALT) == Get(p, SALT) && Get(q, ADDRESS) == Get(p, ADDRESS) && Get(q, CIPHERED) == Get(p, CIPHERED)
  {
  }

  // The defaults are given to stores without a version, once.
  lemma InitializedIff(p: Prefs)
    ensures Initialized(p) == p <==> Get(p, VERSION) != ""
    ensures Initialized(Initialized(p)) == Initialized(p)
  {
    if Get(p, VERSION) == "" {
      DefaultEntries(p);
    }
  }

  // ---- addresses ----

  // All but the first twelve bytes of the hash of the public key: 20 bytes of a hash of 32.
  lemma AddressIs(lib: Library, p: Prefs, puk: bytes, address: bytes)
    ensures Address(lib, p, puk) == Some(address) <==>
      exists first: bytes :: |first| == 12 && first + address == lib.hash(Get(p, HASH), puk)
  {
    var h := lib.hash(Get(p, HASH), puk);
    if |h| >= 12 && Address(lib, p, puk) == Some(address) {
      assert h[..12] + address == h;
    }
    if first: bytes :| |first| == 12 && first + address == h {
      assert h[12..] == address;
    }
  }

  // ---- outcomes ----

  // Saving throws on a hash that is too short, or on settings that give no key; it is refused for an
  // empty address, or when one of the two encryptions fails; and unless it succeeds the store is as it
  // was, except that one without a salt has got one as soon as there is an address.
  lemma SavedOutcome(lib: Library, os: string, rsaKey: string, p: Prefs, psw: string, prk: bytes, puk: bytes,
                     newSalt: bytes, random: bytes)
    requires Sound(lib) && newSalt != []
    ensures var (q, outcome) := Saved(lib, os, rsaKey, p, psw, prk, puk, newSalt, random);
      var h, key := lib.hash(Get(p, HASH), puk), KeyFor(lib, p, psw, SaltIn(lib, p, newSalt));
      var e := Encrypted(lib, p, psw, SaltIn(lib, p, newSalt), prk);
      && (outcome == Threw <==> |h| < 12 || (|h| > 12 && key.None?))
      && (outcome == Rejected <==>
          |h| == 12 || (|h| > 12 && key.Some? && (e == Some([]) || lib.rsaEncrypt(rsaKey, random, e.value) == [])))
      && (outcome != Done ==> q == if |h| > 12 && Get(p, SALT) == "" then p[SALT := lib.base58(newSalt)] else p)
  {
    hide KeyFor, WithWallet, Get, SaltIn, SameCipher;
    SaltedSettings(lib, p, newSalt, newSalt);
    SameKey(lib, p, WithSalt(lib, p, newSalt), psw, SaltIn(lib, p, newSalt));
  }

  // A preparation leaves the temporary store selected exactly if it throws with the keys in hand. The
  // message it then answers is the one printed from the temporary store it leaves.
  lemma PreparedFlag(lib: Library, os: string, rsaKey: string, st: Store, rq: Request, newSalt: bytes, random: bytes)
    requires Sound(lib) && newSalt != []
    ensures var (st', outcome, msg) := Prepared(lib, os, rsaKey, st, rq, newSalt, random);
      && (st'.initMode <==> outcome == Threw && OldKeys(lib, st.main, rq, newSalt).Some?)
      && (msg.Some? <==> outcome != Threw)
      && (msg.Some? ==>
          OldKeys(lib, st.main, rq, newSalt).Some? && rq.hmacPsw.Some?
          && var keys := OldKeys(lib, st.main, rq, newSalt).value;
             msg == Printed(lib, st'.temp, rq.hmacPsw.value, keys.prk, keys.puk, newSalt))
  {
    hide OldKeys, Saved, Printed, Initialized, WithSalt, AsksForSalt;
    if OldKeys(lib, st.main, rq, newSalt).Some? && rq.hmacPsw.Some? {
      var keys := OldKeys(lib, st.main, rq, newSalt).value;
      var salted := Initialized(st.temp)[SALT := lib.base58(keys.salt)];
      var saved := Saved(lib, os, rsaKey, salted, rq.hmacPsw.value, keys.prk, keys.puk, newSalt, random).0;
      SamePrinted(lib, saved, rq.hmacPsw.value, keys.prk, keys.puk, newSalt);
    }
  }

  // Printing stores the salt, and prints the same again.
  lemma SamePrinted(lib: Library, p: Prefs, psw: string, prk: bytes, puk: bytes, newSalt: bytes)
    requires Sound(lib) && newSalt != []
    ensures Printed(lib, WithSalt(lib, p, newSalt), psw, prk, puk, newSalt) == Printed(lib, p, psw, prk, puk, newSalt)
  {
    hide Encrypted, WithSalt, SaltIn, SameCipher;
    SaltedSettings(lib, p, newSalt, newSalt);
    SaltStays(lib, p, newSalt);
    HmacSetting(lib, p, newSalt);
  }

  // ---- reading messages ----

  // What String.split drops are the empty fields at the end, and all of them.
  lemma {:induction false} DropEmptyIs(fs: seq<string>)
    ensures var r := DropEmpty(fs);
      && |r| <= |fs| && fs == r + seq(|fs| - |r|, _ => "")
      && (r == [] || r[|r| - 1] != "")
  {
    if fs != [] && fs[|fs| - 1] == "" {
      var front := fs[..|fs| - 1];
      DropEmptyIs(front);
      var r := DropEmpty(front);
      assert seq(|fs| - |r|, _ => "") == seq(|front| - |r|, _ => "") + [""];
    } else {
      assert fs + [] == fs;
    }
  }

  // The salt of the wallet is asked for as soon as the message begins with one readable field.
  lemma FirstFieldAsks(lib: Library, rq: Request, encPrk: bytes)
    requires Sound(lib) && encPrk != [] && rq.restoreMsg == Some(Base64.Encode(encPrk))
    ensures AsksForSalt(lib, rq) <==> OldPassword(lib, rq).Some?
    ensures forall p, newSalt :: OldKeys(lib, p, rq, newSalt) == None
  {
    hide Base64.Encode, Base64.Decode, OldPassword, Split;
    Base64.NoSeparators(encPrk);
    SplitField(Base64.Encode(encPrk), '$', "");
    NonEmptyAll([Base64.Encode(encPrk)]);
    Base64.DecodeEncode(encPrk);
  }
}
