// A library that meets every hypothesis about cryptography, and a message under which a wallet that
// opened opens no more, although the message passes the check and is not stored.
module WalletExamples {
  import opened Wrappers
  import opened Wallets
  import opened WalletLaws
  import opened MacLaws
  import opened RestoreLaws
  import DateOfBirth
  import RestorePipeline

  function LowBytes(s: string): bytes { seq(|s|, i requires 0 <= i < |s| => s[i] as int % 256) }

  function AsText(x: bytes): string { seq(|x|, i requires 0 <= i < |x| => x[i] as char) }

  function Zeros(n: nat): bytes { seq(n, _ => 0) }

  function Ones(x: bytes): bytes { seq(32, _ => 1) }

  function UpToLimit(x: bytes): bytes { if |x| > 245 then [] else x }

  const ENVELOPE := DateOfBirth.Library(
    (k, iv, x) => x, (k, iv, x) => x, (p, s, c, n) => Zeros(n), (t, k) => Ones(t), x => Ones(x))

  const TOY := Library(
    s => LowBytes(s), (psw, salt, c, n) => Zeros(n), (alg, iv, k, x) => x, (alg, iv, k, x) => x,
    (k, r, x) => UpToLimit(x), (k, x) => x, (alg, x) => Ones(x), (alg, x, k) => [0] + x,
    x => AsText(x), s => LowBytes(s), ENVELOPE)

  lemma TextAndBack(x: bytes)
    ensures LowBytes(AsText(x)) == x
  {
  }

  lemma ToyIsSound()
    ensures Sound(TOY) && RsaLimit(TOY) && DateOfBirth.Digests32(TOY.envelope)
    ensures forall alg :: Inverts(TOY, alg)
    ensures forall alg, x, k :: TOY.hmac(alg, x, k) != []
  {
    hide LowBytes, AsText;
    forall x
      ensures LowBytes(AsText(x)) == x && (x != [] ==> AsText(x) != "")
    {
      TextAndBack(x);
      TextLength(x);
    }
  }

  lemma TextLength(x: bytes)
    ensures |AsText(x)| == |x|
  {
  }

  // A wallet stored under the salt of one byte, and a message with a longer salt and an E(prk) that is
  // one byte too long.
  function Before(psw: string): Prefs
  {
    WithWallet(TOY, "11", DEFAULTS[SALT := AsText([65])], psw, AsText([7]), "P", "A")
  }

  const LONG := Fields(Zeros(246), [1], [65, 66])

  // In this library the MACs of texts of different lengths differ.
  lemma MacLength(p: Prefs, psw: string)
    ensures |PrintedMac(TOY, p, psw)| == |MacText(p)| + 1
  {
    hide Get, MacText;
    TextLength([0] + LowBytes(MacText(p)));
  }

  lemma BeforeOpens(psw: string)
    ensures MacOpens(TOY, Before(psw), psw) && Get(Before(psw), SALT) == AsText([65])
  {
    hide Get, MacOpens, PrivateKey, WithWallet, MacHead, AsText, Sound, SameCipher, SameDigests;
    ToyIsSound();
    TextLength([65]);
    GetWritten(DEFAULTS, SALT, AsText([65]));
    StoredWalletOpens(TOY, "11", "", DEFAULTS[SALT := AsText([65])], psw, [7], "P", "A", []);
  }

  lemma LongerText(p: Prefs)
    requires Get(p, SALT) == AsText([65])
    ensures |MacText(p[SALT := AsText([65, 66])])| == |MacText(p)| + 1
  {
    hide Get, AsText;
    SaltedEntries(p, AsText([65, 66]));
    TextLength([65]);
    TextLength([65, 66]);
  }

  // The message passes the check, restoring it fails, and the password that opened the wallet does not
  // open it any more.
  lemma FailedRestoreLocksWallet(psw: string, newSalt: bytes, random: bytes)
    ensures
      var msg := RestorePipeline.RestoreData([0, 1], LONG.encPrk, LONG.encPuk, LONG.salt);
      var (after, outcome) := RestoredFrom(TOY, "11", "", Before(psw), psw, msg, newSalt, random);
      && MacOpens(TOY, Before(psw), psw)
      && HmacVerified(TOY, Before(psw), psw, msg) == Some(true)
      && outcome != Done && !MacOpens(TOY, after, psw)
  {
    hide Get, MacOpens, MacText, PrintedMac, Before, RestoredFrom, HmacVerified, AsText, LowBytes, Sound, RsaLimit,
         RestorePipeline.RestoreData;
    var p := Before(psw);
    ToyIsSound();
    BeforeOpens(psw);
    OverlongKeyReplacesSalt(TOY, "11", "", p, psw, LONG, newSalt, random);
    assert TOY.hmac(Get(p, MAC_ALG), LONG.encPuk, TOY.utf8(psw)) == [0, 1];
    var q := p[SALT := AsText([65, 66])];
    assert q == p[SALT := TOY.base58([65, 66])];
    LongerText(p);
    MacLength(q, psw);
    MacLength(p, psw);
    FailedRestoreOpensIff(TOY, p, psw, [65, 66]);
    TextLength([65]);
    TextLength([65, 66]);
  }
}
