/**
 The way of a restore message: printed by the JavaScript wallet, sent to the Java server in a
 registration request, stored, returned in a restore reply, and converted back by the wallet.
 Ciphertexts, HMAC and salt are byte strings; an id is given by its UTF-8 bytes. The client library
 reads the password as hex, leniently, and prints the bytes in Base64; the password appears here as
 that text. None stands for a JavaScript exception or malformed input.
 */
module RestorePipeline {
  import opened Wrappers
  import opened Hex
  import opened Tokens
  import Base64

  const REGIST_REQ := "4D4F414003"
  const REGIST_RES := "4D4F414004"
  const RESTORE_REQ := "4D4F414007"
  const RESTORE_RES := "4D4F414008"
  const REGIST_SUCCESS := "6080"
  const REGIST_FAIL := "6081"
  const RESTORE_SUCCESS := "6084"
  const RESTORE_FAIL := "6085"
  const NOT_ALLOWED := "Request not allowed (E0001)"

  // ---- JavaScript client ----

  // E(prk) $ E(puk) $ salt
  function Body(encPrk: seq<octet>, encPuk: seq<octet>, salt: seq<octet>): string
  {
    Base64.Encode(encPrk) + "$" + (Base64.Encode(encPuk) + "$" + Base64.Encode(salt))
  }

  // HMAC % E(prk) $ E(puk) $ salt
  function RestoreData(hmac: seq<octet>, encPrk: seq<octet>, encPuk: seq<octet>, salt: seq<octet>): string
  {
    Base64.Encode(hmac) + "%" + Body(encPrk, encPuk, salt)
  }

  // psw64 is the password, parsed as hex and printed in Base64.
  function GenerateWalletRegistMsg(id: seq<octet>, psw64: string, restoreMsg: string): Option<string>
  {
    var firstSplit := Split(restoreMsg, '%');
    if |firstSplit| < 2 then None else
    var secondSplit := Split(firstSplit[1], '$');
    if |secondSplit| < 3 then None else
    match (Base64.Decode(firstSplit[0]), Base64.Decode(secondSplit[1]), Base64.Decode(secondSplit[2]))
    case (Some(hmac), Some(puk), Some(salt)) =>
      Some(REGIST_REQ + "$" + (Base64.Encode(id) + "$" + (psw64 + "$" +
           (secondSplit[0] + "$" + Base64.Encode(puk + hmac + salt)))))
    case _ => None
  }

  function GenerateRestoreWalletMsg(id: seq<octet>): string { RESTORE_REQ + "$" + Base64.Encode(id) }

  // String.prototype.substr
  function Substr(s: string, start: int, len: int): string
  {
    var from := if start >= |s| then |s| else if start >= 0 then start else if |s| + start >= 0 then |s| + start else 0;
    var count := if len <= 0 then 0 else if len <= |s| - from then len else |s| - from;
    s[from..from + count]
  }

  function ParseHex(s: string): seq<octet> { if |s| % 2 == 0 then Bytes(s) else [] }

  function ConvertRestoreDataFormat(msg: string): Option<string>
  {
    var eachMsg := Split(msg, '$');
    if |eachMsg| < 2 then None else
    match Base64.Decode(eachMsg[|eachMsg| - 1])
    case None => None
    case Some(blob) =>
      var hex := Text(blob);
      Some(eachMsg[|eachMsg| - 2] + "$" + (Base64.Encode(ParseHex(Substr(hex, 0, |hex| - 128)))
           + "$" + Base64.Encode(ParseHex(Substr(hex, |hex| - 64, 64)))))
  }

  // hmac(target, password)
  function VerifyPsw(hmac: (seq<octet>, string) -> seq<octet>, psw: string, msg: string): Option<bool>
  {
    var firstSplit := Split(msg, '$');
    if |firstSplit| < 4 then None else
    match Base64.Decode(firstSplit[3])
    case None => None
    case Some(blob) =>
      var encryptedPuk := Substr(Text(blob), 0, 130);
      var hmacEncryptedPuk := Substr(Text(blob), 130, 64);
      Some(StartsWith(hmacEncryptedPuk, Text(hmac(ParseHex(encryptedPuk), psw))))
  }

  // ---- Java server ----

  datatype Account = Account(prk: Option<string>, puk: Option<string>)

  type Accounts = map<seq<octet>, Account>

  // A null field prints as "null".
  function Printed(field: Option<string>): string { if field.Some? then field.value else "null" }

  function Regist(idText: seq<octet> -> string, db: Accounts, ts: seq<string>): (Accounts, string)
  {
    if |ts| < 2 || Base64.Decode(ts[1]).None? then (db, NOT_ALLOWED)
    else
      var id := Base64.Decode(ts[1]).value;
      if id !in db then
        (db, REGIST_RES + "$" + REGIST_FAIL + "$" + "E001001 There is no wallet to save with ID " + idText(id))
      else if |ts| < 5 then (db, REGIST_RES + "$" + REGIST_FAIL + "$" + "null")
      else (db[id := Account(Some(ts[3]), Some(ts[4]))], REGIST_RES + "$" + REGIST_SUCCESS)
  }

  function Select(db: Accounts, ts: seq<string>): string
  {
    if |ts| < 2 || Base64.Decode(ts[1]).None? then NOT_ALLOWED
    else
      var id := Base64.Decode(ts[1]).value;
      if id !in db then RESTORE_RES + "$" + RESTORE_FAIL
      else RESTORE_RES + "$" + (RESTORE_SUCCESS + "$" + (Printed(db[id].prk) + "$" + Printed(db[id].puk)))
  }

  function Handled(idText: seq<octet> -> string, db: Accounts, message: string): (Accounts, string)
  {
    var ts := Tokenize(message, '$');
    if ts == [] then (db, NOT_ALLOWED)
    else if ts[0] == REGIST_REQ then Regist(idText, db, ts)
    else if ts[0] == RESTORE_REQ then (db, Select(db, ts))
    else (db, NOT_ALLOWED)
  }

  class WalletServer {
    var db: Accounts
    const idText: seq<octet> -> string

    constructor (db: Accounts, idText: seq<octet> -> string)
      ensures this.db == db && this.idText == idText
    {
      this.db := db;
      this.idText := idText;
    }

    method HandleWalletReq(message: string) returns (reply: string)
      modifies this`db
      ensures (db, reply) == Handled(idText, old(db), message)
    {
      var walletReq := new StringTokenizer(message, '$');
      var header := walletReq.NextToken();
      if header.None? {
        return NOT_ALLOWED;
      }
      if header.value == REGIST_REQ {
        reply := RegistFranchWallet(walletReq);
      } else if header.value == RESTORE_REQ {
        reply := SelectFranchWallet(walletReq);
      } else {
        reply := NOT_ALLOWED;
      }
    }

    method RegistFranchWallet(walletReq: StringTokenizer) returns (reply: string)
      requires walletReq.position == 1
      modifies this`db, walletReq
      ensures (db, reply) == Regist(idText, old(db), walletReq.tokens)
    {
      var idToken := walletReq.NextToken();
      if idToken.None? || Base64.Decode(idToken.value).None? {
        return NOT_ALLOWED;
      }
      var msgBodyId := Base64.Decode(idToken.value).value;
      if msgBodyId !in db {
        return REGIST_RES + "$" + REGIST_FAIL + "$" + "E001001 There is no wallet to save with ID " + idText(msgBodyId);
      }
      var msgBodyPsw := walletReq.NextToken();
      var msgBodyPrk := walletReq.NextToken();
      var msgBodyPuk := walletReq.NextToken();
      if msgBodyPuk.None? {
        return REGIST_RES + "$" + REGIST_FAIL + "$" + "null";
      }
      db := db[msgBodyId := Account(msgBodyPrk, msgBodyPuk)];
      reply := REGIST_RES + "$" + REGIST_SUCCESS;
    }

    method SelectFranchWallet(walletReq: StringTokenizer) returns (reply: string)
      requires walletReq.position == 1
      modifies walletReq
      ensures reply == Select(db, walletReq.tokens)
    {
      var idToken := walletReq.NextToken();
      if idToken.None? || Base64.Decode(idToken.value).None? {
        return NOT_ALLOWED;
      }
      var msgBodyId := Base64.Decode(idToken.value).value;
      if msgBodyId !in db {
        return RESTORE_RES + "$" + RESTORE_FAIL;
      }
      var authDto := db[msgBodyId];
      reply := RESTORE_RES + "$" + (RESTORE_SUCCESS + "$" + (Printed(authDto.prk) + "$" + Printed(authDto.puk)));
    }
  }

  // ---- laws ----

  // A printed restore message splits into its four fields.
  lemma RestoreDataSplits(hmac: seq<octet>, encPrk: seq<octet>, encPuk: seq<octet>, salt: seq<octet>)
    ensures Split(RestoreData(hmac, encPrk, encPuk, salt), '%') == [Base64.Encode(hmac), Body(encPrk, encPuk, salt)]
    ensures Split(Body(encPrk, encPuk, salt), '$')
      == [Base64.Encode(encPrk), Base64.Encode(encPuk), Base64.Encode(salt)]
  {
    hide Base64.Encode, Split;
    Base64.NoSeparators(hmac);
    Base64.NoSeparators(encPrk);
    Base64.NoSeparators(encPuk);
    Base64.NoSeparators(salt);
    var body, tail := Body(encPrk, encPuk, salt), Base64.Encode(encPuk) + "$" + Base64.Encode(salt);
    SplitField(Base64.Encode(encPrk), '$', tail);
    SplitField(Base64.Encode(encPuk), '$', Base64.Encode(salt));
    SplitField(Base64.Encode(salt), '$', "");
    SplitField(Base64.Encode(hmac), '%', body);
    SplitField(body, '%', "");
  }

  lemma SplitFive(a: string, b: string, c: string, d: string, e: string)
    requires '$' !in a && '$' !in b && '$' !in c && '$' !in d && '$' !in e
    ensures Split(a + "$" + (b + "$" + (c + "$" + (d + "$" + e))), '$') == [a, b, c, d, e]
  {
    hide Split;
    SplitField(a, '$', b + "$" + (c + "$" + (d + "$" + e)));
    SplitField(b, '$', c + "$" + (d + "$" + e));
    SplitField(c, '$', d + "$" + e);
    SplitField(d, '$', e);
    SplitField(e, '$', "");
  }

  // Every request the server turns down, with its reply; the accounts stay as they are.
  lemma TurnedDown(idText: seq<octet> -> string, db: Accounts, message: string)
    ensures var ts, handled := Tokenize(message, '$'), Handled(idText, db, message);
      var id := if |ts| >= 2 then Base64.Decode(ts[1]) else None;
      && (ts == [] || ts[0] !in {REGIST_REQ, RESTORE_REQ} || id.None? ==>
            handled == (db, "Request not allowed (E0001)"))
      && (id.Some? && id.value !in db && ts[0] == REGIST_REQ ==>
            handled == (db, "4D4F414004$6081$" + "E001001 There is no wallet to save with ID " + idText(id.value)))
      && (id.Some? && id.value in db && ts[0] == REGIST_REQ && |ts| < 5 ==>
            handled == (db, "4D4F414004$6081$null"))
      && (id.Some? && id.value !in db && ts[0] == RESTORE_REQ ==> handled == (db, "4D4F414008$6085"))
  {
    hide Tokenize, Base64.Decode;
    FixedReplies();
  }

  lemma FixedReplies()
    ensures REGIST_RES + "$" + REGIST_FAIL + "$" == "4D4F414004$6081$"
    ensures "4D4F414004$6081$" + "null" == "4D4F414004$6081$null"
    ensures RESTORE_RES + "$" + RESTORE_FAIL == "4D4F414008$6085" && REGIST_REQ != RESTORE_REQ
  {
  }

  // The five fields of the registration request, and of the request as sent.
  function RegistFields(id: seq<octet>, psw64: string, hmac: seq<octet>, encPrk: seq<octet>, encPuk: seq<octet>,
                        salt: seq<octet>): seq<string>
  {
    [REGIST_REQ, Base64.Encode(id), psw64, Base64.Encode(encPrk), Base64.Encode(encPuk + hmac + salt)]
  }

  lemma RegistMsgSplits(id: seq<octet>, psw64: string, hmac: seq<octet>, encPrk: seq<octet>, encPuk: seq<octet>,
                        salt: seq<octet>)
    requires '$' !in psw64
    ensures var m := GenerateWalletRegistMsg(id, psw64, RestoreData(hmac, encPrk, encPuk, salt));
      m.Some? && Split(m.value, '$') == RegistFields(id, psw64, hmac, encPrk, encPuk, salt)
  {
    hide Base64.Encode, Base64.Decode, Split, RestoreData, Body;
    RestoreDataSplits(hmac, encPrk, encPuk, salt);
    Base64.DecodeEncode(hmac);
    Base64.DecodeEncode(encPuk);
    Base64.DecodeEncode(salt);
    var fs := RegistFields(id, psw64, hmac, encPrk, encPuk, salt);
    Base64.NoSeparators(id);
    Base64.NoSeparators(encPrk);
    Base64.NoSeparators(encPuk + hmac + salt);
    SplitFive(fs[0], fs[1], fs[2], fs[3], fs[4]);
  }

  // A hex password goes as the Base64 text of its bytes, which meets what is asked of psw64 and is
  // empty only for the empty password.
  lemma HexPassword(psw: string)
    requires IsHex(psw)
    ensures '$' !in Base64.Encode(Bytes(psw)) && (Base64.Encode(Bytes(psw)) == "" <==> psw == "")
  {
    Base64.NoSeparators(Bytes(psw));
  }

  // What the server keeps of a registered wallet.
  function Stored(hmac: seq<octet>, encPrk: seq<octet>, encPuk: seq<octet>, salt: seq<octet>): Account
  {
    Account(Some(Base64.Encode(encPrk)), Some(Base64.Encode(encPuk + hmac + salt)))
  }

  predicate AllPresent(id: seq<octet>, psw64: string, encPrk: seq<octet>) { id != [] && psw64 != "" && encPrk != [] }

  // Registration succeeds exactly for a known id when no field is empty: the server's tokenizer
  // drops an empty field and then runs out of tokens.
  lemma RegistrationSucceedsIff(idText: seq<octet> -> string, db: Accounts, id: seq<octet>, psw64: string,
                                hmac: seq<octet>, encPrk: seq<octet>, encPuk: seq<octet>, salt: seq<octet>, m: string)
    requires '$' !in psw64 && |hmac| == 32 && |salt| == 32
    requires Some(m) == GenerateWalletRegistMsg(id, psw64, RestoreData(hmac, encPrk, encPuk, salt))
    ensures Handled(idText, db, m).1 == REGIST_RES + "$" + REGIST_SUCCESS <==> AllPresent(id, psw64, encPrk) && id in db
    ensures Handled(idText, db, m).0 ==
      if AllPresent(id, psw64, encPrk) && id in db
      then db[id := Stored(hmac, encPrk, encPuk, salt)] else db
  {
    hide Base64.Encode, Base64.Decode, Split, RestoreData, GenerateWalletRegistMsg, Select;
    var fs := RegistFields(id, psw64, hmac, encPrk, encPuk, salt);
    RegistMsgSplits(id, psw64, hmac, encPrk, encPuk, salt);
    NonEmptyAll(fs);
    Base64.DecodeEncode(id);
    var ts := Tokenize(m, '$');
    assert ts == NonEmpty(fs) && ts[0] == REGIST_REQ;
    RegistOnlyWithFive(idText, db, ts);
    assert fs[4] != "" && fs[0] != "";
    assert "" in fs <==> fs[1] == "" || fs[2] == "" || fs[3] == "";
  }

  lemma RegistOnlyWithFive(idText: seq<octet> -> string, db: Accounts, ts: seq<string>)
    ensures Regist(idText, db, ts).1 == REGIST_RES + "$" + REGIST_SUCCESS
      <==> |ts| >= 5 && Base64.Decode(ts[1]).Some? && Base64.Decode(ts[1]).value in db
    ensures |ts| < 5 ==> Regist(idText, db, ts).0 == db
  {
    hide Base64.Decode;
    assert |REGIST_RES + "$" + REGIST_SUCCESS| == 15;
  }

  // ---- the way back ----

  // The three slices taken from the hex text of E(puk) || HMAC || salt.
  lemma BlobSlices(encPuk: seq<octet>, hmac: seq<octet>, salt: seq<octet>)
    requires |hmac| == 32 && |salt| == 32
    ensures var hex := Text(encPuk + hmac + salt);
      && ParseHex(Substr(hex, 0, |hex| - 128)) == encPuk
      && ParseHex(Substr(hex, |hex| - 64, 64)) == salt
  {
    hide Bytes, Text;
    var blob := encPuk + hmac + salt;
    TextSlice(blob, 0, |encPuk|);
    TextSlice(blob, |encPuk| + 32, |blob|);
    assert blob[0..|encPuk|] == encPuk && blob[|encPuk| + 32..|blob|] == salt;
    BytesOfText(encPuk);
    BytesOfText(salt);
  }

  lemma ReplySplits(idText: seq<octet> -> string, db: Accounts, id: seq<octet>, prk: string, puk: string)
    requires id in db && db[id] == Account(Some(prk), Some(puk)) && '$' !in prk && '$' !in puk && id != []
    ensures Split(Handled(idText, db, GenerateRestoreWalletMsg(id)).1, '$') == [RESTORE_RES, RESTORE_SUCCESS, prk, puk]
  {
    hide Base64.Encode, Base64.Decode, Split;
    var req := GenerateRestoreWalletMsg(id);
    Base64.NoSeparators(id);
    Base64.DecodeEncode(id);
    SplitField(RESTORE_REQ, '$', Base64.Encode(id));
    SplitField(Base64.Encode(id), '$', "");
    assert NonEmpty([RESTORE_REQ, Base64.Encode(id)]) == [RESTORE_REQ, Base64.Encode(id)] by {
      NonEmptyAll([RESTORE_REQ, Base64.Encode(id)]);
    }
    SplitField(RESTORE_RES, '$', RESTORE_SUCCESS + "$" + (prk + "$" + puk));
    SplitField(RESTORE_SUCCESS, '$', prk + "$" + puk);
    SplitField(prk, '$', puk);
    SplitField(puk, '$', "");
  }

  // The reply about a stored wallet converts to its E(prk), E(puk) and salt, whatever their length.
  lemma ReplyConverts(idText: seq<octet> -> string, db: Accounts, id: seq<octet>,
                      hmac: seq<octet>, encPrk: seq<octet>, encPuk: seq<octet>, salt: seq<octet>)
    requires |hmac| == 32 && |salt| == 32
    requires id != [] && id in db && db[id] == Stored(hmac, encPrk, encPuk, salt)
    ensures ConvertRestoreDataFormat(Handled(idText, db, GenerateRestoreWalletMsg(id)).1)
      == Some(Body(encPrk, encPuk, salt))
  {
    hide Base64.Encode, Base64.Decode, Split, Handled, Substr, ParseHex, Text;
    var blob := encPuk + hmac + salt;
    Base64.NoSeparators(encPrk);
    Base64.NoSeparators(blob);
    ReplySplits(idText, db, id, Base64.Encode(encPrk), Base64.Encode(blob));
    Base64.DecodeEncode(blob);
    BlobSlices(encPuk, hmac, salt);
  }

  /**
   The whole way: a printed restore message that the server accepts (db before, db' after, and any
   later state that kept the account) comes back with exactly its E(prk), E(puk) and salt.
   */
  lemma RestoreRoundTrip(idText: seq<octet> -> string, db: Accounts, db': Accounts, later: Accounts, id: seq<octet>,
                         psw64: string, hmac: seq<octet>, encPrk: seq<octet>, encPuk: seq<octet>, salt: seq<octet>,
                         m: string)
    requires '$' !in psw64 && |hmac| == 32 && |salt| == 32
    requires Some(m) == GenerateWalletRegistMsg(id, psw64, RestoreData(hmac, encPrk, encPuk, salt))
    requires Handled(idText, db, m) == (db', REGIST_RES + "$" + REGIST_SUCCESS)
    requires id in later && id in db' && later[id] == db'[id]
    ensures ConvertRestoreDataFormat(Handled(idText, later, GenerateRestoreWalletMsg(id)).1)
      == Some(Body(encPrk, encPuk, salt))
  {
    hide Handled, GenerateWalletRegistMsg, RestoreData, GenerateRestoreWalletMsg, ConvertRestoreDataFormat, Stored,
         Body;
    RegistrationSucceedsIff(idText, db, id, psw64, hmac, encPrk, encPuk, salt, m);
    ReplyConverts(idText, later, id, hmac, encPrk, encPuk, salt);
  }

  function First65(blob: seq<octet>): seq<octet> { if |blob| < 65 then blob else blob[..65] }

  // verifyPsw slices at fixed places, made for a public key of 65 bytes. In general it accepts exactly
  // if E(puk) || HMAC || salt has at least 97 bytes and the HMAC of the first 65 is what stands in the
  // 32 bytes after them.
  lemma VerifyPswIs(hmacOf: (seq<octet>, string) -> seq<octet>, idText: seq<octet> -> string, db: Accounts,
                    id: seq<octet>, psw: string, hmac: seq<octet>, encPrk: seq<octet>, encPuk: seq<octet>,
                    salt: seq<octet>)
    requires id != [] && id in db && db[id] == Stored(hmac, encPrk, encPuk, salt)
    requires |hmacOf(First65(encPuk + hmac + salt), psw)| == 32
    ensures var blob := encPuk + hmac + salt;
      VerifyPsw(hmacOf, psw, Handled(idText, db, GenerateRestoreWalletMsg(id)).1)
        == Some(|blob| >= 97 && hmacOf(First65(blob), psw) == blob[65..97])
  {
    hide Base64.Encode, Base64.Decode, Split, Handled, Text, Bytes, Substr, StartsWith, First65;
    var blob := encPuk + hmac + salt;
    Base64.NoSeparators(encPrk);
    Base64.NoSeparators(blob);
    ReplySplits(idText, db, id, Base64.Encode(encPrk), Base64.Encode(blob));
    Base64.DecodeEncode(blob);
    FirstSlice(blob);
    SecondSlice(blob, hmacOf(First65(blob), psw));
  }

  lemma FirstSlice(blob: seq<octet>)
    ensures ParseHex(Substr(Text(blob), 0, 130)) == First65(blob)
  {
    hide Text, Bytes;
    TextSlice(blob, 0, |First65(blob)|);
    BytesOfText(First65(blob));
    assert blob[0..|First65(blob)|] == First65(blob);
  }

  // A blob too short for the second slice to hold a whole HMAC is refused.
  lemma SecondSlice(blob: seq<octet>, h: seq<octet>)
    requires |h| == 32
    ensures StartsWith(Substr(Text(blob), 130, 64), Text(h)) <==> |blob| >= 97 && h == blob[65..97]
  {
    hide Text, Bytes;
    if |blob| >= 97 {
      TextSlice(blob, 65, 97);
      SameText(h, blob[65..97]);
    }
  }

  lemma SameText(a: seq<octet>, b: seq<octet>)
    requires |a| == |b|
    ensures StartsWith(Text(b), Text(a)) <==> a == b
  {
    hide Text, Bytes;
    BytesOfText(a);
    BytesOfText(b);
    assert Text(b)[..|Text(a)|] == Text(b);
  }

  // With 65 bytes these are E(puk) and the HMAC stored.
  lemma VerifyPswChecksHmac(hmacOf: (seq<octet>, string) -> seq<octet>, idText: seq<octet> -> string, db: Accounts,
                            id: seq<octet>, psw: string, hmac: seq<octet>, encPrk: seq<octet>, encPuk: seq<octet>,
                            salt: seq<octet>)
    requires id != [] && id in db && db[id] == Stored(hmac, encPrk, encPuk, salt)
    requires |encPuk| == 65 && |hmac| == 32 && |hmacOf(encPuk, psw)| == 32
    ensures VerifyPsw(hmacOf, psw, Handled(idText, db, GenerateRestoreWalletMsg(id)).1)
      == Some(hmacOf(encPuk, psw) == hmac)
  {
    hide VerifyPsw, Handled, GenerateRestoreWalletMsg, Stored;
    var blob := encPuk + hmac + salt;
    assert blob[..65] == encPuk && blob[65..97] == hmac;
    assert First65(blob) == encPuk;
    VerifyPswIs(hmacOf, idText, db, id, psw, hmac, encPrk, encPuk, salt);
  }
}
