// What client and server agree on, and a whole registration and login over the authentication file.
module LoginLaws {
  import opened Wrappers
  import opened Hex
  import opened Tokens
  import opened AuthFiles
  import opened AuthFileLaws
  import opened Logins
  import Base64

  // ---- the requests as lists of fields ----

  lemma {:induction false} JoinJoin(fs: seq<string>, gs: seq<string>)
    requires fs != [] && gs != []
    ensures Join(fs + gs, '$') == Join(fs, '$') + "$" + Join(gs, '$')
  {
    if |fs| == 1 {
      assert (fs + gs)[1..] == gs;
    } else {
      assert (fs + gs)[1..] == fs[1..] + gs;
      JoinJoin(fs[1..], gs);
      assert fs[0] + "$" + (Join(fs[1..], '$') + "$" + Join(gs, '$'))
        == (fs[0] + "$" + Join(fs[1..], '$')) + "$" + Join(gs, '$');
    }
  }

  lemma JoinOne(f: string)
    ensures Join([f], '$') == f
  {
  }

  // The three fields of an id and a password.
  function Credentials(lib: Library, id: string, psw: string): seq<string>
    requires Sound(lib)
  {
    [Base64.Encode(lib.utf8(id)), Base64.Encode(PswHash(lib, id, psw)), Base64.Encode(IdHmac(lib, id, psw))]
  }

  lemma MergeIsJoin(lib: Library, id: string, psw: string)
    requires Sound(lib)
    ensures MergeMsg(lib, id, psw) == Join(Credentials(lib, id, psw), '$')
    ensures Free(Credentials(lib, id, psw), '$')
    ensures "" in Credentials(lib, id, psw) <==> id == ""
    ensures |Credentials(lib, id, psw)| == 3 && (Credentials(lib, id, psw)[0] == "" <==> id == "")
    ensures Credentials(lib, id, psw)[1] != "" && Credentials(lib, id, psw)[2] != ""
  {
    hide Base64.Encode, PswHash, Join;
    var c := Credentials(lib, id, psw);
    Base64.NoSeparators(lib.utf8(id));
    Base64.NoSeparators(PswHash(lib, id, psw));
    Base64.NoSeparators(IdHmac(lib, id, psw));
    HashIsThere(lib, id, psw);
    JoinOne(c[2]);
    JoinJoin([c[1]], [c[2]]);
    JoinOne(c[1]);
    JoinJoin([c[0]], [c[1], c[2]]);
    JoinOne(c[0]);
    assert [c[1]] + [c[2]] == [c[1], c[2]] && [c[0]] + [c[1], c[2]] == c;
  }

  lemma HashIsThere(lib: Library, id: string, psw: string)
    requires Sound(lib)
    ensures |PswHash(lib, id, psw)| == 32 && |IdHmac(lib, id, psw)| == 32
  {
    hide Bytes, Text;
  }

  // ---- the authentication text ----

  // The same over bytes.
  function Authenticator(lib: Library, salt: bytes, hash: bytes, hmac: bytes): bytes
    requires salt != []
  {
    if salt[0] % 2 == 0 then lib.strongHmac(salt + hash, hmac) else lib.strongHmac(salt + hmac, hash)
  }

  function Secret(lib: Library, salt: bytes, id: string, psw: string): string
    requires Sound(lib) && salt != []
  {
    Base64.Encode(Authenticator(lib, salt, PswHash(lib, id, psw), IdHmac(lib, id, psw)))
  }

  lemma AuthInfoIs(lib: Library, salt: bytes, id: string, psw: string)
    requires Sound(lib) && salt != []
    ensures AuthInfo(lib, Base64.Encode(salt), Credentials(lib, id, psw)[1], Credentials(lib, id, psw)[2])
      == Some(Secret(lib, salt, id, psw))
  {
    hide Base64.Encode, Base64.Decode, PswHash, IdHmac;
    Base64.DecodeEncode(salt);
    Base64.DecodeEncode(PswHash(lib, id, psw));
    Base64.DecodeEncode(IdHmac(lib, id, psw));
  }

  // ---- every request is read as it was meant, exactly if the id is not empty ----

  // What Tokenize makes of a header and credentials and more fields.
  lemma RequestTokens(header: string, lib: Library, id: string, psw: string, more: seq<string>)
    requires Sound(lib) && header != "" && '$' !in header && Free(more, '$') && "" !in more
    ensures var fs := [header] + Credentials(lib, id, psw) + more;
      && (id != "" ==> Tokenize(Join(fs, '$'), '$') == fs)
      && (id == "" ==> Tokenize(Join(fs, '$'), '$') == [header] + Credentials(lib, id, psw)[1..] + more)
  {
    hide Base64.Encode, PswHash, IdHmac, Join, Split, NonEmpty, Credentials;
    var fs := [header] + Credentials(lib, id, psw) + more;
    MergeIsJoin(lib, id, psw);
    assert Free(fs, '$');
    TokenizeJoin(fs, '$');
    NonEmptyAll(fs);
    if id == "" {
      DropSecond(fs);
      assert [fs[0]] + fs[2..] == [header] + Credentials(lib, id, psw)[1..] + more;
    }
  }

  lemma DropSecond(fs: seq<string>)
    requires |fs| >= 2 && fs[1] == "" && fs[0] != "" && "" !in fs[2..]
    ensures NonEmpty(fs) == [fs[0]] + fs[2..]
  {
    var rest := fs[1..];
    assert rest[1..] == fs[2..];
    NonEmptyAll(fs[2..]);
    assert [] + NonEmpty(fs[2..]) == fs[2..];
    assert NonEmpty(rest) == fs[2..];
  }

  lemma HeadersStay()
    ensures Upper(REG_REQ) == REG_REQ && Upper(LOGIN_REQ) == LOGIN_REQ && Upper(CHANGE_REQ) == CHANGE_REQ
    ensures Upper(START_REQ) == START_REQ && Upper(START_RES) == START_RES && Upper(LOGIN_RES) == LOGIN_RES
    ensures Upper(MANAGER_REG_REQ) == MANAGER_REG_REQ && Upper(MANAGER_LOGIN_REQ) == MANAGER_LOGIN_REQ
    ensures Upper(ID_EXIST) == ID_EXIST && Upper(UNREGIST_REQ) == UNREGIST_REQ
  {
  }

  // A request about an id alone.
  lemma IdIsRead(lib: Library, id: string, serverNonce: Option<string>, salt: bytes, nonce: bytes)
    requires Sound(lib)
    ensures ServerParse(lib, IdExistRequest(lib, id), serverNonce, salt, nonce)
      == if id == "" then None else Some(Some(id))
    ensures ServerParse(lib, UnRegistRequest(lib, id), serverNonce, salt, nonce)
      == if id == "" then None else Some(Some(id))
  {
    hide Base64.Encode, Base64.Decode, Join, Split, NonEmpty, Upper, AuthInfo;
    HeadersStay();
    Base64.NoSeparators(lib.utf8(id));
    Base64.DecodeEncode(lib.utf8(id));
    TwoFields(ID_EXIST, Base64.Encode(lib.utf8(id)));
    TwoFields(UNREGIST_REQ, Base64.Encode(lib.utf8(id)));
  }

  lemma TwoFields(a: string, b: string)
    requires a != "" && '$' !in a && '$' !in b
    ensures Tokenize(a + "$" + b, '$') == if b == "" then [a] else [a, b]
  {
    hide Split;
    SplitField(a, '$', b);
    SplitField(b, '$', "");
    assert [a] + [b] == [a, b] && [a, b][1..] == [b];
    if b == "" {
      assert NonEmpty([b]) == [] + NonEmpty([b][1..]);
      assert NonEmpty([a, b]) == [a] + NonEmpty([b]);
    } else {
      NonEmptyAll([a, b]);
    }
  }

  lemma RegistrationIsRead(lib: Library, id: string, psw: string, serverNonce: Option<string>, salt: bytes,
                           nonce: bytes)
    requires Sound(lib) && salt != []
    ensures ServerParse(lib, RegistRequest(lib, None, id, psw), serverNonce, salt, nonce) ==
      if id == "" then None
      else Some(Some(Base64.Encode(lib.utf8(id)) + "$" + (Base64.Encode(salt) + "$" + Secret(lib, salt, id, psw))))
  {
    hide Base64.Encode, Base64.Decode, PswHash, IdHmac, Join, Split, NonEmpty, Tokenize, Upper, AuthInfo, Secret,
         MergeMsg;
    HeadersStay();
    MergeIsJoin(lib, id, psw);
    var c := Credentials(lib, id, psw);
    JoinOne(REG_REQ);
    JoinJoin([REG_REQ], c);
    RequestTokens(REG_REQ, lib, id, psw, []);
    assert [REG_REQ] + c + [] == [REG_REQ] + c;
    AuthInfoIs(lib, salt, id, psw);
  }

  // The same of a manager, whose level comes first: read exactly if neither level nor id is empty.
  lemma ManagerRegistrationIsRead(lib: Library, level: string, id: string, psw: string, serverNonce: Option<string>,
                                  salt: bytes, nonce: bytes)
    requires Sound(lib) && salt != [] && '$' !in level
    ensures ServerParse(lib, RegistRequest(lib, Some(level), id, psw), serverNonce, salt, nonce) ==
      if id == "" || level == "" then None
      else Some(Some(level + "$"
        + (Base64.Encode(lib.utf8(id)) + "$" + (Base64.Encode(salt) + "$" + Secret(lib, salt, id, psw)))))
  {
    hide Base64.Encode, Base64.Decode, PswHash, IdHmac, Join, Split, NonEmpty, Tokenize, Upper, AuthInfo, Secret,
         MergeMsg;
    HeadersStay();
    MergeIsJoin(lib, id, psw);
    var c := Credentials(lib, id, psw);
    var fs := [MANAGER_REG_REQ, level] + c;
    JoinOne(level);
    JoinJoin([level], c);
    JoinOne(MANAGER_REG_REQ);
    JoinJoin([MANAGER_REG_REQ], [level] + c);
    assert [MANAGER_REG_REQ] + ([level] + c) == fs;
    FieldsRead(fs);
    assert fs[1] == level && fs[2] == c[0] && fs[3] == c[1] && fs[4] == c[2];
    assert "" in fs <==> level == "" || c[0] == "";
    AuthInfoIs(lib, salt, id, psw);
  }

  // Fields behind a header: the header comes first, and a token is missing exactly if a field is empty.
  lemma FieldsRead(fs: seq<string>)
    requires fs != [] && fs[0] != "" && Free(fs, '$')
    ensures var ts := Tokenize(Join(fs, '$'), '$');
      && ts != [] && ts[0] == fs[0] && (if "" in fs then |ts| < |fs| else ts == fs)
  {
    hide Split, Join;
    TokenizeJoin(fs, '$');
    NonEmptyAll(fs);
  }

  // The nonce decides: a login is passed on exactly with the server's nonce.
  lemma LoginIsRead(lib: Library, id: string, psw: string, nonceText: string, isManager: bool, serverNonce: string,
                    salt: bytes, nonce: bytes)
    requires Sound(lib) && nonceText != "" && '$' !in nonceText
    ensures ServerParse(lib, LogInRequest(lib, id, psw, nonceText, isManager), Some(serverNonce), salt, nonce) ==
      if id == "" then None
      else if nonceText != serverNonce then Some(Some(NONCE_BAD + "$" + "0000$0000$0000"))
      else Some(Some(NONCE_OK + "$" + MergeMsg(lib, id, psw)))
  {
    hide Base64.Encode, Base64.Decode, PswHash, IdHmac, Join, Split, NonEmpty, Tokenize, Upper, AuthInfo;
    HeadersStay();
    MergeIsJoin(lib, id, psw);
    var c := Credentials(lib, id, psw);
    var header := if isManager then MANAGER_LOGIN_REQ else LOGIN_REQ;
    JoinOne(header);
    JoinOne(nonceText);
    JoinJoin([header], c);
    JoinJoin([header] + c, [nonceText]);
    RequestTokens(header, lib, id, psw, [nonceText]);
  }

  lemma ChangeIsRead(lib: Library, id: string, psw: string, newPsw: string, serverNonce: Option<string>, salt: bytes,
                     nonce: bytes)
    requires Sound(lib)
    ensures var c := Credentials(lib, id, newPsw);
      ServerParse(lib, ChangePswRequest(lib, id, psw, newPsw), serverNonce, salt, nonce) ==
      if id == "" then None else Some(Some(MergeMsg(lib, id, psw) + "$" + (c[1] + "$" + c[2])))
  {
    hide Base64.Encode, Base64.Decode, PswHash, IdHmac, Join, Split, NonEmpty, Tokenize, Upper, IndexOf, AuthInfo;
    HeadersStay();
    MergeIsJoin(lib, id, psw);
    MergeIsJoin(lib, id, newPsw);
    var c, d := Credentials(lib, id, psw), Credentials(lib, id, newPsw);
    var m := MergeMsg(lib, id, newPsw);
    assert m[..|d[0]|] == d[0] && m[|d[0]|] == '$' && m[|d[0]| + 1..] == d[1] + "$" + d[2];
    FirstIndex(m, '$', |d[0]|);
    JoinOne(d[1]);
    JoinOne(d[2]);
    JoinJoin([d[1]], [d[2]]);
    assert [d[1]] + [d[2]] == [d[1], d[2]];
    JoinOne(CHANGE_REQ);
    JoinJoin([CHANGE_REQ], c);
    JoinJoin([CHANGE_REQ] + c, [d[1], d[2]]);
    RequestTokens(CHANGE_REQ, lib, id, psw, [d[1], d[2]]);
    assert c[0] + "$" + (c[1] + "$" + (c[2] + "$" + (d[1] + "$" + d[2])))
      == (c[0] + "$" + (c[1] + "$" + c[2])) + "$" + (d[1] + "$" + d[2]);
  }

  // ---- a whole registration and a whole login ----

  const LOGGED_IN := "0x6030$0x6040"

  // The record the server stores of a registration request.
  function Registered(lib: Library, id: string, psw: string, salt: bytes, modified: string): Option<Record>
    requires Sound(lib)
  {
    match ServerParse(lib, RegistRequest(lib, None, id, psw), None, salt, [])
    case Some(Some(result)) =>
      var ts := Tokenize(result, '$');
      if |ts| < 3 || Base64.Decode(ts[0]).None? then None
      else Some(Record(lib.text(Base64.Decode(ts[0]).value), ts[1], ts[2], "0", modified))
    case _ => None
  }

  // Whether the store f holds a record that the two digests of a login match.
  predicate Authentic(lib: Library, f: string, id: string, hash64: string, hmac64: string)
  {
    match Find(Lines(f), id)
    case Hit(r) =>
      var ts := Tokenize(r.salt + "$" + r.psw, '$');
      |ts| >= 2 && AuthInfo(lib, ts[0], hash64, hmac64) == Some(ts[1])
    case _ => false
  }

  // From the start request to the reply the client reads; None when the server gives up on the way.
  function Session(lib: Library, f: string, id: string, psw: string, nonce: bytes): Option<string>
    requires Sound(lib)
  {
    match ServerParse(lib, START_REQ, None, [], nonce)
    case Some(Some(serverNonce)) =>
      var received := ClientParse(START_RES + "$" + serverNonce);
      (match ServerParse(lib, LogInRequest(lib, id, psw, received, false), Some(serverNonce), [], nonce)
       case Some(Some(result)) =>
         var ts := Tokenize(result, '$');
         if |ts| < 4 || ts[0] == NONCE_BAD || Base64.Decode(ts[1]).None? then None
         else if Authentic(lib, f, lib.text(Base64.Decode(ts[1]).value), ts[2], ts[3])
         then Some(ClientParse(LOGIN_RES + "$" + (NONCE_OK + "$" + "0x6040")))
         else None
       case _ => None)
    case _ => None
  }

  lemma Tokens2(a: string, b: string)
    requires a != "" && b != "" && '$' !in a && '$' !in b
    ensures Tokenize(a + "$" + b, '$') == [a, b]
  {
    hide Split, NonEmpty;
    SplitField(a, '$', b);
    SplitField(b, '$', "");
    assert [a] + [b] == [a, b];
    NonEmptyAll([a, b]);
  }

  lemma Tokens3(a: string, b: string, c: string)
    requires a != "" && b != "" && c != "" && '$' !in a && '$' !in b && '$' !in c
    ensures Tokenize(a + "$" + (b + "$" + c), '$') == [a, b, c]
  {
    hide Split, NonEmpty;
    SplitField(a, '$', b + "$" + c);
    SplitField(b, '$', c);
    SplitField(c, '$', "");
    assert [a] + ([b] + [c]) == [a, b, c];
    NonEmptyAll([a, b, c]);
  }

  lemma RegisteredIs(lib: Library, id: string, psw: string, salt: bytes, modified: string)
    requires Sound(lib) && salt != []
    ensures Registered(lib, id, psw, salt, modified) ==
      if id == "" then None else Some(Record(id, Base64.Encode(salt), Secret(lib, salt, id, psw), "0", modified))
  {
    hide Base64.Encode, Base64.Decode, ServerParse, Split, NonEmpty, Secret, RegistRequest;
    RegistrationIsRead(lib, id, psw, None, salt, []);
    if id != "" {
      var a, b, c := Base64.Encode(lib.utf8(id)), Base64.Encode(salt), Secret(lib, salt, id, psw);
      SecretIsText(lib, salt, id, psw);
      Base64.NoSeparators(lib.utf8(id));
      Base64.NoSeparators(salt);
      Tokens3(a, b, c);
      Base64.DecodeEncode(lib.utf8(id));
    }
  }

  lemma SecretIsText(lib: Library, salt: bytes, id: string, psw: string)
    requires Sound(lib) && salt != []
    ensures var s := Secret(lib, salt, id, psw); s != "" && '$' !in s && '\n' !in s && '\r' !in s
  {
    hide Base64.Encode, PswHash, IdHmac;
    Base64.NoSeparators(Authenticator(lib, salt, PswHash(lib, id, psw), IdHmac(lib, id, psw)));
  }

  // A session ends in a login exactly if the id is not empty and the store knows the digests.
  lemma SessionIs(lib: Library, f: string, id: string, psw: string, nonce: bytes)
    requires Sound(lib) && nonce != []
    ensures Session(lib, f, id, psw, nonce) ==
      if id != "" && Authentic(lib, f, id, Credentials(lib, id, psw)[1], Credentials(lib, id, psw)[2])
      then Some(LOGGED_IN) else None
  {
    hide Base64.Encode, Base64.Decode, Split, NonEmpty, ClientParse, Authentic, PswHash, IdHmac, Join, Upper,
         LogInRequest;
    var n := Base64.Encode(nonce);
    Base64.NoSeparators(nonce);
    StartIsRead(lib, nonce);
    RepliesAreRead(n);
    LoginIsRead(lib, id, psw, n, false, n, [], nonce);
    if id != "" {
      var c := Credentials(lib, id, psw);
      MergeIsJoin(lib, id, psw);
      JoinOne(NONCE_OK);
      JoinJoin([NONCE_OK], c);
      assert c[0] != "";
      NonEmptyAll([NONCE_OK] + c);
      TokenizeJoin([NONCE_OK] + c, '$');
      Base64.DecodeEncode(lib.utf8(id));
    }
  }

  lemma StartIsRead(lib: Library, nonce: bytes)
    ensures ServerParse(lib, START_REQ, None, [], nonce) == Some(Some(Base64.Encode(nonce)))
  {
    hide Base64.Encode, Base64.Decode, AuthInfo, Upper, Split;
    HeadersStay();
    SplitField(START_REQ, '$', "");
    assert NonEmpty([START_REQ]) == [START_REQ] by { NonEmptyAll([START_REQ]); }
  }

  lemma RepliesAreRead(n: string)
    ensures ClientParse(START_RES + "$" + n) == n
    ensures ClientParse(LOGIN_RES + "$" + (NONCE_OK + "$" + "0x6040")) == LOGGED_IN
  {
    hide Upper, ClientParse;
    HeadersStay();
    ClientParseIs(START_RES, n);
    ClientParseIs(LOGIN_RES, NONCE_OK + "$" + "0x6040");
    assert StartsWith(START_RES, REPLIES[3]) && StartsWith(LOGIN_RES, REPLIES[4]);
  }

  lemma {:induction false} FirstBehind(rs: seq<Record>, r: Record, more: seq<Record>)
    requires !Member(rs, r.id)
    ensures First(rs + [r] + more, r.id) == Hit(r)
  {
    if rs == [] {
      assert (rs + [r] + more)[0] == r;
    } else {
      assert (rs + [r] + more)[1..] == rs[1..] + [r] + more;
      MemberFront(rs, r.id);
      FirstBehind(rs[1..], r, more);
    }
  }

  /**
   Registration and login over the file: an id registered under one password, in a store of records
   that did not know it, can log in after any further registrations, with exactly the passwords that
   give the same authentication text, its own among them.
   */
  lemma LoginAfterRegistration(lib: Library, f: string, rs: seq<Record>, id: string, psw: string, salt: bytes,
                               modified: string, more: seq<Record>, psw': string, nonce: bytes)
    requires Sound(lib) && salt != [] && nonce != [] && id != ""
    requires Represents(f, rs) && AllGood(rs) && !LeavesBlank(f) && !Member(rs, id)
    requires Registered(lib, id, psw, salt, modified).Some?
    requires AllGood([Registered(lib, id, psw, salt, modified).value] + more)
    ensures var r := Registered(lib, id, psw, salt, modified).value;
      (Session(lib, Appended(f, [r] + more), id, psw', nonce) == Some(LOGGED_IN))
      == (Secret(lib, salt, id, psw') == Secret(lib, salt, id, psw))
  {
    hide Registered, Represents, Session, Appended, Secret, AuthInfo, Credentials, Find, Member, Lines, First, Split,
         NonEmpty, Base64.Encode, Base64.Decode, Good;
    var r := Registered(lib, id, psw, salt, modified).value;
    RegisteredIs(lib, id, psw, salt, modified);
    AppendsRefine(f, rs, [r] + more);
    var g, all := Appended(f, [r] + more), rs + ([r] + more);
    assert all == rs + [r] + more;
    GoodParts(rs, [r] + more);
    SearchesAnswer(g, all, id);
    FirstBehind(rs, r, more);
    assert Find(Lines(g), id) == Hit(r);
    SessionIs(lib, g, id, psw', nonce);
    SecretIsText(lib, salt, id, psw);
    Base64.NoSeparators(salt);
    Tokens2(r.salt, r.psw);
    AuthInfoIs(lib, salt, id, psw');
  }

  lemma GoodParts(rs: seq<Record>, more: seq<Record>)
    requires AllGood(rs) && AllGood(more)
    ensures AllGood(rs + more)
  {
    hide Good;
  }

  // ---- passwords ----

  // The password is encrypted under the first half of the hash of the id and hashed; the detour over hex
  // text leaves no trace.
  function PswCipher(lib: Library, id: string, psw: string): bytes
    requires Sound(lib)
  {
    lib.aes(psw, lib.sha256(lib.utf8(id))[..16], [0, 255, 0, 0, 255, 0, 255, 0, 0, 0, 255, 255, 0, 0, 0, 255])
  }

  lemma PswHashIs(lib: Library, id: string, psw: string)
    requires Sound(lib)
    ensures PswHash(lib, id, psw) == lib.sha256(PswCipher(lib, id, psw))
  {
    hide Bytes, Text;
    var h := lib.sha256(lib.utf8(id));
    TextSlice(h, 0, 16);
    BytesOfText(h[..16]);
    IvBytes();
    assert h[0..16] == h[..16];
  }

  // What is hashed last at registration and login: the salt decides which digest is text and which is key.
  function Digested(lib: Library, salt: bytes, id: string, psw: string): (bytes, bytes)
    requires Sound(lib) && salt != []
  {
    var hash := lib.sha256(PswCipher(lib, id, psw));
    var hmac := lib.hmacSha256(lib.utf8(id), hash);
    if salt[0] % 2 == 0 then (salt + hash, hmac) else (salt + hmac, hash)
  }

  // Neither the cipher nor the two hashes collide on the two passwords.
  ghost predicate PasswordsApart(lib: Library, salt: bytes, id: string, psw: string, psw': string)
    requires Sound(lib) && salt != []
  {
    var (x, k), (y, l) := Digested(lib, salt, id, psw), Digested(lib, salt, id, psw');
    && (lib.strongHmac(x, k) == lib.strongHmac(y, l) ==> x == y && k == l)
    && (lib.sha256(PswCipher(lib, id, psw)) == lib.sha256(PswCipher(lib, id, psw'))
        ==> PswCipher(lib, id, psw) == PswCipher(lib, id, psw'))
    && (PswCipher(lib, id, psw) == PswCipher(lib, id, psw') ==> psw == psw')
  }

  lemma SecretsApart(lib: Library, salt: bytes, id: string, psw: string, psw': string)
    requires Sound(lib) && salt != [] && PasswordsApart(lib, salt, id, psw, psw')
    ensures Secret(lib, salt, id, psw) == Secret(lib, salt, id, psw') <==> psw == psw'
  {
    hide PswHash, PswCipher, Base64.Encode, Base64.Decode;
    PswHashIs(lib, id, psw);
    PswHashIs(lib, id, psw');
    Base64.DecodeEncode(Authenticator(lib, salt, PswHash(lib, id, psw), IdHmac(lib, id, psw)));
    Base64.DecodeEncode(Authenticator(lib, salt, PswHash(lib, id, psw'), IdHmac(lib, id, psw')));
    var hash, hash' := PswHash(lib, id, psw), PswHash(lib, id, psw');
    assert (salt + hash)[|salt|..] == hash && (salt + hash')[|salt|..] == hash';
  }

  // So an id registered under one password logs in with that password and no other.
  lemma LoginIffRegistered(lib: Library, f: string, rs: seq<Record>, id: string, psw: string, salt: bytes,
                           modified: string, more: seq<Record>, psw': string, nonce: bytes)
    requires Sound(lib) && salt != [] && nonce != [] && id != ""
    requires Represents(f, rs) && AllGood(rs) && !LeavesBlank(f) && !Member(rs, id)
    requires Registered(lib, id, psw, salt, modified).Some?
    requires AllGood([Registered(lib, id, psw, salt, modified).value] + more)
    requires PasswordsApart(lib, salt, id, psw, psw')
    ensures var r := Registered(lib, id, psw, salt, modified).value;
      Session(lib, Appended(f, [r] + more), id, psw', nonce) == Some(LOGGED_IN) <==> psw == psw'
  {
    hide Registered, Represents, Session, Appended, Secret, Member, Lines, Good, PasswordsApart;
    LoginAfterRegistration(lib, f, rs, id, psw, salt, modified, more, psw', nonce);
    SecretsApart(lib, salt, id, psw, psw');
  }

  lemma IvBytes()
    ensures Bytes(IV) == [0, 255, 0, 0, 255, 0, 255, 0, 0, 0, 255, 255, 0, 0, 0, 255]
  {
    hide Bytes;
    var a, b, c, d := "00FF0000", "FF00FF00", "0000FFFF", "000000FF";
    assert IV == a + (b + (c + d));
    Eight(a); Eight(b); Eight(c); Eight(d);
    BytesAppend(c, d);
    BytesAppend(b, c + d);
    BytesAppend(a, b + (c + d));
    HexPairs();
  }

  lemma Eight(s: string)
    requires |s| == 8
    ensures Bytes(s) == [ByteOf(s[0], s[1]), ByteOf(s[2], s[3]), ByteOf(s[4], s[5]), ByteOf(s[6], s[7])]
  {
    hide ByteOf;
    assert s[2..][2..] == s[4..] && s[4..][2..] == s[6..] && s[6..][2..] == "";
    assert Bytes(s[6..]) == [ByteOf(s[6], s[7])] + Bytes("");
    assert Bytes(s[4..]) == [ByteOf(s[4], s[5])] + Bytes(s[6..]);
    assert Bytes(s[2..]) == [ByteOf(s[2], s[3])] + Bytes(s[4..]);
  }

  lemma HexPairs()
    ensures ByteOf('0', '0') == 0 && ByteOf('F', 'F') == 255
  {
  }
}
