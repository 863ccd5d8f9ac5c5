/**
 Registration and login by id and password: the requests the JavaScript client prints, the server's
 parser, the authentication text made of them, the record kept in the authentication file, and the
 reply read by the client. Hash, HMAC, AES and random bytes are parameters.
 */
module Logins {
  import opened Wrappers
  import opened Hex
  import opened Tokens
  import Base64
  import DateOfBirth

  type bytes = seq<octet>

  datatype Library = Library(
    utf8: string -> bytes,
    text: bytes -> string,
    sha256: bytes -> bytes,
    hmacSha256: (bytes, bytes) -> bytes,
    aes: (string, bytes, bytes) -> bytes,
    strongHmac: (bytes, bytes) -> bytes)

  ghost predicate Sound(lib: Library)
  {
    && (forall s :: lib.text(lib.utf8(s)) == s)
    && (forall s :: lib.utf8(s) == [] <==> s == "")
    && (forall x :: |lib.sha256(x)| == 32)
    && (forall x, k :: |lib.hmacSha256(x, k)| == 32 && lib.strongHmac(x, k) != [])
  }

  const ID_EXIST := "4D4F410001"
  const ID_EXIST_ACK := "4D4F410002"
  const REG_REQ := "4D4F410003"
  const REG_RES := "4D4F410004"
  const MANAGER_REG_REQ := "4D4F410013"
  const MANAGER_REG_RES := "4D4F410014"
  const START_REQ := "4D4F412001"
  const START_RES := "4D4F412002"
  const LOGIN_REQ := "4D4F412003"
  const LOGIN_RES := "4D4F412004"
  const MANAGER_LOGIN_REQ := "4D4F412013"
  const MANAGER_LOGIN_RES := "4D4F412014"
  const CHANGE_REQ := "4D4F413001"
  const CHANGE_RES := "4D4F413002"
  const UNREGIST_REQ := "4D4F413007"
  const UNREGIST_RES := "4D4F413008"
  const IV := "00FF0000FF00FF000000FFFF000000FF"

  const NONCE_OK := "0x6030"
  const NONCE_BAD := "0x6031"

  function Upper(s: string): string
  {
    seq(|s|, i requires 0 <= i < |s| => if 'a' <= s[i] <= 'z' then s[i] - 'a' + 'A' else s[i])
  }

  // ---- the client's requests ----

  // No lower-case letter of ASCII is left, and nothing else is changed.
  lemma UpperAt(s: string, i: nat)
    requires i < |s|
    ensures |Upper(s)| == |s| && !('a' <= Upper(s)[i] <= 'z')
    ensures Upper(s)[i] == s[i] || ('a' <= s[i] <= 'z' && Upper(s)[i] as int == s[i] as int - 32)
  {
  }

  function PswHash(lib: Library, id: string, psw: string): bytes
    requires Sound(lib)
  {
    lib.sha256(lib.aes(psw, Bytes(Text(lib.sha256(lib.utf8(id)))[..|IV|]), Bytes(IV)))
  }

  function IdHmac(lib: Library, id: string, psw: string): bytes
    requires Sound(lib)
  {
    lib.hmacSha256(lib.utf8(id), PswHash(lib, id, psw))
  }

  function MergeMsg(lib: Library, id: string, psw: string): string
    requires Sound(lib)
  {
    Base64.Encode(lib.utf8(id)) + "$"
      + (Base64.Encode(PswHash(lib, id, psw)) + "$" + Base64.Encode(IdHmac(lib, id, psw)))
  }

  function IdExistRequest(lib: Library, id: string): string { ID_EXIST + "$" + Base64.Encode(lib.utf8(id)) }

  function UnRegistRequest(lib: Library, id: string): string { UNREGIST_REQ + "$" + Base64.Encode(lib.utf8(id)) }

  function RegistRequest(lib: Library, managerLevel: Option<string>, id: string, psw: string): string
    requires Sound(lib)
  {
    match managerLevel
    case None => REG_REQ + "$" + MergeMsg(lib, id, psw)
    case Some(level) => MANAGER_REG_REQ + "$" + (level + "$" + MergeMsg(lib, id, psw))
  }

  function LogInRequest(lib: Library, id: string, psw: string, nonce: string, isManager: bool): string
    requires Sound(lib)
  {
    (if isManager then MANAGER_LOGIN_REQ else LOGIN_REQ) + "$" + MergeMsg(lib, id, psw) + "$" + nonce
  }

  function IndexOf(s: string, c: char): (k: int)
    ensures -1 <= k < |s|
    ensures k == -1 <==> c !in s
    ensures k >= 0 ==> s[k] == c && c !in s[..k]
  {
    if s == "" then -1 else if s[0] == c then 0
    else
      var k := IndexOf(s[1..], c);
      assert s == [s[0]] + s[1..];
      assert k >= 0 ==> s[..k + 1] == [s[0]] + s[1..][..k];
      if k == -1 then -1 else k + 1
  }

  function ChangePswRequest(lib: Library, id: string, psw: string, newPsw: string): string
    requires Sound(lib)
  {
    var ciphered := MergeMsg(lib, id, newPsw);
    CHANGE_REQ + "$" + MergeMsg(lib, id, psw) + "$" + ciphered[IndexOf(ciphered, '$') + 1..]
  }

  // ---- the client's parser ----

  const REPLIES := [ID_EXIST_ACK, REG_RES, MANAGER_REG_RES, START_RES, LOGIN_RES, MANAGER_LOGIN_RES, CHANGE_RES,
    UNREGIST_RES]

  predicate CheckHeader(header: string) { exists i | 0 <= i < |REPLIES| :: StartsWith(header, REPLIES[i]) }

  const KNOWN: seq<string> := ["4D4F410002", "4D4F410004", "4D4F410014", "4D4F412002", "4D4F412004", "4D4F412014",
    "4D4F413002", "4D4F413008"]

  // The first ten characters decide.
  lemma KnownHeaders(header: string)
    ensures CheckHeader(header) <==> |header| >= 10 && header[..10] in KNOWN
  {
    assert REPLIES == KNOWN && forall i | 0 <= i < |KNOWN| :: |KNOWN[i]| == 10;
    hide REPLIES, KNOWN;
    if |header| >= 10 && header[..10] in KNOWN {
      var i :| 0 <= i < |KNOWN| && KNOWN[i] == header[..10];
      assert StartsWith(header, REPLIES[i]);
    }
  }

  function ClientParse(message: string): string
  {
    var k := IndexOf(message, '$');
    if k == -1 then "" else if CheckHeader(Upper(message[..k])) then message[k + 1..] else ""
  }

  lemma {:induction false} FirstIndex(s: string, c: char, k: nat)
    requires k < |s| && s[k] == c && c !in s[..k]
    ensures IndexOf(s, c) == k
  {
    if k > 0 {
      assert s[0] == s[..k][0] && s[1..][..k - 1] == s[..k][1..];
      FirstIndex(s[1..], c, k - 1);
    }
  }

  // The body of a reply comes out whole, separators and all; anything else is "".
  lemma ClientParseIs(header: string, body: string)
    requires '$' !in header
    ensures ClientParse(header + "$" + body) == if CheckHeader(Upper(header)) then body else ""
    ensures ClientParse(header) == ""
  {
    hide CheckHeader, Upper;
    var m := header + "$" + body;
    var k := IndexOf(m, '$');
    assert m[|header|] == '$' && m[..|header|] == header;
    assert k == |header| by {
      FirstIndex(m, '$', |header|);
    }
    assert m[..k] == header && m[k + 1..] == body;
  }

  // ---- the server ----

  // What is authenticated: the salt's first byte says which of the two digests is the key. None when a
  // field is not Base64 or the salt is empty.
  function AuthInfo(lib: Library, salt64: string, hash64: string, hmac64: string): Option<string>
  {
    match (Base64.Decode(salt64), Base64.Decode(hash64), Base64.Decode(hmac64))
    case (Some(salt), Some(hash), Some(hmac)) =>
      if salt == [] then None
      else if salt[0] % 2 == 0 then Some(Base64.Encode(lib.strongHmac(salt + hash, hmac)))
      else Some(Base64.Encode(lib.strongHmac(salt + hmac, hash)))
    case _ => None
  }

  lemma SameParity(b: octet)
    ensures DateOfBirth.JavaRem(Signed(b), 2) == 0 <==> b % 2 == 0
  {
  }

  // Both at registration and at login.
  method AuthInfoGen(lib: Library, saltBase64: string, hashPswBase64: string, hmacPswBase64: string)
    returns (r: Option<string>)
    ensures r == AuthInfo(lib, saltBase64, hashPswBase64, hmacPswBase64)
  {
    hide Base64.Decode, Base64.Encode, DateOfBirth.JavaRem, Signed;
    var salt, hashPsw, hmacPsw := Base64.Decode(saltBase64), Base64.Decode(hashPswBase64), Base64.Decode(hmacPswBase64);
    if salt.None? || hashPsw.None? || hmacPsw.None? || |salt.value| == 0 {
      return None;
    }
    // A Java byte is signed, and so is the remainder.
    SameParity(salt.value[0]);
    var connectRule := DateOfBirth.JavaRem(Signed(salt.value[0]), 2);
    if connectRule == 0 {
      r := Some(Base64.Encode(lib.strongHmac(salt.value + hashPsw.value, hmacPsw.value)));
    } else {
      r := Some(Base64.Encode(lib.strongHmac(salt.value + hmacPsw.value, hashPsw.value)));
    }
  }

  // None: an exception; Some(None): null.
  function ServerParse(lib: Library, msg: string, serverNonce: Option<string>, salt: bytes,
                       nonce: bytes): Option<Option<string>>
  {
    var ts := Tokenize(msg, '$');
    if ts == [] then None
    else
      var header := Upper(ts[0]);
      if header == ID_EXIST || header == UNREGIST_REQ then
        if |ts| < 2 || Base64.Decode(ts[1]).None? then None else Some(Some(lib.text(Base64.Decode(ts[1]).value)))
      else if header == REG_REQ then
        if |ts| < 4 then None
        else match AuthInfo(lib, Base64.Encode(salt), ts[2], ts[3])
             case None => None
             case Some(ciphered) => Some(Some(ts[1] + "$" + (Base64.Encode(salt) + "$" + ciphered)))
      else if header == MANAGER_REG_REQ then
        if |ts| < 5 then None
        else match AuthInfo(lib, Base64.Encode(salt), ts[3], ts[4])
             case None => None
             case Some(ciphered) => Some(Some(ts[1] + "$" + (ts[2] + "$" + (Base64.Encode(salt) + "$" + ciphered))))
      else if header == START_REQ then Some(Some(Base64.Encode(nonce)))
      else if header == LOGIN_REQ || header == MANAGER_LOGIN_REQ then
        if |ts| < 5 then None
        else if serverNonce != Some(ts[4]) then Some(Some(NONCE_BAD + "$" + "0000$0000$0000"))
        else Some(Some(NONCE_OK + "$" + (ts[1] + "$" + (ts[2] + "$" + ts[3]))))
      else if header == CHANGE_REQ then
        if |ts| < 6 then None
        else Some(Some(ts[1] + "$" + (ts[2] + "$" + (ts[3] + "$" + (ts[4] + "$" + ts[5])))))
      else Some(None)
  }

  method CoreAuthServerMsgPacketParser(lib: Library, msg: string, serverNonce: Option<string>, salt: bytes,
                                       nonce: bytes)
    returns (r: Option<Option<string>>)
    ensures r == ServerParse(lib, msg, serverNonce, salt, nonce)
  {
    hide Tokenize, Upper, AuthInfo, Base64.Decode, Base64.Encode;
    var st := new StringTokenizer(msg, '$');
    var header := st.NextToken();
    if header.None? {
      return None;
    }
    var h := Upper(header.value);
    if h == ID_EXIST || h == UNREGIST_REQ {
      var id := st.NextToken();
      if id.None? || Base64.Decode(id.value).None? {
        return None;
      }
      r := Some(Some(lib.text(Base64.Decode(id.value).value)));
    } else if h == REG_REQ {
      var id := st.NextToken();
      var hash := st.NextToken();
      var hmac := st.NextToken();
      if hmac.None? {
        return None;
      }
      var saltBase64 := Base64.Encode(salt);
      var ciphered := AuthInfoGen(lib, saltBase64, hash.value, hmac.value);
      if ciphered.None? {
        return None;
      }
      r := Some(Some(id.value + "$" + (saltBase64 + "$" + ciphered.value)));
    } else if h == MANAGER_REG_REQ {
      var level := st.NextToken();
      var id := st.NextToken();
      var hash := st.NextToken();
      var hmac := st.NextToken();
      if hmac.None? {
        return None;
      }
      var saltBase64 := Base64.Encode(salt);
      var ciphered := AuthInfoGen(lib, saltBase64, hash.value, hmac.value);
      if ciphered.None? {
        return None;
      }
      r := Some(Some(level.value + "$" + (id.value + "$" + (saltBase64 + "$" + ciphered.value))));
    } else if h == START_REQ {
      r := Some(Some(Base64.Encode(nonce)));
    } else if h == LOGIN_REQ || h == MANAGER_LOGIN_REQ {
      var id := st.NextToken();
      var hash := st.NextToken();
      var hmac := st.NextToken();
      var received := st.NextToken();
      if received.None? {
        return None;
      }
      if serverNonce != Some(received.value) {
        return Some(Some(NONCE_BAD + "$" + "0000$0000$0000"));
      }
      r := Some(Some(NONCE_OK + "$" + (id.value + "$" + (hash.value + "$" + hmac.value))));
    } else if h == CHANGE_REQ {
      var id := st.NextToken();
      var hash := st.NextToken();
      var hmac := st.NextToken();
      var newHash := st.NextToken();
      var newHmac := st.NextToken();
      if newHmac.None? {
        return None;
      }
      r := Some(Some(id.value + "$" + (hash.value + "$" + (hmac.value + "$" + (newHash.value + "$" + newHmac.value)))));
    } else {
      r := Some(None);
    }
  }
}
