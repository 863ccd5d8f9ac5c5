/**
 The short password hash (14 bytes of an HMAC) and its envelope encrypted under the date of birth,
 as the Java wallet and the JavaScript wallet compute them. The block cipher, the key derivation,
 hash and HMAC are parameters; padding is PKCS#7 (section 6.3 of RFC 5652).
 */
module DateOfBirth {
  import opened Wrappers
  import opened Hex
  import opened JavaInts
  import Base64
  import RestorePipeline

  type bytes = seq<octet>

  // encrypt and decrypt work on whole 16-byte blocks under (key, iv).
  datatype Library = Library(
    encrypt: (bytes, bytes, bytes) -> bytes,
    decrypt: (bytes, bytes, bytes) -> bytes,
    kdf: (bytes, bytes, nat, nat) -> bytes,
    hmac: (bytes, bytes) -> bytes,
    hash: bytes -> bytes)

  predicate BlockInput(k: bytes, iv: bytes, x: bytes) { |k| == 32 && |iv| == 16 && |x| % 16 == 0 }

  ghost predicate Sound(lib: Library)
  {
    && (forall k, iv, x | BlockInput(k, iv, x) :: |lib.encrypt(k, iv, x)| == |x|)
    && (forall k, iv, x | BlockInput(k, iv, x) :: lib.decrypt(k, iv, lib.encrypt(k, iv, x)) == x)
    && (forall p, s, c, n :: |lib.kdf(p, s, c, n)| == n)
  }

  // The digests of the default settings, SHA-256 and HMAC with it.
  ghost predicate Digests32(lib: Library)
  {
    (forall t, k :: |lib.hmac(t, k)| == 32) && (forall x :: |lib.hash(x)| == 32)
  }

  // ---- PKCS#7 ----

  function Pad(d: bytes): (p: bytes)
    ensures |p| == 16 * (|d| / 16 + 1)
  {
    d + seq(16 - |d| % 16, _ => 16 - |d| % 16)
  }

  function Unpad(p: bytes): Option<bytes>
  {
    if p == [] || p[|p| - 1] == 0 || p[|p| - 1] > 16 || p[|p| - 1] > |p|
       || exists i | |p| - p[|p| - 1] <= i < |p| :: p[i] != p[|p| - 1] then None
    else Some(p[..|p| - p[|p| - 1]])
  }

  // What is unpadded is exactly what has 1 to 16 bytes behind it that say how many they are.
  lemma UnpadIff(p: bytes, d: bytes)
    ensures Unpad(p) == Some(d) <==>
      var n := |p| - |d|; 1 <= n <= 16 && p == d + seq(n, _ => n)
  {
    if 1 <= |p| - |d| <= 16 && p == d + seq(|p| - |d|, _ => |p| - |d|) {
      assert p[|p| - 1] == |p| - |d|;
      assert forall i | |d| <= i < |p| :: p[i] == |p| - |d|;
      assert p[..|d|] == d;
    }
    if Unpad(p) == Some(d) {
      assert p == d + p[|d|..];
      assert p[|d|..] == seq(|p| - |d|, _ => |p| - |d|);
    }
  }

  lemma UnpadPad(d: bytes)
    ensures Unpad(Pad(d)) == Some(d)
  {
    var p := Pad(d);
    assert p[|p| - 1] == 16 - |d| % 16;
    assert forall i | |d| <= i < |p| :: p[i] == 16 - |d| % 16;
    assert p[..|d|] == d;
  }

  function EncryptPadded(lib: Library, key: bytes, iv: bytes, d: bytes): bytes { lib.encrypt(key, iv, Pad(d)) }

  function DecryptPadded(lib: Library, key: bytes, iv: bytes, d: bytes): Option<bytes>
  {
    Unpad(lib.decrypt(key, iv, d))
  }

  lemma PaddedOpens(lib: Library, key: bytes, iv: bytes, d: bytes)
    requires Sound(lib) && |key| == 32 && |iv| == 16
    ensures DecryptPadded(lib, key, iv, EncryptPadded(lib, key, iv, d)) == Some(d)
    ensures |EncryptPadded(lib, key, iv, d)| == 16 * (|d| / 16 + 1)
  {
    hide Pad, Unpad;
    UnpadPad(d);
    assert BlockInput(key, iv, Pad(d));
  }

  // ---- the XOR fold ----

  // Java's ^, digit by digit in base 2.
  function XorBits(x: nat, y: nat, n: nat): (r: nat)
    ensures r < Pow2(n)
  {
    if n == 0 then 0 else 2 * XorBits(x / 2, y / 2, n - 1) + (x + y) % 2
  }

  function Xor8(x: octet, y: octet): octet
  {
    assert Pow2(8) == 256;
    XorBits(x, y, 8)
  }

  function BitOf(x: nat, i: nat): nat { if i == 0 then x % 2 else BitOf(x / 2, i - 1) }

  // Numbers below 2^n with the same n bits are equal.
  lemma {:induction false} BitsDetermine(x: nat, y: nat, n: nat)
    requires x < Pow2(n) && y < Pow2(n) && forall i: nat | i < n :: BitOf(x, i) == BitOf(y, i)
    ensures x == y
  {
    if n > 0 {
      forall i: nat | i < n - 1
        ensures BitOf(x / 2, i) == BitOf(y / 2, i)
      {
        assert BitOf(x, i + 1) == BitOf(y, i + 1);
      }
      assert BitOf(x, 0) == BitOf(y, 0);
      BitsDetermine(x / 2, y / 2, n - 1);
    }
  }

  lemma XorHalves(x: nat, y: nat, n: nat)
    requires n > 0
    ensures XorBits(x, y, n) / 2 == XorBits(x / 2, y / 2, n - 1) && XorBits(x, y, n) % 2 == (x + y) % 2
  {
  }

  lemma Parities(x: nat, y: nat)
    ensures (x + y) % 2 == 1 <==> x % 2 != y % 2
  {
  }

  // Bit i of the result is set exactly where the bits of the arguments differ.
  lemma {:induction false} XorBitAt(x: nat, y: nat, n: nat, i: nat)
    requires i < n
    ensures BitOf(XorBits(x, y, n), i) == 1 <==> BitOf(x, i) != BitOf(y, i)
  {
    hide XorBits;
    XorHalves(x, y, n);
    if i > 0 {
      XorBitAt(x / 2, y / 2, n - 1, i - 1);
    } else {
      Parities(x, y);
    }
  }

  // Byte i of the fold differs in just the bits in which the bytes i of the two halves differ.
  lemma FoldBits(h: bytes, i: nat, b: nat)
    requires i < |h| / 2 && b < 8
    ensures BitOf(Fold(h)[i], b) == 1 <==> BitOf(h[i], b) != BitOf(h[|h| / 2 + i], b)
  {
    XorBitAt(h[i], h[|h| / 2 + i], 8, b);
  }

  function FoldFrom(h: bytes, d: nat): (r: bytes)
    requires |h| / 2 > 0 ==> |h| / 2 + d <= |h|
    ensures |r| == |h| / 2
  {
    seq(|h| / 2, i requires 0 <= i < |h| / 2 => Xor8(h[i], h[i + d]))
  }

  function Fold(h: bytes): (r: bytes)
    ensures |r| == |h| / 2
  {
    FoldFrom(h, |h| / 2)
  }

  method FoldJava(h: bytes) returns (r: bytes)
    ensures r == Fold(h)
  {
    hide Xor8;
    var half := new octet[|h| / 2](_ => 0);
    for i := 0 to half.Length
      invariant half[..i] == Fold(h)[..i]
    {
      half[i] := Xor8(h[i], h[i + half.Length]);
      assert half[..i + 1] == half[..i] + [half[i]];
    }
    assert half[..] == half[..half.Length];
    r := half[..];
  }

  // number.toString(16) and the left-padding around it.
  function JsHex(n: octet): string { if n < 16 then [Digit(n)] else [Digit(n / 16), Digit(n % 16)] }

  function DecimalToHexString(n: octet): string { RestorePipeline.Substr("00" + JsHex(n), -2, 2) }

  lemma DecimalToHexStringIs(n: octet)
    ensures DecimalToHexString(n) == ByteText(n)
  {
    hide Digit;
    assert Digit(0) == '0' by { DigitZero(); }
  }

  lemma DigitZero()
    ensures Digit(0) == '0'
  {
  }

  // The loop of the JavaScript wallet, over the hex text of the HMAC.
  method FoldJs(h: string) returns (half: string)
    requires IsHex(h) && |h| % 4 == 0
    ensures half == Text(Fold(Bytes(h)))
  {
    hide Xor8, ByteText, ByteOf, DecimalToHexString, Value, Text, Bytes;
    half := "";
    var i := 0;
    ghost var b := Bytes(h);
    assert Text(Fold(b)[..0]) == "";
    while i < |h| / 2
      invariant 0 <= i <= |h| / 2 && i % 2 == 0
      invariant half == Text(Fold(b)[..i / 2])
    {
      var x := ByteOf(h[i], h[i + 1]);
      var y := ByteOf(h[|h| / 2 + i], h[|h| / 2 + i + 1]);
      BytesAt(h, i / 2);
      BytesAt(h, |h| / 4 + i / 2);
      DecimalToHexStringIs(Xor8(x, y));
      half := half + DecimalToHexString(Xor8(x, y));
      TextSnoc(Fold(b), i / 2);
      i := i + 2;
    }
    assert Fold(b)[..i / 2] == Fold(b);
  }

  lemma {:induction false} BytesAt(s: string, k: nat)
    requires |s| % 2 == 0 && k < |s| / 2
    ensures Bytes(s)[k] == ByteOf(s[2 * k], s[2 * k + 1])
  {
    hide ByteOf;
    if k > 0 {
      BytesAt(s[2..], k - 1);
    }
  }

  // ---- the envelope ----

  function DobKey(lib: Library, id: bytes, dob: bytes): bytes { lib.kdf(dob, id, 10, 48) }

  // E(random || hmacPsw) || folded HMAC of it; psw is the hex text of hmacPsw.
  function Envelope(lib: Library, id: bytes, psw: string, dob: bytes, random: octet): bytes
    requires Sound(lib) && |psw| % 2 == 0
  {
    var dk := DobKey(lib, id, dob);
    var e := EncryptPadded(lib, dk[..32], dk[32..], [random] + Bytes(psw));
    e + Fold(lib.hmac(e, dob))
  }

  // None: hexStringToByteArray runs off the end of an odd text.
  method GetEncryptedHmacPsw(lib: Library, id: bytes, psw: string, dob: bytes, random: octet) returns (r: Option<bytes>)
    requires Sound(lib)
    ensures r == if |psw| % 2 == 0 then Some(Envelope(lib, id, psw, dob, random)) else None
  {
    var hmacPsw := HexStringToByteArray(psw);
    if hmacPsw.None? {
      return None;
    }
    var dk := lib.kdf(dob, id, 10, 48);
    var encrypted := EncryptPadded(lib, dk[..32], dk[32..], [random] + hmacPsw.value);
    var half := FoldJava(lib.hmac(encrypted, dob));
    r := Some(encrypted + half);
  }

  // None when the text is not Base64, or when the HMAC is so short that a distance of 16 leaves it.
  method VerifyDateOfBirth(lib: Library, dob: bytes, encryptedHmacPsw: string) returns (r: Option<bool>)
    ensures r == Verified(lib, dob, encryptedHmacPsw)
  {
    hide Xor8, Base64.Decode;
    var decoded := Base64.Decode(encryptedHmacPsw);
    if decoded.None? {
      return None;
    }
    var d := decoded.value;
    var first, second := d[..|d| / 2], d[|d| / 2..];
    var newHmac := lib.hmac(first, dob);
    var newSecond := new octet[|newHmac| / 2](_ => 0);
    for i := 0 to |newHmac| / 2
      invariant i > 0 ==> i - 1 + 16 < |newHmac|
      invariant |newHmac| / 2 + 16 <= |newHmac| ==> newSecond[..i] == FoldFrom(newHmac, 16)[..i]
    {
      if i + 16 >= |newHmac| {
        return None;
      }
      newSecond[i] := Xor8(newHmac[i], newHmac[i + 16]);
      assert newSecond[..i + 1] == newSecond[..i] + [newSecond[i]];
    }
    assert newSecond[..] == newSecond[..newSecond.Length];
    r := Some(second == newSecond[..]);
  }

  function Verified(lib: Library, dob: bytes, text: string): Option<bool>
  {
    match Base64.Decode(text)
    case None => None
    case Some(d) =>
      var newHmac := lib.hmac(d[..|d| / 2], dob);
      if |newHmac| / 2 > 0 && |newHmac| / 2 + 16 > |newHmac| then None
      else Some(d[|d| / 2..] == FoldFrom(newHmac, 16))
  }

  // Arrays.copyOfRange: zeros behind the end of the array.
  function CopyOfRange(x: bytes, from: nat, to: nat): (r: bytes)
    requires from <= |x| && from <= to
    ensures |r| == to - from
  {
    if to <= |x| then x[from..to] else x[from..] + seq(to - |x|, _ => 0)
  }

  // None when decoding or decryption fails.
  function Decrypted(lib: Library, id: bytes, dob: bytes, text: string): Option<bytes>
    requires Sound(lib)
  {
    var dk := DobKey(lib, id, dob);
    match Base64.Decode(text)
    case None => None
    case Some(d) =>
      match DecryptPadded(lib, dk[..32], dk[32..], d[..|d| / 2])
      case None => None
      case Some(x) => if x == [] then None else Some(CopyOfRange(x, 1, 15))
  }

  // Splitting the envelope in the middle separates ciphertext and HMAC exactly up to 14 bytes.
  lemma HalfSplit(lib: Library, id: bytes, psw: string, dob: bytes, random: octet)
    requires Sound(lib) && Digests32(lib) && |psw| % 2 == 0
    ensures var r, dk := Envelope(lib, id, psw, dob, random), DobKey(lib, id, dob);
      var e := EncryptPadded(lib, dk[..32], dk[32..], [random] + Bytes(psw));
      r[..|r| / 2] == e <==> |psw| / 2 <= 14
  {
    hide Fold, EncryptPadded, DobKey, Bytes;
    var r, dk := Envelope(lib, id, psw, dob, random), DobKey(lib, id, dob);
    assert |dk| == 48 by { DerivedLength(lib, dob, id, 10, 48); DobKeyIs(lib, id, dob); }
    var e := EncryptPadded(lib, dk[..32], dk[32..], [random] + Bytes(psw));
    CipherLength(lib, dk[..32], dk[32..], [random] + Bytes(psw));
    FirstHalf(e, Fold(lib.hmac(e, dob)), |psw| / 2);
  }

  lemma DobKeyIs(lib: Library, id: bytes, dob: bytes)
    ensures DobKey(lib, id, dob) == lib.kdf(dob, id, 10, 48)
  {
  }

  lemma CipherLength(lib: Library, key: bytes, iv: bytes, d: bytes)
    requires Sound(lib) && |key| == 32 && |iv| == 16
    ensures |EncryptPadded(lib, key, iv, d)| == 16 * (|d| / 16 + 1)
  {
    hide Pad;
    assert BlockInput(key, iv, Pad(d));
  }

  lemma FirstHalf(e: bytes, h: bytes, n: nat)
    requires |e| == 16 * ((n + 1) / 16 + 1) && |h| == 16
    ensures (e + h)[..|e + h| / 2] == e <==> n <= 14
  {
    if n <= 14 {
      assert |e| == 16 && (e + h)[..16] == e;
    } else {
      assert |e| >= 32;
    }
  }

  lemma EnvelopeHalves(lib: Library, id: bytes, psw: string, dob: bytes, random: octet)
    requires Sound(lib) && Digests32(lib) && |psw| % 2 == 0 && |psw| / 2 <= 14
    ensures var r, dk := Envelope(lib, id, psw, dob, random), DobKey(lib, id, dob);
      var e := EncryptPadded(lib, dk[..32], dk[32..], [random] + Bytes(psw));
      r[..|r| / 2] == e && r[|r| / 2..] == Fold(lib.hmac(e, dob))
  {
    hide Fold;
    HalfSplit(lib, id, psw, dob, random);
  }

  lemma TextVerifies(lib: Library, dob: bytes, text: string, d: bytes)
    requires Digests32(lib) && Base64.Decode(text) == Some(d)
    ensures Verified(lib, dob, text) == Some(d[|d| / 2..] == Fold(lib.hmac(d[..|d| / 2], dob)))
  {
    hide FoldFrom, Base64.Decode;
    var h := lib.hmac(d[..|d| / 2], dob);
    assert Fold(h) == FoldFrom(h, 16);
  }

  // Up to 14 bytes any date of birth is accepted exactly if the folded HMACs of the ciphertext under it
  // and under the date of the envelope are equal.
  lemma EnvelopeVerifiesIff(lib: Library, id: bytes, psw: string, dob: bytes, random: octet, other: bytes)
    requires Sound(lib) && Digests32(lib) && |psw| % 2 == 0 && |psw| / 2 <= 14
    ensures var dk := lib.kdf(dob, id, 10, 48);
      var e := lib.encrypt(dk[..32], dk[32..], Pad([random] + Bytes(psw)));
      Verified(lib, other, Base64.Encode(Envelope(lib, id, psw, dob, random)))
        == Some(Fold(lib.hmac(e, dob)) == Fold(lib.hmac(e, other)))
  {
    hide Fold, Envelope, Verified, Base64.Encode, Base64.Decode, Pad, Bytes, Sound;
    var d := Envelope(lib, id, psw, dob, random);
    DerivedLength(lib, dob, id, 10, 48);
    EnvelopeHalves(lib, id, psw, dob, random);
    Base64.DecodeEncode(d);
    TextVerifies(lib, other, Base64.Encode(d), d);
  }

  lemma DerivedLength(lib: Library, p: bytes, s: bytes, c: nat, n: nat)
    requires Sound(lib)
    ensures |lib.kdf(p, s, c, n)| == n
  {
  }

  // Up to 14 bytes the right date of birth is accepted.
  lemma EnvelopeVerifies(lib: Library, id: bytes, psw: string, dob: bytes, random: octet)
    requires Sound(lib) && Digests32(lib) && |psw| % 2 == 0 && |psw| / 2 <= 14
    ensures Verified(lib, dob, Base64.Encode(Envelope(lib, id, psw, dob, random))) == Some(true)
  {
    hide Fold, Envelope, Verified, Base64.Encode, Pad, Bytes, Sound;
    DerivedLength(lib, dob, id, 10, 48);
    EnvelopeVerifiesIff(lib, id, psw, dob, random, dob);
  }

  // Any text, forged or not, is accepted exactly if its second half has 16 bytes, each of them the XOR
  // of two bytes of the HMAC of the first half under the date; only what is not Base64 is an exception.
  lemma VerifiedIff(lib: Library, dob: bytes, text: string)
    requires Digests32(lib)
    ensures Verified(lib, dob, text).None? <==> Base64.Decode(text).None?
    ensures Verified(lib, dob, text) == Some(true) <==>
      Base64.Decode(text).Some? &&
      var d := Base64.Decode(text).value;
      (|d| == 31 || |d| == 32) &&
      var h := lib.hmac(d[..|d| / 2], dob);
      forall i | 0 <= i < 16 :: d[|d| / 2 + i] == Xor8(h[i], h[16 + i])
  {
    hide Xor8, Base64.Decode;
    if Base64.Decode(text).Some? {
      var d := Base64.Decode(text).value;
      var h, second := lib.hmac(d[..|d| / 2], dob), d[|d| / 2..];
      assert FoldFrom(h, 16) == seq(16, i requires 0 <= i < 16 => Xor8(h[i], h[16 + i]));
      assert |second| == |d| - |d| / 2;
      assert |second| == 16 <==> |d| == 31 || |d| == 32;
      if |second| == 16 {
        assert forall i | 0 <= i < 16 :: second[i] == d[|d| / 2 + i];
        assert second == FoldFrom(h, 16) <==> forall i | 0 <= i < 16 :: second[i] == FoldFrom(h, 16)[i];
      }
    }
  }

  // Decryption returns the hash itself exactly when it has 14 bytes; a shorter one comes back
  // filled up with zeros.
  lemma EnvelopeDecrypts(lib: Library, id: bytes, psw: string, dob: bytes, random: octet)
    requires Sound(lib) && Digests32(lib) && |psw| % 2 == 0 && |psw| / 2 <= 14
    ensures Decrypted(lib, id, dob, Base64.Encode(Envelope(lib, id, psw, dob, random)))
      == Some(Bytes(psw) + seq(14 - |psw| / 2, _ => 0))
    ensures Decrypted(lib, id, dob, Base64.Encode(Envelope(lib, id, psw, dob, random))) == Some(Bytes(psw))
      <==> |psw| == 28
  {
    hide Fold, Envelope, EncryptPadded, DecryptPadded, Base64.Encode, Base64.Decode, Bytes;
    var x := [random] + Bytes(psw);
    Base64.DecodeEncode(Envelope(lib, id, psw, dob, random));
    EnvelopeHalves(lib, id, psw, dob, random);
    var dk := DobKey(lib, id, dob);
    PaddedOpens(lib, dk[..32], dk[32..], x);
    CopyIs(random, Bytes(psw));
  }

  lemma CopyIs(random: octet, b: bytes)
    requires |b| <= 14
    ensures CopyOfRange([random] + b, 1, 15) == b + seq(14 - |b|, _ => 0)
    ensures |b| == 14 ==> b + seq(14 - |b|, _ => 0) == b
  {
    assert ([random] + b)[1..] == b;
  }

  // ---- the short hash, in Java over bytes and in JavaScript over words and hex text ----

  // Java's % keeps the sign of the dividend.
  function JavaRem(x: int, m: int): int
    requires m > 0
  {
    if x >= 0 then x % m else -((-x) % m)
  }

  // Java's remainder has the sign of the dividend, so an odd negative byte has -1.
  lemma JavaParity(x: int)
    ensures JavaRem(x, 2) == if x % 2 == 0 then 0 else if x > 0 then 1 else -1
  {
  }

  function HmacPswJava(lib: Library, psw: bytes): bytes
    requires Digests32(lib)
  {
    var hashPsw := lib.hash(psw);
    var hmacPsw := lib.hmac(psw, hashPsw);
    if JavaRem(Signed(hashPsw[0]), 2) == 0 then hmacPsw[14..28] else hmacPsw[..14]
  }

  function BigEndian(a: int, b: int, c: int, d: int): int { a * 0x100_0000 + b * 0x1_0000 + c * 0x100 + d }

  // Four big-endian bytes as a signed 32-bit word, and the words of a byte string.
  function PackWord(b: bytes): int
    requires |b| == 4
  {
    Int32(BigEndian(b[0], b[1], b[2], b[3]))
  }

  function PackWords(b: bytes): seq<int>
    requires |b| % 4 == 0
  {
    if b == [] then [] else [PackWord(b[..4])] + PackWords(b[4..])
  }

  // (word >> 8 * j) & 0xFF, the shift being arithmetic.
  function ByteOfWord(w: int, j: nat): octet
    requires j < 4
  {
    match j
    case 0 => w % 256
    case 1 => w / 0x100 % 256
    case 2 => w / 0x1_0000 % 256
    case 3 => w / 0x100_0000 % 256
  }

  function WordBytes(w: int): bytes { [ByteOfWord(w, 3), ByteOfWord(w, 2), ByteOfWord(w, 1), ByteOfWord(w, 0)] }

  function AllWordBytes(ws: seq<int>): bytes
  {
    if ws == [] then [] else AllWordBytes(ws[..|ws| - 1]) + WordBytes(ws[|ws| - 1])
  }

  method WordToByteArray(wordArray: seq<int>) returns (byteArray: bytes)
    ensures byteArray == AllWordBytes(wordArray)
  {
    hide ByteOfWord;
    byteArray := [];
    for i := 0 to |wordArray|
      invariant byteArray == AllWordBytes(wordArray[..i])
    {
      var word := wordArray[i];
      ghost var before := byteArray;
      var j := 3;
      while j >= 0
        invariant -1 <= j <= 3
        invariant byteArray == before + WordBytes(word)[..3 - j]
      {
        byteArray := byteArray + [ByteOfWord(word, j)];
        j := j - 1;
      }
      assert WordBytes(word)[..4] == WordBytes(word);
      assert wordArray[..i + 1][..i] == wordArray[..i];
    }
    assert wordArray[..|wordArray|] == wordArray;
  }

  lemma WordBytesOfPack(b: bytes)
    requires |b| == 4
    ensures WordBytes(PackWord(b)) == b
  {
    hide Int32, BigEndian, ByteOfWord;
    BigEndianBytes(b[0], b[1], b[2], b[3]);
    var v := BigEndian(b[0], b[1], b[2], b[3]);
    Int32Cases(v);
    SameBytes(v);
  }

  // Wrapping to a negative int changes none of the four bytes.
  lemma SameBytes(v: int)
    ensures WordBytes(v - TWO_32) == WordBytes(v)
  {
    LowByte(v, 0x100_0000);
    LowByte(v / 0x100, 0x1_0000);
    LowByte(v / 0x1_0000, 0x100);
    LowByte(v / 0x100_0000, 1);
    assert (v - TWO_32) / 0x100 == v / 0x100 - 256 * 0x1_0000;
    assert (v - TWO_32) / 0x1_0000 == v / 0x1_0000 - 256 * 0x100;
    assert (v - TWO_32) / 0x100_0000 == v / 0x100_0000 - 256 * 1;
  }

  lemma LowByte(x: int, m: int)
    ensures (x - 256 * m) % 256 == x % 256
  {
    var q, r := x / 256, x % 256;
    assert x - 256 * m == 256 * (q - m) + r;
  }

  lemma BigEndianBytes(a: octet, b: octet, c: octet, d: octet)
    ensures var v := BigEndian(a, b, c, d);
      0 <= v < TWO_32 && WordBytes(v) == [a, b, c, d]
  {
    hide BigEndian;
    Quotients(a, b, c, d);
  }

  lemma Quotients(a: octet, b: octet, c: octet, d: octet)
    ensures var v := BigEndian(a, b, c, d);
      && 0 <= v < TWO_32
      && v % 256 == d && v / 0x100 % 256 == c && v / 0x1_0000 % 256 == b && v / 0x100_0000 % 256 == a
  {
    var v := BigEndian(a, b, c, d);
    Digit256(a * 0x1_0000 + b * 0x100 + c, d);
    Digit256(a * 0x100 + b, c);
    Digit256(a, b);
    assert v / 0x1_0000 == (v / 0x100) / 0x100;
    assert v / 0x100_0000 == (v / 0x1_0000) / 0x100;
  }

  lemma Digit256(high: int, low: octet)
    ensures (high * 256 + low) / 256 == high && (high * 256 + low) % 256 == low
  {
  }

  lemma {:induction false} AllWordBytesFront(w: int, ws: seq<int>)
    ensures AllWordBytes([w] + ws) == WordBytes(w) + AllWordBytes(ws)
  {
    hide WordBytes;
    if ws == [] {
      assert [w] + ws == [w];
      assert AllWordBytes([w]) == AllWordBytes([]) + WordBytes(w);
    } else {
      var all := [w] + ws;
      assert all[..|all| - 1] == [w] + ws[..|ws| - 1];
      AllWordBytesFront(w, ws[..|ws| - 1]);
    }
  }

  // Unpacking the words of a byte string gives the bytes back, negative words included.
  lemma {:induction false} WordsRoundTrip(b: bytes)
    requires |b| % 4 == 0
    ensures AllWordBytes(PackWords(b)) == b
  {
    hide WordBytes, PackWord;
    if b != [] {
      WordBytesOfPack(b[..4]);
      WordsRoundTrip(b[4..]);
      AllWordBytesFront(PackWord(b[..4]), PackWords(b[4..]));
      assert b == b[..4] + b[4..];
    }
  }

  function HmacPswJs(lib: Library, psw: bytes): string
    requires Digests32(lib)
  {
    var hash := lib.hash(psw);
    var hmac := Text(lib.hmac(psw, hash));
    var first := AllWordBytes(PackWords(hash));
    if first != [] && first[0] % 2 == 0 then RestorePipeline.Substr(hmac, 28, 28)
    else RestorePipeline.Substr(hmac, 0, 28)
  }

  // Both wallets derive the same 14 bytes.
  lemma WalletsAgreeOnHmacPsw(lib: Library, psw: bytes)
    requires Digests32(lib)
    ensures HmacPswJs(lib, psw) == Text(HmacPswJava(lib, psw)) && |HmacPswJava(lib, psw)| == 14
  {
    hide Text, PackWords, AllWordBytes;
    var hash := lib.hash(psw);
    var hmac := lib.hmac(psw, hash);
    WordsRoundTrip(hash);
    TextSlice(hmac, 14, 28);
    TextSlice(hmac, 0, 14);
    assert hmac[0..14] == hmac[..14];
  }
}
