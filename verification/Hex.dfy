// The two hex codecs of MoaCommon and the byte printer of RIPEMD160. A byte is given by its
// unsigned value; Signed is the value Java gives it.
module Hex {
  import opened Wrappers

  type octet = x: int | 0 <= x < 256
  type digit = x: int | 0 <= x < 16

  function Signed(b: octet): int { if b < 128 then b else b - 256 }

  function Digit(v: digit): (c: char)
    ensures '0' <= c <= '9' || 'a' <= c <= 'f'
  {
    if v > 9 then 'a' + (v - 10) as char else '0' + v as char
  }

  // The value of an ASCII hex digit, or -1.
  function Value(c: char): (v: int)
    ensures -1 <= v < 16
  {
    if '0' <= c <= '9' then (c - '0') as int
    else if 'a' <= c <= 'f' then (c - 'a') as int + 10
    else if 'A' <= c <= 'F' then (c - 'A') as int + 10
    else -1
  }

  // Digit zero in every other script of the Basic Multilingual Plane (general category Nd).
  const ZEROS: seq<int> := [
    0x0660, 0x06f0, 0x07c0, 0x0966, 0x09e6, 0x0a66, 0x0ae6, 0x0b66, 0x0be6, 0x0c66, 0x0ce6, 0x0d66,
    0x0de6, 0x0e50, 0x0ed0, 0x0f20, 0x1040, 0x1090, 0x17e0, 0x1810, 0x1946, 0x19d0, 0x1a80, 0x1a90,
    0x1b50, 0x1bb0, 0x1c40, 0x1c50, 0xa620, 0xa8d0, 0xa900, 0xa9d0, 0xa9f0, 0xaa50, 0xabf0, 0xff10]

  function ScriptDigit(c: int, k: nat): (v: int)
    requires k <= |ZEROS|
    ensures -1 <= v < 10
    decreases |ZEROS| - k
  {
    if k == |ZEROS| then -1
    else if ZEROS[k] <= c < ZEROS[k] + 10 then c - ZEROS[k]
    else ScriptDigit(c, k + 1)
  }

  // Character.digit(c, 16): digits of every script, and the ASCII and full-width letters.
  function JavaDigit(c: char): (v: int)
    ensures -1 <= v < 16
  {
    if Value(c) >= 0 then Value(c)
    else if 0xff21 <= c as int < 0xff27 then c as int - 0xff21 + 10
    else if 0xff41 <= c as int < 0xff47 then c as int - 0xff41 + 10
    else ScriptDigit(c as int, 0)
  }

  // Character.digit(c, 10)
  function JavaDecimal(c: char): (v: int)
    ensures -1 <= v < 10
  {
    if JavaDigit(c) < 10 then JavaDigit(c) else -1
  }

  lemma {:induction false} RunsAreApart(i: nat, j: nat)
    requires i < j < |ZEROS|
    ensures ZEROS[i] + 10 <= ZEROS[j]
  {
    if j > i + 1 {
      RunsAreApart(i, j - 1);
    }
  }

  lemma {:induction false} ScriptDigitFrom(i: nat, k: nat, d: int)
    requires i <= k < |ZEROS| && 0 <= d < 10
    ensures ScriptDigit(ZEROS[k] + d, i) == d
    decreases k - i
  {
    if i < k {
      RunsAreApart(i, k);
      ScriptDigitFrom(i + 1, k, d);
    }
  }

  lemma {:induction false} ScriptDigitOnly(c: int, i: nat)
    requires i <= |ZEROS| && ScriptDigit(c, i) >= 0
    ensures exists k | i <= k < |ZEROS| :: c == ZEROS[k] + ScriptDigit(c, i)
    decreases |ZEROS| - i
  {
    if !(ZEROS[i] <= c < ZEROS[i] + 10) {
      ScriptDigitOnly(c, i + 1);
    }
  }

  // The digits of ASCII and of the other scripts, and nothing else, read as the numbers they stand for.
  lemma JavaDecimalIs(c: char, d: digit)
    requires d < 10
    ensures JavaDecimal(c) == d
      <==> c as int == '0' as int + d || exists k | 0 <= k < |ZEROS| :: c as int == ZEROS[k] + d
  {
    hide ScriptDigit;
    if k :| 0 <= k < |ZEROS| && c as int == ZEROS[k] + d {
      ScriptDigitFrom(0, k, d);
      ScriptRange(k);
    } else if JavaDecimal(c) == d && Value(c) < 0 {
      ScriptDigitOnly(c as int, 0);
    }
  }

  lemma ScriptRange(k: nat)
    requires k < |ZEROS|
    ensures ZEROS[0] <= ZEROS[k] <= ZEROS[|ZEROS| - 1]
  {
    if k > 0 {
      RunsAreApart(0, k);
    }
    if k < |ZEROS| - 1 {
      RunsAreApart(k, |ZEROS| - 1);
    }
  }

  // Digits above nine are the ASCII letters up to F and their full-width forms.
  lemma LettersRead(c: char, v: digit)
    requires v >= 10
    ensures JavaDigit(c) == v
      <==> c as int - (v - 10) in {'A' as int, 'a' as int, 0xff21, 0xff41}
  {
  }

  predicate IsHex(s: string) { |s| % 2 == 0 && forall i | 0 <= i < |s| :: Value(s[i]) >= 0 }

  // String.format("%02x", b & 0xff)
  function ByteText(b: octet): (s: string)
    ensures |s| == 2
  {
    [Digit(b / 16), Digit(b % 16)]
  }

  function Text(bs: seq<octet>): (s: string)
    ensures |s| == 2 * |bs|
  {
    if bs == [] then "" else ByteText(bs[0]) + Text(bs[1..])
  }

  // (byte) ((digit << 4) + digit)
  function ByteOf(c: char, d: char): octet { (16 * JavaDigit(c) + JavaDigit(d)) % 256 }

  function Bytes(s: string): (bs: seq<octet>)
    requires |s| % 2 == 0
    ensures |bs| == |s| / 2
  {
    if s == "" then [] else [ByteOf(s[0], s[1])] + Bytes(s[2..])
  }

  function Lower(c: char): char { if 'A' <= c <= 'F' then c - 'A' + 'a' else c }

  function LowerAll(s: string): string { seq(|s|, i requires 0 <= i < |s| => Lower(s[i])) }

  lemma DigitValue(v: digit)
    ensures Value(Digit(v)) == v
  {
  }

  lemma AsciiDigit(c: char)
    requires Value(c) >= 0
    ensures JavaDigit(c) == Value(c) && Digit(Value(c)) == Lower(c)
  {
  }

  lemma DigitIsLower(v: digit, c: char)
    ensures Digit(v) == Lower(c) ==> Value(c) >= 0
  {
  }

  lemma ByteOfByteText(b: octet)
    ensures ByteOf(ByteText(b)[0], ByteText(b)[1]) == b && IsHex(ByteText(b))
  {
    hide Value, Digit, JavaDigit;
    DigitValue(b / 16);
    DigitValue(b % 16);
    AsciiDigit(Digit(b / 16));
    AsciiDigit(Digit(b % 16));
  }

  lemma ByteTextOfByte(c: char, d: char)
    ensures ByteText(ByteOf(c, d)) == [Lower(c), Lower(d)] <==> Value(c) >= 0 && Value(d) >= 0
  {
    hide Value, Digit, Lower, JavaDigit;
    var b := ByteOf(c, d);
    DigitIsLower(b / 16, c);
    DigitIsLower(b % 16, d);
    if Value(c) >= 0 && Value(d) >= 0 {
      AsciiDigit(c);
      AsciiDigit(d);
      assert b / 16 == Value(c) && b % 16 == Value(d);
    }
  }

  lemma {:induction false} BytesOfText(bs: seq<octet>)
    ensures IsHex(Text(bs)) && Bytes(Text(bs)) == bs
  {
    hide Value, ByteText, ByteOf;
    if bs != [] {
      var h, rest := ByteText(bs[0]), Text(bs[1..]);
      ByteOfByteText(bs[0]);
      BytesOfText(bs[1..]);
      assert Text(bs) == h + rest && Text(bs)[2..] == rest;
      assert bs == [bs[0]] + bs[1..];
    }
  }

  // Printing what was decoded gives the text in lower case exactly if it is ASCII hex: digits of
  // other scripts come back as ASCII digits, and other characters as well.
  lemma {:induction false} TextOfBytes(s: string)
    requires |s| % 2 == 0
    ensures Text(Bytes(s)) == LowerAll(s) <==> IsHex(s)
  {
    hide Value, ByteText, ByteOf, Lower;
    if s != "" {
      var h, t := ByteText(ByteOf(s[0], s[1])), [Lower(s[0]), Lower(s[1])];
      ByteTextOfByte(s[0], s[1]);
      TextOfBytes(s[2..]);
      assert Text(Bytes(s)) == h + Text(Bytes(s[2..])) by { assert Bytes(s)[1..] == Bytes(s[2..]); }
      assert LowerAll(s) == t + LowerAll(s[2..]);
      TwoAndRest(h, Text(Bytes(s[2..])), t, LowerAll(s[2..]));
      HexAndRest(s);
    }
  }

  lemma TwoAndRest(a: string, b: string, c: string, d: string)
    requires |a| == |c|
    ensures a + b == c + d <==> a == c && b == d
  {
    if a + b == c + d {
      assert (a + b)[..|a|] == a && (c + d)[..|a|] == c;
      assert (a + b)[|a|..] == b && (c + d)[|a|..] == d;
    }
  }

  lemma HexAndRest(s: string)
    requires |s| % 2 == 0 && s != ""
    ensures IsHex(s) <==> Value(s[0]) >= 0 && Value(s[1]) >= 0 && IsHex(s[2..])
  {
    hide Value;
    assert forall i | 2 <= i < |s| :: s[i] == s[2..][i - 2];
  }

  lemma {:induction false} TextAppend(a: seq<octet>, b: seq<octet>)
    ensures Text(a + b) == Text(a) + Text(b)
  {
    if a == [] {
      assert a + b == b;
    } else {
      assert (a + b)[1..] == a[1..] + b;
      TextAppend(a[1..], b);
    }
  }

  lemma TextSnoc(bs: seq<octet>, k: nat)
    requires k < |bs|
    ensures Text(bs[..k + 1]) == Text(bs[..k]) + ByteText(bs[k])
  {
    assert bs[..k + 1] == bs[..k] + [bs[k]];
    TextAppend(bs[..k], [bs[k]]);
    assert Text([bs[k]]) == ByteText(bs[k]) + Text([]);
  }

  lemma TextMiddle(a: seq<octet>, b: seq<octet>, c: seq<octet>)
    ensures Text(a + (b + c))[2 * |a|..2 * |a| + 2 * |b|] == Text(b)
  {
    hide Text;
    TextAppend(a, b + c);
    TextAppend(b, c);
    Middle(Text(a), Text(b), Text(c));
  }

  lemma Middle(a: string, b: string, c: string)
    ensures (a + (b + c))[|a|..|a| + |b|] == b
  {
  }

  lemma Reassemble(bs: seq<octet>, lo: nat, hi: nat)
    requires lo <= hi <= |bs|
    ensures bs == bs[..lo] + (bs[lo..hi] + bs[hi..])
  {
  }

  // A slice of the text at even positions is the text of the slice.
  lemma TextSlice(bs: seq<octet>, lo: nat, hi: nat)
    requires lo <= hi <= |bs|
    ensures Text(bs)[2 * lo..2 * hi] == Text(bs[lo..hi])
  {
    hide Text;
    var a, b, c := bs[..lo], bs[lo..hi], bs[hi..];
    assert bs == a + (b + c) by { Reassemble(bs, lo, hi); }
    TextMiddle(a, b, c);
  }

  lemma {:induction false} BytesAppend(s: string, t: string)
    requires |s| % 2 == 0 && |t| % 2 == 0
    ensures Bytes(s + t) == Bytes(s) + Bytes(t)
  {
    hide ByteOf;
    if s == "" {
      assert s + t == t;
    } else {
      BytesAppend(s[2..], t);
      TwoLess(s, t);
      assert Bytes(s + t) == [ByteOf(s[0], s[1])] + Bytes(s[2..] + t);
    }
  }

  lemma TwoLess(s: string, t: string)
    requires |s| >= 2
    ensures (s + t)[2..] == s[2..] + t && (s + t)[0] == s[0] && (s + t)[1] == s[1]
  {
  }

  // hexStringToByteArray: an odd length runs off the end of the string.
  method HexStringToByteArray(s: string) returns (r: Option<seq<octet>>)
    ensures r == if |s| % 2 == 0 then Some(Bytes(s)) else None
  {
    hide ByteOf;
    var data := new octet[|s| / 2](_ => 0);
    var i := 0;
    while i < |s|
      invariant 0 <= i <= |s| && i % 2 == 0
      invariant data[..i / 2] == Bytes(s[..i])
    {
      if i + 1 == |s| {
        return None;
      }
      data[i / 2] := ByteOf(s[i], s[i + 1]);
      assert s[..i + 2] == s[..i] + s[i..i + 2];
      assert data[..(i + 2) / 2] == data[..i / 2] + [data[i / 2]];
      BytesAppend(s[..i], s[i..i + 2]);
      i := i + 2;
    }
    assert data[..] == data[..i / 2] && s[..i] == s;
    r := Some(data[..]);
  }

  method ByteArrayToHexString(bytes: seq<octet>) returns (s: string)
    ensures s == Text(bytes)
  {
    hide ByteText;
    s := "";
    for i := 0 to |bytes|
      invariant s == Text(bytes[..i])
    {
      TextSnoc(bytes, i);
      s := s + ByteText(bytes[i]);
    }
    assert bytes[..|bytes|] == bytes;
  }

  // RIPEMD160.byteToHex, on the signed value Java passes.
  function ByteToHex(b: int): (s: string)
    requires -128 <= b < 128
  {
    [Digit((256 + b) / 16 % 16), Digit((256 + b) % 16)]
  }

  lemma ByteToHexIsByteText(b: octet)
    ensures ByteToHex(Signed(b)) == ByteText(b)
  {
    hide Digit;
    assert (256 + Signed(b)) / 16 % 16 == b / 16 && (256 + Signed(b)) % 16 == b % 16;
  }
}
