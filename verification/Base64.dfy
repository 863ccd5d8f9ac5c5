// Base64 as in section 4 of RFC 4648.
module Base64 {
  import opened Wrappers
  import opened Hex

  type sextet = x: int | 0 <= x < 64

  function Letter(v: sextet): char
  {
    if v < 26 then 'A' + v as char
    else if v < 52 then 'a' + (v - 26) as char
    else if v < 62 then '0' + (v - 52) as char
    else if v == 62 then '+' else '/'
  }

  function Sextet(c: char): Option<sextet>
  {
    if 'A' <= c <= 'Z' then Some((c - 'A') as int)
    else if 'a' <= c <= 'z' then Some((c - 'a') as int + 26)
    else if '0' <= c <= '9' then Some((c - '0') as int + 52)
    else if c == '+' then Some(62)
    else if c == '/' then Some(63)
    else None
  }

  lemma SextetOfLetter(v: sextet)
    ensures Sextet(Letter(v)) == Some(v)
  {
  }

  function Encode(bs: seq<octet>): (s: string)
    ensures bs == [] <==> s == ""
  {
    if bs == [] then ""
    else if |bs| == 1 then [Letter(bs[0] / 4), Letter(bs[0] % 4 * 16), '=', '=']
    else if |bs| == 2 then
      [Letter(bs[0] / 4), Letter(bs[0] % 4 * 16 + bs[1] / 16), Letter(bs[1] % 16 * 4), '=']
    else
      [Letter(bs[0] / 4), Letter(bs[0] % 4 * 16 + bs[1] / 16), Letter(bs[1] % 16 * 4 + bs[2] / 64), Letter(bs[2] % 64)]
      + Encode(bs[3..])
  }

  // The bytes of one group of four characters.
  function Group(a: sextet, b: sextet, c: sextet, d: sextet): seq<octet>
  {
    [a * 4 + b / 16, b % 16 * 16 + c / 4, c % 4 * 64 + d]
  }

  // None on text that is not Base64.
  function Decode(s: string): Option<seq<octet>>
  {
    if s == "" then Some([])
    else if |s| < 4 || Sextet(s[0]).None? || Sextet(s[1]).None? then None
    else
      var a, b := Sextet(s[0]).value, Sextet(s[1]).value;
      if |s| == 4 && s[2] == '=' && s[3] == '=' then Some(Group(a, b, 0, 0)[..1])
      else if Sextet(s[2]).None? then None
      else if |s| == 4 && s[3] == '=' then Some(Group(a, b, Sextet(s[2]).value, 0)[..2])
      else if Sextet(s[3]).None? then None
      else
        match Decode(s[4..])
        case None => None
        case Some(rest) => Some(Group(a, b, Sextet(s[2]).value, Sextet(s[3]).value) + rest)
  }

  lemma LetterIsNotPad(v: sextet)
    ensures Letter(v) != '='
  {
  }

  lemma DecodeLetters(a: sextet, b: sextet, c: sextet, d: sextet, rest: string)
    ensures Decode([Letter(a), Letter(b), Letter(c), Letter(d)] + rest) ==
      (match Decode(rest)
       case None => None
       case Some(bs) => Some(Group(a, b, c, d) + bs))
  {
    hide Letter, Sextet, Group;
    SextetOfLetter(a); SextetOfLetter(b); SextetOfLetter(c); SextetOfLetter(d);
    LetterIsNotPad(c); LetterIsNotPad(d);
    assert ([Letter(a), Letter(b), Letter(c), Letter(d)] + rest)[4..] == rest;
  }

  lemma DecodePadded(a: sextet, b: sextet, c: sextet)
    ensures Decode([Letter(a), Letter(b), '=', '=']) == Some(Group(a, b, 0, 0)[..1])
    ensures Decode([Letter(a), Letter(b), Letter(c), '=']) == Some(Group(a, b, c, 0)[..2])
  {
    hide Letter, Sextet;
    SextetOfLetter(a); SextetOfLetter(b); SextetOfLetter(c);
    LetterIsNotPad(c);
  }

  lemma {:induction false} DecodeEncode(bs: seq<octet>)
    ensures Decode(Encode(bs)) == Some(bs)
  {
    hide Letter, Decode, Group;
    assert Decode("") == Some([]) by { DecodeEmpty(); }
    if |bs| == 1 {
      GroupInverts(bs[0], 0, 0);
      DecodePadded(bs[0] / 4, bs[0] % 4 * 16, 0);
      assert bs == [bs[0], 0, 0][..1];
    } else if |bs| == 2 {
      GroupInverts(bs[0], bs[1], 0);
      DecodePadded(bs[0] / 4, bs[0] % 4 * 16 + bs[1] / 16, bs[1] % 16 * 4);
      assert bs == [bs[0], bs[1], 0][..2];
    } else if |bs| > 2 {
      GroupInverts(bs[0], bs[1], bs[2]);
      DecodeLetters(bs[0] / 4, bs[0] % 4 * 16 + bs[1] / 16, bs[1] % 16 * 4 + bs[2] / 64, bs[2] % 64, Encode(bs[3..]));
      DecodeEncode(bs[3..]);
      assert bs == [bs[0], bs[1], bs[2]] + bs[3..];
    }
  }

  lemma DecodeEmpty()
    ensures Decode("") == Some([])
  {
  }

  lemma GroupInverts(a: octet, b: octet, c: octet)
    ensures Group(a / 4, a % 4 * 16 + b / 16, b % 16 * 4 + c / 64, c % 64) == [a, b, c]
  {
  }

  predicate InAlphabet(c: char) { c == '=' || Sextet(c).Some? }

  // Nothing but the alphabet and the padding is printed.
  lemma {:induction false} PrintsAlphabet(bs: seq<octet>)
    ensures forall c | c in Encode(bs) :: InAlphabet(c)
  {
    hide Letter, Sextet;
    if bs != [] {
      var b1 := if |bs| > 1 then bs[1] else 0;
      var b2 := if |bs| > 2 then bs[2] else 0;
      SextetOfLetter(bs[0] / 4);
      SextetOfLetter(bs[0] % 4 * 16 + b1 / 16);
      SextetOfLetter(b1 % 16 * 4 + b2 / 64);
      SextetOfLetter(b2 % 64);
      if |bs| >= 3 {
        PrintsAlphabet(bs[3..]);
      }
    }
  }

  // So the separators of the wallet messages and line ends never occur.
  lemma NoSeparators(bs: seq<octet>)
    ensures '$' !in Encode(bs) && '%' !in Encode(bs) && '\n' !in Encode(bs) && '\r' !in Encode(bs)
  {
    hide Encode;
    PrintsAlphabet(bs);
    assert !InAlphabet('$') && !InAlphabet('%') && !InAlphabet('\n') && !InAlphabet('\r');
  }
}
