// 32-bit words and 8-bit bytes as the Java code uses them, with the rotation it writes out by shifts.
module Words {
  type word = bv32
  type byte = bv8

  // A 64-byte message block as sixteen words.
  type block = X: seq<word> | |X| == 16 witness seq(16, _ => 0)

  // Java's (x << s) | (x >>> (32 - s))
  function Rol(x: word, s: nat): word
    requires 0 < s < 32
  {
    (x << s) | (x >> (32 - s))
  }

  function Ror(x: word, s: nat): word
    requires 0 < s < 32
  {
    (x >> s) | (x << (32 - s))
  }

  function BitAt(x: word, i: word): word
    requires i < 32
  {
    (x >> i) & 1
  }

  // The rotation by s moves bit i to position i + s modulo 32.
  ghost predicate Rotates(s: nat)
    requires 0 < s < 32
  {
    forall x: word, i: word | i < 32 :: BitAt(Rol(x, s), (i + s as word) % 32) == BitAt(x, i)
  }

  lemma Rotates1() ensures Rotates(1) {}
  lemma Rotates2() ensures Rotates(2) {}
  lemma Rotates3() ensures Rotates(3) {}
  lemma Rotates4() ensures Rotates(4) {}
  lemma Rotates5() ensures Rotates(5) {}
  lemma Rotates6() ensures Rotates(6) {}
  lemma Rotates7() ensures Rotates(7) {}
  lemma Rotates8() ensures Rotates(8) {}
  lemma Rotates9() ensures Rotates(9) {}
  lemma Rotates10() ensures Rotates(10) {}
  lemma Rotates11() ensures Rotates(11) {}
  lemma Rotates12() ensures Rotates(12) {}
  lemma Rotates13() ensures Rotates(13) {}
  lemma Rotates14() ensures Rotates(14) {}
  lemma Rotates15() ensures Rotates(15) {}
  lemma Rotates16() ensures Rotates(16) {}
  lemma Rotates17() ensures Rotates(17) {}
  lemma Rotates18() ensures Rotates(18) {}
  lemma Rotates19() ensures Rotates(19) {}
  lemma Rotates20() ensures Rotates(20) {}
  lemma Rotates21() ensures Rotates(21) {}
  lemma Rotates22() ensures Rotates(22) {}
  lemma Rotates23() ensures Rotates(23) {}
  lemma Rotates24() ensures Rotates(24) {}
  lemma Rotates25() ensures Rotates(25) {}
  lemma Rotates26() ensures Rotates(26) {}
  lemma Rotates27() ensures Rotates(27) {}
  lemma Rotates28() ensures Rotates(28) {}
  lemma Rotates29() ensures Rotates(29) {}
  lemma Rotates30() ensures Rotates(30) {}
  lemma Rotates31() ensures Rotates(31) {}

  lemma RotationMovesBits(x: word, s: nat, i: word)
    requires 0 < s < 32 && i < 32
    ensures BitAt(Rol(x, s), (i + s as word) % 32) == BitAt(x, i)
  {
    hide Rol, BitAt;
    assert Rotates(s) by {
      if s < 16 { RotatesLow(s); } else { RotatesHigh(s); }
    }
  }

  lemma RotatesLow(s: nat)
    requires 0 < s < 16
    ensures Rotates(s)
  {
    hide Rotates;
    Rotates1(); Rotates2(); Rotates3(); Rotates4(); Rotates5(); Rotates6(); Rotates7(); Rotates8();
    Rotates9(); Rotates10(); Rotates11(); Rotates12(); Rotates13(); Rotates14(); Rotates15();
  }

  lemma RotatesHigh(s: nat)
    requires 16 <= s < 32
    ensures Rotates(s)
  {
    hide Rotates;
    Rotates16(); Rotates17(); Rotates18(); Rotates19(); Rotates20(); Rotates21(); Rotates22(); Rotates23();
    Rotates24(); Rotates25(); Rotates26(); Rotates27(); Rotates28(); Rotates29(); Rotates30(); Rotates31();
  }

  // A right rotation by s and a left rotation by s cancel, in both orders.
  ghost predicate RotationCancels(s: nat)
    requires 0 < s < 32
  {
    forall x: word :: Ror(Rol(x, s), s) == x && Rol(Ror(x, s), s) == x
  }

  lemma Cancels5() ensures RotationCancels(5) {}
  lemma Cancels6() ensures RotationCancels(6) {}
  lemma Cancels7() ensures RotationCancels(7) {}
  lemma Cancels8() ensures RotationCancels(8) {}
  lemma Cancels9() ensures RotationCancels(9) {}
  lemma Cancels10() ensures RotationCancels(10) {}
  lemma Cancels11() ensures RotationCancels(11) {}
  lemma Cancels12() ensures RotationCancels(12) {}
  lemma Cancels13() ensures RotationCancels(13) {}
  lemma Cancels14() ensures RotationCancels(14) {}
  lemma Cancels15() ensures RotationCancels(15) {}

  // 5 to 15 are the shift amounts that occur in RIPEMD-160.
  lemma RotationsCancel(s: nat)
    requires 5 <= s <= 15
    ensures RotationCancels(s)
  {
    Cancels5(); Cancels6(); Cancels7(); Cancels8(); Cancels9(); Cancels10();
    Cancels11(); Cancels12(); Cancels13(); Cancels14(); Cancels15();
    assert s == 5 || s == 6 || s == 7 || s == 8 || s == 9 || s == 10
        || s == 11 || s == 12 || s == 13 || s == 14 || s == 15;
  }

  // Addition and subtraction modulo 2^32.
  function Add(x: word, y: word): word { x + y }

  function Sub(x: word, y: word): word { x - y }

  // Undoing them is proved through the operators, which the solver cancels before it looks at bits.
  lemma AddSub(x: word, y: word)
    ensures Sub(Add(x, y), y) == x && Add(Sub(x, y), y) == x
  {
    hide Add, Sub;
    Definitions(x, y);
    WrapAround(x, y);
  }

  lemma Definitions(x: word, y: word)
    ensures Add(x, y) == x + y && Sub(x, y) == x - y
  {
  }

  lemma WrapAround(x: word, y: word)
    ensures Sub(x + y, y) == x && Add(x - y, y) == x
  {
  }

  lemma AddZero(x: word)
    ensures Add(x, 0) == x
  {
  }

  lemma AddCommutes(x: word, y: word)
    ensures Add(x, y) == Add(y, x)
  {
  }
}
