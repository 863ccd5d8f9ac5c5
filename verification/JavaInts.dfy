// Java int values: wrap-around, and the 32-bit pattern of an int. The pattern is built bit by bit,
// because no useful law about Dafny's own conversion from int to bv32 is available to the solver.
module JavaInts {
  import opened Wrappers
  import opened Words

  const TWO_32 := 0x1_0000_0000
  const TWO_31 := 0x8000_0000

  predicate IsInt(x: int) { -TWO_31 <= x < TWO_31 }

  // The int a Java computation stores when the exact result is x.
  function Int32(x: int): (r: int)
    ensures IsInt(r) && (r - x) % TWO_32 == 0
  {
    var m := x % TWO_32;
    assert (m - x) % TWO_32 == 0 by {
      assert m - x == TWO_32 * -(x / TWO_32);
    }
    assert (m - TWO_32 - x) % TWO_32 == 0 by {
      assert m - TWO_32 - x == TWO_32 * (-(x / TWO_32) - 1);
    }
    if m < TWO_31 then m else m - TWO_32
  }

  // Bit pattern of a natural number, most significant bits falling off the left end.
  function Pattern(x: nat): word
  {
    if x == 0 then 0 else Double(Pattern(x / 2), Bit(x))
  }

  function Double(w: word, bit: word): word { (w << 1) | bit }

  function Bit(x: nat): word { if x % 2 == 1 then 1 else 0 }

  function ToWord(x: int): word { Pattern(x % TWO_32) }

  // All bits from position k upwards.
  function HighBits(k: nat): word
  {
    if k == 0 then 0xFFFF_FFFF else HighBits(k - 1) << 1
  }

  lemma {:induction false} PatternFits(x: nat, k: nat)
    requires x < Pow2(k)
    ensures Pattern(x) & HighBits(k) == 0
  {
    if k > 0 && x > 0 {
      PatternFits(x / 2, k - 1);
    }
  }

  lemma TopBit()
    ensures HighBits(31) == 0x8000_0000 && Pow2(31) == TWO_31
  {
    assert HighBits(5) == 0xffff_ffe0 && Pow2(5) == 0x20;
    assert HighBits(10) == 0xffff_fc00 && Pow2(10) == 0x400;
    assert HighBits(15) == 0xffff_8000 && Pow2(15) == 0x8000;
    assert HighBits(20) == 0xfff0_0000 && Pow2(20) == 0x100000;
    assert HighBits(25) == 0xfe00_0000 && Pow2(25) == 0x2000000;
    assert HighBits(30) == 0xc000_0000 && Pow2(30) == 0x40000000;
  }

  lemma PatternLow(x: nat)
    requires x < TWO_31
    ensures Pattern(x) & 0x8000_0000 == 0
  {
    TopBit();
    PatternFits(x, 31);
  }

  lemma PatternStep(x: nat)
    ensures Pattern(x) == Double(Pattern(x / 2), Bit(x))
  {
  }

  lemma DoubleInjective(g: word, h: word, b: word, c: word)
    requires g & 0x8000_0000 == 0 && h & 0x8000_0000 == 0
    requires b < 2 && c < 2 && Double(g, b) == Double(h, c)
    ensures g == h && b == c
  {
  }

  lemma Halved(w: word, bit: word)
    requires w & 0x8000_0000 == 0 && bit < 2
    ensures Double(w, bit) >> 1 == w && Double(w, bit) & 1 == bit
  {
  }

  // A number below 2^32 is written in binary: the last bit is its parity, the others are its half.
  lemma WordOfInt(x: nat)
    requires x < TWO_32
    ensures ToWord(x) >> 1 == ToWord(x / 2) && ToWord(x) & 1 == (if x % 2 == 1 then 1 else 0) && ToWord(0) == 0
    ensures ToWord(x - TWO_32) == ToWord(x)
  {
    hide Pattern, Double;
    PatternStep(x);
    PatternLow(x / 2);
    Halved(Pattern(x / 2), Bit(x));
    ModPeriod(x, -1);
    PatternZero();
  }

  lemma PatternZero()
    ensures Pattern(0) == 0
  {
  }

  lemma HalvesAgree(x: nat, y: nat)
    requires x < TWO_32 && y < TWO_32 && Pattern(x) == Pattern(y)
    ensures Pattern(x / 2) == Pattern(y / 2) && Bit(x) == Bit(y)
  {
    hide Pattern, Bit, Double;
    PatternStep(x);
    PatternStep(y);
    PatternLow(x / 2);
    PatternLow(y / 2);
    BitSmall(x);
    BitSmall(y);
    DoubleInjective(Pattern(x / 2), Pattern(y / 2), Bit(x), Bit(y));
  }

  lemma BitSmall(x: nat)
    ensures Bit(x) < 2
  {
  }

  lemma SameBit(x: nat, y: nat)
    requires Bit(x) == Bit(y)
    ensures x % 2 == y % 2
  {
  }

  // Distinct numbers below 2^32 have distinct patterns.
  lemma {:induction false} PatternInjective(x: nat, y: nat)
    requires x < TWO_32 && y < TWO_32 && Pattern(x) == Pattern(y)
    ensures x == y
  {
    hide Pattern, Bit;
    if x > 0 || y > 0 {
      HalvesAgree(x, y);
      SameBit(x, y);
      PatternInjective(x / 2, y / 2);
    }
  }

  // Wrapping after every addition is wrapping once.
  lemma Int32Sum(x: int, y: int)
    ensures Int32(Int32(x) + y) == Int32(x + y)
  {
    var m := (Int32(x) - x) / TWO_32;
    assert Int32(x) + y == x + y + TWO_32 * m;
    ModPeriod(x + y, m);
  }

  lemma ModPeriod(x: int, m: int)
    ensures (x + TWO_32 * m) % TWO_32 == x % TWO_32
  {
  }

  // Sums less than 2^32 apart wrap to the same int only when they are equal.
  lemma Int32Injective(x: int, y: int)
    requires -TWO_32 < x - y < TWO_32
    ensures Int32(x) == Int32(y) <==> x == y
  {
    if Int32(x) == Int32(y) {
      var k := (Int32(x) - x) / TWO_32 - (Int32(y) - y) / TWO_32;
      assert y - x == TWO_32 * k;
    }
  }

  lemma Int32Cases(x: int)
    requires -TWO_32 <= x < TWO_32
    ensures Int32(x) == if x < -TWO_31 then x + TWO_32 else if x < TWO_31 then x else x - TWO_32
  {
  }
}
