/**
 RIPEMD-160 as its authors define it (Dobbertin, Bosselaers, Preneel 1996), written from the
 mathematical description and not from unrolled tables: message words are ordered by powers of
 the permutation rho, after pi(i) = 9i+5 mod 16 on the parallel line; both lines share one
 table of rotation amounts, indexed by round and message word; the added constants are integer
 parts of square and cube roots.
 */
module RipemdStandard {
  import opened Words

  // The chaining value or the working value of one line.
  datatype Line = Line(a: word, b: word, c: word, d: word, e: word)

  const INITIAL := Line(0x67452301, 0xefcdab89, 0x98badcfe, 0x10325476, 0xc3d2e1f0)

  // A message word number, and a rotation amount.
  type index = i: nat | i < 16
  type amount = s: nat | 5 <= s <= 15 witness 5

  const RHO: seq<index> := [7, 4, 13, 1, 10, 6, 15, 3, 12, 0, 9, 5, 2, 14, 11, 8]

  function Pi(i: index): index { (9 * i + 5) % 16 }

  function RhoPower(k: nat, i: index): index {
    if k == 0 then i else RHO[RhoPower(k - 1, i)]
  }

  // The two lines.
  datatype Side = LeftSide | RightSide

  // The message word used in step j.
  function Word(side: Side, j: nat): index
  {
    RhoPower(j / 16, if side == LeftSide then j % 16 else Pi(j % 16))
  }

  // Rotation amounts: one row per round, one column per message word.
  const SHIFT: seq<seq<amount>> := [
    [11, 14, 15, 12, 5, 8, 7, 9, 11, 13, 14, 15, 6, 7, 9, 8],
    [12, 13, 11, 15, 6, 9, 9, 7, 12, 15, 11, 13, 7, 8, 7, 7],
    [13, 15, 14, 11, 7, 7, 6, 8, 13, 14, 13, 12, 5, 5, 6, 9],
    [14, 11, 12, 14, 8, 6, 5, 5, 15, 12, 15, 14, 9, 9, 8, 6],
    [15, 12, 13, 13, 9, 5, 8, 6, 14, 11, 12, 11, 8, 6, 5, 5]]

  function Shift(side: Side, j: nat): amount
    requires j < 80
  {
    SHIFT[j / 16][Word(side, j)]
  }

  // The five Boolean functions, numbered from 0.
  function F(k: nat, x: word, y: word, z: word): word
    requires k < 5
  {
    match k
    case 0 => x ^ y ^ z
    case 1 => (x & y) | (!x & z)
    case 2 => (x | !y) ^ z
    case 3 => (x & z) | (y & !z)
    case 4 => x ^ (y | !z)
  }

  // The added constant of each round; ConstantsAreRoots says where they come from.
  const LEFT_CONSTANT: seq<word> := [0x00000000, 0x5a827999, 0x6ed9eba1, 0x8f1bbcdc, 0xa953fd4e]
  const RIGHT_CONSTANT: seq<word> := [0x50a28be6, 0x5c4dd124, 0x6d703ef3, 0x7a6d76e9, 0x00000000]

  // Boolean function and constant of step j; the right line takes the functions in opposite order.
  function Bool(side: Side, j: nat, b: word, c: word, d: word): word
    requires j < 80
  {
    F(if side == LeftSide then j / 16 else 4 - j / 16, b, c, d)
  }

  function Constant(side: Side, j: nat): word
    requires j < 80
  {
    if side == LeftSide then LEFT_CONSTANT[j / 16] else RIGHT_CONSTANT[j / 16]
  }

  // What step j rotates: register + function + message word + constant.
  function Sum(side: Side, l: Line, j: nat, X: block): word
    requires j < 80
  {
    Add(Add(Add(l.a, Bool(side, j, l.b, l.c, l.d)), X[Word(side, j)]), Constant(side, j))
  }

  // One step: rotate and add into the first register, then shift the registers along.
  function Step(side: Side, l: Line, j: nat, X: block): Line
    requires j < 80
  {
    Line(l.e, Add(Rol(Sum(side, l, j, X), Shift(side, j)), l.e), l.b, Rol(l.c, 10), l.d)
  }

  // The first n steps of a line.
  function Run(side: Side, l: Line, n: nat, X: block): Line
    requires n <= 80
    decreases n
  {
    if n == 0 then l else Step(side, Run(side, l, n - 1, X), n - 1, X)
  }

  // All five words of the chaining value are replaced simultaneously.
  function Combine(h: Line, l: Line, r: Line): Line
  {
    Line(Add(Add(h.b, l.c), r.d), Add(Add(h.c, l.d), r.e), Add(Add(h.d, l.e), r.a),
         Add(Add(h.e, l.a), r.b), Add(Add(h.a, l.b), r.c))
  }

  // Two independent lines of five rounds, one step per message word in each round, from the same
  // chaining value.
  function Compress(h: Line, X: block): Line
  {
    Combine(h, Run(LeftSide, h, 5 * |X|, X), Run(RightSide, h, 5 * |X|, X))
  }

  // The words of a line, counted modulo 5.
  function WordAt(l: Line, i: nat): word
  {
    match i % 5
    case 0 => l.a
    case 1 => l.b
    case 2 => l.c
    case 3 => l.d
    case _ => l.e
  }

  // Word i of the result adds word i + 1 of the chaining value, word i + 2 of the left line and word
  // i + 3 of the right line.
  lemma CombineAt(h: Line, l: Line, r: Line, i: nat)
    requires i < 5
    ensures WordAt(Combine(h, l, r), i) == Add(Add(WordAt(h, i + 1), WordAt(l, i + 2)), WordAt(r, i + 3))
  {
    hide Add;
  }

  lemma CompressAt(h: Line, X: block, i: nat)
    requires i < 5
    ensures WordAt(Compress(h, X), i) ==
      Add(Add(WordAt(h, i + 1), WordAt(Run(LeftSide, h, 80, X), i + 2)), WordAt(Run(RightSide, h, 80, X), i + 3))
  {
    hide Run, Add, Combine, WordAt;
    CombineAt(h, Run(LeftSide, h, 80, X), Run(RightSide, h, 80, X), i);
  }

  // k is the integer part of 2^30 times the square (cube) root of p.
  predicate IsSquareRoot(k: int, p: int) { k * k <= p * 0x1000_0000_0000_0000 < (k + 1) * (k + 1) }

  predicate IsCubeRoot(k: int, p: int)
  {
    k * k * k <= p * 0x400_0000_0000_0000_0000_0000 < (k + 1) * (k + 1) * (k + 1)
  }

  lemma ConstantsAreRoots()
    ensures IsSquareRoot(LEFT_CONSTANT[1] as int, 2) && IsSquareRoot(LEFT_CONSTANT[2] as int, 3)
         && IsSquareRoot(LEFT_CONSTANT[3] as int, 5) && IsSquareRoot(LEFT_CONSTANT[4] as int, 7)
    ensures IsCubeRoot(RIGHT_CONSTANT[0] as int, 2) && IsCubeRoot(RIGHT_CONSTANT[1] as int, 3)
         && IsCubeRoot(RIGHT_CONSTANT[2] as int, 5) && IsCubeRoot(RIGHT_CONSTANT[3] as int, 7)
  {
  }

  // The step run backwards.
  function Unstep(side: Side, l: Line, j: nat, X: block): Line
    requires j < 80
  {
    var c := Ror(l.d, 10);
    var t := Sub(Sub(Ror(Sub(l.b, l.a), Shift(side, j)), Constant(side, j)), X[Word(side, j)]);
    Line(Sub(t, Bool(side, j, l.c, c, l.e)), l.c, c, l.e, l.a)
  }

  function Unrun(side: Side, l: Line, n: nat, X: block): Line
    requires n <= 80
    decreases n
  {
    if n == 0 then l else Unrun(side, Unstep(side, l, n - 1, X), n - 1, X)
  }

  lemma UnstepInverts(side: Side, l: Line, j: nat, X: block)
    requires j < 80
    ensures Unstep(side, Step(side, l, j, X), j, X) == l
    ensures Step(side, Unstep(side, l, j, X), j, X) == l
  {
    hide Rol, Ror, Add, Sub, Bool, Constant, Shift, Word;
    var s, k, x := Shift(side, j), Constant(side, j), X[Word(side, j)];
    RotationsCancel(s);
    RotationsCancel(10);
    var f := Bool(side, j, l.b, l.c, l.d);
    AddSub(Rol(Sum(side, l, j, X), s), l.e);
    AddSub(Add(Add(l.a, f), x), k);
    AddSub(Add(l.a, f), x);
    AddSub(l.a, f);
    var t := Ror(Sub(l.b, l.a), s);
    AddSub(l.b, l.a);
    AddSub(t, k);
    AddSub(Sub(t, k), x);
    AddSub(Sub(Sub(t, k), x), Bool(side, j, l.c, Ror(l.d, 10), l.e));
  }

  // Each line is a bijection on five-word states, for every block.
  lemma {:induction false} LineIsBijection(side: Side, l: Line, n: nat, X: block)
    requires n <= 80
    ensures Unrun(side, Run(side, l, n, X), n, X) == l
    ensures Run(side, Unrun(side, l, n, X), n, X) == l
    decreases n
  {
    hide Step, Unstep;
    if n > 0 {
      UnstepInverts(side, Run(side, l, n - 1, X), n - 1, X);
      LineIsBijection(side, l, n - 1, X);
      UnstepInverts(side, l, n - 1, X);
      LineIsBijection(side, Unstep(side, l, n - 1, X), n - 1, X);
    }
  }
}
