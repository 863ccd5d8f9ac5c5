/**
 Which messages the Java class hashes as RIPEMD-160 prescribes. The standard's message blocks follow
 sections 3.1 and 3.2 of RFC 1320: one byte 0x80, the fewest zeros that bring the length to 56 modulo
 64, then the bit count modulo 2^64 as two words, low-order word first; bytes are packed little-endian.
 The class packs sign-extended bytes with XOR and counts bytes in an int.
 */
module RipemdPadding {
  import opened Words
  import opened JavaInts
  import opened RipemdMessage
  import Std = RipemdStandard

  const TWO_61 := 0x2000_0000_0000_0000

  // ceil((n + 9) / 64)
  function BlocksNeeded(n: nat): nat { (n + 9 + 63) / 64 }

  function Padded(m: seq<byte>): (p: seq<byte>)
    ensures |p| == 64 * BlocksNeeded(|m|) - 8
    ensures forall i | 0 <= i < |p| :: p[i] == if i < |m| then m[i] else if i == |m| then 0x80 else 0
  {
    m + [0x80] + seq((55 - |m|) % 64, _ => 0)
  }

  function LittleEndian(b0: byte, b1: byte, b2: byte, b3: byte): word
  {
    (b0 as word) | ((b1 as word) << 8) | ((b2 as word) << 16) | ((b3 as word) << 24)
  }

  // The first byte is the lowest.
  lemma LittleEndianBytes(b0: byte, b1: byte, b2: byte, b3: byte)
    ensures var w := LittleEndian(b0, b1, b2, b3);
      && w & 0xFF == b0 as word && (w >> 8) & 0xFF == b1 as word
      && (w >> 16) & 0xFF == b2 as word && w >> 24 == b3 as word
  {
  }

  function PackedWord(p: seq<byte>, i: nat): word
    requires 4 * i + 3 < |p|
  {
    LittleEndian(p[4 * i], p[4 * i + 1], p[4 * i + 2], p[4 * i + 3])
  }

  function PackedWords(p: seq<byte>, n: nat): (ws: seq<word>)
    requires 4 * n <= |p|
    ensures |ws| == n && forall i | 0 <= i < n :: ws[i] == PackedWord(p, i)
  {
    seq(n, i requires 0 <= i < n => PackedWord(p, i))
  }

  function StdWords(m: seq<byte>): (ws: seq<word>)
    ensures |ws| == 16 * BlocksNeeded(|m|)
  {
    PackedWords(Padded(m), 16 * BlocksNeeded(|m|) - 2) + [ToWord(8 * |m|), ToWord(8 * |m| / TWO_32)]
  }

  function StdBlock(m: seq<byte>, i: nat): block
    requires i < BlocksNeeded(|m|)
  {
    StdWords(m)[16 * i..16 * i + 16]
  }

  function StdBlocks(m: seq<byte>): (bs: seq<block>)
    ensures |bs| == BlocksNeeded(|m|)
  {
    seq(BlocksNeeded(|m|), i requires 0 <= i < BlocksNeeded(|m|) => StdBlock(m, i))
  }

  function StdDigest(m: seq<byte>): seq<byte> { Serialize(Fold(Std.INITIAL, StdBlocks(m))) }

  // Exactly the blocks needed are compressed, on both branches of MDfinish.
  lemma BlockCount(data: seq<byte>)
    ensures |Blocks(data)| == BlocksNeeded(|data|)
  {
    hide Buffer, FinalBlocks;
    SameRemainder(|data|);
  }

  lemma SameRemainder(n: nat)
    ensures Int32(n) % 64 == n % 64
  {
    var k := (Int32(n) - n) / TWO_32;
    assert Int32(n) == n + 64 * (k * 0x400_0000);
  }

  // ---- words as four slots ----

  function Xor4(a: word, b: word, c: word, d: word): word { Xor(Xor(Xor(a, b), c), d) }

  lemma XorInto(a: word, b: word, c: word, t: word)
    ensures Xor(Xor4(0, 0, 0, 0), t) == Xor4(t, 0, 0, 0)
    ensures Xor(Xor4(a, 0, 0, 0), t) == Xor4(a, t, 0, 0)
    ensures Xor(Xor4(a, b, 0, 0), t) == Xor4(a, b, t, 0)
    ensures Xor(Xor4(a, b, c, 0), t) == Xor4(a, b, c, t)
  {
  }

  lemma ZeroSlots()
    ensures forall k: nat, s: bool | k < 4 :: Slot(0, k, s) == 0
    ensures Xor4(0, 0, 0, 0) == 0
  {
  }

  // What the sign of a byte flips in its word: every bit above it.
  function SignMask(b: byte, k: nat, signed: bool): word
  {
    if !signed || b < 0x80 then 0
    else match k
         case 0 => 0xFFFF_FF00
         case 1 => 0xFFFF_0000
         case 2 => 0xFF00_0000
         case _ => 0
  }

  lemma SlotSigned(b: byte, k: nat, signed: bool)
    requires k < 4
    ensures Slot(b, k, signed) == Xor(Slot(b, k, false), SignMask(b, k, signed))
  {
    if signed {
      if b < 0x80 {
        SlotPositive(b, k);
      } else if k == 0 {
        SlotNegative0(b);
      } else if k == 1 {
        SlotNegative1(b);
      } else if k == 2 {
        SlotNegative2(b);
      } else {
        SlotNegative3(b);
      }
    }
  }

  lemma SlotPositive(b: byte, k: nat)
    requires k < 4 && b < 0x80
    ensures Slot(b, k, true) == Slot(b, k, false)
  {
  }

  lemma SlotNegative0(b: byte)
    requires b >= 0x80
    ensures Slot(b, 0, true) == Xor(Slot(b, 0, false), 0xFFFF_FF00)
  {
  }

  lemma SlotNegative1(b: byte)
    requires b >= 0x80
    ensures Slot(b, 1, true) == Xor(Slot(b, 1, false), 0xFFFF_0000)
  {
  }

  lemma SlotNegative2(b: byte)
    requires b >= 0x80
    ensures Slot(b, 2, true) == Xor(Slot(b, 2, false), 0xFF00_0000)
  {
  }

  lemma SlotNegative3(b: byte)
    requires b >= 0x80
    ensures Slot(b, 3, true) == Slot(b, 3, false)
  {
  }

  lemma UnsignedSlots(b0: byte, b1: byte, b2: byte, b3: byte)
    ensures Xor4(Slot(b0, 0, false), Slot(b1, 1, false), Slot(b2, 2, false), Slot(b3, 3, false))
      == LittleEndian(b0, b1, b2, b3)
  {
  }

  lemma XorMasks(a: word, b: word, c: word, d: word, k: word, l: word, m: word, n: word)
    ensures Xor4(Xor(a, k), Xor(b, l), Xor(c, m), Xor(d, n)) == Xor(Xor4(a, b, c, d), Xor4(k, l, m, n))
  {
    hide Xor;
    XorSwap(a, k, b, l);
    XorSwap(Xor(a, b), Xor(k, l), c, m);
    XorSwap(Xor(Xor(a, b), c), Xor(Xor(k, l), m), d, n);
  }

  lemma XorSwap(a: word, k: word, b: word, l: word)
    ensures Xor(Xor(a, k), Xor(b, l)) == Xor(Xor(a, b), Xor(k, l))
  {
    hide Xor;
    XorAssociates(Xor(a, k), b, l);
    XorAssociates(a, k, b);
    XorCommutes(k, b);
    XorAssociates(a, b, k);
    XorAssociates(Xor(a, b), k, l);
  }

  lemma XorAssociates(a: word, b: word, c: word)
    ensures Xor(Xor(a, b), c) == Xor(a, Xor(b, c))
  {
  }

  lemma XorCommutes(a: word, b: word)
    ensures Xor(a, b) == Xor(b, a)
  {
  }

  lemma XorKeeps(w: word, m: word)
    ensures Xor(w, m) == w <==> m == 0
  {
  }

  // The masks of three bytes cancel only if there are none.
  lemma MasksCancel(b0: byte, b1: byte, b2: byte, b3: byte, s0: bool, s1: bool, s2: bool, s3: bool)
    ensures Xor4(SignMask(b0, 0, s0), SignMask(b1, 1, s1), SignMask(b2, 2, s2), SignMask(b3, 3, s3)) == 0
      <==> (s0 ==> b0 < 0x80) && (s1 ==> b1 < 0x80) && (s2 ==> b2 < 0x80)
  {
  }

  // Sign extension disturbs a packed word exactly when one of its first three bytes is negative.
  lemma SignedSlots(b0: byte, b1: byte, b2: byte, b3: byte, s0: bool, s1: bool, s2: bool, s3: bool)
    ensures Xor4(Slot(b0, 0, s0), Slot(b1, 1, s1), Slot(b2, 2, s2), Slot(b3, 3, s3)) == LittleEndian(b0, b1, b2, b3)
      <==> (s0 ==> b0 < 0x80) && (s1 ==> b1 < 0x80) && (s2 ==> b2 < 0x80)
  {
    hide Slot, Xor, Xor4, LittleEndian, SignMask;
    SlotSigned(b0, 0, s0);
    SlotSigned(b1, 1, s1);
    SlotSigned(b2, 2, s2);
    SlotSigned(b3, 3, s3);
    UnsignedSlots(b0, b1, b2, b3);
    XorMasks(Slot(b0, 0, false), Slot(b1, 1, false), Slot(b2, 2, false), Slot(b3, 3, false),
             SignMask(b0, 0, s0), SignMask(b1, 1, s1), SignMask(b2, 2, s2), SignMask(b3, 3, s3));
    XorKeeps(LittleEndian(b0, b1, b2, b3),
             Xor4(SignMask(b0, 0, s0), SignMask(b1, 1, s1), SignMask(b2, 2, s2), SignMask(b3, 3, s3)));
    MasksCancel(b0, b1, b2, b3, s0, s1, s2, s3);
  }

  // What byte j of bs contributes to its word of the buffer.
  function Term(bs: seq<byte>, j: nat): word { if j < |bs| then Slot(bs[j], j % 4, true) else 0 }

  function BufferWord(bs: seq<byte>, w: nat): word
  {
    Xor4(Term(bs, 4 * w), Term(bs, 4 * w + 1), Term(bs, 4 * w + 2), Term(bs, 4 * w + 3))
  }

  // Xor-ing t behind the last byte fills the slot after it.
  lemma AppendTerm(bs: seq<byte>, t: word)
    requires |bs| < 64
    ensures var w, k := |bs| / 4, |bs| % 4;
      Xor(BufferWord(bs, w), t) ==
        Xor4(if k == 0 then t else Term(bs, 4 * w), if k == 1 then t else Term(bs, 4 * w + 1),
             if k == 2 then t else Term(bs, 4 * w + 2), if k == 3 then t else Term(bs, 4 * w + 3))
  {
    hide Slot, Xor, Xor4;
    var w := |bs| / 4;
    XorInto(Term(bs, 4 * w), Term(bs, 4 * w + 1), Term(bs, 4 * w + 2), t);
  }

  lemma {:induction false} BufferWords(bs: seq<byte>, w: nat)
    requires |bs| <= 64 && w < 16
    ensures Buffer(bs)[w] == BufferWord(bs, w)
  {
    hide BufferWord, Filled;
    if bs == [] {
      NoTerms(w);
    } else {
      var p := |bs| - 1;
      BufferWords(bs[..p], w);
      if w == p / 4 {
        FilledWord(bs, Buffer(bs[..p]));
      } else {
        OtherWord(bs, Buffer(bs[..p]), w);
      }
    }
  }

  lemma FilledWord(bs: seq<byte>, X: block)
    requires 0 < |bs| <= 64
    requires var p := |bs| - 1; X[p / 4] == BufferWord(bs[..p], p / 4)
    ensures var p := |bs| - 1; Filled(X, p, bs[p])[p / 4] == BufferWord(bs, p / 4)
  {
    hide Slot, Xor, Xor4, Term;
    var p := |bs| - 1;
    var w := p / 4;
    TermFront(bs, 4 * w);
    TermFront(bs, 4 * w + 1);
    TermFront(bs, 4 * w + 2);
    TermFront(bs, 4 * w + 3);
    AppendTerm(bs[..p], Slot(bs[p], p % 4, true));
  }

  lemma OtherWord(bs: seq<byte>, X: block, w: nat)
    requires 0 < |bs| <= 64 && w < 16 && w != (|bs| - 1) / 4
    requires var p := |bs| - 1; X[w] == BufferWord(bs[..p], w)
    ensures var p := |bs| - 1; Filled(X, p, bs[p])[w] == BufferWord(bs, w)
  {
    hide Slot, Xor, Xor4, Term;
    TermFront(bs, 4 * w);
    TermFront(bs, 4 * w + 1);
    TermFront(bs, 4 * w + 2);
    TermFront(bs, 4 * w + 3);
  }

  lemma NoTerms(w: nat)
    ensures BufferWord([], w) == 0
  {
    ZeroSlots();
  }

  lemma TermFront(bs: seq<byte>, j: nat)
    requires bs != []
    ensures var p := |bs| - 1;
      && (j == p ==> Term(bs[..p], j) == 0 && Term(bs, j) == Slot(bs[p], p % 4, true))
      && (j != p ==> Term(bs[..p], j) == Term(bs, j))
      && (j > p ==> Term(bs, j) == 0)
  {
    hide Slot;
  }

  // ---- the blocks of the class, word by word ----

  function CodeTerm(data: seq<byte>, j: nat): word
    requires j < |Padded(data)|
  {
    Slot(Padded(data)[j], j % 4, j < |data|)
  }

  function CodeWord(data: seq<byte>, j: nat): word
    requires 4 * j + 3 < |Padded(data)|
  {
    Xor4(CodeTerm(data, 4 * j), CodeTerm(data, 4 * j + 1), CodeTerm(data, 4 * j + 2), CodeTerm(data, 4 * j + 3))
  }

  lemma FullBlockTerm(data: seq<byte>, i: nat, j: nat)
    requires i < |data| / 64 && j < 64
    ensures 64 * i + j < |data| && Term(data[64 * i..64 * i + 64], j) == CodeTerm(data, 64 * i + j)
  {
    hide Slot;
    assert 64 * i + j < |data| && (64 * i + j) % 4 == j % 4;
    assert data[64 * i..64 * i + 64][j] == data[64 * i + j];
  }

  lemma FullBlockWord(data: seq<byte>, i: nat, w: nat)
    requires i < |data| / 64 && w < 16
    ensures Buffer(data[64 * i..64 * i + 64])[w] == CodeWord(data, 16 * i + w)
  {
    hide Buffer, Term, CodeTerm, Xor4;
    BufferWords(data[64 * i..64 * i + 64], w);
    FullBlockTerm(data, i, 4 * w);
    FullBlockTerm(data, i, 4 * w + 1);
    FullBlockTerm(data, i, 4 * w + 2);
    FullBlockTerm(data, i, 4 * w + 3);
  }

  function Marked(data: seq<byte>): block
  {
    var X, r := Buffer(Tail(data)), |data| % 64;
    X[r / 4 := Xor(X[r / 4], Slot(0x80, r % 4, false))]
  }

  lemma MarkedTerm(data: seq<byte>, j: nat)
    requires 64 * (|data| / 64) + j < |Padded(data)|
    ensures CodeTerm(data, 64 * (|data| / 64) + j) ==
      if j == |data| % 64 then Slot(0x80, j % 4, false) else Term(Tail(data), j)
  {
    hide Slot, Padded, BlocksNeeded;
    ZeroSlots();
    InLastBlock(|data|, j);
  }

  lemma InLastBlock(n: nat, j: nat)
    ensures (64 * (n / 64) + j) % 4 == j % 4
    ensures 64 * (n / 64) + j < n <==> j < n % 64
    ensures 64 * (n / 64) + j == n <==> j == n % 64
  {
  }

  lemma MarkedWord(data: seq<byte>, w: nat)
    requires w < 16 && 16 * (|data| / 64) + w < 16 * BlocksNeeded(|data|) - 2
    ensures Marked(data)[w] == CodeWord(data, 16 * (|data| / 64) + w)
  {
    hide Buffer, Slot, Xor, Xor4, CodeTerm, Term;
    var tail := Tail(data);
    BufferWords(tail, w);
    MarkedTerm(data, 4 * w);
    MarkedTerm(data, 4 * w + 1);
    MarkedTerm(data, 4 * w + 2);
    MarkedTerm(data, 4 * w + 3);
    if w == |tail| / 4 {
      AppendTerm(tail, Slot(0x80, |tail| % 4, false));
    }
  }

  lemma LastBlocks(data: seq<byte>)
    ensures var q, r, n := |data| / 64, |data| % 64, Int32(|data|);
      if r > 55 then |Blocks(data)| == q + 2 && Blocks(data)[q] == Marked(data)
                  && Blocks(data)[q + 1] == WithLength(Zeros(16), n)
      else |Blocks(data)| == q + 1 && Blocks(data)[q] == WithLength(Marked(data), n)
  {
    hide Slot, Xor, Buffer, FullBlocks, WithLength, Tail, Zeros;
    FinalIs(Buffer(Tail(data)), |data|);
    var full, last := FullBlocks(data, |data| / 64), FinalBlocks(Buffer(Tail(data)), Int32(|data|));
    assert forall i | 0 <= i < |last| :: (full + last)[|full| + i] == last[i];
  }

  // The mark goes where the bytes end, although the int counter may have wrapped around.
  lemma FinalIs(X: block, n: nat)
    ensures var r := n % 64;
      var marked: block := X[r / 4 := Xor(X[r / 4], Slot(0x80, r % 4, false))];
      FinalBlocks(X, Int32(n)) ==
        if r > 55 then [marked, WithLength(Zeros(16), Int32(n))] else [WithLength(marked, Int32(n))]
  {
    hide Slot, Xor, WithLength, Int32;
    SameRemainder(n);
    Quarter(Int32(n));
    Quarter(n);
  }

  lemma Quarter(n: int)
    ensures (n / 4) % 16 == (n % 64) / 4 && n % 4 == (n % 64) % 4
  {
  }

  // Every word but the last two is the packed, partly sign-extended padded message.
  lemma BlockWord(data: seq<byte>, i: nat, w: nat)
    requires i < |Blocks(data)| && w < 16 && 16 * i + w < 16 * BlocksNeeded(|data|) - 2
    ensures Blocks(data)[i][w] == CodeWord(data, 16 * i + w)
  {
    hide Slot, Xor, Xor4, Buffer;
    BlockCount(data);
    LastBlocks(data);
    var q := |data| / 64;
    if i < q {
      FullBlockWord(data, i, w);
      assert Blocks(data)[i] == Buffer(data[64 * i..64 * i + 64]);
    } else if i == q {
      MarkedWord(data, w);
    } else {
      ZeroSlots();
    }
  }

  lemma LengthWords(data: seq<byte>)
    ensures var bs := Blocks(data);
      |bs| > 0 && bs[|bs| - 1][14] == ToWord(8 * Int32(|data|))
        && bs[|bs| - 1][15] == ToWord(Int32(|data|) / 0x2000_0000)
  {
    hide Slot, Xor, Buffer;
    LastBlocks(data);
  }

  // ---- conformance ----

  // The guard a caller can check on the number of bytes.
  predicate LengthFits(n: nat) { n % TWO_61 < TWO_31 || n % TWO_61 >= TWO_61 - TWO_31 }

  predicate BytesFit(data: seq<byte>) { forall j | 0 <= j < |data| && j % 4 != 3 :: data[j] < 0x80 }

  lemma LowLengthWord(n: nat)
    ensures ToWord(8 * Int32(n)) == ToWord(8 * n)
  {
    var k := (Int32(n) - n) / TWO_32;
    assert 8 * Int32(n) == 8 * n + TWO_32 * (8 * k);
    ModPeriod(8 * n, 8 * k);
  }

  lemma SplitLength(n: nat)
    ensures var q, m := n / TWO_32, n % TWO_32;
      && 8 * n / TWO_32 == 8 * q + m / 0x2000_0000
      && n % TWO_61 == TWO_32 * (q % 0x2000_0000) + m
      && Int32(n) / 0x2000_0000 == (if m < TWO_31 then m / 0x2000_0000 else m / 0x2000_0000 - 8)
  {
  }

  lemma HighSmall(q: nat, k: int)
    requires 0 <= k < 4
    ensures k % TWO_32 == (8 * q + k) % TWO_32 <==> q % 0x2000_0000 == 0
  {
    var s := q % 0x2000_0000;
    Reduced(q, k);
    assert 0 <= 8 * s + k < TWO_32;
  }

  lemma HighLarge(q: nat, k: int)
    requires 4 <= k < 8
    ensures (k - 8) % TWO_32 == (8 * q + k) % TWO_32 <==> q % 0x2000_0000 == 0x1FFF_FFFF
  {
    var s := q % 0x2000_0000;
    Reduced(q, k);
    assert 0 <= 8 * s + k < TWO_32 && (k - 8) % TWO_32 == TWO_32 + k - 8;
  }

  lemma Reduced(q: nat, k: int)
    ensures (8 * q + k) % TWO_32 == (8 * (q % 0x2000_0000) + k) % TWO_32
  {
    var d := q / 0x2000_0000;
    assert 8 * q + k == 8 * (q % 0x2000_0000) + k + TWO_32 * d;
    Period(8 * (q % 0x2000_0000) + k, d);
  }

  lemma Period(x: int, d: int)
    ensures (x + TWO_32 * d) % TWO_32 == x % TWO_32
  {
  }

  lemma FitsIs(n: nat)
    ensures var q, m := n / TWO_32, n % TWO_32;
      LengthFits(n) <==> if m < TWO_31 then q % 0x2000_0000 == 0 else q % 0x2000_0000 == 0x1FFF_FFFF
  {
    SplitLength(n);
  }

  // The high word is the one place where an int is too short for the bit count.
  lemma HighLengthWord(n: nat)
    ensures ToWord(Int32(n) / 0x2000_0000) == ToWord(8 * n / TWO_32) <==> LengthFits(n)
  {
    hide Int32, LengthFits;
    var q, m := n / TWO_32, n % TWO_32;
    SplitLength(n);
    FitsIs(n);
    var k := m / 0x2000_0000;
    if m < TWO_31 {
      HighSmall(q, k);
    } else {
      HighLarge(q, k);
    }
    var x, y := (Int32(n) / 0x2000_0000) % TWO_32, (8 * n / TWO_32) % TWO_32;
    if Pattern(x) == Pattern(y) {
      PatternInjective(x, y);
    }
  }

  // One word of the padded message.
  lemma WordConforms(data: seq<byte>, j: nat)
    requires j < 16 * BlocksNeeded(|data|) - 2
    ensures CodeWord(data, j) == PackedWord(Padded(data), j) <==>
      forall k | 4 * j <= k < 4 * j + 3 && k < |data| :: data[k] < 0x80
  {
    hide LittleEndian, Xor4, Slot;
    var p, n := Padded(data), |data|;
    SignedSlots(p[4 * j], p[4 * j + 1], p[4 * j + 2], p[4 * j + 3],
                4 * j < n, 4 * j + 1 < n, 4 * j + 2 < n, 4 * j + 3 < n);
  }

  /**
   The class compresses exactly the standard's blocks if and only if no negative byte stands at a
   position other than 3 modulo 4 and the byte count fits.
   */
  lemma BlocksConform(data: seq<byte>)
    ensures Blocks(data) == StdBlocks(data) <==> BytesFit(data) && LengthFits(|data|)
  {
    hide Blocks, StdBlock, ToWord, BlocksNeeded, LengthFits;
    var N := BlocksNeeded(|data|);
    BlockCount(data);
    LengthWords(data);
    LowLengthWord(|data|);
    HighLengthWord(|data|);
    LastWords(data);
    if Blocks(data) == StdBlocks(data) {
      forall j | 0 <= j < |data| && j % 4 != 3
        ensures data[j] < 0x80
      {
        ByteConforms(data, j);
      }
    }
    if BytesFit(data) && LengthFits(|data|) {
      forall i | 0 <= i < N
        ensures Blocks(data)[i] == StdBlock(data, i)
      {
        BlockConforms(data, i);
      }
    }
  }

  // Where the blocks agree, so do the words, and the byte at j is not negative.
  lemma ByteConforms(data: seq<byte>, j: nat)
    requires Blocks(data) == StdBlocks(data) && j < |data| && j % 4 != 3
    ensures data[j] < 0x80
  {
    hide Blocks, CodeWord, PackedWord, ToWord, Padded, BlocksNeeded;
    var i, w := j / 64, (j % 64) / 4;
    WordOfByte(|data|, j);
    BlockWord(data, i, w);
    WordConforms(data, j / 4);
    assert StdBlock(data, i)[w] == StdWords(data)[j / 4];
  }

  lemma WordOfByte(n: nat, j: nat)
    requires j < n
    ensures var i, w := j / 64, (j % 64) / 4;
      && i < BlocksNeeded(n) && w < 16 && 16 * i + w == j / 4 && j / 4 < 16 * BlocksNeeded(n) - 2
    ensures j % 4 != 3 ==> 4 * (j / 4) <= j < 4 * (j / 4) + 3
  {
  }

  lemma BlockConforms(data: seq<byte>, i: nat)
    requires BytesFit(data) && LengthFits(|data|) && i < BlocksNeeded(|data|) == |Blocks(data)|
    ensures Blocks(data)[i] == StdBlock(data, i)
  {
    hide Blocks, StdBlock, BytesFit, LengthFits;
    forall w | 0 <= w < 16
      ensures Blocks(data)[i][w] == StdBlock(data, i)[w]
    {
      if 16 * i + w < 16 * BlocksNeeded(|data|) - 2 {
        WordAgrees(data, i, w);
      } else {
        LengthAgrees(data, w);
      }
    }
  }

  lemma LengthAgrees(data: seq<byte>, w: nat)
    requires LengthFits(|data|) && BlocksNeeded(|data|) == |Blocks(data)| && 14 <= w < 16
    ensures var n := BlocksNeeded(|data|);
      n > 0 && Blocks(data)[n - 1][w] == StdBlock(data, n - 1)[w]
  {
    hide Blocks, StdBlock, ToWord, LengthFits, BlocksNeeded;
    LengthWords(data);
    LowLengthWord(|data|);
    HighLengthWord(|data|);
    LastWords(data);
  }

  lemma LastWords(data: seq<byte>)
    ensures var n := BlocksNeeded(|data|);
      && n > 0
      && StdBlock(data, n - 1)[14] == ToWord(8 * |data|) && StdBlock(data, n - 1)[15] == ToWord(8 * |data| / TWO_32)
  {
    hide ToWord, Padded;
  }

  lemma WordAgrees(data: seq<byte>, i: nat, w: nat)
    requires BytesFit(data) && i < BlocksNeeded(|data|) == |Blocks(data)| && w < 16
    requires 16 * i + w < 16 * BlocksNeeded(|data|) - 2
    ensures Blocks(data)[i][w] == StdBlock(data, i)[w]
  {
    hide Blocks, CodeWord, PackedWord, ToWord, Padded, BlocksNeeded;
    var j := 16 * i + w;
    BlockWord(data, i, w);
    WordConforms(data, j);
    forall k | 4 * j <= k < 4 * j + 3 && k < |data|
      ensures data[k] < 0x80
    {
      assert k % 4 != 3;
    }
    assert StdBlock(data, i)[w] == StdWords(data)[j];
  }

  // So for such messages the class computes RIPEMD-160.
  lemma DigestConforms(data: seq<byte>)
    requires BytesFit(data) && LengthFits(|data|)
    ensures Digest(data) == StdDigest(data)
  {
    BlocksConform(data);
  }

  // Two bytes suffice to leave the standard: the sign of the first spills over the second.
  lemma NegativeByteDeviates()
    ensures Blocks([0x80, 0]) != StdBlocks([0x80, 0])
  {
    BlocksConform([0x80, 0]);
    assert [0x80, 0][0] == 0x80 as byte;
  }

  // The digest holds the final chaining value, each word little-endian.
  lemma SerializeKeepsWords(l: Std.Line, i: nat)
    requires i < 5
    ensures PackedWord(Serialize(l), i) == [l.a, l.b, l.c, l.d, l.e][i]
  {
    hide ByteOf, LittleEndian;
    var words := [l.a, l.b, l.c, l.d, l.e];
    assert (4 * i) / 4 == i && (4 * i + 1) / 4 == i && (4 * i + 2) / 4 == i && (4 * i + 3) / 4 == i;
    UnpackedWord(words[i]);
  }

  lemma UnpackedWord(x: word)
    ensures LittleEndian(ByteOf(x, 0), ByteOf(x, 1), ByteOf(x, 2), ByteOf(x, 3)) == x
  {
  }
}
