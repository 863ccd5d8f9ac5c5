/**
 What the Java class hashes, as a function of the bytes fed to it: the 16-word working buffer,
 the blocks handed to compress, the padding added by MDfinish, and the digest.
 */
module RipemdMessage {
  import opened Words
  import opened JavaInts
  import Std = RipemdStandard

  // ((int) b) << 8k. The cast to int keeps the sign of the byte.
  function SignExtend(b: byte): word { if b < 0x80 then b as word else 0xFFFF_FF00 | (b as word) }

  function Slot(b: byte, k: nat, signed: bool): word
    requires k < 4
  {
    var x := if signed then SignExtend(b) else b as word;
    match k
    case 0 => x
    case 1 => x << 8
    case 2 => x << 16
    case 3 => x << 24
  }

  function Xor(x: word, y: word): word { x ^ y }

  function Zeros(n: nat): (s: seq<word>)
    ensures |s| == n && forall i | 0 <= i < n :: s[i] == 0
  {
    seq(n, _ => 0)
  }

  // Xor-ing byte x into position r of the buffer.
  function Filled(X: block, r: nat, x: byte): block
    requires r < 64
  {
    X[r / 4 := Xor(X[r / 4], Slot(x, r % 4, true))]
  }

  // The working buffer after the bytes bs were XORed into it from position 0.
  function Buffer(bs: seq<byte>): block
    requires |bs| <= 64
  {
    if bs == [] then Zeros(16) else
      Filled(Buffer(bs[..|bs| - 1]), |bs| - 1, bs[|bs| - 1])
  }

  // The first k full blocks of the message.
  function FullBlocks(data: seq<byte>, k: nat): (bs: seq<block>)
    requires 64 * k <= |data|
    ensures |bs| == k && forall i | 0 <= i < k :: bs[i] == Buffer(data[64 * i..64 * i + 64])
  {
    if k == 0 then [] else FullBlocks(data, k - 1) + [Buffer(data[64 * (k - 1)..64 * (k - 1) + 64])]
  }

  // The bytes that have not filled a block yet.
  function Tail(data: seq<byte>): (t: seq<byte>)
    ensures |t| == |data| % 64
  {
    data[64 * (|data| / 64)..]
  }

  // The one or two blocks MDfinish compresses, from the working buffer and the byte count msglen.
  function FinalBlocks(X: block, msglen: int): (bs: seq<block>)
    ensures |bs| == (if msglen % 64 > 55 then 2 else 1)
  {
    var w := (msglen / 4) % 16;
    var marked := X[w := Xor(X[w], Slot(0x80, msglen % 4, false))];
    if msglen % 64 > 55
    then [marked, WithLength(Zeros(16), msglen)]
    else [WithLength(marked, msglen)]
  }

  // X[14] = msglen << 3; X[15] = msglen >> 29, both of them int operations.
  function WithLength(X: block, msglen: int): block
  {
    X[14 := ToWord(8 * msglen)][15 := ToWord(msglen / 0x2000_0000)]
  }

  // Every block compressed while data is hashed.
  function Blocks(data: seq<byte>): seq<block>
  {
    FullBlocks(data, |data| / 64) + FinalBlocks(Buffer(Tail(data)), Int32(|data|))
  }

  // Compressing blocks one after the other.
  function Fold(h: Std.Line, bs: seq<block>): Std.Line
    decreases |bs|
  {
    if bs == [] then h else Std.Compress(Fold(h, bs[..|bs| - 1]), bs[|bs| - 1])
  }

  // The chaining value after data has been fed, before finishing.
  function Chain(data: seq<byte>): Std.Line { Fold(Std.INITIAL, FullBlocks(data, |data| / 64)) }

  function Final(data: seq<byte>): Std.Line { Fold(Std.INITIAL, Blocks(data)) }

  function ByteOf(x: word, k: nat): byte
    requires k < 4
  {
    match k
    case 0 => (x & 0xFF) as byte
    case 1 => ((x >> 8) & 0xFF) as byte
    case 2 => ((x >> 16) & 0xFF) as byte
    case 3 => ((x >> 24) & 0xFF) as byte
  }

  // The five words, little-endian: byte i is byte i mod 4 of word i / 4.
  function Serialize(l: Std.Line): (bs: seq<byte>)
    ensures |bs| == 20
  {
    var words := [l.a, l.b, l.c, l.d, l.e];
    seq(20, i requires 0 <= i < 20 => ByteOf(words[i / 4], i % 4))
  }

  function Digest(data: seq<byte>): (bs: seq<byte>)
    ensures |bs| == 20
  {
    Serialize(Final(data))
  }

  // The initial words count the hex digits up, down and up again, byte by byte.
  lemma InitialBytes()
    ensures Serialize(Std.INITIAL) ==
      [0x01, 0x23, 0x45, 0x67, 0x89, 0xab, 0xcd, 0xef, 0xfe, 0xdc,
       0xba, 0x98, 0x76, 0x54, 0x32, 0x10, 0xf0, 0xe1, 0xd2, 0xc3]
  {
  }

  lemma FoldSnoc(h: Std.Line, bs: seq<block>, b: block)
    ensures Fold(h, bs + [b]) == Std.Compress(Fold(h, bs), b)
  {
    hide Std.Compress;
    assert (bs + [b])[..|bs|] == bs;
  }

  lemma {:induction false} FullBlocksOfPrefix(data: seq<byte>, x: byte, k: nat)
    requires 64 * k <= |data|
    ensures FullBlocks(data + [x], k) == FullBlocks(data, k)
  {
    hide Buffer;
    if k > 0 {
      FullBlocksOfPrefix(data, x, k - 1);
      SliceOfPrefix(data, x, 64 * (k - 1), 64 * (k - 1) + 64);
    }
  }

  lemma SliceOfPrefix(data: seq<byte>, x: byte, lo: nat, hi: nat)
    requires lo <= hi <= |data|
    ensures (data + [x])[lo..hi] == data[lo..hi]
  {
  }

  lemma BufferSnoc(bs: seq<byte>, x: byte)
    requires |bs| < 64
    ensures Buffer(bs + [x]) == Filled(Buffer(bs), |bs|, x)
  {
    hide Slot, Xor;
    assert (bs + [x])[..|bs|] == bs;
  }

  // One more byte: into the buffer, and into the chaining value when the buffer fills up.
  lemma FeedByteInside(data: seq<byte>, x: byte)
    requires |data| % 64 < 63
    ensures Chain(data + [x]) == Chain(data)
    ensures Buffer(Tail(data + [x])) == Filled(Buffer(Tail(data)), |data| % 64, x)
  {
    hide Filled, Fold;
    FullBlocksOfPrefix(data, x, |data| / 64);
    assert Tail(data + [x]) == Tail(data) + [x];
    BufferSnoc(Tail(data), x);
  }

  lemma FeedByteLast(data: seq<byte>, x: byte)
    requires |data| % 64 == 63
    ensures Chain(data + [x]) == Std.Compress(Chain(data), Filled(Buffer(Tail(data)), 63, x))
    ensures Tail(data + [x]) == [] && Buffer([]) == Zeros(16)
  {
    hide Filled, Fold, Std.Compress;
    var q := |data| / 64;
    FullBlocksOfPrefix(data, x, q);
    assert (data + [x])[64 * q..64 * q + 64] == Tail(data) + [x];
    BufferSnoc(Tail(data), x);
    FoldSnoc(Std.INITIAL, FullBlocks(data, q), Buffer(Tail(data) + [x]));
  }

  // What MDfinish does to the chaining value and the buffer is what Blocks says.
  lemma FinishFolds(data: seq<byte>)
    ensures var last := FinalBlocks(Buffer(Tail(data)), Int32(|data|));
      Final(data) == if |last| == 1 then Std.Compress(Chain(data), last[0])
                     else Std.Compress(Std.Compress(Chain(data), last[0]), last[1])
  {
    hide Buffer, FinalBlocks, Std.Compress;
    var full := FullBlocks(data, |data| / 64);
    var last := FinalBlocks(Buffer(Tail(data)), Int32(|data|));
    FoldSnoc(Std.INITIAL, full, last[0]);
    if |last| == 1 {
      assert Blocks(data) == full + [last[0]];
    } else {
      assert Blocks(data) == full + [last[0]] + [last[1]];
      FoldSnoc(Std.INITIAL, full + [last[0]], last[1]);
    }
  }
}
