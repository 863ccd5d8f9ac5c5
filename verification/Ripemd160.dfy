/**
 The streaming hash object. Valid() pins every field to a function of the bytes fed since the
 last reset, so any two ways of cutting the same bytes into update calls end in the same state.
 */
module Ripemd160 {
  import opened Words
  import opened JavaInts
  import opened RipemdRounds
  import opened RipemdMessage
  import Hex
  import Std = RipemdStandard
  import Tables = RipemdTables

  function ToLine(s: seq<word>): Std.Line
    requires |s| == 5
  {
    Std.Line(s[0], s[1], s[2], s[3], s[4])
  }

  // The bytes update(byte[], offset, len) reads; offset + len is an int sum that may wrap.
  function Slice(input: seq<byte>, offset: int, len: int): (s: seq<byte>)
  {
    if offset < 0 || offset > |input| || Int32(offset + len) < offset then []
    else if Int32(offset + len) >= |input| then input[offset..]
    else input[offset..Int32(offset + len)]
  }

  // Inside the array the slice is the one named; one that runs over the end stops there; and one whose
  // end wraps around, like one that starts before or behind the array, is empty.
  lemma SliceIs(input: seq<byte>, offset: int, len: int)
    requires IsInt(offset) && 0 <= len < TWO_31 && |input| < TWO_31
    ensures offset >= 0 && offset + len <= |input| ==> Slice(input, offset, len) == input[offset..offset + len]
    ensures 0 <= offset <= |input| < offset + len < TWO_31 ==> Slice(input, offset, len) == input[offset..]
    ensures offset < 0 || offset > |input| || offset + len >= TWO_31 ==> Slice(input, offset, len) == []
  {
    Int32Cases(offset + len);
  }

  // (byte) c, on a UTF-16 unit.
  function LowByte(c: bv16): byte { (c & 0xFF) as byte }

  // What is cut off is the high byte.
  lemma LowByteKeeps(c: bv16)
    ensures (c >> 8 << 8) | (LowByte(c) as bv16) == c
  {
  }

  function Narrow(s: seq<bv16>): (bs: seq<byte>)
    ensures |bs| == |s|
  {
    seq(|s|, i requires 0 <= i < |s| => LowByte(s[i]))
  }

  function Octets(bs: seq<byte>): (os: seq<Hex.octet>)
    ensures |os| == |bs|
  {
    seq(|bs|, i requires 0 <= i < |bs| => bs[i] as int)
  }

  class RIPEMD160 {
    var MDbuf: array<word>
    var working: array<word>
    var working_ptr: int
    var msglen: int
    ghost var fed: seq<byte>

    ghost predicate Shape()
      reads this`MDbuf, this`working
    {
      MDbuf.Length == 5 && working.Length == 16 && MDbuf != working
    }

    // Chaining value, buffer and write position are those of the bytes fed.
    ghost predicate Absorbed()
      reads this`MDbuf, this`working, this`working_ptr, this`fed, MDbuf, working
    {
      && Shape()
      && ToLine(MDbuf[..]) == Chain(fed)
      && working[..] == Buffer(Tail(fed))
      && working_ptr == |fed| % 64
    }

    ghost predicate Valid()
      reads this, MDbuf, working
    {
      Absorbed() && msglen == Int32(|fed|)
    }

    constructor ()
      ensures Valid() && fed == [] && fresh(MDbuf) && fresh(working)
    {
      MDbuf := new word[5];
      working := new word[16](_ => 0);
      working_ptr := 0;
      msglen := 0;
      fed := [];
      new;
      MDbuf[0], MDbuf[1], MDbuf[2], MDbuf[3], MDbuf[4] :=
        0x67452301, 0xefcdab89, 0x98badcfe, 0x10325476, 0xc3d2e1f0;
      assert working[..] == Zeros(16);
    }

    // Works on an object in any state, in particular after a digest was taken.
    method Reset()
      modifies this
      ensures Valid() && fed == [] && fresh(MDbuf) && fresh(working)
    {
      MDbuf := new word[5];
      MDbuf[0], MDbuf[1], MDbuf[2], MDbuf[3], MDbuf[4] :=
        0x67452301, 0xefcdab89, 0x98badcfe, 0x10325476, 0xc3d2e1f0;
      working := new word[16](_ => 0);
      working_ptr := 0;
      msglen := 0;
      fed := [];
      assert working[..] == Zeros(16);
    }

    method Compress(X: array<word>)
      requires MDbuf.Length == 5 && X.Length == 16 && X != MDbuf
      modifies MDbuf
      ensures ToLine(MDbuf[..]) == Std.Compress(ToLine(old(MDbuf[..])), old(X[..]))
    {
      var a, b, c, d, e, A, B, C, D, E := RunLines(X);
      CombineResults(a, b, c, d, e, A, B, C, D, E);
    }

    // The five loops of compress: both lines advance together over shared tables.
    method RunLines(X: array<word>)
      returns (a: word, b: word, c: word, d: word, e: word, A: word, B: word, C: word, D: word, E: word)
      requires MDbuf.Length == 5 && X.Length == 16
      ensures Std.Line(a, b, c, d, e) == Std.Run(Std.LeftSide, ToLine(MDbuf[..]), 5 * X.Length, X[..])
      ensures Std.Line(A, B, C, D, E) == Std.Run(Std.RightSide, ToLine(MDbuf[..]), 5 * X.Length, X[..])
    {
      hide Add, Rol, Std.Run, Std.Step, Tables.Arg, Tables.Index;
      ghost var h, x := ToLine(MDbuf[..]), X[..];
      var index: nat := 0;
      RunZero(h, X[..]);
      a, b, c, d, e := MDbuf[0], MDbuf[1], MDbuf[2], MDbuf[3], MDbuf[4];
      A, B, C, D, E := a, b, c, d, e;

      while index < 16
        invariant 0 <= index <= 16
        invariant Std.Line(a, b, c, d, e) == Std.Run(Std.LeftSide, h, index, x)
        invariant Std.Line(A, B, C, D, E) == Std.Run(Std.RightSide, h, index, x)
      {
        FF(a, b, c, d, e, h, index, x);
        JJJ(A, B, C, D, E, h, index, x);
        var temp := Add(Add(a, b ^ c ^ d), X[Tables.Index(0, index)]);
        a, e, d, c, b := e, d, Rol(c, 10), b, Add(Rol(temp, Tables.Arg(0, index)), e);

        temp := Add(Add(Add(A, B ^ (C | !D)), X[Tables.Index(1, index)]), 0x50a28be6);
        A, E, D, C, B := E, D, Rol(C, 10), B, Add(Rol(temp, Tables.Arg(1, index)), E);
        index := index + 1;
      }

      while index < 32
        invariant 16 <= index <= 32
        invariant Std.Line(a, b, c, d, e) == Std.Run(Std.LeftSide, h, index, x)
        invariant Std.Line(A, B, C, D, E) == Std.Run(Std.RightSide, h, index, x)
      {
        GG(a, b, c, d, e, h, index, x);
        III(A, B, C, D, E, h, index, x);
        var temp := Add(Add(Add(a, (b & c) | (!b & d)), X[Tables.Index(0, index)]), 0x5a827999);
        a, e, d, c, b := e, d, Rol(c, 10), b, Add(Rol(temp, Tables.Arg(0, index)), e);

        temp := Add(Add(Add(A, (B & D) | (C & !D)), X[Tables.Index(1, index)]), 0x5c4dd124);
        A, E, D, C, B := E, D, Rol(C, 10), B, Add(Rol(temp, Tables.Arg(1, index)), E);
        index := index + 1;
      }

      while index < 48
        invariant 32 <= index <= 48
        invariant Std.Line(a, b, c, d, e) == Std.Run(Std.LeftSide, h, index, x)
        invariant Std.Line(A, B, C, D, E) == Std.Run(Std.RightSide, h, index, x)
      {
        HH(a, b, c, d, e, h, index, x);
        HHH(A, B, C, D, E, h, index, x);
        var temp := Add(Add(Add(a, (b | !c) ^ d), X[Tables.Index(0, index)]), 0x6ed9eba1);
        a, e, d, c, b := e, d, Rol(c, 10), b, Add(Rol(temp, Tables.Arg(0, index)), e);

        temp := Add(Add(Add(A, (B | !C) ^ D), X[Tables.Index(1, index)]), 0x6d703ef3);
        A, E, D, C, B := E, D, Rol(C, 10), B, Add(Rol(temp, Tables.Arg(1, index)), E);
        index := index + 1;
      }

      while index < 64
        invariant 48 <= index <= 64
        invariant Std.Line(a, b, c, d, e) == Std.Run(Std.LeftSide, h, index, x)
        invariant Std.Line(A, B, C, D, E) == Std.Run(Std.RightSide, h, index, x)
      {
        II(a, b, c, d, e, h, index, x);
        GGG(A, B, C, D, E, h, index, x);
        var temp := Add(Add(Add(a, (b & d) | (c & !d)), X[Tables.Index(0, index)]), 0x8f1bbcdc);
        a, e, d, c, b := e, d, Rol(c, 10), b, Add(Rol(temp, Tables.Arg(0, index)), e);

        temp := Add(Add(Add(A, (B & C) | (!B & D)), X[Tables.Index(1, index)]), 0x7a6d76e9);
        A, E, D, C, B := E, D, Rol(C, 10), B, Add(Rol(temp, Tables.Arg(1, index)), E);
        index := index + 1;
      }

      while index < 80
        invariant 64 <= index <= 80
        invariant Std.Line(a, b, c, d, e) == Std.Run(Std.LeftSide, h, index, x)
        invariant Std.Line(A, B, C, D, E) == Std.Run(Std.RightSide, h, index, x)
      {
        JJ(a, b, c, d, e, h, index, x);
        FFF(A, B, C, D, E, h, index, x);
        var temp := Add(Add(Add(a, b ^ (c | !d)), X[Tables.Index(0, index)]), 0xa953fd4e);
        a, e, d, c, b := e, d, Rol(c, 10), b, Add(Rol(temp, Tables.Arg(0, index)), e);

        temp := Add(Add(A, B ^ C ^ D), X[Tables.Index(1, index)]);
        A, E, D, C, B := E, D, Rol(C, 10), B, Add(Rol(temp, Tables.Arg(1, index)), E);
        index := index + 1;
      }
    }

    // The last lines of compress: MDbuf is overwritten word by word, D holding the new first word.
    method CombineResults(a: word, b: word, c: word, d: word, e: word, A: word, B: word, C: word, D: word, E: word)
      requires MDbuf.Length == 5
      modifies MDbuf
      ensures ToLine(MDbuf[..]) ==
        Std.Combine(ToLine(old(MDbuf[..])), Std.Line(a, b, c, d, e), Std.Line(A, B, C, D, E))
    {
      hide Add;
      AddCommutes(c, MDbuf[1]);
      AddCommutes(D, Add(c, MDbuf[1]));
      var D' := Add(D, Add(c, MDbuf[1]));
      MDbuf[1] := Add(Add(MDbuf[2], d), E);
      MDbuf[2] := Add(Add(MDbuf[3], e), A);
      MDbuf[3] := Add(Add(MDbuf[4], a), B);
      MDbuf[4] := Add(Add(MDbuf[0], b), C);
      MDbuf[0] := D';
    }

    // The loop that empties the buffer behind a full block.
    method ClearWorking()
      requires working.Length == 16
      modifies working
      ensures working[..] == Zeros(16)
    {
      for j := 0 to 16
        invariant forall i | 0 <= i < j :: working[i] == 0
      {
        working[j] := 0;
      }
    }

    method PutByte(input: byte)
      requires Shape() && 0 <= working_ptr < 64
      modifies working
      ensures working[..] == Filled(old(working[..]), working_ptr, input)
    {
      hide Slot, Xor;
      working[working_ptr / 4] := Xor(working[working_ptr / 4], Slot(input, working_ptr % 4, true));
    }

    // The loop body the three update methods for bytes share.
    method XorIn(input: byte)
      requires Absorbed()
      modifies this`working_ptr, this`fed, MDbuf, working
      ensures Absorbed() && fed == old(fed) + [input]
    {
      hide Filled, Std.Compress, Chain, Buffer, Tail, Zeros;
      PutByte(input);
      working_ptr := working_ptr + 1;
      if working_ptr == 64 {
        FeedByteLast(fed, input);
        Compress(working);
        ClearWorking();
        working_ptr := 0;
      } else {
        FeedByteInside(fed, input);
      }
      fed := fed + [input];
    }

    method Update(input: byte)
      requires Valid()
      modifies this`working_ptr, this`msglen, this`fed, MDbuf, working
      ensures Valid() && fed == old(fed) + [input]
    {
      hide Absorbed, Int32;
      XorIn(input);
      msglen := Int32(msglen + 1);
      Int32Sum(|old(fed)|, 1);
    }

    method UpdateAll(input: seq<byte>)
      requires Valid() && IsInt(|input|)
      modifies this`working_ptr, this`msglen, this`fed, MDbuf, working
      ensures Valid() && fed == old(fed) + input
    {
      hide Absorbed, Int32;
      for i := 0 to |input|
        invariant Absorbed() && fed == old(fed) + input[..i] && msglen == old(msglen)
      {
        XorIn(input[i]);
        assert input[..i + 1] == input[..i] + [input[i]];
      }
      assert input[..|input|] == input;
      msglen := Int32(msglen + |input|);
      Int32Sum(|old(fed)|, |input|);
    }

    // The length is counted from offset and len as given, so the byte count stays right exactly
    // when they describe a slice; what is read is clamped at the end of the array. With a negative
    // offset the first read fails, before anything has changed; !ok stands for that exception.
    method UpdateSlice(input: seq<byte>, offset: int, len: int) returns (ok: bool)
      requires Valid() && IsInt(|input|) && IsInt(offset) && IsInt(len)
      modifies this`working_ptr, this`msglen, this`fed, MDbuf, working
      ensures ok <==> 0 <= offset || Int32(offset + len) <= offset
      ensures Absorbed() && fed == old(fed) + Slice(input, offset, len)
      ensures !ok ==> Valid()
      ensures ok ==> (Valid() <==>
        if offset < 0 then len == 0 else offset <= |input| && 0 <= len && offset + len < TWO_31)
    {
      hide Absorbed, Int32;
      ghost var n, m := |fed|, |Slice(input, offset, len)|;
      assert fed + [] == fed;
      Int32Cases(offset + len);
      if Int32(offset + len) >= |input| {
        ok := FeedRange(input, offset, |input|);
        if !ok {
          return;
        }
        msglen := Int32(msglen + (|input| - offset));
        Int32Sum(n, |input| - offset);
        Int32Injective(n + (|input| - offset), n + m);
      } else {
        ok := FeedRange(input, offset, Int32(offset + len));
        if !ok {
          return;
        }
        msglen := Int32(msglen + len);
        Int32Sum(n, len);
        Int32Injective(n + len, n + m);
      }
    }

    // The two loops of update(byte[], offset, len), which differ in their upper bound.
    method FeedRange(input: seq<byte>, lo: int, hi: int) returns (ok: bool)
      requires Absorbed() && hi <= |input|
      modifies this`working_ptr, this`fed, MDbuf, working
      ensures ok <==> 0 <= lo || hi <= lo
      ensures Absorbed() && fed == old(fed) + (if 0 <= lo <= hi then input[lo..hi] else [])
    {
      hide Absorbed;
      assert fed + [] == fed;
      var i := lo;
      while i < hi
        invariant lo <= i && (lo <= hi ==> i <= hi) && (i > lo ==> 0 <= lo)
        invariant Absorbed() && fed == old(fed) + (if 0 <= lo <= hi then input[lo..i] else [])
      {
        if i < 0 {
          return false;
        }
        XorIn(input[i]);
        assert input[lo..i + 1] == input[lo..i] + [input[i]];
        i := i + 1;
      }
      ok := true;
    }

    method UpdateString(s: seq<bv16>)
      requires Valid() && IsInt(|s|)
      modifies this`working_ptr, this`msglen, this`fed, MDbuf, working
      ensures Valid() && fed == old(fed) + Narrow(s)
    {
      var bytearray := Narrow(s);
      UpdateAll(bytearray);
    }

    // MDfinish(working, msglen, 0). Leaves the object finished: only Reset makes it usable again.
    method MDfinish()
      requires Valid()
      modifies MDbuf, working
      ensures Shape() && ToLine(MDbuf[..]) == Final(fed)
    {
      hide Slot, Xor, Buffer, ToWord, Std.Compress, Chain, Final;
      FinishFolds(fed);
      ghost var X, blocks := working[..], FinalBlocks(working[..], msglen);
      var w := (msglen / 4) % 16;
      working[w] := Xor(working[w], Slot(0x80, msglen % 4, false));
      ghost var marked := X[w := Xor(X[w], Slot(0x80, msglen % 4, false))];
      assert working[..] == marked;
      if msglen % 64 > 55 {
        Compress(working);
        for i := 0 to 14
          modifies working
          invariant forall k | 0 <= k < i :: working[k] == 0
        {
          working[i] := 0;
        }
      }
      working[14] := ToWord(8 * msglen);
      working[15] := ToWord(msglen / 0x2000_0000);
      assert working[..] == WithLength(if msglen % 64 > 55 then Zeros(16) else marked, msglen);
      Compress(working);
    }

    method DigestBin() returns (res: seq<byte>)
      requires Valid()
      modifies MDbuf, working
      ensures Shape() && res == Digest(fed)
    {
      hide ByteOf, Std.Compress, Final, Chain, Buffer;
      MDfinish();
      var bytes := new byte[20](_ => 0);
      for i := 0 to 20
        modifies bytes
        invariant forall k | 0 <= k < i :: bytes[k] == ByteOf(MDbuf[k / 4], k % 4)
      {
        bytes[i] := ByteOf(MDbuf[i / 4], i % 4);
      }
      res := bytes[..];
      assert res == Serialize(ToLine(MDbuf[..]));
    }

    method DigestOf(input: seq<byte>) returns (res: seq<byte>)
      requires Valid() && IsInt(|input|)
      modifies this`working_ptr, this`msglen, this`fed, MDbuf, working
      ensures Shape() && fed == old(fed) + input && res == Digest(fed)
    {
      UpdateAll(input);
      res := DigestBin();
    }

    // digest(): the twenty bytes in lower-case hex.
    method DigestHex() returns (hex: string)
      requires Valid()
      modifies MDbuf, working
      ensures Shape() && hex == Hex.Text(Octets(Digest(fed)))
    {
      hide Chain, Buffer, Digest, Hex.ByteText, Hex.ByteToHex;
      var res := DigestBin();
      var octets := Octets(res);
      hex := "";
      for i := 0 to |octets|
        invariant hex == Hex.Text(octets[..i])
      {
        Hex.TextSnoc(octets, i);
        Hex.ByteToHexIsByteText(octets[i]);
        hex := hex + Hex.ByteToHex(Hex.Signed(octets[i]));
      }
      assert octets[..|octets|] == octets;
    }
  }

  method RIPEMD160String(txt: seq<bv16>) returns (hex: string)
    requires IsInt(|txt|)
    ensures hex == Hex.Text(Octets(Digest(Narrow(txt))))
  {
    var r := new RIPEMD160();
    r.UpdateString(txt);
    assert [] + Narrow(txt) == Narrow(txt);
    hex := r.DigestHex();
  }
}
