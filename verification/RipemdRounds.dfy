/**
 One step of each fused loop of compress, named as the comments of the Java source name them: the
 registers after the five assignments are those of the next step of the standard's line.
 */
module RipemdRounds {
  import opened Words
  import Std = RipemdStandard
  import Tables = RipemdTables
  type Line = Std.Line

  lemma FF(a: word, b: word, c: word, d: word, e: word, h: Line, j: nat, X: block)
    requires 0 <= j < 16 && Std.Line(a, b, c, d, e) == Std.Run(Std.LeftSide, h, j, X)
    ensures Std.Run(Std.LeftSide, h, j + 1, X) ==
      Std.Line(e,
               Add(Rol(Add(Add(a, b ^ c ^ d), X[Tables.Index(0, j)]), Tables.Arg(0, j)), e),
               b, Rol(c, 10), d)
  {
    hide Rol, Add, Std.Word, Std.Shift, Tables.Index, Tables.Arg;
    Tables.TablesAgree(j);
    AddZero(Add(Add(a, Std.Bool(Std.LeftSide, j, b, c, d)), X[Std.Word(Std.LeftSide, j)]));
  }

  lemma JJJ(A: word, B: word, C: word, D: word, E: word, h: Line, j: nat, X: block)
    requires 0 <= j < 16 && Std.Line(A, B, C, D, E) == Std.Run(Std.RightSide, h, j, X)
    ensures Std.Run(Std.RightSide, h, j + 1, X) ==
      Std.Line(E,
               Add(Rol(Add(Add(Add(A, B ^ (C | !D)), X[Tables.Index(1, j)]), 0x50a28be6), Tables.Arg(1, j)), E),
               B, Rol(C, 10), D)
  {
    hide Rol, Add, Std.Word, Std.Shift, Tables.Index, Tables.Arg;
    Tables.TablesAgree(j);
    AddZero(Add(Add(A, Std.Bool(Std.RightSide, j, B, C, D)), X[Std.Word(Std.RightSide, j)]));
  }

  lemma GG(a: word, b: word, c: word, d: word, e: word, h: Line, j: nat, X: block)
    requires 16 <= j < 32 && Std.Line(a, b, c, d, e) == Std.Run(Std.LeftSide, h, j, X)
    ensures Std.Run(Std.LeftSide, h, j + 1, X) ==
      Std.Line(e,
               Add(Rol(Add(Add(Add(a, (b & c) | (!b & d)), X[Tables.Index(0, j)]), 0x5a827999), Tables.Arg(0, j)), e),
               b, Rol(c, 10), d)
  {
    hide Rol, Add, Std.Word, Std.Shift, Tables.Index, Tables.Arg;
    Tables.TablesAgree(j);
    AddZero(Add(Add(a, Std.Bool(Std.LeftSide, j, b, c, d)), X[Std.Word(Std.LeftSide, j)]));
  }

  lemma III(A: word, B: word, C: word, D: word, E: word, h: Line, j: nat, X: block)
    requires 16 <= j < 32 && Std.Line(A, B, C, D, E) == Std.Run(Std.RightSide, h, j, X)
    ensures Std.Run(Std.RightSide, h, j + 1, X) ==
      Std.Line(E,
               Add(Rol(Add(Add(Add(A, (B & D) | (C & !D)), X[Tables.Index(1, j)]), 0x5c4dd124), Tables.Arg(1, j)), E),
               B, Rol(C, 10), D)
  {
    hide Rol, Add, Std.Word, Std.Shift, Tables.Index, Tables.Arg;
    Tables.TablesAgree(j);
    AddZero(Add(Add(A, Std.Bool(Std.RightSide, j, B, C, D)), X[Std.Word(Std.RightSide, j)]));
  }

  lemma HH(a: word, b: word, c: word, d: word, e: word, h: Line, j: nat, X: block)
    requires 32 <= j < 48 && Std.Line(a, b, c, d, e) == Std.Run(Std.LeftSide, h, j, X)
    ensures Std.Run(Std.LeftSide, h, j + 1, X) ==
      Std.Line(e,
               Add(Rol(Add(Add(Add(a, (b | !c) ^ d), X[Tables.Index(0, j)]), 0x6ed9eba1), Tables.Arg(0, j)), e),
               b, Rol(c, 10), d)
  {
    hide Rol, Add, Std.Word, Std.Shift, Tables.Index, Tables.Arg;
    Tables.TablesAgree(j);
    AddZero(Add(Add(a, Std.Bool(Std.LeftSide, j, b, c, d)), X[Std.Word(Std.LeftSide, j)]));
  }

  lemma HHH(A: word, B: word, C: word, D: word, E: word, h: Line, j: nat, X: block)
    requires 32 <= j < 48 && Std.Line(A, B, C, D, E) == Std.Run(Std.RightSide, h, j, X)
    ensures Std.Run(Std.RightSide, h, j + 1, X) ==
      Std.Line(E,
               Add(Rol(Add(Add(Add(A, (B | !C) ^ D), X[Tables.Index(1, j)]), 0x6d703ef3), Tables.Arg(1, j)), E),
               B, Rol(C, 10), D)
  {
    hide Rol, Add, Std.Word, Std.Shift, Tables.Index, Tables.Arg;
    Tables.TablesAgree(j);
    AddZero(Add(Add(A, Std.Bool(Std.RightSide, j, B, C, D)), X[Std.Word(Std.RightSide, j)]));
  }

  lemma II(a: word, b: word, c: word, d: word, e: word, h: Line, j: nat, X: block)
    requires 48 <= j < 64 && Std.Line(a, b, c, d, e) == Std.Run(Std.LeftSide, h, j, X)
    ensures Std.Run(Std.LeftSide, h, j + 1, X) ==
      Std.Line(e,
               Add(Rol(Add(Add(Add(a, (b & d) | (c & !d)), X[Tables.Index(0, j)]), 0x8f1bbcdc), Tables.Arg(0, j)), e),
               b, Rol(c, 10), d)
  {
    hide Rol, Add, Std.Word, Std.Shift, Tables.Index, Tables.Arg;
    Tables.TablesAgree(j);
    AddZero(Add(Add(a, Std.Bool(Std.LeftSide, j, b, c, d)), X[Std.Word(Std.LeftSide, j)]));
  }

  lemma GGG(A: word, B: word, C: word, D: word, E: word, h: Line, j: nat, X: block)
    requires 48 <= j < 64 && Std.Line(A, B, C, D, E) == Std.Run(Std.RightSide, h, j, X)
    ensures Std.Run(Std.RightSide, h, j + 1, X) ==
      Std.Line(E,
               Add(Rol(Add(Add(Add(A, (B & C) | (!B & D)), X[Tables.Index(1, j)]), 0x7a6d76e9), Tables.Arg(1, j)), E),
               B, Rol(C, 10), D)
  {
    hide Rol, Add, Std.Word, Std.Shift, Tables.Index, Tables.Arg;
    Tables.TablesAgree(j);
    AddZero(Add(Add(A, Std.Bool(Std.RightSide, j, B, C, D)), X[Std.Word(Std.RightSide, j)]));
  }

  lemma JJ(a: word, b: word, c: word, d: word, e: word, h: Line, j: nat, X: block)
    requires 64 <= j < 80 && Std.Line(a, b, c, d, e) == Std.Run(Std.LeftSide, h, j, X)
    ensures Std.Run(Std.LeftSide, h, j + 1, X) ==
      Std.Line(e,
               Add(Rol(Add(Add(Add(a, b ^ (c | !d)), X[Tables.Index(0, j)]), 0xa953fd4e), Tables.Arg(0, j)), e),
               b, Rol(c, 10), d)
  {
    hide Rol, Add, Std.Word, Std.Shift, Tables.Index, Tables.Arg;
    Tables.TablesAgree(j);
    AddZero(Add(Add(a, Std.Bool(Std.LeftSide, j, b, c, d)), X[Std.Word(Std.LeftSide, j)]));
  }

  lemma FFF(A: word, B: word, C: word, D: word, E: word, h: Line, j: nat, X: block)
    requires 64 <= j < 80 && Std.Line(A, B, C, D, E) == Std.Run(Std.RightSide, h, j, X)
    ensures Std.Run(Std.RightSide, h, j + 1, X) ==
      Std.Line(E,
               Add(Rol(Add(Add(A, B ^ C ^ D), X[Tables.Index(1, j)]), Tables.Arg(1, j)), E),
               B, Rol(C, 10), D)
  {
    hide Rol, Add, Std.Word, Std.Shift, Tables.Index, Tables.Arg;
    Tables.TablesAgree(j);
    AddZero(Add(Add(A, Std.Bool(Std.RightSide, j, B, C, D)), X[Std.Word(Std.RightSide, j)]));
  }

  lemma RunZero(h: Line, X: block)
    ensures Std.Run(Std.LeftSide, h, 0, X) == Std.Run(Std.RightSide, h, 0, X) == h
  {
  }
}
