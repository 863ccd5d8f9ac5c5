// The unrolled tables of the Java class, and their agreement with the published construction.
module RipemdTables {
  import Std = RipemdStandard

  // The rows of 80 entries of ArgArray and IndexArray, 16 entries (one round) to a line as in the source.
  const LEFT_ARG: seq<seq<Std.amount>> := [
    [11, 14, 15, 12, 5, 8, 7, 9, 11, 13, 14, 15, 6, 7, 9, 8],
    [7, 6, 8, 13, 11, 9, 7, 15, 7, 12, 15, 9, 11, 7, 13, 12],
    [11, 13, 6, 7, 14, 9, 13, 15, 14, 8, 13, 6, 5, 12, 7, 5],
    [11, 12, 14, 15, 14, 15, 9, 8, 9, 14, 5, 6, 8, 6, 5, 12],
    [9, 15, 5, 11, 6, 8, 13, 12, 5, 12, 13, 14, 11, 8, 5, 6]]

  const RIGHT_ARG: seq<seq<Std.amount>> := [
    [8, 9, 9, 11, 13, 15, 15, 5, 7, 7, 8, 11, 14, 14, 12, 6],
    [9, 13, 15, 7, 12, 8, 9, 11, 7, 7, 12, 7, 6, 15, 13, 11],
    [9, 7, 15, 11, 8, 6, 6, 14, 12, 13, 5, 14, 13, 13, 7, 5],
    [15, 5, 8, 11, 14, 14, 6, 14, 6, 9, 12, 9, 12, 5, 15, 8],
    [8, 5, 12, 9, 12, 5, 14, 6, 8, 13, 6, 5, 15, 13, 11, 11]]

  const LEFT_INDEX: seq<seq<Std.index>> := [
    [0, 1, 2, 3, 4, 5, 6, 7, 8, 9, 10, 11, 12, 13, 14, 15],
    [7, 4, 13, 1, 10, 6, 15, 3, 12, 0, 9, 5, 2, 14, 11, 8],
    [3, 10, 14, 4, 9, 15, 8, 1, 2, 7, 0, 6, 13, 11, 5, 12],
    [1, 9, 11, 10, 0, 8, 12, 4, 13, 3, 7, 15, 14, 5, 6, 2],
    [4, 0, 5, 9, 7, 12, 2, 10, 14, 1, 3, 8, 11, 6, 15, 13]]

  const RIGHT_INDEX: seq<seq<Std.index>> := [
    [5, 14, 7, 0, 9, 2, 11, 4, 13, 6, 15, 8, 1, 10, 3, 12],
    [6, 11, 3, 7, 0, 13, 5, 10, 14, 15, 8, 12, 4, 9, 1, 2],
    [15, 5, 1, 3, 7, 14, 6, 9, 11, 8, 12, 2, 10, 0, 4, 13],
    [8, 6, 4, 1, 3, 11, 15, 0, 5, 12, 2, 13, 9, 7, 10, 14],
    [12, 15, 10, 4, 1, 5, 8, 7, 6, 2, 13, 14, 0, 3, 9, 11]]

  // ArgArray[line][j]
  function Arg(line: nat, j: nat): Std.amount
    requires line < 2 && j < 80
  {
    if line == 0 then LEFT_ARG[j / 16][j % 16] else RIGHT_ARG[j / 16][j % 16]
  }

  // IndexArray[line][j]
  function Index(line: nat, j: nat): Std.index
    requires line < 2 && j < 80
  {
    if line == 0 then LEFT_INDEX[j / 16][j % 16] else RIGHT_INDEX[j / 16][j % 16]
  }

  // Entry i of one round: its word is rho of the word one round earlier, its rotation amount is
  // the shared table's entry for that round and word.
  ghost predicate Entry(earlier: seq<Std.index>, words: seq<Std.index>, amounts: seq<Std.amount>,
                        shifts: seq<Std.amount>, i: Std.index)
    requires |earlier| == |words| == |amounts| == |shifts| == 16
  {
    words[i] == Std.RHO[earlier[i]] && amounts[i] == shifts[words[i]]
  }

  lemma LeftRound1(i: Std.index)
    ensures Entry(LEFT_INDEX[0], LEFT_INDEX[1], LEFT_ARG[1], Std.SHIFT[1], i)
  {
    match i
    case 0 => case 1 => case 2 => case 3 => case 4 => case 5 => case 6 => case 7 =>
    case 8 => case 9 => case 10 => case 11 => case 12 => case 13 => case 14 => case 15 =>
  }

  lemma LeftRound2(i: Std.index)
    ensures Entry(LEFT_INDEX[1], LEFT_INDEX[2], LEFT_ARG[2], Std.SHIFT[2], i)
  {
    match i
    case 0 => case 1 => case 2 => case 3 => case 4 => case 5 => case 6 => case 7 =>
    case 8 => case 9 => case 10 => case 11 => case 12 => case 13 => case 14 => case 15 =>
  }

  lemma LeftRound3(i: Std.index)
    ensures Entry(LEFT_INDEX[2], LEFT_INDEX[3], LEFT_ARG[3], Std.SHIFT[3], i)
  {
    match i
    case 0 => case 1 => case 2 => case 3 => case 4 => case 5 => case 6 => case 7 =>
    case 8 => case 9 => case 10 => case 11 => case 12 => case 13 => case 14 => case 15 =>
  }

  lemma LeftRound4(i: Std.index)
    ensures Entry(LEFT_INDEX[3], LEFT_INDEX[4], LEFT_ARG[4], Std.SHIFT[4], i)
  {
    match i
    case 0 => case 1 => case 2 => case 3 => case 4 => case 5 => case 6 => case 7 =>
    case 8 => case 9 => case 10 => case 11 => case 12 => case 13 => case 14 => case 15 =>
  }

  lemma RightRound1(i: Std.index)
    ensures Entry(RIGHT_INDEX[0], RIGHT_INDEX[1], RIGHT_ARG[1], Std.SHIFT[1], i)
  {
    match i
    case 0 => case 1 => case 2 => case 3 => case 4 => case 5 => case 6 => case 7 =>
    case 8 => case 9 => case 10 => case 11 => case 12 => case 13 => case 14 => case 15 =>
  }

  lemma RightRound2(i: Std.index)
    ensures Entry(RIGHT_INDEX[1], RIGHT_INDEX[2], RIGHT_ARG[2], Std.SHIFT[2], i)
  {
    match i
    case 0 => case 1 => case 2 => case 3 => case 4 => case 5 => case 6 => case 7 =>
    case 8 => case 9 => case 10 => case 11 => case 12 => case 13 => case 14 => case 15 =>
  }

  lemma RightRound3(i: Std.index)
    ensures Entry(RIGHT_INDEX[2], RIGHT_INDEX[3], RIGHT_ARG[3], Std.SHIFT[3], i)
  {
    match i
    case 0 => case 1 => case 2 => case 3 => case 4 => case 5 => case 6 => case 7 =>
    case 8 => case 9 => case 10 => case 11 => case 12 => case 13 => case 14 => case 15 =>
  }

  lemma RightRound4(i: Std.index)
    ensures Entry(RIGHT_INDEX[3], RIGHT_INDEX[4], RIGHT_ARG[4], Std.SHIFT[4], i)
  {
    match i
    case 0 => case 1 => case 2 => case 3 => case 4 => case 5 => case 6 => case 7 =>
    case 8 => case 9 => case 10 => case 11 => case 12 => case 13 => case 14 => case 15 =>
  }

  lemma LeftRound0(i: Std.index)
    ensures LEFT_INDEX[0][i] == i && LEFT_ARG[0][i] == Std.SHIFT[0][i]
  {
    match i
    case 0 => case 1 => case 2 => case 3 => case 4 => case 5 => case 6 => case 7 =>
    case 8 => case 9 => case 10 => case 11 => case 12 => case 13 => case 14 => case 15 =>
  }

  lemma {:induction false} LeftEntry(k: nat, i: Std.index)
    requires k < 5
    ensures LEFT_INDEX[k][i] == Std.RhoPower(k, i) && LEFT_ARG[k][i] == Std.SHIFT[k][LEFT_INDEX[k][i]]
  {
    if k == 0 {
      LeftRound0(i);
    } else {
      LeftEntry(k - 1, i);
      LeftRound(k, i);
    }
  }

  lemma LeftRound(k: nat, i: Std.index)
    requires 0 < k < 5
    ensures Entry(LEFT_INDEX[k - 1], LEFT_INDEX[k], LEFT_ARG[k], Std.SHIFT[k], i)
  {
    if k == 1 {
      LeftRound1(i);
    } else if k == 2 {
      LeftRound2(i);
    } else if k == 3 {
      LeftRound3(i);
    } else {
      LeftRound4(i);
    }
  }

  lemma RightRound0(i: Std.index)
    ensures RIGHT_INDEX[0][i] == Std.Pi(i) && RIGHT_ARG[0][i] == Std.SHIFT[0][Std.Pi(i)]
  {
    match i
    case 0 => case 1 => case 2 => case 3 => case 4 => case 5 => case 6 => case 7 =>
    case 8 => case 9 => case 10 => case 11 => case 12 => case 13 => case 14 => case 15 =>
  }

  lemma {:induction false} RightEntry(k: nat, i: Std.index)
    requires k < 5
    ensures RIGHT_INDEX[k][i] == Std.RhoPower(k, Std.Pi(i)) && RIGHT_ARG[k][i] == Std.SHIFT[k][RIGHT_INDEX[k][i]]
  {
    if k == 0 {
      RightRound0(i);
    } else {
      RightEntry(k - 1, i);
      RightRound(k, i);
    }
  }

  lemma RightRound(k: nat, i: Std.index)
    requires 0 < k < 5
    ensures Entry(RIGHT_INDEX[k - 1], RIGHT_INDEX[k], RIGHT_ARG[k], Std.SHIFT[k], i)
  {
    if k == 1 {
      RightRound1(i);
    } else if k == 2 {
      RightRound2(i);
    } else if k == 3 {
      RightRound3(i);
    } else {
      RightRound4(i);
    }
  }

  // Entry j of the unrolled rows is the word and the rotation amount of step j of the standard.
  lemma TablesAgree(j: nat)
    requires j < 80
    ensures Index(0, j) == Std.Word(Std.LeftSide, j) && Arg(0, j) == Std.Shift(Std.LeftSide, j)
    ensures Index(1, j) == Std.Word(Std.RightSide, j) && Arg(1, j) == Std.Shift(Std.RightSide, j)
  {
    LeftEntry(j / 16, j % 16);
    RightEntry(j / 16, j % 16);
  }
}
