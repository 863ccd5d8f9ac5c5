/**
 What can be spent. Validation compares sums only, so a negative output pays for a larger one: the
 signed total is kept, the value of the positive rows is not.
 */
module LedgerSigns {
  import opened Ledgers
  import opened LedgerLaws

  function Positive(x: real): real { if x > 0.0 then x else 0.0 }

  // The value of the positive unspent rows, and what the negative ones lack to zero.
  function Spendable(lib: Library, rows: seq<Utxo>): real
  {
    if rows == [] then 0.0
    else (if rows[0].tail == "0" then Positive(Number(lib, rows[0].value)) else 0.0) + Spendable(lib, rows[1..])
  }

  function Debt(lib: Library, rows: seq<Utxo>): real
  {
    if rows == [] then 0.0
    else (if rows[0].tail == "0" then Positive(-Number(lib, rows[0].value)) else 0.0) + Debt(lib, rows[1..])
  }

  // The debt of the rows named by inputs.
  function DebtNamed(lib: Library, rows: seq<Utxo>, inputs: seq<string>): real
  {
    if rows == [] then 0.0
    else (if rows[0].tail == "0" && rows[0].hash in inputs then Positive(-Number(lib, rows[0].value)) else 0.0)
         + DebtNamed(lib, rows[1..], inputs)
  }

  // What the negative outputs lack to zero.
  function Owed(lib: Library, outputs: seq<Output>): real
  {
    if outputs == [] then 0.0
    else Owed(lib, outputs[..|outputs| - 1]) + Positive(-Number(lib, outputs[|outputs| - 1].value))
  }

  predicate NonNegativeRows(lib: Library, rows: seq<Utxo>)
  {
    forall i | 0 <= i < |rows| && rows[i].tail == "0" :: Number(lib, rows[i].value) >= 0.0
  }

  predicate NonNegativeOutputs(lib: Library, outputs: seq<Output>)
  {
    forall i | 0 <= i < |outputs| :: Number(lib, outputs[i].value) >= 0.0
  }

  lemma {:induction false} SpendableIs(lib: Library, rows: seq<Utxo>)
    ensures Spendable(lib, rows) == Unspent(lib, rows) + Debt(lib, rows)
  {
    hide Number;
    if rows != [] {
      SpendableIs(lib, rows[1..]);
    }
  }

  lemma {:induction false} DebtAppend(lib: Library, a: seq<Utxo>, b: seq<Utxo>)
    ensures Debt(lib, a + b) == Debt(lib, a) + Debt(lib, b)
  {
    hide Number;
    if a == [] {
      assert a + b == b;
    } else {
      assert (a + b)[1..] == a[1..] + b;
      DebtAppend(lib, a[1..], b);
    }
  }

  lemma DebtOne(lib: Library, row: Utxo)
    requires row.tail == "0"
    ensures Debt(lib, [row]) == Positive(-Number(lib, row.value))
  {
    assert [row][1..] == [];
  }

  lemma {:induction false} DebtMarked(lib: Library, rows: seq<Utxo>, after: seq<Utxo>, inputs: seq<string>, tx: string)
    requires tx != "0" && |after| == |rows|
    requires forall i | 0 <= i < |rows| ::
      after[i] == if rows[i].hash in inputs then rows[i].(tail := tx) else rows[i]
    ensures Debt(lib, after) == Debt(lib, rows) - DebtNamed(lib, rows, inputs)
  {
    hide Number;
    if rows != [] {
      DebtMarked(lib, rows[1..], after[1..], inputs, tx);
    }
  }

  lemma {:induction false} DebtOfNewRows(lib: Library, outputs: seq<Output>, tx: string)
    ensures Debt(lib, NewRows(lib, outputs, tx)) == Owed(lib, outputs)
  {
    hide Number, Decimal;
    if outputs != [] {
      var n := |outputs| - 1;
      var row := NewRow(lib, Decimal(n + 1), outputs[n].value, outputs[n].publicKey, tx);
      DebtOfNewRows(lib, outputs[..n], tx);
      assert NewRows(lib, outputs, tx) == NewRows(lib, outputs[..n], tx) + [row];
      DebtAppend(lib, NewRows(lib, outputs[..n], tx), [row]);
      DebtOne(lib, row);
    }
  }

  lemma DebtOfChange(lib: Library, m: Message, remain: Amount, tx: string)
    requires PrintsExactly(lib)
    ensures Debt(lib, ChangeRow(lib, m, remain, tx)) == 0.0
    ensures NonNegativeRows(lib, ChangeRow(lib, m, remain, tx))
  {
    hide Unit;
    if IsIntText(remain) && remain.unscaled > 0 {
      IntNumber(remain);
      DebtOne(lib, NewRow(lib, "0", lib.show(remain), m.publicKey, tx));
    }
  }

  lemma {:induction false} NoDebt(lib: Library, rows: seq<Utxo>)
    ensures Debt(lib, rows) >= 0.0
    ensures NonNegativeRows(lib, rows) <==> Debt(lib, rows) == 0.0
  {
    hide Number;
    if rows != [] {
      NoDebt(lib, rows[1..]);
      assert forall i | 0 <= i < |rows| - 1 :: rows[1..][i] == rows[i + 1];
      assert NonNegativeRows(lib, rows) <==>
        (rows[0].tail == "0" ==> Number(lib, rows[0].value) >= 0.0) && NonNegativeRows(lib, rows[1..]) by {
        NonNegativeFront(lib, rows);
      }
    }
  }

  lemma NonNegativeFront(lib: Library, rows: seq<Utxo>)
    requires rows != []
    ensures NonNegativeRows(lib, rows) <==>
      (rows[0].tail == "0" ==> Number(lib, rows[0].value) >= 0.0) && NonNegativeRows(lib, rows[1..])
  {
    hide Number;
    assert forall i | 0 < i < |rows| :: rows[i] == rows[1..][i - 1];
    assert forall i | 0 <= i < |rows| - 1 :: rows[1..][i] == rows[i + 1];
  }

  lemma {:induction false} NothingOwed(lib: Library, outputs: seq<Output>)
    ensures Owed(lib, outputs) >= 0.0
    ensures NonNegativeOutputs(lib, outputs) <==> Owed(lib, outputs) == 0.0
  {
    hide Number;
    if outputs != [] {
      var n := |outputs| - 1;
      NothingOwed(lib, outputs[..n]);
      assert forall i | 0 <= i < n :: outputs[..n][i] == outputs[i];
    }
  }

  lemma {:induction false} NamedDebtBounds(lib: Library, rows: seq<Utxo>, inputs: seq<string>)
    ensures 0.0 <= DebtNamed(lib, rows, inputs) <= Debt(lib, rows)
  {
    hide Number;
    if rows != [] {
      NamedDebtBounds(lib, rows[1..], inputs);
    }
  }

  // The debt of the table after an accepted message: spent debt is gone, negative outputs add theirs.
  lemma DebtAccount(lib: Library, s: State, m: Message, signature: string)
    requires PrintsExactly(lib) && lib.hash(m.text) != "0" && Accepted(lib, s, m, signature)
    ensures Debt(lib, Received(lib, s, m, signature).0.utxos) ==
      Debt(lib, s.utxos) - DebtNamed(lib, s.utxos, m.inputs) + Owed(lib, m.outputs)
  {
    hide Accepted, Spend, NewRows, ChangeRow, Received, Debt, DebtNamed, Owed;
    var tx, remain := lib.hash(m.text), Remain(lib, s, m, signature);
    var spent, created := Spend(s.utxos, m.inputs, tx), NewRows(lib, m.outputs, tx);
    AllRowsAfter(lib, s, m, signature);
    forall i | 0 <= i < |s.utxos|
      ensures spent[i] == if s.utxos[i].hash in m.inputs then s.utxos[i].(tail := tx) else s.utxos[i]
    {
      SpendIs(s.utxos, m.inputs, tx, i);
    }
    DebtMarked(lib, s.utxos, spent, m.inputs, tx);
    DebtOfNewRows(lib, m.outputs, tx);
    DebtOfChange(lib, m, remain, tx);
    DebtAppend(lib, spent, created);
    DebtAppend(lib, spent + created, ChangeRow(lib, m, remain, tx));
  }

  // A table without negative rows stays without exactly if the message has no negative output.
  lemma StaysNonNegativeIff(lib: Library, s: State, m: Message, signature: string)
    requires PrintsExactly(lib) && lib.hash(m.text) != "0" && Accepted(lib, s, m, signature)
    requires NonNegativeRows(lib, s.utxos)
    ensures NonNegativeRows(lib, Received(lib, s, m, signature).0.utxos) <==> NonNegativeOutputs(lib, m.outputs)
  {
    hide Accepted, Received, Debt, DebtNamed, Owed, NonNegativeRows, NonNegativeOutputs;
    DebtAccount(lib, s, m, signature);
    NoDebt(lib, s.utxos);
    NamedDebtBounds(lib, s.utxos, m.inputs);
    NoDebt(lib, Received(lib, s, m, signature).0.utxos);
    NothingOwed(lib, m.outputs);
  }

  /**
   What can be spent, after an accepted message over a table without negative rows: repeated inputs and
   negative outputs add to it, lost change takes away. So with distinct inputs and change that fits it
   stays the same exactly if no output is negative, and grows otherwise.
   */
  lemma SpendableAccount(lib: Library, s: State, m: Message, signature: string)
    requires PrintsExactly(lib) && UniqueIds(s.utxos) && lib.hash(m.text) != "0" && Accepted(lib, s, m, signature)
    requires NonNegativeRows(lib, s.utxos)
    ensures Spendable(lib, Received(lib, s, m, signature).0.utxos) == Spendable(lib, s.utxos)
      + Repeated(lib, s.utxos, m.inputs) - Lost(Remain(lib, s, m, signature)) + Owed(lib, m.outputs)
    ensures var remain, after := Remain(lib, s, m, signature), Received(lib, s, m, signature).0.utxos;
      Distinct(m.inputs) && (remain.Number() == 0.0 || IsIntText(remain)) ==>
        && (Spendable(lib, after) == Spendable(lib, s.utxos) <==> NonNegativeOutputs(lib, m.outputs))
        && Spendable(lib, after) >= Spendable(lib, s.utxos)
  {
    hide Accepted, Remain, Received, Debt, DebtNamed, Owed, Unspent, Spendable, Repeated, NonNegativeRows,
         NonNegativeOutputs, Unit, Distinct;
    var after := Received(lib, s, m, signature).0.utxos;
    SpendableIs(lib, s.utxos);
    SpendableIs(lib, after);
    Account(lib, s, m, signature);
    DebtAccount(lib, s, m, signature);
    NoDebt(lib, s.utxos);
    NamedDebtBounds(lib, s.utxos, m.inputs);
    NothingOwed(lib, m.outputs);
    if Distinct(m.inputs) {
      NothingRepeated(lib, s.utxos, m.inputs);
    }
  }

  // No accepted message of the run has a negative output.
  predicate AllNonNegative(lib: Library, s: State, rs: seq<Request>)
  {
    rs == [] ||
    (AllNonNegative(lib, s, rs[..|rs| - 1]) &&
     var before, r := Run(lib, s, rs[..|rs| - 1]), rs[|rs| - 1];
     Accepted(lib, before, r.m, r.signature) ==> NonNegativeOutputs(lib, r.m.outputs))
  }

  // Over a run without negative outputs no row is negative, so what can be spent is the total, and it
  // is constant where the total is.
  lemma {:induction false} RunStaysSpendable(lib: Library, s: State, rs: seq<Request>)
    requires PrintsExactly(lib) && UniqueIds(s.utxos) && AllFresh(lib, s, rs) && AllNonNegative(lib, s, rs)
    requires NonNegativeRows(lib, s.utxos)
    ensures NonNegativeRows(lib, Run(lib, s, rs).utxos)
    ensures Spendable(lib, Run(lib, s, rs).utxos) == Unspent(lib, Run(lib, s, rs).utxos)
    ensures AllBalanced(lib, s, rs) ==> Spendable(lib, Run(lib, s, rs).utxos) == Spendable(lib, s.utxos)
  {
    hide Accepted, Received, NonNegativeRows, NonNegativeOutputs, Unspent, Spendable, Debt, UniqueIds, AllBalanced;
    if rs != [] {
      var before, r := Run(lib, s, rs[..|rs| - 1]), rs[|rs| - 1];
      RunStaysSpendable(lib, s, rs[..|rs| - 1]);
      if Accepted(lib, before, r.m, r.signature) {
        StaysNonNegativeIff(lib, before, r.m, r.signature);
      } else {
        RejectedChangesNothing(lib, before, r.m, r.signature);
      }
    }
    SpendableIs(lib, Run(lib, s, rs).utxos);
    NoDebt(lib, Run(lib, s, rs).utxos);
    SpendableIs(lib, s.utxos);
    NoDebt(lib, s.utxos);
    if AllBalanced(lib, s, rs) {
      RunConserves(lib, s, rs);
    }
  }
}
