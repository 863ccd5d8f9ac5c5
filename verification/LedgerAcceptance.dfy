/**
 When the ledger accepts a message and what it answers, said of the rows themselves; who can spend a
 row it writes; and the signature behind every row spent.
 */
module LedgerAcceptance {
  import opened Wrappers
  import opened Ledgers
  import opened LedgerLaws
  import opened LedgerIds
  import LedgerExamples

  // ---- the queries ----

  predicate IsUnspent(rows: seq<Utxo>, h: string, i: nat) { i < |rows| && rows[i].tail == "0" && rows[i].hash == h }

  predicate Owns(rows: seq<Utxo>, key: string, h: string)
  {
    exists i: nat | i < |rows| :: IsUnspent(rows, h, i) && rows[i].publicKey == key
  }

  lemma {:induction false} CountIff(rows: seq<Utxo>, h: string, key: string)
    ensures CountOfHash(rows, h, key) > 0 <==> Owns(rows, key, h)
  {
    if rows != [] {
      CountIff(rows[1..], h, key);
      if Owns(rows[1..], key, h) {
        var i: nat :| i < |rows| - 1 && IsUnspent(rows[1..], h, i) && rows[1..][i].publicKey == key;
        assert IsUnspent(rows, h, i + 1) && rows[i + 1].publicKey == key;
      }
      if Owns(rows, key, h) && !(rows[0].tail == "0" && rows[0].hash == h && rows[0].publicKey == key) {
        var i: nat :| i < |rows| && IsUnspent(rows, h, i) && rows[i].publicKey == key;
        assert IsUnspent(rows[1..], h, i - 1) && rows[1..][i - 1].publicKey == key;
      }
    }
  }

  // The value read for an id is that of its first unspent row.
  lemma {:induction false} SelectedIs(rows: seq<Utxo>, h: string) returns (i: nat)
    ensures SelectValue(rows, h).None? ==> forall j: nat | j < |rows| :: !IsUnspent(rows, h, j)
    ensures SelectValue(rows, h).Some? ==> IsUnspent(rows, h, i) && SelectValue(rows, h) == Some(rows[i].value)
    ensures SelectValue(rows, h).Some? ==> forall j: nat | j < i :: !IsUnspent(rows, h, j)
  {
    i := 0;
    if rows != [] && !IsUnspent(rows, h, 0) {
      var k := SelectedIs(rows[1..], h);
      assert forall j: nat | 0 < j < |rows| :: IsUnspent(rows, h, j) ==> IsUnspent(rows[1..], h, j - 1);
      i := k + 1;
    }
  }

  // ---- worth ----

  predicate Readable(lib: Library, text: string) { lib.decimal(text).Some? }

  // A value without decimal places.
  predicate Whole(lib: Library, text: string) { Readable(lib, text) && lib.decimal(text).value.scale <= 0 }

  predicate NamesReadable(lib: Library, rows: seq<Utxo>, h: string)
  {
    exists i: nat | i < |rows| :: IsUnspent(rows, h, i) && Readable(lib, rows[i].value)
  }

  predicate NamesWhole(lib: Library, rows: seq<Utxo>, h: string)
  {
    exists i: nat | i < |rows| :: IsUnspent(rows, h, i) && Whole(lib, rows[i].value)
  }

  // Every input names an unspent row with a readable value, and every output has one.
  predicate AllReadable(lib: Library, rows: seq<Utxo>, m: Message)
  {
    && (forall k | 0 <= k < |m.inputs| :: NamesReadable(lib, rows, m.inputs[k]))
    && (forall k | 0 <= k < |m.outputs| :: Readable(lib, m.outputs[k].value))
  }

  predicate AllWhole(lib: Library, rows: seq<Utxo>, m: Message)
  {
    && (forall k | 0 <= k < |m.inputs| :: NamesWhole(lib, rows, m.inputs[k]))
    && (forall k | 0 <= k < |m.outputs| :: Whole(lib, m.outputs[k].value))
  }

  // What the inputs name, an input listed twice counted twice, and what the outputs ask for.
  function InputWorth(lib: Library, rows: seq<Utxo>, inputs: seq<string>): real
  {
    if inputs == [] then 0.0 else Named(lib, rows, [inputs[0]]) + InputWorth(lib, rows, inputs[1..])
  }

  function OutputWorth(lib: Library, outputs: seq<Output>): real
  {
    if outputs == [] then 0.0 else Number(lib, outputs[0].value) + OutputWorth(lib, outputs[1..])
  }

  lemma {:induction false} InputWorthSnoc(lib: Library, rows: seq<Utxo>, inputs: seq<string>, h: string)
    ensures InputWorth(lib, rows, inputs + [h]) == InputWorth(lib, rows, inputs) + Named(lib, rows, [h])
  {
    hide Named;
    if inputs == [] {
      assert [h][1..] == [] && [] + [h] == [h];
    } else {
      assert (inputs + [h])[1..] == inputs[1..] + [h];
      InputWorthSnoc(lib, rows, inputs[1..], h);
    }
  }

  lemma {:induction false} OutputWorthSnoc(lib: Library, outputs: seq<Output>, o: Output)
    ensures OutputWorth(lib, outputs + [o]) == OutputWorth(lib, outputs) + Number(lib, o.value)
  {
    hide Number;
    if outputs == [] {
      assert [o][1..] == [] && [] + [o] == [o];
    } else {
      assert (outputs + [o])[1..] == outputs[1..] + [o];
      OutputWorthSnoc(lib, outputs[1..], o);
    }
  }

  lemma PlusScale(a: Amount, b: Amount)
    requires a.scale >= 0
    ensures Plus(a, b).scale >= 0 && (Plus(a, b).scale == 0 <==> a.scale == 0 && b.scale <= 0)
  {
  }

  lemma MinusScale(a: Amount, b: Amount)
    requires a.scale >= 0 && b.scale >= 0
    ensures Minus(a, b).scale == 0 <==> a.scale == 0 && b.scale == 0
  {
  }

  // The row an input is worth, with distinct ids.
  lemma InputIs(lib: Library, rows: seq<Utxo>, h: string)
    requires UniqueIds(rows)
    ensures SelectValue(rows, h).Some? && Readable(lib, SelectValue(rows, h).value) <==> NamesReadable(lib, rows, h)
    ensures SelectValue(rows, h).Some? && Whole(lib, SelectValue(rows, h).value) <==> NamesWhole(lib, rows, h)
    ensures SelectValue(rows, h).Some? ==> Number(lib, SelectValue(rows, h).value) == Named(lib, rows, [h])
  {
    hide SelectValue, Named, Number;
    var i := SelectedIs(rows, h);
    NameOneMore(lib, rows, [], h);
    NothingNamed(lib, rows);
    assert [] + [h] == [h];
  }

  lemma {:induction false} InputSumWorth(lib: Library, rows: seq<Utxo>, inputs: seq<string>)
    requires UniqueIds(rows)
    ensures InputSum(lib, rows, inputs).Some? <==>
      forall k | 0 <= k < |inputs| :: NamesReadable(lib, rows, inputs[k])
    ensures InputSum(lib, rows, inputs).Some? ==>
      && InputSum(lib, rows, inputs).value.Number() == InputWorth(lib, rows, inputs)
      && InputSum(lib, rows, inputs).value.scale >= 0
      && (InputSum(lib, rows, inputs).value.scale == 0 <==>
            forall k | 0 <= k < |inputs| :: NamesWhole(lib, rows, inputs[k]))
  {
    hide Unit, Plus, SelectValue, Named, UniqueIds, NamesReadable, NamesWhole;
    ZeroNumber();
    if inputs != [] {
      var front, h := inputs[..|inputs| - 1], inputs[|inputs| - 1];
      assert inputs == front + [h];
      InputSumWorth(lib, rows, front);
      InputIs(lib, rows, h);
      InputWorthSnoc(lib, rows, front, h);
      if InputSum(lib, rows, front).Some? && SelectValue(rows, h).Some? && Readable(lib, SelectValue(rows, h).value) {
        PlusNumber(InputSum(lib, rows, front).value, lib.decimal(SelectValue(rows, h).value).value);
        PlusScale(InputSum(lib, rows, front).value, lib.decimal(SelectValue(rows, h).value).value);
      }
    }
  }

  lemma {:induction false} OutputSumWorth(lib: Library, outputs: seq<Output>)
    ensures OutputSum(lib, outputs).Some? <==> forall k | 0 <= k < |outputs| :: Readable(lib, outputs[k].value)
    ensures OutputSum(lib, outputs).Some? ==>
      && OutputSum(lib, outputs).value.Number() == OutputWorth(lib, outputs)
      && OutputSum(lib, outputs).value.scale >= 0
      && (OutputSum(lib, outputs).value.scale == 0 <==> forall k | 0 <= k < |outputs| :: Whole(lib, outputs[k].value))
  {
    hide Unit, Plus;
    ZeroNumber();
    if outputs != [] {
      var front, o := outputs[..|outputs| - 1], outputs[|outputs| - 1];
      assert outputs == front + [o];
      OutputSumWorth(lib, front);
      OutputWorthSnoc(lib, front, o);
      if OutputSum(lib, front).Some? && Readable(lib, o.value) {
        PlusNumber(OutputSum(lib, front).value, lib.decimal(o.value).value);
        PlusScale(OutputSum(lib, front).value, lib.decimal(o.value).value);
      }
    }
  }

  // ---- acceptance ----

  /**
   A message is accepted exactly if its signature verifies under the key it names, every input names an
   unspent row of that key, all values can be read, and the inputs are worth what the outputs ask for.
   */
  lemma AcceptedIff(lib: Library, s: State, m: Message, signature: string)
    requires UniqueIds(s.utxos)
    ensures Accepted(lib, s, m, signature) <==>
      && lib.verify(signature, m.text, m.publicKey)
      && (forall k | 0 <= k < |m.inputs| :: Owns(s.utxos, m.publicKey, m.inputs[k]))
      && AllReadable(lib, s.utxos, m)
      && InputWorth(lib, s.utxos, m.inputs) >= OutputWorth(lib, m.outputs)
  {
    hide Unit, Minus, InputSum, OutputSum, InputWorth, OutputWorth, CountOfHash, Owns, UniqueIds, NamesReadable,
         NamesWhole;
    InputSumWorth(lib, s.utxos, m.inputs);
    OutputSumWorth(lib, m.outputs);
    forall k | 0 <= k < |m.inputs|
      ensures CountOfHash(s.utxos, m.inputs[k], m.publicKey) > 0 <==> Owns(s.utxos, m.publicKey, m.inputs[k])
    {
      CountIff(s.utxos, m.inputs[k], m.publicKey);
    }
  }

  lemma RemainIs(lib: Library, s: State, m: Message, signature: string)
    requires UniqueIds(s.utxos) && Accepted(lib, s, m, signature)
    ensures var remain := Remain(lib, s, m, signature);
      && remain.Number() == InputWorth(lib, s.utxos, m.inputs) - OutputWorth(lib, m.outputs)
      && (remain.scale == 0 <==> AllWhole(lib, s.utxos, m))
  {
    hide Unit, Minus, InputSum, OutputSum, InputWorth, OutputWorth, AllOwned, UniqueIds, NamesReadable,
         NamesWhole;
    InputSumWorth(lib, s.utxos, m.inputs);
    OutputSumWorth(lib, m.outputs);
    MinusNumber(InputSum(lib, s.utxos, m.inputs).value, OutputSum(lib, m.outputs).value);
    MinusScale(InputSum(lib, s.utxos, m.inputs).value, OutputSum(lib, m.outputs).value);
  }

  /**
   The answer: "valid" exactly for an accepted message whose values have no decimal places and whose
   change is below 2^31; an exception exactly for a value that cannot be read and for other accepted
   messages. Nothing is written for a message that is not accepted.
   */
  lemma AnswerIs(lib: Library, s: State, m: Message, signature: string)
    requires UniqueIds(s.utxos)
    ensures var (s', answer) := Received(lib, s, m, signature);
      var fits := AllWhole(lib, s.utxos, m)
        && InputWorth(lib, s.utxos, m.inputs) - OutputWorth(lib, m.outputs) < 2147483648.0;
      && (answer == ValidTX <==> Accepted(lib, s, m, signature) && fits)
      && (answer == Threw <==> !AllReadable(lib, s.utxos, m) || (Accepted(lib, s, m, signature) && !fits))
      && (s' == s <==> !Accepted(lib, s, m, signature))
  {
    hide Unit, Minus, InputSum, OutputSum, InputWorth, OutputWorth, AllOwned, UniqueIds, NamesReadable,
         NamesWhole, Spend, NewRows, ChangeRow;
    InputSumWorth(lib, s.utxos, m.inputs);
    OutputSumWorth(lib, m.outputs);
    RejectedChangesNothing(lib, s, m, signature);
    if Accepted(lib, s, m, signature) {
      var remain := Remain(lib, s, m, signature);
      RemainIs(lib, s, m, signature);
      RemainIsNotNegative(lib, s, m, signature);
      if remain.scale == 0 {
        IntNumber(remain);
      }
    }
  }

  // ---- the rows written ----

  // Row i behind the old ones is output i + 1: its value, its key, the transaction in front of it, its
  // number; and with distinct ids it is exactly the addressee who can name it as an input.
  lemma OutputIsAddressees(lib: Library, s: State, m: Message, signature: string, i: nat, key: string)
    requires Accepted(lib, s, m, signature) && i < |m.outputs|
    requires UniqueIds(Received(lib, s, m, signature).0.utxos)
    ensures var after := Received(lib, s, m, signature).0.utxos;
      |s.utxos| + i < |after| && var row := after[|s.utxos| + i];
      && (Owns(after, key, row.hash) <==> key == m.outputs[i].publicKey)
      && row.value == m.outputs[i].value && row.head == lib.hash(m.text)
      && LedgerExamples.Digits(row.index) == Some(i + 1)
  {
    hide Accepted, Spend, InputSum, OutputSum, Unit, Minus, Decimal, LedgerExamples.Digits, ChangeRow, Preimage,
         Received;
    var after, n := Received(lib, s, m, signature).0.utxos, |s.utxos|;
    AllRowsAfter(lib, s, m, signature);
    LedgerExamples.DigitsBack(i + 1);
    assert after[n + i] == NewRows(lib, m.outputs, lib.hash(m.text))[i];
    OnlyOwner(after, n + i, key);
  }

  // The change goes back to the signer, as row number 0.
  lemma ChangeIsSigners(lib: Library, s: State, m: Message, signature: string, key: string)
    requires Accepted(lib, s, m, signature) && UniqueIds(Received(lib, s, m, signature).0.utxos)
    requires |Received(lib, s, m, signature).0.utxos| > |s.utxos| + |m.outputs|
    ensures var after := Received(lib, s, m, signature).0.utxos;
      |after| == |s.utxos| + |m.outputs| + 1 && var row := after[|after| - 1];
      && (Owns(after, key, row.hash) <==> key == m.publicKey)
      && row.value == lib.show(Remain(lib, s, m, signature)) && row.head == lib.hash(m.text) && row.index == "0"
  {
    hide Accepted, Spend, InputSum, OutputSum, Unit, Minus, Decimal, NewRows, Preimage, Received, IsIntText;
    var after := Received(lib, s, m, signature).0.utxos;
    AllRowsAfter(lib, s, m, signature);
    assert after[|after| - 1] == ChangeRow(lib, m, Remain(lib, s, m, signature), lib.hash(m.text))[0];
    OnlyOwner(after, |after| - 1, key);
  }

  lemma OnlyOwner(rows: seq<Utxo>, i: nat, key: string)
    requires UniqueIds(rows) && i < |rows| && rows[i].tail == "0"
    ensures Owns(rows, key, rows[i].hash) <==> key == rows[i].publicKey
  {
    assert IsUnspent(rows, rows[i].hash, i);
  }

  // ---- signatures ----

  // Without a signature that verifies nothing is written and nothing is answered as valid.
  lemma UnsignedChangesNothing(lib: Library, s: State, m: Message, signature: string)
    requires !lib.verify(signature, m.text, m.publicKey)
    ensures Received(lib, s, m, signature).0 == s && Received(lib, s, m, signature).1 != ValidTX
  {
    hide InputSum, OutputSum, Unit, Minus, AllOwned;
  }

  // Request k of the run was accepted, names the row, and is signed under the row's key.
  predicate SignedSpend(lib: Library, s: State, rs: seq<Request>, k: nat, row: Utxo)
  {
    && k < |rs| && AcceptedAt(lib, s, rs, k) && row.hash in rs[k].m.inputs && row.tail == lib.hash(rs[k].m.text)
    && lib.verify(rs[k].signature, rs[k].m.text, row.publicKey)
  }

  // Every row spent during a run was spent by a request whose signature verifies under the row's key.
  lemma {:induction false} SpentBySignature(lib: Library, s: State, rs: seq<Request>, i: nat) returns (k: nat)
    requires UniqueIds(s.utxos) && AllFresh(lib, s, rs) && i < |Run(lib, s, rs).utxos|
    requires Run(lib, s, rs).utxos[i].tail != if i < |s.utxos| then s.utxos[i].tail else "0"
    ensures SignedSpend(lib, s, rs, k, Run(lib, s, rs).utxos[i])
  {
    hide Received, Accepted, UniqueIds, Fresh;
    var front, r := rs[..|rs| - 1], rs[|rs| - 1];
    var before := Run(lib, s, front);
    RunKeepsIds(lib, s, front);
    RejectedChangesNothing(lib, before, r.m, r.signature);
    if !Accepted(lib, before, r.m, r.signature) || (i < |before.utxos| && before.utxos[i].hash !in r.m.inputs) {
      if Accepted(lib, before, r.m, r.signature) {
        RowAfter(lib, before, r.m, r.signature, i);
      }
      k := SpentBySignature(lib, s, front, i);
      assert front[..k] == rs[..k];
    } else {
      k := |rs| - 1;
      if i < |before.utxos| {
        RowAfter(lib, before, r.m, r.signature, i);
        InputIsOwned(lib, before, r.m, r.signature, i);
      } else {
        GrowsOnly(lib, s, front);
        RowsAdded(lib, before, r.m, r.signature, i);
      }
      SignedIfAccepted(lib, before, r.m, r.signature);
    }
  }

  lemma SignedIfAccepted(lib: Library, s: State, m: Message, signature: string)
    requires Accepted(lib, s, m, signature)
    ensures lib.verify(signature, m.text, m.publicKey)
  {
    hide InputSum, OutputSum, Unit, Minus, AllOwned;
  }

  lemma {:induction false} GrowsOnly(lib: Library, s: State, rs: seq<Request>)
    ensures |s.utxos| <= |Run(lib, s, rs).utxos|
  {
    hide Received, Accepted;
    if rs != [] {
      var before, r := Run(lib, s, rs[..|rs| - 1]), rs[|rs| - 1];
      GrowsOnly(lib, s, rs[..|rs| - 1]);
      RejectedChangesNothing(lib, before, r.m, r.signature);
      if Accepted(lib, before, r.m, r.signature) {
        TransactionSaved(lib, before, r.m, r.signature);
      }
    }
  }
}
