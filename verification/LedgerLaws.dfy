/**
 What the ledger keeps over runs: the total unspent value, one spend per UTXO and only by its owner,
 and distinct ids.
 */
module LedgerLaws {
  import opened Wrappers
  import opened Ledgers

  // ---- decimals ----

  lemma UnitStep(scale: int)
    ensures Unit(scale) == 10.0 * Unit(scale + 1)
  {
    if scale < 0 {
      assert Pow10(-scale) == 10 * Pow10(-scale - 1);
    } else {
      assert Pow10(scale + 1) == 10 * Pow10(scale);
      Tenth(Pow10(scale) as real);
    }
  }

  lemma Tenth(p: real)
    requires p > 0.0
    ensures 1.0 / p == 10.0 * (1.0 / (10.0 * p))
  {
  }

  lemma {:induction false} UnitScales(scale: int, n: nat)
    ensures Unit(scale) == Pow10(n) as real * Unit(scale + n)
  {
    hide Unit;
    if n > 0 {
      UnitScales(scale, n - 1);
      UnitStep(scale + n - 1);
      Regroup(Pow10(n - 1) as real, Unit(scale + n));
    }
  }

  lemma Regroup(p: real, u: real)
    ensures p * (10.0 * u) == (10.0 * p) * u
  {
  }

  lemma RescaledNumber(a: Amount, scale: int)
    requires a.scale <= scale
    ensures Rescaled(a, scale) as real * Unit(scale) == a.Number()
  {
    hide Unit, Pow10;
    UnitScales(a.scale, scale - a.scale);
    var p, u := Pow10(scale - a.scale), Unit(scale);
    assert (a.unscaled * p) as real == a.unscaled as real * p as real;
    Associate(a.unscaled as real, p as real, u);
  }

  lemma Associate(x: real, y: real, z: real)
    ensures (x * y) * z == x * (y * z)
  {
  }

  lemma AddUnits(x: int, y: int, u: real)
    ensures (x + y) as real * u == x as real * u + y as real * u && (-x) as real * u == -(x as real * u)
  {
  }

  // BigDecimal addition and subtraction are those of numbers, whatever the scales.
  lemma PlusNumber(a: Amount, b: Amount)
    ensures Plus(a, b).Number() == a.Number() + b.Number()
  {
    hide Unit, Rescaled;
    var scale := Max(a.scale, b.scale);
    RescaledNumber(a, scale);
    RescaledNumber(b, scale);
    AddUnits(Rescaled(a, scale), Rescaled(b, scale), Unit(scale));
  }

  lemma MinusNumber(a: Amount, b: Amount)
    ensures Minus(a, b).Number() == a.Number() - b.Number()
  {
    hide Unit, Plus;
    var negated := Amount(-b.unscaled, b.scale);
    PlusNumber(a, negated);
    AddUnits(b.unscaled, 0, Unit(b.scale));
  }

  lemma IntNumber(a: Amount)
    requires a.scale == 0
    ensures a.Number() == a.unscaled as real
  {
  }

  lemma ZeroNumber()
    ensures ZERO.Number() == 0.0
  {
  }

  // ---- value ----

  function Number(lib: Library, text: string): real
  {
    match lib.decimal(text)
    case Some(a) => a.Number()
    case None => 0.0
  }

  function Unspent(lib: Library, rows: seq<Utxo>): real
  {
    if rows == [] then 0.0
    else (if rows[0].tail == "0" then Number(lib, rows[0].value) else 0.0) + Unspent(lib, rows[1..])
  }

  // The unspent value of the rows named by inputs, each counted once.
  function Named(lib: Library, rows: seq<Utxo>, inputs: seq<string>): real
  {
    if rows == [] then 0.0
    else (if rows[0].tail == "0" && rows[0].hash in inputs then Number(lib, rows[0].value) else 0.0)
         + Named(lib, rows[1..], inputs)
  }

  function InputValue(lib: Library, rows: seq<Utxo>, h: string): real
  {
    match SelectValue(rows, h)
    case Some(v) => Number(lib, v)
    case None => 0.0
  }

  // The value of inputs listed again.
  function Repeated(lib: Library, rows: seq<Utxo>, inputs: seq<string>): real
  {
    if inputs == [] then 0.0
    else
      var front, h := inputs[..|inputs| - 1], inputs[|inputs| - 1];
      Repeated(lib, rows, front) + if h in front then InputValue(lib, rows, h) else 0.0
  }

  // Change that is never written back: Integer.valueOf threw on it.
  function Lost(remain: Amount): real { if remain.Number() > 0.0 && !IsIntText(remain) then remain.Number() else 0.0 }

  predicate UniqueIds(rows: seq<Utxo>) { forall i, j | 0 <= i < j < |rows| :: rows[i].hash != rows[j].hash }

  predicate Distinct(inputs: seq<string>) { forall i, j | 0 <= i < j < |inputs| :: inputs[i] != inputs[j] }

  lemma {:induction false} UnspentAppend(lib: Library, a: seq<Utxo>, b: seq<Utxo>)
    ensures Unspent(lib, a + b) == Unspent(lib, a) + Unspent(lib, b)
  {
    if a == [] {
      assert a + b == b;
    } else {
      assert (a + b)[1..] == a[1..] + b;
      UnspentAppend(lib, a[1..], b);
    }
  }

  lemma {:induction false} SpendIs(rows: seq<Utxo>, inputs: seq<string>, tx: string, i: nat)
    requires i < |rows|
    ensures Spend(rows, inputs, tx)[i] == if rows[i].hash in inputs then rows[i].(tail := tx) else rows[i]
  {
    if inputs != [] {
      SpendIs(rows, inputs[..|inputs| - 1], tx, i);
      assert inputs == inputs[..|inputs| - 1] + [inputs[|inputs| - 1]];
    }
  }

  // Two tables that differ by marking the rows in inputs as spent.
  lemma {:induction false} MarkedValue(lib: Library, rows: seq<Utxo>, after: seq<Utxo>, inputs: seq<string>, tx: string)
    requires tx != "0" && |after| == |rows|
    requires forall i | 0 <= i < |rows| ::
      after[i] == if rows[i].hash in inputs then rows[i].(tail := tx) else rows[i]
    ensures Unspent(lib, after) == Unspent(lib, rows) - Named(lib, rows, inputs)
  {
    if rows != [] {
      MarkedValue(lib, rows[1..], after[1..], inputs, tx);
    }
  }

  lemma SpendValue(lib: Library, rows: seq<Utxo>, inputs: seq<string>, tx: string)
    requires tx != "0"
    ensures Unspent(lib, Spend(rows, inputs, tx)) == Unspent(lib, rows) - Named(lib, rows, inputs)
  {
    forall i | 0 <= i < |rows|
      ensures Spend(rows, inputs, tx)[i] == if rows[i].hash in inputs then rows[i].(tail := tx) else rows[i]
    {
      SpendIs(rows, inputs, tx, i);
    }
    MarkedValue(lib, rows, Spend(rows, inputs, tx), inputs, tx);
  }

  lemma {:induction false} NoneSelected(rows: seq<Utxo>, h: string)
    requires forall i | 0 <= i < |rows| :: rows[i].hash != h
    ensures SelectValue(rows, h) == None
  {
    if rows != [] {
      NoneSelected(rows[1..], h);
    }
  }

  lemma {:induction false} NameOneMore(lib: Library, rows: seq<Utxo>, inputs: seq<string>, h: string)
    requires UniqueIds(rows) && h !in inputs
    ensures Named(lib, rows, inputs + [h]) == Named(lib, rows, inputs) + InputValue(lib, rows, h)
  {
    if rows != [] {
      NameOneMore(lib, rows[1..], inputs, h);
      if rows[0].hash == h {
        NoneSelected(rows[1..], h);
      }
    }
  }

  lemma {:induction false} NameAgain(lib: Library, rows: seq<Utxo>, inputs: seq<string>, h: string)
    requires h in inputs
    ensures Named(lib, rows, inputs + [h]) == Named(lib, rows, inputs)
  {
    if rows != [] {
      NameAgain(lib, rows[1..], inputs, h);
    }
  }

  lemma {:induction false} NothingNamed(lib: Library, rows: seq<Utxo>)
    ensures Named(lib, rows, []) == 0.0
  {
    if rows != [] {
      NothingNamed(lib, rows[1..]);
    }
  }

  lemma {:induction false} InputSumIs(lib: Library, rows: seq<Utxo>, inputs: seq<string>)
    requires UniqueIds(rows) && InputSum(lib, rows, inputs).Some?
    ensures InputSum(lib, rows, inputs).value.Number() == Named(lib, rows, inputs) + Repeated(lib, rows, inputs)
  {
    hide Unit, Plus;
    if inputs == [] {
      NothingNamed(lib, rows);
      ZeroNumber();
    } else {
      var front, h := inputs[..|inputs| - 1], inputs[|inputs| - 1];
      assert inputs == front + [h];
      InputSumIs(lib, rows, front);
      PlusNumber(InputSum(lib, rows, front).value, lib.decimal(SelectValue(rows, h).value).value);
      if h in front {
        NameAgain(lib, rows, front, h);
      } else {
        NameOneMore(lib, rows, front, h);
      }
    }
  }

  lemma {:induction false} NewRowsValue(lib: Library, outputs: seq<Output>, tx: string)
    requires OutputSum(lib, outputs).Some?
    ensures Unspent(lib, NewRows(lib, outputs, tx)) == OutputSum(lib, outputs).value.Number()
  {
    hide Unit, Plus;
    ZeroNumber();
    if outputs != [] {
      var n := |outputs| - 1;
      var row := NewRow(lib, Decimal(n + 1), outputs[n].value, outputs[n].publicKey, tx);
      NewRowsValue(lib, outputs[..n], tx);
      assert NewRows(lib, outputs, tx) == NewRows(lib, outputs[..n], tx) + [row];
      UnspentAppend(lib, NewRows(lib, outputs[..n], tx), [row]);
      UnspentOne(lib, row);
      PlusNumber(OutputSum(lib, outputs[..n]).value, lib.decimal(outputs[n].value).value);
    }
  }

  lemma UnspentOne(lib: Library, row: Utxo)
    requires row.tail == "0"
    ensures Unspent(lib, [row]) == Number(lib, row.value)
  {
    assert [row][1..] == [];
  }

  lemma ChangeValue(lib: Library, m: Message, remain: Amount, tx: string)
    requires PrintsExactly(lib) && remain.Number() >= 0.0
    ensures Unspent(lib, ChangeRow(lib, m, remain, tx)) == remain.Number() - Lost(remain)
    ensures IsIntText(remain) ==> (ChangeRow(lib, m, remain, tx) == [] <==> remain.Number() == 0.0)
  {
    hide Unit;
    if IsIntText(remain) {
      IntNumber(remain);
    }
    if IsIntText(remain) && remain.unscaled > 0 {
      UnspentOne(lib, NewRow(lib, "0", lib.show(remain), m.publicKey, tx));
    }
  }

  // The message passes all checks, leaving remain to give back.
  predicate Accepted(lib: Library, s: State, m: Message, signature: string)
  {
    var check := Validation(lib, s.utxos, m, signature);
    check.Check? && check.isValid
  }

  function Remain(lib: Library, s: State, m: Message, signature: string): Amount
    requires Accepted(lib, s, m, signature)
  {
    Validation(lib, s.utxos, m, signature).remain
  }

  lemma RemainIsNotNegative(lib: Library, s: State, m: Message, signature: string)
    requires Accepted(lib, s, m, signature)
    ensures Remain(lib, s, m, signature).Number() >= 0.0
  {
    hide Unit, InputSum, OutputSum, Plus, Minus;
    MinusNumber(InputSum(lib, s.utxos, m.inputs).value, OutputSum(lib, m.outputs).value);
  }

  // The exact account of one accepted message: repeated inputs create value, lost change destroys it.
  lemma Account(lib: Library, s: State, m: Message, signature: string)
    requires PrintsExactly(lib) && UniqueIds(s.utxos) && lib.hash(m.text) != "0"
    requires Accepted(lib, s, m, signature)
    ensures Unspent(lib, Received(lib, s, m, signature).0.utxos) ==
      Unspent(lib, s.utxos) + Repeated(lib, s.utxos, m.inputs) - Lost(Remain(lib, s, m, signature))
  {
    var tx, remain := lib.hash(m.text), Remain(lib, s, m, signature);
    var spent, created := Spend(s.utxos, m.inputs, tx), NewRows(lib, m.outputs, tx);
    hide Unit, Plus, Minus, Unspent, Spend, NewRows, ChangeRow, Named, Repeated, InputSum, OutputSum, Lost;
    MinusNumber(InputSum(lib, s.utxos, m.inputs).value, OutputSum(lib, m.outputs).value);
    SpendValue(lib, s.utxos, m.inputs, tx);
    InputSumIs(lib, s.utxos, m.inputs);
    NewRowsValue(lib, m.outputs, tx);
    ChangeValue(lib, m, remain, tx);
    UnspentAppend(lib, spent, created);
    UnspentAppend(lib, spent + created, ChangeRow(lib, m, remain, tx));
  }

  lemma {:induction false} NothingRepeated(lib: Library, rows: seq<Utxo>, inputs: seq<string>)
    requires Distinct(inputs)
    ensures Repeated(lib, rows, inputs) == 0.0
  {
    if inputs != [] {
      NothingRepeated(lib, rows, inputs[..|inputs| - 1]);
    }
  }

  lemma {:induction false} SomethingRepeated(lib: Library, rows: seq<Utxo>, inputs: seq<string>)
    requires forall i | 0 <= i < |inputs| :: InputValue(lib, rows, inputs[i]) > 0.0
    ensures Repeated(lib, rows, inputs) >= 0.0
    ensures !Distinct(inputs) ==> Repeated(lib, rows, inputs) > 0.0
  {
    if inputs != [] {
      SomethingRepeated(lib, rows, inputs[..|inputs| - 1]);
    }
  }

  // With distinct inputs the total stays the same exactly when the change is zero or fits an int.
  lemma ConservedIffChangeFits(lib: Library, s: State, m: Message, signature: string)
    requires PrintsExactly(lib) && UniqueIds(s.utxos) && lib.hash(m.text) != "0"
    requires Accepted(lib, s, m, signature) && Distinct(m.inputs)
    ensures Unspent(lib, Received(lib, s, m, signature).0.utxos) == Unspent(lib, s.utxos)
      <==> Remain(lib, s, m, signature).Number() == 0.0 || IsIntText(Remain(lib, s, m, signature))
  {
    hide Unspent, Received, Repeated, Accepted, Remain, Distinct, UniqueIds, Unit;
    Account(lib, s, m, signature);
    RemainIsNotNegative(lib, s, m, signature);
    NothingRepeated(lib, s.utxos, m.inputs);
    var remain := Remain(lib, s, m, signature);
    if IsIntText(remain) {
      IntNumber(remain);
    }
  }

  // Whatever the values: the total stays the same exactly when the inputs listed again are worth just
  // what is lost.
  lemma ConservedIffBalanced(lib: Library, s: State, m: Message, signature: string)
    requires PrintsExactly(lib) && UniqueIds(s.utxos) && lib.hash(m.text) != "0" && Accepted(lib, s, m, signature)
    ensures Unspent(lib, Received(lib, s, m, signature).0.utxos) == Unspent(lib, s.utxos)
      <==> Repeated(lib, s.utxos, m.inputs) == Lost(Remain(lib, s, m, signature))
  {
    hide Unspent, Received, Repeated, Accepted, Remain, Lost, UniqueIds, Unit;
    Account(lib, s, m, signature);
  }

  // With change that fits, and positive inputs, it stays the same exactly when no input is repeated.
  lemma ConservedIffDistinct(lib: Library, s: State, m: Message, signature: string)
    requires PrintsExactly(lib) && UniqueIds(s.utxos) && lib.hash(m.text) != "0"
    requires Accepted(lib, s, m, signature) && IsIntText(Remain(lib, s, m, signature))
    requires forall i | 0 <= i < |m.inputs| :: InputValue(lib, s.utxos, m.inputs[i]) > 0.0
    ensures Unspent(lib, Received(lib, s, m, signature).0.utxos) == Unspent(lib, s.utxos) <==> Distinct(m.inputs)
  {
    hide Unspent, Received, Repeated, Accepted, Remain, UniqueIds, Unit;
    Account(lib, s, m, signature);
    SomethingRepeated(lib, s.utxos, m.inputs);
    if Distinct(m.inputs) {
      NothingRepeated(lib, s.utxos, m.inputs);
    }
  }

  // ---- runs ----

  datatype Request = Request(m: Message, signature: string)

  function Run(lib: Library, s: State, rs: seq<Request>): State
  {
    if rs == [] then s
    else
      var before := Run(lib, s, rs[..|rs| - 1]);
      Received(lib, before, rs[|rs| - 1].m, rs[|rs| - 1].signature).0
  }

  // The rows an accepted message adds have ids found neither in the table nor among themselves,
  // and its own hash is not the marker for "unspent".
  predicate Fresh(lib: Library, s: State, r: Request)
  {
    lib.hash(r.m.text) != "0" &&
    (Accepted(lib, s, r.m, r.signature) ==>
      var tx := lib.hash(r.m.text);
      UniqueIds(s.utxos + (NewRows(lib, r.m.outputs, tx) + ChangeRow(lib, r.m, Remain(lib, s, r.m, r.signature), tx))))
  }

  predicate AllFresh(lib: Library, s: State, rs: seq<Request>)
  {
    rs == [] || (AllFresh(lib, s, rs[..|rs| - 1]) && Fresh(lib, Run(lib, s, rs[..|rs| - 1]), rs[|rs| - 1]))
  }

  // No accepted message repeats an input or leaves change that does not fit.
  predicate AllBalanced(lib: Library, s: State, rs: seq<Request>)
  {
    rs == [] ||
    (AllBalanced(lib, s, rs[..|rs| - 1]) &&
     var before, r := Run(lib, s, rs[..|rs| - 1]), rs[|rs| - 1];
     Accepted(lib, before, r.m, r.signature) ==>
       Distinct(r.m.inputs)
       && (Remain(lib, before, r.m, r.signature).Number() == 0.0 || IsIntText(Remain(lib, before, r.m, r.signature))))
  }

  lemma StepKeepsIds(lib: Library, s: State, r: Request)
    requires UniqueIds(s.utxos) && Fresh(lib, s, r)
    ensures UniqueIds(Received(lib, s, r.m, r.signature).0.utxos)
  {
    hide Spend, NewRows, ChangeRow, Unit, InputSum, OutputSum, AllOwned, Minus;
    if Accepted(lib, s, r.m, r.signature) {
      var tx := lib.hash(r.m.text);
      var added := NewRows(lib, r.m.outputs, tx) + ChangeRow(lib, r.m, Remain(lib, s, r.m, r.signature), tx);
      var before, after := s.utxos + added, Received(lib, s, r.m, r.signature).0.utxos;
      assert after == Spend(s.utxos, r.m.inputs, tx) + added;
      forall i | 0 <= i < |after|
        ensures after[i].hash == before[i].hash
      {
        if i < |s.utxos| { SpendIs(s.utxos, r.m.inputs, tx, i); }
      }
    }
  }

  lemma {:induction false} RunKeepsIds(lib: Library, s: State, rs: seq<Request>)
    requires UniqueIds(s.utxos) && AllFresh(lib, s, rs)
    ensures UniqueIds(Run(lib, s, rs).utxos)
  {
    if rs != [] {
      RunKeepsIds(lib, s, rs[..|rs| - 1]);
      StepKeepsIds(lib, Run(lib, s, rs[..|rs| - 1]), rs[|rs| - 1]);
    }
  }

  // The total unspent value is constant over every balanced run.
  lemma {:induction false} RunConserves(lib: Library, s: State, rs: seq<Request>)
    requires PrintsExactly(lib) && UniqueIds(s.utxos) && AllFresh(lib, s, rs) && AllBalanced(lib, s, rs)
    ensures Unspent(lib, Run(lib, s, rs).utxos) == Unspent(lib, s.utxos)
  {
    if rs != [] {
      var before, r := Run(lib, s, rs[..|rs| - 1]), rs[|rs| - 1];
      RunConserves(lib, s, rs[..|rs| - 1]);
      RunKeepsIds(lib, s, rs[..|rs| - 1]);
      if Accepted(lib, before, r.m, r.signature) {
        ConservedIffChangeFits(lib, before, r.m, r.signature);
      }
    }
  }

  // ---- history ----

  // The tail of row r is a saved transaction of the row's owner that lists it as an input.
  ghost predicate SpentByOwner(s: State, r: Utxo)
  {
    exists t | t in s.txs :: t.hash == r.tail && t.msg.publicKey == r.publicKey && r.hash in t.msg.inputs
  }

  ghost predicate HeadSaved(s: State, r: Utxo) { exists t | t in s.txs :: t.hash == r.head }

  // s' may follow s: transactions and rows are only added, a row changes only in its tail, the tail
  // changes only from "0" and only to a spend by the owner, and every added row has a saved head.
  ghost predicate Follows(s: State, s': State)
  {
    && s.txs <= s'.txs && |s.utxos| <= |s'.utxos|
    && (forall i | 0 <= i < |s.utxos| ::
          && s'.utxos[i] == s.utxos[i].(tail := s'.utxos[i].tail)
          && (s'.utxos[i].tail != s.utxos[i].tail ==> s.utxos[i].tail == "0" && SpentByOwner(s', s'.utxos[i])))
    && (forall i | |s.utxos| <= i < |s'.utxos| :: HeadSaved(s', s'.utxos[i]))
    && (forall i | |s.utxos| <= i < |s'.utxos| :: s'.utxos[i].tail == "0" || SpentByOwner(s', s'.utxos[i]))
  }

  lemma {:induction false} OwnedRowExists(rows: seq<Utxo>, h: string, key: string) returns (i: nat)
    requires CountOfHash(rows, h, key) > 0
    ensures i < |rows| && rows[i].tail == "0" && rows[i].hash == h && rows[i].publicKey == key
  {
    if rows[0].tail == "0" && rows[0].hash == h && rows[0].publicKey == key {
      i := 0;
    } else {
      var k := OwnedRowExists(rows[1..], h, key);
      i := k + 1;
    }
  }

  // An input of an accepted message is the id of an unspent row of the signer.
  lemma InputIsOwned(lib: Library, s: State, m: Message, signature: string, i: nat)
    requires UniqueIds(s.utxos) && Accepted(lib, s, m, signature)
    requires i < |s.utxos| && s.utxos[i].hash in m.inputs
    ensures s.utxos[i].tail == "0" && s.utxos[i].publicKey == m.publicKey
  {
    var k :| 0 <= k < |m.inputs| && m.inputs[k] == s.utxos[i].hash;
    assert CountOfHash(s.utxos, m.inputs[k], m.publicKey) > 0;
    var j := OwnedRowExists(s.utxos, m.inputs[k], m.publicKey);
    assert j == i;
  }

  lemma AllRowsAfter(lib: Library, s: State, m: Message, signature: string)
    requires Accepted(lib, s, m, signature)
    ensures var tx := lib.hash(m.text);
      Received(lib, s, m, signature).0.utxos == Spend(s.utxos, m.inputs, tx) + NewRows(lib, m.outputs, tx)
        + ChangeRow(lib, m, Remain(lib, s, m, signature), tx)
  {
    hide Spend, NewRows, ChangeRow, InputSum, OutputSum, Unit, AllOwned, Minus;
  }

  // The row the old row i has become: marked with the transaction, or as it was.
  lemma RowAfter(lib: Library, s: State, m: Message, signature: string, i: nat)
    requires Accepted(lib, s, m, signature) && i < |s.utxos|
    ensures var s' := Received(lib, s, m, signature).0;
      |s.utxos| <= |s'.utxos|
      && s'.utxos[i] == if s.utxos[i].hash in m.inputs then s.utxos[i].(tail := lib.hash(m.text)) else s.utxos[i]
  {
    hide Spend, NewRows, ChangeRow, InputSum, OutputSum, Unit, AllOwned, Minus;
    SpendIs(s.utxos, m.inputs, lib.hash(m.text), i);
  }

  lemma RowsAdded(lib: Library, s: State, m: Message, signature: string, i: nat)
    requires Accepted(lib, s, m, signature)
    requires |s.utxos| <= i < |Received(lib, s, m, signature).0.utxos|
    ensures var r := Received(lib, s, m, signature).0.utxos[i]; r.tail == "0" && r.head == lib.hash(m.text)
  {
    hide Spend, InputSum, OutputSum, Unit, AllOwned, Minus, Preimage;
  }

  lemma TransactionSaved(lib: Library, s: State, m: Message, signature: string)
    requires Accepted(lib, s, m, signature)
    ensures var s' := Received(lib, s, m, signature).0;
      s.txs <= s'.txs && Tx(lib.hash(m.text), m) in s'.txs && |s.utxos| <= |s'.utxos|
  {
    hide Spend, NewRows, ChangeRow, InputSum, OutputSum, Unit, AllOwned, Minus;
    var txs := s.txs + [Tx(lib.hash(m.text), m)];
    assert txs[|s.txs|] == Tx(lib.hash(m.text), m);
  }

  lemma StepFollows(lib: Library, s: State, m: Message, signature: string)
    requires UniqueIds(s.utxos)
    ensures Follows(s, Received(lib, s, m, signature).0)
  {
    hide Received, Accepted, UniqueIds;
    var s' := Received(lib, s, m, signature).0;
    RejectedChangesNothing(lib, s, m, signature);
    if Accepted(lib, s, m, signature) {
      var tx := Tx(lib.hash(m.text), m);
      TransactionSaved(lib, s, m, signature);
      forall i | 0 <= i < |s.utxos|
        ensures s'.utxos[i] == s.utxos[i].(tail := s'.utxos[i].tail)
        ensures s'.utxos[i].tail != s.utxos[i].tail ==> s.utxos[i].tail == "0" && SpentByOwner(s', s'.utxos[i])
      {
        RowAfter(lib, s, m, signature, i);
        if s.utxos[i].hash in m.inputs {
          InputIsOwned(lib, s, m, signature, i);
          assert tx in s'.txs && tx.hash == s'.utxos[i].tail && tx.msg.publicKey == s'.utxos[i].publicKey;
        }
      }
      forall i | |s.utxos| <= i < |s'.utxos|
        ensures HeadSaved(s', s'.utxos[i]) && s'.utxos[i].tail == "0"
      {
        RowsAdded(lib, s, m, signature, i);
        assert tx in s'.txs && tx.hash == s'.utxos[i].head;
      }
    }
  }

  lemma SpentStays(s: State, t: State, r: Utxo)
    requires SpentByOwner(s, r) && s.txs <= t.txs
    ensures SpentByOwner(t, r)
  {
    var x :| x in s.txs && x.hash == r.tail && x.msg.publicKey == r.publicKey && r.hash in x.msg.inputs;
    var k :| 0 <= k < |s.txs| && s.txs[k] == x;
    assert t.txs[k] == x;
  }

  lemma HeadStays(s: State, t: State, r: Utxo)
    requires HeadSaved(s, r) && s.txs <= t.txs
    ensures exists x | x in t.txs :: x.hash == r.head
  {
    var x :| x in s.txs && x.hash == r.head;
    var k :| 0 <= k < |s.txs| && s.txs[k] == x;
    assert t.txs[k] == x;
  }

  lemma FollowsTransitive(s: State, t: State, u: State)
    requires Follows(s, t) && Follows(t, u)
    ensures Follows(s, u)
  {
    hide SpentByOwner, HeadSaved;
    forall i | 0 <= i < |t.utxos| && SpentByOwner(t, t.utxos[i]) && t.utxos[i].tail == u.utxos[i].tail
      ensures SpentByOwner(u, u.utxos[i])
    {
      SpentStays(t, u, t.utxos[i]);
    }
    forall i | |s.utxos| <= i < |t.utxos|
      ensures HeadSaved(u, u.utxos[i])
    {
      HeadStays(t, u, t.utxos[i]);
      HeadOfSame(u, t.utxos[i], u.utxos[i]);
    }
  }

  lemma HeadOfSame(s: State, r: Utxo, r': Utxo)
    requires r'.head == r.head && exists x | x in s.txs :: x.hash == r.head
    ensures HeadSaved(s, r')
  {
  }

  // Any later state of a run follows any earlier one, so over the whole run a UTXO is spent at most
  // once and only by its owner, and a UTXO created during the run has a saved transaction as head.
  lemma {:induction false} RunFollows(lib: Library, s: State, rs: seq<Request>, k: nat)
    requires UniqueIds(s.utxos) && AllFresh(lib, s, rs) && k <= |rs|
    ensures Follows(Run(lib, s, rs[..k]), Run(lib, s, rs))
  {
    if k == |rs| {
      assert rs[..k] == rs;
    } else {
      var front := rs[..|rs| - 1];
      assert front[..k] == rs[..k];
      RunFollows(lib, s, front, k);
      RunKeepsIds(lib, s, front);
      StepFollows(lib, Run(lib, s, front), rs[|rs| - 1].m, rs[|rs| - 1].signature);
      FollowsTransitive(Run(lib, s, rs[..k]), Run(lib, s, front), Run(lib, s, rs));
    }
  }

  // A message that is not accepted changes neither table.
  lemma RejectedChangesNothing(lib: Library, s: State, m: Message, signature: string)
    ensures Received(lib, s, m, signature).0 == s <==> !Accepted(lib, s, m, signature)
    ensures Received(lib, s, m, signature).1 == ValidTX ==> Accepted(lib, s, m, signature)
  {
  }

  // ---- id preimages ----

  function OutputPreimage(m: Message, i: nat, tx: string): string
    requires i < |m.outputs|
  {
    Preimage(Decimal(i + 1), m.outputs[i].value, m.outputs[i].publicKey, tx)
  }

  // Index, value, key and transaction stand one behind the other.
  lemma PreimageParts(index: string, value: string, key: string, tx: string)
    ensures var p, i, v, k := Preimage(index, value, key, tx), |index|, |index| + |value|, |index| + |value| + |key|;
      |p| == k + |tx| && p[..i] == index && p[i..v] == value && p[v..k] == key && p[k..] == tx
  {
  }

  ghost predicate PreimagesDistinct(m: Message, remainText: string, tx: string)
  {
    && (forall i, j | 0 <= i < j < |m.outputs| :: OutputPreimage(m, i, tx) != OutputPreimage(m, j, tx))
    && (forall i | 0 <= i < |m.outputs| :: OutputPreimage(m, i, tx) != Preimage("0", remainText, m.publicKey, tx))
  }

  lemma DigitInjective(a: nat, b: nat)
    requires a < 10 && b < 10 && Digit(a) == Digit(b)
    ensures a == b
  {
  }

  lemma {:induction false} DecimalInjective(a: nat, b: nat)
    requires Decimal(a) == Decimal(b)
    ensures a == b
  {
    var s, t := Decimal(a), Decimal(b);
    assert s[|s| - 1] == t[|t| - 1];
    DigitInjective(a % 10, b % 10);
    if a >= 10 && b >= 10 {
      assert s[..|s| - 1] == Decimal(a / 10) && t[..|t| - 1] == Decimal(b / 10);
      DecimalInjective(a / 10, b / 10);
    }
  }

  lemma {:induction false} NoLeadingZero(n: nat)
    requires n > 0
    ensures Decimal(n)[0] != '0'
  {
    if n >= 10 {
      NoLeadingZero(n / 10);
    }
  }

  // Indices of equal length keep the unseparated texts apart, whatever values and keys follow.
  lemma SameLengthIndicesDiffer(a: nat, b: nat, rest: string, rest': string)
    requires a != b && |Decimal(a)| == |Decimal(b)|
    ensures Decimal(a) + rest != Decimal(b) + rest'
  {
    if Decimal(a) + rest == Decimal(b) + rest' {
      assert (Decimal(a) + rest)[..|Decimal(a)|] == Decimal(a);
      assert (Decimal(b) + rest')[..|Decimal(b)|] == Decimal(b);
      DecimalInjective(a, b);
    }
  }

  // The change never collides with an output, for any number of outputs.
  lemma ChangeDiffers(m: Message, i: nat, remainText: string, tx: string)
    requires i < |m.outputs|
    ensures OutputPreimage(m, i, tx) != Preimage("0", remainText, m.publicKey, tx)
  {
    NoLeadingZero(i + 1);
    assert OutputPreimage(m, i, tx)[0] == Decimal(i + 1)[0];
    assert Preimage("0", remainText, m.publicKey, tx)[0] == '0';
  }

  lemma NineOutputsAreDistinct(m: Message, remainText: string, tx: string)
    requires |m.outputs| <= 9
    ensures PreimagesDistinct(m, remainText, tx)
  {
    forall i | 0 <= i < |m.outputs|
      ensures OutputPreimage(m, i, tx) != Preimage("0", remainText, m.publicKey, tx)
    {
      ChangeDiffers(m, i, remainText, tx);
    }
    forall i, j | 0 <= i < j < |m.outputs|
      ensures OutputPreimage(m, i, tx) != OutputPreimage(m, j, tx)
    {
      var a, b := m.outputs[i], m.outputs[j];
      SameLengthIndicesDiffer(i + 1, j + 1, a.value + a.publicKey + tx, b.value + b.publicKey + tx);
      assert OutputPreimage(m, i, tx) == Decimal(i + 1) + (a.value + a.publicKey + tx);
      assert OutputPreimage(m, j, tx) == Decimal(j + 1) + (b.value + b.publicKey + tx);
    }
  }

  // Output 1 of value "05" and output 10 of value "5" to the same key.
  function Colliding(n: nat): (m: Message)
    ensures |m.outputs| == n
  {
    Message("", "", [], seq(n, i => Output(if i == 0 then "05" else "5", "k")))
  }

  lemma TenOutputsCanCollide(n: nat, remainText: string, tx: string)
    requires n >= 10
    ensures !PreimagesDistinct(Colliding(n), remainText, tx)
  {
    var m := Colliding(n);
    assert Decimal(1) == "1" && Decimal(10) == Decimal(1) + "0";
    assert OutputPreimage(m, 0, tx) == "105k" + tx;
    assert OutputPreimage(m, 9, tx) == "105k" + tx;
  }

  // The texts hashed into ids are distinct for all messages of n outputs exactly when n is at most 9.
  lemma PreimagesDistinctIff(n: nat, remainText: string, tx: string)
    ensures (forall m: Message | |m.outputs| == n :: PreimagesDistinct(m, remainText, tx)) <==> n <= 9
  {
    if n <= 9 {
      forall m: Message | |m.outputs| == n
        ensures PreimagesDistinct(m, remainText, tx)
      {
        NineOutputsAreDistinct(m, remainText, tx);
      }
    } else {
      TenOutputsCanCollide(n, remainText, tx);
    }
  }
}
