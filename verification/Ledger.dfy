/**
 The UTXO ledger: validation of a transaction message and the sequence of table updates that
 follows. The two tables are sequences of rows. Queries mean what the SQL in the comments of the
 source says: a count or value query looks at rows with tail "0", the update sets the tail of every
 row with the given hash, an insert appends.
 */
module Ledgers {
  import opened Wrappers

  function Pow10(n: nat): (p: nat)
    ensures p >= 1
  {
    if n == 0 then 1 else 10 * Pow10(n - 1)
  }

  // What one unit of the last digit is worth: 10 to the power of -scale.
  function Unit(scale: int): real
  {
    if scale <= 0 then Pow10(-scale) as real else 1.0 / Pow10(scale) as real
  }

  // A BigDecimal: an unscaled integer and a scale, the number of digits after the point.
  datatype Amount = Amount(unscaled: int, scale: int) {
    function Number(): real { unscaled as real * Unit(scale) }
  }

  const ZERO := Amount(0, 0)

  function Max(a: int, b: int): int { if a < b then b else a }

  // The unscaled value at a larger scale.
  function Rescaled(a: Amount, scale: int): int
    requires a.scale <= scale
  {
    a.unscaled * Pow10(scale - a.scale)
  }

  function Plus(a: Amount, b: Amount): Amount
  {
    var scale := Max(a.scale, b.scale);
    Amount(Rescaled(a, scale) + Rescaled(b, scale), scale)
  }

  function Minus(a: Amount, b: Amount): Amount { Plus(a, Amount(-b.unscaled, b.scale)) }

  // Integer.valueOf accepts the printed amount: neither point nor exponent, and within int.
  predicate IsIntText(a: Amount) { a.scale == 0 && -0x8000_0000 <= a.unscaled < 0x8000_0000 }

  // Library functions: double digest in hex, Ed25519 verification, new BigDecimal, BigDecimal.toString.
  datatype Library = Library(
    hash: string -> string,
    verify: (string, string, string) -> bool,
    decimal: string -> Option<Amount>,
    show: Amount -> string)

  // Printing an amount of the range of int and parsing it again gives it back.
  ghost predicate PrintsExactly(lib: Library) { forall a: Amount | IsIntText(a) :: lib.decimal(lib.show(a)) == Some(a) }

  datatype Output = Output(value: string, publicKey: string)

  // text is the JSON text of the message; publicKey its key re-encoded in hex.
  datatype Message = Message(text: string, publicKey: string, inputs: seq<string>, outputs: seq<Output>)

  datatype Tx = Tx(hash: string, msg: Message)

  datatype Utxo = Utxo(hash: string, value: string, publicKey: string, head: string, tail: string, index: string)

  datatype State = State(txs: seq<Tx>, utxos: seq<Utxo>)

  // ---- queries ----

  function CountOfHash(rows: seq<Utxo>, h: string, key: string): nat
  {
    if rows == [] then 0
    else
      var here := if rows[0].tail == "0" && rows[0].hash == h && rows[0].publicKey == key then 1 else 0;
      here + CountOfHash(rows[1..], h, key)
  }

  function SelectValue(rows: seq<Utxo>, h: string): Option<string>
  {
    if rows == [] then None
    else if rows[0].tail == "0" && rows[0].hash == h then Some(rows[0].value)
    else SelectValue(rows[1..], h)
  }

  function Marked(r: Utxo, tx: string, h: string): Utxo { if r.hash == h then r.(tail := tx) else r }

  function UpdateTail(rows: seq<Utxo>, tx: string, h: string): (rs: seq<Utxo>)
    ensures |rs| == |rows|
  {
    seq(|rows|, i requires 0 <= i < |rows| => Marked(rows[i], tx, h))
  }

  // ---- validation ----

  function AddText(lib: Library, sum: Option<Amount>, text: Option<string>): Option<Amount>
  {
    if sum.None? || text.None? || lib.decimal(text.value).None? then None
    else Some(Plus(sum.value, lib.decimal(text.value).value))
  }

  // None stands for the exception thrown on a missing or malformed amount.
  function InputSum(lib: Library, rows: seq<Utxo>, inputs: seq<string>): Option<Amount>
  {
    if inputs == [] then Some(ZERO)
    else AddText(lib, InputSum(lib, rows, inputs[..|inputs| - 1]), SelectValue(rows, inputs[|inputs| - 1]))
  }

  function OutputSum(lib: Library, outputs: seq<Output>): Option<Amount>
  {
    if outputs == [] then Some(ZERO)
    else AddText(lib, OutputSum(lib, outputs[..|outputs| - 1]), Some(outputs[|outputs| - 1].value))
  }

  predicate AllOwned(rows: seq<Utxo>, key: string, inputs: seq<string>)
  {
    forall i | 0 <= i < |inputs| :: CountOfHash(rows, inputs[i], key) > 0
  }

  datatype Check = Check(isValid: bool, remain: Amount) | CheckThrew

  function Validation(lib: Library, rows: seq<Utxo>, m: Message, signature: string): Check
  {
    var sum, value := InputSum(lib, rows, m.inputs), OutputSum(lib, m.outputs);
    if sum.None? || value.None? then CheckThrew
    else Check(lib.verify(signature, m.text, m.publicKey) && AllOwned(rows, m.publicKey, m.inputs)
               && sum.value.Number() >= value.value.Number(),
               Minus(sum.value, value.value))
  }

  // ---- execution ----

  function Digit(n: nat): char
    requires n < 10
  {
    "0123456789"[n]
  }

  function Decimal(n: nat): (s: string)
    ensures s != ""
  {
    if n < 10 then [Digit(n)] else Decimal(n / 10) + [Digit(n % 10)]
  }

  // The unseparated text a new UTXO's id is the hash of.
  function Preimage(index: string, value: string, key: string, tx: string): string { index + value + key + tx }

  function NewRow(lib: Library, index: string, value: string, key: string, tx: string): Utxo
  {
    Utxo(lib.hash(Preimage(index, value, key, tx)), value, key, tx, "0", index)
  }

  // Rows for outputs numbered from 1.
  function NewRows(lib: Library, outputs: seq<Output>, tx: string): (rs: seq<Utxo>)
    ensures |rs| == |outputs|
  {
    seq(|outputs|, i requires 0 <= i < |outputs| =>
      NewRow(lib, Decimal(i + 1), outputs[i].value, outputs[i].publicKey, tx))
  }

  function Spend(rows: seq<Utxo>, inputs: seq<string>, tx: string): (rs: seq<Utxo>)
    ensures |rs| == |rows|
  {
    if inputs == [] then rows else UpdateTail(Spend(rows, inputs[..|inputs| - 1], tx), tx, inputs[|inputs| - 1])
  }

  function ChangeRow(lib: Library, m: Message, remain: Amount, tx: string): seq<Utxo>
  {
    if IsIntText(remain) && remain.unscaled > 0
    then [NewRow(lib, "0", lib.show(remain), m.publicKey, tx)] else []
  }

  datatype Outcome = ValidTX | InvalidTX | Threw

  // Validation throws or rejects: nothing changes. Otherwise everything is saved, except that
  // Integer.valueOf may throw before the change is.
  function Received(lib: Library, s: State, m: Message, signature: string): (State, Outcome)
  {
    match Validation(lib, s.utxos, m, signature)
    case CheckThrew => (s, Threw)
    case Check(valid, remain) =>
      if !valid then (s, InvalidTX) else
        var tx := lib.hash(m.text);
        (State(s.txs + [Tx(tx, m)],
               Spend(s.utxos, m.inputs, tx) + NewRows(lib, m.outputs, tx) + ChangeRow(lib, m, remain, tx)),
         if IsIntText(remain) then ValidTX else Threw)
  }

  class Ledger {
    var txs: seq<Tx>
    var utxos: seq<Utxo>

    method ReceiveFromClient(lib: Library, m: Message, signature: string) returns (ret: Outcome)
      modifies this
      ensures (State(txs, utxos), ret) == Received(lib, old(State(txs, utxos)), m, signature)
    {
      hide Spend, NewRows, NewRow, InputSum, OutputSum, AllOwned, Minus, Unit;
      ret := InvalidTX;
      var isTSign := lib.verify(signature, m.text, m.publicKey);
      var isTExist := UtxoCheck(m.publicKey, m.inputs);
      var check := ValueCheck(lib, m.inputs, m.outputs);
      if check == CheckThrew {
        return Threw;
      }
      if isTSign && isTExist && check.isValid {
        var tx := lib.hash(m.text);
        txs := txs + [Tx(tx, m)];
        SpendInputs(m.inputs, tx);
        SaveOutputs(lib, m.outputs, tx);
        assert utxos + [] == utxos;
        if !IsIntText(check.remain) {
          return Threw;
        }
        if check.remain.unscaled > 0 {
          utxos := utxos + [NewRow(lib, "0", lib.show(check.remain), m.publicKey, tx)];
        }
        ret := ValidTX;
      }
    }

    method SpendInputs(inputs: seq<string>, tx: string)
      modifies this`utxos
      ensures utxos == Spend(old(utxos), inputs, tx)
    {
      for k := 0 to |inputs|
        invariant utxos == Spend(old(utxos), inputs[..k], tx)
      {
        assert inputs[..k + 1][..k] == inputs[..k];
        utxos := UpdateTail(utxos, tx, inputs[k]);
      }
      assert inputs[..|inputs|] == inputs;
    }

    method SaveOutputs(lib: Library, outputs: seq<Output>, tx: string)
      modifies this`utxos
      ensures utxos == old(utxos) + NewRows(lib, outputs, tx)
    {
      var i := 1;
      while i <= |outputs|
        invariant 1 <= i <= |outputs| + 1
        invariant utxos == old(utxos) + NewRows(lib, outputs, tx)[..i - 1]
      {
        var output := outputs[i - 1];
        utxos := utxos + [NewRow(lib, Decimal(i), output.value, output.publicKey, tx)];
        i := i + 1;
      }
    }

    method UtxoCheck(publicKey: string, inputs: seq<string>) returns (isTExist: bool)
      ensures isTExist == AllOwned(utxos, publicKey, inputs)
    {
      isTExist := true;
      var count := 0;
      for i := 0 to |inputs|
        invariant isTExist == AllOwned(utxos, publicKey, inputs[..i])
        invariant count <= i && (isTExist <==> count == i)
      {
        assert inputs[..i + 1][..i] == inputs[..i];
        assert AllOwned(utxos, publicKey, inputs[..i + 1]) <==>
          AllOwned(utxos, publicKey, inputs[..i]) && CountOfHash(utxos, inputs[i], publicKey) > 0 by {
          assert inputs[..i + 1] == inputs[..i] + [inputs[i]];
        }
        if CountOfHash(utxos, inputs[i], publicKey) == 0 {
          isTExist := false;
        } else {
          count := count + 1;
        }
      }
      assert inputs[..|inputs|] == inputs;
      if |inputs| != count {
        isTExist := false;
      }
    }

    // The two sums in the order of the source; an exception ends the check.
    method ValueCheck(lib: Library, inputs: seq<string>, outputs: seq<Output>) returns (check: Check)
      ensures var sum, value := InputSum(lib, utxos, inputs), OutputSum(lib, outputs);
        check == if sum.None? || value.None? then CheckThrew
                 else Check(sum.value.Number() >= value.value.Number(), Minus(sum.value, value.value))
    {
      hide Plus, Unit, SelectValue;
      var sum, value := Some(ZERO), Some(ZERO);
      for i := 0 to |inputs|
        invariant sum == InputSum(lib, utxos, inputs[..i])
      {
        assert inputs[..i + 1][..i] == inputs[..i];
        sum := AddText(lib, sum, SelectValue(utxos, inputs[i]));
      }
      assert inputs[..|inputs|] == inputs;
      for i := 0 to |outputs|
        invariant value == OutputSum(lib, outputs[..i])
      {
        assert outputs[..i + 1][..i] == outputs[..i];
        value := AddText(lib, value, Some(outputs[i].value));
      }
      assert outputs[..|outputs|] == outputs;
      if sum.None? || value.None? {
        return CheckThrew;
      }
      check := Check(sum.value.Number() >= value.value.Number(), Minus(sum.value, value.value));
    }
  }
}
