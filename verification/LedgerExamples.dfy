/**
 Messages on which the ledger does not conserve value, under a library that reads and prints decimals
 in plain notation. It also shows that what is asked of a library can be met.
 */
module LedgerExamples {
  import opened Wrappers
  import opened Ledgers
  import opened LedgerLaws
  import opened LedgerSigns

  function DigitOf(c: char): Option<nat>
  {
    if '0' <= c <= '9' then Some((c - '0') as int) else None
  }

  function Digits(s: string): Option<nat>
  {
    if s == "" || DigitOf(s[|s| - 1]).None? then None
    else if |s| == 1 then DigitOf(s[0])
    else match Digits(s[..|s| - 1])
         case None => None
         case Some(n) => Some(10 * n + DigitOf(s[|s| - 1]).value)
  }

  function PointAt(s: string): (k: nat)
    ensures k <= |s|
  {
    if s == "" || s[0] == '.' then 0 else 1 + PointAt(s[1..])
  }

  function ReadUnsigned(s: string): Option<Amount>
  {
    var k := PointAt(s);
    match Digits(if k < |s| then s[..k] + s[k + 1..] else s)
    case None => None
    case Some(n) => Some(Amount(n, if k < |s| then |s| - k - 1 else 0))
  }

  // new BigDecimal, of text without an exponent.
  function Read(s: string): Option<Amount>
  {
    if s != "" && s[0] == '-' then
      match ReadUnsigned(s[1..])
      case None => None
      case Some(a) => Some(Amount(-a.unscaled, a.scale))
    else ReadUnsigned(s)
  }

  function Padded(digits: string, n: nat): string
    decreases n - |digits|
  {
    if |digits| >= n then digits else Padded("0" + digits, n)
  }

  function WithPoint(digits: string, scale: nat): string
  {
    var all := Padded(digits, scale + 1);
    if scale == 0 || |all| <= scale then digits else all[..|all| - scale] + "." + all[|all| - scale..]
  }

  // BigDecimal.toString, where it prints no exponent.
  function Show(a: Amount): string
  {
    var sign := if a.unscaled < 0 then "-" else "";
    var digits := Decimal(if a.unscaled < 0 then -a.unscaled else a.unscaled);
    sign + if a.scale <= 0 then digits else WithPoint(digits, a.scale)
  }

  const PLAIN := Library(text => "#" + text, (signature, text, key) => true, text => Read(text), a => Show(a))

  lemma DigitBack(n: nat)
    requires n < 10
    ensures DigitOf(Digit(n)) == Some(n) && Digit(n) != '.' && Digit(n) != '-'
  {
  }

  lemma {:induction false} DigitsBack(n: nat)
    ensures Digits(Decimal(n)) == Some(n) && '.' !in Decimal(n) && '-' !in Decimal(n)
  {
    hide DigitOf, Digit;
    DigitBack(n % 10);
    if n >= 10 {
      DigitsBack(n / 10);
      assert Decimal(n)[..|Decimal(n)| - 1] == Decimal(n / 10);
    }
  }

  lemma {:induction false} NoPoint(s: string)
    requires '.' !in s
    ensures PointAt(s) == |s|
  {
    if s != "" {
      NoPoint(s[1..]);
    }
  }

  lemma ReadDecimal(n: nat)
    ensures Read(Decimal(n)) == Some(Amount(n, 0)) && ReadUnsigned(Decimal(n)) == Some(Amount(n, 0))
  {
    hide Digits, Decimal;
    DigitsBack(n);
    NoPoint(Decimal(n));
    assert Decimal(n)[0] in Decimal(n);
  }

  lemma PlainPrintsExactly()
    ensures PrintsExactly(PLAIN)
  {
    hide Decimal, ReadUnsigned;
    forall a: Amount | IsIntText(a)
      ensures PLAIN.decimal(PLAIN.show(a)) == Some(a)
    {
      var n := if a.unscaled < 0 then -a.unscaled else a.unscaled;
      ReadDecimal(n);
      if a.unscaled < 0 {
        assert ("-" + Decimal(n))[1..] == Decimal(n);
      } else {
        assert "" + Decimal(n) == Decimal(n);
      }
    }
  }

  // ---- one row, spent ----

  function OneRow(value: string): State { State([], [Utxo("u", value, "k", "t", "0", "1")]) }

  function Spending(inputs: seq<string>, outputs: seq<Output>): Message { Message("m", "k", inputs, outputs) }

  lemma OneRowIs(value: string)
    ensures UniqueIds(OneRow(value).utxos)
    ensures CountOfHash(OneRow(value).utxos, "u", "k") == 1 && SelectValue(OneRow(value).utxos, "u") == Some(value)
    ensures Unspent(PLAIN, OneRow(value).utxos) == Number(PLAIN, value)
    ensures InputValue(PLAIN, OneRow(value).utxos, "u") == Number(PLAIN, value)
  {
    hide Number;
    var rows := OneRow(value).utxos;
    assert rows[1..] == [];
  }

  lemma InputsOf(value: string, a: Amount)
    requires Read(value) == Some(a)
    ensures InputSum(PLAIN, OneRow(value).utxos, ["u"]) == Some(Plus(ZERO, a))
    ensures InputSum(PLAIN, OneRow(value).utxos, ["u", "u"]) == Some(Plus(Plus(ZERO, a), a))
  {
    hide Plus, Read;
    OneRowIs(value);
    assert ["u"][..0] == [] && ["u", "u"][..1] == ["u"];
    assert InputSum(PLAIN, OneRow(value).utxos, []) == Some(ZERO);
  }

  lemma OutputOf(value: string, a: Amount)
    requires Read(value) == Some(a)
    ensures OutputSum(PLAIN, []) == Some(ZERO) && OutputSum(PLAIN, [Output(value, "k")]) == Some(Plus(ZERO, a))
  {
    hide Plus, Read;
    var one := [Output(value, "k")];
    assert one[..0] == [];
  }

  // A message over that row that validates, and what becomes of the total.
  lemma Spends(value: string, m: Message, i: Amount, o: Amount)
    requires InputSum(PLAIN, OneRow(value).utxos, m.inputs) == Some(i) && OutputSum(PLAIN, m.outputs) == Some(o)
    requires i.Number() >= o.Number() && m.publicKey == "k" && forall k | 0 <= k < |m.inputs| :: m.inputs[k] == "u"
    ensures var s := OneRow(value);
      && Received(PLAIN, s, m, "").1 == (if IsIntText(Minus(i, o)) then ValidTX else Threw)
      && Unspent(PLAIN, Received(PLAIN, s, m, "").0.utxos)
         == Unspent(PLAIN, s.utxos) + Repeated(PLAIN, s.utxos, m.inputs) - Lost(Minus(i, o))
      && Unspent(PLAIN, s.utxos) == Number(PLAIN, value)
      && Accepted(PLAIN, s, m, "") && Remain(PLAIN, s, m, "") == Minus(i, o) && PLAIN.hash(m.text) != "0"
  {
    hide Read, Show, InputSum, OutputSum, Plus, Minus, Unit, Unspent, Repeated, Lost, Spend, NewRows, ChangeRow,
         CountOfHash, Number;
    OneRowIs(value);
    PlainPrintsExactly();
    var s := OneRow(value);
    assert Validation(PLAIN, s.utxos, m, "") == Check(true, Minus(i, o));
    assert PLAIN.hash(m.text)[0] == '#';
    Account(PLAIN, s, m, "");
  }

  lemma NumberIs(value: string, a: Amount)
    requires Read(value) == Some(a)
    ensures Number(PLAIN, value) == a.Number()
  {
    hide Read, Unit;
  }

  lemma Amounts()
    ensures Plus(Plus(ZERO, Amount(5, 0)), Amount(5, 0)) == Amount(10, 0) && Plus(ZERO, Amount(10, 0)) == Amount(10, 0)
    ensures Minus(Amount(10, 0), Amount(10, 0)) == ZERO
    ensures Plus(ZERO, Amount(15, 1)) == Amount(15, 1) && Plus(ZERO, Amount(1, 0)) == Amount(1, 0)
    ensures Minus(Amount(15, 1), Amount(1, 0)) == Amount(5, 1)
    ensures Plus(ZERO, Amount(0x8000_0000, 0)) == Amount(0x8000_0000, 0)
    ensures Minus(Amount(0x8000_0000, 0), ZERO) == Amount(0x8000_0000, 0)
  {
    hide Plus, Pow10;
    PlusSame(0, 5, 0);
    PlusSame(5, 5, 0);
    PlusSame(0, 10, 0);
    PlusSame(10, -10, 0);
    PlusSame(0, 1, 0);
    PlusNext(0, 15, 0);
    PlusNext(-1, 15, 0);
    PlusSame(0, 0x8000_0000, 0);
    PlusSame(0x8000_0000, 0, 0);
  }

  lemma PlusSame(u: int, v: int, scale: int)
    ensures Plus(Amount(u, scale), Amount(v, scale)) == Amount(u + v, scale)
  {
    hide Rescaled;
    SameScale(u, scale);
    SameScale(v, scale);
  }

  lemma PlusNext(u: int, v: int, scale: int)
    ensures Plus(Amount(u, scale), Amount(v, scale + 1)) == Amount(10 * u + v, scale + 1)
    ensures Plus(Amount(v, scale + 1), Amount(u, scale)) == Amount(10 * u + v, scale + 1)
  {
    hide Rescaled;
    NextScale(u, scale);
    SameScale(v, scale + 1);
  }

  lemma SameScale(u: int, scale: int)
    ensures Rescaled(Amount(u, scale), scale) == u
  {
  }

  lemma NextScale(u: int, scale: int)
    ensures Rescaled(Amount(u, scale), scale + 1) == 10 * u
  {
    assert Pow10(1) == 10 * Pow10(0);
  }

  lemma Numbers()
    ensures Amount(5, 0).Number() == 5.0 && Amount(10, 0).Number() == 10.0 && Amount(1, 0).Number() == 1.0
    ensures Amount(15, 1).Number() == 1.5 && Amount(5, 1).Number() == 0.5
    ensures Amount(0x8000_0000, 0).Number() == 2147483648.0
  {
    assert Pow10(0) == 1 && Pow10(1) == 10;
  }

  // A row of value 5, listed twice as input to an output of 10: accepted, and 5 become 10.
  lemma RepeatedInputDoubles()
    ensures var s, m := OneRow(Decimal(5)), Spending(["u", "u"], [Output(Decimal(10), "k")]);
      && Received(PLAIN, s, m, "").1 == ValidTX
      && Unspent(PLAIN, s.utxos) == 5.0 && Unspent(PLAIN, Received(PLAIN, s, m, "").0.utxos) == 10.0
  {
    hide Decimal, Read, Show, InputSum, OutputSum, Plus, Minus, Unit, Unspent, Received, Number, InputValue;
    var s, m := OneRow(Decimal(5)), Spending(["u", "u"], [Output(Decimal(10), "k")]);
    ReadDecimal(5);
    ReadDecimal(10);
    Amounts();
    Numbers();
    NumberIs(Decimal(5), Amount(5, 0));
    InputsOf(Decimal(5), Amount(5, 0));
    OutputOf(Decimal(10), Amount(10, 0));
    Spends(Decimal(5), m, Amount(10, 0), Amount(10, 0));
    OneRowIs(Decimal(5));
    assert ["u", "u"][..1] == ["u"] && ["u"][..0] == [];
    assert Repeated(PLAIN, s.utxos, []) == 0.0 && Repeated(PLAIN, s.utxos, ["u"]) == 0.0;
    assert Repeated(PLAIN, s.utxos, ["u", "u"]) == 5.0;
    ZeroNumber();
  }

  // A row of value 1.5 spent to an output of 1: the remainder 0.5 is no text of an int, Integer.valueOf
  // throws with everything else saved, and 0.5 is gone.
  lemma FractionIsLost()
    ensures var s, m := OneRow("1.5"), Spending(["u"], [Output(Decimal(1), "k")]);
      && Received(PLAIN, s, m, "").1 == Threw
      && Unspent(PLAIN, s.utxos) == 1.5 && Unspent(PLAIN, Received(PLAIN, s, m, "").0.utxos) == 1.0
  {
    hide Decimal, Read, Show, InputSum, OutputSum, Plus, Minus, Unit, Unspent, Received, Number, Repeated;
    var s, m := OneRow("1.5"), Spending(["u"], [Output(Decimal(1), "k")]);
    ReadDecimal(1);
    ReadOneAndAHalf();
    Amounts();
    Numbers();
    NumberIs("1.5", Amount(15, 1));
    InputsOf("1.5", Amount(15, 1));
    OutputOf(Decimal(1), Amount(1, 0));
    Spends("1.5", m, Amount(15, 1), Amount(1, 0));
    NothingRepeated(PLAIN, s.utxos, ["u"]);
  }

  lemma ReadOneAndAHalf()
    ensures Read("1.5") == Some(Amount(15, 1))
  {
    assert PointAt("1.5") == 1 by { assert "1.5"[1..] == ".5"; }
    assert "1.5"[..1] + "1.5"[2..] == "15" && "15"[..1] == "1";
    assert Digits("1") == Some(1);
    assert Digits("15") == Some(15);
  }

  // A row of value 2^31 given back whole as change: gone as well.
  lemma LargeChangeIsLost()
    ensures var s, m := OneRow(Decimal(0x8000_0000)), Spending(["u"], []);
      && Received(PLAIN, s, m, "").1 == Threw
      && Unspent(PLAIN, s.utxos) == 2147483648.0 && Unspent(PLAIN, Received(PLAIN, s, m, "").0.utxos) == 0.0
  {
    hide Decimal, Read, Show, InputSum, OutputSum, Plus, Minus, Unit, Unspent, Received, Number, Repeated;
    var value := Decimal(0x8000_0000);
    var s, m := OneRow(value), Spending(["u"], []);
    ReadDecimal(0x8000_0000);
    Amounts();
    Numbers();
    NumberIs(value, Amount(0x8000_0000, 0));
    InputsOf(value, Amount(0x8000_0000, 0));
    OutputOf(value, Amount(0x8000_0000, 0));
    ZeroNumber();
    Spends(value, m, Amount(0x8000_0000, 0), ZERO);
    NothingRepeated(PLAIN, s.utxos, ["u"]);
  }

  // ---- a negative output ----

  const PAIR := [Output(Decimal(100), "k"), Output("-" + Decimal(95), "k")]

  lemma ReadNegative(n: nat)
    ensures Read("-" + Decimal(n)) == Some(Amount(-(n as int), 0))
  {
    hide Decimal, ReadUnsigned;
    ReadDecimal(n);
    assert ("-" + Decimal(n))[1..] == Decimal(n);
  }

  lemma PairIs()
    ensures OutputSum(PLAIN, PAIR) == Some(Amount(5, 0)) && Owed(PLAIN, PAIR) == 95.0
  {
    hide Decimal, Read, Plus, Unit, Number;
    ReadDecimal(100);
    ReadNegative(95);
    PlusSame(0, 100, 0);
    PlusSame(100, -95, 0);
    NumberIs(Decimal(100), Amount(100, 0));
    NumberIs("-" + Decimal(95), Amount(-95, 0));
    IntNumber(Amount(100, 0));
    IntNumber(Amount(-95, 0));
    assert PAIR[..1] == [PAIR[0]] && PAIR[..1][..0] == [];
    assert OutputSum(PLAIN, []) == Some(ZERO) && Owed(PLAIN, []) == 0.0;
    assert OutputSum(PLAIN, PAIR[..1]) == Some(Amount(100, 0)) && Owed(PLAIN, PAIR[..1]) == 0.0;
  }

  // A row of 5 spent to outputs of 100 and -95: the sums agree, and 100 can be spent.
  lemma NegativeOutputCreates()
    ensures var s, m := OneRow(Decimal(5)), Spending(["u"], PAIR);
      && Received(PLAIN, s, m, "").1 == ValidTX
      && Unspent(PLAIN, s.utxos) == 5.0 && Unspent(PLAIN, Received(PLAIN, s, m, "").0.utxos) == 5.0
      && Spendable(PLAIN, s.utxos) == 5.0 && Spendable(PLAIN, Received(PLAIN, s, m, "").0.utxos) == 100.0
  {
    hide Decimal, Read, Show, InputSum, OutputSum, Plus, Minus, Unit, Unspent, Received, Number, Repeated, Spendable,
         Accepted, Remain, Owed, Debt;
    var s, m := OneRow(Decimal(5)), Spending(["u"], PAIR);
    ReadDecimal(5);
    Amounts();
    Numbers();
    PlusSame(5, -5, 0);
    PlusSame(0, 5, 0);
    assert Minus(Amount(5, 0), Amount(5, 0)) == ZERO by { MinusItself(5); }
    NumberIs(Decimal(5), Amount(5, 0));
    InputsOf(Decimal(5), Amount(5, 0));
    PairIs();
    Spends(Decimal(5), m, Amount(5, 0), Amount(5, 0));
    NothingRepeated(PLAIN, s.utxos, ["u"]);
    ZeroNumber();
    OneRowIs(Decimal(5));
    PlainPrintsExactly();
    NoDebtInOneRow(Decimal(5));
    SpendableIs(PLAIN, s.utxos);
    NoDebt(PLAIN, s.utxos);
    SpendableAccount(PLAIN, s, m, "");
  }

  lemma MinusItself(u: int)
    ensures Minus(Amount(u, 0), Amount(u, 0)) == ZERO
  {
    hide Plus;
    PlusSame(u, -u, 0);
  }

  lemma NoDebtInOneRow(value: string)
    requires Number(PLAIN, value) >= 0.0
    ensures NonNegativeRows(PLAIN, OneRow(value).utxos)
  {
    hide Number;
  }

  // ---- a message without inputs ----

  const GIFT := Spending([], [Output(Decimal(0), "k")])

  lemma GiftIsAccepted(s: State)
    ensures Received(PLAIN, s, GIFT, "") ==
      (State(s.txs + [Tx("#m", GIFT)], s.utxos + NewRows(PLAIN, GIFT.outputs, "#m")), ValidTX)
  {
    hide Decimal, Read, Plus, NewRows, Unit;
    ReadDecimal(0);
    PlusSame(0, 0, 0);
    OutputOf(Decimal(0), ZERO);
    assert InputSum(PLAIN, s.utxos, []) == Some(ZERO) && Minus(ZERO, ZERO) == ZERO;
    assert PLAIN.hash("m") == "#m" && Spend(s.utxos, [], "#m") == s.utxos;
    var added := NewRows(PLAIN, GIFT.outputs, "#m");
    assert s.utxos + added + [] == s.utxos + added;
    assert ChangeRow(PLAIN, GIFT, ZERO, "#m") == [];
  }

  // It can be accepted again, and adds a row of the same id.
  lemma GiftRepeatsAnId()
    ensures var once := Received(PLAIN, State([], []), GIFT, "").0;
      UniqueIds(once.utxos) && !UniqueIds(Received(PLAIN, once, GIFT, "").0.utxos)
  {
    hide Received, Decimal;
    var none := State([], []);
    var once := Received(PLAIN, none, GIFT, "").0;
    var twice := Received(PLAIN, once, GIFT, "").0;
    GiftIsAccepted(none);
    GiftIsAccepted(once);
    assert |once.utxos| == 1 && |twice.utxos| == 2 && twice.utxos[0] == twice.utxos[1];
  }
}
