/**
 The payment handler: a nonce memory shared by payment and password reset, the verification that
 consumes an entry of it, the message to the gateway, and the merchant's callback with its
 compensation. Requests are handled one at a time. What the handler sees of the world in one request
 (card table, merchant, gateway, digest, UUID) is a parameter; what it does to the world is a list.
 */
module Payments {
  import opened Wrappers

  const SUCCESS := "200"
  const FAIL := "400"
  const MISMATCH := "401"
  const REQUEST_PAYMENT := "requestPayment"
  const INITIALIZE := "InitializePwdSimplePay"
  const APPROVED := "0000"
  const TRAN_CD_NOR_PAYMENT := "00101000"

  datatype Entry = Entry(actionType: string, nonce: string, second: string)

  type Memory = map<string, Entry>

  // A missing field makes the handler fail with a NullPointerException.
  datatype Request = Request(step: Option<string>, memberId: Option<string>, payKind: Option<string>,
                             orderId: Option<string>, cardToken: Option<string>, secretKey: Option<string>,
                             secureKey: Option<string>, clientIp: Option<string>, secretKeyNew: Option<string>,
                             nonce: Option<string>)

  datatype Card = Card(secretKey: string, billKey: string)

  datatype Callback = Returned(value: int) | Raised

  datatype Response = Response(resCd: string, cancDate: string, orderNo: string)

  // payInfo: the order as the merchant knows it, with its "orderIdAbailable" entry; digest: None when
  // the secret key is not Base64.
  datatype World = World(uuid: string, cards: map<string, Card>, membersWithCards: set<string>,
                         payInfo: map<string, Option<string>>, digest: (string, string) -> Option<string>,
                         gateway: Response, callback: Callback, cancelRaises: bool)

  datatype Effect =
    | Put(member: string, actionType: string)
    | Sent(member: string, order: string, billKey: string, entry: Entry)
    | CalledBack(orderNo: string)
    | Cancelled(orderNo: string, clientIp: string)
    | PasswordSet(member: string, secretKey: string)

  // ---- the gateway ----

  datatype Run = Run(resCd: string, cancDate: string, raised: bool)

  datatype RunningType = REGIST | PAYMENT

  class KiccTransaction {
    var actionType: RunningType

    constructor ()
      ensures actionType == PAYMENT
    {
      actionType := PAYMENT;
    }

    method EasypayRunForRegist(trCd: string, clientIp: string, w: World) returns (r: Run, effects: seq<Effect>)
      modifies this
      ensures actionType == REGIST && effects == [] && !r.raised
    {
      actionType := REGIST;
      r, effects := EasypayRun(trCd, clientIp, w);
    }

    // The part behind the gateway's answer; sending itself is recorded by the caller.
    method EasypayRun(trCd: string, clientIp: string, w: World) returns (r: Run, effects: seq<Effect>)
      ensures actionType == REGIST ==> effects == [] && !r.raised && r.cancDate == w.gateway.cancDate
      ensures actionType == PAYMENT && trCd != TRAN_CD_NOR_PAYMENT ==>
        && effects == (if r.resCd == APPROVED then [CalledBack(w.gateway.orderNo)] else [])
        && r.raised == (r.resCd == APPROVED && w.callback.Raised?) && r.cancDate == w.gateway.cancDate
      ensures actionType == PAYMENT && trCd == TRAN_CD_NOR_PAYMENT ==> (r, effects) == Settled(clientIp, w)
      ensures r.resCd == (if trCd == "" then "M114" else w.gateway.resCd)
    {
      var resCd := if |trCd| > 0 then w.gateway.resCd else "M114";
      var cancDate := w.gateway.cancDate;
      effects := [];
      if resCd == APPROVED && actionType == PAYMENT {
        effects := [CalledBack(w.gateway.orderNo)];
        if w.callback.Raised? {
          return Run(resCd, cancDate, true), effects;
        }
        if w.callback.value < 1 && trCd == TRAN_CD_NOR_PAYMENT {
          effects := effects + [Cancelled(w.gateway.orderNo, clientIp)];
          if w.cancelRaises {
            return Run(resCd, cancDate, true), effects;
          }
          cancDate := "cancle";
        }
      }
      r := Run(resCd, cancDate, false);
    }
  }

  // An approval that the merchant refuses is cancelled; one whose callback fails is not.
  function Settled(clientIp: string, w: World): (Run, seq<Effect>)
  {
    var called, refused := [CalledBack(w.gateway.orderNo)], [Cancelled(w.gateway.orderNo, clientIp)];
    if w.gateway.resCd != APPROVED then (Run(w.gateway.resCd, w.gateway.cancDate, false), [])
    else if w.callback.Raised? then (Run(APPROVED, w.gateway.cancDate, true), called)
    else if w.callback.value >= 1 then (Run(APPROVED, w.gateway.cancDate, false), called)
    else (Run(APPROVED, if w.cancelRaises then w.gateway.cancDate else "cancle", w.cancelRaises), called + refused)
  }

  // ---- the handler ----

  // The bill key, or the code of the failure.
  datatype Verified = BillKey(key: string) | Failed(code: string)

  function Verify(m: Memory, rq: Request, w: World): Verified
    requires rq.memberId.Some?
  {
    var member := rq.memberId.value;
    if member !in m || rq.cardToken.None? || rq.secretKey.None? || |rq.secretKey.value| < 5
       || rq.cardToken.value !in w.cards then Failed(FAIL)
    else
      var entry, card := m[member], w.cards[rq.cardToken.value];
      if rq.secretKey.value != card.secretKey then Failed(MISMATCH)
      else
        var digest := w.digest(entry.nonce + member + entry.second, card.secretKey);
        if digest.None? || rq.secureKey.None? || digest != rq.secureKey then Failed(FAIL)
        else BillKey(card.billKey)
  }

  lemma VerifiedHasEntry(m: Memory, rq: Request, w: World)
    requires rq.memberId.Some? && Verify(m, rq, w).BillKey?
    ensures rq.memberId.value in m
  {
  }

  // Whether the merchant lets the order be sent.
  predicate Sendable(rq: Request, w: World)
  {
    rq.orderId.Some? && rq.orderId.value in w.payInfo && w.payInfo[rq.orderId.value] != Some("Y") && rq.clientIp.Some?
  }

  // The memory, the effects and the reply code of a payment request.
  function Paid(m: Memory, rq: Request, w: World): (Memory, seq<Effect>, string)
  {
    if rq.step.None? || rq.memberId.None? then (m, [], FAIL)
    else if rq.step == Some("1") then
      if rq.payKind != Some("CARD") || rq.orderId.None? then (m, [], FAIL)
      else (m[rq.memberId.value := Entry(REQUEST_PAYMENT, w.uuid, rq.orderId.value)],
        [Put(rq.memberId.value, REQUEST_PAYMENT)], SUCCESS)
    else if rq.step == Some("2") then
      match Verify(m, rq, w)
      case Failed(code) => (m - {rq.memberId.value}, [], code)
      case BillKey(key) =>
        assert rq.memberId.value in m by { VerifiedHasEntry(m, rq, w); }
        if !Sendable(rq, w) then (m - {rq.memberId.value}, [], FAIL)
        else
          var (run, effects) := Settled(rq.clientIp.value, w);
          (m - {rq.memberId.value}, [Sent(rq.memberId.value, rq.orderId.value, key, m[rq.memberId.value])] + effects,
           if !run.raised && run.resCd == APPROVED && run.cancDate == "" then SUCCESS else FAIL)
    else (m, [], FAIL)
  }

  // The same of a password reset.
  function Initialized(m: Memory, rq: Request, w: World): (Memory, seq<Effect>, string)
  {
    if rq.step.None? then (m, [], FAIL)
    else if rq.step == Some("1") then
      if rq.memberId.None? || rq.memberId.value !in w.membersWithCards || rq.secretKeyNew.None? then (m, [], FAIL)
      else (m[rq.memberId.value := Entry(INITIALIZE, w.uuid, rq.secretKeyNew.value)],
        [Put(rq.memberId.value, INITIALIZE)], SUCCESS)
    else if rq.step == Some("ini") then
      if rq.memberId.Some? && rq.nonce.Some? && rq.memberId.value in m
         && m[rq.memberId.value].actionType == INITIALIZE && m[rq.memberId.value].nonce == rq.nonce.value
      then (m, [PasswordSet(rq.memberId.value, m[rq.memberId.value].second)], SUCCESS)
      else (m, [], FAIL)
    else (m, [], FAIL)
  }

  class ActionHandler {
    var memory: Memory
    ghost var effects: seq<Effect>

    constructor ()
      ensures memory == map[] && effects == []
    {
      memory := map[];
      effects := [];
    }

    method RequestPayment(rq: Request, w: World) returns (code: string)
      modifies this
      ensures var (m, es, c) := Paid(old(memory), rq, w);
        memory == m && effects == old(effects) + es && code == c
    {
      hide Verify, Settled;
      if rq.step.None? || rq.memberId.None? {
        return FAIL;
      }
      if rq.step.value == "1" {
        if rq.payKind != Some("CARD") || rq.orderId.None? {
          return FAIL;
        }
        memory := memory[rq.memberId.value := Entry(REQUEST_PAYMENT, w.uuid, rq.orderId.value)];
        effects := effects + [Put(rq.memberId.value, REQUEST_PAYMENT)];
        code := SUCCESS;
      } else if rq.step.value == "2" {
        ghost var before := memory;
        var billKey := VerifySecureKey(rq, w);
        if billKey.Failed? {
          return billKey.code;
        }
        VerifiedHasEntry(before, rq, w);
        var ok := GetKiccTranSendVo(rq, w);
        if !ok {
          return FAIL;
        }
        code := SendRequestToKICC(rq.memberId.value, rq.orderId.value, rq.clientIp.value, billKey.key,
          before[rq.memberId.value], w);
      } else {
        code := FAIL;
      }
    }

    // The entry is removed before anything is checked.
    method VerifySecureKey(rq: Request, w: World) returns (r: Verified)
      requires rq.memberId.Some?
      modifies this`memory
      ensures memory == old(memory) - {rq.memberId.value}
      ensures r == Verify(old(memory), rq, w)
    {
      var memberId := rq.memberId.value;
      var memoryVo := if memberId in memory then Some(memory[memberId]) else None;
      memory := memory - {memberId};
      if memoryVo.None? {
        return Failed(FAIL);
      }
      var combined := memoryVo.value.nonce + memberId + memoryVo.value.second;
      if rq.cardToken.None? {
        return Failed(FAIL);
      }
      var cardVo := if rq.cardToken.value in w.cards then Some(w.cards[rq.cardToken.value]) else None;
      if rq.secretKey.None? || |rq.secretKey.value| < 5 || cardVo.None? {
        return Failed(FAIL);
      }
      if rq.secretKey.value != cardVo.value.secretKey {
        return Failed(MISMATCH);
      }
      var encoded := w.digest(combined, cardVo.value.secretKey);
      if encoded.None? || rq.secureKey.None? {
        return Failed(FAIL);
      }
      if encoded.value == rq.secureKey.value {
        r := BillKey(cardVo.value.billKey);
      } else {
        r := Failed(FAIL);
      }
    }

    // The order sent is the one the request names, not the one in the memory.
    method GetKiccTranSendVo(rq: Request, w: World) returns (ok: bool)
      ensures ok == Sendable(rq, w)
    {
      if rq.orderId.None? || rq.orderId.value !in w.payInfo {
        return false;
      }
      if w.payInfo[rq.orderId.value] == Some("Y") {
        return false;
      }
      ok := rq.clientIp.Some?;
    }

    method SendRequestToKICC(member: string, order: string, clientIp: string, billKey: string, ghost entry: Entry,
                             w: World)
      returns (code: string)
      modifies this`effects
      ensures effects == old(effects) + ([Sent(member, order, billKey, entry)] + Settled(clientIp, w).1)
      ensures var run := Settled(clientIp, w).0;
        code == if !run.raised && run.resCd == APPROVED && run.cancDate == "" then SUCCESS else FAIL
    {
      hide Settled;
      var kiccTran := new KiccTransaction();
      var run, es := kiccTran.EasypayRun(TRAN_CD_NOR_PAYMENT, clientIp, w);
      effects := effects + ([Sent(member, order, billKey, entry)] + es);
      if run.raised {
        return FAIL;
      }
      if run.resCd == APPROVED {
        if run.cancDate != "" {
          return FAIL;
        }
      } else {
        return FAIL;
      }
      code := SUCCESS;
    }

    method InitializePassword(rq: Request, w: World) returns (code: string)
      modifies this
      ensures var (m, es, c) := Initialized(old(memory), rq, w);
        memory == m && effects == old(effects) + es && code == c
    {
      if rq.step.None? {
        return FAIL;
      }
      if rq.step.value == "1" {
        if rq.memberId.None? || rq.memberId.value !in w.membersWithCards || rq.secretKeyNew.None? {
          return FAIL;
        }
        memory := memory[rq.memberId.value := Entry(INITIALIZE, w.uuid, rq.secretKeyNew.value)];
        effects := effects + [Put(rq.memberId.value, INITIALIZE)];
        code := SUCCESS;
      } else if rq.step.value == "ini" {
        if rq.memberId.None? || rq.nonce.None? {
          return FAIL;
        }
        code := InitializePasswordStep2(rq.memberId.value, rq.nonce.value);
      } else {
        code := FAIL;
      }
    }

    method InitializePasswordStep2(userId: string, nonce: string) returns (code: string)
      modifies this`effects
      ensures var ok := userId in memory && memory[userId].actionType == INITIALIZE && memory[userId].nonce == nonce;
        code == (if ok then SUCCESS else FAIL)
        && effects == old(effects) + if ok then [PasswordSet(userId, memory[userId].second)] else []
    {
      if userId !in memory {
        return FAIL;
      }
      var memVo := memory[userId];
      if memVo.actionType == INITIALIZE {
        if memVo.nonce == nonce {
          effects := effects + [PasswordSet(userId, memVo.second)];
          return SUCCESS;
        }
      }
      code := FAIL;
    }
  }

  // ---- one request ----

  predicate FreshApproval(w: World) { w.gateway.resCd == APPROVED && w.gateway.cancDate == "" }

  function Cancels(es: seq<Effect>): nat
  {
    if es == [] then 0 else (if es[0].Cancelled? then 1 else 0) + Cancels(es[1..])
  }

  // Of one kind of entry, or of all.
  predicate Fits(kind: Option<string>, actionType: string) { kind.None? || kind.value == actionType }

  function Sends(es: seq<Effect>, member: string, kind: Option<string>): nat
  {
    if es == [] then 0
    else (if es[0].Sent? && es[0].member == member && Fits(kind, es[0].entry.actionType) then 1 else 0)
         + Sends(es[1..], member, kind)
  }

  function Puts(es: seq<Effect>, member: string, kind: Option<string>): nat
  {
    if es == [] then 0
    else (if es[0].Put? && es[0].member == member && Fits(kind, es[0].actionType) then 1 else 0)
         + Puts(es[1..], member, kind)
  }

  // What follows on a message to the gateway is one callback, and one cancellation if it is refused.
  lemma SettledCounts(first: Effect, clientIp: string, w: World, x: string, kind: Option<string>)
    requires first.Sent?
    ensures var es := [first] + Settled(clientIp, w).1;
      && Sends(es, x, kind) == (if first.member == x && Fits(kind, first.entry.actionType) then 1 else 0)
      && Puts(es, x, kind) == 0
      && Cancels(es) == if w.gateway.resCd == APPROVED && w.callback.Returned? && w.callback.value < 1 then 1 else 0
  {
    hide Sends, Puts, Cancels;
    var called, refused := CalledBack(w.gateway.orderNo), Cancelled(w.gateway.orderNo, clientIp);
    var tail := Settled(clientIp, w).1;
    assert tail == [] || tail == [called] + [] || tail == [called] + ([refused] + []);
    NoEffects(x, kind);
    OneMore(refused, [], x, kind);
    OneMore(called, [], x, kind);
    OneMore(called, [refused] + [], x, kind);
    OneMore(first, tail, x, kind);
  }

  lemma OneMore(e: Effect, rest: seq<Effect>, x: string, kind: Option<string>)
    ensures Sends([e] + rest, x, kind)
      == (if e.Sent? && e.member == x && Fits(kind, e.entry.actionType) then 1 else 0) + Sends(rest, x, kind)
    ensures Puts([e] + rest, x, kind)
      == (if e.Put? && e.member == x && Fits(kind, e.actionType) then 1 else 0) + Puts(rest, x, kind)
    ensures Cancels([e] + rest) == (if e.Cancelled? then 1 else 0) + Cancels(rest)
  {
    assert ([e] + rest)[1..] == rest;
  }

  // The message step 2 sends: the order of the request, on the entry of the memory.
  function Message(m: Memory, rq: Request, w: World): Effect
    requires rq.memberId.Some? && Verify(m, rq, w).BillKey? && Sendable(rq, w)
  {
    VerifiedHasEntry(m, rq, w);
    Sent(rq.memberId.value, rq.orderId.value, Verify(m, rq, w).key, m[rq.memberId.value])
  }

  // The effects of a step 2: nothing, or one message to the gateway with what follows on it; the entry
  // is consumed either way.
  lemma EffectsOf(m: Memory, rq: Request, w: World, x: string, kind: Option<string>)
    requires rq.step == Some("2") && rq.memberId.Some?
    ensures var (m', es, code) := Paid(m, rq, w);
      && m' == m - {rq.memberId.value}
      && (es != [] <==> Verify(m, rq, w).BillKey? && Sendable(rq, w))
      && (es != [] ==> es == [Message(m, rq, w)] + Settled(rq.clientIp.value, w).1)
      && Sends(es, x, kind) == (if x == rq.memberId.value && es != [] && Held(m, x, kind) == 1 then 1 else 0)
      && Puts(es, x, kind) == 0
  {
    hide Settled, Sends, Puts, Verify;
    NoEffects(x, kind);
    if Verify(m, rq, w).BillKey? && Sendable(rq, w) {
      VerifiedHasEntry(m, rq, w);
      SettledCounts(Message(m, rq, w), rq.clientIp.value, w, x, kind);
    }
  }

  lemma NoEffects(x: string, kind: Option<string>)
    ensures Sends([], x, kind) == 0 && Puts([], x, kind) == 0 && Cancels([]) == 0
  {
  }

  // A payment is confirmed exactly if it was sent, freshly approved, and taken by the merchant.
  lemma ConfirmedIff(m: Memory, rq: Request, w: World)
    requires rq.step == Some("2") && rq.memberId.Some?
    ensures var (m', es, code) := Paid(m, rq, w);
      && (code == SUCCESS <==>
            Sends(es, rq.memberId.value, None) == 1 && FreshApproval(w) && w.callback.Returned?
              && w.callback.value >= 1)
      && (code == SUCCESS || code == FAIL || code == MISMATCH)
  {
    hide Verify, Sends;
    VerifyFails(m, rq, w);
    EffectsOf(m, rq, w, rq.memberId.value, None);
    if Verify(m, rq, w).BillKey? {
      VerifiedHasEntry(m, rq, w);
    }
  }

  lemma VerifyFails(m: Memory, rq: Request, w: World)
    requires rq.memberId.Some?
    ensures Verify(m, rq, w).Failed? ==> Verify(m, rq, w).code == FAIL || Verify(m, rq, w).code == MISMATCH
  {
  }

  // A payment that is approved and refused by the merchant is cancelled exactly once and reported as a
  // failure; in every other case nothing is cancelled, even when the callback itself fails.
  lemma CompensationIff(m: Memory, rq: Request, w: World)
    requires rq.step == Some("2") && rq.memberId.Some?
    ensures var (m', es, code) := Paid(m, rq, w);
      && Cancels(es) == (if Sends(es, rq.memberId.value, None) == 1 && w.gateway.resCd == APPROVED
                            && w.callback.Returned? && w.callback.value < 1 then 1 else 0)
      && (Cancels(es) == 1 ==> code == FAIL)
  {
    hide Verify, Sends, Cancels;
    NoEffects(rq.memberId.value, None);
    EffectsOf(m, rq, w, rq.memberId.value, None);
    if Verify(m, rq, w).BillKey? && Sendable(rq, w) {
      VerifiedHasEntry(m, rq, w);
      SettledCounts(Message(m, rq, w), rq.clientIp.value, w, rq.memberId.value, None);
    }
  }

  // A payment sent and approved is neither confirmed nor cancelled exactly if the callback fails, or the
  // merchant takes it while the gateway gives a cancel date.
  lemma NeitherIff(m: Memory, rq: Request, w: World)
    requires rq.step == Some("2") && rq.memberId.Some?
    requires Paid(m, rq, w).1 != [] && w.gateway.resCd == APPROVED
    ensures var (m', es, code) := Paid(m, rq, w);
      code != SUCCESS && Cancels(es) == 0
      <==> w.callback.Raised? || (w.callback.value >= 1 && w.gateway.cancDate != "")
  {
    hide Verify, Sends, Cancels, Sendable, Paid, Settled;
    EffectsOf(m, rq, w, rq.memberId.value, None);
    SentIsHeld(m, rq, w);
    ConfirmedIff(m, rq, w);
    CompensationIff(m, rq, w);
  }

  lemma SentIsHeld(m: Memory, rq: Request, w: World)
    requires rq.step == Some("2") && rq.memberId.Some? && Paid(m, rq, w).1 != []
    ensures Held(m, rq.memberId.value, None) == 1
  {
    hide Sendable, Settled;
  }

  // ---- which order, and which entry ----

  // The order sent is the one the nonce was stored for exactly if the request names that order: the
  // digest covers the stored order, and the order sent is taken from the request.
  lemma OrderSentIff(m: Memory, rq: Request, w: World)
    requires rq.step == Some("2") && rq.memberId.Some? && Paid(m, rq, w).1 != []
    ensures rq.memberId.value in m && Paid(m, rq, w).1[0].Sent?
    ensures Paid(m, rq, w).1[0].order == m[rq.memberId.value].second
      <==> rq.orderId == Some(m[rq.memberId.value].second)
  {
    hide Verify, Settled;
    EffectsOf(m, rq, w, rq.memberId.value, None);
    VerifiedHasEntry(m, rq, w);
  }

  // The kind of the entry makes no difference to a payment.
  lemma ActionTypeIsIgnored(m: Memory, rq: Request, w: World, actionType: string)
    requires rq.step == Some("2") && rq.memberId.Some? && rq.memberId.value in m
    ensures var n := m[rq.memberId.value := m[rq.memberId.value].(actionType := actionType)];
      && Paid(n, rq, w).2 == Paid(m, rq, w).2 && Paid(n, rq, w).0 == Paid(m, rq, w).0
      && (Paid(n, rq, w).1 == [] <==> Paid(m, rq, w).1 == [])
  {
    hide Settled, Sendable;
    var x := rq.memberId.value;
    var n := m[x := m[x].(actionType := actionType)];
    assert n - {x} == m - {x};
    assert Verify(n, rq, w) == Verify(m, rq, w);
  }

  function ExampleWorld(): World
  {
    World("u", map["c" := Card("secret", "b")], {}, map["o" := None], (text, key) => Some("d"),
          Response(APPROVED, "", "n"), Returned(1), false)
  }

  const EXAMPLE_REQUEST := Request(Some("2"), Some("m"), None, Some("o"), Some("c"), Some("secret"), Some("d"),
    Some("i"), None, None)

  // A nonce stored for order "p" confirms a payment of order "o", and so does one stored for a reset.
  lemma AnyEntryBacksAnyOrder(actionType: string, second: string)
    ensures var m := map["m" := Entry(actionType, "n", second)];
      && Paid(m, EXAMPLE_REQUEST, ExampleWorld()).2 == SUCCESS
      && Paid(m, EXAMPLE_REQUEST, ExampleWorld()).1[0] == Sent("m", "o", "b", Entry(actionType, "n", second))
  {
    var m: Memory := map["m" := Entry(actionType, "n", second)];
    assert Verify(m, EXAMPLE_REQUEST, ExampleWorld()) == BillKey("b");
  }

  // When the merchant's callback fails, an approved payment is reported as failed and not cancelled.
  lemma RaisedCallbackLeavesPayment()
    ensures var m := map["m" := Entry(REQUEST_PAYMENT, "n", "o")];
      && Paid(m, EXAMPLE_REQUEST, ExampleWorld().(callback := Raised)).2 == FAIL
      && Paid(m, EXAMPLE_REQUEST, ExampleWorld().(callback := Raised)).1
         == [Sent("m", "o", "b", Entry(REQUEST_PAYMENT, "n", "o")), CalledBack("n")]
  {
    var m: Memory := map["m" := Entry(REQUEST_PAYMENT, "n", "o")];
    assert Verify(m, EXAMPLE_REQUEST, ExampleWorld().(callback := Raised)) == BillKey("b");
  }

  // ---- runs ----

  datatype Event = Payment(rq: Request, w: World) | Reset(rq: Request, w: World)

  function Handled(m: Memory, e: Event): (Memory, seq<Effect>)
  {
    match e
    case Payment(rq, w) => var (m', es, _) := Paid(m, rq, w); (m', es)
    case Reset(rq, w) => var (m', es, _) := Initialized(m, rq, w); (m', es)
  }

  // The memory and all the effects of a run.
  function After(m: Memory, events: seq<Event>): (Memory, seq<Effect>)
    decreases |events|
  {
    if events == [] then (m, [])
    else
      var (m1, es) := Handled(m, events[0]);
      var (m2, rest) := After(m1, events[1..]);
      (m2, es + rest)
  }

  // One more event is handled in the memory the others left.
  lemma {:induction false} AfterOneMore(m: Memory, events: seq<Event>, e: Event)
    ensures var (m1, es), (m2, more) := After(m, events), Handled(After(m, events).0, e);
      After(m, events + [e]) == (m2, es + more)
    decreases |events|
  {
    hide Handled;
    if events == [] {
      assert [] + [e] == [e] && [e][1..] == [];
      var more := Handled(m, e).1;
      assert more + [] == more && [] + more == more;
    } else {
      assert (events + [e])[1..] == events[1..] + [e];
      var (m0, first) := Handled(m, events[0]);
      AfterOneMore(m0, events[1..], e);
      var (m1, rest) := After(m0, events[1..]);
      assert (first + rest) + Handled(m1, e).1 == first + (rest + Handled(m1, e).1);
    }
  }

  function Held(m: Memory, member: string, kind: Option<string>): nat
  {
    if member in m && Fits(kind, m[member].actionType) then 1 else 0
  }

  // Every message to the gateway uses up an entry of the memory, of its own kind.
  lemma OneEventBalances(m: Memory, e: Event, x: string, kind: Option<string>)
    ensures var (m', es) := Handled(m, e);
      Sends(es, x, kind) + Held(m', x, kind) <= Puts(es, x, kind) + Held(m, x, kind)
  {
    hide Verify, Sendable, Settled;
    NoEffects(x, kind);
    match e
    case Payment(rq, w) =>
      if rq.step == Some("2") && rq.memberId.Some? {
        EffectsOf(m, rq, w, x, kind);
      }
    case Reset(rq, w) =>
  }

  lemma {:induction false} CountsAdd(a: seq<Effect>, b: seq<Effect>, x: string, kind: Option<string>)
    ensures Sends(a + b, x, kind) == Sends(a, x, kind) + Sends(b, x, kind)
    ensures Puts(a + b, x, kind) == Puts(a, x, kind) + Puts(b, x, kind)
  {
    if a == [] {
      assert a + b == b;
    } else {
      assert (a + b)[1..] == a[1..] + b;
      CountsAdd(a[1..], b, x, kind);
    }
  }

  // From any memory, a run sends for a member at most as often as it stores a nonce for him, once more
  // if an entry was there before: payments and resets counted together, or each apart.
  lemma {:induction false} SendsAreBacked(m: Memory, events: seq<Event>, x: string, kind: Option<string>)
    ensures var (m', es) := After(m, events);
      Sends(es, x, kind) + Held(m', x, kind) <= Puts(es, x, kind) + Held(m, x, kind)
    decreases |events|
  {
    hide Handled, Sends, Puts;
    NoEffects(x, kind);
    if events != [] {
      var (m1, es) := Handled(m, events[0]);
      OneEventBalances(m, events[0], x, kind);
      SendsAreBacked(m1, events[1..], x, kind);
      CountsAdd(es, After(m1, events[1..]).1, x, kind);
    }
  }

  // From the start, for every member and every prefix of every run.
  lemma PrefixesAreBacked(events: seq<Event>, n: nat, x: string, kind: Option<string>)
    requires n <= |events|
    ensures Sends(After(map[], events[..n]).1, x, kind) <= Puts(After(map[], events[..n]).1, x, kind)
  {
    SendsAreBacked(map[], events[..n], x, kind);
  }

  // Behind a payment attempt, successful or not, a member sends again only on new nonces.
  lemma AttemptsConsume(m: Memory, rq: Request, w: World, later: seq<Event>)
    requires rq.step == Some("2") && rq.memberId.Some?
    ensures var m' := Paid(m, rq, w).0;
      var es := After(m', later).1;
      Sends(es, rq.memberId.value, None) <= Puts(es, rq.memberId.value, None)
  {
    hide Sends, Puts;
    EffectsOf(m, rq, w, "", None);
    SendsAreBacked(Paid(m, rq, w).0, later, rq.memberId.value, None);
  }

  // A password reset, unlike a payment, leaves its nonce: the confirmation works again at once.
  lemma ResetLeavesNonce(m: Memory, rq: Request, w: World, w': World)
    requires rq.step == Some("ini")
    ensures Initialized(m, rq, w).0 == m
    ensures Initialized(Initialized(m, rq, w).0, rq, w') == Initialized(m, rq, w)
  {
  }
}
