// What a second step has to prove: a payment is sent, and a secret key set, exactly for the nonce that
// was stored; and over whole runs every such nonce was asked for before.
module NonceLaws {
  import opened Wrappers
  import opened Payments

  // ---- one request ----

  // The request names a card by its secret key, and its secure key is the digest under that key of the
  // stored nonce, the member and what was stored with the nonce.
  predicate Proves(rq: Request, w: World, member: string, entry: Entry)
  {
    && rq.cardToken.Some? && rq.cardToken.value in w.cards
    && var key := w.cards[rq.cardToken.value].secretKey;
       rq.secretKey == Some(key) && |key| >= 5
       && rq.secureKey.Some? && w.digest(entry.nonce + member + entry.second, key) == rq.secureKey
  }

  predicate Unpaid(rq: Request, w: World)
  {
    exists order :: rq.orderId == Some(order) && order in w.payInfo && w.payInfo[order] != Some("Y")
  }

  predicate Presents(rq: Request, w: World, member: string, entry: Entry)
  {
    && rq.step == Some("2") && rq.memberId == Some(member) && Proves(rq, w, member, entry)
    && Unpaid(rq, w) && rq.clientIp.Some?
  }

  predicate HasSent(es: seq<Effect>) { exists i | 0 <= i < |es| :: es[i].Sent? }

  /**
   A payment is sent exactly if the member has an entry and the request proves it for an unpaid order;
   then first of all, for the card named, and the entry is used up.
   */
  lemma SentIff(m: Memory, rq: Request, w: World)
    ensures var (m', es, _) := Paid(m, rq, w);
      && (HasSent(es) <==>
          rq.memberId.Some? && rq.memberId.value in m && Presents(rq, w, rq.memberId.value, m[rq.memberId.value]))
      && (HasSent(es) ==>
          && es[0] == Sent(rq.memberId.value, rq.orderId.value, w.cards[rq.cardToken.value].billKey,
                           m[rq.memberId.value])
          && rq.memberId.value !in m' && forall i | 0 < i < |es| :: !es[i].Sent?)
  {
    var (m', es, code) := Paid(m, rq, w);
    if rq.step == Some("2") && rq.memberId.Some? && Verify(m, rq, w).BillKey? && Sendable(rq, w) {
      assert es[0].Sent?;
      assert rq.orderId == Some(rq.orderId.value);
    }
  }

  // A wrong secret key of a card that is there has its own code; anything else that is not a success
  // has the general one.
  lemma ReplyIs(m: Memory, rq: Request, w: World)
    ensures var code := Paid(m, rq, w).2;
      && (code == MISMATCH <==>
          && rq.step == Some("2") && rq.memberId.Some? && rq.memberId.value in m
          && rq.cardToken.Some? && rq.cardToken.value in w.cards
          && rq.secretKey.Some? && |rq.secretKey.value| >= 5
          && rq.secretKey.value != w.cards[rq.cardToken.value].secretKey)
      && code in {SUCCESS, MISMATCH, FAIL}
  {
  }

  // The first step stores a new nonce with the order, exactly for a card payment of some order.
  lemma NonceStoredIff(m: Memory, rq: Request, w: World)
    requires rq.step == Some("1") && rq.memberId.Some?
    ensures var (m', es, code) := Paid(m, rq, w);
      if rq.payKind == Some("CARD") && rq.orderId.Some? then
        m' == m[rq.memberId.value := Entry(REQUEST_PAYMENT, w.uuid, rq.orderId.value)]
        && es == [Put(rq.memberId.value, REQUEST_PAYMENT)] && code == SUCCESS
      else m' == m && es == [] && code == FAIL
  {
  }

  /**
   Both steps: whatever the memory was, the second is sent exactly if it proves the nonce the first one
   was given, with the order named then; and it is never sent again, proved or not.
   */
  lemma NonceWorksOnce(m: Memory, first: Request, w: World, second: Request, w': World, third: Request, w'': World)
    requires first.step == Some("1") && first.memberId.Some? && first.payKind == Some("CARD") && first.orderId.Some?
    requires second.step == third.step == Some("2") && second.memberId == third.memberId == first.memberId
    ensures var m1 := Paid(m, first, w).0;
      && (HasSent(Paid(m1, second, w').1) <==>
          Presents(second, w', first.memberId.value, Entry(REQUEST_PAYMENT, w.uuid, first.orderId.value)))
      && !HasSent(Paid(Paid(m1, second, w').0, third, w'').1)
  {
    hide Presents, HasSent, Verify, Settled, Sendable;
    var m1 := Paid(m, first, w).0;
    NonceStoredIff(m, first, w);
    SentIff(m1, second, w');
    UsedUp(m1, second, w');
    SentIff(Paid(m1, second, w').0, third, w'');
  }

  lemma UsedUp(m: Memory, rq: Request, w: World)
    requires rq.step == Some("2") && rq.memberId.Some?
    ensures Paid(m, rq, w).0 == m - {rq.memberId.value}
  {
    hide Verify, Settled, Sendable;
  }

  // ---- the reset ----

  // A secret key is set exactly for the stored nonce of a reset, and is the one stored with it.
  lemma PasswordSetIff(m: Memory, rq: Request, w: World, member: string, key: string)
    ensures PasswordSet(member, key) in Initialized(m, rq, w).1 <==>
      && rq.step == Some("ini") && rq.memberId == Some(member) && rq.nonce.Some?
      && member in m && m[member] == Entry(INITIALIZE, rq.nonce.value, key)
  {
  }

  lemma ResetStoredIff(m: Memory, rq: Request, w: World)
    requires rq.step == Some("1")
    ensures var (m', es, code) := Initialized(m, rq, w);
      if rq.memberId.Some? && rq.memberId.value in w.membersWithCards && rq.secretKeyNew.Some? then
        m' == m[rq.memberId.value := Entry(INITIALIZE, w.uuid, rq.secretKeyNew.value)]
        && es == [Put(rq.memberId.value, INITIALIZE)] && code == SUCCESS
      else m' == m && es == [] && code == FAIL
  {
  }

  // Both steps of a reset: the second sets the key the first one named exactly if it brings the nonce.
  lemma ResetSetsKeyAsked(m: Memory, first: Request, w: World, second: Request, w': World)
    requires first.step == Some("1") && first.memberId.Some? && first.memberId.value in w.membersWithCards
    requires first.secretKeyNew.Some? && second.step == Some("ini") && second.memberId == first.memberId
    ensures var (m', es, code) := Initialized(Initialized(m, first, w).0, second, w');
      && (code == SUCCESS <==> second.nonce == Some(w.uuid))
      && es == (if code == SUCCESS then [PasswordSet(first.memberId.value, first.secretKeyNew.value)] else [])
  {
  }

  // ---- runs ----

  // The event stores the entry for the member.
  predicate Stores(e: Event, member: string, entry: Entry)
  {
    && e.rq.step == Some("1") && e.rq.memberId == Some(member) && entry.nonce == e.w.uuid
    && (match e
        case Payment(rq, w) =>
          rq.payKind == Some("CARD") && rq.orderId == Some(entry.second) && entry.actionType == REQUEST_PAYMENT
        case Reset(rq, w) =>
          member in w.membersWithCards && rq.secretKeyNew == Some(entry.second) && entry.actionType == INITIALIZE)
  }

  lemma EntryComesFrom(m: Memory, e: Event, member: string)
    requires member in Handled(m, e).0
    ensures var entry := Handled(m, e).0[member]; (member in m && m[member] == entry) || Stores(e, member, entry)
  {
    hide Verify, Settled, Sendable;
  }

  // The event uses the entry: it sends a payment, or sets the secret key.
  predicate Uses(e: Event, x: Effect, entry: Entry)
  {
    match e
    case Payment(rq, w) =>
      x.Sent? && x.entry == entry && Presents(rq, w, x.member, entry)
      && rq.orderId == Some(x.order) && x.billKey == w.cards[rq.cardToken.value].billKey
    case Reset(rq, w) =>
      x.PasswordSet? && entry.actionType == INITIALIZE && entry.second == x.secretKey
      && rq.step == Some("ini") && rq.memberId == Some(x.member) && rq.nonce == Some(entry.nonce)
  }

  predicate IsUse(x: Effect) { x.Sent? || x.PasswordSet? }

  lemma UseIs(m: Memory, e: Event, x: Effect)
    requires x in Handled(m, e).1 && IsUse(x)
    ensures x.member in m && Uses(e, x, m[x.member])
  {
    hide Verify, Settled, Sendable, Proves;
    match e
    case Payment(rq, w) =>
      var es := Paid(m, rq, w).1;
      NoKeySet(m, rq, w, x);
      SentIff(m, rq, w);
      var k :| 0 <= k < |es| && es[k] == x;
    case Reset(rq, w) =>
  }

  lemma NoKeySet(m: Memory, rq: Request, w: World, x: Effect)
    requires x in Paid(m, rq, w).1
    ensures !x.PasswordSet?
  {
    hide Verify, Sendable;
  }

  // The entry used for x at event j was stored by event i, or was there before the run.
  predicate Backed(m: Memory, events: seq<Event>, x: Effect, i: int, j: nat, entry: Entry)
  {
    && IsUse(x) && j < |events| && -1 <= i < j && Uses(events[j], x, entry)
    && (if i == -1 then x.member in m && m[x.member] == entry else Stores(events[i], x.member, entry))
  }

  lemma {:induction false} UsesAreBacked(m: Memory, events: seq<Event>, x: Effect)
    returns (i: int, j: nat, entry: Entry)
    requires x in After(m, events).1 && IsUse(x)
    ensures Backed(m, events, x, i, j, entry)
    decreases |events|
  {
    hide Handled, Uses, Stores;
    var (m1, es) := Handled(m, events[0]);
    if x in es {
      UseIs(m, events[0], x);
      i, j, entry := -1, 0, m[x.member];
    } else {
      var i', j', entry' := UsesAreBacked(m1, events[1..], x);
      entry, j := entry', j' + 1;
      if i' == -1 {
        EntryComesFrom(m, events[0], x.member);
        i := if x.member in m && m[x.member] == entry then -1 else 0;
      } else {
        i := i' + 1;
      }
    }
  }

  /**
   From the start: behind every payment sent and every secret key set there is an earlier request of the
   same member that was given the nonce, and a later one that proves it.
   */
  lemma NothingWithoutNonce(events: seq<Event>, x: Effect) returns (i: nat, j: nat, entry: Entry)
    requires x in After(map[], events).1 && IsUse(x)
    ensures i < j < |events| && Stores(events[i], x.member, entry) && Uses(events[j], x, entry)
  {
    hide After, Stores, Uses;
    var k, l, e := UsesAreBacked(map[], events, x);
    i, j, entry := k, l, e;
  }
}
