/**
 The broadcast over outer routing tables, as a transition system. Messages in flight are received
 in any order or lost; receiving (v, k) sends index i-1 to the node in outer slot i of v, for i
 from k down to 0, and hands the package to v. The package itself plays no role. Nodes go on
 registering peers meanwhile, so every receive names the tables of its moment.
 */
module Broadcasts {
  import opened Wrappers
  import RouteTables

  type id = nat

  datatype Message = Message(dst: id, bcIndex: int)

  // outer[(v, i)] is the node in outer slot i of v, if that slot is filled.
  type Tables = map<(id, int), id>

  // ---- udpBroadcast ----

  function SlotMessage(outer: Tables, v: id, i: int): seq<Message>
  {
    if (v, i) in outer then [Message(outer[(v, i)], i - 1)] else []
  }

  function Forwards(outer: Tables, v: id, k: int): seq<Message>
    decreases k
  {
    if k < 0 then [] else SlotMessage(outer, v, k) + Forwards(outer, v, k - 1)
  }

  method UdpBroadcast(outer: Tables, v: id, bcIndex: int) returns (sent: seq<Message>)
    ensures sent == Forwards(outer, v, bcIndex)
  {
    sent := [];
    var i := bcIndex;
    while i >= 0
      invariant sent + Forwards(outer, v, i) == Forwards(outer, v, bcIndex)
      decreases i
    {
      ghost var before, step := sent, SlotMessage(outer, v, i);
      if (v, i) in outer {
        sent := sent + [Message(outer[(v, i)], i - 1)];
      }
      assert sent == before + step;
      assert before + (step + Forwards(outer, v, i - 1)) == (before + step) + Forwards(outer, v, i - 1);
      i := i - 1;
    }
  }

  // ---- runs ----

  // dropped holds the messages lost and, for every slot found empty, the message it should have got.
  datatype State = State(inflight: seq<Message>, delivered: multiset<id>, dropped: seq<Message>)

  datatype Event = Receive(i: nat, outer: Tables) | Lose(i: nat)

  function Without<T>(s: seq<T>, i: nat): (r: seq<T>)
    requires i < |s|
    ensures |r| == |s| - 1
  {
    s[..i] + s[i + 1..]
  }

  // The other half of the ids that agree with v above bit i.
  function Flip(v: id, i: nat): id { if v / Pow2(i) % 2 == 1 then v - Pow2(i) else v + Pow2(i) }

  function Unserved(outer: Tables, v: id, k: int): seq<Message>
    decreases k
  {
    if k < 0 then [] else (if (v, k) in outer then [] else [Message(Flip(v, k), k - 1)]) + Unserved(outer, v, k - 1)
  }

  function Step(s: State, e: Event): State
    requires e.i < |s.inflight|
  {
    var m, rest := s.inflight[e.i], Without(s.inflight, e.i);
    match e
    case Receive(_, outer) =>
      State(rest + Forwards(outer, m.dst, m.bcIndex), s.delivered + multiset{m.dst},
            s.dropped + Unserved(outer, m.dst, m.bcIndex))
    case Lose(_) => State(rest, s.delivered, s.dropped + [m])
  }

  ghost predicate Legal(s: State, es: seq<Event>)
    decreases |es|
  {
    es == [] || (es[0].i < |s.inflight| && Legal(Step(s, es[0]), es[1..]))
  }

  ghost function Run(s: State, es: seq<Event>): State
    requires Legal(s, es)
    decreases |es|
  {
    if es == [] then s else Run(Step(s, es[0]), es[1..])
  }

  function Start(v: id, k: int): State { State([Message(v, k)], multiset{}, []) }

  // ---- termination, for arbitrary tables ----

  function Weight(m: Message): nat { if m.bcIndex < 0 then 1 else Pow2(m.bcIndex + 1) }

  function Sum(ms: seq<Message>): nat { if ms == [] then 0 else Weight(ms[0]) + Sum(ms[1..]) }

  lemma {:induction false} SumAppend(a: seq<Message>, b: seq<Message>)
    ensures Sum(a + b) == Sum(a) + Sum(b)
  {
    if a == [] {
      assert a + b == b;
    } else {
      assert (a + b)[1..] == a[1..] + b;
      SumAppend(a[1..], b);
    }
  }

  lemma SumMiddle(a: seq<Message>, m: Message, c: seq<Message>)
    ensures Sum(a + ([m] + c)) == Sum(a + c) + Weight(m)
  {
    hide Weight, Sum;
    SumAppend(a, [m] + c);
    SumAppend([m], c);
    SumAppend(a, c);
    SumSingle(m);
  }

  lemma Around<T>(s: seq<T>, i: nat)
    requires i < |s|
    ensures s == s[..i] + ([s[i]] + s[i + 1..]) && Without(s, i) == s[..i] + s[i + 1..]
  {
  }

  lemma SumWithout(ms: seq<Message>, i: nat)
    requires i < |ms|
    ensures Sum(ms) == Sum(Without(ms, i)) + Weight(ms[i])
  {
    hide *;
    Around(ms, i);
    SumMiddle(ms[..i], ms[i], ms[i + 1..]);
  }

  lemma SumSingle(m: Message)
    ensures Sum([m]) == Weight(m)
  {
    assert [m][1..] == [];
  }

  lemma {:induction false} ForwardsWeigh(outer: Tables, v: id, k: int)
    ensures Sum(Forwards(outer, v, k)) + 1 <= Weight(Message(v, k))
    decreases k
  {
    if k >= 0 {
      ForwardsWeigh(outer, v, k - 1);
      SumAppend(SlotMessage(outer, v, k), Forwards(outer, v, k - 1));
      if (v, k) in outer {
        assert SlotMessage(outer, v, k)[1..] == [];
      }
    }
  }

  // Every event, a receive or a loss, uses up weight.
  lemma StepWeighs(s: State, e: Event)
    requires e.i < |s.inflight|
    ensures Sum(Step(s, e).inflight) < Sum(s.inflight)
  {
    var m := s.inflight[e.i];
    SumWithout(s.inflight, e.i);
    if e.Receive? {
      ForwardsWeigh(e.outer, m.dst, m.bcIndex);
      SumAppend(Without(s.inflight, e.i), Forwards(e.outer, m.dst, m.bcIndex));
    }
  }

  lemma {:induction false} RunsAreShort(s: State, es: seq<Event>)
    requires Legal(s, es)
    ensures |es| + Sum(Run(s, es).inflight) <= Sum(s.inflight)
    decreases |es|
  {
    if es != [] {
      StepWeighs(s, es[0]);
      RunsAreShort(Step(s, es[0]), es[1..]);
    }
  }

  // A broadcast of index k causes at most 2^(k+1) receives, whatever the tables hold at any moment.
  lemma BroadcastTerminates(v: id, k: nat, es: seq<Event>)
    requires Legal(Start(v, k), es)
    ensures |es| <= Pow2(k + 1)
  {
    RunsAreShort(Start(v, k), es);
    assert Start(v, k).inflight[1..] == [];
  }

  // A forwarding path: each message was sent on receiving the one before it, over the tables of then.
  ghost predicate IsPath(tables: seq<Tables>, path: seq<Message>)
  {
    |path| <= |tables| + 1
    && forall i | 0 < i < |path| :: path[i] in Forwards(tables[i - 1], path[i - 1].dst, path[i - 1].bcIndex)
  }

  lemma {:induction false} ForwardsDescend(outer: Tables, v: id, k: int, m: Message)
    requires m in Forwards(outer, v, k)
    ensures -1 <= m.bcIndex < k
    decreases k
  {
    if m !in SlotMessage(outer, v, k) {
      ForwardsDescend(outer, v, k - 1, m);
    }
  }

  // Exactly the filled slots up to k are served, each with the index below its own.
  lemma {:induction false} ForwardsAre(outer: Tables, v: id, k: int, m: Message)
    ensures m in Forwards(outer, v, k) <==>
      0 <= m.bcIndex + 1 <= k && (v, m.bcIndex + 1) in outer && outer[(v, m.bcIndex + 1)] == m.dst
    decreases k
  {
    if k >= 0 {
      ForwardsAre(outer, v, k - 1, m);
      OneSlot(outer, v, k, m);
    }
  }

  lemma OneSlot(outer: Tables, v: id, i: int, m: Message)
    ensures m in SlotMessage(outer, v, i) <==> m.bcIndex + 1 == i && (v, i) in outer && outer[(v, i)] == m.dst
  {
  }

  // The highest slot comes first, and no slot twice.
  lemma {:induction false} ForwardsInOrder(outer: Tables, v: id, k: int, a: nat, b: nat)
    requires a < b < |Forwards(outer, v, k)|
    ensures Forwards(outer, v, k)[a].bcIndex > Forwards(outer, v, k)[b].bcIndex
    decreases k
  {
    var rest := Forwards(outer, v, k - 1);
    var n := |SlotMessage(outer, v, k)|;
    assert Forwards(outer, v, k)[b] == rest[b - n];
    if a >= n {
      ForwardsInOrder(outer, v, k - 1, a - n, b - n);
    } else {
      ForwardsDescend(outer, v, k - 1, rest[b - n]);
    }
  }

  lemma {:induction false} PathsAreShort(tables: seq<Tables>, path: seq<Message>)
    requires IsPath(tables, path) && path != [] && path[0].bcIndex >= -1
    ensures |path| - 1 <= path[0].bcIndex + 1
  {
    if |path| > 1 {
      ForwardsDescend(tables[0], path[0].dst, path[0].bcIndex, path[1]);
      assert forall i | 0 < i < |path| - 1 ::
        path[1..][i] == path[i + 1] && path[1..][i - 1] == path[i] && tables[1..][i - 1] == tables[i];
      PathsAreShort(tables[1..], path[1..]);
    }
  }

  // ---- coverage, for tables obeying the distance rule ----

  // Slot i of v holds a node that agrees with v above bit i and differs at bit i.
  predicate SlotRule(v: id, i: nat, n: id)
  {
    n / Pow2(i) / 2 == v / Pow2(i) / 2 && n / Pow2(i) % 2 != v / Pow2(i) % 2
  }

  ghost predicate ObeysDistance(outer: Tables)
  {
    forall v, i: int | i >= 0 && (v, i) in outer :: SlotRule(v, i, outer[(v, i)])
  }

  ghost predicate AllObey(es: seq<Event>) { forall i | 0 <= i < |es| && es[i].Receive? :: ObeysDistance(es[i].outer) }

  // The ids a message is responsible for: those that agree with dst above bit bcIndex.
  predicate Covers(m: Message, w: id)
  {
    if m.bcIndex < 0 then w == m.dst else w / Pow2(m.bcIndex) / 2 == m.dst / Pow2(m.bcIndex) / 2
  }

  function Count(ms: seq<Message>, w: id): nat
  {
    if ms == [] then 0 else (if Covers(ms[0], w) then 1 else 0) + Count(ms[1..], w)
  }

  lemma {:induction false} CountAppend(a: seq<Message>, b: seq<Message>, w: id)
    ensures Count(a + b, w) == Count(a, w) + Count(b, w)
  {
    if a == [] {
      assert a + b == b;
    } else {
      assert (a + b)[1..] == a[1..] + b;
      CountAppend(a[1..], b, w);
    }
  }

  lemma CountWithout(ms: seq<Message>, i: nat, w: id)
    requires i < |ms|
    ensures Count(ms, w) == Count(Without(ms, i), w) + (if Covers(ms[i], w) then 1 else 0)
  {
    assert ms == ms[..i] + ([ms[i]] + ms[i + 1..]);
    CountAppend(ms[..i], [ms[i]] + ms[i + 1..], w);
    CountAppend([ms[i]], ms[i + 1..], w);
    CountAppend(ms[..i], ms[i + 1..], w);
    assert Count([ms[i]], w) == (if Covers(ms[i], w) then 1 else 0) + Count([], w);
  }

  // Dividing by 2^i and then by 2 is dividing by 2^(i+1).
  lemma HalfAgain(x: nat, i: nat)
    ensures x / Pow2(i) / 2 == x / Pow2(i + 1)
  {
    var p := Pow2(i);
    var q, r := x / p, x % p;
    assert x == p * (2 * (q / 2) + q % 2) + r;
    assert x == (2 * p) * (q / 2) + (p * (q % 2) + r);
    assert 0 <= p * (q % 2) + r < 2 * p by {
      if q % 2 == 1 { assert p * (q % 2) == p; } else { assert p * (q % 2) == 0; }
    }
    QuotientIs(x, 2 * p, q / 2, p * (q % 2) + r);
  }

  lemma QuotientIs(x: nat, d: nat, q: nat, r: nat)
    requires d > 0 && x == d * q + r && r < d
    ensures x / d == q
  {
    var q', r' := x / d, x % d;
    if q > q' {
      MulMonotone(d, 1, q - q');
      Distribute(d, q, q');
    } else if q < q' {
      MulMonotone(d, 1, q' - q);
      Distribute(d, q', q);
    }
  }

  lemma MulMonotone(d: nat, a: nat, b: nat)
    requires a <= b
    ensures d * a <= d * b
  {
  }

  lemma Distribute(d: int, a: int, b: int)
    ensures d * (a - b) == d * a - d * b
  {
  }

  lemma Shifted(v: nat, p: nat)
    requires p > 0
    ensures (v + p) / p == v / p + 1
    ensures v / p >= 1 ==> v >= p && (v - p) / p == v / p - 1
  {
    var q, r := v / p, v % p;
    assert v == p * q + r;
    Distribute(p, q, -1);
    QuotientIs(v + p, p, q + 1, r);
    if q >= 1 {
      MulMonotone(p, 1, q);
      Distribute(p, q, 1);
      QuotientIs(v - p, p, q - 1, r);
    }
  }

  lemma FlipObeys(v: id, i: nat)
    ensures v / Pow2(i) % 2 == 1 ==> v >= Pow2(i)
    ensures SlotRule(v, i, Flip(v, i))
  {
    hide Pow2;
    Shifted(v, Pow2(i));
  }

  // The ids covered at index k split in two: those covered at k-1, and those of the slot's node.
  lemma CoverSplits(v: id, k: nat, n: id, w: id)
    requires SlotRule(v, k, n)
    ensures Covers(Message(v, k), w) <==> Covers(Message(v, k - 1), w) || Covers(Message(n, k - 1), w)
    ensures !(Covers(Message(v, k - 1), w) && Covers(Message(n, k - 1), w))
  {
    if k > 0 {
      HalfAgain(v, k - 1);
      HalfAgain(n, k - 1);
      HalfAgain(w, k - 1);
    }
  }

  // Receiving (v, k) serves v and hands every other covered id to exactly one message.
  lemma {:induction false} ForwardsPartition(outer: Tables, v: id, k: int, w: id)
    requires ObeysDistance(outer)
    ensures (if Covers(Message(v, k), w) then 1 else 0) ==
      (if w == v then 1 else 0) + Count(Forwards(outer, v, k), w) + Count(Unserved(outer, v, k), w)
    decreases k
  {
    if k >= 0 {
      ForwardsPartition(outer, v, k - 1, w);
      var slot := SlotMessage(outer, v, k);
      var missed := if (v, k) in outer then [] else [Message(Flip(v, k), k - 1)];
      CountAppend(slot, Forwards(outer, v, k - 1), w);
      CountAppend(missed, Unserved(outer, v, k - 1), w);
      FlipObeys(v, k);
      var n := if (v, k) in outer then outer[(v, k)] else Flip(v, k);
      CoverSplits(v, k, n, w);
      assert Count([Message(n, k - 1)], w) == (if Covers(Message(n, k - 1), w) then 1 else 0) + Count([], w);
    }
  }

  function Shares(s: State, w: id): nat { s.delivered[w] + Count(s.inflight, w) + Count(s.dropped, w) }

  lemma StepKeepsShares(s: State, e: Event, w: id)
    requires e.i < |s.inflight| && (e.Receive? ==> ObeysDistance(e.outer))
    ensures Shares(Step(s, e), w) == Shares(s, w)
  {
    hide Covers, Forwards, Unserved, ObeysDistance;
    var m, rest := s.inflight[e.i], Without(s.inflight, e.i);
    CountWithout(s.inflight, e.i, w);
    if e.Receive? {
      ForwardsPartition(e.outer, m.dst, m.bcIndex, w);
      CountAppend(rest, Forwards(e.outer, m.dst, m.bcIndex), w);
      CountAppend(s.dropped, Unserved(e.outer, m.dst, m.bcIndex), w);
    } else {
      CountAppend(s.dropped, [m], w);
      assert Count([m], w) == (if Covers(m, w) then 1 else 0) + Count([], w);
    }
  }

  lemma {:induction false} RunKeepsShares(s: State, es: seq<Event>, w: id)
    requires AllObey(es) && Legal(s, es)
    ensures Shares(Run(s, es), w) == Shares(s, w)
    decreases |es|
  {
    hide ObeysDistance, Shares, Step;
    if es != [] {
      StepKeepsShares(s, es[0], w);
      assert forall i | 0 <= i < |es[1..]| :: es[1..][i] == es[i + 1];
      RunKeepsShares(Step(s, es[0]), es[1..], w);
    }
  }

  // At every moment of every run each id below 2^h is in exactly one place: served, awaited by one
  // message in flight, or given up with one dropped message. Ids from 2^h on are nowhere.
  lemma EachIdInOnePlace(h: nat, v: id, es: seq<Event>, w: id)
    requires AllObey(es) && h > 0 && v < Pow2(h) && Legal(Start(v, h - 1), es)
    ensures Shares(Run(Start(v, h - 1), es), w) == if w < Pow2(h) then 1 else 0
  {
    hide Run, Legal, AllObey;
    RunKeepsShares(Start(v, h - 1), es, w);
    var m := Message(v, h - 1);
    assert Count([m], w) == (if Covers(m, w) then 1 else 0) + Count([], w);
    CoversAll(v, w, h);
  }

  lemma CoversAll(v: id, w: id, h: nat)
    requires h > 0 && v < Pow2(h)
    ensures Covers(Message(v, h - 1), w) <==> w < Pow2(h)
  {
    HalfAgain(v, h - 1);
    HalfAgain(w, h - 1);
    QuotientIs(v, Pow2(h), 0, v);
    ZeroQuotient(w, Pow2(h));
    if w < Pow2(h) {
      QuotientIs(w, Pow2(h), 0, w);
    }
  }

  ghost predicate LossFree(es: seq<Event>) { forall i | 0 <= i < |es| :: es[i].Receive? }

  // Every id below 2^h has all its slots 0 .. h-1 filled.
  ghost predicate Complete(outer: Tables, h: nat)
  {
    forall v: id, i: nat | v < Pow2(h) && i < h :: (v, i) in outer
  }

  ghost predicate AllComplete(es: seq<Event>, h: nat)
  {
    forall i | 0 <= i < |es| && es[i].Receive? :: Complete(es[i].outer, h)
  }

  lemma {:induction false} CoveredIsServed(ms: seq<Message>, i: nat)
    requires i < |ms|
    ensures Count(ms, ms[i].dst) > 0
  {
    if i > 0 {
      CoveredIsServed(ms[1..], i - 1);
    }
  }

  // Messages of a complete overlay stay inside it, so no slot is found empty.
  lemma {:induction false} StaysInside(outer: Tables, h: nat, v: id, k: int)
    requires ObeysDistance(outer) && Complete(outer, h) && v < Pow2(h) && k < h
    ensures Unserved(outer, v, k) == []
    ensures forall m | m in Forwards(outer, v, k) :: m.dst < Pow2(h) && m.bcIndex < h
    decreases k
  {
    if k >= 0 {
      StaysInside(outer, h, v, k - 1);
      SlotInside(v, k, outer[(v, k)], h);
    }
  }

  lemma {:induction false} SlotInside(v: id, i: nat, n: id, h: nat)
    requires SlotRule(v, i, n) && i < h && v < Pow2(h)
    ensures n < Pow2(h)
    decreases h
  {
    HalfAgain(v, i);
    HalfAgain(n, i);
    SameQuotients(v, n, i + 1, h);
    QuotientIs(v, Pow2(h), 0, v);
    ZeroQuotient(n, Pow2(h));
  }

  lemma ZeroQuotient(x: nat, d: nat)
    requires d > 0
    ensures x / d == 0 <==> x < d
  {
    if x / d == 0 {
      assert x == d * (x / d) + x % d;
    }
  }

  lemma {:induction false} SameQuotients(x: nat, y: nat, i: nat, h: nat)
    requires i <= h && x / Pow2(i) == y / Pow2(i)
    ensures x / Pow2(h) == y / Pow2(h)
    decreases h
  {
    if i < h {
      SameQuotients(x, y, i, h - 1);
      HalfAgain(x, h - 1);
      HalfAgain(y, h - 1);
    }
  }

  lemma {:induction false} NothingDropped(h: nat, s: State, es: seq<Event>)
    requires AllObey(es) && AllComplete(es, h) && Legal(s, es) && LossFree(es)
    requires s.dropped == [] && forall m | m in s.inflight :: m.dst < Pow2(h) && m.bcIndex < h
    ensures Run(s, es).dropped == []
    decreases |es|
  {
    hide ObeysDistance, Complete, Forwards, Unserved;
    if es != [] {
      var m, outer := s.inflight[es[0].i], es[0].outer;
      StaysInside(outer, h, m.dst, m.bcIndex);
      assert forall i | 0 <= i < |es[1..]| :: es[1..][i] == es[i + 1];
      NothingDropped(h, Step(s, es[0]), es[1..]);
    }
  }

  // The package was handed to each id below 2^h exactly once, and to no other.
  ghost predicate ServedOnce(s: State, h: nat)
  {
    forall w: id :: s.delivered[w] == if w < Pow2(h) then 1 else 0
  }

  // When nothing is in flight any more: every id below 2^h was served exactly once if and only if
  // no message was lost and no slot was found empty.
  lemma ExactlyOnceIffNothingDropped(h: nat, v: id, es: seq<Event>)
    requires AllObey(es) && h > 0 && v < Pow2(h) && Legal(Start(v, h - 1), es)
    requires Run(Start(v, h - 1), es).inflight == []
    ensures var s := Run(Start(v, h - 1), es);
      ServedOnce(s, h) <==> s.dropped == []
  {
    hide Run, Legal, AllObey, Pow2;
    var s := Run(Start(v, h - 1), es);
    forall w: id
      ensures s.delivered[w] + Count(s.dropped, w) == if w < Pow2(h) then 1 else 0
    {
      EachIdInOnePlace(h, v, es, w);
    }
    if s.dropped != [] {
      CoveredIsServed(s.dropped, 0);
      var w := s.dropped[0].dst;
      assert s.delivered[w] + Count(s.dropped, w) == if w < Pow2(h) then 1 else 0;
    }
  }

  // A loss-free broadcast of index h-1 over complete overlays, growing or not, serves all 2^h nodes
  // exactly once, in whatever order the messages arrive.
  lemma ExactlyOnceCoverage(h: nat, v: id, es: seq<Event>)
    requires AllObey(es) && AllComplete(es, h) && h > 0 && v < Pow2(h)
    requires Legal(Start(v, h - 1), es) && LossFree(es)
    requires Run(Start(v, h - 1), es).inflight == []
    ensures ServedOnce(Run(Start(v, h - 1), es), h)
  {
    NothingDropped(h, Start(v, h - 1), es);
    ExactlyOnceIffNothingDropped(h, v, es);
  }

  // ---- when an overlay serves ----

  // A run without loss over tables that do not change, from v until nothing is in flight.
  ghost predicate Finished(outer: Tables, h: nat, v: id, es: seq<Event>)
    requires h > 0
  {
    && v < Pow2(h) && (forall i | 0 <= i < |es| :: es[i].Receive? && es[i].outer == outer)
    && Legal(Start(v, h - 1), es) && Run(Start(v, h - 1), es).inflight == []
  }

  ghost predicate Serves(outer: Tables, h: nat)
    requires h > 0
  {
    forall v: id, es: seq<Event> | Finished(outer, h, v, es) :: ServedOnce(Run(Start(v, h - 1), es), h)
  }

  // Every state can be run to its end without loss.
  lemma {:induction false} FinishingRun(outer: Tables, s: State) returns (es: seq<Event>)
    ensures forall i | 0 <= i < |es| :: es[i].Receive? && es[i].outer == outer
    ensures Legal(s, es) && Run(s, es).inflight == []
    decreases Sum(s.inflight)
  {
    hide Forwards, Unserved;
    if s.inflight == [] {
      es := [];
    } else {
      var e := Receive(0, outer);
      StepWeighs(s, e);
      var rest := FinishingRun(outer, Step(s, e));
      es := [e] + rest;
      assert es[1..] == rest;
    }
  }

  lemma {:induction false} DroppedStays(s: State, es: seq<Event>)
    requires Legal(s, es) && s.dropped != []
    ensures Run(s, es).dropped != []
    decreases |es|
  {
    hide Forwards, Unserved;
    if es != [] {
      DroppedStays(Step(s, es[0]), es[1..]);
    }
  }

  lemma {:induction false} EmptySlotDrops(outer: Tables, v: id, k: int, i: nat)
    requires i <= k && (v, i) !in outer
    ensures Unserved(outer, v, k) != []
    decreases k
  {
    if i < k {
      EmptySlotDrops(outer, v, k - 1, i);
    }
  }

  /**
   The condition a caller can see: an overlay that obeys the distance rule serves every node exactly
   once, from every start and in every order without loss, if and only if no slot of it is empty.
   */
  lemma ServesIffComplete(outer: Tables, h: nat)
    requires ObeysDistance(outer) && h > 0
    ensures Serves(outer, h) <==> Complete(outer, h)
  {
    hide ObeysDistance, ServedOnce, Run, Legal, Pow2;
    if Complete(outer, h) {
      forall v: id, es: seq<Event> | Finished(outer, h, v, es)
        ensures ServedOnce(Run(Start(v, h - 1), es), h)
      {
        ExactlyOnceCoverage(h, v, es);
      }
    } else {
      var v: id, i: nat :| v < Pow2(h) && i < h && (v, i) !in outer;
      var es := RunThatDrops(outer, h, v, i);
      ExactlyOnceIffNothingDropped(h, v, es);
      assert Finished(outer, h, v, es);
    }
  }

  // From a node with an empty slot, the first receive already drops a message.
  lemma RunThatDrops(outer: Tables, h: nat, v: id, i: nat) returns (es: seq<Event>)
    requires h > 0 && v < Pow2(h) && i < h && (v, i) !in outer
    ensures Finished(outer, h, v, es) && Run(Start(v, h - 1), es).dropped != []
  {
    hide Forwards, Unserved, Pow2;
    var e := Receive(0, outer);
    var s := Step(Start(v, h - 1), e);
    EmptySlotDrops(outer, v, h - 1, i);
    var rest := FinishingRun(outer, s);
    DroppedStays(s, rest);
    es := [e] + rest;
    assert es[1..] == rest;
  }

  // ---- the tables as they are filled ----

  // The slots of u hold what regist, called for the peers seen so far, has put there.
  ghost predicate Live(outer: Tables, self: id -> RouteTables.Node, seen: id -> seq<RouteTables.Node>,
                       name: RouteTables.Node -> id)
  {
    forall u: id, i: int | (u, i) in outer ::
      var table := RouteTables.RegisteredAll(map[], self(u), seen(u));
      i in table && outer[(u, i)] == name(table[i])
  }

  // Such tables have slots 36, 39, 42 and 45 only, so a broadcast is forwarded only from index 36 on.
  lemma LiveTablesForwardNothing(outer: Tables, self: id -> RouteTables.Node, seen: id -> seq<RouteTables.Node>,
                                 name: RouteTables.Node -> id, v: id, k: int)
    requires Live(outer, self, seen, name)
    ensures k < 36 ==> Forwards(outer, v, k) == []
    ensures forall u: id, i: int | (u, i) in outer :: i == 36 || i == 39 || i == 42 || i == 45
  {
    forall u: id, i: int | (u, i) in outer
      ensures i == 36 || i == 39 || i == 42 || i == 45
    {
      RouteTables.RegistrationRuns(self(u), seen(u));
      assert i in RouteTables.RegisteredAll(map[], self(u), seen(u)).Keys;
    }
    NothingBelow(outer, v, k);
  }

  lemma {:induction false} NothingBelow(outer: Tables, v: id, k: int)
    requires forall i: int | (v, i) in outer :: i >= 36
    ensures k < 36 ==> Forwards(outer, v, k) == []
    decreases k
  {
    if 0 <= k < 36 {
      NothingBelow(outer, v, k - 1);
    }
  }
}
