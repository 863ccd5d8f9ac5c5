/**
 Why the ids of the ledger's rows stay distinct: the texts hashed into them are distinct over a whole
 run, so a hash without collisions on the texts that occur keeps the rows apart.
 */
module LedgerIds {
  import opened Wrappers
  import opened Ledgers
  import opened LedgerLaws

  function Ids(rows: seq<Utxo>): seq<string> { seq(|rows|, i requires 0 <= i < |rows| => rows[i].hash) }

  function Hashes(lib: Library, ps: seq<string>): seq<string> { seq(|ps|, i requires 0 <= i < |ps| => lib.hash(ps[i])) }

  // The texts hashed into the ids a request adds.
  function OutputPreimages(m: Message, tx: string): seq<string>
  {
    seq(|m.outputs|, i requires 0 <= i < |m.outputs| => OutputPreimage(m, i, tx))
  }

  function ChangePreimage(lib: Library, m: Message, remain: Amount, tx: string): seq<string>
  {
    if IsIntText(remain) && remain.unscaled > 0 then [Preimage("0", lib.show(remain), m.publicKey, tx)] else []
  }

  function PreimagesOf(lib: Library, s: State, r: Request): seq<string>
  {
    if Accepted(lib, s, r.m, r.signature)
    then OutputPreimages(r.m, lib.hash(r.m.text))
         + ChangePreimage(lib, r.m, Remain(lib, s, r.m, r.signature), lib.hash(r.m.text))
    else []
  }

  function AllPreimages(lib: Library, s: State, rs: seq<Request>): seq<string>
  {
    if rs == [] then []
    else AllPreimages(lib, s, rs[..|rs| - 1]) + PreimagesOf(lib, Run(lib, s, rs[..|rs| - 1]), rs[|rs| - 1])
  }

  function Texts(rs: seq<Request>): seq<string> { seq(|rs|, i requires 0 <= i < |rs| => rs[i].m.text) }

  // ---- what is asked of the hash and of the requests ----

  // The hash is printed with the same number of hex digits for every text.
  ghost predicate FixedWidth(lib: Library) { forall t: string, u: string :: |lib.hash(t)| == |lib.hash(u)| > 1 }

  // No two texts of the list collide.
  predicate CollisionFree(lib: Library, ts: seq<string>)
  {
    forall i, j | 0 <= i < |ts| && 0 <= j < |ts| :: lib.hash(ts[i]) == lib.hash(ts[j]) ==> ts[i] == ts[j]
  }

  // The text of a message is its JSON text.
  predicate TextIsMessage(rs: seq<Request>)
  {
    forall i, j | 0 <= i < |rs| && 0 <= j < |rs| :: rs[i].m.text == rs[j].m.text ==> rs[i].m == rs[j].m
  }

  // No id of the first state is the hash of a text of the run.
  predicate Apart(lib: Library, s: State, ps: seq<string>)
  {
    forall i, j | 0 <= i < |s.utxos| && 0 <= j < |ps| :: s.utxos[i].hash != lib.hash(ps[j])
  }

  ghost predicate Hashable(lib: Library, s: State, rs: seq<Request>)
  {
    && FixedWidth(lib) && TextIsMessage(rs)
    && CollisionFree(lib, Texts(rs)) && CollisionFree(lib, AllPreimages(lib, s, rs))
    && Apart(lib, s, AllPreimages(lib, s, rs))
  }

  lemma HashableFront(lib: Library, s: State, rs: seq<Request>)
    requires rs != [] && Hashable(lib, s, rs)
    ensures Hashable(lib, s, rs[..|rs| - 1])
  {
    hide PreimagesOf, Run;
    var front := rs[..|rs| - 1];
    assert forall i | 0 <= i < |front| :: front[i] == rs[i];
    assert forall i | 0 <= i < |front| :: Texts(front)[i] == Texts(rs)[i];
    var ps, qs := AllPreimages(lib, s, front), AllPreimages(lib, s, rs);
    assert forall i | 0 <= i < |ps| :: ps[i] == qs[i];
  }

  // ---- ids are hashes of preimages ----

  lemma AddedIds(lib: Library, m: Message, remain: Amount, tx: string)
    ensures Ids(NewRows(lib, m.outputs, tx) + ChangeRow(lib, m, remain, tx))
      == Hashes(lib, OutputPreimages(m, tx) + ChangePreimage(lib, m, remain, tx))
  {
    hide Preimage;
  }

  lemma IdsAfterStep(lib: Library, s: State, r: Request)
    ensures Ids(Received(lib, s, r.m, r.signature).0.utxos) == Ids(s.utxos) + Hashes(lib, PreimagesOf(lib, s, r))
  {
    hide Accepted, Received, NewRows, ChangeRow, OutputPreimages, ChangePreimage, Spend;
    RejectedChangesNothing(lib, s, r.m, r.signature);
    if Accepted(lib, s, r.m, r.signature) {
      var tx, remain := lib.hash(r.m.text), Remain(lib, s, r.m, r.signature);
      var spent := Spend(s.utxos, r.m.inputs, tx);
      RowsAfter(lib, s, r);
      AddedIds(lib, r.m, remain, tx);
      forall i | 0 <= i < |s.utxos|
        ensures spent[i].hash == s.utxos[i].hash
      {
        SpendIs(s.utxos, r.m.inputs, tx, i);
      }
      assert Ids(spent) == Ids(s.utxos);
      var added := NewRows(lib, r.m.outputs, tx) + ChangeRow(lib, r.m, remain, tx);
      assert Ids(spent + added) == Ids(spent) + Ids(added);
    } else {
      assert Ids(s.utxos) + [] == Ids(s.utxos);
    }
  }

  lemma RowsAfter(lib: Library, s: State, r: Request)
    requires Accepted(lib, s, r.m, r.signature)
    ensures var tx := lib.hash(r.m.text);
      Received(lib, s, r.m, r.signature).0.utxos == Spend(s.utxos, r.m.inputs, tx)
        + (NewRows(lib, r.m.outputs, tx) + ChangeRow(lib, r.m, Remain(lib, s, r.m, r.signature), tx))
  {
    hide Spend, NewRows, ChangeRow, InputSum, OutputSum, Unit, AllOwned, Minus;
  }

  lemma {:induction false} IdsAre(lib: Library, s: State, rs: seq<Request>)
    ensures Ids(Run(lib, s, rs).utxos) == Ids(s.utxos) + Hashes(lib, AllPreimages(lib, s, rs))
  {
    hide PreimagesOf, Received, Ids;
    if rs != [] {
      var front, r := rs[..|rs| - 1], rs[|rs| - 1];
      IdsAre(lib, s, front);
      IdsAfterStep(lib, Run(lib, s, front), r);
      HashesAppend(lib, AllPreimages(lib, s, front), PreimagesOf(lib, Run(lib, s, front), r));
      assert Ids(s.utxos)
        + (Hashes(lib, AllPreimages(lib, s, front)) + Hashes(lib, PreimagesOf(lib, Run(lib, s, front), r)))
        == (Ids(s.utxos) + Hashes(lib, AllPreimages(lib, s, front)))
          + Hashes(lib, PreimagesOf(lib, Run(lib, s, front), r));
    } else {
      assert Ids(s.utxos) + [] == Ids(s.utxos);
    }
  }

  lemma HashesAppend(lib: Library, a: seq<string>, b: seq<string>)
    ensures Hashes(lib, a + b) == Hashes(lib, a) + Hashes(lib, b)
  {
  }

  // ---- a preimage ends with the hash of its message ----

  predicate EndsWith(p: string, t: string) { |t| <= |p| && p[|p| - |t|..] == t }

  lemma PreimagesEnd(lib: Library, s: State, r: Request, i: nat)
    requires i < |PreimagesOf(lib, s, r)|
    ensures EndsWith(PreimagesOf(lib, s, r)[i], lib.hash(r.m.text))
  {
    hide Accepted, Remain;
    var tx := lib.hash(r.m.text);
    if i < |r.m.outputs| {
      var o := r.m.outputs[i];
      Ending(Decimal(i + 1) + o.value + o.publicKey, tx);
    } else {
      Ending("0" + lib.show(Remain(lib, s, r.m, r.signature)) + r.m.publicKey, tx);
    }
  }

  lemma Ending(a: string, t: string)
    ensures EndsWith(a + t, t)
  {
  }

  // Request k of the run was accepted.
  predicate AcceptedAt(lib: Library, s: State, rs: seq<Request>, k: nat)
    requires k < |rs|
  {
    Accepted(lib, Run(lib, s, rs[..k]), rs[k].m, rs[k].signature)
  }

  // And p ends with the hash of its text.
  ghost predicate Source(lib: Library, s: State, rs: seq<Request>, k: nat, p: string)
  {
    k < |rs| && AcceptedAt(lib, s, rs, k) && EndsWith(p, lib.hash(rs[k].m.text))
  }

  lemma {:induction false} SourceExists(lib: Library, s: State, rs: seq<Request>, i: nat) returns (k: nat)
    requires i < |AllPreimages(lib, s, rs)|
    ensures Source(lib, s, rs, k, AllPreimages(lib, s, rs)[i])
  {
    hide Run, Accepted, EndsWith, PreimagesOf;
    var front, r := rs[..|rs| - 1], rs[|rs| - 1];
    var ps := AllPreimages(lib, s, front);
    if i < |ps| {
      k := SourceExists(lib, s, front, i);
      assert front[..k] == rs[..k] && front[k] == rs[k];
    } else {
      k := |front|;
      NotRejected(lib, Run(lib, s, front), r, i - |ps|);
      PreimagesEnd(lib, Run(lib, s, front), r, i - |ps|);
    }
  }

  lemma NotRejected(lib: Library, s: State, r: Request, i: nat)
    requires i < |PreimagesOf(lib, s, r)|
    ensures Accepted(lib, s, r.m, r.signature)
  {
  }

  // ---- no message is accepted twice ----

  lemma NoReplay(lib: Library, s: State, rs: seq<Request>, k: nat, m: Message, signature: string)
    requires UniqueIds(s.utxos) && AllFresh(lib, s, rs) && FixedWidth(lib)
    requires k < |rs| && AcceptedAt(lib, s, rs, k)
    requires m == rs[k].m && m.inputs != []
    ensures !Accepted(lib, Run(lib, s, rs), m, signature)
  {
    hide Run, Accepted, Follows, AllFresh, UniqueIds;
    var before, after, last := Run(lib, s, rs[..k]), Run(lib, s, rs[..k + 1]), Run(lib, s, rs);
    if Accepted(lib, last, m, signature) {
      var h := m.inputs[0];
      RunOneMore(lib, s, rs, k);
      var i := OwnedInput(lib, before, m, rs[k].signature);
      RowAfter(lib, before, m, rs[k].signature, i);
      RunFollows(lib, s, rs, k + 1);
      MarkStays(after, last, i);
      RunKeepsIds(lib, s, rs);
      var j := OwnedInput(lib, last, m, signature);
      SameRow(last.utxos, i, j);
    }
  }

  // A message without inputs that is accepted once is accepted in every state.
  lemma GiftIsAcceptedAgain(lib: Library, s: State, t: State, m: Message, signature: string)
    requires Accepted(lib, s, m, signature) && m.inputs == []
    ensures Accepted(lib, t, m, signature) && Remain(lib, t, m, signature) == Remain(lib, s, m, signature)
  {
    hide OutputSum, Unit, Minus;
  }

  // So the inputs decide: an accepted message is accepted again, under the same signature, exactly if
  // it has none.
  lemma ReplayedIff(lib: Library, s: State, rs: seq<Request>, k: nat)
    requires UniqueIds(s.utxos) && AllFresh(lib, s, rs) && FixedWidth(lib)
    requires k < |rs| && AcceptedAt(lib, s, rs, k)
    ensures Accepted(lib, Run(lib, s, rs), rs[k].m, rs[k].signature) <==> rs[k].m.inputs == []
  {
    hide Run, Accepted, AllFresh, UniqueIds;
    if rs[k].m.inputs == [] {
      GiftIsAcceptedAgain(lib, Run(lib, s, rs[..k]), Run(lib, s, rs), rs[k].m, rs[k].signature);
    } else {
      NoReplay(lib, s, rs, k, rs[k].m, rs[k].signature);
    }
  }

  // A message that creates rows from nothing.
  predicate Gift(m: Message) { m.inputs == [] && m.outputs != [] }

  // The preimages of an accepted message stay among those of the run.
  lemma {:induction false} PreimageKept(lib: Library, s: State, rs: seq<Request>, k: nat, j: nat) returns (i: nat)
    requires k < |rs| && j < |PreimagesOf(lib, Run(lib, s, rs[..k]), rs[k])|
    ensures i < |AllPreimages(lib, s, rs)|
    ensures AllPreimages(lib, s, rs)[i] == PreimagesOf(lib, Run(lib, s, rs[..k]), rs[k])[j]
  {
    hide Run, PreimagesOf;
    var front := rs[..|rs| - 1];
    if k == |front| {
      i := |AllPreimages(lib, s, front)| + j;
    } else {
      assert front[..k] == rs[..k] && front[k] == rs[k];
      i := PreimageKept(lib, s, front, k, j);
    }
  }

  // The first output of an accepted gift has its id in the table from then on.
  lemma GiftIdStays(lib: Library, s: State, rs: seq<Request>, k: nat) returns (i: nat)
    requires k < |rs| && AcceptedAt(lib, s, rs, k) && Gift(rs[k].m)
    ensures i < |Run(lib, s, rs).utxos|
    ensures Run(lib, s, rs).utxos[i].hash == lib.hash(OutputPreimage(rs[k].m, 0, lib.hash(rs[k].m.text)))
  {
    hide Run, Accepted, Remain, OutputPreimage, ChangePreimage, AllPreimages;
    var p := PreimageKept(lib, s, rs, k, 0);
    IdsAre(lib, s, rs);
    i := |s.utxos| + p;
    assert Ids(Run(lib, s, rs).utxos)[i] == lib.hash(AllPreimages(lib, s, rs)[p]);
  }

  // For every library: sending a gift again gives two rows the same id.
  lemma ReplayRepeatsIds(lib: Library, s: State, rs: seq<Request>, k: nat)
    requires k < |rs| && AcceptedAt(lib, s, rs, k) && Gift(rs[k].m)
    ensures !UniqueIds(Received(lib, Run(lib, s, rs), rs[k].m, rs[k].signature).0.utxos)
  {
    hide Run, Accepted, Remain, OutputPreimage, ChangePreimage, Received, Gift;
    var last, r := Run(lib, s, rs), rs[k];
    assert r.m.inputs == [] && r.m.outputs != [] by { GiftIs(r.m); }
    var i := GiftIdStays(lib, s, rs, k);
    GiftIsAcceptedAgain(lib, Run(lib, s, rs[..k]), last, r.m, r.signature);
    IdsAfterStep(lib, last, r);
    var after := Received(lib, last, r.m, r.signature).0.utxos;
    var n := |last.utxos|;
    assert Ids(after)[n] == Hashes(lib, PreimagesOf(lib, last, r))[0];
    assert Ids(after)[i] == Ids(last.utxos)[i];
    assert after[n].hash == after[i].hash;
  }

  lemma GiftIs(m: Message)
    ensures Gift(m) <==> m.inputs == [] && m.outputs != []
  {
  }

  lemma RunOneMore(lib: Library, s: State, rs: seq<Request>, k: nat)
    requires k < |rs|
    ensures Run(lib, s, rs[..k + 1]) == Received(lib, Run(lib, s, rs[..k]), rs[k].m, rs[k].signature).0
  {
    hide Received;
    assert rs[..k + 1][..k] == rs[..k];
  }

  lemma OwnedInput(lib: Library, s: State, m: Message, signature: string) returns (i: nat)
    requires Accepted(lib, s, m, signature) && m.inputs != []
    ensures i < |s.utxos| && s.utxos[i].tail == "0" && s.utxos[i].hash == m.inputs[0]
  {
    hide InputSum, OutputSum, Unit, Minus;
    assert CountOfHash(s.utxos, m.inputs[0], m.publicKey) > 0;
    i := OwnedRowExists(s.utxos, m.inputs[0], m.publicKey);
  }

  lemma MarkStays(s: State, t: State, i: nat)
    requires Follows(s, t) && i < |s.utxos| && s.utxos[i].tail != "0"
    ensures i < |t.utxos| && t.utxos[i] == s.utxos[i]
  {
    hide SpentByOwner, HeadSaved;
  }

  lemma SameRow(rows: seq<Utxo>, i: nat, j: nat)
    requires UniqueIds(rows) && i < |rows| && j < |rows| && rows[i].hash == rows[j].hash
    ensures i == j
  {
  }

  // ---- distinct preimages, distinct ids ----

  // An output without the transaction's hash: its index, value and key, unseparated.
  function Labels(m: Message): seq<string>
  {
    seq(|m.outputs|, i requires 0 <= i < |m.outputs| => Decimal(i + 1) + m.outputs[i].value + m.outputs[i].publicKey)
  }

  lemma SameEnd(a: string, b: string, t: string)
    ensures a + t == b + t <==> a == b
  {
    if a + t == b + t {
      assert a == (a + t)[..|a|] && b == (b + t)[..|b|];
    }
  }

  // The preimages of a message are distinct exactly if its labels are: the change never collides.
  lemma OwnPreimagesDistinctIff(lib: Library, s: State, r: Request)
    requires Accepted(lib, s, r.m, r.signature)
    ensures Distinct(PreimagesOf(lib, s, r)) <==> Distinct(Labels(r.m))
  {
    hide Accepted, Remain, Decimal, OutputPreimage;
    var tx, ls, ps := lib.hash(r.m.text), Labels(r.m), PreimagesOf(lib, s, r);
    var n := |r.m.outputs|;
    forall i | 0 <= i < n
      ensures ps[i] == ls[i] + tx
    {
      LabelOf(r.m, i, tx);
    }
    forall i, j | 0 <= i < j < n
      ensures ps[i] == ps[j] <==> ls[i] == ls[j]
    {
      SameEnd(ls[i], ls[j], tx);
    }
    if |ps| > n {
      forall i | 0 <= i < n
        ensures ps[i] != ps[n]
      {
        ChangeDiffers(r.m, i, lib.show(Remain(lib, s, r.m, r.signature)), tx);
      }
    }
    if Distinct(ps) {
      assert forall i, j | 0 <= i < j < n :: ps[i] != ps[j];
    }
  }

  lemma LabelOf(m: Message, i: nat, tx: string)
    requires i < |m.outputs|
    ensures OutputPreimage(m, i, tx) == Labels(m)[i] + tx
  {
    hide Decimal;
  }

  lemma NineLabelsDistinct(m: Message)
    requires |m.outputs| <= 9
    ensures Distinct(Labels(m))
  {
    hide Decimal;
    var ls := Labels(m);
    NineOutputsAreDistinct(m, "", "");
    forall i, j | 0 <= i < j < |ls|
      ensures ls[i] != ls[j]
    {
      LabelOf(m, i, "");
      LabelOf(m, j, "");
      assert OutputPreimage(m, i, "") != OutputPreimage(m, j, "");
    }
  }

  // Every accepted message of the run has distinct labels.
  ghost predicate LabelsApart(lib: Library, s: State, rs: seq<Request>)
  {
    forall k: nat | k < |rs| && AcceptedAt(lib, s, rs, k) :: Distinct(Labels(rs[k].m))
  }

  // No valid gift of the run is sent twice. Its validity does not depend on the state.
  predicate GiftsOnce(lib: Library, s: State, rs: seq<Request>)
  {
    forall k, l | 0 <= k < l < |rs| && Gift(rs[k].m) && rs[k].m == rs[l].m ::
      !(Accepted(lib, s, rs[k].m, rs[k].signature) && Accepted(lib, s, rs[l].m, rs[l].signature))
  }

  lemma ConditionsFront(lib: Library, s: State, rs: seq<Request>)
    requires rs != [] && LabelsApart(lib, s, rs) && GiftsOnce(lib, s, rs)
    ensures LabelsApart(lib, s, rs[..|rs| - 1]) && GiftsOnce(lib, s, rs[..|rs| - 1])
  {
    hide Run, Accepted, Labels, Distinct, Gift;
    var front := rs[..|rs| - 1];
    forall k: nat | k < |front| && AcceptedAt(lib, s, front, k)
      ensures Distinct(Labels(front[k].m))
    {
      assert front[..k] == rs[..k] && front[k] == rs[k];
      assert AcceptedAt(lib, s, rs, k);
    }
  }

  lemma {:induction false} PreimagesAreDistinct(lib: Library, s: State, rs: seq<Request>)
    requires UniqueIds(s.utxos) && Hashable(lib, s, rs) && LabelsApart(lib, s, rs) && GiftsOnce(lib, s, rs)
    requires rs != [] ==> AllFresh(lib, s, rs[..|rs| - 1])
    ensures Distinct(AllPreimages(lib, s, rs))
  {
    hide Run, Accepted, PreimagesOf, AllFresh, Hashable, Labels, GiftsOnce, LabelsApart, UniqueIds;
    if rs != [] {
      var front, r := rs[..|rs| - 1], rs[|rs| - 1];
      var ps, qs := AllPreimages(lib, s, front), PreimagesOf(lib, Run(lib, s, front), r);
      HashableFront(lib, s, rs);
      ConditionsFront(lib, s, rs);
      FreshFront(lib, s, front);
      PreimagesAreDistinct(lib, s, front);
      LastPreimagesDistinct(lib, s, rs);
      forall i, j | 0 <= i < |ps| && 0 <= j < |qs|
        ensures ps[i] != qs[j]
      {
        AcrossDiffer(lib, s, rs, i, j);
      }
      DistinctAppend(ps, qs);
    }
  }

  lemma LastPreimagesDistinct(lib: Library, s: State, rs: seq<Request>)
    requires rs != [] && LabelsApart(lib, s, rs)
    ensures Distinct(PreimagesOf(lib, Run(lib, s, rs[..|rs| - 1]), rs[|rs| - 1]))
  {
    hide Run, Accepted, Labels, OutputPreimages, ChangePreimage;
    var n := |rs| - 1;
    if Accepted(lib, Run(lib, s, rs[..n]), rs[n].m, rs[n].signature) {
      assert AcceptedAt(lib, s, rs, n);
      OwnPreimagesDistinctIff(lib, Run(lib, s, rs[..n]), rs[n]);
    }
  }

  lemma FreshFront(lib: Library, s: State, rs: seq<Request>)
    requires AllFresh(lib, s, rs)
    ensures rs != [] ==> AllFresh(lib, s, rs[..|rs| - 1])
  {
    hide Fresh;
  }

  // A preimage of an earlier message ends with another hash.
  lemma AcrossDiffer(lib: Library, s: State, rs: seq<Request>, i: nat, j: nat)
    requires UniqueIds(s.utxos) && Hashable(lib, s, rs) && GiftsOnce(lib, s, rs)
    requires rs != [] && AllFresh(lib, s, rs[..|rs| - 1])
    requires i < |AllPreimages(lib, s, rs[..|rs| - 1])|
    requires j < |PreimagesOf(lib, Run(lib, s, rs[..|rs| - 1]), rs[|rs| - 1])|
    ensures AllPreimages(lib, s, rs[..|rs| - 1])[i] != PreimagesOf(lib, Run(lib, s, rs[..|rs| - 1]), rs[|rs| - 1])[j]
  {
    hide Run, Accepted, PreimagesOf, AllPreimages, AllFresh, UniqueIds, Apart, Gift;
    var front, r := rs[..|rs| - 1], rs[|rs| - 1];
    var p, q := AllPreimages(lib, s, front)[i], PreimagesOf(lib, Run(lib, s, front), r)[j];
    var k := SourceExists(lib, s, front, i);
    NotRejected(lib, Run(lib, s, front), r, j);
    PreimagesEnd(lib, Run(lib, s, front), r, j);
    assert front[k] == rs[k] && front[..k] == rs[..k];
    if p == q {
      assert lib.hash(rs[k].m.text) == lib.hash(r.m.text);
      assert Texts(rs)[k] == rs[k].m.text && Texts(rs)[|front|] == r.m.text;
      assert rs[k].m == r.m;
      if r.m.inputs == [] {
        GiftHasOutputs(lib, Run(lib, s, front), r, j);
        GiftIsAcceptedAgain(lib, Run(lib, s, rs[..k]), s, rs[k].m, rs[k].signature);
        GiftIsAcceptedAgain(lib, Run(lib, s, front), s, r.m, r.signature);
      } else {
        NoReplay(lib, s, front, k, r.m, r.signature);
      }
    }
  }

  // Without inputs and outputs nothing remains, so no row is added.
  lemma GiftHasOutputs(lib: Library, s: State, r: Request, j: nat)
    requires r.m.inputs == [] && j < |PreimagesOf(lib, s, r)|
    ensures Gift(r.m)
  {
    hide Accepted, Remain;
    if r.m.outputs == [] {
      NotRejected(lib, s, r, j);
      EmptyRemain(lib, s, r.m, r.signature);
    }
  }

  lemma EmptyRemain(lib: Library, s: State, m: Message, signature: string)
    requires Accepted(lib, s, m, signature) && m.inputs == [] && m.outputs == []
    ensures Remain(lib, s, m, signature) == ZERO
  {
    hide Minus, Plus, Unit;
    assert InputSum(lib, s.utxos, []) == Some(ZERO) && OutputSum(lib, []) == Some(ZERO);
    NothingRemains();
  }

  lemma NothingRemains()
    ensures Minus(ZERO, ZERO) == ZERO
  {
    assert Pow10(0) == 1;
  }

  lemma DistinctAppend(a: seq<string>, b: seq<string>)
    requires Distinct(a) && Distinct(b)
    requires forall i, j | 0 <= i < |a| && 0 <= j < |b| :: a[i] != b[j]
    ensures Distinct(a + b)
  {
  }

  lemma DistinctBack(a: seq<string>, b: seq<string>)
    requires Distinct(a + b)
    ensures Distinct(b)
    ensures forall i, j | 0 <= i < |a| && 0 <= j < |b| :: a[i] != b[j]
  {
    var all := a + b;
    assert forall i | 0 <= i < |b| :: all[|a| + i] == b[i];
    forall i, j | 0 <= i < |a| && 0 <= j < |b|
      ensures a[i] != b[j]
    {
      assert all[i] == a[i] && all[|a| + j] == b[j];
    }
  }

  lemma DistinctHashes(lib: Library, ps: seq<string>)
    requires Distinct(ps) && CollisionFree(lib, ps)
    ensures Distinct(Hashes(lib, ps))
  {
  }

  lemma HashesDistinct(lib: Library, ps: seq<string>)
    requires Distinct(Hashes(lib, ps))
    ensures Distinct(ps)
  {
    assert forall i | 0 <= i < |ps| :: Hashes(lib, ps)[i] == lib.hash(ps[i]);
  }

  lemma IdsDistinct(rows: seq<Utxo>)
    ensures Distinct(Ids(rows)) <==> UniqueIds(rows)
  {
    assert forall i | 0 <= i < |rows| :: Ids(rows)[i] == rows[i].hash;
  }

  // ---- fresh ids, exactly ----

  lemma LastIsFresh(lib: Library, s: State, rs: seq<Request>)
    requires rs != [] && UniqueIds(s.utxos) && Hashable(lib, s, rs) && Distinct(AllPreimages(lib, s, rs))
    ensures Fresh(lib, Run(lib, s, rs[..|rs| - 1]), rs[|rs| - 1])
  {
    hide Run, Accepted, Remain, NewRows, ChangeRow, OutputPreimages, ChangePreimage, Ids, Hashes, UniqueIds,
         TextIsMessage, CollisionFree, Distinct;
    var front, r := rs[..|rs| - 1], rs[|rs| - 1];
    var before := Run(lib, s, front);
    assert |lib.hash(r.m.text)| == |lib.hash("")| > 1;
    if Accepted(lib, before, r.m, r.signature) {
      var tx, remain := lib.hash(r.m.text), Remain(lib, before, r.m, r.signature);
      var added := NewRows(lib, r.m.outputs, tx) + ChangeRow(lib, r.m, remain, tx);
      var ps, qs := AllPreimages(lib, s, front), PreimagesOf(lib, before, r);
      IdsAre(lib, s, front);
      AddedIds(lib, r.m, remain, tx);
      HashesAppend(lib, ps, qs);
      IdsAppend(before.utxos, added);
      assert (Ids(s.utxos) + Hashes(lib, ps)) + Hashes(lib, qs) == Ids(s.utxos) + Hashes(lib, ps + qs);
      IdsDistinct(s.utxos);
      DistinctHashes(lib, ps + qs);
      ApartIds(lib, s, ps + qs);
      DistinctAppend(Ids(s.utxos), Hashes(lib, ps + qs));
      IdsDistinct(before.utxos + added);
    }
  }

  lemma IdsAppend(a: seq<Utxo>, b: seq<Utxo>)
    ensures Ids(a + b) == Ids(a) + Ids(b)
  {
  }

  lemma ApartIds(lib: Library, s: State, ps: seq<string>)
    requires Apart(lib, s, ps)
    ensures forall i, j | 0 <= i < |Ids(s.utxos)| && 0 <= j < |Hashes(lib, ps)| ::
      Ids(s.utxos)[i] != Hashes(lib, ps)[j]
  {
  }

  // Fresh ids of one accepted message: distinct labels, and no id of the table among the new ones.
  lemma FreshMeans(lib: Library, s: State, r: Request)
    requires Fresh(lib, s, r) && Accepted(lib, s, r.m, r.signature)
    ensures Distinct(Labels(r.m))
    ensures forall i, j | 0 <= i < |Ids(s.utxos)| && 0 <= j < |PreimagesOf(lib, s, r)| ::
      Ids(s.utxos)[i] != lib.hash(PreimagesOf(lib, s, r)[j])
  {
    hide Accepted, Remain, NewRows, ChangeRow, OutputPreimages, ChangePreimage, Ids, UniqueIds, Distinct, Labels;
    var tx, remain := lib.hash(r.m.text), Remain(lib, s, r.m, r.signature);
    var added := NewRows(lib, r.m.outputs, tx) + ChangeRow(lib, r.m, remain, tx);
    var qs := PreimagesOf(lib, s, r);
    AddedIds(lib, r.m, remain, tx);
    IdsAppend(s.utxos, added);
    IdsDistinct(s.utxos + added);
    DistinctBack(Ids(s.utxos), Hashes(lib, qs));
    HashesDistinct(lib, qs);
    OwnPreimagesDistinctIff(lib, s, r);
    assert forall j | 0 <= j < |qs| :: Hashes(lib, qs)[j] == lib.hash(qs[j]);
  }

  // A gift sent again finds its own id in the table.
  lemma FreshGiftIsNew(lib: Library, s: State, rs: seq<Request>, r: Request, k: nat)
    requires Fresh(lib, Run(lib, s, rs), r) && Accepted(lib, Run(lib, s, rs), r.m, r.signature)
    requires k < |rs| && AcceptedAt(lib, s, rs, k) && Gift(r.m)
    ensures rs[k].m != r.m
  {
    hide Run, Accepted, Remain, OutputPreimage, ChangePreimage, Fresh, Labels;
    if rs[k].m == r.m {
      var last := Run(lib, s, rs);
      var i := GiftIdStays(lib, s, rs, k);
      assert PreimagesOf(lib, last, r)[0] == OutputPreimage(r.m, 0, lib.hash(r.m.text));
      assert Ids(last.utxos)[i] == last.utxos[i].hash;
      FreshMeans(lib, last, r);
    }
  }

  lemma {:induction false} FreshNeeds(lib: Library, s: State, rs: seq<Request>)
    requires AllFresh(lib, s, rs)
    ensures LabelsApart(lib, s, rs) && GiftsOnce(lib, s, rs)
  {
    hide Run, Accepted, Labels, Distinct, Fresh, Gift;
    if rs != [] {
      var n, front := |rs| - 1, rs[..|rs| - 1];
      var r := rs[n];
      FreshNeeds(lib, s, front);
      forall k: nat | k < |rs| && AcceptedAt(lib, s, rs, k)
        ensures Distinct(Labels(rs[k].m))
      {
        if k < n {
          assert front[..k] == rs[..k] && front[k] == rs[k];
          assert AcceptedAt(lib, s, front, k);
        } else {
          FreshMeans(lib, Run(lib, s, front), r);
        }
      }
      forall k, l | 0 <= k < l < |rs| && Gift(rs[k].m) && rs[k].m == rs[l].m
        ensures !(Accepted(lib, s, rs[k].m, rs[k].signature) && Accepted(lib, s, rs[l].m, rs[l].signature))
      {
        assert front[k] == rs[k] && front[..k] == rs[..k];
        if l < n {
          assert front[l] == rs[l];
        } else if Accepted(lib, s, rs[k].m, rs[k].signature) && Accepted(lib, s, r.m, r.signature) {
          GiftIs(r.m);
          GiftIsAcceptedAgain(lib, s, Run(lib, s, front[..k]), rs[k].m, rs[k].signature);
          GiftIsAcceptedAgain(lib, s, Run(lib, s, front), r.m, r.signature);
          FreshGiftIsNew(lib, s, front, r, k);
        }
      }
    }
  }

  /**
   Over a run no two of whose texts collide, every accepted message adds fresh ids exactly if the labels
   of each are distinct and no valid gift is sent twice. Inside a message the unseparated preimages are
   distinct by their labels; between messages because they end with the hash of the text, and a message
   with an input is never accepted twice.
   */
  lemma {:induction false} FreshIff(lib: Library, s: State, rs: seq<Request>)
    requires UniqueIds(s.utxos) && Hashable(lib, s, rs)
    ensures AllFresh(lib, s, rs) <==> LabelsApart(lib, s, rs) && GiftsOnce(lib, s, rs)
  {
    hide Run, Accepted, PreimagesOf, AllPreimages, Fresh, UniqueIds, Hashable, LabelsApart, GiftsOnce;
    if AllFresh(lib, s, rs) {
      FreshNeeds(lib, s, rs);
    }
    if rs != [] && LabelsApart(lib, s, rs) && GiftsOnce(lib, s, rs) {
      HashableFront(lib, s, rs);
      ConditionsFront(lib, s, rs);
      FreshIff(lib, s, rs[..|rs| - 1]);
      PreimagesAreDistinct(lib, s, rs);
      LastIsFresh(lib, s, rs);
    }
  }

  // Messages with an input and at most nine outputs meet the condition.
  lemma FreshByHash(lib: Library, s: State, rs: seq<Request>)
    requires UniqueIds(s.utxos) && Hashable(lib, s, rs)
    requires forall i | 0 <= i < |rs| :: rs[i].m.inputs != [] && |rs[i].m.outputs| <= 9
    ensures AllFresh(lib, s, rs)
  {
    hide Run, Accepted, AllFresh, UniqueIds, Hashable, Labels, Distinct;
    forall k: nat | k < |rs| && AcceptedAt(lib, s, rs, k)
      ensures Distinct(Labels(rs[k].m))
    {
      NineLabelsDistinct(rs[k].m);
    }
    FreshIff(lib, s, rs);
  }

  // So conservation and distinct ids over whole runs rest on the hash, the labels and the gifts alone.
  lemma HashedRunConserves(lib: Library, s: State, rs: seq<Request>)
    requires UniqueIds(s.utxos) && Hashable(lib, s, rs) && LabelsApart(lib, s, rs) && GiftsOnce(lib, s, rs)
    ensures UniqueIds(Run(lib, s, rs).utxos)
    ensures PrintsExactly(lib) && AllBalanced(lib, s, rs) ==>
      Unspent(lib, Run(lib, s, rs).utxos) == Unspent(lib, s.utxos)
  {
    hide Run, UniqueIds, Hashable, AllBalanced, Unspent, AllFresh, LabelsApart, GiftsOnce;
    FreshIff(lib, s, rs);
    RunKeepsIds(lib, s, rs);
    if PrintsExactly(lib) && AllBalanced(lib, s, rs) {
      RunConserves(lib, s, rs);
    }
  }
}
