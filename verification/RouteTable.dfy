/**
 The routing table of a node: outer slots by subtree index, inner table by node. Coordinates are
 reals; the logarithm taken for unequal coordinates is a parameter, since the calls made here
 compare a coordinate with itself and never reach it.
 */
module RouteTables {
  const DIVIDE_COUNT := 3

  // One peer, compared by identity. The field valid is the answer of validNodeCheck, a check of the
  // address text.
  class Node {
    const nodeId: string
    const valid: bool
    const latitude: real
    const longitude: real

    constructor (nodeId: string, valid: bool, latitude: real, longitude: real)
      ensures this.nodeId == nodeId && this.valid == valid
      ensures this.latitude == latitude && this.longitude == longitude
    {
      this.nodeId, this.valid, this.latitude, this.longitude := nodeId, valid, latitude, longitude;
    }
  }

  // ---- the subtree index as a mixed-radix number ----

  datatype Flags = Flags(signX: int, signY: int, isMinX: int, isMinY: int)

  predicate FlagsOk(f: Flags)
  {
    f.signX in {0, 1} && f.signY in {0, 1} && f.isMinX in {0, 1} && f.isMinY in {0, 1}
      && (f.isMinX == 0 || f.isMinY == 0)
  }

  function Encode(min: int, f: Flags): int
  {
    12 * min + 3 * (2 * f.signX + f.signY) + (2 * f.isMinX + f.isMinY)
  }

  function Decode(idx: int): (int, Flags)
  {
    var quadrant, axis := idx % 12 / 3, idx % 3;
    (idx / 12, Flags(quadrant / 2, quadrant % 2, axis / 2, axis % 2))
  }

  // min, quadrant and axis flags are recovered, because not both axes can exceed the minimum ...
  lemma EncodeDecode(min: int, f: Flags)
    requires FlagsOk(f)
    ensures Decode(Encode(min, f)) == (min, f)
  {
    var low := 3 * (2 * f.signX + f.signY) + (2 * f.isMinX + f.isMinY);
    assert 0 <= low < 12;
    assert Encode(min, f) / 12 == min && Encode(min, f) % 12 == low;
  }

  // ... and every integer is the index of exactly one such combination.
  lemma DecodeEncode(idx: int)
    ensures FlagsOk(Decode(idx).1) && Encode(Decode(idx).0, Decode(idx).1) == idx
  {
  }

  // ---- getSubtreeIndex ----

  function Abs(x: real): real { if x < 0.0 then -x else x }

  // latitudeToIndex and longitudeToIndex: far is (int) (max / log(distance) / log(2)).
  function AxisIndex(src: real, dst: real, far: real -> int): int
  {
    if Abs(src - dst) == 0.0 then DIVIDE_COUNT else far(Abs(src - dst))
  }

  // Only the distance counts, and at distance zero only DIVIDE_COUNT is left.
  lemma AxisIndexIs(src: real, dst: real, far: real -> int)
    requires src >= dst
    ensures AxisIndex(src, dst, far) == AxisIndex(dst, src, far) == if src > dst then far(src - dst) else 3
  {
  }

  function Sign(src: real, dst: real): int { if src - dst >= 0.0 then 0 else 1 }

  function FlagsFor(indexX: int, indexY: int, signX: int, signY: int): Flags
  {
    var min := if indexX <= indexY then indexX else indexY;
    Flags(signX, signY, if min == indexX then 0 else 1, if min == indexY then 0 else 1)
  }

  // The index getSubtreeIndex is meant to compute from two axis indices.
  function IndexFor(indexX: int, indexY: int, signX: int, signY: int): int
  {
    Encode(if indexX <= indexY then indexX else indexY, FlagsFor(indexX, indexY, signX, signY))
  }

  lemma AxisIndicesRecovered(indexX: int, indexY: int, signX: int, signY: int)
    requires signX in {0, 1} && signY in {0, 1}
    ensures var (min, f) := Decode(IndexFor(indexX, indexY, signX, signY));
      && f.signX == signX && f.signY == signY
      && min <= indexX && min <= indexY && (f.isMinX == 0 <==> indexX == min) && (f.isMinY == 0 <==> indexY == min)
  {
    EncodeDecode(if indexX <= indexY then indexX else indexY, FlagsFor(indexX, indexY, signX, signY));
  }

  // As the calls are written, both axis indices compare the source with itself.
  method GetSubtreeIndex(src: Node, dst: Node, far: real -> int) returns (rt: int)
    ensures rt == 36 + 3 * (2 * Sign(src.longitude, dst.longitude) + Sign(src.latitude, dst.latitude))
    ensures rt in {36, 39, 42, 45}
  {
    rt := -1;
    var indexX := AxisIndex(src.longitude, src.longitude, far);
    var indexY := AxisIndex(src.latitude, src.latitude, far);
    var min := if indexX <= indexY then indexX else indexY;
    var signX, signY, isMinX, isMinY;
    if src.longitude - dst.longitude >= 0.0 { signX := 0; } else { signX := 1; }
    if src.latitude - dst.latitude >= 0.0 { signY := 0; } else { signY := 1; }
    if min == indexX { isMinX := 0; } else { isMinX := 1; }
    if min == indexY { isMinY := 0; } else { isMinY := 1; }
    rt := 12 * min + 3 * (2 * signX + signY) + (2 * isMinX + isMinY);
  }

  // ---- regist ----

  function LiveIndex(self: Node, n: Node): int
  {
    36 + 3 * (2 * Sign(self.longitude, n.longitude) + Sign(self.latitude, n.latitude))
  }

  // Slot 36 takes the nodes neither east nor north of self, 39 those only north, 42 those only east,
  // and 45 those both.
  lemma Quadrants(self: Node, n: Node)
    ensures LiveIndex(self, n) in {36, 39, 42, 45}
    ensures LiveIndex(self, n) in {42, 45} <==> n.longitude > self.longitude
    ensures LiveIndex(self, n) in {39, 45} <==> n.latitude > self.latitude
  {
  }

  // The outer table after regist: only an empty slot is ever filled.
  function Registered(outer: map<int, Node>, self: Node, n: Node): map<int, Node>
  {
    if n.valid && n != self && LiveIndex(self, n) !in outer then outer[LiveIndex(self, n) := n] else outer
  }

  function RegisteredAll(outer: map<int, Node>, self: Node, ns: seq<Node>): map<int, Node>
    decreases |ns|
  {
    if ns == [] then outer else Registered(RegisteredAll(outer, self, ns[..|ns| - 1]), self, ns[|ns| - 1])
  }

  class RouteTable {
    var nodeOuterTable: map<int, Node>
    var nodeInnerTable: map<Node, int>
    const selfNode: Node

    constructor (selfNode: Node)
      ensures this.selfNode == selfNode && nodeOuterTable == map[] && nodeInnerTable == map[]
    {
      this.selfNode := selfNode;
      nodeOuterTable := map[];
      nodeInnerTable := map[];
    }

    method Regist(replyedNode: Node, far: real -> int)
      modifies this
      ensures nodeOuterTable == Registered(old(nodeOuterTable), selfNode, replyedNode)
      ensures nodeInnerTable == old(nodeInnerTable)
    {
      if !replyedNode.valid {
        return;
      }
      if replyedNode == selfNode {
        return;
      }
      var idx := GetSubtreeIndex(selfNode, replyedNode, far);
      RegistAt(idx, replyedNode);
    }

    // The rest of regist, for any index: both tables keep the entries they have.
    method RegistAt(idx: int, replyedNode: Node)
      modifies this
      ensures nodeInnerTable == if idx == DIVIDE_COUNT && replyedNode !in old(nodeInnerTable)
                                then old(nodeInnerTable)[replyedNode := 10] else old(nodeInnerTable)
      ensures nodeOuterTable == if idx >= 0 && idx != DIVIDE_COUNT && idx !in old(nodeOuterTable)
                                then old(nodeOuterTable)[idx := replyedNode] else old(nodeOuterTable)
    {
      if idx < 0 {
        return;
      } else if idx == DIVIDE_COUNT {
        if replyedNode !in nodeInnerTable {
          nodeInnerTable := nodeInnerTable[replyedNode := 10];
        }
      } else {
        if idx !in nodeOuterTable {
          nodeOuterTable := nodeOuterTable[idx := replyedNode];
        }
      }
    }
  }

  // n is registered by self in slot idx, if the slot is free.
  predicate Claims(self: Node, n: Node, idx: int) { n.valid && n != self && LiveIndex(self, n) == idx }

  // n is the first node of ns to claim slot idx.
  ghost predicate FirstClaim(self: Node, ns: seq<Node>, idx: int, n: Node)
  {
    exists i | 0 <= i < |ns| ::
      ns[i] == n && Claims(self, n, idx) && (forall j | 0 <= j < i :: !Claims(self, ns[j], idx))
  }

  // After any run of registrations: four slots at most, and each holds the first node claiming it.
  // The inner table stays empty by Regist.
  lemma {:induction false} RegistrationRuns(self: Node, ns: seq<Node>)
    ensures var outer := RegisteredAll(map[], self, ns);
      && outer.Keys <= {36, 39, 42, 45}
      && (forall i | 0 <= i < |ns| && ns[i].valid && ns[i] != self :: LiveIndex(self, ns[i]) in outer)
      && forall idx | idx in outer :: FirstClaim(self, ns, idx, outer[idx])
  {
    if ns != [] {
      var front, n := ns[..|ns| - 1], ns[|ns| - 1];
      RegistrationRuns(self, front);
      assert forall i | 0 <= i < |front| :: ns[i] == front[i];
      var before, after := RegisteredAll(map[], self, front), RegisteredAll(map[], self, ns);
      forall idx | idx in after
        ensures FirstClaim(self, ns, idx, after[idx])
      {
        if idx in before {
          var i :| 0 <= i < |front| && front[i] == before[idx]
            && (forall j | 0 <= j < i :: !Claims(self, front[j], idx));
          assert ns[i] == after[idx];
        } else {
          assert ns[|front|] == after[idx];
        }
      }
    }
  }

  // An occupied slot is never overwritten, whatever is registered later.
  lemma {:induction false} OccupiedSlotStays(outer: map<int, Node>, self: Node, ns: seq<Node>, idx: int)
    requires idx in outer
    ensures idx in RegisteredAll(outer, self, ns) && RegisteredAll(outer, self, ns)[idx] == outer[idx]
  {
    if ns != [] {
      OccupiedSlotStays(outer, self, ns[..|ns| - 1], idx);
    }
  }
}
