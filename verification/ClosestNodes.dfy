/** The closest-nodes reply: which nodes send_closest_nodes collects, and what that is worth. */
module ClosestNodes {
  import opened Wrappers
  import opened Ids
  import opened RoutingTable
  import opened DhtTable
  import opened Closest

  /** How many nodes a reply holds. */
  const REPLY_NODES: nat := 8

  /** One slot of the reply: an id and where to reach it. */
  datatype Slot = Slot(id: Id, addr: Address)

  function IdsOf(l: seq<Slot>): (r: seq<Id>)
    ensures |r| == |l| && forall i | 0 <= i < |l| :: r[i] == l[i].id
  {
    seq(|l|, i requires 0 <= i < |l| => l[i].id)
  }

  /** The reply after a node was offered: slots move as whole, a listed id keeps its slot. */
  function OfferSlot(l: seq<Slot>, e: Slot, target: Id): (r: seq<Slot>)
    requires |l| <= REPLY_NODES
    ensures |r| <= REPLY_NODES
  {
    var p := Place(IdsOf(l), e.id, target);
    if Listed(IdsOf(l), e.id, target) || p == REPLY_NODES then l else InsertAt(l, p, e, REPLY_NODES)
  }

  lemma OfferSlotIds(l: seq<Slot>, e: Slot, target: Id)
    requires |l| <= REPLY_NODES
    ensures IdsOf(OfferSlot(l, e, target)) == Offer(IdsOf(l), REPLY_NODES, e.id, target)
  {
  }

  /** The good nodes of a list, as ids in list order. */
  function GoodIds(ns: seq<Node>, now: int): seq<Id> {
    if ns == [] then []
    else if Good(ns[0], now) then [ns[0].id] + GoodIds(ns[1..], now)
    else GoodIds(ns[1..], now)
  }

  /** The reply after the good nodes of a list were offered. */
  function OfferGood(l: seq<Slot>, ns: seq<Node>, target: Id, now: int): (r: seq<Slot>)
    requires |l| <= REPLY_NODES
    ensures |r| <= REPLY_NODES
    decreases |ns|
  {
    if ns == [] then l
    else if Good(ns[0], now) then OfferGood(OfferSlot(l, Slot(ns[0].id, ns[0].addr), target), ns[1..], target, now)
    else OfferGood(l, ns[1..], target, now)
  }

  lemma {:induction false} OfferGoodIds(l: seq<Slot>, ns: seq<Node>, target: Id, now: int)
    requires |l| <= REPLY_NODES
    ensures IdsOf(OfferGood(l, ns, target, now))
         == OfferAll(IdsOf(l), REPLY_NODES, GoodIds(ns, now), target)
    decreases |ns|
  {
    if ns != [] {
      if Good(ns[0], now) {
        var e := Slot(ns[0].id, ns[0].addr);
        OfferSlotIds(l, e, target);
        OfferGoodIds(OfferSlot(l, e, target), ns[1..], target, now);
        assert GoodIds(ns, now)[1..] == GoodIds(ns[1..], now);
      } else {
        OfferGoodIds(l, ns[1..], target, now);
      }
    }
  }

  /** The slot is that of a node of the list that is good now: its id and its address. */
  ghost predicate Names(e: Slot, ns: seq<Node>, now: int) {
    exists n :: n in ns && Good(n, now) && e.id == n.id && e.addr == n.addr
  }

  lemma OfferSlotKeeps(l: seq<Slot>, e: Slot, target: Id)
    requires |l| <= REPLY_NODES
    ensures forall x | x in OfferSlot(l, e, target) :: x in l || x == e
  {
  }

  /** Whatever the buffer holds in the end was in it before or is the slot of a good node of the list. */
  lemma {:induction false} OfferGoodNames(l: seq<Slot>, ns: seq<Node>, target: Id, now: int)
    requires |l| <= REPLY_NODES
    ensures forall e | e in OfferGood(l, ns, target, now) :: e in l || Names(e, ns, now)
    decreases |ns|
  {
    if ns != [] {
      var offered := Slot(ns[0].id, ns[0].addr);
      var l1 := if Good(ns[0], now) then OfferSlot(l, offered, target) else l;
      OfferSlotKeeps(l, offered, target);
      OfferGoodNames(l1, ns[1..], target, now);
      forall e | e in OfferGood(l, ns, target, now) ensures e in l || Names(e, ns, now) {
        if e !in l {
          if e in l1 {
            assert ns[0] in ns;
          } else {
            var n :| n in ns[1..] && Good(n, now) && e.id == n.id && e.addr == n.addr;
            assert n in ns;
          }
        }
      }
    }
  }

  // ----- the buffer -----

  /** Inserts one node into the sorted buffer of eight, in place. */
  method InsertClosestNode(nodes: array<Slot>, numnodes: nat, target: Id, n: Node) returns (num: nat)
    requires nodes.Length == REPLY_NODES && numnodes <= REPLY_NODES
    modifies nodes
    ensures num <= REPLY_NODES
    ensures nodes[..num] == OfferSlot(old(nodes[..numnodes]), Slot(n.id, n.addr), target)
  {
    ghost var l := nodes[..numnodes];
    num := numnodes;
    var i := 0;
    while i < numnodes
      invariant i <= numnodes
      invariant forall m | 0 <= m < i :: nodes[m].id != n.id && Dist(nodes[m].id, target) <= Dist(n.id, target)
    {
      if n.id == nodes[i].id {
        PlaceIs(IdsOf(l), n.id, target, i);
        return;
      }
      if Dist(n.id, target) < Dist(nodes[i].id, target) {
        break;
      }
      i := i + 1;
    }
    PlaceIs(IdsOf(l), n.id, target, i);
    if i == REPLY_NODES {
      return;
    }
    num := ShiftIn(nodes, numnodes, i, Slot(n.id, n.addr));
  }

  /** memmove of the entries from i on, and the new entry at i. */
  method ShiftIn(nodes: array<Slot>, numnodes: nat, i: nat, e: Slot) returns (num: nat)
    requires nodes.Length == REPLY_NODES && i <= numnodes <= REPLY_NODES && i < REPLY_NODES
    modifies nodes
    ensures num <= REPLY_NODES && nodes[..num] == InsertAt(old(nodes[..numnodes]), i, e, REPLY_NODES)
  {
    ghost var l := nodes[..numnodes];
    num := numnodes;
    if num < REPLY_NODES {
      num := num + 1;
    }
    forall m | i < m < num {
      nodes[m] := nodes[m - 1];
    }
    nodes[i] := e;
    assert nodes[..num] == InsertAt(l, i, e, REPLY_NODES);
  }

  /** The scan of the insertion loop stops at Place. */
  lemma {:induction false} PlaceIs(l: seq<Id>, id: Id, target: Id, i: nat)
    requires i <= |l|
    requires forall m | 0 <= m < i :: l[m] != id && Dist(l[m], target) <= Dist(id, target)
    requires i < |l| ==> l[i] == id || Dist(id, target) < Dist(l[i], target)
    ensures Place(l, id, target) == i
  {
    var p := Place(l, id, target);
  }

  method BufferClosestNodes(nodes: array<Slot>, numnodes: nat, target: Id, b: Bucket, now: int)
    returns (num: nat)
    requires nodes.Length == REPLY_NODES && numnodes <= REPLY_NODES
    modifies nodes
    ensures num <= REPLY_NODES
    ensures nodes[..num] == OfferGood(old(nodes[..numnodes]), b.nodes, target, now)
    ensures forall e | e in nodes[..num] :: e in old(nodes[..numnodes]) || Names(e, b.nodes, now)
  {
    OfferGoodNames(nodes[..numnodes], b.nodes, target, now);
    num := numnodes;
    var n := b.nodes;
    while n != []
      invariant num <= REPLY_NODES
      invariant OfferGood(nodes[..num], n, target, now) == OfferGood(old(nodes[..numnodes]), b.nodes, target, now)
    {
      if Good(n[0], now) {
        num := InsertClosestNode(nodes, num, target, n[0]);
      }
      n := n[1..];
    }
  }

  /** What send_closest_nodes collects: the home bucket, then its two neighbours in the list. */
  function Reply(bs: seq<Bucket>, home: nat, target: Id, now: int): (r: seq<Slot>)
    requires home < |bs|
    ensures |r| <= REPLY_NODES
  {
    var r0 := OfferGood([], bs[home].nodes, target, now);
    var r1 := if home + 1 < |bs| then OfferGood(r0, bs[home + 1].nodes, target, now) else r0;
    if home > 0 then OfferGood(r1, bs[home - 1].nodes, target, now) else r1
  }

  /** Every entry of the reply is the id and the address of a node of the table that is good now. */
  lemma ReplyNamesGoodNodes(bs: seq<Bucket>, home: nat, target: Id, now: int)
    requires home < |bs|
    ensures forall e | e in Reply(bs, home, target, now) ::
              exists n :: n in Nodes(bs) && Good(n, now) && e.id == n.id && e.addr == n.addr
  {
    var r0 := OfferGood([], bs[home].nodes, target, now);
    var r1 := if home + 1 < |bs| then OfferGood(r0, bs[home + 1].nodes, target, now) else r0;
    OfferGoodNames([], bs[home].nodes, target, now);
    if home + 1 < |bs| {
      OfferGoodNames(r0, bs[home + 1].nodes, target, now);
    }
    if home > 0 {
      OfferGoodNames(r1, bs[home - 1].nodes, target, now);
    }
    forall e | e in Reply(bs, home, target, now)
      ensures exists n :: n in Nodes(bs) && Good(n, now) && e.id == n.id && e.addr == n.addr
    {
      var i :| 0 <= i < |bs| && Names(e, bs[i].nodes, now);
      NamedIsKnown(bs, i, e, now);
    }
  }

  lemma NamedIsKnown(bs: seq<Bucket>, i: nat, e: Slot, now: int)
    requires i < |bs| && Names(e, bs[i].nodes, now)
    ensures exists n :: n in Nodes(bs) && Good(n, now) && e.id == n.id && e.addr == n.addr
  {
    var n :| n in bs[i].nodes && Good(n, now) && e.id == n.id && e.addr == n.addr;
    var l :| 0 <= l < |bs[i].nodes| && bs[i].nodes[l] == n;
    ListedIsKnown(bs, i, l);
  }

  /** The nodes of a find_node or get_peers reply; nothing when the family has no table. */
  method SendClosestNodes(t: Table, target: Id, now: int) returns (r: seq<Slot>)
    requires t.Valid()
    ensures t.buckets == [] ==> r == []
    ensures t.buckets != [] ==>
              exists home :: 0 <= home < |t.buckets| && Spot(t.my, t.buckets, home) <= target
                             && r == Reply(t.buckets, home, target, now)
    ensures forall e | e in r ::
              exists n :: n in Nodes(t.buckets) && Good(n, now) && e.id == n.id && e.addr == n.addr
  {
    var h := t.FindBucket(target);
    if h.None? {
      return [];
    }
    r := CollectNodes(t.buckets, h.value, target, now);
    ReplyNamesGoodNodes(t.buckets, h.value, target, now);
  }

  /** The three scans of send_closest_nodes. */
  method CollectNodes(bs: seq<Bucket>, b: nat, target: Id, now: int) returns (r: seq<Slot>)
    requires b < |bs|
    ensures r == Reply(bs, b, target, now)
  {
    var nodes := new Slot[REPLY_NODES](_ => Slot(target, Address(0, 0)));
    var num := BufferClosestNodes(nodes, 0, target, bs[b], now);
    assert nodes[..num] == OfferGood([], bs[b].nodes, target, now);
    if b + 1 < |bs| {
      num := BufferClosestNodes(nodes, num, target, bs[b + 1], now);
    }
    if b > 0 {
      num := BufferClosestNodes(nodes, num, target, bs[b - 1], now);
    }
    r := nodes[..num];
  }

  // ----- what the reply is worth -----

  /** The ids of the good nodes of a whole table. */
  ghost function GoodSet(bs: seq<Bucket>, now: int): set<Id> {
    set n | n in Nodes(bs) && Good(n, now) :: n.id
  }

  lemma {:induction false} GoodIdsSet(ns: seq<Node>, now: int)
    ensures SetOf(GoodIds(ns, now)) == set n | n in ns && Good(n, now) :: n.id
  {
    if ns != [] {
      GoodIdsSet(ns[1..], now);
      var s, t := set n | n in ns && Good(n, now) :: n.id, set n | n in ns[1..] && Good(n, now) :: n.id;
      assert ns == [ns[0]] + ns[1..];
      assert ns[0] in ns;
      assert s == (if Good(ns[0], now) then {ns[0].id} else {}) + t;
      if Good(ns[0], now) {
        SetOfConcat([ns[0].id], GoodIds(ns[1..], now));
      }
    }
  }

  lemma GoodIdsInTable(bs: seq<Bucket>, j: nat, now: int)
    requires j < |bs|
    ensures SetOf(GoodIds(bs[j].nodes, now)) <= GoodSet(bs, now)
  {
    GoodIdsSet(bs[j].nodes, now);
    NodesOfBucket(bs, j);
    forall n | n in bs[j].nodes ensures n in Nodes(bs) {
      assert n in multiset(bs[j].nodes);
    }
  }

  /** Good nodes outside the home bucket are all farther from the target than those inside. */
  lemma HomeIsNearest(my: Id, bs: seq<Bucket>, home: nat, target: Id, now: int, x: Id, y: Id)
    requires Shaped(my, bs) && home < |bs| && Spot(my, bs, home) <= target
    requires x in SetOf(GoodIds(bs[home].nodes, now))
    requires y in GoodSet(bs, now) && y !in SetOf(GoodIds(bs[home].nodes, now))
    ensures Dist(x, target) < Dist(y, target)
  {
    GoodIdsSet(bs[home].nodes, now);
    assert SpotOk(my, bs, home);
    var n :| n in Nodes(bs) && Good(n, now) && n.id == y;
    NodeHasBucket(bs, n);
    var i :| 0 <= i < |bs| && n in bs[i].nodes;
    assert SpotOk(my, bs, i);
    if Spot(my, bs, home) <= y {
      OneHome(my, bs, i, home, y);
    }
    SubtreeIsCloser(Spot(my, bs, home), x, y, target);
  }

  /** The good ids of the buckets that the reply scans. */
  ghost function Scanned(bs: seq<Bucket>, home: nat, now: int): set<Id>
    requires home < |bs|
  {
    SetOf(GoodIds(bs[home].nodes, now))
    + (if home + 1 < |bs| then SetOf(GoodIds(bs[home + 1].nodes, now)) else {})
    + (if home > 0 then SetOf(GoodIds(bs[home - 1].nodes, now)) else {})
  }

  lemma OfferGoodKeepsTop(l: seq<Slot>, s: set<Id>, ns: seq<Node>, target: Id, now: int)
    requires |l| <= REPLY_NODES && IsTop(IdsOf(l), REPLY_NODES, s, target)
    ensures IsTop(IdsOf(OfferGood(l, ns, target, now)), REPLY_NODES, s + SetOf(GoodIds(ns, now)), target)
  {
    OfferGoodIds(l, ns, target, now);
    OffersKeepTop(IdsOf(l), REPLY_NODES, s, GoodIds(ns, now), target);
  }

  /** The reply is the closest eight of what was scanned. */
  lemma ReplyIsTopOfScanned(bs: seq<Bucket>, home: nat, target: Id, now: int)
    requires home < |bs|
    ensures IsTop(IdsOf(Reply(bs, home, target, now)), 8, Scanned(bs, home, now), target)
  {
    var s0 := SetOf(GoodIds(bs[home].nodes, now));
    var r0 := OfferGood([], bs[home].nodes, target, now);
    assert IsTop(IdsOf([]), REPLY_NODES, {}, target);
    OfferGoodKeepsTop([], {}, bs[home].nodes, target, now);
    assert {} + s0 == s0;
    var s1 := s0 + (if home + 1 < |bs| then SetOf(GoodIds(bs[home + 1].nodes, now)) else {});
    var r1 := if home + 1 < |bs| then OfferGood(r0, bs[home + 1].nodes, target, now) else r0;
    if home + 1 < |bs| {
      OfferGoodKeepsTop(r0, s0, bs[home + 1].nodes, target, now);
    }
    assert IsTop(IdsOf(r1), REPLY_NODES, s1, target);
    if home > 0 {
      OfferGoodKeepsTop(r1, s1, bs[home - 1].nodes, target, now);
    }
  }

  /** If the home bucket has g good nodes, the first min(g, 8) entries of the reply are those of the
      true answer: the closest good nodes of the whole table, in order. */
  lemma ReplyBeginsWithGlobalAnswer(my: Id, bs: seq<Bucket>, home: nat, target: Id, now: int, global: seq<Id>)
    requires TableInv(my, bs) && home < |bs| && Spot(my, bs, home) <= target
    requires IsTop(global, 8, GoodSet(bs, now), target)
    ensures var g := Min(8, |SetOf(GoodIds(bs[home].nodes, now))|);
            var r := IdsOf(Reply(bs, home, target, now));
            g <= |r| && g <= |global| && r[..g] == global[..g]
  {
    var near := SetOf(GoodIds(bs[home].nodes, now));
    var r := IdsOf(Reply(bs, home, target, now));
    var scanned, all := Scanned(bs, home, now), GoodSet(bs, now);
    ReplyIsTopOfScanned(bs, home, target, now);
    ScannedInTable(bs, home, now);
    forall x, y | x in near && y in all - near ensures Dist(x, target) < Dist(y, target) {
      HomeIsNearest(my, bs, home, target, now, x, y);
    }
    TopPrefix(r, REPLY_NODES, scanned, near, target);
    TopPrefix(global, REPLY_NODES, all, near, target);
    var g := Min(REPLY_NODES, |near|);
    TopUnique(r[..g], global[..g], REPLY_NODES, near, target);
  }

  lemma ScannedInTable(bs: seq<Bucket>, home: nat, now: int)
    requires home < |bs|
    ensures SetOf(GoodIds(bs[home].nodes, now)) <= Scanned(bs, home, now) <= GoodSet(bs, now)
  {
    GoodIdsInTable(bs, home, now);
    if home + 1 < |bs| {
      GoodIdsInTable(bs, home + 1, now);
    }
    if home > 0 {
      GoodIdsInTable(bs, home - 1, now);
    }
  }

  /** With eight good nodes at home the reply is the answer to find_node over the whole table. */
  lemma FullHomeGivesGlobalAnswer(my: Id, bs: seq<Bucket>, home: nat, target: Id, now: int)
    requires TableInv(my, bs) && home < |bs| && Spot(my, bs, home) <= target
    requires |SetOf(GoodIds(bs[home].nodes, now))| >= 8
    ensures IsTop(IdsOf(Reply(bs, home, target, now)), 8, GoodSet(bs, now), target)
  {
    var all := GoodSet(bs, now);
    var ids := Sequence(all);
    OffersKeepTop([], REPLY_NODES, {}, ids, target);
    assert {} + SetOf(ids) == all;
    var global := OfferAll([], REPLY_NODES, ids, target);
    ScannedInTable(bs, home, now);
    SubsetCount(SetOf(GoodIds(bs[home].nodes, now)), all);
    ReplyBeginsWithGlobalAnswer(my, bs, home, target, now, global);
    var r := IdsOf(Reply(bs, home, target, now));
    assert r == r[..REPLY_NODES] && global == global[..REPLY_NODES];
  }

  /** Some listing of a set. */
  ghost function Sequence(s: set<Id>): (r: seq<Id>)
    ensures SetOf(r) == s
  {
    if s == {} then [] else
      var x :| x in s;
      SetOfConcat([x], Sequence(s - {x}));
      [x] + Sequence(s - {x})
  }
}
