/** The routing table of one address family and the operations that change it. */
module DhtTable {
  import opened Wrappers
  import opened Ids
  import opened BucketTree
  import opened SeqFacts
  import opened RoutingTable
  import opened NodeLife
  import opened SplitSteps

  /** m is the first node of the list that may be overwritten; its length, if there is none. */
  ghost predicate FirstReplaceable(ns: seq<Node>, m: nat, now: int) {
    m <= |ns| && (m < |ns| ==> Replaceable(ns[m], now)) && forall i | 0 <= i < m :: !Replaceable(ns[i], now)
  }

  /** m is the first node of the list to ping; its length, if there is none. */
  ghost predicate FirstPingable(ns: seq<Node>, m: nat, now: int) {
    m <= |ns| && (m < |ns| ==> Pingable(ns[m], now)) && forall i | 0 <= i < m :: !Pingable(ns[i], now)
  }

  /** How new_node ends; m is a position in the bucket of the id. */
  datatype Outcome =
    | Ignored
    | Refreshed(m: nat, was: Node, seen: Node)
    | Replaced(m: nat, bad: Node, added: Node)
    | Added(added: Node)
    | NoRoom
    | NoRoomPinged(m: nat, dubious: Node)

  /** The last pass of new_node: the table it found, the bucket of the id in it, and how it ended. */
  datatype Pass = Pass(table: seq<Bucket>, home: nat, outcome: Outcome)

  /** The nodes after each outcome, given the nodes that survived splitting. */
  ghost function After(base: multiset<Node>, o: Outcome, now: int): multiset<Node> {
    match o
    case Ignored => base
    case Refreshed(_, was, seen) => base - multiset{was} + multiset{seen}
    case Replaced(_, bad, added) => base - multiset{bad} + multiset{added}
    case Added(added) => base + multiset{added}
    case NoRoom => base
    case NoRoomPinged(_, n) => base - multiset{n} + multiset{PingedNode(n, now)}
  }

  ghost predicate Lists(ns: seq<Node>, id: Id) {
    exists n :: n in ns && n.id == id
  }

  /** The bucket with this list does not know the id, has no node that may be overwritten and no room, and if it
      is ours, it is not full of good nodes. */
  ghost predicate NoPlace(ns: seq<Node>, max: nat, ours: bool, id: Id, now: int) {
    && !Lists(ns, id)
    && |ns| == max && FirstReplaceable(ns, |ns|, now)
    && (ours ==> exists n :: n in ns && !Good(n, now))
  }

  /** When each outcome happens, in terms of the list of the bucket of the id and of its capacity, and which
      list c it leaves there. */
  ghost predicate OutcomeOk(ns: seq<Node>, max: nat, c: seq<Node>, ours: bool, id: Id, addr: Address, confirm: nat,
                            now: int, o: Outcome, r: Option<Node>) {
    match o
    case Ignored => false
    case Refreshed(m, was, seen) =>
      && m < |ns| && was == ns[m] && was.id == id && seen == Refresh(was, addr, confirm, now)
      && r == Some(seen) && c == ns[m := seen]
    case Replaced(m, bad, added) =>
      && !Lists(ns, id)
      && m < |ns| && FirstReplaceable(ns, m, now) && bad == ns[m]
      && added == Fresh(id, addr, confirm, now) && r == Some(added) && c == ns[m := added]
    case Added(added) =>
      && !Lists(ns, id)
      && FirstReplaceable(ns, |ns|, now) && |ns| < max
      && added == Fresh(id, addr, confirm, now) && r == Some(added) && c == [added] + ns
    case NoRoom =>
      NoPlace(ns, max, ours, id, now) && FirstPingable(ns, |ns|, now) && r == None && c == ns
    case NoRoomPinged(m, n) =>
      && NoPlace(ns, max, ours, id, now)
      && m < |ns| && FirstPingable(ns, m, now) && n == ns[m]
      && r == None && c == ns[m := PingedNode(n, now)]
  }

  /** The address a bucket keeps for later: that of the last node it had no place for, but hearsay does not
      displace another one. */
  function Kept(cached: Option<Address>, o: Outcome, addr: Address, confirm: nat): Option<Address> {
    if (o.NoRoom? || o.NoRoomPinged?) && (confirm != 0 || cached == None) then Some(addr) else cached
  }

  // ----- swapping one node of one bucket -----

  lemma SwapInBucket(ns: seq<Node>, m: nat, x: Node)
    requires m < |ns|
    ensures multiset(ns[m := x]) + multiset{ns[m]} == multiset(ns) + multiset{x}
  {
    var l, r := ns[..m], ns[m + 1..];
    Around(ns, m, x);
    assert multiset(ns) == multiset(l) + multiset{ns[m]} + multiset(r);
    assert multiset(l + [x] + r) == multiset(l) + multiset{x} + multiset(r);
  }

  lemma CancelSwap<T>(r: multiset<T>, bs: multiset<T>, ns: multiset<T>, ns': multiset<T>, was: T, x: T)
    requires r + ns == bs + ns' && ns' + multiset{was} == ns + multiset{x} && was in bs
    ensures r == bs - multiset{was} + multiset{x}
  {
    forall t ensures r[t] == (bs - multiset{was} + multiset{x})[t] {
      assert (r + ns)[t] == (bs + ns')[t];
      assert (ns' + multiset{was})[t] == (ns + multiset{x})[t];
    }
  }

  lemma SwapKeepsUnique(m: multiset<Node>, was: Node, x: Node)
    requires UniqueIds(m) && was in m
    requires x.id == was.id || !Knows(m, x.id)
    ensures UniqueIds(m - multiset{was} + multiset{x})
    ensures forall id :: Knows(m - multiset{was} + multiset{x}, id) ==> Knows(m, id) || id == x.id
  {
    var base := m - multiset{was};
    SubMultisetUnique(base, m);
    forall y | y in base ensures y.id != x.id {
      assert y in m && was in m;
      assert y == was ==> base[y] == 0;
    }
    AddKeepsUnique(base, x);
    forall id | Knows(base, id) ensures Knows(m, id) {
      var y :| y in base && y.id == id;
      assert y in m;
    }
  }

  /** Overwriting node m of bucket j, with the same id or a new one that belongs there. */
  lemma SwapKeepsTable(my: Id, bs: seq<Bucket>, j: nat, m: nat, x: Node)
    requires TableInv(my, bs) && j < |bs| && m < |bs[j].nodes|
    requires x.id == bs[j].nodes[m].id || (!Knows(Nodes(bs), x.id) && x.id != my && Spot(my, bs, j) <= x.id)
    ensures var r := bs[j := bs[j].(nodes := bs[j].nodes[m := x])];
            && TableInv(my, r)
            && Nodes(r) == Nodes(bs) - multiset{bs[j].nodes[m]} + multiset{x}
            && SamePlace(bs[j], r[j])
    ensures bs[j].nodes[m] in Nodes(bs)
  {
    var was, b := bs[j].nodes[m], bs[j].(nodes := bs[j].nodes[m := x]);
    assert SpotOk(my, bs, j);
    assert was in bs[j].nodes;
    UpdateKeepsShape(my, bs, j, b);
    NodesOfBucket(bs, j);
    assert was in multiset(bs[j].nodes);
    NodesUpdate(bs, j, b);
    SwapInBucket(bs[j].nodes, m, x);
    CancelSwap(Nodes(bs[j := b]), Nodes(bs), multiset(bs[j].nodes), multiset(b.nodes), was, x);
    SwapKeepsUnique(Nodes(bs), was, x);
    assert Knows(Nodes(bs), was.id);
  }

  /** The clock and the cached address of a bucket play no part in the invariant. */
  lemma StampKeepsTable(my: Id, bs: seq<Bucket>, j: nat, time: int, cached: Option<Address>)
    requires TableInv(my, bs) && j < |bs|
    ensures TableInv(my, bs[j := bs[j].(time := time, cached := cached)])
    ensures Nodes(bs[j := bs[j].(time := time, cached := cached)]) == Nodes(bs)
    ensures SamePlace(bs[j], bs[j].(time := time, cached := cached))
  {
    var b := bs[j].(time := time, cached := cached);
    assert SpotOk(my, bs, j);
    UpdateKeepsShape(my, bs, j, b);
    NodesUpdate(bs, j, b);
    CancelRight(Nodes(bs[j := b]), multiset(b.nodes), Nodes(bs), multiset{});
    assert multiset{} + multiset(b.nodes) == multiset(b.nodes);
  }

  /** An id that its own bucket does not list is in no bucket. */
  lemma UnknownInHomeIsUnknown(my: Id, bs: seq<Bucket>, j: nat, id: Id)
    requires Shaped(my, bs) && j < |bs| && Spot(my, bs, j) <= id
    requires forall n | n in bs[j].nodes :: n.id != id
    ensures !Knows(Nodes(bs), id)
  {
    forall n | n in Nodes(bs) ensures n.id != id {
      NodeHasBucket(bs, n);
      var i :| 0 <= i < |bs| && n in bs[i].nodes;
      assert SpotOk(my, bs, i);
      if n.id == id {
        OneHome(my, bs, i, j, id);
      }
    }
  }

  // ----- one change of one bucket, as a step of the table -----

  /** The table keeps its invariant and its number of buckets, and no closed bucket opens. */
  ghost predicate Step(my: Id, bs: seq<Bucket>, bs': seq<Bucket>) {
    && TableInv(my, bs) && TableInv(my, bs')
    && |bs'| == |bs|
    && forall id: Id :: ClosedTo(my, bs, id) ==> ClosedTo(my, bs', id)
  }

  lemma UpdateIsStep(my: Id, bs: seq<Bucket>, j: nat, b: Bucket)
    requires TableInv(my, bs) && j < |bs| && TableInv(my, bs[j := b])
    requires SamePlace(bs[j], b) && |bs[j].nodes| <= |b.nodes|
    ensures Step(my, bs, bs[j := b])
  {
    forall id: Id | ClosedTo(my, bs, id) ensures ClosedTo(my, bs[j := b], id) {
      UpdateKeepsClosed(my, bs, j, b, id);
    }
  }

  lemma StampStep(my: Id, bs: seq<Bucket>, j: nat, time: int, cached: Option<Address>, r: seq<Bucket>)
    requires TableInv(my, bs) && j < |bs| && r == bs[j := bs[j].(time := time, cached := cached)]
    ensures Step(my, bs, r) && Nodes(r) == Nodes(bs) && SamePlace(bs[j], r[j])
  {
    StampKeepsTable(my, bs, j, time, cached);
    UpdateIsStep(my, bs, j, bs[j].(time := time, cached := cached));
  }

  lemma SwapStep(my: Id, bs: seq<Bucket>, j: nat, m: nat, x: Node, r: seq<Bucket>)
    requires TableInv(my, bs) && j < |bs| && m < |bs[j].nodes|
    requires x.id == bs[j].nodes[m].id || (!Knows(Nodes(bs), x.id) && x.id != my && Spot(my, bs, j) <= x.id)
    requires r == bs[j := bs[j].(nodes := bs[j].nodes[m := x])]
    ensures Step(my, bs, r) && SamePlace(bs[j], r[j])
    ensures Nodes(r) == Nodes(bs) - multiset{bs[j].nodes[m]} + multiset{x}
  {
    SwapKeepsTable(my, bs, j, m, x);
    UpdateIsStep(my, bs, j, bs[j].(nodes := bs[j].nodes[m := x]));
  }

  lemma PushStep(my: Id, bs: seq<Bucket>, j: nat, n: Node, r: seq<Bucket>)
    requires TableInv(my, bs) && j < |bs| && bs[j].count < bs[j].maxCount
    requires Spot(my, bs, j) <= n.id && n.id != my && !Knows(Nodes(bs), n.id)
    requires r == bs[j := Pushed(bs[j], n)]
    ensures Step(my, bs, r) && Nodes(r) == Nodes(bs) + multiset{n} && SamePlace(bs[j], r[j])
  {
    PushKeepsTable(my, bs, j, n);
    UpdateIsStep(my, bs, j, Pushed(bs[j], n));
  }

  /** Our bucket is full, and of good nodes only: the one case in which it is split. */
  ghost predicate MustSplit(my: Id, bs: seq<Bucket>, now: int)
    requires 1 <= |bs| <= ID_BITS + 1
  {
    var b := bs[Own(my, bs)];
    b.count >= b.maxCount && forall n | n in b.nodes :: Good(n, now)
  }

  /** What a pass does to bucket j, the one that covers the id, and to no other; the time of the bucket
      aside. */
  ghost predicate Change(my: Id, bs: seq<Bucket>, bs': seq<Bucket>, j: nat, id: Id, addr: Address, confirm: nat,
                         now: int, o: Outcome, r: Option<Node>)
    requires 1 <= |bs| <= ID_BITS + 1
  {
    && |bs'| == |bs| && j < |bs| && Spot(my, bs, j) <= id
    && bs' == bs[j := bs'[j]] && SamePlace(bs[j], bs'[j])
    && bs'[j].cached == Kept(bs[j].cached, o, addr, confirm)
    && OutcomeOk(bs[j].nodes, bs[j].maxCount, bs'[j].nodes, j == Own(my, bs), id, addr, confirm, now, o, r)
    && Nodes(bs') == After(Nodes(bs), o, now)
  }

  /** How a pass may leave the table, given the table it found and how it ended. */
  ghost predicate PlacedOk(my: Id, p: Pass, bs: seq<Bucket>, id: Id, addr: Address, confirm: nat, now: int,
                           r: Option<Node>) {
    && 1 <= |p.table| <= ID_BITS + 1
    && Change(my, p.table, bs, p.home, id, addr, confirm, now, p.outcome, r)
    && bs[p.home].time == (if confirm == 2 then now else p.table[p.home].time)
    && (p.outcome.Refreshed? || !Knows(Nodes(p.table), id))
  }

  /** How new_node leaves the table: the nodes there were but for those lost in splits, placed. */
  ghost predicate Settled(my: Id, k: nat, before: multiset<Node>, p: Pass, bs: seq<Bucket>, lost: multiset<Node>,
                          id: Id, addr: Address, confirm: nat, now: int, r: Option<Node>) {
    && TableInv(my, p.table) && TableInv(my, bs)
    && k < ID_BITS
    && lost <= before && Nodes(p.table) == before - lost
    && PlacedOk(my, p, bs, id, addr, confirm, now, r)
    && forall x | x in lost :: my[..k] <= x.id && ClosedTo(my, bs, x.id)
  }

  /** When our bucket last got somebody new to consider, after a pass. */
  ghost function Grown(my: Id, p: Pass, was: int, now: int): int
    requires 1 <= |p.table| <= ID_BITS + 1
  {
    if !p.outcome.Refreshed? && p.home == Own(my, p.table) then now else was
  }

  /** The node that new_node returns is listed in the bucket of its id, and is what the message makes of it. When
      it returns none, that bucket has an address in store: the new one, unless that is hearsay and there was one. */
  ghost predicate Returned(before: multiset<Node>, p: Pass, bs: seq<Bucket>, id: Id, addr: Address, confirm: nat,
                           now: int, r: Option<Node>) {
    && (r.Some? ==> p.home < |bs| && r.value in bs[p.home].nodes && Told(before, r.value, id, addr, confirm, now))
    && (!p.outcome.Ignored? ==>
          && p.home < |bs| && p.home < |p.table|
          && Stored(p.table[p.home].cached, bs[p.home].cached, addr, confirm, r))
  }

  predicate Stored(was: Option<Address>, cached: Option<Address>, addr: Address, confirm: nat, r: Option<Node>) {
    && (r.Some? ==> cached == was)
    && (r.None? ==> cached.Some?)
    && (r.None? && (confirm > 0 || was == None) ==> cached == Some(addr))
    && (r.None? && confirm == 0 && was.Some? ==> cached == was)
  }

  lemma OutcomeTells(ns: seq<Node>, max: nat, c: seq<Node>, ours: bool, id: Id, addr: Address, confirm: nat,
                     now: int, o: Outcome, r: Option<Node>, known: multiset<Node>)
    requires OutcomeOk(ns, max, c, ours, id, addr, confirm, now, o, r) && UniqueIds(known)
    requires if o.Refreshed? then o.was in known else !Knows(known, id)
    ensures r.Some? ==> r.value in c && Told(known, r.value, id, addr, confirm, now)
    ensures forall cached :: Stored(cached, Kept(cached, o, addr, confirm), addr, confirm, r)
  {
    match o
    case Refreshed(m, was, seen) =>
      assert c[m] == seen;
      RefreshTells(known, was, addr, confirm, now);
    case Replaced(m, _, added) =>
      assert c[m] == added;
      FreshTells(known, id, addr, confirm, now);
    case Added(added) =>
      assert c[0] == added;
      FreshTells(known, id, addr, confirm, now);
    case NoRoom =>
    case NoRoomPinged(_, _) =>
  }

  lemma SettledIsTold(my: Id, k: nat, before: multiset<Node>, p: Pass, bs: seq<Bucket>, lost: multiset<Node>,
                      id: Id, addr: Address, confirm: nat, now: int, r: Option<Node>)
    requires Settled(my, k, before, p, bs, lost, id, addr, confirm, now, r)
    requires UniqueIds(before) && (!Knows(before, id) || lost == multiset{})
    ensures Returned(before, p, bs, id, addr, confirm, now, r)
  {
    if p.outcome.Refreshed? {
      ListedIsKnown(p.table, p.home, p.outcome.m);
    } else {
      UnknownBefore(before, Nodes(p.table), lost, id);
    }
    OutcomeTells(p.table[p.home].nodes, p.table[p.home].maxCount, bs[p.home].nodes, p.home == Own(my, p.table), id,
                 addr, confirm, now, p.outcome, r, before);
  }

  lemma UnknownBefore(before: multiset<Node>, left: multiset<Node>, lost: multiset<Node>, id: Id)
    requires left == before - lost && !Knows(left, id) && (!Knows(before, id) || lost == multiset{})
    ensures !Knows(before, id)
  {
    assert lost == multiset{} ==> left == before;
  }

  lemma StepTrans(my: Id, a: seq<Bucket>, b: seq<Bucket>, c: seq<Bucket>)
    requires Step(my, a, b) && Step(my, b, c)
    ensures Step(my, a, c)
  {
  }

  // ----- expiry -----

  /** The nodes that expiry leaves, in order. */
  function Alive(ns: seq<Node>): (r: seq<Node>)
    ensures |r| <= |ns|
  {
    if ns == [] then []
    else if ns[0].pinged >= 4 then Alive(ns[1..])
    else [ns[0]] + Alive(ns[1..])
  }

  lemma {:induction false} AliveAre(ns: seq<Node>)
    ensures forall n :: n in Alive(ns) <==> n in ns && n.pinged < 4
  {
    if ns != [] {
      AliveAre(ns[1..]);
      assert ns == [ns[0]] + ns[1..];
    }
  }

  lemma {:induction false} AliveConcat(a: seq<Node>, b: seq<Node>)
    ensures Alive(a + b) == Alive(a) + Alive(b)
  {
    if a == [] {
      EmptyConcat(a, b);
      EmptyConcat(Alive(a), Alive(b));
    } else {
      TailOfConcat(a, b);
      AliveConcat(a[1..], b);
      if a[0].pinged < 4 {
        ConcatAssoc([a[0]], Alive(a[1..]), Alive(b));
      }
    }
  }

  lemma {:induction false} AliveAll(ns: seq<Node>)
    requires forall n | n in ns :: n.pinged < 4
    ensures Alive(ns) == ns
  {
    if ns != [] {
      assert ns == [ns[0]] + ns[1..];
      assert ns[0] in ns;
      AliveAll(ns[1..]);
    }
  }

  lemma {:induction false} AliveShrinks(ns: seq<Node>)
    ensures multiset(Alive(ns)) <= multiset(ns)
  {
    if ns != [] {
      AliveShrinks(ns[1..]);
      assert ns == [ns[0]] + ns[1..];
      if ns[0].pinged < 4 {
        assert multiset(Alive(ns)) == multiset{ns[0]} + multiset(Alive(ns[1..]));
      }
      assert multiset(ns) == multiset{ns[0]} + multiset(ns[1..]);
    }
  }

  lemma AliveWithout(l: seq<Node>, x: Node, r: seq<Node>)
    requires x.pinged >= 4
    ensures Alive(l + [x] + r) == Alive(l + r)
  {
    AliveConcat(l + [x], r);
    AliveConcat(l, [x]);
    AliveConcat(l, r);
    EmptyConcat(Alive([x]), Alive(l));
  }

  /** What expiry leaves of a bucket: it forgets the cached address if it dropped a node. */
  function Expired(b: Bucket): Bucket {
    var ns := Alive(b.nodes);
    b.(nodes := ns, count := |ns|, cached := if |ns| < |b.nodes| then None else b.cached)
  }

  lemma ExpireOne(my: Id, bs: seq<Bucket>, j: nat)
    requires TableInv(my, bs) && j < |bs|
    ensures TableInv(my, bs[j := Expired(bs[j])])
    ensures Nodes(bs[j := Expired(bs[j])]) <= Nodes(bs)
  {
    var b := Expired(bs[j]);
    var r := bs[j := b];
    assert SpotOk(my, bs, j);
    AliveAre(bs[j].nodes);
    UpdateKeepsShape(my, bs, j, b);
    NodesUpdate(bs, j, b);
    AliveShrinks(bs[j].nodes);
    LessAfter(Nodes(r), multiset(bs[j].nodes), Nodes(bs), multiset(b.nodes));
    SubMultisetUnique(Nodes(r), Nodes(bs));
    forall n | n in Nodes(r) ensures n.id != my {
      assert n in Nodes(bs);
    }
  }

  lemma LessAfter<T>(r: multiset<T>, ns: multiset<T>, bs: multiset<T>, ns': multiset<T>)
    requires r + ns == bs + ns' && ns' <= ns
    ensures r <= bs
  {
    forall t ensures r[t] <= bs[t] {
      assert (r + ns)[t] == (bs + ns')[t];
    }
  }

  ghost predicate LiveUpTo(ns: seq<Node>, p: nat) {
    forall i | 0 <= i < p && i < |ns| :: ns[i].pinged < 4
  }

  lemma LiveThroughout(ns: seq<Node>, p: nat)
    requires |ns| <= p && LiveUpTo(ns, p)
    ensures Alive(ns) == ns
  {
    AliveAll(ns);
  }

  function Unlinked(ns: seq<Node>, i: nat): seq<Node>
    requires i < |ns|
  {
    ns[..i] + ns[i + 1..]
  }

  lemma UnlinkOne(ns: seq<Node>, i: nat, r: seq<Node>)
    requires i < |ns| && ns[i].pinged >= 4 && LiveUpTo(ns, i) && r == Unlinked(ns, i)
    ensures Alive(r) == Alive(ns) && LiveUpTo(r, i) && i <= |r| < |ns|
  {
    Around(ns, i, ns[i]);
    AliveWithout(ns[..i], ns[i], ns[i + 1..]);
  }

  /** Unlinks the bad nodes right behind position p. */
  method UnlinkBehind(ns: seq<Node>, p: nat) returns (r: seq<Node>)
    requires p < |ns| && LiveUpTo(ns, p + 1)
    ensures p < |r| <= |ns| && LiveUpTo(r, p + 2)
    ensures Alive(r) == Alive(ns)
  {
    r := ns;
    while p + 1 < |r| && r[p + 1].pinged >= 4
      invariant p < |r| <= |ns| && LiveUpTo(r, p + 1)
      invariant Alive(r) == Alive(ns)
      decreases |r|
    {
      var shorter := Unlinked(r, p + 1);
      UnlinkOne(r, p + 1, shorter);
      r := shorter;
    }
  }

  /** Unlinks bad nodes from the head of the list. */
  method UnlinkHead(ns: seq<Node>) returns (r: seq<Node>)
    ensures Alive(r) == Alive(ns) && LiveUpTo(r, 1)
  {
    r := ns;
    while r != [] && r[0].pinged >= 4
      invariant Alive(r) == Alive(ns)
    {
      r := r[1..];
    }
  }

  /** The unlinking loops over one list: first the head, then behind every node kept. */
  method ExpireList(ns: seq<Node>) returns (r: seq<Node>)
    ensures r == Alive(ns)
  {
    r := UnlinkHead(ns);
    var p := 0;
    while p < |r|
      invariant Alive(r) == Alive(ns)
      invariant LiveUpTo(r, p + 1)
      decreases |r| - p
    {
      r := UnlinkBehind(r, p);
      p := p + 1;
    }
    LiveThroughout(r, p + 1);
  }

  class Table {
    const my: Id
    var buckets: seq<Bucket>
    var growTime: int

    ghost predicate Valid()
      reads this
    {
      buckets == [] || TableInv(my, buckets)
    }

    /** dht_init: one bucket for everything, with room for 128 nodes. */
    constructor (my: Id, now: int)
      ensures Valid() && this.my == my && growTime == now
      ensures |buckets| == 1 && buckets[0].maxCount == 128 && Nodes(buckets) == multiset{}
    {
      this.my := my;
      growTime := now;
      buckets := [Bucket(Zeros(ID_BITS), 0, 128, 0, [], None)];
      new;
      NodesOne(buckets[0]);
      assert Spot(my, buckets, 0) == my[..0];
      assert First(my[..0]) == Zeros(ID_BITS);
      assert SpotOk(my, buckets, 0);
    }

    method FindBucket(id: Id) returns (r: Option<nat>)
      requires Valid()
      ensures r.None? <==> buckets == []
      ensures r.Some? ==>
                && r.value < |buckets| && InBucket(id, buckets, r.value)
                && Spot(my, buckets, r.value) <= id
    {
      if buckets == [] {
        return None;
      }
      var j := 0;
      FirstBucketStartsAtZero(my, buckets);
      while j + 1 < |buckets| && Val(buckets[j + 1].first) <= Val(id)
        invariant 0 <= j < |buckets|
        invariant Val(buckets[j].first) <= Val(id)
      {
        j := j + 1;
      }
      InBucketIffBelow(my, buckets, j, id);
      return Some(j);
    }

    /** The position of the node with this id, if there is one. */
    method Locate(id: Id) returns (found: bool, j: nat, m: nat)
      requires Valid()
      ensures found <==> Knows(Nodes(buckets), id)
      ensures found ==> j < |buckets| && m < |buckets[j].nodes| && buckets[j].nodes[m].id == id
    {
      var b := FindBucket(id);
      if b.None? {
        return false, 0, 0;
      }
      j := b.value;
      m := IndexOf(buckets[j].nodes, id);
      found := m < |buckets[j].nodes|;
      if found {
        ListedIsKnown(buckets, j, m);
      } else {
        UnknownInHomeIsUnknown(my, buckets, j, id);
      }
    }

    method FindNode(id: Id) returns (r: Option<Node>)
      requires Valid()
      ensures r.Some? <==> Knows(Nodes(buckets), id)
      ensures r.Some? ==> r.value in Nodes(buckets) && r.value.id == id
    {
      var found, j, m := Locate(id);
      if !found {
        return None;
      }
      ListedIsKnown(buckets, j, m);
      return Some(buckets[j].nodes[m]);
    }

    /** Puts the node at the head of its bucket, or names the full bucket that must be split. */
    method InsertNode(n: Node) returns (rc: int, split: nat)
      requires Valid()
      modifies this`buckets
      ensures rc < 0 <==> old(buckets) == []
      ensures rc <= 0 ==> buckets == old(buckets)
      ensures rc >= 0 ==> split < |old(buckets)| <= ID_BITS + 1 && Spot(my, old(buckets), split) <= n.id
      ensures rc == 0 ==> old(buckets)[split].count >= old(buckets)[split].maxCount
      ensures rc > 0 ==>
                && rc == 1
                && old(buckets)[split].count < old(buckets)[split].maxCount
                && buckets == old(buckets)[split := Pushed(old(buckets)[split], n)]
    {
      var r := FindBucket(n.id);
      if r.None? {
        return -1, 0;
      }
      split := r.value;
      var b := buckets[split];
      if b.count >= b.maxCount {
        return 0, split;
      }
      buckets := buckets[split := b.(nodes := [n] + b.nodes, count := b.count + 1)];
      rc := 1;
    }

    /** Halves our bucket and hands back the nodes that must be reinserted. */
    method SplitBucketHelper(j: nat) returns (rc: int, nodes: seq<Node>)
      requires Valid() && j < |buckets|
      requires j == Own(my, buckets) ==> |buckets| <= MAX_DEPTH
      modifies this`buckets
      ensures rc == if j == Own(my, old(buckets)) then 1 else -1
      ensures rc <= 0 ==> buckets == old(buckets)
      ensures rc > 0 ==>
                && nodes == old(buckets)[j].nodes
                && buckets == Halve(my, old(buckets), j, First(my[..|old(buckets)| - 1] + [true]))
    {
      OursIffHoldsUs(my, buckets, j);
      if !InBucket(my, buckets, j) {
        return -1, [];
      }
      OwnBucketIsOurs(my, buckets);
      var middle := BucketMiddle(buckets, j);
      MiddleHalves(my, buckets, j);
      if middle.None? {
        return -1, [];
      }
      var b := buckets[j];
      nodes := b.nodes;
      var mine := Val(my) < Val(middle.value);
      var upper := Bucket(middle.value, 0, if mine then b.maxCount else Max8(b.maxCount / 2), b.time, [], None);
      var lower := b.(nodes := [], count := 0, cached := None,
                      maxCount := if mine then Max8(b.maxCount / 2) else b.maxCount);
      buckets := buckets[..j] + ([lower] + [upper]) + buckets[j + 1..];
      rc := 1;
    }

    /** Splits bucket j if it is ours, reinserts its nodes, splitting again where they do not fit.
        The ghost arguments are the account of an ongoing new_node: see SplitState. */
    method SplitBucket(j: nat, ghost k: nat, ghost before: multiset<Node>, ghost lost: multiset<Node>)
      returns (rc: int, ghost discarded: multiset<Node>)
      requires SplitState(my, k, before, buckets, [], None, lost) && j < |buckets|
      requires j == Own(my, buckets) ==> |buckets| <= MAX_DEPTH
      modifies this`buckets
      ensures rc == if j == Own(my, old(buckets)) then 1 else -1
      ensures rc < 0 ==> buckets == old(buckets) && discarded == lost
      ensures rc > 0 ==> |buckets| > |old(buckets)|
      ensures SplitState(my, k, before, buckets, [], None, discarded)
    {
      discarded := lost;
      ghost var bs := buckets;
      var nodes;
      rc, nodes := SplitBucketHelper(j);
      if rc < 0 {
        return -1, discarded;
      }
      assert j == Own(my, bs);
      assert [] + bs[j].nodes == nodes;
      Halved(my, k, before, bs, [], None, discarded, j, buckets, nodes);
      discarded := ReinsertAll(k, before, nodes, discarded);
      rc := 1;
    }

    /** The loop of split_bucket. */
    method ReinsertAll(ghost k: nat, ghost before: multiset<Node>, nodes: seq<Node>, ghost lost: multiset<Node>)
      returns (ghost discarded: multiset<Node>)
      requires SplitState(my, k, before, buckets, nodes, None, lost)
      modifies this`buckets
      ensures |buckets| >= |old(buckets)|
      ensures SplitState(my, k, before, buckets, [], None, discarded)
    {
      ghost var size := |buckets|;
      discarded := lost;
      var rest := nodes;
      var n: Option<Node> := None;
      while n.Some? || rest != []
        invariant |buckets| >= size
        invariant SplitState(my, k, before, buckets, rest, n, discarded)
        decreases ID_BITS - |buckets|, |rest| + (if n.Some? then 1 else 0)
      {
        if n.None? {
          TakeNext(my, k, before, buckets, rest, discarded);
          n := Some(rest[0]);
          rest := rest[1..];
        }
        n, rest, discarded := Reinsert(k, before, rest, n.value, discarded);
      }
    }

    /** One turn of the loop of split_bucket with node n in hand. */
    method Reinsert(ghost k: nat, ghost before: multiset<Node>, nodes: seq<Node>, n: Node,
                    ghost discarded: multiset<Node>)
      returns (n': Option<Node>, nodes': seq<Node>, ghost discarded': multiset<Node>)
      requires SplitState(my, k, before, buckets, nodes, Some(n), discarded)
      modifies this`buckets
      ensures SplitState(my, k, before, buckets, nodes', n', discarded')
      ensures |buckets| >= |old(buckets)|
      ensures |buckets| == |old(buckets)| ==> n' == None && nodes' == nodes
    {
      ghost var bs := buckets;
      var rc, split := InsertNode(n);
      if rc > 0 {
        Placed(my, k, before, bs, nodes, n, discarded, split, buckets);
        return None, nodes, discarded;
      }
      n', nodes', discarded' := NoSpace(k, before, nodes, n, discarded, split);
    }

    /** The rest of the turn when the node's bucket is full: drop the node, or split our bucket again. */
    method NoSpace(ghost k: nat, ghost before: multiset<Node>, nodes: seq<Node>, n: Node,
                   ghost discarded: multiset<Node>, split: nat)
      returns (n': Option<Node>, nodes': seq<Node>, ghost discarded': multiset<Node>)
      requires SplitState(my, k, before, buckets, nodes, Some(n), discarded)
      requires split < |buckets| && Spot(my, buckets, split) <= n.id
      requires buckets[split].count >= buckets[split].maxCount
      modifies this`buckets
      ensures SplitState(my, k, before, buckets, nodes', n', discarded')
      ensures |buckets| >= |old(buckets)|
      ensures |buckets| == |old(buckets)| ==> n' == None && nodes' == nodes
    {
      OursIffHoldsUs(my, buckets, split);
      if !InBucket(my, buckets, split) {
        Dropped(my, k, before, buckets, nodes, n, discarded, split);
        return None, nodes, discarded + multiset{n};
      }
      FullOwnBucketIsShallow(my, buckets, split);
      nodes' := SplitAgain(k, before, nodes, n, discarded, split);
      return Some(n), nodes', discarded;
    }

    /** The node's bucket is full and ours: it is split, and its nodes are to be inserted again. */
    method SplitAgain(ghost k: nat, ghost before: multiset<Node>, nodes: seq<Node>, n: Node,
                      ghost discarded: multiset<Node>, split: nat)
      returns (nodes': seq<Node>)
      requires SplitState(my, k, before, buckets, nodes, Some(n), discarded)
      requires |buckets| <= MAX_DEPTH && split == Own(my, buckets)
      modifies this`buckets
      ensures SplitState(my, k, before, buckets, nodes', Some(n), discarded)
      ensures |buckets| > |old(buckets)|
    {
      ghost var bs := buckets;
      var rc, insert := SplitBucketHelper(split);
      nodes' := nodes + insert;
      Halved(my, k, before, bs, nodes, Some(n), discarded, split, buckets, nodes');
    }

    method ExpireBucket(i: nat)
      requires TableInv(my, buckets) && i < |buckets|
      modifies this`buckets
      ensures TableInv(my, buckets) && buckets == old(buckets)[i := Expired(old(buckets)[i])]
    {
      var b := buckets[i];
      var ns := ExpireList(b.nodes);
      var changed := |ns| < |b.nodes|;
      ExpireOne(my, buckets, i);
      buckets := buckets[i := b.(nodes := ns, count := |ns|, cached := if changed then None else b.cached)];
    }

    /** Purges the nodes that have left four requests unanswered, and no others. */
    method ExpireBuckets()
      requires Valid()
      modifies this`buckets
      ensures Valid()
      ensures |buckets| == |old(buckets)|
      ensures forall i | 0 <= i < |buckets| :: buckets[i] == Expired(old(buckets)[i])
    {
      var i := 0;
      while i < |buckets|
        invariant Valid() && i <= |buckets| == |old(buckets)|
        invariant forall m | 0 <= m < i :: buckets[m] == Expired(old(buckets)[m])
        invariant forall m | i <= m < |buckets| :: buckets[m] == old(buckets)[m]
      {
        ExpireBucket(i);
        i := i + 1;
      }
    }

    /** A request was sent to a known node: its count goes up, and from three on the address its bucket keeps
        is pinged and forgotten. */
    method Pinged(id: Id, now: int) returns (r: Option<Node>, ghost j: nat, ghost m: nat)
      requires Valid()
      modifies this`buckets
      ensures Valid()
      ensures r.None? <==> !Knows(Nodes(old(buckets)), id)
      ensures r.None? ==> buckets == old(buckets)
      ensures r.Some? ==>
                && r.value.id == id && Counted(old(buckets), buckets, j, m, r.value, PingedNode(r.value, now))
                && (old(buckets)[j].cached.Some? ==> (buckets[j].cached == None <==> r.value.pinged >= 2))
    {
      var found, i, l := Locate(id);
      if !found {
        return None, 0, 0;
      }
      r := Some(buckets[i].nodes[l]);
      Count(i, l, PingedNode(buckets[i].nodes[l], now));
      j, m := i, l;
    }

    /** A node sent nonsense: it counts as having left four requests unanswered. */
    method Blacklist(id: Id, now: int) returns (r: Option<Node>, ghost j: nat, ghost m: nat)
      requires Valid()
      modifies this`buckets
      ensures Valid()
      ensures r.None? <==> !Knows(Nodes(old(buckets)), id)
      ensures r.None? ==> buckets == old(buckets)
      ensures r.Some? ==>
                && r.value.id == id
                && Counted(old(buckets), buckets, j, m, r.value, r.value.(pinged := 4, pingedTime := now))
                && buckets[j].cached == None
    {
      var found, i, l := Locate(id);
      if !found {
        return None, 0, 0;
      }
      r := Some(buckets[i].nodes[l]);
      Count(i, l, PingedNode(buckets[i].nodes[l].(pinged := 3), now));
      j, m := i, l;
    }

    /** Changes the count of unanswered requests of node m. */
    method Count(j: nat, m: nat, x: Node)
      requires TableInv(my, buckets) && j < |buckets| && m < |buckets[j].nodes| && x.id == buckets[j].nodes[m].id
      modifies this`buckets
      ensures TableInv(my, buckets) && Counted(old(buckets), buckets, j, m, old(buckets)[j].nodes[m], x)
    {
      ghost var bs := buckets;
      var _ := Overwrite(j, m, x);
      if x.pinged >= 3 {
        ghost var swapped := buckets;
        buckets := buckets[j := buckets[j].(cached := None)];
        StampStep(my, swapped, j, swapped[j].time, None, buckets);
        TwiceUpdated(bs, j, swapped[j], buckets[j]);
      }
    }

    /** We learnt of a node: confirm is 0 for hearsay, 1 for a message from it, 2 for a reply. */
    method NewNode(id: Id, addr: Address, confirm: nat, now: int, banned: bool)
      returns (r: Option<Node>, ghost p: Pass, ghost lost: multiset<Node>)
      requires Valid()
      modifies this
      ensures Valid() && |buckets| >= |old(buckets)|
      ensures p.outcome.Ignored? <==> old(buckets) == [] || id == my || banned
      ensures p.outcome.Ignored? ==> buckets == old(buckets)
      ensures !p.outcome.Ignored? ==>
                Settled(my, |old(buckets)| - 1, Nodes(old(buckets)), p, buckets, lost, id, addr, confirm, now, r)
      ensures |buckets| == |old(buckets)| ==> lost == multiset{} && p.table == old(buckets)
      ensures |buckets| > |old(buckets)| ==>
                !Knows(Nodes(old(buckets)), id) && MustSplit(my, old(buckets), now)
      ensures Returned(Nodes(old(buckets)), p, buckets, id, addr, confirm, now, r)
      ensures p.outcome.Ignored? ==> growTime == old(growTime)
      ensures !p.outcome.Ignored? ==>
                growTime == if |buckets| > |old(buckets)| then now else Grown(my, p, old(growTime), now)
    {
      if buckets == [] || id == my || banned {
        return None, Pass(buckets, 0, Ignored), multiset{};
      }
      r, p, lost := Repeat(id, addr, confirm, now);
    }

    /** The `goto again` loop: our bucket is split as often as needed. */
    method Repeat(id: Id, addr: Address, confirm: nat, now: int)
      returns (r: Option<Node>, ghost p: Pass, ghost lost: multiset<Node>)
      requires TableInv(my, buckets) && id != my
      modifies this
      ensures Settled(my, |old(buckets)| - 1, Nodes(old(buckets)), p, buckets, lost, id, addr, confirm, now, r)
      ensures |buckets| >= |old(buckets)|
      ensures |buckets| == |old(buckets)| ==> lost == multiset{} && p.table == old(buckets)
      ensures |buckets| > |old(buckets)| ==>
                !Knows(Nodes(old(buckets)), id) && MustSplit(my, old(buckets), now)
      ensures Returned(Nodes(old(buckets)), p, buckets, id, addr, confirm, now, r)
      ensures growTime == if |buckets| > |old(buckets)| then now else Grown(my, p, old(growTime), now)
    {
      ghost var k, before, start := |buckets| - 1, Nodes(buckets), buckets;
      lost := multiset{};
      StartState(my, buckets);
      var again := true;
      r, p := None, Pass([], 0, Ignored);
      while again
        invariant again ==> SplitState(my, k, before, buckets, [], None, lost)
        invariant !again ==> Settled(my, k, before, p, buckets, lost, id, addr, confirm, now, r)
        invariant |buckets| >= k + 1
        invariant |buckets| == k + 1 ==> lost == multiset{} && (if again then buckets else p.table) == start
        invariant |buckets| > k + 1 ==> !Knows(before, id) && MustSplit(my, start, now)
        invariant |buckets| > k + 1 ==> growTime == now
        invariant |buckets| == k + 1 ==>
                    growTime == if again then old(growTime) else Grown(my, p, old(growTime), now)
        decreases again, ID_BITS - |buckets|
      {
        r, p, again, lost := OnePass(k, before, lost, id, addr, confirm, now);
      }
      SettledIsTold(my, k, before, p, buckets, lost, id, addr, confirm, now, r);
    }

    /** From the label `again` to the goto: place the node, or split our bucket. */
    method OnePass(ghost k: nat, ghost before: multiset<Node>, ghost lost: multiset<Node>,
                   id: Id, addr: Address, confirm: nat, now: int)
      returns (r: Option<Node>, ghost p: Pass, again: bool, ghost lost': multiset<Node>)
      requires SplitState(my, k, before, buckets, [], None, lost) && id != my
      modifies this
      ensures again ==>
                && SplitState(my, k, before, buckets, [], None, lost')
                && |buckets| > |old(buckets)|
                && !Knows(Nodes(old(buckets)), id) && MustSplit(my, old(buckets), now)
      ensures !again ==>
                && lost' == lost && p.table == old(buckets)
                && Settled(my, k, before, p, buckets, lost, id, addr, confirm, now, r)
      ensures !again ==> |buckets| == |old(buckets)|
      ensures growTime == if again then now else Grown(my, p, old(growTime), now)
    {
      ghost var bs := buckets;
      var h := FindBucket(id);
      ghost var o;
      r, o, again := PlaceIn(h.value, id, addr, confirm, now);
      p := Pass(bs, h.value, o);
      if !again {
        Finished(my, k, before, bs, buckets, lost);
        return r, p, false, lost;
      }
      lost' := SplitOurs(h.value, k, before, bs, lost, now);
    }

    /** The goto again: our bucket j, full of good nodes, is split. */
    method SplitOurs(j: nat, ghost k: nat, ghost before: multiset<Node>, ghost bs: seq<Bucket>,
                     ghost lost: multiset<Node>, ghost now: int)
      returns (ghost lost': multiset<Node>)
      requires SplitState(my, k, before, bs, [], None, lost) && Step(my, bs, buckets) && Nodes(buckets) == Nodes(bs)
      requires j == Own(my, buckets) && MustSplit(my, buckets, now)
      modifies this`buckets
      ensures SplitState(my, k, before, buckets, [], None, lost') && |buckets| > |bs|
    {
      StepKeepsSplit(my, k, before, bs, buckets, lost);
      FullOwnBucketIsShallow(my, buckets, j);
      var rc;
      rc, lost' := SplitBucket(j, k, before, lost);
    }

    /** One pass of new_node over the bucket that covers the id; again means: split it and repeat. */
    method PlaceIn(j: nat, id: Id, addr: Address, confirm: nat, now: int)
      returns (r: Option<Node>, ghost o: Outcome, again: bool)
      requires TableInv(my, buckets) && j < |buckets| && Spot(my, buckets, j) <= id && id != my
      modifies this
      ensures Step(my, old(buckets), buckets)
      ensures again ==>
                && Nodes(buckets) == Nodes(old(buckets)) && !Knows(Nodes(buckets), id)
                && j == Own(my, buckets) && MustSplit(my, buckets, now) && MustSplit(my, old(buckets), now)
      ensures !again ==> PlacedOk(my, Pass(old(buckets), j, o), buckets, id, addr, confirm, now, r)
      ensures growTime == if again then now else Grown(my, Pass(old(buckets), j, o), old(growTime), now)
    {
      ghost var bs := buckets;
      Stamp(j, confirm, now);
      ghost var stamped := buckets;
      SameSpots(my, bs, stamped, j);
      var m := IndexOf(buckets[j].nodes, id);
      if m < |buckets[j].nodes| {
        r, o := Update(j, m, addr, confirm, now);
        again := false;
      } else {
        UnknownInHomeIsUnknown(my, buckets, j, id);
        r, o, again := AddUnknown(j, id, addr, confirm, now);
      }
      StepTrans(my, bs, stamped, buckets);
      if again {
        StampedSplit(my, bs, stamped, j, confirm, now);
      } else {
        StampedChange(my, bs, stamped, buckets, j, id, addr, confirm, now, o, r);
      }
    }

    /** Node m is the one we heard of. */
    method Update(j: nat, m: nat, addr: Address, confirm: nat, now: int)
      returns (r: Option<Node>, ghost o: Outcome)
      requires TableInv(my, buckets) && j < |buckets| && m < |buckets[j].nodes|
      modifies this`buckets
      ensures Step(my, old(buckets), buckets) && o.Refreshed?
      ensures Change(my, old(buckets), buckets, j, old(buckets)[j].nodes[m].id, addr, confirm, now, o, r)
      ensures buckets[j].time == old(buckets)[j].time
    {
      var n := buckets[j].nodes[m];
      ListedIsHome(my, buckets, j, m);
      r := Overwrite(j, m, Refresh(n, addr, confirm, now));
      o := Refreshed(m, n, r.value);
    }

    /** A reply dates the bucket. */
    method Stamp(j: nat, confirm: nat, now: int)
      requires TableInv(my, buckets) && j < |buckets|
      modifies this`buckets
      ensures Step(my, old(buckets), buckets) && Nodes(buckets) == Nodes(old(buckets))
      ensures buckets == old(buckets)[j := Dated(old(buckets)[j], confirm, now)]
    {
      var time := if confirm == 2 then now else buckets[j].time;
      var r := buckets[j := buckets[j].(time := time)];
      StampStep(my, buckets, j, time, buckets[j].cached, r);
      buckets := r;
    }

    method Overwrite(j: nat, m: nat, x: Node) returns (r: Option<Node>)
      requires TableInv(my, buckets) && j < |buckets| && m < |buckets[j].nodes|
      requires x.id == buckets[j].nodes[m].id
            || (!Knows(Nodes(buckets), x.id) && x.id != my && Spot(my, buckets, j) <= x.id)
      modifies this`buckets
      ensures Step(my, old(buckets), buckets) && r == Some(x)
      ensures Nodes(buckets) == Nodes(old(buckets)) - multiset{old(buckets)[j].nodes[m]} + multiset{x}
      ensures buckets == old(buckets)[j := old(buckets)[j].(nodes := old(buckets)[j].nodes[m := x])]
      ensures SamePlace(old(buckets)[j], buckets[j])
    {
      var bs := buckets[j := buckets[j].(nodes := buckets[j].nodes[m := x])];
      SwapStep(my, buckets, j, m, x, bs);
      buckets := bs;
      return Some(x);
    }

    /** The part of new_node for a node that its bucket does not list. */
    method AddUnknown(j: nat, id: Id, addr: Address, confirm: nat, now: int)
      returns (r: Option<Node>, ghost o: Outcome, again: bool)
      requires TableInv(my, buckets) && j < |buckets| && Spot(my, buckets, j) <= id && id != my
      requires !Lists(buckets[j].nodes, id) && !Knows(Nodes(buckets), id)
      modifies this
      ensures Step(my, old(buckets), buckets)
      ensures again ==> buckets == old(buckets) && j == Own(my, buckets) && MustSplit(my, buckets, now)
      ensures !again ==>
                && Change(my, old(buckets), buckets, j, id, addr, confirm, now, o, r)
                && buckets[j].time == old(buckets)[j].time
      ensures !o.Refreshed?
      ensures growTime == if j == Own(my, old(buckets)) then now else old(growTime)
    {
      OursIffHoldsUs(my, buckets, j);
      var mybucket := InBucket(my, buckets, j);
      if mybucket {
        growTime := now;
      }
      var m := FindReplaceable(buckets[j].nodes, now);
      if m < |buckets[j].nodes| {
        r, o := Replace(j, m, id, addr, confirm, now);
        return r, o, false;
      }
      if buckets[j].count >= buckets[j].maxCount {
        again, o := BucketFull(j, id, addr, confirm, now, mybucket);
        return None, o, again;
      }
      r, o := Push(j, id, addr, confirm, now);
      again := false;
    }

    /** The first bad node makes room. */
    method Replace(j: nat, m: nat, id: Id, addr: Address, confirm: nat, now: int)
      returns (r: Option<Node>, ghost o: Outcome)
      requires TableInv(my, buckets) && j < |buckets| && Spot(my, buckets, j) <= id && id != my
      requires !Lists(buckets[j].nodes, id) && !Knows(Nodes(buckets), id)
      requires m < |buckets[j].nodes| && FirstReplaceable(buckets[j].nodes, m, now)
      modifies this`buckets
      ensures Step(my, old(buckets), buckets) && o.Replaced?
      ensures Change(my, old(buckets), buckets, j, id, addr, confirm, now, o, r)
      ensures buckets[j].time == old(buckets)[j].time
    {
      ghost var bs := buckets;
      o := Replaced(m, buckets[j].nodes[m], Fresh(id, addr, confirm, now));
      r := Overwrite(j, m, Fresh(id, addr, confirm, now));
      ReplaceChange(my, bs, buckets, j, m, id, addr, confirm, now, o, r);
    }

    method Push(j: nat, id: Id, addr: Address, confirm: nat, now: int)
      returns (r: Option<Node>, ghost o: Outcome)
      requires TableInv(my, buckets) && j < |buckets| && Spot(my, buckets, j) <= id && id != my
      requires !Lists(buckets[j].nodes, id) && !Knows(Nodes(buckets), id)
      requires buckets[j].count < buckets[j].maxCount
      requires FirstReplaceable(buckets[j].nodes, |buckets[j].nodes|, now)
      modifies this`buckets
      ensures Step(my, old(buckets), buckets) && o.Added?
      ensures Change(my, old(buckets), buckets, j, id, addr, confirm, now, o, r)
      ensures buckets[j].time == old(buckets)[j].time
    {
      var n := Fresh(id, addr, confirm, now);
      var bs := buckets[j := buckets[j].(nodes := [n] + buckets[j].nodes, count := buckets[j].count + 1)];
      PushChange(my, buckets, j, n, addr, confirm, now, bs);
      buckets := bs;
      r, o := Some(n), Added(n);
    }

    /** A full bucket: ping its first dubious node, or have it split, or remember the address. */
    method BucketFull(j: nat, ghost id: Id, addr: Address, confirm: nat, now: int, mybucket: bool)
      returns (again: bool, ghost o: Outcome)
      requires TableInv(my, buckets) && j < |buckets| && Spot(my, buckets, j) <= id
      requires !Lists(buckets[j].nodes, id) && mybucket == (j == Own(my, buckets))
      requires buckets[j].count >= buckets[j].maxCount
      requires FirstReplaceable(buckets[j].nodes, |buckets[j].nodes|, now)
      modifies this`buckets
      ensures Step(my, old(buckets), buckets) && (o.NoRoom? || o.NoRoomPinged?)
      ensures again ==> buckets == old(buckets) && mybucket && MustSplit(my, buckets, now)
      ensures !again ==>
                && Change(my, old(buckets), buckets, j, id, addr, confirm, now, o, None)
                && buckets[j].time == old(buckets)[j].time
    {
      var dubious, m := FindDubious(buckets[j].nodes, now);
      if mybucket && !dubious {
        return true, NoRoom;
      }
      FullCount(my, buckets, j);
      again := false;
      if m < |buckets[j].nodes| {
        o := PingAndCache(j, m, id, addr, confirm, now);
      } else {
        o := NoRoom;
        Cache(j, addr, confirm);
      }
    }

    /** Sends a ping to node m, counts it, and remembers the address of the node there was no room for. */
    method PingAndCache(j: nat, m: nat, ghost id: Id, addr: Address, confirm: nat, now: int)
      returns (ghost o: Outcome)
      requires TableInv(my, buckets) && j < |buckets| && Spot(my, buckets, j) <= id
      requires NoPlace(buckets[j].nodes, buckets[j].maxCount, j == Own(my, buckets), id, now)
      requires m < |buckets[j].nodes| && FirstPingable(buckets[j].nodes, m, now)
      modifies this`buckets
      ensures Step(my, old(buckets), buckets) && o.NoRoomPinged?
      ensures Change(my, old(buckets), buckets, j, id, addr, confirm, now, o, None)
      ensures buckets[j].time == old(buckets)[j].time
    {
      ghost var bs := buckets;
      o := NoRoomPinged(m, buckets[j].nodes[m]);
      var _ := Overwrite(j, m, PingedNode(buckets[j].nodes[m], now));
      ghost var pinged := buckets;
      Cache(j, addr, confirm);
      StepTrans(my, bs, pinged, buckets);
      PingChange(my, bs, pinged, buckets, j, m, id, addr, confirm, now, o);
    }

    /** Remembers the address of a node there was no room for. */
    method Cache(j: nat, addr: Address, confirm: nat)
      requires TableInv(my, buckets) && j < |buckets|
      modifies this`buckets
      ensures Step(my, old(buckets), buckets) && Nodes(buckets) == Nodes(old(buckets))
      ensures buckets == old(buckets)[j := old(buckets)[j].(
                cached := Kept(old(buckets)[j].cached, NoRoom, addr, confirm))]
      ensures SamePlace(old(buckets)[j], buckets[j])
    {
      var cached := if confirm != 0 || buckets[j].cached == None then Some(addr) else buckets[j].cached;
      var bs := buckets[j := buckets[j].(cached := cached)];
      StampStep(my, buckets, j, buckets[j].time, cached, bs);
      buckets := bs;
    }
  }

  lemma TwiceUpdated<T>(s: seq<T>, j: nat, x: T, y: T)
    requires j < |s|
    ensures s[j := x][j := y] == s[j := y]
  {
  }

  function Dated(b: Bucket, confirm: nat, now: int): Bucket {
    b.(time := if confirm == 2 then now else b.time)
  }

  /** What a pass does to the dated table is what it does to the table it found. */
  lemma StampedChange(my: Id, bs: seq<Bucket>, stamped: seq<Bucket>, bs': seq<Bucket>, j: nat, id: Id, addr: Address,
                      confirm: nat, now: int, o: Outcome, r: Option<Node>)
    requires TableInv(my, bs) && j < |bs| && stamped == bs[j := Dated(bs[j], confirm, now)]
    requires Nodes(stamped) == Nodes(bs) && (o.Refreshed? || !Knows(Nodes(bs), id))
    requires Change(my, stamped, bs', j, id, addr, confirm, now, o, r) && bs'[j].time == stamped[j].time
    ensures PlacedOk(my, Pass(bs, j, o), bs', id, addr, confirm, now, r)
  {
    SameChange(my, bs, stamped, bs', j, id, addr, confirm, now, o, r);
  }

  lemma SameChange(my: Id, bs: seq<Bucket>, stamped: seq<Bucket>, bs': seq<Bucket>, j: nat, id: Id, addr: Address,
                   confirm: nat, now: int, o: Outcome, r: Option<Node>)
    requires 1 <= |bs| <= ID_BITS + 1 && j < |bs| && stamped == bs[j := Dated(bs[j], confirm, now)]
    requires Nodes(stamped) == Nodes(bs) && Change(my, stamped, bs', j, id, addr, confirm, now, o, r)
    ensures Change(my, bs, bs', j, id, addr, confirm, now, o, r)
  {
    TwiceUpdated(bs, j, stamped[j], bs'[j]);
    assert stamped[j].nodes == bs[j].nodes && stamped[j].maxCount == bs[j].maxCount;
    SameSpots(my, stamped, bs, j);
  }

  lemma ReplaceChange(my: Id, bs: seq<Bucket>, bs': seq<Bucket>, j: nat, m: nat, id: Id, addr: Address,
                      confirm: nat, now: int, o: Outcome, r: Option<Node>)
    requires 1 <= |bs| <= ID_BITS + 1 && j < |bs| && m < |bs[j].nodes| && Spot(my, bs, j) <= id
    requires bs' == bs[j := bs[j].(nodes := bs[j].nodes[m := Fresh(id, addr, confirm, now)])]
    requires SamePlace(bs[j], bs'[j]) && !Lists(bs[j].nodes, id) && FirstReplaceable(bs[j].nodes, m, now)
    requires o == Replaced(m, bs[j].nodes[m], Fresh(id, addr, confirm, now)) && r == Some(o.added)
    requires Nodes(bs') == After(Nodes(bs), o, now)
    ensures Change(my, bs, bs', j, id, addr, confirm, now, o, r) && bs'[j].time == bs[j].time
  {
  }

  lemma PingChange(my: Id, bs: seq<Bucket>, pinged: seq<Bucket>, bs': seq<Bucket>, j: nat, m: nat, id: Id,
                   addr: Address, confirm: nat, now: int, o: Outcome)
    requires 1 <= |bs| <= ID_BITS + 1 && j < |bs| && m < |bs[j].nodes| && Spot(my, bs, j) <= id
    requires NoPlace(bs[j].nodes, bs[j].maxCount, j == Own(my, bs), id, now)
    requires FirstPingable(bs[j].nodes, m, now) && o == NoRoomPinged(m, bs[j].nodes[m])
    requires pinged == bs[j := bs[j].(nodes := bs[j].nodes[m := PingedNode(bs[j].nodes[m], now)])]
    requires bs' == pinged[j := pinged[j].(cached := Kept(pinged[j].cached, NoRoom, addr, confirm))]
    requires SamePlace(pinged[j], bs'[j]) && Nodes(bs') == After(Nodes(bs), o, now)
    ensures Change(my, bs, bs', j, id, addr, confirm, now, o, None) && bs'[j].time == bs[j].time
  {
    TwiceUpdated(bs, j, pinged[j], bs'[j]);
  }

  lemma StampedSplit(my: Id, bs: seq<Bucket>, stamped: seq<Bucket>, j: nat, confirm: nat, now: int)
    requires 1 <= |bs| <= ID_BITS + 1 && j < |bs| && stamped == bs[j := Dated(bs[j], confirm, now)]
    requires j == Own(my, stamped) && MustSplit(my, stamped, now)
    ensures MustSplit(my, bs, now)
  {
    SameSpots(my, stamped, bs, j);
  }

  lemma PushChange(my: Id, bs: seq<Bucket>, j: nat, n: Node, addr: Address, confirm: nat, now: int,
                   r: seq<Bucket>)
    requires TableInv(my, bs) && j < |bs| && Spot(my, bs, j) <= n.id && n.id != my
    requires !Lists(bs[j].nodes, n.id) && !Knows(Nodes(bs), n.id) && n == Fresh(n.id, addr, confirm, now)
    requires bs[j].count < bs[j].maxCount && FirstReplaceable(bs[j].nodes, |bs[j].nodes|, now)
    requires r == bs[j := Pushed(bs[j], n)]
    ensures Step(my, bs, r) && r[j].time == bs[j].time
    ensures Change(my, bs, r, j, n.id, addr, confirm, now, Added(n), Some(n))
  {
    assert SpotOk(my, bs, j);
    PushStep(my, bs, j, n, r);
    PushedIs(bs[j], r[j], j == Own(my, bs), n, addr, confirm, now);
  }

  lemma PushedIs(b: Bucket, c: Bucket, ours: bool, n: Node, addr: Address, confirm: nat, now: int)
    requires c == Pushed(b, n) && b.count == |b.nodes| < b.maxCount && FirstReplaceable(b.nodes, |b.nodes|, now)
    requires !Lists(b.nodes, n.id) && n == Fresh(n.id, addr, confirm, now)
    ensures OutcomeOk(b.nodes, b.maxCount, c.nodes, ours, n.id, addr, confirm, now, Added(n), Some(n))
    ensures c.cached == Kept(b.cached, Added(n), addr, confirm) && c.time == b.time
  {
  }

  /** Node was of bucket j became x, and the bucket forgot its address if x has three requests unanswered;
      nothing else changed. */
  ghost predicate Counted(bs: seq<Bucket>, bs': seq<Bucket>, j: nat, m: nat, was: Node, x: Node) {
    && j < |bs| && m < |bs[j].nodes| && bs[j].nodes[m] == was
    && bs' == bs[j := bs[j].(nodes := bs[j].nodes[m := x], cached := if x.pinged >= 3 then None else bs[j].cached)]
    && Nodes(bs') == Nodes(bs) - multiset{was} + multiset{x}
  }

  lemma ListedIsKnown(bs: seq<Bucket>, j: nat, m: nat)
    requires j < |bs| && m < |bs[j].nodes|
    ensures bs[j].nodes[m] in Nodes(bs) && Knows(Nodes(bs), bs[j].nodes[m].id)
  {
    NodesOfBucket(bs, j);
    assert bs[j].nodes[m] in multiset(bs[j].nodes);
  }

  lemma ListedIsHome(my: Id, bs: seq<Bucket>, j: nat, m: nat)
    requires Shaped(my, bs) && j < |bs| && m < |bs[j].nodes|
    ensures Spot(my, bs, j) <= bs[j].nodes[m].id
  {
    assert SpotOk(my, bs, j);
    assert bs[j].nodes[m] in bs[j].nodes;
  }

  /** A node with four requests unanswered, such as a blacklisted one, is gone after the next expiry. */
  lemma BadNodeExpires(my: Id, bs: seq<Bucket>, bs': seq<Bucket>, j: nat, m: nat)
    requires TableInv(my, bs) && j < |bs| && m < |bs[j].nodes| && bs[j].nodes[m].pinged >= 4
    requires |bs'| == |bs| && forall i | 0 <= i < |bs| :: bs'[i] == Expired(bs[i])
    ensures !Knows(Nodes(bs'), bs[j].nodes[m].id)
  {
    var n := bs[j].nodes[m];
    forall x | x in Nodes(bs') ensures x.id != n.id {
      NodeHasBucket(bs', x);
      var i :| 0 <= i < |bs'| && x in bs'[i].nodes;
      SurvivorWasListed(bs, i, x);
      ListedIsKnown(bs, j, m);
    }
  }

  /** Expiry takes the nodes with four requests unanswered out of the table, and no others. */
  lemma ExpiryKeepsExactly(bs: seq<Bucket>, bs': seq<Bucket>)
    requires |bs'| == |bs| && forall i | 0 <= i < |bs| :: bs'[i] == Expired(bs[i])
    ensures forall n :: n in Nodes(bs') <==> n in Nodes(bs) && n.pinged < 4
  {
    forall n | n in Nodes(bs') ensures n in Nodes(bs) && n.pinged < 4 {
      NodeHasBucket(bs', n);
      var i :| 0 <= i < |bs'| && n in bs'[i].nodes;
      SurvivorWasListed(bs, i, n);
    }
    forall n | n in Nodes(bs) && n.pinged < 4 ensures n in Nodes(bs') {
      ListedSurvives(bs, bs', n);
    }
  }

  lemma ListedSurvives(bs: seq<Bucket>, bs': seq<Bucket>, n: Node)
    requires |bs'| == |bs| && forall i | 0 <= i < |bs| :: bs'[i] == Expired(bs[i])
    requires n in Nodes(bs) && n.pinged < 4
    ensures n in Nodes(bs')
  {
    NodeHasBucket(bs, n);
    var i :| 0 <= i < |bs| && n in bs[i].nodes;
    AliveAre(bs[i].nodes);
    assert n in bs'[i].nodes;
    var l :| 0 <= l < |bs'[i].nodes| && bs'[i].nodes[l] == n;
    ListedIsKnown(bs', i, l);
  }

  /** A bucket that loses nobody stays as it is; one that does forgets its cached address. */
  lemma ExpiryForgets(b: Bucket)
    requires b.count == |b.nodes|
    ensures (forall n | n in b.nodes :: n.pinged < 4) ==> Expired(b) == b
    ensures (exists n :: n in b.nodes && n.pinged >= 4) ==> Expired(b).cached == None && Expired(b).count < b.count
  {
    AliveAre(b.nodes);
    if n :| n in b.nodes && n.pinged >= 4 {
      AliveShrinks(b.nodes);
      FewerUnlessEqual(Alive(b.nodes), b.nodes, n);
    } else {
      AliveAll(b.nodes);
    }
  }

  lemma FewerUnlessEqual(a: seq<Node>, b: seq<Node>, n: Node)
    requires multiset(a) <= multiset(b) && n in b && n !in a
    ensures |a| < |b|
  {
    assert multiset(a) <= multiset(b) - multiset{n};
    assert |multiset(a)| <= |multiset(b) - multiset{n}| by {
      assert multiset(b) - multiset{n} == multiset(a) + (multiset(b) - multiset{n} - multiset(a));
    }
  }

  /** A node that has just replied survives the next expiry. */
  lemma ReplySurvivesExpiry(before: multiset<Node>, p: Pass, bs: seq<Bucket>, bs': seq<Bucket>, id: Id, addr: Address,
                            confirm: nat, now: int, n: Node)
    requires Returned(before, p, bs, id, addr, confirm, now, Some(n)) && confirm >= 2
    requires |bs'| == |bs| && forall i | 0 <= i < |bs| :: bs'[i] == Expired(bs[i])
    ensures n in Nodes(bs') && Good(n, now)
  {
    var m :| 0 <= m < |bs[p.home].nodes| && bs[p.home].nodes[m] == n;
    ListedIsKnown(bs, p.home, m);
    ExpiryKeepsExactly(bs, bs');
  }

  lemma SurvivorWasListed(bs: seq<Bucket>, i: nat, x: Node)
    requires i < |bs| && x in Alive(bs[i].nodes)
    ensures x in Nodes(bs) && x.pinged < 4
  {
    AliveAre(bs[i].nodes);
    var l :| 0 <= l < |bs[i].nodes| && bs[i].nodes[l] == x;
    ListedIsKnown(bs, i, l);
  }

  lemma FullCount(my: Id, bs: seq<Bucket>, j: nat)
    requires TableInv(my, bs) && j < |bs| && bs[j].count >= bs[j].maxCount
    ensures |bs[j].nodes| == bs[j].maxCount
  {
    assert SpotOk(my, bs, j);
  }

  /** Before the first split everything is in the table. */
  lemma StartState(my: Id, bs: seq<Bucket>)
    requires TableInv(my, bs)
    ensures SplitState(my, |bs| - 1, Nodes(bs), bs, [], None, multiset{})
  {
    assert Nodes(bs) == Nodes(bs) + ((multiset([]) + Held(None)) + multiset{});
  }

  lemma StepKeepsSplit(my: Id, k: nat, before: multiset<Node>, bs: seq<Bucket>, bs': seq<Bucket>,
                       lost: multiset<Node>)
    requires SplitState(my, k, before, bs, [], None, lost)
    requires Step(my, bs, bs') && Nodes(bs') == Nodes(bs)
    ensures SplitState(my, k, before, bs', [], None, lost)
  {
  }

  lemma Finished(my: Id, k: nat, before: multiset<Node>, bs: seq<Bucket>, bs': seq<Bucket>,
                 lost: multiset<Node>)
    requires SplitState(my, k, before, bs, [], None, lost)
    requires Step(my, bs, bs')
    ensures lost <= before && Nodes(bs) == before - lost && k < ID_BITS
    ensures forall x | x in lost :: my[..k] <= x.id && ClosedTo(my, bs', x.id)
  {
    assert (multiset([]) + Held(None)) + lost == lost;
  }

  method FindReplaceable(ns: seq<Node>, now: int) returns (m: nat)
    ensures FirstReplaceable(ns, m, now)
  {
    m := 0;
    while m < |ns| && !Replaceable(ns[m], now)
      invariant m <= |ns| && forall i | 0 <= i < m :: !Replaceable(ns[i], now)
    {
      m := m + 1;
    }
  }

  /** Is there a node that is not good, and which is the first such node to ping? */
  method FindDubious(ns: seq<Node>, now: int) returns (dubious: bool, m: nat)
    ensures dubious <==> exists n :: n in ns && !Good(n, now)
    ensures FirstPingable(ns, m, now)
  {
    dubious, m := false, 0;
    while m < |ns|
      invariant m <= |ns|
      invariant dubious <==> exists i :: 0 <= i < m && !Good(ns[i], now)
      invariant forall i | 0 <= i < m :: !Pingable(ns[i], now)
    {
      if !Good(ns[m], now) {
        dubious := true;
        if ns[m].pingedTime < now - 15 {
          break;
        }
      }
      m := m + 1;
    }
  }

  lemma FirstBucketStartsAtZero(my: Id, bs: seq<Bucket>)
    requires Shaped(my, bs)
    ensures Val(bs[0].first) == 0
  {
    assert SpotOk(my, bs, 0);
    ShapeRanges(my, |bs| - 1, Pow2(|my|));
  }

  /** Position of the node with this id in a list, or its length. */
  method IndexOf(ns: seq<Node>, id: Id) returns (m: nat)
    ensures m <= |ns| && (m < |ns| ==> ns[m].id == id)
    ensures forall i | 0 <= i < m :: ns[i].id != id
  {
    m := 0;
    while m < |ns| && ns[m].id != id
      invariant m <= |ns| && forall i | 0 <= i < m :: ns[i].id != id
    {
      m := m + 1;
    }
  }
}
