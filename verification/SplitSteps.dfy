/** What the loop of split_bucket keeps: where the nodes of the split bucket are at any moment. */
module SplitSteps {
  import opened Wrappers
  import opened Ids
  import opened BucketTree
  import opened RoutingTable

  function Held(n: Option<Node>): multiset<Node> {
    match n
    case None => multiset{}
    case Some(x) => multiset{x}
  }

  /** Every node there was before is in the table, waiting, in hand, or was discarded. Only nodes
      below my[..k], the bucket that was split first, are moved; and whatever was discarded belongs
      to a full bucket that is not ours. */
  ghost predicate SplitState(my: Id, k: nat, before: multiset<Node>, bs: seq<Bucket>,
                             pending: seq<Node>, n: Option<Node>, discarded: multiset<Node>) {
    && TableInv(my, bs)
    && k < |bs|
    && UniqueIds(before) && !Knows(before, my)
    && before == Nodes(bs) + ((multiset(pending) + Held(n)) + discarded)
    && (forall x | x in pending :: my[..k] <= x.id)
    && (n.Some? ==> my[..k] <= n.value.id)
    && (forall x | x in discarded :: my[..k] <= x.id && ClosedTo(my, bs, x.id))
  }

  /** A node outside the table has an id the table does not know. */
  lemma OutsideIsUnknown(before: multiset<Node>, inside: multiset<Node>, outside: multiset<Node>, n: Node)
    requires UniqueIds(before) && before == inside + outside && n in outside
    ensures !Knows(inside, n.id) && n in before
  {
    forall x | x in inside ensures x.id != n.id {
      assert x in before && n in before;
      assert before[n] == inside[n] + outside[n];
    }
  }

  lemma TakeNext(my: Id, k: nat, before: multiset<Node>, bs: seq<Bucket>, pending: seq<Node>, discarded: multiset<Node>)
    requires SplitState(my, k, before, bs, pending, None, discarded) && pending != []
    ensures SplitState(my, k, before, bs, pending[1..], Some(pending[0]), discarded)
  {
    assert pending == [pending[0]] + pending[1..];
    assert pending[0] in pending;
    assert multiset(pending) + Held(None) == multiset(pending[1..]) + Held(Some(pending[0]));
  }

  lemma Placed(my: Id, k: nat, before: multiset<Node>, bs: seq<Bucket>, pending: seq<Node>, n: Node,
               discarded: multiset<Node>, j: nat, r: seq<Bucket>)
    requires SplitState(my, k, before, bs, pending, Some(n), discarded)
    requires j < |bs| && Spot(my, bs, j) <= n.id && bs[j].count < bs[j].maxCount
    requires r == bs[j := Pushed(bs[j], n)]
    ensures SplitState(my, k, before, r, pending, None, discarded)
  {
    OutsideIsUnknown(before, Nodes(bs), (multiset(pending) + Held(Some(n))) + discarded, n);
    PushKeepsTable(my, bs, j, n);
    assert before == Nodes(r) + ((multiset(pending) + Held(None)) + discarded);
    forall x | x in discarded ensures ClosedTo(my, r, x.id) {
      UpdateKeepsClosed(my, bs, j, Pushed(bs[j], n), x.id);
    }
  }

  lemma Dropped(my: Id, k: nat, before: multiset<Node>, bs: seq<Bucket>, pending: seq<Node>, n: Node,
                discarded: multiset<Node>, j: nat)
    requires SplitState(my, k, before, bs, pending, Some(n), discarded)
    requires j < |bs| && Spot(my, bs, j) <= n.id && bs[j].count >= bs[j].maxCount && j != Own(my, bs)
    ensures SplitState(my, k, before, bs, pending, None, discarded + multiset{n})
  {
    assert SpotOk(my, bs, j);
    assert ClosedAt(my, bs, j, n.id);
    assert (multiset(pending) + Held(Some(n))) + discarded
        == (multiset(pending) + Held(None)) + (discarded + multiset{n});
  }

  lemma Halved(my: Id, k: nat, before: multiset<Node>, bs: seq<Bucket>, pending: seq<Node>, n: Option<Node>,
               discarded: multiset<Node>, j: nat, r: seq<Bucket>, pending': seq<Node>)
    requires SplitState(my, k, before, bs, pending, n, discarded)
    requires |bs| <= MAX_DEPTH && j == Own(my, bs)
    requires r == Halve(my, bs, j, First(my[..|bs| - 1] + [true])) && pending' == pending + bs[j].nodes
    ensures SplitState(my, k, before, r, pending', n, discarded) && |r| > |bs|
  {
    var middle, taken := First(my[..|bs| - 1] + [true]), bs[j].nodes;
    OwnBucketIsOurs(my, bs);
    assert SpotOk(my, bs, j);
    assert my[..k] <= my[..|bs| - 1];
    HalveKeepsShape(my, bs, j, middle);
    HalveTakesOut(my, bs, j, middle);
    HalveKeepsUnique(my, Nodes(bs), Nodes(r), multiset(taken));
    forall x | x in discarded ensures ClosedTo(my, r, x.id) {
      HalveKeepsClosed(my, bs, r, j, middle, x.id);
    }
    Rearrange(Nodes(r), multiset(taken), multiset(pending), Held(n), discarded);
    assert multiset(pending + taken) == multiset(pending) + multiset(taken);
  }

  lemma HalveKeepsUnique(my: Id, all: multiset<Node>, rest: multiset<Node>, taken: multiset<Node>)
    requires UniqueIds(all) && !Knows(all, my) && rest + taken == all
    ensures UniqueIds(rest) && !Knows(rest, my)
  {
    SubMultisetUnique(rest, all);
    forall x | x in rest ensures x.id != my {
      assert x in all;
    }
  }

  lemma Rearrange<T>(t: multiset<T>, k: multiset<T>, p: multiset<T>, h: multiset<T>, d: multiset<T>)
    ensures (t + k) + ((p + h) + d) == t + (((p + k) + h) + d)
  {
  }
}
