/** What a routing table is: buckets, the invariant of every reachable table, and the facts
    about splitting that the operations in DhtTable rely on. */
module RoutingTable {
  import opened Wrappers
  import opened Ids
  import opened BucketTree
  import opened SeqFacts

  datatype Address = Address(ip: int, port: int)

  datatype Node = Node(id: Id, addr: Address, time: int, replyTime: int, pingedTime: int, pinged: nat)

  /** The known-good nodes: at most two unanswered requests, recently heard from. */
  predicate Good(n: Node, now: int) {
    n.pinged <= 2 && n.replyTime >= now - 7200 && n.time >= now - 900
  }

  /** One element of the list of buckets. */
  datatype Bucket = Bucket(
    first: Id, count: nat, maxCount: nat, time: int, nodes: seq<Node>, cached: Option<Address>)

  /** Bucket i ranges from its first id up to the first id of the next bucket. */
  predicate InBucket(id: Id, bs: seq<Bucket>, i: nat)
    requires i < |bs|
  {
    Val(bs[i].first) <= Val(id) && (i + 1 == |bs| || Val(id) < Val(bs[i + 1].first))
  }

  function MiddleBit(bs: seq<Bucket>, i: nat): (bit: nat)
    requires i < |bs|
    ensures bit <= ID_BITS
  {
    var bit1 := LowBit(bs[i].first);
    var bit2 := if i + 1 < |bs| then LowBit(bs[i + 1].first) else -1;
    (if bit1 >= bit2 then bit1 else bit2) + 1
  }

  /** The id half-way through a bucket; None where the program returns -1. */
  function BucketMiddle(bs: seq<Bucket>, i: nat): Option<Id>
    requires i < |bs|
  {
    var bit := MiddleBit(bs, i);
    if bit >= ID_BITS then None else Some(bs[i].first[bit := true])
  }

  /** The first id of a bucket with everything below its depth taken from rnd. */
  function BucketRandom(bs: seq<Bucket>, i: nat, rnd: Id): Id
    requires i < |bs|
  {
    var bit := MiddleBit(bs, i);
    if bit >= ID_BITS then bs[i].first else bs[i].first[..bit] + rnd[bit..]
  }

  // ----- the nodes of a table -----

  function Nodes(bs: seq<Bucket>): multiset<Node> {
    if bs == [] then multiset{} else multiset(bs[0].nodes) + Nodes(bs[1..])
  }

  /** No two nodes carry the same id, and none is listed twice. */
  ghost predicate UniqueIds(m: multiset<Node>) {
    forall a, b | a in m && b in m && a.id == b.id :: a == b && m[a] == 1
  }

  ghost predicate Knows(m: multiset<Node>, id: Id) {
    exists n :: n in m && n.id == id
  }

  lemma {:induction false} NodesConcat(a: seq<Bucket>, b: seq<Bucket>)
    ensures Nodes(a + b) == Nodes(a) + Nodes(b)
  {
    if a == [] {
      EmptyConcat(a, b);
    } else {
      NodesConcat(a[1..], b);
      TailOfConcat(a, b);
      Regroup(multiset(a[0].nodes), Nodes(a[1..]), Nodes(b));
    }
  }

  lemma NodesOne(b: Bucket)
    ensures Nodes([b]) == multiset(b.nodes)
  {
    assert [b][1..] == [];
    assert Nodes([b]) == multiset(b.nodes) + Nodes([]);
  }

  lemma NodesThree(l: seq<Bucket>, m: seq<Bucket>, r: seq<Bucket>)
    ensures Nodes(l + m + r) == (Nodes(l) + Nodes(m)) + Nodes(r)
  {
    NodesConcat(l, m);
    NodesConcat(l + m, r);
  }

  lemma NodesAround(bs: seq<Bucket>, j: nat, mid: seq<Bucket>)
    requires j < |bs|
    ensures Nodes(bs[..j] + mid + bs[j + 1..]) + multiset(bs[j].nodes) == Nodes(bs) + Nodes(mid)
  {
    var l, r, b := bs[..j], bs[j + 1..], bs[j];
    NodesThree(l, mid, r);
    NodesThree(l, [b], r);
    NodesOne(b);
    Around(bs, j, b);
    SwapMiddle(Nodes(l), Nodes(mid), Nodes(r), multiset(b.nodes));
  }

  /** Changing one bucket changes the nodes of the table by just that. */
  lemma NodesUpdate(bs: seq<Bucket>, j: nat, b: Bucket)
    requires j < |bs|
    ensures Nodes(bs[j := b]) + multiset(bs[j].nodes) == Nodes(bs) + multiset(b.nodes)
  {
    NodesAround(bs, j, [b]);
    NodesOne(b);
    Around(bs, j, b);
  }

  lemma NodesOfBucket(bs: seq<Bucket>, j: nat)
    requires j < |bs|
    ensures multiset(bs[j].nodes) <= Nodes(bs)
  {
    var l, r, b := bs[..j], bs[j + 1..], bs[j];
    NodesThree(l, [b], r);
    NodesOne(b);
    Around(bs, j, b);
  }

  lemma {:induction false} NodeHasBucket(bs: seq<Bucket>, n: Node)
    requires n in Nodes(bs)
    ensures exists i :: 0 <= i < |bs| && n in bs[i].nodes
  {
    if n in multiset(bs[0].nodes) {
      assert n in bs[0].nodes;
    } else {
      NodeHasBucket(bs[1..], n);
      var i :| 0 <= i < |bs[1..]| && n in bs[1..][i].nodes;
      assert n in bs[i + 1].nodes;
    }
  }

  // ----- the invariant -----

  /** Bucket b is the one at tree node p: its range, its capacity, its count and where its nodes lie. */
  ghost predicate BucketOk(my: Id, p: Path, b: Bucket)
    requires |p| <= ID_BITS
  {
    && b.first == First(p)
    && b.maxCount == CapOf(my, p)
    && b.count == |b.nodes| <= b.maxCount
    && forall n | n in b.nodes :: p <= n.id
  }

  /** The tree node of bucket i; our own bucket is as deep as there are other buckets. */
  function Spot(my: Id, bs: seq<Bucket>, i: nat): (p: Path)
    requires i < |bs| <= ID_BITS + 1
    ensures |p| <= |bs| - 1
  {
    Shape(my, |bs| - 1, 0)[i]
  }

  function Own(my: Id, bs: seq<Bucket>): (o: nat)
    requires 1 <= |bs| <= ID_BITS + 1
    ensures o < |bs|
  {
    OwnIndex(my, |bs| - 1, 0)
  }

  /** Both depend on the number of buckets alone. */
  lemma SameSpots(my: Id, a: seq<Bucket>, b: seq<Bucket>, i: nat)
    requires i < |a| == |b| <= ID_BITS + 1
    ensures Spot(my, a, i) == Spot(my, b, i) && Own(my, a) == Own(my, b)
  {
  }

  ghost predicate SpotOk(my: Id, bs: seq<Bucket>, i: nat)
    requires i < |bs| <= ID_BITS + 1
  {
    BucketOk(my, Spot(my, bs, i), bs[i])
  }

  ghost predicate Shaped(my: Id, bs: seq<Bucket>) {
    && 1 <= |bs| <= MAX_DEPTH + 1
    && forall i | 0 <= i < |bs| :: SpotOk(my, bs, i)
  }

  /** Every table the program can reach. */
  ghost predicate TableInv(my: Id, bs: seq<Bucket>) {
    && Shaped(my, bs)
    && UniqueIds(Nodes(bs))
    && !Knows(Nodes(bs), my)
  }

  /** Bucket i covers this id, is not ours and is full. */
  ghost predicate ClosedAt(my: Id, bs: seq<Bucket>, i: nat, id: Id)
    requires i < |bs| <= ID_BITS + 1
  {
    Spot(my, bs, i) <= id && i != Own(my, bs) && |bs[i].nodes| == bs[i].maxCount
  }

  ghost predicate ClosedTo(my: Id, bs: seq<Bucket>, id: Id)
    requires 1 <= |bs| <= ID_BITS + 1
  {
    exists i :: 0 <= i < |bs| && ClosedAt(my, bs, i, id)
  }

  /** The numeric test of the program and the tree agree. */
  lemma InBucketIffBelow(my: Id, bs: seq<Bucket>, i: nat, id: Id)
    requires Shaped(my, bs) && i < |bs|
    ensures InBucket(id, bs, i) <==> Spot(my, bs, i) <= id
  {
    InRangeIffBelow(my, |bs| - 1, i, id);
    assert SpotOk(my, bs, i);
    if i + 1 < |bs| {
      assert SpotOk(my, bs, i + 1);
    }
  }

  /** The ranges do not overlap: an id is below one bucket's tree node only. */
  lemma OneHome(my: Id, bs: seq<Bucket>, i: nat, j: nat, id: Id)
    requires 1 <= |bs| <= ID_BITS + 1 && i < |bs| && j < |bs|
    requires Spot(my, bs, i) <= id && Spot(my, bs, j) <= id
    ensures i == j
  {
    if i < j {
      BelowOne(my, |bs| - 1, i, j, id);
    } else if j < i {
      BelowOne(my, |bs| - 1, j, i, id);
    }
  }

  /** Our id lies in our own bucket. */
  lemma OwnBucketIsOurs(my: Id, bs: seq<Bucket>)
    requires 1 <= |bs| <= ID_BITS + 1
    ensures Spot(my, bs, Own(my, bs)) == my[..|bs| - 1] && my[..|bs| - 1] <= my
  {
    ShapeOwn(my, |bs| - 1, 0);
  }

  /** The program's test for our own bucket picks out exactly that one. */
  lemma OursIffHoldsUs(my: Id, bs: seq<Bucket>, j: nat)
    requires Shaped(my, bs) && j < |bs|
    ensures InBucket(my, bs, j) <==> j == Own(my, bs)
  {
    OwnBucketIsOurs(my, bs);
    InBucketIffBelow(my, bs, j, my);
    if InBucket(my, bs, j) {
      OneHome(my, bs, j, Own(my, bs), my);
    }
  }

  /** The bit computed from the low bits of two bucket starts is the depth of the bucket. */
  lemma StartOfSpot(my: Id, bs: seq<Bucket>, i: nat)
    requires Shaped(my, bs) && i < |bs|
    ensures bs[i].first == First(Shape(my, |bs| - 1, 0)[i])
  {
    assert SpotOk(my, bs, i);
  }

  lemma MiddleBitIsDepth(my: Id, bs: seq<Bucket>, i: nat)
    requires Shaped(my, bs) && i < |bs|
    ensures MiddleBit(bs, i) == |Spot(my, bs, i)| <= MAX_DEPTH
  {
    var k := |bs| - 1;
    DepthFromLowBits(my, k, i);
    StartOfSpot(my, bs, i);
    if i < k {
      StartOfSpot(my, bs, i + 1);
    }
    MiddleBitFrom(bs, i, Shape(my, k, 0));
  }

  /** The two low bits, given the tree nodes of the buckets. */
  lemma MiddleBitFrom(bs: seq<Bucket>, i: nat, s: seq<Path>)
    requires i < |bs| == |s| && (forall p | p in s :: |p| <= ID_BITS)
    requires bs[i].first == First(s[i]) && (i + 1 < |bs| ==> bs[i + 1].first == First(s[i + 1]))
    ensures var b1 := LowBit(First(s[i]));
            var b2 := if i + 1 < |s| then LowBit(First(s[i + 1])) else -1;
            MiddleBit(bs, i) == (if b1 >= b2 then b1 else b2) + 1
  {
  }

  /** bucket_middle halves the bucket, and never fails. */
  lemma MiddleHalves(my: Id, bs: seq<Bucket>, i: nat)
    requires Shaped(my, bs) && i < |bs|
    ensures |Spot(my, bs, i)| <= MAX_DEPTH
    ensures BucketMiddle(bs, i) == Some(First(Spot(my, bs, i) + [true]))
  {
    MiddleBitIsDepth(my, bs, i);
    assert SpotOk(my, bs, i);
    RightChildFirst(Spot(my, bs, i));
  }

  /** bucket_random gives ids of the bucket, and can give each of them. */
  lemma RandomStaysInside(my: Id, bs: seq<Bucket>, i: nat, rnd: Id)
    requires Shaped(my, bs) && i < |bs|
    ensures InBucket(BucketRandom(bs, i, rnd), bs, i)
    ensures InBucket(rnd, bs, i) ==> BucketRandom(bs, i, rnd) == rnd
  {
    var p := Spot(my, bs, i);
    MiddleBitIsDepth(my, bs, i);
    assert SpotOk(my, bs, i);
    var id := BucketRandom(bs, i, rnd);
    assert bs[i].first[..|p|] == p;
    InBucketIffBelow(my, bs, i, id);
    InBucketIffBelow(my, bs, i, rnd);
  }

  // ----- our bucket is never split too deep -----

  lemma HeadIsNew(ns: seq<Node>, m: Node, rest: seq<Node>)
    requires ns == [m] + rest && UniqueIds(multiset(ns))
    ensures UniqueIds(multiset(rest)) && forall n | n in rest :: n.id != m.id
  {
    assert multiset(ns) == multiset{m} + multiset(rest);
    SubMultisetUnique(multiset(rest), multiset(ns));
    forall n | n in rest ensures n.id != m.id {
      assert n in multiset(ns) && m in multiset(ns);
      assert n == m ==> multiset(ns)[m] >= 2;
    }
  }

  ghost function IdSet(ns: seq<Node>): set<Id> {
    set n | n in ns :: n.id
  }

  lemma IdSetCons(ns: seq<Node>, m: Node, rest: seq<Node>)
    requires ns == [m] + rest && forall n | n in rest :: n.id != m.id
    ensures |IdSet(ns)| == 1 + |IdSet(rest)|
  {
    assert IdSet(ns) == {m.id} + IdSet(rest);
  }

  lemma {:induction false} UniqueCount(ns: seq<Node>)
    requires UniqueIds(multiset(ns))
    ensures |IdSet(ns)| == |ns|
  {
    if ns != [] {
      var m := ns[0];
      var rest := ns[1..];
      assert ns == [m] + rest;
      HeadIsNew(ns, m, rest);
      UniqueCount(rest);
      IdSetCons(ns, m, rest);
    }
  }

  /** Eight distinct ids below my[..k], none of them ours, need k <= 156. */
  lemma EightNeighbours(my: Id, k: nat, ns: seq<Node>)
    requires k <= ID_BITS && |ns| >= 8
    requires UniqueIds(multiset(ns)) && forall n | n in ns :: my[..k] <= n.id && n.id != my
    ensures k < MAX_DEPTH
  {
    UniqueCount(ns);
    var ids := IdSet(ns);
    assert my !in ids;
    assert my[..k] <= my;
    var m := ID_BITS - k;
    SubtreeCount(ids + {my}, my[..k], m);
    if m <= 3 {
      SmallPowers(m);
    }
  }

  /** Eight nodes and ourselves do not fit into eight ids: a full own bucket is at most 156 deep. */
  lemma FullOwnBucketIsShallow(my: Id, bs: seq<Bucket>, o: nat)
    requires TableInv(my, bs) && o == Own(my, bs)
    requires bs[o].count >= bs[o].maxCount
    ensures |bs| <= MAX_DEPTH
  {
    OwnBucketIsOurs(my, bs);
    assert SpotOk(my, bs, o);
    var ns := bs[o].nodes;
    NodesOfBucket(bs, o);
    SubMultisetUnique(multiset(ns), Nodes(bs));
    forall n | n in ns ensures n.id != my {
      assert n in multiset(ns) && n in Nodes(bs);
    }
    EightNeighbours(my, |bs| - 1, ns);
  }

  lemma SmallPowers(m: nat)
    requires m <= 3
    ensures Pow2(m) <= 8
  {
    assert Pow2(0) == 1 && Pow2(1) == 2 && Pow2(2) == 4;
  }

  lemma SubMultisetUnique(sub: multiset<Node>, m: multiset<Node>)
    requires sub <= m && UniqueIds(m)
    ensures UniqueIds(sub)
  {
    forall a, b | a in sub && b in sub && a.id == b.id ensures a == b && sub[a] == 1 {
      assert a in m && b in m;
      assert sub[a] <= m[a];
    }
  }

  // ----- the two halves of a split bucket -----

  /** The two buckets that split_bucket_helper leaves in place of b, both empty; the half that does
      not hold our id keeps the capacity. */
  function Lower(my: Id, b: Bucket, middle: Id): Bucket {
    b.(nodes := [], count := 0, cached := None,
       maxCount := if Val(my) < Val(middle) then Max8(b.maxCount / 2) else b.maxCount)
  }

  function Upper(my: Id, b: Bucket, middle: Id): Bucket {
    Bucket(middle, 0, if Val(my) < Val(middle) then b.maxCount else Max8(b.maxCount / 2), b.time, [], None)
  }

  function Halve(my: Id, bs: seq<Bucket>, j: nat, middle: Id): (r: seq<Bucket>)
    requires j < |bs|
    ensures |r| == |bs| + 1
  {
    TwoForOne(bs, j, Lower(my, bs[j], middle), Upper(my, bs[j], middle))
  }

  /** The bucket of the halved table that bucket i became, and the tree node it keeps. */
  function Moved(j: nat, i: nat): nat {
    if i < j then i else i + 1
  }

  lemma MovedSpot(my: Id, bs: seq<Bucket>, r: seq<Bucket>, j: nat, i: nat)
    requires 1 <= |bs| <= MAX_DEPTH && |r| == |bs| + 1 && j == Own(my, bs)
    requires i < |bs| && i != j
    ensures Spot(my, r, Moved(j, i)) == Spot(my, bs, i)
  {
    ShapeSplit(my, |bs| - 1, 0);
  }

  /** The tree nodes of the two halves. */
  lemma HalvedSpots(my: Id, bs: seq<Bucket>, r: seq<Bucket>, j: nat)
    requires 1 <= |bs| <= MAX_DEPTH && |r| == |bs| + 1 && j == Own(my, bs)
    ensures Spot(my, r, j) == my[..|bs| - 1] + [false] && Spot(my, r, j + 1) == my[..|bs| - 1] + [true]
    ensures Own(my, r) == j + (if my[|bs| - 1] then 1 else 0)
  {
    ShapeSplit(my, |bs| - 1, 0);
    OwnBucketIsOurs(my, bs);
  }

  lemma HalvesOk(my: Id, k: nat, middle: Id, b: Bucket)
    requires k < ID_BITS && middle == First(my[..k] + [true])
    requires BucketOk(my, my[..k], b)
    ensures BucketOk(my, my[..k] + [false], Lower(my, b, middle))
    ensures BucketOk(my, my[..k] + [true], Upper(my, b, middle))
  {
    MySideOfMiddle(my, k, middle);
    ChildrenStart(my[..k], ID_BITS);
    SiblingCap(my, k);
  }

  lemma HalvedElsewhere(my: Id, bs: seq<Bucket>, r: seq<Bucket>, j: nat, middle: Id, i: nat)
    requires 1 <= |bs| <= MAX_DEPTH && j == Own(my, bs)
    requires r == Halve(my, bs, j, middle)
    requires i < |bs| && i != j && SpotOk(my, bs, i)
    ensures SpotOk(my, r, Moved(j, i))
  {
    MovedSpot(my, bs, r, j, i);
    TwoForOneElsewhere(bs, j, Lower(my, bs[j], middle), Upper(my, bs[j], middle), i);
  }

  lemma HalvedHere(my: Id, bs: seq<Bucket>, r: seq<Bucket>, j: nat, middle: Id)
    requires 1 <= |bs| <= MAX_DEPTH && j == Own(my, bs)
    requires middle == First(my[..|bs| - 1] + [true])
    requires r == Halve(my, bs, j, middle) && SpotOk(my, bs, j)
    ensures SpotOk(my, r, j) && SpotOk(my, r, j + 1)
  {
    var p, lower, upper := my[..|bs| - 1], Lower(my, bs[j], middle), Upper(my, bs[j], middle);
    OwnBucketIsOurs(my, bs);
    HalvesOk(my, |bs| - 1, middle, bs[j]);
    assert BucketOk(my, p + [false], lower) && BucketOk(my, p + [true], upper);
    HalvedSpots(my, bs, r, j);
    AtItsSpot(my, r, j, p + [false], lower);
    AtItsSpot(my, r, j + 1, p + [true], upper);
  }

  lemma AtItsSpot(my: Id, bs: seq<Bucket>, i: nat, p: Path, b: Bucket)
    requires i < |bs| <= ID_BITS + 1 && |p| <= ID_BITS && Spot(my, bs, i) == p && bs[i] == b && BucketOk(my, p, b)
    ensures SpotOk(my, bs, i)
  {
  }

  lemma HalveKeepsShape(my: Id, bs: seq<Bucket>, j: nat, middle: Id)
    requires Shaped(my, bs) && |bs| <= MAX_DEPTH && j == Own(my, bs)
    requires middle == First(my[..|bs| - 1] + [true])
    ensures Shaped(my, Halve(my, bs, j, middle))
  {
    var r := Halve(my, bs, j, middle);
    forall i | 0 <= i < |r| ensures SpotOk(my, r, i) {
      HalvedAt(my, bs, r, j, middle, i);
    }
  }

  lemma HalvedAt(my: Id, bs: seq<Bucket>, r: seq<Bucket>, j: nat, middle: Id, i: nat)
    requires Shaped(my, bs) && |bs| <= MAX_DEPTH && j == Own(my, bs) && i < |r|
    requires middle == First(my[..|bs| - 1] + [true]) && r == Halve(my, bs, j, middle)
    ensures SpotOk(my, r, i)
  {
    if i == j || i == j + 1 {
      assert SpotOk(my, bs, j);
      HalvedHere(my, bs, r, j, middle);
    } else {
      var o := if i < j then i else i - 1;
      assert SpotOk(my, bs, o) && Moved(j, o) == i;
      HalvedElsewhere(my, bs, r, j, middle, o);
    }
  }

  /** A bucket that was closed before our bucket was halved still is. */
  lemma HalveKeepsClosed(my: Id, bs: seq<Bucket>, r: seq<Bucket>, j: nat, middle: Id, id: Id)
    requires 1 <= |bs| <= MAX_DEPTH && j == Own(my, bs)
    requires r == Halve(my, bs, j, middle)
    requires ClosedTo(my, bs, id)
    ensures ClosedTo(my, r, id)
  {
    var i :| 0 <= i < |bs| && ClosedAt(my, bs, i, id);
    MovedSpot(my, bs, r, j, i);
    HalvedSpots(my, bs, r, j);
    assert ClosedAt(my, r, Moved(j, i), id);
  }

  lemma MySideOfMiddle(my: Id, k: nat, middle: Id)
    requires k < ID_BITS && middle == First(my[..k] + [true])
    ensures Val(my) < Val(middle) <==> !my[k]
  {
    var p, n := my[..k], |my| - k;
    assert p <= my;
    SubtreeIsInterval(p, my);
    SubtreeIsInterval(p + [true], my);
    ChildrenStart(p, |my|);
    BelowRightChild(my, k);
    assert Pow2(n) == 2 * Pow2(n - 1);
  }

  lemma BelowRightChild(my: Id, k: nat)
    requires k < ID_BITS
    ensures my[..k] + [true] <= my <==> my[k]
  {
    assert my[..k + 1] == my[..k] + [my[k]];
    assert my[..k + 1] <= my;
  }

  lemma SiblingCap(my: Id, k: nat)
    requires k < ID_BITS
    ensures CapOf(my, my[..k]) == Cap(k)
    ensures CapOf(my, my[..k] + [my[k]]) == Max8(Cap(k) / 2)
    ensures CapOf(my, my[..k] + [!my[k]]) == Cap(k)
  {
    var mine, other := my[..k] + [my[k]], my[..k] + [!my[k]];
    assert mine == my[..k + 1];
    assert mine <= my && |mine| == k + 1 && mine != [];
    assert other[k] != my[k];
    assert !(other <= my) && |other| == k + 1 && other != [];
  }

  /** Halving only empties our bucket: the nodes it held are the ones taken out. */
  lemma HalveTakesOut(my: Id, bs: seq<Bucket>, j: nat, middle: Id)
    requires j < |bs|
    ensures Nodes(Halve(my, bs, j, middle)) + multiset(bs[j].nodes) == Nodes(bs)
  {
    var lower, upper := Lower(my, bs[j], middle), Upper(my, bs[j], middle);
    NodesAround(bs, j, [lower] + [upper]);
    NodesConcat([lower], [upper]);
    NodesOne(lower);
    NodesOne(upper);
  }

  /** Both halves are empty, keep the time of the bucket, and have no address in store; the one without our id
      keeps the capacity, ours gets half of it, but at least 8. All other buckets stay as they are. */
  lemma HalvesAre(my: Id, bs: seq<Bucket>, j: nat, middle: Id)
    requires j < |bs|
    ensures var r, b := Halve(my, bs, j, middle), bs[j];
            && r == bs[..j] + ([r[j]] + [r[j + 1]]) + bs[j + 1..]
            && r[j].nodes == r[j + 1].nodes == [] && r[j].count == r[j + 1].count == 0
            && r[j].time == r[j + 1].time == b.time && r[j].cached == r[j + 1].cached == None
            && r[j].first == b.first && r[j + 1].first == middle
            && (var (ours, other) := if Val(my) < Val(middle) then (r[j], r[j + 1]) else (r[j + 1], r[j]);
                other.maxCount == b.maxCount && ours.maxCount == if b.maxCount >= 16 then b.maxCount / 2 else 8)
  {
    assert Max8(bs[j].maxCount / 2) == if bs[j].maxCount >= 16 then bs[j].maxCount / 2 else 8;
  }

  // ----- changing one bucket -----

  /** What a bucket looks like after its list of nodes changed. */
  ghost predicate SamePlace(b: Bucket, b': Bucket) {
    b'.first == b.first && b'.maxCount == b.maxCount && b'.count == |b'.nodes| <= b.maxCount
  }

  lemma UpdateKeepsShape(my: Id, bs: seq<Bucket>, j: nat, b: Bucket)
    requires Shaped(my, bs) && j < |bs|
    requires SamePlace(bs[j], b) && forall n | n in b.nodes :: Spot(my, bs, j) <= n.id
    ensures Shaped(my, bs[j := b])
  {
    assert SpotOk(my, bs, j);
    var r := bs[j := b];
    forall i | 0 <= i < |r| ensures SpotOk(my, r, i) {
      assert SpotOk(my, bs, i);
    }
  }

  /** Closed buckets stay closed as long as no list gets shorter. */
  lemma UpdateKeepsClosed(my: Id, bs: seq<Bucket>, j: nat, b: Bucket, id: Id)
    requires 1 <= |bs| <= MAX_DEPTH + 1 && j < |bs|
    requires SamePlace(bs[j], b) && |bs[j].nodes| <= |b.nodes|
    requires ClosedTo(my, bs, id)
    ensures ClosedTo(my, bs[j := b], id)
  {
    var i :| 0 <= i < |bs| && ClosedAt(my, bs, i, id);
    assert ClosedAt(my, bs[j := b], i, id);
  }

  /** The bucket with a node put at the head of its list. */
  function Pushed(b: Bucket, n: Node): Bucket {
    b.(nodes := [n] + b.nodes, count := b.count + 1)
  }

  lemma PushKeepsTable(my: Id, bs: seq<Bucket>, j: nat, n: Node)
    requires TableInv(my, bs) && j < |bs| && bs[j].count < bs[j].maxCount
    requires Spot(my, bs, j) <= n.id && n.id != my && !Knows(Nodes(bs), n.id)
    ensures TableInv(my, bs[j := Pushed(bs[j], n)])
    ensures Nodes(bs[j := Pushed(bs[j], n)]) == Nodes(bs) + multiset{n}
    ensures SamePlace(bs[j], Pushed(bs[j], n))
  {
    var b := Pushed(bs[j], n);
    assert SpotOk(my, bs, j);
    UpdateKeepsShape(my, bs, j, b);
    NodesUpdate(bs, j, b);
    assert multiset(b.nodes) == multiset{n} + multiset(bs[j].nodes);
    CancelRight(Nodes(bs[j := b]), multiset(bs[j].nodes), Nodes(bs), multiset{n});
    AddKeepsUnique(Nodes(bs), n);
  }

  lemma AddKeepsUnique(m: multiset<Node>, n: Node)
    requires UniqueIds(m) && !Knows(m, n.id)
    ensures UniqueIds(m + multiset{n})
    ensures forall id :: Knows(m + multiset{n}, id) <==> Knows(m, id) || id == n.id
  {
    var r := m + multiset{n};
    forall a, b | a in r && b in r && a.id == b.id ensures a == b && r[a] == 1 {
      if a == n {
        assert n !in m && b !in m;
      } else {
        assert a in m && b != n;
      }
    }
    assert n in r;
    forall id | Knows(m, id) ensures Knows(r, id) {
      var x :| x in m && x.id == id;
      assert x in r;
    }
  }

  lemma CancelRight<T>(x: multiset<T>, c: multiset<T>, y: multiset<T>, z: multiset<T>)
    requires x + c == y + (z + c)
    ensures x == y + z
  {
    forall t ensures x[t] == (y + z)[t] {
      assert (x + c)[t] == (y + (z + c))[t];
    }
  }
}
