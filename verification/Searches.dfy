/** One iterative search: its candidate array, kept sorted in place, and the operations on it. */
module Searches {
  import opened Wrappers
  import opened Ids
  import opened Closest
  import opened SeqFacts
  import opened RoutingTable
  import opened SearchSteps

  function IdsOf(l: seq<SearchNode>): (r: seq<Id>)
    ensures |r| == |l| && forall i | 0 <= i < |l| :: r[i] == l[i].id
  {
    seq(|l|, i requires 0 <= i < |l| => l[i].id)
  }

  /** A candidate nobody has been in touch with. */
  function Blank(id: Id, addr: Address): SearchNode {
    SearchNode(id, addr, 0, 0, 0, [], false, false)
  }

  const MAX_TOKEN: nat := 40

  /** What an offer changes in an entry: the address, a reply, a token that is not overlong. */
  function Touched(n: SearchNode, addr: Address, replied: bool, token: Option<seq<bv8>>, now: int): SearchNode {
    var n1 := n.(addr := addr);
    var n2 := if replied then n1.(replied := true, replyTime := now, requestTime := 0, pinged := 0) else n1;
    if token.Some? && |token.value| < MAX_TOKEN then n2.(token := token.value) else n2
  }

  /** The candidates after an offer: a known one is touched where it stands, a new one is put in its
      place or, beyond the last place, turned away. */
  function Offered(l: seq<SearchNode>, id: Id, addr: Address, replied: bool, token: Option<seq<bv8>>,
                   target: Id, now: int): (r: seq<SearchNode>)
    requires |l| <= SEARCH_NODES
    ensures |r| <= SEARCH_NODES
  {
    var p := Place(IdsOf(l), id, target);
    if Listed(IdsOf(l), id, target) then l[p := Touched(l[p], addr, replied, token, now)]
    else if p == SEARCH_NODES then l
    else InsertAt(l, p, Touched(Blank(id, addr), addr, replied, token, now), SEARCH_NODES)
  }

  /** What an offer leaves of the entry of its candidate, None if there was none: a reply makes it live, with no
      request in flight or ever needed again; without one nothing is concluded about a known candidate; a token
      of less than 40 bytes is the one stored. */
  ghost predicate Recorded(was: Option<SearchNode>, n: SearchNode, id: Id, addr: Address, replied: bool,
                           token: Option<seq<bv8>>, now: int) {
    && n.id == id && n.addr == addr
    && (replied ==>
          && n.replied && n.pinged == 0 && n.replyTime == now && n.requestTime == 0
          && Live(n) && forall t: int :: !Askable(n, t))
    && (!replied && was.Some? ==>
          && n.replied == was.value.replied && n.pinged == was.value.pinged
          && n.replyTime == was.value.replyTime && n.requestTime == was.value.requestTime)
    && (!replied && was.None? ==> !n.replied && n.pinged == 0 && n.replyTime == 0 && n.requestTime == 0)
    && n.acked == (was.Some? && was.value.acked)
    && (if token.Some? && |token.value| < 40 then n.token == token.value
        else n.token == if was.Some? then was.value.token else [])
  }

  /** Offering a candidate to the list l gives the list c: a known one is recorded where it stands; a new one
      gets its place in the order, the last of fourteen making room; one farther than fourteen others is turned
      away. */
  ghost predicate OfferOk(l: seq<SearchNode>, c: seq<SearchNode>, r: Option<nat>, id: Id, addr: Address,
                          replied: bool, token: Option<seq<bv8>>, target: Id, now: int) {
    && (r.None? ==> c == l && |l| == 14 && forall n | n in l :: Dist(n.id, target) < Dist(id, target))
    && (r.Some? && r.value < |l| && l[r.value].id == id ==>
          && |c| == |l| && c == l[r.value := c[r.value]]
          && Recorded(Some(l[r.value]), c[r.value], id, addr, replied, token, now))
    && (r.Some? && !(r.value < |l| && l[r.value].id == id) ==>
          && r.value < |c| == (if |l| < 14 then |l| + 1 else 14)
          && Recorded(None, c[r.value], id, addr, replied, token, now)
          && Between(l, r.value, id, target)
          && (forall m | 0 <= m < r.value :: c[m] == l[m])
          && (forall m | r.value < m < |c| :: c[m] == l[m - 1]))
  }

  /** The candidates before position p are nearer than the id, the others farther. */
  ghost predicate Between(l: seq<SearchNode>, p: nat, id: Id, target: Id) {
    && p <= |l|
    && (forall m | 0 <= m < p :: Dist(l[m].id, target) < Dist(id, target))
    && (forall m | p <= m < |l| :: Dist(id, target) < Dist(l[m].id, target))
  }

  lemma PlaceIsBetween(l: seq<SearchNode>, id: Id, target: Id)
    requires Sorted(IdsOf(l), target) && !Listed(IdsOf(l), id, target)
    ensures Between(l, Place(IdsOf(l), id, target), id, target)
  {
    PlaceOrders(IdsOf(l), id, target);
    forall m | 0 <= m < |l| ensures IdsOf(l)[m] == l[m].id {
    }
  }

  lemma TouchRecords(was: Option<SearchNode>, from: SearchNode, id: Id, addr: Address, replied: bool,
                     token: Option<seq<bv8>>, now: int)
    requires from == if was.Some? then was.value else Blank(id, addr)
    requires from.id == id
    ensures Recorded(was, Touched(from, addr, replied, token, now), id, addr, replied, token, now)
  {
  }

  /** A known candidate. */
  lemma KnownIsOk(l: seq<SearchNode>, c: seq<SearchNode>, p: nat, id: Id, addr: Address, replied: bool,
                  token: Option<seq<bv8>>, target: Id, now: int)
    requires p < |l| && l[p].id == id && c == l[p := Touched(l[p], addr, replied, token, now)]
    ensures OfferOk(l, c, Some(p), id, addr, replied, token, target, now)
  {
    TouchRecords(Some(l[p]), l[p], id, addr, replied, token, now);
  }

  /** A new one. */
  lemma NewIsOk(l: seq<SearchNode>, c: seq<SearchNode>, p: nat, id: Id, addr: Address, replied: bool,
                token: Option<seq<bv8>>, target: Id, now: int)
    requires |l| <= SEARCH_NODES && p < SEARCH_NODES && Between(l, p, id, target)
    requires c == InsertAt(l, p, Touched(Blank(id, addr), addr, replied, token, now), SEARCH_NODES)
    ensures OfferOk(l, c, Some(p), id, addr, replied, token, target, now)
  {
    TouchRecords(None, Blank(id, addr), id, addr, replied, token, now);
  }

  /** One that is turned away. */
  lemma FartherIsOk(l: seq<SearchNode>, id: Id, addr: Address, replied: bool, token: Option<seq<bv8>>, target: Id,
                    now: int)
    requires |l| == Place(IdsOf(l), id, target) == SEARCH_NODES && Sorted(IdsOf(l), target)
    ensures OfferOk(l, l, None, id, addr, replied, token, target, now)
  {
    PlaceOrders(IdsOf(l), id, target);
    forall n | n in l ensures Dist(n.id, target) < Dist(id, target) {
      var m :| 0 <= m < |l| && l[m] == n;
      assert IdsOf(l)[m] == n.id;
    }
  }

  /** An offer acts on the ids as Closest.Offer does, so all that is proved there holds of searches. */
  lemma OfferedIds(l: seq<SearchNode>, id: Id, addr: Address, replied: bool, token: Option<seq<bv8>>,
                   target: Id, now: int)
    requires |l| <= SEARCH_NODES
    ensures IdsOf(Offered(l, id, addr, replied, token, target, now)) == Offer(IdsOf(l), SEARCH_NODES, id, target)
  {
    var p := Place(IdsOf(l), id, target);
    if Listed(IdsOf(l), id, target) {
      IdsOfUpdate(l, p, Touched(l[p], addr, replied, token, now));
    } else if p < SEARCH_NODES {
      IdsOfInsert(l, p, Touched(Blank(id, addr), addr, replied, token, now), SEARCH_NODES);
    }
  }

  lemma IdsOfUpdate(l: seq<SearchNode>, p: nat, n: SearchNode)
    requires p < |l| && n.id == l[p].id
    ensures IdsOf(l[p := n]) == IdsOf(l)
  {
  }

  lemma IdsOfInsert(l: seq<SearchNode>, p: nat, n: SearchNode, cap: nat)
    requires p <= |l| <= cap && p < cap
    ensures IdsOf(InsertAt(l, p, n, cap)) == InsertAt(IdsOf(l), p, n.id, cap)
  {
  }

  datatype Candidate = Candidate(id: Id, addr: Address, replied: bool, token: Option<seq<bv8>>, now: int)

  /** The candidates after a sequence of offers. */
  function OfferedAll(l: seq<SearchNode>, cs: seq<Candidate>, target: Id): (r: seq<SearchNode>)
    requires |l| <= SEARCH_NODES
    ensures |r| <= SEARCH_NODES
    decreases |cs|
  {
    if cs == [] then l
    else OfferedAll(Offered(l, cs[0].id, cs[0].addr, cs[0].replied, cs[0].token, target, cs[0].now), cs[1..], target)
  }

  ghost function CandidateIds(cs: seq<Candidate>): set<Id> {
    if cs == [] then {} else {cs[0].id} + CandidateIds(cs[1..])
  }

  /** Whatever is offered and in whatever order: the candidates are the fourteen closest of those there
      were and those offered, by increasing distance. */
  lemma {:induction false} CandidatesAreClosest(l: seq<SearchNode>, cs: seq<Candidate>, s: set<Id>, target: Id)
    requires |l| <= SEARCH_NODES && IsTop(IdsOf(l), SEARCH_NODES, s, target)
    ensures IsTop(IdsOf(OfferedAll(l, cs, target)), SEARCH_NODES, s + CandidateIds(cs), target)
    decreases |cs|
  {
    if cs == [] {
      assert s + CandidateIds(cs) == s;
    } else {
      var c := cs[0];
      OfferedTop(l, c, s, target);
      CandidatesAreClosest(Offered(l, c.id, c.addr, c.replied, c.token, target, c.now), cs[1..], s + {c.id}, target);
      UnionAssoc(s, {c.id}, CandidateIds(cs[1..]));
    }
  }

  lemma UnionAssoc<T>(a: set<T>, b: set<T>, c: set<T>)
    ensures (a + b) + c == a + (b + c)
  {
  }

  lemma OfferedTop(l: seq<SearchNode>, c: Candidate, s: set<Id>, target: Id)
    requires |l| <= SEARCH_NODES && IsTop(IdsOf(l), SEARCH_NODES, s, target)
    ensures IsTop(IdsOf(Offered(l, c.id, c.addr, c.replied, c.token, target, c.now)), SEARCH_NODES, s + {c.id}, target)
  {
    OfferedIds(l, c.id, c.addr, c.replied, c.token, target, c.now);
    OfferKeepsTop(IdsOf(l), SEARCH_NODES, s, c.id, target);
  }

  /** Removing an entry keeps the order. */
  lemma FlushedIds(l: seq<SearchNode>, i: nat)
    requires i < |l|
    ensures IdsOf(l[..i] + l[i + 1..]) == IdsOf(l)[..i] + IdsOf(l)[i + 1..]
  {
  }

  lemma FlushedSorted(l: seq<SearchNode>, i: nat, r: seq<SearchNode>, target: Id)
    requires i < |l| && r == l[..i] + l[i + 1..] && Sorted(IdsOf(l), target)
    ensures Sorted(IdsOf(r), target)
  {
    FlushedIds(l, i);
    FlushKeepsSorted(IdsOf(l), i, target);
  }

  lemma FlushKeepsSorted(l: seq<Id>, i: nat, target: Id)
    requires Sorted(l, target) && i < |l|
    ensures Sorted(l[..i] + l[i + 1..], target)
  {
  }

  /** What reusing an old search keeps of its candidates: those that are not doubtful, made askable. */
  predicate Doubtful(n: SearchNode, now: int) {
    n.pinged >= 3 || n.replyTime < now - 7200
  }

  function Reset(n: SearchNode): SearchNode {
    n.(pinged := 0, token := [], replied := false, acked := false)
  }

  function Renewed(l: seq<SearchNode>, now: int): (r: seq<SearchNode>)
    ensures |r| <= |l|
  {
    if l == [] then []
    else if Doubtful(l[0], now) then Renewed(l[1..], now)
    else [Reset(l[0])] + Renewed(l[1..], now)
  }

  /** What reusing the list l leaves: in their order, exactly the candidates that left at most two requests
      unanswered and replied within two hours, with their addresses and times, nothing unanswered, and neither
      reply nor ack nor token. */
  ghost predicate Afresh(l: seq<SearchNode>, c: seq<SearchNode>, now: int) {
    && (forall n | n in c ::
          && n.pinged == 0 && !n.replied && !n.acked && n.token == [] && now - n.replyTime <= 7200
          && exists m :: m in l && m.pinged <= 2 && n == m.(pinged := 0, token := [], replied := false, acked := false))
    && (forall m | m in l && m.pinged <= 2 && now - m.replyTime <= 7200 ::
          m.(pinged := 0, token := [], replied := false, acked := false) in c)
  }

  lemma {:induction false} RenewedIsAfresh(l: seq<SearchNode>, now: int)
    ensures Afresh(l, Renewed(l, now), now)
  {
    if l != [] {
      RenewedIsAfresh(l[1..], now);
      AfreshCons(l, Renewed(l[1..], now), now);
    }
  }

  lemma AfreshCons(l: seq<SearchNode>, rest: seq<SearchNode>, now: int)
    requires l != [] && Afresh(l[1..], rest, now)
    ensures Afresh(l, if Doubtful(l[0], now) then rest else [Reset(l[0])] + rest, now)
  {
    var c := if Doubtful(l[0], now) then rest else [Reset(l[0])] + rest;
    assert l == [l[0]] + l[1..];
    assert l[0] in l;
    forall n | n in c
      ensures exists m :: m in l && m.pinged <= 2 && n == m.(pinged := 0, token := [], replied := false, acked := false)
    {
      if n in rest {
        var m :| m in l[1..] && m.pinged <= 2 && n == m.(pinged := 0, token := [], replied := false, acked := false);
        assert m in l;
      }
    }
  }

  class Search {
    const target: Id
    var port: nat
    var stepTime: int
    var done: bool
    const nodes: array<SearchNode>
    var numnodes: nat

    /** At most fourteen candidates, strictly by increasing distance to the target. */
    ghost predicate Valid()
      reads this, nodes
    {
      && nodes.Length == SEARCH_NODES && numnodes <= SEARCH_NODES
      && Sorted(IdsOf(nodes[..numnodes]), target)
    }

    ghost function State(): SearchState
      requires Valid()
      reads this, nodes
    {
      SearchState(port, stepTime, done, nodes[..numnodes])
    }

    constructor (target: Id)
      ensures Valid() && this.target == target && numnodes == 0 && !done && stepTime == 0 && port == 0
      ensures fresh(nodes)
    {
      this.target := target;
      port, stepTime, done, numnodes := 0, 0, false, 0;
      nodes := new SearchNode[SEARCH_NODES](_ => Blank(target, Address(0, 0)));
    }

    /** Offers a candidate; the result is its index, or None if it was turned away. */
    method InsertSearchNode(id: Id, addr: Address, sameFamily: bool, replied: bool, token: Option<seq<bv8>>,
                            now: int)
      returns (r: Option<nat>)
      requires Valid()
      modifies this`numnodes, nodes
      ensures Valid()
      ensures !sameFamily ==> r == None && State() == old(State())
      ensures sameFamily ==>
                && State() == old(State()).(nodes := Offered(old(State()).nodes, id, addr, replied, token, target, now))
                && r == (if id in IdsOf(State().nodes) then Some(Place(IdsOf(old(State()).nodes), id, target)) else None)
                && OfferOk(old(State()).nodes, State().nodes, r, id, addr, replied, token, target, now)
    {
      if !sameFamily {
        return None;
      }
      ghost var l := nodes[..numnodes];
      var i := Scan(id);
      PlaceOrders(IdsOf(l), id, target);
      if i < numnodes && nodes[i].id == id {
        TouchAt(i, id, addr, replied, token, now);
        return Some(i);
      }
      if i == SEARCH_NODES {
        FartherIsOk(l, id, addr, replied, token, target, now);
        return None;
      }
      InsertBlank(i, id, addr, replied, token, now);
      return Some(i);
    }

    /** The candidate is known: refresh entry i. */
    method TouchAt(i: nat, id: Id, addr: Address, replied: bool, token: Option<seq<bv8>>, now: int)
      requires Valid() && i < numnodes && nodes[i].id == id
      requires i == Place(IdsOf(nodes[..numnodes]), id, target)
      modifies nodes
      ensures Valid() && nodes[i].id == id && id in IdsOf(nodes[..numnodes])
      ensures nodes[..numnodes] == Offered(old(nodes[..numnodes]), id, addr, replied, token, target, now)
      ensures OfferOk(old(nodes[..numnodes]), nodes[..numnodes], Some(i), id, addr, replied, token, target, now)
    {
      ghost var l := nodes[..numnodes];
      nodes[i] := Touched(nodes[i], addr, replied, token, now);
      assert nodes[..numnodes] == l[i := Touched(l[i], addr, replied, token, now)];
      assert IdsOf(nodes[..numnodes]) == IdsOf(l);
      assert IdsOf(l)[i] == id;
      KnownIsOk(l, nodes[..numnodes], i, id, addr, replied, token, target, now);
    }

    /** A new entry at i. */
    method InsertNew(i: nat, n: SearchNode)
      requires nodes.Length == SEARCH_NODES && i <= numnodes <= SEARCH_NODES && i < SEARCH_NODES
      modifies this`numnodes, nodes
      ensures i < numnodes <= SEARCH_NODES
      ensures nodes[..numnodes] == InsertAt(old(nodes[..numnodes]), i, n, SEARCH_NODES)
    {
      ghost var l := nodes[..numnodes];
      OpenSlot(i);
      nodes[i] := n;
      assert nodes[..numnodes] == InsertAt(l, i, n, SEARCH_NODES);
    }

    /** The candidate is new and belongs at i. */
    method InsertBlank(i: nat, id: Id, addr: Address, replied: bool, token: Option<seq<bv8>>, now: int)
      requires Valid() && i <= numnodes && i < SEARCH_NODES && !Listed(IdsOf(nodes[..numnodes]), id, target)
      requires i == Place(IdsOf(nodes[..numnodes]), id, target)
      modifies this`numnodes, nodes
      ensures Valid() && i < numnodes && nodes[i].id == id && id in IdsOf(nodes[..numnodes])
      ensures nodes[..numnodes] == Offered(old(nodes[..numnodes]), id, addr, replied, token, target, now)
      ensures OfferOk(old(nodes[..numnodes]), nodes[..numnodes], Some(i), id, addr, replied, token, target, now)
    {
      ghost var l := nodes[..numnodes];
      InsertNew(i, Touched(Blank(id, addr), addr, replied, token, now));
      OfferedIds(l, id, addr, replied, token, target, now);
      OfferKeepsSorted(IdsOf(l), SEARCH_NODES, id, target);
      assert IdsOf(nodes[..numnodes])[i] == id;
      PlaceIsBetween(l, id, target);
      NewIsOk(l, nodes[..numnodes], i, id, addr, replied, token, target, now);
    }

    /** Finds the candidate, or the first one farther than it. */
    method Scan(id: Id) returns (i: nat)
      requires Valid()
      ensures i <= numnodes && i == Place(IdsOf(nodes[..numnodes]), id, target)
    {
      i := 0;
      ghost var l := IdsOf(nodes[..numnodes]);
      while i < numnodes
        invariant i <= numnodes
        invariant forall m | 0 <= m < i :: l[m] != id && Dist(l[m], target) <= Dist(id, target)
      {
        if id == nodes[i].id || Dist(id, target) < Dist(nodes[i].id, target) {
          break;
        }
        i := i + 1;
      }
      var p := Place(l, id, target);
    }

    /** Moves the entries from i on one place back, dropping the last of a full array. */
    method OpenSlot(i: nat)
      requires nodes.Length == SEARCH_NODES && i <= numnodes <= SEARCH_NODES && i < SEARCH_NODES
      modifies this`numnodes, nodes
      ensures numnodes == Min(SEARCH_NODES, old(numnodes) + 1)
      ensures forall m | 0 <= m < i :: nodes[m] == old(nodes[m])
      ensures forall m | i < m < numnodes :: nodes[m] == old(nodes[m - 1])
    {
      if numnodes < SEARCH_NODES {
        numnodes := numnodes + 1;
      }
      var j := numnodes - 1;
      while j > i
        modifies nodes
        invariant i <= j < numnodes
        invariant forall m | 0 <= m <= j :: nodes[m] == old(nodes[m])
        invariant forall m | j < m < numnodes :: nodes[m] == old(nodes[m - 1])
      {
        nodes[j] := nodes[j - 1];
        j := j - 1;
      }
    }

    /** Drops candidate i. */
    method FlushSearchNode(i: nat)
      requires Valid() && i < numnodes
      modifies this`numnodes, nodes
      ensures Valid()
      ensures State() == old(State()).(nodes := old(State()).nodes[..i] + old(State()).nodes[i + 1..])
    {
      ghost var l := nodes[..numnodes];
      CloseGap(i);
      numnodes := numnodes - 1;
      FlushedSorted(l, i, nodes[..numnodes], target);
    }

    /** The loop of flush_search_node: the entries behind entry i move up by one. */
    method CloseGap(i: nat)
      requires i < numnodes <= nodes.Length
      modifies nodes
      ensures nodes[..numnodes - 1] == old(nodes[..numnodes])[..i] + old(nodes[..numnodes])[i + 1..]
    {
      ghost var l := nodes[..numnodes];
      var j := i;
      while j < numnodes - 1
        invariant i <= j < numnodes
        invariant forall m | 0 <= m < i :: nodes[m] == l[m]
        invariant forall m | i <= m < j :: nodes[m] == l[m + 1]
        invariant forall m | j < m < numnodes :: nodes[m] == l[m]
      {
        nodes[j] := nodes[j + 1];
        j := j + 1;
      }
    }

    /** Sends get_peers to candidate i if it may be asked; says whether it did. */
    method Ask(i: nat, now: int) returns (sent: nat)
      requires Valid() && i < numnodes
      modifies nodes
      ensures Valid()
      ensures sent == if Askable(old(nodes[i]), now) then 1 else 0
      ensures sent == 0 ==> nodes[..numnodes] == old(nodes[..numnodes])
      ensures sent == 1 ==> nodes[..numnodes] == old(nodes[..numnodes])[i := Asked(old(nodes[i]), now)]
    {
      ghost var l := nodes[..numnodes];
      var n := nodes[i];
      if n.pinged >= 3 || n.replied || n.requestTime >= now - RETRANSMIT {
        return 0;
      }
      nodes[i] := n.(pinged := n.pinged + 1, requestTime := now);
      assert nodes[..numnodes] == l[i := Asked(n, now)];
      assert IdsOf(nodes[..numnodes]) == IdsOf(l);
      sent := 1;
    }

    /** After a reply: asks the last candidate that may be asked. */
    method AskOne(now: int) returns (sent: nat)
      requires Valid()
      modifies nodes
      ensures Valid()
      ensures sent == 0 <==> forall m | 0 <= m < numnodes :: !Askable(old(nodes[m]), now)
      ensures sent == 0 ==> nodes[..numnodes] == old(nodes[..numnodes])
      ensures sent != 0 ==> sent == 1
      ensures sent != 0 ==>
                exists i | 0 <= i < numnodes ::
                  && Askable(old(nodes[i]), now)
                  && (forall m | i < m < numnodes :: !Askable(old(nodes[m]), now))
                  && nodes[..numnodes] == old(nodes[..numnodes])[i := Asked(old(nodes[i]), now)]
    {
      var pick: nat, i: nat := numnodes, 0;
      while i < numnodes
        invariant i <= numnodes && pick <= numnodes
        invariant pick == numnodes || (pick < i && Askable(nodes[pick], now))
        invariant forall m | 0 <= m < i && (pick == numnodes || pick < m) :: !Askable(nodes[m], now)
      {
        if Askable(nodes[i], now) {
          pick := i;
        }
        i := i + 1;
      }
      if pick == numnodes {
        return 0;
      }
      sent := Ask(pick, now);
    }

    /** A candidate has confirmed an announcement. */
    method AnnounceAcked(id: Id, now: int)
      requires Valid()
      modifies nodes
      ensures Valid()
      ensures forall i | 0 <= i < numnodes ::
                nodes[i] == if old(nodes[i]).id != id then old(nodes[i])
                            else old(nodes[i]).(requestTime := 0, replyTime := now, acked := true, pinged := 0)
    {
      ghost var l := nodes[..numnodes];
      var i := 0;
      while i < numnodes && nodes[i].id != id
        invariant i <= numnodes && forall m | 0 <= m < i :: nodes[m].id != id
      {
        i := i + 1;
      }
      if i < numnodes {
        nodes[i] := nodes[i].(requestTime := 0, replyTime := now, acked := true, pinged := 0);
        OnceOnly(l, i, target);
        IdsUnchanged(l, i, nodes[i]);
        assert nodes[..numnodes] == l[i := nodes[i]];
      }
    }

    /** One periodic step of the search. */
    method SearchStep(now: int)
      requires Valid()
      modifies this, nodes
      ensures Valid()
      ensures State() == Step(old(State()), now)
    {
      var allDone := FrontReplied();
      if allDone {
        if port == 0 {
          done, stepTime := true, now;
          return;
        }
        var allAcked := AnnounceAll(now);
        if allAcked {
          done := true;
        }
        stepTime := now;
        return;
      }
      if stepTime + RETRANSMIT >= now {
        return;
      }
      AskAll(now);
      stepTime := now;
    }

    /** Have the first eight live candidates replied? */
    method FrontReplied() returns (all: bool)
      requires Valid()
      ensures all == AllReplied(nodes[..numnodes], TARGET_LIVE)
    {
      ghost var l := nodes[..numnodes];
      var i, j := 0, 0;
      while i < numnodes && j < TARGET_LIVE
        invariant i <= numnodes && j <= TARGET_LIVE
        invariant AllReplied(l, TARGET_LIVE) == AllReplied(l[i..], TARGET_LIVE - j)
      {
        var n := nodes[i];
        assert l[i] == n && l[i..][1..] == l[i + 1..];
        if Live(n) {
          assert Front(l[i..], TARGET_LIVE - j) == [n] + Front(l[i + 1..], TARGET_LIVE - j - 1);
          if !n.replied {
            assert n in Front(l[i..], TARGET_LIVE - j);
            return false;
          }
          j := j + 1;
        }
        i := i + 1;
      }
      all := true;
    }

    /** Announces to the first eight live candidates that have not acked. */
    method AnnounceAll(now: int) returns (all: bool)
      requires Valid()
      modifies nodes
      ensures Valid()
      ensures nodes[..numnodes] == AnnounceFront(old(nodes[..numnodes]), TARGET_LIVE, now)
      ensures all == AllAcked(old(nodes[..numnodes]), TARGET_LIVE)
    {
      ghost var l := nodes[..numnodes];
      var i: nat, j: nat := 0, 0;
      all := true;
      while i < numnodes && j < TARGET_LIVE
        modifies nodes
        invariant i <= numnodes && j <= TARGET_LIVE
        invariant AnnouncedSoFar(nodes[..numnodes], l, i, TARGET_LIVE - j, all, now)
      {
        j, all := AnnounceTurn(l, i, j, all, now);
        i := i + 1;
      }
      AnnounceEnd(nodes[..numnodes], l, i, TARGET_LIVE - j, all, now);
    }

    /** One turn of the announce loop. */
    method AnnounceTurn(ghost l: seq<SearchNode>, i: nat, j: nat, all: bool, now: int)
      returns (j': nat, all': bool)
      requires nodes.Length == SEARCH_NODES && i < numnodes <= SEARCH_NODES && j < TARGET_LIVE
      requires AnnouncedSoFar(nodes[..numnodes], l, i, TARGET_LIVE - j, all, now)
      modifies nodes
      ensures j' <= TARGET_LIVE
      ensures AnnouncedSoFar(nodes[..numnodes], l, i + 1, TARGET_LIVE - j', all', now)
    {
      ghost var c := nodes[..numnodes];
      AnnounceOne(c, l, i, TARGET_LIVE - j, all, now);
      if Live(nodes[i]) {
        var acked := AnnounceTo(i, now);
        return j + 1, all && acked;
      }
      assert c[i := c[i]] == c;
      return j, all;
    }

    /** Candidate i: count a missing token as an ack, else announce unless already acked. */
    method AnnounceTo(i: nat, now: int) returns (acked: bool)
      requires nodes.Length == SEARCH_NODES && i < numnodes <= SEARCH_NODES
      modifies nodes
      ensures nodes[..numnodes] == old(nodes[..numnodes])[i := Announced(old(nodes[i]), now)]
      ensures acked <==> old(nodes[i]).acked || old(nodes[i]).token == []
    {
      ghost var c := nodes[..numnodes];
      var n := nodes[i];
      acked := true;
      if n.token == [] {
        n := n.(acked := true);
      }
      if !n.acked {
        acked := false;
        n := n.(pinged := n.pinged + 1, requestTime := now);
      }
      nodes[i] := n;
      assert nodes[..numnodes] == c[i := n];
    }

    method AskHere(i: nat, now: int, ghost l: seq<SearchNode>, ghost quota: nat, ghost goal: seq<SearchNode>)
      returns (sent: nat, next: nat, ghost left: nat)
      requires Valid() && i < numnodes && quota > 0 && AskedSoFar(nodes[..numnodes], l, i, quota, now, goal)
      modifies nodes
      ensures Valid() && sent <= 1 && next == i + 1 && left == quota - sent
      ensures AskedSoFar(nodes[..numnodes], l, next, left, now, goal)
    {
      ghost var c := nodes[..numnodes];
      sent := Ask(i, now);
      next, left := i + 1, quota - sent;
      AskTurn(c, l, i, quota, now, goal, sent, nodes[..numnodes], next, left);
    }

    /** Asks candidates in order until four requests went out. */
    method AskAll(now: int)
      requires Valid()
      modifies nodes
      ensures Valid()
      ensures nodes[..numnodes] == AskSome(old(nodes[..numnodes]), INFLIGHT_QUERIES, now)
    {
      AskUpTo(INFLIGHT_QUERIES, now);
    }

    method AskUpTo(most: nat, now: int)
      requires Valid()
      modifies nodes
      ensures Valid()
      ensures nodes[..numnodes] == AskSome(old(nodes[..numnodes]), most, now)
    {
      ghost var l, quota := nodes[..numnodes], most;
      ghost var goal := AskSome(l, quota, now);
      NoneAsked(l, quota, now, goal);
      var i, j := 0, 0;
      while i < numnodes && j < most
        invariant i <= numnodes && quota == most - j
        invariant Valid()
        invariant AskedSoFar(nodes[..numnodes], l, i, quota, now, goal)
      {
        var sent;
        sent, i, quota := AskHere(i, now, l, quota, goal);
        j := j + sent;
      }
      AskedAll(nodes[..numnodes], l, i, quota, now, goal);
    }

    /** Reusing an old search: doubtful candidates are flushed, the others start afresh. */
    method Restart(now: int)
      requires Valid()
      modifies this`numnodes, this`done, nodes
      ensures Valid() && !done
      ensures nodes[..numnodes] == Renewed(old(nodes[..numnodes]), now)
      ensures Afresh(old(nodes[..numnodes]), nodes[..numnodes], now)
    {
      done := false;
      ghost var l := nodes[..numnodes];
      var i := 0;
      while i < numnodes
        invariant Valid() && i <= numnodes && !done
        invariant forall m | 0 <= m < i :: !Doubtful(nodes[m], now) && Reset(nodes[m]) == nodes[m]
        invariant Renewed(nodes[..numnodes], now) == Renewed(l, now)
        decreases numnodes, numnodes - i
      {
        ghost var was := nodes[..numnodes];
        if Doubtful(nodes[i], now) {
          RenewedWithout(was, i, now);
          FlushSearchNode(i);
          i := 0;
        } else {
          RenewedReset(was, i, now);
          nodes[i] := nodes[i].(pinged := 0, token := [], replied := false, acked := false);
          assert IdsOf(nodes[..numnodes]) == IdsOf(was);
          assert nodes[..numnodes] == was[i := Reset(was[i])];
          i := i + 1;
        }
      }
      RenewedFixed(nodes[..numnodes], now);
      RenewedIsAfresh(l, now);
    }
  }

  /** Mid-way through the announce pass: entries before i are final, those from i on untouched, and
      `all` says whether everybody met so far had acked. */
  ghost predicate AnnouncedSoFar(c: seq<SearchNode>, l: seq<SearchNode>, i: nat, room: nat, all: bool, now: int) {
    && i <= |c| == |l|
    && c[i..] == l[i..]
    && c[..i] + AnnounceFront(l[i..], room, now) == AnnounceFront(l, TARGET_LIVE, now)
    && IdsOf(c) == IdsOf(l)
    && AllAcked(l, TARGET_LIVE) == (all && AllAcked(l[i..], room))
  }

  lemma AnnounceOne(c: seq<SearchNode>, l: seq<SearchNode>, i: nat, room: nat, all: bool, now: int)
    requires AnnouncedSoFar(c, l, i, room, all, now) && i < |l| && room > 0
    ensures c[i] == l[i]
    ensures !Live(l[i]) ==> AnnouncedSoFar(c[i := l[i]], l, i + 1, room, all, now)
    ensures Live(l[i]) ==> AnnouncedSoFar(c[i := Announced(l[i], now)], l, i + 1, room - 1,
                                          all && (l[i].acked || l[i].token == []), now)
  {
    var x := if Live(l[i]) then Announced(l[i], now) else l[i];
    var rest := AnnounceFront(l[i + 1..], if Live(l[i]) then room - 1 else room, now);
    StepForward(c, l, i, x);
    assert AnnounceFront(l[i..], room, now) == [x] + rest;
    ConcatAssoc(c[..i], [x], rest);
    IdsUnchanged(c, i, x);
  }

  lemma AnnounceEnd(c: seq<SearchNode>, l: seq<SearchNode>, i: nat, room: nat, all: bool, now: int)
    requires AnnouncedSoFar(c, l, i, room, all, now) && (i == |l| || room == 0)
    ensures c == AnnounceFront(l, TARGET_LIVE, now) && IdsOf(c) == IdsOf(l)
    ensures AllAcked(l, TARGET_LIVE) == all
  {
    assert AnnounceFront(l[i..], room, now) == c[i..];
    assert c == c[..i] + c[i..];
  }

  lemma IdsUnchanged(c: seq<SearchNode>, i: nat, x: SearchNode)
    requires i < |c| && x.id == c[i].id
    ensures IdsOf(c[i := x]) == IdsOf(c)
  {
  }

  /** Mid-way through the query pass. */
  ghost predicate AskedSoFar(c: seq<SearchNode>, l: seq<SearchNode>, i: nat, quota: nat, now: int,
                             goal: seq<SearchNode>) {
    && i <= |c| == |l|
    && c[i..] == l[i..]
    && c[..i] + AskSome(l[i..], quota, now) == goal
  }

  lemma AskNext(c: seq<SearchNode>, l: seq<SearchNode>, i: nat, quota: nat, now: int, goal: seq<SearchNode>)
    requires AskedSoFar(c, l, i, quota, now, goal) && i < |l| && quota > 0
    ensures c[i] == l[i]
    ensures AskedSoFar(c[i := if Askable(l[i], now) then Asked(l[i], now) else l[i]], l, i + 1,
                       if Askable(l[i], now) then quota - 1 else quota, now, goal)
  {
    var x := if Askable(l[i], now) then Asked(l[i], now) else l[i];
    var rest := AskSome(l[i + 1..], if Askable(l[i], now) then quota - 1 else quota, now);
    StepForward(c, l, i, x);
    assert AskSome(l[i..], quota, now) == [x] + rest;
    ConcatAssoc(c[..i], [x], rest);
  }

  lemma NoneAsked(l: seq<SearchNode>, quota: nat, now: int, goal: seq<SearchNode>)
    requires goal == AskSome(l, quota, now)
    ensures AskedSoFar(l, l, 0, quota, now, goal)
  {
    assert l[0..] == l;
    EmptyConcat(l[..0], goal);
  }

  lemma AskedAll(c: seq<SearchNode>, l: seq<SearchNode>, i: nat, quota: nat, now: int, goal: seq<SearchNode>)
    requires AskedSoFar(c, l, i, quota, now, goal) && (i == |l| || quota == 0)
    ensures c == goal
  {
    assert AskSome(l[i..], quota, now) == l[i..];
    assert c == c[..i] + c[i..];
  }

  /** The same, given what one request does to the list. */
  lemma AskTurn(c: seq<SearchNode>, l: seq<SearchNode>, i: nat, quota: nat, now: int, goal: seq<SearchNode>,
                sent: nat, r: seq<SearchNode>, next: nat, left: nat)
    requires AskedSoFar(c, l, i, quota, now, goal) && i < |l| && quota > 0
    requires sent == if Askable(c[i], now) then 1 else 0
    requires r == if sent == 1 then c[i := Asked(c[i], now)] else c
    requires next == i + 1 && left == quota - sent
    ensures AskedSoFar(r, l, next, left, now, goal)
  {
    AskNext(c, l, i, quota, now, goal);
    assert c[i := c[i]] == c;
  }

  /** Sorted candidates are distinct. */
  lemma OnceOnly(l: seq<SearchNode>, i: nat, target: Id)
    requires Sorted(IdsOf(l), target) && i < |l|
    ensures forall m | 0 <= m < |l| && m != i :: l[m].id != l[i].id
  {
    forall m | 0 <= m < |l| && m != i ensures l[m].id != l[i].id {
      assert IdsOf(l)[m] == l[m].id && IdsOf(l)[i] == l[i].id;
    }
  }

  lemma {:induction false} RenewedWithout(l: seq<SearchNode>, i: nat, now: int)
    requires i < |l| && Doubtful(l[i], now)
    ensures Renewed(l[..i] + l[i + 1..], now) == Renewed(l, now)
  {
    var r := l[..i] + l[i + 1..];
    if i == 0 {
      assert r == l[1..];
    } else {
      RenewedWithout(l[1..], i - 1, now);
      assert r[1..] == l[1..][..i - 1] + l[1..][i..];
    }
  }

  lemma {:induction false} RenewedReset(l: seq<SearchNode>, i: nat, now: int)
    requires i < |l| && !Doubtful(l[i], now)
    ensures Renewed(l[i := Reset(l[i])], now) == Renewed(l, now)
  {
    var r := l[i := Reset(l[i])];
    if i == 0 {
      assert r[1..] == l[1..];
    } else {
      RenewedReset(l[1..], i - 1, now);
      assert r[1..] == l[1..][i - 1 := Reset(l[i])];
    }
  }

  lemma {:induction false} RenewedFixed(l: seq<SearchNode>, now: int)
    requires forall m | 0 <= m < |l| :: !Doubtful(l[m], now) && Reset(l[m]) == l[m]
    ensures Renewed(l, now) == l
  {
    if l != [] {
      RenewedFixed(l[1..], now);
    }
  }
}
