/** A search over its whole history: what a candidate is said to have answered is what it did answer, whatever
    requests, acks, steps and other candidates came in between, and that is what ends the search. */
module SearchHistory {
  import opened Wrappers
  import opened Ids
  import opened Closest
  import opened RoutingTable
  import opened SearchSteps
  import opened Searches

  /** A candidate is offered, one is sent a request between steps, one confirms an announcement, or the search
      makes a step. */
  datatype Event = Offer(c: Candidate) | Push(i: nat, now: int) | Ack(i: nat, now: int) | Call(now: int)

  predicate Can(s: SearchState, e: Event) {
    match e
    case Offer(_) => |s.nodes| <= SEARCH_NODES
    case Push(i, now) => i < |s.nodes| && Askable(s.nodes[i], now)
    case Ack(i, _) => i < |s.nodes|
    case Call(_) => true
  }

  function Next(s: SearchState, target: Id, e: Event): SearchState
    requires Can(s, e)
  {
    match e
    case Offer(c) => s.(nodes := Offered(s.nodes, c.id, c.addr, c.replied, c.token, target, c.now))
    case Push(i, now) => s.(nodes := s.nodes[i := Asked(s.nodes[i], now)])
    case Ack(i, now) =>
      s.(nodes := s.nodes[i := s.nodes[i].(requestTime := 0, replyTime := now, acked := true, pinged := 0)])
    case Call(now) => Step(s, now)
  }

  function Init(es: seq<Event>): seq<Event>
    requires es != []
  {
    es[..|es| - 1]
  }

  /** A new search with this port, after these events. */
  ghost predicate Runs(port: nat, target: Id, es: seq<Event>)
    decreases |es|, 0
  {
    es == [] || (Runs(port, target, Init(es)) && Can(Play(port, target, Init(es)), es[|es| - 1]))
  }

  ghost function Play(port: nat, target: Id, es: seq<Event>): SearchState
    requires Runs(port, target, es)
    decreases |es|, 1
  {
    if es == [] then SearchState(port, 0, false, []) else Next(Play(port, target, Init(es)), target, es[|es| - 1])
  }

  // ----- what was said of an id -----

  ghost function EverOffered(es: seq<Event>): set<Id> {
    if es == [] then {}
    else EverOffered(Init(es)) + (if es[|es| - 1].Offer? then {es[|es| - 1].c.id} else {})
  }

  predicate About(e: Event, id: Id) {
    e.Offer? && e.c.id == id
  }

  /** Did it ever answer a request? */
  ghost predicate HasReplied(es: seq<Event>, id: Id) {
    exists e :: e in es && About(e, id) && e.c.replied
  }

  /** Its last token of less than 40 bytes, and its last address. */
  function LastToken(es: seq<Event>, id: Id): seq<bv8> {
    if es == [] then []
    else
      var e := es[|es| - 1];
      if About(e, id) && e.c.token.Some? && |e.c.token.value| < 40 then e.c.token.value else LastToken(Init(es), id)
  }

  function LastAddress(es: seq<Event>, id: Id, otherwise: Address): Address {
    if es == [] then otherwise
    else if About(es[|es| - 1], id) then es[|es| - 1].c.addr
    else LastAddress(Init(es), id, otherwise)
  }

  /** The entry says what was said. */
  ghost predicate Faithful(n: SearchNode, es: seq<Event>) {
    && (n.replied <==> HasReplied(es, n.id))
    && n.token == LastToken(es, n.id)
    && n.addr == LastAddress(es, n.id, n.addr)
    && n.id in EverOffered(es)
  }

  /** Two entries that say the same of the same id. */
  predicate SaysTheSame(a: SearchNode, b: SearchNode) {
    a.id == b.id && a.addr == b.addr && a.replied == b.replied && a.token == b.token
  }

  lemma OthersSayNothing(es: seq<Event>, id: Id)
    requires es != [] && !About(es[|es| - 1], id)
    ensures HasReplied(es, id) <==> HasReplied(Init(es), id)
    ensures LastToken(es, id) == LastToken(Init(es), id)
    ensures forall a :: LastAddress(es, id, a) == LastAddress(Init(es), id, a)
  {
    assert es == Init(es) + [es[|es| - 1]];
  }

  lemma {:induction false} NeverOffered(es: seq<Event>, id: Id)
    requires id !in EverOffered(es)
    ensures !HasReplied(es, id) && LastToken(es, id) == []
  {
    if es != [] {
      NeverOffered(Init(es), id);
      OthersSayNothing(es, id);
    }
  }

  lemma FaithfulCarries(a: SearchNode, b: SearchNode, es: seq<Event>)
    requires es != [] && SaysTheSame(a, b) && Faithful(a, Init(es)) && !About(es[|es| - 1], a.id)
    ensures Faithful(b, es)
  {
    OthersSayNothing(es, a.id);
  }

  // ----- steps say nothing -----

  lemma {:induction false} AskSays(ns: seq<SearchNode>, quota: nat, now: int)
    ensures forall i | 0 <= i < |ns| :: SaysTheSame(ns[i], AskSome(ns, quota, now)[i])
  {
    forall i | 0 <= i < |ns| ensures SaysTheSame(ns[i], AskSome(ns, quota, now)[i]) {
      AskKeeps(ns, quota, now, i);
    }
  }

  lemma {:induction false} AnnounceSays(ns: seq<SearchNode>, room: nat, now: int)
    ensures forall i | 0 <= i < |ns| :: SaysTheSame(ns[i], AnnounceFront(ns, room, now)[i])
  {
    forall i | 0 <= i < |ns| ensures SaysTheSame(ns[i], AnnounceFront(ns, room, now)[i]) {
      AnnounceKeeps(ns, room, now, i);
    }
  }

  lemma QuietStep(s: SearchState, target: Id, e: Event)
    requires Can(s, e) && !e.Offer?
    ensures var t := Next(s, target, e);
            && |t.nodes| == |s.nodes| && t.port == s.port && IdsOf(t.nodes) == IdsOf(s.nodes)
            && forall i | 0 <= i < |s.nodes| :: SaysTheSame(s.nodes[i], t.nodes[i])
  {
    AskSays(s.nodes, INFLIGHT_QUERIES, if e.Call? then e.now else 0);
    AnnounceSays(s.nodes, TARGET_LIVE, if e.Call? then e.now else 0);
  }

  // ----- an offer says what it says -----

  /** A new candidate was never offered before: whoever was and is no longer listed is farther than fourteen
      others. */
  lemma NewWasNeverOffered(l: seq<SearchNode>, s: set<Id>, id: Id, target: Id)
    requires IsTop(IdsOf(l), SEARCH_NODES, s, target) && id !in IdsOf(l) && Place(IdsOf(l), id, target) < SEARCH_NODES
    ensures id !in s
  {
    SortedCount(IdsOf(l), target);
    SubsetCount(SetOf(IdsOf(l)), s);
    PlaceOrders(IdsOf(l), id, target);
    if |l| < SEARCH_NODES {
      assert SetOf(IdsOf(l)) == s;
    } else {
      assert IdsOf(l)[Place(IdsOf(l), id, target)] in SetOf(IdsOf(l));
    }
  }

  lemma OfferedSays(es: seq<Event>, was: Option<SearchNode>, from: SearchNode)
    requires es != [] && es[|es| - 1].Offer?
    requires var c := es[|es| - 1].c;
             from.id == c.id && from == if was.Some? then was.value else Blank(c.id, c.addr)
    requires if was.Some? then Faithful(was.value, Init(es)) else es[|es| - 1].c.id !in EverOffered(Init(es))
    ensures var c := es[|es| - 1].c; Faithful(Touched(from, c.addr, c.replied, c.token, c.now), es)
  {
    var e := es[|es| - 1];
    var c := e.c;
    TouchRecords(was, from, c.id, c.addr, c.replied, c.token, c.now);
    assert es == Init(es) + [e];
    assert About(e, c.id);
    if was.None? {
      NeverOffered(Init(es), c.id);
    }
    assert HasReplied(es, c.id) <==> c.replied || HasReplied(Init(es), c.id);
  }

  lemma OfferKeepsFaithful(l: seq<SearchNode>, es: seq<Event>, target: Id)
    requires es != [] && es[|es| - 1].Offer? && |l| <= SEARCH_NODES
    requires IsTop(IdsOf(l), SEARCH_NODES, EverOffered(Init(es)), target)
    requires forall n | n in l :: Faithful(n, Init(es))
    ensures var c := es[|es| - 1].c;
            forall n | n in Offered(l, c.id, c.addr, c.replied, c.token, target, c.now) :: Faithful(n, es)
  {
    var c := es[|es| - 1].c;
    var r := Offered(l, c.id, c.addr, c.replied, c.token, target, c.now);
    var p := Place(IdsOf(l), c.id, target);
    PlaceOrders(IdsOf(l), c.id, target);
    forall n | n in l && n.id != c.id ensures Faithful(n, es) {
      FaithfulCarries(n, n, es);
    }
    if Listed(IdsOf(l), c.id, target) {
      OnceOnly(l, p, target);
      OfferedSays(es, Some(l[p]), l[p]);
      UpdatedAre(l, p, r);
    } else {
      NotListed(l, c.id);
      if p < SEARCH_NODES {
        NewWasNeverOffered(l, EverOffered(Init(es)), c.id, target);
        OfferedSays(es, None, Blank(c.id, c.addr));
        InsertedAre(l, p, Touched(Blank(c.id, c.addr), c.addr, c.replied, c.token, c.now), r);
      }
    }
  }

  lemma NotListed(l: seq<SearchNode>, id: Id)
    requires id !in IdsOf(l)
    ensures forall n | n in l :: n.id != id
  {
    forall n | n in l ensures n.id != id {
      var m :| 0 <= m < |l| && l[m] == n;
      assert IdsOf(l)[m] == n.id;
    }
  }

  lemma UpdatedAre(l: seq<SearchNode>, p: nat, r: seq<SearchNode>)
    requires p < |l| && |r| == |l| && r == l[p := r[p]] && forall m | 0 <= m < |l| && m != p :: l[m].id != l[p].id
    ensures forall n | n in r :: n == r[p] || (n in l && n.id != l[p].id)
  {
    forall n | n in r ensures n == r[p] || (n in l && n.id != l[p].id) {
      var m :| 0 <= m < |r| && r[m] == n;
      assert m != p ==> l[m] == n;
    }
  }

  lemma InsertedAre(l: seq<SearchNode>, p: nat, x: SearchNode, r: seq<SearchNode>)
    requires p <= |l| <= SEARCH_NODES && p < SEARCH_NODES && r == InsertAt(l, p, x, SEARCH_NODES)
    ensures forall n | n in r :: n == x || n in l
  {
  }

  // ----- whole histories -----

  lemma {:induction false} HistoryIsFaithful(port: nat, target: Id, es: seq<Event>)
    requires Runs(port, target, es)
    ensures var s := Play(port, target, es);
            && s.port == port && |s.nodes| <= SEARCH_NODES
            && IsTop(IdsOf(s.nodes), SEARCH_NODES, EverOffered(es), target)
            && forall n | n in s.nodes :: Faithful(n, es)
    decreases |es|
  {
    if es == [] {
      assert IdsOf([]) == [];
    } else {
      var s, e := Play(port, target, Init(es)), es[|es| - 1];
      HistoryIsFaithful(port, target, Init(es));
      if e.Offer? {
        OfferedTop(s.nodes, e.c, EverOffered(Init(es)), target);
        OfferKeepsFaithful(s.nodes, es, target);
      } else {
        QuietStep(s, target, e);
        QuietKeepsFaithful(s.nodes, Next(s, target, e).nodes, es);
        assert EverOffered(es) == EverOffered(Init(es));
      }
    }
  }

  lemma QuietKeepsFaithful(l: seq<SearchNode>, r: seq<SearchNode>, es: seq<Event>)
    requires es != [] && !es[|es| - 1].Offer? && |r| == |l|
    requires forall i | 0 <= i < |l| :: SaysTheSame(l[i], r[i])
    requires forall n | n in l :: Faithful(n, Init(es))
    ensures forall n | n in r :: Faithful(n, es)
  {
    forall n | n in r ensures Faithful(n, es) {
      var i :| 0 <= i < |r| && r[i] == n;
      assert l[i] in l;
      FaithfulCarries(l[i], n, es);
    }
  }

  /** Of all ids ever offered the search holds the fourteen closest, and of each it knows what it was told: that
      it replied iff it did, its last token and its last address. */
  lemma CandidatesByHistory(port: nat, target: Id, es: seq<Event>)
    requires Runs(port, target, es)
    ensures var s := Play(port, target, es);
            && IsTop(IdsOf(s.nodes), 14, EverOffered(es), target)
            && forall n | n in s.nodes ::
                 && (n.replied <==> exists e :: e in es && About(e, n.id) && e.c.replied)
                 && n.token == LastToken(es, n.id)
                 && n.addr == LastAddress(es, n.id, n.addr)
  {
    HistoryIsFaithful(port, target, es);
  }

  /** Whoever has replied has no request unanswered. */
  ghost predicate RepliedAreLive(l: seq<SearchNode>) {
    forall n | n in l && n.replied :: n.pinged == 0
  }

  lemma OneMoreIsLive(l: seq<SearchNode>, x: SearchNode, r: seq<SearchNode>)
    requires RepliedAreLive(l) && (x.replied ==> x.pinged == 0) && forall n | n in r :: n == x || n in l
    ensures RepliedAreLive(r)
  {
  }

  lemma OfferLeavesLive(l: seq<SearchNode>, c: Candidate, target: Id)
    requires |l| <= SEARCH_NODES && RepliedAreLive(l)
    ensures RepliedAreLive(Offered(l, c.id, c.addr, c.replied, c.token, target, c.now))
  {
    var p, r := Place(IdsOf(l), c.id, target), Offered(l, c.id, c.addr, c.replied, c.token, target, c.now);
    if Listed(IdsOf(l), c.id, target) {
      assert l[p] in l;
      OneMoreIsLive(l, r[p], r);
    } else if p < SEARCH_NODES {
      var x := Touched(Blank(c.id, c.addr), c.addr, c.replied, c.token, c.now);
      InsertedAre(l, p, x, r);
      OneMoreIsLive(l, x, r);
    }
  }

  lemma AskingLeavesLive(l: seq<SearchNode>, quota: nat, now: int)
    requires RepliedAreLive(l)
    ensures RepliedAreLive(AskSome(l, quota, now))
  {
    var r := AskSome(l, quota, now);
    forall n | n in r && n.replied ensures n.pinged == 0 {
      var i :| 0 <= i < |l| && r[i] == n;
      AskKeeps(l, quota, now, i);
      assert l[i] in l;
    }
  }

  lemma EventLeavesLive(s: SearchState, target: Id, e: Event)
    requires Can(s, e) && s.port == 0 && RepliedAreLive(s.nodes)
    ensures RepliedAreLive(Next(s, target, e).nodes)
  {
    match e
    case Offer(c) => OfferLeavesLive(s.nodes, c, target);
    case Push(i, now) => OneMoreIsLive(s.nodes, Asked(s.nodes[i], now), Next(s, target, e).nodes);
    case Ack(i, now) => OneMoreIsLive(s.nodes, Next(s, target, e).nodes[i], Next(s, target, e).nodes);
    case Call(now) => AskingLeavesLive(s.nodes, INFLIGHT_QUERIES, now);
  }

  /** In a search without an announcement whoever has replied stays live: no request counts against it. */
  lemma {:induction false} RepliedStaysLive(target: Id, es: seq<Event>)
    requires Runs(0, target, es)
    ensures Play(0, target, es).port == 0
    ensures forall n | n in Play(0, target, es).nodes && n.replied :: n.pinged == 0 && Live(n)
    decreases |es|
  {
    if es != [] {
      RepliedStaysLive(target, Init(es));
      EventLeavesLive(Play(0, target, Init(es)), target, es[|es| - 1]);
    }
  }

  /** A search without an announcement is done after a step exactly if the first eight live candidates have all
      replied at some time. */
  lemma DoneWhenAllHaveReplied(target: Id, es: seq<Event>, now: int)
    requires Runs(0, target, es) && !Play(0, target, es).done
    ensures Step(Play(0, target, es), now).done <==>
            forall n | n in Front(Play(0, target, es).nodes, 8) :: HasReplied(es, n.id)
  {
    var s := Play(0, target, es);
    HistoryIsFaithful(0, target, es);
    DoneIffFrontSatisfied(s, now);
    UnrepliedInFront(s.nodes, TARGET_LIVE);
  }

  /** One with an announcement is done if all of them have replied and none owes an ack. */
  lemma DoneWhenAllHaveAcked(port: nat, target: Id, es: seq<Event>, now: int)
    requires Runs(port, target, es) && port != 0 && !Play(port, target, es).done
    ensures Step(Play(port, target, es), now).done <==>
            forall n | n in Front(Play(port, target, es).nodes, 8) ::
              HasReplied(es, n.id) && (n.acked || LastToken(es, n.id) == [])
  {
    var s := Play(port, target, es);
    HistoryIsFaithful(port, target, es);
    DoneIffFrontSatisfied(s, now);
    UnrepliedInFront(s.nodes, TARGET_LIVE);
  }
}
