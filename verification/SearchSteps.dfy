/** What one step of a search does to its candidates, and why a search on a silent network ends. */
module SearchSteps {
  import opened Wrappers
  import opened Ids
  import opened RoutingTable

  const SEARCH_NODES: nat := 14
  const RETRANSMIT: int := 10
  const INFLIGHT_QUERIES: nat := 4
  const TARGET_LIVE: nat := 8

  datatype SearchNode = SearchNode(
    id: Id, addr: Address, requestTime: int, replyTime: int, pinged: nat,
    token: seq<bv8>, replied: bool, acked: bool)

  datatype SearchState = SearchState(port: nat, stepTime: int, done: bool, nodes: seq<SearchNode>)

  predicate Live(n: SearchNode) {
    n.pinged < 3
  }

  /** May be asked again: alive, has not answered, and no request is still in flight. */
  predicate Askable(n: SearchNode, now: int) {
    n.pinged < 3 && !n.replied && n.requestTime < now - RETRANSMIT
  }

  function Asked(n: SearchNode, now: int): SearchNode {
    n.(pinged := n.pinged + 1, requestTime := now)
  }

  /** The candidates that still count: alive, at most eight, closest first. */
  function Front(ns: seq<SearchNode>, room: nat): seq<SearchNode> {
    if ns == [] || room == 0 then []
    else if Live(ns[0]) then [ns[0]] + Front(ns[1..], room - 1)
    else Front(ns[1..], room)
  }

  predicate Satisfied(n: SearchNode, port: nat) {
    n.replied && (port != 0 ==> n.acked || n.token == [])
  }

  predicate AllReplied(ns: seq<SearchNode>, room: nat) {
    forall n | n in Front(ns, room) :: n.replied
  }

  /** The announce pass over the front: whoever gave no token counts as acked, the others not yet
      acked are sent an announce_peer. */
  function Announced(n: SearchNode, now: int): SearchNode {
    if n.token == [] then n.(acked := true)
    else if n.acked then n
    else Asked(n, now)
  }

  function AnnounceFront(ns: seq<SearchNode>, room: nat, now: int): (r: seq<SearchNode>)
    ensures |r| == |ns|
  {
    if ns == [] || room == 0 then ns
    else if Live(ns[0]) then [Announced(ns[0], now)] + AnnounceFront(ns[1..], room - 1, now)
    else [ns[0]] + AnnounceFront(ns[1..], room, now)
  }

  predicate AllAcked(ns: seq<SearchNode>, room: nat) {
    if ns == [] || room == 0 then true
    else if Live(ns[0]) then (ns[0].acked || ns[0].token == []) && AllAcked(ns[1..], room - 1)
    else AllAcked(ns[1..], room)
  }

  lemma {:induction false} AllAckedMeans(ns: seq<SearchNode>, room: nat)
    ensures AllAcked(ns, room) <==> forall n | n in Front(ns, room) :: n.acked || n.token == []
  {
    if ns != [] && room > 0 {
      if Live(ns[0]) {
        AllAckedMeans(ns[1..], room - 1);
        assert Front(ns, room) == [ns[0]] + Front(ns[1..], room - 1);
      } else {
        AllAckedMeans(ns[1..], room);
      }
    }
  }

  /** The query pass: asks the first few askable candidates. */
  function AskSome(ns: seq<SearchNode>, quota: nat, now: int): (r: seq<SearchNode>)
    ensures |r| == |ns|
  {
    if ns == [] || quota == 0 then ns
    else if Askable(ns[0], now) then [Asked(ns[0], now)] + AskSome(ns[1..], quota - 1, now)
    else [ns[0]] + AskSome(ns[1..], quota, now)
  }

  function Step(s: SearchState, now: int): SearchState {
    if AllReplied(s.nodes, TARGET_LIVE) then
      if s.port == 0 then s.(done := true, stepTime := now)
      else
        s.(nodes := AnnounceFront(s.nodes, TARGET_LIVE, now), stepTime := now,
           done := s.done || AllAcked(s.nodes, TARGET_LIVE))
    else if s.stepTime + RETRANSMIT >= now then s
    else s.(nodes := AskSome(s.nodes, INFLIGHT_QUERIES, now), stepTime := now)
  }

  /** A step ends the search exactly when the eight closest live candidates are all satisfied. */
  lemma DoneIffFrontSatisfied(s: SearchState, now: int)
    requires !s.done
    ensures Step(s, now).done <==> forall n | n in Front(s.nodes, TARGET_LIVE) :: Satisfied(n, s.port)
  {
    var front := Front(s.nodes, TARGET_LIVE);
    AllAckedMeans(s.nodes, TARGET_LIVE);
    if forall n | n in front :: Satisfied(n, s.port) {
      assert AllReplied(s.nodes, TARGET_LIVE);
      assert s.port != 0 ==> AllAcked(s.nodes, TARGET_LIVE);
    } else {
      var n :| n in front && !Satisfied(n, s.port);
      assert AllReplied(s.nodes, TARGET_LIVE) ==> n.replied;
      assert AllAcked(s.nodes, TARGET_LIVE) ==> n.acked || n.token == [];
    }
  }

  // ----- the front is the eight closest live candidates -----

  function LiveNodes(ns: seq<SearchNode>): seq<SearchNode> {
    if ns == [] then []
    else if Live(ns[0]) then [ns[0]] + LiveNodes(ns[1..])
    else LiveNodes(ns[1..])
  }

  lemma {:induction false} FrontIsFirstLive(ns: seq<SearchNode>, room: nat)
    ensures Front(ns, room) == LiveNodes(ns)[..Min(room, |LiveNodes(ns)|)]
  {
    if ns != [] && room > 0 {
      if Live(ns[0]) {
        FrontIsFirstLive(ns[1..], room - 1);
      } else {
        FrontIsFirstLive(ns[1..], room);
      }
    }
  }

  // ----- a step, candidate by candidate -----

  /** How many of the candidates are alive, and how many of them may be asked. */
  function Lives(ns: seq<SearchNode>): nat {
    if ns == [] then 0 else (if ns[0].pinged < 3 then 1 else 0) + Lives(ns[1..])
  }

  function Askables(ns: seq<SearchNode>, now: int): nat {
    if ns == [] then 0
    else (if ns[0].pinged < 3 && !ns[0].replied && ns[0].requestTime < now - 10 then 1 else 0) + Askables(ns[1..], now)
  }

  lemma {:induction false} AskSomeAt(ns: seq<SearchNode>, quota: nat, now: int, i: nat)
    requires i < |ns|
    ensures AskSome(ns, quota, now)[i]
         == if Askable(ns[i], now) && Askables(ns[..i], now) < quota then Asked(ns[i], now) else ns[i]
    decreases |ns|
  {
    if quota > 0 && i > 0 {
      AskSomeAt(ns[1..], if Askable(ns[0], now) then quota - 1 else quota, now, i - 1);
      assert ns[..i][1..] == ns[1..][..i - 1];
    }
  }

  lemma {:induction false} AnnounceFrontAt(ns: seq<SearchNode>, room: nat, now: int, i: nat)
    requires i < |ns|
    ensures AnnounceFront(ns, room, now)[i]
         == if Live(ns[i]) && Lives(ns[..i]) < room then Announced(ns[i], now) else ns[i]
    decreases |ns|
  {
    if room > 0 && i > 0 {
      AnnounceFrontAt(ns[1..], if Live(ns[0]) then room - 1 else room, now, i - 1);
      assert ns[..i][1..] == ns[1..][..i - 1];
    }
  }

  /** While one of the first eight live candidates has not replied: nothing within ten seconds of the last step,
      then a request to the first four that are alive, have not replied and were not asked in the last ten
      seconds. Once they all have: without a port the search is done; with one the first eight live candidates
      are announced to, but for those that have acked or gave no token. */
  lemma StepAt(s: SearchState, now: int, i: nat)
    requires i < |s.nodes|
    ensures var t, n := Step(s, now), s.nodes[i];
            && |t.nodes| == |s.nodes|
            && (if exists x :: x in Front(s.nodes, 8) && !x.replied then
                  if now - s.stepTime <= 10 then t == s
                  else
                    && t.stepTime == now && t.done == s.done && t.port == s.port
                    && t.nodes[i] == if n.pinged < 3 && !n.replied && n.requestTime < now - 10
                                        && Askables(s.nodes[..i], now) < 4
                                     then n.(pinged := n.pinged + 1, requestTime := now) else n
                else if s.port == 0 then t == s.(done := true, stepTime := now)
                else
                  && t.stepTime == now && t.port == s.port
                  && t.nodes[i] == if n.pinged >= 3 || Lives(s.nodes[..i]) >= 8 then n
                                   else if n.token == [] then n.(acked := true)
                                   else if n.acked then n
                                   else n.(pinged := n.pinged + 1, requestTime := now))
  {
    AskSomeAt(s.nodes, INFLIGHT_QUERIES, now, i);
    AnnounceFrontAt(s.nodes, TARGET_LIVE, now, i);
  }

  // ----- silence -----

  /** How many more requests the candidates may be sent before all are given up. */
  function Patience(ns: seq<SearchNode>): nat {
    if ns == [] then 0
    else (if ns[0].pinged < 3 then 3 - ns[0].pinged else 0) + Patience(ns[1..])
  }

  lemma {:induction false} PatienceBound(ns: seq<SearchNode>)
    ensures Patience(ns) <= 3 * |ns|
  {
    if ns != [] {
      PatienceBound(ns[1..]);
    }
  }

  /** No request is newer than the last step. */
  ghost predicate Quiet(s: SearchState) {
    forall n | n in s.nodes :: n.requestTime <= s.stepTime
  }

  lemma {:induction false} AskingUsesPatience(ns: seq<SearchNode>, quota: nat, now: int)
    ensures Patience(AskSome(ns, quota, now)) <= Patience(ns)
    ensures quota > 0 && (exists n :: n in ns && Askable(n, now)) ==>
              Patience(AskSome(ns, quota, now)) < Patience(ns)
  {
    if ns != [] && quota > 0 {
      var r := AskSome(ns, quota, now);
      assert ns == [ns[0]] + ns[1..];
      if Askable(ns[0], now) {
        AskingUsesPatience(ns[1..], quota - 1, now);
        assert r[1..] == AskSome(ns[1..], quota - 1, now);
      } else {
        AskingUsesPatience(ns[1..], quota, now);
        assert r[1..] == AskSome(ns[1..], quota, now);
      }
    }
  }

  lemma {:induction false} AskedAreRecent(ns: seq<SearchNode>, quota: nat, now: int)
    ensures forall n | n in AskSome(ns, quota, now) :: n in ns || n.requestTime == now
  {
    if ns != [] && quota > 0 {
      var r, rest := AskSome(ns, quota, now), if Askable(ns[0], now) then quota - 1 else quota;
      AskedAreRecent(ns[1..], rest, now);
      assert r == [r[0]] + AskSome(ns[1..], rest, now);
      assert ns == [ns[0]] + ns[1..];
    }
  }

  lemma {:induction false} AnnouncingUsesPatience(ns: seq<SearchNode>, room: nat, now: int)
    ensures Patience(AnnounceFront(ns, room, now)) <= Patience(ns)
    ensures !AllAcked(ns, room) ==> Patience(AnnounceFront(ns, room, now)) < Patience(ns)
    ensures forall n | n in AnnounceFront(ns, room, now) ::
              n.requestTime == now || exists m :: m in ns && m.requestTime == n.requestTime
  {
    if ns != [] && room > 0 {
      var r := AnnounceFront(ns, room, now);
      var rest := if Live(ns[0]) then room - 1 else room;
      AnnouncingUsesPatience(ns[1..], rest, now);
      assert r[1..] == AnnounceFront(ns[1..], rest, now);
      assert r == [r[0]] + r[1..];
      assert ns == [ns[0]] + ns[1..];
      forall n | n in r
        ensures n.requestTime == now || exists m :: m in ns && m.requestTime == n.requestTime
      {
        if n == r[0] {
          assert ns[0] in ns;
        } else {
          assert n in r[1..];
        }
      }
    }
  }

  lemma {:induction false} UnrepliedInFront(ns: seq<SearchNode>, room: nat)
    ensures forall n | n in Front(ns, room) :: n in ns && Live(n)
  {
    if ns != [] && room > 0 {
      UnrepliedInFront(ns[1..], if Live(ns[0]) then room - 1 else room);
      assert ns == [ns[0]] + ns[1..];
    }
  }

  /** A call that does something: it is more than ten seconds after the last such one, or the front has
      replied. */
  predicate Acts(s: SearchState, now: int) {
    s.stepTime <= now && (AllReplied(s.nodes, TARGET_LIVE) || now > s.stepTime + RETRANSMIT)
  }

  lemma OtherCallsAreIdle(s: SearchState, now: int)
    requires s.stepTime <= now
    ensures if Acts(s, now) then Step(s, now).stepTime == now else Step(s, now) == s
  {
  }

  /** Such a call, with nothing heard since the one before: the search is done, or the candidates' patience
      has shrunk. */
  lemma SilentStepProgresses(s: SearchState, now: int)
    requires !s.done && Quiet(s) && Acts(s, now)
    ensures var t := Step(s, now);
            t.done || (Patience(t.nodes) < Patience(s.nodes) && Quiet(t) && t.stepTime == now)
  {
    if AllReplied(s.nodes, TARGET_LIVE) {
      AnnouncingUsesPatience(s.nodes, TARGET_LIVE, now);
    } else {
      UnrepliedInFront(s.nodes, TARGET_LIVE);
      var n :| n in Front(s.nodes, TARGET_LIVE) && !n.replied;
      assert Askable(n, now);
      AskingUsesPatience(s.nodes, INFLIGHT_QUERIES, now);
      AskedAreRecent(s.nodes, INFLIGHT_QUERIES, now);
    }
  }

  /** Steps at the given times until the search is done. */
  function Run(s: SearchState, times: seq<int>): SearchState
    decreases |times|
  {
    if times == [] || s.done then s else Run(Step(s, times[0]), times[1..])
  }

  /** Each of these calls does something, until the search is done. */
  predicate Effective(s: SearchState, times: seq<int>)
    decreases |times|
  {
    times == [] || s.done || (Acts(s, times[0]) && Effective(Step(s, times[0]), times[1..]))
  }

  /** A silent search is unfinished after at most Patience steps; the next one finishes it. */
  lemma {:induction false} SilentRunEnds(s: SearchState, times: seq<int>)
    requires Quiet(s) && Effective(s, times) && |times| > Patience(s.nodes)
    ensures Run(s, times).done
    decreases |times|
  {
    if !s.done {
      SilentStepProgresses(s, times[0]);
      var t := Step(s, times[0]);
      if t.done {
        assert Run(t, times[1..]) == t;
      } else {
        SilentRunEnds(t, times[1..]);
      }
    }
  }

  // ----- one step less than that -----

  lemma {:induction false} LivePatience(ns: seq<SearchNode>, i: nat)
    requires i < |ns| && Live(ns[i])
    ensures Patience(ns) > 0
  {
    if i > 0 {
      LivePatience(ns[1..], i - 1);
    }
  }

  lemma {:induction false} AskKeeps(ns: seq<SearchNode>, quota: nat, now: int, i: nat)
    requires i < |ns|
    ensures AskSome(ns, quota, now)[i] == ns[i]
            || (!ns[i].replied && AskSome(ns, quota, now)[i] == Asked(ns[i], now))
    decreases |ns|
  {
    if quota > 0 && i > 0 {
      AskKeeps(ns[1..], if Askable(ns[0], now) then quota - 1 else quota, now, i - 1);
    }
  }

  lemma {:induction false} AnnounceKeeps(ns: seq<SearchNode>, room: nat, now: int, i: nat)
    requires i < |ns|
    ensures AnnounceFront(ns, room, now)[i] == ns[i]
            || AnnounceFront(ns, room, now)[i] == Announced(ns[i], now)
    decreases |ns|
  {
    if room > 0 && i > 0 {
      AnnounceKeeps(ns[1..], if Live(ns[0]) then room - 1 else room, now, i - 1);
    }
  }

  /** Two that may be asked cost two requests at once. */
  lemma {:induction false} AskTwo(ns: seq<SearchNode>, quota: nat, now: int, i: nat, j: nat)
    requires quota >= 2 && i < j < |ns| && Askable(ns[i], now) && Askable(ns[j], now)
    ensures Patience(AskSome(ns, quota, now)) + 2 <= Patience(ns)
    decreases |ns|
  {
    var r := AskSome(ns, quota, now);
    if Askable(ns[0], now) {
      assert ns[1..][j - 1] == ns[j];
      AskingUsesPatience(ns[1..], quota - 1, now);
      assert r[1..] == AskSome(ns[1..], quota - 1, now);
    } else {
      AskTwo(ns[1..], quota, now, i - 1, j - 1);
      assert r[1..] == AskSome(ns[1..], quota, now);
    }
  }

  /** Nobody in the front has acked or can do without. */
  ghost predicate FrontUnacked(ns: seq<SearchNode>, room: nat) {
    forall n | n in Front(ns, room) :: !n.acked && n.token != []
  }

  lemma FrontOfRest(ns: seq<SearchNode>, room: nat)
    requires ns != [] && room > 0 && FrontUnacked(ns, room)
    ensures FrontUnacked(ns[1..], if Live(ns[0]) then room - 1 else room)
    ensures Live(ns[0]) ==> !ns[0].acked && ns[0].token != []
  {
    if Live(ns[0]) {
      assert Front(ns, room) == [ns[0]] + Front(ns[1..], room - 1);
      assert ns[0] in Front(ns, room);
    }
  }

  lemma {:induction false} LiveUnacked(ns: seq<SearchNode>, room: nat, i: nat)
    requires i < |ns| && Live(ns[i]) && room > 0 && FrontUnacked(ns, room)
    ensures !AllAcked(ns, room)
  {
    FrontOfRest(ns, room);
    if !Live(ns[0]) {
      LiveUnacked(ns[1..], room, i - 1);
    }
  }

  /** Two live candidates, with none acked in the front: two announces go out at once. */
  lemma {:induction false} AnnounceTwo(ns: seq<SearchNode>, room: nat, now: int, i: nat, j: nat)
    requires room >= 2 && i < j < |ns| && Live(ns[i]) && Live(ns[j]) && FrontUnacked(ns, room)
    ensures Patience(AnnounceFront(ns, room, now)) + 2 <= Patience(ns)
    decreases |ns|
  {
    var r := AnnounceFront(ns, room, now);
    FrontOfRest(ns, room);
    if Live(ns[0]) {
      LiveUnacked(ns[1..], room - 1, j - 1);
      AnnouncingUsesPatience(ns[1..], room - 1, now);
      assert r[1..] == AnnounceFront(ns[1..], room - 1, now);
    } else {
      AnnounceTwo(ns[1..], room, now, i - 1, j - 1);
      assert r[1..] == AnnounceFront(ns[1..], room, now);
    }
  }

  /** A live candidate that is satisfied stays so, and keeps its requests. */
  lemma SatisfiedStays(s: SearchState, now: int, i: nat)
    requires i < |s.nodes| && Live(s.nodes[i]) && Satisfied(s.nodes[i], s.port)
    ensures var t := Step(s, now);
            |t.nodes| == |s.nodes| && t.port == s.port && Live(t.nodes[i]) && Satisfied(t.nodes[i], t.port)
  {
    AskKeeps(s.nodes, INFLIGHT_QUERIES, now, i);
    AnnounceKeeps(s.nodes, TARGET_LIVE, now, i);
  }

  /** So one request is never used, and the run is shorter. */
  lemma {:induction false} SatisfiedSavesOne(s: SearchState, times: seq<int>, i: nat)
    requires Quiet(s) && Effective(s, times) && |times| >= Patience(s.nodes)
    requires i < |s.nodes| && Live(s.nodes[i]) && Satisfied(s.nodes[i], s.port)
    ensures Run(s, times).done
    decreases |times|
  {
    LivePatience(s.nodes, i);
    if !s.done {
      SilentStepProgresses(s, times[0]);
      SatisfiedStays(s, times[0], i);
      var t := Step(s, times[0]);
      if t.done {
        assert Run(t, times[1..]) == t;
      } else {
        SatisfiedSavesOne(t, times[1..], i);
      }
    }
  }

  /** Candidates that have replied and still owe an ack. */
  predicate Owing(n: SearchNode, port: nat) {
    Live(n) && n.replied && !Satisfied(n, port)
  }

  ghost predicate NoneSatisfied(s: SearchState) {
    forall i | 0 <= i < |s.nodes| && Live(s.nodes[i]) :: !Satisfied(s.nodes[i], s.port)
  }

  /** Two such candidates: a step takes two requests, or leaves both as they are. */
  lemma OwingStep(s: SearchState, now: int, i: nat, j: nat)
    requires !s.done && Quiet(s) && Acts(s, now) && NoneSatisfied(s)
    requires i < j < |s.nodes| && Owing(s.nodes[i], s.port) && Owing(s.nodes[j], s.port)
    ensures var t := Step(s, now);
            || t.done
            || Patience(t.nodes) + 2 <= Patience(s.nodes)
            || (NoneSatisfied(t) && |t.nodes| == |s.nodes| && t.port == s.port
                && t.nodes[i] == s.nodes[i] && t.nodes[j] == s.nodes[j])
  {
    if AllReplied(s.nodes, TARGET_LIVE) {
      UnrepliedInFront(s.nodes, TARGET_LIVE);
      AnnounceTwo(s.nodes, TARGET_LIVE, now, i, j);
    } else {
      forall k | 0 <= k < |s.nodes| && Live(AskSome(s.nodes, INFLIGHT_QUERIES, now)[k])
        ensures !Satisfied(AskSome(s.nodes, INFLIGHT_QUERIES, now)[k], s.port)
      {
        AskKeeps(s.nodes, INFLIGHT_QUERIES, now, k);
      }
      AskKeeps(s.nodes, INFLIGHT_QUERIES, now, i);
      AskKeeps(s.nodes, INFLIGHT_QUERIES, now, j);
    }
  }

  lemma {:induction false} OwingSavesOne(s: SearchState, times: seq<int>, i: nat, j: nat)
    requires Quiet(s) && Effective(s, times) && |times| >= Patience(s.nodes)
    requires NoneSatisfied(s)
    requires i < j < |s.nodes| && Owing(s.nodes[i], s.port) && Owing(s.nodes[j], s.port)
    ensures Run(s, times).done
    decreases |times|
  {
    LivePatience(s.nodes, i);
    if !s.done {
      SilentStepProgresses(s, times[0]);
      OwingStep(s, times[0], i, j);
      var t := Step(s, times[0]);
      if t.done {
        assert Run(t, times[1..]) == t;
      } else if Patience(t.nodes) + 2 <= Patience(s.nodes) {
        SilentRunEnds(t, times[1..]);
      } else {
        OwingSavesOne(t, times[1..], i, j);
      }
    }
  }

  lemma {:induction false} EarlyInFront(ns: seq<SearchNode>, room: nat, i: nat)
    requires i < room && i < |ns| && forall k | 0 <= k <= i :: Live(ns[k])
    ensures ns[i] in Front(ns, room)
  {
    if i > 0 {
      assert Live(ns[0]);
      EarlyInFront(ns[1..], room - 1, i - 1);
    }
  }

  /** Two unanswered requests among the first eight: the first step takes two requests. */
  lemma TwoUnreplied(s: SearchState, times: seq<int>, i: nat, j: nat)
    requires Quiet(s) && Effective(s, times) && |times| >= Patience(s.nodes)
    requires i < j < |s.nodes| && j < TARGET_LIVE && forall k | 0 <= k <= j :: Live(s.nodes[k])
    requires !s.nodes[i].replied && !s.nodes[j].replied
    ensures Run(s, times).done
  {
    LivePatience(s.nodes, i);
    if !s.done {
      EarlyInFront(s.nodes, TARGET_LIVE, i);
      assert !AllReplied(s.nodes, TARGET_LIVE);
      assert s.nodes[i] in s.nodes && s.nodes[j] in s.nodes;
      AskTwo(s.nodes, INFLIGHT_QUERIES, times[0], i, j);
      SilentStepProgresses(s, times[0]);
      SilentRunEnds(Step(s, times[0]), times[1..]);
    }
  }

  /** Three live candidates at the head of the list cannot all use up their requests one by one. */
  lemma ThreeSaveOne(s: SearchState, times: seq<int>)
    requires Quiet(s) && Effective(s, times) && |times| >= Patience(s.nodes)
    requires |s.nodes| >= 3 && Live(s.nodes[0]) && Live(s.nodes[1]) && Live(s.nodes[2])
    ensures Run(s, times).done
  {
    if i :| 0 <= i < |s.nodes| && Live(s.nodes[i]) && Satisfied(s.nodes[i], s.port) {
      SatisfiedSavesOne(s, times, i);
    } else {
      ThreeUnsatisfied(s, times);
    }
  }

  lemma TwoReplied(s: SearchState, times: seq<int>, i: nat, j: nat)
    requires Quiet(s) && Effective(s, times) && |times| >= Patience(s.nodes) && NoneSatisfied(s)
    requires i < j < |s.nodes| && Live(s.nodes[i]) && Live(s.nodes[j])
    requires s.nodes[i].replied && s.nodes[j].replied
    ensures Run(s, times).done
  {
    assert Owing(s.nodes[i], s.port) && Owing(s.nodes[j], s.port);
    OwingSavesOne(s, times, i, j);
  }

  lemma ThreeUnsatisfied(s: SearchState, times: seq<int>)
    requires Quiet(s) && Effective(s, times) && |times| >= Patience(s.nodes) && NoneSatisfied(s)
    requires |s.nodes| >= 3 && Live(s.nodes[0]) && Live(s.nodes[1]) && Live(s.nodes[2])
    ensures Run(s, times).done
  {
    var r0, r1, r2 := s.nodes[0].replied, s.nodes[1].replied, s.nodes[2].replied;
    assert forall k | 0 <= k <= 2 :: Live(s.nodes[k]);
    if r0 && r1 {
      TwoReplied(s, times, 0, 1);
    } else if r0 && r2 {
      TwoReplied(s, times, 0, 2);
    } else if r1 && r2 {
      TwoReplied(s, times, 1, 2);
    } else if !r0 && !r1 {
      TwoUnreplied(s, times, 0, 1);
    } else if !r0 {
      TwoUnreplied(s, times, 0, 2);
    } else {
      TwoUnreplied(s, times, 1, 2);
    }
  }

  lemma {:induction false} FullPatience(ns: seq<SearchNode>, i: nat)
    requires i < |ns| && Patience(ns) == 3 * |ns|
    ensures Live(ns[i])
  {
    PatienceBound(ns[1..]);
    if i > 0 {
      FullPatience(ns[1..], i - 1);
    }
  }

  /** With at most fourteen candidates 42 such calls are enough, for the query and announce phases together. */
  lemma EffectiveRunEnds(s: SearchState, times: seq<int>)
    requires Quiet(s) && |s.nodes| <= SEARCH_NODES
    requires Effective(s, times) && |times| >= 42
    ensures Run(s, times).done
  {
    PatienceBound(s.nodes);
    if Patience(s.nodes) < 42 {
      SilentRunEnds(s, times);
    } else {
      FullPatience(s.nodes, 0);
      FullPatience(s.nodes, 1);
      FullPatience(s.nodes, 2);
      ThreeSaveOne(s, times);
    }
  }

  // ----- calls at any times -----

  /** Times that do not go back. */
  predicate Ordered(last: int, times: seq<int>)
    decreases |times|
  {
    times == [] || (last <= times[0] && Ordered(times[0], times[1..]))
  }

  /** The calls that do something, until the search is done. */
  function Effecting(s: SearchState, times: seq<int>): seq<int>
    decreases |times|
  {
    if times == [] || s.done then []
    else if Acts(s, times[0]) then [times[0]] + Effecting(Step(s, times[0]), times[1..])
    else Effecting(s, times[1..])
  }

  lemma {:induction false} EffectingIsEffective(s: SearchState, times: seq<int>)
    requires Ordered(s.stepTime, times)
    ensures Effective(s, Effecting(s, times)) && Run(s, Effecting(s, times)) == Run(s, times)
    decreases |times|
  {
    if times != [] && !s.done {
      OtherCallsAreIdle(s, times[0]);
      EffectingIsEffective(Step(s, times[0]), times[1..]);
      if Acts(s, times[0]) {
        var rest := Effecting(Step(s, times[0]), times[1..]);
        assert Effecting(s, times)[1..] == rest;
      }
    }
  }

  /** How many of the calls are more than ten seconds after the one counted before. */
  function Apart(last: int, times: seq<int>): nat
    decreases |times|
  {
    if times == [] then 0
    else if times[0] > last + 10 then 1 + Apart(times[0], times[1..])
    else Apart(last, times[1..])
  }

  /** The calls that do something are at least as many, whatever calls come in between. The one counted last
      was at g; `ahead` says that there is one more already that did something. */
  lemma {:induction false} ApartCallsCount(s: SearchState, times: seq<int>, g: int, ahead: bool)
    requires Ordered(s.stepTime, times)
    requires s.stepTime <= if ahead then g + RETRANSMIT else g
    ensures Run(s, times).done || |Effecting(s, times)| + (if ahead then 1 else 0) >= Apart(g, times)
    decreases |times|
  {
    if times != [] && !s.done {
      var t := times[0];
      OtherCallsAreIdle(s, t);
      if t > g + RETRANSMIT {
        ApartCallsCount(Step(s, t), times[1..], t, ahead && Acts(s, t));
      } else {
        ApartCallsCount(Step(s, t), times[1..], g, ahead || Acts(s, t));
      }
    }
  }

  /** The search is done once 42 calls are more than ten seconds apart, at whatever other times it is called;
      and no more than 42 calls do anything. */
  lemma SilentSearchEnds(s: SearchState, times: seq<int>)
    requires Quiet(s) && |s.nodes| <= SEARCH_NODES && Ordered(s.stepTime, times)
    ensures Apart(s.stepTime, times) >= 42 ==> Run(s, times).done
    ensures |Effecting(s, times)| <= 42
  {
    EffectingIsEffective(s, times);
    ApartCallsCount(s, times, s.stepTime, false);
    var acting := Effecting(s, times);
    if |acting| >= 42 {
      EffectiveRunEnds(s, acting);
    }
    if |acting| > 42 {
      NothingAfterwards(s, times, 42);
      EffectiveRunEnds(s, acting[..42]);
    }
  }

  /** After so many calls that did something the search was not done yet, if another one did. */
  lemma {:induction false} NothingAfterwards(s: SearchState, times: seq<int>, n: nat)
    requires Ordered(s.stepTime, times) && n < |Effecting(s, times)|
    ensures Effective(s, Effecting(s, times)[..n]) && !Run(s, Effecting(s, times)[..n]).done
    decreases |times|
  {
    OtherCallsAreIdle(s, times[0]);
    if Acts(s, times[0]) {
      if n > 0 {
        NothingAfterwards(Step(s, times[0]), times[1..], n - 1);
        assert Effecting(s, times)[..n][1..] == Effecting(Step(s, times[0]), times[1..])[..n - 1];
      }
    } else {
      NothingAfterwards(s, times[1..], n);
    }
  }
}
