/** What the limit of a group is for: a group that has used it up is suspended and holds its members back, in
    every reachable state, and no run draws more than the limit and what was refilled. */
module GroupLimit {
  import opened Wrappers
  import opened TokenBucket
  import opened RateGroup

  /** An exhausted group is suspended. */
  predicate Bound(g: Group) {
    g.limit <= 0 ==> g.suspended
  }

  // ----- the limit itself -----

  lemma StepLimit(g: Group, e: Event)
    requires GroupInv(g) && Possible(g, e)
    ensures Next(g, e).limit
         == match e
            case Spend(_, bytes, _) => g.limit - bytes
            case Manual(decr, _) => g.limit - decr
            case RefillTick(ticks, _) => Min(g.maximum, g.limit + g.readRate * ticks)
            case Configure(_, _, _, maximum) => Min(g.limit, maximum)
            case Ask(_) => g.limit
            case Join(_) => g.limit
            case JoinEnd(_) => g.limit
            case Leave(_) => g.limit
            case SetMinShare(_, _) => g.limit
            case SetStep(_) => g.limit
  {
    if e.RefillTick? {
      RefreshAdds(g, e.ticks, e.won);
    }
  }

  /** What a run takes out of the bucket, by transfers and by hand, and what its refills could put in. */
  function Drawn(es: seq<Event>): int {
    if es == [] then 0
    else (match es[0]
          case Spend(_, bytes, _) => bytes
          case Manual(decr, _) => decr
          case _ => 0) + Drawn(es[1..])
  }

  ghost function Earned(g: Group, es: seq<Event>): int
    requires Runs(g, es)
    decreases |es|
  {
    if es == [] then 0
    else (if es[0].RefillTick? then g.readRate * es[0].ticks else 0) + Earned(Next(g, es[0]), es[1..])
  }

  /** In any interleaving and through any configurations: what is drawn and what is left come from the limit at
      the beginning and from refills; exactly, if there were none and no new configuration. */
  lemma {:induction false} RunDrawsWhatThereIs(g: Group, es: seq<Event>)
    requires GroupInv(g) && Runs(g, es)
    ensures Drawn(es) + After(g, es).limit <= g.limit + Earned(g, es)
    ensures (forall e | e in es :: !e.RefillTick? && !e.Configure?) ==> Drawn(es) + After(g, es).limit == g.limit
    decreases |es|
  {
    if es != [] {
      assert es[0] in es;
      StepLimit(g, es[0]);
      StepKeepsGroup(g, es[0]);
      RunDrawsWhatThereIs(Next(g, es[0]), es[1..]);
    }
  }

  // ----- an exhausted group is suspended -----

  /** The one step that leaves an exhausted group unsuspended: a refill to exactly nothing, under a share of
      nothing. */
  lemma StaysBoundIff(g: Group, e: Event)
    requires GroupInv(g) && Bound(g) && Possible(g, e)
    ensures Bound(Next(g, e)) <==>
            !(e.RefillTick? && g.suspended && g.minShare == 0 && g.limit + g.readRate * e.ticks == 0)
  {
    StepLimit(g, e);
    match e
    case RefillTick(ticks, won) => RefillBound(g, ticks, won);
    case _ =>
  }

  lemma RefillBound(g: Group, ticks: nat, won: set<MemberId>)
    requires GroupInv(g) && Bound(g) && ticks <= INT_MAX
    ensures Bound(Refreshed(g, ticks, won)) <==>
            !(g.suspended && g.minShare == 0 && g.limit + g.readRate * ticks == 0)
  {
    RefreshAdds(g, ticks, won);
    MulMonotone(g.readRate, 0, ticks);
  }

  /** Every share is at least one byte: the one in force, the configured one and those of calls in flight. */
  ghost predicate ShareCounts(g: Group) {
    g.minShare >= 1 && g.configuredMinShare >= 1 && forall t | t in g.setting :: g.setting[t].share >= 1
  }

  lemma ShareStillCounts(g: Group, e: Event)
    requires GroupInv(g) && ShareCounts(g) && Possible(g, e) && !(e.SetMinShare? && e.share == 0)
    ensures ShareCounts(Next(g, e))
  {
  }

  /** Nobody sets the share to nothing. */
  predicate SetsNoZero(es: seq<Event>) {
    forall e | e in es && e.SetMinShare? :: e.share >= 1
  }

  /** Then an exhausted group is suspended throughout every run. */
  lemma {:induction false} RunStaysBound(g: Group, es: seq<Event>)
    requires GroupInv(g) && Bound(g) && ShareCounts(g) && Runs(g, es) && SetsNoZero(es)
    ensures var g1 := After(g, es); GroupInv(g1) && ShareCounts(g1) && (g1.limit <= 0 ==> g1.suspended)
    decreases |es|
  {
    if es != [] {
      assert es[0] in es;
      StepKeepsGroup(g, es[0]);
      StaysBoundIff(g, es[0]);
      ShareStillCounts(g, es[0]);
      RunStaysBound(Next(g, es[0]), es[1..]);
    }
  }

  /** In particular from a new group on, where the share is 64 bytes or a rate that is less. */
  lemma ReachableIsBound(readRate: nat, writeRate: nat, maximum: nat, es: seq<Event>)
    requires RateOk(readRate, maximum) && 1 <= writeRate
    requires Runs(NewGroup(readRate, writeRate, maximum), es) && SetsNoZero(es)
    ensures var g := After(NewGroup(readRate, writeRate, maximum), es); g.limit <= 0 ==> g.suspended
  {
    NewGroupOk(readRate, writeRate, maximum);
    RunStaysBound(NewGroup(readRate, writeRate, maximum), es);
  }

  /** With a share of nothing it is not so: a member that spent 200 bytes of 100 is held back, and freed by the
      first tick, which brings the limit from -100 to 0. */
  lemma ZeroShareFrees() returns (es: seq<Event>)
    ensures Runs(NewGroup(100, 100, 100), es)
    ensures var g := After(NewGroup(100, 100, 100), es);
            g.limit == 0 && !g.suspended && !g.pendingUnsuspend && 7 in g.members && !Held(g.members[7])
  {
    var g0 := NewGroup(100, 100, 100);
    var set0 := SetMinShare(1, 0);
    var call := FinishCall(Next(g0, set0), 1);
    RunsOne(g0, set0, call);
    es := [set0] + call;
    var g1 := After(g0, es);
    var joined := [Join(7)] + ([JoinEnd(7)] + []);
    var g2 := Next(Next(g1, Join(7)), JoinEnd(7));
    assert Runs(g2, []);
    RunsOne(Next(g1, Join(7)), JoinEnd(7), []);
    RunsOne(g1, Join(7), [JoinEnd(7)] + []);
    RunsConcat(g0, es, joined);
    es := es + joined;
    var spent := SpendAndTick(g2);
    RunsConcat(g0, es, spent);
    es := es + spent;
  }

  lemma SpendAndTick(g: Group) returns (es: seq<Event>)
    requires g.limit == g.readRate == g.maximum == 100 && !g.suspended && g.minShare == 0 && g.configuring.None?
    requires g.members == map[7 := Member(false, false, false)]
    ensures Runs(g, es)
    ensures var g1 := After(g, es);
            g1.limit == 0 && !g1.suspended && !g1.pendingUnsuspend && 7 in g1.members && !Held(g1.members[7])
  {
    var spend, tick := Spend(7, 200, {7}), RefillTick(1, {7});
    var g1 := Next(g, spend);
    assert g1.suspended && g1.members[7].suspended && g1.limit == -100;
    RefillIsMin(-100, 100, 100, 1);
    assert Runs(Next(g1, tick), []);
    RunsOne(g1, tick, []);
    es := [tick] + [];
    RunsOne(g, spend, es);
    es := [spend] + es;
  }

  // ----- who is held back -----

  /** The step that uses the limit up holds back every member whose lock it wins. */
  lemma ExhaustionHolds(g: Group, e: Event)
    requires GroupInv(g) && Possible(g, e) && g.limit > 0 && Next(g, e).limit <= 0
    ensures e.Spend? || e.Manual?
    ensures Next(g, e).suspended && !Next(g, e).pendingUnsuspend
    ensures forall m | m in e.won :: m in Next(g, e).members && Next(g, e).members[m].suspended
  {
    StepLimit(g, e);
    if e.RefillTick? {
      MulMonotone(g.readRate, 0, e.ticks);
    }
  }

  /** The others find out: a member that asks what it may transfer while the group is suspended is held back,
      and so is one that joins. */
  lemma AskingIsHeld(g: Group, m: MemberId)
    requires g.suspended
    ensures Possible(g, Ask(m)) ==> Next(g, Ask(m)).members[m].suspended
    ensures Possible(g, Join(m)) ==> Held(Next(g, Join(m)).members[m])
    ensures Possible(g, JoinEnd(m)) ==> Next(g, JoinEnd(m)).members[m] == Member(Held(g.members[m]), false, false)
  {
  }

  /** While the group is exhausted nobody who is held back gets away. */
  lemma HeldStaysHeld(g: Group, e: Event, m: MemberId)
    requires GroupInv(g) && Bound(g) && g.minShare >= 1 && Possible(g, e)
    requires m in g.members && Held(g.members[m]) && Next(g, e).limit <= 0 && e != Leave(m)
    ensures m in Next(g, e).members && Held(Next(g, e).members[m])
  {
    StepLimit(g, e);
    StaysBoundIff(g, e);
  }

  /** The group is exhausted after every step of the run, and the member does not leave. */
  ghost predicate Starved(g: Group, es: seq<Event>, m: MemberId)
    requires Runs(g, es)
    decreases |es|
  {
    es == [] || (Next(g, es[0]).limit <= 0 && es[0] != Leave(m) && Starved(Next(g, es[0]), es[1..], m))
  }

  lemma {:induction false} HeldThroughout(g: Group, es: seq<Event>, m: MemberId)
    requires GroupInv(g) && Bound(g) && ShareCounts(g) && Runs(g, es) && SetsNoZero(es)
    requires m in g.members && Held(g.members[m]) && Starved(g, es, m)
    ensures m in After(g, es).members && Held(After(g, es).members[m])
    decreases |es|
  {
    if es != [] {
      assert es[0] in es;
      HeldStaysHeld(g, es[0], m);
      StepKeepsGroup(g, es[0]);
      StaysBoundIff(g, es[0]);
      ShareStillCounts(g, es[0]);
      HeldThroughout(Next(g, es[0]), es[1..], m);
    }
  }

  /** When a group is suspended after a step: a transfer leaves it so iff it leaves nothing; an adjustment by hand
      changes it only when the limit crosses zero; a refill lifts a suspension iff it reaches the share. */
  lemma StepSuspends(g: Group, e: Event)
    requires GroupInv(g) && Possible(g, e)
    ensures Next(g, e).suspended <==>
            match e
            case Spend(_, bytes, _) => g.limit - bytes <= 0
            case Manual(decr, _) =>
              if g.limit - decr <= 0 then g.limit > 0 || g.suspended else g.limit > 0 && g.suspended
            case RefillTick(ticks, _) => g.suspended && Min(g.maximum, g.limit + g.readRate * ticks) < g.minShare
            case _ => g.suspended
    ensures e.RefillTick? && g.pendingUnsuspend ==>
              (Next(g, e).pendingUnsuspend <==> exists m :: m in g.members && m !in e.won)
  {
    StepLimit(g, e);
  }

  /** The step that lifts a suspension frees every member whose lock it wins, and owes another round exactly if
      there is one whose lock it did not win. */
  lemma UnsuspensionFrees(g: Group, e: Event)
    requires GroupInv(g) && Possible(g, e) && g.suspended && !Next(g, e).suspended
    ensures e.Spend? || e.RefillTick? || e.Manual?
    ensures forall m | m in e.won :: m in Next(g, e).members && !Held(Next(g, e).members[m])
    ensures Next(g, e).pendingUnsuspend <==> exists m :: m in g.members && m !in e.won
  {
  }

  // ----- who is a member, and what a share becomes -----

  /** Whom a step can be about. */
  function Concerned(e: Event): set<MemberId> {
    match e
    case Spend(_, _, won) => won
    case RefillTick(_, won) => won
    case Manual(_, won) => won
    case Ask(m) => {m}
    case Join(m) => {m}
    case JoinEnd(m) => {m}
    case Leave(m) => {m}
    case _ => {}
  }

  lemma StepMembers(g: Group, e: Event)
    requires Possible(g, e)
    ensures Next(g, e).members.Keys
         == (if e.Join? then g.members.Keys + {e.m} else if e.Leave? then g.members.Keys - {e.m} else g.members.Keys)
  {
    StepFlags(g, e);
  }

  lemma StepFlags(g: Group, e: Event)
    requires Possible(g, e)
    ensures e.Spend? || e.RefillTick? || e.Manual? ==>
              || Next(g, e).members == SetFlags(g.members, e.won, Next(g, e).suspended)
              || Next(g, e).members == g.members
  {
  }

  lemma StepFrame(g: Group, e: Event, m: MemberId)
    requires Possible(g, e) && m in g.members && m !in Concerned(e)
    ensures m in Next(g, e).members && Next(g, e).members[m] == g.members[m]
  {
    StepFlags(g, e);
  }

  /** A call that nobody disturbs stores the least of what it was given and the two rates, and remembers what it
      was given. */
  lemma CallStoresLeast(g: Group, t: ThreadId, share: nat) returns (es: seq<Event>)
    requires t !in g.setting && share <= SSIZE_MAX
    ensures Runs(g, [SetMinShare(t, share)] + es)
    ensures After(g, [SetMinShare(t, share)] + es).minShare == Min(share, Min(g.readRate, g.writeRate))
    ensures After(g, [SetMinShare(t, share)] + es).configuredMinShare == share
  {
    var e := SetMinShare(t, share);
    es := FinishCall(Next(g, e), t);
    RunsOne(g, e, es);
  }

  /** And a new configuration makes of what was given last the least of it and the new rates. */
  lemma ConfigureClipsAgain(g: Group, c: Event) returns (es: seq<Event>)
    requires c.Configure? && Possible(g, c)
    ensures Runs(g, [c] + es)
    ensures var g1 := After(g, [c] + es);
            && g1.configuring.None? && g1.configuredMinShare == g.configuredMinShare
            && g1.minShare == Min(g.configuredMinShare, Min(c.readRate, c.writeRate))
  {
    es := FinishCall(Next(g, c), c.t);
    RunsOne(g, c, es);
  }
}
