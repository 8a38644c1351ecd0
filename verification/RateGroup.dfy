/** A group of bufferevents under one rate limit. Threads hold the lock of a member, or of the group,
    or take the group's inside a member's; the group can only try the members' locks. A step below is
    what one thread does under the group lock, with the try-locks it wins as a parameter, or what it
    does without that lock: the end of joining a group, and each access that setting the minimum share
    makes to shared fields. The model follows the reading direction; writing is its twin. */
module RateGroup {
  import opened Wrappers
  import opened SeqFacts
  import opened TokenBucket

  type MemberId = nat
  type ThreadId = nat

  /** `suspended` is BEV_SUSPEND_BW_GROUP of one member; `adding` marks a member whose thread is
      between leaving the group lock and acting on what it read there, holding the member's lock. */
  datatype Member = Member(suspended: bool, adding: bool, sawSuspended: bool)

  /** What a thread inside bufferevent_rate_limit_group_set_min_share does next. */
  datatype Stage = WriteConfigured | TestRead | TakeRead | TestWrite | TakeWrite | StoreShare

  /** A call in flight, with its local share. */
  datatype Setting = Setting(share: nat, stage: Stage)

  /** `configuring` is the thread in set_cfg, which keeps the group lock; the calls in `setting` hold no
      lock, but for that one. */
  datatype Group = Group(
    limit: int, readRate: nat, writeRate: nat, maximum: nat,
    suspended: bool, pendingUnsuspend: bool,
    minShare: nat, configuredMinShare: nat,
    members: map<MemberId, Member>,
    setting: map<ThreadId, Setting>, configuring: Option<ThreadId>)

  /** Members whose lock another thread may win now. */
  function Lockable(g: Group): set<MemberId> {
    set m | m in g.members && !g.members[m].adding
  }

  function SetFlags(ms: map<MemberId, Member>, won: set<MemberId>, flag: bool): map<MemberId, Member> {
    map m | m in ms :: if m in won then ms[m].(suspended := flag) else ms[m]
  }

  /** bev_group_suspend_reading_: members whose lock is not won find out later. */
  function SuspendReading(g: Group, won: set<MemberId>): Group {
    g.(suspended := true, pendingUnsuspend := false, members := SetFlags(g.members, won, true))
  }

  /** bev_group_unsuspend_reading_: a member whose lock is not won leaves the unsuspension pending. */
  function UnsuspendReading(g: Group, won: set<MemberId>): Group {
    g.(suspended := false, members := SetFlags(g.members, won, false), pendingUnsuspend := !(g.members.Keys <= won))
  }

  function ClipShare(share: nat, readRate: nat, writeRate: nat): nat {
    var s := if share > readRate then readRate else share;
    if s > writeRate then writeRate else s
  }

  /** bufferevent_rate_limit_group_new, with its default share of 64. */
  function NewGroup(readRate: nat, writeRate: nat, maximum: nat): Group {
    Group(readRate, readRate, writeRate, maximum, false, false, ClipShare(64, readRate, writeRate), 64,
          map[], map[], None)
  }

  datatype Event =
    | Spend(m: MemberId, bytes: nat, won: set<MemberId>)
    | Ask(m: MemberId)
    | RefillTick(ticks: nat, won: set<MemberId>)
    | Manual(decr: int, won: set<MemberId>)
    | Join(m: MemberId)
    | JoinEnd(m: MemberId)
    | Leave(m: MemberId)
    | Configure(t: ThreadId, readRate: nat, writeRate: nat, maximum: nat)
    | SetMinShare(t: ThreadId, share: nat)
    | SetStep(t: ThreadId)

  /** A member that is not in the middle of joining: its lock can be held for another call. */
  predicate Settled(g: Group, m: MemberId) {
    m in g.members && !g.members[m].adding
  }

  predicate NeedsLock(e: Event) {
    !e.JoinEnd? && !e.SetMinShare? && !e.SetStep?
  }

  predicate Possible(g: Group, e: Event) {
    && (NeedsLock(e) ==> g.configuring.None?)
    && match e
       case Spend(m, bytes, won) => Settled(g, m) && won <= Lockable(g) && g.limit - bytes >= SSIZE_MIN
       case Ask(m) => Settled(g, m)
       case RefillTick(ticks, won) => won <= Lockable(g) && ticks <= INT_MAX
       case Manual(decr, won) => won <= Lockable(g) && SSIZE_MIN <= g.limit - decr <= g.maximum
       case Join(m) => m !in g.members
       case JoinEnd(m) => m in g.members && g.members[m].adding
       case Leave(m) => Settled(g, m)
       case Configure(t, readRate, writeRate, maximum) =>
         t !in g.setting && RateOk(readRate, maximum) && 1 <= writeRate <= SSIZE_MAX
       case SetMinShare(t, share) => t !in g.setting
       case SetStep(t) => t in g.setting
  }

  /** The refill timer of the group, `ticks` after its last update. */
  function Refreshed(g: Group, ticks: nat, won: set<MemberId>): Group {
    var g1 := if ticks == 0 then g else g.(limit := Refill(g.limit, g.readRate, g.maximum, ticks));
    if g1.pendingUnsuspend || (g1.suspended && g1.limit >= g1.minShare) then UnsuspendReading(g1, won) else g1
  }

  /** The next access of a call in flight to the rates it clips its share against. */
  function Clipped(s: Setting, readRate: nat, writeRate: nat): Setting {
    match s.stage
    case WriteConfigured => s.(stage := TestRead)
    case TestRead => s.(stage := if s.share > readRate then TakeRead else TestWrite)
    case TakeRead => Setting(readRate, TestWrite)
    case TestWrite => s.(stage := if s.share > writeRate then TakeWrite else StoreShare)
    case TakeWrite => Setting(writeRate, StoreShare)
    case StoreShare => s
  }

  /** One access of bufferevent_rate_limit_group_set_min_share; its end is the end of set_cfg, too. */
  function Advanced(g: Group, t: ThreadId): Group
    requires t in g.setting
  {
    var s := g.setting[t];
    if s.stage.StoreShare? then
      g.(minShare := s.share, setting := g.setting - {t},
         configuring := if g.configuring == Some(t) then None else g.configuring)
    else
      g.(setting := g.setting[t := Clipped(s, g.readRate, g.writeRate)],
         configuredMinShare := if s.stage.WriteConfigured? then s.share else g.configuredMinShare)
  }

  function Next(g: Group, e: Event): Group
    requires Possible(g, e)
  {
    match e
    case Spend(m, bytes, won) =>
      var g1 := g.(limit := g.limit - bytes);
      if g1.limit <= 0 then SuspendReading(g1, won)
      else if g1.suspended then UnsuspendReading(g1, won)
      else g1
    case Ask(m) =>
      if g.suspended then g.(members := g.members[m := g.members[m].(suspended := true)]) else g
    case RefillTick(ticks, won) => Refreshed(g, ticks, won)
    case Manual(decr, won) =>
      var g1 := g.(limit := g.limit - decr);
      if g.limit > 0 && g1.limit <= 0 then SuspendReading(g1, won)
      else if g.limit <= 0 && g1.limit > 0 then UnsuspendReading(g1, won)
      else g1
    case Join(m) =>
      g.(members := g.members[m := Member(false, true, g.suspended)])
    case JoinEnd(m) =>
      var mem := g.members[m];
      g.(members := g.members[m := Member(mem.suspended || mem.sawSuspended, false, false)])
    case Leave(m) => g.(members := g.members - {m})
    case Configure(t, readRate, writeRate, maximum) =>
      g.(readRate := readRate, writeRate := writeRate, maximum := maximum,
         limit := if g.limit > maximum then maximum else g.limit,
         setting := g.setting[t := Setting(g.configuredMinShare, WriteConfigured)], configuring := Some(t))
    case SetMinShare(t, share) =>
      if share > SSIZE_MAX then g else g.(setting := g.setting[t := Setting(share, WriteConfigured)])
    case SetStep(t) => Advanced(g, t)
  }

  /** A member that is suspended for the group, or is about to be. */
  predicate Held(mem: Member) {
    mem.suspended || (mem.adding && mem.sawSuspended)
  }

  /** Nobody is forgotten: whoever is held back has a group that is suspended, or one that still owes
      an unsuspension; never both. And the limit is within a sane configuration. */
  ghost predicate GroupInv(g: Group) {
    && RateOk(g.readRate, g.maximum) && 1 <= g.writeRate
    && SSIZE_MIN <= g.limit <= g.maximum
    && !(g.suspended && g.pendingUnsuspend)
    && forall m | m in g.members && Held(g.members[m]) :: g.suspended || g.pendingUnsuspend
  }

  lemma NewGroupOk(readRate: nat, writeRate: nat, maximum: nat)
    requires RateOk(readRate, maximum) && 1 <= writeRate
    ensures var g := NewGroup(readRate, writeRate, maximum);
            && GroupInv(g) && ShareOk(g)
            && g.limit == readRate && g.minShare == Min(64, Min(readRate, writeRate)) && g.configuredMinShare == 64
            && g.members == map[] && !g.suspended && !g.pendingUnsuspend && g.configuring.None? && g.setting == map[]
  {
  }

  /** Every step of every thread, whatever try-locks fail. */
  lemma StepKeepsGroup(g: Group, e: Event)
    requires GroupInv(g) && Possible(g, e)
    ensures GroupInv(Next(g, e))
  {
    match e
    case Spend(m, bytes, won) =>
    case Ask(m) =>
    case RefillTick(ticks, won) =>
      RefreshKeeps(g, ticks, won);
    case Manual(decr, won) =>
    case Join(m) =>
    case JoinEnd(m) =>
    case Leave(m) =>
    case Configure(t, readRate, writeRate, maximum) =>
    case SetMinShare(t, share) =>
    case SetStep(t) =>
  }

  lemma RefreshKeeps(g: Group, ticks: nat, won: set<MemberId>)
    requires GroupInv(g) && won <= Lockable(g)
    ensures GroupInv(Refreshed(g, ticks, won))
  {
    if ticks > 0 {
      RefillIsMin(g.limit, g.readRate, g.maximum, ticks);
    }
  }

  /** A run in any interleaving. */
  ghost predicate Runs(g: Group, es: seq<Event>)
    decreases |es|
  {
    es == [] || (Possible(g, es[0]) && Runs(Next(g, es[0]), es[1..]))
  }

  ghost function After(g: Group, es: seq<Event>): Group
    requires Runs(g, es)
    decreases |es|
  {
    if es == [] then g else After(Next(g, es[0]), es[1..])
  }

  lemma {:induction false} RunKeepsGroup(g: Group, es: seq<Event>)
    requires GroupInv(g) && Runs(g, es)
    ensures GroupInv(After(g, es))
    decreases |es|
  {
    if es != [] {
      StepKeepsGroup(g, es[0]);
      RunKeepsGroup(Next(g, es[0]), es[1..]);
    }
  }

  // ----- the minimum share -----

  /** What the documentation of the minimum share promises: it can be had in one tick, in both directions. */
  predicate ShareOk(g: Group) {
    g.minShare <= g.readRate && g.minShare <= g.writeRate
  }

  /** What a call in flight will store if the rates stay as they are. */
  function Outcome(s: Setting, readRate: nat, writeRate: nat): nat {
    match s.stage
    case WriteConfigured => ClipShare(s.share, readRate, writeRate)
    case TestRead => ClipShare(s.share, readRate, writeRate)
    case TakeRead => ClipShare(readRate, readRate, writeRate)
    case TestWrite => if s.share > writeRate then writeRate else s.share
    case TakeWrite => writeRate
    case StoreShare => s.share
  }

  /** A call in flight that is harmless under these rates. */
  predicate Safe(s: Setting, readRate: nat, writeRate: nat) {
    Outcome(s, readRate, writeRate) <= readRate && Outcome(s, readRate, writeRate) <= writeRate
  }

  lemma ClippingKeepsOutcome(s: Setting, readRate: nat, writeRate: nat)
    requires !s.stage.StoreShare?
    ensures Outcome(Clipped(s, readRate, writeRate), readRate, writeRate) == Outcome(s, readRate, writeRate)
  {
  }

  /** A run in which the configuration stays as it is. */
  predicate NoConfigure(es: seq<Event>) {
    forall e | e in es :: !e.Configure?
  }

  /** Which call makes the last store of a run: one that was in flight at its beginning, or a later one. */
  datatype Origin = NoStore | InFlight(t: ThreadId) | Later

  ghost function LastStore(g: Group, es: seq<Event>): Origin
    requires Runs(g, es)
    decreases |es|
  {
    if es == [] then NoStore
    else
      var o := LastStore(Next(g, es[0]), es[1..]);
      match o
      case NoStore => if IsStore(g, es[0]) then InFlight(es[0].t) else NoStore
      case InFlight(t) => if es[0].SetMinShare? && es[0].t == t then Later else o
      case Later => Later
  }

  predicate IsStore(g: Group, e: Event) {
    e.SetStep? && e.t in g.setting && g.setting[e.t].stage.StoreShare?
  }

  /** One step under constant rates. */
  lemma StepKeepsRates(g: Group, e: Event)
    requires Possible(g, e) && !e.Configure?
    ensures var g1 := Next(g, e);
            && g1.readRate == g.readRate && g1.writeRate == g.writeRate && g1.maximum == g.maximum
            && g1.minShare == (if IsStore(g, e) then g.setting[e.t].share else g.minShare)
            && forall t | t in g1.setting ::
                 if e.SetMinShare? && e.t == t && t !in g.setting then g1.setting[t].stage.WriteConfigured?
                 else t in g.setting
                      && Outcome(g1.setting[t], g.readRate, g.writeRate)
                         == Outcome(g.setting[t], g.readRate, g.writeRate)
  {
    if e.SetStep? && !IsStore(g, e) {
      ClippingKeepsOutcome(g.setting[e.t], g.readRate, g.writeRate);
    }
  }

  /** While the configuration stays, the share in the end is what the call that stores last makes of it. */
  lemma {:induction false} ShareAfter(g: Group, es: seq<Event>)
    requires Runs(g, es) && NoConfigure(es)
    ensures var g1 := After(g, es);
            && g1.readRate == g.readRate && g1.writeRate == g.writeRate
            && match LastStore(g, es)
               case NoStore => g1.minShare == g.minShare
               case InFlight(t) =>
                 t in g.setting && g1.minShare == Outcome(g.setting[t], g.readRate, g.writeRate)
               case Later => ShareOk(g1)
    decreases |es|
  {
    if es != [] {
      assert es[0] in es;
      StepKeepsRates(g, es[0]);
      ShareAfter(Next(g, es[0]), es[1..]);
    }
  }

  /** set_cfg gives its lock back with its store only. */
  lemma {:induction false} LockNeedsStore(g: Group, es: seq<Event>)
    requires Runs(g, es) && NoConfigure(es) && LastStore(g, es).NoStore?
    ensures After(g, es).configuring == g.configuring
    decreases |es|
  {
    if es != [] {
      assert es[0] in es;
      LockNeedsStore(Next(g, es[0]), es[1..]);
    }
  }

  /** Whether the promise holds when a run ends with the lock free: after the last set_cfg it does exactly
      if the last store is not that of a call that was in flight across it and not harmless under the rates
      it brought. */
  lemma ShareOkIff(g: Group, c: Event, es: seq<Event>)
    requires c.Configure? && Possible(g, c) && Runs(Next(g, c), es) && NoConfigure(es)
    requires After(Next(g, c), es).configuring.None?
    ensures var o := LastStore(Next(g, c), es);
            && !o.NoStore?
            && (ShareOk(After(Next(g, c), es)) <==>
                (o.InFlight? && o.t in g.setting ==> Safe(g.setting[o.t], c.readRate, c.writeRate)))
  {
    ShareAfter(Next(g, c), es);
    if LastStore(Next(g, c), es).NoStore? {
      LockNeedsStore(Next(g, c), es);
    }
  }

  ghost predicate AllSafe(g: Group, readRate: nat, writeRate: nat) {
    forall t | t in g.setting :: Safe(g.setting[t], readRate, writeRate)
  }

  /** Every set_cfg of the run takes the lock while all calls in flight are harmless under its rates. */
  ghost predicate Careful(g: Group, es: seq<Event>)
    requires Runs(g, es)
    decreases |es|
  {
    es == [] || ((es[0].Configure? ==> AllSafe(g, es[0].readRate, es[0].writeRate))
                 && Careful(Next(g, es[0]), es[1..]))
  }

  /** Then the promise holds whenever the lock is free. */
  ghost predicate ShareInv(g: Group) {
    && AllSafe(g, g.readRate, g.writeRate)
    && (g.configuring.None? ==> ShareOk(g))
    && (g.configuring.Some? ==> g.configuring.value in g.setting)
  }

  lemma {:induction false} CarefulRunKeepsShare(g: Group, es: seq<Event>)
    requires Runs(g, es) && ShareInv(g) && Careful(g, es)
    ensures ShareInv(After(g, es))
    decreases |es|
  {
    if es != [] {
      CarefulStep(g, es[0]);
      CarefulRunKeepsShare(Next(g, es[0]), es[1..]);
    }
  }

  lemma CarefulStep(g: Group, e: Event)
    requires Possible(g, e) && ShareInv(g) && (e.Configure? ==> AllSafe(g, e.readRate, e.writeRate))
    ensures ShareInv(Next(g, e))
  {
    if !e.Configure? {
      StepKeepsRates(g, e);
      LockHolderIsSetting(g, e);
    }
  }

  lemma LockHolderIsSetting(g: Group, e: Event)
    requires Possible(g, e) && !e.Configure? && (g.configuring.Some? ==> g.configuring.value in g.setting)
    ensures var g1 := Next(g, e); g1.configuring.Some? ==> g1.configuring.value in g1.setting
    ensures var g1 := Next(g, e);
            g1.configuring.None? && g.configuring.Some? ==> IsStore(g, e) && e.t == g.configuring.value
  {
  }

  lemma {:induction false} RunsConcat(g: Group, a: seq<Event>, b: seq<Event>)
    requires Runs(g, a) && Runs(After(g, a), b)
    ensures Runs(g, a + b) && After(g, a + b) == After(After(g, a), b)
    decreases |a|
  {
    if a == [] {
      EmptyConcat(a, b);
    } else {
      TailOfConcat(a, b);
      RunsConcat(Next(g, a[0]), a[1..], b);
    }
  }

  function Rank(s: Stage): nat {
    match s
    case WriteConfigured => 5
    case TestRead => 4
    case TakeRead => 3
    case TestWrite => 2
    case TakeWrite => 1
    case StoreShare => 0
  }

  /** A call in flight can run to its end while nothing else happens. */
  lemma {:induction false} FinishCall(g: Group, t: ThreadId) returns (es: seq<Event>)
    requires t in g.setting
    ensures Runs(g, es) && NoConfigure(es)
    ensures var g1 := After(g, es);
            && g1 == g.(minShare := Outcome(g.setting[t], g.readRate, g.writeRate), setting := g1.setting,
                        configuredMinShare := g1.configuredMinShare, configuring := g1.configuring)
            && (forall u | u in g.setting && u != t :: u in g1.setting && g1.setting[u] == g.setting[u])
            && g1.configuring == (if g.configuring == Some(t) then None else g.configuring)
            && g1.configuredMinShare
               == if g.setting[t].stage.WriteConfigured? then g.setting[t].share else g.configuredMinShare
    decreases Rank(g.setting[t].stage)
  {
    var e := SetStep(t);
    var g1 := Next(g, e);
    if g.setting[t].stage.StoreShare? {
      es := [e];
      assert Runs(g1, es[1..]) && After(g, es) == g1;
    } else {
      ClippingKeepsOutcome(g.setting[t], g.readRate, g.writeRate);
      var rest := FinishCall(g1, t);
      es := [e] + rest;
      assert es[1..] == rest;
    }
  }

  /** set_cfg finishes, then a call that was in flight across it does. */
  lemma Overtaken(g: Group, c: Event, t: ThreadId) returns (es: seq<Event>)
    requires c.Configure? && Possible(g, c) && t in g.setting
    ensures Runs(Next(g, c), es) && NoConfigure(es)
    ensures var g1 := After(Next(g, c), es);
            && g1.configuring.None? && g1.minShare == Outcome(g.setting[t], c.readRate, c.writeRate)
            && g1.readRate == c.readRate && g1.writeRate == c.writeRate && g1.maximum == c.maximum
            && g1.limit == Min(g.limit, c.maximum) && g1.members == g.members
            && g1.suspended == g.suspended && g1.pendingUnsuspend == g.pendingUnsuspend
  {
    var g1 := Next(g, c);
    var a := FinishCall(g1, c.t);
    var b := FinishCall(After(g1, a), t);
    RunsConcat(g1, a, b);
    es := a + b;
  }

  /** The exact condition for a set_cfg to be harmless, whatever happens until the next one: every call to
      set_min_share that is in flight when it takes the lock is harmless under the rates it brings. */
  lemma ConfigureIsSafeIff(g: Group, c: Event)
    requires c.Configure? && Possible(g, c)
    ensures AllSafe(g, c.readRate, c.writeRate) <==>
            forall es | Runs(Next(g, c), es) && NoConfigure(es) && After(Next(g, c), es).configuring.None? ::
              ShareOk(After(Next(g, c), es))
  {
    if AllSafe(g, c.readRate, c.writeRate) {
      forall es | Runs(Next(g, c), es) && NoConfigure(es) && After(Next(g, c), es).configuring.None?
        ensures ShareOk(After(Next(g, c), es))
      {
        ShareOkIff(g, c, es);
        ShareAfter(Next(g, c), es);
      }
    } else {
      var t :| t in g.setting && !Safe(g.setting[t], c.readRate, c.writeRate);
      var es := Overtaken(g, c, t);
      assert !ShareOk(After(Next(g, c), es));
    }
  }

  // ----- release -----

  /** One firing of the group's refill timer; no ticks if the clock stood still or the update was dropped. */
  datatype Firing = Firing(ticks: nat, won: set<MemberId>)

  ghost predicate Fires(g: Group, fs: seq<Firing>)
    decreases |fs|
  {
    fs == [] || (g.configuring.None? && fs[0].ticks <= INT_MAX && fs[0].won <= Lockable(g)
                 && Fires(Refreshed(g, fs[0].ticks, fs[0].won), fs[1..]))
  }

  ghost function Fired(g: Group, fs: seq<Firing>): Group
    decreases |fs|
  {
    if fs == [] then g else Fired(Refreshed(g, fs[0].ticks, fs[0].won), fs[1..])
  }

  function TotalTicks(fs: seq<Firing>): nat {
    if fs == [] then 0 else fs[0].ticks + TotalTicks(fs[1..])
  }

  /** Ticks that bring the limit up to the share. */
  predicate Enough(g: Group, ticks: nat) {
    g.limit + g.readRate * ticks >= g.minShare
  }

  lemma UnsuspendOnlyMembers(g: Group, won: set<MemberId>)
    ensures var g1 := UnsuspendReading(g, won);
            && g1.limit == g.limit && g1.readRate == g.readRate && g1.maximum == g.maximum
            && g1.minShare == g.minShare && !g1.suspended
            && g1.members.Keys == g.members.Keys && Lockable(g1) == Lockable(g)
  {
  }

  /** A refill changes nothing but the limit and who is suspended. */
  lemma RefreshOnlyRefills(g: Group, ticks: nat, won: set<MemberId>)
    ensures var g1 := Refreshed(g, ticks, won);
            && g1.limit == (if ticks == 0 then g.limit else Refill(g.limit, g.readRate, g.maximum, ticks))
            && g1.readRate == g.readRate && g1.maximum == g.maximum && g1.minShare == g.minShare
            && (g1.suspended ==> g.suspended && g1.limit < g.minShare)
            && g1.members.Keys == g.members.Keys
            && Lockable(g1) == Lockable(g)
  {
    UnsuspendOnlyMembers(if ticks == 0 then g else g.(limit := Refill(g.limit, g.readRate, g.maximum, ticks)), won);
  }

  lemma RefreshAdds(g: Group, ticks: nat, won: set<MemberId>)
    requires GroupInv(g)
    ensures var g1 := Refreshed(g, ticks, won);
            && g1.limit == Min(g.maximum, g.limit + g.readRate * ticks)
            && g1.readRate == g.readRate && g1.maximum == g.maximum && g1.minShare == g.minShare
            && (g1.suspended ==> g.suspended && g1.limit < g.minShare)
            && g1.members.Keys == g.members.Keys
            && Lockable(g1) == Lockable(g)
  {
    RefreshOnlyRefills(g, ticks, won);
    RefillOrNot(g.limit, g.readRate, g.maximum, ticks);
  }

  lemma RefillOrNot(limit: int, rate: nat, maximum: nat, ticks: nat)
    requires SSIZE_MIN <= limit <= maximum && RateOk(rate, maximum)
    ensures (if ticks == 0 then limit else Refill(limit, rate, maximum, ticks)) == Min(maximum, limit + rate * ticks)
  {
    if ticks > 0 {
      RefillIsMin(limit, rate, maximum, ticks);
    }
    assert rate * ticks == ticks * rate;
  }

  /** After refills for long enough, with no other traffic, the group is not suspended, provided its share
      is within its maximum. */
  lemma {:induction false} RefillsUnsuspend(g: Group, fs: seq<Firing>)
    requires GroupInv(g) && g.minShare <= g.maximum && Fires(g, fs) && fs != [] && Enough(g, TotalTicks(fs))
    ensures GroupInv(Fired(g, fs)) && !Fired(g, fs).suspended
    decreases |fs|
  {
    var f := fs[0];
    var g1 := Refreshed(g, f.ticks, f.won);
    RefreshAdds(g, f.ticks, f.won);
    RefreshKeeps(g, f.ticks, f.won);
    Distribute(g.readRate, f.ticks, TotalTicks(fs[1..]));
    if fs[1..] != [] {
      RefillsUnsuspend(g1, fs[1..]);
    } else {
      assert Fired(g, fs) == g1;
    }
  }

  /** Whoever's lock is won by the last firing, if by then there was time enough, is released by it. */
  lemma {:induction false} LastFiringReleases(g: Group, fs: seq<Firing>, m: MemberId)
    requires GroupInv(g) && g.minShare <= g.maximum && Fires(g, fs) && fs != [] && Enough(g, TotalTicks(fs))
    requires m in fs[|fs| - 1].won
    ensures m in Fired(g, fs).members && !Held(Fired(g, fs).members[m])
    decreases |fs|
  {
    var f := fs[0];
    var g1 := Refreshed(g, f.ticks, f.won);
    RefreshAdds(g, f.ticks, f.won);
    RefreshKeeps(g, f.ticks, f.won);
    Distribute(g.readRate, f.ticks, TotalTicks(fs[1..]));
    if fs[1..] != [] {
      LastFiringReleases(g1, fs[1..], m);
    } else {
      assert Fired(g, fs) == g1;
      assert m in Lockable(g);
    }
  }

  /** And stays released while nothing but refills happens. */
  lemma {:induction false} ReleasedStaysReleased(g: Group, fs: seq<Firing>, m: MemberId)
    requires GroupInv(g) && Fires(g, fs) && m in g.members && !Held(g.members[m])
    ensures m in Fired(g, fs).members && !Held(Fired(g, fs).members[m])
    decreases |fs|
  {
    if fs != [] {
      RefreshKeeps(g, fs[0].ticks, fs[0].won);
      ReleasedStaysReleased(Refreshed(g, fs[0].ticks, fs[0].won), fs[1..], m);
    }
  }

  lemma {:induction false} FiredConcat(g: Group, a: seq<Firing>, b: seq<Firing>)
    requires Fires(g, a + b)
    ensures Fires(g, a) && Fires(Fired(g, a), b) && Fired(g, a + b) == Fired(Fired(g, a), b)
    decreases |a|
  {
    if a == [] {
      EmptyConcat(a, b);
    } else {
      TailOfConcat(a, b);
      FiredConcat(Refreshed(g, a[0].ticks, a[0].won), a[1..], b);
    }
  }

  lemma {:induction false} FiredKeeps(g: Group, fs: seq<Firing>)
    requires GroupInv(g) && Fires(g, fs)
    ensures GroupInv(Fired(g, fs))
    decreases |fs|
  {
    if fs != [] {
      RefreshKeeps(g, fs[0].ticks, fs[0].won);
      FiredKeeps(Refreshed(g, fs[0].ticks, fs[0].won), fs[1..]);
    }
  }

  /** Every firing from the point on where the ticks are enough, here the last of a, frees whom it wins, to
      the end of the run. */
  lemma EveryoneIsReleased(g: Group, a: seq<Firing>, b: seq<Firing>, m: MemberId)
    requires GroupInv(g) && g.minShare <= g.maximum && Fires(g, a + b) && a != []
    requires Enough(g, TotalTicks(a)) && m in a[|a| - 1].won
    ensures m in Fired(g, a + b).members && !Held(Fired(g, a + b).members[m])
  {
    FiredConcat(g, a, b);
    LastFiringReleases(g, a, m);
    FiredKeeps(g, a);
    ReleasedStaysReleased(Fired(g, a), b, m);
  }

  /** The share can be reached: so many ticks are always enough. */
  lemma SomeTicksAreEnough(g: Group, ticks: nat)
    requires GroupInv(g)
    ensures ticks >= (if g.minShare > g.limit then g.minShare - g.limit else 0) ==> Enough(g, ticks)
  {
    MulMonotone(ticks, 1, g.readRate);
  }

  /** A share above the maximum is out of reach: refills change nothing for a suspended group. */
  lemma {:induction false} RefillsCannotUnsuspend(g: Group, fs: seq<Firing>)
    requires GroupInv(g) && g.suspended && g.minShare > g.maximum && Fires(g, fs)
    ensures Fired(g, fs).suspended && Fired(g, fs).members == g.members
    decreases |fs|
  {
    if fs != [] {
      var g1 := Refreshed(g, fs[0].ticks, fs[0].won);
      RefreshAdds(g, fs[0].ticks, fs[0].won);
      RefreshKeeps(g, fs[0].ticks, fs[0].won);
      RefillsCannotUnsuspend(g1, fs[1..]);
    }
  }

  /** Firings of one tick each that win no lock. */
  function Single(n: nat): (fs: seq<Firing>)
    ensures |fs| == n
  {
    if n == 0 then [] else [Firing(1, {})] + Single(n - 1)
  }

  lemma {:induction false} OneByOne(g: Group, n: nat)
    requires g.configuring.None?
    ensures Fires(g, Single(n)) && TotalTicks(Single(n)) == n
    decreases n
  {
    if n > 0 {
      assert Single(n)[1..] == Single(n - 1);
      OneByOne(Refreshed(g, 1, {}), n - 1);
    }
  }

  /** So a suspended group recovers by refills exactly if its share is within its maximum. */
  lemma RecoversIff(g: Group)
    requires GroupInv(g) && g.suspended && g.configuring.None?
    ensures (exists fs :: Fires(g, fs) && !Fired(g, fs).suspended) <==> g.minShare <= g.maximum
  {
    if g.minShare <= g.maximum {
      var ticks := 1 + if g.minShare > g.limit then g.minShare - g.limit else 0;
      SomeTicksAreEnough(g, ticks);
      OneByOne(g, ticks);
      RefillsUnsuspend(g, Single(ticks));
    } else {
      forall fs | Fires(g, fs) ensures Fired(g, fs).suspended {
        RefillsCannotUnsuspend(g, fs);
      }
    }
  }

  /** A promise kept is enough for that. */
  lemma ShareOkReaches(g: Group)
    requires GroupInv(g) && ShareOk(g)
    ensures g.minShare <= g.maximum
  {
  }

  // ----- set_min_share against set_cfg -----

  lemma RunsOne(g: Group, e: Event, es: seq<Event>)
    requires Possible(g, e) && Runs(Next(g, e), es)
    ensures Runs(g, [e] + es) && After(g, [e] + es) == After(Next(g, e), es)
  {
    TailOfConcat([e], es);
    EmptyConcat([e][1..], es);
  }

  /** A new group with rates and maximum 100. Thread 1 sets the share to 80 and is about to store it when
      thread 2 configures rates of 10 and a maximum of 50; then thread 1 stores. */
  lemma RaceBreaksShare() returns (es: seq<Event>)
    ensures Runs(NewGroup(100, 100, 100), es)
    ensures var g := After(NewGroup(100, 100, 100), es);
            && g.minShare == 80 && g.maximum == 50 && g.readRate == 10 && !ShareOk(g)
            && g.configuring.None? && g.limit == 50 && g.members == map[] && !g.suspended && !g.pendingUnsuspend
  {
    var g0 := NewGroup(100, 100, 100);
    var begun := AboutToStore();
    var c := Configure(2, 10, 10, 50);
    var rest := Overtaken(After(g0, begun), c, 1);
    RunsOne(After(g0, begun), c, rest);
    RunsConcat(g0, begun, [c] + rest);
    es := begun + ([c] + rest);
  }

  lemma AboutToStore() returns (es: seq<Event>)
    ensures Runs(NewGroup(100, 100, 100), es)
    ensures var g := After(NewGroup(100, 100, 100), es);
            && g == NewGroup(100, 100, 100).(setting := g.setting, configuredMinShare := 80)
            && 1 in g.setting && g.setting[1] == Setting(80, StoreShare) && 2 !in g.setting
  {
    var g0 := NewGroup(100, 100, 100);
    var g1 := Next(g0, SetMinShare(1, 80));
    var g2 := Next(g1, SetStep(1));
    var g3 := Next(g2, SetStep(1));
    var g4 := Next(g3, SetStep(1));
    assert Runs(g4, []) && After(g4, []) == g4;
    RunsOne(g3, SetStep(1), []);
    RunsOne(g2, SetStep(1), [SetStep(1)] + []);
    RunsOne(g1, SetStep(1), [SetStep(1)] + ([SetStep(1)] + []));
    es := [SetStep(1)] + ([SetStep(1)] + ([SetStep(1)] + []));
    RunsOne(g0, SetMinShare(1, 80), es);
    es := [SetMinShare(1, 80)] + es;
  }

  /** A member that joins then and spends more than there is is held back, and no refill frees it. */
  lemma RaceStrandsMember() returns (es: seq<Event>)
    ensures Runs(NewGroup(100, 100, 100), es)
    ensures var g := After(NewGroup(100, 100, 100), es);
            && 7 in g.members && g.members[7].suspended && g.configuring.None?
            && forall fs | Fires(g, fs) :: Fired(g, fs).suspended && Fired(g, fs).members == g.members
  {
    var race := RaceBreaksShare();
    var g0 := After(NewGroup(100, 100, 100), race);
    var g1 := Next(g0, Join(7));
    var g2 := Next(g1, JoinEnd(7));
    var spend := Spend(7, 60, {7});
    var g3 := Next(g2, spend);
    assert Runs(g3, []);
    RunsOne(g2, spend, []);
    RunsOne(g1, JoinEnd(7), [spend] + []);
    RunsOne(g0, Join(7), [JoinEnd(7)] + ([spend] + []));
    es := [Join(7)] + ([JoinEnd(7)] + ([spend] + []));
    RunsConcat(NewGroup(100, 100, 100), race, es);
    es := race + es;
    NewGroupOk(100, 100, 100);
    RunKeepsGroup(NewGroup(100, 100, 100), es);
    forall fs | Fires(g3, fs) ensures Fired(g3, fs).suspended && Fired(g3, fs).members == g3.members {
      RefillsCannotUnsuspend(g3, fs);
    }
  }

  // ----- the loop over the members -----

  ghost function Between(list: seq<MemberId>, a: int, b: int): set<MemberId>
    requires 0 <= a <= b <= |list|
  {
    set k | a <= k < b :: list[k]
  }

  lemma BetweenGrows(list: seq<MemberId>, a: nat, b: nat)
    requires a <= b < |list|
    ensures Between(list, a, b + 1) == Between(list, a, b) + {list[b]}
  {
  }

  lemma BetweenAll(list: seq<MemberId>, a: nat, all: set<MemberId>)
    requires a <= |list| && forall m :: m in list <==> m in all
    ensures Between(list, a, |list|) + Between(list, 0, a) == all
  {
    forall m | m in all ensures m in Between(list, a, |list|) + Between(list, 0, a) {
      var k :| 0 <= k < |list| && list[k] == m;
    }
  }

  /** The members seen so far are released if their lock was won, and `again` says if one was not. */
  ghost predicate Visited(g: Group, seen: set<MemberId>, won: set<MemberId>, members: map<MemberId, Member>,
                          again: bool) {
    members == SetFlags(g.members, seen * won, false) && again == !(seen <= won)
  }

  /** FOREACH_RANDOM_ORDER in bev_group_unsuspend_reading_: from a random member to the end of the
      list, then from its start to that member. It computes what UnsuspendReading says. */
  method UnsuspendMembers(g: Group, list: seq<MemberId>, first: nat, won: set<MemberId>)
    returns (members: map<MemberId, Member>, again: bool)
    requires first < |list| || first == |list| == 0
    requires forall m :: m in list <==> m in g.members.Keys
    ensures UnsuspendReading(g, won) == g.(suspended := false, members := members, pendingUnsuspend := again)
  {
    members, again := g.members, false;
    var i := first;
    while i < |list|
      invariant first <= i <= |list|
      invariant Visited(g, Between(list, first, i), won, members, again)
    {
      BetweenGrows(list, first, i);
      members, again := Visit(g, list[i], members, again, won, Between(list, first, i));
      i := i + 1;
    }
    ghost var tail := Between(list, first, |list|);
    assert Between(list, 0, 0) == {} && tail + {} == tail;
    i := 0;
    while i < |list| && i != first
      invariant 0 <= i <= first
      invariant Visited(g, tail + Between(list, 0, i), won, members, again)
    {
      BetweenGrows(list, 0, i);
      members, again := Visit(g, list[i], members, again, won, tail + Between(list, 0, i));
      assert tail + Between(list, 0, i + 1) == tail + Between(list, 0, i) + {list[i]};
      i := i + 1;
    }
    BetweenAll(list, first, g.members.Keys);
    assert SetFlags(g.members, g.members.Keys * won, false) == SetFlags(g.members, won, false);
  }

  /** One member: released if its lock is won. */
  method Visit(g: Group, m: MemberId, members: map<MemberId, Member>, again: bool, won: set<MemberId>,
               ghost seen: set<MemberId>)
    returns (members': map<MemberId, Member>, again': bool)
    requires m in g.members && Visited(g, seen, won, members, again)
    ensures Visited(g, seen + {m}, won, members', again')
  {
    if m in won {
      return members[m := members[m].(suspended := false)], again;
    }
    return members, true;
  }
}
