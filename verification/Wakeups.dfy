/** No lost wakeup, over any history of one rate-limited bufferevent under one configuration: refill callbacks,
    refills by those who ask how much they may transfer, spending, and everything else that suspends a
    direction or releases it. */
module Wakeups {
  import opened Wrappers
  import opened SeqFacts
  import opened TokenBucket
  import opened Bufferevent

  /** `reading` says which direction is meant. */
  datatype Happening =
    | Callback(tick: TickReading)
    | Look(tick: TickReading)
    | Spend(reading: bool, bytes: int)
    | Adjust(reading: bool, decr: int)
    | Other(reading: bool, change: Change)

  /** Spending within the range of the machine, a timer that is set, a reason of somebody else. */
  predicate Can(s: State, e: Happening) {
    match e
    case Callback(_) => s.timer
    case Look(_) => true
    case Spend(reading, bytes) => s.cfg.Some? ==> InRange(s, reading, bytes)
    case Adjust(reading, decr) => s.cfg.Some? && InRange(s, reading, decr)
    case Other(_, c) => (c.DoSuspend? || c.DoUnsuspend?) ==> c.what != Bandwidth
  }

  predicate InRange(s: State, reading: bool, n: int)
    requires s.cfg.Some?
  {
    if reading then SSIZE_MIN <= s.limit.readLimit - n <= s.cfg.value.readMaximum
    else SSIZE_MIN <= s.limit.writeLimit - n <= s.cfg.value.writeMaximum
  }

  function Next(s: State, e: Happening): State {
    match e
    case Callback(tick) => Refilled(s, tick)
    case Look(tick) => if s.cfg.Some? then s.(limit := Updated(s.limit, s.cfg.value, tick)) else s
    case Spend(reading, bytes) =>
      if reading then ReadSpent(s, bytes) else Mirror(ReadSpent(Mirror(s), bytes))
    case Adjust(reading, decr) =>
      if reading then ReadAdjusted(s, decr) else Mirror(ReadAdjusted(Mirror(s), decr))
    case Other(reading, c) =>
      if reading then s.(read := Apply(s.read, c)) else s.(write := Apply(s.write, c))
  }

  ghost predicate Runs(s: State, h: seq<Happening>)
    decreases |h|
  {
    h == [] || (Can(s, h[0]) && Runs(Next(s, h[0]), h[1..]))
  }

  ghost function After(s: State, h: seq<Happening>): State
    decreases |h|
  {
    if h == [] then s else After(Next(s, h[0]), h[1..])
  }

  // ----- the rule is kept -----

  lemma NextStaysAwake(s: State, e: Happening)
    requires Awake(s) && Can(s, e)
    ensures Awake(Next(s, e)) && Next(s, e).cfg == s.cfg
  {
    match e
    case Callback(tick) => RefilledStaysAwake(s, tick);
    case Look(tick) =>
      if s.cfg.Some? {
        UpdateOnlyAdds(s.limit, s.cfg.value, tick);
      }
    case Spend(reading, bytes) =>
      if reading {
        SpendingStaysAwake(s, bytes);
      } else {
        SpendingStaysAwake(Mirror(s), bytes);
      }
    case Adjust(reading, decr) =>
      if reading {
        AdjustingStaysAwake(s, decr);
      } else {
        AdjustingStaysAwake(Mirror(s), decr);
      }
    case Other(reading, c) => OthersStayAwake(s, reading, c);
  }

  lemma OthersStayAwake(s: State, reading: bool, c: Change)
    requires Awake(s) && Can(s, Other(reading, c))
    ensures Awake(Next(s, Other(reading, c)))
  {
  }

  lemma SpendingStaysAwake(s: State, bytes: int)
    requires Awake(s) && (s.cfg.Some? ==> InRange(s, true, bytes))
    ensures Awake(ReadSpent(s, bytes)) && ReadSpent(s, bytes).cfg == s.cfg
  {
  }

  lemma AdjustingStaysAwake(s: State, decr: int)
    requires Awake(s) && s.cfg.Some? && InRange(s, true, decr)
    ensures Awake(ReadAdjusted(s, decr)) && ReadAdjusted(s, decr).cfg == s.cfg
  {
  }

  /** Whatever happens, the timer runs exactly while a direction waits for bandwidth. */
  lemma {:induction false} HistoryStaysAwake(s: State, h: seq<Happening>)
    requires Awake(s) && Runs(s, h)
    ensures Awake(After(s, h)) && After(s, h).cfg == s.cfg
    ensures After(s, h).timer <==> Bandwidth in After(s, h).read.suspended || Bandwidth in After(s, h).write.suspended
    decreases |h|
  {
    if h != [] {
      NextStaysAwake(s, h[0]);
      HistoryStaysAwake(Next(s, h[0]), h[1..]);
    }
  }

  // ----- what the refills add -----

  /** Nobody spends on the one side, by the ordinary call or by the public one. */
  predicate NoSpending(h: seq<Happening>, reading: bool) {
    forall e | e in h && (e.Spend? || e.Adjust?) :: e.reading != reading
  }

  /** The ticks an event adds, and the reading it leaves: a clock that stands still or steps back adds none. */
  function Gain(last: int, e: Happening): nat {
    if (e.Callback? || e.Look?) && RealTicks(ElapsedTicks(e.tick, last)) then ElapsedTicks(e.tick, last) else 0
  }

  function Reading(last: int, e: Happening): int {
    if Gain(last, e) > 0 then e.tick else last
  }

  function Gained(last: int, h: seq<Happening>): nat
    decreases |h|
  {
    if h == [] then 0 else Gain(last, h[0]) + Gained(Reading(last, h[0]), h[1..])
  }

  /** One event, seen from the reading side. */
  lemma NextAdds(s: State, e: Happening)
    requires Awake(s) && s.cfg.Some? && Can(s, e) && !((e.Spend? || e.Adjust?) && e.reading)
    ensures var t := Next(s, e);
            && t.limit.lastUpdated == Reading(s.limit.lastUpdated, e)
            && t.limit.readLimit
               == Min(s.cfg.value.readMaximum, s.limit.readLimit + s.cfg.value.readRate * Gain(s.limit.lastUpdated, e))
            && (Bandwidth in t.read.suspended
                <==> Bandwidth in s.read.suspended && !(e.Callback? && t.limit.readLimit > 0))
  {
    if (e.Callback? || e.Look?) && Gain(s.limit.lastUpdated, e) > 0 {
      UpdateIsMin(s.limit, s.cfg.value, e.tick);
      Distribute(s.cfg.value.readRate, Gain(s.limit.lastUpdated, e), 0);
    }
  }

  /** Looks and callbacks in any order, at any readings, add up. */
  lemma {:induction false} LimitGrows(s: State, h: seq<Happening>)
    requires Awake(s) && s.cfg.Some? && Runs(s, h) && NoSpending(h, true)
    ensures After(s, h).limit.readLimit
         == Min(s.cfg.value.readMaximum, s.limit.readLimit + s.cfg.value.readRate * Gained(s.limit.lastUpdated, h))
    decreases |h|
  {
    if h != [] {
      assert h[0] in h;
      var last, rate := s.limit.lastUpdated, s.cfg.value.readRate;
      NextStaysAwake(s, h[0]);
      NextAdds(s, h[0]);
      LimitGrows(Next(s, h[0]), h[1..]);
      Distribute(rate, Gain(last, h[0]), Gained(Reading(last, h[0]), h[1..]));
    }
  }

  // ----- release -----

  lemma {:induction false} AfterConcat(s: State, a: seq<Happening>, b: seq<Happening>)
    requires Runs(s, a + b)
    ensures Runs(s, a) && Runs(After(s, a), b) && After(s, a + b) == After(After(s, a), b)
    decreases |a|
  {
    if a == [] {
      EmptyConcat(a, b);
    } else {
      TailOfConcat(a, b);
      AfterConcat(Next(s, a[0]), a[1..], b);
    }
  }

  lemma AfterOne(s: State, e: Happening)
    requires Runs(s, [e])
    ensures Can(s, e) && After(s, [e]) == Next(s, e)
  {
    assert [e][1..] == [];
  }

  /** A callback leaves reading suspended for bandwidth exactly if there is nothing to read with. */
  lemma CallbackDecides(s: State, tick: TickReading)
    requires Awake(s) && s.cfg.Some? && s.timer
    ensures Bandwidth in Refilled(s, tick).read.suspended <==> Refilled(s, tick).limit.readLimit <= 0
  {
    RefilledStaysAwake(s, tick);
  }

  predicate EndsInCallback(h: seq<Happening>) {
    h != [] && h[|h| - 1].Callback?
  }

  lemma SuspendedIffExhausted(s: State, h: seq<Happening>)
    requires Awake(s) && s.cfg.Some? && Runs(s, h) && EndsInCallback(h)
    ensures Bandwidth in After(s, h).read.suspended <==> After(s, h).limit.readLimit <= 0
  {
    var init, last := h[..|h| - 1], h[|h| - 1];
    assert h == init + [last];
    AfterConcat(s, init, [last]);
    HistoryStaysAwake(s, init);
    AfterOne(After(s, init), last);
    CallbackDecides(After(s, init), last.tick);
  }

  /** Whether or not reading was suspended, from any limit, and whatever happens in between but spending on
      its side: after a callback it is suspended for bandwidth iff the ticks gained did not make up for what
      it was short of; from a limit that is not positive that takes floor(-limit / rate) + 1 of them. */
  lemma ReadIsReleasedInTime(s: State, h: seq<Happening>)
    requires Awake(s) && s.cfg.Some? && Runs(s, h) && EndsInCallback(h) && NoSpending(h, true)
    ensures Bandwidth in After(s, h).read.suspended <==>
            s.limit.readLimit + s.cfg.value.readRate * Gained(s.limit.lastUpdated, h) <= 0
    ensures s.limit.readLimit <= 0 ==>
              (Bandwidth in After(s, h).read.suspended <==>
               Gained(s.limit.lastUpdated, h) < (-s.limit.readLimit) / s.cfg.value.readRate + 1)
  {
    SuspendedIffExhausted(s, h);
    LimitGrows(s, h);
    if s.limit.readLimit <= 0 {
      TicksToRecover(s.limit.readLimit, s.cfg.value.readRate, Gained(s.limit.lastUpdated, h));
    }
  }

  lemma {:induction false} ReadStaysReleased(s: State, h: seq<Happening>)
    requires Awake(s) && s.cfg.Some? && Runs(s, h) && NoSpending(h, true) && Bandwidth !in s.read.suspended
    ensures Bandwidth !in After(s, h).read.suspended
    decreases |h|
  {
    if h != [] {
      assert h[0] in h;
      NextStaysAwake(s, h[0]);
      NextAdds(s, h[0]);
      ReadStaysReleased(Next(s, h[0]), h[1..]);
    }
  }

  /** One callback that comes late enough is sufficient, and holds until somebody spends. */
  lemma ReadIsReleasedForGood(s: State, h: seq<Happening>, rest: seq<Happening>)
    requires Awake(s) && s.cfg.Some? && Runs(s, h + rest) && EndsInCallback(h)
    requires NoSpending(h, true) && NoSpending(rest, true)
    requires s.limit.readLimit + s.cfg.value.readRate * Gained(s.limit.lastUpdated, h) > 0
    ensures Bandwidth !in After(s, h + rest).read.suspended
  {
    AfterConcat(s, h, rest);
    ReadIsReleasedInTime(s, h);
    HistoryStaysAwake(s, h);
    ReadStaysReleased(After(s, h), rest);
  }

  // ----- the same for writing -----

  function MirrorOf(e: Happening): Happening {
    if e.Callback? || e.Look? then e else e.(reading := !e.reading)
  }

  function MirrorAll(h: seq<Happening>): seq<Happening> {
    seq(|h|, i requires 0 <= i < |h| => MirrorOf(h[i]))
  }

  lemma MirrorNext(s: State, e: Happening)
    requires Can(s, e)
    ensures Can(Mirror(s), MirrorOf(e)) && Next(Mirror(s), MirrorOf(e)) == Mirror(Next(s, e))
  {
  }

  lemma {:induction false} MirrorAfter(s: State, h: seq<Happening>)
    requires Runs(s, h)
    ensures Runs(Mirror(s), MirrorAll(h)) && After(Mirror(s), MirrorAll(h)) == Mirror(After(s, h))
    ensures forall last :: Gained(last, MirrorAll(h)) == Gained(last, h)
    decreases |h|
  {
    if h != [] {
      MirrorNext(s, h[0]);
      MirrorAfter(Next(s, h[0]), h[1..]);
      assert MirrorAll(h)[1..] == MirrorAll(h[1..]);
    }
  }

  lemma WriteIsReleasedInTime(s: State, h: seq<Happening>)
    requires Awake(s) && s.cfg.Some? && Runs(s, h) && EndsInCallback(h) && NoSpending(h, false)
    ensures Bandwidth in After(s, h).write.suspended <==>
            s.limit.writeLimit + s.cfg.value.writeRate * Gained(s.limit.lastUpdated, h) <= 0
    ensures s.limit.writeLimit <= 0 ==>
              (Bandwidth in After(s, h).write.suspended <==>
               Gained(s.limit.lastUpdated, h) < (-s.limit.writeLimit) / s.cfg.value.writeRate + 1)
  {
    MirrorAfter(s, h);
    ReadIsReleasedInTime(Mirror(s), MirrorAll(h));
  }

  lemma WriteStaysReleased(s: State, h: seq<Happening>)
    requires Awake(s) && s.cfg.Some? && Runs(s, h) && NoSpending(h, false) && Bandwidth !in s.write.suspended
    ensures Bandwidth !in After(s, h).write.suspended
  {
    MirrorAfter(s, h);
    ReadStaysReleased(Mirror(s), MirrorAll(h));
  }

  lemma WriteIsReleasedForGood(s: State, h: seq<Happening>, rest: seq<Happening>)
    requires Awake(s) && s.cfg.Some? && Runs(s, h + rest) && EndsInCallback(h)
    requires NoSpending(h, false) && NoSpending(rest, false)
    requires s.limit.writeLimit + s.cfg.value.writeRate * Gained(s.limit.lastUpdated, h) > 0
    ensures Bandwidth !in After(s, h + rest).write.suspended
  {
    AfterConcat(s, h, rest);
    WriteIsReleasedInTime(s, h);
    HistoryStaysAwake(s, h);
    WriteStaysReleased(After(s, h), rest);
  }
}
