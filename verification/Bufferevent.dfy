/** A bufferevent with its own rate limit: suspension reasons, the refill timer, and the rule that
    no direction is left waiting for a wakeup that will not come. */
module Bufferevent {
  import opened Wrappers
  import opened TokenBucket

  /** Why a direction may be suspended. */
  datatype Reason = Watermark | Bandwidth | GroupBandwidth | Lookup | FilterRead

  /** One direction: what the user asked for, what holds it back, and whether its event is armed. */
  datatype Direction = Direction(enabled: bool, suspended: set<Reason>, armed: bool)

  function Suspend(d: Direction, what: Reason): Direction {
    d.(armed := if d.suspended == {} then false else d.armed, suspended := d.suspended + {what})
  }

  function Unsuspend(d: Direction, what: Reason): Direction {
    var left := d.suspended - {what};
    d.(suspended := left, armed := if left == {} && d.enabled then true else d.armed)
  }

  function Enable(d: Direction): Direction {
    d.(enabled := true, armed := if d.suspended == {} then true else d.armed)
  }

  function Disable(d: Direction): Direction {
    d.(enabled := false, armed := false)
  }

  /** The event is armed exactly while the direction is enabled and nothing holds it back. */
  predicate Consistent(d: Direction) {
    d.armed <==> d.enabled && d.suspended == {}
  }

  datatype Change = DoSuspend(what: Reason) | DoUnsuspend(what: Reason) | DoEnable | DoDisable

  function Apply(d: Direction, c: Change): Direction {
    match c
    case DoSuspend(what) => Suspend(d, what)
    case DoUnsuspend(what) => Unsuspend(d, what)
    case DoEnable => Enable(d)
    case DoDisable => Disable(d)
  }

  function ApplyAll(d: Direction, cs: seq<Change>): Direction
    decreases |cs|
  {
    if cs == [] then d else ApplyAll(Apply(d, cs[0]), cs[1..])
  }

  /** Has the reason been given since it was last withdrawn? */
  function Pending(cs: seq<Change>, what: Reason, before: bool): bool
    decreases |cs|
  {
    if cs == [] then before
    else Pending(cs[1..], what, if cs[0] == DoSuspend(what) then true
                                else if cs[0] == DoUnsuspend(what) then false else before)
  }

  function Wanted(cs: seq<Change>, before: bool): bool
    decreases |cs|
  {
    if cs == [] then before
    else Wanted(cs[1..], if cs[0] == DoEnable then true else if cs[0] == DoDisable then false else before)
  }

  /** Over any history of calls the event is armed iff the last enable or disable was an enable and
      every reason given has been withdrawn. */
  lemma {:induction false} ArmedByHistory(d: Direction, cs: seq<Change>)
    requires Consistent(d)
    ensures Consistent(ApplyAll(d, cs))
    ensures ApplyAll(d, cs).enabled == Wanted(cs, d.enabled)
    ensures forall r: Reason :: r in ApplyAll(d, cs).suspended <==> Pending(cs, r, r in d.suspended)
    ensures ApplyAll(d, cs).armed <==>
              Wanted(cs, d.enabled) && forall r: Reason :: !Pending(cs, r, r in d.suspended)
    decreases |cs|
  {
    if cs != [] {
      ArmedByHistory(Apply(d, cs[0]), cs[1..]);
    }
  }

  /** The state of a rate-limited bufferevent; its configuration is None while it has no limit. */
  datatype State = State(cfg: Option<Cfg>, limit: Bucket, timer: bool, read: Direction, write: Direction)

  /** No lost wakeup, and no idle one. With a limit in force: an exhausted direction is suspended for bandwidth. The
      refill timer runs exactly while a direction is suspended for bandwidth. */
  ghost predicate Awake(s: State) {
    && Consistent(s.read) && Consistent(s.write)
    && (s.timer <==> Bandwidth in s.read.suspended || Bandwidth in s.write.suspended)
    && (s.cfg.None? ==> !s.timer)
    && (s.cfg.Some? ==>
          && Accepted(s.cfg.value)
          && WithinMaximum(s.limit, s.cfg.value)
          && 0 <= s.limit.lastUpdated < TICK_WORD
          && (s.limit.readLimit <= 0 ==> Bandwidth in s.read.suspended)
          && (s.limit.writeLimit <= 0 ==> Bandwidth in s.write.suspended))
  }

  /** A tick reading, as ev_token_bucket_get_tick_ returns it. */
  type TickReading = t: int | 0 <= t < TICK_WORD

  /** Reading and writing exchanged. */
  function Mirror(s: State): State {
    State(if s.cfg.None? then None
          else Some(Cfg(s.cfg.value.writeRate, s.cfg.value.writeMaximum, s.cfg.value.readRate, s.cfg.value.readMaximum)),
          Bucket(s.limit.writeLimit, s.limit.readLimit, s.limit.lastUpdated), s.timer, s.write, s.read)
  }

  /** What spending bytes does to the reading side and the timer. */
  function ReadSpent(s: State, bytes: int): State {
    if s.cfg.None? then s
    else
      var t := s.(limit := s.limit.(readLimit := s.limit.readLimit - bytes));
      if t.limit.readLimit <= 0 then HoldRead(t)
      else if Bandwidth in s.read.suspended then FreeRead(t)
      else t
  }

  /** The public variant acts only when the limit crosses zero. */
  function ReadAdjusted(s: State, decr: int): State {
    var t := s.(limit := s.limit.(readLimit := s.limit.readLimit - decr));
    if s.limit.readLimit > 0 && t.limit.readLimit <= 0 then HoldRead(t)
    else if s.limit.readLimit <= 0 && t.limit.readLimit > 0 then FreeRead(t)
    else t
  }

  function HoldRead(s: State): State {
    s.(read := Suspend(s.read, Bandwidth), timer := true)
  }

  function FreeRead(s: State): State {
    s.(read := Unsuspend(s.read, Bandwidth), timer := Bandwidth in s.write.suspended && s.timer)
  }

  /** What one direction of a bufferevent sees of its group, of which it is a member itself. */
  datatype GroupView = GroupView(suspended: bool, limit: int, members: nat, minShare: nat)

  predicate HeldBack(group: Option<GroupView>) {
    group.Some? && group.value.suspended
  }

  /** Division as in C: towards zero. */
  function Truncated(a: int, b: int): int
    requires b > 0
  {
    if a >= 0 then a / b else -((-a) / b)
  }

  /** What one member of a group that is not suspended may use. */
  function Share(g: GroupView): (s: int)
    requires g.members > 0
    ensures s >= g.minShare
  {
    var s := Truncated(g.limit, g.members);
    if s < g.minShare then g.minShare else s
  }

  /** The members together get no more than the limit of the group, unless the minimum share says so, and
      less than one byte each is left over. */
  lemma SharesFit(g: GroupView)
    requires g.members > 0
    ensures Share(g) >= g.minShare
    ensures Share(g) > g.minShare ==> 0 <= g.members * Share(g) <= g.limit
    ensures g.limit < g.members * (Share(g) + 1)
  {
    if g.limit >= 0 {
      var q := g.limit / g.members;
      assert g.limit == g.members * q + g.limit % g.members;
      AtLeastAsMuch(g.members, q + 1, Share(g) + 1);
      AtLeastAsMuch(g.members, 0, Share(g));
    } else {
      AtLeastAsMuch(g.members, 0, Share(g) + 1);
    }
  }

  lemma AtLeastAsMuch(m: nat, a: int, b: int)
    requires a <= b
    ensures m * a <= m * b
  {
  }

  /** n is the most that may be transferred now: nothing for a suspended group; otherwise the largest number
      that neither the own allowance nor the group's share forbids. */
  ghost predicate IsMaximum(n: nat, own: int, group: Option<GroupView>)
    requires group.Some? ==> group.value.members > 0
  {
    && (HeldBack(group) ==> n == 0)
    && (n > 0 ==> MayUse(n, own, group))
    && (!HeldBack(group) ==> !MayUse(n + 1, own, group))
  }

  ghost predicate MayUse(n: int, own: int, group: Option<GroupView>)
    requires group.Some? ==> group.value.members > 0
  {
    n <= own && (group.Some? ==> n <= Share(group.value))
  }

  class RateLimited {
    var cfg: Option<Cfg>
    var limit: Bucket
    var timer: bool
    var read: Direction
    var write: Direction
    var maxSingleRead: nat
    var maxSingleWrite: nat

    ghost function Now(): State
      reads this
    {
      State(cfg, limit, timer, read, write)
    }

    constructor ()
      ensures Awake(Now()) && cfg == None && maxSingleRead == 16384 && maxSingleWrite == 16384
    {
      cfg, limit, timer := None, Bucket(0, 0, 0), false;
      read, write := Direction(false, {}, false), Direction(false, {}, false);
      maxSingleRead, maxSingleWrite := 16384, 16384;
    }

    method SuspendRead(what: Reason)
      requires Awake(Now()) && what != Bandwidth
      modifies this`read
      ensures Awake(Now()) && read == Suspend(old(read), what)
    {
      if read.suspended == {} {
        read := read.(armed := false);
      }
      read := read.(suspended := read.suspended + {what});
    }

    method UnsuspendRead(what: Reason)
      requires Awake(Now()) && what != Bandwidth
      modifies this`read
      ensures Awake(Now()) && read == Unsuspend(old(read), what)
    {
      read := read.(suspended := read.suspended - {what});
      if read.suspended == {} && read.enabled {
        read := read.(armed := true);
      }
    }

    method SuspendWrite(what: Reason)
      requires Awake(Now()) && what != Bandwidth
      modifies this`write
      ensures Awake(Now()) && write == Suspend(old(write), what)
    {
      if write.suspended == {} {
        write := write.(armed := false);
      }
      write := write.(suspended := write.suspended + {what});
    }

    method UnsuspendWrite(what: Reason)
      requires Awake(Now()) && what != Bandwidth
      modifies this`write
      ensures Awake(Now()) && write == Unsuspend(old(write), what)
    {
      write := write.(suspended := write.suspended - {what});
      if write.suspended == {} && write.enabled {
        write := write.(armed := true);
      }
    }

    /** bufferevent_enable: suspended directions are not armed now. */
    method EnableEvents(r: bool, w: bool)
      requires Awake(Now())
      modifies this`read, this`write
      ensures Awake(Now())
      ensures read == if r then Enable(old(read)) else old(read)
      ensures write == if w then Enable(old(write)) else old(write)
    {
      var implRead := r && read.suspended == {};
      var implWrite := w && write.suspended == {};
      read := read.(enabled := read.enabled || r);
      write := write.(enabled := write.enabled || w);
      if implRead {
        read := read.(armed := true);
      }
      if implWrite {
        write := write.(armed := true);
      }
    }

    /** bufferevent_disable. */
    method DisableEvents(r: bool, w: bool)
      requires Awake(Now())
      modifies this`read, this`write
      ensures Awake(Now())
      ensures read == if r then Disable(old(read)) else old(read)
      ensures write == if w then Disable(old(write)) else old(write)
    {
      if r {
        read := read.(enabled := false, armed := false);
      }
      if w {
        write := write.(enabled := false, armed := false);
      }
    }

    /** bufferevent_setwatermark for reading, given how much input is buffered. */
    method SetReadWatermark(high: nat, buffered: nat)
      requires Awake(Now())
      modifies this`read
      ensures Awake(Now())
      ensures read == if high != 0 && buffered >= high then Suspend(old(read), Watermark)
                      else Unsuspend(old(read), Watermark)
    {
      if high != 0 && buffered >= high {
        SuspendRead(Watermark);
      } else {
        UnsuspendRead(Watermark);
      }
    }

    /** How much may be read now: the refilled limit, or the fixed maximum when there is none, but no more
        than the group's share. A group that holds reading back does so here at the latest. */
    method GetReadMax(tick: TickReading, group: Option<GroupView>) returns (n: nat)
      requires Awake(Now()) && (group.Some? ==> group.value.members > 0)
      modifies this`limit, this`read
      ensures Awake(Now())
      ensures limit == if cfg.Some? then Updated(old(limit), cfg.value, tick) else old(limit)
      ensures read == if HeldBack(group) then Suspend(old(read), GroupBandwidth) else old(read)
      ensures IsMaximum(n, if cfg.Some? then limit.readLimit else maxSingleRead, group)
    {
      var max: int := maxSingleRead;
      if cfg.Some? {
        UpdateBuckets(tick);
        max := limit.readLimit;
      }
      if group.Some? {
        var share := 0;
        if group.value.suspended {
          SuspendRead(GroupBandwidth);
        } else {
          share := Share(group.value);
        }
        max := if max > share then share else max;
      }
      n := if max < 0 then 0 else max;
    }

    method GetWriteMax(tick: TickReading, group: Option<GroupView>) returns (n: nat)
      requires Awake(Now()) && (group.Some? ==> group.value.members > 0)
      modifies this`limit, this`write
      ensures Awake(Now())
      ensures limit == if cfg.Some? then Updated(old(limit), cfg.value, tick) else old(limit)
      ensures write == if HeldBack(group) then Suspend(old(write), GroupBandwidth) else old(write)
      ensures IsMaximum(n, if cfg.Some? then limit.writeLimit else maxSingleWrite, group)
    {
      var max: int := maxSingleWrite;
      if cfg.Some? {
        UpdateBuckets(tick);
        max := limit.writeLimit;
      }
      if group.Some? {
        var share := 0;
        if group.value.suspended {
          SuspendWrite(GroupBandwidth);
        } else {
          share := Share(group.value);
        }
        max := if max > share then share else max;
      }
      n := if max < 0 then 0 else max;
    }

    method UpdateBuckets(tick: TickReading)
      requires Awake(Now()) && cfg.Some?
      modifies this`limit
      ensures Awake(Now()) && limit == Updated(old(limit), cfg.value, tick)
    {
      if tick != limit.lastUpdated {
        UpdateOnlyAdds(limit, cfg.value, tick);
        var n := ElapsedTicks(tick, limit.lastUpdated);
        if n == 0 || n > INT_MAX {
          return;
        }
        limit := Bucket(Refill(limit.readLimit, cfg.value.readRate, cfg.value.readMaximum, n),
                        Refill(limit.writeLimit, cfg.value.writeRate, cfg.value.writeMaximum, n), tick);
      }
    }

    /** Bytes were read: spend them, and suspend reading if nothing is left. */
    method DecrementReadBuckets(bytes: int)
      requires Awake(Now())
      requires cfg.Some? ==> SSIZE_MIN <= limit.readLimit - bytes <= cfg.value.readMaximum
      modifies this`limit, this`timer, this`read
      ensures Awake(Now())
      ensures cfg.None? ==> Now() == old(Now())
      ensures cfg.Some? ==>
                && limit == old(limit).(readLimit := old(limit).readLimit - bytes)
                && (Bandwidth in read.suspended <==> limit.readLimit <= 0)
                && read.enabled == old(read).enabled
                && read.suspended - {Bandwidth} == old(read).suspended - {Bandwidth}
      ensures Now() == ReadSpent(old(Now()), bytes)
    {
      if cfg.None? {
        return;
      }
      limit := limit.(readLimit := limit.readLimit - bytes);
      if limit.readLimit <= 0 {
        read := Suspend(read, Bandwidth);
        timer := true;
      } else if Bandwidth in read.suspended {
        if Bandwidth !in write.suspended {
          timer := false;
        }
        read := Unsuspend(read, Bandwidth);
      }
    }

    method DecrementWriteBuckets(bytes: int)
      requires Awake(Now())
      requires cfg.Some? ==> SSIZE_MIN <= limit.writeLimit - bytes <= cfg.value.writeMaximum
      modifies this`limit, this`timer, this`write
      ensures Awake(Now())
      ensures cfg.None? ==> Now() == old(Now())
      ensures cfg.Some? ==>
                && limit == old(limit).(writeLimit := old(limit).writeLimit - bytes)
                && (Bandwidth in write.suspended <==> limit.writeLimit <= 0)
                && write.enabled == old(write).enabled
                && write.suspended - {Bandwidth} == old(write).suspended - {Bandwidth}
      ensures Now() == Mirror(ReadSpent(Mirror(old(Now())), bytes))
    {
      if cfg.None? {
        return;
      }
      limit := limit.(writeLimit := limit.writeLimit - bytes);
      if limit.writeLimit <= 0 {
        write := Suspend(write, Bandwidth);
        timer := true;
      } else if Bandwidth in write.suspended {
        if Bandwidth !in read.suspended {
          timer := false;
        }
        write := Unsuspend(write, Bandwidth);
      }
    }

    /** The public variant that acts only when the limit crosses zero. */
    method DecrementReadLimit(decr: int)
      requires Awake(Now()) && cfg.Some?
      requires SSIZE_MIN <= limit.readLimit - decr <= cfg.value.readMaximum
      modifies this`limit, this`timer, this`read
      ensures Awake(Now())
      ensures limit == old(limit).(readLimit := old(limit).readLimit - decr)
      ensures (old(limit).readLimit > 0) == (limit.readLimit > 0) ==> read == old(read) && timer == old(timer)
      ensures (old(limit).readLimit > 0) != (limit.readLimit > 0) ==>
                (Bandwidth in read.suspended <==> limit.readLimit <= 0)
      ensures Now() == ReadAdjusted(old(Now()), decr)
    {
      var oldLimit := limit.readLimit;
      limit := limit.(readLimit := limit.readLimit - decr);
      var newLimit := limit.readLimit;
      if oldLimit > 0 && newLimit <= 0 {
        read := Suspend(read, Bandwidth);
        timer := true;
      } else if oldLimit <= 0 && newLimit > 0 {
        if Bandwidth !in write.suspended {
          timer := false;
        }
        read := Unsuspend(read, Bandwidth);
      }
    }

    method DecrementWriteLimit(decr: int)
      requires Awake(Now()) && cfg.Some?
      requires SSIZE_MIN <= limit.writeLimit - decr <= cfg.value.writeMaximum
      modifies this`limit, this`timer, this`write
      ensures Awake(Now())
      ensures limit == old(limit).(writeLimit := old(limit).writeLimit - decr)
      ensures (old(limit).writeLimit > 0) == (limit.writeLimit > 0) ==> write == old(write) && timer == old(timer)
      ensures (old(limit).writeLimit > 0) != (limit.writeLimit > 0) ==>
                (Bandwidth in write.suspended <==> limit.writeLimit <= 0)
      ensures Now() == Mirror(ReadAdjusted(Mirror(old(Now())), decr))
    {
      var oldLimit := limit.writeLimit;
      limit := limit.(writeLimit := limit.writeLimit - decr);
      var newLimit := limit.writeLimit;
      if oldLimit > 0 && newLimit <= 0 {
        write := Suspend(write, Bandwidth);
        timer := true;
      } else if oldLimit <= 0 && newLimit > 0 {
        if Bandwidth !in read.suspended {
          timer := false;
        }
        write := Unsuspend(write, Bandwidth);
      }
    }

    /** The refill timer fired. */
    method RefillCallback(tick: TickReading)
      requires Awake(Now()) && timer
      modifies this`limit, this`timer, this`read, this`write
      ensures Awake(Now())
      ensures Now() == Refilled(old(Now()), tick)
    {
      timer := false;
      if cfg.None? {
        return;
      }
      UpdateOnlyAdds(limit, cfg.value, tick);
      var n := ElapsedTicks(tick, limit.lastUpdated);
      if 0 < n <= INT_MAX {
        limit := Bucket(Refill(limit.readLimit, cfg.value.readRate, cfg.value.readMaximum, n),
                        Refill(limit.writeLimit, cfg.value.writeRate, cfg.value.writeMaximum, n), tick);
      }
      var again := false;
      if Bandwidth in read.suspended {
        if limit.readLimit > 0 {
          read := Unsuspend(read, Bandwidth);
        } else {
          again := true;
        }
      }
      if Bandwidth in write.suspended {
        if limit.writeLimit > 0 {
          write := Unsuspend(write, Bandwidth);
        } else {
          again := true;
        }
      }
      if again {
        timer := true;
      }
    }

    /** bufferevent_set_rate_limit; `same` says that the configuration object is the one in force. */
    method SetRateLimit(c: Option<Cfg>, same: bool, tick: TickReading)
      requires Awake(Now()) && (c.Some? ==> Accepted(c.value)) && (same ==> c == cfg)
      modifies this`cfg, this`limit, this`timer, this`read, this`write
      ensures Awake(Now()) && cfg == c
      ensures c.Some? && old(cfg).None? ==>
                limit == Bucket(c.value.readRate, c.value.writeRate, tick)
      ensures c.Some? && old(cfg).Some? && !same ==>
                limit == Bucket(Min(old(limit).readLimit, c.value.readMaximum),
                                Min(old(limit).writeLimit, c.value.writeMaximum), old(limit).lastUpdated)
      ensures c.Some? && !same ==>
                && (Bandwidth in read.suspended <==> limit.readLimit <= 0)
                && (Bandwidth in write.suspended <==> limit.writeLimit <= 0)
                && (timer <==> Bandwidth in read.suspended || Bandwidth in write.suspended)
      ensures c.Some? && same ==> Now() == old(Now())
      ensures c.None? ==>
                limit == old(limit) && !timer && Bandwidth !in read.suspended && Bandwidth !in write.suspended
      ensures read.enabled == old(read).enabled && write.enabled == old(write).enabled
      ensures read.suspended - {Bandwidth} == old(read).suspended - {Bandwidth}
      ensures write.suspended - {Bandwidth} == old(write).suspended - {Bandwidth}
    {
      if c.None? {
        cfg := None;
        read := Unsuspend(read, Bandwidth);
        write := Unsuspend(write, Bandwidth);
        timer := false;
        return;
      }
      if cfg.Some? && same {
        return;
      }
      var reinit := cfg.Some?;
      cfg := c;
      InitBucket(c.value, tick, reinit);
      timer := false;
      var suspended := false;
      if limit.readLimit > 0 {
        read := Unsuspend(read, Bandwidth);
      } else {
        read := Suspend(read, Bandwidth);
        suspended := true;
      }
      if limit.writeLimit > 0 {
        write := Unsuspend(write, Bandwidth);
      } else {
        write := Suspend(write, Bandwidth);
        suspended := true;
      }
      if suspended {
        timer := true;
      }
    }

    /** ev_token_bucket_init_: a new bucket starts with one tick's worth; an old one is only clipped. */
    method InitBucket(c: Cfg, tick: TickReading, reinitialize: bool)
      modifies this`limit
      ensures limit == if reinitialize then
                         Bucket(Min(old(limit).readLimit, c.readMaximum), Min(old(limit).writeLimit, c.writeMaximum),
                                old(limit).lastUpdated)
                       else Bucket(c.readRate, c.writeRate, tick)
    {
      if reinitialize {
        if limit.readLimit > c.readMaximum {
          limit := limit.(readLimit := c.readMaximum);
        }
        if limit.writeLimit > c.writeMaximum {
          limit := limit.(writeLimit := c.writeMaximum);
        }
      } else {
        limit := Bucket(c.readRate, c.writeRate, tick);
      }
    }
  }

  // ----- what the refill timer achieves -----

  /** A direction after a refill: released if its limit is positive again. */
  function Release(d: Direction, limit: int): Direction {
    if Bandwidth in d.suspended && limit > 0 then Unsuspend(d, Bandwidth) else d
  }

  function Refilled(s: State, tick: TickReading): State {
    if s.cfg.None? then s.(timer := false)
    else
      var b := Updated(s.limit, s.cfg.value, tick);
      var r, w := Release(s.read, b.readLimit), Release(s.write, b.writeLimit);
      State(s.cfg, b, Bandwidth in r.suspended || Bandwidth in w.suspended, r, w)
  }

  /** The timer fires, at the given readings, as long as it is set. */
  function Fire(s: State, ticks: seq<TickReading>): State
    decreases |ticks|
  {
    if ticks == [] || !s.timer then s else Fire(Refilled(s, ticks[0]), ticks[1..])
  }

  /** Readings that move on, the first after `last`; and how far they move on in all. */
  predicate Advancing(last: int, ticks: seq<TickReading>)
    decreases |ticks|
  {
    ticks == [] || (RealTicks(ElapsedTicks(ticks[0], last)) && Advancing(ticks[0], ticks[1..]))
  }

  function Span(last: int, ticks: seq<TickReading>): nat
    decreases |ticks|
  {
    if ticks == [] then 0 else ElapsedTicks(ticks[0], last) + Span(ticks[0], ticks[1..])
  }

  lemma RefilledStaysAwake(s: State, tick: TickReading)
    requires Awake(s) && s.timer
    ensures Awake(Refilled(s, tick))
  {
    if s.cfg.Some? {
      UpdateOnlyAdds(s.limit, s.cfg.value, tick);
    }
  }

  /** With callbacks alone, each some ticks after the one before, an exhausted direction is released by the
      first that is floor(-limit / rate) + 1 ticks late, and by none before. */
  lemma {:induction false} CallbacksReleaseRead(s: State, ticks: seq<TickReading>)
    requires Awake(s) && s.cfg.Some? && Bandwidth in s.read.suspended && s.limit.readLimit <= 0
    requires Advancing(s.limit.lastUpdated, ticks)
    ensures Awake(Fire(s, ticks))
    ensures Bandwidth in Fire(s, ticks).read.suspended
            <==> Span(s.limit.lastUpdated, ticks) < (-s.limit.readLimit) / s.cfg.value.readRate + 1
    decreases |ticks|
  {
    var rate := s.cfg.value.readRate;
    DivLess(-s.limit.readLimit, rate, Span(s.limit.lastUpdated, ticks));
    if ticks != [] {
      var t := Refilled(s, ticks[0]);
      var n := ElapsedTicks(ticks[0], s.limit.lastUpdated);
      var rest := Span(ticks[0], ticks[1..]);
      RefilledStaysAwake(s, ticks[0]);
      UpdateIsMin(s.limit, s.cfg.value, ticks[0]);
      Distribute(rate, n, rest);
      if t.limit.readLimit <= 0 {
        CallbacksReleaseRead(t, ticks[1..]);
        DivLess(-t.limit.readLimit, rate, rest);
      } else {
        CallbacksKeepReleased(t, ticks[1..]);
      }
    }
  }

  lemma {:induction false} CallbacksKeepReleased(s: State, ticks: seq<TickReading>)
    requires Awake(s) && s.cfg.Some? && Bandwidth !in s.read.suspended
    ensures Awake(Fire(s, ticks)) && Bandwidth !in Fire(s, ticks).read.suspended
    decreases |ticks|
  {
    if ticks != [] && s.timer {
      RefilledStaysAwake(s, ticks[0]);
      CallbacksKeepReleased(Refilled(s, ticks[0]), ticks[1..]);
    }
  }

  // ----- the same for writing -----

  lemma {:induction false} MirrorFires(s: State, ticks: seq<TickReading>)
    ensures Fire(Mirror(s), ticks) == Mirror(Fire(s, ticks))
    decreases |ticks|
  {
    if ticks != [] && s.timer {
      assert Refilled(Mirror(s), ticks[0]) == Mirror(Refilled(s, ticks[0]));
      MirrorFires(Refilled(s, ticks[0]), ticks[1..]);
    }
  }

  lemma CallbacksReleaseWrite(s: State, ticks: seq<TickReading>)
    requires Awake(s) && s.cfg.Some? && Bandwidth in s.write.suspended && s.limit.writeLimit <= 0
    requires Advancing(s.limit.lastUpdated, ticks)
    ensures Awake(Fire(s, ticks))
    ensures Bandwidth in Fire(s, ticks).write.suspended
            <==> Span(s.limit.lastUpdated, ticks) < (-s.limit.writeLimit) / s.cfg.value.writeRate + 1
  {
    MirrorFires(s, ticks);
    CallbacksReleaseRead(Mirror(s), ticks);
  }
}
