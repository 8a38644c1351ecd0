/** Token buckets in 64-bit machine arithmetic: the overflow-avoiding refill and what it bounds. */
module TokenBucket {
  import opened Wrappers

  const WORD: int := 0x1_0000_0000_0000_0000
  const SSIZE_MAX: int := 0x7FFF_FFFF_FFFF_FFFF
  const SSIZE_MIN: int := -0x8000_0000_0000_0000
  const TICK_WORD: int := 0x1_0000_0000
  const INT_MAX: int := 0x7FFF_FFFF

  /** Rate and burst of both directions; see Accepted. */
  datatype Cfg = Cfg(readRate: nat, readMaximum: nat, writeRate: nat, writeMaximum: nat)

  predicate RateOk(rate: nat, maximum: nat) {
    1 <= rate <= maximum <= SSIZE_MAX
  }

  /** The configurations that ev_token_bucket_cfg_new hands out. */
  predicate Accepted(c: Cfg) {
    RateOk(c.readRate, c.readMaximum) && RateOk(c.writeRate, c.writeMaximum)
  }

  function Unsigned(x: int): int {
    x % WORD
  }

  function Signed(x: int): int {
    var u := x % WORD;
    if u <= SSIZE_MAX then u else u - WORD
  }

  /** One direction of the refill, in the operations of the machine. */
  function Refill(limit: int, rate: nat, maximum: nat, ticks: nat): int
    requires ticks > 0
  {
    if Unsigned(maximum - limit) / ticks < rate then maximum
    else Signed(Unsigned(limit) + Unsigned(ticks * rate))
  }

  lemma DivLess(a: int, n: nat, rate: nat)
    requires a >= 0 && n > 0
    ensures a / n < rate <==> a < n * rate
  {
    var q := a / n;
    assert q * n <= a < q * n + n;
    if q < rate {
      assert (q + 1) * n <= rate * n;
    } else {
      assert q * n >= rate * n;
    }
  }

  lemma SignedSum(limit: int, add: nat)
    requires SSIZE_MIN <= limit <= SSIZE_MAX && add < WORD
    ensures SSIZE_MIN <= limit + add <= SSIZE_MAX ==> Signed(Unsigned(limit) + add) == limit + add
    ensures limit + add >= WORD - 1 - SSIZE_MAX ==> Signed(Unsigned(limit) + add) == limit + add - WORD
  {
    assert Unsigned(limit) == if limit < 0 then limit + WORD else limit;
  }

  /** For a limit within its maximum, even a deeply negative one, the division-based refill is the
      naive one, with no overflow. Above the maximum it is so exactly when the refill reaches the
      wrapped-around distance back to it. */
  lemma RefillExactIff(limit: int, rate: nat, maximum: nat, ticks: nat)
    requires SSIZE_MIN <= limit <= SSIZE_MAX && RateOk(rate, maximum) && 0 < ticks
    ensures Refill(limit, rate, maximum, ticks) == Min(maximum, limit + ticks * rate)
            <==> limit <= maximum || ticks * rate >= WORD - (limit - maximum)
  {
    RefillAsSum(limit, rate, maximum, ticks);
    MinimumIff(limit, maximum, ticks * rate);
  }

  /** The refill with the division undone. */
  function AddClamped(limit: int, maximum: nat, add: nat): int {
    if Unsigned(maximum - limit) < add then maximum else Signed(Unsigned(limit) + Unsigned(add))
  }

  lemma RefillAsSum(limit: int, rate: nat, maximum: nat, ticks: nat)
    requires RateOk(rate, maximum) && 0 < ticks
    ensures Refill(limit, rate, maximum, ticks) == AddClamped(limit, maximum, ticks * rate)
    ensures ticks * rate > 0
  {
    DivLess(Unsigned(maximum - limit), ticks, rate);
    assert ticks * rate >= ticks * 1;
  }

  lemma MinimumIff(limit: int, maximum: nat, add: nat)
    requires SSIZE_MIN <= limit <= SSIZE_MAX && maximum <= SSIZE_MAX && add > 0
    ensures AddClamped(limit, maximum, add) == Min(maximum, limit + add)
            <==> limit <= maximum || add >= WORD - (limit - maximum)
  {
    var d := Unsigned(maximum - limit);
    if limit <= maximum {
      assert d == maximum - limit;
      if add <= d {
        SignedSum(limit, add);
      }
    } else {
      assert d == WORD - (limit - maximum);
      if add < d {
        RefillAboveMaximum(limit, maximum, add);
      } else if add == d {
        assert limit + add == WORD + maximum;
        SignedSum(limit, add);
      }
    }
  }

  lemma RefillAboveMaximum(limit: int, maximum: nat, add: nat)
    requires maximum < limit <= SSIZE_MAX && 0 < add < WORD - (limit - maximum)
    ensures Signed(Unsigned(limit) + Unsigned(add)) != maximum
  {
    var s := limit + add;
    assert maximum < s < WORD + maximum;
    if s < WORD {
      assert s % WORD == s;
    } else {
      assert s % WORD == s - WORD;
    }
  }

  lemma RefillIsMin(limit: int, rate: nat, maximum: nat, ticks: nat)
    requires SSIZE_MIN <= limit <= maximum && RateOk(rate, maximum) && 0 < ticks
    ensures Refill(limit, rate, maximum, ticks) == Min(maximum, limit + ticks * rate)
    ensures limit < maximum ==> Refill(limit, rate, maximum, ticks) > limit
  {
    RefillExactIff(limit, rate, maximum, ticks);
    RefillAsSum(limit, rate, maximum, ticks);
  }

  datatype Bucket = Bucket(readLimit: int, writeLimit: int, lastUpdated: int)

  function ElapsedTicks(now: int, last: int): nat {
    (now - last) % TICK_WORD
  }

  predicate RealTicks(n: nat) {
    0 < n <= INT_MAX
  }

  /** The tick counter wraps, yet the difference of two readings less than 2^31 ticks apart is right;
      a clock that steps back less than that counts as no ticks at all. */
  lemma TicksSurviveWrap(from: int, to: int)
    ensures 0 <= to - from < 0x1_0000_0000 ==> ElapsedTicks(to % TICK_WORD, from % TICK_WORD) == to - from
    ensures 0 < to - from < 0x8000_0000 ==> RealTicks(ElapsedTicks(to % TICK_WORD, from % TICK_WORD))
    ensures 0 < from - to <= 0x8000_0000 ==> !RealTicks(ElapsedTicks(to % TICK_WORD, from % TICK_WORD))
  {
    var d := to - from;
    var k := (to / TICK_WORD) - (from / TICK_WORD);
    assert to % TICK_WORD - from % TICK_WORD == d - k * TICK_WORD;
    ModShift(d, k);
  }

  lemma ModShift(d: int, k: int)
    ensures (d - k * TICK_WORD) % TICK_WORD == d % TICK_WORD
  {
    var q, r := d / TICK_WORD, d % TICK_WORD;
    var e := d - k * TICK_WORD;
    assert e == (q - k) * TICK_WORD + r;
    var q', r' := e / TICK_WORD, e % TICK_WORD;
    assert (q' - (q - k)) * TICK_WORD == r - r';
  }

  function Updated(b: Bucket, c: Cfg, now: int): Bucket {
    var n := ElapsedTicks(now, b.lastUpdated);
    if !RealTicks(n) then b
    else Bucket(Refill(b.readLimit, c.readRate, c.readMaximum, n),
                Refill(b.writeLimit, c.writeRate, c.writeMaximum, n), now)
  }

  predicate WithinMaximum(b: Bucket, c: Cfg) {
    SSIZE_MIN <= b.readLimit <= c.readMaximum && SSIZE_MIN <= b.writeLimit <= c.writeMaximum
  }

  /** What one update does to both limits. */
  lemma UpdateIsMin(b: Bucket, c: Cfg, now: int)
    requires Accepted(c) && WithinMaximum(b, c) && RealTicks(ElapsedTicks(now, b.lastUpdated))
    ensures var n := ElapsedTicks(now, b.lastUpdated);
            && Updated(b, c, now).readLimit == Min(c.readMaximum, b.readLimit + n * c.readRate)
            && Updated(b, c, now).writeLimit == Min(c.writeMaximum, b.writeLimit + n * c.writeRate)
  {
    var n := ElapsedTicks(now, b.lastUpdated);
    RefillIsMin(b.readLimit, c.readRate, c.readMaximum, n);
    RefillIsMin(b.writeLimit, c.writeRate, c.writeMaximum, n);
  }

  /** An update never lowers a limit and never raises it above its maximum. */
  lemma UpdateOnlyAdds(b: Bucket, c: Cfg, now: int)
    requires Accepted(c) && WithinMaximum(b, c)
    ensures WithinMaximum(Updated(b, c, now), c)
    ensures Updated(b, c, now).readLimit >= b.readLimit && Updated(b, c, now).writeLimit >= b.writeLimit
  {
    var n := ElapsedTicks(now, b.lastUpdated);
    if RealTicks(n) {
      RefillOnlyAdds(b.readLimit, c.readRate, c.readMaximum, n);
      RefillOnlyAdds(b.writeLimit, c.writeRate, c.writeMaximum, n);
    }
  }

  lemma RefillOnlyAdds(limit: int, rate: nat, maximum: nat, ticks: nat)
    requires SSIZE_MIN <= limit <= maximum && RateOk(rate, maximum) && 0 < ticks
    ensures limit <= Refill(limit, rate, maximum, ticks) <= maximum
  {
    RefillIsMin(limit, rate, maximum, ticks);
    MulMonotone(rate, 0, ticks);
  }

  // ----- several refills -----

  function Sum(ns: seq<nat>): nat {
    if ns == [] then 0 else ns[0] + Sum(ns[1..])
  }

  predicate Positive(ns: seq<nat>) {
    forall i | 0 <= i < |ns| :: ns[i] > 0
  }

  function RefillAll(limit: int, rate: nat, maximum: nat, ns: seq<nat>): int
    requires Positive(ns)
    decreases |ns|
  {
    if ns == [] then limit else RefillAll(Refill(limit, rate, maximum, ns[0]), rate, maximum, ns[1..])
  }

  /** With no spending in between, any division of the time into refills gives the same limit. */
  lemma {:induction false} RefillsAddUp(limit: int, rate: nat, maximum: nat, ns: seq<nat>)
    requires SSIZE_MIN <= limit <= maximum && RateOk(rate, maximum)
    requires Positive(ns)
    ensures RefillAll(limit, rate, maximum, ns) == Min(maximum, limit + Sum(ns) * rate)
    decreases |ns|
  {
    if ns != [] {
      var l1 := Refill(limit, rate, maximum, ns[0]);
      RefillIsMin(limit, rate, maximum, ns[0]);
      RefillsAddUp(l1, rate, maximum, ns[1..]);
      Distribute(rate, ns[0], Sum(ns[1..]));
    }
  }

  /** How many ticks an exhausted bucket needs before it holds something again. */
  lemma RecoveryTime(limit: int, rate: nat, maximum: nat, ns: seq<nat>)
    requires SSIZE_MIN <= limit <= 0 && RateOk(rate, maximum)
    requires Positive(ns)
    ensures RefillAll(limit, rate, maximum, ns) > 0 <==> Sum(ns) >= (-limit) / rate + 1
  {
    RefillsAddUp(limit, rate, maximum, ns);
    TicksToRecover(limit, rate, Sum(ns));
  }

  /** What n ticks make up for, from a limit that is not positive. */
  lemma TicksToRecover(limit: int, rate: nat, n: nat)
    requires limit <= 0 && rate > 0
    ensures limit + n * rate > 0 <==> n >= (-limit) / rate + 1
    ensures n * rate == rate * n
  {
    DivLess(-limit, rate, n);
  }

  // ----- how much can be read in a span of ticks -----

  /** One read at a real (unwrapped) tick. */
  datatype Read = Read(tick: int, bytes: nat)

  /** The read limit once the bucket was updated at the wrapped reading of a tick. */
  function LimitAt(limit: int, last: int, rate: nat, maximum: nat, tick: int): int {
    var n := ElapsedTicks(tick % TICK_WORD, last);
    if RealTicks(n) then Refill(limit, rate, maximum, n) else limit
  }

  function LastAt(last: int, tick: int): int {
    if RealTicks(ElapsedTicks(tick % TICK_WORD, last)) then tick % TICK_WORD else last
  }

  /** Every read takes no more than the limit it is told, and ticks do not go back. */
  predicate Respects(limit: int, last: int, from: int, rate: nat, maximum: nat, ops: seq<Read>)
    decreases |ops|
  {
    ops == [] ||
    var l := LimitAt(limit, last, rate, maximum, ops[0].tick);
    && from <= ops[0].tick
    && ops[0].bytes <= (if l < 0 then 0 else l)
    && Respects(l - ops[0].bytes, LastAt(last, ops[0].tick), ops[0].tick, rate, maximum, ops[1..])
  }

  function TotalBytes(ops: seq<Read>): nat {
    if ops == [] then 0 else ops[0].bytes + TotalBytes(ops[1..])
  }

  /** The limit when all the reads are done. */
  function LimitAfter(limit: int, last: int, rate: nat, maximum: nat, ops: seq<Read>): int
    decreases |ops|
  {
    if ops == [] then limit
    else LimitAfter(LimitAt(limit, last, rate, maximum, ops[0].tick) - ops[0].bytes,
                    LastAt(last, ops[0].tick), rate, maximum, ops[1..])
  }

  /** At tick `v` nothing more can be gained from the past. */
  predicate CaughtUp(v: int, last: int) {
    !RealTicks(ElapsedTicks(v % TICK_WORD, last))
  }

  lemma CatchesUp(last: int, tick: int)
    ensures CaughtUp(tick, LastAt(last, tick))
  {
  }

  /** What is gained later is gained in the time since. */
  lemma GainIsRecent(v: int, last: int, tick: int)
    requires 0 <= last < TICK_WORD && CaughtUp(v, last) && v <= tick
    requires RealTicks(ElapsedTicks(tick % TICK_WORD, last))
    ensures ElapsedTicks(tick % TICK_WORD, last) <= tick - v
  {
    var a, b := v % TICK_WORD, tick % TICK_WORD;
    var q, q' := v / TICK_WORD, tick / TICK_WORD;
    assert tick - v == (q' - q) * TICK_WORD + b - a;
    assert q' >= q;
    var m := (a - last) % TICK_WORD;
    assert m == if a >= last then a - last else a - last + TICK_WORD;
    var n := (b - last) % TICK_WORD;
    assert n == if b >= last then b - last else b - last + TICK_WORD;
  }

  lemma {:induction false} ReadsBounded(limit: int, last: int, v: int, rate: nat, maximum: nat,
                                        ops: seq<Read>, b: int)
    requires RateOk(rate, maximum) && 0 <= limit <= maximum && 0 <= last < TICK_WORD
    requires CaughtUp(v, last) && v <= b
    requires Respects(limit, last, v, rate, maximum, ops) && forall r | r in ops :: r.tick <= b
    ensures TotalBytes(ops) <= limit + rate * (b - v)
    ensures 0 <= LimitAfter(limit, last, rate, maximum, ops) <= maximum
    decreases |ops|
  {
    MulMonotone(rate, 0, b - v);
    if ops != [] {
      var r := ops[0];
      var l, last' := LimitAt(limit, last, rate, maximum, r.tick), LastAt(last, r.tick);
      assert r in ops;
      OneReadGains(limit, last, v, rate, maximum, r.tick);
      CatchesUp(last, r.tick);
      ReadsBounded(l - r.bytes, last', r.tick, rate, maximum, ops[1..], b);
      Distribute(rate, r.tick - v, b - r.tick);
    }
  }

  lemma OneReadGains(limit: int, last: int, v: int, rate: nat, maximum: nat, tick: int)
    requires RateOk(rate, maximum) && 0 <= limit <= maximum && 0 <= last < TICK_WORD
    requires CaughtUp(v, last) && v <= tick
    ensures 0 <= LimitAt(limit, last, rate, maximum, tick) <= maximum
    ensures LimitAt(limit, last, rate, maximum, tick) <= limit + rate * (tick - v)
  {
    var n := ElapsedTicks(tick % TICK_WORD, last);
    if RealTicks(n) {
      RefillIsMin(limit, rate, maximum, n);
      GainIsRecent(v, last, tick);
      MulMonotone(rate, n, tick - v);
      MulMonotone(rate, 0, n);
    } else {
      MulMonotone(rate, 0, tick - v);
    }
  }

  lemma Distribute(rate: nat, x: int, y: int)
    ensures rate * x + rate * y == rate * (x + y)
    ensures x * rate == rate * x && y * rate == rate * y && (x + y) * rate == rate * (x + y)
    ensures y >= 0 ==> rate * y >= 0
  {
  }

  lemma MulMonotone(rate: nat, x: int, y: int)
    requires x <= y
    ensures x * rate <= rate * y && rate * x <= rate * y
  {
  }

  /** Whatever went before: the bytes read in ticks a to b are at most maximum + rate * (b - a), and
      the limit never leaves the range from 0 to the maximum. */
  lemma BurstBound(limit: int, last: int, rate: nat, maximum: nat, ops: seq<Read>, a: int, b: int)
    requires RateOk(rate, maximum) && 0 <= limit <= maximum && 0 <= last < TICK_WORD && a <= b
    requires Respects(limit, last, a, rate, maximum, ops) && forall r | r in ops :: r.tick <= b
    ensures TotalBytes(ops) <= maximum + rate * (b - a)
    ensures 0 <= LimitAfter(limit, last, rate, maximum, ops) <= maximum
  {
    MulMonotone(rate, 0, b - a);
    if ops != [] {
      var r := ops[0];
      assert r in ops;
      var l, last' := LimitAt(limit, last, rate, maximum, r.tick), LastAt(last, r.tick);
      LimitAtInRange(limit, last, rate, maximum, r.tick);
      CatchesUp(last, r.tick);
      ReadsBounded(l - r.bytes, last', r.tick, rate, maximum, ops[1..], b);
      MulMonotone(rate, b - r.tick, b - a);
    }
  }

  lemma LimitAtInRange(limit: int, last: int, rate: nat, maximum: nat, tick: int)
    requires RateOk(rate, maximum) && 0 <= limit <= maximum && 0 <= last < TICK_WORD
    ensures 0 <= LimitAt(limit, last, rate, maximum, tick) <= maximum
  {
    var n := ElapsedTicks(tick % TICK_WORD, last);
    if RealTicks(n) {
      RefillIsMin(limit, rate, maximum, n);
      MulMonotone(rate, 0, n);
    }
  }
}
