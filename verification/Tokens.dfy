/** Announce tokens: a keyed hash of the asker's address under a secret that is rotated, the
    secret before it being remembered. */
module Tokens {
  import opened RoutingTable

  type Secret = seq<bv8>
  type Token = seq<bv8>

  const TOKEN_SIZE: nat := 8
  const MIN_ROTATION: int := 900
  const ROTATION_SPREAD: int := 1800

  /** dht_hash, cut to TOKEN_SIZE bytes; supplied by the program that embeds the node. */
  type Hash = (Secret, Address) -> Token

  datatype Secrets = Secrets(secret: Secret, oldSecret: Secret, rotateTime: int)

  /** rotate_secrets: `next` is what the random source delivered, `random` the rest of the delay. */
  function Rotate(s: Secrets, now: int, random: nat, next: Secret): Secrets {
    Secrets(next, s.secret, now + MIN_ROTATION + random % ROTATION_SPREAD)
  }

  /** The end of a call of dht_periodic. */
  function Periodic(s: Secrets, now: int, random: nat, next: Secret): Secrets {
    if now >= s.rotateTime then Rotate(s, now, random, next) else s
  }

  function MakeToken(hash: Hash, s: Secrets, addr: Address, previous: bool): Token {
    hash(if previous then s.oldSecret else s.secret, addr)
  }

  predicate TokenMatch(hash: Hash, s: Secrets, token: Token, addr: Address) {
    && |token| == TOKEN_SIZE
    && (token == MakeToken(hash, s, addr, false) || token == MakeToken(hash, s, addr, true))
  }

  /** One call of dht_periodic: its time, and what the random sources deliver in it. */
  datatype Tick = Tick(now: int, random: nat, next: Secret)

  /** The secrets after a number of calls. */
  function RunTicks(s: Secrets, ticks: seq<Tick>): Secrets
    decreases |ticks|
  {
    if ticks == [] then s
    else RunTicks(Periodic(s, ticks[0].now, ticks[0].random, ticks[0].next), ticks[1..])
  }

  predicate NonDecreasing(from: int, ticks: seq<Tick>)
    decreases |ticks|
  {
    ticks == [] || (from <= ticks[0].now && NonDecreasing(ticks[0].now, ticks[1..]))
  }

  /** The secret in use at time `issued` is still current, or was replaced so recently that no
      further rotation is due before issued + 900. */
  ghost predicate Remembers(s: Secrets, key: Secret, issued: int) {
    s.secret == key || (s.oldSecret == key && s.rotateTime >= issued + 900)
  }

  lemma {:induction false} RunRemembers(s: Secrets, key: Secret, issued: int, from: int, ticks: seq<Tick>)
    requires Remembers(s, key, issued) && issued <= from && NonDecreasing(from, ticks)
    requires forall t | t in ticks :: t.now < issued + 900
    ensures Remembers(RunTicks(s, ticks), key, issued)
    decreases |ticks|
  {
    if ticks != [] {
      var t := ticks[0];
      assert t in ticks;
      assert ticks == [t] + ticks[1..];
      RunRemembers(Periodic(s, t.now, t.random, t.next), key, issued, t.now, ticks[1..]);
    }
  }

  /** With a clock that does not go back: a token issued in the call at time `issued` is accepted
      from the same address by every announce handled less than 900 seconds later, whatever
      rotations the calls in between, that one included, have done. */
  lemma TokenIsAccepted(hash: Hash, s: Secrets, addr: Address, issued: int, ticks: seq<Tick>)
    requires |MakeToken(hash, s, addr, false)| == 8
    requires NonDecreasing(issued, ticks)
    requires forall t | t in ticks :: t.now < issued + 900
    ensures TokenMatch(hash, RunTicks(s, ticks), MakeToken(hash, s, addr, false), addr)
  {
    RunRemembers(s, s.secret, issued, issued, ticks);
  }

  /** 900 seconds is exact: two calls that far apart can forget the secret, and then the token is
      worth nothing unless the hash happens to collide. */
  lemma TokenCanExpireAt900(hash: Hash, addr: Address, s: Secrets, a: Secret, b: Secret, issued: int)
    requires issued >= s.rotateTime
    requires hash(a, addr) != hash(s.secret, addr) && hash(b, addr) != hash(s.secret, addr)
    ensures var ticks := [Tick(issued, 0, a), Tick(issued + 900, 0, b)];
            && NonDecreasing(issued, ticks)
            && !TokenMatch(hash, RunTicks(s, ticks), MakeToken(hash, s, addr, false), addr)
  {
    var ticks := [Tick(issued, 0, a), Tick(issued + 900, 0, b)];
    assert ticks[1..] == [Tick(issued + 900, 0, b)];
    assert ticks[1..][1..] == [];
    var s1 := Periodic(s, issued, 0, a);
    var s2 := Periodic(s1, issued + 900, 0, b);
    assert s1.rotateTime == issued + 900;
    assert RunTicks(s2, ticks[1..][1..]) == s2;
  }

  // ----- tokens do not last -----

  /** Neither secret gives the token. */
  predicate Worthless(hash: Hash, s: Secrets, token: Token, addr: Address) {
    hash(s.secret, addr) != token && hash(s.oldSecret, addr) != token
  }

  predicate NoneGives(hash: Hash, ticks: seq<Tick>, token: Token, addr: Address) {
    forall t | t in ticks :: hash(t.next, addr) != token
  }

  lemma {:induction false} WorthlessStays(hash: Hash, s: Secrets, ticks: seq<Tick>, token: Token, addr: Address)
    requires Worthless(hash, s, token, addr) && NoneGives(hash, ticks, token, addr)
    ensures Worthless(hash, RunTicks(s, ticks), token, addr)
    decreases |ticks|
  {
    if ticks != [] {
      var t := ticks[0];
      assert t in ticks;
      WorthlessStays(hash, Periodic(s, t.now, t.random, t.next), ticks[1..], token, addr);
    }
  }

  lemma {:induction false} OneMoreRotation(hash: Hash, s: Secrets, ticks: seq<Tick>, j: nat, token: Token,
                                           addr: Address)
    requires hash(s.secret, addr) != token && NoneGives(hash, ticks, token, addr)
    requires j < |ticks| && ticks[j].now >= s.rotateTime
    ensures Worthless(hash, RunTicks(s, ticks), token, addr)
    decreases |ticks|
  {
    var t := ticks[0];
    assert t in ticks;
    var s1 := Periodic(s, t.now, t.random, t.next);
    if t.now >= s.rotateTime {
      WorthlessStays(hash, s1, ticks[1..], token, addr);
    } else {
      OneMoreRotation(hash, s1, ticks[1..], j - 1, token, addr);
    }
  }

  /** A secret is replaced by the first call 2700 seconds after it came into use, and forgotten by the first one
      2700 seconds after that: with calls i and j that far apart the token is rejected ever after, unless the hash
      happens to collide. */
  lemma {:induction false} TokenIsForgotten(hash: Hash, s: Secrets, addr: Address, token: Token, issued: int,
                                            ticks: seq<Tick>, i: nat, j: nat)
    requires s.rotateTime < issued + 2700 && NonDecreasing(issued, ticks)
    requires i < j < |ticks| && ticks[i].now >= issued + 2700 && ticks[j].now >= ticks[i].now + 2700
    requires NoneGives(hash, ticks, token, addr)
    ensures !TokenMatch(hash, RunTicks(s, ticks), token, addr)
    decreases |ticks|
  {
    var t := ticks[0];
    assert t in ticks;
    var s1 := Periodic(s, t.now, t.random, t.next);
    if t.now >= s.rotateTime {
      LaterIsLater(issued, ticks, i);
      OneMoreRotation(hash, s1, ticks[1..], j - 1, token, addr);
    } else {
      NextCalls(issued, ticks, i, j);
      TokenIsForgotten(hash, s1, addr, token, issued, ticks[1..], i - 1, j - 1);
    }
  }

  lemma {:induction false} LaterIsLater(from: int, ticks: seq<Tick>, i: nat)
    requires NonDecreasing(from, ticks) && i < |ticks|
    ensures ticks[0].now <= ticks[i].now && from <= ticks[i].now
    decreases |ticks|
  {
    if i > 0 {
      LaterIsLater(ticks[0].now, ticks[1..], i - 1);
    }
  }

  lemma {:induction false} NextCalls(issued: int, ticks: seq<Tick>, i: nat, j: nat)
    requires NonDecreasing(issued, ticks) && i < j < |ticks| && ticks[0].now < issued + 2700 <= ticks[i].now
    ensures 0 < i && NonDecreasing(issued, ticks[1..])
  {
    if |ticks| > 1 {
      LaterIsLater(ticks[0].now, ticks[1..], 0);
    }
  }

  /** The node's secrets, as the program updates them. */
  class TokenIssuer {
    var secret: Secret
    var oldSecret: Secret
    var rotateTime: int

    ghost function State(): Secrets
      reads this
    {
      Secrets(secret, oldSecret, rotateTime)
    }

    method RotateSecrets(now: int, random: nat, next: Secret)
      modifies this
      ensures State() == Rotate(old(State()), now, random, next)
    {
      rotateTime := now + MIN_ROTATION + random % ROTATION_SPREAD;
      oldSecret := secret;
      secret := next;
    }

    /** The tail of dht_periodic that concerns tokens. */
    method EndOfPeriodic(now: int, random: nat, next: Secret)
      modifies this
      ensures State() == Periodic(old(State()), now, random, next)
    {
      if now >= rotateTime {
        RotateSecrets(now, random, next);
      }
    }

    /** A token is good if either secret gives it. */
    method Check(hash: Hash, token: Token, addr: Address) returns (ok: bool)
      ensures ok == TokenMatch(hash, State(), token, addr)
      ensures ok <==> |token| == 8 && (token == hash(secret, addr) || token == hash(oldSecret, addr))
    {
      if |token| != TOKEN_SIZE {
        return false;
      }
      var t := hash(secret, addr);
      if t == token {
        return true;
      }
      t := hash(oldSecret, addr);
      ok := t == token;
    }
  }
}
