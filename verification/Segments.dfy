/** A byte sequence cut into segments, as the chains of an evbuffer hold it. */
module Segments {
  import opened SeqFacts

  type Byte = bv8

  function Flat(d: seq<seq<Byte>>): seq<Byte> {
    if d == [] then [] else d[0] + Flat(d[1..])
  }

  lemma {:induction false} FlatConcat(a: seq<seq<Byte>>, b: seq<seq<Byte>>)
    ensures Flat(a + b) == Flat(a) + Flat(b)
    decreases |a|
  {
    if a == [] {
      EmptyConcat(a, b);
      EmptyConcat(Flat(a), Flat(b));
    } else {
      TailOfConcat(a, b);
      FlatConcat(a[1..], b);
      ConcatAssoc(a[0], Flat(a[1..]), Flat(b));
    }
  }

  lemma FlatOne(x: seq<Byte>)
    ensures Flat([x]) == x
  {
    assert [x][1..] == [];
    assert Flat([x]) == x + Flat([]);
  }

  lemma FlatThree(l: seq<seq<Byte>>, x: seq<Byte>, r: seq<seq<Byte>>)
    ensures Flat(l + [x] + r) == Flat(l) + x + Flat(r)
  {
    FlatConcat(l, [x]);
    FlatConcat(l + [x], r);
    FlatOne(x);
  }

  /** The bytes around segment i, and what replacing it does. */
  lemma FlatAround(d: seq<seq<Byte>>, i: nat, x: seq<Byte>)
    requires i < |d|
    ensures Flat(d) == Flat(d[..i]) + d[i] + Flat(d[i + 1..])
    ensures Flat(d[i := x]) == Flat(d[..i]) + x + Flat(d[i + 1..])
  {
    Around(d, i, x);
    FlatThree(d[..i], d[i], d[i + 1..]);
    FlatThree(d[..i], x, d[i + 1..]);
  }

  lemma FlatSplit(d: seq<seq<Byte>>, i: nat)
    requires i <= |d|
    ensures Flat(d) == Flat(d[..i]) + Flat(d[i..])
  {
    assert d == d[..i] + d[i..];
    FlatConcat(d[..i], d[i..]);
  }

  lemma FlatNext(d: seq<seq<Byte>>, i: nat)
    requires i < |d|
    ensures Flat(d[..i + 1]) == Flat(d[..i]) + d[i]
    ensures Flat(d[i..]) == d[i] + Flat(d[i + 1..])
  {
    assert d[..i + 1] == d[..i] + [d[i]];
    FlatConcat(d[..i], [d[i]]);
    FlatOne(d[i]);
    assert d[i..][1..] == d[i + 1..];
  }

  /** Nothing but empty segments. */
  ghost predicate AllEmpty(d: seq<seq<Byte>>) {
    forall i | 0 <= i < |d| :: d[i] == []
  }

  lemma {:induction false} FlatEmpty(d: seq<seq<Byte>>)
    requires AllEmpty(d)
    ensures Flat(d) == []
    decreases |d|
  {
    if d != [] {
      FlatEmpty(d[1..]);
    }
  }

  /** Segment k is the last one with data, or the first if none has any. */
  ghost predicate LastData(d: seq<seq<Byte>>, k: nat) {
    && (k == 0 || (k < |d| && d[k] != []))
    && forall i | k < i < |d| :: d[i] == []
  }

  /** The segments up to the last one with data. */
  lemma FlatToLast(d: seq<seq<Byte>>, k: nat)
    requires LastData(d, k) && k < |d|
    ensures Flat(d) == Flat(d[..k + 1])
    ensures Flat(d) == Flat(d[..k]) + d[k]
  {
    FlatUpTo(d, d[..k + 1], d[k + 1..]);
    FlatNext(d, k);
  }

  lemma FlatUpTo(d: seq<seq<Byte>>, l: seq<seq<Byte>>, r: seq<seq<Byte>>)
    requires d == l + r && AllEmpty(r)
    ensures Flat(d) == Flat(l)
  {
    FlatConcat(l, r);
    FlatEmpty(r);
    EmptyConcat(Flat(r), Flat(l));
  }

  /** How many segments survive when the trailing empty ones are freed. */
  ghost function Solid(d: seq<seq<Byte>>, k: nat): (n: nat)
    requires LastData(d, k)
    ensures n <= |d|
  {
    if k >= |d| || d[k] == [] then 0 else k + 1
  }

  lemma FlatSolid(d: seq<seq<Byte>>, k: nat)
    requires LastData(d, k)
    ensures Flat(d[..Solid(d, k)]) == Flat(d)
    ensures Solid(d, k) == 0 ==> Flat(d) == []
  {
    if Solid(d, k) > 0 {
      FlatToLast(d, k);
    } else {
      FlatEmpty(d);
    }
  }
}
