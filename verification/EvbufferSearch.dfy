/** Looking for bytes across the chains of a buffer. */
module EvbufferSearch {
  import opened Wrappers
  import opened SeqFacts
  import opened Segments
  import opened EvbufferCore
  import opened EvbufferPtr

  // ----- what is looked for -----

  /** The pattern w occurs in s at q. */
  predicate Matches(s: seq<Byte>, w: seq<Byte>, q: int) {
    0 <= q && q + |w| <= |s| && s[q..q + |w|] == w
  }

  /** No occurrence begins in [from, to). */
  ghost predicate NoMatch(s: seq<Byte>, w: seq<Byte>, from: int, to: int) {
    forall j | from <= j < to :: !Matches(s, w, j)
  }

  /** The index of the first byte that is one of `stop`, or the length; memchr for one byte. */
  function IndexOf(s: seq<Byte>, stop: set<Byte>): (r: nat)
    ensures r <= |s| && (r < |s| ==> s[r] in stop)
    ensures forall j | 0 <= j < r :: s[j] !in stop
  {
    if s == [] || s[0] in stop then 0 else 1 + IndexOf(s[1..], stop)
  }

  /** memcmp on two pieces of one length. */
  function Memcmp(a: seq<Byte>, b: seq<Byte>): (r: int)
    requires |a| == |b|
    ensures r == 0 <==> a == b
  {
    if a == [] then 0
    else if a[0] != b[0] then a[0] as int - b[0] as int
    else Memcmp(a[1..], b[1..])
  }

  /** A comparison can be made piece by piece. */
  lemma {:induction false} MemcmpConcat(a: seq<Byte>, b: seq<Byte>, x: seq<Byte>, y: seq<Byte>)
    requires |a| == |b| && |x| == |y|
    ensures Memcmp(a + x, b + y) == if a == b then Memcmp(x, y) else Memcmp(a, b)
    decreases |a|
  {
    if a == [] {
      EmptyConcat(a, x);
      EmptyConcat(b, y);
    } else {
      TailOfConcat(a, x);
      TailOfConcat(b, y);
      MemcmpConcat(a[1..], b[1..], x, y);
    }
  }

  /** The first byte that differs decides. */
  lemma {:induction false} MemcmpDecides(a: seq<Byte>, b: seq<Byte>, k: nat)
    requires |a| == |b| && k < |a| && a[..k] == b[..k] && a[k] != b[k]
    ensures Memcmp(a, b) > 0 <==> a[k] > b[k]
    decreases k
  {
    if k > 0 {
      assert a[..k][0] == b[..k][0];
      assert a[1..][..k - 1] == a[..k][1..] && b[1..][..k - 1] == b[..k][1..];
      MemcmpDecides(a[1..], b[1..], k - 1);
    }
  }

  /** The position behind chain i. */
  lemma NextPlace(buf: Evbuffer, p: Ptr, i: int)
    requires buf.Valid() && PointsAt(buf, p, i) && i < |buf.chains|
    ensures p.posInChain <= p.chain.off == |buf.data[i]|
    ensures PointsAt(buf, Ptr(p.pos + (p.chain.off - p.posInChain), p.chain.next, 0), i + 1)
  {
    assert buf.chains[i].Holds(buf.data[i]);
    assert buf.chains[i].next == At(buf.chains, i + 1);
    NextBase(buf.data, i);
  }

  /** n bytes of a chain from a position on, in its memory and in the whole. */
  lemma PartOfChain(buf: Evbuffer, p: Ptr, i: int, n: nat)
    requires buf.Valid() && PointsAt(buf, p, i) && i < |buf.chains| && n <= |buf.data[i]| - p.posInChain
    ensures p.chain.misalign + p.posInChain + n <= |p.chain.mem| && p.pos + n <= |buf.Bytes()|
    ensures p.chain.mem[p.chain.misalign + p.posInChain..p.chain.misalign + p.posInChain + n]
         == buf.Bytes()[p.pos..p.pos + n]
  {
    var c, d := p.chain, buf.data[i];
    assert buf.chains[i].Holds(d);
    SliceAt(buf.data, i, p.posInChain, p.posInChain + n);
    SliceSlice(c.mem, c.misalign, c.misalign + c.off, p.posInChain, p.posInChain + n);
  }

  // ----- comparing -----

  /** memcmp of the bytes of s from `at` on against m. */
  ghost function MemcmpAt(s: seq<Byte>, at: nat, m: seq<Byte>): int
    requires at + |m| <= |s|
  {
    Memcmp(s[at..at + |m|], m)
  }

  /** One step of the comparison loop. */
  lemma CompareStep(s: seq<Byte>, at: nat, m: seq<Byte>, n: nat)
    requires at + |m| <= |s| && n <= |m|
    ensures var r := Memcmp(s[at..at + n], m[..n]);
            MemcmpAt(s, at, m) == if r == 0 then MemcmpAt(s, at + n, m[n..]) else r
  {
    assert s[at..at + |m|] == s[at..at + n] + s[at + n..at + n + |m[n..]|];
    assert m == m[..n] + m[n..];
    MemcmpConcat(s[at..at + n], m[..n], s[at + n..at + n + |m[n..]|], m[n..]);
  }

  /** The part of evbuffer_ptr_memcmp that falls in one chain. */
  method CompareChain(buf: Evbuffer, c: Chain, position: nat, rest: seq<Byte>, ghost p: Ptr, ghost i: int)
    returns (n: nat, r: int)
    requires buf.Valid() && PointsAt(buf, p, i) && p.chain == c && p.posInChain == position
    requires p.pos + |rest| <= |buf.Bytes()|
    ensures n <= |rest|
    ensures MemcmpAt(buf.Bytes(), p.pos, rest)
         == if r == 0 then MemcmpAt(buf.Bytes(), p.pos + n, rest[n..]) else r
    ensures n < |rest| ==> PointsAt(buf, Ptr(p.pos + n, c.next, 0), i + 1)
  {
    NextPlace(buf, p, i);
    n := if |rest| + position > c.off then c.off - position else |rest|;
    PartOfChain(buf, p, i, n);
    CompareStep(buf.Bytes(), p.pos, rest, n);
    var here := c.mem[c.misalign + position..c.misalign + position + n];
    assert here == buf.Bytes()[p.pos..p.pos + n];
    r := Memcmp(here, rest[..n]);
  }

  /** Mid-way through the comparison: the rest is compared from position `at` on, and that decides. */
  ghost predicate Comparing(buf: Evbuffer, chain: Chain?, position: nat, rest: seq<Byte>, at: int, i: int, goal: int)
    requires buf.Valid()
    reads buf, buf.chains
  {
    && 0 <= at && at + |rest| <= |buf.Bytes()| && goal == MemcmpAt(buf.Bytes(), at, rest)
    && (rest != [] ==> PointsAt(buf, Ptr(at, chain, position), i))
  }

  /** One turn of the comparison loop. */
  method CompareTurn(buf: Evbuffer, c: Chain, position: nat, rest: seq<Byte>, ghost at: int, ghost i: int,
                     ghost goal: int)
    returns (r: int, rest': seq<Byte>, ghost at': int)
    requires buf.Valid() && rest != [] && Comparing(buf, c, position, rest, at, i, goal)
    ensures |rest'| <= |rest| && i < |buf.chains|
    ensures if r == 0 then Comparing(buf, c.next, 0, rest', at', i + 1, goal) else goal == r
  {
    var n;
    n, r := CompareChain(buf, c, position, rest, Ptr(at, c, position), i);
    rest', at' := rest[n..], at + n;
  }

  lemma NothingLeft(buf: Evbuffer, chain: Chain?, position: nat, rest: seq<Byte>, at: int, i: int, goal: int)
    requires buf.Valid() && Comparing(buf, chain, position, rest, at, i, goal) && (rest == [] || chain == null)
    ensures goal == 0
  {
    if rest != [] {
      PointsBound(buf, Ptr(at, chain, position), i);
    }
  }

  /** evbuffer_ptr_memcmp: the bytes at a position against mem, as memcmp on the flat sequence. */
  method PtrMemcmp(buf: Evbuffer, pos: Ptr, mem: seq<Byte>) returns (r: int)
    requires buf.Valid() && (Points(buf, pos) || pos == NOT_FOUND)
    ensures if pos.pos < 0 || SIZE_MAX - |mem| < pos.pos || pos.pos + |mem| > |buf.Bytes()| then r == -1
            else r == MemcmpAt(buf.Bytes(), pos.pos, mem)
  {
    if pos.pos < 0 || SIZE_MAX - |mem| < pos.pos || pos.pos + |mem| > buf.totalLen {
      return -1;
    }
    ghost var i :| PointsAt(buf, pos, i);
    ghost var at, goal := pos.pos, MemcmpAt(buf.Bytes(), pos.pos, mem);
    var chain, position, rest := pos.chain, pos.posInChain, mem;
    while rest != [] && chain != null
      invariant Comparing(buf, chain, position, rest, at, i, goal)
      decreases |rest|, |buf.chains| - i
    {
      r, rest, at := CompareTurn(buf, chain, position, rest, at, i, goal);
      if r != 0 {
        return;
      }
      i := i + 1;
      position := 0;
      chain := chain.next;
    }
    NothingLeft(buf, chain, position, rest, at, i, goal);
    r := 0;
  }

  // ----- searching -----

  /** What memchr on the rest of a chain says of the whole. */
  lemma ScanChain(buf: Evbuffer, p: Ptr, i: int, stop: set<Byte>)
    requires buf.Valid() && PointsAt(buf, p, i) && i < |buf.chains|
    ensures p.posInChain <= p.chain.off && p.chain.misalign + p.chain.off <= |p.chain.mem|
    ensures var n := p.chain.off - p.posInChain;
            var k := IndexOf(Rest(p), stop);
            && k <= n && p.pos + n <= |buf.Bytes()|
            && (forall j | p.pos <= j < p.pos + k :: buf.Bytes()[j] !in stop)
            && (k < n ==> buf.Bytes()[p.pos + k] in stop)
            && PointsAt(buf, Ptr(p.pos + k, p.chain, p.posInChain + k), i)
            && PointsAt(buf, Ptr(p.pos + n, p.chain.next, 0), i + 1)
  {
    NextPlace(buf, p, i);
    var n := p.chain.off - p.posInChain;
    PartOfChain(buf, p, i, n);
    var r := Rest(p);
    assert forall j | p.pos <= j < p.pos + n :: buf.Bytes()[j] == r[j - p.pos];
  }

  /** The bytes of a chain from a position on. */
  function Rest(p: Ptr): seq<Byte>
    requires p.chain != null && p.posInChain <= p.chain.off && p.chain.misalign + p.chain.off <= |p.chain.mem|
    reads p.chain
  {
    p.chain.mem[p.chain.misalign + p.posInChain..p.chain.misalign + p.chain.off]
  }

  lemma MatchBegins(s: seq<Byte>, w: seq<Byte>)
    requires w != []
    ensures forall j | Matches(s, w, j) :: s[j] == w[0]
  {
    forall j | Matches(s, w, j) ensures s[j] == w[0] {
      assert s[j..j + |w|][0] == s[j];
    }
  }

  lemma NoFirstNoMatch(s: seq<Byte>, w: seq<Byte>, from: nat, to: nat)
    requires w != [] && from <= to <= |s| && forall j | from <= j < to :: s[j] !in {w[0]}
    ensures NoMatch(s, w, from, to)
  {
    MatchBegins(s, w);
  }

  /** One byte forward, into the next chain at the end of this one. */
  method StepByte(buf: Evbuffer, p: Ptr, c: Chain, ghost i: int) returns (q: Ptr, ghost j: int)
    requires buf.Valid() && PointsAt(buf, p, i) && i < |buf.chains| && p.chain == c && p.posInChain < c.off
    ensures PointsAt(buf, q, j) && q.pos == p.pos + 1 <= |buf.Bytes()| && i <= j
  {
    NextPlace(buf, p, i);
    q, j := Ptr(p.pos + 1, c, p.posInChain + 1), i;
    if q.posInChain == c.off {
      q, j := Ptr(q.pos, c.next, 0), i + 1;
    }
    PointsBound(buf, q, j);
  }

  /** memchr for the first byte of w in the rest of a chain: no match begins before what it finds. */
  method ScanFor(buf: Evbuffer, p: Ptr, c: Chain, w: seq<Byte>, ghost i: int) returns (q: Ptr)
    requires buf.Valid() && PointsAt(buf, p, i) && i < |buf.chains| && p.chain == c && w != []
    ensures PointsAt(buf, q, i) && q.chain == c && p.pos <= q.pos && q.posInChain <= c.off
    ensures q.pos <= |buf.Bytes()| && NoMatch(buf.Bytes(), w, p.pos, q.pos)
    ensures PointsAt(buf, Ptr(q.pos + (c.off - q.posInChain), c.next, 0), i + 1)
  {
    ScanChain(buf, p, i, {w[0]});
    var k := IndexOf(Rest(p), {w[0]});
    NoFirstNoMatch(buf.Bytes(), w, p.pos, p.pos + k);
    q := Ptr(p.pos + k, c, p.posInChain + k);
  }

  method IsMatch(buf: Evbuffer, p: Ptr, w: seq<Byte>) returns (yes: bool)
    requires buf.Valid() && buf.totalLen <= SIZE_MAX && |w| <= SSIZE_MAX && Points(buf, p)
    ensures yes <==> Matches(buf.Bytes(), w, p.pos)
  {
    ghost var i :| PointsAt(buf, p, i);
    PointsBound(buf, p, i);
    var r := PtrMemcmp(buf, p, w);
    yes := r == 0;
  }

  /** Where the search for w in [from, limit) ends. */
  ghost predicate SearchResult(buf: Evbuffer, w: seq<Byte>, from: int, limit: int, r: Ptr)
    reads buf
  {
    var s := buf.Bytes();
    || (Points(buf, r) && from <= r.pos && r.pos + |w| <= limit && Matches(s, w, r.pos) && NoMatch(s, w, from, r.pos))
    || (r == NOT_FOUND && NoMatch(s, w, from, limit - |w| + 1))
  }

  /** The offset a search ends at is determined: the least match, or -1 when there is none. */
  lemma SearchUnique(buf: Evbuffer, w: seq<Byte>, from: int, limit: int, a: Ptr, b: Ptr)
    requires SearchResult(buf, w, from, limit, a) && SearchResult(buf, w, from, limit, b)
    ensures a.pos == b.pos
    ensures a == NOT_FOUND <==> forall q | from <= q && q + |w| <= limit :: !Matches(buf.Bytes(), w, q)
  {
    if a != NOT_FOUND {
      assert Matches(buf.Bytes(), w, a.pos);
    }
    if b != NOT_FOUND {
      assert Matches(buf.Bytes(), w, b.pos);
    }
  }

  /** A position in the chain where the search has come to is not behind the end of that chain. */
  lemma EndInChain(buf: Evbuffer, end: Ptr, p: Ptr, i: int)
    requires buf.Valid() && Points(buf, end) && PointsAt(buf, p, i) && i < |buf.chains|
    requires end.chain == p.chain && p.posInChain == p.chain.off
    ensures end.pos <= p.pos
  {
    var e :| PointsAt(buf, end, e);
    assert e == i;
    assert buf.chains[i].Holds(buf.data[i]);
  }

  datatype Verdict = Here | Exhausted | Further

  /** One round of the search loop: the next candidate in a chain, or the next chain. */
  method TryChain(buf: Evbuffer, w: seq<Byte>, p: Ptr, chain: Chain, end: Option<Ptr>, ghost i: int)
    returns (v: Verdict, q: Ptr, ghost j: int)
    requires buf.Valid() && buf.totalLen <= SIZE_MAX && PointsAt(buf, p, i) && p.chain == chain
    requires end.Some? ==> Points(buf, end.value)
    requires 0 < |w| <= SSIZE_MAX
    ensures PointsAt(buf, q, j) && p.pos <= q.pos <= |buf.Bytes()| && NoMatch(buf.Bytes(), w, p.pos, q.pos)
    ensures v.Here? ==> Matches(buf.Bytes(), w, q.pos)
    ensures v.Exhausted? ==> end.Some? && end.value.pos <= q.pos
    ensures v.Further? ==> j > i || (j == i && q.pos > p.pos)
  {
    q := ScanFor(buf, p, chain, w, i);
    j := i;
    if q.posInChain < chain.off {
      var yes := IsMatch(buf, q, w);
      if yes {
        return Here, q, j;
      }
      q, j := StepByte(buf, q, chain, i);
      return Further, q, j;
    }
    if end.Some? && chain == end.value.chain {
      EndInChain(buf, end.value, q, i);
      return Exhausted, q, j;
    }
    return Further, Ptr(q.pos, chain.next, 0), i + 1;
  }

  /** The loop of evbuffer_search_range. */
  method SearchFrom(buf: Evbuffer, w: seq<Byte>, start: Ptr, end: Option<Ptr>, ghost i0: int) returns (pos: Ptr)
    requires buf.Valid() && buf.totalLen <= SIZE_MAX && PointsAt(buf, start, i0)
    requires end.Some? ==> Points(buf, end.value)
    requires 0 < |w| <= SSIZE_MAX
    ensures SearchResult(buf, w, start.pos, if end.Some? then end.value.pos else |buf.Bytes()|, pos)
  {
    pos := start;
    ghost var i, s := i0, buf.Bytes();
    PointsBound(buf, pos, i);
    if end.Some? {
      ghost var e :| PointsAt(buf, end.value, e);
      PointsBound(buf, end.value, e);
    }
    while pos.chain != null
      invariant PointsAt(buf, pos, i)
      invariant start.pos <= pos.pos <= |s| && NoMatch(s, w, start.pos, pos.pos)
      decreases |buf.chains| - i, |s| - pos.pos
    {
      var v;
      v, pos, i := TryChain(buf, w, pos, pos.chain, end, i);
      if v.Here? {
        if end.Some? && pos.pos + |w| > end.value.pos {
          return NOT_FOUND;
        }
        return;
      } else if v.Exhausted? {
        return NOT_FOUND;
      }
    }
    PointsBound(buf, pos, i);
    pos := NOT_FOUND;
  }

  /** evbuffer_search_range: the least match at or after the start that ends within the range. */
  method SearchRange(buf: Evbuffer, w: seq<Byte>, start: Option<Ptr>, end: Option<Ptr>) returns (pos: Ptr)
    requires buf.Valid() && buf.totalLen <= SIZE_MAX
    requires start.Some? ==> Points(buf, start.value)
    requires end.Some? ==> Points(buf, end.value)
    ensures var first := if start.Some? then start.value else Start(buf);
            var limit := if end.Some? then end.value.pos else |buf.Bytes()|;
            if 0 < |w| <= SSIZE_MAX then SearchResult(buf, w, first.pos, limit, pos) else pos == first
  {
    pos := if start.Some? then start.value else Start(buf);
    if w == [] || |w| > SSIZE_MAX {
      return;
    }
    ghost var i :| PointsAt(buf, pos, i);
    pos := SearchFrom(buf, w, pos, end, i);
  }

  /** evbuffer_search: the least match at or after the start. */
  method Search(buf: Evbuffer, w: seq<Byte>, start: Option<Ptr>) returns (pos: Ptr)
    requires buf.Valid() && buf.totalLen <= SIZE_MAX
    requires start.Some? ==> Points(buf, start.value)
    ensures var first := if start.Some? then start.value else Start(buf);
            if 0 < |w| <= SSIZE_MAX then SearchResult(buf, w, first.pos, |buf.Bytes()|, pos) else pos == first
  {
    pos := SearchRange(buf, w, start, None);
  }
}
