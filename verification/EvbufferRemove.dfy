/** Moving a prefix of one buffer to the end of another. */
module EvbufferRemove {
  import opened Wrappers
  import opened SeqFacts
  import opened Segments
  import opened EvbufferCore
  import opened EvbufferInsert
  import opened EvbufferAdd
  import opened EvbufferPtr
  import opened EvbufferDrain
  import opened EvbufferRead
  import opened EvbufferMove

  /** advance_last_with_data. */
  method AdvanceLastWithData(buf: Evbuffer)
    requires buf.Chained()
    modifies buf`lastWithDatap, buf`dataIdx
    ensures buf.Chained() && LastData(buf.data, buf.dataIdx)
  {
    var chainp := buf.lastWithDatap;
    if Deref(chainp) == null {
      return;
    }
    ghost var m := buf.dataIdx;
    while Deref(chainp).next != null
      invariant buf.Chained() && buf.dataIdx <= m < |buf.chains| && chainp == SlotAt(buf, buf.chains, m)
      invariant forall j | buf.dataIdx < j <= m :: buf.data[j] == []
      invariant Deref(chainp) == buf.chains[m]
      decreases |buf.chains| - m
    {
      assert buf.chains[m].next == At(buf.chains, m + 1);
      chainp := NextOf(Deref(chainp));
      m := m + 1;
      assert buf.chains[m].Holds(buf.data[m]);
      if Deref(chainp).off != 0 {
        MarkData(buf, chainp, m);
      }
    }
    assert buf.chains[m].next == At(buf.chains, m + 1);
  }

  /** The loop that passes over the chains of src that can be moved whole. */
  method PassWhole(src: Evbuffer, len: nat)
    returns (chain: Chain, previous: Chain, left: nat, nread: nat, ghost i: nat)
    requires src.Valid() && len < |src.Bytes()|
    modifies src`lastWithDatap
    ensures i <= src.dataIdx && i < |src.chains| && chain == src.chains[i]
    ensures previous == src.chains[if i == 0 then 0 else i - 1]
    ensures left < |src.data[i]| && nread == |Flat(src.data[..i])| && len == nread + left
    ensures src.lastWithDatap == if i == src.dataIdx then FirstOf(src) else SlotAt(src, src.chains, src.dataIdx)
  {
    ghost var cs, d, k := src.chains, src.data, src.dataIdx;
    LastIsReached(d, k, len);
    chain, previous, left, nread, i := src.first, src.first, len, 0, 0;
    assert d[..0] == [];
    assert cs[0].Holds(d[0]);
    while chain.off <= left
      invariant i <= k && chain == cs[i] && chain.off == |d[i]|
      invariant previous == cs[if i == 0 then 0 else i - 1]
      invariant nread == |Flat(d[..i])| && len == nread + left
      invariant src.lastWithDatap == if i == k then FirstOf(src) else SlotAt(src, cs, k)
      decreases k - i
    {
      assert cs[i].next == At(cs, i + 1);
      assert chain != Deref(src.lastWithDatap) by {
        assert cs[k - 1].next == At(cs, k);
      }
      NextBase(d, i);
      nread := nread + chain.off;
      left := left - chain.off;
      previous := chain;
      src.lastWithDatap := if src.lastWithDatap == NextOf(chain) then FirstOf(src) else src.lastWithDatap;
      chain := chain.next;
      i := i + 1;
      assert cs[i].Holds(d[i]);
    }
  }

  /** Cuts a list into its first i chains and the others. */
  method CutBoth(ghost cs: seq<Chain>, ghost d: seq<seq<Byte>>, previous: Chain, ghost i: nat)
    requires Distinct(cs) && Linked(cs) && Filled(cs, d) && 0 < i < |cs| && previous == cs[i - 1]
    modifies previous`next
    ensures Distinct(cs[..i]) && Linked(cs[..i]) && Filled(cs[..i], d[..i])
    ensures Distinct(cs[i..]) && Linked(cs[i..]) && Filled(cs[i..], d[i..])
  {
    SuffixFilled(cs, d, i);
    SuffixLinked(cs, i);
    assert forall j | 0 <= j < |cs[i..]| :: cs[i..][j] != previous;
    CutAfter(cs, d, i, previous);
  }

  /** Cuts the list of src before chain i, which becomes its first. */
  method SplitList(src: Evbuffer, chain: Chain, previous: Chain, ghost i: nat)
    requires Distinct(src.chains) && Linked(src.chains) && Filled(src.chains, src.data)
    requires LastData(src.data, src.dataIdx) && 0 < i <= src.dataIdx && i < |src.chains|
    requires chain == src.chains[i] && previous == src.chains[i - 1]
    requires src.lastWithDatap == if i == src.dataIdx then FirstOf(src) else SlotAt(src, src.chains, src.dataIdx)
    modifies src`first, src`chains, src`data, src`dataIdx, previous`next
    ensures src.Chained() && LastData(src.data, src.dataIdx)
    ensures src.chains == old(src.chains)[i..] && src.data == old(src.data)[i..]
    ensures src.dataIdx == old(src.dataIdx) - i
    ensures Distinct(old(src.chains)[..i]) && Linked(old(src.chains)[..i])
    ensures Filled(old(src.chains)[..i], old(src.data)[..i])
  {
    ghost var cs, d := src.chains, src.data;
    CutBoth(cs, d, previous, i);
    src.first := chain;
    src.chains, src.data, src.dataIdx := cs[i..], d[i..], src.dataIdx - i;
  }

  /** The chains b put behind those of dst. */
  method AppendStolen(dst: Evbuffer, first: Chain, last: Chain, nread: nat,
                      ghost b: seq<Chain>, ghost e: seq<seq<Byte>>)
    requires dst.Valid() && Apart(dst.chains, b)
    requires Distinct(b) && Linked(b) && Filled(b, e) && b != [] && first == b[0] && last == b[|b| - 1]
    requires nread == |Flat(e)|
    modifies dst`first, dst`last, dst`lastWithDatap, dst`totalLen, dst`chains, dst`data, dst`dataIdx,
             dst.chains`next
    ensures dst.Valid() && dst.Bytes() == old(dst.Bytes()) + Flat(e)
    ensures dst.chains == old(dst.chains)[..Solid(old(dst.data), old(dst.dataIdx))] + b
    ensures dst.data == old(dst.data)[..Solid(old(dst.data), old(dst.dataIdx))] + e
  {
    ghost var n := Solid(dst.data, dst.dataIdx);
    FlatSolid(dst.data, dst.dataIdx);
    FlatConcat(dst.data[..n], e);
    var chp := Join(dst, first, b, e);
    AdvanceLastWithData(dst);
    Seal(dst, last, dst.totalLen + nread);
  }

  /** The same, beside another list that stays as it is. */
  method AppendBeside(dst: Evbuffer, first: Chain, last: Chain, nread: nat,
                      ghost b: seq<Chain>, ghost e: seq<seq<Byte>>, ghost rest: seq<Chain>)
    requires dst.Valid() && Apart(dst.chains, b) && Linked(rest) && Apart(dst.chains, rest)
    requires Distinct(b) && Linked(b) && Filled(b, e) && b != [] && first == b[0] && last == b[|b| - 1]
    requires nread == |Flat(e)|
    modifies dst`first, dst`last, dst`lastWithDatap, dst`totalLen, dst`chains, dst`data, dst`dataIdx,
             dst.chains`next
    ensures Linked(rest)
    ensures dst.Valid() && dst.Bytes() == old(dst.Bytes()) + Flat(e)
    ensures dst.chains == old(dst.chains)[..Solid(old(dst.data), old(dst.dataIdx))] + b
    ensures dst.data == old(dst.data)[..Solid(old(dst.data), old(dst.dataIdx))] + e
  {
    AppendStolen(dst, first, last, nread, b, e);
    forall j | 0 <= j < |rest| ensures rest[j].next == At(rest, j + 1) {
      assert rest[j] in rest && rest[j] !in old(dst.chains);
      assert old(rest[j].next) == At(rest, j + 1);
    }
  }

  /** The whole chains in front of chain i go from src to dst. */
  method Steal(src: Evbuffer, dst: Evbuffer, chain: Chain, previous: Chain, nread: nat, ghost i: nat)
    requires src != dst && dst.Valid() && Apart(dst.chains, src.chains)
    requires Distinct(src.chains) && Linked(src.chains) && Filled(src.chains, src.data) && src.first == At(src.chains, 0)
    requires LastData(src.data, src.dataIdx) && 0 < i <= src.dataIdx && i < |src.chains|
    requires chain == src.chains[i] && previous == src.chains[i - 1] && nread == |Flat(src.data[..i])|
    requires src.lastWithDatap == if i == src.dataIdx then FirstOf(src) else SlotAt(src, src.chains, src.dataIdx)
    modifies src`first, src`chains, src`data, src`dataIdx, src.chains`next,
             dst`first, dst`last, dst`lastWithDatap, dst`totalLen, dst`chains, dst`data, dst`dataIdx,
             dst.chains`next
    ensures dst.Valid() && src.Chained() && LastData(src.data, src.dataIdx)
    ensures src.chains == old(src.chains)[i..] && src.data == old(src.data)[i..]
    ensures src.dataIdx == old(src.dataIdx) - i
    ensures dst.Bytes() == old(dst.Bytes()) + Flat(old(src.data)[..i])
    ensures dst.chains == old(dst.chains)[..Solid(old(dst.data), old(dst.dataIdx))] + old(src.chains)[..i]
    ensures dst.data == old(dst.data)[..Solid(old(dst.data), old(dst.dataIdx))] + old(src.data)[..i]
  {
    ghost var b, e := src.chains[..i], src.data[..i];
    var first := src.first;
    assert previous in src.chains && previous !in dst.chains;
    SplitList(src, chain, previous, i);
    assert Linked(dst.chains);
    AppendBeside(dst, first, previous, nread, b, e, src.chains);
  }

  /** evbuffer_add to one buffer, beside another list that stays as it is. */
  method AddBeside(dst: Evbuffer, x: seq<Byte>, short: bool, ghost rest: seq<Chain>, ghost e: seq<seq<Byte>>)
    returns (result: int)
    requires dst.Valid() && Linked(rest) && Filled(rest, e) && Apart(dst.chains, rest) && !dst.freezeEnd
    modifies dst`first, dst`last, dst`lastWithDatap, dst`totalLen, dst`chains, dst`data, dst`dataIdx, dst.chains
    ensures Linked(rest) && Filled(rest, e) && Apart(dst.chains, rest)
    ensures dst.Valid() && result in {0, -1}
    ensures dst.Bytes() == if result == 0 then old(dst.Bytes()) + x else old(dst.Bytes())
    ensures result == 0 <==> old(CanAdd(dst, |x|, short))
    ensures forall c | c in dst.chains :: c in old(dst.chains) || fresh(c)
  {
    result := Add(dst, x, short);
    forall j | 0 <= j < |rest| ensures rest[j].next == At(rest, j + 1) && rest[j].Holds(e[j]) {
      assert rest[j] in rest && rest[j] !in old(dst.chains);
      assert old(rest[j].next) == At(rest, j + 1) && old(rest[j].Holds(e[j]));
    }
  }

  lemma FirstBytes(d: seq<seq<Byte>>, n: nat)
    requires d != [] && n <= |d[0]|
    ensures n <= |Flat(d)| && Flat(d)[..n] == d[0][..n] && d[..0] == [] && Flat(d[..0]) == []
  {
    FlatAround(d, 0, d[0]);
  }

  /** The first bytes of the first chain are dropped. */
  method DropFirst(src: Evbuffer, chain: Chain, left: nat, nread: nat)
    requires src.Chained() && LastData(src.data, src.dataIdx) && src.last == At(src.chains, |src.chains| - 1)
    requires src.chains != [] && chain == src.chains[0] && left < |src.data[0]|
    requires src.totalLen == nread + |src.Bytes()|
    modifies src`first, src`last, src`lastWithDatap, src`totalLen, src`chains, src`data, src`dataIdx, chain`misalign,
             chain`off
    ensures left <= |old(src.Bytes())|
    ensures src.Valid() && src.Bytes() == old(src.Bytes())[left..] && src.chains == old(src.chains)
  {
    FirstBytes(src.data, left);
    LeftFlat(src.data, src.dataIdx, 0, left);
    CutChained(src, chain, left, 0);
    Seal(src, src.last, src.totalLen - (nread + left));
  }

  method FirstPart(chain: Chain, n: nat, ghost d: seq<Byte>) returns (x: seq<Byte>)
    requires chain.Holds(d) && n <= |d|
    ensures x == d[..n]
  {
    SliceSlice(chain.mem, chain.misalign, chain.misalign + chain.off, 0, n);
    x := chain.mem[chain.misalign..chain.misalign + n];
  }

  /** evbuffer_add of the first bytes of the first chain of a list. */
  method CopyPart(dst: Evbuffer, chain: Chain, left: nat, short: bool, ghost cs: seq<Chain>, ghost d: seq<seq<Byte>>)
    returns (result: int)
    requires dst.Valid() && Linked(cs) && Filled(cs, d) && Apart(dst.chains, cs) && !dst.freezeEnd
    requires cs != [] && chain == cs[0] && left <= |d[0]|
    modifies dst`first, dst`last, dst`lastWithDatap, dst`totalLen, dst`chains, dst`data, dst`dataIdx, dst.chains
    ensures Linked(cs) && Filled(cs, d) && Apart(dst.chains, cs)
    ensures dst.Valid() && result in {0, -1}
    ensures dst.Bytes() == old(dst.Bytes()) + if result == 0 then d[0][..left] else []
    ensures result == 0 <==> old(CanAdd(dst, left, short))
    ensures forall c | c in dst.chains :: c in old(dst.chains) || fresh(c)
  {
    assert chain.Holds(d[0]);
    ghost var t := dst.Bytes();
    var x := FirstPart(chain, left, d[0]);
    assert |x| == left && t + [] == t;
    result := AddBeside(dst, x, short, cs, d);
  }

  /** The end of evbuffer_remove_buffer: the first bytes of the first chain are copied, and dropped from src
      whether the copy was made or not. */
  method MoveRest(src: Evbuffer, dst: Evbuffer, chain: Chain, left: nat, nread: nat, short: bool, ghost loss: nat)
    requires src != dst && dst.Valid() && !dst.freezeEnd && Apart(dst.chains, src.chains)
    requires src.Chained() && LastData(src.data, src.dataIdx) && src.last == At(src.chains, |src.chains| - 1)
    requires src.chains != [] && chain == src.chains[0] && left < |src.data[0]|
    requires src.totalLen == nread + |src.Bytes()|
    requires loss == if CanAdd(dst, left, short) then 0 else left
    modifies src`first, src`last, src`lastWithDatap, src`totalLen, src`chains, src`data, src`dataIdx, chain`misalign,
             chain`off, dst`first, dst`last, dst`lastWithDatap, dst`totalLen, dst`chains, dst`data, dst`dataIdx,
             dst.chains
    ensures Both(dst, src) && src.chains == old(src.chains)
    ensures left <= |old(src.Bytes())| && src.Bytes() == old(src.Bytes())[left..]
    ensures dst.Bytes() == old(dst.Bytes()) + old(src.Bytes())[..left - loss]
    ensures forall c | c in dst.chains :: c in old(dst.chains) || fresh(c)
  {
    FirstBytes(src.data, left);
    var result := CopyPart(dst, chain, left, short, src.chains, src.data);
    assert src.Bytes()[..left - loss] == if result == 0 then src.data[0][..left] else [];
    DropFirst(src, chain, left, nread);
    assert chain in src.chains && chain !in dst.chains;
  }

  lemma SplitApart(cs: seq<Chain>, i: nat, a: seq<Chain>, n: nat)
    requires Distinct(cs) && i <= |cs| && n <= |a| && Apart(a, cs)
    ensures Apart(a[..n] + cs[..i], cs[i..])
  {
    forall c | c in a[..n] + cs[..i] ensures c !in cs[i..] {
      if c in cs[..i] {
        forall j | i <= j < |cs| ensures cs[j] != c {
        }
      } else {
        assert c in a;
      }
    }
  }

  /** The chains of src that are moved whole, if there are any. */
  method MoveWhole(src: Evbuffer, dst: Evbuffer, chain: Chain, previous: Chain, nread: nat, ghost i: nat)
    requires src != dst && dst.Valid() && Apart(dst.chains, src.chains)
    requires Distinct(src.chains) && Linked(src.chains) && Filled(src.chains, src.data) && src.first == At(src.chains, 0)
    requires LastData(src.data, src.dataIdx) && i <= src.dataIdx && i < |src.chains|
    requires chain == src.chains[i] && nread == |Flat(src.data[..i])|
    requires previous == src.chains[if i == 0 then 0 else i - 1]
    requires src.lastWithDatap == if i == src.dataIdx then FirstOf(src) else SlotAt(src, src.chains, src.dataIdx)
    requires src.dataIdx == 0 || src.data[src.dataIdx] != []
    modifies src`first, src`chains, src`data, src`dataIdx, src.chains`next,
             dst`first, dst`last, dst`lastWithDatap, dst`totalLen, dst`chains, dst`data, dst`dataIdx,
             dst.chains`next
    ensures dst.Valid() && src.Chained() && LastData(src.data, src.dataIdx) && Apart(dst.chains, src.chains)
    ensures src.chains == old(src.chains)[i..] && src.data == old(src.data)[i..]
    ensures dst.Bytes() == old(dst.Bytes()) + Flat(old(src.data)[..i])
    ensures dst.chains == old(Joined(dst.chains, Solid(dst.data, dst.dataIdx), src.chains, i))
    ensures dst.data == old(Joined(dst.data, Solid(dst.data, dst.dataIdx), src.data, i))
  {
    SplitApart(src.chains, i, dst.chains, Solid(dst.data, dst.dataIdx));
    if chain != src.first {
      Steal(src, dst, chain, previous, nread, i);
    } else {
      assert src.chains[i..] == src.chains && src.data[i..] == src.data && src.data[..i] == [];
      assert dst.Bytes() + [] == dst.Bytes();
    }
  }

  lemma DropTake(s: seq<Byte>, n: nat, m: nat)
    requires n + m <= |s|
    ensures s[n..][m..] == s[n + m..] && s[..n] + s[n..][..m] == s[..n + m]
  {
  }

  // ----- when the copy of the last part fails -----

  /** How many leading segments fit whole in n bytes. */
  ghost function WholeCount(d: seq<seq<Byte>>, n: nat): (i: nat)
    ensures i <= |d| && |Flat(d[..i])| <= n
    decreases |d|
  {
    if d == [] || |d[0]| > n then 0
    else
      var i := WholeCount(d[1..], n - |d[0]|);
      assert d[..i + 1][1..] == d[1..][..i];
      i + 1
  }

  lemma {:induction false} WholeCountIs(d: seq<seq<Byte>>, n: nat, i: nat)
    requires i < |d| && |Flat(d[..i])| <= n < |Flat(d[..i])| + |d[i]|
    ensures WholeCount(d, n) == i
    decreases i
  {
    if i > 0 {
      assert d[..i][1..] == d[1..][..i - 1] && d[1..][i - 1] == d[i];
      WholeCountIs(d[1..], n - |d[0]|, i - 1);
    } else {
      assert d[..i] == [];
    }
  }

  /** The first i of b behind the first n of a; all of a if nothing comes. */
  function Joined<T>(a: seq<T>, n: nat, b: seq<T>, i: nat): seq<T>
    requires n <= |a| && i <= |b|
  {
    if i == 0 then a else a[..n] + b[..i]
  }

  /** The index that last_with_datap stands for. */
  ghost function LastIndex(d: seq<seq<Byte>>): nat {
    if d == [] then 0
    else if d[|d| - 1] != [] then |d| - 1
    else LastIndex(d[..|d| - 1])
  }

  lemma {:induction false} LastIndexIs(d: seq<seq<Byte>>, k: nat)
    requires LastData(d, k)
    ensures LastIndex(d) == k
    decreases |d|
  {
    if d != [] && d[|d| - 1] == [] {
      LastIndexIs(d[..|d| - 1], k);
    }
  }

  lemma {:induction false} LastIndexIsLast(d: seq<seq<Byte>>)
    ensures LastData(d, LastIndex(d))
    decreases |d|
  {
    if d != [] && d[|d| - 1] == [] {
      LastIndexIsLast(d[..|d| - 1]);
    }
  }

  /** The chain that the last part is added to: the last one with data of those moved whole; if none of
      them has data, the one that dst would write to anyway; or none. */
  ghost function Target(src: Evbuffer, dst: Evbuffer, i: nat): Chain?
    requires src.Valid() && dst.Valid() && i <= |src.chains|
    reads src, dst, src.chains, dst.chains
  {
    var n := Solid(dst.data, dst.dataIdx);
    At(Joined(dst.chains, n, src.chains, i), LastIndex(Joined(dst.data, n, src.data, i)))
  }

  /** The bytes of the prefix that are lost: those behind its whole chains, if there are any and the chain
      they should go to does not take them. */
  ghost function Loss(src: Evbuffer, dst: Evbuffer, datlen: nat, short: bool): (n: nat)
    requires src.Valid() && dst.Valid()
    reads src, dst, src.chains, dst.chains
    ensures n <= datlen
  {
    var i := WholeCount(src.data, datlen);
    var left := datlen - |Flat(src.data[..i])|;
    if dst.totalLen + datlen <= SIZE_MAX && Takes(RoomIn(Target(src, dst, i)), left, short) then 0 else left
  }

  /** Bytes are lost exactly when some of them are left behind the whole chains and the chain they should go
      to, chain m of the joined list, does not take them; then all of them are. */
  lemma BytesAreLostIff(src: Evbuffer, dst: Evbuffer, datlen: nat, short: bool, i: nat, left: nat, m: nat)
    requires src.Valid() && dst.Valid() && i < |src.data|
    requires datlen == |Flat(src.data[..i])| + left && left < |src.data[i]|
    requires LastData(Joined(dst.data, Solid(dst.data, dst.dataIdx), src.data, i), m)
    ensures Loss(src, dst, datlen, short) in {0, left}
    ensures var target := At(Joined(dst.chains, Solid(dst.data, dst.dataIdx), src.chains, i), m);
            (Loss(src, dst, datlen, short) > 0) ==
            (left > 0 && !(dst.totalLen + datlen <= SIZE_MAX && Takes(RoomIn(target), left, short)))
  {
    WholeCountIs(src.data, datlen, i);
    LastIndexIs(Joined(dst.data, Solid(dst.data, dst.dataIdx), src.data, i), m);
  }

  /** Nothing is lost while memory lasts. */
  lemma NoLoss(src: Evbuffer, dst: Evbuffer, datlen: nat)
    requires src.Valid() && dst.Valid() && dst.totalLen + datlen <= SIZE_MAX && datlen < src.totalLen
    requires Ordinary(src.chains) && Ordinary(dst.chains)
    ensures Loss(src, dst, datlen, false) == 0
  {
    var i := WholeCount(src.data, datlen);
    var left := datlen - |Flat(src.data[..i])|;
    LeftFits(src, datlen);
    var n := Solid(dst.data, dst.dataIdx);
    var cs := Joined(dst.chains, n, src.chains, i);
    forall c | c in cs ensures |c.mem| <= CHAIN_MAX - CHAIN_SIZE {
      assert c in dst.chains || c in src.chains;
    }
  }

  /** What is left behind the whole chains is less than the next chain. */
  lemma LeftFits(src: Evbuffer, datlen: nat)
    requires src.Valid() && datlen < src.totalLen && Ordinary(src.chains)
    ensures datlen - |Flat(src.data[..WholeCount(src.data, datlen)])| <= CHAIN_MAX - CHAIN_SIZE
  {
    var i := WholeCount(src.data, datlen);
    WholeCountStops(src.data, datlen);
    assert src.chains[i].Holds(src.data[i]);
    assert src.chains[i] in src.chains;
  }

  lemma {:induction false} WholeCountStops(d: seq<seq<Byte>>, n: nat)
    requires n < |Flat(d)|
    ensures var i := WholeCount(d, n); i < |d| && n < |Flat(d[..i])| + |d[i]|
    decreases |d|
  {
    var i := WholeCount(d, n);
    if |d[0]| <= n {
      WholeCountStops(d[1..], n - |d[0]|);
      assert d[..i][1..] == d[1..][..i - 1];
    } else {
      assert d[..0] == [];
    }
  }

  // ----- evbuffer_remove_buffer -----

  /** Between the two halves: the whole chains of the prefix are moved, and the rest is to be copied. */
  ghost predicate Halfway(src: Evbuffer, dst: Evbuffer, chain: Chain, left: nat, nread: nat,
                          s: seq<Byte>, t: seq<Byte>, datlen: nat)
    reads src, dst, src.chains, dst.chains
  {
    && src != dst && dst.Valid() && Apart(dst.chains, src.chains)
    && src.Chained() && LastData(src.data, src.dataIdx) && src.last == At(src.chains, |src.chains| - 1)
    && src.chains != [] && chain == src.chains[0] && left < |src.data[0]|
    && src.totalLen == nread + |src.Bytes()|
    && datlen == nread + left <= |s| && src.Bytes() == s[nread..] && dst.Bytes() == t + s[..nread]
  }

  /** The same, with what is lost if the rest is copied now. */
  ghost predicate Midway(src: Evbuffer, dst: Evbuffer, chain: Chain, left: nat, nread: nat, short: bool, loss: nat,
                         s: seq<Byte>, t: seq<Byte>, datlen: nat)
    reads src, dst, src.chains, dst.chains
  {
    && Halfway(src, dst, chain, left, nread, s, t, datlen)
    && !dst.freezeEnd && loss == if CanAdd(dst, left, short) then 0 else left
  }

  /** The first half of evbuffer_remove_buffer for a proper prefix: as many whole chains as fit go over. */
  method TakeWhole(src: Evbuffer, dst: Evbuffer, datlen: nat)
    returns (chain: Chain, left: nat, nread: nat, ghost i: nat)
    requires src != dst && Both(dst, src) && datlen < src.totalLen
    modifies src`first, src`lastWithDatap, src`chains, src`data, src`dataIdx, src.chains`next,
             dst`first, dst`last, dst`lastWithDatap, dst`totalLen, dst`chains, dst`data, dst`dataIdx,
             dst.chains`next
    ensures Halfway(src, dst, chain, left, nread, old(src.Bytes()), old(dst.Bytes()), datlen)
    ensures i < |old(src.chains)| && src.chains == old(src.chains)[i..] && src.data == old(src.data)[i..]
    ensures dst.totalLen == old(dst.totalLen) + nread
    ensures nread == |Flat(old(src.data)[..i])|
    ensures dst.chains == old(Joined(dst.chains, Solid(dst.data, dst.dataIdx), src.chains, i))
    ensures dst.data == old(Joined(dst.data, Solid(dst.data, dst.dataIdx), src.data, i))
  {
    ghost var s, d, cs := src.Bytes(), src.data, src.chains;
    assert src.totalLen == |s| && |cs| == |d|;
    var previous;
    chain, previous, left, nread, i := PassWhole(src, datlen);
    CutAtChain(d, i, nread, left, s);
    ghost var t := dst.Bytes();
    MoveWhole(src, dst, chain, previous, nread, i);
    assert src.chains == cs[i..] && cs[i..] != [] && chain == cs[i..][0];
    IsHalfway(src, dst, chain, left, nread, s, t, datlen, d, i);
  }

  lemma IsHalfway(src: Evbuffer, dst: Evbuffer, chain: Chain, left: nat, nread: nat, s: seq<Byte>, t: seq<Byte>,
                  datlen: nat, d: seq<seq<Byte>>, i: nat)
    requires src != dst && dst.Valid() && Apart(dst.chains, src.chains)
    requires src.Chained() && LastData(src.data, src.dataIdx) && src.last == At(src.chains, |src.chains| - 1)
    requires i < |d| && src.data == d[i..] && src.chains != [] && chain == src.chains[0] && left < |d[i]|
    requires src.totalLen == |s| == nread + |Flat(d[i..])| && datlen == nread + left <= |s|
    requires s[..nread] == Flat(d[..i]) && s[nread..] == Flat(d[i..]) && dst.Bytes() == t + Flat(d[..i])
    ensures Halfway(src, dst, chain, left, nread, s, t, datlen)
  {
  }

  lemma CutAtChain(d: seq<seq<Byte>>, i: nat, nread: nat, left: nat, s: seq<Byte>)
    requires i < |d| && nread == |Flat(d[..i])| && left < |d[i]| && s == Flat(d)
    ensures nread + left <= |s| == nread + |Flat(d[i..])| && d[i..] != [] && d[i..][0] == d[i]
    ensures s[..nread] == Flat(d[..i]) && s[nread..] == Flat(d[i..])
  {
    FlatSplit(d, i);
    FlatNext(d, i);
  }

  /** The part of evbuffer_remove_buffer for a proper prefix. */
  method RemovePart(src: Evbuffer, dst: Evbuffer, datlen: nat, short: bool, ghost x: Ending) returns (n: nat)
    requires src != dst && Both(dst, src) && !dst.freezeEnd && datlen < src.totalLen
    requires Foreseen(src, dst, datlen, short, x)
    modifies src`first, src`last, src`lastWithDatap, src`totalLen, src`chains, src`data, src`dataIdx, dst`first,
             dst`last, dst`lastWithDatap, dst`totalLen, dst`chains, dst`data, dst`dataIdx, src.chains, dst.chains
    ensures Both(dst, src) && n == datlen && x.loss <= datlen
    ensures src.Bytes() == old(src.Bytes())[datlen..]
    ensures dst.Bytes() == old(dst.Bytes()) + old(src.Bytes())[..datlen - x.loss]
    ensures forall c | c in dst.chains :: c in old(dst.chains) || c in old(src.chains) || fresh(c)
    ensures forall c | c in src.chains :: c in old(src.chains)
  {
    ghost var s, t := src.Bytes(), dst.Bytes();
    var chain, left, nread := TakePart(src, dst, datlen, short, x);
    FinishMove(src, dst, chain, left, nread, short, x.loss, s, t, datlen);
    n := nread + left;
  }

  /** The first half, knowing what the second one will lose. */
  method TakePart(src: Evbuffer, dst: Evbuffer, datlen: nat, short: bool, ghost x: Ending)
    returns (chain: Chain, left: nat, nread: nat)
    requires src != dst && Both(dst, src) && !dst.freezeEnd && datlen < src.totalLen
    requires Foreseen(src, dst, datlen, short, x)
    modifies src`first, src`lastWithDatap, src`chains, src`data, src`dataIdx, src.chains`next,
             dst`first, dst`last, dst`lastWithDatap, dst`totalLen, dst`chains, dst`data, dst`dataIdx,
             dst.chains`next
    ensures Midway(src, dst, chain, left, nread, short, x.loss, old(src.Bytes()), old(dst.Bytes()), datlen)
    ensures chain in old(src.chains)
    ensures forall j | 0 <= j < |dst.chains| :: dst.chains[j] in old(dst.chains) || dst.chains[j] in old(src.chains)
    ensures forall j | 0 <= j < |src.chains| :: src.chains[j] in old(src.chains)
  {
    ghost var s, t, i := src.Bytes(), dst.Bytes(), 0;
    chain, left, nread, i := TakeWhole(src, dst, datlen);
    assert x.room == RoomIn(x.target);
    KnowsLoss(src, dst, chain, left, nread, short, s, t, datlen, i, x);
    JoinedFrom(x.was.ds, x.was.k, x.was.cs, i, dst.chains);
  }

  /** MoveRest, in terms of the bytes there were at the beginning. */
  method FinishMove(src: Evbuffer, dst: Evbuffer, chain: Chain, left: nat, nread: nat, short: bool, ghost loss: nat,
                    ghost s: seq<Byte>, ghost t: seq<Byte>, ghost datlen: nat)
    requires Midway(src, dst, chain, left, nread, short, loss, s, t, datlen)
    modifies src`first, src`last, src`lastWithDatap, src`totalLen, src`chains, src`data, src`dataIdx, chain`misalign,
             chain`off, dst`first, dst`last, dst`lastWithDatap, dst`totalLen, dst`chains, dst`data, dst`dataIdx,
             dst.chains
    ensures Both(dst, src) && src.chains == old(src.chains) && loss <= datlen
    ensures src.Bytes() == s[datlen..] && dst.Bytes() == t + s[..datlen - loss]
    ensures forall c | c in dst.chains :: c in old(dst.chains) || fresh(c)
  {
    Moved(s, t, nread, left, left - loss);
    assert nread + (left - loss) == datlen - loss;
    MoveRest(src, dst, chain, left, nread, short, loss);
  }

  /** The lists of both buffers before anything is moved: those of src, those of dst, how many of dst are
      not empty at its end, and its length. */
  datatype Before = Before(cs: seq<Chain>, d: seq<seq<Byte>>, ds: seq<Chain>, e: seq<seq<Byte>>, k: nat, total: nat)

  ghost predicate Matched(was: Before) {
    |was.cs| == |was.d| && |was.ds| == |was.e| && was.k <= |was.e|
  }

  ghost function Lists(src: Evbuffer, dst: Evbuffer): (was: Before)
    requires src.Valid() && dst.Valid()
    reads src, dst, src.chains, dst.chains
    ensures Matched(was)
  {
    Before(src.chains, src.data, dst.chains, dst.data, Solid(dst.data, dst.dataIdx), dst.totalLen)
  }

  /** The prefix ends in chain i of src, target is the chain that its last part is added to, chain m of the
      joined list, if there is one, with this room, and loss is what is lost. */
  datatype Ending = Ending(was: Before, i: nat, m: nat, target: Chain?, room: Room, loss: nat)

  ghost predicate EndsIn(x: Ending, datlen: nat, short: bool) {
    var was := x.was;
    && Matched(was)
    && x.i < |was.d| && |Flat(was.d[..x.i])| <= datlen < |Flat(was.d[..x.i])| + |was.d[x.i]|
    && LastData(Joined(was.e, was.k, was.d, x.i), x.m)
    && x.target == At(Joined(was.ds, was.k, was.cs, x.i), x.m)
    && var left := datlen - |Flat(was.d[..x.i])|;
       x.loss == if was.total + datlen <= SIZE_MAX && Takes(x.room, left, short) then 0 else left
  }

  ghost predicate Foreseen(src: Evbuffer, dst: Evbuffer, datlen: nat, short: bool, x: Ending)
    requires src.Valid() && dst.Valid()
    reads src, dst, src.chains, dst.chains, if x.target == null then {} else {x.target}
  {
    x.was == Lists(src, dst) && EndsIn(x, datlen, short) && x.room == RoomIn(x.target)
  }

  lemma KnowsLoss(src: Evbuffer, dst: Evbuffer, chain: Chain, left: nat, nread: nat, short: bool,
                  s: seq<Byte>, t: seq<Byte>, datlen: nat, i: nat, x: Ending)
    requires Halfway(src, dst, chain, left, nread, s, t, datlen) && !dst.freezeEnd
    requires EndsIn(x, datlen, short) && i < |x.was.d| && dst.totalLen == x.was.total + nread
    requires dst.chains == Joined(x.was.ds, x.was.k, x.was.cs, i)
    requires dst.data == Joined(x.was.e, x.was.k, x.was.d, i)
    requires nread == |Flat(x.was.d[..i])| && src.data == x.was.d[i..] && x.room == RoomIn(x.target)
    ensures Midway(src, dst, chain, left, nread, short, x.loss, s, t, datlen)
  {
    assert src.data[0] == x.was.d[i];
    SameTarget(x.was.d, datlen, i, x.i, x.was.e, x.was.k, x.m, dst.dataIdx);
  }

  lemma SameTarget(d: seq<seq<Byte>>, n: nat, i: nat, j: nat, e: seq<seq<Byte>>, k: nat, m: nat, l: nat)
    requires i < |d| && |Flat(d[..i])| <= n < |Flat(d[..i])| + |d[i]|
    requires j < |d| && |Flat(d[..j])| <= n < |Flat(d[..j])| + |d[j]|
    requires k <= |e| && LastData(Joined(e, k, d, j), m) && LastData(Joined(e, k, d, i), l)
    ensures i == j && m == l
  {
    WholeCountIs(d, n, i);
    WholeCountIs(d, n, j);
    LastIndexIs(Joined(e, k, d, i), l);
    LastIndexIs(Joined(e, k, d, j), m);
  }

  lemma LossParts(src: Evbuffer, dst: Evbuffer, datlen: nat, short: bool) returns (x: Ending)
    requires src.Valid() && dst.Valid() && datlen < src.totalLen
    ensures Foreseen(src, dst, datlen, short, x)
    ensures x.loss == Loss(src, dst, datlen, short)
  {
    var i := WholeCount(src.data, datlen);
    var joined := Joined(dst.data, Solid(dst.data, dst.dataIdx), src.data, i);
    WholeCountStops(src.data, datlen);
    LastIndexIsLast(joined);
    var target := Target(src, dst, i);
    x := Ending(Lists(src, dst), i, LastIndex(joined), target, RoomIn(target), Loss(src, dst, datlen, short));
  }

  lemma Moved(s: seq<Byte>, t: seq<Byte>, n: nat, m: nat, l: nat)
    requires n + m <= |s| && l <= m
    ensures s[n..][m..] == s[n + m..] && (t + s[..n]) + s[n..][..l] == t + s[..n + l]
  {
    DropTake(s, n, m);
    DropTake(s, n, l);
    ConcatAssoc(t, s[..n], s[n..][..l]);
  }

  lemma JoinedFrom<T>(a: seq<T>, n: nat, b: seq<T>, i: nat, r: seq<T>)
    requires n <= |a| && i <= |b| && r == Joined(a, n, b, i)
    ensures forall j | 0 <= j < |r| :: r[j] in a || r[j] in b
    ensures forall j | 0 <= j < |b[i..]| :: b[i..][j] in b
    ensures i < |b| ==> b[i..][0] in b
  {
  }

  /** What evbuffer_remove_buffer of n bytes makes of the bytes s of the source and t of the destination. */
  ghost predicate Removed(n: nat, same: bool, frozen: bool, s: seq<Byte>, t: seq<Byte>, lost: nat,
                          s': seq<Byte>, t': seq<Byte>, result: int) {
    if n == 0 || same || frozen
    then result == (if n == 0 || same then 0 else -1) && s' == s && t' == t
    else
      var m := Min(n, |s|);
      lost <= m && result == ToInt(m) && s' == s[m..] && t' == t + s[..m - lost]
  }

  /** The call when it does something. */
  method RemoveSome(src: Evbuffer, dst: Evbuffer, datlen: nat, short: bool, ghost lost: nat) returns (result: int)
    requires src != dst && Both(dst, src) && !dst.freezeEnd && !src.freezeStart && datlen > 0
    requires lost == if datlen < src.totalLen then Loss(src, dst, datlen, short) else 0
    modifies src`first, src`last, src`lastWithDatap, src`totalLen, src`chains, src`data, src`dataIdx, dst`first,
             dst`last, dst`lastWithDatap, dst`totalLen, dst`chains, dst`data, dst`dataIdx, src.chains, dst.chains
    ensures Both(dst, src)
    ensures Removed(datlen, false, false, old(src.Bytes()), old(dst.Bytes()), lost, src.Bytes(), dst.Bytes(), result)
    ensures forall c | c in dst.chains :: c in old(dst.chains) || c in old(src.chains) || fresh(c)
    ensures forall c | c in src.chains :: c in old(src.chains)
  {
    ghost var s, t := src.Bytes(), dst.Bytes();
    var n;
    if datlen >= src.totalLen {
      n := RemoveAll(src, dst);
    } else {
      ghost var x := LossParts(src, dst, datlen, short);
      n := RemovePart(src, dst, datlen, short, x);
    }
    result := ToInt(n);
    IsRemoved(datlen, s, t, lost, src.Bytes(), dst.Bytes(), n);
  }

  /** evbuffer_remove_buffer: the first bytes of src go to the end of dst. They always leave src. The last
      ones of them, if they had to be copied, are lost when the copy fails; the count says nothing of it. */
  method RemoveBuffer(src: Evbuffer, dst: Evbuffer, datlen: nat, short: bool) returns (result: int)
    requires Both(dst, src)
    modifies src`first, src`last, src`lastWithDatap, src`totalLen, src`chains, src`data, src`dataIdx, dst`first,
             dst`last, dst`lastWithDatap, dst`totalLen, dst`chains, dst`data, dst`dataIdx, src.chains, dst.chains
    ensures Both(dst, src)
    ensures Removed(datlen, dst == src, dst.freezeEnd || src.freezeStart, old(src.Bytes()), old(dst.Bytes()),
                    if datlen < old(src.totalLen) then old(Loss(src, dst, datlen, short)) else 0,
                    src.Bytes(), dst.Bytes(), result)
    ensures forall c | c in dst.chains :: c in old(dst.chains) || c in old(src.chains) || fresh(c)
    ensures forall c | c in src.chains :: c in old(src.chains)
  {
    if datlen == 0 || dst == src {
      return 0;
    }
    if dst.freezeEnd || src.freezeStart {
      return -1;
    }
    ghost var lost := if datlen < src.totalLen then Loss(src, dst, datlen, short) else 0;
    result := RemoveSome(src, dst, datlen, short, lost);
  }

  lemma IsRemoved(datlen: nat, s: seq<Byte>, t: seq<Byte>, lost: nat, s': seq<Byte>, t': seq<Byte>, n: nat)
    requires datlen > 0 && n == Min(datlen, |s|) && lost <= n
    requires s' == s[n..] && t' == t + s[..n - lost]
    ensures Removed(datlen, false, false, s, t, lost, s', t', ToInt(n))
  {
  }

  /** The case in which everything goes. */
  method RemoveAll(src: Evbuffer, dst: Evbuffer) returns (n: nat)
    requires src != dst && Both(dst, src) && !dst.freezeEnd && !src.freezeStart
    modifies src`first, src`last, src`lastWithDatap, src`totalLen, src`chains, src`data, src`dataIdx, dst`first,
             dst`last, dst`lastWithDatap, dst`totalLen, dst`chains, dst`data, dst`dataIdx, dst.chains
    ensures Both(dst, src) && n == |old(src.Bytes())|
    ensures src.Bytes() == old(src.Bytes())[n..] && dst.Bytes() == old(dst.Bytes()) + old(src.Bytes())[..n]
    ensures forall c | c in dst.chains :: c in old(dst.chains) || c in old(src.chains)
    ensures forall c | c in src.chains :: c in old(src.chains)
  {
    ghost var s, t := src.Bytes(), dst.Bytes();
    n := src.totalLen;
    Whole(s, n);
    assert t + [] == t;
    var r := AddBuffer(dst, src);
  }

  lemma Whole(s: seq<Byte>, n: int)
    requires n == |s|
    ensures s[n..] == [] && s[..n] == s && s[..n - 0] == s && (n == 0 ==> s == [])
  {
  }

  /** Bytes are lost: of [1, 2] in one chain, one byte goes to an empty buffer while memory is short. Whatever
      the call makes of the buffers, the byte has left the source, is not in the destination, and was counted. */
  lemma LosesAByte(src: Evbuffer, dst: Evbuffer)
    requires src.Valid() && dst.Valid() && src.data == [[1, 2]] && dst.chains == []
    ensures src.Bytes() == [1, 2] && dst.Bytes() == [] && src.totalLen == 2 && Loss(src, dst, 1, true) == 1
    ensures forall s': seq<Byte>, t': seq<Byte>, result ::
              Removed(1, false, false, src.Bytes(), dst.Bytes(), Loss(src, dst, 1, true), s', t', result)
              <==> s' == [2] && t' == [] && result == 1
  {
    LossOfOne(src, dst);
    FlatOne([1, 2]);
    RemovedOne(src.Bytes(), dst.Bytes(), 1);
  }

  lemma RemovedOne(s: seq<Byte>, t: seq<Byte>, lost: nat)
    requires s == [1, 2] && t == [] && lost == 1
    ensures forall s': seq<Byte>, t': seq<Byte>, result ::
              Removed(1, false, false, s, t, lost, s', t', result) <==> s' == [2] && t' == [] && result == 1
  {
  }

  /** There are such buffers, and the call does that to them. */
  method LoseAByte() returns (src: Evbuffer, dst: Evbuffer, result: int)
    ensures src.Valid() && dst.Valid() && src.Bytes() == [2] && dst.Bytes() == [] && result == 1
  {
    src := OneChain([1, 2]);
    dst := new Evbuffer();
    result := LoseOne(src, dst);
  }

  method LoseOne(src: Evbuffer, dst: Evbuffer) returns (result: int)
    requires src != dst && Both(dst, src) && !dst.freezeEnd && !src.freezeStart
    requires src.data == [[1, 2]] && dst.chains == []
    modifies src`first, src`last, src`lastWithDatap, src`totalLen, src`chains, src`data, src`dataIdx, dst`first,
             dst`last, dst`lastWithDatap, dst`totalLen, dst`chains, dst`data, dst`dataIdx, src.chains, dst.chains
    ensures Both(dst, src) && src.Bytes() == [2] && dst.Bytes() == [] && result == 1
  {
    LosesAByte(src, dst);
    ghost var s, t, lost := src.Bytes(), dst.Bytes(), Loss(src, dst, 1, true);
    result := RemoveBuffer(src, dst, 1, true);
    assert Removed(1, false, false, s, t, lost, src.Bytes(), dst.Bytes(), result);
  }

  method OneChain(bytes: seq<Byte>) returns (src: Evbuffer)
    ensures fresh(src) && fresh(src.chains) && src.Valid() && src.data == [bytes] && src.Bytes() == bytes
    ensures !src.freezeStart && !src.freezeEnd
  {
    src := new Evbuffer();
    var chain := new Chain(bytes, |bytes|, false);
    ChainInsert(src, chain, bytes);
    EmptyConcat([], bytes);
  }

  lemma LossOfOne(src: Evbuffer, dst: Evbuffer)
    requires src.Valid() && dst.Valid() && src.data == [[1, 2]] && dst.chains == []
    ensures Loss(src, dst, 1, true) == 1
  {
    assert WholeCount(src.data, 1) == 0 && src.data[..0] == [];
  }
}
