/** Reading and removing bytes from the front of a buffer. */
module EvbufferDrain {
  import opened Wrappers
  import opened SeqFacts
  import opened Segments
  import opened EvbufferCore
  import opened EvbufferPtr

  // ----- draining -----

  lemma SuffixLinked(cs: seq<Chain>, i: nat)
    requires i <= |cs| && Distinct(cs) && Linked(cs)
    ensures Distinct(cs[i..]) && Linked(cs[i..])
  {
    forall j | 0 <= j < |cs[i..]| ensures cs[i..][j].next == At(cs[i..], j + 1) {
      assert cs[i + j].next == At(cs, i + j + 1);
    }
  }

  lemma SuffixFilled(cs: seq<Chain>, d: seq<seq<Byte>>, i: nat)
    requires i <= |cs| && Filled(cs, d)
    ensures Filled(cs[i..], d[i..])
  {
    forall j | 0 <= j < |cs[i..]| ensures cs[i..][j].Holds(d[i..][j]) {
      assert cs[i + j].Holds(d[i + j]);
    }
  }

  /** What is left of the segments when i of them and n bytes of the next are gone. */
  ghost function Left(d: seq<seq<Byte>>, i: nat, n: nat): seq<seq<Byte>>
    requires i < |d| && n <= |d[i]|
  {
    d[i..][0 := d[i][n..]]
  }

  lemma LeftBytes(d: seq<seq<Byte>>, i: nat, n: nat)
    requires i < |d| && n <= |d[i]|
    ensures |Flat(d[..i])| + n <= |Flat(d)| && Flat(Left(d, i, n)) == Flat(d)[|Flat(d[..i])| + n..]
    ensures Flat(d[..i]) + d[i][..n] == Flat(d)[..|Flat(d[..i])| + n]
    ensures n < |d[i]| ==> |Flat(d[..i])| + n < |Flat(d)|
  {
    var l, r := Flat(d[..i]), Flat(d[i + 1..]);
    FlatAround(d, i, d[i]);
    FlatAround(d[i..], 0, d[i][n..]);
    assert d[i..][..0] == [] && d[i..][1..] == d[i + 1..];
    assert [] + d[i][n..] + r == d[i][n..] + r;
    assert (l + d[i] + r)[|l| + n..] == d[i][n..] + r;
    assert (l + d[i] + r)[..|l| + n] == l + d[i][..n];
  }

  lemma LeftFlat(d: seq<seq<Byte>>, k: nat, i: nat, n: nat)
    requires LastData(d, k) && i <= k && i < |d| && n <= |d[i]| && (n < |d[i]| || i == k == 0)
    ensures LastData(Left(d, i, n), k - i)
    ensures |Flat(d[..i])| + n <= |Flat(d)| && Flat(Left(d, i, n)) == Flat(d)[|Flat(d[..i])| + n..]
    ensures n < |d[i]| ==> |Flat(d[..i])| + n < |Flat(d)|
  {
    LeftBytes(d, i, n);
  }

  /** Bytes taken off the front of the first chain of a list. */
  method TrimFirst(c: Chain, n: nat, ghost cs: seq<Chain>, ghost d: seq<seq<Byte>>)
    requires Distinct(cs) && Filled(cs, d) && cs != [] && c == cs[0] && n <= |d[0]|
    modifies c`misalign, c`off
    ensures Filled(cs, d[0 := d[0][n..]])
  {
    assert c.Holds(d[0]);
    SliceSlice(c.mem, c.misalign, c.misalign + c.off, n, c.off);
    c.misalign := c.misalign + n;
    c.off := c.off - n;
    assert c.mem[c.misalign..c.misalign + c.off] == d[0][n..];
    forall j | 1 <= j < |cs| ensures cs[j].Holds(d[j]) {
      assert old(cs[j].Holds(d[j]));
    }
  }

  /** The first i chains are gone, and n bytes of the next one are to go. */
  method CutFront(buf: Evbuffer, chain: Chain, n: nat, ghost i: nat)
    requires Distinct(buf.chains) && Linked(buf.chains) && Filled(buf.chains, buf.data)
    requires i < |buf.chains| && chain == buf.chains[i] && n <= |buf.data[i]|
    modifies buf`first, buf`chains, buf`data, chain`misalign, chain`off
    ensures Distinct(buf.chains) && Linked(buf.chains) && Filled(buf.chains, buf.data)
    ensures buf.first == chain && buf.chains == old(buf.chains)[i..] && buf.data == Left(old(buf.data), i, n)
  {
    ghost var cs, d := buf.chains[i..], buf.data[i..];
    SuffixLinked(buf.chains, i);
    SuffixFilled(buf.chains, buf.data, i);
    buf.first := chain;
    buf.chains := cs;
    buf.data := d[0 := d[0][n..]];
    TrimFirst(chain, n, cs, d);
  }

  /** The end of evbuffer_drain, when last_with_datap is right already. */
  method CutChained(buf: Evbuffer, chain: Chain, n: nat, ghost i: nat)
    requires Distinct(buf.chains) && Linked(buf.chains) && Filled(buf.chains, buf.data)
    requires LastData(buf.data, buf.dataIdx)
    requires i <= buf.dataIdx && i < |buf.chains| && chain == buf.chains[i] && n < |buf.data[i]|
    requires buf.lastWithDatap
          == if i == buf.dataIdx then FirstOf(buf) else SlotAt(buf, buf.chains, buf.dataIdx)
    requires buf.last == buf.chains[|buf.chains| - 1]
    modifies buf`first, buf`chains, buf`data, buf`dataIdx, chain`misalign, chain`off
    ensures buf.Chained() && buf.last == At(buf.chains, |buf.chains| - 1)
    ensures buf.chains == old(buf.chains)[i..] && buf.data == Left(old(buf.data), i, n)
    ensures buf.dataIdx == old(buf.dataIdx) - i
  {
    CutFront(buf, chain, n, i);
    buf.dataIdx := buf.dataIdx - i;
  }

  /** The loop of evbuffer_drain: whole chains are passed over, and last_with_datap is redirected when the
      chain whose `next` it is goes. */
  method DropWhole(buf: Evbuffer, len: nat) returns (chain: Chain, remaining: nat, ghost i: nat)
    requires buf.Chained() && LastData(buf.data, buf.dataIdx) && len < |buf.Bytes()|
    modifies buf`lastWithDatap
    ensures i <= buf.dataIdx && i < |buf.chains| && chain == buf.chains[i]
    ensures remaining < |buf.data[i]| && len == |Flat(buf.data[..i])| + remaining
    ensures buf.lastWithDatap == if i == buf.dataIdx then FirstOf(buf) else SlotAt(buf, buf.chains, buf.dataIdx)
  {
    ghost var cs, d, k := buf.chains, buf.data, buf.dataIdx;
    LastIsReached(d, k, len);
    chain, remaining, i := buf.first, len, 0;
    assert d[..0] == [];
    assert cs[0].Holds(d[0]);
    while remaining >= chain.off
      invariant i <= k && chain == cs[i] && chain.off == |d[i]|
      invariant len == |Flat(d[..i])| + remaining
      invariant buf.lastWithDatap == if i == k then FirstOf(buf) else SlotAt(buf, cs, k)
      decreases k - i
    {
      assert cs[i].next == At(cs, i + 1);
      NextBase(d, i);
      remaining := remaining - chain.off;
      buf.lastWithDatap :=
        if chain == Deref(buf.lastWithDatap) || NextOf(chain) == buf.lastWithDatap
        then FirstOf(buf) else buf.lastWithDatap;
      chain := chain.next;
      i := i + 1;
      assert cs[i].Holds(d[i]);
    }
  }

  /** Fewer bytes than there are end before the end of the last chain with data. */
  lemma LastIsReached(d: seq<seq<Byte>>, k: nat, len: nat)
    requires LastData(d, k) && len < |Flat(d)|
    ensures k < |d| && len < |Flat(d[..k])| + |d[k]|
  {
    if d != [] {
      FlatToLast(d, k);
    }
  }

  /** evbuffer_drain: drop-prefix. */
  method Drain(buf: Evbuffer, len: nat) returns (result: int)
    requires buf.Valid()
    modifies buf`first, buf`last, buf`lastWithDatap, buf`totalLen, buf`chains, buf`data, buf`dataIdx, buf.chains
    ensures buf.Valid()
    ensures result == if old(buf.totalLen) > 0 && buf.freezeStart then -1 else 0
    ensures buf.Bytes() == if result == 0 then old(buf.Bytes()[Min(len, buf.totalLen)..]) else old(buf.Bytes())
    ensures forall c | c in buf.chains :: c in old(buf.chains)
  {
    if buf.totalLen == 0 {
      return 0;
    }
    if buf.freezeStart {
      return -1;
    }
    if len >= buf.totalLen {
      Zero(buf);
    } else {
      DrainPart(buf, len);
    }
    result := 0;
  }

  /** ZERO_CHAIN. */
  method Zero(buf: Evbuffer)
    modifies buf`first, buf`last, buf`lastWithDatap, buf`totalLen, buf`chains, buf`data, buf`dataIdx
    ensures buf.Valid() && buf.chains == [] && buf.Bytes() == []
  {
    buf.first, buf.last, buf.lastWithDatap, buf.totalLen := null, null, FirstOf(buf), 0;
    buf.chains, buf.data, buf.dataIdx := [], [], 0;
  }

  method DrainPart(buf: Evbuffer, len: nat)
    requires buf.Valid() && len < buf.totalLen
    modifies buf`first, buf`last, buf`lastWithDatap, buf`totalLen, buf`chains, buf`data, buf`dataIdx, buf.chains
    ensures buf.Valid() && buf.Bytes() == old(buf.Bytes())[len..]
    ensures forall c | c in buf.chains :: c in old(buf.chains)
  {
    buf.totalLen := buf.totalLen - len;
    var chain, remaining;
    ghost var i;
    chain, remaining, i := DropWhole(buf, len);
    LeftFlat(buf.data, buf.dataIdx, i, remaining);
    CutChained(buf, chain, remaining, i);
  }
}
