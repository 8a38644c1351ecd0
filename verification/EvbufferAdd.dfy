/** Adding bytes at the end of a buffer. */
module EvbufferAdd {
  import opened Segments
  import opened EvbufferCore
  import opened EvbufferInsert

  const MAX_AUTO_SIZE: nat := 4096
  const MAX_TO_REALIGN: nat := 2048

  /** memcpy into a piece of memory. */
  function CopyTo(mem: seq<Byte>, at: nat, x: seq<Byte>): (r: seq<Byte>)
    requires at + |x| <= |mem|
    ensures |r| == |mem| && r[at..at + |x|] == x
    ensures r[..at] == mem[..at] && r[at + |x|..] == mem[at + |x|..]
  {
    mem[..at] + x + mem[at + |x|..]
  }

  /** Writing x right behind what is already there from `from` to `at`. */
  lemma CopyBehind(mem: seq<Byte>, from: nat, at: nat, x: seq<Byte>)
    requires from <= at && at + |x| <= |mem|
    ensures CopyTo(mem, at, x)[from..at + |x|] == mem[from..at] + x
  {
    var r := CopyTo(mem, at, x);
    assert r[from..at + |x|] == r[..at][from..] + r[at..at + |x|];
    assert mem[from..at] == mem[..at][from..];
  }

  /** Copies bytes to the free space behind the bytes of a chain. */
  method WriteSpace(c: Chain, x: seq<Byte>, ghost d: seq<Byte>)
    requires c.Holds(d) && !c.immutable && |x| <= c.Space()
    modifies c`mem, c`off
    ensures c.Holds(d + x) && |c.mem| == old(|c.mem|)
  {
    CopyBehind(c.mem, c.misalign, c.misalign + c.off, x);
    c.mem := CopyTo(c.mem, c.misalign + c.off, x);
    c.off := c.off + |x|;
  }

  /** evbuffer_chain_align. */
  method ChainAlign(c: Chain, ghost d: seq<Byte>)
    requires c.Holds(d) && !c.immutable
    modifies c`mem, c`misalign
    ensures c.Holds(d) && c.misalign == 0 && |c.mem| == old(|c.mem|)
  {
    c.mem := CopyTo(c.mem, 0, c.mem[c.misalign..c.misalign + c.off]);
    c.misalign := 0;
  }

  /** evbuffer_chain_should_realign. */
  predicate ShouldRealign(c: Chain, n: nat)
    reads c`mem, c`off
  {
    |c.mem| - c.off >= n && c.off < |c.mem| / 2 && c.off <= MAX_TO_REALIGN
  }

  /** Bytes written behind the data of chain i become data of that chain. */
  method WriteChain(buf: Evbuffer, c: Chain, x: seq<Byte>, ghost i: nat)
    requires buf.Chained() && i < |buf.chains| && c == buf.chains[i]
    requires !c.immutable && |x| <= c.Space()
    modifies buf`data, c`mem, c`off
    ensures buf.Chained() && buf.data == old(buf.data)[i := old(buf.data)[i] + x]
    ensures |c.mem| == old(|c.mem|)
  {
    ghost var cs, d := buf.chains, buf.data;
    assert cs[i].Holds(d[i]);
    WriteSpace(c, x, d[i]);
    forall j | 0 <= j < |cs| && j != i ensures cs[j].Holds(d[j]) {
      assert old(cs[j].Holds(d[j]));
    }
    buf.data := d[i := d[i] + x];
    assert cs[i].Holds(buf.data[i]);
    assert Filled(cs, buf.data);
  }

  method AlignChain(buf: Evbuffer, c: Chain, ghost i: nat)
    requires buf.Valid() && i < |buf.chains| && c == buf.chains[i] && !c.immutable
    modifies c`mem, c`misalign
    ensures buf.Valid() && c.misalign == 0 && |c.mem| == old(|c.mem|) && c.off == old(c.off)
  {
    ghost var cs, d := buf.chains, buf.data;
    assert cs[i].Holds(d[i]);
    ChainAlign(c, d[i]);
    forall j | 0 <= j < |cs| ensures cs[j].Holds(d[j]) {
      assert old(cs[j].Holds(d[j]));
    }
  }

  lemma GrowLast(d: seq<seq<Byte>>, k: nat, x: seq<Byte>)
    requires LastData(d, k) && k < |d|
    ensures LastData(d[k := d[k] + x], k) && Flat(d[k := d[k] + x]) == Flat(d) + x
  {
    FlatAround(d, k, d[k] + x);
    FlatEmpty(d[k + 1..]);
    assert Flat(d[..k]) + (d[k] + x) + [] == Flat(d[..k]) + d[k] + [] + x;
  }

  /** Adds bytes to the space of the chain that last_with_datap addresses. */
  method AddInPlace(buf: Evbuffer, c: Chain, x: seq<Byte>)
    requires buf.Valid() && buf.dataIdx < |buf.chains| && c == buf.chains[buf.dataIdx]
    requires !c.immutable && |x| <= c.Space()
    modifies buf`data, buf`totalLen, c`mem, c`off
    ensures buf.Valid() && buf.Bytes() == old(buf.Bytes()) + x
    ensures buf.data == old(buf.data)[buf.dataIdx := old(buf.data)[buf.dataIdx] + x]
    ensures |c.mem| == old(|c.mem|)
  {
    GrowLast(buf.data, buf.dataIdx, x);
    WriteChain(buf, c, x, buf.dataIdx);
    buf.totalLen := buf.totalLen + |x|;
  }

  /** No chain is too big to be allocated again at its size. */
  ghost predicate Ordinary(cs: seq<Chain>)
    reads cs`mem
  {
    forall c | c in cs :: |c.mem| <= CHAIN_MAX - CHAIN_SIZE
  }

  /** The size of the chain that evbuffer_add asks for behind one of size `last`. */
  function Wanted(last: nat, n: nat): (size: nat)
    ensures size >= n
  {
    var toAlloc := if last <= 2048 then last * 2 else last;
    if n > toAlloc then n else toAlloc
  }

  /** What matters of the chain that is written to, if there is one. */
  datatype Room = NoChain | Room(immutable: bool, size: nat, misalign: nat, off: nat)

  function RoomIn(c: Chain?): Room
    reads (if c == null then {} else {c})`mem, (if c == null then {} else {c})`misalign,
          (if c == null then {} else {c})`off
  {
    if c == null then NoChain else Room(c.immutable, |c.mem|, c.misalign, c.off)
  }

  /** n bytes fit there, or can be made to by moving what is there to the front of the memory, or another
      chain can be had. */
  predicate Takes(r: Room, n: nat, short: bool) {
    match r
    case NoChain => !short && n <= CHAIN_MAX - CHAIN_SIZE
    case Room(immutable, size, misalign, off) =>
      || (!immutable && (size - (misalign + off) >= n
                         || (size - off >= n && off < size / 2 && off <= 2048)))
      || (!short && Wanted(size, n) <= CHAIN_MAX - CHAIN_SIZE)
  }

  ghost predicate CanAdd(buf: Evbuffer, n: nat, short: bool)
    reads buf, buf.chains
  {
    !buf.freezeEnd && n <= SIZE_MAX - buf.totalLen && Takes(RoomIn(At(buf.chains, buf.dataIdx)), n, short)
  }

  /** While memory lasts, an addition that the length can count succeeds. */
  lemma AddSucceeds(buf: Evbuffer, n: nat)
    requires buf.Valid() && Ordinary(buf.chains) && !buf.freezeEnd
    requires n <= SIZE_MAX - buf.totalLen && n <= CHAIN_MAX - CHAIN_SIZE
    ensures CanAdd(buf, n, false)
  {
    if buf.dataIdx < |buf.chains| {
      assert buf.chains[buf.dataIdx] in buf.chains;
    }
  }

  /** Without memory it does exactly if the last chain with data can be written to and has the room behind its
      data, or has it before and behind them together, and they are at most 2048 bytes and fill less than half of
      it. */
  lemma AddWithoutMemory(buf: Evbuffer, n: nat, c: Chain)
    requires buf.Valid() && buf.dataIdx < |buf.chains| && c == buf.chains[buf.dataIdx]
    requires !buf.freezeEnd && n <= SIZE_MAX - buf.totalLen
    ensures CanAdd(buf, n, true) <==>
            !c.immutable && (n <= c.Space() || (n <= |c.mem| - c.off && c.off < |c.mem| / 2 && c.off <= 2048))
  {
    assert c.Holds(buf.data[buf.dataIdx]);
  }

  /** Puts x at the beginning of a new chain. */
  method FillNew(tmp: Chain, x: seq<Byte>)
    requires |x| <= |tmp.mem| && !tmp.immutable && tmp.misalign == 0 && tmp.off == 0
    modifies tmp`mem, tmp`off
    ensures tmp.Holds(x) && tmp.Space() == old(|tmp.mem|) - |x|
  {
    tmp.mem := CopyTo(tmp.mem, 0, x);
    tmp.off := |x|;
  }

  /** A chain with x at its beginning, given to the buffer. */
  method AddChain(buf: Evbuffer, tmp: Chain, x: seq<Byte>)
    requires buf.Valid() && tmp !in buf.chains && |x| <= |tmp.mem|
    requires tmp.next == null && !tmp.immutable && tmp.misalign == 0 && tmp.off == 0
    modifies buf`first, buf`last, buf`lastWithDatap, buf`totalLen, buf`chains, buf`data, buf`dataIdx, buf.chains`next,
             tmp`mem, tmp`off
    ensures buf.Valid() && buf.Bytes() == old(buf.Bytes()) + x
    ensures buf.chains == old(buf.chains)[..Solid(old(buf.data), old(buf.dataIdx))] + [tmp]
    ensures Inserted(old(buf.data), old(buf.dataIdx), x, buf.data, buf.dataIdx)
    ensures buf.last == tmp && |tmp.mem| == old(|tmp.mem|)
  {
    FillNew(tmp, x);
    ChainInsert(buf, tmp, x);
  }

  /** What fits behind the data of the chain, if anything does. */
  method FillSpace(buf: Evbuffer, chain: Chain, x: seq<Byte>)
    requires buf.Valid() && buf.dataIdx < |buf.chains| && chain == buf.chains[buf.dataIdx]
    requires |x| <= chain.Space()
    modifies buf`data, buf`totalLen, chain`mem, chain`off
    ensures buf.Valid() && buf.Bytes() == old(buf.Bytes()) + x
    ensures buf.data == old(buf.data)[buf.dataIdx := old(buf.data)[buf.dataIdx] + x]
  {
    if x != [] {
      AddInPlace(buf, chain, x);
    } else {
      assert buf.data[buf.dataIdx] + x == buf.data[buf.dataIdx] && buf.Bytes() + x == buf.Bytes();
    }
  }

  /** The end of evbuffer_add: what fits goes into the chain, the rest into a new one. */
  method AddBeyond(buf: Evbuffer, chain: Chain, x: seq<Byte>, remain: nat, short: bool) returns (result: int)
    requires buf.Valid() && buf.dataIdx < |buf.chains| && chain == buf.chains[buf.dataIdx]
    requires remain == chain.Space() <= |x|
    modifies buf`first, buf`last, buf`lastWithDatap, buf`totalLen, buf`chains, buf`data, buf`dataIdx, buf.chains
    ensures buf.Valid() && result in {0, -1}
    ensures buf.Bytes() == if result == 0 then old(buf.Bytes()) + x else old(buf.Bytes())
    ensures result == 0 <==> !short && old(Wanted(|chain.mem|, |x|)) <= CHAIN_MAX - CHAIN_SIZE
    ensures result == 0 ==>
              var k := old(buf.dataIdx);
              var d := old(buf.data)[k := old(buf.data)[k] + x[..remain]];
              LastData(d, k) && Inserted(d, k, x[remain..], buf.data, buf.dataIdx)
    ensures result == 0 ==> buf.last != null && |buf.last.mem| >= old(Wanted(|chain.mem|, |x|))
    ensures result != 0 ==> buf.chains == old(buf.chains) && buf.data == old(buf.data)
    ensures forall c | c in buf.chains :: c in old(buf.chains) || fresh(c)
  {
    var toAlloc := |chain.mem|;
    if toAlloc <= MAX_AUTO_SIZE / 2 {
      toAlloc := toAlloc * 2;
    }
    if |x| > toAlloc {
      toAlloc := |x|;
    }
    var tmp := ChainNew(toAlloc, short);
    if tmp == null {
      return -1;
    }
    FillSpace(buf, chain, x[..remain]);
    AddChain(buf, tmp, x[remain..]);
    assert x[..remain] + x[remain..] == x;
    result := 0;
  }

  /** evbuffer_add once there is a chain. */
  method AddTo(buf: Evbuffer, chain: Chain, x: seq<Byte>, short: bool) returns (result: int)
    requires buf.Valid() && buf.dataIdx < |buf.chains| && chain == buf.chains[buf.dataIdx]
    modifies buf`first, buf`last, buf`lastWithDatap, buf`totalLen, buf`chains, buf`data, buf`dataIdx, buf.chains
    ensures buf.Valid() && result in {0, -1}
    ensures buf.Bytes() == if result == 0 then old(buf.Bytes()) + x else old(buf.Bytes())
    ensures result == 0 <==> old(Takes(RoomIn(chain), |x|, short))
    ensures forall c | c in buf.chains :: c in old(buf.chains) || fresh(c)
  {
    assert chain.Holds(buf.data[buf.dataIdx]);
    var remain: nat := 0;
    if !chain.immutable {
      remain := |chain.mem| - chain.misalign - chain.off;
      if remain >= |x| {
        AddInPlace(buf, chain, x);
        return 0;
      } else if ShouldRealign(chain, |x|) {
        AlignChain(buf, chain, buf.dataIdx);
        AddInPlace(buf, chain, x);
        return 0;
      }
    }
    result := AddBeyond(buf, chain, x, remain, short);
  }

  /** evbuffer_add: append, all or nothing. `short` says whether an allocation would fail. */
  method Add(buf: Evbuffer, x: seq<Byte>, short: bool) returns (result: int)
    requires buf.Valid()
    modifies buf`first, buf`last, buf`lastWithDatap, buf`totalLen, buf`chains, buf`data, buf`dataIdx, buf.chains
    ensures buf.Valid() && result in {0, -1}
    ensures buf.Bytes() == if result == 0 then old(buf.Bytes()) + x else old(buf.Bytes())
    ensures result == 0 <==> old(CanAdd(buf, |x|, short))
    ensures forall c | c in buf.chains :: c in old(buf.chains) || fresh(c)
  {
    if buf.freezeEnd || |x| > SIZE_MAX - buf.totalLen {
      return -1;
    }
    var chain := Deref(buf.lastWithDatap);
    if chain == null {
      chain := buf.last;
    }
    if chain == null {
      chain := ChainNew(|x|, short);
      if chain == null {
        return -1;
      }
      ChainInsert(buf, chain, []);
    }
    result := AddTo(buf, chain, x, short);
  }

  /** evbuffer_add_reference: append bytes that stay where they are, in a chain nothing is written to. */
  method AddReference(outbuf: Evbuffer, x: seq<Byte>, short: bool) returns (result: int)
    requires outbuf.Valid()
    modifies outbuf`first, outbuf`last, outbuf`lastWithDatap, outbuf`totalLen, outbuf`chains, outbuf`data,
             outbuf`dataIdx, outbuf.chains`next
    ensures outbuf.Valid()
    ensures result == if short || outbuf.freezeEnd then -1 else 0
    ensures outbuf.Bytes() == if result == 0 then old(outbuf.Bytes()) + x else old(outbuf.Bytes())
    ensures result == 0 ==>
              && Inserted(old(outbuf.data), old(outbuf.dataIdx), x, outbuf.data, outbuf.dataIdx)
              && outbuf.last != null && fresh(outbuf.last) && outbuf.last.immutable && outbuf.last.mem == x
              && (outbuf.totalLen == MachineSum(old(outbuf.totalLen), |x|) <==> old(outbuf.totalLen) + |x| <= SIZE_MAX)
    ensures forall c | c in outbuf.chains :: c in old(outbuf.chains) || fresh(c)
  {
    SumIsMachines(outbuf.totalLen, |x|);
    if short {
      return -1;
    }
    var chain := new Chain(x, |x|, true);
    if outbuf.freezeEnd {
      return -1;
    }
    ChainInsert(outbuf, chain, x);
    result := 0;
  }
}
