/** Adding bytes at the front of a buffer. */
module EvbufferPrepend {
  import opened SeqFacts
  import opened Segments
  import opened EvbufferCore
  import opened EvbufferInsert
  import opened EvbufferAdd

  /** Writing x right before what is already there from `from` to `to`. */
  lemma CopyBefore(mem: seq<Byte>, from: nat, to: nat, x: seq<Byte>)
    requires |x| <= from <= to <= |mem|
    ensures CopyTo(mem, from - |x|, x)[from - |x|..to] == x + mem[from..to]
  {
    var r := CopyTo(mem, from - |x|, x);
    var l := r[from - |x|..to];
    forall j | 0 <= j < |l| ensures l[j] == (x + mem[from..to])[j] {
      if j < |x| {
        assert l[j] == r[from - |x|..from][j];
      } else {
        assert l[j] == r[from..][j - |x|] == mem[from..][j - |x|];
      }
    }
  }

  /** Copies bytes to the misaligned space before the bytes of a chain. */
  method WriteFront(c: Chain, x: seq<Byte>, ghost d: seq<Byte>)
    requires c.Holds(d) && !c.immutable && |x| <= c.misalign
    modifies c`mem, c`off, c`misalign
    ensures c.Holds(x + d) && c.misalign == old(c.misalign) - |x|
  {
    CopyBefore(c.mem, c.misalign, c.misalign + c.off, x);
    c.mem := CopyTo(c.mem, c.misalign - |x|, x);
    c.off := c.off + |x|;
    c.misalign := c.misalign - |x|;
  }

  lemma GrowFirst(d: seq<seq<Byte>>, k: nat, x: seq<Byte>)
    requires LastData(d, k) && d != []
    ensures LastData(d[0 := x + d[0]], k) && Flat(d[0 := x + d[0]]) == x + Flat(d)
  {
    FlatAround(d, 0, x + d[0]);
    assert d[..0] == [];
    assert [] + (x + d[0]) + Flat(d[1..]) == x + ([] + d[0] + Flat(d[1..]));
  }

  /** Bytes written before the data of the first chain. */
  method WriteFirstChain(buf: Evbuffer, c: Chain, x: seq<Byte>)
    requires buf.Chained() && buf.chains != [] && c == buf.chains[0]
    requires !c.immutable && |x| <= c.misalign
    modifies buf`data, c`mem, c`off, c`misalign
    ensures buf.Chained() && buf.data == old(buf.data)[0 := x + old(buf.data)[0]]
    ensures c.misalign == old(c.misalign) - |x|
  {
    ghost var cs, d := buf.chains, buf.data;
    assert cs[0].Holds(d[0]);
    WriteFront(c, x, d[0]);
    forall j | 1 <= j < |cs| ensures cs[j].Holds(d[j]) {
      assert old(cs[j].Holds(d[j]));
    }
    buf.data := d[0 := x + d[0]];
    assert cs[0].Holds(buf.data[0]);
    assert Filled(cs, buf.data);
  }

  method WriteFirst(buf: Evbuffer, c: Chain, x: seq<Byte>)
    requires buf.Valid() && buf.chains != [] && c == buf.chains[0]
    requires !c.immutable && |x| <= c.misalign
    modifies buf`data, buf`totalLen, c`mem, c`off, c`misalign
    ensures buf.Valid() && buf.Bytes() == x + old(buf.Bytes())
    ensures c.misalign == old(c.misalign) - |x|
  {
    GrowFirst(buf.data, buf.dataIdx, x);
    WriteFirstChain(buf, c, x);
    buf.totalLen := buf.totalLen + |x|;
  }

  /** An empty chain is treated as empty at its beginning. */
  method MisalignEmpty(buf: Evbuffer, c: Chain)
    requires buf.Valid() && buf.chains != [] && c == buf.chains[0] && !c.immutable
    modifies c`misalign
    ensures buf.Valid() && c.misalign == old(Headroom(c))
  {
    ghost var cs, d := buf.chains, buf.data;
    assert cs[0].Holds(d[0]);
    if c.off == 0 {
      c.misalign := |c.mem|;
    }
    forall j | 0 <= j < |cs| ensures cs[j].Holds(d[j]) {
      assert old(cs[j].Holds(d[j]));
    }
  }

  /** How many bytes can be put before the data of a chain. */
  function Headroom(c: Chain): nat
    reads c
  {
    if c.immutable then 0 else if c.off == 0 then |c.mem| else c.misalign
  }

  lemma ConsLinked(tmp: Chain, cs: seq<Chain>)
    requires Distinct(cs) && Linked(cs) && tmp !in cs && tmp.next == At(cs, 0)
    ensures Distinct([tmp] + cs) && Linked([tmp] + cs)
  {
    forall i | 0 <= i < |[tmp] + cs| ensures ([tmp] + cs)[i].next == At([tmp] + cs, i + 1) {
      if i > 0 {
        assert cs[i - 1].next == At(cs, i);
      }
    }
    ConcatDistinct([tmp], cs);
  }

  lemma GrowFront(d: seq<seq<Byte>>, k: nat, x: seq<Byte>)
    requires LastData(d, k) && x != []
    ensures Flat([x] + d) == x + Flat(d)
    ensures LastData([x] + d, if k == 0 && (d == [] || d[0] == []) then 0 else k + 1)
  {
    FlatConcat([x], d);
    FlatOne(x);
    ConsLast(d, k, x);
  }

  lemma ConsLast(d: seq<seq<Byte>>, k: nat, x: seq<Byte>)
    requires LastData(d, k) && x != []
    ensures LastData([x] + d, if k == 0 && (d == [] || d[0] == []) then 0 else k + 1)
  {
  }

  /** A new chain gets its bytes at the end of its memory. */
  method FillBackwards(tmp: Chain, x: seq<Byte>)
    requires |x| <= |tmp.mem| && !tmp.immutable && tmp.misalign == 0 && tmp.off == 0
    modifies tmp`mem, tmp`off, tmp`misalign
    ensures tmp.Holds(x)
  {
    tmp.off := |x|;
    tmp.misalign := |tmp.mem| - |x|;
    tmp.mem := CopyTo(tmp.mem, tmp.misalign, x);
  }

  method LinkAhead(tmp: Chain, chain: Chain, ghost x: seq<Byte>, ghost cs: seq<Chain>, ghost d: seq<seq<Byte>>)
    requires Distinct(cs) && Linked(cs) && Filled(cs, d) && cs != [] && chain == cs[0]
    requires tmp !in cs && tmp.Holds(x)
    modifies tmp`next
    ensures Distinct([tmp] + cs) && Linked([tmp] + cs) && Filled([tmp] + cs, [x] + d)
  {
    tmp.next := chain;
    forall i | 0 <= i < |cs| ensures cs[i].next == At(cs, i + 1) {
      assert cs[i] in cs && old(cs[i].next) == At(cs, i + 1);
    }
    ConsLinked(tmp, cs);
    ConcatFilled([tmp], [x], cs, d);
  }

  /** A new chain becomes the first one. */
  method LinkFirst(buf: Evbuffer, chain: Chain, tmp: Chain, ghost x: seq<Byte>)
    requires buf.Core() && buf.chains != [] && chain == buf.chains[0]
    requires tmp !in buf.chains && x != [] && tmp.Holds(x)
    modifies buf`first, buf`lastWithDatap, buf`chains, buf`data, buf`dataIdx, tmp`next
    ensures buf.Chained() && LastData(buf.data, buf.dataIdx)
    ensures buf.chains == [tmp] + old(buf.chains) && buf.data == [x] + old(buf.data)
  {
    ghost var cs, d, k := buf.chains, buf.data, buf.dataIdx;
    assert cs[0].Holds(d[0]);
    GrowFront(d, k, x);
    LinkAhead(tmp, chain, x, cs, d);
    buf.first := tmp;
    if buf.lastWithDatap == FirstOf(buf) && chain.off != 0 {
      buf.lastWithDatap := NextOf(tmp);
    }
    ConsSlot(buf, tmp, cs, k);
    buf.chains, buf.data := [tmp] + cs, [x] + d;
    buf.dataIdx := if k == 0 && d[0] == [] then 0 else k + 1;
    IsChained(buf, [tmp] + cs, [x] + d, buf.dataIdx);
  }

  lemma ConsSlot(buf: Evbuffer, tmp: Chain, cs: seq<Chain>, k: nat)
    requires k <= |cs|
    ensures SlotAt(buf, [tmp] + cs, k + 1) == if k == 0 then NextOf(tmp) else SlotAt(buf, cs, k)
  {
  }

  method AddFirst(buf: Evbuffer, chain: Chain, tmp: Chain, x: seq<Byte>)
    requires buf.Valid() && buf.chains != [] && chain == buf.chains[0]
    requires tmp !in buf.chains && 0 < |x| <= |tmp.mem|
    requires tmp.next == null && !tmp.immutable && tmp.misalign == 0 && tmp.off == 0
    modifies buf`first, buf`last, buf`lastWithDatap, buf`totalLen, buf`chains, buf`data, buf`dataIdx, tmp
    ensures buf.Valid() && buf.Bytes() == x + old(buf.Bytes())
    ensures buf.chains == [tmp] + old(buf.chains)
  {
    GrowFront(buf.data, buf.dataIdx, x);
    FillBackwards(tmp, x);
    LinkFirst(buf, chain, tmp, x);
    Seal(buf, buf.last, buf.totalLen + |x|);
  }

  /** evbuffer_prepend once there is a chain. */
  method PrependTo(buf: Evbuffer, chain: Chain, x: seq<Byte>, short: bool) returns (result: int)
    requires buf.Valid() && buf.chains != [] && chain == buf.chains[0] && x != []
    modifies buf`first, buf`last, buf`lastWithDatap, buf`totalLen, buf`chains, buf`data, buf`dataIdx, buf.chains
    ensures buf.Valid() && result in {0, -1}
    ensures result == 0 <==>
            var room := old(Headroom(chain));
            room >= |x| || (!short && |x| - room <= CHAIN_MAX - CHAIN_SIZE)
    ensures buf.Bytes() ==
            (if result == 0 then x else x[|x| - old(Headroom(chain))..]) + old(buf.Bytes())
    ensures forall c | c in buf.chains :: c in old(buf.chains) || fresh(c)
  {
    ghost var s := buf.Bytes();
    var rest := x;
    if !chain.immutable {
      MisalignEmpty(buf, chain);
      if chain.misalign >= |x| {
        WriteFirst(buf, chain, x);
        return 0;
      } else if chain.misalign != 0 {
        rest := x[..|x| - chain.misalign];
        WriteFirst(buf, chain, x[|x| - chain.misalign..]);
      }
    }
    assert x == rest + x[|rest|..];
    assert |rest| == |x| ==> x[|rest|..] == [] && [] + s == s;
    var tmp := ChainNew(|rest|, short);
    if tmp == null {
      return -1;
    }
    AddFirst(buf, chain, tmp, rest);
    ConcatAssoc(rest, x[|rest|..], s);
    result := 0;
  }

  /** The room in front of the data. */
  ghost function RoomBefore(buf: Evbuffer): nat
    reads buf, if buf.first == null then {} else {buf.first}
  {
    if buf.first == null then 0 else Headroom(buf.first)
  }

  /** What prepending x to the bytes s gives, and when. */
  ghost predicate Prepended(x: seq<Byte>, blocked: bool, room: nat, short: bool, s: seq<Byte>, s': seq<Byte>,
                            result: int) {
    && result in {0, -1}
    && (result == 0 <==> !blocked && (|x| <= room || (!short && |x| - room <= CHAIN_MAX - CHAIN_SIZE)))
    && (result == 0 ==> s' == x + s)
    && (result == -1 ==> s' == (if blocked then [] else x[|x| - room..]) + s)
  }

  /** evbuffer_prepend. It fails with nothing changed, except when the front of the first chain takes the end
      of the data and no chain can be had for the rest: then the end of the data stays in the buffer. */
  method Prepend(buf: Evbuffer, x: seq<Byte>, short: bool) returns (result: int)
    requires buf.Valid()
    modifies buf`first, buf`last, buf`lastWithDatap, buf`totalLen, buf`chains, buf`data, buf`dataIdx, buf.chains
    ensures buf.Valid()
    ensures Prepended(x, x != [] && (buf.freezeStart || |x| > SIZE_MAX - old(buf.totalLen)),
                      old(RoomBefore(buf)), short, old(buf.Bytes()), buf.Bytes(), result)
    ensures forall c | c in buf.chains :: c in old(buf.chains) || fresh(c)
  {
    ghost var s := buf.Bytes();
    EmptyConcat([], s);
    if x == [] {
      assert x + s == s;
      return 0;
    }
    if buf.freezeStart || |x| > SIZE_MAX - buf.totalLen {
      return -1;
    }
    var chain := buf.first;
    if chain == null {
      chain := ChainNew(|x|, short);
      if chain == null {
        assert x[|x|..] + s == s;
        return -1;
      }
      ChainInsert(buf, chain, []);
    }
    result := PrependTo(buf, chain, x, short);
  }

  /** What fits before the data of the first chain, or into it if it is empty, needs no memory. */
  lemma PrependWithoutMemory(buf: Evbuffer, c: Chain, x: seq<Byte>, s: seq<Byte>, s': seq<Byte>, result: int)
    requires buf.Valid() && buf.first == c && !c.immutable && |x| <= (if c.off == 0 then |c.mem| else c.misalign)
    requires Prepended(x, false, RoomBefore(buf), true, s, s', result)
    ensures result == 0 && s' == x + s
  {
  }

  /** A failing call that changes the buffer: of [7, 8, 9, 10] the last byte fits before [2] and stays there. */
  lemma LeavesAByte(buf: Evbuffer)
    requires buf.Valid() && buf.data == [[2]] && buf.chains[0].misalign == 1 && !buf.chains[0].immutable
    ensures buf.Bytes() == [2] && RoomBefore(buf) == 1 && buf.totalLen == 1
    ensures forall s': seq<Byte>, result ::
              Prepended([7, 8, 9, 10], false, RoomBefore(buf), true, buf.Bytes(), s', result)
              <==> s' == [10, 2] && result == -1
  {
    FlatOne([2]);
    assert buf.chains[0].Holds(buf.data[0]);
    var x: seq<Byte> := [7, 8, 9, 10];
    assert x[3..] + [2] == [10, 2];
  }

  /** There is such a buffer, and the call does that to it. */
  method LeaveAByte() returns (buf: Evbuffer, result: int)
    ensures buf.Valid() && buf.Bytes() == [10, 2] && result == -1
  {
    buf := new Evbuffer();
    var chain := new Chain([0, 2], 1, false);
    chain.misalign := 1;
    ChainInsert(buf, chain, [2]);
    EmptyConcat([], [[2]]);
    LeavesAByte(buf);
    ghost var s := buf.Bytes();
    result := Prepend(buf, [7, 8, 9, 10], true);
    assert Prepended([7, 8, 9, 10], false, 1, true, s, buf.Bytes(), result);
  }
}
