/** Moving chains between two buffers. */
module EvbufferMove {
  import opened Segments
  import opened EvbufferCore
  import opened EvbufferInsert
  import opened EvbufferDrain

  /** Both buffers are in order and no chain is in both. */
  ghost predicate Both(a: Evbuffer, b: Evbuffer)
    reads a, b, a.chains, b.chains
  {
    a.Valid() && b.Valid() && (a != b ==> Apart(a.chains, b.chains))
  }

  // ----- evbuffer_add_buffer -----

  /** COPY_CHAIN: dst takes over everything, with last_with_datap pointing into itself if it was the `first`
      field of src. */
  method CopyChain(dst: Evbuffer, src: Evbuffer)
    requires dst != src && src.Valid()
    modifies dst`first, dst`lastWithDatap, dst`last, dst`totalLen, dst`chains, dst`data, dst`dataIdx
    ensures dst.Valid() && dst.chains == src.chains && dst.Bytes() == src.Bytes()
  {
    TakeOver(dst, src);
    SameLists(dst, src);
  }

  method TakeOver(dst: Evbuffer, src: Evbuffer)
    requires dst != src
    modifies dst`first, dst`lastWithDatap, dst`last, dst`totalLen, dst`chains, dst`data, dst`dataIdx
    ensures dst.first == src.first && dst.last == src.last && dst.totalLen == src.totalLen
    ensures dst.lastWithDatap == if src.lastWithDatap == FirstOf(src) then FirstOf(dst) else src.lastWithDatap
    ensures dst.chains == src.chains && dst.data == src.data && dst.dataIdx == src.dataIdx
  {
    dst.first := src.first;
    dst.lastWithDatap := if src.lastWithDatap == FirstOf(src) then FirstOf(dst) else src.lastWithDatap;
    dst.last := src.last;
    dst.totalLen := src.totalLen;
    dst.chains, dst.data, dst.dataIdx := src.chains, src.data, src.dataIdx;
  }

  lemma SameLists(dst: Evbuffer, src: Evbuffer)
    requires dst != src && src.Valid()
    requires dst.first == src.first && dst.last == src.last && dst.totalLen == src.totalLen
    requires dst.lastWithDatap == if src.lastWithDatap == FirstOf(src) then FirstOf(dst) else src.lastWithDatap
    requires dst.chains == src.chains && dst.data == src.data && dst.dataIdx == src.dataIdx
    ensures dst.Valid()
  {
    IsChained(dst, src.chains, src.data, src.dataIdx);
  }

  lemma AppendFlat(d: seq<seq<Byte>>, k: nat, e: seq<seq<Byte>>, j: nat)
    requires LastData(d, k) && LastData(e, j) && Flat(e) != []
    ensures LastData(d[..Solid(d, k)] + e, Solid(d, k) + j)
    ensures Flat(d[..Solid(d, k)] + e) == Flat(d) + Flat(e)
  {
    FlatSolid(d, k);
    FlatConcat(d[..Solid(d, k)], e);
    DataAtLast(e, j);
  }

  lemma DataAtLast(e: seq<seq<Byte>>, j: nat)
    requires LastData(e, j) && Flat(e) != []
    ensures j < |e| && e[j] != []
  {
    if AllEmpty(e) {
      FlatEmpty(e);
    }
  }

  /** last_with_datap follows the chains that came from src: chp if it was the `first` field of src. */
  method MoveSlot(dst: Evbuffer, src: Evbuffer, srcSlot: Slot, chp: Slot, ghost n: nat, ghost j: nat)
    requires dst.Chained() && n + j < |dst.chains| && dst.data[n + j] != []
    requires chp == SlotAt(dst, dst.chains, n)
    requires srcSlot == if j == 0 then FirstOf(src) else NextOf(dst.chains[n + j - 1])
    modifies dst`lastWithDatap, dst`dataIdx
    ensures dst.Chained() && dst.dataIdx == n + j
  {
    dst.lastWithDatap := if srcSlot == FirstOf(src) then chp else srcSlot;
    dst.dataIdx := n + j;
  }

  /** The chains b of src put behind the data of dst, with everything but `last` and total_len set. */
  method AppendList(dst: Evbuffer, src: Evbuffer, first: Chain?, srcSlot: Slot,
                    ghost b: seq<Chain>, ghost e: seq<seq<Byte>>, ghost j: nat)
    requires dst.Core() && Apart(dst.chains, b)
    requires Distinct(b) && Linked(b) && Filled(b, e) && LastData(e, j) && Flat(e) != []
    requires first == At(b, 0) && srcSlot == SlotAt(src, b, j)
    modifies dst`first, dst`lastWithDatap, dst`chains, dst`data, dst`dataIdx, dst.chains`next
    ensures dst.Chained() && LastData(dst.data, dst.dataIdx) && dst.Bytes() == old(dst.Bytes()) + Flat(e)
    ensures dst.chains == old(dst.chains)[..Solid(old(dst.data), old(dst.dataIdx))] + b
  {
    AppendFlat(dst.data, dst.dataIdx, e, j);
    DataAtLast(e, j);
    ghost var n := Solid(dst.data, dst.dataIdx);
    var chp := Join(dst, first, b, e);
    MoveSlot(dst, src, srcSlot, chp, n, j);
  }

  /** APPEND_CHAIN. */
  method AppendChain(dst: Evbuffer, src: Evbuffer)
    requires dst != src && Both(dst, src) && src.totalLen > 0
    modifies dst`first, dst`last, dst`lastWithDatap, dst`totalLen, dst`chains, dst`data, dst`dataIdx,
             dst.chains`next
    ensures dst.Valid() && dst.Bytes() == old(dst.Bytes()) + src.Bytes()
    ensures forall c | c in dst.chains :: c in old(dst.chains) || c in src.chains
  {
    assert src.chains != [];
    AppendList(dst, src, src.first, src.lastWithDatap, src.chains, src.data, src.dataIdx);
    Seal(dst, src.last, dst.totalLen + src.totalLen);
  }

  /** evbuffer_add_buffer: dst becomes dst ++ src and src empty. */
  method AddBuffer(outbuf: Evbuffer, inbuf: Evbuffer) returns (result: int)
    requires Both(outbuf, inbuf)
    modifies outbuf`first, outbuf`last, outbuf`lastWithDatap, outbuf`totalLen, outbuf`chains, outbuf`data,
             outbuf`dataIdx, inbuf`first, inbuf`last, inbuf`lastWithDatap, inbuf`totalLen, inbuf`chains, inbuf`data,
             inbuf`dataIdx, outbuf.chains
    ensures Both(outbuf, inbuf)
    ensures var blocked := outbuf.freezeEnd || inbuf.freezeStart;
            if old(inbuf.totalLen) == 0 || outbuf == inbuf || blocked
            then result == (if old(inbuf.totalLen) > 0 && outbuf != inbuf then -1 else 0)
                 && outbuf.Bytes() == old(outbuf.Bytes()) && inbuf.Bytes() == old(inbuf.Bytes())
            else result == 0 && outbuf.Bytes() == old(outbuf.Bytes()) + old(inbuf.Bytes()) && inbuf.Bytes() == []
    ensures outbuf.Bytes() == old(outbuf.Bytes()) + old(inbuf.Bytes()) ==>
              (outbuf.totalLen == MachineSum(old(outbuf.totalLen), old(inbuf.totalLen))
               <==> old(outbuf.totalLen + inbuf.totalLen) <= SIZE_MAX)
    ensures forall c | c in outbuf.chains :: c in old(outbuf.chains) || c in old(inbuf.chains)
    ensures forall c | c in inbuf.chains :: c in old(inbuf.chains)
  {
    SumIsMachines(outbuf.totalLen, inbuf.totalLen);
    if inbuf.totalLen == 0 || outbuf == inbuf {
      return 0;
    }
    if outbuf.freezeEnd || inbuf.freezeStart {
      return -1;
    }
    if outbuf.totalLen == 0 {
      assert outbuf.Bytes() + inbuf.Bytes() == inbuf.Bytes();
      CopyChain(outbuf, inbuf);
    } else {
      AppendChain(outbuf, inbuf);
    }
    Zero(inbuf);
    result := 0;
  }

  // ----- evbuffer_prepend_buffer -----

  lemma PrependFlat(e: seq<seq<Byte>>, d: seq<seq<Byte>>, k: nat)
    requires LastData(d, k) && Flat(d) != []
    ensures LastData(e + d, |e| + k) && k < |d| && (e + d)[|e| + k] != []
    ensures Flat(e + d) == Flat(e) + Flat(d)
  {
    FlatConcat(e, d);
    DataAtLast(d, k);
  }

  /** The two lists joined, with the pointers into dst still to be set. */
  method LinkBefore(dst: Evbuffer, first: Chain?, last: Chain, ghost b: seq<Chain>, ghost e: seq<seq<Byte>>)
    requires dst.Core() && Apart(b, dst.chains)
    requires Distinct(b) && Linked(b) && Filled(b, e) && b != [] && first == b[0] && last == b[|b| - 1]
    modifies dst`first, dst`chains, dst`data, last`next
    ensures Distinct(dst.chains) && Linked(dst.chains) && Filled(dst.chains, dst.data)
    ensures dst.first == At(dst.chains, 0)
    ensures dst.chains == b + old(dst.chains) && dst.data == e + old(dst.data)
  {
    ConcatDistinct(b, dst.chains);
    LinkAfter(b, dst.chains, last, dst.first);
    dst.first := first;
    ConcatFilled(b, e, dst.chains, dst.data);
    dst.chains := b + dst.chains;
    dst.data := e + dst.data;
  }

  /** last_with_datap stays where it is, or follows the chains put in front of it. */
  method SlotBehind(dst: Evbuffer, last: Chain, ghost b: seq<Chain>, ghost cs: seq<Chain>, ghost k: nat)
    requires Distinct(dst.chains) && Linked(dst.chains) && Filled(dst.chains, dst.data)
    requires dst.first == At(dst.chains, 0) && dst.chains == b + cs && b != [] && last == b[|b| - 1]
    requires k < |cs| && dst.lastWithDatap == SlotAt(dst, cs, k) && dst.data[|b| + k] != []
    modifies dst`lastWithDatap, dst`dataIdx
    ensures dst.Chained() && dst.dataIdx == |b| + k
  {
    if dst.lastWithDatap == FirstOf(dst) {
      dst.lastWithDatap := NextOf(last);
    }
    dst.dataIdx := |b| + k;
    IsChained(dst, dst.chains, dst.data, |b| + k);
  }

  /** PREPEND_CHAIN. It is called only when dst has data, so that its branch for a last_with_datap that
      addresses nothing is never taken. */
  method PrependChain(dst: Evbuffer, src: Evbuffer)
    requires dst != src && Both(dst, src) && src.totalLen > 0 && dst.totalLen > 0
    modifies dst`first, dst`last, dst`lastWithDatap, dst`totalLen, dst`chains, dst`data, dst`dataIdx,
             src.chains`next
    ensures dst.Valid() && dst.Bytes() == src.Bytes() + old(dst.Bytes())
    ensures dst.chains == src.chains + old(dst.chains)
  {
    ghost var cs, k := dst.chains, dst.dataIdx;
    PrependFlat(src.data, dst.data, k);
    assert src.chains != [] && dst.chains != [];
    assert Apart(src.chains, dst.chains);
    LinkBefore(dst, src.first, src.last, src.chains, src.data);
    SlotBehind(dst, src.last, src.chains, cs, k);
    Seal(dst, dst.last, dst.totalLen + src.totalLen);
  }

  /** evbuffer_prepend_buffer: dst becomes src ++ dst and src empty. */
  method PrependBuffer(outbuf: Evbuffer, inbuf: Evbuffer) returns (result: int)
    requires Both(outbuf, inbuf)
    modifies outbuf`first, outbuf`last, outbuf`lastWithDatap, outbuf`totalLen, outbuf`chains, outbuf`data,
             outbuf`dataIdx, inbuf`first, inbuf`last, inbuf`lastWithDatap, inbuf`totalLen, inbuf`chains, inbuf`data,
             inbuf`dataIdx, inbuf.chains
    ensures Both(outbuf, inbuf)
    ensures var blocked := outbuf.freezeStart || inbuf.freezeStart;
            if old(inbuf.totalLen) == 0 || outbuf == inbuf || blocked
            then result == (if old(inbuf.totalLen) > 0 && outbuf != inbuf then -1 else 0)
                 && outbuf.Bytes() == old(outbuf.Bytes()) && inbuf.Bytes() == old(inbuf.Bytes())
            else result == 0 && outbuf.Bytes() == old(inbuf.Bytes()) + old(outbuf.Bytes()) && inbuf.Bytes() == []
    ensures outbuf.Bytes() == old(inbuf.Bytes()) + old(outbuf.Bytes()) ==>
              (outbuf.totalLen == MachineSum(old(outbuf.totalLen), old(inbuf.totalLen))
               <==> old(outbuf.totalLen + inbuf.totalLen) <= SIZE_MAX)
    ensures forall c | c in outbuf.chains :: c in old(outbuf.chains) || c in old(inbuf.chains)
    ensures forall c | c in inbuf.chains :: c in old(inbuf.chains)
  {
    SumIsMachines(outbuf.totalLen, inbuf.totalLen);
    if inbuf.totalLen == 0 || inbuf == outbuf {
      return 0;
    }
    if outbuf.freezeStart || inbuf.freezeStart {
      return -1;
    }
    if outbuf.totalLen == 0 {
      assert inbuf.Bytes() + outbuf.Bytes() == inbuf.Bytes();
      CopyChain(outbuf, inbuf);
    } else {
      PrependChain(outbuf, inbuf);
    }
    Zero(inbuf);
    result := 0;
  }
}
