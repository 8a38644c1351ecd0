/** Putting chains behind the chains of a buffer. */
module EvbufferInsert {
  import opened SeqFacts
  import opened Segments
  import opened EvbufferCore

  /** No chain belongs to both lists. */
  ghost predicate Apart(a: seq<Chain>, b: seq<Chain>) {
    forall c | c in a :: c !in b
  }

  lemma ConcatDistinct(a: seq<Chain>, b: seq<Chain>)
    requires Distinct(a) && Distinct(b) && Apart(a, b)
    ensures Distinct(a + b)
  {
    forall i, j | 0 <= i < j < |a + b| ensures (a + b)[i] != (a + b)[j] {
      if i < |a| <= j {
        assert a[i] in a && b[j - |a|] in b;
      }
    }
  }

  lemma ConcatFilled(a: seq<Chain>, d: seq<seq<Byte>>, b: seq<Chain>, e: seq<seq<Byte>>)
    requires Filled(a, d) && Filled(b, e)
    ensures Filled(a + b, d + e)
  {
    forall i | 0 <= i < |a + b| ensures (a + b)[i].Holds((d + e)[i]) {
      if i < |a| {
        assert a[i].Holds(d[i]);
      } else {
        assert b[i - |a|].Holds(e[i - |a|]);
      }
    }
  }

  /** Makes the list b follow the last chain of a. */
  method LinkAfter(ghost a: seq<Chain>, ghost b: seq<Chain>, p: Chain, c: Chain?)
    requires Distinct(a) && Linked(a) && Linked(b) && Apart(a, b)
    requires a != [] && p == a[|a| - 1] && c == At(b, 0)
    modifies p`next
    ensures Linked(a + b)
  {
    assert p in a;
    p.next := c;
    forall i | 0 <= i < |a + b| ensures (a + b)[i].next == At(a + b, i + 1) {
      if i < |a| - 1 {
        assert a[i].next == At(a, i + 1);
      } else if i >= |a| {
        assert b[i - |a|].next == At(b, i - |a| + 1);
      }
    }
  }

  /** Writes c, the head of the list b, through the pointer behind the list a. */
  method WriteThrough(buf: Evbuffer, chp: Slot, c: Chain?, ghost a: seq<Chain>, ghost b: seq<Chain>)
    requires Distinct(a) && Linked(a) && Linked(b) && Apart(a, b) && c == At(b, 0)
    requires chp == SlotAt(buf, a, |a|) && buf.first == At(a, 0)
    modifies buf`first, a`next
    ensures Linked(a + b) && buf.first == At(a + b, 0)
  {
    match chp {
      case FirstOf(f) =>
        EmptyConcat(a, b);
        f.first := c;
      case NextOf(p) =>
        LinkAfter(a, b, p, c);
    }
  }

  /** The chains b behind all chains of the buffer. */
  method Attach(buf: Evbuffer, chp: Slot, c: Chain?, ghost b: seq<Chain>, ghost e: seq<seq<Byte>>)
    requires buf.Core() && chp == SlotAt(buf, buf.chains, |buf.chains|)
    requires Distinct(b) && Linked(b) && Filled(b, e) && c == At(b, 0) && Apart(buf.chains, b)
    modifies buf`first, buf`chains, buf`data, buf.chains`next
    ensures buf.Chained()
    ensures buf.chains == old(buf.chains) + b && buf.data == old(buf.data) + e
  {
    ghost var a, d := buf.chains, buf.data;
    ConcatDistinct(a, b);
    WriteThrough(buf, chp, c, a, b);
    ConcatFilled(a, d, b, e);
    buf.chains := a + b;
    buf.data := d + e;
  }

  /** What evbuffer_chain_insert does to a list of segments. */
  ghost predicate Inserted(d: seq<seq<Byte>>, k: nat, x: seq<Byte>, e: seq<seq<Byte>>, j: nat)
    requires LastData(d, k)
  {
    var n := Solid(d, k);
    e == d[..n] + [x] && j == if x != [] || n == 0 then n else n - 1
  }

  lemma InsertedFlat(d: seq<seq<Byte>>, k: nat, x: seq<Byte>, e: seq<seq<Byte>>, j: nat)
    requires LastData(d, k) && Inserted(d, k, x, e, j)
    ensures LastData(e, j) && Flat(e) == Flat(d) + x
  {
    FlatSolid(d, k);
    FlatConcat(d[..Solid(d, k)], [x]);
    FlatOne(x);
  }

  /** Freeing the empty chains of one buffer leaves the list of another alone. */
  method FreeApart(dst: Evbuffer, ghost b: seq<Chain>) returns (ch: Slot)
    requires dst.Core() && Linked(b) && Apart(dst.chains, b)
    modifies dst`first, dst`chains, dst`data, dst`dataIdx, dst.chains`next
    ensures dst.Core() && Linked(b) && Apart(dst.chains, b)
    ensures var n := Solid(old(dst.data), old(dst.dataIdx));
            && dst.chains == old(dst.chains)[..n] && dst.data == old(dst.data)[..n]
            && ch == SlotAt(dst, dst.chains, n) && dst.dataIdx == if n == 0 then 0 else n - 1
  {
    ch := FreeTrailingEmptyChains(dst);
    forall j | 0 <= j < |b| ensures b[j].next == At(b, j + 1) {
      assert b[j] in b && b[j] !in old(dst.chains);
      assert old(b[j].next) == At(b, j + 1);
    }
  }

  /** Frees the empty chains at the end and puts the list b behind what is left; returns the pointer to b. */
  method Join(dst: Evbuffer, c: Chain?, ghost b: seq<Chain>, ghost e: seq<seq<Byte>>) returns (chp: Slot)
    requires dst.Core()
    requires Distinct(b) && Linked(b) && Filled(b, e) && c == At(b, 0) && Apart(dst.chains, b)
    modifies dst`first, dst`chains, dst`data, dst`dataIdx, dst.chains`next
    ensures dst.Chained()
    ensures var n := Solid(old(dst.data), old(dst.dataIdx));
            && dst.chains == old(dst.chains)[..n] + b && dst.data == old(dst.data)[..n] + e
            && chp == SlotAt(dst, dst.chains, n) && dst.dataIdx == if n == 0 then 0 else n - 1
  {
    chp := FreeApart(dst, b);
    Attach(dst, chp, c, b, e);
  }

  /** Lets last_with_datap address chain n, which has data. */
  method MarkData(buf: Evbuffer, chp: Slot, ghost n: nat)
    requires buf.Chained() && n < |buf.chains| && chp == SlotAt(buf, buf.chains, n) && buf.data[n] != []
    modifies buf`lastWithDatap, buf`dataIdx
    ensures buf.Chained() && buf.dataIdx == n
  {
    buf.lastWithDatap := chp;
    buf.dataIdx := n;
  }

  /** The branch of evbuffer_chain_insert for a buffer that has chains. */
  method InsertBehind(buf: Evbuffer, chain: Chain, ghost x: seq<Byte>)
    requires buf.Core() && chain !in buf.chains && chain.Holds(x) && chain.next == null
    modifies buf`first, buf`last, buf`lastWithDatap, buf`totalLen, buf`chains, buf`data, buf`dataIdx, buf.chains`next
    ensures buf.Chained() && buf.last == chain
    ensures buf.chains == old(buf.chains)[..Solid(old(buf.data), old(buf.dataIdx))] + [chain]
    ensures Inserted(old(buf.data), old(buf.dataIdx), x, buf.data, buf.dataIdx)
    ensures buf.totalLen == old(buf.totalLen)
  {
    ghost var n := Solid(buf.data, buf.dataIdx);
    var chp := Join(buf, chain, [chain], [x]);
    if chain.off != 0 {
      MarkData(buf, chp, n);
    }
    buf.last := chain;
  }

  /** The branch for a buffer that has none. */
  method InsertFirst(buf: Evbuffer, chain: Chain, ghost x: seq<Byte>)
    requires buf.Core() && Deref(buf.lastWithDatap) == null && chain.Holds(x) && chain.next == null
    modifies buf`first, buf`last, buf`chains, buf`data
    ensures buf.Chained() && buf.last == chain
    ensures buf.chains == old(buf.chains)[..Solid(old(buf.data), old(buf.dataIdx))] + [chain]
    ensures Inserted(old(buf.data), old(buf.dataIdx), x, buf.data, buf.dataIdx)
  {
    assert buf.lastWithDatap == FirstOf(buf) && buf.first == null;
    EmptyConcat(buf.chains, [chain]);
    EmptyConcat(buf.data, [x]);
    OneLinked(chain, x);
    buf.first := chain;
    buf.last := chain;
    buf.chains, buf.data := [chain], [x];
    IsChained(buf, [chain], [x], 0);
  }

  /** evbuffer_chain_insert: adds one chain at the end, freeing the empty ones that are there. */
  method ChainInsert(buf: Evbuffer, chain: Chain, ghost x: seq<Byte>)
    requires buf.Valid() && chain !in buf.chains && chain.Holds(x) && chain.next == null
    modifies buf`first, buf`last, buf`lastWithDatap, buf`totalLen, buf`chains, buf`data, buf`dataIdx, buf.chains`next
    ensures buf.Valid()
    ensures buf.chains == old(buf.chains)[..Solid(old(buf.data), old(buf.dataIdx))] + [chain]
    ensures Inserted(old(buf.data), old(buf.dataIdx), x, buf.data, buf.dataIdx)
    ensures buf.Bytes() == old(buf.Bytes()) + x
  {
    ghost var d, k := buf.data, buf.dataIdx;
    if Deref(buf.lastWithDatap) == null {
      InsertFirst(buf, chain, x);
    } else {
      InsertBehind(buf, chain, x);
    }
    InsertedFlat(d, k, x, buf.data, buf.dataIdx);
    Seal(buf, buf.last, buf.totalLen + chain.off);
  }

  /** Sets `last` and total_len, when the rest is right. */
  method Seal(buf: Evbuffer, last: Chain?, total: nat)
    requires buf.Chained() && LastData(buf.data, buf.dataIdx)
    requires last == At(buf.chains, |buf.chains| - 1) && total == |buf.Bytes()|
    modifies buf`last, buf`totalLen
    ensures buf.Valid()
  {
    buf.last := last;
    buf.totalLen := total;
  }
}
