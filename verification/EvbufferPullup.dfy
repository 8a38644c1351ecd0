/** Making the front of a buffer contiguous. */
module EvbufferPullup {
  import opened SeqFacts
  import opened Segments
  import opened EvbufferCore
  import opened EvbufferInsert
  import opened EvbufferAdd
  import opened EvbufferPrepend
  import opened EvbufferDrain

  lemma CopyTwice(mem: seq<Byte>, at: nat, x: seq<Byte>, y: seq<Byte>)
    requires at + |x| + |y| <= |mem|
    ensures CopyTo(CopyTo(mem, at, x), at + |x|, y) == CopyTo(mem, at, x + y)
  {
  }

  lemma FlatPrefixBound(e: seq<seq<Byte>>, j: nat)
    requires j <= |e|
    ensures |Flat(e[..j])| <= |Flat(e)|
    ensures j < |e| ==> Flat(e[..j + 1]) == Flat(e[..j]) + e[j]
    ensures j == |e| ==> Flat(e[..j]) == Flat(e)
  {
    FlatSplit(e, j);
    if j < |e| {
      FlatNext(e, j);
    } else {
      assert e[..j] == e;
    }
  }

  /** memcpy of the first n bytes of chain j of the list into tmp. */
  method CopyIn(tmp: Chain, at: nat, c: Chain, n: nat, ghost rest: seq<Chain>, ghost e: seq<seq<Byte>>, ghost j: nat)
    requires Filled(rest, e) && tmp !in rest && j < |rest| && c == rest[j] && n <= |e[j]|
    requires at + n <= |tmp.mem|
    modifies tmp`mem
    ensures Filled(rest, e) && tmp.mem == CopyTo(old(tmp.mem), at, e[j][..n])
  {
    assert c.Holds(e[j]);
    SliceSlice(c.mem, c.misalign, c.misalign + c.off, 0, n);
    tmp.mem := CopyTo(tmp.mem, at, c.mem[c.misalign..c.misalign + n]);
    forall i | 0 <= i < |rest| ensures rest[i].Holds(e[i]) {
      assert rest[i] in rest && old(rest[i].Holds(e[i]));
    }
  }

  /** The copy of one whole chain. */
  method PullStep(tmp: Chain, at0: nat, at: nat, chain: Chain, ghost m: seq<Byte>,
                  ghost rest: seq<Chain>, ghost e: seq<seq<Byte>>, ghost j: nat)
    requires Filled(rest, e) && tmp !in rest && j < |rest| && chain == rest[j]
    requires at == at0 + |Flat(e[..j])| && at + chain.off <= |m| && tmp.mem == CopyTo(m, at0, Flat(e[..j]))
    modifies tmp`mem
    ensures Filled(rest, e) && at + chain.off == at0 + |Flat(e[..j + 1])|
    ensures tmp.mem == CopyTo(m, at0, Flat(e[..j + 1]))
  {
    assert rest[j].Holds(e[j]);
    FlatPrefixBound(e, j);
    CopyTwice(m, at0, Flat(e[..j]), e[j]);
    assert e[j][..|e[j]|] == e[j];
    CopyIn(tmp, at, chain, chain.off, rest, e, j);
  }

  /** The loop of evbuffer_pullup: every chain of the list that is pulled in whole is copied behind what tmp
      has, and the flags say whether one of them was the last with data, or the one whose `next` field
      last_with_datap is. */
  method PullWhole(tmp: Chain, at0: nat, size0: nat, chain0: Chain?, lastWithData: Chain?, slot: Slot,
                   ghost rest: seq<Chain>, ghost e: seq<seq<Byte>>)
    returns (chain: Chain?, at: nat, size: nat, removedLast: bool, removedDatap: bool, ghost j: nat)
    requires Linked(rest) && Filled(rest, e) && tmp !in rest && chain0 == At(rest, 0)
    requires size0 <= |Flat(e)| && at0 + size0 <= |tmp.mem|
    modifies tmp`mem
    ensures j <= |rest| && chain == At(rest, j) && (j < |rest| ==> size < |e[j]|) && Filled(rest, e)
    ensures size + |Flat(e[..j])| == size0 && at == at0 + |Flat(e[..j])|
    ensures tmp.mem == CopyTo(old(tmp.mem), at0, Flat(e[..j]))
    ensures removedLast <==> exists i :: 0 <= i < j && rest[i] == lastWithData
    ensures removedDatap <==> exists i :: 0 <= i < j && NextOf(rest[i]) == slot
  {
    chain, at, size, removedLast, removedDatap, j := chain0, at0, size0, false, false, 0;
    ghost var m := tmp.mem;
    assert e[..0] == [];
    while chain != null && size >= chain.off
      invariant j <= |rest| && chain == At(rest, j) && Filled(rest, e)
      invariant size + |Flat(e[..j])| == size0 && at == at0 + |Flat(e[..j])|
      invariant tmp.mem == CopyTo(m, at0, Flat(e[..j]))
      invariant removedLast <==> exists i :: 0 <= i < j && rest[i] == lastWithData
      invariant removedDatap <==> exists i :: 0 <= i < j && NextOf(rest[i]) == slot
      decreases |rest| - j
    {
      assert rest[j].next == At(rest, j + 1);
      PullStep(tmp, at0, at, chain, m, rest, e, j);
      size := size - chain.off;
      at := at + chain.off;
      removedLast := removedLast || chain == lastWithData;
      removedDatap := removedDatap || NextOf(chain) == slot;
      chain := chain.next;
      j := j + 1;
    }
    if j < |rest| {
      assert rest[j].Holds(e[j]);
    }
  }

  ghost function LeftAt(e: seq<seq<Byte>>, j: nat, n: nat): seq<seq<Byte>>
    requires j < |e| ==> n <= |e[j]|
  {
    if j < |e| then Left(e, j, n) else []
  }

  /** What is pulled and what is left are the whole. */
  lemma PulledBytes(e: seq<seq<Byte>>, j: nat, n: nat, size0: nat)
    requires j <= |e| && (j < |e| ==> n < |e[j]|) && n + |Flat(e[..j])| == size0 <= |Flat(e)|
    ensures Flat(e[..j]) + (if j < |e| then e[j][..n] else []) == Flat(e)[..size0]
    ensures Flat(LeftAt(e, j, n)) == Flat(e)[size0..]
  {
    FlatPrefixBound(e, j);
    if j < |e| {
      LeftBytes(e, j, n);
    }
  }

  lemma PulledLast(x: seq<Byte>, e: seq<seq<Byte>>, k: nat, j: nat, n: nat)
    requires LastData(e, k) && k < |e| && e[k] != [] && x != []
    requires j <= |e| && (j < |e| ==> n < |e[j]|)
    ensures LastData([x] + LeftAt(e, j, n), if j > k then 0 else 1 + k - j)
    ensures j > k ==> j == |e|
  {
  }

  /** The loop, the copy of a part of the chain it stops at, and the link to that chain. */
  method PullRest(tmp: Chain, at0: nat, size0: nat, chain0: Chain?, lastWithData: Chain?, slot: Slot,
                  ghost rest: seq<Chain>, ghost e: seq<seq<Byte>>)
    returns (chain: Chain?, removedLast: bool, removedDatap: bool, ghost j: nat, ghost n: nat)
    requires Distinct(rest) && Linked(rest) && Filled(rest, e) && tmp !in rest && chain0 == At(rest, 0)
    requires size0 <= |Flat(e)| && at0 + size0 <= |tmp.mem|
    modifies tmp`mem, tmp`next, rest`misalign, rest`off
    ensures j <= |rest| && chain == At(rest, j) && (j < |rest| ==> n < |e[j]|)
    ensures Flat(LeftAt(e, j, n)) == Flat(e)[size0..]
    ensures tmp.mem == CopyTo(old(tmp.mem), at0, Flat(e)[..size0]) && unchanged(tmp`misalign, tmp`off)
    ensures tmp.next == chain && Linked(rest) && Filled(rest[j..], LeftAt(e, j, n))
    ensures removedLast <==> exists i :: 0 <= i < j && rest[i] == lastWithData
    ensures removedDatap <==> exists i :: 0 <= i < j && NextOf(rest[i]) == slot
  {
    var at, size;
    chain, at, size, removedLast, removedDatap, j :=
      PullWhole(tmp, at0, size0, chain0, lastWithData, slot, rest, e);
    n := size;
    PulledBytes(e, j, n, size0);
    SuffixFilled(rest, e, j);
    if chain != null {
      CopyTwice(old(tmp.mem), at0, Flat(e[..j]), e[j][..n]);
      CopyIn(tmp, at, chain, size, rest, e, j);
      SuffixLinked(rest, j);
      SuffixFilled(rest, e, j);
      TrimFirst(chain, size, rest[j..], e[j..]);
    }
    tmp.next := chain;
    assert Linked(rest);
  }

  /** The new list: tmp before the chains that are left. */
  method RelistPulled(buf: Evbuffer, tmp: Chain, ghost x: seq<Byte>, ghost rest: seq<Chain>, ghost l: seq<seq<Byte>>)
    requires Distinct(rest) && Linked(rest) && Filled(rest, l) && tmp !in rest
    requires buf.first == tmp && tmp.next == At(rest, 0) && tmp.Holds(x)
    modifies buf`chains, buf`data
    ensures Distinct(buf.chains) && Linked(buf.chains) && Filled(buf.chains, buf.data)
    ensures buf.first == At(buf.chains, 0) && buf.chains == [tmp] + rest && buf.data == [x] + l
  {
    ConsLinked(tmp, rest);
    ConcatFilled([tmp], [x], rest, l);
    buf.chains, buf.data := [tmp] + rest, [x] + l;
  }

  /** Where last_with_datap goes: chain k of the list was the last with data, and j chains are gone. */
  method RepairSlot(buf: Evbuffer, tmp: Chain, removedLast: bool, removedDatap: bool,
                    ghost rest: seq<Chain>, ghost j: nat, ghost k: nat)
    requires Distinct(rest) && Distinct(buf.chains) && Linked(buf.chains) && Filled(buf.chains, buf.data)
    requires buf.first == tmp && j <= |rest| && k < |rest| && buf.chains == [tmp] + rest[j..] && tmp !in rest
    requires buf.lastWithDatap == if k == 0 then NextOf(tmp) else NextOf(rest[k - 1])
    requires removedLast <==> k < j
    requires removedDatap <==> 0 < k <= j
    requires j <= k ==> buf.data[1 + k - j] != []
    modifies buf`lastWithDatap, buf`dataIdx
    ensures buf.dataIdx == if j > k then 0 else 1 + k - j
    ensures buf.Chained()
  {
    if removedLast {
      buf.lastWithDatap := FirstOf(buf);
    } else if removedDatap {
      assert tmp == buf.chains[0] && buf.chains[0].next == At(buf.chains, 1);
      assert buf.chains[1].Holds(buf.data[1]);
      buf.lastWithDatap :=
        if buf.first.next != null && buf.first.next.off != 0 then NextOf(buf.first) else FirstOf(buf);
    }
    buf.dataIdx := if j > k then 0 else 1 + k - j;
  }

  /** The place of a chain in the list decides whether it was passed. */
  lemma PassedIff(rest: seq<Chain>, k: nat, j: nat, tmp: Chain, slot: Slot)
    requires Distinct(rest) && k < |rest| && j <= |rest| && tmp !in rest
    requires slot == if k == 0 then NextOf(tmp) else NextOf(rest[k - 1])
    ensures (exists i :: 0 <= i < j && rest[i] == rest[k]) <==> k < j
    ensures (exists i :: 0 <= i < j && NextOf(rest[i]) == slot) <==> 0 < k <= j
  {
    assert k < j ==> rest[k] == rest[k];
    assert 0 < k <= j ==> NextOf(rest[k - 1]) == slot;
  }

  /** Pulling behind the bytes x0 that tmp has. */
  method PullBehind(tmp: Chain, at: nat, size: nat, chain0: Chain?, lastWithData: Chain?, slot: Slot,
                    ghost x0: seq<Byte>, ghost rest: seq<Chain>, ghost e: seq<seq<Byte>>)
    returns (chain: Chain?, removedLast: bool, removedDatap: bool, ghost j: nat, ghost n: nat)
    requires Distinct(rest) && Linked(rest) && Filled(rest, e) && tmp !in rest && chain0 == At(rest, 0)
    requires size <= |Flat(e)| && at + size <= |tmp.mem| && !tmp.immutable
    requires tmp.misalign + |x0| == at && tmp.off == |x0| + size && tmp.mem[tmp.misalign..at] == x0
    modifies tmp`mem, tmp`next, rest`misalign, rest`off
    ensures j <= |rest| && chain == At(rest, j) && (j < |rest| ==> n < |e[j]|)
    ensures Flat(LeftAt(e, j, n)) == Flat(e)[size..]
    ensures tmp.Holds(x0 + Flat(e)[..size]) && tmp.next == chain
    ensures Linked(rest) && Filled(rest[j..], LeftAt(e, j, n))
    ensures removedLast <==> exists i :: 0 <= i < j && rest[i] == lastWithData
    ensures removedDatap <==> exists i :: 0 <= i < j && NextOf(rest[i]) == slot
  {
    CopyBehind(tmp.mem, tmp.misalign, at, Flat(e)[..size]);
    chain, removedLast, removedDatap, j, n := PullRest(tmp, at, size, chain0, lastWithData, slot, rest, e);
  }

  /** The end of evbuffer_pullup: the lists and pointers of the buffer. */
  method FinishPull(buf: Evbuffer, tmp: Chain, chain: Chain?, removedLast: bool, removedDatap: bool,
                    ghost x: seq<Byte>, ghost rest: seq<Chain>, ghost e: seq<seq<Byte>>,
                    ghost k: nat, ghost j: nat, ghost n: nat)
    requires Distinct(rest) && Linked(rest) && tmp !in rest && tmp.Holds(x) && x != []
    requires LastData(e, k) && k < |rest| == |e| && e[k] != []
    requires j <= |rest| && chain == At(rest, j) && tmp.next == chain && (j < |rest| ==> n < |e[j]|)
    requires Filled(rest[j..], LeftAt(e, j, n))
    requires removedLast <==> exists i :: 0 <= i < j && rest[i] == rest[k]
    requires removedDatap <==> exists i :: 0 <= i < j && NextOf(rest[i]) == buf.lastWithDatap
    requires buf.first == tmp && buf.last == rest[|rest| - 1]
    requires buf.totalLen == |x| + |Flat(LeftAt(e, j, n))|
    requires buf.lastWithDatap == (if k == 0 then NextOf(tmp) else NextOf(rest[k - 1]))
    modifies buf`first, buf`last, buf`lastWithDatap, buf`totalLen, buf`chains, buf`data, buf`dataIdx
    ensures buf.Valid() && buf.Bytes() == x + Flat(LeftAt(e, j, n)) && buf.first == tmp
    ensures forall c | c in buf.chains :: c == tmp || c in rest
  {
    PassedIff(rest, k, j, tmp, buf.lastWithDatap);
    RelistAndRepair(buf, tmp, removedLast, removedDatap, x, rest, e, k, j, n);
    Seal(buf, if chain == null then tmp else buf.last, buf.totalLen);
  }

  /** The list first, then last_with_datap. */
  method RelistAndRepair(buf: Evbuffer, tmp: Chain, removedLast: bool, removedDatap: bool, ghost x: seq<Byte>,
                         ghost rest: seq<Chain>, ghost e: seq<seq<Byte>>, ghost k: nat, ghost j: nat, ghost n: nat)
    requires Distinct(rest) && Linked(rest) && tmp !in rest && tmp.Holds(x) && x != []
    requires LastData(e, k) && k < |rest| == |e| && e[k] != []
    requires j <= |rest| && tmp.next == At(rest, j) && (j < |rest| ==> n < |e[j]|)
    requires Filled(rest[j..], LeftAt(e, j, n))
    requires (removedLast <==> k < j) && (removedDatap <==> 0 < k <= j) && buf.first == tmp
    requires buf.lastWithDatap == (if k == 0 then NextOf(tmp) else NextOf(rest[k - 1]))
    modifies buf`lastWithDatap, buf`chains, buf`data, buf`dataIdx
    ensures buf.Chained() && LastData(buf.data, buf.dataIdx) && buf.chains == [tmp] + rest[j..]
    ensures buf.Bytes() == x + Flat(LeftAt(e, j, n))
  {
    ghost var l := LeftAt(e, j, n);
    SuffixLinked(rest, j);
    PulledLast(x, e, k, j, n);
    FlatConcat([x], l);
    FlatOne(x);
    RelistPulled(buf, tmp, x, rest[j..], l);
    RepairSlot(buf, tmp, removedLast, removedDatap, rest, j, k);
  }

  /** tmp, the first chain, has the bytes x0 and room behind them for `size` bytes of the chains that follow. */
  method PullInto(buf: Evbuffer, tmp: Chain, at: nat, size: nat, chain0: Chain?, ghost x0: seq<Byte>,
                  ghost rest: seq<Chain>, ghost e: seq<seq<Byte>>, ghost k: nat)
    requires Distinct(rest) && Linked(rest) && Filled(rest, e) && tmp !in rest && chain0 == At(rest, 0)
    requires LastData(e, k) && k < |rest| && e[k] != []
    requires buf.first == tmp && buf.last == rest[|rest| - 1] && buf.totalLen == |x0| + |Flat(e)|
    requires buf.lastWithDatap == (if k == 0 then NextOf(tmp) else NextOf(rest[k - 1]))
    requires k == 0 ==> tmp.next == chain0
    requires 0 < size <= |Flat(e)| && at + size <= |tmp.mem| && !tmp.immutable
    requires tmp.misalign + |x0| == at && tmp.off == |x0| + size && tmp.mem[tmp.misalign..at] == x0
    modifies buf`first, buf`last, buf`lastWithDatap, buf`totalLen, buf`chains, buf`data, buf`dataIdx, tmp`mem,
             tmp`next, rest`misalign, rest`off
    ensures buf.Valid() && buf.Bytes() == x0 + Flat(e) && buf.first == tmp
    ensures tmp.Holds(x0 + Flat(e)[..size])
    ensures forall c | c in buf.chains :: c == tmp || c in rest
  {
    assert k > 0 ==> rest[k - 1].next == At(rest, k);
    var lastWithData := Deref(buf.lastWithDatap);
    assert lastWithData == rest[k];
    var chain, removedLast, removedDatap;
    ghost var j, n;
    chain, removedLast, removedDatap, j, n :=
      PullBehind(tmp, at, size, chain0, lastWithData, buf.lastWithDatap, x0, rest, e);
    FinishPull(buf, tmp, chain, removedLast, removedDatap, x0 + Flat(e)[..size], rest, e, k, j, n);
    Rejoin(x0, Flat(e), size);
  }

  lemma Rejoin(a: seq<Byte>, s: seq<Byte>, n: nat)
    requires n <= |s|
    ensures a + s[..n] + s[n..] == a + s
  {
  }

  /** More bytes than the first chain has: the last chain with data is another one. */
  lemma DataBehindFirst(d: seq<seq<Byte>>, k: nat, size: nat)
    requires LastData(d, k) && d != [] && |d[0]| < size <= |Flat(d)|
    ensures 0 < k < |d| && d[k] != []
    ensures Flat(d) == d[0] + Flat(d[1..]) && LastData(d[1..], k - 1)
  {
    FlatToLast(d, k);
    assert d[..0] == [];
  }

  /** The case where the first chain has room for all the bytes. */
  method PullInPlace(buf: Evbuffer, chain: Chain, size: nat)
    requires buf.Valid() && buf.chains != [] && chain == buf.chains[0]
    requires chain.off < size <= buf.totalLen && size <= |chain.mem| - chain.misalign
    modifies buf`first, buf`last, buf`lastWithDatap, buf`totalLen, buf`chains, buf`data, buf`dataIdx, buf.chains
    ensures buf.Valid() && buf.Bytes() == old(buf.Bytes()) && buf.first == chain
    ensures chain.Holds(buf.Bytes()[..size])
    ensures forall c | c in buf.chains :: c in old(buf.chains)
  {
    ghost var cs, d, k := buf.chains, buf.data, buf.dataIdx;
    assert chain.Holds(d[0]) && chain.next == At(cs, 1);
    DataBehindFirst(d, k, size);
    SuffixLinked(cs, 1);
    SuffixFilled(cs, d, 1);
    var oldOff := chain.off;
    SetOff(chain, size, cs[1..], d[1..]);
    PullInto(buf, chain, chain.misalign + oldOff, size - oldOff, chain.next, d[0], cs[1..], d[1..], k - 1);
    TakeConcat(d[0], Flat(d[1..]), size - oldOff);
  }

  lemma TakeConcat(a: seq<Byte>, b: seq<Byte>, n: nat)
    requires n <= |b|
    ensures a + b[..n] == (a + b)[..|a| + n]
  {
  }

  method SetOff(c: Chain, size: nat, ghost rest: seq<Chain>, ghost e: seq<seq<Byte>>)
    requires Filled(rest, e) && c !in rest
    modifies c`off
    ensures Filled(rest, e) && c.off == size
  {
    c.off := size;
    forall i | 0 <= i < |rest| ensures rest[i].Holds(e[i]) {
      assert rest[i] in rest && old(rest[i].Holds(e[i]));
    }
  }

  /** The case where a new chain takes the bytes. */
  method PullFresh(buf: Evbuffer, tmp: Chain, size: nat)
    requires buf.Valid() && buf.chains != [] && |buf.data[0]| < size <= buf.totalLen
    requires tmp !in buf.chains && !tmp.immutable && tmp.misalign == 0 && tmp.off == 0 && size <= |tmp.mem|
    modifies buf`first, buf`last, buf`lastWithDatap, buf`totalLen, buf`chains, buf`data, buf`dataIdx, buf.chains, tmp
    ensures buf.Valid() && buf.Bytes() == old(buf.Bytes()) && buf.first == tmp
    ensures tmp.Holds(buf.Bytes()[..size])
    ensures forall c | c in buf.chains :: c in old(buf.chains) || c == tmp
  {
    ghost var cs, d, k := buf.chains, buf.data, buf.dataIdx;
    DataBehindFirst(d, k, size);
    var chain := buf.first;
    SetOff(tmp, size, cs, d);
    buf.first := tmp;
    PullInto(buf, tmp, 0, size, chain, [], cs, d, k);
    TakeConcat([], Flat(d), size);
    EmptyConcat([], Flat(d));
  }

  /** evbuffer_pullup: the bytes stay what they are, and when a chain is returned it is the first one and
      holds the first `size` bytes (all of them if size is negative). */
  method Pullup(buf: Evbuffer, size0: int, short: bool) returns (result: Chain?)
    requires buf.Valid()
    modifies buf`first, buf`last, buf`lastWithDatap, buf`totalLen, buf`chains, buf`data, buf`dataIdx, buf.chains
    ensures buf.Valid() && buf.Bytes() == old(buf.Bytes())
    ensures var size := if size0 < 0 then |buf.Bytes()| else size0;
            && (result != null ==>
                  && result == buf.first && 0 < size <= |buf.Bytes()|
                  && result.misalign + size <= |result.mem| && size <= result.off
                  && result.mem[result.misalign..result.misalign + size] == buf.Bytes()[..size])
            && (result == null <==>
                  size == 0 || size > |buf.Bytes()|
                  || (old(TooSmall(buf, size)) && (short || size > CHAIN_MAX - CHAIN_SIZE)))
    ensures forall c | c in buf.chains :: c in old(buf.chains) || fresh(c)
  {
    var chain := buf.first;
    var size := if size0 < 0 then buf.totalLen else size0;
    if size == 0 || size > buf.totalLen {
      return null;
    }
    assert chain != null && chain.Holds(buf.data[0]);
    if chain.off >= size {
      FirstChain(buf, size);
      return chain;
    }
    result := Gather(buf, chain, size, short);
    if result != null {
      HeldFront(result, buf.Bytes()[..size]);
    }
  }

  lemma HeldFront(c: Chain, d: seq<Byte>)
    requires c.Holds(d)
    ensures c.misalign + |d| <= |c.mem| && |d| == c.off && c.mem[c.misalign..c.misalign + |d|] == d
  {
  }

  /** More bytes than the first chain has are put together, in it or in a new one. */
  method Gather(buf: Evbuffer, chain: Chain, size: nat, short: bool) returns (result: Chain?)
    requires buf.Valid() && buf.chains != [] && chain == buf.chains[0] && chain.off < size <= buf.totalLen
    modifies buf`first, buf`last, buf`lastWithDatap, buf`totalLen, buf`chains, buf`data, buf`dataIdx, buf.chains
    ensures buf.Valid() && buf.Bytes() == old(buf.Bytes())
    ensures result != null ==> result == buf.first && size <= |buf.Bytes()| && result.Holds(buf.Bytes()[..size])
    ensures result == null <==>
            |old(chain.mem)| - old(chain.misalign) < size && (short || size > CHAIN_MAX - CHAIN_SIZE)
    ensures forall c | c in buf.chains :: c in old(buf.chains) || fresh(c)
  {
    assert chain.Holds(buf.data[0]);
    if |chain.mem| - chain.misalign >= size {
      PullInPlace(buf, chain, size);
      result := chain;
    } else {
      result := ChainNew(size, short);
      if result != null {
        PullFresh(buf, result, size);
      }
    }
  }

  /** The first chain neither has the bytes nor room for them. */
  ghost predicate TooSmall(buf: Evbuffer, size: int)
    reads buf, buf.chains
  {
    buf.chains != [] && buf.chains[0].off < size && |buf.chains[0].mem| - buf.chains[0].misalign < size
  }

  lemma FirstChain(buf: Evbuffer, size: nat)
    requires buf.Valid() && buf.chains != [] && size <= |buf.data[0]|
    ensures var c := buf.chains[0];
            && size <= |buf.Bytes()| && c.misalign + size <= |c.mem|
            && c.mem[c.misalign..c.misalign + size] == buf.Bytes()[..size]
  {
    var c := buf.chains[0];
    assert c.Holds(buf.data[0]);
    SliceSlice(c.mem, c.misalign, c.misalign + c.off, 0, size);
    FlatAround(buf.data, 0, buf.data[0]);
    assert buf.data[..0] == [];
  }
}
