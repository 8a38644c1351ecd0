/** Space at the end of a buffer that a caller fills itself: making it, and committing what was written. */
module EvbufferReserve {
  import opened Wrappers
  import opened SeqFacts
  import opened Segments
  import opened EvbufferCore
  import opened EvbufferInsert
  import opened EvbufferAdd
  import opened EvbufferRemove

  const MAX_TO_COPY: nat := 4096

  // ----- making space -----

  /** c is a writable chain of the buffer with n bytes of space, behind all data. */
  ghost predicate HasRoom(buf: Evbuffer, c: Chain, n: nat)
    requires buf.Chained()
    reads buf, buf.chains
  {
    exists r :: buf.dataIdx <= r < |buf.chains| && buf.chains[r] == c && !c.immutable && c.Space() >= n
  }

  /** evbuffer_chain_insert_new. */
  method ChainInsertNew(buf: Evbuffer, n: nat, short: bool) returns (c: Chain?)
    requires buf.Valid()
    modifies buf`first, buf`last, buf`lastWithDatap, buf`totalLen, buf`chains, buf`data, buf`dataIdx, buf.chains`next
    ensures buf.Valid() && buf.Bytes() == old(buf.Bytes())
    ensures c == null <==> short || n > CHAIN_MAX - CHAIN_SIZE
    ensures c != null ==> HasRoom(buf, c, n) && c == buf.last
    ensures forall c | c in buf.chains :: c in old(buf.chains) || fresh(c)
  {
    c := ChainNew(n, short);
    if c != null {
      ChainInsert(buf, c, []);
      assert buf.chains[|buf.chains| - 1] == c;
    }
  }

  /** tmp, linked to what follows chain k, takes its place. */
  lemma ReplacedLinked(cs: seq<Chain>, k: nat, tmp: Chain)
    requires k < |cs| && Distinct(cs) && tmp !in cs
    requires forall i {:trigger cs[i].next} | 0 <= i < |cs| && i != k - 1 :: cs[i].next == At(cs, i + 1)
    requires tmp.next == At(cs, k + 1) && (k > 0 ==> cs[k - 1].next == tmp)
    ensures Distinct(cs[k := tmp]) && Linked(cs[k := tmp])
  {
  }

  /** The chain through chainp is replaced; its bytes are in tmp already. */
  method ReplaceChain(buf: Evbuffer, chainp: Slot, chain: Chain, tmp: Chain, ghost k: nat)
    requires buf.Chained() && k == buf.dataIdx < |buf.chains| && chain == buf.chains[k]
    requires chainp == buf.lastWithDatap
    requires tmp !in buf.chains && tmp.Holds(buf.data[k])
    modifies buf`first, buf`chains, buf.chains`next, tmp`next
    ensures buf.Chained() && buf.chains == old(buf.chains)[k := tmp]
  {
    ghost var cs, d := buf.chains, buf.data;
    assert cs[k].next == At(cs, k + 1);
    tmp.next := chain.next;
    match chainp {
      case FirstOf(b) => b.first := tmp;
      case NextOf(c) => c.next := tmp;
    }
    ReplacedLinked(cs, k, tmp);
    buf.chains := cs[k := tmp];
    assert Filled(cs, d);
  }

  method SwapIn(buf: Evbuffer, chainp: Slot, chain: Chain, tmp: Chain, ghost k: nat)
    requires buf.Valid() && k == buf.dataIdx < |buf.chains| && chain == buf.chains[k]
    requires chainp == buf.lastWithDatap && tmp !in buf.chains && tmp.Holds(buf.data[k])
    modifies buf`first, buf`last, buf`totalLen, buf`chains, buf.chains`next, tmp`next
    ensures buf.Valid() && buf.chains == old(buf.chains)[k := tmp]
  {
    var last := if buf.last == chain then tmp else buf.last;
    ReplaceChain(buf, chainp, chain, tmp, k);
    Seal(buf, last, buf.totalLen);
  }

  /** Puts a bigger chain with the same bytes in the place of the last one with data. */
  method Resize(buf: Evbuffer, chainp: Slot, chain: Chain, datlen: nat, short: bool) returns (tmp: Chain?)
    requires buf.Valid() && chainp == buf.lastWithDatap
    requires buf.dataIdx < |buf.chains| && chain == buf.chains[buf.dataIdx]
    modifies buf`first, buf`last, buf`totalLen, buf`chains, buf.chains`next
    ensures buf.Valid() && (tmp == null <==> short || chain.off + datlen > CHAIN_MAX - CHAIN_SIZE)
    ensures tmp == null ==> buf.chains == old(buf.chains)
    ensures tmp != null ==> fresh(tmp) && buf.chains == old(buf.chains)[buf.dataIdx := tmp]
    ensures tmp != null ==> HasRoom(buf, tmp, datlen)
  {
    ghost var k, d := buf.dataIdx, buf.data;
    assert chain.Holds(d[k]);
    tmp := ChainNew(chain.off + datlen, short);
    if tmp == null {
      return;
    }
    FillNew(tmp, chain.mem[chain.misalign..chain.misalign + chain.off]);
    SwapIn(buf, chainp, chain, tmp, k);
    assert buf.chains[k] == tmp;
  }

  /** The chain to write to first: the last one with data, or the one behind it if that is full. */
  ghost function FirstWithSpace(buf: Evbuffer): nat
    requires buf.Valid()
    reads buf, buf.chains
  {
    if buf.chains != [] && buf.chains[buf.dataIdx].Space() == 0 then buf.dataIdx + 1 else buf.dataIdx
  }

  predicate Fits(r: Room, n: nat) {
    r.Room? && !r.immutable && r.size - (r.misalign + r.off) >= n
  }

  /** The chain has data, and moving them to the front of its memory is worthwhile and enough. */
  predicate Realigns(r: Room, n: nat) {
    r.Room? && !r.immutable && r.off > 0 && r.size - r.off >= n && r.off < r.size / 2 && r.off <= 2048
  }

  /** The chain has data, and copying them into a bigger chain is worthwhile. */
  predicate Resizes(r: Room, n: nat) {
    && r.Room? && !r.immutable && r.off > 0
    && r.size - (r.misalign + r.off) >= r.size / 8 && r.off <= 4096 && n < CHAIN_MAX - r.off
  }

  /** What evbuffer_expand_singlechain needs, given the chain to write to first and the one behind it: one of
      them will do, or memory can be had for a new chain or for a bigger copy of the first. */
  predicate CanExpand(c: Room, d: Room, n: nat, short: bool) {
    || Fits(c, n) || Realigns(c, n)
    || (c.Room? && !c.immutable && c.off > 0 && !Resizes(c, n) && Fits(d, n))
    || (!short && n + (if Resizes(c, n) then c.off else 0) <= CHAIN_MAX - CHAIN_SIZE)
  }

  /** While memory lasts, space can be made: for any n up to what a chain can hold behind 4096 bytes. */
  lemma ExpandSucceeds(c: Room, d: Room, n: nat)
    requires n <= CHAIN_MAX - CHAIN_SIZE - 4096
    ensures CanExpand(c, d, n, false)
  {
  }

  /** The limits of what is worthwhile, at their edges: half of the chain and 2048 bytes for moving data to the
      front, an eighth of the chain left and 4096 bytes for copying them. */
  lemma ExpandEdges()
    ensures Realigns(Room(false, 8192, 6000, 2048), 1000) && !Realigns(Room(false, 8192, 6000, 2049), 1000)
    ensures Realigns(Room(false, 1000, 400, 499), 200) && !Realigns(Room(false, 1000, 400, 500), 200)
    ensures Resizes(Room(false, 800, 0, 700), 200) && !Resizes(Room(false, 800, 0, 701), 200)
    ensures Resizes(Room(false, 8192, 0, 4096), 5000) && !Resizes(Room(false, 8192, 0, 4097), 5000)
  {
  }

  /** c is the first chain with space or the last chain. */
  ghost predicate Foremost(buf: Evbuffer, c: Chain)
    requires buf.Valid()
    reads buf, buf.chains
  {
    c == buf.last || (FirstWithSpace(buf) < |buf.chains| && c == buf.chains[FirstWithSpace(buf)])
  }

  /** The case in which the chain behind the first one with space is used, though it is not the last: the first
      one has some space, but not enough, and making more is not worthwhile. */
  predicate PassesOver(c: Room, d: Room, n: nat, more: bool) {
    && c.Room? && !c.immutable && c.off > 0 && !Fits(c, n) && !Realigns(c, n) && !Resizes(c, n)
    && Fits(d, n) && more
  }

  /** evbuffer_expand_singlechain: the bytes stay as they are, and the chain returned has n bytes of space
      behind all of them. */
  method ExpandSinglechain(buf: Evbuffer, datlen: nat, short: bool) returns (result: Chain?)
    requires buf.Valid()
    modifies buf`first, buf`last, buf`lastWithDatap, buf`totalLen, buf`chains, buf`data, buf`dataIdx, buf.chains
    ensures buf.Valid() && buf.Bytes() == old(buf.Bytes())
    ensures result != null ==> HasRoom(buf, result, datlen)
    ensures result != null <==>
            old(var k := FirstWithSpace(buf);
                CanExpand(RoomIn(At(buf.chains, k)), RoomIn(At(buf.chains, k + 1)), datlen, short))
    ensures result != null ==>
              (Foremost(buf, result) <==>
               !old(var k := FirstWithSpace(buf);
                    PassesOver(RoomIn(At(buf.chains, k)), RoomIn(At(buf.chains, k + 1)), datlen, k + 2 < |buf.chains|)))
    ensures forall c | c in buf.chains :: c in old(buf.chains) || fresh(c)
  {
    ghost var k := FirstWithSpace(buf);
    ghost var here, behind := RoomIn(At(buf.chains, k)), RoomIn(At(buf.chains, k + 1));
    var chainp := buf.lastWithDatap;
    if Deref(chainp) != null && Deref(chainp).Space() == 0 {
      assert buf.chains[buf.dataIdx].next == At(buf.chains, k);
      chainp := NextOf(Deref(chainp));
    }
    var chain := Deref(chainp);
    assert chain == At(buf.chains, k);
    if chain == null || chain.immutable {
      result := ChainInsertNew(buf, datlen, short);
    } else {
      result := ExpandAt(buf, chainp, chain, datlen, short, k, here, behind, k + 2 < |buf.chains|);
    }
  }

  /** The rest of it for a chain that is not immutable. */
  method ExpandAt(buf: Evbuffer, chainp: Slot, chain: Chain, datlen: nat, short: bool,
                  ghost k: nat, ghost here: Room, ghost behind: Room, ghost more: bool)
    returns (result: Chain?)
    requires buf.Valid() && buf.dataIdx <= k < |buf.chains| && chain == buf.chains[k] && !chain.immutable
    requires k == FirstWithSpace(buf) && more == (k + 2 < |buf.chains|)
    requires k == buf.dataIdx ==> chainp == buf.lastWithDatap
    requires here == RoomIn(chain) && behind == RoomIn(At(buf.chains, k + 1))
    modifies buf`first, buf`last, buf`lastWithDatap, buf`totalLen, buf`chains, buf`data, buf`dataIdx, buf.chains
    ensures buf.Valid() && buf.Bytes() == old(buf.Bytes())
    ensures result != null ==> HasRoom(buf, result, datlen)
    ensures result != null <==> CanExpand(here, behind, datlen, short)
    ensures result != null ==> (Foremost(buf, result) <==> !PassesOver(here, behind, datlen, more))
    ensures forall c | c in buf.chains :: c in old(buf.chains) || fresh(c)
  {
    assert chain.Holds(buf.data[k]) && chain.next == At(buf.chains, k + 1);
    if chain.Space() >= datlen {
      return chain;
    }
    if chain.off == 0 {
      result := ChainInsertNew(buf, datlen, short);
      return;
    }
    assert k == buf.dataIdx;
    if ShouldRealign(chain, datlen) {
      AlignChain(buf, chain, k);
      assert chain.Holds(buf.data[k]);
      return chain;
    }
    result := ReplaceOrGrow(buf, chainp, chain, datlen, short, here, behind, more);
  }

  /** The last decision: a bigger copy of the chain, the one behind it, or a new one. */
  method ReplaceOrGrow(buf: Evbuffer, chainp: Slot, chain: Chain, datlen: nat, short: bool,
                       ghost here: Room, ghost behind: Room, ghost more: bool)
    returns (result: Chain?)
    requires buf.Valid() && buf.dataIdx < |buf.chains| && chain == buf.chains[buf.dataIdx]
    requires buf.dataIdx == FirstWithSpace(buf) && more == (buf.dataIdx + 2 < |buf.chains|)
    requires chainp == buf.lastWithDatap && !chain.immutable && chain.off > 0
    requires here == RoomIn(chain) && behind == RoomIn(At(buf.chains, buf.dataIdx + 1))
    requires !Fits(here, datlen) && !Realigns(here, datlen)
    modifies buf`first, buf`last, buf`lastWithDatap, buf`totalLen, buf`chains, buf`data, buf`dataIdx, buf.chains`next
    ensures buf.Valid() && buf.Bytes() == old(buf.Bytes())
    ensures result != null ==> HasRoom(buf, result, datlen)
    ensures result != null <==> CanExpand(here, behind, datlen, short)
    ensures result != null ==> (Foremost(buf, result) <==> !PassesOver(here, behind, datlen, more))
    ensures forall c | c in buf.chains :: c in old(buf.chains) || fresh(c)
  {
    ghost var k := buf.dataIdx;
    assert chain.Holds(buf.data[k]) && chain.next == At(buf.chains, k + 1);
    if chain.Space() < |chain.mem| / 8 || chain.off > MAX_TO_COPY || datlen >= CHAIN_MAX - chain.off {
      if chain.next != null && chain.next.Space() >= datlen {
        assert buf.chains[k + 1].Holds(buf.data[k + 1]);
        assert buf.last == buf.chains[|buf.chains| - 1];
        return chain.next;
      }
      result := ChainInsertNew(buf, datlen, short);
    } else {
      result := Resize(buf, chainp, chain, datlen, short);
    }
  }

  // ----- committing space -----

  /** A piece of the space of a chain that the caller has filled. */
  datatype IoVec = IoVec(chain: Chain, at: nat, len: nat)

  /** The pointer is the beginning of the space of c, and the length stays within it. */
  predicate Within(v: IoVec, c: Chain)
    reads c
  {
    v.chain == c && v.at == c.misalign + c.off && v.len <= c.Space()
  }

  /** What the caller has written there. */
  ghost function Written(v: IoVec): seq<Byte>
    reads v.chain`mem
  {
    if v.at + v.len <= |v.chain.mem| then v.chain.mem[v.at..v.at + v.len] else []
  }

  ghost function Pieces(vec: seq<IoVec>): (w: seq<seq<Byte>>)
    reads set v | v in vec :: v.chain`mem
    ensures |w| == |vec| && forall i | 0 <= i < |vec| :: w[i] == Written(vec[i])
  {
    if vec == [] then [] else Pieces(vec[..|vec| - 1]) + [Written(vec[|vec| - 1])]
  }

  method GrowHeld(c: Chain, len: nat, ghost d: seq<Byte>, ghost x: seq<Byte>)
    requires c.Holds(d) && c.misalign + c.off + len <= |c.mem| && (c.immutable ==> len == 0)
    requires x == c.mem[c.misalign + c.off..c.misalign + c.off + len]
    modifies c`off
    ensures c.Holds(d + x)
  {
    Adjacent(c.mem, c.misalign, c.misalign + c.off, len);
    c.off := c.off + len;
  }

  /** The bytes behind those of chain m become bytes of it. */
  method ExtendChain(buf: Evbuffer, c: Chain, v: IoVec, ghost m: nat)
    requires buf.Chained() && m < |buf.chains| && c == buf.chains[m] && Within(v, c)
    modifies buf`data, c`off
    ensures buf.Chained() && buf.data == old(buf.data)[m := old(buf.data)[m] + Written(v)]
  {
    ghost var cs, d := buf.chains, buf.data;
    assert c.Holds(d[m]);
    ghost var x := Written(v);
    GrowHeld(c, v.len, d[m], x);
    forall j | 0 <= j < |cs| && j != m ensures cs[j].Holds(d[j]) {
      assert old(cs[j].Holds(d[j]));
    }
    buf.data := d[m := d[m] + x];
    assert cs[m].Holds(buf.data[m]);
    assert Filled(cs, buf.data);
  }

  lemma Adjacent(mem: seq<Byte>, from: nat, at: nat, n: nat)
    requires from <= at && at + n <= |mem|
    ensures mem[from..at + n] == mem[from..at] + mem[at..at + n]
  {
  }

  lemma GrowAt(d: seq<seq<Byte>>, m: nat, x: seq<Byte>)
    requires m < |d| && forall j | m < j < |d| :: d[j] == []
    ensures Flat(d[m := d[m] + x]) == Flat(d) + x
  {
    FlatAround(d, m, d[m] + x);
    FlatEmpty(d[m + 1..]);
    assert Flat(d[..m]) + (d[m] + x) + [] == Flat(d[..m]) + d[m] + [] + x;
  }

  /** Commits a piece of chain m, which has no data behind it. */
  method CommitChain(buf: Evbuffer, chainp: Slot, c: Chain, v: IoVec, ghost m: nat)
    requires buf.Chained() && LastData(buf.data, buf.dataIdx) && buf.dataIdx <= m < |buf.chains|
    requires c == buf.chains[m] && Within(v, c) && chainp == SlotAt(buf, buf.chains, m)
    modifies buf`data, buf`lastWithDatap, buf`dataIdx, c`off
    ensures buf.Chained() && LastData(buf.data, buf.dataIdx) && buf.dataIdx <= m
    ensures buf.Bytes() == old(buf.Bytes()) + Written(v) && |Written(v)| == v.len
  {
    GrowAt(buf.data, m, Written(v));
    assert c.Holds(buf.data[m]);
    ghost var d, k := buf.data, buf.dataIdx;
    ExtendChain(buf, c, v, m);
    if v.len != 0 {
      MarkData(buf, chainp, m);
    } else {
      assert d[m] + Written(v) == d[m] && buf.data == d;
    }
  }

  /** The pieces are those of consecutive chains from chain f on. */
  ghost predicate AllWithin(cs: seq<Chain>, f: nat, vec: seq<IoVec>)
    reads cs
  {
    f + |vec| <= |cs| && forall i | 0 <= i < |vec| :: Within(vec[i], cs[f + i])
  }

  /** Pass 1 of evbuffer_commit_space: checks, without changing anything. */
  method CheckVecs(buf: Evbuffer, chain0: Chain?, vec: seq<IoVec>, ghost f: nat) returns (ok: bool)
    requires buf.Valid() && f <= |buf.chains| && chain0 == At(buf.chains, f)
    ensures ok <==> AllWithin(buf.chains, f, vec)
  {
    var chain, i := chain0, 0;
    while i < |vec|
      invariant 0 <= i <= |vec| && f + i <= |buf.chains| && chain == At(buf.chains, f + i)
      invariant forall j | 0 <= j < i :: Within(vec[j], buf.chains[f + j])
    {
      if chain == null || !Within(vec[i], chain) {
        return false;
      }
      assert buf.chains[f + i].next == At(buf.chains, f + i + 1);
      chain := chain.next;
      i := i + 1;
    }
    ok := true;
  }

  /** The first i pieces are committed and the slot is that of the next; the checks for the others still hold,
      and their bytes are still w. */
  ghost predicate Committing(buf: Evbuffer, slot: Slot, f: nat, vec: seq<IoVec>, w: seq<seq<Byte>>, i: nat)
    reads buf, buf.chains, set v | v in vec :: v.chain
  {
    && buf.Chained() && LastData(buf.data, buf.dataIdx) && buf.dataIdx <= f + i
    && f + |vec| <= |buf.chains| && i <= |vec| == |w| && slot == SlotAt(buf, buf.chains, f + i)
    && forall j | i <= j < |vec| :: Within(vec[j], buf.chains[f + j]) && w[j] == Written(vec[j])
  }

  lemma SlotLeadsTo(buf: Evbuffer, s: Slot, m: nat)
    requires buf.Chained() && m < |buf.chains| && s == SlotAt(buf, buf.chains, m)
    ensures Deref(s) == buf.chains[m]
  {
    assert m > 0 ==> buf.chains[m - 1].next == At(buf.chains, m);
  }

  /** One piece of pass 2. */
  method CommitNext(buf: Evbuffer, chainp: Slot, vec: seq<IoVec>, i: nat, ghost w: seq<seq<Byte>>, ghost f: nat)
    returns (next: Slot)
    requires Committing(buf, chainp, f, vec, w, i) && i < |vec|
    modifies buf`data, buf`lastWithDatap, buf`dataIdx, buf.chains`off
    ensures Committing(buf, next, f, vec, w, i + 1)
    ensures buf.Bytes() == old(buf.Bytes()) + w[i] && |w[i]| == vec[i].len
  {
    SlotLeadsTo(buf, chainp, f + i);
    var chain := Deref(chainp);
    CommitChain(buf, chainp, chain, vec[i], f + i);
    forall j | i < j < |vec| ensures Within(vec[j], buf.chains[f + j]) && w[j] == Written(vec[j]) {
      assert old(Within(vec[j], buf.chains[f + j])) && old(Written(vec[j])) == w[j];
    }
    next := NextOf(chain);
  }

  lemma StepFlat(s: seq<Byte>, w: seq<seq<Byte>>, i: nat, done: seq<Byte>)
    requires i < |w| && done == Flat(w[..i])
    ensures done + w[i] == Flat(w[..i + 1]) && (s + done) + w[i] == s + (done + w[i])
  {
    FlatNext(w, i);
  }

  /** Pass 2: commits the pieces one by one. */
  method CommitVecs(buf: Evbuffer, firstp: Slot, vec: seq<IoVec>, ghost w: seq<seq<Byte>>, ghost f: nat)
    returns (added: nat)
    requires Committing(buf, firstp, f, vec, w, 0)
    modifies buf`data, buf`lastWithDatap, buf`dataIdx, buf.chains`off
    ensures buf.Chained() && LastData(buf.data, buf.dataIdx)
    ensures buf.Bytes() == old(buf.Bytes()) + Flat(w) && added == |Flat(w)|
  {
    ghost var s, done := buf.Bytes(), [];
    var chainp, i := firstp, 0;
    added := 0;
    EmptyConcat([], s);
    while i < |vec|
      invariant 0 <= i <= |vec| && Committing(buf, chainp, f, vec, w, i)
      invariant done == Flat(w[..i]) && buf.Bytes() == s + done && added == |done|
    {
      chainp := CommitNext(buf, chainp, vec, i, w, f);
      StepFlat(s, w, i, done);
      done := done + w[i];
      added := added + vec[i].len;
      i := i + 1;
    }
    assert w[..i] == w;
  }

  /** The case of a single piece at the end of the last chain. */
  method CommitLast(buf: Evbuffer, v: IoVec)
    requires buf.Valid() && buf.last != null && Within(v, buf.last)
    modifies buf`data, buf`lastWithDatap, buf`dataIdx, buf`last, buf`totalLen, buf.chains`off
    ensures buf.Valid() && buf.Bytes() == old(buf.Bytes()) + Written(v)
  {
    ghost var m := |buf.chains| - 1;
    ghost var d, k, x := buf.data, buf.dataIdx, Written(v);
    var last := buf.last;
    GrowAt(d, m, x);
    ExtendChain(buf, last, v, m);
    if v.len != 0 {
      AdvanceLastWithData(buf);
    } else {
      assert d[m] + x == d[m] && buf.data == d;
    }
    Seal(buf, last, buf.totalLen + v.len);
  }

  /** What evbuffer_commit_space accepts. */
  ghost predicate Acceptable(buf: Evbuffer, vec: seq<IoVec>)
    requires buf.Valid()
    reads buf, buf.chains
  {
    && !buf.freezeEnd
    && (|vec| == 0
        || (buf.last != null
            && if |vec| == 1 && vec[0].chain == buf.last && vec[0].at == buf.last.misalign + buf.last.off
               then Within(vec[0], buf.last)
               else AllWithin(buf.chains, FirstWithSpace(buf), vec)))
  }

  /** One piece within the space of chain c is accepted exactly if the end is not frozen and c is the last chain
      or the first one with space. */
  lemma OnePieceIsAcceptable(buf: Evbuffer, c: Chain, v: IoVec)
    requires buf.Valid() && c in buf.chains && Within(v, c)
    ensures Acceptable(buf, [v]) <==> !buf.freezeEnd && Foremost(buf, c)
    ensures var k := buf.dataIdx;
            Foremost(buf, c) <==>
            || c == buf.last
            || (c == buf.chains[k] && c.Space() != 0)
            || (k + 1 < |buf.chains| && c == buf.chains[k + 1] && buf.chains[k].Space() == 0)
  {
    var f := FirstWithSpace(buf);
    assert [v][0] == v && buf.last == buf.chains[|buf.chains| - 1];
    assert f < |buf.chains| ==> (AllWithin(buf.chains, f, [v]) <==> Within([v][0], buf.chains[f + 0]));
  }

  /** A signed length as the size_t it is passed as. */
  function SizeOf(n: int): (r: nat)
    requires -0x8000_0000_0000_0000 <= n <= 0x7FFF_FFFF_FFFF_FFFF
    ensures 0 <= n ==> r == n
    ensures n < 0 ==> r == n + 0x1_0000_0000_0000_0000
  {
    n % (SIZE_MAX + 1)
  }

  /** evbuffer_reserve_space for one piece: space for at least `size` bytes, none if the end is frozen or it cannot be
      had. What is written there, all of it or less, can be committed; except when the space is that of a chain
      in between, and then nothing of it can. */
  method ReserveOne(buf: Evbuffer, size: int, short: bool) returns (v: Option<IoVec>)
    requires buf.Valid() && -0x8000_0000_0000_0000 <= size <= 0x7FFF_FFFF_FFFF_FFFF
    modifies buf`first, buf`last, buf`lastWithDatap, buf`totalLen, buf`chains, buf`data, buf`dataIdx, buf.chains
    ensures buf.Valid() && buf.Bytes() == old(buf.Bytes())
    ensures v.Some? ==> v.value.chain in buf.chains && v.value.len >= size && Within(v.value, v.value.chain)
    ensures v.None? <==>
            old(buf.freezeEnd
                || var k := FirstWithSpace(buf);
                   !CanExpand(RoomIn(At(buf.chains, k)), RoomIn(At(buf.chains, k + 1)), SizeOf(size), short))
    ensures v.Some? ==>
              forall n: nat | n <= v.value.len ::
                Acceptable(buf, [v.value.(len := n)]) <==>
                !old(var k := FirstWithSpace(buf);
                     PassesOver(RoomIn(At(buf.chains, k)), RoomIn(At(buf.chains, k + 1)), SizeOf(size),
                                k + 2 < |buf.chains|))
  {
    if buf.freezeEnd {
      return None;
    }
    var chain := ExpandSinglechain(buf, SizeOf(size), short);
    if chain == null {
      return None;
    }
    v := Some(IoVec(chain, chain.misalign + chain.off, chain.Space()));
    forall n: nat | n <= v.value.len ensures Acceptable(buf, [v.value.(len := n)]) <==> Foremost(buf, chain) {
      OnePieceIsAcceptable(buf, chain, v.value.(len := n));
    }
  }

  /** Such a case: ten bytes are wanted, the last chain with data has 6 of its 976 left, and two empty chains
      follow it. */
  lemma SomeSpaceIsRefused()
    ensures PassesOver(Room(false, 976, 0, 970), Room(false, 976, 0, 0), 10, true)
  {
  }

  /** One piece at the end of the last chain is accepted exactly if the end is not frozen and the piece is no
      longer than the space there; up to all of it. */
  lemma LastPieceIsAcceptable(buf: Evbuffer, v: IoVec)
    requires buf.Valid() && buf.last != null && v.chain == buf.last && v.at == buf.last.misalign + buf.last.off
    ensures Acceptable(buf, [v]) <==> !buf.freezeEnd && v.at + v.len <= |buf.last.mem|
  {
    assert buf.chains[|buf.chains| - 1].Holds(buf.data[|buf.chains| - 1]);
  }

  /** The first chain with space, and pass 1. */
  method FirstAndCheck(buf: Evbuffer, vec: seq<IoVec>) returns (ok: bool, firstp: Slot)
    requires buf.Valid() && buf.chains != []
    ensures ok <==> AllWithin(buf.chains, FirstWithSpace(buf), vec)
    ensures firstp == SlotAt(buf, buf.chains, FirstWithSpace(buf))
  {
    firstp := buf.lastWithDatap;
    SlotLeadsTo(buf, firstp, buf.dataIdx);
    assert buf.chains[buf.dataIdx].next == At(buf.chains, buf.dataIdx + 1);
    if Deref(firstp).Space() == 0 {
      firstp := NextOf(Deref(firstp));
    }
    ok := CheckVecs(buf, Deref(firstp), vec, FirstWithSpace(buf));
  }

  /** Pass 2 and what follows it. */
  method CommitAll(buf: Evbuffer, firstp: Slot, vec: seq<IoVec>)
    requires buf.Valid() && buf.chains != []
    requires AllWithin(buf.chains, FirstWithSpace(buf), vec)
    requires firstp == SlotAt(buf, buf.chains, FirstWithSpace(buf))
    modifies buf`data, buf`lastWithDatap, buf`dataIdx, buf`last, buf`totalLen, buf.chains`off
    ensures buf.Valid() && buf.Bytes() == old(buf.Bytes()) + old(Flat(Pieces(vec)))
  {
    var added := CommitVecs(buf, firstp, vec, Pieces(vec), FirstWithSpace(buf));
    Seal(buf, buf.last, buf.totalLen + added);
  }

  lemma HasChains(buf: Evbuffer)
    requires buf.Valid()
    ensures Deref(buf.lastWithDatap) == null <==> buf.last == null
    ensures buf.chains == [] <==> buf.last == null
  {
    if buf.chains != [] {
      SlotLeadsTo(buf, buf.lastWithDatap, buf.dataIdx);
    }
  }

  /** The general case: pieces of several chains, or of a chain in the middle. */
  method CommitMany(buf: Evbuffer, vec: seq<IoVec>) returns (result: int)
    requires buf.Valid() && vec != []
    modifies buf`data, buf`lastWithDatap, buf`dataIdx, buf`last, buf`totalLen, buf.chains`off
    ensures buf.Valid() && result in {0, -1}
    ensures result == 0 <==> old(buf.last != null && AllWithin(buf.chains, FirstWithSpace(buf), vec))
    ensures buf.Bytes() == old(buf.Bytes()) + if result == 0 then old(Flat(Pieces(vec))) else []
  {
    ghost var can := buf.last != null && AllWithin(buf.chains, FirstWithSpace(buf), vec);
    EmptyConcat([], buf.Bytes());
    HasChains(buf);
    if Deref(buf.lastWithDatap) == null {
      return -1;
    }
    var ok, firstp := FirstAndCheck(buf, vec);
    assert ok == can;
    if !ok {
      return -1;
    }
    CommitAll(buf, firstp, vec);
    result := 0;
  }

  /** evbuffer_commit_space: all or nothing. What the caller wrote into the pieces is appended in order. */
  method CommitSpace(buf: Evbuffer, vec: seq<IoVec>) returns (result: int)
    requires buf.Valid()
    modifies buf`first, buf`last, buf`lastWithDatap, buf`totalLen, buf`chains, buf`data, buf`dataIdx, buf.chains`off
    ensures buf.Valid() && result in {0, -1}
    ensures result == 0 <==> old(Acceptable(buf, vec))
    ensures buf.Bytes() == old(buf.Bytes()) + if result == 0 then old(Flat(Pieces(vec))) else []
    ensures buf.chains == old(buf.chains)
  {
    EmptyConcat([], buf.Bytes());
    if buf.freezeEnd {
      return -1;
    }
    if vec == [] {
      return 0;
    }
    if |vec| == 1 && buf.last != null && vec[0].chain == buf.last
       && vec[0].at == buf.last.misalign + buf.last.off
    {
      if vec[0].len > buf.last.Space() {
        return -1;
      }
      CommitLast(buf, vec[0]);
      OneWritten(vec);
      return 0;
    }
    result := CommitMany(buf, vec);
  }

  lemma OneWritten(vec: seq<IoVec>)
    requires |vec| == 1
    ensures Flat(Pieces(vec)) == Written(vec[0])
  {
    FlatOne(Written(vec[0]));
    assert Pieces(vec) == [Written(vec[0])];
  }
}
