/** An evbuffer: a linked list of chains, each a partly filled and possibly misaligned piece of memory.
    The fields are those of the program; ghost fields say which byte sequence they stand for. */
module EvbufferCore {
  import opened Segments

  const SIZE_MAX: int := 0xFFFF_FFFF_FFFF_FFFF
  const CHAIN_MAX: int := 0x7FFF_FFFF_FFFF_FFFF
  const CHAIN_SIZE: nat := 48
  const MIN_BUFFER_SIZE: nat := 1024

  /** One item of the list. Its bytes are mem[misalign .. misalign + off]; the space behind them is
      writable unless the chain is immutable, and an immutable chain has none. */
  class Chain {
    var next: Chain?
    var mem: seq<Byte>
    var misalign: nat
    var off: nat
    const immutable: bool

    constructor (mem: seq<Byte>, off: nat, immutable: bool)
      ensures next == null && this.mem == mem && misalign == 0 && this.off == off && this.immutable == immutable
    {
      next, this.mem, misalign, this.off, this.immutable := null, mem, 0, off, immutable;
    }

    /** This chain holds exactly these bytes. */
    ghost predicate Holds(d: seq<Byte>)
      reads this`mem, this`misalign, this`off
    {
      && off == |d|
      && misalign + off <= |mem|
      && mem[misalign..misalign + off] == d
      && (immutable ==> misalign + off == |mem|)
    }

    /** CHAIN_SPACE_LEN. */
    function Space(): int
      reads this`mem, this`misalign, this`off
    {
      if immutable then 0 else |mem| - (misalign + off)
    }
  }

  /** A pointer to a chain pointer: the `first` field of a buffer or the `next` field of a chain. */
  datatype Slot = FirstOf(buf: Evbuffer) | NextOf(chain: Chain)

  function Deref(s: Slot): Chain?
    reads match s case FirstOf(b) => {b as object} case NextOf(c) => {c as object}
  {
    match s
    case FirstOf(b) => b.first
    case NextOf(c) => c.next
  }

  ghost function At(cs: seq<Chain>, i: int): Chain? {
    if 0 <= i < |cs| then cs[i] else null
  }

  /** The pointer through which chain k of a buffer is reached. */
  ghost function SlotAt(b: Evbuffer, cs: seq<Chain>, k: nat): Slot
    requires k <= |cs|
  {
    if k == 0 then FirstOf(b) else NextOf(cs[k - 1])
  }

  ghost predicate Distinct(cs: seq<Chain>) {
    forall i, j | 0 <= i < j < |cs| :: cs[i] != cs[j]
  }

  /** Each chain of the list points to the one after it, the last one to nothing. */
  ghost predicate Linked(cs: seq<Chain>)
    reads cs`next
  {
    forall i {:trigger cs[i].next} | 0 <= i < |cs| :: cs[i].next == At(cs, i + 1)
  }

  ghost predicate Filled(cs: seq<Chain>, d: seq<seq<Byte>>)
    reads cs`mem, cs`misalign, cs`off
  {
    |d| == |cs| && forall i {:trigger cs[i].Holds(d[i])} | 0 <= i < |cs| :: cs[i].Holds(d[i])
  }

  class Evbuffer {
    var first: Chain?
    var last: Chain?
    var lastWithDatap: Slot
    var totalLen: nat
    var freezeStart: bool
    var freezeEnd: bool

    ghost var chains: seq<Chain>
    ghost var data: seq<seq<Byte>>
    ghost var dataIdx: nat

    /** The chains hold the data, and last_with_datap addresses chain dataIdx, which is the first one or
        has data. */
    ghost predicate Chained()
      reads this, chains
    {
      && Distinct(chains) && Linked(chains) && Filled(chains, data)
      && first == At(chains, 0)
      && dataIdx <= |chains| && lastWithDatap == SlotAt(this, chains, dataIdx)
      && (dataIdx == 0 || (dataIdx < |chains| && data[dataIdx] != []))
    }

    /** In addition total_len is the length of the data, and no chain behind the one that last_with_datap
        addresses has any. */
    ghost predicate Core()
      reads this, chains
    {
      Chained() && LastData(data, dataIdx) && totalLen == |Flat(data)|
    }

    /** The representation invariant: `last` is the final chain, too. */
    ghost predicate Valid()
      reads this, chains
    {
      Core() && last == At(chains, |chains| - 1)
    }

    /** The byte sequence the buffer stands for. */
    ghost function Bytes(): seq<Byte>
      reads this`data
    {
      Flat(data)
    }

    /** evbuffer_new. */
    constructor ()
      ensures Valid() && chains == [] && Bytes() == [] && !freezeStart && !freezeEnd
    {
      first, last, totalLen, freezeStart, freezeEnd := null, null, 0, false, false;
      lastWithDatap := FirstOf(this);
      chains, data, dataIdx := [], [], 0;
    }
  }

  /** The parts of the invariant, put together. */
  lemma IsChained(b: Evbuffer, cs: seq<Chain>, d: seq<seq<Byte>>, k: nat)
    requires b.chains == cs && b.data == d && b.dataIdx == k
    requires Distinct(cs) && Linked(cs) && Filled(cs, d) && b.first == At(cs, 0)
    requires k <= |cs| && b.lastWithDatap == SlotAt(b, cs, k) && (k == 0 || (k < |cs| && d[k] != []))
    ensures b.Chained()
  {
  }

  /** A list of one chain. */
  lemma OneLinked(c: Chain, x: seq<Byte>)
    requires c.next == null && c.Holds(x)
    ensures Distinct([c]) && Linked([c]) && Filled([c], [x])
  {
  }

  /** Addition of a size_t. */
  function MachineSum(a: nat, b: nat): nat {
    (a + b) % (SIZE_MAX + 1)
  }

  lemma SumIsMachines(a: nat, b: nat)
    ensures a + b == MachineSum(a, b) <==> a + b <= SIZE_MAX
    ensures a <= SIZE_MAX && b <= SIZE_MAX && a + b > SIZE_MAX ==> MachineSum(a, b) == a + b - 0x1_0000_0000_0000_0000
  {
  }

  // ----- allocation -----

  /** The next power-of-two size, from the minimum up, that holds `size`. */
  method RoundUp(size: nat) returns (n: nat)
    ensures n >= size && n >= MIN_BUFFER_SIZE
    ensures n == MIN_BUFFER_SIZE || n < 2 * size
  {
    n := MIN_BUFFER_SIZE;
    while n < size
      invariant n == MIN_BUFFER_SIZE || n < 2 * size
      invariant n >= MIN_BUFFER_SIZE
      decreases size - n
    {
      n := n * 2;
    }
  }

  /** evbuffer_chain_new: null exactly if the size is out of range or memory is short. */
  method ChainNew(size: nat, short: bool) returns (c: Chain?)
    ensures c != null ==>
              && fresh(c) && c.next == null && !c.immutable
              && |c.mem| >= size && |c.mem| + 48 >= 1024 && c.misalign == 0 && c.off == 0
    ensures c == null <==> short || size > CHAIN_MAX - CHAIN_SIZE
  {
    if size > CHAIN_MAX - CHAIN_SIZE {
      return null;
    }
    var whole := size + CHAIN_SIZE;
    var toAlloc := whole;
    if whole < CHAIN_MAX / 2 {
      toAlloc := RoundUp(whole);
    }
    if short {
      return null;
    }
    c := new Chain(seq(toAlloc - CHAIN_SIZE, _ => 0), 0, false);
  }

  // ----- the tail of the list -----

  /** The pointer to the first empty chain from the last one with data on. */
  method FindVictim(buf: Evbuffer) returns (ch: Slot)
    requires buf.Core()
    ensures ch == SlotAt(buf, buf.chains, Solid(buf.data, buf.dataIdx))
  {
    ch := buf.lastWithDatap;
    ghost var m := buf.dataIdx;
    var c := Deref(ch);
    while c != null && c.off != 0
      invariant buf.dataIdx <= m <= |buf.chains| && m <= buf.dataIdx + 1
      invariant ch == SlotAt(buf, buf.chains, m) && c == At(buf.chains, m)
      invariant m > buf.dataIdx ==> buf.data[buf.dataIdx] != []
      decreases |buf.chains| - m
    {
      assert buf.chains[m].Holds(buf.data[m]);
      assert buf.data[m] != [];
      ch := NextOf(c);
      c := Deref(ch);
      m := m + 1;
    }
    if m < |buf.chains| {
      assert buf.chains[m].Holds(buf.data[m]);
    }
  }

  /** Ends the list at the pointer to chain n. */
  method Truncate(buf: Evbuffer, ch: Slot, ghost n: nat)
    requires buf.Core() && n == Solid(buf.data, buf.dataIdx) && ch == SlotAt(buf, buf.chains, n)
    modifies buf`first, buf`chains, buf`data, buf`dataIdx, buf.chains`next
    ensures buf.Core()
    ensures buf.chains == old(buf.chains)[..n] && buf.data == old(buf.data)[..n]
    ensures buf.dataIdx == if n == 0 then 0 else n - 1
  {
    FlatSolid(buf.data, buf.dataIdx);
    ghost var cs, d := buf.chains, buf.data;
    match ch {
      case FirstOf(b) => b.first := null;
      case NextOf(c) => CutAfter(cs, d, n, c);
    }
    buf.chains := cs[..n];
    buf.data := d[..n];
    if n == 0 {
      buf.dataIdx := 0;
    }
  }

  /** Makes chain n - 1 the last of its list. */
  method CutAfter(ghost cs: seq<Chain>, ghost d: seq<seq<Byte>>, ghost n: nat, c: Chain)
    requires Distinct(cs) && Linked(cs) && Filled(cs, d) && 0 < n <= |cs| && c == cs[n - 1]
    modifies c`next
    ensures Distinct(cs[..n]) && Linked(cs[..n]) && Filled(cs[..n], d[..n])
  {
    forall i | 0 <= i < n ensures cs[i].Holds(d[i]) {
    }
    c.next := null;
    forall i | 0 <= i < n ensures cs[i].Holds(d[i]) {
    }
    forall i | 0 <= i < n ensures cs[i].next == At(cs[..n], i + 1) {
    }
  }

  /** evbuffer_free_trailing_empty_chains: drops the empty chains at the end and returns the pointer
      behind what is left; the caller must set `last`. */
  method FreeTrailingEmptyChains(buf: Evbuffer) returns (ch: Slot)
    requires buf.Core()
    modifies buf`first, buf`chains, buf`data, buf`dataIdx, buf.chains`next
    ensures buf.Core()
    ensures var n := Solid(old(buf.data), old(buf.dataIdx));
            && buf.chains == old(buf.chains)[..n] && buf.data == old(buf.data)[..n]
            && ch == SlotAt(buf, buf.chains, n) && buf.dataIdx == if n == 0 then 0 else n - 1
  {
    ghost var n := Solid(buf.data, buf.dataIdx);
    ch := FindVictim(buf);
    var c := Deref(ch);
    if c != null {
      assert AllEmpty(buf.data[n..]);
      Truncate(buf, ch, n);
    } else {
      assert n == |buf.chains|;
    }
  }
}
