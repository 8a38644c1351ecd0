/** Positions in a buffer: an offset together with the chain it falls in. */
module EvbufferPtr {
  import opened Segments
  import opened EvbufferCore

  const SSIZE_MAX: int := 0x7FFF_FFFF_FFFF_FFFF

  /** evbuffer_ptr. */
  datatype Ptr = Ptr(pos: int, chain: Chain?, posInChain: nat)

  const NOT_FOUND: Ptr := Ptr(-1, null, 0)

  datatype How = SET | ADD

  /** p is a position in chain i, or behind the last chain. */
  ghost predicate PointsAt(buf: Evbuffer, p: Ptr, i: int)
    reads buf
  {
    && 0 <= i <= |buf.chains| == |buf.data|
    && p.chain == At(buf.chains, i)
    && p.posInChain <= (if i < |buf.chains| then |buf.data[i]| else 0)
    && p.pos == |Flat(buf.data[..i])| + p.posInChain
  }

  ghost predicate Points(buf: Evbuffer, p: Ptr)
    reads buf
  {
    exists i :: PointsAt(buf, p, i)
  }

  /** A position that the next byte, if any, can be read through. */
  ghost predicate Settled(p: Ptr)
    reads if p.chain != null then {p.chain} else {}
  {
    p.chain != null ==> p.posInChain < p.chain.off
  }

  /** The start of a buffer. */
  function Start(buf: Evbuffer): (p: Ptr)
    requires buf.Valid()
    reads buf, buf.chains
    ensures PointsAt(buf, p, 0) && p.pos == 0
  {
    assert buf.data[..0] == [];
    Ptr(0, buf.first, 0)
  }

  /** The bytes of segment i as a part of the whole. */
  lemma SliceAt(d: seq<seq<Byte>>, i: nat, a: nat, b: nat)
    requires i < |d| && a <= b <= |d[i]|
    ensures var base := |Flat(d[..i])|;
            base + |d[i]| <= |Flat(d)| && Flat(d)[base + a..base + b] == d[i][a..b]
  {
    FlatAround(d, i, d[i]);
    var l, r := Flat(d[..i]), Flat(d[i + 1..]);
    assert Flat(d)[|l| + a..|l| + b] == (l + d[i] + r)[|l|..|l| + |d[i]|][a..b];
  }

  lemma ByteAt(d: seq<seq<Byte>>, i: nat, j: nat)
    requires i < |d| && j < |d[i]|
    ensures var at := |Flat(d[..i])| + j; at < |Flat(d)| && Flat(d)[at] == d[i][j]
  {
    SliceAt(d, i, j, j + 1);
    assert d[i][j..j + 1][0] == d[i][j];
  }

  lemma PointsBound(buf: Evbuffer, p: Ptr, i: int)
    requires PointsAt(buf, p, i)
    ensures 0 <= p.pos <= |buf.Bytes()|
    ensures i == |buf.chains| ==> p.pos == |buf.Bytes()|
  {
    FlatSplit(buf.data, i);
    if i == |buf.chains| {
      assert buf.data[..i] == buf.data;
    } else {
      FlatNext(buf.data, i);
    }
  }

  lemma NextBase(d: seq<seq<Byte>>, i: nat)
    requires i < |d|
    ensures |Flat(d[..i + 1])| == |Flat(d[..i])| + |d[i]|
  {
    FlatNext(d, i);
  }

  /** The walk of evbuffer_ptr_set: left bytes forward from a position in a chain. */
  method Walk(buf: Evbuffer, from: Ptr, howfar: nat, ghost i0: int) returns (chain: Chain?, position: nat, left: nat)
    requires buf.Valid() && PointsAt(buf, from, i0)
    ensures var p := Ptr(from.pos + howfar, chain, position + left);
            if from.pos + howfar <= |buf.Bytes()|
            then Points(buf, p) && Settled(p) && (chain == null ==> left == 0 && position == 0)
            else chain == null && left > 0
  {
    chain, position, left := from.chain, from.posInChain, howfar;
    ghost var i := i0;
    while chain != null && position + left >= chain.off
      invariant i0 <= i && PointsAt(buf, Ptr(from.pos + howfar - left, chain, position), i)
      decreases |buf.chains| - i
    {
      assert buf.chains[i].Holds(buf.data[i]);
      assert buf.chains[i].next == At(buf.chains, i + 1);
      NextBase(buf.data, i);
      left := left - (chain.off - position);
      chain := chain.next;
      position := 0;
      i := i + 1;
    }
    PointsBound(buf, Ptr(from.pos + howfar - left, chain, position), i);
    if chain != null {
      assert buf.chains[i].Holds(buf.data[i]);
      NextBase(buf.data, i);
      FlatSplit(buf.data, i + 1);
      assert PointsAt(buf, Ptr(from.pos + howfar, chain, position + left), i);
    } else if left == 0 {
      assert PointsAt(buf, Ptr(from.pos + howfar, chain, position + left), i);
    }
  }

  /** evbuffer_ptr_set: moves a position to an offset, or by an offset. */
  method PtrSet(buf: Evbuffer, pos: Ptr, position: nat, how: How) returns (result: int, out: Ptr)
    requires buf.Valid() && (how.ADD? ==> Points(buf, pos) || pos == NOT_FOUND)
    ensures var target := if how.SET? then position else pos.pos + position;
            if how.ADD? && (pos.pos < 0 || target > SIZE_MAX) then result == -1 && out == pos
            else if target <= |buf.Bytes()| then
              result == 0 && Points(buf, out) && out.pos == target && Settled(out)
            else result == -1 && out == NOT_FOUND
  {
    var from;
    ghost var i: int;
    if how.SET? {
      from, i := Start(buf), 0;
    } else {
      if pos.pos < 0 || SIZE_MAX - position < pos.pos {
        return -1, pos;
      }
      from := pos;
      i :| PointsAt(buf, pos, i);
      assert SIZE_MAX - position >= pos.posInChain;
    }
    var chain, inChain, left := Walk(buf, from, position, i);
    if chain != null {
      return 0, Ptr(from.pos + position, chain, inChain + left);
    } else if left == 0 {
      return 0, Ptr(from.pos + position, null, 0);
    } else {
      return -1, NOT_FOUND;
    }
  }

  /** evbuffer_ptr_subtract. */
  method PtrSubtract(buf: Evbuffer, pos: Ptr, howfar: nat) returns (result: int, out: Ptr)
    requires buf.Valid() && (Points(buf, pos) || pos == NOT_FOUND)
    ensures if pos.pos < 0 || howfar > pos.pos then result == -1 && out == pos
            else result == 0 && Points(buf, out) && out.pos == pos.pos - howfar
                 && (howfar > 0 ==> Settled(out))
  {
    if pos.pos < 0 || howfar > pos.pos {
      return -1, pos;
    }
    ghost var i :| PointsAt(buf, pos, i);
    PointsBound(buf, pos, i);
    if pos.chain != null && howfar <= pos.posInChain {
      out := Ptr(pos.pos - howfar, pos.chain, pos.posInChain - howfar);
      assert buf.chains[i].Holds(buf.data[i]);
      assert PointsAt(buf, out, i);
      result := 0;
    } else {
      result, out := PtrSet(buf, pos, pos.pos - howfar, SET);
    }
  }

  /** evbuffer_getchr. */
  method GetChr(buf: Evbuffer, it: Ptr) returns (r: int)
    requires buf.Valid() && Points(buf, it) && Settled(it)
    ensures it.chain == null ==> r == -1 && it.pos == |buf.Bytes()|
    ensures it.chain != null ==> 0 <= it.pos < |buf.Bytes()| && r == buf.Bytes()[it.pos] as int
  {
    ghost var i :| PointsAt(buf, it, i);
    PointsBound(buf, it, i);
    if it.chain == null {
      return -1;
    }
    assert buf.chains[i].Holds(buf.data[i]);
    ByteAt(buf.data, i, it.posInChain);
    r := it.chain.mem[it.chain.misalign + it.posInChain] as int;
  }
}
