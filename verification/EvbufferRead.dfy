/** Copying bytes out of a buffer, and removing them. */
module EvbufferRead {
  import opened Wrappers
  import opened Segments
  import opened EvbufferCore
  import opened EvbufferPtr
  import opened EvbufferSearch
  import opened EvbufferDrain

  /** The conversion of a length to the 32-bit int that some functions return. */
  function ToInt(n: int): (r: int)
    ensures 0 <= n <= 0x7FFF_FFFF ==> r == n
  {
    (n + 0x8000_0000) % 0x1_0000_0000 - 0x8000_0000
  }

  /** It is the one int that differs from the length by a multiple of 2^32. */
  lemma ToIntWraps(n: int, r: int)
    requires -0x8000_0000 <= r <= 0x7FFF_FFFF && (r - n) % 0x1_0000_0000 == 0
    ensures ToInt(n) == r
  {
    var q := (r - n) / 0x1_0000_0000;
    assert n + 0x8000_0000 == r + 0x8000_0000 - q * 0x1_0000_0000;
  }

  lemma Extend(s: seq<Byte>, from: nat, mid: nat, to: nat)
    requires from <= mid <= to <= |s|
    ensures s[from..mid] + s[mid..to] == s[from..to]
  {
  }

  /** memcpy of n bytes of a chain behind those that are copied already. */
  method CopyPiece(buf: Evbuffer, done: seq<Byte>, c: Chain, inChain: nat, n: nat,
                   ghost start: nat, ghost p: Ptr, ghost i: int)
    returns (out: seq<Byte>)
    requires buf.Valid() && PointsAt(buf, p, i) && p.chain == c && p.posInChain == inChain
    requires inChain + n <= c.off
    requires start <= p.pos <= |buf.Bytes()| && done == buf.Bytes()[start..p.pos]
    ensures p.pos + n <= |buf.Bytes()| && out == buf.Bytes()[start..p.pos + n]
    ensures inChain + n == c.off ==> PointsAt(buf, Ptr(p.pos + n, c.next, 0), i + 1)
  {
    NextPlace(buf, p, i);
    PartOfChain(buf, p, i, n);
    Extend(buf.Bytes(), start, p.pos, p.pos + n);
    out := done + c.mem[c.misalign + inChain..c.misalign + inChain + n];
  }

  /** The copying loops of evbuffer_copyout_from. */
  method CopyChains(buf: Evbuffer, p: Ptr, datlen: nat, ghost i0: int) returns (out: seq<Byte>)
    requires buf.Valid() && PointsAt(buf, p, i0) && p.pos + datlen <= |buf.Bytes()|
    ensures out == buf.Bytes()[p.pos..p.pos + datlen]
  {
    ghost var i, q := i0, p;
    var chain, inChain := p.chain, p.posInChain;
    var left: nat := datlen;
    out := [];
    PointsBound(buf, q, i);
    while left != 0 && left >= chain.off - inChain
      invariant left != 0 ==> chain != null
      invariant PointsAt(buf, q, i) && q.chain == chain && q.posInChain == inChain
      invariant p.pos <= q.pos && q.pos + left == p.pos + datlen && out == buf.Bytes()[p.pos..q.pos]
      decreases |buf.chains| - i
    {
      NextPlace(buf, q, i);
      var n := chain.off - inChain;
      out := CopyPiece(buf, out, chain, inChain, n, p.pos, q, i);
      left := left - n;
      chain := chain.next;
      inChain := 0;
      q, i := Ptr(q.pos + n, chain, 0), i + 1;
      PointsBound(buf, q, i);
    }
    if left != 0 {
      NextPlace(buf, q, i);
      out := CopyPiece(buf, out, chain, inChain, left, p.pos, q, i);
    }
  }

  /** evbuffer_copyout_from: the bytes at a position, or at the start. */
  method CopyoutFrom(buf: Evbuffer, pos: Option<Ptr>, datlen: nat) returns (result: int, out: seq<Byte>)
    requires buf.Valid() && (pos.Some? ==> Points(buf, pos.value))
    ensures var at := if pos.Some? then pos.value.pos else 0;
            var m := Min(datlen, |buf.Bytes()| - at);
            && 0 <= m
            && if pos.Some? && datlen > SSIZE_MAX - at then result == -1 && out == []
               else if m > 0 && buf.freezeStart then result == -1 && out == []
               else result == m && out == buf.Bytes()[at..at + m]
  {
    var p := if pos.Some? then pos.value else Start(buf);
    ghost var i :| PointsAt(buf, p, i);
    PointsBound(buf, p, i);
    if pos.Some? && datlen > SSIZE_MAX - p.pos {
      return -1, [];
    }
    var n := datlen;
    if n + p.pos > buf.totalLen {
      n := buf.totalLen - p.pos;
    }
    if n == 0 {
      return 0, [];
    }
    if buf.freezeStart {
      return -1, [];
    }
    out := CopyChains(buf, p, n, i);
    result := n;
  }

  /** evbuffer_remove: take-prefix. */
  method Remove(buf: Evbuffer, datlen: nat) returns (result: int, out: seq<Byte>)
    requires buf.Valid()
    modifies buf`first, buf`last, buf`lastWithDatap, buf`totalLen, buf`chains, buf`data, buf`dataIdx, buf.chains
    ensures buf.Valid()
    ensures var m := Min(datlen, |old(buf.Bytes())|);
            if m > 0 && buf.freezeStart
            then result == -1 && out == [] && buf.Bytes() == old(buf.Bytes())
            else result == ToInt(m) && out == old(buf.Bytes())[..m] && buf.Bytes() == old(buf.Bytes())[m..]
    ensures forall c | c in buf.chains :: c in old(buf.chains)
  {
    var n;
    n, out := CopyoutFrom(buf, None, datlen);
    if n > 0 {
      var r := Drain(buf, n);
      if r < 0 {
        n := -1;
      }
    }
    result := ToInt(n);
  }
}
