/** Finding the end of a line and reading lines. */
module EvbufferLines {
  import opened Wrappers
  import opened Segments
  import opened EvbufferCore
  import opened EvbufferPtr
  import opened EvbufferSearch
  import opened EvbufferDrain
  import opened EvbufferRead

  const CR: Byte := 13
  const LF: Byte := 10
  const CHUNK: nat := 128

  datatype EolStyle = ANY | CRLF_STRICT | CRLF | LF_ONLY | NUL

  // ----- what a line terminator is -----

  /** q is the first place from `from` on with one of these bytes. */
  ghost predicate FirstIn(s: seq<Byte>, from: int, stop: set<Byte>, q: int) {
    0 <= from <= q < |s| && s[q] in stop && forall j | from <= j < q :: s[j] !in stop
  }

  ghost predicate NoneIn(s: seq<Byte>, from: int, stop: set<Byte>) {
    forall j | 0 <= from <= j < |s| :: s[j] !in stop
  }

  /** How many bytes from q on are of these. */
  function Span(s: seq<Byte>, q: int, of: set<Byte>): (n: nat)
    requires 0 <= q <= |s|
    ensures q + n <= |s| && forall j | q <= j < q + n :: s[j] in of
    ensures q + n < |s| ==> s[q + n] !in of
    decreases |s| - q
  {
    if q == |s| || s[q] !in of then 0 else 1 + Span(s, q + 1, of)
  }

  lemma {:induction false} SpanIs(s: seq<Byte>, q: nat, of: set<Byte>, n: nat)
    requires q + n <= |s| && (forall j | q <= j < q + n :: s[j] in of) && (q + n < |s| ==> s[q + n] !in of)
    ensures Span(s, q, of) == n
    decreases n
  {
    if n > 0 {
      SpanIs(s, q + 1, of, n - 1);
    }
  }

  /** The first terminator from `from` on begins at q and has n bytes. */
  ghost predicate IsEol(s: seq<Byte>, from: int, style: EolStyle, q: int, n: int) {
    match style
    case ANY => FirstIn(s, from, {CR, LF}, q) && n == Span(s, q, {CR, LF})
    case CRLF_STRICT => from <= q && n == 2 && Matches(s, [CR, LF], q) && NoMatch(s, [CR, LF], from, q)
    case CRLF =>
      && FirstIn(s, from, {LF}, q + n - 1)
      && n == if q + n - 1 > from && s[q + n - 2] == CR then 2 else 1
    case LF_ONLY => FirstIn(s, from, {LF}, q) && n == 1
    case NUL => FirstIn(s, from, {0}, q) && n == 1
  }

  ghost predicate NoEol(s: seq<Byte>, from: int, style: EolStyle) {
    match style
    case ANY => NoneIn(s, from, {CR, LF})
    case CRLF_STRICT => NoMatch(s, [CR, LF], from, |s|)
    case CRLF => NoneIn(s, from, {LF})
    case LF_ONLY => NoneIn(s, from, {LF})
    case NUL => NoneIn(s, from, {0})
  }

  /** The styles in bytes: of "a", CR, LF, "b", LF the terminators at the front, and that a lone LF is none of the
      strict style. */
  lemma EolExamples(s: seq<Byte>)
    requires s == [0x61, 0x0D, 0x0A, 0x62, 0x0A]
    ensures IsEol(s, 0, ANY, 1, 2) && IsEol(s, 0, CRLF_STRICT, 1, 2) && IsEol(s, 0, CRLF, 1, 2)
    ensures IsEol(s, 0, LF_ONLY, 2, 1) && NoEol(s, 0, NUL)
    ensures IsEol(s, 3, CRLF, 4, 1) && NoEol(s, 3, CRLF_STRICT)
  {
    assert s[1..3] == [0x0D, 0x0A];
    SpanIs(s, 1, {CR, LF}, 2);
  }

  /** There is one answer to the question where the first terminator is. */
  lemma EolUnique(s: seq<Byte>, from: nat, style: EolStyle, q: int, n: int, r: int, m: int)
    requires IsEol(s, from, style, q, n) && IsEol(s, from, style, r, m)
    ensures q == r && n == m && !NoEol(s, from, style)
  {
    if style.CRLF? {
      FirstUnique(s, from, {LF}, q + n - 1, r + m - 1);
    } else if style.ANY? {
      FirstUnique(s, from, {CR, LF}, q, r);
    } else if style.CRLF_STRICT? {
      assert q < r ==> !Matches(s, [CR, LF], q);
      assert r < q ==> !Matches(s, [CR, LF], r);
    }
  }

  lemma FirstUnique(s: seq<Byte>, from: nat, stop: set<Byte>, q: int, r: int)
    requires FirstIn(s, from, stop, q) && FirstIn(s, from, stop, r)
    ensures q == r && !NoneIn(s, from, stop)
  {
  }

  /** A line that is cut off at its terminator holds none itself. */
  lemma LineHasNoEol(s: seq<Byte>, style: EolStyle, q: int, n: int)
    requires IsEol(s, 0, style, q, n)
    ensures 0 <= q < q + n <= |s| && NoEol(s[..q], 0, style)
  {
    if style.CRLF_STRICT? {
      forall j | 0 <= j < q ensures !Matches(s[..q], [CR, LF], j) {
        assert !Matches(s, [CR, LF], j);
        assert j + 2 <= q ==> s[..q][j..j + 2] == s[j..j + 2];
      }
    } else if style.ANY? {
      assert s[q] in {CR, LF};
    }
  }

  // ----- the functions -----

  lemma IndexOfIs(s: seq<Byte>, stop: set<Byte>, k: nat)
    requires k <= |s| && (k < |s| ==> s[k] in stop) && forall j | 0 <= j < k :: s[j] !in stop
    ensures IndexOf(s, stop) == k
  {
  }

  /** find_eol_char: looks for both characters chunk by chunk, and finds what one pass for either would. */
  method FindEolChar(s: seq<Byte>) returns (r: nat)
    ensures r == IndexOf(s, {CR, LF})
  {
    var at := 0;
    while at < |s|
      invariant forall j | 0 <= j < at && j < |s| :: s[j] !in {CR, LF}
    {
      var n := if at + CHUNK < |s| then CHUNK else |s| - at;
      var chunk := s[at..at + n];
      assert forall j | at <= j < at + n :: s[j] == chunk[j - at];
      var cr, lf := IndexOf(chunk, {CR}), IndexOf(chunk, {LF});
      if cr < n {
        r := if lf < n && lf < cr then at + lf else at + cr;
        IndexOfIs(s, {CR, LF}, r);
        return;
      } else if lf < n {
        r := at + lf;
        IndexOfIs(s, {CR, LF}, r);
        return;
      }
      at := at + CHUNK;
    }
    IndexOfIs(s, {CR, LF}, |s|);
    r := |s|;
  }

  /** What is looked for in one chain: with find_eol_char or memchr. */
  method FindIn(s: seq<Byte>, stop: set<Byte>) returns (k: nat)
    ensures k == IndexOf(s, stop)
  {
    if stop == {CR, LF} {
      k := FindEolChar(s);
    } else {
      k := IndexOf(s, stop);
    }
  }

  ghost predicate NoneBetween(s: seq<Byte>, from: int, to: int, stop: set<Byte>) {
    0 <= from <= to <= |s| && forall j | from <= j < to :: s[j] !in stop
  }

  lemma NoneFurther(s: seq<Byte>, from: int, mid: int, to: int, stop: set<Byte>)
    requires NoneBetween(s, from, mid, stop) && mid <= to <= |s| && forall j | mid <= j < to :: s[j] !in stop
    ensures NoneBetween(s, from, to, stop)
    ensures to < |s| && s[to] in stop ==> FirstIn(s, from, stop, to)
    ensures to == |s| ==> NoneIn(s, from, stop)
  {
  }

  /** One chain of the walk: the place of the first of the bytes in it, or the beginning of the next chain. */
  method FindInChain(buf: Evbuffer, it: Ptr, stop: set<Byte>, ghost i: int, ghost from: int)
    returns (found: bool, next: Ptr)
    requires buf.Valid() && PointsAt(buf, it, i) && it.chain != null && NoneBetween(buf.Bytes(), from, it.pos, stop)
    ensures found ==> Points(buf, next) && Settled(next) && FirstIn(buf.Bytes(), from, stop, next.pos)
    ensures !found ==> PointsAt(buf, next, i + 1) && NoneBetween(buf.Bytes(), from, next.pos, stop)
  {
    ScanChain(buf, it, i, stop);
    var n := it.chain.off - it.posInChain;
    var k := FindIn(Rest(it), stop);
    NoneFurther(buf.Bytes(), from, it.pos, it.pos + k, stop);
    found := k < n;
    if found {
      next := Ptr(it.pos + k, it.chain, it.posInChain + k);
      assert PointsAt(buf, next, i);
    } else {
      next := Ptr(it.pos + n, it.chain.next, 0);
    }
  }

  /** evbuffer_strchr and evbuffer_find_eol_char: the same walk, with memchr or find_eol_char in each chain. */
  method FindChar(buf: Evbuffer, from: Ptr, stop: set<Byte>) returns (it: Ptr)
    requires buf.Valid() && Points(buf, from)
    ensures it == NOT_FOUND ==> NoneIn(buf.Bytes(), from.pos, stop)
    ensures it != NOT_FOUND ==> Points(buf, it) && Settled(it) && FirstIn(buf.Bytes(), from.pos, stop, it.pos)
  {
    it := from;
    ghost var i :| PointsAt(buf, from, i);
    PointsBound(buf, from, i);
    while it.chain != null
      invariant PointsAt(buf, it, i) && NoneBetween(buf.Bytes(), from.pos, it.pos, stop)
      decreases |buf.chains| - i
    {
      var found;
      found, it := FindInChain(buf, it, stop, i, from.pos);
      if found {
        return;
      }
      i := i + 1;
    }
    PointsBound(buf, it, i);
    NoneFurther(buf.Bytes(), from.pos, it.pos, it.pos, stop);
    it := NOT_FOUND;
  }

  /** How far the bytes of one chain from a position on are of the given ones. */
  method SpanChain(buf: Evbuffer, c: Chain, inChain: nat, of: set<Byte>, ghost p: Ptr, ghost i: int)
    returns (n: nat)
    requires buf.Valid() && PointsAt(buf, p, i) && p.chain == c && p.posInChain == inChain
    ensures inChain + n <= c.off && p.pos + n <= |buf.Bytes()|
    ensures forall j | p.pos <= j < p.pos + n :: buf.Bytes()[j] in of
    ensures inChain + n < c.off ==> p.pos + n < |buf.Bytes()| && buf.Bytes()[p.pos + n] !in of
    ensures inChain + n == c.off ==> PointsAt(buf, Ptr(p.pos + n, c.next, 0), i + 1)
  {
    NextPlace(buf, p, i);
    var len := c.off - inChain;
    PartOfChain(buf, p, i, len);
    ghost var s := buf.Bytes();
    ghost var here := c.mem[c.misalign + inChain..c.misalign + c.off];
    assert forall j | 0 <= j < len :: here[j] == s[p.pos + j];
    n := 0;
    while n < len
      invariant n <= len && forall j | p.pos <= j < p.pos + n :: s[j] in of
    {
      assert c.mem[c.misalign + inChain + n] == here[n];
      if c.mem[c.misalign + inChain + n] !in of {
        return;
      }
      n := n + 1;
    }
  }

  /** evbuffer_strspn: the length of the run of these bytes, across chains. */
  method Strspn(buf: Evbuffer, ptr: Ptr, of: set<Byte>) returns (count: nat)
    requires buf.Valid() && Points(buf, ptr)
    ensures 0 <= ptr.pos <= |buf.Bytes()| && count == Span(buf.Bytes(), ptr.pos, of)
  {
    ghost var i :| PointsAt(buf, ptr, i);
    ghost var s := buf.Bytes();
    PointsBound(buf, ptr, i);
    count := 0;
    var chain := ptr.chain;
    var inChain: nat := ptr.posInChain;
    while chain != null
      invariant PointsAt(buf, Ptr(ptr.pos + count, chain, inChain), i) && ptr.pos + count <= |s|
      invariant forall j | ptr.pos <= j < ptr.pos + count :: s[j] in of
      decreases |buf.chains| - i
    {
      var n := SpanChain(buf, chain, inChain, of, Ptr(ptr.pos + count, chain, inChain), i);
      count := count + n;
      if inChain + n < chain.off {
        SpanIs(s, ptr.pos, of, count);
        return;
      }
      inChain := 0;
      chain := chain.next;
      i := i + 1;
    }
    PointsBound(buf, Ptr(ptr.pos + count, chain, inChain), i);
    SpanIs(s, ptr.pos, of, count);
  }

  /** Where the search for the end of a line ends. */
  ghost predicate EolResult(buf: Evbuffer, from: int, style: EolStyle, it: Ptr, n: int)
    reads buf, if it.chain != null then {it.chain} else {}
  {
    var s := buf.Bytes();
    || (Points(buf, it) && IsEol(s, from, style, it.pos, n))
    || (it == NOT_FOUND && n == 0 && NoEol(s, from, style))
  }

  /** The case of a line feed with an optional carriage return before it. */
  method SearchCrlf(buf: Evbuffer, start: Ptr) returns (it: Ptr, n: nat)
    requires buf.Valid() && Points(buf, start)
    ensures EolResult(buf, start.pos, CRLF, it, n)
  {
    it := FindChar(buf, start, {LF});
    if it == NOT_FOUND {
      return it, 0;
    }
    n := 1;
    if it.pos == start.pos {
      return;
    }
    var r, before := PtrSubtract(buf, it, 1);
    if r < 0 {
      return;
    }
    var c := GetChr(buf, before);
    if c == CR as int {
      it, n := before, 2;
    }
  }

  /** evbuffer_search_eol: the first terminator at or after the start, and its length. */
  method SearchEol(buf: Evbuffer, start: Option<Ptr>, style: EolStyle) returns (it: Ptr, eolLen: nat)
    requires buf.Valid() && buf.totalLen <= SIZE_MAX
    requires start.Some? ==> Points(buf, start.value) || start.value == NOT_FOUND
    ensures start == Some(NOT_FOUND) ==> it == NOT_FOUND && eolLen == 0
    ensures start != Some(NOT_FOUND) ==>
              EolResult(buf, if start.Some? then start.value.pos else 0, style, it, eolLen)
  {
    if start.Some? && start.value.chain == null {
      NothingBehind(buf, start.value, style);
      return NOT_FOUND, 0;
    }
    it := if start.Some? then start.value else Start(buf);
    var from := it;
    match style {
      case ANY =>
        it := FindChar(buf, from, {CR, LF});
        if it == NOT_FOUND {
          return it, 0;
        }
        eolLen := Strspn(buf, it, {CR, LF});
      case CRLF_STRICT =>
        it := Search(buf, [CR, LF], Some(from));
        eolLen := if it.pos < 0 then 0 else 2;
      case CRLF =>
        it, eolLen := SearchCrlf(buf, from);
      case LF_ONLY =>
        it := FindChar(buf, from, {LF});
        eolLen := if it.pos < 0 then 0 else 1;
      case NUL =>
        it := FindChar(buf, from, {0});
        eolLen := if it.pos < 0 then 0 else 1;
    }
  }

  /** Behind the last chain there is no terminator. */
  lemma NothingBehind(buf: Evbuffer, p: Ptr, style: EolStyle)
    requires buf.Valid() && (Points(buf, p) || p == NOT_FOUND) && p.chain == null
    ensures p == NOT_FOUND || (p.pos == |buf.Bytes()| && NoEol(buf.Bytes(), p.pos, style))
  {
    if p != NOT_FOUND {
      var i :| PointsAt(buf, p, i);
      PointsBound(buf, p, i);
    }
  }

  lemma DropDrop(s: seq<Byte>, n: nat, m: nat)
    requires n + m <= |s|
    ensures s[n..][m..] == s[n + m..]
  {
  }

  method TakeText(buf: Evbuffer, n: nat, ghost s: seq<Byte>) returns (text: seq<Byte>)
    requires buf.Valid() && !buf.freezeStart && s == buf.Bytes() && n <= |s|
    modifies buf`first, buf`last, buf`lastWithDatap, buf`totalLen, buf`chains, buf`data, buf`dataIdx, buf.chains
    ensures buf.Valid() && text == s[..n] && buf.Bytes() == s[n..]
    ensures forall j | 0 <= j < |buf.chains| :: buf.chains[j] in old(buf.chains)
  {
    var r;
    r, text := Remove(buf, n);
  }

  method DropText(buf: Evbuffer, n: nat, ghost s: seq<Byte>)
    requires buf.Valid() && !buf.freezeStart && s == buf.Bytes() && n <= |s|
    modifies buf`first, buf`last, buf`lastWithDatap, buf`totalLen, buf`chains, buf`data, buf`dataIdx, buf.chains
    ensures buf.Valid() && buf.Bytes() == s[n..]
    ensures forall j | 0 <= j < |buf.chains| :: buf.chains[j] in old(buf.chains)
  {
    var r := Drain(buf, n);
  }

  /** Removes n bytes and drains the terminator behind them. */
  method TakeLine(buf: Evbuffer, n: nat, extra: nat) returns (text: seq<Byte>)
    requires buf.Valid() && !buf.freezeStart && n + extra <= |buf.Bytes()|
    modifies buf`first, buf`last, buf`lastWithDatap, buf`totalLen, buf`chains, buf`data, buf`dataIdx, buf.chains
    ensures buf.Valid() && text == old(buf.Bytes())[..n] && buf.Bytes() == old(buf.Bytes())[n + extra..]
    ensures forall c | c in buf.chains :: c in old(buf.chains)
  {
    ghost var s := buf.Bytes();
    text := TakeText(buf, n, s);
    DropText(buf, extra, s[n..]);
    DropDrop(s, n, extra);
  }

  /** The line is what stands before the first terminator of s, and the rest is what stands behind it. */
  ghost predicate LineTaken(s: seq<Byte>, style: EolStyle, line: seq<Byte>, rest: seq<Byte>) {
    var n := |s| - |rest| - |line|;
    n >= 0 && IsEol(s, 0, style, |line|, n) && s[..|line|] == line && s[|line| + n..] == rest
  }

  lemma TakenAt(s: seq<Byte>, style: EolStyle, q: nat, n: nat, line: seq<Byte>, rest: seq<Byte>)
    requires IsEol(s, 0, style, q, n) && q + n <= |s| && line == s[..q] && rest == s[q + n..]
    ensures LineTaken(s, style, line, rest)
  {
  }

  /** Takes the line before the terminator that was found, and the terminator. */
  method TakeFirst(buf: Evbuffer, ghost style: EolStyle, q: nat, n: nat) returns (text: seq<Byte>)
    requires buf.Valid() && !buf.freezeStart && IsEol(buf.Bytes(), 0, style, q, n) && q + n <= |buf.Bytes()|
    modifies buf`first, buf`last, buf`lastWithDatap, buf`totalLen, buf`chains, buf`data, buf`dataIdx, buf.chains
    ensures buf.Valid() && LineTaken(old(buf.Bytes()), style, text, buf.Bytes())
    ensures forall c | c in buf.chains :: c in old(buf.chains)
  {
    ghost var s := buf.Bytes();
    text := TakeLine(buf, q, n);
    TakenAt(s, style, q, n, text, buf.Bytes());
  }

  /** evbuffer_readln: takes the first line and its terminator, or nothing. */
  method Readln(buf: Evbuffer, style: EolStyle, short: bool) returns (line: Option<seq<Byte>>)
    requires buf.Valid() && buf.totalLen <= SIZE_MAX
    modifies buf`first, buf`last, buf`lastWithDatap, buf`totalLen, buf`chains, buf`data, buf`dataIdx, buf.chains
    ensures buf.Valid()
    ensures line.None? <==> buf.freezeStart || short || NoEol(old(buf.Bytes()), 0, style)
    ensures line.None? ==> buf.Bytes() == old(buf.Bytes())
    ensures line.Some? ==> LineTaken(old(buf.Bytes()), style, line.value, buf.Bytes())
    ensures forall c | c in buf.chains :: c in old(buf.chains)
  {
    ghost var s := buf.Bytes();
    if buf.freezeStart {
      return None;
    }
    var it, extra := SearchEol(buf, None, style);
    if it.pos < 0 {
      return None;
    }
    EolUnique(s, 0, style, it.pos, extra, it.pos, extra);
    LineHasNoEol(s, style, it.pos, extra);
    if short {
      return None;
    }
    var text := TakeFirst(buf, style, it.pos, extra);
    line := Some(text);
  }
}
