/** Where the encoder breaks lines, and how long its text is. */
module Base64Lines {
  import opened SeqFacts
  import opened Segments
  import opened Base64

  /** A text cut into lines of n characters, every line ended by a line feed, 0x0A; left alone if n is 0. */
  function Lines(cs: seq<Byte>, n: nat): seq<Byte>
    decreases |cs|
  {
    if n == 0 then cs
    else if |cs| <= n then cs + [0x0A]
    else cs[..n] + ([0x0A] + Lines(cs[n..], n))
  }

  // ----- the break check, character by character -----

  /** The column after one more character. */
  function NextCol(col: nat, n: nat): nat {
    if n > 0 && col >= n then 1 else col + 1
  }

  function Cols(col: nat, n: nat, count: nat): nat
    decreases count
  {
    if count == 0 then col else Cols(NextCol(col, n), n, count - 1)
  }

  /** Characters written from a column on, a newline before each that would not fit. */
  function Wrapped(cs: seq<Byte>, n: nat, col: nat): seq<Byte>
    decreases |cs|
  {
    if cs == [] then []
    else (if n > 0 && col >= n then [NEWLINE, cs[0]] else [cs[0]]) + Wrapped(cs[1..], n, NextCol(col, n))
  }

  lemma {:induction false} WrappedConcat(a: seq<Byte>, b: seq<Byte>, n: nat, col: nat)
    ensures Wrapped(a + b, n, col) == Wrapped(a, n, col) + Wrapped(b, n, Cols(col, n, |a|))
    decreases |a|
  {
    if a == [] {
      EmptyConcat(a, b);
    } else {
      var col1 := NextCol(col, n);
      TailOfConcat(a, b);
      WrappedConcat(a[1..], b, n, col1);
      ConcatAssoc(if n > 0 && col >= n then [NEWLINE, a[0]] else [a[0]],
                  Wrapped(a[1..], n, col1), Wrapped(b, n, Cols(col, n, |a|)));
    }
  }

  lemma {:induction false} ColsAdd(col: nat, n: nat, a: nat, b: nat)
    ensures Cols(col, n, a + b) == Cols(Cols(col, n, a), n, b)
    decreases a
  {
    if a > 0 {
      ColsAdd(NextCol(col, n), n, a - 1, b);
    }
  }

  /** While the line has room nothing is inserted. */
  lemma {:induction false} WrappedFits(cs: seq<Byte>, n: nat, col: nat)
    requires n == 0 || col + |cs| <= n
    ensures Wrapped(cs, n, col) == cs && Cols(col, n, |cs|) == col + |cs|
    decreases |cs|
  {
    if cs != [] {
      WrappedFits(cs[1..], n, col + 1);
      assert cs == [cs[0]] + cs[1..];
    }
  }

  /** A full line: the newline comes first, then everything as on a new line. */
  lemma WrappedFull(cs: seq<Byte>, n: nat)
    requires n > 0 && cs != []
    ensures Wrapped(cs, n, n) == [NEWLINE] + Wrapped(cs, n, 0)
  {
    ConcatAssoc([NEWLINE], [cs[0]], Wrapped(cs[1..], n, 1));
  }

  /** The break check with the final newline cuts the text into lines. */
  lemma {:induction false} WrappedIsLines(cs: seq<Byte>, n: nat)
    requires n > 0
    ensures Wrapped(cs, n, 0) + [NEWLINE] == Lines(cs, n)
    decreases |cs|
  {
    if |cs| <= n {
      WrappedFits(cs, n, 0);
    } else {
      var a, b := cs[..n], cs[n..];
      assert cs == a + b;
      WrappedConcat(a, b, n, 0);
      WrappedFits(a, n, 0);
      WrappedFull(b, n);
      WrappedIsLines(b, n);
      ConcatAssoc(a, [NEWLINE] + Wrapped(b, n, 0), [NEWLINE]);
      ConcatAssoc([NEWLINE], Wrapped(b, n, 0), [NEWLINE]);
    }
  }

  // ----- the encoder against the one without line breaks -----

  lemma EmitWraps(s: EncState, c: Byte)
    ensures Emit(s, c) == Wrapped([c], s.perLine, s.stepCount)
    ensures Counted(s).stepCount == Cols(s.stepCount, s.perLine, 1)
  {
    assert [c][1..] == [];
  }

  /** Same step and same pending bits; the columns of s are what the characters so far make them. */
  predicate Alike(s: EncState, u: EncState) {
    s.step == u.step && s.result == u.result && u.perLine == 0
  }

  lemma ByteWraps(s: EncState, u: EncState, b: Byte)
    requires Alike(s, u)
    ensures EncodeByteOut(s, b) == Wrapped(EncodeByteOut(u, b), s.perLine, s.stepCount)
    ensures Alike(EncodeByteState(s, b), EncodeByteState(u, b))
    ensures EncodeByteState(s, b).stepCount == Cols(s.stepCount, s.perLine, |EncodeByteOut(u, b)|)
    ensures EncodeByteState(s, b).perLine == s.perLine
  {
    if s.step == C {
      TwoWrap(s, EncodeValue(s.result | ((b & 0xC0) >> 6)), EncodeValue(b & 0x3F));
    } else {
      EmitWraps(s, EncodeByteOut(u, b)[0]);
    }
  }

  lemma TwoWrap(s: EncState, c: Byte, d: Byte)
    ensures Emit(s, c) + Emit(Counted(s), d) == Wrapped([c] + [d], s.perLine, s.stepCount)
    ensures Counted(Counted(s)).stepCount == Cols(s.stepCount, s.perLine, 2)
  {
    EmitWraps(s, c);
    EmitWraps(Counted(s), d);
    WrappedConcat([c], [d], s.perLine, s.stepCount);
    ColsAdd(s.stepCount, s.perLine, 1, 1);
  }

  lemma {:induction false} BytesWrap(s: EncState, u: EncState, bs: seq<Byte>)
    requires Alike(s, u)
    ensures EncodeOut(s, bs) == Wrapped(EncodeOut(u, bs), s.perLine, s.stepCount)
    ensures Alike(EncodeState(s, bs), EncodeState(u, bs))
    ensures EncodeState(s, bs).stepCount == Cols(s.stepCount, s.perLine, |EncodeOut(u, bs)|)
    ensures EncodeState(s, bs).perLine == s.perLine
    decreases |bs|
  {
    if bs != [] {
      var s1, u1 := EncodeByteState(s, bs[0]), EncodeByteState(u, bs[0]);
      var o := EncodeByteOut(u, bs[0]);
      ByteWraps(s, u, bs[0]);
      BytesWrap(s1, u1, bs[1..]);
      WrappedConcat(o, EncodeOut(u1, bs[1..]), s.perLine, s.stepCount);
      ColsAdd(s.stepCount, s.perLine, |o|, |EncodeOut(u1, bs[1..])|);
    }
  }

  lemma EndWraps(s: EncState, u: EncState)
    requires Alike(s, u)
    ensures EndOut(s) == Wrapped(EndOut(u), s.perLine, s.stepCount) + LineEnd(s)
  {
    match s.step
    case A =>
    case B =>
      var v := EncodeValue(s.result);
      TwoWrap(s, v, PAD);
      EmitWraps(Counted(Counted(s)), PAD);
      WrappedConcat([v] + [PAD], [PAD], s.perLine, s.stepCount);
      assert EndOut(u) == ([v] + [PAD]) + [PAD];
    case C =>
      var v := EncodeValue(s.result);
      TwoWrap(s, v, PAD);
      assert EndOut(u) == [v] + [PAD];
  }

  /** The text for any bytes and line length is the RFC's text, cut into lines. */
  lemma EncodedIsRfc4648Lines(bs: seq<Byte>, perLine: nat)
    ensures Encoded(bs, perLine) == Lines(Rfc4648(bs), perLine)
  {
    var s, u := FreshEncoder(perLine), FreshEncoder(0);
    BytesWrap(s, u, bs);
    UnbrokenIsRfc4648(u, bs);
    var s1, u1 := EncodeState(s, bs), EncodeState(u, bs);
    EndWraps(s1, u1);
    WrappedConcat(EncodeOut(u, bs), EndOut(u1), perLine, 0);
    ConcatAssoc(EncodeOut(s, bs), Wrapped(EndOut(u1), perLine, s1.stepCount), LineEnd(s1));
    if perLine > 0 {
      WrappedIsLines(Rfc4648(bs), perLine);
    } else {
      WrappedFits(Rfc4648(bs), 0, 0);
      EmptyConcat(LineEnd(s1), Rfc4648(bs));
    }
  }

  // ----- lengths -----

  const SIZE_MAX: int := 0xFFFF_FFFF_FFFF_FFFF

  function Quads(plainLen: nat): nat {
    (plainLen + 2) / 3
  }

  lemma {:induction false} TextLength(bs: seq<Byte>, t: seq<Byte>)
    requires |t| == 64
    ensures |Text(bs, t)| == 4 * Quads(|bs|)
    decreases |bs|
  {
    if |bs| >= 3 {
      TextLength(bs[3..], t);
    }
  }

  function LinesLength(len: nat, n: nat): nat {
    if n == 0 then len else if len == 0 then 1 else len + (len - 1) / n + 1
  }

  lemma {:induction false} LinesHaveLength(cs: seq<Byte>, n: nat)
    ensures |Lines(cs, n)| == LinesLength(|cs|, n)
    decreases |cs|
  {
    if n > 0 && |cs| > n {
      LinesHaveLength(cs[n..], n);
      OneLineLess(|cs| - 1, n);
    } else if n > 0 && cs != [] {
      SmallQuotient(|cs| - 1, n);
    }
  }

  lemma OneLineLess(x: nat, n: nat)
    requires n > 0 && x >= n
    ensures x / n == (x - n) / n + 1
  {
    var q, r := (x - n) / n, (x - n) % n;
    assert x == (q + 1) * n + r by {
      assert x - n == q * n + r;
      assert (q + 1) * n == q * n + n;
    }
    QuotientIs(x, n, q + 1, r);
  }

  lemma QuotientIs(x: nat, n: nat, q: nat, r: nat)
    requires r < n && x == q * n + r
    ensures x / n == q
  {
    var p, s := x / n, x % n;
    assert p * n + s == q * n + r;
    assert p < q ==> (p + 1) * n <= q * n;
    assert p > q ==> (q + 1) * n <= p * n;
  }

  lemma SmallQuotient(x: nat, n: nat)
    requires x < n
    ensures x / n == 0
  {
  }

  lemma EncodedLength(bs: seq<Byte>, perLine: nat)
    ensures |Encoded(bs, perLine)| == LinesLength(4 * Quads(|bs|), perLine)
  {
    EncodedIsRfc4648Lines(bs, perLine);
    TextLength(bs, Table());
    LinesHaveLength(Rfc4648(bs), perLine);
  }

  /** base64_encode_length in 64-bit arithmetic. */
  function EncodeLength(plainLen: nat, perLine: nat): nat
    requires plainLen <= SIZE_MAX
  {
    var retmax := SIZE_MAX;
    var retval := ((plainLen + 2) % (SIZE_MAX + 1)) / 3;
    if retval > retmax / 4 then 0
    else
      var text := retval * 4;
      if text != 0 && perLine != 0 then
        var breaks := (text - 1) / perLine + 1;
        if breaks < retmax - text then breaks + text else 0
      else text
  }

  /** The promise of base64_encode_length: the exact length of the text, or 0 when there are no bytes,
      or when the text with one byte after it does not fit the size type (without line breaks: when
      the text itself does not). */
  lemma EncodeLengthIsExact(bs: seq<Byte>, perLine: nat)
    requires |bs| <= SIZE_MAX
    ensures var total := |Encoded(bs, perLine)|;
            var tooLong := if perLine == 0 then total > SIZE_MAX else total >= SIZE_MAX;
            EncodeLength(|bs|, perLine) == if bs == [] || tooLong then 0 else total
  {
    EncodedLength(bs, perLine);
    LengthInMachine(|bs|, perLine);
  }

  lemma LengthInMachine(n: nat, perLine: nat)
    requires n <= SIZE_MAX
    ensures var total := LinesLength(4 * Quads(n), perLine);
            var tooLong := if perLine == 0 then total > SIZE_MAX else total >= SIZE_MAX;
            EncodeLength(n, perLine) == if n == 0 || tooLong then 0 else total
  {
    LinesAreLonger(4 * Quads(n), perLine);
    if n + 2 > SIZE_MAX {
      assert (n + 2) % (SIZE_MAX + 1) == n + 2 - (SIZE_MAX + 1);
      assert ((n + 2) % (SIZE_MAX + 1)) / 3 == 0;
      assert 4 * Quads(n) > SIZE_MAX;
    } else {
      assert (n + 2) % (SIZE_MAX + 1) == n + 2;
    }
  }

  lemma LinesAreLonger(len: nat, n: nat)
    ensures LinesLength(len, n) >= len
    ensures n > 0 && len > 0 ==> LinesLength(len, n) == len + (len - 1) / n + 1 && (len - 1) / n >= 0
  {
    if n > 0 && len > 0 {
      QuotientIsNatural(len - 1, n);
    }
  }

  lemma QuotientIsNatural(x: nat, n: nat)
    requires n > 0
    ensures x / n >= 0
  {
  }

  /** base64_decode_maxlength. */
  function DecodeMaxLength(len: nat): nat {
    len / 4 * 3 + 2
  }

  /** How many characters of its group of four a decoder has taken. */
  function Taken(s: DecState): nat {
    match s
    case StepA => 0
    case StepB(_) => 1
    case StepC(_) => 2
    case StepD(_) => 3
  }

  /** Bytes complete after so many characters of the alphabet. */
  function Complete(chars: nat): nat {
    chars / 4 * 3 + (if chars % 4 == 0 then 0 else chars % 4 - 1)
  }

  lemma OneDecoded(s: DecState, c: Byte)
    ensures var t, u, n := Taken(s), Taken(DecodeCharState(s, c)), |DecodeCharOut(s, c)|;
            || (u == t && n == 0)
            || (t < 3 && u == t + 1 && n + Complete(t) == Complete(t + 1))
            || (t == 3 && u == 0 && n == 1)
  {
  }

  lemma {:induction false} DecodedCount(s: DecState, cs: seq<Byte>)
    ensures |DecodeOut(s, cs)| + Complete(Taken(s)) <= Complete(Taken(s) + |cs|)
    decreases |cs|
  {
    if cs != [] {
      DecodedCount(DecodeCharState(s, cs[0]), cs[1..]);
      GroupsAdd(|cs| - 1);
      CompleteGrows(Taken(s) + |cs| - 1);
      OneDecoded(s, cs[0]);
    }
  }

  lemma GroupsAdd(n: nat)
    ensures Complete(4 + n) == 3 + Complete(n)
  {
  }

  lemma CompleteGrows(n: nat)
    ensures Complete(n) <= Complete(n + 1)
  {
  }

  /** The bound is reached, up to two bytes: by a text of so many As. */
  lemma DecodeMaxLengthIsTight(cs: seq<Byte>)
    requires forall c | c in cs :: c == 0x41
    ensures |DecodeOut(StepA, cs)| + 2 >= DecodeMaxLength(|cs|)
    ensures |cs| % 4 == 3 ==> |DecodeOut(StepA, cs)| == DecodeMaxLength(|cs|)
  {
    AllDecoded(StepA, cs);
  }

  lemma {:induction false} AllDecoded(s: DecState, cs: seq<Byte>)
    requires forall c | c in cs :: c == 0x41
    ensures |DecodeOut(s, cs)| + Complete(Taken(s)) == Complete(Taken(s) + |cs|)
    decreases |cs|
  {
    if cs != [] {
      assert cs[0] in cs;
      forall c | c in cs[1..] ensures c == 0x41 {
        assert c in cs;
      }
      AllDecoded(DecodeCharState(s, cs[0]), cs[1..]);
      GroupsAdd(|cs| - 1);
      OneDecoded(s, cs[0]);
    }
  }

  /** From a fresh state one call delivers at most base64_decode_maxlength bytes, whatever it is fed. */
  lemma DecodeMaxLengthHolds(cs: seq<Byte>)
    ensures |DecodeOut(StepA, cs)| <= DecodeMaxLength(|cs|)
  {
    DecodedCount(StepA, cs);
  }
}
