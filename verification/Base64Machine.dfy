/** The resumable encoder and decoder as the program runs them: a state kept between calls, and an
    output pointer that moves through the caller's buffer. */
module Base64Machine {
  import opened SeqFacts
  import opened Segments
  import opened Base64

  class Encoder {
    var step: EncStep
    var result: Byte
    var stepCount: nat
    const perLine: nat

    ghost function State(): EncState
      reads this
    {
      EncState(step, result, stepCount, perLine)
    }

    constructor (perLine: nat)
      ensures State() == FreshEncoder(perLine)
    {
      step, result, stepCount, this.perLine := A, 0, 0, perLine;
    }

    /** CHECK_BREAK and one character. */
    method Put(c: Byte, out: array<Byte>, pos: nat) returns (end: nat)
      requires pos + |Emit(State(), c)| <= out.Length
      modifies this`stepCount, out
      ensures end == pos + |Emit(old(State()), c)|
      ensures out[..end] == old(out[..pos]) + Emit(old(State()), c)
      ensures forall k | end <= k < out.Length :: out[k] == old(out[k])
      ensures State() == Counted(old(State()))
    {
      end := pos;
      if perLine > 0 && stepCount >= perLine {
        out[end] := NEWLINE;
        end := end + 1;
        stepCount := 0;
      }
      stepCount := stepCount + 1;
      out[end] := c;
      end := end + 1;
    }

    method PutTwo(c: Byte, d: Byte, out: array<Byte>, pos: nat) returns (end: nat)
      requires pos + |Emit(State(), c)| + |Emit(Counted(State()), d)| <= out.Length
      modifies this`stepCount, out
      ensures end == pos + |Emit(old(State()), c)| + |Emit(Counted(old(State())), d)|
      ensures out[..end] == old(out[..pos]) + (Emit(old(State()), c) + Emit(Counted(old(State())), d))
      ensures forall k | end <= k < out.Length :: out[k] == old(out[k])
      ensures State() == Counted(Counted(old(State())))
    {
      ghost var s, before := State(), out[..pos];
      end := Put(c, out, pos);
      end := Put(d, out, end);
      ConcatAssoc(before, Emit(s, c), Emit(Counted(s), d));
    }

    /** One character, and what is kept for the next byte. */
    method Write(c: Byte, rest: Byte, next: EncStep, out: array<Byte>, pos: nat) returns (end: nat)
      requires pos + |Emit(State(), c)| <= out.Length
      modifies this, out
      ensures end == pos + |Emit(old(State()), c)|
      ensures out[..end] == old(out[..pos]) + Emit(old(State()), c)
      ensures forall k | end <= k < out.Length :: out[k] == old(out[k])
      ensures State() == Counted(old(State())).(step := next, result := rest)
    {
      end := Put(c, out, pos);
      result := rest;
      step := next;
    }

    /** The bits of a byte, by step: the character or characters it completes, and the rest. */
    method FirstOf(b: Byte) returns (c: Byte, rest: Byte)
      requires step == A
      ensures EncodeByteOut(State(), b) == Emit(State(), c)
      ensures EncodeByteState(State(), b) == Counted(State()).(step := B, result := rest)
    {
      c, rest := EncodeValue((b & 0xFC) >> 2), (b & 0x03) << 4;
    }

    method SecondOf(b: Byte) returns (c: Byte, rest: Byte)
      requires step == B
      ensures EncodeByteOut(State(), b) == Emit(State(), c)
      ensures EncodeByteState(State(), b) == Counted(State()).(step := C, result := rest)
    {
      c, rest := EncodeValue(result | ((b & 0xF0) >> 4)), (b & 0x0F) << 2;
    }

    method ThirdOf(b: Byte) returns (c: Byte, d: Byte, rest: Byte)
      requires step == C
      ensures EncodeByteOut(State(), b) == Emit(State(), c) + Emit(Counted(State()), d)
      ensures EncodeByteState(State(), b) == Counted(Counted(State())).(step := A, result := rest)
    {
      c, d := EncodeValue(result | ((b & 0xC0) >> 6)), EncodeValue(b & 0x3F);
      rest := b & 0x3F;
    }

    /** The characters one input byte gives. */
    method TakeByte(b: Byte, out: array<Byte>, pos: nat) returns (end: nat)
      requires pos + |EncodeByteOut(State(), b)| <= out.Length
      modifies this, out
      ensures end == pos + |EncodeByteOut(old(State()), b)|
      ensures out[..end] == old(out[..pos]) + EncodeByteOut(old(State()), b)
      ensures forall k | end <= k < out.Length :: out[k] == old(out[k])
      ensures State() == EncodeByteState(old(State()), b)
    {
      match step {
        case A =>
          end := TakeFirst(b, out, pos);
        case B =>
          end := TakeSecond(b, out, pos);
        case C =>
          end := TakeThird(b, out, pos);
      }
    }

    method TakeFirst(b: Byte, out: array<Byte>, pos: nat) returns (end: nat)
      requires step == A && pos + |EncodeByteOut(State(), b)| <= out.Length
      modifies this, out
      ensures end == pos + |EncodeByteOut(old(State()), b)|
      ensures out[..end] == old(out[..pos]) + EncodeByteOut(old(State()), b)
      ensures forall k | end <= k < out.Length :: out[k] == old(out[k])
      ensures State() == EncodeByteState(old(State()), b)
    {
      var c, rest := FirstOf(b);
      end := Write(c, rest, B, out, pos);
    }

    method TakeSecond(b: Byte, out: array<Byte>, pos: nat) returns (end: nat)
      requires step == B && pos + |EncodeByteOut(State(), b)| <= out.Length
      modifies this, out
      ensures end == pos + |EncodeByteOut(old(State()), b)|
      ensures out[..end] == old(out[..pos]) + EncodeByteOut(old(State()), b)
      ensures forall k | end <= k < out.Length :: out[k] == old(out[k])
      ensures State() == EncodeByteState(old(State()), b)
    {
      var c, rest := SecondOf(b);
      end := Write(c, rest, C, out, pos);
    }

    method TakeThird(b: Byte, out: array<Byte>, pos: nat) returns (end: nat)
      requires step == C && pos + |EncodeByteOut(State(), b)| <= out.Length
      modifies this, out
      ensures end == pos + |EncodeByteOut(old(State()), b)|
      ensures out[..end] == old(out[..pos]) + EncodeByteOut(old(State()), b)
      ensures forall k | end <= k < out.Length :: out[k] == old(out[k])
      ensures State() == EncodeByteState(old(State()), b)
    {
      var c, d, rest := ThirdOf(b);
      end := PutTwo(c, d, out, pos);
      result := rest;
      step := A;
    }

    /** base64_encode_block: the number of characters written. */
    method EncodeBlock(plain: seq<Byte>, out: array<Byte>) returns (n: nat)
      requires |EncodeOut(State(), plain)| <= out.Length
      modifies this, out
      ensures n == |EncodeOut(old(State()), plain)| <= out.Length
      ensures out[..n] == EncodeOut(old(State()), plain)
      ensures forall k | n <= k < out.Length :: out[k] == old(out[k])
      ensures State() == EncodeState(old(State()), plain)
    {
      ghost var s := State();
      var i := 0;
      n := 0;
      while i < |plain|
        invariant i <= |plain| && n <= out.Length
        invariant out[..n] == EncodeOut(s, plain[..i])
        invariant forall k | n <= k < out.Length :: out[k] == old(out[k])
        invariant State() == EncodeState(s, plain[..i])
      {
        OneMoreByte(s, plain, i);
        ghost var before := out[..n];
        n := TakeByte(plain[i], out, n);
        i := i + 1;
      }
      assert plain[..i] == plain;
    }

    /** base64_encode_blockend: the pending bits, the padding, and the end of the last line. */
    method EncodeBlockEnd(out: array<Byte>) returns (n: nat)
      requires |EndOut(State())| <= out.Length
      modifies this`stepCount, out
      ensures n == |EndOut(old(State()))| <= out.Length
      ensures out[..n] == EndOut(old(State()))
      ensures forall k | n <= k < out.Length :: out[k] == old(out[k])
    {
      n := PutPending(out);
      ghost var text := out[..n];
      if perLine > 0 {
        out[n] := NEWLINE;
        n := n + 1;
        assert out[..n] == text + [NEWLINE];
      } else {
        assert text + [] == text;
      }
    }

    /** The pending bits and the padding. */
    method PutPending(out: array<Byte>) returns (n: nat)
      requires |EndOut(State())| <= out.Length
      modifies this`stepCount, out
      ensures n <= out.Length && out[..n] + LineEnd(old(State())) == EndOut(old(State()))
      ensures forall k | n <= k < out.Length :: out[k] == old(out[k])
    {
      ghost var s := State();
      n := 0;
      match step {
        case A =>
        case B =>
          n := PutTwo(EncodeValue(result), PAD, out, n);
          n := Put(PAD, out, n);
        case C =>
          n := PutTwo(EncodeValue(result), PAD, out, n);
      }
    }
  }

  lemma OneMoreByte(s: EncState, plain: seq<Byte>, i: nat)
    requires i < |plain|
    ensures var s1 := EncodeState(s, plain[..i]);
            && EncodeState(s, plain[..i + 1]) == EncodeByteState(s1, plain[i])
            && EncodeOut(s, plain[..i + 1]) == EncodeOut(s, plain[..i]) + EncodeByteOut(s1, plain[i])
    ensures |EncodeOut(s, plain[..i + 1])| <= |EncodeOut(s, plain)|
  {
    var s1 := EncodeState(s, plain[..i]);
    assert plain[..i + 1] == plain[..i] + [plain[i]];
    EncodeChunks(s, plain[..i], [plain[i]]);
    UnfoldOne(s1, [plain[i]]);
    assert [plain[i]][1..] == [];
    assert plain == plain[..i + 1] + plain[i + 1..];
    EncodeChunks(s, plain[..i + 1], plain[i + 1..]);
  }

  datatype DecStep = DA | DB | DC | DD

  class Decoder {
    var step: DecStep
    var plain: Byte

    ghost function State(): DecState
      reads this
    {
      match step
      case DA => StepA
      case DB => StepB(plain)
      case DC => StepC(plain)
      case DD => StepD(plain)
    }

    constructor ()
      ensures State() == StepA
    {
      step, plain := DA, 0;
    }

    /** base64_decode_block: the number of bytes completed. The byte after them is scratch space for
        the bits of the next one, so the buffer must be one longer than the result. */
    method DecodeBlock(code: seq<Byte>, out: array<Byte>) returns (n: nat)
      requires |DecodeOut(State(), code)| < out.Length
      modifies this, out
      ensures n == |DecodeOut(old(State()), code)| < out.Length
      ensures out[..n] == DecodeOut(old(State()), code)
      ensures forall k | n < k < out.Length :: out[k] == old(out[k])
      ensures State() == DecodeState(old(State()), code)
    {
      ghost var s := State();
      ghost var cur := s;
      out[0] := plain;
      var i, at := 0, step;
      n := 0;
      while i < |code|
        modifies out
        invariant i <= |code| && n < out.Length
        invariant cur == DecodeState(s, code[..i])
        invariant Scratch(at, cur, out[n])
        invariant out[..n] == DecodeOut(s, code[..i])
        invariant forall k | n < k < out.Length :: out[k] == old(out[k])
      {
        OneMoreChar(s, code, i);
        cur := DecodeCharState(cur, code[i]);
        n, at := TakeChar(code[i], out, n, at, DecodeState(s, code[..i]));
        i := i + 1;
      }
      assert code[..i] == code;
      step := at;
      plain := out[n];
    }

    /** One input character at step `at`, with the scratch byte at n. */
    static method TakeChar(c: Byte, out: array<Byte>, n: nat, at: DecStep, ghost cur: DecState)
      returns (n': nat, at': DecStep)
      requires n + |DecodeCharOut(cur, c)| < out.Length && Scratch(at, cur, out[n])
      modifies out
      ensures n' == n + |DecodeCharOut(cur, c)| < out.Length
      ensures out[..n'] == old(out[..n]) + DecodeCharOut(cur, c)
      ensures forall k | n' < k < out.Length :: out[k] == old(out[k])
      ensures Scratch(at', DecodeCharState(cur, c), out[n'])
    {
      var fragment := DecodeValue(c);
      if fragment >= 0x80 {
        return n, at;
      }
      n', at' := TakeFragment(fragment, out, n, at, cur);
    }

    static method TakeFragment(fragment: Byte, out: array<Byte>, n: nat, at: DecStep, ghost cur: DecState)
      returns (n': nat, at': DecStep)
      requires n + |SextetOut(cur, fragment)| < out.Length && Scratch(at, cur, out[n])
      modifies out
      ensures n' == n + |SextetOut(cur, fragment)| < out.Length
      ensures out[..n'] == old(out[..n]) + SextetOut(cur, fragment)
      ensures forall k | n' < k < out.Length :: out[k] == old(out[k])
      ensures Scratch(at', TakeSextet(cur, fragment), out[n'])
    {
      match at {
        case DA =>
          n' := AtA(fragment, out, n, cur);
          at' := DB;
        case DB =>
          n' := AtB(fragment, out, n, cur);
          at' := DC;
        case DC =>
          n' := AtC(fragment, out, n, cur);
          at' := DD;
        case DD =>
          n' := AtD(fragment, out, n, cur);
          at' := DA;
      }
    }

    static method AtA(fragment: Byte, out: array<Byte>, n: nat, ghost cur: DecState) returns (n': nat)
      requires n < out.Length && Scratch(DA, cur, out[n]) && n + |SextetOut(cur, fragment)| < out.Length
      modifies out
      ensures n' == n + |SextetOut(cur, fragment)| < out.Length
      ensures out[..n'] == old(out[..n]) + SextetOut(cur, fragment)
      ensures forall k | n' < k < out.Length :: out[k] == old(out[k])
      ensures Scratch(DB, TakeSextet(cur, fragment), out[n'])
    {
      out[n] := (fragment & 0x3F) << 2;
      return n;
    }

    static method AtB(fragment: Byte, out: array<Byte>, n: nat, ghost cur: DecState) returns (n': nat)
      requires n < out.Length && Scratch(DB, cur, out[n]) && n + |SextetOut(cur, fragment)| < out.Length
      modifies out
      ensures n' == n + |SextetOut(cur, fragment)| < out.Length
      ensures out[..n'] == old(out[..n]) + SextetOut(cur, fragment)
      ensures forall k | n' < k < out.Length :: out[k] == old(out[k])
      ensures Scratch(DC, TakeSextet(cur, fragment), out[n'])
    {
      n' := Finish((fragment & 0x30) >> 4, (fragment & 0x0F) << 4, out, n);
    }

    static method AtC(fragment: Byte, out: array<Byte>, n: nat, ghost cur: DecState) returns (n': nat)
      requires n < out.Length && Scratch(DC, cur, out[n]) && n + |SextetOut(cur, fragment)| < out.Length
      modifies out
      ensures n' == n + |SextetOut(cur, fragment)| < out.Length
      ensures out[..n'] == old(out[..n]) + SextetOut(cur, fragment)
      ensures forall k | n' < k < out.Length :: out[k] == old(out[k])
      ensures Scratch(DD, TakeSextet(cur, fragment), out[n'])
    {
      n' := Finish((fragment & 0x3C) >> 2, (fragment & 0x03) << 6, out, n);
    }

    static method AtD(fragment: Byte, out: array<Byte>, n: nat, ghost cur: DecState) returns (n': nat)
      requires n < out.Length && Scratch(DD, cur, out[n]) && n + |SextetOut(cur, fragment)| < out.Length
      modifies out
      ensures n' == n + |SextetOut(cur, fragment)| < out.Length
      ensures out[..n'] == old(out[..n]) + SextetOut(cur, fragment)
      ensures forall k | n' < k < out.Length :: out[k] == old(out[k])
      ensures Scratch(DA, TakeSextet(cur, fragment), out[n'])
    {
      n' := FinishLast(fragment & 0x3F, out, n);
    }

    /** Complete the scratch byte; the next group starts with a clean one. */
    static method FinishLast(bits: Byte, out: array<Byte>, n: nat) returns (n': nat)
      requires n + 1 < out.Length
      modifies out
      ensures n' == n + 1
      ensures out[..n'] == old(out[..n]) + [old(out[n]) | bits]
      ensures forall k | n' <= k < out.Length :: out[k] == old(out[k])
    {
      ghost var before := out[..n];
      out[n] := out[n] | bits;
      n' := n + 1;
      assert out[..n'] == before + [out[n]];
    }

    /** Complete the scratch byte, move on, and start the next one. */
    static method Finish(bits: Byte, start: Byte, out: array<Byte>, n: nat) returns (n': nat)
      requires n + 1 < out.Length
      modifies out
      ensures n' == n + 1
      ensures out[..n'] == old(out[..n]) + [old(out[n]) | bits] && out[n'] == start
      ensures forall k | n' < k < out.Length :: out[k] == old(out[k])
    {
      ghost var before := out[..n];
      out[n] := out[n] | bits;
      n' := n + 1;
      assert out[..n'] == before + [out[n]];
      out[n'] := start;
    }
  }

  /** The step variable and the scratch byte stand for this decoder state. */
  ghost predicate Scratch(at: DecStep, s: DecState, scratch: Byte) {
    match s
    case StepA => at == DA
    case StepB(p) => at == DB && p == scratch
    case StepC(p) => at == DC && p == scratch
    case StepD(p) => at == DD && p == scratch
  }

  lemma OneMoreChar(s: DecState, code: seq<Byte>, i: nat)
    requires i < |code|
    ensures var s1 := DecodeState(s, code[..i]);
            && DecodeState(s, code[..i + 1]) == DecodeCharState(s1, code[i])
            && DecodeOut(s, code[..i + 1]) == DecodeOut(s, code[..i]) + DecodeCharOut(s1, code[i])
    ensures |DecodeOut(s, code[..i + 1])| <= |DecodeOut(s, code)|
  {
    var s1 := DecodeState(s, code[..i]);
    assert code[..i + 1] == code[..i] + [code[i]];
    DecodeChunks(s, code[..i], [code[i]]);
    DecodeOne(s1, code[i]);
    assert code == code[..i + 1] + code[i + 1..];
    DecodeChunks(s, code[..i + 1], code[i + 1..]);
  }
}
