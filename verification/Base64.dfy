/** Base64 of RFC 4648 section 4, one character and one byte at a time: what the resumable encoder
    and decoder compute, and why decoding undoes encoding. */
module Base64 {
  import opened SeqFacts
  import opened Segments

  const NEWLINE: Byte := 0x0A
  const PAD: Byte := 0x3D

  // ----- the alphabet of the RFC -----

  /** Table 1 of section 4 of RFC 4648: the character of each value. */
  const ALPHABET: string :=
    "ABCDEFGHIJKLMNOPQRSTUVWXYZ" + "abcdefghijklmnopqrstuvwxyz" + "0123456789" + "+/"

  /** A character of US-ASCII as a byte. */
  function Ascii(c: char): Byte
    requires c as int < 128
  {
    c as int as bv8
  }

  lemma UpperCase(i: nat)
    requires i < 26
    ensures i < |ALPHABET| && ALPHABET[i] as int == 0x41 + i
  {
  }

  lemma LowerCase(i: nat)
    requires 26 <= i < 52
    ensures i < |ALPHABET| && ALPHABET[i] as int == 0x61 + i - 26
  {
  }

  lemma Digits(i: nat)
    requires 52 <= i < 62
    ensures i < |ALPHABET| && ALPHABET[i] as int == 0x30 + i - 52
  {
  }

  lemma LastTwoOfTable()
    ensures |ALPHABET| == 64 && ALPHABET[62] as int == 0x2B && ALPHABET[63] as int == 0x2F
  {
  }

  lemma TableRow(i: nat)
    requires i < 64
    ensures i < |ALPHABET| && ALPHABET[i] as int < 128
    ensures ALPHABET[i] as int
         == if i < 26 then 0x41 + i else if i < 52 then 0x61 + i - 26 else if i < 62 then 0x30 + i - 52
            else if i == 62 then 0x2B else 0x2F
  {
    if i < 26 {
      UpperCase(i);
    } else if i < 52 {
      LowerCase(i);
    } else if i < 62 {
      Digits(i);
    } else {
      LastTwoOfTable();
    }
  }

  function Column(i: nat): Byte
    requires i < 64
  {
    TableRow(i);
    Ascii(ALPHABET[i])
  }

  /** The table as bytes. */
  function Table(): (t: seq<Byte>)
    ensures |t| == 64
  {
    seq(64, i requires 0 <= i < 64 => Column(i))
  }

  // ----- the tables of the program -----

  /** The encoder's character for a value; '=' for a value beyond the alphabet. */
  function EncodeValue(v: Byte): Byte {
    if v > 63 then PAD
    else if v < 26 then 0x41 + v
    else if v < 52 then 0x61 + (v - 26)
    else if v < 62 then 0x30 + (v - 52)
    else if v == 62 then 0x2B
    else 0x2F
  }

  /** The value of a character, read as a signed char; a result with the top bit set is negative:
      -2 for '=', -1 for everything else outside the alphabet. */
  function DecodeValue(c: Byte): Byte {
    if c >= 0x80 || c < 0x2B || c > 0x7A then 0xFF
    else if c == 0x2B then 62
    else if c == 0x2F then 63
    else if 0x30 <= c <= 0x39 then c - 0x30 + 52
    else if c == PAD then 0xFE
    else if 0x41 <= c <= 0x5A then c - 0x41
    else if 0x61 <= c <= 0x7A then c - 0x61 + 26
    else 0xFF
  }

  predicate Negative(v: Byte) {
    v >= 0x80
  }

  lemma DecodeValueInverts(v: Byte)
    requires v <= 63
    ensures DecodeValue(EncodeValue(v)) == v && EncodeValue(v) != NEWLINE && EncodeValue(v) != PAD
  {
  }

  /** The encoder's table is that of the RFC, and '=' is its padding. */
  lemma EncodeValueIsTable(v: Byte)
    ensures v <= 63 ==> EncodeValue(v) == Table()[v as nat]
    ensures v > 63 ==> EncodeValue(v) == Ascii('=')
  {
    if v <= 63 {
      TableRow(v as nat);
      EncodedNumber(v);
      assert EncodeValue(v) == (EncodeValue(v) as nat) as bv8;
    }
  }

  lemma EncodedNumber(v: Byte)
    requires v <= 63
    ensures v as nat < 64
    ensures EncodeValue(v) as nat
         == if v as nat < 26 then 0x41 + v as nat else if v as nat < 52 then 0x61 + v as nat - 26
            else if v as nat < 62 then 0x30 + v as nat - 52 else if v as nat == 62 then 0x2B else 0x2F
  {
  }

  /** The decoder's table is its inverse. */
  lemma DecodeValueIsIndex(c: Byte)
    ensures |ALPHABET| == 64
    ensures forall i | 0 <= i < 64 && ALPHABET[i] as int == c as int ::
              DecodeValue(c) as nat == i && !Negative(DecodeValue(c))
  {
    LastTwoOfTable();
    forall i | 0 <= i < 64 && ALPHABET[i] as int == c as int
      ensures DecodeValue(c) as nat == i && !Negative(DecodeValue(c))
    {
      TableRow(i);
      DecodedNumber(c);
    }
  }

  lemma DecodedNumber(c: Byte)
    ensures 0x41 <= c as nat <= 0x5A ==> DecodeValue(c) as nat == c as nat - 0x41 && !Negative(DecodeValue(c))
    ensures 0x61 <= c as nat <= 0x7A ==> DecodeValue(c) as nat == c as nat - 0x61 + 26 && !Negative(DecodeValue(c))
    ensures 0x30 <= c as nat <= 0x39 ==> DecodeValue(c) as nat == c as nat - 0x30 + 52 && !Negative(DecodeValue(c))
    ensures c as nat == 0x2B ==> DecodeValue(c) as nat == 62 && !Negative(DecodeValue(c))
    ensures c as nat == 0x2F ==> DecodeValue(c) as nat == 63 && !Negative(DecodeValue(c))
  {
  }

  /** A byte outside the alphabet, and only such a byte, is skipped. */
  lemma SkippedIff(c: Byte, s: DecState)
    ensures Negative(DecodeValue(c)) <==> forall x | x in ALPHABET :: x as int != c as int
    ensures Negative(DecodeValue(c)) ==> DecodeCharState(s, c) == s && DecodeCharOut(s, c) == []
  {
    if Negative(DecodeValue(c)) {
      DecodeValueIsIndex(c);
    } else {
      EncodeValueInverts(c);
      var v := DecodeValue(c);
      EncodedNumber(v);
      TableRow(v as nat);
      assert ALPHABET[v as nat] in ALPHABET;
    }
  }

  lemma EncodeValueInverts(c: Byte)
    requires !Negative(DecodeValue(c))
    ensures DecodeValue(c) <= 63 && EncodeValue(DecodeValue(c)) == c
  {
  }

  // ----- the encoder -----

  datatype EncStep = A | B | C

  /** `result` holds the bits of the last byte that are not written yet; `stepCount` the characters
      on the current line; no line breaks if `perLine` is 0. */
  datatype EncState = EncState(step: EncStep, result: Byte, stepCount: nat, perLine: nat)

  function FreshEncoder(perLine: nat): EncState {
    EncState(A, 0, 0, perLine)
  }

  predicate LineFull(s: EncState) {
    s.perLine > 0 && s.stepCount >= s.perLine
  }

  /** The line-break check and one character. */
  function Emit(s: EncState, c: Byte): seq<Byte> {
    if LineFull(s) then [NEWLINE, c] else [c]
  }

  function Counted(s: EncState): EncState {
    s.(stepCount := if LineFull(s) then 1 else s.stepCount + 1)
  }

  function EncodeByteState(s: EncState, b: Byte): EncState {
    match s.step
    case A => Counted(s).(step := B, result := (b & 0x03) << 4)
    case B => Counted(s).(step := C, result := (b & 0x0F) << 2)
    case C => Counted(Counted(s)).(step := A, result := b & 0x3F)
  }

  function EncodeByteOut(s: EncState, b: Byte): seq<Byte> {
    match s.step
    case A => Emit(s, EncodeValue((b & 0xFC) >> 2))
    case B => Emit(s, EncodeValue(s.result | ((b & 0xF0) >> 4)))
    case C => Emit(s, EncodeValue(s.result | ((b & 0xC0) >> 6))) + Emit(Counted(s), EncodeValue(b & 0x3F))
  }

  /** The encoder after a block, and what it wrote for it. */
  function EncodeState(s: EncState, bs: seq<Byte>): EncState
    decreases |bs|
  {
    if bs == [] then s else EncodeState(EncodeByteState(s, bs[0]), bs[1..])
  }

  function EncodeOut(s: EncState, bs: seq<Byte>): seq<Byte>
    decreases |bs|
  {
    if bs == [] then [] else EncodeByteOut(s, bs[0]) + EncodeOut(EncodeByteState(s, bs[0]), bs[1..])
  }

  /** What base64_encode_blockend writes. */
  function EndOut(s: EncState): seq<Byte> {
    (match s.step
     case A => []
     case B => Emit(s, EncodeValue(s.result)) + Emit(Counted(s), PAD) + Emit(Counted(Counted(s)), PAD)
     case C => Emit(s, EncodeValue(s.result)) + Emit(Counted(s), PAD))
    + LineEnd(s)
  }

  function LineEnd(s: EncState): seq<Byte> {
    if s.perLine > 0 then [NEWLINE] else []
  }

  /** The whole text for some bytes. */
  function Encoded(bs: seq<Byte>, perLine: nat): seq<Byte> {
    var s := FreshEncoder(perLine);
    EncodeOut(s, bs) + EndOut(EncodeState(s, bs))
  }

  // ----- the decoder -----

  /** The bits of a byte collected so far, one constructor for each step. */
  datatype DecState = StepA | StepB(plain: Byte) | StepC(plain: Byte) | StepD(plain: Byte)

  /** One value of six bits. */
  function TakeSextet(s: DecState, v: Byte): DecState {
    match s
    case StepA => StepB((v & 0x3F) << 2)
    case StepB(p) => StepC((v & 0x0F) << 4)
    case StepC(p) => StepD((v & 0x03) << 6)
    case StepD(p) => StepA
  }

  function SextetOut(s: DecState, v: Byte): seq<Byte> {
    match s
    case StepA => []
    case StepB(p) => [p | ((v & 0x30) >> 4)]
    case StepC(p) => [p | ((v & 0x3C) >> 2)]
    case StepD(p) => [p | (v & 0x3F)]
  }

  /** Characters outside the alphabet, padding and line breaks among them, are skipped. */
  function DecodeCharState(s: DecState, c: Byte): DecState {
    if Negative(DecodeValue(c)) then s else TakeSextet(s, DecodeValue(c))
  }

  function DecodeCharOut(s: DecState, c: Byte): seq<Byte> {
    if Negative(DecodeValue(c)) then [] else SextetOut(s, DecodeValue(c))
  }

  function DecodeState(s: DecState, cs: seq<Byte>): DecState
    decreases |cs|
  {
    if cs == [] then s else DecodeState(DecodeCharState(s, cs[0]), cs[1..])
  }

  function DecodeOut(s: DecState, cs: seq<Byte>): seq<Byte>
    decreases |cs|
  {
    if cs == [] then [] else DecodeCharOut(s, cs[0]) + DecodeOut(DecodeCharState(s, cs[0]), cs[1..])
  }

  // ----- chunking does not matter -----

  lemma {:induction false} EncodeChunks(s: EncState, a: seq<Byte>, b: seq<Byte>)
    ensures EncodeState(s, a + b) == EncodeState(EncodeState(s, a), b)
    ensures EncodeOut(s, a + b) == EncodeOut(s, a) + EncodeOut(EncodeState(s, a), b)
    decreases |a|
  {
    if a == [] {
      EmptyConcat(a, b);
    } else {
      var s1 := EncodeByteState(s, a[0]);
      TailOfConcat(a, b);
      EncodeChunks(s1, a[1..], b);
      ConcatAssoc(EncodeByteOut(s, a[0]), EncodeOut(s1, a[1..]), EncodeOut(EncodeState(s, a), b));
    }
  }

  lemma {:induction false} DecodeChunks(s: DecState, a: seq<Byte>, b: seq<Byte>)
    ensures DecodeState(s, a + b) == DecodeState(DecodeState(s, a), b)
    ensures DecodeOut(s, a + b) == DecodeOut(s, a) + DecodeOut(DecodeState(s, a), b)
    decreases |a|
  {
    if a == [] {
      EmptyConcat(a, b);
    } else {
      var s1 := DecodeCharState(s, a[0]);
      TailOfConcat(a, b);
      DecodeChunks(s1, a[1..], b);
      ConcatAssoc(DecodeCharOut(s, a[0]), DecodeOut(s1, a[1..]), DecodeOut(DecodeState(s, a), b));
    }
  }

  /** Calls of base64_encode_block on one chunk after another. */
  function EncodeCalls(s: EncState, chunks: seq<seq<Byte>>): seq<Byte>
    decreases |chunks|
  {
    if chunks == [] then EndOut(s)
    else EncodeOut(s, chunks[0]) + EncodeCalls(EncodeState(s, chunks[0]), chunks[1..])
  }

  function DecodeCalls(s: DecState, chunks: seq<seq<Byte>>): seq<Byte>
    decreases |chunks|
  {
    if chunks == [] then []
    else DecodeOut(s, chunks[0]) + DecodeCalls(DecodeState(s, chunks[0]), chunks[1..])
  }

  lemma {:induction false} EncodeCallsFlatten(s: EncState, chunks: seq<seq<Byte>>)
    ensures EncodeCalls(s, chunks) == EncodeOut(s, Flat(chunks)) + EndOut(EncodeState(s, Flat(chunks)))
    decreases |chunks|
  {
    if chunks != [] {
      EncodeCallsFlatten(EncodeState(s, chunks[0]), chunks[1..]);
      EncodeChunks(s, chunks[0], Flat(chunks[1..]));
    }
  }

  lemma {:induction false} DecodeCallsFlatten(s: DecState, chunks: seq<seq<Byte>>)
    ensures DecodeCalls(s, chunks) == DecodeOut(s, Flat(chunks))
    decreases |chunks|
  {
    if chunks != [] {
      DecodeCallsFlatten(DecodeState(s, chunks[0]), chunks[1..]);
      DecodeChunks(s, chunks[0], Flat(chunks[1..]));
    }
  }

  // ----- decoding undoes encoding -----

  /** The decoder has seen everything the encoder wrote: it stands at the same step, and the only byte
      it may still owe is the encoder's last one. */
  predicate InStep(es: EncState, ds: DecState, owed: seq<Byte>) {
    match es.step
    case A => ds == StepA && owed == []
    case B => |owed| == 1 && ds == StepB(owed[0] & 0xFC) && es.result == (owed[0] & 0x03) << 4
    case C => |owed| == 1 && ds == StepC(owed[0] & 0xF0) && es.result == (owed[0] & 0x0F) << 2
  }

  function Owed(s: EncState, b: Byte): seq<Byte> {
    if s.step == C then [] else [b]
  }

  lemma DecodeOne(ds: DecState, c: Byte)
    ensures DecodeState(ds, [c]) == DecodeCharState(ds, c) && DecodeOut(ds, [c]) == DecodeCharOut(ds, c)
  {
    assert [c][1..] == [];
    assert DecodeOut(ds, [c]) == DecodeCharOut(ds, c) + DecodeOut(DecodeCharState(ds, c), []);
  }

  /** A line break in front of a character changes nothing for the decoder. */
  lemma DecodeEmitted(es: EncState, ds: DecState, c: Byte)
    ensures DecodeState(ds, Emit(es, c)) == DecodeCharState(ds, c)
    ensures DecodeOut(ds, Emit(es, c)) == DecodeCharOut(ds, c)
  {
    DecodeOne(ds, c);
    if LineFull(es) {
      assert Emit(es, c)[1..] == [c];
    }
  }

  lemma ByteAtA(es: EncState, b: Byte)
    requires es.step == A
    ensures DecodeState(StepA, EncodeByteOut(es, b)) == StepB(b & 0xFC)
    ensures DecodeOut(StepA, EncodeByteOut(es, b)) == []
  {
    var v := (b & 0xFC) >> 2;
    DecodeValueInverts(v);
    DecodeEmitted(es, StepA, EncodeValue(v));
    assert (v & 0x3F) << 2 == b & 0xFC;
  }

  lemma ByteAtB(es: EncState, x: Byte, b: Byte)
    requires es.step == B && es.result == (x & 0x03) << 4
    ensures DecodeState(StepB(x & 0xFC), EncodeByteOut(es, b)) == StepC(b & 0xF0)
    ensures DecodeOut(StepB(x & 0xFC), EncodeByteOut(es, b)) == [x]
  {
    var v := es.result | ((b & 0xF0) >> 4);
    DecodeEmitted(es, StepB(x & 0xFC), EncodeValue(v));
    SecondDecodes(x, b);
  }

  /** The character of a second byte, decoded. */
  lemma SecondDecodes(x: Byte, b: Byte)
    ensures var v := ((x & 0x03) << 4) | ((b & 0xF0) >> 4);
            && DecodeCharState(StepB(x & 0xFC), EncodeValue(v)) == StepC(b & 0xF0)
            && DecodeCharOut(StepB(x & 0xFC), EncodeValue(v)) == [x]
  {
    var v := ((x & 0x03) << 4) | ((b & 0xF0) >> 4);
    assert v <= 63;
    DecodeValueInverts(v);
    SecondChar(x, b);
  }

  lemma ByteAtC(es: EncState, x: Byte, b: Byte)
    requires es.step == C && es.result == (x & 0x0F) << 2
    ensures DecodeState(StepC(x & 0xF0), EncodeByteOut(es, b)) == StepA
    ensures DecodeOut(StepC(x & 0xF0), EncodeByteOut(es, b)) == [x, b]
  {
    var c, d := EncodeValue(es.result | ((b & 0xC0) >> 6)), EncodeValue(b & 0x3F);
    ThirdAndFourth(x, b);
    DecodeTwo(es, StepC(x & 0xF0), c, d);
  }

  /** Two characters, with a line end in front of either if it is due. */
  lemma DecodeTwo(es: EncState, ds: DecState, c: Byte, d: Byte)
    ensures var text, ds1 := Emit(es, c) + Emit(Counted(es), d), DecodeCharState(ds, c);
            && DecodeState(ds, text) == DecodeCharState(ds1, d)
            && DecodeOut(ds, text) == DecodeCharOut(ds, c) + DecodeCharOut(ds1, d)
  {
    DecodeEmitted(es, ds, c);
    DecodeEmitted(Counted(es), DecodeCharState(ds, c), d);
    DecodeChunks(ds, Emit(es, c), Emit(Counted(es), d));
  }

  /** The two characters of a third byte, decoded. */
  lemma ThirdAndFourth(x: Byte, b: Byte)
    ensures var v, w := ((x & 0x0F) << 2) | ((b & 0xC0) >> 6), b & 0x3F;
            var ds1 := DecodeCharState(StepC(x & 0xF0), EncodeValue(v));
            && DecodeCharOut(StepC(x & 0xF0), EncodeValue(v)) == [x]
            && DecodeCharState(ds1, EncodeValue(w)) == StepA
            && DecodeCharOut(ds1, EncodeValue(w)) == [b]
  {
    var v, w := ((x & 0x0F) << 2) | ((b & 0xC0) >> 6), b & 0x3F;
    assert v <= 63 && w <= 63;
    DecodeValueInverts(v);
    DecodeValueInverts(w);
    ThirdChar(x, b);
  }

  lemma EncodedByteDecodes(es: EncState, ds: DecState, owed: seq<Byte>, b: Byte)
    requires InStep(es, ds, owed)
    ensures InStep(EncodeByteState(es, b), DecodeState(ds, EncodeByteOut(es, b)), Owed(es, b))
    ensures owed + [b] == DecodeOut(ds, EncodeByteOut(es, b)) + Owed(es, b)
  {
    match es.step
    case A => InStepAfterA(es, ds, owed, b);
    case B => InStepAfterB(es, ds, owed, b);
    case C => InStepAfterC(es, ds, owed, b);
  }

  lemma InStepAfterA(es: EncState, ds: DecState, owed: seq<Byte>, b: Byte)
    requires InStep(es, ds, owed) && es.step == A
    ensures InStep(EncodeByteState(es, b), DecodeState(ds, EncodeByteOut(es, b)), [b])
    ensures owed + [b] == DecodeOut(ds, EncodeByteOut(es, b)) + [b]
  {
    ByteAtA(es, b);
  }

  lemma InStepAfterB(es: EncState, ds: DecState, owed: seq<Byte>, b: Byte)
    requires InStep(es, ds, owed) && es.step == B
    ensures InStep(EncodeByteState(es, b), DecodeState(ds, EncodeByteOut(es, b)), [b])
    ensures owed + [b] == DecodeOut(ds, EncodeByteOut(es, b)) + [b]
  {
    ByteAtB(es, owed[0], b);
  }

  lemma InStepAfterC(es: EncState, ds: DecState, owed: seq<Byte>, b: Byte)
    requires InStep(es, ds, owed) && es.step == C
    ensures InStep(EncodeByteState(es, b), DecodeState(ds, EncodeByteOut(es, b)), [])
    ensures owed + [b] == DecodeOut(ds, EncodeByteOut(es, b)) + []
  {
    ByteAtC(es, owed[0], b);
    assert owed == [owed[0]];
  }

  lemma SecondChar(x: Byte, b: Byte)
    ensures var v := ((x & 0x03) << 4) | ((b & 0xF0) >> 4);
            (x & 0xFC) | ((v & 0x30) >> 4) == x && (v & 0x0F) << 4 == b & 0xF0
  {
  }

  lemma ThirdChar(x: Byte, b: Byte)
    ensures var v := ((x & 0x0F) << 2) | ((b & 0xC0) >> 6);
            (x & 0xF0) | ((v & 0x3C) >> 2) == x && ((v & 0x03) << 6) | ((b & 0x3F) & 0x3F) == b
  {
  }

  lemma OwedMovesOn(owed: seq<Byte>, bs: seq<Byte>, d: seq<Byte>, o: seq<Byte>, d': seq<Byte>, left: seq<Byte>)
    requires bs != [] && owed + [bs[0]] == d + o && o + bs[1..] == d' + left
    ensures owed + bs == (d + d') + left
  {
    assert bs == [bs[0]] + bs[1..];
    ConcatAssoc(owed, [bs[0]], bs[1..]);
    ConcatAssoc(d, o, bs[1..]);
    ConcatAssoc(d, d', left);
  }

  lemma {:induction false} EncodedBytesDecode(es: EncState, ds: DecState, owed: seq<Byte>, bs: seq<Byte>)
    returns (left: seq<Byte>)
    requires InStep(es, ds, owed)
    ensures var out := EncodeOut(es, bs);
            InStep(EncodeState(es, bs), DecodeState(ds, out), left) && owed + bs == DecodeOut(ds, out) + left
    decreases |bs|
  {
    if bs == [] {
      left := owed;
    } else {
      var out := EncodeByteOut(es, bs[0]);
      var es1, ds1 := EncodeByteState(es, bs[0]), DecodeState(ds, out);
      EncodedByteDecodes(es, ds, owed, bs[0]);
      left := EncodedBytesDecode(es1, ds1, Owed(es, bs[0]), bs[1..]);
      DecodeChunks(ds, out, EncodeOut(es1, bs[1..]));
      OwedMovesOn(owed, bs, DecodeOut(ds, out), Owed(es, bs[0]), DecodeOut(ds1, EncodeOut(es1, bs[1..])), left);
    }
  }

  /** The last character, its padding and the line end: only the character delivers anything. */
  lemma TailDecodes(ds: DecState, es: EncState, v: Byte, pads: seq<Byte>, nl: seq<Byte>)
    requires v <= 63 && (nl == [] || nl == [NEWLINE])
    requires forall d: DecState :: DecodeState(d, pads) == d && DecodeOut(d, pads) == []
    ensures DecodeOut(ds, Emit(es, EncodeValue(v)) + pads + nl) == DecodeCharOut(ds, EncodeValue(v))
  {
    var first := Emit(es, EncodeValue(v));
    DecodeEmitted(es, ds, EncodeValue(v));
    var ds1 := DecodeState(ds, first);
    DecodeChunks(ds, first, pads);
    DecodeChunks(ds, first + pads, nl);
    SkipsNewline(ds1, nl);
  }

  lemma PadDecodes(es: EncState, d: DecState)
    ensures DecodeState(d, Emit(es, PAD)) == d && DecodeOut(d, Emit(es, PAD)) == []
  {
    DecodeEmitted(es, d, PAD);
  }

  lemma TwoPadsDecode(es: EncState, d: DecState)
    ensures var pads := Emit(es, PAD) + Emit(Counted(es), PAD);
            DecodeState(d, pads) == d && DecodeOut(d, pads) == []
  {
    PadDecodes(es, d);
    PadDecodes(Counted(es), d);
    DecodeChunks(d, Emit(es, PAD), Emit(Counted(es), PAD));
  }

  /** The end of the text delivers exactly what was owed. */
  lemma EndDecodes(es: EncState, ds: DecState, owed: seq<Byte>)
    requires InStep(es, ds, owed)
    ensures DecodeOut(ds, EndOut(es)) == owed
  {
    match es.step
    case A =>
      SkipsNewline(ds, LineEnd(es));
      EmptyConcat([], LineEnd(es));
    case B =>
      EndAtB(es, owed[0]);
    case C =>
      EndAtC(es, owed[0]);
  }

  lemma EndAtB(es: EncState, x: Byte)
    requires es.step == B && es.result == (x & 0x03) << 4
    ensures DecodeOut(StepB(x & 0xFC), EndOut(es)) == [x]
  {
    var pads := Emit(Counted(es), PAD) + Emit(Counted(Counted(es)), PAD);
    forall d: DecState ensures DecodeState(d, pads) == d && DecodeOut(d, pads) == [] {
      TwoPadsDecode(Counted(es), d);
    }
    ConcatAssoc(Emit(es, EncodeValue(es.result)), Emit(Counted(es), PAD), Emit(Counted(Counted(es)), PAD));
    TailDecodes(StepB(x & 0xFC), es, es.result, pads, LineEnd(es));
    DecodeValueInverts(es.result);
    LastBits(x);
  }

  lemma EndAtC(es: EncState, x: Byte)
    requires es.step == C && es.result == (x & 0x0F) << 2
    ensures DecodeOut(StepC(x & 0xF0), EndOut(es)) == [x]
  {
    var pads := Emit(Counted(es), PAD);
    forall d: DecState ensures DecodeState(d, pads) == d && DecodeOut(d, pads) == [] {
      PadDecodes(Counted(es), d);
    }
    TailDecodes(StepC(x & 0xF0), es, es.result, pads, LineEnd(es));
    DecodeValueInverts(es.result);
    LastBits(x);
  }

  lemma SkipsNewline(ds: DecState, nl: seq<Byte>)
    requires nl == [] || nl == [NEWLINE]
    ensures DecodeState(ds, nl) == ds && DecodeOut(ds, nl) == []
  {
    if nl != [] {
      DecodeOne(ds, NEWLINE);
    }
  }

  lemma LastBits(x: Byte)
    ensures var v := (x & 0x03) << 4; (x & 0xFC) | ((v & 0x30) >> 4) == x
    ensures var v := (x & 0x0F) << 2; (x & 0xF0) | ((v & 0x3C) >> 2) == x
  {
  }

  /** Any bytes, any line length: decoding the text gives the bytes back. */
  lemma RoundTrip(bs: seq<Byte>, perLine: nat)
    ensures DecodeOut(StepA, Encoded(bs, perLine)) == bs
  {
    var es := FreshEncoder(perLine);
    var left := EncodedBytesDecode(es, StepA, [], bs);
    var out := EncodeOut(es, bs);
    EndDecodes(EncodeState(es, bs), DecodeState(StepA, out), left);
    DecodeChunks(StepA, out, EndOut(EncodeState(es, bs)));
    assert [] + bs == bs;
  }

  /** The same however the bytes were cut into encoder calls and the text into decoder calls. */
  lemma RoundTripInChunks(plain: seq<seq<Byte>>, perLine: nat, text: seq<seq<Byte>>)
    requires Flat(text) == EncodeCalls(FreshEncoder(perLine), plain)
    ensures DecodeCalls(StepA, text) == Flat(plain)
  {
    EncodeCallsFlatten(FreshEncoder(perLine), plain);
    DecodeCallsFlatten(StepA, text);
    RoundTrip(Flat(plain), perLine);
  }

  // ----- what is written is the encoding of the RFC -----

  function Sextet(group: bv24, i: nat): (v: Byte)
    requires i < 4
    ensures v <= 63
  {
    match i
    case 0 => ((group >> 18) & 0x3F) as bv8
    case 1 => ((group >> 12) & 0x3F) as bv8
    case 2 => ((group >> 6) & 0x3F) as bv8
    case 3 => (group & 0x3F) as bv8
  }

  /** Groups of 24 bits as four characters of a table; a short last group is filled with zero bits and padded. */
  function Text(bs: seq<Byte>, t: seq<Byte>): seq<Byte>
    requires |t| == 64
  {
    if bs == [] then []
    else if |bs| == 1 then LastOne(bs[0], t)
    else if |bs| == 2 then LastTwo(bs[0], bs[1], t)
    else Group(bs[0], bs[1], bs[2], t) + Text(bs[3..], t)
  }

  /** The four characters of three bytes. */
  function Group(x: Byte, y: Byte, z: Byte, t: seq<Byte>): (r: seq<Byte>)
    requires |t| == 64
    ensures |r| == 4
  {
    var g := ((x as bv24) << 16) | ((y as bv24) << 8) | (z as bv24);
    [t[Sextet(g, 0) as nat], t[Sextet(g, 1) as nat], t[Sextet(g, 2) as nat], t[Sextet(g, 3) as nat]]
  }

  /** The padded characters of the one or two bytes at the end. */
  function LastOne(x: Byte, t: seq<Byte>): (r: seq<Byte>)
    requires |t| == 64
    ensures |r| == 4
  {
    var g := (x as bv24) << 16;
    [t[Sextet(g, 0) as nat], t[Sextet(g, 1) as nat], 0x3D, 0x3D]
  }

  function LastTwo(x: Byte, y: Byte, t: seq<Byte>): (r: seq<Byte>)
    requires |t| == 64
    ensures |r| == 4
  {
    var g := ((x as bv24) << 16) | ((y as bv24) << 8);
    [t[Sextet(g, 0) as nat], t[Sextet(g, 1) as nat], t[Sextet(g, 2) as nat], 0x3D]
  }

  /** The base64 text of the RFC. */
  function Rfc4648(bs: seq<Byte>): seq<Byte> {
    Text(bs, Table())
  }

  /** The encoder's characters are those of the table. */
  ghost predicate Agrees(t: seq<Byte>) {
    |t| == 64 && forall v: Byte | v <= 63 :: EncodeValue(v) == t[v as nat]
  }

  lemma SextetsOfBytes(x: Byte, y: Byte, z: Byte)
    ensures var g := ((x as bv24) << 16) | ((y as bv24) << 8) | (z as bv24);
            && Sextet(g, 0) == (x & 0xFC) >> 2
            && Sextet(g, 1) == ((x & 0x03) << 4) | ((y & 0xF0) >> 4)
            && Sextet(g, 2) == ((y & 0x0F) << 2) | ((z & 0xC0) >> 6)
            && Sextet(g, 3) == z & 0x3F
  {
  }

  lemma SextetsOfTail(x: Byte, y: Byte)
    ensures var g := ((x as bv24) << 16) | ((y as bv24) << 8);
            && Sextet(g, 0) == (x & 0xFC) >> 2
            && Sextet(g, 1) == ((x & 0x03) << 4) | ((y & 0xF0) >> 4)
            && Sextet(g, 2) == (y & 0x0F) << 2
    ensures var g := (x as bv24) << 16;
            Sextet(g, 0) == (x & 0xFC) >> 2 && Sextet(g, 1) == (x & 0x03) << 4
  {
  }

  lemma UnfoldOne(s: EncState, bs: seq<Byte>)
    requires |bs| >= 1
    ensures var s1 := EncodeByteState(s, bs[0]);
            && EncodeState(s, bs) == EncodeState(s1, bs[1..])
            && EncodeOut(s, bs) == EncodeByteOut(s, bs[0]) + EncodeOut(s1, bs[1..])
  {
  }

  /** Without line breaks the text is the table's. */
  lemma {:induction false} UnbrokenIsText(s: EncState, bs: seq<Byte>, t: seq<Byte>)
    requires s.step == A && s.perLine == 0 && Agrees(t)
    ensures EncodeOut(s, bs) + EndOut(EncodeState(s, bs)) == Text(bs, t)
    decreases |bs|
  {
    if bs == [] {
    } else if |bs| == 1 {
      UnbrokenOne(s, bs, t);
    } else if |bs| == 2 {
      UnbrokenTwo(s, bs, t);
    } else {
      var s3 := EncodeByteState(EncodeByteState(EncodeByteState(s, bs[0]), bs[1]), bs[2]);
      UnbrokenThree(s, bs, t);
      UnbrokenIsText(s3, bs[3..], t);
      ConcatAssoc(Text(bs[..3], t), EncodeOut(s3, bs[3..]), EndOut(EncodeState(s3, bs[3..])));
      FirstGroup(bs, t);
    }
  }

  lemma UnbrokenOne(s: EncState, bs: seq<Byte>, t: seq<Byte>)
    requires s.step == A && s.perLine == 0 && Agrees(t) && |bs| == 1
    ensures EncodeOut(s, bs) + EndOut(EncodeState(s, bs)) == Text(bs, t)
  {
    SextetsOfTail(bs[0], 0);
    UnfoldOne(s, bs);
    assert bs[1..] == [];
  }

  lemma UnbrokenTwo(s: EncState, bs: seq<Byte>, t: seq<Byte>)
    requires s.step == A && s.perLine == 0 && Agrees(t) && |bs| == 2
    ensures EncodeOut(s, bs) + EndOut(EncodeState(s, bs)) == Text(bs, t)
  {
    SextetsOfTail(bs[0], bs[1]);
    UnfoldOne(s, bs);
    UnfoldOne(EncodeByteState(s, bs[0]), bs[1..]);
    assert bs[1..][1..] == [] && bs[1..][0] == bs[1];
  }

  /** Three bytes make one group and bring the encoder back to the start of a group. */
  lemma UnbrokenThree(s: EncState, bs: seq<Byte>, t: seq<Byte>)
    requires s.step == A && s.perLine == 0 && Agrees(t) && |bs| >= 3
    ensures var s3 := EncodeByteState(EncodeByteState(EncodeByteState(s, bs[0]), bs[1]), bs[2]);
            && s3.step == A && s3.perLine == 0
            && EncodeState(s, bs) == EncodeState(s3, bs[3..])
            && EncodeOut(s, bs) == Text(bs[..3], t) + EncodeOut(s3, bs[3..])
  {
    var s1 := EncodeByteState(s, bs[0]);
    var s2 := EncodeByteState(s1, bs[1]);
    UnfoldOne(s, bs);
    UnfoldOne(s1, bs[1..]);
    UnfoldOne(s2, bs[2..]);
    assert bs[1..][0] == bs[1] && bs[1..][1..] == bs[2..] && bs[2..][0] == bs[2] && bs[2..][1..] == bs[3..];
    GroupOfThree(s, bs[0], bs[1], bs[2], t);
    assert bs[..3] == [bs[0], bs[1], bs[2]];
    var rest := EncodeOut(EncodeByteState(s2, bs[2]), bs[3..]);
    ConcatAssoc(EncodeByteOut(s1, bs[1]), EncodeByteOut(s2, bs[2]), rest);
    ConcatAssoc(EncodeByteOut(s, bs[0]), EncodeByteOut(s1, bs[1]) + EncodeByteOut(s2, bs[2]), rest);
  }

  lemma GroupOut(s: EncState, x: Byte, y: Byte, z: Byte)
    requires s.step == A && s.perLine == 0
    ensures var s1 := EncodeByteState(s, x);
            var s2 := EncodeByteState(s1, y);
            && EncodeByteOut(s, x) == [EncodeValue((x & 0xFC) >> 2)]
            && EncodeByteOut(s1, y) == [EncodeValue(((x & 0x03) << 4) | ((y & 0xF0) >> 4))]
            && EncodeByteOut(s2, z) ==
               [EncodeValue(((y & 0x0F) << 2) | ((z & 0xC0) >> 6))] + [EncodeValue(z & 0x3F)]
  {
  }

  lemma GroupOfThree(s: EncState, x: Byte, y: Byte, z: Byte, t: seq<Byte>)
    requires s.step == A && s.perLine == 0 && Agrees(t)
    ensures var s1 := EncodeByteState(s, x);
            var s2 := EncodeByteState(s1, y);
            EncodeByteOut(s, x) + (EncodeByteOut(s1, y) + EncodeByteOut(s2, z)) == Text([x, y, z], t)
  {
    GroupOut(s, x, y, z);
    RfcOfThree(x, y, z, t);
  }

  lemma RfcOfThree(x: Byte, y: Byte, z: Byte, t: seq<Byte>)
    requires Agrees(t)
    ensures Text([x, y, z], t) ==
            [EncodeValue((x & 0xFC) >> 2)]
            + ([EncodeValue(((x & 0x03) << 4) | ((y & 0xF0) >> 4))]
               + ([EncodeValue(((y & 0x0F) << 2) | ((z & 0xC0) >> 6))] + [EncodeValue(z & 0x3F)]))
  {
    GroupOfTable(x, y, z, t);
    var bs := [x, y, z];
    assert bs[3..] == [];
    EmptyConcat([], Group(x, y, z, t));
  }

  lemma GroupOfTable(x: Byte, y: Byte, z: Byte, t: seq<Byte>)
    requires Agrees(t)
    ensures Group(x, y, z, t) ==
            [EncodeValue((x & 0xFC) >> 2), EncodeValue(((x & 0x03) << 4) | ((y & 0xF0) >> 4)),
             EncodeValue(((y & 0x0F) << 2) | ((z & 0xC0) >> 6)), EncodeValue(z & 0x3F)]
  {
    SextetsOfBytes(x, y, z);
  }

  lemma FirstGroup(bs: seq<Byte>, t: seq<Byte>)
    requires |bs| >= 3 && |t| == 64
    ensures Text(bs, t) == Text(bs[..3], t) + Text(bs[3..], t)
  {
    var h := bs[..3];
    assert h[3..] == [] && h[0] == bs[0] && h[1] == bs[1] && h[2] == bs[2];
    var g, r := Group(bs[0], bs[1], bs[2], t), Text(bs[3..], t);
    assert Text(h, t) == g + Text([], t);
    EmptyConcat([], g);
  }

  lemma TableAgrees()
    ensures Agrees(Table())
  {
    forall v: Byte | v <= 63 ensures EncodeValue(v) == Table()[v as nat] {
      EncodeValueIsTable(v);
    }
  }

  /** Examples of section 10 of RFC 4648: "f" is "Zg==", "fo" is "Zm8=" and "foo" is "Zm9v". */
  lemma RfcExamples()
    ensures Rfc4648([0x66]) == [Ascii('Z'), Ascii('g'), Ascii('='), Ascii('=')]
    ensures Rfc4648([0x66, 0x6F]) == [Ascii('Z'), Ascii('m'), Ascii('8'), Ascii('=')]
    ensures Rfc4648([0x66, 0x6F, 0x6F]) == [Ascii('Z'), Ascii('m'), Ascii('9'), Ascii('v')]
  {
    TableAgrees();
    TailExamples(Table());
    GroupOfTable(0x66, 0x6F, 0x6F, Table());
    assert Text([0x66, 0x6F, 0x6F], Table()) == Group(0x66, 0x6F, 0x6F, Table()) + Text([], Table());
  }

  lemma TailExamples(t: seq<Byte>)
    requires Agrees(t)
    ensures LastOne(0x66, t) == [0x5A, 0x67, 0x3D, 0x3D] && LastTwo(0x66, 0x6F, t) == [0x5A, 0x6D, 0x38, 0x3D]
  {
    SextetsOfTail(0x66, 0x6F);
    var a, b, c, d: Byte := 25, 32, 38, 60;
    assert t[a as nat] == EncodeValue(a) && t[b as nat] == EncodeValue(b);
    assert t[c as nat] == EncodeValue(c) && t[d as nat] == EncodeValue(d);
  }

  /** Without line breaks the text is the RFC's. */
  lemma UnbrokenIsRfc4648(s: EncState, bs: seq<Byte>)
    requires s.step == A && s.perLine == 0
    ensures EncodeOut(s, bs) + EndOut(EncodeState(s, bs)) == Rfc4648(bs)
  {
    TableAgrees();
    UnbrokenIsText(s, bs, Table());
  }
}
