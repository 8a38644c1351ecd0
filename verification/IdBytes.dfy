/** The 20-byte form of an id and the byte loops that the program runs on it,
    proved against the path form of module Ids. */
module IdBytes {
  import opened Ids

  type Bytes = b: seq<bv8> | |b| == 20 witness seq(20, _ => 0)

  /** 0x80 >> j, the mask of bit j when bits are numbered from the most significant one. */
  function Mask(j: nat): bv8
    requires j < 8
  {
    match j
    case 0 => 0x80 case 1 => 0x40 case 2 => 0x20 case 3 => 0x10
    case 4 => 0x08 case 5 => 0x04 case 6 => 0x02 case 7 => 0x01
  }

  /** 0xFF >> j, the bits of a byte from bit j on. */
  function LowMask(j: nat): bv8
    requires j < 8
  {
    match j
    case 0 => 0xFF case 1 => 0x7F case 2 => 0x3F case 3 => 0x1F
    case 4 => 0x0F case 5 => 0x07 case 6 => 0x03 case 7 => 0x01
  }

  predicate Bit(b: bv8, j: nat)
    requires j < 8
  {
    b & Mask(j) != 0
  }

  /** The path an id spells, most significant bit of byte 0 first. */
  function PathOf(b: Bytes): (p: Id)
    ensures forall k | 0 <= k < ID_BITS :: p[k] == Bit(b[k / 8], k % 8)
  {
    seq(ID_BITS, k requires 0 <= k < ID_BITS => Bit(b[k / 8], k % 8))
  }

  /** The first bit in which two bytes differ. */
  function FirstDiff(x: bv8, y: bv8): (j: nat)
    requires x != y
    ensures j < 8 && Bit(x, j) != Bit(y, j)
    ensures forall i: nat | i < j :: Bit(x, i) == Bit(y, i)
  {
    if Bit(x, 0) != Bit(y, 0) then 0
    else if Bit(x, 1) != Bit(y, 1) then 1
    else if Bit(x, 2) != Bit(y, 2) then 2
    else if Bit(x, 3) != Bit(y, 3) then 3
    else if Bit(x, 4) != Bit(y, 4) then 4
    else if Bit(x, 5) != Bit(y, 5) then 5
    else if Bit(x, 6) != Bit(y, 6) then 6
    else 7
  }

  /** Unsigned byte order, and the order of xor-ed bytes, are decided at the first differing bit. */
  lemma ByteOrder(x: bv8, y: bv8, ref: bv8)
    requires x != y
    ensures x < y <==> Bit(y, FirstDiff(x, y))
    ensures (x ^ ref) < (y ^ ref) <==> Bit(x, FirstDiff(x, y)) == Bit(ref, FirstDiff(x, y))
  {
    var j := FirstDiff(x, y);
    if j == 0 {} else if j == 1 {} else if j == 2 {} else if j == 3 {}
    else if j == 4 {} else if j == 5 {} else if j == 6 {} else {}
  }

  /** Bit j is the first in which the bytes differ, `larger` says whether y has it, and `closer` whether x
      agrees with ref there. */
  ghost predicate DecidedAt(x: bv8, y: bv8, ref: bv8, j: nat, larger: bool, closer: bool) {
    && j < 8 && Bit(x, j) != Bit(y, j) && (forall m: nat | m < j :: Bit(x, m) == Bit(y, m))
    && larger == Bit(y, j) && closer == (Bit(x, j) == Bit(ref, j))
  }

  lemma DecidingBit(x: bv8, y: bv8, ref: bv8) returns (j: nat, larger: bool, closer: bool)
    requires x != y
    ensures DecidedAt(x, y, ref, j, larger, closer)
    ensures (x < y <==> larger) && ((x ^ ref) < (y ^ ref) <==> closer)
  {
    j := FirstDiff(x, y);
    larger, closer := Bit(y, j), Bit(x, j) == Bit(ref, j);
    ByteOrder(x, y, ref);
  }

  /** The order of two paths, and of their distances to a target, is decided at their first differing bit. */
  lemma {:induction false} PathOrder(a: Path, b: Path, target: Path, k: nat)
    requires k < |a| == |b| == |target|
    requires a[k] != b[k] && forall i | 0 <= i < k :: a[i] == b[i]
    ensures Val(a) < Val(b) <==> b[k]
    ensures Dist(a, target) < Dist(b, target) <==> a[k] == target[k]
    ensures Val(a) != Val(b) && Dist(a, target) != Dist(b, target)
  {
    ValBound(a[1..]);
    ValBound(b[1..]);
    DistBound(a[1..], target[1..]);
    DistBound(b[1..], target[1..]);
    if k > 0 {
      PathOrder(a[1..], b[1..], target[1..], k - 1);
    }
  }

  lemma BitOfPath(a: Bytes, i: nat, j: nat)
    requires i < 20 && j < 8
    ensures PathOf(a)[8 * i + j] == Bit(a[i], j)
  {
    assert (8 * i + j) / 8 == i && (8 * i + j) % 8 == j;
  }

  lemma BitsOfPaths(a: Bytes, b: Bytes, c: Bytes, i: nat, j: nat)
    requires i < 20 && j < 8
    ensures PathOf(a)[8 * i + j] == Bit(a[i], j) && PathOf(b)[8 * i + j] == Bit(b[i], j)
    ensures PathOf(c)[8 * i + j] == Bit(c[i], j)
  {
    BitOfPath(a, i, j);
    BitOfPath(b, i, j);
    BitOfPath(c, i, j);
  }

  /** Bytes that agree before bit j of byte i: so do the paths. */
  lemma SameBefore(a: Bytes, b: Bytes, i: nat, j: nat)
    requires i < 20 && j < 8 && a[..i] == b[..i]
    requires forall m: nat | m < j :: Bit(a[i], m) == Bit(b[i], m)
    ensures forall m | 0 <= m < 8 * i + j :: PathOf(a)[m] == PathOf(b)[m]
  {
    forall m | 0 <= m < 8 * i + j ensures PathOf(a)[m] == PathOf(b)[m] {
      if m / 8 < i {
        assert a[m / 8] == a[..i][m / 8] == b[..i][m / 8] == b[m / 8];
      } else {
        assert m / 8 == i && m % 8 < j;
      }
    }
  }

  /** Bytes that agree before byte i and differ there: the byte comparison decides for the ids. */
  lemma FirstByteDecides(a: Bytes, b: Bytes, ref: Bytes, i: nat)
    requires i < 20 && a[i] != b[i] && a[..i] == b[..i]
    ensures Val(PathOf(a)) < Val(PathOf(b)) <==> a[i] < b[i]
    ensures Dist(PathOf(a), PathOf(ref)) < Dist(PathOf(b), PathOf(ref)) <==> (a[i] ^ ref[i]) < (b[i] ^ ref[i])
    ensures Val(PathOf(a)) != Val(PathOf(b))
    ensures Dist(PathOf(a), PathOf(ref)) != Dist(PathOf(b), PathOf(ref))
  {
    var j, larger, closer := DecidingBit(a[i], b[i], ref[i]);
    BitDecides(a, b, ref, i, j, larger, closer);
  }

  /** Bit j of byte i is the first that differs. */
  lemma BitDecides(a: Bytes, b: Bytes, ref: Bytes, i: nat, j: nat, larger: bool, closer: bool)
    requires i < 20 && a[..i] == b[..i] && DecidedAt(a[i], b[i], ref[i], j, larger, closer)
    ensures Val(PathOf(a)) < Val(PathOf(b)) <==> larger
    ensures Dist(PathOf(a), PathOf(ref)) < Dist(PathOf(b), PathOf(ref)) <==> closer
    ensures Val(PathOf(a)) != Val(PathOf(b))
    ensures Dist(PathOf(a), PathOf(ref)) != Dist(PathOf(b), PathOf(ref))
  {
    SameBefore(a, b, i, j);
    BitsOfPaths(a, b, ref, i, j);
    PathOrder(PathOf(a), PathOf(b), PathOf(ref), 8 * i + j);
  }

  /** memcmp over 20 bytes is the numeric order of the ids. */
  method IdCmp(a: Bytes, b: Bytes) returns (r: int)
    ensures r < 0 <==> Val(PathOf(a)) < Val(PathOf(b))
    ensures (r == 0 <==> a == b) && (r == 0 <==> PathOf(a) == PathOf(b))
  {
    var i := 0;
    while i < 20
      invariant 0 <= i <= 20 && a[..i] == b[..i]
    {
      if a[i] != b[i] {
        FirstByteDecides(a, b, a, i);
        return if a[i] < b[i] then -1 else 1;
      }
      i := i + 1;
    }
    assert a == b;
    return 0;
  }

  /** Which of two ids is closer to ref in the XOR metric. */
  method XorCmp(id1: Bytes, id2: Bytes, ref: Bytes) returns (r: int)
    ensures r < 0 <==> Dist(PathOf(id1), PathOf(ref)) < Dist(PathOf(id2), PathOf(ref))
    ensures r > 0 <==> Dist(PathOf(id1), PathOf(ref)) > Dist(PathOf(id2), PathOf(ref))
    ensures r == 0 <==> id1 == id2
  {
    var i := 0;
    while i < 20
      invariant 0 <= i <= 20 && id1[..i] == id2[..i]
    {
      if id1[i] != id2[i] {
        FirstByteDecides(id1, id2, ref, i);
        var xor1 := id1[i] ^ ref[i];
        var xor2 := id2[i] ^ ref[i];
        return if xor1 < xor2 then -1 else 1;
      }
      i := i + 1;
    }
    assert id1 == id2;
    return 0;
  }

  /** The bits of a byte, from the end. */
  method LowBitOfByte(x: bv8) returns (j: nat)
    requires x != 0
    ensures j < 8 && Bit(x, j) && forall m: nat | j < m < 8 :: !Bit(x, m)
  {
    var i := 7;
    while i >= 0
      invariant -1 <= i <= 7
      invariant forall m: nat | i < m < 8 :: !Bit(x, m)
      decreases i
    {
      if x & Mask(i) != 0 {
        break;
      }
      i := i - 1;
    }
    NonZeroByteHasBit(x);
    j := i;
  }

  lemma LastBitOfPath(id: Bytes, i: nat, j: nat)
    requires i < 20 && (forall m | i < m < 20 :: id[m] == 0)
    requires j < 8 && Bit(id[i], j) && forall m: nat | j < m < 8 :: !Bit(id[i], m)
    ensures PathOf(id)[8 * i + j] && forall k | 8 * i + j < k < ID_BITS :: !PathOf(id)[k]
  {
    BitOfPath(id, i, j);
    forall k | 8 * i + j < k < ID_BITS ensures !PathOf(id)[k] {
      if k / 8 == i {
        assert k % 8 > j;
      } else {
        assert id[k / 8] == 0;
      }
    }
  }

  /** Scan bytes from the end, then bits from the end of the last non-zero byte. */
  method LowBitOfBytes(id: Bytes) returns (r: int)
    ensures r == LowBit(PathOf(id))
  {
    var i := 19;
    while i >= 0
      invariant -1 <= i <= 19
      invariant forall m | i < m < 20 :: id[m] == 0
      decreases i
    {
      if id[i] != 0 {
        break;
      }
      i := i - 1;
    }
    ghost var p := PathOf(id);
    if i < 0 {
      forall k | 0 <= k < ID_BITS ensures !p[k] {
        assert id[k / 8] == 0;
      }
      LowBitUnique(p, -1);
      return -1;
    }
    var j := LowBitOfByte(id[i]);
    r := 8 * i + j;
    LastBitOfPath(id, i, j);
    LowBitUnique(p, r);
  }

  lemma NonZeroByteHasBit(b: bv8)
    requires b != 0
    ensures Bit(b, 0) || Bit(b, 1) || Bit(b, 2) || Bit(b, 3) || Bit(b, 4) || Bit(b, 5) || Bit(b, 6) || Bit(b, 7)
  {
  }

  lemma OrMask(b: bv8, j: nat, k: nat)
    requires j < 8 && k < 8
    ensures Bit(b | Mask(j), k) == (j == k || Bit(b, k))
  {
  }

  lemma BitAfterOr(was: Bytes, now: Bytes, c: nat, j: nat, d: nat, l: nat)
    requires c < 20 && j < 8 && d < 20 && l < 8 && now == was[c := was[c] | Mask(j)]
    ensures Bit(now[d], l) == ((d == c && l == j) || Bit(was[d], l))
  {
    if d == c {
      OrMask(was[c], j, l);
    }
  }

  /** Or-ing one mask into one byte sets that bit of the path and touches no other. */
  lemma OneByteSetsOneBit(was: Bytes, now: Bytes, c: nat, j: nat)
    requires c < 20 && j < 8 && now == was[c := was[c] | Mask(j)]
    ensures PathOf(now) == PathOf(was)[8 * c + j := true]
  {
    forall k | 0 <= k < ID_BITS
      ensures PathOf(now)[k] == (k == 8 * c + j || PathOf(was)[k])
    {
      BitAfterOr(was, now, c, j, k / 8, k % 8);
    }
  }

  /** id[bit / 8] |= 0x80 >> (bit % 8), on a copy of the id. */
  method SetBit(id: array<bv8>, bit: nat)
    requires id.Length == 20 && bit < ID_BITS
    modifies id
    ensures PathOf(id[..]) == PathOf(old(id[..]))[bit := true]
  {
    ghost var was := id[..];
    var c, j := bit / 8, bit % 8;
    id[c] := id[c] | Mask(j);
    OneByteSetsOneBit(was, id[..], c, j);
  }

  lemma MixedByte(x: bv8, y: bv8, j: nat, k: nat)
    requires j < 8 && k < 8
    ensures Bit((x & !LowMask(j)) | (y & LowMask(j)), k) == if k < j then Bit(x, k) else Bit(y, k)
  {
  }

  lemma MixedBit(first: Bytes, rnd: Bytes, id: Bytes, c: nat, j: nat, k: nat)
    requires c < 20 && j < 8 && k < ID_BITS
    requires forall m | 0 <= m < c :: id[m] == first[m]
    requires id[c] == (first[c] & !LowMask(j)) | (rnd[c] & LowMask(j))
    requires forall m | c < m < 20 :: id[m] == rnd[m]
    ensures Bit(id[k / 8], k % 8) == if k < 8 * c + j then Bit(first[k / 8], k % 8) else Bit(rnd[k / 8], k % 8)
  {
    if k / 8 == c {
      MixedByte(first[c], rnd[c], j, k % 8);
    }
  }

  lemma MixedPath(first: Bytes, rnd: Bytes, id: Bytes, c: nat, j: nat)
    requires c < 20 && j < 8
    requires forall m | 0 <= m < c :: id[m] == first[m]
    requires id[c] == (first[c] & !LowMask(j)) | (rnd[c] & LowMask(j))
    requires forall m | c < m < 20 :: id[m] == rnd[m]
    ensures PathOf(id) == PathOf(first)[..8 * c + j] + PathOf(rnd)[8 * c + j..]
  {
    forall k | 0 <= k < ID_BITS
      ensures PathOf(id)[k] == if k < 8 * c + j then PathOf(first)[k] else PathOf(rnd)[k]
    {
      MixedBit(first, rnd, id, c, j, k);
    }
  }

  method CopyFirst(id: array<bv8>, first: Bytes, to: nat)
    requires id.Length == 20 && to <= 20
    modifies id
    ensures forall m | 0 <= m < to :: id[m] == first[m]
  {
    var i := 0;
    while i < to
      invariant 0 <= i <= to
      invariant forall m | 0 <= m < i :: id[m] == first[m]
    {
      id[i] := first[i];
      i := i + 1;
    }
  }

  method CopyRest(id: array<bv8>, rnd: Bytes, from: nat)
    requires id.Length == 20 && from <= 20
    modifies id
    ensures forall m | 0 <= m < from :: id[m] == old(id[m])
    ensures forall m | from <= m < 20 :: id[m] == rnd[m]
  {
    var i := from;
    while i < 20
      invariant from <= i <= 20
      invariant forall m | 0 <= m < from :: id[m] == old(id[m])
      invariant forall m | from <= m < i :: id[m] == rnd[m]
    {
      id[i] := rnd[i];
      i := i + 1;
    }
  }

  /** The byte mix of bucket_random keeps the first `bit` bits of first and takes the rest from rnd. */
  method MixRandom(first: Bytes, rnd: Bytes, bit: nat) returns (id: array<bv8>)
    requires bit < ID_BITS
    ensures fresh(id) && id.Length == 20
    ensures PathOf(id[..]) == PathOf(first)[..bit] + PathOf(rnd)[bit..]
  {
    id := new bv8[20];
    var c, j := bit / 8, bit % 8;
    CopyFirst(id, first, c);
    id[c] := first[c] & !LowMask(j);
    id[c] := id[c] | (rnd[c] & LowMask(j));
    ghost var mixed := id[c];
    CopyRest(id, rnd, c + 1);
    assert id[c] == mixed;
    MixedPath(first, rnd, id[..], c, j);
  }
}
