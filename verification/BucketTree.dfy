/** The shape of a routing table whose own bucket lies k bits deep: the own bucket and one
    sibling for every bit of the own id above it, in the order of the id space. */
module BucketTree {
  import opened Ids

  /** The deepest our bucket ever gets; see RoutingTable. */
  const MAX_DEPTH: nat := 157

  function Sibling(my: Id, d: nat): Path
    requires d < ID_BITS
  {
    my[..d] + [!my[d]]
  }

  /** The buckets below my[..d], from left to right, when our bucket is my[..k]. */
  function Shape(my: Id, k: nat, d: nat): (s: seq<Path>)
    requires d <= k <= ID_BITS
    ensures |s| == k - d + 1
    ensures forall p | p in s :: |p| <= k
    decreases k - d
  {
    if d == k then [my[..k]]
    else if my[d] then [Sibling(my, d)] + Shape(my, k, d + 1)
    else Shape(my, k, d + 1) + [Sibling(my, d)]
  }

  /** Position of our bucket among them. */
  function OwnIndex(my: Id, k: nat, d: nat): (i: nat)
    requires d <= k <= ID_BITS
    ensures i <= k - d
    decreases k - d
  {
    if d == k then 0 else (if my[d] then 1 else 0) + OwnIndex(my, k, d + 1)
  }

  /** Capacity of a bucket that was split off, or of ours, at depth d: 128 halved d times, at least 8. */
  function Cap(d: nat): (c: nat)
    ensures c >= 8
  {
    if d == 0 then 128 else Max8(Cap(d - 1) / 2)
  }

  function Max8(n: nat): nat {
    if n >= 8 then n else 8
  }

  /** A sibling keeps the capacity of the bucket it was split from. */
  function CapOf(my: Id, p: Path): nat {
    if p <= my || p == [] then Cap(|p|) else Cap(|p| - 1)
  }

  function Quotient(a: nat, b: nat): nat
    requires b > 0
  {
    a / b
  }

  /** max(128 / 2^d, 8). */
  lemma CapFormula(d: nat)
    ensures Cap(d) == Max8(Quotient(128, Pow2(d)))
  {
    if d >= 4 {
      CapFloor(d);
      QuotientSmall(Pow2(d));
    } else if d == 0 {
      assert Pow2(0) == 1 && 128 / 1 == 128;
    } else if d == 1 {
      assert Pow2(1) == 2 && Cap(1) == 64;
    } else if d == 2 {
      assert Pow2(2) == 4 && Cap(2) == 32;
    } else {
      assert Pow2(3) == 8 && Cap(3) == 16;
    }
  }

  lemma QuotientSmall(p: nat)
    requires p >= 16
    ensures 128 / p <= 8
  {
    var q := 128 / p;
    assert q * p <= 128;
    assert q >= 9 ==> q * p >= 9 * p;
  }

  lemma {:induction false} CapFloor(d: nat)
    requires d >= 4
    ensures Cap(d) == 8 && Pow2(d) >= 16
  {
    if d == 4 {
      assert Cap(1) == 64 && Cap(2) == 32 && Cap(3) == 16;
      assert Pow2(1) == 2 && Pow2(2) == 4 && Pow2(3) == 8;
    } else {
      CapFloor(d - 1);
    }
  }

  lemma ShapeUnfold(my: Id, k: nat, d: nat)
    requires d < k <= ID_BITS
    ensures Shape(my, k, d) ==
            if my[d] then [Sibling(my, d)] + Shape(my, k, d + 1) else Shape(my, k, d + 1) + [Sibling(my, d)]
    ensures OwnIndex(my, k, d) == OwnIndex(my, k, d + 1) + if my[d] then 1 else 0
  {
  }

  /** Where an element of a list with x put before or behind it comes from. */
  lemma OtherElement(s: seq<Path>, x: Path, before: bool, o: nat, i: nat) returns (j: int)
    requires i <= |s| && i != o + (if before then 1 else 0)
    ensures -1 <= j < |s| && j != o
    ensures (if before then [x] + s else s + [x])[i] == if j == -1 then x else s[j]
  {
    j := if before then i - 1 else if i < |s| then i else -1;
  }

  ghost predicate IsSibling(my: Id, p: Path, d: nat, k: nat)
    requires k <= ID_BITS
  {
    exists e: nat :: d <= e < k && p == Sibling(my, e)
  }

  lemma {:induction false} ShapeOwn(my: Id, k: nat, d: nat)
    requires d <= k <= ID_BITS
    ensures Shape(my, k, d)[OwnIndex(my, k, d)] == my[..k]
    decreases k - d
  {
    if d < k {
      ShapeOwn(my, k, d + 1);
      ShapeUnfold(my, k, d);
    }
  }

  lemma SiblingFrom(my: Id, p: Path, d: nat, k: nat)
    requires d < k <= ID_BITS && (p == Sibling(my, d) || IsSibling(my, p, d + 1, k))
    ensures IsSibling(my, p, d, k)
  {
  }

  lemma {:induction false} ShapeElements(my: Id, k: nat, d: nat)
    requires d <= k <= ID_BITS
    ensures forall i | 0 <= i <= k - d && i != OwnIndex(my, k, d) :: IsSibling(my, Shape(my, k, d)[i], d, k)
    decreases k - d
  {
    if d < k {
      ShapeElements(my, k, d + 1);
      ShapeUnfold(my, k, d);
      var s, x, o := Shape(my, k, d + 1), Sibling(my, d), OwnIndex(my, k, d + 1);
      forall i | 0 <= i <= k - d && i != OwnIndex(my, k, d)
        ensures IsSibling(my, Shape(my, k, d)[i], d, k)
      {
        var j := OtherElement(s, x, my[d], o, i);
        SiblingFrom(my, Shape(my, k, d)[i], d, k);
      }
    }
  }

  /** Replace the o-th element of a shape by its two halves. */
  function SplitAt(s: seq<Path>, o: nat): seq<Path>
    requires o < |s|
  {
    s[..o] + [s[o] + [false], s[o] + [true]] + s[o + 1..]
  }

  lemma SplitAtShifted(sib: Path, s: seq<Path>, o: nat)
    requires o < |s|
    ensures SplitAt([sib] + s, o + 1) == [sib] + SplitAt(s, o)
    ensures SplitAt(s + [sib], o) == SplitAt(s, o) + [sib]
  {
    var l := [sib] + s;
    assert l[..o + 1] == [sib] + s[..o] && l[o + 2..] == s[o + 1..];
    var r := s + [sib];
    assert r[..o] == s[..o] && r[o + 1..] == s[o + 1..] + [sib];
  }

  lemma ShapeSplitHere(my: Id, k: nat)
    requires k < ID_BITS
    ensures Shape(my, k + 1, k) == SplitAt(Shape(my, k, k), 0)
    ensures OwnIndex(my, k + 1, k) == if my[k] then 1 else 0
  {
    assert my[..k + 1] == my[..k] + [my[k]];
    assert Shape(my, k + 1, k + 1) == [my[..k + 1]];
    assert SplitAt([my[..k]], 0) == [my[..k] + [false], my[..k] + [true]];
  }

  lemma ShapeSplitStep(my: Id, k: nat, d: nat)
    requires d < k < ID_BITS
    requires Shape(my, k + 1, d + 1) == SplitAt(Shape(my, k, d + 1), OwnIndex(my, k, d + 1))
    requires OwnIndex(my, k + 1, d + 1) == OwnIndex(my, k, d + 1) + (if my[k] then 1 else 0)
    ensures Shape(my, k + 1, d) == SplitAt(Shape(my, k, d), OwnIndex(my, k, d))
    ensures OwnIndex(my, k + 1, d) == OwnIndex(my, k, d) + (if my[k] then 1 else 0)
  {
    ShapeUnfold(my, k, d);
    ShapeUnfold(my, k + 1, d);
    SplitAtShifted(Sibling(my, d), Shape(my, k, d + 1), OwnIndex(my, k, d + 1));
  }

  /** Splitting our bucket replaces it by its two halves and leaves the rest of the shape alone. */
  lemma {:induction false} ShapeSplit(my: Id, k: nat, d: nat)
    requires d <= k < ID_BITS
    ensures Shape(my, k + 1, d) == SplitAt(Shape(my, k, d), OwnIndex(my, k, d))
    ensures OwnIndex(my, k + 1, d) == OwnIndex(my, k, d) + (if my[k] then 1 else 0)
    decreases k - d
  {
    if d == k {
      ShapeSplitHere(my, k);
    } else {
      ShapeSplit(my, k, d + 1);
      ShapeSplitStep(my, k, d);
    }
  }

  /** A list of tree nodes covers the numbers lo <= v < hi, without gap or overlap, in order. */
  ghost predicate Tiles(ps: seq<Path>, lo: int, hi: int)
    requires forall p | p in ps :: |p| <= ID_BITS
  {
    if ps == [] then lo == hi
    else Val(First(ps[0])) == lo && Tiles(ps[1..], lo + Pow2(ID_BITS - |ps[0]|), hi)
  }

  lemma {:induction false} TilesConcat(a: seq<Path>, b: seq<Path>, lo: int, mid: int, hi: int)
    requires forall p | p in a :: |p| <= ID_BITS
    requires forall p | p in b :: |p| <= ID_BITS
    requires Tiles(a, lo, mid) && Tiles(b, mid, hi)
    ensures Tiles(a + b, lo, hi)
  {
    if a == [] {
      assert a + b == b;
    } else {
      TilesConcat(a[1..], b, lo + Pow2(ID_BITS - |a[0]|), mid, hi);
      assert (a + b)[1..] == a[1..] + b;
    }
  }

  /** One more bit of the own id: where our half and the sibling's half of my[..d] begin. */
  lemma HalvesStart(my: Id, d: nat)
    requires d < ID_BITS
    ensures var lo := Val(First(my[..d])); var mid := lo + Pow2(|my| - d - 1);
            && Val(First(Sibling(my, d))) == (if my[d] then lo else mid)
            && Val(First(my[..d + 1])) == (if my[d] then mid else lo)
  {
    ChildrenStart(my[..d], ID_BITS);
    assert my[..d + 1] == my[..d] + [my[d]];
  }

  lemma TilesOne(p: Path, lo: int, hi: int)
    requires |p| <= ID_BITS && Val(First(p)) == lo
    requires hi == lo + Pow2(ID_BITS - |p|)
    ensures Tiles([p], lo, hi)
  {
    assert [p][1..] == [];
  }

  /** The shape tiles the subtree it is drawn in; from the root, the whole id space. */
  lemma {:induction false} ShapeTiles(my: Id, k: nat, d: nat, lo: int, hi: int)
    requires d <= k <= ID_BITS
    requires lo == Val(First(my[..d])) && hi == lo + Pow2(|my| - d)
    ensures Tiles(Shape(my, k, d), lo, hi)
    decreases k - d
  {
    if d < k {
      var sib, rest := Sibling(my, d), Shape(my, k, d + 1);
      var mid := lo + Pow2(|my| - d - 1);
      HalvesStart(my, d);
      if my[d] {
        ShapeTiles(my, k, d + 1, mid, hi);
        TilesOne(sib, lo, mid);
        TilesConcat([sib], rest, lo, mid, hi);
      } else {
        ShapeTiles(my, k, d + 1, lo, mid);
        TilesOne(sib, mid, hi);
        TilesConcat(rest, [sib], lo, mid, hi);
      }
    } else {
      TilesOne(my[..k], lo, hi);
    }
  }

  /** Where the interval of the i-th tile ends: the next tile's start, or the end. */
  function EndOf(ps: seq<Path>, i: nat, hi: int): int
    requires i < |ps|
    requires forall p | p in ps :: |p| <= ID_BITS
  {
    if i + 1 < |ps| then Val(First(ps[i + 1])) else hi
  }

  lemma {:induction false} TileEnds(ps: seq<Path>, lo: int, hi: int, i: nat)
    requires forall p | p in ps :: |p| <= ID_BITS
    requires Tiles(ps, lo, hi) && i < |ps|
    ensures Val(First(ps[i])) + Pow2(ID_BITS - |ps[i]|) == EndOf(ps, i, hi)
    ensures lo <= Val(First(ps[i]))
    ensures i == 0 ==> Val(First(ps[i])) == lo
  {
    if i > 0 {
      TileEnds(ps[1..], lo + Pow2(ID_BITS - |ps[0]|), hi, i - 1);
    } else if |ps| > 1 {
      assert ps[1..][0] == ps[1];
      assert Tiles(ps[1..], lo + Pow2(ID_BITS - |ps[0]|), hi);
    } else {
      assert ps[1..] == [];
    }
  }

  /** Each range ends where the next begins, the last one at hi. */
  ghost predicate Abut(ps: seq<Path>, hi: int)
    requires forall p | p in ps :: |p| <= ID_BITS
  {
    forall i {:trigger EndOf(ps, i, hi)} | 0 <= i < |ps| ::
      Val(First(ps[i])) + Pow2(ID_BITS - |ps[i]|) == EndOf(ps, i, hi)
  }

  lemma AllTileEnds(ps: seq<Path>, lo: int, hi: int)
    requires forall p | p in ps :: |p| <= ID_BITS
    requires Tiles(ps, lo, hi) && ps != []
    ensures Abut(ps, hi)
    ensures Val(First(ps[0])) == lo
  {
    forall i | 0 <= i < |ps|
      ensures Val(First(ps[i])) + Pow2(ID_BITS - |ps[i]|) == EndOf(ps, i, hi)
    {
      TileEnds(ps, lo, hi, i);
    }
  }

  lemma RootStart(root: Path)
    requires root == []
    ensures Val(First(root)) == 0
  {
    assert First(root) == Zeros(ID_BITS - |root|);
    ValZeros(ID_BITS - |root|);
  }

  /** The whole id space: how many buckets, and where the range of each begins and ends. */
  lemma ShapeRanges(my: Id, k: nat, hi: int)
    requires k <= ID_BITS && hi == Pow2(|my|)
    ensures Abut(Shape(my, k, 0), hi)
    ensures Val(First(Shape(my, k, 0)[0])) == 0
  {
    RootStart(my[..0]);
    ShapeTiles(my, k, 0, 0, hi);
    AllTileEnds(Shape(my, k, 0), 0, hi);
  }

  /** An id lies below the i-th bucket's tree node iff it is in the bucket's numeric range. */
  lemma InRangeIffBelow(my: Id, k: nat, i: nat, id: Id)
    requires i <= k <= ID_BITS
    ensures var s := Shape(my, k, 0);
            s[i] <= id <==> Val(First(s[i])) <= Val(id) && (i == k || Val(id) < Val(First(s[i + 1])))
  {
    var hi := Pow2(|my|);
    ShapeRanges(my, k, hi);
    RangeOfTile(Shape(my, k, 0), hi, i, id);
  }

  lemma RangeOfTile(ps: seq<Path>, hi: int, i: nat, id: Id)
    requires forall p | p in ps :: |p| <= ID_BITS
    requires Abut(ps, hi) && i < |ps| && hi == Pow2(|id|)
    ensures ps[i] <= id <==> Val(First(ps[i])) <= Val(id) < EndOf(ps, i, hi)
    ensures Val(id) < hi
  {
    var width := Pow2(ID_BITS - |ps[i]|);
    assert Val(First(ps[i])) + width == EndOf(ps, i, hi);
    IdRange(ps[i], id, width);
    ValBound(id);
  }

  /** No id lies below two buckets. */
  lemma BelowOne(my: Id, k: nat, i: nat, j: nat, id: Id)
    requires i < j <= k <= ID_BITS
    ensures !(Shape(my, k, 0)[i] <= id && Shape(my, k, 0)[j] <= id)
  {
    InRangeIffBelow(my, k, i, id);
    InRangeIffBelow(my, k, j, id);
    FirstsIncrease(my, k, i, j);
  }

  lemma StartGrows(ps: seq<Path>, hi: int, i: nat)
    requires forall p | p in ps :: |p| <= ID_BITS
    requires Abut(ps, hi) && i + 1 < |ps|
    ensures Val(First(ps[i])) < Val(First(ps[i + 1]))
  {
    assert Val(First(ps[i])) + Pow2(ID_BITS - |ps[i]|) == EndOf(ps, i, hi);
  }

  lemma {:induction false} StartsIncrease(ps: seq<Path>, hi: int, i: nat, j: nat)
    requires forall p | p in ps :: |p| <= ID_BITS
    requires Abut(ps, hi) && i < j < |ps|
    ensures Val(First(ps[i])) < Val(First(ps[i + 1])) <= Val(First(ps[j]))
    decreases j - i
  {
    StartGrows(ps, hi, i);
    if i + 1 < j {
      StartsIncrease(ps, hi, i + 1, j);
    }
  }

  lemma FirstsIncrease(my: Id, k: nat, i: nat, j: nat)
    requires i < j <= k <= ID_BITS
    ensures Val(First(Shape(my, k, 0)[i])) < Val(First(Shape(my, k, 0)[i + 1])) <= Val(First(Shape(my, k, 0)[j]))
  {
    var hi := Pow2(|my|);
    ShapeRanges(my, k, hi);
    StartsIncrease(Shape(my, k, 0), hi, i, j);
  }

  /** max(lowbit of the start, lowbit of the next start) + 1 is the depth of the bucket. */
  lemma DepthFromLowBits(my: Id, k: nat, i: nat)
    requires i <= k <= ID_BITS
    ensures var s := Shape(my, k, 0);
            var b1 := LowBit(First(s[i]));
            var b2 := if i < k then LowBit(First(s[i + 1])) else -1;
            (if b1 >= b2 then b1 else b2) + 1 == |s[i]|
  {
    var hi := Pow2(|my|);
    ShapeRanges(my, k, hi);
    MiddleBit(Shape(my, k, 0), hi, i, my);
  }

  /** The next bucket starts at the tree node right of this one. */
  lemma NextStart(ps: seq<Path>, hi: int, i: nat, any: Id)
    requires forall p | p in ps :: |p| <= ID_BITS
    requires Abut(ps, hi) && i < |ps| && hi == Pow2(|any|)
    ensures i + 1 < |ps| ==> RightOf(ps[i]) != [] && First(ps[i + 1]) == First(RightOf(ps[i]))
    ensures i + 1 == |ps| ==> RightOf(ps[i]) == []
  {
    var p := ps[i];
    var r := RightOf(p);
    RightOfStartsAtEnd(p, |any|);
    ValBound(First(r));
    assert Val(First(p)) + Pow2(ID_BITS - |p|) == EndOf(ps, i, hi);
    if i + 1 < |ps| {
      ValBound(First(ps[i + 1]));
      ValInjective(First(ps[i + 1]), First(r));
    }
  }

  lemma MiddleBit(ps: seq<Path>, hi: int, i: nat, any: Id)
    requires forall p | p in ps :: |p| <= ID_BITS
    requires Abut(ps, hi) && i < |ps| && hi == Pow2(|any|)
    ensures var b1 := LowBit(First(ps[i]));
            var b2 := if i + 1 < |ps| then LowBit(First(ps[i + 1])) else -1;
            (if b1 >= b2 then b1 else b2) + 1 == |ps[i]|
  {
    NextStart(ps, hi, i, any);
    LowBitOfFirst(ps[i]);
    LowBitOfFirst(RightOf(ps[i]));
  }

  lemma LowBitOfFirst(p: Path)
    requires |p| <= ID_BITS
    ensures p != [] && p[|p| - 1] ==> LowBit(First(p)) == |p| - 1
    ensures p != [] && !p[|p| - 1] ==> LowBit(First(p)) < |p| - 1
    ensures p == [] ==> LowBit(First(p)) == -1
  {
    var f := First(p);
    assert forall j | |p| <= j < ID_BITS :: !f[j];
    assert forall j | 0 <= j < |p| :: f[j] == p[j];
  }
}
