/** Node ids as paths from the root of the 160-bit tree (bit 0 is the most significant),
    their numeric order, and the XOR distance of BEP 5. */
module Ids {

  const ID_BITS: nat := 160

  type Path = seq<bool>

  /** A full-length path: one leaf of the tree. */
  type Id = p: Path | |p| == ID_BITS witness seq(ID_BITS, _ => false)

  function Pow2(n: nat): (r: nat)
    ensures r > 0
  {
    if n == 0 then 1 else 2 * Pow2(n - 1)
  }

  function BitWeight(bit: bool, n: nat): nat {
    if bit then Pow2(n) else 0
  }

  /** The unsigned big-endian number a path spells. */
  function Val(p: Path): nat {
    if p == [] then 0 else BitWeight(p[0], |p| - 1) + Val(p[1..])
  }

  /** distance(a, b) = |a xor b|, read as an unsigned big-endian number. */
  function Dist(a: Path, b: Path): nat
    requires |a| == |b|
  {
    if a == [] then 0 else BitWeight(a[0] != b[0], |a| - 1) + Dist(a[1..], b[1..])
  }

  function Zeros(n: nat): (z: Path)
    ensures |z| == n && forall i | 0 <= i < n :: !z[i]
  {
    seq(n, _ => false)
  }

  /** The least path of length n below the tree node p. */
  function PadTo(p: Path, n: nat): (r: Path)
    requires |p| <= n
    ensures |r| == n && p <= r
  {
    p + Zeros(n - |p|)
  }

  /** The least id below the tree node p. */
  function First(p: Path): (r: Id)
    requires |p| <= ID_BITS
    ensures p <= r
  {
    PadTo(p, ID_BITS)
  }

  // ----- numeric order -----

  lemma {:induction false} ValBound(p: Path)
    ensures Val(p) < Pow2(|p|)
  {
    if p != [] {
      ValBound(p[1..]);
    }
  }

  lemma {:induction false} ValInjective(a: Path, b: Path)
    requires |a| == |b| && Val(a) == Val(b)
    ensures a == b
  {
    if a != [] {
      ValBound(a[1..]);
      ValBound(b[1..]);
      ValInjective(a[1..], b[1..]);
      assert a == [a[0]] + a[1..] && b == [b[0]] + b[1..];
    }
  }

  lemma {:induction false} ValZeros(n: nat)
    ensures Val(Zeros(n)) == 0
  {
    if n > 0 {
      ValZeros(n - 1);
      assert Zeros(n)[1..] == Zeros(n - 1);
    }
  }

  /** The subtree of p is the aligned interval of 2^(n-|p|) numbers starting at its least path. */
  lemma {:induction false} SubtreeIsInterval(p: Path, id: Path)
    requires |p| <= |id|
    ensures p <= id <==>
            Val(PadTo(p, |id|)) <= Val(id) < Val(PadTo(p, |id|)) + Pow2(|id| - |p|)
  {
    var f := PadTo(p, |id|);
    if p == [] {
      assert f == Zeros(|id|);
      ValZeros(|id|);
      ValBound(id);
    } else {
      var n := |id| - 1;
      assert f[1..] == PadTo(p[1..], n);
      SubtreeIsInterval(p[1..], id[1..]);
      ValBound(id[1..]);
      ValBound(f[1..]);
      SubtreeFits(p[1..], n);
      assert p <= id <==> p[0] == id[0] && p[1..] <= id[1..] by {
        assert p == [p[0]] + p[1..];
        assert id == [id[0]] + id[1..];
      }
    }
  }

  /** The same for whole ids. */
  lemma IdRange(p: Path, id: Id, width: nat)
    requires |p| <= ID_BITS && width == Pow2(ID_BITS - |p|)
    ensures p <= id <==> Val(First(p)) <= Val(id) < Val(First(p)) + width
  {
    SubtreeIsInterval(p, id);
  }

  lemma {:induction false} SubtreeFits(p: Path, n: nat)
    requires |p| <= n
    ensures Val(PadTo(p, n)) + Pow2(n - |p|) <= Pow2(n)
  {
    if p == [] {
      ValZeros(n);
      assert PadTo(p, n) == Zeros(n);
    } else {
      assert PadTo(p, n)[1..] == PadTo(p[1..], n - 1);
      SubtreeFits(p[1..], n - 1);
    }
  }

  /** The two children of a tree node start at its first id and half-way through it. */
  lemma {:induction false} ChildrenStart(p: Path, n: nat)
    requires |p| < n
    ensures PadTo(p + [false], n) == PadTo(p, n)
    ensures Val(PadTo(p + [true], n)) == Val(PadTo(p, n)) + Pow2(n - |p| - 1)
  {
    if p == [] {
      ValZeros(n);
      ValZeros(n - 1);
      assert PadTo([true], n)[1..] == Zeros(n - 1);
      assert PadTo([], n) == Zeros(n);
    } else {
      ChildrenStart(p[1..], n - 1);
      assert PadTo(p, n)[1..] == PadTo(p[1..], n - 1);
      assert (p + [true])[1..] == p[1..] + [true];
      assert PadTo(p + [true], n)[1..] == PadTo(p[1..] + [true], n - 1);
    }
  }

  /** Setting the next bit of a node's first id gives the first id of its right child. */
  lemma RightChildFirst(p: Path)
    requires |p| < ID_BITS
    ensures First(p)[|p| := true] == First(p + [true])
  {
  }

  // ----- XOR distance -----

  lemma {:induction false} DistBound(a: Path, b: Path)
    requires |a| == |b|
    ensures Dist(a, b) < Pow2(|a|)
  {
    if a != [] {
      DistBound(a[1..], b[1..]);
    }
  }

  /** The distance to a fixed target tells ids apart. */
  lemma {:induction false} DistInjective(a: Path, b: Path, target: Path)
    requires |a| == |b| == |target|
    requires Dist(a, target) == Dist(b, target)
    ensures a == b
  {
    if a != [] {
      DistBound(a[1..], target[1..]);
      DistBound(b[1..], target[1..]);
      DistInjective(a[1..], b[1..], target[1..]);
      assert a == [a[0]] + a[1..] && b == [b[0]] + b[1..];
    }
  }

  /** Everything in the subtree that holds the target is closer to it than everything outside. */
  lemma {:induction false} SubtreeIsCloser(p: Path, inside: Path, outside: Path, target: Path)
    requires |p| <= |inside| == |outside| == |target|
    requires p <= target && p <= inside && !(p <= outside)
    ensures Dist(inside, target) < Dist(outside, target)
  {
    DistBound(inside[1..], target[1..]);
    if p[0] == outside[0] {
      assert p == [p[0]] + p[1..];
      assert outside == [outside[0]] + outside[1..];
      assert p[1..] <= target[1..] && p[1..] <= inside[1..];
      SubtreeIsCloser(p[1..], inside[1..], outside[1..], target[1..]);
    }
  }

  // ----- low bits and successors -----

  /** Index of the last 1 bit, or -1. */
  function LowBit(p: Path): (r: int)
    ensures -1 <= r < |p|
    ensures r >= 0 ==> p[r]
    ensures forall i | r < i < |p| :: !p[i]
  {
    if p == [] then -1
    else if p[|p| - 1] then |p| - 1
    else LowBit(p[..|p| - 1])
  }

  lemma LowBitUnique(p: Path, r: int)
    requires -1 <= r < |p|
    requires r >= 0 ==> p[r]
    requires forall i | r < i < |p| :: !p[i]
    ensures LowBit(p) == r
  {
    var l := LowBit(p);
  }

  /** The tree node just right of p, as high up as possible; [] when p is the right edge. */
  function RightOf(p: Path): (r: Path)
    ensures |r| <= |p|
    ensures r != [] ==> r[|r| - 1]
    ensures r != [] && p[|p| - 1] ==> |r| < |p|
    ensures p != [] && !p[|p| - 1] ==> |r| == |p|
  {
    if p == [] then []
    else if p[|p| - 1] then RightOf(p[..|p| - 1])
    else p[..|p| - 1] + [true]
  }

  /** The interval of p ends exactly where RightOf(p) begins, or at the end of the id space. */
  lemma {:induction false} RightOfStartsAtEnd(p: Path, n: nat)
    requires |p| <= n
    ensures Val(PadTo(p, n)) + Pow2(n - |p|) ==
            if RightOf(p) == [] then Pow2(n) else Val(PadTo(RightOf(p), n))
  {
    if p == [] {
      assert PadTo(p, n) == Zeros(n);
      ValZeros(n);
    } else {
      var q := p[..|p| - 1];
      assert p == q + [p[|p| - 1]];
      ChildrenStart(q, n);
      if p[|p| - 1] {
        RightOfStartsAtEnd(q, n);
      }
    }
  }

  // ----- how many ids fit below a tree node -----

  /** Paths of length n that differ pairwise number at most 2^n. */
  lemma {:induction false} PathCount(s: set<Path>, n: nat)
    requires forall p | p in s :: |p| == n
    ensures |s| <= Pow2(n)
    decreases n
  {
    if n == 0 {
      OnlyEmptyPath(s);
    } else {
      var l := set p: Path | p in s && !p[0];
      var r := set p: Path | p in s && p[0];
      var l' := set p: Path | p in l :: p[1..];
      var r' := set p: Path | p in r :: p[1..];
      PathCount(l', n - 1);
      PathCount(r', n - 1);
      TailsKeepCount(l, l', false);
      TailsKeepCount(r, r', true);
      HeadsCount(s, l, r);
    }
  }

  lemma OnlyEmptyPath(s: set<Path>)
    requires forall p | p in s :: |p| == 0
    ensures |s| <= 1
  {
    forall p | p in s ensures p == [] {
    }
    assert s <= {[]};
    if s != {} {
      assert s == {[]};
    }
  }

  lemma HeadsCount(s: set<Path>, l: set<Path>, r: set<Path>)
    requires forall p | p in s :: p != []
    requires l == (set p: Path | p in s && !p[0]) && r == set p: Path | p in s && p[0]
    ensures |s| == |l| + |r|
  {
    assert s == l + r && l !! r;
  }

  lemma {:induction false} TailsKeepCount(s: set<Path>, tails: set<Path>, bit: bool)
    requires forall p | p in s :: p != [] && p[0] == bit
    requires tails == set p: Path | p in s :: p[1..]
    ensures |s| == |tails|
  {
    if s == {} {
      assert tails == {};
    } else {
      var q :| q in s;
      var s1 := s - {q};
      var t1 := set p: Path | p in s1 :: p[1..];
      assert q == [bit] + q[1..];
      forall p | p in s1 ensures p[1..] != q[1..] {
        assert p == [bit] + p[1..];
      }
      assert tails == t1 + {q[1..]};
      TailsKeepCount(s1, t1, bit);
    }
  }

  /** Distinct ids below p number at most 2^(160-|p|). */
  lemma SubtreeCount(s: set<Id>, p: Path, n: nat)
    requires |p| + n == ID_BITS
    requires forall id | id in s :: p <= id
    ensures |s| <= Pow2(n)
  {
    var tails := set id: Id | id in s :: id[|p|..];
    SuffixesKeepCount(s, tails, p);
    PathCount(tails, n);
  }

  lemma {:induction false} SuffixesKeepCount(s: set<Id>, tails: set<Path>, p: Path)
    requires |p| <= ID_BITS
    requires forall id | id in s :: p <= id
    requires tails == set id: Id | id in s :: id[|p|..]
    ensures |s| == |tails|
  {
    if s == {} {
      assert tails == {};
    } else {
      var q :| q in s;
      var s1 := s - {q};
      var t1 := set id: Id | id in s1 :: id[|p|..];
      assert q == p + q[|p|..];
      forall id: Id | id in s1 ensures id[|p|..] != q[|p|..] {
        assert id == p + id[|p|..];
      }
      assert tails == t1 + {q[|p|..]};
      SuffixesKeepCount(s1, t1, p);
    }
  }
}
