/** Facts about sequences and multisets of any element type. */
module SeqFacts {

  lemma TailOfConcat<T>(a: seq<T>, b: seq<T>)
    requires a != []
    ensures (a + b)[0] == a[0] && (a + b)[1..] == a[1..] + b
  {
  }

  lemma EmptyConcat<T>(a: seq<T>, b: seq<T>)
    requires a == []
    ensures a + b == b && b + a == b
  {
  }

  lemma ConcatAssoc<T>(a: seq<T>, b: seq<T>, c: seq<T>)
    ensures (a + b) + c == a + (b + c)
  {
  }

  lemma Around<T>(s: seq<T>, j: nat, x: T)
    requires j < |s|
    ensures s == s[..j] + [s[j]] + s[j + 1..]
    ensures s[j := x] == s[..j] + [x] + s[j + 1..]
  {
  }

  lemma SliceSlice<T>(s: seq<T>, a: nat, b: nat, p: nat, q: nat)
    requires a <= b <= |s| && p <= q <= b - a
    ensures s[a..b][p..q] == s[a + p..a + q]
  {
    var l, r := s[a..b][p..q], s[a + p..a + q];
    assert |l| == |r|;
    forall j | 0 <= j < |l| ensures l[j] == r[j] {
      assert l[j] == s[a..b][p + j];
    }
  }

  /** One step of a pass over c, whose elements from i on are still those of l. */
  lemma StepForward<T>(c: seq<T>, l: seq<T>, i: nat, x: T)
    requires i < |l| == |c| && c[i..] == l[i..]
    ensures c[i] == l[i] && l[i..][0] == l[i] && l[i..] != [] && l[i..][1..] == l[i + 1..]
    ensures c[i := x][..i + 1] == c[..i] + [x]
    ensures c[i := x][i + 1..] == l[i + 1..]
  {
    assert c[i..][0] == l[i..][0];
    assert c[i..][1..] == c[i + 1..];
  }

  /** Replacing one element by two. */
  function TwoForOne<T>(s: seq<T>, j: nat, x: T, y: T): (r: seq<T>)
    requires j < |s|
    ensures |r| == |s| + 1 && r[j] == x && r[j + 1] == y
  {
    s[..j] + ([x] + [y]) + s[j + 1..]
  }

  lemma TwoForOneElsewhere<T>(s: seq<T>, j: nat, x: T, y: T, i: nat)
    requires j < |s| && i < |s| && i != j
    ensures TwoForOne(s, j, x, y)[if i < j then i else i + 1] == s[i]
  {
  }

  lemma Regroup<T>(a: multiset<T>, b: multiset<T>, c: multiset<T>)
    ensures (a + b) + c == a + (b + c)
  {
  }

  lemma SwapMiddle<T>(l: multiset<T>, m: multiset<T>, r: multiset<T>, b: multiset<T>)
    ensures ((l + m) + r) + b == ((l + b) + r) + m
  {
  }
}
