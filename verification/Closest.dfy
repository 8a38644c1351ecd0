/** Lists of the ids closest to a target, and the insertion that keeps them. */
module Closest {
  import opened Wrappers
  import opened Ids

  /** Strictly by increasing distance; no two ids are equally far from a target. */
  ghost predicate Sorted(l: seq<Id>, target: Id) {
    forall i, j | 0 <= i < j < |l| :: Dist(l[i], target) < Dist(l[j], target)
  }

  function SetOf(l: seq<Id>): set<Id> {
    set x | x in l
  }

  /** l lists the cap ids of s closest to the target (all of s, if it has fewer), closest first. */
  ghost predicate IsTop(l: seq<Id>, cap: nat, s: set<Id>, target: Id) {
    && Sorted(l, target)
    && SetOf(l) <= s
    && |l| == Min(cap, |s|)
    && forall x, y | x in s - SetOf(l) && y in l :: Dist(y, target) < Dist(x, target)
  }

  /** Where an offered id belongs: at its own place if listed, else before the first farther id. */
  function Place(l: seq<Id>, id: Id, target: Id): (p: nat)
    ensures p <= |l|
    ensures forall i | 0 <= i < p :: l[i] != id && Dist(l[i], target) <= Dist(id, target)
    ensures p < |l| ==> l[p] == id || Dist(id, target) < Dist(l[p], target)
  {
    if l == [] || l[0] == id || Dist(id, target) < Dist(l[0], target) then 0
    else 1 + Place(l[1..], id, target)
  }

  predicate Listed(l: seq<Id>, id: Id, target: Id) {
    var p := Place(l, id, target);
    p < |l| && l[p] == id
  }

  /** x put at position p of a list that may not grow beyond cap. */
  function InsertAt<T>(l: seq<T>, p: nat, x: T, cap: nat): (r: seq<T>)
    requires p <= |l| <= cap && p < cap
    ensures |r| == Min(cap, |l| + 1)
    ensures forall i | 0 <= i < |r| :: r[i] == if i < p then l[i] else if i == p then x else l[i - 1]
  {
    var r := l[..p] + [x] + l[p..];
    if |r| > cap then r[..cap] else r
  }

  /** The list after an id was offered. */
  function Offer(l: seq<Id>, cap: nat, id: Id, target: Id): (r: seq<Id>)
    requires |l| <= cap
    ensures |r| <= cap
  {
    var p := Place(l, id, target);
    if Listed(l, id, target) || p == cap then l else InsertAt(l, p, id, cap)
  }

  function OfferAll(l: seq<Id>, cap: nat, ids: seq<Id>, target: Id): (r: seq<Id>)
    requires |l| <= cap
    ensures |r| <= cap
    decreases |ids|
  {
    if ids == [] then l
    else OfferAll(Offer(l, cap, ids[0], target), cap, ids[1..], target)
  }

  // ----- counting -----

  lemma {:induction false} SortedCount(l: seq<Id>, target: Id)
    requires Sorted(l, target)
    ensures |SetOf(l)| == |l|
  {
    if l != [] {
      var last := l[|l| - 1];
      var init := l[..|l| - 1];
      SortedCount(init, target);
      assert l == init + [last];
      assert last !in init;
      assert SetOf(l) == SetOf(init) + {last};
    }
  }

  lemma SetOfConcat(a: seq<Id>, b: seq<Id>)
    ensures SetOf(a + b) == SetOf(a) + SetOf(b)
  {
  }

  lemma SubsetCount<T>(a: set<T>, b: set<T>)
    requires a <= b
    ensures |a| <= |b| && (|a| == |b| ==> a == b)
  {
    assert b == a + (b - a);
  }

  // ----- insertion -----

  lemma PlaceOrders(l: seq<Id>, id: Id, target: Id)
    requires Sorted(l, target)
    ensures Listed(l, id, target) <==> id in l
    ensures !Listed(l, id, target) ==>
              && (forall i | 0 <= i < Place(l, id, target) :: Dist(l[i], target) < Dist(id, target))
              && (forall i | Place(l, id, target) <= i < |l| :: Dist(id, target) < Dist(l[i], target))
  {
    var p := Place(l, id, target);
    forall i | 0 <= i < p ensures Dist(l[i], target) < Dist(id, target) {
      if Dist(l[i], target) == Dist(id, target) {
        DistInjective(l[i], id, target);
      }
    }
  }

  lemma InsertedPair(l: seq<Id>, p: nat, id: Id, cap: nat, target: Id, i: nat, j: nat)
    requires Sorted(l, target) && p <= |l| <= cap && p < cap && i < j < |InsertAt(l, p, id, cap)|
    requires forall m | 0 <= m < p :: Dist(l[m], target) < Dist(id, target)
    requires forall m | p <= m < |l| :: Dist(id, target) < Dist(l[m], target)
    ensures Dist(InsertAt(l, p, id, cap)[i], target) < Dist(InsertAt(l, p, id, cap)[j], target)
  {
    var r := InsertAt(l, p, id, cap);
    assert i != p ==> r[i] == l[if i < p then i else i - 1];
    assert j != p ==> r[j] == l[if j < p then j else j - 1];
  }

  lemma InsertKeepsSorted(l: seq<Id>, cap: nat, id: Id, target: Id)
    requires Sorted(l, target) && |l| <= cap && id !in l && Place(l, id, target) < cap
    ensures Sorted(InsertAt(l, Place(l, id, target), id, cap), target)
  {
    PlaceOrders(l, id, target);
    var p, r := Place(l, id, target), InsertAt(l, Place(l, id, target), id, cap);
    forall i, j | 0 <= i < j < |r| ensures Dist(r[i], target) < Dist(r[j], target) {
      InsertedPair(l, p, id, cap, target, i, j);
    }
  }

  lemma OfferKeepsSorted(l: seq<Id>, cap: nat, id: Id, target: Id)
    requires Sorted(l, target) && |l| <= cap
    ensures Sorted(Offer(l, cap, id, target), target)
  {
    PlaceOrders(l, id, target);
    if id !in l && Place(l, id, target) < cap {
      InsertKeepsSorted(l, cap, id, target);
    }
  }

  /** The entries an insertion keeps: all of them, or all but the last of a full list. */
  function Kept(l: seq<Id>, cap: nat): (k: seq<Id>)
    requires |l| <= cap && cap > 0
    ensures |k| < cap && k <= l
  {
    if |l| < cap then l else l[..cap - 1]
  }

  lemma InsertIntoKept(l: seq<Id>, p: nat, id: Id, cap: nat)
    requires p <= |l| <= cap && p < cap
    ensures p <= |Kept(l, cap)|
    ensures InsertAt(l, p, id, cap) == Kept(l, cap)[..p] + [id] + Kept(l, cap)[p..]
  {
  }

  lemma SetOfAround(k: seq<Id>, p: nat, id: Id)
    requires p <= |k|
    ensures SetOf(k[..p] + [id] + k[p..]) == SetOf(k) + {id}
  {
    assert k == k[..p] + k[p..];
  }

  lemma InsertedSet(l: seq<Id>, cap: nat, id: Id, target: Id)
    requires |l| <= cap && Place(l, id, target) < cap
    ensures SetOf(InsertAt(l, Place(l, id, target), id, cap)) == SetOf(Kept(l, cap)) + {id}
  {
    var p := Place(l, id, target);
    InsertIntoKept(l, p, id, cap);
    SetOfAround(Kept(l, cap), p, id);
  }

  /** One offer: the list stays the top of everything offered so far. */
  lemma OfferKeepsTop(l: seq<Id>, cap: nat, s: set<Id>, id: Id, target: Id)
    requires IsTop(l, cap, s, target)
    ensures IsTop(Offer(l, cap, id, target), cap, s + {id}, target)
  {
    PlaceOrders(l, id, target);
    SortedCount(l, target);
    SubsetCount(SetOf(l), s);
    if id in l {
      assert s + {id} == s;
    } else if Place(l, id, target) == cap {
      OfferBeyond(l, cap, s, id, target);
    } else {
      OfferInserts(l, cap, s, id, target);
    }
  }

  lemma OfferBeyond(l: seq<Id>, cap: nat, s: set<Id>, id: Id, target: Id)
    requires IsTop(l, cap, s, target) && id !in l && Place(l, id, target) == cap
    ensures IsTop(l, cap, s + {id}, target)
  {
    PlaceOrders(l, id, target);
    SubsetCount(s, s + {id});
  }

  lemma OfferInserts(l: seq<Id>, cap: nat, s: set<Id>, id: Id, target: Id)
    requires IsTop(l, cap, s, target) && id !in l && Place(l, id, target) < cap
    ensures IsTop(InsertAt(l, Place(l, id, target), id, cap), cap, s + {id}, target)
  {
    var p := Place(l, id, target);
    var r := InsertAt(l, p, id, cap);
    PlaceOrders(l, id, target);
    InsertKeepsSorted(l, cap, id, target);
    InsertedSet(l, cap, id, target);
    SortedCount(l, target);
    SubsetCount(SetOf(l), s);
    if |l| < cap {
      assert SetOf(l) == s && Kept(l, cap) == l;
      assert SetOf(r) == s + {id};
    } else {
      InsertFull(l, cap, s, id, target);
    }
  }

  /** A full list: its last entry makes room, and is farther than what remains. */
  lemma InsertFull(l: seq<Id>, cap: nat, s: set<Id>, id: Id, target: Id)
    requires IsTop(l, cap, s, target) && id !in l && Place(l, id, target) < cap == |l|
    ensures forall x, y | x in s + {id} - (SetOf(Kept(l, cap)) + {id}) && y in SetOf(Kept(l, cap)) + {id} ::
              Dist(y, target) < Dist(x, target)
  {
    PlaceOrders(l, id, target);
    forall x, y | x in s + {id} - (SetOf(Kept(l, cap)) + {id}) && y in SetOf(Kept(l, cap)) + {id}
      ensures Dist(y, target) < Dist(x, target)
    {
      LeftOutIsFarther(l, cap, s, id, target, x, y);
    }
  }

  lemma LeftOutIsFarther(l: seq<Id>, cap: nat, s: set<Id>, id: Id, target: Id, x: Id, y: Id)
    requires IsTop(l, cap, s, target) && id !in l && 0 < cap == |l|
    requires Dist(id, target) < Dist(l[|l| - 1], target)
    requires x in s && x != id && x !in Kept(l, cap) && (y == id || y in Kept(l, cap))
    ensures Dist(y, target) < Dist(x, target)
  {
    var last := l[|l| - 1];
    if y != id {
      KeptIsNearer(l, cap, target, y);
    }
    assert last in l;
    if x != last {
      OnlyLastIsNotKept(l, cap, x);
      assert x in s - SetOf(l);
    }
  }

  lemma KeptIsNearer(l: seq<Id>, cap: nat, target: Id, y: Id)
    requires Sorted(l, target) && 0 < cap == |l| && y in Kept(l, cap)
    ensures Dist(y, target) < Dist(l[|l| - 1], target)
  {
    var k :| 0 <= k < |Kept(l, cap)| && Kept(l, cap)[k] == y;
    assert l[k] == y;
  }

  lemma OnlyLastIsNotKept(l: seq<Id>, cap: nat, x: Id)
    requires 0 < cap == |l| && x !in Kept(l, cap) && x != l[|l| - 1]
    ensures x !in l
  {
    assert l == Kept(l, cap) + [l[|l| - 1]];
  }

  lemma SetOfCons(s: set<Id>, ids: seq<Id>)
    requires ids != []
    ensures s + {ids[0]} + SetOf(ids[1..]) == s + SetOf(ids)
  {
    assert ids == [ids[0]] + ids[1..];
  }

  /** Any number of offers, in any order, to a list that is the top of a set. */
  lemma {:induction false} OffersKeepTop(l: seq<Id>, cap: nat, s: set<Id>, ids: seq<Id>, target: Id)
    requires IsTop(l, cap, s, target)
    ensures IsTop(OfferAll(l, cap, ids, target), cap, s + SetOf(ids), target)
    decreases |ids|
  {
    if ids == [] {
      assert s + SetOf(ids) == s;
    } else {
      OfferKeepsTop(l, cap, s, ids[0], target);
      OffersKeepTop(Offer(l, cap, ids[0], target), cap, s + {ids[0]}, ids[1..], target);
      SetOfCons(s, ids);
    }
  }

  /** A sorted list within capacity is the top of its own entries. */
  lemma SortedIsTop(l: seq<Id>, cap: nat, target: Id)
    requires Sorted(l, target) && |l| <= cap
    ensures IsTop(l, cap, SetOf(l), target)
  {
    SortedCount(l, target);
  }

  // ----- uniqueness -----

  lemma DropFarthest(a: seq<Id>, target: Id)
    requires Sorted(a, target) && a != []
    ensures SetOf(a[..|a| - 1]) == SetOf(a) - {a[|a| - 1]}
    ensures forall x | x in SetOf(a) :: Dist(x, target) <= Dist(a[|a| - 1], target)
  {
    var x, a' := a[|a| - 1], a[..|a| - 1];
    assert a == a' + [x];
    assert x !in a';
  }

  lemma {:induction false} SortedUnique(a: seq<Id>, b: seq<Id>, target: Id)
    requires Sorted(a, target) && Sorted(b, target) && SetOf(a) == SetOf(b)
    ensures a == b
  {
    SortedCount(a, target);
    SortedCount(b, target);
    if a != [] {
      SameFarthest(a, b, target);
      SortedUnique(a[..|a| - 1], b[..|b| - 1], target);
      assert a == a[..|a| - 1] + [a[|a| - 1]];
      assert b == b[..|b| - 1] + [b[|b| - 1]];
    }
  }

  lemma SameFarthest(a: seq<Id>, b: seq<Id>, target: Id)
    requires Sorted(a, target) && Sorted(b, target) && SetOf(a) == SetOf(b) && a != [] && b != []
    ensures a[|a| - 1] == b[|b| - 1] && SetOf(a[..|a| - 1]) == SetOf(b[..|b| - 1])
  {
    DropFarthest(a, target);
    DropFarthest(b, target);
    var x, y := a[|a| - 1], b[|b| - 1];
    assert x in SetOf(b) && y in SetOf(a);
    DistInjective(x, y, target);
  }

  lemma BiggerHasMore<T>(a: set<T>, b: set<T>)
    requires |a| > |b|
    ensures exists x :: x in a && x !in b
  {
    if a <= b {
      SubsetCount(a, b);
    }
  }

  /** If some ids of s are closer than all the others, the top of s begins with the top of them. */
  lemma TopPrefix(l: seq<Id>, cap: nat, s: set<Id>, near: set<Id>, target: Id)
    requires IsTop(l, cap, s, target) && near <= s
    requires forall x, y | x in near && y in s - near :: Dist(x, target) < Dist(y, target)
    ensures Min(cap, |near|) <= |l|
    ensures IsTop(l[..Min(cap, |near|)], cap, near, target)
  {
    SubsetCount(near, s);
    var m := Min(cap, |near|);
    var h := l[..m];
    forall i | 0 <= i < m ensures l[i] in near {
      NearComesFirst(l, cap, s, near, target, i);
    }
    assert SetOf(h) <= near;
    SortedCount(h, target);
    SubsetCount(SetOf(h), near);
    if m == cap {
      assert h == l;
    }
  }

  lemma NearComesFirst(l: seq<Id>, cap: nat, s: set<Id>, near: set<Id>, target: Id, i: nat)
    requires IsTop(l, cap, s, target) && near <= s && i < |l| && i < |near|
    requires forall x, y | x in near && y in s - near :: Dist(x, target) < Dist(y, target)
    ensures l[i] in near
  {
    var before := l[..i];
    SortedCount(before, target);
    BiggerHasMore(near, SetOf(before));
    var h :| h in near && h !in SetOf(before);
    assert l[i] in SetOf(l);
    assert l == before + l[i..];
    if h in l {
      var j :| 0 <= j < |l[i..]| && l[i..][j] == h;
      assert l[i + j] == h;
    } else {
      assert h in s - SetOf(l);
    }
    assert Dist(l[i], target) <= Dist(h, target);
  }

  /** There is one list of the closest. */
  lemma TopUnique(a: seq<Id>, b: seq<Id>, cap: nat, s: set<Id>, target: Id)
    requires IsTop(a, cap, s, target) && IsTop(b, cap, s, target)
    ensures a == b
  {
    SortedCount(a, target);
    SortedCount(b, target);
    TopPrefix(a, cap, s, SetOf(b), target);
    assert a[..|a|] == a;
    SubsetCount(SetOf(a), SetOf(b));
    SortedUnique(a, b, target);
  }

  /** The order of the offers does not matter. */
  lemma OfferOrderIrrelevant(l: seq<Id>, cap: nat, xs: seq<Id>, ys: seq<Id>, target: Id)
    requires Sorted(l, target) && |l| <= cap && SetOf(xs) == SetOf(ys)
    ensures OfferAll(l, cap, xs, target) == OfferAll(l, cap, ys, target)
  {
    SortedIsTop(l, cap, target);
    OffersKeepTop(l, cap, SetOf(l), xs, target);
    OffersKeepTop(l, cap, SetOf(l), ys, target);
    TopUnique(OfferAll(l, cap, xs, target), OfferAll(l, cap, ys, target), cap, SetOf(l) + SetOf(xs), target);
  }

}
