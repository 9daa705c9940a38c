/** Choosing the unique cycles of the refined graph and measuring them
    (perimeter_cycles.py): approximate_subset, the filter loop of
    find_unique_cycles, and calculate_perimeters over an abstract distance. */
module PerimeterCycles {
  import opened Geometry

  /** A cycle as the cycle enumeration lists it: its nodes in order, at least one. */
  type Cycle = c: seq<Point> | |c| > 0 witness [Point(0.0, 0.0)]

  /** The default threshold of approximate_subset. */
  const Threshold: real := 0.8

  // ---------------------------------------------------------------------
  // approximate_subset
  // ---------------------------------------------------------------------

  /** How many items of l1 can each be matched with an occurrence of its own in l2. */
  function Common(l1: seq<Point>, l2: seq<Point>): nat
  {
    |multiset(l1) * multiset(l2)|
  }

  /** The share of l1 matched in l2. */
  function Proportion(l1: seq<Point>, l2: seq<Point>): real
    requires |l1| > 0
  {
    Common(l1, l2) as real / |l1| as real
  }

  /** The position of the first occurrence of x in s. */
  function FirstIndex(s: seq<Point>, x: Point): (k: nat)
    requires x in s
    ensures k < |s| && s[k] == x && x !in s[..k]
  {
    if s[0] == x then 0
    else
      assert s[1..][..FirstIndex(s[1..], x)] == s[1..FirstIndex(s[1..], x) + 1];
      FirstIndex(s[1..], x) + 1
  }

  /** list.remove: drops the first occurrence of x, keeping the rest in order. */
  function RemoveFirst(s: seq<Point>, x: Point): (r: seq<Point>)
    requires x in s
    ensures |r| == |s| - 1
    ensures multiset(r) == multiset(s) - multiset{x}
  {
    var k := FirstIndex(s, x);
    assert s == s[..k] + [s[k]] + s[k + 1..];
    s[..k] + s[k + 1..]
  }

  /** Matching one more item x against what is left of a. */
  lemma MatchStep(m: multiset<Point>, a: multiset<Point>, x: Point)
    ensures x in a - m ==> (m + multiset{x}) * a == m * a + multiset{x}
    ensures x !in a - m ==> (m + multiset{x}) * a == m * a
  {
    if x in a - m {
      assert forall y :: ((m + multiset{x}) * a)[y] == (m * a + multiset{x})[y];
    } else {
      assert forall y :: ((m + multiset{x}) * a)[y] == (m * a)[y];
    }
  }

  /** The loop body of approximate_subset keeps its count and its copy of
      list2 in step with the items of list1 seen so far. */
  lemma MatchOne(list1: seq<Point>, list2: seq<Point>, k: int, temp: seq<Point>, count: int)
    requires 0 <= k < |list1|
    requires multiset(temp) == multiset(list2) - multiset(list1[..k])
    requires count == |multiset(list1[..k]) * multiset(list2)|
    ensures list1[k] in temp ==>
              && count + 1 == |multiset(list1[..k + 1]) * multiset(list2)|
              && multiset(RemoveFirst(temp, list1[k])) == multiset(list2) - multiset(list1[..k + 1])
    ensures list1[k] !in temp ==>
              && count == |multiset(list1[..k + 1]) * multiset(list2)|
              && multiset(temp) == multiset(list2) - multiset(list1[..k + 1])
  {
    var m, a, x := multiset(list1[..k]), multiset(list2), list1[k];
    assert list1[..k + 1] == list1[..k] + [x];
    assert multiset(list1[..k + 1]) == m + multiset{x};
    MatchStep(m, a, x);
    assert x in temp <==> x in a - m;
    if x in temp {
      assert a - (m + multiset{x}) == (a - m) - multiset{x};
    } else {
      assert a - (m + multiset{x}) == a - m;
    }
  }

  lemma ShareBounds(count: int, n: int)
    requires 0 <= count <= n && 0 < n
    ensures 0.0 <= count as real / n as real <= 1.0
  {
  }

  /** perimeter_cycles.py, approximate_subset: each item of list1 consumes
      one matching occurrence in a copy of list2. */
  method ApproximateSubset(list1: seq<Point>, list2: seq<Point>, threshold: real)
    returns (result: bool, proportion: real)
    requires |list1| > 0
    ensures proportion == Proportion(list1, list2)
    ensures 0.0 <= proportion <= 1.0
    ensures result <==> proportion >= threshold
  {
    var count := 0;
    var tempList2 := list2;
    for k := 0 to |list1|
      invariant multiset(tempList2) == multiset(list2) - multiset(list1[..k])
      invariant count == |multiset(list1[..k]) * multiset(list2)|
      invariant count <= k
    {
      var item := list1[k];
      MatchOne(list1, list2, k, tempList2, count);
      if item in tempList2 {
        count := count + 1;
        tempList2 := RemoveFirst(tempList2, item);
      }
    }
    assert list1[..|list1|] == list1;
    proportion := count as real / |list1| as real;
    ShareBounds(count, |list1|);
    result := proportion >= threshold;
  }

  /** A sub-multiset of the same size is the whole multiset. */
  lemma SameSizeSubMultiset(a: multiset<Point>, b: multiset<Point>)
    requires a <= b && |a| == |b|
    ensures a == b
  {
    assert b == a + (b - a);
  }

  /** l1 is matched in full exactly when it is a sub-multiset of l2; then
      approximate_subset returns (True, 1.0) for any threshold up to 1. */
  lemma FullMatchExactly(l1: seq<Point>, l2: seq<Point>)
    requires |l1| > 0
    ensures Proportion(l1, l2) == 1.0 <==> multiset(l1) <= multiset(l2)
  {
    var m := multiset(l1) * multiset(l2);
    assert m <= multiset(l1) && m <= multiset(l2);
    WholeShare(Common(l1, l2), |l1|);
    if multiset(l1) <= multiset(l2) {
      assert forall y :: m[y] == multiset(l1)[y];
      assert m == multiset(l1);
    }
    if Common(l1, l2) == |l1| {
      SameSizeSubMultiset(m, multiset(l1));
    }
  }

  lemma WholeShare(count: nat, n: nat)
    requires 0 < n
    ensures count as real / n as real == 1.0 <==> count == n
  {
    if count as real / n as real == 1.0 {
      assert count as real == n as real;
    }
  }

  // ---------------------------------------------------------------------
  // The stable sort by length, longest first
  // ---------------------------------------------------------------------

  predicate LongestFirst(s: seq<Cycle>)
  {
    forall a, b | 0 <= a < b < |s| :: |s[a]| >= |s[b]|
  }

  /** The cycles of s of length n, in their order in s. */
  function OfLength(s: seq<Cycle>, n: nat): seq<Cycle>
  {
    if s == [] then [] else (if |s[0]| == n then [s[0]] else []) + OfLength(s[1..], n)
  }

  /** Puts c in front of the first cycle of s that is not longer than c. */
  function InsertByLength(c: Cycle, s: seq<Cycle>): (r: seq<Cycle>)
    ensures multiset(r) == multiset(s) + multiset{c}
  {
    if s == [] || |s[0]| <= |c| then [c] + s
    else
      assert s == [s[0]] + s[1..];
      [s[0]] + InsertByLength(c, s[1..])
  }

  lemma {:induction false} InsertSorted(c: Cycle, s: seq<Cycle>)
    requires LongestFirst(s)
    ensures LongestFirst(InsertByLength(c, s))
  {
    if s != [] && |s[0]| > |c| {
      var tail := InsertByLength(c, s[1..]);
      InsertSorted(c, s[1..]);
      forall y | y in tail ensures |y| <= |s[0]| {
        assert y in multiset(tail);
        if y != c {
          assert y in multiset(s[1..]);
          var b :| 0 <= b < |s[1..]| && s[1..][b] == y;
          assert s[b + 1] == y;
        }
      }
      assert forall b | 0 < b < |[s[0]] + tail| :: ([s[0]] + tail)[b] in tail;
    }
  }

  /** The stable sort of the source by length, longest first. */
  function SortByLength(s: seq<Cycle>): (r: seq<Cycle>)
    ensures multiset(r) == multiset(s)
    ensures LongestFirst(r)
  {
    if s == [] then []
    else
      assert s == [s[0]] + s[1..];
      InsertSorted(s[0], SortByLength(s[1..]));
      InsertByLength(s[0], SortByLength(s[1..]))
  }

  lemma {:induction false} InsertKeepsOrder(c: Cycle, s: seq<Cycle>, n: nat)
    requires LongestFirst(s)
    ensures OfLength(InsertByLength(c, s), n) == (if |c| == n then [c] else []) + OfLength(s, n)
  {
    if s == [] || |s[0]| <= |c| {
      assert ([c] + s)[1..] == s;
    } else {
      assert LongestFirst(s[1..]);
      InsertKeepsOrder(c, s[1..], n);
      assert ([s[0]] + InsertByLength(c, s[1..]))[1..] == InsertByLength(c, s[1..]);
    }
  }

  /** The sort is stable: cycles of equal length keep their input order. */
  lemma {:induction false} SortIsStable(s: seq<Cycle>, n: nat)
    ensures OfLength(SortByLength(s), n) == OfLength(s, n)
  {
    if s != [] {
      SortIsStable(s[1..], n);
      InsertKeepsOrder(s[0], SortByLength(s[1..]), n);
    }
  }

  // ---------------------------------------------------------------------
  // find_unique_cycles
  // ---------------------------------------------------------------------

  function ToSet(c: seq<Point>): set<Point>
  {
    set x | x in c
  }

  /** Line 54: cycle i is dropped in favour of a different cycle j that it
      mostly or wholly contains. */
  predicate Subsumes(i: Cycle, j: Cycle)
  {
    (Proportion(j, i) >= Threshold || ToSet(j) <= ToSet(i)) && i != j
  }

  /** No cycle of s is dropped in favour of another one of s. */
  predicate NoneSubsumed(s: seq<Cycle>)
  {
    forall a, b | 0 <= a < |s| && 0 <= b < |s| :: !Subsumes(s[a], s[b])
  }

  /** Some cycle of sub that is not yet removed lets i be dropped. */
  predicate Covered(i: Cycle, sub: seq<Cycle>, removed: seq<Cycle>)
  {
    exists t :: 0 <= t < |sub| && sub[t] !in removed && Subsumes(i, sub[t])
  }

  /** remove_cycles after the first k cycles of a pass over sub: a removal
      made earlier in the pass is seen by the later checks. */
  function PassRemovals(sub: seq<Cycle>, removed: seq<Cycle>, k: nat): seq<Cycle>
    requires k <= |sub|
  {
    if k == 0 then removed
    else
      var r := PassRemovals(sub, removed, k - 1);
      if Covered(sub[k - 1], sub, r) then r + [sub[k - 1]] else r
  }

  /** Line 61: the cycles of s not in removed, in order. */
  function Without(s: seq<Cycle>, removed: seq<Cycle>): seq<Cycle>
  {
    if s == [] then [] else (if s[0] in removed then [] else [s[0]]) + Without(s[1..], removed)
  }

  /** The inner loop of lines 50-58: is some remaining cycle j inside i? */
  method FindCovered(i: Cycle, sub: seq<Cycle>, removed: seq<Cycle>) returns (found: bool)
    ensures found <==> Covered(i, sub, removed)
  {
    found := false;
    for t := 0 to |sub|
      invariant forall u | 0 <= u < t :: !(sub[u] !in removed && Subsumes(i, sub[u]))
    {
      var j := sub[t];
      if j !in removed {
        var result, proportion := ApproximateSubset(j, i, Threshold);
        if (result || ToSet(j) <= ToSet(i)) && i != j {
          found := true;
          return;
        }
      }
    }
  }

  /** One pass of the while loop, lines 47-58. */
  method RemovalPass(sub: seq<Cycle>, removed: seq<Cycle>, stopFlag: int)
    returns (removed': seq<Cycle>, stopFlag': int)
    ensures removed' == PassRemovals(sub, removed, |sub|)
    ensures stopFlag' == if sub == [] then stopFlag else |sub|
  {
    removed', stopFlag' := removed, stopFlag;
    for k := 0 to |sub|
      invariant removed' == PassRemovals(sub, removed, k)
      invariant stopFlag' == if k == 0 then stopFlag else |sub|
    {
      stopFlag' := |sub|;
      var found := FindCovered(sub[k], sub, removed');
      if found {
        removed' := removed' + [sub[k]];
      }
    }
  }

  lemma {:induction false} WithoutMembers(s: seq<Cycle>, removed: seq<Cycle>, x: Cycle)
    ensures x in Without(s, removed) <==> x in s && x !in removed
  {
    if s != [] {
      WithoutMembers(s[1..], removed, x);
      assert s == [s[0]] + s[1..];
    }
  }

  /** The filter drops at least one cycle exactly when some cycle of s is
      in removed. */
  lemma {:induction false} WithoutLength(s: seq<Cycle>, removed: seq<Cycle>)
    ensures |Without(s, removed)| <= |s|
    ensures |Without(s, removed)| < |s| <==> exists x :: x in s && x in removed
    ensures |Without(s, removed)| == |s| ==> Without(s, removed) == s
  {
    if s != [] {
      WithoutLength(s[1..], removed);
      assert s == [s[0]] + s[1..];
    }
  }

  /** Filtering by a list and then by a longer one is filtering by the longer one. */
  lemma {:induction false} WithoutTwice(s: seq<Cycle>, r1: seq<Cycle>, r2: seq<Cycle>)
    requires forall x | x in r1 :: x in r2
    ensures Without(Without(s, r1), r2) == Without(s, r2)
  {
    if s != [] {
      WithoutTwice(s[1..], r1, r2);
      if s[0] !in r1 {
        assert Without(Without(s, r1), r2)
            == Without([s[0]] + Without(s[1..], r1), r2);
        assert ([s[0]] + Without(s[1..], r1))[1..] == Without(s[1..], r1);
      } else {
        assert s[0] in r2;
        assert Without(s, r1) == Without(s[1..], r1);
        assert Without(s, r2) == Without(s[1..], r2);
      }
    }
  }

  lemma {:induction false} WithoutKeepsOrder(s: seq<Cycle>, removed: seq<Cycle>)
    requires LongestFirst(s)
    ensures LongestFirst(Without(s, removed))
  {
    if s != [] {
      WithoutKeepsOrder(s[1..], removed);
      var w := Without(s[1..], removed);
      forall y | y in w ensures |s[0]| >= |y| {
        WithoutMembers(s[1..], removed, y);
      }
      if s[0] !in removed {
        assert forall b | 0 < b < |[s[0]] + w| :: ([s[0]] + w)[b] in w;
      }
    }
  }

  /** A pass only appends, and only cycles of sub. */
  lemma {:induction false} PassGrows(sub: seq<Cycle>, removed: seq<Cycle>, k: nat)
    requires k <= |sub|
    ensures |PassRemovals(sub, removed, k)| >= |removed|
    ensures PassRemovals(sub, removed, k)[..|removed|] == removed
    ensures forall m | |removed| <= m < |PassRemovals(sub, removed, k)| ::
              PassRemovals(sub, removed, k)[m] in sub
  {
    if k > 0 {
      PassGrows(sub, removed, k - 1);
    }
  }

  /** Some cycle of sub survives any step after which remove_cycles has grown:
      the cycle that let the last one go is never itself removed. */
  lemma {:induction false} PassWitness(sub: seq<Cycle>, removed: seq<Cycle>, k: nat)
    requires k <= |sub|
    ensures PassRemovals(sub, removed, k) == removed ||
            exists t :: 0 <= t < |sub| && sub[t] !in PassRemovals(sub, removed, k)
  {
    if k > 0 {
      PassWitness(sub, removed, k - 1);
      var r := PassRemovals(sub, removed, k - 1);
      if Covered(sub[k - 1], sub, r) {
        var t :| 0 <= t < |sub| && sub[t] !in r && Subsumes(sub[k - 1], sub[t]);
        assert sub[t] !in r + [sub[k - 1]];
      }
    }
  }

  /** A pass over a non-empty list with nothing of it removed yet keeps at
      least one cycle. */
  lemma PassKeepsSurvivor(sub: seq<Cycle>, removed: seq<Cycle>)
    requires sub != []
    requires forall x | x in sub :: x !in removed
    ensures Without(sub, PassRemovals(sub, removed, |sub|)) != []
  {
    var r := PassRemovals(sub, removed, |sub|);
    PassWitness(sub, removed, |sub|);
    var t: int := 0;
    if r != removed {
      t :| 0 <= t < |sub| && sub[t] !in r;
    }
    WithoutMembers(sub, r, sub[t]);
  }

  /** A pass that removes nothing leaves no cycle of sub covered by another. */
  lemma {:induction false} QuietPrefix(sub: seq<Cycle>, removed: seq<Cycle>, k: nat)
    requires k <= |sub|
    requires PassRemovals(sub, removed, k) == removed
    ensures forall a | 0 <= a < k :: !Covered(sub[a], sub, removed)
  {
    if k > 0 {
      var r := PassRemovals(sub, removed, k - 1);
      PassGrows(sub, removed, k - 1);
      assert !Covered(sub[k - 1], sub, r);
      QuietPrefix(sub, removed, k - 1);
    }
  }

  lemma QuietPassNoCover(sub: seq<Cycle>, removed: seq<Cycle>)
    requires forall x | x in sub :: x !in removed
    requires PassRemovals(sub, removed, |sub|) == removed
    ensures NoneSubsumed(sub)
  {
    QuietPrefix(sub, removed, |sub|);
    forall a, b | 0 <= a < |sub| && 0 <= b < |sub| ensures !Subsumes(sub[a], sub[b]) {
      assert !Covered(sub[a], sub, removed);
      assert sub[b] in sub;
    }
  }

  /** Two cycles that each let the other go: the first one tested is
      removed, and the second is then kept, because the only cycle that
      could remove it is already removed. */
  lemma MutualPairKeepsSecond(a: Cycle, b: Cycle)
    requires Subsumes(a, b) && Subsumes(b, a)
    ensures PassRemovals([a, b], [], 2) == [a]
    ensures Without([a, b], [a]) == [b]
  {
    var sub := [a, b];
    assert sub[1] !in [] && Subsumes(a, sub[1]);
    assert PassRemovals(sub, [], 1) == [a];
    assert !Covered(b, sub, [a]) by {
      forall t | 0 <= t < 2 ensures !(sub[t] !in [a] && Subsumes(b, sub[t])) {
        if t == 1 {
          assert sub[t] == b;
        }
      }
    }
    assert Without(sub, [a]) == Without([b], [a]);
  }

  /** A pass that removes something shortens the list (line 61). */
  lemma PassShrinks(sub: seq<Cycle>, removed: seq<Cycle>)
    requires PassRemovals(sub, removed, |sub|) != removed
    ensures |Without(sub, PassRemovals(sub, removed, |sub|))| < |sub|
  {
    var r := PassRemovals(sub, removed, |sub|);
    PassGrows(sub, removed, |sub|);
    assert forall m | 0 <= m < |removed| :: r[m] == removed[m];
    assert |r| > |removed|;
    assert r[|removed|] in sub && r[|removed|] in r;
    WithoutLength(sub, r);
  }

  /** One pass of find_unique_cycles and the filter after it, on a list
      that is the sorted input filtered by remove_cycles. */
  lemma PassStep(sorted: seq<Cycle>, sub: seq<Cycle>, removed: seq<Cycle>, removed': seq<Cycle>)
    requires sub == Without(sorted, removed)
    requires removed' == PassRemovals(sub, removed, |sub|)
    ensures Without(sub, removed') == Without(sorted, removed')
    ensures |Without(sub, removed')| <= |sub|
    ensures sub != [] ==> Without(sub, removed') != []
    ensures |Without(sub, removed')| == |sub| ==>
              && removed' == removed
              && Without(sub, removed') == sub
              && NoneSubsumed(sub)
  {
    forall x | x in sub ensures x !in removed {
      WithoutMembers(sorted, removed, x);
    }
    PassGrows(sub, removed, |sub|);
    forall x | x in removed ensures x in removed' {
      var m :| 0 <= m < |removed| && removed[m] == x;
      assert removed'[..|removed|][m] == x;
    }
    WithoutTwice(sorted, removed, removed');
    WithoutLength(sub, removed');
    if sub != [] {
      PassKeepsSurvivor(sub, removed);
    }
    if |Without(sub, removed')| == |sub| {
      if removed' != removed {
        PassShrinks(sub, removed);
      }
      QuietPassNoCover(sub, removed);
    }
  }

  /** The list find_unique_cycles settles on: passes over what is left of
      sorted until a pass removes nothing. */
  ghost function Refine(sorted: seq<Cycle>, removed: seq<Cycle>): seq<Cycle>
    decreases |Without(sorted, removed)|
  {
    var sub := Without(sorted, removed);
    var r := PassRemovals(sub, removed, |sub|);
    if r == removed then sub
    else
      PassStep(sorted, sub, removed, r);
      Refine(sorted, r)
  }

  /** What the passes settle on is what the filter leaves of sorted after
      some removals; it is empty only if nothing was left to start with,
      and no cycle in it can be dropped in favour of another. */
  lemma {:induction false} RefineSettles(sorted: seq<Cycle>, removed: seq<Cycle>)
    ensures exists r :: Refine(sorted, removed) == Without(sorted, r)
    ensures Refine(sorted, removed) == [] <==> Without(sorted, removed) == []
    ensures NoneSubsumed(Refine(sorted, removed))
    decreases |Without(sorted, removed)|
  {
    var sub := Without(sorted, removed);
    var r := PassRemovals(sub, removed, |sub|);
    PassStep(sorted, sub, removed, r);
    if r == removed {
      WithoutLength(sub, r);
    } else {
      RefineSettles(sorted, r);
    }
  }

  /** perimeter_cycles.py, find_unique_cycles (lines 41-67), with the cycle
      list as its input. */
  method FindUniqueCycles(allCycles: seq<Cycle>) returns (uniqueCycles: seq<Cycle>)
    ensures uniqueCycles == Refine(SortByLength(allCycles), [])
    ensures exists removed :: uniqueCycles == Without(SortByLength(allCycles), removed)
    ensures LongestFirst(uniqueCycles)
    ensures forall c | c in uniqueCycles :: c in allCycles
    ensures uniqueCycles == [] <==> allCycles == []
    ensures NoneSubsumed(uniqueCycles)
  {
    var sorted := SortByLength(allCycles);
    var subCycles := sorted;
    var removeCycles: seq<Cycle> := [];
    var lenCycles := 1000;
    var stopFlag := 0;
    uniqueCycles := [];
    ghost var first := true;
    WithoutLength(sorted, []);
    assert |sorted| == |allCycles| by {
      assert |multiset(sorted)| == |multiset(allCycles)|;
    }
    while lenCycles != stopFlag
      invariant subCycles == Without(sorted, removeCycles)
      invariant Refine(sorted, removeCycles) == Refine(sorted, [])
      invariant first ==> removeCycles == [] && subCycles == sorted && lenCycles == 1000 && stopFlag == 0
      invariant !first ==> lenCycles == |subCycles| && |subCycles| <= stopFlag && uniqueCycles == subCycles
      invariant !first && subCycles == [] ==> stopFlag == 0
      invariant !first && lenCycles == stopFlag ==>
                  PassRemovals(subCycles, removeCycles, |subCycles|) == removeCycles
      decreases if first then |allCycles| + 2 else |subCycles| + (if lenCycles != stopFlag then 1 else 0)
    {
      var before := removeCycles;
      removeCycles, stopFlag := RemovalPass(subCycles, removeCycles, stopFlag);
      PassStep(sorted, subCycles, before, removeCycles);
      subCycles := Without(subCycles, removeCycles);
      lenCycles := |subCycles|;
      uniqueCycles := subCycles;
      first := false;
    }
    RefineSettles(sorted, []);
    Survivors(allCycles, removeCycles);
  }

  /** What is left of the sorted input after any removals is ordered longest
      first and drawn from the input. */
  lemma Survivors(allCycles: seq<Cycle>, removed: seq<Cycle>)
    ensures LongestFirst(Without(SortByLength(allCycles), removed))
    ensures forall c | c in Without(SortByLength(allCycles), removed) :: c in allCycles
  {
    var sorted := SortByLength(allCycles);
    WithoutKeepsOrder(sorted, removed);
    forall c | c in Without(sorted, removed) ensures c in allCycles {
      WithoutMembers(sorted, removed, c);
      assert c in multiset(sorted);
    }
  }

  // ---------------------------------------------------------------------
  // calculate_perimeters
  // ---------------------------------------------------------------------

  /** The side lengths of a cycle, the last joining it back to its start. */
  function Sides(c: seq<Point>, dist: (Point, Point) -> real): (r: seq<real>)
    ensures |r| == |c|
  {
    seq(|c|, k requires 0 <= k < |c| => dist(c[k], c[if k + 1 < |c| then k + 1 else 0]))
  }

  function Sum(s: seq<real>): real
  {
    if s == [] then 0.0 else Sum(s[..|s| - 1]) + s[|s| - 1]
  }

  function Perimeter(c: seq<Point>, dist: (Point, Point) -> real): real
  {
    Sum(Sides(c, dist))
  }

  /** math.prod: 1 for the empty list. */
  function Product(s: seq<real>): real
  {
    if s == [] then 1.0 else s[0] * Product(s[1..])
  }

  /** The inner loop of lines 108-112 for one cycle. */
  method CyclePerimeter(cycle: Cycle, dist: (Point, Point) -> real) returns (perimeter: real)
    ensures perimeter == Perimeter(cycle, dist)
  {
    ghost var sides := Sides(cycle, dist);
    perimeter := 0.0;
    for i := 0 to |cycle|
      invariant perimeter == Sum(sides[..i])
    {
      var point1 := cycle[i];
      var point2 := cycle[(i + 1) % |cycle|];
      WrapAround(i, |cycle|);
      SideAt(cycle, dist, i);
      SumStep(sides, i);
      perimeter := perimeter + dist(point1, point2);
    }
    assert sides[..|cycle|] == sides;
  }

  lemma SumStep(s: seq<real>, i: int)
    requires 0 <= i < |s|
    ensures Sum(s[..i + 1]) == Sum(s[..i]) + s[i]
  {
    assert s[..i + 1][..i] == s[..i];
  }

  /** perimeter_cycles.py, calculate_perimeters, with dist in place of the
      rounded Euclidean distance. */
  method CalculatePerimeters(cycles: seq<Cycle>, dist: (Point, Point) -> real)
    returns (perimeters: seq<real>, productOfPerimeters: real)
    ensures |perimeters| == |cycles|
    ensures forall k | 0 <= k < |cycles| :: perimeters[k] == Perimeter(cycles[k], dist)
    ensures productOfPerimeters == Product(perimeters)
    ensures cycles == [] ==> productOfPerimeters == 1.0
  {
    perimeters := [];
    for k := 0 to |cycles|
      invariant |perimeters| == k
      invariant forall m | 0 <= m < k :: perimeters[m] == Perimeter(cycles[m], dist)
    {
      var perimeter := CyclePerimeter(cycles[k], dist);
      perimeters := perimeters + [perimeter];
    }
    productOfPerimeters := Product(perimeters);
  }

  lemma {:induction false} SumFront(x: real, s: seq<real>)
    ensures Sum([x] + s) == x + Sum(s)
    decreases |s|
  {
    if s != [] {
      var t := s[..|s| - 1];
      assert ([x] + s)[..|s|] == [x] + t;
      SumFront(x, t);
    }
  }

  lemma WrapAround(k: int, n: int)
    requires 0 <= k < n
    ensures (k + 1) % n == if k + 1 < n then k + 1 else 0
  {
  }

  /** The side leaving node k ends at the next node, the last side at the first node. */
  lemma SideAt(c: seq<Point>, dist: (Point, Point) -> real, k: int)
    requires 0 <= k < |c|
    ensures Sides(c, dist)[k] == dist(c[k], c[if k + 1 < |c| then k + 1 else 0])
  {
    WrapAround(k, |c|);
  }

  /** Starting a cycle one node later moves its first side to the end. */
  lemma RotatedSides(c: Cycle, dist: (Point, Point) -> real)
    ensures Sides(c[1..] + [c[0]], dist) == Sides(c, dist)[1..] + [Sides(c, dist)[0]]
  {
    var n := |c|;
    var r := c[1..] + [c[0]];
    var sides := Sides(c, dist);
    forall k | 0 <= k < n
      ensures Sides(r, dist)[k] == (sides[1..] + [sides[0]])[k]
    {
      SideAt(r, dist, k);
      if k < n - 1 {
        SideAt(c, dist, k + 1);
        assert r[k] == c[k + 1];
        assert r[if k + 1 < n then k + 1 else 0] == c[if k + 2 < n then k + 2 else 0];
      } else {
        SideAt(c, dist, 0);
        assert r[k] == c[0];
        assert r[0] == c[if 1 < n then 1 else 0];
      }
    }
  }

  /** The perimeter does not depend on where the cycle is said to start. */
  lemma PerimeterRotation(c: Cycle, dist: (Point, Point) -> real)
    ensures Perimeter(c[1..] + [c[0]], dist) == Perimeter(c, dist)
  {
    var sides := Sides(c, dist);
    RotatedSides(c, dist);
    assert sides == [sides[0]] + sides[1..];
    SumFront(sides[0], sides[1..]);
    assert (sides[1..] + [sides[0]])[..|sides| - 1] == sides[1..];
  }

  /** A sequence read from its end. */
  function Backwards<T>(s: seq<T>): (r: seq<T>)
    ensures |r| == |s|
    ensures forall k | 0 <= k < |s| :: r[k] == s[|s| - 1 - k]
  {
    seq(|s|, k requires 0 <= k < |s| => s[|s| - 1 - k])
  }

  lemma {:induction false} SumBackwards(s: seq<real>)
    ensures Sum(Backwards(s)) == Sum(s)
    decreases |s|
  {
    if s != [] {
      var init := s[..|s| - 1];
      assert Backwards(s) == [s[|s| - 1]] + Backwards(init);
      SumFront(s[|s| - 1], Backwards(init));
      SumBackwards(init);
    }
  }

  /** Side k of the reversed cycle runs from node n-1-k back to the node
      before it, and its last side from the first node to the last. */
  lemma BackwardsSideAt(c: seq<Point>, dist: (Point, Point) -> real, k: int)
    requires 0 <= k < |c|
    ensures Sides(Backwards(c), dist)[k] ==
              if k < |c| - 1 then dist(c[|c| - 1 - k], c[|c| - 2 - k]) else dist(c[0], c[|c| - 1])
  {
    var n := |c|;
    var b := Backwards(c);
    assert b[k] == c[n - 1 - k];
    assert b[if k + 1 < n then k + 1 else 0] == if k < n - 1 then c[n - 2 - k] else c[n - 1];
    SideAt(b, dist, k);
  }

  /** Walking a cycle the other way round with a symmetric distance meets
      the same sides, the last one (back to the start) still last. */
  lemma ReversedSides(c: seq<Point>, dist: (Point, Point) -> real)
    requires |c| > 0
    requires forall a, b :: dist(a, b) == dist(b, a)
    ensures Sides(Backwards(c), dist) ==
              Backwards(Sides(c, dist)[..|c| - 1]) + [Sides(c, dist)[|c| - 1]]
  {
    var n := |c|;
    var sides := Sides(c, dist);
    var t := Backwards(sides[..n - 1]) + [sides[n - 1]];
    forall k | 0 <= k < n ensures Sides(Backwards(c), dist)[k] == t[k] {
      BackwardsSideAt(c, dist, k);
      if k < n - 1 {
        var j := n - 2 - k;
        SideAt(c, dist, j);
        assert sides[j] == dist(c[j], c[j + 1]);
        assert t[k] == sides[j];
        assert dist(c[j + 1], c[j]) == dist(c[j], c[j + 1]);
        assert Sides(Backwards(c), dist)[k] == dist(c[j + 1], c[j]);
      } else {
        SideAt(c, dist, n - 1);
        assert sides[n - 1] == dist(c[n - 1], c[0]);
        assert t[k] == sides[n - 1];
        assert dist(c[0], c[n - 1]) == dist(c[n - 1], c[0]);
        assert Sides(Backwards(c), dist)[k] == dist(c[0], c[n - 1]);
      }
    }
  }

  /** With a symmetric distance, the perimeter does not depend on the
      direction in which a cycle is listed. */
  lemma PerimeterReversal(c: seq<Point>, dist: (Point, Point) -> real)
    requires |c| > 0
    requires forall a, b :: dist(a, b) == dist(b, a)
    ensures Perimeter(Backwards(c), dist) == Perimeter(c, dist)
  {
    var sides := Sides(c, dist);
    var init := sides[..|c| - 1];
    ReversedSides(c, dist);
    assert (Backwards(init) + [sides[|c| - 1]])[..|init|] == Backwards(init);
    SumBackwards(init);
  }

  lemma {:induction false} SumNonNegative(s: seq<real>)
    requires forall k | 0 <= k < |s| :: s[k] >= 0.0
    ensures Sum(s) >= 0.0
  {
    if s != [] {
      SumNonNegative(s[..|s| - 1]);
    }
  }

  /** A distance that is never negative gives perimeters that are not negative. */
  lemma PerimeterNonNegative(c: seq<Point>, dist: (Point, Point) -> real)
    requires forall a, b :: dist(a, b) >= 0.0
    ensures Perimeter(c, dist) >= 0.0
  {
    SumNonNegative(Sides(c, dist));
  }

  lemma {:induction false} ProductRemove(s: seq<real>, i: int)
    requires 0 <= i < |s|
    ensures Product(s) == s[i] * Product(s[..i] + s[i + 1..])
  {
    if i > 0 {
      ProductRemove(s[1..], i - 1);
      assert s[1..][..i - 1] + s[1..][i..] == (s[..i] + s[i + 1..])[1..];
      assert (s[..i] + s[i + 1..])[0] == s[0];
    } else {
      assert s[..i] + s[i + 1..] == s[1..];
    }
  }

  /** Taking a matching item out of two lists with the same items leaves
      two lists with the same items. */
  lemma PermutationRest(s: seq<real>, t: seq<real>, i: int)
    requires multiset(s) == multiset(t) && s != []
    requires 0 <= i < |t| && t[i] == s[0]
    ensures multiset(s[1..]) == multiset(t[..i] + t[i + 1..])
  {
    assert s == [s[0]] + s[1..];
    assert t == t[..i] + [t[i]] + t[i + 1..];
    var x, y := multiset(s[1..]), multiset(t[..i] + t[i + 1..]);
    assert multiset(s) == x + multiset{s[0]};
    assert multiset(t) == y + multiset{s[0]};
    assert x == (x + multiset{s[0]}) - multiset{s[0]};
    assert y == (y + multiset{s[0]}) - multiset{s[0]};
  }

  /** The product does not depend on the order the cycles come in. */
  lemma {:induction false} ProductOfPermutation(s: seq<real>, t: seq<real>)
    requires multiset(s) == multiset(t)
    ensures Product(s) == Product(t)
    decreases |s|
  {
    if s != [] {
      assert s[0] in multiset(t);
      var i :| 0 <= i < |t| && t[i] == s[0];
      var rest := t[..i] + t[i + 1..];
      PermutationRest(s, t, i);
      ProductOfPermutation(s[1..], rest);
      ProductRemove(t, i);
    } else {
      assert |t| == |multiset(t)| == 0;
      assert t == [];
    }
  }
}
