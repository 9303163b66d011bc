/** Removing outliers by their distance from the median, measured in median absolute deviations. */
module Outliers {
  import opened RealFacts

  // ---------- sorting ----------

  predicate AllAtLeast(s: seq<real>, m: real) {
    forall i :: 0 <= i < |s| ==> m <= s[i]
  }

  predicate IsSorted(s: seq<real>) {
    s == [] || (AllAtLeast(s[1..], s[0]) && IsSorted(s[1..]))
  }

  lemma {:induction false} SortedPair(s: seq<real>, i: nat, j: nat)
    requires IsSorted(s) && i <= j < |s|
    ensures s[i] <= s[j]
  {
    if i > 0 {
      SortedPair(s[1..], i - 1, j - 1);
    } else if j > 0 {
      assert s[j] == s[1..][j - 1];
    }
  }

  function Insert(x: real, s: seq<real>): (r: seq<real>)
    ensures |r| == |s| + 1
  {
    if s == [] then [x] else if x <= s[0] then [x] + s else [s[0]] + Insert(x, s[1..])
  }

  /** The members of a list from the smallest to the largest. */
  function Sort(s: seq<real>): (r: seq<real>)
    ensures |r| == |s|
  {
    if s == [] then [] else Insert(s[0], Sort(s[1..]))
  }

  lemma {:induction false} InsertKeepsMembers(x: real, s: seq<real>)
    ensures multiset(Insert(x, s)) == multiset(s) + multiset{x}
  {
    if s != [] && x > s[0] {
      InsertKeepsMembers(x, s[1..]);
      assert s == [s[0]] + s[1..];
    }
  }

  lemma {:induction false} InsertAtLeast(x: real, s: seq<real>, m: real)
    requires AllAtLeast(s, m) && m <= x
    ensures AllAtLeast(Insert(x, s), m)
  {
    if s != [] && x > s[0] {
      InsertAtLeast(x, s[1..], m);
    }
  }

  lemma {:induction false} InsertSorts(x: real, s: seq<real>)
    requires IsSorted(s)
    ensures IsSorted(Insert(x, s))
  {
    var r := Insert(x, s);
    if s != [] && x > s[0] {
      InsertSorts(x, s[1..]);
      InsertAtLeast(x, s[1..], s[0]);
      assert r[1..] == Insert(x, s[1..]);
    } else {
      assert r[1..] == s;
    }
  }

  lemma {:induction false} SortSorts(s: seq<real>)
    ensures IsSorted(Sort(s)) && multiset(Sort(s)) == multiset(s)
  {
    hide Insert;
    if s != [] {
      SortSorts(s[1..]);
      InsertSorts(s[0], Sort(s[1..]));
      InsertKeepsMembers(s[0], Sort(s[1..]));
      assert s == [s[0]] + s[1..];
    }
  }

  lemma {:induction false} SortOfSorted(s: seq<real>)
    requires IsSorted(s)
    ensures Sort(s) == s
  {
    if s != [] {
      SortOfSorted(s[1..]);
      assert s == [s[0]] + s[1..];
    }
  }

  function Middle(s: seq<real>): real
    requires s != []
  {
    var n := |s|;
    if n % 2 == 0 then (s[n / 2 - 1] + s[n / 2]) / 2.0 else s[n / 2]
  }

  function Median(data: seq<real>): real {
    if data == [] then 0.0 else Middle(Sort(data))
  }

  // ---------- the filter ----------

  function Deviations(data: seq<real>, center: real): (d: seq<real>)
    ensures |d| == |data| && forall i :: 0 <= i < |d| ==> d[i] == Abs(data[i] - center)
  {
    if data == [] then [] else [Abs(data[0] - center)] + Deviations(data[1..], center)
  }

  predicate Keeps(x: real, center: real, mad: real, threshold: real)
    requires mad != 0.0
  {
    0.6745 * Abs(x - center) / mad <= threshold
  }

  function Kept(data: seq<real>, center: real, mad: real, threshold: real): seq<real>
    requires mad != 0.0
  {
    if data == [] then []
    else
      var rest := Kept(data[1..], center, mad, threshold);
      if Keeps(data[0], center, mad, threshold) then [data[0]] + rest else rest
  }

  function RemoveOutliers(data: seq<real>, threshold: real): seq<real> {
    if |data| < 3 then data
    else
      var center := Median(data);
      var mad := Median(Deviations(data, center));
      if mad == 0.0 then data else Kept(data, center, mad, threshold)
  }

  // ---------- the result is a part of the data, in order ----------

  /** `positions` picks the members of `r` out of `data` from left to right. */
  predicate PicksInOrder(positions: seq<nat>, r: seq<real>, data: seq<real>) {
    && |positions| == |r|
    && (forall i :: 0 <= i < |r| ==> positions[i] < |data| && data[positions[i]] == r[i])
    && (forall i, j :: 0 <= i < j < |r| ==> positions[i] < positions[j])
  }

  lemma {:induction false} KeptInOrder(data: seq<real>, center: real, mad: real, threshold: real)
    returns (positions: seq<nat>)
    requires mad != 0.0
    ensures PicksInOrder(positions, Kept(data, center, mad, threshold), data)
    ensures forall k: nat :: k < |data| ==> (k in positions <==> Keeps(data[k], center, mad, threshold))
  {
    hide Keeps, PicksInOrder;
    if data == [] {
      NothingPicked();
      positions := [];
    } else {
      var rest := KeptInOrder(data[1..], center, mad, threshold);
      var later := seq(|rest|, i requires 0 <= i < |rest| => rest[i] + 1);
      var r := Kept(data[1..], center, mad, threshold);
      Shifted(rest, later, r, data);
      forall k: nat | 0 < k < |data| ensures k in later <==> Keeps(data[k], center, mad, threshold) {
        assert data[k] == data[1..][k - 1];
        ShiftedMember(rest, later, k);
      }
      assert 0 !in later;
      if Keeps(data[0], center, mad, threshold) {
        positions := [0] + later;
        PickFirst(later, r, data);
      } else {
        positions := later;
      }
    }
  }

  lemma NothingPicked()
    ensures PicksInOrder([], [], [])
  {
  }

  lemma Shifted(rest: seq<nat>, later: seq<nat>, r: seq<real>, data: seq<real>)
    requires data != [] && PicksInOrder(rest, r, data[1..])
    requires |later| == |rest| && forall i :: 0 <= i < |rest| ==> later[i] == rest[i] + 1
    ensures PicksInOrder(later, r, data)
  {
  }

  lemma PickFirst(later: seq<nat>, r: seq<real>, data: seq<real>)
    requires data != [] && PicksInOrder(later, r, data) && 0 !in later
    ensures PicksInOrder([0] + later, [data[0]] + r, data)
  {
  }

  lemma ShiftedMember(rest: seq<nat>, later: seq<nat>, k: nat)
    requires |later| == |rest| && k > 0 && forall i :: 0 <= i < |rest| ==> later[i] == rest[i] + 1
    ensures k in later <==> k - 1 in rest
  {
    if k - 1 in rest {
      var i :| 0 <= i < |rest| && rest[i] == k - 1;
      assert later[i] == k;
    }
  }

  /** Nothing is reordered or made up, and a point goes exactly when its modified z-score is too large. */
  lemma RemovalInOrder(data: seq<real>, threshold: real) returns (positions: seq<nat>)
    ensures PicksInOrder(positions, RemoveOutliers(data, threshold), data)
    ensures var (center, mad) := (Median(data), Median(Deviations(data, Median(data))));
      forall k: nat :: k < |data| ==>
        (k in positions <==> |data| < 3 || mad == 0.0 || Keeps(data[k], center, mad, threshold))
  {
    hide Keeps, Median, Deviations;
    var center := Median(data);
    var mad := Median(Deviations(data, center));
    if |data| < 3 || mad == 0.0 {
      positions := seq(|data|, i requires 0 <= i < |data| => i);
      forall k: nat | k < |data| ensures k in positions {
        assert positions[k] == k;
      }
    } else {
      positions := KeptInOrder(data, center, mad, threshold);
    }
  }

  // ---------- at least half of the data stays ----------

  function CountAtMost(s: seq<real>, m: real): nat {
    if s == [] then 0 else (if s[0] <= m then 1 else 0) + CountAtMost(s[1..], m)
  }

  lemma {:induction false} CountAfterInsert(x: real, s: seq<real>, m: real)
    ensures CountAtMost(Insert(x, s), m) == CountAtMost(s, m) + (if x <= m then 1 else 0)
  {
    if s != [] {
      if x <= s[0] {
        assert ([x] + s)[1..] == s;
      } else {
        CountAfterInsert(x, s[1..], m);
        assert Insert(x, s)[1..] == Insert(x, s[1..]);
      }
    }
  }

  lemma {:induction false} CountAfterSort(s: seq<real>, m: real)
    ensures CountAtMost(Sort(s), m) == CountAtMost(s, m)
  {
    if s != [] {
      CountAfterSort(s[1..], m);
      CountAfterInsert(s[0], Sort(s[1..]), m);
    }
  }

  lemma {:induction false} CountOfPrefix(s: seq<real>, k: nat, m: real)
    requires k <= |s| && forall i :: 0 <= i < k ==> s[i] <= m
    ensures CountAtMost(s, m) >= k
  {
    if k > 0 {
      CountOfPrefix(s[1..], k - 1, m);
    }
  }

  lemma LowerHalf(s: seq<real>, i: nat)
    requires IsSorted(s) && i < (|s| + 1) / 2
    ensures s[i] <= Middle(s)
  {
    hide IsSorted;
    var n := |s|;
    SortedPair(s, i, n / 2);
    if n % 2 == 0 {
      SortedPair(s, i, n / 2 - 1);
    }
  }

  /** At least half of a list, rounded up, is at most its median. */
  lemma HalfAtMostMedian(s: seq<real>)
    ensures CountAtMost(s, Median(s)) >= (|s| + 1) / 2
  {
    hide Sort, IsSorted, CountAtMost, Middle;
    if s != [] {
      var t, m := Sort(s), Median(s);
      SortSorts(s);
      forall i | 0 <= i < (|s| + 1) / 2 ensures t[i] <= m {
        LowerHalf(t, i);
      }
      CountOfPrefix(t, (|s| + 1) / 2, m);
      CountAfterSort(s, m);
    }
  }

  lemma ScoreOfCommonPoint(d: real, mad: real, threshold: real)
    requires 0.0 <= d <= mad && mad > 0.0 && threshold >= 0.6745
    ensures 0.6745 * d / mad <= threshold
  {
    var z := 0.6745 * d / mad;
    assert z * mad == 0.6745 * d;
    assert z > 0.6745 ==> (z - 0.6745) * mad > 0.0;
  }

  lemma {:induction false} KeptIsLarge(data: seq<real>, center: real, mad: real, threshold: real)
    requires mad > 0.0 && threshold >= 0.6745
    ensures |Kept(data, center, mad, threshold)| >= CountAtMost(Deviations(data, center), mad)
  {
    if data != [] {
      KeptIsLarge(data[1..], center, mad, threshold);
      assert Deviations(data, center)[1..] == Deviations(data[1..], center);
      if Abs(data[0] - center) <= mad {
        ScoreOfCommonPoint(Abs(data[0] - center), mad, threshold);
      }
    }
  }

  lemma MedianNonNegative(s: seq<real>)
    requires forall i :: 0 <= i < |s| ==> s[i] >= 0.0
    ensures Median(s) >= 0.0
  {
    hide Sort;
    if s != [] {
      SortSorts(s);
      var t := Sort(s);
      forall i | 0 <= i < |t| ensures t[i] >= 0.0 {
        assert t[i] in multiset(s);
      }
    }
  }

  lemma HalfIsKept(data: seq<real>, threshold: real)
    requires threshold >= 0.6745
    ensures |RemoveOutliers(data, threshold)| >= (|data| + 1) / 2
  {
    hide Kept;
    var center := Median(data);
    var d := Deviations(data, center);
    MedianNonNegative(d);
    if Median(d) != 0.0 {
      KeptIsLarge(data, center, Median(d), threshold);
      HalfAtMostMedian(d);
    }
  }

  lemma MedianOfThree(x: real, y: real, z: real)
    requires x <= y <= z
    ensures Median([y, x, z]) == y && Median([x, y, z]) == y
  {
    assert [x, z][1..] == [z] && [z][1..] == [] && [x, y, z][1..] == [y, z] && [y, z][1..] == [z];
    SortOfSorted([x, z]);
    SortOfSorted([x, y, z]);
    assert Insert(y, [z]) == [y, z];
    assert [y, x, z][1..] == [x, z];
    assert Sort([y, x, z]) == Insert(y, [x, z]);
  }

  /** With any smaller threshold three points suffice to lose more than half. */
  lemma SmallThresholdLosesHalf(threshold: real)
    requires threshold < 0.6745
    ensures |RemoveOutliers([2.0, 0.0, 4.0], threshold)| < 2
  {
    hide Median, Deviations, Kept;
    var data := [2.0, 0.0, 4.0];
    MedianOfThree(0.0, 2.0, 4.0);
    assert Deviations(data, 2.0) == [0.0, 2.0, 2.0];
    MedianOfThree(0.0, 2.0, 2.0);
    KeptOfThree(threshold);
  }

  lemma KeptOfThree(threshold: real)
    requires threshold < 0.6745
    ensures |Kept([2.0, 0.0, 4.0], 2.0, 2.0, threshold)| < 2
  {
    var data := [2.0, 0.0, 4.0];
    assert data[1..] == [0.0, 4.0] && [0.0, 4.0][1..] == [4.0] && [4.0][1..] == [];
    assert !Keeps(0.0, 2.0, 2.0, threshold) && !Keeps(4.0, 2.0, 2.0, threshold);
    assert Kept([4.0], 2.0, 2.0, threshold) == [];
    assert Kept([0.0, 4.0], 2.0, 2.0, threshold) == [];
  }

  /** Half of the data is kept, whatever the data, exactly for thresholds of at least 0.6745. */
  lemma HalfIsKeptExactly(threshold: real)
    ensures (forall data: seq<real> :: |RemoveOutliers(data, threshold)| >= (|data| + 1) / 2)
       <==> threshold >= 0.6745
  {
    if threshold >= 0.6745 {
      forall data: seq<real> ensures |RemoveOutliers(data, threshold)| >= (|data| + 1) / 2 {
        HalfIsKept(data, threshold);
      }
    } else {
      SmallThresholdLosesHalf(threshold);
      var data := [2.0, 0.0, 4.0];
      assert |RemoveOutliers(data, threshold)| < (|data| + 1) / 2;
    }
  }

  // ---------- changing unit and origin ----------

  function Line(a: real, b: real, x: real): real {
    a * x + b
  }

  function Affine(a: real, b: real, s: seq<real>): (r: seq<real>)
    ensures |r| == |s| && forall i :: 0 <= i < |s| ==> r[i] == Line(a, b, s[i])
  {
    if s == [] then [] else [Line(a, b, s[0])] + Affine(a, b, s[1..])
  }

  function Reverse(s: seq<real>): (r: seq<real>)
    ensures |r| == |s| && forall i :: 0 <= i < |s| ==> r[i] == s[|s| - 1 - i]
  {
    if s == [] then [] else Reverse(s[1..]) + [s[0]]
  }

  lemma LineOrder(a: real, b: real, x: real, y: real)
    ensures a > 0.0 ==> (x <= y <==> Line(a, b, x) <= Line(a, b, y))
    ensures a < 0.0 ==> (x <= y <==> Line(a, b, y) <= Line(a, b, x))
  {
    assert Line(a, b, y) - Line(a, b, x) == a * (y - x);
    ProductSign(a, y - x);
  }

  lemma ProductSign(a: real, d: real)
    ensures a > 0.0 ==> (d >= 0.0 <==> a * d >= 0.0)
    ensures a < 0.0 ==> (d >= 0.0 <==> a * d <= 0.0)
  {
  }

  lemma {:induction false} InsertRising(a: real, b: real, x: real, s: seq<real>)
    requires a > 0.0
    ensures Insert(Line(a, b, x), Affine(a, b, s)) == Affine(a, b, Insert(x, s))
  {
    hide Line;
    if s != [] {
      LineOrder(a, b, x, s[0]);
      assert Affine(a, b, s)[1..] == Affine(a, b, s[1..]);
      if x > s[0] {
        InsertRising(a, b, x, s[1..]);
      }
    }
  }

  lemma {:induction false} SortRising(a: real, b: real, s: seq<real>)
    requires a > 0.0
    ensures Sort(Affine(a, b, s)) == Affine(a, b, Sort(s))
  {
    hide Line;
    if s != [] {
      assert Affine(a, b, s)[1..] == Affine(a, b, s[1..]);
      SortRising(a, b, s[1..]);
      InsertRising(a, b, s[0], Sort(s[1..]));
    }
  }

  /** A value that nothing exceeds is inserted last. */
  lemma {:induction false} InsertLast(y: real, s: seq<real>)
    requires IsSorted(s) && forall i :: 0 <= i < |s| ==> s[i] <= y
    ensures Insert(y, s) == s + [y]
  {
    if s != [] {
      if y <= s[0] {
        forall i | 0 <= i < |s| ensures s[i] == y {
          SortedPair(s, 0, i);
        }
        assert [y] + s == s + [y];
      } else {
        InsertLast(y, s[1..]);
      }
    }
  }

  lemma {:induction false} InsertBeforeLast(y: real, s: seq<real>, z: real)
    requires y <= z
    ensures Insert(y, s + [z]) == Insert(y, s) + [z]
  {
    if s != [] {
      assert (s + [z])[1..] == s[1..] + [z];
      if y > s[0] {
        InsertBeforeLast(y, s[1..], z);
      } else {
        assert [y] + (s + [z]) == ([y] + s) + [z];
      }
    }
  }

  lemma SortedTail(s: seq<real>)
    requires IsSorted(s) && s != []
    ensures IsSorted(s[1..])
  {
  }

  /** The smallest value has the largest image, which goes last. */
  lemma InsertLargestImage(a: real, b: real, x: real, s: seq<real>)
    requires a < 0.0 && IsSorted(s) && s != [] && x <= s[0]
    ensures Insert(Line(a, b, x), Reverse(Affine(a, b, s))) == Reverse(Affine(a, b, s)) + [Line(a, b, x)]
  {
    hide Line, IsSorted, Insert;
    FallingSorted(a, b, s);
    forall i | 0 <= i < |s| ensures Reverse(Affine(a, b, s))[i] <= Line(a, b, x) {
      SortedPair(s, 0, |s| - 1 - i);
      LineOrder(a, b, x, s[|s| - 1 - i]);
    }
    InsertLast(Line(a, b, x), Reverse(Affine(a, b, s)));
  }

  lemma {:induction false} InsertFalling(a: real, b: real, x: real, s: seq<real>)
    requires a < 0.0 && IsSorted(s)
    ensures Insert(Line(a, b, x), Reverse(Affine(a, b, s))) == Reverse(Affine(a, b, Insert(x, s)))
  {
    hide Line, IsSorted;
    if s != [] {
      SortedTail(s);
      var y, z := Line(a, b, x), Line(a, b, s[0]);
      LineOrder(a, b, s[0], x);
      assert Affine(a, b, s)[1..] == Affine(a, b, s[1..]);
      if x <= s[0] {
        InsertLargestImage(a, b, x, s);
        assert Affine(a, b, [x] + s)[1..] == Affine(a, b, s);
      } else {
        InsertFalling(a, b, x, s[1..]);
        InsertBeforeLast(y, Reverse(Affine(a, b, s[1..])), z);
        assert Affine(a, b, Insert(x, s))[1..] == Affine(a, b, Insert(x, s[1..]));
      }
    }
  }

  lemma {:induction false} SortedSnoc(s: seq<real>, z: real)
    requires IsSorted(s) && forall i :: 0 <= i < |s| ==> s[i] <= z
    ensures IsSorted(s + [z])
  {
    if s != [] {
      SortedSnoc(s[1..], z);
      assert (s + [z])[1..] == s[1..] + [z];
    }
  }

  lemma {:induction false} FallingSorted(a: real, b: real, s: seq<real>)
    requires a < 0.0 && IsSorted(s)
    ensures IsSorted(Reverse(Affine(a, b, s)))
  {
    hide Line;
    if s != [] {
      FallingSorted(a, b, s[1..]);
      var r := Reverse(Affine(a, b, s[1..]));
      assert Affine(a, b, s)[1..] == Affine(a, b, s[1..]);
      forall i | 0 <= i < |r| ensures r[i] <= Line(a, b, s[0]) {
        SortedPair(s, 0, |s| - 1 - i);
        LineOrder(a, b, s[0], s[|s| - 1 - i]);
      }
      SortedSnoc(r, Line(a, b, s[0]));
    }
  }

  lemma {:induction false} SortFalling(a: real, b: real, s: seq<real>)
    requires a < 0.0
    ensures Sort(Affine(a, b, s)) == Reverse(Affine(a, b, Sort(s)))
  {
    hide Line;
    if s != [] {
      assert Affine(a, b, s)[1..] == Affine(a, b, s[1..]);
      SortFalling(a, b, s[1..]);
      SortSorts(s[1..]);
      InsertFalling(a, b, s[0], Sort(s[1..]));
    }
  }

  lemma MiddleOfReverse(s: seq<real>)
    requires s != []
    ensures Middle(Reverse(s)) == Middle(s)
  {
    var n := |s|;
    assert n % 2 == 0 ==> n - 1 - n / 2 == n / 2 - 1;
    assert n % 2 == 1 ==> n - 1 - n / 2 == n / 2;
  }

  lemma MiddleOfAffine(a: real, b: real, s: seq<real>)
    requires s != []
    ensures Middle(Affine(a, b, s)) == Line(a, b, Middle(s))
  {
    var n := |s|;
    if n % 2 == 0 {
      LineOfMean(a, b, s[n / 2 - 1], s[n / 2]);
    }
  }

  lemma LineOfMean(a: real, b: real, x: real, y: real)
    ensures (Line(a, b, x) + Line(a, b, y)) / 2.0 == Line(a, b, (x + y) / 2.0)
  {
    var m := (x + y) / 2.0;
    assert a * (x + y) == 2.0 * (a * m);
  }

  lemma MedianOfAffine(a: real, b: real, s: seq<real>)
    requires a != 0.0 && s != []
    ensures Median(Affine(a, b, s)) == Line(a, b, Median(s))
  {
    hide Line, Sort, Middle;
    if a > 0.0 {
      SortRising(a, b, s);
    } else {
      SortFalling(a, b, s);
      MiddleOfReverse(Affine(a, b, Sort(s)));
    }
    MiddleOfAffine(a, b, Sort(s));
  }

  lemma DeviationOfLine(a: real, b: real, x: real, m: real)
    ensures Abs(Line(a, b, x) - Line(a, b, m)) == Line(Abs(a), 0.0, Abs(x - m))
  {
    assert Line(a, b, x) - Line(a, b, m) == a * (x - m);
    AbsOfProduct(a, x - m);
  }

  lemma AbsOfProduct(a: real, d: real)
    ensures Abs(a * d) == Abs(a) * Abs(d)
  {
    ProductSign(a, d);
    assert (-a) * d == -(a * d) && a * (-d) == -(a * d) && (-a) * (-d) == a * d;
  }

  lemma {:induction false} DeviationsOfAffine(a: real, b: real, s: seq<real>, m: real)
    ensures Deviations(Affine(a, b, s), Line(a, b, m)) == Affine(Abs(a), 0.0, Deviations(s, m))
  {
    hide Line;
    if s != [] {
      DeviationOfLine(a, b, s[0], m);
      DeviationsOfAffine(a, b, s[1..], m);
      assert Affine(a, b, s)[1..] == Affine(a, b, s[1..]);
      assert Deviations(s, m)[1..] == Deviations(s[1..], m);
    }
  }

  lemma SameScore(c: real, d: real, mad: real)
    requires c > 0.0 && mad != 0.0
    ensures c * mad != 0.0 && 0.6745 * (c * d) / (c * mad) == 0.6745 * d / mad
  {
    var z := 0.6745 * d / mad;
    assert z * mad == 0.6745 * d;
    assert z * (c * mad) == c * (z * mad);
    assert c * (0.6745 * d) == 0.6745 * (c * d);
    NonZeroProduct(c, mad);
    QuotientIs(0.6745 * (c * d), c * mad, z);
  }

  lemma NonZeroProduct(x: real, y: real)
    requires x != 0.0 && y != 0.0
    ensures x * y != 0.0
  {
  }

  lemma SameChoice(a: real, b: real, x: real, m: real, mad: real, threshold: real)
    requires a != 0.0 && mad != 0.0
    ensures Line(Abs(a), 0.0, mad) != 0.0
    ensures Keeps(Line(a, b, x), Line(a, b, m), Line(Abs(a), 0.0, mad), threshold) <==> Keeps(x, m, mad, threshold)
  {
    DeviationOfLine(a, b, x, m);
    SameScore(Abs(a), Abs(x - m), mad);
  }

  lemma {:induction false} KeptOfAffine(a: real, b: real, s: seq<real>, m: real, mad: real, threshold: real)
    requires a != 0.0 && mad != 0.0 && Line(Abs(a), 0.0, mad) != 0.0
    ensures Kept(Affine(a, b, s), Line(a, b, m), Line(Abs(a), 0.0, mad), threshold)
         == Affine(a, b, Kept(s, m, mad, threshold))
  {
    hide Line, Keeps;
    if s != [] {
      SameChoice(a, b, s[0], m, mad, threshold);
      KeptOfAffine(a, b, s[1..], m, mad, threshold);
      assert Affine(a, b, s)[1..] == Affine(a, b, s[1..]);
      var rest := Kept(s[1..], m, mad, threshold);
      assert ([s[0]] + rest)[1..] == rest;
    }
  }

  /**
   * Which points are outliers does not depend on the unit or the origin of the measurements, nor on
   * their direction: removal commutes with every map `x -> a * x + b` where `a` is not zero.
   */
  lemma RemovalIgnoresUnits(a: real, b: real, data: seq<real>, threshold: real)
    requires a != 0.0
    ensures RemoveOutliers(Affine(a, b, data), threshold) == Affine(a, b, RemoveOutliers(data, threshold))
  {
    hide Line, Median, Deviations, Kept;
    if |data| >= 3 {
      var m := Median(data);
      var d := Deviations(data, m);
      var mad := Median(d);
      MedianOfAffine(a, b, data);
      DeviationsOfAffine(a, b, data, m);
      SameLength(data, m);
      MedianOfAffine(Abs(a), 0.0, d);
      if mad == 0.0 {
        LineAtZero(Abs(a));
      } else {
        SameChoice(a, b, 0.0, m, mad, threshold);
        KeptOfAffine(a, b, data, m, mad, threshold);
      }
    }
  }

  lemma SameLength(data: seq<real>, m: real)
    ensures |Deviations(data, m)| == |data|
  {
  }

  lemma LineAtZero(a: real)
    ensures Line(a, 0.0, 0.0) == 0.0
  {
  }

  // ---------- which points stay, with the score written out ----------

  predicate Ascending(s: seq<real>) {
    forall i, j :: 0 <= i <= j < |s| ==> s[i] <= s[j]
  }

  /** `m` is the mean of the two middle members, which are one and the same in a list of odd length. */
  ghost predicate IsMiddle(m: real, data: seq<real>) {
    exists s :: IsMiddleOf(m, s) && multiset(s) == multiset(data)
  }

  predicate IsMiddleOf(m: real, s: seq<real>) {
    s != [] && Ascending(s) && m + m == s[(|s| - 1) / 2] + s[|s| / 2]
  }

  lemma {:induction false} AscendingIsSorted(s: seq<real>)
    ensures Ascending(s) <==> IsSorted(s)
  {
    if s != [] {
      AscendingIsSorted(s[1..]);
      if Ascending(s) {
        forall i, j | 0 <= i <= j < |s| - 1 ensures s[1..][i] <= s[1..][j] {
          assert s[i + 1] <= s[j + 1];
        }
      } else if IsSorted(s) {
        forall i, j | 0 <= i <= j < |s| ensures s[i] <= s[j] {
          SortedPair(s, i, j);
        }
      }
    }
  }

  lemma FirstIsLeast(s: seq<real>, x: real)
    requires IsSorted(s) && x in multiset(s)
    ensures s != [] && s[0] <= x
  {
    var i :| 0 <= i < |s| && s[i] == x;
    SortedPair(s, 0, i);
  }

  lemma MembersOfTail(s: seq<real>)
    requires s != []
    ensures s[0] in multiset(s) && multiset(s[1..]) == multiset(s) - multiset{s[0]}
  {
    assert s == [s[0]] + s[1..];
  }

  lemma SameFirst(s: seq<real>, t: seq<real>)
    requires IsSorted(s) && IsSorted(t) && s != [] && multiset(s) == multiset(t)
    ensures t != [] && s[0] == t[0] && multiset(s[1..]) == multiset(t[1..])
  {
    hide IsSorted;
    MembersOfTail(s);
    FirstIsLeast(t, s[0]);
    MembersOfTail(t);
    FirstIsLeast(s, t[0]);
  }

  lemma {:induction false} SortedUnique(s: seq<real>, t: seq<real>)
    requires IsSorted(s) && IsSorted(t) && multiset(s) == multiset(t)
    ensures s == t
  {
    hide IsSorted;
    if s == [] {
      assert |multiset(t)| == 0;
    } else {
      SameFirst(s, t);
      SortedTail(s);
      SortedTail(t);
      SortedUnique(s[1..], t[1..]);
      assert s == [s[0]] + s[1..] && t == [t[0]] + t[1..];
    }
  }

  lemma MedianExactly(m: real, data: seq<real>)
    requires data != []
    ensures IsMiddle(m, data) <==> m == Median(data)
  {
    hide Sort, IsSorted, Ascending;
    var sorted := Sort(data);
    SortSorts(data);
    AscendingIsSorted(sorted);
    if IsMiddle(m, data) {
      var s :| IsMiddleOf(m, s) && multiset(s) == multiset(data);
      AscendingIsSorted(s);
      SortedUnique(s, sorted);
    } else {
      assert m == Median(data) ==> IsMiddleOf(m, sorted);
    }
  }

  lemma ScoreExactly(x: real, center: real, mad: real, threshold: real)
    requires mad > 0.0
    ensures Keeps(x, center, mad, threshold) <==> 0.6745 * Abs(x - center) <= threshold * mad
  {
    var z := 0.6745 * Abs(x - center) / mad;
    assert z * mad == 0.6745 * Abs(x - center);
    ProductOrder(z, threshold, mad);
  }

  /** With `center` in the middle of the data and `mad` in the middle of the distances from it, exactly the points stay
      whose distance is at most `threshold * mad / 0.6745`, in their order; all stay if `mad` is zero. */
  lemma RemovalExactly(data: seq<real>, threshold: real, center: real, apart: seq<real>, mad: real)
    returns (positions: seq<nat>)
    requires |data| >= 3 && IsMiddle(center, data)
    requires |apart| == |data| && forall i :: 0 <= i < |data| ==> apart[i] == Abs(data[i] - center)
    requires IsMiddle(mad, apart)
    ensures mad >= 0.0 && PicksInOrder(positions, RemoveOutliers(data, threshold), data)
    ensures forall k: nat :: k < |data| ==>
      (k in positions <==> mad == 0.0 || 0.6745 * Abs(data[k] - center) <= threshold * mad)
  {
    hide Keeps, Median, IsMiddle, PicksInOrder, RemoveOutliers;
    MedianExactly(center, data);
    assert apart == Deviations(data, center);
    MedianExactly(mad, apart);
    MedianNonNegative(apart);
    positions := RemovalInOrder(data, threshold);
    if mad > 0.0 {
      forall k: nat | k < |data|
        ensures k in positions <==> 0.6745 * Abs(data[k] - center) <= threshold * mad
      {
        ScoreExactly(data[k], center, mad, threshold);
      }
    }
  }
}
