/** The load comparison: the pairwise test of the health check, its integer form, the linear check that
    all pairs reduce to, and the min/max formula of the load alert.
    Loads are whole numbers of bytes. The floating-point test of the original is exact for loads below 2^52, and the
    alert formula, which multiplies a load by 100, for loads below 2^46. */
module Load {

  /** The default threshold: 1 GiB. */
  const DEFAULT_THRESHOLD := 1073741824

  function Min(a: int, b: int): int { if a < b then a else b }
  function Max(a: int, b: int): int { if a < b then b else a }
  function Abs(x: real): real { if x < 0.0 then -x else x }

  /** The test of a pair of loads. The quotient of two zero loads is not a number, so the comparison is false. */
  predicate IsLoadOverThreshold(a: nat, b: nat, threshold: int) {
    && Min(a, b) as real > threshold as real
    && Max(a, b) != 0
    && Abs((a - b) as real / Max(a, b) as real) > 0.2
  }

  lemma QuotientAbove(x: real, y: real, c: real)
    requires y > 0.0
    ensures x / y > c <==> x > c * y
  {
    var q := x / y;
    assert q * y == x;
    assert q > c ==> (q - c) * y > 0.0;
    assert q <= c ==> (c - q) * y >= 0.0;
  }

  lemma QuotientBelow(x: real, y: real, c: real)
    requires y > 0.0
    ensures x / y < c <==> x < c * y
  {
    var q := x / y;
    assert q * y == x;
    assert q < c ==> (c - q) * y > 0.0;
    assert q >= c ==> (q - c) * y >= 0.0;
  }

  /** Both loads are above the threshold and they differ by more than a fifth of the larger one. */
  predicate TooFarApart(a: nat, b: nat, threshold: int) {
    Min(a, b) > threshold && 5 * (Max(a, b) - Min(a, b)) > Max(a, b)
  }

  /** One of the loads is larger than the other by more than a fifth of itself. */
  predicate AFifthApart(a: int, b: int) {
    5 * (a - b) > a || 5 * (b - a) > b
  }

  lemma NegatedQuotient(x: real, y: real)
    requires x >= 0.0 && y > 0.0
    ensures x / y >= 0.0 && (-x) / y == -(x / y)
  {
    var q := x / y;
    assert q * y == x;
    assert q < 0.0 ==> q * y < 0.0;
    assert (-q) * y == -x;
  }

  /** The test of the original says just that, in whichever order it is given the loads. */
  lemma IntegerTest(a: nat, b: nat, threshold: int)
    ensures IsLoadOverThreshold(a, b, threshold) <==> TooFarApart(a, b, threshold)
    ensures IsLoadOverThreshold(a, b, threshold) <==>
            a > threshold && b > threshold && AFifthApart(a, b)
    ensures IsLoadOverThreshold(a, b, threshold) <==> IsLoadOverThreshold(b, a, threshold)
  {
    var m, d := Max(a, b), Max(a, b) - Min(a, b);
    if m != 0 {
      NegatedQuotient(d as real, m as real);
      assert a - b == d || a - b == -d;
      QuotientAbove(d as real, m as real, 0.2);
    }
  }

  // ----- All pairs against one comparison

  /** Some two loads of the list are over the threshold. */
  ghost predicate SomePairOver(loads: seq<nat>, threshold: int) {
    exists i, j :: 0 <= i < j < |loads| && IsLoadOverThreshold(loads[i], loads[j], threshold)
  }

  function Above(loads: seq<nat>, threshold: int): seq<nat> {
    if loads == [] then []
    else (if loads[0] > threshold then [loads[0]] else []) + Above(loads[1..], threshold)
  }

  function Largest(loads: seq<nat>): (m: nat)
    requires loads != []
    ensures m in loads && forall i :: 0 <= i < |loads| ==> loads[i] <= m
  {
    if |loads| == 1 then loads[0] else Max(loads[0], Largest(loads[1..]))
  }

  function Smallest(loads: seq<nat>): (m: nat)
    requires loads != []
    ensures m in loads && forall i :: 0 <= i < |loads| ==> m <= loads[i]
  {
    if |loads| == 1 then loads[0] else Min(loads[0], Smallest(loads[1..]))
  }

  /** One comparison of the extremes of the loads above the threshold. */
  predicate ExtremesApart(loads: seq<nat>, threshold: int) {
    var high := Above(loads, threshold);
    high != [] && 5 * (Largest(high) - Smallest(high)) > Largest(high)
  }

  lemma {:induction false} AboveMembers(loads: seq<nat>, threshold: int)
    ensures forall x :: x in Above(loads, threshold) <==> x in loads && x > threshold
  {
    if loads == [] {
    } else {
      AboveMembers(loads[1..], threshold);
      forall x ensures x in Above(loads, threshold) <==> x in loads && x > threshold {
        assert x in loads <==> x == loads[0] || x in loads[1..];
      }
    }
  }

  /** The quadratic scan and the linear check give the same answer. */
  lemma PairScanIsLinear(loads: seq<nat>, threshold: int)
    ensures SomePairOver(loads, threshold) <==> ExtremesApart(loads, threshold)
  {
    var high := Above(loads, threshold);
    AboveMembers(loads, threshold);
    if i, j :| 0 <= i < j < |loads| && IsLoadOverThreshold(loads[i], loads[j], threshold) {
      IntegerTest(loads[i], loads[j], threshold);
      assert loads[i] in high && loads[j] in high;
    }
    if ExtremesApart(loads, threshold) {
      var i :| 0 <= i < |loads| && loads[i] == Largest(high);
      var j :| 0 <= j < |loads| && loads[j] == Smallest(high);
      IntegerTest(loads[i], loads[j], threshold);
      assert if i < j then IsLoadOverThreshold(loads[i], loads[j], threshold)
             else IsLoadOverThreshold(loads[j], loads[i], threshold);
    }
  }

  // ----- The load alert

  /** The alert on the smallest and largest load of the cluster. */
  predicate AlertFires(loads: seq<nat>) {
    loads != [] && Largest(loads) > DEFAULT_THRESHOLD &&
    100.0 - Smallest(loads) as real * 100.0 / Largest(loads) as real > 20.0
  }

  lemma PercentDifference(lo: nat, hi: nat)
    requires hi > 0
    ensures 100.0 - lo as real * 100.0 / hi as real > 20.0 <==> 5 * (hi - lo) > hi
  {
    QuotientBelow(lo as real * 100.0, hi as real, 80.0);
  }

  /** The alert fires when the largest load is above one gibibyte and more than a fifth of it above the smallest. */
  lemma AlertInteger(loads: seq<nat>)
    ensures AlertFires(loads) <==>
            loads != [] && Largest(loads) > 1073741824 && 5 * (Largest(loads) - Smallest(loads)) > Largest(loads)
  {
    if loads != [] && Largest(loads) > DEFAULT_THRESHOLD {
      PercentDifference(Smallest(loads), Largest(loads));
    }
  }

  /** At the default threshold the health check looks at loads above one gibibyte, too. */
  lemma UnequalAtDefault(loads: seq<nat>)
    ensures SomePairOver(loads, DEFAULT_THRESHOLD) <==>
            exists i, j :: 0 <= i < j < |loads| && loads[i] > 1073741824 && loads[j] > 1073741824
                           && AFifthApart(loads[i], loads[j])
  {
    forall i, j | 0 <= i < j < |loads|
      ensures IsLoadOverThreshold(loads[i], loads[j], DEFAULT_THRESHOLD) <==>
              loads[i] > 1073741824 && loads[j] > 1073741824 && AFifthApart(loads[i], loads[j])
    {
      IntegerTest(loads[i], loads[j], DEFAULT_THRESHOLD);
    }
  }

  /** At the default threshold the health check reports unequal loads exactly when the alert
      formula holds of the loads above the threshold alone. */
  lemma UnequalIsAlertOnHighLoads(loads: seq<nat>)
    ensures SomePairOver(loads, DEFAULT_THRESHOLD) <==> AlertFires(Above(loads, DEFAULT_THRESHOLD))
  {
    var high := Above(loads, DEFAULT_THRESHOLD);
    PairScanIsLinear(loads, DEFAULT_THRESHOLD);
    AlertInteger(high);
    AboveMembers(loads, DEFAULT_THRESHOLD);
  }

  /** So whenever the health check reports unequal loads, the alert formula holds of all loads; the two
      agree when no load is at or below the threshold. */
  lemma UnequalRaisesAlert(loads: seq<nat>)
    ensures SomePairOver(loads, DEFAULT_THRESHOLD) ==> AlertFires(loads)
    ensures (forall x :: x in loads ==> x > DEFAULT_THRESHOLD) ==>
            (SomePairOver(loads, DEFAULT_THRESHOLD) <==> AlertFires(loads))
  {
    PairScanIsLinear(loads, DEFAULT_THRESHOLD);
    AboveMembers(loads, DEFAULT_THRESHOLD);
    AlertInteger(loads);
    var high := Above(loads, DEFAULT_THRESHOLD);
    if high != [] {
      assert Largest(high) in loads && Smallest(high) in loads;
      assert Largest(loads) > DEFAULT_THRESHOLD && Largest(loads) in high;
    } else if loads != [] {
      assert Largest(loads) !in high;
    }
    if forall x :: x in loads ==> x > DEFAULT_THRESHOLD {
      if loads != [] { assert Smallest(loads) in high; }
    }
  }

  /** When the alert fires alone: the largest and smallest load are more than a fifth of the largest apart, but the
      largest and the smallest load above the threshold are not. */
  lemma AlertAlone(loads: seq<nat>)
    ensures var high := Above(loads, DEFAULT_THRESHOLD);
            AlertFires(loads) && !SomePairOver(loads, DEFAULT_THRESHOLD) <==>
            && high != [] && 5 * (Largest(loads) - Smallest(loads)) > Largest(loads)
            && 5 * (Largest(loads) - Smallest(high)) <= Largest(loads)
  {
    var high := Above(loads, DEFAULT_THRESHOLD);
    PairScanIsLinear(loads, DEFAULT_THRESHOLD);
    AboveMembers(loads, DEFAULT_THRESHOLD);
    AlertInteger(loads);
    if high != [] {
      assert Largest(high) in loads;
      assert Largest(loads) in high && Largest(loads) == Largest(high);
    } else if loads != [] {
      assert Largest(loads) !in high;
    }
  }

  /** The converse fails: one load above the threshold and one below raise the alert alone. */
  lemma AlertWithoutUnequal()
    ensures AlertFires([0, 2 * DEFAULT_THRESHOLD]) && !SomePairOver([0, 2 * DEFAULT_THRESHOLD], DEFAULT_THRESHOLD)
  {
    var loads: seq<nat> := [0, 2 * DEFAULT_THRESHOLD];
    AlertInteger(loads);
    assert 0 in loads && loads[1] in loads;
  }
}
