/** Split sizing: turns the total number of pairs and the ordered split
    proportions into one count per split. Every split but the last gets the
    truncated product of the total and its proportion; the last split gets
    whatever remains, so that the counts add up to the total. */
module Sizing {

  /** One entry of the ordered split configuration. */
  datatype Proportion = Proportion(name: string, fraction: real)

  /** One entry of the computed split counts, in configuration order. */
  datatype SplitCount = SplitCount(name: string, count: int)

  /** The configuration is a dictionary: its split names are distinct. */
  predicate DistinctNames(props: seq<Proportion>)
  {
    forall i, j :: 0 <= i < j < |props| ==> props[i].name != props[j].name
  }

  /** Python's int() of a number: truncation toward zero. */
  function Trunc(x: real): (r: int)
    ensures 0.0 <= x ==> 0 <= r && r as real <= x < r as real + 1.0
    ensures x < 0.0 ==> r <= 0 && r as real - 1.0 < x <= r as real
  {
    if x >= 0.0 then x.Floor else -((-x).Floor)
  }

  /** The count a split other than the last receives. */
  function ShareOf(total: nat, p: Proportion): int
  {
    Trunc(total as real * p.fraction)
  }

  /** Sum of the shares of `props`. */
  function SharesSum(total: nat, props: seq<Proportion>): int
    decreases |props|
  {
    if props == [] then 0
    else SharesSum(total, props[..|props| - 1]) + ShareOf(total, props[|props| - 1])
  }

  /** Sum of the configured proportions. */
  function FractionSum(props: seq<Proportion>): real
    decreases |props|
  {
    if props == [] then 0.0
    else FractionSum(props[..|props| - 1]) + props[|props| - 1].fraction
  }

  /** Sum of the counts. */
  function Total(counts: seq<SplitCount>): int
    decreases |counts|
  {
    if counts == [] then 0
    else Total(counts[..|counts| - 1]) + counts[|counts| - 1].count
  }

  /** The split counts in closed form: a share for every split but the last,
      the remainder for the last. */
  function SplitSizes(total: nat, props: seq<Proportion>): (r: seq<SplitCount>)
    ensures |r| == |props|
    ensures forall i :: 0 <= i < |props| ==> r[i].name == props[i].name
  {
    seq(|props|, i requires 0 <= i < |props| =>
      SplitCount(props[i].name,
        if i < |props| - 1 then ShareOf(total, props[i])
        else total - SharesSum(total, props[..i])))
  }

  /** The sizing loop of the script. It computes the share of every split,
      then overwrites it with the remainder when the split's name is the
      last configured name, and keeps the running sum of the counts so far. */
  method ComputeSplitCounts(total: nat, props: seq<Proportion>) returns (counts: seq<SplitCount>)
    requires DistinctNames(props)
    ensures counts == SplitSizes(total, props)
  {
    counts := [];
    var currentIdx := 0;
    var i := 0;
    while i < |props|
      invariant 0 <= i <= |props|
      invariant |counts| == i
      invariant forall j :: 0 <= j < i ==> counts[j] == SplitSizes(total, props)[j]
      invariant i < |props| ==> currentIdx == SharesSum(total, props[..i])
    {
      var splitName := props[i].name;
      var count := Trunc(total as real * props[i].fraction);
      assert count == ShareOf(total, props[i]);
      if splitName == props[|props| - 1].name {
        count := total - currentIdx;
      }
      assert i < |props| - 1 ==> props[i].name != props[|props| - 1].name;
      assert count == SplitSizes(total, props)[i].count;
      counts := counts + [SplitCount(splitName, count)];
      currentIdx := currentIdx + count;
      assert props[..i + 1][..i] == props[..i];
      assert i + 1 < |props| ==>
        SharesSum(total, props[..i + 1]) == SharesSum(total, props[..i]) + ShareOf(total, props[i]);
      i := i + 1;
    }
  }

  lemma {:induction false} TotalOfSizesPrefix(total: nat, props: seq<Proportion>, k: nat)
    requires k < |props|
    ensures Total(SplitSizes(total, props)[..k]) == SharesSum(total, props[..k])
    decreases k
  {
    var r := SplitSizes(total, props);
    if k > 0 {
      TotalOfSizesPrefix(total, props, k - 1);
      assert r[..k][..k - 1] == r[..k - 1];
      assert props[..k][..k - 1] == props[..k - 1];
    }
  }

  /** The counts add up to exactly the number of pairs, whatever the
      proportions, as long as at least one split is configured. */
  lemma SplitSizesSumToTotal(total: nat, props: seq<Proportion>)
    requires |props| > 0
    ensures Total(SplitSizes(total, props)) == total
  {
    var r := SplitSizes(total, props);
    var last := |props| - 1;
    TotalOfSizesPrefix(total, props, last);
    assert r[..|r| - 1] == r[..last];
  }

  lemma {:induction false} SharesBelowFraction(total: nat, props: seq<Proportion>)
    requires forall i :: 0 <= i < |props| ==> props[i].fraction >= 0.0
    ensures 0 <= SharesSum(total, props)
    ensures SharesSum(total, props) as real <= total as real * FractionSum(props)
    decreases |props|
  {
    if props != [] {
      var init := props[..|props| - 1];
      assert forall i :: 0 <= i < |init| ==> init[i] == props[i];
      SharesBelowFraction(total, init);
      var p := props[|props| - 1];
      assert total as real * FractionSum(props)
          == total as real * FractionSum(init) + total as real * p.fraction;
    }
  }

  /** With non-negative proportions whose sum over the splits before the
      last is at most one, no count is negative and none exceeds the total. */
  lemma SplitSizesInRange(total: nat, props: seq<Proportion>)
    requires forall i :: 0 <= i < |props| ==> props[i].fraction >= 0.0
    requires |props| > 0 && FractionSum(props[..|props| - 1]) <= 1.0
    ensures forall i :: 0 <= i < |props| ==> 0 <= SplitSizes(total, props)[i].count <= total
  {
    var r := SplitSizes(total, props);
    var last := |props| - 1;
    var init := props[..last];
    assert forall i :: 0 <= i < |init| ==> init[i] == props[i];
    SharesAtMostTotal(total, init);
    var earlier := SharesSum(total, init);
    assert r[last].count == total - earlier;
    forall i | 0 <= i < |props|
      ensures 0 <= r[i].count <= total
    {
      if i < last {
        SingleShareAtMostSum(total, init, i);
        assert r[i].count == ShareOf(total, init[i]);
      }
    }
  }

  lemma SharesAtMostTotal(total: nat, props: seq<Proportion>)
    requires forall i :: 0 <= i < |props| ==> props[i].fraction >= 0.0
    requires FractionSum(props) <= 1.0
    ensures 0 <= SharesSum(total, props) <= total
  {
    SharesBelowFraction(total, props);
    BelowScaledAtMost(SharesSum(total, props) as real, total as real, FractionSum(props));
  }

  /** A value at most `a` times a factor of at most one is at most `a`. */
  lemma BelowScaledAtMost(x: real, a: real, b: real)
    requires 0.0 <= a && b <= 1.0 && x <= a * b
    ensures x <= a
  {
    assert a * (1.0 - b) >= 0.0;
  }

  lemma {:induction false} SingleShareAtMostSum(total: nat, props: seq<Proportion>, i: nat)
    requires forall j :: 0 <= j < |props| ==> props[j].fraction >= 0.0
    requires i < |props|
    ensures 0 <= ShareOf(total, props[i]) <= SharesSum(total, props)
    decreases |props|
  {
    var init := props[..|props| - 1];
    assert forall j :: 0 <= j < |init| ==> init[j] == props[j];
    SharesBelowFraction(total, init);
    if i < |props| - 1 {
      SingleShareAtMostSum(total, init, i);
    }
  }

  /** 100 pairs at 0.7 / 0.2 / 0.1 give 70, 20 and 10. */
  lemma HundredPairsExample()
    ensures SplitSizes(100, [Proportion("train", 0.7), Proportion("val", 0.2), Proportion("test", 0.1)])
         == [SplitCount("train", 70), SplitCount("val", 20), SplitCount("test", 10)]
  {
    var props := [Proportion("train", 0.7), Proportion("val", 0.2), Proportion("test", 0.1)];
    assert props[..2][..1] == props[..1] && props[..1][..0] == [];
    assert ShareOf(100, props[0]) == 70 && ShareOf(100, props[1]) == 20;
    assert SharesSum(100, props[..1]) == 70;
    assert SharesSum(100, props[..2]) == 90;
  }

  /** 95 pairs at 0.7 / 0.2 / 0.1 give 66 and 19, and the last split absorbs
      the remaining 10. */
  lemma NinetyFivePairsExample()
    ensures SplitSizes(95, [Proportion("train", 0.7), Proportion("val", 0.2), Proportion("test", 0.1)])
         == [SplitCount("train", 66), SplitCount("val", 19), SplitCount("test", 10)]
  {
    var props := [Proportion("train", 0.7), Proportion("val", 0.2), Proportion("test", 0.1)];
    assert props[..2][..1] == props[..1] && props[..1][..0] == [];
    assert ShareOf(95, props[0]) == 66 && ShareOf(95, props[1]) == 19;
    assert SharesSum(95, props[..1]) == 66;
    assert SharesSum(95, props[..2]) == 85;
  }
}
