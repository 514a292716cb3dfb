/**
 * The sample-building half of the two-sample Kolmogorov-Smirnov test
 * (`ks_test`): each frequency map, given as its items in iteration order,
 * is expanded into a flat sample, and both samples must have exactly the
 * declared number of shots. The p-value computation itself is not part of
 * this model.
 */
module DistributionTester {
  import opened Wrappers
  import opened CountPreprocessor

  /** The AssertionError "Sample size does not match number of shots". */
  datatype SampleError = SampleSizeMismatch

  /** Python's `n * [x]`. */
  function Repeat(x: int, n: nat): (r: seq<int>)
    ensures |r| == n
    ensures forall i :: 0 <= i < n ==> r[i] == x
  {
    seq(n, _ => x)
  }

  /** The sum of the counts recorded for outcome k. */
  function KeyTotal(freq: seq<(int, nat)>, k: int): nat
  {
    if freq == [] then 0
    else KeyTotal(freq[..|freq| - 1], k) + (if freq[|freq| - 1].0 == k then freq[|freq| - 1].1 else 0)
  }

  /** Every outcome repeated as often as it was counted, in the map's order. */
  function Expand(freq: seq<(int, nat)>): seq<int>
  {
    if freq == [] then [] else Expand(freq[..|freq| - 1]) + Repeat(freq[|freq| - 1].0, freq[|freq| - 1].1)
  }

  /** A sample is exactly as long as the map's total count. */
  lemma {:induction false} ExpandLength(freq: seq<(int, nat)>)
    ensures |Expand(freq)| == Total(freq)
  {
    if freq != [] {
      ExpandLength(freq[..|freq| - 1]);
    }
  }

  /** Each outcome occurs in the sample as often as the map counts it. */
  lemma {:induction false} ExpandCount(freq: seq<(int, nat)>, k: int)
    ensures multiset(Expand(freq))[k] == KeyTotal(freq, k)
  {
    if freq != [] {
      var last := freq[|freq| - 1];
      ExpandCount(freq[..|freq| - 1], k);
      assert multiset(Repeat(last.0, last.1))[k] == if last.0 == k then last.1 else 0 by {
        RepeatCount(last.0, last.1, k);
      }
    }
  }

  lemma {:induction false} RepeatCount(x: int, n: nat, k: int)
    ensures multiset(Repeat(x, n))[k] == if x == k then n else 0
  {
    if n > 0 {
      assert Repeat(x, n) == Repeat(x, n - 1) + [x];
      RepeatCount(x, n - 1, k);
    }
  }

  /** With distinct keys, the count of an outcome is the one entry recorded for it. */
  lemma {:induction false} KeyTotalDistinct(freq: seq<(int, nat)>, i: nat)
    requires DistinctKeys(freq) && i < |freq|
    ensures KeyTotal(freq, freq[i].0) == freq[i].1
  {
    var init := freq[..|freq| - 1];
    assert DistinctKeys(init);
    if i < |freq| - 1 {
      KeyTotalDistinct(init, i);
      assert freq[|freq| - 1].0 != freq[i].0;
    } else {
      KeyTotalAbsent(init, freq[i].0);
    }
  }

  lemma {:induction false} KeyTotalAbsent(freq: seq<(int, nat)>, k: int)
    requires forall j :: 0 <= j < |freq| ==> freq[j].0 != k
    ensures KeyTotal(freq, k) == 0
  {
    if freq != [] {
      KeyTotalAbsent(freq[..|freq| - 1], k);
    }
  }

  /** Expanding two consecutive stretches of items is expanding them in turn. */
  lemma {:induction false} ExpandAppend(a: seq<(int, nat)>, b: seq<(int, nat)>)
    ensures Expand(a + b) == Expand(a) + Expand(b)
  {
    if b != [] {
      var b' := b[..|b| - 1];
      assert (a + b)[..|a + b| - 1] == a + b';
      ExpandAppend(a, b');
    } else {
      assert a + b == a;
    }
  }

  function Min(a: nat, b: nat): nat { if a <= b then a else b }

  /**
   * ks_test up to its assertion: zip_longest walks both item lists in
   * step, each present item extends only its own sample, and the result
   * is the pair of samples when both have totalShots elements.
   */
  method BuildSamples(counts1: seq<(int, nat)>, counts2: seq<(int, nat)>, totalShots: int)
    returns (r: Result<(seq<int>, seq<int>), SampleError>)
    ensures r.Ok? <==> Total(counts1) == totalShots && Total(counts2) == totalShots
    ensures r.Ok? ==> r.value.0 == Expand(counts1) && r.value.1 == Expand(counts2)
  {
    var sample1: seq<int> := [];
    var sample2: seq<int> := [];
    var steps := if |counts1| >= |counts2| then |counts1| else |counts2|;
    var i := 0;
    while i < steps
      invariant 0 <= i <= steps
      invariant sample1 == Expand(counts1[..Min(i, |counts1|)])
      invariant sample2 == Expand(counts2[..Min(i, |counts2|)])
    {
      if i < |counts1| {
        assert counts1[..i + 1][..i] == counts1[..i];
        sample1 := sample1 + Repeat(counts1[i].0, counts1[i].1);
      }
      if i < |counts2| {
        assert counts2[..i + 1][..i] == counts2[..i];
        sample2 := sample2 + Repeat(counts2[i].0, counts2[i].1);
      }
      i := i + 1;
    }
    assert counts1[..|counts1|] == counts1;
    assert counts2[..|counts2|] == counts2;
    ExpandLength(counts1);
    ExpandLength(counts2);
    if |sample1| == totalShots && |sample2| == totalShots {
      r := Ok((sample1, sample2));
    } else {
      r := Err(SampleSizeMismatch);
    }
  }

  /**
   * A frequency map with distinct outcomes expands to a sample holding
   * each outcome exactly as many times as it was counted.
   */
  lemma SampleHoldsEachCount(freq: seq<(int, nat)>, i: nat)
    requires DistinctKeys(freq) && i < |freq|
    ensures multiset(Expand(freq))[freq[i].0] == freq[i].1
  {
    ExpandCount(freq, freq[i].0);
    KeyTotalDistinct(freq, i);
  }

  /** An outcome the map does not mention never appears in its sample. */
  lemma AbsentOutcomeNotSampled(freq: seq<(int, nat)>, k: int)
    requires forall j :: 0 <= j < |freq| ==> freq[j].0 != k
    ensures k !in Expand(freq)
  {
    ExpandCount(freq, k);
    KeyTotalAbsent(freq, k);
  }
}
