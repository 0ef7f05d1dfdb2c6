/**
 * Marker selection by VQSLOD threshold and marker compaction: the index
 * lists that findLegitSnpsGivenVQSLOD(Half) produce and the subsequence
 * that removeMarkers keeps.
 */
module Selection {

  /** The elements of `s` at the listed indices, in index-list order. */
  function Select<T>(s: seq<T>, idx: seq<nat>): (r: seq<T>)
    requires forall k :: 0 <= k < |idx| ==> idx[k] < |s|
  {
    seq(|idx|, k requires 0 <= k < |idx| => s[idx[k]])
  }

  /** The identity index list 0, 1, ..., n - 1. */
  function Range(n: nat): (r: seq<nat>)
    ensures |r| == n
    ensures forall i :: 0 <= i < n ==> r[i] == i
  {
    seq(n, i requires 0 <= i < n => i)
  }

  predicate StrictlyIncreasing(s: seq<nat>)
  {
    forall i, j :: 0 <= i < j < |s| ==> s[i] < s[j]
  }

  /** Keeping every marker, in order, keeps the list as it was. */
  lemma SelectIdentity<T>(s: seq<T>)
    ensures Select(s, Range(|s|)) == s
  {
  }

  /** Compacting twice is compacting once with the composed index list. */
  lemma SelectCompose<T>(s: seq<T>, a: seq<nat>, b: seq<nat>)
    requires forall k :: 0 <= k < |a| ==> a[k] < |s|
    requires forall k :: 0 <= k < |b| ==> b[k] < |a|
    ensures Select(Select(s, a), b) == Select(s, Select(a, b))
  {
  }

  /** Indices `i` in [lo, hi) with vqslod[i] > threshold, in increasing order. */
  function RangeAbove(vqslod: seq<real>, lo: nat, hi: nat, threshold: real): seq<nat>
    requires lo <= hi <= |vqslod|
    decreases hi - lo
  {
    if hi == lo then []
    else RangeAbove(vqslod, lo, hi - 1, threshold) + (if vqslod[hi - 1] > threshold then [hi - 1] else [])
  }

  /** The markers findLegitSnpsGivenVQSLOD keeps. */
  function LegitIndices(vqslod: seq<real>, threshold: real): seq<nat>
  {
    RangeAbove(vqslod, 0, |vqslod|, threshold)
  }

  lemma {:induction false} RangeAboveSpec(vqslod: seq<real>, lo: nat, hi: nat, threshold: real)
    requires lo <= hi <= |vqslod|
    ensures StrictlyIncreasing(RangeAbove(vqslod, lo, hi, threshold))
    ensures forall i :: 0 <= i < |RangeAbove(vqslod, lo, hi, threshold)| ==> lo <= RangeAbove(vqslod, lo, hi, threshold)[i] < hi
    ensures forall k: nat :: k in RangeAbove(vqslod, lo, hi, threshold) <==> lo <= k < hi && vqslod[k] > threshold
    decreases hi - lo
  {
    if hi > lo {
      var p := RangeAbove(vqslod, lo, hi - 1, threshold);
      var tail: seq<nat> := if vqslod[hi - 1] > threshold then [hi - 1] else [];
      RangeAboveSpec(vqslod, lo, hi - 1, threshold);
      assert RangeAbove(vqslod, lo, hi, threshold) == p + tail;
      forall k: nat ensures k in p + tail <==> lo <= k < hi && vqslod[k] > threshold {
        assert k in p + tail <==> k in p || k in tail;
      }
    }
  }

  /** Exactly the indices whose VQSLOD exceeds the threshold, strictly increasing. */
  lemma LegitIndicesSpec(vqslod: seq<real>, threshold: real)
    ensures StrictlyIncreasing(LegitIndices(vqslod, threshold))
    ensures forall k: nat :: k in LegitIndices(vqslod, threshold) <==> k < |vqslod| && vqslod[k] > threshold
    ensures forall i :: 0 <= i < |LegitIndices(vqslod, threshold)| ==> LegitIndices(vqslod, threshold)[i] < |vqslod|
  {
    RangeAboveSpec(vqslod, 0, |vqslod|, threshold);
  }

  lemma LegitExample()
    ensures LegitIndices([5.0, 15.0, 8.0, 20.0], 10.0) == [1, 3]
  {
    var v := [5.0, 15.0, 8.0, 20.0];
    assert RangeAbove(v, 0, 1, 10.0) == [];
    assert RangeAbove(v, 0, 2, 10.0) == [1];
    assert RangeAbove(v, 0, 3, 10.0) == [1];
  }

  /** The values above the threshold, in order (an independent reference definition). */
  function FilterAbove(vqslod: seq<real>, threshold: real): seq<real>
  {
    if |vqslod| == 0 then []
    else FilterAbove(vqslod[..|vqslod| - 1], threshold)
         + (if vqslod[|vqslod| - 1] > threshold then [vqslod[|vqslod| - 1]] else [])
  }

  lemma {:induction false} SelectRangeAbove(vqslod: seq<real>, n: nat, threshold: real)
    requires n <= |vqslod|
    ensures forall i :: 0 <= i < |RangeAbove(vqslod, 0, n, threshold)| ==> RangeAbove(vqslod, 0, n, threshold)[i] < |vqslod|
    ensures Select(vqslod, RangeAbove(vqslod, 0, n, threshold)) == FilterAbove(vqslod[..n], threshold)
  {
    RangeAboveSpec(vqslod, 0, n, threshold);
    if n > 0 {
      SelectRangeAbove(vqslod, n - 1, threshold);
      assert vqslod[..n][..n - 1] == vqslod[..n - 1];
    }
  }

  /** Compacting the VQSLOD list with the threshold selection keeps exactly the values above it. */
  lemma SelectLegit(vqslod: seq<real>, threshold: real)
    ensures forall i :: 0 <= i < |LegitIndices(vqslod, threshold)| ==> LegitIndices(vqslod, threshold)[i] < |vqslod|
    ensures Select(vqslod, LegitIndices(vqslod, threshold)) == FilterAbove(vqslod, threshold)
  {
    SelectRangeAbove(vqslod, |vqslod|, threshold);
    assert vqslod[..|vqslod|] == vqslod;
  }

  /** The runs with ordinal above this one are the only ones the Half policy considers. */
  const HalfRunCutoff: nat := 10

  /** Well-formed run table: every run of the start table lies inside the VQSLOD list. */
  predicate RunsInside(vqslod: seq<real>, position: seq<seq<int>>, starts: seq<nat>)
  {
    |starts| <= |position| &&
    forall c :: 0 <= c < |starts| ==> starts[c] + |position[c]| <= |vqslod|
  }

  /** The markers the Half policy keeps from run `r`. */
  function RunKept(vqslod: seq<real>, position: seq<seq<int>>, starts: seq<nat>, threshold: real, r: nat): seq<nat>
    requires RunsInside(vqslod, position, starts) && r < |starts|
  {
    if r > HalfRunCutoff then RangeAbove(vqslod, starts[r], starts[r] + |position[r]|, threshold) else []
  }

  /** The kept markers of every run of the start table, run by run. */
  function HalfRuns(vqslod: seq<real>, position: seq<seq<int>>, starts: seq<nat>, threshold: real): (rs: seq<seq<nat>>)
    requires RunsInside(vqslod, position, starts)
    ensures |rs| == |starts|
  {
    seq(|starts|, r requires 0 <= r < |starts| => RunKept(vqslod, position, starts, threshold, r))
  }

  /** The index lists one after another. */
  function Concat(rs: seq<seq<nat>>): seq<nat>
  {
    if |rs| == 0 then [] else Concat(rs[..|rs| - 1]) + rs[|rs| - 1]
  }

  /** The markers findLegitSnpsGivenVQSLODHalf keeps from the first `c` runs. */
  function HalfIndices(vqslod: seq<real>, position: seq<seq<int>>, starts: seq<nat>, threshold: real, c: nat): seq<nat>
    requires RunsInside(vqslod, position, starts) && c <= |starts|
  {
    Concat(HalfRuns(vqslod, position, starts, threshold)[..c])
  }

  /** Marker `k` lies in run `r`, the run's ordinal is above the cutoff, and its VQSLOD passes. */
  predicate KeptBy(vqslod: seq<real>, position: seq<seq<int>>, starts: seq<nat>, threshold: real, r: nat, k: nat)
    requires r < |starts| <= |position|
  {
    HalfRunCutoff < r && starts[r] <= k < starts[r] + |position[r]| && k < |vqslod| && vqslod[k] > threshold
  }

  lemma ConcatAppend(rs: seq<seq<nat>>, last: seq<nat>)
    ensures Concat(rs + [last]) == Concat(rs) + last
  {
    assert (rs + [last])[..|rs|] == rs;
  }

  /** Finishing run `c` appends its kept markers to those of the earlier runs. */
  lemma HalfIndicesStep(vqslod: seq<real>, position: seq<seq<int>>, starts: seq<nat>, threshold: real, c: nat)
    requires RunsInside(vqslod, position, starts) && c < |starts|
    ensures HalfIndices(vqslod, position, starts, threshold, c + 1)
         == HalfIndices(vqslod, position, starts, threshold, c) + RunKept(vqslod, position, starts, threshold, c)
  {
    var rs := HalfRuns(vqslod, position, starts, threshold);
    assert rs[..c + 1] == rs[..c] + [rs[c]];
    ConcatAppend(rs[..c], rs[c]);
  }

  lemma RunKeptMember(vqslod: seq<real>, position: seq<seq<int>>, starts: seq<nat>, threshold: real, r: nat, k: nat)
    requires RunsInside(vqslod, position, starts) && r < |starts|
    ensures k in RunKept(vqslod, position, starts, threshold, r) <==> KeptBy(vqslod, position, starts, threshold, r, k)
  {
    if r > HalfRunCutoff {
      RangeAboveSpec(vqslod, starts[r], starts[r] + |position[r]|, threshold);
    }
  }

  /** An index is in the concatenation exactly when it is in one of the lists. */
  lemma {:induction false} ConcatMember(rs: seq<seq<nat>>, k: nat)
    ensures k in Concat(rs) <==> exists r :: 0 <= r < |rs| && k in rs[r]
  {
    if |rs| > 0 {
      var init := rs[..|rs| - 1];
      ConcatMember(init, k);
      assert k in Concat(rs) <==> k in Concat(init) || k in rs[|rs| - 1];
      if k in Concat(init) {
        var r :| 0 <= r < |init| && k in init[r];
        assert k in rs[r];
      }
      if exists r :: 0 <= r < |rs| && k in rs[r] {
        var r :| 0 <= r < |rs| && k in rs[r];
        if r < |rs| - 1 {
          assert k in init[r];
        }
      }
    }
  }

  /**
   * Increasing lists that occupy consecutive windows [lo[r], hi[r]) concatenate
   * to an increasing list below the last window's end.
   */
  lemma {:induction false} ConcatIncreasing(rs: seq<seq<nat>>, lo: seq<nat>, hi: seq<nat>)
    requires |lo| == |rs| && |hi| == |rs|
    requires forall r :: 0 <= r < |rs| ==> StrictlyIncreasing(rs[r]) && lo[r] <= hi[r]
    requires forall r, i :: 0 <= r < |rs| && 0 <= i < |rs[r]| ==> lo[r] <= rs[r][i] < hi[r]
    requires forall r :: 0 <= r < |rs| - 1 ==> hi[r] <= lo[r + 1]
    ensures StrictlyIncreasing(Concat(rs))
    ensures |rs| > 0 ==> forall i :: 0 <= i < |Concat(rs)| ==> Concat(rs)[i] < hi[|rs| - 1]
  {
    var n := |rs|;
    if n > 0 {
      var init := rs[..n - 1];
      var last := rs[n - 1];
      ConcatIncreasing(init, lo[..n - 1], hi[..n - 1]);
      var p := Concat(init);
      assert Concat(rs) == p + last;
      if n > 1 {
        assert forall i :: 0 <= i < |p| ==> p[i] < hi[n - 2];
        assert hi[n - 2] <= lo[n - 1];
      }
      assert forall i :: 0 <= i < |p| ==> p[i] < lo[n - 1];
    }
  }

  /**
   * The Half policy keeps an index exactly when its VQSLOD exceeds the
   * threshold and it lies in a run whose ordinal is above the cutoff.
   */
  lemma HalfIndicesSpec(vqslod: seq<real>, position: seq<seq<int>>, starts: seq<nat>, threshold: real)
    requires RunsInside(vqslod, position, starts)
    ensures forall k: nat :: k in HalfIndices(vqslod, position, starts, threshold, |starts|) <==>
      exists r: nat :: r < |starts| && KeptBy(vqslod, position, starts, threshold, r, k)
  {
    var rs := HalfRuns(vqslod, position, starts, threshold);
    assert rs[..|starts|] == rs;
    forall k: nat ensures k in Concat(rs) <==> exists r: nat :: r < |starts| && KeptBy(vqslod, position, starts, threshold, r, k) {
      ConcatMember(rs, k);
      forall r | 0 <= r < |rs| ensures k in rs[r] <==> KeptBy(vqslod, position, starts, threshold, r, k) {
        RunKeptMember(vqslod, position, starts, threshold, r, k);
      }
    }
  }

  /** With runs laid out one after another, the Half selection is strictly increasing. */
  lemma HalfIncreasing(vqslod: seq<real>, position: seq<seq<int>>, starts: seq<nat>, threshold: real, c: nat)
    requires RunsInside(vqslod, position, starts) && c <= |starts|
    requires forall r :: 0 <= r < |starts| - 1 ==> starts[r] + |position[r]| <= starts[r + 1]
    ensures StrictlyIncreasing(HalfIndices(vqslod, position, starts, threshold, c))
  {
    var rs := HalfRuns(vqslod, position, starts, threshold)[..c];
    var lo := starts[..c];
    var hi := seq(c, r requires 0 <= r < c => starts[r] + |position[r]|);
    forall r | 0 <= r < c
      ensures StrictlyIncreasing(rs[r]) && lo[r] <= hi[r]
      ensures forall i :: 0 <= i < |rs[r]| ==> lo[r] <= rs[r][i] < hi[r]
    {
      RangeAboveSpec(vqslod, starts[r], starts[r] + |position[r]|, threshold);
    }
    ConcatIncreasing(rs, lo, hi);
  }
}
