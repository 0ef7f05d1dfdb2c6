/**
 * Vocabulary for the chromosome index: runs of consecutive equal labels,
 * each with its own position list.
 */
module ChromRuns {

  /** The concatenation of the per-chromosome position lists. */
  function Flatten(lists: seq<seq<int>>): seq<int>
  {
    if |lists| == 0 then [] else Flatten(lists[..|lists| - 1]) + lists[|lists| - 1]
  }

  /** `n` copies of one label. */
  function Repeat(name: string, n: nat): seq<string>
  {
    seq(n, _ => name)
  }

  /** The label of every position, run by run: chrom[k] once per entry of lists[k]. */
  function Expand(labels: seq<string>, lists: seq<seq<int>>): seq<string>
    requires |labels| == |lists|
  {
    if |labels| == 0 then []
    else Expand(labels[..|labels| - 1], lists[..|lists| - 1]) + Repeat(labels[|labels| - 1], |lists[|lists| - 1]|)
  }

  /** The labels of the maximal runs of consecutive equal labels, in order. */
  function CollapseRuns(labels: seq<string>): (r: seq<string>)
    ensures |r| <= |labels|
    ensures |r| == 0 <==> |labels| == 0
    ensures |labels| > 0 ==> r[|r| - 1] == labels[|labels| - 1]
    ensures forall k :: 0 <= k < |r| - 1 ==> r[k] != r[k + 1]
  {
    if |labels| == 0 then []
    else
      var r := CollapseRuns(labels[..|labels| - 1]);
      if |r| > 0 && r[|r| - 1] == labels[|labels| - 1] then r else r + [labels[|labels| - 1]]
  }

  lemma FlattenAppend(lists: seq<seq<int>>, last: seq<int>)
    ensures Flatten(lists + [last]) == Flatten(lists) + last
  {
    assert (lists + [last])[..|lists|] == lists;
  }

  lemma ExpandAppend(labels: seq<string>, lists: seq<seq<int>>, name: string, list: seq<int>)
    requires |labels| == |lists|
    ensures Expand(labels + [name], lists + [list]) == Expand(labels, lists) + Repeat(name, |list|)
  {
    assert (labels + [name])[..|labels|] == labels;
    assert (lists + [list])[..|lists|] == lists;
  }

  /**
   * `names` and `lists` index the markers whose labels and positions are
   * given: one name per run of equal labels, each list non-empty and holding
   * that run's positions in order.
   */
  predicate Indexed(names: seq<string>, lists: seq<seq<int>>, labels: seq<string>, positions: seq<int>)
  {
    |names| == |lists| &&
    names == CollapseRuns(labels) &&
    Flatten(lists) == positions &&
    Expand(names, lists) == labels &&
    forall k :: 0 <= k < |lists| ==> |lists[k]| > 0
  }

  /** Nothing read yet: no runs. */
  lemma IndexedEmpty()
    ensures Indexed([], [], [], [])
  {
  }

  /** A marker whose label differs from the previous one opens a new run. */
  lemma IndexedNew(names: seq<string>, lists: seq<seq<int>>, labels: seq<string>, positions: seq<int>, l: string, p: int)
    requires Indexed(names, lists, labels, positions)
    requires |labels| == 0 || labels[|labels| - 1] != l
    ensures Indexed(names + [l], lists + [[p]], labels + [l], positions + [p])
  {
    assert (labels + [l])[..|labels|] == labels;
    FlattenAppend(lists, [p]);
    ExpandAppend(names, lists, l, [p]);
    assert Repeat(l, 1) == [l];
  }

  /** A non-empty sequence is its front followed by its last element. */
  lemma SplitLast<T>(xs: seq<T>)
    requires |xs| > 0
    ensures xs == xs[..|xs| - 1] + [xs[|xs| - 1]]
  {
  }

  /** A longer prefix is the shorter one followed by the next element. */
  lemma TakeStep<T>(xs: seq<T>, n: nat)
    requires n < |xs|
    ensures xs[..n + 1] == xs[..n] + [xs[n]]
  {
  }

  /** Growing the last list grows the flattened list at its end. */
  lemma FlattenGrowLast(init: seq<seq<int>>, last: seq<int>, p: int)
    ensures Flatten(init + [last + [p]]) == Flatten(init + [last]) + [p]
  {
    FlattenAppend(init, last);
    FlattenAppend(init, last + [p]);
  }

  /** Growing the last list repeats the last name once more. */
  lemma ExpandGrowLast(names: seq<string>, init: seq<seq<int>>, name: string, last: seq<int>, p: int)
    requires |names| == |init|
    ensures Expand(names + [name], init + [last + [p]]) == Expand(names + [name], init + [last]) + [name]
  {
    ExpandAppend(names, init, name, last);
    ExpandAppend(names, init, name, last + [p]);
    assert Repeat(name, |last| + 1) == Repeat(name, |last|) + [name];
  }

  /** A marker with the previous label joins the current run, the last list. */
  lemma IndexedSame(names: seq<string>, init: seq<seq<int>>, last: seq<int>, labels: seq<string>, positions: seq<int>, l: string, p: int)
    requires Indexed(names, init + [last], labels, positions)
    requires |labels| > 0 && labels[|labels| - 1] == l
    ensures Indexed(names, init + [last + [p]], labels + [l], positions + [p])
  {
    assert (labels + [l])[..|labels|] == labels;
    SplitLast(names);
    FlattenGrowLast(init, last, p);
    ExpandGrowLast(names[..|names| - 1], init, names[|names| - 1], last, p);
    var lists, lists' := init + [last], init + [last + [p]];
    assert forall k :: 0 <= k < |lists'| ==> |lists'[k]| > 0 by {
      forall k | 0 <= k < |lists'| ensures |lists'[k]| > 0 {
        if k < |init| {
          assert lists'[k] == lists[k];
        }
      }
    }
  }
}
