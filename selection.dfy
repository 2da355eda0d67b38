/**
 * The running-maximum selection behind `_findBest` (current revision) and
 * `findBest` (VLColorKit/UIColor.swift): scan the candidates in order and
 * keep one whenever its metric reaches the best value so far, starting
 * from the threshold.
 */
module Selection {
  import opened Wrappers

  /**
   * The candidate the scan ends with: the last candidate is taken when its
   * metric is at least the bar left by the earlier ones (the threshold, or
   * the metric of the candidate kept so far).
   */
  function Best<T>(threshold: real, metric: T -> real, xs: seq<T>): Option<T>
    decreases |xs|
  {
    if xs == [] then None
    else
      var kept := Best(threshold, metric, xs[..|xs| - 1]);
      var last := xs[|xs| - 1];
      if metric(last) >= Bar(threshold, metric, kept) then Some(last) else kept
  }

  /** The value a candidate must reach to replace what has been kept. */
  function Bar<T>(threshold: real, metric: T -> real, kept: Option<T>): real
  {
    if kept.None? then threshold else metric(kept.value)
  }

  /**
   * Nothing is selected exactly when no candidate reaches the threshold;
   * otherwise what is selected is a candidate that reaches the threshold
   * and the metric of every candidate.
   */
  lemma {:induction false} BestIsMaximal<T>(threshold: real, metric: T -> real, xs: seq<T>)
    ensures Best(threshold, metric, xs).None? <==>
            forall i :: 0 <= i < |xs| ==> metric(xs[i]) < threshold
    ensures Best(threshold, metric, xs).Some? ==>
              Best(threshold, metric, xs).value in xs &&
              metric(Best(threshold, metric, xs).value) >= threshold &&
              forall i :: 0 <= i < |xs| ==> metric(xs[i]) <= metric(Best(threshold, metric, xs).value)
  {
    if xs != [] {
      var init := xs[..|xs| - 1];
      BestIsMaximal(threshold, metric, init);
      assert forall i :: 0 <= i < |init| ==> init[i] == xs[i];
    }
  }

  /**
   * Ties go to the later candidate: the selected value stands at a position
   * after which every candidate scores strictly less.
   */
  lemma {:induction false} BestLaterWinsTies<T>(threshold: real, metric: T -> real, xs: seq<T>)
    requires Best(threshold, metric, xs).Some?
    ensures exists k :: 0 <= k < |xs| && xs[k] == Best(threshold, metric, xs).value &&
              forall j :: k < j < |xs| ==> metric(xs[j]) < metric(xs[k])
  {
    var init := xs[..|xs| - 1];
    var kept := Best(threshold, metric, init);
    var last := xs[|xs| - 1];
    if metric(last) >= Bar(threshold, metric, kept) {
      assert xs[|xs| - 1] == Best(threshold, metric, xs).value;
    } else {
      BestLaterWinsTies(threshold, metric, init);
      var k :| 0 <= k < |init| && init[k] == kept.value &&
               forall j :: k < j < |init| ==> metric(init[j]) < metric(init[k]);
      assert xs[k] == init[k];
      forall j | k < j < |xs| ensures metric(xs[j]) < metric(xs[k]) {
        if j < |init| { assert xs[j] == init[j]; }
      }
    }
  }

  /** A two-candidate list: the second is taken when it scores at least as well as the first. */
  lemma BestOfTwo<T>(threshold: real, metric: T -> real, x: T, y: T)
    ensures Best(threshold, metric, [x, y]) ==
            if metric(y) >= threshold && metric(y) >= metric(x) then Some(y)
            else if metric(x) >= threshold then Some(x)
            else if metric(y) >= threshold then Some(y)
            else None
  {
    assert [x, y][..1] == [x];
    assert [x][..0] == [];
    assert Best(threshold, metric, [x]) == if metric(x) >= threshold then Some(x) else None;
  }
}
