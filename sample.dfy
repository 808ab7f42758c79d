/** Weighted random choice from an insertion-ordered dictionary (_dictionary_sample).
    A dictionary is its list of (key, weight) entries in insertion order. */
module Sample {
  import opened Seqs
  import opened Config

  /** The running total after the first m entries, added in insertion order */
  function Running<K>(d: seq<(K, real)>, m: nat): real
    requires m <= |d|
  {
    if m == 0 then 0.0 else Running(d, m - 1) + d[m - 1].1
  }

  /** Sum of all the weights */
  function Total<K>(d: seq<(K, real)>): real
  {
    Running(d, |d|)
  }

  predicate NonNegative<K>(d: seq<(K, real)>)
  {
    forall i :: 0 <= i < |d| ==> d[i].1 >= 0.0
  }

  /** The first index from `from` on whose running total, that entry included, reaches
      `target` */
  function FirstReaching<K>(d: seq<(K, real)>, target: real, from: nat): (r: Option<nat>)
    requires from <= |d|
    decreases |d| - from
    ensures r.Some? ==> from <= r.value < |d| && Running(d, r.value + 1) >= target
    ensures r.Some? ==> forall m :: from < m <= r.value ==> Running(d, m) < target
    ensures r.None? ==> forall m :: from < m <= |d| ==> Running(d, m) < target
  {
    if from == |d| then None
    else if Running(d, from + 1) >= target then Some(from)
    else FirstReaching(d, target, from + 1)
  }

  /** _dictionary_sample with draw r: the first key whose running total reaches
      total*r; the fallback takes the first key, and fails (None) on an empty dictionary */
  function Pick<K>(d: seq<(K, real)>, r: Draw): (key: Option<K>)
    ensures key.None? <==> d == []
    ensures key.Some? ==> exists j :: 0 <= j < |d| && key.value == d[j].0
  {
    match FirstReaching(d, Total(d) * r, 0)
    case Some(j) => Some(d[j].0)
    case None => if d == [] then None else Some(d[0].0)
  }

  /** _dictionary_sample: one pass to total the weights, one draw, one pass to find the
      first key whose running total reaches the scaled draw */
  method DictionarySample<K>(d: seq<(K, real)>, rnd: Stream, n: nat) returns (key: Option<K>, next: nat)
    ensures key == Pick(d, rnd(n)) && next == n + 1
  {
    var total := 0.0;
    var i := 0;
    while i < |d|
      invariant 0 <= i <= |d|
      invariant total == Running(d, i)
    {
      total := total + d[i].1;
      i := i + 1;
    }
    var rand := total * rnd(n);
    assert rand == Total(d) * rnd(n);
    next := n + 1;
    total := 0.0;
    i := 0;
    while i < |d|
      invariant 0 <= i <= |d|
      invariant total == Running(d, i)
      invariant FirstReaching(d, rand, 0) == FirstReaching(d, rand, i)
    {
      total := total + d[i].1;
      if total >= rand {
        assert FirstReaching(d, rand, i) == Some(i);
        return Some(d[i].0), next;
      }
      i := i + 1;
    }
    if d == [] {
      return None, next;
    }
    return Some(d[0].0), next;
  }

  /** With non-negative weights the running totals never decrease */
  lemma {:induction false} RunningMonotone<K>(d: seq<(K, real)>, i: nat, j: nat)
    requires NonNegative(d) && i <= j <= |d|
    decreases j - i
    ensures Running(d, i) <= Running(d, j)
  {
    if i < j {
      RunningMonotone(d, i, j - 1);
    }
  }

  lemma ScaleBelow(t: real, r: Draw)
    requires t >= 0.0
    ensures t * r <= t
  {
  }

  /** With a non-empty dictionary of non-negative weights some running total always
      reaches total*r, so the fallback is never taken and the choice is one of the keys */
  lemma PickFound<K>(d: seq<(K, real)>, r: Draw)
    requires d != [] && NonNegative(d)
    ensures FirstReaching(d, Total(d) * r, 0).Some?
    ensures exists j :: 0 <= j < |d| && Pick(d, r) == Some(d[j].0)
  {
    var total := Total(d);
    RunningMonotone(d, 0, |d|);
    ScaleBelow(total, r);
    var t := total * r;
    assert Running(d, |d|) >= t;
    var j := FirstReaching(d, t, 0).value;
    assert Pick(d, r) == Some(d[j].0);
  }

  /** The key at index j is the first to reach target t exactly when t falls into j's
      share: above the running total before j (or anywhere, for the first key) and at
      most the running total including j */
  lemma FirstReachingInterval<K>(d: seq<(K, real)>, t: real, j: nat)
    requires NonNegative(d) && j < |d|
    ensures FirstReaching(d, t, 0) == Some(j) <==> (j == 0 || Running(d, j) < t) && t <= Running(d, j + 1)
  {
    var f := FirstReaching(d, t, 0);
    if (j == 0 || Running(d, j) < t) && t <= Running(d, j + 1) {
      if f.Some? && f.value < j {
        RunningMonotone(d, f.value + 1, j);
      }
    }
  }
}
