/** Model of `prctile`, the integer-histogram percentile, in its three
    variants: src/misc.c (guards an empty input and reports a failed
    allocation), src/ias_misc.c (reports a failed allocation, no guard for
    an empty input) and ias_misc.c (neither; returns nothing).  All three
    count the values of `array` into one bucket per value of [min, max],
    then scan the buckets from `min` upward and write the first value whose
    cumulative percentage exceeds `prct` by more than MINSIGMA. */
module Percentile {

  import opened Grids

  /** MINSIGMA: the margin by which a cumulative percentage must exceed
      the requested one. */
  const MinSigma: real := 0.00001

  datatype Status = Success | Failure

  /** The number of entries of `a` below `v`. */
  function CountBelow(a: seq<int>, v: int): (n: nat)
    ensures n <= |a|
  {
    if a == [] then 0 else CountBelow(a[..|a| - 1], v) + (if a[|a| - 1] < v then 1 else 0)
  }

  /** The scan's test `(sum / nums) * 100 - prct > MINSIGMA`.  With
      `nums == 0` the quotient is 0/0, a NaN, and every comparison with a
      NaN is false. */
  predicate Exceeds(sum: int, nums: nat, prct: real) {
    nums > 0 && (sum as real / nums as real) * 100.0 - prct > MinSigma
  }

  /** Value `v` qualifies when the entries up to and including `v` make up
      more than `prct` percent (by MINSIGMA) of the input. */
  predicate Qualifies(a: seq<int>, prct: real, v: int) {
    Exceeds(CountBelow(a, v + 1), |a|, prct)
  }

  predicate InRange(a: seq<int>, min: int, max: int) {
    forall i :: 0 <= i < |a| ==> min <= a[i] <= max
  }

  /** Raising the bound by one counts the entries equal to the old bound. */
  lemma {:induction false} CountBelowStep(a: seq<int>, v: int)
    ensures CountBelow(a, v + 1) == CountBelow(a, v) + CountIn(a, v)
  {
    if a != [] {
      CountBelowStep(a[..|a| - 1], v);
    }
  }

  /** Nothing lies below the lower bound of the data, and everything lies
      below one past its upper bound. */
  lemma {:induction false} CountBelowBounds(a: seq<int>, min: int, max: int)
    requires InRange(a, min, max)
    ensures CountBelow(a, min) == 0 && CountBelow(a, max + 1) == |a|
  {
    if a != [] {
      CountBelowBounds(a[..|a| - 1], min, max);
    }
  }

  /** The cumulative count never decreases, so neither does qualification. */
  lemma {:induction false} QualifiesMonotone(a: seq<int>, prct: real, u: int, v: int)
    requires u <= v && Qualifies(a, prct, u)
    ensures Qualifies(a, prct, v)
  {
    CountBelowMonotone(a, u + 1, v + 1);
    DivideMonotone(CountBelow(a, u + 1) as real, CountBelow(a, v + 1) as real, |a| as real);
  }

  lemma DivideMonotone(x: real, y: real, n: real)
    requires x <= y && n > 0.0
    ensures x / n <= y / n
  {
    assert y / n - x / n == (y - x) / n;
  }

  lemma {:induction false} CountBelowMonotone(a: seq<int>, u: int, v: int)
    requires u <= v
    ensures CountBelow(a, u) <= CountBelow(a, v)
  {
    if a != [] {
      CountBelowMonotone(a[..|a| - 1], u, v);
    }
  }

  /** With a non-empty input and a percentage below 100 - MINSIGMA the
      scan always finds a value: at the latest `max`, where the cumulative
      percentage is 100. */
  lemma MaxQualifies(a: seq<int>, min: int, max: int, prct: real)
    requires InRange(a, min, max) && |a| > 0 && prct < 100.0 - MinSigma
    ensures Qualifies(a, prct, max)
  {
    CountBelowBounds(a, min, max);
    assert CountBelow(a, max + 1) as real / |a| as real == 1.0;
  }

  /** The running sum of the scan decides qualification. */
  lemma QualifiesBySum(a: seq<int>, prct: real, v: int, sum: int)
    requires sum == CountBelow(a, v + 1)
    ensures Qualifies(a, prct, v) <==> Exceeds(sum, |a|, prct)
  {
  }

  /** The first loop: bucket `k` of the fresh, zeroed histogram counts the
      entries equal to `min + k`. */
  method Histogram(a: seq<int>, min: int, max: int) returns (interval: array<int>)
    requires InRange(a, min, max)
    ensures fresh(interval)
    ensures interval.Length == if max - min + 1 > 0 then max - min + 1 else 0
    ensures forall k :: 0 <= k < interval.Length ==> interval[k] == CountIn(a, min + k)
  {
    var loops := max - min + 1;
    interval := new int[if loops > 0 then loops else 0](_ => 0);
    for i := 0 to |a|
      invariant forall k :: 0 <= k < interval.Length ==> interval[k] == CountIn(a[..i], min + k)
    {
      assert a[..i + 1][..i] == a[..i];
      interval[a[i] - min] := interval[a[i] - min] + 1;
    }
    assert a[..|a|] == a;
  }

  /** The first value of [lo, hi] that qualifies, or `hi + 1` when none does. */
  ghost function FirstQualifying(a: seq<int>, prct: real, lo: int, hi: int): (v: int)
    requires lo <= hi + 1
    ensures lo <= v <= hi + 1
    decreases hi + 1 - lo
  {
    if lo > hi then lo else if Qualifies(a, prct, lo) then lo else FirstQualifying(a, prct, lo + 1, hi)
  }

  /** `FirstQualifying` is the least qualifying value of the range. */
  lemma {:induction false} FirstQualifyingIsLeast(a: seq<int>, prct: real, lo: int, hi: int)
    requires lo <= hi + 1
    ensures FirstQualifying(a, prct, lo, hi) <= hi ==> Qualifies(a, prct, FirstQualifying(a, prct, lo, hi))
    ensures forall u :: lo <= u < FirstQualifying(a, prct, lo, hi) ==> !Qualifies(a, prct, u)
    decreases hi + 1 - lo
  {
    if lo <= hi && !Qualifies(a, prct, lo) {
      FirstQualifyingIsLeast(a, prct, lo + 1, hi);
    }
  }

  /** The second loop: scan the buckets upward with a running sum and
      write the first qualifying value; when none qualifies, `result` keeps
      the value it had. */
  method Scan(interval: array<int>, a: seq<int>, min: int, max: int, prct: real, result: int)
    returns (result': int)
    requires InRange(a, min, max)
    requires interval.Length == if max - min + 1 > 0 then max - min + 1 else 0
    requires forall k :: 0 <= k < interval.Length ==> interval[k] == CountIn(a, min + k)
    ensures (exists v :: min <= v <= max && Qualifies(a, prct, v)) ==>
              && min <= result' <= max && Qualifies(a, prct, result')
              && forall u :: min <= u < result' ==> !Qualifies(a, prct, u)
    ensures (forall v :: min <= v <= max ==> !Qualifies(a, prct, v)) ==> result' == result
  {
    if interval.Length == 0 {
      return result;
    }
    CountBelowBounds(a, min, max);
    FirstQualifyingIsLeast(a, prct, min, max);
    var sum := 0;
    var j := 0;
    while j < interval.Length
      invariant 0 <= j <= interval.Length
      invariant sum == CountBelow(a, min + j)
      invariant FirstQualifying(a, prct, min, max) == FirstQualifying(a, prct, min + j, max)
    {
      CountBelowStep(a, min + j);
      sum := sum + interval[j];
      QualifiesBySum(a, prct, min + j, sum);
      if Exceeds(sum, |a|, prct) {
        return min + j;
      }
      j := j + 1;
    }
    return result;
  }

  /** `prctile` in src/misc.c.  `allocFails` stands for `calloc` returning
      NULL.  An empty input first sets the result to 0; the scan then finds
      nothing, since every test divides 0 by 0. */
  method Prctile(values: seq<int>, min: int, max: int, prct: real, allocFails: bool, result: int)
    returns (status: Status, result': int)
    requires InRange(values, min, max)
    ensures status == Failure <==> allocFails
    ensures |values| == 0 ==> result' == 0
    ensures status == Success && |values| > 0 && (exists v :: min <= v <= max && Qualifies(values, prct, v)) ==>
              && min <= result' <= max && Qualifies(values, prct, result')
              && forall u :: min <= u < result' ==> !Qualifies(values, prct, u)
    ensures (status == Failure || forall v :: min <= v <= max ==> !Qualifies(values, prct, v)) && |values| > 0 ==>
              result' == result
  {
    result' := result;
    if |values| == 0 {
      result' := 0;
    }
    if allocFails {
      return Failure, result';
    }
    var interval := Histogram(values, min, max);
    result' := Scan(interval, values, min, max, prct, result');
    status := Success;
  }

  /** `prctile` in src/ias_misc.c: as in src/misc.c without the guard for
      an empty input, which therefore leaves the result as it was. */
  method PrctileUnguarded(values: seq<int>, min: int, max: int, prct: real, allocFails: bool, result: int)
    returns (status: Status, result': int)
    requires InRange(values, min, max)
    ensures status == Failure <==> allocFails
    ensures status == Success && (exists v :: min <= v <= max && Qualifies(values, prct, v)) ==>
              && min <= result' <= max && Qualifies(values, prct, result')
              && forall u :: min <= u < result' ==> !Qualifies(values, prct, u)
    ensures status == Failure || (forall v :: min <= v <= max ==> !Qualifies(values, prct, v)) ==> result' == result
  {
    if allocFails {
      return Failure, result;
    }
    var interval := Histogram(values, min, max);
    result' := Scan(interval, values, min, max, prct, result);
    status := Success;
  }

  /** `void prctile` in ias_misc.c: no status and no allocation check. */
  method PrctileVoid(values: seq<int>, min: int, max: int, prct: real, result: int) returns (result': int)
    requires InRange(values, min, max)
    ensures (exists v :: min <= v <= max && Qualifies(values, prct, v)) ==>
              && min <= result' <= max && Qualifies(values, prct, result')
              && forall u :: min <= u < result' ==> !Qualifies(values, prct, u)
    ensures (forall v :: min <= v <= max ==> !Qualifies(values, prct, v)) ==> result' == result
  {
    var interval := Histogram(values, min, max);
    result' := Scan(interval, values, min, max, prct, result);
  }

  /** An empty input qualifies no value, so the unguarded variants leave
      their result as it was. */
  lemma EmptyQualifiesNothing(prct: real, v: int)
    ensures !Qualifies([], prct, v)
  {
  }
}
