/** The timing step of the benchmark: a kernel is run `repeats` times, each
    run's duration is recorded, and the sample at position repeats/2 of the
    sorted durations (the upper middle for an even count) is reported. The
    clock is a parameter: a sequence of readings taken before and after each
    run. */
module Timing {
  import opened MatrixKernel

  /** Which side of a pivot a sample is counted on. */
  datatype Side = Below | Above

  predicate Beyond(y: real, x: real, side: Side)
  {
    match side
    case Below => y < x
    case Above => y > x
  }

  /** How many samples of s lie strictly on the given side of x. */
  function CountBeyond(s: seq<real>, x: real, side: Side): (r: nat)
    ensures r <= |s|
  {
    if |s| == 0 then 0
    else CountBeyond(s[..|s| - 1], x, side) + (if Beyond(s[|s| - 1], x, side) then 1 else 0)
  }

  /** m is the k-th smallest sample of s (counting from 0): it is one of the
      samples, at most k samples are strictly smaller and at most |s|-1-k are
      strictly larger. This is what sorting s would put at position k. */
  ghost predicate IsOrderStatistic(s: seq<real>, k: nat, m: real)
  {
    k < |s| && m in s &&
    CountBeyond(s, m, Below) <= k && CountBeyond(s, m, Above) <= |s| - 1 - k
  }

  predicate Sorted(s: seq<real>)
  {
    forall p, q :: 0 <= p < q < |s| ==> s[p] <= s[q]
  }

  lemma {:induction false} CountAppend(s: seq<real>, t: seq<real>, x: real, side: Side)
    ensures CountBeyond(s + t, x, side) == CountBeyond(s, x, side) + CountBeyond(t, x, side)
    decreases |t|
  {
    if |t| > 0 {
      var t' := t[..|t| - 1];
      assert (s + t)[..|s + t| - 1] == s + t';
      CountAppend(s, t', x, side);
    } else {
      assert s + t == s;
    }
  }

  /** Taking one sample out of s lowers the count by that sample's share. */
  lemma CountRemove(s: seq<real>, q: nat, x: real, side: Side)
    requires q < |s|
    ensures CountBeyond(s, x, side)
      == CountBeyond(s[..q] + s[q + 1..], x, side) + (if Beyond(s[q], x, side) then 1 else 0)
  {
    assert s == s[..q] + [s[q]] + s[q + 1..];
    CountAppend(s[..q] + [s[q]], s[q + 1..], x, side);
    CountAppend(s[..q], [s[q]], x, side);
    CountAppend(s[..q], s[q + 1..], x, side);
    assert [s[q]][..0] == [];
  }

  lemma RemoveOne(s: seq<real>, q: nat)
    requires q < |s|
    ensures multiset(s[..q] + s[q + 1..]) == multiset(s) - multiset{s[q]}
  {
    assert s == s[..q] + [s[q]] + s[q + 1..];
  }

  /** Counting ignores the order of the samples. */
  lemma {:induction false} CountPermutation(s: seq<real>, t: seq<real>, x: real, side: Side)
    requires multiset(s) == multiset(t)
    ensures CountBeyond(s, x, side) == CountBeyond(t, x, side)
    decreases |s|
  {
    if |s| == 0 {
      assert |t| == |multiset(t)| == 0;
    } else {
      var last := s[|s| - 1];
      var s' := s[..|s| - 1];
      assert last in multiset(t);
      var q :| 0 <= q < |t| && t[q] == last;
      var t' := t[..q] + t[q + 1..];
      RemoveOne(t, q);
      RemoveOne(s, |s| - 1);
      CountPermutation(s', t', x, side);
      CountRemove(t, q, x, side);
    }
  }

  lemma {:induction false} CountNone(s: seq<real>, x: real, side: Side)
    requires forall q :: 0 <= q < |s| ==> !Beyond(s[q], x, side)
    ensures CountBeyond(s, x, side) == 0
  {
    if |s| > 0 {
      CountNone(s[..|s| - 1], x, side);
    }
  }

  /** Every sample is below the larger of two pivots or above the smaller. */
  lemma {:induction false} CountCover(s: seq<real>, lo: real, hi: real)
    requires lo < hi
    ensures CountBeyond(s, hi, Below) + CountBeyond(s, lo, Above) >= |s|
  {
    if |s| > 0 {
      CountCover(s[..|s| - 1], lo, hi);
    }
  }

  /** A sequence partitioned around position k (nothing larger before it,
      nothing smaller after it) has its k-th order statistic at k. */
  lemma PartitionedStatistic(s: seq<real>, k: nat)
    requires k < |s|
    requires forall q :: 0 <= q < k ==> s[q] <= s[k]
    requires forall q :: k < q < |s| ==> s[k] <= s[q]
    ensures IsOrderStatistic(s, k, s[k])
  {
    var x := s[k];
    var front, back := s[..k], s[k + 1..];
    assert s == front + [x] + back;
    CountAppend(front + [x], back, x, Below);
    CountAppend(front, [x], x, Below);
    CountAppend(front + [x], back, x, Above);
    CountAppend(front, [x], x, Above);
    CountNone(back, x, Below);
    CountNone(front, x, Above);
    CountNone([x], x, Below);
    CountNone([x], x, Above);
  }

  /** There is only one k-th order statistic. */
  lemma OrderStatisticUnique(s: seq<real>, k: nat, m1: real, m2: real)
    requires IsOrderStatistic(s, k, m1) && IsOrderStatistic(s, k, m2)
    ensures m1 == m2
  {
    if m1 < m2 {
      CountCover(s, m1, m2);
    } else if m2 < m1 {
      CountCover(s, m2, m1);
    }
  }

  /** The order statistic is the sample a full sort puts at position k. */
  lemma OrderStatisticIsSortedEntry(s: seq<real>, sorted: seq<real>, k: nat, m: real)
    requires |sorted| == |s| && multiset(sorted) == multiset(s) && Sorted(sorted)
    requires IsOrderStatistic(s, k, m)
    ensures m == sorted[k]
  {
    PartitionedStatistic(sorted, k);
    SamplesReordered(sorted, s, k, sorted[k]);
    OrderStatisticUnique(s, k, m, sorted[k]);
  }

  /** Reordering the samples keeps every order statistic. */
  lemma SamplesReordered(s: seq<real>, t: seq<real>, k: nat, m: real)
    requires multiset(s) == multiset(t)
    requires IsOrderStatistic(s, k, m)
    ensures IsOrderStatistic(t, k, m)
  {
    assert |s| == |multiset(s)| == |t|;
    assert m in multiset(t);
    CountPermutation(s, t, m, Below);
    CountPermutation(s, t, m, Above);
  }

  /** The first p positions of s hold its p smallest samples in order: each
      is no larger than anything at or after it. */
  ghost predicate SelectedUpTo(s: seq<real>, p: nat)
  {
    forall q, r :: 0 <= q < p && q <= r < |s| ==> s[q] <= s[r]
  }

  /** Swapping a smallest sample of s[p..] into position p extends the
      selected prefix by one. */
  lemma SelectStep(s: seq<real>, p: nat, m: nat)
    requires p <= m < |s|
    requires SelectedUpTo(s, p)
    requires forall q :: p <= q < |s| ==> s[m] <= s[q]
    ensures SelectedUpTo(s[p := s[m]][m := s[p]], p + 1)
  {
    var t := s[p := s[m]][m := s[p]];
    forall q, r | 0 <= q < p + 1 && q <= r < |t|
      ensures t[q] <= t[r]
    {
      if q == p {
        assert t[q] == s[m];
      } else {
        assert t[q] == s[q];
      }
    }
  }

  /** A swap keeps the samples. */
  lemma SwapPermutes(s: seq<real>, p: nat, m: nat)
    requires p < |s| && m < |s|
    ensures multiset(s[p := s[m]][m := s[p]]) == multiset(s)
  {
  }

  /** Rearranges a so that a[nth] holds the value a full sort would put there,
      nothing after it is smaller and nothing before it is larger; the
      contents are a permutation of the old contents. The smallest nth+1
      values are selected one at a time. */
  method NthElement(a: array<real>, nth: nat)
    requires nth < a.Length
    modifies a
    ensures multiset(a[..]) == multiset(old(a[..]))
    ensures forall q :: 0 <= q < nth ==> a[q] <= a[nth]
    ensures forall q :: nth < q < a.Length ==> a[nth] <= a[q]
  {
    for p := 0 to nth + 1
      invariant multiset(a[..]) == multiset(old(a[..]))
      invariant SelectedUpTo(a[..], p)
    {
      var m := MinIndex(a, p);
      ghost var before := a[..];
      a[p], a[m] := a[m], a[p];
      assert a[..] == before[p := before[m]][m := before[p]];
      SelectStep(before, p, m);
      SwapPermutes(before, p, m);
    }
    assert SelectedUpTo(a[..], nth + 1);
  }

  /** The position of a smallest value of a[lo..]. */
  method MinIndex(a: array<real>, lo: nat) returns (m: nat)
    requires lo < a.Length
    ensures lo <= m < a.Length
    ensures forall q :: lo <= q < a.Length ==> a[m] <= a[q]
  {
    m := lo;
    for r := lo + 1 to a.Length
      invariant lo <= m < a.Length
      invariant forall q :: lo <= q < r ==> a[m] <= a[q]
    {
      if a[r] < a[m] {
        m := r;
      }
    }
  }

  /** The reported value of a set of timings: the sample at position |t|/2
      once the samples are partially sorted. */
  method Median(t: seq<real>) returns (m: real)
    requires |t| >= 1
    ensures IsOrderStatistic(t, |t| / 2, m)
  {
    var buf := new real[|t|](q requires 0 <= q < |t| => t[q]);
    assert buf[..] == t;
    NthElement(buf, |t| / 2);
    m := buf[|t| / 2];
    PartitionedStatistic(buf[..], |t| / 2);
    SamplesReordered(buf[..], t, |t| / 2, m);
  }

  /** The duration of each run, from clock readings taken before and after it. */
  function Laps(clock: seq<real>): (t: seq<real>)
    requires |clock| % 2 == 0
    ensures |t| == |clock| / 2
    ensures forall q :: 0 <= q < |t| ==> t[q] == clock[2 * q + 1] - clock[2 * q]
  {
    seq(|clock| / 2, q requires 0 <= q < |clock| / 2 => clock[2 * q + 1] - clock[2 * q])
  }

  /** Runs the product `repeats` times with loop order ord and returns the
      median duration. clock[2r] and clock[2r+1] are the readings before and
      after run r. The product is left in C. */
  method TimeMs(ord: Order, A: array<real>, B: array<real>, C: array<real>, n: nat,
                repeats: int, clock: seq<real>) returns (ms: real)
    requires A.Length == n * n && B.Length == n * n && C.Length == n * n
    requires C != A && C != B
    requires repeats >= 1 && |clock| == 2 * repeats
    modifies C
    ensures IsProduct(C[..], A[..], B[..], n)
    ensures IsOrderStatistic(Laps(clock), repeats / 2, ms)
  {
    var t: seq<real> := [];
    for r := 0 to repeats
      invariant |t| == r
      invariant forall q :: 0 <= q < r ==> t[q] == clock[2 * q + 1] - clock[2 * q]
      invariant r > 0 ==> IsProduct(C[..], A[..], B[..], n)
    {
      var t0 := clock[2 * r];
      Mul(ord, A, B, C, n);
      var t1 := clock[2 * r + 1];
      t := t + [t1 - t0];
    }
    assert t == Laps(clock);
    ms := Median(t);
  }
}
