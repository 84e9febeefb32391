/** The benchmark sweep: for every requested size the operands are filled,
    the product is run once untimed with the i,k,j order, and then each of
    the six orders is timed; one result row is emitted per (size, order),
    sizes outermost, orders in the fixed order of AllOrders. Rows are kept as
    values; their CSV text formatting is not modelled. */
module Benchmark {
  import opened MatrixKernel
  import opened Timing
  import opened Cmdline

  /** The throughput column: a finite rate, or the IEEE-754 outcomes of
      dividing by a zero duration (infinity for work over zero time, NaN for
      no work over zero time). */
  datatype Throughput = Finite(gflops: real) | Infinite | NotANumber

  /** 2n^3 floating-point operations over ms milliseconds, in units of 10^9
      operations per second. */
  function Gflops(n: nat, ms: real): (r: Throughput)
    ensures r.Finite? <==> ms != 0.0
    ensures r.Finite? ==> r.gflops * ms * 1000000.0 == 2.0 * (n * n * n) as real
    ensures r == Infinite <==> ms == 0.0 && n > 0
  {
    if ms == 0.0 then (if n == 0 then NotANumber else Infinite)
    else
      var work := 2.0 * (n * n * n) as real;
      var seconds := ms / 1000.0;
      var perSecond := work / seconds;
      var g := perSecond / 1000000000.0;
      assert g * ms * 1000000.0 == work by {
        assert g * 1000000000.0 == perSecond;
        assert perSecond * seconds == work;
        assert ms * 1000000.0 == seconds * 1000000000.0;
        calc {
          g * ms * 1000000.0;
          g * (seconds * 1000000000.0);
          (g * 1000000000.0) * seconds;
          perSecond * seconds;
        }
      }
      Finite(g)
  }

  /** A longer run of the same size has a lower throughput. */
  lemma SlowerMeansFewerGflops(n: nat, ms1: real, ms2: real)
    requires n > 0 && 0.0 < ms1 < ms2
    ensures Gflops(n, ms1).gflops > Gflops(n, ms2).gflops
  {
    var work := 2.0 * (n * n * n) as real;
    MulAtLeast(n, n);
    MulAtLeast(n * n, n);
    assert n * n * n >= 1;
    var g1, g2 := Gflops(n, ms1).gflops, Gflops(n, ms2).gflops;
    assert g1 * ms1 * 1000000.0 == work && g2 * ms2 * 1000000.0 == work;
    assert g2 * ms2 > 0.0;
    assert g2 > 0.0;
    assert g2 * ms2 > g2 * ms1;
    assert g1 * ms1 > g2 * ms1;
  }

  /** One emitted row: the loop order, the size, the median time in
      milliseconds and the throughput derived from it. */
  datatype Sample = Sample(order: Order, n: nat, ms: real, gflops: Throughput)

  /** clock[s][o] holds the before/after readings of the timed runs of order
      AllOrders[o] at size sizes[s]. */
  ghost predicate ClockFits(sizes: seq<nat>, repeats: int, clock: seq<seq<seq<real>>>)
  {
    |clock| == |sizes| &&
    forall s :: 0 <= s < |sizes| ==>
      |clock[s]| == 6 && forall o :: 0 <= o < 6 ==> |clock[s][o]| == 2 * repeats
  }

  /** Row r of a sweep reports the median of its own runs. */
  ghost predicate RowFits(row: Sample, n: nat, o: nat, repeats: int, laps: seq<real>)
    requires o < 6 && repeats >= 1 && |laps| == 2 * repeats
  {
    row.order == AllOrders[o] && row.n == n &&
    IsOrderStatistic(Laps(laps), repeats / 2, row.ms) &&
    row.gflops == Gflops(n, row.ms)
  }

  /** Times the six orders at one size, in the order of AllOrders, and
      returns one row per order. */
  method TimeOrders(A: array<real>, B: array<real>, C: array<real>, n: nat,
                    repeats: int, clock: seq<seq<real>>) returns (rows: seq<Sample>)
    requires A.Length == n * n && B.Length == n * n && C.Length == n * n
    requires C != A && C != B
    requires repeats >= 1
    requires |clock| == 6 && forall o :: 0 <= o < 6 ==> |clock[o]| == 2 * repeats
    modifies C
    ensures |rows| == 6
    ensures forall o :: 0 <= o < 6 ==> RowFits(rows[o], n, o, repeats, clock[o])
  {
    rows := [];
    for o := 0 to 6
      invariant |rows| == o
      invariant forall o' :: 0 <= o' < o ==> RowFits(rows[o'], n, o', repeats, clock[o'])
    {
      var ms := TimeMs(AllOrders[o], A, B, C, n, repeats, clock[o]);
      rows := rows + [Sample(AllOrders[o], n, ms, Gflops(n, ms))];
    }
  }

  /** Runs the whole sweep and returns the emitted rows: six per size,
      sizes in the given order, orders in the order of AllOrders. */
  method Sweep(cfg: Config, clock: seq<seq<seq<real>>>) returns (rows: seq<Sample>)
    requires |cfg.sizes| == 0 || cfg.repeats >= 1
    requires ClockFits(cfg.sizes, cfg.repeats, clock)
    ensures |rows| == 6 * |cfg.sizes|
    ensures forall s, o :: 0 <= s < |cfg.sizes| && 0 <= o < 6 ==>
      RowFits(rows[6 * s + o], cfg.sizes[s], o, cfg.repeats, clock[s][o])
  {
    rows := [];
    for s := 0 to |cfg.sizes|
      invariant |rows| == 6 * s
      invariant forall s', o :: 0 <= s' < s && 0 <= o < 6 ==>
        RowFits(rows[6 * s' + o], cfg.sizes[s'], o, cfg.repeats, clock[s'][o])
    {
      var n := cfg.sizes[s];
      var A := new real[n * n];
      var B := new real[n * n];
      var C := new real[n * n];
      FillMatrices(A, B, n);
      Mul(IKJ, A, B, C, n);
      var block := TimeOrders(A, B, C, n, cfg.repeats, clock[s]);
      ghost var before := rows;
      rows := rows + block;
      forall s', o | 0 <= s' <= s && 0 <= o < 6
        ensures RowFits(rows[6 * s' + o], cfg.sizes[s'], o, cfg.repeats, clock[s'][o])
      {
        if s' < s {
          assert rows[6 * s' + o] == before[6 * s' + o];
        } else {
          assert rows[6 * s' + o] == block[o];
        }
      }
    }
  }
}
