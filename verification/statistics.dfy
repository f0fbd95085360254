/**
 * The end-of-run statistics of `Simulador`: the list of present durations
 * for one measure, their mean (truncated to whole nanoseconds, as
 * `Duration.dividedBy` does) and maximum, and the count of passengers
 * missing the measure.
 */
module Statistics {
  import opened Wrappers
  import opened Seqs
  import opened Passengers

  /** Which per-passenger duration is collected. */
  datatype Measure =
    | Wait     // calculaTempoEsperaFila
    | Ride     // calculaTempoChegadaAndar
    | Total    // calculaTempoTotalPercurso

  function Measured(p: Passenger, m: Measure): Option<int>
  {
    match m
    case Wait => QueueWait(p)
    case Ride => Transit(p)
    case Total => TotalTime(p)
  }

  /** `obterListaTempo`: the present durations, in passenger order. */
  function Durations(ps: seq<Passenger>, m: Measure): (r: seq<int>)
    ensures |r| <= |ps|
    decreases |ps|
  {
    if |ps| == 0 then []
    else
      var front := Durations(ps[..|ps| - 1], m);
      match Measured(ps[|ps| - 1], m)
      case None => front
      case Some(d) => front + [d]
  }

  /** The number of passengers for whom the measure is absent. */
  function Missing(ps: seq<Passenger>, m: Measure): nat
    decreases |ps|
  {
    if |ps| == 0 then 0
    else Missing(ps[..|ps| - 1], m) + (if Measured(ps[|ps| - 1], m).None? then 1 else 0)
  }

  /** The list has one entry per passenger who has the measure. */
  lemma {:induction false} DurationsCount(ps: seq<Passenger>, m: Measure)
    ensures |Durations(ps, m)| + Missing(ps, m) == |ps|
    decreases |ps|
  {
    if |ps| > 0 {
      DurationsCount(ps[..|ps| - 1], m);
    }
  }

  /** A duration is listed iff some passenger has it. */
  lemma {:induction false} DurationsExactly(ps: seq<Passenger>, m: Measure, d: int)
    ensures d in Durations(ps, m) <==> exists i :: 0 <= i < |ps| && Measured(ps[i], m) == Some(d)
    decreases |ps|
  {
    if |ps| > 0 {
      var front := ps[..|ps| - 1];
      var last := ps[|ps| - 1];
      DurationsExactly(front, m, d);
      assert Durations(ps, m) == Durations(front, m) + (if Measured(last, m).Some? then [Measured(last, m).value] else []);
      if exists i :: 0 <= i < |ps| && Measured(ps[i], m) == Some(d) {
        var i :| 0 <= i < |ps| && Measured(ps[i], m) == Some(d);
        if i < |ps| - 1 {
          assert front[i] == ps[i];
        }
      }
      if exists i :: 0 <= i < |front| && Measured(front[i], m) == Some(d) {
        var i :| 0 <= i < |front| && Measured(front[i], m) == Some(d);
        assert ps[i] == front[i];
      }
    }
  }

  /**
   * The statistics' "did not board" count, total minus the listed wait
   * times, is the number of passengers without a boarding instant.
   */
  lemma NotBoardedCount(ps: seq<Passenger>)
    ensures |ps| - |Durations(ps, Wait)| == Missing(ps, Wait)
    ensures forall i :: 0 <= i < |ps| ==> (Measured(ps[i], Wait).None? <==> ps[i].boarding.None?)
  {
    DurationsCount(ps, Wait);
  }

  /**
   * The positions among the first `n` passengers that have the measure,
   * in increasing order.
   */
  function PresentAmong(ps: seq<Passenger>, m: Measure, n: nat): (r: seq<nat>)
    requires n <= |ps|
    ensures forall j :: 0 <= j < |r| ==> r[j] < n
    ensures forall i :: 0 <= i < n ==> (i in r <==> Measured(ps[i], m).Some?)
    ensures forall a, b :: 0 <= a < b < |r| ==> r[a] < r[b]
    decreases n
  {
    if n == 0 then []
    else
      var front := PresentAmong(ps, m, n - 1);
      if Measured(ps[n - 1], m).Some? then front + [n - 1] else front
  }

  /** The passengers that have the measure, by position, in list order, each once. */
  function Present(ps: seq<Passenger>, m: Measure): (r: seq<nat>)
    ensures forall j :: 0 <= j < |r| ==> r[j] < |ps|
    ensures forall i :: 0 <= i < |ps| ==> (i in r <==> Measured(ps[i], m).Some?)
    ensures forall a, b :: 0 <= a < b < |r| ==> r[a] < r[b]
  {
    PresentAmong(ps, m, |ps|)
  }

  lemma {:induction false} DurationsAmong(ps: seq<Passenger>, m: Measure, n: nat)
    requires n <= |ps|
    ensures |Durations(ps[..n], m)| == |PresentAmong(ps, m, n)|
    ensures forall j :: 0 <= j < |PresentAmong(ps, m, n)| ==>
      Durations(ps[..n], m)[j] == Measured(ps[PresentAmong(ps, m, n)[j]], m).value
    decreases n
  {
    if n > 0 {
      DurationsAmong(ps, m, n - 1);
      var pre := ps[..n];
      assert pre[..n - 1] == ps[..n - 1] && pre[n - 1] == ps[n - 1];
      var front := Durations(ps[..n - 1], m);
      var idx := PresentAmong(ps, m, n - 1);
      if Measured(ps[n - 1], m).Some? {
        assert Durations(pre, m) == front + [Measured(ps[n - 1], m).value];
        assert PresentAmong(ps, m, n) == idx + [n - 1];
      } else {
        assert Durations(pre, m) == front;
        assert PresentAmong(ps, m, n) == idx;
      }
    }
  }

  /**
   * The list holds, in passenger order, the measure of each passenger that
   * has it: its `j`-th entry belongs to the `j`-th such passenger. This fixes
   * both the order and the multiplicities.
   */
  lemma DurationsInOrder(ps: seq<Passenger>, m: Measure)
    ensures |Durations(ps, m)| == |Present(ps, m)|
    ensures forall j :: 0 <= j < |Present(ps, m)| ==>
      Durations(ps, m)[j] == Measured(ps[Present(ps, m)[j]], m).value
  {
    DurationsAmong(ps, m, |ps|);
    assert ps[..|ps|] == ps;
  }

  /** When every passenger has the measure, nothing is missing and the list is their measures, in order. */
  lemma {:induction false} NoneMissing(ps: seq<Passenger>, m: Measure)
    requires forall i :: 0 <= i < |ps| ==> Measured(ps[i], m).Some?
    ensures Missing(ps, m) == 0
    ensures |Durations(ps, m)| == |ps|
    ensures forall i :: 0 <= i < |ps| ==> Durations(ps, m)[i] == Measured(ps[i], m).value
    decreases |ps|
  {
    if |ps| > 0 {
      var front := ps[..|ps| - 1];
      assert forall i :: 0 <= i < |front| ==> front[i] == ps[i];
      NoneMissing(front, m);
      assert Durations(ps, m) == Durations(front, m) + [Measured(ps[|ps| - 1], m).value];
    }
    DurationsCount(ps, m);
  }

  /** Euclidean division of a non-negative number: the quotient brackets it. */
  lemma DivBounds(a: int, b: int)
    requires a >= 0 && b > 0
    ensures 0 <= a / b
    ensures (a / b) * b <= a < (a / b) * b + b
  {
    var q, r := a / b, a % b;
    assert a == q * b + r && 0 <= r < b;
    if q < 0 {
      MulMonotone(q, -1, b);
    }
  }

  /** Division truncating toward zero, as Java's integer and `BigDecimal` `DOWN` division do. */
  function TruncDiv(a: int, b: int): (r: int)
    requires b > 0
    ensures a >= 0 ==> 0 <= r && r * b <= a < r * b + b
    ensures a < 0 ==> r <= 0 && r * b - b < a <= r * b
  {
    if a >= 0 then
      DivBounds(a, b);
      a / b
    else
      DivBounds(-a, b);
      var q := (-a) / b;
      assert (-q) * b == -(q * b);
      -q
  }

  const NanosPerSecond := 1_000_000_000

  /** Scaling by a positive factor keeps the sign. */
  lemma ScaleSign(x: int, k: nat)
    requires k > 0
    ensures x >= 0 <==> x * k >= 0
  {
    if x >= 0 {
      MulMonotone(0, x, k);
    } else {
      MulMonotone(x, -1, k);
    }
  }

  /**
   * `calculaTempoMedio`: absent for an empty list, otherwise the sum
   * divided by the count, in nanoseconds, truncated toward zero.
   */
  function MeanNanos(ds: seq<int>): (r: Option<int>)
    ensures r.None? <==> |ds| == 0
    ensures r.Some? && Sum(ds) >= 0 ==>
      0 <= r.value && r.value * |ds| <= Sum(ds) * NanosPerSecond < r.value * |ds| + |ds|
    ensures r.Some? && Sum(ds) < 0 ==>
      r.value <= 0 && r.value * |ds| - |ds| < Sum(ds) * NanosPerSecond <= r.value * |ds|
  {
    if |ds| == 0 then None
    else
      ScaleSign(Sum(ds), NanosPerSecond);
      Some(TruncDiv(Sum(ds) * NanosPerSecond, |ds|))
  }

  /** `stream().max(Duration::compareTo)`: absent for an empty list. */
  function Longest(ds: seq<int>): (r: Option<int>)
    ensures r.None? <==> |ds| == 0
    ensures r.Some? ==> r.value in ds && forall j :: 0 <= j < |ds| ==> ds[j] <= r.value
  {
    if |ds| == 0 then None else Some(Max(ds))
  }

  /**
   * The mean of non-negative durations is non-negative and at most the
   * largest duration.
   */
  lemma MeanBetween(ds: seq<int>)
    requires |ds| > 0
    requires forall j :: 0 <= j < |ds| ==> 0 <= ds[j]
    ensures 0 <= MeanNanos(ds).value <= Max(ds) * NanosPerSecond
  {
    SumAtMost(ds, Max(ds));
    SumNonNegative(ds);
    ScaledMeanAtMost(Sum(ds), |ds|, Max(ds), NanosPerSecond);
  }

  /** If `s <= n * top` then `s * k / n`, truncated, is at most `top * k`. */
  lemma ScaledMeanAtMost(s: int, n: int, top: int, k: nat)
    requires n > 0 && 0 <= s <= n * top
    ensures 0 <= TruncDiv(s * k, n) <= top * k
  {
    MulMonotone(s, n * top, k);
    assert (n * top) * k == (top * k) * n;
    var mean := TruncDiv(s * k, n);
    MulCancel(mean, top * k, n);
  }

  lemma MulMonotone(a: int, b: int, k: nat)
    requires a <= b
    ensures a * k <= b * k
  {
    assert b * k - a * k == (b - a) * k;
  }

  lemma MulCancel(a: int, b: int, n: int)
    requires n > 0 && a * n <= b * n
    ensures a <= b
  {
    if a > b {
      MulMonotone(b + 1, a, n);
    }
  }

  lemma {:induction false} SumAtMost(ds: seq<int>, hi: int)
    requires forall j :: 0 <= j < |ds| ==> ds[j] <= hi
    ensures Sum(ds) <= |ds| * hi
    decreases |ds|
  {
    if |ds| > 0 {
      SumAtMost(ds[..|ds| - 1], hi);
      assert |ds| * hi == (|ds| - 1) * hi + hi;
    }
  }

  lemma {:induction false} SumNonNegative(ds: seq<int>)
    requires forall j :: 0 <= j < |ds| ==> 0 <= ds[j]
    ensures 0 <= Sum(ds)
    decreases |ds|
  {
    if |ds| > 0 {
      SumNonNegative(ds[..|ds| - 1]);
    }
  }
}
