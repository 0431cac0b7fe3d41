/** The round-trip estimator of tcp.c, in milliseconds. */
module Rtt {
  import opened Basics

  function Abs(x: int): nat { if x < 0 then -x else x }

  datatype Est = Est(srtt: int, sdev: int)

  /** One sample. A mean of 0 or less counts as "no sample yet". */
  function Sample(e: Est, d: int): Est {
    var s := if e.srtt > 0 then Div(2 * d + 8 * e.srtt + 5, 10) else d;
    if d > s then Est(s, Div(75 * e.sdev + 25 * (d - s) + 50, 100))
    else Est(s, Div(75 * e.sdev + 25 * (s - d) + 50, 100))
  }

  /** The two quotients of a sample. */
  lemma SampleIs(e: Est, d: int)
    requires d >= 0 && e.sdev >= 0
    ensures var f := Sample(e, d); var x := Abs(d - f.srtt);
      && (if e.srtt > 0 then 0 <= 2 * d + 8 * e.srtt + 5 - 10 * f.srtt < 10 else f.srtt == d)
      && 0 <= 75 * e.sdev + 25 * x + 50 - 100 * f.sdev < 100
  {
    var f := Sample(e, d);
    DivIs(2 * d + 8 * e.srtt + 5, 10);
    DivIs(75 * e.sdev + 25 * Abs(d - f.srtt) + 50, 100);
  }

  /** The delay set_timeout asks for. */
  function Timeout(e: Est): (r: int)
    ensures 500 <= r <= 30000
    ensures 500 <= e.srtt + 4 * e.sdev <= 30000 ==> r == e.srtt + 4 * e.sdev
  {
    var m := e.srtt + 4 * e.sdev;
    if m < 500 then 500 else if m > 30000 then 30000 else m
  }

  function Run(e: Est, samples: seq<int>): Est
    decreases |samples|
  {
    if samples == [] then e else Run(Sample(e, samples[0]), samples[1..])
  }

  /** One sample keeps the mean within the range of the samples and the deviation within its width. */
  lemma SampleInRange(e: Est, d: int, lo: int, hi: int)
    requires 0 <= lo <= d <= hi && 0 <= e.sdev <= hi - lo && (e.srtt <= 0 || lo <= e.srtt <= hi)
    ensures lo <= Sample(e, d).srtt <= hi && 0 <= Sample(e, d).sdev <= hi - lo
  {
    SampleIs(e, d);
  }

  /** No drift: after any nonempty sequence of samples in [lo, hi] from the initial zeros, the mean
      is in [lo, hi] and the deviation in [0, hi - lo]. */
  lemma {:induction false} RunInRange(e: Est, samples: seq<int>, lo: int, hi: int)
    requires 0 <= lo <= hi && 0 <= e.sdev <= hi - lo && (e.srtt <= 0 || lo <= e.srtt <= hi)
    requires forall i :: 0 <= i < |samples| ==> lo <= samples[i] <= hi
    ensures 0 <= Run(e, samples).sdev <= hi - lo
    ensures samples != [] ==> lo <= Run(e, samples).srtt <= hi
    decreases |samples|
  {
    if samples != [] {
      SampleInRange(e, samples[0], lo, hi);
      RunInRange(Sample(e, samples[0]), samples[1..], lo, hi);
    }
  }

  function Repeat(e: Est, d: int, n: nat): Est
    decreases n
  {
    if n == 0 then e else Repeat(Sample(e, d), d, n - 1)
  }

  /** Under a constant sample the error of the mean falls strictly while it exceeds 2, and never
      leaves [-2, 2] again. */
  lemma ErrorFalls(e: Est, d: int)
    requires d >= 0 && e.srtt >= 0
    ensures Sample(e, d).srtt >= 0
    ensures var x, x' := Abs(e.srtt - d), Abs(Sample(e, d).srtt - d);
      if x > 2 then x' < x else x' <= 2
  {
    SampleIs(e.(sdev := 0), d);
    SampleMean(e, d);
  }

  lemma SampleMean(e: Est, d: int)
    ensures Sample(e, d).srtt == Sample(e.(sdev := 0), d).srtt
  {
  }

  /** Once the error is at most 2, the deviation falls strictly while it exceeds 4. */
  lemma DeviationFalls(e: Est, d: int)
    requires d >= 0 && e.srtt >= 0 && e.sdev >= 0 && Abs(e.srtt - d) <= 2
    ensures var v, v' := e.sdev, Sample(e, d).sdev;
      0 <= v' && if v > 4 then v' < v else v' <= 4
  {
    ErrorFalls(e, d);
    SampleIs(e, d);
  }

  lemma {:induction false} DeviationSettles(e: Est, d: int, n: nat)
    requires d >= 0 && e.srtt >= 0 && e.sdev >= 0 && Abs(e.srtt - d) <= 2 && e.sdev <= n + 4
    ensures var f := Repeat(e, d, n); Abs(f.srtt - d) <= 2 && 0 <= f.srtt && 0 <= f.sdev <= 4
    decreases n
  {
    if n > 0 {
      ErrorFalls(e, d);
      DeviationFalls(e, d);
      DeviationSettles(Sample(e, d), d, n - 1);
    }
  }

  lemma {:induction false} MeanSettles(e: Est, d: int, n: nat, b: nat)
    requires d >= 0 && e.srtt >= 0 && 0 <= e.sdev <= b && Abs(e.srtt - d) <= n + 2 && n + 2 <= b
    ensures var f := Repeat(e, d, n); Abs(f.srtt - d) <= 2 && 0 <= f.srtt && 0 <= f.sdev <= b
    decreases n
  {
    if n > 0 {
      ErrorFalls(e, d);
      SampleIs(e, d);
      MeanSettles(Sample(e, d), d, n - 1, b);
    }
  }

  lemma {:induction false} RepeatAdd(e: Est, d: int, n: nat, m: nat)
    ensures Repeat(e, d, n + m) == Repeat(Repeat(e, d, n), d, m)
    decreases n
  {
    if n > 0 {
      RepeatAdd(Sample(e, d), d, n - 1, m);
    }
  }

  /** However the estimator starts, a constant round-trip time d brings the timeout, before it is
      clamped to 500..30000, down to at most d + 18, for good. */
  lemma TimeoutSettles(e: Est, d: int, n: nat)
    requires d >= 0 && e.srtt >= 0 && e.sdev >= 0
    requires n >= 2 * Abs(e.srtt - d) + e.sdev + 2
    ensures var f := Repeat(e, d, n); f.srtt + 4 * f.sdev <= d + 18
    ensures d <= 482 ==> Timeout(Repeat(e, d, n)) == 500
  {
    var k := Abs(e.srtt - d);
    BothSettle(e, d, k, n - k);
    RepeatAdd(e, d, k, n - k);
  }

  lemma BothSettle(e: Est, d: int, k: nat, m: nat)
    requires d >= 0 && e.srtt >= 0 && e.sdev >= 0 && k == Abs(e.srtt - d) && m >= k + e.sdev + 2
    ensures var f := Repeat(Repeat(e, d, k), d, m); Abs(f.srtt - d) <= 2 && 0 <= f.sdev <= 4
  {
    MeanSettles(e, d, k, k + 2 + e.sdev);
    DeviationSettles(Repeat(e, d, k), d, m);
  }
}
