/** Byte sampling of malloc-family allocations (tools/mem_trace.c, lines 78-85,
    223-234 and 348-349): what the chosen weights say about the bytes allocated. */
module ByteSampling {
  import opened Arithmetic

  function Choose(interval: nat, toSample: int, size: nat): (int, nat)
  {
    if size >= interval then (toSample, size)
    else if toSample - size <= 0 then (interval, interval)
    else (toSample - size, 0)
  }

  /** One thread's countdown. The initialising thread starts it at the interval,
      every other thread at 0. */
  class Sampler {
    const interval: nat
    var toSample: int

    constructor (interval: nat, toSample: int)
      requires interval >= 1
      ensures this.interval == interval && this.toSample == toSample
    {
      this.interval, this.toSample := interval, toSample;
    }

    /** The weight record_alloc gives an allocation; 0 means it is not recorded. */
    method Weigh(size: nat) returns (weight: nat)
      requires interval >= 1
      modifies this`toSample
      ensures (toSample, weight) == Choose(interval, old(toSample), size)
    {
      weight := 0;
      if size >= interval {
        weight := size;
      } else {
        toSample := toSample - size;
        if toSample <= 0 {
          weight := interval;
          toSample := interval;
        }
      }
    }
  }

  /** The countdown after a run of allocations. */
  function Countdown(interval: nat, start: int, sizes: seq<nat>): int
  {
    if sizes == [] then start
    else Choose(interval, Countdown(interval, start, sizes[..|sizes| - 1]), sizes[|sizes| - 1]).0
  }

  function WeightAt(interval: nat, start: int, sizes: seq<nat>, k: nat): nat
    requires k < |sizes|
  {
    Choose(interval, Countdown(interval, start, sizes[..k]), sizes[k]).1
  }

  /** Bytes of the small allocations (below the interval), and the weight given to them. */
  function SmallBytes(interval: nat, sizes: seq<nat>): nat
  {
    if sizes == [] then 0
    else SmallBytes(interval, sizes[..|sizes| - 1])
         + if sizes[|sizes| - 1] < interval then sizes[|sizes| - 1] else 0
  }

  function SmallWeight(interval: nat, start: int, sizes: seq<nat>): nat
  {
    if sizes == [] then 0
    else
      var n := |sizes| - 1;
      SmallWeight(interval, start, sizes[..n])
      + if sizes[n] < interval then Choose(interval, Countdown(interval, start, sizes[..n]), sizes[n]).1 else 0
  }

  function LargeBytes(interval: nat, sizes: seq<nat>): nat
  {
    if sizes == [] then 0
    else LargeBytes(interval, sizes[..|sizes| - 1])
         + if sizes[|sizes| - 1] >= interval then sizes[|sizes| - 1] else 0
  }

  function LargeWeight(interval: nat, start: int, sizes: seq<nat>): nat
  {
    if sizes == [] then 0
    else
      var n := |sizes| - 1;
      LargeWeight(interval, start, sizes[..n])
      + if sizes[n] >= interval then Choose(interval, Countdown(interval, start, sizes[..n]), sizes[n]).1 else 0
  }

  /** How many small allocations were recorded. */
  function Samples(interval: nat, start: int, sizes: seq<nat>): nat
  {
    if sizes == [] then 0
    else
      var n := |sizes| - 1;
      Samples(interval, start, sizes[..n])
      + if sizes[n] < interval && Choose(interval, Countdown(interval, start, sizes[..n]), sizes[n]).1 > 0 then 1 else 0
  }

  lemma MulNext(c: nat, n: nat)
    ensures c * (n + 1) == c * n + c
  {}

  lemma SampleStep(interval: nat, start: int, sizes: seq<nat>)
    requires interval >= 1 && sizes != []
    ensures var p := sizes[..|sizes| - 1];
      var more := Samples(interval, start, sizes) - Samples(interval, start, p);
      && (more == 0 || more == 1)
      && SmallWeight(interval, start, sizes)
         == SmallWeight(interval, start, p) + if more == 1 then interval else 0
  {
    hide Countdown;
  }

  lemma {:induction false} WeightIsSamples(interval: nat, start: int, sizes: seq<nat>)
    requires interval >= 1
    ensures SmallWeight(interval, start, sizes) == interval * Samples(interval, start, sizes)
  {
    if sizes != [] {
      var p := sizes[..|sizes| - 1];
      WeightIsSamples(interval, start, p);
      SampleStep(interval, start, sizes);
      MulNext(interval, Samples(interval, start, p));
      hide SmallWeight, Samples;
    }
  }

  /** The books of the countdown. Each sample stands for at least one interval of bytes,
      less what the countdown lacked at the start, and for at most two intervals less two
      bytes. */
  lemma {:induction false} CountdownBooks(interval: nat, start: int, sizes: seq<nat>)
    requires interval >= 1 && 0 <= start <= interval
    ensures var c, b := Countdown(interval, start, sizes), SmallBytes(interval, sizes);
      var w := SmallWeight(interval, start, sizes);
      && ((b == w == 0 && c == start) || 0 < c <= interval)
      && w + (start - c) <= b
      && b + c <= Max(start, 1) + 2 * w - 2 * Samples(interval, start, sizes)
  {
    if sizes != [] {
      CountdownBooks(interval, start, sizes[..|sizes| - 1]);
    }
  }

  /** The sampling error of one thread, over any run: with B the bytes of small
      allocations, W the weight chosen for them and n the number of samples, W <= B and
      B <= 2W - 2n + S - 1 for the thread whose countdown starts at the interval S. A later
      thread starts at 0 and takes its first small allocation at once: W - S <= B <= 2W - 2n,
      so it may over-count by S. */
  lemma SamplingError(interval: nat, sizes: seq<nat>)
    requires interval >= 1
    ensures var b, w := SmallBytes(interval, sizes), SmallWeight(interval, interval, sizes);
      var n := Samples(interval, interval, sizes);
      w == interval * n && w <= b <= 2 * w - 2 * n + interval - 1
    ensures var b, w, n := SmallBytes(interval, sizes), SmallWeight(interval, 0, sizes), Samples(interval, 0, sizes);
      w == interval * n && w - interval <= b <= 2 * w - 2 * n
  {
    CountdownBooks(interval, interval, sizes);
    CountdownBooks(interval, 0, sizes);
    WeightIsSamples(interval, interval, sizes);
    WeightIsSamples(interval, 0, sizes);
  }

  /** Allocations of at least the interval are all recorded, at their exact size. */
  lemma {:induction false} LargeExact(interval: nat, start: int, sizes: seq<nat>)
    ensures LargeWeight(interval, start, sizes) == LargeBytes(interval, sizes)
    ensures forall k :: 0 <= k < |sizes| && sizes[k] >= interval ==> WeightAt(interval, start, sizes, k) == sizes[k]
  {
    if sizes != [] {
      LargeExact(interval, start, sizes[..|sizes| - 1]);
    }
  }

  /** n allocations of one byte less than the interval. */
  function Run(interval: nat, n: nat): (sizes: seq<nat>)
    requires interval >= 1
    ensures |sizes| == n
  {
    if n == 0 then [] else Run(interval, n - 1) + [interval - 1]
  }

  lemma RunStep(interval: nat, n: nat, start: int)
    requires interval >= 2 && n > 0
    ensures var p, sizes := Run(interval, n - 1), Run(interval, n);
      var c := Countdown(interval, start, p);
      && SmallBytes(interval, sizes) == SmallBytes(interval, p) + interval - 1
      && Countdown(interval, start, sizes) == (if c < interval then interval else c - (interval - 1))
      && Samples(interval, start, sizes) == Samples(interval, start, p) + if c < interval then 1 else 0
  {
    var p, sizes := Run(interval, n - 1), Run(interval, n);
    assert sizes[..n - 1] == p && sizes[n - 1] == interval - 1;
    hide Run;
  }

  lemma {:induction false} RunBytes(interval: nat, n: nat)
    requires interval >= 2
    ensures SmallBytes(interval, Run(interval, n)) == (interval - 1) * n
  {
    if n > 0 {
      RunBytes(interval, n - 1);
      RunStep(interval, n, 0);
      MulNext(interval - 1, n - 1);
      hide SmallBytes, Countdown, Samples, Run;
    }
  }

  /** They are sampled every other time: the first thread skips the first, a later one
      takes it. */
  lemma {:induction false} RunBooks(interval: nat, n: nat)
    requires interval >= 2
    ensures Countdown(interval, interval, Run(interval, n)) == if n % 2 == 0 then interval else 1
    ensures Samples(interval, interval, Run(interval, n)) == n / 2
    ensures Countdown(interval, 0, Run(interval, n)) == if n == 0 then 0 else if n % 2 == 1 then interval else 1
    ensures Samples(interval, 0, Run(interval, n)) == (n + 1) / 2
  {
    if n > 0 {
      RunBooks(interval, n - 1);
      RunStep(interval, n, interval);
      RunStep(interval, n, 0);
      hide SmallBytes, Countdown, Samples, Run;
    }
  }

  lemma TwiceAndOne(s: nat, n: nat)
    requires s >= 1
    ensures (s - 1) * (2 * n) == 2 * (s * n) - 2 * n
    ensures (s - 1) * (2 * n + 1) == 2 * (s * n) - 2 * n + s - 1
  {}

  lemma {:induction false} LowerBoundsReached(interval: nat)
    requires interval >= 2
    ensures SmallWeight(interval, 0, [0]) - interval == SmallBytes(interval, [0])
    ensures exists sizes :: SmallWeight(interval, interval, sizes) == SmallBytes(interval, sizes) == interval
  {
    var one, sizes := [interval - 1], [interval - 1, 1];
    assert sizes[..1] == one && one[..0] == [] && [0][..0] == [];
    assert Countdown(interval, interval, one) == 1;
    assert SmallBytes(interval, one) == interval - 1 && SmallWeight(interval, interval, one) == 0;
    assert SmallBytes(interval, sizes) == SmallBytes(interval, one) + 1;
    assert SmallWeight(interval, interval, sizes) == SmallWeight(interval, interval, one) + interval;
  }

  /** All four bounds are reached: the lower ones over one whole interval, and by a later
      thread's malloc(0), which is given a whole interval; the upper ones for every number
      n of samples. */
  lemma {:induction false} SamplingErrorIsTight(interval: nat, n: nat)
    requires interval >= 2
    ensures SmallWeight(interval, 0, [0]) - interval == SmallBytes(interval, [0])
    ensures exists sizes :: SmallWeight(interval, interval, sizes) == SmallBytes(interval, sizes) == interval
    ensures var sizes := Run(interval, 2 * n + 1);
      Samples(interval, interval, sizes) == n
      && SmallBytes(interval, sizes) == 2 * SmallWeight(interval, interval, sizes) - 2 * n + interval - 1
    ensures var sizes := Run(interval, 2 * n);
      Samples(interval, 0, sizes) == n && SmallBytes(interval, sizes) == 2 * SmallWeight(interval, 0, sizes) - 2 * n
  {
    LowerBoundsReached(interval);
    hide SmallBytes, SmallWeight, Samples, Countdown, Run;
    RunBooks(interval, 2 * n + 1);
    RunBooks(interval, 2 * n);
    RunBytes(interval, 2 * n + 1);
    RunBytes(interval, 2 * n);
    WeightIsSamples(interval, interval, Run(interval, 2 * n + 1));
    WeightIsSamples(interval, 0, Run(interval, 2 * n));
    TwiceAndOne(interval, n);
  }
}
