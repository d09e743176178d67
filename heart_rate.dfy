/** Data shaping of the heart-rate slide (initSlide1 in slides_logic.js): the
    samples before a fixed date are dropped, the rest thinned out by position,
    and the two axes' domains computed from what remains. */
module HeartRate {
  import opened Options
  import opened JsNumber
  import opened Filters

  /** `new Date("2021-09-07")`: midnight UTC, in milliseconds since the epoch. */
  const CUTOFF: int := 1630972800000

  /** Every tenth heart-rate sample is drawn. */
  const HEART_STEP: nat := 10

  /** Every second resting-heart-rate sample is drawn. */
  const RESTING_STEP: nat := 2

  /** One CSV row: the creation date (milliseconds since the epoch) and `+d.value`. */
  datatype Sample = Sample(time: int, bpm: Num)

  /** A closed range of timestamps, as a `[from, to]` domain. */
  datatype Interval = Interval(lo: int, hi: int)

  /** `d => d.creationDate >= cutoffDate`. */
  function Recent(x: Sample): bool { x.time >= CUTOFF }

  /** `data.filter(d => d.creationDate >= cutoffDate)`. */
  function AfterCutoff(s: seq<Sample>): (r: seq<Sample>)
    ensures |r| <= |s|
    ensures forall x :: x in r <==> x in s && x.time >= CUTOFF
  {
    Filter(s, Recent)
  }

  lemma MulSucc(k: int, n: nat)
    ensures (k + 1) * n == k * n + n
  {
  }

  lemma MulMono(j: nat, k: nat, n: nat)
    requires j <= k
    ensures j * n <= k * n
  {
  }

  /** `.filter((_, i) => i % n === 0)`: the samples at positions 0, n, 2n, ...;
      as many as |s| / n rounded up. */
  function EveryNth(s: seq<Sample>, n: nat): (r: seq<Sample>)
    requires n > 0
    ensures (|r| - 1) * n < |s| <= |r| * n
    decreases |s|
  {
    if s == [] then []
    else if |s| <= n then [s[0]]
    else
      var rest := EveryNth(s[n..], n);
      MulSucc(|rest|, n);
      MulSucc(|rest| - 1, n);
      [s[0]] + rest
  }

  /** Position j of the thinned series is position j * n of the original, and
      every such position is kept. */
  lemma {:induction false} EveryNthAt(s: seq<Sample>, n: nat, j: nat)
    requires n > 0
    ensures j < |EveryNth(s, n)| <==> j * n < |s|
    ensures j < |EveryNth(s, n)| ==> EveryNth(s, n)[j] == s[j * n]
  {
    var r := EveryNth(s, n);
    if j < |r| {
      MulMono(j, |r| - 1, n);
    } else {
      MulMono(|r|, j, n);
    }
    if j > 0 && j < |r| {
      MulSucc(j - 1, n);
      MulMono(1, j, n);
      EveryNthAt(s[n..], n, j - 1);
      assert r[j] == EveryNth(s[n..], n)[j - 1];
    }
  }

  /** The series drawn for one file: the cutoff, then every n-th survivor. */
  function Downsample(s: seq<Sample>, n: nat): seq<Sample>
    requires n > 0
  {
    EveryNth(AfterCutoff(s), n)
  }

  /** The downsampled series is an ordered selection of the m samples that
      pass the cutoff: ceil(m / n) of them, the j-th being survivor j * n. */
  lemma DownsampleSpec(s: seq<Sample>, n: nat)
    requires n > 0
    ensures (|Downsample(s, n)| - 1) * n < |AfterCutoff(s)| <= |Downsample(s, n)| * n
    ensures forall j :: 0 <= j < |Downsample(s, n)| ==> j * n < |AfterCutoff(s)| && Downsample(s, n)[j] == AfterCutoff(s)[j * n]
    ensures forall x :: x in Downsample(s, n) ==> x in s && x.time >= CUTOFF
  {
    var f := AfterCutoff(s);
    var d := Downsample(s, n);
    forall j | 0 <= j < |d|
      ensures j * n < |f| && d[j] == f[j * n]
    {
      EveryNthAt(f, n, j);
    }
    EveryNthSubset(f, n);
  }

  /** Thinning only drops samples. */
  lemma {:induction false} EveryNthSubset(s: seq<Sample>, n: nat)
    requires n > 0
    ensures forall x :: x in EveryNth(s, n) ==> x in s
    decreases |s|
  {
    if |s| > n {
      EveryNthSubset(s[n..], n);
      assert EveryNth(s, n) == [s[0]] + EveryNth(s[n..], n);
      assert forall x :: x in s[n..] ==> x in s;
    }
  }

  lemma DivExact(i: nat, n: nat)
    requires n > 0 && i % n == 0
    ensures (i / n) * n == i
  {
  }

  /** A survivor at a position divisible by n is drawn, at position i / n. */
  lemma DownsampleKeepsMultiples(s: seq<Sample>, n: nat, i: nat)
    requires n > 0 && i < |AfterCutoff(s)| && i % n == 0
    ensures i / n < |Downsample(s, n)| && Downsample(s, n)[i / n] == AfterCutoff(s)[i]
  {
    DivExact(i, n);
    EveryNthAt(AfterCutoff(s), n, i / n);
  }

  /** `heartData.filter(...).filter((_, i) => i % 10 === 0)`. */
  function Heart(raw: seq<Sample>): seq<Sample>
  {
    Downsample(raw, HEART_STEP)
  }

  /** `restingData.filter(...).filter((_, i) => i % 2 === 0)`. */
  function Resting(raw: seq<Sample>): seq<Sample>
  {
    Downsample(raw, RESTING_STEP)
  }

  /** `heart.concat(resting)`: what both axes' domains are computed from. */
  function Combined(heartRaw: seq<Sample>, restingRaw: seq<Sample>): seq<Sample>
  {
    Heart(heartRaw) + Resting(restingRaw)
  }

  /** Every drawn sample is a raw sample of its series dated on or after the
      cutoff, and the heart-rate samples are drawn before the resting ones. */
  lemma CombinedDrawn(heartRaw: seq<Sample>, restingRaw: seq<Sample>)
    ensures |Combined(heartRaw, restingRaw)| == |Heart(heartRaw)| + |Resting(restingRaw)|
    ensures forall i :: 0 <= i < |Heart(heartRaw)| ==>
      var x := Combined(heartRaw, restingRaw)[i]; x in heartRaw && x.time >= CUTOFF
    ensures forall i :: |Heart(heartRaw)| <= i < |Combined(heartRaw, restingRaw)| ==>
      var x := Combined(heartRaw, restingRaw)[i]; x in restingRaw && x.time >= CUTOFF
  {
    DownsampleSpec(heartRaw, HEART_STEP);
    DownsampleSpec(restingRaw, RESTING_STEP);
  }

  /** `xExtent`: the time extent of both drawn series, the full x-domain. */
  function XExtent(heartRaw: seq<Sample>, restingRaw: seq<Sample>): Option<Interval>
  {
    TimeExtent(Combined(heartRaw, restingRaw))
  }

  /** `d3.extent(all, d => d.creationDate)`: undefined for no samples. */
  function TimeExtent(s: seq<Sample>): (e: Option<Interval>)
    ensures e.None? <==> s == []
    ensures e.Some? ==> e.value.lo <= e.value.hi
    ensures e.Some? ==> forall i :: 0 <= i < |s| ==> e.value.lo <= s[i].time <= e.value.hi
    ensures e.Some? ==> exists i :: 0 <= i < |s| && s[i].time == e.value.lo
    ensures e.Some? ==> exists i :: 0 <= i < |s| && s[i].time == e.value.hi
  {
    if s == [] then None
    else
      match TimeExtent(s[1..])
      case None => Some(Interval(s[0].time, s[0].time))
      case Some(rest) =>
        var lo := if s[0].time <= rest.lo then s[0].time else rest.lo;
        var hi := if s[0].time >= rest.hi then s[0].time else rest.hi;
        assert forall i :: 1 <= i < |s| ==> s[i].time == s[1..][i - 1].time;
        Some(Interval(lo, hi))
  }

  /** `d3.extent(all, d => d.bpm)`: the least and greatest finite rate; NaN
      rates are skipped, undefined when none is finite. */
  function BpmExtent(s: seq<Sample>): (e: Option<(real, real)>)
    ensures e.None? <==> forall i :: 0 <= i < |s| ==> !s[i].bpm.Finite?
    ensures e.Some? ==> e.value.0 <= e.value.1
    ensures e.Some? ==> forall i :: 0 <= i < |s| && s[i].bpm.Finite? ==> e.value.0 <= s[i].bpm.value <= e.value.1
    ensures e.Some? ==> exists i :: 0 <= i < |s| && s[i].bpm.Finite? && s[i].bpm.value == e.value.0
    ensures e.Some? ==> exists i :: 0 <= i < |s| && s[i].bpm.Finite? && s[i].bpm.value == e.value.1
  {
    if s == [] then None
    else
      assert forall i :: 1 <= i < |s| ==> s[i] == s[1..][i - 1];
      match BpmExtent(s[1..])
      case None =>
        if s[0].bpm.Finite? then Some((s[0].bpm.value, s[0].bpm.value)) else None
      case Some(rest) =>
        if !s[0].bpm.Finite? then Some(rest)
        else
          var v := s[0].bpm.value;
          Some((if v <= rest.0 then v else rest.0, if v >= rest.1 then v else rest.1))
  }

  /** `Math.ceil`. */
  function Ceil(x: real): (c: int)
    ensures x <= c as real < x + 1.0
  {
    -((-x).Floor)
  }

  /** The y-domain `[Math.floor(min - 5), Math.ceil(max + 5)]`: undefined (NaN)
      when there is no finite rate. */
  function YDomain(s: seq<Sample>): (d: Option<(int, int)>)
    ensures d.None? <==> BpmExtent(s).None?
  {
    match BpmExtent(s)
    case None => None
    case Some((lo, hi)) => Some(((lo - 5.0).Floor, Ceil(hi + 5.0)))
  }

  /** Every finite rate lies at least 5 inside the y-domain, and the domain's
      ends are the nearest whole numbers beyond the padded extremes. */
  lemma YDomainPads(s: seq<Sample>)
    requires YDomain(s).Some?
    ensures var (lo, hi) := YDomain(s).value;
      forall i :: 0 <= i < |s| && s[i].bpm.Finite? ==> lo as real + 5.0 <= s[i].bpm.value <= hi as real - 5.0
    ensures var (lo, hi) := YDomain(s).value;
      exists i :: 0 <= i < |s| && s[i].bpm.Finite? && s[i].bpm.value - 6.0 < lo as real
    ensures var (lo, hi) := YDomain(s).value;
      exists i :: 0 <= i < |s| && s[i].bpm.Finite? && hi as real < s[i].bpm.value + 6.0
  {
  }
}
