/**
 * Peak detection over an absorbance series.  A single forward scan keeps a
 * counter of rises (readings strictly above their predecessor).  A drop
 * (a reading strictly below its predecessor) met while the counter exceeds
 * the threshold reports the reading before the drop as a peak and resets
 * the counter; level steps and drops that report nothing leave the counter
 * as it is, so it counts the rises since the last reported peak.
 */
module Peaks {

  /** A detected peak: the wavelength and the absorbance read there. */
  datatype Peak = Peak(wavelength: int, absorbance: real)

  /** A drop reports a peak only after more rises than this. */
  const RiseThreshold: nat := 5

  /** The reading at i is strictly above the one before it (never at 0). */
  predicate RisesAt(d: seq<real>, i: nat)
    requires i < |d|
  {
    i > 0 && d[i] > d[i - 1]
  }

  /** The reading at i is strictly below the one before it (never at 0). */
  predicate DropsAt(d: seq<real>, i: nat)
    requires i < |d|
  {
    i > 0 && d[i] < d[i - 1]
  }

  /** How many positions in [lo, hi) are rises; position 0 never is. */
  function Rises(d: seq<real>, lo: nat, hi: nat): (n: nat)
    requires lo <= hi <= |d|
    ensures n <= hi - lo
    ensures lo == 0 < hi ==> n <= hi - 1
    decreases hi - lo
  {
    if lo == hi then 0
    else Rises(d, lo, hi - 1) + (if RisesAt(d, hi - 1) then 1 else 0)
  }

  predicate StrictlyIncreasing(s: seq<nat>)
  {
    forall a, b :: 0 <= a < b < |s| ==> s[a] < s[b]
  }

  /** Where the counter was last reset: just after the last drop that reported, or 0. */
  function Since(drops: seq<nat>): nat
  {
    if drops == [] then 0 else drops[|drops| - 1] + 1
  }

  /**
   * The detector after the first n readings: the positions of the drops
   * that reported a peak (the peak is the reading just before each) and
   * the counter.
   */
  datatype ScanState = ScanState(drops: seq<nat>, count: nat)

  /** The scan over the first n readings; reporting drops lie in [1, n). */
  function Scan(d: seq<real>, n: nat): (st: ScanState)
    requires n <= |d|
    ensures forall k :: 0 <= k < |st.drops| ==> 1 <= st.drops[k] < n
  {
    if n == 0 then ScanState([], 0)
    else
      var prev := Scan(d, n - 1);
      var i := n - 1;
      var count := if RisesAt(d, i) then prev.count + 1 else prev.count;
      if DropsAt(d, i) && count > RiseThreshold then ScanState(prev.drops + [i], 0)
      else ScanState(prev.drops, count)
  }

  /**
   * What the scan keeps: reporting drops in increasing order, and a
   * counter equal to the number of rises since the last report.
   */
  lemma {:induction false} ScanInvariant(d: seq<real>, n: nat)
    requires n <= |d|
    ensures StrictlyIncreasing(Scan(d, n).drops)
    ensures Since(Scan(d, n).drops) <= n && Scan(d, n).count == Rises(d, Since(Scan(d, n).drops), n)
  {
    if n > 0 {
      ScanInvariant(d, n - 1);
    }
  }

  /** The peaks reported at the given drop positions. */
  function PeaksAt(w: seq<int>, d: seq<real>, drops: seq<nat>): (peaks: seq<Peak>)
    requires |w| == |d|
    requires forall k :: 0 <= k < |drops| ==> 1 <= drops[k] < |d|
  {
    seq(|drops|, k requires 0 <= k < |drops| => Peak(w[drops[k] - 1], d[drops[k] - 1]))
  }

  /** Reporting one more drop appends its peak. */
  lemma PeaksAtAppend(w: seq<int>, d: seq<real>, drops: seq<nat>, i: nat)
    requires |w| == |d| && 1 <= i < |d|
    requires forall k :: 0 <= k < |drops| ==> 1 <= drops[k] < |d|
    ensures PeaksAt(w, d, drops + [i]) == PeaksAt(w, d, drops) + [Peak(w[i - 1], d[i - 1])]
  {
  }

  /** The peaks a scan over the whole series reports. */
  function DetectedPeaks(w: seq<int>, d: seq<real>): seq<Peak>
    requires |w| == |d|
  {
    PeaksAt(w, d, Scan(d, |d|).drops)
  }

  /** `s` without its element at index `i`, the rest in order. */
  function RemoveAt<T>(s: seq<T>, i: nat): (r: seq<T>)
    requires i < |s|
    ensures |r| == |s| - 1
    ensures forall j :: 0 <= j < i ==> r[j] == s[j]
    ensures forall j :: i <= j < |r| ==> r[j] == s[j + 1]
    ensures multiset(r) + multiset{s[i]} == multiset(s)
  {
    assert s == s[..i] + [s[i]] + s[i + 1..];
    s[..i] + s[i + 1..]
  }

  /**
   * Scanning further only appends: the drops of the first m readings are
   * a prefix of those of the first n, and the rest lie at m or later.
   */
  lemma {:induction false} ScanPrefix(d: seq<real>, m: nat, n: nat)
    requires m <= n <= |d|
    ensures |Scan(d, m).drops| <= |Scan(d, n).drops|
    ensures Scan(d, m).drops == Scan(d, n).drops[..|Scan(d, m).drops|]
    ensures forall k :: |Scan(d, m).drops| <= k < |Scan(d, n).drops| ==> Scan(d, n).drops[k] >= m
    decreases n - m
  {
    if m < n {
      ScanPrefix(d, m, n - 1);
      var a, b, c := Scan(d, m).drops, Scan(d, n - 1).drops, Scan(d, n).drops;
      ScanStep(d, n - 1);
      if c != b {
        assert c == b + [n - 1];
        assert c[..|a|] == b[..|a|];
        assert forall k :: |a| <= k < |b| ==> c[k] == b[k];
      }
    }
  }

  /** One step of the scan either reports the drop it reads or reports nothing. */
  lemma ScanStep(d: seq<real>, n: nat)
    requires n < |d|
    ensures Scan(d, n + 1).drops == Scan(d, n).drops || Scan(d, n + 1).drops == Scan(d, n).drops + [n]
  {
  }

  /** The drops reported before the k-th one are the first k. */
  lemma DropsBefore(d: seq<real>, k: nat)
    requires k < |Scan(d, |d|).drops|
    ensures Scan(d, Scan(d, |d|).drops[k]).drops == Scan(d, |d|).drops[..k]
  {
    var drops := Scan(d, |d|).drops;
    var i := drops[k];
    ScanInvariant(d, |d|);
    ScanPrefix(d, i, |d|);
    var inner := Scan(d, i).drops;
    assert forall t :: 0 <= t < |inner| ==> drops[t] == inner[t] < i;
    assert forall t :: |inner| <= t < |drops| ==> drops[t] >= i;
    SplitPoint(drops, |inner|, k);
  }

  /** In an increasing list, the elements below s[k] are exactly the first k. */
  lemma SplitPoint(s: seq<nat>, j: nat, k: nat)
    requires StrictlyIncreasing(s) && j <= |s| && k < |s|
    requires forall t :: 0 <= t < j ==> s[t] < s[k]
    requires forall t :: j <= t < |s| ==> s[t] >= s[k]
    ensures j == k
  {
    var x := s[k];
    if j < |s| {
      assert s[j] >= s[k];
    }
  }

  /** The step of the scan that reads position i. */
  lemma StepAt(d: seq<real>, i: nat)
    requires 1 <= i < |d|
    ensures i in Scan(d, i + 1).drops <==>
      DropsAt(d, i) && Rises(d, Since(Scan(d, i).drops), i) > RiseThreshold
  {
    var prev := Scan(d, i).drops;
    ScanInvariant(d, i);
    assert forall t :: 0 <= t < |prev| ==> prev[t] < i;
    assert i !in prev;
    if DropsAt(d, i) {
      assert !RisesAt(d, i);
    }
  }

  /**
   * The reporting rule: the drop at i reports the peak at i - 1 exactly
   * when the reading falls there and more than RiseThreshold rises have
   * occurred since the last report (or since the start).
   */
  lemma EmissionRule(d: seq<real>, n: nat, i: nat)
    requires 1 <= i < n <= |d|
    ensures i in Scan(d, n).drops <==>
      DropsAt(d, i) && Rises(d, Since(Scan(d, i).drops), i) > RiseThreshold
  {
    StepAt(d, i);
    ScanPrefix(d, i + 1, n);
    InExtension(Scan(d, i + 1).drops, Scan(d, n).drops, i);
  }

  /** Extending a list only with elements above x does not change whether x is in it. */
  lemma InExtension(upto: seq<nat>, all: seq<nat>, x: nat)
    requires |upto| <= |all| && upto == all[..|upto|]
    requires forall t :: |upto| <= t < |all| ==> all[t] > x
    ensures x in all <==> x in upto
  {
    if x in all {
      var t :| 0 <= t < |all| && all[t] == x;
      assert upto[t] == x;
    }
    if x in upto {
      var t :| 0 <= t < |upto| && upto[t] == x;
      assert all[t] == x;
    }
  }

  /** Right after a drop the counter is at most the threshold. */
  lemma CountAfterDrop(d: seq<real>, p: nat)
    requires 1 <= p < |d|
    ensures DropsAt(d, p) ==> Scan(d, p + 1).count <= RiseThreshold
  {
  }

  /**
   * The shape of each reported peak, at position p = i - 1 for the k-th
   * reporting drop i: it is strictly above its right neighbour and not
   * below its left one; the first lies at position 6 or later and each
   * further one at least 7 positions after the one before.
   */
  lemma PeakShape(d: seq<real>, k: nat)
    requires k < |Scan(d, |d|).drops|
    ensures var drops := Scan(d, |d|).drops;
      var p := drops[k] - 1;
      && p >= (if k == 0 then 6 else drops[k - 1] - 1 + 7)
      && p + 1 < |d| && d[p] > d[p + 1]
      && p >= 1 && d[p - 1] <= d[p]
  {
    var drops := Scan(d, |d|).drops;
    var i := drops[k];
    EmissionRule(d, |d|, i);
    DropsBefore(d, k);
    var since := Since(Scan(d, i).drops);
    assert since == if k == 0 then 0 else drops[k - 1] + 1;
    assert Rises(d, since, i) > RiseThreshold;
    assert i >= since + RiseThreshold + 1;
    assert k == 0 ==> i >= RiseThreshold + 2;
    CountAfterDrop(d, i - 1);
    ScanInvariant(d, i);
    assert Scan(d, i).count > RiseThreshold;
  }

  /** Positions further along the wavelength axis have larger wavelengths. */
  lemma AxisIncreases(w: seq<int>, start: int, step: int, x: nat, y: nat)
    requires step > 0 && x < y < |w|
    requires forall i :: 0 <= i < |w| ==> w[i] == start + i * step
    ensures w[x] < w[y]
  {
    assert w[y] - w[x] == (y - x) * step;
  }

  /** The reported peaks come in the order of the series, at distinct positions. */
  lemma PeakWavelengthsIncrease(w: seq<int>, d: seq<real>, start: int, step: int)
    requires |w| == |d| && step > 0
    requires forall i :: 0 <= i < |w| ==> w[i] == start + i * step
    ensures var peaks := DetectedPeaks(w, d);
      forall a, b :: 0 <= a < b < |peaks| ==> peaks[a].wavelength < peaks[b].wavelength
  {
    var drops := Scan(d, |d|).drops;
    var peaks := DetectedPeaks(w, d);
    ScanInvariant(d, |d|);
    forall a, b | 0 <= a < b < |peaks|
      ensures peaks[a].wavelength < peaks[b].wavelength
    {
      assert peaks[a].wavelength == w[drops[a] - 1];
      assert peaks[b].wavelength == w[drops[b] - 1];
      AxisIncreases(w, start, step, drops[a] - 1, drops[b] - 1);
    }
  }

  /**
   * A series that never falls (or has fewer than two readings) has no
   * peaks.
   */
  lemma NoPeaksWithoutDrop(w: seq<int>, d: seq<real>)
    requires |w| == |d|
    requires forall i :: 1 <= i < |d| ==> d[i - 1] <= d[i]
    ensures DetectedPeaks(w, d) == []
  {
    NoReportWithoutDrop(d, |d|);
  }

  /** Over a stretch that never falls the scan reports nothing. */
  lemma {:induction false} NoReportWithoutDrop(d: seq<real>, n: nat)
    requires n <= |d|
    requires forall j :: 1 <= j < n ==> d[j - 1] <= d[j]
    ensures Scan(d, n).drops == []
  {
    if n > 0 {
      NoReportWithoutDrop(d, n - 1);
      assert !DropsAt(d, n - 1);
    }
  }

  /** Rises over a climb: every position in (0, hi) that rises counts once. */
  lemma {:induction false} RisesOfClimb(d: seq<real>, hi: nat)
    requires 1 <= hi <= |d|
    requires forall j :: 1 <= j < hi ==> d[j - 1] < d[j]
    ensures Rises(d, 0, hi) == hi - 1
  {
    if hi > 1 {
      RisesOfClimb(d, hi - 1);
    }
  }

  /**
   * The first drop after a stretch that never falls reports a peak exactly
   * when that stretch holds more than RiseThreshold rises; in particular a
   * climb of RiseThreshold steps followed by a drop reports nothing, one of
   * RiseThreshold + 1 steps reports one peak.
   */
  lemma FirstDropAfterClimb(d: seq<real>, r: nat)
    requires r + 1 < |d|
    requires forall j :: 1 <= j <= r ==> d[j - 1] <= d[j]
    requires d[r + 1] < d[r]
    ensures Scan(d, r + 2).drops == (if Rises(d, 0, r + 1) > RiseThreshold then [r + 1] else [])
    ensures (forall j :: 1 <= j <= r ==> d[j - 1] < d[j]) ==>
      (Scan(d, r + 2).drops == [r + 1] <==> r > RiseThreshold)
  {
    NoReportWithoutDrop(d, r + 1);
    ScanInvariant(d, r + 1);
    if forall j :: 1 <= j <= r ==> d[j - 1] < d[j] {
      RisesOfClimb(d, r + 1);
    }
  }

  /** Deleting a peak keeps the others in order. */
  lemma RemoveKeepsOrder(peaks: seq<Peak>, i: nat)
    requires i < |peaks|
    requires forall a, b :: 0 <= a < b < |peaks| ==> peaks[a].wavelength < peaks[b].wavelength
    ensures var rest := RemoveAt(peaks, i);
      forall a, b :: 0 <= a < b < |rest| ==> rest[a].wavelength < rest[b].wavelength
  {
    var rest := RemoveAt(peaks, i);
    forall a, b | 0 <= a < b < |rest|
      ensures rest[a].wavelength < rest[b].wavelength
    {
      var a', b' := if a < i then a else a + 1, if b < i then b else b + 1;
      assert rest[a] == peaks[a'] && rest[b] == peaks[b'];
    }
  }

  /**
   * The viewer's state the peak operations work on: the loaded wavelength
   * and absorbance series and the current list of peaks.
   */
  class Session {
    var wavelengths: seq<int>
    var absorbances: seq<real>
    var peaks: seq<Peak>

    ghost predicate Valid()
      reads this
    {
      |wavelengths| == |absorbances|
    }

    /** A freshly loaded spectrum: its two series and no peaks. */
    constructor (wavelengths: seq<int>, absorbances: seq<real>)
      requires |wavelengths| == |absorbances|
      ensures Valid()
      ensures this.wavelengths == wavelengths && this.absorbances == absorbances && peaks == []
    {
      this.wavelengths := wavelengths;
      this.absorbances := absorbances;
      peaks := [];
    }

    /** Replaces the peak list by the peaks the scan reports. */
    method FindPeaks()
      requires Valid()
      modifies this`peaks
      ensures Valid()
      ensures peaks == DetectedPeaks(wavelengths, absorbances)
    {
      var w, d := wavelengths, absorbances;
      peaks := [];
      var count: nat := 0;
      ghost var drops: seq<nat> := [];
      var i := 0;
      while i < |d|
        invariant 0 <= i <= |d|
        invariant Scan(d, i) == ScanState(drops, count)
        invariant peaks == PeaksAt(w, d, drops)
      {
        var elem := d[i];
        var prev := if i == 0 then elem else d[i - 1];
        var diff := elem - prev;
        if diff > 0.0 {
          count := count + 1;
        }
        if diff < 0.0 && count > RiseThreshold {
          PeaksAtAppend(w, d, drops, i);
          peaks := peaks + [Peak(w[i - 1], d[i - 1])];
          drops := drops + [i];
          count := 0;
        }
        assert Scan(d, i + 1) == ScanState(drops, count);
        i := i + 1;
      }
    }

    /**
     * Deletes the selected peak; `selection` holds the selected list
     * positions, of which the first counts.  With nothing selected the
     * list stays as it is.
     */
    method RemovePeak(selection: seq<nat>)
      requires Valid()
      requires |selection| > 0 ==> selection[0] < |peaks|
      modifies this`peaks
      ensures Valid()
      ensures peaks == if |selection| == 0 then old(peaks) else RemoveAt(old(peaks), selection[0])
    {
      if |selection| > 0 {
        var selected := selection[0];
        peaks := peaks[..selected] + peaks[selected + 1..];
      }
    }
  }
}
