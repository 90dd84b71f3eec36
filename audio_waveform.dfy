/** The peak reduction of src/audio_waveform.rs: a decoded sample buffer is cut
    into `numPeaks` equal windows and each window is summarised by its largest
    absolute sample, the values a waveform display draws. Samples are exact
    integers here, so `abs` and `max` are exact. */
module Waveform {

  function Abs(x: int): nat
  {
    if x < 0 then -x else x
  }

  /** `f32::max` on numbers. */
  function Max(a: nat, b: nat): nat
  {
    if a >= b then a else b
  }

  /** `iter().map(|s| s.abs()).fold(acc, |a, b| a.max(b))`: a left fold that
      ends at the larger of `acc` and the largest magnitude in `xs`. */
  function FoldMaxAbs(acc: nat, xs: seq<int>): (r: nat)
    ensures r >= acc
    ensures forall k :: 0 <= k < |xs| ==> Abs(xs[k]) <= r
    ensures r == acc || exists k :: 0 <= k < |xs| && Abs(xs[k]) == r
    decreases |xs|
  {
    if |xs| == 0 then acc
    else
      var r := FoldMaxAbs(Max(acc, Abs(xs[0])), xs[1..]);
      assert forall k :: 1 <= k < |xs| ==> xs[k] == xs[1..][k - 1];
      assert r != Max(acc, Abs(xs[0])) ==> exists k :: 1 <= k < |xs| && Abs(xs[k]) == r by {
        if r != Max(acc, Abs(xs[0])) {
          var k :| 0 <= k < |xs| - 1 && Abs(xs[1..][k]) == r;
          assert Abs(xs[k + 1]) == r;
        }
      }
      r
  }

  /** The peak of one window: the largest `|s[k]|` over `start <= k < end`,
      and 0 for an empty window. */
  function WindowPeak(s: seq<int>, start: nat, end: nat): (p: nat)
    requires start <= end <= |s|
    ensures forall k :: start <= k < end ==> Abs(s[k]) <= p
    ensures start < end ==> exists k :: start <= k < end && Abs(s[k]) == p
    ensures start == end ==> p == 0
  {
    var w := s[start..end];
    var p := FoldMaxAbs(0, w);
    assert forall k :: start <= k < end ==> s[k] == w[k - start];
    assert start < end ==> exists k :: start <= k < end && Abs(s[k]) == p by {
      if start < end {
        if p == 0 {
          assert Abs(s[start]) <= p;
          assert Abs(s[start]) == p;
        } else {
          var j :| 0 <= j < |w| && Abs(w[j]) == p;
          assert Abs(s[start + j]) == p;
        }
      }
    }
    p
  }

  /** Window `i` of `numPeaks` over `len` samples is `[i*spp, min((i+1)*spp, len))`
      with `spp = len / numPeaks`. It starts where window `i - 1` ends, so the
      windows are laid end to end from sample 0, and it stays inside the
      buffer. */
  function WindowStart(len: nat, numPeaks: nat, i: nat): (s: nat)
    requires numPeaks > 0
    ensures i == 0 ==> s == 0
    ensures 0 < i <= numPeaks ==> s == WindowEnd(len, numPeaks, i - 1)
    ensures i <= numPeaks ==> s <= len
  {
    i * (len / numPeaks)
  }

  /** The end of window `i` never passes the buffer, and for each of the
      `numPeaks` windows the `min` with `len` never bites: the window is a
      full `spp` samples and ends at or before `numPeaks * spp`. */
  function WindowEnd(len: nat, numPeaks: nat, i: nat): (e: nat)
    requires numPeaks > 0
    ensures e <= len
    ensures i < numPeaks ==> e == (i + 1) * (len / numPeaks) <= numPeaks * (len / numPeaks)
  {
    WindowArithmetic(len, numPeaks, i);
    var e := (i + 1) * (len / numPeaks);
    if e < len then e else len
  }

  lemma WindowArithmetic(len: nat, numPeaks: nat, i: nat)
    requires numPeaks > 0
    ensures i < numPeaks ==> (i + 1) * (len / numPeaks) <= numPeaks * (len / numPeaks) <= len
  {
    if i < numPeaks {
      var spp := len / numPeaks;
      assert len == numPeaks * spp + len % numPeaks;
      MulMonotone(i + 1, numPeaks, spp);
    }
  }

  /** Every window lies inside the buffer and has `spp` samples. */
  lemma WindowBounds(len: nat, numPeaks: nat, i: nat)
    requires i < numPeaks
    ensures WindowStart(len, numPeaks, i) <= WindowEnd(len, numPeaks, i) <= len
    ensures WindowEnd(len, numPeaks, i) - WindowStart(len, numPeaks, i) == len / numPeaks
  {
    MulMonotone(i, i + 1, len / numPeaks);
  }

  lemma MulMonotone(a: nat, b: nat, c: nat)
    requires a <= b
    ensures a * c <= b * c
  {
  }

  /** What `get_peaks` returns, one entry per window. */
  function Peaks(samples: seq<int>, numPeaks: nat): (r: seq<nat>)
    ensures |r| == if |samples| == 0 || numPeaks == 0 then 0 else numPeaks
  {
    if |samples| == 0 || numPeaks == 0 then []
    else
      seq(numPeaks, i requires 0 <= i < numPeaks =>
        WindowBounds(|samples|, numPeaks, i);
        WindowPeak(samples, WindowStart(|samples|, numPeaks, i), WindowEnd(|samples|, numPeaks, i)))
  }

  lemma PeakAt(samples: seq<int>, numPeaks: nat, i: nat)
    requires |samples| > 0 && i < numPeaks
    ensures WindowStart(|samples|, numPeaks, i) <= WindowEnd(|samples|, numPeaks, i) <= |samples|
    ensures Peaks(samples, numPeaks)[i]
            == WindowPeak(samples, WindowStart(|samples|, numPeaks, i), WindowEnd(|samples|, numPeaks, i))
  {
    WindowBounds(|samples|, numPeaks, i);
  }

  lemma PrefixStep(s: seq<nat>, i: nat)
    requires i < |s|
    ensures s[..i + 1] == s[..i] + [s[i]]
  {
  }

  datatype AudioWaveform = AudioWaveform(samples: seq<int>, sampleRate: nat, channels: nat)
  {
    /** `get_peaks`: the loop that pushes one peak per window. It takes the
        waveform by value, so the samples are left as they were. */
    method GetPeaks(numPeaks: nat) returns (peaks: seq<nat>)
      ensures peaks == Peaks(samples, numPeaks)
      ensures |samples| == 0 || numPeaks == 0 ==> peaks == []
      ensures |samples| > 0 && numPeaks > 0 ==> |peaks| == numPeaks
    {
      if |samples| == 0 || numPeaks == 0 {
        return [];
      }
      var samplesPerPeak := |samples| / numPeaks;
      peaks := [];
      for i := 0 to numPeaks
        invariant peaks == Peaks(samples, numPeaks)[..i]
      {
        var start := i * samplesPerPeak;
        var end := (i + 1) * samplesPerPeak;
        if end > |samples| {
          end := |samples|;
        }
        assert start == WindowStart(|samples|, numPeaks, i) && end == WindowEnd(|samples|, numPeaks, i);
        WindowBounds(|samples|, numPeaks, i);
        var peak := WindowPeak(samples, start, end);
        PeakAt(samples, numPeaks, i);
        PrefixStep(Peaks(samples, numPeaks), i);
        peaks := peaks + [peak];
      }
    }
  }

  /** Peak `i` is the largest magnitude in window `i`, and 0 when the window is
      empty. */
  lemma PeakIsWindowMaximum(samples: seq<int>, numPeaks: nat, i: nat)
    requires |samples| > 0 && i < numPeaks
    ensures var spp := |samples| / numPeaks;
            var p := Peaks(samples, numPeaks)[i];
            && (forall k :: i * spp <= k < (i + 1) * spp ==> k < |samples| && Abs(samples[k]) <= p)
            && (spp > 0 ==> exists k :: i * spp <= k < (i + 1) * spp && k < |samples| && Abs(samples[k]) == p)
            && (spp == 0 ==> p == 0)
  {
    var spp := |samples| / numPeaks;
    WindowBounds(|samples|, numPeaks, i);
    var a, b := WindowStart(|samples|, numPeaks, i), WindowEnd(|samples|, numPeaks, i);
    assert a == i * spp && b == (i + 1) * spp;
    assert b - a == spp;
    assert Peaks(samples, numPeaks)[i] == WindowPeak(samples, a, b);
  }

  /** More windows than samples: every window is empty and every peak is 0. */
  lemma FewSamplesGiveZeroPeaks(samples: seq<int>, numPeaks: nat)
    requires 0 < |samples| < numPeaks
    ensures forall i :: 0 <= i < numPeaks ==> Peaks(samples, numPeaks)[i] == 0
  {
    assert |samples| / numPeaks == 0;
    forall i | 0 <= i < numPeaks ensures Peaks(samples, numPeaks)[i] == 0 {
      assert WindowStart(|samples|, numPeaks, i) == 0 == WindowEnd(|samples|, numPeaks, i);
    }
  }

  /** The samples past `numPeaks * spp`, the remainder of the division, never
      reach a peak: two buffers of the same length that agree before that
      point have the same peaks. */
  lemma TrailingSamplesIgnored(s: seq<int>, t: seq<int>, numPeaks: nat)
    requires |s| == |t| && numPeaks > 0
    requires var used := numPeaks * (|s| / numPeaks); used <= |s| && s[..used] == t[..used]
    ensures Peaks(s, numPeaks) == Peaks(t, numPeaks)
  {
    if |s| > 0 {
      var used := numPeaks * (|s| / numPeaks);
      forall i | 0 <= i < numPeaks
        ensures Peaks(s, numPeaks)[i] == Peaks(t, numPeaks)[i]
      {
        PeakAt(s, numPeaks, i);
        PeakAt(t, numPeaks, i);
        SliceOfAgreeingPrefix(s, t, used, WindowStart(|s|, numPeaks, i), WindowEnd(|s|, numPeaks, i));
      }
    }
  }

  lemma SliceOfAgreeingPrefix(s: seq<int>, t: seq<int>, used: nat, a: nat, b: nat)
    requires a <= b <= used <= |s| && used <= |t| && s[..used] == t[..used]
    ensures s[a..b] == t[a..b]
  {
    assert s[a..b] == s[..used][a..b] && t[a..b] == t[..used][a..b];
  }

  /** No peak is larger than the largest magnitude in the whole buffer. */
  lemma PeaksBoundedByBuffer(samples: seq<int>, numPeaks: nat, i: nat)
    requires i < |Peaks(samples, numPeaks)|
    ensures Peaks(samples, numPeaks)[i] <= WindowPeak(samples, 0, |samples|)
  {
    WindowBounds(|samples|, numPeaks, i);
    var p := Peaks(samples, numPeaks)[i];
    var a, b := WindowStart(|samples|, numPeaks, i), WindowEnd(|samples|, numPeaks, i);
    if a < b {
      var k :| a <= k < b && Abs(samples[k]) == p;
    }
  }
}
