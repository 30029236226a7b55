/** `detect_rises` / `detect_single_rise`: searches each fish for rises, that
    is a peak frequency followed by a decay to a lower, level end frequency.
    All windows are measured in detection steps: `dpm` steps make a minute. */
module RiseDetection {
  import opened Wrappers
  import opened Trajectory

  /** `s` seconds as a number of detection steps (`dpm / 60 * s`). */
  function Seconds(dpm: real, s: real): real
  {
    dpm / 60.0 * s
  }

  predicate Increasing(nn: seq<nat>)
  {
    forall k, m :: 0 <= k < m < |nn| ==> nn[k] < nn[m]
  }

  /** `nn` lists, in increasing order, indices at which `fish` holds a value. */
  predicate ValidRun(fish: Fish, nn: seq<nat>)
  {
    Increasing(nn) && forall k :: 0 <= k < |nn| ==> nn[k] < |fish| && fish[nn[k]].Some?
  }

  /** The frequency at a valid index. */
  function At(fish: Fish, t: nat): real
    requires t < |fish| && fish[t].Some?
  {
    fish[t].value
  }

  /** The frequencies at a list of valid indices (`fish[idxs]`). */
  function Freqs(fish: Fish, idxs: seq<nat>): (vs: seq<real>)
    requires forall k :: 0 <= k < |idxs| ==> idxs[k] < |fish| && fish[idxs[k]].Some?
    ensures |vs| == |idxs| && forall k :: 0 <= k < |idxs| ==> vs[k] == At(fish, idxs[k])
  {
    seq(|idxs|, k requires 0 <= k < |idxs| => At(fish, idxs[k]))
  }

  /** Number of entries of `nn` that are at most `bound`; with `nn` sorted these
      are the positions at which a peak may be searched (`loop_idxs`). */
  function CountAtMost(nn: seq<nat>, bound: real): (c: nat)
    ensures c <= |nn|
    ensures |nn| > 0 && nn[|nn| - 1] as real > bound ==> c < |nn|
  {
    if nn == [] then 0
    else CountAtMost(nn[..|nn| - 1], bound) + (if nn[|nn| - 1] as real <= bound then 1 else 0)
  }

  /** The last position whose entry is below `bound` (`help_idx`); position `lo`
      is known to qualify. */
  function LastBelow(nn: seq<nat>, bound: real, lo: nat): (h: nat)
    requires lo < |nn| && (nn[lo] as real) < bound
    ensures lo <= h < |nn| && (nn[h] as real) < bound
    ensures forall m :: h < m < |nn| ==> (nn[m] as real) >= bound
  {
    if (nn[|nn| - 1] as real) < bound then |nn| - 1
    else LastBelow(nn[..|nn| - 1], bound, lo)
  }

  /** Python's `nn[a:b]` for `a <= b + 1`: empty when the bounds cross. */
  function Slice(nn: seq<nat>, a: nat, b: nat): (r: seq<nat>)
    requires b < |nn|
    ensures r == if a <= b then nn[a..b] else []
  {
    if a <= b then nn[a..b] else []
  }

  /** The window after the candidate peak at position `p`: the valid indices
      strictly after it and before the last one within 10 s (`idxs`). */
  function PeakWindow(nn: seq<nat>, p: nat, dpm: real): seq<nat>
    requires p < |nn| && dpm > 0.0
  {
    Slice(nn, p + 1, LastBelow(nn, nn[p] as real + Seconds(dpm, 10.0), p))
  }

  /** The window after a candidate end at position `e`: valid indices strictly
      after it and before the last one within 30 s (`idxs2`). */
  function EndWindow(nn: seq<nat>, e: nat, dpm: real): seq<nat>
    requires e < |nn| && dpm > 0.0
  {
    Slice(nn, e + 1, LastBelow(nn, nn[e] as real + Seconds(dpm, 30.0), e))
  }

  /** `v - median(window) < 0.05`; the median of an empty window is NaN, for
      which the comparison is false. */
  predicate LevelledOff(v: real, window: seq<real>, median: seq<real> -> real)
  {
    window != [] && v - median(window) < 0.05
  }

  /** The frequency threshold a rise lasting `d` steps must exceed: one
      `riseFTh` plus one more for every complete 30 s. */
  function RiseThreshold(riseFTh: real, dpm: real, d: nat): real
    requires dpm > 0.0
  {
    riseFTh + ((d as real) / Seconds(dpm, 30.0)).Floor as real * riseFTh
  }

  /** Entries `x` of `nn` with `lo < x <= hi`, in order (`nnans_befor_start`). */
  function Between(nn: seq<nat>, lo: real, hi: real): (r: seq<nat>)
    ensures forall x :: x in r <==> x in nn && lo < x as real <= hi
    ensures Increasing(nn) ==> Increasing(r)
  {
    if nn == [] then []
    else
      var rest := Between(nn[..|nn| - 1], lo, hi);
      var x := nn[|nn| - 1];
      assert forall y :: y in nn <==> y in nn[..|nn| - 1] || y == x by {
        assert nn == nn[..|nn| - 1] + [x];
      }
      if lo < x as real <= hi then
        assert Increasing(nn) ==> forall y :: y in rest ==> y < x by {
          if Increasing(nn) {
            forall y | y in rest ensures y < x {
              var k :| 0 <= k < |nn| - 1 && nn[..|nn| - 1][k] == y;
            }
          }
        }
        assert Increasing(nn) ==> Increasing(rest + [x]) by {
          if Increasing(nn) {
            forall k, m | 0 <= k < m < |rest| + 1 ensures (rest + [x])[k] < (rest + [x])[m] {
              assert rest[k] in rest;
            }
          }
        }
        rest + [x]
      else rest
  }

  /** The gap before entry `k` of `nnbs`; the first one is measured from the
      left edge `origin` of the window (`diff_nnans_before`). */
  function Gap(nnbs: seq<nat>, origin: real, k: nat): real
    requires k < |nnbs|
  {
    if k == 0 then nnbs[0] as real - origin else (nnbs[k] as int - nnbs[k - 1] as int) as real
  }

  /** The last position below `n` whose gap is at least `w3`. */
  function LastGap(nnbs: seq<nat>, origin: real, w3: real, n: nat): (g: Option<nat>)
    requires n <= |nnbs|
    ensures g.Some? ==> g.value < n && Gap(nnbs, origin, g.value) >= w3
    ensures g.Some? ==> forall m :: g.value < m < n ==> Gap(nnbs, origin, m) < w3
    ensures g.None? ==> forall m :: 0 <= m < n ==> Gap(nnbs, origin, m) < w3
  {
    if n == 0 then None
    else if Gap(nnbs, origin, n - 1) >= w3 then Some(n - 1)
    else LastGap(nnbs, origin, w3, n - 1)
  }

  /** The reported start of a rise whose peak is at index `peak`: the first
      valid sample after the last gap of at least 3 s within the 10 s before
      the peak, or the peak itself when there is no such gap. */
  function ShiftedStart(nn: seq<nat>, peak: nat, dpm: real): (s: nat)
    ensures s == peak || s in nn
  {
    var origin := peak as real - Seconds(dpm, 10.0);
    var nnbs := Between(nn, origin, peak as real);
    var g := LastGap(nnbs, origin, Seconds(dpm, 3.0), |nnbs|);
    if g.Some? then nnbs[g.value] else peak
  }

  /** The shifted start is a valid sample at most 10 s before the peak, and it
      is either the peak or preceded by at least 3 s without valid samples. */
  lemma ShiftedStartGap(nn: seq<nat>, p: nat, dpm: real)
    requires Increasing(nn) && p < |nn| && dpm > 0.0
    ensures var s := ShiftedStart(nn, nn[p], dpm);
            s in nn && s <= nn[p] && s as real > nn[p] as real - Seconds(dpm, 10.0) &&
            (s == nn[p] || forall k :: 0 <= k < |nn| && nn[k] < s ==> (s - nn[k]) as real >= Seconds(dpm, 3.0))
  {
    var peak := nn[p];
    var origin := peak as real - Seconds(dpm, 10.0);
    var nnbs := Between(nn, origin, peak as real);
    var w3 := Seconds(dpm, 3.0);
    var g := LastGap(nnbs, origin, w3, |nnbs|);
    if g.Some? {
      var s := nnbs[g.value];
      assert ShiftedStart(nn, peak, dpm) == s;
      assert s in nnbs;
      assert s in nn && origin < s as real <= peak as real;
      GapBeforeStart(nn, nnbs, origin, peak as real, w3, g.value);
    } else {
      assert ShiftedStart(nn, peak, dpm) == peak;
      assert origin < peak as real;
    }
  }

  /** No valid sample lies within `w3` before an entry of the window whose
      gap is at least `w3`. */
  lemma GapBeforeStart(nn: seq<nat>, nnbs: seq<nat>, origin: real, hi: real, w3: real, gk: nat)
    requires Increasing(nn) && nnbs == Between(nn, origin, hi) && gk < |nnbs| && Gap(nnbs, origin, gk) >= w3
    ensures forall k :: 0 <= k < |nn| && nn[k] < nnbs[gk] ==> (nnbs[gk] - nn[k]) as real >= w3
  {
    var s := nnbs[gk];
    forall k | 0 <= k < |nn| && nn[k] < s
      ensures (s - nn[k]) as real >= w3
    {
      var t := nn[k];
      if origin < t as real {
        assert s in nnbs;
        assert t in nnbs;
        var q :| 0 <= q < |nnbs| && nnbs[q] == t;
        assert q < gk;
        assert nnbs[q] <= nnbs[gk - 1];
      } else if gk > 0 {
        assert nnbs[gk - 1] in nnbs;
      }
    }
  }

  /** The condition that makes position `e` a candidate end: every value in the
      following 30 s window is at least its value, or it is the last valid
      sample, or the window's median is within 0.05 of it. */
  predicate EndCondition(fish: Fish, nn: seq<nat>, e: nat, dpm: real, median: seq<real> -> real)
    requires ValidRun(fish, nn) && e < |nn| && dpm > 0.0
  {
    var ws := Freqs(fish, EndWindow(nn, e, dpm));
    (forall k :: 0 <= k < |ws| ==> ws[k] >= At(fish, nn[e])) ||
    nn[e] == nn[|nn| - 1] ||
    LevelledOff(At(fish, nn[e]), ws, median)
  }

  /** Position `p` is a candidate peak: the next 10 s hold at least a
      second's worth of samples, all of them lower. */
  predicate IsPeak(fish: Fish, nn: seq<nat>, p: nat, dpm: real)
    requires ValidRun(fish, nn) && p < |nn| && dpm > 0.0
  {
    var idxs := PeakWindow(nn, p, dpm);
    |idxs| as real >= Seconds(dpm, 1.0) &&
    forall k :: 0 <= k < |idxs| ==> At(fish, idxs[k]) < At(fish, nn[p])
  }

  /** Position `e` ends a rise from the peak at position `p`: every sample up
      to it is lower than the peak, it lies less than 10 minutes after the
      peak, it meets the end condition, and the drop reaches the threshold. */
  predicate IsEnd(fish: Fish, nn: seq<nat>, p: nat, e: nat, riseFTh: real, dpm: real, median: seq<real> -> real)
    requires ValidRun(fish, nn) && dpm > 0.0
  {
    p < e < |nn| &&
    (forall k :: p < k <= e ==> At(fish, nn[k]) < At(fish, nn[p])) &&
    ((nn[e] - nn[p]) as real) < dpm * 10.0 &&
    EndCondition(fish, nn, e, dpm, median) &&
    At(fish, nn[p]) - At(fish, nn[e]) >= RiseThreshold(riseFTh, dpm, nn[e] - nn[p])
  }

  /** The rise record for the peak at position `p` and the end at position `e`. */
  function RiseFrom(fish: Fish, nn: seq<nat>, p: nat, e: nat, dpm: real): Rise
    requires ValidRun(fish, nn) && p < |nn| && e < |nn|
  {
    var s := ShiftedStart(nn, nn[p], dpm);
    Rise(s, nn[e], At(fish, s), At(fish, nn[e]))
  }

  /** `r` is the rise whose peak is at position `p` and whose end is at
      position `e` of `nn`. */
  predicate RiseAt(fish: Fish, nn: seq<nat>, p: nat, e: nat, r: Rise, riseFTh: real, dpm: real, median: seq<real> -> real)
    requires ValidRun(fish, nn) && dpm > 0.0
  {
    p < e < |nn| && IsPeak(fish, nn, p, dpm) && IsEnd(fish, nn, p, e, riseFTh, dpm, median) &&
    r == RiseFrom(fish, nn, p, e, dpm)
  }

  /** Number of positions at which `detect_single_rise` tries a peak
      (`loop_idxs`): those whose index lies at least 10 s before the last
      valid index. The last position is never one of them. */
  function LoopEnd(nn: seq<nat>, dpm: real): (n: nat)
    requires |nn| > 0 && dpm > 0.0
    ensures n < |nn|
  {
    CountAtMost(nn, nn[|nn| - 1] as real - Seconds(dpm, 10.0))
  }

  /** The peak at position `p` is accepted by `detect_single_rise`: it is a
      position the search tries, a candidate peak, and the scan after it
      finds an end. */
  ghost predicate Accepts(fish: Fish, nn: seq<nat>, p: nat, riseFTh: real, dpm: real, median: seq<real> -> real)
    requires ValidRun(fish, nn) && |nn| > 0 && dpm > 0.0
  {
    p < LoopEnd(nn, dpm) && IsPeak(fish, nn, p, dpm) &&
    exists e :: FirstEnd(fish, nn, p, e, LoopEnd(nn, dpm), riseFTh, dpm, median)
  }

  /** `r` is the rise ending at position `e` that `detect_single_rise`
      reports: it comes from the first accepted peak, and `e` is the end the
      scan after that peak finds. */
  ghost predicate FoundAt(fish: Fish, nn: seq<nat>, e: nat, r: Rise, riseFTh: real, dpm: real, median: seq<real> -> real)
    requires ValidRun(fish, nn) && |nn| > 0 && dpm > 0.0
  {
    exists p: nat :: FirstRise(fish, nn, p, e, r, riseFTh, dpm, median)
  }

  /** `r` is the rise from the first accepted peak, at position `p`, whose
      scan finds the end at position `e`. */
  ghost predicate FirstRise(fish: Fish, nn: seq<nat>, p: nat, e: nat, r: Rise, riseFTh: real, dpm: real,
                            median: seq<real> -> real)
    requires ValidRun(fish, nn) && |nn| > 0 && dpm > 0.0
  {
    RiseAt(fish, nn, p, e, r, riseFTh, dpm, median) &&
    FirstEnd(fish, nn, p, e, LoopEnd(nn, dpm), riseFTh, dpm, median) &&
    forall q :: 0 <= q < p ==> !Accepts(fish, nn, q, riseFTh, dpm, median)
  }

  /** Position `k` ends the scan of candidate ends after the peak at
      position `p`: its sample is not lower than the peak, it lies 10 minutes
      or more after the peak, or it meets the end condition. */
  predicate Stops(fish: Fish, nn: seq<nat>, p: nat, k: nat, dpm: real, median: seq<real> -> real)
    requires ValidRun(fish, nn) && p < k < |nn| && dpm > 0.0
  {
    At(fish, nn[k]) >= At(fish, nn[p]) || ((nn[k] - nn[p]) as real) >= dpm * 10.0 ||
    EndCondition(fish, nn, k, dpm, median)
  }

  /** Position `e`, below `loopEnd`, is the end found for the peak at
      position `p`: no earlier position stops the scan, and `e` is an end. */
  predicate FirstEnd(fish: Fish, nn: seq<nat>, p: nat, e: nat, loopEnd: nat, riseFTh: real, dpm: real,
                     median: seq<real> -> real)
    requires ValidRun(fish, nn) && loopEnd <= |nn| && dpm > 0.0
  {
    p < e < loopEnd && IsEnd(fish, nn, p, e, riseFTh, dpm, median) &&
    forall k :: p < k < e ==> !Stops(fish, nn, p, k, dpm, median)
  }

  /** When every position after `p` and before `j` lets the scan go on, and
      `j` is the bound or a position that stops it without being an end, no
      end is found for `p`. */
  lemma NoFirstEnd(fish: Fish, nn: seq<nat>, p: nat, j: nat, loopEnd: nat, riseFTh: real, dpm: real,
                   median: seq<real> -> real)
    requires ValidRun(fish, nn) && p < j <= loopEnd <= |nn| && dpm > 0.0
    requires forall k :: p < k < j ==> !Stops(fish, nn, p, k, dpm, median)
    requires j < loopEnd ==> Stops(fish, nn, p, j, dpm, median) && !IsEnd(fish, nn, p, j, riseFTh, dpm, median)
    ensures forall e :: !FirstEnd(fish, nn, p, e, loopEnd, riseFTh, dpm, median)
  {
    forall e | p < e < loopEnd && IsEnd(fish, nn, p, e, riseFTh, dpm, median)
      ensures exists k :: p < k < e && Stops(fish, nn, p, k, dpm, median)
    {
      assert Stops(fish, nn, p, e, dpm, median);
      assert e != j;
    }
  }

  /** A position that is an end and that no earlier position stops the scan
      before is the first end. */
  lemma FirstEndAt(fish: Fish, nn: seq<nat>, p: nat, j: nat, loopEnd: nat, riseFTh: real, dpm: real,
                   median: seq<real> -> real)
    requires ValidRun(fish, nn) && p < j < loopEnd <= |nn| && dpm > 0.0
    requires forall k :: p < k < j ==> !Stops(fish, nn, p, k, dpm, median)
    requires At(fish, nn[j]) < At(fish, nn[p]) && ((nn[j] - nn[p]) as real) < dpm * 10.0
    requires EndCondition(fish, nn, j, dpm, median)
    requires At(fish, nn[p]) - At(fish, nn[j]) >= RiseThreshold(riseFTh, dpm, nn[j] - nn[p])
    ensures FirstEnd(fish, nn, p, j, loopEnd, riseFTh, dpm, median)
  {
    forall k | p < k <= j ensures At(fish, nn[k]) < At(fish, nn[p]) {
      if k < j { assert !Stops(fish, nn, p, k, dpm, median); }
    }
  }

  /** The inner scan of `detect_single_rise`: walks the candidate ends after
      the peak at position `i`, stopping at a sample not lower than the peak,
      at 10 minutes, or at the first end candidate, which is accepted when the
      drop reaches the threshold. The end returned is exactly the first end
      of the peak; none is returned when the peak has no first end. */
  method ScanEnds(fish: Fish, nn: seq<nat>, i: nat, loopEnd: nat, riseFTh: real, dpm: real, median: seq<real> -> real)
    returns (end: Option<nat>)
    requires dpm > 0.0 && ValidRun(fish, nn) && i < loopEnd < |nn|
    ensures end.Some? ==> FirstEnd(fish, nn, i, end.value, loopEnd, riseFTh, dpm, median)
    ensures end.None? ==> forall e :: !FirstEnd(fish, nn, i, e, loopEnd, riseFTh, dpm, median)
  {
    var j := i + 1;
    while j < loopEnd
      invariant i < j <= loopEnd
      invariant forall k :: i < k < j ==> !Stops(fish, nn, i, k, dpm, median)
    {
      if At(fish, nn[j]) >= At(fish, nn[i]) || (nn[j] - nn[i]) as real >= dpm * 10.0 {
        NoFirstEnd(fish, nn, i, j, loopEnd, riseFTh, dpm, median);
        return None;
      }
      if EndCondition(fish, nn, j, dpm, median) {
        if At(fish, nn[i]) - At(fish, nn[j]) >= RiseThreshold(riseFTh, dpm, nn[j] - nn[i]) {
          FirstEndAt(fish, nn, i, j, loopEnd, riseFTh, dpm, median);
          return Some(j);
        }
        NoFirstEnd(fish, nn, i, j, loopEnd, riseFTh, dpm, median);
        return None;
      }
      j := j + 1;
    }
    NoFirstEnd(fish, nn, i, j, loopEnd, riseFTh, dpm, median);
    return None;
  }

  /** `r` starts before it ends, and records the fish's frequencies at both ends. */
  predicate Recorded(fish: Fish, r: Rise)
  {
    r.start < r.end < |fish| && fish[r.start] == Some(r.startFreq) && fish[r.end] == Some(r.endFreq)
  }

  /** The reported rise starts at a valid sample before its end. */
  lemma RiseFromValid(fish: Fish, nn: seq<nat>, p: nat, e: nat, dpm: real)
    requires ValidRun(fish, nn) && p < e < |nn| && dpm > 0.0
    ensures var r := RiseFrom(fish, nn, p, e, dpm);
            r.start in nn && r.end == nn[e] && Recorded(fish, r)
  {
    ShiftedStartGap(nn, p, dpm);
  }

  /** What `detect_single_rise` returns: a suffix of the valid indices.
      With no rise it is only the last valid index, and no peak is accepted.
      A rise found is recorded at valid samples, comes from the first
      accepted peak and ends at the index just before the returned suffix. */
  ghost predicate SingleRiseResult(fish: Fish, nn: seq<nat>, riseFTh: real, dpm: real, median: seq<real> -> real,
                                   rise: Option<Rise>, rest: seq<nat>)
    requires dpm > 0.0 && |nn| > 0 && ValidRun(fish, nn)
  {
    0 < |rest| <= |nn| && rest == nn[|nn| - |rest|..] &&
    (rise.None? ==> rest == [nn[|nn| - 1]] && forall p :: !Accepts(fish, nn, p, riseFTh, dpm, median)) &&
    (rise.Some? ==> Recorded(fish, rise.value) && rise.value.start in nn &&
                    exists e: nat :: e + 1 < |nn| && rest == nn[e + 1..] && rise.value.end == nn[e] &&
                                     FoundAt(fish, nn, e, rise.value, riseFTh, dpm, median))
  }

  /** `detect_single_rise`: scans the candidate peaks and, for each, the
      candidate ends; returns the first rise found together with the valid
      indices after its end, or no rise and only the last valid index. */
  method DetectSingleRise(fish: Fish, nn: seq<nat>, riseFTh: real, dpm: real, median: seq<real> -> real)
    returns (rise: Option<Rise>, rest: seq<nat>)
    requires dpm > 0.0 && |nn| > 0 && ValidRun(fish, nn)
    ensures SingleRiseResult(fish, nn, riseFTh, dpm, median, rise, rest)
  {
    var loopEnd := LoopEnd(nn, dpm);
    var i := 0;
    while i < loopEnd
      invariant 0 <= i <= loopEnd
      invariant forall q :: 0 <= q < i ==> !Accepts(fish, nn, q, riseFTh, dpm, median)
    {
      var end := TryPeak(fish, nn, i, loopEnd, riseFTh, dpm, median);
      if end.Some? {
        rise, rest := Some(RiseFrom(fish, nn, i, end.value, dpm)), nn[end.value + 1..];
        SingleRiseFound(fish, nn, i, end.value, riseFTh, dpm, median, rise, rest);
        return;
      }
      i := i + 1;
    }
    rise, rest := None, [nn[|nn| - 1]];
    NoRise(fish, nn, riseFTh, dpm, median, rest);
  }

  /** One pass of the outer loop of `detect_single_rise`: when position `i`
      is a candidate peak, scans its candidate ends. An end is returned
      exactly when the peak is accepted. */
  method TryPeak(fish: Fish, nn: seq<nat>, i: nat, loopEnd: nat, riseFTh: real, dpm: real, median: seq<real> -> real)
    returns (end: Option<nat>)
    requires dpm > 0.0 && |nn| > 0 && ValidRun(fish, nn) && loopEnd == LoopEnd(nn, dpm) && i < loopEnd
    ensures end.Some? ==> IsPeak(fish, nn, i, dpm) && FirstEnd(fish, nn, i, end.value, loopEnd, riseFTh, dpm, median)
    ensures end.None? ==> !Accepts(fish, nn, i, riseFTh, dpm, median)
  {
    end := None;
    if IsPeak(fish, nn, i, dpm) {
      end := ScanEnds(fish, nn, i, loopEnd, riseFTh, dpm, median);
    }
    if end.None? {
      NotAccepted(fish, nn, i, riseFTh, dpm, median);
    }
  }

  /** A position that is no candidate peak, or whose scan finds no end, is
      not accepted. */
  lemma NotAccepted(fish: Fish, nn: seq<nat>, i: nat, riseFTh: real, dpm: real, median: seq<real> -> real)
    requires dpm > 0.0 && |nn| > 0 && ValidRun(fish, nn) && i < LoopEnd(nn, dpm)
    requires !IsPeak(fish, nn, i, dpm) || forall e :: !FirstEnd(fish, nn, i, e, LoopEnd(nn, dpm), riseFTh, dpm, median)
    ensures !Accepts(fish, nn, i, riseFTh, dpm, median)
  {
  }

  /** When no position the search tries is accepted, `detect_single_rise`
      reports no rise and only the last valid index. */
  lemma NoRise(fish: Fish, nn: seq<nat>, riseFTh: real, dpm: real, median: seq<real> -> real, rest: seq<nat>)
    requires dpm > 0.0 && |nn| > 0 && ValidRun(fish, nn)
    requires forall q :: 0 <= q < LoopEnd(nn, dpm) ==> !Accepts(fish, nn, q, riseFTh, dpm, median)
    requires rest == [nn[|nn| - 1]]
    ensures SingleRiseResult(fish, nn, riseFTh, dpm, median, None, rest)
  {
    assert rest == nn[|nn| - 1..];
  }

  /** What `detect_single_rise` reports when the peak at position `i`, the
      first accepted one, and its end at position `j` are found. */
  lemma SingleRiseFound(fish: Fish, nn: seq<nat>, i: nat, j: nat, riseFTh: real, dpm: real, median: seq<real> -> real,
                        rise: Option<Rise>, rest: seq<nat>)
    requires dpm > 0.0 && ValidRun(fish, nn) && |nn| > 0
    requires FirstEnd(fish, nn, i, j, LoopEnd(nn, dpm), riseFTh, dpm, median) && IsPeak(fish, nn, i, dpm)
    requires forall q :: 0 <= q < i ==> !Accepts(fish, nn, q, riseFTh, dpm, median)
    requires rise == Some(RiseFrom(fish, nn, i, j, dpm)) && rest == nn[j + 1..]
    ensures SingleRiseResult(fish, nn, riseFTh, dpm, median, rise, rest)
  {
    RiseFromValid(fish, nn, i, j, dpm);
    FirstFound(fish, nn, i, j, riseFTh, dpm, median);
    FoundResult(fish, nn, j, rise.value, riseFTh, dpm, median, rest);
  }

  /** A recorded rise found ending at position `j`, followed by the valid
      indices after `j`, is a result of `detect_single_rise`. */
  lemma FoundResult(fish: Fish, nn: seq<nat>, j: nat, r: Rise, riseFTh: real, dpm: real, median: seq<real> -> real,
                    rest: seq<nat>)
    requires dpm > 0.0 && ValidRun(fish, nn) && j + 1 < |nn|
    requires r.start in nn && r.end == nn[j] && Recorded(fish, r) && rest == nn[j + 1..]
    requires FoundAt(fish, nn, j, r, riseFTh, dpm, median)
    ensures SingleRiseResult(fish, nn, riseFTh, dpm, median, Some(r), rest)
  {
    assert |nn| - |rest| == j + 1;
  }

  /** The rise from the first accepted peak at position `i` and its end at
      position `j` is the rise found, ending at `j`. */
  lemma FirstFound(fish: Fish, nn: seq<nat>, i: nat, j: nat, riseFTh: real, dpm: real, median: seq<real> -> real)
    requires dpm > 0.0 && ValidRun(fish, nn) && |nn| > 0
    requires FirstEnd(fish, nn, i, j, LoopEnd(nn, dpm), riseFTh, dpm, median) && IsPeak(fish, nn, i, dpm)
    requires forall q :: 0 <= q < i ==> !Accepts(fish, nn, q, riseFTh, dpm, median)
    ensures FoundAt(fish, nn, j, RiseFrom(fish, nn, i, j, dpm), riseFTh, dpm, median)
  {
    assert RiseAt(fish, nn, i, j, RiseFrom(fish, nn, i, j, dpm), riseFTh, dpm, median);
    assert FirstRise(fish, nn, i, j, RiseFrom(fish, nn, i, j, dpm), riseFTh, dpm, median);
  }

  /** A peak for which the scan finds an end is accepted. */
  lemma FoundAccepted(fish: Fish, nn: seq<nat>, p: nat, e: nat, riseFTh: real, dpm: real, median: seq<real> -> real)
    requires dpm > 0.0 && |nn| > 0 && ValidRun(fish, nn)
    requires FirstEnd(fish, nn, p, e, LoopEnd(nn, dpm), riseFTh, dpm, median) && IsPeak(fish, nn, p, dpm)
    ensures Accepts(fish, nn, p, riseFTh, dpm, median)
  {
  }

  /** A peak has at most one first end. */
  lemma FirstEndUnique(fish: Fish, nn: seq<nat>, p: nat, e1: nat, e2: nat, loopEnd: nat, riseFTh: real, dpm: real,
                       median: seq<real> -> real)
    requires ValidRun(fish, nn) && loopEnd <= |nn| && dpm > 0.0
    requires FirstEnd(fish, nn, p, e1, loopEnd, riseFTh, dpm, median)
    requires FirstEnd(fish, nn, p, e2, loopEnd, riseFTh, dpm, median)
    ensures e1 == e2
  {
    if e1 < e2 {
      assert Stops(fish, nn, p, e1, dpm, median);
    } else if e2 < e1 {
      assert Stops(fish, nn, p, e2, dpm, median);
    }
  }

  /** At most one rise is found: it comes from the first accepted peak and
      that peak's first end. */
  lemma FoundUnique(fish: Fish, nn: seq<nat>, e1: nat, r1: Rise, e2: nat, r2: Rise, riseFTh: real, dpm: real,
                    median: seq<real> -> real)
    requires dpm > 0.0 && |nn| > 0 && ValidRun(fish, nn)
    requires FoundAt(fish, nn, e1, r1, riseFTh, dpm, median) && FoundAt(fish, nn, e2, r2, riseFTh, dpm, median)
    ensures e1 == e2 && r1 == r2
  {
    var p1: nat :| FirstRise(fish, nn, p1, e1, r1, riseFTh, dpm, median);
    var p2: nat :| FirstRise(fish, nn, p2, e2, r2, riseFTh, dpm, median);
    FirstRiseUnique(fish, nn, p1, e1, r1, p2, e2, r2, riseFTh, dpm, median);
  }

  /** Only the first accepted peak and its first end give the rise found. */
  lemma FirstRiseUnique(fish: Fish, nn: seq<nat>, p1: nat, e1: nat, r1: Rise, p2: nat, e2: nat, r2: Rise,
                        riseFTh: real, dpm: real, median: seq<real> -> real)
    requires dpm > 0.0 && |nn| > 0 && ValidRun(fish, nn)
    requires FirstRise(fish, nn, p1, e1, r1, riseFTh, dpm, median) && FirstRise(fish, nn, p2, e2, r2, riseFTh, dpm, median)
    ensures p1 == p2 && e1 == e2 && r1 == r2
  {
    FoundAccepted(fish, nn, p1, e1, riseFTh, dpm, median);
    FoundAccepted(fish, nn, p2, e2, riseFTh, dpm, median);
    assert p1 == p2;
    FirstEndUnique(fish, nn, p1, e1, e2, LoopEnd(nn, dpm), riseFTh, dpm, median);
  }

  /** A found rise means an accepted peak. */
  lemma FoundSomePeak(fish: Fish, nn: seq<nat>, e: nat, r: Rise, riseFTh: real, dpm: real, median: seq<real> -> real)
    requires dpm > 0.0 && |nn| > 0 && ValidRun(fish, nn)
    requires FoundAt(fish, nn, e, r, riseFTh, dpm, median)
    ensures exists p :: Accepts(fish, nn, p, riseFTh, dpm, median)
  {
    var p: nat :| FirstRise(fish, nn, p, e, r, riseFTh, dpm, median);
    FoundAccepted(fish, nn, p, e, riseFTh, dpm, median);
  }

  /** A result with a rise means an accepted peak. */
  lemma ResultAccepts(fish: Fish, nn: seq<nat>, riseFTh: real, dpm: real, median: seq<real> -> real,
                      rise: Option<Rise>, rest: seq<nat>)
    requires dpm > 0.0 && |nn| > 0 && ValidRun(fish, nn)
    requires SingleRiseResult(fish, nn, riseFTh, dpm, median, rise, rest) && rise.Some?
    ensures exists p :: Accepts(fish, nn, p, riseFTh, dpm, median)
  {
    var e := ResultFound(fish, nn, riseFTh, dpm, median, rise, rest);
    FoundSomePeak(fish, nn, e, rise.value, riseFTh, dpm, median);
  }

  /** A result with a rise: the rise found and the suffix after its end. */
  lemma ResultFound(fish: Fish, nn: seq<nat>, riseFTh: real, dpm: real, median: seq<real> -> real,
                    rise: Option<Rise>, rest: seq<nat>) returns (e: nat)
    requires dpm > 0.0 && |nn| > 0 && ValidRun(fish, nn)
    requires SingleRiseResult(fish, nn, riseFTh, dpm, median, rise, rest) && rise.Some?
    ensures e + 1 < |nn| && rest == nn[e + 1..] && rise.value.end == nn[e]
    ensures FoundAt(fish, nn, e, rise.value, riseFTh, dpm, median)
  {
    e :| e + 1 < |nn| && rest == nn[e + 1..] && rise.value.end == nn[e] &&
         FoundAt(fish, nn, e, rise.value, riseFTh, dpm, median);
  }

  /** Two rises found, each followed by the suffix after its end, are the same. */
  lemma RisesAgree(fish: Fish, nn: seq<nat>, riseFTh: real, dpm: real, median: seq<real> -> real,
                   rise1: Rise, e1: nat, rest1: seq<nat>, rise2: Rise, e2: nat, rest2: seq<nat>)
    requires dpm > 0.0 && |nn| > 0 && ValidRun(fish, nn)
    requires e1 + 1 < |nn| && rest1 == nn[e1 + 1..] && FoundAt(fish, nn, e1, rise1, riseFTh, dpm, median)
    requires e2 + 1 < |nn| && rest2 == nn[e2 + 1..] && FoundAt(fish, nn, e2, rise2, riseFTh, dpm, median)
    ensures rise1 == rise2 && rest1 == rest2
  {
    var p1: nat :| FirstRise(fish, nn, p1, e1, rise1, riseFTh, dpm, median);
    var p2: nat :| FirstRise(fish, nn, p2, e2, rise2, riseFTh, dpm, median);
    FirstRiseUnique(fish, nn, p1, e1, rise1, p2, e2, rise2, riseFTh, dpm, median);
    SameSuffix(nn, e1, rest1, e2, rest2);
  }

  lemma SameSuffix(nn: seq<nat>, e1: nat, rest1: seq<nat>, e2: nat, rest2: seq<nat>)
    requires e1 == e2 && e1 < |nn| && rest1 == nn[e1 + 1..] && rest2 == nn[e2 + 1..]
    ensures rest1 == rest2
  {
  }

  /** The result of `detect_single_rise` is determined by its input: two
      results that both meet `SingleRiseResult` are the same. */
  lemma SingleRiseUnique(fish: Fish, nn: seq<nat>, riseFTh: real, dpm: real, median: seq<real> -> real,
                         rise1: Option<Rise>, rest1: seq<nat>, rise2: Option<Rise>, rest2: seq<nat>)
    requires dpm > 0.0 && |nn| > 0 && ValidRun(fish, nn)
    requires SingleRiseResult(fish, nn, riseFTh, dpm, median, rise1, rest1)
    requires SingleRiseResult(fish, nn, riseFTh, dpm, median, rise2, rest2)
    ensures rise1 == rise2 && rest1 == rest2
  {
    if rise1.Some? && rise2.Some? {
      var e1 := ResultFound(fish, nn, riseFTh, dpm, median, rise1, rest1);
      var e2 := ResultFound(fish, nn, riseFTh, dpm, median, rise2, rest2);
      RisesAgree(fish, nn, riseFTh, dpm, median, rise1.value, e1, rest1, rise2.value, e2, rest2);
    } else if rise1.Some? {
      ResultAccepts(fish, nn, riseFTh, dpm, median, rise1, rest1);
    } else if rise2.Some? {
      ResultAccepts(fish, nn, riseFTh, dpm, median, rise2, rest2);
    }
  }

  /** A rise is genuine for `fish`: recorded at valid samples, with a peak at
      a valid sample between start and end from which the frequency drops to
      the end by at least the threshold for the rise's duration. */
  ghost predicate Genuine(fish: Fish, r: Rise, riseFTh: real, dpm: real)
    requires dpm > 0.0
  {
    Recorded(fish, r) &&
    exists peak :: r.start <= peak < r.end && fish[peak].Some? &&
      fish[peak].value - r.endFreq >= RiseThreshold(riseFTh, dpm, r.end - peak)
  }

  /** The valid indices still spread over more than 10 s plus one step:
      the condition of the `while` loop of `detect_rises`. */
  predicate Spread(nn: seq<nat>, dpm: real)
    requires |nn| > 0
  {
    nn[|nn| - 1] as real - nn[0] as real > Seconds(dpm, 10.0) + 1.0
  }

  /** The calls of `detect_single_rise` made so far by the loop of
      `detect_rises` for one fish: call `k` gets the valid indices `nns[k]`,
      which spread far enough, and returns `outs[k]` and `nns[k + 1]`. The
      first call gets all valid indices of the fish. */
  ghost predicate RiseSteps(fish: Fish, nns: seq<seq<nat>>, outs: seq<Option<Rise>>, riseFTh: real, dpm: real,
                            median: seq<real> -> real)
    requires dpm > 0.0
  {
    |nns| == |outs| + 1 && nns[0] == ValidIndices(fish) &&
    |nns[|outs|]| > 0 && ValidRun(fish, nns[|outs|]) &&
    forall k :: 0 <= k < |outs| ==> Call(fish, nns, outs, k, riseFTh, dpm, median)
  }

  /** Call `k` of `detect_single_rise` in the loop of `detect_rises`. */
  ghost predicate Call(fish: Fish, nns: seq<seq<nat>>, outs: seq<Option<Rise>>, k: nat, riseFTh: real, dpm: real,
                       median: seq<real> -> real)
    requires dpm > 0.0 && k < |outs| && |nns| == |outs| + 1
  {
    |nns[k]| > 0 && ValidRun(fish, nns[k]) && Spread(nns[k], dpm) &&
    SingleRiseResult(fish, nns[k], riseFTh, dpm, median, outs[k], nns[k + 1])
  }

  /** The whole loop: the calls, after which the indices left no longer
      spread far enough. */
  ghost predicate RiseRun(fish: Fish, nns: seq<seq<nat>>, outs: seq<Option<Rise>>, riseFTh: real, dpm: real,
                          median: seq<real> -> real)
    requires dpm > 0.0
  {
    RiseSteps(fish, nns, outs, riseFTh, dpm, median) && !Spread(nns[|outs|], dpm)
  }

  /** `rises` is what `detect_rises` returns for `fish`: the results of the
      loop's calls, with a trailing empty result dropped. */
  ghost predicate RisesOf(fish: Fish, rises: seq<Rise>, riseFTh: real, dpm: real, median: seq<real> -> real)
    requires dpm > 0.0
  {
    exists nns, outs :: RiseRun(fish, nns, outs, riseFTh, dpm, median) &&
      (outs == Wrap(rises) || outs == Wrap(rises) + [None])
  }

  /** Two runs of the loop whose call `k` gets the same indices make the
      same calls from there on. */
  lemma {:induction false} RunsAgree(fish: Fish, nns1: seq<seq<nat>>, outs1: seq<Option<Rise>>,
                                     nns2: seq<seq<nat>>, outs2: seq<Option<Rise>>,
                                     riseFTh: real, dpm: real, median: seq<real> -> real, k: nat)
    requires dpm > 0.0
    requires RiseRun(fish, nns1, outs1, riseFTh, dpm, median) && RiseRun(fish, nns2, outs2, riseFTh, dpm, median)
    requires k < |nns1| && k < |nns2| && nns1[k] == nns2[k]
    ensures |outs1| == |outs2| && forall j :: k <= j < |outs1| ==> outs1[j] == outs2[j]
    decreases |outs1| - k
  {
    if k < |outs1| {
      CallsAgree(fish, nns1, outs1, nns2, outs2, riseFTh, dpm, median, k);
      RunsAgree(fish, nns1, outs1, nns2, outs2, riseFTh, dpm, median, k + 1);
    } else {
      StepsSpread(fish, nns2, outs2, riseFTh, dpm, median);
      assert !Spread(nns2[k], dpm);
    }
  }

  /** Call `k` of two runs that gets the same indices returns the same. */
  lemma CallsAgree(fish: Fish, nns1: seq<seq<nat>>, outs1: seq<Option<Rise>>,
                   nns2: seq<seq<nat>>, outs2: seq<Option<Rise>>,
                   riseFTh: real, dpm: real, median: seq<real> -> real, k: nat)
    requires dpm > 0.0
    requires RiseRun(fish, nns1, outs1, riseFTh, dpm, median) && RiseRun(fish, nns2, outs2, riseFTh, dpm, median)
    requires k < |outs1| && k < |nns2| && nns1[k] == nns2[k]
    ensures k < |outs2| && outs1[k] == outs2[k] && nns1[k + 1] == nns2[k + 1]
  {
    assert Call(fish, nns1, outs1, k, riseFTh, dpm, median);
    assert k < |outs2|;
    assert Call(fish, nns2, outs2, k, riseFTh, dpm, median);
    SingleRiseUnique(fish, nns1[k], riseFTh, dpm, median, outs1[k], nns1[k + 1], outs2[k], nns2[k + 1]);
  }

  /** Every call of the loop got indices that spread far enough. */
  lemma StepsSpread(fish: Fish, nns: seq<seq<nat>>, outs: seq<Option<Rise>>, riseFTh: real, dpm: real,
                    median: seq<real> -> real)
    requires dpm > 0.0 && RiseSteps(fish, nns, outs, riseFTh, dpm, median)
    ensures forall j :: 0 <= j < |outs| ==> |nns[j]| > 0 && Spread(nns[j], dpm)
  {
    forall j | 0 <= j < |outs| ensures |nns[j]| > 0 && Spread(nns[j], dpm) {
      assert Call(fish, nns, outs, j, riseFTh, dpm, median);
    }
  }

  /** Equal lists of results wrap the same rises, with or without a
      trailing empty result. */
  lemma WrapUnique(rises1: seq<Rise>, outs1: seq<Option<Rise>>, rises2: seq<Rise>, outs2: seq<Option<Rise>>)
    requires outs1 == Wrap(rises1) || outs1 == Wrap(rises1) + [None]
    requires outs2 == Wrap(rises2) || outs2 == Wrap(rises2) + [None]
    requires |outs1| == |outs2| && forall j :: 0 <= j < |outs1| ==> outs1[j] == outs2[j]
    ensures rises1 == rises2
  {
    assert outs1 == outs2;
    var outs := outs1;
    assert |rises1| == |rises2| by {
      assert outs == Wrap(rises1) + [None] <==> |outs| > 0 && outs[|outs| - 1] == None;
      assert outs == Wrap(rises2) + [None] <==> |outs| > 0 && outs[|outs| - 1] == None;
    }
    forall k | 0 <= k < |rises1| ensures rises1[k] == rises2[k] {
      assert outs[k] == Some(rises1[k]) && outs[k] == Some(rises2[k]);
    }
  }

  /** The rises `detect_rises` returns for a fish are determined by the fish. */
  lemma RisesOfUnique(fish: Fish, rises1: seq<Rise>, rises2: seq<Rise>, riseFTh: real, dpm: real,
                      median: seq<real> -> real)
    requires dpm > 0.0
    requires RisesOf(fish, rises1, riseFTh, dpm, median) && RisesOf(fish, rises2, riseFTh, dpm, median)
    ensures rises1 == rises2
  {
    var nns1, outs1 :| RiseRun(fish, nns1, outs1, riseFTh, dpm, median) &&
      (outs1 == Wrap(rises1) || outs1 == Wrap(rises1) + [None]);
    var nns2, outs2 :| RiseRun(fish, nns2, outs2, riseFTh, dpm, median) &&
      (outs2 == Wrap(rises2) || outs2 == Wrap(rises2) + [None]);
    RunsAgree(fish, nns1, outs1, nns2, outs2, riseFTh, dpm, median, 0);
    WrapUnique(rises1, outs1, rises2, outs2);
  }

  /** The rises of one fish: the `while` loop of `detect_rises`, which calls
      `detect_single_rise` on the remaining valid indices until they span no
      more than 10 s plus one step, then drops a trailing empty result. */
  method FishRises(fish: Fish, riseFTh: real, dpm: real, median: seq<real> -> real) returns (rises: seq<Rise>)
    requires dpm > 0.0 && Count(fish) > 0
    ensures RisesFor(fish, rises, riseFTh, dpm, median)
  {
    var nn := ValidIndices(fish);
    var found: seq<Option<Rise>> := [];
    ghost var done: seq<Rise> := [];
    ghost var nns: seq<seq<nat>> := [nn];
    while Spread(nn, dpm)
      invariant Progress(fish, nn, found, done, nns, riseFTh, dpm, median)
      decreases |nn|
    {
      var rise, rest := DetectSingleRise(fish, nn, riseFTh, dpm, median);
      done := Advance(fish, nn, found, done, nns, rise, rest, riseFTh, dpm, median);
      found := found + [rise];
      nns := nns + [rest];
      nn := rest;
    }
    Finish(fish, nn, found, done, nns, riseFTh, dpm, median);
    PopWrap(found, done);
    if found != [] && found[|found| - 1].None? {
      found := found[..|found| - 1];
    }
    assert found == Wrap(done);
    rises := Unwrap(found);
    UnwrapWrap(done);
  }

  /** Dropping a trailing empty result leaves the wrapped rises. */
  lemma PopWrap(found: seq<Option<Rise>>, done: seq<Rise>)
    requires found == Wrap(done) || found == Wrap(done) + [None]
    ensures found != [] && found[|found| - 1].None? ==> found[..|found| - 1] == Wrap(done)
    ensures !(found != [] && found[|found| - 1].None?) ==> found == Wrap(done)
  {
    if found == Wrap(done) + [None] {
      assert found[..|found| - 1] == Wrap(done);
    }
  }

  /** The rises in a list of results that all hold one. */
  function Unwrap(os: seq<Option<Rise>>): (rs: seq<Rise>)
    requires forall k :: 0 <= k < |os| ==> os[k].Some?
    ensures |rs| == |os| && forall k :: 0 <= k < |os| ==> os[k] == Some(rs[k])
  {
    seq(|os|, k requires 0 <= k < |os| => os[k].value)
  }

  lemma UnwrapWrap(rs: seq<Rise>)
    ensures Unwrap(Wrap(rs)) == rs
  {
  }

  /** The state of the loop of `detect_rises` for one fish: `nn` are the
      valid indices left, `found` the results so far, which wrap the rises
      `done` (a trailing empty result leaves a single index), and `nns` the
      indices each call got. */
  ghost predicate Progress(fish: Fish, nn: seq<nat>, found: seq<Option<Rise>>, done: seq<Rise>, nns: seq<seq<nat>>,
                           riseFTh: real, dpm: real, median: seq<real> -> real)
    requires dpm > 0.0
  {
    |nn| > 0 && ValidRun(fish, nn) &&
    (found == Wrap(done) || (found == Wrap(done) + [None] && |nn| == 1)) &&
    Chain(fish, done, nn[0], riseFTh, dpm) &&
    RiseSteps(fish, nns, found, riseFTh, dpm, median) && nns[|found|] == nn
  }

  /** One pass of the loop of `detect_rises`: the call's result extends the
      state, and fewer indices are left. */
  lemma Advance(fish: Fish, nn: seq<nat>, found: seq<Option<Rise>>, done: seq<Rise>, nns: seq<seq<nat>>,
                rise: Option<Rise>, rest: seq<nat>, riseFTh: real, dpm: real, median: seq<real> -> real)
    returns (done': seq<Rise>)
    requires dpm > 0.0 && Progress(fish, nn, found, done, nns, riseFTh, dpm, median) && Spread(nn, dpm)
    requires SingleRiseResult(fish, nn, riseFTh, dpm, median, rise, rest)
    ensures |rest| < |nn| && done' == if rise.Some? then done + [rise.value] else done
    ensures Progress(fish, rest, found + [rise], done', nns + [rest], riseFTh, dpm, median)
  {
    SuffixRun(fish, nn, rest);
    if rise.Some? {
      var e := ResultFound(fish, nn, riseFTh, dpm, median, rise, rest);
      ChainExtend(fish, nn, rise.value, e, rest, done, riseFTh, dpm, median);
      WrapAppend(done, rise.value);
      done' := done + [rise.value];
    } else {
      ChainLater(fish, done, nn[0], rest[0], riseFTh, dpm);
      done' := done;
    }
    StepsExtend(fish, nn, nns, found, rise, rest, riseFTh, dpm, median);
  }

  /** When the loop of `detect_rises` ends, the rises found are the rises of
      the fish. */
  lemma Finish(fish: Fish, nn: seq<nat>, found: seq<Option<Rise>>, done: seq<Rise>, nns: seq<seq<nat>>,
               riseFTh: real, dpm: real, median: seq<real> -> real)
    requires dpm > 0.0 && Progress(fish, nn, found, done, nns, riseFTh, dpm, median) && !Spread(nn, dpm)
    ensures found == Wrap(done) || found == Wrap(done) + [None]
    ensures RisesFor(fish, done, riseFTh, dpm, median)
  {
    assert RiseRun(fish, nns, found, riseFTh, dpm, median);
  }

  /** One more call of `detect_single_rise` extends the calls made so far. */
  lemma StepsExtend(fish: Fish, nn: seq<nat>, nns: seq<seq<nat>>, outs: seq<Option<Rise>>, rise: Option<Rise>,
                    rest: seq<nat>, riseFTh: real, dpm: real, median: seq<real> -> real)
    requires dpm > 0.0 && RiseSteps(fish, nns, outs, riseFTh, dpm, median) && nns[|outs|] == nn
    requires |nn| > 0 && ValidRun(fish, nn) && Spread(nn, dpm)
    requires SingleRiseResult(fish, nn, riseFTh, dpm, median, rise, rest)
    requires ValidRun(fish, rest)
    ensures RiseSteps(fish, nns + [rest], outs + [rise], riseFTh, dpm, median)
  {
    var nns', outs' := nns + [rest], outs + [rise];
    assert nns'[0] == nns[0] && nns'[|outs'|] == rest;
    forall k | 0 <= k < |outs'|
      ensures Call(fish, nns', outs', k, riseFTh, dpm, median)
    {
      if k < |outs| {
        CallKept(fish, nns, outs, rise, rest, k, riseFTh, dpm, median);
      } else {
        assert k == |outs|;
        CallLast(fish, nn, nns, outs, rise, rest, riseFTh, dpm, median);
      }
    }
  }

  /** The new call is the last call of the extended loop. */
  lemma CallLast(fish: Fish, nn: seq<nat>, nns: seq<seq<nat>>, outs: seq<Option<Rise>>, rise: Option<Rise>,
                 rest: seq<nat>, riseFTh: real, dpm: real, median: seq<real> -> real)
    requires dpm > 0.0 && |nns| == |outs| + 1 && nn == nns[|outs|]
    requires |nn| > 0 && ValidRun(fish, nn) && Spread(nn, dpm)
    requires SingleRiseResult(fish, nn, riseFTh, dpm, median, rise, rest)
    ensures Call(fish, nns + [rest], outs + [rise], |outs|, riseFTh, dpm, median)
  {
    assert (nns + [rest])[|outs|] == nn && (nns + [rest])[|outs| + 1] == rest && (outs + [rise])[|outs|] == rise;
  }

  lemma CallKept(fish: Fish, nns: seq<seq<nat>>, outs: seq<Option<Rise>>, rise: Option<Rise>, rest: seq<nat>,
                 k: nat, riseFTh: real, dpm: real, median: seq<real> -> real)
    requires dpm > 0.0 && k < |outs| && |nns| == |outs| + 1
    requires Call(fish, nns, outs, k, riseFTh, dpm, median)
    ensures Call(fish, nns + [rest], outs + [rise], k, riseFTh, dpm, median)
  {
    assert (nns + [rest])[k] == nns[k] && (nns + [rest])[k + 1] == nns[k + 1] && (outs + [rise])[k] == outs[k];
  }

  /** The rises found so far: genuine, ordered, and ending before `next`. */
  ghost predicate Chain(fish: Fish, done: seq<Rise>, next: nat, riseFTh: real, dpm: real)
    requires dpm > 0.0
  {
    (forall k :: 0 <= k < |done| ==> Genuine(fish, done[k], riseFTh, dpm)) &&
    (forall k :: 0 <= k < |done| - 1 ==> done[k].end < done[k + 1].start) &&
    (forall k :: 0 <= k < |done| ==> done[k].end < next)
  }

  lemma WrapAppend(rs: seq<Rise>, r: Rise)
    ensures Wrap(rs + [r]) == Wrap(rs) + [Some(r)]
  {
    assert forall k :: 0 <= k < |rs| ==> (rs + [r])[k] == rs[k];
  }

  /** A rise reported by `detect_single_rise` extends the chain of rises. */
  lemma ChainExtend(fish: Fish, nn: seq<nat>, r: Rise, e: nat, rest: seq<nat>, done: seq<Rise>,
                    riseFTh: real, dpm: real, median: seq<real> -> real)
    requires dpm > 0.0 && ValidRun(fish, nn) && e + 1 < |nn| && rest == nn[e + 1..]
    requires r.start in nn && r.end == nn[e]
    requires FoundAt(fish, nn, e, r, riseFTh, dpm, median)
    requires Chain(fish, done, nn[0], riseFTh, dpm)
    ensures Chain(fish, done + [r], rest[0], riseFTh, dpm)
  {
    assert rest[0] == nn[e + 1];
    GenuineRise(fish, nn, r, e, riseFTh, dpm, median);
    assert r.start >= nn[0] by {
      var q :| 0 <= q < |nn| && nn[q] == r.start;
    }
    var done' := done + [r];
    forall k | 0 <= k < |done'|
      ensures Genuine(fish, done'[k], riseFTh, dpm) && done'[k].end < rest[0]
    {
      if k < |done| {
        assert done'[k] == done[k];
      }
    }
    forall k | 0 <= k < |done'| - 1
      ensures done'[k].end < done'[k + 1].start
    {
      assert done'[k] == done[k];
      if k + 1 < |done| {
        assert done'[k + 1] == done[k + 1];
      }
    }
  }

  /** A later start keeps the chain. */
  lemma ChainLater(fish: Fish, done: seq<Rise>, next: nat, later: nat, riseFTh: real, dpm: real)
    requires dpm > 0.0 && next <= later && Chain(fish, done, next, riseFTh, dpm)
    ensures Chain(fish, done, later, riseFTh, dpm)
  {
  }

  /** A suffix of a run is a run that starts no earlier, and after the entry
      before it. */
  lemma SuffixRun(fish: Fish, nn: seq<nat>, rest: seq<nat>)
    requires ValidRun(fish, nn) && 0 < |rest| <= |nn| && rest == nn[|nn| - |rest|..]
    ensures ValidRun(fish, rest) && nn[0] <= rest[0]
    ensures |rest| < |nn| ==> nn[|nn| - |rest| - 1] < rest[0]
  {
    assert rest[0] == nn[|nn| - |rest|];
  }

  /** Rises as the loop's list of results. */
  function Wrap(rs: seq<Rise>): (os: seq<Option<Rise>>)
    ensures |os| == |rs| && forall k :: 0 <= k < |rs| ==> os[k] == Some(rs[k])
  {
    seq(|rs|, k requires 0 <= k < |rs| => Some(rs[k]))
  }

  /** A rise found at end position `e` is genuine. */
  lemma GenuineRise(fish: Fish, nn: seq<nat>, r: Rise, e: nat, riseFTh: real, dpm: real, median: seq<real> -> real)
    requires dpm > 0.0 && ValidRun(fish, nn) && |nn| > 0
    requires FoundAt(fish, nn, e, r, riseFTh, dpm, median)
    ensures Genuine(fish, r, riseFTh, dpm)
  {
    var p: nat :| FirstRise(fish, nn, p, e, r, riseFTh, dpm, median);
    RiseFromValid(fish, nn, p, e, dpm);
    ShiftedStartGap(nn, p, dpm);
    assert r.start <= nn[p] < r.end;
  }

  /** What `detect_rises` promises for one fish: its rises are the results of
      the loop, each genuine, in order and without overlap. */
  ghost predicate RisesFor(fish: Fish, rises: seq<Rise>, riseFTh: real, dpm: real, median: seq<real> -> real)
    requires dpm > 0.0
  {
    RisesOf(fish, rises, riseFTh, dpm, median) &&
    (forall k :: 0 <= k < |rises| ==> Genuine(fish, rises[k], riseFTh, dpm)) &&
    (forall k :: 0 <= k < |rises| - 1 ==> rises[k].end < rises[k + 1].start)
  }

  /** `detect_rises`: the rises of every fish, one list per fish. */
  method DetectRises(fishes: seq<Fish>, riseFTh: real, dpm: real, median: seq<real> -> real) returns (allRises: seq<seq<Rise>>)
    requires dpm > 0.0 && forall k :: 0 <= k < |fishes| ==> Count(fishes[k]) > 0
    ensures |allRises| == |fishes|
    ensures forall f :: 0 <= f < |fishes| ==> RisesFor(fishes[f], allRises[f], riseFTh, dpm, median)
  {
    allRises := [];
    for f := 0 to |fishes|
      invariant |allRises| == f
      invariant forall g :: 0 <= g < f ==> RisesFor(fishes[g], allRises[g], riseFTh, dpm, median)
    {
      var rises := FishRises(fishes[f], riseFTh, dpm, median);
      ghost var before := allRises;
      allRises := allRises + [rises];
      forall g | 0 <= g <= f ensures RisesFor(fishes[g], allRises[g], riseFTh, dpm, median) {
        assert allRises[g] == if g < f then before[g] else rises;
      }
    }
  }
}
