/** Billauer's peak detector `peakdet` and the output-folder helper
    `create_outp_folder`. */
module Auxiliary {
  import opened Wrappers
  import opened Trajectory
  import PeakDetection

  /** The aborts of `peakdet`, in the order it checks them. */
  datatype DetError = LengthMismatch | NonPositiveDelta

  /** The scan of `peakdet` in terms of indices: the running maximum `mx`
      (`None` is minus infinity) found at `mxAt`, the running minimum `mn`
      (`None` is plus infinity) found at `mnAt`, the mode, and the indices
      of the recorded maxima and minima. Before the first sample the
      positions are NaN; they are not read before they are set. */
  datatype Det = Det(mn: Option<real>, mx: Option<real>, mnAt: nat, mxAt: nat, lookForMax: bool,
                     maxima: seq<nat>, minima: seq<nat>)

  /** `this > mx`, with `mx` possibly minus infinity. */
  predicate Exceeds(sample: real, mx: Option<real>)
  {
    mx.None? || sample > mx.value
  }

  /** `this < mn`, with `mn` possibly plus infinity. */
  predicate Undercuts(sample: real, mn: Option<real>)
  {
    mn.None? || sample < mn.value
  }

  /** One pass of the loop body over sample `i`. */
  function DetStep(d: Det, v: seq<real>, i: nat, delta: real): Det
    requires i < |v|
  {
    var sample := v[i];
    var d1 := if Exceeds(sample, d.mx) then d.(mx := Some(sample), mxAt := i) else d;
    var d2 := if Undercuts(sample, d1.mn) then d1.(mn := Some(sample), mnAt := i) else d1;
    if d2.lookForMax then
      if sample < d2.mx.value - delta then
        d2.(maxima := d2.maxima + [d2.mxAt], mn := Some(sample), mnAt := i, lookForMax := false)
      else d2
    else
      if sample > d2.mn.value + delta then
        d2.(minima := d2.minima + [d2.mnAt], mx := Some(sample), mxAt := i, lookForMax := true)
      else d2
  }

  /** The scan after the first `n` samples. */
  function DetRun(v: seq<real>, delta: real, n: nat): (d: Det)
    requires n <= |v|
    ensures n > 0 ==> d.mn.Some? && d.mx.Some? && d.mnAt < n && d.mxAt < n
    ensures d.mn.Some? ==> d.mnAt < n && d.mn.value == v[d.mnAt]
    ensures d.mx.Some? ==> d.mxAt < n && d.mx.value == v[d.mxAt]
    ensures forall k :: 0 <= k < |d.maxima| ==> d.maxima[k] < n
    ensures forall k :: 0 <= k < |d.minima| ==> d.minima[k] < n
  {
    if n == 0 then Det(None, None, 0, 0, true, [], [])
    else DetStep(DetRun(v, delta, n - 1), v, n - 1, delta)
  }

  /** The position reported for sample `i`: `x[i]`, or `i` itself without `x`. */
  function Place(x: Option<seq<real>>, i: nat): real
    requires x.Some? ==> i < |x.value|
  {
    if x.None? then i as real else x.value[i]
  }

  function Places(x: Option<seq<real>>, idx: seq<nat>): (r: seq<real>)
    requires x.Some? ==> forall k :: 0 <= k < |idx| ==> idx[k] < |x.value|
    ensures |r| == |idx| && forall k :: 0 <= k < |idx| ==> r[k] == Place(x, idx[k])
  {
    seq(|idx|, k requires 0 <= k < |idx| => Place(x, idx[k]))
  }

  /** The result of `peakdet`: `maxtab`, `maxidx`, `mintab`, `minidx`. */
  function PeakDetResult(v: seq<real>, delta: real, x: Option<seq<real>>)
    : Result<(seq<real>, seq<real>, seq<real>, seq<real>), DetError>
  {
    if x.Some? && |v| != |x.value| then Failure(LengthMismatch)
    else if delta <= 0.0 then Failure(NonPositiveDelta)
    else
      var d := DetRun(v, delta, |v|);
      Success((Indexed(v, d.maxima), Places(x, d.maxima), Indexed(v, d.minima), Places(x, d.minima)))
  }

  /** The method's variables agree with the scan `d`. */
  ghost predicate Mirrors(v: seq<real>, x: Option<seq<real>>, d: Det, mn: Option<real>, mx: Option<real>,
                          mnpos: Option<real>, mxpos: Option<real>, lookformax: bool, maxtab: seq<real>,
                          maxidx: seq<real>, mintab: seq<real>, minidx: seq<real>)
  {
    (x.Some? ==> |x.value| == |v|) &&
    (d.mn.Some? ==> d.mnAt < |v| && d.mn.value == v[d.mnAt]) &&
    (d.mx.Some? ==> d.mxAt < |v| && d.mx.value == v[d.mxAt]) &&
    (forall k :: 0 <= k < |d.maxima| ==> d.maxima[k] < |v|) &&
    (forall k :: 0 <= k < |d.minima| ==> d.minima[k] < |v|) &&
    mn == d.mn && mx == d.mx && lookformax == d.lookForMax &&
    mnpos == (if mn.Some? then Some(Place(x, d.mnAt)) else None) &&
    mxpos == (if mx.Some? then Some(Place(x, d.mxAt)) else None) &&
    maxtab == Indexed(v, d.maxima) && maxidx == Places(x, d.maxima) &&
    mintab == Indexed(v, d.minima) && minidx == Places(x, d.minima)
  }

  /** `peakdet`. */
  method PeakDet(v: seq<real>, delta: real, x: Option<seq<real>>)
    returns (r: Result<(seq<real>, seq<real>, seq<real>, seq<real>), DetError>)
    ensures r == PeakDetResult(v, delta, x)
  {
    var maxtab: seq<real> := [];
    var maxidx: seq<real> := [];
    var mintab: seq<real> := [];
    var minidx: seq<real> := [];
    if x.Some? && |v| != |x.value| {
      return Failure(LengthMismatch);
    }
    if delta <= 0.0 {
      return Failure(NonPositiveDelta);
    }
    var mn: Option<real>, mx: Option<real> := None, None;
    var mnpos: Option<real>, mxpos: Option<real> := None, None;
    var lookformax := true;
    for i := 0 to |v|
      invariant Mirrors(v, x, DetRun(v, delta, i), mn, mx, mnpos, mxpos, lookformax, maxtab, maxidx, mintab, minidx)
    {
      mn, mx, mnpos, mxpos, lookformax, maxtab, maxidx, mintab, minidx :=
        Visit(v, x, delta, i, DetRun(v, delta, i), mn, mx, mnpos, mxpos, lookformax, maxtab, maxidx, mintab, minidx);
    }
    return Success((maxtab, maxidx, mintab, minidx));
  }

  /** The loop body of `peakdet` for sample `i`. */
  method Visit(v: seq<real>, x: Option<seq<real>>, delta: real, i: nat, ghost d: Det,
               mn: Option<real>, mx: Option<real>, mnpos: Option<real>, mxpos: Option<real>, lookformax: bool,
               maxtab: seq<real>, maxidx: seq<real>, mintab: seq<real>, minidx: seq<real>)
    returns (mn': Option<real>, mx': Option<real>, mnpos': Option<real>, mxpos': Option<real>, lookformax': bool,
             maxtab': seq<real>, maxidx': seq<real>, mintab': seq<real>, minidx': seq<real>)
    requires i < |v| && Mirrors(v, x, d, mn, mx, mnpos, mxpos, lookformax, maxtab, maxidx, mintab, minidx)
    ensures Mirrors(v, x, DetStep(d, v, i, delta), mn', mx', mnpos', mxpos', lookformax', maxtab', maxidx', mintab', minidx')
  {
    mn', mx', mnpos', mxpos', lookformax' := mn, mx, mnpos, mxpos, lookformax;
    maxtab', maxidx', mintab', minidx' := maxtab, maxidx, mintab, minidx;
    var sample := v[i];
    if Exceeds(sample, mx') {
      mx' := Some(sample);
      mxpos' := Some(Place(x, i));
    }
    if Undercuts(sample, mn') {
      mn' := Some(sample);
      mnpos' := Some(Place(x, i));
    }
    if lookformax' {
      if sample < mx'.value - delta {
        maxtab' := maxtab' + [mx'.value];
        maxidx' := maxidx' + [mxpos'.value];
        mn' := Some(sample);
        mnpos' := Some(Place(x, i));
        lookformax' := false;
      }
    } else {
      if sample > mn'.value + delta {
        mintab' := mintab' + [mn'.value];
        minidx' := minidx' + [mnpos'.value];
        mx' := Some(sample);
        mxpos' := Some(Place(x, i));
        lookformax' := true;
      }
    }
  }

  /** Where the window of maximum `k` starts: at the minimum before it. */
  function MaxLo(minima: seq<nat>, k: nat): nat
  {
    if 0 < k <= |minima| then minima[k - 1] else 0
  }

  /** Where the window of maximum `k` ends: at the minimum after it, or at `n`. */
  function MaxHi(minima: seq<nat>, k: nat, n: nat): nat
  {
    if k < |minima| then minima[k] else n
  }

  /** Where the window of minimum `k` ends: at the maximum after it, or at `n`. */
  function MinHi(maxima: seq<nat>, k: nat, n: nat): nat
  {
    if k + 1 < |maxima| then maxima[k + 1] else n
  }

  /** Maximum `k` is the largest sample between its neighbouring minima
      (up to `n` while the next minimum is not yet recorded). */
  ghost predicate MaxWindow(v: seq<real>, maxima: seq<nat>, minima: seq<nat>, k: nat, n: nat)
  {
    k < |maxima| && maxima[k] < |v| && MaxHi(minima, k, n) <= |v| &&
    PeakDetection.AtMost(v, MaxLo(minima, k), MaxHi(minima, k, n), v[maxima[k]])
  }

  /** Minimum `k` is the smallest sample between its neighbouring maxima. */
  ghost predicate MinWindow(v: seq<real>, maxima: seq<nat>, minima: seq<nat>, k: nat, n: nat)
  {
    k < |minima| && k < |maxima| && minima[k] < |v| && MinHi(maxima, k, n) <= |v| &&
    PeakDetection.AtLeast(v, maxima[k], MinHi(maxima, k, n), v[minima[k]])
  }

  /** Each minimum lies more than `delta` below the maximum before it, and
      each later maximum more than `delta` above the minimum before it. */
  ghost predicate Separated(v: seq<real>, delta: real, maxima: seq<nat>, minima: seq<nat>)
  {
    (forall k :: 0 <= k < |maxima| ==> maxima[k] < |v|) &&
    (forall k :: 0 <= k < |minima| ==> minima[k] < |v|) &&
    |minima| <= |maxima| <= |minima| + 1 &&
    (forall k :: 0 <= k < |minima| ==> v[minima[k]] < v[maxima[k]] - delta) &&
    (forall k :: 0 < k < |maxima| ==> v[maxima[k]] > v[minima[k - 1]] + delta)
  }

  /** The recorded extrema among the first `n` samples: maxima and minima
      alternate, starting with a maximum, are `Separated`, and each is the
      extreme sample of its window. */
  ghost predicate Alternates(v: seq<real>, delta: real, maxima: seq<nat>, minima: seq<nat>, n: nat)
  {
    n <= |v| &&
    (forall k :: 0 <= k < |maxima| ==> maxima[k] < n) &&
    (forall k :: 0 <= k < |minima| ==> minima[k] < n) &&
    PeakDetection.Interleaved(maxima, minima) &&
    Separated(v, delta, maxima, minima) &&
    MaxWindows(v, maxima, minima, n) && MinWindows(v, maxima, minima, n)
  }

  ghost predicate MaxWindows(v: seq<real>, maxima: seq<nat>, minima: seq<nat>, n: nat)
  {
    forall k :: 0 <= k < |maxima| ==> MaxWindow(v, maxima, minima, k, n)
  }

  ghost predicate MinWindows(v: seq<real>, maxima: seq<nat>, minima: seq<nat>, n: nat)
  {
    forall k :: 0 <= k < |minima| ==> MinWindow(v, maxima, minima, k, n)
  }

  /** What the scan knows after `n` samples, besides `Alternates`. Looking for
      a maximum: the running maximum bounds every sample since the last
      minimum, nothing since it fell `delta` below it, and it lies more than
      `delta` above the last minimum. Looking for a minimum: the other way
      round. */
  ghost predicate DetScanned(v: seq<real>, delta: real, n: nat, d: Det)
  {
    0 < n <= |v| && d.mn.Some? && d.mx.Some? && d.mnAt < n && d.mxAt < n &&
    d.mn.value == v[d.mnAt] && d.mx.value == v[d.mxAt] &&
    Alternates(v, delta, d.maxima, d.minima, n) &&
    (d.lookForMax <==> |d.maxima| == |d.minima|) &&
    (d.lookForMax ==> SeekingMax(v, delta, n, d)) &&
    (!d.lookForMax ==> SeekingMin(v, delta, n, d))
  }

  ghost predicate SeekingMax(v: seq<real>, delta: real, n: nat, d: Det)
    requires n <= |v| && d.mx.Some? && d.mxAt < n && |d.maxima| == |d.minima|
    requires forall k :: 0 <= k < |d.minima| ==> d.minima[k] < n
  {
    MaxLo(d.minima, |d.maxima|) <= d.mxAt &&
    PeakDetection.AtMost(v, MaxLo(d.minima, |d.maxima|), n, d.mx.value) &&
    PeakDetection.AtLeast(v, d.mxAt, n, d.mx.value - delta) &&
    (|d.minima| > 0 ==> d.mx.value > v[d.minima[|d.minima| - 1]] + delta)
  }

  ghost predicate SeekingMin(v: seq<real>, delta: real, n: nat, d: Det)
    requires n <= |v| && d.mn.Some? && d.mnAt < n && |d.maxima| == |d.minima| + 1
    requires forall k :: 0 <= k < |d.maxima| ==> d.maxima[k] < n
  {
    d.maxima[|d.maxima| - 1] <= d.mnAt &&
    PeakDetection.AtLeast(v, d.maxima[|d.maxima| - 1], n, d.mn.value) &&
    PeakDetection.AtMost(v, d.mnAt, n, d.mn.value + delta) &&
    d.mn.value < v[d.maxima[|d.maxima| - 1]] - delta
  }

  lemma AtMostStep(v: seq<real>, lo: nat, n: nat, b: real, b': real)
    requires n < |v| && PeakDetection.AtMost(v, lo, n, b) && b <= b' && v[n] <= b'
    ensures PeakDetection.AtMost(v, lo, n + 1, b')
  {
  }

  lemma AtLeastStep(v: seq<real>, lo: nat, n: nat, b: real, b': real)
    requires n < |v| && PeakDetection.AtLeast(v, lo, n, b) && b' <= b && v[n] >= b'
    ensures PeakDetection.AtLeast(v, lo, n + 1, b')
  {
  }

  /** A sample that stays inside the open window extends it. */
  lemma AlternatesExtend(v: seq<real>, delta: real, maxima: seq<nat>, minima: seq<nat>, n: nat)
    requires n < |v| && Alternates(v, delta, maxima, minima, n)
    requires |maxima| == |minima| && |minima| > 0 ==> v[n] >= v[minima[|minima| - 1]]
    requires |maxima| == |minima| + 1 ==> v[n] <= v[maxima[|maxima| - 1]]
    ensures Alternates(v, delta, maxima, minima, n + 1)
  {
    var n1 := n + 1;
    forall k | 0 <= k < |maxima| ensures MaxWindow(v, maxima, minima, k, n1) {
      assert MaxWindow(v, maxima, minima, k, n);
    }
    forall k | 0 <= k < |minima| ensures MinWindow(v, maxima, minima, k, n1) {
      assert MinWindow(v, maxima, minima, k, n);
    }
  }

  /** Recording the maximum at `a` closes the window of the last minimum. */
  lemma AlternatesAddMax(v: seq<real>, delta: real, maxima: seq<nat>, minima: seq<nat>, n: nat, a: nat)
    requires n < |v| && Alternates(v, delta, maxima, minima, n) && |maxima| == |minima| && a < n
    requires |minima| > 0 ==> minima[|minima| - 1] < a && v[a] > v[minima[|minima| - 1]] + delta
    requires PeakDetection.AtMost(v, MaxLo(minima, |maxima|), n + 1, v[a])
    ensures Alternates(v, delta, maxima + [a], minima, n + 1)
  {
    var maxima' := maxima + [a];
    MaxWindowsAddMax(v, delta, maxima, minima, n, a);
    MinWindowsAddMax(v, delta, maxima, minima, n, a);
    PeakDetection.InterleavedExtendA(maxima, minima, a);
    SeparatedAddMax(v, delta, maxima, minima, a);
    assert forall k :: 0 <= k < |maxima'| ==> maxima'[k] < n + 1;
  }

  lemma MaxWindowsAddMax(v: seq<real>, delta: real, maxima: seq<nat>, minima: seq<nat>, n: nat, a: nat)
    requires n < |v| && MaxWindows(v, maxima, minima, n) && |maxima| == |minima| && a < n
    requires PeakDetection.AtMost(v, MaxLo(minima, |maxima|), n + 1, v[a])
    ensures MaxWindows(v, maxima + [a], minima, n + 1)
  {
    var maxima' := maxima + [a];
    var n1 := n + 1;
    forall k | 0 <= k < |maxima'| ensures MaxWindow(v, maxima', minima, k, n1) {
      if k < |maxima| {
        MaxWindowKept(v, maxima, minima, maxima', minima, k, n, n1);
      } else {
        assert maxima'[k] == a && MaxHi(minima, k, n1) == n1;
      }
    }
  }

  lemma MinWindowsAddMax(v: seq<real>, delta: real, maxima: seq<nat>, minima: seq<nat>, n: nat, a: nat)
    requires n < |v| && MinWindows(v, maxima, minima, n) && |maxima| == |minima| && a < n
    ensures MinWindows(v, maxima + [a], minima, n + 1)
  {
    var maxima' := maxima + [a];
    var n1 := n + 1;
    forall k | 0 <= k < |minima| ensures MinWindow(v, maxima', minima, k, n1) {
      MinWindowKept(v, maxima, minima, maxima', minima, k, n, n1);
    }
  }

  /** A window that keeps its extreme and its start, and does not grow,
      stays a window of that extreme. */
  lemma MaxWindowKept(v: seq<real>, maxima: seq<nat>, minima: seq<nat>, maxima': seq<nat>, minima': seq<nat>,
                      k: nat, n: nat, n': nat)
    requires MaxWindow(v, maxima, minima, k, n) && k < |maxima'| && maxima'[k] == maxima[k]
    requires MaxLo(minima', k) == MaxLo(minima, k) && MaxHi(minima', k, n') <= MaxHi(minima, k, n)
    ensures MaxWindow(v, maxima', minima', k, n')
  {
  }

  lemma MinWindowKept(v: seq<real>, maxima: seq<nat>, minima: seq<nat>, maxima': seq<nat>, minima': seq<nat>,
                      k: nat, n: nat, n': nat)
    requires MinWindow(v, maxima, minima, k, n) && k < |minima'| && k < |maxima'|
    requires minima'[k] == minima[k] && maxima'[k] == maxima[k]
    requires MinHi(maxima', k, n') <= MinHi(maxima, k, n)
    ensures MinWindow(v, maxima', minima', k, n')
  {
  }

  lemma SeparatedAddMax(v: seq<real>, delta: real, maxima: seq<nat>, minima: seq<nat>, a: nat)
    requires Separated(v, delta, maxima, minima) && |maxima| == |minima| && a < |v|
    requires |minima| > 0 ==> v[a] > v[minima[|minima| - 1]] + delta
    ensures Separated(v, delta, maxima + [a], minima)
  {
    var maxima' := maxima + [a];
    assert forall k :: 0 <= k < |maxima| ==> maxima'[k] == maxima[k];
  }

  lemma SeparatedAddMin(v: seq<real>, delta: real, maxima: seq<nat>, minima: seq<nat>, b: nat)
    requires Separated(v, delta, maxima, minima) && |maxima| == |minima| + 1 && b < |v|
    requires v[b] < v[maxima[|maxima| - 1]] - delta
    ensures Separated(v, delta, maxima, minima + [b])
  {
    var minima' := minima + [b];
    assert forall k :: 0 <= k < |minima| ==> minima'[k] == minima[k];
  }

  /** Recording the minimum at `b` closes the window of the last maximum. */
  lemma AlternatesAddMin(v: seq<real>, delta: real, maxima: seq<nat>, minima: seq<nat>, n: nat, b: nat)
    requires n < |v| && Alternates(v, delta, maxima, minima, n) && |maxima| == |minima| + 1 && b < n
    requires maxima[|maxima| - 1] < b && v[b] < v[maxima[|maxima| - 1]] - delta
    requires PeakDetection.AtLeast(v, maxima[|maxima| - 1], n + 1, v[b])
    ensures Alternates(v, delta, maxima, minima + [b], n + 1)
  {
    var minima' := minima + [b];
    MaxWindowsAddMin(v, delta, maxima, minima, n, b);
    MinWindowsAddMin(v, delta, maxima, minima, n, b);
    PeakDetection.InterleavedExtendB(maxima, minima, b);
    SeparatedAddMin(v, delta, maxima, minima, b);
    assert forall k :: 0 <= k < |minima'| ==> minima'[k] < n + 1;
  }

  lemma MaxWindowsAddMin(v: seq<real>, delta: real, maxima: seq<nat>, minima: seq<nat>, n: nat, b: nat)
    requires n < |v| && MaxWindows(v, maxima, minima, n) && |maxima| == |minima| + 1 && b < n
    ensures MaxWindows(v, maxima, minima + [b], n + 1)
  {
    var minima' := minima + [b];
    var n1 := n + 1;
    forall k | 0 <= k < |maxima| ensures MaxWindow(v, maxima, minima', k, n1) {
      MaxWindowKept(v, maxima, minima, maxima, minima', k, n, n1);
    }
  }

  lemma MinWindowsAddMin(v: seq<real>, delta: real, maxima: seq<nat>, minima: seq<nat>, n: nat, b: nat)
    requires n < |v| && MinWindows(v, maxima, minima, n) && |maxima| == |minima| + 1 && b < n
    requires PeakDetection.AtLeast(v, maxima[|maxima| - 1], n + 1, v[b])
    ensures MinWindows(v, maxima, minima + [b], n + 1)
  {
    var minima' := minima + [b];
    var n1 := n + 1;
    forall k | 0 <= k < |minima'| ensures MinWindow(v, maxima, minima', k, n1) {
      if k < |minima| {
        MinWindowKept(v, maxima, minima, maxima, minima', k, n, n1);
      } else {
        assert minima'[k] == b && MinHi(maxima, k, n1) == n1;
      }
    }
  }

  lemma DetStepForMax(v: seq<real>, delta: real, n: nat, d: Det)
    requires delta > 0.0 && n < |v| && DetScanned(v, delta, n, d) && d.lookForMax
    ensures DetScanned(v, delta, n + 1, DetStep(d, v, n, delta))
  {
    if v[n] < d.mx.value - delta {
      MaxFound(v, delta, n, d);
    } else {
      MaxPending(v, delta, n, d);
    }
  }

  /** A sample more than `delta` below the running maximum records it. */
  lemma MaxFound(v: seq<real>, delta: real, n: nat, d: Det)
    requires delta > 0.0 && n < |v| && DetScanned(v, delta, n, d) && d.lookForMax && v[n] < d.mx.value - delta
    ensures DetScanned(v, delta, n + 1, DetStep(d, v, n, delta))
  {
    var d' := d.(maxima := d.maxima + [d.mxAt], mn := Some(v[n]), mnAt := n, lookForMax := false);
    assert DetStep(d, v, n, delta) == d';
    if |d.minima| > 0 {
      assert d.minima[|d.minima| - 1] != d.mxAt;
    }
    AtMostStep(v, MaxLo(d.minima, |d.maxima|), n, d.mx.value, d.mx.value);
    AlternatesAddMax(v, delta, d.maxima, d.minima, n, d.mxAt);
    AtLeastStep(v, d.mxAt, n, d.mx.value - delta, v[n]);
    assert SeekingMin(v, delta, n + 1, d');
  }

  lemma MaxPending(v: seq<real>, delta: real, n: nat, d: Det)
    requires delta > 0.0 && n < |v| && DetScanned(v, delta, n, d) && d.lookForMax && !(v[n] < d.mx.value - delta)
    ensures DetScanned(v, delta, n + 1, DetStep(d, v, n, delta))
  {
    AlternatesExtend(v, delta, d.maxima, d.minima, n);
    if v[n] > d.mx.value {
      MaxRaised(v, delta, n, d);
    } else {
      MaxHeld(v, delta, n, d);
    }
  }

  lemma MaxRaised(v: seq<real>, delta: real, n: nat, d: Det)
    requires delta > 0.0 && n < |v| && DetScanned(v, delta, n, d) && d.lookForMax && v[n] > d.mx.value
    requires Alternates(v, delta, d.maxima, d.minima, n + 1)
    ensures DetScanned(v, delta, n + 1, DetStep(d, v, n, delta))
  {
    var sample := v[n];
    var d1 := d.(mx := Some(sample), mxAt := n);
    var d2 := if sample < d1.mn.value then d1.(mn := Some(sample), mnAt := n) else d1;
    assert DetStep(d, v, n, delta) == d2;
    AtMostStep(v, MaxLo(d.minima, |d.maxima|), n, d.mx.value, sample);
  }

  lemma MaxHeld(v: seq<real>, delta: real, n: nat, d: Det)
    requires delta > 0.0 && n < |v| && DetScanned(v, delta, n, d) && d.lookForMax
    requires d.mx.value - delta <= v[n] <= d.mx.value
    requires Alternates(v, delta, d.maxima, d.minima, n + 1)
    ensures DetScanned(v, delta, n + 1, DetStep(d, v, n, delta))
  {
    var sample := v[n];
    var d2 := if sample < d.mn.value then d.(mn := Some(sample), mnAt := n) else d;
    assert DetStep(d, v, n, delta) == d2;
    AtMostStep(v, MaxLo(d.minima, |d.maxima|), n, d.mx.value, d.mx.value);
    AtLeastStep(v, d.mxAt, n, d.mx.value - delta, d.mx.value - delta);
  }

  lemma DetStepForMin(v: seq<real>, delta: real, n: nat, d: Det)
    requires delta > 0.0 && n < |v| && DetScanned(v, delta, n, d) && !d.lookForMax
    ensures DetScanned(v, delta, n + 1, DetStep(d, v, n, delta))
  {
    if v[n] > d.mn.value + delta {
      MinFound(v, delta, n, d);
    } else {
      MinPending(v, delta, n, d);
    }
  }

  /** A sample more than `delta` above the running minimum records it. */
  lemma MinFound(v: seq<real>, delta: real, n: nat, d: Det)
    requires delta > 0.0 && n < |v| && DetScanned(v, delta, n, d) && !d.lookForMax && v[n] > d.mn.value + delta
    ensures DetScanned(v, delta, n + 1, DetStep(d, v, n, delta))
  {
    var d' := d.(minima := d.minima + [d.mnAt], mx := Some(v[n]), mxAt := n, lookForMax := true);
    assert DetStep(d, v, n, delta) == d';
    assert d.maxima[|d.maxima| - 1] != d.mnAt;
    AtLeastStep(v, d.maxima[|d.maxima| - 1], n, d.mn.value, d.mn.value);
    AlternatesAddMin(v, delta, d.maxima, d.minima, n, d.mnAt);
    AtMostStep(v, d.mnAt, n, d.mn.value + delta, v[n]);
    assert MaxLo(d'.minima, |d'.maxima|) == d.mnAt;
    assert SeekingMax(v, delta, n + 1, d');
  }

  lemma MinPending(v: seq<real>, delta: real, n: nat, d: Det)
    requires delta > 0.0 && n < |v| && DetScanned(v, delta, n, d) && !d.lookForMax && !(v[n] > d.mn.value + delta)
    ensures DetScanned(v, delta, n + 1, DetStep(d, v, n, delta))
  {
    AlternatesExtend(v, delta, d.maxima, d.minima, n);
    if v[n] < d.mn.value {
      MinLowered(v, delta, n, d);
    } else {
      MinHeld(v, delta, n, d);
    }
  }

  lemma MinLowered(v: seq<real>, delta: real, n: nat, d: Det)
    requires delta > 0.0 && n < |v| && DetScanned(v, delta, n, d) && !d.lookForMax && v[n] < d.mn.value
    requires Alternates(v, delta, d.maxima, d.minima, n + 1)
    ensures DetScanned(v, delta, n + 1, DetStep(d, v, n, delta))
  {
    var sample := v[n];
    var d1 := if sample > d.mx.value then d.(mx := Some(sample), mxAt := n) else d;
    assert DetStep(d, v, n, delta) == d1.(mn := Some(sample), mnAt := n);
    AtLeastStep(v, d.maxima[|d.maxima| - 1], n, d.mn.value, sample);
  }

  lemma MinHeld(v: seq<real>, delta: real, n: nat, d: Det)
    requires delta > 0.0 && n < |v| && DetScanned(v, delta, n, d) && !d.lookForMax
    requires d.mn.value <= v[n] <= d.mn.value + delta
    requires Alternates(v, delta, d.maxima, d.minima, n + 1)
    ensures DetScanned(v, delta, n + 1, DetStep(d, v, n, delta))
  {
    var sample := v[n];
    var d1 := if sample > d.mx.value then d.(mx := Some(sample), mxAt := n) else d;
    assert DetStep(d, v, n, delta) == d1;
    AtLeastStep(v, d.maxima[|d.maxima| - 1], n, d.mn.value, d.mn.value);
    AtMostStep(v, d.mnAt, n, d.mn.value + delta, d.mn.value + delta);
  }

  /** After the first sample both extremes are that sample. */
  lemma DetFirst(v: seq<real>, delta: real)
    requires delta > 0.0 && 0 < |v|
    ensures DetScanned(v, delta, 1, DetRun(v, delta, 1))
  {
    assert DetRun(v, delta, 1) == Det(Some(v[0]), Some(v[0]), 0, 0, true, [], []);
  }

  /** The scan keeps `DetScanned` from the first sample on. */
  lemma {:induction false} DetRunScanned(v: seq<real>, delta: real, n: nat)
    requires delta > 0.0 && 0 < n <= |v|
    ensures DetScanned(v, delta, n, DetRun(v, delta, n))
  {
    if n == 1 {
      DetFirst(v, delta);
    } else {
      DetRunScanned(v, delta, n - 1);
      var d := DetRun(v, delta, n - 1);
      if d.lookForMax {
        DetStepForMax(v, delta, n - 1, d);
      } else {
        DetStepForMin(v, delta, n - 1, d);
      }
    }
  }

  /** Every recorded maximum is confirmed: a later sample lies more than
      `delta` below it. */
  lemma MaxConfirmed(v: seq<real>, delta: real, k: nat)
    requires delta > 0.0 && 0 < |v| && k < |DetRun(v, delta, |v|).maxima|
    ensures var d := DetRun(v, delta, |v|);
            exists j :: d.maxima[k] < j < |v| && v[j] < v[d.maxima[k]] - delta
  {
    var d := DetRun(v, delta, |v|);
    DetRunScanned(v, delta, |v|);
    if k < |d.minima| {
      assert d.maxima[k] < d.minima[k] && v[d.minima[k]] < v[d.maxima[k]] - delta;
    } else {
      assert !d.lookForMax && k == |d.maxima| - 1;
      assert SeekingMin(v, delta, |v|, d);
      assert d.maxima[k] < d.mnAt && v[d.mnAt] < v[d.maxima[k]] - delta;
    }
  }

  /** Every recorded minimum is confirmed: a later sample lies more than
      `delta` above it. */
  lemma MinConfirmed(v: seq<real>, delta: real, k: nat)
    requires delta > 0.0 && 0 < |v| && k < |DetRun(v, delta, |v|).minima|
    ensures var d := DetRun(v, delta, |v|);
            exists j :: d.minima[k] < j < |v| && v[j] > v[d.minima[k]] + delta
  {
    var d := DetRun(v, delta, |v|);
    DetRunScanned(v, delta, |v|);
    if k + 1 < |d.maxima| {
      assert d.minima[k] < d.maxima[k + 1] && v[d.maxima[k + 1]] > v[d.minima[k]] + delta;
    } else {
      assert d.lookForMax && k == |d.minima| - 1 && MaxLo(d.minima, |d.maxima|) == d.minima[k];
      assert d.minima[k] < d.mxAt && v[d.mxAt] > v[d.minima[k]] + delta;
    }
  }

  /** Every maximum after the first is preceded by a sample more than
      `delta` below it. */
  lemma MaxPreceded(v: seq<real>, delta: real, k: nat)
    requires delta > 0.0 && 0 < |v| && 0 < k < |DetRun(v, delta, |v|).maxima|
    ensures var d := DetRun(v, delta, |v|);
            exists j :: 0 <= j < d.maxima[k] && v[j] < v[d.maxima[k]] - delta
  {
    var d := DetRun(v, delta, |v|);
    DetRunScanned(v, delta, |v|);
    assert d.minima[k - 1] < d.maxima[k] && v[d.minima[k - 1]] < v[d.maxima[k]] - delta;
  }

  /** Every minimum is preceded by a sample more than `delta` above it. */
  lemma MinPreceded(v: seq<real>, delta: real, k: nat)
    requires delta > 0.0 && 0 < |v| && k < |DetRun(v, delta, |v|).minima|
    ensures var d := DetRun(v, delta, |v|);
            exists j :: 0 <= j < d.minima[k] && v[j] > v[d.minima[k]] + delta
  {
    var d := DetRun(v, delta, |v|);
    DetRunScanned(v, delta, |v|);
    assert d.maxima[k] < d.minima[k] && v[d.maxima[k]] > v[d.minima[k]] + delta;
  }

  /** Each maximum is the largest sample between the minima around it
      (the last one: up to the end of the data). */
  lemma MaxOfWindow(v: seq<real>, delta: real, k: nat)
    requires delta > 0.0 && 0 < |v| && k < |DetRun(v, delta, |v|).maxima|
    ensures var d := DetRun(v, delta, |v|);
            forall j :: MaxLo(d.minima, k) <= j < MaxHi(d.minima, k, |v|) ==> v[j] <= v[d.maxima[k]]
  {
    var d := DetRun(v, delta, |v|);
    DetRunScanned(v, delta, |v|);
    assert MaxWindow(v, d.maxima, d.minima, k, |v|);
  }

  /** Each minimum is the smallest sample between the maxima around it. */
  lemma MinOfWindow(v: seq<real>, delta: real, k: nat)
    requires delta > 0.0 && 0 < |v| && k < |DetRun(v, delta, |v|).minima|
    ensures var d := DetRun(v, delta, |v|);
            k < |d.maxima| &&
            forall j :: d.maxima[k] <= j < MinHi(d.maxima, k, |v|) ==> v[j] >= v[d.minima[k]]
  {
    var d := DetRun(v, delta, |v|);
    DetRunScanned(v, delta, |v|);
    assert MinWindow(v, d.maxima, d.minima, k, |v|);
  }

  /** The tables `peakdet` returns: maxima and minima alternate, starting
      with a maximum, each minimum more than `delta` below the maximum before
      it and each later maximum more than `delta` above the minimum before
      it. */
  lemma PeakDetTables(v: seq<real>, delta: real, x: Option<seq<real>>)
    requires delta > 0.0 && (x.Some? ==> |x.value| == |v|)
    ensures PeakDetResult(v, delta, x).Success?
    ensures var (maxtab, maxidx, mintab, minidx) := PeakDetResult(v, delta, x).value;
            |maxtab| == |maxidx| && |mintab| == |minidx| &&
            |mintab| <= |maxtab| <= |mintab| + 1 &&
            (forall k :: 0 <= k < |mintab| ==> mintab[k] < maxtab[k] - delta) &&
            (forall k :: 0 < k < |maxtab| ==> maxtab[k] > mintab[k - 1] + delta)
  {
    var d := DetRun(v, delta, |v|);
    assert PeakDetResult(v, delta, x) ==
           Success((Indexed(v, d.maxima), Places(x, d.maxima), Indexed(v, d.minima), Places(x, d.minima)));
    if 0 < |v| {
      DetRunScanned(v, delta, |v|);
      assert Separated(v, delta, d.maxima, d.minima);
      TablesSeparated(v, delta, d.maxima, d.minima);
    }
  }

  /** Without `x` the positions are sample indices, maxima and minima
      taking turns in increasing order. */
  lemma PeakDetPositions(v: seq<real>, delta: real)
    requires delta > 0.0
    ensures PeakDetResult(v, delta, None).Success?
    ensures var (_, maxidx, _, minidx) := PeakDetResult(v, delta, None).value;
            (forall k :: 0 <= k < |minidx| ==> k < |maxidx| && maxidx[k] < minidx[k]) &&
            (forall k :: 0 < k < |maxidx| ==> k - 1 < |minidx| && minidx[k - 1] < maxidx[k]) &&
            (forall k :: 0 <= k < |maxidx| ==> maxidx[k] < |v| as real) &&
            (forall k :: 0 <= k < |minidx| ==> minidx[k] < |v| as real)
  {
    var d := DetRun(v, delta, |v|);
    assert PeakDetResult(v, delta, None) ==
           Success((Indexed(v, d.maxima), Places(None, d.maxima), Indexed(v, d.minima), Places(None, d.minima)));
    if 0 < |v| {
      DetRunScanned(v, delta, |v|);
      assert PeakDetection.Interleaved(d.maxima, d.minima);
      PlacesInterleaved(d.maxima, d.minima, |v|);
    }
  }

  lemma TablesSeparated(v: seq<real>, delta: real, maxima: seq<nat>, minima: seq<nat>)
    requires Separated(v, delta, maxima, minima)
    ensures var maxtab, mintab := Indexed(v, maxima), Indexed(v, minima);
            (forall k :: 0 <= k < |mintab| ==> mintab[k] < maxtab[k] - delta) &&
            (forall k :: 0 < k < |maxtab| ==> maxtab[k] > mintab[k - 1] + delta)
  {
  }

  lemma PlacesInterleaved(maxima: seq<nat>, minima: seq<nat>, n: nat)
    requires PeakDetection.Interleaved(maxima, minima)
    requires forall k :: 0 <= k < |maxima| ==> maxima[k] < n
    requires forall k :: 0 <= k < |minima| ==> minima[k] < n
    ensures var maxidx, minidx := Places(None, maxima), Places(None, minima);
            (forall k :: 0 <= k < |minidx| ==> k < |maxidx| && maxidx[k] < minidx[k]) &&
            (forall k :: 0 < k < |maxidx| ==> k - 1 < |minidx| && minidx[k - 1] < maxidx[k]) &&
            (forall k :: 0 <= k < |maxidx| ==> maxidx[k] < n as real) &&
            (forall k :: 0 <= k < |minidx| ==> minidx[k] < n as real)
  {
  }

  /** The first maximum needs no drop before it: on `[5, 0]` with `delta`
      1 the sample 5 at index 0 is reported although nothing precedes it. */
  lemma FirstMaxUnpreceded()
    ensures DetRun([5.0, 0.0], 1.0, 2).maxima == [0]
  {
    var v := [5.0, 0.0];
    assert DetRun(v, 1.0, 1) == Det(Some(5.0), Some(5.0), 0, 0, true, [], []);
  }

  // ---------------------------------------------------------------------
  // create_outp_folder

  /** Python's `str.split(c)`: the pieces between the occurrences of `c`,
      always at least one. */
  function Split(s: string, c: char): (r: seq<string>)
    ensures |r| >= 1
    ensures forall k :: 0 <= k < |r| ==> c !in r[k]
  {
    if |s| == 0 then [""]
    else
      var rest := Split(s[1..], c);
      if s[0] == c then [""] + rest
      else [[s[0]] + rest[0]] + rest[1..]
  }

  /** Python's `c.join(xs)`. */
  function Join(xs: seq<string>, c: char): string
  {
    if |xs| == 0 then ""
    else if |xs| == 1 then xs[0]
    else xs[0] + [c] + Join(xs[1..], c)
  }

  /** Joining the pieces gives back the string. */
  lemma {:induction false} JoinSplit(s: string, c: char)
    ensures Join(Split(s, c), c) == s
  {
    if |s| > 0 {
      var rest := Split(s[1..], c);
      JoinSplit(s[1..], c);
      if s[0] == c {
        assert Split(s, c) == [""] + rest;
        assert s == [c] + s[1..];
      } else if |rest| == 1 {
        assert Split(s, c) == [[s[0]] + rest[0]];
        assert s == [s[0]] + s[1..];
      } else {
        var xs := Split(s, c);
        assert xs == [[s[0]] + rest[0]] + rest[1..];
        assert xs[1..] == rest[1..];
        assert Join(rest, c) == rest[0] + [c] + Join(rest[1..], c);
        assert s == [s[0]] + s[1..];
      }
    }
  }

  /** A piece without `c`, then `c`, then the rest, splits into that piece
      followed by the split of the rest. */
  lemma {:induction false} SplitPiece(a: string, c: char, rest: string)
    requires c !in a
    ensures Split(a + [c] + rest, c) == [a] + Split(rest, c)
  {
    if |a| == 0 {
      assert a + [c] + rest == [c] + rest;
      assert ([c] + rest)[1..] == rest;
    } else {
      SplitPiece(a[1..], c, rest);
      assert (a + [c] + rest)[1..] == a[1..] + [c] + rest;
      assert [a[0]] + a[1..] == a;
    }
  }

  /** A piece without `c` splits into itself. */
  lemma {:induction false} SplitWhole(a: string, c: char)
    requires c !in a
    ensures Split(a, c) == [a]
  {
    if |a| > 0 {
      SplitWhole(a[1..], c);
      assert [a[0]] + a[1..] == a;
    }
  }

  /** Splitting a join of pieces without `c` gives back the pieces. */
  lemma {:induction false} SplitJoin(xs: seq<string>, c: char)
    requires |xs| >= 1 && forall k :: 0 <= k < |xs| ==> c !in xs[k]
    ensures Split(Join(xs, c), c) == xs
  {
    if |xs| == 1 {
      SplitWhole(xs[0], c);
    } else {
      SplitJoin(xs[1..], c);
      SplitPiece(xs[0], c, Join(xs[1..], c));
      assert [xs[0]] + xs[1..] == xs;
    }
  }

  /** Python's slice `xs[-3:-1]` of a non-empty list: the two items before
      the last one, or as many of them as there are. */
  function TwoBeforeLast<T>(xs: seq<T>): (r: seq<T>)
    requires |xs| >= 1
    ensures |r| == if |xs| >= 3 then 2 else |xs| - 1
    ensures |xs| >= 3 ==> r == [xs[|xs| - 3], xs[|xs| - 2]]
    ensures |xs| == 2 ==> r == [xs[0]]
  {
    xs[if |xs| >= 3 then |xs| - 3 else 0 .. |xs| - 1]
  }

  /** The aborts of `create_outp_folder`: no `.` in the file path (`[-2]`
      out of range), or an empty folder name (`[-1]` out of range). */
  datatype FolderError = NoExtension | EmptyOutPath | EmptyFieldFolder

  /** The folder names of the two directories that hold the file, joined by
      `/`: the part before the last `.`-separated piece of the path, split
      on `/`. */
  function FieldFolder(filepath: string): Result<string, FolderError>
  {
    var parts := Split(filepath, '.');
    if |parts| < 2 then Failure(NoExtension)
    else Success(Join(TwoBeforeLast(Split(parts[|parts| - 2], '/')), '/'))
  }

  /** `path` with a `/` appended unless it already ends in one. */
  function EnsureSlash(path: string): (r: string)
    requires |path| > 0
    ensures |path| <= |r| <= |path| + 1 && r[|r| - 1] == '/'
    ensures r[..|path|] == path
  {
    if path[|path| - 1] != '/' then path + "/" else path
  }

  lemma EnsureSlashIdempotent(path: string)
    requires |path| > 0
    ensures EnsureSlash(EnsureSlash(path)) == EnsureSlash(path)
  {
    var r := EnsureSlash(path);
    assert r[|r| - 1] == '/';
  }

  /** `create_outp_folder`: the output path, then the field folder, each
      ending in `/`. Dictionary order puts `out_path` (key 1) first. */
  function OutputFolder(filepath: string, outPath: string): (r: Result<string, FolderError>)
    ensures r.Failure? <==>
            FieldFolder(filepath).Failure? || |outPath| == 0 || |FieldFolder(filepath).value| == 0
    ensures r.Success? ==> |r.value| > 0 && r.value[|r.value| - 1] == '/'
    ensures r.Success? ==> |outPath| < |r.value| && r.value[..|outPath|] == outPath
  {
    var field := FieldFolder(filepath);
    if field.Failure? then Failure(field.error)
    else if |outPath| == 0 then Failure(EmptyOutPath)
    else if |field.value| == 0 then Failure(EmptyFieldFolder)
    else Success(EnsureSlash(outPath) + EnsureSlash(field.value))
  }

  /** The field folder names at most two directories, and exactly the two
      that hold the file when the path is deep enough. */
  lemma FieldFolderParts(filepath: string)
    requires FieldFolder(filepath).Success?
    ensures var parts := Split(filepath, '.');
            var dirs := Split(parts[|parts| - 2], '/');
            var field := FieldFolder(filepath).value;
            (|dirs| >= 3 ==> Split(field, '/') == [dirs[|dirs| - 3], dirs[|dirs| - 2]]) &&
            (|dirs| == 2 ==> field == dirs[0]) &&
            (|dirs| == 1 ==> field == "")
  {
    var parts := Split(filepath, '.');
    var dirs := Split(parts[|parts| - 2], '/');
    assert FieldFolder(filepath).value == Join(TwoBeforeLast(dirs), '/');
    JoinTwoBeforeLast(dirs);
  }

  lemma JoinTwoBeforeLast(dirs: seq<string>)
    requires |dirs| >= 1 && forall k :: 0 <= k < |dirs| ==> '/' !in dirs[k]
    ensures var field := Join(TwoBeforeLast(dirs), '/');
            (|dirs| >= 3 ==> Split(field, '/') == [dirs[|dirs| - 3], dirs[|dirs| - 2]]) &&
            (|dirs| == 2 ==> field == dirs[0]) &&
            (|dirs| == 1 ==> field == "")
  {
    var two := TwoBeforeLast(dirs);
    if |dirs| >= 3 {
      SplitJoin(two, '/');
    }
  }

  /** Without slashes to add, the folder is the output path, the field
      folder and a closing `/`; on a typical recording path that is the
      output path followed by the two directories above the file. */
  lemma OutputFolderShape(filepath: string, outPath: string)
    requires FieldFolder(filepath).Success? && |outPath| > 0 && outPath[|outPath| - 1] == '/'
    requires var f := FieldFolder(filepath).value; |f| > 0 && f[|f| - 1] != '/'
    ensures OutputFolder(filepath, outPath) == Success(outPath + FieldFolder(filepath).value + "/")
  {
    var f := FieldFolder(filepath).value;
    assert EnsureSlash(outPath) == outPath && EnsureSlash(f) == f + "/";
    assert outPath + (f + "/") == outPath + f + "/";
  }

  /** A bare file name has no folders above it and aborts. */
  lemma BareFileNameFails()
    ensures OutputFolder("rec.wav", "./") == Failure(EmptyFieldFolder)
  {
    assert "rec.wav" == "rec" + ['.'] + "wav";
    SplitPiece("rec", '.', "wav");
    SplitWhole("wav", '.');
    SplitWhole("rec", '/');
  }
}
