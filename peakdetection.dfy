/** The fixed-threshold peak and trough detector of Todd and Andrews (1999):
    `detect_peaks_troughs`, `detect_peaks`, the `accept_peak` callback and the
    `trim` / `trim_to_peak` helpers. */
module PeakDetection {
  import opened Wrappers

  /** The aborts before the scan, and the index error on empty data. */
  datatype Error = NonPositiveThreshold | LengthMismatch | EmptyData

  /** The scanner's state: the direction (`1` rising, `-1` falling, `0` not
      yet known) and the running minimum and maximum with their indices. */
  datatype Scan = Scan(dir: int, minInx: nat, maxInx: nat, minValue: real, maxValue: real)

  datatype Kind = Peak | Trough

  /** A detection: the extremum at `inx`, found when the scan is at `index`;
      `other` is the index of the opposite extremum it follows (the `min_inx`
      or `max_inx` that a check callback receives). */
  datatype Event = Event(kind: Kind, inx: nat, index: nat, other: nat)

  /** What happens to a detection: no callback, or `accept_peak`. */
  datatype Check = NoCheck | AcceptPeak

  /** One entry of a result list: an index (no time array), a time, or the
      list a callback returned. */
  datatype Report = Index(i: nat) | Time(t: real) | Values(vs: seq<real>)

  function Init(data: seq<real>): Scan
    requires |data| > 0
  {
    Scan(0, 0, 0, data[0], data[0])
  }

  /** One pass of the loop body over `value == data[index]`. */
  function Step(s: Scan, index: nat, value: real, threshold: real): (Scan, Option<Event>)
  {
    if s.dir > 0 then
      if value > s.maxValue then (s.(maxInx := index, maxValue := value), None)
      else if s.maxValue >= value + threshold then
        (s.(minInx := index, minValue := value, dir := -1), Some(Event(Peak, s.maxInx, index, s.minInx)))
      else (s, None)
    else if s.dir < 0 then
      if value < s.minValue then (s.(minInx := index, minValue := value), None)
      else if value >= s.minValue + threshold then
        (s.(maxInx := index, maxValue := value, dir := 1), Some(Event(Trough, s.minInx, index, s.maxInx)))
      else (s, None)
    else
      var s' := s.(dir := if s.maxValue >= value + threshold then -1 else if value >= s.minValue + threshold then 1 else 0);
      if s.maxValue < value then (s'.(maxInx := index, maxValue := value), None)
      else if value < s.minValue then (s'.(minInx := index, minValue := value), None)
      else (s', None)
  }

  /** The state and the detections after the first `n` samples. */
  function Run(data: seq<real>, threshold: real, n: nat): (r: (Scan, seq<Event>))
    requires 0 < |data| && n <= |data|
    ensures n > 0 ==> r.0.minInx < n && r.0.maxInx < n
    ensures forall k :: 0 <= k < |r.1| ==> r.1[k].inx < r.1[k].index < n
  {
    if n == 0 then (Init(data), [])
    else
      var (s, evs) := Run(data, threshold, n - 1);
      var (s', e) := Step(s, n - 1, data[n - 1], threshold);
      (s', Extend(evs, e))
  }

  function Extend(evs: seq<Event>, e: Option<Event>): seq<Event>
  {
    if e.Some? then evs + [e.value] else evs
  }

  function Events(data: seq<real>, threshold: real): (evs: seq<Event>)
    requires 0 < |data|
    ensures forall k :: 0 <= k < |evs| ==> evs[k].inx < evs[k].index < |data|
  {
    Run(data, threshold, |data|).1
  }

  /** `accept_peak`: the index, the time when there is one, and the value of
      the detected extremum; the threshold is left as it is (`None`). */
  function AcceptPeakEntry(time: Option<seq<real>>, data: seq<real>, eventInx: nat, index: nat, minInx: nat,
                           threshold: real): (r: (seq<real>, Option<real>))
    requires eventInx < |data| && (time.Some? ==> eventInx < |time.value|)
    ensures r.1.None?
    ensures |r.0| == (if time.Some? then 3 else 2)
    ensures r.0[0] == eventInx as real && r.0[|r.0| - 1] == data[eventInx]
    ensures time.Some? ==> r.0[1] == time.value[eventInx]
  {
    if time.None? then ([eventInx as real, data[eventInx]], None)
    else ([eventInx as real, time.value[eventInx], data[eventInx]], None)
  }

  function ReportOf(e: Event, data: seq<real>, time: Option<seq<real>>, check: Check, threshold: real): Report
    requires e.inx < |data| && (time.Some? ==> |time.value| == |data|)
  {
    match check
    case NoCheck => if time.None? then Index(e.inx) else Time(time.value[e.inx])
    case AcceptPeak => Values(AcceptPeakEntry(time, data, e.inx, e.index, e.other, threshold).0)
  }

  /** The list the detector builds for the detections of one kind. */
  function Reports(evs: seq<Event>, kind: Kind, data: seq<real>, time: Option<seq<real>>, check: Check,
                   threshold: real): seq<Report>
    requires forall k :: 0 <= k < |evs| ==> evs[k].inx < |data|
    requires time.Some? ==> |time.value| == |data|
  {
    if evs == [] then []
    else
      var e := evs[|evs| - 1];
      Reports(evs[..|evs| - 1], kind, data, time, check, threshold) +
      (if e.kind == kind then [ReportOf(e, data, time, check, threshold)] else [])
  }

  /** The result of `detect_peaks_troughs`: its aborts, in the order it
      checks them, then the peak list and the trough list. */
  function PeaksTroughs(data: seq<real>, threshold: real, time: Option<seq<real>>, peakCheck: Check,
                        troughCheck: Check): Result<(seq<Report>, seq<Report>), Error>
  {
    if threshold <= 0.0 then Failure(NonPositiveThreshold)
    else if time.Some? && |data| != |time.value| then Failure(LengthMismatch)
    else if |data| == 0 then Failure(EmptyData)
    else
      var evs := Events(data, threshold);
      Success((Reports(evs, Peak, data, time, peakCheck, threshold),
               Reports(evs, Trough, data, time, troughCheck, threshold)))
  }

  /** `detect_peaks_troughs` without callbacks or with `accept_peak`. */
  method DetectPeaksTroughs(data: seq<real>, threshold: real, time: Option<seq<real>>, peakCheck: Check,
                            troughCheck: Check)
    returns (r: Result<(seq<Report>, seq<Report>), Error>)
    ensures r == PeaksTroughs(data, threshold, time, peakCheck, troughCheck)
    ensures r.Failure? <==> threshold <= 0.0 || (time.Some? && |data| != |time.value|) || |data| == 0
  {
    if threshold <= 0.0 {
      return Failure(NonPositiveThreshold);
    }
    if time.Some? && |data| != |time.value| {
      return Failure(LengthMismatch);
    }
    if |data| == 0 {
      return Failure(EmptyData);
    }
    var peaks: seq<Report> := [];
    var troughs: seq<Report> := [];
    var scan := Init(data);
    for index := 0 to |data|
      invariant scan == Run(data, threshold, index).0
      invariant peaks == Reports(Run(data, threshold, index).1, Peak, data, time, peakCheck, threshold)
      invariant troughs == Reports(Run(data, threshold, index).1, Trough, data, time, troughCheck, threshold)
    {
      RunStep(data, threshold, time, peakCheck, Peak, index);
      RunStep(data, threshold, time, troughCheck, Trough, index);
      scan, peaks, troughs := Sample(scan, index, data[index], threshold, data, time, peakCheck, troughCheck, peaks, troughs);
    }
    return Success((peaks, troughs));
  }

  /** The loop body of `detect_peaks_troughs` for `value == data[index]`. */
  method Sample(s: Scan, index: nat, value: real, threshold: real, data: seq<real>, time: Option<seq<real>>,
                peakCheck: Check, troughCheck: Check, peaks: seq<Report>, troughs: seq<Report>)
    returns (s': Scan, peaks': seq<Report>, troughs': seq<Report>)
    requires s.minInx < |data| && s.maxInx < |data| && (time.Some? ==> |time.value| == |data|)
    ensures s' == Step(s, index, value, threshold).0
    ensures peaks' == peaks + Emitted(Step(s, index, value, threshold).1, Peak, data, time, peakCheck, threshold)
    ensures troughs' == troughs + Emitted(Step(s, index, value, threshold).1, Trough, data, time, troughCheck, threshold)
  {
    var dir, minInx, maxInx, minValue, maxValue := s.dir, s.minInx, s.maxInx, s.minValue, s.maxValue;
    peaks', troughs' := peaks, troughs;
    if dir > 0 {
      if value > maxValue {
        maxInx := index;
        maxValue := value;
      } else if maxValue >= value + threshold {
        peaks' := peaks' + [ReportOf(Event(Peak, maxInx, index, minInx), data, time, peakCheck, threshold)];
        minInx := index;
        minValue := value;
        dir := -1;
      }
    } else if dir < 0 {
      if value < minValue {
        minInx := index;
        minValue := value;
      } else if value >= minValue + threshold {
        troughs' := troughs' + [ReportOf(Event(Trough, minInx, index, maxInx), data, time, troughCheck, threshold)];
        maxInx := index;
        maxValue := value;
        dir := 1;
      }
    } else {
      if maxValue >= value + threshold {
        dir := -1;
      } else if value >= minValue + threshold {
        dir := 1;
      }
      if maxValue < value {
        maxInx := index;
        maxValue := value;
      } else if value < minValue {
        minInx := index;
        minValue := value;
      }
    }
    s' := Scan(dir, minInx, maxInx, minValue, maxValue);
  }

  /** `detect_peaks`: the same scan, keeping only the peaks. Its peak list is
      the first list of `detect_peaks_troughs`, and it aborts in the same cases. */
  method DetectPeaks(data: seq<real>, threshold: real, time: Option<seq<real>>, peakCheck: Check)
    returns (r: Result<seq<Report>, Error>)
    ensures var both := PeaksTroughs(data, threshold, time, peakCheck, NoCheck);
            (r.Failure? <==> both.Failure?) && (r.Failure? ==> r.error == both.error) &&
            (r.Success? ==> r.value == both.value.0)
  {
    if threshold <= 0.0 {
      return Failure(NonPositiveThreshold);
    }
    if time.Some? && |data| != |time.value| {
      return Failure(LengthMismatch);
    }
    if |data| == 0 {
      return Failure(EmptyData);
    }
    var peaks: seq<Report> := [];
    var scan := Init(data);
    for index := 0 to |data|
      invariant scan == Run(data, threshold, index).0
      invariant peaks == Reports(Run(data, threshold, index).1, Peak, data, time, peakCheck, threshold)
    {
      RunStep(data, threshold, time, peakCheck, Peak, index);
      scan, peaks := PeakSample(scan, index, data[index], threshold, data, time, peakCheck, peaks);
    }
    return Success(peaks);
  }


  /** The entry, if any, that a step's detection adds to the list of `kind`. */
  function Emitted(e: Option<Event>, kind: Kind, data: seq<real>, time: Option<seq<real>>, check: Check,
                   threshold: real): seq<Report>
    requires e.Some? ==> e.value.inx < |data|
    requires time.Some? ==> |time.value| == |data|
  {
    if e.Some? && e.value.kind == kind then [ReportOf(e.value, data, time, check, threshold)] else []
  }

  /** The loop body of `detect_peaks`: a trough turns the scan around
      without being recorded. */
  method PeakSample(s: Scan, index: nat, value: real, threshold: real, data: seq<real>, time: Option<seq<real>>,
                    peakCheck: Check, peaks: seq<Report>)
    returns (s': Scan, peaks': seq<Report>)
    requires s.minInx < |data| && s.maxInx < |data| && (time.Some? ==> |time.value| == |data|)
    ensures s' == Step(s, index, value, threshold).0
    ensures peaks' == peaks + Emitted(Step(s, index, value, threshold).1, Peak, data, time, peakCheck, threshold)
  {
    var dir, minInx, maxInx, minValue, maxValue := s.dir, s.minInx, s.maxInx, s.minValue, s.maxValue;
    peaks' := peaks;
    if dir > 0 {
      if value > maxValue {
        maxInx := index;
        maxValue := value;
      } else if maxValue >= value + threshold {
        peaks' := peaks' + [ReportOf(Event(Peak, maxInx, index, minInx), data, time, peakCheck, threshold)];
        minInx := index;
        minValue := value;
        dir := -1;
      }
    } else if dir < 0 {
      if value < minValue {
        minInx := index;
        minValue := value;
      } else if value >= minValue + threshold {
        maxInx := index;
        maxValue := value;
        dir := 1;
      }
    } else {
      if maxValue >= value + threshold {
        dir := -1;
      } else if value >= minValue + threshold {
        dir := 1;
      }
      if maxValue < value {
        maxInx := index;
        maxValue := value;
      } else if value < minValue {
        minInx := index;
        minValue := value;
      }
    }
    s' := Scan(dir, minInx, maxInx, minValue, maxValue);
  }

  /** One more sample adds at most the detection of `Step` to each list. */
  lemma RunStep(data: seq<real>, threshold: real, time: Option<seq<real>>, check: Check, kind: Kind, n: nat)
    requires n < |data| && (time.Some? ==> |time.value| == |data|)
    ensures Step(Run(data, threshold, n).0, n, data[n], threshold).0 == Run(data, threshold, n + 1).0
    ensures var e := Step(Run(data, threshold, n).0, n, data[n], threshold).1;
            e.Some? ==> e.value.inx < |data|
    ensures Reports(Run(data, threshold, n + 1).1, kind, data, time, check, threshold) ==
            Reports(Run(data, threshold, n).1, kind, data, time, check, threshold) +
            Emitted(Step(Run(data, threshold, n).0, n, data[n], threshold).1, kind, data, time, check, threshold)
  {
    var (s, evs) := Run(data, threshold, n);
    var (s', e) := Step(s, n, data[n], threshold);
    if e.Some? {
      assert (evs + [e.value])[..|evs|] == evs;
    }
  }

  /** Every sample in `[lo, hi)` is at most `bound`. */
  ghost predicate AtMost(data: seq<real>, lo: nat, hi: nat, bound: real)
    requires hi <= |data|
  {
    forall j :: lo <= j < hi ==> data[j] <= bound
  }

  /** Every sample in `[lo, hi)` is at least `bound`. */
  ghost predicate AtLeast(data: seq<real>, lo: nat, hi: nat, bound: real)
    requires hi <= |data|
  {
    forall j :: lo <= j < hi ==> data[j] >= bound
  }

  /** A detection is justified: a peak lies at least `threshold` above the
      sample where it was found and is the largest sample from the trough
      it follows up to there; a trough likewise, the other way round. */
  ghost predicate Sound(data: seq<real>, threshold: real, e: Event)
  {
    e.inx < e.index < |data| && e.other <= e.index &&
    (e.kind == Peak ==> data[e.inx] >= data[e.index] + threshold && AtMost(data, e.other, e.index + 1, data[e.inx])) &&
    (e.kind == Trough ==> data[e.index] >= data[e.inx] + threshold && AtLeast(data, e.other, e.index + 1, data[e.inx]))
  }

  /** `e` directly follows `d`: a peak follows a trough or the other way
      round, it lies no earlier than the sample that revealed `d`, and `d` is
      the opposite extremum `e` is reported with. */
  ghost predicate Follows(d: Event, e: Event)
  {
    d.kind != e.kind && d.index <= e.inx && e.other == d.inx
  }

  /** The detections are justified and alternate. */
  ghost predicate Detections(data: seq<real>, threshold: real, evs: seq<Event>)
  {
    (forall k :: 0 <= k < |evs| ==> Sound(data, threshold, evs[k])) &&
    (forall k :: 0 < k < |evs| ==> Follows(evs[k - 1], evs[k]))
  }

  /** What the scan knows after `n` samples. Undecided: the running extremes
      bound every sample and lie less than `threshold` apart. Rising: the
      running maximum bounds everything since the last trough, and nothing
      since the maximum fell `threshold` below it. Falling: the other way
      round. */
  ghost predicate Scanned(data: seq<real>, threshold: real, n: nat, s: Scan, evs: seq<Event>)
  {
    0 < n <= |data| && s.minInx < n && s.maxInx < n &&
    s.minValue == data[s.minInx] && s.maxValue == data[s.maxInx] &&
    Detections(data, threshold, evs) &&
    (s.dir == 0 ==>
       evs == [] && AtLeast(data, 0, n, s.minValue) && AtMost(data, 0, n, s.maxValue) &&
       s.maxValue < s.minValue + threshold) &&
    (s.dir > 0 ==>
       s.dir == 1 && AtMost(data, s.minInx, n, s.maxValue) && AtLeast(data, s.maxInx, n, s.maxValue - threshold) &&
       (evs != [] ==> evs[|evs| - 1].kind == Trough && evs[|evs| - 1].inx == s.minInx && evs[|evs| - 1].index <= s.maxInx)) &&
    (s.dir < 0 ==>
       s.dir == -1 && AtLeast(data, s.maxInx, n, s.minValue) && AtMost(data, s.minInx, n, s.minValue + threshold) &&
       (evs != [] ==> evs[|evs| - 1].kind == Peak && evs[|evs| - 1].inx == s.maxInx && evs[|evs| - 1].index <= s.minInx))
  }

  lemma StepRising(data: seq<real>, threshold: real, n: nat, s: Scan, evs: seq<Event>)
    requires threshold > 0.0 && n < |data| && Scanned(data, threshold, n, s, evs) && s.dir > 0
    ensures var (s', e) := Step(s, n, data[n], threshold); Scanned(data, threshold, n + 1, s', Extend(evs, e))
  {
    var v := data[n];
    if v > s.maxValue {
      assert Step(s, n, v, threshold) == (s.(maxInx := n, maxValue := v), None);
      MaxRaised(data, threshold, n, s, evs);
    } else if s.maxValue >= v + threshold {
      assert Step(s, n, v, threshold) == (s.(minInx := n, minValue := v, dir := -1), Some(Event(Peak, s.maxInx, n, s.minInx)));
      PeakFound(data, threshold, n, s, evs);
    } else {
      assert Step(s, n, v, threshold) == (s, None);
      RisingKept(data, threshold, n, s, evs);
    }
  }

  /** A rising scan whose sample exceeds the running maximum moves the
      maximum there. */
  lemma MaxRaised(data: seq<real>, threshold: real, n: nat, s: Scan, evs: seq<Event>)
    requires threshold > 0.0 && n < |data| && Scanned(data, threshold, n, s, evs) && s.dir > 0
    requires data[n] > s.maxValue
    ensures Scanned(data, threshold, n + 1, s.(maxInx := n, maxValue := data[n]), evs)
  {
  }

  /** A rising scan whose sample neither exceeds the running maximum nor
      falls `threshold` below it stays as it is. */
  lemma RisingKept(data: seq<real>, threshold: real, n: nat, s: Scan, evs: seq<Event>)
    requires threshold > 0.0 && n < |data| && Scanned(data, threshold, n, s, evs) && s.dir > 0
    requires s.maxValue - threshold < data[n] <= s.maxValue
    ensures Scanned(data, threshold, n + 1, s, evs)
  {
  }

  /** A rising scan whose sample falls `threshold` below the running maximum
      reports the maximum as a peak and turns falling. */
  lemma PeakFound(data: seq<real>, threshold: real, n: nat, s: Scan, evs: seq<Event>)
    requires threshold > 0.0 && n < |data| && Scanned(data, threshold, n, s, evs) && s.dir > 0
    requires s.maxValue >= data[n] + threshold
    ensures Scanned(data, threshold, n + 1, s.(minInx := n, minValue := data[n], dir := -1),
                    evs + [Event(Peak, s.maxInx, n, s.minInx)])
  {
    var e := Event(Peak, s.maxInx, n, s.minInx);
    assert Sound(data, threshold, e);
    DetectionsAppend(data, threshold, evs, e);
  }

  /** A falling scan whose sample rises `threshold` above the running minimum
      reports the minimum as a trough and turns rising. */
  lemma TroughFound(data: seq<real>, threshold: real, n: nat, s: Scan, evs: seq<Event>)
    requires threshold > 0.0 && n < |data| && Scanned(data, threshold, n, s, evs) && s.dir < 0
    requires data[n] >= s.minValue + threshold
    ensures Scanned(data, threshold, n + 1, s.(maxInx := n, maxValue := data[n], dir := 1),
                    evs + [Event(Trough, s.minInx, n, s.maxInx)])
  {
    var e := Event(Trough, s.minInx, n, s.maxInx);
    assert Sound(data, threshold, e);
    DetectionsAppend(data, threshold, evs, e);
  }

  lemma StepFalling(data: seq<real>, threshold: real, n: nat, s: Scan, evs: seq<Event>)
    requires threshold > 0.0 && n < |data| && Scanned(data, threshold, n, s, evs) && s.dir < 0
    ensures var (s', e) := Step(s, n, data[n], threshold); Scanned(data, threshold, n + 1, s', Extend(evs, e))
  {
    var v := data[n];
    if v < s.minValue {
      assert Step(s, n, v, threshold) == (s.(minInx := n, minValue := v), None);
      MinLowered(data, threshold, n, s, evs);
    } else if v >= s.minValue + threshold {
      assert Step(s, n, v, threshold) == (s.(maxInx := n, maxValue := v, dir := 1), Some(Event(Trough, s.minInx, n, s.maxInx)));
      TroughFound(data, threshold, n, s, evs);
    } else {
      assert Step(s, n, v, threshold) == (s, None);
      FallingKept(data, threshold, n, s, evs);
    }
  }

  /** A falling scan whose sample is below the running minimum moves the
      minimum there. */
  lemma MinLowered(data: seq<real>, threshold: real, n: nat, s: Scan, evs: seq<Event>)
    requires threshold > 0.0 && n < |data| && Scanned(data, threshold, n, s, evs) && s.dir < 0
    requires data[n] < s.minValue
    ensures Scanned(data, threshold, n + 1, s.(minInx := n, minValue := data[n]), evs)
  {
  }

  /** A falling scan whose sample is neither below the running minimum nor
      `threshold` above it stays as it is. */
  lemma FallingKept(data: seq<real>, threshold: real, n: nat, s: Scan, evs: seq<Event>)
    requires threshold > 0.0 && n < |data| && Scanned(data, threshold, n, s, evs) && s.dir < 0
    requires s.minValue <= data[n] < s.minValue + threshold
    ensures Scanned(data, threshold, n + 1, s, evs)
  {
  }

  lemma DetectionsAppend(data: seq<real>, threshold: real, evs: seq<Event>, e: Event)
    requires Detections(data, threshold, evs) && Sound(data, threshold, e)
    requires evs != [] ==> Follows(evs[|evs| - 1], e)
    ensures Detections(data, threshold, evs + [e])
  {
  }

  lemma StepUndecided(data: seq<real>, threshold: real, n: nat, s: Scan, evs: seq<Event>)
    requires threshold > 0.0 && n < |data| && Scanned(data, threshold, n, s, evs) && s.dir == 0
    ensures var (s', e) := Step(s, n, data[n], threshold); Scanned(data, threshold, n + 1, s', Extend(evs, e))
  {
  }

  /** The scan keeps `Scanned` from the first sample on. */
  lemma {:induction false} RunScanned(data: seq<real>, threshold: real, n: nat)
    requires threshold > 0.0 && 0 < n <= |data|
    ensures Scanned(data, threshold, n, Run(data, threshold, n).0, Run(data, threshold, n).1)
  {
    if n > 1 {
      RunScanned(data, threshold, n - 1);
      var (s, evs) := Run(data, threshold, n - 1);
      if s.dir > 0 {
        StepRising(data, threshold, n - 1, s, evs);
      } else if s.dir < 0 {
        StepFalling(data, threshold, n - 1, s, evs);
      } else {
        StepUndecided(data, threshold, n - 1, s, evs);
      }
    }
  }

  /** With a positive threshold every detection is justified and peaks and
      troughs alternate. */
  lemma EventsJustified(data: seq<real>, threshold: real)
    requires threshold > 0.0 && 0 < |data|
    ensures Detections(data, threshold, Events(data, threshold))
  {
    RunScanned(data, threshold, |data|);
  }

  function Opposite(k: Kind): Kind
  {
    if k == Peak then Trough else Peak
  }

  /** The indices of the detections of one kind, in order. */
  function Positions(evs: seq<Event>, kind: Kind): seq<int>
  {
    if evs == [] then []
    else
      var e := evs[|evs| - 1];
      Positions(evs[..|evs| - 1], kind) + (if e.kind == kind then [e.inx] else [])
  }

  function Indices(ps: seq<int>): (r: seq<Report>)
    requires forall i :: 0 <= i < |ps| ==> ps[i] >= 0
    ensures |r| == |ps| && forall i :: 0 <= i < |ps| ==> r[i] == Index(ps[i])
  {
    seq(|ps|, i requires 0 <= i < |ps| => Index(ps[i]))
  }

  /** `a` and `b` strictly alternate, starting with `a`:
      `a[0] < b[0] < a[1] < b[1] < ...`. */
  predicate Interleaved(a: seq<int>, b: seq<int>)
  {
    (|a| == |b| || |a| == |b| + 1) &&
    (forall i :: 0 <= i < |b| ==> a[i] < b[i]) &&
    (forall i :: 0 < i < |a| ==> b[i - 1] < a[i])
  }

  /** The positions of alternating detections interleave, starting with the
      kind of the first detection and ending with the last one. */
  lemma {:induction false} AlternatingPositions(data: seq<real>, threshold: real, evs: seq<Event>)
    requires Detections(data, threshold, evs) && evs != []
    ensures EndsAt(Positions(evs, evs[0].kind), Positions(evs, Opposite(evs[0].kind)),
                   evs[|evs| - 1].kind == evs[0].kind, evs[|evs| - 1].inx)
  {
    var first := evs[0].kind;
    var init := evs[..|evs| - 1];
    var e := evs[|evs| - 1];
    var a := Positions(evs, first);
    var b := Positions(evs, Opposite(first));
    if init == [] {
      assert e == evs[0] && Opposite(first) != first;
      assert Positions(init, first) == [] && Positions(init, Opposite(first)) == [];
    } else {
      DetectionsPrefix(data, threshold, evs);
      AlternatingPositions(data, threshold, init);
      assert init[0] == evs[0];
      var d := init[|init| - 1];
      assert d == evs[|evs| - 2];
      assert Sound(data, threshold, d) && Follows(d, e);
      var a0 := Positions(init, first);
      var b0 := Positions(init, Opposite(first));
      assert d.inx < e.inx;
      EndsAtExtend(a0, b0, d.kind == first, d.inx, e.inx);
      if e.kind == first {
        assert a == a0 + [e.inx] && b == b0;
      } else {
        assert a == a0 && b == b0 + [e.inx];
      }
    }
  }

  /** `a` and `b` interleave and the last detection, at `x`, is in `a` when
      `same` holds and in `b` otherwise. */
  predicate EndsAt(a: seq<int>, b: seq<int>, same: bool, x: int)
  {
    Interleaved(a, b) &&
    (same ==> |a| == |b| + 1 && a[|a| - 1] == x) &&
    (!same ==> |a| == |b| && |b| > 0 && b[|b| - 1] == x)
  }

  lemma EndsAtExtend(a: seq<int>, b: seq<int>, same: bool, x: int, y: int)
    requires EndsAt(a, b, same, x) && x < y
    ensures same ==> EndsAt(a, b + [y], false, y)
    ensures !same ==> EndsAt(a + [y], b, true, y)
  {
    if same {
      InterleavedExtendB(a, b, y);
    } else {
      InterleavedExtendA(a, b, y);
    }
  }

  lemma DetectionsPrefix(data: seq<real>, threshold: real, evs: seq<Event>)
    requires Detections(data, threshold, evs) && evs != []
    ensures Detections(data, threshold, evs[..|evs| - 1])
  {
    var init := evs[..|evs| - 1];
    forall k | 0 <= k < |init| ensures Sound(data, threshold, init[k]) {
      assert init[k] == evs[k];
    }
    forall k | 0 < k < |init| ensures Follows(init[k - 1], init[k]) {
      assert init[k] == evs[k] && init[k - 1] == evs[k - 1];
    }
  }

  lemma InterleavedExtendA(a: seq<int>, b: seq<int>, x: int)
    requires Interleaved(a, b) && |a| == |b| && (|b| > 0 ==> b[|b| - 1] < x)
    ensures Interleaved(a + [x], b)
  {
  }

  lemma InterleavedExtendB(a: seq<int>, b: seq<int>, x: int)
    requires Interleaved(a, b) && |a| == |b| + 1 && a[|a| - 1] < x
    ensures Interleaved(a, b + [x])
  {
  }

  /** With time `None` and no callbacks, the detector returns the indices of
      its detections, and they lie inside `data`. */
  lemma IndexOutput(data: seq<real>, threshold: real)
    requires threshold > 0.0 && 0 < |data|
    ensures var ps := Positions(Events(data, threshold), Peak);
            var ts := Positions(Events(data, threshold), Trough);
            (forall i :: 0 <= i < |ps| ==> 0 <= ps[i] < |data|) &&
            (forall i :: 0 <= i < |ts| ==> 0 <= ts[i] < |data|) &&
            PeaksTroughs(data, threshold, None, NoCheck, NoCheck) == Success((Indices(ps), Indices(ts)))
  {
    var evs := Events(data, threshold);
    PositionsInside(evs, Peak, |data|);
    PositionsInside(evs, Trough, |data|);
    ReportsAreIndices(evs, Peak, data, threshold);
    ReportsAreIndices(evs, Trough, data, threshold);
  }

  /** The peak and trough indices strictly alternate, whichever comes first. */
  lemma IndicesAlternate(data: seq<real>, threshold: real)
    requires threshold > 0.0 && 0 < |data|
    ensures var ps := Positions(Events(data, threshold), Peak);
            var ts := Positions(Events(data, threshold), Trough);
            Interleaved(ps, ts) || Interleaved(ts, ps)
  {
    var evs := Events(data, threshold);
    if evs != [] {
      EventsJustified(data, threshold);
      AlternatingPositions(data, threshold, evs);
    }
  }

  lemma {:induction false} PositionsInside(evs: seq<Event>, kind: Kind, n: nat)
    requires forall k :: 0 <= k < |evs| ==> evs[k].inx < n
    ensures forall i :: 0 <= i < |Positions(evs, kind)| ==> 0 <= Positions(evs, kind)[i] < n
  {
    if evs != [] {
      PositionsInside(evs[..|evs| - 1], kind, n);
    }
  }

  lemma {:induction false} ReportsAreIndices(evs: seq<Event>, kind: Kind, data: seq<real>, threshold: real)
    requires forall k :: 0 <= k < |evs| ==> evs[k].inx < |data|
    ensures forall i :: 0 <= i < |Positions(evs, kind)| ==> Positions(evs, kind)[i] >= 0
    ensures Reports(evs, kind, data, None, NoCheck, threshold) == Indices(Positions(evs, kind))
  {
    if evs != [] {
      ReportsAreIndices(evs[..|evs| - 1], kind, data, threshold);
    }
  }

  /** `trim`: both lists cut to their common length. */
  function Trim<T>(peaks: seq<T>, troughs: seq<T>): (r: (seq<T>, seq<T>))
    ensures |r.0| == |r.1| && (|r.0| == |peaks| || |r.1| == |troughs|)
    ensures |r.0| <= |peaks| && |r.1| <= |troughs| && r.0 == peaks[..|r.0|] && r.1 == troughs[..|r.1|]
  {
    var n := if |peaks| < |troughs| then |peaks| else |troughs|;
    (peaks[..n], troughs[..n])
  }

  /** Trimming twice changes nothing. */
  lemma TrimIdempotent<T>(peaks: seq<T>, troughs: seq<T>)
    ensures Trim(Trim(peaks, troughs).0, Trim(peaks, troughs).1) == Trim(peaks, troughs)
  {
    var (p, t) := Trim(peaks, troughs);
    assert p[..|p|] == p && t[..|t|] == t;
  }

  /** `trim_to_peak`: drops a first trough that precedes the first peak, then
      cuts both lists to their common length. */
  function TrimToPeak(peaks: seq<int>, troughs: seq<int>): (r: (seq<int>, seq<int>))
    ensures var skip := |peaks| > 0 && |troughs| > 0 && troughs[0] < peaks[0];
            var t := if skip then 1 else 0;
            |r.0| == |r.1| && (|r.0| == |peaks| || |r.1| == |troughs| - t) &&
            |r.0| <= |peaks| && t + |r.1| <= |troughs| && r.0 == peaks[..|r.0|] && r.1 == troughs[t..t + |r.1|]
  {
    var tidx := if |peaks| > 0 && |troughs| > 0 && troughs[0] < peaks[0] then 1 else 0;
    var n := if |peaks| < |troughs| - tidx then |peaks| else |troughs| - tidx;
    (peaks[..n], troughs[tidx..tidx + n])
  }

  /** On alternating lists, `trim_to_peak` pairs every peak with the trough
      that follows it: `p[0] < t[0] < p[1] < t[1] < ...`. */
  lemma TrimToPeakPairs(peaks: seq<int>, troughs: seq<int>)
    requires Interleaved(peaks, troughs) || Interleaved(troughs, peaks)
    ensures var (p, t) := TrimToPeak(peaks, troughs); Interleaved(p, t) && |p| == |t|
  {
    var (p, t) := TrimToPeak(peaks, troughs);
    if !Interleaved(peaks, troughs) {
      if |peaks| > 0 {
        assert troughs[0] < peaks[0];
        forall i | 0 <= i < |t| ensures p[i] < t[i] {
          assert t[i] == troughs[i + 1];
        }
      }
    }
  }

  /** On the detector's index lists, `trim` drops at most one entry. */
  lemma TrimDropsAtMostOne(peaks: seq<int>, troughs: seq<int>)
    requires Interleaved(peaks, troughs) || Interleaved(troughs, peaks)
    ensures |peaks| - |Trim(peaks, troughs).0| <= 1 && |troughs| - |Trim(peaks, troughs).1| <= 1
  {
  }
}
