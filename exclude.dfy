/** `exclude_fishes`: drops the fishes that are present for too short a time. */
module FishFilter {
  import opened Wrappers
  import opened Trajectory

  /** A fish is kept when it has at least `minOccureTime * dpm` samples
      (`minOccureTime` in minutes, `dpm` detections per minute). */
  predicate Occurs(f: Fish, minOccureTime: real, dpm: real)
  {
    Count(f) as real >= minOccureTime * dpm
  }

  function OccurMask(fishes: seq<Fish>, minOccureTime: real, dpm: real): (m: seq<bool>)
    ensures |m| == |fishes|
    ensures forall k :: 0 <= k < |fishes| ==> (m[k] <==> Occurs(fishes[k], minOccureTime, dpm))
  {
    seq(|fishes|, k requires 0 <= k < |fishes| => Occurs(fishes[k], minOccureTime, dpm))
  }

  /** The fishes that survive the filter, in their original order. */
  function Surviving(fishes: seq<Fish>, minOccureTime: real, dpm: real): seq<Fish>
  {
    Select(OccurMask(fishes, minOccureTime, dpm), fishes)
  }

  /** `exclude_fishes`: collects the indices of the fishes that occur long
      enough, then returns those fishes. */
  method ExcludeFishes(fishes: seq<Fish>, minOccureTime: real, dpm: real) returns (kept: seq<Fish>)
    ensures kept == Surviving(fishes, minOccureTime, dpm)
    ensures forall k :: 0 <= k < |kept| ==> Occurs(kept[k], minOccureTime, dpm)
    ensures forall k :: 0 <= k < |fishes| && Occurs(fishes[k], minOccureTime, dpm) ==> fishes[k] in kept
    ensures forall f :: f in kept ==> f in fishes
  {
    ghost var mask := OccurMask(fishes, minOccureTime, dpm);
    var keepIdx: seq<nat> := [];
    for fish := 0 to |fishes|
      invariant forall k :: 0 <= k < |keepIdx| ==> keepIdx[k] < fish
      invariant Indexed(fishes, keepIdx) == Select(mask[..fish], fishes[..fish])
    {
      SelectPrefixStep(mask, fishes, fish);
      if Count(fishes[fish]) as real >= minOccureTime * dpm {
        IndexedAppend(fishes, keepIdx, fish);
        keepIdx := keepIdx + [fish];
      }
    }
    kept := Indexed(fishes, keepIdx);
    assert mask[..|fishes|] == mask && fishes[..|fishes|] == fishes;
    forall k | 0 <= k < |kept| ensures Occurs(kept[k], minOccureTime, dpm) {
      SelectMembers(mask, fishes, kept[k]);
    }
    forall k | 0 <= k < |fishes| && Occurs(fishes[k], minOccureTime, dpm) ensures fishes[k] in kept {
      SelectMembers(mask, fishes, fishes[k]);
    }
  }

  /** Filtering the survivors again changes nothing. */
  lemma {:induction false} ExcludeIdempotent(fishes: seq<Fish>, minOccureTime: real, dpm: real)
    ensures Surviving(Surviving(fishes, minOccureTime, dpm), minOccureTime, dpm) == Surviving(fishes, minOccureTime, dpm)
  {
    var kept := Surviving(fishes, minOccureTime, dpm);
    var mask := OccurMask(kept, minOccureTime, dpm);
    forall k | 0 <= k < |kept| ensures mask[k] {
      SelectMembers(OccurMask(fishes, minOccureTime, dpm), fishes, kept[k]);
    }
    SelectAll(mask, kept);
  }

  /** The survivors keep their relative order: they are the fishes at a
      strictly increasing sequence of positions. */
  lemma {:induction false} ExcludeKeepsOrder(fishes: seq<Fish>, minOccureTime: real, dpm: real)
    ensures exists pos: seq<nat> ::
              |pos| == |Surviving(fishes, minOccureTime, dpm)| &&
              (forall k :: 0 <= k < |pos| ==> pos[k] < |fishes| && fishes[pos[k]] == Surviving(fishes, minOccureTime, dpm)[k]) &&
              (forall k, m :: 0 <= k < m < |pos| ==> pos[k] < pos[m])
  {
    var pos := SelectPositions(OccurMask(fishes, minOccureTime, dpm), fishes);
    SelectPositionsSpec(OccurMask(fishes, minOccureTime, dpm), fishes);
    SelectPositionsIncrease(OccurMask(fishes, minOccureTime, dpm), fishes);
  }

  /** Positions of the selected elements. */
  function SelectPositions<T>(keep: seq<bool>, xs: seq<T>): (pos: seq<nat>)
    requires |keep| == |xs|
  {
    if xs == [] then []
    else
      var rest := SelectPositions(keep[1..], xs[1..]);
      var shifted := seq(|rest|, k requires 0 <= k < |rest| => rest[k] + 1);
      if keep[0] then [0] + shifted else shifted
  }

  /** The positions point at the selected elements. */
  lemma {:induction false} SelectPositionsSpec<T>(keep: seq<bool>, xs: seq<T>)
    requires |keep| == |xs|
    ensures |SelectPositions(keep, xs)| == |Select(keep, xs)|
    ensures forall k :: 0 <= k < |SelectPositions(keep, xs)| ==>
      SelectPositions(keep, xs)[k] < |xs| && xs[SelectPositions(keep, xs)[k]] == Select(keep, xs)[k] &&
      keep[SelectPositions(keep, xs)[k]]
  {
    if xs != [] {
      SelectPositionsSpec(keep[1..], xs[1..]);
      var rest := SelectPositions(keep[1..], xs[1..]);
      var sel := Select(keep[1..], xs[1..]);
      var shifted := seq(|rest|, k requires 0 <= k < |rest| => rest[k] + 1);
      forall k | 0 <= k < |shifted| ensures shifted[k] < |xs| && xs[shifted[k]] == sel[k] && keep[shifted[k]] {
        assert xs[shifted[k]] == xs[1..][rest[k]] && keep[shifted[k]] == keep[1..][rest[k]];
      }
      var pos, all := SelectPositions(keep, xs), Select(keep, xs);
      assert all == (if keep[0] then [xs[0]] else []) + sel;
      assert pos == if keep[0] then [0] + shifted else shifted;
      forall k | 0 <= k < |pos| ensures pos[k] < |xs| && xs[pos[k]] == all[k] && keep[pos[k]] {
        if keep[0] {
          if k > 0 {
            assert pos[k] == shifted[k - 1] && all[k] == sel[k - 1];
          }
        } else {
          assert pos[k] == shifted[k] && all[k] == sel[k];
        }
      }
    }
  }

  /** The positions are strictly increasing. */
  lemma {:induction false} SelectPositionsIncrease<T>(keep: seq<bool>, xs: seq<T>)
    requires |keep| == |xs|
    ensures forall k, m :: 0 <= k < m < |SelectPositions(keep, xs)| ==>
      SelectPositions(keep, xs)[k] < SelectPositions(keep, xs)[m]
  {
    if xs != [] {
      SelectPositionsIncrease(keep[1..], xs[1..]);
    }
  }
}
