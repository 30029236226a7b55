/** First-level fish sorting: the online greedy assignment of the candidate
    fundamental frequencies of every time step to fish trajectories
    (`first_level_fish_sorting` and its helper `clean_up`). */
module FishSorting {
  import opened Wrappers
  import opened Trajectory

  /** `clean_up`: walks the fishes from the last to the first and pops every
      fish with at most 10 samples from the three parallel lists at once.
      `removed` collects the deleted fishes, in their original order. */
  method CleanUp(fishes: seq<Fish>, last: seq<real>, endNans: seq<nat>)
    returns (fishes': seq<Fish>, last': seq<real>, endNans': seq<nat>, ghost removed: seq<Fish>)
    requires |fishes| == |last| == |endNans|
    ensures fishes' == Select(LongMask(fishes), fishes)
    ensures last' == Select(LongMask(fishes), last)
    ensures endNans' == Select(LongMask(fishes), endNans)
    ensures removed == Select(Negate(LongMask(fishes)), fishes) && removed == Removed(fishes)
    ensures Tracks(fishes', last', endNans') == Clean(Tracks(fishes, last, endNans))
    ensures |fishes'| == |last'| == |endNans'|
    ensures forall k :: 0 <= k < |fishes'| ==> Count(fishes'[k]) > MaxShortCount
    ensures forall k :: 0 <= k < |removed| ==> Count(removed[k]) <= MaxShortCount
  {
    ghost var mask := LongMask(fishes);
    ghost var neg := Negate(mask);
    fishes', last', endNans', removed := fishes, last, endNans, [];
    var i := |fishes|;
    while i > 0
      invariant 0 <= i <= |fishes|
      invariant Popped(mask, fishes, last, endNans, i, fishes', last', endNans', removed)
    {
      i := i - 1;
      PoppedStep(mask, fishes, last, endNans, i, fishes', last', endNans', removed);
      if Count(fishes'[i]) <= MaxShortCount {
        fishes' := fishes'[..i] + fishes'[i + 1..];
        last' := last'[..i] + last'[i + 1..];
        endNans' := endNans'[..i] + endNans'[i + 1..];
        removed := [fishes[i]] + removed;
      }
    }
    assert fishes[0..] == fishes && last[0..] == last && endNans[0..] == endNans && mask[0..] == mask;
    assert neg[0..] == neg;
    CleanUpSplits(fishes, last, endNans);
  }

  /** The state of the clean-up loop once the positions from `i` on are
      visited: the short fishes among them are popped from the three lists
      and collected, in order, in `removed`. */
  ghost predicate Popped(mask: seq<bool>, fishes: seq<Fish>, last: seq<real>, endNans: seq<nat>, i: nat,
                         fs: seq<Fish>, ls: seq<real>, es: seq<nat>, removed: seq<Fish>)
    requires |mask| == |fishes| == |last| == |endNans| && i <= |fishes|
  {
    fs == fishes[..i] + Select(mask[i..], fishes[i..]) &&
    ls == last[..i] + Select(mask[i..], last[i..]) &&
    es == endNans[..i] + Select(mask[i..], endNans[i..]) &&
    removed == Select(Negate(mask)[i..], fishes[i..])
  }

  lemma PoppedStep(mask: seq<bool>, fishes: seq<Fish>, last: seq<real>, endNans: seq<nat>, i: nat,
                   fs: seq<Fish>, ls: seq<real>, es: seq<nat>, removed: seq<Fish>)
    requires |mask| == |fishes| == |last| == |endNans| && i < |fishes|
    requires Popped(mask, fishes, last, endNans, i + 1, fs, ls, es, removed)
    ensures i < |fs| && i < |ls| && i < |es| && fs[i] == fishes[i]
    ensures mask[i] ==> Popped(mask, fishes, last, endNans, i, fs, ls, es, removed)
    ensures !mask[i] ==> Popped(mask, fishes, last, endNans, i, fs[..i] + fs[i + 1..], ls[..i] + ls[i + 1..],
                                es[..i] + es[i + 1..], [fishes[i]] + removed)
  {
    PopStep(mask, fishes, fs, i + 1);
    PopStep(mask, last, ls, i + 1);
    PopStep(mask, endNans, es, i + 1);
    PopCollect(Negate(mask), fishes, removed, i + 1);
  }

  /** The clean-up keeps the parallel lists aligned, keeps only fishes with
      more than 10 samples and deletes only fishes with at most 10. */
  lemma CleanUpSplits(fishes: seq<Fish>, last: seq<real>, endNans: seq<nat>)
    requires |fishes| == |last| == |endNans|
    ensures var mask := LongMask(fishes);
            |Select(mask, fishes)| == |Select(mask, last)| == |Select(mask, endNans)|
    ensures var kept := Select(LongMask(fishes), fishes);
            forall k :: 0 <= k < |kept| ==> Count(kept[k]) > MaxShortCount
    ensures var removed := Select(Negate(LongMask(fishes)), fishes);
            forall k :: 0 <= k < |removed| ==> Count(removed[k]) <= MaxShortCount
  {
    var mask := LongMask(fishes);
    var kept := Select(mask, fishes);
    var removed := Select(Negate(mask), fishes);
    SelectLength(mask, fishes);
    SelectLength(mask, last);
    SelectLength(mask, endNans);
    forall k | 0 <= k < |kept| ensures Count(kept[k]) > MaxShortCount {
      SelectMembers(mask, fishes, kept[k]);
    }
    forall k | 0 <= k < |removed| ensures Count(removed[k]) <= MaxShortCount {
      SelectMembers(Negate(mask), fishes, removed[k]);
    }
  }

  /** The three parallel lists the sorting keeps: the fish arrays, the last
      frequency of every fish and its miss counter (`end_nans`). */
  datatype Tracks = Tracks(fishes: seq<Fish>, last: seq<real>, endNans: seq<nat>)

  /** Parallel lists whose fish arrays all have `n` slots. */
  predicate Fits(st: Tracks, n: nat)
  {
    |st.fishes| == |st.last| == |st.endNans| && forall k :: 0 <= k < |st.fishes| ==> |st.fishes[k]| == n
  }

  /** `clean_up` as a function on the three lists: the entries of the fishes
      with more than 10 samples, in order. */
  function Clean(st: Tracks): (r: Tracks)
    requires |st.fishes| == |st.last| == |st.endNans|
    ensures |r.fishes| == |r.last| == |r.endNans|
    ensures forall k :: 0 <= k < |r.fishes| ==> r.fishes[k] in st.fishes && Count(r.fishes[k]) > MaxShortCount
  {
    CleanUpSplits(st.fishes, st.last, st.endNans);
    var mask := LongMask(st.fishes);
    Tracks(Select(mask, st.fishes), Select(mask, st.last), Select(mask, st.endNans))
  }

  /** The fishes a clean-up deletes, in order. */
  function Removed(fishes: seq<Fish>): seq<Fish>
  {
    Select(Negate(LongMask(fishes)), fishes)
  }

  /** A clean-up keeps the fish arrays' lengths, in the kept and in the
      deleted fishes. */
  lemma CleanFits(st: Tracks, n: nat)
    requires Fits(st, n)
    ensures Fits(Clean(st), n)
    ensures forall k :: 0 <= k < |Removed(st.fishes)| ==> |Removed(st.fishes)[k]| == n
  {
    var removed := Removed(st.fishes);
    forall k | 0 <= k < |removed| ensures |removed[k]| == n {
      SelectMembers(Negate(LongMask(st.fishes)), st.fishes, removed[k]);
    }
  }

  /** A fish whose last frequency lies strictly within `tol` of `f`. */
  predicate Tolerated(last: seq<real>, k: nat, f: real, tol: real)
    requires k < |last|
  {
    Abs(last[k] - f) < tol
  }

  /** A fish that can still take `f` at slot `s`: tolerated and not yet filled. */
  predicate Eligible(fishes: seq<Fish>, last: seq<real>, k: nat, s: nat, f: real, tol: real)
    requires |fishes| == |last| && k < |fishes|
  {
    Tolerated(last, k, f, tol) && s < |fishes[k]| && fishes[k][s] == None
  }

  /** The order in which the source tries the tolerated fishes: fewest misses
      first, then smallest frequency difference, then lowest position (two
      stable argsorts, the first by difference, the second by miss count). */
  predicate TriedBefore(last: seq<real>, endNans: seq<nat>, a: nat, b: nat, f: real)
    requires a < |last| && b < |last| && |endNans| == |last|
  {
    endNans[a] < endNans[b] ||
    (endNans[a] == endNans[b] &&
      (Abs(last[a] - f) < Abs(last[b] - f) || (Abs(last[a] - f) == Abs(last[b] - f) && a <= b)))
  }

  /** The fish that candidate `f` goes to among the first `k` fishes: the
      eligible one tried first; `None` when none of them is eligible. */
  function PickAmong(st: Tracks, s: nat, f: real, tol: real, k: nat): (p: Option<nat>)
    requires |st.fishes| == |st.last| == |st.endNans| && k <= |st.fishes|
    ensures p.None? <==> forall j :: 0 <= j < k ==> !Eligible(st.fishes, st.last, j, s, f, tol)
    ensures p.Some? ==> p.value < k && Eligible(st.fishes, st.last, p.value, s, f, tol)
    ensures p.Some? ==> forall j :: 0 <= j < k && Eligible(st.fishes, st.last, j, s, f, tol) ==>
                          TriedBefore(st.last, st.endNans, p.value, j, f)
  {
    if k == 0 then None
    else
      var p := PickAmong(st, s, f, tol, k - 1);
      if Eligible(st.fishes, st.last, k - 1, s, f, tol) &&
         (p.None? || !TriedBefore(st.last, st.endNans, p.value, k - 1, f))
      then Some(k - 1)
      else p
  }

  /** Looking at one more fish replaces the pick exactly when that fish is
      eligible and tried before the current pick. */
  lemma PickAmongNext(st: Tracks, s: nat, f: real, tol: real, k: nat)
    requires |st.fishes| == |st.last| == |st.endNans| && k < |st.fishes|
    ensures var p := PickAmong(st, s, f, tol, k);
            PickAmong(st, s, f, tol, k + 1) ==
              if Eligible(st.fishes, st.last, k, s, f, tol) &&
                 (p.None? || !TriedBefore(st.last, st.endNans, p.value, k, f))
              then Some(k) else p
  {
  }

  /** The fish that candidate `f` of slot `s` goes to, if any. */
  function Pick(st: Tracks, s: nat, f: real, tol: real): Option<nat>
    requires |st.fishes| == |st.last| == |st.endNans|
  {
    PickAmong(st, s, f, tol, |st.fishes|)
  }

  /** The try order is total and antisymmetric, so an eligible fish tried
      before every other eligible one is the fish `Pick` returns. */
  lemma PickUnique(st: Tracks, s: nat, f: real, tol: real, q: nat)
    requires |st.fishes| == |st.last| == |st.endNans| && q < |st.fishes|
    requires Eligible(st.fishes, st.last, q, s, f, tol)
    requires forall j :: 0 <= j < |st.fishes| && Eligible(st.fishes, st.last, j, s, f, tol) ==>
               TriedBefore(st.last, st.endNans, q, j, f)
    ensures Pick(st, s, f, tol) == Some(q)
  {
    var p := Pick(st, s, f, tol);
    assert p.Some?;
    assert TriedBefore(st.last, st.endNans, p.value, q, f) && TriedBefore(st.last, st.endNans, q, p.value, f);
  }

  /** Finds the fish that candidate `f` is written into at slot `s`: the first
      tolerated fish, in the order fewest misses / smallest difference, whose
      slot is still absent; `None` when there is no such fish. */
  method PickFish(fishes: seq<Fish>, last: seq<real>, endNans: seq<nat>, s: nat, f: real, tol: real)
    returns (pick: Option<nat>)
    requires |fishes| == |last| == |endNans|
    ensures pick == Pick(Tracks(fishes, last, endNans), s, f, tol)
    ensures pick.None? <==> forall k :: 0 <= k < |fishes| ==> !Eligible(fishes, last, k, s, f, tol)
    ensures pick.Some? ==> pick.value < |fishes| && Eligible(fishes, last, pick.value, s, f, tol)
    ensures pick.Some? ==> forall k :: 0 <= k < |fishes| && Eligible(fishes, last, k, s, f, tol) ==>
                             endNans[pick.value] <= endNans[k] && TriedBefore(last, endNans, pick.value, k, f)
  {
    pick := None;
    for k := 0 to |fishes|
      invariant pick == PickAmong(Tracks(fishes, last, endNans), s, f, tol, k)
    {
      PickAmongNext(Tracks(fishes, last, endNans), s, f, tol, k);
      if Eligible(fishes, last, k, s, f, tol) {
        if pick.None? || !TriedBefore(last, endNans, pick.value, k, f) {
          pick := Some(k);
        }
      }
    }
  }

  /** A new fish array of `n` slots holding only `f` at slot `s`. */
  function NewFish(n: nat, s: nat, f: real): (g: Fish)
    requires s < n
    ensures |g| == n && g[s] == Some(f) && Count(g) == 1
    ensures forall t :: 0 <= t < n && t != s ==> g[t] == None
  {
    var g := Absent(n)[s := Some(f)];
    assert g == Absent(s) + [Some(f)] + Absent(n - s - 1);
    CountAppend(Absent(s) + [Some(f)], Absent(n - s - 1));
    CountAppend(Absent(s), [Some(f)]);
    CountZero(Absent(s));
    CountZero(Absent(n - s - 1));
    g
  }

  /** The assignment of one candidate `f` of slot `s` as a function: `f` goes
      into slot `s` of the fish `Pick` returns, which remembers `f` and has
      its miss counter reset, or into a new fish appended at the end; nothing
      else changes. */
  function Assign(st: Tracks, n: nat, s: nat, f: real, tol: real): (r: Tracks)
    requires Fits(st, n) && s < n
    ensures Fits(r, n)
    ensures var p := Pick(st, s, f, tol);
            var j := if p.Some? then p.value else |st.fishes|;
            |r.fishes| == (if p.Some? then |st.fishes| else |st.fishes| + 1) &&
            r.fishes[j][s] == Some(f) && r.last[j] == f && r.endNans[j] == 0 &&
            forall k :: 0 <= k < |st.fishes| && k != j ==>
              r.fishes[k] == st.fishes[k] && r.last[k] == st.last[k] && r.endNans[k] == st.endNans[k]
  {
    match Pick(st, s, f, tol)
    case None => Tracks(st.fishes + [NewFish(n, s, f)], st.last + [f], st.endNans + [0])
    case Some(i) => Tracks(st.fishes[i := st.fishes[i][s := Some(f)]], st.last[i := f], st.endNans[i := 0])
  }

  /** Assigning a candidate adds it to its step's column and to no other, and
      changes no other slot. */
  lemma AssignColumns(st: Tracks, n: nat, s: nat, f: real, tol: real, r: Tracks)
    requires Fits(st, n) && s < n && r == Assign(st, n, s, f, tol)
    ensures forall c :: Column(r.fishes, c) == Column(st.fishes, c) + (if c == s then multiset{f} else multiset{})
    ensures forall k, t :: 0 <= k < |r.fishes| && 0 <= t < n && t != s ==>
              r.fishes[k][t] == (if k < |st.fishes| then st.fishes[k][t] else None)
  {
    match Pick(st, s, f, tol)
    case None =>
      forall c ensures Column(r.fishes, c) == Column(st.fishes, c) + (if c == s then multiset{f} else multiset{}) {
        ColumnNew(st.fishes, n, s, f, c);
      }
    case Some(i) =>
      forall c ensures Column(r.fishes, c) == Column(st.fishes, c) + (if c == s then multiset{f} else multiset{}) {
        ColumnWrite(st.fishes, i, s, f, c);
      }
  }

  /** Assigns one candidate frequency `f` of the current time step (slot `s`):
      into the picked fish (which then remembers `f` and has its miss counter
      reset), or into a new fish when no tolerated fish has a free slot. */
  method AssignCandidate(fishes: seq<Fish>, last: seq<real>, endNans: seq<nat>, n: nat, s: nat, f: real, tol: real)
    returns (fishes': seq<Fish>, last': seq<real>, endNans': seq<nat>, pick: Option<nat>)
    requires |fishes| == |last| == |endNans|
    requires s < n && forall k :: 0 <= k < |fishes| ==> |fishes[k]| == n
    ensures |fishes'| == |last'| == |endNans'|
    ensures forall k :: 0 <= k < |fishes'| ==> |fishes'[k]| == n
    ensures pick == Pick(Tracks(fishes, last, endNans), s, f, tol)
    ensures Tracks(fishes', last', endNans') == Assign(Tracks(fishes, last, endNans), n, s, f, tol)
    ensures pick.None? <==> forall k :: 0 <= k < |fishes| ==> !Eligible(fishes, last, k, s, f, tol)
    ensures pick.None? ==>
              fishes' == fishes + [NewFish(n, s, f)] && last' == last + [f] && endNans' == endNans + [0]
    ensures pick.Some? ==>
              var i := pick.value;
              i < |fishes| && Eligible(fishes, last, i, s, f, tol) &&
              (forall k :: 0 <= k < |fishes| && Eligible(fishes, last, k, s, f, tol) ==>
                 endNans[i] <= endNans[k] && TriedBefore(last, endNans, i, k, f)) &&
              fishes' == fishes[i := fishes[i][s := Some(f)]] && last' == last[i := f] && endNans' == endNans[i := 0]
    ensures forall c :: Column(fishes', c) == Column(fishes, c) + (if c == s then multiset{f} else multiset{})
    ensures |fishes'| >= |fishes|
    ensures forall k, t :: 0 <= k < |fishes'| && 0 <= t < n && t != s ==>
              fishes'[k][t] == (if k < |fishes| then fishes[k][t] else None)
  {
    pick := PickFish(fishes, last, endNans, s, f, tol);
    if pick.None? {
      fishes' := fishes + [NewFish(n, s, f)];
      last' := last + [f];
      endNans' := endNans + [0];
    } else {
      var i := pick.value;
      fishes' := fishes[i := fishes[i][s := Some(f)]];
      last' := last[i := f];
      endNans' := endNans[i := 0];
    }
    AssignColumns(Tracks(fishes, last, endNans), n, s, f, tol, Tracks(fishes', last', endNans'));
  }

  /** Writing `f` into an absent slot `s` of one fish adds `f` to column `s` only. */
  lemma {:induction false} ColumnWrite(fs: seq<Fish>, i: nat, s: nat, f: real, c: nat)
    requires i < |fs| && s < |fs[i]| && fs[i][s] == None
    ensures Column(fs[i := fs[i][s := Some(f)]], c) == Column(fs, c) + (if c == s then multiset{f} else multiset{})
  {
    var g := fs[i][s := Some(f)];
    var fs' := fs[i := g];
    if i == 0 {
      assert fs'[1..] == fs[1..];
      if c == s {
        assert Cell(g, c) == multiset{f} && Cell(fs[0], c) == multiset{};
      } else if c < |g| {
        assert g[c] == fs[0][c];
      }
      assert Cell(g, c) == Cell(fs[0], c) + (if c == s then multiset{f} else multiset{});
    } else {
      assert fs'[1..] == fs[1..][i - 1 := g];
      ColumnWrite(fs[1..], i - 1, s, f, c);
    }
  }

  /** Appending a new fish that holds only `f` at slot `s` adds `f` to column `s` only. */
  lemma ColumnNew(fs: seq<Fish>, n: nat, s: nat, f: real, c: nat)
    requires s < n
    ensures Column(fs + [NewFish(n, s, f)], c) == Column(fs, c) + (if c == s then multiset{f} else multiset{})
  {
    var g := NewFish(n, s, f);
    ColumnAppend(fs, [g], c);
    assert Column([g], c) == Cell(g, c) + Column([], c);
    if c != s && c < n { assert g[c] == None; }
  }

  /** The assignment of a step's candidates, in their given order, as a left
      fold of `Assign`. */
  function AssignAll(st: Tracks, n: nat, s: nat, fs: seq<real>, tol: real): (r: Tracks)
    requires Fits(st, n) && s < n
    ensures Fits(r, n) && |r.fishes| >= |st.fishes|
    decreases |fs|
  {
    if fs == [] then st
    else Assign(AssignAll(st, n, s, fs[..|fs| - 1], tol), n, s, fs[|fs| - 1], tol)
  }

  /** After all candidates of a step, that step's column has gained exactly
      the candidates and no other column has changed. */
  lemma {:induction false} AssignAllColumns(st: Tracks, n: nat, s: nat, fs: seq<real>, tol: real, r: Tracks, c: nat)
    requires Fits(st, n) && s < n && r == AssignAll(st, n, s, fs, tol)
    ensures Column(r.fishes, c) == Column(st.fishes, c) + (if c == s then multiset(fs) else multiset{})
    decreases |fs|
  {
    if fs != [] {
      var init := fs[..|fs| - 1];
      var x := fs[|fs| - 1];
      var mid := AssignAll(st, n, s, init, tol);
      AssignAllColumns(st, n, s, init, tol, mid, c);
      AssignColumns(mid, n, s, x, tol, r);
      MultisetSnoc(fs);
    }
  }

  /** The multiset of a sequence is that of its front plus its last element. */
  lemma MultisetSnoc(fs: seq<real>)
    requires fs != []
    ensures multiset(fs) == multiset(fs[..|fs| - 1]) + multiset{fs[|fs| - 1]}
  {
    assert fs == fs[..|fs| - 1] + [fs[|fs| - 1]];
  }

  /** After all candidates of a step, every slot outside the step is
      unchanged, and the new fishes are absent outside the step. */
  lemma {:induction false} AssignAllSlots(st: Tracks, n: nat, s: nat, fs: seq<real>, tol: real, r: Tracks)
    requires Fits(st, n) && s < n && r == AssignAll(st, n, s, fs, tol)
    ensures forall k, t :: 0 <= k < |r.fishes| && 0 <= t < n && t != s ==>
              r.fishes[k][t] == (if k < |st.fishes| then st.fishes[k][t] else None)
    decreases |fs|
  {
    if fs != [] {
      var init := fs[..|fs| - 1];
      var mid := AssignAll(st, n, s, init, tol);
      AssignAllSlots(st, n, s, init, tol, mid);
      AssignColumns(mid, n, s, fs[|fs| - 1], tol, r);
      forall k, t | 0 <= k < |r.fishes| && 0 <= t < n && t != s
        ensures r.fishes[k][t] == (if k < |st.fishes| then st.fishes[k][t] else None)
      {
        if k < |mid.fishes| { assert r.fishes[k][t] == mid.fishes[k][t]; }
      }
    }
  }

  /** Assigns all candidates of one time step, in their given order. */
  method AssignTimestep(fishes: seq<Fish>, last: seq<real>, endNans: seq<nat>, n: nat, s: nat,
                        fundamentals: seq<real>, tol: real)
    returns (fishes': seq<Fish>, last': seq<real>, endNans': seq<nat>)
    requires s < n && Fits(Tracks(fishes, last, endNans), n)
    ensures Tracks(fishes', last', endNans') == AssignAll(Tracks(fishes, last, endNans), n, s, fundamentals, tol)
  {
    fishes', last', endNans' := fishes, last, endNans;
    for idx := 0 to |fundamentals|
      invariant Tracks(fishes', last', endNans') == AssignAll(Tracks(fishes, last, endNans), n, s, fundamentals[..idx], tol)
    {
      assert fundamentals[..idx + 1][..idx] == fundamentals[..idx];
      var pick;
      fishes', last', endNans', pick := AssignCandidate(fishes', last', endNans', n, s, fundamentals[idx], tol);
    }
    assert fundamentals[..|fundamentals|] == fundamentals;
  }

  /** The end-of-step bookkeeping as a function: the fish arrays are kept,
      a fish whose counter (before this step) has reached `limit` is
      forgotten, and the counters of the fishes without a sample at slot `s`
      grow by one. */
  function Misses(st: Tracks, s: nat, limit: real): (r: Tracks)
    requires |st.fishes| == |st.last| == |st.endNans|
    requires forall k :: 0 <= k < |st.fishes| ==> s < |st.fishes[k]|
    ensures r.fishes == st.fishes && |r.last| == |st.last| && |r.endNans| == |st.endNans|
  {
    Tracks(st.fishes,
           seq(|st.last|, k requires 0 <= k < |st.last| =>
             if st.endNans[k] as real >= limit then 0.0 else st.last[k]),
           seq(|st.endNans|, k requires 0 <= k < |st.endNans| =>
             if st.fishes[k][s].None? then st.endNans[k] + 1 else st.endNans[k]))
  }

  /** End-of-step bookkeeping (tracker.py:201-206): a fish whose miss counter
      has reached `primTimeTolerance * dpm` gets last frequency 0, and every
      fish with an absent slot `s` has its miss counter incremented. */
  method UpdateMisses(fishes: seq<Fish>, last: seq<real>, endNans: seq<nat>, s: nat, limit: real)
    returns (last': seq<real>, endNans': seq<nat>)
    requires |fishes| == |last| == |endNans|
    requires forall k :: 0 <= k < |fishes| ==> s < |fishes[k]|
    ensures Tracks(fishes, last', endNans') == Misses(Tracks(fishes, last, endNans), s, limit)
    ensures |last'| == |last| && |endNans'| == |endNans|
    ensures forall k :: 0 <= k < |last| ==>
              last'[k] == (if endNans[k] as real >= limit then 0.0 else last[k])
    ensures forall k :: 0 <= k < |endNans| ==>
              endNans'[k] == (if fishes[k][s].None? then endNans[k] + 1 else endNans[k])
  {
    last', endNans' := last, endNans;
    for k := 0 to |fishes|
      invariant |last'| == |last| && |endNans'| == |endNans|
      invariant forall j :: 0 <= j < k ==> last'[j] == (if endNans[j] as real >= limit then 0.0 else last[j])
      invariant forall j :: k <= j < |last| ==> last'[j] == last[j]
      invariant forall j :: 0 <= j < k ==> endNans'[j] == (if fishes[j][s].None? then endNans[j] + 1 else endNans[j])
      invariant forall j :: k <= j < |endNans| ==> endNans'[j] == endNans[j]
    {
      if endNans'[k] as real >= limit {
        last' := last'[k := 0.0];
      }
      if fishes[k][s].None? {
        endNans' := endNans'[k := endNans'[k] + 1];
      }
    }
  }

  /** The fishes with their leading (sentinel) slot sliced off. */
  function Tails(fs: seq<Fish>): (r: seq<Fish>)
    requires forall k :: 0 <= k < |fs| ==> |fs[k]| > 0
    ensures |r| == |fs| && forall k :: 0 <= k < |fs| ==> r[k] == fs[k][1..]
  {
    seq(|fs|, k requires 0 <= k < |fs| => fs[k][1..])
  }

  lemma {:induction false} ColumnTails(fs: seq<Fish>, t: nat)
    requires forall k :: 0 <= k < |fs| ==> |fs[k]| > 0
    ensures Column(Tails(fs), t) == Column(fs, t + 1)
  {
    if fs != [] {
      assert Tails(fs)[1..] == Tails(fs[1..]);
      ColumnTails(fs[1..], t);
    }
  }

  /** Only the sentinel fish holds a sample in slot 0, and it is the first
      fish: the marker 0 written before the first time step. */
  predicate SentinelFirst(fs: seq<Fish>)
  {
    forall k :: 0 <= k < |fs| && |fs[k]| > 0 && fs[k][0].Some? ==> k == 0 && fs[k][0] == Some(0.0)
  }

  /** Deleting fishes keeps the sentinel, if it is kept, in front. */
  lemma SelectSentinel(keep: seq<bool>, fs: seq<Fish>)
    requires |keep| == |fs| && SentinelFirst(fs)
    ensures SentinelFirst(Select(keep, fs))
  {
    if fs != [] {
      var rest := Select(keep[1..], fs[1..]);
      forall x: Fish | x in rest && |x| > 0 ensures x[0].None? {
        var j :| 0 <= j < |fs[1..]| && fs[1..][j] == x;
        assert fs[j + 1] == x;
      }
      assert Select(keep, fs) == (if keep[0] then [fs[0]] else []) + rest;
    }
  }

  /** Failure of the final step: `fishes[0][0]` on an empty list. */
  datatype SortError = IndexError

  /** The last statement of the sorting as written (tracker.py:215-216): after
      slicing, the first fish is dropped when its sample at time step 0 is
      exactly 0. With no fish left, `fishes[0]` raises. */
  function DropSentinelAsWritten(fs: seq<Fish>): (r: Result<seq<Fish>, SortError>)
    ensures r.Failure? <==> fs == [] || |fs[0]| == 0
    ensures r.Success? ==> r.value == fs || r.value == fs[1..]
  {
    if fs == [] || |fs[0]| == 0 then Failure(IndexError)
    else if fs[0][0] == Some(0.0) then Success(fs[1..])
    else Success(fs)
  }

  /** The step as evidently intended, taken before the slicing: the first
      fish is dropped when it carries the sentinel marker in slot 0, so no
      sentinel is left; no fish left is an empty result. */
  function DropSentinel(fs: seq<Fish>): (r: seq<Fish>)
    ensures r == fs || (fs != [] && |fs[0]| > 0 && fs[0][0] == Some(0.0) && r == fs[1..])
    ensures fs != [] && |fs[0]| > 0 && fs[0][0] == Some(0.0) ==> r == fs[1..]
    ensures SentinelFirst(fs) ==> forall k :: 0 <= k < |r| && |r[k]| > 0 ==> r[k][0].None?
  {
    if fs != [] && |fs[0]| > 0 && fs[0][0] == Some(0.0) then fs[1..] else fs
  }

  /** When the final clean-up leaves no fish (every fish has at most 10
      samples, e.g. five time steps with one 500 Hz candidate each), the
      step as written fails, where an empty result is evidently intended. */
  lemma {:induction false} EmptySortingFails(fs: seq<Fish>)
    requires forall k :: 0 <= k < |fs| ==> Count(fs[k]) <= MaxShortCount
    ensures Select(LongMask(fs), fs) == []
    ensures DropSentinelAsWritten(Tails(Select(LongMask(fs), fs))).Failure?
    ensures Tails(DropSentinel(Select(LongMask(fs), fs))) == []
  {
    SelectLength(LongMask(fs), fs);
    NoTrues(LongMask(fs));
  }

  /** A sentinel that took ten candidates (ten time steps with one 0.1 Hz
      candidate each, frequency tolerance 0.5) has 11 samples and survives
      the final clean-up. The step as written tests time step 0, not the
      marker, so it keeps the sentinel, which is left with only 10 samples;
      the intended step drops it. */
  lemma SentinelKeptAsWritten()
    ensures var kept := [[Some(0.0)] + Full(10, 0.1)];
            SentinelFirst(kept) && Count(kept[0]) > MaxShortCount &&
            DropSentinelAsWritten(Tails(kept)) == Success(Tails(kept)) &&
            Count(Tails(kept)[0]) == MaxShortCount &&
            Tails(DropSentinel(kept)) == []
  {
    var kept := [[Some(0.0)] + Full(10, 0.1)];
    assert kept[0][1..] == Full(10, 0.1);
  }

  /** `n` samples of frequency `f`. */
  function Full(n: nat, f: real): (g: Fish)
    ensures |g| == n && Count(g) == n && forall t :: 0 <= t < n ==> g[t] == Some(f)
  {
    if n == 0 then [] else
      var g := [Some(f)] + Full(n - 1, f);
      assert g[1..] == Full(n - 1, f);
      g
  }

  lemma {:induction false} NoTrues(m: seq<bool>)
    requires forall k :: 0 <= k < |m| ==> !m[k]
    ensures Trues(m) == 0
  {
    if m != [] { NoTrues(m[1..]); }
  }

  /** A clean-up inside the sorting, with the deleted fishes moved to `gone`:
      the kept fishes have more than 10 samples, the shapes are kept, the
      sentinel stays in front, and every column of the fishes and `gone`
      together is unchanged. */
  lemma CleanFacts(st: Tracks, gone: seq<Fish>, n: nat, from: nat)
    requires Fits(st, n) && SentinelFirst(st.fishes)
    requires forall k, t :: 0 <= k < |st.fishes| && from <= t < n ==> st.fishes[k][t] == None
    requires forall k :: 0 <= k < |gone| ==> |gone[k]| == n
    requires forall k, t :: 0 <= k < |gone| && from <= t < n ==> gone[k][t] == None
    ensures var r := Clean(st);
            Fits(r, n) && SentinelFirst(r.fishes) &&
            (forall k :: 0 <= k < |r.fishes| ==> Count(r.fishes[k]) > MaxShortCount) &&
            forall k, t :: 0 <= k < |r.fishes| && from <= t < n ==> r.fishes[k][t] == None
    ensures var gone' := gone + Removed(st.fishes);
            (forall k :: 0 <= k < |gone'| ==> |gone'[k]| == n) &&
            forall k, t :: 0 <= k < |gone'| && from <= t < n ==> gone'[k][t] == None
    ensures forall t :: Column(Clean(st).fishes, t) + Column(gone + Removed(st.fishes), t) ==
                        Column(st.fishes, t) + Column(gone, t)
  {
    var mask := LongMask(st.fishes);
    var kept := Clean(st).fishes;
    var removed := Removed(st.fishes);
    SelectSentinel(mask, st.fishes);
    forall k | 0 <= k < |kept| ensures |kept[k]| == n && forall t :: from <= t < n ==> kept[k][t] == None {
      SelectMembers(mask, st.fishes, kept[k]);
    }
    forall k | 0 <= k < |removed| ensures |removed[k]| == n && forall t :: from <= t < n ==> removed[k][t] == None {
      SelectMembers(Negate(mask), st.fishes, removed[k]);
    }
    forall t ensures Column(kept, t) + Column(gone + removed, t) == Column(st.fishes, t) + Column(gone, t) {
      ColumnSelect(mask, st.fishes, t);
      ColumnAppend(gone, removed, t);
    }
  }

  /** One pass of the loop over the time steps, for slot `s`, as a function:
      the clean-up when `due`, the assignment of the step's candidates `fs`,
      and the miss bookkeeping. */
  function StepOf(st: Tracks, n: nat, s: nat, due: bool, fs: seq<real>, tol: real, limit: real): (r: Tracks)
    requires Fits(st, n) && s < n
    ensures Fits(r, n)
  {
    CleanFits(st, n);
    var cleaned := if due then Clean(st) else st;
    Misses(AssignAll(cleaned, n, s, fs, tol), s, limit)
  }

  /** One pass of the outer loop of the sorting for time step slot `s`: the
      clean-up when it is due, the assignment of the step's candidates, and the
      miss bookkeeping. */
  method SortTimestep(fishes: seq<Fish>, last: seq<real>, endNans: seq<nat>,
                      n: nat, s: nat, cleanUp: bool, fundamentals: seq<real>, tol: real, limit: real)
    returns (fishes': seq<Fish>, last': seq<real>, endNans': seq<nat>)
    requires s < n && Fits(Tracks(fishes, last, endNans), n)
    ensures Tracks(fishes', last', endNans') ==
            StepOf(Tracks(fishes, last, endNans), n, s, cleanUp, fundamentals, tol, limit)
  {
    fishes', last', endNans' := fishes, last, endNans;
    if cleanUp {
      ghost var removed: seq<Fish>;
      fishes', last', endNans', removed := CleanUp(fishes, last, endNans);
    }
    fishes', last', endNans' := AssignTimestep(fishes', last', endNans', n, s, fundamentals, tol);
    last', endNans' := UpdateMisses(fishes', last', endNans', s, limit);
  }

  /** One time step keeps the shapes, leaves the earlier columns split as
      before (the fishes a due clean-up deletes move to `gone`), and splits
      the step's column into exactly its candidates. */
  lemma StepFacts(st: Tracks, gone: seq<Fish>, n: nat, s: nat, due: bool, fs: seq<real>, tol: real, limit: real,
                   r: Tracks, gone': seq<Fish>)
    requires 0 < s < n && Shaped(st.fishes, st.last, st.endNans, gone, n, s - 1)
    requires r == StepOf(st, n, s, due, fs, tol, limit)
    requires gone' == if due then gone + Removed(st.fishes) else gone
    ensures Shaped(r.fishes, r.last, r.endNans, gone', n, s)
    ensures forall t :: 0 <= t < s ==> Column(r.fishes, t) + Column(gone', t) == Column(st.fishes, t) + Column(gone, t)
    ensures Column(r.fishes, s) + Column(gone', s) == multiset(fs)
  {
    var cleaned := if due then Clean(st) else st;
    if due {
      CleanFacts(st, gone, n, s);
    }
    var filled := AssignAll(cleaned, n, s, fs, tol);
    forall c ensures Column(filled.fishes, c) == Column(cleaned.fishes, c) + (if c == s then multiset(fs) else multiset{}) {
      AssignAllColumns(cleaned, n, s, fs, tol, filled, c);
    }
    AssignAllSlots(cleaned, n, s, fs, tol, filled);
    assert r.fishes == filled.fishes;
    AssignShaped(cleaned.fishes, gone', filled.fishes, n, s, fs);
  }

  /** Assigning the candidates of step `s` to fishes whose columns from `s`
      on are empty keeps the shapes, leaves the earlier columns alone and puts
      exactly the candidates into column `s`. */
  lemma AssignShaped(mid: seq<Fish>, gone: seq<Fish>, fishes: seq<Fish>, n: nat, s: nat, fundamentals: seq<real>)
    requires 0 < s < n && SentinelFirst(mid)
    requires forall k :: 0 <= k < |mid| ==> |mid[k]| == n
    requires forall k, t :: 0 <= k < |mid| && s <= t < n ==> mid[k][t] == None
    requires forall k :: 0 <= k < |gone| ==> |gone[k]| == n
    requires forall k, t :: 0 <= k < |gone| && s <= t < n ==> gone[k][t] == None
    requires |fishes| >= |mid| && forall k :: 0 <= k < |fishes| ==> |fishes[k]| == n
    requires forall c :: Column(fishes, c) == Column(mid, c) + (if c == s then multiset(fundamentals) else multiset{})
    requires forall k, t :: 0 <= k < |fishes| && 0 <= t < n && t != s ==>
               fishes[k][t] == (if k < |mid| then mid[k][t] else None)
    ensures SentinelFirst(fishes)
    ensures forall k, t :: 0 <= k < |fishes| && s < t < n ==> fishes[k][t] == None
    ensures forall t :: 0 <= t < s ==> Column(fishes, t) == Column(mid, t)
    ensures Column(fishes, s) + Column(gone, s) == multiset(fundamentals)
  {
    forall k, t | 0 <= k < |fishes| && s < t < n ensures fishes[k][t] == None {
      if k < |mid| { assert fishes[k][t] == mid[k][t]; }
    }
    forall k | 0 <= k < |fishes| && |fishes[k]| > 0 && fishes[k][0].Some? ensures k == 0 && fishes[k][0] == Some(0.0) {
      assert fishes[k][0] == (if k < |mid| then mid[k][0] else None);
    }
    ColumnAbsent(mid, s);
    ColumnAbsent(gone, s);
  }

  /** After time step `enu - 1`, the columns `1..enu` hold the candidates of
      steps `0..enu - 1` (column 0 is the sentinel slot). */
  lemma ExtendConservation(fishes: seq<Fish>, gone: seq<Fish>, before: seq<Fish>, goneBefore: seq<Fish>,
                           all: seq<seq<real>>, enu: nat)
    requires 0 < enu <= |all| && Conserved(before, goneBefore, all, enu - 1)
    requires forall t :: 0 <= t < enu ==> Column(fishes, t) + Column(gone, t) == Column(before, t) + Column(goneBefore, t)
    requires Column(fishes, enu) + Column(gone, enu) == multiset(all[enu - 1])
    ensures Conserved(fishes, gone, all, enu)
  {
    forall t | 1 <= t <= enu ensures Column(fishes, t) + Column(gone, t) == multiset(all[t - 1]) {
      if t < enu {
        assert Column(before, t) + Column(goneBefore, t) == multiset(all[t - 1]);
      }
    }
  }

  /** The period of the clean-up, `int(30 * dpm)` time steps. */
  function Period(dpm: real): nat
    requires dpm > 0.0
  {
    (30.0 * dpm).Floor
  }

  /** `x` is one of `p, 2 * p, 3 * p, ...`. */
  predicate PositiveMultiple(x: int, p: nat)
    requires p > 0
    decreases x
  {
    x == p || (x > p && PositiveMultiple(x - p, p))
  }

  /** Whether the clean-up runs before time step `enu`: before the steps
      `period, 2 * period, ...`; with a period of 0 only before step 0, since
      the clean-up index then never moves. */
  predicate CleanDue(enu: nat, period: nat)
  {
    if period == 0 then enu == 0 else PositiveMultiple(enu, period)
  }

  /** The loop's clean-up index `next` at step `enu`: the first positive
      multiple of the period from `enu` on (always 0 for a period of 0). */
  predicate Schedule(enu: nat, next: int, period: nat)
  {
    if period == 0 then next == 0
    else PositiveMultiple(next, period) && enu <= next && (next - period < enu || (enu == 0 && next == period))
  }

  /** The loop runs the clean-up at step `enu` exactly when it is due. */
  lemma ScheduleDue(enu: nat, next: int, period: nat)
    requires Schedule(enu, next, period)
    ensures enu == next <==> CleanDue(enu, period)
  {
    if period > 0 && CleanDue(enu, period) && enu != next {
      MultiplesApart(enu, next, period);
    }
  }

  /** Moving the index on by one period after a clean-up keeps the schedule. */
  lemma ScheduleNext(enu: nat, next: int, period: nat)
    requires Schedule(enu, next, period)
    ensures Schedule(enu + 1, if enu == next then next + period else next, period)
  {
  }

  /** Two different positive multiples of `p` lie at least `p` apart. */
  lemma {:induction false} MultiplesApart(a: int, b: int, p: nat)
    requires p > 0 && PositiveMultiple(a, p) && PositiveMultiple(b, p) && a < b
    ensures b - a >= p
    decreases a
  {
    if a > p {
      MultiplesApart(a - p, b - p, p);
    }
  }

  /** The state of the sorting after the time steps before `enu`, as a
      function: the sentinel fish with slot 0 set to 0, then one `StepOf` per
      time step, writing step `enu - 1` into slot `enu`, with the clean-up
      when due and the limit `primTimeTolerance * dpm` for forgetting. */
  function SortRun(all: seq<seq<real>>, dpm: real, primTimeTolerance: real, freqTolerance: real, enu: nat): (st: Tracks)
    requires dpm > 0.0 && enu <= |all|
    ensures Fits(st, |all| + 1)
  {
    if enu == 0 then Tracks([NewFish(|all| + 1, 0, 0.0)], [0.0], [0])
    else StepOf(SortRun(all, dpm, primTimeTolerance, freqTolerance, enu - 1), |all| + 1, enu,
                CleanDue(enu - 1, Period(dpm)), all[enu - 1], freqTolerance, primTimeTolerance * dpm)
  }

  /** The fishes the clean-ups of the first `enu` time steps deleted, in order. */
  ghost function GoneRun(all: seq<seq<real>>, dpm: real, primTimeTolerance: real, freqTolerance: real, enu: nat)
    : (gone: seq<Fish>)
    requires dpm > 0.0 && enu <= |all|
    ensures forall k :: 0 <= k < |gone| ==> |gone[k]| == |all| + 1
  {
    if enu == 0 then []
    else
      var st := SortRun(all, dpm, primTimeTolerance, freqTolerance, enu - 1);
      CleanFits(st, |all| + 1);
      var gone := GoneRun(all, dpm, primTimeTolerance, freqTolerance, enu - 1);
      if CleanDue(enu - 1, Period(dpm)) then gone + Removed(st.fishes) else gone
  }

  /** After the first `enu` time steps, the fish arrays have one slot per
      step plus the sentinel slot and are absent after slot `enu`, the
      sentinel marker is only in the first fish, and the columns `1..enu`
      hold exactly the candidates of steps `0..enu - 1`, split between the
      fishes and the deleted ones. */
  ghost predicate RunInvariant(all: seq<seq<real>>, dpm: real, primTimeTolerance: real, freqTolerance: real, enu: nat)
    requires dpm > 0.0 && enu <= |all|
  {
    var st := SortRun(all, dpm, primTimeTolerance, freqTolerance, enu);
    SortedUpTo(st.fishes, st.last, st.endNans, GoneRun(all, dpm, primTimeTolerance, freqTolerance, enu), all, enu)
  }

  /** Every time step keeps `RunInvariant`. */
  lemma {:induction false} RunSorted(all: seq<seq<real>>, dpm: real, primTimeTolerance: real, freqTolerance: real, enu: nat)
    requires dpm > 0.0 && enu <= |all|
    ensures RunInvariant(all, dpm, primTimeTolerance, freqTolerance, enu)
  {
    if enu == 0 {
      RunStart(all, dpm, primTimeTolerance, freqTolerance);
    } else {
      RunSorted(all, dpm, primTimeTolerance, freqTolerance, enu - 1);
      StepSorted(all, dpm, primTimeTolerance, freqTolerance, enu);
    }
  }

  /** The sentinel fish alone meets `RunInvariant` before the first step. */
  lemma RunStart(all: seq<seq<real>>, dpm: real, primTimeTolerance: real, freqTolerance: real)
    requires dpm > 0.0
    ensures RunInvariant(all, dpm, primTimeTolerance, freqTolerance, 0)
  {
    var g := NewFish(|all| + 1, 0, 0.0);
    assert SortRun(all, dpm, primTimeTolerance, freqTolerance, 0) == Tracks([g], [0.0], [0]);
    assert GoneRun(all, dpm, primTimeTolerance, freqTolerance, 0) == [];
    assert SentinelFirst([g]);
    assert Shaped([g], [0.0], [0], [], |all| + 1, 0);
  }

  /** One more time step extends the sorted steps by one. */
  lemma StepSorted(all: seq<seq<real>>, dpm: real, primTimeTolerance: real, freqTolerance: real, enu: nat)
    requires dpm > 0.0 && 0 < enu <= |all| && RunInvariant(all, dpm, primTimeTolerance, freqTolerance, enu - 1)
    ensures RunInvariant(all, dpm, primTimeTolerance, freqTolerance, enu)
  {
    var st := SortRun(all, dpm, primTimeTolerance, freqTolerance, enu - 1);
    var gone := GoneRun(all, dpm, primTimeTolerance, freqTolerance, enu - 1);
    var due := CleanDue(enu - 1, Period(dpm));
    StepGrows(st, gone, all, enu, due, freqTolerance, primTimeTolerance * dpm);
  }

  /** `SortedUpTo` after one more step, on plain states. */
  lemma StepGrows(st: Tracks, gone: seq<Fish>, all: seq<seq<real>>, enu: nat, due: bool, tol: real, limit: real)
    requires 0 < enu <= |all| && SortedUpTo(st.fishes, st.last, st.endNans, gone, all, enu - 1)
    ensures var st' := StepOf(st, |all| + 1, enu, due, all[enu - 1], tol, limit);
            var gone' := if due then gone + Removed(st.fishes) else gone;
            SortedUpTo(st'.fishes, st'.last, st'.endNans, gone', all, enu)
  {
    var st' := StepOf(st, |all| + 1, enu, due, all[enu - 1], tol, limit);
    var gone' := if due then gone + Removed(st.fishes) else gone;
    StepFacts(st, gone, |all| + 1, enu, due, all[enu - 1], tol, limit, st', gone');
    ExtendConservation(st'.fishes, gone', st.fishes, gone, all, enu);
  }

  /** The run after one more step is `StepOf` of the run so far. */
  lemma SortRunStep(all: seq<seq<real>>, dpm: real, primTimeTolerance: real, freqTolerance: real, enu: nat)
    requires dpm > 0.0 && enu < |all|
    ensures SortRun(all, dpm, primTimeTolerance, freqTolerance, enu + 1) ==
            StepOf(SortRun(all, dpm, primTimeTolerance, freqTolerance, enu), |all| + 1, enu + 1,
                   CleanDue(enu, Period(dpm)), all[enu], freqTolerance, primTimeTolerance * dpm)
  {
  }

  /** The loop over the time steps (tracker.py:159-206), starting from the
      sentinel fish whose slot 0 holds 0 and whose last frequency is 0. Slot
      `enu + 1` of every fish array belongs to time step `enu`; the clean-up
      runs when the step reaches the clean-up index, which then moves on by
      `int(30 * dpm)`. */
  method SortAll(allFundamentals: seq<seq<real>>, dpm: real, primTimeTolerance: real, freqTolerance: real)
    returns (fishes: seq<Fish>, last: seq<real>, endNans: seq<nat>)
    requires dpm > 0.0
    ensures Tracks(fishes, last, endNans) ==
            SortRun(allFundamentals, dpm, primTimeTolerance, freqTolerance, |allFundamentals|)
  {
    fishes := [NewFish(|allFundamentals| + 1, 0, 0.0)];
    last := [0.0];
    endNans := [0];
    var period := (30.0 * dpm).Floor;
    var cleanUpIdx := period;
    for enu := 0 to |allFundamentals|
      invariant Tracks(fishes, last, endNans) == SortRun(allFundamentals, dpm, primTimeTolerance, freqTolerance, enu)
      invariant period == Period(dpm) && Schedule(enu, cleanUpIdx, period)
    {
      var due := enu == cleanUpIdx;
      ScheduleDue(enu, cleanUpIdx, period);
      ScheduleNext(enu, cleanUpIdx, period);
      SortRunStep(allFundamentals, dpm, primTimeTolerance, freqTolerance, enu);
      fishes, last, endNans := SortTimestep(fishes, last, endNans, |allFundamentals| + 1, enu + 1, due,
                                            allFundamentals[enu], freqTolerance, primTimeTolerance * dpm);
      if due {
        cleanUpIdx := cleanUpIdx + period;
      }
    }
  }

  /** The state of the sorting after the time steps before `enu`: parallel
      lists, fish arrays of `|all| + 1` slots that are absent after slot
      `enu`, and the columns `1..enu` holding the candidates of steps
      `0..enu - 1`, split between the fishes and those deleted into `gone`. */
  ghost predicate SortedUpTo(fishes: seq<Fish>, last: seq<real>, endNans: seq<nat>, gone: seq<Fish>,
                             all: seq<seq<real>>, enu: nat)
  {
    enu <= |all| && Shaped(fishes, last, endNans, gone, |all| + 1, enu) && Conserved(fishes, gone, all, enu)
  }

  /** Parallel lists, fish arrays of `n` slots that are absent after slot
      `s`, for the fishes and for those deleted into `gone`, and the sentinel
      marker only in the first fish. */
  predicate Shaped(fishes: seq<Fish>, last: seq<real>, endNans: seq<nat>, gone: seq<Fish>, n: nat, s: nat)
  {
    |fishes| == |last| == |endNans| && SentinelFirst(fishes) &&
    (forall k :: 0 <= k < |fishes| ==> |fishes[k]| == n) &&
    (forall k :: 0 <= k < |gone| ==> |gone[k]| == n) &&
    (forall k, t :: 0 <= k < |fishes| && s < t < n ==> fishes[k][t] == None) &&
    (forall k, t :: 0 <= k < |gone| && s < t < n ==> gone[k][t] == None)
  }

  /** Columns `1..enu` hold the candidates of steps `0..enu - 1`, split
      between the fishes and `gone`. */
  ghost predicate Conserved(fishes: seq<Fish>, gone: seq<Fish>, all: seq<seq<real>>, enu: nat)
    requires enu <= |all|
  {
    forall t :: 1 <= t <= enu ==> Column(fishes, t) + Column(gone, t) == multiset(all[t - 1])
  }

  /** Slicing off slot 0 of every fish shifts the columns down by one. */
  lemma TailsConserve(kept: seq<Fish>, goneK: seq<Fish>, all: seq<seq<real>>)
    requires forall k :: 0 <= k < |kept| ==> |kept[k]| > 0
    requires forall k :: 0 <= k < |goneK| ==> |goneK[k]| > 0
    requires forall t :: 1 <= t <= |all| ==> Column(kept, t) + Column(goneK, t) == multiset(all[t - 1])
    ensures forall t :: 0 <= t < |all| ==> Column(Tails(kept), t) + Column(Tails(goneK), t) == multiset(all[t])
  {
    forall t | 0 <= t < |all| ensures Column(Tails(kept), t) + Column(Tails(goneK), t) == multiset(all[t]) {
      ColumnTails(kept, t);
      ColumnTails(goneK, t);
    }
  }

  /** Moving the first fish to the dropped ones keeps every column's split. */
  lemma MoveFirst(fs: seq<Fish>, dropped: seq<Fish>, all: seq<seq<real>>)
    requires fs != []
    requires forall t :: 1 <= t <= |all| ==> Column(fs, t) + Column(dropped, t) == multiset(all[t - 1])
    ensures forall t :: 1 <= t <= |all| ==> Column(fs[1..], t) + Column(dropped + [fs[0]], t) == multiset(all[t - 1])
  {
    forall t | 1 <= t <= |all| ensures Column(fs[1..], t) + Column(dropped + [fs[0]], t) == multiset(all[t - 1]) {
      ColumnAppend(dropped, [fs[0]], t);
      assert Column([fs[0]], t) == Cell(fs[0], t);
    }
  }

  /** The result of `first_level_fish_sorting`, with the corrected final
      step: the final clean-up, dropping a surviving sentinel fish, and
      slicing off the sentinel slot. */
  function Sorted(all: seq<seq<real>>, dpm: real, primTimeTolerance: real, freqTolerance: real): seq<Fish>
    requires dpm > 0.0
  {
    CleanFits(SortRun(all, dpm, primTimeTolerance, freqTolerance, |all|), |all| + 1);
    var kept := Clean(SortRun(all, dpm, primTimeTolerance, freqTolerance, |all|)).fishes;
    Tails(DropSentinel(kept))
  }

  /** The fishes the sorting deletes, without the sentinel slot: those of
      the periodic clean-ups and of the final one, and the sentinel fish when
      it is dropped. */
  ghost function Dropped(all: seq<seq<real>>, dpm: real, primTimeTolerance: real, freqTolerance: real): seq<Fish>
    requires dpm > 0.0
  {
    var st := SortRun(all, dpm, primTimeTolerance, freqTolerance, |all|);
    CleanFits(st, |all| + 1);
    var kept := Clean(st).fishes;
    var gone := GoneRun(all, dpm, primTimeTolerance, freqTolerance, |all|) + Removed(st.fishes);
    MovedLengths(gone, kept, |all| + 1);
    Tails(Moved(kept, gone))
  }

  /** Every fish returned has one slot per time step and more than 10
      samples, and every candidate of every time step ends up exactly once,
      at its own time step, in a returned fish or in a deleted one. */
  lemma SortedFacts(all: seq<seq<real>>, dpm: real, primTimeTolerance: real, freqTolerance: real)
    requires dpm > 0.0
    ensures var r := Sorted(all, dpm, primTimeTolerance, freqTolerance);
            forall k :: 0 <= k < |r| ==> |r[k]| == |all| && Count(r[k]) > MaxShortCount
    ensures var d := Dropped(all, dpm, primTimeTolerance, freqTolerance);
            forall k :: 0 <= k < |d| ==> |d[k]| == |all|
    ensures forall t :: 0 <= t < |all| ==>
              Column(Sorted(all, dpm, primTimeTolerance, freqTolerance), t) +
              Column(Dropped(all, dpm, primTimeTolerance, freqTolerance), t) == multiset(all[t])
  {
    var st := SortRun(all, dpm, primTimeTolerance, freqTolerance, |all|);
    var gone := GoneRun(all, dpm, primTimeTolerance, freqTolerance, |all|);
    RunSorted(all, dpm, primTimeTolerance, freqTolerance, |all|);
    var kept := Clean(st).fishes;
    FinishFacts(st, gone, all);
    TailFacts(DropSentinel(kept), Moved(kept, gone + Removed(st.fishes)), all);
  }

  /** Slicing off the sentinel slot keeps the lengths (one fewer), the counts
      of fishes without a marker, and the split of every column (shifted by one). */
  lemma TailFacts(unmarked: seq<Fish>, goneAll: seq<Fish>, all: seq<seq<real>>)
    requires forall k :: 0 <= k < |unmarked| ==>
               |unmarked[k]| == |all| + 1 && unmarked[k][0].None? && Count(unmarked[k]) > MaxShortCount
    requires forall k :: 0 <= k < |goneAll| ==> |goneAll[k]| == |all| + 1
    requires forall t :: 1 <= t <= |all| ==> Column(unmarked, t) + Column(goneAll, t) == multiset(all[t - 1])
    ensures var r := Tails(unmarked);
            forall k :: 0 <= k < |r| ==> |r[k]| == |all| && Count(r[k]) > MaxShortCount
    ensures var d := Tails(goneAll);
            forall k :: 0 <= k < |d| ==> |d[k]| == |all|
    ensures forall t :: 0 <= t < |all| ==> Column(Tails(unmarked), t) + Column(Tails(goneAll), t) == multiset(all[t])
  {
    TailsConserve(unmarked, goneAll, all);
    var r := Tails(unmarked);
    forall k | 0 <= k < |r| ensures Count(r[k]) > MaxShortCount {
      assert Count(unmarked[k]) == Count(unmarked[k][1..]);
    }
  }

  /** The final step, on plain states: the last clean-up and dropping a
      surviving sentinel fish keep the split of every column, and the kept
      fishes, without the sentinel marker, have more than 10 samples. */
  lemma FinishFacts(st: Tracks, gone: seq<Fish>, all: seq<seq<real>>)
    requires SortedUpTo(st.fishes, st.last, st.endNans, gone, all, |all|)
    ensures var kept := Clean(st).fishes;
            forall k :: 0 <= k < |DropSentinel(kept)| ==>
              |DropSentinel(kept)[k]| == |all| + 1 && DropSentinel(kept)[k][0].None? &&
              Count(DropSentinel(kept)[k]) > MaxShortCount
    ensures var kept := Clean(st).fishes;
            var goneAll := Moved(kept, gone + Removed(st.fishes));
            (forall k :: 0 <= k < |goneAll| ==> |goneAll[k]| == |all| + 1) &&
            forall t :: 1 <= t <= |all| ==> Column(DropSentinel(kept), t) + Column(goneAll, t) == multiset(all[t - 1])
  {
    var n := |all| + 1;
    CleanFacts(st, gone, n, n);
    var kept := Clean(st).fishes;
    var gone' := gone + Removed(st.fishes);
    assert forall t :: 1 <= t <= |all| ==> Column(kept, t) + Column(gone', t) == multiset(all[t - 1]);
    if DropSentinel(kept) != kept {
      MoveFirst(kept, gone', all);
    }
    UnmarkedFacts(kept, DropSentinel(kept), n);
    MovedLengths(gone', kept, n);
  }

  /** The deleted fishes, with the first kept fish added when the final step
      drops it as the sentinel fish. */
  function Moved(kept: seq<Fish>, gone: seq<Fish>): seq<Fish>
  {
    if DropSentinel(kept) == kept then gone else gone + [kept[0]]
  }

  /** Dropping a marked sentinel fish leaves fishes of `n` slots, more than
      10 samples and no marker. */
  lemma UnmarkedFacts(kept: seq<Fish>, unmarked: seq<Fish>, n: nat)
    requires n > 0 && SentinelFirst(kept) && unmarked == DropSentinel(kept)
    requires forall k :: 0 <= k < |kept| ==> |kept[k]| == n && Count(kept[k]) > MaxShortCount
    ensures forall k :: 0 <= k < |unmarked| ==>
              |unmarked[k]| == n && unmarked[k][0].None? && Count(unmarked[k]) > MaxShortCount
  {
    forall k | 0 <= k < |unmarked|
      ensures |unmarked[k]| == n && Count(unmarked[k]) > MaxShortCount
    {
      var j := if unmarked == kept then k else k + 1;
      assert unmarked[k] == kept[j];
    }
  }

  /** Adding the dropped sentinel fish to the deleted ones keeps every
      deleted fish at `n` slots. */
  lemma MovedLengths(gone: seq<Fish>, kept: seq<Fish>, n: nat)
    requires forall k :: 0 <= k < |gone| ==> |gone[k]| == n
    requires forall k :: 0 <= k < |kept| ==> |kept[k]| == n
    ensures forall k :: 0 <= k < |Moved(kept, gone)| ==> |Moved(kept, gone)[k]| == n
  {
  }

  /** `first_level_fish_sorting`: sorts the candidate frequencies of every time
      step into fish arrays of `|allFundamentals|` slots, with the corrected
      final step. Every fish returned has more than 10 samples, and each time
      step's candidates are split between the result and the deleted fishes.
      `dpm` is the number of detections per minute. */
  method FirstLevelFishSorting(allFundamentals: seq<seq<real>>, dpm: real, primTimeTolerance: real, freqTolerance: real)
    returns (fishes: seq<Fish>)
    requires dpm > 0.0
    ensures fishes == Sorted(allFundamentals, dpm, primTimeTolerance, freqTolerance)
    ensures forall k :: 0 <= k < |fishes| ==> |fishes[k]| == |allFundamentals| && Count(fishes[k]) > MaxShortCount
    ensures forall t :: 0 <= t < |allFundamentals| ==>
              Column(fishes, t) + Column(Dropped(allFundamentals, dpm, primTimeTolerance, freqTolerance), t) ==
              multiset(allFundamentals[t])
  {
    var sorted, last, endNans := SortAll(allFundamentals, dpm, primTimeTolerance, freqTolerance);
    var kept, last', endNans', removed := CleanUp(sorted, last, endNans);
    fishes := Tails(DropSentinel(kept));
    SortedFacts(allFundamentals, dpm, primTimeTolerance, freqTolerance);
  }
}
