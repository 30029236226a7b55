/** `combine_fishes`: joins fishes that are likely the same animal. Every
    fish is scored against the fishes that appeared before it; then the best
    scored pair is merged, again and again, until no score is left. */
module FishCombining {
  import opened Wrappers
  import opened Trajectory

  // ---------------------------------------------------------------------------
  // Occurrence

  /** Every fish holds at least one sample and every fish has the same length. */
  predicate Occupied(fishes: seq<Fish>)
  {
    (forall k :: 0 <= k < |fishes| ==> Count(fishes[k]) > 0) &&
    (forall k :: 0 <= k < |fishes| ==> |fishes[k]| == |fishes[0]|)
  }

  /** The first valid index of a fish. */
  function FirstIdx(f: Fish): (t: nat)
    requires Count(f) > 0
    ensures t < |f| && f[t].Some? && forall u :: 0 <= u < t ==> f[u].None?
  {
    var nn := ValidIndices(f);
    assert forall u :: 0 <= u < nn[0] && f[u].Some? ==> u in nn;
    nn[0]
  }

  /** The last valid index of a fish. */
  function LastIdx(f: Fish): (t: nat)
    requires Count(f) > 0
    ensures t < |f| && f[t].Some? && forall u :: t < u < |f| ==> f[u].None?
  {
    var nn := ValidIndices(f);
    assert forall u :: nn[|nn| - 1] < u < |f| && f[u].Some? ==> u in nn;
    nn[|nn| - 1]
  }

  /** The first valid index of every fish (`occure_idx[i][0]`). */
  function Firsts(fishes: seq<Fish>): (fs: seq<nat>)
    requires forall k :: 0 <= k < |fishes| ==> Count(fishes[k]) > 0
    ensures |fs| == |fishes| && forall k :: 0 <= k < |fishes| ==> fs[k] == FirstIdx(fishes[k])
  {
    seq(|fishes|, k requires 0 <= k < |fishes| => FirstIdx(fishes[k]))
  }

  /** Fish `j` comes before fish `k` in the occurrence order: it starts
      earlier, or at the same index and has the smaller position. */
  predicate Earlier(firsts: seq<nat>, j: nat, k: nat)
    requires j < |firsts| && k < |firsts|
  {
    firsts[j] < firsts[k] || (firsts[j] == firsts[k] && j < k)
  }

  /** `occure_order`: the fishes sorted by their first index, ties by
      position. Built by inserting each fish after every fish that does not
      start later. */
  method OccurOrder(firsts: seq<nat>) returns (order: seq<nat>)
    ensures |order| == |firsts|
    ensures forall k :: 0 <= k < |firsts| ==> k in order
    ensures forall p :: 0 <= p < |order| ==> order[p] < |firsts|
    ensures forall p, q :: 0 <= p < q < |order| ==> Earlier(firsts, order[p], order[q])
  {
    order := [];
    for k := 0 to |firsts|
      invariant |order| == k
      invariant forall j :: j in order <==> 0 <= j < k
      invariant forall p :: 0 <= p < |order| ==> order[p] < k
      invariant forall p, q :: 0 <= p < q < |order| ==> Earlier(firsts, order[p], order[q])
    {
      var p := 0;
      while p < |order| && firsts[order[p]] <= firsts[k]
        invariant p <= |order|
        invariant forall q :: 0 <= q < p ==> Earlier(firsts, order[q], k)
      {
        p := p + 1;
      }
      InsertKeepsOrder(firsts, order, k, p);
      order := order[..p] + [k] + order[p..];
    }
  }

  /** Inserting fish `k` after every fish that does not start later keeps the
      list in occurrence order. */
  lemma InsertKeepsOrder(firsts: seq<nat>, order: seq<nat>, k: nat, p: nat)
    requires k < |firsts| && p <= |order|
    requires forall i :: 0 <= i < |order| ==> order[i] < k
    requires forall a, b :: 0 <= a < b < |order| ==> Earlier(firsts, order[a], order[b])
    requires forall q :: 0 <= q < p ==> Earlier(firsts, order[q], k)
    requires p < |order| ==> firsts[order[p]] > firsts[k]
    ensures var o := order[..p] + [k] + order[p..];
            (forall i :: 0 <= i < |o| ==> o[i] <= k) &&
            (forall j :: j in o <==> j in order || j == k) &&
            (forall a, b :: 0 <= a < b < |o| ==> Earlier(firsts, o[a], o[b]))
  {
    var o := order[..p] + [k] + order[p..];
    assert order == order[..p] + order[p..];
    assert |o| == |order| + 1;
    forall i | 0 <= i < |o| ensures o[i] == if i < p then order[i] else if i == p then k else order[i - 1] {
    }
    forall a, b | 0 <= a < b < |o| ensures Earlier(firsts, o[a], o[b]) {
      if a == p && b - 1 != p {
        assert Earlier(firsts, order[p], order[b - 1]);
      }
    }
  }

  // ---------------------------------------------------------------------------
  // Scores

  /** The first rise in the list that starts at `s`. */
  function RiseStartingAt(rs: seq<Rise>, s: nat): (r: Option<Rise>)
    ensures r.Some? ==> r.value in rs && r.value.start == s
    ensures r.None? ==> forall k :: 0 <= k < |rs| ==> rs[k].start != s
  {
    if rs == [] then None
    else if rs[0].start == s then Some(rs[0])
    else RiseStartingAt(rs[1..], s)
  }

  /** The index at which a later fish is compared: the end of the rise it
      begins with, if any, otherwise its first sample. */
  function CompareIdx(f: Fish, rs: seq<Rise>): nat
    requires Count(f) > 0
  {
    match RiseStartingAt(rs, FirstIdx(f))
    case Some(r) => r.end
    case None => FirstIdx(f)
  }

  /** The last valid index of `g` below `c`; index `lo` is one. */
  function LatestBefore(g: Fish, c: nat, lo: nat): (t: nat)
    requires lo < c <= |g| && g[lo].Some?
    ensures lo <= t < c && g[t].Some? && forall u :: t < u < c ==> g[u].None?
    decreases c
  {
    if g[c - 1].Some? then c - 1 else LatestBefore(g, c - 1, lo)
  }

  /** Number of time steps at which both fishes hold a sample (the non-NaN
      entries of `fishes[a] + fishes[b]`). */
  function Overlap(f: Fish, g: Fish): nat
    requires |f| == |g|
  {
    if f == [] then 0 else (if f[0].Some? && g[0].Some? then 1 else 0) + Overlap(f[1..], g[1..])
  }

  /** Two fishes sharing more than this many time steps are never combined. */
  const MaxOverlap := 20

  /** The score of comparing `f` at index `c0` with `g` at index `c1`: the
      frequency difference plus 0.01 per second between the two indices; none
      when a value is missing, the difference exceeds `fTh`, or the fishes
      share more than 20 time steps. */
  function Score(f: Fish, g: Fish, c0: nat, c1: nat, fTh: real, dpm: real): (s: Option<real>)
    requires |f| == |g| && dpm > 0.0
    ensures s.Some? ==> s.value >= 0.0 && c0 < |f| && f[c0].Some? && Overlap(f, g) <= MaxOverlap
  {
    if c0 < |f| && c1 < |g| && f[c0].Some? && g[c1].Some? &&
       Abs(f[c0].value - g[c1].value) <= fTh && Overlap(f, g) <= MaxOverlap
    then
      var seconds := Abs(c0 as real - c1 as real) / (dpm / 60.0);
      NonNegativeQuotient(Abs(c0 as real - c1 as real), dpm / 60.0);
      Some(Abs(f[c0].value - g[c1].value) + seconds * 0.01)
    else None
  }

  lemma NonNegativeQuotient(a: real, b: real)
    requires a >= 0.0 && b > 0.0
    ensures a / b >= 0.0
  {
  }

  /** Every rise lies inside its fish: it starts before it ends, and ends
      before the fish does. */
  predicate RisesInside(fishes: seq<Fish>, allRises: seq<seq<Rise>>)
    requires |allRises| == |fishes|
  {
    forall k, i :: 0 <= k < |fishes| && 0 <= i < |allRises[k]| ==>
      allRises[k][i].start < allRises[k][i].end < |fishes[k]|
  }

  /** What the scoring needs of its input: aligned rise lists, fishes of one
      length that each hold a sample, rises inside their fishes, and a
      positive detection rate. */
  predicate Scorable(fishes: seq<Fish>, allRises: seq<seq<Rise>>, dpm: real)
  {
    |allRises| == |fishes| && Occupied(fishes) && RisesInside(fishes, allRises) && dpm > 0.0
  }

  /** The score of combining `fish` into the earlier fish `comp` (one entry
      of `possible_combinations`): when `fish` starts inside `comp`, it is
      compared with the last sample of `comp` before the compare index; when
      it starts after `comp` ends, but less than `maxTol` minutes later, with
      the last sample of `comp`. */
  function Entry(fishes: seq<Fish>, allRises: seq<seq<Rise>>, fish: nat, comp: nat, maxTol: real, fTh: real, dpm: real): (e: Option<real>)
    requires Scorable(fishes, allRises, dpm)
    requires fish < |fishes| && comp < |fishes|
    ensures e.Some? ==> e.value >= 0.0
    ensures e.Some? ==> Overlap(fishes[fish], fishes[comp]) <= MaxOverlap
    ensures e.Some? ==> FirstIdx(fishes[fish]) > FirstIdx(fishes[comp])
    ensures e.Some? ==> (FirstIdx(fishes[fish]) < LastIdx(fishes[comp]) ||
                         ((FirstIdx(fishes[fish]) - LastIdx(fishes[comp])) as real) < maxTol * dpm)
    ensures e.Some? ==> fishes[fish][CompareIdx(fishes[fish], allRises[fish])].Some?
  {
    var f, g := fishes[fish], fishes[comp];
    var first, compFirst, compLast := FirstIdx(f), FirstIdx(g), LastIdx(g);
    var c0 := CompareIdx(f, allRises[fish]);
    var inside := first > compFirst && first < compLast;
    var after := first > compLast && ((first - compLast) as real) < maxTol * dpm;
    if inside || after then
      CompareIdxRange(fishes, allRises, fish);
      var c1 := if inside then LatestBefore(g, c0, compFirst) else compLast;
      Score(f, g, c0, c1, fTh, dpm)
    else None
  }

  /** The compare index lies between the first sample and the end of the fish. */
  lemma CompareIdxRange(fishes: seq<Fish>, allRises: seq<seq<Rise>>, fish: nat)
    requires |allRises| == |fishes| && Occupied(fishes) && RisesInside(fishes, allRises) && fish < |fishes|
    ensures FirstIdx(fishes[fish]) <= CompareIdx(fishes[fish], allRises[fish]) < |fishes[fish]|
  {
    var rs := allRises[fish];
    var r := RiseStartingAt(rs, FirstIdx(fishes[fish]));
    if r.Some? {
      var i :| 0 <= i < |rs| && rs[i] == r.value;
      assert rs[i].start < rs[i].end < |fishes[fish]|;
    }
  }

  /** The row of scores of `fish` against every fish before it. */
  function CostRow(fishes: seq<Fish>, allRises: seq<seq<Rise>>, fish: nat, maxTol: real, fTh: real, dpm: real): (row: seq<Option<real>>)
    requires Scorable(fishes, allRises, dpm)
    requires fish < |fishes|
    ensures |row| == |fishes|
    ensures forall c :: 0 <= c < |fishes| ==> (row[c].Some? ==> Earlier(Firsts(fishes), c, fish))
  {
    var firsts := Firsts(fishes);
    seq(|fishes|, comp requires 0 <= comp < |fishes| =>
      if Earlier(firsts, comp, fish) then Entry(fishes, allRises, fish, comp, maxTol, fTh, dpm) else None)
  }

  /** The score matrix `possible_combinations_all_fish`, one row per fish. */
  function Costs(fishes: seq<Fish>, allRises: seq<seq<Rise>>, maxTol: real, fTh: real, dpm: real): (m: seq<seq<Option<real>>>)
    requires Scorable(fishes, allRises, dpm)
    ensures |m| == |fishes| && forall i :: 0 <= i < |fishes| ==> m[i] == CostRow(fishes, allRises, i, maxTol, fTh, dpm)
  {
    seq(|fishes|, fish requires 0 <= fish < |fishes| => CostRow(fishes, allRises, fish, maxTol, fTh, dpm))
  }

  /** The row as written: it is stored when the scan of earlier fishes
      reaches fish 0, with the scores gathered so far, that is those of the
      fishes from fish 0 on in the occurrence order; a fish that fish 0 does
      not precede gets no row. */
  function CostRowAsWritten(fishes: seq<Fish>, allRises: seq<seq<Rise>>, fish: nat, maxTol: real, fTh: real, dpm: real): (row: seq<Option<real>>)
    requires Scorable(fishes, allRises, dpm)
    requires fish < |fishes|
    ensures |row| == |fishes|
  {
    var firsts := Firsts(fishes);
    seq(|fishes|, comp requires 0 <= comp < |fishes| =>
      if Earlier(firsts, 0, fish) && Earlier(firsts, comp, fish) && (comp == 0 || Earlier(firsts, 0, comp))
      then Entry(fishes, allRises, fish, comp, maxTol, fTh, dpm) else None)
  }

  function CostsAsWritten(fishes: seq<Fish>, allRises: seq<seq<Rise>>, maxTol: real, fTh: real, dpm: real): (m: seq<seq<Option<real>>>)
    requires Scorable(fishes, allRises, dpm)
    ensures |m| == |fishes| && forall i :: 0 <= i < |fishes| ==> m[i] == CostRowAsWritten(fishes, allRises, i, maxTol, fTh, dpm)
  {
    seq(|fishes|, fish requires 0 <= fish < |fishes| => CostRowAsWritten(fishes, allRises, fish, maxTol, fTh, dpm))
  }

  /** Some fish has a score in the row. */
  predicate AnyScore(row: seq<Option<real>>)
  {
    exists c :: 0 <= c < |row| && row[c].Some?
  }

  /** A row without scores. */
  function NoScores(n: nat): (row: seq<Option<real>>)
    ensures |row| == n && forall c :: 0 <= c < n ==> row[c].None?
  {
    seq(n, _ => None)
  }

  /** `order` lists every fish once, in occurrence order. */
  predicate OrderOf(order: seq<nat>, firsts: seq<nat>)
  {
    |order| == |firsts| &&
    (forall k :: 0 <= k < |firsts| ==> k in order) &&
    (forall p :: 0 <= p < |order| ==> order[p] < |firsts|) &&
    (forall p, q :: 0 <= p < q < |order| ==> Earlier(firsts, order[p], order[q]))
  }

  /** The fishes listed before position `q` are exactly the fishes that
      occur before the fish at `q`. */
  lemma EarlierListed(order: seq<nat>, firsts: seq<nat>, q: nat, c: nat)
    requires OrderOf(order, firsts) && q < |order| && c < |firsts|
    ensures c in order[..q] <==> Earlier(firsts, c, order[q])
  {
    if c in order[..q] {
      var p :| 0 <= p < q && order[p] == c;
    } else {
      assert c in order;
      var p :| 0 <= p < |order| && order[p] == c;
      assert p >= q;
    }
  }

  /** The inner loop of the scoring: `fish` (at position `q` of the order)
      is scored against every fish before it, latest first. */
  method ScoreRow(fishes: seq<Fish>, allRises: seq<seq<Rise>>, order: seq<nat>, q: nat,
                  maxTol: real, fTh: real, dpm: real) returns (row: seq<Option<real>>)
    requires Scorable(fishes, allRises, dpm)
    requires OrderOf(order, Firsts(fishes)) && q < |order|
    ensures row == CostRow(fishes, allRises, order[q], maxTol, fTh, dpm)
  {
    var fish := order[q];
    row := NoScores(|fishes|);
    for p := q downto 0
      invariant RowFrom(fishes, allRises, order, q, p, row, maxTol, fTh, dpm)
    {
      var comp := order[p];
      RowFromStep(fishes, allRises, order, q, p, row, maxTol, fTh, dpm);
      row := row[comp := Entry(fishes, allRises, fish, comp, maxTol, fTh, dpm)];
    }
    forall c | 0 <= c < |fishes|
      ensures row[c] == CostRow(fishes, allRises, fish, maxTol, fTh, dpm)[c]
    {
      EarlierListed(order, Firsts(fishes), q, c);
      assert order[0..q] == order[..q];
    }
  }

  /** The row of the fish at position `q` once the fishes at positions `p`
      up to `q` are scored against it. */
  ghost predicate RowFrom(fishes: seq<Fish>, allRises: seq<seq<Rise>>, order: seq<nat>, q: nat, p: nat,
                          row: seq<Option<real>>, maxTol: real, fTh: real, dpm: real)
    requires Scorable(fishes, allRises, dpm)
    requires OrderOf(order, Firsts(fishes)) && q < |order|
  {
    p <= q && |row| == |fishes| &&
    forall c :: 0 <= c < |fishes| ==>
      row[c] == if c in order[p..q] then Entry(fishes, allRises, order[q], c, maxTol, fTh, dpm) else None
  }

  lemma RowFromStep(fishes: seq<Fish>, allRises: seq<seq<Rise>>, order: seq<nat>, q: nat, p: nat,
                    row: seq<Option<real>>, maxTol: real, fTh: real, dpm: real)
    requires Scorable(fishes, allRises, dpm)
    requires OrderOf(order, Firsts(fishes)) && p < q < |order|
    requires RowFrom(fishes, allRises, order, q, p + 1, row, maxTol, fTh, dpm)
    ensures RowFrom(fishes, allRises, order, q, p,
                    row[order[p] := Entry(fishes, allRises, order[q], order[p], maxTol, fTh, dpm)], maxTol, fTh, dpm)
  {
    assert order[p..q] == [order[p]] + order[p + 1..q];
  }

  /** When the scan reaches fish 0, the row is the one `RowAtZero` describes. */
  lemma RowFromZero(fishes: seq<Fish>, allRises: seq<seq<Rise>>, order: seq<nat>, q: nat, p: nat, p0: nat,
                    row: seq<Option<real>>, maxTol: real, fTh: real, dpm: real)
    requires Scorable(fishes, allRises, dpm)
    requires OrderOf(order, Firsts(fishes)) && p < q < |order| && p0 < |order|
    requires order[p] == 0 && order[p0] == 0
    requires RowFrom(fishes, allRises, order, q, p, row, maxTol, fTh, dpm)
    ensures p == p0 && row == RowAtZero(fishes, allRises, order, q, p0, maxTol, fTh, dpm)
  {
    EarlierPositions(order, Firsts(fishes), p, p0);
    EarlierPositions(order, Firsts(fishes), p0, p);
  }

  /** Builds the score matrix: every fish, latest first, is scored against
      the fishes before it. */
  method BuildCosts(fishes: seq<Fish>, allRises: seq<seq<Rise>>, maxTol: real, fTh: real, dpm: real)
    returns (m: seq<seq<Option<real>>>)
    requires Scorable(fishes, allRises, dpm)
    ensures m == Costs(fishes, allRises, maxTol, fTh, dpm)
  {
    var firsts := Firsts(fishes);
    var order := OccurOrder(firsts);
    ghost var target := Costs(fishes, allRises, maxTol, fTh, dpm);
    m := seq(|fishes|, _ => NoScores(|fishes|));
    for q := |order| downto 0
      invariant FilledFrom(m, order, q, target)
    {
      var row := ScoreRow(fishes, allRises, order, q, maxTol, fTh, dpm);
      FilledStep(m, order, firsts, q, target);
      m := m[order[q] := row];
    }
    FilledAll(m, order, firsts, target);
  }

  /** The rows of the fishes at positions `q` on in `order` are those of
      `target`; the others hold no score yet. */
  ghost predicate FilledFrom(m: seq<seq<Option<real>>>, order: seq<nat>, q: nat, target: seq<seq<Option<real>>>)
  {
    q <= |order| && |m| == |target| &&
    forall i :: 0 <= i < |m| ==> m[i] == if i in order[q..] then target[i] else NoScores(|target|)
  }

  lemma FilledStep(m: seq<seq<Option<real>>>, order: seq<nat>, firsts: seq<nat>, q: nat, target: seq<seq<Option<real>>>)
    requires OrderOf(order, firsts) && |target| == |firsts| && q < |order|
    requires FilledFrom(m, order, q + 1, target)
    ensures m[order[q]] == NoScores(|target|)
    ensures FilledFrom(m[order[q] := target[order[q]]], order, q, target)
  {
    assert order[q..] == [order[q]] + order[q + 1..];
  }

  lemma FilledAll(m: seq<seq<Option<real>>>, order: seq<nat>, firsts: seq<nat>, target: seq<seq<Option<real>>>)
    requires OrderOf(order, firsts) && |target| == |firsts|
    requires FilledFrom(m, order, 0, target)
    ensures m == target
  {
    assert order[0..] == order;
  }

  /** The row the scan holds when it reaches fish 0 at position `p0`: the
      scores against the fishes from position `p0` up to position `q`. */
  ghost function RowAtZero(fishes: seq<Fish>, allRises: seq<seq<Rise>>, order: seq<nat>, q: nat, p0: nat,
                           maxTol: real, fTh: real, dpm: real): seq<Option<real>>
    requires Scorable(fishes, allRises, dpm)
    requires OrderOf(order, Firsts(fishes)) && p0 < q < |order|
  {
    seq(|fishes|, c requires 0 <= c < |fishes| =>
      if c in order[p0..q] then Entry(fishes, allRises, order[q], c, maxTol, fTh, dpm) else None)
  }

  /** The fishes from fish 0 up to `fish` in the order are those that fish 0
      does not follow and that `fish` follows. */
  lemma RowAtZeroAsWritten(fishes: seq<Fish>, allRises: seq<seq<Rise>>, order: seq<nat>, q: nat, p0: nat,
                           maxTol: real, fTh: real, dpm: real)
    requires Scorable(fishes, allRises, dpm)
    requires OrderOf(order, Firsts(fishes)) && q < |order| && p0 < |order| && order[p0] == 0
    ensures CostRowAsWritten(fishes, allRises, order[q], maxTol, fTh, dpm) ==
            if p0 < q then RowAtZero(fishes, allRises, order, q, p0, maxTol, fTh, dpm) else NoScores(|fishes|)
  {
    var row := CostRowAsWritten(fishes, allRises, order[q], maxTol, fTh, dpm);
    var target := if p0 < q then RowAtZero(fishes, allRises, order, q, p0, maxTol, fTh, dpm) else NoScores(|fishes|);
    forall c | 0 <= c < |fishes| ensures row[c] == target[c] {
      RowAtZeroCell(fishes, allRises, order, q, p0, c, maxTol, fTh, dpm);
    }
  }

  /** `RowAtZeroAsWritten` for the score against fish `c`. */
  lemma RowAtZeroCell(fishes: seq<Fish>, allRises: seq<seq<Rise>>, order: seq<nat>, q: nat, p0: nat, c: nat,
                      maxTol: real, fTh: real, dpm: real)
    requires Scorable(fishes, allRises, dpm)
    requires OrderOf(order, Firsts(fishes)) && q < |order| && p0 < |order| && order[p0] == 0 && c < |fishes|
    ensures CostRowAsWritten(fishes, allRises, order[q], maxTol, fTh, dpm)[c] ==
            (if p0 < q then RowAtZero(fishes, allRises, order, q, p0, maxTol, fTh, dpm) else NoScores(|fishes|))[c]
  {
    var firsts := Firsts(fishes);
    var fish := order[q];
    EarlierListed(order, firsts, q, c);
    EarlierPositions(order, firsts, p0, q);
    var stored := Earlier(firsts, 0, fish) && Earlier(firsts, c, fish) && (c == 0 || Earlier(firsts, 0, c));
    if p0 < q {
      var inWindow := c in order[p0..q];
      if Earlier(firsts, c, fish) {
        var pc :| 0 <= pc < q && order[pc] == c;
        EarlierPositions(order, firsts, p0, pc);
        assert stored <==> p0 <= pc;
        assert p0 <= pc ==> order[p0..q][pc - p0] == c;
        if inWindow {
          var p' :| p0 <= p' < q && order[p'] == c;
          EarlierPositions(order, firsts, p', pc);
          EarlierPositions(order, firsts, pc, p');
        }
        assert stored == inWindow;
      }
    }
  }

  /** In an occurrence order the positions decide which of two fishes comes first. */
  lemma EarlierPositions(order: seq<nat>, firsts: seq<nat>, a: nat, b: nat)
    requires OrderOf(order, firsts) && a < |order| && b < |order|
    ensures Earlier(firsts, order[a], order[b]) <==> a < b
  {
    if b < a {
      assert Earlier(firsts, order[b], order[a]);
    }
  }

  /** The inner loop as written: the row is stored into `m` when the scan
      reaches fish 0 and has found a score, with the scores found so far. */
  method ScoreRowAsWritten(fishes: seq<Fish>, allRises: seq<seq<Rise>>, order: seq<nat>, q: nat,
                           maxTol: real, fTh: real, dpm: real, m: seq<seq<Option<real>>>)
    returns (m': seq<seq<Option<real>>>)
    requires Scorable(fishes, allRises, dpm)
    requires OrderOf(order, Firsts(fishes)) && q < |order|
    requires |m| == |fishes| && m[order[q]] == NoScores(|fishes|)
    ensures m' == m[order[q] := CostRowAsWritten(fishes, allRises, order[q], maxTol, fTh, dpm)]
  {
    var fish := order[q];
    assert 0 in order;
    ghost var p0 :| 0 <= p0 < |order| && order[p0] == 0;
    var row := NoScores(|fishes|);
    m' := m;
    for p := q downto 0
      invariant RowFrom(fishes, allRises, order, q, p, row, maxTol, fTh, dpm)
      invariant StoredFrom(fishes, allRises, order, q, p, p0, m, m', maxTol, fTh, dpm)
    {
      var comp := order[p];
      ghost var (row0, m0) := (row, m');
      row := row[comp := Entry(fishes, allRises, fish, comp, maxTol, fTh, dpm)];
      if comp == 0 {
        if AnyScore(row) {
          m' := m[fish := row];
        }
      }
      StoredStep(fishes, allRises, order, q, p, p0, row0, m, m0, m', maxTol, fTh, dpm);
    }
    RowAtZeroAsWritten(fishes, allRises, order, q, p0, maxTol, fTh, dpm);
  }

  /** The matrix during the scan as written: the row of the fish at position
      `q` is stored once the scan has passed fish 0 at position `p0`. */
  ghost predicate StoredFrom(fishes: seq<Fish>, allRises: seq<seq<Rise>>, order: seq<nat>, q: nat, p: nat, p0: nat,
                             m: seq<seq<Option<real>>>, m': seq<seq<Option<real>>>, maxTol: real, fTh: real, dpm: real)
    requires Scorable(fishes, allRises, dpm)
    requires OrderOf(order, Firsts(fishes)) && q < |order| && p0 < |order| && |m| == |fishes|
  {
    m' == if p <= p0 < q then m[order[q] := RowAtZero(fishes, allRises, order, q, p0, maxTol, fTh, dpm)] else m
  }

  /** One step of the scan as written keeps both invariants. */
  lemma StoredStep(fishes: seq<Fish>, allRises: seq<seq<Rise>>, order: seq<nat>, q: nat, p: nat, p0: nat,
                   row: seq<Option<real>>, m: seq<seq<Option<real>>>, m0: seq<seq<Option<real>>>,
                   m1: seq<seq<Option<real>>>, maxTol: real, fTh: real, dpm: real)
    requires Scorable(fishes, allRises, dpm)
    requires OrderOf(order, Firsts(fishes)) && p < q < |order| && p0 < |order| && order[p0] == 0
    requires |m| == |fishes| && m[order[q]] == NoScores(|fishes|)
    requires RowFrom(fishes, allRises, order, q, p + 1, row, maxTol, fTh, dpm)
    requires StoredFrom(fishes, allRises, order, q, p + 1, p0, m, m0, maxTol, fTh, dpm)
    requires var row' := row[order[p] := Entry(fishes, allRises, order[q], order[p], maxTol, fTh, dpm)];
             m1 == if order[p] == 0 && AnyScore(row') then m[order[q] := row'] else m0
    ensures var row' := row[order[p] := Entry(fishes, allRises, order[q], order[p], maxTol, fTh, dpm)];
            RowFrom(fishes, allRises, order, q, p, row', maxTol, fTh, dpm) &&
            StoredFrom(fishes, allRises, order, q, p, p0, m, m1, maxTol, fTh, dpm)
  {
    var row' := row[order[p] := Entry(fishes, allRises, order[q], order[p], maxTol, fTh, dpm)];
    RowFromStep(fishes, allRises, order, q, p, row, maxTol, fTh, dpm);
    if order[p] == 0 {
      RowFromZero(fishes, allRises, order, q, p, p0, row', maxTol, fTh, dpm);
      if !AnyScore(row') {
        KeepEmptyRow(m, order[q], row');
      }
    } else {
      assert p != p0;
    }
  }

  /** Storing a row without scores over one without scores changes nothing. */
  lemma KeepEmptyRow(m: seq<seq<Option<real>>>, i: nat, row: seq<Option<real>>)
    requires i < |m| && m[i] == NoScores(|row|)
    requires !AnyScore(row)
    ensures m[i := row] == m
  {
    assert row == NoScores(|row|);
  }

  /** A fish first seen at step 2, and one seen at steps 0 and 1, at the
      same frequency. */
  const LateFish: Fish := [None, None, Some(500.0)]
  const EarlyFish: Fish := [Some(500.0), Some(500.0), None]

  /** Fish 1 is seen first and fish 0 starts one step after fish 1 ends, at
      the same frequency. Only the row of fish 0 could hold a score, but the
      scan over the fishes before fish 0 never reaches fish 0 itself, so the
      matrix built as written has no score at all and the two are never
      combined. */
  lemma EarlyFishGetsNoRow()
    ensures Scorable([LateFish, EarlyFish], [[], []], 60.0)
    ensures Costs([LateFish, EarlyFish], [[], []], 10.0, 5.0, 60.0)[0][1] == Some(0.01)
    ensures CostsAsWritten([LateFish, EarlyFish], [[], []], 10.0, 5.0, 60.0) == [NoScores(2), NoScores(2)]
  {
    var fishes := [LateFish, EarlyFish];
    var allRises: seq<seq<Rise>> := [[], []];
    assert Count(LateFish) == 1 && Count(EarlyFish) == 2 && Overlap(LateFish, EarlyFish) == 0 by {
      assert LateFish[1..][1..][1..] == [] && EarlyFish[1..][1..][1..] == [];
    }
    assert FirstIdx(LateFish) == 2 && FirstIdx(EarlyFish) == 0 && LastIdx(EarlyFish) == 1;
    assert Scorable(fishes, allRises, 60.0);
    assert Entry(fishes, allRises, 0, 1, 10.0, 5.0, 60.0) == Some(0.01);
    assert Firsts(fishes) == [2, 0];
    assert CostRowAsWritten(fishes, allRises, 0, 10.0, 5.0, 60.0) == NoScores(2);
    assert CostRowAsWritten(fishes, allRises, 1, 10.0, 5.0, 60.0) == NoScores(2);
  }

  /** `combine_fishes` as written builds its matrix with the inner loop
      above. */
  method BuildCostsAsWritten(fishes: seq<Fish>, allRises: seq<seq<Rise>>, maxTol: real, fTh: real, dpm: real)
    returns (m: seq<seq<Option<real>>>)
    requires Scorable(fishes, allRises, dpm)
    ensures m == CostsAsWritten(fishes, allRises, maxTol, fTh, dpm)
  {
    var firsts := Firsts(fishes);
    var order := OccurOrder(firsts);
    ghost var target := CostsAsWritten(fishes, allRises, maxTol, fTh, dpm);
    m := seq(|fishes|, _ => NoScores(|fishes|));
    for q := |order| downto 0
      invariant FilledFrom(m, order, q, target)
    {
      FilledStep(m, order, firsts, q, target);
      m := ScoreRowAsWritten(fishes, allRises, order, q, maxTol, fTh, dpm, m);
    }
    FilledAll(m, order, firsts, target);
  }

  // ---------------------------------------------------------------------------
  // Choosing a pair

  /** An `n` by `n` score matrix. */
  predicate Square(m: seq<seq<Option<real>>>, n: nat)
  {
    |m| == n && forall i :: 0 <= i < n ==> |m[i]| == n
  }

  /** No entry of the matrix holds a score. */
  predicate NoScore(m: seq<seq<Option<real>>>)
  {
    forall i, j :: 0 <= i < |m| && 0 <= j < |m[i]| ==> m[i][j].None?
  }

  /** Entry `(a, b)` comes before entry `(i, j)` in row-major order. */
  predicate RowMajorBefore(a: nat, b: nat, i: nat, j: nat)
  {
    a < i || (a == i && b < j)
  }

  /** `(i, j)` holds the smallest score, and every entry before it in
      row-major order holds a larger one. */
  predicate IsBest(m: seq<seq<Option<real>>>, n: nat, i: nat, j: nat)
    requires Square(m, n)
  {
    i < n && j < n && m[i][j].Some? &&
    (forall a, b :: 0 <= a < n && 0 <= b < n && m[a][b].Some? ==> m[i][j].value <= m[a][b].value) &&
    (forall a, b :: 0 <= a < n && 0 <= b < n && m[a][b].Some? && RowMajorBefore(a, b, i, j) ==>
       m[i][j].value < m[a][b].value)
  }

  /** The pair to combine next: the first occurrence, in row-major order, of
      the smallest score; none when the matrix holds no score. */
  method Best(m: seq<seq<Option<real>>>, n: nat) returns (best: Option<(nat, nat)>)
    requires Square(m, n)
    ensures best.None? <==> NoScore(m)
    ensures best.Some? ==> IsBest(m, n, best.value.0, best.value.1)
  {
    best := None;
    for i := 0 to n
      invariant best.None? ==> forall a, b :: 0 <= a < i && 0 <= b < n ==> m[a][b].None?
      invariant best.Some? ==> best.value.0 < i && best.value.1 < n && m[best.value.0][best.value.1].Some?
      invariant best.Some? ==> forall a, b :: 0 <= a < i && 0 <= b < n && m[a][b].Some? ==>
        m[best.value.0][best.value.1].value <= m[a][b].value
      invariant best.Some? ==> forall a, b ::
        (0 <= a < n && 0 <= b < n && m[a][b].Some? && RowMajorBefore(a, b, best.value.0, best.value.1)) ==>
        m[best.value.0][best.value.1].value < m[a][b].value
    {
      for j := 0 to n
        invariant best.None? ==> forall a, b :: 0 <= a < n && 0 <= b < n && RowMajorBefore(a, b, i, j) ==> m[a][b].None?
        invariant best.Some? ==> RowMajorBefore(best.value.0, best.value.1, i, j) && best.value.0 < n && best.value.1 < n
        invariant best.Some? ==> m[best.value.0][best.value.1].Some?
        invariant best.Some? ==> forall a, b :: 0 <= a < n && 0 <= b < n && m[a][b].Some? && RowMajorBefore(a, b, i, j) ==>
          m[best.value.0][best.value.1].value <= m[a][b].value
        invariant best.Some? ==> forall a, b ::
          (0 <= a < n && 0 <= b < n && m[a][b].Some? && RowMajorBefore(a, b, best.value.0, best.value.1)) ==>
          m[best.value.0][best.value.1].value < m[a][b].value
      {
        if m[i][j].Some? && (best.None? || m[i][j].value < m[best.value.0][best.value.1].value) {
          best := Some((i, j));
        }
      }
    }
  }

  /** Number of entries of a row that hold a score. */
  function Somes(row: seq<Option<real>>): nat
  {
    if row == [] then 0 else (if row[0].Some? then 1 else 0) + Somes(row[1..])
  }

  /** Number of entries of the matrix that hold a score. */
  function MatCount(m: seq<seq<Option<real>>>): nat
  {
    if m == [] then 0 else Somes(m[0]) + MatCount(m[1..])
  }

  lemma {:induction false} SomesUpdate(row: seq<Option<real>>, c: nat, x: Option<real>)
    requires c < |row|
    ensures Somes(row[c := x]) + (if row[c].Some? then 1 else 0) == Somes(row) + (if x.Some? then 1 else 0)
  {
    if c > 0 {
      assert row[c := x][1..] == row[1..][c - 1 := x];
      SomesUpdate(row[1..], c - 1, x);
    }
  }

  lemma {:induction false} MatCountUpdate(m: seq<seq<Option<real>>>, i: nat, r: seq<Option<real>>)
    requires i < |m|
    ensures MatCount(m[i := r]) + Somes(m[i]) == MatCount(m) + Somes(r)
  {
    if i > 0 {
      assert m[i := r][1..] == m[1..][i - 1 := r];
      MatCountUpdate(m[1..], i - 1, r);
    }
  }

  lemma {:induction false} NoScoresCount(n: nat)
    ensures Somes(NoScores(n)) == 0
  {
    if n > 0 {
      assert NoScores(n)[1..] == NoScores(n - 1);
      NoScoresCount(n - 1);
    }
  }

  // ---------------------------------------------------------------------------
  // Combining a pair

  /** The smaller of two optional scores; a missing score never wins. */
  function MinScore(a: Option<real>, b: Option<real>): (r: Option<real>)
    ensures r.Some? <==> a.Some? || b.Some?
    ensures r == a || r == b
    ensures r.Some? && a.Some? ==> r.value <= a.value
    ensures r.Some? && b.Some? ==> r.value <= b.value
  {
    if a.None? then b else if b.None? then a else if a.value < b.value then a else b
  }

  /** A row after `fish` was combined into `comp`: its score for `fish`
      moves to `comp` when it is the smaller one. */
  function Redirected(row: seq<Option<real>>, fish: nat, comp: nat): seq<Option<real>>
    requires fish < |row| && comp < |row|
  {
    row[fish := None][comp := MinScore(row[fish], row[comp])]
  }

  /** Redirecting a row never adds a score. */
  lemma RedirectedCount(row: seq<Option<real>>, fish: nat, comp: nat)
    requires fish < |row| && comp < |row| && fish != comp
    ensures Somes(Redirected(row, fish, comp)) <= Somes(row)
  {
    SomesUpdate(row, fish, None);
    SomesUpdate(row[fish := None], comp, MinScore(row[fish], row[comp]));
  }

  /** The loop over all rows that points the scores for `fish` to `comp`. */
  method Redirect(m: seq<seq<Option<real>>>, n: nat, fish: nat, comp: nat) returns (m': seq<seq<Option<real>>>)
    requires Square(m, n) && fish < n && comp < n && fish != comp
    ensures Square(m', n)
    ensures forall i :: 0 <= i < n ==> m'[i] == Redirected(m[i], fish, comp)
    ensures MatCount(m') <= MatCount(m)
  {
    m' := m;
    for i := 0 to n
      invariant Square(m', n)
      invariant forall r :: 0 <= r < i ==> m'[r] == Redirected(m[r], fish, comp)
      invariant forall r :: i <= r < n ==> m'[r] == m[r]
      invariant MatCount(m') <= MatCount(m)
    {
      var row := m'[i];
      if row[fish].Some? {
        if row[comp].None? {
          row := row[comp := row[fish]][fish := None];
        } else if row[fish].value < row[comp].value {
          row := row[comp := row[fish]][fish := None];
        } else {
          row := row[fish := None];
        }
      }
      assert row == Redirected(m[i], fish, comp);
      RedirectedCount(m[i], fish, comp);
      MatCountUpdate(m', i, row);
      m' := m'[i := row];
    }
  }

  /** `f` laid over `g`: the samples of `f`, and those of `g` where `f` has
      none. */
  function Overlay(g: Fish, f: Fish): (h: Fish)
    requires |g| == |f|
    ensures |h| == |g|
  {
    seq(|g|, t requires 0 <= t < |g| => if f[t].Some? then f[t] else g[t])
  }

  /** The fishes after `fish` was combined into `comp`. */
  function Merged(fs: seq<Fish>, fish: nat, comp: nat): (fs': seq<Fish>)
    requires fish < |fs| && comp < |fs| && |fs[fish]| == |fs[comp]|
    ensures |fs'| == |fs|
  {
    fs[comp := Overlay(fs[comp], fs[fish])][fish := Absent(|fs[fish]|)]
  }

  /** The rise lists after `fish` was combined into `comp`. */
  function MergedRises(rs: seq<seq<Rise>>, fish: nat, comp: nat): (rs': seq<seq<Rise>>)
    requires fish < |rs| && comp < |rs|
    ensures |rs'| == |rs|
  {
    rs[comp := rs[comp] + rs[fish]][fish := []]
  }

  /** The score matrix after `fish` was combined into `comp`: its row is
      cleared and every other row is redirected. */
  function Cleared(m: seq<seq<Option<real>>>, fish: nat, comp: nat): (m': seq<seq<Option<real>>>)
    requires Square(m, |m|) && fish < |m| && comp < |m|
    ensures Square(m', |m|)
  {
    seq(|m|, i requires 0 <= i < |m| => if i == fish then NoScores(|m|) else Redirected(m[i], fish, comp))
  }

  /** Combines `fish` into `comp`: its samples overwrite those of `comp`, its
      rises are appended to those of `comp`, the scores pointing to it are
      redirected to `comp` and its own row is cleared. */
  method MergePair(fs: seq<Fish>, rs: seq<seq<Rise>>, m: seq<seq<Option<real>>>, fish: nat, comp: nat)
    returns (fs': seq<Fish>, rs': seq<seq<Rise>>, m': seq<seq<Option<real>>>)
    requires |fs| == |rs| && Square(m, |fs|) && fish < |fs| && comp < |fs| && fish != comp
    requires |fs[fish]| == |fs[comp]| && m[fish][comp].Some?
    ensures fs' == Merged(fs, fish, comp)
    ensures rs' == MergedRises(rs, fish, comp)
    ensures m' == Cleared(m, fish, comp)
    ensures MatCount(m') < MatCount(m)
  {
    fs' := fs[comp := Overlay(fs[comp], fs[fish])];
    fs' := fs'[fish := Absent(|fs[fish]|)];
    var m1 := Redirect(m, |fs|, fish, comp);
    SomesUpdate(m1[fish], comp, None);
    MatCountUpdate(m1, fish, NoScores(|fs|));
    NoScoresCount(|fs|);
    m' := m1[fish := NoScores(|fs|)];
    assert forall i :: 0 <= i < |fs| ==> m'[i] == Cleared(m, fish, comp)[i];
    rs' := rs[comp := rs[comp] + rs[fish]];
    rs' := rs'[fish := []];
  }

  // ---------------------------------------------------------------------------
  // What the combining keeps

  /** Some fish holds a sample at time step `t`. */
  ghost predicate Covered(fs: seq<Fish>, t: nat)
  {
    exists k :: 0 <= k < |fs| && t < |fs[k]| && fs[k][t].Some?
  }

  /** Some fish of `inp` holds frequency `v` at time step `t`. */
  ghost predicate Sampled(inp: seq<Fish>, t: nat, v: real)
  {
    exists j :: 0 <= j < |inp| && t < |inp[j]| && inp[j][t] == Some(v)
  }

  /** Every sample of `fs` is a sample of `inp` at the same time step. */
  ghost predicate FromInput(fs: seq<Fish>, inp: seq<Fish>)
  {
    forall k, t :: 0 <= k < |fs| && 0 <= t < |fs[k]| && fs[k][t].Some? ==> Sampled(inp, t, fs[k][t].value)
  }

  /** All rises of all fishes, as a multiset. */
  function Bag(rs: seq<seq<Rise>>): multiset<Rise>
  {
    if rs == [] then multiset{} else multiset(rs[0]) + Bag(rs[1..])
  }

  lemma {:induction false} BagUpdate(rs: seq<seq<Rise>>, i: nat, x: seq<Rise>)
    requires i < |rs|
    ensures Bag(rs[i := x]) + multiset(rs[i]) == Bag(rs) + multiset(x)
  {
    var rs' := rs[i := x];
    if i > 0 {
      assert rs'[1..] == rs[1..][i - 1 := x];
      BagUpdate(rs[1..], i - 1, x);
      assert rs[1..][i - 1] == rs[i];
      calc {
        Bag(rs') + multiset(rs[i]);
        multiset(rs[0]) + Bag(rs[1..][i - 1 := x]) + multiset(rs[i]);
        multiset(rs[0]) + (Bag(rs[1..][i - 1 := x]) + multiset(rs[i]));
        multiset(rs[0]) + (Bag(rs[1..]) + multiset(x));
        multiset(rs[0]) + Bag(rs[1..]) + multiset(x);
      }
    } else {
      assert rs'[1..] == rs[1..];
      assert Bag(rs') == multiset(x) + Bag(rs[1..]);
    }
  }

  /** A fish without samples has no rises. */
  predicate EmptyHaveNoRises(fs: seq<Fish>, rs: seq<seq<Rise>>)
    requires |rs| == |fs|
  {
    forall k :: 0 <= k < |fs| && AllAbsent(fs[k]) ==> rs[k] == []
  }

  /** Scores only point from a fish to a fish that occurs before it. */
  predicate PointsBack(m: seq<seq<Option<real>>>, firsts: seq<nat>)
    requires Square(m, |firsts|)
  {
    forall i, j :: 0 <= i < |firsts| && 0 <= j < |firsts| && m[i][j].Some? ==> Earlier(firsts, j, i)
  }

  /** Combining keeps the time steps at which some fish is present. */
  lemma MergeCovers(fs: seq<Fish>, fish: nat, comp: nat, t: nat)
    requires fish < |fs| && comp < |fs| && fish != comp && |fs[fish]| == |fs[comp]|
    ensures Covered(Merged(fs, fish, comp), t) <==> Covered(fs, t)
  {
    var fs': seq<Fish> := Merged(fs, fish, comp);
    if Covered(fs, t) {
      var k :| 0 <= k < |fs| && t < |fs[k]| && fs[k][t].Some?;
      if k == fish || k == comp {
        assert fs'[comp][t].Some?;
      } else {
        assert fs'[k] == fs[k];
      }
    }
    if Covered(fs', t) {
      var k :| 0 <= k < |fs'| && t < |fs'[k]| && fs'[k][t].Some?;
      if k == comp {
        assert fs[fish][t].Some? || fs[comp][t].Some?;
      } else {
        assert fs'[k] == fs[k];
      }
    }
  }

  /** Combining only moves samples; it invents none. */
  lemma MergeSamples(fs: seq<Fish>, inp: seq<Fish>, fish: nat, comp: nat)
    requires fish < |fs| && comp < |fs| && fish != comp && |fs[fish]| == |fs[comp]|
    requires FromInput(fs, inp)
    ensures FromInput(Merged(fs, fish, comp), inp)
  {
    var fs': seq<Fish> := Merged(fs, fish, comp);
    forall k, t | 0 <= k < |fs'| && 0 <= t < |fs'[k]| && fs'[k][t].Some?
      ensures Sampled(inp, t, fs'[k][t].value)
    {
      if k == comp {
        if fs[fish][t].Some? {
          assert fs'[k][t] == fs[fish][t];
        } else {
          assert fs'[k][t] == fs[comp][t];
        }
      } else {
        assert fs'[k] == fs[k];
      }
    }
  }

  /** Combining keeps every rise. */
  lemma MergeKeepsRises(rs: seq<seq<Rise>>, fish: nat, comp: nat)
    requires fish < |rs| && comp < |rs| && fish != comp
    ensures Bag(MergedRises(rs, fish, comp)) == Bag(rs)
  {
    var rs1 := rs[comp := rs[comp] + rs[fish]];
    var rs2 := rs1[fish := []];
    BagUpdate(rs, comp, rs[comp] + rs[fish]);
    BagUpdate(rs1, fish, []);
    assert rs1[fish] == rs[fish];
    assert multiset(rs[comp] + rs[fish]) == multiset(rs[comp]) + multiset(rs[fish]);
    var none: seq<Rise> := [];
    assert multiset(none) == multiset{};
    MoveBetween(Bag(rs), Bag(rs1), Bag(rs2), multiset(rs[comp]), multiset(rs[fish]));
  }

  /** Moving `b` from one place to another leaves the total unchanged. */
  lemma MoveBetween(total: multiset<Rise>, mid: multiset<Rise>, last: multiset<Rise>, a: multiset<Rise>, b: multiset<Rise>)
    requires mid + a == total + (a + b) && last + b == mid + multiset{}
    ensures last == total
  {
    forall r ensures last[r] == total[r] {
      assert (mid + a)[r] == (total + (a + b))[r];
      assert (last + b)[r] == (mid + multiset{})[r];
    }
  }

  /** A fish left without samples by combining has no rises. */
  lemma MergeEmptyNoRises(fs: seq<Fish>, rs: seq<seq<Rise>>, fish: nat, comp: nat)
    requires |rs| == |fs| && fish < |fs| && comp < |fs| && fish != comp && |fs[fish]| == |fs[comp]|
    requires EmptyHaveNoRises(fs, rs)
    ensures EmptyHaveNoRises(Merged(fs, fish, comp), MergedRises(rs, fish, comp))
  {
    var fs': seq<Fish> := Merged(fs, fish, comp);
    forall k | 0 <= k < |fs'| && AllAbsent(fs'[k])
      ensures MergedRises(rs, fish, comp)[k] == []
    {
      if k == comp {
        OverlayAbsent(fs[comp], fs[fish]);
      } else if k != fish {
        assert fs'[k] == fs[k];
      }
    }
  }

  /** An overlay has no sample only when neither fish has one. */
  lemma OverlayAbsent(g: Fish, f: Fish)
    requires |g| == |f| && AllAbsent(Overlay(g, f))
    ensures AllAbsent(g) && AllAbsent(f)
  {
    forall t | 0 <= t < |g| ensures g[t] == None && f[t] == None {
      assert Overlay(g, f)[t] == None;
    }
  }

  /** Scores keep pointing back after `fish` is combined into an earlier
      fish `comp`. */
  lemma MergePointsBack(m: seq<seq<Option<real>>>, m': seq<seq<Option<real>>>, firsts: seq<nat>, fish: nat, comp: nat)
    requires Square(m, |firsts|) && Square(m', |firsts|) && fish < |firsts| && comp < |firsts| && fish != comp
    requires PointsBack(m, firsts) && m[fish][comp].Some?
    requires forall i :: 0 <= i < |firsts| ==>
      m'[i] == if i == fish then NoScores(|firsts|) else Redirected(m[i], fish, comp)
    ensures PointsBack(m', firsts)
  {
    forall i, j | 0 <= i < |firsts| && 0 <= j < |firsts| && m'[i][j].Some?
      ensures Earlier(firsts, j, i)
    {
      assert i != fish;
      if j == comp && m'[i][j] != m[i][j] {
        assert m'[i][j] == m[i][fish];
      } else {
        assert j != fish;
      }
    }
  }

  /** Which fishes hold a sample (`len(fishes[fish][~np.isnan(fishes[fish])]) != 0`). */
  function LiveMask(fs: seq<Fish>): (keep: seq<bool>)
    ensures |keep| == |fs| && forall k :: 0 <= k < |fs| ==> (keep[k] <==> Count(fs[k]) > 0)
  {
    seq(|fs|, k requires 0 <= k < |fs| => Count(fs[k]) > 0)
  }

  /** The final clean-up: fishes without samples, and their rise lists, are
      deleted. */
  method DropEmpty(fs: seq<Fish>, rs: seq<seq<Rise>>) returns (fs': seq<Fish>, rs': seq<seq<Rise>>)
    requires |rs| == |fs|
    ensures fs' == Select(LiveMask(fs), fs) && rs' == Select(LiveMask(fs), rs)
  {
    ghost var mask := LiveMask(fs);
    var deleteIdx: seq<nat> := [];
    rs' := rs;
    var fish: nat := |fs|;
    assert rs == rs[..fish] + Select(mask[fish..], rs[fish..]);
    while fish > 0
      invariant fish <= |fs|
      invariant forall k :: k in deleteIdx <==> fish <= k < |fs| && !mask[k]
      invariant rs' == rs[..fish] + Select(mask[fish..], rs[fish..])
    {
      PopStep(mask, rs, rs', fish);
      fish := fish - 1;
      if Count(fs[fish]) == 0 {
        assert forall k :: k in deleteIdx + [fish] <==> k in deleteIdx || k == fish;
        deleteIdx := deleteIdx + [fish];
        rs' := rs'[..fish] + rs'[fish + 1..];
      }
    }
    var keep := seq(|fs|, k requires 0 <= k < |fs| => k !in deleteIdx);
    assert keep == mask;
    assert mask[0..] == mask && rs[0..] == rs && rs[..0] == [];
    fs' := Select(keep, fs);
  }

  /** Deleting the empty fishes keeps the covered time steps. */
  lemma DropCovers(fs: seq<Fish>, t: nat)
    ensures Covered(Select(LiveMask(fs), fs), t) <==> Covered(fs, t)
  {
    var out := Select(LiveMask(fs), fs);
    if Covered(out, t) {
      var k :| 0 <= k < |out| && t < |out[k]| && out[k][t].Some?;
      assert out[k] in out;
      SelectMembers(LiveMask(fs), fs, out[k]);
    }
    if Covered(fs, t) {
      var j :| 0 <= j < |fs| && t < |fs[j]| && fs[j][t].Some?;
      CountZero(fs[j]);
      SelectMembers(LiveMask(fs), fs, fs[j]);
      assert fs[j] in out;
      var k :| 0 <= k < |out| && out[k] == fs[j];
    }
  }

  /** What is left after deleting the empty fishes holds a sample each and
      comes from the fishes before. */
  lemma DropKeeps(fs: seq<Fish>, inp: seq<Fish>, len: nat)
    requires FromInput(fs, inp) && forall k :: 0 <= k < |fs| ==> |fs[k]| == len
    ensures FromInput(Select(LiveMask(fs), fs), inp)
    ensures forall k :: 0 <= k < |Select(LiveMask(fs), fs)| ==>
      Count(Select(LiveMask(fs), fs)[k]) > 0 && |Select(LiveMask(fs), fs)[k]| == len
  {
    var out := Select(LiveMask(fs), fs);
    forall k | 0 <= k < |out|
      ensures Count(out[k]) > 0 && |out[k]| == len
      ensures forall t :: 0 <= t < |out[k]| && out[k][t].Some? ==> Sampled(inp, t, out[k][t].value)
    {
      assert out[k] in out;
      SelectMembers(LiveMask(fs), fs, out[k]);
    }
  }

  /** Deleting fishes whose rise lists are empty keeps every rise. */
  lemma {:induction false} DropRises(keep: seq<bool>, rs: seq<seq<Rise>>)
    requires |keep| == |rs| && forall k :: 0 <= k < |rs| && !keep[k] ==> rs[k] == []
    ensures Bag(Select(keep, rs)) == Bag(rs)
  {
    if rs != [] {
      DropRises(keep[1..], rs[1..]);
      var rest := Select(keep[1..], rs[1..]);
      if keep[0] {
        assert Select(keep, rs) == [rs[0]] + rest;
        assert ([rs[0]] + rest)[1..] == rest;
      } else {
        assert Select(keep, rs) == rest;
        assert multiset(rs[0]) == multiset{};
      }
    }
  }

  // ---------------------------------------------------------------------------
  // combine_fishes

  /** Every input fish holds a sample and comes from itself. */
  lemma InputKeeps(fishes: seq<Fish>, allRises: seq<seq<Rise>>)
    requires |allRises| == |fishes| && forall k :: 0 <= k < |fishes| ==> Count(fishes[k]) > 0
    ensures FromInput(fishes, fishes) && EmptyHaveNoRises(fishes, allRises)
  {
    forall k, t | 0 <= k < |fishes| && 0 <= t < |fishes[k]| && fishes[k][t].Some?
      ensures Sampled(fishes, t, fishes[k][t].value)
    {
      assert fishes[k][t] == Some(fishes[k][t].value);
    }
    forall k | 0 <= k < |fishes| ensures !AllAbsent(fishes[k]) {
      CountZero(fishes[k]);
    }
  }

  /** What every round of the combining keeps, for the input `fishes` and
      `allRises`: the shapes, scores that point back, the covered time
      steps, the origin of every sample, every rise, and no rises on a fish
      without samples. */
  ghost predicate Keeps(fishes: seq<Fish>, allRises: seq<seq<Rise>>, firsts: seq<nat>,
                        fs: seq<Fish>, rs: seq<seq<Rise>>, m: seq<seq<Option<real>>>)
  {
    |fs| == |fishes| && |rs| == |fishes| && |firsts| == |fishes| && Square(m, |fishes|) &&
    (forall k :: 0 <= k < |fs| ==> |fs[k]| == |fishes[0]|) &&
    PointsBack(m, firsts) &&
    (forall t :: Covered(fs, t) <==> Covered(fishes, t)) &&
    FromInput(fs, fishes) &&
    Bag(rs) == Bag(allRises) &&
    EmptyHaveNoRises(fs, rs)
  }

  /** One round of the combining loop on the best pair `(fish, comp)`: the
      pair is dropped when the two fishes share 20 or more time steps, and
      combined otherwise. Every round removes at least one score. */
  method CombineRound(ghost fishes: seq<Fish>, ghost allRises: seq<seq<Rise>>, ghost firsts: seq<nat>,
                      fs: seq<Fish>, rs: seq<seq<Rise>>, m: seq<seq<Option<real>>>, fish: nat, comp: nat)
    returns (fs': seq<Fish>, rs': seq<seq<Rise>>, m': seq<seq<Option<real>>>)
    requires Keeps(fishes, allRises, firsts, fs, rs, m) && IsBest(m, |fishes|, fish, comp)
    ensures fish != comp && Shaped(Stage(fs, rs, m))
    ensures Stage(fs', rs', m') == Round(Stage(fs, rs, m), fish, comp)
    ensures Keeps(fishes, allRises, firsts, fs', rs', m')
    ensures MatCount(m') < MatCount(m)
  {
    assert Earlier(firsts, comp, fish);
    if Overlap(fs[fish], fs[comp]) >= MaxOverlap {
      SomesUpdate(m[fish], comp, None);
      MatCountUpdate(m, fish, m[fish][comp := None]);
      fs', rs', m' := fs, rs, m[fish := m[fish][comp := None]];
      assert PointsBack(m', firsts);
    } else {
      forall t ensures Covered(Merged(fs, fish, comp), t) <==> Covered(fs, t) {
        MergeCovers(fs, fish, comp, t);
      }
      MergeSamples(fs, fishes, fish, comp);
      MergeKeepsRises(rs, fish, comp);
      MergeEmptyNoRises(fs, rs, fish, comp);
      fs', rs', m' := MergePair(fs, rs, m, fish, comp);
      MergePointsBack(m, m', firsts, fish, comp);
    }
  }

  // ---------------------------------------------------------------------------
  // The run of the combining loop

  /** The state of the combining loop: the fishes, their rise lists and the
      score matrix. */
  datatype Stage = Stage(fs: seq<Fish>, rs: seq<seq<Rise>>, m: seq<seq<Option<real>>>)

  /** A rise list per fish, a square score matrix, fishes of one length. */
  predicate Shaped(st: Stage)
  {
    |st.rs| == |st.fs| && Square(st.m, |st.fs|) &&
    forall k :: 0 <= k < |st.fs| ==> |st.fs[k]| == |st.fs[0]|
  }

  /** One round of the loop on the pair `(fish, comp)`: the score is dropped
      when the two fishes share 20 or more time steps, otherwise `fish` is
      combined into `comp`. */
  function Round(st: Stage, fish: nat, comp: nat): (st': Stage)
    requires Shaped(st) && fish < |st.fs| && comp < |st.fs| && fish != comp
    ensures Shaped(st') && |st'.fs| == |st.fs|
  {
    if Overlap(st.fs[fish], st.fs[comp]) >= MaxOverlap then
      Stage(st.fs, st.rs, st.m[fish := st.m[fish][comp := None]])
    else
      var fs' := Merged(st.fs, fish, comp);
      assert forall k :: 0 <= k < |fs'| ==> |fs'[k]| == |st.fs[0]|;
      Stage(fs', MergedRises(st.rs, fish, comp), Cleared(st.m, fish, comp))
  }

  /** Round `k` of a run: it works on the best pair of the matrix. */
  ghost predicate Greedy(trace: seq<Stage>, k: nat)
    requires k + 1 < |trace|
  {
    Shaped(trace[k]) &&
    exists fish, comp :: IsBest(trace[k].m, |trace[k].fs|, fish, comp) && fish != comp &&
      trace[k + 1] == Round(trace[k], fish, comp)
  }

  /** A whole run of the loop: every round works on the best pair, and the
      last matrix holds no score. */
  ghost predicate GreedyRun(trace: seq<Stage>)
  {
    |trace| > 0 && Shaped(trace[|trace| - 1]) && NoScore(trace[|trace| - 1].m) &&
    forall k :: 0 <= k < |trace| - 1 ==> Greedy(trace, k)
  }

  /** `fishes'` and `allRises'` are what `combine_fishes` returns when the
      loop starts from the score matrix `m0`: the fishes of the last stage of
      the run that still hold a sample, with their rise lists. */
  ghost predicate CombinedFrom(fishes: seq<Fish>, allRises: seq<seq<Rise>>, m0: seq<seq<Option<real>>>,
                               fishes': seq<Fish>, allRises': seq<seq<Rise>>)
  {
    exists trace: seq<Stage> :: GreedyRun(trace) && trace[0] == Stage(fishes, allRises, m0) &&
      fishes' == Select(LiveMask(trace[|trace| - 1].fs), trace[|trace| - 1].fs) &&
      allRises' == Select(LiveMask(trace[|trace| - 1].fs), trace[|trace| - 1].rs)
  }

  /** The best pair of a matrix is unique. */
  lemma BestUnique(m: seq<seq<Option<real>>>, n: nat, i1: nat, j1: nat, i2: nat, j2: nat)
    requires Square(m, n) && IsBest(m, n, i1, j1) && IsBest(m, n, i2, j2)
    ensures i1 == i2 && j1 == j2
  {
    assert m[i1][j1].value == m[i2][j2].value;
    assert !RowMajorBefore(i1, j1, i2, j2);
    assert !RowMajorBefore(i2, j2, i1, j1);
  }

  /** Every round but the last starts from a matrix that holds a score. */
  lemma GreedyScored(trace: seq<Stage>)
    requires GreedyRun(trace)
    ensures forall k :: 0 <= k < |trace| - 1 ==> !NoScore(trace[k].m)
  {
    forall k | 0 <= k < |trace| - 1 ensures !NoScore(trace[k].m) {
      assert Greedy(trace, k);
      var fish: nat, comp: nat :| IsBest(trace[k].m, |trace[k].fs|, fish, comp) && fish != comp &&
        trace[k + 1] == Round(trace[k], fish, comp);
    }
  }

  /** Two runs at the same stage make the same next round. */
  lemma RoundsAgree(t1: seq<Stage>, t2: seq<Stage>, k: nat)
    requires GreedyRun(t1) && GreedyRun(t2)
    requires k < |t1| - 1 && k < |t2| && t1[k] == t2[k]
    ensures k < |t2| - 1 && t1[k + 1] == t2[k + 1]
  {
    assert Greedy(t1, k);
    var i1: nat, j1: nat :| IsBest(t1[k].m, |t1[k].fs|, i1, j1) && i1 != j1 && t1[k + 1] == Round(t1[k], i1, j1);
    assert k < |t2| - 1 by {
      assert t2[k].m[i1][j1].Some?;
    }
    assert Greedy(t2, k);
    var i2: nat, j2: nat :| IsBest(t2[k].m, |t2[k].fs|, i2, j2) && i2 != j2 && t2[k + 1] == Round(t2[k], i2, j2);
    BestUnique(t1[k].m, |t1[k].fs|, i1, j1, i2, j2);
  }

  /** Two runs that meet at stage `k` agree from there on. */
  lemma {:induction false} RunsMatch(t1: seq<Stage>, t2: seq<Stage>, k: nat)
    requires GreedyRun(t1) && GreedyRun(t2)
    requires k < |t1| && k < |t2| && t1[k] == t2[k]
    ensures |t1| == |t2| && forall j :: k <= j < |t1| ==> t1[j] == t2[j]
    decreases |t1| - k
  {
    if k < |t1| - 1 {
      RoundsAgree(t1, t2, k);
      RunsMatch(t1, t2, k + 1);
    } else {
      GreedyScored(t2);
      assert NoScore(t2[k].m);
    }
  }

  /** What `combine_fishes` returns is determined by its input and the
      score matrix it starts from. */
  lemma CombinedUnique(fishes: seq<Fish>, allRises: seq<seq<Rise>>, m0: seq<seq<Option<real>>>,
                       fishes1: seq<Fish>, allRises1: seq<seq<Rise>>, fishes2: seq<Fish>, allRises2: seq<seq<Rise>>)
    requires CombinedFrom(fishes, allRises, m0, fishes1, allRises1)
    requires CombinedFrom(fishes, allRises, m0, fishes2, allRises2)
    ensures fishes1 == fishes2 && allRises1 == allRises2
  {
    var t1: seq<Stage> :| GreedyRun(t1) && t1[0] == Stage(fishes, allRises, m0) &&
      fishes1 == Select(LiveMask(t1[|t1| - 1].fs), t1[|t1| - 1].fs) &&
      allRises1 == Select(LiveMask(t1[|t1| - 1].fs), t1[|t1| - 1].rs);
    var t2: seq<Stage> :| GreedyRun(t2) && t2[0] == Stage(fishes, allRises, m0) &&
      fishes2 == Select(LiveMask(t2[|t2| - 1].fs), t2[|t2| - 1].fs) &&
      allRises2 == Select(LiveMask(t2[|t2| - 1].fs), t2[|t2| - 1].rs);
    RunsMatch(t1, t2, 0);
  }

  /** One more round on the best pair extends a run. */
  lemma TraceExtend(trace: seq<Stage>, fish: nat, comp: nat, next: Stage)
    requires |trace| > 0 && forall k :: 0 <= k < |trace| - 1 ==> Greedy(trace, k)
    requires Shaped(trace[|trace| - 1]) && fish != comp
    requires IsBest(trace[|trace| - 1].m, |trace[|trace| - 1].fs|, fish, comp)
    requires next == Round(trace[|trace| - 1], fish, comp)
    ensures forall k :: 0 <= k < |trace| ==> Greedy(trace + [next], k)
  {
    var t' := trace + [next];
    forall k | 0 <= k < |trace| ensures Greedy(t', k) {
      if k < |trace| - 1 {
        assert Greedy(trace, k);
        assert t'[k] == trace[k] && t'[k + 1] == trace[k + 1];
      } else {
        assert t'[k] == trace[k] && t'[k + 1] == next;
      }
    }
  }

  /** `combine_fishes`, with the score matrix built as evidently intended:
      the best scored pair is combined, the later fish into the earlier one,
      until no score is left; then the fishes left without samples are
      deleted. No time step loses its last sample, no sample is invented,
      and no rise is lost. */
  method CombineFishes(fishes: seq<Fish>, allRises: seq<seq<Rise>>, maxTol: real, fTh: real, dpm: real)
    returns (fishes': seq<Fish>, allRises': seq<seq<Rise>>)
    requires Scorable(fishes, allRises, dpm)
    ensures CombinedFrom(fishes, allRises, Costs(fishes, allRises, maxTol, fTh, dpm), fishes', allRises')
    ensures |fishes'| == |allRises'| <= |fishes|
    ensures forall k :: 0 <= k < |fishes'| ==> Count(fishes'[k]) > 0 && |fishes'[k]| == |fishes[0]|
    ensures forall t :: Covered(fishes', t) <==> Covered(fishes, t)
    ensures FromInput(fishes', fishes)
    ensures Bag(allRises') == Bag(allRises)
  {
    var n := |fishes|;
    ghost var firsts := Firsts(fishes);
    var m := BuildCosts(fishes, allRises, maxTol, fTh, dpm);
    var fs, rs := fishes, allRises;
    InputKeeps(fishes, allRises);
    assert Keeps(fishes, allRises, firsts, fs, rs, m);
    ghost var trace := [Stage(fs, rs, m)];
    var best := Best(m, n);
    while best.Some?
      invariant Keeps(fishes, allRises, firsts, fs, rs, m)
      invariant best.Some? ==> IsBest(m, n, best.value.0, best.value.1)
      invariant best.None? ==> NoScore(m)
      invariant |trace| > 0 && trace[0] == Stage(fishes, allRises, Costs(fishes, allRises, maxTol, fTh, dpm))
      invariant trace[|trace| - 1] == Stage(fs, rs, m)
      invariant forall k :: 0 <= k < |trace| - 1 ==> Greedy(trace, k)
      decreases MatCount(m)
    {
      var fish, comp := best.value.0, best.value.1;
      ghost var last := Stage(fs, rs, m);
      fs, rs, m := CombineRound(fishes, allRises, firsts, fs, rs, m, fish, comp);
      TraceExtend(trace, fish, comp, Stage(fs, rs, m));
      trace := trace + [Stage(fs, rs, m)];
      best := Best(m, n);
    }
    assert GreedyRun(trace);
    fishes', allRises' := DropEmpty(fs, rs);
    SelectLength(LiveMask(fs), fs);
    SelectLength(LiveMask(fs), rs);
    DropOutcome(fishes, allRises, fs, rs);
  }

  /** The deletion at the end keeps what the rounds kept. */
  lemma DropOutcome(fishes: seq<Fish>, allRises: seq<seq<Rise>>, fs: seq<Fish>, rs: seq<seq<Rise>>)
    requires |fs| == |fishes| && |rs| == |fishes|
    requires forall k :: 0 <= k < |fs| ==> |fs[k]| == |fishes[0]|
    requires forall t :: Covered(fs, t) <==> Covered(fishes, t)
    requires FromInput(fs, fishes) && Bag(rs) == Bag(allRises) && EmptyHaveNoRises(fs, rs)
    ensures forall k :: 0 <= k < |Select(LiveMask(fs), fs)| ==>
      Count(Select(LiveMask(fs), fs)[k]) > 0 && |Select(LiveMask(fs), fs)[k]| == |fishes[0]|
    ensures forall t :: Covered(Select(LiveMask(fs), fs), t) <==> Covered(fishes, t)
    ensures FromInput(Select(LiveMask(fs), fs), fishes)
    ensures Bag(Select(LiveMask(fs), rs)) == Bag(allRises)
  {
    forall t ensures Covered(Select(LiveMask(fs), fs), t) <==> Covered(fs, t) {
      DropCovers(fs, t);
    }
    if |fs| > 0 {
      DropKeeps(fs, fishes, |fishes[0]|);
    }
    forall k | 0 <= k < |fs| && !LiveMask(fs)[k] ensures rs[k] == [] {
      CountZero(fs[k]);
    }
    DropRises(LiveMask(fs), rs);
  }
}
