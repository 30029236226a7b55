/** `cut_at_rises`: splits every fish at the starts of its rises, so that each
    rise begins a fish of its own, then deletes the original fishes that are
    left with too few samples. */
module RiseCutting {
  import opened Wrappers
  import opened Trajectory

  /** `f` with every slot from `c` on cleared (`f[c:] = nan`): what remains of
      the fish after a cut. */
  function Before(f: Fish, c: nat): (g: Fish)
    ensures |g| == |f| && forall t :: 0 <= t < |f| ==> g[t] == if t < c then f[t] else None
  {
    seq(|f|, t requires 0 <= t < |f| => if t < c then f[t] else None)
  }

  /** `f` with every slot before `c` cleared: the new fish a cut creates. */
  function From(f: Fish, c: nat): (g: Fish)
    ensures |g| == |f| && forall t :: 0 <= t < |f| ==> g[t] == if t < c then None else f[t]
  {
    seq(|f|, t requires 0 <= t < |f| => if t < c then None else f[t])
  }

  /** Cutting one fish at its rises, the last rise first: what remains of the
      fish, and the new fishes in the order they are created. */
  function CutFish(f: Fish, rs: seq<Rise>): (Fish, seq<Fish>)
    decreases |rs|
  {
    if rs == [] then (f, [])
    else
      var c := rs[|rs| - 1].start;
      var rest := CutFish(Before(f, c), rs[..|rs| - 1]);
      (rest.0, [From(f, c)] + rest.1)
  }

  /** The single-rise lists of the new fishes of one fish, in creation order. */
  function Singletons(rs: seq<Rise>): (ss: seq<seq<Rise>>)
    ensures |ss| == |rs| && forall k :: 0 <= k < |rs| ==> ss[k] == [rs[|rs| - 1 - k]]
  {
    seq(|rs|, k requires 0 <= k < |rs| => [rs[|rs| - 1 - k]])
  }

  /** `n` empty rise lists. */
  function Empties(n: nat): (es: seq<seq<Rise>>)
    ensures |es| == n && forall k :: 0 <= k < n ==> es[k] == []
  {
    seq(n, _ => [])
  }

  /** What remains of every fish after all its cuts. */
  function Remainders(fishes: seq<Fish>, allRises: seq<seq<Rise>>): (rem: seq<Fish>)
    requires |allRises| == |fishes|
    ensures |rem| == |fishes| && forall k :: 0 <= k < |fishes| ==> rem[k] == CutFish(fishes[k], allRises[k]).0
  {
    seq(|fishes|, k requires 0 <= k < |fishes| => CutFish(fishes[k], allRises[k]).0)
  }

  /** All new fishes: those of the last fish first, each fish's in creation order. */
  function Fragments(fishes: seq<Fish>, allRises: seq<seq<Rise>>): seq<Fish>
    requires |allRises| == |fishes|
    decreases |fishes|
  {
    if fishes == [] then []
    else CutFish(fishes[|fishes| - 1], allRises[|fishes| - 1]).1 + Fragments(fishes[..|fishes| - 1], allRises[..|fishes| - 1])
  }

  /** The rise lists of the new fishes, aligned with `Fragments`. */
  function FragmentRises(allRises: seq<seq<Rise>>): seq<seq<Rise>>
    decreases |allRises|
  {
    if allRises == [] then []
    else Singletons(allRises[|allRises| - 1]) + FragmentRises(allRises[..|allRises| - 1])
  }

  /** The fishes and rise lists `cut_at_rises` is meant to return: the
      remainders with more than 10 samples, then the new fishes; an empty rise
      list for every kept remainder, then one single-rise list per new fish. */
  function CutResult(fishes: seq<Fish>, allRises: seq<seq<Rise>>): (seq<Fish>, seq<seq<Rise>>)
    requires |allRises| == |fishes|
  {
    var rem := Remainders(fishes, allRises);
    var keep := LongMask(rem);
    (Select(keep, rem) + Fragments(fishes, allRises), Empties(Trues(keep)) + FragmentRises(allRises))
  }

  /** The return as written: when no fish was cut, the remainders are returned
      without the pruning that was applied to the rise lists. */
  function CutResultAsWritten(fishes: seq<Fish>, allRises: seq<seq<Rise>>): (seq<Fish>, seq<seq<Rise>>)
    requires |allRises| == |fishes|
  {
    var rem := Remainders(fishes, allRises);
    var keep := LongMask(rem);
    if Fragments(fishes, allRises) == [] then (rem, Empties(Trues(keep)) + FragmentRises(allRises))
    else CutResult(fishes, allRises)
  }

  // ---------------------------------------------------------------------------
  // The loops

  /** The inner loop of `cut_at_rises` for fish `fish`: walks its rises from
      the last to the first; each one appends the fish from the rise's start on
      as a new fish, clears the fish from there, and moves the rise from the
      fish's list to a list of its own at the end. */
  method CutFishAt(fs: seq<Fish>, rs: seq<seq<Rise>>, newFishes: seq<Fish>, fish: nat)
    returns (fs': seq<Fish>, rs': seq<seq<Rise>>, newFishes': seq<Fish>)
    requires fish < |fs| <= |rs|
    ensures fs' == fs[fish := CutFish(fs[fish], rs[fish]).0]
    ensures newFishes' == newFishes + CutFish(fs[fish], rs[fish]).1
    ensures rs' == rs[fish := []] + Singletons(rs[fish])
  {
    ghost var f0, rs0 := fs[fish], rs[fish];
    ghost var made: seq<Fish> := [];
    ghost var moved: seq<seq<Rise>> := [];
    fs', rs', newFishes' := fs, rs, newFishes;
    var rise: nat := |rs[fish]|;
    assert rs0[..rise] == rs0;
    assert [] + CutFish(f0, rs0).1 == CutFish(f0, rs0).1;
    while rise > 0
      invariant rise <= |rs0| && |fs'| == |fs|
      invariant fs' == fs[fish := fs'[fish]]
      invariant rs' == rs[fish := rs0[..rise]] + moved
      invariant newFishes' == newFishes + made
      invariant CutFish(f0, rs0) == (CutFish(fs'[fish], rs0[..rise]).0, made + CutFish(fs'[fish], rs0[..rise]).1)
      invariant Singletons(rs0) == moved + Singletons(rs0[..rise])
    {
      rise := rise - 1;
      assert rs'[fish] == rs0[..rise + 1];
      var cutIdx := rs'[fish][rise].start;
      ghost var g := fs'[fish];
      CutStep(g, rs0, rise);
      ghost var tail := CutFish(Before(g, cutIdx), rs0[..rise]).1;
      assert made + ([From(g, cutIdx)] + tail) == (made + [From(g, cutIdx)]) + tail;
      assert moved + ([[rs0[rise]]] + Singletons(rs0[..rise])) == (moved + [[rs0[rise]]]) + Singletons(rs0[..rise]);
      made := made + [From(g, cutIdx)];
      moved := moved + [[rs'[fish][rise]]];
      newFishes' := newFishes' + [From(fs'[fish], cutIdx)];
      fs' := fs'[fish := Before(fs'[fish], cutIdx)];
      rs' := rs' + [[rs'[fish][rise]]];
      assert rs'[fish][..rise] + rs'[fish][rise + 1..] == rs0[..rise];
      rs' := rs'[fish := rs'[fish][..rise] + rs'[fish][rise + 1..]];
    }
    assert rs0[..0] == [];
  }

  /** One cut, seen from the function side. */
  lemma CutStep(g: Fish, rs0: seq<Rise>, rise: nat)
    requires rise < |rs0|
    ensures var c := rs0[rise].start;
            CutFish(g, rs0[..rise + 1]) ==
              (CutFish(Before(g, c), rs0[..rise]).0, [From(g, c)] + CutFish(Before(g, c), rs0[..rise]).1)
    ensures Singletons(rs0[..rise + 1]) == [[rs0[rise]]] + Singletons(rs0[..rise])
  {
    assert rs0[..rise + 1][..rise] == rs0[..rise];
  }

  /** The outer loop of `cut_at_rises`: cuts every fish, the last first. */
  method CutPieces(fishes: seq<Fish>, allRises: seq<seq<Rise>>)
    returns (fs: seq<Fish>, rs: seq<seq<Rise>>, newFishes: seq<Fish>)
    requires |allRises| == |fishes|
    ensures fs == Remainders(fishes, allRises)
    ensures newFishes == Fragments(fishes, allRises)
    ensures rs == Empties(|fishes|) + FragmentRises(allRises)
  {
    fs, rs, newFishes := fishes, allRises, [];
    var fish: nat := |fishes|;
    PiecesStart(fishes, allRises);
    while fish > 0
      invariant fish <= |fishes| && PiecesDone(fishes, allRises, fish, fs, rs, newFishes)
    {
      fish := fish - 1;
      ghost var fs0, rs0, new0 := fs, rs, newFishes;
      fs, rs, newFishes := CutFishAt(fs, rs, newFishes, fish);
      PiecesStep(fishes, allRises, fish, fs0, rs0, new0, fs, rs, newFishes);
    }
    PiecesEnd(fishes, allRises, fs, rs, newFishes);
  }

  /** The state of `CutPieces` once the fishes from position `fish` on are cut. */
  ghost predicate PiecesDone(fishes: seq<Fish>, allRises: seq<seq<Rise>>, fish: nat,
                             fs: seq<Fish>, rs: seq<seq<Rise>>, newFishes: seq<Fish>)
    requires |allRises| == |fishes|
  {
    fish <= |fishes| && |fs| == |fishes| && |rs| >= |fishes| &&
    RemaindersFrom(fishes, allRises, fish, fs) &&
    rs[..|fishes|] == allRises[..fish] + Empties(|fishes| - fish) &&
    newFishes + Fragments(fishes[..fish], allRises[..fish]) == Fragments(fishes, allRises) &&
    rs[|fishes|..] + FragmentRises(allRises[..fish]) == FragmentRises(allRises)
  }

  ghost predicate RemaindersFrom(fishes: seq<Fish>, allRises: seq<seq<Rise>>, fish: nat, fs: seq<Fish>)
    requires |allRises| == |fishes| == |fs|
  {
    (forall k :: 0 <= k < fish && k < |fishes| ==> fs[k] == fishes[k]) &&
    (forall k :: fish <= k < |fishes| ==> fs[k] == CutFish(fishes[k], allRises[k]).0)
  }

  lemma PiecesStart(fishes: seq<Fish>, allRises: seq<seq<Rise>>)
    requires |allRises| == |fishes|
    ensures PiecesDone(fishes, allRises, |fishes|, fishes, allRises, [])
  {
    assert fishes[..|fishes|] == fishes && allRises[..|fishes|] == allRises;
    assert allRises[|fishes|..] == [];
    assert Empties(0) == [];
  }

  lemma PiecesEnd(fishes: seq<Fish>, allRises: seq<seq<Rise>>, fs: seq<Fish>, rs: seq<seq<Rise>>, newFishes: seq<Fish>)
    requires |allRises| == |fishes|
    requires PiecesDone(fishes, allRises, 0, fs, rs, newFishes)
    ensures fs == Remainders(fishes, allRises)
    ensures newFishes == Fragments(fishes, allRises)
    ensures rs == Empties(|fishes|) + FragmentRises(allRises)
  {
    var n := |fishes|;
    assert fishes[..0] == [] && allRises[..0] == [];
    assert Fragments([], []) == [] && FragmentRises([]) == [];
    assert newFishes + [] == newFishes;
    var rem := Remainders(fishes, allRises);
    forall k | 0 <= k < n ensures fs[k] == rem[k] {
    }
    assert rs[..n] == Empties(n) by {
      assert [] + Empties(n) == Empties(n);
    }
    assert rs[n..] + [] == rs[n..];
    assert rs == rs[..n] + rs[n..];
  }

  /** Cutting fish `fish` extends the state of `CutPieces`. */
  lemma PiecesStep(fishes: seq<Fish>, allRises: seq<seq<Rise>>, fish: nat,
                   fs0: seq<Fish>, rs0: seq<seq<Rise>>, new0: seq<Fish>,
                   fs: seq<Fish>, rs: seq<seq<Rise>>, newFishes: seq<Fish>)
    requires |allRises| == |fishes| && fish < |fishes|
    requires PiecesDone(fishes, allRises, fish + 1, fs0, rs0, new0)
    requires fs == fs0[fish := CutFish(fs0[fish], rs0[fish]).0]
    requires newFishes == new0 + CutFish(fs0[fish], rs0[fish]).1
    requires rs == rs0[fish := []] + Singletons(rs0[fish])
    ensures PiecesDone(fishes, allRises, fish, fs, rs, newFishes)
  {
    assert rs0[fish] == rs0[..|fishes|][fish] == allRises[fish];
    assert fs0[fish] == fishes[fish];
    FragmentsStep(fishes, allRises, fish);
    Associate(new0, CutFish(fishes[fish], allRises[fish]).1, Fragments(fishes[..fish], allRises[..fish]));
    RisesStep(fishes, allRises, fish, rs0, rs);
  }

  lemma RisesStep(fishes: seq<Fish>, allRises: seq<seq<Rise>>, fish: nat, rs0: seq<seq<Rise>>, rs: seq<seq<Rise>>)
    requires |allRises| == |fishes| && fish < |fishes| && |rs0| >= |fishes|
    requires rs0[..|fishes|] == allRises[..fish + 1] + Empties(|fishes| - fish - 1)
    requires rs0[|fishes|..] + FragmentRises(allRises[..fish + 1]) == FragmentRises(allRises)
    requires FragmentRises(allRises[..fish + 1]) == Singletons(allRises[fish]) + FragmentRises(allRises[..fish])
    requires rs == rs0[fish := []] + Singletons(allRises[fish])
    ensures rs[..|fishes|] == allRises[..fish] + Empties(|fishes| - fish)
    ensures rs[|fishes|..] + FragmentRises(allRises[..fish]) == FragmentRises(allRises)
  {
    var n := |fishes|;
    var own := Singletons(allRises[fish]);
    SplitAt(rs0[fish := []], own, n);
    assert rs0[fish := []][..n] == rs0[..n][fish := []];
    assert rs0[fish := []][n..] == rs0[n..];
    ClearedPrefix(allRises, fish, n);
    Associate(rs0[n..], own, FragmentRises(allRises[..fish]));
  }

  lemma SplitAt<T>(a: seq<T>, b: seq<T>, n: nat)
    requires n <= |a|
    ensures (a + b)[..n] == a[..n] && (a + b)[n..] == a[n..] + b
  {
  }

  lemma ClearedPrefix(allRises: seq<seq<Rise>>, fish: nat, n: nat)
    requires fish < n <= |allRises|
    ensures (allRises[..fish + 1] + Empties(n - fish - 1))[fish := []] == allRises[..fish] + Empties(n - fish)
  {
  }

  lemma Associate<T>(a: seq<T>, b: seq<T>, c: seq<T>)
    ensures (a + b) + c == a + (b + c)
  {
  }

  /** One fish more, seen from the function side. */
  lemma FragmentsStep(fishes: seq<Fish>, allRises: seq<seq<Rise>>, fish: nat)
    requires |allRises| == |fishes| && fish < |fishes|
    ensures Fragments(fishes[..fish + 1], allRises[..fish + 1]) ==
              CutFish(fishes[fish], allRises[fish]).1 + Fragments(fishes[..fish], allRises[..fish])
    ensures FragmentRises(allRises[..fish + 1]) == Singletons(allRises[fish]) + FragmentRises(allRises[..fish])
  {
    assert fishes[..fish + 1][..fish] == fishes[..fish];
    assert allRises[..fish + 1][..fish] == allRises[..fish];
  }

  /** The second loop of `cut_at_rises`: walks the original fishes from the
      last to the first and deletes the rise list of every one with at most 10
      samples; the kept fishes are those not deleted (`return_idx`). */
  method PruneOriginals(fs: seq<Fish>, rs: seq<seq<Rise>>) returns (keep: seq<bool>, rs': seq<seq<Rise>>)
    requires |fs| <= |rs| && forall k :: 0 <= k < |fs| ==> rs[k] == []
    ensures keep == LongMask(fs)
    ensures rs' == Empties(Trues(keep)) + rs[|fs|..]
  {
    ghost var mask := LongMask(fs);
    ghost var tail := rs[|fs|..];
    var deleteIdx: seq<nat> := [];
    rs' := rs;
    ghost var m: nat := |fs|;
    assert rs == Empties(|fs|) + tail;
    assert mask[|fs|..] == [];
    var fish: nat := |fs|;
    while fish > 0
      invariant fish <= |fs| && m == fish + Trues(mask[fish..])
      invariant forall k :: k in deleteIdx <==> fish <= k < |fs| && Count(fs[k]) <= MaxShortCount
      invariant rs' == Empties(m) + tail
    {
      fish := fish - 1;
      assert mask[fish..][1..] == mask[fish + 1..];
      if Count(fs[fish]) <= MaxShortCount {
        deleteIdx := deleteIdx + [fish];
        EmptiesRemove(m, tail, fish);
        rs' := rs'[..fish] + rs'[fish + 1..];
        m := m - 1;
      }
    }
    keep := seq(|fs|, k requires 0 <= k < |fs| => k !in deleteIdx);
    assert keep == mask;
    assert mask[0..] == mask;
  }

  /** Deleting one of the leading empty rise lists leaves one fewer. */
  lemma EmptiesRemove(m: nat, tail: seq<seq<Rise>>, i: nat)
    requires i < m
    ensures (Empties(m) + tail)[..i] + (Empties(m) + tail)[i + 1..] == Empties(m - 1) + tail
  {
    var cur := Empties(m) + tail;
    var r := cur[..i] + cur[i + 1..];
    forall k | 0 <= k < |r| ensures r[k] == (Empties(m - 1) + tail)[k] {
      if k < i {
        assert r[k] == cur[k];
      } else {
        assert r[k] == cur[k + 1];
      }
    }
  }

  /** `cut_at_rises`, with the return corrected so that the fishes and the
      rise lists stay aligned. */
  method CutAtRises(fishes: seq<Fish>, allRises: seq<seq<Rise>>)
    returns (fishes': seq<Fish>, allRises': seq<seq<Rise>>)
    requires |allRises| == |fishes|
    ensures (fishes', allRises') == CutResult(fishes, allRises)
    ensures |fishes'| == |allRises'|
  {
    var fs, rs, newFishes := CutPieces(fishes, allRises);
    var keep;
    keep, allRises' := PruneOriginals(fs, rs);
    assert rs[|fs|..] == FragmentRises(allRises);
    fishes' := Select(keep, fs) + newFishes;
    CutAligned(fishes, allRises);
  }

  /** `cut_at_rises` as written: when no fish has a rise the unpruned fishes
      are returned. */
  method CutAtRisesAsWritten(fishes: seq<Fish>, allRises: seq<seq<Rise>>)
    returns (fishes': seq<Fish>, allRises': seq<seq<Rise>>)
    requires |allRises| == |fishes|
    ensures (fishes', allRises') == CutResultAsWritten(fishes, allRises)
  {
    var fs, rs, newFishes := CutPieces(fishes, allRises);
    var keep;
    keep, allRises' := PruneOriginals(fs, rs);
    assert rs[|fs|..] == FragmentRises(allRises);
    if |newFishes| == 0 {
      fishes' := fs;
    } else {
      fishes' := Select(keep, fs) + newFishes;
    }
  }

  // ---------------------------------------------------------------------------
  // Properties

  /** Cutting a fish creates one new fish per rise, each of the fish's length. */
  lemma {:induction false} CutFishShape(f: Fish, rs: seq<Rise>)
    ensures |CutFish(f, rs).0| == |f| && |CutFish(f, rs).1| == |rs|
    ensures forall k :: 0 <= k < |rs| ==> |CutFish(f, rs).1[k]| == |f|
    decreases |rs|
  {
    if rs != [] {
      CutFishShape(Before(f, rs[|rs| - 1].start), rs[..|rs| - 1]);
    }
  }

  /** No sample is lost or duplicated by cutting: at every time step the
      remainder and the new fishes together hold exactly the fish's sample. */
  lemma {:induction false} CutFishConserves(f: Fish, rs: seq<Rise>, t: nat)
    ensures Cell(CutFish(f, rs).0, t) + Column(CutFish(f, rs).1, t) == Cell(f, t)
    decreases |rs|
  {
    if rs != [] {
      var c := rs[|rs| - 1].start;
      var rest := CutFish(Before(f, c), rs[..|rs| - 1]);
      var piece := From(f, c);
      calc {
        Cell(CutFish(f, rs).0, t) + Column(CutFish(f, rs).1, t);
        == { ColumnAppend([piece], rest.1, t); assert Column([piece], t) == Cell(piece, t); }
        Cell(rest.0, t) + (Cell(piece, t) + Column(rest.1, t));
        == (Cell(rest.0, t) + Column(rest.1, t)) + Cell(piece, t);
        == { CutFishConserves(Before(f, c), rs[..|rs| - 1], t); }
        Cell(Before(f, c), t) + Cell(piece, t);
        == { SplitCell(f, c, t); }
        Cell(f, t);
      }
    }
  }

  /** A sample lies either before the cut or from it on. */
  lemma SplitCell(f: Fish, c: nat, t: nat)
    ensures Cell(Before(f, c), t) + Cell(From(f, c), t) == Cell(f, t)
  {
    if t < |f| {
      if t < c {
        assert Before(f, c)[t] == f[t] && From(f, c)[t] == None;
      } else {
        assert Before(f, c)[t] == None && From(f, c)[t] == f[t];
      }
    }
  }

  /** What remains of a fish equals it before its earliest rise start and is
      cleared from every rise start on. */
  lemma {:induction false} CutFishRemainder(f: Fish, rs: seq<Rise>)
    ensures |CutFish(f, rs).0| == |f|
    ensures forall t :: 0 <= t < |f| && (forall k :: 0 <= k < |rs| ==> t < rs[k].start) ==> CutFish(f, rs).0[t] == f[t]
    ensures forall t, k :: 0 <= t < |f| && 0 <= k < |rs| && rs[k].start <= t ==> CutFish(f, rs).0[t] == None
    decreases |rs|
  {
    CutFishShape(f, rs);
    if rs != [] {
      var c := rs[|rs| - 1].start;
      CutFishRemainder(Before(f, c), rs[..|rs| - 1]);
      forall t, k | 0 <= t < |f| && 0 <= k < |rs| && rs[k].start <= t
        ensures CutFish(f, rs).0[t] == None
      {
        if k < |rs| - 1 {
          assert rs[..|rs| - 1][k] == rs[k];
        }
      }
      forall t | 0 <= t < |f| && (forall k :: 0 <= k < |rs| ==> t < rs[k].start)
        ensures CutFish(f, rs).0[t] == f[t]
      {
        assert forall k :: 0 <= k < |rs| - 1 ==> rs[..|rs| - 1][k] == rs[k];
        assert t < rs[|rs| - 1].start;
      }
    }
  }

  /** The new fish created for the rise at position `i` of the fish's list is
      cleared before the rise's start, and from there on equals the fish up to
      the start of any rise later in the list, where the earlier cuts cleared it. */
  lemma {:induction false} CutFishFragment(f: Fish, rs: seq<Rise>, i: nat)
    requires i < |rs|
    ensures |CutFish(f, rs).1| == |rs|
    ensures var g := CutFish(f, rs).1[|rs| - 1 - i];
            |g| == |f| &&
            (forall t :: 0 <= t < |f| && t < rs[i].start ==> g[t] == None) &&
            (forall t :: 0 <= t < |f| && rs[i].start <= t && (forall k :: i < k < |rs| ==> t < rs[k].start) ==> g[t] == f[t]) &&
            (forall t :: 0 <= t < |f| ==> g[t] == None || g[t] == f[t])
    decreases |rs|
  {
    CutFishShape(f, rs);
    var c := rs[|rs| - 1].start;
    if i < |rs| - 1 {
      var rs' := rs[..|rs| - 1];
      CutFishFragment(Before(f, c), rs', i);
      assert CutFish(f, rs).1[|rs| - 1 - i] == CutFish(Before(f, c), rs').1[|rs'| - 1 - i];
      assert rs'[i] == rs[i];
      forall t | 0 <= t < |f| && rs[i].start <= t && (forall k :: i < k < |rs| ==> t < rs[k].start)
        ensures CutFish(f, rs).1[|rs| - 1 - i][t] == f[t]
      {
        assert t < rs[|rs| - 1].start;
        assert forall k :: i < k < |rs'| ==> rs'[k] == rs[k];
      }
    }
  }

  /** The fishes and rise lists returned stay aligned. */
  lemma CutAligned(fishes: seq<Fish>, allRises: seq<seq<Rise>>)
    requires |allRises| == |fishes|
    ensures |CutResult(fishes, allRises).0| == |CutResult(fishes, allRises).1|
  {
    var rem := Remainders(fishes, allRises);
    SelectLength(LongMask(rem), rem);
    FragmentsLength(fishes, allRises);
  }

  lemma {:induction false} FragmentsLength(fishes: seq<Fish>, allRises: seq<seq<Rise>>)
    requires |allRises| == |fishes|
    ensures |Fragments(fishes, allRises)| == |FragmentRises(allRises)|
    decreases |fishes|
  {
    if fishes != [] {
      var n := |fishes| - 1;
      CutFishShape(fishes[n], allRises[n]);
      FragmentsLength(fishes[..n], allRises[..n]);
    }
  }

  /** Every new fish carries exactly one rise, of the fish it was cut from,
      and it is cleared before that rise's start and a part of that fish. */
  lemma {:induction false} FragmentsCarryTheirRise(fishes: seq<Fish>, allRises: seq<seq<Rise>>, j: nat)
    requires |allRises| == |fishes| && j < |Fragments(fishes, allRises)|
    ensures |Fragments(fishes, allRises)| == |FragmentRises(allRises)|
    ensures exists i, r :: 0 <= i < |fishes| && r in allRises[i] && FragmentRises(allRises)[j] == [r] &&
              PartOf(Fragments(fishes, allRises)[j], fishes[i], r.start)
    decreases |fishes|
  {
    FragmentsLength(fishes, allRises);
    var n := |fishes| - 1;
    var own := CutFish(fishes[n], allRises[n]).1;
    CutFishShape(fishes[n], allRises[n]);
    if j < |own| {
      var rs := allRises[n];
      var i := |rs| - 1 - j;
      CutFishFragment(fishes[n], rs, i);
      assert FragmentRises(allRises)[j] == [rs[i]];
      assert Fragments(fishes, allRises)[j] == own[j];
      assert PartOf(own[j], fishes[n], rs[i].start);
    } else {
      FragmentsCarryTheirRise(fishes[..n], allRises[..n], j - |own|);
      var i, r :| 0 <= i < n && r in allRises[..n][i] && FragmentRises(allRises[..n])[j - |own|] == [r] &&
                  PartOf(Fragments(fishes[..n], allRises[..n])[j - |own|], fishes[..n][i], r.start);
      FragmentsLength(fishes[..n], allRises[..n]);
      assert FragmentRises(allRises)[j] == FragmentRises(allRises[..n])[j - |own|];
      assert Fragments(fishes, allRises)[j] == Fragments(fishes[..n], allRises[..n])[j - |own|];
    }
  }

  /** `g` has the length of `f`, is cleared before `c`, and elsewhere either
      cleared or equal to `f`. */
  predicate PartOf(g: Fish, f: Fish, c: nat)
  {
    |g| == |f| && (forall t :: 0 <= t < |f| && t < c ==> g[t] == None) &&
    (forall t :: 0 <= t < |f| ==> g[t] == None || g[t] == f[t])
  }

  /** No sample is lost or duplicated: at every time step the returned fishes
      and the deleted remainders together hold exactly the input's samples. */
  lemma CutConserves(fishes: seq<Fish>, allRises: seq<seq<Rise>>, t: nat)
    requires |allRises| == |fishes|
    ensures var rem := Remainders(fishes, allRises);
            Column(CutResult(fishes, allRises).0, t) + Column(Select(Negate(LongMask(rem)), rem), t) == Column(fishes, t)
  {
    var rem := Remainders(fishes, allRises);
    var keep := LongMask(rem);
    ColumnAppend(Select(keep, rem), Fragments(fishes, allRises), t);
    ColumnSelect(keep, rem, t);
    PiecesConserve(fishes, allRises, t);
  }

  lemma {:induction false} PiecesConserve(fishes: seq<Fish>, allRises: seq<seq<Rise>>, t: nat)
    requires |allRises| == |fishes|
    ensures Column(Remainders(fishes, allRises), t) + Column(Fragments(fishes, allRises), t) == Column(fishes, t)
    decreases |fishes|
  {
    if fishes != [] {
      var n := |fishes| - 1;
      var rem := Remainders(fishes, allRises);
      var rem' := Remainders(fishes[..n], allRises[..n]);
      var own := CutFish(fishes[n], allRises[n]);
      var frags' := Fragments(fishes[..n], allRises[..n]);
      forall k | 0 <= k < n ensures rem[..n][k] == rem'[k] {
        assert fishes[..n][k] == fishes[k] && allRises[..n][k] == allRises[k];
      }
      assert rem[..n] == rem';
      calc {
        Column(rem, t) + Column(Fragments(fishes, allRises), t);
        == { LastColumn(rem, t); ColumnAppend(own.1, frags', t); }
        (Column(rem', t) + Cell(own.0, t)) + (Column(own.1, t) + Column(frags', t));
        == { MultisetShuffle(Column(rem', t), Cell(own.0, t), Column(own.1, t), Column(frags', t)); }
        (Column(rem', t) + Column(frags', t)) + (Cell(own.0, t) + Column(own.1, t));
        == { PiecesConserve(fishes[..n], allRises[..n], t); CutFishConserves(fishes[n], allRises[n], t); }
        Column(fishes[..n], t) + Cell(fishes[n], t);
        == { LastColumn(fishes, t); }
        Column(fishes, t);
      }
    }
  }

  /** A column is the column of all but the last fish plus the last fish's cell. */
  lemma LastColumn(fs: seq<Fish>, t: nat)
    requires fs != []
    ensures Column(fs, t) == Column(fs[..|fs| - 1], t) + Cell(fs[|fs| - 1], t)
  {
    assert fs == fs[..|fs| - 1] + [fs[|fs| - 1]];
    ColumnAppend(fs[..|fs| - 1], [fs[|fs| - 1]], t);
    assert Column([fs[|fs| - 1]], t) == Cell(fs[|fs| - 1], t);
  }

  lemma MultisetShuffle(a: multiset<real>, b: multiset<real>, c: multiset<real>, d: multiset<real>)
    ensures (a + b) + (c + d) == (a + d) + (b + c)
  {
  }

  /** With no rises at all and a fish of at most 10 samples, the return as
      written keeps the fish but deletes its rise list, so the two lists no
      longer line up; the corrected return deletes both. */
  lemma ShortFishMisaligned()
    ensures var fishes := [seq(5, _ => Some(500.0))];
            var allRises: seq<seq<Rise>> := [[]];
            |CutResultAsWritten(fishes, allRises).0| == 1 &&
            |CutResultAsWritten(fishes, allRises).1| == 0 &&
            CutResult(fishes, allRises) == ([], [])
  {
    var f: Fish := seq(5, _ => Some(500.0));
    var fishes := [f];
    var allRises: seq<seq<Rise>> := [[]];
    assert f[4..][1..] == [];
    assert Count(f[4..]) == 1;
    assert f[3..][1..] == f[4..];
    assert Count(f[3..]) == 2;
    assert f[2..][1..] == f[3..];
    assert Count(f[2..]) == 3;
    assert f[1..][1..] == f[2..];
    assert Count(f[1..]) == 4;
    assert Count(f) == 5;
    var rem := Remainders(fishes, allRises);
    assert rem == [f];
    assert LongMask(rem) == [false];
    assert Fragments(fishes, allRises) == [] by {
      assert fishes[..0] == [];
    }
    assert FragmentRises(allRises) == [] by {
      assert allRises[..0] == [];
    }
    assert Trues(LongMask(rem)) == 0;
  }
}
