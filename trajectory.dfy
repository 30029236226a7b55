/** Frequency trajectories ("fish") shared by the tracking stages.
    A trajectory holds one slot per time step; a slot is either a measured
    frequency or absent (NaN in the original arrays). */
module Trajectory {
  import opened Wrappers

  /** Absolute value of a real (`np.abs`). */
  function Abs(x: real): (r: real)
    ensures r >= 0.0 && (r == x || r == -x)
  {
    if x < 0.0 then -x else x
  }

  /** A detected rise: the indices and frequencies of its start (the peak, or
      the first sample after a preceding gap) and of its end. */
  datatype Rise = Rise(start: nat, end: nat, startFreq: real, endFreq: real)

  /** One fish: a frequency or nothing at every time step. */
  type Fish = seq<Option<real>>

  /** A trajectory of `n` absent slots (`np.full(n, np.nan)`). */
  function Absent(n: nat): (f: Fish)
    ensures |f| == n && forall t :: 0 <= t < n ==> f[t] == None
  {
    seq(n, _ => None)
  }

  /** Number of measured slots (`len(f[~np.isnan(f)])`). */
  function Count(f: Fish): nat
  {
    if f == [] then 0 else (if f[0].Some? then 1 else 0) + Count(f[1..])
  }

  /** True when every slot is absent. */
  predicate AllAbsent(f: Fish)
  {
    forall t :: 0 <= t < |f| ==> f[t] == None
  }

  lemma {:induction false} CountZero(f: Fish)
    ensures Count(f) == 0 <==> AllAbsent(f)
  {
    if f != [] {
      CountZero(f[1..]);
      assert forall t :: 1 <= t < |f| ==> f[t] == f[1..][t - 1];
    }
  }

  lemma {:induction false} CountBound(f: Fish)
    ensures Count(f) <= |f|
  {
    if f != [] { CountBound(f[1..]); }
  }

  lemma {:induction false} CountAppend(f: Fish, g: Fish)
    ensures Count(f + g) == Count(f) + Count(g)
  {
    if f == [] {
      assert f + g == g;
    } else {
      assert (f + g)[1..] == f[1..] + g;
      CountAppend(f[1..], g);
    }
  }

  /** The indices at which `f` holds a value, in increasing order
      (`np.arange(len(f))[~np.isnan(f)]`). */
  function ValidIndices(f: Fish): (nn: seq<nat>)
    ensures |nn| == Count(f)
    ensures forall k :: 0 <= k < |nn| ==> nn[k] < |f| && f[nn[k]].Some?
    ensures forall k, m :: 0 <= k < m < |nn| ==> nn[k] < nn[m]
    ensures forall t :: 0 <= t < |f| && f[t].Some? ==> t in nn
    decreases |f|
  {
    if f == [] then []
    else
      var rest := ValidIndices(f[..|f| - 1]);
      assert forall t :: 0 <= t < |f| - 1 ==> f[..|f| - 1][t] == f[t];
      CountLast(f);
      if f[|f| - 1].Some? then rest + [|f| - 1] else rest
  }

  lemma CountLast(f: Fish)
    requires f != []
    ensures Count(f) == Count(f[..|f| - 1]) + (if f[|f| - 1].Some? then 1 else 0)
  {
    assert f == f[..|f| - 1] + [f[|f| - 1]];
    CountAppend(f[..|f| - 1], [f[|f| - 1]]);
  }

  /** A fish with at most this many samples is too short to keep: `clean_up`
      and `cut_at_rises` delete it. */
  const MaxShortCount := 10

  /** Flags of the fishes that are kept by `clean_up` and by the pruning in
      `cut_at_rises`: more than 10 samples. */
  function LongMask(fs: seq<Fish>): (m: seq<bool>)
    ensures |m| == |fs|
    ensures forall k :: 0 <= k < |fs| ==> (m[k] <==> Count(fs[k]) > MaxShortCount)
  {
    seq(|fs|, k requires 0 <= k < |fs| => Count(fs[k]) > MaxShortCount)
  }

  /** Keeps the elements of `xs` whose flag in `keep` is set, in order.
      Parallel lists filtered with the same flags stay aligned. */
  function Select<T>(keep: seq<bool>, xs: seq<T>): (r: seq<T>)
    requires |keep| == |xs|
    ensures |r| <= |xs|
    ensures forall x :: x in r ==> x in xs
  {
    if xs == [] then []
    else (if keep[0] then [xs[0]] else []) + Select(keep[1..], xs[1..])
  }

  /** One step of the backward pop loop: the element at `i - 1` is popped
      exactly when its flag is clear. */
  lemma PopStep<T>(mask: seq<bool>, xs: seq<T>, cur: seq<T>, i: nat)
    requires |mask| == |xs| && 0 < i <= |xs|
    requires cur == xs[..i] + Select(mask[i..], xs[i..])
    ensures (if mask[i - 1] then cur else cur[..i - 1] + cur[i..]) ==
            xs[..i - 1] + Select(mask[i - 1..], xs[i - 1..])
  {
    assert mask[i - 1..][1..] == mask[i..];
    assert xs[i - 1..][1..] == xs[i..];
    if mask[i - 1] {
      assert xs[..i] == xs[..i - 1] + [xs[i - 1]];
    } else {
      assert cur[..i - 1] == xs[..i - 1];
      assert cur[i..] == Select(mask[i..], xs[i..]);
    }
  }

  /** One step of collecting the elements whose flag is set, from the back:
      the element at `i - 1` is prepended exactly when its flag is set. */
  lemma PopCollect<T>(mask: seq<bool>, xs: seq<T>, got: seq<T>, i: nat)
    requires |mask| == |xs| && 0 < i <= |xs|
    requires got == Select(mask[i..], xs[i..])
    ensures (if mask[i - 1] then [xs[i - 1]] + got else got) == Select(mask[i - 1..], xs[i - 1..])
  {
    assert mask[i - 1..][1..] == mask[i..];
    assert xs[i - 1..][1..] == xs[i..];
  }

  /** Selecting from one element more of two parallel prefixes. */
  lemma SelectPrefixStep<T>(mask: seq<bool>, xs: seq<T>, i: nat)
    requires |mask| == |xs| && i < |xs|
    ensures Select(mask[..i + 1], xs[..i + 1]) == Select(mask[..i], xs[..i]) + (if mask[i] then [xs[i]] else [])
  {
    assert mask[..i + 1] == mask[..i] + [mask[i]];
    assert xs[..i + 1] == xs[..i] + [xs[i]];
    SelectAppend(mask[..i], xs[..i], [mask[i]], [xs[i]]);
    assert Select([mask[i]], [xs[i]]) == if mask[i] then [xs[i]] else [];
  }

  /** Number of set flags. */
  function Trues(keep: seq<bool>): nat
  {
    if keep == [] then 0 else (if keep[0] then 1 else 0) + Trues(keep[1..])
  }

  lemma {:induction false} SelectLength<T>(keep: seq<bool>, xs: seq<T>)
    requires |keep| == |xs|
    ensures |Select(keep, xs)| == Trues(keep)
  {
    if xs != [] { SelectLength(keep[1..], xs[1..]); }
  }

  /** An element is kept exactly when it is in the list with its flag set. */
  lemma {:induction false} SelectMembers<T>(keep: seq<bool>, xs: seq<T>, x: T)
    requires |keep| == |xs|
    ensures x in Select(keep, xs) <==> exists k :: 0 <= k < |xs| && xs[k] == x && keep[k]
  {
    if xs != [] {
      SelectMembers(keep[1..], xs[1..], x);
      if x in Select(keep[1..], xs[1..]) {
        var k :| 0 <= k < |xs[1..]| && xs[1..][k] == x && keep[1..][k];
        assert xs[k + 1] == x && keep[k + 1];
      }
      if exists k :: 0 <= k < |xs| && xs[k] == x && keep[k] {
        var k :| 0 <= k < |xs| && xs[k] == x && keep[k];
        if k > 0 { assert xs[1..][k - 1] == x && keep[1..][k - 1]; }
      }
    }
  }

  lemma {:induction false} SelectAppend<T>(k1: seq<bool>, x1: seq<T>, k2: seq<bool>, x2: seq<T>)
    requires |k1| == |x1| && |k2| == |x2|
    ensures Select(k1 + k2, x1 + x2) == Select(k1, x1) + Select(k2, x2)
    decreases |x1|
  {
    if x1 == [] {
      assert k1 + k2 == k2 && x1 + x2 == x2;
    } else {
      var head: seq<T> := if k1[0] then [x1[0]] else [];
      assert (k1 + k2)[1..] == k1[1..] + k2;
      assert (x1 + x2)[1..] == x1[1..] + x2;
      assert (k1 + k2)[0] == k1[0] && (x1 + x2)[0] == x1[0];
      SelectAppend(k1[1..], x1[1..], k2, x2);
      calc {
        Select(k1 + k2, x1 + x2);
        head + Select(k1[1..] + k2, x1[1..] + x2);
        head + (Select(k1[1..], x1[1..]) + Select(k2, x2));
        (head + Select(k1[1..], x1[1..])) + Select(k2, x2);
        Select(k1, x1) + Select(k2, x2);
      }
    }
  }

  /** Selecting with all flags set is the identity. */
  lemma {:induction false} SelectAll<T>(keep: seq<bool>, xs: seq<T>)
    requires |keep| == |xs|
    requires forall k :: 0 <= k < |keep| ==> keep[k]
    ensures Select(keep, xs) == xs
  {
    if xs != [] { SelectAll(keep[1..], xs[1..]); }
  }

  /** The flags of a selection, kept alongside the selected elements. */
  lemma {:induction false} SelectFlags<T>(keep: seq<bool>, xs: seq<T>)
    requires |keep| == |xs|
    ensures Select(keep, keep) == seq(Trues(keep), _ => true)
  {
    if xs != [] {
      SelectFlags(keep[1..], xs[1..]);
    }
  }

  /** Multiset of the frequencies that the fishes `fs` hold at time step `c`. */
  function Column(fs: seq<Fish>, c: nat): multiset<real>
  {
    if fs == [] then multiset{}
    else Cell(fs[0], c) + Column(fs[1..], c)
  }

  /** The frequency of `f` at time step `c`, as a multiset of zero or one element. */
  function Cell(f: Fish, c: nat): multiset<real>
  {
    if c < |f| && f[c].Some? then multiset{f[c].value} else multiset{}
  }

  lemma {:induction false} ColumnAppend(a: seq<Fish>, b: seq<Fish>, c: nat)
    ensures Column(a + b, c) == Column(a, c) + Column(b, c)
  {
    if a == [] {
      assert a + b == b;
    } else {
      assert (a + b)[1..] == a[1..] + b;
      ColumnAppend(a[1..], b, c);
    }
  }

  /** Replacing one fish changes a column by exactly the two cells. */
  lemma {:induction false} ColumnUpdate(fs: seq<Fish>, i: nat, g: Fish, c: nat)
    requires i < |fs|
    ensures Column(fs[i := g], c) + Cell(fs[i], c) == Column(fs, c) + Cell(g, c)
  {
    if i > 0 {
      assert fs[i := g][1..] == fs[1..][i - 1 := g];
      ColumnUpdate(fs[1..], i - 1, g, c);
      assert fs[i := g][0] == fs[0];
      assert fs[1..][i - 1] == fs[i];
      var head, tail', tail := Cell(fs[0], c), Column(fs[1..][i - 1 := g], c), Column(fs[1..], c);
      assert Column(fs[i := g], c) == head + tail';
      assert Column(fs, c) == head + tail;
      assert tail' + Cell(fs[i], c) == tail + Cell(g, c);
      assert head + tail' + Cell(fs[i], c) == head + (tail' + Cell(fs[i], c));
    } else {
      assert fs[i := g][1..] == fs[1..];
    }
  }

  /** Splitting a list into the selected and the unselected fishes keeps every column. */
  lemma {:induction false} ColumnSelect(keep: seq<bool>, fs: seq<Fish>, c: nat)
    requires |keep| == |fs|
    ensures Column(Select(keep, fs), c) + Column(Select(Negate(keep), fs), c) == Column(fs, c)
  {
    if fs != [] {
      assert Negate(keep)[1..] == Negate(keep[1..]);
      ColumnSelect(keep[1..], fs[1..], c);
      var s1 := Select(keep[1..], fs[1..]);
      var s2 := Select(Negate(keep[1..]), fs[1..]);
      if keep[0] {
        assert Select(keep, fs) == [fs[0]] + s1;
        assert Select(Negate(keep), fs) == [] + s2;
        ColumnAppend([fs[0]], s1, c);
        assert [] + s2 == s2;
      } else {
        assert Select(keep, fs) == [] + s1;
        assert Select(Negate(keep), fs) == [fs[0]] + s2;
        ColumnAppend([fs[0]], s2, c);
        assert [] + s1 == s1;
      }
    }
  }

  function Negate(keep: seq<bool>): (r: seq<bool>)
    ensures |r| == |keep| && forall k :: 0 <= k < |keep| ==> r[k] == !keep[k]
  {
    seq(|keep|, k requires 0 <= k < |keep| => !keep[k])
  }

  /** A column of fishes that are all absent at step `c` is empty. */
  lemma {:induction false} ColumnAbsent(fs: seq<Fish>, c: nat)
    requires forall k :: 0 <= k < |fs| ==> c >= |fs[k]| || fs[k][c] == None
    ensures Column(fs, c) == multiset{}
  {
    if fs != [] {
      assert forall k :: 0 <= k < |fs[1..]| ==> fs[1..][k] == fs[k + 1];
      ColumnAbsent(fs[1..], c);
    }
  }

  /** The entries of `s` at the positions `idx`, in the order of `idx`
      (`[s[i] for i in idx]`, or NumPy's `s[idx]`). */
  function Indexed<T>(s: seq<T>, idx: seq<nat>): (r: seq<T>)
    requires forall k :: 0 <= k < |idx| ==> idx[k] < |s|
    ensures |r| == |idx| && forall k :: 0 <= k < |idx| ==> r[k] == s[idx[k]]
  {
    seq(|idx|, k requires 0 <= k < |idx| => s[idx[k]])
  }

  lemma IndexedAppend<T>(s: seq<T>, idx: seq<nat>, i: nat)
    requires i < |s| && forall k :: 0 <= k < |idx| ==> idx[k] < |s|
    ensures Indexed(s, idx + [i]) == Indexed(s, idx) + [s[i]]
  {
    assert forall k :: 0 <= k < |idx| ==> (idx + [i])[k] == idx[k];
  }
}
