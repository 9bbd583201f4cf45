/** The two leveling loops of `sizeContainersAlongAxis`, over the sizes of a
    parent's children along one axis. `act` lists, in child order, the
    positions of the children that may still change (the source's
    `resizeable` list).

    Shrinking repeatedly finds the largest children and cuts them towards
    the runner-up, never below a child's minimum; a child that reaches its
    minimum leaves the list. Growing repeatedly finds the smallest children
    and raises them towards the runner-up, never above a child's maximum.
    Every change to a size is booked against `sizeToDistribute`, so their
    sum is invariant. The source's loops run until the overflow (or slack)
    is within `TOLERANCE` or no child is left; here they are also bounded
    by `fuel` rounds. */
module Leveling {
  import opened Numbers

  predicate Increasing(s: seq<nat>)
  {
    forall i, j :: 0 <= i < j < |s| ==> s[i] < s[j]
  }

  /** Positions of children among `n`, in child order. */
  predicate Positions(s: seq<nat>, n: nat)
  {
    Increasing(s) && forall i :: 0 <= i < |s| ==> s[i] < n
  }

  /** The sizes of the listed children, in list order. */
  function Values(sizes: seq<real>, act: seq<nat>): (r: seq<real>)
    requires forall i :: 0 <= i < |act| ==> act[i] < |sizes|
    ensures |r| == |act| && forall i :: 0 <= i < |act| ==> r[i] == sizes[act[i]]
  {
    seq(|act|, i requires 0 <= i < |act| => sizes[act[i]])
  }

  // ---------------------------------------------------------------------
  // Finding the extremes
  // ---------------------------------------------------------------------

  /** The scan's result: the extreme size, the runner-up and the amount
      each extreme child should move by (`sizeToAdd`). */
  datatype Extremes = Extremes(first: real, second: real, toAdd: real)

  /** One child of the scan for the largest size. With `asWritten` the
      runner-up is folded with `Math.min`, as in the source. */
  function LargestStep(e: Extremes, size: real, asWritten: bool): Extremes
  {
    if ValueEquals(size, e.first) then e
    else
      var e1 := if size > e.first then Extremes(size, e.first, e.toAdd) else e;
      if size < e1.first then
        var second := if asWritten then Min(e1.second, size) else Max(e1.second, size);
        Extremes(e1.first, second, second - e1.first)
      else e1
  }

  /** The scan over the sizes in list order, starting from
      `largest = secondLargest = 0` and `sizeToAdd = sizeToDistribute`. */
  function ScanLargestWith(vals: seq<real>, sizeToDistribute: real, asWritten: bool): (r: Extremes)
    ensures 0.0 <= r.first && r.second <= r.first
    ensures r.toAdd == sizeToDistribute || r.toAdd <= 0.0
    ensures forall i :: 0 <= i < |vals| ==> vals[i] < r.first + TOLERANCE
  {
    if |vals| == 0 then Extremes(0.0, 0.0, sizeToDistribute)
    else
      var p := ScanLargestWith(vals[..|vals| - 1], sizeToDistribute, asWritten);
      assert forall i :: 0 <= i < |vals| - 1 ==> vals[..|vals| - 1][i] == vals[i];
      LargestStep(p, vals[|vals| - 1], asWritten)
  }

  /** The scan as the source writes it. */
  function ScanLargestAsWritten(vals: seq<real>, sizeToDistribute: real): Extremes
  {
    ScanLargestWith(vals, sizeToDistribute, true)
  }

  /** The scan with the runner-up folded by maximum, as evidently intended
      (the grow loop's mirror image). */
  function ScanLargest(vals: seq<real>, sizeToDistribute: real): Extremes
  {
    ScanLargestWith(vals, sizeToDistribute, false)
  }

  /** When the first child is the largest by at least `TOLERANCE` and no
      size is negative, the scan finds that child, and the runner-up is the
      largest of the other sizes: cutting by `sizeToAdd` brings the largest
      child exactly down to the runner-up. */
  lemma {:induction false} ScanLargestFindsRunnerUp(vals: seq<real>, sizeToDistribute: real)
    requires |vals| >= 2 && vals[0] >= TOLERANCE
    requires forall i :: 1 <= i < |vals| ==> 0.0 <= vals[i] && vals[i] + TOLERANCE <= vals[0]
    ensures var r := ScanLargest(vals, sizeToDistribute);
            && r.first == vals[0]
            && r.toAdd == r.second - r.first
            && (forall i :: 1 <= i < |vals| ==> vals[i] <= r.second)
            && (exists i :: 1 <= i < |vals| && r.second == vals[i])
  {
    var p := vals[..|vals| - 1];
    assert forall i :: 0 <= i < |p| ==> p[i] == vals[i];
    if |vals| == 2 {
      assert p[..0] == [];
      assert ScanLargestWith(p[..0], sizeToDistribute, false) == Extremes(0.0, 0.0, sizeToDistribute);
      assert !ValueEquals(vals[0], 0.0);
      assert ScanLargestWith(p, sizeToDistribute, false) == Extremes(vals[0], 0.0, sizeToDistribute);
    } else {
      ScanLargestFindsRunnerUp(p, sizeToDistribute);
    }
  }

  /** With the source's `Math.min`, sizes 10 and 8 give a runner-up of 0, so
      the largest child is asked to shrink by 10 (to 0, below the other
      child) instead of by 2 (to 8). */
  lemma ScanLargestAsWrittenSkipsRunnerUp()
    ensures ScanLargestAsWritten([10.0, 8.0], -100.0) == Extremes(10.0, 0.0, -10.0)
    ensures ScanLargest([10.0, 8.0], -100.0) == Extremes(10.0, 8.0, -2.0)
  {
    assert [10.0, 8.0][..1] == [10.0];
    assert [10.0][..0] == [];
  }

  /** Whatever the fold, a largest size met after a smaller one leaves the
      cut as it was: on sizes 8 then 10 both scans find 10 and 8 but keep
      `sizeToAdd` at `sizeToDistribute`, so the round falls back to an even
      share of the overflow. */
  lemma ScanLargestLateMaximumKeepsCut(sizeToDistribute: real)
    ensures ScanLargest([8.0, 10.0], sizeToDistribute) == Extremes(10.0, 8.0, sizeToDistribute)
    ensures ScanLargestAsWritten([8.0, 10.0], sizeToDistribute) == Extremes(10.0, 8.0, sizeToDistribute)
  {
    assert [8.0, 10.0][..1] == [8.0];
    assert [8.0][..0] == [];
    assert !ValueEquals(8.0, 0.0) && !ValueEquals(10.0, 8.0);
    assert ScanLargestWith([8.0], sizeToDistribute, false) == Extremes(8.0, 0.0, sizeToDistribute);
    assert ScanLargestWith([8.0], sizeToDistribute, true) == Extremes(8.0, 0.0, sizeToDistribute);
  }

  /** One child of the scan for the smallest size. */
  function SmallestStep(e: Extremes, size: real): Extremes
  {
    if ValueEquals(size, e.first) then e
    else
      var e1 := if size < e.first then Extremes(size, e.first, e.toAdd) else e;
      if size > e1.first then
        var second := Min(e1.second, size);
        Extremes(e1.first, second, second - e1.first)
      else e1
  }

  /** The scan over the sizes in list order, starting from
      `smallest = secondSmallest = Float.MAX_VALUE` and
      `sizeToAdd = sizeToDistribute`. */
  function ScanSmallest(vals: seq<real>, sizeToDistribute: real): (r: Extremes)
    ensures r.first <= FLOAT_MAX && r.first <= r.second
    ensures r.toAdd == sizeToDistribute || r.toAdd >= 0.0
    ensures forall i :: 0 <= i < |vals| ==> vals[i] > r.first - TOLERANCE
  {
    if |vals| == 0 then Extremes(FLOAT_MAX, FLOAT_MAX, sizeToDistribute)
    else
      var p := ScanSmallest(vals[..|vals| - 1], sizeToDistribute);
      assert forall i :: 0 <= i < |vals| - 1 ==> vals[..|vals| - 1][i] == vals[i];
      SmallestStep(p, vals[|vals| - 1])
  }

  // ---------------------------------------------------------------------
  // One round
  // ---------------------------------------------------------------------

  /** The list without the children `stop` marks, in order: the
      source removes them while it walks the list. */
  function Remove(act: seq<nat>, stop: seq<bool>): (r: seq<nat>)
    requires Positions(act, |stop|)
    ensures Positions(r, |stop|)
    ensures forall x :: x in r <==> x in act && !stop[x]
  {
    if |act| == 0 then []
    else
      var n := |act| - 1;
      var p := Remove(act[..n], stop);
      assert forall x :: x in act <==> x in act[..n] || x == act[n];
      assert forall m :: 0 <= m < |p| ==> p[m] < act[n] by {
        forall m | 0 <= m < |p|
          ensures p[m] < act[n]
        {
          assert p[m] in act[..n];
          var j :| 0 <= j < n && act[j] == p[m];
        }
      }
      p + (if stop[act[n]] then [] else [act[n]])
  }

  /** Whether a child takes part in a shrink round and is stopped by its
      minimum. */
  predicate PinnedLow(size: real, min: real, largest: real, add: real)
  {
    ValueEquals(size, largest) && size + add <= min
  }

  /** A child's size after a shrink round. */
  function ShrunkTo(size: real, min: real, largest: real, add: real): real
  {
    if !ValueEquals(size, largest) then size
    else if size + add <= min then min
    else size + add
  }

  /** `add` booked once for each of `n` children. */
  function Spread(n: nat, add: real): real
  {
    if n == 0 then 0.0 else Spread(n - 1, add) + add
  }

  /** Booking `add` for each of `n` children books `n * add`. */
  lemma {:induction false} SpreadIsProduct(n: nat, add: real)
    ensures Spread(n, add) == (n as real) * add
  {
    if n > 0 {
      SpreadIsProduct(n - 1, add);
      assert (n as real) * add == ((n - 1) as real) * add + add;
    }
  }

  /** A shrink round moves a child by `add` or less far down (or lifts it to
      its minimum). */
  lemma ShrunkByAtLeast(size: real, min: real, largest: real, add: real)
    ensures add <= 0.0 ==> ShrunkTo(size, min, largest, add) - size >= add
  {
  }

  /** One pass over the list: every child within tolerance of `largest`
      moves by `add`, or stops at its minimum and leaves the list; the
      change is booked against `sizeToDistribute`. */
  method ShrinkRound(sizes: seq<real>, mins: seq<real>, act: seq<nat>, largest: real, add: real, sizeToDistribute: real)
    returns (r: seq<real>, kept: seq<nat>, rest: real)
    requires |mins| == |sizes| && Positions(act, |sizes|)
    ensures |r| == |sizes|
    ensures Sum(r) + rest == Sum(sizes) + sizeToDistribute
    ensures forall k :: 0 <= k < |sizes| && k !in act ==> r[k] == sizes[k]
    ensures forall j :: 0 <= j < |act| ==> r[act[j]] == ShrunkTo(sizes[act[j]], mins[act[j]], largest, add)
    ensures Positions(kept, |sizes|) && forall j :: 0 <= j < |kept| ==> kept[j] in act
    ensures forall j :: 0 <= j < |act| ==> (act[j] in kept <==> !PinnedLow(sizes[act[j]], mins[act[j]], largest, add))
    ensures forall j :: 0 <= j < |act| && !ValueEquals(sizes[act[j]], largest) ==> r[act[j]] == sizes[act[j]]
    ensures forall j :: 0 <= j < |act| && ValueEquals(sizes[act[j]], largest) && act[j] in kept ==> r[act[j]] == sizes[act[j]] + add
    // every listed child moves by at least a non-positive `add`, so the round books no more than |act| cuts
    ensures add <= 0.0 ==> rest <= sizeToDistribute - Spread(|act|, add)
  {
    r, rest := sizes, sizeToDistribute;
    var i := 0;
    while i < |act|
      invariant 0 <= i <= |act|
      invariant |r| == |sizes|
      invariant Sum(r) + rest == Sum(sizes) + sizeToDistribute
      invariant forall k :: 0 <= k < |sizes| && k !in act ==> r[k] == sizes[k]
      invariant forall j :: i <= j < |act| ==> r[act[j]] == sizes[act[j]]
      invariant forall j :: 0 <= j < i ==> r[act[j]] == ShrunkTo(sizes[act[j]], mins[act[j]], largest, add)
      invariant add <= 0.0 ==> rest <= sizeToDistribute - Spread(i, add)
    {
      var k := act[i];
      assert forall j :: 0 <= j < i ==> act[j] < k;
      var size := r[k];
      var next := ShrunkTo(size, mins[k], largest, add);
      ShrunkByAtLeast(size, mins[k], largest, add);
      SumUpdate(r, k, next);
      rest := rest - (next - size);
      r := r[k := next];
      i := i + 1;
    }
    kept := Remove(act, seq(|sizes|, k requires 0 <= k < |sizes| => PinnedLow(sizes[k], mins[k], largest, add)));
  }

  /** Whether a child takes part in a grow round and is stopped by its
      maximum. */
  predicate PinnedHigh(size: real, max: real, smallest: real, add: real)
  {
    ValueEquals(size, smallest) && size + add >= max
  }

  /** A child's size after a grow round. */
  function GrownTo(size: real, max: real, smallest: real, add: real): real
  {
    if !ValueEquals(size, smallest) then size
    else if size + add >= max then max
    else size + add
  }

  /** A grow round moves a child up by `add` at most (or cuts it to its
      maximum). */
  lemma GrownByAtMost(size: real, max: real, smallest: real, add: real)
    ensures add >= 0.0 ==> GrownTo(size, max, smallest, add) - size <= add
  {
  }

  /** One pass of the grow loop: the mirror image of `ShrinkRound`. */
  method GrowRound(sizes: seq<real>, maxes: seq<real>, act: seq<nat>, smallest: real, add: real, sizeToDistribute: real)
    returns (r: seq<real>, kept: seq<nat>, rest: real)
    requires |maxes| == |sizes| && Positions(act, |sizes|)
    ensures |r| == |sizes|
    ensures Sum(r) + rest == Sum(sizes) + sizeToDistribute
    ensures forall k :: 0 <= k < |sizes| && k !in act ==> r[k] == sizes[k]
    ensures forall j :: 0 <= j < |act| ==> r[act[j]] == GrownTo(sizes[act[j]], maxes[act[j]], smallest, add)
    ensures Positions(kept, |sizes|) && forall j :: 0 <= j < |kept| ==> kept[j] in act
    ensures forall j :: 0 <= j < |act| ==> (act[j] in kept <==> !PinnedHigh(sizes[act[j]], maxes[act[j]], smallest, add))
    ensures forall j :: 0 <= j < |act| && !ValueEquals(sizes[act[j]], smallest) ==> r[act[j]] == sizes[act[j]]
    ensures forall j :: 0 <= j < |act| && ValueEquals(sizes[act[j]], smallest) && act[j] in kept ==> r[act[j]] == sizes[act[j]] + add
    // every listed child moves by at most a non-negative `add`
    ensures add >= 0.0 ==> rest >= sizeToDistribute - Spread(|act|, add)
  {
    r, rest := sizes, sizeToDistribute;
    var i := 0;
    while i < |act|
      invariant 0 <= i <= |act|
      invariant |r| == |sizes|
      invariant Sum(r) + rest == Sum(sizes) + sizeToDistribute
      invariant forall k :: 0 <= k < |sizes| && k !in act ==> r[k] == sizes[k]
      invariant forall j :: i <= j < |act| ==> r[act[j]] == sizes[act[j]]
      invariant forall j :: 0 <= j < i ==> r[act[j]] == GrownTo(sizes[act[j]], maxes[act[j]], smallest, add)
      invariant add >= 0.0 ==> rest >= sizeToDistribute - Spread(i, add)
    {
      var k := act[i];
      assert forall j :: 0 <= j < i ==> act[j] < k;
      var size := r[k];
      var next := GrownTo(size, maxes[k], smallest, add);
      GrownByAtMost(size, maxes[k], smallest, add);
      SumUpdate(r, k, next);
      rest := rest - (next - size);
      r := r[k := next];
      i := i + 1;
    }
    kept := Remove(act, seq(|sizes|, k requires 0 <= k < |sizes| => PinnedHigh(sizes[k], maxes[k], smallest, add)));
  }

  // ---------------------------------------------------------------------
  // The loops
  // ---------------------------------------------------------------------

  /** A move of at least an even share per child covers the whole amount:
      with `n` children, `add >= rest / n` books at least `rest` in all,
      and `add <= rest / n` at most `rest`. */
  lemma EvenShareCovers(rest: real, add: real, n: nat)
    requires n > 0
    ensures add >= rest / n as real ==> Spread(n, add) >= rest
    ensures add <= rest / n as real ==> Spread(n, add) <= rest
  {
    SpreadIsProduct(n, add);
    var m := n as real;
    assert m * (rest / m) == rest;
    assert m * add - m * (rest / m) == m * (add - rest / m);
  }

  /** The shrink loop (`sizeToDistribute < 0`). Sizes plus what is left to
      distribute keep their sum; only listed children change; a changed
      child is never below its minimum, and only rises when it is lifted to
      its minimum; a child drops off the list only at its minimum; the loop
      ends converged exactly when the overflow is within tolerance or the
      list is empty, and it never overshoots: the overflow left is never
      positive. `asWritten` picks the runner-up scan of each round: the
      source's `Math.min` fold, or the evidently intended maximum; every
      clause holds of both. */
  method ShrinkLargest(sizes: seq<real>, mins: seq<real>, act0: seq<nat>, sizeToDistribute: real, asWritten: bool, fuel: nat)
    returns (r: seq<real>, act: seq<nat>, rest: real, converged: bool)
    requires |mins| == |sizes| && Positions(act0, |sizes|)
    ensures |r| == |sizes|
    ensures Sum(r) + rest == Sum(sizes) + sizeToDistribute
    ensures forall k :: 0 <= k < |sizes| && k !in act0 ==> r[k] == sizes[k]
    ensures forall k :: 0 <= k < |sizes| && r[k] != sizes[k] ==> r[k] >= mins[k]
    ensures forall k :: 0 <= k < |sizes| && r[k] > sizes[k] ==> r[k] == mins[k]
    ensures Positions(act, |sizes|) && forall j :: 0 <= j < |act| ==> act[j] in act0
    ensures forall k :: k in act0 && k !in act ==> r[k] == mins[k]
    ensures converged <==> rest >= -TOLERANCE || |act| == 0
    ensures sizeToDistribute < 0.0 ==> rest <= 0.0
    ensures sizeToDistribute >= -TOLERANCE ==> r == sizes && rest == sizeToDistribute && converged
  {
    r, act, rest := sizes, act0, sizeToDistribute;
    var f := fuel;
    while f > 0 && rest < -TOLERANCE && |act| > 0
      invariant ShrinkInv(sizes, mins, act0, sizeToDistribute, r, act, rest)
      decreases f
    {
      r, act, rest := ShrinkOnce(sizes, mins, act0, sizeToDistribute, asWritten, r, act, rest);
      f := f - 1;
    }
    converged := rest >= -TOLERANCE || |act| == 0;
  }

  /** What every round of the shrink loop keeps. */
  ghost predicate ShrinkInv(sizes: seq<real>, mins: seq<real>, act0: seq<nat>, sizeToDistribute: real,
                            r: seq<real>, act: seq<nat>, rest: real)
  {
    && |mins| == |sizes| && Positions(act0, |sizes|)
    && |r| == |sizes|
    && Sum(r) + rest == Sum(sizes) + sizeToDistribute
    && (forall k :: 0 <= k < |sizes| && k !in act0 ==> r[k] == sizes[k])
    && (forall k :: 0 <= k < |sizes| && r[k] != sizes[k] ==> r[k] >= mins[k])
    && (forall k :: 0 <= k < |sizes| && r[k] > sizes[k] ==> r[k] == mins[k])
    && Positions(act, |sizes|) && (forall j :: 0 <= j < |act| ==> act[j] in act0)
    && (forall k :: k in act0 && k !in act ==> r[k] == mins[k])
    && (sizeToDistribute < 0.0 ==> rest <= 0.0)
    && (sizeToDistribute >= -TOLERANCE ==> r == sizes && rest == sizeToDistribute)
  }

  /** One round of the shrink loop. */
  method ShrinkOnce(sizes: seq<real>, mins: seq<real>, act0: seq<nat>, sizeToDistribute: real, asWritten: bool,
                    r: seq<real>, act: seq<nat>, rest: real)
    returns (r': seq<real>, act': seq<nat>, rest': real)
    requires ShrinkInv(sizes, mins, act0, sizeToDistribute, r, act, rest)
    requires rest < -TOLERANCE && |act| > 0
    ensures ShrinkInv(sizes, mins, act0, sizeToDistribute, r', act', rest')
  {
    var e := ScanLargestWith(Values(r, act), rest, asWritten);
    var add := Max(e.toAdd, rest / |act| as real);
    assert add <= 0.0;
    r', act', rest' := ShrinkRound(r, mins, act, e.first, add, rest);
    EvenShareCovers(rest, add, |act|);
    ShrinkRoundKeepsInv(sizes, mins, act0, sizeToDistribute, r, act, rest, e.first, add, r', act', rest');
  }

  /** A shrink round from a state that satisfies `ShrinkInv`, with a cut
      that covers the overflow, leads to a state that satisfies it again. */
  lemma ShrinkRoundKeepsInv(sizes: seq<real>, mins: seq<real>, act0: seq<nat>, sizeToDistribute: real,
                            r: seq<real>, act: seq<nat>, rest: real, largest: real, add: real,
                            r': seq<real>, act': seq<nat>, rest': real)
    requires ShrinkInv(sizes, mins, act0, sizeToDistribute, r, act, rest)
    requires rest < -TOLERANCE && add <= 0.0 && Spread(|act|, add) >= rest
    requires |r'| == |r| && Sum(r') + rest' == Sum(r) + rest
    requires rest' <= rest - Spread(|act|, add)
    requires forall k :: 0 <= k < |r| && k !in act ==> r'[k] == r[k]
    requires forall j :: 0 <= j < |act| ==> r'[act[j]] == ShrunkTo(r[act[j]], mins[act[j]], largest, add)
    requires Positions(act', |r|) && forall j :: 0 <= j < |act'| ==> act'[j] in act
    requires forall j :: 0 <= j < |act| ==> (act[j] in act' <==> !PinnedLow(r[act[j]], mins[act[j]], largest, add))
    ensures ShrinkInv(sizes, mins, act0, sizeToDistribute, r', act', rest')
  {
    forall k | 0 <= k < |sizes| && r'[k] != r[k]
      ensures k in act && r'[k] >= mins[k] && (r'[k] > r[k] ==> r'[k] == mins[k])
    {
      var j :| 0 <= j < |act| && act[j] == k;
      assert r'[k] == ShrunkTo(r[k], mins[k], largest, add);
    }
    forall k | k in act0 && k !in act'
      ensures r'[k] == mins[k]
    {
      if k in act {
        var j :| 0 <= j < |act| && act[j] == k;
        assert PinnedLow(r[k], mins[k], largest, add);
      }
    }
  }

  /** The grow loop (`sizeToDistribute > 0`), over the GROW children only:
      the mirror image of `ShrinkLargest`, bounded above by each child's
      maximum, and never leaving a negative amount to distribute. */
  method GrowSmallest(sizes: seq<real>, maxes: seq<real>, act0: seq<nat>, sizeToDistribute: real, fuel: nat)
    returns (r: seq<real>, act: seq<nat>, rest: real, converged: bool)
    requires |maxes| == |sizes| && Positions(act0, |sizes|)
    ensures |r| == |sizes|
    ensures Sum(r) + rest == Sum(sizes) + sizeToDistribute
    ensures forall k :: 0 <= k < |sizes| && k !in act0 ==> r[k] == sizes[k]
    ensures forall k :: 0 <= k < |sizes| && r[k] != sizes[k] ==> r[k] <= maxes[k]
    ensures forall k :: 0 <= k < |sizes| && r[k] < sizes[k] ==> r[k] == maxes[k]
    ensures Positions(act, |sizes|) && forall j :: 0 <= j < |act| ==> act[j] in act0
    ensures forall k :: k in act0 && k !in act ==> r[k] == maxes[k]
    ensures converged <==> rest <= TOLERANCE || |act| == 0
    ensures sizeToDistribute > 0.0 ==> rest >= 0.0
    ensures sizeToDistribute <= TOLERANCE ==> r == sizes && rest == sizeToDistribute && converged
  {
    r, act, rest := sizes, act0, sizeToDistribute;
    var f := fuel;
    while f > 0 && rest > TOLERANCE && |act| > 0
      invariant GrowInv(sizes, maxes, act0, sizeToDistribute, r, act, rest)
      decreases f
    {
      r, act, rest := GrowOnce(sizes, maxes, act0, sizeToDistribute, r, act, rest);
      f := f - 1;
    }
    converged := rest <= TOLERANCE || |act| == 0;
  }

  /** What every round of the grow loop keeps. */
  ghost predicate GrowInv(sizes: seq<real>, maxes: seq<real>, act0: seq<nat>, sizeToDistribute: real,
                          r: seq<real>, act: seq<nat>, rest: real)
  {
    && |maxes| == |sizes| && Positions(act0, |sizes|)
    && |r| == |sizes|
    && Sum(r) + rest == Sum(sizes) + sizeToDistribute
    && (forall k :: 0 <= k < |sizes| && k !in act0 ==> r[k] == sizes[k])
    && (forall k :: 0 <= k < |sizes| && r[k] != sizes[k] ==> r[k] <= maxes[k])
    && (forall k :: 0 <= k < |sizes| && r[k] < sizes[k] ==> r[k] == maxes[k])
    && Positions(act, |sizes|) && (forall j :: 0 <= j < |act| ==> act[j] in act0)
    && (forall k :: k in act0 && k !in act ==> r[k] == maxes[k])
    && (sizeToDistribute > 0.0 ==> rest >= 0.0)
    && (sizeToDistribute <= TOLERANCE ==> r == sizes && rest == sizeToDistribute)
  }

  /** One round of the grow loop. */
  method GrowOnce(sizes: seq<real>, maxes: seq<real>, act0: seq<nat>, sizeToDistribute: real,
                  r: seq<real>, act: seq<nat>, rest: real)
    returns (r': seq<real>, act': seq<nat>, rest': real)
    requires GrowInv(sizes, maxes, act0, sizeToDistribute, r, act, rest)
    requires rest > TOLERANCE && |act| > 0
    ensures GrowInv(sizes, maxes, act0, sizeToDistribute, r', act', rest')
  {
    var e := ScanSmallest(Values(r, act), rest);
    var add := Min(e.toAdd, rest / |act| as real);
    assert add >= 0.0;
    r', act', rest' := GrowRound(r, maxes, act, e.first, add, rest);
    EvenShareCovers(rest, add, |act|);
    GrowRoundKeepsInv(sizes, maxes, act0, sizeToDistribute, r, act, rest, e.first, add, r', act', rest');
  }

  /** The grow loop's mirror of `ShrinkRoundKeepsInv`. */
  lemma GrowRoundKeepsInv(sizes: seq<real>, maxes: seq<real>, act0: seq<nat>, sizeToDistribute: real,
                          r: seq<real>, act: seq<nat>, rest: real, smallest: real, add: real,
                          r': seq<real>, act': seq<nat>, rest': real)
    requires GrowInv(sizes, maxes, act0, sizeToDistribute, r, act, rest)
    requires rest > TOLERANCE && add >= 0.0 && Spread(|act|, add) <= rest
    requires |r'| == |r| && Sum(r') + rest' == Sum(r) + rest
    requires rest' >= rest - Spread(|act|, add)
    requires forall k :: 0 <= k < |r| && k !in act ==> r'[k] == r[k]
    requires forall j :: 0 <= j < |act| ==> r'[act[j]] == GrownTo(r[act[j]], maxes[act[j]], smallest, add)
    requires Positions(act', |r|) && forall j :: 0 <= j < |act'| ==> act'[j] in act
    requires forall j :: 0 <= j < |act| ==> (act[j] in act' <==> !PinnedHigh(r[act[j]], maxes[act[j]], smallest, add))
    ensures GrowInv(sizes, maxes, act0, sizeToDistribute, r', act', rest')
  {
    forall k | 0 <= k < |sizes| && r'[k] != r[k]
      ensures k in act && r'[k] <= maxes[k] && (r'[k] < r[k] ==> r'[k] == maxes[k])
    {
      var j :| 0 <= j < |act| && act[j] == k;
      assert r'[k] == GrownTo(r[k], maxes[k], smallest, add);
    }
    forall k | k in act0 && k !in act'
      ensures r'[k] == maxes[k]
    {
      if k in act {
        var j :| 0 <= j < |act| && act[j] == k;
        assert PinnedHigh(r[k], maxes[k], smallest, add);
      }
    }
  }

}
