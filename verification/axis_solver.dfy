/** `sizeContainersAlongAxis`: after the tree is closed, every parent hands
    its inner size to its children along one axis. Percentage children get
    their share first; then, when the parent lays its children out along
    this axis, an overflow is taken away from the largest resizable
    children (unless the parent clips on this axis) and spare room is given
    to the smallest GROW children. Across the layout direction the source
    computes clamped sizes but never stores them, so only percentage
    children change there. Every method of the pass takes `asWritten`,
    which picks the shrink loop's runner-up scan (the source's `Math.min`
    or the evidently intended maximum); their contracts hold of both. */
module AxisSolver {
  import opened Wrappers
  import opened Numbers
  import opened Sizings
  import opened Layouts
  import opened Elements
  import opened Leveling

  // ---------------------------------------------------------------------
  // Classifying children
  // ---------------------------------------------------------------------

  predicate IsPercentage(e: Element, axis: Axis)
  {
    SizingAlong(e.layout, axis).Percentage?
  }

  predicate IsGrow(e: Element, axis: Axis)
  {
    TypeOf(SizingAlong(e.layout, axis)) == GrowType
  }

  /** Whether the leveling loops may change the child: its sizing is
      neither a percentage nor fixed, and it has no text configuration
      that wraps other than by words. */
  predicate Resizable(e: Element, axis: Axis)
  {
    var t := TypeOf(SizingAlong(e.layout, axis));
    && t != PercentageType && t != FixedType
    && match ConfigOf(e.layout, TextKind)
       case Some(Text(_, _, _, _, _, wrapMode, _)) => wrapMode == WrapWords
       case _ => true
  }

  predicate HasGrowable(kids: seq<Element>, axis: Axis)
  {
    exists k :: 0 <= k < |kids| && IsGrow(kids[k], axis)
  }

  /** The upper bound the grow loop stops a child at. */
  function MaxAlong(e: Element, axis: Axis): real
  {
    match SizingAlong(e.layout, axis)
    case MinMax(_, _, hi) => hi
    case Percentage(_) => 0.0
  }

  /** Each child's size along the axis, with percentage children counted as
      zero: what the source sums into `innerSize` before percentages are
      resolved, and what the leveling loops operate on. */
  function Counted(kids: seq<Element>, axis: Axis): (r: seq<real>)
    ensures |r| == |kids|
    ensures forall k :: 0 <= k < |kids| ==> r[k] == if IsPercentage(kids[k], axis) then 0.0 else Size(DimsOf(kids[k]), axis)
  {
    seq(|kids|, k requires 0 <= k < |kids| =>
      if IsPercentage(kids[k], axis) then 0.0 else Size(DimsOf(kids[k]), axis))
  }

  function Mins(kids: seq<Element>, axis: Axis): (r: seq<real>)
    ensures |r| == |kids| && forall k :: 0 <= k < |kids| ==> r[k] == MinSize(DimsOf(kids[k]), axis)
  {
    seq(|kids|, k requires 0 <= k < |kids| => MinSize(DimsOf(kids[k]), axis))
  }

  function Maxes(kids: seq<Element>, axis: Axis): (r: seq<real>)
    ensures |r| == |kids| && forall k :: 0 <= k < |kids| ==> r[k] == MaxAlong(kids[k], axis)
  {
    seq(|kids|, k requires 0 <= k < |kids| => MaxAlong(kids[k], axis))
  }

  /** The `resizeable` list built by the pre-pass: the resizable children,
      in child order. */
  function ResizablePositions(kids: seq<Element>, axis: Axis): (r: seq<nat>)
    ensures Positions(r, |kids|)
    ensures forall k :: 0 <= k < |kids| ==> (k in r <==> Resizable(kids[k], axis))
  {
    if |kids| == 0 then []
    else
      var n := |kids| - 1;
      var p := ResizablePositions(kids[..n], axis);
      assert forall k :: 0 <= k < n ==> kids[..n][k] == kids[k];
      p + (if Resizable(kids[n], axis) then [n] else [])
  }

  /** The grow pass first drops every child that is not GROW. */
  function GrowFilter(kids: seq<Element>, act: seq<nat>, axis: Axis): (r: seq<nat>)
    requires Positions(act, |kids|)
    ensures Positions(r, |kids|)
    ensures forall k :: k in r <==> k in act && IsGrow(kids[k], axis)
  {
    if |act| == 0 then []
    else
      var n := |act| - 1;
      var p := GrowFilter(kids, act[..n], axis);
      assert forall k :: k in act <==> k in act[..n] || k == act[n];
      assert forall m :: 0 <= m < |p| ==> p[m] < act[n] by {
        forall m | 0 <= m < |p|
          ensures p[m] < act[n]
        {
          assert p[m] in act[..n];
          var j :| 0 <= j < n && act[j] == p[m];
        }
      }
      p + (if IsGrow(kids[act[n]], axis) then [act[n]] else [])
  }

  // ---------------------------------------------------------------------
  // Percentage children
  // ---------------------------------------------------------------------

  predicate Along(parent: Element, axis: Axis)
  {
    MainAxis(parent.layout.layoutDirection) == axis
  }

  /** The room percentages are taken of: the parent's size less its
      padding, and less the gaps between children when sizing along the
      layout direction. */
  function PercentBase(parent: Element, n: nat, axis: Axis): real
  {
    Size(DimsOf(parent), axis) - PaddingAlong(parent.layout.padding, axis)
      - (if Along(parent, axis) then TotalGaps(n, parent.layout.childGap) else 0.0)
  }

  /** The size each percentage child is given (zero for the others). */
  function PercentTargets(parent: Element, kids: seq<Element>, axis: Axis): (r: seq<real>)
    ensures |r| == |kids|
  {
    seq(|kids|, k requires 0 <= k < |kids| =>
      match SizingAlong(kids[k].layout, axis)
      case Percentage(p) => PercentBase(parent, |kids|, axis) * p
      case MinMax(_, _, _) => 0.0)
  }

  /** Resizing one child along the axis, keeping its minimum. */
  function Resized(e: Element, axis: Axis, size: real): (r: Element)
    ensures Size(DimsOf(r), axis) == size
    ensures Size(DimsOf(r), Other(axis)) == Size(DimsOf(e), Other(axis))
    ensures r.minWidth == e.minWidth && r.minHeight == e.minHeight
  {
    var d := DimsOf(e);
    WithDims(e, WithAxis(d, axis, size, MinSize(d, axis)))
  }

  lemma ResizedToOwnSize(e: Element, axis: Axis)
    ensures Resized(e, axis, Size(DimsOf(e), axis)) == e
  {
    match axis
    case X =>
    case Y =>
  }

  /** A percentage child given its share of `base` along the axis, with its
      aspect ratio then applied. */
  function Share(e: Element, axis: Axis, base: real): (r: Element)
    requires IsPercentage(e, axis)
    ensures r.layout == e.layout && r.minWidth == e.minWidth && r.minHeight == e.minHeight
    ensures AspectRatioOf(e.layout).None? ==>
              Size(DimsOf(r), axis) == base * SizingAlong(e.layout, axis).percentage
              && Size(DimsOf(r), Other(axis)) == Size(DimsOf(e), Other(axis))
  {
    WithDims(e, UpdateAspectRatio(e.layout, DimsOf(Resized(e, axis, base * SizingAlong(e.layout, axis).percentage))))
  }

  /** The second loop of the source: every percentage child is set to its
      share and then has its aspect ratio applied; nothing else changes. */
  function Expand(parent: Element, kids: seq<Element>, axis: Axis): (r: seq<Element>)
    ensures |r| == |kids|
    ensures forall k :: 0 <= k < |kids| && IsPercentage(kids[k], axis) ==>
              r[k] == Share(kids[k], axis, PercentBase(parent, |kids|, axis))
    ensures forall k :: 0 <= k < |kids| && !IsPercentage(kids[k], axis) ==> r[k] == kids[k]
    ensures forall k :: 0 <= k < |kids| ==> r[k].layout == kids[k].layout
    ensures forall k :: 0 <= k < |kids| ==> r[k].minWidth == kids[k].minWidth && r[k].minHeight == kids[k].minHeight
  {
    var base := PercentBase(parent, |kids|, axis);
    seq(|kids|, k requires 0 <= k < |kids| =>
      if IsPercentage(kids[k], axis) then Share(kids[k], axis, base) else kids[k])
  }

  /** `parentSize - parentPadding - innerSize` along the layout direction:
      the parent's room less its padding, the gaps, the non-percentage
      children and the percentage children's shares. */
  function SizeToDistribute(parent: Element, kids: seq<Element>, axis: Axis): real
  {
    Size(DimsOf(parent), axis) - PaddingAlong(parent.layout.padding, axis)
      - (Sum(Counted(kids, axis)) + TotalGaps(|kids|, parent.layout.childGap) + Sum(PercentTargets(parent, kids, axis)))
  }

  // ---------------------------------------------------------------------
  // Leveling
  // ---------------------------------------------------------------------

  /** Which of the source's branches ran for one parent. */
  datatype Outcome =
    | Untouched
    | Clipped
    | Shrunk(rest: real, left: seq<nat>, converged: bool)
    | Grown(rest: real, left: seq<nat>, converged: bool)

  /** What the shrink pass promises about each child: only resizable
      children change, never to below their minimum, rising only when lifted
      to it; a resizable child that left the list sits at its minimum. */
  ghost predicate Shrinks(kids: seq<Element>, out: seq<Element>, axis: Axis, left: seq<nat>)
    requires |out| == |kids|
  {
    && Positions(left, |kids|)
    && forall k :: 0 <= k < |kids| ==>
         var before := Size(DimsOf(kids[k]), axis);
         var after := Size(DimsOf(out[k]), axis);
         var min := MinSize(DimsOf(kids[k]), axis);
         && (after != before ==> Resizable(kids[k], axis) && after >= min)
         && (after > before ==> after == min)
         && (k in left ==> Resizable(kids[k], axis))
         && (Resizable(kids[k], axis) && k !in left ==> after == min)
  }

  /** The mirror image for the grow pass: only resizable GROW children
      change, never to above their maximum. */
  ghost predicate Grows(kids: seq<Element>, out: seq<Element>, axis: Axis, left: seq<nat>)
    requires |out| == |kids|
  {
    && Positions(left, |kids|)
    && forall k :: 0 <= k < |kids| ==>
         var before := Size(DimsOf(kids[k]), axis);
         var after := Size(DimsOf(out[k]), axis);
         var max := MaxAlong(kids[k], axis);
         && (after != before ==> Resizable(kids[k], axis) && IsGrow(kids[k], axis) && after <= max)
         && (after < before ==> after == max)
         && (k in left ==> Resizable(kids[k], axis) && IsGrow(kids[k], axis))
         && (Resizable(kids[k], axis) && IsGrow(kids[k], axis) && k !in left ==> after == max)
  }

  /** The contract of the leveling step of one parent, for children whose
      percentages are already resolved and an amount `std` to distribute.
      Neither loop overshoots: a shrink leaves no positive overflow, a grow
      no negative slack. */
  ghost predicate LevelSpec(parent: Element, kids: seq<Element>, out: seq<Element>, axis: Axis, std: real, outcome: Outcome)
  {
    var along := Along(parent, axis);
    var clips := ClipsAlong(parent.clipsHorizontal, parent.clipsVertical, axis);
    && |out| == |kids|
    && (forall k :: 0 <= k < |kids| ==> out[k] == Resized(kids[k], axis, Size(DimsOf(out[k]), axis)))
    && (forall k :: 0 <= k < |kids| && IsPercentage(kids[k], axis) ==> out[k] == kids[k])
    && (outcome.Shrunk? <==> along && std < 0.0 && !clips)
    && (outcome.Clipped? <==> along && std < 0.0 && clips)
    && (outcome.Grown? <==> along && std > 0.0 && HasGrowable(kids, axis))
    && (outcome.Untouched? || outcome.Clipped? ==> out == kids)
    && (outcome.Shrunk? || outcome.Grown? ==>
          Sum(Counted(out, axis)) + outcome.rest == Sum(Counted(kids, axis)) + std)
    && (outcome.Shrunk? ==>
          && Shrinks(kids, out, axis, outcome.left)
          && (outcome.converged <==> outcome.rest >= -TOLERANCE || |outcome.left| == 0)
          && outcome.rest <= 0.0
          && (std >= -TOLERANCE ==> out == kids))
    && (outcome.Grown? ==>
          && Grows(kids, out, axis, outcome.left)
          && (outcome.converged <==> outcome.rest <= TOLERANCE || |outcome.left| == 0)
          && outcome.rest >= 0.0
          && (std <= TOLERANCE ==> out == kids))
  }

  /** Writes leveled sizes back to the non-percentage children. */
  function WriteBack(kids: seq<Element>, r: seq<real>, axis: Axis): (out: seq<Element>)
    requires |r| == |kids|
    ensures |out| == |kids|
    ensures forall k :: 0 <= k < |kids| ==>
              out[k] == if IsPercentage(kids[k], axis) then kids[k] else Resized(kids[k], axis, r[k])
  {
    seq(|kids|, k requires 0 <= k < |kids| =>
      if IsPercentage(kids[k], axis) then kids[k] else Resized(kids[k], axis, r[k]))
  }

  lemma WriteBackCounted(kids: seq<Element>, r: seq<real>, axis: Axis)
    requires |r| == |kids|
    requires forall k :: 0 <= k < |kids| && IsPercentage(kids[k], axis) ==> r[k] == 0.0
    ensures Counted(WriteBack(kids, r, axis), axis) == r
  {
    var out := WriteBack(kids, r, axis);
    forall k | 0 <= k < |kids|
      ensures Counted(out, axis)[k] == r[k]
    {
      assert out[k].layout == kids[k].layout;
    }
  }

  lemma WriteBackUnchanged(kids: seq<Element>, axis: Axis)
    ensures WriteBack(kids, Counted(kids, axis), axis) == kids
  {
    forall k | 0 <= k < |kids| && !IsPercentage(kids[k], axis)
      ensures Resized(kids[k], axis, Counted(kids, axis)[k]) == kids[k]
    {
      ResizedToOwnSize(kids[k], axis);
    }
  }

  /** The leveling step: the shrink loop on an overflow (skipped when the
      parent clips on the axis), the grow loop on spare room when some
      child is GROW, and nothing across the layout direction. */
  method Level(parent: Element, kids: seq<Element>, axis: Axis, std: real, asWritten: bool, fuel: nat)
    returns (out: seq<Element>, outcome: Outcome)
    ensures LevelSpec(parent, kids, out, axis, std, outcome)
  {
    var clips := ClipsAlong(parent.clipsHorizontal, parent.clipsVertical, axis);
    if Along(parent, axis) && std < 0.0 && !clips {
      out, outcome := LevelShrink(parent, kids, axis, std, asWritten, fuel);
    } else if Along(parent, axis) && std > 0.0 && HasGrowable(kids, axis) {
      out, outcome := LevelGrow(parent, kids, axis, std, fuel);
    } else {
      out := kids;
      outcome := if Along(parent, axis) && std < 0.0 then Clipped else Untouched;
      UnchangedMeetsSpec(parent, kids, axis, std, outcome);
    }
  }

  /** Children left as they are meet the contract when neither loop runs. */
  lemma UnchangedMeetsSpec(parent: Element, kids: seq<Element>, axis: Axis, std: real, outcome: Outcome)
    requires var clips := ClipsAlong(parent.clipsHorizontal, parent.clipsVertical, axis);
             && !(Along(parent, axis) && std < 0.0 && !clips)
             && !(Along(parent, axis) && std > 0.0 && HasGrowable(kids, axis))
             && outcome == if Along(parent, axis) && std < 0.0 then Clipped else Untouched
    ensures LevelSpec(parent, kids, kids, axis, std, outcome)
  {
    forall k | 0 <= k < |kids|
      ensures kids[k] == Resized(kids[k], axis, Size(DimsOf(kids[k]), axis))
    {
      ResizedToOwnSize(kids[k], axis);
    }
  }

  /** The overflow branch of a non-clipping parent. */
  method LevelShrink(parent: Element, kids: seq<Element>, axis: Axis, std: real, asWritten: bool, fuel: nat)
    returns (out: seq<Element>, outcome: Outcome)
    requires Along(parent, axis) && std < 0.0 && !ClipsAlong(parent.clipsHorizontal, parent.clipsVertical, axis)
    ensures LevelSpec(parent, kids, out, axis, std, outcome)
  {
    var act := ResizablePositions(kids, axis);
    var r, left, rest, converged := ShrinkLargest(Counted(kids, axis), Mins(kids, axis), act, std, asWritten, fuel);
    out := WriteBack(kids, r, axis);
    outcome := Shrunk(rest, left, converged);
    ShrunkMeetsSpec(parent, kids, axis, std, act, r, left, rest, converged);
  }

  /** The shrink loop's results, written back, meet the contract. */
  lemma ShrunkMeetsSpec(parent: Element, kids: seq<Element>, axis: Axis, std: real, act: seq<nat>,
                        r: seq<real>, left: seq<nat>, rest: real, converged: bool)
    requires Along(parent, axis) && std < 0.0 && !ClipsAlong(parent.clipsHorizontal, parent.clipsVertical, axis)
    requires act == ResizablePositions(kids, axis)
    requires var sizes := Counted(kids, axis);
             var mins := Mins(kids, axis);
             && |r| == |sizes|
             && Sum(r) + rest == Sum(sizes) + std
             && (forall k :: 0 <= k < |sizes| && k !in act ==> r[k] == sizes[k])
             && (forall k :: 0 <= k < |sizes| && r[k] != sizes[k] ==> r[k] >= mins[k])
             && (forall k :: 0 <= k < |sizes| && r[k] > sizes[k] ==> r[k] == mins[k])
             && Positions(left, |sizes|) && (forall j :: 0 <= j < |left| ==> left[j] in act)
             && (forall k :: k in act && k !in left ==> r[k] == mins[k])
             && (converged <==> rest >= -TOLERANCE || |left| == 0)
             && rest <= 0.0
             && (std >= -TOLERANCE ==> r == sizes)
    ensures LevelSpec(parent, kids, WriteBack(kids, r, axis), axis, std, Shrunk(rest, left, converged))
  {
    var out := WriteBack(kids, r, axis);
    WriteBackCounted(kids, r, axis);
    WriteBackShape(kids, r, axis);
    if std >= -TOLERANCE {
      WriteBackUnchanged(kids, axis);
    }
    ShrinkMeets(kids, out, axis, act, r, left);
  }

  /** The spare-room branch of a parent with a GROW child. */
  method LevelGrow(parent: Element, kids: seq<Element>, axis: Axis, std: real, fuel: nat)
    returns (out: seq<Element>, outcome: Outcome)
    requires Along(parent, axis) && std > 0.0 && HasGrowable(kids, axis)
    ensures LevelSpec(parent, kids, out, axis, std, outcome)
  {
    var act := ResizablePositions(kids, axis);
    var growing := GrowFilter(kids, act, axis);
    var r, left, rest, converged := GrowSmallest(Counted(kids, axis), Maxes(kids, axis), growing, std, fuel);
    out := WriteBack(kids, r, axis);
    outcome := Grown(rest, left, converged);
    GrownMeetsSpec(parent, kids, axis, std, act, growing, r, left, rest, converged);
  }

  /** The grow loop's results, written back, meet the contract. */
  lemma GrownMeetsSpec(parent: Element, kids: seq<Element>, axis: Axis, std: real, act: seq<nat>, growing: seq<nat>,
                       r: seq<real>, left: seq<nat>, rest: real, converged: bool)
    requires Along(parent, axis) && std > 0.0 && HasGrowable(kids, axis)
    requires act == ResizablePositions(kids, axis) && growing == GrowFilter(kids, act, axis)
    requires var sizes := Counted(kids, axis);
             var maxes := Maxes(kids, axis);
             && |r| == |sizes|
             && Sum(r) + rest == Sum(sizes) + std
             && (forall k :: 0 <= k < |sizes| && k !in growing ==> r[k] == sizes[k])
             && (forall k :: 0 <= k < |sizes| && r[k] != sizes[k] ==> r[k] <= maxes[k])
             && (forall k :: 0 <= k < |sizes| && r[k] < sizes[k] ==> r[k] == maxes[k])
             && Positions(left, |sizes|) && (forall j :: 0 <= j < |left| ==> left[j] in growing)
             && (forall k :: k in growing && k !in left ==> r[k] == maxes[k])
             && (converged <==> rest <= TOLERANCE || |left| == 0)
             && rest >= 0.0
             && (std <= TOLERANCE ==> r == sizes)
    ensures LevelSpec(parent, kids, WriteBack(kids, r, axis), axis, std, Grown(rest, left, converged))
  {
    var out := WriteBack(kids, r, axis);
    WriteBackCounted(kids, r, axis);
    WriteBackShape(kids, r, axis);
    if std <= TOLERANCE {
      WriteBackUnchanged(kids, axis);
    }
    GrowMeets(kids, out, axis, act, growing, r, left);
  }

  /** Written-back children differ from the originals only along the axis,
      and percentage children not at all. */
  lemma WriteBackShape(kids: seq<Element>, r: seq<real>, axis: Axis)
    requires |r| == |kids|
    ensures var out := WriteBack(kids, r, axis);
            && (forall k :: 0 <= k < |kids| ==> out[k] == Resized(kids[k], axis, Size(DimsOf(out[k]), axis)))
            && (forall k :: 0 <= k < |kids| && IsPercentage(kids[k], axis) ==> out[k] == kids[k])
  {
    var out := WriteBack(kids, r, axis);
    forall k | 0 <= k < |kids|
      ensures out[k] == Resized(kids[k], axis, Size(DimsOf(out[k]), axis))
    {
      if IsPercentage(kids[k], axis) {
        ResizedToOwnSize(kids[k], axis);
      } else {
        match axis
        case X =>
        case Y =>
      }
    }
  }

  /** The shrink loop's guarantees over sizes, read back on the children. */
  lemma ShrinkMeets(kids: seq<Element>, out: seq<Element>, axis: Axis, act: seq<nat>, r: seq<real>, left: seq<nat>)
    requires |r| == |kids| && out == WriteBack(kids, r, axis)
    requires act == ResizablePositions(kids, axis)
    requires var sizes := Counted(kids, axis);
             var mins := Mins(kids, axis);
             && (forall k :: 0 <= k < |sizes| && k !in act ==> r[k] == sizes[k])
             && (forall k :: 0 <= k < |sizes| && r[k] != sizes[k] ==> r[k] >= mins[k])
             && (forall k :: 0 <= k < |sizes| && r[k] > sizes[k] ==> r[k] == mins[k])
             && Positions(left, |sizes|) && (forall j :: 0 <= j < |left| ==> left[j] in act)
             && (forall k :: k in act && k !in left ==> r[k] == mins[k])
    ensures Shrinks(kids, out, axis, left)
  {
    forall k | 0 <= k < |kids|
      ensures var before := Size(DimsOf(kids[k]), axis);
              var after := Size(DimsOf(out[k]), axis);
              var min := MinSize(DimsOf(kids[k]), axis);
              && (after != before ==> Resizable(kids[k], axis) && after >= min)
              && (after > before ==> after == min)
              && (k in left ==> Resizable(kids[k], axis))
              && (Resizable(kids[k], axis) && k !in left ==> after == min)
    {
      if k in left {
        var j :| 0 <= j < |left| && left[j] == k;
        assert k in act;
      }
    }
  }

  /** The grow loop's guarantees over sizes, read back on the children. */
  lemma GrowMeets(kids: seq<Element>, out: seq<Element>, axis: Axis, act: seq<nat>, growing: seq<nat>, r: seq<real>, left: seq<nat>)
    requires |r| == |kids| && out == WriteBack(kids, r, axis)
    requires act == ResizablePositions(kids, axis) && growing == GrowFilter(kids, act, axis)
    requires var sizes := Counted(kids, axis);
             var maxes := Maxes(kids, axis);
             && (forall k :: 0 <= k < |sizes| && k !in growing ==> r[k] == sizes[k])
             && (forall k :: 0 <= k < |sizes| && r[k] != sizes[k] ==> r[k] <= maxes[k])
             && (forall k :: 0 <= k < |sizes| && r[k] < sizes[k] ==> r[k] == maxes[k])
             && Positions(left, |sizes|) && (forall j :: 0 <= j < |left| ==> left[j] in growing)
             && (forall k :: k in growing && k !in left ==> r[k] == maxes[k])
    ensures Grows(kids, out, axis, left)
  {
    forall k | 0 <= k < |kids|
      ensures var before := Size(DimsOf(kids[k]), axis);
              var after := Size(DimsOf(out[k]), axis);
              var max := MaxAlong(kids[k], axis);
              && (after != before ==> Resizable(kids[k], axis) && IsGrow(kids[k], axis) && after <= max)
              && (after < before ==> after == max)
              && (k in left ==> Resizable(kids[k], axis) && IsGrow(kids[k], axis))
              && (Resizable(kids[k], axis) && IsGrow(kids[k], axis) && k !in left ==> after == max)
    {
      if k in left {
        var j :| 0 <= j < |left| && left[j] == k;
        assert k in growing;
      }
    }
  }

  // ---------------------------------------------------------------------
  // On the arena
  // ---------------------------------------------------------------------

  /** `f` is `e` with possibly different extents. */
  predicate SameButDims(e: Element, f: Element)
  {
    f == WithDims(e, DimsOf(f))
  }

  /** `b` differs from `a` at most in the extents of its elements: the tree,
      the flags and the parent lists are untouched. */
  ghost predicate Reshaped(a: Arena, b: Arena)
  {
    && |b.elements| == |a.elements| && b.groups == a.groups
    && forall j :: 0 <= j < |a.elements| ==> SameButDims(a.elements[j], b.elements[j])
  }

  /** No element's minimum size changes. */
  ghost predicate KeepsMinimums(a: Arena, b: Arena)
    requires |b.elements| == |a.elements|
  {
    forall j :: 0 <= j < |a.elements| ==>
      b.elements[j].minWidth == a.elements[j].minWidth && b.elements[j].minHeight == a.elements[j].minHeight
  }

  lemma ReshapedKeepsValid(a: Arena, b: Arena)
    requires Elements.Valid(a) && Reshaped(a, b)
    ensures Elements.Valid(b)
  {
    assert forall j :: 0 <= j < |a.elements| ==>
      && b.elements[j].parent == a.elements[j].parent
      && b.elements[j].children == a.elements[j].children
      && b.elements[j].group == a.elements[j].group
      && b.elements[j].closed == a.elements[j].closed
      && b.elements[j].isFloating == a.elements[j].isFloating;
  }

  lemma Compose(a: Arena, b: Arena, c: Arena)
    requires Reshaped(a, b) && KeepsMinimums(a, b)
    requires Reshaped(b, c) && KeepsMinimums(b, c)
    ensures Reshaped(a, c) && KeepsMinimums(a, c)
  {
  }

  /** The children of `p`, as elements, in order. */
  function Kids(a: Arena, p: nat): (r: seq<Element>)
    requires Elements.Valid(a) && p < |a.elements|
    ensures |r| == |a.elements[p].children|
    ensures forall k :: 0 <= k < |r| ==> r[k] == a.elements[a.elements[p].children[k]]
  {
    var ch := a.elements[p].children;
    seq(|ch|, k requires 0 <= k < |ch| => a.elements[ch[k]])
  }

  /** Puts `out[k]` at position `ch[k]`, for distinct positions. */
  function StoreAll(elems: seq<Element>, ch: seq<nat>, out: seq<Element>): (r: seq<Element>)
    requires |ch| == |out| && forall k :: 0 <= k < |ch| ==> ch[k] < |elems|
    requires forall k1, k2 :: 0 <= k1 < k2 < |ch| ==> ch[k1] != ch[k2]
    ensures |r| == |elems|
    ensures forall k :: 0 <= k < |ch| ==> r[ch[k]] == out[k]
    ensures forall j :: 0 <= j < |elems| && j !in ch ==> r[j] == elems[j]
  {
    if |ch| == 0 then elems
    else
      var n := |ch| - 1;
      var inner := StoreAll(elems, ch[..n], out[..n]);
      assert forall k :: 0 <= k < n ==> ch[..n][k] == ch[k] && out[..n][k] == out[k];
      assert forall j :: j !in ch ==> j !in ch[..n] && j != ch[n];
      inner[ch[n] := out[n]]
  }

  /** What sizing one parent promises about its children: percentages are
      resolved as `Expand` states, then the leveling step meets `LevelSpec`
      with the amount computed from the children as they were. */
  ghost predicate ParentSized(parent: Element, kids: seq<Element>, out: seq<Element>, axis: Axis, outcome: Outcome)
  {
    LevelSpec(parent, Expand(parent, kids, axis), out, axis, SizeToDistribute(parent, kids, axis), outcome)
  }

  /** One iteration of the loop over a root's parent list: only the
      parent's children change, and only in their extents. */
  method SizeParent(a: Arena, p: nat, axis: Axis, asWritten: bool, fuel: nat) returns (r: Arena, outcome: Outcome)
    requires Elements.Valid(a) && p < |a.elements|
    ensures Elements.Valid(r) && Reshaped(a, r) && KeepsMinimums(a, r)
    ensures forall j :: 0 <= j < |a.elements| && j !in a.elements[p].children ==> r.elements[j] == a.elements[j]
    ensures ParentSized(a.elements[p], Kids(a, p), Kids(r, p), axis, outcome)
  {
    var parent := a.elements[p];
    var kids := Kids(a, p);
    var mid := Expand(parent, kids, axis);
    var out;
    out, outcome := Level(parent, mid, axis, SizeToDistribute(parent, kids, axis), asWritten, fuel);
    LevelChangesOnlyExtents(parent, kids, mid, out, axis, SizeToDistribute(parent, kids, axis), outcome);
    r := StoreKids(a, p, out);
  }

  lemma LevelChangesOnlyExtents(parent: Element, kids: seq<Element>, mid: seq<Element>, out: seq<Element>,
                                axis: Axis, std: real, outcome: Outcome)
    requires mid == Expand(parent, kids, axis)
    requires LevelSpec(parent, mid, out, axis, std, outcome)
    ensures |out| == |kids|
    ensures forall k :: 0 <= k < |kids| ==>
              SameButDims(kids[k], out[k]) && out[k].minWidth == kids[k].minWidth && out[k].minHeight == kids[k].minHeight
  {
    forall k | 0 <= k < |kids|
      ensures SameButDims(kids[k], out[k])
      ensures out[k].minWidth == kids[k].minWidth && out[k].minHeight == kids[k].minHeight
    {
      assert out[k] == Resized(mid[k], axis, Size(DimsOf(out[k]), axis));
    }
  }

  /** Replaces the children of `p` by new versions of themselves. */
  function StoreKids(a: Arena, p: nat, out: seq<Element>): (r: Arena)
    requires Elements.Valid(a) && p < |a.elements|
    requires |out| == |a.elements[p].children|
    requires forall k :: 0 <= k < |out| ==>
               var c := a.elements[a.elements[p].children[k]];
               SameButDims(c, out[k]) && out[k].minWidth == c.minWidth && out[k].minHeight == c.minHeight
    ensures Elements.Valid(r) && Reshaped(a, r) && KeepsMinimums(a, r)
    ensures forall j :: 0 <= j < |a.elements| && j !in a.elements[p].children ==> r.elements[j] == a.elements[j]
    ensures Kids(r, p) == out
  {
    var ch := a.elements[p].children;
    var r := a.(elements := StoreAll(a.elements, ch, out));
    assert forall j :: 0 <= j < |a.elements| ==>
      SameButDims(a.elements[j], r.elements[j]) &&
      r.elements[j].minWidth == a.elements[j].minWidth && r.elements[j].minHeight == a.elements[j].minHeight
    by {
      forall j | 0 <= j < |a.elements|
        ensures SameButDims(a.elements[j], r.elements[j])
        ensures r.elements[j].minWidth == a.elements[j].minWidth && r.elements[j].minHeight == a.elements[j].minHeight
      {
        if j in ch {
          var k :| 0 <= k < |ch| && ch[k] == j;
        }
      }
    }
    ReshapedKeepsValid(a, r);
    assert SameButDims(a.elements[p], r.elements[p]);
    assert r.elements[p].children == ch;
    KidsAre(r, p, out);
    r
  }

  lemma KidsAre(a: Arena, p: nat, out: seq<Element>)
    requires Elements.Valid(a) && p < |a.elements| && |out| == |a.elements[p].children|
    requires forall k :: 0 <= k < |out| ==> a.elements[a.elements[p].children[k]] == out[k]
    ensures Kids(a, p) == out
  {
  }

  /** The element a floating root is attached to, when its configuration
      names an id that is registered. */
  function AttachedTo(a: Arena, root: Element, attachments: map<string, nat>): Option<Element>
    requires forall id :: id in attachments ==> attachments[id] < |a.elements|
  {
    match ConfigOf(root.layout, FloatingKind)
    case Some(Floating(_, _, _, _, _, _, _, _, _, Some(id))) =>
      if id in attachments then Some(a.elements[attachments[id]]) else None
    case _ => None
  }

  /** A root's size along one axis before its parents are sized: attached
      to an element, a GROW root takes that element's size and a percentage
      root its share of it; then every non-percentage size is clamped to
      the root's bounds. */
  function RootSize(root: Element, attached: Option<Element>, axis: Axis): (s: real)
    ensures var sz := SizingAlong(root.layout, axis);
            sz.MinMax? && sz.min <= sz.max ==> sz.min <= s <= sz.max
    ensures var sz := SizingAlong(root.layout, axis);
            var own := Size(DimsOf(root), axis);
            sz.MinMax? && !(sz.behaviour == Grow && attached.Some?) && sz.min <= own <= sz.max ==> s == own
    ensures var sz := SizingAlong(root.layout, axis);
            sz.MinMax? && !(sz.behaviour == Grow && attached.Some?) ==> s == Clamp(Size(DimsOf(root), axis), sz.min, sz.max)
    ensures var sz := SizingAlong(root.layout, axis);
            sz.MinMax? && sz.behaviour == Grow && attached.Some? ==>
              s == Clamp(Size(DimsOf(attached.value), axis), sz.min, sz.max)
    ensures var sz := SizingAlong(root.layout, axis);
            sz.Percentage? ==>
              s == if attached.Some? then Size(DimsOf(attached.value), axis) * sz.percentage else Size(DimsOf(root), axis)
  {
    var own := Size(DimsOf(root), axis);
    match SizingAlong(root.layout, axis)
    case Percentage(p) => if attached.Some? then Size(DimsOf(attached.value), axis) * p else own
    case MinMax(b, lo, hi) => Clamp(if b == Grow && attached.Some? then Size(DimsOf(attached.value), axis) else own, lo, hi)
  }

  /** The root's new extents: both axes are adjusted and clamped on each
      pass, whichever axis is being sized. */
  function PrepareRoot(root: Element, attached: Option<Element>): (r: Element)
    ensures SameButDims(root, r)
    ensures r.width == RootSize(root, attached, X) && r.height == RootSize(root, attached, Y)
    ensures r.minWidth == root.minWidth && r.minHeight == root.minHeight
  {
    root.(width := RootSize(root, attached, X), height := RootSize(root, attached, Y))
  }

  /** Listed as some element's child. */
  ghost predicate Listed(a: Arena, j: nat)
  {
    exists p :: 0 <= p < |a.elements| && j in a.elements[p].children
  }

  /** The parents in a root's list, in the order they were closed. */
  function ParentsOf(a: Arena, root: nat): (ps: seq<nat>)
    requires Elements.Valid(a) && root < |a.elements|
    ensures forall k :: 0 <= k < |ps| ==> ps[k] < |a.elements|
  {
    a.groups[a.elements[root].group]
  }

  /** The root step on the arena: only the root's extents change. */
  function AdjustRoot(a: Arena, root: nat, attachments: map<string, nat>): (r: Arena)
    requires Elements.Valid(a) && root < |a.elements|
    requires forall id :: id in attachments ==> attachments[id] < |a.elements|
    ensures Elements.Valid(r) && Reshaped(a, r) && KeepsMinimums(a, r)
    ensures r.elements[root] == PrepareRoot(a.elements[root], AttachedTo(a, a.elements[root], attachments))
    ensures forall j :: 0 <= j < |a.elements| && j != root ==> r.elements[j] == a.elements[j]
  {
    var r := a.(elements := a.elements[root := PrepareRoot(a.elements[root], AttachedTo(a, a.elements[root], attachments))]);
    ReshapedKeepsValid(a, r);
    r
  }

  /** `SizeParent`, keeping only what the loop over a parent list needs. */
  method ResizeChildren(a: Arena, p: nat, axis: Axis, asWritten: bool, fuel: nat) returns (r: Arena)
    requires Elements.Valid(a) && p < |a.elements|
    ensures Elements.Valid(r) && Reshaped(a, r) && KeepsMinimums(a, r)
    ensures forall j :: 0 <= j < |a.elements| && j !in a.elements[p].children ==> r.elements[j] == a.elements[j]
  {
    var outcome;
    r, outcome := SizeParent(a, p, axis, asWritten, fuel);
  }

  /** The loop over one root's parent list. */
  method SizeParents(a: Arena, parents: seq<nat>, axis: Axis, asWritten: bool, fuel: nat) returns (r: Arena)
    requires Elements.Valid(a)
    requires forall k :: 0 <= k < |parents| ==> parents[k] < |a.elements|
    ensures Elements.Valid(r) && Reshaped(a, r) && KeepsMinimums(a, r)
    ensures forall j :: 0 <= j < |a.elements| && !Listed(a, j) ==> r.elements[j] == a.elements[j]
  {
    r := a;
    var k := 0;
    while k < |parents|
      invariant 0 <= k <= |parents|
      invariant Elements.Valid(r) && Reshaped(a, r) && KeepsMinimums(a, r)
      invariant forall j :: 0 <= j < |a.elements| && !Listed(a, j) ==> r.elements[j] == a.elements[j]
    {
      var p := parents[k];
      var r' := ResizeChildren(r, p, axis, asWritten, fuel);
      assert r.elements[p].children == a.elements[p].children;
      r := r';
      k := k + 1;
    }
  }

  /** `sizeContainersAlongAxis` over all roots: each root is adjusted and
      clamped, then every parent in its list sizes its children. The tree,
      the flags and every minimum size are left alone, and an element that
      is neither a root nor anybody's child keeps its extents. */
  method SizeAlongAxis(a: Arena, roots: seq<nat>, attachments: map<string, nat>, axis: Axis, asWritten: bool, fuel: nat)
    returns (r: Arena)
    requires Elements.Valid(a)
    requires forall i :: 0 <= i < |roots| ==> roots[i] < |a.elements|
    requires forall id :: id in attachments ==> attachments[id] < |a.elements|
    ensures Elements.Valid(r) && Reshaped(a, r) && KeepsMinimums(a, r)
    ensures forall j :: 0 <= j < |a.elements| && j !in roots && !Listed(a, j) ==> r.elements[j] == a.elements[j]
  {
    r := a;
    var i := 0;
    while i < |roots|
      invariant 0 <= i <= |roots|
      invariant SizedSoFar(a, r, roots)
    {
      r := SizeRoot(a, r, roots, i, attachments, axis, asWritten, fuel);
      i := i + 1;
    }
  }

  /** What holds between roots: only extents changed, and an element that
      is neither a root nor anybody's child kept its extents too. */
  ghost predicate SizedSoFar(a: Arena, r: Arena, roots: seq<nat>)
  {
    && Elements.Valid(r) && Reshaped(a, r) && KeepsMinimums(a, r)
    && forall j :: 0 <= j < |a.elements| && j !in roots && !Listed(a, j) ==> r.elements[j] == a.elements[j]
  }

  /** One root: adjust it, then size the parents in its list. */
  method SizeRoot(a: Arena, r: Arena, roots: seq<nat>, i: nat, attachments: map<string, nat>, axis: Axis, asWritten: bool, fuel: nat)
    returns (r2: Arena)
    requires SizedSoFar(a, r, roots) && i < |roots|
    requires forall i :: 0 <= i < |roots| ==> roots[i] < |a.elements|
    requires forall id :: id in attachments ==> attachments[id] < |a.elements|
    ensures SizedSoFar(a, r2, roots)
  {
    var r1 := AdjustRoot(r, roots[i], attachments);
    r2 := SizeParents(r1, ParentsOf(r1, roots[i]), axis, asWritten, fuel);
    Compose(a, r, r1);
    Compose(a, r1, r2);
    ListedUnchanged(a, r1);
    forall j | 0 <= j < |a.elements| && j !in roots && !Listed(a, j)
      ensures r2.elements[j] == a.elements[j]
    {
      assert !Listed(r1, j) && j != roots[i];
    }
  }

  lemma ListedUnchanged(a: Arena, b: Arena)
    requires Reshaped(a, b)
    ensures forall j :: Listed(b, j) ==> Listed(a, j)
  {
    forall j | Listed(b, j)
      ensures Listed(a, j)
    {
      var p :| 0 <= p < |b.elements| && j in b.elements[p].children;
      assert a.elements[p].children == b.elements[p].children;
    }
  }
}
