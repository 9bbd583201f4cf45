/** Elements of the layout tree (`Element_`) and their two-phase construction:
    `Open` creates an element under a live parent and derives its flags from
    the layout's configurations; `Close` folds the sizes of the element's
    closed children into its own size along the layout direction, clamps
    the result to the sizing policy, derives a side from an aspect ratio and
    attaches the element to its parent.

    Elements live in an arena addressed by index. The list `parentElements`
    that a root (or floating element) shares with all its non-floating
    descendants is a `group`: the element stores the group's id and the
    arena maps each id to the list. */
module Elements {
  import opened Wrappers
  import opened Numbers
  import opened Sizings
  import opened Layouts

  // ---------------------------------------------------------------------
  // Axes and extents
  // ---------------------------------------------------------------------

  datatype Axis = X | Y

  function Other(a: Axis): Axis
  {
    match a
    case X => Y
    case Y => X
  }

  /** The computed extents of an element: size and minimum size per axis. */
  datatype Dims = Dims(width: real, height: real, minWidth: real, minHeight: real)

  function Size(d: Dims, a: Axis): real
  {
    match a
    case X => d.width
    case Y => d.height
  }

  function MinSize(d: Dims, a: Axis): real
  {
    match a
    case X => d.minWidth
    case Y => d.minHeight
  }

  /** Size (or minimum size, when `ofMin`) along an axis. */
  function Extent(d: Dims, a: Axis, ofMin: bool): real
  {
    if ofMin then MinSize(d, a) else Size(d, a)
  }

  /** Replaces size and minimum size along one axis. */
  function WithAxis(d: Dims, a: Axis, size: real, min: real): (r: Dims)
    ensures Size(r, a) == size && MinSize(r, a) == min
    ensures Size(r, Other(a)) == Size(d, Other(a)) && MinSize(r, Other(a)) == MinSize(d, Other(a))
  {
    match a
    case X => d.(width := size, minWidth := min)
    case Y => d.(height := size, minHeight := min)
  }

  /** The axis children are laid out along. */
  function MainAxis(dir: LayoutDirection): Axis
  {
    match dir
    case LeftToRight => X
    case TopToBottom => Y
  }

  /** Padding on both ends of an axis: left + right, or top + bottom. */
  function PaddingAlong(p: Padding, a: Axis): real
  {
    match a
    case X => (p.left + p.right) as real
    case Y => (p.top + p.bottom) as real
  }

  function ClipsAlong(clipsHorizontal: bool, clipsVertical: bool, a: Axis): bool
  {
    match a
    case X => clipsHorizontal
    case Y => clipsVertical
  }

  function SizingAlong(l: Layout, a: Axis): Sizing
  {
    match a
    case X => l.width
    case Y => l.height
  }

  /** `max(n - 1, 0) * childGap`. */
  function TotalGaps(n: nat, gap: int): real
  {
    (if n > 0 then n - 1 else 0) as real * gap as real
  }

  // ---------------------------------------------------------------------
  // Fit aggregation performed by close()
  // ---------------------------------------------------------------------

  /** One child's contribution: sizes add up along the main axis, the cross
      axis keeps the largest child plus cross padding; a clipped axis does not
      take the child's minimum size. */
  function Step(acc: Dims, c: Dims, main: Axis, crossPad: real, clipMain: bool, clipCross: bool): Dims
  {
    var cross := Other(main);
    var m := WithAxis(acc, main, Size(acc, main) + Size(c, main),
                      if clipMain then MinSize(acc, main) else MinSize(acc, main) + MinSize(c, main));
    WithAxis(m, cross, Max(Size(acc, cross), Size(c, cross) + crossPad),
             if clipCross then MinSize(acc, cross) else Max(MinSize(acc, cross), MinSize(c, cross) + crossPad))
  }

  /** The loop over the children, in order. */
  function FoldChildren(acc: Dims, kids: seq<Dims>, main: Axis, crossPad: real, clipMain: bool, clipCross: bool): Dims
    decreases |kids|
  {
    if |kids| == 0 then acc
    else FoldChildren(Step(acc, kids[0], main, crossPad, clipMain, clipCross), kids[1..], main, crossPad, clipMain, clipCross)
  }

  /** Sum of the children's sizes (or minimum sizes) along an axis. */
  function SumAlong(kids: seq<Dims>, a: Axis, ofMin: bool): real
  {
    if |kids| == 0 then 0.0 else Extent(kids[0], a, ofMin) + SumAlong(kids[1..], a, ofMin)
  }

  /** `v` is the largest of `init` and every child's extent plus `pad`. */
  ghost predicate IsLargest(v: real, init: real, kids: seq<Dims>, a: Axis, pad: real, ofMin: bool)
  {
    && v >= init
    && (forall k :: 0 <= k < |kids| ==> v >= Extent(kids[k], a, ofMin) + pad)
    && (v == init || exists k :: 0 <= k < |kids| && v == Extent(kids[k], a, ofMin) + pad)
  }

  /** The fold computes sums along the main axis and maxima across it. */
  lemma {:induction false} FoldClosedForm(acc: Dims, kids: seq<Dims>, main: Axis, crossPad: real, clipMain: bool, clipCross: bool)
    ensures var r := FoldChildren(acc, kids, main, crossPad, clipMain, clipCross);
            && Size(r, main) == Size(acc, main) + SumAlong(kids, main, false)
            && MinSize(r, main) == MinSize(acc, main) + (if clipMain then 0.0 else SumAlong(kids, main, true))
            && IsLargest(Size(r, Other(main)), Size(acc, Other(main)), kids, Other(main), crossPad, false)
            && (clipCross ==> MinSize(r, Other(main)) == MinSize(acc, Other(main)))
            && (!clipCross ==> IsLargest(MinSize(r, Other(main)), MinSize(acc, Other(main)), kids, Other(main), crossPad, true))
    decreases |kids|
  {
    if |kids| > 0 {
      var cross := Other(main);
      var acc' := Step(acc, kids[0], main, crossPad, clipMain, clipCross);
      var r := FoldChildren(acc', kids[1..], main, crossPad, clipMain, clipCross);
      FoldClosedForm(acc', kids[1..], main, crossPad, clipMain, clipCross);
      assert Other(cross) == main;
      forall k | 1 <= k < |kids|
        ensures Extent(kids[1..][k - 1], cross, false) == Extent(kids[k], cross, false)
        ensures Extent(kids[1..][k - 1], cross, true) == Extent(kids[k], cross, true)
      {
      }
      if Size(r, cross) != Size(acc', cross) {
        var k :| 0 <= k < |kids[1..]| && Size(r, cross) == Extent(kids[1..][k], cross, false) + crossPad;
        assert Size(r, cross) == Extent(kids[k + 1], cross, false) + crossPad;
      } else if Size(acc', cross) != Size(acc, cross) {
        assert Size(r, cross) == Extent(kids[0], cross, false) + crossPad;
      }
      if !clipCross {
        if MinSize(r, cross) != MinSize(acc', cross) {
          var k :| 0 <= k < |kids[1..]| && MinSize(r, cross) == Extent(kids[1..][k], cross, true) + crossPad;
          assert MinSize(r, cross) == Extent(kids[k + 1], cross, true) + crossPad;
        } else if MinSize(acc', cross) != MinSize(acc, cross) {
          assert MinSize(r, cross) == Extent(kids[0], cross, true) + crossPad;
        }
      }
    }
  }

  /** The size an element computes from its children on close, before
      clamping. Along the layout direction, size and minimum size restart
      from the padding; across it they continue from the element's current
      values. */
  function Aggregate(layout: Layout, clipsHorizontal: bool, clipsVertical: bool, cur: Dims, kids: seq<Dims>): Dims
  {
    var main := MainAxis(layout.layoutDirection);
    var cross := Other(main);
    var mainPad := PaddingAlong(layout.padding, main);
    var clipMain := ClipsAlong(clipsHorizontal, clipsVertical, main);
    var clipCross := ClipsAlong(clipsHorizontal, clipsVertical, cross);
    var folded := FoldChildren(WithAxis(cur, main, mainPad, mainPad), kids, main,
                               PaddingAlong(layout.padding, cross), clipMain, clipCross);
    var gaps := TotalGaps(|kids|, layout.childGap);
    WithAxis(folded, main, Size(folded, main) + gaps,
             if clipMain then MinSize(folded, main) else MinSize(folded, main) + gaps)
  }

  /** Left-to-right: width is the horizontal padding plus the children's
      widths plus `max(n - 1, 0)` gaps; height is the largest child height
      plus vertical padding (never below the current height). A clipped axis
      takes neither the children's minimum sizes nor the gaps. */
  lemma AggregateLeftToRight(layout: Layout, clipsHorizontal: bool, clipsVertical: bool, cur: Dims, kids: seq<Dims>)
    requires layout.layoutDirection == LeftToRight
    ensures var d := Aggregate(layout, clipsHorizontal, clipsVertical, cur, kids);
            var lr := PaddingAlong(layout.padding, X);
            var tb := PaddingAlong(layout.padding, Y);
            var gaps := TotalGaps(|kids|, layout.childGap);
            && d.width == lr + SumAlong(kids, X, false) + gaps
            && d.minWidth == lr + (if clipsHorizontal then 0.0 else SumAlong(kids, X, true) + gaps)
            && IsLargest(d.height, cur.height, kids, Y, tb, false)
            && (clipsVertical ==> d.minHeight == cur.minHeight)
            && (!clipsVertical ==> IsLargest(d.minHeight, cur.minHeight, kids, Y, tb, true))
  {
    var lr := PaddingAlong(layout.padding, X);
    FoldClosedForm(WithAxis(cur, X, lr, lr), kids, X, PaddingAlong(layout.padding, Y), clipsHorizontal, clipsVertical);
  }

  /** Top-to-bottom: the same with the axes exchanged. */
  lemma AggregateTopToBottom(layout: Layout, clipsHorizontal: bool, clipsVertical: bool, cur: Dims, kids: seq<Dims>)
    requires layout.layoutDirection == TopToBottom
    ensures var d := Aggregate(layout, clipsHorizontal, clipsVertical, cur, kids);
            var lr := PaddingAlong(layout.padding, X);
            var tb := PaddingAlong(layout.padding, Y);
            var gaps := TotalGaps(|kids|, layout.childGap);
            && d.height == tb + SumAlong(kids, Y, false) + gaps
            && d.minHeight == tb + (if clipsVertical then 0.0 else SumAlong(kids, Y, true) + gaps)
            && IsLargest(d.width, cur.width, kids, X, lr, false)
            && (clipsHorizontal ==> d.minWidth == cur.minWidth)
            && (!clipsHorizontal ==> IsLargest(d.minWidth, cur.minWidth, kids, X, lr, true))
  {
    var tb := PaddingAlong(layout.padding, Y);
    FoldClosedForm(WithAxis(cur, Y, tb, tb), kids, Y, PaddingAlong(layout.padding, X), clipsVertical, clipsHorizontal);
  }

  /** Clamping on close: a min/max axis is clamped into its range (size and
      minimum size alike); a percentage axis has its size zeroed until the
      parent expands it, while its minimum size is kept. */
  function ClampAxis(d: Dims, a: Axis, s: Sizing): (r: Dims)
    ensures Size(r, Other(a)) == Size(d, Other(a)) && MinSize(r, Other(a)) == MinSize(d, Other(a))
    ensures s.Percentage? ==> Size(r, a) == 0.0 && MinSize(r, a) == MinSize(d, a)
    ensures s.MinMax? && s.min <= s.max ==> s.min <= Size(r, a) <= s.max && s.min <= MinSize(r, a) <= s.max
    ensures s.MinMax? && s.min <= Size(d, a) <= s.max ==> Size(r, a) == Size(d, a)
    ensures s.MinMax? && s.min <= MinSize(d, a) <= s.max ==> MinSize(r, a) == MinSize(d, a)
    ensures s.MinMax? && Size(d, a) > s.max ==> Size(r, a) == s.max
    ensures s.MinMax? && Size(d, a) < s.min <= s.max ==> Size(r, a) == s.min
    ensures s.MinMax? && MinSize(d, a) > s.max ==> MinSize(r, a) == s.max
    ensures s.MinMax? && MinSize(d, a) < s.min <= s.max ==> MinSize(r, a) == s.min
    // an inverted range (possible: the constructor does not order the bounds) gives the maximum
    ensures s.MinMax? && s.min > s.max ==> Size(r, a) == s.max && MinSize(r, a) == s.max
  {
    match s
    case Percentage(_) => WithAxis(d, a, 0.0, MinSize(d, a))
    case MinMax(_, lo, hi) => WithAxis(d, a, Clamp(Size(d, a), lo, hi), Clamp(MinSize(d, a), lo, hi))
  }

  /** The ratio of the layout's first aspect-ratio configuration, if any. */
  function AspectRatioOf(layout: Layout): Option<real>
  {
    match ConfigOf(layout, AspectRatioKind)
    case Some(AspectRatio(r)) => Some(r)
    case _ => None
  }

  /** `updateAspectRatioBox`: with a positive ratio, a zero width is derived
      from a non-zero height and a zero height from a non-zero width, so
      that `width == height * ratio` afterwards; in every other case (no
      configuration, ratio <= 0, both sides zero or both non-zero) nothing
      changes. Minimum sizes are never touched. */
  function UpdateAspectRatio(layout: Layout, d: Dims): (r: Dims)
    ensures r.minWidth == d.minWidth && r.minHeight == d.minHeight
    ensures (AspectRatioOf(layout).None? || AspectRatioOf(layout).value <= 0.0) ==> r == d
    ensures AspectRatioOf(layout).Some? && AspectRatioOf(layout).value > 0.0 ==>
              var ratio := AspectRatioOf(layout).value;
              && (d.width == 0.0 && d.height != 0.0 ==> r.height == d.height && r.width == r.height * ratio)
              && (d.width != 0.0 && d.height == 0.0 ==> r.width == d.width && r.width == r.height * ratio)
              && ((d.width == 0.0) == (d.height == 0.0) ==> r == d)
  {
    match AspectRatioOf(layout)
    case None => d
    case Some(ratio) =>
      if ratio <= 0.0 then d
      else if d.width == 0.0 && d.height != 0.0 then d.(width := d.height * ratio)
      else if d.width != 0.0 && d.height == 0.0 then
        var h := d.width * (1.0 / ratio);
        assert h * ratio == d.width * ((1.0 / ratio) * ratio);
        d.(height := h)
      else d
  }

  /** Everything close() does to the element's own extents. */
  function ClosedDims(layout: Layout, clipsHorizontal: bool, clipsVertical: bool, cur: Dims, kids: seq<Dims>): Dims
  {
    var agg := Aggregate(layout, clipsHorizontal, clipsVertical, cur, kids);
    UpdateAspectRatio(layout, ClampAxis(ClampAxis(agg, X, layout.width), Y, layout.height))
  }

  // ---------------------------------------------------------------------
  // The element arena
  // ---------------------------------------------------------------------

  datatype Element = Element(
    parent: Option<nat>,
    layout: Layout,
    elementId: Option<string>,
    rootTime: int,
    clipsVertical: bool,
    clipsHorizontal: bool,
    isFloating: bool,
    isText: bool,
    hasAspectRatio: bool,
    group: nat,
    closed: bool,
    children: seq<nat>,
    x: real,
    y: real,
    minWidth: real,
    width: real,
    minHeight: real,
    height: real,
    zIndex: int)

  function DimsOf(e: Element): Dims
  {
    Dims(e.width, e.height, e.minWidth, e.minHeight)
  }

  function WithDims(e: Element, d: Dims): (r: Element)
    ensures DimsOf(r) == d
  {
    e.(width := d.width, height := d.height, minWidth := d.minWidth, minHeight := d.minHeight)
  }

  datatype Arena = Arena(elements: seq<Element>, groups: map<nat, seq<nat>>)

  /** What being listed among `p`'s children implies: the element was closed
      under `p` and is not floating. */
  predicate IsChildOf(c: Element, p: nat)
  {
    c.parent == Some(p) && c.closed && !c.isFloating
  }

  /** Parents precede their children; children lists hold distinct, closed,
      non-floating elements that name the list's owner as parent; every
      element's group list exists and holds only elements of the arena. */
  ghost predicate Valid(a: Arena)
  {
    && (forall i :: 0 <= i < |a.elements| && a.elements[i].parent.Some? ==> a.elements[i].parent.value < i)
    && (forall i, k :: 0 <= i < |a.elements| && 0 <= k < |a.elements[i].children| ==>
          i < a.elements[i].children[k] < |a.elements|)
    && (forall i, k :: 0 <= i < |a.elements| && 0 <= k < |a.elements[i].children| ==>
          IsChildOf(a.elements[a.elements[i].children[k]], i))
    && (forall i, k1, k2 :: 0 <= i < |a.elements| && 0 <= k1 < k2 < |a.elements[i].children| ==>
          a.elements[i].children[k1] != a.elements[i].children[k2])
    && (forall i :: 0 <= i < |a.elements| ==> a.elements[i].group in a.groups)
    && (forall g :: g in a.groups ==> g < |a.elements|)
    && (forall g, k :: g in a.groups && 0 <= k < |a.groups[g]| ==> a.groups[g][k] < |a.elements|)
  }

  /** The horizontal and vertical flags of the first clip configuration. */
  function ClipFlags(layout: Layout): (bool, bool)
  {
    match ConfigOf(layout, ClipKind)
    case Some(Clip(h, v, _, _)) => (h, v)
    case _ => (false, false)
  }

  /** The `Element_` constructor: flags are derived from the configurations
      (floating, clip per axis, aspect ratio, text); a root or floating
      element starts its own `parentElements` list, any other element shares
      its parent's; the root time is taken from the clock for a root and
      inherited otherwise. */
  function Open(a: Arena, parent: Option<nat>, layout: Layout, elementId: Option<string>, time: int): (r: (Arena, nat))
    requires Valid(a)
    requires parent.Some? ==> parent.value < |a.elements|
    ensures Valid(r.0)
    ensures r.1 == |a.elements| && |r.0.elements| == |a.elements| + 1
    ensures r.0.elements[..r.1] == a.elements
    ensures var e := r.0.elements[r.1];
            && e.parent == parent && e.layout == layout && e.elementId == elementId
            && !e.closed && e.children == []
            && (e.isFloating <==> HasConfig(layout, FloatingKind))
            && (e.isText <==> HasConfig(layout, TextKind))
            && (e.hasAspectRatio <==> HasConfig(layout, AspectRatioKind))
            && (e.clipsHorizontal, e.clipsVertical) == ClipFlags(layout)
            && e.rootTime == (if parent.None? then time else a.elements[parent.value].rootTime)
            && DimsOf(e) == Dims(0.0, 0.0, 0.0, 0.0)
    ensures var e := r.0.elements[r.1];
            (parent.None? || e.isFloating) ==> e.group == r.1 && r.0.groups == a.groups[r.1 := []]
    ensures var e := r.0.elements[r.1];
            (parent.Some? && !e.isFloating) ==> e.group == a.elements[parent.value].group && r.0.groups == a.groups
  {
    var n := |a.elements|;
    var floating := HasConfig(layout, FloatingKind);
    var ownList := parent.None? || floating;
    var group := if ownList then n else a.elements[parent.value].group;
    var clips := ClipFlags(layout);
    var rootTime := if parent.None? then time else a.elements[parent.value].rootTime;
    var e := Element(parent, layout, elementId, rootTime, clips.1, clips.0, floating,
                     HasConfig(layout, TextKind), HasConfig(layout, AspectRatioKind),
                     group, false, [], 0.0, 0.0, 0.0, 0.0, 0.0, 0.0, 0);
    var groups := if ownList then a.groups[n := []] else a.groups;
    ExtendKeepsValid(a, e, groups);
    (Arena(a.elements + [e], groups), n)
  }

  /** Appending a childless element whose parent and group already exist
      (or whose group is a new empty list under its own index). */
  lemma ExtendKeepsValid(a: Arena, e: Element, groups: map<nat, seq<nat>>)
    requires Valid(a)
    requires e.children == []
    requires e.parent.Some? ==> e.parent.value < |a.elements|
    requires groups == a.groups || groups == a.groups[|a.elements| := []]
    requires e.group in groups
    ensures Valid(Arena(a.elements + [e], groups))
  {
    var r := Arena(a.elements + [e], groups);
    var n := |a.elements|;
    assert forall i :: 0 <= i < n ==> r.elements[i] == a.elements[i];
    assert r.elements[n] == e;
    assert forall g :: g in groups ==> g <= n;
    assert forall g :: g in groups && |groups[g]| > 0 ==> g in a.groups && groups[g] == a.groups[g];
  }

  datatype CloseError = TextCannotHaveChildren

  predicate ParentIsText(a: Arena, i: nat)
    requires Valid(a) && i < |a.elements|
  {
    var e := a.elements[i];
    e.parent.Some? && a.elements[e.parent.value].isText
  }

  /** The extents of the listed children. */
  function KidDims(a: Arena, kids: seq<nat>): (r: seq<Dims>)
    requires forall k :: 0 <= k < |kids| ==> kids[k] < |a.elements|
    ensures |r| == |kids|
    ensures forall k :: 0 <= k < |kids| ==> r[k] == DimsOf(a.elements[kids[k]])
  {
    seq(|kids|, k requires 0 <= k < |kids| => DimsOf(a.elements[kids[k]]))
  }

  /** Whether close() appends the element to its `parentElements` list: a
      non-text element that has children or is a root or floating. */
  predicate JoinsParentElements(e: Element)
  {
    !e.isText && (|e.children| > 0 || e.parent.None? || e.isFloating)
  }

  /** Replaces an element by one with the same links (parent, children,
      group). */
  function ReplaceKeepingLinks(a: Arena, i: nat, e: Element): (r: Arena)
    requires Valid(a) && i < |a.elements|
    requires e.parent == a.elements[i].parent && e.children == a.elements[i].children
    requires e.group == a.elements[i].group && e.isFloating == a.elements[i].isFloating
    requires a.elements[i].closed ==> e.closed
    ensures Valid(r)
    ensures r == a.(elements := a.elements[i := e])
  {
    a.(elements := a.elements[i := e])
  }

  /** `parent.children.add(child)`. */
  function AppendChild(a: Arena, p: nat, c: nat): (r: Arena)
    requires Valid(a) && p < c < |a.elements|
    requires IsChildOf(a.elements[c], p) && c !in a.elements[p].children
    ensures Valid(r)
    ensures r == a.(elements := a.elements[p := a.elements[p].(children := a.elements[p].children + [c])])
  {
    var r := a.(elements := a.elements[p := a.elements[p].(children := a.elements[p].children + [c])]);
    AppendChildKeepsValid(a, p, c, r);
    r
  }

  lemma AppendChildKeepsValid(a: Arena, p: nat, c: nat, r: Arena)
    requires Valid(a) && p < c < |a.elements|
    requires IsChildOf(a.elements[c], p) && c !in a.elements[p].children
    requires r == a.(elements := a.elements[p := a.elements[p].(children := a.elements[p].children + [c])])
    ensures Valid(r)
  {
    var ch := a.elements[p].children;
    var es := r.elements;
    assert forall j :: 0 <= j < |es| ==>
      es[j].parent == a.elements[j].parent && es[j].closed == a.elements[j].closed &&
      es[j].isFloating == a.elements[j].isFloating && es[j].group == a.elements[j].group;
    forall i, k | 0 <= i < |es| && 0 <= k < |es[i].children|
      ensures i < es[i].children[k] < |es| && IsChildOf(es[es[i].children[k]], i)
    {
      if i == p && k == |ch| {
        assert es[i].children[k] == c;
      } else {
        assert es[i].children[k] == a.elements[i].children[k];
      }
    }
    forall i, k1, k2 | 0 <= i < |es| && 0 <= k1 < k2 < |es[i].children|
      ensures es[i].children[k1] != es[i].children[k2]
    {
      if i == p {
        assert es[i].children[k1] == ch[k1];
        if k2 < |ch| {
          assert es[i].children[k2] == ch[k2];
        }
      }
    }
  }

  /** `parentElements.add(element)`. */
  function JoinGroup(a: Arena, g: nat, i: nat): (r: Arena)
    requires Valid(a) && g in a.groups && i < |a.elements|
    ensures Valid(r)
    ensures r == a.(groups := a.groups[g := a.groups[g] + [i]])
  {
    a.(groups := a.groups[g := a.groups[g] + [i]])
  }

  /** The extents of an element's children. */
  function ChildDims(a: Arena, i: nat): (r: seq<Dims>)
    requires Valid(a) && i < |a.elements|
    ensures |r| == |a.elements[i].children|
    ensures forall k :: 0 <= k < |r| ==> r[k] == DimsOf(a.elements[a.elements[i].children[k]])
  {
    KidDims(a, a.elements[i].children)
  }

  /** `Element_.close()`. A second call does nothing. Closing a child of a
      text element marks it closed and fails with the source's
      `IllegalStateException`. Otherwise the element computes its extents
      from its children (see `Aggregate`, `ClampAxis`, `UpdateAspectRatio`),
      may join its `parentElements` list, and is appended to its parent's
      children unless it is floating. Registration with the layout context
      (`addElement`, `setElementId`) is not part of this model. */
  function Close(a: Arena, i: nat): (r: (Arena, Option<CloseError>))
    requires Valid(a) && i < |a.elements|
    ensures Valid(r.0) && |r.0.elements| == |a.elements|
    ensures r.0.elements[i].closed
    ensures a.elements[i].closed ==> r == (a, None)
    ensures r.1.Some? <==> !a.elements[i].closed && ParentIsText(a, i)
    ensures r.1.Some? ==> r.0 == a.(elements := a.elements[i := a.elements[i].(closed := true)])
  {
    var e := a.elements[i];
    if e.closed then (a, None)
    else if ParentIsText(a, i) then (ReplaceKeepingLinks(a, i, e.(closed := true)), Some(TextCannotHaveChildren))
    else (CloseOpen(a, i), None)
  }

  /** An element that is not closed yet is nobody's child. */
  lemma OpenIsUnlisted(a: Arena, i: nat)
    requires Valid(a) && i < |a.elements| && !a.elements[i].closed
    ensures forall p :: 0 <= p < |a.elements| ==> i !in a.elements[p].children
  {
    forall p | 0 <= p < |a.elements|
      ensures i !in a.elements[p].children
    {
      if i in a.elements[p].children {
        assert false;
      }
    }
  }

  /** The successful path of close(). */
  function CloseOpen(a: Arena, i: nat): (r: Arena)
    requires Valid(a) && i < |a.elements|
    requires !a.elements[i].closed && !ParentIsText(a, i)
    ensures Valid(r) && |r.elements| == |a.elements| && r.elements[i].closed
  {
    var e := a.elements[i];
    var d := ClosedDims(e.layout, e.clipsHorizontal, e.clipsVertical, DimsOf(e), ChildDims(a, i));
    var a1 := if JoinsParentElements(e) then JoinGroup(a, e.group, i) else a;
    var a2 := ReplaceKeepingLinks(a1, i, WithDims(e, d).(closed := true));
    if e.parent.Some? && !e.isFloating then
      OpenIsUnlisted(a, i);
      assert a2.elements[e.parent.value] == a.elements[e.parent.value];
      AppendChild(a2, e.parent.value, i)
    else a2
  }

  /** A second close() has no effect at all. */
  lemma CloseIdempotent(a: Arena, i: nat)
    requires Valid(a) && i < |a.elements|
    ensures Close(Close(a, i).0, i) == (Close(a, i).0, None)
  {
  }

  /** What a successful first close() does to the arena: the element's
      extents become the clamped fit of its children; it is appended to the
      end of its parent's children exactly when it has a parent and is not
      floating; it is appended to its `parentElements` list exactly when
      `JoinsParentElements` holds; no other element changes. */
  lemma CloseEffects(a: Arena, i: nat)
    requires Valid(a) && i < |a.elements|
    requires !a.elements[i].closed && !ParentIsText(a, i)
    ensures var r := Close(a, i).0;
            var e := a.elements[i];
            && Close(a, i).1.None?
            && DimsOf(r.elements[i]) == ClosedDims(e.layout, e.clipsHorizontal, e.clipsVertical, DimsOf(e), ChildDims(a, i))
            && r.elements[i].children == e.children
            && r.elements[i].parent == e.parent
            && (e.parent.Some? && !e.isFloating ==>
                  r.elements[e.parent.value].children == a.elements[e.parent.value].children + [i])
            && (forall j :: 0 <= j < |a.elements| && j != i && (e.parent.None? || e.isFloating || j != e.parent.value) ==>
                  r.elements[j] == a.elements[j])
            && (e.parent.Some? && !e.isFloating ==>
                  r.elements[e.parent.value] == a.elements[e.parent.value].(children := a.elements[e.parent.value].children + [i]))
            && (JoinsParentElements(e) ==> r.groups == a.groups[e.group := a.groups[e.group] + [i]])
            && (!JoinsParentElements(e) ==> r.groups == a.groups)
  {
  }

  /** The element's extents after close(), in the source's terms, for an
      element without an aspect-ratio configuration: a percentage axis is 0,
      any other axis is the fit of its children clamped into the sizing's
      range. */
  lemma CloseClampsToSizing(a: Arena, i: nat)
    requires Valid(a) && i < |a.elements|
    requires !a.elements[i].closed && !ParentIsText(a, i)
    requires AspectRatioOf(a.elements[i].layout).None?
    ensures var e := a.elements[i];
            var r := Close(a, i).0.elements[i];
            var agg := Aggregate(e.layout, e.clipsHorizontal, e.clipsVertical, DimsOf(e), ChildDims(a, i));
            && (e.layout.width.Percentage? ==> r.width == 0.0 && r.minWidth == agg.minWidth)
            && (e.layout.width.MinMax? ==>
                  r.width == Clamp(agg.width, e.layout.width.min, e.layout.width.max)
                  && r.minWidth == Clamp(agg.minWidth, e.layout.width.min, e.layout.width.max))
            && (e.layout.height.Percentage? ==> r.height == 0.0 && r.minHeight == agg.minHeight)
            && (e.layout.height.MinMax? ==>
                  r.height == Clamp(agg.height, e.layout.height.min, e.layout.height.max)
                  && r.minHeight == Clamp(agg.minHeight, e.layout.height.min, e.layout.height.max))
  {
    CloseEffects(a, i);
  }
}
