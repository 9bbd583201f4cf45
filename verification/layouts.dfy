/** The layout policy of an element (`Layout_`): sizing per axis, padding,
    child gap, alignment, direction and the list of element configurations
    (`IElementConfig_`), which the builder keeps sorted by priority and which
    is searched first-match by configuration kind. */
module Layouts {
  import opened Wrappers
  import opened Numbers
  import opened Sizings

  datatype VAlignment = Top | VCenter | Bottom

  datatype HAlignment = Left | HCenter | Right

  datatype LayoutDirection = LeftToRight | TopToBottom

  /** `Layout_.Padding`, in whole units as in the source. */
  datatype Padding = Padding(left: int, right: int, top: int, bottom: int)

  /** `Padding.DEFAULT_PADDING` and `Layout_.DEFAULT_CHILD_GAP`. */
  const DEFAULT_PADDING: int := 4
  const DEFAULT_CHILD_GAP: int := 4

  /** `new Padding(all)`: the same amount on every side. */
  function UniformPadding(all: int): (p: Padding)
    ensures p.left == all && p.right == all && p.top == all && p.bottom == all
  {
    Padding(all, all, all, all)
  }

  datatype WrapMode = WrapWords | WrapNewlines | WrapNone

  datatype AttachPoint =
    | TopLeft | TopCenter | TopRight
    | CenterLeft | CenterCenter | CenterRight
    | BottomLeft | BottomCenter | BottomRight

  datatype ClipToElement = ClipToNone | ClipToAttachedParent

  datatype AttachToElement = AttachToNone | AttachToParent | AttachToElementWithId | AttachToRoot

  /** The four configuration records of `IElementConfig_`. A text config names
      its font by the font's id; the font's measuring function is supplied
      separately to the text measurement. */
  datatype ConfigBody =
    | Text(text: string, fontId: int, fontSize: int, letterSpacing: int, lineHeight: int,
           wrapMode: WrapMode, alignment: HAlignment)
    | Floating(xOffset: real, yOffset: real, expandWidth: real, expandHeight: real, zIndex: int,
               element: AttachPoint, parent: AttachPoint, attachTo: AttachToElement,
               clipTo: ClipToElement, elementId: Option<string>)
    | Clip(horizontal: bool, vertical: bool, xChildOffset: real, yChildOffset: real)
    | AspectRatio(aspectRatio: real)

  /** The class a configuration is looked up by in `config(type)`. */
  datatype ConfigKind = TextKind | FloatingKind | ClipKind | AspectRatioKind

  /** A configuration together with its `priority()`; the priority values are
      defined by the configuration interface, which is not part of this model,
      so they are carried as data. */
  datatype Config = Config(priority: int, body: ConfigBody)

  function KindOf(c: ConfigBody): ConfigKind
  {
    match c
    case Text(_, _, _, _, _, _, _) => TextKind
    case Floating(_, _, _, _, _, _, _, _, _, _) => FloatingKind
    case Clip(_, _, _, _) => ClipKind
    case AspectRatio(_) => AspectRatioKind
  }

  datatype Layout = Layout(
    width: Sizing,
    height: Sizing,
    padding: Padding,
    childGap: int,
    childVerticalAlignment: VAlignment,
    childHorizontalAlignment: HAlignment,
    layoutDirection: LayoutDirection,
    renderBackground: bool,
    configs: seq<Config>)

  // ---------------------------------------------------------------------
  // Sorting the configuration list by priority
  // ---------------------------------------------------------------------

  predicate SortedByPriority(s: seq<Config>)
  {
    forall i, j :: 0 <= i < j < |s| ==> s[i].priority <= s[j].priority
  }

  /** The configurations of one priority, in list order. Two lists that agree
      on this for every priority keep equal-priority configurations in the
      same relative order. */
  function WithPriority(s: seq<Config>, p: int): seq<Config>
  {
    if |s| == 0 then []
    else (if s[0].priority == p then [s[0]] else []) + WithPriority(s[1..], p)
  }

  /** Inserts `c` before the first element whose priority is not smaller, so
      that `c` precedes every equal-priority element already in `s`. */
  function Insert(c: Config, s: seq<Config>): seq<Config>
  {
    if |s| == 0 || c.priority <= s[0].priority then [c] + s
    else [s[0]] + Insert(c, s[1..])
  }

  /** A stable insertion sort (Java's `List.sort` is stable). */
  function InsertionSort(s: seq<Config>): seq<Config>
  {
    if |s| == 0 then [] else Insert(s[0], InsertionSort(s[1..]))
  }

  /** Every element of `Insert(c, s)` is `c` or an element of `s`. */
  lemma {:induction false} InsertElements(c: Config, s: seq<Config>)
    ensures |Insert(c, s)| == |s| + 1
    ensures multiset(Insert(c, s)) == multiset([c] + s)
    ensures forall x :: x in Insert(c, s) ==> x == c || x in s
  {
    if |s| > 0 && c.priority > s[0].priority {
      InsertElements(c, s[1..]);
      assert s == [s[0]] + s[1..];
    }
  }

  lemma {:induction false} InsertSorted(c: Config, s: seq<Config>)
    requires SortedByPriority(s)
    ensures SortedByPriority(Insert(c, s))
  {
    if |s| > 0 && c.priority > s[0].priority {
      var r := Insert(c, s[1..]);
      InsertSorted(c, s[1..]);
      InsertElements(c, s[1..]);
      forall x | x in r
        ensures s[0].priority <= x.priority
      {
        if x != c {
          var k :| 0 <= k < |s[1..]| && s[1..][k] == x;
          assert s[k + 1] == x;
        }
      }
      ConsSorted(s[0], r);
    }
  }

  /** A head no higher than every element keeps a sorted list sorted. */
  lemma ConsSorted(h: Config, r: seq<Config>)
    requires SortedByPriority(r)
    requires forall x :: x in r ==> h.priority <= x.priority
    ensures SortedByPriority([h] + r)
  {
    var t := [h] + r;
    forall i, j | 0 <= i < j < |t|
      ensures t[i].priority <= t[j].priority
    {
      assert t[j] == r[j - 1];
      if i == 0 {
        assert t[j] in r;
      } else {
        assert t[i] == r[i - 1];
      }
    }
  }

  lemma WithPriorityCons(x: Config, s: seq<Config>, p: int)
    ensures WithPriority([x] + s, p) == (if x.priority == p then [x] else []) + WithPriority(s, p)
  {
    assert ([x] + s)[1..] == s;
  }

  lemma {:induction false} InsertStable(c: Config, s: seq<Config>, p: int)
    requires SortedByPriority(s)
    ensures WithPriority(Insert(c, s), p) == WithPriority([c] + s, p)
  {
    if |s| > 0 && c.priority > s[0].priority {
      var r := Insert(c, s[1..]);
      InsertStable(c, s[1..], p);
      var tail := WithPriority(s[1..], p);
      WithPriorityCons(s[0], r, p);
      WithPriorityCons(c, s[1..], p);
      WithPriorityCons(c, s, p);
      assert WithPriority(s, p) == (if s[0].priority == p then [s[0]] else []) + tail;
      if s[0].priority == p {
        assert WithPriority(Insert(c, s), p) == [s[0]] + tail;
        assert WithPriority([c] + s, p) == [s[0]] + tail;
      } else if c.priority == p {
        assert WithPriority(Insert(c, s), p) == [c] + tail;
        assert WithPriority([c] + s, p) == [c] + tail;
      } else {
        assert WithPriority(Insert(c, s), p) == tail;
      }
    }
  }

  lemma {:induction false} InsertionSortCorrect(s: seq<Config>)
    ensures SortedByPriority(InsertionSort(s))
    ensures multiset(InsertionSort(s)) == multiset(s)
    ensures |InsertionSort(s)| == |s|
    ensures forall p :: WithPriority(InsertionSort(s), p) == WithPriority(s, p)
  {
    if |s| > 0 {
      var t := InsertionSort(s[1..]);
      InsertionSortCorrect(s[1..]);
      InsertSorted(s[0], t);
      InsertElements(s[0], t);
      assert s == [s[0]] + s[1..];
      forall p
        ensures WithPriority(InsertionSort(s), p) == WithPriority(s, p)
      {
        InsertStable(s[0], t, p);
        assert WithPriority([s[0]] + t, p) == (if s[0].priority == p then [s[0]] else []) + WithPriority(t, p);
        assert WithPriority(s, p) == (if s[0].priority == p then [s[0]] else []) + WithPriority(s[1..], p);
      }
    }
  }

  /** `Layout_.sort`, the builder's transformer of the configuration list:
      `null` becomes the empty list, otherwise the result is a permutation of
      the input, ascending by priority, that keeps equal-priority
      configurations in their original order. */
  function Sort(list: Option<seq<Config>>): (r: seq<Config>)
    ensures list.None? ==> r == []
    ensures SortedByPriority(r)
    ensures list.Some? ==> multiset(r) == multiset(list.value)
    ensures list.Some? ==> forall p :: WithPriority(r, p) == WithPriority(list.value, p)
  {
    match list
    case None => []
    case Some(s) =>
      InsertionSortCorrect(s);
      InsertionSort(s)
  }

  lemma {:induction false} InsertionSortOfSorted(s: seq<Config>)
    requires SortedByPriority(s)
    ensures InsertionSort(s) == s
  {
    if |s| > 0 {
      assert SortedByPriority(s[1..]);
      InsertionSortOfSorted(s[1..]);
    }
  }

  /** Sorting an already sorted list returns it unchanged, so the builder's
      transformer is idempotent. */
  lemma SortIdempotent(list: Option<seq<Config>>)
    ensures Sort(Some(Sort(list))) == Sort(list)
  {
    InsertionSortOfSorted(Sort(list));
  }

  // ---------------------------------------------------------------------
  // First-match configuration lookup
  // ---------------------------------------------------------------------

  /** Index of the first configuration of the given kind at or after `from`. */
  function FirstIndexOfKind(configs: seq<Config>, kind: ConfigKind, from: nat): (r: Option<nat>)
    decreases |configs| - from
    ensures r.None? ==> forall j :: from <= j < |configs| ==> KindOf(configs[j].body) != kind
    ensures r.Some? ==> from <= r.value < |configs| && KindOf(configs[r.value].body) == kind
    ensures r.Some? ==> forall j :: from <= j < r.value ==> KindOf(configs[j].body) != kind
  {
    if from >= |configs| then None
    else if KindOf(configs[from].body) == kind then Some(from)
    else FirstIndexOfKind(configs, kind, from + 1)
  }

  /** `Layout_.config(type)`: the first configuration of the requested kind in
      list order, or nothing when the list holds none. */
  function ConfigOf(layout: Layout, kind: ConfigKind): (r: Option<ConfigBody>)
    ensures r.None? <==> forall j :: 0 <= j < |layout.configs| ==> KindOf(layout.configs[j].body) != kind
    ensures r.Some? ==> KindOf(r.value) == kind
    ensures r.Some? ==> exists i :: 0 <= i < |layout.configs| && layout.configs[i].body == r.value &&
                                    (forall j :: 0 <= j < i ==> KindOf(layout.configs[j].body) != kind)
  {
    match FirstIndexOfKind(layout.configs, kind, 0)
    case None => None
    case Some(i) => Some(layout.configs[i].body)
  }

  predicate HasConfig(layout: Layout, kind: ConfigKind)
  {
    ConfigOf(layout, kind).Some?
  }

  // ---------------------------------------------------------------------
  // Builder defaults
  // ---------------------------------------------------------------------

  /** The layout the generated builder produces when nothing is set:
      fit sizing on both axes, padding 4 on every side, gap 4, children
      aligned top/left, left-to-right, no background, no configurations. */
  function DefaultLayout(): (l: Layout)
    ensures TypeOf(l.width) == FitType && l.width.min == 0.0 && l.width.max == FLOAT_MAX
    ensures TypeOf(l.height) == FitType && l.height.min == 0.0 && l.height.max == FLOAT_MAX
    ensures l.padding == UniformPadding(4) && l.childGap == 4
    ensures l.childVerticalAlignment == Top && l.childHorizontalAlignment == Left
    ensures l.layoutDirection == LeftToRight && !l.renderBackground
    ensures l.configs == []
  {
    Layout(FitAny(), FitAny(), UniformPadding(DEFAULT_PADDING), DEFAULT_CHILD_GAP,
           Top, Left, LeftToRight, false, Sort(Some([])))
  }
}
