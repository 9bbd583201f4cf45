/** `LayoutContext`: the registry a layout pass works from (roots, text
    elements, attachment ids, the text-measurement cache) and `finalize`,
    which sizes along x, measures the texts and sizes along y. Elements live
    in an `Arena` and are referred to by index. */
module LayoutContext {
  import opened Wrappers
  import opened Layouts
  import opened Elements
  import opened TextCache
  import opened AxisSolver

  datatype Context = Context(
    roots: seq<nat>,
    textElements: seq<nat>,
    attachments: map<string, nat>,
    cache: Cache,
    changed: bool)

  datatype ContextError =
    | AttachIdInUse(id: string)
    | MissingTextConfig(element: nat)

  /** A fresh context: nothing registered, an empty cache, unchanged. */
  function NewContext(): (c: Context)
    ensures c.roots == [] && c.textElements == [] && c.attachments == map[]
    ensures TextCache.Valid(c.cache) && |c.cache.entries| == 0 && !c.changed
  {
    Context([], [], map[], Cache([]), false)
  }

  /** `reset`: forgets roots, text elements and attachment ids and marks the
      context changed; cached measurements survive. */
  function Reset(c: Context): (r: Context)
    ensures r.roots == [] && r.textElements == [] && r.attachments == map[]
    ensures r.changed && r.cache == c.cache
  {
    c.(roots := [], textElements := [], attachments := map[], changed := true)
  }

  /** `addRoot`: appends the element and marks the context changed. */
  function AddRoot(c: Context, e: nat): (r: Context)
    ensures r.roots == c.roots + [e] && r.changed
    ensures r.textElements == c.textElements && r.attachments == c.attachments && r.cache == c.cache
  {
    c.(roots := c.roots + [e], changed := true)
  }

  /** `addText`: appends the element and marks the context changed. */
  function AddText(c: Context, e: nat): (r: Context)
    ensures r.textElements == c.textElements + [e] && r.changed
    ensures r.roots == c.roots && r.attachments == c.attachments && r.cache == c.cache
  {
    c.(textElements := c.textElements + [e], changed := true)
  }

  /** `setAttachId`: no id is a no-op; an id already in use is an error and
      leaves the registry alone; otherwise the id now names the element and
      every other id keeps its element. The changed flag is not touched. */
  function SetAttachId(c: Context, id: Option<string>, e: nat): (r: Result<Context, ContextError>)
    ensures id.None? ==> r == Success(c)
    ensures id.Some? && id.value in c.attachments ==> r == Failure(AttachIdInUse(id.value))
    ensures id.Some? && id.value !in c.attachments ==>
              && r.Success?
              && r.value.attachments.Keys == c.attachments.Keys + {id.value}
              && r.value.attachments[id.value] == e
              && (forall other :: other in c.attachments ==> r.value.attachments[other] == c.attachments[other])
              && r.value.roots == c.roots && r.value.textElements == c.textElements
              && r.value.cache == c.cache && r.value.changed == c.changed
  {
    match id
    case None => Success(c)
    case Some(name) =>
      if name in c.attachments then Failure(AttachIdInUse(name))
      else Success(c.(attachments := c.attachments[name := e]))
  }

  /** An id can be registered once: a second registration fails, whatever
      element it names, until the context is reset. */
  lemma AttachIdsAreRegisteredOnce(c: Context, id: string, e1: nat, e2: nat)
    requires id !in c.attachments
    ensures SetAttachId(c, Some(id), e1).Success?
    ensures SetAttachId(SetAttachId(c, Some(id), e1).value, Some(id), e2) == Failure(AttachIdInUse(id))
    ensures SetAttachId(Reset(SetAttachId(c, Some(id), e1).value), Some(id), e2).Success?
  {
  }

  /** Every registered index names an element of the arena, and the cache is
      within bounds. */
  ghost predicate WellFormed(c: Context, a: Arena)
  {
    && Elements.Valid(a)
    && (forall i :: 0 <= i < |c.roots| ==> c.roots[i] < |a.elements|)
    && (forall i :: 0 <= i < |c.textElements| ==> c.textElements[i] < |a.elements|)
    && (forall id :: id in c.attachments ==> c.attachments[id] < |a.elements|)
    && TextCache.Valid(c.cache)
  }

  predicate HasTextConfig(e: Element)
  {
    ConfigOf(e.layout, TextKind).Some?
  }

  /** The position of the first text element without a text configuration,
      scanning from `from`. */
  function FirstMissing(a: Arena, texts: seq<nat>, from: nat): (r: Option<nat>)
    requires forall i :: 0 <= i < |texts| ==> texts[i] < |a.elements|
    requires from <= |texts|
    ensures r.None? <==> forall i :: from <= i < |texts| ==> HasTextConfig(a.elements[texts[i]])
    ensures r.Some? ==> from <= r.value < |texts| && !HasTextConfig(a.elements[texts[r.value]])
                        && forall i :: from <= i < r.value ==> HasTextConfig(a.elements[texts[i]])
    decreases |texts| - from
  {
    if from == |texts| then None
    else if !HasTextConfig(a.elements[texts[from]]) then Some(from)
    else FirstMissing(a, texts, from + 1)
  }

  /** The text configuration of every text element, in registration order;
      the first element without one is an error (the source passes a null
      configuration on and fails on it). */
  function TextConfigs(a: Arena, texts: seq<nat>): (r: Result<seq<ConfigBody>, ContextError>)
    requires forall i :: 0 <= i < |texts| ==> texts[i] < |a.elements|
    ensures r.Success? <==> forall i :: 0 <= i < |texts| ==> HasTextConfig(a.elements[texts[i]])
    ensures r.Success? ==> |r.value| == |texts| && forall i :: 0 <= i < |texts| ==>
              r.value[i] == ConfigOf(a.elements[texts[i]].layout, TextKind).value && r.value[i].Text?
    ensures r.Failure? ==>
              exists i :: && 0 <= i < |texts|
                          && r.error == MissingTextConfig(texts[i])
                          && !HasTextConfig(a.elements[texts[i]])
                          && forall j :: 0 <= j < i ==> HasTextConfig(a.elements[texts[j]])
  {
    match FirstMissing(a, texts, 0)
    case Some(i) => Failure(MissingTextConfig(texts[i]))
    case None =>
      Success(seq(|texts|, i requires 0 <= i < |texts| && HasTextConfig(a.elements[texts[i]]) =>
        ConfigOf(a.elements[texts[i]].layout, TextKind).value))
  }

  /** `finalize`: clears the changed flag, sizes along x, measures every text
      element's text into the cache at `time` (the source's wall clock),
      then sizes along y. The tree and every minimum size are untouched, the
      registry is kept, and the cache holds exactly what measuring the texts
      in order leaves in it. A text element without a text configuration
      makes the whole call fail. `asWritten` picks the source's shrink scan
      and text measurement or the evidently intended ones; every clause
      holds of both. */
  method Finalize(c: Context, a: Arena, time: int, fonts: FontBackend, asWritten: bool, fuel: nat)
    returns (r: Result<(Context, Arena), ContextError>)
    requires WellFormed(c, a)
    ensures r.Failure? <==> TextConfigs(a, c.textElements).Failure?
    ensures r.Failure? ==> r.error == TextConfigs(a, c.textElements).error
    ensures r.Success? ==>
              var (c', a') := r.value;
              && WellFormed(c', a')
              && !c'.changed
              && c'.roots == c.roots && c'.textElements == c.textElements && c'.attachments == c.attachments
              && c'.cache == MeasureAll(c.cache, time, TextConfigs(a, c.textElements).value, fonts, asWritten)
              && Reshaped(a, a') && KeepsMinimums(a, a')
  {
    var c1 := c.(changed := false);
    var ax := SizeAlongAxis(a, c.roots, c.attachments, X, asWritten, fuel);
    TextConfigsIgnoreExtents(a, ax, c.textElements);
    var cfgs := TextConfigs(ax, c.textElements);
    if cfgs.Failure? {
      return Failure(cfgs.error);
    }
    CacheStaysBounded(c.cache, time, cfgs.value, fonts, asWritten);
    var c2 := c1.(cache := MeasureAll(c.cache, time, cfgs.value, fonts, asWritten));
    var ay := SizeAlongAxis(ax, c.roots, c.attachments, Y, asWritten, fuel);
    Compose(a, ax, ay);
    r := Success((c2, ay));
  }

  /** Sizing changes extents only, so the text configurations read after
      the x pass are the ones registered. */
  lemma TextConfigsIgnoreExtents(a: Arena, b: Arena, texts: seq<nat>)
    requires Reshaped(a, b)
    requires forall i :: 0 <= i < |texts| ==> texts[i] < |a.elements|
    ensures TextConfigs(b, texts) == TextConfigs(a, texts)
  {
    assert forall i :: 0 <= i < |texts| ==> b.elements[texts[i]].layout == a.elements[texts[i]].layout;
    FirstMissingIgnoresExtents(a, b, texts, 0);
    if FirstMissing(a, texts, 0).None? {
      assert TextConfigs(b, texts).value == TextConfigs(a, texts).value;
    }
  }

  lemma {:induction false} FirstMissingIgnoresExtents(a: Arena, b: Arena, texts: seq<nat>, from: nat)
    requires |b.elements| == |a.elements|
    requires forall i :: 0 <= i < |texts| ==> texts[i] < |a.elements|
    requires forall i :: 0 <= i < |texts| ==> b.elements[texts[i]].layout == a.elements[texts[i]].layout
    requires from <= |texts|
    ensures FirstMissing(b, texts, from) == FirstMissing(a, texts, from)
    decreases |texts| - from
  {
    if from < |texts| {
      var l := a.elements[texts[from]].layout;
      assert b.elements[texts[from]].layout == l;
      FirstMissingIgnoresExtents(a, b, texts, from + 1);
    }
  }
}
