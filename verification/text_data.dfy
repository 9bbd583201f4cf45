/** The wrapped-line container attached to a text element
    (`data.TextElementData`): preferred dimensions fixed at construction and
    a list of lines that is appended to or cleared. */
module TextData {

  datatype Line = Line(width: real, height: real, text: string)

  /** The internal list and its read-only view `lines` are one and the same
      sequence here. */
  datatype TextElementData = TextElementData(preferredWidth: real, preferredHeight: real, lines: seq<Line>)

  function NewTextElementData(preferredWidth: real, preferredHeight: real): (d: TextElementData)
    ensures d.preferredWidth == preferredWidth && d.preferredHeight == preferredHeight
    ensures d.lines == []
  {
    TextElementData(preferredWidth, preferredHeight, [])
  }

  /** `add(line)`: the line goes last, earlier lines keep their positions. */
  function Add(d: TextElementData, line: Line): (r: TextElementData)
    ensures |r.lines| == |d.lines| + 1 && r.lines[|d.lines|] == line
    ensures r.lines[..|d.lines|] == d.lines
    ensures r.preferredWidth == d.preferredWidth && r.preferredHeight == d.preferredHeight
  {
    d.(lines := d.lines + [line])
  }

  /** `reset()`: no lines remain. */
  function Reset(d: TextElementData): (r: TextElementData)
    ensures r.lines == []
    ensures r.preferredWidth == d.preferredWidth && r.preferredHeight == d.preferredHeight
  {
    d.(lines := [])
  }

  /** The mutating calls a text element's data receives. */
  datatype Op = AddLine(line: Line) | ResetLines

  function Apply(d: TextElementData, ops: seq<Op>): TextElementData
    decreases |ops|
  {
    if |ops| == 0 then d
    else
      var d' := match ops[0] case AddLine(l) => Add(d, l) case ResetLines => Reset(d);
      Apply(d', ops[1..])
  }

  /** The lines appended by `ops` after its last reset. */
  function AddedSinceReset(ops: seq<Op>): seq<Line>
  {
    if |ops| == 0 then []
    else
      var last := ops[|ops| - 1];
      match last
      case AddLine(l) => AddedSinceReset(ops[..|ops| - 1]) + [l]
      case ResetLines => []
  }

  predicate HasReset(ops: seq<Op>)
  {
    exists i :: 0 <= i < |ops| && ops[i].ResetLines?
  }

  /** After any sequence of calls the preferred dimensions are those given at
      construction, and the lines are the old lines (unless a reset happened)
      followed by the lines added since the last reset. */
  lemma {:induction false} ApplyOps(d: TextElementData, ops: seq<Op>)
    ensures Apply(d, ops).preferredWidth == d.preferredWidth
    ensures Apply(d, ops).preferredHeight == d.preferredHeight
    ensures Apply(d, ops).lines == (if HasReset(ops) then [] else d.lines) + AddedSinceReset(ops)
    decreases |ops|
  {
    if |ops| > 0 {
      var init := ops[..|ops| - 1];
      var last := ops[|ops| - 1];
      ApplyOps(d, init);
      ApplySnoc(d, init, last);
      assert ops == init + [last];
      if last.ResetLines? {
        assert HasReset(ops) by { assert ops[|ops| - 1].ResetLines?; }
      } else {
        assert HasReset(ops) <==> HasReset(init) by {
          if HasReset(ops) {
            var i :| 0 <= i < |ops| && ops[i].ResetLines?;
            assert i < |init| && init[i] == ops[i];
          }
          if HasReset(init) {
            var i :| 0 <= i < |init| && init[i].ResetLines?;
            assert ops[i] == init[i];
          }
        }
      }
    }
  }

  lemma {:induction false} ApplySnoc(d: TextElementData, ops: seq<Op>, op: Op)
    ensures Apply(d, ops + [op]) == Apply(Apply(d, ops), [op])
    decreases |ops|
  {
    if |ops| > 0 {
      assert (ops + [op])[1..] == ops[1..] + [op];
      var d' := match ops[0] case AddLine(l) => Add(d, l) case ResetLines => Reset(d);
      ApplySnoc(d', ops[1..], op);
    }
  }
}
