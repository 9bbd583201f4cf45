/** Word segmentation and measurement of a text (the uncached half of
    `LayoutContext.measuredText`). The text is cut after every space and
    before every newline; each newline also records a zero-length marker
    word. The font backend is a deterministic function supplied by the
    caller.

    The source reuses one two-element `dimensions` array for every
    measurement, so a separator that ends an empty word reads the previous
    word's dimensions, and the trailing word takes its height from the
    width slot. `MeasureAsWritten` reproduces both; `Measure` is the
    measurement the rest of the model uses, which starts every word from
    zero and reads the height slot. The two agree on the word list's
    positions and on `containsNewLines`. */
module TextMeasure {
  import opened Numbers

  /** `IFont.calculateSize(text, fontSize, out)` of one font at one size:
      the width and height of a run of text. */
  type Font = string -> (real, real)

  /** `MeasuredWord(start, length, width)`; a zero-length word stands for a
      line break. */
  datatype MeasuredWord = MeasuredWord(start: nat, length: nat, width: real)

  /** The result fields of `MeasuredText` that the scan computes. */
  datatype Measurement = Measurement(
    words: seq<MeasuredWord>,
    minWidth: real,
    width: real,
    height: real,
    containsNewLines: bool)

  predicate IsBreak(c: char)
  {
    c == ' ' || c == '\n'
  }

  // ---------------------------------------------------------------------
  // The scan
  // ---------------------------------------------------------------------

  /** The loop's local state: the start of the pending word, the shared
      `dimensions` array, the running line width, the widest finished line,
      the tallest word, the widest word and the words so far. */
  datatype Scan = Scan(
    start: nat,
    dimW: real,
    dimH: real,
    lineWidth: real,
    widest: real,
    height: real,
    minWidth: real,
    words: seq<MeasuredWord>,
    newlines: bool)

  /** One iteration of the loop, at position `end`. `asWritten` selects the
      source's reuse of stale dimensions for an empty word. */
  function Step(text: string, font: Font, spaceWidth: real, asWritten: bool, end: nat, s: Scan): (r: Scan)
    requires s.start <= end < |text|
    ensures r.start == (if IsBreak(text[end]) then end + 1 else s.start)
  {
    var c := text[end];
    if !IsBreak(c) then s
    else
      var len := end - s.start;
      var dims := if len > 0 then font(text[s.start..end])
                  else if asWritten then (s.dimW, s.dimH)
                  else (0.0, 0.0);
      var minWidth := Max(dims.0, s.minWidth);
      var height := Max(s.height, dims.1);
      if c == ' ' then
        var w := dims.0 + spaceWidth;
        s.(start := end + 1, dimW := w, dimH := dims.1, lineWidth := s.lineWidth + w,
           height := height, minWidth := minWidth,
           words := s.words + [MeasuredWord(s.start, len + 1, w)])
      else
        var ws := if len > 0 then s.words + [MeasuredWord(s.start, len, dims.0)] else s.words;
        var line := s.lineWidth + dims.0;
        s.(start := end + 1, dimW := dims.0, dimH := dims.1, lineWidth := 0.0,
           widest := Max(line, s.widest), height := height, minWidth := minWidth,
           words := ws + [MeasuredWord(end + 1, 0, 0.0)], newlines := true)
  }

  /** The loop from position `end` to the end of the text. */
  function ScanFrom(text: string, font: Font, spaceWidth: real, asWritten: bool, end: nat, s: Scan): Scan
    requires s.start <= end <= |text|
    decreases |text| - end
  {
    if end == |text| then s
    else ScanFrom(text, font, spaceWidth, asWritten, end + 1, Step(text, font, spaceWidth, asWritten, end, s))
  }

  /** The state before the loop: the space has just been measured into the
      shared array. */
  function InitialScan(font: Font): Scan
  {
    var sp := font(" ");
    Scan(0, sp.0, sp.1, 0.0, 0.0, 0.0, 0.0, [], false)
  }

  /** The loop followed by the trailing word and the final width. */
  function MeasureWith(text: string, font: Font, letterSpacing: int, asWritten: bool): Measurement
  {
    var s := ScanFrom(text, font, font(" ").0, asWritten, 0, InitialScan(font));
    var words := WithTrailing(text, font, s);
    if |text| - s.start > 0 then
      var dims := font(text[s.start..]);
      var line := s.lineWidth + dims.0;
      Measurement(words, Max(dims.0, s.minWidth), Max(line, s.widest) - letterSpacing as real,
                  Max(s.height, if asWritten then dims.0 else dims.1), s.newlines)
    else
      Measurement(words, s.minWidth, Max(s.lineWidth, s.widest) - letterSpacing as real, s.height, s.newlines)
  }

  /** The words of the loop followed by the trailing word, if any. */
  function WithTrailing(text: string, font: Font, s: Scan): seq<MeasuredWord>
  {
    if |text| - s.start > 0 then s.words + [MeasuredWord(s.start, |text| - s.start, font(text[s.start..]).0)]
    else s.words
  }

  /** The measurement exactly as the source computes it. */
  function MeasureAsWritten(text: string, font: Font, letterSpacing: int): Measurement
  {
    MeasureWith(text, font, letterSpacing, true)
  }

  /** The measurement with every word measured from zero and the height
      taken from the height slot. */
  function Measure(text: string, font: Font, letterSpacing: int): Measurement
  {
    MeasureWith(text, font, letterSpacing, false)
  }

  // ---------------------------------------------------------------------
  // Reference definitions over the word list
  // ---------------------------------------------------------------------

  predicate InBounds(text: string, w: MeasuredWord)
  {
    w.start + w.length <= |text|
  }

  /** The text a word stands for: its slice, or a newline for a marker. */
  function Piece(text: string, w: MeasuredWord): string
    requires InBounds(text, w)
  {
    if w.length == 0 then "\n" else text[w.start..w.start + w.length]
  }

  /** The concatenation of the words' pieces. */
  function Rebuild(text: string, ws: seq<MeasuredWord>): string
    requires forall k :: 0 <= k < |ws| ==> InBounds(text, ws[k])
  {
    if |ws| == 0 then [] else Rebuild(text, ws[..|ws| - 1]) + Piece(text, ws[|ws| - 1])
  }

  /** A marker follows a newline and has width 0; any other word has no
      separator before its last character, and that last character is not
      a newline (it is a space for a space-terminated word). */
  predicate WellFormed(text: string, w: MeasuredWord)
    requires InBounds(text, w)
  {
    if w.length == 0 then 1 <= w.start && text[w.start - 1] == '\n' && w.width == 0.0
    else
      && (forall j :: w.start <= j < w.start + w.length - 1 ==> !IsBreak(text[j]))
      && text[w.start + w.length - 1] != '\n'
  }

  predicate EndsWithSpace(text: string, w: MeasuredWord)
    requires InBounds(text, w)
  {
    w.length > 0 && text[w.start + w.length - 1] == ' '
  }

  /** The word without its trailing space. */
  function Core(text: string, w: MeasuredWord): string
    requires InBounds(text, w)
  {
    if EndsWithSpace(text, w) then text[w.start..w.start + w.length - 1]
    else if w.length == 0 then []
    else text[w.start..w.start + w.length]
  }

  /** The font's measure of a word's core; an empty core measures zero. */
  function CoreDims(text: string, font: Font, w: MeasuredWord): (real, real)
    requires InBounds(text, w)
  {
    var c := Core(text, w);
    if |c| > 0 then font(c) else (0.0, 0.0)
  }

  /** The width a word should carry: its core plus one space when it is
      space-terminated; a marker is 0 wide. */
  function ExpectedWidth(text: string, font: Font, spaceWidth: real, w: MeasuredWord): real
    requires InBounds(text, w)
  {
    CoreDims(text, font, w).0 + (if EndsWithSpace(text, w) then spaceWidth else 0.0)
  }

  predicate AllInBounds(text: string, ws: seq<MeasuredWord>)
  {
    forall k :: 0 <= k < |ws| ==> InBounds(text, ws[k])
  }

  /** The widest word core (at least 0). */
  function WidestCore(text: string, font: Font, ws: seq<MeasuredWord>): real
    requires AllInBounds(text, ws)
  {
    if |ws| == 0 then 0.0 else Max(CoreDims(text, font, ws[|ws| - 1]).0, WidestCore(text, font, ws[..|ws| - 1]))
  }

  /** The tallest word core (at least 0). */
  function TallestCore(text: string, font: Font, ws: seq<MeasuredWord>): real
    requires AllInBounds(text, ws)
  {
    if |ws| == 0 then 0.0 else Max(TallestCore(text, font, ws[..|ws| - 1]), CoreDims(text, font, ws[|ws| - 1]).1)
  }

  /** The width of the open line: the words since the last marker. */
  function OpenLine(ws: seq<MeasuredWord>): real
  {
    if |ws| == 0 then 0.0
    else if ws[|ws| - 1].length == 0 then 0.0
    else OpenLine(ws[..|ws| - 1]) + ws[|ws| - 1].width
  }

  /** The widest line closed by a marker (0 when there is none). */
  function WidestClosed(ws: seq<MeasuredWord>): real
  {
    if |ws| == 0 then 0.0
    else if ws[|ws| - 1].length == 0 then Max(OpenLine(ws[..|ws| - 1]), WidestClosed(ws[..|ws| - 1]))
    else WidestClosed(ws[..|ws| - 1])
  }

  /** The widest line of a word list, the open one included. */
  function WidestLine(ws: seq<MeasuredWord>): real
  {
    Max(OpenLine(ws), WidestClosed(ws))
  }

  // ---------------------------------------------------------------------
  // Loop invariants
  // ---------------------------------------------------------------------

  /** The words so far cut exactly the first `upto` characters. */
  ghost predicate WordsInv(text: string, upto: nat, ws: seq<MeasuredWord>)
  {
    && upto <= |text|
    && (forall k :: 0 <= k < |ws| ==> ws[k].start + ws[k].length <= upto)
    && (forall k :: 0 <= k < |ws| ==> WellFormed(text, ws[k]))
    && Rebuild(text, ws) == text[..upto]
  }

  /** What holds of both variants after the first `end` characters. */
  ghost predicate ScanInv(text: string, end: nat, s: Scan)
  {
    && s.start <= end <= |text|
    && (forall j :: s.start <= j < end ==> !IsBreak(text[j]))
    && WordsInv(text, s.start, s.words)
    && (s.newlines <==> '\n' in text[..end])
  }

  /** The measured numbers agree with the reference definitions over the
      words so far. */
  ghost predicate Measured(text: string, font: Font, spaceWidth: real, ws: seq<MeasuredWord>,
                           minWidth: real, height: real, lineWidth: real, widest: real)
    requires AllInBounds(text, ws)
  {
    && (forall k :: 0 <= k < |ws| ==> ws[k].width == ExpectedWidth(text, font, spaceWidth, ws[k]))
    && minWidth == WidestCore(text, font, ws)
    && height == TallestCore(text, font, ws)
    && OpenLine(ws) == lineWidth
    && WidestClosed(ws) == widest
  }

  /** What holds of the corrected variant in addition. */
  ghost predicate MeasureInv(text: string, font: Font, spaceWidth: real, s: Scan)
    requires AllInBounds(text, s.words)
  {
    Measured(text, font, spaceWidth, s.words, s.minWidth, s.height, s.lineWidth, s.widest)
  }

  lemma RebuildSnoc(text: string, ws: seq<MeasuredWord>, w: MeasuredWord)
    requires AllInBounds(text, ws) && InBounds(text, w)
    ensures AllInBounds(text, ws + [w])
    ensures Rebuild(text, ws + [w]) == Rebuild(text, ws) + Piece(text, w)
  {
    assert (ws + [w])[..|ws|] == ws;
  }

  lemma WidestSnoc(text: string, font: Font, ws: seq<MeasuredWord>, w: MeasuredWord)
    requires AllInBounds(text, ws) && InBounds(text, w)
    ensures AllInBounds(text, ws + [w])
    ensures WidestCore(text, font, ws + [w]) == Max(CoreDims(text, font, w).0, WidestCore(text, font, ws))
  {
    assert (ws + [w])[..|ws|] == ws;
  }

  lemma TallestSnoc(text: string, font: Font, ws: seq<MeasuredWord>, w: MeasuredWord)
    requires AllInBounds(text, ws) && InBounds(text, w)
    ensures AllInBounds(text, ws + [w])
    ensures TallestCore(text, font, ws + [w]) == Max(TallestCore(text, font, ws), CoreDims(text, font, w).1)
  {
    assert (ws + [w])[..|ws|] == ws;
  }

  lemma LinesSnoc(ws: seq<MeasuredWord>, w: MeasuredWord)
    ensures OpenLine(ws + [w]) == if w.length == 0 then 0.0 else OpenLine(ws) + w.width
    ensures WidestClosed(ws + [w]) == if w.length == 0 then Max(OpenLine(ws), WidestClosed(ws)) else WidestClosed(ws)
  {
    assert (ws + [w])[..|ws|] == ws;
  }

  lemma {:induction false} WidestCoreNonNegative(text: string, font: Font, ws: seq<MeasuredWord>)
    requires AllInBounds(text, ws)
    ensures WidestCore(text, font, ws) >= 0.0 && TallestCore(text, font, ws) >= 0.0
  {
    if |ws| > 0 {
      assert AllInBounds(text, ws[..|ws| - 1]);
      WidestCoreNonNegative(text, font, ws[..|ws| - 1]);
    }
  }

  /** Appending a word whose piece continues the text keeps the cut. */
  lemma WordsSnoc(text: string, upto: nat, ws: seq<MeasuredWord>, w: MeasuredWord, upto': nat)
    requires WordsInv(text, upto, ws) && upto <= upto' <= |text|
    requires InBounds(text, w) && WellFormed(text, w) && w.start + w.length <= upto'
    requires text[..upto] + Piece(text, w) == text[..upto']
    ensures WordsInv(text, upto', ws + [w])
  {
    assert AllInBounds(text, ws);
    RebuildSnoc(text, ws, w);
  }

  /** Appending a word whose width is the expected one keeps the measured
      numbers in step with the references. */
  lemma MeasuredSnoc(text: string, font: Font, spaceWidth: real, ws: seq<MeasuredWord>,
                     minWidth: real, height: real, lineWidth: real, widest: real, w: MeasuredWord)
    requires AllInBounds(text, ws) && InBounds(text, w)
    requires Measured(text, font, spaceWidth, ws, minWidth, height, lineWidth, widest)
    requires w.width == ExpectedWidth(text, font, spaceWidth, w)
    ensures AllInBounds(text, ws + [w])
    ensures Measured(text, font, spaceWidth, ws + [w],
                     Max(CoreDims(text, font, w).0, minWidth), Max(height, CoreDims(text, font, w).1),
                     if w.length == 0 then 0.0 else lineWidth + w.width,
                     if w.length == 0 then Max(lineWidth, widest) else widest)
  {
    WidestSnoc(text, font, ws, w);
    TallestSnoc(text, font, ws, w);
    LinesSnoc(ws, w);
    WidthsSnoc(text, font, spaceWidth, ws, w);
  }

  lemma WidthsSnoc(text: string, font: Font, spaceWidth: real, ws: seq<MeasuredWord>, w: MeasuredWord)
    requires AllInBounds(text, ws) && InBounds(text, w)
    requires forall k :: 0 <= k < |ws| ==> ws[k].width == ExpectedWidth(text, font, spaceWidth, ws[k])
    requires w.width == ExpectedWidth(text, font, spaceWidth, w)
    ensures forall k :: 0 <= k < |ws + [w]| ==> (ws + [w])[k].width == ExpectedWidth(text, font, spaceWidth, (ws + [w])[k])
  {
    var ws' := ws + [w];
    forall k | 0 <= k < |ws'|
      ensures ws'[k].width == ExpectedWidth(text, font, spaceWidth, ws'[k])
    {
      if k < |ws| {
        assert ws'[k] == ws[k];
      }
    }
  }

  lemma PrefixSnoc(text: string, end: nat)
    requires end < |text|
    ensures text[..end + 1] == text[..end] + [text[end]]
    ensures '\n' in text[..end + 1] <==> '\n' in text[..end] || text[end] == '\n'
  {
    assert text[..end + 1] == text[..end] + [text[end]];
  }

  /** The loop state after a space at `end`. */
  lemma StepSpace(text: string, font: Font, spaceWidth: real, asWritten: bool, end: nat, s: Scan)
    requires end < |text| && text[end] == ' ' && ScanInv(text, end, s)
    ensures var len := end - s.start;
            var dims := if len > 0 then font(text[s.start..end]) else if asWritten then (s.dimW, s.dimH) else (0.0, 0.0);
            var w := MeasuredWord(s.start, len + 1, dims.0 + spaceWidth);
            var r := Step(text, font, spaceWidth, asWritten, end, s);
            && r.words == s.words + [w] && r.start == end + 1 && r.newlines == s.newlines
            && r.minWidth == Max(dims.0, s.minWidth) && r.height == Max(s.height, dims.1)
            && r.lineWidth == s.lineWidth + w.width && r.widest == s.widest
            && InBounds(text, w) && WellFormed(text, w) && EndsWithSpace(text, w)
            && Piece(text, w) == text[s.start..end + 1]
            && Core(text, w) == text[s.start..end]
            && (!asWritten ==> CoreDims(text, font, w) == dims && w.width == ExpectedWidth(text, font, spaceWidth, w))
  {
  }

  /** A space: the cut. */
  lemma {:induction false} StepSpaceKeepsInv(text: string, font: Font, spaceWidth: real, asWritten: bool, end: nat, s: Scan)
    requires end < |text| && text[end] == ' ' && ScanInv(text, end, s)
    ensures ScanInv(text, end + 1, Step(text, font, spaceWidth, asWritten, end, s))
  {
    var r := Step(text, font, spaceWidth, asWritten, end, s);
    assert r.start == end + 1 && r.newlines == s.newlines;
    var w := r.words[|r.words| - 1];
    assert r.words == s.words + [w] && w.start == s.start && w.length == end + 1 - s.start;
    PrefixSnoc(text, end);
    SpacePiece(text, s.start, end, w.width);
    WordsSnoc(text, s.start, s.words, w, end + 1);
  }

  /** A word ended by a space at `end`, the space included, continues the
      text past it. */
  lemma SpacePiece(text: string, start: nat, end: nat, width: real)
    requires start <= end < |text| && text[end] == ' '
    requires forall j :: start <= j < end ==> !IsBreak(text[j])
    ensures var w := MeasuredWord(start, end + 1 - start, width);
            InBounds(text, w) && WellFormed(text, w) && text[..start] + Piece(text, w) == text[..end + 1]
  {
    assert text[..start] + text[start..end + 1] == text[..end + 1];
  }

  /** A space: the measured numbers. */
  lemma {:induction false} StepSpaceMeasured(text: string, font: Font, spaceWidth: real, end: nat, s: Scan)
    requires end < |text| && text[end] == ' ' && ScanInv(text, end, s)
    requires AllInBounds(text, s.words) && MeasureInv(text, font, spaceWidth, s)
    ensures AllInBounds(text, Step(text, font, spaceWidth, false, end, s).words)
            && MeasureInv(text, font, spaceWidth, Step(text, font, spaceWidth, false, end, s))
  {
    var r := Step(text, font, spaceWidth, false, end, s);
    StepSpace(text, font, spaceWidth, false, end, s);
    var w := r.words[|r.words| - 1];
    assert r.words == s.words + [w];
    MeasuredSnoc(text, font, spaceWidth, s.words, s.minWidth, s.height, s.lineWidth, s.widest, w);
  }

  /** The loop state after a newline at `end`. */
  lemma StepNewline(text: string, font: Font, spaceWidth: real, asWritten: bool, end: nat, s: Scan)
    requires end < |text| && text[end] == '\n' && ScanInv(text, end, s)
    ensures var len := end - s.start;
            var dims := if len > 0 then font(text[s.start..end]) else if asWritten then (s.dimW, s.dimH) else (0.0, 0.0);
            var w := MeasuredWord(s.start, len, dims.0);
            var m := MeasuredWord(end + 1, 0, 0.0);
            var r := Step(text, font, spaceWidth, asWritten, end, s);
            && r.words == (if len > 0 then s.words + [w] else s.words) + [m]
            && r.start == end + 1 && r.newlines
            && r.minWidth == Max(dims.0, s.minWidth) && r.height == Max(s.height, dims.1)
            && r.lineWidth == 0.0 && r.widest == Max(s.lineWidth + dims.0, s.widest)
            && InBounds(text, w) && InBounds(text, m) && WellFormed(text, m)
            && (len > 0 ==> WellFormed(text, w) && Piece(text, w) == text[s.start..end])
            && Piece(text, m) == [text[end]]
            && CoreDims(text, font, m) == (0.0, 0.0) && m.width == ExpectedWidth(text, font, spaceWidth, m)
            && (!asWritten ==> CoreDims(text, font, w) == dims && w.width == ExpectedWidth(text, font, spaceWidth, w))
  {
  }

  /** A newline that ends a non-empty word appends the word and a marker. */
  lemma StepNewlineAfterWordWords(text: string, font: Font, spaceWidth: real, asWritten: bool, end: nat, s: Scan)
    requires end < |text| && text[end] == '\n' && s.start < end
    ensures var r := Step(text, font, spaceWidth, asWritten, end, s);
            && r.words == s.words + [MeasuredWord(s.start, end - s.start, font(text[s.start..end]).0)] + [MeasuredWord(end + 1, 0, 0.0)]
            && r.start == end + 1 && r.newlines && r.lineWidth == 0.0
            && r.minWidth == Max(font(text[s.start..end]).0, s.minWidth)
            && r.height == Max(s.height, font(text[s.start..end]).1)
            && r.widest == Max(s.lineWidth + font(text[s.start..end]).0, s.widest)
  {
  }

  /** A newline that ends a non-empty word: the cut. */
  lemma {:induction false} StepNewlineAfterWord(text: string, font: Font, spaceWidth: real, asWritten: bool, end: nat, s: Scan)
    requires end < |text| && text[end] == '\n' && ScanInv(text, end, s) && s.start < end
    ensures ScanInv(text, end + 1, Step(text, font, spaceWidth, asWritten, end, s))
  {
    StepNewlineAfterWordWords(text, font, spaceWidth, asWritten, end, s);
    PrefixSnoc(text, end);
    WordThenMarkerCut(text, s.start, end, s.words, font(text[s.start..end]).0);
  }

  /** A word ended by a newline, then its marker, continue the cut past the
      newline. */
  lemma WordThenMarkerCut(text: string, start: nat, end: nat, ws: seq<MeasuredWord>, width: real)
    requires start < end < |text| && text[end] == '\n'
    requires WordsInv(text, start, ws) && forall j :: start <= j < end ==> !IsBreak(text[j])
    ensures WordsInv(text, end + 1, ws + [MeasuredWord(start, end - start, width)] + [MeasuredWord(end + 1, 0, 0.0)])
  {
    var w := MeasuredWord(start, end - start, width);
    var m := MeasuredWord(end + 1, 0, 0.0);
    WordPiece(text, start, end, width);
    WordsSnoc(text, start, ws, w, end);
    MarkerPiece(text, end);
    WordsSnoc(text, end, ws + [w], m, end + 1);
  }

  /** The piece of a word ended by a separator at `end` continues the text
      up to `end`. */
  lemma WordPiece(text: string, start: nat, end: nat, width: real)
    requires start < end < |text| && text[end] == '\n'
    requires forall j :: start <= j < end ==> !IsBreak(text[j])
    ensures var w := MeasuredWord(start, end - start, width);
            InBounds(text, w) && WellFormed(text, w) && text[..start] + Piece(text, w) == text[..end]
  {
    assert text[..start] + text[start..end] == text[..end];
  }

  /** The marker after a newline at `end` continues the text past it. */
  lemma MarkerPiece(text: string, end: nat)
    requires end < |text| && text[end] == '\n'
    ensures var m := MeasuredWord(end + 1, 0, 0.0);
            InBounds(text, m) && WellFormed(text, m) && text[..end] + Piece(text, m) == text[..end + 1]
  {
    assert text[..end] + [text[end]] == text[..end + 1];
  }

  /** A word followed by a marker keeps the measured numbers in step with
      the references. */
  lemma {:induction false} MeasuredWordThenMarker(text: string, font: Font, spaceWidth: real, ws: seq<MeasuredWord>,
                                                  minWidth: real, height: real, lineWidth: real, widest: real,
                                                  w: MeasuredWord, m: MeasuredWord)
    requires AllInBounds(text, ws) && InBounds(text, w) && InBounds(text, m)
    requires Measured(text, font, spaceWidth, ws, minWidth, height, lineWidth, widest)
    requires w.length > 0 && w.width == ExpectedWidth(text, font, spaceWidth, w)
    requires m.length == 0 && m.width == 0.0
    ensures AllInBounds(text, ws + [w] + [m])
    ensures Measured(text, font, spaceWidth, ws + [w] + [m],
                     Max(CoreDims(text, font, w).0, minWidth), Max(height, CoreDims(text, font, w).1),
                     0.0, Max(lineWidth + w.width, widest))
  {
    WidestCoreNonNegative(text, font, ws);
    var dims := CoreDims(text, font, w);
    var mw, h := Max(dims.0, minWidth), Max(height, dims.1);
    MeasuredSnoc(text, font, spaceWidth, ws, minWidth, height, lineWidth, widest, w);
    assert CoreDims(text, font, m) == (0.0, 0.0);
    MeasuredSnoc(text, font, spaceWidth, ws + [w], mw, h, lineWidth + w.width, widest, m);
    assert Max(0.0, mw) == mw && Max(h, 0.0) == h;
  }

  /** A newline that ends a non-empty word: the measured numbers. */
  lemma {:induction false} StepNewlineAfterWordMeasured(text: string, font: Font, spaceWidth: real, end: nat, s: Scan)
    requires end < |text| && text[end] == '\n' && s.start < end && text[end - 1] != ' '
    requires AllInBounds(text, s.words) && MeasureInv(text, font, spaceWidth, s)
    ensures AllInBounds(text, Step(text, font, spaceWidth, false, end, s).words)
            && MeasureInv(text, font, spaceWidth, Step(text, font, spaceWidth, false, end, s))
  {
    StepNewlineAfterWordWords(text, font, spaceWidth, false, end, s);
    var dims := font(text[s.start..end]);
    var w := MeasuredWord(s.start, end - s.start, dims.0);
    assert Core(text, w) == text[s.start..end];
    MeasuredWordThenMarker(text, font, spaceWidth, s.words, s.minWidth, s.height, s.lineWidth, s.widest,
                           w, MeasuredWord(end + 1, 0, 0.0));
  }

  /** A newline right after a separator (or at the start). */
  lemma {:induction false} StepNewlineAlone(text: string, font: Font, spaceWidth: real, asWritten: bool, end: nat, s: Scan)
    requires end < |text| && text[end] == '\n' && ScanInv(text, end, s) && s.start == end
    requires !asWritten ==> AllInBounds(text, s.words) && MeasureInv(text, font, spaceWidth, s)
    ensures ScanInv(text, end + 1, Step(text, font, spaceWidth, asWritten, end, s))
    ensures !asWritten ==> AllInBounds(text, Step(text, font, spaceWidth, asWritten, end, s).words)
                           && MeasureInv(text, font, spaceWidth, Step(text, font, spaceWidth, asWritten, end, s))
  {
    var r := Step(text, font, spaceWidth, asWritten, end, s);
    StepNewline(text, font, spaceWidth, asWritten, end, s);
    var m := MeasuredWord(end + 1, 0, 0.0);
    assert r.words == s.words + [m];
    PrefixSnoc(text, end);
    WordsSnoc(text, end, s.words, m, end + 1);
    if !asWritten {
      WidestCoreNonNegative(text, font, s.words);
      MeasuredSnoc(text, font, spaceWidth, s.words, s.minWidth, s.height, s.lineWidth, s.widest, m);
    }
  }

  /** The loop keeps both invariants at every step. */
  lemma {:induction false} StepKeepsInv(text: string, font: Font, spaceWidth: real, asWritten: bool, end: nat, s: Scan)
    requires end < |text| && ScanInv(text, end, s)
    requires !asWritten ==> AllInBounds(text, s.words) && MeasureInv(text, font, spaceWidth, s)
    ensures ScanInv(text, end + 1, Step(text, font, spaceWidth, asWritten, end, s))
    ensures !asWritten ==> AllInBounds(text, Step(text, font, spaceWidth, asWritten, end, s).words)
                           && MeasureInv(text, font, spaceWidth, Step(text, font, spaceWidth, asWritten, end, s))
  {
    if text[end] == ' ' {
      StepSpaceKeepsInv(text, font, spaceWidth, asWritten, end, s);
      if !asWritten {
        StepSpaceMeasured(text, font, spaceWidth, end, s);
      }
    } else if text[end] == '\n' && s.start < end {
      StepNewlineAfterWord(text, font, spaceWidth, asWritten, end, s);
      if !asWritten {
        StepNewlineAfterWordMeasured(text, font, spaceWidth, end, s);
      }
    } else if text[end] == '\n' {
      StepNewlineAlone(text, font, spaceWidth, asWritten, end, s);
    } else {
      PrefixSnoc(text, end);
    }
  }

  /** The invariants hold at the end of the loop. */
  lemma {:induction false} ScanFromKeepsInv(text: string, font: Font, spaceWidth: real, asWritten: bool, end: nat, s: Scan)
    requires ScanInv(text, end, s)
    requires !asWritten ==> AllInBounds(text, s.words) && MeasureInv(text, font, spaceWidth, s)
    ensures ScanInv(text, |text|, ScanFrom(text, font, spaceWidth, asWritten, end, s))
    ensures !asWritten ==> AllInBounds(text, ScanFrom(text, font, spaceWidth, asWritten, end, s).words)
                           && MeasureInv(text, font, spaceWidth, ScanFrom(text, font, spaceWidth, asWritten, end, s))
    decreases |text| - end
  {
    if end < |text| {
      StepKeepsInv(text, font, spaceWidth, asWritten, end, s);
      ScanFromKeepsInv(text, font, spaceWidth, asWritten, end + 1, Step(text, font, spaceWidth, asWritten, end, s));
    }
  }

  lemma InitialScanInv(text: string, font: Font)
    ensures ScanInv(text, 0, InitialScan(font))
    ensures AllInBounds(text, InitialScan(font).words)
    ensures MeasureInv(text, font, font(" ").0, InitialScan(font))
  {
    assert text[..0] == [];
  }

  /** The state at the end of the loop, with its invariants. */
  lemma FinalScan(text: string, font: Font, asWritten: bool)
    ensures var s := ScanFrom(text, font, font(" ").0, asWritten, 0, InitialScan(font));
            && ScanInv(text, |text|, s) && AllInBounds(text, s.words)
            && (!asWritten ==> MeasureInv(text, font, font(" ").0, s))
  {
    InitialScanInv(text, font);
    ScanFromKeepsInv(text, font, font(" ").0, asWritten, 0, InitialScan(font));
  }

  /** The trailing word, when there is one. */
  lemma TrailingWord(text: string, font: Font, asWritten: bool)
    ensures var s := ScanFrom(text, font, font(" ").0, asWritten, 0, InitialScan(font));
            && s.start <= |text|
            && (s.start < |text| ==>
                  var w := MeasuredWord(s.start, |text| - s.start, font(text[s.start..]).0);
                  && InBounds(text, w) && WellFormed(text, w) && !EndsWithSpace(text, w)
                  && Piece(text, w) == text[s.start..]
                  && CoreDims(text, font, w) == font(text[s.start..])
                  && w.width == ExpectedWidth(text, font, font(" ").0, w)
                  && text[..s.start] + Piece(text, w) == text[..|text|])
  {
    FinalScan(text, font, asWritten);
  }

  // ---------------------------------------------------------------------
  // Properties of the measurement
  // ---------------------------------------------------------------------

  /** Both variants cut the text the same way: every word lies inside the
      text and is well formed (a space-terminated word includes its space; a
      newline yields a zero-width marker starting just after it), the pieces
      concatenate back to the text, and `containsNewLines` holds exactly when
      the text has a newline. */
  lemma {:induction false} Segmentation(text: string, font: Font, letterSpacing: int, asWritten: bool)
    ensures var m := MeasureWith(text, font, letterSpacing, asWritten);
            && AllInBounds(text, m.words)
            && (forall k :: 0 <= k < |m.words| ==> WellFormed(text, m.words[k]))
            && Rebuild(text, m.words) == text
            && (m.containsNewLines <==> '\n' in text)
  {
    FinalScan(text, font, asWritten);
    var s := ScanFrom(text, font, font(" ").0, asWritten, 0, InitialScan(font));
    TrailingKeepsCut(text, font, s);
    WholeText(text, WithTrailing(text, font, s));
    assert text[..|text|] == text;
  }

  /** The trailing word completes the cut. */
  lemma TrailingKeepsCut(text: string, font: Font, s: Scan)
    requires ScanInv(text, |text|, s)
    ensures WordsInv(text, |text|, WithTrailing(text, font, s))
  {
    if |text| - s.start > 0 {
      var w := MeasuredWord(s.start, |text| - s.start, font(text[s.start..]).0);
      assert InBounds(text, w) && WellFormed(text, w);
      assert text[..s.start] + Piece(text, w) == text[..|text|];
      WordsSnoc(text, s.start, s.words, w, |text|);
    }
  }

  lemma WholeText(text: string, ws: seq<MeasuredWord>)
    requires WordsInv(text, |text|, ws)
    ensures AllInBounds(text, ws) && Rebuild(text, ws) == text
  {
    assert text[..|text|] == text;
  }

  /** The corrected measurement agrees with the reference definitions:
      every word is as wide as its core plus, when it ends in a space, one
      space; `minWidth` is the widest core; `height` is the tallest core;
      `width` is the widest line less the letter spacing. */
  lemma {:induction false} MeasureMatchesReferences(text: string, font: Font, letterSpacing: int)
    ensures var m := Measure(text, font, letterSpacing);
            && AllInBounds(text, m.words)
            && (forall k :: 0 <= k < |m.words| ==> m.words[k].width == ExpectedWidth(text, font, font(" ").0, m.words[k]))
            && m.minWidth == WidestCore(text, font, m.words)
            && m.height == TallestCore(text, font, m.words)
            && m.width == WidestLine(m.words) - letterSpacing as real
  {
    FinalScan(text, font, false);
    TrailingWord(text, font, false);
    var s := ScanFrom(text, font, font(" ").0, false, 0, InitialScan(font));
    if |text| - s.start > 0 {
      var w := MeasuredWord(s.start, |text| - s.start, font(text[s.start..]).0);
      MeasuredSnoc(text, font, font(" ").0, s.words, s.minWidth, s.height, s.lineWidth, s.widest, w);
    }
  }

  /** The positions of a word list, without the measured widths. */
  function Cut(ws: seq<MeasuredWord>): seq<(nat, nat)>
  {
    seq(|ws|, k requires 0 <= k < |ws| => (ws[k].start, ws[k].length))
  }

  lemma CutSnoc(ws: seq<MeasuredWord>, w: MeasuredWord)
    ensures Cut(ws + [w]) == Cut(ws) + [(w.start, w.length)]
  {
  }

  /** Two runs of the loop that start from the same position and cut agree
      after every step, whatever the dimensions they carry. */
  lemma {:induction false} ScanFromSameCut(text: string, font: Font, spaceWidth: real, end: nat, s1: Scan, s2: Scan)
    requires s1.start == s2.start && s1.start <= end <= |text|
    requires Cut(s1.words) == Cut(s2.words) && s1.newlines == s2.newlines
    ensures var r1 := ScanFrom(text, font, spaceWidth, true, end, s1);
            var r2 := ScanFrom(text, font, spaceWidth, false, end, s2);
            r1.start == r2.start && Cut(r1.words) == Cut(r2.words) && r1.newlines == r2.newlines
    decreases |text| - end
  {
    if end < |text| {
      var t1 := Step(text, font, spaceWidth, true, end, s1);
      var t2 := Step(text, font, spaceWidth, false, end, s2);
      if IsBreak(text[end]) {
        var len := end - s1.start;
        if text[end] == ' ' {
          CutSnoc(s1.words, t1.words[|t1.words| - 1]);
          CutSnoc(s2.words, t2.words[|t2.words| - 1]);
          assert t1.words == s1.words + [t1.words[|t1.words| - 1]];
          assert t2.words == s2.words + [t2.words[|t2.words| - 1]];
        } else {
          var m := MeasuredWord(end + 1, 0, 0.0);
          var w1 := MeasuredWord(s1.start, len, t1.dimW);
          var w2 := MeasuredWord(s2.start, len, t2.dimW);
          if len > 0 {
            assert t1.words == s1.words + [w1] + [m];
            assert t2.words == s2.words + [w2] + [m];
            CutSnoc(s1.words, w1);
            CutSnoc(s2.words, w2);
            CutSnoc(s1.words + [w1], m);
            CutSnoc(s2.words + [w2], m);
          } else {
            CutSnoc(s1.words, m);
            CutSnoc(s2.words, m);
          }
        }
      }
      ScanFromSameCut(text, font, spaceWidth, end + 1, t1, t2);
    }
  }

  /** The two variants cut the text identically and agree on
      `containsNewLines`; they differ only in the measured numbers. */
  lemma VariantsAgreeOnCut(text: string, font: Font, letterSpacing: int)
    ensures Cut(Measure(text, font, letterSpacing).words) == Cut(MeasureAsWritten(text, font, letterSpacing).words)
    ensures Measure(text, font, letterSpacing).containsNewLines == MeasureAsWritten(text, font, letterSpacing).containsNewLines
  {
    var sp := font(" ").0;
    ScanFromSameCut(text, font, sp, 0, InitialScan(font), InitialScan(font));
    var s1 := ScanFrom(text, font, sp, true, 0, InitialScan(font));
    var s2 := ScanFrom(text, font, sp, false, 0, InitialScan(font));
    if |text| - s1.start > 0 {
      CutSnoc(s1.words, MeasuredWord(s1.start, |text| - s1.start, font(text[s1.start..]).0));
      CutSnoc(s2.words, MeasuredWord(s2.start, |text| - s2.start, font(text[s2.start..]).1));
      CutSnoc(s2.words, MeasuredWord(s2.start, |text| - s2.start, font(text[s2.start..]).0));
    }
  }

  // ---------------------------------------------------------------------
  // Where the source as written departs from the references
  // ---------------------------------------------------------------------

  /** A monospaced font: one unit per character, one unit high. */
  function Monospace(s: string): (real, real)
  {
    (|s| as real, 1.0)
  }

  /** On "a \n" the newline ends an empty word, and the source reads the
      dimensions left over from "a " (two units): the line is counted as
      four units wide and the widest word as two, although the text's only
      line is "a " (two units) and its widest word is "a" (one unit). */
  lemma StaleDimensionsWidenTheLine()
    ensures var m := MeasureAsWritten("a \n", Monospace, 0);
            && AllInBounds("a \n", m.words)
            && m.width == 4.0 && WidestLine(m.words) == 2.0
            && m.minWidth == 2.0 && WidestCore("a \n", Monospace, m.words) == 1.0
  {
    var t := "a \n";
    var s0 := InitialScan(Monospace);
    var s1 := Step(t, Monospace, 1.0, true, 0, s0);
    var s2 := Step(t, Monospace, 1.0, true, 1, s1);
    assert t[0..1] == "a";
    assert s2.words == [MeasuredWord(0, 2, 2.0)] && s2.lineWidth == 2.0 && s2.dimW == 2.0;
    var s3 := Step(t, Monospace, 1.0, true, 2, s2);
    assert s3.words == [MeasuredWord(0, 2, 2.0), MeasuredWord(3, 0, 0.0)];
    assert s3.widest == 4.0 && s3.minWidth == 2.0;
    assert ScanFrom(t, Monospace, 1.0, true, 0, s0) == s3;
    assert Core(t, MeasuredWord(0, 2, 2.0)) == "a";
    var ws := [MeasuredWord(0, 2, 2.0), MeasuredWord(3, 0, 0.0)];
    assert ws[..1] == [MeasuredWord(0, 2, 2.0)];
    assert WidestCore(t, Monospace, ws) == 1.0;
    assert OpenLine(ws[..1]) == 2.0 && WidestClosed(ws[..1]) == 0.0;
    assert OpenLine(ws) == 0.0 && WidestClosed(ws) == 2.0;
  }

  /** On "a \n" the corrected measurement reports the line "a " (two units)
      and the word "a" (one unit). */
  lemma StaleDimensionsCorrected()
    ensures Measure("a \n", Monospace, 0).width == 2.0
    ensures Measure("a \n", Monospace, 0).minWidth == 1.0
  {
    var t := "a \n";
    var s0 := InitialScan(Monospace);
    assert t[0..1] == "a";
    var c1 := Step(t, Monospace, 1.0, false, 1, Step(t, Monospace, 1.0, false, 0, s0));
    assert c1.words == [MeasuredWord(0, 2, 2.0)] && c1.lineWidth == 2.0 && c1.minWidth == 1.0;
    var c2 := Step(t, Monospace, 1.0, false, 2, c1);
    assert c2.widest == 2.0 && c2.lineWidth == 0.0 && c2.minWidth == 1.0 && c2.start == 3;
    assert ScanFrom(t, Monospace, 1.0, false, 0, s0) == c2;
  }

  /** On "ab" the trailing word's height is taken from its width: the
      source reports a height of two units for a single line one unit
      high. */
  lemma TrailingHeightFromWidth()
    ensures var m := MeasureAsWritten("ab", Monospace, 0);
            && AllInBounds("ab", m.words)
            && m.height == 2.0 && TallestCore("ab", Monospace, m.words) == 1.0
    ensures Measure("ab", Monospace, 0).height == 1.0
  {
    var t := "ab";
    var s0 := InitialScan(Monospace);
    assert s0 == Scan(0, 1.0, 1.0, 0.0, 0.0, 0.0, 0.0, [], false);
    assert Step(t, Monospace, 1.0, true, 0, s0) == s0;
    assert Step(t, Monospace, 1.0, true, 1, s0) == s0;
    assert ScanFrom(t, Monospace, 1.0, true, 0, s0) == s0;
    assert Step(t, Monospace, 1.0, false, 0, s0) == s0;
    assert Step(t, Monospace, 1.0, false, 1, s0) == s0;
    assert ScanFrom(t, Monospace, 1.0, false, 0, s0) == s0;
    assert t[0..] == "ab";
    var ws := [MeasuredWord(0, 2, 2.0)];
    assert MeasureAsWritten(t, Monospace, 0).words == ws;
    assert MeasureAsWritten(t, Monospace, 0).height == 2.0;
    assert ws[..0] == [];
    assert Core(t, ws[0]) == "ab";
    assert TallestCore(t, Monospace, ws) == 1.0;
    assert Measure(t, Monospace, 0).height == 1.0;
  }
}
