/**
 * The caret range `validate` selects after a failed parse: from the start
 * of the reported line to the next newline, or to the end of the text.
 */
module Selection {
  import opened Wrappers
  import opened JsString
  import opened Locator
  import opened LineNumber

  /** The `(lineStart, lineEnd)` pair handed to the caret helper. */
  datatype Range = Range(start: int, end: int)

  /**
   * `lineStart`: 0 for line 1, otherwise `getNthPos(text, "\n", lineNum - 1)`.
   * A NaN line number (`None`) also gives 0: `NaN === 1` and `NaN === 0` are
   * false and `0 < NaN` stops the loop at once.
   */
  function LineStart(text: string, lineNum: Option<nat>): int {
    match lineNum
    case None => 0
    case Some(n) => if n == 1 then 0 else NthPos(text, '\n', n - 1)
  }

  /** `lineEnd`: the first newline at or after `start`, else the text's length. */
  function LineEnd(text: string, start: int): (e: int)
    ensures Clamp(start, |text|) <= e <= |text|
    ensures e == |text| || text[e] == '\n'
  {
    var e := IndexOf(text, '\n', start);
    if e < 0 then |text| else e
  }

  /** The range selected for a line number that was read from the message. */
  function LineRange(text: string, lineNum: Option<nat>): Range {
    var start := LineStart(text, lineNum);
    Range(start, LineEnd(text, start))
  }

  /** The caret range for a parse error `message` over `text`; `None` leaves the caret alone. */
  function ErrorSelection(message: string, text: string): (r: Option<Range>)
    ensures r.None? <==> forall i :: !OccursAt(message, Marker, i)
  {
    match ExtractLineNumber(message)
    case NoMatch => None
    case Matched(lineNum) => Some(LineRange(text, lineNum))
  }

  /** Whatever `start` is, the end is a newline at or after it, or the end of the text. */
  lemma {:induction false} LineEndFacts(text: string, start: int)
    ensures Clamp(start, |text|) <= LineEnd(text, start) <= |text|
    ensures LineEnd(text, start) < |text| ==> text[LineEnd(text, start)] == '\n'
    ensures '\n' !in text[Clamp(start, |text|)..LineEnd(text, start)]
  {
    var lo := Clamp(start, |text|);
    var e := LineEnd(text, start);
    forall k | 0 <= k < e - lo
      ensures text[lo..e][k] != '\n'
    {
      assert text[lo..e][k] == text[lo + k];
    }
  }

  /**
   * In a text made of newline-free lines joined by newlines, the k-th line
   * starts after exactly k newlines, right after one of them (or at 0), and
   * ends at a newline or at the end of the text.
   */
  lemma {:induction false} LineOfJoin(lines: seq<string>, text: string, k: nat)
    requires Join(lines, '\n') == text
    requires forall i :: 0 <= i < |lines| ==> '\n' !in lines[i]
    requires k < |lines|
    ensures PiecesOffset(lines, k) + |lines[k]| <= |text|
    ensures text[PiecesOffset(lines, k)..PiecesOffset(lines, k) + |lines[k]|] == lines[k]
    ensures PiecesOffset(lines, k) + |lines[k]| == |text| || text[PiecesOffset(lines, k) + |lines[k]|] == '\n'
    ensures Count(text[..PiecesOffset(lines, k)], '\n') == k
    ensures PiecesOffset(lines, k) == 0 || text[PiecesOffset(lines, k) - 1] == '\n'
  {
    JoinLayout(lines, '\n', k);
    JoinCount(lines, '\n', k);
    if k > 0 {
      PiecesOffsetStep(lines, k - 1);
      JoinLayout(lines, '\n', k - 1);
    }
  }

  /** In such a text, the newline search from a line's start stops at that line's end. */
  lemma {:induction false} LineEndOfJoin(lines: seq<string>, text: string, k: nat)
    requires Join(lines, '\n') == text
    requires forall i :: 0 <= i < |lines| ==> '\n' !in lines[i]
    requires k < |lines|
    ensures PiecesOffset(lines, k) + |lines[k]| <= |text|
    ensures LineEnd(text, PiecesOffset(lines, k)) == PiecesOffset(lines, k) + |lines[k]|
  {
    JoinLayout(lines, '\n', k);
    var o := PiecesOffset(lines, k);
    var e := o + |lines[k]|;
    forall j | o <= j < e
      ensures text[j] != '\n'
    {
      assert text[j] == text[o..e][j - o];
    }
    if k + 1 < |lines| {
      assert text[e] == '\n';
      assert IndexOf(text, '\n', o) == e;
    } else {
      assert IndexOf(text, '\n', o) == -1;
    }
  }

  /** The k-th piece of the split, located in the text it came from. */
  lemma {:induction false} SplitLine(text: string, k: nat)
    requires k <= Count(text, '\n')
    ensures |Split(text, '\n')| == Count(text, '\n') + 1
    ensures var lines := Split(text, '\n'); var o := PiecesOffset(lines, k);
      && o + |lines[k]| <= |text|
      && text[o..o + |lines[k]|] == lines[k]
      && '\n' !in lines[k]
      && (o + |lines[k]| == |text| || text[o + |lines[k]|] == '\n')
      && Count(text[..o], '\n') == k
      && (o == 0 || text[o - 1] == '\n')
  {
    var lines := Split(text, '\n');
    SplitProperties(text, '\n');
    LineOfJoin(lines, text, k);
  }

  /** In range, the selection runs from the n-th piece's offset over its length. */
  lemma {:induction false} LineRangeOfPiece(text: string, n: nat)
    requires 1 <= n <= Count(text, '\n') + 1
    ensures |Split(text, '\n')| == Count(text, '\n') + 1
    ensures var lines := Split(text, '\n'); var o := PiecesOffset(lines, n - 1);
      LineRange(text, Some(n)) == Range(o, o + |lines[n - 1]|)
  {
    var lines := Split(text, '\n');
    SplitProperties(text, '\n');
    if n > 1 {
      NthPosPieces(text, '\n', n - 1);
    }
    LineEndOfJoin(lines, text, n - 1);
  }

  /**
   * For a line number within the text, the selection is exactly that line:
   * the n-th piece of `text.split("\n")`, which holds no newline.
   */
  lemma {:induction false} SelectsLine(text: string, n: nat)
    requires 1 <= n <= Count(text, '\n') + 1
    ensures |Split(text, '\n')| == Count(text, '\n') + 1
    ensures var r := LineRange(text, Some(n));
      && 0 <= r.start <= r.end <= |text|
      && text[r.start..r.end] == Split(text, '\n')[n - 1]
      && '\n' !in text[r.start..r.end]
  {
    LineRangeOfPiece(text, n);
    SplitLine(text, n - 1);
    var r := LineRange(text, Some(n));
    assert text[r.start..r.end] == Split(text, '\n')[n - 1];
  }

  /**
   * The selected line is delimited by newlines: it starts at 0 or right
   * after the (n-1)-th newline, and ends at a newline or the end of the text.
   */
  lemma {:induction false} LineBoundaries(text: string, n: nat)
    requires 1 <= n <= Count(text, '\n') + 1
    ensures var r := LineRange(text, Some(n));
      && 0 <= r.start <= r.end <= |text|
      && (r.start == 0 || text[r.start - 1] == '\n')
      && Count(text[..r.start], '\n') == n - 1
      && (r.end == |text| || text[r.end] == '\n')
  {
    LineRangeOfPiece(text, n);
    SplitLine(text, n - 1);
  }

  /** Line 0, line 1 and an empty digit run all select the first line. */
  lemma FirstLineFallback(text: string)
    ensures LineRange(text, None) == LineRange(text, Some(0)) == LineRange(text, Some(1))
    ensures LineRange(text, None).start == 0
  {
  }

  /** From line 2 on, `lineStart` is the offset after `lineNum - 1` lines. */
  lemma LineStartOf(text: string, n: nat)
    requires n >= 2
    ensures LineStart(text, Some(n)) == NthPos(text, '\n', n - 1)
  {
  }

  /** A search starting at or past the end finds no newline. */
  lemma LineEndPastText(text: string, start: int)
    requires start >= |text|
    ensures LineEnd(text, start) == |text|
  {
  }

  /** A search starting before the text begins at its first character. */
  lemma LineEndBeforeText(text: string, start: int)
    requires start < 0
    ensures LineEnd(text, start) == LineEnd(text, 0)
  {
    assert IndexOf(text, '\n', start) == IndexOf(text, '\n', 0);
  }

  /** One past the last line starts one past the end of the text and ends at its end. */
  lemma {:induction false} LinePastLast(text: string)
    ensures LineRange(text, Some(Count(text, '\n') + 2)) == Range(|text| + 1, |text|)
  {
    NthPosLast(text, '\n');
    LineStartOf(text, Count(text, '\n') + 2);
    LineEndPastText(text, |text| + 1);
  }

  /** Further lines start at -1, which the newline search clamps to 0. */
  lemma {:induction false} LineFarPastLast(text: string, n: nat)
    requires n > Count(text, '\n') + 2
    ensures LineRange(text, Some(n)) == Range(-1, LineEnd(text, 0))
  {
    NthPosBeyond(text, '\n', n - 1);
    LineStartOf(text, n);
    LineEndBeforeText(text, -1);
  }

  /**
   * Line numbers past the text: one past the last line starts one past the
   * end (so the start exceeds the end), and anything further gets start -1,
   * whose newline search `indexOf` clamps to the beginning of the text.
   */
  lemma {:induction false} BeyondLastLine(text: string, n: nat)
    requires n >= Count(text, '\n') + 2
    ensures n == Count(text, '\n') + 2 ==> LineRange(text, Some(n)) == Range(|text| + 1, |text|)
    ensures n > Count(text, '\n') + 2 ==> LineRange(text, Some(n)) == Range(-1, LineEnd(text, 0))
  {
    if n == Count(text, '\n') + 2 {
      LinePastLast(text);
    } else {
      LineFarPastLast(text, n);
    }
  }

  /**
   * End to end: a message reporting line `n` of the text, in the parser's
   * `"... line N..."` form, selects exactly that line.
   */
  lemma ErrorSelectsReportedLine(prefix: string, n: nat, suffix: string, text: string)
    requires forall i :: !OccursAt(prefix, Marker, i)
    requires suffix == [] || !IsDigit(suffix[0])
    requires 1 <= n <= Count(text, '\n') + 1
    ensures |Split(text, '\n')| == Count(text, '\n') + 1
    ensures var sel := ErrorSelection(prefix + Marker + ShowNat(n) + suffix, text);
      && sel.Some?
      && 0 <= sel.value.start <= sel.value.end <= |text|
      && text[sel.value.start..sel.value.end] == Split(text, '\n')[n - 1]
  {
    ExtractReportedLine(prefix, n, suffix);
    SelectsLine(text, n);
  }

  /** A marker with no digits after it (NaN) selects the first line. */
  lemma EmptyRunSelectsFirstLine(prefix: string, suffix: string, text: string)
    requires forall i :: !OccursAt(prefix, Marker, i)
    requires suffix == [] || !IsDigit(suffix[0])
    ensures ErrorSelection(prefix + Marker + suffix, text) == Some(LineRange(text, Some(1)))
  {
    ExtractFromMessage(prefix, "", suffix);
    assert prefix + Marker + "" + suffix == prefix + Marker + suffix;
  }
}
