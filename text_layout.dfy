/**
 * The string computation of `addText` (src/utils/printout-processor.ts,
 * lines 143-166): the `indent` attribute and the two-column layout of a text
 * holding one `|`.
 */
module TextLayout {
  import opened Wrappers
  import opened JsString
  import opened JsNumber

  /** The column width used when the configured one is falsy. */
  const DEFAULT_COLUMN_WIDTH: int := 32

  /** `(options && options.colWidth) ? options.colWidth : 32` */
  function ColumnWidth(colWidth: int): (w: int)
    ensures w != 0
    ensures colWidth != 0 ==> w == colWidth
    ensures colWidth == 0 ==> w == DEFAULT_COLUMN_WIDTH
  {
    if colWidth != 0 then colWidth else DEFAULT_COLUMN_WIDTH
  }

  /** `' '.repeat(n)` */
  function Spaces(n: nat): (r: string)
    ensures |r| == n
    ensures AllChar(r, ' ')
  {
    RepeatChar(' ', n);
    Repeat(" ", n)
  }

  lemma SpacesAreBlank(n: nat)
    ensures AllWhiteSpace(Spaces(n)) && '|' !in Spaces(n)
  {
    assert IsWhiteSpace(' ');
  }

  /**
   * The number the indent step reads: `parseInt(indent, 10)` for a present
   * attribute, `NaN` for an absent one. An empty attribute, which the step
   * skips as falsy, gives `NaN` either way.
   */
  function IndentCount(indent: Option<string>): (n: Num)
    ensures n == if indent.Some? then ParseInt(indent.value, Ten) else NaN
  {
    if indent.Some? && indent.value != "" then ParseInt(indent.value, Ten)
    else if indent.Some? then ParseNoDigits(indent.value, Ten); NaN
    else NaN
  }

  /**
   * The indent step: the `indent` attribute is read only when present and
   * not empty, parsed with `parseInt(_, 10)`, and prepends that many spaces
   * when the number is positive; anything else leaves the text alone.
   */
  function Indent(text: string, indent: Option<string>): (r: string)
    ensures var n := IndentCount(indent);
      (n.Int? && n.value > 0 ==> r == Spaces(n.value) + text)
      && (n.NaN? || n.value <= 0 ==> r == text)
  {
    if indent.Some? && indent.value != "" then
      match ParseInt(indent.value, Ten)
      case Int(n) => if n > 0 then Spaces(n) + text else text
      case NaN => text
    else text
  }

  /** An `indent` attribute holding the numeral of a positive number prepends exactly that many spaces. */
  lemma IndentByNumeral(text: string, n: nat)
    requires n > 0
    ensures Indent(text, Some(DecimalString(n))) == Spaces(n) + text
  {
    ParseDecimalString(n, [], Ten);
    assert DecimalString(n) + [] == DecimalString(n);
  }

  /** A negative `indent` leaves the text alone. */
  lemma IndentNegative(text: string, n: nat)
    ensures Indent(text, Some("-" + DecimalString(n))) == text
  {
    ParseNegativeDecimalString(n, Ten);
  }

  /**
   * The padding rule: `left`, then as many spaces as fill the column width
   * (at least one), then `right`.
   */
  function Justify(left: string, right: string, colWidth: int): (r: string)
    ensures var w := ColumnWidth(colWidth);
      var gap := if w - |left| - |right| < 1 then 1 else w - |left| - |right|;
      r == left + Spaces(gap) + right
      && |r| == (if w > |left| + |right| + 1 then w else |left| + |right| + 1)
  {
    var totalWidth := ColumnWidth(colWidth);
    var spaceCount := totalWidth - |left| - |right|;
    var count := if spaceCount < 1 then 1 else spaceCount;
    left + Spaces(count) + right
  }

  /**
   * The two-column step: a text that splits on `|` into exactly two parts
   * becomes its trimmed parts justified to the column width; any other text
   * is returned unchanged.
   */
  function TwoColumn(text: string, colWidth: int): string {
    if IndexOf(text, '|') != -1 then
      var parts := Split(text, '|');
      if |parts| == 2 then Justify(Trim(parts[0]), Trim(parts[1]), colWidth) else text
    else text
  }

  /**
   * A text with exactly one `|` is laid out as its trimmed left part, a gap of
   * `max(1, W - |left| - |right|)` spaces and its trimmed right part, so the
   * result is `max(W, |left| + |right| + 1)` long.
   */
  lemma TwoColumnLayout(text: string, colWidth: int)
    requires multiset(text)['|'] == 1
    ensures
      var i := IndexOf(text, '|');
      var left, right := Trim(text[..i]), Trim(text[i + 1..]);
      var w := ColumnWidth(colWidth);
      var gap := if w - |left| - |right| < 1 then 1 else w - |left| - |right|;
      0 <= i
      && TwoColumn(text, colWidth) == Justify(left, right, colWidth)
      && TwoColumn(text, colWidth) == left + Spaces(gap) + right
      && |TwoColumn(text, colWidth)| == (if w > |left| + |right| + 1 then w else |left| + |right| + 1)
  {
    TwoColumnOfBar(text, colWidth);
  }

  /** A text with no `|`, or with two or more, passes through unchanged, bars included. */
  lemma TwoColumnPassThrough(text: string, colWidth: int)
    requires multiset(text)['|'] != 1
    ensures TwoColumn(text, colWidth) == text
  {
  }

  /**
   * Indenting before the two-column step has no effect on a text that is
   * then split: the indent spaces lead the left part, and the trim removes them.
   */
  lemma IndentAbsorbedByTwoColumn(n: nat, text: string, colWidth: int)
    requires multiset(text)['|'] == 1
    ensures TwoColumn(Spaces(n) + text, colWidth) == TwoColumn(text, colWidth)
  {
    var sp := Spaces(n);
    var t := sp + text;
    var i := IndexOf(text, '|');
    IndentShiftsBar(n, text);
    var j := IndexOf(t, '|');
    assert j == n + i;
    assert t[..j] == sp + text[..i];
    assert t[j + 1..] == text[i + 1..];
    TrimSkipsLeadingWhiteSpace(sp, text[..i]);
    TwoColumnOfSameParts(t, text, colWidth);
  }

  /** Two one-bar texts whose parts trim to the same strings are laid out alike. */
  lemma TwoColumnOfSameParts(t: string, text: string, colWidth: int)
    requires multiset(t)['|'] == 1 && multiset(text)['|'] == 1
    requires 0 <= IndexOf(t, '|') && 0 <= IndexOf(text, '|')
    requires Trim(t[..IndexOf(t, '|')]) == Trim(text[..IndexOf(text, '|')])
    requires Trim(t[IndexOf(t, '|') + 1..]) == Trim(text[IndexOf(text, '|') + 1..])
    ensures TwoColumn(t, colWidth) == TwoColumn(text, colWidth)
  {
    TwoColumnOfBar(t, colWidth);
    TwoColumnOfBar(text, colWidth);
  }

  /** A text with one `|` is justified from its trimmed parts before and after that bar. */
  lemma TwoColumnOfBar(text: string, colWidth: int)
    requires multiset(text)['|'] == 1
    ensures var i := IndexOf(text, '|');
      0 <= i && TwoColumn(text, colWidth) == Justify(Trim(text[..i]), Trim(text[i + 1..]), colWidth)
  {
    SplitOnce(text, '|');
  }

  /** Indenting a text with one `|` keeps one `|` and moves it right by the indent. */
  lemma IndentShiftsBar(n: nat, text: string)
    requires multiset(text)['|'] == 1
    ensures var t, i := Spaces(n) + text, IndexOf(text, '|');
      multiset(t)['|'] == 1 && IndexOf(t, '|') == n + i
      && t[..n + i] == Spaces(n) + text[..i] && t[n + i + 1..] == text[i + 1..]
      && AllWhiteSpace(Spaces(n))
  {
    SpacesAreBlank(n);
    BarAfterPrefix(Spaces(n), text);
  }

  /** Text without a bar in front of a text with one bar keeps one bar and moves it right. */
  lemma BarAfterPrefix(p: string, text: string)
    requires '|' !in p && multiset(text)['|'] == 1
    ensures var t, i := p + text, IndexOf(text, '|');
      multiset(t)['|'] == 1 && IndexOf(t, '|') == |p| + i
      && t[..|p| + i] == p + text[..i] && t[|p| + i + 1..] == text[i + 1..]
  {
    BarCountAfterPrefix(p, text);
    IndexOfAfterPrefix(p, text, '|');
    SlicesAfterPrefix(p, text, IndexOf(text, '|'));
  }

  lemma BarCountAfterPrefix(p: string, text: string)
    requires '|' !in p && multiset(text)['|'] == 1
    ensures multiset(p + text)['|'] == 1 && '|' in text
  {
    assert multiset(p + text) == multiset(p) + multiset(text);
    assert '|' in multiset(text);
  }

  lemma SlicesAfterPrefix(p: string, text: string, i: nat)
    requires i < |text|
    ensures (p + text)[..|p| + i] == p + text[..i] && (p + text)[|p| + i + 1..] == text[i + 1..]
  {
    var t := p + text;
    assert t[..|p| + i] == p + text[..i];
    assert t[|p| + i + 1..] == text[i + 1..];
  }

  /** `left|right`, with neither part holding a bar nor blank ends, is justified as it stands. */
  lemma TwoColumnOfParts(left: string, right: string, colWidth: int)
    requires '|' !in left && '|' !in right
    requires left != [] && !IsWhiteSpace(left[0]) && !IsWhiteSpace(left[|left| - 1])
    requires right != [] && !IsWhiteSpace(right[0]) && !IsWhiteSpace(right[|right| - 1])
    ensures TwoColumn(left + "|" + right, colWidth) == Justify(left, right, colWidth)
  {
    var text := left + "|" + right;
    assert multiset(text) == multiset(left) + multiset{'|'} + multiset(right);
    assert multiset(left)['|'] == 0 && multiset(right)['|'] == 0;
    assert IndexOf(text, '|') == |left| by {
      assert text[|left|] == '|';
      assert text[..|left|] == left;
    }
    assert text[..|left|] == left && text[|left| + 1..] == right;
    TwoColumnLayout(text, colWidth);
    NoBlankEnds(left);
    NoBlankEnds(right);
  }

  /** `Qty|2` in ten columns: three letters, six spaces, one digit. */
  lemma TwoColumnExample()
    ensures TwoColumn("Qty" + "|" + "2", 10) == "Qty      2"
  {
    TwoColumnOfParts("Qty", "2", 10);
    JustifyPads();
  }

  lemma JustifyPads()
    ensures Justify("Qty", "2", 10) == "Qty      2"
  {
    assert Spaces(6) == "      ";
  }

  /** When the parts do not fit, the gap is clamped to one space. */
  lemma TwoColumnClampExample()
    ensures TwoColumn("LongLeftSide" + "|" + "X", 5) == "LongLeftSide X"
  {
    TwoColumnOfParts("LongLeftSide", "X", 5);
    JustifyClamps();
  }

  lemma JustifyClamps()
    ensures Justify("LongLeftSide", "X", 5) == "LongLeftSide X"
  {
    assert Spaces(1) == " ";
  }

  /** A string that neither starts nor ends with white space is its own trim. */
  lemma NoBlankEnds(s: string)
    requires s != [] && !IsWhiteSpace(s[0]) && !IsWhiteSpace(s[|s| - 1])
    ensures Trim(s) == s
  {
    assert TrimStart(s) == s;
    assert TrimEnd(s) == s;
  }
}
