/** The box renderer of src/lib/box.ts with colour as the identity:
    horizontal borders, content lines, one box, and boxes side by side. A
    JavaScript throw is an error value carrying the thrown message; the
    RangeError of `repeat` with a negative count is one of them. Lengths are
    counted in Unicode characters, where the source's `.length` counts UTF-16
    code units: they differ only for characters outside the Basic
    Multilingual Plane. */
module Box {
  import opened JsStrings
  import opened Outcomes
  import opened Wrap

  /** A rendered value, or the message of the error thrown instead. */
  datatype Layout<T> = Laid(value: T) | LayoutError(message: string)

  /** The message of the RangeError `String.prototype.repeat` throws for a
      negative count. */
  function InvalidCount(n: int): string {
    "Invalid count value: " + IntToString(n)
  }

  const TopLeft: char := '┌'
  const TopRight: char := '┐'
  const BottomLeft: char := '└'
  const BottomRight: char := '┘'
  const Horizontal: char := '─'
  const Vertical: char := '│'

  // Horizontal borders.

  /** `!title`: no title, or the empty one. */
  predicate Untitled(title: Option<string>) {
    title.None? || title.value == ""
  }

  /** The title as it is drawn: one space on each side. */
  function TitleText(title: string): string {
    " " + title + " "
  }

  /** The column of the border where a title that fits begins: the left
      end, the right end, or the middle rounded down. */
  function TitleOffset(inner: int, len: int, position: string): int {
    var remaining := inner - len;
    if position == "topCenter" || position == "bottomCenter" then remaining / 2
    else if position == "topRight" || position == "bottomRight" then remaining
    else 0
  }

  /** `b` shows `t` from column `offset` on and is horizontal line
      everywhere else. */
  predicate TitledAt(b: string, t: string, offset: int) {
    0 <= offset && offset + |t| <= |b| && b[offset..offset + |t|] == t &&
    forall i :: 0 <= i < |b| && !(offset <= i < offset + |t|) ==> b[i] == Horizontal
  }

  lemma TitleBetween(left: string, t: string, right: string)
    requires forall i :: 0 <= i < |left| ==> left[i] == Horizontal
    requires forall i :: 0 <= i < |right| ==> right[i] == Horizontal
    ensures TitledAt(left + t + right, t, |left|)
  {
    var b := left + t + right;
    assert b[|left|..|left| + |t|] == t;
    forall i | 0 <= i < |b| && !(|left| <= i < |left| + |t|)
      ensures b[i] == Horizontal
    {
      if i < |left| {
        assert b[i] == left[i];
      } else {
        assert b[i] == right[i - |left| - |t|];
      }
    }
  }

  /** `createHorizontalBorder`: the `width - 2` characters between two
      corners. Without a title it is all horizontal line and throws for a
      width below 2; a title too long for it is cut to fit; a title that
      fits sits at its position among horizontal line. */
  function HorizontalBorder(width: int, title: Option<string>, position: string): (r: Layout<string>)
    ensures r.LayoutError? <==> Untitled(title) && width < 2
    ensures r.LayoutError? ==> r.message == InvalidCount(width - 2)
    ensures r.Laid? ==> |r.value| == if width < 2 then 0 else width - 2
    ensures r.Laid? && Untitled(title) ==> forall i :: 0 <= i < |r.value| ==> r.value[i] == Horizontal
    ensures !Untitled(title) && |TitleText(title.value)| >= width - 2 ==>
      r.Laid? && r.value == TitleText(title.value)[..|r.value|]
    ensures !Untitled(title) && |TitleText(title.value)| < width - 2 ==>
      r.Laid? && TitledAt(r.value, TitleText(title.value), TitleOffset(width - 2, |TitleText(title.value)|, position))
  {
    var inner := width - 2;
    if Untitled(title) then
      if inner < 0 then LayoutError(InvalidCount(inner)) else Laid(Repeat(Horizontal, inner))
    else
      var t := TitleText(title.value);
      if |t| >= inner then Laid(if inner <= 0 then "" else t[..inner])
      else
        var remaining := inner - |t|;
        if position == "topCenter" || position == "bottomCenter" then
          TitleBetween(Repeat(Horizontal, remaining / 2), t, Repeat(Horizontal, (remaining + 1) / 2));
          Laid(Repeat(Horizontal, remaining / 2) + t + Repeat(Horizontal, (remaining + 1) / 2))
        else if position == "topRight" || position == "bottomRight" then
          TitleBetween(Repeat(Horizontal, remaining), t, "");
          assert Repeat(Horizontal, remaining) + t + "" == Repeat(Horizontal, remaining) + t;
          Laid(Repeat(Horizontal, remaining) + t)
        else
          TitleBetween("", t, Repeat(Horizontal, remaining));
          assert "" + t + Repeat(Horizontal, remaining) == t + Repeat(Horizontal, remaining);
          Laid(t + Repeat(Horizontal, remaining))
  }

  /** A centred title gets the odd column of fill on its right: the fill
      to its left is the fill to its right or one less. */
  lemma CentredTitleIsBalanced(width: int, title: string, position: string)
    requires title != "" && |TitleText(title)| < width - 2
    requires position == "topCenter" || position == "bottomCenter"
    ensures var b := HorizontalBorder(width, Some(title), position).value;
      var left := TitleOffset(width - 2, |TitleText(title)|, position);
      var right := |b| - left - |TitleText(title)|;
      left <= right <= left + 1
  {
  }

  /** A border with a title is never the plain line: the title's spaces
      show, even when it is cut. */
  lemma TitleShows(width: int, title: string, position: string)
    requires title != "" && width > 2
    ensures HorizontalBorder(width, Some(title), position).value != Repeat(Horizontal, width - 2)
  {
    var b := HorizontalBorder(width, Some(title), position).value;
    var t := TitleText(title);
    var off := if |t| >= width - 2 then 0 else TitleOffset(width - 2, |t|, position);
    assert t[0] == ' ';
    if |t| >= width - 2 {
      assert b[0] == ' ';
    } else {
      assert b[off..off + |t|] == t;
      assert b[off] == ' ';
    }
    assert b[off] != Repeat(Horizontal, width - 2)[off];
  }

  /** No character other than the line and the space appears in a border
      unless the title has it. */
  lemma BorderAvoids(width: int, title: Option<string>, position: string, c: char)
    requires c != Horizontal && c != ' '
    requires title.Some? ==> c !in title.value
    requires HorizontalBorder(width, title, position).Laid?
    ensures c !in HorizontalBorder(width, title, position).value
  {
    var b := HorizontalBorder(width, title, position).value;
    if !Untitled(title) {
      var t := TitleText(title.value);
      assert c !in t;
      if |t| < width - 2 {
        var off := TitleOffset(width - 2, |t|, position);
        forall i | 0 <= i < |b|
          ensures b[i] != c
        {
          if off <= i < off + |t| {
            assert b[i] == t[i - off];
          }
        }
      }
    }
  }

  // Content lines.

  /** The column where a content line's text begins. */
  function TextOffset(line: string, contentWidth: int, padding: int, centered: bool): int {
    1 + padding + (if centered then (contentWidth - |line|) / 2 else 0)
  }

  /** `row` is a vertical bar, then `text` from column `offset` on among
      spaces, then a vertical bar. */
  predicate Framed(row: string, text: string, offset: int) {
    |row| >= 2 && row[0] == Vertical && row[|row| - 1] == Vertical &&
    1 <= offset && offset + |text| <= |row| - 1 && row[offset..offset + |text|] == text &&
    forall i :: 1 <= i < |row| - 1 && !(offset <= i < offset + |text|) ==> row[i] == ' '
  }

  predicate Spaces(s: string) {
    forall i :: 0 <= i < |s| ==> s[i] == ' '
  }

  lemma FramedBetween(left: string, text: string, right: string)
    requires Spaces(left) && Spaces(right)
    ensures Framed([Vertical] + left + text + right + [Vertical], text, 1 + |left|)
  {
    var row := [Vertical] + left + text + right + [Vertical];
    assert row[1 + |left|..1 + |left| + |text|] == text;
    forall i | 1 <= i < |row| - 1 && !(1 + |left| <= i < 1 + |left| + |text|)
      ensures row[i] == ' '
    {
      if i < 1 + |left| {
        assert row[i] == left[i - 1];
      } else {
        assert row[i] == right[i - 1 - |left| - |text|];
      }
    }
  }

  /** A framed row holds no character that is neither a bar, a space nor a
      character of its text. */
  lemma FramedAvoids(row: string, text: string, offset: int, c: char)
    requires Framed(row, text, offset)
    requires c != Vertical && c != ' ' && c !in text
    ensures c !in row
  {
    forall i | 0 <= i < |row|
      ensures row[i] != c
    {
      if offset <= i < offset + |text| {
        assert row[i] == text[i - offset];
      }
    }
  }

  /** Bars around `text` set between two runs of spaces. */
  function Frame(left: string, text: string, right: string): (row: string)
    requires Spaces(left) && Spaces(right)
    ensures |row| == |left| + |text| + |right| + 2
    ensures Framed(row, text, 1 + |left|)
  {
    FramedBetween(left, text, right);
    [Vertical] + left + text + right + [Vertical]
  }

  /** A content line whose text fits: the text padded to the content
      width, left-aligned or centred (the odd space going right), between
      the padding and the bars. */
  function FittedLine(line: string, contentWidth: int, pad: string, centered: bool): (row: string)
    requires Spaces(pad) && |line| <= contentWidth
    ensures |row| == contentWidth + 2 * |pad| + 2
    ensures Framed(row, line, TextOffset(line, contentWidth, |pad|, centered))
  {
    var remaining := contentWidth - |line|;
    if centered then
      var l := pad + Repeat(' ', remaining / 2);
      var rt := Repeat(' ', (remaining + 1) / 2) + pad;
      assert Spaces(l) && Spaces(rt);
      Frame(l, line, rt)
    else
      var rt := Repeat(' ', remaining) + pad;
      assert Spaces(rt);
      Frame(pad, line, rt)
  }

  /** The first fill count a content line asks `repeat` for: the left
      fill when centred, the right fill otherwise. */
  function FirstFill(line: string, contentWidth: int, centered: bool): int {
    if centered then (contentWidth - |line|) / 2 else contentWidth - |line|
  }

  /** One content line. A text longer than the content width makes the
      first fill count negative, and `repeat` throws. */
  function ContentLine(line: string, contentWidth: int, pad: string, centered: bool): (r: Layout<string>)
    requires Spaces(pad)
    ensures r.Laid? <==> |line| <= contentWidth
    ensures r.LayoutError? ==> r.message == InvalidCount(FirstFill(line, contentWidth, centered))
    ensures r.Laid? ==> (|r.value| == contentWidth + 2 * |pad| + 2 &&
      Framed(r.value, line, TextOffset(line, contentWidth, |pad|, centered)))
  {
    var fill := FirstFill(line, contentWidth, centered);
    if fill < 0 then LayoutError(InvalidCount(fill))
    else Laid(FittedLine(line, contentWidth, pad, centered))
  }

  function ContentRows(lines: seq<string>, contentWidth: int, pad: string, centered: bool): (r: Layout<seq<string>>)
    requires Spaces(pad)
    ensures r.Laid? <==> forall k :: 0 <= k < |lines| ==> |lines[k]| <= contentWidth
    ensures r.Laid? ==> (|r.value| == |lines| &&
      forall k :: 0 <= k < |lines| ==> (|r.value[k]| == contentWidth + 2 * |pad| + 2 &&
        Framed(r.value[k], lines[k], TextOffset(lines[k], contentWidth, |pad|, centered))))
    decreases |lines|
  {
    if |lines| == 0 then Laid([])
    else
      match ContentLine(lines[0], contentWidth, pad, centered)
      case LayoutError(m) => LayoutError(m)
      case Laid(row) =>
        FitCons(lines, contentWidth);
        match ContentRows(lines[1..], contentWidth, pad, centered)
        case LayoutError(m) => LayoutError(m)
        case Laid(rows) =>
          FramedCons(row, rows, lines, contentWidth, |pad|, centered);
          Laid([row] + rows)
  }

  /** Every line fits exactly when the first one does and the rest do. */
  lemma FitCons(lines: seq<string>, contentWidth: int)
    requires |lines| > 0
    ensures (forall k :: 0 <= k < |lines| ==> |lines[k]| <= contentWidth) <==>
      (|lines[0]| <= contentWidth && forall k :: 0 <= k < |lines[1..]| ==> |lines[1..][k]| <= contentWidth)
  {
    assert forall k :: 1 <= k < |lines| ==> lines[k] == lines[1..][k - 1];
  }

  /** A framed first row in front of framed rows frames every line. */
  lemma FramedCons(row: string, rows: seq<string>, lines: seq<string>, contentWidth: int, padWidth: int, centered: bool)
    requires |lines| > 0 && |rows| == |lines| - 1
    requires |row| == contentWidth + 2 * padWidth + 2
    requires Framed(row, lines[0], TextOffset(lines[0], contentWidth, padWidth, centered))
    requires forall k :: 0 <= k < |rows| ==> (|rows[k]| == contentWidth + 2 * padWidth + 2 &&
      Framed(rows[k], lines[1..][k], TextOffset(lines[1..][k], contentWidth, padWidth, centered)))
    ensures |[row] + rows| == |lines|
    ensures forall k :: 0 <= k < |lines| ==> (|([row] + rows)[k]| == contentWidth + 2 * padWidth + 2 &&
      Framed(([row] + rows)[k], lines[k], TextOffset(lines[k], contentWidth, padWidth, centered)))
  {
    forall k | 1 <= k < |lines|
      ensures ([row] + rows)[k] == rows[k - 1] && lines[k] == lines[1..][k - 1]
    {
    }
  }

  /** `createContentLines`: one row per wrapped line; a negative padding
      throws before any row is drawn. */
  function ContentLines(lines: seq<string>, contentWidth: int, padding: int, textStyle: string): (r: Layout<seq<string>>)
    ensures padding < 0 ==> r == LayoutError(InvalidCount(padding))
    ensures r.Laid? <==> padding >= 0 && forall k :: 0 <= k < |lines| ==> |lines[k]| <= contentWidth
    ensures r.Laid? ==> (|r.value| == |lines| &&
      forall k :: 0 <= k < |lines| ==> (|r.value[k]| == contentWidth + 2 * padding + 2 &&
        Framed(r.value[k], lines[k], TextOffset(lines[k], contentWidth, padding, textStyle == "centered"))))
  {
    if padding < 0 then LayoutError(InvalidCount(padding))
    else ContentRows(lines, contentWidth, Repeat(' ', padding), textStyle == "centered")
  }

  // One box.

  /** The options of one box; colours are left out. */
  datatype BoxOptions = BoxOptions(text: string, title: Option<string>, titlePosition: string,
                                   textStyle: string, width: int, padding: int)

  /** The options of a box given only its text. */
  function WithDefaults(text: string): BoxOptions {
    BoxOptions(text, None, "topLeft", "standard", 80, 1)
  }

  const TooNarrow := "Box width is too small for the given padding."

  function ContentWidth(o: BoxOptions): int {
    o.width - o.padding * 2 - 2
  }

  function Wrapped(o: BoxOptions): seq<string> {
    WordWrap(o.text, ContentWidth(o))
  }

  predicate TitleOnTop(o: BoxOptions) {
    StartsWith(o.titlePosition, "top")
  }

  function TopTitle(o: BoxOptions): Option<string> {
    if TitleOnTop(o) then o.title else None
  }

  function BottomTitle(o: BoxOptions): Option<string> {
    if TitleOnTop(o) then None else o.title
  }

  /** The box can be drawn: the content is wider than nothing, the padding
      is not negative and every wrapped line fits the content width. */
  predicate Drawable(o: BoxOptions) {
    ContentWidth(o) > 0 && o.padding >= 0 &&
    forall k :: 0 <= k < |Wrapped(o)| ==> |Wrapped(o)[k]| <= ContentWidth(o)
  }

  /** The drawn parts of a box before the blank-line rule. */
  datatype Parts = Parts(top: string, content: seq<string>, bottom: string)

  function TopRow(border: string): string {
    [TopLeft] + border + [TopRight]
  }

  function BottomRow(border: string): string {
    [BottomLeft] + border + [BottomRight]
  }

  function BoxParts(o: BoxOptions): (r: Layout<Parts>)
    ensures ContentWidth(o) <= 0 ==> r == LayoutError(TooNarrow)
    ensures r.Laid? <==> Drawable(o)
    ensures r.Laid? ==>
      r.value.top == TopRow(HorizontalBorder(o.width, TopTitle(o), o.titlePosition).value) &&
      r.value.bottom == BottomRow(HorizontalBorder(o.width, BottomTitle(o), o.titlePosition).value) &&
      |r.value.top| == o.width && |r.value.bottom| == o.width &&
      |r.value.content| == |Wrapped(o)| &&
      forall k :: 0 <= k < |Wrapped(o)| ==> (|r.value.content[k]| == o.width &&
        Framed(r.value.content[k], Wrapped(o)[k], TextOffset(Wrapped(o)[k], ContentWidth(o), o.padding, o.textStyle == "centered")))
  {
    var cw := ContentWidth(o);
    if cw <= 0 then LayoutError(TooNarrow)
    else
      var wrapped := Wrapped(o);
      match HorizontalBorder(o.width, TopTitle(o), o.titlePosition)
      case LayoutError(m) => LayoutError(m)
      case Laid(top) =>
        match HorizontalBorder(o.width, BottomTitle(o), o.titlePosition)
        case LayoutError(m) => LayoutError(m)
        case Laid(bottom) =>
          match ContentLines(wrapped, cw, o.padding, o.textStyle)
          case LayoutError(m) => LayoutError(m)
          case Laid(content) => Laid(Parts(TopRow(top), content, BottomRow(bottom)))
  }

  /** The text is empty or wraps to nothing. */
  predicate NoText(wrapped: seq<string>) {
    |wrapped| == 0 || (|wrapped| == 1 && wrapped[0] == "")
  }

  /** A row of the box with nothing between its bars but spaces. */
  function BlankRow(contentWidth: nat, padding: nat): string {
    [Vertical] + Repeat(' ', padding) + Repeat(' ', contentWidth) + Repeat(' ', padding) + [Vertical]
  }

  predicate Blank(row: string, width: int) {
    |row| == width && width >= 2 && row[0] == Vertical && row[width - 1] == Vertical &&
    forall i :: 1 <= i < width - 1 ==> row[i] == ' '
  }

  lemma BlankRowIsBlank(contentWidth: nat, padding: nat)
    ensures Blank(BlankRow(contentWidth, padding), contentWidth + 2 * padding + 2)
  {
    var row := BlankRow(contentWidth, padding);
    forall i | 1 <= i < |row| - 1
      ensures row[i] == ' '
    {
      if i < 1 + padding {
        assert row[i] == Repeat(' ', padding)[i - 1];
      } else if i < 1 + padding + contentWidth {
        assert row[i] == Repeat(' ', contentWidth)[i - 1 - padding];
      } else {
        assert row[i] == Repeat(' ', padding)[i - 1 - padding - contentWidth];
      }
    }
  }

  /** The rows of a drawn box: the top border, the content rows, a blank
      row when `blank` holds, and the bottom border. */
  function Assemble(o: BoxOptions, p: Parts, blank: bool): (rows: seq<string>)
    requires BoxParts(o) == Laid(p)
    ensures |rows| == |p.content| + 2 + (if blank then 1 else 0)
    ensures rows[0] == p.top && rows[|rows| - 1] == p.bottom
    ensures forall k :: 0 <= k < |p.content| ==> rows[k + 1] == p.content[k]
    ensures blank ==> rows[|p.content| + 1] == BlankRow(ContentWidth(o), o.padding)
    ensures forall k :: 0 <= k < |rows| ==> |rows[k]| == o.width
  {
    PartsAreWide(o, p);
    var middle := p.content + if blank then [BlankRow(ContentWidth(o), o.padding)] else [];
    assert forall k :: 0 <= k < |middle| ==> |middle[k]| == o.width;
    var rows := Stack(p.top, middle, p.bottom);
    assert forall k :: 1 <= k < |rows| - 1 ==> rows[k] == middle[k - 1];
    rows
  }

  /** Every part of a drawn box, and its blank row, is as wide as the box. */
  lemma PartsAreWide(o: BoxOptions, p: Parts)
    requires BoxParts(o) == Laid(p)
    ensures ContentWidth(o) > 0
    ensures |p.top| == o.width && |p.bottom| == o.width
    ensures forall k :: 0 <= k < |p.content| ==> |p.content[k]| == o.width
    ensures |BlankRow(ContentWidth(o), o.padding)| == o.width
  {
  }

  /** One row, then the middle rows, then one more. */
  function Stack(first: string, middle: seq<string>, last: string): (rows: seq<string>)
    ensures |rows| == |middle| + 2
    ensures rows[0] == first && rows[|rows| - 1] == last
    ensures forall k :: 0 <= k < |middle| ==> rows[k + 1] == middle[k]
  {
    [first] + middle + [last]
  }

  /** The rows of `createBox` before they are joined: the top border, the
      content rows, one extra blank row when there is no text, and the
      bottom border. Every row is exactly as wide as the box. */
  function BoxLines(o: BoxOptions): (r: Layout<seq<string>>)
    ensures ContentWidth(o) <= 0 ==> r == LayoutError(TooNarrow)
    ensures r.Laid? <==> Drawable(o)
    ensures r.Laid? ==> |r.value| == |Wrapped(o)| + 2 + (if NoText(Wrapped(o)) then 1 else 0)
    ensures r.Laid? ==> forall k :: 0 <= k < |r.value| ==> |r.value[k]| == o.width
  {
    match BoxParts(o)
    case LayoutError(m) => LayoutError(m)
    case Laid(p) => Laid(Assemble(o, p, NoText(Wrapped(o))))
  }

  /** `createBox`: the rows joined by newlines. */
  function CreateBox(o: BoxOptions): (r: Layout<string>)
    ensures ContentWidth(o) <= 0 ==> r == LayoutError(TooNarrow)
    ensures r.Laid? <==> Drawable(o)
    ensures r.Laid? ==> r.value == Join(BoxLines(o).value, "\n")
  {
    match BoxLines(o)
    case LayoutError(m) => LayoutError(m)
    case Laid(rows) => Laid(Join(rows, "\n"))
  }

  /** The title is drawn in the top border exactly when its position
      starts with "top"; the other border is plain line. */
  lemma TitleInTopIffTopPosition(o: BoxOptions)
    requires Drawable(o) && !Untitled(o.title)
    ensures var rows := BoxLines(o).value;
      var titled := HorizontalBorder(o.width, o.title, o.titlePosition).value;
      var plain := Repeat(Horizontal, o.width - 2);
      (TitleOnTop(o) ==> rows[0] == TopRow(titled) && rows[|rows| - 1] == BottomRow(plain)) &&
      (!TitleOnTop(o) ==> rows[0] == TopRow(plain) && rows[|rows| - 1] == BottomRow(titled)) &&
      titled != plain
  {
    var p := BoxParts(o).value;
    TitleShows(o.width, o.title.value, o.titlePosition);
  }

  /** Each wrapped line appears in its own row, at its alignment, in
      order. */
  lemma ContentRowsHoldText(o: BoxOptions)
    requires Drawable(o)
    ensures var rows := BoxLines(o).value;
      forall k :: 0 <= k < |Wrapped(o)| ==>
        Framed(rows[k + 1], Wrapped(o)[k], TextOffset(Wrapped(o)[k], ContentWidth(o), o.padding, o.textStyle == "centered"))
  {
    var p := BoxParts(o).value;
    var rows := BoxLines(o).value;
    assert forall k :: 0 <= k < |Wrapped(o)| ==> rows[k + 1] == p.content[k];
  }

  /** A box of empty text, as written, has two blank rows: the row drawn
      for its one empty wrapped line and the extra blank row. */
  lemma EmptyTextGivesTwoBlankRows(o: BoxOptions)
    requires o.text == "" && Drawable(o)
    ensures |BoxLines(o).value| == 4
    ensures Blank(BoxLines(o).value[1], o.width) && Blank(BoxLines(o).value[2], o.width)
  {
    WrapEmpty(ContentWidth(o));
    var p := BoxParts(o).value;
    var rows := BoxLines(o).value;
    assert rows[1] == p.content[0];
    assert Framed(rows[1], "", TextOffset("", ContentWidth(o), o.padding, o.textStyle == "centered"));
    BlankRowIsBlank(ContentWidth(o), o.padding);
  }

  /** `createBox` with the extra blank row only when no row was drawn at
      all, so that a box without text has exactly one blank row. */
  function BoxLinesIntended(o: BoxOptions): (r: Layout<seq<string>>)
    ensures r.Laid? <==> Drawable(o)
    ensures r.Laid? ==> |r.value| == (if |Wrapped(o)| == 0 then 3 else |Wrapped(o)| + 2)
    ensures r.Laid? ==> forall k :: 0 <= k < |r.value| ==> |r.value[k]| == o.width
  {
    match BoxParts(o)
    case LayoutError(m) => LayoutError(m)
    case Laid(p) => Laid(Assemble(o, p, |Wrapped(o)| == 0))
  }

  function CreateBoxIntended(o: BoxOptions): (r: Layout<string>)
    ensures r.Laid? <==> Drawable(o)
    ensures r.Laid? ==> r.value == Join(BoxLinesIntended(o).value, "\n")
  {
    match BoxLinesIntended(o)
    case LayoutError(m) => LayoutError(m)
    case Laid(rows) => Laid(Join(rows, "\n"))
  }

  /** With the correction, a box without text has exactly one blank row,
      and every box with text is drawn as before. */
  lemma NoTextGivesOneBlankRow(o: BoxOptions)
    requires Drawable(o)
    ensures NoText(Wrapped(o)) ==> |BoxLinesIntended(o).value| == 3 && Blank(BoxLinesIntended(o).value[1], o.width)
    ensures !NoText(Wrapped(o)) ==> BoxLinesIntended(o) == BoxLines(o)
  {
    IntendedKeepsTextBoxes(o);
    if NoText(Wrapped(o)) {
      if |Wrapped(o)| == 0 {
        NoLinesGiveBlankRow(o);
      } else {
        EmptyLineGivesBlankRow(o);
      }
    }
  }

  /** With nothing wrapped, the corrected box adds its blank row. */
  lemma NoLinesGiveBlankRow(o: BoxOptions)
    requires Drawable(o) && |Wrapped(o)| == 0
    ensures |BoxLinesIntended(o).value| == 3 && Blank(BoxLinesIntended(o).value[1], o.width)
  {
    var rows := BoxLinesIntended(o).value;
    assert rows[1] == BlankRow(ContentWidth(o), o.padding);
    BlankRowIsBlank(ContentWidth(o), o.padding);
  }

  /** With one empty wrapped line, that line is the blank row. */
  lemma EmptyLineGivesBlankRow(o: BoxOptions)
    requires Drawable(o) && NoText(Wrapped(o)) && |Wrapped(o)| != 0
    ensures |BoxLinesIntended(o).value| == 3 && Blank(BoxLinesIntended(o).value[1], o.width)
  {
    var p := BoxParts(o).value;
    var rows := BoxLinesIntended(o).value;
    assert rows[1] == p.content[0];
    assert Framed(rows[1], "", TextOffset("", ContentWidth(o), o.padding, o.textStyle == "centered"));
  }

  /** The correction leaves every box with text as it was. */
  lemma IntendedKeepsTextBoxes(o: BoxOptions)
    requires Drawable(o)
    ensures !NoText(Wrapped(o)) ==> BoxLinesIntended(o) == BoxLines(o)
  {
    if !NoText(Wrapped(o)) {
      assert |Wrapped(o)| != 0;
    }
  }

  /** No drawn part of a box holds a newline when its title holds
      none. */
  lemma PartsAvoidNewline(o: BoxOptions, p: Parts)
    requires BoxParts(o) == Laid(p)
    requires o.title.Some? ==> '\n' !in o.title.value
    ensures '\n' !in p.top && '\n' !in p.bottom
    ensures forall k :: 0 <= k < |p.content| ==> '\n' !in p.content[k]
  {
    BorderAvoids(o.width, TopTitle(o), o.titlePosition, '\n');
    BorderAvoids(o.width, BottomTitle(o), o.titlePosition, '\n');
    forall k | 0 <= k < |p.content|
      ensures '\n' !in p.content[k]
    {
      FramedAvoids(p.content[k], Wrapped(o)[k],
        TextOffset(Wrapped(o)[k], ContentWidth(o), o.padding, o.textStyle == "centered"), '\n');
    }
  }

  /** No row of a box holds a newline when its title holds none. */
  lemma RowsAvoidNewline(o: BoxOptions)
    requires Drawable(o)
    requires o.title.Some? ==> '\n' !in o.title.value
    ensures forall k :: 0 <= k < |BoxLines(o).value| ==> '\n' !in BoxLines(o).value[k]
  {
    var p := BoxParts(o).value;
    var blank := NoText(Wrapped(o));
    var rows := Assemble(o, p, blank);
    assert BoxLines(o).value == rows;
    PartsAvoidNewline(o, p);
    var extra := if blank then [BlankRow(ContentWidth(o), o.padding)] else [];
    if blank {
      BlankRowIsBlank(ContentWidth(o), o.padding);
      BlankAvoids(extra[0], ContentWidth(o) + 2 * o.padding + 2, '\n');
    }
    RowsAvoid(rows, p.top, p.bottom, p.content, extra, '\n');
  }

  /** A blank row holds nothing but its bars and spaces. */
  lemma BlankAvoids(row: string, width: int, c: char)
    requires Blank(row, width) && c != Vertical && c != ' '
    ensures c !in row
  {
    forall i | 0 <= i < |row| ensures row[i] != c {
      if 1 <= i < width - 1 {
        assert row[i] == ' ';
      }
    }
  }

  /** Rows stacked from a top, the content, an optional extra row and a
      bottom hold a character only when one of the parts does. */
  lemma RowsAvoid(rows: seq<string>, top: string, bottom: string, content: seq<string>,
                  extra: seq<string>, c: char)
    requires |extra| <= 1 && |rows| == |content| + 2 + |extra|
    requires rows[0] == top && rows[|rows| - 1] == bottom
    requires forall k :: 0 <= k < |content| ==> rows[k + 1] == content[k]
    requires |extra| == 1 ==> rows[|content| + 1] == extra[0]
    requires c !in top && c !in bottom
    requires forall k :: 0 <= k < |content| ==> c !in content[k]
    requires |extra| == 1 ==> c !in extra[0]
    ensures forall k :: 0 <= k < |rows| ==> c !in rows[k]
  {
    forall k | 0 <= k < |rows|
      ensures c !in rows[k]
    {
      if 1 <= k <= |content| {
        assert rows[k] == content[k - 1];
      }
    }
  }

  /** A box whose title has no newline splits back into its rows. */
  lemma BoxSplitsIntoRows(o: BoxOptions)
    requires Drawable(o)
    requires o.title.Some? ==> '\n' !in o.title.value
    ensures Split(CreateBox(o).value, '\n') == BoxLines(o).value
  {
    RowsAvoidNewline(o);
    SplitJoin(BoxLines(o).value, '\n');
  }

  /** Boxes that can be drawn are at least three columns wide. */
  lemma DrawnBoxesAreWide(boxes: seq<BoxOptions>)
    requires forall k :: 0 <= k < |boxes| ==> CreateBox(boxes[k]).Laid?
    ensures forall k :: 0 <= k < |boxes| ==> BoxWidth(boxes[k]) == boxes[k].width >= 3
  {
  }

  // Boxes side by side.

  /** The width `createBoxes` pads a box with: `width || 80`. */
  function BoxWidth(o: BoxOptions): int {
    if o.width == 0 then 80 else o.width
  }

  /** The drawn boxes split at their newlines; the first box that threw
      makes the whole throw. */
  function SplitAll(drawn: seq<Layout<string>>): (r: Layout<seq<seq<string>>>)
    ensures r.Laid? <==> forall k :: 0 <= k < |drawn| ==> drawn[k].Laid?
    ensures r.Laid? ==> (|r.value| == |drawn| &&
      forall k :: 0 <= k < |drawn| ==> r.value[k] == Split(drawn[k].value, '\n'))
    decreases |drawn|
  {
    if |drawn| == 0 then Laid([])
    else
      match drawn[0]
      case LayoutError(m) => LayoutError(m)
      case Laid(s) =>
        match SplitAll(drawn[1..])
        case LayoutError(m) =>
          assert exists k :: 0 <= k < |drawn[1..]| && !drawn[1..][k].Laid?;
          LayoutError(m)
        case Laid(rest) =>
          assert forall k :: 1 <= k < |drawn| ==> drawn[k] == drawn[1..][k - 1];
          assert forall k :: 1 <= k < |drawn| ==> ([Split(s, '\n')] + rest)[k] == rest[k - 1];
          Laid([Split(s, '\n')] + rest)
  }

  /** `boxes.map(b => createBox(b).split('\n'))`. */
  function RenderAll(boxes: seq<BoxOptions>): (r: Layout<seq<seq<string>>>)
    ensures r.Laid? <==> forall k :: 0 <= k < |boxes| ==> CreateBox(boxes[k]).Laid?
    ensures r.Laid? ==> |r.value| == |boxes|
  {
    SplitAll(Drawn(boxes))
  }

  function Drawn(boxes: seq<BoxOptions>): (r: seq<Layout<string>>)
    ensures |r| == |boxes| && forall k :: 0 <= k < |boxes| ==> r[k] == CreateBox(boxes[k])
  {
    seq(|boxes|, k requires 0 <= k < |boxes| => CreateBox(boxes[k]))
  }

  /** Each drawn box is split at its newlines, in order. */
  lemma RenderAllRows(boxes: seq<BoxOptions>)
    ensures RenderAll(boxes).Laid? ==>
      forall k :: 0 <= k < |boxes| ==> RenderAll(boxes).value[k] == Split(CreateBox(boxes[k]).value, '\n')
  {
  }

  /** The height of the tallest box. */
  function Tallest(cols: seq<seq<string>>): (h: nat)
    ensures forall k :: 0 <= k < |cols| ==> |cols[k]| <= h
    ensures |cols| > 0 ==> exists k :: 0 <= k < |cols| && |cols[k]| == h
    decreases |cols|
  {
    if |cols| == 0 then 0
    else
      var rest := Tallest(cols[1..]);
      assert forall k :: 1 <= k < |cols| ==> cols[k] == cols[1..][k - 1];
      if |cols[0]| >= rest then |cols[0]| else rest
  }

  /** A box's rows followed by padding rows up to height `h`. */
  function PadTo(rows: seq<string>, fill: string, h: nat): (r: seq<string>)
    ensures |r| == if |rows| >= h then |rows| else h
    ensures r[..|rows|] == rows
    ensures forall i :: |rows| <= i < |r| ==> r[i] == fill
  {
    if |rows| >= h then rows else rows + seq(h - |rows|, _ => fill)
  }

  /** Row `i` of the picture: row `i` of every column, separated. */
  function Row(cols: seq<seq<string>>, i: nat, sep: string): string
    requires forall j :: 0 <= j < |cols| ==> i < |cols[j]|
  {
    Join(seq(|cols|, j requires 0 <= j < |cols| => cols[j][i]), sep)
  }

  function Grid(cols: seq<seq<string>>, h: nat, sep: string): (r: seq<string>)
    requires forall j :: 0 <= j < |cols| ==> h <= |cols[j]|
    ensures |r| == h && forall i :: 0 <= i < h ==> r[i] == Row(cols, i, sep)
  {
    seq(h, i requires 0 <= i < h => Row(cols, i, sep))
  }

  /** Every column padded to height `h` with rows as wide as its box. */
  function PadAll(boxes: seq<BoxOptions>, cols: seq<seq<string>>, h: nat): (r: seq<seq<string>>)
    requires |cols| == |boxes| && forall k :: 0 <= k < |boxes| ==> BoxWidth(boxes[k]) >= 0
    requires forall k :: 0 <= k < |cols| ==> |cols[k]| <= h
    ensures |r| == |cols| && forall j :: 0 <= j < |r| ==> |r[j]| == h
    ensures forall j :: 0 <= j < |r| ==> r[j] == PadTo(cols[j], Repeat(' ', BoxWidth(boxes[j])), h)
  {
    seq(|cols|, j requires 0 <= j < |cols| => PadTo(cols[j], Repeat(' ', BoxWidth(boxes[j])), h))
  }

  /** The rows of `createBoxes` for at least one box, before they are
      joined. */
  function SideBySide(boxes: seq<BoxOptions>, distanceBetween: int): (r: Layout<seq<string>>)
    requires |boxes| > 0
    ensures distanceBetween < 0 ==> r == LayoutError(InvalidCount(distanceBetween))
    ensures r.Laid? <==> distanceBetween >= 0 && forall k :: 0 <= k < |boxes| ==> CreateBox(boxes[k]).Laid?
  {
    if distanceBetween < 0 then LayoutError(InvalidCount(distanceBetween))
    else
      match RenderAll(boxes)
      case LayoutError(m) => LayoutError(m)
      case Laid(cols) =>
        DrawnBoxesAreWide(boxes);
        Laid(Arrange(boxes, cols, Repeat(' ', distanceBetween)))
  }

  /** The columns padded to the tallest and laid out row by row. */
  function Arrange(boxes: seq<BoxOptions>, cols: seq<seq<string>>, sep: string): seq<string>
    requires |cols| == |boxes| && forall k :: 0 <= k < |boxes| ==> BoxWidth(boxes[k]) >= 0
  {
    var h := Tallest(cols);
    Grid(PadAll(boxes, cols, h), h, sep)
  }

  /** `createBoxes`: nothing for no boxes; otherwise the boxes' rows side
      by side, shorter boxes padded with blank rows, joined by newlines. */
  function CreateBoxes(boxes: seq<BoxOptions>, distanceBetween: int := 2): (r: Layout<string>)
    ensures |boxes| == 0 ==> r == Laid("")
    ensures |boxes| > 0 && distanceBetween < 0 ==> r == LayoutError(InvalidCount(distanceBetween))
    ensures |boxes| > 0 ==> (r.Laid? <==> distanceBetween >= 0 && forall k :: 0 <= k < |boxes| ==> Drawable(boxes[k]))
  {
    if |boxes| == 0 then Laid("")
    else
      assert (forall k :: 0 <= k < |boxes| ==> Drawable(boxes[k])) <==>
             (forall k :: 0 <= k < |boxes| ==> CreateBox(boxes[k]).Laid?);
      match SideBySide(boxes, distanceBetween)
      case LayoutError(m) => LayoutError(m)
      case Laid(rows) => Laid(Join(rows, "\n"))
  }

  /** One box side by side with nothing is that box. */
  lemma OneBoxIsItself(o: BoxOptions, distanceBetween: int)
    requires Drawable(o) && distanceBetween >= 0
    ensures CreateBoxes([o], distanceBetween) == CreateBox(o)
  {
    var s := CreateBox(o).value;
    var cols := RenderAll([o]).value;
    assert cols == [Split(s, '\n')];
    var h := Tallest(cols);
    assert h == |Split(s, '\n')|;
    DrawnBoxesAreWide([o]);
    var padded := PadAll([o], cols, h);
    assert padded[0] == Split(s, '\n');
    var sep := Repeat(' ', distanceBetween);
    var g := Grid(padded, h, sep);
    forall i | 0 <= i < h
      ensures g[i] == Split(s, '\n')[i]
    {
      assert seq(|padded|, j requires 0 <= j < |padded| => padded[j][i]) == [Split(s, '\n')[i]];
    }
    assert g == Split(s, '\n');
  }

  function SumWidths(boxes: seq<BoxOptions>): int
    decreases |boxes|
  {
    if |boxes| == 0 then 0 else boxes[0].width + SumWidths(boxes[1..])
  }

  function SumLengths(parts: seq<string>): nat
    decreases |parts|
  {
    if |parts| == 0 then 0 else |parts[0]| + SumLengths(parts[1..])
  }

  lemma {:induction false} JoinLength(parts: seq<string>, sep: string)
    requires |parts| >= 1
    ensures |Join(parts, sep)| == SumLengths(parts) + (|parts| - 1) * |sep|
    decreases |parts|
  {
    if |parts| > 1 {
      JoinLength(parts[1..], sep);
    }
  }

  lemma {:induction false} JoinAvoids(parts: seq<string>, sep: string, c: char)
    requires c !in sep
    requires forall k :: 0 <= k < |parts| ==> c !in parts[k]
    ensures c !in Join(parts, sep)
    decreases |parts|
  {
    if |parts| > 1 {
      assert forall k :: 0 <= k < |parts[1..]| ==> parts[1..][k] == parts[k + 1];
      JoinAvoids(parts[1..], sep, c);
    }
  }

  lemma {:induction false} SumLengthsOfWidths(parts: seq<string>, boxes: seq<BoxOptions>)
    requires |parts| == |boxes|
    requires forall j :: 0 <= j < |parts| ==> |parts[j]| == boxes[j].width
    ensures SumLengths(parts) == SumWidths(boxes)
    decreases |parts|
  {
    if |parts| > 0 {
      assert forall j :: 0 <= j < |parts[1..]| ==> parts[1..][j] == parts[j + 1] && boxes[1..][j] == boxes[j + 1];
      SumLengthsOfWidths(parts[1..], boxes[1..]);
    }
  }

  /** Boxes with newline-free titles split back into their rows. */
  lemma ColumnsAreRows(boxes: seq<BoxOptions>)
    requires forall k :: 0 <= k < |boxes| ==> Drawable(boxes[k])
    requires forall k :: 0 <= k < |boxes| ==> boxes[k].title.Some? ==> '\n' !in boxes[k].title.value
    ensures RenderAll(boxes).Laid?
    ensures forall k :: 0 <= k < |boxes| ==> RenderAll(boxes).value[k] == BoxLines(boxes[k]).value
  {
    RenderAllRows(boxes);
    forall k | 0 <= k < |boxes|
      ensures Split(CreateBox(boxes[k]).value, '\n') == BoxLines(boxes[k]).value
    {
      BoxSplitsIntoRows(boxes[k]);
    }
  }

  /** Row `i` of padded columns: each cell as wide as its box, none with a
      newline. */
  lemma CellsOfRow(boxes: seq<BoxOptions>, cols: seq<seq<string>>, h: nat, i: nat)
    requires forall k :: 0 <= k < |boxes| ==> Drawable(boxes[k])
    requires forall k :: 0 <= k < |boxes| ==> boxes[k].title.Some? ==> '\n' !in boxes[k].title.value
    requires |cols| == |boxes| && forall k :: 0 <= k < |boxes| ==> cols[k] == BoxLines(boxes[k]).value
    requires forall k :: 0 <= k < |cols| ==> |cols[k]| <= h
    requires i < h
    ensures forall k :: 0 <= k < |boxes| ==> BoxWidth(boxes[k]) >= 0
    ensures var padded := PadAll(boxes, cols, h);
      forall j :: 0 <= j < |boxes| ==> |padded[j][i]| == boxes[j].width && '\n' !in padded[j][i]
  {
    assert forall k :: 0 <= k < |boxes| ==> CreateBox(boxes[k]).Laid?;
    DrawnBoxesAreWide(boxes);
    var padded := PadAll(boxes, cols, h);
    forall j | 0 <= j < |boxes|
      ensures |padded[j][i]| == boxes[j].width && '\n' !in padded[j][i]
    {
      var fill := Repeat(' ', BoxWidth(boxes[j]));
      assert padded[j] == PadTo(cols[j], fill, h);
      if i < |cols[j]| {
        assert padded[j][i] == padded[j][..|cols[j]|][i] == cols[j][i];
        RowsAvoidNewline(boxes[j]);
      } else {
        assert padded[j][i] == fill;
      }
    }
  }

  /** Every row of the padded grid is as wide as all the boxes and the
      gaps between them, and holds no newline. */
  lemma GridRowsAreEven(boxes: seq<BoxOptions>, cols: seq<seq<string>>, h: nat, sep: string)
    requires |boxes| > 0 && Spaces(sep)
    requires forall k :: 0 <= k < |boxes| ==> Drawable(boxes[k])
    requires forall k :: 0 <= k < |boxes| ==> boxes[k].title.Some? ==> '\n' !in boxes[k].title.value
    requires |cols| == |boxes| && forall k :: 0 <= k < |boxes| ==> cols[k] == BoxLines(boxes[k]).value
    requires forall k :: 0 <= k < |cols| ==> |cols[k]| <= h
    ensures forall k :: 0 <= k < |boxes| ==> BoxWidth(boxes[k]) >= 0
    ensures var g := Grid(PadAll(boxes, cols, h), h, sep);
      forall i :: 0 <= i < h ==> |g[i]| == SumWidths(boxes) + (|boxes| - 1) * |sep| && '\n' !in g[i]
  {
    assert forall k :: 0 <= k < |boxes| ==> CreateBox(boxes[k]).Laid?;
    DrawnBoxesAreWide(boxes);
    var g := Grid(PadAll(boxes, cols, h), h, sep);
    forall i | 0 <= i < h
      ensures |g[i]| == SumWidths(boxes) + (|boxes| - 1) * |sep| && '\n' !in g[i]
    {
      GridRowIsEven(boxes, cols, h, sep, i);
    }
  }

  /** Row `i` of the padded grid: its cells joined by the separator. */
  lemma GridRowIsEven(boxes: seq<BoxOptions>, cols: seq<seq<string>>, h: nat, sep: string, i: nat)
    requires |boxes| > 0 && Spaces(sep)
    requires forall k :: 0 <= k < |boxes| ==> Drawable(boxes[k])
    requires forall k :: 0 <= k < |boxes| ==> boxes[k].title.Some? ==> '\n' !in boxes[k].title.value
    requires |cols| == |boxes| && forall k :: 0 <= k < |boxes| ==> cols[k] == BoxLines(boxes[k]).value
    requires forall k :: 0 <= k < |cols| ==> |cols[k]| <= h
    requires forall k :: 0 <= k < |boxes| ==> BoxWidth(boxes[k]) >= 0
    requires i < h
    ensures var g := Grid(PadAll(boxes, cols, h), h, sep);
      |g[i]| == SumWidths(boxes) + (|boxes| - 1) * |sep| && '\n' !in g[i]
  {
    CellsOfRow(boxes, cols, h, i);
    RowOfCells(PadAll(boxes, cols, h), boxes, i, sep);
  }

  /** A row whose cells are as wide as their boxes and hold no newline. */
  lemma RowOfCells(padded: seq<seq<string>>, boxes: seq<BoxOptions>, i: nat, sep: string)
    requires |padded| == |boxes| > 0 && Spaces(sep)
    requires forall j :: 0 <= j < |padded| ==> i < |padded[j]|
    requires forall j :: 0 <= j < |boxes| ==> |padded[j][i]| == boxes[j].width && '\n' !in padded[j][i]
    ensures |Row(padded, i, sep)| == SumWidths(boxes) + (|boxes| - 1) * |sep|
    ensures '\n' !in Row(padded, i, sep)
  {
    var cells := seq(|padded|, j requires 0 <= j < |padded| => padded[j][i]);
    assert Row(padded, i, sep) == Join(cells, sep);
    JoinLength(cells, sep);
    SumLengthsOfWidths(cells, boxes);
    JoinAvoids(cells, sep, '\n');
  }

  /** Boxes side by side form a rectangle: as many rows as the tallest
      box has, each as wide as all the boxes and the gaps between them. */
  lemma SideBySideIsRectangular(boxes: seq<BoxOptions>, distanceBetween: int)
    requires |boxes| > 0 && distanceBetween >= 0
    requires forall k :: 0 <= k < |boxes| ==> Drawable(boxes[k])
    requires forall k :: 0 <= k < |boxes| ==> boxes[k].title.Some? ==> '\n' !in boxes[k].title.value
    ensures CreateBoxes(boxes, distanceBetween).Laid?
    ensures var rows := Split(CreateBoxes(boxes, distanceBetween).value, '\n');
      (forall k :: 0 <= k < |boxes| ==> |BoxLines(boxes[k]).value| <= |rows|) &&
      (exists k :: 0 <= k < |boxes| && |BoxLines(boxes[k]).value| == |rows|) &&
      (forall i :: 0 <= i < |rows| ==> |rows[i]| == SumWidths(boxes) + (|boxes| - 1) * distanceBetween)
  {
    SideBySideRows(boxes, distanceBetween);
    SideBySideShape(boxes, distanceBetween);
  }

  /** The rows `createBoxes` joins split back out. */
  lemma SideBySideRows(boxes: seq<BoxOptions>, distanceBetween: int)
    requires |boxes| > 0 && distanceBetween >= 0
    requires forall k :: 0 <= k < |boxes| ==> Drawable(boxes[k])
    requires forall k :: 0 <= k < |boxes| ==> boxes[k].title.Some? ==> '\n' !in boxes[k].title.value
    ensures CreateBoxes(boxes, distanceBetween).Laid? && SideBySide(boxes, distanceBetween).Laid?
    ensures Split(CreateBoxes(boxes, distanceBetween).value, '\n') == SideBySide(boxes, distanceBetween).value
  {
    SideBySideShape(boxes, distanceBetween);
    var g := SideBySide(boxes, distanceBetween).value;
    assert CreateBoxes(boxes, distanceBetween) == Laid(Join(g, "\n"));
    SplitJoin(g, '\n');
  }

  /** The rows of boxes side by side, before the join: as many as the
      tallest box has, all as wide as the boxes and the gaps, none with a
      newline. */
  lemma SideBySideShape(boxes: seq<BoxOptions>, distanceBetween: int)
    requires |boxes| > 0 && distanceBetween >= 0
    requires forall k :: 0 <= k < |boxes| ==> Drawable(boxes[k])
    requires forall k :: 0 <= k < |boxes| ==> boxes[k].title.Some? ==> '\n' !in boxes[k].title.value
    ensures SideBySide(boxes, distanceBetween).Laid?
    ensures var rows := SideBySide(boxes, distanceBetween).value;
      |rows| >= 1 &&
      (forall k :: 0 <= k < |boxes| ==> |BoxLines(boxes[k]).value| <= |rows|) &&
      (exists k :: 0 <= k < |boxes| && |BoxLines(boxes[k]).value| == |rows|) &&
      (forall i :: 0 <= i < |rows| ==> |rows[i]| == SumWidths(boxes) + (|boxes| - 1) * distanceBetween && '\n' !in rows[i])
  {
    SideBySideHeight(boxes, distanceBetween);
    SideBySideWidth(boxes, distanceBetween);
  }

  lemma SideBySideHeight(boxes: seq<BoxOptions>, distanceBetween: int)
    requires |boxes| > 0 && distanceBetween >= 0
    requires forall k :: 0 <= k < |boxes| ==> Drawable(boxes[k])
    requires forall k :: 0 <= k < |boxes| ==> boxes[k].title.Some? ==> '\n' !in boxes[k].title.value
    ensures SideBySide(boxes, distanceBetween).Laid?
    ensures var rows := SideBySide(boxes, distanceBetween).value;
      |rows| >= 1 &&
      (forall k :: 0 <= k < |boxes| ==> |BoxLines(boxes[k]).value| <= |rows|) &&
      (exists k :: 0 <= k < |boxes| && |BoxLines(boxes[k]).value| == |rows|)
  {
    ColumnsAreRows(boxes);
    SideBySideIsGrid(boxes, distanceBetween);
    var cols := RenderAll(boxes).value;
    var rows := SideBySide(boxes, distanceBetween).value;
    assert |rows| == Tallest(cols);
    assert |cols[0]| >= 1;
    RowsOfTallest(cols, rows);
  }

  lemma SideBySideWidth(boxes: seq<BoxOptions>, distanceBetween: int)
    requires |boxes| > 0 && distanceBetween >= 0
    requires forall k :: 0 <= k < |boxes| ==> Drawable(boxes[k])
    requires forall k :: 0 <= k < |boxes| ==> boxes[k].title.Some? ==> '\n' !in boxes[k].title.value
    ensures SideBySide(boxes, distanceBetween).Laid?
    ensures var rows := SideBySide(boxes, distanceBetween).value;
      forall i :: 0 <= i < |rows| ==> |rows[i]| == SumWidths(boxes) + (|boxes| - 1) * distanceBetween && '\n' !in rows[i]
  {
    RenderedGridIsEven(boxes, distanceBetween);
    SideBySideIsGrid(boxes, distanceBetween);
  }

  /** The padded grid of the drawn boxes has rows of one width and no
      newline. */
  lemma RenderedGridIsEven(boxes: seq<BoxOptions>, distanceBetween: int)
    requires |boxes| > 0 && distanceBetween >= 0
    requires forall k :: 0 <= k < |boxes| ==> Drawable(boxes[k])
    requires forall k :: 0 <= k < |boxes| ==> boxes[k].title.Some? ==> '\n' !in boxes[k].title.value
    ensures RenderAll(boxes).Laid? && forall k :: 0 <= k < |boxes| ==> BoxWidth(boxes[k]) >= 0
    ensures var g := Arrange(boxes, RenderAll(boxes).value, Repeat(' ', distanceBetween));
      forall i :: 0 <= i < |g| ==> |g[i]| == SumWidths(boxes) + (|boxes| - 1) * distanceBetween && '\n' !in g[i]
  {
    ColumnsAreRows(boxes);
    var cols := RenderAll(boxes).value;
    var sep := Repeat(' ', distanceBetween);
    assert Spaces(sep) && |sep| == distanceBetween;
    GridRowsAreEven(boxes, cols, Tallest(cols), sep);
  }

  /** As many rows as the tallest column: no column is taller, and one is
      exactly as tall. */
  lemma RowsOfTallest(cols: seq<seq<string>>, rows: seq<string>)
    requires |cols| > 0 && |rows| == Tallest(cols)
    ensures forall k :: 0 <= k < |cols| ==> |cols[k]| <= |rows|
    ensures exists k :: 0 <= k < |cols| && |cols[k]| == |rows|
  {
  }

  /** The rows of drawable boxes side by side are the padded grid. */
  lemma SideBySideIsGrid(boxes: seq<BoxOptions>, distanceBetween: int)
    requires |boxes| > 0 && distanceBetween >= 0
    requires forall k :: 0 <= k < |boxes| ==> Drawable(boxes[k])
    ensures RenderAll(boxes).Laid? && forall k :: 0 <= k < |boxes| ==> BoxWidth(boxes[k]) >= 0
    ensures var cols := RenderAll(boxes).value;
      var h := Tallest(cols);
      SideBySide(boxes, distanceBetween) == Laid(Grid(PadAll(boxes, cols, h), h, Repeat(' ', distanceBetween)))
  {
    assert forall k :: 0 <= k < |boxes| ==> CreateBox(boxes[k]).Laid?;
    DrawnBoxesAreWide(boxes);
  }
}
