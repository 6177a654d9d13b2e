/** What the renderer puts on a window, cell by cell, and the rows that makes. */
module WordWrap {
  import opened TextDecoration

  /** Column width and printability of a wide character, both decided by the locale. */
  datatype Locale = Locale(width: int -> nat, printable: int -> bool)

  /** A glyph of the text, a column of indentation, or a row break. A break stands for the
      characters of the text that it replaces: a newline, one dropped space, or nothing. */
  datatype Cell = Glyph(c: int) | Blank | Break(replaced: Text)

  function Blanks(n: int): (cells: seq<Cell>)
    ensures |cells| == if n > 0 then n else 0
    ensures forall k :: 0 <= k < |cells| ==> cells[k] == Blank
  {
    if n <= 0 then [] else Blanks(n - 1) + [Blank]
  }

  /** Undoing the layout: the text without inserted breaks and indentation. */
  function Unwrapped(cells: seq<Cell>): Text {
    if cells == [] then []
    else
      var last := cells[|cells| - 1];
      Unwrapped(cells[..|cells| - 1])
      + match last { case Glyph(c) => [c] case Blank => [] case Break(t) => t }
  }

  function Breaks(cells: seq<Cell>): nat {
    if cells == [] then 0
    else Breaks(cells[..|cells| - 1]) + if cells[|cells| - 1].Break? then 1 else 0
  }

  /** Columns used on the row the cells end in. */
  function RowWidth(loc: Locale, cells: seq<Cell>): nat {
    if cells == [] then 0
    else match cells[|cells| - 1]
      case Break(_) => 0
      case Blank => RowWidth(loc, cells[..|cells| - 1]) + 1
      case Glyph(c) => RowWidth(loc, cells[..|cells| - 1]) + loc.width(c)
  }

  /** No row, finished or not, is ever wider than `cols`. */
  ghost predicate RowsFit(loc: Locale, cells: seq<Cell>, cols: nat) {
    cells == [] || (RowWidth(loc, cells) <= cols && RowsFit(loc, cells[..|cells| - 1], cols))
  }

  function TextWidth(loc: Locale, t: Text): nat {
    if t == [] then 0 else loc.width(t[0]) + TextWidth(loc, t[1..])
  }

  lemma TextWidthCons(loc: Locale, c: int, t: Text)
    ensures TextWidth(loc, [c] + t) == loc.width(c) + TextWidth(loc, t)
  {
    assert ([c] + t)[1..] == t;
  }

  /** The characters that reach the window: printable ones and newlines. */
  function Shown(loc: Locale, t: Text): Text {
    if t == [] then []
    else Shown(loc, t[..|t| - 1]) + if IsShown(loc, t[|t| - 1]) then [t[|t| - 1]] else []
  }

  predicate IsShown(loc: Locale, c: int) {
    loc.printable(c) || c == NEWLINE
  }

  lemma AppendCell(loc: Locale, cells: seq<Cell>, cell: Cell)
    ensures Unwrapped(cells + [cell]) == Unwrapped(cells) + Unwrapped([cell])
    ensures Unwrapped([cell]) == match cell { case Glyph(c) => [c] case Blank => [] case Break(t) => t }
    ensures Breaks(cells + [cell]) == Breaks(cells) + if cell.Break? then 1 else 0
    ensures RowWidth(loc, cells + [cell]) ==
            match cell {
              case Break(_) => 0
              case Blank => RowWidth(loc, cells) + 1
              case Glyph(c) => RowWidth(loc, cells) + loc.width(c) }
    ensures forall cols: nat :: RowsFit(loc, cells + [cell], cols) <==>
                                RowWidth(loc, cells + [cell]) <= cols && RowsFit(loc, cells, cols)
  {
    assert (cells + [cell])[..|cells + [cell]| - 1] == cells;
    assert [cell][..0] == [];
    assert Unwrapped([cell]) == match cell { case Glyph(c) => [c] case Blank => [] case Break(t) => t };
  }

  lemma {:induction false} AppendBlanks(loc: Locale, cells: seq<Cell>, n: int, cols: nat)
    ensures Unwrapped(cells + Blanks(n)) == Unwrapped(cells)
    ensures Breaks(cells + Blanks(n)) == Breaks(cells)
    ensures RowWidth(loc, cells + Blanks(n)) == RowWidth(loc, cells) + if n > 0 then n else 0
    ensures RowsFit(loc, cells, cols) && RowWidth(loc, cells) + n <= cols ==> RowsFit(loc, cells + Blanks(n), cols)
    decreases if n > 0 then n else 0
  {
    if n <= 0 {
      assert cells + Blanks(n) == cells;
    } else {
      AppendBlanks(loc, cells, n - 1, cols);
      AppendCell(loc, cells + Blanks(n - 1), Blank);
      assert cells + Blanks(n) == (cells + Blanks(n - 1)) + [Blank];
      assert Unwrapped([Blank]) == [];
    }
  }

  lemma ShownAppend(loc: Locale, t: Text, c: int)
    ensures Shown(loc, t + [c]) == Shown(loc, t) + if IsShown(loc, c) then [c] else []
  {
    assert (t + [c])[..|t + [c]| - 1] == t;
  }
}

/** The layout of a whole text, and what it promises. */
module Layout {
  import opened Wrappers
  import opened TextDecoration
  import opened WordWrap
  import opened LookAhead
  import Utf8
  import WideText

  datatype Page = Page(loc: Locale, cols: nat, indent: int) {
    /** A negative indent indents nothing. */
    function Margin(): nat {
      if indent > 0 then indent else 0
    }
  }

  /** The cells one visible character adds to a row that has `used` columns taken. */
  function Step(page: Page, used: nat, c: int, nextEmpty: bool, diff: nat): seq<Cell> {
    if !IsShown(page.loc, c) then []
    else if c == NEWLINE then
      [Break([NEWLINE])] + if nextEmpty then [] else Blanks(page.indent)
    else if used + diff + 1 < page.cols then [Glyph(c)]
    else if c == SPACE then [Break([SPACE])] + Blanks(page.indent)
    else [Break([])] + Blanks(page.indent) + [Glyph(c)]
  }

  /** Continues `out` with the layout of the text from `p` on. */
  function RenderFrom(page: Page, out: seq<Cell>, w: Text, p: nat): seq<Cell>
    requires p <= |w|
    decreases |w| - p
  {
    if p == |w| then out
    else if w[p] == COLOR then RenderFrom(page, out, w, CodeEnd(w, p))
    else if IsReject(w[p]) then RenderFrom(page, out, w, p + 1)
    else
      var used := RowWidth(page.loc, out);
      RenderFrom(page, out + Step(page, used, w[p], p + 1 == |w|, Lookahead(page.loc, w, p)), w, p + 1)
  }

  function Render(page: Page, w: Text): seq<Cell> {
    RenderFrom(page, [], w, 0)
  }

  /** One step adds its character to the text, starts a row exactly for a newline or when the
      character and the word behind it do not fit, and never overfills a row. */
  lemma StepEffect(page: Page, out: seq<Cell>, c: int, nextEmpty: bool, diff: nat)
    ensures var used := RowWidth(page.loc, out);
            var step := Step(page, used, c, nextEmpty, diff);
            && Unwrapped(out + step) == Unwrapped(out) + (if IsShown(page.loc, c) then [c] else [])
            && Breaks(out + step) == Breaks(out) + (if step != [] && step[0].Break? then 1 else 0)
            && (step != [] && step[0].Break? <==>
                IsShown(page.loc, c) && (c == NEWLINE || used + diff + 1 >= page.cols))
            && (RowsFit(page.loc, out, page.cols) && page.loc.width(c) <= 2 && page.Margin() + 2 <= page.cols
                ==> RowsFit(page.loc, out + step, page.cols))
  {
    if !IsShown(page.loc, c) {
      assert out + [] == out;
      assert Unwrapped(out) + [] == Unwrapped(out);
    } else if c != NEWLINE && RowWidth(page.loc, out) + diff + 1 < page.cols {
      AppendCell(page.loc, out, Glyph(c));
    } else if c == NEWLINE && nextEmpty {
      AppendCell(page.loc, out, Break([NEWLINE]));
      assert [Break([NEWLINE])] + [] == [Break([NEWLINE])];
    } else if c == NEWLINE || c == SPACE {
      BreakEffect(page, out, Break([c]));
      Regroup(out, Break([c]), page.indent, []);
    } else {
      GlyphOnNewRow(page, out, c);
    }
  }

  lemma Regroup(out: seq<Cell>, br: Cell, n: int, tail: seq<Cell>)
    ensures out + ([br] + Blanks(n) + tail) == out + [br] + Blanks(n) + tail
    ensures out + ([br] + Blanks(n)) == out + [br] + Blanks(n)
  {
  }

  lemma GlyphOnNewRow(page: Page, out: seq<Cell>, c: int)
    ensures var cells := out + ([Break([])] + Blanks(page.indent) + [Glyph(c)]);
            && Unwrapped(cells) == Unwrapped(out) + [c]
            && Breaks(cells) == Breaks(out) + 1
            && (RowsFit(page.loc, out, page.cols) && page.loc.width(c) <= 2 && page.Margin() + 2 <= page.cols
                ==> RowsFit(page.loc, cells, page.cols))
  {
    BreakEffect(page, out, Break([]));
    AppendCell(page.loc, out + [Break([])] + Blanks(page.indent), Glyph(c));
    Regroup(out, Break([]), page.indent, [Glyph(c)]);
    assert Unwrapped(out) + [] == Unwrapped(out);
  }

  /** A row break and the indentation behind it. */
  lemma BreakEffect(page: Page, out: seq<Cell>, br: Cell)
    requires br.Break?
    ensures var indented := out + [br] + Blanks(page.indent);
            && Unwrapped(indented) == Unwrapped(out) + br.replaced
            && Breaks(indented) == Breaks(out) + 1
            && RowWidth(page.loc, indented) == page.Margin()
            && (RowsFit(page.loc, out, page.cols) && page.Margin() <= page.cols
                ==> RowsFit(page.loc, indented, page.cols))
  {
    AppendCell(page.loc, out, br);
    AppendBlanks(page.loc, out + [br], page.indent, page.cols);
  }

  /** Undoing the breaks and the indentation gives back the visible text, less what the locale
      cannot print. */
  lemma {:induction false} RenderUnwraps(page: Page, out: seq<Cell>, w: Text, p: nat)
    requires p <= |w|
    ensures Unwrapped(RenderFrom(page, out, w, p)) == Unwrapped(out) + Shown(page.loc, VisibleFrom(w, p))
    decreases |w| - p
  {
    if p == |w| {
    } else if w[p] == COLOR {
      RenderUnwraps(page, out, w, CodeEnd(w, p));
    } else if IsReject(w[p]) {
      RenderUnwraps(page, out, w, p + 1);
    } else {
      var used, diff := RowWidth(page.loc, out), Lookahead(page.loc, w, p);
      var next := out + Step(page, used, w[p], p + 1 == |w|, diff);
      StepEffect(page, out, w[p], p + 1 == |w|, diff);
      RenderUnwraps(page, next, w, p + 1);
      var rest := VisibleFrom(w, p + 1);
      ShownCons(page.loc, w[p], rest);
      ConcatAssoc(Unwrapped(out), if IsShown(page.loc, w[p]) then [w[p]] else [], Shown(page.loc, rest));
    }
  }

  lemma {:induction false} ShownCons(loc: Locale, c: int, t: Text)
    ensures Shown(loc, [c] + t) == (if IsShown(loc, c) then [c] else []) + Shown(loc, t)
  {
    var ct := [c] + t;
    if t == [] {
      assert ct[..0] == [];
    } else {
      ShownCons(loc, c, t[..|t| - 1]);
      assert ct[..|ct| - 1] == [c] + t[..|t| - 1];
    }
  }

  /** With room for the indentation and one full-width character, no row outgrows the window. */
  lemma {:induction false} RenderFits(page: Page, out: seq<Cell>, w: Text, p: nat)
    requires p <= |w| && page.Margin() + 2 <= page.cols
    requires forall c :: page.loc.width(c) <= 2
    requires RowsFit(page.loc, out, page.cols)
    ensures RowsFit(page.loc, RenderFrom(page, out, w, p), page.cols)
    decreases |w| - p
  {
    if p == |w| {
    } else if w[p] == COLOR {
      RenderFits(page, out, w, CodeEnd(w, p));
    } else if IsReject(w[p]) {
      RenderFits(page, out, w, p + 1);
    } else {
      var diff := Lookahead(page.loc, w, p);
      StepEffect(page, out, w[p], p + 1 == |w|, diff);
      RenderFits(page, out + Step(page, RowWidth(page.loc, out), w[p], p + 1 == |w|, diff), w, p + 1);
    }
  }

  /** Later text only adds cells. */
  lemma {:induction false} RenderExtends(page: Page, out: seq<Cell>, w: Text, p: nat)
    requires p <= |w|
    ensures out <= RenderFrom(page, out, w, p)
    decreases |w| - p
  {
    if p == |w| {
    } else if w[p] == COLOR {
      RenderExtends(page, out, w, CodeEnd(w, p));
    } else if IsReject(w[p]) {
      RenderExtends(page, out, w, p + 1);
    } else {
      RenderExtends(page,
        out + Step(page, RowWidth(page.loc, out), w[p], p + 1 == |w|, Lookahead(page.loc, w, p)), w, p + 1);
    }
  }

  /** The layout up to `end`, continued, is the layout of all: `mid` is the output when the
      renderer stands at `end`. */
  ghost predicate Reaches(page: Page, out: seq<Cell>, w: Text, p: nat, mid: seq<Cell>, end: nat)
    requires p <= end <= |w|
    decreases end - p
  {
    if p == end then mid == out
    else if w[p] == COLOR then CodeEnd(w, p) <= end && Reaches(page, out, w, CodeEnd(w, p), mid, end)
    else if IsReject(w[p]) then Reaches(page, out, w, p + 1, mid, end)
    else
      Reaches(page,
        out + Step(page, RowWidth(page.loc, out), w[p], p + 1 == |w|, Lookahead(page.loc, w, p)), w, p + 1, mid, end)
  }

  /** A code in front of a space reads the same whether or not the text behind is looked at. */
  lemma CodeStopsAtSpace(w: Text, i: nat, b: nat)
    requires i < b < |w| && w[b] == SPACE
    ensures CodeEnd(w[..b], i) == CodeEnd(w, i) <= b
  {
    assert Digits(w[..b], i + 1) == Digits(w, i + 1);
    var comma := i + 1 + FgDigits(w, i);
    if comma < b && w[comma] == COMMA {
      assert Digits(w[..b], comma + 1) == Digits(w, comma + 1);
    }
  }

  /** A word that fits the columns left is laid out without a row break in it. */
  lemma {:induction false} WordOnOneRow(page: Page, out: seq<Cell>, w: Text, p: nat, mid: seq<Cell>, b: nat)
    requires p <= b < |w| && w[b] == SPACE && NextSpace(w, p) == b
    requires forall k :: p <= k < b ==> w[k] != NEWLINE
    requires RowWidth(page.loc, out) + TextWidth(page.loc, VisibleFrom(w[..b], p)) + 1 < page.cols
    requires Reaches(page, out, w, p, mid, b)
    ensures Breaks(mid) == Breaks(out)
    decreases b - p
  {
    if p == b {
    } else if w[p] == COLOR {
      CodeStopsAtSpace(w, p, b);
      NextSpaceSkips(w, p, CodeEnd(w, p));
      WordOnOneRow(page, out, w, CodeEnd(w, p), mid, b);
    } else if IsReject(w[p]) {
      NextSpaceSkips(w, p, p + 1);
      WordOnOneRow(page, out, w, p + 1, mid, b);
    } else {
      NextSpaceSkips(w, p, p + 1);
      var rest := VisibleFrom(w[..b], p + 1);
      TextWidthCons(page.loc, w[p], rest);
      var next := out + Step(page, RowWidth(page.loc, out), w[p], p + 1 == |w|, 0);
      if IsShown(page.loc, w[p]) {
        AppendCell(page.loc, out, Glyph(w[p]));
      } else {
        assert next == out;
      }
      WordOnOneRow(page, next, w, p + 1, mid, b);
    }
  }

  lemma NextSpaceSkips(w: Text, p: nat, q: nat)
    requires p <= |w| && p <= q <= NextSpace(w, p)
    ensures NextSpace(w, q) == NextSpace(w, p)
  {
  }

  /** Word wrap: a word between two spaces that is narrow enough for an indented row, and that the
      look-ahead sees whole, is never torn apart. The renderer stands at the first space with `out` written; whether or not it
      starts a new row there, all of the word up to the next space follows without a break. */
  lemma WordsStayWhole(page: Page, out: seq<Cell>, w: Text, a: nat, afterSpace: seq<Cell>, b: nat, mid: seq<Cell>)
    requires a < b < |w| && w[a] == SPACE && NextSpace(w, a + 1) == b
    requires b - a <= MAX_LOOKAHEAD && SeenWhole(w[a..b])
    requires forall k :: a < k < b ==> w[k] != NEWLINE
    requires IsShown(page.loc, SPACE)
    requires page.Margin() + TextWidth(page.loc, VisibleFrom(w[..b], a + 1)) + 1 < page.cols
    requires Reaches(page, out, w, a, afterSpace, a + 1)
    requires Reaches(page, afterSpace, w, a + 1, mid, b)
    ensures Breaks(mid) == Breaks(afterSpace)
  {
    RoomAfterSpace(page, out, w, a, b);
    WordOnOneRow(page, afterSpace, w, a + 1, mid, b);
  }

  /** Behind a space, on the same row or a new one, the word has the columns it needs. */
  lemma RoomAfterSpace(page: Page, out: seq<Cell>, w: Text, a: nat, b: nat)
    requires a < b < |w| && w[a] == SPACE && NextSpace(w, a + 1) == b
    requires b - a <= MAX_LOOKAHEAD && SeenWhole(w[a..b])
    requires IsShown(page.loc, SPACE)
    requires page.Margin() + TextWidth(page.loc, VisibleFrom(w[..b], a + 1)) + 1 < page.cols
    ensures var next := out + Step(page, RowWidth(page.loc, out), w[a], a + 1 == |w|, Lookahead(page.loc, w, a));
            RowWidth(page.loc, next) + TextWidth(page.loc, VisibleFrom(w[..b], a + 1)) + 1 < page.cols
  {
    hide TextWidth, Measured, SeenWhole, RowWidth, Unwrapped, Breaks, RowsFit;
    var rest := VisibleFrom(w[..b], a + 1);
    TextWidthCons(page.loc, SPACE, rest);
    VisibleOfTail(w[..b], a, 0);
    assert w[..b][a..] == w[a..b] == Ahead(w, a);
    MeasuredIsEnough(page.loc, w[a..b]);
    assert Lookahead(page.loc, w, a) >= page.loc.width(SPACE) + TextWidth(page.loc, rest);
    AppendCell(page.loc, out, Glyph(SPACE));
    BreakEffect(page, out, Break([SPACE]));
    Regroup(out, Break([SPACE]), page.indent, []);
  }

  // ----- Where rows break, character by character -----

  /** At a space with another one behind it, `a` and `b`: the space stays on the row exactly when it,
      what is visible up to the next one, and one more column fit; otherwise it becomes the break. */
  lemma SpaceBreaksExactly(page: Page, out: seq<Cell>, w: Text, a: nat, b: nat, next: seq<Cell>)
    requires a < b < |w| && w[a] == SPACE && w[b] == SPACE && forall k :: a < k < b ==> w[k] != SPACE
    requires b - a <= 4095 && page.loc.printable(SPACE)
    requires HasFormat(w[a..b]) ==> Utf8.Encodable(w[a..b]) && |Utf8.Encode(w[a..b])| < 6144
    requires Reaches(page, out, w, a, next, a + 1)
    ensures next == out +
              if RowWidth(page.loc, out) + TextWidth(page.loc, Visible(w[a..b])) + 1 < page.cols then [Glyph(SPACE)]
              else [Break([SPACE])] + Blanks(page.indent)
  {
    hide TextWidth, Measured, RowWidth, Unwrapped, Breaks, Utf8.Encode, Utf8.Encodable, VisibleFrom;
    NextSpaceIs(w, a + 1, b);
    WholeIsMeasured(w[a..b]);
  }

  lemma {:induction false} NextSpaceIs(w: Text, p: nat, b: nat)
    requires p <= b < |w| && w[b] == SPACE && forall k :: p <= k < b ==> w[k] != SPACE
    ensures NextSpace(w, p) == b
    decreases b - p
  {
    if p < b {
      NextSpaceIs(w, p + 1, b);
    }
  }

  /** What is measured of a text that is seen whole is what is visible of it. */
  lemma WholeIsMeasured(s: Text)
    requires |s| <= 4095 && (HasFormat(s) ==> Utf8.Encodable(s) && |Utf8.Encode(s)| < 6144)
    ensures Measured(s) == Visible(s)
  {
    hide Utf8.Encode, Utf8.Encodable, VisibleFrom, WideText.SqueezedWide;
    if HasFormat(s) {
      WideText.FitsExactly(s);
      WideText.FittingIsStripped(s);
    } else {
      VisibleOfPlain(s, 0);
    }
  }

  /** Any other character, or the last space, asks for one column more than it has; the character
      that breaks the row begins the next one, except for a space. A line feed always breaks. */
  lemma CharacterBreaksExactly(page: Page, out: seq<Cell>, w: Text, p: nat, next: seq<Cell>)
    requires p < |w| && !IsFormat(w[p]) && Reaches(page, out, w, p, next, p + 1)
    requires w[p] == SPACE ==> forall k :: p < k < |w| ==> w[k] != SPACE
    ensures var c := w[p];
            next == out +
              if c == NEWLINE then [Break([NEWLINE])] + if p + 1 < |w| then Blanks(page.indent) else []
              else if !page.loc.printable(c) then []
              else if RowWidth(page.loc, out) + 1 < page.cols then [Glyph(c)]
              else if c == SPACE then [Break([SPACE])] + Blanks(page.indent)
              else [Break([])] + Blanks(page.indent) + [Glyph(c)]
  {
    hide RowWidth, Unwrapped, Breaks;
  }
}
