/** The renderer of src/printtext.cpp: it walks a wide-character buffer with a pointer that
    is pushed back wherever a colour code breaks off, and lays the visible text out in rows. */
module PrintText {
  import opened Wrappers
  import opened TextDecoration
  import opened WordWrap
  import opened LookAhead
  import opened Layout
  import opened Indentation
  import WideText

  datatype Check = BufEof | GoOn | StopInterpreting

  /** What a colour code asks for: nothing at all, or a foreground and a background. */
  datatype Colors = NoChange | SetColors(fg: int, bg: int)

  /** The wide character a pointer at `p` sees; the terminator at the end. */
  function At(w: Text, p: nat): int
    requires p <= |w|
  {
    if p < |w| then w[p] else 0
  }

  /** A number of at most two digits, as the bytes put into its buffer so far. */
  datatype Digits2 = NoDigit | One(d0: int) | Two(d0: int, d1: int) {
    function Put(d: int): Digits2
      requires !Two?
    {
      if NoDigit? then One(d) else Two(d0, d)
    }

    function Value(): int {
      match this
      case NoDigit => 0
      case One(a) => a - 0x30
      case Two(a, b) => 10 * (a - 0x30) + (b - 0x30)
    }
  }

  /** The digits that stand at `i`. */
  function DigitsAt(w: Text, i: nat): Digits2
    requires i <= |w|
  {
    match Digits(w, i)
    case 0 => NoDigit
    case 1 => One(w[i])
    case _ => Two(w[i], w[i + 1])
  }

  /** The colours of the code at `i`: none for a bare `^C`, and the default background when the
      code gives only a foreground. */
  function CodeColors(w: Text, i: nat, defaultBg: int): Colors
    requires i < |w|
  {
    var fg := DigitsAt(w, i + 1);
    if fg == NoDigit then NoChange
    else SetColors(fg.Value(), if BgDigits(w, i) == 0 then defaultBg else DigitsAt(w, i + 2 + FgDigits(w, i)).Value())
  }

  method CheckForPart1(w: Text, p: nat) returns (res: Check, p': nat, fg: Digits2)
    requires IsCString(w) && p < |w|
    ensures res == if p + 1 == |w| then BufEof else if IsDigit(w[p + 1]) then GoOn else StopInterpreting
    ensures p' == if res.StopInterpreting? then p else p + 1
    ensures fg == if res.GoOn? then One(w[p + 1]) else NoDigit
  {
    p', fg := p + 1, NoDigit;
    if At(w, p') == 0 { return BufEof, p', fg; }
    var mbs := Utf8.Bytes(w[p']);
    if |mbs| != 1 || !IsDigit(mbs[0]) {
      return StopInterpreting, p' - 1, fg;
    }
    return GoOn, p', One(mbs[0]);
  }

  method CheckForPart2(w: Text, p: nat, fg: Digits2) returns (res: Check, p': nat, fg': Digits2, hasComma: bool)
    requires IsCString(w) && p < |w| && !fg.Two?
    ensures res == if p + 1 == |w| then BufEof
                   else if IsDigit(w[p + 1]) || w[p + 1] == COMMA then GoOn else StopInterpreting
    ensures p' == if res.StopInterpreting? then p else p + 1
    ensures fg' == if res.GoOn? && IsDigit(w[p + 1]) then fg.Put(w[p + 1]) else fg
    ensures hasComma <==> res.GoOn? && w[p + 1] == COMMA
  {
    p', fg', hasComma := p + 1, fg, false;
    if At(w, p') == 0 { return BufEof, p', fg', hasComma; }
    var mbs := Utf8.Bytes(w[p']);
    if |mbs| != 1 || (!IsDigit(mbs[0]) && mbs[0] != COMMA) {
      return StopInterpreting, p' - 1, fg', hasComma;
    }
    if IsDigit(mbs[0]) {
      fg' := fg.Put(mbs[0]);
    } else {
      hasComma := true;
    }
    res := GoOn;
  }

  method CheckForPart3(w: Text, p: nat, hasComma: bool, fgComplete: bool)
    returns (res: Check, p': nat, hasComma': bool, bg: Digits2)
    requires IsCString(w) && p < |w|
    ensures res == if p + 1 == |w| then BufEof
                   else if (w[p + 1] == COMMA && !hasComma) || (IsDigit(w[p + 1]) && !fgComplete) then GoOn
                   else StopInterpreting
    ensures p' == if res.StopInterpreting? then p else p + 1
    ensures hasComma' <==> hasComma || (res.GoOn? && w[p + 1] == COMMA)
    ensures bg == if res.GoOn? && IsDigit(w[p + 1]) then One(w[p + 1]) else NoDigit
  {
    p', hasComma', bg := p + 1, hasComma, NoDigit;
    if At(w, p') == 0 { return BufEof, p', hasComma', bg; }
    var mbs := Utf8.Bytes(w[p']);
    if |mbs| != 1 || (mbs[0] != COMMA && !IsDigit(mbs[0])) {
      return StopInterpreting, p' - 1, hasComma', bg;
    } else if mbs[0] == COMMA && hasComma {
      return StopInterpreting, p' - 1, hasComma', bg;
    } else if mbs[0] != COMMA && fgComplete {
      return StopInterpreting, p' - 1, hasComma', bg;
    }
    if mbs[0] == COMMA {
      hasComma' := true;
    } else {
      bg := One(mbs[0]);
    }
    res := GoOn;
  }

  method CheckForPart4(w: Text, p: nat, bg: Digits2) returns (res: Check, p': nat, bg': Digits2)
    requires IsCString(w) && p < |w| && !bg.Two?
    ensures res == if p + 1 == |w| then BufEof
                   else if IsDigit(w[p + 1]) && bg == NoDigit then GoOn else StopInterpreting
    ensures p' == if res.StopInterpreting? && !IsDigit(w[p + 1]) then p else p + 1
    ensures bg' == if p' == p + 1 < |w| then bg.Put(w[p + 1]) else bg
  {
    p', bg' := p + 1, bg;
    if At(w, p') == 0 { return BufEof, p', bg'; }
    var mbs := Utf8.Bytes(w[p']);
    if |mbs| != 1 || !IsDigit(mbs[0]) {
      return StopInterpreting, p' - 1, bg';
    } else if bg != NoDigit {
      return StopInterpreting, p', bg.Put(mbs[0]);
    }
    return GoOn, p', bg.Put(mbs[0]);
  }

  method CheckForPart5(w: Text, p: nat, bg: Digits2) returns (res: Check, p': nat, bg': Digits2)
    requires IsCString(w) && p < |w| && !bg.Two?
    ensures res == if p + 1 == |w| then BufEof else if IsDigit(w[p + 1]) then GoOn else StopInterpreting
    ensures p' == if res.StopInterpreting? then p else p + 1
    ensures bg' == if res.GoOn? then bg.Put(w[p + 1]) else bg
  {
    p', bg' := p + 1, bg;
    if At(w, p') == 0 { return BufEof, p', bg'; }
    var mbs := Utf8.Bytes(w[p']);
    if |mbs| != 1 || !IsDigit(mbs[0]) {
      return StopInterpreting, p' - 1, bg';
    }
    return GoOn, p', bg.Put(mbs[0]);
  }

  /** Reads the colour code at `p` and leaves the pointer on its last character, as the grammar
      has it, with the colours it sets. A text that stops inside the code leaves the pointer on
      the terminator, and no colours are set. */
  method CaseColor(w: Text, p: nat, defaultBg: int) returns (p': nat, colors: Colors)
    requires IsCString(w) && p < |w| && w[p] == COLOR
    ensures OpenCodeOrComma(w, p) ==> p' == |w| && colors == NoChange
    ensures !OpenCodeOrComma(w, p) ==> p' + 1 == CodeEnd(w, p) && colors == CodeColors(w, p, defaultBg)
  {
    var res, fg, bg, hasComma;
    colors, bg := NoChange, NoDigit;
    res, p', fg := CheckForPart1(w, p);
    if res != GoOn { return; }
    res, p', fg, hasComma := CheckForPart2(w, p', fg);
    if res == BufEof { return; }
    if res == GoOn {
      res, p', hasComma, bg := CheckForPart3(w, p', hasComma, fg.Two?);
      if res == BufEof { return; }
      if res == GoOn {
        res, p', bg := CheckForPart4(w, p', bg);
        if res == BufEof { return; }
        if res == GoOn {
          res, p', bg := CheckForPart5(w, p', bg);
          if res == BufEof { return; }
        }
      }
    }
    colors := SetColors(fg.Value(), if bg == NoDigit then defaultBg else bg.Value());
    if hasComma && bg == NoDigit {
      p' := p' - 1;
    }
  }

  /** A curses window, reduced to the cells added to it: those of earlier texts, and those of
      the text being printed. */
  class Window {
    const cols: nat
    const scrollOk: bool
    var earlier: seq<Cell>
    var out: seq<Cell>

    constructor (cols: nat, scrollOk: bool)
      ensures this.cols == cols && this.scrollOk == scrollOk && earlier == out == []
    {
      this.cols := cols;
      this.scrollOk := scrollOk;
      earlier, out := [], [];
    }
  }

  /** The counters the renderer carries along: columns used on the row, breaks counted against
      the line limit, and rows this text makes in the window. */
  datatype Counts = Counts(insertCount: int, linesCount: int, repCount: int)

  /** The counters say what was written. */
  ghost predicate Counted(page: Page, maxLines: int, cells: seq<Cell>, counts: Counts) {
    && counts.insertCount == RowWidth(page.loc, cells)
    && counts.repCount == Breaks(cells)
    && counts.linesCount == if maxLines > 0 then Breaks(cells) else 0
  }

  method DoIndent(win: Window, indent: int, insertCount: int) returns (insertCount': int)
    modifies win`out
    ensures win.out == old(win.out) + Blanks(indent)
    ensures insertCount' == insertCount + if indent > 0 then indent else 0
  {
    insertCount' := insertCount;
    var i := 0;
    while i < indent
      invariant 0 <= i && (0 < indent ==> i <= indent) && (indent <= 0 ==> i == 0)
      invariant win.out == old(win.out) + Blanks(i)
      invariant insertCount' == insertCount + i
    {
      win.out := win.out + [Blank];
      insertCount' := insertCount' + 1;
      i := i + 1;
    }
  }

  /** A row break in place of `replaced`, counted against the line limit; then the indentation,
      unless it is not wanted or the limit is reached. */
  method NewRow(win: Window, page: Page, replaced: Text, indented: bool, maxLines: int, counts: Counts)
    returns (counts': Counts, full: bool)
    requires Counted(page, maxLines, win.out, counts)
    modifies win`out
    ensures full <==> maxLines > 0 && counts.linesCount + 1 >= maxLines
    ensures win.out == old(win.out) + [Break(replaced)] + if full || !indented then [] else Blanks(page.indent)
    ensures Counted(page, maxLines, win.out, counts')
  {
    hide RowWidth, Breaks, Unwrapped, RowsFit, Blanks;
    AppendCell(page.loc, win.out, Break(replaced));
    win.out := win.out + [Break(replaced)];
    counts' := counts.(insertCount := 0, repCount := counts.repCount + 1);
    if maxLines > 0 {
      counts' := counts'.(linesCount := counts'.linesCount + 1);
    }
    full := maxLines > 0 && counts'.linesCount >= maxLines;
    if !full && indented {
      AppendBlanks(page.loc, win.out, page.indent, page.cols);
      var ins := DoIndent(win, page.indent, counts'.insertCount);
      counts' := counts'.(insertCount := ins);
    }
  }

  /** What one character may add before the line limit stops it. */
  function Limited(step: seq<Cell>, linesCount: int, maxLines: int): seq<Cell> {
    if step != [] && step[0].Break? && maxLines > 0 && linesCount + 1 >= maxLines then step[..1] else step
  }

  method AddGlyph(win: Window, page: Page, c: int, maxLines: int, counts: Counts) returns (counts': Counts)
    requires Counted(page, maxLines, win.out, counts)
    modifies win`out
    ensures win.out == old(win.out) + [Glyph(c)] && Counted(page, maxLines, win.out, counts')
  {
    hide RowWidth, Breaks, Unwrapped, RowsFit;
    AppendCell(page.loc, win.out, Glyph(c));
    win.out := win.out + [Glyph(c)];
    counts' := counts.(insertCount := counts.insertCount + page.loc.width(c));
  }

  /** Adds one visible character to a scrolling window. */
  method CaseDefault(win: Window, page: Page, c: int, nextEmpty: bool, maxLines: int, diff: nat, counts: Counts)
    returns (counts': Counts)
    requires win.cols == page.cols && Counted(page, maxLines, win.out, counts)
    modifies win`out
    ensures Counted(page, maxLines, win.out, counts')
    ensures win.out == old(win.out)
                       + Limited(Step(page, counts.insertCount, c, nextEmpty, diff), counts.linesCount, maxLines)
  {
    hide Blanks, RowWidth, Breaks;
    counts' := counts;
    ghost var step := Step(page, counts.insertCount, c, nextEmpty, diff);
    var full;
    if !page.loc.printable(c) && c != NEWLINE {
      return;
    } else if c == NEWLINE {
      counts', full := NewRow(win, page, [NEWLINE], !nextEmpty, maxLines, counts');
    } else if counts'.insertCount + diff + 1 < win.cols {
      counts' := AddGlyph(win, page, c, maxLines, counts');
    } else {
      counts', full := NewRow(win, page, if c == SPACE then [SPACE] else [], true, maxLines, counts');
      if !full && c != SPACE {
        counts' := AddGlyph(win, page, c, maxLines, counts');
      }
    }
  }

  /** Control characters that are shown as spaces. */
  function Spaced(w: Text): (r: Text)
    ensures |r| == |w|
    ensures forall k :: 0 <= k < |w| ==>
              r[k] == if w[k] == 0x09 || w[k] == 0x0B || w[k] == 0x0C then SPACE else w[k]
  {
    seq(|w|, k requires 0 <= k < |w| => if w[k] == 0x09 || w[k] == 0x0B || w[k] == 0x0C then SPACE else w[k])
  }

  /** The buffer the renderer walks: with a newline behind it when the window scrolls. */
  function Prepared(w: Text, scrollOk: bool): (r: Text)
    ensures scrollOk ==> r != [] && r[|r| - 1] == NEWLINE
  {
    Spaced(if scrollOk then w + [NEWLINE] else w)
  }

  function Glyphs(t: Text): seq<Cell> {
    seq(|t|, k requires 0 <= k < |t| => Glyph(t[k]))
  }

  /** `out` is all of `full`, or, under a line limit that is reached, its first rows: up to and
      including the break that ends row `maxLines`. */
  ghost predicate CutAt(out: seq<Cell>, full: seq<Cell>, maxLines: int) {
    && out <= full
    && (out == full || (maxLines > 0 && Breaks(out) == maxLines && out != [] && out[|out| - 1].Break?))
    && (maxLines > 0 ==> Breaks(out) <= maxLines)
  }

  /** Prints `text`. In a window that does not scroll the visible characters go out as they
      are, and `safe` says that the pointer never passed the terminator, which it does exactly
      when the text stops inside a colour code. In a scrolling window the pointer is always safe,
      `safe` says that every look-ahead was, and what is added is the layout of the text, cut off
      at the line limit. */
  method PrinttextPuts(win: Window, loc: Locale, text: Text, indent: int, maxLines: int, defaultBg: int)
    returns (rep: int, safe: bool)
    requires IsCString(text)
    modifies win
    ensures win.earlier == old(win.earlier) + old(win.out)
    ensures text == [] ==> safe && win.out == []
    ensures !win.scrollOk && text != [] ==> (safe <==> !EndsInsideCodeOrComma(Spaced(text)))
    ensures !win.scrollOk && safe ==> win.out == Glyphs(Shown(loc, Visible(Spaced(text))))
    ensures win.scrollOk && text != [] && maxLines <= 0 ==> (safe <==> AllAheadSafe(Prepared(text, true)))
    ensures win.scrollOk && AllAheadSafe(Prepared(text, true)) ==> safe
    ensures win.scrollOk && text != [] && safe ==>
              CutAt(win.out, Render(Page(loc, win.cols, indent), Prepared(text, true)), maxLines)
    ensures win.scrollOk && safe ==> rep == Breaks(win.out) && Indented(win.out, if indent > 0 then indent else 0)
  {
    win.earlier := win.earlier + win.out;
    win.out := [];
    rep, safe := 0, true;
    if text == [] { return; }
    var w := Prepared(text, win.scrollOk);
    if win.scrollOk {
      PreparedIsCString(text);
      rep, safe := PutsScrolling(win, loc, w, indent, maxLines, defaultBg);
    } else {
      safe := PutsPlain(win, loc, w, defaultBg);
    }
  }

  lemma PreparedIsCString(text: Text)
    requires IsCString(text)
    ensures IsCString(Prepared(text, true))
  {
  }

  /** The columns to ask for at `p`: the text up to the next space goes through a buffer of its
      own, which is stripped in place when it holds codes. */
  method MeasureAhead(loc: Locale, w: Text, p: nat) returns (diff: nat, safe: bool)
    requires IsCString(w) && p < |w|
    ensures safe <==> AheadSafe(w, p)
    ensures safe ==> diff == Lookahead(loc, w, p)
  {
    diff, safe := 0, true;
    if !LooksAhead(w, p) {
      return;
    }
    var ahead := Ahead(w, p);
    var n := |ahead|;
    if !HasFormat(ahead) {
      diff := TextWidth(loc, ahead);
      return;
    }
    var str := new int[MAX_LOOKAHEAD + 1](k => if 0 <= k < n then ahead[k] else 0);
    assert str[..n] == ahead;
    safe := WideText.SqueezeTextDecoWide(str, ahead);
    if safe {
      WideText.SqueezedIsCString(ahead);
      n := WideText.StrLen(str, WideText.SqueezedWide(ahead));
      diff := TextWidth(loc, str[..n]);
    }
  }

  /** The loop of the renderer in a scrolling window. */
  method PutsScrolling(win: Window, loc: Locale, w: Text, indent: int, maxLines: int, defaultBg: int)
    returns (rep: int, safe: bool)
    requires IsCString(w) && w != [] && w[|w| - 1] == NEWLINE
    requires win.out == []
    modifies win`out
    ensures AllAheadSafe(w) ==> safe
    ensures safe && maxLines <= 0 ==> AllAheadSafe(w)
    ensures safe ==> CutAt(win.out, Render(Page(loc, win.cols, indent), w), maxLines)
    ensures safe ==> rep == Breaks(win.out) && Indented(win.out, if indent > 0 then indent else 0)
  {
    hide AheadSafe, Lookahead;
    var page := Page(loc, win.cols, indent);
    var counts := Counts(0, 0, 0);
    var p, flagged := 0, false;
    safe := true;
    PlainEndIsOutsideCode(w);
    while p < |w| && !flagged
      invariant p <= |w| && Counted(page, maxLines, win.out, counts)
      invariant maxLines > 0 ==> Breaks(win.out) <= maxLines
      invariant flagged <==> maxLines > 0 && Breaks(win.out) >= maxLines
      invariant !flagged ==> RenderFrom(page, win.out, w, p) == Render(page, w)
      invariant flagged ==> CutAt(win.out, Render(page, w), maxLines)
      invariant forall k :: 0 <= k < p ==> AheadSafe(w, k)
      decreases |w| - p, !flagged
    {
      ghost var before := win.out;
      var c := w[p];
      if c == COLOR {
        assert !OpenCodeOrComma(w, p);
        CodesAreSafe(w, p);
        var colors;
        p, colors := CaseColor(w, p, defaultBg);
      } else if c == BLINK || c == BOLD || c == NORMAL || c == REVERSE || c == UNDERLINE {
        PlainIsSafe(w, p);
      } else {
        var diff;
        diff, safe := MeasureAhead(loc, w, p);
        if !safe {
          return 0, false;
        }
        counts := CaseDefault(win, page, c, p + 1 == |w|, maxLines, diff, counts);
        LimitedStep(page, before, w, p, maxLines);
      }
      p := p + 1;
      flagged := maxLines > 0 && counts.linesCount >= maxLines;
    }
    rep := counts.repCount;
    CutIsIndented(page, w, win.out, maxLines);
  }

  /** What is printed of a text is indented, also where the line limit cuts it off. */
  lemma CutIsIndented(page: Page, w: Text, out: seq<Cell>, maxLines: int)
    requires w != [] && w[|w| - 1] == NEWLINE && CutAt(out, Render(page, w), maxLines)
    ensures Indented(out, if page.indent > 0 then page.indent else 0)
  {
    hide RenderFrom, Indented;
    RenderIsIndented(page, w);
    BeginningIsIndented(out, Render(page, w), if page.indent > 0 then page.indent else 0);
  }

  lemma PlainIsSafe(w: Text, p: nat)
    requires p < |w| && w[p] != SPACE
    ensures AheadSafe(w, p)
  {
  }

  /** No look-ahead starts within a colour code. */
  lemma CodesAreSafe(w: Text, p: nat)
    requires p < |w| && w[p] == COLOR
    ensures forall k :: p <= k < CodeEnd(w, p) ==> AheadSafe(w, k)
  {
    hide AheadSafe, CodeEnd;
    CodeHoldsNoColor(w, p);
    forall k | p <= k < CodeEnd(w, p) ensures AheadSafe(w, k) {
      PlainIsSafe(w, k);
    }
  }

  lemma RenderOne(page: Page, out: seq<Cell>, w: Text, p: nat)
    requires p < |w| && !IsFormat(w[p])
    ensures var step := Step(page, RowWidth(page.loc, out), w[p], p + 1 == |w|, Lookahead(page.loc, w, p));
            RenderFrom(page, out, w, p) == RenderFrom(page, out + step, w, p + 1)
  {
  }

  /** One more character under the line limit: the output is on its way to the full layout, or
      has just been cut off where row `maxLines` ends. */
  lemma LimitedStep(page: Page, out: seq<Cell>, w: Text, p: nat, maxLines: int)
    requires p < |w| && !IsFormat(w[p])
    requires maxLines > 0 ==> Breaks(out) < maxLines
    ensures var step := Step(page, RowWidth(page.loc, out), w[p], p + 1 == |w|, Lookahead(page.loc, w, p));
            var lines := if maxLines > 0 then Breaks(out) else 0;
            var next := out + Limited(step, lines, maxLines);
            && (maxLines > 0 ==> Breaks(next) <= maxLines)
            && (maxLines <= 0 || Breaks(next) < maxLines ==>
                  RenderFrom(page, next, w, p + 1) == RenderFrom(page, out, w, p))
            && (maxLines > 0 && Breaks(next) == maxLines ==> CutAt(next, RenderFrom(page, out, w, p), maxLines))
  {
    hide RenderFrom, Step, Lookahead, RowWidth, RowsFit, Unwrapped, IsShown, Breaks;
    var diff := Lookahead(page.loc, w, p);
    var step := Step(page, RowWidth(page.loc, out), w[p], p + 1 == |w|, diff);
    RenderOne(page, out, w, p);
    StepEffect(page, out, w[p], p + 1 == |w|, diff);
    RenderExtends(page, out + step, w, p + 1);
    if step != [] && step[0].Break? {
      CutBehindBreak(page.loc, out, step, RenderFrom(page, out, w, p), maxLines);
    }
  }

  /** Cutting a step off behind its break. */
  lemma CutBehindBreak(loc: Locale, out: seq<Cell>, step: seq<Cell>, full: seq<Cell>, maxLines: int)
    requires step != [] && step[0].Break? && out + step <= full
    ensures Breaks(out + step[..1]) == Breaks(out) + 1
    ensures Breaks(out) + 1 == maxLines ==> CutAt(out + step[..1], full, maxLines)
  {
    hide RowWidth, RowsFit, Unwrapped, Breaks;
    AppendCell(loc, out, step[0]);
    assert step[..1] == [step[0]];
    assert out + step == out + step[..1] + step[1..];
  }

  /** The loop of the renderer in a window that does not scroll. */
  method PutsPlain(win: Window, loc: Locale, w: Text, defaultBg: int) returns (safe: bool)
    requires IsCString(w) && w != [] && win.out == []
    modifies win`out
    ensures safe <==> !EndsInsideCodeOrComma(w)
    ensures safe ==> win.out == Glyphs(Shown(loc, Visible(w)))
  {
    var p := 0;
    ghost var seen: Text := [];
    while p < |w|
      invariant p <= |w| + 1
      invariant win.out == Glyphs(Shown(loc, seen))
      invariant p <= |w| ==> seen + VisibleFrom(w, p) == Visible(w)
      invariant p <= |w| ==> (EndsInsideCodeOrComma(w) <==> EndsInsideCodeOrCommaFrom(w, p))
      invariant p == |w| + 1 ==> EndsInsideCodeOrComma(w)
      decreases |w| + 1 - p
    {
      var c := w[p];
      if c == COLOR {
        EndsInsideAfterCode(w, p);
        var colors;
        p, colors := CaseColor(w, p, defaultBg);
      } else {
        EndsInsideAfterPlain(w, p);
        if !(c == BLINK || c == BOLD || c == NORMAL || c == REVERSE || c == UNDERLINE) {
          if loc.printable(c) || c == NEWLINE {
            win.out := win.out + [Glyph(c)];
          }
          ShownAppend(loc, seen, c);
          ConcatAssoc(seen, [c], VisibleFrom(w, p + 1));
          seen := seen + [c];
        }
      }
      p := p + 1;
    }
    safe := p == |w|;
    if safe {
      assert seen + [] == seen;
    }
  }
}
