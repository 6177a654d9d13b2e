/** A word that the renderer tears apart although it would fit a row: with codes in it, and more bytes
    than the buffer of the look-ahead takes. */
module LongWords {
  import opened Wrappers
  import opened TextDecoration
  import opened WordWrap
  import opened WideText
  import opened LookAhead
  import opened Layout
  import Utf8

  /** A combining character: three bytes and no column. */
  const MARK := 0x20D0

  /** Bold, 2048 combining characters and "ab", between two spaces. */
  ghost function MarkedWord(): Text {
    [SPACE, BOLD] + seq(2048, i => MARK) + [0x61, 0x62, SPACE]
  }

  lemma MarkedWordIs()
    ensures var w := MarkedWord();
            && |w| == 2053 && w[0] == SPACE && w[1] == BOLD && w[2050] == 0x61 && w[2051] == 0x62 && w[2052] == SPACE
            && forall k :: 2 <= k < 2050 ==> w[k] == MARK
  {
  }

  /** Characters of three bytes are converted as long as there is room for three more. */
  lemma {:induction false} MarksFit(w: Text, i: nat, j: nat, room: nat)
    requires i <= j <= |w| && room / 3 < j - i && forall k :: i <= k < j ==> w[k] == MARK
    ensures FitEnd(w, i, room) == Some(i + room / 3)
    decreases j - i
  {
    hide Utf8.Bytes;
    MarkBytes();
    if room >= 3 {
      MarksFit(w, i + 1, j, room - 3);
    }
  }

  lemma MarkBytes()
    ensures |Utf8.Bytes(MARK)| == 3 && |Utf8.Bytes(SPACE)| == 1 && |Utf8.Bytes(BOLD)| == 1
  {
  }

  /** Combining characters take no columns. */
  lemma {:induction false} MarksAreNarrow(loc: Locale, s: Text, i: nat)
    requires i <= |s| && loc.width(MARK) == 0 && forall k :: i <= k < |s| ==> s[k] == MARK
    ensures TextWidth(loc, s[i..]) == 0
    decreases |s| - i
  {
    if i < |s| {
      MarksAreNarrow(loc, s, i + 1);
      assert s[i..][1..] == s[i + 1..];
    }
  }

  /** The look-ahead stops in front of "ab": 6143 bytes are taken by what stands before. */
  lemma MarkedWordIsCut(loc: Locale)
    requires loc.width(MARK) == 0 && loc.width(SPACE) == 1
    ensures var w := MarkedWord();
            && NextSpace(w, 1) == 2052 && !SeenWhole(w[0..2052]) && Lookahead(loc, w, 0) == 1
  {
    var w := MarkedWord();
    MarkedWordIs();
    NextSpaceIs(w, 1, 2052);
    hide TextWidth, MarkedWord, NextSpace, Fitting, VisibleFrom;
    var s := w[0..2052];
    assert s == Ahead(w, 0) && IsFormat(s[1]);
    MarkedWordFits(s);
    CutWordIsVisible(loc, s[..2049]);
  }

  lemma MarkedWordFits(s: Text)
    requires |s| == 2052 && s[0] == SPACE && s[1] == BOLD && forall k :: 2 <= k < 2050 ==> s[k] == MARK
    ensures Fitting(s) == Some(2049)
  {
    hide Utf8.Bytes;
    MarkBytes();
    MarksFit(s, 2, 2050, MBS_SIZE - 3);
    assert FitEnd(s, 1, MBS_SIZE - 2) == FitEnd(s, 2, MBS_SIZE - 3);
  }

  lemma CutWordIsVisible(loc: Locale, u: Text)
    requires 2 < |u| < TMP_SIZE && u[0] == SPACE && u[1] == BOLD && forall k :: 2 <= k < |u| ==> u[k] == MARK
    requires loc.width(MARK) == 0 && loc.width(SPACE) == 1
    ensures |Visible(u)| < TMP_SIZE && TextWidth(loc, Visible(u)) == 1
  {
    var t := u[2..];
    forall k | 0 <= k < |t| ensures !IsFormat(t[k]) {
      assert t[k] == u[k + 2];
    }
    VisibleOfPlain(t, 0);
    VisibleOfTail(u, 2, 0);
    assert t[0..] == t;
    assert Visible(u) == [SPACE] + VisibleFrom(u, 1) && VisibleFrom(u, 1) == t;
    MarksAreNarrow(loc, t, 0);
    TextWidthCons(loc, SPACE, t);
  }

  /** Combining characters pass without a break, and leave the row as it is. */
  lemma {:induction false} MarksPass(page: Page, out: seq<Cell>, w: Text, p: nat, q: nat, end: nat) returns (next: seq<Cell>)
    requires p <= q <= end <= |w| && forall k :: p <= k < q ==> w[k] == MARK
    requires page.loc.width(MARK) == 0 && page.loc.printable(MARK) && RowWidth(page.loc, out) + 1 < page.cols
    ensures RowWidth(page.loc, next) == RowWidth(page.loc, out) && Breaks(next) == Breaks(out)
    ensures forall mid :: Reaches(page, next, w, q, mid, end) ==> Reaches(page, out, w, p, mid, end)
    decreases q - p
  {
    if p == q {
      next := out;
    } else {
      AppendCell(page.loc, out, Glyph(MARK));
      next := MarksPass(page, out + [Glyph(MARK)], w, p + 1, q, end);
    }
  }

  /** With three columns left on the row, the space stays on it, and the word, two columns wide, is
      torn between its two letters. */
  lemma LongWordIsTorn(page: Page, out: seq<Cell>) returns (afterSpace: seq<Cell>, mid: seq<Cell>)
    requires page.loc.width(MARK) == 0 && page.loc.width(SPACE) == page.loc.width(0x61) == page.loc.width(0x62) == 1
    requires forall c :: page.loc.printable(c)
    requires RowWidth(page.loc, out) + 3 == page.cols && page.Margin() + 3 < page.cols
    ensures var w := MarkedWord();
            && NextSpace(w, 1) == 2052 && !SeenWhole(w[0..2052])
            && page.Margin() + TextWidth(page.loc, VisibleFrom(w[..2052], 1)) + 1 < page.cols
            && Reaches(page, out, w, 0, afterSpace, 1) && Reaches(page, afterSpace, w, 1, mid, 2052)
            && Breaks(mid) == Breaks(afterSpace) + 1
  {
    hide Lookahead, SeenWhole, MarkedWord, RowWidth, Breaks, TextWidth, VisibleFrom, NextSpace;
    var w := MarkedWord();
    MarkedWordIs();
    MarkedWordIsCut(page.loc);
    MarkedWordWidth(page.loc);
    afterSpace := out + [Glyph(SPACE)];
    AppendCell(page.loc, out, Glyph(SPACE));
    var marked := MarksPass(page, afterSpace, w, 2, 2050, 2052);
    mid := TornLetters(page, marked);
    BoldIsPassed(page, afterSpace, w, mid, 2052);
  }

  lemma BoldIsPassed(page: Page, out: seq<Cell>, w: Text, mid: seq<Cell>, end: nat)
    requires 2 <= end <= |w| && w[1] == BOLD && Reaches(page, out, w, 2, mid, end)
    ensures Reaches(page, out, w, 1, mid, end)
  {
  }

  lemma MarkedWordWidth(loc: Locale)
    requires loc.width(MARK) == 0 && loc.width(0x61) == loc.width(0x62) == 1
    ensures TextWidth(loc, VisibleFrom(MarkedWord()[..2052], 1)) == 2
  {
    MarkedWordIs();
    var s := MarkedWord()[..2052];
    var t := s[2..];
    forall k | 0 <= k < |t| ensures !IsFormat(t[k]) {
      assert t[k] == s[k + 2];
    }
    VisibleOfPlain(t, 0);
    VisibleOfTail(s, 2, 0);
    assert t[0..] == t && VisibleFrom(s, 1) == t;
    LettersBehindMarks(loc, t, 0);
  }

  lemma {:induction false} LettersBehindMarks(loc: Locale, t: Text, i: nat)
    requires i + 2 <= |t| && t[|t| - 2] == 0x61 && t[|t| - 1] == 0x62 && forall k :: 0 <= k < |t| - 2 ==> t[k] == MARK
    requires loc.width(MARK) == 0 && loc.width(0x61) == loc.width(0x62) == 1
    ensures TextWidth(loc, t[i..]) == 2
    decreases |t| - i
  {
    if i + 2 < |t| {
      LettersBehindMarks(loc, t, i + 1);
      assert t[i..][1..] == t[i + 1..];
    } else {
      assert t[i..] == [0x61] + [0x62] && [0x62][1..] == [];
      TextWidthCons(loc, 0x61, [0x62]);
    }
  }

  lemma TornLetters(page: Page, marked: seq<Cell>) returns (mid: seq<Cell>)
    requires page.loc.width(0x61) == page.loc.width(0x62) == 1 && forall c :: page.loc.printable(c)
    requires RowWidth(page.loc, marked) + 2 == page.cols
    ensures Reaches(page, marked, MarkedWord(), 2050, mid, 2052) && Breaks(mid) == Breaks(marked) + 1
  {
    hide Lookahead, RowWidth, Breaks, MarkedWord;
    MarkedWordIs();
    var w := MarkedWord();
    AppendCell(page.loc, marked, Glyph(0x61));
    var first := marked + [Glyph(0x61)];
    NoLookahead(page.loc, w, 2050);
    NoLookahead(page.loc, w, 2051);
    mid := first + Step(page, RowWidth(page.loc, first), 0x62, false, 0);
    StepEffect(page, first, 0x62, false, 0);
  }

  lemma NoLookahead(loc: Locale, w: Text, p: nat)
    requires p < |w| && w[p] != SPACE
    ensures Lookahead(loc, w, p) == 0
  {
  }
}
