/** What the stripper and the renderer promise together: they show the same text. */
module Rendering {
  import opened Wrappers
  import opened TextDecoration
  import opened WordWrap
  import opened Layout
  import opened WideText
  import PrintText
  import Utf8

  lemma {:induction false} UnwrappedPrefix(a: seq<Cell>, b: seq<Cell>)
    requires a <= b
    ensures Unwrapped(a) <= Unwrapped(b)
    decreases |b| - |a|
  {
    if |a| < |b| {
      var a' := b[..|a| + 1];
      assert a'[..|a'| - 1] == a;
      UnwrappedPrefix(a', b);
    } else {
      assert a == b;
    }
  }

  lemma {:induction false} FitPrefix(loc: Locale, a: seq<Cell>, b: seq<Cell>, cols: nat)
    requires a <= b && RowsFit(loc, b, cols)
    ensures RowsFit(loc, a, cols)
    decreases |b|
  {
    if |a| < |b| {
      FitPrefix(loc, a, b[..|b| - 1], cols);
    } else {
      assert a == b;
    }
  }

  /** What a scrolling window receives: with the breaks and the indentation undone it is the
      stripped text, all of it without a line limit and the beginning of it under one; at most
      `maxLines` rows are ended; and no row is wider than the window. */
  lemma PrintedText(page: Page, w: Text, out: seq<Cell>, maxLines: int)
    requires PrintText.CutAt(out, Render(page, w), maxLines)
    ensures Unwrapped(out) <= Shown(page.loc, Visible(w))
    ensures maxLines <= 0 ==> Unwrapped(out) == Shown(page.loc, Visible(w))
    ensures maxLines > 0 ==> Breaks(out) <= maxLines
    ensures page.Margin() + 2 <= page.cols && (forall c :: page.loc.width(c) <= 2) ==> RowsFit(page.loc, out, page.cols)
  {
    RenderUnwraps(page, [], w, 0);
    assert [] + Shown(page.loc, Visible(w)) == Shown(page.loc, Visible(w));
    UnwrappedPrefix(out, Render(page, w));
    if page.Margin() + 2 <= page.cols && forall c :: page.loc.width(c) <= 2 {
      RenderFits(page, [], w, 0);
      FitPrefix(page.loc, out, Render(page, w), page.cols);
    }
  }

  /** The renderer shows the visible text. The stripper, run on the bytes of a newline-terminated text
      that can be converted, never leaves its buffer and leaves the bytes of exactly this text; run
      on the characters it leaves this text when its buffers are large enough, and all of a text that
      cannot be converted. */
  lemma StripperMatchesRenderer(page: Page, text: Text)
    requires IsCString(text)
    ensures var w := PrintText.Prepared(text, true);
            && Unwrapped(Render(page, w)) == Shown(page.loc, Visible(w))
            && (Utf8.Encodable(w) ==>
                  !EndsInsideCode(Utf8.Encode(w)) && Visible(Utf8.Encode(w)) == Utf8.Encode(Visible(w)))
            && (Utf8.Encodable(w) && |w| < TMP_SIZE && |Utf8.Encode(w)| < MBS_SIZE ==>
                  SqueezedWide(w) == Visible(w) && WideSafe(w))
            && (Fitting(w).None? ==> SqueezedWide(w) == w && WideSafe(w))
  {
    hide Utf8.Encode, VisibleFrom, Fitting;
    var w := PrintText.Prepared(text, true);
    RenderUnwraps(page, [], w, 0);
    assert [] + Shown(page.loc, Visible(w)) == Shown(page.loc, Visible(w));
    if Utf8.Encodable(w) {
      PlainEndIsOutsideCode(w);
      Utf8.SameOpen(w);
      Utf8.StripCommutes(w);
      FitsExactly(w);
      if Fitting(w) == Some(|w|) && |w| < TMP_SIZE {
        FittingIsStripped(w);
        assert w[..|w|] == w;
      }
    }
  }
}
