/** Rows are indented: what stands behind every break of a laid-out text. */
module Indentation {
  import opened TextDecoration
  import opened WordWrap
  import opened LookAhead
  import opened Layout

  ghost predicate BreakWithin(cells: seq<Cell>, i: int, k: int, margin: nat) {
    0 <= i < k < |cells| && k <= i + margin && cells[i].Break?
  }

  /** Behind a break stand blanks, as many as the margin or all there are, and blanks stand nowhere
      else. */
  ghost predicate Rows(cells: seq<Cell>, margin: nat) {
    && (forall i, k :: BreakWithin(cells, i, k, margin) ==> cells[k].Blank?)
    && (forall k :: 0 <= k < |cells| && cells[k].Blank? ==> exists i :: BreakWithin(cells, i, k, margin))
  }

  /** Every break has all its blanks. */
  ghost predicate Complete(cells: seq<Cell>, margin: nat) {
    forall i :: 0 <= i < |cells| && cells[i].Break? ==> i + margin < |cells|
  }

  /** Every break that is not the last cell is followed by exactly `margin` blanks and then by
      something else, and blanks stand nowhere else. */
  ghost predicate Indented(cells: seq<Cell>, margin: nat) {
    && Rows(cells, margin)
    && forall i :: 0 <= i < |cells| - 1 && cells[i].Break? ==>
         i + margin + 1 < |cells| && !cells[i + margin + 1].Blank?
  }

  lemma OneMore(cells: seq<Cell>, cell: Cell, margin: nat)
    requires Rows(cells, margin) && Complete(cells, margin) && !cell.Blank?
    ensures Rows(cells + [cell], margin)
    ensures cell.Glyph? || margin == 0 ==> Complete(cells + [cell], margin)
    ensures forall i :: 0 <= i < |cells| && cells[i].Break? ==> i + margin < |cells|
  {
    var next := cells + [cell];
    forall k | 0 <= k < |next| && next[k].Blank? ensures exists i :: BreakWithin(next, i, k, margin) {
      var i :| BreakWithin(cells, i, k, margin);
      assert BreakWithin(next, i, k, margin);
    }
    forall i, k | BreakWithin(next, i, k, margin) ensures next[k].Blank? {
      assert k < |cells| && BreakWithin(cells, i, k, margin);
    }
  }

  lemma OneRowMore(cells: seq<Cell>, br: Cell, indent: int, margin: nat)
    requires Rows(cells, margin) && Complete(cells, margin) && br.Break?
    requires margin == if indent > 0 then indent else 0
    ensures Rows(cells + [br] + Blanks(indent), margin) && Complete(cells + [br] + Blanks(indent), margin)
  {
    var at, next := |cells|, cells + [br] + Blanks(indent);
    forall k | 0 <= k < |next| && next[k].Blank? ensures exists i :: BreakWithin(next, i, k, margin) {
      if k < at {
        var i :| BreakWithin(cells, i, k, margin);
        assert BreakWithin(next, i, k, margin);
      } else {
        assert BreakWithin(next, at, k, margin);
      }
    }
    forall i, k | BreakWithin(next, i, k, margin) ensures next[k].Blank? {
      if i < at {
        assert k < at && BreakWithin(cells, i, k, margin);
      }
    }
  }

  /** One step keeps the rows; only a break at the very end has no blanks behind it. */
  lemma StepKeepsRows(page: Page, out: seq<Cell>, c: int, nextEmpty: bool, diff: nat)
    requires Rows(out, page.Margin()) && Complete(out, page.Margin())
    ensures var next := out + Step(page, RowWidth(page.loc, out), c, nextEmpty, diff);
            && Rows(next, page.Margin())
            && ((c == NEWLINE && nextEmpty) || Complete(next, page.Margin()))
            && (forall i :: 0 <= i < |next| - 1 && next[i].Break? ==> i + page.Margin() < |next|)
            && (c == NEWLINE && nextEmpty ==> next != [] && next[|next| - 1].Break?)
  {
    hide Rows, Complete, RowWidth, Unwrapped, RowsFit;
    var m := page.Margin();
    var next := out + Step(page, RowWidth(page.loc, out), c, nextEmpty, diff);
    if !IsShown(page.loc, c) {
      assert next == out;
      CompleteBreaks(out, m);
    } else if c == NEWLINE && nextEmpty {
      OneMore(out, Break([NEWLINE]), m);
      assert next == out + [Break([NEWLINE])];
    } else if c == NEWLINE || (c == SPACE && RowWidth(page.loc, out) + diff + 1 >= page.cols) {
      OneRowMore(out, Break([c]), page.indent, m);
      Regroup(out, Break([c]), page.indent, []);
      CompleteBreaks(next, m);
    } else if RowWidth(page.loc, out) + diff + 1 < page.cols {
      OneMore(out, Glyph(c), m);
      CompleteBreaks(next, m);
    } else {
      OneRowMore(out, Break([]), page.indent, m);
      OneMore(out + [Break([])] + Blanks(page.indent), Glyph(c), m);
      Regroup(out, Break([]), page.indent, [Glyph(c)]);
      CompleteBreaks(next, m);
    }
  }

  lemma CompleteBreaks(cells: seq<Cell>, margin: nat)
    requires Complete(cells, margin)
    ensures forall i :: 0 <= i < |cells| && cells[i].Break? ==> i + margin < |cells|
  {
  }

  lemma {:induction false} RenderKeepsRows(page: Page, out: seq<Cell>, w: Text, p: nat)
    requires p <= |w| && Rows(out, page.Margin()) && Complete(out, page.Margin())
    ensures var cells := RenderFrom(page, out, w, p);
            && Rows(cells, page.Margin())
            && (forall i :: 0 <= i < |cells| - 1 && cells[i].Break? ==> i + page.Margin() < |cells|)
            && (p < |w| && w[|w| - 1] == NEWLINE ==> cells != [] && cells[|cells| - 1].Break?)
    decreases |w| - p
  {
    hide Rows, Complete, Step, Lookahead, RowWidth;
    if p == |w| {
      CompleteBreaks(out, page.Margin());
    } else if w[p] == COLOR {
      CodeHoldsNoColor(w, p);
      RenderKeepsRows(page, out, w, CodeEnd(w, p));
    } else if IsReject(w[p]) {
      RenderKeepsRows(page, out, w, p + 1);
    } else {
      var diff := Lookahead(page.loc, w, p);
      StepKeepsRows(page, out, w[p], p + 1 == |w|, diff);
      var next := out + Step(page, RowWidth(page.loc, out), w[p], p + 1 == |w|, diff);
      if p + 1 < |w| {
        RenderKeepsRows(page, next, w, p + 1);
      }
    }
  }

  /** In the layout of a text that ends in a line feed, rows are indented by exactly the indent. */
  lemma RenderIsIndented(page: Page, w: Text)
    requires w != [] && w[|w| - 1] == NEWLINE
    ensures Indented(Render(page, w), if page.indent > 0 then page.indent else 0)
  {
    hide RenderFrom;
    RenderKeepsRows(page, [], w, 0);
    IndentedIf(Render(page, w), page.Margin());
  }

  /** Rows that end in a break are whole rows. */
  lemma IndentedIf(cells: seq<Cell>, margin: nat)
    requires Rows(cells, margin) && cells != [] && cells[|cells| - 1].Break?
    ensures Indented(cells, margin)
  {
    forall i | 0 <= i < |cells| - 1 && cells[i].Break?
      ensures i + margin + 1 < |cells| && !cells[i + margin + 1].Blank?
    {
      assert !BreakWithin(cells, i, |cells| - 1, margin);
      var k := i + margin + 1;
      forall j ensures !BreakWithin(cells, j, k, margin) {
        assert BreakWithin(cells, i, j, margin) ==> cells[j].Blank?;
      }
    }
  }

  /** So is every beginning of it that ends in a break. */
  lemma BeginningIsIndented(out: seq<Cell>, cells: seq<Cell>, margin: nat)
    requires Indented(cells, margin) && out <= cells && (out == [] || out == cells || out[|out| - 1].Break?)
    ensures Indented(out, margin)
  {
    if out != [] && out != cells {
      forall i, k | BreakWithin(out, i, k, margin) ensures out[k].Blank? {
        assert BreakWithin(cells, i, k, margin);
      }
      forall k | 0 <= k < |out| && out[k].Blank? ensures exists i :: BreakWithin(out, i, k, margin) {
        var i :| BreakWithin(cells, i, k, margin);
        assert BreakWithin(out, i, k, margin);
      }
      IndentedIf(out, margin);
    }
  }
}
