/** What the renderer finds out at a space about the word behind it. */
module LookAhead {
  import opened Wrappers
  import opened TextDecoration
  import opened WordWrap
  import opened WideText
  import Utf8

  /** The renderer looks ahead over at most this many characters. */
  const MAX_LOOKAHEAD := 4095

  function NextSpace(w: Text, p: nat): (q: nat)
    requires p <= |w|
    ensures p <= q <= |w|
    ensures q < |w| ==> w[q] == SPACE
    ensures forall k :: p <= k < q ==> w[k] != SPACE
    decreases |w| - p
  {
    if p == |w| || w[p] == SPACE then p else NextSpace(w, p + 1)
  }

  /** A space with another one behind it is where the renderer looks ahead. */
  predicate LooksAhead(w: Text, p: nat)
    requires p < |w|
  {
    w[p] == SPACE && NextSpace(w, p + 1) < |w|
  }

  /** The text it looks at: the space and the word behind it, up to the next space. */
  function Ahead(w: Text, p: nat): (s: Text)
    requires p < |w| && LooksAhead(w, p)
    ensures |s| <= MAX_LOOKAHEAD
  {
    var q := NextSpace(w, p + 1);
    w[p..if q - p > MAX_LOOKAHEAD then p + MAX_LOOKAHEAD else q]
  }

  /** What it measures of that: a text with codes is stripped first, by way of its bytes. */
  function Measured(s: Text): Text {
    if HasFormat(s) then SqueezedWide(s) else s
  }

  /** Columns a space asks for: itself and the word behind it. Anything else, and the last space of
      the text, asks for nothing. */
  function Lookahead(loc: Locale, w: Text, p: nat): nat
    requires p < |w|
  {
    if LooksAhead(w, p) then TextWidth(loc, Measured(Ahead(w, p))) else 0
  }

  /** Looking ahead from `p` reads no further than its buffers. */
  ghost predicate AheadSafe(w: Text, p: nat)
    requires p < |w|
  {
    LooksAhead(w, p) && HasFormat(Ahead(w, p)) ==> WideSafe(Ahead(w, p))
  }

  ghost predicate AllAheadSafe(w: Text) {
    forall p :: 0 <= p < |w| ==> AheadSafe(w, p)
  }

  /** The bytes of a part are no more than those of the whole. */
  lemma PartIsNoLonger(w: Text, a: nat, b: nat)
    requires a <= b <= |w|
    ensures |Utf8.Encode(w[a..b])| <= |Utf8.Encode(w)|
  {
    hide Utf8.Encode;
    Utf8.EncodeConcat(w[..b], w[b..]);
    Utf8.EncodeConcat(w[..a], w[a..b]);
    assert w[..b] + w[b..] == w && w[..a] + w[a..b] == w[..b];
  }

  /** In a text of fewer than 6143 bytes every look-ahead is safe and sees its word. */
  lemma ShortTextIsSafe(w: Text)
    requires Utf8.Encodable(w) && |Utf8.Encode(w)| < MBS_SIZE - 1
    ensures AllAheadSafe(w)
    ensures forall a, b :: 0 <= a <= b <= |w| ==> SeenWhole(w[a..b])
  {
    hide Utf8.Encode, WideSafe, Fitting;
    forall a, b | 0 <= a <= b <= |w|
      ensures SeenWhole(w[a..b])
      ensures b - a < TMP_SIZE ==> WideSafe(w[a..b])
    {
      PartIsNoLonger(w, a, b);
      FitsExactly(w[a..b]);
      if b - a < TMP_SIZE {
        FittingIsStripped(w[a..b]);
      }
    }
  }

  /** The conversion does not stop early: the look-ahead sees all of `s`. */
  predicate SeenWhole(s: Text) {
    HasFormat(s) ==> Fitting(s).None? || Fitting(s) == Some(|s|)
  }

  lemma {:induction false} VisibleIsNarrower(loc: Locale, s: Text, i: nat)
    requires i <= |s|
    ensures TextWidth(loc, VisibleFrom(s, i)) <= TextWidth(loc, s[i..])
    decreases |s| - i
  {
    if i < |s| {
      if s[i] == COLOR {
        VisibleIsNarrower(loc, s, CodeEnd(s, i));
        TailIsNarrower(loc, s, i, CodeEnd(s, i));
      } else {
        VisibleIsNarrower(loc, s, i + 1);
        TailIsNarrower(loc, s, i, i + 1);
        TextWidthCons(loc, s[i], VisibleFrom(s, i + 1));
        assert s[i..][1..] == s[i + 1..];
      }
    }
  }

  lemma {:induction false} TailIsNarrower(loc: Locale, s: Text, i: nat, j: nat)
    requires i <= j <= |s|
    ensures TextWidth(loc, s[j..]) <= TextWidth(loc, s[i..])
    decreases j - i
  {
    if i < j {
      TailIsNarrower(loc, s, i + 1, j);
      assert s[i..][1..] == s[i + 1..];
    }
  }

  /** A look-ahead that sees the whole text measures at least what is visible of it. */
  lemma MeasuredIsEnough(loc: Locale, s: Text)
    requires |s| < TMP_SIZE && SeenWhole(s)
    ensures TextWidth(loc, Measured(s)) >= TextWidth(loc, Visible(s))
  {
    hide Fitting, VisibleFrom, TextWidth;
    assert s[0..] == s;
    if !HasFormat(s) {
      VisibleOfPlain(s, 0);
    } else if Fitting(s).None? {
      VisibleIsNarrower(loc, s, 0);
    } else {
      FittingIsStripped(s);
    }
  }
}
