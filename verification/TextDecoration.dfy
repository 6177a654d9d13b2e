/** The mIRC formatting codes Swirc understands, as a grammar, and the text that is
    visible once they are taken out. Both the in-place stripper and the renderer are
    proved against these definitions. Characters are numbers: bytes for the stripper,
    wide characters for the renderer; the definitions fit both. */
module TextDecoration {
  const BLINK := 0x1D
  const BOLD := 0x02
  const COLOR := 0x03
  const NORMAL := 0x0F
  const REVERSE := 0x16
  const UNDERLINE := 0x1F

  const COMMA := 0x2C
  const SPACE := 0x20
  const NEWLINE := 0x0A

  type Text = seq<int>

  predicate IsDigit(c: int) {
    0x30 <= c <= 0x39
  }

  /** The one-character codes; a colour code is longer and is handled apart. */
  predicate IsReject(c: int) {
    c == BLINK || c == BOLD || c == NORMAL || c == REVERSE || c == UNDERLINE
  }

  predicate IsFormat(c: int) {
    c == COLOR || IsReject(c)
  }

  /** The six formatting codes, the digits and white space by their numbers. */
  lemma CodesAre(c: int)
    ensures IsFormat(c) <==> c in {0x02, 0x03, 0x0F, 0x16, 0x1D, 0x1F}
    ensures IsReject(c) <==> IsFormat(c) && c != 0x03
    ensures IsDigit(c) <==> '0' as int <= c <= '9' as int
  {
  }

  predicate HasFormat(s: Text) {
    exists k :: 0 <= k < |s| && IsFormat(s[k])
  }

  /** A C string holds no terminator. */
  ghost predicate IsCString(s: Text) {
    forall k :: 0 <= k < |s| ==> s[k] != 0
  }

  /** How many digits, at most two, stand at `i`. */
  function Digits(s: Text, i: nat): (n: nat)
    requires i <= |s|
    ensures n <= 2 && i + n <= |s|
    ensures forall k :: i <= k < i + n ==> IsDigit(s[k])
  {
    if i == |s| || !IsDigit(s[i]) then 0
    else if i + 1 == |s| || !IsDigit(s[i + 1]) then 1
    else 2
  }

  /** Foreground digits of the colour code at `i`. */
  function FgDigits(s: Text, i: nat): (n: nat)
    requires i < |s|
    ensures n <= 2 && i + 1 + n <= |s|
  {
    Digits(s, i + 1)
  }

  /** Background digits: they need a foreground and a comma in front of them. */
  function BgDigits(s: Text, i: nat): (n: nat)
    requires i < |s|
    ensures n <= 2
  {
    var fg := FgDigits(s, i);
    if fg > 0 && i + 1 + fg < |s| && s[i + 1 + fg] == COMMA then Digits(s, i + 2 + fg) else 0
  }

  /** Where the colour code at `i` ends: it is `^C`, `^CN` or `^CNN`, possibly with a background
      `,N` or `,NN` behind it. A comma that no digit follows does not belong to the code. */
  function CodeEnd(s: Text, i: nat): (end: nat)
    requires i < |s|
    ensures i < end <= |s|
  {
    var fg, bg := FgDigits(s, i), BgDigits(s, i);
    i + 1 + fg + if bg > 0 then 1 + bg else 0
  }

  /** What a reader sees of the text from `i` on: everything but the formatting codes. */
  function VisibleFrom(s: Text, i: nat): Text
    requires i <= |s|
    decreases |s| - i
  {
    if i == |s| then []
    else if s[i] == COLOR then VisibleFrom(s, CodeEnd(s, i))
    else if IsReject(s[i]) then VisibleFrom(s, i + 1)
    else [s[i]] + VisibleFrom(s, i + 1)
  }

  function Visible(s: Text): Text {
    VisibleFrom(s, 0)
  }

  /** The colour code at `i` runs to the end of the text and could have taken a further digit
      (or, after one or two digits, a comma). */
  predicate OpenCode(s: Text, i: nat) {
    i < |s| && s[i] == COLOR && CodeEnd(s, i) == |s| && BgDigits(s, i) < 2
  }

  /** The text stops in the middle of a colour code. */
  ghost predicate EndsInsideCodeFrom(s: Text, i: nat) {
    exists k: nat :: i <= k && OpenCode(s, k)
  }

  ghost predicate EndsInsideCode(s: Text) {
    EndsInsideCodeFrom(s, 0)
  }

  /** As OpenCode, or with a comma at the very end that waits for its background. */
  predicate OpenCodeOrComma(s: Text, i: nat) {
    || OpenCode(s, i)
    || (i < |s| && s[i] == COLOR && FgDigits(s, i) > 0 && |s| == i + 2 + FgDigits(s, i) && s[|s| - 1] == COMMA)
  }

  ghost predicate EndsInsideCodeOrCommaFrom(s: Text, i: nat) {
    exists k: nat :: i <= k && OpenCodeOrComma(s, k)
  }

  ghost predicate EndsInsideCodeOrComma(s: Text) {
    EndsInsideCodeOrCommaFrom(s, 0)
  }

  ghost predicate IsSubsequence(a: Text, b: Text)
    decreases |b|
  {
    if a == [] then true
    else if b == [] then false
    else if a[0] == b[0] && IsSubsequence(a[1..], b[1..]) then true
    else IsSubsequence(a, b[1..])
  }

  /** Stripping adds no terminator. */
  lemma {:induction false} VisibleIsCString(s: Text, i: nat)
    requires i <= |s| && IsCString(s)
    ensures IsCString(VisibleFrom(s, i))
    decreases |s| - i
  {
    if i < |s| {
      VisibleIsCString(s, if s[i] == COLOR then CodeEnd(s, i) else i + 1);
    }
  }

  /** Nothing of a formatting code is left in the visible text. */
  lemma {:induction false} VisibleHasNoFormat(s: Text, i: nat)
    requires i <= |s|
    ensures forall k :: 0 <= k < |VisibleFrom(s, i)| ==> !IsFormat(VisibleFrom(s, i)[k])
    decreases |s| - i
  {
    if i < |s| {
      VisibleHasNoFormat(s, if s[i] == COLOR then CodeEnd(s, i) else i + 1);
    }
  }

  lemma {:induction false} VisibleOfPlain(s: Text, i: nat)
    requires i <= |s|
    requires forall k :: 0 <= k < |s| ==> !IsFormat(s[k])
    ensures VisibleFrom(s, i) == s[i..]
    decreases |s| - i
  {
    if i < |s| {
      VisibleOfPlain(s, i + 1);
    }
  }

  /** Stripping twice is stripping once. */
  lemma VisibleIsIdempotent(s: Text)
    ensures Visible(Visible(s)) == Visible(s)
  {
    VisibleHasNoFormat(s, 0);
    VisibleOfPlain(Visible(s), 0);
  }

  lemma {:induction false} SubsequenceAfterDrop(a: Text, b: Text, n: nat)
    requires n <= |b| && IsSubsequence(a, b[n..])
    ensures IsSubsequence(a, b)
  {
    if n > 0 && a != [] {
      assert b[n..] == b[1..][n - 1..];
      SubsequenceAfterDrop(a, b[1..], n - 1);
    }
  }

  /** The visible characters are characters of the text, in their order. */
  lemma {:induction false} VisibleIsSubsequence(s: Text, i: nat)
    requires i <= |s|
    ensures IsSubsequence(VisibleFrom(s, i), s[i..])
    decreases |s| - i
  {
    if i == |s| {
    } else if s[i] == COLOR {
      var end := CodeEnd(s, i);
      VisibleIsSubsequence(s, end);
      assert s[i..][end - i..] == s[end..];
      SubsequenceAfterDrop(VisibleFrom(s, i), s[i..], end - i);
    } else {
      VisibleIsSubsequence(s, i + 1);
      assert s[i..][1..] == s[i + 1..];
      assert !IsReject(s[i]) ==> VisibleFrom(s, i)[1..] == VisibleFrom(s, i + 1);
    }
  }

  /** A code reads the same with and without the text in front of it. */
  lemma CodeEndOfTail(s: Text, i: nat, j: nat)
    requires i + j < |s|
    ensures CodeEnd(s, i + j) == i + CodeEnd(s[i..], j)
  {
    var t := s[i..];
    assert forall k :: 0 <= k < |t| ==> t[k] == s[i + k];
    assert Digits(s, i + j + 1) == Digits(t, j + 1);
    var comma := j + 1 + FgDigits(t, j);
    if comma < |t| && t[comma] == COMMA {
      assert Digits(s, i + comma + 1) == Digits(t, comma + 1);
    }
  }

  lemma {:induction false} VisibleOfTail(s: Text, i: nat, j: nat)
    requires i + j <= |s|
    ensures VisibleFrom(s, i + j) == VisibleFrom(s[i..], j)
    decreases |s| - j
  {
    hide CodeEnd;
    if i + j < |s| {
      if s[i + j] == COLOR {
        CodeEndOfTail(s, i, j);
        VisibleOfTail(s, i, CodeEnd(s[i..], j));
      } else {
        VisibleOfTail(s, i, j + 1);
      }
    }
  }

  lemma {:induction false} VisibleIsNoLonger(s: Text, i: nat)
    requires i <= |s|
    ensures |VisibleFrom(s, i)| <= |s| - i
    decreases |s| - i
  {
    if i < |s| {
      VisibleIsNoLonger(s, if s[i] == COLOR then CodeEnd(s, i) else i + 1);
    }
  }

  /** A text whose last character is no digit, no comma and no colour code is complete;
      the newline the renderer appends is such a character. */
  lemma PlainEndIsOutsideCode(s: Text)
    requires |s| > 0
    requires !IsDigit(s[|s| - 1]) && s[|s| - 1] != COMMA && s[|s| - 1] != COLOR
    ensures !EndsInsideCodeOrComma(s) && !EndsInsideCode(s)
  {
    forall k: nat
      ensures !OpenCodeOrComma(s, k) && !OpenCode(s, k)
    {
      if OpenCode(s, k) {
        OpenCodeEnd(s, k);
      }
    }
  }

  lemma OpenCodeEnd(s: Text, i: nat)
    requires OpenCode(s, i)
    ensures var last := s[|s| - 1]; IsDigit(last) || last == COLOR
  {
    var fg := FgDigits(s, i);
    assert BgDigits(s, i) == 1 ==> IsDigit(s[i + 2 + fg]);
  }

  /** A colour code holds no further colour code, so a complete one does not decide whether
      the text stops inside a code. */
  lemma EndsInsideAfterCode(s: Text, i: nat)
    requires i < |s| && s[i] == COLOR
    ensures OpenCode(s, i) ==> EndsInsideCodeFrom(s, i)
    ensures !OpenCode(s, i) ==> (EndsInsideCodeFrom(s, i) <==> EndsInsideCodeFrom(s, CodeEnd(s, i)))
    ensures OpenCodeOrComma(s, i) ==> EndsInsideCodeOrCommaFrom(s, i)
    ensures !OpenCodeOrComma(s, i) ==>
              (EndsInsideCodeOrCommaFrom(s, i) <==> EndsInsideCodeOrCommaFrom(s, CodeEnd(s, i)))
  {
    CodeHoldsNoColor(s, i);
  }

  lemma EndsInsideAfterPlain(s: Text, i: nat)
    requires i < |s| && s[i] != COLOR
    ensures EndsInsideCodeFrom(s, i) <==> EndsInsideCodeFrom(s, i + 1)
    ensures EndsInsideCodeOrCommaFrom(s, i) <==> EndsInsideCodeOrCommaFrom(s, i + 1)
  {
  }

  lemma CodeHoldsNoColor(s: Text, i: nat)
    requires i < |s| && s[i] == COLOR
    ensures forall k :: i < k < CodeEnd(s, i) ==> s[k] != COLOR && s[k] != SPACE && s[k] != NEWLINE
  {
    forall k | i < k < CodeEnd(s, i)
      ensures IsDigit(s[k]) || s[k] == COMMA
    {
      var fg := FgDigits(s, i);
      assert k > i + 1 + fg ==> i + 2 + fg <= k < i + 2 + fg + Digits(s, i + 2 + fg);
    }
  }
}
