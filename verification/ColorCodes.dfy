/** What the renderer reads from colour codes that are written with numbers. */
module ColorCodes {
  import opened Wrappers
  import opened TextDecoration
  import opened PrintText

  /** A number below 100, in two digits or, when it is small enough, in one. */
  ghost function Written(n: nat, two: bool): Text
    requires n < 100 && (two || n < 10)
  {
    if two then [0x30 + n / 10, 0x30 + n % 10] else [0x30 + n]
  }

  /** `t` stands at `i`. */
  ghost predicate StandsAt(w: Text, i: nat, t: Text) {
    i + |t| <= |w| && w[i..i + |t|] == t
  }

  lemma StandsInText(front: Text, t: Text, rest: Text)
    ensures StandsAt(front + t + rest, |front|, t)
  {
    assert (front + t + rest)[|front|..|front| + |t|] == t;
  }

  /** No digit stands at `i`, but something does. */
  ghost predicate Stops(w: Text, i: nat) {
    i < |w| && !IsDigit(w[i])
  }

  /** A written number is read as that number, when no further digit can belong to it. */
  lemma NumberIsRead(w: Text, i: nat, n: nat, two: bool)
    requires n < 100 && (two || n < 10) && StandsAt(w, i, Written(n, two))
    requires !two ==> i + 1 == |w| || Stops(w, i + 1)
    ensures Digits(w, i) == if two then 2 else 1
    ensures DigitsAt(w, i) != NoDigit && DigitsAt(w, i).Value() == n
  {
    var t := Written(n, two);
    assert w[i] == w[i..i + |t|][0] && (two ==> w[i + 1] == w[i..i + |t|][1]);
  }

  /** Foreground and background: exactly these two numbers are set, and the code ends behind them. */
  lemma BothAreRead(w: Text, i: nat, f: nat, fTwo: bool, b: nat, bTwo: bool, defaultBg: int)
    requires f < 100 && b < 100 && (fTwo || f < 10) && (bTwo || b < 10)
    requires StandsAt(w, i, [COLOR] + Written(f, fTwo) + [COMMA] + Written(b, bTwo))
    requires var end := i + 2 + |Written(f, fTwo)| + |Written(b, bTwo)|;
             bTwo || Stops(w, end)
    ensures w[i] == COLOR && !OpenCodeOrComma(w, i)
    ensures CodeEnd(w, i) == i + 2 + |Written(f, fTwo)| + |Written(b, bTwo)|
    ensures CodeColors(w, i, defaultBg) == SetColors(f, b)
  {
    var x, y := Written(f, fTwo), Written(b, bTwo);
    var code, comma := [COLOR] + x + [COMMA] + y, i + 1 + |x|;
    FourParts([COLOR], x, [COMMA], y);
    PartStands(w, i, code, 0, [COLOR]);
    PartStands(w, i, code, 1, x);
    PartStands(w, i, code, 1 + |x|, [COMMA]);
    PartStands(w, i, code, 2 + |x|, y);
    NumberIsRead(w, i + 1, f, fTwo);
    NumberIsRead(w, comma + 1, b, bTwo);
  }

  lemma FourParts(a: Text, b: Text, c: Text, d: Text)
    ensures var t := a + b + c + d;
            && StandsAt(t, 0, a) && StandsAt(t, |a|, b) && StandsAt(t, |a| + |b|, c) && StandsAt(t, |a| + |b| + |c|, d)
  {
    var t := a + b + c + d;
    assert t[0..|a|] == a;
    assert t[|a|..|a| + |b|] == b;
    assert t[|a| + |b|..|a| + |b| + |c|] == c;
    assert t[|a| + |b| + |c|..|a| + |b| + |c| + |d|] == d;
  }

  /** A part of a text that stands at `i`. */
  lemma PartStands(w: Text, i: nat, t: Text, at: nat, part: Text)
    requires StandsAt(w, i, t) && StandsAt(t, at, part)
    ensures StandsAt(w, i + at, part)
    ensures part != [] ==> w[i + at] == part[0]
  {
    forall k | 0 <= k < |part| ensures w[i + at..i + at + |part|][k] == part[k] == w[i + at + k] {
      assert w[i..i + |t|][at + k] == w[i + at + k] && t[at..at + |part|][k] == t[at + k];
    }
  }

  /** A foreground alone: that number is set, with the default background. */
  lemma ForegroundIsRead(w: Text, i: nat, f: nat, fTwo: bool, defaultBg: int)
    requires f < 100 && (fTwo || f < 10) && StandsAt(w, i, [COLOR] + Written(f, fTwo))
    requires var end := i + 1 + |Written(f, fTwo)|;
             && end < |w| && (fTwo || !IsDigit(w[end])) && (w[end] == COMMA ==> Stops(w, end + 1))
    ensures w[i] == COLOR && !OpenCodeOrComma(w, i) && CodeEnd(w, i) == i + 1 + |Written(f, fTwo)|
    ensures CodeColors(w, i, defaultBg) == SetColors(f, defaultBg)
  {
    var x := Written(f, fTwo);
    var code := [COLOR] + x;
    assert w[i] == w[i..i + |code|][0];
    assert w[i + 1..i + 1 + |x|] == w[i..i + |code|][1..] == x;
    NumberIsRead(w, i + 1, f, fTwo);
  }

  /** No number: nothing is set, and the code is its first character. */
  lemma NothingIsRead(w: Text, i: nat, defaultBg: int)
    requires i < |w| && w[i] == COLOR && Stops(w, i + 1)
    ensures !OpenCodeOrComma(w, i) && CodeEnd(w, i) == i + 1 && CodeColors(w, i, defaultBg) == NoChange
  {
  }

  // ----- The codes vanish, and nothing else does -----

  lemma PlainCharacterStays(s: Text, i: nat)
    requires i < |s| && !IsFormat(s[i])
    ensures VisibleFrom(s, i) == [s[i]] + VisibleFrom(s, i + 1)
  {
  }

  lemma {:induction false} PlainStays(s: Text, i: nat, n: nat)
    requires i <= n <= |s| && forall k :: i <= k < n ==> !IsFormat(s[k])
    ensures VisibleFrom(s, i) == s[i..n] + VisibleFrom(s, n)
    decreases n - i
  {
    hide CodeEnd, VisibleFrom;
    if i == n {
      assert s[i..n] == [];
    } else {
      PlainStays(s, i + 1, n);
      PlainCharacterStays(s, i);
      assert s[i..n] == [s[i]] + s[i + 1..n];
      ConcatAssoc([s[i]], s[i + 1..n], VisibleFrom(s, n));
    }
  }

  /** Plain text in front, a code of `length` characters behind it, and the rest. */
  lemma CodeVanishes(plain: Text, code: Text, rest: Text)
    requires !HasFormat(plain) && code != []
    requires var s, i := plain + code + rest, |plain|;
             if s[i] == COLOR then CodeEnd(s, i) == i + |code| else |code| == 1 && IsReject(s[i])
    ensures Visible(plain + code + rest) == plain + Visible(rest)
  {
    hide CodeEnd, IsReject;
    var s, i := plain + code + rest, |plain|;
    assert forall k :: 0 <= k < i ==> s[k] == plain[k] && !IsFormat(plain[k]);
    PlainStays(s, 0, i);
    assert s[0..i] == plain;
    assert s[i + |code|..] == rest;
    VisibleOfTail(s, i + |code|, 0);
  }

  /** One of the five codes of one character, whatever stands behind it. */
  lemma RejectVanishes(plain: Text, c: int, rest: Text)
    requires !HasFormat(plain) && c in {0x02, 0x0F, 0x16, 0x1D, 0x1F}
    ensures Visible(plain + [c] + rest) == plain + Visible(rest)
  {
    assert (plain + [c] + rest)[|plain|] == c;
    CodeVanishes(plain, [c], rest);
  }

  /** A colour code with both numbers. */
  lemma BothVanish(plain: Text, f: nat, fTwo: bool, b: nat, bTwo: bool, rest: Text)
    requires !HasFormat(plain) && f < 100 && (fTwo || f < 10) && b < 100 && (bTwo || b < 10)
    requires bTwo || (rest != [] && !IsDigit(rest[0]))
    ensures Visible(plain + ([COLOR] + Written(f, fTwo) + [COMMA] + Written(b, bTwo)) + rest) == plain + Visible(rest)
  {
    hide CodeEnd, Digits, FgDigits, BgDigits, CodeColors, OpenCodeOrComma;
    var code := [COLOR] + Written(f, fTwo) + [COMMA] + Written(b, bTwo);
    var s, end := plain + code + rest, |plain| + |code|;
    StandsInText(plain, code, rest);
    assert rest != [] ==> s[end] == rest[0];
    assert s[|plain|] == code[0] == COLOR;
    BothAreRead(s, |plain|, f, fTwo, b, bTwo, 0);
    CodeVanishes(plain, code, rest);
  }

  /** A colour code with a foreground; a comma that no digit follows stays visible. */
  lemma ForegroundVanishes(plain: Text, f: nat, fTwo: bool, rest: Text)
    requires !HasFormat(plain) && f < 100 && (fTwo || f < 10)
    requires rest != [] && (fTwo || !IsDigit(rest[0])) && (rest[0] == COMMA ==> |rest| > 1 && !IsDigit(rest[1]))
    ensures Visible(plain + ([COLOR] + Written(f, fTwo)) + rest) == plain + Visible(rest)
  {
    hide CodeEnd, Digits, FgDigits, BgDigits, CodeColors, OpenCodeOrComma;
    var code := [COLOR] + Written(f, fTwo);
    var s, end := plain + code + rest, |plain| + |code|;
    StandsInText(plain, code, rest);
    assert s[end] == rest[0] && (|rest| > 1 ==> s[end + 1] == rest[1]);
    assert s[|plain|] == code[0] == COLOR;
    ForegroundIsRead(s, |plain|, f, fTwo, 0);
    CodeVanishes(plain, code, rest);
  }
}
