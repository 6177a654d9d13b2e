/** Matching a certificate's DNS name, which may hold a wildcard, against a host name: the
    comparison functions of src/x509_check_host.c with no flags set, and the label-by-label rule
    of section 6.4.3 of RFC 6125 that they come down to. */
module HostMatch {
  import opened Wrappers

  type Bytes = seq<int>

  const STAR := '*' as int
  const DOT := '.' as int
  const HYPHEN := '-' as int

  function LowerByte(c: int): int {
    if 'A' as int <= c <= 'Z' as int then c - 'A' as int + 'a' as int else c
  }

  predicate Alnum(c: int) {
    'a' as int <= c <= 'z' as int || 'A' as int <= c <= 'Z' as int || '0' as int <= c <= '9' as int
  }

  lemma AlnumCharacters(c: char)
    ensures Alnum(c as int) <==> c in UPPERCASE + LOWERCASE + DECIMALS
  {
    hide UPPERCASE, LOWERCASE, DECIMALS;
    UppercaseIsRange(c);
    LowercaseIsRange(c);
    DecimalsAreRange(c);
  }

  /** Equal while ASCII case is ignored. */
  ghost predicate Same(a: Bytes, b: Bytes) {
    |a| == |b| && forall i :: 0 <= i < |a| ==> LowerByte(a[i]) == LowerByte(b[i])
  }

  /** The same byte, or the two cases of one ASCII letter. */
  ghost predicate Alike(a: int, b: int) {
    a == b || CaseOf(a, b) || CaseOf(b, a)
  }

  ghost predicate CaseOf(upper: int, lower: int) {
    'A' as int <= upper <= 'Z' as int && lower == upper + 32
  }

  lemma SameIsAlike(a: Bytes, b: Bytes)
    ensures Same(a, b) <==> |a| == |b| && forall i :: 0 <= i < |a| ==> Alike(a[i], b[i])
  {
    hide LowerByte, Alike;
    if |a| == |b| {
      forall i | 0 <= i < |a| ensures LowerByte(a[i]) == LowerByte(b[i]) <==> Alike(a[i], b[i]) {
        LowerOfAlike(a[i], b[i]);
      }
    }
  }

  lemma LowerOfAlike(a: int, b: int)
    ensures LowerByte(a) == LowerByte(b) <==> Alike(a, b)
  {
  }

  ghost predicate NulFree(a: Bytes) {
    forall i :: 0 <= i < |a| ==> a[i] != 0
  }

  /** "xn--" in any case at `i`. */
  predicate IdnaAt(p: Bytes, i: nat)
    requires i <= |p|
  {
    && |p| - i >= 4 && LowerByte(p[i]) == 'x' as int && LowerByte(p[i + 1]) == 'n' as int
    && p[i + 2] == HYPHEN && p[i + 3] == HYPHEN
  }

  /** The four bytes are "xn--", in whatever case. */
  lemma IdnaIsAlike(p: Bytes, i: nat)
    requires i <= |p|
    ensures IdnaAt(p, i) <==>
            && i + 4 <= |p| && Alike(p[i], 'x' as int) && Alike(p[i + 1], 'n' as int)
            && p[i + 2] == '-' as int && p[i + 3] == '-' as int
  {
  }

  // ----- The names, label by label -----

  /** The end of the label that goes through `i`. */
  function LabelEnd(p: Bytes, i: nat): (d: nat)
    requires i <= |p|
    ensures i <= d <= |p| && (d < |p| ==> p[d] == DOT)
    ensures forall k :: i <= k < d ==> p[k] != DOT
    decreases |p| - i
  {
    if i == |p| || p[i] == DOT then i else LabelEnd(p, i + 1)
  }

  function Dots(p: Bytes, i: nat): (n: nat)
    requires i <= |p|
    decreases |p| - i
  {
    if i == |p| then 0 else Dots(p, i + 1) + if p[i] == DOT then 1 else 0
  }

  /** An ordinary label from `i` to `d`: letters, digits and hyphens, no hyphen at either end. */
  ghost predicate GoodLabel(p: Bytes, i: nat, d: nat)
    requires i <= d <= |p|
  {
    && i < d && p[i] != HYPHEN && p[d - 1] != HYPHEN
    && forall k :: i <= k < d ==> Alnum(p[k]) || p[k] == HYPHEN
  }

  /** Ordinary labels from `i` to the end. */
  ghost predicate GoodLabels(p: Bytes, i: nat)
    requires i <= |p|
    decreases |p| - i
  {
    var d := LabelEnd(p, i);
    GoodLabel(p, i, d) && (d < |p| ==> GoodLabels(p, d + 1))
  }

  /** A label up to `d` with its one star at `k`, at one of its ends, that is not an IDNA label;
      hyphens stand at neither end of what is left without the star, except behind the star. */
  ghost predicate StarLabel(p: Bytes, k: nat, d: nat)
    requires k < d <= |p|
  {
    && p[k] == STAR && (k == 0 || k == d - 1) && !IdnaAt(p, 0)
    && (forall j :: 0 <= j < d && j != k ==> Alnum(p[j]) || p[j] == HYPHEN)
    && p[0] != HYPHEN && p[d - 1] != HYPHEN && (k == d - 1 && k > 0 ==> p[k - 1] != HYPHEN)
  }

  /** A wildcard pattern: the star is in the first of at least three labels. */
  ghost predicate StarPattern(p: Bytes, k: nat) {
    var d := LabelEnd(p, 0);
    && k < d < |p| && StarLabel(p, k, d)
    && GoodLabels(p, d + 1) && Dots(p, d + 1) >= 1
  }

  // ----- valid_star -----

  /** The state word, the dots seen, and the star found or -1. */
  datatype Auto = Auto(start: bool, hyphen: bool, idna: bool, dots: nat, star: int)

  function Step(p: Bytes, i: nat, a: Auto): Option<Auto>
    requires i < |p|
  {
    if p[i] == STAR then
      var atend := i == |p| - 1 || p[i + 1] == DOT;
      if a.star >= 0 || a.idna || a.dots != 0 || (!a.start && !atend) then None
      else Some(a.(star := i, start := false))
    else if Alnum(p[i]) then
      Some(a.(idna := a.idna || (a.start && IdnaAt(p, i)), hyphen := false, start := false))
    else if p[i] == DOT then
      if a.hyphen || a.start then None else Some(Auto(true, false, false, a.dots + 1, a.star))
    else if p[i] == HYPHEN && !a.start then Some(a.(hyphen := true))
    else None
  }

  /** What valid_star returns from state `a` at `i`. */
  function Verdict(p: Bytes, i: nat, a: Auto): int
    requires i <= |p|
    decreases |p| - i
  {
    if i == |p| then if a.start || a.hyphen || a.dots < 2 then -1 else a.star
    else
      match Step(p, i, a)
      case None => -1
      case Some(b) => Verdict(p, i + 1, b)
  }

  method ValidStar(p: Bytes) returns (star: int)
    ensures star >= 0 ==> StarPattern(p, star)
    ensures star < 0 ==> forall k: nat :: !StarPattern(p, k)
    ensures -1 <= star < |p|
  {
    star := -1;
    var start, hyphen, idna, dots := true, false, false, 0;
    var i := 0;
    AcceptsPatterns(p);
    while i < |p|
      invariant 0 <= i <= |p| && -1 <= star < i && dots >= 0
      invariant Verdict(p, i, Auto(start, hyphen, idna, dots, star)) == Verdict(p, 0, Auto(true, false, false, 0, -1))
    {
      if p[i] == STAR {
        var atstart := start;
        var atend := i == |p| - 1 || p[i + 1] == DOT;
        if star >= 0 || idna || dots != 0 {
          return -1;
        }
        if !atstart && !atend {
          return -1;
        }
        star := i;
        start := false;
      } else if Alnum(p[i]) {
        if start && IdnaAt(p, i) {
          idna := true;
        }
        hyphen, start := false, false;
      } else if p[i] == DOT {
        if hyphen || start {
          return -1;
        }
        start, hyphen, idna := true, false, false;
        dots := dots + 1;
      } else if p[i] == HYPHEN {
        if start {
          return -1;
        }
        hyphen := true;
      } else {
        return -1;
      }
      i := i + 1;
    }
    if start || hyphen || dots < 2 {
      return -1;
    }
  }

  /** Inside an ordinary label, `i` being its start and `j` where the automaton is. */
  lemma {:induction false} InLabel(p: Bytes, i: nat, j: nat, a: Auto)
    requires i < j <= |p| && LabelEnd(p, i) == LabelEnd(p, j)
    requires a.dots > 0 && !a.start && a.hyphen == (p[j - 1] == HYPHEN)
    requires p[i] != HYPHEN && forall k :: i <= k < j ==> Alnum(p[k]) || p[k] == HYPHEN
    ensures var d := LabelEnd(p, i);
            Verdict(p, j, a) ==
            if !GoodLabel(p, i, d) then -1
            else if d == |p| then if a.dots < 2 then -1 else a.star
            else Verdict(p, d + 1, Auto(true, false, false, a.dots + 1, a.star))
    decreases |p| - j
  {
    if j < |p| && p[j] != DOT {
      if Alnum(p[j]) || p[j] == HYPHEN {
        InLabel(p, i, j + 1, Step(p, j, a).value);
      }
    }
  }

  /** From the start of a later label on, the automaton accepts exactly ordinary labels. */
  lemma {:induction false} LaterLabels(p: Bytes, i: nat, dots: nat, star: int)
    requires i <= |p| && dots > 0
    ensures Verdict(p, i, Auto(true, false, false, dots, star)) ==
            if GoodLabels(p, i) && dots + Dots(p, i) >= 2 then star else -1
    decreases |p| - i
  {
    var d := LabelEnd(p, i);
    DotsInLabel(p, i);
    var a := Auto(true, false, false, dots, star);
    if i < |p| && Alnum(p[i]) {
      InLabel(p, i, i + 1, Step(p, i, a).value);
      if d < |p| {
        LaterLabels(p, d + 1, dots + 1, star);
      }
    }
  }

  lemma {:induction false} DotsInLabel(p: Bytes, i: nat)
    requires i <= |p|
    ensures var d := LabelEnd(p, i); Dots(p, i) == if d == |p| then 0 else 1 + Dots(p, d + 1)
    decreases |p| - i
  {
    if i < |p| && p[i] != DOT {
      DotsInLabel(p, i + 1);
    }
  }

  /** In the first label behind a star at its start. */
  lemma {:induction false} BehindStar(p: Bytes, j: nat, a: Auto)
    requires 0 < j <= |p| && LabelEnd(p, 0) == LabelEnd(p, j) && p[0] == STAR
    requires a == Auto(false, j > 1 && p[j - 1] == HYPHEN, false, 0, 0)
    requires forall k :: 1 <= k < j ==> Alnum(p[k]) || p[k] == HYPHEN
    ensures Verdict(p, j, a) == if StarPattern(p, 0) then 0 else -1
    decreases |p| - j
  {
    hide LabelEnd;
    if j < |p| {
      if p[j] == DOT {
        EndOfLabel(p, j);
        LaterLabels(p, j + 1, 1, 0);
      } else if Alnum(p[j]) || p[j] == HYPHEN {
        InsideLabel(p, j);
        BehindStar(p, j + 1, Step(p, j, a).value);
      } else {
        InsideLabel(p, j);
      }
    }
  }

  lemma EndOfLabel(p: Bytes, j: nat)
    requires j < |p| && p[j] == DOT
    ensures LabelEnd(p, j) == j
  {
  }

  lemma InsideLabel(p: Bytes, j: nat)
    requires j < |p| && p[j] != DOT
    ensures LabelEnd(p, j) == LabelEnd(p, j + 1) > j
  {
  }

  /** In the first label with no star yet: only a star at its end can still help. */
  lemma {:induction false} AheadOfStar(p: Bytes, j: nat, a: Auto)
    requires 0 < j <= |p| && LabelEnd(p, 0) == LabelEnd(p, j) && p[0] != HYPHEN
    requires a == Auto(false, p[j - 1] == HYPHEN, IdnaAt(p, 0), 0, -1)
    requires forall k :: 0 <= k < j ==> Alnum(p[k]) || p[k] == HYPHEN
    ensures var d := LabelEnd(p, 0);
            Verdict(p, j, a) == if StarPattern(p, d - 1) then d - 1 else -1
    decreases |p| - j
  {
    hide LabelEnd, GoodLabels, Dots;
    if j < |p| {
      if p[j] == DOT {
        EndOfLabel(p, j);
        LaterLabels(p, j + 1, 1, -1);
      } else {
        InsideLabel(p, j);
        if Alnum(p[j]) || p[j] == HYPHEN {
          AheadOfStar(p, j + 1, Step(p, j, a).value);
        } else if p[j] == STAR && j + 1 < |p| && p[j + 1] == DOT {
          EndOfLabel(p, j + 1);
          LaterLabels(p, j + 2, 1, j);
        }
      }
    }
  }

  /** The automaton accepts exactly the wildcard patterns, and finds the star. */
  lemma AcceptsPatterns(p: Bytes)
    ensures var star := Verdict(p, 0, Auto(true, false, false, 0, -1));
            && -1 <= star < |p|
            && (star >= 0 ==> StarPattern(p, star))
            && (forall k: nat :: StarPattern(p, k) ==> k == star)
  {
    if |p| > 0 {
      var a := Auto(true, false, false, 0, -1);
      var d := LabelEnd(p, 0);
      if p[0] == STAR {
        BehindStar(p, 1, Auto(false, false, false, 0, 0));
      } else if Alnum(p[0]) {
        AheadOfStar(p, 1, Auto(false, false, IdnaAt(p, 0), 0, -1));
      }
      forall k: nat | StarPattern(p, k) ensures k == if p[0] == STAR then 0 else d - 1 {
      }
    }
  }

  // ----- equal_nocase and wildcard_match -----

  /** equal_nocase */
  method EqualNocase(pattern: Bytes, subject: Bytes) returns (equal: bool)
    ensures equal <==> Same(pattern, subject) && NulFree(pattern)
    ensures equal <==> |pattern| == |subject| && forall k :: 0 <= k < |pattern| ==> pattern[k] != 0 && Alike(pattern[k], subject[k])
  {
    SameIsAlike(pattern, subject);
    if |pattern| != |subject| {
      return false;
    }
    var i := 0;
    while i < |pattern|
      invariant 0 <= i <= |pattern|
      invariant forall k :: 0 <= k < i ==> LowerByte(pattern[k]) == LowerByte(subject[k]) && pattern[k] != 0
    {
      var l, r := pattern[i], subject[i];
      if l == 0 {
        return false;
      }
      if l != r {
        l, r := LowerByte(l), LowerByte(r);
        if l != r {
          return false;
        }
      }
      i := i + 1;
    }
    return true;
  }

  /** What may stand where the star is. */
  ghost predicate Covered(m: Bytes) {
    m == [STAR] || forall i :: 0 <= i < |m| ==> Alnum(m[i]) || m[i] == HYPHEN
  }

  /** What wildcard_match accepts, piece by piece. */
  ghost predicate Matches(prefix: Bytes, suffix: Bytes, subject: Bytes) {
    var n := |subject| - |suffix|;
    && |prefix| <= n
    && Same(prefix, subject[..|prefix|]) && NulFree(prefix)
    && Same(suffix, subject[n..]) && NulFree(subject[n..])
    && (if prefix == [] && suffix != [] && suffix[0] == DOT then n > 0 else !IdnaAt(subject, 0))
    && Covered(subject[|prefix|..n])
  }

  method WildcardMatch(prefix: Bytes, suffix: Bytes, subject: Bytes) returns (matches: bool)
    requires suffix != []
    ensures matches <==> Matches(prefix, suffix, subject)
  {
    if |subject| < |prefix| + |suffix| {
      return false;
    }
    var equal := EqualNocase(prefix, subject[..|prefix|]);
    if !equal {
      return false;
    }
    var wildcardStart := |prefix|;
    var wildcardEnd := |subject| - |suffix|;
    equal := EqualNocase(subject[wildcardEnd..], suffix);
    if !equal {
      return false;
    }
    var allowIdna := false;
    if |prefix| == 0 && suffix[0] == DOT {
      if wildcardStart == wildcardEnd {
        return false;
      }
      allowIdna := true;
    }
    if !allowIdna && IdnaAt(subject, 0) {
      return false;
    }
    ghost var m := subject[wildcardStart..wildcardEnd];
    if wildcardEnd == wildcardStart + 1 && subject[wildcardStart] == STAR {
      assert m == [STAR];
      return true;
    }
    var i := wildcardStart;
    while i != wildcardEnd
      invariant wildcardStart <= i <= wildcardEnd
      invariant forall k :: 0 <= k < i - wildcardStart ==> Alnum(m[k]) || m[k] == HYPHEN
      decreases wildcardEnd - i
    {
      if !(Alnum(subject[i]) || subject[i] == HYPHEN) {
        assert m[i - wildcardStart] == subject[i];
        assert !Covered(m) by {
          assert m != [STAR];
        }
        return false;
      }
      i := i + 1;
    }
    return true;
  }

  // ----- The rule by labels -----

  /** The subject is the pattern with the star, and nothing else, filled in, and what fills it in
      is within the first label: all other labels are equal ignoring case. A star that is a whole
      label stands for at least one character; any other star for no part of an IDNA label. */
  ghost predicate LabelsMatch(p: Bytes, k: nat, s: Bytes)
    requires StarPattern(p, k)
  {
    var dp, ds := LabelEnd(p, 0), LabelEnd(s, 0);
    var behind := dp - k - 1;
    && k + behind <= ds < |s|
    && Same(p[dp..], s[ds..])
    && Same(p[..k], s[..k]) && Same(p[k + 1..dp], s[ds - behind..ds])
    && Covered(s[k..ds - behind])
    && if dp == 1 then ds > 0 else !IdnaAt(s, 0)
  }

  lemma {:induction false} LabelEndIs(s: Bytes, i: nat, d: nat)
    requires i <= d < |s| && s[d] == DOT && forall j :: i <= j < d ==> s[j] != DOT
    ensures LabelEnd(s, i) == d
    decreases d - i
  {
    if i < d {
      LabelEndIs(s, i + 1, d);
    }
  }

  lemma {:induction false} GoodLabelsPlain(p: Bytes, i: nat)
    requires i <= |p| && GoodLabels(p, i)
    ensures forall j :: i <= j < |p| ==> Alnum(p[j]) || p[j] == HYPHEN || p[j] == DOT
    decreases |p| - i
  {
    var d := LabelEnd(p, i);
    if d < |p| {
      GoodLabelsPlain(p, d + 1);
    }
  }

  /** The characters of a pattern around its star. */
  lemma PatternPlain(p: Bytes, k: nat)
    requires StarPattern(p, k)
    ensures forall j :: 0 <= j < |p| && j != k ==> Alnum(p[j]) || p[j] == HYPHEN || p[j] == DOT
  {
    GoodLabelsPlain(p, LabelEnd(p, 0) + 1);
  }

  lemma SameDotAt(a: Bytes, b: Bytes, j: nat)
    requires Same(a, b) && j < |a|
    ensures a[j] == DOT <==> b[j] == DOT
    ensures a[j] == 0 <==> b[j] == 0
  {
  }

  /** Where the first label of a matching subject ends: `d` in the pattern, `n` being where the
      suffix begins in the subject. */
  lemma FirstLabel(p: Bytes, k: nat, d: nat, s: Bytes, n: nat)
    requires k < d < |p| && p[d] == DOT && forall j :: 0 <= j < d ==> p[j] != DOT
    requires k <= n && n + |p| - k - 1 == |s|
    requires Same(p[..k], s[..k]) && Same(p[k + 1..], s[n..]) && Covered(s[k..n])
    ensures LabelEnd(s, 0) == n + d - k - 1
  {
    hide LabelEnd, Same;
    var e := n + d - k - 1;
    forall j | 0 <= j < e ensures s[j] != DOT {
      if j < k {
        SameDotAt(p[..k], s[..k], j);
      } else if j < n {
        assert s[k..n][j - k] == s[j];
      } else {
        SameDotAt(p[k + 1..], s[n..], j - n);
      }
    }
    SameDotAt(p[k + 1..], s[n..], e - n);
    LabelEndIs(s, 0, e);
  }

  lemma SameParts(a: Bytes, b: Bytes, i: nat)
    requires |a| == |b| && i <= |a|
    ensures Same(a, b) <==> Same(a[..i], b[..i]) && Same(a[i..], b[i..])
  {
    if Same(a[..i], b[..i]) && Same(a[i..], b[i..]) {
      forall j | 0 <= j < |a| ensures LowerByte(a[j]) == LowerByte(b[j]) {
        if j < i {
          assert LowerByte(a[..i][j]) == LowerByte(b[..i][j]);
        } else {
          assert LowerByte(a[i..][j - i]) == LowerByte(b[i..][j - i]);
        }
      }
    }
  }

  /** The suffix is the rest of the first label and the other labels. */
  lemma SuffixParts(p: Bytes, k: nat, d: nat, s: Bytes, n: nat)
    requires k < d < |p| && n + |p| - k - 1 == |s|
    ensures var e := n + d - k - 1;
            Same(p[k + 1..], s[n..]) <==> Same(p[k + 1..d], s[n..e]) && Same(p[d..], s[e..])
  {
    hide Same;
    var behind := d - k - 1;
    SameParts(p[k + 1..], s[n..], behind);
    assert p[k + 1..][..behind] == p[k + 1..d] && p[k + 1..][behind..] == p[d..];
    assert s[n..][..behind] == s[n..n + behind] && s[n..][behind..] == s[n + behind..];
  }

  lemma SameIsNulFree(a: Bytes, b: Bytes)
    requires Same(a, b) && NulFree(a)
    ensures NulFree(b)
  {
    forall j | 0 <= j < |b| ensures b[j] != 0 {
      SameDotAt(a, b, j);
    }
  }

  lemma PatternNulFree(p: Bytes, k: nat)
    requires StarPattern(p, k)
    ensures NulFree(p[..k]) && NulFree(p[k + 1..])
  {
    hide LabelEnd, GoodLabels, Dots;
    PatternPlain(p, k);
  }

  /** Splitting the pattern at its star and splitting it into labels accept the same subjects. */
  lemma MatchesByLabels(p: Bytes, k: nat, s: Bytes)
    requires StarPattern(p, k)
    ensures Matches(p[..k], p[k + 1..], s) <==> LabelsMatch(p, k, s)
  {
    hide Same, Covered, IdnaAt, NulFree, GoodLabels, Dots;
    PatternNulFree(p, k);
    var d, n := LabelEnd(p, 0), |s| - (|p| - k - 1);
    if Matches(p[..k], p[k + 1..], s) {
      FirstLabel(p, k, d, s, n);
      SuffixParts(p, k, d, s, n);
    }
    if LabelsMatch(p, k, s) {
      SameLength(p[d..], s[LabelEnd(s, 0)..]);
      SuffixParts(p, k, d, s, n);
      SameIsNulFree(p[k + 1..], s[n..]);
    }
  }

  lemma SameLength(a: Bytes, b: Bytes)
    requires Same(a, b)
    ensures |a| == |b|
  {
  }

  lemma {:induction false} SameDots(a: Bytes, b: Bytes, i: nat)
    requires Same(a, b) && i <= |a|
    ensures Dots(a, i) == Dots(b, i)
    decreases |a| - i
  {
    if i < |a| {
      SameDots(a, b, i + 1);
    }
  }

  lemma {:induction false} DotsOfTail(p: Bytes, i: nat, j: nat)
    requires i + j <= |p|
    ensures Dots(p[i..], j) == Dots(p, i + j)
    decreases |p| - j
  {
    if i + j < |p| {
      DotsOfTail(p, i, j + 1);
    }
  }

  /** A subject accepted through a wildcard has as many labels as the pattern. */
  lemma LabelCountAgrees(p: Bytes, k: nat, s: Bytes)
    requires StarPattern(p, k) && LabelsMatch(p, k, s)
    ensures Dots(s, 0) == Dots(p, 0) >= 2
  {
    hide Covered, IdnaAt, GoodLabels, StarLabel, LowerByte;
    var dp, ds := LabelEnd(p, 0), LabelEnd(s, 0);
    DotsInLabel(p, 0);
    DotsInLabel(s, 0);
    SameDots(p[dp..], s[ds..], 1);
    DotsOfTail(p, dp, 1);
    DotsOfTail(s, ds, 1);
  }

  /** Which subjects a pattern accepts. A subject that begins with a dot never matches a
      wildcard; a pattern that is no wildcard pattern matches only itself, ignoring case. */
  ghost predicate Accepts(p: Bytes, s: Bytes) {
    if (exists k: nat :: StarPattern(p, k)) && !(|s| > 1 && s[0] == DOT)
    then exists k: nat :: StarPattern(p, k) && LabelsMatch(p, k, s)
    else Same(p, s) && NulFree(p)
  }

  /** equal_wildcard */
  method EqualWildcard(pattern: Bytes, subject: Bytes) returns (equal: bool)
    ensures equal <==> Accepts(pattern, subject)
  {
    hide StarPattern, LabelsMatch, Matches;
    var star := -1;
    AcceptsPatterns(pattern);
    if !(|subject| > 1 && subject[0] == DOT) {
      star := ValidStar(pattern);
    }
    if star < 0 {
      equal := EqualNocase(pattern, subject);
      return;
    }
    MatchesByLabels(pattern, star, subject);
    StarNotLast(pattern, star);
    equal := WildcardMatch(pattern[..star], pattern[star + 1..], subject);
  }

  lemma StarNotLast(p: Bytes, k: nat)
    requires StarPattern(p, k)
    ensures p[k + 1..] != []
  {
  }
}
