/** What equal_wildcard of src/x509_check_host.c means for names that are put together from their
    parts: an ordinary list of labels, and a first label with a star at one of its ends. */
module Wildcards {
  import opened HostMatch

  /** The labels of a name behind its first one, each behind its dot. */
  function Joined(labels: seq<Bytes>): Bytes {
    if labels == [] then [] else ['.' as int] + labels[0] + Joined(labels[1..])
  }

  predicate Legal(c: int) {
    Alnum(c) || c == '-' as int
  }

  ghost predicate AllLegal(b: Bytes) {
    forall k :: 0 <= k < |b| ==> Legal(b[k])
  }

  /** A label that begins and ends with a letter or a digit. */
  ghost predicate Proper(l: Bytes) {
    l != [] && AllLegal(l) && l[0] != '-' as int && l[|l| - 1] != '-' as int
  }

  ghost predicate AllProper(labels: seq<Bytes>) {
    forall k :: 0 <= k < |labels| ==> Proper(labels[k])
  }

  ghost predicate AllAlike(a: Bytes, b: Bytes) {
    |a| == |b| && forall k :: 0 <= k < |a| ==> Alike(a[k], b[k])
  }

  ghost predicate BeginsIdna(b: Bytes) {
    |b| >= 4 && AllAlike(b[..4], ['x' as int, 'n' as int, '-' as int, '-' as int])
  }

  /** What may stand on either side of the star: nothing on one side, and on the other a piece of a
      label that is no IDNA label. */
  ghost predicate AroundStar(pre: Bytes, post: Bytes) {
    && AllLegal(pre) && AllLegal(post) && (pre == [] || (Proper(pre) && !BeginsIdna(pre) && post == []))
    && (post != [] ==> post[|post| - 1] != '-' as int)
  }

  function Pattern(pre: Bytes, post: Bytes, labels: seq<Bytes>): Bytes {
    pre + ['*' as int] + post + Joined(labels)
  }

  // ----- The parts are a wildcard pattern -----

  lemma {:induction false} LabelEndAt(p: Bytes, i: nat, d: nat)
    requires i <= d <= |p| && (d < |p| ==> p[d] == '.' as int) && forall k :: i <= k < d ==> p[k] != '.' as int
    ensures LabelEnd(p, i) == d
    decreases d - i
  {
    if i < d {
      LabelEndAt(p, i + 1, d);
    }
  }

  lemma CellsOfLabel(p: Bytes, j: nat, l: Bytes, rest: Bytes)
    requires j <= |p| && p[j..] == ['.' as int] + l + rest
    ensures |p| == j + 1 + |l| + |rest| && p[j + 1 + |l|..] == rest
    ensures forall k :: j + 1 <= k < j + 1 + |l| ==> p[k] == l[k - j - 1]
    ensures rest != [] ==> p[j + 1 + |l|] == rest[0]
  {
    assert p[j..][1 + |l|..] == rest;
    forall k | j + 1 <= k < j + 1 + |l| ensures p[k] == l[k - j - 1] {
      assert p[j..][k - j] == l[k - j - 1];
    }
  }

  lemma LabelIsGood(p: Bytes, i: nat, l: Bytes)
    requires Proper(l) && i + |l| <= |p| && forall k :: i <= k < i + |l| ==> p[k] == l[k - i]
    ensures GoodLabel(p, i, i + |l|) && forall k :: i <= k < i + |l| ==> p[k] != '.' as int
  {
    LegalIsNoDot();
    assert p[i] == l[0] && p[i + |l| - 1] == l[|l| - 1];
  }

  lemma {:induction false} JoinedIsGood(p: Bytes, j: nat, labels: seq<Bytes>)
    requires j < |p| && labels != [] && AllProper(labels) && p[j..] == Joined(labels)
    ensures GoodLabels(p, j + 1) && Dots(p, j + 1) == |labels| - 1
    decreases |labels|
  {
    hide LabelEnd, Alnum, Dots, Proper, GoodLabel;
    var l, d := labels[0], j + 1 + |labels[0]|;
    var rest := Joined(labels[1..]);
    CellsOfLabel(p, j, l, rest);
    LabelIsGood(p, j + 1, l);
    LabelEndAt(p, j + 1, d);
    if labels[1..] != [] {
      JoinedIsGood(p, d, labels[1..]);
    }
    DotsInLabel(p, j + 1);
    DotsAtEnd(p);
  }

  lemma LegalIsNoDot()
    ensures forall c :: Legal(c) ==> c != '.' as int && c != '*' as int && c != 0
  {
  }

  lemma DotsAtEnd(p: Bytes)
    ensures Dots(p, |p|) == 0
  {
  }

  lemma PatternCells(pre: Bytes, post: Bytes, labels: seq<Bytes>)
    requires AroundStar(pre, post) && labels != []
    ensures var p, d := Pattern(pre, post, labels), |pre| + 1 + |post|;
            && p[..|pre|] == pre && p[|pre|] == '*' as int && p[|pre| + 1..] == post + Joined(labels)
            && d < |p| && p[d] == '.' as int && p[d..] == Joined(labels)
            && (forall k :: 0 <= k < |pre| ==> p[k] == pre[k])
            && (forall k :: |pre| < k < d ==> p[k] == post[k - |pre| - 1])
  {
    hide AroundStar;
  }

  lemma PatternOfParts(pre: Bytes, post: Bytes, labels: seq<Bytes>)
    requires AroundStar(pre, post) && |labels| >= 2 && AllProper(labels)
    ensures StarPattern(Pattern(pre, post, labels), |pre|)
  {
    hide LabelEnd, Alnum, Dots, Joined, GoodLabels, Proper, Pattern;
    var p, d := Pattern(pre, post, labels), |pre| + 1 + |post|;
    PatternCells(pre, post, labels);
    LegalIsNoDot();
    LabelEndAt(p, 0, d);
    JoinedIsGood(p, d, labels);
    StarOfParts(pre, post, labels);
  }

  lemma StarOfParts(pre: Bytes, post: Bytes, labels: seq<Bytes>)
    requires AroundStar(pre, post) && labels != []
    ensures var p, d := Pattern(pre, post, labels), |pre| + 1 + |post|;
            d <= |p| && StarLabel(p, |pre|, d)
  {
    hide Alnum, Joined, Pattern;
    var p, d := Pattern(pre, post, labels), |pre| + 1 + |post|;
    PatternCells(pre, post, labels);
    LegalIsNoDot();
    assert !IdnaAt(p, 0) by {
      IdnaIsAlike(p, 0);
      assert |pre| >= 4 ==> p[..4] == pre[..4];
    }
  }

  // ----- What such a pattern accepts -----

  lemma SameIsAllAlike(a: Bytes, b: Bytes)
    ensures Same(a, b) <==> AllAlike(a, b)
  {
    SameIsAlike(a, b);
  }

  /** What may stand for the star: legal characters, or one star. */
  ghost predicate Fills(m: Bytes) {
    m == ['*' as int] || AllLegal(m)
  }

  /** `s` is the pattern with its star filled in: from `|pre|` to `n`. A star that is a whole label
      stands for at least one character, any other is not part of an IDNA label. */
  ghost predicate FillsIn(pre: Bytes, post: Bytes, labels: seq<Bytes>, s: Bytes, n: int) {
    && |pre| <= n && n + |post| + |Joined(labels)| == |s|
    && AllAlike(pre, s[..|pre|]) && AllAlike(post, s[n..n + |post|]) && AllAlike(Joined(labels), s[n + |post|..])
    && Fills(s[|pre|..n])
    && if pre == [] && post == [] then n > 0 else !BeginsIdna(s)
  }

  /** A wildcard pattern with at least two labels behind the one with the star accepts exactly the
      subjects that fill in the star. */
  lemma WildcardAccepts(pre: Bytes, post: Bytes, labels: seq<Bytes>, s: Bytes)
    requires AroundStar(pre, post) && |labels| >= 2 && AllProper(labels)
    ensures Accepts(Pattern(pre, post, labels), s) <==>
            FillsIn(pre, post, labels, s, |s| - |post| - |Joined(labels)|)
  {
    hide StarPattern, Matches, AroundStar, AllProper, Pattern, Joined, FillsIn, LabelsMatch, Same;
    var p, k := Pattern(pre, post, labels), |pre|;
    PatternOfParts(pre, post, labels);
    AcceptsPatterns(p);
    MatchesByLabels(p, k, s);
    PatternCells(pre, post, labels);
    MatchesFillIn(pre, post, labels, s);
    if |s| > 1 && s[0] == '.' as int {
      DotDoesNotFillIn(pre, post, labels, s);
    }
  }

  lemma MatchesFillIn(pre: Bytes, post: Bytes, labels: seq<Bytes>, s: Bytes)
    requires AroundStar(pre, post) && |labels| >= 2 && AllProper(labels)
    ensures Matches(pre, post + Joined(labels), s) <==>
            FillsIn(pre, post, labels, s, |s| - |post| - |Joined(labels)|)
  {
    hide Same, NulFree, Covered, Fills, AllAlike, Joined, AllProper, Proper, AllLegal, Alnum;
    var suffix, n := post + Joined(labels), |s| - |post| - |Joined(labels)|;
    PartsNulFree(pre, post, labels);
    SuffixBegins(pre, post, labels);
    if |pre| <= n {
      SameIsAllAlike(pre, s[..|pre|]);
      SameIsAllAlike(post, s[n..n + |post|]);
      SameIsAllAlike(Joined(labels), s[n + |post|..]);
      SuffixSplits(post, Joined(labels), s, n);
      CoveredIsFills(s[|pre|..n]);
      IdnaBegins(s);
      if Same(suffix, s[n..]) {
        SameIsNulFree(suffix, s[n..]);
      }
    }
  }

  lemma SuffixBegins(pre: Bytes, post: Bytes, labels: seq<Bytes>)
    requires AroundStar(pre, post) && labels != []
    ensures Joined(labels) != []
    ensures post == [] <==> (post + Joined(labels))[0] == '.' as int
  {
    LegalIsNoDot();
  }

  lemma SuffixSplits(post: Bytes, joined: Bytes, s: Bytes, n: nat)
    requires n + |post| + |joined| == |s|
    ensures Same(post + joined, s[n..]) <==> Same(post, s[n..n + |post|]) && Same(joined, s[n + |post|..])
  {
    hide Same;
    SameParts(post + joined, s[n..], |post|);
    assert (post + joined)[..|post|] == post && (post + joined)[|post|..] == joined;
    assert s[n..][..|post|] == s[n..n + |post|] && s[n..][|post|..] == s[n + |post|..];
  }

  lemma CoveredIsFills(m: Bytes)
    ensures Covered(m) <==> Fills(m)
  {
  }

  lemma IdnaBegins(s: Bytes)
    ensures IdnaAt(s, 0) <==> BeginsIdna(s)
  {
    IdnaIsAlike(s, 0);
  }

  lemma {:induction false} JoinedNulFree(labels: seq<Bytes>)
    requires AllProper(labels)
    ensures NulFree(Joined(labels))
  {
    LegalIsNoDot();
    if labels != [] {
      assert Proper(labels[0]);
      JoinedNulFree(labels[1..]);
    }
  }

  lemma PartsNulFree(pre: Bytes, post: Bytes, labels: seq<Bytes>)
    requires AroundStar(pre, post) && AllProper(labels)
    ensures NulFree(pre) && NulFree(post + Joined(labels)) && NulFree(Pattern(pre, post, labels))
  {
    hide Joined, AllProper;
    LegalIsNoDot();
    JoinedNulFree(labels);
  }

  lemma NotAlikeDot(a: Bytes, b: Bytes)
    requires a != [] && (Legal(a[0]) || a[0] == '*' as int) && b != [] && b[0] == '.' as int
    ensures !AllAlike(a, b)
  {
  }

  lemma DotDoesNotFill(m: Bytes)
    requires m != [] && m[0] == '.' as int
    ensures !Fills(m)
  {
    LegalIsNoDot();
  }

  /** A subject that begins with a dot is not accepted. */
  lemma DotDoesNotFillIn(pre: Bytes, post: Bytes, labels: seq<Bytes>, s: Bytes)
    requires AroundStar(pre, post) && |labels| >= 2 && |s| > 1 && s[0] == '.' as int
    ensures !FillsIn(pre, post, labels, s, |s| - |post| - |Joined(labels)|)
    ensures !Same(Pattern(pre, post, labels), s)
  {
    hide Joined, AllAlike, Fills, BeginsIdna, Same, Alnum;
    var n := |s| - |post| - |Joined(labels)|;
    SameIsAllAlike(Pattern(pre, post, labels), s);
    NotAlikeDot(Pattern(pre, post, labels), s);
    if |pre| <= n {
      if pre != [] {
        NotAlikeDot(pre, s[..|pre|]);
      } else if n > 0 {
        DotDoesNotFill(s[..n]);
      } else if post != [] {
        NotAlikeDot(post, s[..|post|]);
      }
    }
  }

  // ----- Other patterns -----

  /** A pattern without a star accepts only itself, in whatever case. */
  lemma NoStarAcceptsItself(p: Bytes, s: Bytes)
    requires forall k :: 0 <= k < |p| ==> p[k] != '*' as int
    ensures Accepts(p, s) <==> AllAlike(p, s) && forall k :: 0 <= k < |p| ==> p[k] != 0
  {
    SameIsAllAlike(p, s);
    forall k: nat ensures !StarPattern(p, k) {
    }
  }

  /** With only one label behind the star there is no wildcard. */
  lemma TopLevelStarAcceptsItself(pre: Bytes, post: Bytes, l: Bytes, s: Bytes)
    requires AroundStar(pre, post) && Proper(l)
    ensures var p := Pattern(pre, post, [l]); Accepts(p, s) <==> AllAlike(p, s)
  {
    hide LabelEnd, Alnum, Dots, Joined, GoodLabels, Proper, Pattern, AllAlike, Same, NulFree, StarLabel;
    var p, d := Pattern(pre, post, [l]), |pre| + 1 + |post|;
    PartsNulFree(pre, post, [l]);
    PatternCells(pre, post, [l]);
    LegalIsNoDot();
    LabelEndAt(p, 0, d);
    JoinedIsGood(p, d, [l]);
    SameIsAllAlike(p, s);
  }
}
