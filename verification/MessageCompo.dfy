/** A protocol message into prefix, command and parameters (src/irc.c, section 2.3.1 of RFC 2812),
    with the IRCv3 tags that may stand in front of it (src/messagetags.c). */
module MessageCompo {
  import opened Wrappers
  import opened IrcStream
  import opened IrcReceiver
  import IrcRuns

  datatype Compo = Compo(prefix: Option<string>, command: string, params: Option<string>)

  /** The first space at or behind `i`. */
  function SpaceAt(s: string, i: nat): (k: nat)
    requires i <= |s|
    ensures i <= k <= |s| && (k < |s| ==> s[k] == ' ')
    ensures forall j :: i <= j < k ==> s[j] != ' '
    decreases |s| - i
  {
    if i == |s| || s[i] == ' ' then i else SpaceAt(s, i + 1)
  }

  /** The leading spaces. */
  function Blanks(s: string, i: nat): (k: nat)
    requires i <= |s|
    ensures i <= k <= |s| && (k < |s| ==> s[k] != ' ')
    ensures forall j :: i <= j < k ==> s[j] == ' '
    decreases |s| - i
  {
    if i == |s| || s[i] != ' ' then i else Blanks(s, i + 1)
  }

  /** strFeed: at most `n` spaces become line feeds, from the left. */
  function Fed(s: string, n: nat): (t: string)
    ensures |t| == |s|
    decreases n
  {
    var k := SpaceAt(s, 0);
    if n == 0 || k == |s| then s else Fed(s[k := '\n'], n - 1)
  }

  function Feeds(s: string, n: nat): (f: nat)
    ensures f <= n
    decreases n
  {
    var k := SpaceAt(s, 0);
    if n == 0 || k == |s| then 0 else 1 + Feeds(s[k := '\n'], n - 1)
  }

  /** strstr for the one word that may come without parameters. */
  predicate AwayAt(s: string, i: nat) {
    i + 5 <= |s| && s[i] == '\n' && s[i + 1] == 'A' && s[i + 2] == 'W' && s[i + 3] == 'A' && s[i + 4] == 'Y'
  }

  ghost predicate HasAway(s: string) {
    exists i: nat :: AwayAt(s, i)
  }

  /** The separator of compo_tokenize. */
  const FEED: set<char> := {'\n'}

  /** The token at or behind `pos`, and where strtok_r goes on. */
  function Token(s: string, pos: nat): (r: (Option<string>, nat))
    requires pos <= |s|
    ensures r.1 <= |s|
  {
    Strtok(s, pos, FEED)
  }

  /** The components of a fed message, None when there is no command, or no parameters for any
      command but AWAY. */
  function Tokenized(t: string, hasPrefix: bool): Option<Compo> {
    var (first, p1) := Token(t, 0);
    var (second, p2) := Token(t, p1);
    var (third, _) := Token(t, p2);
    var prefix := if hasPrefix then first else None;
    var command := if hasPrefix then second else first;
    var params := if hasPrefix then third else second;
    if command.None? || (params.None? && command.value != "AWAY") then None
    else Some(Compo(prefix, command.value, params))
  }

  // ----- The tags -----

  const MAX_TAGS: nat := 900
  const VALUE_SIZE: nat := 250

  predicate OccursAt(s: string, t: string, i: nat) {
    i + |t| <= |s| && s[i..i + |t|] == t
  }

  /** strstr: the first `t` at or behind `i`. */
  function StrStr(s: string, t: string, i: nat): (k: nat)
    requires i <= |s| && t != ""
    ensures i <= k <= |s| && (k < |s| ==> OccursAt(s, t, k))
    ensures forall j :: i <= j < k ==> !OccursAt(s, t, j)
    decreases |s| - i
  {
    if i == |s| || OccursAt(s, t, i) then i else StrStr(s, t, i + 1)
  }

  /** The value behind the first `name`, up to a semicolon; none when it is empty or too long. */
  function TagValue(tags: string, name: string): Option<string>
    requires name != ""
  {
    var k := StrStr(tags, name, 0);
    if k == |tags| then None
    else
      var v := k + |name|;
      var e := TokenStop(tags, v, {';'});
      if e == v || e - v >= VALUE_SIZE then None else Some(tags[v..e])
  }

  datatype Tags = Tags(account: Option<string>, batch: Option<string>, srvTime: Option<string>)

  const NO_TAGS := Tags(None, None, None)

  function TagsOf(str: string): Tags {
    Tags(TagValue(str, "account="), TagValue(str, "batch="), TagValue(str, "time="))
  }

  /** Tags that the code goes on with: an account or a time, and no batch. */
  predicate Supported(t: Tags) {
    t.batch.None? && (t.account.Some? || t.srvTime.Some?)
  }

  predicate Tagged(m: string) {
    m != "" && m[0] == '@'
  }

  /** The tags in front of a message, and where they end; None when the message is refused for
      them. */
  function TagsEnd(m: string): (r: Option<(Tags, nat)>)
    ensures r.Some? ==> r.value.1 <= |m|
  {
    var n := SpaceAt(m, 0);
    if !Tagged(m) then Some((NO_TAGS, 0))
    else if n <= MAX_TAGS && Supported(TagsOf(m[..n])) then Some((TagsOf(m[..n]), n))
    else None
  }

  /** The message behind its tags and the spaces there. */
  function Body(m: string): Option<string> {
    match TagsEnd(m)
    case None => None
    case Some((_, n)) => Some(m[Blanks(m, n)..])
  }

  /** The account that the tags name. */
  function Account(m: string): Option<string> {
    match TagsEnd(m)
    case None => None
    case Some((tags, _)) => tags.account
  }

  /** What SortMsgCompo makes of a message. */
  ghost function Sorted(m: string): Option<Compo> {
    match Body(m)
    case None => None
    case Some(s) => Components(s)
  }

  ghost function Components(s: string): Option<Compo> {
    var hasPrefix := s != "" && s[0] == ':';
    var n := if hasPrefix then 2 else 1;
    if Feeds(s, n) != n && !HasAway(Fed(s, n)) then None else Tokenized(Fed(s, n), hasPrefix)
  }

  // ----- What a message is -----

  ghost predicate NoFeed(s: string) {
    forall k :: 0 <= k < |s| ==> s[k] != '\n'
  }

  ghost predicate Word(w: string) {
    w != "" && forall k :: 0 <= k < |w| ==> w[k] != ' ' && w[k] != '\n'
  }

  /** Components that can be written as a message with parameters. */
  ghost predicate WellFormed(c: Compo) {
    && Word(c.command) && c.params.Some? && c.params.value != "" && NoFeed(c.params.value)
    && (if c.prefix.Some? then Word(c.prefix.value) && c.prefix.value[0] == ':' else c.command[0] != ':')
  }

  /** The message text of the components. */
  ghost function Text(c: Compo): string
    requires c.params.Some?
  {
    (if c.prefix.Some? then c.prefix.value + " " else "") + c.command + " " + c.params.value
  }

  lemma {:induction false} SpaceAtIs(s: string, i: nat, k: nat)
    requires i <= k <= |s| && (k < |s| ==> s[k] == ' ') && forall j :: i <= j < k ==> s[j] != ' '
    ensures SpaceAt(s, i) == k
    decreases k - i
  {
    if i < k {
      SpaceAtIs(s, i + 1, k);
    }
  }

  /** A token that starts right at `i` and ends at `k`. */
  lemma TokenIs(s: string, i: nat, k: nat)
    requires i < k <= |s| && (k < |s| ==> s[k] == '\n') && forall j :: i <= j < k ==> s[j] != '\n'
    ensures Token(s, i) == (Some(s[i..k]), if k == |s| then k else k + 1)
  {
    StrtokIs(s, i, i, k, FEED);
  }

  lemma FedAtMost(s: string, n: nat)
    ensures var a := SpaceAt(s, 0);
            if a == |s| then Fed(s, n) == s && Feeds(s, n) == 0
            else n > 0 ==> Fed(s, n) == Fed(s[a := '\n'], n - 1) && Feeds(s, n) == 1 + Feeds(s[a := '\n'], n - 1)
    ensures Fed(s, 0) == s && Feeds(s, 0) == 0
  {
  }

  /** Feeding twice, in terms of the first two spaces. */
  lemma FedTwice(s: string)
    ensures var a := SpaceAt(s, 0);
            if a == |s| then Fed(s, 2) == s && Feeds(s, 2) == 0
            else
              var b := SpaceAt(s, a + 1);
              if b == |s| then Fed(s, 2) == s[a := '\n'] && Feeds(s, 2) == 1
              else Fed(s, 2) == s[a := '\n'][b := '\n'] && Feeds(s, 2) == 2
  {
    hide Fed, Feeds, SpaceAt;
    FedAtMost(s, 2);
    var a := SpaceAt(s, 0);
    if a < |s| {
      SpaceAtIs(s[a := '\n'], 0, SpaceAt(s, a + 1));
      FedOnce(s[a := '\n']);
    }
  }

  lemma FedOnce(s: string)
    ensures var a := SpaceAt(s, 0);
            if a == |s| then Fed(s, 1) == s && Feeds(s, 1) == 0
            else Fed(s, 1) == s[a := '\n'] && Feeds(s, 1) == 1
  {
    hide Fed, Feeds, SpaceAt;
    FedAtMost(s, 1);
    if SpaceAt(s, 0) < |s| {
      FedAtMost(s[SpaceAt(s, 0) := '\n'], 0);
    }
  }

  /** A message with a prefix, cut at its first two spaces `a` and `b`. */
  lemma PrefixedTokens(s: string, a: nat, b: nat)
    requires NoFeed(s) && 0 < a && a + 1 < b < |s| - 1 && SpaceAt(s, 0) == a && SpaceAt(s, a + 1) == b
    ensures Feeds(s, 2) == 2
    ensures Tokenized(Fed(s, 2), true) == Some(Compo(Some(s[..a]), s[a + 1..b], Some(s[b + 1..])))
  {
    hide SpaceAt, Fed, Feeds, Token;
    FedTwice(s);
    var t := Fed(s, 2);
    TokenIs(t, 0, a);
    TokenIs(t, a + 1, b);
    TokenIs(t, b + 1, |t|);
    assert t[0..a] == s[..a] && t[a + 1..b] == s[a + 1..b] && t[b + 1..|t|] == s[b + 1..];
  }

  /** A message without one, cut at its first space `a`. */
  lemma PlainTokens(s: string, a: nat)
    requires NoFeed(s) && 0 < a < |s| - 1 && SpaceAt(s, 0) == a
    ensures Feeds(s, 1) == 1
    ensures Tokenized(Fed(s, 1), false) == Some(Compo(None, s[..a], Some(s[a + 1..])))
  {
    hide SpaceAt, Fed, Feeds, Token;
    FedOnce(s);
    var t := Fed(s, 1);
    TokenIs(t, 0, a);
    TokenIs(t, a + 1, |t|);
    assert t[0..a] == s[..a] && t[a + 1..|t|] == s[a + 1..];
  }

  lemma SkipOne(t: string, b: nat)
    requires b < |t| && t[b] == '\n'
    ensures Token(t, b) == Token(t, b + 1)
  {
  }

  /** AWAY behind `prefix` when the word is `w`, and nothing otherwise. */
  ghost function OnlyAway(prefix: Option<string>, w: string): Option<Compo> {
    if w == "AWAY" then Some(Compo(prefix, w, None)) else None
  }

  lemma TokenOfRest(t: string, pos: nat)
    requires pos <= |t| && forall k :: pos <= k < |t| ==> t[k] != '\n'
    ensures Token(t, pos) == (if pos == |t| then None else Some(t[pos..]), |t|)
    ensures Token(t, |t|) == (None, |t|)
  {
    if pos < |t| {
      TokenIs(t, pos, |t|);
      assert t[pos..|t|] == t[pos..];
    }
  }

  /** A message with a prefix and no word behind its command: without a space, without a second
      one, with two in a row, or with the second at its end. */
  lemma PrefixedWithoutParams(s: string, a: nat, b: nat)
    requires NoFeed(s) && s != "" && s[0] == ':' && SpaceAt(s, 0) == a
    requires a < |s| ==> SpaceAt(s, a + 1) == b
    requires a == |s| || b == |s| || b == a + 1 || b == |s| - 1
    ensures Tokenized(Fed(s, 2), true) ==
            if a == |s| then None
            else OnlyAway(Some(s[..a]), if b == |s| then s[a + 1..] else if b == a + 1 then s[b + 1..] else s[a + 1..b])
    ensures a < |s| && b < |s| ==> Feeds(s, 2) == 2
    ensures a < |s| && b == |s| && s[a + 1..] == "AWAY" ==> HasAway(Fed(s, 2))
  {
    hide SpaceAt, Fed, Feeds, Token, Strtok;
    FedTwice(s);
    var t := Fed(s, 2);
    TokenIs(t, 0, a);
    assert t[0..a] == s[..a];
    if a == |s| {
      TokenOfRest(t, a);
    } else if b == |s| {
      TokenOfRest(t, a + 1);
      assert t[a + 1..] == s[a + 1..];
      AwayBehind(s, t, a);
    } else if b == a + 1 {
      SkipOne(t, b);
      TokenOfRest(t, b + 1);
      assert t[b + 1..] == s[b + 1..];
    } else {
      TokenIs(t, a + 1, b);
      TokenOfRest(t, b + 1);
      assert t[a + 1..b] == s[a + 1..b];
    }
  }

  lemma AwayBehind(s: string, t: string, a: nat)
    requires a < |s| && t == s[a := '\n']
    ensures s[a + 1..] == "AWAY" ==> HasAway(t)
  {
    if s[a + 1..] == "AWAY" {
      assert s[a + 1] == s[a + 1..][0] && s[a + 2] == s[a + 1..][1] && s[a + 3] == s[a + 1..][2] && s[a + 4] == s[a + 1..][3];
      assert AwayAt(t, a);
    }
  }

  /** A message without prefix and without a word behind its command. */
  lemma PlainWithoutParams(s: string, a: nat)
    requires NoFeed(s) && SpaceAt(s, 0) == a && (s != "" ==> s[0] != ' ') && (a == |s| || a == |s| - 1)
    ensures a == |s| ==> Feeds(s, 1) == 0 && !HasAway(Fed(s, 1))
    ensures a < |s| ==> Feeds(s, 1) == 1 && Tokenized(Fed(s, 1), false) == OnlyAway(None, s[..a])
  {
    hide SpaceAt, Fed, Feeds, Token, Strtok;
    FedOnce(s);
    var t := Fed(s, 1);
    if a < |s| {
      TokenIs(t, 0, a);
      TokenOfRest(t, a + 1);
      assert t[0..a] == s[..a];
    }
  }

  /** The words of a message start where the ones before them end. */
  lemma PlainParts(w: string, r: string)
    requires Word(w) && r != "" && NoFeed(r)
    ensures var s := w + " " + r;
            && NoFeed(s) && s[0] == w[0] != ' ' && SpaceAt(s, 0) == |w| < |s| - 1
            && s[..|w|] == w && s[|w| + 1..] == r
  {
    hide SpaceAt;
    var s := w + " " + r;
    assert forall k :: |w| < k < |s| ==> s[k] == r[k - |w| - 1];
    SpaceAtIs(s, 0, |w|);
  }

  lemma PrefixedParts(p: string, w: string, r: string)
    requires Word(p) && Word(w) && r != "" && NoFeed(r)
    ensures var s, a := p + " " + w + " " + r, |p|;
            var b := a + 1 + |w|;
            && NoFeed(s) && s[0] == p[0] != ' ' && SpaceAt(s, 0) == a < |s| - 1
            && a + 1 < b && SpaceAt(s, a + 1) == b < |s| - 1 && s[..a] == p && s[a + 1..b] == w && s[b + 1..] == r
  {
    hide SpaceAt;
    var t := w + " " + r;
    PlainParts(w, r);
    PlainParts(p, t);
    var s, b := p + " " + t, |p| + 1 + |w|;
    assert s == p + " " + w + " " + r;
    assert forall j :: |p| + 1 <= j < |s| ==> s[j] == t[j - |p| - 1];
    assert t[|w|] == ' ';
    SpaceAtIs(s, |p| + 1, b);
    assert s[|p| + 1..][..|w|] == t[..|w|] && s[|p| + 1..][|w| + 1..] == t[|w| + 1..];
  }

  lemma TextParts(c: Compo)
    requires WellFormed(c)
    ensures var s := Text(c);
            var a := if c.prefix.Some? then |c.prefix.value| else |c.command|;
            && NoFeed(s) && s[0] != ' ' && (s[0] == ':' <==> c.prefix.Some?)
            && SpaceAt(s, 0) == a < |s| - 1
            && (c.prefix.Some? ==>
                  var b := a + 1 + |c.command|;
                  && a + 1 < b == SpaceAt(s, a + 1) < |s| - 1
                  && s[..a] == c.prefix.value && s[a + 1..b] == c.command && s[b + 1..] == c.params.value)
            && (c.prefix.None? ==> s[..a] == c.command && s[a + 1..] == c.params.value)
  {
    hide SpaceAt, NoFeed, Word;
    if c.prefix.Some? {
      PrefixedParts(c.prefix.value, c.command, c.params.value);
    } else {
      PlainParts(c.command, c.params.value);
      assert Text(c) == c.command + " " + c.params.value;
    }
  }

  /** The parts of a message put together again are the message. */
  lemma PartsText(s: string, a: nat, b: nat)
    requires NoFeed(s) && 0 < a && a + 1 < b < |s| - 1 && SpaceAt(s, 0) == a && SpaceAt(s, a + 1) == b && s[0] == ':'
    ensures var c := Compo(Some(s[..a]), s[a + 1..b], Some(s[b + 1..]));
            WellFormed(c) && Text(c) == s
  {
    hide SpaceAt;
    assert s[..a] + " " + s[a + 1..b] + " " + s[b + 1..] == s;
  }

  lemma PlainText(s: string, a: nat)
    requires NoFeed(s) && 0 < a < |s| - 1 && SpaceAt(s, 0) == a && s[0] != ':'
    ensures var c := Compo(None, s[..a], Some(s[a + 1..]));
            WellFormed(c) && Text(c) == s
  {
    hide SpaceAt;
    assert "" + s[..a] + " " + s[a + 1..] == s;
  }

  /** A message is split into components with parameters exactly when, behind its tags and the spaces
      there, it is the text of these components: nothing else is accepted, nothing is lost, and the
      split is the only one. */
  lemma SortedExactly(m: string, c: Compo)
    requires NoFeed(m) && c.params.Some?
    ensures Sorted(m) == Some(c) <==> WellFormed(c) && Body(m) == Some(Text(c))
  {
    hide TagsEnd, Components, Text, WellFormed;
    if Body(m).Some? {
      ComponentsExactly(Body(m).value, c);
    }
  }

  lemma ComponentsExactly(s: string, c: Compo)
    requires NoFeed(s) && (s != "" ==> s[0] != ' ') && c.params.Some?
    ensures Components(s) == Some(c) <==> WellFormed(c) && s == Text(c)
  {
    hide SpaceAt, Fed, Feeds, Tokenized, WellFormed, Text, HasAway;
    if WellFormed(c) && s == Text(c) {
      TextParts(c);
      var a := SpaceAt(s, 0);
      if c.prefix.Some? {
        PrefixedTokens(s, a, SpaceAt(s, a + 1));
      } else {
        PlainTokens(s, a);
      }
    }
    if Components(s) == Some(c) {
      SortedHasText(s, c);
    }
  }

  lemma SortedHasText(s: string, c: Compo)
    requires NoFeed(s) && (s != "" ==> s[0] != ' ') && c.params.Some?
    requires Components(s) == Some(c)
    ensures WellFormed(c) && s == Text(c)
  {
    hide SpaceAt, Fed, Feeds, Tokenized, WellFormed, Text, HasAway;
    var a := SpaceAt(s, 0);
    if s != "" && s[0] == ':' {
      var b := if a < |s| then SpaceAt(s, a + 1) else 0;
      if a == |s| || b == |s| || b == a + 1 || b == |s| - 1 {
        PrefixedWithoutParams(s, a, b);
      } else {
        PrefixedTokens(s, a, b);
        PartsText(s, a, b);
      }
    } else if a == |s| || a == |s| - 1 {
      PlainWithoutParams(s, a);
    } else {
      PlainTokens(s, a);
      PlainText(s, a);
    }
  }

  /** The messages without parameters, behind their tags and spaces: AWAY with one space behind the
      prefix, with two, or with one on either side; without a prefix, AWAY with a space behind it. */
  ghost predicate AwayText(c: Compo, s: string) {
    && c.command == "AWAY"
    && match c.prefix
       case None => s == "AWAY "
       case Some(p) => Word(p) && p[0] == ':' && (s == p + " AWAY" || s == p + "  AWAY" || s == p + " AWAY ")
  }

  /** Exactly these messages are accepted without parameters; in particular a plain AWAY is not. */
  lemma SortedWithoutParams(m: string, c: Compo)
    requires NoFeed(m) && c.params.None?
    ensures Sorted(m) == Some(c) <==> Body(m).Some? && AwayText(c, Body(m).value)
  {
    hide TagsEnd, Components, AwayText;
    if Body(m).Some? {
      AwayExactly(Body(m).value, c);
    }
  }

  lemma AwayExactly(s: string, c: Compo)
    requires NoFeed(s) && (s != "" ==> s[0] != ' ') && c.params.None?
    ensures Components(s) == Some(c) <==> AwayText(c, s)
  {
    hide Components, AwayText;
    if AwayText(c, s) {
      AwayIsSplit(s, c);
    }
    if Components(s) == Some(c) {
      SplitIsAway(s, c);
    }
  }

  /** A prefix and what follows it. */
  lemma BehindPrefix(p: string, r: string)
    requires Word(p)
    ensures var s := p + r;
            && s != "" && s[0] == p[0] && s[..|p|] == p && s[|p|..] == r
            && (forall k :: |p| <= k < |s| ==> s[k] == r[k - |p|])
            && (r != "" && r[0] == ' ' ==> SpaceAt(s, 0) == |p|)
  {
    hide SpaceAt;
    if r != "" && r[0] == ' ' {
      SpaceAtIs(p + r, 0, |p|);
    }
  }

  lemma AwayBehindSpace(s: string, p: string)
    requires Word(p) && p[0] == ':' && NoFeed(s) && s == p + " AWAY"
    ensures Components(s) == Some(Compo(Some(p), "AWAY", None))
  {
    hide SpaceAt, Fed, Feeds, Tokenized, HasAway, Word;
    var a := |p|;
    BehindPrefix(p, " AWAY");
    assert s[a + 1..] == "AWAY";
    SpaceAtIs(s, a + 1, |s|);
    PrefixedWithoutParams(s, a, |s|);
  }

  lemma AwayBehindSpaces(s: string, p: string)
    requires Word(p) && p[0] == ':' && NoFeed(s) && s == p + "  AWAY"
    ensures Components(s) == Some(Compo(Some(p), "AWAY", None))
  {
    hide SpaceAt, Fed, Feeds, Tokenized, HasAway, Word;
    var a := |p|;
    BehindPrefix(p, "  AWAY");
    assert s[a + 2..] == "AWAY";
    SpaceAtIs(s, a + 1, a + 1);
    PrefixedWithoutParams(s, a, a + 1);
  }

  lemma AwayBetweenSpaces(s: string, p: string)
    requires Word(p) && p[0] == ':' && NoFeed(s) && s == p + " AWAY "
    ensures Components(s) == Some(Compo(Some(p), "AWAY", None))
  {
    hide SpaceAt, Fed, Feeds, Tokenized, HasAway, Word;
    var a := |p|;
    BehindPrefix(p, " AWAY ");
    assert s[a + 1..a + 5] == "AWAY";
    SpaceAtIs(s, a + 1, a + 5);
    PrefixedWithoutParams(s, a, a + 5);
  }

  lemma AwayIsSplit(s: string, c: Compo)
    requires NoFeed(s) && c.params.None? && AwayText(c, s)
    ensures Components(s) == Some(c)
  {
    hide SpaceAt, Fed, Feeds, Tokenized, HasAway, Word;
    if c.prefix.None? {
      SpaceAtIs(s, 0, 4);
      PlainWithoutParams(s, 4);
      assert s[..4] == "AWAY";
    } else {
      var p := c.prefix.value;
      if s == p + " AWAY" {
        AwayBehindSpace(s, p);
      } else if s == p + "  AWAY" {
        AwayBehindSpaces(s, p);
      } else {
        AwayBetweenSpaces(s, p);
      }
    }
  }

  lemma SplitIsAway(s: string, c: Compo)
    requires NoFeed(s) && (s != "" ==> s[0] != ' ') && c.params.None? && Components(s) == Some(c)
    ensures AwayText(c, s)
  {
    hide SpaceAt, Fed, Feeds, Tokenized, HasAway;
    var a := SpaceAt(s, 0);
    if s != "" && s[0] == ':' {
      var b := if a < |s| then SpaceAt(s, a + 1) else 0;
      if a == |s| || b == |s| || b == a + 1 || b == |s| - 1 {
        PrefixedWithoutParams(s, a, b);
        PrefixedAway(s, a, b);
      } else {
        PrefixedTokens(s, a, b);
      }
    } else if a == |s| || a == |s| - 1 {
      PlainWithoutParams(s, a);
      assert a < |s| ==> s == s[..a] + " ";
    } else {
      PlainTokens(s, a);
    }
  }

  lemma PrefixedAway(s: string, a: nat, b: nat)
    requires NoFeed(s) && s != "" && s[0] == ':' && SpaceAt(s, 0) == a < |s| && SpaceAt(s, a + 1) == b
    ensures Word(s[..a])
    ensures b == |s| && s[a + 1..] == "AWAY" ==> s == s[..a] + " AWAY"
    ensures b == a + 1 < |s| && s[b + 1..] == "AWAY" ==> s == s[..a] + "  AWAY"
    ensures a + 1 < b == |s| - 1 && s[a + 1..b] == "AWAY" ==> s == s[..a] + " AWAY "
  {
    hide SpaceAt;
    assert s == s[..a] + " " + s[a + 1..];
    if b == a + 1 < |s| && s[b + 1..] == "AWAY" {
      assert s == s[..a] + "  " + s[b + 1..];
      assert "  " + "AWAY" == "  AWAY";
    }
    if a + 1 < b == |s| - 1 && s[a + 1..b] == "AWAY" {
      assert s == s[..a] + " " + s[a + 1..b] + " ";
    }
  }

  // ----- Messages with tags -----

  /** A value that a tag can hold. */
  ghost predicate Value(v: string) {
    0 < |v| < VALUE_SIZE && forall k :: 0 <= k < |v| ==> v[k] != ' ' && v[k] != ';' && v[k] != '='
  }

  lemma OccursEnds(s: string, t: string, i: nat)
    requires t != ""
    ensures OccursAt(s, t, i) ==> s[i] == t[0] && s[i + |t| - 1] == t[|t| - 1]
  {
    if OccursAt(s, t, i) {
      assert s[i..i + |t|][|t| - 1] == s[i + |t| - 1] && s[i..i + |t|][0] == s[i];
    }
  }

  /** Where strstr stops, for a name that ends in an equals sign. */
  lemma {:induction false} StrStrIs(s: string, t: string, i: nat, k: nat)
    requires t != "" && t[|t| - 1] == '=' && i <= k <= |s| && (k < |s| ==> OccursAt(s, t, k))
    requires forall j :: i <= j < k && j + |t| <= |s| && s[j + |t| - 1] == '=' ==> s[j] != t[0]
    ensures StrStr(s, t, i) == k
    decreases k - i
  {
    if i < k {
      OccursEnds(s, t, i);
      StrStrIs(s, t, i + 1, k);
    }
  }

  lemma {:induction false} ValueEnds(s: string, i: nat, k: nat)
    requires i <= k <= |s| && (k < |s| ==> s[k] == ';') && forall j :: i <= j < k ==> s[j] != ';'
    ensures TokenStop(s, i, {';'}) == k
    decreases k - i
  {
    if i < k {
      ValueEnds(s, i + 1, k);
    }
  }

  /** The tags that a server with accounts and times sends. */
  ghost function AccountAndTime(a: string, t: string): string {
    "@account=" + a + ";time=" + t
  }

  /** The two equals signs are the only ones. */
  lemma EqualsSigns(a: string, t: string)
    requires Value(a) && Value(t)
    ensures var s, n := AccountAndTime(a, t), |a| + 9;
            && |s| == n + 6 + |t| && s[1..9] == "account=" && s[n + 1..n + 6] == "time="
            && s[0] == '@' && s[3] == 'c' && s[4] == 'o' && s[n] == ';' && s[9..n] == a && s[n + 6..] == t
            && (forall k :: 0 <= k < |s| && s[k] == '=' ==> k == 8 || k == n + 5)
            && (forall k :: 9 <= k < |s| && s[k] == ';' ==> k == n)
            && (forall k :: 0 <= k < |s| ==> s[k] != ' ')
  {
    var s, n := AccountAndTime(a, t), |a| + 9;
    forall k | 0 <= k < |s|
      ensures s[k] != ' ' && (s[k] == '=' ==> k == 8 || k == n + 5) && (9 <= k && s[k] == ';' ==> k == n)
    {
      if 9 <= k < n {
        assert s[k] == a[k - 9];
      } else if n + 6 <= k {
        assert s[k] == t[k - n - 6];
      }
    }
  }

  /** Both values are read back, and the tags are supported. */
  lemma TagsRead(a: string, t: string)
    requires Value(a) && Value(t)
    ensures TagsOf(AccountAndTime(a, t)) == Tags(Some(a), None, Some(t))
    ensures Supported(TagsOf(AccountAndTime(a, t)))
    ensures Tagged(AccountAndTime(a, t)) && SpaceAt(AccountAndTime(a, t), 0) == |AccountAndTime(a, t)| <= MAX_TAGS
  {
    hide TokenStop, StrStr, SpaceAt, AccountAndTime;
    var s, n := AccountAndTime(a, t), |a| + 9;
    EqualsSigns(a, t);
    SpaceAtIs(s, 0, |s|);
    StrStrIs(s, "account=", 0, 1);
    ValueEnds(s, 9, n);
    StrStrIs(s, "time=", 0, n + 1);
    ValueEnds(s, n + 6, |s|);
    StrStrIs(s, "batch=", 0, |s|);
    assert s[n + 6..|s|] == t;
  }

  /** One tag alone. */
  lemma OneTag(name: string, v: string)
    requires Value(v) && (name == "account=" || name == "time=")
    ensures var s := "@" + name + v;
            && TagsOf(s) == (if name == "account=" then Tags(Some(v), None, None) else Tags(None, None, Some(v)))
            && s[0] == '@' && SpaceAt(s, 0) == |s| <= MAX_TAGS
  {
    hide TokenStop, StrStr, SpaceAt, Value;
    var s, n := "@" + name + v, |name|;
    OneTagCells(name, v);
    SpaceAtIs(s, 0, |s|);
    ValueEnds(s, n + 1, |s|);
    StrStrIs(s, "account=", 0, if name == "account=" then 1 else |s|);
    StrStrIs(s, "time=", 0, if name == "time=" then 1 else |s|);
    StrStrIs(s, "batch=", 0, |s|);
  }

  lemma OneTagCells(name: string, v: string)
    requires Value(v) && (name == "account=" || name == "time=")
    ensures var s, n := "@" + name + v, |name|;
            && |s| == n + 1 + |v| && 0 < |v| < VALUE_SIZE
            && s[0] == '@' && s[1..n + 1] == name && s[n + 1..|s|] == v && s[n] == '='
            && forall k :: 0 <= k < |s| ==> s[k] != ' ' && (s[k] == '=' ==> k == n) && (n < k ==> s[k] != ';')
  {
    var s, n := "@" + name + v, |name|;
    forall k | 0 <= k < |s| ensures s[k] != ' ' && (s[k] == '=' ==> k == n) && (n < k ==> s[k] != ';') {
      assert s[k] == if k == 0 then '@' else if k <= n then name[k - 1] else v[k - n - 1];
    }
  }

  /** Where the tags of a message end that stand in front of a space. */
  lemma TagsInFront(tags: string, rest: string)
    requires tags != "" && tags[0] == '@' && SpaceAt(tags, 0) == |tags|
    ensures var m := tags + " " + rest;
            m[0] == '@' && SpaceAt(m, 0) == |tags| && m[..|tags|] == tags && m[|tags|] == ' ' && m[|tags| + 1..] == rest
  {
    hide SpaceAt;
    var m, n := tags + " " + rest, |tags|;
    SpaceAtIs(m, 0, n);
  }

  /** A message with an account, with a time, or with both arrives with the components behind its tags,
      and with the account if there is one. */
  lemma TaggedMessages(c: Compo, a: string, t: string)
    requires WellFormed(c) && Value(a) && Value(t)
    ensures var m := "@account=" + a + " " + Text(c);
            Sorted(m) == Some(c) && Account(m) == Some(a)
    ensures var m := "@time=" + t + " " + Text(c);
            Sorted(m) == Some(c) && Account(m) == None
    ensures var m := "@account=" + a + ";time=" + t + " " + Text(c);
            Sorted(m) == Some(c) && Account(m) == Some(a)
  {
    hide TagsOf, SpaceAt, Text, Value, WellFormed, Sorted, Account;
    OneTag("account=", a);
    OneTag("time=", t);
    TagsRead(a, t);
    assert "@" + "account=" + a == "@account=" + a && "@" + "time=" + t == "@time=" + t;
    assert AccountAndTime(a, t) == "@account=" + a + ";time=" + t;
    TaggedIsSorted("@account=" + a, c);
    TaggedIsSorted("@time=" + t, c);
    TaggedIsSorted("@account=" + a + ";time=" + t, c);
  }

  lemma TaggedIsSorted(tags: string, c: Compo)
    requires WellFormed(c) && tags != "" && tags[0] == '@' && SpaceAt(tags, 0) == |tags| <= MAX_TAGS
    requires TagsOf(tags).batch.None? && (TagsOf(tags).account.Some? || TagsOf(tags).srvTime.Some?)
    ensures Sorted(tags + " " + Text(c)) == Some(c) && Account(tags + " " + Text(c)) == TagsOf(tags).account
  {
    hide TagsOf, SpaceAt, Text, Components;
    var m := tags + " " + Text(c);
    TextStarts(c);
    TagsInFront(tags, Text(c));
    assert m[|tags| + 1] == m[|tags| + 1..][0];
    BlanksEnd(m, |tags|, |tags| + 1);
    ComponentsExactly(Text(c), c);
  }

  /** The first `name` in the tags has a value that is not empty and not too long. */
  ghost predicate HasTag(tags: string, name: string) {
    exists k: nat, e: nat :: TagAt(tags, name, k, e)
  }

  /** It stands at `k`, and its value goes on to `e`. */
  ghost predicate TagAt(tags: string, name: string, k: nat, e: nat) {
    var v := k + |name|;
    && v < e <= |tags| && e - v < 250
    && tags[k..v] == name && (forall j :: 0 <= j < k ==> !OccursAt(tags, name, j))
    && (forall j :: v <= j < e ==> tags[j] != ';') && (e < |tags| ==> tags[e] == ';')
  }

  lemma HasTagExactly(tags: string, name: string)
    requires name != ""
    ensures HasTag(tags, name) <==> TagValue(tags, name).Some?
  {
    hide StrStr, TokenStop, TagAt, OccursAt;
    var k := StrStr(tags, name, 0);
    if k < |tags| {
      TagIsFound(tags, name);
    }
    if i: nat, e: nat :| TagAt(tags, name, i, e) {
      TagFoundAt(tags, name, i, e);
    }
  }

  lemma TagIsFound(tags: string, name: string)
    requires name != "" && StrStr(tags, name, 0) < |tags|
    ensures var k := StrStr(tags, name, 0);
            && OccursAt(tags, name, k)
            && var e := TokenStop(tags, k + |name|, {';'});
               k + |name| < e && e - (k + |name|) < 250 ==> TagAt(tags, name, k, e)
  {
    hide StrStr, TokenStop;
  }

  lemma TagFoundAt(tags: string, name: string, k: nat, e: nat)
    requires name != "" && TagAt(tags, name, k, e)
    ensures StrStr(tags, name, 0) == k < |tags| && TokenStop(tags, k + |name|, {';'}) == e
    ensures k + |name| < e && e - (k + |name|) < 250
  {
    hide StrStr, TokenStop;
    assert OccursAt(tags, name, k);
  }

  /** Which tagged messages are refused for their tags: exactly those with more than 900 bytes of tags,
      with a batch, or with neither an account nor a time. */
  lemma RefusedExactly(tags: string, rest: string)
    requires tags != "" && tags[0] == '@' && forall k :: 0 <= k < |tags| ==> tags[k] != ' '
    ensures Body(tags + " " + rest).None? <==>
            |tags| > 900 || HasTag(tags, "batch=") || !(HasTag(tags, "account=") || HasTag(tags, "time="))
    ensures Body(tags + " " + rest).None? ==> Sorted(tags + " " + rest) == None
  {
    hide SpaceAt, TagValue, HasTag;
    SpaceAtIs(tags, 0, |tags|);
    TagsInFront(tags, rest);
    HasTagExactly(tags, "account=");
    HasTagExactly(tags, "batch=");
    HasTagExactly(tags, "time=");
  }

  /** A message as it is sent: its tags, if any, and its components. */
  datatype Sent = Sent(tags: string, compo: Compo)

  ghost predicate Sendable(x: Sent) {
    && WellFormed(x.compo) && NoSeparator(Text(x.compo)) && NoSeparator(x.tags)
    && (if x.tags == "" then Text(x.compo)[0] != '@'
        else Tagged(x.tags) && SpaceAt(x.tags, 0) == |x.tags| <= MAX_TAGS && Supported(TagsOf(x.tags)))
  }

  ghost function SentText(x: Sent): string
    requires x.compo.params.Some?
  {
    if x.tags == "" then Text(x.compo) else x.tags + " " + Text(x.compo)
  }

  /** A message to a channel, bare and as a server sends it for a sender who is not logged in. */
  lemma PrivmsgIsSorted()
    ensures var text, time := ":a!b@c PRIVMSG #d :hi", "2024-01-01T00:00:00.000Z";
            var c := Compo(Some(":a!b@c"), "PRIVMSG", Some("#d :hi"));
            && Sorted(text) == Some(c) && Account(text) == None
            && Sorted("@time=" + time + " " + text) == Some(c) && Account("@time=" + time + " " + text) == None
  {
    hide Sorted, Account, TagsOf, Text, WellFormed, Value;
    var text, time := ":a!b@c PRIVMSG #d :hi", "2024-01-01T00:00:00.000Z";
    var c := Compo(Some(":a!b@c"), "PRIVMSG", Some("#d :hi"));
    PrivmsgText();
    ValuesOfPrivmsg();
    SentIsSorted(Sent("", c));
    TaggedMessages(c, "a", time);
  }

  lemma PrivmsgText()
    ensures var c := Compo(Some(":a!b@c"), "PRIVMSG", Some("#d :hi"));
            WellFormed(c) && Text(c) == ":a!b@c PRIVMSG #d :hi" && NoSeparator(Text(c)) && Text(c)[0] == ':'
  {
    var c := Compo(Some(":a!b@c"), "PRIVMSG", Some("#d :hi"));
    assert ":a!b@c" + " " + "PRIVMSG" == ":a!b@c PRIVMSG";
    assert ":a!b@c PRIVMSG" + " " + "#d :hi" == ":a!b@c PRIVMSG #d :hi";
  }

  lemma ValuesOfPrivmsg()
    ensures Value("a") && Value("2024-01-01T00:00:00.000Z")
  {
  }

  /** The tags end at the first space, and the message behind them is what was sent. */
  lemma SentIsSorted(x: Sent)
    requires Sendable(x)
    ensures IrcRuns.IsMessage(SentText(x))
    ensures Sorted(SentText(x)) == Some(x.compo)
    ensures Account(SentText(x)) == if x.tags == "" then None else TagsOf(x.tags).account
  {
    hide SpaceAt, Blanks, TagsOf, Components, Text;
    var t, m := Text(x.compo), SentText(x);
    TextStarts(x.compo);
    if x.tags == "" {
      BlanksEnd(m, 0, 0);
      assert m[0..] == t;
    } else {
      TaggedIsSorted(x.tags, x.compo);
    }
    ComponentsExactly(t, x.compo);
  }

  lemma TextStarts(c: Compo)
    requires WellFormed(c)
    ensures Text(c) != "" && Text(c)[0] != ' ' && NoFeed(Text(c))
  {
    hide SpaceAt;
    TextParts(c);
  }

  lemma {:induction false} BlanksEnd(s: string, i: nat, k: nat)
    requires i <= k < |s| && s[k] != ' ' && forall j :: i <= j < k ==> s[j] == ' '
    ensures Blanks(s, i) == k
    decreases k - i
  {
    if i < k {
      BlanksEnd(s, i + 1, k);
    }
  }

  /** From the socket to the components: whatever well-formed messages the server sends, with tags
      that the code supports or without, each with CR LF behind it, and however the stream is cut
      into chunks that the receiver can handle, the messages it processes are split into exactly
      the components sent, in order, and each account is the one in the tags. */
  lemma ComponentsArrive(sent: seq<Sent>, messages: seq<string>, chunks: seq<string>)
    requires |messages| == |sent|
    requires forall k :: 0 <= k < |sent| ==> Sendable(sent[k]) && messages[k] == SentText(sent[k])
    requires IrcRuns.Concat(chunks) == IrcRuns.Wire(messages)
    requires forall chunk :: chunk in chunks ==> LastLf(chunk) >= 0 && Stream(chunk).tail !in Stream(chunk).messages
    ensures IrcRuns.Run(None, chunks).messages == messages
    ensures forall k :: 0 <= k < |sent| ==> Sorted(messages[k]) == Some(sent[k].compo)
    ensures forall k :: 0 <= k < |sent| && sent[k].tags != "" ==> Account(messages[k]) == TagsOf(sent[k].tags).account
  {
    hide Sorted, SentText, Stream, LastLf, Account, TagsOf, SpaceAt, Text, WellFormed;
    forall k | 0 <= k < |sent|
      ensures IrcRuns.IsMessage(messages[k]) && Sorted(messages[k]) == Some(sent[k].compo)
      ensures sent[k].tags != "" ==> Account(messages[k]) == TagsOf(sent[k].tags).account
    {
      SentIsSorted(sent[k]);
    }
    IrcRuns.MessagesArrive(messages, chunks);
  }

  // ----- The methods -----

  /** strFeed */
  method StrFeed(buf: array<char>, count: nat, ghost s: string) returns (written: nat)
    requires NulFree(s) && Unread(buf, s, 0)
    modifies buf
    ensures written == Feeds(s, count)
    ensures NulFree(Fed(s, count)) && Unread(buf, Fed(s, count), 0)
  {
    written := 0;
    ghost var now := s;
    while written < count
      invariant written <= count && NulFree(now) && Unread(buf, now, 0)
      invariant Feeds(s, count) == written + Feeds(now, count - written)
      invariant Fed(s, count) == Fed(now, count - written)
    {
      var p := StrChr(buf, now);
      if buf[p] == '\0' {
        return;
      }
      buf[p] := '\n';
      now := now[p := '\n'];
      written := written + 1;
    }
  }

  /** strchr for a space. */
  method StrChr(buf: array<char>, ghost s: string) returns (p: nat)
    requires NulFree(s) && Unread(buf, s, 0)
    ensures p == SpaceAt(s, 0)
  {
    p := 0;
    while buf[p] != '\0' && buf[p] != ' '
      invariant p <= |s| && SpaceAt(s, p) == SpaceAt(s, 0)
      decreases |s| - p
    {
      p := p + 1;
    }
  }

  /** strstr for "\nAWAY". */
  method FindAway(buf: array<char>, ghost t: string) returns (found: bool)
    requires NulFree(t) && Unread(buf, t, 0)
    ensures found <==> HasAway(t)
  {
    var i := 0;
    while buf[i] != '\0'
      invariant i <= |t| && forall k: nat :: k < i ==> !AwayAt(t, k)
      decreases |t| - i
    {
      if buf[i] == '\n' && buf[i + 1] == 'A' && buf[i + 2] == 'W' && buf[i + 3] == 'A' && buf[i + 4] == 'Y' {
        assert AwayAt(t, i);
        return true;
      }
      i := i + 1;
    }
    found := false;
  }

  /** compo_tokenize, and the check behind it. */
  method CompoTokenize(buf: array<char>, hasPrefix: bool, ghost t: string) returns (c: Option<Compo>)
    requires NulFree(t) && Unread(buf, t, 0)
    modifies buf
    ensures c == Tokenized(t, hasPrefix)
  {
    var prefix, command, params: Option<string> := None, None, None;
    var loopRun, pos := 0, 0;
    ghost var p1, p2 := Token(t, 0).1, Token(t, Token(t, 0).1).1;
    while true
      invariant 0 <= loopRun <= 2 && Unread(buf, t, pos)
      invariant pos == if loopRun == 0 then 0 else if loopRun == 1 then p1 else p2
      invariant loopRun > 0 ==> Token(t, 0).0.Some?
      invariant loopRun > 1 ==> Token(t, p1).0.Some? && hasPrefix
      invariant prefix == if hasPrefix && loopRun > 0 then Token(t, 0).0 else None
      invariant command == if hasPrefix then (if loopRun > 1 then Token(t, p1).0 else None)
                           else if loopRun > 0 then Token(t, 0).0 else None
      invariant params == None
      decreases 3 - loopRun
    {
      var token;
      token, pos := StrtokR(buf, pos, FEED, t);
      if token.None? {
        break;
      }
      if loopRun == 0 {
        if hasPrefix { prefix := token; } else { command := token; }
      } else if loopRun == 1 {
        if hasPrefix { command := token; } else { params := token; }
      } else {
        params := token;
      }
      if command.Some? && params.Some? {
        break;
      }
      loopRun := loopRun + 1;
    }
    if command.None? || (params.None? && command.value != "AWAY") {
      return None;
    }
    c := Some(Compo(prefix, command.value, params));
  }

  /** strstr */
  method FindIn(str: string, name: string) returns (k: nat)
    requires name != ""
    ensures k == StrStr(str, name, 0)
  {
    k := 0;
    while k < |str| && !OccursAt(str, name, k)
      invariant k <= |str| && StrStr(str, name, k) == StrStr(str, name, 0)
    {
      k := k + 1;
    }
  }

  /** The body of the loop of msgtags_get. */
  method GetTag(str: string, name: string) returns (value: Option<string>)
    requires name != ""
    ensures value == TagValue(str, name)
  {
    var cp := FindIn(str, name);
    if cp == |str| {
      return None;
    }
    cp := cp + |name|;
    var num := 0;
    while cp + num < |str| && str[cp + num] != ';'
      invariant 0 <= num && cp + num <= |str| && TokenStop(str, cp + num, {';'}) == TokenStop(str, cp, {';'})
      decreases |str| - num
    {
      num := num + 1;
    }
    if num == 0 || num >= VALUE_SIZE {
      return None;
    }
    value := Some(str[cp..cp + num]);
  }

  /** msgtags_get */
  method MsgtagsGet(str: string) returns (tags: Tags)
    ensures tags == TagsOf(str)
  {
    hide TagValue;
    var tagList := ["account=", "batch=", "time="];
    tags := NO_TAGS;
    var i := 0;
    while i < |tagList|
      invariant 0 <= i <= |tagList|
      invariant tags.account == if i > 0 then TagValue(str, "account=") else None
      invariant tags.batch == if i > 1 then TagValue(str, "batch=") else None
      invariant tags.srvTime == if i > 2 then TagValue(str, "time=") else None
    {
      var value := GetTag(str, tagList[i]);
      if tagList[i] == "account=" {
        tags := tags.(account := value);
      } else if tagList[i] == "batch=" {
        tags := tags.(batch := value);
      } else {
        tags := tags.(srvTime := value);
      }
      i := i + 1;
    }
  }

  /** handle_extension, for a message that begins with tags; None when it is refused. */
  method HandleExtension(m: string) returns (r: Option<(Tags, nat)>)
    requires Tagged(m)
    ensures r == TagsEnd(m)
  {
    hide TagsOf;
    var bytes := 0;
    while bytes < |m| && m[bytes] != ' '
      invariant 0 <= bytes <= |m| && SpaceAt(m, bytes) == SpaceAt(m, 0)
    {
      bytes := bytes + 1;
    }
    if bytes > MAX_TAGS {
      return None;
    }
    var tags := MsgtagsGet(m[..bytes]);
    if tags.account.None? && tags.batch.None? && tags.srvTime.None? {
      return None;
    } else if tags.batch.Some? {
      return None;
    }
    r := Some((tags, bytes));
  }

  /** SortMsgCompo; `account` is the one the tags name. */
  method SortMsgCompo(m: string) returns (c: Option<Compo>, account: Option<string>)
    requires NulFree(m)
    ensures c == Sorted(m) && account == Account(m)
  {
    hide Tokenized, HasAway, TagsEnd, Fed, Feeds;
    var bytes := 0;
    account := None;
    if Tagged(m) {
      var tags := HandleExtension(m);
      if tags.None? {
        return None, None;
      }
      bytes, account := tags.value.1, tags.value.0.account;
    } else {
      UntaggedEnd(m);
    }
    c := SplitBody(m, bytes);
  }

  lemma UntaggedEnd(m: string)
    requires !Tagged(m)
    ensures TagsEnd(m) == Some((NO_TAGS, 0))
  {
  }

  /** The rest of SortMsgCompo, behind the tags. */
  method SplitBody(m: string, bytes: nat) returns (c: Option<Compo>)
    requires NulFree(m) && bytes <= |m|
    ensures c == Components(m[Blanks(m, bytes)..])
  {
    hide Tokenized, HasAway;
    var cp := bytes;
    while cp < |m| && m[cp] == ' '
      invariant bytes <= cp <= |m| && Blanks(m, cp) == Blanks(m, bytes)
    {
      cp := cp + 1;
    }
    var hasPrefix := cp < |m| && m[cp] == ':';
    var requestedFeeds := if hasPrefix then 2 else 1;
    ghost var s := m[cp..];
    var remainingData := new char[|m| - cp + 1](i requires 0 <= i <= |m| - cp => if i < |m| - cp then m[cp + i] else '\0');
    var written := StrFeed(remainingData, requestedFeeds, s);
    var away := FindAway(remainingData, Fed(s, requestedFeeds));
    if written != requestedFeeds && !away {
      return None;
    }
    c := CompoTokenize(remainingData, hasPrefix, Fed(s, requestedFeeds));
  }
}
