/** Saving the settings and reading them back (src/config.cpp, src/interpreter.cpp): which values
    survive. */
module ConfigSave {
  import opened Wrappers
  import opened ConfigTable
  import opened ConfigFile
  import Chains

  // ----- Writing -----

  function Tabs(n: nat): (s: string)
    ensures |s| == n && forall k :: 0 <= k < n ==> s[k] == '\t'
  {
    seq(n, i => '\t')
  }

  /** The line that write_setting emits, without its line feed. */
  function Written(name: string, value: string, count: nat): string {
    name + Tabs(count) + "= \"" + value + "\";"
  }

  /** A written line, piece by piece. */
  lemma WrittenPieces(name: string, value: string, count: nat)
    ensures var l, n, v := Written(name, value, count), |name| + count, |name| + count + 3 + |value|;
            && |l| == v + 2 && l[..|name|] == name && (forall k :: |name| <= k < n ==> l[k] == '\t')
            && l[n] == '=' && l[n + 1] == ' ' && l[n + 2] == '"' && l[n + 3..v] == value
            && l[v] == '"' && l[v + 1] == ';'
  {
  }

  /** write_setting */
  method WriteSetting(stream: string, name: string, value: string, count: nat) returns (stream': string)
    ensures stream' == stream + (Written(name, value, count) + "\n")
  {
    stream' := stream + name;
    var si := 0;
    while si < count
      invariant 0 <= si <= count && stream' == stream + (name + Tabs(si))
    {
      assert Tabs(si + 1) == Tabs(si) + "\t";
      stream' := stream' + "\t";
      si := si + 1;
    }
    stream' := stream' + ("= \"" + value + "\";\n");
    assert "= \"" + value + "\";\n" == "= \"" + value + "\";" + "\n";
  }

  function Get(m: map<string, string>, name: string): string {
    if name in m then m[name] else ""
  }

  /** The lines of the settings from the `k`-th on. */
  function Saved(defs: seq<Default>, m: map<string, string>, k: nat): string
    requires k <= |defs|
    decreases |defs| - k
  {
    if k == |defs| then ""
    else Written(defs[k].name, Get(m, defs[k].name), defs[k].padding) + "\n" + Saved(defs, m, k + 1)
  }

  /** A header of comments and empty lines, from the `k`-th on. */
  function HeaderText(header: seq<string>, k: nat): string
    requires k <= |header|
    decreases |header| - k
  {
    if k == |header| then "" else header[k] + "\n" + HeaderText(header, k + 1)
  }

  /** What is written for the SASL password. A decrypted one is never written: in its place goes the
      encrypted form that the program keeps. */
  function PasswordField(stored: string, encrypted: string): string {
    if PasswdType(stored) == DECRYPTED then [ENCRYPTED] + encrypted
    else [PasswdType(stored)] + Answered(SASL_PASSWORD, stored)
  }

  /** The settings as they are written. */
  function Outgoing(m: map<string, string>, encrypted: string): map<string, string> {
    m[SASL_PASSWORD := PasswordField(Get(m, SASL_PASSWORD), encrypted)]
  }

  method ValueToWrite(config: Config, name: string, encrypted: string) returns (value: string)
    requires config.Valid()
    ensures value == Get(Outgoing(config.Settings(), encrypted), name)
  {
    value := config.Value(name);
    if name == SASL_PASSWORD {
      var c := config.GetSaslPasswdType();
      value := if c == DECRYPTED then [ENCRYPTED] + encrypted else [c] + value;
    }
  }

  /** config_do_save behind the header. */
  method ConfigDoSave(config: Config, defs: seq<Default>, header: string, encrypted: string) returns (stream: string)
    requires config.Valid()
    ensures stream == header + Saved(defs, Outgoing(config.Settings(), encrypted), 0)
  {
    hide Outgoing, Written;
    stream := header;
    var i := 0;
    ghost var m := Outgoing(config.Settings(), encrypted);
    while i < |defs|
      invariant 0 <= i <= |defs|
      invariant stream + Saved(defs, m, i) == header + Saved(defs, m, 0)
    {
      var value := ValueToWrite(config, defs[i].name, encrypted);
      ConcatAssoc(stream, Written(defs[i].name, value, defs[i].padding) + "\n", Saved(defs, m, i + 1));
      stream := WriteSetting(stream, defs[i].name, value, defs[i].padding);
      i := i + 1;
    }
    assert stream + "" == stream;
  }

  // ----- Reading -----

  /** Where fgets stops: behind the first line feed, or when its buffer is full. */
  function FgetsEnd(text: string, i: nat): (e: nat)
    requires i <= |text|
    ensures i <= e <= |text| && (i < |text| && i < MAXLINE - 1 ==> i < e)
    decreases |text| - i
  {
    if i == |text| || i >= MAXLINE - 1 then i
    else if text[i] == '\n' then i + 1
    else FgetsEnd(text, i + 1)
  }

  /** trim: the end of `s` without the white space at its end. */
  function TrimEnd(s: string, n: nat): (e: nat)
    requires n <= |s|
    ensures e <= n && (e > 0 ==> !IsSpace(s[e - 1]))
    ensures forall k :: e <= k < n ==> IsSpace(s[k])
  {
    if n == 0 || !IsSpace(s[n - 1]) then n else TrimEnd(s, n - 1)
  }

  /** The line handed to the interpreter, None for an empty line or a comment. */
  function Line(buf: string): Option<string> {
    var cp := SpaceEnd(buf, 0);
    if cp == |buf| || buf[cp] == '#' then None
    else Some(buf[cp..TrimEnd(buf, |buf|)])
  }

  /** What one buffer does to the settings, None when the program gives up. */
  function Effect(buf: string, known: set<string>, m: map<string, string>): Option<map<string, string>> {
    match Line(buf)
    case None => Some(m)
    case Some(line) =>
      match Parse(line)
      case Bad(_) => None
      case Setting(name, value) =>
        if name !in known then Some(m)
        else if name in m then None
        else Some(m[name := value])
  }

  /** The settings after the whole file, None when the program gives up on the way. */
  function ReadAll(text: string, known: set<string>, m: map<string, string>): Option<map<string, string>> {
    if text == "" then Some(m)
    else
      var e := FgetsEnd(text, 0);
      match Effect(text[..e], known, m)
      case None => None
      case Some(m') => ReadAll(text[e..], known, m')
  }

  /** The names of the first `n` known settings. */
  ghost function Known(defs: seq<Default>, n: nat): (names: set<string>)
    requires n <= |defs|
    ensures forall k :: 0 <= k < n ==> defs[k].name in names
    ensures forall x :: x in names ==> exists k :: 0 <= k < n && defs[k].name == x
  {
    set k | 0 <= k < n :: defs[k].name
  }

  /** is_recognized_setting */
  method IsRecognizedSetting(defs: seq<Default>, name: string) returns (yes: bool)
    ensures yes <==> name in Known(defs, |defs|) && name != ""
  {
    if name == "" {
      return false;
    }
    var i := 0;
    while i < |defs|
      invariant 0 <= i <= |defs| && forall k :: 0 <= k < i ==> defs[k].name != name
    {
      if name == defs[i].name {
        return true;
      }
      i := i + 1;
    }
    return false;
  }

  /** The next buffer of fgets. */
  method Fgets(text: string, pos: nat) returns (end: nat)
    requires pos < |text|
    ensures pos < end <= |text| && end == pos + FgetsEnd(text[pos..], 0)
  {
    end := pos;
    while end < |text| && end - pos < MAXLINE - 1
      invariant pos <= end <= |text| && FgetsEnd(text[pos..], end - pos) == FgetsEnd(text[pos..], 0)
      decreases |text| - end
    {
      end := end + 1;
      if text[end - 1] == '\n' {
        break;
      }
    }
  }

  /** The first half of a round of Interpreter_processAllLines. */
  method TrimmedLine(buf: string) returns (line: Option<string>)
    ensures line == Line(buf)
  {
    var cp := AdvWhileIsSpace(buf, 0);
    if cp == |buf| || buf[cp] == '#' {
      return None;
    }
    var end := |buf|;
    while end > 0 && IsSpace(buf[end - 1])
      invariant 0 <= end <= |buf| && forall k :: end <= k < |buf| ==> IsSpace(buf[k])
    {
      end := end - 1;
    }
    TrimEndIs(buf, end, |buf|);
    line := Some(buf[cp..end]);
  }

  /** One round of Interpreter_processAllLines. */
  method ProcessLine(config: Config, defs: seq<Default>, buf: string) returns (ok: bool)
    requires config.Valid()
    modifies config.hashTable, config.hashTable.slots
    ensures config.Valid() && fresh(config.hashTable.repr - old(config.hashTable.repr))
    ensures var r := Effect(buf, Known(defs, |defs|), old(config.Settings()));
            if ok then r == Some(config.Settings()) else r == None
  {
    hide Parse, Line, Placed, AsMap, Chains.Apart, Chains.Chain;
    var line := TrimmedLine(buf);
    if line == None {
      return true;
    }
    var p := Interpreter(line.value);
    if p.Bad? {
      return false;
    }
    var recognized := IsRecognizedSetting(defs, p.name);
    if !recognized {
      return true;
    }
    var error := config.ConfigItemInstall(p.name, p.value);
    ok := error == Errno.Ok;
  }

  lemma {:induction false} TrimEndIs(s: string, e: nat, n: nat)
    requires e <= n <= |s| && (e > 0 ==> !IsSpace(s[e - 1])) && forall k :: e <= k < n ==> IsSpace(s[k])
    ensures TrimEnd(s, n) == e
    decreases n
  {
    if n > e {
      TrimEndIs(s, e, n - 1);
    }
  }

  ghost predicate Blank(s: string) {
    forall k :: 0 <= k < |s| ==> IsSpace(s[k])
  }

  /** White space around a line does not matter; a line of nothing else, or one whose first other
      character is `#`, says nothing. */
  lemma LineIs(lead: string, line: string, trail: string, comment: string)
    requires Blank(lead) && Blank(trail)
    requires line != "" && line[0] != '#' && !IsSpace(line[0]) && !IsSpace(line[|line| - 1])
    ensures Line(lead + line + trail) == Some(line)
    ensures Line(lead) == None && Line(lead + "#" + comment) == None
  {
    hide IsSpace;
    var s, n := lead + line + trail, |lead| + |line|;
    assert s[|lead|] == line[0] && s[n - 1] == line[|line| - 1];
    SpaceEndIs(s, 0, |lead|);
    forall k | n <= k < |s| ensures IsSpace(s[k]) {
      assert s[k] == trail[k - n];
    }
    TrimEndIs(s, n, |s|);
    assert s[|lead|..n] == line;
    SpaceEndIs(lead, 0, |lead|);
    assert !IsSpace('#') by { HashIsNoSpace(); }
    assert (lead + "#" + comment)[|lead|] == '#';
    SpaceEndIs(lead + "#" + comment, 0, |lead|);
  }

  lemma HashIsNoSpace()
    ensures !IsSpace('#')
  {
  }

  /** What a line with a setting does: a name that is not known is passed over, a name that was there
      before ends the program, like a line that is none. */
  lemma EffectOfLine(lead: string, line: string, trail: string, known: set<string>, m: map<string, string>)
    requires Blank(lead) && Blank(trail)
    requires line != "" && line[0] != '#' && !IsSpace(line[0]) && !IsSpace(line[|line| - 1])
    ensures var p, r := Parse(line), Effect(lead + line + trail, known, m);
            && (p.Bad? ==> r == None)
            && (p.Setting? && p.name !in known ==> r == Some(m))
            && (p.Setting? && p.name in known && p.name in m ==> r == None)
            && (p.Setting? && p.name in known && p.name !in m ==> r == Some(m[p.name := p.value]))
  {
    hide Line, Parse, IsSpace;
    LineIs(lead, line, trail, "");
  }

  /** config_readit; `text` is what can be read, and `readError` says that reading ends with an error
      there and not with the end of the file. */
  method ConfigReadit(config: Config, defs: seq<Default>, text: string, readError: bool) returns (ok: bool)
    requires config.Valid()
    modifies config.hashTable, config.hashTable.slots
    ensures config.Valid()
    ensures var r := ReadAll(text, Known(defs, |defs|), old(config.Settings()));
            && (ok <==> r.Some? && !readError)
            && (ok ==> config.Settings() == Completed(r.value, defs, |defs|))
  {
    hide Effect, FgetsEnd, Placed;
    var pos := 0;
    while pos < |text|
      invariant 0 <= pos <= |text| && config.Valid() && fresh(config.hashTable.repr - old(config.hashTable.repr))
      invariant ReadAll(text[pos..], Known(defs, |defs|), config.Settings()) ==
                ReadAll(text, Known(defs, |defs|), old(config.Settings()))
    {
      var end := Fgets(text, pos);
      assert text[pos..][..end - pos] == text[pos..end] && text[pos..][end - pos..] == text[end..];
      ok := ProcessLine(config, defs, text[pos..end]);
      if !ok {
        return;
      }
      pos := end;
    }
    if readError {
      return false;
    }
    config.InitMissingToDefs(defs);
    ok := true;
  }

  // ----- Saving and reading back -----

  /** A value that survives: at most 478 characters, no quote and no line feed. */
  ghost predicate Plain(value: string) {
    |value| <= 478 && forall k :: 0 <= k < |value| ==> value[k] != '"' && value[k] != '\n'
  }

  /** The table of known settings: identifiers within the interpreter's limit, each once. */
  ghost predicate GoodDefs(defs: seq<Default>) {
    && (forall k :: 0 <= k < |defs| ==>
          0 < |defs[k].name| <= 48 && defs[k].padding <= 2000
          && forall j :: 0 <= j < |defs[k].name| ==> IsWord(defs[k].name[j]))
    && (forall j, k :: 0 <= j < k < |defs| ==> defs[j].name != defs[k].name)
  }

  ghost predicate HeaderLine(l: string) {
    (l == "" || l[0] == '#') && |l| + 1 < MAXLINE && forall k :: 0 <= k < |l| ==> l[k] != '\n'
  }

  /** Comments and empty lines of ordinary length make a header. */
  lemma CommentsAreHeader(comment: string)
    requires |comment| <= 3197 && '\n' !in comment
    ensures HeaderLine("") && HeaderLine("#" + comment)
  {
  }

  /** A header is its lines, each with its line feed. */
  lemma {:induction false} HeaderTextAdds(header: seq<string>, l: string, k: nat)
    requires k <= |header|
    ensures HeaderText(header + [l], k) == HeaderText(header, k) + l + "\n"
    ensures HeaderText([], 0) == ""
    decreases |header| - k
  {
    if k < |header| {
      HeaderTextAdds(header, l, k + 1);
      assert (header + [l])[k] == header[k];
      ConcatAssoc(header[k] + "\n", HeaderText(header, k + 1), l + "\n");
    }
  }

  /** Any table of distinct identifiers will do. */
  lemma TableIsGood(defs: seq<Default>)
    requires forall k :: 0 <= k < |defs| ==> 1 <= |defs[k].name| <= 48 && defs[k].padding <= 2000
    requires forall k, j :: 0 <= k < |defs| && 0 <= j < |defs[k].name| ==>
               defs[k].name[j] in UPPERCASE + LOWERCASE + DECIMALS + "_"
    requires forall j, k :: 0 <= j < k < |defs| ==> defs[j].name != defs[k].name
    ensures GoodDefs(defs)
  {
    hide IsWord, UPPERCASE, LOWERCASE, DECIMALS;
    forall k, j | 0 <= k < |defs| && 0 <= j < |defs[k].name| ensures IsWord(defs[k].name[j]) {
      WordCharacters(defs[k].name[j]);
    }
  }

  lemma {:induction false} FgetsEndIs(text: string, i: nat, n: nat)
    requires i <= n < |text| && text[n] == '\n' && n < MAXLINE - 1
    requires forall k :: i <= k < n ==> text[k] != '\n'
    ensures FgetsEnd(text, i) == n + 1
    decreases n - i
  {
    if i < n {
      FgetsEndIs(text, i + 1, n);
    }
  }

  /** One line that fits the buffer of fgets is read as one line. */
  lemma ReadLine(l: string, rest: string, known: set<string>, m: map<string, string>)
    requires |l| + 1 < MAXLINE && forall k :: 0 <= k < |l| ==> l[k] != '\n'
    ensures ReadAll(l + "\n" + rest, known, m) ==
            match Effect(l + "\n", known, m)
            case None => None
            case Some(m') => ReadAll(rest, known, m')
  {
    hide Effect;
    var text := l + "\n" + rest;
    FgetsEndIs(text, 0, |l|);
    assert text[..|l| + 1] == l + "\n" && text[|l| + 1..] == rest;
  }

  lemma {:induction false} HeaderIsSkipped(header: seq<string>, k: nat, rest: string, known: set<string>, m: map<string, string>)
    requires k <= |header| && forall j :: 0 <= j < |header| ==> HeaderLine(header[j])
    ensures ReadAll(HeaderText(header, k) + rest, known, m) == ReadAll(rest, known, m)
    decreases |header| - k
  {
    if k == |header| {
      assert "" + rest == rest;
    } else {
      HeaderLineHasNoEffect(header[k], known, m);
      ReadLine(header[k], HeaderText(header, k + 1) + rest, known, m);
      ConcatAssoc(header[k] + "\n", HeaderText(header, k + 1), rest);
      HeaderIsSkipped(header, k + 1, rest, known, m);
    }
  }

  lemma HeaderLineHasNoEffect(l: string, known: set<string>, m: map<string, string>)
    requires HeaderLine(l)
    ensures Effect(l + "\n", known, m) == Some(m)
  {
    var buf := l + "\n";
    SpaceEndIs(buf, 0, if l == "" then 1 else 0);
  }

  lemma WrittenShape(name: string, value: string, count: nat)
    requires 0 < |name| <= 48 && Plain(value) && forall j :: 0 <= j < |name| ==> IsWord(name[j])
    ensures var s := Written(name, value, count);
            var q := |name| + count;
            && Shape(s, |name|, q, q + 2, q + 3 + |value|, q + 4 + |value|, q + 5 + |value|)
            && s[..|name|] == name && s[q + 3..q + 3 + |value|] == value
            && |s| == q + 5 + |value| && s[|s| - 1] == ';'
  {
    var s := Written(name, value, count);
    var q := |name| + count;
    assert s == name + Tabs(count) + ['=', ' ', '"'] + value + ['"', ';'];
    assert forall k :: |name| <= k < q ==> s[k] == Tabs(count)[k - |name|];
    assert forall k :: q + 3 <= k < q + 3 + |value| ==> s[k] == value[k - q - 3];
  }

  lemma WrittenHasNoLineFeed(name: string, value: string, count: nat)
    requires Plain(value) && forall j :: 0 <= j < |name| ==> IsWord(name[j])
    ensures forall k :: 0 <= k < |Written(name, value, count)| ==> Written(name, value, count)[k] != '\n'
  {
    var s := Written(name, value, count);
    var q := |name| + count;
    assert s == name + Tabs(count) + ['=', ' ', '"'] + value + ['"', ';'];
    assert forall k :: |name| <= k < q ==> s[k] == Tabs(count)[k - |name|];
    assert forall k :: q + 3 <= k < q + 3 + |value| ==> s[k] == value[k - q - 3];
  }

  /** A saved line with a plain value is read as exactly that setting. */
  lemma WrittenIsRead(name: string, value: string, count: nat)
    requires 0 < |name| <= 48 && Plain(value) && forall j :: 0 <= j < |name| ==> IsWord(name[j])
    ensures var s := Written(name, value, count);
            Line(s + "\n") == Some(s) && Parse(s) == Setting(name, value)
  {
    hide Parse, Written, Plain, Shape;
    var s := Written(name, value, count);
    var q := |name| + count;
    WrittenShape(name, value, count);
    ShapeParses(s, |name|, q, q + 2, q + 3 + |value|, q + 4 + |value|, q + 5 + |value|);
    var buf := s + "\n";
    assert s[0] == s[..|name|][0] == name[0];
    SpaceEndIs(buf, 0, 0);
    TrimEndIs(buf, |s|, |buf|);
    assert buf[..|s|] == s;
  }

  /** What the first `n` known settings have in `m`, the empty value for what is not there. */
  ghost function Recognized(defs: seq<Default>, m: map<string, string>, n: nat): map<string, string>
    requires n <= |defs|
  {
    if n == 0 then map[] else Recognized(defs, m, n - 1)[defs[n - 1].name := Get(m, defs[n - 1].name)]
  }

  lemma {:induction false} RecognizedHas(defs: seq<Default>, m: map<string, string>, n: nat)
    requires n <= |defs|
    ensures forall x :: x in Recognized(defs, m, n) <==> x in Known(defs, n)
    ensures forall x :: x in Recognized(defs, m, n) ==> Recognized(defs, m, n)[x] == Get(m, x)
  {
    if n > 0 {
      RecognizedHas(defs, m, n - 1);
    }
  }

  ghost predicate AllPlain(defs: seq<Default>, m: map<string, string>) {
    forall k :: 0 <= k < |defs| ==> Plain(Get(m, defs[k].name))
  }

  /** Reading the saved lines from the `k`-th on completes what the lines before it gave. */
  lemma {:induction false} SavedIsRead(defs: seq<Default>, m: map<string, string>, k: nat)
    requires k <= |defs| && GoodDefs(defs) && AllPlain(defs, m)
    ensures ReadAll(Saved(defs, m, k), Known(defs, |defs|), Recognized(defs, m, k)) ==
            Some(Recognized(defs, m, |defs|))
    decreases |defs| - k
  {
    hide Parse, Line, Written;
    if k < |defs| {
      var name, value, count := defs[k].name, Get(m, defs[k].name), defs[k].padding;
      WrittenIsRead(name, value, count);
      WrittenShape(name, value, count);
      WrittenHasNoLineFeed(name, value, count);
      RecognizedHas(defs, m, k);
      SavedLine(defs, m, k);
      ReadLine(Written(name, value, count), Saved(defs, m, k + 1), Known(defs, |defs|), Recognized(defs, m, k));
      SavedIsRead(defs, m, k + 1);
    }
  }

  lemma SavedLine(defs: seq<Default>, m: map<string, string>, k: nat)
    requires k < |defs|
    ensures Saved(defs, m, k) ==
            Written(defs[k].name, Get(m, defs[k].name), defs[k].padding) + "\n" + Saved(defs, m, k + 1)
  {
  }

  // ----- Whatever is read is plain -----

  lemma {:induction false} FgetsHasOneLineFeed(text: string, i: nat)
    requires i <= |text|
    ensures forall k :: i <= k < FgetsEnd(text, i) - 1 ==> text[k] != '\n'
    decreases |text| - i
  {
    if i < |text| && i < MAXLINE - 1 && text[i] != '\n' {
      FgetsHasOneLineFeed(text, i + 1);
    }
  }

  /** The interpreter never installs a value with a quote or a line feed, or a long one. */
  lemma ReadValueIsPlain(text: string, line: string)
    requires text != "" && Line(text[..FgetsEnd(text, 0)]) == Some(line) && Parse(line).Setting?
    ensures Plain(Parse(line).value)
  {
    hide FgetsEnd, SpaceEnd, TrimEnd, Parse;
    var buf := text[..FgetsEnd(text, 0)];
    FgetsHasOneLineFeed(text, 0);
    var cp, end := SpaceEnd(buf, 0), TrimEnd(buf, |buf|);
    forall k | 0 <= k < |line| ensures line[k] != '\n' {
      assert line[k] == buf[cp + k];
    }
    ParsedHasShape(line);
  }

  lemma {:induction false} ReadAllIsPlain(text: string, known: set<string>, m: map<string, string>)
    requires ReadAll(text, known, m).Some?
    requires forall x :: x in m ==> Plain(m[x])
    ensures forall x :: x in ReadAll(text, known, m).value ==> Plain(ReadAll(text, known, m).value[x])
    decreases |text|
  {
    hide Parse, Line, Plain, FgetsEnd;
    if text != "" {
      var e := FgetsEnd(text, 0);
      var line := Line(text[..e]);
      if line.Some? && Parse(line.value).Setting? {
        ReadValueIsPlain(text, line.value);
      }
      ReadAllIsPlain(text[e..], known, Effect(text[..e], known, m).value);
    }
  }

  lemma {:induction false} NothingMissing(defs: seq<Default>, m: map<string, string>, n: nat)
    requires n <= |defs| && forall k :: 0 <= k < |defs| ==> defs[k].name in m
    ensures Completed(m, defs, n) == m
  {
    if n > 0 {
      NothingMissing(defs, m, n - 1);
    }
  }

  lemma WrittenComesBack(defs: seq<Default>, m: map<string, string>, header: seq<string>)
    requires GoodDefs(defs) && forall k :: 0 <= k < |header| ==> HeaderLine(header[k])
    ensures var text := HeaderText(header, 0) + Saved(defs, m, 0);
            ReadAll(text, Known(defs, |defs|), map[]) == Some(Recognized(defs, m, |defs|)) <==> AllPlain(defs, m)
    ensures Completed(Recognized(defs, m, |defs|), defs, |defs|) == Recognized(defs, m, |defs|)
  {
    hide Saved, HeaderText, Effect, Plain, GoodDefs;
    var known := Known(defs, |defs|);
    var text := HeaderText(header, 0) + Saved(defs, m, 0);
    RecognizedHas(defs, m, |defs|);
    NothingMissing(defs, Recognized(defs, m, |defs|), |defs|);
    HeaderIsSkipped(header, 0, Saved(defs, m, 0), known, map[]);
    if AllPlain(defs, m) {
      SavedIsRead(defs, m, 0);
    }
    if ReadAll(text, known, map[]) == Some(Recognized(defs, m, |defs|)) {
      ReadAllIsPlain(text, known, map[]);
      forall k | 0 <= k < |defs| ensures Plain(Get(m, defs[k].name)) {
        assert defs[k].name in Recognized(defs, m, |defs|);
      }
    }
  }

  /** Saving the settings and reading the file into an empty table gives back what was written for
      every known setting, and defines nothing else, exactly when everything written is plain: no
      quote, no line feed, at most 478 characters. What is written is what was set, except for a
      SASL password that is not stored encrypted or unencrypted, and to a reader of the settings
      that is the same unless it is stored decrypted and is not its own encrypted form. */
  lemma SaveRoundTrip(defs: seq<Default>, m: map<string, string>, header: seq<string>, encrypted: string)
    requires GoodDefs(defs) && forall k :: 0 <= k < |header| ==> HeaderLine(header[k])
    ensures var out := Outgoing(m, encrypted);
            var text := HeaderText(header, 0) + Saved(defs, out, 0);
            ReadAll(text, Known(defs, |defs|), map[]) == Some(Recognized(defs, out, |defs|)) <==> AllPlain(defs, out)
    ensures var out := Outgoing(m, encrypted);
            Completed(Recognized(defs, out, |defs|), defs, |defs|) == Recognized(defs, out, |defs|)
    ensures var out, password := Outgoing(m, encrypted), Get(m, SASL_PASSWORD);
            && (forall x :: x != SASL_PASSWORD ==> Get(out, x) == Get(m, x))
            && (Get(out, SASL_PASSWORD) == password <==>
                password != "" && (password[0] == ENCRYPTED || password[0] == UNENCRYPTED))
            && (Answered(SASL_PASSWORD, Get(out, SASL_PASSWORD)) == Answered(SASL_PASSWORD, password) <==>
                password == "" || password[0] != DECRYPTED || password[1..] == encrypted)
  {
    hide Saved, HeaderText, ReadAll, Recognized, Completed, Known, AllPlain, GoodDefs;
    WrittenComesBack(defs, Outgoing(m, encrypted), header);
    PasswordSaved(Get(m, SASL_PASSWORD), encrypted);
  }

  lemma PasswordSaved(password: string, encrypted: string)
    ensures var field := PasswordField(password, encrypted);
            && (field == password <==> password != "" && (password[0] == ENCRYPTED || password[0] == UNENCRYPTED))
            && (Answered(SASL_PASSWORD, field) == Answered(SASL_PASSWORD, password) <==>
                password == "" || password[0] != DECRYPTED || password[1..] == encrypted)
  {
    var field := PasswordField(password, encrypted);
    assert field[1..] == if PasswdType(password) == DECRYPTED then encrypted else Answered(SASL_PASSWORD, password);
    if password != "" {
      assert password == [password[0]] + password[1..];
    }
  }
}
