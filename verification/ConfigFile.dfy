/** The configuration file: how src/config.cpp and src/libUtils.c write it, and how
    src/interpreter.cpp reads it back. */
module ConfigFile {
  import opened Wrappers
  import opened ConfigTable

  /** identifier_maxSize and argument_maxSize; the last cell of each is never filled. */
  const ID_MAX: nat := 50
  const ARG_MAX: nat := 480
  const MAXLINE: nat := 3200

  datatype Fault =
    | LeadingCharacter | IdentifierTruncated | NoAssignment | NoArgBegin
    | ArgumentTruncated | Unterminated | NoTerminator | DataBehindTerminator

  datatype Parsed = Setting(name: string, value: string) | Bad(fault: Fault)

  predicate IsSpace(c: char) {
    c == ' ' || '\t' <= c <= '\r'
  }

  predicate IsWord(c: char) {
    'a' <= c <= 'z' || 'A' <= c <= 'Z' || '0' <= c <= '9' || c == '_'
  }

  /** The characters of an identifier, and white space, spelled out. */
  lemma WordCharacters(c: char)
    ensures IsWord(c) <==> c in UPPERCASE + LOWERCASE + DECIMALS + "_"
    ensures IsSpace(c) <==> c in " \t\n\r" || c as int == 11 || c as int == 12
  {
    hide UPPERCASE, LOWERCASE, DECIMALS;
    UppercaseIsRange(c);
    LowercaseIsRange(c);
    DecimalsAreRange(c);
  }

  // ----- Scanning a line -----

  function WordEnd(s: string, i: nat): (j: nat)
    requires i <= |s|
    ensures i <= j <= |s| && (j < |s| ==> !IsWord(s[j]))
    ensures forall k :: i <= k < j ==> IsWord(s[k])
    decreases |s| - i
  {
    if i == |s| || !IsWord(s[i]) then i else WordEnd(s, i + 1)
  }

  function SpaceEnd(s: string, i: nat): (j: nat)
    requires i <= |s|
    ensures i <= j <= |s| && (j < |s| ==> !IsSpace(s[j]))
    ensures forall k :: i <= k < j ==> IsSpace(s[k])
    decreases |s| - i
  {
    if i == |s| || !IsSpace(s[i]) then i else SpaceEnd(s, i + 1)
  }

  function QuoteEnd(s: string, i: nat): (j: nat)
    requires i <= |s|
    ensures i <= j <= |s| && (j < |s| ==> s[j] == '"')
    ensures forall k :: i <= k < j ==> s[k] != '"'
    decreases |s| - i
  {
    if i == |s| || s[i] == '"' then i else QuoteEnd(s, i + 1)
  }

  /** What Interpreter makes of a line: the first fault it meets, or the setting. */
  function Parse(s: string): (p: Parsed)
    ensures p.Setting? ==> p.name != ""
  {
    if s == "" || !IsWord(s[0]) then Bad(LeadingCharacter)
    else
      var n := WordEnd(s, 0);
      if n >= ID_MAX - 1 then Bad(IdentifierTruncated)
      else
        var q := SpaceEnd(s, n);
        if q == |s| || s[q] != '=' then Bad(NoAssignment)
        else
          var o := SpaceEnd(s, q + 1);
          if o == |s| || s[o] != '"' then Bad(NoArgBegin)
          else
            var e := QuoteEnd(s, o + 1);
            if e - (o + 1) >= ARG_MAX - 1 then Bad(ArgumentTruncated)
            else if e == |s| then Bad(Unterminated)
            else
              var t := SpaceEnd(s, e + 1);
              if t == |s| || s[t] != ';' then Bad(NoTerminator)
              else
                var r := SpaceEnd(s, t + 1);
                if r < |s| && s[r] != '#' then Bad(DataBehindTerminator)
                else Setting(s[..n], s[o + 1..e])
  }

  // ----- The grammar of a line -----

  ghost predicate Spaces(s: string, i: int, j: int) {
    0 <= i <= j <= |s| && forall k :: i <= k < j ==> IsSpace(s[k])
  }

  /** A name of at most 48 word characters up to `n`, then `=` at `q`, the quotes at `o` and `e`
      around at most 478 characters that are no quotes, and `;` at `t`, with only white space
      between them; from `r` on nothing or a comment. */
  ghost predicate Shape(s: string, n: nat, q: nat, o: nat, e: nat, t: nat, r: nat) {
    && 0 < n <= 48 && n <= q < o < e < t < r <= |s|
    && (forall k :: 0 <= k < n ==> IsWord(s[k]))
    && Spaces(s, n, q) && s[q] == '='
    && Spaces(s, q + 1, o) && s[o] == '"'
    && e - o <= 479 && (forall k :: o < k < e ==> s[k] != '"') && s[e] == '"'
    && Spaces(s, e + 1, t) && s[t] == ';'
    && Spaces(s, t + 1, r) && (r == |s| || s[r] == '#')
  }

  lemma {:induction false} SpaceEndIs(s: string, i: nat, j: nat)
    requires Spaces(s, i, j) && (j == |s| || !IsSpace(s[j]))
    ensures SpaceEnd(s, i) == j
    decreases j - i
  {
    if i < j {
      SpaceEndIs(s, i + 1, j);
    }
  }

  lemma {:induction false} WordEndIs(s: string, i: nat, j: nat)
    requires i <= j < |s| && !IsWord(s[j]) && forall k :: i <= k < j ==> IsWord(s[k])
    ensures WordEnd(s, i) == j
    decreases j - i
  {
    if i < j {
      WordEndIs(s, i + 1, j);
    }
  }

  lemma {:induction false} QuoteEndIs(s: string, i: nat, j: nat)
    requires i <= j < |s| && s[j] == '"' && forall k :: i <= k < j ==> s[k] != '"'
    ensures QuoteEnd(s, i) == j
    decreases j - i
  {
    if i < j {
      QuoteEndIs(s, i + 1, j);
    }
  }

  /** The scans stop where the grammar says. */
  lemma ShapeEnds(s: string, n: nat, q: nat, o: nat, e: nat, t: nat, r: nat)
    requires Shape(s, n, q, o, e, t, r)
    ensures WordEnd(s, 0) == n && SpaceEnd(s, n) == q && SpaceEnd(s, q + 1) == o
    ensures QuoteEnd(s, o + 1) == e && SpaceEnd(s, e + 1) == t && SpaceEnd(s, t + 1) == r
  {
    hide WordEnd, SpaceEnd, QuoteEnd;
    WordEndIs(s, 0, n);
    SpaceEndIs(s, n, q);
    SpaceEndIs(s, q + 1, o);
    QuoteEndIs(s, o + 1, e);
    SpaceEndIs(s, e + 1, t);
    SpaceEndIs(s, t + 1, r);
  }

  /** Every line of the grammar is accepted, with the name and the text between the quotes. */
  lemma ShapeParses(s: string, n: nat, q: nat, o: nat, e: nat, t: nat, r: nat)
    requires Shape(s, n, q, o, e, t, r)
    ensures Parse(s) == Setting(s[..n], s[o + 1..e])
  {
    hide WordEnd, SpaceEnd, QuoteEnd, Spaces;
    ShapeEnds(s, n, q, o, e, t, r);
  }

  /** Nothing else is accepted. */
  lemma ParsedHasShape(s: string)
    requires Parse(s).Setting?
    ensures exists n: nat, q: nat, o: nat, e: nat, t: nat, r: nat ::
              Shape(s, n, q, o, e, t, r) && Parse(s) == Setting(s[..n], s[o + 1..e])
  {
    hide WordEnd, SpaceEnd, QuoteEnd;
    var n := WordEnd(s, 0);
    var q := SpaceEnd(s, n);
    var o := SpaceEnd(s, q + 1);
    var e := QuoteEnd(s, o + 1);
    var t := SpaceEnd(s, e + 1);
    var r := SpaceEnd(s, t + 1);
    assert Shape(s, n, q, o, e, t, r);
  }

  // ----- interpreter.cpp -----

  /** copy_identifier, from the start of the line; None when the buffer is too small. */
  method CopyIdentifier(s: string) returns (id: Option<string>, cp: nat)
    ensures WordEnd(s, 0) >= ID_MAX - 1 ==> id == None
    ensures WordEnd(s, 0) < ID_MAX - 1 ==> cp == WordEnd(s, 0) && id == Some(s[..cp])
  {
    var count := ID_MAX;
    var dest := "";
    cp := 0;
    while cp < |s| && IsWord(s[cp]) && count > 1
      invariant cp <= |s| && count == ID_MAX - cp >= 1 && dest == s[..cp]
      invariant WordEnd(s, cp) == WordEnd(s, 0)
      decreases |s| - cp
    {
      dest := dest + [s[cp]];
      cp, count := cp + 1, count - 1;
    }
    id := if count == 1 then None else Some(dest);
  }

  /** copy_argument, from behind the opening quote. */
  method CopyArgument(s: string, from: nat) returns (arg: Parsed, cp: nat)
    requires from <= |s|
    ensures var e := QuoteEnd(s, from);
            if e - from >= ARG_MAX - 1 then arg == Bad(ArgumentTruncated)
            else if e == |s| then arg == Bad(Unterminated)
            else arg == Setting("", s[from..e]) && cp == e + 1
  {
    var count := ARG_MAX;
    var insideArg := true;
    var dest := "";
    cp := from;
    while cp < |s| && count > 1
      invariant from <= cp <= |s| && count == ARG_MAX - (cp - from) >= 1 && dest == s[from..cp]
      invariant QuoteEnd(s, cp) == QuoteEnd(s, from)
      invariant insideArg
      decreases |s| - cp
    {
      if s[cp] == '"' {
        insideArg := false;
        cp := cp + 1;
        break;
      }
      dest := dest + [s[cp]];
      cp, count := cp + 1, count - 1;
    }
    arg := if insideArg then Bad(if count == 1 then ArgumentTruncated else Unterminated) else Setting("", dest);
  }

  /** adv_while_isspace */
  method AdvWhileIsSpace(s: string, from: nat) returns (cp: nat)
    requires from <= |s|
    ensures cp == SpaceEnd(s, from)
  {
    cp := from;
    while cp < |s| && IsSpace(s[cp])
      invariant from <= cp <= |s| && SpaceEnd(s, cp) == SpaceEnd(s, from)
      decreases |s| - cp
    {
      cp := cp + 1;
    }
  }

  /** Interpreter, up to the calls of the validator and the installer. */
  method Interpreter(s: string) returns (p: Parsed)
    ensures p == Parse(s)
  {
    hide WordEnd, SpaceEnd, QuoteEnd, IsWord, IsSpace;
    if s == "" || !IsWord(s[0]) {
      return Bad(LeadingCharacter);
    }
    var id, cp := CopyIdentifier(s);
    if id == None {
      return Bad(IdentifierTruncated);
    }
    cp := AdvWhileIsSpace(s, cp);
    if cp == |s| || s[cp] != '=' {
      return Bad(NoAssignment);
    }
    cp := AdvWhileIsSpace(s, cp + 1);
    if cp == |s| || s[cp] != '"' {
      return Bad(NoArgBegin);
    }
    var arg;
    arg, cp := CopyArgument(s, cp + 1);
    if arg.Bad? {
      return arg;
    }
    cp := AdvWhileIsSpace(s, cp);
    if cp == |s| || s[cp] != ';' {
      return Bad(NoTerminator);
    }
    cp := AdvWhileIsSpace(s, cp + 1);
    if cp < |s| && s[cp] != '#' {
      return Bad(DataBehindTerminator);
    }
    p := Setting(id.value, arg.value);
  }
}
