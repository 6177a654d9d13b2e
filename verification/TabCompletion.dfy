/** Tab completion of src/readlineTabCompletion.c: circulation through a list of matches, played
    into the line editor as backspaces and keys. */
module TabCompletion {
  import opened Wrappers
  import opened Readline
  import TextBuffer
  import TextDecoration
  import Utf8

  /** The circulation flags: at most one is set, and each stands for one pair of texts around
      the match, such as "/msg " before it or ": " behind a nick. */
  datatype Mode = Idle | Circulating(before: seq<int>, after: seq<int>)

  /** What btowc returns for a byte that is no character by itself. */
  const WEOF := 0xFFFF_FFFF

  /** btowc in a UTF-8 locale; the characters of a C string stand for its bytes. */
  function Btowc(c: char): int {
    if c as int < 0x80 then c as int else WEOF
  }

  function Codes(s: string): (w: seq<int>)
    ensures |w| == |s| && forall k :: 0 <= k < |s| ==> w[k] == Btowc(s[k])
  {
    seq(|s|, i requires 0 <= i < |s| => Btowc(s[i]))
  }

  /** The bytes of a C string. */
  ghost function ByteText(s: string): (b: seq<int>)
    ensures |b| == |s| && forall k :: 0 <= k < |s| ==> b[k] == s[k] as int
  {
    seq(|s|, i requires 0 <= i < |s| => s[i] as int)
  }

  /** The cells typed for a match. */
  function Filled(mode: Mode, match_: string): seq<int>
    requires mode.Circulating?
  {
    mode.before + Codes(match_) + mode.after
  }

  ghost predicate NulFree(s: string) {
    forall k :: 0 <= k < |s| ==> s[k] != '\0'
  }

  ghost predicate Ascii(s: string) {
    forall k :: 0 <= k < |s| ==> s[k] as int < 0x80
  }

  ghost predicate PlainText(w: seq<int>) {
    forall k :: 0 <= k < |w| ==> 0 < w[k] < 0x80 && !TextDecoration.IsFormat(w[k])
  }

  /** The texts around a match: ASCII, without formatting, and not both empty. */
  ghost predicate PlainMode(mode: Mode) {
    mode.Circulating? && PlainText(mode.before) && PlainText(mode.after) && |mode.before| + |mode.after| > 0
  }

  /** What finalize_out_string makes of a line: its multibyte form, or nothing when some character
      cannot be converted. */
  ghost function Multibyte(w: seq<int>): seq<int> {
    if Utf8.Encodable(w) then Utf8.Encode(w) else []
  }

  /** Formatting codes in the multibyte form of a line. */
  ghost predicate Decorated(w: seq<int>) {
    TextDecoration.HasFormat(Multibyte(w))
  }

  /** ARRAY_SIZE of search_var */
  const SEARCH_SIZE: nat := 64

  /** The line, with its terminator, fits the search variable. */
  ghost predicate Storable(w: seq<int>) {
    |Multibyte(w)| < SEARCH_SIZE
  }

  /** The multibyte form has the codes of the line, and no others. */
  lemma {:induction false} FormatIsKept(w: seq<int>)
    requires Utf8.Encodable(w)
    ensures TextDecoration.HasFormat(Utf8.Encode(w)) <==> TextDecoration.HasFormat(w)
  {
    if w != [] {
      var head, tail := Utf8.Bytes(w[0]), Utf8.Encode(w[1..]);
      FormatIsKept(w[1..]);
      assert w == [w[0]] + w[1..];
      HasFormatOf(head, tail);
      HasFormatOf([w[0]], w[1..]);
      assert w[0] < 0x80 ==> head == [w[0]];
    }
  }

  /** Tab refuses a line for its codes exactly when it can be converted and holds one. */
  lemma DecoratedExactly(w: seq<int>)
    ensures Decorated(w) <==> Utf8.Encodable(w) && TextDecoration.HasFormat(w)
  {
    if Utf8.Encodable(w) {
      FormatIsKept(w);
    }
  }

  lemma HasFormatOf(a: seq<int>, b: seq<int>)
    ensures TextDecoration.HasFormat(a + b) <==> TextDecoration.HasFormat(a) || TextDecoration.HasFormat(b)
  {
    if TextDecoration.HasFormat(a) {
      var k :| 0 <= k < |a| && TextDecoration.IsFormat(a[k]);
      assert (a + b)[k] == a[k];
    }
    if TextDecoration.HasFormat(b) {
      var k :| 0 <= k < |b| && TextDecoration.IsFormat(b[k]);
      assert (a + b)[|a| + k] == b[k];
    }
  }

  ghost predicate CStrings(lines: seq<TextBuffer.Line>) {
    forall k :: 0 <= k < |lines| ==> NulFree(lines[k].text)
  }

  /** The line after typing `w` into an empty one while `full` is in force; None when the text runs
      over the terminator, which the code does not look out for. */
  ghost function Played(full: bool, w: seq<int>): Option<Zipper> {
    if full then Some(EMPTY) else if |w| <= BUFSIZE then Some(Zipper(w, [])) else None
  }

  lemma FilledIsCString(mode: Mode, s: string)
    requires PlainMode(mode) && NulFree(s)
    ensures TextDecoration.IsCString(mode.before) && TextDecoration.IsCString(Codes(s))
    ensures TextDecoration.IsCString(mode.after)
  {
  }

  /** Types `w` behind the line. `safe` says that the line kept its terminator. */
  method TypeAll(ctx: SessionContext, w: seq<int>) returns (safe: bool)
    requires ctx.Valid() && ctx.bufpos == ctx.numins && !ctx.insertMode && TextDecoration.IsCString(w)
    modifies ctx`bufpos, ctx`numins, ctx`vispos, ctx.buffer
    ensures ctx.Valid() && ctx.bufpos == ctx.numins
    ensures safe <==> ctx.noBufspc || old(ctx.numins) + |w| <= BUFSIZE
    ensures safe ==> ctx.View() == Zipper(if ctx.noBufspc then old(ctx.View()).left else old(ctx.View()).left + w, [])
  {
    hide Width, TextUpTo;
    var i := 0;
    while i < |w|
      invariant 0 <= i <= |w| && ctx.Valid() && ctx.bufpos == ctx.numins
      invariant !ctx.noBufspc ==> ctx.numins == old(ctx.numins) + i
      invariant ctx.View() == Zipper(if ctx.noBufspc then old(ctx.View()).left else old(ctx.View()).left + w[..i], [])
    {
      if !ctx.noBufspc && ctx.numins == BUFSIZE {
        return false;
      }
      assert w[..i + 1] == w[..i] + [w[i]];
      var _ := ctx.HandleKey(w[i]);
      i := i + 1;
    }
    assert w[..i] == w;
    safe := true;
  }

  /** do_work, auto_complete_command and auto_complete_channel_user: backspace until the line is
      empty, then the keys of the new line. Whether there is room was decided before the
      backspaces: on a full line nothing is typed, and on any other everything, however long. */
  method DoWork(ctx: SessionContext, mode: Mode, s: string) returns (safe: bool)
    requires ctx.Valid() && ctx.bufpos == ctx.numins && !ctx.insertMode && PlainMode(mode) && NulFree(s)
    modifies ctx`bufpos, ctx`numins, ctx`vispos, ctx.buffer
    ensures ctx.Valid() && (safe <==> ctx.noBufspc || |Filled(mode, s)| <= BUFSIZE)
    ensures safe ==> Played(ctx.noBufspc, Filled(mode, s)) == Some(ctx.View())
  {
    hide PlainText, NulFree;
    EraseAll(ctx);
    FilledIsCString(mode, s);
    safe := TypeAll(ctx, mode.before);
    if !safe {
      return;
    }
    assert [] + mode.before == mode.before;
    safe := TypeAll(ctx, Codes(s));
    if !safe {
      return;
    }
    safe := TypeAll(ctx, mode.after);
  }

  method EraseAll(ctx: SessionContext)
    requires ctx.Valid() && ctx.bufpos == ctx.numins && !ctx.insertMode
    modifies ctx`bufpos, ctx`numins, ctx`vispos, ctx.buffer
    ensures ctx.Valid() && ctx.View() == EMPTY
  {
    while ctx.numins != 0
      invariant ctx.Valid() && ctx.bufpos == ctx.numins
      decreases ctx.numins
    {
      var _ := ctx.CaseKeyBackspace();
    }
  }

  /** The outcome of a Tab: where the circulation stands (`at` counts from 0) and the line. */
  datatype Press = Press(mode: Mode, at: nat, line: Zipper)

  /** A line that Tab works on: not empty, the cursor at its end, no formatting codes. */
  ghost predicate Tabbable(z: Zipper) {
    z.left != [] && z.right == [] && !Decorated(z.left)
  }

  /** A match that is shown, None when its text overruns the line. */
  ghost function Shown(mode: Mode, at: nat, line: Option<Zipper>): Option<Press> {
    match line
    case None => None
    case Some(z) => Some(Press(mode, at, z))
  }

  /** The next match of the circulation under way, or its end. */
  ghost function Advanced(p: Press, texts: seq<string>, full: bool): Option<Press>
    requires p.mode.Circulating?
  {
    if p.at + 1 < |texts| then Shown(p.mode, p.at + 1, Played(full, Filled(p.mode, texts[p.at + 1])))
    else Some(Press(Idle, 0, p.line))
  }

  /** The first match of a new circulation, if there is any. */
  ghost function Begun(p: Press, texts: seq<string>, search: Mode, full: bool): Option<Press>
    requires search.Circulating?
  {
    if texts == [] then Some(p) else Shown(search, 0, Played(full, Filled(search, texts[0])))
  }

  /** What one Tab does, as a function; None when the text it types overruns the line, and then
      nothing more is said. `texts` are the matches of the circulation under way, or those that a
      new search in `search` mode finds. */
  ghost function Pressed(p: Press, texts: seq<string>, search: Mode): Option<Press>
    requires search.Circulating?
  {
    if !Tabbable(p.line) then Some(Press(Idle, 0, p.line))
    else Completed(p, texts, search, p.line.Size() + 1 >= BUFSIZE)
  }

  /** A line that does not fit the search variable is not searched for. */
  ghost function Completed(p: Press, texts: seq<string>, search: Mode, full: bool): Option<Press>
    requires search.Circulating?
  {
    if p.mode.Circulating? then Advanced(p, texts, full)
    else if Storable(p.line.left) then Begun(p, texts, search, full)
    else Some(p)
  }

  ghost function Texts(lines: seq<TextBuffer.Line>): (t: seq<string>)
    ensures |t| == |lines| && forall k :: 0 <= k < |lines| ==> t[k] == lines[k].text
  {
    seq(|lines|, i requires 0 <= i < |lines| => lines[i].text)
  }

  /** finalize_out_string */
  method FinalizeOutString(ctx: SessionContext) returns (out: seq<int>)
    requires ctx.Valid()
    ensures out == Multibyte(ctx.buffer[..ctx.numins])
  {
    hide Utf8.Bytes, Utf8.Encode, Width, TextUpTo;
    ghost var w := ctx.buffer[..ctx.numins];
    Utf8.EncodeNothing();
    out := [];
    var i := 0;
    while i < ctx.numins
      invariant 0 <= i <= ctx.numins == |w| && out == Utf8.Encode(w[..i])
      invariant forall k :: 0 <= k < i ==> Utf8.Bytes(w[k]) != []
    {
      var b := Utf8.Bytes(ctx.buffer[i]);
      assert b == Utf8.Bytes(w[i]);
      if b == [] {
        return [];
      }
      Utf8.EncodeOneMore(w, i);
      out := out + b;
      i := i + 1;
    }
    assert w[..i] == w;
  }

  /** buf_contains_disallowed_chars */
  method BufContainsDisallowedChars(ctx: SessionContext) returns (yes: bool)
    requires ctx.Valid()
    ensures yes <==> Decorated(ctx.buffer[..ctx.numins])
  {
    var s := FinalizeOutString(ctx);
    var i := 0;
    while i < |s|
      invariant 0 <= i <= |s| && forall k :: 0 <= k < i ==> !TextDecoration.IsFormat(s[k])
    {
      if TextDecoration.IsFormat(s[i]) {
        return true;
      }
      i := i + 1;
    }
    yes := false;
  }

  /** The guard of readline_handle_tab. */
  method CanTab(ctx: SessionContext) returns (ok: bool)
    requires ctx.Valid() && ctx.Fresh()
    ensures ok <==> Tabbable(ctx.View())
    ensures ok ==> ctx.bufpos == ctx.numins && !ctx.insertMode
    ensures ctx.noBufspc <==> ctx.View().Size() + 1 >= BUFSIZE
  {
    var decorated := BufContainsDisallowedChars(ctx);
    ok := !(ctx.numins == 0 || ctx.insertMode || decorated);
  }

  ghost function TextsOf(found: TextBuffer.TextBuf?): seq<string>
    reads found, if found == null then [] else found.elmts
  {
    if found == null then [] else Texts(found.Lines())
  }

  /** The cells hold the C string `t`. */
  ghost predicate HoldsString(cells: seq<int>, t: seq<int>) {
    |t| < |cells| && cells[..|t|] == t && cells[|t|] == 0
  }

  class Completion {
    const searchVar: array<int>
    var mode: Mode
    var matches: TextBuffer.TextBuf?
    var elmt: TextBuffer.Element?
    /** The position of `elmt` among the matches. */
    ghost var at: nat

    ghost predicate Valid()
      reads this, matches, if matches == null then [] else matches.elmts
    {
      && searchVar.Length == SEARCH_SIZE
      && (mode.Idle? ==> at == 0 && matches == null && elmt == null)
      && (mode.Circulating? ==>
            && matches != null && matches.Valid() && at < matches.size && elmt == matches.elmts[at]
            && PlainMode(mode) && CStrings(matches.Lines()))
    }

    ghost function MatchTexts(): seq<string>
      requires Valid()
      reads this, matches, if matches == null then [] else matches.elmts
    {
      TextsOf(matches)
    }

    constructor ()
      ensures Valid() && mode == Idle && fresh(searchVar)
    {
      searchVar := new int[SEARCH_SIZE](_ => 0);
      mode, matches, elmt, at := Idle, null, null, 0;
    }

    /** readline_tab_comp_ctx_reset; the matches are freed with it. */
    method Reset()
      requires searchVar.Length == SEARCH_SIZE
      modifies this, searchVar
      ensures Valid() && mode == Idle && HoldsString(searchVar[..], [])
    {
      forall i | 0 <= i < searchVar.Length {
        searchVar[i] := 0;
      }
      mode, matches, elmt, at := Idle, null, null, 0;
    }

    /** store_search_var: fails, and stores nothing, when the multibyte form of the line needs more
        than the 64 bytes there are. */
    method StoreSearchVar(ctx: SessionContext) returns (stored: bool)
      requires ctx.Valid() && searchVar.Length == SEARCH_SIZE
      modifies searchVar
      ensures stored <==> Storable(ctx.buffer[..ctx.numins])
      ensures stored ==> HoldsString(searchVar[..], Multibyte(ctx.buffer[..ctx.numins]))
      ensures !stored ==> searchVar[..] == old(searchVar[..])
    {
      var s := FinalizeOutString(ctx);
      if |s| >= searchVar.Length {
        return false;
      }
      var i := 0;
      while i < |s|
        invariant 0 <= i <= |s| && searchVar[..i] == s[..i]
      {
        searchVar[i] := s[i];
        i := i + 1;
      }
      searchVar[i] := 0;
      assert s[..i] == s;
      stored := true;
    }

    /** next_text */
    method NextText() returns (text: string)
      requires Valid() && mode.Circulating? && at + 1 < matches.size
      modifies this`elmt, this`at
      ensures Valid() && at == old(at) + 1 && text == MatchTexts()[at]
    {
      assert TextBuffer.LinkedAt(matches.elmts, at);
      elmt := elmt.next;
      at := at + 1;
      text := elmt.text;
    }

    /** ac_doit: the next match, or the end of the circulation behind the last one. */
    method AcDoit(ctx: SessionContext) returns (safe: bool)
      requires Valid() && mode.Circulating?
      requires ctx.Valid() && ctx.bufpos == ctx.numins && !ctx.insertMode
      modifies this, searchVar, ctx`bufpos, ctx`numins, ctx`vispos, ctx.buffer
      ensures Valid() && ctx.Valid()
      ensures Advanced(old(Press(mode, at, ctx.View())), old(MatchTexts()), ctx.noBufspc) ==
              if safe then Some(Press(mode, at, ctx.View())) else None
      ensures mode.Circulating? ==> matches == old(matches)
    {
      hide PlainText, NulFree, Filled;
      if elmt == matches.tail {
        Reset();
        return true;
      }
      var text := NextText();
      assert text == matches.Lines()[at].text;
      safe := DoWork(ctx, mode, text);
    }

    /** init_mode for the matches that the search found. */
    method InitMode(ctx: SessionContext, found: TextBuffer.TextBuf?, search: Mode) returns (safe: bool)
      requires Valid() && mode == Idle && PlainMode(search)
      requires found != null ==> found.Valid() && found.size > 0 && CStrings(found.Lines())
      requires ctx.Valid() && ctx.bufpos == ctx.numins && !ctx.insertMode
      modifies this, ctx`bufpos, ctx`numins, ctx`vispos, ctx.buffer
      ensures Valid() && ctx.Valid() && matches == found
      ensures Begun(old(Press(mode, at, ctx.View())), TextsOf(found), search, ctx.noBufspc) ==
              if safe then Some(Press(mode, at, ctx.View())) else None
    {
      hide PlainText, NulFree, Filled;
      matches := found;
      if matches == null {
        return true;
      }
      elmt := matches.head;
      assert elmt.text == matches.Lines()[0].text;
      safe := DoWork(ctx, search, elmt.text);
      mode := search;
    }

    /** The branches of readline_handle_tab behind its guard. */
    method Complete(ctx: SessionContext, found: TextBuffer.TextBuf?, search: Mode) returns (safe: bool)
      requires Valid() && PlainMode(search)
      requires found != null ==> found.Valid() && found.size > 0 && CStrings(found.Lines())
      requires ctx.Valid() && ctx.bufpos == ctx.numins && !ctx.insertMode
      modifies this, searchVar, ctx`bufpos, ctx`numins, ctx`vispos, ctx.buffer
      ensures Valid() && ctx.Valid()
      ensures mode.Circulating? ==> matches == if old(mode).Circulating? then old(matches) else found
      ensures Completed(old(Press(mode, at, ctx.View())),
                        if old(mode).Circulating? then old(MatchTexts()) else TextsOf(found), search, ctx.noBufspc)
              == if safe then Some(Press(mode, at, ctx.View())) else None
      ensures old(mode.Idle? && Storable(ctx.View().left)) ==> HoldsString(searchVar[..], old(Multibyte(ctx.View().left)))
    {
      hide PlainText, CStrings, Advanced, Begun, Storable, Multibyte;
      safe := true;
      if mode.Circulating? {
        safe := AcDoit(ctx);
      } else {
        var stored := StoreSearchVar(ctx);
        if stored {
          safe := InitMode(ctx, found, search);
        }
      }
    }

    /** readline_handle_tab at the top of the key loop. What a new search looks for is in the search
        variable. */
    method HandleTab(ctx: SessionContext, found: TextBuffer.TextBuf?, search: Mode) returns (safe: bool)
      requires Valid() && PlainMode(search)
      requires found != null ==> found.Valid() && found.size > 0 && CStrings(found.Lines())
      requires ctx.Valid() && ctx.Fresh()
      modifies this, searchVar, ctx`bufpos, ctx`numins, ctx`vispos, ctx.buffer
      ensures Valid() && ctx.Valid()
      ensures mode.Circulating? ==> matches == if old(mode).Circulating? then old(matches) else found
      ensures Pressed(old(Press(mode, at, ctx.View())),
                      if old(mode).Circulating? then old(MatchTexts()) else TextsOf(found), search)
              == if safe then Some(Press(mode, at, ctx.View())) else None
      ensures old(mode.Idle? && Tabbable(ctx.View()) && Storable(ctx.View().left)) ==>
                HoldsString(searchVar[..], old(Multibyte(ctx.View().left)))
    {
      hide Completed, Tabbable, PlainText, CStrings, Storable, Multibyte;
      var ok := CanTab(ctx);
      if !ok {
        Reset();
        return true;
      }
      safe := Complete(ctx, found, search);
    }
  }

  // ----- What a Tab shows -----

  /** The line shows the match: submitted, it is the bytes of the match between the texts of the
      mode. */
  ghost predicate Shows(line: Zipper, mode: Mode, text: string)
    requires mode.Circulating?
  {
    line.right == [] && Utf8.Encodable(line.left) && Utf8.Encode(line.left) == mode.before + ByteText(text) + mode.after
  }

  lemma {:induction false} AsciiEncodesAsItself(w: seq<int>)
    requires forall k :: 0 <= k < |w| ==> 0 < w[k] < 0x80
    ensures Utf8.Encodable(w) && Utf8.Encode(w) == w
  {
    if w != [] {
      AsciiEncodesAsItself(w[1..]);
      assert [w[0]] + w[1..] == w;
    }
  }

  /** An ASCII line without codes is its own multibyte form. */
  lemma PlainLine(w: seq<int>)
    requires PlainText(w)
    ensures Multibyte(w) == w && !Decorated(w)
  {
    AsciiEncodesAsItself(w);
  }

  /** What is typed for a match shows it exactly when the match is ASCII: any other byte is typed as
      WEOF, which no conversion takes back. */
  lemma FilledShows(mode: Mode, text: string)
    requires PlainMode(mode) && NulFree(text)
    ensures Shows(Zipper(Filled(mode, text), []), mode, text) <==> Ascii(text)
  {
    var w := Filled(mode, text);
    if Ascii(text) {
      AsciiEncodesAsItself(w);
      assert Codes(text) == ByteText(text);
    } else {
      var k :| 0 <= k < |text| && text[k] as int >= 0x80;
      assert w[|mode.before| + k] == Codes(text)[k] == WEOF;
      assert Utf8.Bytes(w[|mode.before| + k]) == [];
    }
  }

  /** The line `w` is one from which Tab shows `text`, and `text` is one that Tab can show. */
  ghost predicate Showable(w: seq<int>, mode: Mode, text: string)
    requires mode.Circulating?
  {
    |w| < BUFSIZE - 1 && |Filled(mode, text)| <= BUFSIZE && Ascii(text)
  }

  lemma PlayedShows(full: bool, mode: Mode, text: string)
    requires PlainMode(mode) && NulFree(text)
    ensures var z := Played(full, Filled(mode, text));
            z.Some? && Shows(z.value, mode, text) <==> !full && |Filled(mode, text)| <= BUFSIZE && Ascii(text)
  {
    FilledShows(mode, text);
  }

  /** The next Tab shows the next match if and only if the line is not full, the match fits the
      line with the texts around it, and it is ASCII. On a full line it leaves an empty one, and the
      Tab after that ends the circulation. */
  lemma NextTabShowsNextMatch(w: seq<int>, at: nat, texts: seq<string>, mode: Mode, search: Mode)
    requires search.Circulating? && PlainMode(mode) && at + 1 < |texts| && NulFree(texts[at + 1])
    requires w != [] && !Decorated(w)
    ensures var p := Pressed(Press(mode, at, Zipper(w, [])), texts, search);
            && (p.Some? && Shows(p.value.line, mode, texts[at + 1]) <==> Showable(w, mode, texts[at + 1]))
            && (|w| >= BUFSIZE - 1 ==>
                  p == Some(Press(mode, at + 1, EMPTY))
                  && Pressed(p.value, texts, search) == Some(Press(Idle, 0, EMPTY)))
  {
    hide Shows, Decorated, Filled, PlainText;
    PlayedShows(|w| + 1 >= BUFSIZE, mode, texts[at + 1]);
  }

  /** The first Tab shows the first match if and only if the searched text has fewer than 64 bytes, and
      the match fits the line and is ASCII. A longer text is not searched for, and stays. */
  lemma FirstTabShowsFirstMatch(w: seq<int>, texts: seq<string>, search: Mode)
    requires PlainMode(search) && texts != [] && NulFree(texts[0])
    requires w != [] && !Decorated(w)
    ensures var p := Pressed(Press(Idle, 0, Zipper(w, [])), texts, search);
            && (p.Some? && p.value.mode == search && Shows(p.value.line, search, texts[0]) <==>
                Storable(w) && Showable(w, search, texts[0]))
            && (!Storable(w) ==> p == Some(Press(Idle, 0, Zipper(w, []))))
  {
    hide Shows, Decorated, Filled, PlainText, Storable;
    PlayedShows(|w| + 1 >= BUFSIZE, search, texts[0]);
  }

  /** A long search: "/msg #" and 58 letters, 64 bytes in all. Whatever matches, nothing is shown. */
  lemma LongSearchFails(texts: seq<string>, search: Mode)
    requires PlainMode(search)
    ensures var w := [0x2F, 0x6D, 0x73, 0x67, 0x20, 0x23] + seq(58, i => 'a' as int);
            Pressed(Press(Idle, 0, Zipper(w, [])), texts, search) == Some(Press(Idle, 0, Zipper(w, [])))
  {
    var w := [0x2F, 0x6D, 0x73, 0x67, 0x20, 0x23] + seq(58, i => 'a' as int);
    forall k | 0 <= k < |w| ensures 0 < w[k] < 0x80 && !TextDecoration.IsFormat(w[k]) {
      assert k >= 6 ==> w[k] == 'a' as int;
    }
    PlainLine(w);
  }

  /** A full line: 1999 letters. */
  lemma FullLineFails(texts: seq<string>)
    requires |texts| > 1 && NulFree(texts[1]) && Ascii(texts[1])
    ensures var w := seq(BUFSIZE - 1, i => 'a' as int);
            Pressed(Press(Circulating([], [0x3A, 0x20]), 0, Zipper(w, [])), texts, Circulating([], [0x3A, 0x20]))
            == Some(Press(Circulating([], [0x3A, 0x20]), 1, EMPTY))
  {
    var w := seq(BUFSIZE - 1, i => 'a' as int);
    var mode := Circulating([], [0x3A, 0x20]);
    forall k | 0 <= k < |w| ensures 0 < w[k] < 0x80 && !TextDecoration.IsFormat(w[k]) {
      assert w[k] == 'a' as int;
    }
    PlainLine(w);
    NextTabShowsNextMatch(w, 0, texts, mode, mode);
  }

  /** A long match: 2001 letters, after a line of one letter. */
  lemma LongMatchFails(texts: seq<string>)
    requires |texts| > 1 && texts[1] == seq(BUFSIZE + 1, i => 'a')
    ensures Pressed(Press(Circulating([], [0x3A, 0x20]), 0, Zipper(['a' as int], [])), texts, Circulating([], [0x3A, 0x20]))
            == None
  {
    PlainLine(['a' as int]);
  }

  /** A match that is not ASCII: the channel "#größe" in UTF-8, after "#g". */
  lemma NonAsciiMatchFails(texts: seq<string>)
    requires |texts| > 1 && texts[1] == ['#', 'g', 'r', 0xC3 as char, 0xB6 as char, 0xC3 as char, 0x9F as char, 'e']
    ensures var mode := Circulating([0x2F, 0x6D, 0x73, 0x67, 0x20], []);
            var p := Pressed(Press(mode, 0, Zipper(['#' as int, 'g' as int], [])), texts, mode);
            p.Some? && |p.value.line.left| == 13 && !Shows(p.value.line, mode, texts[1])
  {
    var mode := Circulating([0x2F, 0x6D, 0x73, 0x67, 0x20], []);
    var w := ['#' as int, 'g' as int];
    assert texts[1][3] as int == 0xC3;
    assert !Ascii(texts[1]);
    PlainLine(w);
    NextTabShowsNextMatch(w, 0, texts, mode, mode);
  }

  // ----- Runs of Tabs -----

  ghost function PressedTimes(p: Press, texts: seq<string>, search: Mode, n: nat): Option<Press>
    requires search.Circulating?
  {
    if n == 0 then Some(p)
    else
      match PressedTimes(p, texts, search, n - 1)
      case None => None
      case Some(q) => Pressed(q, texts, search)
  }

  /** The n-th Tab shows the n-th match, and the circulation stands there. */
  ghost predicate ShownBy(line: seq<int>, texts: seq<string>, search: Mode, n: nat)
    requires search.Circulating? && 1 <= n <= |texts|
  {
    var p := PressedTimes(Press(Idle, 0, Zipper(line, [])), texts, search, n);
    p.Some? && p.value.mode == search && p.value.at == n - 1 && Shows(p.value.line, search, texts[n - 1])
  }

  /** The k-th match can be shown, and the line before it lets Tab go on; for the first match that is
      the searched text, and it has to fit the search variable. */
  ghost predicate Reachable(line: seq<int>, texts: seq<string>, search: Mode, k: nat)
    requires search.Circulating? && k < |texts|
  {
    var w := if k == 0 then line else Filled(search, texts[k - 1]);
    !Decorated(w) && (k == 0 ==> Storable(w)) && Showable(w, search, texts[k])
  }

  /** What one more Tab does in a circulation that has shown every match so far. */
  lemma CirculationStep(line: seq<int>, texts: seq<string>, search: Mode, n: nat)
    requires PlainMode(search) && line != [] && !Decorated(line) && n < |texts| && NulFree(texts[n])
    requires PressedTimes(Press(Idle, 0, Zipper(line, [])), texts, search, n) ==
             Some(if n == 0 then Press(Idle, 0, Zipper(line, [])) else Press(search, n - 1, Zipper(Filled(search, texts[n - 1]), [])))
    ensures ShownBy(line, texts, search, n + 1) <==> Reachable(line, texts, search, n)
    ensures Reachable(line, texts, search, n) ==>
              PressedTimes(Press(Idle, 0, Zipper(line, [])), texts, search, n + 1) ==
              Some(Press(search, n, Zipper(Filled(search, texts[n]), [])))
  {
    hide Shows, Decorated, Filled, PlainText;
    var w := if n == 0 then line else Filled(search, texts[n - 1]);
    PlayedShows(|w| + 1 >= BUFSIZE, search, texts[n]);
    FilledNotEmpty(search, texts[if n == 0 then 0 else n - 1]);
  }

  lemma FilledNotEmpty(mode: Mode, text: string)
    requires PlainMode(mode)
    ensures Filled(mode, text) != []
  {
  }

  /** The k-th Tab shows the k-th match, each once and in list order, if and only if the searched text
      has fewer than 64 bytes, every match is ASCII and fits the line, and no match but the last fills
      the line or holds formatting codes. */
  lemma {:induction false} CirculationShowsEachMatch(line: seq<int>, texts: seq<string>, search: Mode, n: nat)
    requires PlainMode(search) && line != [] && !Decorated(line) && n <= |texts|
    requires forall k :: 0 <= k < |texts| ==> NulFree(texts[k])
    ensures (forall k :: 1 <= k <= n ==> ShownBy(line, texts, search, k)) <==>
            (forall k :: 0 <= k < n ==> Reachable(line, texts, search, k))
    ensures (forall k :: 0 <= k < n ==> Reachable(line, texts, search, k)) ==>
              PressedTimes(Press(Idle, 0, Zipper(line, [])), texts, search, n) ==
              Some(if n == 0 then Press(Idle, 0, Zipper(line, [])) else Press(search, n - 1, Zipper(Filled(search, texts[n - 1]), [])))
    decreases n
  {
    hide PlainText, Decorated, ShownBy, Reachable, Pressed, NulFree;
    if n > 0 {
      CirculationShowsEachMatch(line, texts, search, n - 1);
      if forall k :: 0 <= k < n - 1 ==> Reachable(line, texts, search, k) {
        CirculationStep(line, texts, search, n - 1);
      }
    }
  }

  /** The Tab behind the last match ends the circulation and leaves the line alone. */
  lemma CirculationEnds(line: seq<int>, texts: seq<string>, search: Mode)
    requires PlainMode(search) && line != [] && !Decorated(line) && texts != []
    requires forall k :: 0 <= k < |texts| ==> NulFree(texts[k]) && Reachable(line, texts, search, k)
    ensures PressedTimes(Press(Idle, 0, Zipper(line, [])), texts, search, |texts| + 1) ==
            Some(Press(Idle, 0, Zipper(Filled(search, texts[|texts| - 1]), [])))
  {
    hide PlainText, Reachable, Decorated, Filled, Played, ShownBy;
    CirculationShowsEachMatch(line, texts, search, |texts|);
  }

  // ----- One Tab, spelled out -----

  /** The search variable takes a line that can be converted exactly when it has fewer than 64 bytes,
      and any other line as the empty text. */
  lemma StorableExactly(w: seq<int>)
    ensures Storable(w) <==> !Utf8.Encodable(w) || |Utf8.Encode(w)| < 64
  {
  }

  /** Tab does nothing but end the circulation on an empty line, with the cursor inside the line, or
      on a line with codes. */
  lemma TabIsRefused(p: Press, texts: seq<string>, search: Mode)
    requires search.Circulating?
    requires p.line.left == [] || p.line.right != [] || (Utf8.Encodable(p.line.left) && TextDecoration.HasFormat(p.line.left))
    ensures Pressed(p, texts, search) == Some(Press(Idle, 0, p.line))
  {
    DecoratedExactly(p.line.left);
  }

  /** The cells of an ASCII text. */
  ghost predicate CellsOf(text: string, cells: seq<int>) {
    |cells| == |text| && forall k :: 0 <= k < |text| ==> text[k] as int == cells[k] < 0x80
  }

  lemma CellsOfExample()
    ensures CellsOf("#d", [0x23, 0x64])
  {
  }

  lemma AsciiCodes(text: string, cells: seq<int>)
    requires CellsOf(text, cells)
    ensures Codes(text) == cells
  {
  }

  /** The first Tab on an ASCII line: nothing without a match or from 64 characters on; otherwise the
      cells of the match between the texts of the mode, if they are at most 2000. */
  lemma FirstTabTypes(w: seq<int>, texts: seq<string>, search: Mode, cells: seq<int>)
    requires PlainMode(search) && PlainText(w) && w != []
    requires texts != [] ==> CellsOf(texts[0], cells)
    ensures var p := Press(Idle, 0, Zipper(w, []));
            Pressed(p, texts, search) ==
              if |w| >= 64 || texts == [] then Some(p)
              else if |search.before| + |cells| + |search.after| > 2000 then None
              else Some(Press(search, 0, Zipper(search.before + cells + search.after, [])))
  {
    hide PlainText, Codes, Decorated;
    PlainLine(w);
    if texts != [] {
      AsciiCodes(texts[0], cells);
    }
  }

  /** Any other Tab on an ASCII line: behind the last match the circulation ends; from 1999 characters
      on the line is emptied; otherwise the cells of the next match, if they are at most 2000. */
  lemma NextTabTypes(w: seq<int>, at: nat, texts: seq<string>, mode: Mode, search: Mode, cells: seq<int>)
    requires search.Circulating? && PlainMode(mode) && PlainText(w) && w != []
    requires at + 1 < |texts| ==> CellsOf(texts[at + 1], cells)
    ensures var p := Press(mode, at, Zipper(w, []));
            Pressed(p, texts, search) ==
              if at + 1 >= |texts| then Some(Press(Idle, 0, Zipper(w, [])))
              else if |w| >= 1999 then Some(Press(mode, at + 1, Zipper([], [])))
              else if |mode.before| + |cells| + |mode.after| > 2000 then None
              else Some(Press(mode, at + 1, Zipper(mode.before + cells + mode.after, [])))
  {
    hide PlainText, Codes, Decorated;
    PlainLine(w);
    if at + 1 < |texts| {
      AsciiCodes(texts[at + 1], cells);
    }
  }
}
