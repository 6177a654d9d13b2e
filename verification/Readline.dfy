/** The line editor of src/readline.c: a wide-character buffer with a cursor, a count and a
    visual column, edited by keystrokes. */
module Readline {
  /** g_readline_bufsize; the buffer has one cell more. */
  const BUFSIZE: nat := 2000

  /** The edited line around the cursor. */
  datatype Zipper = Zipper(left: seq<int>, right: seq<int>) {
    function Size(): nat { |left| + |right| }
  }

  const EMPTY := Zipper([], [])

  /** What wget_wch delivers, by the branch of the key switch that takes it. `Other` stands for
      the keys that touch neither the line nor the session. */
  datatype Key =
    | Typed(wc: int) | Decoration(wc: int)
    | Backspace | Delete | Left | Right | Home | End
    | Other | Enter | Abort

  /** How a session ends; `Waiting` when the keys run out first. */
  datatype Outcome = Waiting | Aborted | Submitted(text: seq<int>)

  // ----- Editing on zippers -----

  function Insert(z: Zipper, wc: int): Zipper {
    if z.Size() + 1 >= BUFSIZE then z else Zipper(z.left + [wc], z.right)
  }

  function Erase(z: Zipper): Zipper {
    if z.left == [] then z else Zipper(z.left[..|z.left| - 1], z.right)
  }

  function EraseNext(z: Zipper): Zipper {
    if z.right == [] then z else Zipper(z.left, z.right[1..])
  }

  function Back(z: Zipper): Zipper {
    if z.left == [] then z
    else Zipper(z.left[..|z.left| - 1], [z.left[|z.left| - 1]] + z.right)
  }

  function Forth(z: Zipper): Zipper {
    if z.right == [] then z else Zipper(z.left + [z.right[0]], z.right[1..])
  }

  /** One key that keeps the session going. */
  function Edited(z: Zipper, key: Key, accepts: int -> bool): Zipper {
    match key
    case Typed(wc) => if accepts(wc) then Insert(z, wc) else z
    case Decoration(wc) => Insert(z, wc)
    case Backspace => Erase(z)
    case Delete => EraseNext(z)
    case Left => Back(z)
    case Right => Forth(z)
    case Home => Zipper([], z.left + z.right)
    case End => Zipper(z.left + z.right, [])
    case _ => z
  }

  /** The session from key `i` on, with the line `z` so far. */
  function Session(z: Zipper, keys: seq<Key>, i: nat, accepts: int -> bool): Outcome
    requires i <= |keys|
    decreases |keys| - i
  {
    if i == |keys| then Waiting
    else if keys[i] == Abort then Aborted
    else if keys[i] == Enter then (if z.Size() == 0 then Aborted else Submitted(z.left + z.right))
    else Session(Edited(z, keys[i], accepts), keys, i + 1, accepts)
  }

  /** The line after the keys from `i` on, in a session that none of them ends. */
  function Edits(z: Zipper, keys: seq<Key>, i: nat, accepts: int -> bool): Zipper
    requires i <= |keys|
    decreases |keys| - i
  {
    if i == |keys| then z else Edits(Edited(z, keys[i], accepts), keys, i + 1, accepts)
  }

  // ----- Editing on a plain line with a cursor index -----

  datatype Line = Line(text: seq<int>, cursor: nat)

  function Flat(z: Zipper): Line {
    Line(z.left + z.right, |z.left|)
  }

  /** What a key does to a line, said with positions in the text. */
  function EditedLine(l: Line, key: Key, accepts: int -> bool): (r: Line)
    requires l.cursor <= |l.text|
    ensures r.cursor <= |r.text|
  {
    var c := l.cursor;
    if key.Decoration? || (key.Typed? && accepts(key.wc)) then
      if |l.text| < BUFSIZE - 1 then Line(l.text[..c] + [key.wc] + l.text[c..], c + 1) else l
    else
      match key
      case Backspace => if c > 0 then Line(l.text[..c - 1] + l.text[c..], c - 1) else l
      case Delete => if c < |l.text| then Line(l.text[..c] + l.text[c + 1..], c) else l
      case Left => l.(cursor := if c > 0 then c - 1 else 0)
      case Right => l.(cursor := if c < |l.text| then c + 1 else c)
      case Home => l.(cursor := 0)
      case End => l.(cursor := |l.text|)
      case _ => l
  }

  function LineSession(l: Line, keys: seq<Key>, i: nat, accepts: int -> bool): Outcome
    requires i <= |keys| && l.cursor <= |l.text|
    decreases |keys| - i
  {
    if i == |keys| then Waiting
    else if keys[i] == Abort then Aborted
    else if keys[i] == Enter then (if l.text == [] then Aborted else Submitted(l.text))
    else LineSession(EditedLine(l, keys[i], accepts), keys, i + 1, accepts)
  }

  function LineEdits(l: Line, keys: seq<Key>, i: nat, accepts: int -> bool): Line
    requires i <= |keys| && l.cursor <= |l.text|
    decreases |keys| - i
  {
    if i == |keys| then l else LineEdits(EditedLine(l, keys[i], accepts), keys, i + 1, accepts)
  }

  lemma FlatBack(z: Zipper)
    requires z.left != []
    ensures Flat(Back(z)) == Line(Flat(z).text, |z.left| - 1)
  {
    var n := |z.left| - 1;
    assert z.left[..n] + ([z.left[n]] + z.right) == z.left + z.right;
  }

  lemma FlatForth(z: Zipper)
    requires z.right != []
    ensures Flat(Forth(z)) == Line(Flat(z).text, |z.left| + 1)
  {
    assert (z.left + [z.right[0]]) + z.right[1..] == z.left + z.right;
  }

  lemma FlatErase(z: Zipper)
    requires z.left != []
    ensures Flat(Erase(z)).text == Flat(z).text[..|z.left| - 1] + Flat(z).text[|z.left|..]
  {
    assert (z.left + z.right)[..|z.left| - 1] == z.left[..|z.left| - 1];
  }

  lemma FlatEraseNext(z: Zipper)
    requires z.right != []
    ensures Flat(EraseNext(z)).text == Flat(z).text[..|z.left|] + Flat(z).text[|z.left| + 1..]
  {
    assert (z.left + z.right)[|z.left| + 1..] == z.right[1..];
  }

  lemma EditsAgree(z: Zipper, key: Key, accepts: int -> bool)
    ensures Flat(Edited(z, key, accepts)) == EditedLine(Flat(z), key, accepts)
  {
    match key
    case Backspace => if z.left != [] { FlatErase(z); }
    case Delete => if z.right != [] { FlatEraseNext(z); }
    case Left => if z.left != [] { FlatBack(z); }
    case Right => if z.right != [] { FlatForth(z); }
    case _ =>
  }

  /** For every run of keys, editing the zipper submits what editing the line by positions
      submits, and leaves the same text with the cursor at the same place. */
  lemma {:induction false} SessionsAgree(z: Zipper, keys: seq<Key>, i: nat, accepts: int -> bool)
    requires i <= |keys|
    ensures Session(z, keys, i, accepts) == LineSession(Flat(z), keys, i, accepts)
    ensures Flat(Edits(z, keys, i, accepts)) == LineEdits(Flat(z), keys, i, accepts)
    decreases |keys| - i
  {
    hide Edited, EditedLine;
    if i < |keys| {
      EditsAgree(z, keys[i], accepts);
      SessionsAgree(Edited(z, keys[i], accepts), keys, i + 1, accepts);
    }
  }

  /** No run of keys submits more than the buffer can hold with its terminator. */
  lemma {:induction false} SubmittedFits(z: Zipper, keys: seq<Key>, i: nat, accepts: int -> bool)
    requires i <= |keys| && z.Size() < BUFSIZE
    ensures Session(z, keys, i, accepts).Submitted? ==>
              0 < |Session(z, keys, i, accepts).text| < BUFSIZE
    decreases |keys| - i
  {
    if i < |keys| && keys[i] != Abort && keys[i] != Enter {
      SubmittedFits(Edited(z, keys[i], accepts), keys, i + 1, accepts);
    }
  }

  /** Each editing key has its undoing key: exactly when it changed anything. */
  lemma UndoKeys(z: Zipper, wc: int)
    ensures Erase(Insert(z, wc)) == z <==> z.Size() + 1 < BUFSIZE || z.left == []
    ensures Forth(Back(z)) == z <==> z.left != [] || z.right == []
    ensures Back(Forth(z)) == z <==> z.right != [] || z.left == []
    ensures z.right != [] ==> Erase(Forth(z)) == EraseNext(z)
    ensures z.left != [] ==> EraseNext(Back(z)) == Erase(z)
  {
    if z.Size() + 1 < BUFSIZE {
      assert (z.left + [wc])[..|z.left|] == z.left;
    }
    if z.left != [] {
      assert z.left[..|z.left| - 1] + [z.left[|z.left| - 1]] == z.left;
      assert ([z.left[|z.left| - 1]] + z.right)[1..] == z.right;
    }
    if z.right != [] {
      assert (z.left + [z.right[0]])[..|z.left|] == z.left;
      assert [z.right[0]] + z.right[1..] == z.right;
    }
  }

  /** Typing `s` with the cursor anywhere puts `s` in front of the cursor, and cuts it off where
      the line is full; what was there keeps its place on both sides. */
  lemma {:induction false} TypingSpells(z: Zipper, keys: seq<Key>, i: nat, s: seq<int>, accepts: int -> bool)
    requires i + |s| <= |keys| && z.Size() < BUFSIZE
    requires forall k :: 0 <= k < |s| ==> keys[i + k] == Typed(s[k]) && accepts(s[k])
    ensures var room := BUFSIZE - 1 - z.Size();
            Session(z, keys, i, accepts) ==
            Session(Zipper(z.left + (if |s| <= room then s else s[..room]), z.right), keys, i + |s|, accepts)
    decreases |s|
  {
    var room := BUFSIZE - 1 - z.Size();
    if s == [] {
      assert z.left + s == z.left;
    } else {
      assert keys[i + 0] == Typed(s[0]);
      var z' := Insert(z, s[0]);
      forall k | 0 <= k < |s| - 1 ensures keys[i + 1 + k] == Typed(s[1..][k]) && accepts(s[1..][k]) {
        assert keys[i + (k + 1)] == Typed(s[k + 1]);
      }
      TypingSpells(z', keys, i + 1, s[1..], accepts);
      if room == 0 {
        assert z.left + s[..0] == z.left && z.left + s[1..][..0] == z.left;
      } else if |s| <= room {
        assert z'.left + s[1..] == z.left + s;
      } else {
        assert z'.left + s[1..][..room - 1] == z.left + s[..room];
      }
    }
  }

  /** Column positions taken by `s`. */
  function Width(s: seq<int>, width: int -> nat): nat {
    if s == [] then 0 else Width(s[..|s| - 1], width) + width(s[|s| - 1])
  }

  lemma WidthOfMore(s: seq<int>, c: int, width: int -> nat)
    ensures Width(s + [c], width) == Width(s, width) + width(c)
  {
    assert (s + [c])[..|s|] == s;
  }

  /** The first `k + 1` cells end in the `k`-th one. */
  lemma TakeNext(cells: seq<int>, k: nat)
    requires k < |cells|
    ensures cells[..k + 1][..k] == cells[..k] && cells[..k + 1] == cells[..k] + [cells[k]]
  {
  }

  lemma DropNext(cells: seq<int>, k: nat, n: nat)
    requires k < n <= |cells|
    ensures cells[k..n] == [cells[k]] + cells[k + 1..n] && cells[k..n][1..] == cells[k + 1..n]
  {
  }

  lemma Nothing(cells: seq<int>, n: nat)
    requires n <= |cells|
    ensures cells[n..n] == []
  {
  }

  /** Text below `n`, and zero from there on. */
  ghost predicate TextUpTo(cells: seq<int>, n: nat) {
    && |cells| == BUFSIZE + 1 && n <= BUFSIZE
    && (forall k :: 0 <= k < n ==> cells[k] != 0)
    && (forall k :: n <= k <= BUFSIZE ==> cells[k] == 0)
  }

  /** wmemmove within the cells. */
  function Copied(cells: seq<int>, dst: nat, src: nat, n: nat): (r: seq<int>)
    requires dst + n <= |cells| && src + n <= |cells|
    ensures |r| == |cells|
  {
    cells[..dst] + cells[src..src + n] + cells[dst + n..]
  }

  lemma GapClosed(was: seq<int>, at: nat, n: nat)
    requires TextUpTo(was, n) && at < n
    ensures var cells := Copied(was, at, at + 1, n - at - 1)[n - 1 := 0];
            TextUpTo(cells, n - 1) && cells[..at] == was[..at] && cells[at..n - 1] == was[at + 1..n]
  {
  }

  lemma LastCut(was: seq<int>, n: nat)
    requires TextUpTo(was, n) && n > 0
    ensures TextUpTo(was[n - 1 := 0], n - 1) && was[n - 1 := 0][..n - 1] == was[..n - 1]
  {
  }

  lemma LastPut(was: seq<int>, n: nat, wc: int)
    requires TextUpTo(was, n) && n < BUFSIZE && wc != 0
    ensures TextUpTo(was[n := wc], n + 1) && was[n := wc][..n + 1] == was[..n] + [wc]
  {
  }

  lemma GapOpened(was: seq<int>, at: nat, n: nat, wc: int)
    requires TextUpTo(was, n) && at <= n < BUFSIZE && wc != 0
    ensures var cells := Copied(was, at + 1, at, n - at)[at := wc];
            TextUpTo(cells, n + 1) && cells[..at + 1] == was[..at] + [wc] && cells[at + 1..n + 1] == was[at..n]
  {
  }

  // ----- The session itself -----

  class SessionContext {
    const buffer: array<int>
    var bufpos: int
    var numins: int
    var vispos: int
    var insertMode: bool
    var noBufspc: bool
    /** readline_wcwidth of the running locale. */
    const width: int -> nat

    /** The buffer holds a terminated text, and the visual column is the width of what is left of
        the cursor. */
    ghost predicate Valid()
      reads this, buffer
    {
      && buffer.Length == BUFSIZE + 1
      && 0 <= bufpos <= numins <= BUFSIZE
      && TextUpTo(buffer[..], numins)
      && vispos == Width(buffer[..bufpos], width)
    }

    ghost function View(): Zipper
      requires Valid()
      reads this, buffer
    {
      Zipper(buffer[..bufpos], buffer[bufpos..numins])
    }

    /** The two flags say what they say at the top of the key loop. */
    ghost predicate Fresh()
      reads this
    {
      insertMode == (bufpos != numins) && noBufspc == (numins + 1 >= BUFSIZE)
    }

    constructor (width: int -> nat)
      ensures Valid() && View() == EMPTY && this.width == width && fresh(buffer)
    {
      buffer := new int[BUFSIZE + 1](_ => 0);
      bufpos, numins, vispos := 0, 0, 0;
      insertMode, noBufspc := false, false;
      this.width := width;
    }

    /** wcslen from a cell of the text, whatever the cursor and column are. */
    method WcsLen(from: nat) returns (n: nat)
      requires 0 <= from <= numins && TextUpTo(buffer[..], numins)
      ensures n == numins - from
    {
      n := 0;
      while buffer[from + n] != 0
        invariant from + n <= numins
        decreases numins - n
      {
        n := n + 1;
      }
    }

    method WMemMove(dst: nat, src: nat, n: nat)
      requires dst + n <= buffer.Length && src + n <= buffer.Length
      modifies buffer
      ensures buffer[..] == Copied(old(buffer[..]), dst, src, n)
    {
      forall k | dst <= k < dst + n {
        buffer[k] := buffer[src + k - dst];
      }
    }

    /** Moves the text from cell `at + 1` on one cell to the left, without its terminator, and
        clears the cell that becomes free. */
    method CloseGap(at: nat)
      requires at < numins && TextUpTo(buffer[..], numins)
      modifies this`numins, buffer
      ensures numins == old(numins) - 1 && TextUpTo(buffer[..], numins)
      ensures buffer[..at] == old(buffer[..at]) && buffer[at..numins] == old(buffer[at + 1..numins])
    {
      hide Copied;
      ghost var was := buffer[..];
      GapClosed(was, at, numins);
      var n := WcsLen(at + 1);
      WMemMove(at, at + 1, n);
      numins := numins - 1;
      ghost var moved := buffer[..];
      buffer[numins] := 0;
      assert buffer[..] == moved[numins := 0];
    }

    /** Moves the text from cell `at` on one cell to the right, without its terminator, and puts
        `wc` in front of it. */
    method OpenGap(at: nat, wc: int)
      requires at <= numins < BUFSIZE && wc != 0 && TextUpTo(buffer[..], numins)
      modifies buffer
      ensures TextUpTo(buffer[..], numins + 1)
      ensures buffer[..at + 1] == old(buffer[..at]) + [wc] && buffer[at + 1..numins + 1] == old(buffer[at..numins])
    {
      hide Copied;
      ghost var was := buffer[..];
      GapOpened(was, at, numins, wc);
      var n := WcsLen(at);
      WMemMove(at + 1, at, n);
      ghost var moved := buffer[..];
      buffer[at] := wc;
      assert buffer[..] == moved[at := wc];
    }

    /** Clears the last cell of the text. */
    method CutLast()
      requires 0 < numins && TextUpTo(buffer[..], numins)
      modifies this`numins, buffer
      ensures numins == old(numins) - 1 && TextUpTo(buffer[..], numins)
      ensures buffer[..numins] == old(buffer[..numins - 1])
      ensures buffer[numins..numins] == old(buffer[numins..numins])
    {
      ghost var was := buffer[..];
      LastCut(was, numins);
      buffer[numins - 1] := 0;
      assert buffer[..] == was[numins - 1 := 0];
      numins := numins - 1;
    }

    /** case_key_backspace */
    method CaseKeyBackspace() returns (beep: bool)
      requires Valid() && insertMode == (bufpos != numins)
      modifies this`bufpos, this`numins, this`vispos, buffer
      ensures Valid() && View() == Erase(old(View())) && insertMode == (bufpos != numins)
      ensures beep <==> old(View()).left == []
    {
      if bufpos == 0 {
        return true;
      }
      hide Width, TextUpTo;
      ghost var cells := buffer[..];
      TakeNext(cells, bufpos - 1);
      WidthOfMore(cells[..bufpos - 1], cells[bufpos - 1], width);
      var w := width(buffer[bufpos - 1]);
      if insertMode {
        bufpos := bufpos - 1;
        CloseGap(bufpos);
      } else {
        bufpos := bufpos - 1;
        CutLast();
      }
      if w > 0 {
        vispos := vispos - w;
      }
      beep := false;
    }

    /** case_key_dc */
    method CaseKeyDc() returns (beep: bool)
      requires Valid() && insertMode == (bufpos != numins)
      modifies this`numins, buffer
      ensures Valid() && View() == EraseNext(old(View())) && numins <= old(numins)
      ensures beep <==> old(View()).right == []
    {
      hide Width, TextUpTo;
      if !insertMode {
        return true;
      }
      DropNext(buffer[..], bufpos, numins);
      CloseGap(bufpos);
      beep := false;
    }

    /** case_key_left */
    method CaseKeyLeft() returns (beep: bool)
      requires Valid()
      modifies this`bufpos, this`vispos
      ensures Valid() && View() == Back(old(View())) && bufpos == if old(bufpos) == 0 then 0 else old(bufpos) - 1
      ensures beep <==> old(View()).left == []
    {
      hide Width, TextUpTo;
      if bufpos == 0 {
        return true;
      }
      ghost var cells := buffer[..];
      bufpos := bufpos - 1;
      var w := width(buffer[bufpos]);
      TakeNext(cells, bufpos);
      DropNext(cells, bufpos, numins);
      WidthOfMore(cells[..bufpos], cells[bufpos], width);
      if w > 0 {
        vispos := vispos - w;
      }
      beep := false;
    }

    /** case_key_right */
    method CaseKeyRight() returns (beep: bool)
      requires Valid() && insertMode == (bufpos != numins)
      modifies this`bufpos, this`vispos
      ensures Valid() && View() == Forth(old(View())) && bufpos == if old(bufpos) == numins then numins else old(bufpos) + 1
      ensures beep <==> old(View()).right == []
    {
      hide Width, TextUpTo;
      if !insertMode {
        return true;
      }
      ghost var cells := buffer[..];
      TakeNext(cells, bufpos);
      DropNext(cells, bufpos, numins);
      WidthOfMore(cells[..bufpos], cells[bufpos], width);
      var w := width(buffer[bufpos]);
      bufpos := bufpos + 1;
      if w > 0 {
        vispos := vispos + w;
      }
      beep := false;
    }

    /** handle_key. `noBufspc` is the caller's: it is refreshed by the key loop only. */
    method HandleKey(wc: int) returns (beep: bool)
      requires Valid() && insertMode == (bufpos != numins) && wc != 0
      requires !noBufspc ==> numins < BUFSIZE
      modifies this`bufpos, this`numins, this`vispos, buffer
      ensures Valid() && beep == noBufspc && insertMode == (bufpos != numins)
      ensures View() == if noBufspc then old(View()) else Zipper(old(View()).left + [wc], old(View()).right)
    {
      hide Width, TextUpTo;
      if noBufspc {
        return true;
      }
      ghost var cells := buffer[..];
      var w := width(wc);
      WidthOfMore(cells[..bufpos], wc, width);
      if insertMode {
        OpenGap(bufpos, wc);
      } else {
        buffer[bufpos] := wc;
        LastPut(cells, numins, wc);
        assert buffer[..] == cells[bufpos := wc];
        Nothing(cells, numins);
        Nothing(buffer[..], numins + 1);
      }
      bufpos := bufpos + 1;
      numins := numins + 1;
      vispos := vispos + w;
      beep := false;
    }

    /** CTRL+A: left until the beginning. */
    method MoveToBeginning()
      requires Valid() && Fresh()
      modifies this`bufpos, this`vispos, this`insertMode
      ensures Valid() && View() == Zipper([], old(View()).left + old(View()).right)
    {
      hide Width, Back, TextUpTo;
      ghost var text := Flat(View()).text;
      while bufpos != 0
        invariant Valid() && Flat(View()).text == text
        decreases bufpos
      {
        FlatBack(View());
        var _ := CaseKeyLeft();
        insertMode := bufpos != numins;
      }
      assert View().left == [] && [] + View().right == text;
    }

    /** CTRL+E: right until the end. */
    method MoveToEnd()
      requires Valid() && Fresh()
      modifies this`bufpos, this`vispos, this`insertMode
      ensures Valid() && View() == Zipper(old(View()).left + old(View()).right, [])
    {
      hide Width, Forth, TextUpTo;
      ghost var text := Flat(View()).text;
      while insertMode
        invariant Valid() && Flat(View()).text == text && insertMode == (bufpos != numins)
        decreases numins - bufpos
      {
        FlatForth(View());
        var _ := CaseKeyRight();
        insertMode := bufpos != numins;
      }
      assert View().right == [] && View().left + [] == text;
    }

    /** The key switch, for a key that keeps the session going. */
    method Dispatch(key: Key, accepts: int -> bool)
      requires Valid() && Fresh() && numins < BUFSIZE && !accepts(0)
      requires key.Decoration? ==> key.wc != 0
      modifies this, buffer
      ensures Valid() && View() == Edited(old(View()), key, accepts) && numins < BUFSIZE
    {
      hide Width, TextUpTo;
      match key {
        case Home => MoveToBeginning();
        case End => MoveToEnd();
        case Left => var _ := CaseKeyLeft();
        case Right => var _ := CaseKeyRight();
        case Backspace => var _ := CaseKeyBackspace();
        case Delete => var _ := CaseKeyDc();
        case Decoration(wc) => var _ := HandleKey(wc);
        case Typed(wc) =>
          if accepts(wc) {
            var _ := HandleKey(wc);
          }
        case _ =>
      }
    }

    /** The key loop of process on a new session. */
    method Process(keys: seq<Key>, accepts: int -> bool) returns (out: Outcome)
      requires Valid() && View() == EMPTY && !accepts(0)
      requires forall k :: 0 <= k < |keys| && keys[k].Decoration? ==> keys[k].wc != 0
      modifies this, buffer
      ensures Valid() && out == Session(EMPTY, keys, 0, accepts)
      ensures out.Waiting? ==> View() == Edits(EMPTY, keys, 0, accepts)
    {
      hide Edited, Width;
      var i := 0;
      while i < |keys|
        invariant 0 <= i <= |keys| && Valid() && numins < BUFSIZE
        invariant Session(View(), keys, i, accepts) == Session(EMPTY, keys, 0, accepts)
        invariant Edits(View(), keys, i, accepts) == Edits(EMPTY, keys, 0, accepts)
      {
        insertMode := bufpos != numins;
        noBufspc := numins + 1 >= BUFSIZE;
        var key := keys[i];
        if key == Abort {
          return Aborted;
        }
        if key == Enter {
          if numins > 0 {
            buffer[numins] := 0;
            assert buffer[..numins] == View().left + View().right;
            return Submitted(buffer[..numins]);
          }
          return Aborted;
        }
        Dispatch(key, accepts);
        i := i + 1;
      }
      out := Waiting;
    }
  }
}
