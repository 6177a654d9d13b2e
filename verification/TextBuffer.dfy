/** The doubly linked text buffer of src/textBuffer.c, and the cap that vprinttext puts on a
    window's buffer. */
module TextBuffer {
  datatype Errno = Ok | EINVAL

  datatype Line = Line(text: string, indent: int)

  class Element {
    var text: string
    var indent: int
    var prev: Element?
    var next: Element?

    constructor (text: string, indent: int)
      ensures this.text == text && this.indent == indent
    {
      this.text, this.indent := text, indent;
      prev, next := null, null;
    }
  }

  /** The element at position `i`, null on either side of the list. */
  ghost function At(s: seq<Element>, i: int): Element? {
    if 0 <= i < |s| then s[i] else null
  }

  ghost predicate LinkedAt(s: seq<Element>, i: int)
    requires 0 <= i < |s|
    reads s
  {
    s[i].prev == At(s, i - 1) && s[i].next == At(s, i + 1)
  }

  ghost predicate Distinct(s: seq<Element>) {
    forall i, j :: 0 <= i < j < |s| ==> s[i] != s[j]
  }

  /** The elements of `s` are chained in this order, in both directions. */
  ghost predicate Chain(s: seq<Element>)
    reads s
  {
    && Distinct(s)
    && (forall i :: 0 <= i < |s| ==> LinkedAt(s, i))
  }

  ghost function LineAt(s: seq<Element>, i: int): Line
    requires 0 <= i < |s|
    reads s
  {
    Line(s[i].text, s[i].indent)
  }

  ghost function LinesOf(s: seq<Element>): (lines: seq<Line>)
    reads s
    ensures |lines| == |s| && forall i :: 0 <= i < |s| ==> lines[i] == LineAt(s, i)
  {
    seq(|s|, i requires 0 <= i < |s| reads s => LineAt(s, i))
  }

  /** The links of `s[i]` after `e` was linked in before position `k`. */
  ghost predicate RelinkedAt(s: seq<Element>, k: int, e: Element, i: int)
    requires 0 <= i < |s|
    reads s
  {
    && s[i].prev == (if i == k then e else At(s, i - 1))
    && s[i].next == (if i == k - 1 then e else At(s, i + 1))
  }

  ghost predicate RelinkedIn(s: seq<Element>, k: int, e: Element)
    reads s
  {
    forall i :: 0 <= i < |s| ==> RelinkedAt(s, k, e, i)
  }

  /** The links of `s[i]` after position `k` was bridged over. */
  ghost predicate RelinkedOut(s: seq<Element>, k: int, i: int)
    requires 0 <= i < |s|
    reads s
  {
    && s[i].prev == At(s, if i == k + 1 then k - 1 else i - 1)
    && s[i].next == At(s, if i == k - 1 then k + 1 else i + 1)
  }

  ghost function Inserted(s: seq<Element>, k: nat, e: Element): (t: seq<Element>)
    requires k <= |s|
    ensures |t| == |s| + 1 && t[k] == e
    ensures forall i :: 0 <= i < k ==> t[i] == s[i]
    ensures forall i :: k < i <= |s| ==> t[i] == s[i - 1]
  {
    s[..k] + [e] + s[k..]
  }

  ghost function Removed(s: seq<Element>, k: nat): (t: seq<Element>)
    requires k < |s|
    ensures |t| == |s| - 1
    ensures forall i :: 0 <= i < k ==> t[i] == s[i]
    ensures forall i :: k <= i < |s| - 1 ==> t[i] == s[i + 1]
  {
    s[..k] + s[k + 1..]
  }

  lemma SpliceIn(s: seq<Element>, k: nat, e: Element)
    requires k <= |s| && e !in s && e.prev == At(s, k - 1) && e.next == At(s, k)
    requires Distinct(s)
    requires RelinkedIn(s, k, e)
    ensures Chain(Inserted(s, k, e))
    ensures LinesOf(Inserted(s, k, e)) == LinesOf(s)[..k] + [Line(e.text, e.indent)] + LinesOf(s)[k..]
  {
    var t := Inserted(s, k, e);
    forall i | 0 <= i < |t| ensures LinkedAt(t, i) {
      if i < k {
        assert RelinkedAt(s, k, e, i);
      } else if i > k {
        assert RelinkedAt(s, k, e, i - 1);
      }
    }
  }

  lemma SpliceOut(s: seq<Element>, k: nat)
    requires k < |s|
    requires Distinct(s)
    requires forall i :: 0 <= i < |s| && i != k ==> RelinkedOut(s, k, i)
    ensures Chain(Removed(s, k))
    ensures LinesOf(Removed(s, k)) == LinesOf(s)[..k] + LinesOf(s)[k + 1..]
  {
    var t := Removed(s, k);
    forall i | 0 <= i < |t| ensures LinkedAt(t, i) {
      assert RelinkedOut(s, k, if i < k then i else i + 1);
    }
  }

  class TextBuf {
    var size: int
    var head: Element?
    var tail: Element?
    /** The elements from head to tail. */
    ghost var elmts: seq<Element>

    ghost predicate Valid()
      reads this, elmts
    {
      size == |elmts| && head == At(elmts, 0) && tail == At(elmts, size - 1) && Chain(elmts)
    }

    /** What the buffer holds, as a plain sequence. */
    ghost function Lines(): seq<Line>
      reads this, elmts
    {
      LinesOf(elmts)
    }

    constructor ()
      ensures Valid() && Lines() == []
    {
      size, head, tail, elmts := 0, null, null, [];
    }

    /** The element reached from `e` by `n` steps along `next`. */
    ghost function Forward(e: Element?, n: nat): Element?
      reads this, elmts
    {
      if n == 0 || e == null || e !in elmts then e else Forward(e.next, n - 1)
    }

    /** The element reached from `e` by `n` steps along `prev`. */
    ghost function Backward(e: Element?, n: nat): Element?
      reads this, elmts
    {
      if n == 0 || e == null || e !in elmts then e else Backward(e.prev, n - 1)
    }

    lemma {:induction false} ForwardFrom(k: int, n: nat)
      requires Valid() && 0 <= k
      ensures Forward(At(elmts, k), n) == At(elmts, k + n)
      decreases n
    {
      if n > 0 && k < |elmts| {
        assert LinkedAt(elmts, k);
        ForwardFrom(k + 1, n - 1);
      }
    }

    lemma {:induction false} BackwardFrom(k: int, n: nat)
      requires Valid() && k < |elmts|
      ensures Backward(At(elmts, k), n) == At(elmts, k - n)
      decreases n
    {
      if n > 0 && 0 <= k {
        assert LinkedAt(elmts, k);
        BackwardFrom(k - 1, n - 1);
      }
    }

    /** Walking back from the tail meets the elements of the walk from the head, in reverse;
        both walks end after exactly `size` elements. */
    lemma WalksAgree(n: nat)
      requires Valid()
      ensures n < size ==> Forward(head, n) != null && Forward(head, n) == Backward(tail, size - 1 - n)
      ensures n >= size ==> Forward(head, n) == null && Backward(tail, n) == null
    {
      ForwardFrom(0, n);
      BackwardFrom(size - 1, if n < size then size - 1 - n else n);
    }

    /** textBuf_get_element_by_pos: null for a negative position and past the end. */
    method GetElementByPos(pos: int) returns (e: Element?)
      requires Valid()
      ensures e == At(elmts, pos)
    {
      if pos < 0 {
        return null;
      }
      var element := head;
      var i := 0;
      while element != null
        invariant 0 <= i <= |elmts| && element == At(elmts, i) && (pos < i ==> false)
        decreases |elmts| - i
      {
        if i == pos {
          return element;
        }
        assert LinkedAt(elmts, i);
        element := element.next;
        i := i + 1;
      }
      return null;
    }

    /** init_buf: the first element of an empty buffer. */
    method InitBuf(newElement: Element)
      requires Valid() && size == 0
      modifies this, newElement
      ensures head == newElement && tail == newElement && size == 0 && elmts == [newElement]
      ensures Chain(elmts)
      ensures newElement.text == old(newElement.text) && newElement.indent == old(newElement.indent)
    {
      head := newElement;
      head.prev := null;
      head.next := null;
      tail := newElement;
      elmts := [newElement];
    }

    /** The link surgery of textBuf_ins_next. */
    method LinkNext(element: Element, newElement: Element, ghost k: nat)
      requires Valid() && k < size && elmts[k] == element && newElement !in elmts
      modifies `tail, newElement`prev, newElement`next, elmts
      ensures Chain(Inserted(elmts, k + 1, newElement))
      ensures LinesOf(Inserted(elmts, k + 1, newElement)) ==
              old(LinesOf(elmts)[..k + 1]) + [Line(newElement.text, newElement.indent)] + old(LinesOf(elmts)[k + 1..])
      ensures tail == if k == size - 1 then newElement else old(tail)
    {
      assert LinkedAt(elmts, k);
      newElement.next := element.next;
      newElement.prev := element;
      if element.next == null {
        tail := newElement;
      } else {
        element.next.prev := newElement;
      }
      element.next := newElement;
      ghost var behind := k + 1;
      forall i | 0 <= i < size ensures RelinkedAt(elmts, behind, newElement, i) {
        assert old(LinkedAt(elmts, i));
      }
      assert LinesOf(elmts) == old(LinesOf(elmts));
      SpliceIn(elmts, behind, newElement);
    }

    /** The link surgery of textBuf_ins_prev. */
    method LinkPrev(element: Element, newElement: Element, ghost k: nat)
      requires Valid() && k < size && elmts[k] == element && newElement !in elmts
      modifies `head, newElement`prev, newElement`next, elmts
      ensures Chain(Inserted(elmts, k, newElement))
      ensures LinesOf(Inserted(elmts, k, newElement)) ==
              old(LinesOf(elmts)[..k]) + [Line(newElement.text, newElement.indent)] + old(LinesOf(elmts)[k..])
      ensures head == if k == 0 then newElement else old(head)
    {
      assert LinkedAt(elmts, k);
      newElement.next := element;
      newElement.prev := element.prev;
      if element.prev == null {
        head := newElement;
      } else {
        element.prev.next := newElement;
      }
      element.prev := newElement;
      forall i | 0 <= i < size ensures RelinkedAt(elmts, k, newElement, i) {
        assert old(LinkedAt(elmts, i));
      }
      assert LinesOf(elmts) == old(LinesOf(elmts));
      SpliceIn(elmts, k, newElement);
    }

    /** The link surgery of textBuf_remove. */
    method Bridge(element: Element, ghost k: nat)
      requires Valid() && k < size && elmts[k] == element
      modifies `head, `tail, elmts
      ensures Distinct(elmts) && forall i :: 0 <= i < size && i != k ==> RelinkedOut(elmts, k, i)
      ensures forall i :: 0 <= i < size ==> LineAt(elmts, i) == old(LineAt(elmts, i))
      ensures head == if k == 0 then At(elmts, 1) else old(head)
      ensures tail == if k == size - 1 then At(elmts, size - 2) else old(tail)
    {
      assert LinkedAt(elmts, k);
      if element == head {
        head := element.next;
        if head == null {
          tail := null;
        } else {
          element.next.prev := null;
        }
      } else {
        element.prev.next := element.next;
        if element.next == null {
          tail := element.prev;
        } else {
          element.next.prev := element.prev;
        }
      }
      forall i | 0 <= i < size && i != k ensures RelinkedOut(elmts, k, i) {
        assert old(LinkedAt(elmts, i));
      }
    }

    /** textBuf_ins_next: a new line behind `element`, which is at position `k`. */
    method InsNext(element: Element?, text: string, indent: int, ghost k: nat) returns (error: Errno)
      requires Valid()
      requires size != 0 && element != null ==> k < size && elmts[k] == element
      modifies this, elmts
      ensures Valid() && fresh(set e | e in elmts && e !in old(elmts))
      ensures error == EINVAL <==> element == null && old(size) != 0
      ensures error == EINVAL ==> unchanged(this) && unchanged(set e | e in elmts)
      ensures error == Ok && old(size) == 0 ==> Lines() == [Line(text, indent)]
      ensures error == Ok && old(size) != 0 ==>
                Lines() == old(Lines()[..k + 1]) + [Line(text, indent)] + old(Lines()[k + 1..])
    {
      hide Chain, Distinct;
      if element == null && size != 0 {
        return EINVAL;
      }
      var newElement := new Element(text, indent);
      if size == 0 {
        InitBuf(newElement);
      } else {
        LinkNext(element, newElement, k);
        elmts := Inserted(elmts, k + 1, newElement);
      }
      size := size + 1;
      error := Ok;
    }

    /** textBuf_ins_prev: a new line before `element`, which is at position `k`. */
    method InsPrev(element: Element?, text: string, indent: int, ghost k: nat) returns (error: Errno)
      requires Valid()
      requires size != 0 && element != null ==> k < size && elmts[k] == element
      modifies this, elmts
      ensures Valid() && fresh(set e | e in elmts && e !in old(elmts))
      ensures error == EINVAL <==> element == null && old(size) != 0
      ensures error == EINVAL ==> unchanged(this) && unchanged(set e | e in elmts)
      ensures error == Ok && old(size) == 0 ==> Lines() == [Line(text, indent)]
      ensures error == Ok && old(size) != 0 ==>
                Lines() == old(Lines()[..k]) + [Line(text, indent)] + old(Lines()[k..])
    {
      hide Chain, Distinct;
      if element == null && size != 0 {
        return EINVAL;
      }
      var newElement := new Element(text, indent);
      if size == 0 {
        InitBuf(newElement);
      } else {
        LinkPrev(element, newElement, k);
        elmts := Inserted(elmts, k, newElement);
      }
      size := size + 1;
      error := Ok;
    }

    /** textBuf_remove: unlinks `element`, which is at position `k`. */
    method Remove(element: Element?, ghost k: nat) returns (error: Errno)
      requires Valid()
      requires size != 0 && element != null ==> k < size && elmts[k] == element
      modifies this, elmts
      ensures Valid() && (forall i :: 0 <= i < |elmts| ==> elmts[i] in old(elmts))
      ensures error == EINVAL <==> element == null || old(size) == 0
      ensures error == EINVAL ==> unchanged(this) && unchanged(set e | e in elmts)
      ensures error == Ok ==> Lines() == old(Lines()[..k]) + old(Lines()[k + 1..])
    {
      hide Chain, Distinct;
      if element == null || size == 0 {
        return EINVAL;
      }
      Bridge(element, k);
      SpliceOut(elmts, k);
      assert LinesOf(elmts) == old(Lines());
      elmts := Removed(elmts, k);
      size := size - 1;
      error := Ok;
    }

    /** textBuf_emplace_back: a new last line. */
    method EmplaceBack(text: string, indent: int)
      requires Valid()
      modifies this, elmts
      ensures Valid() && fresh(set e | e in elmts && e !in old(elmts))
      ensures Lines() == old(Lines()) + [Line(text, indent)]
    {
      if size != 0 {
        var _ := InsNext(tail, text, indent, size - 1);
      } else {
        var _ := InsNext(null, text, indent, 0);
      }
    }

    /** textBuf_pop_head: drops the first line; the caller must not do so on an empty buffer. */
    method PopHead()
      requires Valid() && size > 0
      modifies this, elmts
      ensures Valid() && (forall i :: 0 <= i < |elmts| ==> elmts[i] in old(elmts))
      ensures Lines() == old(Lines())[1..]
    {
      var _ := Remove(head, 0);
    }

    /** textBuf_destroy: removes from the tail until nothing is left. */
    method Destroy()
      requires Valid()
      modifies this, elmts
      ensures Valid() && Lines() == []
    {
      while size > 0
        invariant Valid() && (forall i :: 0 <= i < |elmts| ==> elmts[i] in old(elmts))
        invariant Lines() <= old(Lines())
        decreases size
      {
        var _ := Remove(tail, size - 1);
      }
    }

    /** The buffer part of vprinttext: a full buffer first loses its oldest line. */
    method Print(text: string, indent: int, cap: int)
      requires Valid() && cap >= 1
      modifies this, elmts
      ensures Valid() && fresh(set e | e in elmts && e !in old(elmts))
      ensures Lines() == Printed(old(Lines()), Line(text, indent), cap)
    {
      var tbszp1 := size + 1;
      if tbszp1 > cap {
        PopHead();
      }
      EmplaceBack(text, indent);
    }
  }

  /** The buffer after one more printed line. */
  ghost function Printed(lines: seq<Line>, line: Line, cap: int): seq<Line>
    requires cap >= 1
  {
    (if |lines| + 1 > cap then lines[1..] else lines) + [line]
  }

  /** A run of vprinttext on a new window; the cap is read from the configuration each time. */
  datatype Call = Call(line: Line, cap: int)

  ghost predicate Configured(run: seq<Call>) {
    forall k :: 0 <= k < |run| ==> run[k].cap >= 1
  }

  /** Runs of calls with any positive caps. */
  lemma AnyPositiveCap(run: seq<Call>, call: Call)
    ensures Configured([])
    ensures Configured(run + [call]) <==> Configured(run) && call.cap >= 1
  {
    assert (run + [call])[|run|] == call;
    assert forall k :: 0 <= k < |run| ==> (run + [call])[k] == run[k];
  }

  ghost function After(run: seq<Call>, n: nat): seq<Line>
    requires n <= |run| && Configured(run)
  {
    if n == 0 then [] else Printed(After(run, n - 1), run[n - 1].line, run[n - 1].cap)
  }

  ghost function Log(run: seq<Call>, n: nat): (s: seq<Line>)
    requires n <= |run|
    ensures |s| == n
  {
    seq(n, i requires 0 <= i < n => run[i].line)
  }

  /** How many lines the buffer keeps: it grows only while below the cap of the moment, and it
      never shrinks, not even when the cap is lowered. */
  ghost function Kept(run: seq<Call>, n: nat): (k: nat)
    requires n <= |run| && Configured(run)
    ensures k <= n
  {
    if n == 0 then 0 else
      var k := Kept(run, n - 1);
      if k < run[n - 1].cap then k + 1 else k
  }

  /** Whatever the caps, the buffer is the newest part of everything printed. */
  lemma {:induction false} BufferIsNewest(run: seq<Call>, n: nat)
    requires n <= |run| && Configured(run)
    ensures After(run, n) == Log(run, n)[n - Kept(run, n)..]
    decreases n
  {
    if n > 0 {
      BufferIsNewest(run, n - 1);
      assert Log(run, n) == Log(run, n - 1) + [run[n - 1].line];
    }
  }

  /** With a fixed cap the buffer is the last min(n, cap) printed messages. */
  lemma {:induction false} FixedCap(run: seq<Call>, n: nat, cap: nat)
    requires n <= |run| && Configured(run)
    requires forall k :: 0 <= k < n ==> run[k].cap == cap
    ensures Kept(run, n) == if n <= cap then n else cap
    ensures After(run, n) == if n <= cap then Log(run, n) else Log(run, n)[n - cap..]
    decreases n
  {
    hide After;
    BufferIsNewest(run, n);
    if n > 0 {
      FixedCap(run, n - 1, cap);
    }
  }
}
