/** The in-place stripper of src/squeeze_text_deco.cpp: a read index `i` that moves both
    ways and a write index `j` over one buffer. */
module SqueezeTextDeco {
  import opened Wrappers
  import opened TextDecoration

  datatype Check = GoOn | StopInterpreting

  /** `buffer` held the text `t` and behind it `rest`, a terminator first; only cells below `j` were
      overwritten. */
  ghost predicate Holds(buffer: array<int>, t: Text, rest: Text, j: int)
    reads buffer
  {
    && 0 <= j <= |t| < buffer.Length
    && (forall k :: j <= k < |t| ==> buffer[k] == t[k])
    && rest != [] && rest[0] == 0 && buffer[|t|..] == rest
  }

  /** The interpreter of a colour code gave up at position `p`, which is to be read as plain
      text. Either that was the terminator, or `p` was pushed back or dealt with: what was
      written plus what is still to be read amounts to the same visible text. */
  ghost predicate Resumed(buffer: array<int>, t: Text, rest: Text, written: Text, p: int, i: int, j: int)
    reads buffer
  {
    && 0 <= p <= |t|
    && Holds(buffer, t, rest, j)
    && j <= i + 1
    && (p == |t| ==> i == p && buffer[..j] == written)
    && (p < |t| ==>
          && p - 1 <= i <= p
          && (i == p ==> t[p] != COLOR)
          && buffer[..j] + VisibleFrom(t, i + 1) == written + VisibleFrom(t, p))
  }

  /** The colour code at `start` was read: on an open code the read index is left on the
      terminator; otherwise it is left on the last character dealt with, which is the end of
      the code or the plain character behind it, and no visible text was lost or added. */
  ghost predicate CodeRead(buffer: array<int>, t: Text, rest: Text, written: Text, start: int, i: int, j: int)
    requires 0 <= start < |t|
    reads buffer
  {
    && Holds(buffer, t, rest, j) && j <= i + 1
    && (OpenCode(t, start) ==> i == |t| && buffer[..j] == written)
    && (!OpenCode(t, start) ==>
          && start <= i < |t|
          && (i + 1 == CodeEnd(t, start) || (i == CodeEnd(t, start) && t[i] != COLOR))
          && buffer[..j] + VisibleFrom(t, i + 1) == written + VisibleFrom(t, start))
  }

  method HandleFooSituation(buffer: array<int>, i: int, j: int, ghost t: Text, ghost rest: Text) returns (i': int, j': int)
    requires IsCString(t) && Holds(buffer, t, rest, j)
    requires j <= i <= |t|
    modifies buffer
    ensures Resumed(buffer, t, rest, old(buffer[..j]), i, i', j')
  {
    i', j' := i, j;
    if buffer[i] == 0 {
      return;
    } else if buffer[i] == COLOR {
      i' := i - 1;
    } else if !IsReject(buffer[i]) {
      ghost var written := buffer[..j];
      buffer[j] := buffer[i];
      j' := j + 1;
      assert buffer[..j'] == written + [t[i]];
      ConcatAssoc(written, [t[i]], VisibleFrom(t, i + 1));
    }
  }

  /** `^CN`? */
  method Check1(buffer: array<int>, i: int, j: int, ghost t: Text, ghost rest: Text) returns (res: Check, i': int, j': int)
    requires IsCString(t) && Holds(buffer, t, rest, j)
    requires j <= i < |t| && t[i] == COLOR
    modifies buffer
    ensures res.GoOn? ==> i' == i + 1 < |t| && j' == j && unchanged(buffer) && FgDigits(t, i) > 0
    ensures res.StopInterpreting? ==>
              && CodeEnd(t, i) == i + 1
              && Resumed(buffer, t, rest, old(buffer[..j]), i + 1, i', j')
  {
    i', j' := i + 1, j;
    if !IsDigit(buffer[i']) {
      i', j' := HandleFooSituation(buffer, i', j', t, rest);
      return StopInterpreting, i', j';
    }
    res := GoOn;
  }

  /** `^CNN` or `^CN,`? */
  method Check2(buffer: array<int>, i: int, j: int, ghost start: int, ghost t: Text, ghost rest: Text)
    returns (res: Check, i': int, j': int)
    requires IsCString(t) && Holds(buffer, t, rest, j)
    requires 0 <= start && j <= start && i == start + 1 < |t| && t[start] == COLOR && FgDigits(t, start) > 0
    modifies buffer
    ensures res.GoOn? ==>
              && i' == start + 2 < |t| && j' == j && unchanged(buffer)
              && if FgDigits(t, start) == 2 then IsDigit(t[i']) else t[i'] == COMMA
    ensures res.StopInterpreting? ==>
              && CodeEnd(t, start) == start + 2 && BgDigits(t, start) == 0
              && Resumed(buffer, t, rest, old(buffer[..j]), start + 2, i', j')
  {
    i', j' := i + 1, j;
    if !IsDigit(buffer[i']) && buffer[i'] != COMMA {
      i', j' := HandleFooSituation(buffer, i', j', t, rest);
      return StopInterpreting, i', j';
    }
    res := GoOn;
  }

  /** `^CNN,` or `^CN,N`? */
  method Check3(buffer: array<int>, i: int, j: int, hasComma: bool, ghost start: int, ghost t: Text, ghost rest: Text)
    returns (res: Check, i': int, j': int, hasComma': bool)
    requires IsCString(t) && Holds(buffer, t, rest, j)
    requires 0 <= start && j <= start && i == start + 3 <= |t| && t[start] == COLOR
    requires hasComma <==> t[start + 2] == COMMA
    requires FgDigits(t, start) == if hasComma then 1 else 2
    modifies buffer
    ensures res.GoOn? ==>
              && i' == i < |t| && j' == j && hasComma' && unchanged(buffer)
              && if hasComma then BgDigits(t, start) > 0 else t[i'] == COMMA
    ensures res.StopInterpreting? ==>
              && BgDigits(t, start) == 0
              && Resumed(buffer, t, rest, old(buffer[..j]), CodeEnd(t, start), i', j')
  {
    i', j', hasComma' := i, j, hasComma;
    if !hasComma && buffer[i] == COMMA {
      hasComma' := true;
    } else if hasComma && IsDigit(buffer[i]) {
    } else if hasComma && !IsDigit(buffer[i]) {
      i' := i - 1;
      i', j' := HandleFooSituation(buffer, i', j', t, rest);
      return StopInterpreting, i', j', hasComma';
    } else {
      i', j' := HandleFooSituation(buffer, i', j', t, rest);
      return StopInterpreting, i', j', hasComma';
    }
    res := GoOn;
  }

  /** `^CNN,N` or `^CN,NN`? */
  method Check4(buffer: array<int>, i: int, j: int, ghost start: int, ghost t: Text, ghost rest: Text)
    returns (res: Check, i': int, j': int)
    requires IsCString(t) && Holds(buffer, t, rest, j)
    requires 0 <= start && j <= start && i == start + 3 < |t| && t[start] == COLOR
    requires if t[start + 2] == COMMA then FgDigits(t, start) == 1 && BgDigits(t, start) > 0
             else FgDigits(t, start) == 2 && t[i] == COMMA
    modifies buffer
    ensures res.GoOn? ==>
              && i' == start + 4 < |t| && j' == j && unchanged(buffer)
              && FgDigits(t, start) == 2 && BgDigits(t, start) > 0
    ensures res.StopInterpreting? ==>
              if BgDigits(t, start) == 2
              then i' + 1 == CodeEnd(t, start) && j' == j && unchanged(buffer)
              else && Resumed(buffer, t, rest, old(buffer[..j]), CodeEnd(t, start), i', j')
                   && (BgDigits(t, start) == 0 ==> CodeEnd(t, start) < |t|)
  {
    i', j' := i, j;
    if buffer[i'] == COMMA {
      i' := i' + 1;
      if !IsDigit(buffer[i']) {
        i' := i' - 1;
        i', j' := HandleFooSituation(buffer, i', j', t, rest);
        return StopInterpreting, i', j';
      }
    } else {
      assert IsDigit(buffer[i']);
      i' := i' + 1;
      if IsDigit(buffer[i']) {
        return StopInterpreting, i', j';
      }
      i', j' := HandleFooSituation(buffer, i', j', t, rest);
      return StopInterpreting, i', j';
    }
    res := GoOn;
  }

  /** `^CNN,NN`? */
  method Check5(buffer: array<int>, i: int, j: int, ghost start: int, ghost t: Text, ghost rest: Text)
    returns (res: Check, i': int, j': int)
    requires IsCString(t) && Holds(buffer, t, rest, j)
    requires 0 <= start && j <= start && i == start + 4 < |t| && t[start] == COLOR
    requires FgDigits(t, start) == 2 && BgDigits(t, start) > 0
    modifies buffer
    ensures res.GoOn? ==>
              && BgDigits(t, start) == 2
              && i' + 1 == CodeEnd(t, start) && j' == j && unchanged(buffer)
    ensures res.StopInterpreting? ==>
              && BgDigits(t, start) == 1
              && Resumed(buffer, t, rest, old(buffer[..j]), CodeEnd(t, start), i', j')
  {
    i', j' := i + 1, j;
    if !IsDigit(buffer[i']) {
      i', j' := HandleFooSituation(buffer, i', j', t, rest);
      return StopInterpreting, i', j';
    }
    res := GoOn;
  }

  /** One colour code, read from its first byte. When the text stops inside the code the read
      index is left on the terminator, which the caller then steps over. */
  method Color(buffer: array<int>, i: int, j: int, ghost t: Text, ghost rest: Text) returns (i': int, j': int)
    requires IsCString(t) && Holds(buffer, t, rest, j)
    requires j <= i < |t| && t[i] == COLOR
    modifies buffer
    ensures CodeRead(buffer, t, rest, old(buffer[..j]), i, i', j')
  {
    ghost var written := buffer[..j];
    var res;
    res, i', j' := Check1(buffer, i, j, t, rest);
    if res != GoOn { ResumedIsRead(buffer, t, rest, written, i, i', j'); return; }
    assert buffer[..j] == written && Holds(buffer, t, rest, j);
    res, i', j' := Check2(buffer, i', j', i, t, rest);
    if res != GoOn { ResumedIsRead(buffer, t, rest, written, i, i', j'); return; }
    assert buffer[..j] == written && Holds(buffer, t, rest, j);
    var hasComma := buffer[i'] == COMMA;
    i' := i' + 1;
    res, i', j', hasComma := Check3(buffer, i', j', hasComma, i, t, rest);
    if res != GoOn { ResumedIsRead(buffer, t, rest, written, i, i', j'); return; }
    assert buffer[..j] == written && Holds(buffer, t, rest, j);
    assert hasComma;
    res, i', j' := Check4(buffer, i', j', i, t, rest);
    if res != GoOn { ResumedIsRead(buffer, t, rest, written, i, i', j'); return; }
    assert buffer[..j] == written && Holds(buffer, t, rest, j);
    res, i', j' := Check5(buffer, i', j', i, t, rest);
    ResumedIsRead(buffer, t, rest, written, i, i', j');
  }

  lemma ResumedIsRead(buffer: array<int>, t: Text, rest: Text, written: Text, start: int, i: int, j: int)
    requires 0 <= start < |t| && t[start] == COLOR && Holds(buffer, t, rest, j) && j <= i + 1
    requires || (BgDigits(t, start) == 2 && buffer[..j] == written && i + 1 == CodeEnd(t, start))
             || (BgDigits(t, start) < 2 && Resumed(buffer, t, rest, written, CodeEnd(t, start), i, j))
    ensures CodeRead(buffer, t, rest, written, start, i, j)
  {
  }

  /** The loop body: one plain character, formatting byte or colour code. */
  method StripOne(buffer: array<int>, i: int, j: int, ghost t: Text, ghost rest: Text) returns (i': int, j': int)
    requires IsCString(t) && i < |t| && Progress(buffer, t, rest, i, j)
    modifies buffer
    ensures i <= i' && Progress(buffer, t, rest, i' + 1, j')
  {
    i', j' := i, j;
    ghost var written := buffer[..j];
    if buffer[i] != COLOR {
      if !IsReject(buffer[i]) {
        buffer[j] := buffer[i];
        j' := j + 1;
        assert buffer[..j'] == written + [t[i]];
      }
      ProgressOverPlain(buffer, t, rest, written, i, j');
    } else {
      i', j' := Color(buffer, i, j, t, rest);
      ProgressOverCode(buffer, t, rest, written, i, i', j');
    }
  }

  /** Strips `buffer`, which holds the C string `t`, whatever stands behind its terminator. `safe`
      says that reading never went on behind the terminator: true exactly when the text does not
      stop inside a colour code, or a second terminator follows the first. Then the buffer holds
      the visible text. */
  method SqueezeTextDeco(buffer: array<int>, ghost t: Text) returns (safe: bool)
    requires IsCString(t) && |t| < buffer.Length && buffer[..|t|] == t && buffer[|t|] == 0
    modifies buffer
    ensures safe <==> !EndsInsideCode(t) || (|t| + 1 < buffer.Length && old(buffer[|t| + 1]) == 0)
    ensures safe ==> |Visible(t)| <= |t| && buffer[..|Visible(t)|] == Visible(t) && buffer[|Visible(t)|] == 0
  {
    if buffer[0] == 0 {
      assert |t| == 0;
      return true;
    }
    ghost var rest := buffer[|t|..];
    assert Holds(buffer, t, rest, 0);
    var j;
    safe, j := Strip(buffer, t, rest);
    if !safe {
      return;
    }
    ghost var visible := Visible(t);
    buffer[j] := 0;
    assert buffer[..j] == visible;
  }

  /** The loop; `j` cells of the visible text are left. */
  method Strip(buffer: array<int>, ghost t: Text, ghost rest: Text) returns (safe: bool, j: int)
    requires IsCString(t) && Holds(buffer, t, rest, 0)
    modifies buffer
    ensures safe <==> !EndsInsideCode(t) || (|rest| > 1 && rest[1] == 0)
    ensures safe ==> 0 <= j <= |t| && Holds(buffer, t, rest, j) && buffer[..j] == Visible(t)
  {
    hide EndsInsideCode, Visible, Holds;
    j := 0;
    var i := 0;
    ProgressAtStart(buffer, t, rest);
    ProgressEnds(buffer, t, rest, i, j);
    while i < buffer.Length && buffer[i] != 0
      invariant Progress(buffer, t, rest, i, j) && i <= buffer.Length
      invariant i == |t| + 1 ==> i < buffer.Length && buffer[i] == 0
      decreases |t| + 1 - i
    {
      ProgressEnds(buffer, t, rest, i, j);
      i, j := StripOne(buffer, i, j, t, rest);
      StopsAtTerminator(buffer, t, rest, i, j);
      if buffer[i] == 0 && (i + 1 == buffer.Length || buffer[i + 1] != 0) {
        return false, j;
      }
      i := i + 1;
    }
    ProgressEnds(buffer, t, rest, i, j);
    safe := true;
  }

  /** Where the loop can stop, and what it has then. */
  lemma ProgressEnds(buffer: array<int>, t: Text, rest: Text, i: int, j: int)
    requires IsCString(t) && Progress(buffer, t, rest, i, j)
    ensures i < |t| ==> i < buffer.Length && buffer[i] != 0
    ensures i >= |t| ==> 0 <= j <= |t| && Holds(buffer, t, rest, j) && buffer[..j] == Visible(t)
    ensures i == |t| ==> !EndsInsideCode(t) && i < buffer.Length && buffer[i] == 0
    ensures i == |t| + 1 ==> EndsInsideCode(t)
    ensures |t| + |rest| == buffer.Length
    ensures |t| + 1 < buffer.Length ==> buffer[|t| + 1] == rest[1]
  {
    assert buffer[|t|] == rest[0];
    if i == |t| {
      assert buffer[..j] + [] == buffer[..j];
    }
  }

  /** Behind one round, the read index stands on a zero only if that is the terminator. */
  lemma StopsAtTerminator(buffer: array<int>, t: Text, rest: Text, i: int, j: int)
    requires IsCString(t) && 0 <= i && Progress(buffer, t, rest, i + 1, j)
    ensures i < buffer.Length && (buffer[i] == 0 <==> i == |t|)
    ensures i == |t| && i + 1 < buffer.Length ==> buffer[i + 1] == rest[1]
  {
    VisibleIsCString(t, 0);
    if i < |t| && j == i + 1 {
      assert buffer[i] == buffer[..j][i] == Visible(t)[i];
    }
    assert buffer[|t|] == rest[0];
  }

  /** What was written and what is still to be read make up the visible text, and whether the
      text stops inside a code is still to be found out; reading past the terminator means
      that it does. */
  ghost predicate Progress(buffer: array<int>, t: Text, rest: Text, i: int, j: int)
    reads buffer
  {
    && 0 <= j <= i <= |t| + 1 && Holds(buffer, t, rest, j)
    && (i <= |t| ==>
          && buffer[..j] + VisibleFrom(t, i) == Visible(t)
          && (EndsInsideCode(t) <==> EndsInsideCodeFrom(t, i)))
    && (i == |t| + 1 ==> EndsInsideCode(t) && buffer[..j] == Visible(t))
  }

  lemma ProgressAtStart(buffer: array<int>, t: Text, rest: Text)
    requires Holds(buffer, t, rest, 0)
    ensures Progress(buffer, t, rest, 0, 0)
  {
    assert buffer[..0] == [];
  }

  lemma ProgressOverPlain(buffer: array<int>, t: Text, rest: Text, written: Text, i: int, j: int)
    requires 0 <= i < |t| && t[i] != COLOR && Holds(buffer, t, rest, j) && j <= i + 1
    requires buffer[..j] == if IsReject(t[i]) then written else written + [t[i]]
    requires written + VisibleFrom(t, i) == Visible(t)
    requires EndsInsideCode(t) <==> EndsInsideCodeFrom(t, i)
    ensures Progress(buffer, t, rest, i + 1, j)
  {
    EndsInsideAfterPlain(t, i);
    ConcatAssoc(written, [t[i]], VisibleFrom(t, i + 1));
    assert i + 1 == |t| ==> VisibleFrom(t, i + 1) == [];
  }

  lemma ProgressOverCode(buffer: array<int>, t: Text, rest: Text, written: Text, start: int, i: int, j: int)
    requires 0 <= start < |t| && t[start] == COLOR
    requires CodeRead(buffer, t, rest, written, start, i, j)
    requires written + VisibleFrom(t, start) == Visible(t)
    requires EndsInsideCode(t) <==> EndsInsideCodeFrom(t, start)
    ensures Progress(buffer, t, rest, i + 1, j)
  {
    EndsInsideAfterCode(t, start);
    if !OpenCode(t, start) && i == CodeEnd(t, start) {
      EndsInsideAfterPlain(t, i);
    }
  }

  /** Newline-terminated text, the form the renderer uses, is always stripped safely. */
  lemma NewlineTerminatedIsSafe(t: Text)
    requires |t| > 0 && t[|t| - 1] == NEWLINE
    ensures !EndsInsideCode(t)
  {
    PlainEndIsOutsideCode(t);
  }
}
