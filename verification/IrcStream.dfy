/** The byte stream of an IRC connection as messages (section 2.3 of RFC 2812), and what
    src/irc.c makes of it when it arrives in chunks. */
module IrcStream {
  import opened Wrappers

  predicate IsSeparator(c: char) {
    c == '\r' || c == '\n'
  }

  ghost predicate NoSeparator(s: string) {
    forall k :: 0 <= k < |s| ==> !IsSeparator(s[k])
  }

  /** Messages completed, and the unterminated tail that is left. */
  datatype Split = Split(messages: seq<string>, tail: string)

  /** The reference: reads `s` from `i` on, one character at a time, with `tail` already read
      and not yet terminated. Any separator ends a message; empty messages do not count. */
  function Feed(tail: string, s: string, i: nat): Split
    requires i <= |s|
    decreases |s| - i
  {
    if i == |s| then Split([], tail)
    else if !IsSeparator(s[i]) then Feed(tail + [s[i]], s, i + 1)
    else
      var rest := Feed([], s, i + 1);
      if tail == [] then rest else Split([tail] + rest.messages, rest.tail)
  }

  /** What a whole stream says. */
  function Stream(s: string): Split {
    Feed([], s, 0)
  }

  /** Where the next token starts, and where a token ends: what strtok_r looks for. */
  function SkipSeparators(s: string, i: nat): (j: nat)
    requires i <= |s|
    ensures i <= j <= |s| && (j < |s| ==> !IsSeparator(s[j]))
    ensures forall k :: i <= k < j ==> IsSeparator(s[k])
    decreases |s| - i
  {
    if i == |s| || !IsSeparator(s[i]) then i else SkipSeparators(s, i + 1)
  }

  function TokenEnd(s: string, i: nat): (j: nat)
    requires i <= |s|
    ensures i <= j <= |s| && (j < |s| ==> IsSeparator(s[j]))
    ensures forall k :: i <= k < j ==> !IsSeparator(s[k])
    decreases |s| - i
  {
    if i == |s| || IsSeparator(s[i]) then i else TokenEnd(s, i + 1)
  }

  lemma {:induction false} TokenEndIs(s: string, i: nat, n: nat)
    requires i <= n <= |s| && (n < |s| ==> IsSeparator(s[n]))
    requires forall k :: i <= k < n ==> !IsSeparator(s[k])
    ensures TokenEnd(s, i) == n
    decreases n - i
  {
    if i < n {
      TokenEndIs(s, i + 1, n);
    }
  }

  predicate HasSeparator(s: string) {
    LastSeparator(s) >= 0
  }

  /** Position of the last separator, and of the last line feed, or -1. */
  function LastSeparator(s: string): (k: int)
    ensures -1 <= k < |s| && (k >= 0 ==> IsSeparator(s[k]))
    ensures forall j :: k < j < |s| ==> !IsSeparator(s[j])
  {
    if s == [] then -1
    else if IsSeparator(s[|s| - 1]) then |s| - 1
    else LastSeparator(s[..|s| - 1])
  }

  function LastLf(s: string): (k: int)
    ensures -1 <= k < |s| && (k >= 0 ==> s[k] == '\n')
    ensures forall j :: k < j < |s| ==> s[j] != '\n'
  {
    if s == [] then -1
    else if s[|s| - 1] == '\n' then |s| - 1
    else LastLf(s[..|s| - 1])
  }

  predicate IsTerminated(chunk: string) {
    chunk != [] && IsSeparator(chunk[|chunk| - 1])
  }

  /** One call of irc_handle_interpret_events: messages handed on, what is carried over to the
      next call, and whether the connection was given up. */
  datatype Outcome = Outcome(messages: seq<string>, carry: Option<string>, disconnect: bool)

  /** The token loop. */
  function TokenLoop(s: string, pos: nat, first: bool, carry: Option<string>, lastToken: Option<string>): Outcome
    requires pos <= |s|
    decreases |s| - pos
  {
    var start := SkipSeparators(s, pos);
    if start == |s| then Outcome([], carry, false)
    else
      var end := TokenEnd(s, start);
      var token := s[start..end];
      if lastToken == Some(token) && carry == None then Outcome([], Some(token), false)
      else
        var message := if first && carry.Some? then carry.value + token else token;
        var rest := TokenLoop(s, if end == |s| then end else end + 1, false, if first then None else carry, lastToken);
        rest.(messages := [message] + rest.messages)
  }

  /** The whole call. */
  function Handle(carry: Option<string>, chunk: string): Outcome {
    if !HasSeparator(chunk) then Outcome([], carry, false)
    else
      var flush := carry.Some? && |chunk| > 1 && chunk[0] == '\r' && chunk[1] == '\n';
      var flushed := if flush then [carry.value] else [];
      var carried := if flush then None else carry;
      if !IsTerminated(chunk) && LastLf(chunk) < 0 then Outcome(flushed, carried, true)
      else
        var lastToken := if IsTerminated(chunk) then None else Some(chunk[LastLf(chunk) + 1..]);
        var out := TokenLoop(chunk, 0, true, carried, lastToken);
        Outcome(flushed + out.messages, out.carry, false)
  }

  function CarryOf(tail: string): Option<string> {
    if tail == [] then None else Some(tail)
  }

  function TailOf(carry: Option<string>): string {
    if carry.Some? then carry.value else []
  }

  /** What is carried over is never empty and holds no separator. */
  ghost predicate ValidCarry(carry: Option<string>) {
    carry.Some? ==> carry.value != [] && NoSeparator(carry.value)
  }

  /** The call did what the reference does with the chunk. */
  ghost predicate Faithful(carry: Option<string>, chunk: string) {
    var out, ref := Handle(carry, chunk), Feed(TailOf(carry), chunk, 0);
    out.messages == ref.messages && out.carry == CarryOf(ref.tail)
  }

  /** The chunk continues the message that is carried over. */
  predicate Continues(carry: Option<string>, chunk: string) {
    carry.Some? && chunk != [] && !IsSeparator(chunk[0])
  }

  /** Complete lines of the chunk that the code compares with the chunk's own tail: all but the
      one that completes the carried message. */
  function ComparedLines(carry: Option<string>, chunk: string): seq<string> {
    var lines := Stream(chunk).messages;
    if Continues(carry, chunk) && lines != [] then lines[1..] else lines
  }

  /** When a call is faithful, in terms of the chunk alone: it holds a separator; a message that
      is carried over is continued or ended by CR LF; and an unterminated tail stands behind a
      line feed and is not equal to a complete line of the same chunk. */
  predicate Handled(carry: Option<string>, chunk: string) {
    || chunk == []
    || (&& HasSeparator(chunk)
        && (carry.Some? ==> Continues(carry, chunk) || (|chunk| > 1 && chunk[0] == '\r' && chunk[1] == '\n'))
        && (IsTerminated(chunk) ||
            (chunk[LastSeparator(chunk)] == '\n' && Stream(chunk).tail !in ComparedLines(carry, chunk))))
  }

  lemma {:induction false} FeedRun(tail: string, s: string, i: nat, j: nat)
    requires i <= j <= |s| && forall k :: i <= k < j ==> !IsSeparator(s[k])
    ensures Feed(tail, s, i) == Feed(tail + s[i..j], s, j)
    decreases j - i
  {
    if i == j {
      assert tail + s[i..j] == tail;
    } else {
      FeedRun(tail + [s[i]], s, i + 1, j);
      assert tail + [s[i]] + s[i + 1..j] == tail + s[i..j];
    }
  }

  lemma {:induction false} FeedSkip(s: string, i: nat, j: nat)
    requires i <= j <= |s| && forall k :: i <= k < j ==> IsSeparator(s[k])
    ensures Feed([], s, i) == Feed([], s, j)
    decreases j - i
  {
    if i < j {
      FeedSkip(s, i + 1, j);
    }
  }

  /** Reading one token with the reference. */
  lemma FeedToken(tail: string, s: string, pos: nat)
    requires pos <= |s| && (tail == [] || (pos < |s| && !IsSeparator(s[pos])))
    ensures var start := SkipSeparators(s, pos);
            if start == |s| then tail == [] && Feed(tail, s, pos) == Split([], [])
            else
              var end := TokenEnd(s, start);
              var token := tail + s[start..end];
              && start < end && token != []
              && if end == |s| then Feed(tail, s, pos) == Split([], token)
                 else var rest := Feed([], s, end + 1);
                      Feed(tail, s, pos) == Split([token] + rest.messages, rest.tail)
  {
    var start := SkipSeparators(s, pos);
    if tail == [] {
      FeedSkip(s, pos, start);
    }
    if start < |s| {
      FeedRun(tail, s, start, TokenEnd(s, start));
    }
  }

  lemma TailMoves(tail: string, s: string, i: nat)
    requires i < |s|
    ensures tail + [s[i]] + s[i + 1..] == tail + s[i..]
  {
    assert [s[i]] + s[i + 1..] == s[i..];
  }

  /** The reference holds back exactly what stands behind the last separator. */
  lemma {:induction false} FeedTail(tail: string, s: string, i: nat)
    requires i <= |s|
    ensures LastSeparator(s) >= i ==> Feed(tail, s, i).tail == s[LastSeparator(s) + 1..]
    ensures LastSeparator(s) < i ==> Feed(tail, s, i).tail == tail + s[i..]
    decreases |s| - i
  {
    hide LastSeparator;
    if i == |s| {
      assert tail + s[i..] == tail;
    } else if IsSeparator(s[i]) {
      FeedTail([], s, i + 1);
      assert [] + s[i + 1..] == s[i + 1..];
    } else {
      FeedTail(tail + [s[i]], s, i + 1);
      TailMoves(tail, s, i);
    }
  }

  /** The token loop on a terminated chunk: every token is a complete line. */
  lemma {:induction false} LoopTerminated(s: string, pos: nat)
    requires pos <= |s| && IsTerminated(s)
    ensures TokenLoop(s, pos, false, None, None) == Outcome(Feed([], s, pos).messages, None, false)
    ensures Feed([], s, pos).tail == []
    decreases |s| - pos
  {
    FeedToken([], s, pos);
    var start := SkipSeparators(s, pos);
    if start < |s| {
      var end := TokenEnd(s, start);
      assert [] + s[start..end] == s[start..end];
      LoopTerminated(s, end + 1);
    }
  }

  /** The token loop with a tail to look for, when it is the reference's tail and no complete
      line is equal to it: it stops at the tail. */
  lemma {:induction false} LoopStopsAtTail(s: string, pos: nat, last: string)
    requires pos <= |s| && !IsTerminated(s)
    requires last == Feed([], s, pos).tail && last != [] && last !in Feed([], s, pos).messages
    ensures TokenLoop(s, pos, false, None, Some(last)) == Outcome(Feed([], s, pos).messages, Some(last), false)
    decreases |s| - pos
  {
    FeedToken([], s, pos);
    var start := SkipSeparators(s, pos);
    var end := TokenEnd(s, start);
    assert [] + s[start..end] == s[start..end];
    if end < |s| {
      assert s[start..end] in Feed([], s, pos).messages;
      LoopStopsAtTail(s, end + 1, last);
    }
  }

  /** When a complete line is equal to the tail the loop stops there, too early. */
  lemma {:induction false} LoopStopsEarly(s: string, pos: nat, last: string)
    requires pos <= |s| && last in Feed([], s, pos).messages
    ensures |TokenLoop(s, pos, false, None, Some(last)).messages| < |Feed([], s, pos).messages|
    decreases |s| - pos
  {
    FeedToken([], s, pos);
    var start := SkipSeparators(s, pos);
    var end := TokenEnd(s, start);
    assert [] + s[start..end] == s[start..end];
    assert start < |s| && end < |s|;
    if s[start..end] != last {
      LoopStopsEarly(s, end + 1, last);
    }
  }

  /** When no token is equal to what is looked for, the tail is handed on as if complete. */
  lemma {:induction false} LoopTakesTail(s: string, pos: nat, last: string)
    requires pos <= |s| && last !in Feed([], s, pos).messages
    requires Feed([], s, pos).tail != [] && last != Feed([], s, pos).tail
    ensures |TokenLoop(s, pos, false, None, Some(last)).messages| > |Feed([], s, pos).messages|
    decreases |s| - pos
  {
    FeedToken([], s, pos);
    var start := SkipSeparators(s, pos);
    var end := TokenEnd(s, start);
    assert [] + s[start..end] == s[start..end];
    if end < |s| {
      assert s[start..end] in Feed([], s, pos).messages;
      LoopTakesTail(s, end + 1, last);
    }
  }

  lemma {:induction false} FeedMessagesPlain(tail: string, s: string, i: nat)
    requires i <= |s| && NoSeparator(tail)
    ensures forall m :: m in Feed(tail, s, i).messages ==> m != [] && NoSeparator(m)
    ensures NoSeparator(Feed(tail, s, i).tail)
    decreases |s| - i
  {
    if i < |s| {
      FeedMessagesPlain(if IsSeparator(s[i]) then [] else tail + [s[i]], s, i + 1);
    }
  }

  /** The whole stream has one tail, wherever in it the reading of a message starts. */
  lemma SameTail(s: string, pos: nat)
    requires pos <= |s| && HasSeparator(s) && (pos == 0 || IsSeparator(s[pos - 1]))
    ensures Feed([], s, pos).tail == Stream(s).tail == s[LastSeparator(s) + 1..]
  {
    FeedTail([], s, pos);
    FeedTail([], s, 0);
    assert [] + s[pos..] == s[pos..];
  }

  /** The tail the code looks for is the reference's tail exactly when a line feed stands in
      front of it. */
  lemma LastTokenIsTail(s: string)
    requires HasSeparator(s) && !IsTerminated(s)
    ensures Stream(s).tail != []
    ensures s[LastSeparator(s)] == '\n' ==> LastLf(s) >= 0 && s[LastLf(s) + 1..] == Stream(s).tail
    ensures s[LastSeparator(s)] != '\n' && LastLf(s) >= 0 ==> !NoSeparator(s[LastLf(s) + 1..])
  {
    SameTail(s, 0);
    var at := LastSeparator(s);
    if s[at] != '\n' && LastLf(s) >= 0 {
      assert s[LastLf(s) + 1..][at - LastLf(s) - 1] == s[at];
    }
  }

  /** The token loop on an unterminated chunk is faithful exactly under the condition. */
  lemma LoopFaithful(s: string, pos: nat)
    requires HasSeparator(s) && !IsTerminated(s) && LastLf(s) >= 0
    requires pos <= |s| && (pos == 0 || IsSeparator(s[pos - 1]))
    ensures var ref, t := Feed([], s, pos), Stream(s).tail;
            var out := TokenLoop(s, pos, false, None, Some(s[LastLf(s) + 1..]));
            && ref.tail == t && t != []
            && (out.messages == ref.messages && out.carry == Some(t) <==>
                s[LastSeparator(s)] == '\n' && t !in ref.messages)
  {
    SameTail(s, pos);
    LastTokenIsTail(s);
    FeedMessagesPlain([], s, pos);
    var t, last := Stream(s).tail, s[LastLf(s) + 1..];
    if s[LastSeparator(s)] == '\n' {
      if t in Feed([], s, pos).messages {
        LoopStopsEarly(s, pos, t);
      } else {
        LoopStopsAtTail(s, pos, t);
      }
    } else {
      assert NoSeparator(t);
      LoopTakesTail(s, pos, last);
    }
  }

  /** Nothing carried over: the loop starts as if it had been running. */
  lemma FirstRound(s: string, lastToken: Option<string>)
    ensures TokenLoop(s, 0, true, None, lastToken) == TokenLoop(s, 0, false, None, lastToken)
  {
  }

  lemma FaithfulWithoutCarry(chunk: string)
    requires HasSeparator(chunk)
    ensures Faithful(None, chunk) <==> Handled(None, chunk)
  {
    hide TokenLoop, Feed;
    if IsTerminated(chunk) {
      FirstRound(chunk, None);
      LoopTerminated(chunk, 0);
    } else {
      LastTokenIsTail(chunk);
      if LastLf(chunk) >= 0 {
        FirstRound(chunk, Some(chunk[LastLf(chunk) + 1..]));
        LoopFaithful(chunk, 0);
      }
    }
  }

  lemma FaithfulAfterFlush(carry: Option<string>, chunk: string)
    requires ValidCarry(carry) && carry.Some?
    requires |chunk| > 1 && chunk[0] == '\r' && chunk[1] == '\n'
    ensures Faithful(carry, chunk) <==> Handled(carry, chunk)
  {
    assert HasSeparator(chunk);
    FaithfulWithoutCarry(chunk);
    var out, plain := Handle(carry, chunk), Handle(None, chunk);
    var ref, stream := Feed(carry.value, chunk, 0), Stream(chunk);
    assert out.messages == [carry.value] + plain.messages && out.carry == plain.carry;
    assert ref == Split([carry.value] + stream.messages, stream.tail);
    SameRest(carry.value, plain.messages, stream.messages);
  }

  /** How the reference and the code take a chunk that continues the carried message. */
  lemma FeedContinuation(carry: Option<string>, chunk: string)
    requires ValidCarry(carry) && Continues(carry, chunk) && HasSeparator(chunk)
    ensures var end := TokenEnd(chunk, 0);
            var ref := Feed([], chunk, end + 1);
            && Feed(carry.value, chunk, 0) == Split([carry.value + chunk[0..end]] + ref.messages, ref.tail)
            && ComparedLines(carry, chunk) == ref.messages
            && Stream(chunk).tail == ref.tail
  {
    assert SkipSeparators(chunk, 0) == 0;
    FeedToken(carry.value, chunk, 0);
    FeedToken([], chunk, 0);
    SameTail(chunk, TokenEnd(chunk, 0) + 1);
  }

  lemma HandleContinuation(carry: Option<string>, chunk: string)
    requires Continues(carry, chunk) && HasSeparator(chunk)
    requires IsTerminated(chunk) || LastLf(chunk) >= 0
    ensures var end := TokenEnd(chunk, 0);
            var lastToken := if IsTerminated(chunk) then None else Some(chunk[LastLf(chunk) + 1..]);
            var loop := TokenLoop(chunk, end + 1, false, None, lastToken);
            var out := Handle(carry, chunk);
            out.messages == [carry.value + chunk[0..end]] + loop.messages && out.carry == loop.carry
  {
    assert SkipSeparators(chunk, 0) == 0;
    var lastToken := if IsTerminated(chunk) then None else Some(chunk[LastLf(chunk) + 1..]);
    var loop := TokenLoop(chunk, 0, true, carry, lastToken);
    assert [] + loop.messages == loop.messages;
    assert Handle(carry, chunk) == Outcome([] + loop.messages, loop.carry, false);
  }

  lemma FaithfulOnContinuation(carry: Option<string>, chunk: string)
    requires ValidCarry(carry) && Continues(carry, chunk) && HasSeparator(chunk)
    ensures Faithful(carry, chunk) <==> Handled(carry, chunk)
  {
    hide TokenEnd, SkipSeparators, TokenLoop, Feed, ComparedLines, LastSeparator, LastLf;
    var end := TokenEnd(chunk, 0);
    FeedContinuation(carry, chunk);
    if IsTerminated(chunk) {
      HandleContinuation(carry, chunk);
      LoopTerminated(chunk, end + 1);
    } else {
      LastTokenIsTail(chunk);
      if LastLf(chunk) >= 0 {
        HandleContinuation(carry, chunk);
        LoopFaithful(chunk, end + 1);
        var loop := TokenLoop(chunk, end + 1, false, None, Some(chunk[LastLf(chunk) + 1..]));
        SameRest(carry.value + chunk[0..end], loop.messages, Feed([], chunk, end + 1).messages);
      }
    }
  }

  lemma SameRest(first: string, a: seq<string>, b: seq<string>)
    ensures [first] + a == [first] + b <==> a == b
  {
    assert ([first] + a)[1..] == a && ([first] + b)[1..] == b;
  }

  lemma UnfaithfulSeparatorFirst(carry: Option<string>, chunk: string)
    requires ValidCarry(carry) && carry.Some?
    requires chunk != [] && IsSeparator(chunk[0]) && !(|chunk| > 1 && chunk[0] == '\r' && chunk[1] == '\n')
    ensures !Faithful(carry, chunk)
  {
    var out, ref := Handle(carry, chunk), Feed(carry.value, chunk, 0);
    assert ref.messages[0] == carry.value;
    var start := SkipSeparators(chunk, 0);
    if out.messages != [] {
      assert out.messages[0] == carry.value + chunk[start..TokenEnd(chunk, start)];
      assert |out.messages[0]| > |carry.value|;
    }
  }

  /** One call does what the reference does exactly when the chunk is one the code can handle. */
  lemma FaithfulExactly(carry: Option<string>, chunk: string)
    requires ValidCarry(carry)
    ensures Faithful(carry, chunk) <==> Handled(carry, chunk)
  {
    if chunk == [] {
    } else if !HasSeparator(chunk) {
      FeedRun(TailOf(carry), chunk, 0, |chunk|);
      assert chunk[0..|chunk|] == chunk;
    } else if carry == None {
      FaithfulWithoutCarry(chunk);
    } else if Continues(carry, chunk) {
      FaithfulOnContinuation(carry, chunk);
    } else if |chunk| > 1 && chunk[0] == '\r' && chunk[1] == '\n' {
      FaithfulAfterFlush(carry, chunk);
    } else {
      UnfaithfulSeparatorFirst(carry, chunk);
    }
  }

  /** A chunk without a separator is dropped. */
  lemma UnfaithfulWithoutSeparator(carry: Option<string>, chunk: string)
    requires ValidCarry(carry) && chunk != [] && !HasSeparator(chunk)
    ensures !Faithful(carry, chunk)
    ensures Handle(carry, chunk) == Outcome([], carry, false) && Feed(TailOf(carry), chunk, 0) == Split([], TailOf(carry) + chunk)
  {
    FaithfulExactly(carry, chunk);
    FeedRun(TailOf(carry), chunk, 0, |chunk|);
    assert chunk[0..|chunk|] == chunk;
  }

  /** Three words with single or double separators between them, up to the end of the chunk. */
  lemma ThreeTokens(s: string, a: nat, b: nat, c: nat, d: nat)
    requires 0 < a < b < c < d < |s|
    requires SkipSeparators(s, 0) == 0 && TokenEnd(s, 0) == a
    requires SkipSeparators(s, a + 1) == b && TokenEnd(s, b) == c
    requires SkipSeparators(s, c + 1) == d && TokenEnd(s, d) == |s|
    ensures Stream(s) == Split([s[0..a], s[b..c]], s[d..])
  {
    hide Feed, SkipSeparators, TokenEnd;
    FeedToken([], s, 0);
    FeedToken([], s, a + 1);
    FeedToken([], s, c + 1);
    assert [] + s[0..a] == s[0..a] && [] + s[b..c] == s[b..c] && [] + s[d..|s|] == s[d..];
    assert [s[0..a]] + ([s[b..c]] + []) == [s[0..a], s[b..c]];
  }

  /** A line equal to the tail: the loop stops at the line, and both it and what follows are lost. */
  lemma LineEqualToTailFails()
    ensures var chunk := "a\r\nb\r\na";
            && Stream(chunk) == Split(["a", "b"], "a")
            && Handle(None, chunk) == Outcome([], Some("a"), false)
            && !Faithful(None, chunk)
  {
    hide LastLf, LastSeparator, Feed, Stream, TokenLoop;
    var chunk := "a\r\nb\r\na";
    assert chunk[5] == '\n' && chunk[6] == 'a';
    assert LastLf(chunk) == 5;
    ThreeTokens(chunk, 1, 3, 4, 6);
    assert chunk[0..1] == "a" && chunk[3..4] == "b" && chunk[6..] == "a";
    LoopStep(chunk, 0, true, Some("a"));
    assert Stream(chunk) == Feed([], chunk, 0) by {
      StreamIsFeed(chunk);
    }
  }

  lemma StreamIsFeed(s: string)
    ensures Stream(s) == Feed([], s, 0)
  {
  }

  /** A tail behind a lone CR: it is looked for behind the last LF, and given out as a message. */
  lemma TailBehindCrFails()
    ensures var chunk := "a\nb\rc";
            && Stream(chunk) == Split(["a", "b"], "c")
            && Handle(None, chunk) == Outcome(["a", "b", "c"], None, false)
            && !Faithful(None, chunk)
  {
    hide LastLf, LastSeparator, Feed, Stream, TokenLoop;
    var chunk := "a\nb\rc";
    assert chunk[1] == '\n' && chunk[2] == 'b' && chunk[3] == '\r' && chunk[4] == 'c';
    assert LastLf(chunk) == 1;
    ThreeTokens(chunk, 1, 2, 3, 4);
    assert chunk[0..1] == "a" && chunk[2..3] == "b" && chunk[4..5] == "c" && chunk[2..] == "b\rc";
    LoopStep(chunk, 0, true, Some("b\rc"));
    LoopStep(chunk, 2, false, Some("b\rc"));
    LoopStep(chunk, 4, false, Some("b\rc"));
    LoopStep(chunk, 5, false, Some("b\rc"));
    StreamIsFeed(chunk);
  }

  /** One round of the token loop without a carry. */
  lemma LoopStep(s: string, pos: nat, first: bool, lastToken: Option<string>)
    requires pos <= |s|
    ensures var start := SkipSeparators(s, pos);
            if start == |s| then TokenLoop(s, pos, first, None, lastToken) == Outcome([], None, false)
            else
              var end := TokenEnd(s, start);
              var token := s[start..end];
              var rest := TokenLoop(s, if end == |s| then end else end + 1, false, None, lastToken);
              TokenLoop(s, pos, first, None, lastToken) ==
              if lastToken == Some(token) then Outcome([], Some(token), false) else rest.(messages := [token] + rest.messages)
  {
  }
}
